/**
 * The backing store of groups, reduced to the one thing `GroupPath`
 * asks of it: the listing of stored labels, whose order is the order in
 * which the query returns them. Around it, the `GroupPath` operations
 * that read or change the store: lookup, `is_virtual`, `has_group`,
 * `get_or_create_group`, `delete_group`, and the traversals `children`,
 * `__iter__`, `__len__`, `__contains__` and `walk`.
 */
module Store {
  import opened Wrappers
  import opened Segments
  import opened GroupPaths
  import opened Listing

  /** A stored group; the model knows it by its label only. */
  datatype Group = Group(name: string)

  /** `xs` with every occurrence of `x` taken out, the rest in order. */
  function Without(xs: seq<string>, x: string): (r: seq<string>)
    ensures forall y :: y in r <==> y in xs && y != x
    ensures |r| <= |xs|
    ensures x !in xs ==> r == xs
  {
    if xs == [] then []
    else
      var r := Without(xs[..|xs| - 1], x);
      var y := xs[|xs| - 1];
      assert xs == xs[..|xs| - 1] + [y];
      if y == x then r else r + [y]
  }

  /** Removing a label keeps the others distinct. */
  lemma {:induction false} WithoutDistinct(xs: seq<string>, x: string)
    requires Distinct(xs)
    ensures Distinct(Without(xs, x))
  {
    if xs != [] {
      var init := xs[..|xs| - 1];
      var y := xs[|xs| - 1];
      assert xs == init + [y];
      assert Distinct(init) by {
        forall i, j | 0 <= i < j < |init| ensures init[i] != init[j] {
          assert init[i] == xs[i] && init[j] == xs[j];
        }
      }
      WithoutDistinct(init, x);
      var r := Without(init, x);
      if y != x {
        assert y !in init;
        forall i, j | 0 <= i < j < |r + [y]| ensures (r + [y])[i] != (r + [y])[j] {
          if j == |r| {
            assert (r + [y])[i] in r;
          } else {
            assert (r + [y])[i] == r[i] && (r + [y])[j] == r[j];
          }
        }
      }
    }
  }

  /**
   * In a listing without repetitions, removing the label at position `i`
   * drops exactly that position and keeps the rest in order.
   */
  lemma {:induction false} WithoutAt(xs: seq<string>, i: nat)
    requires Distinct(xs) && i < |xs|
    ensures Without(xs, xs[i]) == xs[..i] + xs[i + 1..]
  {
    var x := xs[i];
    var init := xs[..|xs| - 1];
    var y := xs[|xs| - 1];
    assert xs == init + [y];
    if i == |xs| - 1 {
      assert x !in init;
      assert xs[i + 1..] == [];
    } else {
      assert Distinct(init) by {
        forall a, b | 0 <= a < b < |init| ensures init[a] != init[b] {
          assert init[a] == xs[a] && init[b] == xs[b];
        }
      }
      assert init[i] == x && y != x;
      WithoutAt(init, i);
      assert init[..i] == xs[..i];
      assert init[i + 1..] + [y] == xs[i + 1..];
    }
  }

  /** The last segment of `k` is `key`. */
  predicate Named(k: GroupPath, key: string)
  {
    |k.segs| > 0 && k.segs[|k.segs| - 1] == key
  }

  /**
   * The walk of the siblings from position `i` on: the one at `i`, its walk,
   * then the rest. The one at `i` is one level deeper, so its walk has less
   * room left.
   */
  lemma WalkListAt(labels: seq<string>, d: char, ks: seq<GroupPath>, i: nat, n: nat)
    requires i < |ks|
    requires forall k :: k in ks[i..] ==> k.delim == d && |k.segs| == n + 1 <= MaxSegs(labels, d)
    ensures forall k :: k in ks[i + 1..] ==> k.delim == d && |k.segs| == n + 1 <= MaxSegs(labels, d)
    ensures ks[i].delim == d && Room(labels, d, |ks[i].segs|) < Room(labels, d, n)
    ensures WalkList(labels, d, ks[i..], n) == [ks[i]] + WalkOf(labels, ks[i]) + WalkList(labels, d, ks[i + 1..], n)
  {
    assert ks[i..][0] == ks[i];
    assert ks[i..][1..] == ks[i + 1..];
    assert ks[i] in ks[i..];
  }

  lemma Regroup(a: seq<GroupPath>, x: GroupPath, w: seq<GroupPath>, r: seq<GroupPath>)
    ensures a + ([x] + w + r) == a + [x] + w + r
  {
  }

  /** The groups, as the ordered listing of their labels. */
  class GroupStore {
    var labels: seq<string>

    /** Labels are unique. */
    ghost predicate Valid()
      reads this
    {
      Distinct(labels)
    }

    constructor (initial: seq<string>)
      requires Distinct(initial)
      ensures Valid() && labels == initial
    {
      labels := initial;
    }

    /** `get_group`: the group whose label is exactly the node's path, or nothing. */
    function GetGroup(node: GroupPath): (g: Option<Group>)
      reads this
      ensures g.Some? <==> node.path in labels
      ensures g.Some? ==> g.value.name == node.path
    {
      if node.path in labels then Some(Group(node.path)) else None
    }

    /** `is_virtual`: no stored label equals the node's path. */
    predicate IsVirtual(node: GroupPath)
      reads this
      ensures IsVirtual(node) <==> node.path !in labels
    {
      GetGroup(node).None?
    }

    /** `has_group`: the negation of `is_virtual`. */
    predicate HasGroup(node: GroupPath)
      reads this
      ensures HasGroup(node) <==> node.path in labels
      ensures HasGroup(node) <==> !IsVirtual(node)
    {
      !IsVirtual(node)
    }

    /**
     * `get_or_create_group`: the group labelled with the node's path,
     * and whether this call created it. An existing label leaves the
     * store unchanged; a new one is appended to the listing.
     */
    method GetOrCreateGroup(node: GroupPath) returns (g: Group, created: bool)
      requires Valid()
      modifies this
      ensures Valid()
      ensures g.name == node.path
      ensures created <==> node.path !in old(labels)
      ensures labels == if created then old(labels) + [node.path] else old(labels)
      ensures HasGroup(node)
    {
      match GetGroup(node) {
        case Some(existing) =>
          g, created := existing, false;
        case None =>
          labels := labels + [node.path];
          g, created := Group(node.path), true;
      }
    }

    /**
     * `delete_group`: removes the group labelled with the node's path if
     * there is one, and nothing else; the node is virtual afterwards.
     */
    method DeleteGroup(node: GroupPath)
      requires Valid()
      modifies this
      ensures Valid()
      ensures labels == Without(old(labels), node.path)
      ensures forall l :: l != node.path ==> (l in labels <==> l in old(labels))
      ensures forall i :: 0 <= i < |old(labels)| && old(labels)[i] == node.path ==>
        labels == old(labels)[..i] + old(labels)[i + 1..]
      ensures node.path !in old(labels) ==> labels == old(labels)
      ensures IsVirtual(node)
    {
      match GetGroup(node) {
        case Some(group) =>
          WithoutDistinct(labels, group.name);
          forall i | 0 <= i < |labels| && labels[i] == node.path
            ensures Without(labels, node.path) == labels[..i] + labels[i + 1..]
          {
            WithoutAt(labels, i);
          }
          labels := Without(labels, group.name);
        case None =>
      }
    }

    /**
     * `children`: one pass over the listing. Each label is split; one
     * with no more segments than the node is passed over; otherwise it is
     * truncated to one segment below the node, and a truncation not yet in
     * `yielded` whose leading segments are the node's is recorded there and
     * built into a child. A truncation the constructor refuses, or one that
     * validates to the root path, is skipped and the pass goes on.
     */
    method Children(node: GroupPath) returns (kids: seq<GroupPath>)
      ensures kids == ChildrenOf(labels, node)
    {
      var d := node.delim;
      var n := |node.segs|;
      var yielded: seq<string> := [];
      kids := [];
      var i := 0;
      while i < |labels|
        invariant 0 <= i <= |labels|
        invariant yielded == Yielded(labels[..i], node)
        invariant kids == ChildrenOf(labels[..i], node)
      {
        var name := labels[i];
        var parts := Split(name, d);
        assert labels[..i + 1][..i] == labels[..i];
        var prior := Candidates(labels[..i], node);
        assert Candidates(labels[..i + 1], node) ==
          prior + match Truncation(name, node) case Some(c) => [c] case None => [];
        if |parts| > n {
          var c := Join(parts[..n + 1], d);
          if c !in yielded && parts[..n] == node.segs {
            assert Truncation(name, node) == Some(c);
            assert (prior + [c])[..|prior|] == prior;
            assert Yielded(labels[..i + 1], node) == yielded + [c];
            assert (yielded + [c])[..|yielded|] == yielded;
            yielded := yielded + [c];
            match New(c, Some(node), d) {
              case Ok(child) =>
                if child.path != "" {
                  kids := kids + [child];
                }
              case Err(_) =>
            }
          } else if parts[..n] == node.segs {
            assert (prior + [c])[..|prior|] == prior;
          } else {
            assert Candidates(labels[..i + 1], node) == prior;
          }
        } else {
          assert Candidates(labels[..i + 1], node) == prior;
        }
        i := i + 1;
      }
      assert labels[..|labels|] == labels;
    }

    /** `__iter__`: iterating a node iterates its children. */
    method Iter(node: GroupPath) returns (kids: seq<GroupPath>)
      ensures kids == ChildrenOf(labels, node)
    {
      kids := Children(node);
    }

    /** `__len__`: the number of children, counted one by one. */
    method Len(node: GroupPath) returns (count: nat)
      ensures count == |ChildrenOf(labels, node)|
    {
      var kids := Children(node);
      count := 0;
      var i := 0;
      while i < |kids|
        invariant 0 <= i <= |kids|
        invariant count == i
      {
        count := count + 1;
        i := i + 1;
      }
    }

    /** `__contains__`: some child's last segment is `key`. */
    method Contains(node: GroupPath, key: string) returns (found: bool)
      ensures found <==> exists k :: k in ChildrenOf(labels, node) && Named(k, key)
    {
      var kids := Children(node);
      var i := 0;
      while i < |kids|
        invariant 0 <= i <= |kids|
        invariant forall k :: k in kids[..i] ==> !Named(k, key)
      {
        assert kids[..i + 1] == kids[..i] + [kids[i]];
        if Named(kids[i], key) {
          assert kids[i] in kids;
          return true;
        }
        i := i + 1;
      }
      assert kids[..i] == kids;
      return false;
    }

    /**
     * `walk`: for each child, the child and then, recursively, its own
     * walk. Each recursive call is one segment deeper, and no node is
     * deeper than the longest label, which bounds the recursion.
     */
    method Walk(node: GroupPath) returns (nodes: seq<GroupPath>)
      ensures nodes == WalkOf(labels, node)
      decreases Room(labels, node.delim, |node.segs|)
    {
      var d := node.delim;
      var n := |node.segs|;
      var kids := Iter(node);
      ChildrenFit(labels, node);
      assert kids[0..] == kids;
      nodes := [];
      var i := 0;
      while i < |kids|
        invariant 0 <= i <= |kids|
        invariant forall k :: k in kids[i..] ==> k.delim == d && |k.segs| == n + 1 <= MaxSegs(labels, d)
        invariant nodes + WalkList(labels, d, kids[i..], n) == WalkOf(labels, node)
      {
        var child := kids[i];
        WalkListAt(labels, d, kids, i, n);
        var sub := Walk(child);
        Regroup(nodes, child, sub, WalkList(labels, d, kids[i + 1..], n));
        nodes := nodes + [child] + sub;
        i := i + 1;
      }
      assert kids[|kids|..] == [];
    }
  }
}
