/**
 * What `children` and `walk` compute from a listing of stored labels,
 * as functions: the truncation of each label to one segment below a
 * node, the `yielded` list of distinct truncations in first-occurrence
 * order, the child nodes built from them, and the pre-order walk.
 */
module Listing {
  import opened Wrappers
  import opened Segments
  import opened GroupPaths

  /**
   * The candidate child path a stored label gives `node`: its first
   * `|node.segs| + 1` segments joined again, provided it has more
   * segments than `node` and starts with `node`'s segments.
   */
  function Truncation(name: string, node: GroupPath): Option<string>
  {
    var parts := Split(name, node.delim);
    var k := |node.segs|;
    if |parts| <= k || parts[..k] != node.segs then None
    else Some(Join(parts[..k + 1], node.delim))
  }

  /** A truncation splits back into the label's first `|node.segs| + 1` segments. */
  lemma TruncationShape(name: string, node: GroupPath)
    requires Truncation(name, node).Some?
    ensures Split(Truncation(name, node).value, node.delim) == Split(name, node.delim)[..|node.segs| + 1]
    ensures |Split(Truncation(name, node).value, node.delim)| == |node.segs| + 1
    ensures Split(Truncation(name, node).value, node.delim)[..|node.segs|] == node.segs
  {
    SplitJoinPrefix(name, node.delim, |node.segs| + 1);
    var parts := Split(name, node.delim);
    assert parts[..|node.segs| + 1][..|node.segs|] == parts[..|node.segs|];
  }

  /** The truncations of the listing, in listing order, duplicates kept. */
  function Candidates(labels: seq<string>, node: GroupPath): seq<string>
  {
    if labels == [] then []
    else
      var last := labels[|labels| - 1];
      Candidates(labels[..|labels| - 1], node) +
        match Truncation(last, node) case Some(c) => [c] case None => []
  }

  /** A candidate is exactly the truncation of some listed label. */
  lemma {:induction false} CandidatesMember(labels: seq<string>, node: GroupPath, c: string)
    ensures c in Candidates(labels, node) <==> exists l :: l in labels && Truncation(l, node) == Some(c)
  {
    if labels != [] {
      var init := labels[..|labels| - 1];
      CandidatesMember(init, node, c);
      assert labels == init + [labels[|labels| - 1]];
      forall l | l in init ensures l in labels { }
    }
  }

  /** No string occurs twice in `xs`. */
  ghost predicate Distinct(xs: seq<string>)
  {
    forall i, j :: 0 <= i < j < |xs| ==> xs[i] != xs[j]
  }

  /**
   * The list `yielded` ends up holding: each element of `xs` kept at its
   * first occurrence. It has no repetition and the same elements as `xs`.
   */
  function Dedup(xs: seq<string>): (r: seq<string>)
    ensures forall x :: x in r <==> x in xs
    ensures Distinct(r)
  {
    if xs == [] then []
    else
      var r := Dedup(xs[..|xs| - 1]);
      var x := xs[|xs| - 1];
      assert xs == xs[..|xs| - 1] + [x];
      if x in r then r else r + [x]
  }

  /** The index of the first occurrence of `x` in `xs`. */
  function FirstIndex(xs: seq<string>, x: string): (i: nat)
    requires x in xs
    ensures i < |xs| && xs[i] == x && x !in xs[..i]
  {
    var n := |xs| - 1;
    assert xs == xs[..n] + [xs[n]];
    if x in xs[..n] then
      var i := FirstIndex(xs[..n], x);
      assert xs[..n][..i] == xs[..i];
      i
    else n
  }

  /** The `yielded` list of `children`. */
  function Yielded(labels: seq<string>, node: GroupPath): seq<string>
  {
    Dedup(Candidates(labels, node))
  }

  /** One more label adds its truncation to `yielded` unless it is already there. */
  lemma YieldedSnoc(labels: seq<string>, x: string, node: GroupPath)
    ensures Yielded(labels + [x], node) ==
      match Truncation(x, node)
      case Some(c) => if c in Yielded(labels, node) then Yielded(labels, node) else Yielded(labels, node) + [c]
      case None => Yielded(labels, node)
  {
    assert (labels + [x])[..|labels|] == labels;
    var prior := Candidates(labels, node);
    match Truncation(x, node)
    case Some(c) =>
      assert (prior + [c])[..|prior|] == prior;
      assert Candidates(labels + [x], node) == prior + [c];
    case None =>
      assert Candidates(labels + [x], node) == prior;
  }

  /** `yielded` after one more truncation, or none: it is appended when new. */
  function Next(ys: seq<string>, t: Option<string>): seq<string>
  {
    match t
    case Some(c) => if c in ys then ys else ys + [c]
    case None => ys
  }

  /** The loop of `children` over `ls`, front to back, starting from `yielded == ys`. */
  function YieldFrom(ys: seq<string>, ls: seq<string>, node: GroupPath): seq<string>
    decreases |ls|
  {
    if ls == [] then ys
    else YieldFrom(Next(ys, Truncation(ls[0], node)), ls[1..], node)
  }

  /** Running the loop over the rest of the listing continues from what the first part yielded. */
  lemma {:induction false} YieldedFold(pre: seq<string>, rest: seq<string>, node: GroupPath)
    ensures Yielded(pre + rest, node) == YieldFrom(Yielded(pre, node), rest, node)
    decreases |rest|
  {
    if rest == [] {
      assert pre + rest == pre;
    } else {
      var x := rest[0];
      assert pre + rest == (pre + [x]) + rest[1..];
      YieldedSnoc(pre, x, node);
      YieldedFold(pre + [x], rest[1..], node);
    }
  }

  /** When every label truncates to the same `c`, `yielded` is just `[c]`. */
  lemma {:induction false} YieldedConstant(labels: seq<string>, node: GroupPath, c: string)
    requires |labels| > 0
    requires forall l :: l in labels ==> Truncation(l, node) == Some(c)
    ensures Yielded(labels, node) == [c]
  {
    var init := labels[..|labels| - 1];
    var x := labels[|labels| - 1];
    assert labels == init + [x];
    YieldedSnoc(init, x, node);
    if |init| > 0 {
      YieldedConstant(init, node, c);
    }
  }

  /**
   * Which candidates become children: as the source is written, any the
   * constructor accepts; corrected, not one that validates to the root
   * path `""` (see the README's findings).
   */
  datatype Rule = AsWritten | Corrected

  /** The child node built for candidate `c`, or nothing when it is skipped. */
  function Spawn(c: string, node: GroupPath, rule: Rule): Option<GroupPath>
  {
    match New(c, Some(node), node.delim)
    case Err(_) => None
    case Ok(child) => if rule == Corrected && child.path == "" then None else Some(child)
  }

  /** The children built from the candidates `cs`, in order, skipped ones left out. */
  function Emit(cs: seq<string>, node: GroupPath, rule: Rule): seq<GroupPath>
  {
    if cs == [] then []
    else
      var c := cs[|cs| - 1];
      Emit(cs[..|cs| - 1], node, rule) +
        match Spawn(c, node, rule) case Some(child) => [child] case None => []
  }

  /** `children` of `node` over the listing `labels`, corrected. */
  function ChildrenOf(labels: seq<string>, node: GroupPath): seq<GroupPath>
  {
    Emit(Yielded(labels, node), node, Corrected)
  }

  /** `children` of `node` over the listing `labels`, exactly as the source is written. */
  function ChildrenAsWritten(labels: seq<string>, node: GroupPath): seq<GroupPath>
  {
    Emit(Yielded(labels, node), node, AsWritten)
  }

  /** A child that the corrected rule keeps has the candidate as its path and its split as segments. */
  lemma SpawnCorrected(c: string, node: GroupPath)
    requires Spawn(c, node, Corrected).Some?
    ensures Spawn(c, node, Corrected).value.path == c != ""
    ensures Spawn(c, node, Corrected).value.segs == Split(c, node.delim)
    ensures Spawn(c, node, Corrected).value.parent == Some(node)
    ensures Spawn(c, node, Corrected).value.delim == node.delim
    ensures Canonical(Spawn(c, node, Corrected).value)
    ensures "" !in Spawn(c, node, Corrected).value.segs
    ensures Validate(c, node.delim) == Ok(c)
  {
    NewShape(c, Some(node), node.delim);
  }

  /** An emitted node comes from some candidate in `cs`. */
  lemma {:induction false} EmitMember(cs: seq<string>, node: GroupPath, rule: Rule, k: GroupPath)
    ensures k in Emit(cs, node, rule) <==> exists c :: c in cs && Spawn(c, node, rule) == Some(k)
  {
    if cs != [] {
      var init := cs[..|cs| - 1];
      var c := cs[|cs| - 1];
      assert cs == init + [c];
      EmitMember(init, node, rule, k);
      var prior := Emit(init, node, rule);
      var tail := match Spawn(c, node, rule) case Some(child) => [child] case None => [];
      assert Emit(cs, node, rule) == prior + tail;
      if k in prior {
        var c' :| c' in init && Spawn(c', node, rule) == Some(k);
        assert c' in cs;
      } else if k in tail {
        assert Spawn(c, node, rule) == Some(k);
      }
      if exists c' :: c' in cs && Spawn(c', node, rule) == Some(k) {
        var c' :| c' in cs && Spawn(c', node, rule) == Some(k);
        if c' != c {
          assert c' in init;
        }
      }
    }
  }

  /** Nodes whose paths are pairwise different. */
  ghost predicate DistinctPaths(ks: seq<GroupPath>)
  {
    forall i, j :: 0 <= i < j < |ks| ==> ks[i].path != ks[j].path
  }

  /** Emitting from distinct candidates under the corrected rule gives distinct paths, each a candidate. */
  lemma {:induction false} EmitDistinct(cs: seq<string>, node: GroupPath)
    requires Distinct(cs)
    ensures forall k :: k in Emit(cs, node, Corrected) ==> k.path in cs
    ensures DistinctPaths(Emit(cs, node, Corrected))
  {
    if cs != [] {
      var init := cs[..|cs| - 1];
      var c := cs[|cs| - 1];
      assert cs == init + [c];
      assert Distinct(init) by {
        forall i, j | 0 <= i < j < |init| ensures init[i] != init[j] {
          assert init[i] == cs[i] && init[j] == cs[j];
        }
      }
      EmitDistinct(init, node);
      var prior := Emit(init, node, Corrected);
      assert c !in init;
      forall x | x in prior ensures x.path in cs { }
      if Spawn(c, node, Corrected).Some? {
        var k := Spawn(c, node, Corrected).value;
        SpawnCorrected(c, node);
        AppendDistinct(prior, k);
      }
    }
  }

  /** Appending a node whose path is new keeps the paths distinct. */
  lemma AppendDistinct(ks: seq<GroupPath>, k: GroupPath)
    requires DistinctPaths(ks)
    requires forall x :: x in ks ==> x.path != k.path
    ensures DistinctPaths(ks + [k])
  {
    var r := ks + [k];
    forall i, j | 0 <= i < j < |r| ensures r[i].path != r[j].path {
      if j == |ks| {
        assert r[i] in ks;
      } else {
        assert r[i] == ks[i] && r[j] == ks[j];
      }
    }
  }

  /**
   * Where a child comes from: a listed label whose truncation is the
   * child's path, kept by the corrected rule.
   */
  lemma ChildOrigin(labels: seq<string>, node: GroupPath, k: GroupPath) returns (l: string)
    requires k in ChildrenOf(labels, node)
    ensures l in labels && Truncation(l, node) == Some(k.path)
    ensures k.path in Yielded(labels, node) && Spawn(k.path, node, Corrected) == Some(k)
    ensures k.segs == Split(l, node.delim)[..|node.segs| + 1]
    ensures |k.segs| == |node.segs| + 1 && k.segs[..|node.segs|] == node.segs
    ensures k.parent == Some(node) && k.delim == node.delim
    ensures k.path != "" && "" !in k.segs && Canonical(k) && Validate(k.path, node.delim) == Ok(k.path)
  {
    EmitMember(Yielded(labels, node), node, Corrected, k);
    var c :| c in Yielded(labels, node) && Spawn(c, node, Corrected) == Some(k);
    SpawnCorrected(c, node);
    CandidatesMember(labels, node, c);
    l :| l in labels && Truncation(l, node) == Some(c);
    TruncationShape(l, node);
  }

  /**
   * The shape of every child: its parent is `node`, it has one segment
   * more than `node`, starting with `node`'s segments, and its path is
   * the join of its segments, all non-empty.
   */
  lemma ChildShape(labels: seq<string>, node: GroupPath)
    ensures forall k :: k in ChildrenOf(labels, node) ==>
      && k.parent == Some(node)
      && k.delim == node.delim
      && |k.segs| == |node.segs| + 1
      && k.segs[..|node.segs|] == node.segs
      && k.path != ""
      && "" !in k.segs
      && Canonical(k)
  {
    forall k | k in ChildrenOf(labels, node)
      ensures k.parent == Some(node) && k.delim == node.delim
      ensures |k.segs| == |node.segs| + 1 && k.segs[..|node.segs|] == node.segs
      ensures k.path != "" && "" !in k.segs && Canonical(k)
    {
      var _ := ChildOrigin(labels, node, k);
    }
  }

  /**
   * Every child comes from a listed label, and a listed label strictly
   * below `node` contributes its truncation as a child exactly when the
   * truncation is a valid, non-empty path.
   */
  lemma ChildrenSoundComplete(labels: seq<string>, node: GroupPath)
    ensures forall k :: k in ChildrenOf(labels, node) ==>
      exists l :: l in labels && Truncation(l, node) == Some(k.path)
    ensures forall l :: l in labels && Truncation(l, node).Some? ==>
      ((exists k :: k in ChildrenOf(labels, node) && k.path == Truncation(l, node).value) <==>
       (Validate(Truncation(l, node).value, node.delim) == Ok(Truncation(l, node).value) && Truncation(l, node).value != ""))
  {
    var ys := Yielded(labels, node);
    forall k | k in ChildrenOf(labels, node)
      ensures exists l :: l in labels && Truncation(l, node) == Some(k.path)
    {
      var _ := ChildOrigin(labels, node, k);
    }
    forall l | l in labels && Truncation(l, node).Some?
      ensures (exists k :: k in ChildrenOf(labels, node) && k.path == Truncation(l, node).value) <==>
              (Validate(Truncation(l, node).value, node.delim) == Ok(Truncation(l, node).value) && Truncation(l, node).value != "")
    {
      var c := Truncation(l, node).value;
      CandidatesMember(labels, node, c);
      assert c in ys;
      if Validate(c, node.delim) == Ok(c) && c != "" {
        var k := Spawn(c, node, Corrected).value;
        EmitMember(ys, node, Corrected, k);
      }
      if exists k :: k in ChildrenOf(labels, node) && k.path == c {
        var k :| k in ChildrenOf(labels, node) && k.path == c;
        var _ := ChildOrigin(labels, node, k);
      }
    }
  }

  /** No child path appears twice. */
  lemma ChildrenDistinct(labels: seq<string>, node: GroupPath)
    ensures DistinctPaths(ChildrenOf(labels, node))
  {
    var ys := Yielded(labels, node);
    assert Distinct(ys);
    EmitDistinct(ys, node);
    assert ChildrenOf(labels, node) == Emit(ys, node, Corrected);
  }

  /**
   * Children come out in the order in which their paths first occur among
   * the truncations of the listing.
   */
  lemma ChildrenOrder(labels: seq<string>, node: GroupPath)
    ensures FirstOccurrenceOrder(ChildrenOf(labels, node), Candidates(labels, node))
  {
    EmitDedupOrder(Candidates(labels, node), node);
  }

  /** `a` and `b` both occur in `xs`, and `a` occurs first. */
  ghost predicate Before(xs: seq<string>, a: string, b: string)
  {
    a in xs && b in xs && FirstIndex(xs, a) < FirstIndex(xs, b)
  }

  /** The paths of `ks` all occur in `xs`, and in the order of their first occurrences there. */
  ghost predicate FirstOccurrenceOrder(ks: seq<GroupPath>, xs: seq<string>)
  {
    forall i, j :: 0 <= i < j < |ks| ==> Before(xs, ks[i].path, ks[j].path)
  }

  /** The order fact behind ChildrenOrder, for any candidate list. */
  lemma {:induction false} EmitDedupOrder(xs: seq<string>, node: GroupPath)
    ensures FirstOccurrenceOrder(Emit(Dedup(xs), node, Corrected), xs)
  {
    if xs != [] {
      var init := xs[..|xs| - 1];
      var x := xs[|xs| - 1];
      assert xs == init + [x];
      EmitDedupOrder(init, node);
      EmitDistinct(Dedup(init), node);
      var ds := Dedup(init);
      var prior := Emit(ds, node, Corrected);
      OrderExtends(prior, init, x);
      if x in init {
        assert Dedup(xs) == ds;
      } else {
        assert Dedup(xs) == ds + [x];
        assert (ds + [x])[..|ds|] == ds;
        if Spawn(x, node, Corrected).Some? {
          var k := Spawn(x, node, Corrected).value;
          SpawnCorrected(x, node);
          assert Emit(Dedup(xs), node, Corrected) == prior + [k];
          OrderAppend(prior, init, x, k);
        } else {
          assert Emit(Dedup(xs), node, Corrected) == prior;
        }
      }
    }
  }

  /** A later occurrence does not move a first occurrence. */
  lemma FirstIndexSnoc(xs: seq<string>, x: string, y: string)
    requires y in xs
    ensures y in xs + [x] && FirstIndex(xs + [x], y) == FirstIndex(xs, y)
  {
    assert (xs + [x])[..|xs|] == xs;
  }

  /** An order by first occurrence survives appending to the list of occurrences. */
  lemma OrderExtends(ks: seq<GroupPath>, xs: seq<string>, x: string)
    requires FirstOccurrenceOrder(ks, xs)
    ensures FirstOccurrenceOrder(ks, xs + [x])
  {
    forall i, j | 0 <= i < j < |ks| ensures Before(xs + [x], ks[i].path, ks[j].path) {
      assert Before(xs, ks[i].path, ks[j].path);
      FirstIndexSnoc(xs, x, ks[i].path);
      FirstIndexSnoc(xs, x, ks[j].path);
    }
  }

  /** A node for a first occurrence at the end comes after all others. */
  lemma OrderAppend(ks: seq<GroupPath>, xs: seq<string>, x: string, k: GroupPath)
    requires FirstOccurrenceOrder(ks, xs)
    requires forall y :: y in ks ==> y.path in xs
    requires x !in xs && k.path == x
    ensures FirstOccurrenceOrder(ks + [k], xs + [x])
  {
    OrderExtends(ks, xs, x);
    var r := ks + [k];
    assert FirstIndex(xs + [x], x) == |xs| by {
      assert (xs + [x])[..|xs|] == xs;
    }
    forall i, j | 0 <= i < j < |r| ensures Before(xs + [x], r[i].path, r[j].path) {
      assert r[i] == ks[i];
      if j < |ks| {
        assert r[j] == ks[j];
      } else {
        assert ks[i] in ks;
        FirstIndexSnoc(xs, x, ks[i].path);
      }
    }
  }

  /** The largest number of segments of any listed label. */
  function MaxSegs(labels: seq<string>, d: char): (m: nat)
    ensures forall l :: l in labels ==> |Split(l, d)| <= m
  {
    if labels == [] then 0
    else
      var m := MaxSegs(labels[..|labels| - 1], d);
      var n := |Split(labels[|labels| - 1], d)|;
      assert labels == labels[..|labels| - 1] + [labels[|labels| - 1]];
      if m < n then n else m
  }

  /** How many more levels a walk from depth `depth` can still descend. */
  function Room(labels: seq<string>, d: char, depth: nat): nat
  {
    var m := MaxSegs(labels, d);
    if depth < m then m - depth else 0
  }

  /** No child has more segments than the longest label. */
  lemma ChildrenBounded(labels: seq<string>, node: GroupPath)
    ensures forall k :: k in ChildrenOf(labels, node) ==> |k.segs| <= MaxSegs(labels, node.delim)
  {
    ChildShape(labels, node);
    forall k | k in ChildrenOf(labels, node) ensures |k.segs| <= MaxSegs(labels, node.delim) {
      var _ := ChildOrigin(labels, node, k);
    }
  }

  /** Children are one level deeper than `node` and within the longest label: what a walk over them needs. */
  lemma ChildrenFit(labels: seq<string>, node: GroupPath)
    ensures forall k :: k in ChildrenOf(labels, node) ==>
      k.delim == node.delim && |k.segs| == |node.segs| + 1 <= MaxSegs(labels, node.delim)
  {
    ChildShape(labels, node);
    ChildrenBounded(labels, node);
  }

  /**
   * `walk`: for each child in turn, the child and then its own walk. It
   * terminates because each level adds one segment and no node has more
   * segments than the longest label.
   */
  function WalkOf(labels: seq<string>, node: GroupPath): seq<GroupPath>
    decreases Room(labels, node.delim, |node.segs|), 1
  {
    ChildShape(labels, node);
    ChildrenBounded(labels, node);
    WalkList(labels, node.delim, ChildrenOf(labels, node), |node.segs|)
  }

  /** The walks of the sibling nodes `ks`, each preceded by the node itself. */
  function WalkList(labels: seq<string>, d: char, ks: seq<GroupPath>, depth: nat): seq<GroupPath>
    requires forall k :: k in ks ==> k.delim == d && |k.segs| == depth + 1 <= MaxSegs(labels, d)
    decreases Room(labels, d, depth), 0, |ks|
  {
    if ks == [] then []
    else [ks[0]] + WalkOf(labels, ks[0]) + WalkList(labels, d, ks[1..], depth)
  }

  /** A node is in the walk of the siblings `ks` when it is one of them or in the walk of one. */
  lemma {:induction false} WalkListMember(labels: seq<string>, d: char, ks: seq<GroupPath>, depth: nat, x: GroupPath)
    requires forall k :: k in ks ==> k.delim == d && |k.segs| == depth + 1 <= MaxSegs(labels, d)
    ensures x in WalkList(labels, d, ks, depth) <==> exists k :: k in ks && (x == k || x in WalkOf(labels, k))
    decreases |ks|
  {
    if ks != [] {
      var rest := ks[1..];
      assert ks == [ks[0]] + rest;
      forall k | k in rest ensures k in ks { }
      WalkListMember(labels, d, rest, depth, x);
      var w0, w1 := WalkOf(labels, ks[0]), WalkList(labels, d, rest, depth);
      assert WalkList(labels, d, ks, depth) == [ks[0]] + w0 + w1;
      if x in WalkList(labels, d, ks, depth) {
        if x == ks[0] || x in w0 {
          assert ks[0] in ks;
        } else {
          assert x in w1;
          var k :| k in rest && (x == k || x in WalkOf(labels, k));
          assert k in ks;
        }
      }
      if exists k :: k in ks && (x == k || x in WalkOf(labels, k)) {
        var k :| k in ks && (x == k || x in WalkOf(labels, k));
        if k != ks[0] {
          assert k in rest;
          assert x in w1;
        }
      }
    }
  }

  /**
   * Everything `walk` yields lies strictly below `node`: it carries
   * `node`'s segments followed by at least one more, is canonical, and its
   * segments are a prefix of the segments of some listed label.
   */
  lemma {:induction false} WalkBelow(labels: seq<string>, node: GroupPath, x: GroupPath) returns (l: string)
    requires x in WalkOf(labels, node)
    ensures |x.segs| > |node.segs| && x.segs[..|node.segs|] == node.segs
    ensures x.delim == node.delim && x.path != "" && Canonical(x) && "" !in x.segs
    ensures l in labels && |x.segs| <= |Split(l, node.delim)| && Split(l, node.delim)[..|x.segs|] == x.segs
    decreases Room(labels, node.delim, |node.segs|)
  {
    var k := WalkStep(labels, node, x);
    l := ChildOrigin(labels, node, k);
    if x != k {
      ChildrenFit(labels, node);
      l := WalkBelow(labels, k, x);
      PrefixTrans(x.segs, k.segs, node.segs);
    }
  }

  /** Something `walk` yields is a child, or is yielded by the walk of a child. */
  lemma WalkStep(labels: seq<string>, node: GroupPath, x: GroupPath) returns (k: GroupPath)
    requires x in WalkOf(labels, node)
    ensures k in ChildrenOf(labels, node) && (x == k || x in WalkOf(labels, k))
  {
    var ks := ChildrenOf(labels, node);
    ChildrenFit(labels, node);
    assert WalkOf(labels, node) == WalkList(labels, node.delim, ks, |node.segs|);
    WalkListMember(labels, node.delim, ks, |node.segs|, x);
    k :| k in ks && (x == k || x in WalkOf(labels, k));
  }

  /** A prefix of a prefix is a prefix. */
  lemma PrefixTrans(xs: seq<string>, ys: seq<string>, zs: seq<string>)
    requires |ys| <= |xs| && xs[..|ys|] == ys
    requires |zs| <= |ys| && ys[..|zs|] == zs
    ensures xs[..|zs|] == zs
  {
    assert xs[..|zs|] == xs[..|ys|][..|zs|];
  }

  /** Nodes whose segment lists are pairwise different. */
  ghost predicate DistinctSegs(w: seq<GroupPath>)
  {
    forall i, j :: 0 <= i < j < |w| ==> w[i].segs != w[j].segs
  }

  /** Concatenating two such lists with no segment list in common keeps them distinct. */
  lemma DistinctConcat(a: seq<GroupPath>, b: seq<GroupPath>)
    requires DistinctSegs(a) && DistinctSegs(b)
    requires forall x, y :: x in a && y in b ==> x.segs != y.segs
    ensures DistinctSegs(a + b)
  {
    forall i, j | 0 <= i < j < |a + b| ensures (a + b)[i].segs != (a + b)[j].segs {
      if j < |a| {
      } else if i >= |a| {
        assert (a + b)[i] == b[i - |a|] && (a + b)[j] == b[j - |a|];
      } else {
        assert (a + b)[i] in a && (a + b)[j] in b;
      }
    }
  }

  /** No node is yielded twice by `walk` (its segments, and so its path, are unique). */
  lemma {:induction false} WalkDistinct(labels: seq<string>, node: GroupPath)
    ensures DistinctSegs(WalkOf(labels, node))
    decreases Room(labels, node.delim, |node.segs|), 1
  {
    var ks := ChildrenOf(labels, node);
    ChildShape(labels, node);
    ChildrenBounded(labels, node);
    ChildrenDistinct(labels, node);
    forall i, j | 0 <= i < j < |ks| ensures ks[i].segs != ks[j].segs {
      CanonicalPath(ks[i]);
      CanonicalPath(ks[j]);
    }
    WalkListDistinct(labels, node.delim, ks, |node.segs|);
  }

  /** The walk of distinct siblings yields no node twice. */
  lemma {:induction false} WalkListDistinct(labels: seq<string>, d: char, ks: seq<GroupPath>, depth: nat)
    requires forall k :: k in ks ==> k.delim == d && |k.segs| == depth + 1 <= MaxSegs(labels, d)
    requires forall i, j :: 0 <= i < j < |ks| ==> ks[i].segs != ks[j].segs
    ensures DistinctSegs(WalkList(labels, d, ks, depth))
    ensures forall x :: x in WalkList(labels, d, ks, depth) ==>
      |x.segs| >= depth + 1 && exists k :: k in ks && x.segs[..depth + 1] == k.segs
    decreases Room(labels, d, depth), 0, |ks|
  {
    if ks != [] {
      var k0 := ks[0];
      var rest := ks[1..];
      SiblingsTail(ks);
      WalkDistinct(labels, k0);
      WalkListDistinct(labels, d, rest, depth);
      var w0 := WalkOf(labels, k0);
      var wr := WalkList(labels, d, rest, depth);
      forall x | x in w0 ensures |x.segs| > depth + 1 && x.segs[..depth + 1] == k0.segs {
        var _ := WalkBelow(labels, k0, x);
      }
      assert WalkList(labels, d, ks, depth) == [k0] + w0 + wr;
      assert DistinctSegs([k0]);
      DistinctConcat([k0], w0);
      SiblingWalksApart(k0, w0, rest, wr, depth);
      DistinctConcat([k0] + w0, wr);
      WalkListPrefixes(ks, w0, wr, depth);
    }
  }

  /** Dropping the first of distinct siblings leaves distinct siblings, all different from it. */
  lemma SiblingsTail(ks: seq<GroupPath>)
    requires |ks| > 0
    requires forall i, j :: 0 <= i < j < |ks| ==> ks[i].segs != ks[j].segs
    ensures forall i, j :: 0 <= i < j < |ks[1..]| ==> ks[1..][i].segs != ks[1..][j].segs
    ensures forall k :: k in ks[1..] ==> k.segs != ks[0].segs
  {
    var rest := ks[1..];
    forall i, j | 0 <= i < j < |rest| ensures rest[i].segs != rest[j].segs {
      assert rest[i] == ks[i + 1] && rest[j] == ks[j + 1];
    }
    forall k | k in rest ensures k.segs != ks[0].segs {
      var i :| 0 <= i < |rest| && rest[i] == k;
      assert ks[i + 1] == k;
    }
  }

  /** The walk below `k0` and the walks below its later siblings share no node. */
  lemma SiblingWalksApart(k0: GroupPath, w0: seq<GroupPath>, rest: seq<GroupPath>, wr: seq<GroupPath>, depth: nat)
    requires |k0.segs| == depth + 1
    requires forall x :: x in w0 ==> |x.segs| > depth + 1 && x.segs[..depth + 1] == k0.segs
    requires forall y :: y in wr ==> |y.segs| >= depth + 1 && exists k :: k in rest && y.segs[..depth + 1] == k.segs
    requires forall k :: k in rest ==> k.segs != k0.segs
    ensures forall x, y :: x in [k0] + w0 && y in wr ==> x.segs != y.segs
  {
    forall x, y | x in [k0] + w0 && y in wr ensures x.segs != y.segs {
      var k :| k in rest && y.segs[..depth + 1] == k.segs;
      if x == k0 {
        assert x.segs[..depth + 1] == k0.segs;
      }
    }
  }

  /** Every node of a sibling walk lies below one of the siblings. */
  lemma WalkListPrefixes(ks: seq<GroupPath>, w0: seq<GroupPath>, wr: seq<GroupPath>, depth: nat)
    requires |ks| > 0 && |ks[0].segs| == depth + 1
    requires forall x :: x in w0 ==> |x.segs| > depth + 1 && x.segs[..depth + 1] == ks[0].segs
    requires forall y :: y in wr ==> |y.segs| >= depth + 1 && exists k :: k in ks[1..] && y.segs[..depth + 1] == k.segs
    ensures forall x :: x in [ks[0]] + w0 + wr ==>
      |x.segs| >= depth + 1 && exists k :: k in ks && x.segs[..depth + 1] == k.segs
  {
    forall x | x in [ks[0]] + w0 + wr
      ensures |x.segs| >= depth + 1 && exists k :: k in ks && x.segs[..depth + 1] == k.segs
    {
      if x in wr {
        var k :| k in ks[1..] && x.segs[..depth + 1] == k.segs;
        assert k in ks;
      } else {
        assert ks[0] in ks;
        assert x.segs[..depth + 1] == ks[0].segs;
      }
    }
  }

  /** No path is yielded twice by `walk`. */
  lemma WalkPathsDistinct(labels: seq<string>, node: GroupPath)
    ensures var w := WalkOf(labels, node);
      forall i, j :: 0 <= i < j < |w| ==> w[i].path != w[j].path
  {
    var w := WalkOf(labels, node);
    WalkDistinct(labels, node);
    forall i, j | 0 <= i < j < |w| ensures w[i].path != w[j].path {
      var _ := WalkBelow(labels, node, w[i]);
      var _ := WalkBelow(labels, node, w[j]);
    }
  }

  /**
   * A listed label with no empty segment that starts with `node`'s
   * segments and goes on below it gives `node` the child made of its
   * first `|node.segs| + 1` segments.
   */
  lemma ChildFor(labels: seq<string>, node: GroupPath, l: string) returns (k: GroupPath)
    requires l in labels
    requires "" !in Split(l, node.delim)
    requires |node.segs| < |Split(l, node.delim)|
    requires Split(l, node.delim)[..|node.segs|] == node.segs
    ensures k in ChildrenOf(labels, node) && k.segs == Split(l, node.delim)[..|node.segs| + 1]
  {
    var d := node.delim;
    var parts := Split(l, d);
    var n := |node.segs|;
    var c := Truncation(l, node).value;
    TruncationShape(l, node);
    assert "" !in Split(c, d) by {
      assert forall i :: 0 <= i < n + 1 ==> parts[..n + 1][i] == parts[i];
    }
    ValidIffSegmentsNonEmpty(c, d);
    ChildrenSoundComplete(labels, node);
    k :| k in ChildrenOf(labels, node) && k.path == c;
    var _ := ChildOrigin(labels, node, k);
  }

  /**
   * `walk` reaches every prefix of a valid label below `node`: for a listed
   * label whose segments are all non-empty and start with `node`'s, each of
   * its longer prefixes is the segment list of some yielded node.
   */
  lemma {:induction false} WalkComplete(labels: seq<string>, node: GroupPath, l: string, j: nat) returns (x: GroupPath)
    requires l in labels
    requires "" !in Split(l, node.delim)
    requires |node.segs| < j <= |Split(l, node.delim)|
    requires Split(l, node.delim)[..|node.segs|] == node.segs
    ensures x in WalkOf(labels, node) && x.segs == Split(l, node.delim)[..j]
    decreases j - |node.segs|
  {
    var d := node.delim;
    var parts := Split(l, d);
    var n := |node.segs|;
    var ks := ChildrenOf(labels, node);
    var k := ChildFor(labels, node, l);
    ChildShape(labels, node);
    ChildrenBounded(labels, node);
    assert WalkOf(labels, node) == WalkList(labels, d, ks, n);
    if j == n + 1 {
      x := k;
      WalkListMember(labels, d, ks, n, k);
    } else {
      assert k.delim == d && |k.segs| == n + 1;
      assert parts[..n + 1] == parts[..|k.segs|];
      x := WalkComplete(labels, k, l, j);
      WalkListMember(labels, d, ks, n, x);
    }
  }

  /**
   * As written, a label that starts with the delimiter makes the root yield
   * a child that is the root path again, with no segments: each level of
   * `walk` finds the same child one level deeper, so it recurses without
   * bound (CPython stops it with `RecursionError`).
   */
  lemma RootRevisitsItselfAsWritten()
    ensures var root := GroupPath("", [], '/', None);
      var kids := ChildrenAsWritten(["/x"], root);
      && kids == [GroupPath("", [], '/', Some(root))]
      && ChildrenAsWritten(["/x"], kids[0]) == [GroupPath("", [], '/', Some(kids[0]))]
  {
    var root := GroupPath("", [], '/', None);
    var parts := Split("/x", '/');
    assert "/x"[1..] == "x" && "x"[1..] == "";
    SplitNoDelimiter("x", '/');
    assert parts == [""] + Split("x", '/');
    assert parts == ["", "x"];
    assert parts[..1] == [""];
    assert Truncation("/x", root) == Some("");
    var child := GroupPath("", [], '/', Some(root));
    assert ["/x"][..0] == [];
    assert Candidates(["/x"], root) == [""];
    assert Dedup([""]) == [""];
    assert Spawn("", root, AsWritten) == Some(child);
    assert Emit([""], root, AsWritten) == [child];
    assert Truncation("/x", child) == Some("");
    assert Candidates(["/x"], child) == [""];
    assert Spawn("", child, AsWritten) == Some(GroupPath("", [], '/', Some(child)));
  }

  /** With the correction the same listing gives the root no children. */
  lemma RootSkipsEmptyCandidate()
    ensures ChildrenOf(["/x"], GroupPath("", [], '/', None)) == []
  {
    var root := GroupPath("", [], '/', None);
    var parts := Split("/x", '/');
    assert "/x"[1..] == "x" && "x"[1..] == "";
    SplitNoDelimiter("x", '/');
    assert parts == [""] + Split("x", '/');
    assert parts == ["", "x"];
    assert parts[..1] == [""];
    assert ["/x"][..0] == [];
    assert Candidates(["/x"], root) == [""];
    assert Dedup([""]) == [""];
  }

  /**
   * The correction only matters for a candidate whose first segment is
   * empty: otherwise the candidate is neither `""` nor the bare delimiter,
   * so it never validates to the root path.
   */
  lemma SpawnAgree(c: string, node: GroupPath)
    requires Split(c, node.delim)[0] != ""
    ensures Spawn(c, node, AsWritten) == Spawn(c, node, Corrected)
  {
  }

  /** Emitting candidates on which both rules agree gives the same children. */
  lemma {:induction false} EmitAgree(cs: seq<string>, node: GroupPath)
    requires forall c :: c in cs ==> Spawn(c, node, AsWritten) == Spawn(c, node, Corrected)
    ensures Emit(cs, node, AsWritten) == Emit(cs, node, Corrected)
  {
    if cs != [] {
      var init := cs[..|cs| - 1];
      assert forall c :: c in init ==> c in cs;
      EmitAgree(init, node);
      assert cs[|cs| - 1] in cs;
    }
  }

  /**
   * When every label that reaches below `node` has a non-empty first
   * segment, the code as written and the corrected rule give the same
   * children.
   */
  lemma AgreeWhenFirstSegments(labels: seq<string>, node: GroupPath)
    requires forall l :: l in labels && Truncation(l, node).Some? ==> Split(l, node.delim)[0] != ""
    ensures ChildrenAsWritten(labels, node) == ChildrenOf(labels, node)
  {
    var ys := Yielded(labels, node);
    forall c | c in ys ensures Spawn(c, node, AsWritten) == Spawn(c, node, Corrected) {
      CandidatesMember(labels, node, c);
      var l :| l in labels && Truncation(l, node) == Some(c);
      TruncationShape(l, node);
      assert Split(c, node.delim)[0] == Split(l, node.delim)[0];
      SpawnAgree(c, node);
    }
    EmitAgree(ys, node);
  }

  /** Below any node other than the root, the correction changes nothing. */
  lemma AsWrittenAgrees(labels: seq<string>, node: GroupPath)
    requires Canonical(node) && node.path != ""
    ensures ChildrenAsWritten(labels, node) == ChildrenOf(labels, node)
  {
    ValidIffSegmentsNonEmpty(node.path, node.delim);
    assert node.segs[0] in node.segs;
    forall l | l in labels && Truncation(l, node).Some? ensures Split(l, node.delim)[0] != "" {
      assert Split(l, node.delim)[0] == Split(l, node.delim)[..|node.segs|][0];
    }
    AgreeWhenFirstSegments(labels, node);
  }

  /**
   * At the root, the correction changes nothing unless some label is empty
   * or starts with the delimiter.
   */
  lemma AsWrittenAgreesAtRoot(labels: seq<string>, node: GroupPath)
    requires node.segs == []
    requires forall l :: l in labels ==> l != "" && l[0] != node.delim
    ensures ChildrenAsWritten(labels, node) == ChildrenOf(labels, node)
  {
    forall l | l in labels ensures Split(l, node.delim)[0] != "" {
      SplitFirstNonEmpty(l, node.delim);
    }
    AgreeWhenFirstSegments(labels, node);
  }

  /** The node built from the bare delimiter truncates the label `d` to `d` again. */
  lemma DelimiterTruncation(d: char)
    ensures Truncation([d], GroupPath("", [""], d, None)) == Some([d])
  {
    assert [d][0] == d && [d][1..] == "";
    assert Split([d], d) == ["", ""];
    assert Split([d], d)[..1] == [""];
    assert Split([d], d)[..2] == ["", ""];
    assert ["", ""][1..] == [""];
    assert Join(["", ""], d) == "" + [d] + "" == [d];
  }

  /** The children built from a single candidate. */
  lemma EmitSingle(c: string, node: GroupPath, rule: Rule)
    ensures Emit([c], node, rule) == match Spawn(c, node, rule) case Some(k) => [k] case None => []
  {
    assert [c][..0] == [];
  }

  /**
   * As written, the node `GroupPath(d)` (path `""`, segments `[""]`) with
   * the stored label `d` yields a child that is that same node again, with
   * itself as parent: the truncation `d` validates to `""`, and the raw
   * argument being non-empty gives the segments `[""]`.
   */
  lemma DelimiterNodeRevisitsItselfAsWritten(d: char)
    ensures var top := GroupPath("", [""], d, None);
      ChildrenAsWritten([[d]], top) == [GroupPath("", [""], d, Some(top))]
  {
    var top := GroupPath("", [""], d, None);
    DelimiterTruncation(d);
    YieldedConstant([[d]], top, [d]);
    assert Split("", d) == [""];
    assert New([d], Some(top), d) == Ok(GroupPath("", [""], d, Some(top)));
    EmitSingle([d], top, AsWritten);
  }

  /** With the correction the same node and listing give no children. */
  lemma DelimiterNodeSkipsEmptyCandidate(d: char)
    ensures ChildrenOf([[d]], GroupPath("", [""], d, None)) == []
  {
    var top := GroupPath("", [""], d, None);
    DelimiterTruncation(d);
    YieldedConstant([[d]], top, [d]);
    EmitSingle([d], top, Corrected);
  }
}
