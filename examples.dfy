/**
 * The listing used by the repository's basic test, and what the model
 * says `children`, `__len__`, `__contains__` and `walk` return over it.
 * The test's labels are `a`, `a/b`, `a/c/d`, `a/c/e/g` and `a/f`; the
 * facts are proved for any seven segment names in those places that are
 * non-empty, free of the delimiter and different where the test's are,
 * and `TestNames` is the test's own choice of them.
 */
module Examples {
  import opened Wrappers
  import opened Segments
  import opened GroupPaths
  import opened Listing
  import opened Store

  /** The segment names of the test listing. */
  datatype Names = Names(a: string, b: string, c: string, d: string, e: string, f: string, g: string)

  /** A single segment: non-empty and free of the delimiter. */
  ghost predicate Seg(x: string)
  {
    x != "" && '/' !in x
  }

  /** Names usable in the places of the test's: siblings differ. */
  ghost predicate Good(n: Names)
  {
    Seg(n.a) && Seg(n.b) && Seg(n.c) && Seg(n.d) && Seg(n.e) && Seg(n.f) && Seg(n.g) &&
    n.b != n.c && n.b != n.f && n.c != n.f && n.d != n.e
  }

  /** The path `x/rest`. */
  function Sub(x: string, rest: string): string
  {
    x + "/" + rest
  }

  function Top(): GroupPath
  {
    GroupPath("", [], '/', None)
  }

  function NodeA(n: Names): GroupPath
  {
    GroupPath(n.a, [n.a], '/', Some(Top()))
  }

  function NodeAB(n: Names): GroupPath
  {
    GroupPath(Sub(n.a, n.b), [n.a, n.b], '/', Some(NodeA(n)))
  }

  function NodeAC(n: Names): GroupPath
  {
    GroupPath(Sub(n.a, n.c), [n.a, n.c], '/', Some(NodeA(n)))
  }

  function NodeAF(n: Names): GroupPath
  {
    GroupPath(Sub(n.a, n.f), [n.a, n.f], '/', Some(NodeA(n)))
  }

  function NodeACD(n: Names): GroupPath
  {
    GroupPath(Sub(n.a, Sub(n.c, n.d)), [n.a, n.c, n.d], '/', Some(NodeAC(n)))
  }

  function NodeACE(n: Names): GroupPath
  {
    GroupPath(Sub(n.a, Sub(n.c, n.e)), [n.a, n.c, n.e], '/', Some(NodeAC(n)))
  }

  function NodeACEG(n: Names): GroupPath
  {
    GroupPath(Sub(n.a, Sub(n.c, Sub(n.e, n.g))), [n.a, n.c, n.e, n.g], '/', Some(NodeACE(n)))
  }

  /** The stored labels, in creation order. */
  function Labels(n: Names): seq<string>
  {
    [n.a, NodeAB(n).path, NodeACD(n).path, NodeACEG(n).path, NodeAF(n).path]
  }

  /** The test's names. */
  function TestNames(): Names
  {
    Names("a", "b", "c", "d", "e", "f", "g")
  }

  /** The test's names are usable, and give the test's labels. */
  lemma TestListing()
    ensures Good(TestNames())
    ensures Labels(TestNames()) == ["a", "a/b", "a/c/d", "a/c/e/g", "a/f"]
  {
    assert Sub("a", "b") == "a/b";
    assert Sub("a", "f") == "a/f";
    assert Sub("c", "d") == "c/d" && Sub("a", "c/d") == "a/c/d";
    assert Sub("e", "g") == "e/g" && Sub("c", "e/g") == "c/e/g" && Sub("a", "c/e/g") == "a/c/e/g";
  }

  /** `x/rest` splits into `x` and the segments of `rest`. */
  lemma SplitSub(x: string, rest: string)
    requires Seg(x)
    ensures Split(Sub(x, rest), '/') == [x] + Split(rest, '/')
  {
    SplitNoDelimiter(x, '/');
    SplitConcat(x, rest, '/');
  }

  lemma Split2(x: string, y: string)
    requires Seg(x) && Seg(y)
    ensures Split(Sub(x, y), '/') == [x, y]
  {
    SplitNoDelimiter(y, '/');
    SplitSub(x, y);
  }

  lemma Split3(x: string, y: string, z: string)
    requires Seg(x) && Seg(y) && Seg(z)
    ensures Split(Sub(x, Sub(y, z)), '/') == [x, y, z]
  {
    Split2(y, z);
    SplitSub(x, Sub(y, z));
  }

  lemma Split4(w: string, x: string, y: string, z: string)
    requires Seg(w) && Seg(x) && Seg(y) && Seg(z)
    ensures Split(Sub(w, Sub(x, Sub(y, z))), '/') == [w, x, y, z]
  {
    Split3(x, y, z);
    SplitSub(w, Sub(x, Sub(y, z)));
  }

  lemma Join2(x: string, y: string)
    ensures Join([x, y], '/') == Sub(x, y)
  {
    assert [x, y][1..] == [y];
  }

  lemma Join3(x: string, y: string, z: string)
    ensures Join([x, y, z], '/') == Sub(x, Sub(y, z))
  {
    Join2(y, z);
    assert [x, y, z][1..] == [y, z];
  }

  /** The segments of each stored label. */
  lemma SplitLabels(n: Names)
    requires Good(n)
    ensures Split(n.a, '/') == [n.a]
    ensures Split(NodeAB(n).path, '/') == NodeAB(n).segs
    ensures Split(NodeAC(n).path, '/') == NodeAC(n).segs
    ensures Split(NodeAF(n).path, '/') == NodeAF(n).segs
    ensures Split(NodeACD(n).path, '/') == NodeACD(n).segs
    ensures Split(NodeACE(n).path, '/') == NodeACE(n).segs
    ensures Split(NodeACEG(n).path, '/') == NodeACEG(n).segs
  {
    SplitNoDelimiter(n.a, '/');
    Split2(n.a, n.b);
    Split2(n.a, n.c);
    Split2(n.a, n.f);
    Split3(n.a, n.c, n.d);
    Split3(n.a, n.c, n.e);
    Split4(n.a, n.c, n.e, n.g);
  }

  /** What `Truncation` computes from a label's segments. */
  lemma TruncationOf(l: string, node: GroupPath, parts: seq<string>)
    requires node.delim == '/' && Split(l, '/') == parts
    ensures Truncation(l, node) ==
      if |parts| <= |node.segs| || parts[..|node.segs|] != node.segs then None
      else Some(Join(parts[..|node.segs| + 1], '/'))
  {
  }

  /** A candidate made of non-empty segments spawns the canonical child with that path. */
  lemma SpawnOf(c: string, node: GroupPath, parts: seq<string>)
    requires node.delim == '/' && Split(c, '/') == parts && "" !in parts
    ensures Spawn(c, node, Corrected) == Some(GroupPath(c, parts, '/', Some(node)))
  {
    assert Split("", '/') == [""];
    ValidIffSegmentsNonEmpty(c, '/');
  }

  /** A label below `node`: its truncation is its first `|node.segs| + 1` segments joined. */
  lemma TruncSome(l: string, node: GroupPath, parts: seq<string>, t: seq<string>)
    requires node.delim == '/' && Split(l, '/') == parts
    requires |parts| > |node.segs| && parts[..|node.segs|] == node.segs
    requires parts[..|node.segs| + 1] == t
    ensures Truncation(l, node) == Some(Join(t, '/'))
  {
    TruncationOf(l, node, parts);
  }

  /** A label with no more segments than `node` has no truncation. */
  lemma TruncShort(l: string, node: GroupPath, parts: seq<string>)
    requires node.delim == '/' && Split(l, '/') == parts
    requires |parts| <= |node.segs|
    ensures Truncation(l, node) == None
  {
    TruncationOf(l, node, parts);
  }

  /** A label that leaves `node`'s segments at position `i` has no truncation. */
  lemma TruncDiffers(l: string, node: GroupPath, parts: seq<string>, i: nat)
    requires node.delim == '/' && Split(l, '/') == parts
    requires i < |node.segs| < |parts| && parts[i] != node.segs[i]
    ensures Truncation(l, node) == None
  {
    assert parts[..|node.segs|][i] == parts[i];
    TruncationOf(l, node, parts);
  }

  lemma TruncAtRoot(l: string, parts: seq<string>)
    requires Split(l, '/') == parts
    ensures Truncation(l, Top()) == Some(parts[0])
  {
    assert parts[..0] == [];
    assert parts[..1] == [parts[0]];
    TruncSome(l, Top(), parts, [parts[0]]);
  }

  lemma TruncTwoAtOne(x: string, y: string, node: GroupPath)
    requires node.delim == '/' && node.segs == [x] && Seg(x) && Seg(y)
    ensures Truncation(Sub(x, y), node) == Some(Sub(x, y))
  {
    Split2(x, y);
    Join2(x, y);
    assert [x, y][..1] == [x] && [x, y][..2] == [x, y];
    TruncSome(Sub(x, y), node, [x, y], [x, y]);
  }

  lemma TruncThreeAtOne(x: string, y: string, z: string, node: GroupPath)
    requires node.delim == '/' && node.segs == [x] && Seg(x) && Seg(y) && Seg(z)
    ensures Truncation(Sub(x, Sub(y, z)), node) == Some(Sub(x, y))
  {
    Split3(x, y, z);
    Join2(x, y);
    assert [x, y, z][..1] == [x] && [x, y, z][..2] == [x, y];
    TruncSome(Sub(x, Sub(y, z)), node, [x, y, z], [x, y]);
  }

  lemma TruncFourAtOne(w: string, x: string, y: string, z: string, node: GroupPath)
    requires node.delim == '/' && node.segs == [w] && Seg(w) && Seg(x) && Seg(y) && Seg(z)
    ensures Truncation(Sub(w, Sub(x, Sub(y, z))), node) == Some(Sub(w, x))
  {
    Split4(w, x, y, z);
    Join2(w, x);
    assert [w, x, y, z][..1] == [w] && [w, x, y, z][..2] == [w, x];
    TruncSome(Sub(w, Sub(x, Sub(y, z))), node, [w, x, y, z], [w, x]);
  }

  lemma TruncThreeAtTwo(x: string, y: string, z: string, node: GroupPath)
    requires node.delim == '/' && node.segs == [x, y] && Seg(x) && Seg(y) && Seg(z)
    ensures Truncation(Sub(x, Sub(y, z)), node) == Some(Sub(x, Sub(y, z)))
  {
    Split3(x, y, z);
    Join3(x, y, z);
    assert [x, y, z][..2] == [x, y] && [x, y, z][..3] == [x, y, z];
    TruncSome(Sub(x, Sub(y, z)), node, [x, y, z], [x, y, z]);
  }

  lemma TruncFourAtTwo(w: string, x: string, y: string, z: string, node: GroupPath)
    requires node.delim == '/' && node.segs == [w, x] && Seg(w) && Seg(x) && Seg(y) && Seg(z)
    ensures Truncation(Sub(w, Sub(x, Sub(y, z))), node) == Some(Sub(w, Sub(x, y)))
  {
    Split4(w, x, y, z);
    Join3(w, x, y);
    assert [w, x, y, z][..2] == [w, x] && [w, x, y, z][..3] == [w, x, y];
    TruncSome(Sub(w, Sub(x, Sub(y, z))), node, [w, x, y, z], [w, x, y]);
  }

  lemma Join4(w: string, x: string, y: string, z: string)
    ensures Join([w, x, y, z], '/') == Sub(w, Sub(x, Sub(y, z)))
  {
    Join3(x, y, z);
    assert [w, x, y, z][1..] == [x, y, z];
  }

  lemma TruncFourAtThree(w: string, x: string, y: string, z: string, node: GroupPath)
    requires node.delim == '/' && node.segs == [w, x, y] && Seg(w) && Seg(x) && Seg(y) && Seg(z)
    ensures Truncation(Sub(w, Sub(x, Sub(y, z))), node) == Some(Sub(w, Sub(x, Sub(y, z))))
  {
    Split4(w, x, y, z);
    Join4(w, x, y, z);
    assert [w, x, y, z][..3] == [w, x, y] && [w, x, y, z][..4] == [w, x, y, z];
    TruncSome(Sub(w, Sub(x, Sub(y, z))), node, [w, x, y, z], [w, x, y, z]);
  }

  /** Every label truncates to `a` at the root. */
  lemma TruncationsAtRoot(n: Names)
    requires Good(n)
    ensures Truncation(n.a, Top()) == Some(n.a)
    ensures Truncation(NodeAB(n).path, Top()) == Some(n.a)
    ensures Truncation(NodeACD(n).path, Top()) == Some(n.a)
    ensures Truncation(NodeACEG(n).path, Top()) == Some(n.a)
    ensures Truncation(NodeAF(n).path, Top()) == Some(n.a)
  {
    SplitNoDelimiter(n.a, '/');
    TruncAtRoot(n.a, [n.a]);
    Split2(n.a, n.b);
    TruncAtRoot(NodeAB(n).path, [n.a, n.b]);
    Split3(n.a, n.c, n.d);
    TruncAtRoot(NodeACD(n).path, [n.a, n.c, n.d]);
    Split4(n.a, n.c, n.e, n.g);
    TruncAtRoot(NodeACEG(n).path, [n.a, n.c, n.e, n.g]);
    Split2(n.a, n.f);
    TruncAtRoot(NodeAF(n).path, [n.a, n.f]);
  }

  lemma TruncationsAtA(n: Names)
    requires Good(n)
    ensures Truncation(n.a, NodeA(n)) == None
    ensures Truncation(NodeAB(n).path, NodeA(n)) == Some(NodeAB(n).path)
    ensures Truncation(NodeACD(n).path, NodeA(n)) == Some(NodeAC(n).path)
    ensures Truncation(NodeACEG(n).path, NodeA(n)) == Some(NodeAC(n).path)
    ensures Truncation(NodeAF(n).path, NodeA(n)) == Some(NodeAF(n).path)
  {
    SplitNoDelimiter(n.a, '/');
    TruncShort(n.a, NodeA(n), [n.a]);
    TruncTwoAtOne(n.a, n.b, NodeA(n));
    TruncThreeAtOne(n.a, n.c, n.d, NodeA(n));
    TruncFourAtOne(n.a, n.c, n.e, n.g, NodeA(n));
    TruncTwoAtOne(n.a, n.f, NodeA(n));
  }

  lemma TruncationsAtAC(n: Names)
    requires Good(n)
    ensures Truncation(n.a, NodeAC(n)) == None
    ensures Truncation(NodeAB(n).path, NodeAC(n)) == None
    ensures Truncation(NodeACD(n).path, NodeAC(n)) == Some(NodeACD(n).path)
    ensures Truncation(NodeACEG(n).path, NodeAC(n)) == Some(NodeACE(n).path)
    ensures Truncation(NodeAF(n).path, NodeAC(n)) == None
  {
    SplitNoDelimiter(n.a, '/');
    TruncShort(n.a, NodeAC(n), [n.a]);
    Split2(n.a, n.b);
    TruncShort(NodeAB(n).path, NodeAC(n), [n.a, n.b]);
    TruncThreeAtTwo(n.a, n.c, n.d, NodeAC(n));
    TruncFourAtTwo(n.a, n.c, n.e, n.g, NodeAC(n));
    Split2(n.a, n.f);
    TruncShort(NodeAF(n).path, NodeAC(n), [n.a, n.f]);
  }

  lemma TruncationsAtACE(n: Names)
    requires Good(n)
    ensures Truncation(n.a, NodeACE(n)) == None
    ensures Truncation(NodeAB(n).path, NodeACE(n)) == None
    ensures Truncation(NodeACD(n).path, NodeACE(n)) == None
    ensures Truncation(NodeACEG(n).path, NodeACE(n)) == Some(NodeACEG(n).path)
    ensures Truncation(NodeAF(n).path, NodeACE(n)) == None
  {
    SplitNoDelimiter(n.a, '/');
    TruncShort(n.a, NodeACE(n), [n.a]);
    Split2(n.a, n.b);
    TruncShort(NodeAB(n).path, NodeACE(n), [n.a, n.b]);
    Split3(n.a, n.c, n.d);
    TruncShort(NodeACD(n).path, NodeACE(n), [n.a, n.c, n.d]);
    TruncFourAtThree(n.a, n.c, n.e, n.g, NodeACE(n));
    Split2(n.a, n.f);
    TruncShort(NodeAF(n).path, NodeACE(n), [n.a, n.f]);
  }

  /**
   * Below `a/b`, `a/f`, `a/c/d` or `a/c/e/g` no label has a truncation:
   * each label is no longer than the node or leaves its segments.
   */
  lemma TruncationsAtAB(n: Names)
    requires Good(n)
    ensures Truncation(n.a, NodeAB(n)) == None
    ensures Truncation(NodeAB(n).path, NodeAB(n)) == None
    ensures Truncation(NodeACD(n).path, NodeAB(n)) == None
    ensures Truncation(NodeACEG(n).path, NodeAB(n)) == None
    ensures Truncation(NodeAF(n).path, NodeAB(n)) == None
  {
    SplitNoDelimiter(n.a, '/');
    TruncShort(n.a, NodeAB(n), [n.a]);
    Split2(n.a, n.b);
    TruncShort(NodeAB(n).path, NodeAB(n), [n.a, n.b]);
    Split3(n.a, n.c, n.d);
    TruncDiffers(NodeACD(n).path, NodeAB(n), [n.a, n.c, n.d], 1);
    Split4(n.a, n.c, n.e, n.g);
    TruncDiffers(NodeACEG(n).path, NodeAB(n), [n.a, n.c, n.e, n.g], 1);
    Split2(n.a, n.f);
    TruncShort(NodeAF(n).path, NodeAB(n), [n.a, n.f]);
  }

  lemma TruncationsAtAF(n: Names)
    requires Good(n)
    ensures Truncation(n.a, NodeAF(n)) == None
    ensures Truncation(NodeAB(n).path, NodeAF(n)) == None
    ensures Truncation(NodeACD(n).path, NodeAF(n)) == None
    ensures Truncation(NodeACEG(n).path, NodeAF(n)) == None
    ensures Truncation(NodeAF(n).path, NodeAF(n)) == None
  {
    SplitNoDelimiter(n.a, '/');
    TruncShort(n.a, NodeAF(n), [n.a]);
    Split2(n.a, n.b);
    TruncShort(NodeAB(n).path, NodeAF(n), [n.a, n.b]);
    Split3(n.a, n.c, n.d);
    TruncDiffers(NodeACD(n).path, NodeAF(n), [n.a, n.c, n.d], 1);
    Split4(n.a, n.c, n.e, n.g);
    TruncDiffers(NodeACEG(n).path, NodeAF(n), [n.a, n.c, n.e, n.g], 1);
    Split2(n.a, n.f);
    TruncShort(NodeAF(n).path, NodeAF(n), [n.a, n.f]);
  }

  lemma TruncationsAtACD(n: Names)
    requires Good(n)
    ensures Truncation(n.a, NodeACD(n)) == None
    ensures Truncation(NodeAB(n).path, NodeACD(n)) == None
    ensures Truncation(NodeACD(n).path, NodeACD(n)) == None
    ensures Truncation(NodeACEG(n).path, NodeACD(n)) == None
    ensures Truncation(NodeAF(n).path, NodeACD(n)) == None
  {
    SplitNoDelimiter(n.a, '/');
    TruncShort(n.a, NodeACD(n), [n.a]);
    Split2(n.a, n.b);
    TruncShort(NodeAB(n).path, NodeACD(n), [n.a, n.b]);
    Split3(n.a, n.c, n.d);
    TruncShort(NodeACD(n).path, NodeACD(n), [n.a, n.c, n.d]);
    Split4(n.a, n.c, n.e, n.g);
    TruncDiffers(NodeACEG(n).path, NodeACD(n), [n.a, n.c, n.e, n.g], 2);
    Split2(n.a, n.f);
    TruncShort(NodeAF(n).path, NodeACD(n), [n.a, n.f]);
  }

  lemma TruncationsAtACEG(n: Names)
    requires Good(n)
    ensures Truncation(n.a, NodeACEG(n)) == None
    ensures Truncation(NodeAB(n).path, NodeACEG(n)) == None
    ensures Truncation(NodeACD(n).path, NodeACEG(n)) == None
    ensures Truncation(NodeACEG(n).path, NodeACEG(n)) == None
    ensures Truncation(NodeAF(n).path, NodeACEG(n)) == None
  {
    SplitNoDelimiter(n.a, '/');
    TruncShort(n.a, NodeACEG(n), [n.a]);
    Split2(n.a, n.b);
    TruncShort(NodeAB(n).path, NodeACEG(n), [n.a, n.b]);
    Split3(n.a, n.c, n.d);
    TruncShort(NodeACD(n).path, NodeACEG(n), [n.a, n.c, n.d]);
    Split4(n.a, n.c, n.e, n.g);
    TruncShort(NodeACEG(n).path, NodeACEG(n), [n.a, n.c, n.e, n.g]);
    Split2(n.a, n.f);
    TruncShort(NodeAF(n).path, NodeACEG(n), [n.a, n.f]);
  }

  /** Different tails below the same segment give different paths. */
  lemma SubInjective(x: string, p: string, q: string)
    requires Sub(x, p) == Sub(x, q)
    ensures p == q
  {
    assert p == Sub(x, p)[|x| + 1..];
    assert q == Sub(x, q)[|x| + 1..];
  }

  /** The children's paths are different from each other where the test needs it. */
  lemma PathsDiffer(n: Names)
    requires Good(n)
    ensures NodeAB(n).path != NodeAC(n).path && NodeAB(n).path != NodeAF(n).path && NodeAC(n).path != NodeAF(n).path
    ensures NodeACD(n).path != NodeACE(n).path
  {
    if NodeAB(n).path == NodeAC(n).path { SubInjective(n.a, n.b, n.c); }
    if NodeAB(n).path == NodeAF(n).path { SubInjective(n.a, n.b, n.f); }
    if NodeAC(n).path == NodeAF(n).path { SubInjective(n.a, n.c, n.f); }
    if NodeACD(n).path == NodeACE(n).path {
      SubInjective(n.a, Sub(n.c, n.d), Sub(n.c, n.e));
      SubInjective(n.c, n.d, n.e);
    }
  }

  /** `yielded` over the listing is the loop run from the empty list. */
  lemma YieldedLoop(ls: seq<string>, node: GroupPath)
    ensures Yielded(ls, node) == YieldFrom([], ls, node)
  {
    assert [] + ls == ls;
    YieldedFold([], ls, node);
    assert Yielded([], node) == [];
  }

  /** One turn of the loop at position `k`. */
  lemma LoopAt(ys: seq<string>, ls: seq<string>, k: nat, node: GroupPath)
    requires k < |ls|
    ensures YieldFrom(ys, ls[k..], node) == YieldFrom(Next(ys, Truncation(ls[k], node)), ls[k + 1..], node)
  {
    assert ls[k..][0] == ls[k];
    assert ls[k..][1..] == ls[k + 1..];
  }

  /** The loop over five labels with the given truncations. */
  lemma LoopFive(ls: seq<string>, node: GroupPath)
    requires |ls| == 5
    ensures YieldFrom([], ls, node) ==
      Next(Next(Next(Next(Next([], Truncation(ls[0], node)), Truncation(ls[1], node)),
        Truncation(ls[2], node)), Truncation(ls[3], node)), Truncation(ls[4], node))
  {
    var y1 := Next([], Truncation(ls[0], node));
    var y2 := Next(y1, Truncation(ls[1], node));
    var y3 := Next(y2, Truncation(ls[2], node));
    var y4 := Next(y3, Truncation(ls[3], node));
    var y5 := Next(y4, Truncation(ls[4], node));
    assert ls[0..] == ls;
    LoopAt([], ls, 0, node);
    LoopAt(y1, ls, 1, node);
    LoopAt(y2, ls, 2, node);
    LoopAt(y3, ls, 3, node);
    LoopAt(y4, ls, 4, node);
    assert ls[5..] == [];
  }

  lemma YieldedAtRoot(n: Names)
    requires Good(n)
    ensures Yielded(Labels(n), Top()) == [n.a]
  {
    TruncationsAtRoot(n);
    YieldedConstant(Labels(n), Top(), n.a);
  }

  lemma YieldedAtA(n: Names)
    requires Good(n)
    ensures Yielded(Labels(n), NodeA(n)) == [NodeAB(n).path, NodeAC(n).path, NodeAF(n).path]
  {
    YieldedLoop(Labels(n), NodeA(n));
    LoopFive(Labels(n), NodeA(n));
    TruncationsAtA(n);
    PathsDiffer(n);
    var ls := Labels(n);
    NextThree(Truncation(ls[0], NodeA(n)), Truncation(ls[1], NodeA(n)), Truncation(ls[2], NodeA(n)),
      Truncation(ls[3], NodeA(n)), Truncation(ls[4], NodeA(n)), NodeAB(n).path, NodeAC(n).path, NodeAF(n).path);
  }

  /** One label above, then `x`, `y` twice and `z`: `yielded` is `[x, y, z]`. */
  lemma NextThree(t0: Option<string>, t1: Option<string>, t2: Option<string>, t3: Option<string>, t4: Option<string>,
                  x: string, y: string, z: string)
    requires t0 == None && t1 == Some(x) && t2 == Some(y) && t3 == Some(y) && t4 == Some(z)
    requires x != y && x != z && y != z
    ensures Next(Next(Next(Next(Next([], t0), t1), t2), t3), t4) == [x, y, z]
  {
    assert [] + [x] == [x];
    assert [x] + [y] + [z] == [x, y, z];
  }

  /** Two labels above, then `x`, `y` and one more label above: `yielded` is `[x, y]`. */
  lemma NextTwo(t0: Option<string>, t1: Option<string>, t2: Option<string>, t3: Option<string>, t4: Option<string>,
                x: string, y: string)
    requires t0 == None && t1 == None && t2 == Some(x) && t3 == Some(y) && t4 == None
    requires x != y
    ensures Next(Next(Next(Next(Next([], t0), t1), t2), t3), t4) == [x, y]
  {
    assert [] + [x] == [x];
    assert [x] + [y] == [x, y];
  }

  lemma YieldedAtAC(n: Names)
    requires Good(n)
    ensures Yielded(Labels(n), NodeAC(n)) == [NodeACD(n).path, NodeACE(n).path]
  {
    YieldedLoop(Labels(n), NodeAC(n));
    LoopFive(Labels(n), NodeAC(n));
    TruncationsAtAC(n);
    PathsDiffer(n);
    var ls := Labels(n);
    NextTwo(Truncation(ls[0], NodeAC(n)), Truncation(ls[1], NodeAC(n)), Truncation(ls[2], NodeAC(n)),
      Truncation(ls[3], NodeAC(n)), Truncation(ls[4], NodeAC(n)), NodeACD(n).path, NodeACE(n).path);
  }

  lemma YieldedAtACE(n: Names)
    requires Good(n)
    ensures Yielded(Labels(n), NodeACE(n)) == [NodeACEG(n).path]
  {
    YieldedLoop(Labels(n), NodeACE(n));
    LoopFive(Labels(n), NodeACE(n));
    TruncationsAtACE(n);
    assert [] + [NodeACEG(n).path] == [NodeACEG(n).path];
  }

  /** A node below which no label reaches has no children. */
  lemma NoChildren(n: Names, node: GroupPath)
    requires Truncation(n.a, node) == None && Truncation(NodeAB(n).path, node) == None
    requires Truncation(NodeACD(n).path, node) == None && Truncation(NodeACEG(n).path, node) == None
    requires Truncation(NodeAF(n).path, node) == None
    ensures ChildrenOf(Labels(n), node) == []
  {
    YieldedLoop(Labels(n), node);
    LoopFive(Labels(n), node);
  }

  lemma Leaves(n: Names)
    requires Good(n)
    ensures ChildrenOf(Labels(n), NodeAB(n)) == [] && ChildrenOf(Labels(n), NodeAF(n)) == []
    ensures ChildrenOf(Labels(n), NodeACD(n)) == [] && ChildrenOf(Labels(n), NodeACEG(n)) == []
  {
    TruncationsAtAB(n);
    NoChildren(n, NodeAB(n));
    TruncationsAtAF(n);
    NoChildren(n, NodeAF(n));
    TruncationsAtACD(n);
    NoChildren(n, NodeACD(n));
    TruncationsAtACEG(n);
    NoChildren(n, NodeACEG(n));
  }

  /** A candidate that spawns a child emits just that child. */
  lemma EmitOne(x: string, node: GroupPath, kx: GroupPath)
    requires Spawn(x, node, Corrected) == Some(kx)
    ensures Emit([x], node, Corrected) == [kx]
  {
    assert [x][..0] == [];
  }

  /** Two candidates that both spawn children emit those children in order. */
  lemma EmitTwo(x: string, y: string, node: GroupPath, kx: GroupPath, ky: GroupPath)
    requires Spawn(x, node, Corrected) == Some(kx)
    requires Spawn(y, node, Corrected) == Some(ky)
    ensures Emit([x, y], node, Corrected) == [kx, ky]
  {
    EmitOne(x, node, kx);
    assert [x, y][..1] == [x];
  }

  /** Three candidates that all spawn children emit those children in order. */
  lemma EmitThree(x: string, y: string, z: string, node: GroupPath, kx: GroupPath, ky: GroupPath, kz: GroupPath)
    requires Spawn(x, node, Corrected) == Some(kx)
    requires Spawn(y, node, Corrected) == Some(ky)
    requires Spawn(z, node, Corrected) == Some(kz)
    ensures Emit([x, y, z], node, Corrected) == [kx, ky, kz]
  {
    EmitTwo(x, y, node, kx, ky);
    assert [x, y, z][..2] == [x, y];
  }

  /**
   * With exactly one child `k`, `__len__` is 1 and `__contains__` holds for
   * `k`'s last segment and for no other key.
   */
  lemma OnlyChild(ks: seq<GroupPath>, k: GroupPath, key: string)
    requires ks == [k] && |k.segs| > 0
    ensures |ks| == 1
    ensures (exists x :: x in ks && Named(x, key)) <==> k.segs[|k.segs| - 1] == key
  {
    assert k in ks;
  }

  /**
   * The root has the one child `a`: `len(root) == 1`, `a` is in the root,
   * and no other key is.
   */
  lemma RootChildren(n: Names, key: string)
    requires Good(n)
    ensures ChildrenOf(Labels(n), Top()) == [NodeA(n)]
    ensures |ChildrenOf(Labels(n), Top())| == 1
    ensures (exists k :: k in ChildrenOf(Labels(n), Top()) && Named(k, key)) <==> key == n.a
  {
    YieldedAtRoot(n);
    SplitNoDelimiter(n.a, '/');
    SpawnOf(n.a, Top(), [n.a]);
    EmitOne(n.a, Top(), NodeA(n));
    OnlyChild(ChildrenOf(Labels(n), Top()), NodeA(n), key);
  }

  /** `a` has the three children `a/b`, `a/c` and `a/f`, in listing order: `len(a) == 3`. */
  lemma ChildrenOfA(n: Names)
    requires Good(n)
    ensures ChildrenOf(Labels(n), NodeA(n)) == [NodeAB(n), NodeAC(n), NodeAF(n)]
  {
    YieldedAtA(n);
    Split2(n.a, n.b);
    SpawnOf(NodeAB(n).path, NodeA(n), NodeAB(n).segs);
    Split2(n.a, n.c);
    SpawnOf(NodeAC(n).path, NodeA(n), NodeAC(n).segs);
    Split2(n.a, n.f);
    SpawnOf(NodeAF(n).path, NodeA(n), NodeAF(n).segs);
    EmitThree(NodeAB(n).path, NodeAC(n).path, NodeAF(n).path, NodeA(n), NodeAB(n), NodeAC(n), NodeAF(n));
  }

  /** `a/c`, which has no group of its own, has the children `a/c/d` and `a/c/e`. */
  lemma ChildrenOfAC(n: Names)
    requires Good(n)
    ensures ChildrenOf(Labels(n), NodeAC(n)) == [NodeACD(n), NodeACE(n)]
  {
    YieldedAtAC(n);
    Split3(n.a, n.c, n.d);
    SpawnOf(NodeACD(n).path, NodeAC(n), NodeACD(n).segs);
    Split3(n.a, n.c, n.e);
    SpawnOf(NodeACE(n).path, NodeAC(n), NodeACE(n).segs);
    EmitTwo(NodeACD(n).path, NodeACE(n).path, NodeAC(n), NodeACD(n), NodeACE(n));
  }

  lemma ChildrenOfACE(n: Names)
    requires Good(n)
    ensures ChildrenOf(Labels(n), NodeACE(n)) == [NodeACEG(n)]
  {
    YieldedAtACE(n);
    Split4(n.a, n.c, n.e, n.g);
    SpawnOf(NodeACEG(n).path, NodeACE(n), NodeACEG(n).segs);
    EmitOne(NodeACEG(n).path, NodeACE(n), NodeACEG(n));
  }
  /** The walk of a node with no children is empty. */
  lemma WalkLeaf(ls: seq<string>, node: GroupPath)
    requires ChildrenOf(ls, node) == []
    ensures WalkOf(ls, node) == []
  {
  }

  /** The walk of a node with one child is that child and then its walk. */
  lemma WalkOne(ls: seq<string>, node: GroupPath, k: GroupPath)
    requires ChildrenOf(ls, node) == [k]
    ensures WalkOf(ls, node) == [k] + WalkOf(ls, k)
  {
    ChildrenFit(ls, node);
    var d, n := node.delim, |node.segs|;
    assert [k][1..] == [];
    assert WalkList(ls, d, [k], n) == [k] + WalkOf(ls, k) + WalkList(ls, d, [], n);
  }

  /** The walk of siblings: the first, its walk, then the walk of the others. */
  lemma WalkListHead(ls: seq<string>, d: char, n: nat, ks: seq<GroupPath>)
    requires |ks| > 0
    requires forall x :: x in ks ==> x.delim == d && |x.segs| == n + 1 <= MaxSegs(ls, d)
    ensures forall x :: x in ks[1..] ==> x.delim == d && |x.segs| == n + 1 <= MaxSegs(ls, d)
    ensures WalkList(ls, d, ks, n) == [ks[0]] + WalkOf(ls, ks[0]) + WalkList(ls, d, ks[1..], n)
  {
    assert forall x :: x in ks[1..] ==> x in ks;
  }

  /** The walk of two siblings: each followed by its own walk. */
  lemma WalkListPair(ls: seq<string>, d: char, n: nat, ks: seq<GroupPath>)
    requires |ks| == 2
    requires forall x :: x in ks ==> x.delim == d && |x.segs| == n + 1 <= MaxSegs(ls, d)
    ensures WalkList(ls, d, ks, n) == [ks[0]] + WalkOf(ls, ks[0]) + ([ks[1]] + WalkOf(ls, ks[1]))
  {
    WalkListHead(ls, d, n, ks);
    WalkListHead(ls, d, n, ks[1..]);
    assert ks[1..][0] == ks[1] && ks[1..][1..] == [];
    assert [ks[1]] + WalkOf(ls, ks[1]) + [] == [ks[1]] + WalkOf(ls, ks[1]);
  }

  /** The walk of a node with two children: each child followed by its own walk. */
  lemma WalkTwo(ls: seq<string>, node: GroupPath, k1: GroupPath, k2: GroupPath)
    requires ChildrenOf(ls, node) == [k1, k2]
    ensures WalkOf(ls, node) == [k1] + WalkOf(ls, k1) + ([k2] + WalkOf(ls, k2))
  {
    ChildrenFit(ls, node);
    WalkListPair(ls, node.delim, |node.segs|, ChildrenOf(ls, node));
  }

  /** The walk of a node with three children: each child followed by its own walk. */
  lemma WalkThree(ls: seq<string>, node: GroupPath, k1: GroupPath, k2: GroupPath, k3: GroupPath)
    requires ChildrenOf(ls, node) == [k1, k2, k3]
    ensures WalkOf(ls, node) == [k1] + WalkOf(ls, k1) + ([k2] + WalkOf(ls, k2) + ([k3] + WalkOf(ls, k3)))
  {
    var ks := ChildrenOf(ls, node);
    var d, n := node.delim, |node.segs|;
    ChildrenFit(ls, node);
    WalkListHead(ls, d, n, ks);
    assert ks[1..] == [k2, k3];
    WalkListPair(ls, d, n, ks[1..]);
  }

  lemma WalkACE(n: Names)
    requires Good(n)
    ensures WalkOf(Labels(n), NodeACE(n)) == [NodeACEG(n)]
  {
    Leaves(n);
    WalkLeaf(Labels(n), NodeACEG(n));
    ChildrenOfACE(n);
    WalkOne(Labels(n), NodeACE(n), NodeACEG(n));
    assert [NodeACEG(n)] + [] == [NodeACEG(n)];
  }

  /** Two children, the first a leaf and the second with a one-node walk. */
  lemma FlattenTwo(k1: GroupPath, k2: GroupPath, w: seq<GroupPath>)
    ensures [k1] + [] + ([k2] + w) == [k1, k2] + w
  {
    assert [k1] + [] == [k1];
    assert [k1] + ([k2] + w) == [k1, k2] + w;
  }

  lemma WalkAC(n: Names)
    requires Good(n)
    ensures WalkOf(Labels(n), NodeAC(n)) == [NodeACD(n), NodeACE(n), NodeACEG(n)]
  {
    Leaves(n);
    WalkLeaf(Labels(n), NodeACD(n));
    WalkACE(n);
    ChildrenOfAC(n);
    WalkTwo(Labels(n), NodeAC(n), NodeACD(n), NodeACE(n));
    FlattenTwo(NodeACD(n), NodeACE(n), [NodeACEG(n)]);
    assert [NodeACD(n), NodeACE(n)] + [NodeACEG(n)] == [NodeACD(n), NodeACE(n), NodeACEG(n)];
  }

  lemma MiddleShape(k1: GroupPath, k2: GroupPath, k3: GroupPath, w: seq<GroupPath>)
    ensures [k1] + [] + ([k2] + w + ([k3] + [])) == [k1, k2] + w + [k3]
  {
    assert [k3] + [] == [k3];
    assert [k1] + [] == [k1];
    assert [k1] + ([k2] + w + [k3]) == [k1, k2] + w + [k3];
  }

  lemma FlattenA(w: seq<GroupPath>, x1: GroupPath, x2: GroupPath, x3: GroupPath, x4: GroupPath, x5: GroupPath, x6: GroupPath)
    requires w == [x1, x2] + [x3, x4, x5] + [x6]
    ensures w == [x1, x2, x3, x4, x5, x6]
  {
  }

  lemma WalkA(n: Names)
    requires Good(n)
    ensures WalkOf(Labels(n), NodeA(n)) == [NodeAB(n), NodeAC(n), NodeACD(n), NodeACE(n), NodeACEG(n), NodeAF(n)]
  {
    Leaves(n);
    WalkLeaf(Labels(n), NodeAB(n));
    WalkLeaf(Labels(n), NodeAF(n));
    WalkAC(n);
    ChildrenOfA(n);
    WalkThree(Labels(n), NodeA(n), NodeAB(n), NodeAC(n), NodeAF(n));
    MiddleShape(NodeAB(n), NodeAC(n), NodeAF(n), [NodeACD(n), NodeACE(n), NodeACEG(n)]);
    FlattenA(WalkOf(Labels(n), NodeA(n)), NodeAB(n), NodeAC(n), NodeACD(n), NodeACE(n), NodeACEG(n), NodeAF(n));
  }

  lemma FlattenRoot(w: seq<GroupPath>, x0: GroupPath, v: seq<GroupPath>,
                    x1: GroupPath, x2: GroupPath, x3: GroupPath, x4: GroupPath, x5: GroupPath, x6: GroupPath)
    requires w == [x0] + v && v == [x1, x2, x3, x4, x5, x6]
    ensures w == [x0, x1, x2, x3, x4, x5, x6]
  {
  }

  /**
   * The walk from the root visits `a`, `a/b`, `a/c`, `a/c/d`, `a/c/e`,
   * `a/c/e/g` and `a/f`: every stored label and every virtual level
   * between them, each parent before its descendants.
   */
  lemma WalkFromRoot(n: Names)
    requires Good(n)
    ensures WalkOf(Labels(n), Top()) ==
      [NodeA(n), NodeAB(n), NodeAC(n), NodeACD(n), NodeACE(n), NodeACEG(n), NodeAF(n)]
  {
    RootChildren(n, n.a);
    WalkOne(Labels(n), Top(), NodeA(n));
    WalkA(n);
    FlattenRoot(WalkOf(Labels(n), Top()), NodeA(n), WalkOf(Labels(n), NodeA(n)),
      NodeAB(n), NodeAC(n), NodeACD(n), NodeACE(n), NodeACEG(n), NodeAF(n));
  }

  /** With the test's names the walk's nodes have the paths the test expects. */
  lemma TestPaths()
    ensures var n := TestNames();
      [NodeA(n).path, NodeAB(n).path, NodeAC(n).path, NodeACD(n).path, NodeACE(n).path, NodeACEG(n).path, NodeAF(n).path]
        == ["a", "a/b", "a/c", "a/c/d", "a/c/e", "a/c/e/g", "a/f"]
  {
    TestListing();
    assert Sub("a", "c") == "a/c";
    assert Sub("c", "e") == "c/e" && Sub("a", "c/e") == "a/c/e";
  }

  /**
   * Over the same listing, `a`, `a/b` and `a/f` have groups while `a/c`
   * and the root are virtual.
   */
  lemma VirtualLevels(n: Names, st: GroupStore)
    requires Good(n) && st.labels == Labels(n)
    ensures st.HasGroup(NodeA(n)) && st.HasGroup(NodeAB(n)) && st.HasGroup(NodeAF(n))
    ensures st.IsVirtual(NodeAC(n)) && st.IsVirtual(Top())
  {
    PathsDiffer(n);
    SplitLabels(n);
    SplitNoDelimiter(n.a, '/');
    assert NodeAC(n).path != n.a by {
      assert Split(NodeAC(n).path, '/') != Split(n.a, '/');
    }
    assert NodeAC(n).path != NodeACD(n).path by {
      assert |Split(NodeAC(n).path, '/')| != |Split(NodeACD(n).path, '/')|;
    }
    assert NodeAC(n).path != NodeACEG(n).path by {
      assert |Split(NodeAC(n).path, '/')| != |Split(NodeACEG(n).path, '/')|;
    }
  }
}
