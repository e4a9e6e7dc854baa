/**
 * The path value of `GroupPath`: validation of a delimiter-joined path
 * string, the node built from it (path, segments, delimiter and a link
 * to the parent it was derived from), `root`, and the segment-by-segment
 * descent of `/` and `[]`.
 */
module GroupPaths {
  import opened Wrappers
  import opened Segments

  /** The `InvalidPath` exception, carrying the offending path. */
  datatype InvalidPath = InvalidPath(path: string)

  /** `d * 2 in p`, for a one-character delimiter `d`. */
  predicate Doubled(p: string, d: char)
  {
    |p| >= 2 && ((p[0] == d && p[1] == d) || Doubled(p[1..], d))
  }

  /**
   * `_validate_path`: the delimiter alone stands for the root path `""`;
   * a doubled, leading or trailing delimiter is refused; anything else,
   * `""` included, passes unchanged.
   */
  function Validate(p: string, d: char): Result<string, InvalidPath>
  {
    if p == [d] then Ok("")
    else if Doubled(p, d) || (|p| > 0 && (p[0] == d || p[|p| - 1] == d)) then Err(InvalidPath(p))
    else Ok(p)
  }

  /**
   * Where empty segments come from: the whole split has one exactly when
   * the string is empty, starts or ends with the delimiter or doubles it;
   * the segments after the first have one exactly when it ends with the
   * delimiter or doubles it.
   */
  lemma {:induction false} EmptySegment(p: string, d: char)
    ensures "" in Split(p, d) <==> (p == "" || p[0] == d || p[|p| - 1] == d || Doubled(p, d))
    ensures "" in Split(p, d)[1..] <==> ((p != "" && p[|p| - 1] == d) || Doubled(p, d))
  {
    if p != "" {
      var q := p[1..];
      EmptySegment(q, d);
      if q != "" {
        assert p[|p| - 1] == q[|q| - 1];
        assert Doubled(p, d) <==> (q[0] == d && p[0] == d) || Doubled(q, d);
      } else {
        assert !Doubled(p, d);
      }
      if p[0] == d {
        assert Split(p, d) == [""] + Split(q, d);
        assert Split(p, d)[1..] == Split(q, d);
      } else {
        var t := Split(q, d);
        assert Split(p, d) == [[p[0]] + t[0]] + t[1..];
        assert Split(p, d)[1..] == t[1..];
        assert [p[0]] + t[0] != "";
        assert !(q != "" && q[0] == d && p[0] == d);
      }
    }
  }

  /**
   * A non-empty path passes validation unchanged exactly when every one of
   * its segments is non-empty.
   */
  lemma ValidIffSegmentsNonEmpty(p: string, d: char)
    ensures (Validate(p, d) == Ok(p) && p != "") <==> "" !in Split(p, d)
  {
    EmptySegment(p, d);
    if p == [d] {
      assert Split(p, d) == [""] + Split("", d);
    }
  }

  /** The test suite's paths: four are refused, the bare delimiter is the root. */
  lemma ValidateExamples()
    ensures Validate("/a", '/').Err? && Validate("a/", '/').Err?
    ensures Validate("/a/", '/').Err? && Validate("a//b", '/').Err?
    ensures Validate("/", '/') == Ok("") && Validate("", '/') == Ok("")
    ensures Validate("a/b", '/') == Ok("a/b")
  {
    assert Doubled("a//b", '/') by { assert "a//b"[1..] == "//b"; }
    assert !Doubled("a/b", '/') by {
      assert "a/b"[1..] == "/b";
      assert "/b"[1..] == "b";
    }
  }

  /**
   * A node of the virtual tree: its validated path, its segments, its
   * delimiter, and the node it was derived from, if any.
   */
  datatype GroupPath = GroupPath(path: string, segs: seq<string>, delim: char, parent: Option<GroupPath>)

  /**
   * The normal shape of a node: the root has path `""` and no segments;
   * any other node has a valid path whose segments are its split.
   * Only a node built from the bare delimiter falls outside it.
   */
  ghost predicate Canonical(n: GroupPath)
  {
    if n.path == "" then n.segs == []
    else Validate(n.path, n.delim) == Ok(n.path) && n.segs == Split(n.path, n.delim)
  }

  /**
   * `GroupPath(path, parent, delimiter)`. The segments are computed from
   * the validated string but the emptiness test is on the RAW argument,
   * so `"/"` gives path `""` with segments `[""]`.
   */
  function New(raw: string, parent: Option<GroupPath>, d: char): (r: Result<GroupPath, InvalidPath>)
    ensures r.Ok? <==> Validate(raw, d).Ok?
    ensures r.Err? ==> r.error == InvalidPath(raw)
    ensures r.Ok? ==> r.value.parent == parent && r.value.delim == d
    ensures r.Ok? && raw != [d] ==> r.value.path == raw
  {
    match Validate(raw, d)
    case Err(e) => Err(e)
    case Ok(v) => Ok(GroupPath(v, if raw != "" then Split(v, d) else [], d, parent))
  }

  /**
   * The shape of a constructed node: its path is the join of its
   * segments; built from anything but the bare delimiter it is canonical;
   * a non-empty path has the split of the argument, all of it non-empty.
   */
  lemma NewShape(raw: string, parent: Option<GroupPath>, d: char)
    requires New(raw, parent, d).Ok?
    ensures Join(New(raw, parent, d).value.segs, d) == New(raw, parent, d).value.path
    ensures raw != [d] ==> Canonical(New(raw, parent, d).value)
    ensures New(raw, parent, d).value.path != "" ==> New(raw, parent, d).value.segs == Split(raw, d) && "" !in New(raw, parent, d).value.segs
  {
    var v := Validate(raw, d).value;
    JoinSplit(v, d);
    ValidIffSegmentsNonEmpty(v, d);
  }

  /** The default `GroupPath()`: the root, with no parent. */
  lemma RootNode()
    ensures New("", None, '/') == Ok(GroupPath("", [], '/', None))
    ensures New("/", None, '/') == Ok(GroupPath("", [""], '/', None))
  {
    assert Split("", '/') == [""];
  }

  /** `n` reaches `a` by following `parent` zero or more times. */
  ghost predicate Reaches(n: GroupPath, a: GroupPath)
    decreases n
  {
    n == a || (n.parent.Some? && Reaches(n.parent.value, a))
  }

  /**
   * `n` is `p` extended by the keys `ks`: its segments are `p`'s followed by
   * `ks`, and each step up the parent chain drops the last key, until `p`
   * itself is reached.
   */
  ghost predicate Chain(n: GroupPath, p: GroupPath, ks: seq<string>)
    decreases |ks|
  {
    n.segs == p.segs + ks &&
    if ks == [] then n == p
    else n.parent.Some? && Chain(n.parent.value, p, ks[..|ks| - 1])
  }

  /** The `root` property: the first ancestor without a parent. */
  function Root(n: GroupPath): (r: GroupPath)
    ensures r.parent == None
    ensures Reaches(n, r)
    decreases n
  {
    match n.parent
    case None => n
    case Some(p) => Root(p)
  }

  /** The path one segment `key` below `base`: joined with the delimiter unless `base` is the root. */
  function Extend(base: string, key: string, d: char): string
  {
    if base != "" then base + [d] + key else key
  }

  /**
   * The chain of nodes `__truediv__` builds from `p`, one per key, each the
   * parent of the next; the first key the constructor refuses stops it.
   */
  function Descend(p: GroupPath, keys: seq<string>): Result<GroupPath, InvalidPath>
    decreases |keys|
  {
    if keys == [] then Ok(p)
    else
      match Descend(p, keys[..|keys| - 1])
      case Err(e) => Err(e)
      case Ok(q) => New(Extend(q.path, keys[|keys| - 1], p.delim), Some(q), p.delim)
  }

  /** `p / s`: validate `s`, then descend one node per segment. */
  function Slash(p: GroupPath, s: string): Result<GroupPath, InvalidPath>
  {
    match Validate(s, p.delim)
    case Err(e) => Err(e)
    case Ok(v) => Descend(p, Split(v, p.delim))
  }

  /**
   * `__truediv__`: the loop that rebinds `parent` once per segment of the
   * validated argument.
   */
  method Div(p: GroupPath, s: string) returns (r: Result<GroupPath, InvalidPath>)
    ensures r == Slash(p, s)
  {
    var d := p.delim;
    var v: string;
    match Validate(s, d) {
      case Err(e) => return Err(e);
      case Ok(w) => v := w;
    }
    var keys := Split(v, d);
    var cur := p;
    var i := 0;
    while i < |keys|
      invariant 0 <= i <= |keys|
      invariant Descend(p, keys[..i]) == Ok(cur)
    {
      DescendSnoc(p, keys, i);
      match New(Extend(cur.path, keys[i], d), Some(cur), d) {
        case Err(e) =>
          DescendFails(p, keys[..i + 1], keys[i + 1..]);
          assert keys[..i + 1] + keys[i + 1..] == keys;
          return Err(e);
        case Ok(n) => cur := n;
      }
      i := i + 1;
    }
    assert keys[..|keys|] == keys;
    r := Ok(cur);
  }

  /** `__getitem__`: the same descent as `/`. */
  method Index(p: GroupPath, s: string) returns (r: Result<GroupPath, InvalidPath>)
    ensures r == Slash(p, s)
  {
    r := Div(p, s);
  }

  /** Once a descent fails, descending over further keys fails with the same error. */
  lemma {:induction false} DescendFails(p: GroupPath, a: seq<string>, b: seq<string>)
    requires Descend(p, a).Err?
    ensures Descend(p, a + b) == Descend(p, a)
    decreases |b|
  {
    if b == [] {
      assert a + b == a;
    } else {
      var b' := b[..|b| - 1];
      DescendFails(p, a, b');
      assert (a + b)[..|a + b| - 1] == a + b';
    }
  }

  /** Descending over one more key takes one more step from where the shorter descent ended. */
  lemma DescendSnoc(p: GroupPath, keys: seq<string>, i: nat)
    requires i < |keys|
    ensures Descend(p, keys[..i + 1]) ==
      match Descend(p, keys[..i])
      case Err(e) => Err(e)
      case Ok(q) => New(Extend(q.path, keys[i], p.delim), Some(q), p.delim)
  {
    assert keys[..i + 1][..i] == keys[..i];
  }

  /**
   * One step of the descent from a canonical node by a non-empty,
   * delimiter-free key: accepted, canonical, one segment longer.
   */
  lemma ExtendStep(q: GroupPath, key: string, d: char)
    requires Canonical(q) && q.delim == d
    requires key != "" && d !in key
    ensures New(Extend(q.path, key, d), Some(q), d).Ok?
    ensures New(Extend(q.path, key, d), Some(q), d).value == GroupPath(Extend(q.path, key, d), q.segs + [key], d, Some(q))
    ensures Canonical(New(Extend(q.path, key, d), Some(q), d).value)
  {
    var e := Extend(q.path, key, d);
    SplitNoDelimiter(key, d);
    if q.path != "" {
      SplitConcat(q.path, key, d);
      ValidIffSegmentsNonEmpty(q.path, d);
    }
    assert Split(e, d) == q.segs + [key];
    ValidIffSegmentsNonEmpty(e, d);
    NewShape(e, Some(q), d);
  }

  /**
   * The descent over `keys[..i]` from a canonical node, when every key is a
   * non-empty segment free of the delimiter: it succeeds with a canonical
   * node that extends `p` by exactly those keys, one parent step per key.
   */
  lemma {:induction false} DescendChain(p: GroupPath, keys: seq<string>, i: nat)
    requires Canonical(p)
    requires i <= |keys|
    requires forall j :: 0 <= j < |keys| ==> keys[j] != "" && p.delim !in keys[j]
    ensures Descend(p, keys[..i]).Ok?
    ensures Canonical(Descend(p, keys[..i]).value)
    ensures Descend(p, keys[..i]).value.delim == p.delim
    ensures Chain(Descend(p, keys[..i]).value, p, keys[..i])
  {
    if i == 0 {
      assert keys[..0] == [];
      assert p.segs + [] == p.segs;
    } else {
      DescendChain(p, keys, i - 1);
      ChainStep(p, keys, i);
    }
  }

  /** One more step of the descent keeps the shape `DescendChain` states. */
  lemma ChainStep(p: GroupPath, keys: seq<string>, i: nat)
    requires 0 < i <= |keys|
    requires keys[i - 1] != "" && p.delim !in keys[i - 1]
    requires Descend(p, keys[..i - 1]).Ok?
    requires Canonical(Descend(p, keys[..i - 1]).value)
    requires Descend(p, keys[..i - 1]).value.delim == p.delim
    requires Chain(Descend(p, keys[..i - 1]).value, p, keys[..i - 1])
    ensures Descend(p, keys[..i]).Ok?
    ensures Canonical(Descend(p, keys[..i]).value)
    ensures Descend(p, keys[..i]).value.delim == p.delim
    ensures Chain(Descend(p, keys[..i]).value, p, keys[..i])
  {
    var d := p.delim;
    var prev := keys[..i - 1];
    var q := Descend(p, prev).value;
    var key := keys[i - 1];
    DescendSnoc(p, keys, i - 1);
    ExtendStep(q, key, d);
    var n := New(Extend(q.path, key, d), Some(q), d).value;
    assert keys[..i] == prev + [key];
    assert keys[..i][..i - 1] == prev;
    SnocAssoc(p.segs, prev, key);
  }

  lemma SnocAssoc(a: seq<string>, b: seq<string>, x: string)
    ensures a + b + [x] == a + (b + [x])
  {
  }

  /** Following the parents of an extension of `p` passes through `p` and so ends at `p`'s root. */
  lemma {:induction false} ChainRoot(n: GroupPath, p: GroupPath, ks: seq<string>)
    requires Chain(n, p, ks)
    ensures Reaches(n, p)
    ensures Root(n) == Root(p)
    decreases |ks|
  {
    if ks != [] {
      ChainRoot(n.parent.value, p, ks[..|ks| - 1]);
    }
  }

  /** A canonical node's path is the join of its segments. */
  lemma CanonicalPath(n: GroupPath)
    requires Canonical(n)
    ensures n.path == Join(n.segs, n.delim)
  {
    if n.path != "" {
      JoinSplit(n.path, n.delim);
    }
  }

  /** Joining two non-empty lists puts one delimiter between their joins. */
  lemma {:induction false} JoinConcat(xs: seq<string>, ys: seq<string>, d: char)
    requires |xs| >= 1 && |ys| >= 1
    ensures Join(xs + ys, d) == Join(xs, d) + [d] + Join(ys, d)
  {
    assert (xs + ys)[0] == xs[0];
    if |xs| > 1 {
      JoinConcat(xs[1..], ys, d);
      assert (xs + ys)[1..] == xs[1..] + ys;
    } else {
      assert (xs + ys)[1..] == ys;
    }
  }

  /**
   * `p / s` on a canonical node. It fails exactly when `s` is refused, or
   * when `s` validates to the root path while `p` is not the root (the
   * constructor then refuses `p.path + d`). On success its path is `s`
   * appended to `p.path` with the delimiter (just `s` below the root). For a
   * non-empty `s` its segments are `p`'s followed by those of `s`, and one
   * parent step per segment leads back to `p`, removing one segment each.
   */
  lemma SlashSpec(p: GroupPath, s: string)
    requires Canonical(p)
    ensures Slash(p, s).Ok? <==> Validate(s, p.delim).Ok? && (Validate(s, p.delim).value == "" ==> p.path == "")
    ensures Slash(p, s).Ok? ==> Slash(p, s).value.path == Extend(p.path, Validate(s, p.delim).value, p.delim)
    ensures Slash(p, s).Ok? ==> Canonical(Slash(p, s).value) && Slash(p, s).value.delim == p.delim
    ensures Slash(p, s).Ok? && Validate(s, p.delim).value != "" ==>
      Chain(Slash(p, s).value, p, Split(Validate(s, p.delim).value, p.delim))
    ensures Slash(p, s).Ok? ==> Root(Slash(p, s).value) == Root(p)
  {
    match Validate(s, p.delim)
    case Err(_) =>
    case Ok(v) =>
      if v == "" {
        SlashToRootPath(p, s);
      } else {
        SlashNonEmpty(p, s, v);
      }
  }

  /** `p / s` where `s` validates to the root path: one step to `p.path + d`, then refused unless `p` is the root. */
  lemma SlashToRootPath(p: GroupPath, s: string)
    requires Canonical(p) && Validate(s, p.delim) == Ok("")
    ensures Slash(p, s).Ok? <==> p.path == ""
    ensures Slash(p, s).Ok? ==> Slash(p, s).value == GroupPath("", [], p.delim, Some(p))
  {
    var d := p.delim;
    var keys := Split("", d);
    assert keys == [""];
    assert keys[..|keys| - 1] == [];
    assert Slash(p, s) == Descend(p, keys);
    assert Descend(p, keys[..|keys| - 1]) == Ok(p);
    assert Slash(p, s) == New(Extend(p.path, "", d), Some(p), d);
    if p.path != "" {
      assert Extend(p.path, "", d) == p.path + [d];
    }
  }

  /** `p / s` where `s` validates to a non-empty path `v`: the chain of one node per segment of `v`. */
  lemma SlashNonEmpty(p: GroupPath, s: string, v: string)
    requires Canonical(p) && Validate(s, p.delim) == Ok(v) && v != ""
    ensures Slash(p, s).Ok?
    ensures Slash(p, s).value.path == Extend(p.path, v, p.delim)
    ensures Canonical(Slash(p, s).value) && Slash(p, s).value.delim == p.delim
    ensures Chain(Slash(p, s).value, p, Split(v, p.delim))
    ensures Root(Slash(p, s).value) == Root(p)
  {
    var d := p.delim;
    var keys := Split(v, d);
    ValidIffSegmentsNonEmpty(v, d);
    DescendChain(p, keys, |keys|);
    assert keys[..|keys|] == keys;
    ChainPath(p, Descend(p, keys).value, v);
    ChainRoot(Descend(p, keys).value, p, keys);
  }

  /** A canonical node whose segments extend a canonical `p` by those of `v` has the extended path. */
  lemma ChainPath(p: GroupPath, r: GroupPath, v: string)
    requires Canonical(p) && Canonical(r) && r.delim == p.delim
    requires r.segs == p.segs + Split(v, p.delim)
    ensures r.path == Extend(p.path, v, p.delim)
  {
    var d := p.delim;
    var keys := Split(v, d);
    CanonicalPath(p);
    CanonicalPath(r);
    JoinSplit(v, d);
    if p.path != "" {
      JoinConcat(p.segs, keys, d);
    } else {
      assert p.segs + keys == keys;
    }
  }

  /** A descent from the root by a valid, non-empty path ends at that path. */
  lemma SlashFromRoot(s: string)
    requires Validate(s, '/') == Ok(s) && s != ""
    ensures Slash(GroupPath("", [], '/', None), s).Ok?
    ensures Slash(GroupPath("", [], '/', None), s).value.path == s
    ensures Canonical(Slash(GroupPath("", [], '/', None), s).value)
    ensures Slash(GroupPath("", [], '/', None), s).value.delim == '/'
  {
    SlashSpec(GroupPath("", [], '/', None), s);
  }

  /** A descent from a non-root node by a valid, non-empty path appends it. */
  lemma SlashBelow(p: GroupPath, s: string)
    requires Canonical(p) && p.path != ""
    requires Validate(s, p.delim) == Ok(s) && s != ""
    ensures Slash(p, s).Ok?
    ensures Slash(p, s).value.path == p.path + [p.delim] + s
  {
    SlashSpec(p, s);
  }

  /** The test suite's descents from the root: `a`, `a/b` two ways. */
  lemma SlashExamples()
    ensures Slash(GroupPath("", [], '/', None), "a").Ok?
    ensures Slash(GroupPath("", [], '/', None), "a").value.path == "a"
    ensures Slash(GroupPath("", [], '/', None), "a/b").Ok?
    ensures Slash(GroupPath("", [], '/', None), "a/b").value.path == "a/b"
    ensures Slash(Slash(GroupPath("", [], '/', None), "a").value, "b").Ok?
    ensures Slash(Slash(GroupPath("", [], '/', None), "a").value, "b").value.path == "a/b"
  {
    ValidateExamples();
    assert Validate("a", '/') == Ok("a");
    assert Validate("b", '/') == Ok("b");
    SlashFromRoot("a");
    SlashFromRoot("a/b");
    SlashBelow(Slash(GroupPath("", [], '/', None), "a").value, "b");
  }
}
