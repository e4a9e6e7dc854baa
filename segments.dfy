/**
 * Splitting a string on a one-character delimiter and joining segments
 * back, with the semantics of Python's `str.split(d)` and `d.join(xs)`:
 * splitting never yields an empty list (`"".split("/") == [""]`), and
 * every occurrence of the delimiter separates two segments, so empty
 * segments appear around leading, trailing and doubled delimiters.
 */
module Segments {

  /** `s.split(d)`. No segment contains the delimiter. */
  function Split(s: string, d: char): (r: seq<string>)
    ensures |r| >= 1
    ensures forall i :: 0 <= i < |r| ==> d !in r[i]
  {
    if |s| == 0 then [""]
    else if s[0] == d then [""] + Split(s[1..], d)
    else
      var t := Split(s[1..], d);
      [[s[0]] + t[0]] + t[1..]
  }

  /** `d.join(xs)`. `JoinSplit` and `SplitJoin` state that it undoes `Split` and is undone by it. */
  function Join(xs: seq<string>, d: char): string
  {
    if |xs| == 0 then ""
    else if |xs| == 1 then xs[0]
    else xs[0] + [d] + Join(xs[1..], d)
  }

  /** Joining the segments of a split restores the string. */
  lemma {:induction false} JoinSplit(s: string, d: char)
    ensures Join(Split(s, d), d) == s
  {
    if |s| == 0 {
    } else if s[0] == d {
      JoinSplit(s[1..], d);
      assert s == [d] + s[1..];
    } else {
      var t := Split(s[1..], d);
      JoinSplit(s[1..], d);
      if |t| == 1 {
        assert Join(t, d) == t[0];
      } else {
        assert Join(t, d) == t[0] + [d] + Join(t[1..], d);
        assert ([[s[0]] + t[0]] + t[1..])[1..] == t[1..];
      }
      assert s == [s[0]] + s[1..];
    }
  }

  /** A string that neither is empty nor starts with the delimiter has a non-empty first segment. */
  lemma SplitFirstNonEmpty(s: string, d: char)
    requires s != "" && s[0] != d
    ensures Split(s, d)[0] != ""
  {
  }

  /** A string without the delimiter is a single segment. */
  lemma {:induction false} SplitNoDelimiter(s: string, d: char)
    requires d !in s
    ensures Split(s, d) == [s]
  {
    if |s| > 0 {
      assert d !in s[1..] by {
        forall i | 0 <= i < |s[1..]| ensures s[1..][i] != d {
          assert s[1..][i] == s[i + 1];
        }
      }
      SplitNoDelimiter(s[1..], d);
      assert s == [s[0]] + s[1..];
    }
  }

  /** Each delimiter separates: splitting `a + d + b` splits `a` and `b` apart. */
  lemma SplitStep(c: char, t: string, d: char)
    ensures Split([c] + t, d) ==
      if c == d then [""] + Split(t, d) else [[c] + Split(t, d)[0]] + Split(t, d)[1..]
  {
    assert ([c] + t)[0] == c;
    assert ([c] + t)[1..] == t;
  }

  lemma ConsAssoc(x: string, u: seq<string>, v: seq<string>)
    ensures [x] + (u + v) == [x] + u + v
  {
  }

  lemma MergeHead(x: string, u: seq<string>, v: seq<string>)
    requires |u| > 0
    ensures [x + (u + v)[0]] + (u + v)[1..] == [x + u[0]] + u[1..] + v
  {
    assert (u + v)[0] == u[0];
    assert (u + v)[1..] == u[1..] + v;
  }

  lemma {:induction false} SplitConcat(a: string, b: string, d: char)
    ensures Split(a + [d] + b, d) == Split(a, d) + Split(b, d)
  {
    if |a| == 0 {
      assert a + [d] + b == [d] + b;
      SplitStep(d, b, d);
    } else {
      var rest := a[1..] + [d] + b;
      assert a + [d] + b == [a[0]] + rest;
      assert a == [a[0]] + a[1..];
      SplitStep(a[0], rest, d);
      SplitStep(a[0], a[1..], d);
      SplitConcat(a[1..], b, d);
      if a[0] == d {
        ConsAssoc("", Split(a[1..], d), Split(b, d));
      } else {
        MergeHead([a[0]], Split(a[1..], d), Split(b, d));
      }
    }
  }

  /**
   * Split and Join are inverse on non-empty lists of delimiter-free
   * segments.
   */
  lemma {:induction false} SplitJoin(xs: seq<string>, d: char)
    requires |xs| >= 1
    requires forall i :: 0 <= i < |xs| ==> d !in xs[i]
    ensures Split(Join(xs, d), d) == xs
  {
    SplitNoDelimiter(xs[0], d);
    if |xs| > 1 {
      SplitJoin(xs[1..], d);
      SplitConcat(xs[0], Join(xs[1..], d), d);
      assert xs == [xs[0]] + xs[1..];
    }
  }

  /** A prefix of a split, joined and split again, is that prefix. */
  lemma SplitJoinPrefix(s: string, d: char, k: nat)
    requires 1 <= k <= |Split(s, d)|
    ensures Split(Join(Split(s, d)[..k], d), d) == Split(s, d)[..k]
  {
    var xs := Split(s, d);
    assert forall i :: 0 <= i < k ==> xs[..k][i] == xs[i];
    SplitJoin(xs[..k], d);
  }
}
