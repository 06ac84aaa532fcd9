/**
 Colon-separated key paths. `Split` is PHP's `explode(':', path)` for the
 one-character delimiter ':' and `Join` is `implode(':', segments)`.
 */
module KeyPath {

  const Separator: char := ':'

  /** A segment never contains the separator. */
  ghost predicate IsSegment(s: string) {
    Separator !in s
  }

  ghost predicate AllSegments(parts: seq<string>) {
    forall i :: 0 <= i < |parts| ==> IsSegment(parts[i])
  }

  /** The separator-joined form of a non-empty list of segments. */
  function Join(parts: seq<string>): (s: string)
    requires |parts| >= 1
    ensures |s| >= |parts| - 1
    decreases |parts|
  {
    if |parts| == 1 then parts[0] else parts[0] + [Separator] + Join(parts[1..])
  }

  /** The position of the first separator in `s`. */
  function FirstSeparator(s: string): (i: nat)
    requires Separator in s
    ensures i < |s| && s[i] == Separator
    ensures IsSegment(s[..i])
    decreases |s|
  {
    if s[0] == Separator then 0
    else
      var j := FirstSeparator(s[1..]);
      assert s[..j + 1] == [s[0]] + s[1..][..j];
      j + 1
  }

  /**
   Splits `s` at every separator. Like `explode`, the result is never empty:
   the empty path is the single empty segment, and a leading, trailing or
   doubled separator yields empty segments.
   */
  function Split(s: string): (parts: seq<string>)
    ensures |parts| >= 1
    ensures AllSegments(parts)
    decreases |s|
  {
    if Separator !in s then
      [s]
    else
      var i := FirstSeparator(s);
      [s[..i]] + Split(s[i + 1..])
  }

  /** Joining the segments of a path gives the path back. */
  lemma {:induction false} JoinSplit(s: string)
    ensures Join(Split(s)) == s
    decreases |s|
  {
    if Separator in s {
      var i := FirstSeparator(s);
      JoinSplit(s[i + 1..]);
      assert s == s[..i] + [Separator] + s[i + 1..];
    }
  }

  /** A string without separators is a single segment. */
  lemma SplitSegment(s: string)
    requires IsSegment(s)
    ensures Split(s) == [s]
  {
  }

  /** Splitting `p + ":" + q` splits `p` and `q` independently. */
  lemma {:induction false} SplitConcat(p: string, q: string)
    ensures Split(p + [Separator] + q) == Split(p) + Split(q)
    decreases |p|
  {
    if Separator !in p {
      SplitAtFirst(p, q);
    } else {
      var i := FirstSeparator(p);
      SplitPastFirst(p, q);
      SplitConcat(p[i + 1..], q);
      assert [p[..i]] + (Split(p[i + 1..]) + Split(q)) == ([p[..i]] + Split(p[i + 1..])) + Split(q);
    }
  }

  /** A separator already in `p` ends the first segment of `p + ":" + q`. */
  lemma SplitPastFirst(p: string, q: string)
    requires Separator in p
    ensures Split(p + [Separator] + q)
         == [p[..FirstSeparator(p)]] + Split(p[FirstSeparator(p) + 1..] + [Separator] + q)
  {
    var i := FirstSeparator(p);
    var s := p + [Separator] + q;
    assert s == p + ([Separator] + q);
    FirstSeparatorExtends(p, [Separator] + q);
    assert s[..i] == p[..i];
    assert s[i + 1..] == p[i + 1..] + [Separator] + q;
  }

  /** The first separator of `p + ":" + q`, when `p` has none, ends segment `p`. */
  lemma SplitAtFirst(p: string, q: string)
    requires Separator !in p
    ensures Split(p + [Separator] + q) == [p] + Split(q)
  {
    var s := p + [Separator] + q;
    assert s == p + ([Separator] + q);
    FirstSeparatorOfPrefix(p, [Separator] + q);
    assert FirstSeparator(s) == |p|;
    assert s[..|p|] == p;
    assert s[|p| + 1..] == q;
  }

  /** With no separator in `p`, the first separator of `p + t` is that of `t`, shifted. */
  lemma {:induction false} FirstSeparatorOfPrefix(p: string, t: string)
    requires Separator !in p && Separator in t
    ensures Separator in p + t
    ensures FirstSeparator(p + t) == |p| + FirstSeparator(t)
    decreases |p|
  {
    assert (p + t)[|p| + FirstSeparator(t)] == Separator;
    if |p| > 0 {
      assert (p + t)[1..] == p[1..] + t;
      FirstSeparatorOfPrefix(p[1..], t);
    } else {
      assert p + t == t;
    }
  }

  /** Appending to `p` does not move a separator `p` already has. */
  lemma {:induction false} FirstSeparatorExtends(p: string, t: string)
    requires Separator in p
    ensures Separator in p + t
    ensures FirstSeparator(p + t) == FirstSeparator(p)
    decreases |p|
  {
    assert (p + t)[FirstSeparator(p)] == Separator;
    if p[0] != Separator {
      assert (p + t)[1..] == p[1..] + t;
      FirstSeparatorExtends(p[1..], t);
    }
  }

  /** Joining segments and splitting again gives the segments back. */
  lemma {:induction false} SplitJoin(parts: seq<string>)
    requires |parts| >= 1
    requires AllSegments(parts)
    ensures Split(Join(parts)) == parts
    decreases |parts|
  {
    SplitSegment(parts[0]);
    if |parts| > 1 {
      SplitConcat(parts[0], Join(parts[1..]));
      SplitJoin(parts[1..]);
      assert [parts[0]] + parts[1..] == parts;
    }
  }

  /** `Split` is injective: two paths with the same segments are equal. */
  lemma SplitInjective(s: string, t: string)
    requires Split(s) == Split(t)
    ensures s == t
  {
    JoinSplit(s);
    JoinSplit(t);
  }

  /** The empty path is one empty segment, not "no segments". */
  lemma EmptyPathIsOneEmptySegment()
    ensures Split("") == [""]
  {
  }
}
