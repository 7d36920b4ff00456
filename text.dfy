/**
 * The JavaScript string operations the session-cookie parser is built from:
 * `String.prototype.trim`, `indexOf` of one character and `split` on one
 * character, together with `join`, the inverse of `split`.
 */
module Text {
  import opened Wrappers

  /** The characters `String.prototype.trim` removes: ECMAScript WhiteSpace and LineTerminator. */
  predicate IsSpace(c: char)
  {
    || c == ' ' || c == '\t' || c == '\n' || c == '\r'
    || c == '\U{000B}' || c == '\U{000C}' || c == '\U{00A0}' || c == '\U{FEFF}'
    || c == '\U{1680}' || ('\U{2000}' <= c <= '\U{200A}')
    || c == '\U{2028}' || c == '\U{2029}' || c == '\U{202F}' || c == '\U{205F}' || c == '\U{3000}'
  }

  predicate AllSpace(s: string)
  {
    forall i | 0 <= i < |s| :: IsSpace(s[i])
  }

  /** Neither the first nor the last character of `s` is white space. */
  predicate IsTrimmed(s: string)
  {
    s == [] || (!IsSpace(s[0]) && !IsSpace(s[|s| - 1]))
  }

  /** Number of white-space characters at the start of `s`. */
  function LeadingSpace(s: string): (n: nat)
    ensures n <= |s|
    ensures AllSpace(s[..n])
    ensures n < |s| ==> !IsSpace(s[n])
  {
    if s == [] || !IsSpace(s[0]) then 0 else 1 + LeadingSpace(s[1..])
  }

  /** Number of white-space characters at the end of `s`. */
  function TrailingSpace(s: string): (n: nat)
    ensures n <= |s|
    ensures AllSpace(s[|s| - n..])
    ensures n < |s| ==> !IsSpace(s[|s| - 1 - n])
  {
    if s == [] || !IsSpace(s[|s| - 1]) then 0 else 1 + TrailingSpace(s[..|s| - 1])
  }

  /** `s.trim()`: `s` without its leading and trailing white space. */
  function Trim(s: string): (r: string)
    ensures IsTrimmed(r)
    ensures r == [] <==> AllSpace(s)
    ensures forall i | 0 <= i < |r| :: r[i] in s
    ensures |r| <= |s|
  {
    var lo := LeadingSpace(s);
    if lo == |s| then []
    else
      var hi := |s| - TrailingSpace(s);
      assert !IsSpace(s[lo]);
      assert lo < hi;
      assert forall i | lo <= i < hi :: s[lo..hi][i - lo] == s[i];
      s[lo..hi]
  }

  /** `trim` removes only white space, and only at the two ends. */
  lemma TrimRemovesEnds(s: string)
    ensures exists a, b | AllSpace(a) && AllSpace(b) :: s == a + Trim(s) + b
  {
    var lo := LeadingSpace(s);
    if lo == |s| {
      var none: string := [];
      assert AllSpace(s[..lo]) && AllSpace(none);
      assert s == s[..lo] + Trim(s) + none;
    } else {
      var hi := |s| - TrailingSpace(s);
      assert AllSpace(s[..lo]) && AllSpace(s[hi..]);
      assert s == s[..lo] + Trim(s) + s[hi..];
    }
  }

  lemma {:induction false} LeadingSpaceAfter(a: string, t: string)
    requires AllSpace(a) && t != [] && !IsSpace(t[0])
    ensures LeadingSpace(a + t) == |a|
    decreases |a|
  {
    if a != [] {
      assert (a + t)[1..] == a[1..] + t;
      LeadingSpaceAfter(a[1..], t);
    } else {
      assert a + t == t;
    }
  }

  lemma {:induction false} TrailingSpaceBefore(t: string, b: string)
    requires AllSpace(b) && t != [] && !IsSpace(t[|t| - 1])
    ensures TrailingSpace(t + b) == |b|
    decreases |b|
  {
    if b != [] {
      assert (t + b)[..|t + b| - 1] == t + b[..|b| - 1];
      TrailingSpaceBefore(t, b[..|b| - 1]);
    } else {
      assert t + b == t;
    }
  }

  /**
   * `trim` removes white space at the ends and nothing else: any way of writing
   * `s` as white space, a trimmed middle and white space has `Trim(s)` as that middle.
   */
  lemma TrimIsUnique(s: string, a: string, t: string, b: string)
    requires AllSpace(a) && AllSpace(b) && IsTrimmed(t)
    requires s == a + t + b
    ensures Trim(s) == t
  {
    if t == [] {
      assert s == a + b;
      assert forall i | 0 <= i < |s| :: IsSpace(s[i]) by {
        forall i | 0 <= i < |s| ensures IsSpace(s[i]) {
          if i < |a| { assert s[i] == a[i]; } else { assert s[i] == b[i - |a|]; }
        }
      }
    } else {
      assert s == a + (t + b);
      LeadingSpaceAfter(a, t + b);
      assert s == (a + t) + b;
      TrailingSpaceBefore(a + t, b);
      assert s[|a|..|s| - |b|] == t;
    }
  }

  lemma TrimOfTrimmed(s: string)
    requires IsTrimmed(s)
    ensures Trim(s) == s
  {
    if s != [] {
      assert LeadingSpace(s) == 0;
      assert TrailingSpace(s) == 0;
    }
  }

  /** One leading space does not survive trimming. */
  lemma TrimAfterSpace(s: string)
    requires s != [] && IsTrimmed(s)
    ensures Trim(" " + s) == s
  {
    var t := " " + s;
    assert t[1..] == s;
    assert LeadingSpace(t) == 1;
    assert TrailingSpace(t) == 0 by { assert t[|t| - 1] == s[|s| - 1]; }
    assert t[1..|t|] == s;
  }

  /** `s.indexOf(c)`: the position of the first `c` in `s`, if any. */
  function IndexOf(s: string, c: char): (r: Option<nat>)
    ensures r.None? <==> c !in s
    ensures r.Some? ==> r.value < |s| && s[r.value] == c && c !in s[..r.value]
  {
    if s == [] then None
    else if s[0] == c then Some(0)
    else match IndexOf(s[1..], c)
      case None => None
      case Some(i) =>
        assert s[..i + 1] == [s[0]] + s[1..][..i];
        Some(i + 1)
  }

  /** `s.split(sep)` for a one-character separator: always at least one segment. */
  function Split(s: string, sep: char): (r: seq<string>)
    ensures |r| >= 1
    ensures forall k | 0 <= k < |r| :: sep !in r[k]
    decreases |s|
  {
    match IndexOf(s, sep)
    case None => [s]
    case Some(i) => [s[..i]] + Split(s[i + 1..], sep)
  }

  /** `segs.join(sep)`. */
  function Join(segs: seq<string>, sep: char): string
  {
    if segs == [] then []
    else if |segs| == 1 then segs[0]
    else segs[0] + [sep] + Join(segs[1..], sep)
  }

  /** Joining the segments of a split gives back the string. */
  lemma {:induction false} JoinSplit(s: string, sep: char)
    ensures Join(Split(s, sep), sep) == s
    decreases |s|
  {
    match IndexOf(s, sep)
    case None =>
    case Some(i) =>
      JoinSplit(s[i + 1..], sep);
      assert Split(s, sep) == [s[..i]] + Split(s[i + 1..], sep);
      assert s == s[..i] + [sep] + s[i + 1..];
  }

  /** Splitting a join of separator-free segments gives back the segments. */
  lemma {:induction false} SplitJoin(segs: seq<string>, sep: char)
    requires |segs| >= 1
    requires forall k | 0 <= k < |segs| :: sep !in segs[k]
    ensures Split(Join(segs, sep), sep) == segs
    decreases |segs|
  {
    if |segs| > 1 {
      var s := Join(segs, sep);
      var head := segs[0];
      assert s == head + [sep] + Join(segs[1..], sep);
      assert s[|head|] == sep;
      assert s[..|head|] == head;
      assert IndexOf(s, sep) == Some(|head|);
      assert s[|head| + 1..] == Join(segs[1..], sep);
      SplitJoin(segs[1..], sep);
    } else {
      assert IndexOf(segs[0], sep).None?;
    }
  }

  lemma {:induction false} JoinAppend(a: seq<string>, b: seq<string>, sep: char)
    requires |a| >= 1 && |b| >= 1
    ensures Join(a + b, sep) == Join(a, sep) + [sep] + Join(b, sep)
    decreases |a|
  {
    if |a| > 1 {
      JoinAppend(a[1..], b, sep);
      assert (a + b)[1..] == a[1..] + b;
    } else {
      assert (a + b)[1..] == b;
    }
  }

  /** Splitting distributes over a separator: the segments of `a` followed by those of `b`. */
  lemma SplitAppend(a: string, b: string, sep: char)
    ensures Split(a + [sep] + b, sep) == Split(a, sep) + Split(b, sep)
  {
    var sa, sb := Split(a, sep), Split(b, sep);
    JoinSplit(a, sep);
    JoinSplit(b, sep);
    JoinAppend(sa, sb, sep);
    SplitJoin(sa + sb, sep);
  }

  /** Number of occurrences of `c` in `s`. */
  function Count(s: string, c: char): nat
  {
    if s == [] then 0 else (if s[0] == c then 1 else 0) + Count(s[1..], c)
  }

  lemma {:induction false} CountAppend(a: string, b: string, c: char)
    ensures Count(a + b, c) == Count(a, c) + Count(b, c)
    decreases |a|
  {
    if a != [] {
      assert (a + b)[1..] == a[1..] + b;
      CountAppend(a[1..], b, c);
    } else {
      assert a + b == b;
    }
  }

  lemma {:induction false} CountAbsent(s: string, c: char)
    requires c !in s
    ensures Count(s, c) == 0
    decreases |s|
  {
    if s != [] { CountAbsent(s[1..], c); }
  }

  /** There is one segment more than there are separators. */
  lemma {:induction false} SplitLength(s: string, sep: char)
    ensures |Split(s, sep)| == Count(s, sep) + 1
    decreases |s|
  {
    match IndexOf(s, sep)
    case None => CountAbsent(s, sep);
    case Some(i) =>
      SplitLength(s[i + 1..], sep);
      assert s == s[..i] + ([sep] + s[i + 1..]);
      CountAppend(s[..i], [sep] + s[i + 1..], sep);
      CountAbsent(s[..i], sep);
      assert ([sep] + s[i + 1..])[1..] == s[i + 1..];
  }

  /** `sub` occurs somewhere in `s` (an unanchored regular-expression literal test). */
  predicate Contains(s: string, sub: string)
  {
    exists i | 0 <= i <= |s| - |sub| :: OccursAt(s, sub, i)
  }

  predicate OccursAt(s: string, sub: string, i: nat)
  {
    i + |sub| <= |s| && s[i..i + |sub|] == sub
  }
}
