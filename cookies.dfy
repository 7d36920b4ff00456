/**
 * The session-cookie parser of `addSessionCookies` (server.js): a configured
 * string of `;`-separated `name=value` pairs becomes the ordered list of cookie
 * records handed to the browser context, all scoped to `.patreon.com` and `/`.
 * Like the cookie-pair grammar of section 4.2.1 of RFC 6265 it splits pairs on `;`
 * and a pair on its first `=`, but it only trims white space and does not check
 * token characters.
 */
module Cookies {
  import opened Wrappers
  import opened Text

  const CookieDomain: string := ".patreon.com"
  const CookiePath: string := "/"

  datatype Cookie = Cookie(name: string, value: string, domain: string, path: string)

  /** What every produced cookie satisfies. */
  predicate WellFormed(c: Cookie)
  {
    && c.name != []
    && '=' !in c.name
    && IsTrimmed(c.name)
    && IsTrimmed(c.value)
    && c.domain == CookieDomain
    && c.path == CookiePath
  }

  /** One trimmed `name=value` pair to a cookie, or nothing when there is no `=` or the name is empty. */
  function ParsePair(kv: string): (r: Option<Cookie>)
    ensures r.None? <==> '=' !in kv || Trim(kv[..IndexOf(kv, '=').value]) == []
    ensures r.Some? ==> WellFormed(r.value)
  {
    match IndexOf(kv, '=')
    case None => None
    case Some(idx) =>
      var name := Trim(kv[..idx]);
      var value := Trim(kv[idx + 1..]);
      if name == [] then None
      else Some(Cookie(name, value, CookieDomain, CookiePath))
  }

  /** The `map(trim).filter(Boolean)` step: trimmed segments, empty ones dropped, order kept. */
  function TrimmedPairs(segs: seq<string>): (r: seq<string>)
    ensures |r| <= |segs|
    ensures forall i | 0 <= i < |r| :: r[i] != [] && IsTrimmed(r[i])
  {
    if segs == [] then []
    else
      var kv := Trim(segs[0]);
      (if kv == [] then [] else [kv]) + TrimmedPairs(segs[1..])
  }

  /** The `map(pair => cookie or null).filter(Boolean)` step, order kept. */
  function PairsToCookies(pairs: seq<string>): (r: seq<Cookie>)
    ensures |r| <= |pairs|
    ensures forall i | 0 <= i < |r| :: WellFormed(r[i])
  {
    if pairs == [] then [] else PairCookie(pairs[0]) + PairsToCookies(pairs[1..])
  }

  /** What the pair contributes after the null filter: its cookie, or nothing. */
  function PairCookie(kv: string): (r: seq<Cookie>)
    ensures |r| <= 1
    ensures r == [] <==> ParsePair(kv).None?
    ensures r != [] ==> WellFormed(r[0]) && r[0] == ParsePair(kv).value
  {
    match ParsePair(kv) case None => [] case Some(c) => [c]
  }

  /** The cookies `addSessionCookies` passes to the browser context; `[]` when it adds none. */
  function ParseCookies(s: string): (r: seq<Cookie>)
    ensures forall i | 0 <= i < |r| :: WellFormed(r[i])
    ensures |r| <= |TrimmedPairs(Split(s, ';'))| <= Count(s, ';') + 1
  {
    SplitLength(s, ';');
    if s == [] then []
    else
      var pairs := TrimmedPairs(Split(s, ';'));
      if |pairs| == 0 then []
      else PairsToCookies(pairs)
  }

  /** What one `;`-free segment contributes, independently of the two-stage chain. */
  function SegmentCookies(seg: string): (r: seq<Cookie>)
    ensures |r| <= 1
  {
    var kv := Trim(seg);
    if kv == [] then [] else PairCookie(kv)
  }

  /** A segment gives no cookie exactly when it is blank or its trimmed pair does not parse. */
  lemma SegmentSilent(seg: string)
    ensures SegmentCookies(seg) == [] <==> AllSpace(seg) || ParsePair(Trim(seg)).None?
    ensures SegmentCookies(seg) != [] ==> SegmentCookies(seg) == [ParsePair(Trim(seg)).value]
  {
  }

  /** The cookies of a list of segments, segment by segment. */
  function CookiesOfSegments(segs: seq<string>): seq<Cookie>
  {
    if segs == [] then [] else SegmentCookies(segs[0]) + CookiesOfSegments(segs[1..])
  }

  /** A pair splits at its first `=`: the name is what precedes it trimmed, the value everything after it trimmed. */
  lemma ParsePairParts(n: string, v: string)
    requires '=' !in n
    requires Trim(n) != []
    ensures ParsePair(n + ['='] + v) == Some(Cookie(Trim(n), Trim(v), CookieDomain, CookiePath))
  {
    var kv := n + ['='] + v;
    assert kv[|n|] == '=' && kv[..|n|] == n;
    assert IndexOf(kv, '=') == Some(|n|);
    assert kv[|n| + 1..] == v;
  }

  /** Mapping and filtering in two passes is the same as taking each segment's contribution in turn. */
  lemma {:induction false} ChainIsSegmentwise(segs: seq<string>)
    ensures PairsToCookies(TrimmedPairs(segs)) == CookiesOfSegments(segs)
  {
    if segs != [] {
      ChainIsSegmentwise(segs[1..]);
      var kv := Trim(segs[0]);
      var head := if kv == [] then [] else [kv];
      PairsToCookiesAppend(head, TrimmedPairs(segs[1..]));
      if kv != [] {
        assert [kv][1..] == [];
      }
    }
  }

  lemma {:induction false} PairsToCookiesAppend(a: seq<string>, b: seq<string>)
    ensures PairsToCookies(a + b) == PairsToCookies(a) + PairsToCookies(b)
  {
    if a != [] {
      assert (a + b)[0] == a[0];
      assert (a + b)[1..] == a[1..] + b;
      PairsToCookiesAppend(a[1..], b);
    } else {
      assert a + b == b;
    }
  }

  lemma {:induction false} CookiesOfSegmentsAppend(a: seq<string>, b: seq<string>)
    ensures CookiesOfSegments(a + b) == CookiesOfSegments(a) + CookiesOfSegments(b)
  {
    if a != [] {
      assert (a + b)[0] == a[0];
      assert (a + b)[1..] == a[1..] + b;
      CookiesOfSegmentsAppend(a[1..], b);
    } else {
      assert a + b == b;
    }
  }

  /** The two early returns (empty string, no non-empty pair) change nothing: they only skip work. */
  lemma GuardsOnlySkip(s: string)
    ensures ParseCookies(s) == CookiesOfSegments(Split(s, ';'))
  {
    ChainIsSegmentwise(Split(s, ';'));
  }

  /** Cookies keep input order: the cookies of `a;b` are those of `a` followed by those of `b`. */
  lemma ParseCookiesAppend(a: string, b: string)
    ensures ParseCookies(a + [';'] + b) == ParseCookies(a) + ParseCookies(b)
  {
    SplitAppend(a, b, ';');
    GuardsOnlySkip(a + [';'] + b);
    GuardsOnlySkip(a);
    GuardsOnlySkip(b);
    CookiesOfSegmentsAppend(Split(a, ';'), Split(b, ';'));
  }

  /**
   * A single segment without `;` gives exactly one cookie when it has an `=` and a
   * non-blank name, and none when it is blank, lacks `=`, or has a blank name.
   */
  lemma SingleSegment(seg: string)
    requires ';' !in seg
    ensures ParseCookies(seg) == SegmentCookies(seg)
    ensures |ParseCookies(seg)| <= 1
    ensures AllSpace(seg) ==> ParseCookies(seg) == []
    ensures '=' !in seg ==> ParseCookies(seg) == []
  {
    GuardsOnlySkip(seg);
    SegmentSilent(seg);
    assert IndexOf(seg, ';').None?;
    assert Split(seg, ';') == [seg];
    assert CookiesOfSegments([seg]) == SegmentCookies(seg) + CookiesOfSegments([]);
    if '=' !in seg && !AllSpace(seg) {
      assert forall i | 0 <= i < |Trim(seg)| :: Trim(seg)[i] in seg;
      assert '=' !in Trim(seg);
    }
  }

  lemma {:induction false} NoneFromSegments(segs: seq<string>)
    ensures CookiesOfSegments(segs) == [] <==> forall k | 0 <= k < |segs| :: SegmentCookies(segs[k]) == []
  {
    if segs != [] {
      var rest := segs[1..];
      NoneFromSegments(rest);
      assert CookiesOfSegments(segs) == SegmentCookies(segs[0]) + CookiesOfSegments(rest);
      if CookiesOfSegments(segs) == [] {
        forall k | 0 <= k < |segs| ensures SegmentCookies(segs[k]) == [] {
          if k > 0 { assert segs[k] == rest[k - 1]; }
        }
      } else if SegmentCookies(segs[0]) == [] {
        var k :| 0 <= k < |rest| && SegmentCookies(rest[k]) != [];
        assert segs[k + 1] == rest[k];
      }
    }
  }

  /** Nothing is added exactly when no segment of the string holds a valid pair. */
  lemma NothingAdded(s: string)
    ensures ParseCookies(s) == [] <==>
      forall k | 0 <= k < |Split(s, ';')| :: AllSpace(Split(s, ';')[k]) || ParsePair(Trim(Split(s, ';')[k])).None?
  {
    GuardsOnlySkip(s);
    var segs := Split(s, ';');
    NoneFromSegments(segs);
    forall k | 0 <= k < |segs| ensures SegmentCookies(segs[k]) == [] <==> AllSpace(segs[k]) || ParsePair(Trim(segs[k])).None? {
      SegmentSilent(segs[k]);
    }
  }

  // A Cookie header built from cookie records, the inverse of the parser.

  function PairText(c: Cookie): string
  {
    c.name + ['='] + c.value
  }

  function PairTexts(cs: seq<Cookie>): seq<string>
  {
    if cs == [] then [] else [PairText(cs[0])] + PairTexts(cs[1..])
  }

  /** `name1=value1; name2=value2; ...`: the shape of an HTTP Cookie header. */
  function HeaderSegments(cs: seq<Cookie>): (segs: seq<string>)
    ensures |segs| == |cs|
  {
    seq(|cs|, k requires 0 <= k < |cs| => (if k == 0 then "" else " ") + PairText(cs[k]))
  }

  function Header(cs: seq<Cookie>): string
  {
    Join(HeaderSegments(cs), ';')
  }

  predicate Serializable(c: Cookie)
  {
    WellFormed(c) && ';' !in c.name && ';' !in c.value
  }

  lemma PairTextTrimmed(c: Cookie)
    requires WellFormed(c)
    ensures PairText(c) != [] && IsTrimmed(PairText(c))
  {
    var p := PairText(c);
    assert p[0] == c.name[0];
    if c.value == [] {
      assert p[|p| - 1] == '=';
    } else {
      assert p[|p| - 1] == c.value[|c.value| - 1];
    }
  }

  lemma {:induction false} TrimmedPairsOfHeader(segs: seq<string>, cs: seq<Cookie>)
    requires |segs| == |cs|
    requires forall k | 0 <= k < |cs| :: WellFormed(cs[k]) && Trim(segs[k]) == PairText(cs[k])
    ensures TrimmedPairs(segs) == PairTexts(cs)
  {
    if segs != [] {
      TrimmedPairsOfHeader(segs[1..], cs[1..]);
      assert PairText(cs[0])[|cs[0].name|] == '=';
    }
  }

  lemma PairRoundTrip(c: Cookie)
    requires WellFormed(c)
    ensures PairCookie(PairText(c)) == [c]
  {
    TrimOfTrimmed(c.name);
    TrimOfTrimmed(c.value);
    ParsePairParts(c.name, c.value);
  }

  lemma {:induction false} CookiesOfPairTexts(cs: seq<Cookie>)
    requires forall k | 0 <= k < |cs| :: WellFormed(cs[k])
    ensures PairsToCookies(PairTexts(cs)) == cs
  {
    if cs != [] {
      var c := cs[0];
      PairRoundTrip(c);
      assert PairsToCookies(PairTexts(cs)) == PairCookie(PairText(c)) + PairsToCookies(PairTexts(cs[1..]));
      CookiesOfPairTexts(cs[1..]);
    }
  }

  lemma HeaderSegmentTrim(cs: seq<Cookie>, k: nat)
    requires k < |cs| && Serializable(cs[k])
    ensures ';' !in HeaderSegments(cs)[k] && Trim(HeaderSegments(cs)[k]) == PairText(cs[k])
  {
    var p := PairText(cs[k]);
    PairTextTrimmed(cs[k]);
    assert ';' !in p by { assert p == cs[k].name + ['='] + cs[k].value; }
    if k == 0 {
      assert HeaderSegments(cs)[k] == p;
      TrimOfTrimmed(p);
    } else {
      assert HeaderSegments(cs)[k] == " " + p;
      TrimAfterSpace(p);
    }
  }

  lemma HeaderSegmentsTrim(cs: seq<Cookie>)
    requires forall k | 0 <= k < |cs| :: Serializable(cs[k])
    ensures forall k | 0 <= k < |cs| :: ';' !in HeaderSegments(cs)[k] && Trim(HeaderSegments(cs)[k]) == PairText(cs[k])
  {
    forall k | 0 <= k < |cs|
      ensures ';' !in HeaderSegments(cs)[k] && Trim(HeaderSegments(cs)[k]) == PairText(cs[k])
    {
      HeaderSegmentTrim(cs, k);
    }
  }

  /** Round trip: parsing the Cookie header of well-formed, `;`-free cookies gives back the same list. */
  lemma ParseHeader(cs: seq<Cookie>)
    requires forall k | 0 <= k < |cs| :: Serializable(cs[k])
    ensures ParseCookies(Header(cs)) == cs
  {
    var segs := HeaderSegments(cs);
    if cs == [] {
      assert Header(cs) == [];
    } else {
      HeaderSegmentsTrim(cs);
      calc {
        ParseCookies(Header(cs));
        { GuardsOnlySkip(Header(cs)); }
        CookiesOfSegments(Split(Join(segs, ';'), ';'));
        { SplitJoin(segs, ';'); }
        CookiesOfSegments(segs);
        { ChainIsSegmentwise(segs); }
        PairsToCookies(TrimmedPairs(segs));
        { TrimmedPairsOfHeader(segs, cs); }
        PairsToCookies(PairTexts(cs));
        { CookiesOfPairTexts(cs); }
        cs;
      }
    }
  }
}
