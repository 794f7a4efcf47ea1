/** The response sectionizer of app.py (parse_gemini_response): the heading
    pattern \[\d+\.\s.*?\], re.split with that pattern as a capturing group, and
    the walk over the split pieces that pairs every heading with its stripped body. */
module Sectionizer {
  import opened Wrappers
  import opened Text

  /** One parsed section: a heading exactly as it appears, and its stripped body. */
  datatype Section = Section(title: string, body: string)

  // ---------------------------------------------------------------------------
  // The heading pattern, declaratively

  /** No character of b ends the lazy `.*?` early: neither a newline (which `.`
      does not match) nor a closing bracket (where the lazy run stops). */
  predicate BodyChars(b: string) {
    forall j :: 0 <= j < |b| ==> b[j] != '\n' && b[j] != ']'
  }

  /** h, in full, is one match of \[\d+\.\s.*?\] whose \d+ has k digits:
      '[', k digits, '.', one whitespace character, a run of BodyChars, ']'. */
  predicate HeadingShape(h: string, k: nat) {
    1 <= k && k + 4 <= |h| &&
    h[0] == '[' &&
    (forall j :: 1 <= j <= k ==> IsDigit(h[j])) &&
    h[k + 1] == '.' && IsSpace(h[k + 2]) &&
    BodyChars(h[k + 3..|h| - 1]) &&
    h[|h| - 1] == ']'
  }

  /** h is one complete match of the heading pattern. */
  predicate IsHeading(h: string) {
    exists k :: 0 <= k < |h| && HeadingShape(h, k)
  }

  /** No substring of t is a heading: re.search finds nothing in t. */
  ghost predicate NoHeading(t: string) {
    forall p, q :: 0 <= p <= q <= |t| ==> !IsHeading(t[p..q])
  }

  /** No heading of s begins at index p: re.match fails there. */
  ghost predicate NoMatchAt(s: string, p: nat) {
    p < |s| ==> MatchLen(s[p..]).None?
  }

  /** No heading of s begins at an index below m. */
  ghost predicate NoHeadingBefore(s: string, m: nat) {
    forall p :: 0 <= p < m ==> NoMatchAt(s, p)
  }

  // ---------------------------------------------------------------------------
  // The heading pattern, as a scanner

  /** Length of the run of digits at the front of s (the greedy \d+). */
  function DigitRun(s: string): (k: nat)
    ensures k <= |s|
  {
    if s != [] && IsDigit(s[0]) then 1 + DigitRun(s[1..]) else 0
  }

  /** The run is all digits and ends at a non-digit or at the end. */
  lemma {:induction false} DigitRunSound(s: string)
    ensures forall j :: 0 <= j < DigitRun(s) ==> IsDigit(s[j])
    ensures DigitRun(s) == |s| || !IsDigit(s[DigitRun(s)])
  {
    if s != [] && IsDigit(s[0]) {
      DigitRunSound(s[1..]);
    }
  }

  /** Index of the ']' that ends the lazy `.*?\]`, or None when a newline
      or the end of s comes first. */
  function CloseAt(s: string): (r: Option<nat>)
    ensures r.Some? ==> r.value < |s|
  {
    if s == [] || s[0] == '\n' then None
    else if s[0] == ']' then Some(0)
    else
      match CloseAt(s[1..])
      case None => None
      case Some(j) => Some(j + 1)
  }

  /** The ']' found ends a run of BodyChars. */
  lemma {:induction false} CloseAtSound(s: string)
    requires CloseAt(s).Some?
    ensures s[CloseAt(s).value] == ']' && BodyChars(s[..CloseAt(s).value])
  {
    if s[0] != ']' {
      CloseAtSound(s[1..]);
      var j := CloseAt(s[1..]).value;
      assert s[..j + 1] == [s[0]] + s[1..][..j];
    }
  }

  /** The length of the match of \[\d+\.\s.*?\] at the very start of s, if
      there is one (what re.match finds). */
  function MatchLen(s: string): (r: Option<nat>)
    ensures r.Some? ==> 5 <= r.value <= |s|
  {
    if s == [] || s[0] != '[' then None
    else
      var k := DigitRun(s[1..]);
      if k == 0 || |s| < k + 3 then None
      else if s[k + 1] != '.' || !IsSpace(s[k + 2]) then None
      else
        match CloseAt(s[k + 3..])
        case None => None
        case Some(j) => Some(k + 4 + j)
  }

  /** re.match(pattern, t) succeeds. */
  predicate StartsWithHeading(t: string) {
    MatchLen(t).Some?
  }

  lemma {:induction false} CloseAtComplete(s: string, j: nat)
    requires j < |s| && s[j] == ']' && BodyChars(s[..j])
    ensures CloseAt(s) == Some(j)
  {
    if j > 0 {
      assert s[0] == s[..j][0];
      assert s[1..][..j - 1] == s[..j][1..];
      CloseAtComplete(s[1..], j - 1);
    }
  }

  lemma {:induction false} DigitRunExact(s: string, k: nat)
    requires k < |s| && !IsDigit(s[k])
    requires forall j :: 0 <= j < k ==> IsDigit(s[j])
    ensures DigitRun(s) == k
  {
    if k > 0 {
      DigitRunExact(s[1..], k - 1);
    }
  }

  /** What the scanner finds is a heading. */
  lemma MatchLenSound(s: string)
    requires MatchLen(s).Some?
    ensures IsHeading(s[..MatchLen(s).value])
  {
    var n := MatchLen(s).value;
    var k := DigitRun(s[1..]);
    DigitRunSound(s[1..]);
    CloseAtSound(s[k + 3..]);
    var j := CloseAt(s[k + 3..]).value;
    var h := s[..n];
    assert h[k + 3..|h| - 1] == s[k + 3..][..j];
    assert HeadingShape(h, k);
  }

  /** Every heading at the start of s is what the scanner finds there. */
  lemma MatchLenComplete(s: string, n: nat)
    requires n <= |s| && IsHeading(s[..n])
    ensures MatchLen(s) == Some(n)
  {
    var h := s[..n];
    var k :| 0 <= k < |h| && HeadingShape(h, k);
    var d := s[1..];
    assert DigitRun(d) == k by {
      forall j | 0 <= j < k ensures IsDigit(d[j]) {
        assert d[j] == h[j + 1];
      }
      assert d[k] == h[k + 1] == '.';
      DigitRunExact(d, k);
    }
    var t := s[k + 3..];
    assert CloseAt(t) == Some(n - k - 4) by {
      assert t[..n - k - 4] == s[k + 3..n - 1];
      assert h[k + 3..|h| - 1] == s[k + 3..n - 1];
      assert t[n - k - 4] == h[|h| - 1];
      CloseAtComplete(t, n - k - 4);
    }
    assert s[k + 1] == h[k + 1] && s[k + 2] == h[k + 2];
  }

  /** re.match, given a heading on its own, accepts it. */
  lemma HeadingStartsWithHeading(h: string)
    requires IsHeading(h)
    ensures StartsWithHeading(h)
  {
    assert h[..|h|] == h;
    MatchLenComplete(h, |h|);
  }

  /** re.match succeeds exactly when some prefix of t is a heading, and the
      match is then the only one: the matched prefix is unique. */
  lemma StartsWithHeadingIff(t: string)
    ensures StartsWithHeading(t) <==> exists n: nat :: n <= |t| && IsHeading(t[..n])
    ensures forall n: nat :: n <= |t| && IsHeading(t[..n]) ==> MatchLen(t) == Some(n)
  {
    if StartsWithHeading(t) {
      MatchLenSound(t);
    }
    forall n: nat | n <= |t| && IsHeading(t[..n]) ensures MatchLen(t) == Some(n) {
      MatchLenComplete(t, n);
    }
  }

  // ---------------------------------------------------------------------------
  // re.split(r'(\[\d+\.\s.*?\])', response)

  /** The pieces of re.split with the heading pattern as a capturing group:
      the text before the first heading, then each heading followed by the
      text up to the next one (the last text piece may be ""). The search is
      leftmost: at every index the scanner is tried before moving on. */
  function Split(s: string): (r: seq<string>)
    ensures |r| % 2 == 1
    decreases |s|
  {
    if s == [] then [""]
    else
      match MatchLen(s)
      case Some(n) => ["", s[..n]] + Split(s[n..])
      case None =>
        var rest := Split(s[1..]);
        [[s[0]] + rest[0]] + rest[1..]
  }

  lemma SplitMatch(s: string, n: nat)
    requires MatchLen(s) == Some(n)
    ensures Split(s) == ["", s[..n]] + Split(s[n..])
  {
  }

  lemma SplitNoMatch(s: string)
    requires s != [] && MatchLen(s).None?
    ensures Split(s) == [[s[0]] + Split(s[1..])[0]] + Split(s[1..])[1..]
  {
  }

  /** The concatenation of a list of strings (Python's "".join). */
  function Concat(ps: seq<string>): string {
    if |ps| == 0 then "" else ps[0] + Concat(ps[1..])
  }

  lemma {:induction false} ConcatAppend(a: seq<string>, b: seq<string>)
    ensures Concat(a + b) == Concat(a) + Concat(b)
  {
    if a == [] {
      assert a + b == b;
    } else {
      assert (a + b)[0] == a[0];
      assert (a + b)[1..] == a[1..] + b;
      ConcatAppend(a[1..], b);
    }
  }

  lemma ConcatCons(a: string, h: string, t: seq<string>)
    ensures Concat([a, h] + t) == a + (h + Concat(t))
  {
    assert ([a, h] + t)[1..] == [h] + t;
    assert ([h] + t)[1..] == t;
  }

  lemma ConcatGlue(c: char, t: seq<string>)
    requires t != []
    ensures Concat([[c] + t[0]] + t[1..]) == [c] + Concat(t)
  {
    var u := [[c] + t[0]] + t[1..];
    assert u[0] == [c] + t[0] && u[1..] == t[1..];
    AppendAssoc([c], t[0], Concat(t[1..]));
  }

  lemma AppendAssoc(a: string, b: string, c: string)
    ensures a + (b + c) == (a + b) + c
  {
  }

  /** Splitting loses nothing: the pieces put back together are the input. */
  lemma {:induction false} SplitConcat(s: string)
    ensures Concat(Split(s)) == s
    decreases |s|
  {
    if s != [] {
      match MatchLen(s)
      case Some(n) =>
        SplitConcat(s[n..]);
        SplitMatch(s, n);
        ConcatMatchStep(s, n, Split(s), Split(s[n..]));
      case None =>
        SplitConcat(s[1..]);
        SplitNoMatch(s);
        ConcatGlueStep(s, Split(s), Split(s[1..]));
    }
  }

  lemma ConcatMatchStep(s: string, n: nat, ps: seq<string>, t: seq<string>)
    requires n <= |s| && ps == ["", s[..n]] + t && Concat(t) == s[n..]
    ensures Concat(ps) == s
  {
    ConcatCons("", s[..n], t);
    assert "" + (s[..n] + s[n..]) == s;
  }

  lemma ConcatGlueStep(s: string, ps: seq<string>, t: seq<string>)
    requires s != [] && t != [] && ps == [[s[0]] + t[0]] + t[1..] && Concat(t) == s[1..]
    ensures Concat(ps) == s
  {
    ConcatGlue(s[0], t);
    assert [s[0]] + s[1..] == s;
  }

  lemma OddHeadingsCons(a: string, h: string, t: seq<string>)
    requires IsHeading(h)
    requires forall q :: 0 <= q < |t| / 2 ==> IsHeading(t[2 * q + 1])
    ensures forall q :: 0 <= q < |[a, h] + t| / 2 ==> IsHeading(([a, h] + t)[2 * q + 1])
  {
    var r := [a, h] + t;
    forall q | 0 <= q < |r| / 2 ensures IsHeading(r[2 * q + 1]) {
      if q > 0 { assert r[2 * q + 1] == t[2 * (q - 1) + 1]; }
    }
  }

  lemma OddHeadingsGlue(x: string, t: seq<string>)
    requires t != []
    requires forall q :: 0 <= q < |t| / 2 ==> IsHeading(t[2 * q + 1])
    ensures forall q :: 0 <= q < |[x] + t[1..]| / 2 ==> IsHeading(([x] + t[1..])[2 * q + 1])
  {
    var r := [x] + t[1..];
    forall q | 0 <= q < |r| / 2 ensures IsHeading(r[2 * q + 1]) {
      assert r[2 * q + 1] == t[2 * q + 1];
    }
  }

  /** Every piece at an odd index is a heading. */
  lemma {:induction false} SplitHeadings(s: string)
    ensures forall q :: 0 <= q < |Split(s)| / 2 ==> IsHeading(Split(s)[2 * q + 1])
    decreases |s|
  {
    if s != [] {
      match MatchLen(s)
      case Some(n) =>
        MatchLenSound(s);
        SplitHeadings(s[n..]);
        SplitMatch(s, n);
        OddHeadingsCons("", s[..n], Split(s[n..]));
      case None =>
        SplitHeadings(s[1..]);
        SplitNoMatch(s);
        OddHeadingsGlue([s[0]] + Split(s[1..])[0], Split(s[1..]));
    }
  }

  /** ps[0] is a prefix of Concat(ps). */
  lemma FirstPieceIsPrefix(ps: seq<string>)
    requires ps != []
    ensures |ps[0]| <= |Concat(ps)| && Concat(ps)[..|ps[0]|] == ps[0]
  {
  }

  /** A character that starts no heading, put in front of a text that holds
      none, starts none either. */
  lemma ConsNoHeading(s: string, u: string)
    requires |u| < |s| && s[1..|u| + 1] == u && NoHeading(u)
    requires forall q :: 0 <= q <= |s| ==> !IsHeading(s[..q])
    ensures NoHeading([s[0]] + u)
  {
    var t := [s[0]] + u;
    forall p, q | 0 <= p <= q <= |t| ensures !IsHeading(t[p..q]) {
      if p == 0 {
        assert t[p..q] == s[..q];
      } else {
        assert t[p..q] == u[p - 1..q - 1];
      }
    }
  }

  /** When no heading starts at the front, the first character joins a
      leading piece that still holds no heading. */
  lemma LeadingPieceNoHeading(s: string)
    requires s != [] && MatchLen(s).None? && NoHeading(Split(s[1..])[0])
    ensures NoHeading(Split(s)[0])
  {
    var rest := Split(s[1..]);
    SplitConcat(s[1..]);
    FirstPieceIsPrefix(rest);
    SplitNoMatch(s);
    var u := rest[0];
    assert s[1..|u| + 1] == s[1..][..|u|];
    StartsWithHeadingIff(s);
    ConsNoHeading(s, u);
  }

  /** No piece at an even index contains a heading: every match the leftmost
      scan finds is an odd piece. */
  lemma {:induction false} SplitTexts(s: string)
    ensures forall q :: 0 <= q <= |Split(s)| / 2 ==> NoHeading(Split(s)[2 * q])
    decreases |s|
  {
    if s != [] {
      match MatchLen(s)
      case Some(n) =>
        SplitTexts(s[n..]);
        SplitMatch(s, n);
        EvenTextsCons(s[..n], Split(s[n..]));
      case None =>
        var rest := Split(s[1..]);
        SplitTexts(s[1..]);
        assert NoHeading(rest[2 * 0]);
        LeadingPieceNoHeading(s);
        SplitNoMatch(s);
        EvenTextsGlue([s[0]] + rest[0], rest);
    }
  }

  lemma EvenTextsCons(h: string, t: seq<string>)
    requires |t| % 2 == 1
    requires forall q :: 0 <= q <= |t| / 2 ==> NoHeading(t[2 * q])
    ensures forall q :: 0 <= q <= |["", h] + t| / 2 ==> NoHeading((["", h] + t)[2 * q])
  {
    var r := ["", h] + t;
    forall q | 0 <= q <= |r| / 2 ensures NoHeading(r[2 * q]) {
      if q > 0 { assert r[2 * q] == t[2 * (q - 1)]; }
    }
  }

  lemma EvenTextsGlue(x: string, t: seq<string>)
    requires |t| % 2 == 1 && NoHeading(x)
    requires forall q :: 0 <= q <= |t| / 2 ==> NoHeading(t[2 * q])
    ensures forall q :: 0 <= q <= |[x] + t[1..]| / 2 ==> NoHeading(([x] + t[1..])[2 * q])
  {
    var r := [x] + t[1..];
    forall q | 0 <= q <= |r| / 2 ensures NoHeading(r[2 * q]) {
      if q > 0 { assert r[2 * q] == t[2 * q]; }
    }
  }

  /** A heading at the front becomes its own piece, after an empty leading text. */
  lemma SplitHeadingFirst(h: string, rest: string)
    requires IsHeading(h)
    ensures Split(h + rest) == ["", h] + Split(rest)
  {
    var s := h + rest;
    assert s[..|h|] == h;
    MatchLenComplete(s, |h|);
    assert s[|h|..] == rest;
  }

  /** With no heading starting in lead, none starts at the front either, and
      none starts in the rest of lead. */
  lemma NoHeadingBeforeTail(s: string, m: nat)
    requires 0 < m <= |s| && NoHeadingBefore(s, m)
    ensures MatchLen(s).None? && NoHeadingBefore(s[1..], m - 1)
  {
    var t := s[1..];
    forall p | 0 <= p < m - 1 ensures NoMatchAt(t, p) {
      assert NoMatchAt(s, p + 1);
      if p < |t| { assert t[p..] == s[p + 1..]; }
    }
    assert NoMatchAt(s, 0) && s[0..] == s;
  }

  /** One character of leading text moves onto the leading piece. */
  lemma SplitLeadingStep(s: string, m: nat, r: seq<string>)
    requires 0 < m <= |s| && MatchLen(s).None? && r == Split(s[m..])
    requires Split(s[1..]) == [s[1..][..m - 1] + Split(s[1..][m - 1..])[0]] + Split(s[1..][m - 1..])[1..]
    ensures Split(s) == [s[..m] + r[0]] + r[1..]
  {
    var t := s[1..];
    assert t[m - 1..] == s[m..] && t[..m - 1] == s[1..m];
    SplitNoMatch(s);
    assert [s[0]] + (s[1..m] + r[0]) == s[..m] + r[0];
  }

  lemma SplitLeadingNone(s: string)
    ensures Split(s) == [s[..0] + Split(s[0..])[0]] + Split(s[0..])[1..]
  {
    var r := Split(s);
    assert s[0..] == s && s[..0] + r[0] == r[0];
    assert r == [r[0]] + r[1..];
  }

  /** Text in front of the first heading, here s[..m], is glued onto the
      leading piece and changes nothing else. */
  lemma {:induction false} SplitLeadingAt(s: string, m: nat)
    requires m <= |s| && NoHeadingBefore(s, m)
    ensures Split(s) == [s[..m] + Split(s[m..])[0]] + Split(s[m..])[1..]
    decreases m
  {
    if m == 0 {
      SplitLeadingNone(s);
    } else {
      var r := Split(s[m..]);
      var t := s[1..];
      assert MatchLen(s).None? && NoHeadingBefore(t, m - 1) by {
        NoHeadingBeforeTail(s, m);
      }
      assert Split(t) == [t[..m - 1] + Split(t[m - 1..])[0]] + Split(t[m - 1..])[1..] by {
        SplitLeadingAt(t, m - 1);
      }
      SplitLeadingStep(s, m, r);
    }
  }

  /** Text in front of the first heading is glued onto the leading piece and
      changes nothing else. */
  lemma SplitLeadingText(lead: string, rest: string)
    requires NoHeadingBefore(lead + rest, |lead|)
    ensures Split(lead + rest) == [lead + Split(rest)[0]] + Split(rest)[1..]
  {
    var s := lead + rest;
    assert s[..|lead|] == lead && s[|lead|..] == rest;
    SplitLeadingAt(s, |lead|);
  }

  /** The search of re.split is leftmost: no heading of s starts inside
      piece 0, the text in front of the first heading piece. */
  lemma {:induction false} SplitFirstPieceLeftmost(s: string)
    ensures |Split(s)[0]| <= |s| && NoHeadingBefore(s, |Split(s)[0]|)
    decreases |s|
  {
    if s != [] && MatchLen(s).None? {
      var t := s[1..];
      SplitFirstPieceLeftmost(t);
      SplitNoMatch(s);
      var m := |Split(s)[0]|;
      assert m == 1 + |Split(t)[0]|;
      forall p | 0 <= p < m ensures NoMatchAt(s, p) {
        if p == 0 {
          assert s[0..] == s;
        } else {
          assert NoMatchAt(t, p - 1);
          assert t[p - 1..] == s[p..];
        }
      }
    } else if s != [] {
      SplitMatch(s, MatchLen(s).value);
    }
  }

  /** More generally, no heading of s starts inside any text piece: every
      heading the scan steps over lies inside a heading piece. */
  lemma {:induction false} SplitTextsLeftmost(s: string, q: nat, p: nat)
    requires 2 * q < |Split(s)|
    requires |Concat(Split(s)[..2 * q])| <= p < |Concat(Split(s)[..2 * q])| + |Split(s)[2 * q]|
    ensures NoMatchAt(s, p)
    decreases |s|, 1
  {
    if q == 0 {
      assert Split(s)[..0] == [];
      SplitFirstPieceLeftmost(s);
    } else if MatchLen(s).Some? {
      var n := MatchLen(s).value;
      MatchStepOffset(s, n, q, p);
      LeftmostShifted(s, n, q - 1, p);
    } else {
      GlueStepOffset(s, q, p);
      LeftmostShifted(s, 1, q, p);
    }
  }

  /** Text piece q of s[n..] holds position p - n of s[n..]: then no match
      starts at p of s. */
  lemma {:induction false} LeftmostShifted(s: string, n: nat, q: nat, p: nat)
    requires 0 < n <= p && n <= |s| && 2 * q < |Split(s[n..])|
    requires |Concat(Split(s[n..])[..2 * q])| <= p - n
    requires p - n < |Concat(Split(s[n..])[..2 * q])| + |Split(s[n..])[2 * q]|
    ensures NoMatchAt(s, p)
    decreases |s|, 0
  {
    SplitTextsLeftmost(s[n..], q, p - n);
    NoMatchShift(s, n, p);
  }

  /** Text piece q of s, when s starts with a match of length n, is text
      piece q - 1 of s[n..], shifted by n. */
  lemma MatchStepOffset(s: string, n: nat, q: nat, p: nat)
    requires MatchLen(s) == Some(n) && 0 < q && 2 * q < |Split(s)|
    requires |Concat(Split(s)[..2 * q])| <= p < |Concat(Split(s)[..2 * q])| + |Split(s)[2 * q]|
    ensures n <= p && n <= |s| && 2 * (q - 1) < |Split(s[n..])|
    ensures |Concat(Split(s[n..])[..2 * (q - 1)])| <= p - n
    ensures p - n < |Concat(Split(s[n..])[..2 * (q - 1)])| + |Split(s[n..])[2 * (q - 1)]|
  {
    SplitMatch(s, n);
    ConsOffset(s[..n], Split(s[n..]), q);
  }

  /** Text piece q of s, when no match starts at 0, is text piece q of
      s[1..], shifted by one. */
  lemma GlueStepOffset(s: string, q: nat, p: nat)
    requires s != [] && MatchLen(s).None? && 0 < q && 2 * q < |Split(s)|
    requires |Concat(Split(s)[..2 * q])| <= p < |Concat(Split(s)[..2 * q])| + |Split(s)[2 * q]|
    ensures 1 <= p && 2 * q < |Split(s[1..])|
    ensures |Concat(Split(s[1..])[..2 * q])| <= p - 1
    ensures p - 1 < |Concat(Split(s[1..])[..2 * q])| + |Split(s[1..])[2 * q]|
  {
    SplitNoMatch(s);
    GlueOffset(s[0], Split(s[1..]), q);
  }

  /** Where text piece q lies, once a heading piece h is put in front. */
  lemma ConsOffset(h: string, r: seq<string>, q: nat)
    requires 0 < q && 2 * q < |r| + 2
    ensures |Concat((["", h] + r)[..2 * q])| == |h| + |Concat(r[..2 * (q - 1)])|
    ensures (["", h] + r)[2 * q] == r[2 * (q - 1)]
  {
    assert (["", h] + r)[..2 * q] == ["", h] + r[..2 * (q - 1)];
    ConcatCons("", h, r[..2 * (q - 1)]);
  }

  /** Where text piece q lies, once a character is glued to piece 0. */
  lemma GlueOffset(c: char, r: seq<string>, q: nat)
    requires 0 < q && 2 * q < |r|
    ensures |Concat(([[c] + r[0]] + r[1..])[..2 * q])| == 1 + |Concat(r[..2 * q])|
    ensures ([[c] + r[0]] + r[1..])[2 * q] == r[2 * q]
  {
    var t := r[..2 * q];
    assert ([[c] + r[0]] + r[1..])[..2 * q] == [[c] + t[0]] + t[1..];
    ConcatGlue(c, t);
  }

  /** A match that does not start at p - k of s[k..] does not start at p of s. */
  lemma NoMatchShift(s: string, k: nat, p: nat)
    requires k <= p && k <= |s| && NoMatchAt(s[k..], p - k)
    ensures NoMatchAt(s, p)
  {
    if p < |s| {
      assert s[k..][p - k..] == s[p..];
    }
  }

  // ---------------------------------------------------------------------------
  // The sections, declaratively

  /** Pairs each heading piece with the text piece after it, stripped. */
  function Pairs(ps: seq<string>): (r: seq<Section>)
    requires |ps| % 2 == 1
    ensures |r| == |ps| / 2
    ensures forall j :: 0 <= j < |r| ==> IsStripped(r[j].body)
  {
    seq(|ps| / 2, j requires 0 <= j < |ps| / 2 => Section(ps[2 * j + 1], Strip(ps[2 * j + 2])))
  }

  /** What parse_gemini_response returns for a response: one section per
      heading found by re.split, in order. */
  function Sectionize(response: string): seq<Section> {
    Pairs(Split(response))
  }

  /** Every title is one match of the heading pattern, and every body is stripped. */
  lemma SectionizeShape(s: string)
    ensures forall j :: 0 <= j < |Sectionize(s)| ==> IsHeading(Sectionize(s)[j].title) && IsStripped(Sectionize(s)[j].body)
  {
    SplitHeadings(s);
  }

  /** The input is the leading text, then every title followed by its
      unstripped body, in turn; each output body is that piece stripped. */
  lemma SectionsReconstructInput(s: string)
    ensures var ps := Split(s);
      |Sectionize(s)| == |ps| / 2 &&
      s == ps[0] + Concat(ps[1..]) &&
      forall j :: 0 <= j < |Sectionize(s)| ==>
        Sectionize(s)[j].title == ps[2 * j + 1] && Sectionize(s)[j].body == Strip(ps[2 * j + 2])
  {
    SplitConcat(s);
  }

  /** Where the j-th title starts in the input. */
  function TitleOffset(s: string, j: nat): nat
    requires j < |Sectionize(s)|
  {
    |Concat(Split(s)[..2 * j + 1])|
  }

  lemma ConcatPrefix(ps: seq<string>, m: nat)
    requires m < |ps|
    ensures |Concat(ps[..m])| + |ps[m]| <= |Concat(ps)|
    ensures Concat(ps)[|Concat(ps[..m])|..|Concat(ps[..m])| + |ps[m]|] == ps[m]
  {
    assert ps == ps[..m] + [ps[m]] + ps[m + 1..];
    ConcatAppend(ps[..m] + [ps[m]], ps[m + 1..]);
    ConcatAppend(ps[..m], [ps[m]]);
  }

  /** Each title stands in the input at its offset... */
  lemma TitleInInput(s: string, j: nat)
    requires j < |Sectionize(s)|
    ensures TitleOffset(s, j) + |Sectionize(s)[j].title| <= |s|
    ensures s[TitleOffset(s, j)..TitleOffset(s, j) + |Sectionize(s)[j].title|] == Sectionize(s)[j].title
  {
    SplitConcat(s);
    ConcatPrefix(Split(s), 2 * j + 1);
  }

  /** The first title is the leftmost heading of the input: it stands right
      after the discarded text, no heading starts before it, and re.match at
      its offset matches exactly the title. */
  lemma FirstTitleIsFirstHeading(s: string)
    requires Sectionize(s) != []
    ensures var o := TitleOffset(s, 0);
      o == |Split(s)[0]| && NoHeadingBefore(s, o) &&
      o < |s| && MatchLen(s[o..]) == Some(|Sectionize(s)[0].title|)
  {
    var ps := Split(s);
    var o := TitleOffset(s, 0);
    var h := Sectionize(s)[0].title;
    assert o == |ps[0]| by {
      assert ps[..1][1..] == [];
      assert Concat(ps[..1]) == ps[0] + Concat(ps[..1][1..]);
    }
    assert NoHeadingBefore(s, o) by {
      SplitFirstPieceLeftmost(s);
    }
    assert o + |h| <= |s| && s[o..o + |h|] == h by {
      TitleInInput(s, 0);
    }
    assert IsHeading(h) by {
      SectionizeShape(s);
    }
    assert s[o..][..|h|] == h;
    MatchLenComplete(s[o..], |h|);
  }

  /** ...and the titles appear in the order of the input, without overlap:
      no heading is reported twice. */
  lemma {:induction false} TitlesInOrder(s: string, i: nat, j: nat)
    requires i < j < |Sectionize(s)|
    ensures TitleOffset(s, i) + |Sectionize(s)[i].title| <= TitleOffset(s, j)
  {
    var ps := Split(s);
    var a := ps[..2 * i + 1];
    var b := ps[2 * i + 1..2 * j + 1];
    assert ps[..2 * j + 1] == a + b;
    ConcatAppend(a, b);
    assert b == [ps[2 * i + 1]] + b[1..];
  }

  lemma {:induction false} SubstringOfNoHeading(t: string, a: nat, b: nat)
    requires a <= b <= |t| && NoHeading(t)
    ensures NoHeading(t[a..b])
  {
    var u := t[a..b];
    forall p, q | 0 <= p <= q <= |u| ensures !IsHeading(u[p..q]) {
      assert u[p..q] == t[a + p..a + q] by {
        forall i | 0 <= i < q - p ensures u[p..q][i] == t[a + p..a + q][i] {}
      }
      assert !IsHeading(t[a + p..a + q]);
    }
  }

  /** The parse is empty exactly when the response contains no heading. */
  lemma SectionizeEmptyIff(s: string)
    ensures Sectionize(s) == [] <==> NoHeading(s)
  {
    var ps := Split(s);
    if |ps| == 1 {
      SplitConcat(s);
      assert Concat(ps) == ps[0] + Concat([]);
      SplitTexts(s);
      assert NoHeading(ps[0]);
      assert s == ps[0];
      assert |Sectionize(s)| == |Pairs(ps)| == 0;
    } else {
      var r := Sectionize(s);
      assert |r| > 0;
      TitleInInput(s, 0);
      var o := TitleOffset(s, 0);
      var h := r[0].title;
      SectionizeShape(s);
      assert IsHeading(h);
      assert s[o..o + |h|] == h;
    }
  }

  /** Stripping keeps a text free of headings. */
  lemma StripNoHeading(t: string)
    requires NoHeading(t)
    ensures NoHeading(Strip(t))
  {
    var lo := LeadingSpaces(t);
    StripCutsBlanks(t);
    SubstringOfNoHeading(t, lo, lo + |Strip(t)|);
  }

  /** Parsing a body again finds nothing: bodies hold no heading. */
  lemma BodiesHaveNoHeading(s: string, j: nat)
    requires j < |Sectionize(s)|
    ensures NoHeading(Sectionize(s)[j].body)
    ensures Sectionize(Sectionize(s)[j].body) == []
  {
    var ps := Split(s);
    var t := ps[2 * j + 2];
    assert NoHeading(t) by {
      SplitTexts(s);
      assert NoHeading(ps[2 * (j + 1)]);
    }
    var b := Sectionize(s)[j].body;
    assert b == Strip(t);
    StripNoHeading(t);
    SectionizeEmptyIff(b);
  }

  /** Text before the first heading never reaches the output. */
  lemma LeadingTextDiscarded(lead: string, rest: string)
    requires NoHeadingBefore(lead + rest, |lead|)
    ensures Sectionize(lead + rest) == Sectionize(rest)
  {
    SplitLeadingText(lead, rest);
  }

  /** A heading at the front of the input yields the first section, whose
      body is the stripped text up to the next heading. */
  lemma SectionizeHeadingFirst(h: string, rest: string)
    requires IsHeading(h)
    ensures Sectionize(h + rest) == [Section(h, Strip(Split(rest)[0]))] + Sectionize(rest)
  {
    SplitHeadingFirst(h, rest);
    PairsCons(h, Split(rest));
  }

  lemma PairsCons(h: string, ps: seq<string>)
    requires |ps| % 2 == 1
    ensures Pairs(["", h] + ps) == [Section(h, Strip(ps[0]))] + Pairs(ps)
  {
    var a, b := Pairs(["", h] + ps), [Section(h, Strip(ps[0]))] + Pairs(ps);
    assert |a| == |b|;
    forall j | 0 <= j < |a| ensures a[j] == b[j] {
      PairsConsAt(h, ps, j);
    }
  }

  lemma PairsConsAt(h: string, ps: seq<string>, j: nat)
    requires |ps| % 2 == 1 && j <= |ps| / 2
    ensures Pairs(["", h] + ps)[j] == ([Section(h, Strip(ps[0]))] + Pairs(ps))[j]
  {
    var qs := ["", h] + ps;
    if j == 0 {
      assert qs[1] == h && qs[2] == ps[0];
    } else {
      assert qs[2 * j + 1] == ps[2 * (j - 1) + 1] && qs[2 * j + 2] == ps[2 * (j - 1) + 2];
    }
  }

  /** A heading with nothing after it gives a section with body "". */
  lemma TrailingHeadingEmptyBody(lead: string, h: string)
    requires IsHeading(h) && NoHeadingBefore(lead + h, |lead|)
    ensures Sectionize(lead + h) == [Section(h, "")]
  {
    LeadingTextDiscarded(lead, h);
    assert h + "" == h;
    SectionizeHeadingFirst(h, "");
  }

  /** Headings with the text that follows each: h0 + b0 + h1 + b1 + ... */
  function Interleave(hs: seq<string>, bs: seq<string>): string
    requires |hs| == |bs|
  {
    if hs == [] then "" else hs[0] + bs[0] + Interleave(hs[1..], bs[1..])
  }

  lemma NoBracketNoHeadingBefore(t: string, u: string)
    requires NoOpenBracket(t)
    ensures NoHeadingBefore(t + u, |t|)
  {
    var s := t + u;
    forall p | 0 <= p < |t| ensures NoMatchAt(s, p) {
      assert s[p..][0] == t[p];
    }
  }

  /** One step of a layout: a heading, bracket-free text, then either nothing
      or another heading. */
  lemma SectionizeStep(h: string, b: string, rest: string)
    requires IsHeading(h) && NoOpenBracket(b) && Split(rest)[0] == ""
    ensures Sectionize(h + (b + rest)) == [Section(h, Strip(b))] + Sectionize(b + rest)
  {
    SectionizeHeadingFirst(h, b + rest);
    NoBracketNoHeadingBefore(b, rest);
    SplitLeadingText(b, rest);
    assert b + "" == b;
  }

  lemma InterleaveStartsWithHeading(hs: seq<string>, bs: seq<string>)
    requires |hs| == |bs|
    requires forall i :: 0 <= i < |hs| ==> IsHeading(hs[i])
    ensures Split(Interleave(hs, bs))[0] == ""
  {
    if hs == [] {
      assert Interleave(hs, bs) == "";
    } else {
      var y := bs[0] + Interleave(hs[1..], bs[1..]);
      assert Interleave(hs, bs) == hs[0] + y;
      SplitHeadingFirst(hs[0], y);
      assert (["", hs[0]] + Split(y))[0] == "";
    }
  }

  /** A text whose headings are separated by bracket-free text, after a
      bracket-free lead, parses into exactly those headings, in order, each
      with the text after it as body, stripped. */
  lemma {:induction false} SectionizeLayout(lead: string, hs: seq<string>, bs: seq<string>)
    requires |hs| == |bs| && NoOpenBracket(lead)
    requires forall i :: 0 <= i < |hs| ==> IsHeading(hs[i]) && NoOpenBracket(bs[i])
    ensures |Sectionize(lead + Interleave(hs, bs))| == |hs|
    ensures forall i :: 0 <= i < |hs| ==>
      Sectionize(lead + Interleave(hs, bs))[i] == Section(hs[i], Strip(bs[i]))
    decreases |hs|
  {
    var x := Interleave(hs, bs);
    NoBracketNoHeadingBefore(lead, x);
    LeadingTextDiscarded(lead, x);
    if hs == [] {
      assert Sectionize(x) == [];
    } else {
      var rest := Interleave(hs[1..], bs[1..]);
      assert x == hs[0] + (bs[0] + rest);
      InterleaveStartsWithHeading(hs[1..], bs[1..]);
      SectionizeStep(hs[0], bs[0], rest);
      SectionizeLayout(bs[0], hs[1..], bs[1..]);
      var tail := Sectionize(bs[0] + rest);
      assert Sectionize(lead + x) == [Section(hs[0], Strip(bs[0]))] + tail;
    }
  }

  // ---------------------------------------------------------------------------
  // The walk of app.py over the split pieces

  /** The loop of parse_gemini_response from index i on, for any list of
      pieces: a piece that re.match accepts is paired with the next piece
      stripped ("" if there is none) and the walk skips two, any other piece
      is skipped alone. */
  function Walk(sections: seq<string>, i: nat): seq<Section>
    decreases |sections| - i
  {
    if i >= |sections| then []
    else if StartsWithHeading(sections[i]) then
      [Section(sections[i], Strip(if i + 1 < |sections| then sections[i + 1] else ""))] + Walk(sections, i + 2)
    else Walk(sections, i + 1)
  }

  /** Every pair the walk emits comes from a distinct piece that re.match
      accepts, so there are at most half as many pairs as pieces. */
  lemma {:induction false} WalkBounds(sections: seq<string>, i: nat)
    requires 1 <= i
    ensures 2 * |Walk(sections, i)| <= |sections| + 1 - i || |Walk(sections, i)| == 0
    ensures forall m :: 0 <= m < |Walk(sections, i)| ==>
      StartsWithHeading(Walk(sections, i)[m].title) && IsStripped(Walk(sections, i)[m].body)
    decreases |sections| - i
  {
    if i < |sections| {
      if StartsWithHeading(sections[i]) {
        WalkBounds(sections, i + 2);
        var w := Walk(sections, i + 2);
        var x := Section(sections[i], Strip(if i + 1 < |sections| then sections[i + 1] else ""));
        assert Walk(sections, i) == [x] + w;
        PrependSection(x, w);
      } else {
        WalkBounds(sections, i + 1);
      }
    }
  }

  lemma PrependSection(x: Section, w: seq<Section>)
    requires StartsWithHeading(x.title) && IsStripped(x.body)
    requires forall m :: 0 <= m < |w| ==> StartsWithHeading(w[m].title) && IsStripped(w[m].body)
    ensures forall m :: 0 <= m < |[x] + w| ==>
      StartsWithHeading(([x] + w)[m].title) && IsStripped(([x] + w)[m].body)
  {
    forall m | 0 < m < |[x] + w| ensures ([x] + w)[m] == w[m - 1] {}
  }

  lemma WalkAtHeading(ps: seq<string>, i: nat)
    requires i + 1 < |ps| && StartsWithHeading(ps[i])
    ensures Walk(ps, i) == [Section(ps[i], Strip(ps[i + 1]))] + Walk(ps, i + 2)
  {
  }

  lemma PairsFrom(ps: seq<string>, j: nat)
    requires |ps| % 2 == 1 && j < |ps| / 2
    ensures Pairs(ps)[j..] == [Section(ps[2 * j + 1], Strip(ps[2 * j + 2]))] + Pairs(ps)[j + 1..]
  {
    var pairs := Pairs(ps);
    assert pairs[j..] == [pairs[j]] + pairs[j + 1..];
  }

  /** On the pieces of a split, the walk visits exactly the odd pieces and
      returns the declarative sections. */
  lemma {:induction false} WalkPairs(ps: seq<string>, j: nat)
    requires |ps| % 2 == 1 && 2 * j + 1 <= |ps|
    requires forall q :: 0 <= q < |ps| / 2 ==> StartsWithHeading(ps[2 * q + 1])
    ensures Walk(ps, 2 * j + 1) == Pairs(ps)[j..]
    decreases |ps| - 2 * j
  {
    var i := 2 * j + 1;
    if i < |ps| {
      var x := Section(ps[i], Strip(ps[i + 1]));
      assert Walk(ps, i) == [x] + Walk(ps, i + 2) by {
        assert StartsWithHeading(ps[2 * j + 1]);
        WalkAtHeading(ps, i);
      }
      assert Walk(ps, i + 2) == Pairs(ps)[j + 1..] by {
        WalkPairs(ps, j + 1);
      }
      assert Pairs(ps)[j..] == [x] + Pairs(ps)[j + 1..] by {
        PairsFrom(ps, j);
      }
    } else {
      assert Pairs(ps)[j..] == [];
    }
  }

  lemma WalkSplit(s: string)
    ensures Walk(Split(s), 1) == Sectionize(s)
  {
    var ps := Split(s);
    SplitHeadings(s);
    HeadingsStart(ps);
    WalkPairs(ps, 0);
    assert Pairs(ps)[0..] == Pairs(ps);
  }

  /** Odd pieces that are headings are accepted by re.match. */
  lemma HeadingsStart(ps: seq<string>)
    requires forall q :: 0 <= q < |ps| / 2 ==> IsHeading(ps[2 * q + 1])
    ensures forall q :: 0 <= q < |ps| / 2 ==> StartsWithHeading(ps[2 * q + 1])
  {
    forall q | 0 <= q < |ps| / 2 ensures StartsWithHeading(ps[2 * q + 1]) {
      HeadingStartsWithHeading(ps[2 * q + 1]);
    }
  }

  /** parse_gemini_response: split the response, then walk the pieces from
      index 1 with a loop over i, collecting (title, stripped body) pairs.
      The invariant bounds i loosely, as the loop is written for any pieces;
      on the pieces of a split every odd piece is a heading, so i only takes
      odd values up to |sections| (WalkPairs). */
  method ParseResponse(response: string) returns (parsed: seq<Section>)
    ensures parsed == Sectionize(response)
  {
    var sections := Split(response);
    parsed := [];
    var i := 1;
    while i < |sections|
      invariant 1 <= i <= |sections| + 1
      invariant parsed + Walk(sections, i) == Walk(sections, 1)
      decreases |sections| - i
    {
      if MatchLen(sections[i]).Some? {
        var title := sections[i];
        var content := if i + 1 < |sections| then sections[i + 1] else "";
        parsed := parsed + [Section(title, Strip(content))];
        i := i + 2;
      } else {
        i := i + 1;
      }
    }
    WalkSplit(response);
  }
}
