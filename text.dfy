/** The Python string operations the core relies on: the whitespace class,
    str.strip(), and the `in` test for substrings. */
module Text {

  /** The whitespace below U+0080 that str.strip() removes and that the
      regular-expression class \s accepts: space, tab, line feed, vertical
      tab, form feed, carriage return, and the separators U+001C to U+001F.
      The Unicode whitespace above U+007F is not included. */
  predicate IsSpace(c: char) {
    c == ' ' || c == '\t' || c == '\n' || c == '\U{B}' || c == '\U{C}' || c == '\r' ||
    c == '\U{1C}' || c == '\U{1D}' || c == '\U{1E}' || c == '\U{1F}'
  }

  /** The regular-expression class \d, restricted to ASCII digits. */
  predicate IsDigit(c: char) {
    '0' <= c <= '9'
  }

  /** Every character is whitespace (the empty string included). */
  predicate IsBlank(s: string) {
    forall i :: 0 <= i < |s| ==> IsSpace(s[i])
  }

  /** Neither end is whitespace: what strip() leaves behind. */
  predicate IsStripped(s: string) {
    s == [] || (!IsSpace(s[0]) && !IsSpace(s[|s| - 1]))
  }

  /** Number of whitespace characters at the front of s. */
  function LeadingSpaces(s: string): (k: nat)
    ensures k <= |s|
  {
    if s != [] && IsSpace(s[0]) then 1 + LeadingSpaces(s[1..]) else 0
  }

  /** The leading run is all whitespace and ends at a non-space or at the end. */
  lemma {:induction false} LeadingSpacesSound(s: string)
    ensures forall i :: 0 <= i < LeadingSpaces(s) ==> IsSpace(s[i])
    ensures LeadingSpaces(s) == |s| || !IsSpace(s[LeadingSpaces(s)])
  {
    if s != [] && IsSpace(s[0]) {
      LeadingSpacesSound(s[1..]);
    }
  }

  /** Number of whitespace characters at the back of s. */
  function TrailingSpaces(s: string): (k: nat)
    ensures k <= |s|
  {
    if s != [] && IsSpace(s[|s| - 1]) then 1 + TrailingSpaces(s[..|s| - 1]) else 0
  }

  /** The trailing run starts after a non-space or at the start. */
  lemma {:induction false} TrailingSpacesSound(s: string)
    ensures TrailingSpaces(s) == |s| || !IsSpace(s[|s| - 1 - TrailingSpaces(s)])
  {
    if s != [] && IsSpace(s[|s| - 1]) {
      TrailingSpacesSound(s[..|s| - 1]);
    }
  }

  /** str.strip(): the result has no whitespace at either end. */
  function Strip(s: string): (r: string)
    ensures IsStripped(r) && |r| <= |s|
  {
    var lo := LeadingSpaces(s);
    var t := s[lo..];
    LeadingSpacesSound(s);
    TrailingSpacesSound(t);
    t[..|t| - TrailingSpaces(t)]
  }

  /** strip() cuts only whitespace: the result is the piece of s that starts
      after the leading whitespace, and what is cut off on either side is blank. */
  lemma StripCutsBlanks(s: string)
    ensures var lo := LeadingSpaces(s);
      lo + |Strip(s)| <= |s| && Strip(s) == s[lo..lo + |Strip(s)|] &&
      IsBlank(s[..lo]) && IsBlank(s[lo + |Strip(s)|..])
  {
    var lo := LeadingSpaces(s);
    var t := s[lo..];
    var hi := |t| - TrailingSpaces(t);
    assert Strip(s) == s[lo..lo + hi] by {
      assert Strip(s) == t[..hi];
      assert t[..hi] == s[lo..lo + hi];
    }
    assert IsBlank(s[..lo]) by {
      LeadingRunBlank(s);
    }
    assert IsBlank(s[lo + hi..]) by {
      TrailingRunBlank(t);
      assert t[hi..] == s[lo + hi..];
    }
  }

  lemma LeadingRunBlank(s: string)
    ensures IsBlank(s[..LeadingSpaces(s)])
  {
    LeadingSpacesSound(s);
    var lo := LeadingSpaces(s);
    forall i | 0 <= i < lo ensures IsSpace(s[..lo][i]) {
      assert s[..lo][i] == s[i];
    }
  }

  lemma {:induction false} TrailingRunBlank(t: string)
    ensures IsBlank(t[|t| - TrailingSpaces(t)..])
  {
    if t != [] && IsSpace(t[|t| - 1]) {
      var u := t[..|t| - 1];
      TrailingRunBlank(u);
      var lo := |u| - TrailingSpaces(u);
      var v := t[lo..];
      forall i | 0 <= i < |v| ensures IsSpace(v[i]) {
        if i < |v| - 1 {
          assert v[i] == u[lo..][i];
        }
      }
    }
  }

  /** strip() returns "" exactly when the string is blank: in Python, the
      stripped text is falsy exactly for inputs made only of whitespace. */
  lemma StripEmptyIffBlank(s: string)
    ensures Strip(s) == [] <==> IsBlank(s)
  {
    StripCutsBlanks(s);
    var lo := LeadingSpaces(s);
    var hi := lo + |Strip(s)|;
    if Strip(s) == [] {
      forall i | 0 <= i < |s| ensures IsSpace(s[i]) {
        if i < lo {
          assert s[..lo][i] == s[i];
        } else {
          assert s[hi..][i - hi] == s[i];
        }
      }
    } else {
      assert s[lo] == Strip(s)[0];
    }
  }

  /** Stripping twice is stripping once. */
  lemma StripIdempotent(s: string)
    ensures Strip(Strip(s)) == Strip(s)
  {
    var r := Strip(s);
    LeadingSpacesSound(r);
    assert LeadingSpaces(r) == 0;
    assert TrailingSpaces(r) == 0;
  }

  /** s holds no '[': no heading can start anywhere in it. */
  predicate NoOpenBracket(s: string) {
    '[' !in s
  }

  /** n occurs in t starting at index i. */
  predicate OccursAt(t: string, n: string, i: nat) {
    i + |n| <= |t| && t[i..i + |n|] == n
  }

  /** Python's `n in t` for strings. */
  predicate Contains(t: string, n: string) {
    exists i: nat :: i <= |t| && OccursAt(t, n, i)
  }
}
