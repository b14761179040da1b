/**
 * The three detection patterns of the redaction service, as matchers that
 * return where a match starting at a given position ends. Each follows the
 * backtracking order of the JavaScript regular expression it models: an
 * optional item is tried consumed first, alternatives left to right.
 */
module Patterns {
  import opened Wrappers

  /** `\d` */
  predicate IsDigit(c: char) { '0' <= c <= '9' }

  /** `[A-Z]` */
  predicate IsUpper(c: char) { 'A' <= c <= 'Z' }

  /** `\w` without the unicode flag: ASCII letters, digits and underscore. */
  predicate IsWordChar(c: char) { IsDigit(c) || IsUpper(c) || ('a' <= c <= 'z') || c == '_' }

  /** `\s`: the white space and line terminator characters of ECMAScript. */
  predicate IsWhitespace(c: char)
  {
    c == '\t' || c == '\n' || c == '\U{B}' || c == '\U{C}' || c == '\r' || c == ' '
    || c == '\U{A0}' || c == '\U{1680}' || ('\U{2000}' <= c <= '\U{200A}')
    || c == '\U{2028}' || c == '\U{2029}' || c == '\U{202F}' || c == '\U{205F}'
    || c == '\U{3000}' || c == '\U{FEFF}'
  }

  /** `[\s-]`: the separators the Aadhaar and phone patterns allow between digit groups. */
  predicate IsSep(c: char) { IsWhitespace(c) || c == '-' }

  lemma DigitIsNotSep(c: char)
    requires IsDigit(c)
    ensures !IsSep(c) && IsWordChar(c)
  {
  }

  /** `\b` at position p: exactly one of the characters on either side is a word character. */
  predicate WordBoundary(s: string, p: nat)
  {
    (0 < p <= |s| && IsWordChar(s[p - 1])) != (p < |s| && IsWordChar(s[p]))
  }

  predicate AllDigits(t: string) { forall k | 0 <= k < |t| :: IsDigit(t[k]) }

  /** n digits start at position i of s. */
  predicate DigitsAt(s: string, i: nat, n: nat)
  {
    i + n <= |s| && forall k | i <= k < i + n :: IsDigit(s[k])
  }

  predicate SepAt(s: string, i: nat) { i < |s| && IsSep(s[i]) }

  /** The literal w occurs at position i of s. */
  predicate HasAt(s: string, i: nat, w: string) { i + |w| <= |s| && s[i..i + |w|] == w }

  /** Greedy `[\s-]?` followed by a digit: it consumes the separator exactly when one is there. */
  function SkipSep(s: string, i: nat): nat
  {
    if SepAt(s, i) then i + 1 else i
  }

  // ---------------------------------------------------------------------
  // Aadhaar: \b(\d{4}[\s-]?\d{4}[\s-]?\d{4})\b
  // ---------------------------------------------------------------------

  function AadhaarAt(s: string, p: nat): (r: Option<nat>)
    ensures r.Some? ==> p + 12 <= r.value <= |s| && r.value <= p + 14
  {
    if !WordBoundary(s, p) || !DigitsAt(s, p, 4) then None
    else
      var q := SkipSep(s, p + 4);
      if !DigitsAt(s, q, 4) then None
      else
        var e := SkipSep(s, q + 4) + 4;
        if DigitsAt(s, e - 4, 4) && WordBoundary(s, e) then Some(e) else None
  }

  /** The Aadhaar layout with g1, g2 (0 or 1) separators after the first and second group. */
  ghost predicate AadhaarForm(t: string, g1: nat, g2: nat)
  {
    && g1 <= 1 && g2 <= 1 && |t| == 12 + g1 + g2
    && AllDigits(t[..4]) && (g1 == 1 ==> IsSep(t[4]))
    && AllDigits(t[4 + g1..8 + g1]) && (g2 == 1 ==> IsSep(t[8 + g1]))
    && AllDigits(t[8 + g1 + g2..])
  }

  /** The language of `\d{4}[\s-]?\d{4}[\s-]?\d{4}`. */
  ghost predicate IsAadhaarText(t: string)
  {
    exists g1: nat, g2: nat :: AadhaarForm(t, g1, g2)
  }

  /** The Aadhaar matcher finds exactly the pattern's matches with a word boundary at both ends. */
  lemma AadhaarAtIff(s: string, p: nat, e: nat)
    ensures AadhaarAt(s, p) == Some(e) <==>
      p <= e <= |s| && WordBoundary(s, p) && WordBoundary(s, e) && IsAadhaarText(s[p..e])
  {
    if AadhaarAt(s, p) == Some(e) {
      AadhaarAtSound(s, p, e);
    }
    if p <= e <= |s| && WordBoundary(s, p) && WordBoundary(s, e) && IsAadhaarText(s[p..e]) {
      AadhaarAtComplete(s, p, e);
    }
  }

  lemma AadhaarAtSound(s: string, p: nat, e: nat)
    requires AadhaarAt(s, p) == Some(e)
    ensures WordBoundary(s, p) && WordBoundary(s, e) && IsAadhaarText(s[p..e])
  {
    var g1, g2 := AadhaarAtLayout(s, p, e);
    AadhaarLayoutIff(s, p, g1, g2);
  }

  lemma AadhaarAtComplete(s: string, p: nat, e: nat)
    requires p <= e <= |s| && WordBoundary(s, p) && WordBoundary(s, e)
    requires IsAadhaarText(s[p..e])
    ensures AadhaarAt(s, p) == Some(e)
  {
    var g1: nat, g2: nat :| AadhaarForm(s[p..e], g1, g2);
    AadhaarLayoutIff(s, p, g1, g2);
    AadhaarAtFromLayout(s, p, g1, g2);
  }

  /** The Aadhaar layout (g1, g2 separators) placed at position p of s. */
  predicate AadhaarLayoutAt(s: string, p: nat, g1: nat, g2: nat)
  {
    && g1 <= 1 && g2 <= 1
    && DigitsAt(s, p, 4) && (g1 == 1 ==> SepAt(s, p + 4))
    && DigitsAt(s, p + 4 + g1, 4) && (g2 == 1 ==> SepAt(s, p + 8 + g1))
    && DigitsAt(s, p + 8 + g1 + g2, 4)
  }

  lemma AadhaarLayoutIff(s: string, p: nat, g1: nat, g2: nat)
    requires g1 <= 1 && g2 <= 1 && p + 12 + g1 + g2 <= |s|
    ensures AadhaarLayoutAt(s, p, g1, g2) <==> AadhaarForm(s[p..p + 12 + g1 + g2], g1, g2)
  {
    var e := p + 12 + g1 + g2;
    var t := s[p..e];
    DigitsInSlice(s, p, e, 0);
    DigitsInSlice(s, p, e, 4 + g1);
    DigitsInSlice(s, p, e, 8 + g1 + g2);
    assert t[..4] == t[0..4];
    assert t[8 + g1 + g2..] == t[8 + g1 + g2..12 + g1 + g2];
    assert t[4] == s[p + 4];
    assert t[8 + g1] == s[p + 8 + g1];
  }

  /** Four digits at offset i of the slice s[p..e] are four digits at p + i of s. */
  lemma DigitsInSlice(s: string, p: nat, e: nat, i: nat)
    requires p + i + 4 <= e <= |s|
    ensures DigitsAt(s, p + i, 4) == AllDigits(s[p..e][i..i + 4])
  {
    SliceOfSlice(s, p, e, i, i + 4);
    DigitsAtSlice(s, p + i, 4);
  }

  lemma AadhaarAtLayout(s: string, p: nat, e: nat) returns (g1: nat, g2: nat)
    requires AadhaarAt(s, p) == Some(e)
    ensures AadhaarLayoutAt(s, p, g1, g2) && e == p + 12 + g1 + g2
    ensures WordBoundary(s, p) && WordBoundary(s, e)
  {
    g1 := if SepAt(s, p + 4) then 1 else 0;
    g2 := if SepAt(s, p + 8 + g1) then 1 else 0;
  }

  lemma AadhaarAtFromLayout(s: string, p: nat, g1: nat, g2: nat)
    requires AadhaarLayoutAt(s, p, g1, g2) && WordBoundary(s, p) && WordBoundary(s, p + 12 + g1 + g2)
    ensures AadhaarAt(s, p) == Some(p + 12 + g1 + g2)
  {
    DigitIsNotSep(s[p + 4 + g1]);
    DigitIsNotSep(s[p + 8 + g1 + g2]);
  }

  /** A slice of a slice is a slice of the original. */
  lemma SliceOfSlice(s: string, p: nat, e: nat, a: nat, b: nat)
    requires p <= e <= |s| && a <= b <= e - p
    ensures s[p..e][a..b] == s[p + a..p + b]
  {
    assert forall j | p + a <= j < p + b :: s[p..e][a..b][j - p - a] == s[j];
  }

  /** n digits at i are the same thing as an all-digit slice of length n there. */
  lemma DigitsAtSlice(s: string, i: nat, n: nat)
    requires i + n <= |s|
    ensures DigitsAt(s, i, n) <==> AllDigits(s[i..i + n])
  {
    assert forall j | i <= j < i + n :: s[i..i + n][j - i] == s[j];
  }

  // ---------------------------------------------------------------------
  // PAN: \b([A-Z]{5}\d{4}[A-Z])\b
  // ---------------------------------------------------------------------

  /** The language of `[A-Z]{5}\d{4}[A-Z]`. */
  predicate IsPanText(t: string)
  {
    && |t| == 10
    && (forall k | 0 <= k < 5 :: IsUpper(t[k]))
    && (forall k | 5 <= k < 9 :: IsDigit(t[k]))
    && IsUpper(t[9])
  }

  function PanAt(s: string, p: nat): (r: Option<nat>)
    ensures r.Some? ==> r.value == p + 10 <= |s|
  {
    if WordBoundary(s, p) && p + 10 <= |s| && IsPanText(s[p..p + 10]) && WordBoundary(s, p + 10)
    then Some(p + 10) else None
  }

  // ---------------------------------------------------------------------
  // Phone: \b(\+?91[\s-]?)?([\s-]?\d{5}[\s-]?\d{5}|\d{10})\b
  // ---------------------------------------------------------------------

  /** `\d{5}[\s-]?\d{5}\b` from q. */
  function FiveFive(s: string, q: nat): (r: Option<nat>)
    ensures r.Some? ==> q + 10 <= r.value <= q + 11 && r.value <= |s|
  {
    if !DigitsAt(s, q, 5) then None
    else Or(if SepAt(s, q + 5) && DigitsAt(s, q + 6, 5) && WordBoundary(s, q + 11) then Some(q + 11) else None,
            if DigitsAt(s, q + 5, 5) && WordBoundary(s, q + 10) then Some(q + 10) else None)
  }

  /** `([\s-]?\d{5}[\s-]?\d{5}|\d{10})\b` from q. */
  function LocalNumber(s: string, q: nat): (r: Option<nat>)
    ensures r.Some? ==> q + 10 <= r.value <= q + 12 && r.value <= |s|
  {
    Or(Or(if SepAt(s, q) then FiveFive(s, q + 1) else None, FiveFive(s, q)),
       if DigitsAt(s, q, 10) && WordBoundary(s, q + 10) then Some(q + 10) else None)
  }

  /** The `[\s-]?` that closes the country code, then the local number. */
  function AfterCode(s: string, q: nat): (r: Option<nat>)
    ensures r.Some? ==> q + 10 <= r.value <= q + 13 && r.value <= |s|
  {
    Or(if SepAt(s, q) then LocalNumber(s, q + 1) else None, LocalNumber(s, q))
  }

  /** The whole phone pattern at p: `+91`, then `91`, then no country code. */
  function PhoneAt(s: string, p: nat): (r: Option<nat>)
    ensures r.Some? ==> p + 10 <= r.value <= |s| && r.value <= p + 16
  {
    if !WordBoundary(s, p) then None
    else Or(Or(if HasAt(s, p, "+91") then AfterCode(s, p + 3) else None,
               if HasAt(s, p, "91") then AfterCode(s, p + 2) else None),
            LocalNumber(s, p))
  }

  /** The language of `(\+?91[\s-]?)?`. */
  ghost predicate IsCountryCode(c: string)
  {
    || c == "" || c == "91" || c == "+91"
    || (|c| == 3 && c[..2] == "91" && IsSep(c[2]))
    || (|c| == 4 && c[..3] == "+91" && IsSep(c[3]))
  }

  /** The local-number layout with a (0 or 1) leading and b (0 or 1) middle separators. */
  ghost predicate LocalForm(g: string, a: nat, b: nat)
  {
    && a <= 1 && b <= 1 && |g| == 10 + a + b
    && (a == 1 ==> IsSep(g[0])) && AllDigits(g[a..a + 5])
    && (b == 1 ==> IsSep(g[a + 5])) && AllDigits(g[a + 5 + b..])
  }

  /** The language of `[\s-]?\d{5}[\s-]?\d{5}|\d{10}` (the second alternative is the first without separators). */
  ghost predicate IsLocalNumber(g: string)
  {
    exists a: nat, b: nat :: LocalForm(g, a, b)
  }

  /** The language of the whole phone pattern. */
  ghost predicate IsPhoneText(t: string)
  {
    exists k: nat | k <= |t| :: IsCountryCode(t[..k]) && IsLocalNumber(t[k..])
  }

  /** The local-number layout (a, b separators) placed at position q of s. */
  predicate LocalAt(s: string, q: nat, a: nat, b: nat)
  {
    && a <= 1 && b <= 1
    && (a == 1 ==> SepAt(s, q)) && DigitsAt(s, q + a, 5)
    && (b == 1 ==> SepAt(s, q + a + 5)) && DigitsAt(s, q + a + 5 + b, 5)
  }

  /** A country code of length k placed at position p of s. */
  predicate CodeAt(s: string, p: nat, k: nat)
  {
    || k == 0
    || (k == 2 && HasAt(s, p, "91"))
    || (k == 3 && HasAt(s, p, "+91"))
    || (k == 3 && HasAt(s, p, "91") && SepAt(s, p + 2))
    || (k == 4 && HasAt(s, p, "+91") && SepAt(s, p + 3))
  }

  lemma LocalAtIff(s: string, q: nat, a: nat, b: nat)
    requires a <= 1 && b <= 1 && q + 10 + a + b <= |s|
    ensures LocalAt(s, q, a, b) <==> LocalForm(s[q..q + 10 + a + b], a, b)
  {
    var e := q + 10 + a + b;
    SliceOfSlice(s, q, e, a, a + 5);
    SliceOfSlice(s, q, e, a + 5 + b, 10 + a + b);
    assert s[q..e][a + 5 + b..] == s[q..e][a + 5 + b..10 + a + b];
    DigitsAtSlice(s, q + a, 5);
    DigitsAtSlice(s, q + a + 5 + b, 5);
    assert s[q..e][0] == s[q];
    assert s[q..e][a + 5] == s[q + a + 5];
  }

  lemma CodeAtIff(s: string, p: nat, k: nat)
    requires p + k <= |s|
    ensures CodeAt(s, p, k) <==> IsCountryCode(s[p..p + k])
  {
    var c := s[p..p + k];
    if k >= 2 { SliceOfSlice(s, p, p + k, 0, 2); assert c[..2] == s[p..p + 2]; }
    if k >= 3 { SliceOfSlice(s, p, p + k, 0, 3); assert c[..3] == s[p..p + 3]; }
    if k == 2 { assert c == s[p..p + 2]; }
    if k == 3 { assert c == s[p..p + 3]; assert c[2] == s[p + 2]; }
    if k == 4 { assert c[3] == s[p + 3]; }
    if IsCountryCode(c) {
      if c == "91" { assert k == 2; }
      if c == "+91" { assert k == 3; }
    }
  }

  lemma FiveFiveSound(s: string, q: nat, e: nat) returns (b: nat)
    requires FiveFive(s, q) == Some(e)
    ensures b <= 1 && e == q + 10 + b && WordBoundary(s, e)
    ensures DigitsAt(s, q, 5) && (b == 1 ==> SepAt(s, q + 5)) && DigitsAt(s, q + 5 + b, 5)
  {
    if SepAt(s, q + 5) && DigitsAt(s, q + 6, 5) && WordBoundary(s, q + 11) {
      b := 1;
    } else {
      b := 0;
    }
  }

  /** Whatever the local-number matcher returns has the local-number layout and ends on a word boundary. */
  lemma LocalNumberSound(s: string, q: nat, e: nat) returns (a: nat, b: nat)
    requires LocalNumber(s, q) == Some(e)
    ensures e == q + 10 + a + b && LocalAt(s, q, a, b) && WordBoundary(s, e)
  {
    if SepAt(s, q) && FiveFive(s, q + 1).Some? {
      a := 1;
      b := FiveFiveSound(s, q + 1, e);
    } else if FiveFive(s, q).Some? {
      a := 0;
      b := FiveFiveSound(s, q, e);
    } else {
      a, b := 0, 0;
      assert DigitsAt(s, q, 5) && DigitsAt(s, q + 5, 5);
    }
  }

  lemma LocalNumberComplete(s: string, q: nat, a: nat, b: nat)
    requires q + 10 + a + b <= |s| && LocalAt(s, q, a, b) && WordBoundary(s, q + 10 + a + b)
    ensures LocalNumber(s, q).Some?
  {
    if a == 1 {
      assert FiveFive(s, q + 1).Some?;
    } else {
      assert FiveFive(s, q).Some?;
    }
  }

  /** A phone match from p to e: boundaries at both ends, a country code of length k, then a local number. */
  predicate PhoneSplit(s: string, p: nat, e: nat, k: nat, a: nat, b: nat)
  {
    WordBoundary(s, p) && CodeAt(s, p, k) && LocalAt(s, p + k, a, b) && e == p + k + 10 + a + b && WordBoundary(s, e)
  }

  /** The phone matcher's result split into a country code of length k and a local number. */
  lemma PhoneAtParts(s: string, p: nat, e: nat) returns (k: nat, a: nat, b: nat)
    requires PhoneAt(s, p) == Some(e)
    ensures PhoneSplit(s, p, e, k, a, b)
  {
    var plus := if HasAt(s, p, "+91") then AfterCode(s, p + 3) else None;
    var bare := if HasAt(s, p, "91") then AfterCode(s, p + 2) else None;
    assert PhoneAt(s, p) == Or(Or(plus, bare), LocalNumber(s, p));
    if plus.Some? {
      k, a, b := AfterCodeParts(s, p, 3, e);
    } else if bare.Some? {
      k, a, b := AfterCodeParts(s, p, 2, e);
    } else {
      k, a, b := NoCodeParts(s, p, e);
    }
  }

  /** A country code of length c at p, then what AfterCode finds: an optional separator and a local number. */
  lemma AfterCodeParts(s: string, p: nat, c: nat, e: nat) returns (k: nat, a: nat, b: nat)
    requires WordBoundary(s, p)
    requires (c == 3 && HasAt(s, p, "+91")) || (c == 2 && HasAt(s, p, "91"))
    requires AfterCode(s, p + c) == Some(e)
    ensures PhoneSplit(s, p, e, k, a, b)
  {
    if SepAt(s, p + c) && LocalNumber(s, p + c + 1).Some? {
      k := c + 1;
    } else {
      k := c;
    }
    assert CodeAt(s, p, k);
    assert LocalNumber(s, p + k) == Some(e);
    a, b := LocalNumberSound(s, p + k, e);
  }

  /** No country code: the local number starts at p. */
  lemma NoCodeParts(s: string, p: nat, e: nat) returns (k: nat, a: nat, b: nat)
    requires WordBoundary(s, p) && LocalNumber(s, p) == Some(e)
    ensures PhoneSplit(s, p, e, k, a, b)
  {
    k := 0;
    assert p + k == p;
    a, b := LocalNumberSound(s, p + k, e);
  }

  /** A country code followed by a local number is a word of the phone pattern. */
  lemma PartsArePhoneText(s: string, p: nat, k: nat, a: nat, b: nat, e: nat)
    requires CodeAt(s, p, k) && LocalAt(s, p + k, a, b) && e == p + k + 10 + a + b <= |s|
    ensures IsPhoneText(s[p..e])
  {
    CodeAtIff(s, p, k);
    LocalAtIff(s, p + k, a, b);
    SplitSlice(s, p, p + k, e);
    PhoneTextOfParts(s[p..e], k, a, b);
  }

  /** Cutting the slice s[p..e] at m gives the slices s[p..m] and s[m..e]. */
  lemma SplitSlice(s: string, p: nat, m: nat, e: nat)
    requires p <= m <= e <= |s|
    ensures s[p..e][..m - p] == s[p..m] && s[p..e][m - p..] == s[m..e]
  {
    SliceOfSlice(s, p, e, 0, m - p);
    SliceOfSlice(s, p, e, m - p, e - p);
    assert s[p..e][..m - p] == s[p..e][0..m - p];
    assert s[p..e][m - p..] == s[p..e][m - p..e - p];
  }

  /** A country code followed by a local number of layout (a, b) is a word of the phone pattern. */
  lemma PhoneTextOfParts(t: string, k: nat, a: nat, b: nat)
    requires k <= |t| && IsCountryCode(t[..k]) && LocalForm(t[k..], a, b)
    ensures IsPhoneText(t)
  {
    assert IsLocalNumber(t[k..]);
  }

  /** A word of the phone pattern splits into a country code and a local number. */
  lemma PhoneTextParts(s: string, p: nat, e: nat) returns (k: nat, a: nat, b: nat)
    requires p <= e <= |s| && IsPhoneText(s[p..e])
    ensures CodeAt(s, p, k) && LocalAt(s, p + k, a, b) && e == p + k + 10 + a + b
  {
    var t := s[p..e];
    k :| k <= |t| && IsCountryCode(t[..k]) && IsLocalNumber(t[k..]);
    a, b :| LocalForm(t[k..], a, b);
    CodeFromText(s, p, e, k);
    LocalFromText(s, p, e, k, a, b);
  }

  lemma CodeFromText(s: string, p: nat, e: nat, k: nat)
    requires p <= e <= |s| && k <= e - p && IsCountryCode(s[p..e][..k])
    ensures CodeAt(s, p, k)
  {
    SliceOfSlice(s, p, e, 0, k);
    assert s[p..e][..k] == s[p..p + k];
    CodeAtIff(s, p, k);
  }

  lemma LocalFromText(s: string, p: nat, e: nat, k: nat, a: nat, b: nat)
    requires p <= e <= |s| && k <= e - p && LocalForm(s[p..e][k..], a, b)
    ensures LocalAt(s, p + k, a, b) && e == p + k + 10 + a + b
  {
    SliceOfSlice(s, p, e, k, e - p);
    assert s[p..e][k..] == s[p + k..e];
    LocalAtIff(s, p + k, a, b);
  }

  /** Soundness: every phone match is a word of the phone pattern with a word boundary at both ends. */
  lemma PhoneAtSound(s: string, p: nat, e: nat)
    requires PhoneAt(s, p) == Some(e)
    ensures WordBoundary(s, p) && WordBoundary(s, e) && IsPhoneText(s[p..e])
  {
    var k, a, b := PhoneAtParts(s, p, e);
    PartsArePhoneText(s, p, k, a, b, e);
  }

  /**
   * Completeness: wherever a word of the phone pattern sits between word
   * boundaries, the matcher finds exactly that word. Any other reading of the
   * text at p as a country code and a local number ends at the same place.
   */
  lemma PhoneAtComplete(s: string, p: nat, e: nat)
    requires p <= e <= |s| && WordBoundary(s, p) && WordBoundary(s, e)
    requires IsPhoneText(s[p..e])
    ensures PhoneAt(s, p) == Some(e)
  {
    var k, a, b := PhoneTextParts(s, p, e);
    PhoneAtFromLayout(s, p, k, a, b, e);
    var found := PhoneAt(s, p).value;
    var k2, a2, b2 := PhoneAtParts(s, p, found);
    if k <= k2 {
      PhoneSplitUnique(s, p, e, k, a, b, found, k2, a2, b2);
    } else {
      PhoneSplitUnique(s, p, found, k2, a2, b2, e, k, a, b);
    }
  }

  /**
   * What a local-number layout says about the characters it starts with:
   * each optional separator is taken exactly when a digit is not there.
   */
  lemma LocalShape(s: string, q: nat, a: nat, b: nat)
    requires LocalAt(s, q, a, b)
    ensures IsDigit(s[q]) <==> a == 0
    ensures IsDigit(s[q + a + 5]) <==> b == 0
  {
    if a == 1 { DigitIsNotSep(s[q + 1]); }
    if b == 1 { DigitIsNotSep(s[q + a + 6]); }
  }

  /** At a fixed start, the local-number layout is determined by the text. */
  lemma LocalLayoutUnique(s: string, q: nat, a: nat, b: nat, a2: nat, b2: nat)
    requires LocalAt(s, q, a, b) && LocalAt(s, q, a2, b2)
    ensures a == a2 && b == b2
  {
    LocalShape(s, q, a, b);
    LocalShape(s, q, a2, b2);
  }

  /** The characters a country code of length k puts at p. */
  lemma CodeChars(s: string, p: nat, k: nat)
    requires CodeAt(s, p, k)
    ensures k == 0 || k == 2 || k == 3 || k == 4
    ensures k == 2 ==> s[p] == '9' && s[p + 1] == '1'
    ensures k == 3 ==> (s[p] == '+' && s[p + 1] == '9' && s[p + 2] == '1') || (s[p] == '9' && s[p + 1] == '1' && IsSep(s[p + 2]))
    ensures k == 4 ==> s[p] == '+' && s[p + 1] == '9' && s[p + 2] == '1' && IsSep(s[p + 3])
  {
    if HasAt(s, p, "91") { assert s[p..p + 2][0] == s[p] && s[p..p + 2][1] == s[p + 1]; }
    if HasAt(s, p, "+91") { assert s[p..p + 3][0] == s[p] && s[p..p + 3][1] == s[p + 1] && s[p..p + 3][2] == s[p + 2]; }
  }

  /**
   * Two readings of the text at p as a phone word, the second with the longer
   * country code, end at the same place.
   */
  lemma PhoneSplitUnique(s: string, p: nat, e1: nat, k1: nat, a1: nat, b1: nat, e2: nat, k2: nat, a2: nat, b2: nat)
    requires PhoneSplit(s, p, e1, k1, a1, b1) && PhoneSplit(s, p, e2, k2, a2, b2) && k1 <= k2
    ensures e1 == e2
  {
    CodeChars(s, p, k1);
    CodeChars(s, p, k2);
    LocalShape(s, p + k1, a1, b1);
    LocalShape(s, p + k2, a2, b2);
    if k1 == k2 {
      LocalLayoutUnique(s, p + k1, a1, b1, a2, b2);
    } else if k1 == 2 && k2 == 3 {
      // "91" and a separator: both local numbers have their first digit at p + 3
      LocalLayoutUnique(s, p + 3, 0, b1, 0, b2);
    } else if k1 == 3 && k2 == 4 {
      // "+91" and a separator: both local numbers have their first digit at p + 4
      LocalLayoutUnique(s, p + 4, 0, b1, 0, b2);
    }
    // k1 == 0 and k2 == 2 cannot both hold: ten digits from p and ten from p + 2
    // would put the first reading's end inside a run of digits
  }

  lemma PhoneAtFromLayout(s: string, p: nat, k: nat, a: nat, b: nat, e: nat)
    requires WordBoundary(s, p) && CodeAt(s, p, k) && LocalAt(s, p + k, a, b)
    requires e == p + k + 10 + a + b <= |s| && WordBoundary(s, e)
    ensures PhoneAt(s, p).Some?
  {
    LocalNumberComplete(s, p + k, a, b);
    PhoneAtFromParts(s, p, k);
  }

  /** A country code at p followed by a local number is found by one of the phone matcher's branches. */
  lemma PhoneAtFromParts(s: string, p: nat, k: nat)
    requires WordBoundary(s, p) && CodeAt(s, p, k) && LocalNumber(s, p + k).Some?
    ensures PhoneAt(s, p).Some?
  {
    if k == 3 && HasAt(s, p, "+91") {
      assert AfterCode(s, p + 3).Some?;
    } else if k == 4 {
      assert AfterCode(s, p + 3).Some?;
    } else if k == 2 {
      assert AfterCode(s, p + 2).Some?;
    } else if k == 3 {
      assert AfterCode(s, p + 2).Some?;
    }
  }

  /**
   * A `+` inside a phone match can only be its first character, and only when
   * a word character stands right before it: `\b` cannot sit between a space
   * and a `+`, so after a space the match starts at the `9` of `91`.
   */
  lemma PlusOnlyAfterWordChar(s: string, p: nat, e: nat, i: nat)
    requires PhoneAt(s, p) == Some(e) && p <= i < e && s[i] == '+'
    ensures i == p && 0 < p && IsWordChar(s[p - 1])
  {
    var k, a, b := PhoneAtParts(s, p, e);
    PlusOnlyInCode(s, p, k, a, b, i);
  }

  lemma PlusOnlyInCode(s: string, p: nat, k: nat, a: nat, b: nat, i: nat)
    requires CodeAt(s, p, k) && LocalAt(s, p + k, a, b)
    requires p <= i < p + k + 10 + a + b && s[i] == '+'
    ensures i == p
  {
    if i < p + k {
      assert s[p..p + 2][1] == s[p + 1];
      if HasAt(s, p, "+91") { assert s[p..p + 3][2] == s[p + 2]; }
    }
  }
}
