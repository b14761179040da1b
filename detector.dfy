/**
 * `detectSensitiveData`: the three global-regex scans over the extracted
 * text, the masked entries they produce, and the simulated photo region.
 */
module Detector {
  import opened Wrappers
  import opened Patterns
  import opened Scanner
  import opened Masking
  import opened Schema

  /** The masker applied to a match of each category. */
  function Mask(c: Category, t: string): (r: string)
    ensures 5 <= |r| <= 14
  {
    match c
    case Aadhaar => MaskAadhaar(t)
    case Pan => MaskPAN(t)
    case Phone => MaskPhone(t)
  }

  /** The entry pushed for one match: its text and its mask, without a position. */
  function EntryOf(c: Category, s: string, x: Span): (r: Entry)
    requires x.start <= x.end <= |s|
    ensures r.position.None?
  {
    Entry(s[x.start..x.end], Mask(c, s[x.start..x.end]), None)
  }

  predicate InText(s: string, spans: seq<Span>)
  {
    forall i | 0 <= i < |spans| :: spans[i].start <= spans[i].end <= |s|
  }

  /** The entries for a list of matches, in the same order. */
  function EntriesOf(c: Category, s: string, spans: seq<Span>): (r: seq<Entry>)
    requires InText(s, spans)
    ensures |r| == |spans|
    ensures forall i | 0 <= i < |spans| :: r[i] == EntryOf(c, s, spans[i])
  {
    if spans == [] then [] else
      EntriesOf(c, s, spans[..|spans| - 1]) + [EntryOf(c, s, spans[|spans| - 1])]
  }

  /** What the scan of category c over the text reports. */
  function Found(c: Category, s: string): (r: seq<Entry>)
    ensures |r| <= |s|
  {
    MatchCount(MatcherFor(c, s), |s|, 0);
    EntriesOf(c, s, Matches(MatcherFor(c, s), |s|, 0))
  }

  /** The simulated photo region added for identity documents. */
  const PhotoRegion := Region(Photo, Rect(50, 50, 120, 150))

  /** The detection result for a text. */
  function Detect(text: string): (d: SensitiveDataDetection)
    ensures d.blurredRegions != [] <==> d.aadhaarNumbers != [] || d.panNumbers != []
  {
    var aadhaar := Found(Aadhaar, text);
    var pan := Found(Pan, text);
    var phone := Found(Phone, text);
    SensitiveDataDetection(aadhaar, pan, phone,
      if |aadhaar| > 0 || |pan| > 0 then [PhotoRegion] else [])
  }

  /**
   * One `while ((match = pattern.exec(text)) !== null)` loop pushing masked
   * entries; `pattern` is the category's matcher over the text.
   */
  method ScanEntries(c: Category, text: string, pattern: nat -> Option<nat>) returns (entries: seq<Entry>)
    requires Advances(pattern, |text|)
    ensures entries == EntriesOf(c, text, Matches(pattern, |text|, 0))
  {
    var m := pattern;
    var lastIndex: nat := 0;
    ghost var done: seq<Span> := [];
    entries := [];
    var found := NextMatch(m, |text|, lastIndex);
    while found.Some?
      invariant lastIndex <= |text| && InText(text, done)
      invariant found == NextMatch(m, |text|, lastIndex)
      invariant done + Matches(m, |text|, lastIndex) == Matches(m, |text|, 0)
      invariant entries == EntriesOf(c, text, done)
      decreases |text| - lastIndex
    {
      var x := found.value;
      ScanResumes(m, |text|, lastIndex, done);
      EntriesSnoc(c, text, done, x);
      entries := entries + [EntryOf(c, text, x)];
      done := done + [x];
      lastIndex := x.end;
      found := NextMatch(m, |text|, lastIndex);
    }
    MatchesStep(m, |text|, lastIndex);
  }

  /** `exec` either finds nothing, ending the scan, or finds x and the scan continues after it. */
  lemma MatchesStep(m: nat -> Option<nat>, n: nat, from: nat)
    requires from <= n && Advances(m, n)
    ensures NextMatch(m, n, from).None? ==> Matches(m, n, from) == []
    ensures NextMatch(m, n, from).Some? ==>
      Matches(m, n, from) == [NextMatch(m, n, from).value] + Matches(m, n, NextMatch(m, n, from).value.end)
  {
  }

  /** The scan so far followed by the rest of it is the whole scan, one match further on. */
  lemma ScanResumes(m: nat -> Option<nat>, n: nat, from: nat, done: seq<Span>)
    requires from <= n && Advances(m, n) && NextMatch(m, n, from).Some?
    requires done + Matches(m, n, from) == Matches(m, n, 0)
    ensures var x := NextMatch(m, n, from).value;
      (done + [x]) + Matches(m, n, x.end) == Matches(m, n, 0)
  {
    var x := NextMatch(m, n, from).value;
    MatchesStep(m, n, from);
    assert (done + [x]) + Matches(m, n, x.end) == done + ([x] + Matches(m, n, x.end));
  }

  lemma EntriesSnoc(c: Category, s: string, spans: seq<Span>, x: Span)
    requires InText(s, spans) && x.start <= x.end <= |s|
    ensures InText(s, spans + [x])
    ensures EntriesOf(c, s, spans + [x]) == EntriesOf(c, s, spans) + [EntryOf(c, s, x)]
  {
    assert (spans + [x])[..|spans|] == spans;
  }

  /** The detector: three independent scans, then the photo-region rule. */
  method DetectSensitiveData(text: string) returns (r: SensitiveDataDetection)
    ensures r == Detect(text)
  {
    var aadhaar := ScanEntries(Aadhaar, text, MatcherFor(Aadhaar, text));
    var pan := ScanEntries(Pan, text, MatcherFor(Pan, text));
    var phone := ScanEntries(Phone, text, MatcherFor(Phone, text));
    var regions := [];
    if |aadhaar| > 0 || |pan| > 0 {
      regions := regions + [PhotoRegion];
    }
    r := SensitiveDataDetection(aadhaar, pan, phone, regions);
  }

  /** Every Aadhaar entry is a 12-digit number in the pattern's layout, masked to its last four digits. */
  lemma AadhaarEntries(text: string)
    ensures forall e <- Detect(text).aadhaarNumbers ::
      && IsAadhaarText(e.original) && e.position.None?
      && |e.redacted| == 14 && e.redacted == "XXXX XXXX " + e.original[|e.original| - 4..]
  {
    var found := Found(Aadhaar, text);
    assert Detect(text).aadhaarNumbers == found;
    forall e <- found
      ensures IsAadhaarText(e.original) && e.position.None?
      ensures |e.redacted| == 14 && e.redacted == "XXXX XXXX " + e.original[|e.original| - 4..]
    {
      EntryInLanguage(Aadhaar, text, e);
      AadhaarEntry(e);
    }
  }

  /** One Aadhaar entry, given what `EntryInLanguage` says of it. */
  lemma AadhaarEntry(e: Entry)
    requires InLanguage(Aadhaar, e.original) && e.redacted == Mask(Aadhaar, e.original) && e.position.None?
    ensures IsAadhaarText(e.original) && e.position.None?
    ensures |e.redacted| == 14 && e.redacted == "XXXX XXXX " + e.original[|e.original| - 4..]
  {
    MaskedAadhaar(e.original);
  }

  /** The Aadhaar mask of an Aadhaar word, through the category's masker. */
  lemma MaskedAadhaar(t: string)
    requires IsAadhaarText(t)
    ensures Mask(Aadhaar, t) == "XXXX XXXX " + t[|t| - 4..] && |Mask(Aadhaar, t)| == 14
  {
    AadhaarMaskShape(t);
  }

  /** Every PAN entry is a 10-character PAN, masked to `XXXXX` and its last four characters. */
  lemma PanEntries(text: string)
    ensures forall e <- Detect(text).panNumbers ::
      && IsPanText(e.original) && e.position.None?
      && |e.redacted| == 9 && e.redacted == "XXXXX" + e.original[6..]
  {
    var found := Found(Pan, text);
    assert Detect(text).panNumbers == found;
    forall e <- found
      ensures IsPanText(e.original) && e.position.None?
      ensures |e.redacted| == 9 && e.redacted == "XXXXX" + e.original[6..]
    {
      EntryInLanguage(Pan, text, e);
      PanEntry(e);
    }
  }

  /** One PAN entry, given what `EntryInLanguage` says of it. */
  lemma PanEntry(e: Entry)
    requires InLanguage(Pan, e.original) && e.redacted == Mask(Pan, e.original) && e.position.None?
    ensures IsPanText(e.original) && e.position.None?
    ensures |e.redacted| == 9 && e.redacted == "XXXXX" + e.original[6..]
  {
    var t := e.original;
    assert e.redacted == Mask(Pan, t) == MaskPAN(t);
    PanMaskShape(t);
  }

  /**
   * Every phone entry is a word of the phone pattern; its mask carries the
   * `+91 ` prefix exactly when the matched text contains `+91`, then
   * `XXXXX ` and the last four digits.
   */
  lemma PhoneEntries(text: string)
    ensures forall e <- Detect(text).phoneNumbers ::
      && IsPhoneText(e.original) && e.position.None?
      && e.redacted == (if Contains(e.original, "+91") then "+91 " else "") + "XXXXX " + e.original[|e.original| - 4..]
  {
    var found := Found(Phone, text);
    assert Detect(text).phoneNumbers == found;
    forall e <- found
      ensures IsPhoneText(e.original) && e.position.None?
      ensures e.redacted == (if Contains(e.original, "+91") then "+91 " else "") + "XXXXX " + e.original[|e.original| - 4..]
    {
      EntryInLanguage(Phone, text, e);
      PhoneEntry(e);
    }
  }

  /** One phone entry, given what `EntryInLanguage` says of it. */
  lemma PhoneEntry(e: Entry)
    requires InLanguage(Phone, e.original) && e.redacted == Mask(Phone, e.original) && e.position.None?
    ensures IsPhoneText(e.original) && e.position.None?
    ensures e.redacted == (if Contains(e.original, "+91") then "+91 " else "") + "XXXXX " + e.original[|e.original| - 4..]
  {
    var t := e.original;
    assert e.redacted == Mask(Phone, t) == MaskPhone(t);
    PhoneMaskShape(t);
  }

  lemma EntryInLanguage(c: Category, text: string, e: Entry)
    requires e in Found(c, text)
    ensures InLanguage(c, e.original) && e.redacted == Mask(c, e.original) && e.position.None?
  {
    var ms := Matches(MatcherFor(c, text), |text|, 0);
    var found := Found(c, text);
    assert found == EntriesOf(c, text, ms);
    var i :| 0 <= i < |found| && found[i] == e;
    assert e == EntryOf(c, text, ms[i]);
    ScanMatchSound(c, text, i);
    var t := text[ms[i].start..ms[i].end];
    assert e == Entry(t, Mask(c, t), None);
  }

  /**
   * A `+` in the text is inside a reported phone match only as the match's
   * first character, right after a word character; so a `+91` written after
   * a space is never part of the match and never yields the `+91 ` prefix.
   */
  lemma PlusInPhoneMatch(text: string, i: nat, k: nat)
    requires var ms := Matches(MatcherFor(Phone, text), |text|, 0);
      i < |ms| && ms[i].start <= k < ms[i].end && text[k] == '+'
    ensures var ms := Matches(MatcherFor(Phone, text), |text|, 0);
      k == ms[i].start && 0 < k && IsWordChar(text[k - 1])
  {
    var ms := Matches(MatcherFor(Phone, text), |text|, 0);
    ScanOfText(Phone, text);
    assert Resume(0, ms, i) <= ms[i].start;
    PlusOnlyAfterWordChar(text, ms[i].start, ms[i].end, k);
  }

  /**
   * No match is skipped: wherever a word of a category's pattern stands
   * between word boundaries, a reported match covers its first character,
   * and a match that starts there is exactly that word.
   */
  lemma FoundComplete(c: Category, s: string, p: nat, e: nat)
    requires p <= e <= |s| && WordBoundary(s, p) && WordBoundary(s, e) && InLanguage(c, s[p..e])
    ensures var ms := Matches(MatcherFor(c, s), |s|, 0);
      exists i | 0 <= i < |ms| :: && ms[i].start <= p < ms[i].end
                                  && (ms[i].start == p ==> Found(c, s)[i] == Entry(s[p..e], Mask(c, s[p..e]), None))
  {
    MatchAtComplete(c, s, p, e);
    var i := ScanCovers(MatcherFor(c, s), |s|, 0, p);
  }

  /**
   * The photo region is reported exactly when there is at least one Aadhaar
   * or PAN entry, once; phone entries alone add none.
   */
  lemma BlurRule(text: string)
    ensures var d := Detect(text);
      && (d.blurredRegions != [] <==> d.aadhaarNumbers != [] || d.panNumbers != [])
      && (forall r <- d.blurredRegions :: r == PhotoRegion && r.kind == Photo)
      && |d.blurredRegions| <= 1
  {
  }

  /** A scan whose only match is x, with no match before it and none after it. */
  lemma OnlyMatch(c: Category, s: string, x: Span)
    requires MatchAt(c, s, x.start) == Some(x.end)
    requires forall p: nat | p < x.start :: MatchAt(c, s, p).None?
    requires forall p: nat | x.end <= p <= |s| :: MatchAt(c, s, p).None?
    ensures Found(c, s) == [EntryOf(c, s, x)]
  {
    var m := MatcherFor(c, s);
    forall p: nat | p < x.start ensures m(p).None? {
    }
    forall p: nat | x.end <= p <= |s| ensures m(p).None? {
    }
    SingleMatch(m, |s|, x);
  }

  /** A match needs a word boundary where it starts. */
  lemma NoMatchInsideWord(c: Category, s: string, p: nat)
    requires !WordBoundary(s, p)
    ensures MatchAt(c, s, p).None?
  {
    if MatchAt(c, s, p).Some? {
      MatchAtSound(c, s, p, MatchAt(c, s, p).value);
    }
  }

  /** A phone match starts with `+`, a separator or a digit. */
  lemma NoPhoneAt(s: string, p: nat)
    requires p < |s| && !IsSep(s[p]) && !IsDigit(s[p]) && s[p] != '+'
    ensures PhoneAt(s, p).None?
  {
  }

  /**
   * "Phone: +91 9876543210": the `\b` cannot sit between the space and the
   * `+`, so the phone match is "91 9876543210" and its mask has no `+91 ` prefix.
   */
  lemma PhoneAfterSpace()
    ensures Detect("Phone: +91 9876543210").phoneNumbers == [Entry("91 9876543210", "XXXXX 3210", None)]
  {
    PhoneAfterSpaceScan();
    PhoneAfterSpaceEntry();
  }

  lemma PhoneAfterSpaceEntry()
    ensures EntryOf(Phone, "Phone: +91 9876543210", Span(8, 21)) == Entry("91 9876543210", "XXXXX 3210", None)
  {
    PhoneAfterSpaceText();
    PhoneAfterSpaceMask();
  }

  lemma PhoneAfterSpaceScan()
    ensures Found(Phone, "Phone: +91 9876543210") == [EntryOf(Phone, "Phone: +91 9876543210", Span(8, 21))]
  {
    var s := "Phone: +91 9876543210";
    PhoneAfterSpaceMatch();
    PhoneAfterSpaceNoEarlier();
    OnlyMatch(Phone, s, Span(8, 21));
  }

  lemma PhoneAfterSpaceMatch()
    ensures MatchAt(Phone, "Phone: +91 9876543210", 8) == Some(21)
  {
    var s := "Phone: +91 9876543210";
    assert DigitsAt(s, 11, 5) && DigitsAt(s, 16, 5) && !SepAt(s, 11) && !SepAt(s, 16);
    assert LocalNumber(s, 11) == Some(21);
    assert s[8..11][0] == '9';
    assert HasAt(s, 8, "91") && !HasAt(s, 8, "+91");
  }

  lemma PhoneAfterSpaceNoEarlier()
    ensures forall p: nat | p < 8 :: MatchAt(Phone, "Phone: +91 9876543210", p).None?
  {
    var s := "Phone: +91 9876543210";
    forall p: nat | p < 8 ensures MatchAt(Phone, s, p).None? {
      if p == 0 || p == 5 {
        NoPhoneAt(s, p);
      } else {
        NoMatchInsideWord(Phone, s, p);
      }
    }
  }

  lemma PhoneAfterSpaceText()
    ensures "Phone: +91 9876543210"[8..21] == "91 9876543210"
    ensures "91 9876543210"[9..] == "3210" && '+' !in "91 9876543210" && AllDigits("91 9876543210"[9..])
    ensures "XXXXX " + "3210" == "XXXXX 3210"
  {
    var s, t := "Phone: +91 9876543210", "91 9876543210";
    forall i | 0 <= i < |t| ensures s[8..21][i] == t[i] { }
  }

  lemma PhoneAfterSpaceMask()
    requires '+' !in "91 9876543210" && AllDigits("91 9876543210"[9..])
    ensures MaskPhone("91 9876543210") == "XXXXX " + "91 9876543210"[9..]
  {
    PhoneMaskWithoutPlus("91 9876543210");
  }

  /** An Aadhaar match starts with a digit. */
  lemma NoAadhaarAt(s: string, p: nat)
    requires p < |s| && !IsDigit(s[p])
    ensures AadhaarAt(s, p).None?
  {
  }

  /** A PAN match has upper-case letters in its first five places. */
  lemma NoPanAt(s: string, p: nat, k: nat)
    requires k < 5 && p + k < |s| && !IsUpper(s[p + k])
    ensures PanAt(s, p).None?
  {
    if p + 10 <= |s| {
      assert s[p..p + 10][k] == s[p + k];
    }
  }

  /** "Aadhaar Number: 1234 5678 9012": one Aadhaar entry, masked to "XXXX XXXX 9012". */
  lemma AadhaarScenario()
    ensures Detect("Aadhaar Number: 1234 5678 9012").aadhaarNumbers == [Entry("1234 5678 9012", "XXXX XXXX 9012", None)]
  {
    AadhaarScenarioScan();
    AadhaarScenarioEntry();
  }

  lemma AadhaarScenarioScan()
    ensures Found(Aadhaar, "Aadhaar Number: 1234 5678 9012") == [EntryOf(Aadhaar, "Aadhaar Number: 1234 5678 9012", Span(16, 30))]
  {
    AadhaarScenarioMatch();
    AadhaarScenarioNoEarlier();
    OnlyMatch(Aadhaar, "Aadhaar Number: 1234 5678 9012", Span(16, 30));
  }

  lemma AadhaarScenarioNoEarlier()
    ensures forall p: nat | p < 16 :: MatchAt(Aadhaar, "Aadhaar Number: 1234 5678 9012", p).None?
  {
    var s := "Aadhaar Number: 1234 5678 9012";
    forall p: nat | p < 16 ensures MatchAt(Aadhaar, s, p).None? {
      NoAadhaarAt(s, p);
    }
  }

  lemma AadhaarScenarioMatch()
    ensures MatchAt(Aadhaar, "Aadhaar Number: 1234 5678 9012", 16) == Some(30)
  {
    var s := "Aadhaar Number: 1234 5678 9012";
    assert DigitsAt(s, 16, 4) && SepAt(s, 20) && DigitsAt(s, 21, 4) && SepAt(s, 25) && DigitsAt(s, 26, 4);
  }

  lemma AadhaarScenarioEntry()
    ensures EntryOf(Aadhaar, "Aadhaar Number: 1234 5678 9012", Span(16, 30)) == Entry("1234 5678 9012", "XXXX XXXX 9012", None)
  {
    AadhaarScenarioText();
    AadhaarScenarioMask();
  }

  lemma AadhaarScenarioText()
    ensures "Aadhaar Number: 1234 5678 9012"[16..30] == "1234 5678 9012"
    ensures AllDigits("1234 5678 9012"[10..]) && "XXXX XXXX " + "1234 5678 9012"[10..] == "XXXX XXXX 9012"
  {
  }

  lemma AadhaarScenarioMask()
    requires AllDigits("1234 5678 9012"[10..])
    ensures MaskAadhaar("1234 5678 9012") == "XXXX XXXX " + "1234 5678 9012"[10..]
  {
    KeepsTrailingDigits("1234 5678 9012", false);
  }

  /** "PAN Number: ABCDE1234F": one PAN entry, masked to "XXXXX234F". */
  lemma PanScenario()
    ensures Detect("PAN Number: ABCDE1234F").panNumbers == [Entry("ABCDE1234F", "XXXXX234F", None)]
  {
    PanScenarioScan();
    PanScenarioText();
    PanMaskExample();
  }

  lemma PanScenarioScan()
    ensures Found(Pan, "PAN Number: ABCDE1234F") == [EntryOf(Pan, "PAN Number: ABCDE1234F", Span(12, 22))]
  {
    PanScenarioMatch();
    PanScenarioNoEarlier();
    OnlyMatch(Pan, "PAN Number: ABCDE1234F", Span(12, 22));
  }

  lemma PanScenarioNoEarlier()
    ensures forall p: nat | p < 12 :: MatchAt(Pan, "PAN Number: ABCDE1234F", p).None?
  {
    var s := "PAN Number: ABCDE1234F";
    forall p: nat | p < 12 ensures MatchAt(Pan, s, p).None? {
      if p == 0 {
        NoPanAt(s, p, 3);
      } else if p == 4 {
        NoPanAt(s, p, 1);
      } else if p == 3 || p == 10 || p == 11 {
        NoPanAt(s, p, 0);
      } else {
        NoMatchInsideWord(Pan, s, p);
      }
    }
  }

  lemma PanScenarioMatch()
    ensures MatchAt(Pan, "PAN Number: ABCDE1234F", 12) == Some(22)
  {
    var s := "PAN Number: ABCDE1234F";
    assert s[12..22] == "ABCDE1234F";
  }

  lemma PanScenarioText()
    ensures "PAN Number: ABCDE1234F"[12..22] == "ABCDE1234F"
  {
  }

  /**
   * The scans are independent: in "919876543210" the same twelve digits are
   * both an Aadhaar number and a phone number (country code 91), so they are
   * reported, and masked, in both categories, and the photo region is added.
   */
  lemma SharedDigits()
    ensures var d := Detect("919876543210");
      && d.aadhaarNumbers == [Entry("919876543210", "XXXX XXXX 3210", None)]
      && d.phoneNumbers == [Entry("919876543210", "XXXXX 3210", None)]
      && d.blurredRegions == [PhotoRegion]
  {
    SharedDigitsAadhaar();
    SharedDigitsPhone();
    SharedDigitsEntries();
  }

  lemma SharedDigitsAadhaar()
    ensures Found(Aadhaar, "919876543210") == [EntryOf(Aadhaar, "919876543210", Span(0, 12))]
  {
    SharedDigitsAadhaarMatch();
    OnlyMatch(Aadhaar, "919876543210", Span(0, 12));
  }

  lemma SharedDigitsAadhaarMatch()
    ensures MatchAt(Aadhaar, "919876543210", 0) == Some(12)
  {
    var s := "919876543210";
    assert DigitsAt(s, 0, 4) && DigitsAt(s, 4, 4) && DigitsAt(s, 8, 4) && !SepAt(s, 4) && !SepAt(s, 8);
  }

  lemma SharedDigitsPhone()
    ensures Found(Phone, "919876543210") == [EntryOf(Phone, "919876543210", Span(0, 12))]
  {
    SharedDigitsPhoneMatch();
    OnlyMatch(Phone, "919876543210", Span(0, 12));
  }

  lemma SharedDigitsPhoneMatch()
    ensures MatchAt(Phone, "919876543210", 0) == Some(12)
  {
    var s := "919876543210";
    assert DigitsAt(s, 2, 5) && DigitsAt(s, 7, 5) && !SepAt(s, 2) && !SepAt(s, 7);
    assert s[0..2] == "91";
  }

  lemma SharedDigitsEntries()
    ensures EntryOf(Aadhaar, "919876543210", Span(0, 12)) == Entry("919876543210", "XXXX XXXX 3210", None)
    ensures EntryOf(Phone, "919876543210", Span(0, 12)) == Entry("919876543210", "XXXXX 3210", None)
  {
    SharedDigitsText();
    SharedDigitsAadhaarMask();
    SharedDigitsPhoneMask();
  }

  lemma SharedDigitsText()
    ensures "919876543210"[0..12] == "919876543210"
    ensures AllDigits("919876543210") && '+' !in "919876543210"
    ensures "XXXX XXXX " + "919876543210"[8..] == "XXXX XXXX 3210"
    ensures "XXXXX " + "919876543210"[8..] == "XXXXX 3210"
  {
  }

  lemma SharedDigitsAadhaarMask()
    requires AllDigits("919876543210")
    ensures MaskAadhaar("919876543210") == "XXXX XXXX " + "919876543210"[8..]
  {
    CleanedDigits("919876543210", false);
  }

  lemma SharedDigitsPhoneMask()
    requires AllDigits("919876543210") && '+' !in "919876543210"
    ensures MaskPhone("919876543210") == "XXXXX " + "919876543210"[8..]
  {
    PhoneMaskWithoutPlus("919876543210");
  }
}
