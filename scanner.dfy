/**
 * The `while ((match = pattern.exec(text)) !== null)` scans of the detector:
 * a global regular expression resumes at lastIndex, takes the leftmost
 * position where its pattern matches, and continues after that match.
 */
module Scanner {
  import opened Wrappers
  import opened Patterns

  /** The three detection categories. */
  datatype Category = Aadhaar | Pan | Phone

  /** Where the category's pattern, tried at position p, ends its match. */
  function MatchAt(c: Category, s: string, p: nat): (r: Option<nat>)
    ensures r.Some? ==> p < r.value <= |s|
  {
    match c
    case Aadhaar => AadhaarAt(s, p)
    case Pan => PanAt(s, p)
    case Phone => PhoneAt(s, p)
  }

  /** The language of the category's pattern, without its word boundaries. */
  ghost predicate InLanguage(c: Category, t: string)
  {
    match c
    case Aadhaar => IsAadhaarText(t)
    case Pan => IsPanText(t)
    case Phone => IsPhoneText(t)
  }

  /** Every match is a word of its pattern with a word boundary at both ends. */
  lemma MatchAtSound(c: Category, s: string, p: nat, e: nat)
    requires MatchAt(c, s, p) == Some(e)
    ensures WordBoundary(s, p) && WordBoundary(s, e) && InLanguage(c, s[p..e])
  {
    match c
    case Aadhaar => AadhaarAtSound(s, p, e);
    case Pan =>
    case Phone => PhoneAtSound(s, p, e);
  }

  /**
   * Wherever a word of the pattern sits between word boundaries the matcher
   * reports exactly that word.
   */
  lemma MatchAtComplete(c: Category, s: string, p: nat, e: nat)
    requires p <= e <= |s| && WordBoundary(s, p) && WordBoundary(s, e)
    requires InLanguage(c, s[p..e])
    ensures MatchAt(c, s, p) == Some(e)
  {
    match c
    case Aadhaar => AadhaarAtComplete(s, p, e);
    case Pan =>
    case Phone => PhoneAtComplete(s, p, e);
  }

  /** The matcher of category c over text s, as the scan sees it: a start position to a match end. */
  function MatcherFor(c: Category, s: string): (m: nat -> Option<nat>)
    ensures Advances(m, |s|)
  {
    p => MatchAt(c, s, p)
  }

  /** The half-open range [start, end) of one match. */
  datatype Span = Span(start: nat, end: nat)

  /** A matcher over a text of length n: every match it reports is non-empty and inside the text. */
  ghost predicate Advances(m: nat -> Option<nat>, n: nat)
  {
    forall p: nat | p <= n && m(p).Some? :: p < m(p).value <= n
  }

  /** One `exec` call from lastIndex `from`: the leftmost match at or after it. */
  function NextMatch(m: nat -> Option<nat>, n: nat, from: nat): (r: Option<Span>)
    requires from <= n && Advances(m, n)
    ensures r.Some? ==> from <= r.value.start < r.value.end <= n
    ensures r.Some? ==> m(r.value.start) == Some(r.value.end)
    ensures r.Some? ==> forall p: nat | from <= p < r.value.start :: m(p).None?
    ensures r.None? ==> forall p: nat | from <= p <= n :: m(p).None?
    decreases n - from
  {
    match m(from)
    case Some(e) => Some(Span(from, e))
    case None => if from == n then None else NextMatch(m, n, from + 1)
  }

  /** All the matches `exec` reports from lastIndex `from` on until it returns null. */
  function Matches(m: nat -> Option<nat>, n: nat, from: nat): (r: seq<Span>)
    requires from <= n && Advances(m, n)
    ensures forall i | 0 <= i < |r| :: from <= r[i].start < r[i].end <= n
    decreases n - from
  {
    match NextMatch(m, n, from)
    case None => []
    case Some(x) => [x] + Matches(m, n, x.end)
  }

  /** Every match takes at least one character, so a scan reports at most one match per character. */
  lemma {:induction false} MatchCount(m: nat -> Option<nat>, n: nat, from: nat)
    requires from <= n && Advances(m, n)
    ensures |Matches(m, n, from)| <= n - from
    decreases n - from
  {
    match NextMatch(m, n, from)
    case None =>
    case Some(x) => MatchCount(m, n, x.end);
  }

  /** Where the scan resumes before looking for the i-th match. */
  function Resume(from: nat, spans: seq<Span>, i: nat): nat
    requires i <= |spans|
  {
    if i == 0 then from else spans[i - 1].end
  }

  /**
   * The matches a left-to-right, leftmost-first, non-overlapping scan from
   * `from` reports: each is a match starting at or after the point where the
   * previous one ended, no position skipped on the way starts a match, and
   * no position after the last one does.
   */
  ghost predicate LeftmostScan(m: nat -> Option<nat>, n: nat, from: nat, spans: seq<Span>)
  {
    && (forall i {:trigger Resume(from, spans, i)} | 0 <= i < |spans| ::
          Resume(from, spans, i) <= spans[i].start <= n && m(spans[i].start) == Some(spans[i].end))
    && (forall i, p: nat {:trigger Resume(from, spans, i), m(p)} |
          0 <= i < |spans| && Resume(from, spans, i) <= p < spans[i].start :: m(p).None?)
    && (forall p: nat | Resume(from, spans, |spans|) <= p <= n :: m(p).None?)
  }

  /** The scan the detector runs is exactly the leftmost-first scan, and there is only one such scan. */
  lemma {:induction false} MatchesIsLeftmostScan(m: nat -> Option<nat>, n: nat, from: nat, spans: seq<Span>)
    requires from <= n && Advances(m, n)
    ensures LeftmostScan(m, n, from, spans) <==> spans == Matches(m, n, from)
    decreases n - from
  {
    if spans == Matches(m, n, from) {
      match NextMatch(m, n, from)
      case None =>
      case Some(x) =>
        MatchesIsLeftmostScan(m, n, x.end, spans[1..]);
        ShiftScan(m, n, from, spans);
    }
    if LeftmostScan(m, n, from, spans) {
      if spans == [] {
        assert Resume(from, spans, 0) == from;
      } else {
        var x := spans[0];
        assert Resume(from, spans, 0) == from;
        FirstMatchIsNext(m, n, from, x);
        ShiftScan(m, n, from, spans);
        MatchesIsLeftmostScan(m, n, x.end, spans[1..]);
      }
    }
  }

  /** A match at or after `from` with none before it is what `exec` returns. */
  lemma FirstMatchIsNext(m: nat -> Option<nat>, n: nat, from: nat, x: Span)
    requires Advances(m, n) && from <= x.start <= n && m(x.start) == Some(x.end)
    requires forall p: nat | from <= p < x.start :: m(p).None?
    ensures NextMatch(m, n, from) == Some(x)
  {
  }

  /** A scan from `from` that starts with match x is x followed by a scan from x.end. */
  lemma ShiftScan(m: nat -> Option<nat>, n: nat, from: nat, spans: seq<Span>)
    requires from <= n && Advances(m, n) && spans != [] && NextMatch(m, n, from) == Some(spans[0])
    ensures LeftmostScan(m, n, from, spans) <==> LeftmostScan(m, n, spans[0].end, spans[1..])
  {
    if LeftmostScan(m, n, from, spans) {
      ShiftScanTail(m, n, from, spans);
    }
    if LeftmostScan(m, n, spans[0].end, spans[1..]) {
      ShiftScanCons(m, n, from, spans);
    }
  }

  lemma ShiftScanTail(m: nat -> Option<nat>, n: nat, from: nat, spans: seq<Span>)
    requires spans != [] && LeftmostScan(m, n, from, spans)
    ensures LeftmostScan(m, n, spans[0].end, spans[1..])
  {
    var rest := spans[1..];
    forall i | 0 <= i < |rest|
      ensures Resume(spans[0].end, rest, i) <= rest[i].start <= n && m(rest[i].start) == Some(rest[i].end)
    {
      assert rest[i] == spans[i + 1] && Resume(spans[0].end, rest, i) == Resume(from, spans, i + 1);
    }
    forall i, p: nat | 0 <= i < |rest| && Resume(spans[0].end, rest, i) <= p < rest[i].start
      ensures m(p).None?
    {
      assert rest[i] == spans[i + 1] && Resume(spans[0].end, rest, i) == Resume(from, spans, i + 1);
    }
    assert Resume(from, spans, |spans|) == Resume(spans[0].end, rest, |rest|);
  }

  lemma ShiftScanCons(m: nat -> Option<nat>, n: nat, from: nat, spans: seq<Span>)
    requires from <= n && Advances(m, n) && spans != [] && NextMatch(m, n, from) == Some(spans[0])
    requires LeftmostScan(m, n, spans[0].end, spans[1..])
    ensures LeftmostScan(m, n, from, spans)
  {
    var rest := spans[1..];
    forall i | 0 <= i < |spans|
      ensures Resume(from, spans, i) <= spans[i].start <= n && m(spans[i].start) == Some(spans[i].end)
    {
      if i > 0 {
        ResumeTail(from, spans, i);
        assert Resume(spans[0].end, rest, i - 1) <= rest[i - 1].start;
      }
    }
    forall i, p: nat | 0 <= i < |spans| && Resume(from, spans, i) <= p < spans[i].start
      ensures m(p).None?
    {
      if i > 0 {
        ResumeTail(from, spans, i);
        assert Resume(spans[0].end, rest, i - 1) <= p < rest[i - 1].start;
      }
    }
    ResumeTail(from, spans, |spans|);
  }

  /** Past the first match, the scan from `from` resumes where the scan of the rest does. */
  lemma ResumeTail(from: nat, spans: seq<Span>, i: nat)
    requires 0 < i <= |spans|
    ensures Resume(from, spans, i) == Resume(spans[0].end, spans[1..], i - 1)
    ensures i < |spans| ==> spans[i] == spans[1..][i - 1]
  {
  }

  /** Matches of a leftmost scan come in text order and never overlap. */
  lemma {:induction false} ScanOrdered(m: nat -> Option<nat>, n: nat, from: nat, spans: seq<Span>, i: nat, j: nat)
    requires Advances(m, n) && LeftmostScan(m, n, from, spans) && i < j < |spans|
    ensures spans[i].start < spans[i].end <= spans[j].start
    decreases j - i
  {
    assert Resume(from, spans, j) == spans[j - 1].end;
    assert Resume(from, spans, i) <= spans[i].start;
    if i + 1 < j {
      ScanOrdered(m, n, from, spans, i, j - 1);
      assert Resume(from, spans, j - 1) <= spans[j - 1].start;
    }
  }

  /**
   * The scan of category c over s: matches in bounds, non-empty, of the
   * category's language with word boundaries at both ends, in text order
   * without overlap, and no match starting in any gap the scan skipped.
   */
  lemma ScanOfText(c: Category, s: string)
    ensures var ms := Matches(MatcherFor(c, s), |s|, 0);
      && LeftmostScan(MatcherFor(c, s), |s|, 0, ms)
      && (forall i | 0 <= i < |ms| ::
            && ms[i].start < ms[i].end <= |s|
            && WordBoundary(s, ms[i].start) && WordBoundary(s, ms[i].end)
            && InLanguage(c, s[ms[i].start..ms[i].end]))
      && (forall i, j | 0 <= i < j < |ms| :: ms[i].end <= ms[j].start)
  {
    var m := MatcherFor(c, s);
    var ms := Matches(m, |s|, 0);
    MatchesIsLeftmostScan(m, |s|, 0, ms);
    forall i | 0 <= i < |ms|
      ensures WordBoundary(s, ms[i].start) && WordBoundary(s, ms[i].end) && InLanguage(c, s[ms[i].start..ms[i].end])
    {
      ScanMatchSound(c, s, i);
    }
    forall i, j | 0 <= i < j < |ms|
      ensures ms[i].end <= ms[j].start
    {
      ScanOrdered(m, |s|, 0, ms, i, j);
    }
  }

  /** The i-th match of the scan is a word of the category's language between word boundaries. */
  lemma ScanMatchSound(c: Category, s: string, i: nat)
    requires i < |Matches(MatcherFor(c, s), |s|, 0)|
    ensures var x := Matches(MatcherFor(c, s), |s|, 0)[i];
      && x.start < x.end <= |s|
      && WordBoundary(s, x.start) && WordBoundary(s, x.end) && InLanguage(c, s[x.start..x.end])
  {
    var m := MatcherFor(c, s);
    var ms := Matches(m, |s|, 0);
    MatchesIsLeftmostScan(m, |s|, 0, ms);
    assert Resume(0, ms, i) <= ms[i].start;
    MatchAtSound(c, s, ms[i].start, ms[i].end);
  }

  /**
   * `exec` never skips a match: every position where the pattern matches
   * lies inside one of the reported matches.
   */
  lemma {:induction false} ScanCovers(m: nat -> Option<nat>, n: nat, from: nat, p: nat) returns (i: nat)
    requires from <= p <= n && Advances(m, n) && m(p).Some?
    ensures var ms := Matches(m, n, from);
      && i < |ms| && ms[i].start <= p < ms[i].end && m(ms[i].start) == Some(ms[i].end)
    decreases n - from
  {
    var x := NextMatch(m, n, from).value;
    if p < x.end {
      i := 0;
    } else {
      var j := ScanCovers(m, n, x.end, p);
      i := j + 1;
    }
  }

  /** A scan with exactly one match x: none before it, none from its end on. */
  lemma SingleMatch(m: nat -> Option<nat>, n: nat, x: Span)
    requires Advances(m, n) && x.start <= n && m(x.start) == Some(x.end)
    requires forall p: nat | p < x.start :: m(p).None?
    requires forall p: nat | x.end <= p <= n :: m(p).None?
    ensures Matches(m, n, 0) == [x]
  {
    assert Resume(0, [x], 0) == 0 && Resume(0, [x], 1) == x.end;
    MatchesIsLeftmostScan(m, n, 0, [x]);
  }
}
