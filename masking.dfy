/**
 * The three maskers of the redaction service. Each keeps the last four
 * characters of what it is given (after removing separators, for the
 * Aadhaar and phone masks) and replaces the rest with a fixed token.
 */
module Masking {
  import opened Patterns

  /** The string with every `[\s-]` removed, and every `+` too when dropPlus holds. */
  function Cleaned(s: string, dropPlus: bool): (r: string)
    ensures |r| <= |s|
  {
    if s == [] then []
    else (if IsSep(s[0]) || (dropPlus && s[0] == '+') then [] else [s[0]]) + Cleaned(s[1..], dropPlus)
  }

  /** JavaScript's `slice(-4)`: the last four characters, or all of a shorter string. */
  function LastFour(s: string): (r: string)
    ensures |r| == if |s| < 4 then |s| else 4
    ensures r == s[|s| - |r|..]
  {
    if |s| <= 4 then s else s[|s| - 4..]
  }

  /** `includes`: w occurs somewhere in s. */
  predicate Contains(s: string, w: string)
  {
    exists i: nat | i <= |s| :: HasAt(s, i, w)
  }

  /** A string containing w contains w's first character. */
  lemma ContainsHead(s: string, w: string)
    requires |w| > 0 && Contains(s, w)
    ensures w[0] in s
  {
    var i: nat :| i <= |s| && HasAt(s, i, w);
    assert s[i..i + |w|][0] == s[i];
  }

  /** Every character left after the removal comes from the input and is not one that was removed. */
  lemma {:induction false} CleanedChars(s: string, dropPlus: bool)
    ensures forall ch <- Cleaned(s, dropPlus) :: ch in s && !IsSep(ch) && (dropPlus ==> ch != '+')
  {
    if s != [] {
      CleanedChars(s[1..], dropPlus);
      assert forall ch <- s[1..] :: ch in s;
    }
  }

  /** The characters the masks keep come from the input and are neither separators nor, when dropped, `+`. */
  lemma KeptChars(s: string, dropPlus: bool)
    ensures forall ch <- LastFour(Cleaned(s, dropPlus)) :: ch in s && !IsSep(ch) && (dropPlus ==> ch != '+')
  {
    var c := Cleaned(s, dropPlus);
    CleanedChars(s, dropPlus);
    assert forall ch <- LastFour(c) :: ch in c;
  }

  /**
   * The Aadhaar mask: `XXXX XXXX ` and at most four characters of the input
   * (which ones, `KeptChars` says).
   */
  function MaskAadhaar(aadhaar: string): (r: string)
    ensures 10 <= |r| <= 14 && r[..10] == "XXXX XXXX "
  {
    "XXXX XXXX " + LastFour(Cleaned(aadhaar, false))
  }

  /** The PAN mask: `XXXXX` and the input's last four characters (all of a shorter input). */
  function MaskPAN(pan: string): (r: string)
    ensures |r| == 5 + (if |pan| < 4 then |pan| else 4)
    ensures r[..5] == "XXXXX" && r[5..] == pan[|pan| - (|r| - 5)..]
  {
    "XXXXX" + LastFour(pan)
  }

  /**
   * The phone mask: `+91 XXXXX ` when the input contains `+91`, `XXXXX `
   * otherwise, and then at most four characters of the input (which ones,
   * `KeptChars` says).
   */
  function MaskPhone(phone: string): (r: string)
    ensures Contains(phone, "+91") ==> 10 <= |r| <= 14 && r[..10] == "+91 XXXXX "
    ensures !Contains(phone, "+91") ==> 6 <= |r| <= 10 && r[..6] == "XXXXX "
  {
    var head := (if Contains(phone, "+91") then "+91 " else "") + "XXXXX ";
    var tail := LastFour(Cleaned(phone, true));
    assert (head + tail)[..|head|] == head && (head + tail)[|head|..] == tail;
    head + tail
  }

  lemma {:induction false} CleanedAppend(a: string, b: string, dropPlus: bool)
    ensures Cleaned(a + b, dropPlus) == Cleaned(a, dropPlus) + Cleaned(b, dropPlus)
  {
    if a == [] {
      assert a + b == b;
    } else {
      var ab := a + b;
      assert ab[0] == a[0] && ab[1..] == a[1..] + b;
      CleanedAppend(a[1..], b, dropPlus);
      var rest, ra, rb := Cleaned(a[1..] + b, dropPlus), Cleaned(a[1..], dropPlus), Cleaned(b, dropPlus);
      if IsSep(a[0]) || (dropPlus && a[0] == '+') {
        assert Cleaned(ab, dropPlus) == [] + rest == rest;
        assert Cleaned(a, dropPlus) == [] + ra == ra;
      } else {
        assert Cleaned(ab, dropPlus) == [a[0]] + rest;
        assert Cleaned(a, dropPlus) == [a[0]] + ra;
        assert [a[0]] + (ra + rb) == ([a[0]] + ra) + rb;
      }
    }
  }

  lemma {:induction false} CleanedDigits(d: string, dropPlus: bool)
    requires AllDigits(d)
    ensures Cleaned(d, dropPlus) == d
  {
    if d != [] {
      DigitIsNotSep(d[0]);
      CleanedDigits(d[1..], dropPlus);
    }
  }

  /** Removing separators keeps a run of four trailing digits as the last four characters. */
  lemma KeepsTrailingDigits(t: string, dropPlus: bool)
    requires |t| >= 4 && AllDigits(t[|t| - 4..])
    ensures LastFour(Cleaned(t, dropPlus)) == t[|t| - 4..]
  {
    var head, tail := t[..|t| - 4], t[|t| - 4..];
    assert t == head + tail;
    CleanedAppend(head, tail, dropPlus);
    CleanedDigits(tail, dropPlus);
  }

  /** Every Aadhaar number ends in four digits. */
  lemma AadhaarEndsInDigits(t: string)
    requires IsAadhaarText(t)
    ensures |t| >= 12 && AllDigits(t[|t| - 4..])
  {
    var g1: nat, g2: nat :| AadhaarForm(t, g1, g2);
    assert t[|t| - 4..] == t[8 + g1 + g2..];
  }

  /** Every phone number ends in four digits. */
  lemma PhoneEndsInDigits(t: string)
    requires IsPhoneText(t)
    ensures |t| >= 10 && AllDigits(t[|t| - 4..])
  {
    assert t[0..|t|] == t;
    var k, a, b := PhoneTextParts(t, 0, |t|);
    assert forall j | |t| - 4 <= j < |t| :: t[|t| - 4..][j - (|t| - 4)] == t[j];
  }

  /**
   * The Aadhaar mask keeps exactly the last four digits of the number and is
   * always 14 characters in three space-separated groups of four, whatever
   * separators the number was written with.
   */
  lemma AadhaarMaskShape(t: string)
    requires IsAadhaarText(t)
    ensures MaskAadhaar(t) == "XXXX XXXX " + t[|t| - 4..]
    ensures |MaskAadhaar(t)| == 14
    ensures MaskAadhaar(t)[4] == ' ' && MaskAadhaar(t)[9] == ' '
    ensures AllDigits(MaskAadhaar(t)[10..]) && MaskAadhaar(t)[..4] == MaskAadhaar(t)[5..9] == "XXXX"
  {
    AadhaarEndsInDigits(t);
    KeepsTrailingDigits(t, false);
    assert MaskAadhaar(t)[10..] == t[|t| - 4..];
  }

  /** The PAN mask is `XXXXX` and the last four characters: 9 characters for a 10-character PAN. */
  lemma PanMaskShape(t: string)
    requires IsPanText(t)
    ensures MaskPAN(t) == "XXXXX" + t[6..] && |MaskPAN(t)| == 9
  {
  }

  lemma PanMaskExample()
    ensures MaskPAN("ABCDE1234F") == "XXXXX234F"
  {
  }

  /** The phone mask begins with the `+91 ` prefix exactly when the masked text contains `+91`. */
  lemma PhoneMaskPrefix(t: string)
    ensures (|MaskPhone(t)| >= 4 && MaskPhone(t)[..4] == "+91 ") <==> Contains(t, "+91")
  {
    var r := MaskPhone(t);
    if Contains(t, "+91") {
      assert r[..4] == r[..10][..4];
    } else {
      assert r[0] == r[..6][0];
    }
  }

  /** For a phone number the mask is the optional prefix, `XXXXX `, and the number's last four digits. */
  lemma PhoneMaskShape(t: string)
    requires IsPhoneText(t)
    ensures MaskPhone(t) == (if Contains(t, "+91") then "+91 " else "") + "XXXXX " + t[|t| - 4..]
  {
    PhoneEndsInDigits(t);
    KeepsTrailingDigits(t, true);
  }

  /** Without a `+` the phone mask has no prefix: `XXXXX ` and the last four digits. */
  lemma PhoneMaskWithoutPlus(t: string)
    requires '+' !in t && |t| >= 4 && AllDigits(t[|t| - 4..])
    ensures MaskPhone(t) == "XXXXX " + t[|t| - 4..]
  {
    if Contains(t, "+91") { ContainsHead(t, "+91"); }
    KeepsTrailingDigits(t, true);
  }
}
