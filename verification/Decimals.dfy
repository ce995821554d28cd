/** Token amounts as decimal numbers. */
module Decimals {

  /** The number with `n` zeros behind it: `x` times ten to the power `n`. */
  ghost function Scale(x: nat, n: nat): nat { if n == 0 then x else 10 * Scale(x, n - 1) }

  function Digit(d: nat): char
    requires d < 10
  {
    '0' + d as char
  }

  predicate IsDigit(c: char) { '0' <= c <= '9' }

  function Value(c: char): nat
    requires IsDigit(c)
  {
    (c - '0') as nat
  }

  ghost predicate AllDigits(s: string) { forall i | 0 <= i < |s| :: IsDigit(s[i]) }

  /** The digits of a number, padded with zeros on the left to at least `width`. */
  function Padded(amount: nat, width: nat): (s: string)
    requires width > 0
    ensures |s| >= width && AllDigits(s)
    decreases amount, width
  {
    if amount < 10 && width == 1 then [Digit(amount)]
    else Padded(amount / 10, if width > 1 then width - 1 else 1) + [Digit(amount % 10)]
  }

  /** The number that digits stand for. */
  ghost function Parse(s: string): nat
    requires AllDigits(s)
  {
    if s == "" then 0 else Parse(s[..|s| - 1]) * 10 + Value(s[|s| - 1])
  }

  lemma {:induction false} ParsePadded(amount: nat, width: nat)
    requires width > 0
    ensures Parse(Padded(amount, width)) == amount
    decreases amount, width
  {
    var s := Padded(amount, width);
    if amount < 10 && width == 1 {
      assert s[..0] == "";
    } else {
      ParsePadded(amount / 10, if width > 1 then width - 1 else 1);
      assert s[..|s| - 1] == Padded(amount / 10, if width > 1 then width - 1 else 1);
    }
  }

  // ---- Printing ----

  function RealNumberString(amount: nat, decimals: nat): string {
    if decimals > 0 then
      var s := Padded(amount, decimals + 1);
      s[..|s| - decimals] + "." + s[|s| - decimals..]
    else Padded(amount, 1)
  }

  /** The string without the run of `c` at its end. */
  function TrimEnd(s: string, c: char): (r: string)
    ensures r <= s && (r == "" || r[|r| - 1] != c) && forall i | |r| <= i < |s| :: s[i] == c
  {
    if s != "" && s[|s| - 1] == c then TrimEnd(s[..|s| - 1], c) else s
  }

  function RealNumberStringTrimmed(amount: nat, decimals: nat): string {
    var s := RealNumberString(amount, decimals);
    if decimals > 0 then TrimEnd(TrimEnd(s, '0'), '.') else s
  }

  // ---- Reading back ----

  /** Where the point is; the length, if there is none. */
  ghost function PointAt(s: string): (k: nat)
    ensures k <= |s|
  {
    if s == "" || s[0] == '.' then 0 else 1 + PointAt(s[1..])
  }

  lemma {:induction false} PointAfterDigits(digits: string, tail: string)
    requires AllDigits(digits) && (tail == "" || tail[0] == '.')
    ensures PointAt(digits + tail) == |digits|
  {
    if digits == "" {
      assert digits + tail == tail;
    } else {
      PointAfterDigits(digits[1..], tail);
      assert (digits + tail)[1..] == digits[1..] + tail && (digits + tail)[0] == digits[0];
    }
  }

  /** A number with up to `decimals` digits behind the point. */
  ghost predicate IsDecimal(s: string, decimals: nat) {
    var k := PointAt(s);
    && k <= |s| && AllDigits(s[..k])
    && (k < |s| ==> AllDigits(s[k + 1..]) && |s| - k - 1 <= decimals)
  }

  /** The amount that the number stands for, in units of its last decimal. */
  ghost function ReadBack(s: string, decimals: nat): nat
    requires IsDecimal(s, decimals)
  {
    var k := PointAt(s);
    Scale(Parse(s[..k]), decimals) + if k < |s| then Scale(Parse(s[k + 1..]), decimals - (|s| - k - 1)) else 0
  }

  lemma {:induction false} ScaleZero(n: nat)
    ensures Scale(0, n) == 0
  {
    if n > 0 {
      ScaleZero(n - 1);
    }
  }

  lemma {:induction false} ParseJoin(a: string, b: string)
    requires AllDigits(a) && AllDigits(b)
    ensures Parse(a + b) == Scale(Parse(a), |b|) + Parse(b)
  {
    if b == "" {
      assert a + b == a;
    } else {
      var n := |b| - 1;
      ParseJoin(a, b[..n]);
      assert (a + b)[..|a| + n] == a + b[..n];
    }
  }

  lemma {:induction false} ParseZeros(zeros: string)
    requires forall i | 0 <= i < |zeros| :: zeros[i] == '0'
    ensures Parse(zeros) == 0
  {
    if zeros != "" {
      ParseZeros(zeros[..|zeros| - 1]);
    }
  }

  /** The parts of the printed number: what is before the point, and what is behind it. */
  lemma Parts(amount: nat, decimals: nat) returns (whole: string, fraction: string)
    requires decimals > 0
    ensures RealNumberString(amount, decimals) == whole + "." + fraction
    ensures whole != "" && |fraction| == decimals && AllDigits(whole) && AllDigits(fraction)
    ensures Scale(Parse(whole), decimals) + Parse(fraction) == amount
  {
    var s := Padded(amount, decimals + 1);
    whole, fraction := s[..|s| - decimals], s[|s| - decimals..];
    assert s == whole + fraction;
    ParsePadded(amount, decimals + 1);
    ParseJoin(whole, fraction);
  }

  lemma ReadParts(whole: string, fraction: string, decimals: nat)
    requires AllDigits(whole) && AllDigits(fraction) && |fraction| <= decimals
    ensures IsDecimal(whole + "." + fraction, decimals)
    ensures ReadBack(whole + "." + fraction, decimals) == Scale(Parse(whole), decimals) + Scale(Parse(fraction), decimals - |fraction|)
  {
    var s := whole + "." + fraction;
    assert s == whole + ("." + fraction);
    PointAfterDigits(whole, "." + fraction);
    assert s[..|whole|] == whole && s[|whole| + 1..] == fraction;
  }

  lemma ReadWhole(whole: string, decimals: nat)
    requires AllDigits(whole)
    ensures IsDecimal(whole, decimals) && ReadBack(whole, decimals) == Scale(Parse(whole), decimals)
  {
    PointAfterDigits(whole, "");
    assert whole + "" == whole && whole[..|whole|] == whole;
  }

  /** The number printed with all its decimals stands for the amount. */
  lemma PrintedValue(amount: nat, decimals: nat)
    ensures IsDecimal(RealNumberString(amount, decimals), decimals)
    ensures ReadBack(RealNumberString(amount, decimals), decimals) == amount
  {
    if decimals > 0 {
      var whole, fraction := Parts(amount, decimals);
      ReadParts(whole, fraction, decimals);
    } else {
      ParsePadded(amount, 1);
      ReadWhole(Padded(amount, 1), 0);
    }
  }

  ghost function Joined(whole: string, kept: string): string { if kept == "" then whole else whole + "." + kept }

  /** Trimming zeros stops at the point at the latest. */
  lemma TrimZeros(whole: string, fraction: string) returns (kept: string)
    requires AllDigits(whole) && AllDigits(fraction)
    ensures TrimEnd(whole + "." + fraction, '0') == whole + "." + kept
    ensures kept <= fraction && (kept == "" || kept[|kept| - 1] != '0')
    ensures forall i | |kept| <= i < |fraction| :: fraction[i] == '0'
  {
    var s := whole + "." + fraction;
    var t := TrimEnd(s, '0');
    assert s[|whole|] == '.';
    kept := t[|whole| + 1..];
    assert t == whole + "." + kept;
    assert forall i | |kept| <= i < |fraction| :: fraction[i] == s[|whole| + 1 + i];
  }

  lemma TrimPoint(whole: string, kept: string)
    requires AllDigits(whole) && AllDigits(kept)
    ensures TrimEnd(whole + "." + kept, '.') == Joined(whole, kept)
  {
    var t := whole + "." + kept;
    if kept == "" {
      assert t == whole + "." && t[..|whole|] == whole && TrimEnd(whole, '.') == whole;
    } else {
      assert t[|t| - 1] == kept[|kept| - 1];
    }
  }

  /** Trimming takes the zeros at the end of the fraction, and the point if nothing is left behind it. */
  lemma TrimmedParts(amount: nat, decimals: nat, whole: string, fraction: string) returns (kept: string)
    requires decimals > 0 && AllDigits(whole) && AllDigits(fraction)
    requires RealNumberString(amount, decimals) == whole + "." + fraction
    ensures RealNumberStringTrimmed(amount, decimals) == Joined(whole, kept)
    ensures kept <= fraction && (kept == "" || kept[|kept| - 1] != '0')
    ensures forall i | |kept| <= i < |fraction| :: fraction[i] == '0'
  {
    kept := TrimZeros(whole, fraction);
    TrimPoint(whole, kept);
  }

  lemma ZerosScale(fraction: string, kept: string)
    requires AllDigits(fraction) && kept <= fraction && forall i | |kept| <= i < |fraction| :: fraction[i] == '0'
    ensures AllDigits(kept) && Parse(fraction) == Scale(Parse(kept), |fraction| - |kept|)
  {
    var zeros := fraction[|kept|..];
    assert fraction == kept + zeros;
    ParseJoin(kept, zeros);
    ParseZeros(zeros);
  }

  lemma ReadJoined(whole: string, kept: string, decimals: nat)
    requires AllDigits(whole) && AllDigits(kept) && |kept| <= decimals
    ensures IsDecimal(Joined(whole, kept), decimals) && PointAt(Joined(whole, kept)) == |whole|
    ensures ReadBack(Joined(whole, kept), decimals) == Scale(Parse(whole), decimals) + Scale(Parse(kept), decimals - |kept|)
  {
    if kept == "" {
      ReadWhole(whole, decimals);
      ScaleZero(decimals);
      PointAfterDigits(whole, "");
      assert whole + "" == whole;
    } else {
      ReadParts(whole, kept, decimals);
      PointAfterDigits(whole, "." + kept);
      assert whole + "." + kept == whole + ("." + kept);
    }
  }

  lemma ReadTrimmed(whole: string, fraction: string, kept: string, decimals: nat)
    requires AllDigits(whole) && AllDigits(fraction) && |fraction| == decimals && kept <= fraction
    requires forall i | |kept| <= i < |fraction| :: fraction[i] == '0'
    ensures IsDecimal(Joined(whole, kept), decimals)
    ensures ReadBack(Joined(whole, kept), decimals) == Scale(Parse(whole), decimals) + Parse(fraction)
  {
    ZerosScale(fraction, kept);
    ReadJoined(whole, kept, decimals);
  }

  /** The trimmed number stands for the same amount. */
  lemma TrimmedValue(amount: nat, decimals: nat)
    ensures IsDecimal(RealNumberStringTrimmed(amount, decimals), decimals)
    ensures ReadBack(RealNumberStringTrimmed(amount, decimals), decimals) == amount
  {
    if decimals == 0 {
      PrintedValue(amount, decimals);
    } else {
      var whole, fraction := Parts(amount, decimals);
      var kept := TrimmedParts(amount, decimals, whole, fraction);
      ReadTrimmed(whole, fraction, kept, decimals);
    }
  }

  lemma PrefixJoins(whole: string, kept: string, fraction: string)
    requires kept <= fraction
    ensures Joined(whole, kept) <= whole + "." + fraction
  {
    if kept != "" {
      assert fraction == kept + fraction[|kept|..];
      assert whole + "." + fraction == (whole + "." + kept) + fraction[|kept|..];
    } else {
      assert whole + "." + fraction == whole + ("." + fraction);
    }
  }

  lemma PointOfJoined(whole: string, kept: string)
    requires AllDigits(whole)
    ensures PointAt(Joined(whole, kept)) == |whole|
  {
    if kept == "" {
      PointAfterDigits(whole, "");
      assert whole + "" == whole;
    } else {
      PointAfterDigits(whole, "." + kept);
      assert whole + "." + kept == whole + ("." + kept);
    }
  }

  /** Trimming keeps all digits before the point, and leaves neither a zero behind the point nor the
      point at the end. */
  lemma TrimmedShape(amount: nat, decimals: nat)
    ensures var s := RealNumberStringTrimmed(amount, decimals);
            && s <= RealNumberString(amount, decimals) && PointAt(s) == PointAt(RealNumberString(amount, decimals))
            && (PointAt(s) < |s| ==> PointAt(s) < |s| - 1 && s[|s| - 1] != '0')
  {
    if decimals == 0 {
      PointAfterDigits(Padded(amount, 1), "");
      assert Padded(amount, 1) + "" == Padded(amount, 1);
    } else {
      var whole, fraction := Parts(amount, decimals);
      var kept := TrimmedParts(amount, decimals, whole, fraction);
      PrefixJoins(whole, kept, fraction);
      PointOfJoined(whole, kept);
      PointOfJoined(whole, fraction);
    }
  }

  /** No more zeros in front than the width asks for. */
  lemma {:induction false} PaddedLeads(amount: nat, width: nat)
    requires width > 0
    ensures |Padded(amount, width)| > width ==> Padded(amount, width)[0] != '0'
    decreases amount, width
  {
    if amount >= 10 || width > 1 {
      var w := if width > 1 then width - 1 else 1;
      PaddedLeads(amount / 10, w);
      assert Padded(amount, width)[0] == Padded(amount / 10, w)[0];
      if width == 1 && |Padded(amount / 10, 1)| == 1 {
        assert 1 <= amount / 10 < 10;
      }
    }
  }

  /** Before the point there is a single zero, or a number that does not start with one. */
  ghost predicate NoLeadingZero(whole: string) { whole == "0" || (whole != "" && whole[0] != '0') }

  /** Padded to `decimals` and one more digits, a number has its whole part in front. */
  lemma PaddedWhole(amount: nat, decimals: nat)
    ensures var s := Padded(amount, decimals + 1); NoLeadingZero(s[..|s| - decimals])
  {
    var s := Padded(amount, decimals + 1);
    PaddedLeads(amount, decimals + 1);
    var whole := s[..|s| - decimals];
    assert |whole| == 1 ==> whole == [whole[0]];
  }

  lemma PointSplits(whole: string, fraction: string)
    requires AllDigits(whole)
    ensures var s := whole + "." + fraction; s[..PointAt(s)] == whole
  {
    var s := whole + "." + fraction;
    assert s == whole + ("." + fraction);
    PointAfterDigits(whole, "." + fraction);
    assert s[..|whole|] == whole;
  }

  lemma NoPointSplits(whole: string)
    requires AllDigits(whole)
    ensures whole[..PointAt(whole)] == whole
  {
    PointAfterDigits(whole, "");
    assert whole + "" == whole;
  }

  lemma PrintedWhole(amount: nat, decimals: nat)
    ensures var s := RealNumberString(amount, decimals); NoLeadingZero(s[..PointAt(s)])
  {
    PaddedWhole(amount, decimals);
    var s := Padded(amount, decimals + 1);
    if decimals > 0 {
      PointSplits(s[..|s| - decimals], s[|s| - decimals..]);
    } else {
      NoPointSplits(s);
      assert s[..|s|] == s;
    }
  }

  /** With or without its trailing zeros. */
  lemma WholePart(amount: nat, decimals: nat)
    ensures var s := RealNumberString(amount, decimals); NoLeadingZero(s[..PointAt(s)])
    ensures var s := RealNumberStringTrimmed(amount, decimals); NoLeadingZero(s[..PointAt(s)])
  {
    PrintedWhole(amount, decimals);
    TrimmedShape(amount, decimals);
    var full, trimmed := RealNumberString(amount, decimals), RealNumberStringTrimmed(amount, decimals);
    assert trimmed[..PointAt(trimmed)] == full[..PointAt(full)];
  }

  /** Different amounts print differently. */
  lemma TrimmedInjective(a: nat, b: nat, decimals: nat)
    requires RealNumberStringTrimmed(a, decimals) == RealNumberStringTrimmed(b, decimals)
    ensures a == b
  {
    TrimmedValue(a, decimals);
    TrimmedValue(b, decimals);
  }
}
