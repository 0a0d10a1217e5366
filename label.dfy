/** Slot labels (core_ai/detector.py, line 88: `f"{W_ID}-{i+1:02d}"`): the wing
    id, a dash, and the 1-based slot number in decimal, zero-padded to at least
    two digits. */
module Label {

  predicate IsDigit(c: char) {
    '0' <= c <= '9'
  }

  predicate AllDigits(s: string) {
    forall k :: 0 <= k < |s| ==> IsDigit(s[k])
  }

  function DigitChar(d: nat): (c: char)
    requires d < 10
    ensures IsDigit(c)
  {
    (48 + d) as char
  }

  function DigitValue(c: char): nat
    requires IsDigit(c)
  {
    c as int - 48
  }

  /** The decimal digits of `n`, without leading zeros. */
  function Decimal(n: nat): (s: string)
    ensures |s| >= 1 && AllDigits(s)
    ensures n < 10 <==> |s| == 1
    ensures n < 100 ==> |s| <= 2
  {
    if n < 10 then [DigitChar(n)] else Decimal(n / 10) + [DigitChar(n % 10)]
  }

  /** The number a string of decimal digits denotes. */
  function DecimalValue(s: string): nat
    requires AllDigits(s)
  {
    if s == [] then 0 else 10 * DecimalValue(s[..|s| - 1]) + DigitValue(s[|s| - 1])
  }

  /** Left-pads `s` with zeros to at least `width` characters. */
  function ZeroPad(s: string, width: nat): (r: string)
    ensures AllDigits(s) ==> AllDigits(r)
    decreases width - |s|
  {
    if |s| >= width then s else ZeroPad("0" + s, width)
  }

  function SlotLabel(wing: string, index: nat): (r: string)
    ensures |r| >= |wing| + 3 && r[..|wing|] == wing && r[|wing|] == '-'
  {
    ZeroPadShape(Decimal(index + 1), 2);
    wing + "-" + ZeroPad(Decimal(index + 1), 2)
  }

  /** The first digit of a number of two or more digits is not zero. */
  lemma {:induction false} NoLeadingZero(n: nat)
    requires n >= 10
    ensures Decimal(n)[0] != '0'
  {
    if n / 10 >= 10 {
      NoLeadingZero(n / 10);
    }
  }

  /** Padding reaches exactly the width when the string is shorter, by
      prepending zeros and keeping `s` as the tail. */
  lemma {:induction false} ZeroPadShape(s: string, width: nat)
    ensures |ZeroPad(s, width)| == if |s| >= width then |s| else width
    ensures ZeroPad(s, width)[|ZeroPad(s, width)| - |s|..] == s
    ensures forall k :: 0 <= k < |ZeroPad(s, width)| - |s| ==> ZeroPad(s, width)[k] == '0'
    decreases width - |s|
  {
    if |s| < width {
      ZeroPadShape("0" + s, width);
      var r := ZeroPad(s, width);
      assert r[|r| - |s|..] == r[|r| - |s| - 1..][1..];
    }
  }

  /** Reading back the digits of `n` gives `n`. */
  lemma {:induction false} DecimalRoundTrip(n: nat)
    ensures DecimalValue(Decimal(n)) == n
  {
    if n >= 10 {
      DecimalRoundTrip(n / 10);
      var s := Decimal(n);
      assert s[..|s| - 1] == Decimal(n / 10);
    }
  }

  /** A leading zero does not change the value of a digit string. */
  lemma {:induction false} LeadingZero(s: string)
    requires AllDigits(s)
    ensures DecimalValue("0" + s) == DecimalValue(s)
    decreases |s|
  {
    if s != [] {
      var t := s[..|s| - 1];
      assert ("0" + s)[..|"0" + s| - 1] == "0" + t;
      LeadingZero(t);
    }
  }

  /** Padding keeps the value. */
  lemma {:induction false} ZeroPadKeepsValue(s: string, width: nat)
    requires AllDigits(s)
    ensures DecimalValue(ZeroPad(s, width)) == DecimalValue(s)
    decreases width - |s|
  {
    if |s| < width {
      LeadingZero(s);
      ZeroPadKeepsValue("0" + s, width);
    }
  }

  /** A label is the wing id, a dash, then at least two digits that denote
      `index + 1`: exactly two while `index + 1 < 100`, and otherwise the
      digits of `index + 1` without a leading zero. */
  lemma SlotLabelShape(wing: string, index: nat)
    ensures var suffix := SlotLabel(wing, index)[|wing| + 1..];
      SlotLabel(wing, index)[..|wing| + 1] == wing + "-"
      && |suffix| >= 2 && AllDigits(suffix) && DecimalValue(suffix) == index + 1
      && |suffix| == (if index + 1 < 100 then 2 else |Decimal(index + 1)|)
      && (index + 1 >= 10 ==> suffix[0] != '0')
  {
    var digits := ZeroPad(Decimal(index + 1), 2);
    assert SlotLabel(wing, index)[|wing| + 1..] == digits;
    assert SlotLabel(wing, index)[..|wing| + 1] == wing + "-";
    DecimalRoundTrip(index + 1);
    ZeroPadKeepsValue(Decimal(index + 1), 2);
    ZeroPadShape(Decimal(index + 1), 2);
    if index + 1 >= 10 {
      NoLeadingZero(index + 1);
      assert digits == Decimal(index + 1);
    }
  }

  /** Distinct slots of a wing get distinct labels. */
  lemma SlotLabelInjective(wing: string, i: nat, j: nat)
    requires SlotLabel(wing, i) == SlotLabel(wing, j)
    ensures i == j
  {
    SlotLabelShape(wing, i);
    SlotLabelShape(wing, j);
  }

  /** Labels of the first and the twelfth slot of wing W1. */
  lemma SlotLabelExamples()
    ensures SlotLabel("W1", 0) == "W1-01"
    ensures SlotLabel("W1", 11) == "W1-12"
  {
    assert Decimal(1) == "1";
    assert ZeroPad("1", 2) == ZeroPad("01", 2) == "01";
    assert Decimal(12) == Decimal(1) + [DigitChar(2)] == "12";
    assert ZeroPad("12", 2) == "12";
  }
}
