/** Decimal renderings of whole numbers: Long.toString for the word counts and
    DecimalFormat with the pattern "£#,###.00" for the payroll totals. */
module Decimal {
  import opened Wrappers

  const POUND: char := '\U{00A3}'

  predicate IsDigit(c: char) { '0' <= c <= '9' }

  predicate AllDigits(s: string) {
    forall k :: 0 <= k < |s| ==> IsDigit(s[k])
  }

  function DigitChar(d: int): (c: char)
    requires 0 <= d < 10
    ensures IsDigit(c) && (c as int) - ('0' as int) == d
  {
    (('0' as int) + d) as char
  }

  /** The number a string of decimal digits denotes; the empty string denotes 0. */
  function DigitsValue(s: string): nat
    requires AllDigits(s)
  {
    if s == [] then 0
    else DigitsValue(s[..|s| - 1]) * 10 + ((s[|s| - 1] as int) - ('0' as int))
  }

  function Pow10(n: nat): nat {
    if n == 0 then 1 else 10 * Pow10(n - 1)
  }

  /** The value of two digit strings written one after the other. */
  lemma {:induction false} DigitsValueAppend(a: string, b: string)
    requires AllDigits(a) && AllDigits(b)
    ensures AllDigits(a + b)
    ensures DigitsValue(a + b) == DigitsValue(a) * Pow10(|b|) + DigitsValue(b)
    decreases |b|
  {
    if b == [] {
      assert a + b == a;
    } else {
      var b' := b[..|b| - 1];
      var d := (b[|b| - 1] as int) - ('0' as int);
      assert (a + b)[..|a + b| - 1] == a + b';
      assert (a + b)[|a + b| - 1] == b[|b| - 1];
      DigitsValueAppend(a, b');
      var x, p, y := DigitsValue(a), Pow10(|b'|), DigitsValue(b');
      assert DigitsValue(a + b) == (x * p + y) * 10 + d;
      assert (x * p + y) * 10 == x * (p * 10) + y * 10 by {
        MulDistributes(x * p, y, 10);
        MulAssociates(x, p, 10);
      }
      assert DigitsValue(b) == y * 10 + d;
      assert Pow10(|b|) == p * 10;
    }
  }

  lemma {:induction false} MulDistributes(x: int, y: int, z: int)
    ensures (x + y) * z == x * z + y * z
  {}

  lemma {:induction false} MulAssociates(x: int, y: int, z: int)
    ensures (x * y) * z == x * (y * z)
  {}

  /** Long.toString of a non-negative value: its decimal digits without
      leading zeros ("0" for zero). */
  function NatToString(n: nat): (s: string)
    ensures |s| >= 1 && AllDigits(s)
    ensures s[0] == '0' <==> n == 0
    ensures DigitsValue(s) == n
    ensures n < 10 ==> |s| == 1
    ensures n < 100 ==> |s| <= 2
    ensures n < 1000 ==> |s| <= 3
  {
    if n < 10 then [DigitChar(n)]
    else
      var s := NatToString(n / 10) + [DigitChar(n % 10)];
      assert s[..|s| - 1] == NatToString(n / 10);
      s
  }

  /** The three digits of m, with leading zeros. */
  function Pad3(m: nat): (s: string)
    requires m < 1000
    ensures |s| == 3 && AllDigits(s) && DigitsValue(s) == m
  {
    var q := m / 10;
    assert m == q * 10 + m % 10 && q < 100;
    assert q == q / 10 * 10 + q % 10 && q / 10 < 10;
    ThreeDigitsValue(q / 10, q % 10, m % 10);
    [DigitChar(q / 10), DigitChar(q % 10), DigitChar(m % 10)]
  }

  lemma {:induction false} ThreeDigitsValue(a: nat, b: nat, c: nat)
    requires a < 10 && b < 10 && c < 10
    ensures DigitsValue([DigitChar(a), DigitChar(b), DigitChar(c)]) == (a * 10 + b) * 10 + c
  {
    var s := [DigitChar(a), DigitChar(b), DigitChar(c)];
    assert s[..2][..1] == [s[0]] && s[..2][..1][..0] == [];
    assert DigitsValue(s[..2][..1]) == a;
    assert DigitsValue(s[..2]) == a * 10 + b;
  }

  function RemoveCommas(s: string): (r: string)
    ensures forall k :: 0 <= k < |r| ==> r[k] != ','
  {
    if s == [] then []
    else RemoveCommas(s[..|s| - 1]) + (if s[|s| - 1] == ',' then [] else [s[|s| - 1]])
  }

  lemma {:induction false} RemoveCommasAppend(a: string, b: string)
    ensures RemoveCommas(a + b) == RemoveCommas(a) + RemoveCommas(b)
    decreases |b|
  {
    if b == [] {
      assert a + b == a;
    } else {
      var b' := b[..|b| - 1];
      assert (a + b)[..|a + b| - 1] == a + b';
      RemoveCommasAppend(a, b');
    }
  }

  lemma {:induction false} RemoveCommasOfDigits(s: string)
    requires AllDigits(s)
    ensures RemoveCommas(s) == s
    decreases |s|
  {
    if s != [] {
      RemoveCommasOfDigits(s[..|s| - 1]);
    }
  }

  /** One to three digits, then any number of groups of a comma and three digits. */
  ghost predicate InThrees(s: string)
    decreases |s|
  {
    || (1 <= |s| <= 3 && AllDigits(s))
    || (|s| > 4 && s[|s| - 4] == ',' && AllDigits(s[|s| - 3..]) && InThrees(s[..|s| - 4]))
  }

  /** The integer part that the pattern "#,###" produces for n: no digit at all
      for zero (the pattern asks for no minimum number of integer digits),
      otherwise the digits of n with a comma before every group of three
      counted from the right. */
  function Grouped(n: nat): (s: string)
    ensures s == [] <==> n == 0
    ensures n > 0 ==> InThrees(s) && s[0] != '0'
    ensures AllDigits(RemoveCommas(s)) && DigitsValue(RemoveCommas(s)) == n
  {
    if n == 0 then []
    else if n < 1000 then
      RemoveCommasOfDigits(NatToString(n));
      NatToString(n)
    else
      var high := Grouped(n / 1000);
      var low := Pad3(n % 1000);
      GroupedStep(high, low, n / 1000, n % 1000);
      high + [','] + low
  }

  /** Putting one more group of three digits behind a grouped number. */
  lemma {:induction false} GroupedStep(high: string, low: string, h: nat, l: nat)
    requires h > 0 && l < 1000
    requires InThrees(high) && high[0] != '0'
    requires AllDigits(RemoveCommas(high)) && DigitsValue(RemoveCommas(high)) == h
    requires |low| == 3 && AllDigits(low) && DigitsValue(low) == l
    ensures var s := high + [','] + low;
            && InThrees(s) && s[0] != '0'
            && AllDigits(RemoveCommas(s)) && DigitsValue(RemoveCommas(s)) == h * 1000 + l
  {
    var s := high + [','] + low;
    assert s[..|s| - 4] == high && s[|s| - 3..] == low && s[|s| - 4] == ',';
    assert InThrees(s);
    GroupedStepValue(high, low);
  }

  lemma {:induction false} GroupedStepValue(high: string, low: string)
    requires AllDigits(RemoveCommas(high))
    requires |low| == 3 && AllDigits(low)
    ensures AllDigits(RemoveCommas(high + [','] + low))
    ensures DigitsValue(RemoveCommas(high + [','] + low))
            == DigitsValue(RemoveCommas(high)) * 1000 + DigitsValue(low)
  {
    RemoveCommasAppend(high + [','], low);
    RemoveCommasAppend(high, [',']);
    assert RemoveCommas([',']) == [] by {
      assert [','][..0] == [];
    }
    RemoveCommasOfDigits(low);
    assert RemoveCommas(high + [','] + low) == RemoveCommas(high) + low;
    DigitsValueAppend(RemoveCommas(high), low);
    assert Pow10(3) == 1000;
  }

  /** DecimalFormat("£#,###.00").format(v) for a whole number v, with ',' and
      '.' as the grouping and decimal separators: the sign, the pound sign,
      the grouped integer part and two zero decimals. */
  function FormatPounds(v: int): (s: string)
    ensures ParsePounds(s) == Some(v)
    ensures PoundsLayout(s, v)
  {
    var magnitude := if v < 0 then -v else v;
    var g := Grouped(magnitude);
    ParsePoundsOf(g, v < 0);
    LayoutOf(g, v);
    if v < 0 then "-" + ([POUND] + g + ".00") else [POUND] + g + ".00"
  }

  /** g is how the pattern "#,###" writes n: nothing for zero, otherwise digit
      groups of three separated by commas, with no leading zero, denoting n. */
  ghost predicate GroupedDigits(g: string, n: nat) {
    && (g == [] <==> n == 0)
    && (n > 0 ==> InThrees(g) && g[0] != '0')
    && AllDigits(RemoveCommas(g)) && DigitsValue(RemoveCommas(g)) == n
  }

  /** s is laid out as "£#,###.00" lays out v: a minus sign exactly when v is
      negative, the pound sign, the magnitude grouped in threes, and ".00". */
  ghost predicate PoundsLayout(s: string, v: int) {
    var k := if v < 0 then 1 else 0;
    && |s| >= k + 4
    && (s[0] == '-' <==> v < 0)
    && s[k] == POUND
    && s[|s| - 3..] == ".00"
    && GroupedDigits(s[k + 1..|s| - 3], if v < 0 then -v else v)
  }

  lemma {:induction false} LayoutOf(g: string, v: int)
    requires g == Grouped(if v < 0 then -v else v)
    ensures var body := [POUND] + g + ".00";
            PoundsLayout(if v < 0 then "-" + body else body, v)
  {
    var body := [POUND] + g + ".00";
    assert body[0] == POUND && body[|body| - 3..] == ".00" && body[1..|body| - 3] == g;
    if v < 0 {
      var s := "-" + body;
      assert s[1..] == body;
      assert s[|s| - 3..] == body[|body| - 3..];
      assert s[2..|s| - 3] == body[1..|body| - 3];
    }
  }

  /** The body FormatPounds writes, with or without a sign, parses back. */
  lemma {:induction false} ParsePoundsOf(g: string, negative: bool)
    requires AllDigits(RemoveCommas(g))
    ensures var body := [POUND] + g + ".00";
            var n := DigitsValue(RemoveCommas(g)) as int;
            ParsePounds(if negative then "-" + body else body) == Some(if negative then -n else n)
  {
    var body := [POUND] + g + ".00";
    assert body[0] == POUND && body[|body| - 3..] == ".00" && body[1..|body| - 3] == g;
    if negative {
      assert ("-" + body)[1..] == body;
    }
  }

  /** Reads back what FormatPounds writes: an optional minus sign, the pound
      sign, digits possibly separated by commas, and ".00". */
  function ParsePounds(s: string): Option<int> {
    var negative := |s| > 0 && s[0] == '-';
    var body := if negative then s[1..] else s;
    if |body| >= 4 && body[0] == POUND && body[|body| - 3..] == ".00" then
      var digits := RemoveCommas(body[1..|body| - 3]);
      if AllDigits(digits) then
        Some(if negative then -(DigitsValue(digits) as int) else DigitsValue(digits))
      else None
    else None
  }

  /** The total of the first company in the reference output. */
  lemma FormatPoundsExample()
    ensures FormatPounds(12119153) == [POUND] + "12,119,153.00"
  {
    GroupedExample();
    assert [POUND] + "12,119,153" + ".00" == [POUND] + "12,119,153.00";
  }

  lemma GroupedExample()
    ensures Grouped(12119153) == "12,119,153"
  {
    GroupedPrefixExample();
    Pad3Examples();
    assert 12119153 / 1000 == 12119 && 12119153 % 1000 == 153;
  }

  lemma GroupedPrefixExample()
    ensures Grouped(12119) == "12,119"
  {
    Pad3Examples();
    assert NatToString(1) == "1";
    assert NatToString(12) == "12";
    assert 12119 / 1000 == 12 && 12119 % 1000 == 119;
  }

  lemma Pad3Examples()
    ensures Pad3(119) == "119" && Pad3(153) == "153"
  {
    assert DigitChar(1) == '1' && DigitChar(9) == '9';
    assert DigitChar(5) == '5' && DigitChar(3) == '3';
  }
}
