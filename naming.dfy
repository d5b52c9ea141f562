/**
 * What the renderer computes from a (year, month) pair: the time index it
 * reads (code/plot_tempanomaly.py, lines 16 and 25), the `"%d-%02d"` title and
 * `"%d-%02d.png"` file name (lines 26 and 29) and the progress line (line 23).
 * Decimal formatting is written out digit by digit, with a parser that reads
 * the text back, so that distinct pairs are shown to give distinct names.
 */
module Naming {
  import opened Outcomes

  /**
   * One image of the run: a calendar year and a month numbered 1..12, as it
   * is printed and named; the time index takes the 0-based offset
   * `month - 1` instead.
   */
  datatype Frame = Frame(year: int, month: int)

  // ---------------------------------------------------------------------------
  // Time index

  /**
   * Time index read for `year` and the 0-based month offset `month0`: the
   * variable holds one slice per month, January 2000 first.
   */
  function TimeIndex(year: int, month0: int): int
  {
    (year - 2000) * 12 + month0
  }

  /** The months of 2000 to 2023 are exactly the time indices 0..287. */
  lemma TimeIndexBounds(year: int, month0: int)
    requires 0 <= month0 < 12
    ensures 0 <= TimeIndex(year, month0) < 288 <==> 2000 <= year < 2024
  {
  }

  /** The calendar year that a time index stands for. */
  function YearOf(t: int): int
  {
    2000 + t / 12
  }

  /** The 0-based month offset that a time index stands for. */
  function MonthOf(t: int): int
  {
    t % 12
  }

  /** Every time index is the index of exactly one (year, month) pair: YearOf and MonthOf recover it. */
  lemma TimeIndexRoundTrip(year: int, month0: int)
    requires 0 <= month0 < 12
    ensures YearOf(TimeIndex(year, month0)) == year
    ensures MonthOf(TimeIndex(year, month0)) == month0
  {
    var q := year - 2000;
    var t := TimeIndex(year, month0);
    assert t == 12 * q + month0;
    assert t == 12 * (t / 12) + t % 12 && 0 <= t % 12 < 12;
    assert t / 12 == q;
  }

  /** ... and conversely every integer is the time index of the pair it stands for. */
  lemma TimeIndexOnto(t: int)
    ensures 0 <= MonthOf(t) < 12
    ensures TimeIndex(YearOf(t), MonthOf(t)) == t
  {
  }

  /** Distinct (year, month) pairs read distinct time indices. */
  lemma TimeIndexInjective(y1: int, m1: int, y2: int, m2: int)
    requires 0 <= m1 < 12 && 0 <= m2 < 12
    requires TimeIndex(y1, m1) == TimeIndex(y2, m2)
    ensures y1 == y2 && m1 == m2
  {
    TimeIndexRoundTrip(y1, m1);
    TimeIndexRoundTrip(y2, m2);
  }

  // ---------------------------------------------------------------------------
  // Decimal text

  predicate IsDigit(c: char)
  {
    '0' <= c <= '9'
  }

  predicate AllDigits(s: string)
  {
    forall i :: 0 <= i < |s| ==> IsDigit(s[i])
  }

  function Digit(d: nat): (c: char)
    requires d < 10
    ensures IsDigit(c)
  {
    ('0' as int + d) as char
  }

  function DigitValue(c: char): (d: nat)
    requires IsDigit(c)
    ensures d < 10 && Digit(d) == c
  {
    c as int - '0' as int
  }

  /** `"%d"` of a non-negative integer: its decimal digits, with no leading zero. */
  function NatText(n: nat): (r: string)
    ensures |r| >= 1 && AllDigits(r)
    ensures r[0] == '0' ==> n == 0
    decreases n
  {
    if n < 10 then [Digit(n)] else NatText(n / 10) + [Digit(n % 10)]
  }

  /** The value of a string of decimal digits (the empty string reads as 0). */
  function ParseNat(s: string): nat
    requires AllDigits(s)
    decreases |s|
  {
    if s == [] then 0 else ParseNat(s[..|s| - 1]) * 10 + DigitValue(s[|s| - 1])
  }

  /** Reading back the digits of `n` gives `n`. */
  lemma {:induction false} NatTextRoundTrip(n: nat)
    ensures ParseNat(NatText(n)) == n
    decreases n
  {
    var s := NatText(n);
    if n < 10 {
      assert s[..|s| - 1] == [];
    } else {
      NatTextRoundTrip(n / 10);
      assert s[..|s| - 1] == NatText(n / 10);
      assert DigitValue(s[|s| - 1]) == n % 10;
    }
  }

  /** Text that `"%d"` can produce: digits, optionally after a minus sign. */
  predicate IsIntText(s: string)
  {
    (|s| >= 1 && AllDigits(s)) || (|s| >= 2 && s[0] == '-' && AllDigits(s[1..]))
  }

  function ParseInt(s: string): int
    requires IsIntText(s)
  {
    if AllDigits(s) then ParseNat(s) else -(ParseNat(s[1..]) as int)
  }

  /** `"%d"` of any integer: a minus sign before the digits of a negative one. */
  function IntText(i: int): (r: string)
    ensures IsIntText(r)
    ensures r[0] == '-' <==> i < 0
  {
    if i < 0 then "-" + NatText(-i) else NatText(i)
  }

  lemma IntTextRoundTrip(i: int)
    ensures ParseInt(IntText(i)) == i
  {
    if i < 0 {
      var s := IntText(i);
      assert !IsDigit(s[0]);
      assert s[1..] == NatText(-i);
      NatTextRoundTrip(-i);
    } else {
      NatTextRoundTrip(i);
    }
  }

  /** `"%02d"`: at least two characters, a non-negative value below 10 gets a leading zero. */
  function Pad2(m: int): (r: string)
    ensures |r| >= 2 && IsIntText(r)
    ensures 0 <= m < 10 ==> r[0] == '0'
  {
    if 0 <= m < 10 then ['0'] + NatText(m) else IntText(m)
  }

  /**
   * The padded text of a month is exactly two digits for 0..99 and reads back
   * as the month.
   */
  lemma Pad2RoundTrip(m: int)
    requires 0 <= m < 100
    ensures |Pad2(m)| == 2 && AllDigits(Pad2(m))
    ensures IsIntText(Pad2(m)) && ParseInt(Pad2(m)) == m
  {
    var s := Pad2(m);
    if m < 10 {
      assert s == ['0', Digit(m)];
      assert s[..1] == ['0'] && s[..1][..0] == [];
      assert ParseNat(s[..1]) == 0;
      assert ParseNat(s) == m;
    } else {
      assert NatText(m) == NatText(m / 10) + [Digit(m % 10)];
      assert m / 10 < 10;
      NatTextRoundTrip(m);
    }
  }

  // ---------------------------------------------------------------------------
  // Titles, file names, progress lines

  /** Plot title `"%d-%02d" % (year, month)`. */
  function Title(year: int, month: int): string
  {
    IntText(year) + "-" + Pad2(month)
  }

  /** Saved file name `"%d-%02d.png" % (year, month)`. */
  function FileName(year: int, month: int): string
  {
    IntText(year) + "-" + Pad2(month) + ".png"
  }

  /** Progress line `print(year, "-", month, sep="")`, with the newline print adds. */
  function ProgressLine(year: int, month: int): string
  {
    IntText(year) + "-" + IntText(month) + "\n"
  }

  /** Every title is its file name without the `.png` suffix. */
  lemma TitleIsFileStem(year: int, month: int)
    ensures FileName(year, month) == Title(year, month) + ".png"
  {
  }

  /**
   * Reads a file name of the shape `<year>-<two characters>.png` back into the
   * pair it names; `None` for any other text.
   */
  function ParseFileName(s: string): Option<Frame>
  {
    if |s| >= 8 && s[|s| - 4..] == ".png" && s[|s| - 7] == '-'
       && IsIntText(s[..|s| - 7]) && IsIntText(s[|s| - 6..|s| - 4])
    then Some(Frame(ParseInt(s[..|s| - 7]), ParseInt(s[|s| - 6..|s| - 4])))
    else None
  }

  /** A file name with a two-digit month reads back as its (year, month). */
  lemma FileNameRoundTrip(year: int, month: int)
    requires 0 <= month < 100
    ensures ParseFileName(FileName(year, month)) == Some(Frame(year, month))
  {
    var y, p := IntText(year), Pad2(month);
    var s := FileName(year, month);
    Pad2RoundTrip(month);
    IntTextRoundTrip(year);
    assert s == y + ("-" + p + ".png");
    assert |s| == |y| + 7;
    assert s[..|s| - 7] == y;
    assert s[|s| - 7] == '-';
    assert s[|s| - 6..|s| - 4] == p;
    assert s[|s| - 4..] == ".png";
  }

  /** Distinct (year, month) pairs with two-digit months give distinct file names. */
  lemma FileNameInjective(y1: int, m1: int, y2: int, m2: int)
    requires 0 <= m1 < 100 && 0 <= m2 < 100
    requires FileName(y1, m1) == FileName(y2, m2)
    ensures y1 == y2 && m1 == m2
  {
    FileNameRoundTrip(y1, m1);
    FileNameRoundTrip(y2, m2);
  }
}
