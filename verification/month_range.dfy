/**
 * The date window of the remote month query: every stored day of a month is
 * fetched with `date >= lower` and `date < upper`, where both bounds are ISO
 * `YYYY-MM-DD` strings built from the year and the 1-based month.
 */
module MonthRange {
  import opened Dates

  /** The character of one decimal digit. */
  function DigitChar(d: int): (c: char)
    requires 0 <= d < 10
    ensures '0' <= c <= '9'
  {
    (d + 48) as char
  }

  /** `String(n)` of a non-negative integer: decimal digits, no leading zeros. */
  function NatToString(n: nat): (s: string)
    ensures 1 <= |s|
    decreases n
  {
    if n < 10 then [DigitChar(n)] else NatToString(n / 10) + [DigitChar(n % 10)]
  }

  /** `${n}` of an integer: a leading minus sign for negative values. */
  function IntToString(n: int): string {
    if n < 0 then "-" + NatToString(-n) else NatToString(n)
  }

  /** `padStart(2, '0')`. */
  function PadStart2(s: string): (r: string)
    ensures |r| == if |s| < 2 then 2 else |s|
    ensures r[|r| - |s|..] == s && forall i :: 0 <= i < |r| - |s| ==> r[i] == '0'
  {
    if |s| == 0 then "00" else if |s| == 1 then "0" + s else s
  }

  /**
   * The lower bound: the first of the requested month, which for a year of
   * four digits is exactly the ISO form of that date.
   */
  function LowerBound(year: int, month: int): (r: string)
    ensures FourDigitYear(year) && 1 <= month <= 12 ==> r == IsoDate(Date(year, month, 1))
  {
    FirstOfMonthIsIso(year, month);
    IntToString(year) + "-" + PadStart2(IntToString(month)) + "-01"
  }

  /**
   * The upper bound: the first of the following month, December wrapping to
   * January of the next year; it is the lower bound of the month after.
   */
  function UpperBound(year: int, month: int): (r: string)
    ensures 1 <= month <= 12 ==> var next := NextMonth(YearMonth(year, month)); r == LowerBound(next.year, next.month)
    ensures month == 12 ==> r == IntToString(year + 1) + "-01-01"
  {
    IntToString(if month == 12 then year + 1 else year) + "-"
      + PadStart2(IntToString(if month == 12 then 1 else month + 1)) + "-01"
  }

  // Fixed-width digits and the ISO form of a date as the database returns it.

  function Pow10(w: nat): (p: nat)
    ensures p >= 1
  {
    if w == 0 then 1 else 10 * Pow10(w - 1)
  }

  /** `n` in exactly `w` decimal digits, zero-padded on the left. */
  function Digits(n: nat, w: nat): (s: string)
    requires n < Pow10(w)
    ensures |s| == w
  {
    if w == 0 then [] else Digits(n / 10, w - 1) + [DigitChar(n % 10)]
  }

  /** A date whose ISO form has four year digits and two-digit month and day. */
  predicate IsoReady(d: Date) {
    0 <= d.year <= 9999 && 0 <= d.month <= 99 && 0 <= d.day <= 99
  }

  /** `YYYY-MM-DD`. */
  function IsoDate(d: Date): (s: string)
    requires IsoReady(d)
    ensures |s| == 10
  {
    Digits(d.year, 4) + ("-" + (Digits(d.month, 2) + ("-" + Digits(d.day, 2))))
  }

  /** Chronological order of dates: by year, then month, then day. */
  predicate DateBefore(a: Date, b: Date) {
    a.year < b.year || (a.year == b.year && (a.month < b.month || (a.month == b.month && a.day < b.day)))
  }

  /** Lexicographic order of strings, as the database compares text. */
  predicate LexLess(a: string, b: string) {
    if a == [] then b != []
    else if b == [] then false
    else a[0] < b[0] || (a[0] == b[0] && LexLess(a[1..], b[1..]))
  }

  lemma {:induction false} LexLessIrreflexive(a: string)
    ensures !LexLess(a, a)
  {
    if a != [] {
      LexLessIrreflexive(a[1..]);
    }
  }

  /** Comparing two strings split at the same length: the first parts decide unless they are equal. */
  lemma {:induction false} LexLessAppend(a1: string, a2: string, b1: string, b2: string)
    requires |a1| == |b1|
    ensures LexLess(a1 + a2, b1 + b2) <==> LexLess(a1, b1) || (a1 == b1 && LexLess(a2, b2))
  {
    if a1 == [] {
      assert a1 + a2 == a2 && b1 + b2 == b2;
    } else {
      assert (a1 + a2)[0] == a1[0] && (a1 + a2)[1..] == a1[1..] + a2;
      assert (b1 + b2)[0] == b1[0] && (b1 + b2)[1..] == b1[1..] + b2;
      LexLessAppend(a1[1..], a2, b1[1..], b2);
      if a1[0] == b1[0] {
        assert a1 == b1 <==> a1[1..] == b1[1..] by {
          assert a1 == [a1[0]] + a1[1..];
          assert b1 == [b1[0]] + b1[1..];
        }
      }
    }
  }

  lemma AppendEqual(a1: string, a2: string, b1: string, b2: string)
    requires |a1| == |b1|
    ensures a1 + a2 == b1 + b2 <==> a1 == b1 && a2 == b2
  {
    if a1 + a2 == b1 + b2 {
      assert a1 == (a1 + a2)[..|a1|];
      assert b1 == (b1 + b2)[..|b1|];
      assert a2 == (a1 + a2)[|a1|..];
      assert b2 == (b1 + b2)[|b1|..];
    }
  }

  lemma DigitStep(n: nat, k: nat, w: nat)
    requires w >= 1 && n < Pow10(w) && k < Pow10(w)
    ensures n / 10 < Pow10(w - 1) && k / 10 < Pow10(w - 1)
    ensures n < k <==> n / 10 < k / 10 || (n / 10 == k / 10 && n % 10 < k % 10)
    ensures n == k <==> n / 10 == k / 10 && n % 10 == k % 10
  {
  }

  /** Fixed-width digit strings compare as their numbers do, and are equal only for equal numbers. */
  lemma {:induction false} DigitsOrder(n: nat, k: nat, w: nat)
    requires n < Pow10(w) && k < Pow10(w)
    ensures LexLess(Digits(n, w), Digits(k, w)) <==> n < k
    ensures Digits(n, w) == Digits(k, w) <==> n == k
  {
    if w == 0 {
    } else {
      DigitStep(n, k, w);
      DigitsOrder(n / 10, k / 10, w - 1);
      var cn, ck := [DigitChar(n % 10)], [DigitChar(k % 10)];
      LexLessAppend(Digits(n / 10, w - 1), cn, Digits(k / 10, w - 1), ck);
      AppendEqual(Digits(n / 10, w - 1), cn, Digits(k / 10, w - 1), ck);
      assert LexLess(cn, ck) <==> n % 10 < k % 10 by {
        assert cn[1..] == [] && ck[1..] == [];
      }
    }
  }

  /**
   * ISO strings of dates compare lexicographically exactly as the dates
   * compare chronologically, and two dates share an ISO string only when
   * they are the same date.
   */
  lemma {:induction false} IsoDateOrder(a: Date, b: Date)
    requires IsoReady(a) && IsoReady(b)
    ensures LexLess(IsoDate(a), IsoDate(b)) <==> DateBefore(a, b)
    ensures IsoDate(a) == IsoDate(b) <==> a == b
  {
    var dash := "-";
    var dayA, dayB := Digits(a.day, 2), Digits(b.day, 2);
    var tailA, tailB := dash + dayA, dash + dayB;
    var monthA, monthB := Digits(a.month, 2) + tailA, Digits(b.month, 2) + tailB;
    var restA, restB := dash + monthA, dash + monthB;
    DigitsOrder(a.day, b.day, 2);
    DigitsOrder(a.month, b.month, 2);
    DigitsOrder(a.year, b.year, 4);
    LexLessIrreflexive(dash);
    LexLessAppend(dash, dayA, dash, dayB);
    AppendEqual(dash, dayA, dash, dayB);
    LexLessAppend(Digits(a.month, 2), tailA, Digits(b.month, 2), tailB);
    AppendEqual(Digits(a.month, 2), tailA, Digits(b.month, 2), tailB);
    LexLessAppend(dash, monthA, dash, monthB);
    AppendEqual(dash, monthA, dash, monthB);
    LexLessAppend(Digits(a.year, 4), restA, Digits(b.year, 4), restB);
    AppendEqual(Digits(a.year, 4), restA, Digits(b.year, 4), restB);
  }

  /** For a year of four digits `${n}` is its four-digit form, and a padded month is its two-digit form. */
  lemma {:induction false} NatToStringDigits(n: nat, w: nat)
    requires w >= 1 && Pow10(w - 1) <= n < Pow10(w)
    ensures NatToString(n) == Digits(n, w)
  {
    if w == 1 {
      assert Digits(n, 1) == Digits(0, 0) + [DigitChar(n)];
    } else {
      assert n >= 10;
      NatToStringDigits(n / 10, w - 1);
    }
  }

  lemma PaddedMonth(m: int)
    requires 1 <= m <= 12
    ensures PadStart2(IntToString(m)) == Digits(m, 2)
  {
    if m < 10 {
      assert Digits(m, 2) == Digits(0, 1) + [DigitChar(m)];
      assert Digits(0, 1) == Digits(0, 0) + [DigitChar(0)];
    } else {
      NatToStringDigits(m, 2);
    }
  }

  /** A year of four digits. */
  predicate FourDigitYear(y: int) {
    1000 <= y <= 9999
  }

  /** For a year of four digits the first-of-month string is the ISO form of that date. */
  lemma {:induction false} FirstOfMonthIsIso(year: int, month: int)
    ensures FourDigitYear(year) && 1 <= month <= 12 ==>
      IntToString(year) + "-" + PadStart2(IntToString(month)) + "-01" == IsoDate(Date(year, month, 1))
  {
    if FourDigitYear(year) && 1 <= month <= 12 {
      assert Pow10(3) == 1000 && Pow10(4) == 10000 by {
        assert Pow10(1) == 10 && Pow10(2) == 100;
      }
      NatToStringDigits(year, 4);
      PaddedMonth(month);
      assert "-01" == "-" + Digits(1, 2) by {
        assert Digits(1, 2) == Digits(0, 1) + [DigitChar(1)];
        assert Digits(0, 1) == Digits(0, 0) + [DigitChar(0)];
      }
      var y, m := Digits(year, 4), Digits(month, 2);
      assert y + "-" + m + "-01" == y + ("-" + (m + ("-" + Digits(1, 2))));
    }
  }

  /**
   * For four-digit years (the following month's included) the lower bound
   * sorts strictly before the upper bound, and the ISO form of a real date
   * lies in `[lower, upper)` exactly when the date is in the requested month.
   */
  lemma {:induction false} WindowIsTheMonth(year: int, month: int, d: Date)
    requires 1 <= month <= 12 && FourDigitYear(year) && FourDigitYear(NextMonth(YearMonth(year, month)).year)
    requires FourDigitYear(d.year) && ValidDate(d)
    ensures LexLess(LowerBound(year, month), UpperBound(year, month))
    ensures (LowerBound(year, month) == IsoDate(d) || LexLess(LowerBound(year, month), IsoDate(d)))
            && LexLess(IsoDate(d), UpperBound(year, month))
        <==> d.year == year && d.month == month
  {
    var next := NextMonth(YearMonth(year, month));
    var first, firstNext := Date(year, month, 1), Date(next.year, next.month, 1);
    IsoDateOrder(first, firstNext);
    IsoDateOrder(first, d);
    IsoDateOrder(d, firstNext);
  }
}
