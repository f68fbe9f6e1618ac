/** The `YYYY-MM-DD` keys under which completions are stored.

    `formatDate` renders a date's local year, month and day; the keys are
    later sorted as strings and parsed back with `new Date(key)`. This module
    proves that for four-digit years the key has a fixed shape, that parsing
    inverts formatting, and that the string order of keys is the
    chronological order of their dates. */
module DateKeys {
  import opened Optional
  import opened Calendar

  predicate IsDigit(c: char) {
    '0' <= c <= '9'
  }

  predicate AllDigits(s: string) {
    forall i :: 0 <= i < |s| ==> IsDigit(s[i])
  }

  function Digit(n: int): (c: char)
    requires 0 <= n <= 9
    ensures IsDigit(c)
  {
    ('0' as int + n) as char
  }

  function DigitValue(c: char): (n: int)
    requires IsDigit(c)
    ensures 0 <= n <= 9 && Digit(n) == c
  {
    c as int - '0' as int
  }

  function Pow10(w: nat): (p: nat)
    ensures p >= 1
  {
    if w == 0 then 1 else 10 * Pow10(w - 1)
  }

  /** Decimal digits of `n` without leading zeros: JavaScript's `String(n)`
      for a non-negative integer. */
  function NatToString(n: nat): (s: string)
    ensures |s| >= 1 && AllDigits(s)
  {
    if n < 10 then [Digit(n)] else NatToString(n / 10) + [Digit(n % 10)]
  }

  /** `String(n)` for any integer: a minus sign before negative numbers. */
  function IntToString(i: int): string {
    if i < 0 then "-" + NatToString(-i) else NatToString(i)
  }

  /** `String.prototype.padStart` with a one-character filler: fillers are
      prepended until the string is `width` long; longer strings are kept. */
  function PadStart(s: string, width: nat, fill: char): (r: string)
    ensures |r| == if |s| >= width then |s| else width
    ensures r[|r| - |s|..] == s
    ensures forall i :: 0 <= i < |r| - |s| ==> r[i] == fill
  {
    if |s| >= width then s else seq(width - |s|, _ => fill) + s
  }

  /** The last `w` decimal digits of `n`, most significant first, zero padded. */
  function FixedDigits(n: nat, w: nat): (s: string)
    ensures |s| == w && AllDigits(s)
  {
    if w == 0 then "" else FixedDigits(n / 10, w - 1) + [Digit(n % 10)]
  }

  /** The number a string of decimal digits denotes. */
  function DigitsValue(s: string): (n: nat)
    requires AllDigits(s)
    ensures n < Pow10(|s|)
  {
    if |s| == 0 then 0 else 10 * DigitsValue(s[..|s| - 1]) + DigitValue(s[|s| - 1])
  }

  /** `formatDate`: year, then month and day zero-padded to two digits,
      separated by dashes. The year is not padded. */
  function FormatDate(d: CivilDate): (key: string)
    requires ValidDate(d)
    ensures key == IntToString(d.year) + "-" + FixedDigits(d.month, 2) + "-" + FixedDigits(d.day, 2)
    ensures 1000 <= d.year <= 9999 ==>
              && |key| == 10 && key[4] == '-' && key[7] == '-'
              && key == FixedDigits(d.year, 4) + "-" + FixedDigits(d.month, 2) + "-" + FixedDigits(d.day, 2)
  {
    PaddedTwoDigits(d.month);
    PaddedTwoDigits(d.day);
    assert 1000 <= d.year <= 9999 ==> NatToString(d.year) == FixedDigits(d.year, 4) by {
      if 1000 <= d.year <= 9999 {
        Pow10Values();
        NatToStringFixed(d.year, 4);
      }
    }
    IntToString(d.year) + "-" + PadStart(NatToString(d.month), 2, '0')
      + "-" + PadStart(NatToString(d.day), 2, '0')
  }

  /** The key of a day number: `formatDate` of the corresponding date. */
  function DateKey(d: Day): string {
    FormatDate(CivilFromDay(d))
  }

  /** The model's own decoder of date keys: a well-formed `YYYY-MM-DD` key
      naming a real date yields that date, and any other string yields
      `None`. */
  function ParseDateKey(key: string): (r: Option<CivilDate>)
    ensures r.Some? ==> ValidDate(r.value) && 0 <= r.value.year <= 9999
  {
    if |key| == 10 && key[4] == '-' && key[7] == '-'
       && AllDigits(key[..4]) && AllDigits(key[5..7]) && AllDigits(key[8..])
    then
      var d := CivilDate(DigitsValue(key[..4]), DigitsValue(key[5..7]), DigitsValue(key[8..]));
      Pow10Values();
      if ValidDate(d) then Some(d) else None
    else None
  }

  /** JavaScript's `<` on strings, which `Array.prototype.sort` uses by
      default: lexicographic by character code, a proper prefix first. */
  predicate StrLess(a: string, b: string) {
    if |a| == 0 then |b| > 0
    else if |b| == 0 then false
    else if a[0] != b[0] then a[0] < b[0]
    else StrLess(a[1..], b[1..])
  }

  // ---------------------------------------------------------------------
  // Digit strings

  lemma Pow10Values()
    ensures Pow10(1) == 10 && Pow10(2) == 100 && Pow10(3) == 1000 && Pow10(4) == 10000
  {
  }

  lemma {:induction false} DigitsValueOfFixed(n: nat, w: nat)
    requires n < Pow10(w)
    ensures DigitsValue(FixedDigits(n, w)) == n
  {
    if w > 0 {
      var s := FixedDigits(n, w);
      assert s[..w - 1] == FixedDigits(n / 10, w - 1);
      DigitsValueOfFixed(n / 10, w - 1);
    }
  }

  lemma {:induction false} FixedOfDigitsValue(s: string)
    requires AllDigits(s)
    ensures FixedDigits(DigitsValue(s), |s|) == s
  {
    if |s| > 0 {
      var p := s[..|s| - 1];
      FixedOfDigitsValue(p);
      var n := DigitsValue(s);
      assert n / 10 == DigitsValue(p) && n % 10 == DigitValue(s[|s| - 1]);
      assert s == p + [s[|s| - 1]];
    }
  }

  lemma FixedDigitsInjective(n: nat, n': nat, w: nat)
    requires n < Pow10(w) && n' < Pow10(w)
    ensures FixedDigits(n, w) == FixedDigits(n', w) <==> n == n'
  {
    DigitsValueOfFixed(n, w);
    DigitsValueOfFixed(n', w);
  }

  lemma {:induction false} NatToStringFixed(n: nat, w: nat)
    requires w >= 1 && Pow10(w - 1) <= n < Pow10(w)
    ensures NatToString(n) == FixedDigits(n, w)
  {
    if w > 1 {
      NatToStringFixed(n / 10, w - 1);
    }
  }

  /** `padStart(2, '0')` on `String(n)` gives the two-digit form of `n`. */
  lemma PaddedTwoDigits(n: nat)
    requires n < 100
    ensures PadStart(NatToString(n), 2, '0') == FixedDigits(n, 2)
  {
    if n < 10 {
      assert FixedDigits(n, 2) == FixedDigits(0, 1) + [Digit(n)];
    } else {
      NatToStringFixed(n, 2);
    }
  }

  // ---------------------------------------------------------------------
  // Round trip

  /** Parsing a formatted key gives back the date. */
  lemma ParseFormatRoundTrip(d: CivilDate)
    requires ValidDate(d) && 1000 <= d.year <= 9999
    ensures ParseDateKey(FormatDate(d)) == Some(d)
  {
    var key := FormatDate(d);
    Pow10Values();
    assert key[..4] == FixedDigits(d.year, 4);
    assert key[5..7] == FixedDigits(d.month, 2);
    assert key[8..] == FixedDigits(d.day, 2);
    DigitsValueOfFixed(d.year, 4);
    DigitsValueOfFixed(d.month, 2);
    DigitsValueOfFixed(d.day, 2);
  }

  /** Formatting a parsed date gives back the key (years from 1000 on,
      since `formatDate` does not pad the year). */
  lemma FormatParseRoundTrip(key: string)
    requires ParseDateKey(key).Some? && ParseDateKey(key).value.year >= 1000
    ensures FormatDate(ParseDateKey(key).value) == key
  {
    var d := ParseDateKey(key).value;
    FixedOfDigitsValue(key[..4]);
    FixedOfDigitsValue(key[5..7]);
    FixedOfDigitsValue(key[8..]);
    assert key == key[..4] + "-" + key[5..7] + "-" + key[8..];
  }

  // ---------------------------------------------------------------------
  // Order

  lemma {:induction false} StrLessConcat(p: string, q: string, p': string, q': string)
    requires |p| == |p'|
    ensures StrLess(p + q, p' + q') <==> StrLess(p, p') || (p == p' && StrLess(q, q'))
    decreases |p|
  {
    if |p| > 0 {
      assert (p + q)[0] == p[0] && (p' + q')[0] == p'[0];
      assert (p + q)[1..] == p[1..] + q && (p' + q')[1..] == p'[1..] + q';
      if p[0] == p'[0] {
        StrLessConcat(p[1..], q, p'[1..], q');
        assert p == p' <==> p[1..] == p'[1..] by {
          assert p == [p[0]] + p[1..] && p' == [p'[0]] + p'[1..];
        }
      }
    } else {
      assert p + q == q && p' + q' == q';
    }
  }

  lemma {:induction false} FixedDigitsOrder(n: nat, n': nat, w: nat)
    requires n < Pow10(w) && n' < Pow10(w)
    ensures StrLess(FixedDigits(n, w), FixedDigits(n', w)) <==> n < n'
  {
    if w > 0 {
      var hi, hi' := FixedDigits(n / 10, w - 1), FixedDigits(n' / 10, w - 1);
      var c, c' := Digit(n % 10), Digit(n' % 10);
      StrLessConcat(hi, [c], hi', [c']);
      FixedDigitsOrder(n / 10, n' / 10, w - 1);
      FixedDigitsInjective(n / 10, n' / 10, w - 1);
      assert StrLess([c], [c']) <==> c < c' by {
        assert [c][1..] == [] && [c'][1..] == [];
      }
    }
  }

  /** For four-digit years, comparing keys as strings compares the dates. */
  lemma KeyOrder(a: CivilDate, b: CivilDate)
    requires ValidDate(a) && ValidDate(b)
    requires 1000 <= a.year <= 9999 && 1000 <= b.year <= 9999
    ensures StrLess(FormatDate(a), FormatDate(b)) <==> DateBefore(a, b)
  {
    Pow10Values();
    var ya, ma, da := FixedDigits(a.year, 4), FixedDigits(a.month, 2), FixedDigits(a.day, 2);
    var yb, mb, db := FixedDigits(b.year, 4), FixedDigits(b.month, 2), FixedDigits(b.day, 2);
    StrLessConcat(ya + "-" + ma + "-", da, yb + "-" + mb + "-", db);
    StrLessConcat(ya + "-" + ma, "-", yb + "-" + mb, "-");
    StrLessConcat(ya + "-", ma, yb + "-", mb);
    StrLessConcat(ya, "-", yb, "-");
    assert !StrLess("-", "-");
    assert ya + "-" + ma + "-" == yb + "-" + mb + "-" <==> ya + "-" + ma == yb + "-" + mb by {
      if ya + "-" + ma + "-" == yb + "-" + mb + "-" {
        assert ya + "-" + ma == (ya + "-" + ma + "-")[..7];
        assert yb + "-" + mb == (yb + "-" + mb + "-")[..7];
      }
    }
    assert ya + "-" + ma == yb + "-" + mb <==> ya + "-" == yb + "-" && ma == mb by {
      if ya + "-" + ma == yb + "-" + mb {
        assert ya + "-" == (ya + "-" + ma)[..5] && yb + "-" == (yb + "-" + mb)[..5];
        assert ma == (ya + "-" + ma)[5..] && mb == (yb + "-" + mb)[5..];
      }
    }
    assert ya + "-" == yb + "-" <==> ya == yb by {
      if ya + "-" == yb + "-" {
        assert ya == (ya + "-")[..4] && yb == (yb + "-")[..4];
      }
    }
    FixedDigitsOrder(a.year, b.year, 4);
    FixedDigitsOrder(a.month, b.month, 2);
    FixedDigitsOrder(a.day, b.day, 2);
    FixedDigitsInjective(a.year, b.year, 4);
    FixedDigitsInjective(a.month, b.month, 2);
  }

  /** Sorting keys as strings sorts their day numbers: what the longest-streak
      scan relies on when it calls `.sort()` on the keys. */
  lemma DateKeyOrder(a: Day, b: Day)
    requires InFourDigitYear(a) && InFourDigitYear(b)
    ensures StrLess(DateKey(a), DateKey(b)) <==> a < b
  {
    FourDigitYearDays(a);
    FourDigitYearDays(b);
    KeyOrder(CivilFromDay(a), CivilFromDay(b));
    CivilFromDayOrder(a, b);
  }

  /** Distinct days have distinct keys. */
  lemma DateKeyInjective(a: Day, b: Day)
    requires InFourDigitYear(a) && InFourDigitYear(b)
    requires DateKey(a) == DateKey(b)
    ensures a == b
  {
    FourDigitYearDays(a);
    FourDigitYearDays(b);
    ParseFormatRoundTrip(CivilFromDay(a));
    ParseFormatRoundTrip(CivilFromDay(b));
  }
}
