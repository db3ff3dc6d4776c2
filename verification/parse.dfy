/** Reading the `"HH:MM"` and `"YYYY-MM-DD"` strings of a schedule, as the
    service worker does with `String.prototype.split` and `parseInt`. Only
    well-formed input is given a meaning: the parts that are read must be
    nonempty runs of decimal digits, for which `parseInt` is exact. */
module Parse {
  import opened Clock
  import opened Calendar
  import opened Js

  /** `s.split(sep)` for a one-character separator: the maximal runs between
      separators, so there is always one more part than separators. */
  function Split(s: string, sep: char): (parts: seq<string>)
    ensures |parts| >= 1
    ensures forall i :: 0 <= i < |parts| ==> sep !in parts[i]
    decreases |s|
  {
    if s == [] then [""]
    else
      var rest := Split(s[1..], sep);
      if s[0] == sep then [""] + rest
      else [[s[0]] + rest[0]] + rest[1..]
  }

  /** `parts.join(sep)`: the inverse of `Split`. */
  function Join(parts: seq<string>, sep: char): string
    requires |parts| >= 1
  {
    if |parts| == 1 then parts[0] else parts[0] + [sep] + Join(parts[1..], sep)
  }

  /** Splitting and joining again gives the original string back. */
  lemma {:induction false} JoinSplit(s: string, sep: char)
    ensures Join(Split(s, sep), sep) == s
    decreases |s|
  {
    if s != [] {
      var rest := Split(s[1..], sep);
      JoinSplit(s[1..], sep);
      if s[0] == sep {
        assert Split(s, sep) == [""] + rest;
        assert ([""] + rest)[1..] == rest;
      } else {
        var parts := [[s[0]] + rest[0]] + rest[1..];
        assert Split(s, sep) == parts;
        if |rest| == 1 {
          assert Join(parts, sep) == [s[0]] + rest[0];
        } else {
          assert parts[1..] == rest[1..];
          assert Join(rest, sep) == rest[0] + [sep] + Join(rest[1..], sep);
        }
      }
    }
  }

  /** Splitting a join of separator-free parts gives the parts back. */
  lemma {:induction false} SplitJoin(parts: seq<string>, sep: char)
    requires |parts| >= 1
    requires forall i :: 0 <= i < |parts| ==> sep !in parts[i]
    ensures Split(Join(parts, sep), sep) == parts
    decreases |parts|, |parts[0]|
  {
    if |parts[0]| > 0 {
      var p0 := parts[0];
      var tail := [p0[1..]] + parts[1..];
      assert sep !in p0[1..] by { assert forall c :: c in p0[1..] ==> c in p0; }
      assert forall i :: 0 <= i < |tail| ==> sep !in tail[i];
      SplitJoin(tail, sep);
      var s := Join(parts, sep);
      if |parts| == 1 {
        assert s == p0 && s[1..] == p0[1..] == Join(tail, sep);
      } else {
        assert Join(tail, sep) == p0[1..] + [sep] + Join(parts[1..], sep);
        assert s[1..] == Join(tail, sep);
      }
      assert s[0] == p0[0] && p0[0] != sep;
      assert [p0[0]] + p0[1..] == p0;
      assert tail[1..] == parts[1..];
    } else if |parts| > 1 {
      SplitJoin(parts[1..], sep);
      var s := Join(parts, sep);
      assert s == [sep] + Join(parts[1..], sep);
      assert s[1..] == Join(parts[1..], sep);
      assert [""] + parts[1..] == parts;
    }
  }

  predicate IsDigit(c: char)
  {
    '0' <= c <= '9'
  }

  /** A nonempty run of decimal digits. */
  predicate IsNumeral(s: string)
  {
    |s| > 0 && forall i :: 0 <= i < |s| ==> IsDigit(s[i])
  }

  /** `parseInt` of a digit string, most significant digit first. */
  function DigitsValue(s: string): (n: nat)
    requires forall i :: 0 <= i < |s| ==> IsDigit(s[i])
    decreases |s|
  {
    if s == [] then 0
    else DigitsValue(s[..|s| - 1]) * 10 + DigitValue(s[|s| - 1])
  }

  function DigitValue(c: char): (d: nat)
    requires IsDigit(c)
    ensures d < 10
  {
    c as int - '0' as int
  }

  function DigitChar(d: nat): (c: char)
    requires d < 10
    ensures IsDigit(c) && DigitValue(c) == d
  {
    ('0' as int + d) as char
  }

  /** A number written with exactly `width` digits, zero-padded on the left. */
  function Padded(n: nat, width: nat): (s: string)
    ensures |s| == width
    ensures forall i :: 0 <= i < |s| ==> IsDigit(s[i])
    decreases width
  {
    if width == 0 then [] else Padded(n / 10, width - 1) + [DigitChar(n % 10)]
  }

  /** Reading a zero-padded numeral gives the number back. */
  lemma {:induction false} DigitsValuePadded(n: nat, width: nat)
    requires n < Pow10(width)
    ensures DigitsValue(Padded(n, width)) == n
    decreases width
  {
    if width > 0 {
      var s := Padded(n, width);
      assert s[..|s| - 1] == Padded(n / 10, width - 1);
      DigitsValuePadded(n / 10, width - 1);
    }
  }

  function Pow10(k: nat): (p: nat)
    ensures p >= 1
  {
    if k == 0 then 1 else 10 * Pow10(k - 1)
  }

  /** The hour and minute of an `"HH:MM"` string: `time.split(':')` read with
      `parseInt`, when its first two parts are numerals. */
  function ParseClock(s: string): (r: Option<ClockTime>)
    ensures r.Some? <==> |Split(s, ':')| >= 2 && IsNumeral(Split(s, ':')[0]) && IsNumeral(Split(s, ':')[1])
    ensures r.Some? ==> r.value.hour >= 0 && r.value.minute >= 0
  {
    var parts := Split(s, ':');
    if |parts| >= 2 && IsNumeral(parts[0]) && IsNumeral(parts[1])
    then Some(ClockTime(DigitsValue(parts[0]), DigitsValue(parts[1])))
    else None
  }

  /** The year, month and day of a `"YYYY-MM-DD"` string:
      `date.split('-')` with each of its first three parts read by `parseInt`. */
  function ParseDate(s: string): (r: Option<CivilDate>)
    ensures r.Some? <==> |Split(s, '-')| >= 3
                         && IsNumeral(Split(s, '-')[0]) && IsNumeral(Split(s, '-')[1])
                         && IsNumeral(Split(s, '-')[2])
    ensures r.Some? ==> r.value.year >= 0 && r.value.month >= 0 && r.value.day >= 0
  {
    var parts := Split(s, '-');
    if |parts| >= 3 && IsNumeral(parts[0]) && IsNumeral(parts[1]) && IsNumeral(parts[2])
    then Some(CivilDate(DigitsValue(parts[0]), DigitsValue(parts[1]), DigitsValue(parts[2])))
    else None
  }

  /** `"HH:MM"` as a time picker writes it. */
  function FormatClock(t: ClockTime): string
    requires t.Valid()
  {
    Padded(t.hour, 2) + ":" + Padded(t.minute, 2)
  }

  /** `"YYYY-MM-DD"` as a date picker writes it. */
  function FormatDate(d: CivilDate): string
    requires 0 <= d.year <= 9999 && 1 <= d.month <= 12 && 1 <= d.day <= 31
  {
    Padded(d.year, 4) + "-" + Padded(d.month, 2) + "-" + Padded(d.day, 2)
  }

  /** A well-formed time string is read back as the time it was written from. */
  lemma ParseFormatClock(t: ClockTime)
    requires t.Valid()
    ensures ParseClock(FormatClock(t)) == Some(t)
  {
    var h, m := Padded(t.hour, 2), Padded(t.minute, 2);
    NoSeparator(h, ':');
    NoSeparator(m, ':');
    assert FormatClock(t) == Join([h, m], ':');
    SplitJoin([h, m], ':');
    DigitsValuePadded(t.hour, 2);
    DigitsValuePadded(t.minute, 2);
  }

  /** A well-formed date string is read back as the date it was written from. */
  lemma ParseFormatDate(d: CivilDate)
    requires 0 <= d.year <= 9999 && 1 <= d.month <= 12 && 1 <= d.day <= 31
    ensures ParseDate(FormatDate(d)) == Some(d)
  {
    var y, m, dd := Padded(d.year, 4), Padded(d.month, 2), Padded(d.day, 2);
    NoSeparator(y, '-');
    NoSeparator(m, '-');
    NoSeparator(dd, '-');
    JoinThree(y, m, dd, '-');
    SplitJoin([y, m, dd], '-');
    DigitsValuePadded(d.year, 4);
    DigitsValuePadded(d.month, 2);
    DigitsValuePadded(d.day, 2);
  }

  lemma JoinThree(a: string, b: string, c: string, sep: char)
    ensures Join([a, b, c], sep) == a + [sep] + b + [sep] + c
  {
    assert [a, b, c][1..] == [b, c];
    assert [b, c][1..] == [c];
    assert Join([b, c], sep) == b + [sep] + c;
    assert Join([a, b, c], sep) == a + [sep] + (b + [sep] + c);
  }

  lemma NoSeparator(s: string, sep: char)
    requires forall i :: 0 <= i < |s| ==> IsDigit(s[i])
    requires !IsDigit(sep)
    ensures sep !in s
  {
  }

  /** `String(n)` for an integer: its decimal numeral, with a leading `-` when
      negative. */
  function NumberString(n: int): (s: string)
    ensures |s| > 0
    decreases if n < 0 then 1 - n else n
  {
    if n < 0 then "-" + NumberString(-n)
    else if n < 10 then [DigitChar(n)]
    else NumberString(n / 10) + [DigitChar(n % 10)]
  }

  /** The numeral of a natural number is read back by `parseInt`. */
  lemma {:induction false} NumberStringValue(n: nat)
    ensures IsNumeral(NumberString(n)) && DigitsValue(NumberString(n)) == n
    decreases n
  {
    if n >= 10 {
      NumberStringValue(n / 10);
      var s := NumberString(n);
      assert s[..|s| - 1] == NumberString(n / 10);
    } else {
      assert NumberString(n)[..0] == [];
    }
  }

  /** Distinct integers have distinct numerals. */
  lemma NumberStringInjective(a: int, b: int)
    requires NumberString(a) == NumberString(b)
    ensures a == b
  {
    if a >= 0 && b >= 0 {
      NumberStringValue(a);
      NumberStringValue(b);
    } else if a < 0 && b < 0 {
      assert NumberString(-a) == NumberString(a)[1..] == NumberString(b)[1..] == NumberString(-b);
      NumberStringValue(-a);
      NumberStringValue(-b);
    } else {
      var neg, m := if a < 0 then a else b, if a < 0 then b else a;
      assert NumberString(neg)[0] == '-';
      NumberStringValue(m);
    }
  }
}
