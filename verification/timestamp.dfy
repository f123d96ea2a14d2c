/** The normalised date column `date_utc`: text of the fixed-width form
    `YYYY-MM-DD HH:MM:SS`, compared by the database as plain text. */
module Timestamp {
  import opened Common

  /** A calendar day, as parsed from a `YYYY-MM-DD` command-line bound. */
  datatype Date = Date(year: int, month: int, day: int)

  /** A UTC instant to the second. */
  datatype DateTime = DateTime(year: int, month: int, day: int, hour: int, minute: int, second: int)

  /** Field ranges of a date-time; the year is one that `%Y` writes as four digits. */
  predicate ValidDate(d: Date)
  {
    0 <= d.year <= 9999 && 1 <= d.month <= 12 && 1 <= d.day <= 31
  }

  predicate Valid(t: DateTime)
  {
    && 0 <= t.year <= 9999 && 1 <= t.month <= 12 && 1 <= t.day <= 31
    && 0 <= t.hour <= 23 && 0 <= t.minute <= 59 && 0 <= t.second <= 59
  }

  /** An instant a date-time value can hold, as `astimezone` produces it. */
  type UtcTime = t: DateTime | Valid(t) witness DateTime(1970, 1, 1, 0, 0, 0)

  /** Chronological order: strictly earlier. */
  predicate Before(a: DateTime, b: DateTime)
  {
    || a.year < b.year
    || (a.year == b.year && a.month < b.month)
    || (a.year == b.year && a.month == b.month && a.day < b.day)
    || (a.year == b.year && a.month == b.month && a.day == b.day && a.hour < b.hour)
    || (a.year == b.year && a.month == b.month && a.day == b.day && a.hour == b.hour && a.minute < b.minute)
    || (a.year == b.year && a.month == b.month && a.day == b.day && a.hour == b.hour && a.minute == b.minute
        && a.second < b.second)
  }

  /** Text order as the database compares TEXT values (binary collation):
      character by character, a proper prefix coming first. */
  predicate StrLess(a: string, b: string)
    decreases |a|
  {
    if |a| == 0 then |b| > 0
    else if |b| == 0 then false
    else a[0] < b[0] || (a[0] == b[0] && StrLess(a[1..], b[1..]))
  }

  function Pow10(w: nat): nat
  {
    if w == 0 then 1 else 10 * Pow10(w - 1)
  }

  function DigitChar(d: nat): char
    requires d <= 9
  {
    ('0' as int + d) as char
  }

  /** `n` written in decimal with exactly `w` digits, zero-padded on the left. */
  function Digits(n: nat, w: nat): (r: string)
    ensures |r| == w
  {
    if w == 0 then [] else Digits(n / 10, w - 1) + [DigitChar(n % 10)]
  }

  /** A zero-padded field followed by a separator and the rest of the text. */
  function Field(n: nat, w: nat, sep: char, rest: string): string
  {
    Digits(n, w) + [sep] + rest
  }

  /** `strftime("%Y-%m-%d %H:%M:%S")`. */
  function Format(t: DateTime): (s: string)
    requires Valid(t)
    ensures |s| == 19
  {
    Field(t.year, 4, '-', Field(t.month, 2, '-', Field(t.day, 2, ' ',
      Field(t.hour, 2, ':', Field(t.minute, 2, ':', Digits(t.second, 2))))))
  }

  /** Midnight at the start of a day: the `"%Y-%m-%d 00:00:00"` bound. */
  function StartOfDay(d: Date): (t: DateTime)
    requires ValidDate(d)
    ensures Valid(t)
  {
    DateTime(d.year, d.month, d.day, 0, 0, 0)
  }

  /** Text order of two texts that share a fixed-width first part is decided
      by the first parts, and by the rest when those are equal. */
  lemma {:induction false} StrLessAppend(a1: string, b1: string, a2: string, b2: string)
    requires |a1| == |a2|
    ensures StrLess(a1 + b1, a2 + b2) <==> StrLess(a1, a2) || (a1 == a2 && StrLess(b1, b2))
    decreases |a1|
  {
    if |a1| == 0 {
      assert a1 + b1 == b1 && a2 + b2 == b2;
    } else {
      assert (a1 + b1)[1..] == a1[1..] + b1;
      assert (a2 + b2)[1..] == a2[1..] + b2;
      StrLessAppend(a1[1..], b1, a2[1..], b2);
      if a1[0] == a2[0] && a1[1..] == a2[1..] {
        assert a1 == [a1[0]] + a1[1..] && a2 == [a2[0]] + a2[1..];
      }
    }
  }

  /** Zero-padded decimals of one width compare as text like the numbers do. */
  lemma {:induction false} DigitsOrder(n: nat, m: nat, w: nat)
    requires n < Pow10(w) && m < Pow10(w)
    ensures StrLess(Digits(n, w), Digits(m, w)) <==> n < m
    ensures Digits(n, w) == Digits(m, w) <==> n == m
  {
    if w > 0 {
      DigitsOrder(n / 10, m / 10, w - 1);
      var dn := Digits(n / 10, w - 1);
      var dm := Digits(m / 10, w - 1);
      StrLessAppend(dn, [DigitChar(n % 10)], dm, [DigitChar(m % 10)]);
      assert StrLess([DigitChar(n % 10)], [DigitChar(m % 10)]) <==> n % 10 < m % 10 by {
        assert [DigitChar(n % 10)][1..] == [];
        assert [DigitChar(m % 10)][1..] == [];
      }
      if Digits(n, w) == Digits(m, w) {
        assert dn == Digits(n, w)[..w - 1] && dm == Digits(m, w)[..w - 1];
        assert DigitChar(n % 10) == Digits(n, w)[w - 1];
      }
    }
  }

  /** One field of the timestamp: its digits decide, then what follows. */
  lemma FieldOrder(n: nat, m: nat, w: nat, sep: char, x: string, y: string)
    requires n < Pow10(w) && m < Pow10(w)
    ensures StrLess(Field(n, w, sep, x), Field(m, w, sep, y)) <==> n < m || (n == m && StrLess(x, y))
    ensures Field(n, w, sep, x) == Field(m, w, sep, y) <==> n == m && x == y
  {
    DigitsOrder(n, m, w);
    assert Field(n, w, sep, x) == Digits(n, w) + ([sep] + x);
    assert Field(m, w, sep, y) == Digits(m, w) + ([sep] + y);
    StrLessAppend(Digits(n, w), [sep] + x, Digits(m, w), [sep] + y);
    assert ([sep] + x)[1..] == x && ([sep] + y)[1..] == y;
    if Field(n, w, sep, x) == Field(m, w, sep, y) {
      assert Digits(n, w) == Field(n, w, sep, x)[..w];
      assert Digits(m, w) == Field(m, w, sep, y)[..w];
      assert x == Field(n, w, sep, x)[w + 1..];
      assert y == Field(m, w, sep, y)[w + 1..];
    }
  }

  /** Because every `date_utc` has the same fixed width, comparing the texts
      agrees with comparing the instants, and equal texts mean equal instants. */
  lemma FormatOrder(a: DateTime, b: DateTime)
    requires Valid(a) && Valid(b)
    ensures StrLess(Format(a), Format(b)) <==> Before(a, b)
    ensures Format(a) == Format(b) <==> a == b
  {
    assert Pow10(2) == 100 && Pow10(4) == 10000;
    FieldOrder(a.minute, b.minute, 2, ':', Digits(a.second, 2), Digits(b.second, 2));
    DigitsOrder(a.second, b.second, 2);
    var ra := Field(a.minute, 2, ':', Digits(a.second, 2));
    var rb := Field(b.minute, 2, ':', Digits(b.second, 2));
    FieldOrder(a.hour, b.hour, 2, ':', ra, rb);
    var ha := Field(a.hour, 2, ':', ra);
    var hb := Field(b.hour, 2, ':', rb);
    FieldOrder(a.day, b.day, 2, ' ', ha, hb);
    var da := Field(a.day, 2, ' ', ha);
    var db := Field(b.day, 2, ' ', hb);
    FieldOrder(a.month, b.month, 2, '-', da, db);
    var ma := Field(a.month, 2, '-', da);
    var mb := Field(b.month, 2, '-', db);
    FieldOrder(a.year, b.year, 4, '-', ma, mb);
  }

  /** The value of a run of decimal digits, or `None` if some character is not a digit. */
  function Num(s: string): (r: Option<nat>)
    ensures r.Some? ==> r.value < Pow10(|s|)
  {
    if |s| == 0 then Some(0)
    else
      var c := s[|s| - 1];
      match Num(s[..|s| - 1])
      case None => None
      case Some(v) => if '0' <= c <= '9' then Some(10 * v + (c as int - '0' as int)) else None
  }

  /** Reads back a `YYYY-MM-DD HH:MM:SS` text; `None` for anything else. */
  function ParseUtc(s: string): (r: Option<DateTime>)
    ensures r.Some? ==> Valid(r.value)
  {
    if |s| != 19 || s[4] != '-' || s[7] != '-' || s[10] != ' ' || s[13] != ':' || s[16] != ':' then None
    else
      match (Num(s[0..4]), Num(s[5..7]), Num(s[8..10]), Num(s[11..13]), Num(s[14..16]), Num(s[17..19]))
      case (Some(y), Some(mo), Some(d), Some(h), Some(mi), Some(se)) =>
        var t := DateTime(y, mo, d, h, mi, se);
        if Valid(t) then Some(t) else None
      case _ => None
  }

  /** Digits read back as the number they were written from. */
  lemma {:induction false} NumDigits(n: nat, w: nat)
    requires n < Pow10(w)
    ensures Num(Digits(n, w)) == Some(n)
  {
    if w > 0 {
      var d := Digits(n, w);
      assert d[..w - 1] == Digits(n / 10, w - 1);
      NumDigits(n / 10, w - 1);
    }
  }

  /** A digit run is the zero-padded writing of its value. */
  lemma {:induction false} DigitsNum(s: string)
    requires Num(s).Some?
    ensures Digits(Num(s).value, |s|) == s
  {
    if |s| > 0 {
      var v := Num(s[..|s| - 1]).value;
      DigitsNum(s[..|s| - 1]);
      var n := Num(s).value;
      assert n / 10 == v && n % 10 == s[|s| - 1] as int - '0' as int;
      assert s == s[..|s| - 1] + [s[|s| - 1]];
    }
  }

  /** Formatting then parsing gives the instant back. */
  lemma ParseFormat(t: DateTime)
    requires Valid(t)
    ensures ParseUtc(Format(t)) == Some(t)
  {
    FormatFields(t);
    FieldsRead(t);
  }

  /** The separators and the digit runs of a formatted timestamp. */
  lemma FormatFields(t: DateTime)
    requires Valid(t)
    ensures var s := Format(t);
      && s[4] == '-' && s[7] == '-' && s[10] == ' ' && s[13] == ':' && s[16] == ':'
      && s[0..4] == Digits(t.year, 4) && s[5..7] == Digits(t.month, 2) && s[8..10] == Digits(t.day, 2)
      && s[11..13] == Digits(t.hour, 2) && s[14..16] == Digits(t.minute, 2) && s[17..19] == Digits(t.second, 2)
  {
    var s := Format(t);
    var time := Field(t.hour, 2, ':', Field(t.minute, 2, ':', Digits(t.second, 2)));
    assert s == Digits(t.year, 4) + "-" + Digits(t.month, 2) + "-" + Digits(t.day, 2) + " " + time;
    assert s[11..] == time;
    FieldSlices(s, t);
    TimeSlices(time, t);
  }

  lemma FieldSlices(s: string, t: DateTime)
    requires Valid(t) && |s| == 19
    requires s[..11] == Digits(t.year, 4) + "-" + Digits(t.month, 2) + "-" + Digits(t.day, 2) + " "
    ensures s[4] == '-' && s[7] == '-' && s[10] == ' '
    ensures s[0..4] == Digits(t.year, 4) && s[5..7] == Digits(t.month, 2) && s[8..10] == Digits(t.day, 2)
  {
    var d := s[..11];
    assert d[0..4] == Digits(t.year, 4) && d[5..7] == Digits(t.month, 2) && d[8..10] == Digits(t.day, 2);
    assert s[0..4] == d[0..4] && s[5..7] == d[5..7] && s[8..10] == d[8..10];
  }

  lemma TimeSlices(time: string, t: DateTime)
    requires Valid(t)
    requires time == Field(t.hour, 2, ':', Field(t.minute, 2, ':', Digits(t.second, 2)))
    ensures |time| == 8 && time[2] == ':' && time[5] == ':'
    ensures time[0..2] == Digits(t.hour, 2) && time[3..5] == Digits(t.minute, 2) && time[6..8] == Digits(t.second, 2)
  {
    assert time == Digits(t.hour, 2) + ":" + Digits(t.minute, 2) + ":" + Digits(t.second, 2);
  }

  /** Each field's digits read back as the field. */
  lemma FieldsRead(t: DateTime)
    requires Valid(t)
    ensures Num(Digits(t.year, 4)) == Some(t.year)
    ensures Num(Digits(t.month, 2)) == Some(t.month) && Num(Digits(t.day, 2)) == Some(t.day)
    ensures Num(Digits(t.hour, 2)) == Some(t.hour) && Num(Digits(t.minute, 2)) == Some(t.minute)
    ensures Num(Digits(t.second, 2)) == Some(t.second)
  {
    assert Pow10(2) == 100 && Pow10(4) == 10000;
    NumDigits(t.year, 4);
    NumDigits(t.month, 2);
    NumDigits(t.day, 2);
    NumDigits(t.hour, 2);
    NumDigits(t.minute, 2);
    NumDigits(t.second, 2);
  }

  /** A text made of a field, a separator and a rest is that `Field`. */
  lemma FieldSplit(s: string, n: nat, w: nat, sep: char)
    requires |s| > w && s[w] == sep && Digits(n, w) == s[..w]
    ensures Field(n, w, sep, s[w + 1..]) == s
  {
    assert s == s[..w] + [s[w]] + s[w + 1..];
  }

  /** Whatever parses was written by `Format`: the text is the formatted instant. */
  lemma FormatParse(s: string)
    requires ParseUtc(s).Some?
    ensures Format(ParseUtc(s).value) == s
  {
    var t := ParseUtc(s).value;
    assert t.year == Num(s[0..4]).value && t.month == Num(s[5..7]).value && t.day == Num(s[8..10]).value;
    assert t.hour == Num(s[11..13]).value && t.minute == Num(s[14..16]).value
      && t.second == Num(s[17..19]).value;
    DigitsNum(s[0..4]);
    DigitsNum(s[5..7]);
    DigitsNum(s[8..10]);
    DigitsNum(s[11..13]);
    DigitsNum(s[14..16]);
    DigitsNum(s[17..19]);
    FieldSplit(s[14..], t.minute, 2, ':');
    assert s[14..][3..] == s[17..19];
    FieldSplit(s[11..], t.hour, 2, ':');
    assert s[11..][3..] == s[14..];
    FieldSplit(s[8..], t.day, 2, ' ');
    assert s[8..][3..] == s[11..];
    FieldSplit(s[5..], t.month, 2, '-');
    assert s[5..][3..] == s[8..];
    FieldSplit(s, t.year, 4, '-');
    assert s[5..] == s[4 + 1..];
  }
}
