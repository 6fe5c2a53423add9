/** ISO 8601 text of timestamps (akar-common `micros_to_iso`), and reading it back. */
module Timestamps {
  import opened Calendar

  const DAY: int := 86400000000

  // ------------------------------------------------------------------ the source

  function Digits(n: nat): (s: string)
    ensures |s| > 0
  {
    if n < 10 then [('0' as int + n) as char] else Digits(n / 10) + [('0' as int + n % 10) as char]
  }

  /** Decimal digits, filled up with zeros to at least `width`. */
  function Pad(n: nat, width: nat): (s: string)
    ensures |s| >= width
  {
    var s := Digits(n);
    if |s| >= width then s else seq(width - |s|, _ => '0') + s
  }

  /** At least four characters, the sign included. */
  function YearText(y: int): string {
    if y >= 0 then Pad(y, 4) else "-" + Pad(-y, 3)
  }

  function DateText(t: Date): string
    requires t.month >= 0 && t.day >= 0
  {
    YearText(t.year) + "-" + Pad(t.month, 2) + "-" + Pad(t.day, 2)
  }

  function TimeOfDayToIso(micros: int): string {
    var m := micros % DAY;
    var seconds, us := m / 1000000, m % 1000000;
    var minutes, s := seconds / 60, seconds % 60;
    var hours, min := minutes / 60, minutes % 60;
    var clock := Pad(hours, 2) + ":" + Pad(min, 2) + ":" + Pad(s, 2);
    if us == 0 then clock else clock + "." + Pad(us, 6)
  }

  function MicrosToIso(micros: int): string {
    var t := CivilFromDays(micros / DAY);
    CivilValid(micros / DAY);
    DateText(t) + "T" + TimeOfDayToIso(micros % DAY)
  }

  // ------------------------------------------------------------------ reading it back

  function ParseNat(s: string): int {
    if |s| == 0 then 0 else 10 * ParseNat(s[..|s| - 1]) + (s[|s| - 1] as int - '0' as int)
  }

  function ParseInt(s: string): int {
    if |s| > 0 && s[0] == '-' then -ParseNat(s[1..]) else ParseNat(s)
  }

  /** Where the character first occurs. */
  function Find(s: string, c: char): (i: nat)
    ensures i <= |s|
  {
    if |s| == 0 || s[0] == c then 0 else 1 + Find(s[1..], c)
  }

  function ParseDate(s: string): Date {
    if |s| < 6 then Date(0, 0, 0)
    else
      var n := |s|;
      Date(ParseInt(s[..n - 6]), ParseNat(s[n - 5..n - 3]), ParseNat(s[n - 2..]))
  }

  /** Digits after the point, in millionths: the first counts tenths, and what lies behind
      the sixth is not read. */
  function ParseFraction(s: string): int {
    if |s| <= 6 then ParseNat(s) * Tens(6 - |s|) else ParseNat(s[..6])
  }

  function ParseTime(s: string): int {
    if |s| < 8 then 0
    else
      var seconds := (ParseNat(s[0..2]) * 60 + ParseNat(s[3..5])) * 60 + ParseNat(s[6..8]);
      seconds * 1000000 + if |s| > 8 then ParseFraction(s[9..]) else 0
  }

  function ParseIso(s: string): int {
    var i := Find(s, 'T');
    DaysFromCivil(ParseDate(s[..i])) * DAY + if i < |s| then ParseTime(s[i + 1..]) else 0
  }

  // ------------------------------------------------------------------ numbers

  predicate Numeral(s: string) {
    forall i | 0 <= i < |s| :: '0' <= s[i] <= '9'
  }

  lemma {:induction false} DigitsFacts(n: nat)
    ensures ParseNat(Digits(n)) == n && Numeral(Digits(n))
  {
    if n < 10 {
      assert Digits(n)[..0] == [];
    } else {
      DigitsFacts(n / 10);
      assert Digits(n)[..|Digits(n)| - 1] == Digits(n / 10);
    }
  }

  /** A number below ten to the `k` has at most `k` digits. */
  lemma {:induction false} DigitsShort(n: nat, k: nat, bound: nat)
    requires k > 0 && n < bound && bound == Tens(k)
    ensures |Digits(n)| <= k
    decreases k
  {
    if n >= 10 {
      DigitsShort(n / 10, k - 1, Tens(k - 1));
    }
  }

  function Tens(k: nat): nat {
    if k == 0 then 1 else 10 * Tens(k - 1)
  }

  lemma {:induction false} LeadingZeros(k: nat, s: string)
    ensures ParseNat(seq(k, _ => '0') + s) == ParseNat(s)
    decreases |s|, k
  {
    var z := seq(k, _ => '0') + s;
    if |s| > 0 {
      LeadingZeros(k, s[..|s| - 1]);
      assert z[..|z| - 1] == seq(k, _ => '0') + s[..|s| - 1];
    } else if k > 0 {
      LeadingZeros(k - 1, s);
      assert z[..|z| - 1] == seq(k - 1, _ => '0') + s;
    }
  }

  lemma PadFacts(n: nat, width: nat)
    ensures ParseNat(Pad(n, width)) == n && Numeral(Pad(n, width))
  {
    DigitsFacts(n);
    if |Digits(n)| < width { LeadingZeros(width - |Digits(n)|, Digits(n)); }
  }

  lemma PadWidth(n: nat, width: nat)
    requires width > 0 && n < Tens(width)
    ensures |Pad(n, width)| == width
  {
    DigitsShort(n, width, Tens(width));
  }

  lemma YearTextFacts(y: int)
    ensures ParseInt(YearText(y)) == y && 'T' !in YearText(y)
  {
    hide Pad, ParseNat;
    if y >= 0 {
      PadFacts(y, 4);
    } else {
      PadFacts(-y, 3);
      assert YearText(y)[1..] == Pad(-y, 3);
    }
  }

  lemma TwoDigits(n: nat)
    requires n < 100
    ensures |Pad(n, 2)| == 2 && ParseNat(Pad(n, 2)) == n && 'T' !in Pad(n, 2)
  {
    assert Tens(2) == 100;
    PadWidth(n, 2);
    PadFacts(n, 2);
  }

  lemma {:induction false} FindFirst(a: string, b: string, c: char)
    requires c !in a
    ensures Find(a + [c] + b, c) == |a|
  {
    var s := a + [c] + b;
    if |a| > 0 {
      FindFirst(a[1..], b, c);
      assert s[1..] == a[1..] + [c] + b;
    }
  }

  // ------------------------------------------------------------------ round trips

  lemma DateRead(t: Date)
    requires ValidDate(t)
    ensures ParseDate(DateText(t)) == t && 'T' !in DateText(t)
  {
    hide Pad, ParseNat, YearText, ParseInt;
    assert t.month < 100 && t.day < 100;
    YearTextFacts(t.year);
    TwoDigits(t.month);
    TwoDigits(t.day);
    var s, y := DateText(t), YearText(t.year);
    var n := |s|;
    assert s[..n - 6] == y;
    assert s[n - 5..n - 3] == Pad(t.month, 2);
    assert s[n - 2..] == Pad(t.day, 2);
  }

  lemma ClockRead(h: nat, m: nat, s: nat, tail: string)
    requires h < 100 && m < 100 && s < 100
    ensures var c := Pad(h, 2) + ":" + Pad(m, 2) + ":" + Pad(s, 2) + tail;
      |c| == 8 + |tail| && ParseNat(c[0..2]) == h && ParseNat(c[3..5]) == m && ParseNat(c[6..8]) == s && c[8..] == tail
  {
    hide Pad, ParseNat;
    TwoDigits(h);
    TwoDigits(m);
    TwoDigits(s);
    var c := Pad(h, 2) + ":" + Pad(m, 2) + ":" + Pad(s, 2) + tail;
    assert c[0..2] == Pad(h, 2) && c[3..5] == Pad(m, 2) && c[6..8] == Pad(s, 2);
  }

  lemma TimeRead(micros: int)
    ensures ParseTime(TimeOfDayToIso(micros)) == micros % DAY
  {
    hide Pad, ParseNat, ParseFraction;
    var m := micros % DAY;
    var seconds, us := m / 1000000, m % 1000000;
    var minutes, s := seconds / 60, seconds % 60;
    var hours, min := minutes / 60, minutes % 60;
    assert m == ((hours * 60 + min) * 60 + s) * 1000000 + us;
    var tail := if us == 0 then "" else "." + Pad(us, 6);
    ClockRead(hours, min, s, tail);
    var clock := Pad(hours, 2) + ":" + Pad(min, 2) + ":" + Pad(s, 2);
    var text := TimeOfDayToIso(micros);
    assert text == clock + tail;
    if us != 0 {
      FractionRead(us);
      assert text[9..] == text[8..][1..] == Pad(us, 6);
    }
  }

  lemma FractionRead(us: nat)
    requires us < 1000000
    ensures ParseFraction(Pad(us, 6)) == us && |Pad(us, 6)| == 6
  {
    SixTens();
    PadWidth(us, 6);
    PadFacts(us, 6);
    hide Pad, ParseNat;
    assert Tens(0) == 1;
  }

  lemma SixTens()
    ensures Tens(6) == 1000000
  {
    assert Tens(3) == 1000;
  }

  // ------------------------------------------------------------------ the form of the text

  lemma {:induction false} NoLeadingZero(n: nat)
    requires n > 0
    ensures Digits(n)[0] != '0'
  {
    if n >= 10 { NoLeadingZero(n / 10); }
  }

  /** Digits only; more than the width asks for only if the number needs them. */
  lemma PadForm(n: nat, width: nat)
    requires width > 0
    ensures Numeral(Pad(n, width)) && (|Pad(n, width)| > width ==> Pad(n, width)[0] != '0')
  {
    DigitsFacts(n);
    if n > 0 { NoLeadingZero(n); }
  }

  /** At least four places, a sign included, and no zero in front beyond those. */
  lemma YearForm(y: int)
    ensures var s := YearText(y);
      && |s| >= 4
      && (y >= 0 ==> Numeral(s) && (|s| > 4 ==> s[0] != '0'))
      && (y < 0 ==> s[0] == '-' && Numeral(s[1..]) && (|s| > 4 ==> s[1] != '0'))
  {
    hide Pad, Numeral;
    if y >= 0 {
      PadForm(y, 4);
    } else {
      PadForm(-y, 3);
      assert YearText(y)[1..] == Pad(-y, 3);
    }
  }

  predicate IsDigit(c: char) {
    '0' <= c <= '9'
  }

  /** Two digits, a colon, two digits, a colon, two digits; then nothing, or a point and
      six digits. */
  predicate TimeShaped(s: string) {
    && (|s| == 8 || |s| == 15) && s[2] == s[5] == ':' && (|s| == 15 ==> s[8] == '.')
    && forall i | 0 <= i < |s| && i != 2 && i != 5 && i != 8 :: IsDigit(s[i])
  }

  /** A year, a hyphen, two digits, a hyphen and two digits. */
  predicate DateShaped(s: string, year: string) {
    && |s| == |year| + 6 && s[..|year|] == year
    && s[|s| - 6] == s[|s| - 3] == '-'
    && IsDigit(s[|s| - 5]) && IsDigit(s[|s| - 4]) && IsDigit(s[|s| - 2]) && IsDigit(s[|s| - 1])
  }

  lemma TwoShaped(n: nat)
    requires n < 100
    ensures |Pad(n, 2)| == 2 && IsDigit(Pad(n, 2)[0]) && IsDigit(Pad(n, 2)[1])
  {
    TwoDigits(n);
    PadFacts(n, 2);
  }

  lemma ClockShaped(h: nat, m: nat, s: nat)
    requires h < 100 && m < 100 && s < 100
    ensures var c := Pad(h, 2) + ":" + Pad(m, 2) + ":" + Pad(s, 2); |c| == 8 && TimeShaped(c)
  {
    hide Pad;
    TwoShaped(h);
    TwoShaped(m);
    TwoShaped(s);
  }

  /** The text of a time of day has that form, and a fraction exactly if there is one. */
  lemma TimeForm(micros: int)
    ensures TimeShaped(TimeOfDayToIso(micros))
    ensures |TimeOfDayToIso(micros)| == 8 <==> micros % DAY % 1000000 == 0
  {
    hide Pad;
    var m := micros % DAY;
    var seconds, us := m / 1000000, m % 1000000;
    var minutes, s := seconds / 60, seconds % 60;
    var hours, min := minutes / 60, minutes % 60;
    ClockShaped(hours, min, s);
    if us != 0 {
      FractionShaped(Pad(hours, 2) + ":" + Pad(min, 2) + ":" + Pad(s, 2), us);
    }
  }

  lemma FractionShaped(clock: string, us: nat)
    requires |clock| == 8 && TimeShaped(clock) && us < 1000000
    ensures |clock + "." + Pad(us, 6)| == 15 && TimeShaped(clock + "." + Pad(us, 6))
  {
    SixTens();
    PadWidth(us, 6);
    PadFacts(us, 6);
    hide Pad;
    var s := clock + "." + Pad(us, 6);
    forall i | 0 <= i < |s| && i != 2 && i != 5 && i != 8 ensures IsDigit(s[i]) {
      if i > 8 { assert s[i] == Pad(us, 6)[i - 9]; }
    }
  }

  lemma DateForm(t: Date)
    requires ValidDate(t)
    ensures DateShaped(DateText(t), YearText(t.year))
  {
    hide Pad, YearText;
    TwoShaped(t.month);
    TwoShaped(t.day);
  }

  /** The text is a date, a `T` and a time of day, each in its form. */
  lemma IsoForm(micros: int) returns (date: string, time: string)
    ensures MicrosToIso(micros) == date + "T" + time && TimeShaped(time)
    ensures |time| == 8 <==> micros % 1000000 == 0
    ensures DateShaped(date, YearText(CivilFromDays(micros / DAY).year))
  {
    hide Pad, TimeOfDayToIso, DateText, CivilFromDays, YearText, ValidDate, TimeShaped, DateShaped;
    var days, tod := micros / DAY, micros % DAY;
    CivilValid(days);
    var t := CivilFromDays(days);
    assert 0 <= t.month && 0 <= t.day by { ValidNat(t); }
    date, time := DateText(t), TimeOfDayToIso(tod);
    DateForm(t);
    TimeForm(tod);
    SameFraction(micros);
  }

  lemma SameFraction(micros: int)
    ensures micros % DAY % DAY % 1000000 == micros % 1000000
  {
    var days, tod := micros / DAY, micros % DAY;
    assert tod % DAY == tod && micros == days * DAY + tod;
  }

  /** Reading the text of a timestamp gives back the timestamp, negative ones included. */
  lemma IsoRoundTrip(micros: int)
    ensures ParseIso(MicrosToIso(micros)) == micros
  {
    hide Pad, ParseNat, ParseTime, TimeOfDayToIso, ParseDate, DateText, CivilFromDays, DaysFromCivil, ValidDate;
    var days, tod := micros / DAY, micros % DAY;
    CivilValid(days);
    var t := CivilFromDays(days);
    assert 0 <= t.month && 0 <= t.day by { ValidNat(t); }
    DateRead(t);
    TimeRead(tod);
    var date, time := DateText(t), TimeOfDayToIso(tod);
    var s := MicrosToIso(micros);
    assert s == date + "T" + time;
    FindFirst(date, time, 'T');
    assert date + "T" + time == date + ['T'] + time;
    assert s[..|date|] == date && s[|date| + 1..] == time;
    assert tod % DAY == tod;
    assert micros == days * DAY + tod;
  }

  lemma ValidNat(t: Date)
    requires ValidDate(t)
    ensures 1 <= t.month <= 12 && 1 <= t.day <= 31
  {
  }

  /** Different timestamps have different texts. */
  lemma IsoInjective(a: int, b: int)
    requires MicrosToIso(a) == MicrosToIso(b)
    ensures a == b
  {
    hide MicrosToIso, ParseIso;
    IsoRoundTrip(a);
    IsoRoundTrip(b);
  }
}
