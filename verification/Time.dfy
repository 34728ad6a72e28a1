// The ASN.1 time texts that the certificate authority writes and reads: the clock as
// ossl_asn1_time_from_tm prints it, and the UTCTime that ossl_asn1_time_to_tm accepts
// (crypto/asn1/a_time.c).
module Time {
  import opened Prelude

  // A point in time, in UTC.
  datatype Tm = Tm(year: nat, month: nat, day: nat, hour: nat, minute: nat, second: nat)
  {
    predicate Valid()
    {
      && 1 <= year <= 9999 && 1 <= month <= 12 && 1 <= day <= DaysIn(year, month)
      && hour <= 23 && minute <= 59 && second <= 59
    }
  }

  predicate LeapYear(year: nat)
  {
    year % 4 == 0 && (year % 100 != 0 || year % 400 == 0)
  }

  function DaysIn(year: nat, month: nat): nat
    requires 1 <= month <= 12
  {
    if month == 2 then (if LeapYear(year) then 29 else 28)
    else if month == 4 || month == 6 || month == 9 || month == 11 then 30
    else 31
  }

  function Digit(d: nat): (c: char)
    requires d < 10
    ensures IsDigit(c) && (c - '0') as nat == d
  {
    '0' + d as char
  }

  // printf("%02d")
  function Two(n: nat): (s: string)
    requires n < 100
    ensures |s| == 2 && Pair(s, 0) == Some(n)
  {
    [Digit(n / 10), Digit(n % 10)]
  }

  function ClockTail(tm: Tm): (s: string)
    requires tm.Valid()
    ensures |s| == 11
  {
    [Digit(tm.month / 10), Digit(tm.month % 10), Digit(tm.day / 10), Digit(tm.day % 10),
     Digit(tm.hour / 10), Digit(tm.hour % 10), Digit(tm.minute / 10), Digit(tm.minute % 10),
     Digit(tm.second / 10), Digit(tm.second % 10), 'Z']
  }

  // Years 1950 to 2049 are printed with two digits (UTCTime), others with four (GeneralizedTime).
  function ClockText(tm: Tm): (s: string)
    requires tm.Valid()
  {
    if 1950 <= tm.year < 2050 then Two(tm.year % 100) + ClockTail(tm)
    else Two(tm.year / 100) + Two(tm.year % 100) + ClockTail(tm)
  }

  // Two digits at position o.
  function Pair(s: string, o: nat): (n: Option<nat>)
    ensures n.Some? ==> n.value < 100
  {
    if o + 1 < |s| && IsDigit(s[o]) && IsDigit(s[o + 1])
    then Some((s[o] - '0') as nat * 10 + (s[o + 1] - '0') as nat)
    else None
  }

  predicate PairIn(s: string, o: nat, lo: nat, hi: nat)
  {
    Pair(s, o).Some? && lo <= Pair(s, o).value <= hi
  }

  // The time zone, which must end the text.
  predicate Zone(s: string, o: nat)
    requires o < |s|
  {
    || (s[o] == 'Z' && |s| == o + 1)
    || ((s[o] == '+' || s[o] == '-') && |s| == o + 5 && PairIn(s, o + 1, 0, 12) && PairIn(s, o + 3, 0, 59))
  }

  // ASN1_UTCTIME_check
  predicate UtcTimeOk(s: string)
  {
    && |s| >= 13
    && PairIn(s, 0, 0, 99) && PairIn(s, 2, 1, 12) && PairIn(s, 4, 1, 31)
    && (var yy := Pair(s, 0).value;
        Pair(s, 4).value <= DaysIn(if yy < 50 then 2000 + yy else 1900 + yy, Pair(s, 2).value))
    && PairIn(s, 6, 0, 23) && PairIn(s, 8, 0, 59)
    && if s[10] == 'Z' || s[10] == '+' || s[10] == '-' then Zone(s, 10)
       else PairIn(s, 10, 0, 59) && Zone(s, 12)
  }

  lemma ClockTailChars(tm: Tm)
    requires tm.Valid()
    ensures var s := ClockTail(tm);
            && Pair(s, 0) == Some(tm.month) && Pair(s, 2) == Some(tm.day) && Pair(s, 4) == Some(tm.hour)
            && Pair(s, 6) == Some(tm.minute) && Pair(s, 8) == Some(tm.second) && s[10] == 'Z'
  {
  }

  lemma PairShift(a: string, s: string, o: nat)
    ensures Pair(a + s, |a| + o) == Pair(s, o)
  {
  }

  lemma UtcClockPairs(tm: Tm)
    requires tm.Valid() && 1950 <= tm.year < 2050
    ensures var s := ClockText(tm);
            && |s| == 13 && Pair(s, 0) == Some(tm.year % 100)
            && Pair(s, 2) == Some(tm.month) && Pair(s, 4) == Some(tm.day) && Pair(s, 6) == Some(tm.hour)
            && Pair(s, 8) == Some(tm.minute) && Pair(s, 10) == Some(tm.second) && s[12] == 'Z'
  {
    var y, tail := Two(tm.year % 100), ClockTail(tm);
    ClockTailChars(tm);
    hide ClockTail, Two, Digit, DaysIn;
    PairShift(y, tail, 0);
    PairShift(y, tail, 2);
    PairShift(y, tail, 4);
    PairShift(y, tail, 6);
    PairShift(y, tail, 8);
    assert (y + tail)[12] == tail[10];
    assert Pair(y + tail, 0) == Pair(y, 0);
  }

  // The same for the years that are printed with four digits.
  lemma GeneralizedClockPairs(tm: Tm)
    requires tm.Valid() && !(1950 <= tm.year < 2050)
    ensures var s := ClockText(tm);
            && |s| == 15 && Pair(s, 0) == Some(tm.year / 100) && Pair(s, 2) == Some(tm.year % 100)
            && Pair(s, 4) == Some(tm.month) && Pair(s, 6) == Some(tm.day) && Pair(s, 8) == Some(tm.hour)
            && Pair(s, 10) == Some(tm.minute) && Pair(s, 12) == Some(tm.second) && s[14] == 'Z'
  {
    var c, y, tail := Two(tm.year / 100), Two(tm.year % 100), ClockTail(tm);
    ClockTailChars(tm);
    hide ClockTail, Two, Digit, DaysIn, Pair;
    var head := c + y;
    PairShift(head, tail, 0);
    PairShift(head, tail, 2);
    PairShift(head, tail, 4);
    PairShift(head, tail, 6);
    PairShift(head, tail, 8);
    FirstPairs(c, y, tail);
    assert (head + tail)[14] == tail[10];
  }

  lemma FirstPairs(a: string, b: string, rest: string)
    requires |a| == 2 && |b| == 2
    ensures Pair(a + b + rest, 0) == Pair(a, 0) && Pair(a + b + rest, 2) == Pair(b, 0)
  {
  }

  lemma UtcClockReadable(tm: Tm)
    requires tm.Valid() && 1950 <= tm.year < 2050
    ensures UtcTimeOk(ClockText(tm))
  {
    UtcClockPairs(tm);
    var s := ClockText(tm);
    assert s[10] != 'Z' && s[10] != '+' && s[10] != '-';
    hide ClockText, Pair, DaysIn;
    var yy := tm.year % 100;
    assert tm.year == if yy < 50 then 2000 + yy else 1900 + yy;
  }

  lemma GeneralizedClockUnreadable(tm: Tm)
    requires tm.Valid() && !(1950 <= tm.year < 2050)
    ensures !UtcTimeOk(ClockText(tm))
  {
    var y, tail := Two(tm.year / 100) + Two(tm.year % 100), ClockTail(tm);
    ClockTailChars(tm);
    hide ClockTail, Two, Digit, DaysIn;
    PairShift(y, tail, 6);
    PairShift(y, tail, 8);
    assert (y + tail)[10] == tail[6] && (y + tail)[12] == tail[8];
  }

  // The clock is readable as a UTCTime exactly in the years that are printed as one.
  lemma ClockTextReadable(tm: Tm)
    requires tm.Valid()
    ensures UtcTimeOk(ClockText(tm)) <==> 1950 <= tm.year < 2050
  {
    if 1950 <= tm.year < 2050 { UtcClockReadable(tm); } else { GeneralizedClockUnreadable(tm); }
  }

  // -------------------------------------------------------------------------
  // The texts that are read as a UTCTime, built from their parts: YYMMDDhhmm[ss] and a zone,
  // which is Z only after the seconds, or an offset of at most 12 hours and 59 minutes.

  datatype UtcParts = UtcParts(yy: nat, month: nat, day: nat, hour: nat, minute: nat, second: Option<nat>, zone: Offset)

  datatype Offset = Zulu | East(hours: nat, minutes: nat) | West(hours: nat, minutes: nat)

  // In the years 1950 to 2049 every fourth year is a leap year.
  predicate PartsOk(t: UtcParts)
  {
    && t.yy <= 99 && 1 <= t.month <= 12 && 1 <= t.day <= 31
    && (t.month in {4, 6, 9, 11} ==> t.day <= 30)
    && (t.month == 2 ==> t.day <= if t.yy % 4 == 0 then 29 else 28)
    && t.hour <= 23 && t.minute <= 59 && (t.second.Some? ==> t.second.value <= 59)
    && (t.zone.Zulu? ==> t.second.Some?)
    && (!t.zone.Zulu? ==> t.zone.hours <= 12 && t.zone.minutes <= 59)
  }

  function OffsetText(z: Offset): string
    requires !z.Zulu? ==> z.hours < 100 && z.minutes < 100
  {
    match z
    case Zulu => "Z"
    case East(h, m) => "+" + Two(h) + Two(m)
    case West(h, m) => "-" + Two(h) + Two(m)
  }

  function PartsText(t: UtcParts): string
    requires PartsOk(t)
  {
    Two(t.yy) + Two(t.month) + Two(t.day) + Two(t.hour) + Two(t.minute) +
    (if t.second.Some? then Two(t.second.value) else "") + OffsetText(t.zone)
  }

  lemma TwoOfPair(s: string, o: nat)
    requires Pair(s, o).Some?
    ensures o + 2 <= |s| && Two(Pair(s, o).value) == s[o..o + 2]
  {
    var a, b := (s[o] - '0') as nat, (s[o + 1] - '0') as nat;
    assert Digit(a) == s[o] && Digit(b) == s[o + 1];
    assert (a * 10 + b) / 10 == a && (a * 10 + b) % 10 == b;
  }

  lemma DaysInUtc(yy: nat, month: nat)
    requires yy <= 99 && 1 <= month <= 12
    ensures DaysIn(if yy < 50 then 2000 + yy else 1900 + yy, month) ==
            if month in {4, 6, 9, 11} then 30 else if month != 2 then 31 else if yy % 4 == 0 then 29 else 28
  {
  }

  lemma ZoneText(s: string, o: nat) returns (z: Offset)
    requires o < |s| && Zone(s, o)
    ensures !z.Zulu? ==> z.hours <= 12 && z.minutes <= 59
    ensures z.Zulu? <==> s[o] == 'Z'
    ensures s[o..] == OffsetText(z)
  {
    if s[o] == 'Z' {
      z := Zulu;
    } else {
      var h, m := Pair(s, o + 1).value, Pair(s, o + 3).value;
      TwoOfPair(s, o + 1);
      TwoOfPair(s, o + 3);
      hide Two;
      z := if s[o] == '+' then East(h, m) else West(h, m);
      assert s[o..] == [s[o]] + s[o + 1..o + 3] + s[o + 3..o + 5];
    }
  }

  lemma TextZone(a: string, z: Offset)
    requires !z.Zulu? ==> z.hours <= 12 && z.minutes <= 59
    ensures Zone(a + OffsetText(z), |a|)
  {
    if !z.Zulu? {
      var sign, h, m := if z.East? then "+" else "-", Two(z.hours), Two(z.minutes);
      var s := a + OffsetText(z);
      assert s == (a + sign) + (h + m) == (a + sign + h) + m;
      PairShift(a + sign, h + m, 0);
      PairShift(a + sign + h, m, 0);
      assert Pair(h + m, 0) == Pair(h, 0);
    }
  }

  lemma PartsOfUtc(s: string) returns (t: UtcParts)
    requires UtcTimeOk(s)
    ensures PartsOk(t) && s == PartsText(t)
  {
    var short := s[10] == 'Z' || s[10] == '+' || s[10] == '-';
    var second := if short then None else Some(Pair(s, 10).value);
    var z := ZoneText(s, if short then 10 else 12);
    t := UtcParts(Pair(s, 0).value, Pair(s, 2).value, Pair(s, 4).value, Pair(s, 6).value, Pair(s, 8).value, second, z);
    hide DaysIn, Pair, Zone, OffsetText, Two;
    DaysInUtc(t.yy, t.month);
    assert PartsOk(t);
    TenOfUtc(s);
    if !short { TwoOfPair(s, 10); assert s[10..] == s[10..12] + s[12..]; }
    hide UtcTimeOk, PartsOk;
    assert s == s[..10] + s[10..];
  }

  lemma TenOfUtc(s: string)
    requires UtcTimeOk(s)
    ensures s[..10] == Two(Pair(s, 0).value) + Two(Pair(s, 2).value) + Two(Pair(s, 4).value) +
                       Two(Pair(s, 6).value) + Two(Pair(s, 8).value)
  {
    hide DaysIn, Pair, Zone, OffsetText, Two;
    TwoOfPair(s, 0);
    TwoOfPair(s, 2);
    TwoOfPair(s, 4);
    TwoOfPair(s, 6);
    TwoOfPair(s, 8);
    assert s[..10] == s[0..2] + s[2..4] + s[4..6] + s[6..8] + s[8..10];
  }

  lemma UtcOfParts(t: UtcParts)
    requires PartsOk(t)
    ensures UtcTimeOk(PartsText(t))
  {
    hide DaysIn, Pair, Zone, OffsetText, Two;
    var ten := Two(t.yy) + Two(t.month) + Two(t.day) + Two(t.hour) + Two(t.minute);
    var sec := if t.second.Some? then Two(t.second.value) else "";
    var zone := OffsetText(t.zone);
    var s := PartsText(t);
    assert s == ten + sec + zone == ten + (sec + zone);
    TenPairs(t, sec + zone);
    TextZone(ten + sec, t.zone);
    DaysInUtc(t.yy, t.month);
    SecondsText(t, ten);
  }

  lemma SecondsText(t: UtcParts, ten: string)
    requires PartsOk(t) && |ten| == 10
    ensures var sec, zone := if t.second.Some? then Two(t.second.value) else "", OffsetText(t.zone);
            var s := ten + (sec + zone);
            && |s| >= 13
            && (t.second.None? <==> s[10] == 'Z' || s[10] == '+' || s[10] == '-')
            && (t.second.Some? ==> |ten + sec| == 12 && Pair(s, 10) == t.second)
            && (t.second.None? ==> |ten + sec| == 10)
  {
    var sec, zone := if t.second.Some? then Two(t.second.value) else "", OffsetText(t.zone);
    var s := ten + (sec + zone);
    assert s[10] == (sec + zone)[0];
    if t.second.Some? {
      PairShift(ten, sec + zone, 0);
      assert Pair(sec + zone, 0) == Pair(sec, 0);
    }
  }

  lemma TenPairs(t: UtcParts, rest: string)
    requires PartsOk(t)
    ensures var s := Two(t.yy) + Two(t.month) + Two(t.day) + Two(t.hour) + Two(t.minute) + rest;
            && Pair(s, 0) == Some(t.yy) && Pair(s, 2) == Some(t.month) && Pair(s, 4) == Some(t.day)
            && Pair(s, 6) == Some(t.hour) && Pair(s, 8) == Some(t.minute)
  {
  }

  // Read as a UTCTime: exactly the texts of a date, a time and a zone.
  lemma UtcTimeIff(s: string)
    ensures UtcTimeOk(s) <==> exists t: UtcParts :: PartsOk(t) && s == PartsText(t)
  {
    if UtcTimeOk(s) { var t := PartsOfUtc(s); }
    hide UtcTimeOk, PartsText, PartsOk;
    forall t: UtcParts | PartsOk(t) && s == PartsText(t) ensures UtcTimeOk(s) { UtcOfParts(t); }
  }

  // The first clock that is not.
  lemma MillenniumHalfUnreadable()
    ensures ClockText(Tm(2050, 1, 1, 0, 0, 0)) == "20500101000000Z" && !UtcTimeOk("20500101000000Z")
  {
    hide UtcTimeOk;
    ClockTextReadable(Tm(2050, 1, 1, 0, 0, 0));
    assert Two(20) == "20" && Two(50) == "50";
    assert ClockTail(Tm(2050, 1, 1, 0, 0, 0)) == "0101000000Z";
  }

  // The clock is printed with digits and a final 'Z' only.
  lemma ClockTextChars(tm: Tm)
    requires tm.Valid()
    ensures forall i :: 0 <= i < |ClockText(tm)| ==> IsDigit(ClockText(tm)[i]) || ClockText(tm)[i] == 'Z'
  {
  }
}
