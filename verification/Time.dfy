/** Times: lenient RFC 3339 text, its normal form, and instants. */
module Time {
  import opened Options
  import Utf8
  import opened Decimal
  import opened Calendar

  // --- the text: TIME_RE ------------------------------------------------------------------

  datatype Zone = Utc | Offset(plus: bool, hour: string, minute: string)

  /** The groups of a match, and which of the two fraction marks it had. */
  datatype Fields = Fields(year: string, month: string, day: string, hour: string, min: string, sec: string,
                           frac: Option<string>, comma: bool, zone: Zone)

  predicate IsZone(z: Zone) {
    z.Offset? ==> |z.hour| == 2 && AllDigits(z.hour) && |z.minute| == 2 && AllDigits(z.minute)
  }

  /** What each group matches. */
  predicate IsFields(f: Fields) {
    && |f.year| == 4 && AllDigits(f.year)
    && |f.month| == 2 && AllDigits(f.month)
    && |f.day| == 2 && AllDigits(f.day)
    && 1 <= |f.hour| <= 2 && AllDigits(f.hour)
    && |f.min| == 2 && AllDigits(f.min)
    && |f.sec| == 2 && AllDigits(f.sec)
    && (f.frac.Some? ==> f.frac.value != "" && AllDigits(f.frac.value))
    && (f.comma ==> f.frac.Some?)
    && IsZone(f.zone)
  }

  function ZoneText(z: Zone): string {
    match z
    case Utc => "Z"
    case Offset(plus, hour, minute) => [if plus then '+' else '-'] + (hour + (":" + minute))
  }

  function FracText(f: Fields): string {
    if f.frac.Some? then [if f.comma then ',' else '.'] + f.frac.value else ""
  }

  function DateText(f: Fields): string {
    f.year + "-" + f.month + "-" + f.day + "T"
  }

  function ClockText(f: Fields): string {
    f.hour + ":" + f.min + ":" + f.sec
  }

  function Text(f: Fields): string {
    DateText(f) + (ClockText(f) + (FracText(f) + ZoneText(f.zone)))
  }

  function DigitRun(s: string): (n: nat)
    ensures n <= |s| && AllDigits(s[..n]) && (n < |s| ==> !IsDigit(s[n]))
  {
    if s != "" && IsDigit(s[0]) then
      assert s[..1 + DigitRun(s[1..])] == [s[0]] + s[1..][..DigitRun(s[1..])];
      1 + DigitRun(s[1..])
    else 0
  }

  function MatchZone(s: string): (z: Option<Zone>)
    ensures z.Some? ==> IsZone(z.value) && ZoneText(z.value) == s
  {
    if s == "Z" then Some(Utc)
    else if |s| == 6 && (s[0] == '+' || s[0] == '-') && AllDigits(s[1..3]) && s[3] == ':' && AllDigits(s[4..6]) then
      var z := Offset(s[0] == '+', s[1..3], s[4..6]);
      assert [if z.plus then '+' else '-'] == [s[0]];
      assert s == [s[0]] + (s[1..3] + (":" + s[4..6]));
      Some(z)
    else None
  }

  /** The fraction, if there is one, and what follows it. */
  function MatchFrac(s: string): (r: Option<(Option<string>, bool, string)>)
    ensures r.Some? ==>
      var (frac, comma, rest) := r.value;
      && (frac.Some? ==> frac.value != "" && AllDigits(frac.value) && s == [if comma then ',' else '.'] + frac.value + rest)
      && (frac.None? ==> !comma && s == rest)
  {
    if s != "" && (s[0] == '.' || s[0] == ',') then
      var n := DigitRun(s[1..]);
      assert s[1..1 + n] == s[1..][..n];
      if n == 0 then None else Some((Some(s[1..1 + n]), s[0] == ',', s[1 + n..]))
    else Some((None, false, s))
  }

  predicate LooksLikeDate(s: string) {
    |s| >= 11 && AllDigits(s[..4]) && s[4] == '-' && AllDigits(s[5..7]) && s[7] == '-' && AllDigits(s[8..10]) && s[10] == 'T'
  }

  /** ":mm:ss" */
  predicate LooksLikeMinutes(s: string) {
    |s| >= 6 && s[0] == ':' && AllDigits(s[1..3]) && s[3] == ':' && AllDigits(s[4..6])
  }

  /** `TIME_RE.exec` */
  function Match(s: string): Option<Fields> {
    if !LooksLikeDate(s) then None
    else
      var t := s[11..];
      var h := DigitRun(t);
      if h != 1 && h != 2 then None
      else if !LooksLikeMinutes(t[h..]) then None
      else
        var u := t[h..];
        match MatchFrac(u[6..])
        case None => None
        case Some((frac, comma, rest)) =>
          match MatchZone(rest)
          case None => None
          case Some(zone) => Some(Fields(s[..4], s[5..7], s[8..10], t[..h], u[1..3], u[4..6], frac, comma, zone))
  }

  lemma {:induction false} DigitRunOf(d: string, rest: string)
    requires AllDigits(d) && (rest != "" ==> !IsDigit(rest[0]))
    ensures DigitRun(d + rest) == |d|
  {
    if d == "" {
      assert d + rest == rest;
    } else {
      DigitRunOf(d[1..], rest);
      assert (d + rest)[1..] == d[1..] + rest;
    }
  }

  lemma {:induction false} MatchZoneOf(z: Zone)
    requires IsZone(z)
    ensures MatchZone(ZoneText(z)) == Some(z)
    ensures ZoneText(z) != "" && !IsDigit(ZoneText(z)[0]) && ZoneText(z)[0] != '.' && ZoneText(z)[0] != ','
  {
    if z.Offset? {
      var s := ZoneText(z);
      assert s[1..3] == z.hour && s[4..6] == z.minute;
    }
  }

  lemma {:induction false} MatchFracOf(f: Fields)
    requires IsFields(f)
    ensures MatchFrac(FracText(f) + ZoneText(f.zone)) == Some((f.frac, f.comma, ZoneText(f.zone)))
  {
    hide ZoneText, DigitRun, IsZone;
    MatchZoneOf(f.zone);
    var z := ZoneText(f.zone);
    var s := FracText(f) + z;
    if f.frac.Some? {
      var n := |f.frac.value|;
      DigitRunOf(f.frac.value, z);
      assert s[1..] == f.frac.value + z;
      assert s[1..1 + n] == f.frac.value && s[1 + n..] == z;
    } else {
      assert s == z;
    }
  }

  lemma {:induction false} MatchMinutesOf(f: Fields, tail: string)
    requires IsFields(f)
    ensures var u := ":" + f.min + ":" + f.sec + tail;
            && ClockText(f) + tail == f.hour + u && DigitRun(f.hour + u) == |f.hour|
            && (f.hour + u)[..|f.hour|] == f.hour && (f.hour + u)[|f.hour|..] == u
            && LooksLikeMinutes(u) && u[1..3] == f.min && u[4..6] == f.sec && u[6..] == tail
  {
    hide DigitRun;
    var u := ":" + f.min + ":" + f.sec + tail;
    DigitRunOf(f.hour, u);
  }

  lemma {:induction false} MatchDateOf(f: Fields, rest: string)
    requires IsFields(f)
    ensures var s := DateText(f) + rest;
            LooksLikeDate(s) && s[..4] == f.year && s[5..7] == f.month && s[8..10] == f.day && s[11..] == rest
  {
  }

  lemma {:induction false} MatchOf(f: Fields)
    requires IsFields(f)
    ensures Match(Text(f)) == Some(f)
  {
    hide MatchFrac, MatchZone, DigitRun, ZoneText, FracText, DateText, ClockText, LooksLikeMinutes, LooksLikeDate;
    MatchZoneOf(f.zone);
    MatchFracOf(f);
    var tail := FracText(f) + ZoneText(f.zone);
    MatchDateOf(f, ClockText(f) + tail);
    MatchMinutesOf(f, tail);
  }

  lemma {:induction false} MatchFields(s: string)
    requires Match(s).Some?
    ensures IsFields(Match(s).value) && Text(Match(s).value) == s
  {
    hide MatchFrac, MatchZone, DigitRun, ZoneText, LooksLikeDate, LooksLikeMinutes, ClockText, AllDigits, IsZone;
    var f := Match(s).value;
    DateSlices(s);
    var t := s[11..];
    var h := DigitRun(t);
    var u := t[h..];
    MinuteSlices(u);
    var (frac, comma, rest) := MatchFrac(u[6..]).value;
    assert FracText(f) + ZoneText(f.zone) == u[6..];
    assert f.year + "-" + f.month + "-" + f.day + "T" == s[..11];
    assert ":" + f.min + ":" + f.sec == u[..6];
    Pieces(s, f, h);
  }

  lemma {:induction false} DateSlices(s: string)
    requires LooksLikeDate(s)
    ensures |s| >= 11 && s[..4] + "-" + s[5..7] + "-" + s[8..10] + "T" == s[..11]
    ensures |s[..4]| == 4 && AllDigits(s[..4]) && |s[5..7]| == 2 && AllDigits(s[5..7]) && |s[8..10]| == 2 && AllDigits(s[8..10])
  {
    hide AllDigits;
  }

  lemma {:induction false} MinuteSlices(u: string)
    requires LooksLikeMinutes(u)
    ensures |u| >= 6 && ":" + u[1..3] + ":" + u[4..6] == u[..6]
    ensures |u[1..3]| == 2 && AllDigits(u[1..3]) && |u[4..6]| == 2 && AllDigits(u[4..6])
  {
    hide AllDigits;
  }

  /** The three parts, put together again. */
  lemma {:induction false} Pieces(s: string, f: Fields, h: nat)
    requires |s| >= 11 && DateText(f) == s[..11] && h + 6 <= |s[11..]|
    requires f.hour == s[11..][..h] && ":" + f.min + ":" + f.sec == s[11..][h..][..6]
    requires FracText(f) + ZoneText(f.zone) == s[11..][h..][6..]
    ensures Text(f) == s
  {
    hide DateText, FracText, ZoneText;
    var t := s[11..];
    var u := t[h..];
    assert ClockText(f) == f.hour + (":" + f.min + ":" + f.sec);
    assert t[..h] + (u[..6] + u[6..]) == t;
    Utf8.Assoc(t[..h], u[..6], u[6..]);
    assert s[..11] + t == s;
  }

  /** The match finds exactly the texts the expression describes, and in one way. */
  lemma {:induction false} MatchExact(s: string, f: Fields)
    ensures Match(s) == Some(f) <==> IsFields(f) && Text(f) == s
  {
    if Match(s) == Some(f) { MatchFields(s); }
    if IsFields(f) && Text(f) == s { MatchOf(f); }
  }

  // --- normaliseTime and timeInstant ------------------------------------------------------

  datatype TimeRead = Refused | Unencodable(source: string) | Normal(text: string)
  datatype Instant = Instant(seconds: int, nanos: nat)

  function Number(s: string): nat {
    if AllDigits(s) then Value(s) else 0
  }

  predicate InRange(f: Fields) {
    && IsDate(Number(f.year), Number(f.month), Number(f.day))
    && Number(f.hour) <= 23 && Number(f.min) <= 59 && Number(f.sec) <= 59
    && (f.zone.Offset? ==> Number(f.zone.hour) <= 24 && Number(f.zone.minute) <= 60)
  }

  /** The zone offset in seconds, without its sign. */
  function OffsetOf(z: Zone): nat {
    if z.Offset? then (Number(z.hour) * 60 + Number(z.minute)) * 60 else 0
  }

  /** `(m[7] ?? "").slice(0, 9)` */
  function NineOf(f: Fields): (s: string)
    ensures |s| <= 9
  {
    if f.frac.Some? then (if |f.frac.value| <= 9 then f.frac.value else f.frac.value[..9]) else ""
  }

  function NormalZone(z: Zone): Zone {
    var offset := OffsetOf(z);
    if offset == 0 || z.Utc? then Utc else Offset(z.plus, Pad(offset / 3600, 2), Pad(offset % 3600 / 60, 2))
  }

  function NormalFields(f: Fields): Fields {
    var fraction := TrimZeros(NineOf(f));
    f.(hour := Pad(Number(f.hour), 2), frac := if fraction == "" then None else Some(fraction), comma := false, zone := NormalZone(f.zone))
  }

  function NormaliseTime(text: string): TimeRead {
    match Match(text)
    case None => Refused
    case Some(f) =>
      if !InRange(f) then Refused
      else if OffsetOf(f.zone) >= 86400 then Unencodable(text)
      else Normal(Text(NormalFields(f)))
  }

  function SecondsOf(f: Fields): int {
    var clock := Number(f.hour) * 3600 + Number(f.min) * 60 + Number(f.sec);
    var local := MakeDay(Number(f.year), Number(f.month) - 1, Number(f.day)) * 86400 + clock;
    if f.zone.Offset? && !f.zone.plus then local + OffsetOf(f.zone) else local - OffsetOf(f.zone)
  }

  function NanosOf(f: Fields): nat {
    Number(PadNine(NineOf(f)))
  }

  /** `timeInstant`: no range is checked, so a field too large runs over. */
  function TimeInstant(text: string): Option<Instant> {
    match Match(text)
    case None => None
    case Some(f) => Some(Instant(SecondsOf(f), NanosOf(f)))
  }

  lemma {:induction false} PadTwo(n: nat)
    requires n < 100
    ensures |Pad(n, 2)| == 2 && AllDigits(Pad(n, 2)) && Number(Pad(n, 2)) == n
  {
    Pow10Values();
    PadFits(n, 2);
  }

  lemma {:induction false} NormalZoneKeeps(z: Zone)
    requires IsZone(z) && OffsetOf(z) < 86400
    ensures IsZone(NormalZone(z)) && OffsetOf(NormalZone(z)) == OffsetOf(z)
    ensures NormalZone(z).Offset? ==> z.Offset? && NormalZone(z).plus == z.plus && OffsetOf(z) != 0
    ensures NormalZone(z).Offset? ==> Number(NormalZone(z).hour) <= 23 && Number(NormalZone(z).minute) <= 59
  {
    var offset := OffsetOf(z);
    if offset != 0 {
      var h, m := offset / 3600, offset % 3600 / 60;
      var k := Number(z.hour) * 60 + Number(z.minute);
      assert offset == k * 60;
      assert h == k / 60 && m == k % 60;
      PadTwo(h);
      PadTwo(m);
    }
  }

  lemma {:induction false} NineDigits(f: Fields)
    requires IsFields(f)
    ensures AllDigits(NineOf(f)) && AllDigits(TrimZeros(NineOf(f)))
  {
    TrimDigits(NineOf(f));
  }

  /** The normal form is again a time in range, at the same instant. */
  lemma {:induction false} NormalFieldsKeep(f: Fields)
    requires IsFields(f) && InRange(f) && OffsetOf(f.zone) < 86400
    ensures var n := NormalFields(f);
            && IsFields(n) && InRange(n) && OffsetOf(n.zone) == OffsetOf(f.zone)
            && SecondsOf(n) == SecondsOf(f) && NanosOf(n) == NanosOf(f)
            && NineOf(n) == TrimZeros(NineOf(f)) && Number(n.hour) == Number(f.hour)
  {
    hide Pad, Value, TrimZeros, PadNine, MakeDay, IsDate;
    NormalZoneKeeps(f.zone);
    PadTwo(Number(f.hour));
    NineDigits(f);
    TrimPad(NineOf(f));
  }

  /** `normaliseTime` keeps the instant, for every text it accepts and can write. */
  lemma {:induction false} NormalisedInstant(text: string)
    requires NormaliseTime(text).Normal?
    ensures TimeInstant(NormaliseTime(text).text) == TimeInstant(text) && TimeInstant(text).Some?
  {
    hide SecondsOf, NanosOf, Text, IsFields, InRange, OffsetOf;
    var f := Match(text).value;
    MatchFields(text);
    NormalFieldsKeep(f);
    MatchOf(NormalFields(f));
  }

  lemma {:induction false} PadAgain(s: string)
    requires |s| == 2 && AllDigits(s)
    ensures Pad(Number(s), 2) == s
  {
    PadOfValue(s);
  }

  lemma {:induction false} NormalZoneAgain(z: Zone)
    requires IsZone(z) && OffsetOf(z) < 86400
    ensures NormalZone(NormalZone(z)) == NormalZone(z)
  {
    hide Pad;
    NormalZoneKeeps(z);
  }

  /** Normalising again changes nothing. */
  lemma {:induction false} NormaliseIdempotent(text: string)
    requires NormaliseTime(text).Normal?
    ensures NormaliseTime(NormaliseTime(text).text) == NormaliseTime(text)
  {
    hide SecondsOf, NanosOf, Text, IsFields, InRange, OffsetOf, Pad, NormalZone, TrimZeros, NineOf;
    var f := Match(text).value;
    var n := NormalFields(f);
    MatchFields(text);
    NormalFieldsKeep(f);
    MatchOf(n);
    NormalFieldsAgain(f);
  }

  lemma {:induction false} NormalFieldsAgain(f: Fields)
    requires IsFields(f) && InRange(f) && OffsetOf(f.zone) < 86400
    ensures NormalFields(NormalFields(f)) == NormalFields(f)
  {
    hide SecondsOf, NanosOf, Text, OffsetOf, Pad, NormalZone, TrimZeros, Value, IsDate, NineOf;
    var n := NormalFields(f);
    NormalFieldsKeep(f);
    NormalZoneAgain(f.zone);
    TrimPad(NineOf(f));
  }

  /** A date of the calendar, a clock reading below 24:00 without leap seconds, and an offset up to 24 hours and 60 minutes. */
  ghost predicate IsTime(f: Fields)
    requires IsFields(f)
  {
    && 1 <= Value(f.month) <= 12 && 1 <= Value(f.day) <= MonthLengths(Value(f.year))[Value(f.month) - 1]
    && Value(f.hour) < 24 && Value(f.min) < 60 && Value(f.sec) < 60
    && (f.zone.Offset? ==> Value(f.zone.hour) <= 24 && Value(f.zone.minute) <= 60)
  }

  /** An offset of a day or more, which Go reads but cannot write. */
  ghost predicate DayAhead(f: Fields)
    requires IsFields(f)
  {
    f.zone.Offset? && Value(f.zone.hour) * 60 + Value(f.zone.minute) >= 24 * 60
  }

  /** What is refused, what is read but cannot be written, and what is normalised: by the text alone. */
  lemma {:induction false} NormaliseExact(text: string)
    ensures NormaliseTime(text).Refused? <==> !exists f :: IsFields(f) && Text(f) == text && IsTime(f)
    ensures NormaliseTime(text).Unencodable? <==> exists f :: IsFields(f) && Text(f) == text && IsTime(f) && DayAhead(f)
    ensures NormaliseTime(text).Unencodable? ==> NormaliseTime(text).source == text
  {
    hide IsFields, Text, InRange, OffsetOf, IsTime, DayAhead;
    forall f | IsFields(f) && Text(f) == text ensures Match(text) == Some(f) {
      MatchExact(text, f);
    }
    if Match(text).Some? {
      MatchFields(text);
      TimeInRange(Match(text).value);
    }
  }

  lemma {:induction false} TimeInRange(f: Fields)
    requires IsFields(f)
    ensures InRange(f) <==> IsTime(f)
    ensures DayAhead(f) <==> OffsetOf(f.zone) >= 86400
  {
    hide Value, AllDigits, DaysIn, MonthLengths;
    if 1 <= Value(f.month) <= 12 { DaysInMonth(Value(f.year), Value(f.month)); }
  }

  // --- what a text says of its instant ---------------------------------------------------------

  /** A zone is so far ahead of UTC (`+`) or behind it (`-`): the same clock reading in UTC is that much later or earlier. */
  lemma {:induction false} ZoneShifts(f: Fields)
    requires IsFields(f) && f.zone.Offset?
    ensures TimeInstant(Text(f)).Some? && TimeInstant(Text(f.(zone := Utc))).Some?
    ensures
      var here, utc := TimeInstant(Text(f)).value, TimeInstant(Text(f.(zone := Utc))).value;
      var offset := (Value(f.zone.hour) * 60 + Value(f.zone.minute)) * 60;
      && (f.zone.plus ==> here.seconds + offset == utc.seconds)
      && (!f.zone.plus ==> here.seconds - offset == utc.seconds)
      && here.nanos == utc.nanos
  {
    hide SecondsOf, NanosOf, Text, IsFields;
    ZoneSeconds(f);
    MatchOf(f);
    MatchOf(f.(zone := Utc));
  }

  lemma {:induction false} ZoneSeconds(f: Fields)
    requires IsFields(f) && f.zone.Offset?
    ensures
      var offset := (Value(f.zone.hour) * 60 + Value(f.zone.minute)) * 60;
      && IsFields(f.(zone := Utc)) && NanosOf(f) == NanosOf(f.(zone := Utc))
      && SecondsOf(f) == SecondsOf(f.(zone := Utc)) + if f.zone.plus then 0 - offset else offset
  {
    hide MakeDay, Value, AllDigits, PadNine;
  }

  /** Clock readings of one day lie apart as their hours, minutes and seconds do, whether the fields are in range or not. */
  lemma {:induction false} ClockCounts(f: Fields, g: Fields)
    requires IsFields(f) && IsFields(g) && f.zone == g.zone && (f.year, f.month, f.day) == (g.year, g.month, g.day)
    ensures TimeInstant(Text(f)).Some? && TimeInstant(Text(g)).Some?
    ensures TimeInstant(Text(g)).value.seconds - TimeInstant(Text(f)).value.seconds ==
            (Value(g.hour) - Value(f.hour)) * 3600 + (Value(g.min) - Value(f.min)) * 60 + (Value(g.sec) - Value(f.sec))
  {
    hide SecondsOf, NanosOf, Text, IsFields;
    ClockSeconds(f, g);
    MatchOf(f);
    MatchOf(g);
  }

  lemma {:induction false} ClockSeconds(f: Fields, g: Fields)
    requires IsFields(f) && IsFields(g) && f.zone == g.zone && (f.year, f.month, f.day) == (g.year, g.month, g.day)
    ensures SecondsOf(g) - SecondsOf(f) ==
            (Value(g.hour) - Value(f.hour)) * 3600 + (Value(g.min) - Value(f.min)) * 60 + (Value(g.sec) - Value(f.sec))
  {
    hide MakeDay, Value, AllDigits, OffsetOf;
  }

  lemma {:induction false} ValuePrefix(s: string, k: nat)
    requires AllDigits(s) && k <= |s|
    ensures Value(s[..k]) == Value(s) / Pow10(|s| - k)
    decreases |s| - k
  {
    if k == |s| {
      assert s[..k] == s;
    } else {
      var m := |s| - 1;
      ValuePrefix(s[..m], k);
      assert s[..m][..k] == s[..k];
      DivTen(Value(s[..m]), DigitOf(s[m]), Pow10(m - k));
    }
  }

  lemma {:induction false} DivTen(v: nat, d: nat, p: nat)
    requires d < 10 && p > 0
    ensures (v * 10 + d) / (10 * p) == v / p
  {
    var q, r := v / p, v % p;
    assert v == q * p + r;
    assert v * 10 + d == q * (10 * p) + (10 * r + d) && 10 * r + d < 10 * p;
    DivUnique(v * 10 + d, 10 * p, q, 10 * r + d);
  }

  lemma {:induction false} DivUnique(n: nat, p: nat, q: nat, r: nat)
    requires p > 0 && n == q * p + r && r < p
    ensures n / p == q
  {
    DivMod(n, p);
    OneQuotient(p, n / p, n % p, q, r);
  }

  lemma {:induction false} DivMod(n: nat, p: nat)
    requires p > 0
    ensures n == n / p * p + n % p && n % p < p
  {
  }

  lemma {:induction false} OneQuotient(p: nat, a: nat, x: nat, b: nat, y: nat)
    requires x < p && y < p && a * p + x == b * p + y
    ensures a == b
  {
    if a < b {
      assert (b - a) * p == b * p - a * p;
      AtLeast(b - a, p);
    } else if b < a {
      assert (a - b) * p == a * p - b * p;
      AtLeast(a - b, p);
    }
  }

  lemma {:induction false} AtLeast(k: nat, p: nat)
    requires k > 0
    ensures k * p >= p
  {
    assert k * p == (k - 1) * p + p;
  }

  lemma {:induction false} Pow10Sum(a: nat, b: nat)
    ensures Pow10(a + b) == Pow10(a) * Pow10(b)
    decreases a
  {
    if a > 0 {
      Pow10Sum(a - 1, b);
      assert Pow10(a + b) == 10 * (Pow10(a - 1) * Pow10(b)) == (10 * Pow10(a - 1)) * Pow10(b);
    } else {
      assert Pow10(0) == 1;
    }
  }

  /** The nanoseconds are the fraction of a second, however many digits it has, cut off at the ninth; none are 0. */
  lemma {:induction false} NanosFloor(f: Fields)
    requires IsFields(f)
    ensures TimeInstant(Text(f)).Some?
    ensures TimeInstant(Text(f)).value.nanos ==
            if f.frac.Some? then Value(f.frac.value) * 1_000_000_000 / Pow10(|f.frac.value|) else 0
  {
    hide SecondsOf, Text, Value;
    MatchOf(f);
    if f.frac.Some? {
      FractionFloor(f.frac.value, f);
    } else {
      NoNanos();
    }
  }

  lemma {:induction false} FractionFloor(s: string, f: Fields)
    requires s != "" && AllDigits(s) && f.frac == Some(s)
    ensures NanosOf(f) == Value(s) * 1_000_000_000 / Pow10(|s|)
  {
    hide Value, AllDigits;
    Pow10Values();
    if |s| <= 9 {
      ValueScaled(s, 9 - |s|);
      Pow10Sum(|s|, 9 - |s|);
      ScaleDown(Value(s), Pow10(|s|), Pow10(9 - |s|), 1_000_000_000);
    } else {
      var nine := s[..9];
      FirstNine(s);
      Pow10Sum(9, |s| - 9);
      ScaleOut(Value(s), Pow10(|s| - 9), 1_000_000_000);
    }
  }

  lemma {:induction false} FirstNine(s: string)
    requires |s| > 9 && AllDigits(s)
    ensures AllDigits(s[..9]) && PadNine(s[..9]) == s[..9] && Value(s[..9]) == Value(s) / Pow10(|s| - 9)
  {
    ValuePrefix(s, 9);
  }

  lemma {:induction false} ScaleDown(v: nat, p: nat, q: nat, whole: nat)
    requires p > 0 && q > 0 && p * q == whole
    ensures v * whole / p == v * q
  {
    assert v * whole == (v * q) * p + 0 by { assert v * (p * q) == (v * q) * p; }
    DivUnique(v * whole, p, v * q, 0);
  }

  lemma {:induction false} ScaleOut(v: nat, p: nat, whole: nat)
    requires p > 0 && whole > 0
    ensures v * whole / (whole * p) == v / p
  {
    var q, r := v / p, v % p;
    assert v == q * p + r;
    assert v * whole == q * (whole * p) + r * whole by { assert (q * p + r) * whole == (q * p) * whole + r * whole; }
    assert r * whole < p * whole;
    DivUnique(v * whole, whole * p, q, r * whole);
  }

  /**
   What normalising changes: the hour gets two digits, the fraction a point and no trailing zero, the offset a minute
   below 60 and `Z` for zero. Date, minute, second and the sign of the zone stay as they were.
   */
  lemma {:induction false} NormalForm(f: Fields) returns (n: Fields)
    requires IsFields(f) && IsTime(f) && !DayAhead(f)
    ensures NormaliseTime(Text(f)) == Normal(Text(n)) && IsFields(n)
    ensures (n.year, n.month, n.day, n.min, n.sec) == (f.year, f.month, f.day, f.min, f.sec)
    ensures |n.hour| == 2 && Value(n.hour) == Value(f.hour)
    ensures !n.comma && (n.frac.Some? ==> |n.frac.value| <= 9 && n.frac.value[|n.frac.value| - 1] != '0')
    ensures n.zone.Utc? <==> f.zone.Utc? || (Value(f.zone.hour) == 0 && Value(f.zone.minute) == 0)
    ensures n.zone.Offset? ==>
      && n.zone.plus == f.zone.plus && Value(n.zone.minute) < 60
      && Value(n.zone.hour) * 60 + Value(n.zone.minute) == Value(f.zone.hour) * 60 + Value(f.zone.minute)
  {
    hide SecondsOf, NanosOf, Text, Value, TrimZeros, IsDate, NineOf, Pad;
    n := NormalFields(f);
    TimeInRange(f);
    MatchOf(f);
    NormalFieldsKeep(f);
    PadTwo(Number(f.hour));
    NormalZoneKeeps(f.zone);
    NoTrailingZero(NineOf(f));
  }

  lemma {:induction false} NoTrailingZero(s: string)
    ensures var r := TrimZeros(s); r != "" ==> r[|r| - 1] != '0'
  {
    if s != "" && s[|s| - 1] == '0' {
      NoTrailingZero(s[..|s| - 1]);
    }
  }

  // --- instants to UTC text: db/time.ts ------------------------------------------------------

  /** The largest absolute number of seconds a JavaScript `Date` holds. */
  const DATE_LIMIT: int := 8_640_000_000_000

  /** The UTC fields as text; for a `Date` that is not valid every getter is NaN, which no comparison refuses. */
  datatype Clock = OutOfRange | Clock(date: string, clock: string)

  function DateAndClock(t: Instant): Clock {
    if !(-DATE_LIMIT <= t.seconds <= DATE_LIMIT) then Clock("0NaN-NaN-NaN", "NaN:NaN:NaN")
    else
      var day, s := t.seconds / 86400, t.seconds % 86400;
      var year := YearOf(day);
      if year < 1 || year > 9999 then OutOfRange
      else
        Clock(Pad(year, 4) + "-" + Pad(MonthOf(day) + 1, 2) + "-" + PadInt(DateOf(day)),
              Pad(s / 3600, 2) + ":" + Pad(s % 3600 / 60, 2) + ":" + Pad(s % 60, 2))
  }

  function PadInt(n: int): string {
    if n >= 0 then Pad(n, 2) else "-" + Pad(-n, 1)
  }

  /** `toSqlTime`; `None` is the RangeError. */
  function ToSqlTime(t: Instant): Option<string> {
    match DateAndClock(t)
    case OutOfRange => None
    case Clock(date, clock) =>
      var micro := t.nanos / 1000;
      Some(date + " " + clock + (if micro > 0 then "." + Pad(micro, 6) else ""))
  }

  /** `toRfc3339` */
  function ToRfc3339(t: Instant): Option<string> {
    match DateAndClock(t)
    case OutOfRange => None
    case Clock(date, clock) =>
      var fraction := TrimZeros(Pad(t.nanos, 9));
      Some(date + "T" + clock + (if fraction == "" then "" else "." + fraction) + "Z")
  }

  const FIRST_SECOND: int := -62135596800
  const LAST_SECOND: int := 253402300799

  /** An instant of the years 1 to 9999. */
  predicate IsInstant(t: Instant) {
    FIRST_SECOND <= t.seconds <= LAST_SECOND && t.nanos < 1_000_000_000
  }

  /** The fields of an instant as the match would have them. */
  function UtcFields(t: Instant): Fields {
    var day, s := t.seconds / 86400, t.seconds % 86400;
    var fraction := TrimZeros(Pad(t.nanos, 9));
    Fields(Pad(if YearOf(day) >= 0 then YearOf(day) else 0, 4), Pad(MonthOf(day) + 1, 2), PadInt(DateOf(day)),
           Pad(s / 3600, 2), Pad(s % 3600 / 60, 2), Pad(s % 60, 2),
           if fraction == "" then None else Some(fraction), false, Utc)
  }

  lemma {:induction false} InYears(t: Instant)
    ensures DateAndClock(t).OutOfRange? <==>
            -DATE_LIMIT <= t.seconds <= DATE_LIMIT && !(FIRST_SECOND <= t.seconds <= LAST_SECOND)
  {
    YearRange(t.seconds / 86400);
  }

  /** `instantOfDate`, of a date so many milliseconds from the epoch. */
  function InstantOfDate(ms: int): Instant {
    Instant(ms / 1000, ms % 1000 * 1_000_000)
  }

  lemma {:induction false} TwoDigits(s: string)
    requires |s| <= 2 && AllDigits(s)
    ensures Number(s) <= 99
  {
    ValueBound(s);
    Pow10Values();
    if |s| == 0 { assert s == ""; }
  }

  /** Day numbers of four-digit years stay small, wherever month and date run over to. */
  lemma {:induction false} DaysAreBounded(year: int, month: int, date: int)
    requires 0 <= year <= 9999 && -1 <= month <= 98 && 0 <= date <= 99
    ensures -800_000 <= MakeDay(year, month, date) <= 4_000_000
  {
    assert -1 <= month / 12 <= 8;
  }

  /** Every time text that is read, in range or not, names an instant that a `Date` can hold. */
  lemma {:induction false} DecodedTimeIsInDate(text: string)
    requires TimeInstant(text).Some?
    ensures -DATE_LIMIT <= TimeInstant(text).value.seconds <= DATE_LIMIT && TimeInstant(text).value.nanos < 1_000_000_000
  {
    hide MakeDay, Text, AllDigits, IsZone;
    MatchFields(text);
    FieldsAreInDate(Match(text).value);
  }

  lemma {:induction false} FieldsAreInDate(f: Fields)
    requires IsFields(f)
    ensures -DATE_LIMIT <= SecondsOf(f) <= DATE_LIMIT && NanosOf(f) < 1_000_000_000
  {
    hide MakeDay, AllDigits, Number, PadNine, NineOf;
    YearBound(f.year);
    TwoDigits(f.month);
    TwoDigits(f.day);
    TwoDigits(f.hour);
    TwoDigits(f.min);
    TwoDigits(f.sec);
    OffsetBound(f.zone);
    DaysAreBounded(Number(f.year), Number(f.month) - 1, Number(f.day));
    NanosBound(f);
  }

  lemma {:induction false} YearBound(s: string)
    requires |s| == 4 && AllDigits(s)
    ensures Number(s) <= 9999
  {
    ValueBound(s);
    Pow10Values();
  }

  lemma {:induction false} OffsetBound(z: Zone)
    requires IsZone(z)
    ensures OffsetOf(z) <= 1_000_000
  {
    hide AllDigits, Number;
    if z.Offset? {
      TwoDigits(z.hour);
      TwoDigits(z.minute);
    }
  }

  lemma {:induction false} NinePadded(s: string)
    requires |s| <= 9 && AllDigits(s)
    ensures |PadNine(s)| == 9 && AllDigits(PadNine(s))
  {
  }

  lemma {:induction false} NanosBound(f: Fields)
    requires IsFields(f)
    ensures NanosOf(f) < 1_000_000_000
  {
    NineDigits(f);
    NinePadded(NineOf(f));
    ValueBound(PadNine(NineOf(f)));
    Pow10Values();
  }

  /**
   The instants the program converts — of a decoded time, or of a `Date` — are refused exactly outside the years 1 to
   9999.
   */
  lemma {:induction false} DecodedTimeRefused(text: string)
    requires TimeInstant(text).Some?
    ensures var t := TimeInstant(text).value; ToSqlTime(t).None? <==> !(FIRST_SECOND <= t.seconds <= LAST_SECOND)
  {
    hide TimeInstant, ToSqlTime;
    DecodedTimeIsInDate(text);
    SqlTimeRefuses(TimeInstant(text).value);
  }

  lemma {:induction false} DateRefused(ms: int)
    requires -1000 * DATE_LIMIT <= ms <= 1000 * DATE_LIMIT  // what a valid `Date` can be
    ensures var t := InstantOfDate(ms);
            && (ToSqlTime(t).None? <==> !(FIRST_SECOND <= t.seconds <= LAST_SECOND))
            && t.seconds * 1000 * 1_000_000 + t.nanos == ms * 1_000_000 && t.nanos < 1_000_000_000
  {
    hide ToSqlTime;
    SqlTimeRefuses(InstantOfDate(ms));
  }

  /** `toSqlTime` refuses exactly the seconds outside the years 1 to 9999 that a `Date` can hold at all. */
  lemma {:induction false} SqlTimeRefuses(t: Instant)
    ensures ToSqlTime(t).None? <==>
            -8_640_000_000_000 <= t.seconds < -62_135_596_800 || 253_402_300_799 < t.seconds <= 8_640_000_000_000
  {
    hide DateAndClock;
    InYears(t);
  }

  /** Beyond that the check does not hold: NaN is neither below 1 nor above 9999, and the text is no time at all. */
  lemma {:induction false} SqlTimeOfInvalidDate(t: Instant)
    requires t.seconds > DATE_LIMIT || t.seconds < -DATE_LIMIT
    ensures ToSqlTime(t).Some? && "0NaN-NaN-NaN" + " " + "NaN:NaN:NaN" <= ToSqlTime(t).value
  {
  }

  lemma {:induction false} TrimmedNanos(n: nat)
    requires n < 1_000_000_000
    ensures var f := TrimZeros(Pad(n, 9));
            && |Pad(n, 9)| == 9 && AllDigits(f) && |f| <= 9 && Number(PadNine(f)) == n && TrimZeros(f) == f
  {
    Pow10Values();
    PadFits(n, 9);
    TrimPad(Pad(n, 9));
    assert PadNine(Pad(n, 9)) == Pad(n, 9);
    TrimDigits(Pad(n, 9));
  }

  lemma {:induction false} UtcClock(s: int)
    requires 0 <= s < 86400
    ensures |Pad(s / 3600, 2)| == 2 && |Pad(s % 3600 / 60, 2)| == 2 && |Pad(s % 60, 2)| == 2
    ensures Number(Pad(s / 3600, 2)) == s / 3600 <= 23
    ensures Number(Pad(s % 3600 / 60, 2)) == s % 3600 / 60 <= 59 && Number(Pad(s % 60, 2)) == s % 60
    ensures s / 3600 * 3600 + s % 3600 / 60 * 60 + s % 60 == s
  {
    hide Pad, Number, AllDigits;
    ClockParts(s);
    PadTwo(s / 3600);
    PadTwo(s % 3600 / 60);
    PadTwo(s % 60);
  }

  lemma {:induction false} ClockParts(s: int)
    requires 0 <= s < 86400
    ensures 0 <= s / 3600 <= 23 && 0 <= s % 3600 / 60 <= 59 && 0 <= s % 60 <= 59
    ensures s / 3600 * 3600 + s % 3600 / 60 * 60 + s % 60 == s
  {
    assert s % 3600 % 60 == s % 60;
  }

  lemma {:induction false} UtcDate(day: int)
    requires 1 <= YearOf(day) <= 9999
    ensures |Pad(YearOf(day), 4)| == 4 && Number(Pad(YearOf(day), 4)) == YearOf(day)
    ensures |Pad(MonthOf(day) + 1, 2)| == 2 && Number(Pad(MonthOf(day) + 1, 2)) == MonthOf(day) + 1
    ensures |PadInt(DateOf(day))| == 2 && AllDigits(PadInt(DateOf(day))) && Number(PadInt(DateOf(day))) == DateOf(day)
    ensures IsDate(YearOf(day), MonthOf(day) + 1, DateOf(day))
    ensures MakeDay(YearOf(day), MonthOf(day), DateOf(day)) == day
  {
    hide Pad, MakeDay, YearOf, MonthOf, DateOf;
    DayRoundTrip(day);
    Pow10Values();
    PadFits(YearOf(day), 4);
    PadTwo(MonthOf(day) + 1);
    PadTwo(DateOf(day));
  }

  lemma {:induction false} UtcFieldsRead(t: Instant)
    requires IsInstant(t)
    ensures var f := UtcFields(t);
            IsFields(f) && InRange(f) && SecondsOf(f) == t.seconds && NanosOf(f) == t.nanos
  {
    hide Pad, MakeDay, YearOf, MonthOf, DateOf, TrimZeros, PadNine, IsDate, PadInt;
    var day, s := t.seconds / 86400, t.seconds % 86400;
    YearRange(day);
    UtcDate(day);
    UtcClock(s);
    TrimmedNanos(t.nanos);
    assert day * 86400 + s == t.seconds;
  }

  lemma {:induction false} Rfc3339IsText(t: Instant)
    requires IsInstant(t)
    ensures ToRfc3339(t) == Some(Text(UtcFields(t)))
  {
    hide Pad, YearOf, MonthOf, DateOf, TrimZeros, PadInt;
    InYears(t);
    YearRange(t.seconds / 86400);
    var f := UtcFields(t);
    var date := f.year + "-" + f.month + "-" + f.day;
    assert DateText(f) == date + "T";
    var tail := FracText(f) + "Z";
    assert ToRfc3339(t).value == date + "T" + ClockText(f) + FracText(f) + "Z";
    assert date + "T" + ClockText(f) + FracText(f) + "Z" == date + "T" + (ClockText(f) + tail);
  }

  /** The text of an instant names that instant. */
  lemma {:induction false} Rfc3339RoundTrip(t: Instant)
    requires IsInstant(t)
    ensures ToRfc3339(t).Some? && TimeInstant(ToRfc3339(t).value) == Some(t)
  {
    hide Text, UtcFields, SecondsOf, NanosOf, ToRfc3339, IsFields;
    Rfc3339IsText(t);
    UtcFieldsRead(t);
    MatchOf(UtcFields(t));
  }

  /** And it is already in normal form. */
  lemma {:induction false} Rfc3339IsNormal(t: Instant)
    requires IsInstant(t)
    ensures ToRfc3339(t).Some? && NormaliseTime(ToRfc3339(t).value) == Normal(ToRfc3339(t).value)
  {
    hide Text, UtcFields, SecondsOf, NanosOf, ToRfc3339, IsFields, InRange, NormalFields;
    var f := UtcFields(t);
    Rfc3339IsText(t);
    UtcFieldsRead(t);
    MatchOf(f);
    UtcFieldsNormal(t);
  }

  lemma {:induction false} UtcFieldsNormal(t: Instant)
    requires IsInstant(t)
    ensures NormalFields(UtcFields(t)) == UtcFields(t) && OffsetOf(UtcFields(t).zone) == 0
  {
    hide Pad, YearOf, MonthOf, DateOf, TrimZeros, PadInt;
    UtcClock(t.seconds % 86400);
    TrimmedNanos(t.nanos);
  }

  // --- the SQL text ---------------------------------------------------------------------------

  /** A TIMESTAMP text as the RFC 3339 time it stands for, in a UTC session. */
  function SqlAsRfc3339(s: string): string
    requires |s| >= 11
  {
    s[..10] + "T" + s[11..] + "Z"
  }

  /** The instant, cut off at the microsecond. */
  function Microsecond(t: Instant): Instant {
    Instant(t.seconds, t.nanos / 1000 * 1000)
  }

  /** The TIMESTAMP text, read in a UTC session, names the instant. */
  predicate SqlNames(s: Option<string>, t: Instant) {
    s.Some? && |s.value| >= 19 && s.value[10] == ' ' && TimeInstant(SqlAsRfc3339(s.value)) == Some(t)
  }

  lemma {:induction false} ValueScaled(s: string, k: nat)
    requires AllDigits(s)
    ensures AllDigits(s + Zeros(k)) && Value(s + Zeros(k)) == Value(s) * Pow10(k)
  {
    hide Value;
    if k == 0 {
      assert s + Zeros(0) == s;
    } else {
      ValueScaled(s, k - 1);
      ValueSnoc(s + Zeros(k - 1), '0');
      assert s + Zeros(k) == (s + Zeros(k - 1)) + ['0'];
      TenTimes(Value(s), k);
    }
  }

  lemma {:induction false} TenTimes(v: nat, k: nat)
    requires k > 0
    ensures v * Pow10(k - 1) * 10 == v * Pow10(k)
  {
    assert Pow10(k) == 10 * Pow10(k - 1);
    assert v * (10 * Pow10(k - 1)) == v * Pow10(k - 1) * 10;
  }

  function SqlFields(t: Instant): Fields {
    var micro := t.nanos / 1000;
    UtcFields(t).(frac := if micro > 0 then Some(Pad(micro, 6)) else None)
  }

  lemma {:induction false} MicroNanos(micro: nat)
    requires micro < 1_000_000
    ensures |Pad(micro, 6)| == 6 && Number(PadNine(Pad(micro, 6))) == micro * 1000
  {
    Pow10Values();
    PadFits(micro, 6);
    ValueScaled(Pad(micro, 6), 3);
  }

  lemma {:induction false} SqlFieldsRead(t: Instant)
    requires IsInstant(t)
    ensures var f := SqlFields(t);
            IsFields(f) && SecondsOf(f) == t.seconds && NanosOf(f) == t.nanos / 1000 * 1000
  {
    hide Pad, MakeDay, YearOf, MonthOf, DateOf, TrimZeros, PadNine, IsDate, PadInt;
    var micro := t.nanos / 1000;
    UtcFieldsRead(t);
    MicroNanos(micro);
    NoNanos();
    assert SecondsOf(SqlFields(t)) == SecondsOf(UtcFields(t));
  }

  lemma {:induction false} NoNanos()
    ensures Number(PadNine("")) == 0
  {
    ValueZeros(9, "");
    assert Zeros(9) + "" == PadNine("") == "" + Zeros(9);
  }

  lemma {:induction false} SqlIsText(t: Instant)
    requires IsInstant(t)
    ensures ToSqlTime(t).Some? && |ToSqlTime(t).value| >= 19
    ensures SqlAsRfc3339(ToSqlTime(t).value) == Text(SqlFields(t))
    ensures ToSqlTime(t).value[..10] + "T" == DateText(SqlFields(t)) && ToSqlTime(t).value[10] == ' '
    ensures ToSqlTime(t).value[11..] == ClockText(SqlFields(t)) + FracText(SqlFields(t))
  {
    hide Pad, YearOf, MonthOf, DateOf, TrimZeros, PadInt;
    InYears(t);
    YearRange(t.seconds / 86400);
    UtcDate(t.seconds / 86400);
    UtcClock(t.seconds % 86400);
    var f := SqlFields(t);
    var date := f.year + "-" + f.month + "-" + f.day;
    var s := ToSqlTime(t).value;
    assert |date| == 10 && DateText(f) == date + "T";
    assert s == date + " " + ClockText(f) + FracText(f);
    assert s[..10] == date && s[11..] == ClockText(f) + FracText(f);
  }

  /** `toSqlTime` names the instant, cut off at the microsecond. */
  lemma {:induction false} SqlTimeNamesMicrosecond(t: Instant)
    requires IsInstant(t)
    ensures SqlNames(ToSqlTime(t), Microsecond(t))
  {
    hide Text, SqlFields, SecondsOf, NanosOf, ToSqlTime, IsFields, SqlAsRfc3339;
    SqlIsText(t);
    SqlFieldsRead(t);
    MatchOf(SqlFields(t));
  }

  predicate AllZeros(s: string) {
    forall k | 0 <= k < |s| :: s[k] == '0'
  }

  /** "YYYY-MM-DD HH:MM:SS" */
  predicate StartsAsTimestamp(s: string) {
    && |s| >= 19
    && AllDigits(s[..4]) && s[4] == '-' && AllDigits(s[5..7]) && s[7] == '-' && AllDigits(s[8..10]) && s[10] == ' '
    && AllDigits(s[11..13]) && s[13] == ':' && AllDigits(s[14..16]) && s[16] == ':' && AllDigits(s[17..19])
  }

  /** `fromSqlTime`; `None` is the Error. */
  function FromSqlTime(s: string): Option<string> {
    if StartsAsTimestamp(s) && (|s| == 19 || (s[19] == '.' && |s| > 20 && AllZeros(s[20..])))
    then Some(s[..10] + "T" + s[11..19] + "Z")
    else None
  }

  /** Date and clock with a blank between them. */
  function SqlText(f: Fields): string {
    f.year + "-" + f.month + "-" + f.day + " " + ClockText(f)
  }

  /** A time in UTC to the second. */
  predicate IsWhole(f: Fields) {
    IsFields(f) && |f.hour| == 2 && f.frac.None? && !f.comma && f.zone.Utc?
  }

  /** What the column returns: a time to the second, or with a fraction that is nothing but zeros; it is that time in UTC. */
  lemma {:induction false} FromSqlExact(s: string, r: string)
    ensures FromSqlTime(s) == Some(r) <==>
            exists f, zeros :: IsWhole(f) && AllZeros(zeros) && r == Text(f) && s == SqlText(f) + (if zeros == "" then "" else "." + zeros)
  {
    hide IsWhole, Text, SqlText, AllZeros, FromSqlTime;
    if FromSqlTime(s) == Some(r) {
      var f, zeros := SqlParts(s);
    }
    forall f, zeros | IsWhole(f) && AllZeros(zeros) && s == SqlText(f) + (if zeros == "" then "" else "." + zeros)
      ensures FromSqlTime(s) == Some(Text(f))
    {
      SqlReads(f, zeros);
    }
  }

  lemma {:induction false} SqlReads(f: Fields, zeros: string)
    requires IsWhole(f) && AllZeros(zeros)
    ensures FromSqlTime(SqlText(f) + (if zeros == "" then "" else "." + zeros)) == Some(Text(f))
  {
    hide AllDigits, AllZeros;
    var t := SqlText(f);
    var s := t + (if zeros == "" then "" else "." + zeros);
    SqlTextShape(f);
    assert s[..19] == t;
    SameStart(s, t);
    if zeros != "" { assert s[20..] == zeros; }
    assert s[..10] == t[..10] && s[11..19] == t[11..19];
    WholeText(f);
  }

  lemma {:induction false} SqlTextShape(f: Fields)
    requires IsWhole(f)
    ensures |SqlText(f)| == 19 && StartsAsTimestamp(SqlText(f))
    ensures SqlText(f)[..10] + "T" == DateText(f) && SqlText(f)[11..19] == ClockText(f)
  {
    hide AllDigits;
    var t := SqlText(f);
    assert t[..4] == f.year && t[5..7] == f.month && t[8..10] == f.day;
    assert t[11..13] == f.hour && t[14..16] == f.min && t[17..19] == f.sec;
    assert t[..10] == f.year + "-" + f.month + "-" + f.day;
  }

  lemma {:induction false} SameStart(s: string, t: string)
    requires |t| == 19 && |s| >= 19 && s[..19] == t
    ensures StartsAsTimestamp(s) <==> StartsAsTimestamp(t)
  {
    hide AllDigits;
    assert s[..4] == t[..4] && s[5..7] == t[5..7] && s[8..10] == t[8..10] && s[11..13] == t[11..13] && s[14..16] == t[14..16] && s[17..19] == t[17..19];
    assert forall k | 0 <= k < 19 :: s[k] == t[k];
  }

  lemma {:induction false} SqlParts(s: string) returns (f: Fields, zeros: string)
    requires FromSqlTime(s).Some?
    ensures IsWhole(f) && AllZeros(zeros) && FromSqlTime(s) == Some(Text(f)) && s == SqlText(f) + (if zeros == "" then "" else "." + zeros)
  {
    hide AllDigits, AllZeros;
    f := Fields(s[..4], s[5..7], s[8..10], s[11..13], s[14..16], s[17..19], None, false, Utc);
    zeros := if |s| == 19 then "" else s[20..];
    NoZeros();
    SqlPieces(s);
    assert SqlText(f) == s[..19];
    if |s| > 19 { assert s == s[..19] + ("." + s[20..]); }
    WholeText(f);
  }

  lemma {:induction false} NoZeros()
    ensures AllZeros("")
  {
  }

  lemma {:induction false} SqlPieces(s: string)
    requires StartsAsTimestamp(s)
    ensures s[..4] + "-" + s[5..7] + "-" + s[8..10] == s[..10]
    ensures s[11..13] + ":" + s[14..16] + ":" + s[17..19] == s[11..19]
    ensures s[..10] + " " + s[11..19] == s[..19]
  {
    hide AllDigits;
  }

  lemma {:induction false} ValueOfZeros(s: string)
    requires AllZeros(s)
    ensures AllDigits(s) && Value(s) == 0
  {
    ValueZeros(|s|, "");
    assert s == Zeros(|s|) + "";
  }

  /** What was stored comes back as RFC 3339 when it had no microseconds, and is not taken for a TIMESTAMP(0) otherwise. */
  lemma {:induction false} SqlTimeBack(t: Instant)
    requires IsInstant(t)
    ensures ToSqlTime(t).Some?
    ensures FromSqlTime(ToSqlTime(t).value) == if t.nanos < 1000 then ToRfc3339(Instant(t.seconds, 0)) else None
  {
    hide Pad, YearOf, MonthOf, DateOf, TrimZeros, PadInt, ToRfc3339, ToSqlTime, UtcFields, Text, FromSqlTime, StartsAsTimestamp, SqlFields, Value, AllZeros;
    SqlIsText(t);
    var s, f := ToSqlTime(t).value, SqlFields(t);
    SqlFieldsRead(t);
    SqlFraction(t);
    SqlShape(s, f);
    if t.nanos < 1000 {
      Rfc3339IsText(Instant(t.seconds, 0));
      UtcFieldsWhole(t);
      FromSqlWhole(s, f);
    } else {
      FromSqlFraction(s, Pad(t.nanos / 1000, 6));
    }
  }

  lemma {:induction false} SqlFraction(t: Instant)
    requires IsInstant(t)
    ensures |SqlFields(t).hour| == 2 && SqlFields(t).zone.Utc? && !SqlFields(t).comma
    ensures t.nanos < 1000 ==> SqlFields(t).frac.None?
    ensures t.nanos >= 1000 ==> SqlFields(t).frac == Some(Pad(t.nanos / 1000, 6)) && !AllZeros(Pad(t.nanos / 1000, 6))
  {
    hide Pad, YearOf, MonthOf, DateOf, TrimZeros, PadInt, AllZeros;
    UtcClock(t.seconds % 86400);
    var micro := t.nanos / 1000;
    if micro > 0 {
      Pow10Values();
      PadFits(micro, 6);
      if AllZeros(Pad(micro, 6)) { ValueOfZeros(Pad(micro, 6)); }
    }
  }

  lemma {:induction false} FromSqlWhole(s: string, f: Fields)
    requires |s| >= 19 && StartsAsTimestamp(s) && s[..10] + "T" == DateText(f) && s[11..19] == ClockText(f) && s[19..] == ""
    requires f.frac.None? && f.zone.Utc?
    ensures FromSqlTime(s) == Some(Text(f))
  {
    hide StartsAsTimestamp, ClockText, DateText;
    assert |s| == 19;
    WholeText(f);
  }

  lemma {:induction false} FromSqlFraction(s: string, digits: string)
    requires |s| >= 19 && StartsAsTimestamp(s) && s[19..] == "." + digits && !AllZeros(digits)
    ensures FromSqlTime(s) == None
  {
    hide StartsAsTimestamp, AllZeros;
    assert s[19] == s[19..][0];
    assert s[20..] == s[19..][1..] == digits;
  }

  lemma {:induction false} SqlShape(s: string, f: Fields)
    requires IsFields(f) && |f.hour| == 2 && !f.comma
    requires |s| >= 19 && s[..10] + "T" == DateText(f) && s[10] == ' ' && s[11..] == ClockText(f) + FracText(f)
    ensures StartsAsTimestamp(s) && s[11..19] == ClockText(f) && s[19..] == FracText(f)
  {
    var d := s[..10] + "T";
    assert s[..4] == d[..4] == f.year && s[5..7] == d[5..7] == f.month && s[8..10] == d[8..10] == f.day;
    assert s[4] == d[4] && s[7] == d[7];
    var c := s[11..];
    assert s[11..13] == c[..2] == f.hour && s[14..16] == c[3..5] == f.min && s[17..19] == c[6..8] == f.sec;
    assert s[13] == c[2] && s[16] == c[5];
    assert s[11..19] == c[..8] && s[19..] == c[8..];
  }

  lemma {:induction false} WholeText(f: Fields)
    requires f.frac.None? && f.zone.Utc?
    ensures Text(f) == DateText(f) + ClockText(f) + "Z"
  {
    assert FracText(f) + ZoneText(f.zone) == "Z";
  }

  lemma {:induction false} UtcFieldsWhole(t: Instant)
    requires IsInstant(t) && t.nanos < 1000
    ensures UtcFields(Instant(t.seconds, 0)) == SqlFields(t)
  {
    hide Pad, YearOf, MonthOf, DateOf, PadInt;
    TrimmedNanos(0);
    ZeroNanos();
  }

  lemma {:induction false} ZeroNanos()
    ensures TrimZeros(Pad(0, 9)) == ""
  {
    Pow10Values();
    PadFits(0, 9);
    ValueZeros(9, "");
    assert Zeros(9) + "" == Zeros(9);
    ValueInjective(Pad(0, 9), Zeros(9));
    TrimAllZeros(9);
  }

  lemma {:induction false} TrimAllZeros(k: nat)
    ensures TrimZeros(Zeros(k)) == ""
  {
    if k > 0 {
      assert Zeros(k)[..k - 1] == Zeros(k - 1);
      TrimAllZeros(k - 1);
    }
  }

  // --- the zero time ----------------------------------------------------------------------------

  const ZERO_TIME: string := "0001-01-01T00:00:00Z"

  /** Go's `IsZero`. */
  predicate IsZeroTime(t: Instant) {
    t.seconds == FIRST_SECOND && t.nanos == 0
  }

  lemma {:induction false} SmallValues()
    ensures Number("0001") == 1 && Number("01") == 1 && Number("00") == 0
  {
    ValueZeros(3, "1");
    ValueZeros(1, "1");
    ValueZeros(2, "");
    assert "1"[..0] == "";
    assert Value("1") == 1;
    assert "0001" == Zeros(3) + "1" && "01" == Zeros(1) + "1" && "00" == Zeros(2) + "";
  }

  lemma {:induction false} ZeroTimeText(f: Fields)
    requires f == Fields("0001", "01", "01", "00", "00", "00", None, false, Utc)
    ensures IsFields(f) && Text(f) == ZERO_TIME
  {
    assert DateText(f) == "0001-01-01T";
    assert ClockText(f) == "00:00:00";
    assert FracText(f) + ZoneText(f.zone) == "Z";
    assert ClockText(f) + (FracText(f) + ZoneText(f.zone)) == "00:00:00Z";
  }

  lemma {:induction false} ZeroTimeFields(f: Fields)
    requires f == Fields("0001", "01", "01", "00", "00", "00", None, false, Utc)
    ensures InRange(f) && NormalFields(f) == f && OffsetOf(f.zone) == 0
    ensures SecondsOf(f) == FIRST_SECOND && NanosOf(f) == 0
  {
    hide Pad, PadNine, Value;
    SmallValues();
    NoNanos();
    PadAgain("00");
    TrimEmpty();
    assert MakeDay(1, 0, 1) == -719162;
  }

  /** The zero value of a time field is in normal form, and names the instant that counts as zero. */
  lemma {:induction false} ZeroTimeIsZero()
    ensures NormaliseTime(ZERO_TIME) == Normal(ZERO_TIME)
    ensures TimeInstant(ZERO_TIME).Some? && IsZeroTime(TimeInstant(ZERO_TIME).value)
  {
    hide Text, IsFields, InRange, NormalFields, SecondsOf, NanosOf, OffsetOf, Match;
    var f := Fields("0001", "01", "01", "00", "00", "00", None, false, Utc);
    ZeroTimeText(f);
    MatchOf(f);
    ZeroTimeFields(f);
  }

  /** The zero instant is the one that is written as the zero time. */
  lemma {:induction false} ZeroTimeExact(t: Instant)
    requires t.nanos < 1_000_000_000
    ensures IsZeroTime(t) <==> ToRfc3339(t) == Some("0001-01-01T00:00:00Z")
  {
    hide ToRfc3339, TimeInstant, DateAndClock;
    ZeroTimeIsZero();
    if IsZeroTime(t) {
      ZeroTimeWritten(t);
    } else if IsInstant(t) {
      Rfc3339RoundTrip(t);
    } else {
      OutsideYears(t);
    }
  }

  lemma {:induction false} OutsideYears(t: Instant)
    requires t.nanos < 1_000_000_000 && !IsInstant(t)
    ensures ToRfc3339(t) != Some("0001-01-01T00:00:00Z")
  {
    hide YearOf, MonthOf, DateOf, Pad, TrimZeros;
    InYears(t);
    if ToRfc3339(t).Some? {
      assert ToRfc3339(t).value[1] == 'N';
    }
  }

  lemma {:induction false} ZeroTimeWritten(t: Instant)
    requires IsZeroTime(t)
    ensures ToRfc3339(t) == Some("0001-01-01T00:00:00Z")
  {
    hide ToRfc3339, Pad, YearOf, MonthOf, DateOf, TrimZeros, Value, MakeDay;
    var f := Fields("0001", "01", "01", "00", "00", "00", None, false, Utc);
    ZeroTimeText(f);
    Rfc3339IsText(t);
    SmallValues();
    PadOfValue("0001");
    PadOfValue("01");
    PadOfValue("00");
    FirstDay();
    ZeroNanos();
    assert t.seconds / 86400 == -719162 && t.seconds % 86400 == 0;
  }

  lemma {:induction false} FirstDay()
    ensures YearOf(-719162) == 1 && MonthOf(-719162) == 0 && DateOf(-719162) == 1
  {
    hide YearOf, MonthOf, DateOf;
    assert MakeDay(1, 0, 1) == -719162;
    DateRoundTrip(1, 1, 1);
  }

  lemma {:induction false} TrimEmpty()
    ensures TrimZeros("") == ""
  {
  }
}
