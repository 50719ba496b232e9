/** What a time text means: exactly the texts ParseTime accepts and as what, and the text String writes. */
module TimesLaws {
  import opened Int64
  import opened Options
  import opened Text
  import Durations
  import opened DurationLaws
  import opened Times

  /** How a text ends: without a zone, with Z, or with a sign, two digits, a colon and two digits. */
  datatype ZoneText = Local | Utc | Offset(west: bool, hours: string, minutes: string)

  /** A text in parts: hours, minutes, perhaps seconds, perhaps a fraction, and the zone. */
  datatype Spelling = Spelling(hours: string, minutes: string, seconds: Option<string>, fraction: Option<string>,
                               zone: ZoneText)

  function ZoneChars(zone: ZoneText): string {
    match zone
    case Local => ""
    case Utc => "Z"
    case Offset(west, hours, minutes) => [if west then '-' else '+'] + (hours + ([':'] + minutes))
  }

  function ClockPart(x: Spelling): string {
    if x.seconds.Some? then x.hours + ([':'] + (x.minutes + ([':'] + x.seconds.value)))
    else x.hours + ([':'] + x.minutes)
  }

  function BodyChars(x: Spelling): string {
    if x.fraction.Some? then ClockPart(x) + ['.'] + x.fraction.value else ClockPart(x)
  }

  function Chars(x: Spelling): string {
    BodyChars(x) + ZoneChars(x.zone)
  }

  predicate Number(s: string) {
    s != [] && AllDigits(s)
  }

  predicate WellSpelled(x: Spelling) {
    && Number(x.hours) && Number(x.minutes)
    && (x.seconds.Some? ==> Number(x.seconds.value)) && (x.fraction.Some? ==> Number(x.fraction.value))
    && (x.zone.Offset? ==>
          Number(x.zone.hours) && Number(x.zone.minutes) && |x.zone.hours| == 2 && |x.zone.minutes| == 2)
  }

  function SecondsOf(x: Spelling): nat
    requires WellSpelled(x)
  {
    if x.seconds.Some? then Value(x.seconds.value) else 0
  }

  /** The nanoseconds of the fraction, cut off at nine digits. */
  function NanosOf(x: Spelling): int
    requires WellSpelled(x)
  {
    if x.fraction.Some? then UnitsIn(x.fraction.value, 9) else 0
  }

  function OffsetOf(zone: ZoneText): int
    requires zone.Offset? ==> AllDigits(zone.hours) && AllDigits(zone.minutes)
  {
    match zone
    case Offset(west, hours, minutes) =>
      var seconds := Value(hours) * 3600 + Value(minutes) * 60;
      if west then -seconds else seconds
    case _ => 0
  }

  predicate InRange(x: Spelling)
    requires WellSpelled(x)
  {
    && Value(x.hours) <= 23 && Value(x.minutes) <= 59 && SecondsOf(x) <= 59
    && (x.zone.Offset? ==> Value(x.zone.hours) <= 23 && Value(x.zone.minutes) <= 59)
  }

  /** The text is spelled so, every part is in range, and t is the time it says. */
  predicate SpellsTime(text: string, x: Spelling, t: Clock) {
    && WellSpelled(x) && text == Chars(x) && InRange(x)
    && t.nanos == ((Value(x.hours) * 60 + Value(x.minutes)) * 60 + SecondsOf(x)) * 1_000_000_000 + NanosOf(x)
    && t.zoned == !x.zone.Local? && t.offset == OffsetOf(x.zone)
  }

  // ---- from the parts

  lemma LongFraction(f: string)
    requires AllDigits(f) && |f| > 9
    ensures (f + Zeros(9))[..9] == f[..9] && UnitsIn(f, 9) == Value(f[..9]) < 1_000_000_000
  {
    assert (f + Zeros(9))[..9] == f[..9];
    UnitsLong(f);
    Durations.ValueBelow(f[..9]);
    assert Pow10(9) == 1_000_000_000;
  }

  lemma ShortFraction(f: string)
    requires Number(f) && |f| <= 9
    ensures var nine := (f + Zeros(9))[..9];
            AllDigits(nine) && UnitsIn(f, 9) == Value(nine) < 1_000_000_000
  {
    var zeros := Zeros(9 - |f|);
    assert (f + Zeros(9))[..9] == f + zeros;
    assert zeros + [] == zeros && Pow10(9) == 1_000_000_000;
    hide Value, Pow10, UnitsIn;
    UnitsShort(f, 9);
    ValueSplits(f, zeros);
    ValueZeros(9 - |f|, []);
    EmptyValue();
    Durations.ScaledBelow(f, 9);
  }

  lemma EmptyValue()
    ensures Value([]) == 0
  {
  }

  lemma FractionUnits(f: string)
    requires Number(f)
    ensures Times.FractionNanos(Split([], f, true)) == Some(UnitsIn(f, 9)) && 0 <= UnitsIn(f, 9) < 1_000_000_000
  {
    if |f| > 9 { LongFraction(f); } else { ShortFraction(f); }
    hide Value, UnitsIn;
  }

  lemma DigitsOf(s: string)
    requires Number(s) && Value(s) <= 59
    ensures Digits(s) == Some(Value(s))
  {
  }

  lemma NoDots(s: string)
    requires AllDigits(s)
    ensures forall i :: 0 <= i < |s| ==> s[i] != '.' && s[i] != ':' && s[i] != 'Z' && s[i] != '+' && s[i] != '-'
  {
  }

  lemma ClockFields(x: Spelling)
    requires WellSpelled(x)
    ensures Fields(ClockPart(x)) ==
            if x.seconds.Some? then [x.hours, x.minutes, x.seconds.value] else [x.hours, x.minutes]
    ensures forall i :: 0 <= i < |ClockPart(x)| ==> ClockPart(x)[i] != '.'
    ensures ClockChars(ClockPart(x))
  {
    hide Fields;
    NoDots(x.hours);
    NoDots(x.minutes);
    if x.seconds.Some? {
      NoDots(x.seconds.value);
      FieldsAt(x.hours, x.minutes + ([':'] + x.seconds.value));
      FieldsAt(x.minutes, x.seconds.value);
      FieldsOne(x.seconds.value);
      assert [x.hours] + ([x.minutes] + [x.seconds.value]) == [x.hours, x.minutes, x.seconds.value];
    } else {
      FieldsAt(x.hours, x.minutes);
      FieldsOne(x.minutes);
      assert [x.hours] + [x.minutes] == [x.hours, x.minutes];
    }
  }

  lemma BodyParts(x: Spelling)
    requires WellSpelled(x)
    ensures Cut(BodyChars(x), '.') ==
            if x.fraction.Some? then Split(ClockPart(x), x.fraction.value, true) else Split(ClockPart(x), [], false)
    ensures ClockChars(BodyChars(x)) && |BodyChars(x)| > 0
  {
    ClockFields(x);
    hide Fields, Cut, ClockPart;
    if x.fraction.Some? {
      CutHere(ClockPart(x), '.', x.fraction.value);
    } else {
      CutNone(ClockPart(x), '.');
    }
    assert Fields([]) == [[]] by { FieldsOne([]); }
  }

  lemma ZoneReads(body: string, zone: ZoneText)
    requires ClockChars(body)
    requires zone.Offset? ==> Number(zone.hours) && Number(zone.minutes) && |zone.hours| == 2 && |zone.minutes| == 2
    requires zone.Offset? ==> Value(zone.hours) <= 23 && Value(zone.minutes) <= 59
    ensures Zone(body + ZoneChars(zone)) == Some((body, OffsetOf(zone), !zone.Local?))
  {
    match zone
    case Local =>
      assert body + "" == body;
      NoZone(body);
    case Utc => UtcZone(body);
    case Offset(west, hours, minutes) => OffsetZone(body, west, hours, minutes);
  }

  lemma OffsetZone(body: string, west: bool, hours: string, minutes: string)
    requires Number(hours) && Number(minutes) && |hours| == 2 && |minutes| == 2
    requires Value(hours) <= 23 && Value(minutes) <= 59
    ensures var zone := Offset(west, hours, minutes);
            Zone(body + ZoneChars(zone)) == Some((body, OffsetOf(zone), true))
  {
    hide Value, Zone, Digits;
    DigitsOf(hours);
    DigitsOf(minutes);
    SignedZone(body, if west then '-' else '+', hours, minutes);
  }

  lemma ValuesOf(x: Spelling)
    requires WellSpelled(x) && InRange(x)
    ensures FieldValues(Fields(ClockPart(x))) ==
            Some(if x.seconds.Some? then [Value(x.hours), Value(x.minutes), Value(x.seconds.value)]
                 else [Value(x.hours), Value(x.minutes)])
  {
    ClockFields(x);
    DigitsOf(x.hours);
    DigitsOf(x.minutes);
    hide Fields, Value, Digits;
    if x.seconds.Some? {
      DigitsOf(x.seconds.value);
      ThreeValues(x.hours, x.minutes, x.seconds.value);
    } else {
      TwoValues(x.hours, x.minutes);
    }
  }

  lemma TwoValues(a: string, b: string)
    requires Digits(a).Some? && Digits(b).Some?
    ensures FieldValues([a, b]) == Some([Digits(a).value, Digits(b).value])
  {
    hide Digits;
    assert [a, b][1..] == [b] && [b][1..] == [];
    var x, y := Digits(a).value, Digits(b).value;
    assert [y] + [] == [y] && [x] + [y] == [x, y];
    assert FieldValues([]) == Some([]);
    assert FieldValues([b]) == Some([y]);
  }

  lemma ClockBuilt(h: int, m: int, s: int, n: int, offset: int, zoned: bool, t: Clock)
    requires 0 <= h <= 23 && 0 <= m <= 59 && 0 <= s <= 59 && 0 <= n < 1_000_000_000
    requires t == Clock(((h * 60 + m) * 60 + s) * 1_000_000_000 + n, offset, zoned) && (!zoned ==> offset == 0)
    requires zoned ==> InDay(offset)
    ensures (if zoned then NewZonedTime(h, m, s, n, offset) else NewLocalTime(h, m, s, n)) == Some(t)
    ensures IsTime(t)
  {
    ClockParts(h, m, s, n);
  }

  lemma OffsetInDay(zone: ZoneText)
    requires zone.Offset? ==> AllDigits(zone.hours) && AllDigits(zone.minutes)
    requires zone.Offset? ==> Value(zone.hours) <= 23 && Value(zone.minutes) <= 59
    ensures InDay(OffsetOf(zone))
  {
    if zone.Offset? {
      var h, m := Value(zone.hours), Value(zone.minutes);
      var seconds := h * 3600 + m * 60;
      RemainderUnique(seconds, 60, h * 60 + m, 0);
    }
    hide Value;
  }

  /** ReadTime, from what its parts give. */
  lemma Assembled(text: string, body: string, offset: int, zoned: bool, hms: seq<int64>, nanos: int)
    requires Zone(text) == Some((body, offset, zoned)) && |Fields(Cut(body, '.').before)| in {2, 3}
    requires FieldValues(Fields(Cut(body, '.').before)) == Some(hms) && FractionNanos(Cut(body, '.')) == Some(nanos)
    ensures var second := if |hms| == 3 then hms[2] else 0;
            ReadTime(text) == if zoned then NewZonedTime(hms[0], hms[1], second, nanos, offset)
                              else NewLocalTime(hms[0], hms[1], second, nanos)
  {
    hide Zone, Cut, Fields, FieldValues, FractionNanos, NewZonedTime, NewLocalTime;
  }

  lemma NanosRead(x: Spelling)
    requires WellSpelled(x)
    ensures FractionNanos(Cut(BodyChars(x), '.')) == Some(NanosOf(x)) && 0 <= NanosOf(x) < 1_000_000_000
  {
    BodyParts(x);
    hide Cut, BodyChars, UnitsIn;
    if x.fraction.Some? { FractionUnits(x.fraction.value); }
  }

  lemma ReadAs(x: Spelling)
    requires WellSpelled(x) && InRange(x)
    ensures ReadTime(Chars(x)) ==
            if x.zone.Local? then NewLocalTime(Value(x.hours), Value(x.minutes), SecondsOf(x), NanosOf(x))
            else NewZonedTime(Value(x.hours), Value(x.minutes), SecondsOf(x), NanosOf(x), OffsetOf(x.zone))
  {
    hide Zone, Cut, Fields, FieldValues, FractionNanos, BodyChars, ClockPart, ZoneChars, OffsetOf, NanosOf, Value,
         NewZonedTime, NewLocalTime, ReadTime, ClockChars, AllDigits;
    BodyParts(x);
    ClockFields(x);
    ValuesOf(x);
    NanosRead(x);
    ZoneReads(BodyChars(x), x.zone);
    var hms := FieldValues(Fields(ClockPart(x))).value;
    assert hms[0] == Value(x.hours) && hms[1] == Value(x.minutes);
    assert (if |hms| == 3 then hms[2] else 0) == SecondsOf(x);
    Assembled(Chars(x), BodyChars(x), OffsetOf(x.zone), !x.zone.Local?, hms, NanosOf(x));
  }

  /** What is spelled in range is accepted as the time it says. */
  lemma {:induction false} TimeComplete(text: string, x: Spelling, t: Clock)
    requires SpellsTime(text, x, t)
    ensures IsTime(t) && ReadTime(text) == Some(t)
  {
    ReadAs(x);
    NanosRead(x);
    OffsetInDay(x.zone);
    LocalOffset(x.zone);
    hide Chars, FractionNanos, Cut, BodyChars, OffsetOf, NanosOf, Value, NewZonedTime, NewLocalTime, ReadTime, InDay,
         IsTime, AllDigits;
    ClockBuilt(Value(x.hours), Value(x.minutes), SecondsOf(x), NanosOf(x), OffsetOf(x.zone), t.zoned, t);
  }

  lemma LocalOffset(zone: ZoneText)
    requires zone.Offset? ==> AllDigits(zone.hours) && AllDigits(zone.minutes)
    ensures zone.Local? ==> OffsetOf(zone) == 0
  {
  }

  // ---- to the parts

  /** Split at colons, a text is its fields with colons between them. */
  lemma {:induction false} FieldsJoin(s: string)
    ensures var f := Fields(s);
            && (|f| == 2 ==> s == f[0] + ([':'] + f[1]))
            && (|f| == 3 ==> s == f[0] + ([':'] + (f[1] + ([':'] + f[2]))))
            && (|f| == 1 ==> s == f[0])
    decreases |s|
  {
    FieldsFirst(s);
    hide Fields, IndexOf;
    var k := IndexOf(s, ':');
    if k < |s| {
      FieldsJoin(s[k + 1..]);
      ColonJoin(s, k);
    }
  }

  lemma FieldsFirst(s: string)
    ensures var k := IndexOf(s, ':'); Fields(s) == if k == |s| then [s] else [s[..k]] + Fields(s[k + 1..])
  {
    hide IndexOf;
  }

  lemma ColonJoin(s: string, k: nat)
    requires k < |s| && s[k] == ':'
    ensures s == s[..k] + ([':'] + s[k + 1..])
  {
  }

  lemma {:induction false} ValuesAre(fields: seq<string>, i: nat)
    requires FieldValues(fields).Some? && i < |fields|
    ensures Number(fields[i]) && FieldValues(fields).value[i] == Value(fields[i])
  {
    hide Value;
    if i > 0 { ValuesAre(fields[1..], i - 1); }
  }

  lemma CutIs(body: string)
    ensures var cut := Cut(body, '.'); body == if cut.found then cut.before + ['.'] + cut.after else cut.before
  {
  }

  /** The text is what is before the zone and then the zone, which says that offset. */
  predicate ZoneSays(text: string, zone: ZoneText, body: string, offset: int, zoned: bool) {
    && text == body + ZoneChars(zone) && zoned == !zone.Local?
    && (zone.Offset? ==>
          && Number(zone.hours) && Number(zone.minutes) && |zone.hours| == 2 && |zone.minutes| == 2
          && Value(zone.minutes) <= 59)
    && offset == OffsetOf(zone)
  }

  lemma ZoneOf(text: string) returns (zone: ZoneText)
    requires Zone(text).Some?
    ensures var (body, offset, zoned) := Zone(text).value; ZoneSays(text, zone, body, offset, zoned)
  {
    hide Value, ZoneSays;
    var n := |text|;
    if n >= 1 && text[n - 1] == 'Z' {
      zone := Utc;
      UtcSays(text);
    } else if n >= 6 && (text[n - 6] == '+' || text[n - 6] == '-') && text[n - 3] == ':' {
      zone := Offset(text[n - 6] == '-', text[n - 5..n - 3], text[n - 2..]);
      OffsetSays(text);
    } else {
      zone := Local;
      LocalSays(text);
    }
  }

  lemma UtcSays(text: string)
    requires |text| >= 1 && text[|text| - 1] == 'Z'
    ensures ZoneSays(text, Utc, text[..|text| - 1], 0, true)
  {
    assert text == text[..|text| - 1] + "Z";
  }

  lemma LocalSays(text: string)
    ensures ZoneSays(text, Local, text, 0, false)
  {
    assert text == text + "";
  }

  lemma OffsetSays(text: string)
    requires |text| >= 6
    requires var n := |text|; (text[n - 6] == '+' || text[n - 6] == '-') && text[n - 3] == ':'
    requires Digits(text[|text| - 5..|text| - 3]).Some? && Digits(text[|text| - 2..]).Some?
    requires Digits(text[|text| - 2..]).value <= 59
    ensures var n := |text|;
            var hours, minutes := text[n - 5..n - 3], text[n - 2..];
            var seconds := Digits(hours).value * 3600 + Digits(minutes).value * 60;
            ZoneSays(text, Offset(text[n - 6] == '-', hours, minutes), text[..n - 6],
                     if text[n - 6] == '-' then -seconds else seconds, true)
  {
    hide Value, Digits;
    var n := |text|;
    assert text == text[..n - 6] + ([text[n - 6]] + (text[n - 5..n - 3] + ([':'] + text[n - 2..])));
  }

  /** What is accepted is spelled, in range, and says the time it is accepted as. */
  lemma {:induction false} TimeSound(text: string) returns (x: Spelling)
    requires ReadTime(text).Some?
    ensures SpellsTime(text, x, ReadTime(text).value)
  {
    hide Fields, FieldValues, Cut, Zone, Value, UnitsIn, ZoneChars;
    var (body, offset, zoned) := Zone(text).value;
    var cut := Cut(body, '.');
    var fields := Fields(cut.before);
    var zone := ZoneOf(text);
    CutIs(body);
    FieldsJoin(cut.before);
    ValuesAre(fields, 0);
    ValuesAre(fields, 1);
    if |fields| == 3 { ValuesAre(fields, 2); }
    if cut.found { FractionUnits(cut.after); }
    x := Spelling(fields[0], fields[1], if |fields| == 3 then Some(fields[2]) else None,
                  if cut.found then Some(cut.after) else None, zone);
    assert BodyChars(x) == body;
    BuiltSays(x, FieldValues(fields).value, ReadTime(text).value, offset);
  }

  lemma BuiltSays(x: Spelling, hms: seq<int64>, t: Time, offset: int)
    requires WellSpelled(x) && |hms| == (if x.seconds.Some? then 3 else 2) && offset == OffsetOf(x.zone)
    requires hms[0] == Value(x.hours) && hms[1] == Value(x.minutes) && (|hms| == 3 ==> hms[2] == Value(x.seconds.value))
    requires x.zone.Offset? ==> Value(x.zone.minutes) <= 59
    requires Some(t) == if x.zone.Local? then NewLocalTime(hms[0], hms[1], SecondsOf(x), NanosOf(x))
                        else NewZonedTime(hms[0], hms[1], SecondsOf(x), NanosOf(x), offset)
    ensures SpellsTime(Chars(x), x, t)
  {
    Built(hms[0], hms[1], SecondsOf(x), NanosOf(x), offset, !x.zone.Local?, t);
    hide Chars, UnitsIn, Value, NewLocalTime, NewZonedTime, NanosOf, AllDigits;
    if x.zone.Offset? { HoursBelow(Value(x.zone.hours), Value(x.zone.minutes)); }
  }

  lemma Built(h: int, m: int, s: int, n: int, offset: int, zoned: bool, t: Time)
    requires Some(t) == if zoned then NewZonedTime(h, m, s, n, offset) else NewLocalTime(h, m, s, n)
    ensures h <= 23 && m <= 59 && s <= 59 && t.nanos == ((h * 60 + m) * 60 + s) * 1_000_000_000 + n
    ensures t.zoned == zoned && t.offset == (if zoned then offset else 0) && -86_400 < t.offset < 86_400
  {
    hide Hour, Minute, Second, Nanosecond;
  }

  lemma HoursBelow(h: nat, m: nat)
    requires h * 3600 + m * 60 < 86_400
    ensures h <= 23
  {
  }

  /** A text is accepted as t exactly when it spells t. */
  lemma {:induction false} TimeExact(text: string, t: Clock)
    ensures ReadTime(text) == Some(t) <==> exists x :: SpellsTime(text, x, t)
  {
    hide ReadTime, SpellsTime;
    if ReadTime(text) == Some(t) {
      var x := TimeSound(text);
    }
    if x :| SpellsTime(text, x, t) {
      TimeComplete(text, x, t);
    }
  }

  // ---- what is written

  /** Two digits a field, a fraction only where there is one and without trailing zeros, Z for no offset. */
  predicate Plain(x: Spelling, t: Time) {
    && |x.hours| == 2 && |x.minutes| == 2 && x.seconds.Some? && |x.seconds.value| == 2
    && (x.fraction.Some? <==> t.nanos % 1_000_000_000 != 0)
    && (x.fraction.Some? ==> 0 < |x.fraction.value| <= 9 && x.fraction.value[|x.fraction.value| - 1] != '0')
    && (x.zone.Local? <==> !t.zoned) && (x.zone.Utc? <==> t.zoned && t.offset == 0)
    && (x.zone.Offset? ==> (x.zone.west <==> t.offset < 0))
  }

  lemma {:induction false} Trimmed(s: string)
    ensures TrimZeros(s) != [] ==> TrimZeros(s)[|TrimZeros(s)| - 1] != '0'
  {
    if s != [] && s[|s| - 1] == '0' { Trimmed(s[..|s| - 1]); }
  }

  lemma FractionForm(t: Time) returns (f: Option<string>)
    ensures f.Some? <==> Nanosecond(t) != 0
    ensures FractionText(t) == if f.Some? then ['.'] + f.value else []
    ensures f.Some? ==> Number(f.value) && |f.value| <= 9 && f.value[|f.value| - 1] != '0'
    ensures f.Some? ==> UnitsIn(f.value, 9) == Nanosecond(t)
  {
    if Nanosecond(t) == 0 {
      f := None;
    } else {
      var digits := TrimZeros(Padded(Nanosecond(t), 9));
      Trimmed(Padded(Nanosecond(t), 9));
      f := Some(digits);
      hide TrimZeros, Padded, Nanosecond, UnitsIn, Value;
      FractionReadsBack(t);
      FractionUnits(digits);
      assert Pow10(9) == SECOND;
      FractionReads(Nanosecond(t), 9);
    }
  }

  lemma ZoneForm(t: Time) returns (zone: ZoneText)
    ensures ZoneChars(zone) == if t.zoned then OffsetText(t.offset) else []
    ensures zone.Offset? ==> Number(zone.hours) && Number(zone.minutes) && |zone.hours| == 2 && |zone.minutes| == 2
    ensures zone.Offset? ==> Value(zone.hours) <= 23 && Value(zone.minutes) <= 59
    ensures (zone.Local? <==> !t.zoned) && (zone.Utc? <==> t.zoned && t.offset == 0) && OffsetOf(zone) == t.offset
    ensures zone.Offset? ==> (zone.west <==> t.offset < 0)
  {
    hide Padded, Value, Digits;
    if !t.zoned {
      zone := Local;
    } else if t.offset == 0 {
      zone := Utc;
    } else {
      var h, m := HoursMinutes(Magnitude(t.offset));
      TwoDigits(h);
      TwoDigits(m);
      zone := Offset(t.offset < 0, Padded(h, 2), Padded(m, 2));
    }
  }

  lemma ClockForm(t: Time)
    ensures var h, m, s := Padded(Hour(t), 2), Padded(Minute(t), 2), Padded(Second(t), 2);
            && Number(h) && Number(m) && Number(s) && |h| == 2 && |m| == 2 && |s| == 2
            && Value(h) == Hour(t) <= 23 && Value(m) == Minute(t) <= 59 && Value(s) == Second(t) <= 59
            && t.nanos == ((Value(h) * 60 + Value(m)) * 60 + Value(s)) * 1_000_000_000 + Nanosecond(t)
  {
    PartsBuild(t);
    hide Hour, Minute, Second, Nanosecond, Padded, Value, Digits;
    TwoDigits(Hour(t));
    TwoDigits(Minute(t));
    TwoDigits(Second(t));
  }

  /** A time is written as its plain spelling. */
  lemma {:induction false} TimeWritten(t: Time) returns (x: Spelling)
    ensures SpellsTime(TimeText(t), x, t) && Plain(x, t)
  {
    var f := FractionForm(t);
    var zone := ZoneForm(t);
    ClockForm(t);
    hide Hour, Minute, Second, Padded, Value, UnitsIn, FractionText, OffsetText, ZoneChars, OffsetOf, AllDigits, Chars,
         TimeText, BodyChars, ClockPart, SpellsTime, Plain;
    x := Spelling(Padded(Hour(t), 2), Padded(Minute(t), 2), Some(Padded(Second(t), 2)), f, zone);
    WrittenChars(t, x);
    WrittenSays(t, x);
  }

  lemma WrittenSays(t: Time, x: Spelling)
    requires WellSpelled(x) && |x.hours| == 2 && |x.minutes| == 2 && x.seconds.Some? && |x.seconds.value| == 2
    requires Value(x.hours) <= 23 && Value(x.minutes) <= 59 && Value(x.seconds.value) <= 59
    requires t.nanos == ((Value(x.hours) * 60 + Value(x.minutes)) * 60 + Value(x.seconds.value)) * 1_000_000_000 +
                        Nanosecond(t)
    requires x.fraction.Some? <==> Nanosecond(t) != 0
    requires x.fraction.Some? ==>
               && UnitsIn(x.fraction.value, 9) == Nanosecond(t)
               && |x.fraction.value| <= 9 && x.fraction.value[|x.fraction.value| - 1] != '0'
    requires x.zone.Offset? ==> Value(x.zone.hours) <= 23 && Value(x.zone.minutes) <= 59
    requires (x.zone.Local? <==> !t.zoned) && (x.zone.Utc? <==> t.zoned && t.offset == 0)
    requires OffsetOf(x.zone) == t.offset && (x.zone.Offset? ==> (x.zone.west <==> t.offset < 0))
    ensures SpellsTime(Chars(x), x, t) && Plain(x, t)
  {
    hide Chars, Value, UnitsIn, OffsetOf, AllDigits;
  }

  lemma WrittenChars(t: Time, x: Spelling)
    requires x.hours == Padded(Hour(t), 2) && x.minutes == Padded(Minute(t), 2)
    requires x.seconds == Some(Padded(Second(t), 2))
    requires FractionText(t) == if x.fraction.Some? then ['.'] + x.fraction.value else []
    requires ZoneChars(x.zone) == if t.zoned then OffsetText(t.offset) else []
    ensures TimeText(t) == Chars(x)
  {
    hide Hour, Minute, Second, Padded, FractionText, OffsetText, ZoneChars;
    assert ClockPart(x) == ClockText(t);
    hide ClockText, ClockPart;
    assert BodyChars(x) == ClockText(t) + FractionText(t);
  }
}
