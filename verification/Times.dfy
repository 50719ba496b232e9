/** GQL TIME, as crates/bindings/go/temporal.go builds, writes and reads it. */
module Times {
  import opened Int64
  import opened Options
  import opened Text

  const SECOND: int := 1_000_000_000
  const MINUTE: int := 60 * SECOND
  const HOUR: int := 60 * MINUTE
  const DAY: int := 24 * HOUR
  const DAY_SECONDS: int := 86_400

  /** Nanoseconds since midnight, and seconds east of UTC when zoned. */
  datatype Clock = Clock(nanos: int, offset: int, zoned: bool)

  predicate InDay(offset: int) {
    Remainder(offset, 60) == 0 && -DAY_SECONDS < offset < DAY_SECONDS
  }

  predicate IsTime(t: Clock) {
    0 <= t.nanos < DAY && (if t.zoned then InDay(t.offset) else t.offset == 0)
  }

  /** A Time as Go code can hold one: the fields are set by the constructors only. */
  type Time = t: Clock | IsTime(t) witness Clock(0, 0, false)

  /** NewLocalTime. */
  function NewLocalTime(hour: int, minute: int, second: int, nanosecond: int): (r: Option<Time>)
    ensures r.Some? <==> 0 <= hour <= 23 && 0 <= minute <= 59 && 0 <= second <= 59 && 0 <= nanosecond < SECOND
    ensures r.Some? ==> !r.value.zoned && Hour(r.value) == hour && Minute(r.value) == minute &&
                        Second(r.value) == second && Nanosecond(r.value) == nanosecond
  {
    if !(0 <= hour <= 23 && 0 <= minute <= 59 && 0 <= second <= 59 && 0 <= nanosecond < SECOND) then None
    else
      ClockParts(hour, minute, second, nanosecond);
      Some(Clock(hour * HOUR + minute * MINUTE + second * SECOND + nanosecond, 0, false))
  }

  /** NewZonedTime. */
  function NewZonedTime(hour: int, minute: int, second: int, nanosecond: int, offset: int): (r: Option<Time>)
    ensures r.Some? <==> NewLocalTime(hour, minute, second, nanosecond).Some? && offset % 60 == 0 &&
                         -DAY_SECONDS < offset < DAY_SECONDS
    ensures r.Some? ==> r.value.zoned && r.value.offset == offset && Hour(r.value) == hour &&
                        Minute(r.value) == minute && Second(r.value) == second && Nanosecond(r.value) == nanosecond
  {
    var t :- NewLocalTime(hour, minute, second, nanosecond);
    if InDay(offset) then Some(Clock(t.nanos, offset, true)) else None
  }

  function Hour(t: Time): nat { t.nanos / HOUR }
  function Minute(t: Time): nat { t.nanos % HOUR / MINUTE }
  function Second(t: Time): nat { t.nanos % MINUTE / SECOND }
  function Nanosecond(t: Time): nat { t.nanos % SECOND }

  lemma ClockParts(h: int, m: int, s: int, n: int)
    requires 0 <= h <= 23 && 0 <= m <= 59 && 0 <= s <= 59 && 0 <= n < SECOND
    ensures var nanos := h * HOUR + m * MINUTE + s * SECOND + n;
            && 0 <= nanos < DAY && nanos / HOUR == h && nanos % HOUR / MINUTE == m
            && nanos % MINUTE / SECOND == s && nanos % SECOND == n
  {
    var nanos := h * HOUR + m * MINUTE + s * SECOND + n;
    RemainderUnique(nanos, HOUR, h, m * MINUTE + s * SECOND + n);
    RemainderUnique(m * MINUTE + s * SECOND + n, MINUTE, m, s * SECOND + n);
    RemainderUnique(nanos, MINUTE, 60 * h + m, s * SECOND + n);
    RemainderUnique(s * SECOND + n, SECOND, s, n);
    RemainderUnique(nanos, SECOND, 3600 * h + 60 * m + s, n);
  }

  /** The parts of a time build it again. */
  lemma PartsBuild(t: Time)
    ensures Hour(t) <= 23 && Minute(t) <= 59 && Second(t) <= 59 && Nanosecond(t) < SECOND
    ensures t.nanos == Hour(t) * HOUR + Minute(t) * MINUTE + Second(t) * SECOND + Nanosecond(t)
  {
    var n := t.nanos;
    assert n % HOUR == Minute(t) * MINUTE + n % HOUR % MINUTE;
    RemainderUnique(n, MINUTE, 60 * (n / HOUR) + n % HOUR / MINUTE, n % HOUR % MINUTE);
    assert n % MINUTE == Second(t) * SECOND + n % MINUTE % SECOND;
    RemainderUnique(n, SECOND, 60 * (n / MINUTE) + n % MINUTE / SECOND, n % MINUTE % SECOND);
  }

  // ---- text

  /** offsetText. */
  function OffsetText(seconds: int): string {
    if seconds == 0 then "Z"
    else [if seconds < 0 then '-' else '+'] +
         (Padded(Magnitude(seconds) / 3600, 2) + ([':'] + Padded(Magnitude(seconds) % 3600 / 60, 2)))
  }

  function ClockText(t: Time): string {
    Padded(Hour(t), 2) + ([':'] + (Padded(Minute(t), 2) + ([':'] + Padded(Second(t), 2))))
  }

  function FractionText(t: Time): string {
    if Nanosecond(t) == 0 then [] else ['.'] + TrimZeros(Padded(Nanosecond(t), 9))
  }

  /** Time.String. */
  function TimeText(t: Time): string {
    ClockText(t) + FractionText(t) + (if t.zoned then OffsetText(t.offset) else [])
  }

  /** strings.Split(s, ":"). */
  function Fields(s: string): (r: seq<string>)
    ensures r != []
    decreases |s|
  {
    var k := IndexOf(s, ':');
    if k == |s| then [s] else [s[..k]] + Fields(s[k + 1..])
  }

  /** The time zone a text ends with: what is before it, its offset, whether there is one. */
  function Zone(text: string): (r: Option<(string, int, bool)>) {
    var n := |text|;
    if n >= 1 && text[n - 1] == 'Z' then Some((text[..n - 1], 0, true))
    else if n >= 6 && (text[n - 6] == '+' || text[n - 6] == '-') && text[n - 3] == ':' then
      var hours :- Digits(text[n - 5..n - 3]);
      var minutes :- Digits(text[n - 2..]);
      if minutes > 59 then None
      else
        var offset := hours * 3600 + minutes * 60;
        Some((text[..n - 6], if text[n - 6] == '-' then -offset else offset, true))
    else Some((text, 0, false))
  }

  /** The nanoseconds of a fraction: its first nine digits, the missing ones zeros. */
  function FractionNanos(cut: Split): (r: Option<int>) {
    if !cut.found then Some(0)
    else if cut.after == [] || !AllDigits(cut.after) then None
    else
      assert AllDigits((cut.after + Zeros(9))[..9]);
      Some(Value((cut.after + Zeros(9))[..9]))
  }

  /** The numbers of the fields, when each is one. */
  function FieldValues(fields: seq<string>): (r: Option<seq<int64>>)
    ensures r.Some? ==> |r.value| == |fields|
  {
    if fields == [] then Some([])
    else
      var n :- Digits(fields[0]);
      var more :- FieldValues(fields[1..]);
      Some([n] + more)
  }

  /** What ParseTime gives. */
  function ReadTime(text: string): (r: Option<Time>) {
    var (body, offset, zoned) :- Zone(text);
    var cut := Cut(body, '.');
    var fields := Fields(cut.before);
    if |fields| < 2 || |fields| > 3 then None
    else
      var hms :- FieldValues(fields);
      var nanos :- FractionNanos(cut);
      var second := if |hms| == 3 then hms[2] else 0;
      if zoned then NewZonedTime(hms[0], hms[1], second, nanos, offset)
      else NewLocalTime(hms[0], hms[1], second, nanos)
  }

  /** ParseTime: the clock fields filled in by a loop. */
  method ParseTime(text: string) returns (r: Option<Time>)
    ensures r == ReadTime(text)
  {
    var zone := Zone(text);
    if zone.None? { return None; }
    var (body, offset, zoned) := zone.value;
    var cut := Cut(body, '.');
    var fields := Fields(cut.before);
    if |fields| < 2 || |fields| > 3 { return None; }
    var hms := [0, 0, 0];
    var i := 0;
    assert fields[0..] == fields;
    NoValues(FieldValues(fields));
    while i < |fields|
      invariant 0 <= i <= |fields| && |hms| == 3 && (i < 3 ==> hms[2] == 0)
      invariant FieldValues(fields) == PrependValues(hms[..i], FieldValues(fields[i..]))
    {
      var n := Digits(fields[i]);
      assert fields[i..][1..] == fields[i + 1..];
      if n.None? { return None; }
      ghost var before := hms[..i];
      hms := hms[i := n.value];
      assert hms[..i + 1] == before + [n.value];
      PrependMoreValues(before, n.value, FieldValues(fields[i + 1..]));
      i := i + 1;
    }
    assert fields[i..] == [] && hms[..i] + [] == hms[..i];
    var nanos := FractionNanos(cut);
    if nanos.None? { return None; }
    if zoned {
      r := NewZonedTime(hms[0], hms[1], hms[2], nanos.value, offset);
    } else {
      r := NewLocalTime(hms[0], hms[1], hms[2], nanos.value);
    }
  }

  ghost function PrependValues(done: seq<int>, r: Option<seq<int64>>): Option<seq<int>> {
    match r
    case None => None
    case Some(more) => Some(done + more)
  }

  lemma NoValues(r: Option<seq<int64>>)
    ensures PrependValues([], r) == r
  {
    if r.Some? { assert [] + r.value == r.value; }
  }

  lemma PrependMoreValues(done: seq<int>, n: int, r: Option<seq<int64>>)
    ensures r.Some? ==> done + ([n] + r.value) == done + [n] + r.value
  {
  }

  // ---- what is written reads back

  lemma TwoDigits(n: nat)
    requires n < 100
    ensures var s := Padded(n, 2); |s| == 2 && AllDigits(s) && Digits(s) == Some(n)
  {
    assert Pow10(2) == 100;
    PaddedReads(n, 2);
  }

  /** A text of digits, colons and dots. */
  predicate ClockChars(s: string) {
    forall i :: 0 <= i < |s| ==> IsDigit(s[i]) || s[i] == ':' || s[i] == '.'
  }

  lemma FieldsAt(a: string, b: string)
    requires forall i :: 0 <= i < |a| ==> a[i] != ':'
    ensures Fields(a + ([':'] + b)) == [a] + Fields(b)
  {
    hide IndexOf;
    var s := a + ([':'] + b);
    ColonAt(a, b);
    assert s[..|a|] == a && s[|a| + 1..] == b;
  }

  lemma ColonAt(a: string, b: string)
    requires forall i :: 0 <= i < |a| ==> a[i] != ':'
    ensures IndexOf(a + ([':'] + b), ':') == |a|
  {
    hide IndexOf;
    var s := a + ([':'] + b);
    assert s[|a|] == ':' && forall i :: 0 <= i < |a| ==> s[i] == a[i];
    assert IndexOf(s, ':') <= |a|;
  }

  lemma FieldsOne(a: string)
    requires forall i :: 0 <= i < |a| ==> a[i] != ':'
    ensures Fields(a) == [a]
  {
  }

  lemma ClockReads(t: Time)
    ensures ClockChars(ClockText(t)) && |ClockText(t)| == 8
    ensures forall i :: 0 <= i < 8 ==> ClockText(t)[i] != '.'
    ensures FieldValues(Fields(ClockText(t))) == Some([Hour(t), Minute(t), Second(t)])
  {
    PartsBuild(t);
    hide Padded, Fields, Hour, Minute, Second;
    var h, m, s := Padded(Hour(t), 2), Padded(Minute(t), 2), Padded(Second(t), 2);
    TwoDigits(Hour(t));
    TwoDigits(Minute(t));
    TwoDigits(Second(t));
    FieldsAt(h, m + ([':'] + s));
    FieldsAt(m, s);
    FieldsOne(s);
    assert [h] + ([m] + [s]) == [h, m, s];
    ThreeValues(h, m, s);
  }

  lemma ThreeValues(a: string, b: string, c: string)
    requires Digits(a).Some? && Digits(b).Some? && Digits(c).Some?
    ensures FieldValues([a, b, c]) == Some([Digits(a).value, Digits(b).value, Digits(c).value])
  {
    hide Digits;
    assert [a, b, c][1..] == [b, c] && [b, c][1..] == [c] && [c][1..] == [];
    var x, y, z := Digits(a).value, Digits(b).value, Digits(c).value;
    assert [z] + [] == [z] && [y] + [z] == [y, z] && [x] + [y, z] == [x, y, z];
    assert FieldValues([]) == Some([]);
    assert FieldValues([c]) == Some([z]);
    assert FieldValues([b, c]) == Some([y, z]);
  }

  lemma {:induction false} TrimmedPads(s: string, k: nat)
    requires AllDigits(s) && |s| <= |TrimZeros(s)| + k
    ensures (TrimZeros(s) + Zeros(k))[..|s|] == s
    decreases |s|
  {
    if s != [] && s[|s| - 1] == '0' {
      var t := s[..|s| - 1];
      TrimmedPads(t, k);
      assert (TrimZeros(t) + Zeros(k))[..|s|] == (TrimZeros(t) + Zeros(k))[..|t|] + ['0'];
    }
  }

  lemma FractionReadsBack(t: Time)
    requires Nanosecond(t) != 0
    ensures var f := TrimZeros(Padded(Nanosecond(t), 9));
            f != [] && AllDigits(f) && FractionNanos(Split(ClockText(t), f, true)) == Some(Nanosecond(t))
  {
    hide TrimZeros, Padded, Value;
    assert Pow10(9) == SECOND;
    FractionReads(Nanosecond(t), 9);
    PaddedReads(Nanosecond(t), 9);
    TrimmedPads(Padded(Nanosecond(t), 9), 9);
  }

  lemma OffsetReads(body: string, offset: int)
    requires InDay(offset)
    ensures Zone(body + OffsetText(offset)) == Some((body, offset, true))
  {
    hide Padded, Digits, Zone;
    if offset == 0 {
      UtcZone(body);
    } else {
      var m := Magnitude(offset);
      var h, min := HoursMinutes(m);
      TwoDigits(h);
      TwoDigits(min);
      SignedZone(body, if offset < 0 then '-' else '+', Padded(h, 2), Padded(min, 2));
    }
  }

  lemma UtcZone(body: string)
    ensures Zone(body + "Z") == Some((body, 0, true))
  {
    var text := body + "Z";
    assert text[..|text| - 1] == body;
  }

  lemma HoursMinutes(m: nat) returns (h: nat, min: nat)
    requires m % 60 == 0 && m < DAY_SECONDS
    ensures h == m / 3600 && min == m % 3600 / 60 && m == h * 3600 + min * 60 && h < 24 && min < 60
  {
    h, min := m / 3600, m % 3600 / 60;
    MinutesOnly(m);
  }

  lemma SignedZone(body: string, sign: char, h: string, m: string)
    requires (sign == '+' || sign == '-') && |h| == 2 && |m| == 2 && AllDigits(m)
    requires Digits(h).Some? && Digits(m).Some? && Digits(m).value <= 59
    ensures var offset := Digits(h).value * 3600 + Digits(m).value * 60;
            Zone(body + ([sign] + (h + ([':'] + m)))) == Some((body, if sign == '-' then -offset else offset, true))
  {
    hide Digits;
    var text := body + ([sign] + (h + ([':'] + m)));
    var n := |text|;
    assert text[n - 6] == sign && text[n - 3] == ':' && text[n - 1] == m[1];
    assert text[n - 5..n - 3] == h && text[n - 2..] == m && text[..n - 6] == body;
  }

  lemma MinutesOnly(m: nat)
    requires m % 60 == 0
    ensures m % 3600 == 60 * (m % 3600 / 60)
  {
    var r := m % 3600;
    assert m == 3600 * (m / 3600) + r;
    assert r == 60 * (r / 60) + r % 60;
    RemainderUnique(m, 60, 60 * (m / 3600) + r / 60, r % 60);
  }

  lemma NoZone(body: string)
    requires ClockChars(body)
    ensures Zone(body) == Some((body, 0, false))
  {
  }

  /** Every time survives being written and read. */
  lemma {:induction false} TimeRoundTrip(t: Time)
    ensures ReadTime(TimeText(t)) == Some(t)
  {
    hide ClockText, TrimZeros, Padded, Fields, Zone, Hour, Minute, Second, Nanosecond, FieldValues, OffsetText,
         FractionNanos, Cut;
    var clock := ClockText(t);
    var body := clock + FractionText(t);
    ClockReads(t);
    PartsBuild(t);
    if Nanosecond(t) == 0 {
      assert body == clock;
      CutNone(clock, '.');
      NoFraction(clock);
    } else {
      FractionReadsBack(t);
      var f := TrimZeros(Padded(Nanosecond(t), 9));
      assert body == clock + ['.'] + f;
      CutHere(clock, '.', f);
    }
    assert ClockChars(body);
    if t.zoned {
      OffsetReads(body, t.offset);
    } else {
      assert TimeText(t) == body;
      NoZone(body);
    }
    Rebuilt(t);
  }

  lemma NoFraction(clock: string)
    ensures FractionNanos(Split(clock, [], false)) == Some(0)
  {
  }

  lemma Rebuilt(t: Time)
    ensures if t.zoned then NewZonedTime(Hour(t), Minute(t), Second(t), Nanosecond(t), t.offset) == Some(t)
            else NewLocalTime(Hour(t), Minute(t), Second(t), Nanosecond(t)) == Some(t)
  {
    hide Hour, Minute, Second, Nanosecond;
    PartsBuild(t);
  }

  // ---- from an instant

  /** A time.Time: nanoseconds since the epoch, and its zone's offset in seconds. */
  datatype Instant = Instant(nanos: int, offset: int)

  function ReadingOf(i: Instant): (n: nat)
    ensures n < DAY
  {
    (i.nanos + i.offset * SECOND) % DAY
  }

  /** TimeOf: whole minutes of offset, within a day, at the same instant. */
  function TimeOf(i: Instant): (t: Time)
    ensures t.zoned
    ensures (t.nanos - t.offset * SECOND - i.nanos) % DAY == 0
    ensures t.offset == if -DAY_SECONDS < i.offset < DAY_SECONDS then i.offset - Remainder(i.offset, 60) else 0
    decreases if InDay(i.offset - Remainder(i.offset, 60)) then 0 else 1
  {
    var offset := i.offset - Remainder(i.offset, 60);
    WholeMinutes(i.offset);
    var j := Instant(i.nanos, offset);
    var n := ReadingOf(j);
    var read := Clock(n, 0, false);
    PartsBuild(read);
    SameInstant(j);
    match NewZonedTime(Hour(read), Minute(read), Second(read), Nanosecond(read), offset)
    case Some(t) => t
    case None => TimeOf(Instant(i.nanos, 0))
  }

  lemma WholeMinutes(offset: int)
    ensures Remainder(offset - Remainder(offset, 60), 60) == 0
    ensures -DAY_SECONDS < offset < DAY_SECONDS ==>
              -DAY_SECONDS < offset - Remainder(offset, 60) < DAY_SECONDS
    ensures InDay(0) && Remainder(0, 60) == 0
  {
    QuotientRemainder(offset, 60);
    var q := Quotient(offset, 60);
    if offset >= 0 {
      RemainderUnique(60 * q, 60, q, 0);
    } else {
      RemainderUnique(60 * -q, 60, -q, 0);
    }
  }

  lemma SameInstant(i: Instant)
    ensures (ReadingOf(i) - i.offset * SECOND - i.nanos) % DAY == 0
  {
    var x := i.nanos + i.offset * SECOND;
    assert x == DAY * (x / DAY) + x % DAY;
    assert ReadingOf(i) - x == DAY * (-(x / DAY));
    MultipleOfDay(-(x / DAY));
  }

  lemma MultipleOfDay(k: int)
    ensures (DAY * k) % DAY == 0
  {
  }
}
