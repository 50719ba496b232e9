/** GQL DURATION text (ISO 8601), as crates/bindings/go/temporal.go writes and reads it. */
module Durations {
  import opened Int64
  import opened Options
  import opened Text

  const SECOND: int64 := 1_000_000_000
  const MINUTE: int64 := 60_000_000_000
  const HOUR: int64 := 3_600_000_000_000

  /** Months, days and nanoseconds, kept apart: a month and a day have no fixed length. */
  datatype Duration = Duration(months: int64, days: int64, nanos: int64)

  const ZERO := Duration(0, 0, 0)

  // ---- the reader

  predicate IsDesignator(inTime: bool, c: char) {
    c == 'M' || (if inTime then c == 'H' || c == 'S' else c == 'Y' || c == 'W' || c == 'D')
  }

  /** addProduct: total + n * unit, and whether product and sum both fit. */
  function AddProduct(total: int64, n: int64, unit: int64): (r: (int64, bool))
    ensures r.1 <==> Fits(n * unit) && Fits(total + n * unit)
    ensures r.1 ==> r.0 == total + n * unit
  {
    var (product, fits) := CheckedMul(n, unit);
    if !fits then (total, false) else CheckedAdd(total, product)
  }

  /** The signed nanoseconds of a seconds' fraction; `negative` when the whole seconds carry a minus. */
  function FractionNanos(fraction: string, n: int, negative: bool): (r: Option<int64>)
    ensures r.Some? ==> Magnitude(r.value) < SECOND
    ensures r.Some? && n < 0 && negative ==> r.value <= 0
    ensures r.Some? && n > 0 && !negative ==> r.value >= 0
  {
    var legacy := fraction != [] && fraction[0] == '-';
    if legacy && n > 0 then None
    else
      var digits := if legacy then fraction[1..] else fraction;
      var width := if legacy && digits != [] && digits[0] == '0' && |digits| <= 8 then 8 else 9;
      var kept := if |digits| > width then digits[..width] else digits;
      match Digits(kept)
      case None => None
      case Some(value) =>
        ScaledBelow(kept, width);
        var f := value * Pow10(width - |kept|);
        Some(if legacy || negative then -f else f)
  }

  /** secondsNanos: the nanoseconds of n or n.fraction. */
  function SecondsNanos(number: string): (r: Option<int64>) {
    var cut := Cut(number, '.');
    var whole := ParseInt(cut.before);
    if whole.None? || cut.before[0] == '+' then None
    else
      var (nanos, fits) := CheckedMul(whole.value, SECOND);
      if !cut.found then (if fits then Some(nanos) else None)
      else
        var f :- FractionNanos(cut.after, whole.value, cut.before[0] == '-');
        var (sum, sumFits) := CheckedAdd(nanos, f);
        if fits && sumFits then Some(sum) else None
  }

  /** One designator of the reader's loop: the duration with the component added, or a refusal. */
  function AddPart(d: Duration, inTime: bool, c: char, number: string): (r: Option<Duration>)
    requires IsDesignator(inTime, c)
  {
    if c == 'S' then
      var nanos :- SecondsNanos(number);
      var (sum, fits) := CheckedAdd(d.nanos, nanos);
      if fits then Some(d.(nanos := sum)) else None
    else
      var n :- ParseInt(number);
      if number[0] == '+' then None
      else if c == 'Y' then
        var (sum, fits) := AddProduct(d.months, n, 12);
        if fits then Some(d.(months := sum)) else None
      else if c == 'M' && !inTime then
        var (sum, fits) := CheckedAdd(d.months, n);
        if fits then Some(d.(months := sum)) else None
      else if c == 'W' then
        var (sum, fits) := AddProduct(d.days, n, 7);
        if fits then Some(d.(days := sum)) else None
      else if c == 'D' then
        var (sum, fits) := CheckedAdd(d.days, n);
        if fits then Some(d.(days := sum)) else None
      else
        var (sum, fits) := AddProduct(d.nanos, n, if c == 'H' then HOUR else MINUTE);
        if fits then Some(d.(nanos := sum)) else None
  }

  /** Where the first designator stands, or |s|. */
  function FirstDesignator(s: string, inTime: bool): (k: nat)
    ensures k <= |s|
    ensures forall i :: 0 <= i < k ==> !IsDesignator(inTime, s[i])
    ensures k < |s| ==> IsDesignator(inTime, s[k])
  {
    if s == [] || IsDesignator(inTime, s[0]) then 0 else 1 + FirstDesignator(s[1..], inTime)
  }

  /** The components from `rest` on, added to d; `content` when there was one before. */
  function Scan(rest: string, inTime: bool, d: Duration, content: bool): (r: Option<Duration>)
    decreases |rest|
  {
    if rest == [] then (if content then Some(d) else None)
    else if rest[0] == 'T' && !inTime then Scan(rest[1..], true, d, content)
    else
      var k := FirstDesignator(rest, inTime);
      if k == |rest| then None
      else
        var next :- AddPart(d, inTime, rest[k], rest[..k]);
        Scan(rest[k + 1..], inTime, next, true)
  }

  predicate AnyMin(d: Duration) {
    d.months == MIN || d.days == MIN || d.nanos == MIN
  }

  function Negated(d: Duration): (r: Duration)
    requires !AnyMin(d)
  {
    Duration(-d.months, -d.days, -d.nanos)
  }

  /** What ParseDuration gives. */
  function Parse(text: string): (r: Option<Duration>) {
    var negative := text != [] && text[0] == '-';
    var body := if negative then text[1..] else text;
    if body == [] || body[0] != 'P' then None
    else
      var d :- Scan(body[1..], false, ZERO, false);
      if !negative then Some(d) else if AnyMin(d) then None else Some(Negated(d))
  }

  method ParseDuration(text: string) returns (r: Option<Duration>)
    ensures r == Parse(text)
  {
    var negative := text != [] && text[0] == '-';
    var body := if negative then text[1..] else text;
    if body == [] || body[0] != 'P' { return None; }
    r := ParseComponents(body[1..]);
    if r.None? || !negative { return; }
    r := if AnyMin(r.value) then None else Some(Negated(r.value));
  }

  /** ParseDuration's single pass over the text after the P, with a cursor and a start mark. */
  method ParseComponents(body: string) returns (r: Option<Duration>)
    ensures r == Scan(body, false, ZERO, false)
  {
    hide AddPart, IsDesignator, Scan, FirstDesignator;
    var d, inTime, start, content := ZERO, false, 0, false;
    var i := 0;
    ghost var whole := Scan(body, false, ZERO, false);
    assert body[0..] == body;
    while i < |body|
      invariant 0 <= start <= i <= |body|
      invariant whole == Scan(body[start..], inTime, d, content)
      invariant i - start <= FirstDesignator(body[start..], inTime)
      invariant start < i ==> inTime || body[start] != 'T'
    {
      var c := body[i];
      ghost var rest := body[start..];
      assert rest[i - start] == c;
      if c == 'T' && !inTime && start == i {
        ScanMark(rest, d, content);
        assert rest[1..] == body[i + 1..];
        inTime, start := true, i + 1;
      } else if IsDesignator(inTime, c) {
        var added := AddPart(d, inTime, c, body[start..i]);
        ScanPart(rest, i - start, inTime, d, content);
        assert rest[..i - start] == body[start..i] && rest[i - start + 1..] == body[i + 1..];
        if added.None? { return None; }
        d, start, content := added.value, i + 1, true;
      }
      i := i + 1;
    }
    ScanEnd(body[start..], inTime, d, content);
    r := if content && start == |body| then Some(d) else None;
  }

  lemma ScanMark(rest: string, d: Duration, content: bool)
    requires rest != [] && rest[0] == 'T'
    ensures Scan(rest, false, d, content) == Scan(rest[1..], true, d, content)
  {
    hide AddPart;
  }

  /** What the scan makes of the component that ends at k. */
  lemma ScanPart(rest: string, k: nat, inTime: bool, d: Duration, content: bool)
    requires k < |rest| && IsDesignator(inTime, rest[k]) && k <= FirstDesignator(rest, inTime)
    requires inTime || rest[0] != 'T'
    ensures Scan(rest, inTime, d, content) ==
            match AddPart(d, inTime, rest[k], rest[..k])
            case None => None
            case Some(next) => Scan(rest[k + 1..], inTime, next, true)
  {
    FirstIs(rest, k, inTime);
    hide AddPart, IsDesignator, FirstDesignator;
  }

  lemma FirstIs(rest: string, k: nat, inTime: bool)
    requires k < |rest| && IsDesignator(inTime, rest[k]) && k <= FirstDesignator(rest, inTime)
    ensures FirstDesignator(rest, inTime) == k
  {
    hide IsDesignator, FirstDesignator;
  }

  lemma ScanEnd(rest: string, inTime: bool, d: Duration, content: bool)
    requires |rest| <= FirstDesignator(rest, inTime) && (rest != [] ==> inTime || rest[0] != 'T')
    ensures Scan(rest, inTime, d, content) == if content && rest == [] then Some(d) else None
  {
    hide AddPart, IsDesignator;
  }

  lemma FirstDesignatorIs(s: string, inTime: bool, k: nat)
    requires k <= |s| && (k < |s| ==> IsDesignator(inTime, s[k]))
    requires forall i :: 0 <= i < k ==> !IsDesignator(inTime, s[i])
    ensures FirstDesignator(s, inTime) == k
  {
  }

  lemma {:induction false} ValueBelow(s: string)
    requires AllDigits(s)
    ensures Value(s) < Pow10(|s|)
  {
    if s != [] { ValueBelow(s[..|s| - 1]); }
  }

  lemma {:induction false} ScaledBelow(s: string, width: nat)
    requires AllDigits(s) && |s| <= width <= 9
    ensures 0 <= Value(s) * Pow10(width - |s|) < Pow10(width) <= SECOND
  {
    ValueBelow(s);
    Pow10Splits(|s|, width - |s|);
    StrictProduct(Value(s), Pow10(|s|), Pow10(width - |s|));
    Pow10Splits(width, 9 - width);
    assert Pow10(9) == SECOND;
    MulBounds(Pow10(9 - width), Pow10(width));
  }

  lemma StrictProduct(a: nat, b: nat, c: nat)
    requires a < b && c > 0
    ensures 0 <= a * c < b * c
  {
    ProductSum(a, b - a, c);
    MulBounds(b - a, c);
    NatProductAtLeast(a, c);
  }

  lemma {:induction false} Pow10Splits(a: nat, b: nat)
    ensures Pow10(a + b) == Pow10(a) * Pow10(b)
  {
    if a > 0 {
      Pow10Splits(a - 1, b);
      ProductAssoc(10, Pow10(a - 1), Pow10(b));
    }
  }
}
