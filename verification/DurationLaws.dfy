/** What a duration text means in unbounded arithmetic, and the laws of its reader and printer. */
module DurationLaws {
  import opened Int64
  import opened Options
  import opened Text
  import opened Durations

  /** A duration text after its P: components, and the T before those of the time. */
  datatype Item = Mark | Part(number: string, unit: char)

  function ItemText(item: Item): string {
    match item
    case Mark => "T"
    case Part(number, unit) => number + [unit]
  }

  function Render(items: seq<Item>): string {
    if items == [] then [] else ItemText(items[0]) + Render(items[1..])
  }

  /** Totals of components as integers without bound. */
  datatype Total = Total(months: int, days: int, nanos: int) {
    function Plus(other: Total): Total {
      Total(months + other.months, days + other.days, nanos + other.nanos)
    }

    predicate InRange() {
      Fits(months) && Fits(days) && Fits(nanos)
    }

    function ToDuration(): Duration
      requires InRange()
    {
      Duration(months, days, nanos)
    }
  }

  function TotalOf(d: Duration): (t: Total)
    ensures t.InRange()
  {
    Total(d.months, d.days, d.nanos)
  }

  /** The digits of a fraction that count: all of them, or the first nine before anything else. */
  function Significant(digits: string): string {
    if AllDigits(digits) || |digits| <= 9 then digits else digits[..9]
  }

  /** Whole units of 1/10^width in the decimal fraction 0.digits. */
  function UnitsIn(digits: string, width: nat): int
    requires AllDigits(digits)
  {
    Value(digits) * Pow10(width) / Pow10(|digits|)
  }

  /** That is the largest number of units that does not exceed the fraction. */
  lemma UnitsFloor(digits: string, width: nat)
    requires AllDigits(digits)
    ensures var f, p := UnitsIn(digits, width), Pow10(|digits|);
            f * p <= Value(digits) * Pow10(width) < (f + 1) * p
  {
    hide Pow10, Value;
    var a, p := Value(digits) * Pow10(width), Pow10(|digits|);
    NatProductAtLeast(Value(digits), Pow10(width));
    var q, r := Euclid(a, p);
    ProductSum(q, 1, p);
  }

  /** The nanoseconds a fraction names: those of 0.digits, cut off; after a minus, as 0.6.0 wrote it, up to
      eight digits with a zero first stand for hundred-millionths. */
  function FractionMeaning(fraction: string, n: int, negative: bool): Option<int> {
    var minus := fraction != [] && fraction[0] == '-';
    var digits := if minus then fraction[1..] else fraction;
    var d := Significant(digits);
    if (minus && n > 0) || d == [] || !AllDigits(d) then None
    else
      var f := if minus && d[0] == '0' && |digits| <= 8 then UnitsIn(d, 8) else UnitsIn(d, 9);
      Some(if minus || negative then -f else f)
  }

  lemma UnitsShort(d: string, width: nat)
    requires AllDigits(d) && |d| <= width
    ensures UnitsIn(d, width) == Value(d) * Pow10(width - |d|)
  {
    hide Pow10, Value;
    Pow10Splits(width - |d|, |d|);
    var v, p, q := Value(d), Pow10(width - |d|), Pow10(|d|);
    ProductAssoc(v, p, q);
    DivideProduct(v * p, q);
  }

  lemma {:induction false} ValueSplits(a: string, b: string)
    requires AllDigits(a) && AllDigits(b)
    ensures AllDigits(a + b) && Value(a + b) == Value(a) * Pow10(|b|) + Value(b)
  {
    if b == [] {
      assert a + b == a;
    } else {
      var front, c := b[..|b| - 1], b[|b| - 1];
      ValueSplits(a, front);
      assert a + b == (a + front) + [c] && b == front + [c];
      ValueAppend(a + front, c);
      ValueAppend(front, c);
      assert Pow10(|b|) == 10 * Pow10(|front|);
      TenTimesSum(Value(a), Pow10(|front|), Value(front));
    }
  }

  lemma TenTimesSum(a: int, p: int, b: int)
    ensures 10 * (a * p + b) == a * (10 * p) + 10 * b
  {
  }

  /** Digits from the tenth on do not reach a nanosecond. */
  lemma UnitsLong(d: string)
    requires AllDigits(d) && |d| > 9
    ensures UnitsIn(d, 9) == Value(d[..9])
  {
    var a, b := d[..9], d[9..];
    assert d == a + b;
    ValueSplits(a, b);
    ValueBelow(b);
    Pow10Splits(9, |b|);
    hide Pow10, Value;
    CutOff(Value(a), Pow10(|b|), Value(b), Pow10(9));
  }

  lemma CutOff(v: nat, p: nat, r: nat, q: nat)
    requires r < p && q > 0
    ensures q * p > 0 && (v * p + r) * q / (q * p) == v
  {
    MulBounds(q, p);
    ScaledSum(v, p, r, q);
    StrictProduct(r, p, q);
    NatProductAtLeast(v, q * p);
    RemainderUnique((v * p + r) * q, q * p, v, r * q);
  }

  lemma ScaledSum(v: int, p: int, r: int, q: int)
    ensures (v * p + r) * q == v * (q * p) + r * q && p * q == q * p
  {
    ProductSum(v * p, r, q);
    ProductAssoc(v, p, q);
  }

  /** The fraction's reader scales and cuts off, and gives the nanoseconds the fraction names. */
  lemma FractionExact(fraction: string, n: int, negative: bool)
    ensures FractionMeaning(fraction, n, negative) == FractionNanos(fraction, n, negative)
  {
    var minus := fraction != [] && fraction[0] == '-';
    var digits := if minus then fraction[1..] else fraction;
    hide UnitsIn, Value, Pow10, Digits;
    if |digits| > 9 {
      if AllDigits(digits) { NineDigits(digits); }
      if AllDigits(digits[..9]) { ShortDigits(digits[..9]); }
    } else if digits != [] && AllDigits(digits) {
      ShortDigits(digits);
    }
    assert Pow10(0) == 1 by { PowerZero(); }
  }

  lemma PowerZero()
    ensures Pow10(0) == 1
  {
  }

  lemma ShortDigits(digits: string)
    requires AllDigits(digits) && 0 < |digits| <= 9
    ensures Digits(digits) == Some(Value(digits))
    ensures |digits| <= 8 ==> UnitsIn(digits, 8) == Value(digits) * Pow10(8 - |digits|)
    ensures UnitsIn(digits, 9) == Value(digits) * Pow10(9 - |digits|)
  {
    SmallDigits(digits);
    hide UnitsIn, Value, Pow10, Digits;
    if |digits| <= 8 { UnitsShort(digits, 8); }
    UnitsShort(digits, 9);
  }

  lemma NineDigits(digits: string)
    requires AllDigits(digits) && |digits| > 9
    ensures UnitsIn(digits, 9) == Value(digits[..9]) && Digits(digits[..9]) == Some(Value(digits[..9]))
  {
    UnitsLong(digits);
    SmallDigits(digits[..9]);
  }

  lemma SmallDigits(d: string)
    requires AllDigits(d) && 0 < |d| <= 9
    ensures Digits(d) == Some(Value(d))
  {
    ScaledBelow(d, |d|);
  }

  /** The nanoseconds a seconds' number names. */
  function SecondsMeaning(number: string): Option<int> {
    var cut := Cut(number, '.');
    var n :- SignedValue(cut.before);
    if cut.before[0] == '+' then None
    else if !cut.found then Some(n * SECOND)
    else
      var f :- FractionMeaning(cut.after, n, cut.before[0] == '-');
      Some(n * SECOND + f)
  }

  /** n units: years are 12 months, weeks 7 days, hours and minutes nanoseconds. */
  function Scaled(inTime: bool, unit: char, n: int): Total {
    if unit == 'Y' then Total(12 * n, 0, 0)
    else if unit == 'W' then Total(0, 7 * n, 0)
    else if unit == 'D' then Total(0, n, 0)
    else if unit == 'H' then Total(0, 0, n * HOUR)
    else if inTime then Total(0, 0, n * MINUTE)
    else Total(n, 0, 0)
  }

  /** What one component adds. */
  function Contribution(inTime: bool, number: string, unit: char): Option<Total>
    requires IsDesignator(inTime, unit)
  {
    if unit == 'S' then
      var v :- SecondsMeaning(number);
      Some(Total(0, 0, v))
    else
      var n :- SignedValue(number);
      if number[0] == '+' then None else Some(Scaled(inTime, unit, n))
  }

  predicate PlainNumber(number: string, inTime: bool) {
    forall i :: 0 <= i < |number| ==> !IsDesignator(inTime, number[i])
  }

  /** t with the components added one by one, when each and every total on the way fits 64 bits. */
  function Sum(items: seq<Item>, inTime: bool, t: Total): Option<Total> {
    if items == [] then Some(t)
    else
      match items[0]
      case Mark => if inTime then None else Sum(items[1..], true, t)
      case Part(number, unit) =>
        if !IsDesignator(inTime, unit) || !PlainNumber(number, inTime) then None
        else
          var c :- Contribution(inTime, number, unit);
          if c.InRange() && t.Plus(c).InRange() then Sum(items[1..], inTime, t.Plus(c)) else None
  }

  predicate HasPart(items: seq<Item>) {
    exists i :: 0 <= i < |items| && items[i].Part?
  }

  /** Whether the text, with its sign, spells d by these components. */
  predicate Spells(text: string, negative: bool, items: seq<Item>, d: Duration) {
    && text == (if negative then "-P" else "P") + Render(items)
    && HasPart(items)
    && var sum := Sum(items, false, Total(0, 0, 0));
    && sum.Some? && sum.value.InRange()
    && if negative then !AnyMin(sum.value.ToDuration()) && d == Negated(sum.value.ToDuration())
       else d == sum.value.ToDuration()
  }

  /** The designators of a date and of a time, and what they and a second stand for. */
  lemma Designators(inTime: bool, c: char)
    ensures IsDesignator(inTime, c) <==> c in (if inTime then "HMS" else "YMWD")
    ensures HOUR == 3600 * SECOND && MINUTE == 60 * SECOND && SECOND == 1_000_000_000
    ensures c in "YMWDHM" ==>
              Scaled(inTime, c, 1) == match c
                                      case 'Y' => Total(12, 0, 0)
                                      case 'W' => Total(0, 7, 0)
                                      case 'D' => Total(0, 1, 0)
                                      case 'H' => Total(0, 0, 3_600_000_000_000)
                                      case _ => if inTime then Total(0, 0, 60_000_000_000) else Total(1, 0, 0)
  {
  }

  /** A leading minus negates every component, and is refused exactly when a negation does not fit. */
  lemma NegationFits(d: Duration)
    ensures AnyMin(d) <==> !(Fits(0 - d.months as int) && Fits(0 - d.days as int) && Fits(0 - d.nanos as int))
    ensures !AnyMin(d) ==>
              Negated(d).months + d.months == 0 && Negated(d).days + d.days == 0 && Negated(d).nanos + d.nanos == 0
  {
  }

  /** A text is accepted as d exactly when it spells d: nothing wraps, nothing else is read. */
  lemma {:induction false} ParseExact(text: string, d: Duration)
    ensures Parse(text) == Some(d) <==> exists negative, items :: Spells(text, negative, items, d)
  {
    if Parse(text) == Some(d) {
      var negative := text[0] == '-';
      var body := if negative then text[2..] else text[1..];
      assert body == (if negative then text[1..] else text)[1..];
      var items := ScanSound(body, false, ZERO, false);
      assert text == (if negative then "-P" else "P") + body;
      assert Spells(text, negative, items, d);
    }
    forall negative, items | Spells(text, negative, items, d)
      ensures Parse(text) == Some(d)
    {
      ParseComplete(text, negative, items, d);
    }
  }

  lemma {:induction false} ParseComplete(text: string, negative: bool, items: seq<Item>, d: Duration)
    requires Spells(text, negative, items, d)
    ensures Parse(text) == Some(d)
  {
    var body := Render(items);
    assert (if negative then text[1..] else text)[1..] == body;
    ScanComplete(items, false, ZERO, false);
  }

  /** The seconds reader accepts exactly the numbers whose value fits. */
  lemma {:induction false} SecondsExact(number: string)
    ensures var m := SecondsMeaning(number);
            SecondsNanos(number) == if m.Some? && Fits(m.value) then Some(m.value) else None
  {
    hide FractionNanos, FractionMeaning, CheckedMul, CheckedAdd, SignedValue, ParseInt, Cut;
    var cut := Cut(number, '.');
    var n := SignedValue(cut.before);
    if n.Some? && cut.before[0] != '+' && cut.found {
      FractionExact(cut.after, n.value, cut.before[0] == '-');
      var f := FractionNanos(cut.after, n.value, cut.before[0] == '-');
      assert f.Some? && n.value > 0 ==> f.value >= 0;
    }
  }

  lemma {:induction false} AddPartExact(d: Duration, inTime: bool, unit: char, number: string)
    requires IsDesignator(inTime, unit)
    ensures var c := Contribution(inTime, number, unit);
            AddPart(d, inTime, unit, number) ==
            if c.Some? && c.value.InRange() && TotalOf(d).Plus(c.value).InRange()
            then Some(TotalOf(d).Plus(c.value).ToDuration()) else None
  {
    hide SecondsNanos, SecondsMeaning, CheckedAdd, AddProduct, SignedValue, ParseInt;
    SecondsExact(number);
  }

  lemma {:induction false} ScanSound(rest: string, inTime: bool, d: Duration, content: bool)
    returns (items: seq<Item>)
    requires Scan(rest, inTime, d, content).Some?
    ensures Render(items) == rest
    ensures content || HasPart(items)
    ensures Sum(items, inTime, TotalOf(d)) == Some(TotalOf(Scan(rest, inTime, d, content).value))
    decreases |rest|
  {
    hide AddPart, Contribution, IsDesignator, HasPart, Sum, Scan, Render;
    if rest == [] {
      ScanEnd(rest, inTime, d, content);
      NoItems(inTime, TotalOf(d));
      return [];
    } else if rest[0] == 'T' && !inTime {
      ScanMark(rest, d, content);
      var more := ScanSound(rest[1..], true, d, content);
      items := [Mark] + more;
      ConsMark(more, TotalOf(d));
    } else {
      var k := FirstDesignator(rest, inTime);
      if k == |rest| { ScanEnd(rest, inTime, d, content); }
      ScanPart(rest, k, inTime, d, content);
      var next := AddPart(d, inTime, rest[k], rest[..k]).value;
      var more := ScanSound(rest[k + 1..], inTime, next, true);
      items := [Part(rest[..k], rest[k])] + more;
      ConsPart(rest[..k], rest[k], more, inTime, d);
      assert rest == rest[..k] + [rest[k]] + rest[k + 1..];
    }
  }

  lemma NoItems(inTime: bool, t: Total)
    ensures Render([]) == [] && Sum([], inTime, t) == Some(t)
  {
  }

  lemma ConsMark(more: seq<Item>, t: Total)
    ensures var items := [Mark] + more;
            && Render(items) == "T" + Render(more)
            && Sum(items, false, t) == Sum(more, true, t)
            && (HasPart(more) ==> HasPart(items))
  {
    var items := [Mark] + more;
    assert items[1..] == more;
    if HasPart(more) {
      var i :| 0 <= i < |more| && more[i].Part?;
      assert items[i + 1].Part?;
    }
  }

  lemma ConsPart(number: string, unit: char, more: seq<Item>, inTime: bool, d: Duration)
    requires IsDesignator(inTime, unit) && PlainNumber(number, inTime)
    requires AddPart(d, inTime, unit, number).Some?
    ensures var items := [Part(number, unit)] + more;
            && Render(items) == number + [unit] + Render(more)
            && Sum(items, inTime, TotalOf(d)) ==
               Sum(more, inTime, TotalOf(AddPart(d, inTime, unit, number).value))
            && HasPart(items)
  {
    hide AddPart, Contribution;
    var items := [Part(number, unit)] + more;
    assert items[1..] == more && items[0].Part?;
    AddPartExact(d, inTime, unit, number);
  }

  lemma {:induction false} ScanComplete(items: seq<Item>, inTime: bool, d: Duration, content: bool)
    requires content || HasPart(items)
    requires Sum(items, inTime, TotalOf(d)).Some?
    ensures Sum(items, inTime, TotalOf(d)).value.InRange()
    ensures Scan(Render(items), inTime, d, content) ==
            Some(Sum(items, inTime, TotalOf(d)).value.ToDuration())
    decreases |items|
  {
    hide AddPart, Contribution, IsDesignator, Scan;
    var rest := Render(items);
    if items == [] {
      ScanEnd(rest, inTime, d, content);
    } else {
      var item, more := items[0], items[1..];
      match item {
        case Mark =>
          assert rest[1..] == Render(more);
          ScanMark(rest, d, content);
          if !content {
            var i :| 0 <= i < |items| && items[i].Part?;
            assert more[i - 1].Part?;
          }
          ScanComplete(more, true, d, content);
        case Part(number, unit) =>
          AddPartExact(d, inTime, unit, number);
          var k := |number|;
          assert rest[..k] == number && rest[k] == unit && rest[k + 1..] == Render(more);
          FirstDesignatorIs(rest, inTime, k);
          assert rest[0] != 'T' by { NumberHead(inTime, number, unit); }
          ScanPart(rest, k, inTime, d, content);
          ScanComplete(more, inTime, AddPart(d, inTime, unit, number).value, true);
      }
    }
  }

  /** A number that contributes starts with a digit or a minus. */
  lemma NumberHead(inTime: bool, number: string, unit: char)
    requires IsDesignator(inTime, unit) && Contribution(inTime, number, unit).Some?
    ensures number != [] && number[0] != 'T'
  {
    var whole := if unit == 'S' then Cut(number, '.').before else number;
    assert SignedValue(whole).Some?;
  }
}
