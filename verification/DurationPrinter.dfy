/** Duration.String of temporal.go, and that ParseDuration undoes it. */
module DurationPrinter {
  import opened Int64
  import opened Options
  import opened Text
  import opened Durations
  import opened DurationLaws

  /** No component is positive and one is negative: the text carries one leading minus. */
  predicate IsNegative(d: Duration) {
    (d.months < 0 || d.days < 0 || d.nanos < 0) && d.months <= 0 && d.days <= 0 && d.nanos <= 0
  }

  /** The components as printed: negated, with Go's wrap-around, under a leading minus. */
  function Printed(d: Duration): Duration {
    if IsNegative(d) then Duration(Neg(d.months), Neg(d.days), Neg(d.nanos)) else d
  }

  function OptionalPart(n: int, unit: char): seq<Item> {
    if n == 0 then [] else [Part(IntText(n), unit)]
  }

  /** Seconds with their fraction, the sign once before them. */
  function SecondsText(nanos: int64): string {
    var rest := Mod(nanos, MINUTE);
    (if rest < 0 then "-" else "") + NatText(Magnitude(Quotient(rest, SECOND))) +
    (if Mod(nanos, SECOND) == 0 then ""
     else "." + TrimZeros(Padded(Magnitude(Mod(nanos, SECOND)), 9)))
  }

  function TimeItems(nanos: int64): seq<Item> {
    OptionalPart(Quotient(nanos, HOUR), 'H') +
    OptionalPart(Quotient(Mod(nanos, HOUR), MINUTE), 'M') +
    (if Mod(nanos, MINUTE) == 0 then [] else [Part(SecondsText(nanos), 'S')])
  }

  function TailItems(d: Duration): seq<Item> {
    if d == ZERO then [Mark, Part("0", 'S')]
    else if d.nanos == 0 then []
    else [Mark] + TimeItems(d.nanos)
  }

  /** The components a duration is printed as. */
  function Items(d: Duration): seq<Item> {
    OptionalPart(Quotient(d.months, 12), 'Y') + (OptionalPart(Remainder(d.months, 12), 'M') +
    (OptionalPart(d.days, 'D') + TailItems(d)))
  }

  /** Duration.String: each piece written to a builder in turn. */
  method Format(d: Duration) returns (b: string)
    ensures b == (if IsNegative(d) then "-P" else "P") + Render(Items(Printed(d)))
  {
    var negative := IsNegative(d);
    var p := Printed(d);
    hide Quotient, Remainder, Div, Mod, Render, OptionalPart, TimeItems, TailItems, Items, IntText, Printed;
    PrintedZero(d);
    var months, days, nanos := p.months, p.days, p.nanos;
    b := if negative then "-" else "";
    b := b + "P";
    ghost var sign, items := b, [];
    RenderNone(sign);
    var years := Div(months, 12);
    WholePart(months, 12);
    if years != 0 { b := b + (IntText(years) + ['Y']); }
    items := ExtendOptional(sign, items, years, 'Y');
    var m := Mod(months, 12);
    if m != 0 { b := b + (IntText(m) + ['M']); }
    items := ExtendOptional(sign, items, m, 'M');
    if days != 0 { b := b + (IntText(days) + ['D']); }
    items := ExtendOptional(sign, items, days, 'D');
    if nanos != 0 {
      var time := FormatTime(nanos);
      b := b + ("T" + time);
    }
    if !negative && months == 0 && days == 0 && nanos == 0 {
      b := b + "T0S";
    }
    RenderTail(sign, items, p);
    assert sign + Render(items) + "" == sign + Render(items);
    assert sign == if negative then "-P" else "P";
    Regroup(OptionalPart(years, 'Y'), OptionalPart(m, 'M'), OptionalPart(days, 'D'), TailItems(p));
    ItemsAre(p);
  }

  lemma PrintedZero(d: Duration)
    ensures Printed(d) == ZERO ==> !IsNegative(d)
  {
  }

  lemma ItemsAre(d: Duration)
    ensures Items(d) == OptionalPart(Quotient(d.months, 12), 'Y') + (OptionalPart(Remainder(d.months, 12), 'M') +
                        (OptionalPart(d.days, 'D') + TailItems(d)))
  {
  }

  /** The part of Duration.String after the T. */
  method FormatTime(nanos: int64) returns (b: string)
    requires nanos != 0
    ensures b == Render(TimeItems(nanos))
  {
    hide Quotient, Remainder, Div, Mod, Render, OptionalPart, IntText, SecondsText;
    b := "";
    ghost var items := [];
    RenderNone(b);
    var hours := Div(nanos, HOUR);
    WholePart(nanos, HOUR);
    var minutes := Div(Mod(nanos, HOUR), MINUTE);
    WholePart(Mod(nanos, HOUR), MINUTE);
    var seconds := Div(Mod(nanos, MINUTE), SECOND);
    var fraction := Mod(nanos, SECOND);
    SecondsShown(nanos);
    if hours != 0 { b := b + (IntText(hours) + ['H']); }
    items := ExtendOptional("", items, hours, 'H');
    if minutes != 0 { b := b + (IntText(minutes) + ['M']); }
    items := ExtendOptional("", items, minutes, 'M');
    if fraction != 0 || seconds != 0 {
      var text := FormatSeconds(nanos);
      b := b + (text + ['S']);
      items := ExtendPart("", items, text, 'S');
    }
    assert "" + Render(items) == Render(items);
    assert items == TimeItems(nanos);
  }

  /** The number before the S. */
  method FormatSeconds(nanos: int64) returns (text: string)
    ensures text == SecondsText(nanos)
  {
    hide Quotient, Remainder, NatText, TrimZeros, Padded;
    var seconds := Div(Mod(nanos, MINUTE), SECOND);
    WholePart(Mod(nanos, MINUTE), SECOND);
    var fraction := Mod(nanos, SECOND);
    text := if Mod(nanos, MINUTE) < 0 then "-" else "";
    text := text + NatText(Magnitude(seconds));
    if fraction != 0 { text := text + ("." + TrimZeros(Padded(Magnitude(fraction), 9))); }
  }

  /** Seconds or a fraction are left exactly when the time is not whole minutes. */
  lemma SecondsShown(nanos: int64)
    ensures Mod(nanos, MINUTE) != 0 <==> Mod(nanos, SECOND) != 0 || Div(Mod(nanos, MINUTE), SECOND) != 0
  {
    hide Quotient, Remainder;
    WholePart(Mod(nanos, MINUTE), SECOND);
    TimeParts(nanos);
  }

  lemma RenderNone(prefix: string)
    ensures prefix + Render([]) == prefix
  {
  }

  lemma ExtendPart(prefix: string, items: seq<Item>, number: string, unit: char) returns (more: seq<Item>)
    ensures more == items + [Part(number, unit)]
    ensures prefix + Render(more) == prefix + Render(items) + (number + [unit])
  {
    more := items + [Part(number, unit)];
    RenderAppend(items, [Part(number, unit)]);
    assert [Part(number, unit)][1..] == [];
    assert Render([Part(number, unit)]) == number + [unit];
  }

  lemma ExtendOptional(prefix: string, items: seq<Item>, n: int, unit: char) returns (more: seq<Item>)
    ensures more == items + OptionalPart(n, unit)
    ensures prefix + Render(more) ==
            if n == 0 then prefix + Render(items) else prefix + Render(items) + (IntText(n) + [unit])
  {
    hide IntText, Render;
    if n == 0 {
      more := items;
    } else {
      more := ExtendPart(prefix, items, IntText(n), unit);
    }
  }

  lemma RenderTail(prefix: string, items: seq<Item>, d: Duration)
    ensures prefix + Render(items + TailItems(d)) == prefix + Render(items) +
            if d == ZERO then "T0S" else if d.nanos == 0 then "" else "T" + Render(TimeItems(d.nanos))
  {
    hide TimeItems;
    RenderAppend(items, TailItems(d));
    if d == ZERO {
      assert TailItems(d)[1..] == [Part("0", 'S')] && [Part("0", 'S')][1..] == [];
      assert Render([Part("0", 'S')]) == "0S";
    } else if d.nanos != 0 {
      assert TailItems(d)[1..] == TimeItems(d.nanos);
    }
  }

  lemma Regroup<T>(a: seq<T>, b: seq<T>, c: seq<T>, d: seq<T>)
    ensures [] + a + b + c + d == a + (b + (c + d))
  {
    assert [] + a == a;
  }

  /** A duration no text of the printer's stands for: nothing positive and one component at MIN. */
  predicate Unprintable(d: Duration) {
    AnyMin(d) && d.months <= 0 && d.days <= 0 && d.nanos <= 0
  }

  function TextOf(d: Duration): string {
    (if IsNegative(d) then "-P" else "P") + Render(Items(Printed(d)))
  }

  /** Reading undoes printing, for every duration whose negation exists; the others are refused. */
  lemma {:induction false} RoundTrip(d: Duration)
    ensures Parse(TextOf(d)) == if Unprintable(d) then None else Some(d)
  {
    hide Items, Parse, Scan, Sum, Neg;
    var p, items := Printed(d), Items(Printed(d));
    ItemsSum(p);
    ScanComplete(items, false, ZERO, false);
    ParseSigned(IsNegative(d), Render(items), p);
    NegBack(d.months);
    NegBack(d.days);
    NegBack(d.nanos);
  }

  lemma ParseSigned(negative: bool, body: string, p: Duration)
    requires Scan(body, false, ZERO, false) == Some(p)
    ensures Parse((if negative then "-P" else "P") + body) ==
            if !negative then Some(p) else if AnyMin(p) then None else Some(Negated(p))
  {
    hide Scan;
    var text := (if negative then "-P" else "P") + body;
    assert (if negative then text[1..] else text)[1..] == body;
  }

  lemma NegBack(n: int64)
    ensures Neg(n) == MIN <==> n == MIN
    ensures n != MIN ==> Neg(n) == 0 - n
  {
  }

  /** The printed components add up to the duration again, in order and without leaving 64 bits. */
  lemma {:induction false} ItemsSum(d: Duration)
    ensures HasPart(Items(d))
    ensures Sum(Items(d), false, Total(0, 0, 0)) == Some(TotalOf(d))
  {
    hide Sum, OptionalPart, TailItems, Quotient, Remainder, HasPart;
    QuotientRemainder(d.months, 12);
    DateSum(Quotient(d.months, 12), Remainder(d.months, 12), d.days, TailItems(d));
    TailSum(d);
    SomePart(d);
  }

  lemma {:induction false} DateSum(years: int, months: int, days: int, rest: seq<Item>)
    requires Fits(12 * years) && Fits(12 * years + months) && Fits(months) && Fits(days)
    ensures Sum(OptionalPart(years, 'Y') + (OptionalPart(months, 'M') + (OptionalPart(days, 'D') + rest)),
                false, Total(0, 0, 0)) ==
            Sum(rest, false, Total(12 * years + months, days, 0))
  {
    hide Sum, OptionalPart;
    var t1, t2 := Total(12 * years, 0, 0), Total(12 * years + months, 0, 0);
    var more := OptionalPart(days, 'D') + rest;
    OptionalSum(false, years, 'Y', Total(0, 0, 0), t1, OptionalPart(months, 'M') + more);
    OptionalSum(false, months, 'M', t1, t2, more);
    OptionalSum(false, days, 'D', t2, Total(12 * years + months, days, 0), rest);
  }

  lemma SomePart(d: Duration)
    requires d.months == 0 && d.days == 0 ==> HasPart(TailItems(d))
    ensures HasPart(Items(d))
  {
    hide Quotient, Remainder, TailItems;
    QuotientRemainder(d.months, 12);
    var items, rest := Items(d), TailItems(d);
    if d.months == 0 && d.days == 0 {
      assert items == rest;
    } else {
      assert items[0].Part?;
    }
  }

  lemma {:induction false} TailSum(d: Duration)
    ensures Sum(TailItems(d), false, Total(d.months, d.days, 0)) == Some(TotalOf(d))
    ensures d.months == 0 && d.days == 0 ==> HasPart(TailItems(d))
  {
    hide TimeItems;
    var t, rest := Total(d.months, d.days, 0), TailItems(d);
    if d == ZERO {
      ZeroSum(t);
      assert rest[1..] == [Part("0", 'S')] && rest[1].Part?;
    } else if d.nanos != 0 {
      assert rest[1..] == TimeItems(d.nanos);
      TimeItemsSum(d.nanos, t);
      assert rest[1].Part?;
    }
  }

  lemma ZeroSum(t: Total)
    requires t.InRange()
    ensures Sum([Part("0", 'S')], true, t) == Some(t)
  {
    hide SecondsMeaning;
    ZeroSeconds();
    assert [Part("0", 'S')][1..] == [];
    assert t.Plus(Total(0, 0, 0)) == t;
  }

  lemma ZeroSeconds()
    ensures SecondsMeaning("0") == Some(0)
  {
    CutNone("0", '.');
    assert Value("0"[..0]) == 0;
  }

  lemma {:induction false} TimeItemsSum(nanos: int64, t: Total)
    requires nanos != 0 && t.InRange() && t.nanos == 0
    ensures TimeItems(nanos) != [] && TimeItems(nanos)[0].Part?
    ensures Sum(TimeItems(nanos), true, t) == Some(t.(nanos := nanos))
  {
    hide SecondsText, Quotient, Remainder, Sum, OptionalPart, SecondsMeaning;
    TimeParts(nanos);
    OptionalNonempty(nanos);
    var hours, minutes := Quotient(nanos, HOUR), Quotient(Mod(nanos, HOUR), MINUTE);
    var c := if Mod(nanos, MINUTE) == 0 then [] else [Part(SecondsText(nanos), 'S')];
    assert TimeItems(nanos) == OptionalPart(hours, 'H') + (OptionalPart(minutes, 'M') + c);
    var t1, t2 := t.(nanos := hours * HOUR), t.(nanos := hours * HOUR + minutes * MINUTE);
    SecondsSum(nanos, t2);
    OptionalSum(true, minutes, 'M', t1, t2, c);
    OptionalSum(true, hours, 'H', t, t1, OptionalPart(minutes, 'M') + c);
  }

  lemma OptionalNonempty(nanos: int64)
    requires nanos != 0
    ensures TimeItems(nanos) != [] && TimeItems(nanos)[0].Part?
  {
    hide Quotient, Remainder;
    TimeParts(nanos);
  }

  lemma SecondsSum(nanos: int64, t: Total)
    requires t.InRange() && Fits(t.nanos + Mod(nanos, MINUTE))
    ensures var c := if Mod(nanos, MINUTE) == 0 then [] else [Part(SecondsText(nanos), 'S')];
            Sum(c, true, t) == Some(t.Plus(Total(0, 0, Mod(nanos, MINUTE))))
  {
    hide SecondsText, Quotient, Remainder, SecondsMeaning;
    if Mod(nanos, MINUTE) != 0 {
      SecondsTextMeans(nanos);
      assert [Part(SecondsText(nanos), 'S')][1..] == [];
    }
  }

  /** Hours, minutes and the seconds' nanoseconds rebuild the whole, each with its sign. */
  lemma {:induction false} TimeParts(nanos: int64)
    ensures var h, m := Quotient(nanos, HOUR), Quotient(Mod(nanos, HOUR), MINUTE);
            && nanos == h * HOUR + m * MINUTE + Mod(nanos, MINUTE)
            && Fits(h * HOUR) && Fits(m * MINUTE) && Fits(h * HOUR + m * MINUTE)
    ensures var s := Quotient(Mod(nanos, MINUTE), SECOND);
            && Mod(nanos, MINUTE) == s * SECOND + Mod(nanos, SECOND)
            && (Mod(nanos, MINUTE) >= 0 ==> s >= 0 && Mod(nanos, SECOND) >= 0)
            && (Mod(nanos, MINUTE) <= 0 ==> s <= 0 && Mod(nanos, SECOND) <= 0)
  {
    hide Quotient, Remainder;
    QuotientRemainder(nanos, HOUR);
    QuotientRemainder(Mod(nanos, HOUR), MINUTE);
    QuotientRemainder(Mod(nanos, MINUTE), SECOND);
    RemainderTwice(nanos, MINUTE, 60);
    RemainderTwice(nanos, SECOND, 60);
  }

  /** A printed component adds its number of units, a left out one nothing. */
  lemma {:induction false} OptionalSum(inTime: bool, n: int, unit: char, t: Total, u: Total, rest: seq<Item>)
    requires IsDesignator(inTime, unit) && unit != 'S'
    requires Scaled(inTime, unit, n).InRange() && u.InRange() && u == t.Plus(Scaled(inTime, unit, n))
    ensures Sum(OptionalPart(n, unit) + rest, inTime, t) == Sum(rest, inTime, u)
  {
    IntTextReads(n);
    assert PlainNumber(IntText(n), inTime);
    if n == 0 {
      assert OptionalPart(n, unit) + rest == rest;
      assert u == t;
    } else {
      assert (OptionalPart(n, unit) + rest)[1..] == rest;
    }
  }

  lemma {:induction false} RenderAppend(a: seq<Item>, b: seq<Item>)
    ensures Render(a + b) == Render(a) + Render(b)
  {
    if a == [] {
      assert a + b == b;
    } else {
      RenderAppend(a[1..], b);
      assert (a + b)[0] == a[0] && (a + b)[1..] == a[1..] + b;
      Assoc(ItemText(a[0]), Render(a[1..]), Render(b));
    }
  }

  lemma Assoc(a: string, b: string, c: string)
    ensures (a + b) + c == a + (b + c)
  {
  }

  lemma WholePart(a: int64, b: int64)
    requires b > 1
    ensures Div(a, b) == Quotient(a, b)
  {
    SmallQuotient(a, b);
  }

  /** The printed seconds name the nanoseconds below the minute, also under zero whole seconds. */
  lemma {:induction false} SecondsTextMeans(nanos: int64)
    requires Mod(nanos, MINUTE) != 0
    ensures SecondsMeaning(SecondsText(nanos)) == Some(Mod(nanos, MINUTE))
    ensures PlainNumber(SecondsText(nanos), true)
  {
    hide TrimZeros, Padded, NatText, Cut, Quotient, Remainder, SignedValue, Value;
    QuotientRemainder(nanos, SECOND);
    var rest, fraction := Mod(nanos, MINUTE), Mod(nanos, SECOND);
    var seconds := Magnitude(Quotient(rest, SECOND));
    TimeParts(nanos);
    var before := (if rest < 0 then "-" else "") + NatText(seconds);
    SignedText(rest < 0, seconds);
    if fraction == 0 {
      CutNone(before, '.');
      assert SecondsText(nanos) == before;
    } else {
      assert Pow10(9) == SECOND;
      FractionReads(Magnitude(fraction), 9);
      var after := TrimZeros(Padded(Magnitude(fraction), 9));
      assert SecondsText(nanos) == before + ['.'] + after;
      CutHere(before, '.', after);
      assert after[0] != '-';
      FractionExact(after, Quotient(rest, SECOND), rest < 0);
      hide FractionMeaning;
    }
  }

  lemma SignedText(negative: bool, n: nat)
    ensures var s := (if negative then "-" else "") + NatText(n);
            && SignedValue(s) == Some(if negative then -(n as int) else n)
            && (forall i :: 0 <= i < |s| ==> s[i] == '-' || IsDigit(s[i]))
            && s != [] && (s[0] == '-' <==> negative) && s[0] != '+'
  {
    hide NatText, Value;
    NatTextReads(n);
    var s := (if negative then "-" else "") + NatText(n);
    if negative {
      assert s[1..] == NatText(n);
    } else {
      assert s == NatText(n) && IsDigit(s[0]);
    }
  }

  // ---- text written by 0.6.0

  /** 0.6.0's negative fraction: %09d with the sign inside, trailing zeros cut. */
  function LegacyFraction(magnitude: nat): string {
    "-" + TrimZeros(Padded(magnitude, 8))
  }

  /** Seconds of 0.6.0 with a negative fraction read back exactly below 0.01 s and from 0.1 s on;
      in between they read as ten times the fraction, which 0.6.0 wrote alike. */
  lemma {:induction false} LegacyReads(n: int, magnitude: nat)
    requires n <= 0 && 0 < magnitude < SECOND
    ensures var f := if Pow10(7) <= magnitude < Pow10(8) then 10 * magnitude else magnitude;
            var v := n * SECOND - f;
            && SecondsNanos(IntText(n) + "." + LegacyFraction(magnitude)) ==
               (if Fits(v) then Some(v) else None)
            && (Pow10(7) <= magnitude < Pow10(8) ==>
                  LegacyFraction(magnitude) == LegacyFraction(10 * magnitude))
  {
    hide TrimZeros, Padded, NatText, Cut, SignedValue, IntText, SecondsNanos;
    var whole, after := IntText(n), LegacyFraction(magnitude);
    IntTextReads(n);
    assert forall i :: 0 <= i < |whole| ==> whole[i] != '.';
    CutHere(whole, '.', after);
    assert whole + "." + after == whole + ['.'] + after;
    SecondsExact(whole + "." + after);
    LegacyFractionReads(n, magnitude, n < 0);
    FractionExact(after, n, n < 0);
    hide FractionMeaning;
    if Pow10(7) <= magnitude < Pow10(8) { LegacyAlike(magnitude); }
  }

  lemma {:induction false} LegacyFractionReads(n: int, magnitude: nat, negative: bool)
    requires n <= 0 && 0 < magnitude < SECOND
    ensures FractionNanos(LegacyFraction(magnitude), n, negative) ==
            Some(-(if Pow10(7) <= magnitude < Pow10(8) then 10 * magnitude else magnitude) as int)
  {
    hide TrimZeros, Padded, Pow10, Value;
    PowersOfTen();
    var digits := TrimZeros(Padded(magnitude, 8));
    assert LegacyFraction(magnitude)[1..] == digits;
    if magnitude < Pow10(8) {
      FractionReads(magnitude, 8);
      LeadingZero(magnitude);
      if magnitude >= Pow10(7) { TenTimes(digits, magnitude); }
    } else {
      WidePadding(magnitude);
      FractionReads(magnitude, 9);
      NineDigits(magnitude);
    }
  }

  lemma PowersOfTen()
    ensures Pow10(7) == 10_000_000 && Pow10(8) == 100_000_000 && Pow10(9) == 1_000_000_000
  {
  }

  lemma TenTimes(digits: string, magnitude: nat)
    requires 0 < |digits| <= 8 && AllDigits(digits) && Value(digits) * Pow10(8 - |digits|) == magnitude
    ensures Value(digits) * Pow10(9 - |digits|) == 10 * magnitude
  {
    hide Value;
    assert Pow10(9 - |digits|) == 10 * Pow10(8 - |digits|);
  }

  lemma WidePadding(magnitude: nat)
    requires Pow10(8) <= magnitude < Pow10(9)
    ensures Padded(magnitude, 8) == Padded(magnitude, 9) == NatText(magnitude)
  {
    NatTextLength(magnitude, 8);
    NatTextLength(magnitude, 9);
  }

  /** Nine digits start with a digit other than zero. */
  lemma NineDigits(magnitude: nat)
    requires Pow10(8) <= magnitude < Pow10(9)
    requires TrimZeros(Padded(magnitude, 8)) != []
    ensures TrimZeros(Padded(magnitude, 8))[0] != '0'
  {
    WidePadding(magnitude);
    NatTextReads(magnitude);
    TrimZerosHead(NatText(magnitude));
  }

  /** An eight digit field starts with a zero exactly below 10^7. */
  lemma LeadingZero(magnitude: nat)
    requires 0 < magnitude < Pow10(8)
    requires TrimZeros(Padded(magnitude, 8)) != []
    ensures TrimZeros(Padded(magnitude, 8))[0] == '0' <==> magnitude < Pow10(7)
  {
    PaddedReads(magnitude, 8);
    TrimZerosHead(Padded(magnitude, 8));
    NatTextReads(magnitude);
    NatTextLength(magnitude, 7);
    NatTextLength(magnitude, 8);
  }

  lemma LegacyAlike(magnitude: nat)
    requires Pow10(7) <= magnitude < Pow10(8)
    ensures LegacyFraction(magnitude) == LegacyFraction(10 * magnitude)
  {
    NatTextLength(magnitude, 7);
    NatTextLength(magnitude, 8);
    assert Pow10(9) == 10 * Pow10(8);
    assert Pow10(8) == 10 * Pow10(7);
    WidePadding(10 * magnitude);
    assert NatText(10 * magnitude) == NatText(magnitude) + ['0'];
    assert (NatText(magnitude) + ['0'])[..|NatText(magnitude)|] == NatText(magnitude);
    assert Padded(magnitude, 8) == NatText(magnitude);
  }
}
