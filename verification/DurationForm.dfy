/** The text Duration.String writes, described by the sizes and signs of its components. */
module DurationForm {
  import opened Int64
  import opened Options
  import opened Text
  import opened Durations
  import opened DurationLaws
  import opened DurationPrinter

  /** A component as it is written: nothing for none. */
  function Written(n: int, unit: char): string {
    if n == 0 then "" else IntText(n) + [unit]
  }

  /** A part of a whole keeps its sign, or is nothing. */
  predicate SameSign(part: int, whole: int) {
    (part > 0 ==> whole > 0) && (part < 0 ==> whole < 0)
  }

  /** The digits of a fraction of a second without trailing zeros. */
  predicate IsFraction(digits: string, nanos: nat) {
    && 0 < |digits| <= 9 && AllDigits(digits) && digits[|digits| - 1] != '0'
    && Value(digits) * Pow10(9 - |digits|) == nanos
  }

  /** The components a duration is written with: each as large as it can be, all of one sign with their field. */
  datatype Parts = Parts(years: int, months: int, days: int, hours: int, minutes: int, seconds: int, nanos: int)

  predicate Splits(d: Duration, p: Parts) {
    && d.months == 12 * p.years + p.months && -12 < p.months < 12
    && SameSign(p.years, d.months) && SameSign(p.months, d.months) && p.days == d.days
    && d.nanos == ((p.hours * 60 + p.minutes) * 60 + p.seconds) * 1_000_000_000 + p.nanos
    && -60 < p.minutes < 60 && -60 < p.seconds < 60 && -1_000_000_000 < p.nanos < 1_000_000_000
    && SameSign(p.hours, d.nanos) && SameSign(p.minutes, d.nanos)
    && SameSign(p.seconds, d.nanos) && SameSign(p.nanos, d.nanos)
  }

  /** The text of the time part, with the digits of its fraction. */
  function TimePart(p: Parts, digits: string): string {
    Written(p.hours, 'H') + Written(p.minutes, 'M') +
    (if p.seconds == 0 && p.nanos == 0 then ""
     else (if p.seconds < 0 || p.nanos < 0 then "-" else "") + NatText(Magnitude(p.seconds)) +
          (if p.nanos == 0 then "" else "." + digits) + "S")
  }

  /** The whole text: a minus when no component is positive, then the components of the magnitudes; a
      component that is zero is left out, and PT0S stands for nothing at all. */
  function Spelled(negative: bool, p: Parts, digits: string): string {
    (if negative then "-P" else "P") +
    (Written(p.years, 'Y') + (Written(p.months, 'M') + (Written(p.days, 'D') +
     (if p == Parts(0, 0, 0, 0, 0, 0, 0) then "T0S"
      else if p.hours == 0 && p.minutes == 0 && p.seconds == 0 && p.nanos == 0 then ""
      else "T" + TimePart(p, digits)))))
  }

  // ---- that it is printed so

  function PartsOf(d: Duration): Parts {
    Parts(Quotient(d.months, 12), Remainder(d.months, 12), d.days, Quotient(d.nanos, HOUR),
          Quotient(Mod(d.nanos, HOUR), MINUTE), Quotient(Mod(d.nanos, MINUTE), SECOND), Mod(d.nanos, SECOND))
  }

  lemma MonthParts(months: int64)
    ensures var y, m := Quotient(months, 12), Remainder(months, 12);
            months == 12 * y + m && -12 < m < 12 && SameSign(y, months) && SameSign(m, months)
  {
    QuotientRemainder(months, 12);
    hide Quotient, Remainder;
  }

  lemma UnitParts(a: int64, unit: int64, k: int64)
    requires unit > 0 && k > 1 && Fits(k * unit)
    ensures var r := Mod(a, k * unit);
            && -k < Quotient(r, unit) < k && SameSign(Quotient(r, unit), a) && SameSign(r, a)
  {
    MulBounds(k, unit);
    var big := k * unit;
    QuotientRemainder(a, big);
    var r := Remainder(a, big);
    QuotientRemainder(r, unit);
    BelowMultiple(Quotient(r, unit), k, unit);
    hide Quotient, Remainder;
  }

  lemma BelowMultiple(q: int, k: int, unit: int)
    requires unit > 0 && -(k * unit) < q * unit < k * unit
    ensures -k < q < k
  {
    if q >= k { AtLeastMultiple(k, q, unit); }
    if q <= -k { AtLeastMultiple(k, -q, unit); }
  }

  lemma AtLeastMultiple(k: int, q: int, unit: int)
    requires q >= k && unit > 0
    ensures q * unit >= k * unit && -q * unit == -(q * unit)
  {
    ProductSum(k, q - k, unit);
    ProductNeg(q, unit);
    if q > k { MulBounds(q - k, unit); }
  }

  lemma SplitIs(d: Duration)
    ensures Splits(d, PartsOf(d))
  {
    MonthParts(d.months);
    TimeParts(d.nanos);
    UnitParts(d.nanos, MINUTE, 60);
    UnitParts(d.nanos, SECOND, 60);
    QuotientRemainder(d.nanos, HOUR);
    QuotientRemainder(d.nanos, SECOND);
    hide Quotient, Remainder;
  }

  lemma RenderOptional(n: int, unit: char, rest: seq<Item>)
    ensures Render(OptionalPart(n, unit) + rest) == Written(n, unit) + Render(rest)
  {
    hide IntText;
    var items := OptionalPart(n, unit) + rest;
    if n == 0 {
      assert items == rest;
    } else {
      assert items[1..] == rest;
    }
  }

  lemma SecondsForm(nanos: int64, digits: string)
    requires digits == TrimZeros(Padded(Magnitude(Mod(nanos, SECOND)), 9))
    ensures var p := PartsOf(Duration(0, 0, nanos));
            && (Mod(nanos, MINUTE) == 0 <==> p.seconds == 0 && p.nanos == 0)
            && (Mod(nanos, MINUTE) != 0 ==>
                  SecondsText(nanos) + "S" ==
                  (if p.seconds < 0 || p.nanos < 0 then "-" else "") + NatText(Magnitude(p.seconds)) +
                  (if p.nanos == 0 then "" else "." + digits) + "S")
  {
    TimeParts(nanos);
    hide Quotient, Remainder, Mod, NatText, TrimZeros, Padded;
  }

  lemma TimeForm(nanos: int64, digits: string)
    requires digits == TrimZeros(Padded(Magnitude(Mod(nanos, SECOND)), 9))
    ensures Render(TimeItems(nanos)) == TimePart(PartsOf(Duration(0, 0, nanos)), digits)
  {
    var p := PartsOf(Duration(0, 0, nanos));
    SecondsForm(nanos, digits);
    ItemsForm(nanos, p);
    hide Quotient, Remainder, Mod, NatText, TrimZeros, Padded, SecondsText, IntText, TimeItems, Written;
  }

  lemma ItemsForm(nanos: int64, p: Parts)
    requires p == PartsOf(Duration(0, 0, nanos))
    ensures Render(TimeItems(nanos)) ==
            Written(p.hours, 'H') + Written(p.minutes, 'M') +
            (if Mod(nanos, MINUTE) == 0 then "" else SecondsText(nanos) + "S")
  {
    var last := if Mod(nanos, MINUTE) == 0 then [] else [Part(SecondsText(nanos), 'S')];
    hide Quotient, Remainder, Mod, SecondsText, OptionalPart, Written, Render;
    var hours, minutes := OptionalPart(p.hours, 'H'), OptionalPart(p.minutes, 'M');
    Regrouped(hours, minutes, last);
    RenderOptional(p.hours, 'H', minutes + last);
    RenderOptional(p.minutes, 'M', last);
    LastForm(SecondsText(nanos), last);
    Assoc(Written(p.hours, 'H'), Written(p.minutes, 'M'), Render(last));
  }

  lemma Regrouped(a: seq<Item>, b: seq<Item>, c: seq<Item>)
    ensures a + b + c == a + (b + c)
  {
  }

  lemma LastForm(text: string, last: seq<Item>)
    requires last == [] || last == [Part(text, 'S')]
    ensures Render(last) == if last == [] then "" else text + "S"
  {
    if last != [] { assert last[1..] == []; }
  }

  lemma ZeroText()
    ensures Render([Mark, Part("0", 'S')]) == "T0S"
  {
    var items := [Mark, Part("0", 'S')];
    assert items[1..] == [Part("0", 'S')] && [Part("0", 'S')][1..] == [];
    assert Render([Part("0", 'S')]) == "0S";
  }

  lemma TailForm(d: Duration, digits: string)
    requires digits == TrimZeros(Padded(Magnitude(Mod(d.nanos, SECOND)), 9))
    ensures var p := PartsOf(d);
            Render(TailItems(d)) ==
            if p == Parts(0, 0, 0, 0, 0, 0, 0) then "T0S"
            else if p.hours == 0 && p.minutes == 0 && p.seconds == 0 && p.nanos == 0 then ""
            else "T" + TimePart(p, digits)
  {
    var p := PartsOf(d);
    TimeForm(d.nanos, digits);
    ZeroParts(d);
    hide Quotient, Remainder, Mod, TrimZeros, Padded, TimeItems, TimePart;
    assert TimePart(p, digits) == TimePart(PartsOf(Duration(0, 0, d.nanos)), digits) by { SameTime(d, digits); }
    if d == ZERO {
      ZeroText();
    } else if d.nanos != 0 {
      assert ([Mark] + TimeItems(d.nanos))[1..] == TimeItems(d.nanos);
    }
  }

  lemma SameTime(d: Duration, digits: string)
    ensures TimePart(PartsOf(d), digits) == TimePart(PartsOf(Duration(0, 0, d.nanos)), digits)
  {
  }

  lemma ZeroParts(d: Duration)
    ensures var p := PartsOf(d);
            && (d.nanos == 0 <==> p.hours == 0 && p.minutes == 0 && p.seconds == 0 && p.nanos == 0)
            && (d == ZERO <==> p == Parts(0, 0, 0, 0, 0, 0, 0))
  {
    SplitIs(d);
    hide Quotient, Remainder, Mod;
  }

  lemma RenderedForm(negative: bool, d: Duration, digits: string)
    requires digits == TrimZeros(Padded(Magnitude(Mod(d.nanos, SECOND)), 9))
    ensures (if negative then "-P" else "P") + Render(Items(d)) == Spelled(negative, PartsOf(d), digits)
  {
    var p := PartsOf(d);
    TailForm(d, digits);
    hide Quotient, Remainder, Mod, TrimZeros, Padded, TailItems, TimePart, Written, OptionalPart, Render;
    var tail := TailItems(d);
    RenderOptional(p.days, 'D', tail);
    RenderOptional(p.months, 'M', OptionalPart(p.days, 'D') + tail);
    RenderOptional(p.years, 'Y', OptionalPart(p.months, 'M') + (OptionalPart(p.days, 'D') + tail));
  }

  lemma FractionForm(nanos: nat)
    requires 0 < nanos < 1_000_000_000
    ensures IsFraction(TrimZeros(Padded(nanos, 9)), nanos)
  {
    assert Pow10(9) == 1_000_000_000;
    hide Pow10, Padded, Value;
    FractionReads(nanos, 9);
    NoTrailingZero(Padded(nanos, 9));
  }

  lemma NoTrailingZero(s: string)
    ensures var t := TrimZeros(s); t == [] || t[|t| - 1] != '0'
  {
  }

  /** A component under a leading minus: negated, save for the least int64, which has no negation. */
  function Shown(negative: bool, n: int64): int64 {
    if negative && n != MIN then 0 - n else n
  }

  /** The text is the one that the components of d, each as large as it can be, spell, its fraction without
      trailing zeros. */
  predicate IsSpelled(text: string, d: Duration, p: Parts, digits: string) {
    var negative := d.months <= 0 && d.days <= 0 && d.nanos <= 0 && d != ZERO;
    && Splits(Duration(Shown(negative, d.months), Shown(negative, d.days), Shown(negative, d.nanos)), p)
    && (p.nanos != 0 ==> IsFraction(digits, Magnitude(p.nanos)))
    && text == Spelled(negative, p, digits)
  }

  ghost predicate IsForm(text: string, d: Duration) {
    exists p, digits :: IsSpelled(text, d, p, digits)
  }

  lemma PrintedIsForm(d: Duration)
    ensures IsForm(TextOf(d), d)
  {
    hide TextOf, IsSpelled;
    var p, digits := PrintedForm(d);
  }

  /** The printed text is the one form of the duration. */
  lemma {:induction false} PrintedForm(d: Duration) returns (p: Parts, digits: string)
    ensures IsSpelled(TextOf(d), d, p, digits)
  {
    hide Splits, IsFraction, TextOf, Spelled, Shown;
    p, digits := PrintedParts(d);
  }

  lemma {:induction false} PrintedParts(d: Duration) returns (p: Parts, digits: string)
    ensures var negative := d.months <= 0 && d.days <= 0 && d.nanos <= 0 && d != ZERO;
            && Splits(Duration(Shown(negative, d.months), Shown(negative, d.days), Shown(negative, d.nanos)), p)
            && (p.nanos != 0 ==> IsFraction(digits, Magnitude(p.nanos)))
            && TextOf(d) == Spelled(negative, p, digits)
  {
    hide *;
    var e := Printed(d);
    ShownIs(d);
    p, digits := FormOf(e);
    RenderedForm(IsNegative(d), e, digits);
    TextIs(d);
  }

  lemma TextIs(d: Duration)
    ensures TextOf(d) == (if IsNegative(d) then "-P" else "P") + Render(Items(Printed(d)))
  {
    hide Items, Render, Printed, IsNegative;
  }

  lemma ShownIs(d: Duration)
    ensures IsNegative(d) <==> d.months <= 0 && d.days <= 0 && d.nanos <= 0 && d != ZERO
    ensures Printed(d) == Duration(Shown(IsNegative(d), d.months), Shown(IsNegative(d), d.days),
                                   Shown(IsNegative(d), d.nanos))
  {
    NegBack(d.months);
    NegBack(d.days);
    NegBack(d.nanos);
  }

  lemma FormOf(e: Duration) returns (p: Parts, digits: string)
    ensures p == PartsOf(e) && digits == TrimZeros(Padded(Magnitude(Mod(e.nanos, SECOND)), 9))
    ensures Splits(e, p) && (p.nanos != 0 ==> IsFraction(digits, Magnitude(p.nanos)))
  {
    p, digits := PartsOf(e), TrimZeros(Padded(Magnitude(Mod(e.nanos, SECOND)), 9));
    SplitIs(e);
    hide Quotient, Remainder, Mod, TrimZeros, Padded, IsFraction;
    if p.nanos != 0 { FractionForm(Magnitude(p.nanos)); }
  }
}
