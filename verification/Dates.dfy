/** GQL DATE, as crates/bindings/go/temporal.go reads and writes it. */
module Dates {
  import opened Int64
  import opened Options
  import opened Text

  datatype Date = Date(year: int64, month: int64, day: int64)

  /** Which dates Go's time package gives back unchanged. */
  type Calendar = Date -> bool

  /** Date.valid. */
  predicate Valid(calendar: Calendar, d: Date) {
    1 <= d.month <= 12 && d.day >= 1 && calendar(d)
  }

  /** fmt's %0kd, whose width counts the sign. */
  function PaddedInt(n: int, width: nat): string
    requires width > 0
  {
    if n < 0 then "-" + Padded(-n, width - 1) else Padded(n, width)
  }

  /** Date.String; negating the least year gives it back. */
  function DateText(d: Date): string {
    (if d.year < 0 then "-" + PaddedInt(Neg(d.year), 4) else PaddedInt(d.year, 4)) +
    (['-'] + (PaddedInt(d.month, 2) + (['-'] + PaddedInt(d.day, 2))))
  }

  /** The numbers of the parts, when each is one. */
  function PartValues(parts: seq<string>): (r: Option<seq<int64>>)
    ensures r.Some? ==> |r.value| == |parts|
  {
    if parts == [] then Some([])
    else
      var front :- PartValues(parts[..|parts| - 1]);
      var n :- Digits(parts[|parts| - 1]);
      Some(front + [n])
  }

  /** strings.SplitN(s, "-", 3). */
  function Parts(s: string): seq<string> {
    var first := Cut(s, '-');
    if !first.found then [s]
    else
      var second := Cut(first.after, '-');
      if !second.found then [first.before, first.after] else [first.before, second.before, second.after]
  }

  /** What ParseDate gives. */
  function ReadDate(calendar: Calendar, text: string): (r: Option<Date>) {
    var negative := text != [] && text[0] == '-';
    var parts := Parts(if negative then text[1..] else text);
    if |parts| != 3 then None
    else
      var numbers :- PartValues(parts);
      var d := Date(if negative then Neg(numbers[0]) else numbers[0], numbers[1], numbers[2]);
      if Valid(calendar, d) then Some(d) else None
  }

  /** ParseDate: the numbers filled in by a loop. */
  method ParseDate(calendar: Calendar, text: string) returns (r: Option<Date>)
    ensures r == ReadDate(calendar, text)
  {
    var negative := text != [] && text[0] == '-';
    var parts := Parts(if negative then text[1..] else text);
    if |parts| != 3 { return None; }
    var numbers: seq<int64> := [0, 0, 0];
    var i := 0;
    assert parts[..3] == parts;
    while i < 3
      invariant 0 <= i <= 3 == |numbers|
      invariant PartValues(parts[..i]) == Some(numbers[..i])
    {
      var n := Digits(parts[i]);
      assert parts[..i + 1][..i] == parts[..i];
      if n.None? {
        PartMissing(parts, i);
        return None;
      }
      assert numbers[i := n.value][..i + 1] == numbers[..i] + [n.value];
      numbers := numbers[i := n.value];
      i := i + 1;
    }
    assert numbers[..3] == numbers;
    if negative { numbers := numbers[0 := Neg(numbers[0])]; }
    var d := Date(numbers[0], numbers[1], numbers[2]);
    r := if Valid(calendar, d) then Some(d) else None;
  }

  lemma {:induction false} PartMissing(parts: seq<string>, i: nat)
    requires i < |parts| && Digits(parts[i]).None?
    ensures PartValues(parts).None?
  {
    hide Digits;
    if i < |parts| - 1 { PartMissing(parts[..|parts| - 1], i); }
  }

  // ---- what a date text means

  /** The parts of a date text. */
  datatype Spelling = Spelling(negative: bool, year: string, month: string, day: string)

  function Chars(x: Spelling): string {
    (if x.negative then "-" else "") + (x.year + (['-'] + (x.month + (['-'] + x.day))))
  }

  /** The text is digits for year, month and day, perhaps after a minus, and names a day of the calendar. */
  predicate SpellsDate(calendar: Calendar, text: string, x: Spelling, d: Date) {
    && text == Chars(x) && x.year != [] && x.month != [] && x.day != []
    && AllDigits(x.year) && AllDigits(x.month) && AllDigits(x.day)
    && Value(x.year) == (if x.negative then 0 - d.year as int else d.year) <= MAX
    && Value(x.month) == d.month <= 12 && Value(x.day) == d.day
    && d.month >= 1 && d.day >= 1 && calendar(d)
  }

  lemma NoDash(s: string)
    requires AllDigits(s)
    ensures forall i :: 0 <= i < |s| ==> s[i] != '-'
  {
  }

  lemma PartsAre(y: string, m: string, d: string)
    requires AllDigits(y) && AllDigits(m)
    ensures Parts(y + (['-'] + (m + (['-'] + d)))) == [y, m, d]
  {
    NoDash(y);
    NoDash(m);
    assert y + (['-'] + (m + (['-'] + d))) == y + ['-'] + (m + ['-'] + d);
    CutHere(y, '-', m + ['-'] + d);
    CutHere(m, '-', d);
  }

  lemma ThreeParts(a: string, b: string, c: string)
    ensures PartValues([a, b, c]) ==
            if Digits(a).Some? && Digits(b).Some? && Digits(c).Some?
            then Some([Digits(a).value, Digits(b).value, Digits(c).value]) else None
  {
    hide Digits;
    assert [a, b, c][..2] == [a, b] && [a, b][..1] == [a] && [a][..0] == [];
    assert PartValues([]) == Some([]);
    assert PartValues([a]) == if Digits(a).Some? then Some([] + [Digits(a).value]) else None;
    assert PartValues([a, b]) == if Digits(a).Some? && Digits(b).Some? then
                                   Some([] + [Digits(a).value] + [Digits(b).value]) else None;
    if Digits(a).Some? && Digits(b).Some? && Digits(c).Some? {
      assert [] + [Digits(a).value] + [Digits(b).value] + [Digits(c).value] ==
             [Digits(a).value, Digits(b).value, Digits(c).value];
    }
  }

  lemma SignRead(x: Spelling)
    requires x.year != [] && AllDigits(x.year)
    ensures var text := Chars(x);
            && (text != [] && text[0] == '-' <==> x.negative)
            && (if x.negative then text[1..] else text) == x.year + (['-'] + (x.month + (['-'] + x.day)))
  {
    var body := x.year + (['-'] + (x.month + (['-'] + x.day)));
    assert body[0] == x.year[0];
    if !x.negative { assert Chars(x) == body; } else { assert Chars(x)[1..] == body; }
  }

  lemma DigitsOf(s: string)
    requires s != [] && AllDigits(s) && Value(s) <= MAX
    ensures Digits(s) == Some(Value(s))
  {
  }

  lemma Assembled(calendar: Calendar, text: string, p: seq<string>, y: int64, m: int64, d: int64)
    requires var negative := text != [] && text[0] == '-'; Parts(if negative then text[1..] else text) == p
    requires |p| == 3 && PartValues(p) == Some([y, m, d])
    ensures var date := Date(if text != [] && text[0] == '-' then Neg(y) else y, m, d);
            ReadDate(calendar, text) == if Valid(calendar, date) then Some(date) else None
  {
    hide Parts, PartValues, Valid;
  }

  lemma {:induction false} DateComplete(calendar: Calendar, text: string, x: Spelling, d: Date)
    requires SpellsDate(calendar, text, x, d)
    ensures ReadDate(calendar, text) == Some(d)
  {
    hide ReadDate, Parts, PartValues, Chars, Value;
    SignRead(x);
    PartsAre(x.year, x.month, x.day);
    DigitsOf(x.year);
    DigitsOf(x.month);
    DigitsOf(x.day);
    hide Digits, AllDigits;
    ThreeParts(x.year, x.month, x.day);
    Assembled(calendar, text, [x.year, x.month, x.day], Value(x.year), Value(x.month), Value(x.day));
  }

  lemma CutJoins(s: string)
    ensures var cut := Cut(s, '-'); cut.found ==> s == cut.before + (['-'] + cut.after)
  {
  }

  lemma PartsJoin(s: string)
    requires |Parts(s)| == 3
    ensures var p := Parts(s); s == p[0] + (['-'] + (p[1] + (['-'] + p[2])))
  {
    hide Cut;
    CutJoins(s);
    CutJoins(Cut(s, '-').after);
  }

  lemma {:induction false} DateSound(calendar: Calendar, text: string) returns (x: Spelling)
    requires ReadDate(calendar, text).Some?
    ensures SpellsDate(calendar, text, x, ReadDate(calendar, text).value)
  {
    hide Parts, PartValues, Value, Digits;
    var negative := text != [] && text[0] == '-';
    var body := if negative then text[1..] else text;
    var p := Parts(body);
    assert p == [p[0], p[1], p[2]];
    ThreeParts(p[0], p[1], p[2]);
    PartsJoin(body);
    x := Spelling(negative, p[0], p[1], p[2]);
    if negative { assert text == "-" + body; } else { assert text == "" + body; }
  }

  /** A text is read as d exactly when it spells d. */
  lemma {:induction false} DateExact(calendar: Calendar, text: string, d: Date)
    ensures ReadDate(calendar, text) == Some(d) <==> exists x :: SpellsDate(calendar, text, x, d)
  {
    hide ReadDate, SpellsDate;
    if ReadDate(calendar, text) == Some(d) {
      var x := DateSound(calendar, text);
    }
    if x :| SpellsDate(calendar, text, x, d) {
      DateComplete(calendar, text, x, d);
    }
  }

  // ---- what is written

  lemma {:induction false} PaddedDigits(n: nat, width: nat)
    requires width > 0
    ensures AllDigits(Padded(n, width)) && Value(Padded(n, width)) == n && |Padded(n, width)| >= width
    ensures |Padded(n, width)| > width ==> Padded(n, width)[0] != '0'
  {
    NatTextReads(n);
    if |NatText(n)| < width { ValueZeros(width - |NatText(n)|, NatText(n)); }
  }

  /** Four digits or more for the year, two or more for the rest, none to spare, a minus before year 0. */
  predicate Plain(x: Spelling, d: Date) {
    && (x.negative <==> d.year < 0)
    && |x.year| >= 4 && |x.month| >= 2 && |x.day| >= 2
    && (|x.year| > 4 ==> x.year[0] != '0') && (|x.month| > 2 ==> x.month[0] != '0') && (|x.day| > 2 ==> x.day[0] != '0')
  }

  /** A date of the calendar is written as its plain spelling, but for the least year. */
  lemma {:induction false} DateWritten(calendar: Calendar, d: Date) returns (x: Spelling)
    requires Valid(calendar, d) && d.year != MIN
    ensures SpellsDate(calendar, DateText(d), x, d) && Plain(x, d)
  {
    x := Spelling(d.year < 0, Padded(Magnitude(d.year), 4), Padded(d.month, 2), Padded(d.day, 2));
    PaddedDigits(Magnitude(d.year), 4);
    PaddedDigits(d.month, 2);
    PaddedDigits(d.day, 2);
    hide Padded, Value;
    assert DateText(d) == Chars(x) by {
      var rest := ['-'] + (x.month + (['-'] + x.day));
      if d.year < 0 { assert "-" + x.year + rest == "-" + (x.year + rest); }
      else { assert x.year + rest == "" + (x.year + rest); }
    }
  }

  lemma LeastYear(calendar: Calendar, d: Date)
    requires d.year == MIN
    ensures ReadDate(calendar, DateText(d)) == None
  {
    hide Padded;
    var text := DateText(d);
    assert PaddedInt(Neg(d.year), 4)[0] == '-';
    assert text[0] == '-' && text[1..][0] == '-';
    CutHere([], '-', text[2..]);
    assert [] + ['-'] + text[2..] == text[1..];
    assert Parts(text[1..])[0] == [];
    hide Parts, DateText, Cut;
    if |Parts(text[1..])| == 3 { PartMissing(Parts(text[1..]), 0); }
  }

  /** A date survives being written and read exactly when it is one of the calendar's and its year can be negated. */
  lemma {:induction false} DateRoundTrip(calendar: Calendar, d: Date)
    ensures ReadDate(calendar, DateText(d)) == Some(d) <==> Valid(calendar, d) && d.year != MIN
  {
    hide DateText;
    if Valid(calendar, d) && d.year != MIN {
      var x := DateWritten(calendar, d);
      DateComplete(calendar, DateText(d), x, d);
    }
    if d.year == MIN { LeastYear(calendar, d); }
  }
}
