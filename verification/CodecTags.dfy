/** What decodeTags (decimal.go) reads in a value, said tag by tag, and that it reads exactly that. */
module CodecTags {
  import opened Int64
  import opened Options
  import opened Text
  import opened Numbers
  import Durations
  import DurationLaws
  import Dates
  import Times
  import opened TimesLaws
  import opened Codec

  // ---- what the tags stand for

  /** What RDF reads as the datatype of a literal. */
  function Datatype(language: string, typeIri: string): string {
    if language != [] then "http://www.w3.org/1999/02/22-rdf-syntax-ns#langString"
    else if typeIri == [] then "http://www.w3.org/2001/XMLSchema#string"
    else typeIri
  }

  /** The one form of a term: nothing but a literal has a language or a datatype, a language is in lower case
      and alone, and xsd:string is left out. It says what t says. */
  predicate NormalForm(lib: Library, t: Term, n: Term) {
    && n.kind == t.kind && n.value == t.value
    && if t.kind == "literal" then
         && n.language == lib.lower(t.language)
         && Datatype(n.language, n.typeIri) == Datatype(t.language, t.typeIri)
         && (n.language != [] ==> n.typeIri == []) && n.typeIri != "http://www.w3.org/2001/XMLSchema#string"
       else n.language == [] && n.typeIri == []
  }

  /** The text under a key, empty without one. */
  function TextUnder(fields: map<string, Any>, key: string): string {
    if key in fields && fields[key].Str? then fields[key].s else []
  }

  /** The fields are texts and spell the term: type and value, and for a literal a language or a datatype. */
  predicate SpellsTerm(lib: Library, fields: map<string, Any>, t: Term) {
    && {"type", "value"} <= fields.Keys <= {"type", "value", "xml:lang", "datatype"}
    && (forall k :: k in fields ==> fields[k].Str?)
    && var language, typeIri := TextUnder(fields, "xml:lang"), TextUnder(fields, "datatype");
    && (fields["type"].s == "literal" ==> language == [] || typeIri == [])
    && (fields["type"].s != "literal" ==>
          fields["type"].s in {"uri", "bnode"} && "xml:lang" !in fields && "datatype" !in fields)
    && NormalForm(lib, Term(fields["type"].s, fields["value"].s, language, typeIri), t)
  }

  /** [+-]?([0-9]+(\.[0-9]*)?|\.[0-9]+) */
  const DECIMAL: Regex := Then(Maybe(One({'+', '-'})),
                               Or(Then(Plus(DIGITS), Maybe(Then(One({'.'}), Many(DIGITS)))),
                                  Then(One({'.'}), Plus(DIGITS))))

  /** An optional sign and digits that name n. */
  predicate Numeral(token: string, n: int) {
    var sign := if token != [] && token[0] in {'+', '-'} then 1 else 0;
    Number(token[sign..]) && (if token[..sign] == "-" then n + Value(token[sign..]) == 0 else n == Value(token[sign..]))
  }

  /** The content, under the key, stands for v. */
  ghost predicate Stands(lib: Library, key: string, content: Any, v: Any) {
    if key == "$decimal" then content.Str? && v == Dec(content.s) && Matches(DECIMAL, content.s)
    else if key == "$bytes" then
      v.Bytes? && content == Str(lib.encode64(v.bytes)) && lib.decode64(content.s) == Some(v.bytes)
    else if key == "$float" then
      || (content == Str("NaN") && v == Flt(NaN))
      || (content == Str("Infinity") && v == Flt(PosInf))
      || (content == Str("-Infinity") && v == Flt(NegInf))
    else if key == "$term" then content.MapV? && v.TermV? && SpellsTerm(lib, content.m, v.term)
    else TemporalStands(lib, key, content, v)
  }

  ghost predicate TemporalStands(lib: Library, key: string, content: Any, v: Any) {
    if key == "$timestamp_us" then v.Stamp? && StampIn(content, v.micros)
    else content.Str? &&
         if key == "$zoned_datetime" then v.Zoned? && lib.readZoned(content.s) == Some((v.nanos, v.offset))
         else if key == "$date" then v.DateV? && exists x :: Dates.SpellsDate(lib.calendar, content.s, x, v.date)
         else if key == "$time" then v.TimeV? && exists x :: SpellsTime(content.s, x, v.time)
         else if key == "$duration" then
           v.DurationV? && exists negative, items :: DurationLaws.Spells(content.s, negative, items, v.d)
         else false
  }

  /** A number token that names n, or n as a float64 that holds every integer up to it. */
  predicate StampIn(content: Any, n: int64) {
    || (content.Num? && Numeral(content.token, n))
    || (content == Flt(Finite(n as real)) && -9007199254740992 <= n <= 9007199254740992)
  }

  /** The map has one entry, and that stands for v. */
  ghost predicate Tagged(lib: Library, m: map<string, Any>, v: Any) {
    exists key :: m.Keys == {key} && Stands(lib, key, m[key], v)
  }

  /** What a value means: a tag what it stands for, any other map and any list what their members mean. */
  ghost predicate Means(lib: Library, v: Any, r: Any) {
    match v
    case MapV(m) =>
      || Tagged(lib, m, r)
      || ((forall w :: !Tagged(lib, m, w)) &&
          r.MapV? && r.m.Keys == m.Keys && forall k :: k in m ==> Means(lib, m[k], r.m[k]))
    case ListV(items) =>
      r.ListV? && |r.items| == |items| && forall i :: 0 <= i < |items| ==> Means(lib, items[i], r.items[i])
    case _ => r == v
  }

  // ---- that they are read so

  lemma SignSplits(text: string)
    ensures text == SignOf(text, SIGNS) + DropFirst(text, SIGNS)
    ensures IsDecimal(text) <==> DecimalMantissa(DropFirst(text, SIGNS))
    ensures Matches(Maybe(One(SIGNS)), SignOf(text, SIGNS))
  {
    hide DecimalMantissa;
    SignMatches(SignOf(text, SIGNS), SIGNS);
  }

  lemma SignJoins(sign: string, rest: string)
    requires Matches(Maybe(One(SIGNS)), sign) && DigitsAndDot(rest)
    ensures DropFirst(sign + rest, SIGNS) == rest
  {
    SignMatches(sign, SIGNS);
    if sign == [] { assert sign + rest == rest; } else { assert (sign + rest)[1..] == rest; }
  }

  /** ParseDecimal accepts exactly the language of its expression. */
  lemma {:induction false} DecimalExact(text: string)
    ensures IsDecimal(text) <==> Matches(DECIMAL, text)
  {
    assert DECIMAL == Then(Maybe(One(SIGNS)), Or(LEADING, DOTTED));
    hide *;
    SignSplits(text);
    var sign, rest := SignOf(text, SIGNS), DropFirst(text, SIGNS);
    DecimalMantissaMatches(rest);
    if IsDecimal(text) {
      ThenMatches(Maybe(One(SIGNS)), Or(LEADING, DOTTED), sign, rest);
    }
    if Matches(DECIMAL, text) {
      var sign', rest' := ThenSplits(Maybe(One(SIGNS)), Or(LEADING, DOTTED), text);
      DecimalMantissaMatches(rest');
      MantissaChars(rest');
      SignJoins(sign', rest');
    }
  }

  lemma NumeralExact(token: string, n: int)
    ensures SignedValue(token) == Some(n) <==> Numeral(token, n)
  {
    hide Value;
    assert token[0..] == token && token[..0] == [];
    if token != [] { assert token[..1] == [token[0]]; }
  }

  lemma StampExact(content: Any, n: int64)
    ensures StampOf(content) == Some(n) <==> StampIn(content, n)
  {
    hide SignedValue, Numeral;
    if content.Num? { NumeralExact(content.token, n); }
  }

  lemma NormalFormExact(lib: Library, t: Term, n: Term)
    requires Lawful(lib)
    ensures Normalized(lib, t) == n <==> NormalForm(lib, t, n)
    ensures LiteralDatatype(t) == if t.kind == "literal" then Datatype(t.language, t.typeIri) else ""
  {
    assert lib.lower(t.language) == [] <==> t.language == [];
  }

  /** Keys of which as many are known as there are keys. */
  lemma AllKnown(keys: set<string>, known: set<string>)
    requires known <= keys
    ensures |keys| == |known| <==> keys == known
  {
    assert keys - known + known == keys;
    assert |keys - known| + |known| == |keys|;
  }

  /** What the two keys every term has and the two a literal may have come to. */
  lemma KeyCount(a: string, b: string, l: string, d: string, hasL: bool, hasD: bool, known: set<string>)
    requires a != b && a != l && a != d && b != l && b != d && l != d
    requires known == {a, b} + (if hasL then {l} else {}) + (if hasD then {d} else {})
    ensures |known| == 2 + (if hasL then 1 else 0) + (if hasD then 1 else 0)
  {
    var ls: set<string>, ds: set<string> := if hasL then {l} else {}, if hasD then {d} else {};
    assert |{a, b}| == 2 && {a, b} !! ls && ({a, b} + ls) !! ds;
    assert |known| == |{a, b} + ls| + |ds|;
  }

  /** The known keys of a map of fields that hold a text. */
  function TextKeys(fields: map<string, Any>): set<string> {
    {"type", "value"} + (if HasText(fields, "xml:lang") then {"xml:lang"} else {}) +
    (if HasText(fields, "datatype") then {"datatype"} else {})
  }

  lemma TextKeysCount(fields: map<string, Any>)
    requires HasText(fields, "type") && HasText(fields, "value")
    ensures |fields| ==
            2 + (if HasText(fields, "xml:lang") then 1 else 0) + (if HasText(fields, "datatype") then 1 else 0)
            <==> fields.Keys == TextKeys(fields)
  {
    KeyCount("type", "value", "xml:lang", "datatype", HasText(fields, "xml:lang"), HasText(fields, "datatype"),
             TextKeys(fields));
    TextKeysThere(fields);
    hide TextKeys, HasText;
    AllKnown(fields.Keys, TextKeys(fields));
  }

  lemma TextKeysThere(fields: map<string, Any>)
    requires HasText(fields, "type") && HasText(fields, "value")
    ensures TextKeys(fields) <= fields.Keys
  {
  }

  lemma TextKeysMean(fields: map<string, Any>)
    requires HasText(fields, "type") && HasText(fields, "value")
    ensures fields.Keys == TextKeys(fields) <==>
            && {"type", "value"} <= fields.Keys <= {"type", "value", "xml:lang", "datatype"}
            && (forall k :: k in fields ==> fields[k].Str?)
  {
  }

  lemma TwoKeys(fields: map<string, Any>)
    requires "type" in fields && "value" in fields
    ensures |fields| == 2 <==> fields.Keys == {"type", "value"}
  {
    KeyCount("type", "value", "xml:lang", "datatype", false, false, {"type", "value"});
    AllKnown(fields.Keys, {"type", "value"});
  }

  lemma OtherTermExact(lib: Library, fields: map<string, Any>, t: Term)
    requires HasText(fields, "type") && HasText(fields, "value") && fields["type"].s != "literal"
    ensures TermOf(lib, fields) == Some(t) <==> SpellsTerm(lib, fields, t)
  {
    TwoKeys(fields);
  }

  lemma LiteralExact(lib: Library, fields: map<string, Any>, t: Term)
    requires Lawful(lib) && HasText(fields, "type") && HasText(fields, "value") && fields["type"].s == "literal"
    ensures TermOf(lib, fields) == Some(t) <==> SpellsTerm(lib, fields, t)
  {
    TextKeysCount(fields);
    TextKeysMean(fields);
    var language, typeIri := TextUnder(fields, "xml:lang"), TextUnder(fields, "datatype");
    NormalFormExact(lib, Term("literal", fields["value"].s, language, typeIri), t);
    hide TextKeys, NormalForm, Normalized;
  }

  /** The fields of a term are read as t exactly when they spell it. */
  lemma {:induction false} TermExact(lib: Library, fields: map<string, Any>, t: Term)
    requires Lawful(lib)
    ensures TermOf(lib, fields) == Some(t) <==> SpellsTerm(lib, fields, t)
  {
    if HasText(fields, "type") && HasText(fields, "value") {
      hide TermOf, SpellsTerm;
      if fields["type"].s == "literal" {
        LiteralExact(lib, fields, t);
      } else {
        OtherTermExact(lib, fields, t);
      }
    }
  }

  lemma DateTag(lib: Library, content: Any, v: Any)
    ensures TemporalOf(lib, "$date", content) == Some(v) <==> TemporalStands(lib, "$date", content, v)
  {
    hide Dates.ReadDate, Dates.SpellsDate;
    if content.Str? && v.DateV? { Dates.DateExact(lib.calendar, content.s, v.date); }
  }

  lemma TimeTag(lib: Library, content: Any, v: Any)
    ensures TemporalOf(lib, "$time", content) == Some(v) <==> TemporalStands(lib, "$time", content, v)
  {
    hide Times.ReadTime, SpellsTime;
    if content.Str? && v.TimeV? { TimeExact(content.s, v.time); }
  }

  lemma DurationTag(lib: Library, content: Any, v: Any)
    ensures TemporalOf(lib, "$duration", content) == Some(v) <==> TemporalStands(lib, "$duration", content, v)
  {
    hide Durations.Parse, DurationLaws.Spells;
    if content.Str? && v.DurationV? { DurationLaws.ParseExact(content.s, v.d); }
  }

  lemma OtherTag(lib: Library, key: string, content: Any, v: Any)
    requires key != "$date" && key != "$time" && key != "$duration"
    ensures TemporalOf(lib, key, content) == Some(v) <==> TemporalStands(lib, key, content, v)
  {
    hide StampOf, StampIn;
    if key == "$timestamp_us" && v.Stamp? { StampExact(content, v.micros); }
  }

  lemma TemporalExact(lib: Library, key: string, content: Any, v: Any)
    ensures TemporalOf(lib, key, content) == Some(v) <==> TemporalStands(lib, key, content, v)
  {
    hide TemporalOf, TemporalStands;
    if key == "$date" { DateTag(lib, content, v); }
    else if key == "$time" { TimeTag(lib, content, v); }
    else if key == "$duration" { DurationTag(lib, content, v); }
    else { OtherTag(lib, key, content, v); }
  }

  lemma DecimalTag(lib: Library, content: Any, v: Any)
    ensures EntryOf(lib, "$decimal", content) == Some(v) <==> Stands(lib, "$decimal", content, v)
  {
    hide IsDecimal, Matches;
    if content.Str? { DecimalExact(content.s); }
  }

  lemma TermTag(lib: Library, content: Any, v: Any)
    requires Lawful(lib)
    ensures EntryOf(lib, "$term", content) == Some(v) <==> Stands(lib, "$term", content, v)
  {
    hide TermOf, SpellsTerm;
    if content.MapV? && v.TermV? { TermExact(lib, content.m, v.term); }
  }

  /** An entry stands for v as a tag exactly when the tags say so. */
  lemma {:induction false} EntryExact(lib: Library, key: string, content: Any, v: Any)
    requires Lawful(lib)
    ensures EntryOf(lib, key, content) == Some(v) <==> Stands(lib, key, content, v)
  {
    if key == "$decimal" {
      hide EntryOf, Stands;
      DecimalTag(lib, content, v);
    } else if key == "$term" {
      hide EntryOf, Stands;
      TermTag(lib, content, v);
    } else {
      TemporalExact(lib, key, content, v);
      hide TemporalOf, TemporalStands;
    }
  }

  lemma TagExact(lib: Library, m: map<string, Any>, v: Any)
    requires Lawful(lib)
    ensures TagOf(lib, m) == Some(v) <==> Tagged(lib, m, v)
  {
    hide EntryOf, Stands;
    if |m| == 1 {
      EntryExact(lib, OnlyKey(m), m[OnlyKey(m)], v);
    }
    forall key | m.Keys == {key} ensures |m| == 1 { assert |m| == |m.Keys| == 1; }
  }

  /** decodeTags gives what a value means, and nothing else: every value has exactly one meaning. */
  lemma {:induction false} DecodeExact(lib: Library, v: Any, r: Any)
    requires Lawful(lib)
    ensures Means(lib, v, r) <==> r == Decode(lib, v)
    decreases v
  {
    match v
    case MapV(m) =>
      if r.MapV? && r.m.Keys == m.Keys {
        forall k | k in m { DecodeExact(lib, m[k], r.m[k]); }
      }
      MapExact(lib, m, r);
    case ListV(items) =>
      if r.ListV? && |r.items| == |items| {
        forall i | 0 <= i < |items| { DecodeExact(lib, items[i], r.items[i]); }
      }
      ListMeans(lib, items, r);
    case _ =>
  }

  lemma MapExact(lib: Library, m: map<string, Any>, r: Any)
    requires Lawful(lib)
    requires r.MapV? && r.m.Keys == m.Keys ==>
               forall k :: k in m ==> (Means(lib, m[k], r.m[k]) <==> r.m[k] == Decode(lib, m[k]))
    ensures Means(lib, MapV(m), r) <==> r == Decode(lib, MapV(m))
  {
    hide Stands, TagOf, Tagged;
    if TagOf(lib, m).Some? {
      hide Means, Decode;
      TagExact(lib, m, TagOf(lib, m).value);
      TagExact(lib, m, r);
      MeansTag(lib, m, r);
    } else {
      forall w ensures !Tagged(lib, m, w) { TagExact(lib, m, w); }
      MapMeans(lib, m, r);
      hide Decode;
    }
  }

  lemma MeansTag(lib: Library, m: map<string, Any>, r: Any)
    requires TagOf(lib, m).Some? && Tagged(lib, m, TagOf(lib, m).value)
    ensures Means(lib, MapV(m), r) <==> Tagged(lib, m, r)
    ensures Decode(lib, MapV(m)) == TagOf(lib, m).value
  {
    hide TagOf, Tagged;
  }

  lemma ListMeans(lib: Library, items: seq<Any>, r: Any)
    ensures r == Decode(lib, ListV(items)) <==>
            r.ListV? && |r.items| == |items| && forall i :: 0 <= i < |items| ==> r.items[i] == Decode(lib, items[i])
  {
    if r.ListV? && |r.items| == |items| && forall i :: 0 <= i < |items| ==> r.items[i] == Decode(lib, items[i]) {
      assert r.items == Decode(lib, ListV(items)).items;
    }
  }

  lemma MapMeans(lib: Library, m: map<string, Any>, r: Any)
    requires TagOf(lib, m).None?
    ensures r == Decode(lib, MapV(m)) <==>
            r.MapV? && r.m.Keys == m.Keys && forall k :: k in m ==> r.m[k] == Decode(lib, m[k])
  {
    hide TagOf;
    var d := map k | k in m :: Decode(lib, m[k]);
    if r.MapV? && r.m.Keys == m.Keys && forall k :: k in m ==> r.m[k] == Decode(lib, m[k]) {
      assert r.m == d;
    }
  }
}
