/** The tagged JSON values of the Go binding: RDF terms (rdf_term.go), the tags parameters are written
    as (floats.go, decimal.go, temporal.go) and decodeTags, which reads them back (decimal.go). */
module Codec {
  import opened Int64
  import opened Options
  import opened Text
  import Numbers
  import Durations
  import DurationPrinter
  import Times
  import Dates

  type byte = n: int | 0 <= n < 256

  // ---- RDF terms

  const IRI := "uri"
  const LITERAL := "literal"
  const BLANK := "bnode"
  const XSD_STRING := "http://www.w3.org/2001/XMLSchema#string"
  const RDF_LANG_STRING := "http://www.w3.org/1999/02/22-rdf-syntax-ns#langString"

  datatype Term = Term(kind: string, value: string, language: string, typeIri: string)

  // ---- values

  datatype Float = NaN | PosInf | NegInf | Finite(r: real)

  /** What Go's `any` holds here: JSON as unmarshalled, and the values tags stand for. */
  datatype Any =
    | Nil
    | Bool(b: bool)
    | Str(s: string)
    | Num(token: string)          // json.Number
    | Flt(f: Float)               // float64
    | Bytes(bytes: seq<byte>)
    | Dec(text: string)           // Decimal
    | TermV(term: Term)
    | TimeV(time: Times.Time)
    | DurationV(d: Durations.Duration)
    | Stamp(micros: int64)        // a time.Time in UTC
    | DateV(date: Dates.Date)
    | Zoned(nanos: int, offset: int)
    | ListV(items: seq<Any>)
    | MapV(m: map<string, Any>)

  /** What the codec takes from Go's library. */
  datatype Library = Library(
    lower: string -> string,
    encode64: seq<byte> -> string,
    decode64: string -> Option<seq<byte>>,
    formatFloat: real -> string,
    calendar: Dates.Calendar,
    zonedText: (int, int) -> string,
    readZoned: string -> Option<(int, int)>,
    fourDigits: (int, int) -> bool)

  /** strings.ToLower leaves lower case alone and empties nothing; base64 decoding undoes encoding; an RFC 3339 text
      written of whole microseconds and minutes reads back exactly for a year and an offset it has digits for. */
  ghost predicate Lawful(lib: Library) {
    && (forall s :: lib.lower(lib.lower(s)) == lib.lower(s))
    && (forall s :: lib.lower(s) == [] <==> s == [])
    && (forall b :: lib.decode64(lib.encode64(b)) == Some(b))
    && (forall n, o :: n % 1000 == 0 && o % 60 == 0 ==>
          (lib.readZoned(lib.zonedText(n, o)) == Some((n, o)) <==> lib.fourDigits(n, o)))
  }

  /** RdfTerm.Normalized. */
  function Normalized(lib: Library, t: Term): Term {
    if t.kind != LITERAL then Term(t.kind, t.value, [], [])
    else
      var language := lib.lower(t.language);
      Term(t.kind, t.value, language, if language != [] || t.typeIri == XSD_STRING then [] else t.typeIri)
  }

  /** RdfTerm.Equal. */
  predicate TermEqual(lib: Library, t: Term, u: Term) {
    Normalized(lib, t) == Normalized(lib, u)
  }

  /** RdfTerm.LiteralDatatype. */
  function LiteralDatatype(t: Term): string {
    if t.kind != LITERAL then []
    else if t.language != [] then RDF_LANG_STRING
    else if t.typeIri == [] then XSD_STRING
    else t.typeIri
  }

  /** Equal is equality of what RDF reads in a term: kind, value, and for a literal its language
      without case and its datatype. Normalizing changes none of them and nothing twice. */
  lemma {:induction false} TermEqualIsRdf(lib: Library, t: Term, u: Term)
    requires Lawful(lib)
    ensures TermEqual(lib, t, u) <==>
            && t.kind == u.kind && t.value == u.value
            && (t.kind == LITERAL ==>
                  lib.lower(t.language) == lib.lower(u.language) && LiteralDatatype(t) == LiteralDatatype(u))
    ensures Normalized(lib, Normalized(lib, t)) == Normalized(lib, t)
    ensures LiteralDatatype(Normalized(lib, t)) == LiteralDatatype(t)
  {
    assert lib.lower(t.language) == [] <==> t.language == [];
    assert lib.lower(u.language) == [] <==> u.language == [];
  }

  // ---- writing

  function Tag(key: string, content: Any): Any {
    MapV(map[key := content])
  }

  /** RdfTerm.MarshalJSON. */
  function TermFields(lib: Library, t: Term): map<string, Any> {
    var n := Normalized(lib, t);
    var fields := map["type" := Str(n.kind), "value" := Str(n.value)];
    if n.language != [] then fields["xml:lang" := Str(n.language)]
    else if n.typeIri != [] then fields["datatype" := Str(n.typeIri)]
    else fields
  }

  /** floatNumber: a finite float keeps a fraction or an exponent, so that it reads back as a float. */
  function FloatNumber(lib: Library, f: Float): Any {
    match f
    case NaN => Tag("$float", Str("NaN"))
    case PosInf => Tag("$float", Str("Infinity"))
    case NegInf => Tag("$float", Str("-Infinity"))
    case Finite(r) => Num(FloatToken(lib, r))
  }

  function FloatToken(lib: Library, r: real): string {
    var text := lib.formatFloat(r);
    if exists i :: 0 <= i < |text| && text[i] in ".eE" then text else text + ".0"
  }

  /** Decimal.String. */
  function DecimalText(text: string): string {
    if text == [] then "0" else text
  }

  /** zonedText: the offset cut to whole minutes toward zero, the instant down to the microsecond. */
  function ZonedText(lib: Library, nanos: int, offset: int): string {
    lib.zonedText(nanos - nanos % 1000, offset - Remainder(offset, 60))
  }

  /** A value as it is sent: tags for what JSON has no type for. */
  function Encode(lib: Library, v: Any): Any {
    match v
    case Flt(f) => FloatNumber(lib, f)
    case Bytes(b) => Tag("$bytes", Str(lib.encode64(b)))
    case Dec(text) => Tag("$decimal", Str(DecimalText(text)))
    case TermV(t) => Tag("$term", MapV(TermFields(lib, t)))
    case TimeV(t) => Tag("$time", Str(Times.TimeText(t)))
    case DurationV(d) => Tag("$duration", Str(DurationPrinter.TextOf(d)))
    case Stamp(n) => Tag("$timestamp_us", Num(IntText(n)))
    case DateV(d) => Tag("$date", Str(Dates.DateText(d)))
    case Zoned(nanos, offset) => Tag("$zoned_datetime", Str(ZonedText(lib, nanos, offset)))
    case ListV(items) => ListV(seq(|items|, i requires 0 <= i < |items| => Encode(lib, items[i])))
    case MapV(m) => MapV(map k | k in m :: Encode(lib, m[k]))
    case _ => v
  }

  // ---- reading

  /** ParseDecimal's pattern: [+-]?(\d+(\.\d*)?|\.\d+) */
  predicate IsDecimal(text: string) {
    Numbers.DecimalMantissa(Numbers.DropFirst(text, Numbers.SIGNS))
  }

  predicate HasText(m: map<string, Any>, key: string) {
    key in m && m[key].Str?
  }

  /** rdfTermOf, on the content of the $term tag. */
  function TermOf(lib: Library, v: map<string, Any>): Option<Term> {
    if !HasText(v, "type") || !HasText(v, "value") then None
    else
      var kind, value := v["type"].s, v["value"].s;
      if kind == IRI || kind == BLANK then (if |v| == 2 then Some(Term(kind, value, [], [])) else None)
      else if kind == LITERAL then
        var language := if HasText(v, "xml:lang") then v["xml:lang"].s else [];
        var typeIri := if HasText(v, "datatype") then v["datatype"].s else [];
        var extra := 2 + (if HasText(v, "xml:lang") then 1 else 0) + (if HasText(v, "datatype") then 1 else 0);
        if |v| != extra || (language != [] && typeIri != []) then None
        else Some(Normalized(lib, Term(LITERAL, value, language, typeIri)))
      else None
  }

  /** timestampTime: a number token of an int64, or a whole float64 up to 2^53. */
  function StampOf(v: Any): Option<int64> {
    match v
    case Num(token) => ParseInt(token)
    case Flt(Finite(r)) =>
      if r == r.Floor as real && -9007199254740992.0 <= r <= 9007199254740992.0 then Some(WholeFloat(r)) else None
    case _ => None
  }

  function WholeFloat(r: real): int64
    requires r == r.Floor as real && -9007199254740992.0 <= r <= 9007199254740992.0
  {
    r.Floor
  }

  /** temporalOf, for a map of one entry. */
  function TemporalOf(lib: Library, key: string, value: Any): Option<Any> {
    if key == "$timestamp_us" then
      var n :- StampOf(value);
      Some(Stamp(n))
    else if !value.Str? then None
    else if key == "$zoned_datetime" then
      var z :- lib.readZoned(value.s);
      Some(Zoned(z.0, z.1))
    else if key == "$date" then
      var d :- Dates.ReadDate(lib.calendar, value.s);
      Some(DateV(d))
    else if key == "$time" then
      var t :- Times.ReadTime(value.s);
      Some(TimeV(t))
    else if key == "$duration" then
      var d :- Durations.Parse(value.s);
      Some(DurationV(d))
    else None
  }

  /** What one entry, alone in its map, stands for as a tag. */
  function EntryOf(lib: Library, key: string, value: Any): Option<Any> {
    if key == "$decimal" then
      (if value.Str? && IsDecimal(value.s) then Some(Dec(value.s)) else None)
    else if key == "$bytes" then
      (if value.Str? && lib.decode64(value.s).Some? && lib.encode64(lib.decode64(value.s).value) == value.s
       then Some(Bytes(lib.decode64(value.s).value)) else None)
    else if key == "$float" then
      (if value == Str("NaN") then Some(Flt(NaN))
       else if value == Str("Infinity") then Some(Flt(PosInf))
       else if value == Str("-Infinity") then Some(Flt(NegInf))
       else None)
    else if key == "$term" then
      (if !value.MapV? then None
       else
         var t :- TermOf(lib, value.m);
         Some(TermV(t)))
    else TemporalOf(lib, key, value)
  }

  /** The key of a map of one entry. */
  function OnlyKey(m: map<string, Any>): (key: string)
    requires |m| == 1
    ensures m.Keys == {key} && key in m
  {
    Singleton(m.Keys);
    var key :| key in m;
    key
  }

  lemma Singleton(s: set<string>)
    requires |s| == 1
    ensures exists x :: x in s && s == {x}
    ensures forall x, y :: x in s && y in s ==> x == y
  {
    var x :| x in s;
    assert s - {x} == {} by { assert |s - {x}| == 0; }
    assert s == {x};
  }

  /** The value a map stands for as a tag: the tag as its only key, its content of the tag's type. */
  function TagOf(lib: Library, m: map<string, Any>): Option<Any> {
    if |m| != 1 then None else EntryOf(lib, OnlyKey(m), m[OnlyKey(m)])
  }

  /** decodeTags. */
  function Decode(lib: Library, v: Any): Any {
    match v
    case MapV(m) =>
      (match TagOf(lib, m)
       case Some(value) => value
       case None => MapV(map k | k in m :: Decode(lib, m[k])))
    case ListV(items) => ListV(seq(|items|, i requires 0 <= i < |items| => Decode(lib, items[i])))
    case _ => v
  }

  /** decodeTags as it runs: entries and items overwritten one by one. */
  method DecodeTags(lib: Library, value: Any) returns (r: Any)
    ensures r == Decode(lib, value)
    decreases value, 1
  {
    match value
    case MapV(m) =>
      var tag := TagOf(lib, m);
      if tag.Some? { return tag.value; }
      var v := DecodeEntries(lib, m);
      r := MapV(v);
    case ListV(items) =>
      var v := items;
      var i := 0;
      while i < |items|
        invariant 0 <= i <= |items| == |v|
        invariant forall j :: 0 <= j < i ==> v[j] == Decode(lib, items[j])
        invariant forall j :: i <= j < |items| ==> v[j] == items[j]
      {
        var item := DecodeTags(lib, v[i]);
        v := v[i := item];
        i := i + 1;
      }
      r := ListV(v);
      assert v == Decode(lib, value).items;
    case _ => r := value;
  }

  /** decodeFields: each value decoded, never the map itself, in whatever order the keys come. */
  method DecodeEntries(lib: Library, m: map<string, Any>) returns (v: map<string, Any>)
    ensures v == map k | k in m :: Decode(lib, m[k])
    decreases MapV(m), 0
  {
    v := m;
    var todo := m.Keys;
    while todo != {}
      invariant todo <= m.Keys && v.Keys == m.Keys
      invariant forall k :: k in todo ==> v[k] == m[k]
      invariant forall k :: k in m && k !in todo ==> v[k] == Decode(lib, m[k])
      decreases |todo|
    {
      var key :| key in todo;
      var item := DecodeTags(lib, m[key]);
      v := v[key := item];
      todo := todo - {key};
    }
  }
}
