/** That decoding undoes encoding, exactly when it can, and that decoding twice is decoding once. */
module CodecLaws {
  import opened Int64
  import opened Options
  import opened Text
  import Numbers
  import Durations
  import DurationPrinter
  import Times
  import opened TimesLaws
  import Dates
  import DurationForm
  import opened Codec
  import opened CodecTags

  // ---- decoding twice

  /** Decoding makes no text, number token or map out of anything else, and no whole float. */
  lemma DecodeKind(lib: Library, v: Any)
    ensures var d := Decode(lib, v);
            && (d.Str? || d.Num? ==> v == d)
            && (d.MapV? ==> v.MapV? && TagOf(lib, v.m).None?)
            && (d.Flt? && d.f.Finite? ==> v == d)
  {
    if v.MapV? && TagOf(lib, v.m).Some? {
      EntryKind(lib, OnlyKey(v.m), v.m[OnlyKey(v.m)]);
    }
  }

  lemma EntryKind(lib: Library, key: string, value: Any)
    requires EntryOf(lib, key, value).Some?
    ensures var d := EntryOf(lib, key, value).value;
            !d.Str? && !d.Num? && !d.MapV? && !d.ListV? && !(d.Flt? && d.f.Finite?)
  {
    hide IsDecimal, TermOf, StampOf;
  }

  /** A map of decoded entries is a tag only if the map itself was one. */
  lemma EntryStays(lib: Library, key: string, value: Any)
    requires EntryOf(lib, key, Decode(lib, value)).Some?
    ensures EntryOf(lib, key, value).Some?
  {
    hide IsDecimal, TermOf, StampOf;
    var d := Decode(lib, value);
    DecodeKind(lib, value);
    if key == "$term" {
      TermStays(lib, value.m, d.m);
    } else if key == "$timestamp_us" {
      StampStays(lib, value);
    }
  }

  lemma StampStays(lib: Library, value: Any)
    requires StampOf(Decode(lib, value)).Some?
    ensures value == Decode(lib, value)
  {
    DecodeKind(lib, value);
  }

  lemma TermStays(lib: Library, c: map<string, Any>, d: map<string, Any>)
    requires d == (map k | k in c :: Decode(lib, c[k])) && TermOf(lib, d).Some?
    ensures TermOf(lib, c) == TermOf(lib, d)
  {
    forall k | k in c ensures HasText(d, k) <==> HasText(c, k) && d[k] == c[k] {
      DecodeKind(lib, c[k]);
    }
    assert forall k :: HasText(d, k) == HasText(c, k);
    assert c.Keys == d.Keys;
    assert |c| == |c.Keys| == |d.Keys| == |d|;
  }

  lemma NotATag(lib: Library, m: map<string, Any>, d: map<string, Any>)
    requires TagOf(lib, m).None? && d == map k | k in m :: Decode(lib, m[k])
    ensures TagOf(lib, d).None?
  {
    hide EntryOf, Decode;
    assert m.Keys == d.Keys;
    assert |m| == |m.Keys| == |d.Keys| == |d|;
    if |d| == 1 && TagOf(lib, d).Some? {
      assert OnlyKey(d) == OnlyKey(m);
      EntryStays(lib, OnlyKey(m), m[OnlyKey(m)]);
    }
  }

  /** Decoding is idempotent on every tree, decoded values in it or not. */
  lemma {:induction false} DecodeTwice(lib: Library, v: Any)
    ensures Decode(lib, Decode(lib, v)) == Decode(lib, v)
  {
    hide EntryOf, TagOf;
    match v
    case MapV(m) =>
      if TagOf(lib, m).Some? {
        TagKind(lib, m);
      } else {
        forall k | k in m { DecodeTwice(lib, m[k]); }
        MapTwice(lib, m);
      }
    case ListV(items) =>
      forall i | 0 <= i < |items| { DecodeTwice(lib, items[i]); }
      assert Decode(lib, Decode(lib, v)).items == Decode(lib, v).items;
    case _ =>
  }

  lemma TagKind(lib: Library, m: map<string, Any>)
    requires TagOf(lib, m).Some?
    ensures var d := TagOf(lib, m).value; !d.MapV? && !d.ListV? && Decode(lib, d) == d
  {
    hide EntryOf;
    EntryKind(lib, OnlyKey(m), m[OnlyKey(m)]);
  }

  lemma MapTwice(lib: Library, m: map<string, Any>)
    requires TagOf(lib, m).None?
    requires forall k :: k in m ==> Decode(lib, Decode(lib, m[k])) == Decode(lib, m[k])
    ensures Decode(lib, Decode(lib, MapV(m))) == Decode(lib, MapV(m))
  {
    hide EntryOf, TagOf, Decode;
    var d := map k | k in m :: Decode(lib, m[k]);
    NotATag(lib, m, d);
    DecodeUntagged(lib, m);
    DecodeUntagged(lib, d);
    assert (map k | k in d :: Decode(lib, d[k])) == d;
  }

  lemma DecodeUntagged(lib: Library, m: map<string, Any>)
    requires TagOf(lib, m).None?
    ensures Decode(lib, MapV(m)) == MapV(map k | k in m :: Decode(lib, m[k]))
  {
    hide EntryOf, TagOf;
  }

  // ---- decoding what was encoded

  /** Values that can be made and sent: a Decimal comes from ParseDecimal or is the zero value, a date is one of
      the calendar's. */
  predicate Possible(lib: Library, v: Any) {
    match v
    case Dec(text) => text == [] || IsDecimal(text)
    case DateV(d) => Dates.Valid(lib.calendar, d)
    case ListV(items) => forall i :: 0 <= i < |items| ==> Possible(lib, items[i])
    case MapV(m) => forall k :: k in m ==> Possible(lib, m[k])
    case _ => true
  }

  /** A text of a number with a fraction or an exponent. */
  predicate Pointed(text: string) {
    '.' in text || 'e' in text || 'E' in text
  }

  /** The last whole microsecond no later. */
  predicate IsMicros(nanos: int, whole: int) {
    whole % 1000 == 0 && whole <= nanos < whole + 1000
  }

  /** The offset without its seconds. */
  predicate IsMinutes(offset: int, whole: int) {
    whole % 60 == 0 && if offset >= 0 then 0 <= whole <= offset < whole + 60 else whole - 60 < offset <= whole <= 0
  }

  /** r is v as it comes back: a finite float is a number token, the library's text, made one of a float; the zero
      Decimal is 0; a term is in normal form; a zoned time has lost its part of a microsecond and the seconds of its
      offset; anything else is itself. */
  predicate ComesBack(lib: Library, v: Any, r: Any) {
    match v
    case Flt(Finite(x)) =>
      var text := lib.formatFloat(x);
      r == Num(if Pointed(text) then text else text + ".0")
    case Dec(text) => r == Dec(if text == "" then "0" else text)
    case TermV(t) => r.TermV? && NormalForm(lib, t, r.term)
    case Zoned(nanos, offset) => r.Zoned? && IsMicros(nanos, r.nanos) && IsMinutes(offset, r.offset)
    case ListV(items) =>
      r.ListV? && |r.items| == |items| && forall i :: 0 <= i < |items| ==> ComesBack(lib, items[i], r.items[i])
    case MapV(m) => r.MapV? && r.m.Keys == m.Keys && forall k :: k in m ==> ComesBack(lib, m[k], r.m[k])
    case _ => r == v
  }

  /** A float under the tag of a timestamp: it is sent with a fraction, which no timestamp has. */
  predicate FloatStamp(m: map<string, Any>) {
    m.Keys == {"$timestamp_us"} && m["$timestamp_us"].Flt?
  }

  /** What the text forms can carry: no map that itself reads as a tag, terms of a known kind, durations whose
      components can be negated, dates whose year can, and zoned times of a year RFC 3339 has digits for. */
  ghost predicate Carried(lib: Library, v: Any) {
    match v
    case TermV(t) => t.kind in {"uri", "literal", "bnode"}
    case DurationV(d) =>
      !(d.months <= 0 && d.days <= 0 && d.nanos <= 0 && (d.months == MIN || d.days == MIN || d.nanos == MIN))
    case DateV(d) => d.year != MIN
    case Zoned(nanos, offset) => exists n, o :: IsMicros(nanos, n) && IsMinutes(offset, o) && lib.fourDigits(n, o)
    case ListV(items) => forall i :: 0 <= i < |items| ==> Carried(lib, items[i])
    case MapV(m) => (forall w :: Tagged(lib, m, w) ==> FloatStamp(m)) && forall k :: k in m ==> Carried(lib, m[k])
    case _ => true
  }

  lemma TagReads(lib: Library, key: string, content: Any)
    ensures Decode(lib, Tag(key, content)) ==
            if EntryOf(lib, key, content).Some? then EntryOf(lib, key, content).value
            else Tag(key, Decode(lib, content))
  {
    hide EntryOf;
    var m := map[key := content];
    assert OnlyKey(m) == key && |m| == 1;
    if EntryOf(lib, key, content).None? {
      assert (map k | k in m :: Decode(lib, m[k])) == map[key := Decode(lib, content)];
    }
  }

  lemma TermReads(lib: Library, t: Term)
    requires Lawful(lib)
    ensures TermOf(lib, TermFields(lib, t)) ==
            if t.kind == IRI || t.kind == LITERAL || t.kind == BLANK then Some(Normalized(lib, t)) else None
  {
    TermEqualIsRdf(lib, t, t);
    var n := Normalized(lib, t);
    var two := map["type" := Str(n.kind), "value" := Str(n.value)];
    assert |two| == 2 && "xml:lang" !in two && "datatype" !in two;
    assert |two["xml:lang" := Str(n.language)]| == 3 && |two["datatype" := Str(n.typeIri)]| == 3;
  }

  lemma ScalarReads(lib: Library, v: Any)
    requires Lawful(lib) && Possible(lib, v) && !v.ListV? && !v.MapV?
    ensures ComesBack(lib, v, Decode(lib, Encode(lib, v))) <==> Carried(lib, v)
  {
    hide EntryOf, Decode, TermFields, Times.TimeText, DurationPrinter.TextOf, IntText, FloatToken, Dates.DateText,
         NormalForm;
    match v
    case Flt(f) => FloatReads(lib, f);
    case Bytes(b) =>
      TagReads(lib, "$bytes", Str(lib.encode64(b)));
      TextEntries(lib, v);
    case Dec(text) =>
      TagReads(lib, "$decimal", Str(DecimalText(text)));
      TextEntries(lib, v);
    case TermV(t) =>
      TagReads(lib, "$term", MapV(TermFields(lib, t)));
      TermEntry(lib, t);
    case TimeV(t) =>
      TagReads(lib, "$time", Str(Times.TimeText(t)));
      TextEntries(lib, v);
    case DurationV(d) =>
      TagReads(lib, "$duration", Str(DurationPrinter.TextOf(d)));
      DurationEntry(lib, d);
    case Stamp(n) =>
      TagReads(lib, "$timestamp_us", Num(IntText(n)));
      StampEntry(lib, n);
    case DateV(d) =>
      TagReads(lib, "$date", Str(Dates.DateText(d)));
      DateEntry(lib, d);
    case Zoned(nanos, offset) =>
      TagReads(lib, "$zoned_datetime", Str(ZonedText(lib, nanos, offset)));
      ZonedEntry(lib, nanos, offset);
    case _ => PlainReads(lib, v);
  }

  lemma PlainReads(lib: Library, v: Any)
    requires v.Nil? || v.Bool? || v.Str? || v.Num?
    ensures Decode(lib, v) == v
  {
  }

  lemma FloatReads(lib: Library, f: Float)
    ensures ComesBack(lib, Flt(f), Decode(lib, FloatNumber(lib, f)))
  {
    if f.Finite? {
      TokenPointed(lib, f.r);
    } else {
      TagReads(lib, "$float", FloatNumber(lib, f).m["$float"]);
    }
  }

  lemma TokenPointed(lib: Library, r: real)
    ensures var text := lib.formatFloat(r); FloatToken(lib, r) == if Pointed(text) then text else text + ".0"
    ensures Pointed(FloatToken(lib, r))
  {
    var text := lib.formatFloat(r);
    assert Pointed(text) <==> exists i :: 0 <= i < |text| && text[i] in ".eE" by {
      if c :| c in text && c in ".eE" { var i :| 0 <= i < |text| && text[i] == c; }
    }
    if !Pointed(text) { assert (text + ".0")[|text|] == '.'; }
  }

  lemma TextEntries(lib: Library, v: Any)
    requires Lawful(lib) && Possible(lib, v)
    ensures v.Bytes? ==> EntryOf(lib, "$bytes", Str(lib.encode64(v.bytes))) == Some(v)
    ensures v.Dec? ==> EntryOf(lib, "$decimal", Str(DecimalText(v.text))) == Some(Dec(DecimalText(v.text)))
    ensures v.TimeV? ==> EntryOf(lib, "$time", Str(Times.TimeText(v.time))) == Some(v)
  {
    hide IsDecimal, Times.ReadTime, Times.TimeText;
    ZeroIsDecimal();
    if v.TimeV? { Times.TimeRoundTrip(v.time); }
  }

  lemma TermEntry(lib: Library, t: Term)
    requires Lawful(lib)
    ensures EntryOf(lib, "$term", MapV(TermFields(lib, t))) ==
            if Carried(lib, TermV(t)) then Some(TermV(Normalized(lib, t))) else None
    ensures NormalForm(lib, t, Normalized(lib, t))
  {
    NormalFormExact(lib, t, Normalized(lib, t));
    hide TermOf, TermFields, NormalForm, Normalized;
    TermReads(lib, t);
  }

  lemma DurationEntry(lib: Library, d: Durations.Duration)
    ensures EntryOf(lib, "$duration", Str(DurationPrinter.TextOf(d))) ==
            if Carried(lib, DurationV(d)) then Some(DurationV(d)) else None
  {
    hide Durations.Parse, DurationPrinter.TextOf;
    DurationPrinter.RoundTrip(d);
  }

  lemma DateEntry(lib: Library, d: Dates.Date)
    requires Dates.Valid(lib.calendar, d)
    ensures EntryOf(lib, "$date", Str(Dates.DateText(d))) == Some(DateV(d)) <==> d.year != MIN
  {
    hide Dates.ReadDate, Dates.DateText;
    Dates.DateRoundTrip(lib.calendar, d);
  }

  lemma MicrosOnce(nanos: int, n: int)
    ensures IsMicros(nanos, n) <==> n == nanos - nanos % 1000
  {
  }

  lemma MinutesOnce(offset: int, o: int)
    ensures IsMinutes(offset, o) <==> o == offset - Remainder(offset, 60)
  {
    QuotientRemainder(offset, 60);
    var q, r := Quotient(offset, 60), Remainder(offset, 60);
    hide Quotient, Remainder;
    MinutesAre(offset, o, q, r);
  }

  lemma MinutesAre(offset: int, o: int, q: int, r: int)
    requires offset == 60 * q + r && -60 < r < 60 && (offset >= 0 ==> r >= 0) && (offset < 0 ==> r <= 0)
    ensures IsMinutes(offset, o) <==> o == 60 * q
  {
    assert 60 * q % 60 == 0;
    if o % 60 == 0 {
      var k := o / 60;
      assert o == 60 * k;
    }
  }

  lemma ZonedEntry(lib: Library, nanos: int, offset: int)
    requires Lawful(lib)
    ensures var entry := EntryOf(lib, "$zoned_datetime", Str(ZonedText(lib, nanos, offset)));
            entry.Some? && ComesBack(lib, Zoned(nanos, offset), entry.value) <==> Carried(lib, Zoned(nanos, offset))
  {
    var n, o := nanos - nanos % 1000, offset - Remainder(offset, 60);
    MicrosOnce(nanos, n);
    MinutesOnce(offset, o);
    forall n', o' | IsMicros(nanos, n') && IsMinutes(offset, o') ensures n' == n && o' == o {
      MicrosOnce(nanos, n');
      MinutesOnce(offset, o');
    }
    hide IsMicros, IsMinutes;
  }

  lemma StampEntry(lib: Library, n: int64)
    ensures EntryOf(lib, "$timestamp_us", Num(IntText(n))) == Some(Stamp(n))
  {
    hide IntText, SignedValue;
    IntTextReads(n);
  }

  lemma ZeroIsDecimal()
    ensures IsDecimal("0")
  {
    CutNone("0", '.');
  }

  // ---- maps that read as tags when they are sent

  /** Encoding keeps texts and number tokens, makes no others but of floats, and no float or map of fields. */
  lemma EncodeKind(lib: Library, c: Any)
    ensures var e := Encode(lib, c);
            && (e.Str? <==> c.Str?) && (c.Str? || c.Num? ==> e == c) && !e.Flt?
            && (e.Num? && !c.Num? ==> c.Flt? && Pointed(e.token))
            && (e.MapV? && !c.MapV? ==> "type" !in e.m)
  {
    if c.Flt? && c.f.Finite? { TokenPointed(lib, c.f.r); }
    hide FloatToken, TermFields, Times.TimeText, DurationPrinter.TextOf, IntText, Dates.DateText, DecimalText;
  }

  lemma PointedNoInteger(token: string)
    requires Pointed(token)
    ensures SignedValue(token) == None
  {
    var c :| c in token && c in ".eE";
    var i :| 0 <= i < |token| && token[i] == c;
    var body := if token[0] == '+' || token[0] == '-' then token[1..] else token;
    assert !AllDigits(body) by {
      if body == token { assert !IsDigit(body[i]); } else { assert body[i - 1] == c; }
    }
  }

  lemma StampSent(lib: Library, c: Any)
    ensures StampOf(Encode(lib, c)).Some? <==> StampOf(c).Some? && !c.Flt?
  {
    EncodeKind(lib, c);
    hide Encode;
    var e := Encode(lib, c);
    if e.Num? && !c.Num? { PointedNoInteger(e.token); }
  }

  lemma TermSent(lib: Library, c: Any)
    ensures var e := Encode(lib, c);
            (e.MapV? && TermOf(lib, e.m).Some?) <==> (c.MapV? && TermOf(lib, c.m).Some?)
  {
    EncodeKind(lib, c);
    if c.MapV? {
      var f, g := c.m, Encode(lib, c).m;
      forall k | k in f ensures HasText(g, k) <==> HasText(f, k) { EncodeKind(lib, f[k]); }
      forall k | HasText(f, k) ensures g[k] == f[k] { EncodeKind(lib, f[k]); }
      SameTexts(lib, f, g);
    }
    hide Encode;
  }

  lemma SameTexts(lib: Library, f: map<string, Any>, g: map<string, Any>)
    requires f.Keys == g.Keys && forall k :: k in f ==> (HasText(g, k) <==> HasText(f, k))
    requires forall k :: HasText(f, k) ==> k in g && g[k] == f[k]
    ensures TermOf(lib, f).Some? <==> TermOf(lib, g).Some?
  {
    hide Normalized;
    assert forall k :: HasText(g, k) == HasText(f, k);
    assert |f| == |f.Keys| == |g.Keys| == |g|;
  }

  lemma EntrySent(lib: Library, key: string, c: Any)
    ensures EntryOf(lib, key, Encode(lib, c)).Some? <==>
            EntryOf(lib, key, c).Some? && !(key == "$timestamp_us" && c.Flt?)
  {
    hide Encode, TermOf, StampOf, IsDecimal;
    EncodeKind(lib, c);
    TermSent(lib, c);
    StampSent(lib, c);
  }

  /** A map reads as a tag when it is sent exactly when it did before, but for a float timestamp. */
  lemma TagSent(lib: Library, m: map<string, Any>, e: map<string, Any>)
    requires Lawful(lib) && e == map k | k in m :: Encode(lib, m[k])
    ensures TagOf(lib, e).None? <==> forall w :: Tagged(lib, m, w) ==> FloatStamp(m)
  {
    hide EntryOf, Encode, Tagged;
    forall w { TagExact(lib, m, w); }
    assert m.Keys == e.Keys;
    assert |m| == |m.Keys| == |e.Keys| == |e|;
    if |m| == 1 {
      assert OnlyKey(e) == OnlyKey(m);
      EntrySent(lib, OnlyKey(m), m[OnlyKey(m)]);
    }
    if TagOf(lib, m).Some? { assert Tagged(lib, m, TagOf(lib, m).value); }
  }

  // ---- the round trip

  /** Decoding the encoded form gives the value back exactly when the tags can carry it. */
  lemma {:induction false} DecodeEncoded(lib: Library, v: Any)
    requires Lawful(lib) && Possible(lib, v)
    ensures ComesBack(lib, v, Decode(lib, Encode(lib, v))) <==> Carried(lib, v)
  {
    match v
    case ListV(items) =>
      forall i | 0 <= i < |items| { DecodeEncoded(lib, items[i]); }
      ListComes(lib, items);
    case MapV(m) =>
      forall k | k in m { DecodeEncoded(lib, m[k]); }
      MapComes(lib, m);
    case _ => ScalarReads(lib, v);
  }

  lemma ListComes(lib: Library, items: seq<Any>)
    requires forall i :: 0 <= i < |items| ==>
               (ComesBack(lib, items[i], Decode(lib, Encode(lib, items[i]))) <==> Carried(lib, items[i]))
    ensures ComesBack(lib, ListV(items), Decode(lib, Encode(lib, ListV(items)))) <==> Carried(lib, ListV(items))
  {
    hide Decode, Encode, ComesBack, Carried;
    ListForms(lib, items);
    ListUnfolds(lib, items, Decode(lib, Encode(lib, ListV(items))));
  }

  lemma ListForms(lib: Library, items: seq<Any>)
    ensures var d := Decode(lib, Encode(lib, ListV(items)));
            && d.ListV? && |d.items| == |items|
            && forall i :: 0 <= i < |items| ==> d.items[i] == Decode(lib, Encode(lib, items[i]))
  {
    var e := Encode(lib, ListV(items));
    assert e.ListV? && |e.items| == |items| && forall i :: 0 <= i < |items| ==> e.items[i] == Encode(lib, items[i]);
    hide Encode;
  }

  lemma ListUnfolds(lib: Library, items: seq<Any>, r: Any)
    ensures ComesBack(lib, ListV(items), r) <==>
            r.ListV? && |r.items| == |items| && forall i :: 0 <= i < |items| ==> ComesBack(lib, items[i], r.items[i])
    ensures Carried(lib, ListV(items)) <==> forall i :: 0 <= i < |items| ==> Carried(lib, items[i])
  {
  }

  lemma MapComes(lib: Library, m: map<string, Any>)
    requires Lawful(lib)
    requires forall k :: k in m ==> (ComesBack(lib, m[k], Decode(lib, Encode(lib, m[k]))) <==> Carried(lib, m[k]))
    ensures ComesBack(lib, MapV(m), Decode(lib, Encode(lib, MapV(m)))) <==> Carried(lib, MapV(m))
  {
    hide TagOf, Encode, Decode, Tagged, FloatStamp, ComesBack, Carried;
    var e := map k | k in m :: Encode(lib, m[k]);
    MapForms(lib, m, e);
    TagSent(lib, m, e);
    CarriedMap(lib, m);
    if TagOf(lib, e).Some? { TagKind(lib, e); }
    ComesBackMap(lib, m, Decode(lib, MapV(e)));
  }

  lemma CarriedMap(lib: Library, m: map<string, Any>)
    ensures Carried(lib, MapV(m)) <==>
            (forall w :: Tagged(lib, m, w) ==> FloatStamp(m)) && forall k :: k in m ==> Carried(lib, m[k])
  {
    hide Tagged, FloatStamp;
  }

  lemma ComesBackMap(lib: Library, m: map<string, Any>, r: Any)
    ensures ComesBack(lib, MapV(m), r) <==>
            r.MapV? && r.m.Keys == m.Keys && forall k :: k in m ==> ComesBack(lib, m[k], r.m[k])
  {
  }

  lemma MapForms(lib: Library, m: map<string, Any>, e: map<string, Any>)
    requires e == map k | k in m :: Encode(lib, m[k])
    ensures Encode(lib, MapV(m)) == MapV(e)
    ensures var d := Decode(lib, MapV(e));
            match TagOf(lib, e)
            case Some(value) => d == value
            case None =>
              d.MapV? && d.m.Keys == m.Keys && forall k :: k in m ==> d.m[k] == Decode(lib, Encode(lib, m[k]))
  {
    hide EntryOf, TagOf;
  }

  // ---- what is sent

  /** The fields a term in normal form is sent as: each of its parts that there is, under its name. */
  predicate FieldsOf(fields: map<string, Any>, n: Term) {
    && fields.Keys == {"type", "value"} + (if n.language != [] then {"xml:lang"} else {}) +
                      (if n.typeIri != [] then {"datatype"} else {})
    && fields["type"] == Str(n.kind) && fields["value"] == Str(n.value)
    && (n.language != [] ==> fields["xml:lang"] == Str(n.language))
    && (n.typeIri != [] ==> fields["datatype"] == Str(n.typeIri))
  }

  /** What has a tag, and the tag it is sent as. */
  function TagFor(v: Any): Option<string> {
    match v
    case Flt(f) => if f.Finite? then None else Some("$float")
    case Bytes(_) => Some("$bytes")
    case Dec(_) => Some("$decimal")
    case TermV(_) => Some("$term")
    case TimeV(_) => Some("$time")
    case DurationV(_) => Some("$duration")
    case Stamp(_) => Some("$timestamp_us")
    case DateV(_) => Some("$date")
    case Zoned(_, _) => Some("$zoned_datetime")
    case _ => None
  }

  /** The content of the tag v is sent as, in its one form. */
  ghost predicate Content(lib: Library, v: Any, c: Any) {
    match v
    case Flt(f) => c == Str(if f.NaN? then "NaN" else if f.PosInf? then "Infinity" else "-Infinity")
    case Bytes(b) => c == Str(lib.encode64(b))
    case Dec(text) => c == Str(if text == "" then "0" else text)
    case TermV(t) => c.MapV? && exists n :: NormalForm(lib, t, n) && FieldsOf(c.m, n)
    case TimeV(t) => c.Str? && exists x :: SpellsTime(c.s, x, t) && TimesLaws.Plain(x, t)
    case DurationV(d) => c.Str? && DurationForm.IsForm(c.s, d)
    case Stamp(n) => c.Num? && Numeral(c.token, n) && Numbers.Matches(Numbers.JSON_NUMBER, c.token)
    case DateV(d) =>
      c.Str? && (Dates.Valid(lib.calendar, d) && d.year != MIN ==>
                   exists x :: Dates.SpellsDate(lib.calendar, c.s, x, d) && Dates.Plain(x, d))
    case Zoned(nanos, offset) =>
      exists n, o :: IsMicros(nanos, n) && IsMinutes(offset, o) && c == Str(lib.zonedText(n, o))
    case _ => false
  }

  /** e is what is sent for v: a tag with its content, a token of a finite float, lists and maps by their members. */
  ghost predicate IsSent(lib: Library, v: Any, e: Any) {
    match v
    case ListV(items) =>
      e.ListV? && |e.items| == |items| && forall i :: 0 <= i < |items| ==> IsSent(lib, items[i], e.items[i])
    case MapV(m) => e.MapV? && e.m.Keys == m.Keys && forall k :: k in m ==> IsSent(lib, m[k], e.m[k])
    case _ =>
      match TagFor(v)
      case Some(tag) => e.MapV? && e.m.Keys == {tag} && Content(lib, v, e.m[tag])
      case None => if v.Flt? then ComesBack(lib, v, e) else e == v
  }

  lemma TermSentAs(lib: Library, t: Term)
    requires Lawful(lib)
    ensures NormalForm(lib, t, Normalized(lib, t)) && FieldsOf(TermFields(lib, t), Normalized(lib, t))
  {
    NormalFormExact(lib, t, Normalized(lib, t));
    hide Normalized;
  }

  /** A number is written as a JSON integer. */
  lemma StampToken(n: int)
    ensures Numeral(IntText(n), n) && Numbers.Matches(Numbers.JSON_NUMBER, IntText(n))
  {
    hide IntText, Numbers.Matches, Numbers.IsJsonNumber;
    IntTextReads(n);
    NumeralExact(IntText(n), n);
    IntIsJson(n);
    Numbers.JsonNumberExact(IntText(n));
  }

  lemma IntIsJson(n: int)
    ensures Numbers.IsJsonNumber(IntText(n))
  {
    var digits := NatText(Magnitude(n));
    NatTextReads(Magnitude(n));
    if n == 0 { assert digits == "0"; }
    assert IntText(n) == (if n < 0 then "-" else "") + digits;
    hide NatText, IntText, Numbers.IsJsonNumber;
    UnsignedJson(IntText(n), digits);
  }

  lemma UnsignedJson(text: string, digits: string)
    requires text == "-" + digits || text == digits
    requires digits != "" && AllDigits(digits) && (digits == "0" || digits[0] != '0')
    ensures Numbers.IsJsonNumber(text)
  {
    assert Numbers.DropFirst(text, {'-'}) == digits;
    NoExponent(digits);
    CutNone(digits, '.');
  }

  lemma NoExponent(digits: string)
    requires AllDigits(digits)
    ensures Numbers.ExponentAt(digits) == |digits| && digits[..|digits|] == digits
  {
  }

  lemma TermContent(lib: Library, t: Term)
    requires Lawful(lib)
    ensures Content(lib, TermV(t), MapV(TermFields(lib, t)))
  {
    TermSentAs(lib, t);
    hide TermFields, NormalForm, FieldsOf, Normalized;
  }

  lemma TimeContent(lib: Library, t: Times.Time)
    ensures Content(lib, TimeV(t), Str(Times.TimeText(t)))
  {
    hide Times.TimeText, SpellsTime, TimesLaws.Plain;
    var x := TimeWritten(t);
  }

  lemma DateContent(lib: Library, d: Dates.Date)
    ensures Content(lib, DateV(d), Str(Dates.DateText(d)))
  {
    hide Dates.DateText, Dates.SpellsDate, Dates.Plain;
    if Dates.Valid(lib.calendar, d) && d.year != MIN { var x := Dates.DateWritten(lib.calendar, d); }
  }

  lemma ZonedContent(lib: Library, nanos: int, offset: int)
    ensures Content(lib, Zoned(nanos, offset), Str(ZonedText(lib, nanos, offset)))
  {
    MicrosOnce(nanos, nanos - nanos % 1000);
    MinutesOnce(offset, offset - Remainder(offset, 60));
    hide IsMicros, IsMinutes, Remainder;
  }

  lemma TextContent(lib: Library, v: Any)
    ensures v.Bytes? ==> Content(lib, v, Str(lib.encode64(v.bytes)))
    ensures v.Dec? ==> Content(lib, v, Str(DecimalText(v.text)))
    ensures v.DurationV? ==> Content(lib, v, Str(DurationPrinter.TextOf(v.d)))
    ensures v.Stamp? ==> Content(lib, v, Num(IntText(v.micros)))
  {
    if v.DurationV? { DurationForm.PrintedIsForm(v.d); }
    if v.Stamp? { StampToken(v.micros); }
    hide Numeral, Numbers.Matches, IntText, DurationForm.IsForm, DurationPrinter.TextOf;
  }

  lemma TaggedForm(lib: Library, v: Any)
    requires Lawful(lib) && TagFor(v).Some? && !v.Flt?
    ensures IsSent(lib, v, Encode(lib, v))
  {
    hide Content, TermFields, Times.TimeText, DurationPrinter.TextOf, IntText, Dates.DateText, ZonedText, DecimalText;
    TextContent(lib, v);
    match v
    case TermV(t) => TermContent(lib, t);
    case TimeV(t) => TimeContent(lib, t);
    case DateV(d) => DateContent(lib, d);
    case Zoned(nanos, offset) => ZonedContent(lib, nanos, offset);
    case _ =>
  }

  lemma FloatForm(lib: Library, f: Float)
    ensures IsSent(lib, Flt(f), Encode(lib, Flt(f)))
  {
    if f.Finite? { TokenPointed(lib, f.r); }
    hide FloatToken;
  }

  lemma ScalarForm(lib: Library, v: Any)
    requires Lawful(lib) && !v.ListV? && !v.MapV?
    ensures IsSent(lib, v, Encode(lib, v))
  {
    if v.Flt? {
      hide IsSent, Encode;
      FloatForm(lib, v.f);
    } else if TagFor(v).Some? {
      hide IsSent, Encode;
      TaggedForm(lib, v);
    }
  }

  /** Every value is sent in its one form. */
  lemma {:induction false} EncodedForm(lib: Library, v: Any)
    requires Lawful(lib)
    ensures IsSent(lib, v, Encode(lib, v))
  {
    match v
    case ListV(items) => forall i | 0 <= i < |items| { EncodedForm(lib, items[i]); }
    case MapV(m) => forall k | k in m { EncodedForm(lib, m[k]); }
    case _ => ScalarForm(lib, v);
  }
}
