/** The JSON text json.dumps writes for a result of scripts/difftest/difftest.py, and why the text of a
    list gives away the texts of its items. */
module ResultText {
  /** A value as json.dumps writes it: an atom (number, literal) by its text, a string by its characters,
      an object by its entries in key order. */
  datatype Value =
    | Atom(text: string)
    | Str(chars: string)
    | List(items: seq<Value>)
    | Object(entries: seq<Entry>)
  datatype Entry = Entry(key: string, value: Value)

  /** How a character is written inside a string. */
  type Escape = char -> string

  /** One or more units, each a backslash and any character, or one character that is neither a quote
      nor a backslash: a short escape, a \u escape and the two of a surrogate pair alike. */
  predicate LawfulEscape(e: string) {
    e != "" && Units(e)
  }

  predicate Units(e: string) {
    || e == ""
    || (e[0] != '"' && e[0] != '\\' && Units(e[1..]))
    || (e[0] == '\\' && |e| >= 2 && Units(e[2..]))
  }

  /** Small letters are written as they are. */
  ghost predicate Lawful(escape: Escape) {
    forall c: char :: LawfulEscape(escape(c)) && ('a' <= c <= 'z' ==> escape(c) == [c])
  }

  /** The digits json.dumps writes after a \u. */
  function Hex4(n: nat): string
    requires n <= 0xFFFF
  {
    var digits := "0123456789abcdef";
    [digits[n / 4096], digits[n / 256 % 16], digits[n / 16 % 16], digits[n % 16]]
  }

  function UnicodeEscape(n: nat): string
    requires n <= 0xFFFF
  {
    "\\u" + Hex4(n)
  }

  /** How json.dumps writes a character with ensure_ascii on: above U+FFFF as a surrogate pair. */
  function DumpsEscape(c: char): string {
    var n := c as int;
    match c
    case '"' => "\\\""
    case '\\' => "\\\\"
    case '\n' => "\\n"
    case '\r' => "\\r"
    case '\t' => "\\t"
    case _ =>
      if n == 8 then "\\b"
      else if n == 12 then "\\f"
      else if 0x20 <= n <= 0x7E then [c]
      else if n <= 0xFFFF then UnicodeEscape(n)
      else UnicodeEscape(0xD800 + (n - 0x10000) / 0x400) + UnicodeEscape(0xDC00 + (n - 0x10000) % 0x400)
  }

  lemma HexPlain(n: nat)
    requires n <= 0xFFFF
    ensures |Hex4(n)| == 4 && forall i :: 0 <= i < 4 ==> Hex4(n)[i] != '"' && Hex4(n)[i] != '\\'
  {
    var digits := "0123456789abcdef";
    assert forall i :: 0 <= i < 16 ==> digits[i] != '"' && digits[i] != '\\';
  }

  lemma HexUnits(n: nat, k: string)
    requires n <= 0xFFFF && Units(k)
    ensures Units(UnicodeEscape(n) + k)
  {
    HexPlain(n);
    var h := Hex4(n);
    hide Hex4;
    var e := UnicodeEscape(n) + k;
    assert e[2..] == [h[0]] + ([h[1]] + ([h[2]] + ([h[3]] + k)));
    UnitMore(h[3], k);
    UnitMore(h[2], [h[3]] + k);
    UnitMore(h[1], [h[2]] + ([h[3]] + k));
    UnitMore(h[0], [h[1]] + ([h[2]] + ([h[3]] + k)));
  }

  lemma UnitMore(c: char, k: string)
    requires c != '"' && c != '\\' && Units(k)
    ensures Units([c] + k)
  {
    assert ([c] + k)[1..] == k;
  }

  /** What json.dumps writes for any character, surrogate pairs included, is made of units. */
  lemma DumpsLawful()
    ensures Lawful(DumpsEscape)
  {
    forall c: char ensures LawfulEscape(DumpsEscape(c)) && ('a' <= c <= 'z' ==> DumpsEscape(c) == [c]) {
      OneDumped(c);
    }
  }

  lemma OneDumped(c: char)
    ensures LawfulEscape(DumpsEscape(c)) && ('a' <= c <= 'z' ==> DumpsEscape(c) == [c])
  {
    hide UnicodeEscape;
    var n := c as int;
    assert Units("");
    if 0x7E < n <= 0xFFFF || (n < 0x20 && n !in {8, 9, 10, 12, 13}) {
      HexUnits(n, "");
      EscapeNonempty(n);
      assert UnicodeEscape(n) + "" == UnicodeEscape(n);
    } else if n > 0xFFFF {
      var high, low := 0xD800 + (n - 0x10000) / 0x400, 0xDC00 + (n - 0x10000) % 0x400;
      HexUnits(low, "");
      EscapeNonempty(low);
      assert UnicodeEscape(low) + "" == UnicodeEscape(low);
      HexUnits(high, UnicodeEscape(low));
    } else {
      var e := DumpsEscape(c);
      assert |e| == 1 ==> e[1..] == "";
      assert |e| == 2 ==> e[2..] == "";
    }
  }

  lemma EscapeNonempty(n: nat)
    requires n <= 0xFFFF
    ensures UnicodeEscape(n) != ""
  {
  }

  predicate IsMark(c: char) {
    c in "\"[]{},: "
  }

  ghost predicate WellFormed(v: Value) {
    match v
    case Atom(text) => text != "" && forall i :: 0 <= i < |text| ==> !IsMark(text[i])
    case Str(_) => true
    case List(items) => forall i :: 0 <= i < |items| ==> WellFormed(items[i])
    case Object(entries) => forall i :: 0 <= i < |entries| ==> WellFormed(entries[i].value)
  }

  // ---- writing

  function WriteChars(escape: Escape, chars: string, k: string): string {
    if chars == "" then k else escape(chars[0]) + WriteChars(escape, chars[1..], k)
  }

  /** The text of the value with k after it. */
  function Write(escape: Escape, v: Value, k: string): string
    decreases v, 1
  {
    match v
    case Atom(text) => text + k
    case Str(chars) => "\"" + WriteChars(escape, chars, "\"" + k)
    case List(items) => "[" + WriteItems(escape, items, "]" + k)
    case Object(entries) => "{" + WriteEntries(escape, entries, "}" + k)
  }

  function WriteItems(escape: Escape, items: seq<Value>, k: string): string
    decreases items, 0
  {
    if items == [] then k
    else Write(escape, items[0], if |items| == 1 then k else ", " + WriteItems(escape, items[1..], k))
  }

  function WriteEntries(escape: Escape, entries: seq<Entry>, k: string): string
    decreases entries, 0
  {
    if entries == [] then k
    else
      var more := if |entries| == 1 then k else ", " + WriteEntries(escape, entries[1..], k);
      "\"" + WriteChars(escape, entries[0].key, "\"" + (": " + Write(escape, entries[0].value, more)))
  }

  function Text(escape: Escape, v: Value): string {
    Write(escape, v, "")
  }

  function Texts(escape: Escape, items: seq<Value>): (r: seq<string>)
    ensures |r| == |items|
  {
    seq(|items|, i requires 0 <= i < |items| => Text(escape, items[i]))
  }

  // ---- where a text ends

  function SkipString(t: string): string {
    if t == "" then ""
    else if t[0] == '"' then t[1..]
    else if t[0] == '\\' then (if |t| == 1 then "" else SkipString(t[2..]))
    else SkipString(t[1..])
  }

  lemma {:induction false} SkipStringShrinks(t: string)
    ensures |SkipString(t)| <= |t|
  {
    if t != "" && t[0] != '"' {
      if t[0] != '\\' { SkipStringShrinks(t[1..]); }
      else if |t| > 1 { SkipStringShrinks(t[2..]); }
    }
  }

  /** What is left after the value, or the rest of one, that is open depth levels deep. */
  function Skip(t: string, depth: nat): string
    decreases |t|
  {
    if t == "" then ""
    else if t[0] == '"' then
      SkipStringShrinks(t[1..]);
      if depth == 0 then SkipString(t[1..]) else Skip(SkipString(t[1..]), depth)
    else if t[0] in "[{" then Skip(t[1..], depth + 1)
    else if t[0] in "]}" then (if depth == 0 then t else if depth == 1 then t[1..] else Skip(t[1..], depth - 1))
    else if depth == 0 && t[0] in ",: " then t
    else Skip(t[1..], depth)
  }

  lemma {:induction false} SkipPlain(a: string, k: string, depth: nat)
    requires forall i :: 0 <= i < |a| ==> !IsMark(a[i])
    ensures Skip(a + k, depth) == Skip(k, depth)
  {
    if a == "" {
      assert a + k == k;
    } else {
      assert (a + k)[1..] == a[1..] + k && !IsMark(a[0]);
      SkipPlain(a[1..], k, depth);
    }
  }

  lemma {:induction false} SkipUnits(e: string, k: string)
    requires Units(e)
    ensures SkipString(e + k) == SkipString(k)
  {
    if e == "" {
      assert e + k == k;
    } else if e[0] == '\\' {
      assert (e + k)[2..] == e[2..] + k;
      SkipUnits(e[2..], k);
    } else {
      assert (e + k)[1..] == e[1..] + k;
      SkipUnits(e[1..], k);
    }
  }

  lemma {:induction false} SkipChars(escape: Escape, chars: string, k: string)
    requires Lawful(escape)
    ensures SkipString(WriteChars(escape, chars, "\"" + k)) == k
  {
    if chars == "" {
      assert ("\"" + k)[1..] == k;
    } else {
      SkipChars(escape, chars[1..], k);
      SkipUnits(escape(chars[0]), WriteChars(escape, chars[1..], "\"" + k));
    }
  }

  /** A quoted text is skipped inside a value, and ends a value that it is. */
  lemma SkipQuoted(escape: Escape, chars: string, k: string, depth: nat)
    requires Lawful(escape)
    ensures Skip("\"" + WriteChars(escape, chars, "\"" + k), depth) == if depth == 0 then k else Skip(k, depth)
  {
    SkipChars(escape, chars, k);
    var t := WriteChars(escape, chars, "\"" + k);
    assert ("\"" + t)[1..] == t;
    hide WriteChars, SkipString;
  }

  lemma SkipChar(c: char, k: string, depth: nat)
    ensures c in "[{" ==> Skip([c] + k, depth) == Skip(k, depth + 1)
    ensures c in "]}" && depth > 1 ==> Skip([c] + k, depth) == Skip(k, depth - 1)
    ensures c in "]}" && depth == 1 ==> Skip([c] + k, depth) == k
    ensures c in ",: " && depth > 0 ==> Skip([c] + k, depth) == Skip(k, depth)
  {
    assert ([c] + k)[1..] == k;
  }

  /** What may follow a value. */
  predicate Delimited(k: string) {
    k == "" || k[0] in ",]}"
  }

  lemma SkipDelimited(k: string)
    requires Delimited(k)
    ensures Skip(k, 0) == k
  {
  }

  lemma {:induction false} SkipWrite(escape: Escape, v: Value, k: string, depth: nat)
    requires Lawful(escape) && WellFormed(v)
    ensures depth > 0 ==> Skip(Write(escape, v, k), depth) == Skip(k, depth)
    ensures depth == 0 && Delimited(k) ==> Skip(Write(escape, v, k), 0) == k
    decreases v, 1
  {
    hide Lawful, Skip, WriteItems, WriteEntries, WriteChars, Delimited, IsMark;
    match v {
      case Atom(text) =>
        SkipPlain(text, k, depth);
        if Delimited(k) { SkipDelimited(k); }
      case Str(chars) =>
        SkipQuoted(escape, chars, k, depth);
      case List(items) =>
        SkipChar('[', WriteItems(escape, items, "]" + k), depth);
        SkipItems(escape, items, "]" + k, depth + 1);
        SkipChar(']', k, depth + 1);
      case Object(entries) =>
        SkipChar('{', WriteEntries(escape, entries, "}" + k), depth);
        SkipEntries(escape, entries, "}" + k, depth + 1);
        SkipChar('}', k, depth + 1);
    }
  }

  lemma SkipComma(k: string, depth: nat)
    requires depth > 0
    ensures Skip(", " + k, depth) == Skip(k, depth) && Skip(": " + k, depth) == Skip(k, depth)
  {
    hide Skip;
    assert ", " + k == [','] + ([' '] + k) && ": " + k == [':'] + ([' '] + k);
    SkipChar(',', [' '] + k, depth);
    SkipChar(':', [' '] + k, depth);
    SkipChar(' ', k, depth);
  }

  lemma {:induction false} SkipItems(escape: Escape, items: seq<Value>, k: string, depth: nat)
    requires Lawful(escape) && depth > 0 && forall i :: 0 <= i < |items| ==> WellFormed(items[i])
    ensures Skip(WriteItems(escape, items, k), depth) == Skip(k, depth)
    decreases items, 0
  {
    hide Lawful, Skip, Write, WellFormed;
    if items != [] {
      var more := WriteItems(escape, items[1..], k);
      SkipItems(escape, items[1..], k, depth);
      SkipComma(more, depth);
      SkipWrite(escape, items[0], if |items| == 1 then k else ", " + more, depth);
    }
  }

  lemma {:induction false} SkipEntries(escape: Escape, entries: seq<Entry>, k: string, depth: nat)
    requires Lawful(escape) && depth > 0 && forall i :: 0 <= i < |entries| ==> WellFormed(entries[i].value)
    ensures Skip(WriteEntries(escape, entries, k), depth) == Skip(k, depth)
    decreases entries, 0
  {
    hide Lawful, Skip, Write, WellFormed, WriteChars;
    if entries != [] {
      var rest := WriteEntries(escape, entries[1..], k);
      var more := if |entries| == 1 then k else ", " + rest;
      SkipEntries(escape, entries[1..], k, depth);
      SkipComma(rest, depth);
      var value := Write(escape, entries[0].value, more);
      SkipWrite(escape, entries[0].value, more, depth);
      SkipComma(value, depth);
      SkipQuoted(escape, entries[0].key, ": " + value, depth);
    }
  }

  // ---- the text and what follows it

  lemma {:induction false} CharsThen(escape: Escape, chars: string, a: string, b: string)
    ensures WriteChars(escape, chars, a + b) == WriteChars(escape, chars, a) + b
  {
    if chars != "" {
      CharsThen(escape, chars[1..], a, b);
      Assoc(escape(chars[0]), WriteChars(escape, chars[1..], a), b);
    }
  }

  lemma Assoc(a: string, b: string, c: string)
    ensures a + (b + c) == a + b + c
  {
  }

  lemma QuotedThen(escape: Escape, chars: string, a: string, b: string)
    ensures "\"" + WriteChars(escape, chars, "\"" + (a + b)) == "\"" + WriteChars(escape, chars, "\"" + a) + b
  {
    hide WriteChars;
    Assoc("\"", a, b);
    CharsThen(escape, chars, "\"" + a, b);
    Assoc("\"", WriteChars(escape, chars, "\"" + a), b);
  }

  lemma {:induction false} WriteThen(escape: Escape, v: Value, a: string, b: string)
    ensures Write(escape, v, a + b) == Write(escape, v, a) + b
    decreases v, 1
  {
    hide WriteItems, WriteEntries, WriteChars;
    match v {
      case Atom(text) =>
        Assoc(text, a, b);
      case Str(chars) =>
        QuotedThen(escape, chars, a, b);
      case List(items) =>
        Assoc("]", a, b);
        ItemsThen(escape, items, "]" + a, b);
        Assoc("[", WriteItems(escape, items, "]" + a), b);
      case Object(entries) =>
        Assoc("}", a, b);
        EntriesThen(escape, entries, "}" + a, b);
        Assoc("{", WriteEntries(escape, entries, "}" + a), b);
    }
  }

  lemma {:induction false} ItemsThen(escape: Escape, items: seq<Value>, a: string, b: string)
    ensures WriteItems(escape, items, a + b) == WriteItems(escape, items, a) + b
    decreases items, 0
  {
    hide Write;
    if items != [] {
      var more := WriteItems(escape, items[1..], a);
      ItemsThen(escape, items[1..], a, b);
      Assoc(", ", more, b);
      WriteThen(escape, items[0], if |items| == 1 then a else ", " + more, b);
    }
  }

  lemma {:induction false} EntriesThen(escape: Escape, entries: seq<Entry>, a: string, b: string)
    ensures WriteEntries(escape, entries, a + b) == WriteEntries(escape, entries, a) + b
    decreases entries, 0
  {
    hide Write, WriteChars;
    if entries != [] {
      var rest := WriteEntries(escape, entries[1..], a);
      EntriesThen(escape, entries[1..], a, b);
      Assoc(", ", rest, b);
      var more := if |entries| == 1 then a else ", " + rest;
      WriteThen(escape, entries[0].value, more, b);
      var value := Write(escape, entries[0].value, more);
      Assoc(": ", value, b);
      QuotedThen(escape, entries[0].key, ": " + value, b);
    }
  }

  lemma TextThen(escape: Escape, v: Value, k: string)
    ensures Write(escape, v, k) == Text(escape, v) + k
  {
    assert "" + k == k;
    WriteThen(escape, v, "", k);
  }

  /** Texts with something after them agree only when both parts do. */
  lemma TextEnds(escape: Escape, v: Value, w: Value, k: string, l: string)
    requires Lawful(escape) && WellFormed(v) && WellFormed(w) && Delimited(k) && Delimited(l)
    ensures Write(escape, v, k) == Write(escape, w, l) <==> Text(escape, v) == Text(escape, w) && k == l
  {
    hide *;
    SkipWrite(escape, v, k, 0);
    SkipWrite(escape, w, l, 0);
    TextThen(escape, v, k);
    TextThen(escape, w, l);
    SuffixOff(Text(escape, v), Text(escape, w), k);
  }

  lemma SuffixOff(a: string, b: string, k: string)
    ensures a + k == b + k ==> a == b
  {
    assert (a + k)[..|a + k| - |k|] == a && (b + k)[..|b + k| - |k|] == b;
  }

  lemma TextStarts(escape: Escape, v: Value, k: string)
    requires WellFormed(v)
    ensures Write(escape, v, k) != "" && Write(escape, v, k)[0] !in ",]}"
  {
    hide WriteItems, WriteEntries, WriteChars;
    if v.Atom? { assert !IsMark(v.text[0]); }
  }

  // ---- lists

  ghost predicate AllWellFormed(items: seq<Value>) {
    forall i :: 0 <= i < |items| ==> WellFormed(items[i])
  }

  function AfterFirst(escape: Escape, items: seq<Value>): (k: string)
    requires items != []
    ensures Delimited(k)
  {
    if |items| == 1 then "]" else ", " + WriteItems(escape, items[1..], "]")
  }

  /** Lists have equal texts exactly when their items have, one by one. */
  lemma {:induction false} ItemsExact(escape: Escape, v: seq<Value>, w: seq<Value>)
    requires Lawful(escape) && AllWellFormed(v) && AllWellFormed(w)
    ensures WriteItems(escape, v, "]") == WriteItems(escape, w, "]") <==> Texts(escape, v) == Texts(escape, w)
  {
    if v == [] || w == [] {
      OneEmpty(escape, v, w);
    } else {
      ItemsExact(escape, v[1..], w[1..]);
      TextEnds(escape, v[0], w[0], AfterFirst(escape, v), AfterFirst(escape, w));
      AfterExact(escape, v, w);
      TextsHead(escape, v, w);
      hide Write, Text, Texts, AfterFirst, WellFormed, Lawful;
    }
  }

  lemma OneEmpty(escape: Escape, v: seq<Value>, w: seq<Value>)
    requires AllWellFormed(v) && AllWellFormed(w) && (v == [] || w == [])
    ensures WriteItems(escape, v, "]") == WriteItems(escape, w, "]") <==> Texts(escape, v) == Texts(escape, w)
  {
    if v != [] { TextStarts(escape, v[0], AfterFirst(escape, v)); }
    if w != [] { TextStarts(escape, w[0], AfterFirst(escape, w)); }
    assert v == [] && w == [] ==> v == w;
    hide Write, Text, WellFormed;
  }

  lemma AfterExact(escape: Escape, v: seq<Value>, w: seq<Value>)
    requires v != [] && w != []
    requires WriteItems(escape, v[1..], "]") == WriteItems(escape, w[1..], "]") <==>
             Texts(escape, v[1..]) == Texts(escape, w[1..])
    ensures AfterFirst(escape, v) == AfterFirst(escape, w) <==> Texts(escape, v[1..]) == Texts(escape, w[1..])
  {
    var a, b := WriteItems(escape, v[1..], "]"), WriteItems(escape, w[1..], "]");
    assert (", " + a)[2..] == a && (", " + b)[2..] == b;
    assert |v| == 1 && |w| == 1 ==> v[1..] == w[1..];
    hide WriteItems, Text;
  }

  lemma TextsHead(escape: Escape, v: seq<Value>, w: seq<Value>)
    requires v != [] && w != []
    ensures Texts(escape, v) == Texts(escape, w) <==>
            Text(escape, v[0]) == Text(escape, w[0]) && Texts(escape, v[1..]) == Texts(escape, w[1..])
  {
    hide Text;
    TextsCons(escape, v);
    TextsCons(escape, w);
    assert Texts(escape, v)[1..] == Texts(escape, v[1..]) && Texts(escape, w)[1..] == Texts(escape, w[1..]);
  }

  lemma TextsCons(escape: Escape, v: seq<Value>)
    requires v != []
    ensures Texts(escape, v) == [Text(escape, v[0])] + Texts(escape, v[1..])
  {
    hide Text;
  }

  /** The text of a list determines the texts of its items. */
  lemma ListExact(escape: Escape, v: seq<Value>, w: seq<Value>)
    requires Lawful(escape) && AllWellFormed(v) && AllWellFormed(w)
    ensures Text(escape, List(v)) == Text(escape, List(w)) <==> Texts(escape, v) == Texts(escape, w)
  {
    ItemsExact(escape, v, w);
    hide WriteItems, Texts, Lawful;
    var a, b := WriteItems(escape, v, "]"), WriteItems(escape, w, "]");
    assert "]" + "" == "]";
    assert ("[" + a)[1..] == a && ("[" + b)[1..] == b;
  }

  /** The text of a list: its items' texts with commas between them. */
  lemma ListText(escape: Escape, items: seq<Value>)
    requires items != []
    ensures Text(escape, List(items)) ==
            "[" + Text(escape, items[0]) +
            if |items| == 1 then "]" else ", " + Text(escape, List(items[1..]))[1..]
  {
    ListIs(escape, items);
    ListIs(escape, items[1..]);
    var more := WriteItems(escape, items[1..], "]");
    assert ("[" + more)[1..] == more;
    ItemThen(escape, items[0], "]");
    ItemThen(escape, items[0], ", " + more);
    hide Write, Text;
  }

  lemma ItemThen(escape: Escape, v: Value, k: string)
    ensures Write(escape, v, k) == Text(escape, v) + k
  {
    hide Write;
    assert "" + k == k;
    WriteThen(escape, v, "", k);
  }

  lemma ListIs(escape: Escape, items: seq<Value>)
    ensures Text(escape, List(items)) == "[" + WriteItems(escape, items, "]")
  {
    hide WriteItems;
    assert "]" + "" == "]";
  }
}
