/** The reader of build.rs as it runs: one cursor into the characters, moved by every method. */
module SpecJsonCursor {
  import opened Options
  import opened Text
  import opened Numbers
  import opened SpecJson

  class Cursor {
    const chars: string
    const rules: Rules
    var pos: nat

    constructor (text: string, rules: Rules)
      ensures chars == text && this.rules == rules && pos == 0
    {
      chars, this.rules, pos := text, rules, 0;
    }

    /** The text from the cursor on. */
    ghost function Rest(): string
      reads this
      requires pos <= |chars|
    {
      chars[pos..]
    }

    /** The cursor stands where `rest` is left. */
    ghost predicate At(rest: string)
      reads this
    {
      pos <= |chars| && Rest() == rest
    }

    /** A method's result is what the specification reads, and the cursor stands after it. */
    ghost predicate Reads<T>(r: Option<T>, spec: Option<(T, string)>)
      reads this
    {
      r.Some? == spec.Some? && (r.Some? ==> r.value == spec.value.0 && At(spec.value.1))
    }

    predicate Sees(c: char)
      reads this
      requires pos <= |chars|
      ensures Sees(c) == StartsWith(Rest(), c)
    {
      pos < |chars| && chars[pos] == c
    }

    /** skip_json_whitespace. */
    method SkipWhitespace()
      requires pos <= |chars|
      modifies this`pos
      ensures At(SkipSpace(old(Rest())))
    {
      while pos < |chars| && IsSpace(chars[pos])
        invariant pos <= |chars|
        invariant SkipSpace(Rest()) == SkipSpace(old(Rest()))
      {
        assert Rest()[1..] == chars[pos + 1..];
        pos := pos + 1;
      }
    }

    /** json_hex4. */
    method Hex4() returns (r: Option<nat>)
      requires pos <= |chars|
      modifies this`pos
      ensures Reads(r, ReadHex4(old(Rest())))
    {
      if pos + 4 > |chars| { return None; }
      assert Rest()[..4] == chars[pos..pos + 4] && Rest()[4..] == chars[pos + 4..];
      if !IsHex4(chars[pos..pos + 4]) { return None; }
      r := Some(Hex4Value(chars[pos..pos + 4]));
      pos := pos + 4;
    }

    /** json_unicode_escape. */
    method UnicodeEscape() returns (r: Option<char>)
      requires pos <= |chars|
      modifies this`pos
      ensures Reads(r, ReadUnicode(old(Rest())))
    {
      var high := Hex4();
      if high.None? { return None; }
      if IsHigh(high.value) {
        if pos + 1 >= |chars| || chars[pos] != '\\' || chars[pos + 1] != 'u' { return None; }
        assert Rest()[2..] == chars[pos + 2..];
        pos := pos + 2;
        var low := Hex4();
        if low.None? || !IsLow(low.value) { return None; }
        r := FromU32(PairCode(high.value, low.value));
      } else if IsLow(high.value) {
        r := None;
      } else {
        r := FromU32(high.value);
      }
    }

    /** An escape, from its backslash on. */
    method Escape() returns (r: Option<char>)
      requires pos <= |chars| && Sees('\\')
      modifies this`pos
      ensures Reads(r, ReadEscape(old(Rest())))
    {
      hide ReadUnicode, ShortEscape;
      ghost var s := Rest();
      if pos + 1 == |chars| { return None; }
      var escaped := chars[pos + 1];
      assert s[1] == escaped && s[2..] == chars[pos + 2..];
      pos := pos + 2;
      if escaped == 'u' {
        r := UnicodeEscape();
      } else {
        r := ShortEscape(escaped);
      }
    }

    /** json_string: characters pushed onto the text until the closing quote. */
    method String() returns (r: Option<string>)
      requires pos <= |chars|
      modifies this`pos
      ensures Reads(r, ReadString(old(Rest())))
    {
      hide ReadRest, ReadEscape;
      if !Sees('"') { return None; }
      assert Rest()[1..] == chars[pos + 1..];
      pos := pos + 1;
      r := Characters();
    }

    /** The loop of json_string. */
    method Characters() returns (r: Option<string>)
      requires pos <= |chars|
      modifies this`pos
      ensures Reads(r, ReadRest(old(Rest())))
    {
      hide ReadRest, ReadEscape;
      var text: string := [];
      ghost var start := Rest();
      PrependNothing(ReadRest(start));
      while true
        invariant pos <= |chars|
        invariant ReadRest(start) == Prepend(text, ReadRest(Rest()))
        decreases |chars| - pos
      {
        RestStep(Rest());
        if pos == |chars| { return None; }
        var c := chars[pos];
        assert Rest()[0] == c && Rest()[1..] == chars[pos + 1..];
        if c == '\\' {
          var e := Escape();
          if e.None? { return None; }
          c := e.value;
        } else {
          pos := pos + 1;
          if c == '"' {
            assert text + [] == text;
            return Some(text);
          }
        }
        PrependMore(text, c, ReadRest(Rest()));
        text := text + [c];
      }
    }

    /** The bare word at the cursor. */
    method WordAt() returns (word: string)
      requires pos <= |chars|
      modifies this`pos
      ensures var k := WordLength(rules, old(Rest())); word == old(Rest())[..k] && At(old(Rest())[k..])
    {
      hide WordChar, WordLength;
      var start := pos;
      ghost var s := Rest();
      while pos < |chars| && WordChar(rules, chars[pos])
        invariant start <= pos <= |chars|
        invariant WordLength(rules, s) == pos - start + WordLength(rules, chars[pos..])
      {
        WordStep(rules, chars, pos);
        pos := pos + 1;
      }
      word := chars[start..pos];
      WordStep(rules, chars, pos);
      assert s[..pos - start] == word && s[pos - start..] == Rest();
    }

    /** json_value_code: lists and maps in loops, their values by recursion. */
    method Value() returns (r: Option<Json>)
      requires pos <= |chars|
      modifies this`pos
      ensures Reads(r, ReadValue(rules, old(Rest())))
      decreases |chars| - pos, 3
    {
      hide ReadValue, SkipSpace, ReadList, ReadObject, ReadString, ReadWord;
      ValueStep(rules, Rest());
      SkipWhitespace();
      if pos == |chars| { return None; }
      assert Rest()[0] == chars[pos];
      match chars[pos] {
        case '[' => r := ListValue();
        case '{' => r := ObjectValue();
        case '"' =>
          var text := String();
          r := if text.Some? then Some(Str(text.value)) else None;
        case _ => r := WordAsValue();
      }
    }

    /** A list, from its bracket on. */
    method ListValue() returns (r: Option<Json>)
      requires pos <= |chars| && Sees('[')
      modifies this`pos
      ensures Reads(r, ReadList(rules, old(Rest())[1..]))
      decreases |chars| - pos, 2
    {
      hide SkipSpace, ReadItems;
      assert Rest()[1..] == chars[pos + 1..];
      pos := pos + 1;
      SkipWhitespace();
      if Sees(']') {
        assert Rest()[1..] == chars[pos + 1..];
        pos := pos + 1;
        return Some(List([]));
      }
      var items := Items();
      r := if items.Some? then Some(List(items.value)) else None;
    }

    /** A map, from its brace on. */
    method ObjectValue() returns (r: Option<Json>)
      requires pos <= |chars| && Sees('{')
      modifies this`pos
      ensures Reads(r, ReadObject(rules, old(Rest())[1..]))
      decreases |chars| - pos, 2
    {
      hide SkipSpace, ReadEntries;
      assert Rest()[1..] == chars[pos + 1..];
      pos := pos + 1;
      SkipWhitespace();
      if Sees('}') {
        assert Rest()[1..] == chars[pos + 1..];
        pos := pos + 1;
        return Some(Object([]));
      }
      var entries := Entries();
      r := if entries.Some? then Some(Object(entries.value)) else None;
    }

    /** A number or a literal. */
    method WordAsValue() returns (r: Option<Json>)
      requires pos <= |chars|
      modifies this`pos
      ensures Reads(r, ReadWord(rules, old(Rest())))
    {
      hide WordLength, WordValue;
      var word := WordAt();
      r := WordValue(rules, word);
    }

    /** The mark after an item: a comma (true), the closing mark (false), or neither. */
    method Mark(close: char) returns (more: Option<bool>)
      requires pos <= |chars| && close != ','
      modifies this`pos
      ensures var t := SkipSpace(old(Rest()));
              && more == (if StartsWith(t, ',') then Some(true) else if StartsWith(t, close) then Some(false) else None)
              && (more.Some? ==> At(t[1..]))
    {
      SkipWhitespace();
      if Sees(',') {
        more := Some(true);
      } else if Sees(close) {
        more := Some(false);
      } else {
        return None;
      }
      assert Rest()[1..] == chars[pos + 1..];
      pos := pos + 1;
    }

    /** The loop over a list's items. */
    method Items() returns (r: Option<seq<Json>>)
      requires pos <= |chars|
      modifies this`pos
      ensures Reads(r, ReadItems(rules, old(Rest())))
      decreases |chars| - pos, 4
    {
      var items: seq<Json> := [];
      ghost var start := Rest();
      PrependNothing(ReadItems(rules, start));
      hide ReadItems, ReadValue, SkipSpace;
      while true
        invariant old(pos) <= pos <= |chars|
        invariant ReadItems(rules, start) == Prepend(items, ReadItems(rules, Rest()))
        decreases |chars| - pos
      {
        ItemsStep(rules, Rest());
        var value := Value();
        if value.None? { return None; }
        var more := Mark(']');
        if more == None { return None; }
        if !more.value { return Some(items + [value.value]); }
        PrependMore(items, value.value, ReadItems(rules, Rest()));
        items := items + [value.value];
      }
    }

    /** The loop over a map's entries. */
    method Entries() returns (r: Option<seq<(string, Json)>>)
      requires pos <= |chars|
      modifies this`pos
      ensures Reads(r, ReadEntries(rules, old(Rest())))
      decreases |chars| - pos, 4
    {
      var entries: seq<(string, Json)> := [];
      ghost var start := Rest();
      PrependNothing(ReadEntries(rules, start));
      hide ReadEntries, ReadValue, ReadString, SkipSpace;
      while true
        invariant old(pos) <= pos <= |chars|
        invariant ReadEntries(rules, start) == Prepend(entries, ReadEntries(rules, Rest()))
        decreases |chars| - pos
      {
        EntriesStep(rules, Rest());
        var key := Key();
        if key.None? { return None; }
        var value := Value();
        if value.None? { return None; }
        var entry := (key.value, value.value);
        var more := Mark('}');
        if more == None { return None; }
        if !more.value { return Some(entries + [entry]); }
        PrependMore(entries, entry, ReadEntries(rules, Rest()));
        entries := entries + [entry];
      }
    }

    /** The key of an entry and its colon. */
    method Key() returns (r: Option<string>)
      requires pos <= |chars|
      modifies this`pos
      ensures Reads(r, ReadKey(old(Rest())))
    {
      hide ReadString;
      SkipWhitespace();
      r := String();
      if r.None? { return; }
      SkipWhitespace();
      if !Sees(':') { return None; }
      assert Rest()[1..] == chars[pos + 1..];
      pos := pos + 1;
    }
  }

  /** What is read later, after what was collected so far. */
  ghost function Prepend<T>(done: seq<T>, r: Option<(seq<T>, string)>): Option<(seq<T>, string)> {
    match r
    case None => None
    case Some((more, end)) => Some((done + more, end))
  }

  ghost function ReadEscape(s: string): (r: Option<(char, string)>)
    ensures r.Some? ==> |r.value.1| < |s|
  {
    if |s| < 2 then None
    else if s[1] == 'u' then ReadUnicode(s[2..])
    else
      var c :- ShortEscape(s[1]);
      Some((c, s[2..]))
  }

  lemma RestStep(s: string)
    ensures s == [] ==> ReadRest(s).None?
    ensures StartsWith(s, '"') ==> ReadRest(s) == Some(([], s[1..]))
    ensures StartsWith(s, '\\') ==>
              var e := ReadEscape(s);
              ReadRest(s) == if e.None? then None else Prepend([e.value.0], ReadRest(e.value.1))
    ensures s != [] && s[0] != '"' && s[0] != '\\' ==> ReadRest(s) == Prepend([s[0]], ReadRest(s[1..]))
  {
    hide ReadUnicode, ShortEscape;
  }

  lemma WordStep(rules: Rules, chars: string, pos: nat)
    requires pos <= |chars|
    ensures WordLength(rules, chars[pos..]) ==
            if pos < |chars| && WordChar(rules, chars[pos]) then 1 + WordLength(rules, chars[pos + 1..]) else 0
  {
    hide WordChar;
    if pos < |chars| { assert chars[pos..][0] == chars[pos] && chars[pos..][1..] == chars[pos + 1..]; }
  }

  /** A list from just past its bracket. */
  ghost function ReadList(rules: Rules, t: string): Option<(Json, string)> {
    var u := SkipSpace(t);
    if StartsWith(u, ']') then Some((List([]), u[1..]))
    else
      var (items, rest) :- ReadItems(rules, u);
      Some((List(items), rest))
  }

  /** A map from just past its brace. */
  ghost function ReadObject(rules: Rules, t: string): Option<(Json, string)> {
    var u := SkipSpace(t);
    if StartsWith(u, '}') then Some((Object([]), u[1..]))
    else
      var (entries, rest) :- ReadEntries(rules, u);
      Some((Object(entries), rest))
  }

  ghost function ReadWord(rules: Rules, t: string): Option<(Json, string)> {
    var k := WordLength(rules, t);
    var value :- WordValue(rules, t[..k]);
    Some((value, t[k..]))
  }

  /** What a value is, by its first character. */
  lemma ValueStep(rules: Rules, s: string)
    ensures var t := SkipSpace(s);
            ReadValue(rules, s) ==
            if t == [] then None
            else if t[0] == '[' then ReadList(rules, t[1..])
            else if t[0] == '{' then ReadObject(rules, t[1..])
            else if t[0] == '"' then
              match ReadString(t)
              case None => None
              case Some((text, rest)) => Some((Str(text), rest))
            else ReadWord(rules, t)
  {
    hide ReadItems, ReadEntries, ReadString, WordValue, WordLength;
  }

  /** The items once one value is read, by the mark after it. */
  ghost function ItemsAfter(rules: Rules, value: Json, rest: string): Option<(seq<Json>, string)> {
    var t := SkipSpace(rest);
    if StartsWith(t, ',') then Prepend([value], ReadItems(rules, t[1..]))
    else if StartsWith(t, ']') then Some(([value], t[1..]))
    else None
  }

  lemma ItemsStep(rules: Rules, s: string)
    ensures var r := ReadValue(rules, s);
            ReadItems(rules, s) == if r.None? then None else ItemsAfter(rules, r.value.0, r.value.1)
  {
    hide ReadValue;
  }

  /** The entries once one is read, by the mark after it. */
  ghost function EntriesAfter(rules: Rules, entry: (string, Json), rest: string)
    : Option<(seq<(string, Json)>, string)>
  {
    var u := SkipSpace(rest);
    if StartsWith(u, ',') then Prepend([entry], ReadEntries(rules, u[1..]))
    else if StartsWith(u, '}') then Some(([entry], u[1..]))
    else None
  }

  /** A key with the colon after it. */
  ghost function ReadKey(s: string): (r: Option<(string, string)>)
    ensures r.Some? ==> |r.value.1| < |s|
  {
    var (key, rest) :- ReadString(SkipSpace(s));
    var t := SkipSpace(rest);
    if StartsWith(t, ':') then Some((key, t[1..])) else None
  }

  lemma EntriesStep(rules: Rules, s: string)
    ensures var k := ReadKey(s);
            ReadEntries(rules, s) ==
            if k.None? then None
            else
              var r := ReadValue(rules, k.value.1);
              if r.None? then None else EntriesAfter(rules, (k.value.0, r.value.0), r.value.1)
  {
    hide ReadValue, ReadString;
  }

  lemma PrependNothing<T>(r: Option<(seq<T>, string)>)
    ensures Prepend([], r) == r
  {
    if r.Some? { assert [] + r.value.0 == r.value.0; }
  }

  lemma PrependMore<T>(done: seq<T>, x: T, r: Option<(seq<T>, string)>)
    ensures Prepend(done + [x], r) == Prepend(done, Prepend([x], r))
  {
    if r.Some? {
      assert done + [x] + r.value.0 == done + ([x] + r.value.0);
    }
  }

  /** json_param_to_value_code. */
  method ReadParam(text: string, rules: Rules) returns (r: Option<Json>)
    ensures r == ReadJson(rules, text)
  {
    var cursor := new Cursor(text, rules);
    assert cursor.Rest() == text;
    r := cursor.Value();
    if r.None? { return; }
    cursor.SkipWhitespace();
    if cursor.pos != |cursor.chars| {
      assert cursor.Rest() != [];
      r := None;
    }
  }
}
