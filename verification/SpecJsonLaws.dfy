/** Every way to write a JSON value, and that the reader accepts exactly those, as that value. */
module SpecJsonLaws {
  import opened Options
  import opened Text
  import opened Numbers
  import opened SpecJson

  // ---- written forms

  /** One character of a string as written: itself, a one letter escape, a \u escape or a surrogate pair. */
  datatype Piece = Raw(c: char) | Short(c: char) | Code(hex: string) | Pair(high: string, low: string)

  /** A value as written, with its choice of spaces and escapes. */
  datatype Form =
    | Word(text: string)
    | Quoted(pieces: seq<Piece>)
    | ListOf(spaces: string, items: seq<Spaced>)
    | ObjectOf(spaces: string, members: seq<Member>)

  datatype Spaced = Spaced(before: string, form: Form, after: string)

  datatype Member = Member(before: string, key: seq<Piece>, middle: string, value: Spaced)

  predicate AllSpace(s: string) {
    forall i :: 0 <= i < |s| ==> IsSpace(s[i])
  }

  predicate ValidPiece(p: Piece) {
    match p
    case Raw(c) => c != '"' && c != '\\'
    case Short(c) => ShortEscape(c).Some?
    case Code(hex) => IsHex4(hex) && !IsHigh(Hex4Value(hex)) && !IsLow(Hex4Value(hex))
    case Pair(high, low) => IsHex4(high) && IsHigh(Hex4Value(high)) && IsHex4(low) && IsLow(Hex4Value(low))
  }

  predicate ValidPieces(pieces: seq<Piece>) {
    forall i :: 0 <= i < |pieces| ==> ValidPiece(pieces[i])
  }

  /** The text of a piece, followed by k. */
  function WritePiece(p: Piece, k: string): string {
    match p
    case Raw(c) => [c] + k
    case Short(c) => ['\\', c] + k
    case Code(hex) => ['\\', 'u'] + (hex + k)
    case Pair(high, low) => ['\\', 'u'] + (high + (['\\', 'u'] + (low + k)))
  }

  /** The character a piece stands for. */
  function PieceChar(p: Piece): char
    requires ValidPiece(p)
  {
    match p
    case Raw(c) => c
    case Short(c) => ShortEscape(c).value
    case Code(hex) => Hex4Value(hex) as char
    case Pair(high, low) => PairCode(Hex4Value(high), Hex4Value(low)) as char
  }

  /** The pieces and the closing quote, followed by k. */
  function WritePieces(pieces: seq<Piece>, k: string): string {
    if pieces == [] then ['"'] + k else WritePiece(pieces[0], WritePieces(pieces[1..], k))
  }

  function PiecesChars(pieces: seq<Piece>): string
    requires ValidPieces(pieces)
  {
    if pieces == [] then [] else [PieceChar(pieces[0])] + PiecesChars(pieces[1..])
  }

  predicate Valid(rules: Rules, f: Form)
    decreases f, 0
  {
    match f
    case Word(text) => WordValue(rules, text).Some?
    case Quoted(pieces) => ValidPieces(pieces)
    case ListOf(spaces, items) => AllSpace(spaces) && ValidItems(rules, items)
    case ObjectOf(spaces, members) => AllSpace(spaces) && ValidMembers(rules, members)
  }

  predicate ValidItems(rules: Rules, items: seq<Spaced>)
    decreases items, 0
  {
    items == [] || (ValidSpaced(rules, items[0]) && ValidItems(rules, items[1..]))
  }

  predicate ValidSpaced(rules: Rules, s: Spaced)
    decreases s, 0
  {
    AllSpace(s.before) && Valid(rules, s.form) && AllSpace(s.after)
  }

  predicate ValidMembers(rules: Rules, members: seq<Member>)
    decreases members, 0
  {
    members == [] ||
    (AllSpace(members[0].before) && ValidPieces(members[0].key) && AllSpace(members[0].middle) &&
     ValidSpaced(rules, members[0].value) && ValidMembers(rules, members[1..]))
  }

  /** The text of a form, followed by k. */
  function Write(f: Form, k: string): string
    decreases f, 0
  {
    match f
    case Word(text) => text + k
    case Quoted(pieces) => ['"'] + WritePieces(pieces, k)
    case ListOf(spaces, items) => ['['] + (if items == [] then spaces + ([']'] + k) else WriteItems(items, k))
    case ObjectOf(spaces, members) =>
      ['{'] + (if members == [] then spaces + (['}'] + k) else WriteMembers(members, k))
  }

  /** Items with commas between them and the closing bracket, followed by k. */
  function WriteItems(items: seq<Spaced>, k: string): string
    requires items != []
    decreases items, 0
  {
    var s := items[0];
    s.before + Write(s.form, s.after + (if |items| == 1 then [']'] + k else [','] + WriteItems(items[1..], k)))
  }

  /** Members with commas between them and the closing brace, followed by k. */
  function WriteMembers(members: seq<Member>, k: string): string
    requires members != []
    decreases members, 0
  {
    var m := members[0];
    var next := m.value.after + (if |members| == 1 then ['}'] + k else [','] + WriteMembers(members[1..], k));
    m.before + (['"'] + WritePieces(m.key, m.middle + ([':'] + (m.value.before + Write(m.value.form, next)))))
  }

  /** The value a written form stands for. */
  function Meaning(rules: Rules, f: Form): Json
    requires Valid(rules, f)
    decreases f, 0
  {
    match f
    case Word(text) => WordValue(rules, text).value
    case Quoted(pieces) => Str(PiecesChars(pieces))
    case ListOf(_, items) => List(ItemMeanings(rules, items))
    case ObjectOf(_, members) => Object(MemberMeanings(rules, members))
  }

  function ItemMeanings(rules: Rules, items: seq<Spaced>): seq<Json>
    requires ValidItems(rules, items)
    decreases items, 0
  {
    if items == [] then []
    else
      assert ValidSpaced(rules, items[0]);
      [Meaning(rules, items[0].form)] + ItemMeanings(rules, items[1..])
  }

  function MemberMeanings(rules: Rules, members: seq<Member>): seq<(string, Json)>
    requires ValidMembers(rules, members)
    decreases members, 0
  {
    if members == [] then []
    else
      assert ValidSpaced(rules, members[0].value);
      [(PiecesChars(members[0].key), Meaning(rules, members[0].value.form))] + MemberMeanings(rules, members[1..])
  }

  // ---- what is written reads back

  lemma {:induction false} SkipSpaceOver(spaces: string, s: string)
    requires AllSpace(spaces)
    ensures SkipSpace(spaces + s) == SkipSpace(s)
  {
    if spaces == [] {
      assert spaces + s == s;
    } else {
      assert (spaces + s)[1..] == spaces[1..] + s;
      SkipSpaceOver(spaces[1..], s);
    }
  }

  lemma ReadHex4Of(hex: string, k: string)
    requires IsHex4(hex)
    ensures ReadHex4(hex + k) == Some((Hex4Value(hex), k))
  {
    assert (hex + k)[..4] == hex && (hex + k)[4..] == k;
  }

  lemma {:induction false} PieceReads(p: Piece, k: string)
    requires ValidPiece(p)
    ensures ReadRest(WritePiece(p, k)) ==
            match ReadRest(k)
            case None => None
            case Some((text, end)) => Some(([PieceChar(p)] + text, end))
  {
    var s := WritePiece(p, k);
    match p
    case Raw(c) => assert s[1..] == k;
    case Short(c) => assert s[2..] == k && c != 'u';
    case Code(hex) =>
      assert s[2..] == hex + k;
      ReadHex4Of(hex, k);
    case Pair(high, low) =>
      var rest := ['\\', 'u'] + (low + k);
      assert s[2..] == high + rest && rest[2..] == low + k;
      ReadHex4Of(high, rest);
      ReadHex4Of(low, k);
  }

  lemma {:induction false} PiecesRead(pieces: seq<Piece>, k: string)
    requires ValidPieces(pieces)
    ensures ReadRest(WritePieces(pieces, k)) == Some((PiecesChars(pieces), k))
  {
    if pieces == [] {
      assert (['"'] + k)[1..] == k;
    } else {
      hide ReadRest, WritePiece;
      PiecesRead(pieces[1..], k);
      PieceReads(pieces[0], WritePieces(pieces[1..], k));
    }
  }

  lemma StringReads(pieces: seq<Piece>, k: string)
    requires ValidPieces(pieces)
    ensures ReadString(['"'] + WritePieces(pieces, k)) == Some((PiecesChars(pieces), k))
  {
    hide ReadRest;
    var s := ['"'] + WritePieces(pieces, k);
    assert s[1..] == WritePieces(pieces, k);
    PiecesRead(pieces, k);
  }

  /** A text that does not go on a bare word. */
  predicate EndsWord(rules: Rules, k: string) {
    k == [] || !WordChar(rules, k[0])
  }

  lemma WordLengthIs(rules: Rules, s: string, k: nat)
    requires k <= |s| && (k < |s| ==> !WordChar(rules, s[k]))
    requires forall i :: 0 <= i < k ==> WordChar(rules, s[i])
    ensures WordLength(rules, s) == k
  {
  }

  lemma WordChars(rules: Rules, word: string)
    requires Lawful(rules) && WordValue(rules, word).Some?
    ensures forall i :: 0 <= i < |word| ==> WordChar(rules, word[i])
    ensures word != [] && !IsSpace(word[0]) && word[0] !in {'[', ']', '{', '}', '"', ','}
  {
    if IsJsonNumber(word) { JsonNumberChars(word); }
  }

  lemma WordReads(rules: Rules, word: string, k: string)
    requires Lawful(rules) && WordValue(rules, word).Some? && EndsWord(rules, k)
    ensures ReadValue(rules, word + k) == Some((WordValue(rules, word).value, k))
  {
    hide WordValue;
    WordChars(rules, word);
    var s := word + k;
    assert s[0] == word[0] && SkipSpace(s) == s;
    WordLengthIs(rules, s, |word|);
    assert s[..|word|] == word && s[|word|..] == k;
  }

  /** No written value starts with a space, a comma or a closing bracket. */
  lemma WriteHead(rules: Rules, f: Form, k: string)
    requires Lawful(rules) && Valid(rules, f)
    ensures var s := Write(f, k); s != [] && !IsSpace(s[0]) && s[0] != ']' && s[0] != '}'
  {
    if f.Word? { WordChars(rules, f.text); }
  }

  lemma ReadValueSkips(rules: Rules, spaces: string, s: string)
    requires AllSpace(spaces)
    ensures ReadValue(rules, spaces + s) == ReadValue(rules, s)
  {
    hide ReadItems, ReadEntries, ReadString, WordValue;
    SkipSpaceOver(spaces, s);
  }

  lemma {:induction false} FormReads(rules: Rules, f: Form, k: string)
    requires Lawful(rules) && Valid(rules, f) && (f.Word? ==> EndsWord(rules, k))
    ensures ReadValue(rules, Write(f, k)) == Some((Meaning(rules, f), k))
    decreases f, 1
  {
    var s := Write(f, k);
    match f
    case Word(text) => WordReads(rules, text, k);
    case Quoted(pieces) =>
      StringReads(pieces, k);
      assert SkipSpace(s) == s;
    case ListOf(spaces, items) =>
      if items == [] {
        EmptyReads(rules, '[', ']', spaces, k);
      } else {
        ItemsRead(rules, items, k);
        ItemsHead(rules, items, k);
        ListReads(rules, WriteItems(items, k));
      }
    case ObjectOf(spaces, members) =>
      if members == [] {
        EmptyReads(rules, '{', '}', spaces, k);
      } else {
        MembersRead(rules, members, k);
        MembersHead(rules, members, k);
        ObjectReads(rules, WriteMembers(members, k));
      }
  }

  lemma EmptyReads(rules: Rules, open: char, close: char, spaces: string, k: string)
    requires AllSpace(spaces) && ((open == '[' && close == ']') || (open == '{' && close == '}'))
    ensures ReadValue(rules, [open] + (spaces + ([close] + k))) ==
            Some((if open == '[' then List([]) else Object([]), k))
  {
    hide ReadItems, ReadEntries, ReadString, WordValue;
    var s := [open] + (spaces + ([close] + k));
    assert SkipSpace(s) == s && s[1..] == spaces + ([close] + k);
    SkipSpaceOver(spaces, [close] + k);
    assert SkipSpace([close] + k) == [close] + k && ([close] + k)[1..] == k;
  }

  /** A list that does not close at once is read as its items. */
  lemma ListReads(rules: Rules, t: string)
    requires !StartsWith(SkipSpace(t), ']')
    ensures ReadValue(rules, ['['] + t) ==
            match ReadItems(rules, t)
            case None => None
            case Some((items, rest)) => Some((List(items), rest))
  {
    var s := ['['] + t;
    assert SkipSpace(s) == s && s[1..] == t;
    assert SkipSpace(SkipSpace(t)) == SkipSpace(t);
    ItemsSkip(rules, t);
  }

  lemma ObjectReads(rules: Rules, t: string)
    requires !StartsWith(SkipSpace(t), '}')
    ensures ReadValue(rules, ['{'] + t) ==
            match ReadEntries(rules, t)
            case None => None
            case Some((entries, rest)) => Some((Object(entries), rest))
  {
    hide ReadItems, ReadString, WordValue;
    var s := ['{'] + t;
    assert SkipSpace(s) == s && s[1..] == t;
    assert SkipSpace(SkipSpace(t)) == SkipSpace(t);
    EntriesSkip(rules, t);
  }

  lemma ItemsSkip(rules: Rules, t: string)
    ensures ReadItems(rules, SkipSpace(t)) == ReadItems(rules, t)
  {
    ValueSkip(rules, t);
    hide ReadValue;
  }

  lemma ValueSkip(rules: Rules, t: string)
    ensures ReadValue(rules, SkipSpace(t)) == ReadValue(rules, t)
  {
    hide ReadItems, ReadEntries, ReadString, WordValue;
    assert SkipSpace(SkipSpace(t)) == SkipSpace(t);
  }

  lemma EntriesSkip(rules: Rules, t: string)
    ensures ReadEntries(rules, SkipSpace(t)) == ReadEntries(rules, t)
  {
    hide ReadValue, ReadString;
    assert SkipSpace(SkipSpace(t)) == SkipSpace(t);
  }

  lemma ItemsHead(rules: Rules, items: seq<Spaced>, k: string)
    requires Lawful(rules) && items != [] && ValidItems(rules, items)
    ensures !StartsWith(SkipSpace(WriteItems(items, k)), ']')
  {
    var s := items[0];
    assert ValidSpaced(rules, s);
    var next := s.after + (if |items| == 1 then [']'] + k else [','] + WriteItems(items[1..], k));
    hide Write, Valid;
    SkipSpaceOver(s.before, Write(s.form, next));
    WriteHead(rules, s.form, next);
  }

  lemma MembersHead(rules: Rules, members: seq<Member>, k: string)
    requires members != [] && ValidMembers(rules, members)
    ensures !StartsWith(SkipSpace(WriteMembers(members, k)), '}')
  {
    var m := members[0];
    var next := m.value.after + (if |members| == 1 then ['}'] + k else [','] + WriteMembers(members[1..], k));
    var quoted := ['"'] + WritePieces(m.key, m.middle + ([':'] + (m.value.before + Write(m.value.form, next))));
    SkipSpaceOver(m.before, quoted);
    assert SkipSpace(quoted) == quoted;
  }

  /** What stands after an item: spaces, then a comma or the closing mark, and never more of a word. */
  lemma AfterItem(rules: Rules, after: string, mark: char, k: string)
    requires Lawful(rules) && AllSpace(after) && mark in {',', ']', '}'}
    ensures EndsWord(rules, after + ([mark] + k))
    ensures SkipSpace(after + ([mark] + k)) == [mark] + k && ([mark] + k)[1..] == k
  {
    SkipSpaceOver(after, [mark] + k);
  }

  lemma {:induction false} ItemsRead(rules: Rules, items: seq<Spaced>, k: string)
    requires Lawful(rules) && items != [] && ValidItems(rules, items)
    ensures ReadItems(rules, WriteItems(items, k)) == Some((ItemMeanings(rules, items), k))
    decreases items, 1
  {
    var s := items[0];
    assert ValidSpaced(rules, s);
    var more := items[1..];
    var mark := if |items| == 1 then ']' else ',';
    var end := if |items| == 1 then k else WriteItems(more, k);
    var next := s.after + ([mark] + end);
    AfterItem(rules, s.after, mark, end);
    FormReads(rules, s.form, next);
    ReadValueSkips(rules, s.before, Write(s.form, next));
    if |items| > 1 {
      ItemsRead(rules, more, k);
    } else {
      assert more == [];
    }
    assert ItemMeanings(rules, items) == [Meaning(rules, s.form)] + ItemMeanings(rules, more);
    hide Write, ReadValue, Valid, Meaning, ItemMeanings;
    assert WriteItems(items, k) == s.before + Write(s.form, next);
    if |items| == 1 { NoItems(rules, Meaning(rules, s.form)); }
  }

  lemma NoItems(rules: Rules, v: Json)
    ensures [v] + ItemMeanings(rules, []) == [v]
  {
  }

  lemma {:induction false} MembersRead(rules: Rules, members: seq<Member>, k: string)
    requires Lawful(rules) && members != [] && ValidMembers(rules, members)
    ensures ReadEntries(rules, WriteMembers(members, k)) == Some((MemberMeanings(rules, members), k))
    decreases members, 1
  {
    var m := members[0];
    assert ValidSpaced(rules, m.value);
    var more := members[1..];
    var mark := if |members| == 1 then '}' else ',';
    var end := if |members| == 1 then k else WriteMembers(more, k);
    var next := m.value.after + ([mark] + end);
    AfterItem(rules, m.value.after, mark, end);
    FormReads(rules, m.value.form, next);
    ReadValueSkips(rules, m.value.before, Write(m.value.form, next));
    if |members| > 1 {
      MembersRead(rules, more, k);
    } else {
      assert more == [];
    }
    var value := m.value.before + Write(m.value.form, next);
    assert WriteMembers(members, k) == m.before + (['"'] + WritePieces(m.key, m.middle + ([':'] + value)));
    var v := Meaning(rules, m.value.form);
    assert MemberMeanings(rules, members) == [(PiecesChars(m.key), v)] + MemberMeanings(rules, more);
    hide *;
    EntryReads(rules, m, value, v, next);
    if |members| == 1 { NoMembers(rules, (PiecesChars(m.key), v)); }
  }

  lemma NoMembers(rules: Rules, entry: (string, Json))
    ensures [entry] + MemberMeanings(rules, []) == [entry]
  {
  }

  /** One entry of a map, its value known, and what the mark after it makes of the rest. */
  lemma EntryReads(rules: Rules, m: Member, value: string, v: Json, next: string)
    requires AllSpace(m.before) && ValidPieces(m.key) && AllSpace(m.middle)
    requires ReadValue(rules, value) == Some((v, next))
    ensures var entry := (PiecesChars(m.key), v);
            var u := SkipSpace(next);
            ReadEntries(rules, m.before + (['"'] + WritePieces(m.key, m.middle + ([':'] + value)))) ==
            if StartsWith(u, ',') then
              match ReadEntries(rules, u[1..])
              case None => None
              case Some((more, end)) => Some(([entry] + more, end))
            else if StartsWith(u, '}') then Some(([entry], u[1..]))
            else None
  {
    hide ReadValue, WritePieces, ReadString, PiecesChars;
    var rest := m.middle + ([':'] + value);
    var key := ['"'] + WritePieces(m.key, rest);
    SkipSpaceOver(m.before, key);
    assert SkipSpace(key) == key;
    StringReads(m.key, rest);
    SkipSpaceOver(m.middle, [':'] + value);
    assert SkipSpace([':'] + value) == [':'] + value && ([':'] + value)[1..] == value;
  }

  /** Parsing any written form of a value, with any spaces and escapes, gives that value back. */
  lemma {:induction false} WrittenReads(rules: Rules, doc: Spaced)
    requires Lawful(rules) && ValidSpaced(rules, doc)
    ensures ReadJson(rules, doc.before + Write(doc.form, doc.after)) == Some(Meaning(rules, doc.form))
  {
    assert EndsWord(rules, doc.after) by { assert doc.after == [] || IsSpace(doc.after[0]); }
    FormReads(rules, doc.form, doc.after);
    hide Write, ReadValue, Valid, Meaning;
    ReadValueSkips(rules, doc.before, Write(doc.form, doc.after));
    SkipSpaceOver(doc.after, []);
    assert doc.after + [] == doc.after;
  }

  // ---- what reads was written

  lemma {:induction false} SpacesOf(s: string) returns (spaces: string)
    ensures AllSpace(spaces) && s == spaces + SkipSpace(s)
  {
    if s != [] && IsSpace(s[0]) {
      var more := SpacesOf(s[1..]);
      spaces := [s[0]] + more;
    } else {
      spaces := [];
    }
  }

  lemma {:induction false} PiecesOf(s: string) returns (pieces: seq<Piece>)
    requires ReadRest(s).Some?
    ensures ValidPieces(pieces) && s == WritePieces(pieces, ReadRest(s).value.1)
    ensures PiecesChars(pieces) == ReadRest(s).value.0
    decreases |s|
  {
    var k := ReadRest(s).value.1;
    if s[0] == '"' {
      pieces := [];
      assert s == ['"'] + s[1..];
    } else {
      var p, rest := PieceOf(s);
      var more := PiecesOf(rest);
      pieces := [p] + more;
      assert pieces[1..] == more;
      PieceReads(p, rest);
    }
  }

  /** The first piece of a string's text. */
  lemma PieceOf(s: string) returns (p: Piece, rest: string)
    requires ReadRest(s).Some? && s[0] != '"'
    ensures ValidPiece(p) && s == WritePiece(p, rest) && ReadRest(rest).Some? && |rest| < |s|
  {
    if s[0] == '\\' {
      if s[1] == 'u' {
        p, rest := UnicodeOf(s[2..]);
        assert s == ['\\', 'u'] + s[2..];
      } else {
        p, rest := Short(s[1]), s[2..];
        assert s == ['\\', s[1]] + rest;
      }
    } else {
      p, rest := Raw(s[0]), s[1..];
      assert s == [s[0]] + rest;
    }
  }

  lemma UnicodeOf(s: string) returns (p: Piece, rest: string)
    requires ReadUnicode(s).Some?
    ensures ValidPiece(p) && (p.Code? || p.Pair?) && ['\\', 'u'] + s == WritePiece(p, rest)
    ensures rest == ReadUnicode(s).value.1
  {
    var high, more := s[..4], s[4..];
    assert s == high + more;
    if IsHigh(Hex4Value(high)) {
      var low := more[2..][..4];
      rest := more[2..][4..];
      p := Pair(high, low);
      assert more == ['\\', 'u'] + more[2..] && more[2..] == low + rest;
    } else {
      p, rest := Code(high), more;
    }
  }

  /** char::from_u32 never fails on a code the reader gives it, an accepted pair's or a single one's; and
      the pairs stand for exactly the characters above U+FFFF, one pair for each. */
  lemma CodesAreChars(high: nat, low: nat, code: nat)
    requires IsHigh(high) && IsLow(low) && code <= 0xFFFF && !IsHigh(code) && !IsLow(code)
    ensures FromU32(code).Some? && FromU32(code).value as int == code
    ensures FromU32(PairCode(high, low)).Some?
    ensures var c := FromU32(PairCode(high, low)).value as int;
            c > 0xFFFF && high == 0xD800 + (c - 0x10000) / 0x400 && low == 0xDC00 + (c - 0x10000) % 0x400
  {
  }

  lemma CharIsPair(c: char)
    requires c as int > 0xFFFF
    ensures var high, low := 0xD800 + (c as int - 0x10000) / 0x400, 0xDC00 + (c as int - 0x10000) % 0x400;
            IsHigh(high) && IsLow(low) && FromU32(PairCode(high, low)) == Some(c)
  {
  }

  /** A \u escape is refused exactly when it is no four hex digits, or a surrogate out of place. */
  lemma {:induction false} UnicodeExact(s: string)
    ensures ReadUnicode(s).Some? <==>
            && |s| >= 4 && IsHex4(s[..4])
            && var n := Hex4Value(s[..4]);
            && !IsLow(n)
            && (IsHigh(n) ==> |s| >= 10 && s[4..6] == ['\\', 'u'] && IsHex4(s[6..10]) && IsLow(Hex4Value(s[6..10])))
  {
    if |s| >= 4 {
      var rest := s[4..];
      if |s| >= 6 {
        assert s[4..6] == [rest[0], rest[1]];
        if |s| >= 10 { assert rest[2..][..4] == s[6..10]; }
      }
    }
  }

  lemma {:induction false} FormOf(rules: Rules, s: string) returns (before: string, f: Form)
    requires ReadValue(rules, s).Some?
    ensures AllSpace(before) && Valid(rules, f) && (f.Word? ==> EndsWord(rules, ReadValue(rules, s).value.1))
    ensures s == before + Write(f, ReadValue(rules, s).value.1)
    ensures Meaning(rules, f) == ReadValue(rules, s).value.0
    decreases |s|, 1
  {
    hide Write, Valid, Meaning, ReadItems, ReadEntries, ReadString, WordValue;
    before := SpacesOf(s);
    var t := SkipSpace(s);
    ValueSkip(rules, s);
    if t == [] {
      assert false;
    } else if t[0] == '[' {
      f := ListFormOf(rules, t);
    } else if t[0] == '{' {
      f := ObjectFormOf(rules, t);
    } else if t[0] == '"' {
      f := StringFormOf(rules, t);
    } else {
      f := WordFormOf(rules, t);
    }
  }

  lemma StringFormOf(rules: Rules, t: string) returns (f: Form)
    requires ReadValue(rules, t).Some? && StartsWith(t, '"')
    ensures Valid(rules, f) && !f.Word? && t == Write(f, ReadValue(rules, t).value.1)
    ensures Meaning(rules, f) == ReadValue(rules, t).value.0
  {
    hide ReadRest, WritePieces, PiecesChars;
    assert SkipSpace(t) == t;
    var pieces := PiecesOf(t[1..]);
    f := Quoted(pieces);
    assert t == ['"'] + t[1..];
  }

  lemma WordFormOf(rules: Rules, t: string) returns (f: Form)
    requires ReadValue(rules, t).Some? && t != [] && SkipSpace(t) == t && t[0] !in {'[', '{', '"'}
    ensures Valid(rules, f) && f.Word? && t == Write(f, ReadValue(rules, t).value.1)
    ensures Meaning(rules, f) == ReadValue(rules, t).value.0 && EndsWord(rules, ReadValue(rules, t).value.1)
  {
    hide WordValue;
    var n := WordLength(rules, t);
    f := Word(t[..n]);
    assert t == t[..n] + t[n..];
  }

  lemma NothingInside(rules: Rules)
    ensures AllSpace([]) && ValidItems(rules, []) && ItemMeanings(rules, []) == []
    ensures ValidMembers(rules, []) && MemberMeanings(rules, []) == []
  {
  }

  lemma {:induction false} ListFormOf(rules: Rules, t: string) returns (f: Form)
    requires ReadValue(rules, t).Some? && StartsWith(t, '[')
    ensures Valid(rules, f) && !f.Word? && t == Write(f, ReadValue(rules, t).value.1)
    ensures Meaning(rules, f) == ReadValue(rules, t).value.0
    decreases |t|, 0
  {
    hide ReadItems, WriteItems, ReadValue, SkipSpace, ItemMeanings, ValidItems;
    assert t == ['['] + t[1..];
    NothingInside(rules);
    var u := SkipSpace(t[1..]);
    if StartsWith(u, ']') {
      var spaces := SpacesOf(t[1..]);
      assert u == [']'] + u[1..];
      EmptyReads(rules, '[', ']', spaces, u[1..]);
      f := ListOf(spaces, []);
    } else {
      ListReads(rules, t[1..]);
      var items := ItemsOf(rules, t[1..]);
      f := ListOf([], items);
    }
  }

  lemma {:induction false} ObjectFormOf(rules: Rules, t: string) returns (f: Form)
    requires ReadValue(rules, t).Some? && StartsWith(t, '{')
    ensures Valid(rules, f) && !f.Word? && t == Write(f, ReadValue(rules, t).value.1)
    ensures Meaning(rules, f) == ReadValue(rules, t).value.0
    decreases |t|, 0
  {
    hide ReadEntries, WriteMembers, ReadValue, SkipSpace, MemberMeanings, ValidMembers;
    assert t == ['{'] + t[1..];
    NothingInside(rules);
    var u := SkipSpace(t[1..]);
    if StartsWith(u, '}') {
      var spaces := SpacesOf(t[1..]);
      assert u == ['}'] + u[1..];
      EmptyReads(rules, '{', '}', spaces, u[1..]);
      f := ObjectOf(spaces, []);
    } else {
      ObjectReads(rules, t[1..]);
      var members := MembersOf(rules, t[1..]);
      f := ObjectOf([], members);
    }
  }

  lemma {:induction false} ItemsOf(rules: Rules, s: string) returns (items: seq<Spaced>)
    requires ReadItems(rules, s).Some?
    ensures items != [] && ValidItems(rules, items)
    ensures s == WriteItems(items, ReadItems(rules, s).value.1)
    ensures ItemMeanings(rules, items) == ReadItems(rules, s).value.0
    decreases |s|, 2
  {
    hide Write, ReadValue, Meaning, Valid, SkipSpace;
    var before, f := FormOf(rules, s);
    var rest := ReadValue(rules, s).value.1;
    var after := SpacesOf(rest);
    var t := SkipSpace(rest);
    var item := Spaced(before, f, after);
    assert ValidSpaced(rules, item);
    if StartsWith(t, ',') {
      assert t == [','] + t[1..];
      var more := ItemsOf(rules, t[1..]);
      items := [item] + more;
      ItemMore(rules, item, more, ReadItems(rules, t[1..]).value.1);
    } else {
      assert t == [']'] + t[1..];
      items := [item];
      ItemLast(rules, item, t[1..]);
    }
  }

  /** An item before others, as written and as meant. */
  lemma ItemMore(rules: Rules, item: Spaced, more: seq<Spaced>, k: string)
    requires ValidSpaced(rules, item) && more != [] && ValidItems(rules, more)
    ensures ValidItems(rules, [item] + more)
    ensures WriteItems([item] + more, k) == item.before + Write(item.form, item.after + ([','] + WriteItems(more, k)))
    ensures ItemMeanings(rules, [item] + more) == [Meaning(rules, item.form)] + ItemMeanings(rules, more)
  {
    hide Write, Meaning, Valid;
    assert ([item] + more)[1..] == more;
  }

  lemma ItemLast(rules: Rules, item: Spaced, k: string)
    requires ValidSpaced(rules, item)
    ensures ValidItems(rules, [item])
    ensures WriteItems([item], k) == item.before + Write(item.form, item.after + ([']'] + k))
    ensures ItemMeanings(rules, [item]) == [Meaning(rules, item.form)]
  {
    hide Write, Meaning, Valid;
    assert [item][1..] == [];
    NoItems(rules, Meaning(rules, item.form));
  }

  lemma {:induction false} MembersOf(rules: Rules, s: string) returns (members: seq<Member>)
    requires ReadEntries(rules, s).Some?
    ensures members != [] && ValidMembers(rules, members)
    ensures s == WriteMembers(members, ReadEntries(rules, s).value.1)
    ensures MemberMeanings(rules, members) == ReadEntries(rules, s).value.0
    decreases |s|, 2
  {
    hide Write, ReadValue, Meaning, Valid, WritePieces, PiecesChars, ReadString, ReadEntries, SkipSpace;
    var before, key, middle, text := KeyOf(rules, s);
    var inner, f := FormOf(rules, text);
    var rest := ReadValue(rules, text).value.1;
    var after := SpacesOf(rest);
    var t := SkipSpace(rest);
    var m := Member(before, key, middle, Spaced(inner, f, after));
    assert ValidSpaced(rules, m.value);
    EntryReads(rules, m, text, Meaning(rules, f), rest);
    if StartsWith(t, ',') {
      assert t == [','] + t[1..];
      var more := MembersOf(rules, t[1..]);
      members := [m] + more;
      MemberMore(rules, m, more, ReadEntries(rules, t[1..]).value.1);
    } else {
      assert t == ['}'] + t[1..];
      members := [m];
      MemberLast(rules, m, t[1..]);
    }
  }

  /** A member before others, as written and as meant. */
  lemma MemberMore(rules: Rules, m: Member, more: seq<Member>, k: string)
    requires AllSpace(m.before) && ValidPieces(m.key) && AllSpace(m.middle) && ValidSpaced(rules, m.value)
    requires more != [] && ValidMembers(rules, more)
    ensures ValidMembers(rules, [m] + more)
    ensures WriteMembers([m] + more, k) == MemberText(m, [','] + WriteMembers(more, k))
    ensures MemberMeanings(rules, [m] + more) ==
            [(PiecesChars(m.key), Meaning(rules, m.value.form))] + MemberMeanings(rules, more)
  {
    hide Write, Meaning, Valid, WritePieces, PiecesChars;
    assert ([m] + more)[1..] == more;
  }

  lemma MemberLast(rules: Rules, m: Member, k: string)
    requires AllSpace(m.before) && ValidPieces(m.key) && AllSpace(m.middle) && ValidSpaced(rules, m.value)
    ensures ValidMembers(rules, [m])
    ensures WriteMembers([m], k) == MemberText(m, ['}'] + k)
    ensures MemberMeanings(rules, [m]) == [(PiecesChars(m.key), Meaning(rules, m.value.form))]
  {
    hide Write, Meaning, Valid, WritePieces, PiecesChars;
    assert [m][1..] == [];
    NoMembers(rules, (PiecesChars(m.key), Meaning(rules, m.value.form)));
  }

  /** The text of a member, with what comes after its value and the spaces behind it. */
  function MemberText(m: Member, k: string): string {
    m.before + (['"'] + WritePieces(m.key, m.middle +
      ([':'] + (m.value.before + Write(m.value.form, m.value.after + k)))))
  }

  /** The key at the start of an entry, and the text of its value. */
  lemma KeyOf(rules: Rules, s: string) returns (before: string, key: seq<Piece>, middle: string, text: string)
    requires ReadEntries(rules, s).Some?
    ensures AllSpace(before) && ValidPieces(key) && AllSpace(middle)
    ensures s == before + (['"'] + WritePieces(key, middle + ([':'] + text)))
    ensures ReadValue(rules, text).Some? && |text| < |s|
  {
    hide ReadValue, ReadRest, WritePieces, PiecesChars, SkipSpace, AllSpace, ValidPieces;
    before := SpacesOf(s);
    var q := SkipSpace(s);
    assert q == ['"'] + q[1..];
    key := PiecesOf(q[1..]);
    var rest := ReadString(q).value.1;
    middle := SpacesOf(rest);
    var colon := SkipSpace(rest);
    text := colon[1..];
    assert colon == [':'] + text;
  }

  /** The reader accepts a text as v exactly when the text is a written form of v. */
  lemma {:induction false} ReadExactly(rules: Rules, text: string, v: Json)
    requires Lawful(rules)
    ensures ReadJson(rules, text) == Some(v) <==>
            exists doc :: ValidSpaced(rules, doc) && text == doc.before + Write(doc.form, doc.after) &&
                          Meaning(rules, doc.form) == v
  {
    if ReadJson(rules, text) == Some(v) {
      var before, f := FormOf(rules, text);
      var rest := ReadValue(rules, text).value.1;
      var after := SpacesOf(rest);
      assert rest == after;
      var doc := Spaced(before, f, after);
      assert ValidSpaced(rules, doc);
    }
    forall doc | ValidSpaced(rules, doc) && text == doc.before + Write(doc.form, doc.after) &&
                 Meaning(rules, doc.form) == v
      ensures ReadJson(rules, text) == Some(v)
    {
      WrittenReads(rules, doc);
    }
  }
}
