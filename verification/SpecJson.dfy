/** The JSON reader of crates/grafeo-spec-tests/build.rs, reading to a tree. */
module SpecJson {
  import opened Options
  import opened Text
  import opened Numbers

  datatype Json =
    | Null
    | Bool(value: bool)
    | Number(text: string)
    | Str(text: string)
    | List(items: seq<Json>)
    | Object(entries: seq<(string, Json)>)

  /** What the reader takes from Rust's library: char::is_alphanumeric, and which numbers f64 holds. */
  datatype Rules = Rules(alphanumeric: char -> bool, finite: string -> bool)

  /** What is true of char::is_alphanumeric: ASCII letters and digits are, spaces and JSON's punctuation are not. */
  ghost predicate Lawful(rules: Rules) {
    && (forall c: char :: IsDigit(c) || 'a' <= c <= 'z' || 'A' <= c <= 'Z' ==> rules.alphanumeric(c))
    && (forall c: char :: IsSpace(c) || c in {'[', ']', '{', '}', ',', ':', '"', '\\'} ==> !rules.alphanumeric(c))
  }

  /** char::is_whitespace. */
  predicate IsSpace(c: char) {
    var n := c as int;
    || 9 <= n <= 13 || n == 0x20 || n == 0x85 || n == 0xA0 || n == 0x1680 || 0x2000 <= n <= 0x200A
    || n == 0x2028 || n == 0x2029 || n == 0x202F || n == 0x205F || n == 0x3000
  }

  function SkipSpace(s: string): (r: string)
    ensures |r| <= |s| && (r == [] || !IsSpace(r[0]))
  {
    if s != [] && IsSpace(s[0]) then SkipSpace(s[1..]) else s
  }

  predicate StartsWith(s: string, c: char) {
    s != [] && s[0] == c
  }

  // ---- strings

  predicate IsHexDigit(c: char) {
    IsDigit(c) || 'a' <= c <= 'f' || 'A' <= c <= 'F'
  }

  function HexDigitValue(c: char): (v: nat)
    requires IsHexDigit(c)
    ensures v < 16
  {
    if IsDigit(c) then DigitValue(c)
    else if 'a' <= c <= 'f' then c as int - 'a' as int + 10
    else c as int - 'A' as int + 10
  }

  predicate IsHex4(hex: string) {
    |hex| == 4 && IsHexDigit(hex[0]) && IsHexDigit(hex[1]) && IsHexDigit(hex[2]) && IsHexDigit(hex[3])
  }

  function Hex4Value(hex: string): (v: nat)
    requires IsHex4(hex)
    ensures v <= 0xFFFF
  {
    4096 * HexDigitValue(hex[0]) + 256 * HexDigitValue(hex[1]) + 16 * HexDigitValue(hex[2]) + HexDigitValue(hex[3])
  }

  /** json_hex4: the value of the four hex digits at the cursor. */
  function ReadHex4(s: string): (r: Option<(nat, string)>)
    ensures r.Some? ==> r.value.0 <= 0xFFFF && |s| >= 4 && r.value.1 == s[4..]
  {
    if |s| >= 4 && IsHex4(s[..4]) then Some((Hex4Value(s[..4]), s[4..])) else None
  }

  predicate IsHigh(n: int) {
    0xD800 <= n <= 0xDBFF
  }

  predicate IsLow(n: int) {
    0xDC00 <= n <= 0xDFFF
  }

  /** char::from_u32. */
  function FromU32(code: nat): (r: Option<char>)
    ensures r.Some? <==> code < 0xD800 || 0xE000 <= code <= 0x10FFFF
    ensures r.Some? ==> r.value as int == code
  {
    if code < 0xD800 || 0xE000 <= code <= 0x10FFFF then Some(code as char) else None
  }

  function PairCode(high: nat, low: nat): (code: nat)
    requires IsHigh(high) && IsLow(low)
    ensures 0x10000 <= code <= 0x10FFFF
  {
    0x10000 + (high - 0xD800) * 1024 + (low - 0xDC00)
  }

  /** json_unicode_escape: the character a \u escape names, from just past the u. */
  function ReadUnicode(s: string): (r: Option<(char, string)>)
    ensures r.Some? ==> |r.value.1| < |s|
  {
    var (high, rest) :- ReadHex4(s);
    if IsHigh(high) then
      if |rest| < 2 || rest[0] != '\\' || rest[1] != 'u' then None
      else
        var (low, rest2) :- ReadHex4(rest[2..]);
        if !IsLow(low) then None
        else
          var c :- FromU32(PairCode(high, low));
          Some((c, rest2))
    else if IsLow(high) then None
    else
      var c :- FromU32(high);
      Some((c, rest))
  }

  /** The character of a one letter escape. */
  function ShortEscape(c: char): Option<char> {
    match c
    case '"' => Some('"')
    case '\\' => Some('\\')
    case '/' => Some('/')
    case 'n' => Some('\n')
    case 'r' => Some('\r')
    case 't' => Some('\t')
    case 'b' => Some('\U{8}')
    case 'f' => Some('\U{C}')
    case _ => None
  }

  /** json_string, from just past the opening quote. */
  function ReadRest(s: string): (r: Option<(string, string)>)
    ensures r.Some? ==> |r.value.1| < |s|
    decreases |s|
  {
    if s == [] then None
    else if s[0] == '"' then Some(([], s[1..]))
    else if s[0] == '\\' then
      if |s| < 2 then None
      else if s[1] == 'u' then
        var (c, rest) :- ReadUnicode(s[2..]);
        var (text, end) :- ReadRest(rest);
        Some(([c] + text, end))
      else
        var c :- ShortEscape(s[1]);
        var (text, end) :- ReadRest(s[2..]);
        Some(([c] + text, end))
    else
      var (text, end) :- ReadRest(s[1..]);
      Some(([s[0]] + text, end))
  }

  /** json_string. */
  function ReadString(s: string): (r: Option<(string, string)>)
    ensures r.Some? ==> |r.value.1| < |s|
  {
    if StartsWith(s, '"') then ReadRest(s[1..]) else None
  }

  // ---- values

  predicate WordChar(rules: Rules, c: char) {
    rules.alphanumeric(c) || c == '-' || c == '+' || c == '.'
  }

  function WordLength(rules: Rules, s: string): (k: nat)
    ensures k <= |s|
    ensures forall i :: 0 <= i < k ==> WordChar(rules, s[i])
    ensures k < |s| ==> !WordChar(rules, s[k])
  {
    if s == [] || !WordChar(rules, s[0]) then 0 else 1 + WordLength(rules, s[1..])
  }

  /** What a bare word is: an integer of any size, a number f64 holds, true, false or null. */
  function WordValue(rules: Rules, word: string): (r: Option<Json>)
    ensures r.Some? ==> word != []
  {
    if word == "true" then Some(Bool(true))
    else if word == "false" then Some(Bool(false))
    else if word == "null" then Some(Null)
    else if IsJsonNumber(word) && (IsDecimalInteger(word) || rules.finite(word)) then Some(Number(word))
    else None
  }

  /** json_value_code. */
  function ReadValue(rules: Rules, s: string): (r: Option<(Json, string)>)
    ensures r.Some? ==> |r.value.1| < |s|
    decreases |s|, 0
  {
    var t := SkipSpace(s);
    if t == [] then None
    else if t[0] == '[' then
      var u := SkipSpace(t[1..]);
      if StartsWith(u, ']') then Some((List([]), u[1..]))
      else
        var (items, rest) :- ReadItems(rules, u);
        Some((List(items), rest))
    else if t[0] == '{' then
      var u := SkipSpace(t[1..]);
      if StartsWith(u, '}') then Some((Object([]), u[1..]))
      else
        var (entries, rest) :- ReadEntries(rules, u);
        Some((Object(entries), rest))
    else if t[0] == '"' then
      var (text, rest) :- ReadString(t);
      Some((Str(text), rest))
    else
      var k := WordLength(rules, t);
      var value :- WordValue(rules, t[..k]);
      Some((value, t[k..]))
  }

  /** The items of a list from the first on, with its closing bracket. */
  function ReadItems(rules: Rules, s: string): (r: Option<(seq<Json>, string)>)
    ensures r.Some? ==> |r.value.1| < |s|
    decreases |s|, 1
  {
    var (value, rest) :- ReadValue(rules, s);
    var t := SkipSpace(rest);
    if StartsWith(t, ',') then
      var (more, end) :- ReadItems(rules, t[1..]);
      Some(([value] + more, end))
    else if StartsWith(t, ']') then Some(([value], t[1..]))
    else None
  }

  /** The entries of a map from the first on, with its closing brace. */
  function ReadEntries(rules: Rules, s: string): (r: Option<(seq<(string, Json)>, string)>)
    ensures r.Some? ==> |r.value.1| < |s|
    decreases |s|, 1
  {
    var (key, rest) :- ReadString(SkipSpace(s));
    var t := SkipSpace(rest);
    if !StartsWith(t, ':') then None
    else
      var (value, rest2) :- ReadValue(rules, t[1..]);
      var u := SkipSpace(rest2);
      if StartsWith(u, ',') then
        var (more, end) :- ReadEntries(rules, u[1..]);
        Some(([(key, value)] + more, end))
      else if StartsWith(u, '}') then Some(([(key, value)], u[1..]))
      else None
  }

  /** json_param_to_value_code: a value and nothing after it. */
  function ReadJson(rules: Rules, text: string): Option<Json> {
    var (value, rest) :- ReadValue(rules, text);
    if SkipSpace(rest) == [] then Some(value) else None
  }
}
