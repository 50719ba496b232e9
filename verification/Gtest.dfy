/** The query of a test in a .gtest file: how scripts/convert_w3c_sparql.py writes it, and how the build
    script of grafeo-spec-tests reads it back. */
module Gtest {
  import opened Options
  import opened SpecJson

  // ---- str::trim and its halves

  predicate Blank(s: string) {
    forall i :: 0 <= i < |s| ==> IsSpace(s[i])
  }

  function TrimStart(s: string): (t: string)
    ensures |t| <= |s| && t == s[|s| - |t|..] && forall i :: 0 <= i < |s| - |t| ==> IsSpace(s[i])
    ensures t != "" ==> !IsSpace(t[0])
  {
    if s != "" && IsSpace(s[0]) then TrimStart(s[1..]) else s
  }

  function TrimEnd(s: string): (t: string)
    ensures t <= s && forall i :: |t| <= i < |s| ==> IsSpace(s[i])
    ensures t != "" ==> !IsSpace(t[|t| - 1])
  {
    if s != "" && IsSpace(s[|s| - 1]) then TrimEnd(s[..|s| - 1]) else s
  }

  function Trim(s: string): string {
    TrimEnd(TrimStart(s))
  }

  lemma BlankTrim(s: string)
    ensures Trim(s) == "" <==> Blank(s)
  {
    var t := TrimStart(s);
    if t != "" {
      assert !IsSpace(s[|s| - |t|]) && !IsSpace(t[0]);
    }
  }

  /** How far a line is indented, in characters. */
  function Indent(line: string): nat {
    |line| - |TrimStart(line)|
  }

  // ---- parse_kv

  datatype Quotes = Neither | InSingle | InDouble

  /** Which quotes are open after the first i characters. */
  function Quoting(s: string, i: nat): Quotes
    requires i <= |s|
  {
    if i == 0 then Neither
    else
      var before := Quoting(s, i - 1);
      if s[i - 1] == '\'' && before != InDouble then (if before == InSingle then Neither else InSingle)
      else if s[i - 1] == '"' && before != InSingle then (if before == InDouble then Neither else InDouble)
      else before
  }

  /** A colon outside quotes with a key before it. */
  predicate Divides(s: string, i: nat)
    requires i < |s|
  {
    s[i] == ':' && Quoting(s, i) == Neither && Trim(s[..i]) != ""
  }

  /** The first dividing colon at i or later, or the end. */
  function Divider(s: string, i: nat): (k: nat)
    requires i <= |s|
    ensures i <= k <= |s| && (k < |s| ==> Divides(s, k))
    ensures forall j :: i <= j < k ==> !Divides(s, j)
    decreases |s| - i
  {
    if i == |s| || Divides(s, i) then i else Divider(s, i + 1)
  }

  function KeyValue(s: string): Option<(string, string)> {
    var k := Divider(s, 0);
    if k < |s| then Some((Trim(s[..k]), Trim(s[k + 1..]))) else None
  }

  function QuotesOf(inSingle: bool, inDouble: bool): Quotes {
    if inSingle then InSingle else if inDouble then InDouble else Neither
  }

  lemma QuotingBegins(s: string)
    ensures Quoting(s, 0) == QuotesOf(false, false)
  {
  }

  lemma QuotingStep(s: string, i: nat, inSingle: bool, inDouble: bool)
    requires i < |s| && Quoting(s, i) == QuotesOf(inSingle, inDouble) && !(inSingle && inDouble)
    ensures Quoting(s, i + 1) == QuotesOf(if s[i] == '\'' && !inDouble then !inSingle else inSingle,
                                          if s[i] == '"' && !inSingle then !inDouble else inDouble)
  {
  }

  /** parse_kv: cut at the first colon that divides. */
  method ParseKv(s: string) returns (r: Option<(string, string)>)
    ensures r == KeyValue(s)
  {
    hide *;
    var inSingle, inDouble := false, false;
    QuotingBegins(s);
    for i := 0 to |s|
      invariant Quoting(s, i) == QuotesOf(inSingle, inDouble) && !(inSingle && inDouble)
      invariant Divider(s, 0) == Divider(s, i)
    {
      QuotingStep(s, i, inSingle, inDouble);
      if s[i] == '\'' && !inDouble {
        NoDivider(s, i);
        inSingle := !inSingle;
      } else if s[i] == '"' && !inSingle {
        NoDivider(s, i);
        inDouble := !inDouble;
      } else if s[i] == ':' && !inSingle && !inDouble {
        var key, value := Trim(s[..i]), Trim(s[i + 1..]);
        DividerStep(s, i, inSingle, inDouble);
        if key != "" {
          KeyValueAt(s, i);
          return Some((key, value));
        }
      } else {
        DividerStep(s, i, inSingle, inDouble);
      }
    }
    KeyValueAt(s, |s|);
    r := None;
  }

  lemma NoDivider(s: string, i: nat)
    requires i < |s| && s[i] != ':'
    ensures Divider(s, i) == Divider(s, i + 1)
  {
    hide Quoting, Trim;
  }

  lemma DividerStep(s: string, i: nat, inSingle: bool, inDouble: bool)
    requires i < |s| && Quoting(s, i) == QuotesOf(inSingle, inDouble)
    ensures Divider(s, i) ==
            if s[i] == ':' && !inSingle && !inDouble && Trim(s[..i]) != "" then i else Divider(s, i + 1)
  {
    hide Quoting, Trim;
  }

  lemma KeyValueAt(s: string, i: nat)
    requires i <= |s| && Divider(s, 0) == Divider(s, i)
    ensures Divider(s, i) == i ==> KeyValue(s) == if i < |s| then Some((Trim(s[..i]), Trim(s[i + 1..]))) else None
    ensures i == |s| ==> KeyValue(s) == None
  {
    hide Trim, Quoting, Divides;
  }

  // ---- unquote

  /** str::replace: every occurrence, from the left, not overlapping. */
  function Replace(s: string, from: string, to: string): string
    requires from != ""
  {
    if s == "" then ""
    else if from <= s then to + Replace(s[|from|..], from, to)
    else [s[0]] + Replace(s[1..], from, to)
  }

  predicate IsQuoted(s: string) {
    var t := Trim(s);
    |t| >= 2 && ((t[0] == '"' && t[|t| - 1] == '"') || (t[0] == '\'' && t[|t| - 1] == '\''))
  }

  /** A NUL stands for an escaped backslash while the quotes are unescaped. */
  function Unescape(s: string): string {
    Replace(Replace(Replace(Replace(s, "\\\\", "\0"), "\\\"", "\""), "\\'", "'"), "\0", "\\")
  }

  function Unquote(s: string): string {
    var t := Trim(s);
    if IsQuoted(t) && |t| >= 2 then Unescape(t[1..|t| - 1]) else t
  }

  // ---- parse_block_scalar

  predicate Stops(line: string, indent: nat) {
    !Blank(line) && Indent(line) < indent
  }

  /** The first line at i or later that is indented less, blank lines aside. */
  function BlockEnd(lines: seq<string>, i: nat, indent: nat): (k: nat)
    requires i <= |lines|
    ensures i <= k <= |lines| && (k < |lines| ==> Stops(lines[k], indent))
    ensures forall j :: i <= j < k ==> !Stops(lines[j], indent)
    decreases |lines| - i
  {
    if i == |lines| || Stops(lines[i], indent) then i else BlockEnd(lines, i + 1, indent)
  }

  /** The lines of a block put together: a line break for a blank line, and one before each other line
      unless nothing stands before it. */
  function Glue(lines: seq<string>, indent: nat): string {
    if lines == [] then ""
    else
      Glued(Glue(lines[..|lines| - 1], indent), lines[|lines| - 1], indent)
  }

  function Glued(front: string, line: string, indent: nat): string {
    if Blank(line) then front + "\n"
    else front + (if front == "" then "" else "\n") + (if |line| >= indent then line[indent..] else Trim(line))
  }

  datatype Field = Field(query: string, next: nat)

  function BlockScalar(lines: seq<string>, idx: nat): Field
    requires idx < |lines|
  {
    if idx + 1 < |lines| then
      var indent := Indent(lines[idx + 1]);
      var end := BlockEnd(lines, idx + 1, indent);
      Field(TrimEnd(Glue(lines[idx + 1..end], indent)), end)
    else Field("", idx + 1)
  }

  /** parse_block_scalar: the text of the block under line idx, and the line after it. */
  method ParseBlockScalar(lines: seq<string>, idx: nat) returns (text: string, next: nat)
    requires idx < |lines|
    ensures Field(text, next) == BlockScalar(lines, idx)
  {
    hide *;
    var first := idx + 1;
    next := first;
    if next >= |lines| {
      NoBlock(lines, idx);
      return "", next;
    }
    var indent := Indent(lines[next]);
    text := "";
    GlueNothing(lines, first, indent);
    while next < |lines|
      invariant first <= next <= |lines| && text == Glue(lines[first..next], indent)
      invariant BlockEnd(lines, first, indent) == BlockEnd(lines, next, indent)
    {
      var line := lines[next];
      GlueStep(lines, first, next, indent);
      BlockEndStep(lines, next, indent);
      var trimmed := Trim(line);
      if trimmed == "" {
        text := text + "\n";
        next := next + 1;
        continue;
      }
      if Indent(line) < indent { break; }
      if text != "" { text := text + "\n"; }
      text := text + (if |line| >= indent then line[indent..] else trimmed);
      next := next + 1;
    }
    BlockScalarAt(lines, idx, next);
    text := TrimEnd(text);
  }

  lemma NoBlock(lines: seq<string>, idx: nat)
    requires idx + 1 == |lines|
    ensures BlockScalar(lines, idx) == Field("", idx + 1)
  {
  }

  lemma BlockEndStep(lines: seq<string>, i: nat, indent: nat)
    requires i < |lines|
    ensures BlockEnd(lines, i, indent) ==
            if Trim(lines[i]) != "" && Indent(lines[i]) < indent then i else BlockEnd(lines, i + 1, indent)
  {
    BlankTrim(lines[i]);
    hide Trim, Indent, Blank;
  }

  lemma BlockScalarAt(lines: seq<string>, idx: nat, next: nat)
    requires idx + 1 <= next <= |lines| && idx + 1 < |lines|
    requires BlockEnd(lines, idx + 1, Indent(lines[idx + 1])) == BlockEnd(lines, next, Indent(lines[idx + 1]))
    requires next < |lines| ==> BlockEnd(lines, next, Indent(lines[idx + 1])) == next
    ensures BlockScalar(lines, idx) == Field(TrimEnd(Glue(lines[idx + 1..next], Indent(lines[idx + 1]))), next)
  {
  }

  lemma GlueNothing(lines: seq<string>, first: nat, indent: nat)
    requires first <= |lines|
    ensures Glue(lines[first..first], indent) == ""
  {
  }

  lemma GlueMore(lines: seq<string>, first: nat, next: nat, indent: nat)
    requires first <= next < |lines|
    ensures Glue(lines[first..next + 1], indent) == Glued(Glue(lines[first..next], indent), lines[next], indent)
  {
    hide Glued;
    var more := lines[first..next + 1];
    assert more[..|more| - 1] == lines[first..next] && more[|more| - 1] == lines[next];
  }

  lemma GluedIs(front: string, line: string, indent: nat)
    ensures Glued(front, line, indent) ==
            if Trim(line) == "" then front + "\n"
            else (if front == "" then front else front + "\n") +
                 (if |line| >= indent then line[indent..] else Trim(line))
  {
    BlankTrim(line);
    hide Trim, Blank;
    assert front + "" == front;
  }

  lemma GlueStep(lines: seq<string>, first: nat, next: nat, indent: nat)
    requires first <= next < |lines|
    ensures Glue(lines[first..next + 1], indent) ==
            var front := Glue(lines[first..next], indent);
            if Trim(lines[next]) == "" then front + "\n"
            else (if front == "" then front else front + "\n") +
                 (if |lines[next]| >= indent then lines[next][indent..] else Trim(lines[next]))
  {
    hide *;
    GlueMore(lines, first, next, indent);
    GluedIs(Glue(lines[first..next], indent), lines[next], indent);
  }

  // ---- the query of a test

  function QueryField(lines: seq<string>, idx: nat): Option<Field>
    requires idx < |lines|
  {
    var kv := KeyValue(Trim(lines[idx]));
    if kv.None? || kv.value.0 != "query" then None
    else if kv.value.1 == "|" then Some(BlockScalar(lines, idx))
    else Some(Field(Unquote(kv.value.1), idx + 1))
  }

  method ReadQuery(lines: seq<string>, idx: nat) returns (r: Option<Field>)
    requires idx < |lines|
    ensures r == QueryField(lines, idx)
  {
    var kv := ParseKv(Trim(lines[idx]));
    if kv.None? || kv.value.0 != "query" { return None; }
    if kv.value.1 == "|" {
      var text, next := ParseBlockScalar(lines, idx);
      return Some(Field(text, next));
    }
    r := Some(Field(Unquote(kv.value.1), idx + 1));
  }

  // ---- the writer

  /** s.split("\n") of Python. */
  function Pieces(s: string): (r: seq<string>)
    ensures r != []
  {
    if s == "" then [""]
    else
      var rest := Pieces(s[1..]);
      if s[0] == '\n' then [""] + rest else [[s[0]] + rest[0]] + rest[1..]
  }

  /** "\n".join of Python. */
  function Joined(lines: seq<string>): string {
    if lines == [] then ""
    else if |lines| == 1 then lines[0]
    else lines[0] + "\n" + Joined(lines[1..])
  }

  predicate NeedsQuotes(s: string) {
    exists i :: 0 <= i < |s| && s[i] in ":{}\n\"'[]"
  }

  function Escaped(s: string): string {
    Replace(Replace(s, "\\", "\\\\"), "\"", "\\\"")
  }

  function YamlQuote(s: string): string {
    if NeedsQuotes(s) then "\"" + Escaped(s) + "\"" else s
  }

  function Indented(lines: seq<string>): seq<string> {
    seq(|lines|, i requires 0 <= i < |lines| => "      " + lines[i])
  }

  function QueryLines(q: string): seq<string> {
    if '\n' in q then ["    query: |"] + Indented(Pieces(q)) else ["    query: " + YamlQuote(q)]
  }

  /** The query part of generate_gtest. */
  method AppendQuery(before: seq<string>, q: string) returns (lines: seq<string>)
    ensures lines == before + QueryLines(q)
  {
    lines := before;
    if '\n' in q {
      lines := lines + ["    query: |"];
      var pieces := Pieces(q);
      for i := 0 to |pieces|
        invariant lines == before + (["    query: |"] + Indented(pieces)[..i])
      {
        lines := lines + ["      " + pieces[i]];
      }
      assert Indented(pieces)[..|pieces|] == Indented(pieces);
    } else {
      lines := lines + ["    query: " + YamlQuote(q)];
    }
  }

  // ---- str::lines

  /** A line without the carriage return before its line feed. */
  function StripCr(s: string): string {
    if s != "" && s[|s| - 1] == '\r' then s[..|s| - 1] else s
  }

  function LineEnd(text: string): (k: nat)
    ensures k <= |text| && (k < |text| ==> text[k] == '\n') && forall i :: 0 <= i < k ==> text[i] != '\n'
  {
    if text == "" || text[0] == '\n' then 0 else 1 + LineEnd(text[1..])
  }

  function Lines(text: string): seq<string> {
    if text == "" then []
    else
      var k := LineEnd(text);
      if k < |text| then [StripCr(text[..k])] + Lines(text[k + 1..]) else [text]
  }
}
