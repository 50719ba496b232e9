/** What the generator writes for a query, the build script reads back: exactly when, and as what. */
module GtestLaws {
  import opened Options
  import opened SpecJson
  import opened Gtest

  // ---- quoting undone

  /** The text with every backslash and quote escaped. */
  function Doubled(s: string): string {
    if s == "" then ""
    else (if s[0] == '\\' then "\\\\" else if s[0] == '"' then "\\\"" else [s[0]]) + Doubled(s[1..])
  }

  /** The same once the doubled backslashes are marked. */
  function Marked(s: string): string {
    if s == "" then ""
    else (if s[0] == '\\' then "\0" else if s[0] == '"' then "\\\"" else [s[0]]) + Marked(s[1..])
  }

  function Swapped(s: string, from: char, to: char): (r: string)
    ensures |r| == |s| && forall i :: 0 <= i < |s| ==> r[i] == if s[i] == from then to else s[i]
  {
    if s == "" then "" else [if s[0] == from then to else s[0]] + Swapped(s[1..], from, to)
  }

  lemma ReplaceKeep(c: char, s: string, from: string, to: string, k: nat)
    requires k < |from| && k <= |s| && ([c] + s)[k] != from[k]
    ensures Replace([c] + s, from, to) == [c] + Replace(s, from, to)
  {
    assert ([c] + s)[1..] == s;
    assert !(from <= [c] + s);
  }

  lemma ReplaceHit(s: string, from: string, to: string)
    requires from != ""
    ensures Replace(from + s, from, to) == to + Replace(s, from, to)
  {
    assert (from + s)[|from|..] == s;
  }

  lemma {:induction false} EscapedIs(s: string)
    ensures Escaped(s) == Doubled(s)
  {
    if s != "" {
      EscapedIs(s[1..]);
      var rest := Replace(s[1..], "\\", "\\\\");
      if s[0] == '\\' {
        assert "\\\\" + rest == ['\\'] + (['\\'] + rest);
        ReplaceKeep('\\', ['\\'] + rest, "\"", "\\\"", 0);
        ReplaceKeep('\\', rest, "\"", "\\\"", 0);
      } else if s[0] == '"' {
        ReplaceHit(rest, "\"", "\\\"");
      } else {
        ReplaceKeep(s[0], rest, "\"", "\\\"", 0);
      }
    }
  }

  lemma {:induction false} MarkedIs(s: string)
    ensures Replace(Doubled(s), "\\\\", "\0") == Marked(s)
  {
    if s != "" {
      MarkedIs(s[1..]);
      MarkStep(s[0], Doubled(s[1..]));
      hide Replace;
    }
  }

  lemma MarkStep(c: char, rest: string)
    ensures c == '\\' ==> Replace("\\\\" + rest, "\\\\", "\0") == "\0" + Replace(rest, "\\\\", "\0")
    ensures c == '"' ==> Replace("\\\"" + rest, "\\\\", "\0") == "\\\"" + Replace(rest, "\\\\", "\0")
    ensures c != '\\' ==> Replace([c] + rest, "\\\\", "\0") == [c] + Replace(rest, "\\\\", "\0")
  {
    hide Replace;
    if c == '\\' {
      ReplaceHit(rest, "\\\\", "\0");
    } else {
      ReplaceKeep(c, rest, "\\\\", "\0", 0);
      if c == '"' { KeepEscape(rest); }
    }
  }

  lemma KeepEscape(rest: string)
    ensures Replace("\\\"" + rest, "\\\\", "\0") == "\\\"" + Replace(rest, "\\\\", "\0")
  {
    hide Replace;
    assert "\\\"" + rest == ['\\'] + (['"'] + rest);
    ReplaceKeep('\\', ['"'] + rest, "\\\\", "\0", 1);
    ReplaceKeep('"', rest, "\\\\", "\0", 0);
  }

  lemma {:induction false} QuotesBack(s: string)
    ensures Replace(Marked(s), "\\\"", "\"") == Swapped(s, '\\', '\0')
  {
    if s != "" {
      QuotesBack(s[1..]);
      var rest := Marked(s[1..]);
      if s[0] == '"' {
        assert ("\\\"" + rest)[2..] == rest;
      } else {
        var c := if s[0] == '\\' then '\0' else s[0];
        assert ([c] + rest)[1..] == rest;
      }
    }
  }

  lemma {:induction false} NothingToReplace(s: string, from: string, to: string)
    requires from != "" && from[0] !in s
    ensures Replace(s, from, to) == s
  {
    if s != "" { NothingToReplace(s[1..], from, to); }
  }

  lemma {:induction false} ReplaceChar(s: string, from: char, to: char)
    ensures Replace(s, [from], [to]) == Swapped(s, from, to)
  {
    if s != "" { ReplaceChar(s[1..], from, to); }
  }

  /** Unquoting what was quoted gives the text with each NUL turned into a backslash. */
  lemma UnescapeEscaped(s: string)
    ensures Unescape(Escaped(s)) == Swapped(s, '\0', '\\')
    ensures Unescape(Escaped(s)) == s <==> '\0' !in s
  {
    EscapedIs(s);
    MarkedIs(s);
    QuotesBack(s);
    var t := Swapped(s, '\\', '\0');
    NothingToReplace(t, "\\'", "'");
    ReplaceChar(t, '\0', '\\');
    assert Swapped(t, '\0', '\\') == Swapped(s, '\0', '\\');
    if '\0' in s {
      var i :| 0 <= i < |s| && s[i] == '\0';
      assert Swapped(s, '\0', '\\')[i] != s[i];
    }
  }

  // ---- trimming

  /** str.strip of Python leaves none of these at either end. */
  predicate Stripped(s: string) {
    s != "" && !IsSpace(s[0]) && !IsSpace(s[|s| - 1])
  }

  lemma TrimStartStep(c: char, s: string)
    ensures TrimStart([c] + s) == if IsSpace(c) then TrimStart(s) else [c] + s
  {
    hide IsSpace;
    assert ([c] + s)[1..] == s;
  }

  lemma {:induction false} TrimStartSpaces(n: nat, s: string)
    requires s != "" && !IsSpace(s[0])
    ensures TrimStart(seq(n, _ => ' ') + s) == s
  {
    assert IsSpace(' ');
    hide TrimStart, IsSpace;
    var all := seq(n, _ => ' ') + s;
    if n == 0 {
      assert all == [s[0]] + s[1..] == s;
      TrimStartStep(s[0], s[1..]);
    } else {
      assert all == [' '] + (seq(n - 1, _ => ' ') + s);
      TrimStartStep(' ', seq(n - 1, _ => ' ') + s);
      TrimStartSpaces(n - 1, s);
    }
  }

  lemma TrimSpaces(n: nat, s: string)
    requires Stripped(s)
    ensures Trim(seq(n, _ => ' ') + s) == s
  {
    TrimStartSpaces(n, s);
  }

  lemma TrimStripped(s: string)
    requires Stripped(s)
    ensures Trim(s) == s
  {
  }

  lemma TrimQuery(v: string)
    requires Stripped(v)
    ensures Trim("    query: " + v) == "query: " + v
  {
    assert "    query: " + v == seq(4, _ => ' ') + ("query: " + v);
    TrimSpaces(4, "query: " + v);
  }

  lemma TrimSpace(v: string)
    requires Stripped(v)
    ensures Trim(" " + v) == v
  {
    assert " " + v == seq(1, _ => ' ') + v;
    TrimSpaces(1, v);
  }

  // ---- the key

  lemma {:induction false} NoQuotes(s: string, i: nat)
    requires i <= |s| && forall j :: 0 <= j < i ==> s[j] != '"' && s[j] != '\''
    ensures Quoting(s, i) == Neither
  {
    if i > 0 { NoQuotes(s, i - 1); }
  }

  lemma DividerFirst(s: string, n: nat)
    requires n < |s| && Divides(s, n) && forall j :: 0 <= j < n ==> s[j] != ':'
    ensures Divider(s, 0) == n
  {
    hide Trim, Quoting, Divider;
    assert Divider(s, 0) <= n;
  }

  lemma KeyAt(key: string, rest: string)
    requires forall j :: 0 <= j < |key| ==> key[j] != ':' && key[j] != '"' && key[j] != '\''
    requires Trim(key) != ""
    ensures KeyValue(key + ":" + rest) == Some((Trim(key), Trim(rest)))
  {
    hide Trim, Quoting, Divider;
    var s, n := key + ":" + rest, |key|;
    assert s[..n] == key && s[n + 1..] == rest && s[n] == ':';
    assert forall j :: 0 <= j < n ==> s[j] == key[j];
    NoQuotes(s, n);
    DividerFirst(s, n);
  }

  predicate PlainKey(key: string) {
    Stripped(key) && forall j :: 0 <= j < |key| ==> key[j] != ':' && key[j] != '"' && key[j] != '\''
  }

  lemma KeyLine(key: string, v: string)
    requires PlainKey(key) && Stripped(v)
    ensures KeyValue(key + ":" + (" " + v)) == Some((key, v))
  {
    TrimSpace(v);
    TrimStripped(key);
    hide KeyValue, Trim;
    KeyAt(key, " " + v);
  }

  lemma QueryText(v: string)
    ensures "query: " + v == "query" + ":" + (" " + v) && PlainKey("query")
  {
  }

  lemma QueryKey(v: string)
    requires Stripped(v)
    ensures KeyValue(Trim("    query: " + v)) == Some(("query", v))
  {
    hide *;
    TrimQuery(v);
    QueryText(v);
    KeyLine("query", v);
  }

  // ---- one line

  lemma QuotesStrip(t: string)
    ensures Stripped("\"" + t + "\"") && Unquote("\"" + t + "\"") == Unescape(t)
  {
    assert !IsSpace('"');
    hide Trim, Unescape, IsSpace;
    var v := "\"" + t + "\"";
    assert v[0] == '"' && v[|v| - 1] == '"' && v[1..|v| - 1] == t;
    QuotesOff(v);
  }

  lemma QuotesOff(v: string)
    requires |v| >= 2 && v[0] == '"' && v[|v| - 1] == '"' && !IsSpace('"')
    ensures Unquote(v) == Unescape(v[1..|v| - 1])
  {
    hide Trim, Unescape, IsSpace;
    TrimStripped(v);
  }

  lemma PlainUnquote(q: string)
    requires Stripped(q) && !NeedsQuotes(q)
    ensures Unquote(q) == q
  {
    TrimStripped(q);
    assert q[0] != '"' && q[0] != '\'';
    hide Trim, Unescape, NeedsQuotes;
  }

  /** What a one-line query is read as. */
  function ReadOnLine(q: string): string {
    if NeedsQuotes(q) then Swapped(q, '\0', '\\') else q
  }

  lemma QuotedReads(q: string)
    requires Stripped(q)
    ensures Stripped(YamlQuote(q)) && Unquote(YamlQuote(q)) == ReadOnLine(q) && (YamlQuote(q) == "|" ==> q == "|")
  {
    hide Unquote, NeedsQuotes, Swapped, Stripped, Escaped, Unescape;
    if NeedsQuotes(q) {
      QuotesStrip(Escaped(q));
      UnescapeEscaped(q);
    } else {
      PlainUnquote(q);
    }
  }

  /** A query on one line, other than a bar, comes back as written save for NULs where it needs quotes. */
  lemma SingleReads(lines: seq<string>, idx: nat, q: string)
    requires idx < |lines| && Stripped(q) && lines[idx] == "    query: " + YamlQuote(q) && q != "|"
    ensures QueryField(lines, idx) == Some(Field(ReadOnLine(q), idx + 1))
  {
    hide Trim, KeyValue, YamlQuote, Unquote, NeedsQuotes, ReadOnLine, Stripped, BlockScalar;
    QuotedReads(q);
    QueryKey(YamlQuote(q));
  }

  /** A query that is a bar is taken for the head of a block, which swallows what follows. */
  lemma BarReads(lines: seq<string>, idx: nat)
    requires idx + 1 < |lines| && lines[idx] == "    query: |"
    ensures QueryField(lines, idx) == Some(BlockScalar(lines, idx)) && BlockScalar(lines, idx).next > idx + 1
  {
    hide *;
    FirstStays(lines, idx);
    BarField(lines, idx);
  }

  lemma FirstStays(lines: seq<string>, idx: nat)
    requires idx + 1 < |lines|
    ensures BlockScalar(lines, idx).next > idx + 1
  {
    hide Indent, Blank, Glue, TrimEnd;
  }

  lemma BarField(lines: seq<string>, idx: nat)
    requires idx < |lines| && lines[idx] == "    query: |"
    ensures QueryField(lines, idx) == Some(BlockScalar(lines, idx))
  {
    hide Trim, KeyValue, BlockScalar, Unquote;
    assert Stripped("|");
    QueryKey("|");
    assert "    query: " + "|" == "    query: |";
  }

  // ---- a block

  predicate NoBreaks(lines: seq<string>) {
    forall i :: 0 <= i < |lines| ==> '\n' !in lines[i]
  }

  function Emptied(lines: seq<string>): seq<string> {
    seq(|lines|, i requires 0 <= i < |lines| => if Blank(lines[i]) then "" else lines[i])
  }

  lemma {:induction false} JoinedAppend(lines: seq<string>, line: string)
    requires lines != []
    ensures Joined(lines + [line]) == Joined(lines) + "\n" + line
  {
    var all := lines + [line];
    if |lines| == 1 {
      assert all[1..] == [line];
    } else {
      assert all[1..] == lines[1..] + [line];
      JoinedAppend(lines[1..], line);
    }
  }

  lemma IndentSix(p: string)
    ensures Blank("      " + p) <==> Blank(p)
    ensures !Blank(p) ==> Indent("      " + p) >= 6
    ensures p != "" && !IsSpace(p[0]) ==> Indent("      " + p) == 6
    ensures ("      " + p)[6..] == p
  {
    assert "      " + p == seq(6, _ => ' ') + p;
    SpacesIndent(6, p);
    if p != "" && !IsSpace(p[0]) { TrimStartSpaces(6, p); }
    hide Blank, TrimStart, IsSpace;
  }

  lemma {:induction false} SpacesIndent(n: nat, p: string)
    ensures Blank(seq(n, _ => ' ') + p) <==> Blank(p)
    ensures !Blank(p) ==> Indent(seq(n, _ => ' ') + p) >= n
  {
    var s := seq(n, _ => ' ') + p;
    if n == 0 {
      assert s == p;
    } else {
      SpacesIndent(n - 1, p);
      assert s[1..] == seq(n - 1, _ => ' ') + p;
      BlankTail(s);
      hide Blank;
    }
  }

  lemma BlankTail(s: string)
    requires s != "" && IsSpace(s[0])
    ensures Blank(s) <==> Blank(s[1..])
  {
    assert forall i :: 1 <= i < |s| ==> s[i] == s[1..][i - 1];
  }

  predicate Opens(ps: seq<string>) {
    ps != [] && ps[0] != "" && !IsSpace(ps[0][0])
  }

  /** Lines indented by six, put together again without it. */
  lemma {:induction false} GlueIndented(ps: seq<string>)
    requires Opens(ps)
    ensures Glue(Indented(ps), 6) == Joined(Emptied(ps)) && Glue(Indented(ps), 6) != ""
  {
    hide Blank, IsSpace, Joined, Glue, Glued, Trim;
    var n := |ps| - 1;
    var front := ps[..n];
    GlueLast(ps);
    assert Emptied(ps) == Emptied(front) + [Emptied(ps)[n]];
    if n == 0 {
      OneLine(ps[0]);
      assert front == [] && Emptied(ps) == [ps[0]];
    } else {
      GlueIndented(front);
      JoinedAppend(Emptied(front), Emptied(ps)[n]);
      NextLine(Glue(Indented(front), 6), ps[n]);
    }
  }

  lemma GlueLast(ps: seq<string>)
    requires ps != []
    ensures var n := |ps| - 1; Glue(Indented(ps), 6) == Glued(Glue(Indented(ps[..n]), 6), "      " + ps[n], 6)
    ensures Glue([], 6) == "" && Indented([]) == []
  {
    hide Glued;
    var n := |ps| - 1;
    assert Indented(ps)[..n] == Indented(ps[..n]) && Indented(ps)[n] == "      " + ps[n];
  }

  lemma OneLine(p: string)
    requires p != "" && !IsSpace(p[0])
    ensures Glued("", "      " + p, 6) == Joined([p]) == p && !Blank(p)
  {
    IndentSix(p);
    assert !Blank(p);
    hide Blank, IsSpace, Trim;
  }

  lemma NextLine(front: string, p: string)
    requires front != ""
    ensures Glued(front, "      " + p, 6) == front + "\n" + (if Blank(p) then "" else p)
  {
    IndentSix(p);
    hide Blank, IsSpace, Trim;
  }

  predicate Ends(line: string) {
    line != "" && !IsSpace(line[|line| - 1])
  }

  /** The lines of the block stand under the head, and the next field under them. */
  predicate BlockAt(lines: seq<string>, idx: nat, ps: seq<string>) {
    && idx + 1 + |ps| < |lines| && lines[idx] == "    query: |"
    && lines[idx + 1..idx + 1 + |ps|] == Indented(ps) && lines[idx + 1 + |ps|] == "    expect:"
  }

  lemma {:induction false} BlockEndAt(lines: seq<string>, i: nat, end: nat, indent: nat)
    requires i <= end < |lines| && Stops(lines[end], indent)
    requires forall j :: i <= j < end ==> !Stops(lines[j], indent)
    ensures BlockEnd(lines, i, indent) == end
    decreases end - i
  {
    hide Stops;
    if i < end { BlockEndAt(lines, i + 1, end, indent); }
  }

  lemma IndentedStays(p: string)
    ensures !Stops("      " + p, 6)
  {
    IndentSix(p);
    hide Blank, Indent;
  }

  lemma ShortStops(n: nat, p: string, indent: nat)
    requires n < indent && p != "" && !IsSpace(p[0])
    ensures Stops(seq(n, _ => ' ') + p, indent)
  {
    TrimStartSpaces(n, p);
    SpacesIndent(n, p);
    assert !Blank(p);
    hide Blank, TrimStart, IsSpace;
  }

  lemma ExpectStops()
    ensures Stops("    expect:", 6)
  {
    assert !IsSpace('e');
    assert "    expect:" == seq(4, _ => ' ') + "expect:";
    hide *;
    ShortStops(4, "expect:", 6);
  }

  lemma BlockEndsAtExpect(lines: seq<string>, idx: nat, ps: seq<string>)
    requires BlockAt(lines, idx, ps) && Opens(ps)
    ensures Indent(lines[idx + 1]) == 6 && BlockEnd(lines, idx + 1, 6) == idx + 1 + |ps|
  {
    hide Indent, Stops, BlockEnd, IsSpace;
    ExpectStops();
    forall j | idx + 1 <= j < idx + 1 + |ps| ensures lines[j] == "      " + ps[j - idx - 1] && !Stops(lines[j], 6) {
      assert lines[j] == lines[idx + 1..idx + 1 + |ps|][j - idx - 1];
      IndentedStays(ps[j - idx - 1]);
    }
    IndentSix(ps[0]);
    BlockEndAt(lines, idx + 1, idx + 1 + |ps|, 6);
  }

  lemma {:induction false} JoinedEnds(ps: seq<string>)
    requires ps != [] && Ends(ps[|ps| - 1])
    ensures Ends(Joined(ps))
  {
    hide IsSpace;
    if |ps| > 1 { JoinedEnds(ps[1..]); }
  }

  lemma LastEmptied(ps: seq<string>)
    requires ps != [] && Ends(ps[|ps| - 1])
    ensures |Emptied(ps)| == |ps| && Ends(Emptied(ps)[|ps| - 1])
  {
    var last := ps[|ps| - 1];
    assert !IsSpace(last[|last| - 1]);
  }

  lemma EndsTrimmed(s: string)
    requires Ends(s)
    ensures TrimEnd(s) == s
  {
  }

  /** A block written under its head reads back joined, its blank lines empty, up to the next field. */
  lemma BlockReads(lines: seq<string>, idx: nat, ps: seq<string>)
    requires BlockAt(lines, idx, ps) && Opens(ps) && Ends(ps[|ps| - 1])
    ensures QueryField(lines, idx) == Some(Field(Joined(Emptied(ps)), idx + 1 + |ps|))
  {
    hide QueryField, Indent, BlockEnd, Glue, TrimEnd, Joined, Emptied, Ends, Opens;
    BarField(lines, idx);
    BlockEndsAtExpect(lines, idx, ps);
    GlueIndented(ps);
    LastEmptied(ps);
    JoinedEnds(Emptied(ps));
    EndsTrimmed(Joined(Emptied(ps)));
  }

  // ---- joining and splitting

  lemma {:induction false} PiecesJoin(s: string)
    ensures Joined(Pieces(s)) == s && NoBreaks(Pieces(s))
    ensures |Pieces(s)| == 1 <==> '\n' !in s
  {
    if s != "" {
      PiecesJoin(s[1..]);
      var rest := Pieces(s[1..]);
      assert s == [s[0]] + s[1..];
      if s[0] == '\n' {
        assert ([""] + rest)[1..] == rest;
      } else {
        var all := [[s[0]] + rest[0]] + rest[1..];
        assert all[1..] == rest[1..];
        assert Joined(all) == [s[0]] + Joined(rest);
      }
    }
  }

  lemma {:induction false} JoinPieces(ps: seq<string>)
    requires ps != [] && NoBreaks(ps)
    ensures Pieces(Joined(ps)) == ps
    decreases |Joined(ps)|
  {
    if ps[0] != "" {
      JoinHead(ps);
      var less := [ps[0][1..]] + ps[1..];
      JoinPieces(less);
      hide Joined, NoBreaks;
    } else if |ps| == 1 {
      assert ps == [""];
    } else {
      JoinEmptyHead(ps);
      JoinPieces(ps[1..]);
      hide Joined, NoBreaks;
    }
  }

  lemma JoinEmptyHead(ps: seq<string>)
    requires |ps| > 1 && ps[0] == "" && NoBreaks(ps)
    ensures NoBreaks(ps[1..]) && Joined(ps) != "" && Joined(ps)[0] == '\n' && Joined(ps)[1..] == Joined(ps[1..])
    ensures [""] + ps[1..] == ps
  {
    assert Joined(ps) == "\n" + Joined(ps[1..]);
  }

  lemma JoinHead(ps: seq<string>)
    requires ps != [] && ps[0] != "" && NoBreaks(ps)
    ensures var less := [ps[0][1..]] + ps[1..];
            && NoBreaks(less) && Joined(ps) != "" && Joined(ps)[0] == ps[0][0] && Joined(ps)[0] != '\n'
            && Joined(ps)[1..] == Joined(less) && [[ps[0][0]] + less[0]] + less[1..] == ps
  {
    var less := [ps[0][1..]] + ps[1..];
    assert less[1..] == ps[1..];
    assert [ps[0][0]] + ps[0][1..] == ps[0];
    if |ps| == 1 {
      assert ps == [ps[0]];
    } else {
      assert Joined(ps) == [ps[0][0]] + (ps[0][1..] + "\n" + Joined(ps[1..]));
    }
  }

  function StrippedCrs(lines: seq<string>): seq<string> {
    seq(|lines|, i requires 0 <= i < |lines| => StripCr(lines[i]))
  }

  lemma LineEndAt(a: string, b: string)
    requires '\n' !in a
    ensures LineEnd(a + "\n" + b) == |a|
  {
    var s := a + "\n" + b;
    assert s[|a|] == '\n' && forall i :: 0 <= i < |a| ==> s[i] == a[i];
  }

  lemma LinesHead(a: string, b: string)
    requires '\n' !in a
    ensures Lines(a + "\n" + b) == [StripCr(a)] + Lines(b)
  {
    LineEndAt(a, b);
    hide LineEnd, StripCr;
    var s := a + "\n" + b;
    assert s[..|a|] == a && s[|a| + 1..] == b;
  }

  lemma JoinedHead(ls: seq<string>)
    requires ls != []
    ensures Joined(ls + [""]) == ls[0] + "\n" + Joined(ls[1..] + [""])
  {
    assert (ls + [""])[1..] == ls[1..] + [""];
  }

  lemma StrippedHead(ls: seq<string>)
    requires ls != []
    ensures StrippedCrs(ls) == [StripCr(ls[0])] + StrippedCrs(ls[1..])
  {
    hide StripCr;
  }

  /** The lines of a file of complete lines: as joined, save for a carriage return at the end of each. */
  lemma {:induction false} LinesJoined(ls: seq<string>)
    requires NoBreaks(ls)
    ensures Lines(Joined(ls + [""])) == StrippedCrs(ls)
  {
    if ls == [] {
      assert ls + [""] == [""];
    } else {
      LinesJoined(ls[1..]);
      LinesHead(ls[0], Joined(ls[1..] + [""]));
      JoinedHead(ls);
      StrippedHead(ls);
      hide *;
    }
  }

  // ---- the pieces of a query

  lemma PiecesHead(q: string)
    requires Stripped(q)
    ensures Opens(StrippedCrs(Pieces(q)))
  {
    var p := Pieces(q)[0];
    assert IsSpace('\n') && IsSpace('\r');
    assert p == [q[0]] + Pieces(q[1..])[0];
    assert StrippedCrs(Pieces(q))[0] == StripCr(p);
  }

  lemma {:induction false} PiecesLast(q: string)
    requires q != "" && q[|q| - 1] != '\n'
    ensures var ps := Pieces(q); ps[|ps| - 1] != "" && ps[|ps| - 1][|ps[|ps| - 1]| - 1] == q[|q| - 1]
  {
    if |q| > 1 {
      PiecesLast(q[1..]);
    } else {
      assert q[1..] == "";
    }
  }

  lemma PiecesEnd(q: string)
    requires Stripped(q)
    ensures var ps := StrippedCrs(Pieces(q)); ps != [] && Ends(ps[|ps| - 1])
  {
    assert IsSpace('\n') && IsSpace('\r');
    PiecesLast(q);
  }

  /** A line that comes back: not a line of white space, and not before a carriage return. */
  predicate Kept(line: string) {
    (Blank(line) ==> line == "") && StripCr(line) == line
  }

  predicate AllKept(lines: seq<string>) {
    forall i :: 0 <= i < |lines| ==> Kept(lines[i])
  }

  function ReadOfBlock(q: string): string {
    Joined(Emptied(StrippedCrs(Pieces(q))))
  }

  lemma ReadOfBlockIs(q: string)
    ensures ReadOfBlock(q) == q <==> AllKept(Pieces(q))
  {
    var ps := Pieces(q);
    var es := Emptied(StrippedCrs(ps));
    PiecesJoin(q);
    assert |es| == |ps| && forall i :: 0 <= i < |ps| ==> es[i] == if Blank(StripCr(ps[i])) then "" else StripCr(ps[i]);
    assert NoBreaks(es);
    JoinPieces(es);
    hide Pieces, Joined, Emptied, StrippedCrs, NoBreaks;
    assert ReadOfBlock(q) == q <==> es == ps;
    forall i | 0 <= i < |ps| ensures es[i] == ps[i] <==> Kept(ps[i]) {
      KeptIs(ps[i]);
    }
    hide Kept, Blank, StripCr;
    assert (forall i :: 0 <= i < |ps| ==> es[i] == ps[i]) ==> es == ps;
  }

  lemma KeptIs(p: string)
    ensures (if Blank(StripCr(p)) then "" else StripCr(p)) == p <==> Kept(p)
  {
  }

  // ---- the file

  /** The queries that read back as written. */
  predicate Writable(q: string) {
    if '\n' in q then AllKept(Pieces(q))
    else q != "|" && !(NeedsQuotes(q) && '\0' in q)
  }

  lemma {:induction false} DoubledBreaks(s: string)
    requires '\n' !in s
    ensures '\n' !in Doubled(s)
  {
    if s != "" { DoubledBreaks(s[1..]); }
  }

  lemma QuotedBreaks(q: string)
    requires '\n' !in q
    ensures '\n' !in YamlQuote(q)
  {
    EscapedIs(q);
    DoubledBreaks(q);
    hide Escaped, NeedsQuotes;
  }

  lemma QueryLinesWhole(q: string)
    ensures NoBreaks(QueryLines(q))
  {
    hide YamlQuote, Pieces, Joined, Indented, NoBreaks;
    if '\n' in q {
      PiecesJoin(q);
      BlockWhole(Pieces(q));
    } else {
      QuotedBreaks(q);
      LineWhole(YamlQuote(q));
    }
  }

  lemma BlockWhole(ps: seq<string>)
    requires NoBreaks(ps)
    ensures NoBreaks(["    query: |"] + Indented(ps))
  {
    forall i | 0 <= i < |ps| ensures '\n' !in Indented(ps)[i] {
      assert '\n' !in ps[i];
    }
  }

  lemma LineWhole(v: string)
    requires '\n' !in v
    ensures NoBreaks(["    query: " + v])
  {
  }

  lemma StripCrIndented(p: string)
    ensures StripCr("      " + p) == "      " + StripCr(p)
  {
  }

  lemma StripCrQuery(q: string)
    requires Stripped(q)
    ensures StripCr("    query: " + YamlQuote(q)) == "    query: " + YamlQuote(q)
  {
    hide YamlQuote, Unquote, NeedsQuotes, StripCr, Stripped;
    QuotedReads(q);
    NoCr("    query: ", YamlQuote(q));
  }

  lemma NoCr(a: string, b: string)
    requires Stripped(b)
    ensures StripCr(a + b) == a + b
  {
    assert IsSpace('\r');
    hide IsSpace;
    var s := a + b;
    assert s[|s| - 1] == b[|b| - 1];
  }

  /** The lines the build script takes from a file with the query lines in it. */
  function FileLines(before: seq<string>, written: seq<string>, after: seq<string>): seq<string> {
    Lines(Joined(before + written + ["    expect:"] + after + [""]))
  }

  lemma FileLinesAre(before: seq<string>, written: seq<string>, after: seq<string>)
    requires NoBreaks(before) && NoBreaks(written) && NoBreaks(after)
    ensures FileLines(before, written, after) == StrippedCrs(before + written + ["    expect:"] + after)
  {
    AllWhole(before, written, after);
    hide NoBreaks, Lines, Joined, StrippedCrs;
    LinesJoined(before + written + ["    expect:"] + after);
  }

  /** Whatever stands before and after in the file, the build script reads the query the generator
      wrote, stopping at the expectation, exactly when the query is one that can be written. */
  lemma QueryReadsBack(before: seq<string>, q: string, after: seq<string>)
    requires Stripped(q) && NoBreaks(before) && NoBreaks(after)
    ensures var lines := FileLines(before, QueryLines(q), after);
            var next := |before| + |QueryLines(q)|;
            && |before| < next < |lines| && lines[next] == "    expect:"
            && (QueryField(lines, |before|) == Some(Field(q, next)) <==> Writable(q))
            && ('\n' in q ==> QueryField(lines, |before|) == Some(Field(ReadOfBlock(q), next)))
  {
    hide *;
    var lines := FileLines(before, QueryLines(q), after);
    QueryLinesWhole(q);
    FileLinesAre(before, QueryLines(q), after);
    LinesAt(before, QueryLines(q), after, lines);
    QueryAt(lines, |before|, q);
  }

  lemma AllWhole(before: seq<string>, written: seq<string>, after: seq<string>)
    requires NoBreaks(before) && NoBreaks(written) && NoBreaks(after)
    ensures NoBreaks(before + written + ["    expect:"] + after)
  {
    assert NoBreaks(["    expect:"]);
  }

  lemma LinesAt(before: seq<string>, written: seq<string>, after: seq<string>, lines: seq<string>)
    requires lines == StrippedCrs(before + written + ["    expect:"] + after)
    ensures |before| + |written| < |lines| && lines[|before| + |written|] == "    expect:"
    ensures lines[|before|..|before| + |written|] == StrippedCrs(written)
  {
    assert StripCr("    expect:") == "    expect:";
  }

  lemma QueryAt(lines: seq<string>, at: nat, q: string)
    requires Stripped(q) && at + |QueryLines(q)| < |lines| && lines[at + |QueryLines(q)|] == "    expect:"
    requires lines[at..at + |QueryLines(q)|] == StrippedCrs(QueryLines(q))
    ensures |QueryLines(q)| > 0
    ensures QueryField(lines, at) == Some(Field(q, at + |QueryLines(q)|)) <==> Writable(q)
    ensures '\n' in q ==> QueryField(lines, at) == Some(Field(ReadOfBlock(q), at + |QueryLines(q)|))
  {
    if '\n' in q { BlockAtReads(lines, at, q); } else { LineAtReads(lines, at, q); }
  }

  lemma LineAtReads(lines: seq<string>, at: nat, q: string)
    requires Stripped(q) && '\n' !in q && at + 1 < |lines|
    requires lines[at..at + 1] == StrippedCrs(["    query: " + YamlQuote(q)])
    ensures QueryField(lines, at) == Some(Field(q, at + 1)) <==> Writable(q)
  {
    assert lines[at] == lines[at..at + 1][0];
    StripCrQuery(q);
    assert lines[at] == "    query: " + YamlQuote(q);
    hide StripCr, QueryField;
    if q == "|" {
      assert !NeedsQuotes("|");
      assert lines[at] == "    query: |";
      hide NeedsQuotes, BlockScalar;
      BarReads(lines, at);
    } else {
      SingleReads(lines, at, q);
      UnescapeEscaped(q);
    }
  }

  lemma BlockAtReads(lines: seq<string>, at: nat, q: string)
    requires Stripped(q) && '\n' in q && at + |QueryLines(q)| < |lines| && lines[at + |QueryLines(q)|] == "    expect:"
    requires lines[at..at + |QueryLines(q)|] == StrippedCrs(QueryLines(q))
    ensures QueryField(lines, at) == Some(Field(ReadOfBlock(q), at + |QueryLines(q)|))
    ensures QueryField(lines, at) == Some(Field(q, at + |QueryLines(q)|)) <==> Writable(q)
  {
    hide *;
    var ps := StrippedCrs(Pieces(q));
    BlockLines(q, Pieces(q));
    BlockWritable(q);
    BlockStands(lines, at, Pieces(q));
    PiecesHead(q);
    PiecesEnd(q);
    BlockReads(lines, at, ps);
  }

  lemma BlockLines(q: string, pieces: seq<string>)
    requires '\n' in q && pieces == Pieces(q)
    ensures QueryLines(q) == ["    query: |"] + Indented(pieces) && |QueryLines(q)| == 1 + |pieces|
    ensures |StrippedCrs(pieces)| == |pieces| && ReadOfBlock(q) == Joined(Emptied(StrippedCrs(pieces)))
  {
    hide Pieces, Joined, Emptied;
  }

  lemma BlockWritable(q: string)
    requires '\n' in q
    ensures ReadOfBlock(q) == q <==> Writable(q)
  {
    ReadOfBlockIs(q);
    hide ReadOfBlock, Pieces, AllKept;
  }

  lemma BlockStands(lines: seq<string>, at: nat, pieces: seq<string>)
    requires at + 1 + |pieces| < |lines| && lines[at + 1 + |pieces|] == "    expect:"
    requires lines[at..at + 1 + |pieces|] == StrippedCrs(["    query: |"] + Indented(pieces))
    ensures BlockAt(lines, at, StrippedCrs(pieces))
  {
    var part, ps := lines[at..at + 1 + |pieces|], StrippedCrs(pieces);
    assert lines[at] == part[0] && lines[at + 1..at + 1 + |pieces|] == part[1..];
    forall i | 0 <= i < |pieces| ensures part[1..][i] == Indented(ps)[i] {
      StripCrIndented(pieces[i]);
    }
    assert part[1..] == Indented(ps);
  }
}
