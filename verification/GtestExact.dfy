/** What the build script reads in a line of a .gtest file and the block under it, for every file. */
module GtestExact {
  import opened Options
  import opened SpecJson
  import opened Gtest
  import opened GtestLaws

  // ---- white space

  /** t is what s holds from i to j, all before and after is white space, and t neither begins nor ends with any. */
  predicate CoreAt(s: string, t: string, i: nat, j: nat) {
    && i <= j <= |s| && t == s[i..j] && (t == "" || Stripped(t))
    && (forall k :: 0 <= k < i ==> IsSpace(s[k])) && forall k :: j <= k < |s| ==> IsSpace(s[k])
  }

  lemma TrimExact(s: string) returns (i: nat, j: nat)
    ensures CoreAt(s, Trim(s), i, j)
  {
    hide IsSpace, TrimStart, TrimEnd;
    var a := TrimStart(s);
    i := |s| - |a|;
    j := i + |TrimEnd(a)|;
    TrimmedAt(s, a, TrimEnd(a), i);
  }

  lemma TrimmedAt(s: string, a: string, t: string, i: nat)
    requires i <= |s| && a == s[i..] && t <= a && forall k :: 0 <= k < i ==> IsSpace(s[k])
    requires forall k :: |t| <= k < |a| ==> IsSpace(a[k])
    requires (a != "" ==> !IsSpace(a[0])) && (t != "" ==> !IsSpace(t[|t| - 1]))
    ensures CoreAt(s, t, i, i + |t|)
  {
    hide IsSpace;
    assert t == s[i..i + |t|];
    forall k | i + |t| <= k < |s| ensures IsSpace(s[k]) { assert s[k] == a[k - i]; }
  }

  // ---- quoted texts

  /** Escapes undone from left to right: a backslash before a backslash or a quote goes, and a NUL is a backslash. */
  function Unescaped(s: string): string {
    if s == "" then ""
    else if s[0] == '\\' && |s| >= 2 && s[1] in {'\\', '"', '\''} then [s[1]] + Unescaped(s[2..])
    else [if s[0] == '\0' then '\\' else s[0]] + Unescaped(s[1..])
  }

  /** The text with the backslash pairs marked, and with the escaped double quotes back as well. */
  function Pairs(s: string): string {
    Replace(s, "\\\\", "\0")
  }

  function Doubles(s: string): string {
    Replace(s, "\\\"", "\"")
  }

  function Singles(s: string): string {
    Replace(s, "\\'", "'")
  }

  function Nuls(s: string): string {
    Replace(s, "\0", "\\")
  }

  lemma Kept1(c: char, s: string)
    requires c != '\\'
    ensures Pairs([c] + s) == [c] + Pairs(s) && Doubles([c] + s) == [c] + Doubles(s)
    ensures Singles([c] + s) == [c] + Singles(s)
    ensures c != '\0' ==> Nuls([c] + s) == [c] + Nuls(s)
    ensures c == '\0' ==> Nuls([c] + s) == "\\" + Nuls(s)
  {
    ReplaceKeep(c, s, "\\\\", "\0", 0);
    ReplaceKeep(c, s, "\\\"", "\"", 0);
    ReplaceKeep(c, s, "\\'", "'", 0);
    if c != '\0' { ReplaceKeep(c, s, "\0", "\\", 0); } else { ReplaceHit(s, "\0", "\\"); }
    hide Replace;
  }

  lemma Backslash(s: string)
    ensures Pairs("\\\\" + s) == "\0" + Pairs(s) && Doubles("\\\"" + s) == "\"" + Doubles(s)
    ensures Singles("\\'" + s) == "'" + Singles(s) && Nuls("\\" + s) == "\\" + Nuls(s)
  {
    ReplaceHit(s, "\\\\", "\0");
    ReplaceHit(s, "\\\"", "\"");
    ReplaceHit(s, "\\'", "'");
    ReplaceKeep('\\', s, "\0", "\\", 0);
  }

  /** A backslash stays where what follows is not what is looked for. */
  lemma LoneBackslash(s: string)
    ensures s == "" || s[0] != '\\' ==> Pairs("\\" + s) == "\\" + Pairs(s)
    ensures s == "" || s[0] != '"' ==> Doubles("\\" + s) == "\\" + Doubles(s)
    ensures s == "" || s[0] != '\'' ==> Singles("\\" + s) == "\\" + Singles(s)
  {
    assert ("\\" + s)[1..] == s;
    if s != "" { assert ("\\" + s)[1] == s[0]; }
  }

  /** A first character that is no backslash stays first. */
  lemma FirstKept(s: string)
    requires s != "" && s[0] != '\\'
    ensures Pairs(s) != "" && Pairs(s)[0] == s[0] && Doubles(Pairs(s)) != "" && Doubles(Pairs(s))[0] == s[0]
  {
    hide Pairs, Doubles;
    assert s == [s[0]] + s[1..];
    Kept1(s[0], s[1..]);
    Kept1(s[0], Pairs(s[1..]));
  }

  lemma NothingLeft()
    ensures Pairs("") == "" && Doubles("") == "" && Singles("") == "" && Nuls("") == ""
  {
  }

  /** The four replacements one after the other undo the escapes from left to right. */
  lemma {:induction false} UnescapeExact(s: string)
    ensures Nuls(Singles(Doubles(Pairs(s)))) == Unescaped(s) && Unescape(s) == Unescaped(s)
  {
    assert Unescape(s) == Nuls(Singles(Doubles(Pairs(s))));
    hide Pairs, Doubles, Singles, Nuls, Unescape;
    if s == "" {
      NothingLeft();
    } else if s[0] == '\\' && |s| >= 2 && s[1] in {'\\', '"', '\''} {
      UnescapeExact(s[2..]);
      assert s == ['\\'] + ([s[1]] + s[2..]);
      EscapeUndone(s[1], s[2..]);
    } else {
      UnescapeExact(s[1..]);
      assert s == [s[0]] + s[1..];
      if s[0] == '\\' { LoneKept(s[1..]); } else { OtherKept(s[0], s[1..]); }
    }
  }

  lemma EscapeUndone(c: char, t: string)
    requires c in {'\\', '"', '\''}
    ensures Nuls(Singles(Doubles(Pairs(['\\'] + ([c] + t))))) == [c] + Nuls(Singles(Doubles(Pairs(t))))
  {
    hide Pairs, Doubles, Singles, Nuls;
    var p := Pairs(t);
    var d := Doubles(p);
    var q := Singles(d);
    assert "\\\\" + t == ['\\'] + (['\\'] + t) && "\\\"" + p == ['\\'] + (['"'] + p);
    assert "\\'" + d == ['\\'] + (['\''] + d);
    if c == '\\' {
      Backslash(t);
      Kept1('\0', p);
      Kept1('\0', d);
      Kept1('\0', q);
    } else {
      LoneBackslash([c] + t);
      Kept1(c, t);
      if c == '"' {
        Backslash(p);
        Kept1(c, d);
        Kept1(c, q);
      } else {
        LoneBackslash([c] + p);
        Kept1(c, p);
        Backslash(d);
        Kept1(c, q);
      }
    }
  }

  lemma LoneKept(t: string)
    requires t == "" || t[0] !in {'\\', '"', '\''}
    ensures Nuls(Singles(Doubles(Pairs("\\" + t)))) == "\\" + Nuls(Singles(Doubles(Pairs(t))))
  {
    hide Pairs, Doubles, Singles, Nuls;
    if t == "" { NothingLeft(); } else { FirstKept(t); }
    LoneBackslash(t);
    LoneBackslash(Pairs(t));
    LoneBackslash(Doubles(Pairs(t)));
    Backslash(Singles(Doubles(Pairs(t))));
  }

  lemma OtherKept(c: char, t: string)
    requires c != '\\'
    ensures Nuls(Singles(Doubles(Pairs([c] + t)))) ==
            [if c == '\0' then '\\' else c] + Nuls(Singles(Doubles(Pairs(t))))
  {
    hide Pairs, Doubles, Singles, Nuls;
    Kept1(c, t);
    Kept1(c, Pairs(t));
    Kept1(c, Doubles(Pairs(t)));
    Kept1(c, Singles(Doubles(Pairs(t))));
  }

  /** A value in quotes of one kind is what is between them, unescaped; any other is itself, white space off. */
  function Meaning(t: string): string {
    if InQuotes(t) then Unescaped(t[1..|t| - 1]) else t
  }

  predicate InQuotes(t: string) {
    |t| >= 2 && t[0] == t[|t| - 1] && t[0] in {'"', '\''}
  }

  lemma QuotedIs(t: string)
    requires Trim(t) == t
    ensures IsQuoted(t) <==> InQuotes(t)
  {
    hide Trim;
  }

  lemma {:induction false} UnquoteExact(s: string)
    ensures Unquote(s) == Meaning(Trim(s))
  {
    TrimTwice(s);
    var t := Trim(s);
    QuotedIs(t);
    if InQuotes(t) { UnescapeExact(t[1..|t| - 1]); }
    hide Unescape, Trim, IsQuoted, Unescaped;
  }

  lemma TrimTwice(s: string)
    ensures Trim(Trim(s)) == Trim(s)
  {
    var i, j := TrimExact(s);
    hide Trim;
    if Trim(s) != "" { TrimStripped(Trim(s)); } else { assert Blank(""); BlankTrim(""); }
  }

  /** What the writer puts in quotes, and how. */
  lemma {:induction false} QuotedExactly(s: string)
    ensures var plain := forall c :: c in s ==> c !in {':', '{', '}', '[', ']', '"', '\'', '\n'};
            YamlQuote(s) == if plain then s else "\"" + Doubled(s) + "\""
  {
    EscapedIs(s);
    hide Escaped, Doubled;
    assert forall c: char :: c in ":{}\n\"'[]" <==> c in {':', '{', '}', '[', ']', '"', '\'', '\n'};
    if NeedsQuotes(s) {
      var i :| 0 <= i < |s| && s[i] in ":{}\n\"'[]";
      assert s[i] in s;
    }
  }

  // ---- keys and values

  /** A part of a line: a character that is no quote, or quotes with what is between them. */
  datatype Segment = Plain(c: char) | Quoted(quote: char, inner: string)

  predicate Proper(x: Segment) {
    match x
    case Plain(c) => c != '"' && c != '\''
    case Quoted(quote, inner) => quote in {'"', '\''} && quote !in inner
  }

  function Rendered(xs: seq<Segment>): string {
    if xs == [] then ""
    else
      var last := xs[|xs| - 1];
      Rendered(xs[..|xs| - 1]) +
      match last
      case Plain(c) => [c]
      case Quoted(quote, inner) => [quote] + inner + [quote]
  }

  ghost predicate Closed(s: string, xs: seq<Segment>) {
    s == Rendered(xs) && forall i :: 0 <= i < |xs| ==> Proper(xs[i])
  }

  lemma RenderedMore(xs: seq<Segment>, x: Segment)
    ensures Rendered(xs + [x]) ==
            Rendered(xs) + if x.Plain? then [x.c] else [x.quote] + x.inner + [x.quote]
  {
    assert (xs + [x])[..|xs|] == xs;
  }

  /** How a line with open quotes is made: whole segments, the quote, and no other one of its kind. */
  ghost predicate OpenedBy(s: string, quote: char, xs: seq<Segment>, inner: string) {
    exists front :: Closed(front, xs) && s == front + [quote] + inner && quote !in inner
  }

  /** What has been read up to i, as the quotes open there say. */
  ghost predicate ReadSo(s: string, state: Quotes, xs: seq<Segment>, inner: string) {
    match state
    case Neither => Closed(s, xs)
    case InSingle => OpenedBy(s, '\'', xs, inner)
    case InDouble => OpenedBy(s, '"', xs, inner)
  }

  lemma {:induction false} QuotingSound(s: string, i: nat) returns (xs: seq<Segment>, inner: string)
    requires i <= |s|
    ensures ReadSo(s[..i], Quoting(s, i), xs, inner)
  {
    if i == 0 {
      xs, inner := [], "";
    } else {
      var before := Quoting(s, i - 1);
      xs, inner := QuotingSound(s, i - 1);
      assert s[..i] == s[..i - 1] + [s[i - 1]];
      xs, inner := OneMore(s[..i - 1], before, xs, inner, s[i - 1]);
    }
  }

  function NextQuotes(before: Quotes, c: char): Quotes {
    if c == '\'' && before != InDouble then (if before == InSingle then Neither else InSingle)
    else if c == '"' && before != InSingle then (if before == InDouble then Neither else InDouble)
    else before
  }

  lemma OneMore(s: string, before: Quotes, xs: seq<Segment>, inner: string, c: char)
    returns (ys: seq<Segment>, more: string)
    requires ReadSo(s, before, xs, inner)
    ensures ReadSo(s + [c], NextQuotes(before, c), ys, more)
  {
    if before == Neither {
      if c == '\'' || c == '"' {
        ys, more := xs, "";
        assert s + [c] == s + [c] + "";
        assert OpenedBy(s + [c], c, xs, "");
      } else {
        ys, more := xs + [Plain(c)], "";
        RenderedMore(xs, Plain(c));
      }
    } else {
      var quote := if before == InSingle then '\'' else '"';
      ys, more := InsideMore(s, quote, xs, inner, c);
    }
  }

  lemma InsideMore(s: string, quote: char, xs: seq<Segment>, inner: string, c: char)
    returns (ys: seq<Segment>, more: string)
    requires quote in {'"', '\''} && OpenedBy(s, quote, xs, inner)
    ensures if c == quote then Closed(s + [c], ys) else OpenedBy(s + [c], quote, ys, more)
  {
    var front :| Closed(front, xs) && s == front + [quote] + inner && quote !in inner;
    if c == quote {
      ys, more := xs + [Quoted(quote, inner)], "";
      RenderedMore(xs, Quoted(quote, inner));
      assert s + [c] == front + ([quote] + inner + [quote]);
    } else {
      ys, more := xs, inner + [c];
      assert s + [c] == front + [quote] + (inner + [c]);
    }
  }

  /** Nothing but its own quote closes a quote. */
  lemma {:induction false} QuotingInside(front: string, quote: char, inner: string, n: nat, s: string)
    requires quote in {'"', '\''} && quote !in inner && n <= |inner| && s == front + [quote] + inner
    requires Quoting(s, |front|) == Neither
    ensures Quoting(s, |front| + 1 + n) == if quote == '"' then InDouble else InSingle
  {
    if n > 0 {
      QuotingInside(front, quote, inner, n - 1, s);
      assert s[|front| + n] == inner[n - 1];
    } else {
      assert s[|front|] == quote;
    }
  }

  lemma {:induction false} QuotingPrefix(s: string, t: string, i: nat)
    requires i <= |s| && i <= |t| && s[..i] == t[..i]
    ensures Quoting(s, i) == Quoting(t, i)
  {
    if i > 0 {
      assert s[i - 1] == s[..i][i - 1] && t[i - 1] == t[..i][i - 1];
      assert s[..i - 1] == s[..i][..i - 1] && t[..i - 1] == t[..i][..i - 1];
      QuotingPrefix(s, t, i - 1);
    }
  }

  lemma PlainKept(a: string, c: char)
    requires Quoting(a, |a|) == Neither && c != '"' && c != '\''
    ensures Quoting(a + [c], |a| + 1) == Neither
  {
    var s := a + [c];
    assert s[..|a|] == a[..|a|] && s[|a|] == c;
    QuotingPrefix(s, a, |a|);
  }

  lemma QuotedKept(a: string, quote: char, inner: string)
    requires Quoting(a, |a|) == Neither && quote in {'"', '\''} && quote !in inner
    ensures var s := a + ([quote] + inner + [quote]); Quoting(s, |s|) == Neither
  {
    var t := a + [quote] + inner;
    var s := a + ([quote] + inner + [quote]);
    assert t[..|a|] == a[..|a|];
    QuotingPrefix(t, a, |a|);
    QuotingInside(a, quote, inner, |inner|, t);
    assert s == t + [quote];
    assert s[..|t|] == t[..|t|] && s[|t|] == quote;
    QuotingPrefix(s, t, |t|);
  }

  lemma {:induction false} QuotingComplete(xs: seq<Segment>)
    requires forall i :: 0 <= i < |xs| ==> Proper(xs[i])
    ensures Quoting(Rendered(xs), |Rendered(xs)|) == Neither
  {
    if xs != [] {
      var front, x := xs[..|xs| - 1], xs[|xs| - 1];
      QuotingComplete(front);
      assert xs == front + [x];
      RenderedMore(front, x);
      assert Proper(x);
      hide Quoting, Rendered;
      match x
      case Plain(c) => PlainKept(Rendered(front), c);
      case Quoted(quote, inner) => QuotedKept(Rendered(front), quote, inner);
    }
  }

  /** No quotes are open exactly after whole segments. */
  lemma {:induction false} QuotingExact(s: string, i: nat)
    requires i <= |s|
    ensures Quoting(s, i) == Neither <==> exists xs :: Closed(s[..i], xs)
  {
    if Quoting(s, i) == Neither {
      var xs, inner := QuotingSound(s, i);
    }
    if xs :| Closed(s[..i], xs) {
      hide Rendered;
      QuotingComplete(xs);
      QuotingPrefix(s, s[..i], i);
    }
  }

  /** A colon outside quotes, with something before it. */
  ghost predicate Colon(s: string, i: nat) {
    i < |s| && s[i] == ':' && (exists xs :: Closed(s[..i], xs)) && !Blank(s[..i])
  }

  /** The key and the value around the first such colon. */
  ghost predicate Keyed(s: string, key: string, value: string) {
    exists i: nat :: Colon(s, i) && (forall j: nat :: j < i ==> !Colon(s, j)) &&
                     key == Trim(s[..i]) && value == Trim(s[i + 1..])
  }

  lemma ColonExact(s: string, i: nat)
    ensures Colon(s, i) <==> i < |s| && Divides(s, i)
  {
    if i < |s| {
      QuotingExact(s, i);
      BlankTrim(s[..i]);
    }
    hide Quoting, Closed, Trim, Blank;
  }

  /** parse_kv finds a key and a value exactly where there are. */
  lemma {:induction false} KeyValueExact(s: string, key: string, value: string)
    ensures KeyValue(s) == Some((key, value)) <==> Keyed(s, key, value)
  {
    forall i: nat { ColonExact(s, i); }
    hide Colon, Divides, Trim, Divider;
    var k := Divider(s, 0);
    if k < |s| { assert Colon(s, k); }
  }

  // ---- blocks

  /** The line is blank, or indented as far as the block. */
  predicate Inside(line: string, indent: nat) {
    Blank(line) || Indent(line) >= indent
  }

  /** The line without the indent, a blank one empty. */
  function Undented(line: string, indent: nat): string
    requires Inside(line, indent)
  {
    if Blank(line) then "" else line[indent..]
  }

  function Dedented(lines: seq<string>, indent: nat): (r: seq<string>)
    requires forall i :: 0 <= i < |lines| ==> Inside(lines[i], indent)
    ensures |r| == |lines|
  {
    seq(|lines|, i requires 0 <= i < |lines| => Undented(lines[i], indent))
  }

  /** The text of the block under line idx and the line after it: the lines down to the first that is not inside,
      joined, a line break before them when the first is blank, white space off the end. */
  predicate IsBlock(lines: seq<string>, idx: nat, f: Field)
    requires idx < |lines|
  {
    if idx + 1 == |lines| then f == Field("", idx + 1)
    else
      var first := lines[idx + 1];
      var indent := Indent(first);
      && idx + 1 < f.next <= |lines|
      && (forall j :: idx + 1 <= j < f.next ==> Inside(lines[j], indent))
      && (f.next < |lines| ==> !Inside(lines[f.next], indent))
      && f.query == TrimEnd((if Blank(first) then "\n" else "") + Joined(Dedented(lines[idx + 1..f.next], indent)))
  }

  lemma InsideText(line: string, indent: nat)
    requires !Blank(line) && Inside(line, indent)
    ensures |line| > indent
  {
    BlankTrim(line);
  }

  /** Putting the lines of a block together is joining them, but for a first one that is blank. */
  lemma {:induction false} GlueExact(lines: seq<string>, indent: nat)
    requires lines != [] && forall i :: 0 <= i < |lines| ==> Inside(lines[i], indent)
    ensures Glue(lines, indent) == (if Blank(lines[0]) then "\n" else "") + Joined(Dedented(lines, indent))
    ensures Glue(lines, indent) != ""
  {
    hide Blank, Inside, Joined, Glued, Glue, Dedented, Undented;
    var n := |lines| - 1;
    var front, last := lines[..n], lines[n];
    GlueUnfolds(lines, indent);
    if n == 0 {
      FirstGlued(last, indent);
      DedentedOne(last, indent);
      assert lines == [last];
    } else {
      GlueExact(front, indent);
      DedentedMore(front, last, indent);
      assert lines == front + [last];
      JoinedAppend(Dedented(front, indent), Undented(last, indent));
      NextGlued(Glue(front, indent), last, indent);
      Regroup(if Blank(lines[0]) then "\n" else "", Joined(Dedented(front, indent)), Undented(last, indent));
    }
  }

  lemma GlueUnfolds(lines: seq<string>, indent: nat)
    requires lines != []
    ensures var n := |lines| - 1; Glue(lines, indent) == Glued(Glue(lines[..n], indent), lines[n], indent)
    ensures Glue([], indent) == "" && (|lines| == 1 ==> lines[..0] == [])
  {
    hide Glued;
  }

  lemma DedentedOne(line: string, indent: nat)
    requires Inside(line, indent)
    ensures Dedented([line], indent) == [Undented(line, indent)]
    ensures Joined([Undented(line, indent)]) == Undented(line, indent)
  {
    hide Inside, Undented;
  }

  lemma DedentedMore(front: seq<string>, last: string, indent: nat)
    requires Inside(last, indent) && forall i :: 0 <= i < |front| ==> Inside(front[i], indent)
    ensures forall i :: 0 <= i <= |front| ==> Inside((front + [last])[i], indent)
    ensures Dedented(front + [last], indent) == Dedented(front, indent) + [Undented(last, indent)]
  {
    hide Inside, Undented;
  }

  lemma Regroup(a: string, b: string, c: string)
    ensures a + b + "\n" + c == a + (b + "\n" + c)
  {
  }

  lemma FirstGlued(line: string, indent: nat)
    requires Inside(line, indent)
    ensures Glued("", line, indent) == (if Blank(line) then "\n" else "") + Undented(line, indent)
    ensures Glued("", line, indent) != ""
  {
    if !Blank(line) { InsideText(line, indent); }
    hide Blank, Trim;
  }

  lemma NextGlued(front: string, line: string, indent: nat)
    requires front != "" && Inside(line, indent)
    ensures Glued(front, line, indent) == front + "\n" + Undented(line, indent)
  {
    if !Blank(line) { InsideText(line, indent); }
    hide Blank, Trim;
  }

  lemma InsideExact(line: string, indent: nat)
    ensures Inside(line, indent) <==> !Stops(line, indent)
  {
  }

  lemma BlockInside(lines: seq<string>, first: nat, end: nat, indent: nat)
    requires first <= end <= |lines| && forall j :: first <= j < end ==> !Stops(lines[j], indent)
    ensures forall i :: 0 <= i < end - first ==> Inside(lines[first..end][i], indent)
    ensures forall j :: first <= j < end ==> Inside(lines[j], indent)
  {
    forall j | first <= j < end ensures Inside(lines[j], indent) { InsideExact(lines[j], indent); }
    hide Inside, Stops;
  }

  lemma BlockRead(lines: seq<string>, idx: nat)
    requires idx + 1 < |lines|
    ensures IsBlock(lines, idx, BlockScalar(lines, idx))
  {
    hide Glue, Inside, Stops, Blank, Dedented, Joined, TrimEnd, BlockEnd;
    var indent := Indent(lines[idx + 1]);
    var end := BlockEnd(lines, idx + 1, indent);
    FirstStays(lines, idx);
    BlockInside(lines, idx + 1, end, indent);
    if end < |lines| { InsideExact(lines[end], indent); }
    hide Indent;
    GlueExact(lines[idx + 1..end], indent);
  }

  lemma BlockOnce(lines: seq<string>, idx: nat, f: Field, g: Field)
    requires idx < |lines| && IsBlock(lines, idx, f) && IsBlock(lines, idx, g)
    ensures f == g
  {
    hide Inside, Blank, Dedented, Joined, TrimEnd, Indent;
    if idx + 1 < |lines| { assert f.next == g.next; }
  }

  /** parse_block_scalar reads exactly the block under the line. */
  lemma {:induction false} BlockExact(lines: seq<string>, idx: nat, f: Field)
    requires idx < |lines|
    ensures BlockScalar(lines, idx) == f <==> IsBlock(lines, idx, f)
  {
    if idx + 1 < |lines| { BlockRead(lines, idx); } else { NoBlock(lines, idx); }
    if IsBlock(lines, idx, f) { BlockOnce(lines, idx, f, BlockScalar(lines, idx)); }
    hide BlockScalar;
  }

  /** The query of the line: the value of its key, or the block under it. */
  ghost predicate IsQuery(lines: seq<string>, idx: nat, f: Field)
    requires idx < |lines|
  {
    exists value :: Keyed(Trim(lines[idx]), "query", value) &&
                    if value == "|" then IsBlock(lines, idx, f) else f == Field(Meaning(value), idx + 1)
  }

  lemma KeyedTrimmed(s: string, key: string, value: string)
    requires KeyValue(s) == Some((key, value))
    ensures Unquote(value) == Meaning(value)
  {
    var k := Divider(s, 0);
    TrimTwice(s[k + 1..]);
    hide Trim, Divider, Meaning;
    UnquoteExact(value);
  }

  lemma QueryRead(lines: seq<string>, idx: nat)
    requires idx < |lines| && QueryField(lines, idx).Some?
    ensures IsQuery(lines, idx, QueryField(lines, idx).value)
  {
    var line := Trim(lines[idx]);
    var value := KeyValue(line).value.1;
    hide Trim, KeyValue, Keyed, BlockScalar, IsBlock, Meaning, Unquote;
    KeyValueExact(line, "query", value);
    KeyedTrimmed(line, "query", value);
    BlockExact(lines, idx, BlockScalar(lines, idx));
  }

  lemma QueryOf(lines: seq<string>, idx: nat, value: string)
    requires idx < |lines| && KeyValue(Trim(lines[idx])) == Some(("query", value))
    ensures QueryField(lines, idx) ==
            Some(if value == "|" then BlockScalar(lines, idx) else Field(Unquote(value), idx + 1))
  {
    hide Trim, KeyValue, BlockScalar, Unquote;
  }

  lemma QueryFound(lines: seq<string>, idx: nat, f: Field, value: string)
    requires idx < |lines| && Keyed(Trim(lines[idx]), "query", value)
    requires if value == "|" then IsBlock(lines, idx, f) else f == Field(Meaning(value), idx + 1)
    ensures QueryField(lines, idx) == Some(f)
  {
    var line := Trim(lines[idx]);
    hide *;
    KeyValueExact(line, "query", value);
    QueryOf(lines, idx, value);
    if value == "|" { BlockExact(lines, idx, f); } else { KeyedTrimmed(line, "query", value); }
  }

  /** The build script reads a query exactly where there is one, and reads that query. */
  lemma {:induction false} QueryExact(lines: seq<string>, idx: nat, f: Field)
    requires idx < |lines|
    ensures QueryField(lines, idx) == Some(f) <==> IsQuery(lines, idx, f)
  {
    hide QueryField, Keyed, IsBlock, Meaning, Trim;
    if QueryField(lines, idx) == Some(f) { QueryRead(lines, idx); }
    if IsQuery(lines, idx, f) {
      var value :| Keyed(Trim(lines[idx]), "query", value) &&
                   if value == "|" then IsBlock(lines, idx, f) else f == Field(Meaning(value), idx + 1);
      QueryFound(lines, idx, f, value);
    }
  }

  // ---- lines

  /** The lines of a text, from its pieces: one that a line feed ends loses a carriage return before it, and what
      comes after the last line feed is a line when there is any. */
  function LinesOf(ps: seq<string>): seq<string>
    requires ps != []
  {
    StrippedCrs(ps[..|ps| - 1]) + if ps[|ps| - 1] == "" then [] else [ps[|ps| - 1]]
  }

  lemma LinesOfTail(ps: seq<string>)
    requires |ps| > 1
    ensures LinesOf(ps) == [StripCr(ps[0])] + LinesOf(ps[1..])
  {
    hide StripCr, StrippedCrs;
    var n := |ps| - 1;
    assert ps[..n][1..] == ps[1..][..n - 1] && ps[..n][0] == ps[0] && ps[1..][n - 1] == ps[n];
    StrippedHead(ps[..n]);
  }

  lemma OnePiece(s: string)
    requires '\n' !in s
    ensures Lines(s) == LinesOf([s])
  {
    if s != "" { assert LineEnd(s) == |s|; }
  }

  lemma {:induction false} LinesExact(s: string)
    ensures Lines(s) == LinesOf(Pieces(s))
    decreases |s|
  {
    var ps := Pieces(s);
    PiecesJoin(s);
    if |ps| == 1 {
      assert ps == [s];
      OnePiece(s);
    } else {
      var more := Joined(ps[1..]);
      assert s == ps[0] + "\n" + more;
      assert NoBreaks(ps[1..]);
      JoinPieces(ps[1..]);
      hide Lines, Pieces, Joined, NoBreaks, LinesOf;
      LinesExact(more);
      LinesHead(ps[0], more);
      LinesOfTail(ps);
    }
  }
}
