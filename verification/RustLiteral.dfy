/** escape_rust_string of crates/grafeo-spec-tests/build.rs: text put between the quotes of a Rust string
    literal, and what the compiler reads there. */
module RustLiteral {
  import opened Options
  import opened Gtest

  /** escape_rust_string: five replacements, one after the other. */
  function EscapeRust(s: string): string {
    Replace(Replace(Replace(Replace(Replace(s, "\\", "\\\\"), "\"", "\\\""), "\n", "\\n"), "\r", "\\r"), "\t", "\\t")
  }

  /** The character a one-character escape of a Rust string literal stands for. */
  function EscapeMeaning(c: char): Option<char> {
    match c
    case 'n' => Some('\n')
    case 'r' => Some('\r')
    case 't' => Some('\t')
    case '\\' => Some('\\')
    case '"' => Some('"')
    case '\'' => Some('\'')
    case '0' => Some('\0')
    case _ => None
  }

  /** A Rust string literal from just past its opening quote: the text, and what follows the closing
      quote. A bare carriage return is not allowed in one, nor here a line break. */
  function ReadLiteral(s: string): Option<(string, string)> {
    if s == "" then None
    else if s[0] == '"' then Some(("", s[1..]))
    else if s[0] == '\\' then
      if |s| < 2 || EscapeMeaning(s[1]).None? then None
      else
        match ReadLiteral(s[2..])
        case None => None
        case Some((text, rest)) => Some(([EscapeMeaning(s[1]).value] + text, rest))
    else if s[0] == '\n' || s[0] == '\r' then None
    else
      match ReadLiteral(s[1..])
      case None => None
      case Some((text, rest)) => Some(([s[0]] + text, rest))
  }

  /** How one character is written in the end. */
  function Unit(c: char): string {
    match c
    case '\\' => "\\\\"
    case '"' => "\\\""
    case '\n' => "\\n"
    case '\r' => "\\r"
    case '\t' => "\\t"
    case _ => [c]
  }

  lemma {:induction false} ReplaceApart(a: string, b: string, from: char, to: string)
    ensures Replace(a + b, [from], to) == Replace(a, [from], to) + Replace(b, [from], to)
  {
    if a == "" {
      assert a + b == b;
    } else {
      assert (a + b)[1..] == a[1..] + b;
      ReplaceApart(a[1..], b, from, to);
      var rest, more := Replace(a[1..], [from], to), Replace(b, [from], to);
      if a[0] == from {
        assert to + (rest + more) == to + rest + more;
      } else {
        assert [a[0]] + (rest + more) == [a[0]] + rest + more;
      }
    }
  }

  /** One pass over one character. */
  lemma ReplaceOne(c: char, from: char, to: string)
    ensures Replace([c], [from], to) == if c == from then to else [c]
  {
    assert [c][1..] == "" && Replace("", [from], to) == "";
    assert c != from ==> [from][0] != [c][0];
    assert to + "" == to && [c] + "" == [c];
  }

  /** A pass over two characters that are not the one it looks for. */
  lemma ReplaceTwo(c: char, d: char, from: char, to: string)
    requires c != from && d != from
    ensures Replace([c, d], [from], to) == [c, d]
  {
    assert [c, d] == [c] + [d];
    ReplaceApart([c], [d], from, to);
    ReplaceOne(c, from, to);
    ReplaceOne(d, from, to);
  }

  lemma EscapeApart(a: string, b: string)
    ensures EscapeRust(a + b) == EscapeRust(a) + EscapeRust(b)
  {
    hide Replace;
    ReplaceApart(a, b, '\\', "\\\\");
    var a1, b1 := Replace(a, "\\", "\\\\"), Replace(b, "\\", "\\\\");
    ReplaceApart(a1, b1, '"', "\\\"");
    var a2, b2 := Replace(a1, "\"", "\\\""), Replace(b1, "\"", "\\\"");
    ReplaceApart(a2, b2, '\n', "\\n");
    var a3, b3 := Replace(a2, "\n", "\\n"), Replace(b2, "\n", "\\n");
    ReplaceApart(a3, b3, '\r', "\\r");
    var a4, b4 := Replace(a3, "\r", "\\r"), Replace(b3, "\r", "\\r");
    ReplaceApart(a4, b4, '\t', "\\t");
  }

  /** Two characters a pass may have made are left alone by the later ones. */
  lemma PairsStay(d: char)
    requires d != '\n' && d != '\r' && d != '\t'
    ensures Replace(['\\', d], "\n", "\\n") == ['\\', d] && Replace(['\\', d], "\r", "\\r") == ['\\', d]
    ensures Replace(['\\', d], "\t", "\\t") == ['\\', d] && (d != '"' ==> Replace(['\\', d], "\"", "\\\"") == ['\\', d])
  {
    hide Replace;
    ReplaceTwo('\\', d, '\n', "\\n");
    ReplaceTwo('\\', d, '\r', "\\r");
    ReplaceTwo('\\', d, '\t', "\\t");
    if d != '"' { ReplaceTwo('\\', d, '"', "\\\""); }
  }

  lemma EscapeOne(c: char)
    ensures EscapeRust([c]) == Unit(c)
  {
    hide Replace;
    ReplaceOne(c, '\\', "\\\\");
    ReplaceOne(c, '"', "\\\"");
    ReplaceOne(c, '\n', "\\n");
    ReplaceOne(c, '\r', "\\r");
    ReplaceOne(c, '\t', "\\t");
    PairsStay('\\');
    PairsStay('"');
    PairsStay('n');
    PairsStay('r');
  }

  lemma UnitReads(c: char, k: string)
    ensures ReadLiteral(Unit(c) + k) ==
            match ReadLiteral(k)
            case None => None
            case Some((text, rest)) => Some(([c] + text, rest))
  {
    var s := Unit(c) + k;
    if |Unit(c)| == 1 {
      assert s[1..] == k;
    } else {
      assert s[2..] == k && EscapeMeaning(s[1]) == Some(c);
    }
  }

  /** Whatever the text, the literal made of it reads back as the text and ends where it was closed. */
  lemma {:induction false} LiteralReads(s: string, k: string)
    ensures ReadLiteral(EscapeRust(s) + ("\"" + k)) == Some((s, k))
  {
    if s == "" {
      EmptyEscape();
      assert ("\"" + k)[1..] == k && "" + ("\"" + k) == "\"" + k;
    } else {
      hide EscapeRust, ReadLiteral, Unit;
      assert s == [s[0]] + s[1..];
      EscapeApart([s[0]], s[1..]);
      EscapeOne(s[0]);
      LiteralReads(s[1..], k);
      var rest := EscapeRust(s[1..]) + ("\"" + k);
      assert EscapeRust(s) + ("\"" + k) == Unit(s[0]) + rest;
      UnitReads(s[0], rest);
    }
  }

  lemma EmptyEscape()
    ensures EscapeRust("") == ""
  {
  }
}
