/** The tables of the JSON reader entry by entry, and that it reads what json.dumps writes. */
module JsonTables {
  import opened Options
  import opened Text
  import opened Numbers
  import opened SpecJson
  import opened SpecJsonLaws
  import ResultText

  /** White space is what Unicode calls so. */
  lemma SpacesExact(c: char)
    ensures IsSpace(c) <==>
            c as int in {0x9, 0xA, 0xB, 0xC, 0xD, 0x20, 0x85, 0xA0, 0x1680, 0x2000, 0x2001, 0x2002, 0x2003, 0x2004,
                         0x2005, 0x2006, 0x2007, 0x2008, 0x2009, 0x200A, 0x2028, 0x2029, 0x202F, 0x205F, 0x3000}
  {
  }

  const SHORT: map<char, int> :=
    map['"' := 0x22, '\\' := 0x5C, '/' := 0x2F, 'b' := 0x8, 'f' := 0xC, 'n' := 0xA, 'r' := 0xD, 't' := 0x9]

  lemma ShortExact(c: char)
    ensures ShortEscape(c).Some? <==> c in SHORT
    ensures c in SHORT ==> ShortEscape(c).value as int == SHORT[c]
  {
  }

  /** A bare word is true, false, null or a number: an integer of any size or one that f64 holds. */
  lemma {:induction false} WordExact(rules: Rules, word: string, v: Json)
    ensures WordValue(rules, word) == Some(v) <==>
            || (word == "true" && v == Bool(true)) || (word == "false" && v == Bool(false))
            || (word == "null" && v == Null)
            || (v == Number(word) && Matches(JSON_NUMBER, word) &&
                (Matches(DECIMAL_INTEGER, word) || rules.finite(word)))
  {
    JsonNumberExact(word);
    DecimalIntegerExact(word);
    NotNumbers();
    hide IsJsonNumber, IsDecimalInteger, Matches;
  }

  lemma NotNumbers()
    ensures !IsJsonNumber("true") && !IsJsonNumber("false") && !IsJsonNumber("null")
  {
    FirstOfNumber("true");
    FirstOfNumber("false");
    FirstOfNumber("null");
  }

  lemma FirstOfNumber(word: string)
    requires word != ""
    ensures IsJsonNumber(word) ==> word[0] == '-' || IsDigit(word[0])
  {
    var unsigned := DropFirst(word, {'-'});
    CutParts(unsigned[..ExponentAt(unsigned)]);
  }

  // ---- hex digits

  const LOWER := "0123456789abcdef"
  const UPPER := "0123456789ABCDEF"

  /** A hex digit is worth its place among the digits, in either case. */
  lemma HexDigitExact(c: char, v: nat)
    requires v < 16
    ensures IsHexDigit(c) && HexDigitValue(c) == v <==> c == LOWER[v] || c == UPPER[v]
  {
  }

  lemma HexSplits(n: nat)
    requires n <= 0xFFFF
    ensures n / 4096 < 16 && n == 4096 * (n / 4096) + 256 * (n / 256 % 16) + 16 * (n / 16 % 16) + n % 16
  {
    By256(n);
    By4096(n);
    var a := n / 16;
    var b := a / 16;
    assert n == 16 * a + n % 16;
    assert a == 16 * b + a % 16;
    assert b == 16 * (b / 16) + b % 16;
  }

  lemma By256(n: nat)
    ensures n / 256 == n / 16 / 16
  {
  }

  lemma By4096(n: nat)
    ensures n / 4096 == n / 16 / 16 / 16
  {
  }

  lemma HexDigitReads(v: nat)
    requires v < 16
    ensures IsHexDigit(LOWER[v]) && HexDigitValue(LOWER[v]) == v
  {
  }

  /** The four digits written for a number are read as it. */
  lemma HexReads(n: nat)
    requires n <= 0xFFFF
    ensures IsHex4(ResultText.Hex4(n)) && Hex4Value(ResultText.Hex4(n)) == n
  {
    HexSplits(n);
    HexDigitReads(n / 4096);
    HexDigitReads(n / 256 % 16);
    HexDigitReads(n / 16 % 16);
    HexDigitReads(n % 16);
    FourDigits(n);
    hide HexDigitValue, IsHexDigit, ResultText.Hex4;
  }

  lemma FourDigits(n: nat)
    requires n <= 0xFFFF
    ensures n / 4096 < 16
    ensures ResultText.Hex4(n) == [LOWER[n / 4096], LOWER[n / 256 % 16], LOWER[n / 16 % 16], LOWER[n % 16]]
  {
  }

  // ---- what json.dumps writes

  /** How a character is written, as a piece of a string. */
  lemma PieceFor(c: char) returns (p: Piece)
    ensures ValidPiece(p) && PieceChar(p) == c && forall k :: WritePiece(p, k) == ResultText.DumpsEscape(c) + k
  {
    var n := c as int;
    if n > 0xFFFF {
      p := PairFor(c);
    } else if 0x20 <= n <= 0x7E && c != '"' && c != '\\' {
      p := Raw(c);
    } else if n in {0x22, 0x5C, 0x8, 0xC, 0xA, 0xD, 0x9} {
      p := ShortFor(c);
    } else {
      p := CodeFor(c);
    }
  }

  lemma ShortFor(c: char) returns (p: Piece)
    requires c as int in {0x22, 0x5C, 0x8, 0xC, 0xA, 0xD, 0x9}
    ensures ValidPiece(p) && PieceChar(p) == c && forall k :: WritePiece(p, k) == ResultText.DumpsEscape(c) + k
  {
    p := Short(ResultText.DumpsEscape(c)[1]);
  }

  lemma CodeFor(c: char) returns (p: Piece)
    requires c as int <= 0xFFFF && ResultText.DumpsEscape(c) == ResultText.UnicodeEscape(c as int)
    ensures ValidPiece(p) && PieceChar(p) == c && forall k :: WritePiece(p, k) == ResultText.DumpsEscape(c) + k
  {
    HexReads(c as int);
    p := Code(ResultText.Hex4(c as int));
    hide ResultText.DumpsEscape, ResultText.Hex4, Hex4Value, IsHex4;
    forall k ensures WritePiece(p, k) == ResultText.UnicodeEscape(c as int) + k {
      assert "\\u" + p.hex + k == ['\\', 'u'] + (p.hex + k);
    }
  }

  lemma PairFor(c: char) returns (p: Piece)
    requires c as int > 0xFFFF
    ensures ValidPiece(p) && PieceChar(p) == c && forall k :: WritePiece(p, k) == ResultText.DumpsEscape(c) + k
  {
    var high, low := 0xD800 + (c as int - 0x10000) / 0x400, 0xDC00 + (c as int - 0x10000) % 0x400;
    CharIsPair(c);
    p := PairOf(high, low);
    DumpedPair(c);
    hide ResultText.DumpsEscape, ResultText.UnicodeEscape, WritePiece;
  }

  lemma DumpedPair(c: char)
    requires c as int > 0xFFFF
    ensures var high, low := 0xD800 + (c as int - 0x10000) / 0x400, 0xDC00 + (c as int - 0x10000) % 0x400;
            ResultText.DumpsEscape(c) == ResultText.UnicodeEscape(high) + ResultText.UnicodeEscape(low)
  {
    hide ResultText.UnicodeEscape;
  }

  lemma PairOf(high: nat, low: nat) returns (p: Piece)
    requires IsHigh(high) && IsLow(low)
    ensures ValidPiece(p) && PieceChar(p) as int == PairCode(high, low)
    ensures forall k :: WritePiece(p, k) == ResultText.UnicodeEscape(high) + ResultText.UnicodeEscape(low) + k
  {
    HexReads(high);
    HexReads(low);
    p := Pair(ResultText.Hex4(high), ResultText.Hex4(low));
    hide ResultText.Hex4, Hex4Value, IsHex4;
    forall k ensures WritePiece(p, k) == ResultText.UnicodeEscape(high) + ResultText.UnicodeEscape(low) + k {
      assert "\\u" + p.high + ("\\u" + p.low) + k == ['\\', 'u'] + (p.high + (['\\', 'u'] + (p.low + k)));
    }
  }

  lemma {:induction false} PiecesFor(chars: string, k: string) returns (pieces: seq<Piece>)
    ensures ValidPieces(pieces) && PiecesChars(pieces) == chars
    ensures WritePieces(pieces, k) == ResultText.WriteChars(ResultText.DumpsEscape, chars, "\"" + k)
  {
    hide ResultText.DumpsEscape, WritePiece, ValidPiece, PieceChar;
    if chars == "" {
      pieces := [];
    } else {
      var p := PieceFor(chars[0]);
      var rest := PiecesFor(chars[1..], k);
      pieces := [p] + rest;
      assert pieces[1..] == rest;
    }
  }

  /** A string as json.dumps writes it is read as that string. */
  lemma {:induction false} DumpedReads(chars: string, k: string)
    ensures ReadString(ResultText.Write(ResultText.DumpsEscape, ResultText.Str(chars), k)) == Some((chars, k))
  {
    var pieces := PiecesFor(chars, k);
    StringReads(pieces, k);
    hide ReadString, WritePieces, ResultText.WriteChars;
  }
}
