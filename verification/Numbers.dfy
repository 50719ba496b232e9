/** The number recognisers of crates/grafeo-spec-tests/build.rs and the regular expressions they
    promise to recognise. */
module Numbers {
  import opened Text

  // ---- the recognisers

  function DropFirst(s: string, signs: set<char>): (r: string) {
    if s != [] && s[0] in signs then s[1..] else s
  }

  const SIGNS: set<char> := {'+', '-'}

  /** Where the first e or E stands, or |s|. */
  function ExponentAt(s: string): (k: nat)
    ensures k <= |s|
    ensures forall i :: 0 <= i < k ==> s[i] != 'e' && s[i] != 'E'
    ensures k < |s| ==> s[k] == 'e' || s[k] == 'E'
  {
    if s == [] || s[0] == 'e' || s[0] == 'E' then 0 else 1 + ExponentAt(s[1..])
  }

  /** is_decimal_integer. */
  predicate IsDecimalInteger(text: string) {
    var digits := DropFirst(text, SIGNS);
    digits != [] && AllDigits(digits)
  }

  /** The digits after an exponent's e, with its optional sign. */
  predicate ExponentDigits(e: string) {
    var digits := DropFirst(e, SIGNS);
    digits != [] && AllDigits(digits)
  }

  /** is_decimal_number. */
  predicate IsDecimalNumber(text: string) {
    var unsigned := DropFirst(text, SIGNS);
    var k := ExponentAt(unsigned);
    var cut := Cut(unsigned[..k], '.');
    && (cut.before != [] || cut.after != []) && AllDigits(cut.before) && AllDigits(cut.after)
    && (k < |unsigned| ==> ExponentDigits(unsigned[k + 1..]))
  }

  /** is_json_number. */
  predicate IsJsonNumber(word: string) {
    var unsigned := DropFirst(word, {'-'});
    var k := ExponentAt(unsigned);
    var cut := Cut(unsigned[..k], '.');
    && cut.before != [] && AllDigits(cut.before) && (cut.before == "0" || cut.before[0] != '0')
    && (cut.found ==> cut.after != [] && AllDigits(cut.after))
    && (k < |unsigned| ==> ExponentDigits(unsigned[k + 1..]))
  }

  // ---- regular expressions

  datatype Regex =
    | One(chars: set<char>)
    | Many(chars: set<char>)
    | Then(first: Regex, second: Regex)
    | Or(left: Regex, right: Regex)
    | Maybe(inner: Regex)

  ghost predicate Matches(r: Regex, s: string) {
    match r
    case One(chars) => |s| == 1 && s[0] in chars
    case Many(chars) => forall i :: 0 <= i < |s| ==> s[i] in chars
    case Then(a, b) => exists k :: 0 <= k <= |s| && Matches(a, s[..k]) && Matches(b, s[k..])
    case Or(a, b) => Matches(a, s) || Matches(b, s)
    case Maybe(a) => s == [] || Matches(a, s)
  }

  const DIGITS: set<char> := {'0', '1', '2', '3', '4', '5', '6', '7', '8', '9'}
  const NONZERO: set<char> := DIGITS - {'0'}

  function Plus(chars: set<char>): Regex {
    Then(One(chars), Many(chars))
  }

  /** ([eE][+-]?[0-9]+)? */
  const EXPONENT: Regex := Maybe(Then(One({'e', 'E'}), Then(Maybe(One(SIGNS)), Plus(DIGITS))))

  /** [+-]?([0-9]+(\.[0-9]*)?|\.[0-9]+)([eE][+-]?[0-9]+)? */
  const DECIMAL_NUMBER: Regex :=
    Then(Maybe(One(SIGNS)),
         Then(Or(Then(Plus(DIGITS), Maybe(Then(One({'.'}), Many(DIGITS)))), Then(One({'.'}), Plus(DIGITS))),
              EXPONENT))

  /** [+-]?[0-9]+ */
  const DECIMAL_INTEGER: Regex := Then(Maybe(One(SIGNS)), Plus(DIGITS))

  /** -?(0|[1-9][0-9]*)(\.[0-9]+)?([eE][+-]?[0-9]+)? */
  const JSON_NUMBER: Regex :=
    Then(Maybe(One({'-'})),
         Then(Or(One({'0'}), Then(One(NONZERO), Many(DIGITS))),
              Then(Maybe(Then(One({'.'}), Plus(DIGITS))), EXPONENT)))

  // ---- parts of a number

  lemma DigitSet(c: char)
    ensures c in DIGITS <==> IsDigit(c)
  {
    if IsDigit(c) {
      assert c as int in {48, 49, 50, 51, 52, 53, 54, 55, 56, 57};
    }
  }

  lemma DigitsMatch(s: string)
    ensures Matches(Many(DIGITS), s) <==> AllDigits(s)
    ensures Matches(Plus(DIGITS), s) <==> s != [] && AllDigits(s)
  {
    forall c: char ensures c in DIGITS <==> IsDigit(c) { DigitSet(c); }
    if s != [] && AllDigits(s) {
      assert Matches(One(DIGITS), s[..1]) && Matches(Many(DIGITS), s[1..]);
    }
    if Matches(Plus(DIGITS), s) {
      var k :| 0 <= k <= |s| && Matches(One(DIGITS), s[..k]) && Matches(Many(DIGITS), s[k..]);
      assert s[0] == s[..k][0];
      forall i | 0 < i < |s| ensures IsDigit(s[i]) { assert s[i] == s[k..][i - 1]; }
    }
  }

  /** A concatenation matches when its parts do. */
  lemma ThenMatches(a: Regex, b: Regex, s: string, t: string)
    requires Matches(a, s) && Matches(b, t)
    ensures Matches(Then(a, b), s + t)
  {
    assert (s + t)[..|s|] == s && (s + t)[|s|..] == t;
  }

  lemma ThenSplits(a: Regex, b: Regex, s: string) returns (x: string, y: string)
    requires Matches(Then(a, b), s)
    ensures s == x + y && Matches(a, x) && Matches(b, y)
  {
    var k :| 0 <= k <= |s| && Matches(a, s[..k]) && Matches(b, s[k..]);
    x, y := s[..k], s[k..];
  }

  /** An optional sign and at least one digit. */
  lemma SignedDigits(s: string, signs: set<char>)
    requires signs !! DIGITS
    ensures Matches(Then(Maybe(One(signs)), Plus(DIGITS)), s) <==>
            DropFirst(s, signs) != [] && AllDigits(DropFirst(s, signs))
  {
    hide Matches;
    var digits := DropFirst(s, signs);
    if digits != [] && AllDigits(digits) {
      DigitsMatch(digits);
      var sign := if |digits| < |s| then s[..1] else [];
      assert s == sign + digits;
      SignMatches(sign, signs);
      ThenMatches(Maybe(One(signs)), Plus(DIGITS), sign, digits);
    }
    if Matches(Then(Maybe(One(signs)), Plus(DIGITS)), s) {
      var sign, rest := ThenSplits(Maybe(One(signs)), Plus(DIGITS), s);
      DigitsMatch(rest);
      SignMatches(sign, signs);
      DigitSet(rest[0]);
      if sign == [] {
        assert s == rest;
      } else {
        assert s[1..] == rest;
      }
    }
  }

  lemma SignMatches(s: string, signs: set<char>)
    ensures Matches(Maybe(One(signs)), s) <==> s == [] || (|s| == 1 && s[0] in signs)
  {
  }

  /** The exponent part: nothing, or an e with digits. */
  predicate ExponentPart(s: string) {
    s == [] || ((s[0] == 'e' || s[0] == 'E') && ExponentDigits(s[1..]))
  }

  lemma ExponentMatches(s: string)
    ensures Matches(EXPONENT, s) <==> ExponentPart(s)
  {
    hide Matches;
    var e, signed := One({'e', 'E'}), Then(Maybe(One(SIGNS)), Plus(DIGITS));
    MaybeMatches(Then(e, signed), s);
    if s != [] {
      OneMatches({'e', 'E'}, s[..1]);
      SignedDigits(s[1..], SIGNS);
      if ExponentPart(s) {
        assert s == s[..1] + s[1..];
        ThenMatches(e, signed, s[..1], s[1..]);
      }
      if Matches(Then(e, signed), s) {
        var x, y := ThenSplits(e, signed, s);
        OneMatches({'e', 'E'}, x);
        assert s[1..] == y;
      }
    }
  }

  lemma OneMatches(chars: set<char>, s: string)
    ensures Matches(One(chars), s) <==> |s| == 1 && s[0] in chars
  {
  }

  lemma MaybeMatches(r: Regex, s: string)
    ensures Matches(Maybe(r), s) <==> s == [] || Matches(r, s)
  {
  }

  /** A text of a mantissa without e and an exponent part splits there. */
  lemma SplitsAtExponent(mantissa: string, exponent: string)
    requires forall i :: 0 <= i < |mantissa| ==> IsDigit(mantissa[i]) || mantissa[i] == '.'
    requires ExponentPart(exponent)
    ensures var s, k := mantissa + exponent, |mantissa|;
            && ExponentAt(s) == k && s[..k] == mantissa
            && (k < |s| ==> ExponentDigits(s[k + 1..]))
  {
    var s, k := mantissa + exponent, |mantissa|;
    assert s[..k] == mantissa && s[k..] == exponent;
    if k < |s| { assert s[k] == exponent[0] && s[k + 1..] == exponent[1..]; }
  }

  /** Digits around at most one dot, at least one digit. */
  predicate DecimalMantissa(m: string) {
    var cut := Cut(m, '.');
    (cut.before != [] || cut.after != []) && AllDigits(cut.before) && AllDigits(cut.after)
  }

  predicate JsonMantissa(m: string) {
    var cut := Cut(m, '.');
    && cut.before != [] && AllDigits(cut.before) && (cut.before == "0" || cut.before[0] != '0')
    && (cut.found ==> cut.after != [] && AllDigits(cut.after))
  }

  predicate DigitsAndDot(m: string) {
    m != [] && forall i :: 0 <= i < |m| ==> IsDigit(m[i]) || m[i] == '.'
  }

  lemma CutParts(m: string)
    ensures var cut := Cut(m, '.'); m == if cut.found then cut.before + ['.'] + cut.after else cut.before
  {
  }

  lemma MantissaChars(m: string)
    ensures DecimalMantissa(m) || JsonMantissa(m) ==> DigitsAndDot(m)
  {
    CutParts(m);
  }

  const FRACTION: Regex := Maybe(Then(One({'.'}), Many(DIGITS)))
  const LEADING: Regex := Then(Plus(DIGITS), FRACTION)
  const DOTTED: Regex := Then(One({'.'}), Plus(DIGITS))

  lemma DecimalMantissaMatches(m: string)
    ensures DecimalMantissa(m) <==> Matches(Or(LEADING, DOTTED), m)
  {
    OrMatches(LEADING, DOTTED, m);
    hide Matches;
    var cut := Cut(m, '.');
    CutParts(m);
    DigitsMatch(cut.before);
    DigitsMatch(cut.after);
    if DecimalMantissa(m) {
      OneMatches({'.'}, ['.']);
      if cut.before == [] {
        assert m == ['.'] + cut.after;
        ThenMatches(One({'.'}), Plus(DIGITS), ['.'], cut.after);
      } else {
        var tail := if cut.found then ['.'] + cut.after else [];
        assert m == cut.before + tail;
        if cut.found { ThenMatches(One({'.'}), Many(DIGITS), ['.'], cut.after); }
        MaybeMatches(Then(One({'.'}), Many(DIGITS)), tail);
        ThenMatches(Plus(DIGITS), FRACTION, cut.before, tail);
      }
    }
    if Matches(LEADING, m) {
      var whole, tail := ThenSplits(Plus(DIGITS), FRACTION, m);
      DigitsMatch(whole);
      MaybeMatches(Then(One({'.'}), Many(DIGITS)), tail);
      DotAndDigits(whole, tail, Many(DIGITS));
    }
    if Matches(DOTTED, m) {
      var dot, fraction := ThenSplits(One({'.'}), Plus(DIGITS), m);
      OneMatches({'.'}, dot);
      DigitsMatch(fraction);
      assert m == [] + ['.'] + fraction;
      CutHere([], '.', fraction);
    }
  }

  lemma OrMatches(a: Regex, b: Regex, s: string)
    ensures Matches(Or(a, b), s) <==> Matches(a, s) || Matches(b, s)
  {
  }

  /** Digits, then nothing or a dot and more: where the text is cut. */
  lemma DotAndDigits(whole: string, tail: string, digits: Regex)
    requires whole != [] && AllDigits(whole) && (digits == Many(DIGITS) || digits == Plus(DIGITS))
    requires tail == [] || Matches(Then(One({'.'}), digits), tail)
    ensures var cut := Cut(whole + tail, '.');
            && cut.before == whole && AllDigits(cut.after) && cut.found == (tail != [])
            && (digits == Plus(DIGITS) && cut.found ==> cut.after != [])
  {
    hide Matches;
    if tail == [] {
      CutNone(whole, '.');
      assert whole + tail == whole;
    } else {
      var dot, more := ThenSplits(One({'.'}), digits, tail);
      OneMatches({'.'}, dot);
      DigitsMatch(more);
      assert whole + tail == whole + ['.'] + more;
      CutHere(whole, '.', more);
    }
  }

  function SignOf(s: string, signs: set<char>): string {
    if s != [] && s[0] in signs then s[..1] else []
  }

  function MantissaOf(s: string, signs: set<char>): string {
    var u := DropFirst(s, signs);
    u[..ExponentAt(u)]
  }

  function ExponentOf(s: string, signs: set<char>): string {
    var u := DropFirst(s, signs);
    u[ExponentAt(u)..]
  }

  lemma PartsJoin(s: string, signs: set<char>)
    ensures s == SignOf(s, signs) + (MantissaOf(s, signs) + ExponentOf(s, signs))
    ensures Matches(Maybe(One(signs)), SignOf(s, signs))
  {
    var u := DropFirst(s, signs);
    assert u == MantissaOf(s, signs) + ExponentOf(s, signs);
    assert s == SignOf(s, signs) + u;
    SignMatches(SignOf(s, signs), signs);
  }

  /** Whatever an optional sign, a mantissa and an exponent are joined to, is taken apart again. */
  lemma PartsSplit(sign: string, mantissa: string, exponent: string, signs: set<char>)
    requires signs !! DIGITS && '.' !in signs && Matches(Maybe(One(signs)), sign)
    requires DigitsAndDot(mantissa) && ExponentPart(exponent)
    ensures var s := sign + (mantissa + exponent);
            MantissaOf(s, signs) == mantissa && ExponentOf(s, signs) == exponent
  {
    var s := sign + (mantissa + exponent);
    SplitsAtExponent(mantissa, exponent);
    SignMatches(sign, signs);
    DigitSet(mantissa[0]);
    if sign == [] {
      assert s == mantissa + exponent && s[0] == mantissa[0];
    } else {
      assert s[0] == sign[0] && s[1..] == mantissa + exponent;
    }
  }

  lemma ExponentOfIs(s: string, signs: set<char>)
    ensures var u := DropFirst(s, signs);
            var k := ExponentAt(u);
            ExponentPart(ExponentOf(s, signs)) <==> (k < |u| ==> ExponentDigits(u[k + 1..]))
  {
    hide ExponentDigits;
    var u := DropFirst(s, signs);
    var k := ExponentAt(u);
    if k < |u| { assert u[k..][0] == u[k] && u[k..][1..] == u[k + 1..]; }
  }

  lemma DecimalByParts(s: string)
    ensures IsDecimalNumber(s) <==> DecimalMantissa(MantissaOf(s, SIGNS)) && ExponentPart(ExponentOf(s, SIGNS))
  {
    hide ExponentDigits, ExponentPart, Cut, ExponentAt;
    ExponentOfIs(s, SIGNS);
  }

  lemma JsonByParts(s: string)
    ensures IsJsonNumber(s) <==> JsonMantissa(MantissaOf(s, {'-'})) && ExponentPart(ExponentOf(s, {'-'}))
  {
    hide ExponentDigits, ExponentPart, Cut, ExponentAt;
    ExponentOfIs(s, {'-'});
  }

  /** is_decimal_number accepts exactly the language of the expression above it. */
  lemma {:induction false} DecimalNumberExact(s: string)
    ensures IsDecimalNumber(s) <==> Matches(DECIMAL_NUMBER, s)
  {
    var number := Then(Or(LEADING, DOTTED), EXPONENT);
    assert DECIMAL_NUMBER == Then(Maybe(One(SIGNS)), number);
    hide *;
    DecimalByParts(s);
    PartsJoin(s, SIGNS);
    var sign, mantissa, exponent := SignOf(s, SIGNS), MantissaOf(s, SIGNS), ExponentOf(s, SIGNS);
    DecimalMantissaMatches(mantissa);
    ExponentMatches(exponent);
    if IsDecimalNumber(s) {
      ThenMatches(Or(LEADING, DOTTED), EXPONENT, mantissa, exponent);
      ThenMatches(Maybe(One(SIGNS)), number, sign, mantissa + exponent);
    }
    if Matches(DECIMAL_NUMBER, s) {
      var sign', rest := ThenSplits(Maybe(One(SIGNS)), number, s);
      var mantissa', exponent' := ThenSplits(Or(LEADING, DOTTED), EXPONENT, rest);
      DecimalMantissaMatches(mantissa');
      ExponentMatches(exponent');
      MantissaChars(mantissa');
      SignsApart();
      PartsSplit(sign', mantissa', exponent', SIGNS);
    }
  }

  lemma SignsApart()
    ensures SIGNS !! DIGITS && {'-'} !! DIGITS && '.' !in SIGNS
  {
  }

  /** is_decimal_integer accepts exactly the language of the expression above it. */
  lemma {:induction false} DecimalIntegerExact(s: string)
    ensures IsDecimalInteger(s) <==> Matches(DECIMAL_INTEGER, s)
  {
    SignedDigits(s, SIGNS);
  }

  const WHOLE: Regex := Or(One({'0'}), Then(One(NONZERO), Many(DIGITS)))
  const POINTED: Regex := Maybe(DOTTED)

  lemma WholeMatches(s: string)
    ensures Matches(WHOLE, s) <==> s != [] && AllDigits(s) && (s == "0" || s[0] != '0')
  {
    OrMatches(One({'0'}), Then(One(NONZERO), Many(DIGITS)), s);
    OneMatches({'0'}, s);
    hide Matches;
    if s != [] && AllDigits(s) && s[0] != '0' {
      DigitSet(s[0]);
      assert s == s[..1] + s[1..];
      OneMatches(NONZERO, s[..1]);
      DigitsMatch(s[1..]);
      ThenMatches(One(NONZERO), Many(DIGITS), s[..1], s[1..]);
    }
    if Matches(Then(One(NONZERO), Many(DIGITS)), s) {
      var head, tail := ThenSplits(One(NONZERO), Many(DIGITS), s);
      OneMatches(NONZERO, head);
      DigitsMatch(tail);
      DigitSet(head[0]);
    }
  }

  /** is_json_number accepts exactly the language of the expression above it. */
  lemma {:induction false} JsonNumberExact(s: string)
    ensures IsJsonNumber(s) <==> Matches(JSON_NUMBER, s)
  {
    var number := Then(WHOLE, Then(POINTED, EXPONENT));
    assert JSON_NUMBER == Then(Maybe(One({'-'})), number);
    hide *;
    JsonByParts(s);
    PartsJoin(s, {'-'});
    var sign, mantissa, exponent := SignOf(s, {'-'}), MantissaOf(s, {'-'}), ExponentOf(s, {'-'});
    if IsJsonNumber(s) {
      ExponentMatches(exponent);
      JsonMantissaMatches(mantissa, exponent);
      ThenMatches(Maybe(One({'-'})), number, sign, mantissa + exponent);
    }
    if Matches(JSON_NUMBER, s) {
      var sign', rest := ThenSplits(Maybe(One({'-'})), number, s);
      var mantissa', exponent' := JsonMantissaReads(rest);
      MantissaChars(mantissa');
      SignsApart();
      PartsSplit(sign', mantissa', exponent', {'-'});
    }
  }

  lemma JsonMantissaMatches(mantissa: string, exponent: string)
    requires JsonMantissa(mantissa) && Matches(EXPONENT, exponent)
    ensures Matches(Then(WHOLE, Then(POINTED, EXPONENT)), mantissa + exponent)
  {
    hide Matches, AllDigits, Cut;
    var cut := Cut(mantissa, '.');
    CutParts(mantissa);
    WholeMatches(cut.before);
    var tail := if cut.found then ['.'] + cut.after else [];
    PointedMatches(cut);
    hide WHOLE, POINTED, EXPONENT, JsonMantissa;
    ThenMatches(POINTED, EXPONENT, tail, exponent);
    ThenMatches(WHOLE, Then(POINTED, EXPONENT), cut.before, tail + exponent);
    assert mantissa == cut.before + tail;
    assert cut.before + tail + exponent == cut.before + (tail + exponent);
  }

  lemma PointedMatches(cut: Split)
    requires cut.found ==> cut.after != [] && AllDigits(cut.after)
    ensures Matches(POINTED, if cut.found then ['.'] + cut.after else [])
  {
    assert POINTED == Maybe(DOTTED) && DOTTED == Then(One({'.'}), Plus(DIGITS));
    hide Matches, AllDigits;
    if cut.found {
      OneMatches({'.'}, ['.']);
      DigitsMatch(cut.after);
      ThenMatches(One({'.'}), Plus(DIGITS), ['.'], cut.after);
    }
    MaybeMatches(DOTTED, if cut.found then ['.'] + cut.after else []);
  }

  lemma JsonMantissaReads(s: string) returns (mantissa: string, exponent: string)
    requires Matches(Then(WHOLE, Then(POINTED, EXPONENT)), s)
    ensures s == mantissa + exponent && JsonMantissa(mantissa) && ExponentPart(exponent)
  {
    hide Matches;
    var whole, rest := ThenSplits(WHOLE, Then(POINTED, EXPONENT), s);
    var tail, more := ThenSplits(POINTED, EXPONENT, rest);
    WholeMatches(whole);
    MaybeMatches(DOTTED, tail);
    ExponentMatches(more);
    DotAndDigits(whole, tail, Plus(DIGITS));
    mantissa, exponent := whole + tail, more;
    assert s == mantissa + exponent;
  }

  /** Every JSON number is a decimal number. */
  lemma {:induction false} JsonNumberIsDecimal(s: string)
    requires IsJsonNumber(s)
    ensures IsDecimalNumber(s)
  {
    hide *;
    JsonByParts(s);
    DecimalByParts(s);
    PartsJoin(s, {'-'});
    var sign, mantissa, exponent := SignOf(s, {'-'}), MantissaOf(s, {'-'}), ExponentOf(s, {'-'});
    MantissaChars(mantissa);
    JsonMantissaIsDecimal(mantissa);
    MinusIsSign(sign);
    SignsApart();
    PartsSplit(sign, mantissa, exponent, SIGNS);
  }

  lemma MinusIsSign(s: string)
    requires Matches(Maybe(One({'-'})), s)
    ensures Matches(Maybe(One(SIGNS)), s)
  {
  }

  lemma JsonMantissaIsDecimal(m: string)
    requires JsonMantissa(m)
    ensures DecimalMantissa(m)
  {
  }

  lemma JsonNumberChars(s: string)
    requires IsJsonNumber(s)
    ensures s != [] && (IsDigit(s[0]) || s[0] == '-')
    ensures forall i :: 0 <= i < |s| ==> IsDigit(s[i]) || s[i] in {'+', '-', '.', 'e', 'E'}
  {
    hide ExponentAt, Cut, SignOf, MantissaOf, ExponentOf;
    JsonByParts(s);
    PartsJoin(s, {'-'});
    var sign, mantissa, exponent := SignOf(s, {'-'}), MantissaOf(s, {'-'}), ExponentOf(s, {'-'});
    MantissaChars(mantissa);
    SignMatches(sign, {'-'});
    ExponentChars(exponent);
    CutParts(mantissa);
    assert s[0] == if sign == [] then mantissa[0] else sign[0];
  }

  lemma ExponentChars(s: string)
    requires ExponentPart(s)
    ensures forall i :: 0 <= i < |s| ==> IsDigit(s[i]) || s[i] in {'+', '-', '.', 'e', 'E'}
  {
    if s != [] {
      var digits := DropFirst(s[1..], SIGNS);
      assert digits == s[1..] || digits == s[1..][1..] == s[2..];
      forall i | 0 <= i < |s| ensures IsDigit(s[i]) || s[i] in {'+', '-', '.', 'e', 'E'} {
        if i >= 1 && digits == s[1..] { assert s[i] == digits[i - 1]; }
        else if i >= 2 { assert s[i] == digits[i - 2]; }
      }
    }
  }
}
