/** A value that may be absent, as Go's `value, ok` and Rust's `Option` report it. */
module Options {
  datatype Option<+T> = None | Some(value: T) {
    predicate IsFailure() {
      None?
    }

    function PropagateFailure<U>(): Option<U>
      requires None?
    {
      None
    }

    function Extract(): T
      requires Some?
    {
      value
    }
  }
}

/** Decimal text: the printers and readers of Go's fmt, strconv and strings that the codec uses. */
module Text {
  import opened Int64
  import opened Options

  predicate IsDigit(c: char) {
    '0' <= c <= '9'
  }

  predicate AllDigits(s: string) {
    forall i :: 0 <= i < |s| ==> IsDigit(s[i])
  }

  function DigitChar(d: nat): (c: char)
    requires d < 10
    ensures IsDigit(c) && DigitValue(c) == d
  {
    '0' + d as char
  }

  function DigitValue(c: char): (d: nat)
    requires IsDigit(c)
    ensures d < 10
  {
    c as int - '0' as int
  }

  /** The number a text of digits names; 0 for the empty text. */
  function Value(s: string): (n: nat)
    requires AllDigits(s)
  {
    if s == [] then 0 else 10 * Value(s[..|s| - 1]) + DigitValue(s[|s| - 1])
  }

  /** The shortest decimal text of a number. */
  function NatText(n: nat): (s: string) {
    if n < 10 then [DigitChar(n)] else NatText(n / 10) + [DigitChar(n % 10)]
  }

  /** fmt's %d. */
  function IntText(n: int): (s: string) {
    if n < 0 then "-" + NatText(-n) else NatText(n)
  }

  function Pow10(k: nat): (p: nat)
    ensures p > 0
  {
    if k == 0 then 1 else 10 * Pow10(k - 1)
  }

  function Zeros(k: nat): (s: string)
    ensures |s| == k && AllDigits(s)
  {
    seq(k, _ => '0')
  }

  /** fmt's %0kd of a natural number. */
  function Padded(n: nat, width: nat): (s: string) {
    var t := NatText(n);
    if |t| < width then Zeros(width - |t|) + t else t
  }

  /** strings.TrimRight(s, "0"). */
  function TrimZeros(s: string): (t: string)
    ensures t <= s
  {
    if s != [] && s[|s| - 1] == '0' then TrimZeros(s[..|s| - 1]) else s
  }

  /** Where c first stands in s, or |s|. */
  function IndexOf(s: string, c: char): (k: nat)
    ensures k <= |s|
    ensures forall i :: 0 <= i < k ==> s[i] != c
    ensures k < |s| ==> s[k] == c
  {
    if s == [] then 0 else if s[0] == c then 0 else 1 + IndexOf(s[1..], c)
  }

  datatype Split = Split(before: string, after: string, found: bool)

  /** strings.Cut at the first c. */
  function Cut(s: string, c: char): (r: Split) {
    var k := IndexOf(s, c);
    if k < |s| then Split(s[..k], s[k + 1..], true) else Split(s, [], false)
  }

  /** temporal.go's digits: the number a non-empty text of ASCII digits names, when it fits. */
  function Digits(s: string): (r: Option<int64>)
    ensures r.Some? ==> s != [] && AllDigits(s) && r.value == Value(s)
    ensures s != [] && AllDigits(s) && Fits(Value(s)) ==> r.Some?
  {
    if s == [] || !AllDigits(s) || Value(s) > MAX then None else Some(Value(s))
  }

  /** What a text names as strconv.ParseInt(s, 10, 64) reads it, before the range check. */
  function SignedValue(s: string): (r: Option<int>)
    ensures r.Some? ==> s != [] && (r.value < 0 ==> s[0] == '-') && (r.value > 0 ==> s[0] != '-')
    ensures r.Some? ==> s[0] == '-' || s[0] == '+' || IsDigit(s[0])
  {
    var body := if s != [] && (s[0] == '+' || s[0] == '-') then s[1..] else s;
    if body == [] || !AllDigits(body) then None
    else
      var n: int := Value(body);
      Some(if s[0] == '-' then -n else n)
  }

  /** strconv.ParseInt(s, 10, 64): past 64 bits is an error. */
  function ParseInt(s: string): (r: Option<int64>)
    ensures r.Some? <==> SignedValue(s).Some? && Fits(SignedValue(s).value)
    ensures r.Some? ==> s != [] && r.value == SignedValue(s).value
  {
    match SignedValue(s)
    case Some(n) => if Fits(n) then Some(n) else None
    case None => None
  }

  // ---- lemmas

  lemma {:induction false} ValueAppend(s: string, c: char)
    requires AllDigits(s) && IsDigit(c)
    ensures AllDigits(s + [c]) && Value(s + [c]) == 10 * Value(s) + DigitValue(c)
  {
    assert (s + [c])[..|s|] == s;
  }

  /** Printing and reading a natural number are inverse. */
  lemma {:induction false} NatTextReads(n: nat)
    ensures AllDigits(NatText(n)) && NatText(n) != []
    ensures Value(NatText(n)) == n
    ensures n > 0 ==> NatText(n)[0] != '0'
  {
    if n >= 10 {
      NatTextReads(n / 10);
      ValueAppend(NatText(n / 10), DigitChar(n % 10));
    } else {
      assert NatText(n)[..0] == [];
    }
  }

  lemma {:induction false} NatTextLength(n: nat, k: nat)
    requires k > 0
    ensures |NatText(n)| <= k <==> n < Pow10(k)
  {
    if n >= 10 {
      if k == 1 {
        NatTextReads(n / 10);
        assert Pow10(0) == 1;
      } else {
        NatTextLength(n / 10, k - 1);
      }
    } else {
      Pow10AtLeast(k);
    }
  }

  lemma {:induction false} Pow10AtLeast(k: nat)
    requires k > 0
    ensures Pow10(k) >= 10
  {
    if k > 1 { Pow10AtLeast(k - 1); }
  }

  lemma {:induction false} ValueZeros(k: nat, s: string)
    requires AllDigits(s)
    ensures AllDigits(Zeros(k) + s) && Value(Zeros(k) + s) == Value(s)
  {
    if s == [] {
      assert Zeros(k) + s == Zeros(k);
      if k > 0 {
        ValueZeros(k - 1, []);
        assert Zeros(k - 1) + [] == Zeros(k)[..k - 1];
      }
    } else {
      ValueZeros(k, s[..|s| - 1]);
      assert Zeros(k) + s == Zeros(k) + s[..|s| - 1] + [s[|s| - 1]];
      ValueAppend(Zeros(k) + s[..|s| - 1], s[|s| - 1]);
    }
  }

  lemma {:induction false} PaddedReads(n: nat, width: nat)
    requires width > 0 && n < Pow10(width)
    ensures |Padded(n, width)| == width && AllDigits(Padded(n, width)) && Value(Padded(n, width)) == n
  {
    NatTextReads(n);
    NatTextLength(n, width);
    ValueZeros(width - |NatText(n)|, NatText(n));
    assert Zeros(0) + NatText(n) == NatText(n);
  }

  /** Trimmed zeros come back as a power of ten. */
  lemma {:induction false} TrimZerosReads(s: string)
    requires AllDigits(s)
    ensures AllDigits(TrimZeros(s))
    ensures Value(s) == Value(TrimZeros(s)) * Pow10(|s| - |TrimZeros(s)|)
    ensures Value(s) > 0 ==> TrimZeros(s) != []
  {
    if s != [] && s[|s| - 1] == '0' {
      var t := s[..|s| - 1];
      TrimZerosReads(t);
      ZeroTail(t);
      assert s == t + ['0'];
      var k := |t| - |TrimZeros(t)|;
      PowerStep(k);
      hide Value, Pow10;
      TenTimesProduct(Value(TrimZeros(t)), Pow10(k));
    } else {
      assert Pow10(0) == 1;
    }
  }

  lemma ZeroTail(t: string)
    requires AllDigits(t)
    ensures AllDigits(t + ['0']) && Value(t + ['0']) == 10 * Value(t)
  {
    ValueAppend(t, '0');
  }

  lemma PowerStep(k: nat)
    ensures Pow10(k + 1) == 10 * Pow10(k)
  {
  }

  lemma TenTimesProduct(a: nat, b: nat)
    ensures 10 * (a * b) == a * (10 * b)
  {
  }

  /** A fraction written in width digits without its trailing zeros, scaled back. */
  lemma {:induction false} FractionReads(n: nat, width: nat)
    requires width > 0 && 0 < n < Pow10(width)
    ensures var t := TrimZeros(Padded(n, width));
            && 0 < |t| <= width && AllDigits(t)
            && Value(t) <= n && Value(t) * Pow10(width - |t|) == n
  {
    hide Value, Pow10, TrimZeros, Padded;
    PaddedReads(n, width);
    TrimZerosReads(Padded(n, width));
    var t := TrimZeros(Padded(n, width));
    AtLeastFactor(Value(t), Pow10(width - |t|));
  }

  lemma AtLeastFactor(a: nat, b: nat)
    requires b >= 1
    ensures a * b >= a
  {
    ProductSum(1, b - 1, a);
    NatProduct(b - 1, a);
  }

  lemma NatProduct(a: nat, b: nat)
    ensures a * b >= 0
  {
  }

  /** The first digit stays when the text is trimmed. */
  lemma TrimZerosHead(s: string)
    requires AllDigits(s) && TrimZeros(s) != []
    ensures TrimZeros(s)[0] == s[0]
  {
  }

  lemma {:induction false} IntTextReads(n: int)
    ensures SignedValue(IntText(n)) == Some(n)
    ensures IntText(n) != [] && IntText(n)[0] != '+'
    ensures forall i :: 0 <= i < |IntText(n)| ==> IntText(n)[i] == '-' || IsDigit(IntText(n)[i])
    ensures IntText(n)[0] == '-' <==> n < 0
  {
    NatTextReads(Magnitude(n));
    if n < 0 {
      assert IntText(n)[1..] == NatText(-n);
    } else {
      assert IsDigit(IntText(n)[0]);
    }
  }

  lemma CutHere(a: string, c: char, b: string)
    requires forall i :: 0 <= i < |a| ==> a[i] != c
    ensures Cut(a + [c] + b, c) == Split(a, b, true)
  {
    var s := a + [c] + b;
    assert s[|a|] == c;
    assert IndexOf(s, c) == |a|;
    assert s[..|a|] == a && s[|a| + 1..] == b;
  }

  lemma CutNone(a: string, c: char)
    requires forall i :: 0 <= i < |a| ==> a[i] != c
    ensures Cut(a, c) == Split(a, [], false)
  {
  }
}
