/**
  `ExprParser::calc`: evaluation of a space-separated reverse Polish
  expression on a stack of C++ `int`s.

  The input is cut into maximal runs of non-space characters. A token whose
  first character is a digit is converted with `std::stoi`; any other token
  pops two operands and applies the operator named by its first character.
  `int` is 32 bits wide: a result outside its range, a division by zero and
  reading an empty stack are undefined behaviour.
*/
module ExprCalc {
  import opened ExprParser

  const INT_MIN: int := -0x8000_0000
  const INT_MAX: int := 0x7FFF_FFFF

  predicate InInt(x: int) {
    INT_MIN <= x <= INT_MAX
  }

  /*---------------------------------------------------------------------------
    Tokenising
  ---------------------------------------------------------------------------*/

  /** The end of the run of non-space characters starting at `i`. */
  function TokenEnd(s: string, i: nat): (j: nat)
    requires i <= |s|
    decreases |s| - i
    ensures i <= j <= |s| && (j == |s| || s[j] == ' ')
    ensures forall k :: i <= k < j ==> s[k] != ' '
  {
    if i < |s| && s[i] != ' ' then TokenEnd(s, i + 1) else i
  }

  /** A token: non-empty, without spaces. */
  predicate IsToken(t: string) {
    |t| > 0 && ' ' !in t
  }

  /** The tokens the loop of `calc` visits: skip spaces, cut at the next
      space, stop when only spaces remain. */
  function Tokens(s: string): (r: seq<string>)
    decreases |s|
    ensures forall t :: t in r ==> IsToken(t)
  {
    if |s| == 0 then []
    else if s[0] == ' ' then Tokens(s[1..])
    else
      var j := TokenEnd(s, 0);
      assert forall c :: c in s[..j] ==> c != ' ';
      [s[..j]] + Tokens(s[j..])
  }

  /** Tokens each followed by one space, as `parse` writes them. */
  function JoinSpaced(toks: seq<string>): string {
    if |toks| == 0 then [] else toks[0] + " " + JoinSpaced(toks[1..])
  }

  /** Cutting a token followed by a space off the front. */
  lemma TokensCons(t: string, rest: string)
    requires IsToken(t)
    ensures Tokens(t + " " + rest) == [t] + Tokens(rest)
  {
    var s := t + " " + rest;
    forall k | 0 <= k < |t|
      ensures s[k] != ' '
    {
      assert s[k] == t[k] && t[k] in t;
    }
    TokenEndAt(s, 0, |t|);
    assert s[..|t|] == t;
    assert s[|t|..] == " " + rest;
    assert (" " + rest)[1..] == rest;
  }

  lemma {:induction false} TokenEndAt(s: string, i: nat, j: nat)
    requires i <= j < |s| && s[j] == ' ' && forall k :: i <= k < j ==> s[k] != ' '
    decreases j - i
    ensures TokenEnd(s, i) == j
  {
    if i < j {
      TokenEndAt(s, i + 1, j);
    }
  }

  /** Tokenising is the inverse of joining with single spaces. */
  lemma {:induction false} TokensOfJoin(toks: seq<string>)
    requires forall t :: t in toks ==> IsToken(t)
    ensures Tokens(JoinSpaced(toks)) == toks
  {
    if |toks| > 0 {
      TokensCons(toks[0], JoinSpaced(toks[1..]));
      TokensOfJoin(toks[1..]);
    }
  }

  /*---------------------------------------------------------------------------
    std::stoi
  ---------------------------------------------------------------------------*/

  /** The value of a string of decimal digits. */
  function DigitsValue(d: string): (v: nat)
    requires forall c :: c in d ==> IsDigit(c)
  {
    if |d| == 0 then 0
    else
      assert forall c :: c in d[..|d| - 1] ==> c in d;
      assert d[|d| - 1] in d;
      var c := d[|d| - 1];
      assert IsDigit(c) && '0' as int <= c as int;
      var digit: nat := c as int - '0' as int;
      DigitsValue(d[..|d| - 1]) * 10 + digit
  }

  /** `std::stoi` on a token that starts with a digit: the value of the
      leading digit run, or `std::out_of_range` when it exceeds `int`. */
  function Stoi(tok: string): (r: Outcome<int>)
    requires |tok| > 0 && IsDigit(tok[0])
    ensures r.Ok? || r == OutOfRange
    ensures r.Ok? ==> 0 <= r.value <= INT_MAX
  {
    var j := DigitRunEnd(tok, 0);
    assert forall c :: c in tok[..j] ==> IsDigit(c);
    var v := DigitsValue(tok[..j]);
    if v > INT_MAX then OutOfRange else Ok(v)
  }

  /** Decimal digits of `n`, without leading zeros. */
  function NatToDigits(n: nat): (d: string)
    ensures |d| > 0 && forall c :: c in d ==> IsDigit(c)
    ensures DigitsValue(d) == n
  {
    var last := ['0' + (n % 10) as char];
    if n < 10 then last
    else
      var d := NatToDigits(n / 10) + last;
      assert d[..|d| - 1] == NatToDigits(n / 10);
      d
  }

  /** `std::stoi` reads back any `int` it is given in decimal. */
  lemma StoiOfDigits(n: nat)
    requires n <= INT_MAX
    ensures Stoi(NatToDigits(n)) == Ok(n)
  {
    var d := NatToDigits(n);
    assert d[0] in d;
    DigitRunAll(d, 0);
    assert d[..|d|] == d;
  }

  lemma {:induction false} DigitRunAll(d: string, i: nat)
    requires i <= |d| && forall c :: c in d ==> IsDigit(c)
    decreases |d| - i
    ensures DigitRunEnd(d, i) == |d|
  {
    if i < |d| {
      assert d[i] in d;
      DigitRunAll(d, i + 1);
    }
  }

  /*---------------------------------------------------------------------------
    Arithmetic
  ---------------------------------------------------------------------------*/

  function Abs(x: int): nat {
    if x < 0 then -x else x
  }

  /** C++ integer division, which truncates toward zero: the magnitude is
      the quotient of the magnitudes, and a nonzero quotient is negative
      exactly when the operands differ in sign. */
  function TruncDiv(a: int, b: int): (q: int)
    requires b != 0
    ensures Abs(q) == Abs(a) / Abs(b)
    ensures q != 0 ==> (q < 0 <==> (a < 0) != (b < 0))
  {
    DivMod(Abs(a), Abs(b));
    var q0 := Abs(a) / Abs(b);
    if (a < 0) != (b < 0) then -q0 else q0
  }

  /** Euclidean division of naturals. */
  lemma DivMod(x: nat, y: nat)
    requires y > 0
    ensures x / y >= 0 && x == (x / y) * y + x % y
  {
  }

  /** The remainder `a - (a / b) * b` left by truncating division takes
      the sign of `a` and the magnitude of `|a| % |b|`. */
  lemma TruncDivRemainder(a: int, b: int)
    requires b != 0
    ensures a - TruncDiv(a, b) * b == (if a < 0 then -(Abs(a) % Abs(b)) else Abs(a) % Abs(b))
  {
    DivMod(Abs(a), Abs(b));
    var q0: int := Abs(a) / Abs(b);
    var m: int := Abs(b);
    var p := q0 * m;
    NegMul(q0, m);
    assert TruncDiv(a, b) * b == (if a < 0 then -p else p) by {
      if b < 0 {
        assert b == -m;
        if a < 0 {
          assert TruncDiv(a, b) == q0;
        } else {
          assert TruncDiv(a, b) == -q0;
        }
      } else {
        assert b == m;
      }
    }
  }

  lemma NegMul(x: int, y: int)
    ensures (-x) * y == -(x * y) && x * (-y) == -(x * y) && (-x) * (-y) == x * y
  {
  }

  /** An `int` result, or undefined behaviour when it does not fit. */
  function Checked(x: int): (r: Outcome<int>)
    ensures r.Ok? <==> InInt(x)
    ensures r.Ok? ==> r.value == x
    ensures !r.Ok? ==> r == Undefined
  {
    if InInt(x) then Ok(x) else Undefined
  }

  /** The `switch` of `calc`: `a op b`, or `throw 2` for an unknown
      operator. */
  function ApplyOp(op: char, a: int, b: int): (r: Outcome<int>)
    requires InInt(a) && InInt(b)
    ensures r.Ok? ==> InInt(r.value)
    ensures r == Threw(2) <==> !IsOp(op)
    ensures r.Ok? || r == Undefined || r == Threw(2)
    ensures op == '/' ==> (r == Undefined <==> b == 0 || (a == INT_MIN && b == -1))
  {
    match op
    case '+' => Checked(a + b)
    case '-' => Checked(a - b)
    case '*' => Checked(a * b)
    case '/' => if b == 0 then Undefined else DivOverflow(a, b); Checked(TruncDiv(a, b))
    case _ => Threw(2)
  }

  lemma MulMono(x: nat, y: nat, z: nat)
    requires y <= z
    ensures x * y <= x * z
  {
    assert x * z == x * y + x * (z - y);
  }

  /** The only `int` quotient that overflows is `INT_MIN / -1`. */
  lemma DivOverflow(a: int, b: int)
    requires InInt(a) && InInt(b) && b != 0
    ensures !InInt(TruncDiv(a, b)) <==> a == INT_MIN && b == -1
  {
    var q := TruncDiv(a, b);
    if Abs(b) == 1 {
      assert Abs(q) == Abs(a);
      if b == 1 { assert q == a; } else { assert q == -a; }
    } else {
      var q0 := Abs(a) / Abs(b);
      assert q0 * Abs(b) <= Abs(a);
      MulMono(q0, 2, Abs(b));
      assert Abs(q) <= 0x4000_0000;
    }
  }

  /*---------------------------------------------------------------------------
    calc
  ---------------------------------------------------------------------------*/

  /** The operand stack holds `int`s; its top is the last element. */
  ghost predicate IntStack(st: seq<int>) {
    forall x :: x in st ==> InInt(x)
  }

  /** The loop of `calc` over the remaining tokens, then `num.top()`. */
  function EvalTokens(toks: seq<string>, st: seq<int>): (r: Outcome<int>)
    requires forall t :: t in toks ==> IsToken(t)
    requires IntStack(st)
    ensures r.Ok? ==> InInt(r.value)
    ensures r.Threw? ==> r.code == 2
  {
    if |toks| == 0 then
      if |st| == 0 then Undefined else Ok(st[|st| - 1])
    else
      var t := toks[0];
      assert t in toks && IsToken(t);
      if IsDigit(t[0]) then
        var v := Stoi(t);
        if v.Ok? then EvalTokens(toks[1..], st + [v.value]) else v
      else if |st| < 2 then Undefined
      else
        var b := st[|st| - 1];
        var a := st[|st| - 2];
        var v := ApplyOp(t[0], a, b);
        if v.Ok? then EvalTokens(toks[1..], st[..|st| - 2] + [v.value]) else v
  }

  /** `calc`. */
  function Calc(expr: string): (r: Outcome<int>)
    ensures r.Ok? ==> InInt(r.value)
    ensures r.Threw? ==> r.code == 2
    ensures Tokens(expr) == [] ==> r == Undefined
  {
    EvalTokens(Tokens(expr), [])
  }

  /** `calc("n ")` is `n` for every `int` `n` written in decimal. */
  lemma CalcNumber(n: nat)
    requires n <= INT_MAX
    ensures Calc(NatToDigits(n) + " ") == Ok(n)
  {
    var d := NatToDigits(n);
    TokensCons(d, "");
    assert d + " " + "" == d + " ";
    assert Tokens(d + " ") == [d];
    StoiOfDigits(n);
    assert d[0] in d;
    assert EvalTokens([d], []) == EvalTokens([], [n]);
  }
}
