/**
  `ExprParser::parse`: Dijkstra's shunting-yard conversion of an infix
  expression over `+ - * /`, parentheses, decimal numbers and spaces into
  reverse Polish notation, each emitted token followed by one space.

  The operator stack is a sequence whose head is the top. The outcome of a
  run distinguishes a returned string, a thrown `int`, and undefined
  behaviour (popping an empty `std::stack`).
*/
module ExprParser {

  /** How a run of `parse` or `calc` ends: a value, `throw code`, a
      `std::out_of_range` from `std::stoi`, or undefined behaviour. */
  datatype Outcome<T> = Ok(value: T) | Threw(code: int) | OutOfRange | Undefined

  /*---------------------------------------------------------------------------
    Character classes
  ---------------------------------------------------------------------------*/

  /** `is_delim`: only the space separates. */
  predicate IsDelim(c: char) {
    c == ' '
  }

  /** `is_op`: the four binary operators. */
  predicate IsOp(c: char) {
    c == '+' || c == '-' || c == '*' || c == '/'
  }

  /** `isdigit` in the C locale. */
  predicate IsDigit(c: char) {
    '0' <= c <= '9'
  }

  /** `priority`: additive 1, multiplicative 2, anything else (the
      parentheses) -1. */
  function Priority(c: char): (r: int)
    ensures r == 1 || r == 2 || r == -1
    ensures r > 0 <==> IsOp(c)
    ensures r == 2 <==> c == '*' || c == '/'
  {
    if c == '+' || c == '-' then 1
    else if c == '*' || c == '/' then 2
    else -1
  }

  /** A character `parse` accepts. */
  predicate Legal(c: char) {
    IsDelim(c) || IsDigit(c) || c == '(' || c == ')' || IsOp(c)
  }

  /*---------------------------------------------------------------------------
    Shape of the output
  ---------------------------------------------------------------------------*/

  /** Every token is followed by exactly one space: the text is empty, or
      starts with a non-space, ends with a space and never has two spaces in
      a row. */
  ghost predicate Spaced(t: string) {
    |t| == 0 ||
    (t[0] != ' ' && t[|t| - 1] == ' ' && forall i :: 0 <= i < |t| - 1 ==> !DoubleSpace(t, i))
  }

  ghost predicate DoubleSpace(t: string, i: nat)
    requires i + 1 < |t|
  {
    t[i] == ' ' && t[i + 1] == ' '
  }

  /** Characters `parse` may emit. */
  ghost predicate OutChars(t: string) {
    forall c :: c in t ==> IsDigit(c) || IsOp(c) || c == '(' || c == ' '
  }

  /** Emitted text without parentheses. */
  ghost predicate Clean(t: string) {
    Spaced(t) && forall c :: c in t ==> IsDigit(c) || IsOp(c) || c == ' '
  }

  lemma {:induction false} SpacedAppend(out: string, tok: string)
    requires Spaced(out) && |tok| > 0 && ' ' !in tok
    ensures Spaced(out + tok + " ")
  {
    var t := out + tok + " ";
    forall i | 0 <= i < |t| - 1
      ensures !DoubleSpace(t, i)
    {
      if i < |out| - 1 {
        assert t[i] == out[i] && t[i + 1] == out[i + 1];
        assert !DoubleSpace(out, i);
      } else if i == |out| - 1 {
        assert t[i + 1] == tok[0] && tok[0] in tok;
      } else {
        assert t[i] == tok[i - |out|] && tok[i - |out|] in tok;
      }
    }
  }

  /** Operators popped off the stack, each followed by a space. */
  function Emit(ops: seq<char>): (r: string)
    ensures |r| == 2 * |ops|
  {
    if |ops| == 0 then [] else [ops[0], ' '] + Emit(ops[1..])
  }

  lemma {:induction false} EmitChars(ops: seq<char>)
    decreases |ops|
    ensures forall c :: c in Emit(ops) ==> c in ops || c == ' '
  {
    if |ops| > 0 {
      EmitChars(ops[1..]);
    }
  }

  lemma {:induction false} EmitSpaced(out: string, ops: seq<char>)
    requires Spaced(out) && ' ' !in ops
    decreases |ops|
    ensures Spaced(out + Emit(ops))
  {
    if |ops| > 0 {
      var o2 := out + [ops[0], ' '];
      assert ops[0] in ops;
      SpacedAppend(out, [ops[0]]);
      assert out + [ops[0]] + " " == o2;
      assert forall x :: x in ops[1..] ==> x in ops;
      EmitSpaced(o2, ops[1..]);
      assert o2 + Emit(ops[1..]) == out + Emit(ops);
    } else {
      assert out + Emit(ops) == out;
    }
  }

  /*---------------------------------------------------------------------------
    The operator stack
  ---------------------------------------------------------------------------*/

  /** The stack holds operators and open parentheses only. */
  ghost predicate StackOk(stack: seq<char>) {
    forall c :: c in stack ==> IsOp(c) || c == '('
  }

  /** Open parentheses on the stack. */
  function OpenCount(stack: seq<char>): (r: nat)
    ensures r <= |stack|
    ensures r == 0 <==> '(' !in stack
  {
    if |stack| == 0 then 0 else (if stack[0] == '(' then 1 else 0) + OpenCount(stack[1..])
  }

  /** The loop that makes room for operator `c` pops (and emits) the
      first `k` stack entries: exactly the leading run of operators whose
      priority is at least `c`'s, stopping at an open parenthesis. */
  function PopForOp(c: char, stack: seq<char>): (k: nat)
    ensures k <= |stack|
    ensures forall i :: 0 <= i < k ==> stack[i] != '(' && Priority(c) <= Priority(stack[i])
    ensures k < |stack| ==> stack[k] == '(' || Priority(c) > Priority(stack[k])
  {
    if |stack| > 0 && Priority(c) <= Priority(stack[0]) && stack[0] != '(' then 1 + PopForOp(c, stack[1..])
    else 0
  }

  /** The loop run on `)` pops (and emits) the first `k` stack entries: every
      operator above the nearest open parenthesis, or the whole stack if
      there is none. */
  function PopToParen(stack: seq<char>): (k: nat)
    ensures k <= |stack|
    ensures forall i :: 0 <= i < k ==> stack[i] != '('
    ensures k < |stack| ==> stack[k] == '('
  {
    if |stack| > 0 && stack[0] != '(' then 1 + PopToParen(stack[1..])
    else 0
  }

  lemma {:induction false} OpenCountAppend(a: seq<char>, b: seq<char>)
    decreases |a|
    ensures OpenCount(a + b) == OpenCount(a) + OpenCount(b)
  {
    if |a| > 0 {
      OpenCountAppend(a[1..], b);
      assert (a + b)[0] == a[0] && (a + b)[1..] == a[1..] + b;
    } else {
      assert a + b == b;
    }
  }

  /** Popping operators off a well-formed stack onto clean output keeps
      both well formed and every open parenthesis on the stack. */
  lemma PoppedClean(stack: seq<char>, out: string, k: nat)
    requires StackOk(stack) && Clean(out) && k <= |stack|
    requires forall i :: 0 <= i < k ==> stack[i] != '('
    ensures StackOk(stack[k..]) && Clean(out + Emit(stack[..k]))
    ensures OpenCount(stack[k..]) == OpenCount(stack)
  {
    var popped := stack[..k];
    assert forall x :: x in stack[k..] ==> x in stack;
    assert forall x :: x in popped ==> x in stack && x != '(';
    EmitSpaced(out, popped);
    EmitChars(popped);
    OpenCountSkip(stack, k);
  }

  /*---------------------------------------------------------------------------
    Parenthesis depth of the input
  ---------------------------------------------------------------------------*/

  function Delta(c: char): int {
    if c == '(' then 1 else if c == ')' then -1 else 0
  }

  /** Read from `l` on with `d` parentheses open, no `)` closes more than
      are open. */
  ghost predicate ClosesOk(s: string, l: nat, d: int)
    requires l <= |s|
    decreases |s| - l
  {
    l == |s| || (d + Delta(s[l]) >= 0 && ClosesOk(s, l + 1, d + Delta(s[l])))
  }

  /** The depth at the end of `s`, starting from `l` with depth `d`. */
  ghost function EndDepth(s: string, l: nat, d: int): int
    requires l <= |s|
    decreases |s| - l
  {
    if l == |s| then d else EndDepth(s, l + 1, d + Delta(s[l]))
  }

  /** Every character from `l` on is legal. */
  ghost predicate AllLegal(s: string, l: nat)
    requires l <= |s|
    decreases |s| - l
  {
    l == |s| || (Legal(s[l]) && AllLegal(s, l + 1))
  }

  lemma {:induction false} AllLegalMeans(s: string, l: nat)
    requires l <= |s|
    decreases |s| - l
    ensures AllLegal(s, l) <==> forall i :: l <= i < |s| ==> Legal(s[i])
  {
    if l < |s| {
      AllLegalMeans(s, l + 1);
    }
  }

  /** No `)` without a matching `(` before it. */
  ghost predicate NoUnmatchedClose(s: string) {
    ClosesOk(s, 0, 0)
  }

  /** Parentheses balanced. */
  ghost predicate Balanced(s: string) {
    ClosesOk(s, 0, 0) && EndDepth(s, 0, 0) == 0
  }

  /*---------------------------------------------------------------------------
    parse
  ---------------------------------------------------------------------------*/

  /** The end of the maximal digit run starting at `l`. */
  function DigitRunEnd(s: string, l: nat): (j: nat)
    requires l <= |s|
    decreases |s| - l
    ensures l <= j <= |s| && (j == |s| || !IsDigit(s[j]))
    ensures forall i :: l <= i < j ==> IsDigit(s[i])
  {
    if l < |s| && IsDigit(s[l]) then DigitRunEnd(s, l + 1) else l
  }

  /** Digits neither open nor close anything and are legal. */
  lemma {:induction false} SkipDigits(s: string, l: nat, j: nat, d: int)
    requires d >= 0 && l <= j <= |s| && forall i :: l <= i < j ==> IsDigit(s[i])
    decreases j - l
    ensures ClosesOk(s, l, d) <==> ClosesOk(s, j, d)
    ensures EndDepth(s, l, d) == EndDepth(s, j, d)
    ensures AllLegal(s, l) <==> AllLegal(s, j)
  {
    if l < j {
      SkipDigits(s, l + 1, j, d);
    }
  }

  /** The loop variables of `parse`: the position, the operator stack and
      the output so far. */
  datatype State = State(l: nat, stack: seq<char>, out: string)

  /** One iteration either continues with new loop variables or ends the
      run. */
  datatype Step = Next(st: State) | Done(o: Outcome<string>)

  ghost predicate Inv(s: string, st: State) {
    st.l <= |s| && StackOk(st.stack) && Clean(st.out)
  }

  /** One iteration of the main loop of `parse`, at a position before the
      end of the input. */
  function ParseStep(s: string, st: State): (r: Step)
    requires st.l < |s|
    ensures r.Next? ==> st.l < r.st.l <= |s|
    ensures r.Done? ==> (r.o == Undefined && s[st.l] == ')') || (r.o == Threw(1) && !Legal(s[st.l]))
  {
    var State(l, stack, out) := st;
    if IsDelim(s[l]) then
      Next(State(l + 1, stack, out))
    else if IsDigit(s[l]) then
      var j := DigitRunEnd(s, l);
      Next(State(j, stack, out + s[l..j] + " "))
    else if s[l] == '(' then
      Next(State(l + 1, ['('] + stack, out))
    else if s[l] == ')' then
      var k := PopToParen(stack);
      if k == |stack| then Done(Undefined)
      else Next(State(l + 1, stack[k + 1..], out + Emit(stack[..k])))
    else if IsOp(s[l]) then
      var k := PopForOp(s[l], stack);
      Next(State(l + 1, [s[l]] + stack[k..], out + Emit(stack[..k])))
    else
      Done(Threw(1))
  }

  /** An iteration keeps the stack to operators and parentheses and the
      output to tokens each followed by one space. */
  lemma StepInv(s: string, st: State)
    requires Inv(s, st) && st.l < |s|
    ensures ParseStep(s, st).Next? ==> Inv(s, ParseStep(s, st).st)
  {
    var State(l, stack, out) := st;
    if IsDelim(s[l]) {
    } else if IsDigit(s[l]) {
      DigitsClean(out, s[l..DigitRunEnd(s, l)]);
    } else if s[l] == ')' {
      PoppedClean(stack, out, PopToParen(stack));
    } else if IsOp(s[l]) {
      PoppedClean(stack, out, PopForOp(s[l], stack));
    }
  }

  lemma DigitsClean(out: string, digits: string)
    requires Clean(out) && |digits| > 0 && forall c :: c in digits ==> IsDigit(c)
    ensures Clean(out + digits + " ")
  {
    SpacedAppend(out, digits);
  }

  /** The depth bookkeeping of one iteration: the stack holds exactly the
      parentheses opened and not yet closed, so a `)` that the input can
      match never pops an empty stack. */
  lemma StepTracksDepth(s: string, st: State)
    requires Inv(s, st) && st.l < |s| && ClosesOk(s, st.l, OpenCount(st.stack))
    ensures ParseStep(s, st).Done? ==> ParseStep(s, st).o == Threw(1) && !AllLegal(s, st.l)
    ensures ParseStep(s, st).Next? ==>
              var n := ParseStep(s, st).st;
              && ClosesOk(s, n.l, OpenCount(n.stack))
              && (AllLegal(s, st.l) <==> AllLegal(s, n.l))
              && EndDepth(s, st.l, OpenCount(st.stack)) == EndDepth(s, n.l, OpenCount(n.stack))
  {
    var State(l, stack, out) := st;
    var d := OpenCount(stack);
    if IsDigit(s[l]) {
      SkipDigits(s, l, DigitRunEnd(s, l), d);
    } else if Legal(s[l]) {
      assert ClosesOk(s, l + 1, d + Delta(s[l]));
      assert EndDepth(s, l, d) == EndDepth(s, l + 1, d + Delta(s[l]));
      assert AllLegal(s, l) <==> AllLegal(s, l + 1);
      if s[l] == '(' {
        OpenCountAppend(['('], stack);
      } else if s[l] == ')' {
        StepClose(stack);
      } else if IsOp(s[l]) {
        var k := PopForOp(s[l], stack);
        PoppedClean(stack, out, k);
        OpenCountAppend([s[l]], stack[k..]);
      }
    }
  }

  /** The `)` case of `StepTracksDepth`: with a parenthesis open, the pop
      stops at it and removes it. */
  lemma StepClose(stack: seq<char>)
    requires OpenCount(stack) >= 1
    ensures PopToParen(stack) < |stack| && OpenCount(stack[PopToParen(stack) + 1..]) == OpenCount(stack) - 1
  {
    var k := PopToParen(stack);
    OpenCountSkip(stack, k);
    assert OpenCount(stack[k..]) >= 1;
    assert k < |stack| && stack[k] == '(';
    var rest := stack[k + 1..];
    OpenCountAppend(['('], rest);
    assert stack[k..] == ['('] + rest;
  }

  lemma OpenCountSkip(stack: seq<char>, k: nat)
    requires k <= |stack| && forall i :: 0 <= i < k ==> stack[i] != '('
    ensures OpenCount(stack[k..]) == OpenCount(stack)
  {
    assert stack == stack[..k] + stack[k..];
    OpenCountAppend(stack[..k], stack[k..]);
    assert '(' !in stack[..k];
  }

  /** The main loop of `parse` from the given loop variables, followed by
      the final flush of the stack. */
  function ParseFrom(s: string, st: State): (r: Outcome<string>)
    requires st.l <= |s|
    decreases |s| - st.l
    ensures r.Threw? ==> r.code == 1
  {
    if st.l == |s| then Ok(st.out + Emit(st.stack))
    else
      match ParseStep(s, st)
      case Done(o) => o
      case Next(n) => ParseFrom(s, n)
  }

  /** What the main loop returns is spaced tokens of digits and operators,
      and it throws only at an illegal character. */
  lemma {:induction false} ParseFromShape(s: string, st: State)
    requires Inv(s, st)
    decreases |s| - st.l
    ensures ParseFrom(s, st).Ok? ==> Spaced(ParseFrom(s, st).value) && OutChars(ParseFrom(s, st).value)
    ensures ParseFrom(s, st).Threw? ==> !AllLegal(s, st.l)
  {
    if st.l == |s| {
      FlushChars(st.stack, st.out);
    } else {
      StepInv(s, st);
      if ParseStep(s, st).Next? {
        var n := ParseStep(s, st).st;
        ParseFromShape(s, n);
        if ParseFrom(s, n).Threw? && AllLegal(s, st.l) { SkipLegal(s, st.l, n.l); }
      }
    }
  }

  lemma {:induction false} SkipLegal(s: string, l: nat, j: nat)
    requires l <= j <= |s| && AllLegal(s, l)
    decreases j - l
    ensures AllLegal(s, j)
  {
    if l < j {
      SkipLegal(s, l + 1, j);
    }
  }

  lemma FlushChars(stack: seq<char>, out: string)
    requires StackOk(stack) && Clean(out)
    ensures Spaced(out + Emit(stack)) && OutChars(out + Emit(stack))
    ensures OpenCount(stack) == 0 ==> Clean(out + Emit(stack))
  {
    EmitSpaced(out, stack);
    EmitChars(stack);
  }

  /** How the main loop ends once no `)` can pop an empty stack: it throws 1
      exactly when an illegal character follows, otherwise it returns, and
      the output has no parenthesis when all opened ones get closed. */
  lemma {:induction false} ParseFromOutcome(s: string, st: State)
    requires Inv(s, st) && ClosesOk(s, st.l, OpenCount(st.stack))
    decreases |s| - st.l
    ensures !ParseFrom(s, st).Undefined?
    ensures !AllLegal(s, st.l) ==> ParseFrom(s, st) == Threw(1)
    ensures AllLegal(s, st.l) ==> ParseFrom(s, st).Ok?
    ensures AllLegal(s, st.l) && EndDepth(s, st.l, OpenCount(st.stack)) == 0 ==> Clean(ParseFrom(s, st).value)
  {
    if st.l == |s| {
      FlushChars(st.stack, st.out);
    } else {
      StepTracksDepth(s, st);
      StepInv(s, st);
      if ParseStep(s, st).Next? {
        ParseFromOutcome(s, ParseStep(s, st).st);
      }
    }
  }

  /** `parse`: the shape of what it returns, and when it returns, throws or
      runs into undefined behaviour. */
  function Parse(s: string): (r: Outcome<string>)
    ensures r.Ok? ==> Spaced(r.value) && OutChars(r.value)
    ensures r.Threw? ==> r.code == 1 && exists i :: 0 <= i < |s| && !Legal(s[i])
    ensures NoUnmatchedClose(s) ==> !r.Undefined?
    ensures NoUnmatchedClose(s) && (exists i :: 0 <= i < |s| && !Legal(s[i])) ==> r == Threw(1)
    ensures Balanced(s) && (forall i :: 0 <= i < |s| ==> Legal(s[i])) ==> r.Ok? && Clean(r.value)
  {
    AllLegalMeans(s, 0);
    assert Inv(s, State(0, [], []));
    ParseStartOutcome(s);
    ParseFromShape(s, State(0, [], []));
    ParseFrom(s, State(0, [], []))
  }

  lemma ParseStartOutcome(s: string)
    ensures NoUnmatchedClose(s) ==> !ParseFrom(s, State(0, [], [])).Undefined?
    ensures NoUnmatchedClose(s) && !AllLegal(s, 0) ==> ParseFrom(s, State(0, [], [])) == Threw(1)
    ensures Balanced(s) && AllLegal(s, 0) ==> ParseFrom(s, State(0, [], [])).Ok? && Clean(ParseFrom(s, State(0, [], [])).value)
  {
    assert Inv(s, State(0, [], []));
    if NoUnmatchedClose(s) {
      ParseFromOutcome(s, State(0, [], []));
    }
  }
}
