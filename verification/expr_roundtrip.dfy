/**
  What `parse` and `calc` do together, stated against expression trees.

  A tree printed fully parenthesised is converted by `parse` into exactly
  its postfix form, and `calc` evaluates that postfix form exactly as the
  tree's reference semantics over C++ `int` says, undefined behaviour and
  `std::out_of_range` included.

  That theorem is about fully parenthesised text. For text that leaves the
  grouping to operator priority, the lemmas at the end show on concrete
  inputs that `parse` groups `*` and `/` tighter than `+` and `-`, and
  operators of equal priority to the left.
*/
module ExprRoundTrip {
  import opened ExprParser
  import opened ExprCalc

  /** An expression tree: a decimal literal or a binary operation. */
  datatype Expr = Num(digits: string) | Bin(op: char, left: Expr, right: Expr)

  ghost predicate WellFormed(e: Expr) {
    match e
    case Num(d) => |d| > 0 && forall c :: c in d ==> IsDigit(c)
    case Bin(op, l, r) => IsOp(op) && WellFormed(l) && WellFormed(r)
  }

  /** The fully parenthesised infix text of a tree. */
  function Infix(e: Expr): string {
    match e
    case Num(d) => d
    case Bin(op, l, r) => "(" + Infix(l) + [op] + Infix(r) + ")"
  }

  /** The postfix tokens of a tree. */
  function PostTokens(e: Expr): seq<string> {
    match e
    case Num(d) => [d]
    case Bin(op, l, r) => PostTokens(l) + PostTokens(r) + [[op]]
  }

  /** The postfix text of a tree, each token followed by a space. */
  function Postfix(e: Expr): string {
    match e
    case Num(d) => d + " "
    case Bin(op, l, r) => Postfix(l) + Postfix(r) + [op, ' ']
  }

  /** Reference semantics: evaluate the operands left to right, then apply
      the operator with C++ `int` arithmetic. */
  function Eval(e: Expr): (r: Outcome<int>)
    requires WellFormed(e)
    ensures r.Ok? ==> InInt(r.value)
    ensures r.Ok? || r == Undefined || r == OutOfRange
  {
    match e
    case Num(d) => Stoi(d)
    case Bin(op, l, r) =>
      var a := Eval(l);
      if !a.Ok? then a
      else
        var b := Eval(r);
        if !b.Ok? then b else ApplyOp(op, a.value, b.value)
  }

  /*---------------------------------------------------------------------------
    Shape of the postfix text
  ---------------------------------------------------------------------------*/

  lemma {:induction false} PostTokensAreTokens(e: Expr)
    requires WellFormed(e)
    ensures forall t :: t in PostTokens(e) ==> IsToken(t)
  {
    match e
    case Num(d) =>
      assert forall c :: c in d ==> c != ' ';
    case Bin(op, l, r) =>
      PostTokensAreTokens(l);
      PostTokensAreTokens(r);
  }

  lemma {:induction false} JoinAppend(a: seq<string>, b: seq<string>)
    ensures JoinSpaced(a + b) == JoinSpaced(a) + JoinSpaced(b)
  {
    if |a| == 0 {
      assert a + b == b;
    } else {
      JoinAppend(a[1..], b);
      assert (a + b)[0] == a[0] && (a + b)[1..] == a[1..] + b;
      assert JoinSpaced(a + b) == a[0] + " " + JoinSpaced(a[1..] + b);
    }
  }

  /** The postfix text is the postfix tokens joined with single spaces. */
  lemma {:induction false} PostfixJoined(e: Expr)
    ensures Postfix(e) == JoinSpaced(PostTokens(e))
  {
    match e
    case Num(d) =>
      assert JoinSpaced([d]) == d + " " + JoinSpaced([]);
    case Bin(op, l, r) =>
      PostfixJoined(l);
      PostfixJoined(r);
      JoinAppend(PostTokens(l) + PostTokens(r), [[op]]);
      JoinAppend(PostTokens(l), PostTokens(r));
      assert JoinSpaced([[op]]) == [op] + " " + JoinSpaced([]);
  }

  /*---------------------------------------------------------------------------
    parse(Infix(e)) == Postfix(e)
  ---------------------------------------------------------------------------*/

  lemma {:induction false} DigitRunAt(s: string, l: nat, d: string)
    requires l + |d| <= |s| && s[l..l + |d|] == d && forall c :: c in d ==> IsDigit(c)
    requires l + |d| == |s| || !IsDigit(s[l + |d|])
    decreases |d|
    ensures DigitRunEnd(s, l) == l + |d|
  {
    if |d| > 0 {
      assert s[l] == d[0] && d[0] in d;
      assert s[l + 1..l + 1 + |d[1..]|] == d[1..];
      assert forall c :: c in d[1..] ==> c in d;
      DigitRunAt(s, l + 1, d[1..]);
    }
  }

  /** `(` is pushed. */
  lemma OpenStep(s: string, st: State)
    requires st.l < |s| && s[st.l] == '('
    ensures ParseStep(s, st) == Next(State(st.l + 1, ['('] + st.stack, st.out))
  {
  }

  /** An operator right after `(` pops nothing. */
  lemma OpStep(s: string, st: State, op: char)
    requires st.l < |s| && s[st.l] == op && IsOp(op) && |st.stack| > 0 && st.stack[0] == '('
    ensures ParseStep(s, st) == Next(State(st.l + 1, [op] + st.stack, st.out))
  {
    assert PopForOp(op, st.stack) == 0;
    assert st.stack[0..] == st.stack && Emit(st.stack[..0]) == [];
    assert st.out + [] == st.out;
  }

  /** `)` over one operator and its `(` emits the operator. */
  lemma CloseStep(s: string, st: State, op: char, stack: seq<char>)
    requires st.l < |s| && s[st.l] == ')' && IsOp(op) && st.stack == [op, '('] + stack
    ensures ParseStep(s, st) == Next(State(st.l + 1, stack, st.out + [op, ' ']))
  {
    assert PopToParen(st.stack) == 1;
    assert st.stack[..1] == [op] && st.stack[2..] == stack;
    assert Emit([op]) == [op, ' '];
  }

  /** The loop reads `(`, an operator right after `(`, and `)` over one
      operator and its `(` by the steps above. */
  lemma OpenFrom(s: string, st: State)
    requires st.l < |s| && s[st.l] == '('
    ensures ParseFrom(s, st) == ParseFrom(s, State(st.l + 1, ['('] + st.stack, st.out))
  {
    OpenStep(s, st);
    FromNext(s, st);
  }

  lemma OpFrom(s: string, st: State, op: char)
    requires st.l < |s| && s[st.l] == op && IsOp(op) && |st.stack| > 0 && st.stack[0] == '('
    ensures ParseFrom(s, st) == ParseFrom(s, State(st.l + 1, [op] + st.stack, st.out))
  {
    OpStep(s, st, op);
    FromNext(s, st);
  }

  lemma CloseFrom(s: string, st: State, op: char, stack: seq<char>)
    requires st.l < |s| && s[st.l] == ')' && IsOp(op) && st.stack == [op, '('] + stack
    ensures ParseFrom(s, st) == ParseFrom(s, State(st.l + 1, stack, st.out + [op, ' ']))
  {
    CloseStep(s, st, op, stack);
    FromNext(s, st);
  }

  /** A step that goes on continues the loop from the new variables. */
  lemma FromNext(s: string, st: State)
    requires st.l < |s| && ParseStep(s, st).Next?
    ensures ParseFrom(s, st) == ParseFrom(s, ParseStep(s, st).st)
  {
  }

  /** The length of the infix text of a tree. */
  function Len(e: Expr): nat {
    match e
    case Num(d) => |d|
    case Bin(_, l, r) => Len(l) + Len(r) + 3
  }

  lemma {:induction false} LenInfix(e: Expr)
    ensures Len(e) == |Infix(e)|
  {
    if e.Bin? {
      LenInfix(e.left);
      LenInfix(e.right);
    }
  }

  /** `d` occurs in `s` at position `l`, character by character. */
  ghost predicate Copied(s: string, l: nat, d: string)
    decreases |d|
  {
    |d| == 0 || (l < |s| && s[l] == d[0] && Copied(s, l + 1, d[1..]))
  }

  lemma {:induction false} CopiedIsSlice(s: string, l: nat, d: string)
    requires l + |d| <= |s|
    decreases |d|
    ensures Copied(s, l, d) <==> s[l..l + |d|] == d
  {
    if |d| > 0 {
      CopiedIsSlice(s, l + 1, d[1..]);
      assert s[l..l + |d|] == [s[l]] + s[l + 1..l + 1 + |d[1..]|];
      assert d == [d[0]] + d[1..];
    }
  }

  /** The infix text of `e` starts at position `l` of `s`, piece by piece. */
  ghost predicate At(s: string, l: nat, e: Expr)
    decreases e
  {
    l + Len(e) <= |s| &&
    match e
    case Num(d) => Copied(s, l, d)
    case Bin(op, a, b) =>
      && s[l] == '(' && At(s, l + 1, a) && s[l + 1 + Len(a)] == op
      && At(s, l + 2 + Len(a), b) && s[l + 2 + Len(a) + Len(b)] == ')'
  }

  /** `w` occurs in `s` at position `m`. */
  ghost predicate Within(w: string, s: string, m: nat) {
    m + |w| <= |s| && forall i :: 0 <= i < |w| ==> s[m + i] == w[i]
  }

  lemma {:induction false} CopiedWithin(w: string, s: string, m: nat, k: nat, d: string)
    requires Within(w, s, m) && Copied(w, k, d)
    decreases |d|
    ensures Copied(s, m + k, d)
  {
    if |d| > 0 {
      CopiedWithin(w, s, m, k + 1, d[1..]);
    }
  }

  /** Text keeps its pieces wherever it occurs in a longer text. */
  lemma {:induction false} AtWithin(w: string, s: string, m: nat, k: nat, e: Expr)
    requires Within(w, s, m) && At(w, k, e)
    decreases e
    ensures At(s, m + k, e)
  {
    match e
    case Num(d) =>
      CopiedWithin(w, s, m, k, d);
    case Bin(op, a, b) =>
      AtWithin(w, s, m, k + 1, a);
      AtWithin(w, s, m, k + 2 + Len(a), b);
      BinWithin(w, s, m, k, op, a, b);
  }

  /** The three characters of an operation's text carry over to `s`. */
  lemma BinWithin(w: string, s: string, m: nat, k: nat, op: char, a: Expr, b: Expr)
    requires Within(w, s, m) && At(w, k, Bin(op, a, b))
    requires At(s, m + k + 1, a) && At(s, m + k + 2 + Len(a), b)
    ensures At(s, m + k, Bin(op, a, b))
  {
    assert s[m + k] == w[k];
    assert s[m + k + 1 + Len(a)] == w[k + 1 + Len(a)];
    assert s[m + k + 2 + Len(a) + Len(b)] == w[k + 2 + Len(a) + Len(b)];
  }

  /** The bracketing characters of a parenthesised operation's text. */
  lemma InfixParts(op: char, a: Expr, b: Expr)
    ensures var w, x, y := Infix(Bin(op, a, b)), Infix(a), Infix(b);
      && |w| == |x| + |y| + 3 && w[0] == '(' && w[1 + |x|] == op && w[2 + |x| + |y|] == ')'
  {
  }

  /** The left operand's text follows the opening parenthesis. */
  lemma LeftWithin(op: char, a: Expr, b: Expr)
    ensures Within(Infix(a), Infix(Bin(op, a, b)), 1)
  {
  }

  /** The right operand's text follows the operator. */
  lemma RightWithin(op: char, a: Expr, b: Expr)
    ensures Within(Infix(b), Infix(Bin(op, a, b)), 2 + |Infix(a)|)
  {
  }

  lemma NumAt(d: string)
    ensures At(d, 0, Num(d))
  {
    assert d[0..|d|] == d;
    CopiedIsSlice(d, 0, d);
  }

  /** The left operand sits at position 1 of the operation's text. */
  lemma LeftAt(op: char, a: Expr, b: Expr)
    requires At(Infix(a), 0, a)
    ensures At(Infix(Bin(op, a, b)), 1, a)
  {
    LeftWithin(op, a, b);
    AtWithinStart(Infix(a), Infix(Bin(op, a, b)), 1, a);
  }

  /** The right operand sits just after the operator. */
  lemma RightAt(op: char, a: Expr, b: Expr)
    requires At(Infix(b), 0, b)
    ensures At(Infix(Bin(op, a, b)), 2 + Len(a), b)
  {
    LenInfix(a);
    RightWithin(op, a, b);
    AtWithinStart(Infix(b), Infix(Bin(op, a, b)), 2 + Len(a), b);
  }

  lemma AtWithinStart(w: string, s: string, m: nat, e: Expr)
    requires Within(w, s, m) && At(w, 0, e)
    ensures At(s, m, e)
  {
    AtWithin(w, s, m, 0, e);
  }

  /** An operation's text is where its five pieces are. */
  lemma AtPieces(s: string, l: nat, op: char, a: Expr, b: Expr)
    requires l + Len(a) + Len(b) + 3 <= |s| && s[l] == '(' && At(s, l + 1, a) && s[l + 1 + Len(a)] == op
    requires At(s, l + 2 + Len(a), b) && s[l + 2 + Len(a) + Len(b)] == ')'
    ensures At(s, l, Bin(op, a, b))
  {
  }

  /** The infix text of a tree holds its pieces where `At` says. */
  lemma {:induction false} InfixAt(e: Expr)
    ensures At(Infix(e), 0, e)
  {
    match e
    case Num(d) =>
      NumAt(d);
    case Bin(op, a, b) =>
      assert At(Infix(e), 1, a) by {
        InfixAt(a);
        LeftAt(op, a, b);
      }
      assert At(Infix(e), 2 + Len(a), b) by {
        InfixAt(b);
        RightAt(op, a, b);
      }
      LenInfix(a);
      LenInfix(b);
      InfixParts(op, a, b);
      AtPieces(Infix(e), 0, op, a, b);
  }

  /** A literal is copied to the output followed by a space. */
  lemma ParseNum(d: string, s: string, st: State)
    requires WellFormed(Num(d)) && At(s, st.l, Num(d))
    requires st.l + |d| == |s| || !IsDigit(s[st.l + |d|])
    ensures ParseFrom(s, st) == ParseFrom(s, State(st.l + Len(Num(d)), st.stack, st.out + Postfix(Num(d))))
  {
    CopiedIsSlice(s, st.l, d);
    assert s[st.l] == d[0] && d[0] in d;
    DigitRunAt(s, st.l, d);
    assert st.out + s[st.l..st.l + |d|] + " " == st.out + Postfix(Num(d));
  }

  /** Reading the infix text of a tree anywhere in the input appends its
      postfix text to the output and leaves the operator stack as it was. */
  lemma {:induction false} ParseThrough(e: Expr, s: string, st: State)
    requires WellFormed(e) && At(s, st.l, e)
    requires st.l + Len(e) == |s| || !IsDigit(s[st.l + Len(e)])
    decreases e, 2
    ensures ParseFrom(s, st) == ParseFrom(s, State(st.l + Len(e), st.stack, st.out + Postfix(e)))
  {
    var State(l, stack, out) := st;
    match e
    case Num(d) => ParseNum(d, s, st);
    case Bin(op, a, b) =>
      var read := State(l + Len(a) + Len(b) + 3, stack, out + Postfix(a) + Postfix(b) + [op, ' ']);
      var target := State(l + Len(e), stack, out + Postfix(e));
      ParseBin(op, a, b, s, st);
      PostfixBin(out, op, a, b);
      assert read == target;
  }

  /** A parenthesised operation: `(`, the left operand, the operator, the
      right operand, `)`. */
  lemma {:induction false} ParseBin(op: char, a: Expr, b: Expr, s: string, st: State)
    requires IsOp(op) && WellFormed(a) && WellFormed(b)
    requires st.l < |s| && s[st.l] == '(' && At(s, st.l + 1, a)
    requires st.l + 1 + Len(a) < |s| && s[st.l + 1 + Len(a)] == op && At(s, st.l + 2 + Len(a), b)
    requires st.l + 2 + Len(a) + Len(b) < |s| && s[st.l + 2 + Len(a) + Len(b)] == ')'
    decreases Bin(op, a, b), 1
    ensures ParseFrom(s, st) == ParseFrom(s, State(st.l + Len(a) + Len(b) + 3, st.stack, st.out + Postfix(a) + Postfix(b) + [op, ' ']))
  {
    var mid := State(st.l + 2 + Len(a), [op, '('] + st.stack, st.out + Postfix(a));
    var after := State(mid.l + Len(b) + 1, st.stack, mid.out + Postfix(b) + [op, ' ']);
    ParseLeft(op, a, s, st);
    ParseRight(op, b, s, st.stack, mid);
    var target := State(st.l + Len(a) + Len(b) + 3, st.stack, st.out + Postfix(a) + Postfix(b) + [op, ' ']);
    FromChain(s, st, mid, after);
    assert after == target;
  }

  /** A parenthesised operation up to its right operand: `(` is pushed, the
      left operand is read, and the operator is pushed onto the `(`. */
  lemma {:induction false} ParseLeft(op: char, a: Expr, s: string, st: State)
    requires IsOp(op) && WellFormed(a) && st.l < |s| && s[st.l] == '('
    requires At(s, st.l + 1, a) && st.l + 1 + Len(a) < |s| && s[st.l + 1 + Len(a)] == op
    decreases a, 4
    ensures ParseFrom(s, st) == ParseFrom(s, State(st.l + 2 + Len(a), [op, '('] + st.stack, st.out + Postfix(a)))
  {
    var read := State(st.l + 1 + Len(a), ['('] + st.stack, st.out + Postfix(a));
    var pushed := State(read.l + 1, [op] + read.stack, read.out);
    ParseOpen(a, s, st);
    OpFrom(s, read, op);
    assert [op] + (['('] + st.stack) == [op, '('] + st.stack;
    assert pushed == State(st.l + 2 + Len(a), [op, '('] + st.stack, st.out + Postfix(a));
  }

  /** `(` is pushed and the left operand is read. */
  lemma {:induction false} ParseOpen(a: Expr, s: string, st: State)
    requires WellFormed(a) && st.l < |s| && s[st.l] == '('
    requires At(s, st.l + 1, a) && st.l + 1 + Len(a) < |s| && IsOp(s[st.l + 1 + Len(a)])
    decreases a, 3
    ensures ParseFrom(s, st) == ParseFrom(s, State(st.l + 1 + Len(a), ['('] + st.stack, st.out + Postfix(a)))
  {
    var open := State(st.l + 1, ['('] + st.stack, st.out);
    OpenFrom(s, st);
    ParseThrough(a, s, open);
  }

  /** The rest of a parenthesised operation: the right operand is read, and
      `)` emits the operator and pops the `(`. */
  lemma {:induction false} ParseRight(op: char, b: Expr, s: string, stack: seq<char>, mid: State)
    requires IsOp(op) && WellFormed(b) && At(s, mid.l, b) && mid.stack == [op, '('] + stack
    requires mid.l + Len(b) < |s| && s[mid.l + Len(b)] == ')'
    decreases b, 3
    ensures ParseFrom(s, mid) == ParseFrom(s, State(mid.l + Len(b) + 1, stack, mid.out + Postfix(b) + [op, ' ']))
  {
    var read := State(mid.l + Len(b), mid.stack, mid.out + Postfix(b));
    var closed := State(read.l + 1, stack, read.out + [op, ' ']);
    ParseThrough(b, s, mid);
    CloseFrom(s, read, op, stack);
    assert closed == State(mid.l + Len(b) + 1, stack, mid.out + Postfix(b) + [op, ' ']);
  }

  lemma PostfixBin(out: string, op: char, a: Expr, b: Expr)
    ensures out + Postfix(a) + Postfix(b) + [op, ' '] == out + Postfix(Bin(op, a, b))
  {
  }

  /** Two runs of the parse loop that reach the same result chain into
      one; stating it apart keeps `ParseFrom` from being unfolded in the
      proofs that use it. */
  lemma FromChain(s: string, x: State, y: State, z: State)
    requires x.l <= |s| && y.l <= |s| && z.l <= |s|
    requires ParseFrom(s, x) == ParseFrom(s, y) && ParseFrom(s, y) == ParseFrom(s, z)
    ensures ParseFrom(s, x) == ParseFrom(s, z)
  {
  }

  /** `parse` of a fully parenthesised tree returns its postfix text. */
  lemma ParseInfix(e: Expr)
    requires WellFormed(e)
    ensures Parse(Infix(e)) == Ok(Postfix(e))
  {
    var i := Infix(e);
    InfixAt(e);
    LenInfix(e);
    ParseThrough(e, i, State(0, [], []));
    assert [] + Postfix(e) + Emit([]) == Postfix(e);
  }

  /*---------------------------------------------------------------------------
    calc(Postfix(e)) == Eval(e)
  ---------------------------------------------------------------------------*/

  /** Running the postfix tokens of a tree on any stack pushes its value,
      or stops with its error. */
  lemma {:induction false} EvalThrough(e: Expr, rest: seq<string>, st: seq<int>)
    requires WellFormed(e) && IntStack(st) && forall t :: t in rest ==> IsToken(t)
    ensures forall t :: t in PostTokens(e) + rest ==> IsToken(t)
    ensures Eval(e).Ok? ==> IntStack(st + [Eval(e).value])
    ensures EvalTokens(PostTokens(e) + rest, st)
            == (if Eval(e).Ok? then EvalTokens(rest, st + [Eval(e).value]) else Eval(e))
  {
    PostTokensAreTokens(e);
    match e
    case Num(d) =>
      assert d[0] in d;
      assert ([d] + rest)[0] == d && ([d] + rest)[1..] == rest;
    case Bin(op, a, b) =>
      PostTokensAreTokens(a);
      PostTokensAreTokens(b);
      var tail := PostTokens(b) + [[op]] + rest;
      assert PostTokens(e) + rest == PostTokens(a) + tail;
      EvalThrough(a, PostTokens(b) + ([[op]] + rest), st);
      assert PostTokens(b) + ([[op]] + rest) == tail;
      if Eval(a).Ok? {
        var x := Eval(a).value;
        EvalThrough(b, [[op]] + rest, st + [x]);
        if Eval(b).Ok? {
          var y := Eval(b).value;
          var st2 := st + [x] + [y];
          assert ([[op]] + rest)[0] == [op] && ([[op]] + rest)[1..] == rest;
          assert !IsDigit(op);
          assert st2[|st2| - 1] == y && st2[|st2| - 2] == x && st2[..|st2| - 2] == st;
        }
      }
  }

  /** `calc` of the postfix text of a tree is the tree's value. */
  lemma CalcPostfix(e: Expr)
    requires WellFormed(e)
    ensures Calc(Postfix(e)) == Eval(e)
  {
    PostTokensAreTokens(e);
    PostfixJoined(e);
    TokensOfJoin(PostTokens(e));
    EvalThrough(e, [], []);
    assert PostTokens(e) + [] == PostTokens(e);
  }

  /** `calc(parse(infix))` evaluates the tree. */
  lemma CalcAfterParse(e: Expr)
    requires WellFormed(e)
    ensures Parse(Infix(e)).Ok? && Calc(Parse(Infix(e)).value) == Eval(e)
  {
    ParseInfix(e);
    CalcPostfix(e);
  }

  /*---------------------------------------------------------------------------
    Precedence and associativity on text without parentheses
  ---------------------------------------------------------------------------*/

  /** One step of the parse loop from `x` goes on from `y`. */
  lemma StepTo(s: string, x: State, y: State)
    requires x.l < |s| && ParseStep(s, x) == Next(y)
    ensures ParseFrom(s, x) == ParseFrom(s, y)
  {
    FromNext(s, x);
  }

  /** `std::stoi` of a one-digit literal is that digit. */
  lemma StoiDigit(c: char)
    requires IsDigit(c)
    ensures Stoi([c]) == Ok(c as int - '0' as int)
  {
    var d := [c];
    assert DigitRunEnd(d, 0) == 1;
    assert d[..1] == d && d[..|d| - 1] == [];
    assert DigitsValue(d) == DigitsValue([]) * 10 + (c as int - '0' as int);
  }

  /** The loop on `1-2-3`: the second `-` pops the first. */
  lemma ParseMinusMinus()
    ensures Parse("1-2-3") == Ok("1 2 - 3 - ")
  {
    LoopMinusMinus("1-2-3");
  }

  /** The main loop of `parse` on a concrete text, iteration by iteration:
      one state per character, each reached by `StepTo` from the one before,
      and the final flush of the stack. This lemma and the next two follow this
      script on `1-2-3`, `1+2*3` and `2*3-4`. */
  lemma LoopMinusMinus(s: string)
    requires s == "1-2-3"
    ensures ParseFrom(s, State(0, [], [])) == Ok("1 2 - 3 - ")
  {
    var st0, st1, st2 := State(0, [], []), State(1, [], "1 "), State(2, ['-'], "1 ");
    var st3, st4, st5 := State(3, ['-'], "1 2 "), State(4, ['-'], "1 2 - "), State(5, ['-'], "1 2 - 3 ");
    assert ParseFrom(s, st0) == ParseFrom(s, st1) by {
      assert DigitRunEnd(s, 0) == 1 && s[0..1] == "1";
      StepTo(s, st0, st1);
    }
    assert ParseFrom(s, st1) == ParseFrom(s, st2) by {
      assert PopForOp('-', []) == 0;
      StepTo(s, st1, st2);
    }
    assert ParseFrom(s, st2) == ParseFrom(s, st3) by {
      assert DigitRunEnd(s, 2) == 3 && s[2..3] == "2";
      StepTo(s, st2, st3);
    }
    assert ParseFrom(s, st3) == ParseFrom(s, st4) by {
      assert PopForOp('-', ['-']) == 1;
      StepTo(s, st3, st4);
    }
    assert ParseFrom(s, st4) == ParseFrom(s, st5) by {
      assert DigitRunEnd(s, 4) == 5 && s[4..5] == "3";
      StepTo(s, st4, st5);
    }
    assert st5.out + Emit(st5.stack) == "1 2 - 3 - ";
  }

  /** The postfix text of `(1-2)-3`; the tree is well formed. */
  lemma PostfixMinusMinus()
    ensures WellFormed(Bin('-', Bin('-', Num("1"), Num("2")), Num("3")))
    ensures Postfix(Bin('-', Bin('-', Num("1"), Num("2")), Num("3"))) == "1 2 - 3 - "
  {
  }

  /** The reference value of `(1-2)-3`. */
  lemma EvalMinusMinus()
    ensures Eval(Bin('-', Bin('-', Num("1"), Num("2")), Num("3"))) == Ok(-4)
  {
    StoiDigit('1');
    StoiDigit('2');
    StoiDigit('3');
  }

  /** `parse` reads `1-2-3` as `(1-2)-3`: operators of equal priority
      group to the left, and `calc` gives -4. */
  lemma LeftAssociative()
    ensures Parse("1-2-3") == Ok(Postfix(Bin('-', Bin('-', Num("1"), Num("2")), Num("3"))))
    ensures Calc(Parse("1-2-3").value) == Ok(-4)
  {
    var e := Bin('-', Bin('-', Num("1"), Num("2")), Num("3"));
    PostfixMinusMinus();
    ParseMinusMinus();
    assert Calc("1 2 - 3 - ") == Ok(-4) by {
      CalcPostfix(e);
      EvalMinusMinus();
    }
  }

  /** The loop on `1+2*3`: the `*` is pushed over the `+`. */
  lemma ParsePlusTimes()
    ensures Parse("1+2*3") == Ok("1 2 3 * + ")
  {
    LoopPlusTimes("1+2*3");
  }

  lemma LoopPlusTimes(s: string)
    requires s == "1+2*3"
    ensures ParseFrom(s, State(0, [], [])) == Ok("1 2 3 * + ")
  {
    var st0, st1, st2 := State(0, [], []), State(1, [], "1 "), State(2, ['+'], "1 ");
    var st3, st4, st5 := State(3, ['+'], "1 2 "), State(4, ['*', '+'], "1 2 "), State(5, ['*', '+'], "1 2 3 ");
    assert ParseFrom(s, st0) == ParseFrom(s, st1) by {
      assert DigitRunEnd(s, 0) == 1 && s[0..1] == "1";
      StepTo(s, st0, st1);
    }
    assert ParseFrom(s, st1) == ParseFrom(s, st2) by {
      assert PopForOp('+', []) == 0;
      StepTo(s, st1, st2);
    }
    assert ParseFrom(s, st2) == ParseFrom(s, st3) by {
      assert DigitRunEnd(s, 2) == 3 && s[2..3] == "2";
      StepTo(s, st2, st3);
    }
    assert ParseFrom(s, st3) == ParseFrom(s, st4) by {
      assert PopForOp('*', ['+']) == 0;
      StepTo(s, st3, st4);
    }
    assert ParseFrom(s, st4) == ParseFrom(s, st5) by {
      assert DigitRunEnd(s, 4) == 5 && s[4..5] == "3";
      StepTo(s, st4, st5);
    }
    assert st5.out + Emit(st5.stack) == "1 2 3 * + ";
  }

  /** The postfix text of `1+(2*3)`; the tree is well formed. */
  lemma PostfixPlusTimes()
    ensures WellFormed(Bin('+', Num("1"), Bin('*', Num("2"), Num("3"))))
    ensures Postfix(Bin('+', Num("1"), Bin('*', Num("2"), Num("3")))) == "1 2 3 * + "
  {
  }

  /** The reference value of `1+(2*3)`. */
  lemma EvalPlusTimes()
    ensures Eval(Bin('+', Num("1"), Bin('*', Num("2"), Num("3")))) == Ok(7)
  {
    StoiDigit('1');
    StoiDigit('2');
    StoiDigit('3');
  }

  /** `parse` reads `1+2*3` as `1+(2*3)`: the `*` does not pop the `+` of
      lower priority below it, and `calc` gives 7. */
  lemma MultiplicationBindsTighter()
    ensures Parse("1+2*3") == Ok(Postfix(Bin('+', Num("1"), Bin('*', Num("2"), Num("3")))))
    ensures Calc(Parse("1+2*3").value) == Ok(7)
  {
    var e := Bin('+', Num("1"), Bin('*', Num("2"), Num("3")));
    PostfixPlusTimes();
    ParsePlusTimes();
    assert Calc("1 2 3 * + ") == Ok(7) by {
      CalcPostfix(e);
      EvalPlusTimes();
    }
  }

  /** The loop on `2*3-4`: the `-` pops the `*`. */
  lemma ParseTimesMinus()
    ensures Parse("2*3-4") == Ok("2 3 * 4 - ")
  {
    LoopTimesMinus("2*3-4");
  }

  lemma LoopTimesMinus(s: string)
    requires s == "2*3-4"
    ensures ParseFrom(s, State(0, [], [])) == Ok("2 3 * 4 - ")
  {
    var st0, st1, st2 := State(0, [], []), State(1, [], "2 "), State(2, ['*'], "2 ");
    var st3, st4, st5 := State(3, ['*'], "2 3 "), State(4, ['-'], "2 3 * "), State(5, ['-'], "2 3 * 4 ");
    assert ParseFrom(s, st0) == ParseFrom(s, st1) by {
      assert DigitRunEnd(s, 0) == 1 && s[0..1] == "2";
      StepTo(s, st0, st1);
    }
    assert ParseFrom(s, st1) == ParseFrom(s, st2) by {
      assert PopForOp('*', []) == 0;
      StepTo(s, st1, st2);
    }
    assert ParseFrom(s, st2) == ParseFrom(s, st3) by {
      assert DigitRunEnd(s, 2) == 3 && s[2..3] == "3";
      StepTo(s, st2, st3);
    }
    assert ParseFrom(s, st3) == ParseFrom(s, st4) by {
      assert PopForOp('-', ['*']) == 1;
      StepTo(s, st3, st4);
    }
    assert ParseFrom(s, st4) == ParseFrom(s, st5) by {
      assert DigitRunEnd(s, 4) == 5 && s[4..5] == "4";
      StepTo(s, st4, st5);
    }
    assert st5.out + Emit(st5.stack) == "2 3 * 4 - ";
  }

  /** The postfix text of `(2*3)-4`; the tree is well formed. */
  lemma PostfixTimesMinus()
    ensures WellFormed(Bin('-', Bin('*', Num("2"), Num("3")), Num("4")))
    ensures Postfix(Bin('-', Bin('*', Num("2"), Num("3")), Num("4"))) == "2 3 * 4 - "
  {
  }

  /** The reference value of `(2*3)-4`. */
  lemma EvalTimesMinus()
    ensures Eval(Bin('-', Bin('*', Num("2"), Num("3")), Num("4"))) == Ok(2)
  {
    StoiDigit('2');
    StoiDigit('3');
    StoiDigit('4');
  }

  /** `parse` reads `2*3-4` as `(2*3)-4`: the `-` pops the `*` of higher
      priority before it is pushed, and `calc` gives 2. */
  lemma HigherPriorityPoppedFirst()
    ensures Parse("2*3-4") == Ok(Postfix(Bin('-', Bin('*', Num("2"), Num("3")), Num("4"))))
    ensures Calc(Parse("2*3-4").value) == Ok(2)
  {
    var e := Bin('-', Bin('*', Num("2"), Num("3")), Num("4"));
    PostfixTimesMinus();
    ParseTimesMinus();
    assert Calc("2 3 * 4 - ") == Ok(2) by {
      CalcPostfix(e);
      EvalTimesMinus();
    }
  }
}
