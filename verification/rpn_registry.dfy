/**
  The registry half of `ExprParser::RPNExprParser<T>`: the tables of custom
  operators, variables and functions, the wrappers stored in them, and the
  expression reset.

  The `std::function` objects are opaque here: a wrapper holds a reference
  to one (`FuncRef`), and calling it goes through an `apply` parameter that
  stands for invoking the referenced function. Table keys that are
  `std::string_view`s are modelled as the strings they view. Every
  `std::runtime_error` the class throws is an `Error` value naming the
  check that failed.
*/
module RpnRegistry {

  /** An opaque reference to a stored `std::function`. */
  type FuncRef = nat

  /** The `runtime_error`s of the class, one per `throw`. */
  datatype Error =
    | BadArgLimit      // the function wrapper's constructor
    | ArgMismatch      // the function wrapper's call operator
    | DuplicateOp      // addOp
    | DuplicateVar     // addVar
    | DuplicateFunc    // addFunc

  datatype Result<+R> = Ok(value: R) | Throws(error: Error)

  /*---------------------------------------------------------------------------
    CustomFunctionWrapper
  ---------------------------------------------------------------------------*/

  /** What a function wrapper calls: a `std::function` given directly, or
      another wrapper (a `Functor` converts to the `std::function` the
      constructor takes, as `addFunc` does with the wrapper it is given). */
  datatype Callee = Plain(ref: FuncRef) | Wrapped(inner: Functor)

  /** A function of a list of arguments, optionally restricted to exactly
      `argCnt` of them. */
  datatype Functor = Functor(func: Callee, argCnt: nat, limitedArgc: bool)

  /** The constructor: an argument count may only be given together with
      the flag that enforces it. */
  function MakeFunctor(func: Callee, argCnt: nat, limitedArgc: bool): (r: Result<Functor>)
    ensures r.Throws? <==> argCnt != 0 && !limitedArgc
    ensures r.Throws? ==> r.error == BadArgLimit
    ensures r.Ok? ==> r.value.func == func && r.value.argCnt == argCnt && r.value.limitedArgc == limitedArgc
  {
    if argCnt != 0 && !limitedArgc then Throws(BadArgLimit)
    else Ok(Functor(func, argCnt, limitedArgc))
  }

  /** Every wrapper the constructor accepts has a count only when limited. */
  ghost predicate WellMade(f: Functor) {
    f.argCnt != 0 ==> f.limitedArgc
  }

  /** The argument lists a wrapper lets through to the plain function at the
      bottom of its chain: every wrapper on the way checks its own limit. */
  ghost predicate Admits<T>(f: Functor, args: seq<T>)
    decreases f
  {
    (!f.limitedArgc || |args| == f.argCnt) &&
    match f.func
    case Plain(_) => true
    case Wrapped(g) => Admits(g, args)
  }

  /** The plain function at the bottom of a chain of wrappers. */
  function Target(f: Functor): FuncRef
    decreases f
  {
    match f.func
    case Plain(ref) => ref
    case Wrapped(g) => Target(g)
  }

  /** The call operator: the argument list must have the limited length;
      then the callee runs. */
  function CallFunctor<T>(f: Functor, args: seq<T>, apply: (FuncRef, seq<T>) -> T): (r: Result<T>)
    decreases f
    ensures r.Ok? <==> Admits(f, args)
    ensures r.Throws? ==> r.error == ArgMismatch
    ensures r.Ok? ==> r.value == apply(Target(f), args)
  {
    if f.limitedArgc && |args| != f.argCnt then Throws(ArgMismatch)
    else
      match f.func
      case Plain(ref) => Ok(apply(ref, args))
      case Wrapped(g) => CallFunctor(g, args, apply)
  }

  /** What a constructed wrapper around a plain function accepts: an
      unlimited one (necessarily with count 0) takes any argument list, a
      limited one exactly those of its length. */
  lemma MadeFunctorAccepts<T>(ref: FuncRef, argCnt: nat, limitedArgc: bool, args: seq<T>, apply: (FuncRef, seq<T>) -> T)
    requires MakeFunctor(Plain(ref), argCnt, limitedArgc).Ok?
    ensures var f := MakeFunctor(Plain(ref), argCnt, limitedArgc).value;
            && WellMade(f)
            && (CallFunctor(f, args, apply).Ok? <==> !limitedArgc || |args| == argCnt)
            && (!limitedArgc ==> argCnt == 0)
  {
  }

  /** Wrapping a wrapper: the outer limit and the inner one must both be
      met, so a limited wrapper around a differently limited one admits
      nothing, and around an unlimited one behaves like the outer alone. */
  lemma WrappedChecksBoth<T>(inner: Functor, argCnt: nat, limitedArgc: bool, args: seq<T>, apply: (FuncRef, seq<T>) -> T)
    ensures var f := Functor(Wrapped(inner), argCnt, limitedArgc);
            && (CallFunctor(f, args, apply).Ok? <==> (!limitedArgc || |args| == argCnt) && CallFunctor(inner, args, apply).Ok?)
            && (CallFunctor(f, args, apply).Ok? ==> CallFunctor(f, args, apply) == CallFunctor(inner, args, apply))
            && (limitedArgc && inner.limitedArgc && inner.argCnt != argCnt ==> CallFunctor(f, args, apply).Throws?)
  {
  }

  /*---------------------------------------------------------------------------
    CustomOperatorWrapper
  ---------------------------------------------------------------------------*/

  /** A binary operator and its priority. */
  datatype Operator = Operator(func: FuncRef, priority: int)

  /** `operator<` orders operators by priority alone. */
  predicate Less(l: Operator, r: Operator) {
    l.priority < r.priority
  }

  /** `Less` is a strict weak order in which two operators are equivalent
      exactly when their priorities are equal, whatever functions they
      wrap. */
  lemma LessIsPriorityOrder(a: Operator, b: Operator, c: Operator)
    ensures !Less(a, a)
    ensures Less(a, b) ==> !Less(b, a)
    ensures Less(a, b) && Less(b, c) ==> Less(a, c)
    ensures (!Less(a, b) && !Less(b, a)) <==> a.priority == b.priority
    ensures Less(a, b) <==> Less(Operator(c.func, a.priority), b)
  {
  }

  /*---------------------------------------------------------------------------
    RPNExprParser
  ---------------------------------------------------------------------------*/

  datatype Parser<T> = Parser(
    originExpr: string,
    delim: char,
    ops: map<char, Operator>,
    vars: map<string, T>,
    funcs: map<string, Functor>,
    rpnExpr: string,
    calcRes: T)

  /** The converting constructor; `zero` is the value-initialised `T{}`. The
      default constructor is this one with all arguments defaulted. */
  function NewParser<T>(zero: T, originExpr: string, delim: char, ops: map<char, Operator>,
                        vars: map<string, T>, funcs: map<string, Functor>): (p: Parser<T>)
    ensures p.originExpr == originExpr && p.delim == delim
    ensures p.ops == ops && p.vars == vars && p.funcs == funcs
    ensures p.rpnExpr == [] && p.calcRes == zero
  {
    Parser(originExpr, delim, ops, vars, funcs, [], zero)
  }

  function DefaultParser<T>(zero: T): (p: Parser<T>)
    ensures p.delim == ' ' && p.originExpr == [] && p.ops == map[] && p.vars == map[] && p.funcs == map[]
  {
    NewParser(zero, [], ' ', map[], map[], map[])
  }

  /** `addOp`: a new name gets exactly one entry; a present name throws and
      the parser is left as it was. */
  function AddOp<T>(p: Parser<T>, name: char, func: FuncRef, priority: int): (r: Result<Parser<T>>)
    ensures r.Throws? <==> name in p.ops
    ensures r.Throws? ==> r.error == DuplicateOp
    ensures r.Ok? ==> r.value.ops.Keys == p.ops.Keys + {name}
                      && r.value.ops[name] == Operator(func, priority)
                      && (forall k :: k in p.ops ==> r.value.ops[k] == p.ops[k])
                      && r.value == p.(ops := r.value.ops)
  {
    if name in p.ops then Throws(DuplicateOp)
    else Ok(p.(ops := p.ops[name := Operator(func, priority)]))
  }

  /** `addVar`. */
  function AddVar<T>(p: Parser<T>, name: string, val: T): (r: Result<Parser<T>>)
    ensures r.Throws? <==> name in p.vars
    ensures r.Throws? ==> r.error == DuplicateVar
    ensures r.Ok? ==> r.value.vars.Keys == p.vars.Keys + {name}
                      && r.value.vars[name] == val
                      && (forall k :: k in p.vars ==> r.value.vars[k] == p.vars[k])
                      && r.value == p.(vars := r.value.vars)
  {
    if name in p.vars then Throws(DuplicateVar)
    else Ok(p.(vars := p.vars[name := val]))
  }

  /** `addFunc`: the duplicate check comes first, then the constructor of
      the stored wrapper, which wraps the given one, may throw on an
      unenforced argument count. */
  function AddFunc<T>(p: Parser<T>, name: string, func: Functor, argCnt: nat, limitedArgc: bool): (r: Result<Parser<T>>)
    ensures r.Throws? <==> name in p.funcs || (argCnt != 0 && !limitedArgc)
    ensures name in p.funcs ==> r == Throws(DuplicateFunc)
    ensures name !in p.funcs && argCnt != 0 && !limitedArgc ==> r == Throws(BadArgLimit)
    ensures r.Ok? ==> r.value.funcs.Keys == p.funcs.Keys + {name}
                      && r.value.funcs[name] == Functor(Wrapped(func), argCnt, limitedArgc)
                      && (forall k :: k in p.funcs ==> r.value.funcs[k] == p.funcs[k])
                      && r.value == p.(funcs := r.value.funcs)
  {
    if name in p.funcs then Throws(DuplicateFunc)
    else
      match MakeFunctor(Wrapped(func), argCnt, limitedArgc)
      case Throws(e) => Throws(e)
      case Ok(f) => Ok(p.(funcs := p.funcs[name := f]))
  }

  /** `removeOp`: erasing a key, present or not. */
  function RemoveOp<T>(p: Parser<T>, name: char): (r: Parser<T>)
    ensures r.ops.Keys == p.ops.Keys - {name}
    ensures forall k :: k in r.ops ==> r.ops[k] == p.ops[k]
    ensures r == p.(ops := r.ops)
  {
    p.(ops := p.ops - {name})
  }

  function RemoveVar<T>(p: Parser<T>, name: string): (r: Parser<T>)
    ensures r.vars.Keys == p.vars.Keys - {name}
    ensures forall k :: k in r.vars ==> r.vars[k] == p.vars[k]
    ensures r == p.(vars := r.vars)
  {
    p.(vars := p.vars - {name})
  }

  function RemoveFunc<T>(p: Parser<T>, name: string): (r: Parser<T>)
    ensures r.funcs.Keys == p.funcs.Keys - {name}
    ensures forall k :: k in r.funcs ==> r.funcs[k] == p.funcs[k]
    ensures r == p.(funcs := r.funcs)
  {
    p.(funcs := p.funcs - {name})
  }

  /** `clearOp`, `clearVar`, `clearFuncs`: each empties its own table only. */
  function ClearOp<T>(p: Parser<T>): (r: Parser<T>)
    ensures |r.ops| == 0 && r == p.(ops := r.ops)
  {
    p.(ops := map[])
  }

  function ClearVar<T>(p: Parser<T>): (r: Parser<T>)
    ensures |r.vars| == 0 && r == p.(vars := r.vars)
  {
    p.(vars := map[])
  }

  function ClearFuncs<T>(p: Parser<T>): (r: Parser<T>)
    ensures |r.funcs| == 0 && r == p.(funcs := r.funcs)
  {
    p.(funcs := map[])
  }

  /** `setExpr`: the new expression replaces the old one, the converted form
      and the result are reset. The `delim` parameter shadows the member, so
      the member keeps its value. */
  function SetExpr<T>(p: Parser<T>, zero: T, originExpr: string, delim: char): (r: Parser<T>)
    ensures r.originExpr == originExpr && r.rpnExpr == [] && r.calcRes == zero
    ensures r.delim == p.delim
    ensures r.ops == p.ops && r.vars == p.vars && r.funcs == p.funcs
  {
    p.(originExpr := originExpr, rpnExpr := [], calcRes := zero)
  }

  /*---------------------------------------------------------------------------
    How the table operations combine
  ---------------------------------------------------------------------------*/

  /** Adding a new operator and removing it again gives back the parser. */
  lemma AddOpRemoveOp<T>(p: Parser<T>, name: char, func: FuncRef, priority: int)
    requires name !in p.ops
    ensures AddOp(p, name, func, priority).Ok?
    ensures RemoveOp(AddOp(p, name, func, priority).value, name) == p
  {
    assert p.ops[name := Operator(func, priority)] - {name} == p.ops;
  }

  /** After a removal the name can be added again, whatever it held. */
  lemma RemoveOpThenAdd<T>(p: Parser<T>, name: char, func: FuncRef, priority: int)
    ensures AddOp(RemoveOp(p, name), name, func, priority).Ok?
    ensures AddOp(RemoveOp(p, name), name, func, priority).value.ops[name] == Operator(func, priority)
  {
  }

  lemma AddVarRemoveVar<T>(p: Parser<T>, name: string, val: T)
    requires name !in p.vars
    ensures AddVar(p, name, val).Ok?
    ensures RemoveVar(AddVar(p, name, val).value, name) == p
  {
    assert p.vars[name := val] - {name} == p.vars;
  }

  lemma RemoveVarThenAdd<T>(p: Parser<T>, name: string, val: T)
    ensures AddVar(RemoveVar(p, name), name, val) == Ok(p.(vars := p.vars[name := val]))
  {
    assert (p.vars - {name})[name := val] == p.vars[name := val];
  }

  lemma AddFuncRemoveFunc<T>(p: Parser<T>, name: string, func: Functor, argCnt: nat, limitedArgc: bool)
    requires name !in p.funcs && (argCnt != 0 ==> limitedArgc)
    ensures AddFunc(p, name, func, argCnt, limitedArgc).Ok?
    ensures RemoveFunc(AddFunc(p, name, func, argCnt, limitedArgc).value, name) == p
  {
    assert p.funcs[name := Functor(Wrapped(func), argCnt, limitedArgc)] - {name} == p.funcs;
  }

  /** A second add of the same name throws, whatever is added. */
  lemma AddOpTwiceThrows<T>(p: Parser<T>, name: char, f1: FuncRef, p1: int, f2: FuncRef, p2: int)
    requires name !in p.ops
    ensures AddOp(AddOp(p, name, f1, p1).value, name, f2, p2) == Throws(DuplicateOp)
  {
  }

  /** The three tables are independent: an operation on one leaves the
      answers of the others' adds unchanged. */
  lemma TablesIndependent<T>(p: Parser<T>, c: char, name: string, val: T, func: Functor, ref: FuncRef, argCnt: nat, limitedArgc: bool)
    ensures AddVar(ClearOp(p), name, val).Throws? <==> AddVar(p, name, val).Throws?
    ensures AddFunc(RemoveVar(p, name), name, func, argCnt, limitedArgc).Throws? <==> AddFunc(p, name, func, argCnt, limitedArgc).Throws?
    ensures AddOp(ClearFuncs(p), c, ref, 0).Throws? <==> AddOp(p, c, ref, 0).Throws?
  {
  }

  /** `setExpr` twice with the same expression is `setExpr` once. */
  lemma SetExprIdempotent<T>(p: Parser<T>, zero: T, e: string, d1: char, d2: char)
    ensures SetExpr(SetExpr(p, zero, e, d1), zero, e, d2) == SetExpr(p, zero, e, d1)
  {
  }
}
