/** The criteria language of `cli/src/verify.rs` as a plain syntax tree. */
module CriteriaGrammar {
  // Values, the four operator families, and the locked grammar with a compositional evaluator.
  //
  // Nothing here parses.  `CriteriaParser` proves that the code's parser, which evaluates
  // while it parses, computes exactly this.

  import opened Outcome

  // ----- Values -------------------------------------------------------------

  datatype Value = Number(n: real) | Boolean(b: bool) | Unmapped

  type Context = map<string, Value>

  /** `f64::EPSILON`, that is 2 to the power -52. */
  const EPSILON: real := 1.0 / 4503599627370496.0

  function Abs(x: real): real {
    if x < 0.0 then -x else x
  }

  datatype Op = And | Gte | Lte | Eq | Plus | Minus | Star | Slash

  /** How tightly an operator binds; 4 is the level of a primary. */
  function Level(op: Op): nat {
    match op
    case And => 0
    case Gte | Lte | Eq => 1
    case Plus | Minus => 2
    case Star | Slash => 3
  }

  function Times(x: real, y: real): real {
    x * y
  }

  function Over(x: real, y: real): real
    requires y != 0.0
  {
    x / y
  }

  /** `apply_and`, `apply_cmp`, `apply_add` and `apply_mul`, by operator. */
  function Apply(op: Op, lhs: Value, rhs: Value): Result<Value> {
    if lhs.Unmapped? || rhs.Unmapped? then
      Ok(Unmapped)
    else if op.And? then
      if lhs.Boolean? && rhs.Boolean? then Ok(Boolean(lhs.b && rhs.b)) else Err
    else if lhs.Number? && rhs.Number? then
      match op
      case Gte => Ok(Boolean(lhs.n >= rhs.n))
      case Lte => Ok(Boolean(lhs.n <= rhs.n))
      case Eq => Ok(Boolean(Abs(lhs.n - rhs.n) < EPSILON))
      case Plus => Ok(Number(lhs.n + rhs.n))
      case Minus => Ok(Number(lhs.n - rhs.n))
      case Star => Ok(Number(Times(lhs.n, rhs.n)))
      case Slash => if Abs(rhs.n) < EPSILON then Err else Ok(Number(Over(lhs.n, rhs.n)))
    else
      Err
  }

  /** The largest of a non-empty list of numbers; `Unmapped` beats every other argument. */
  function MaxOf(args: seq<Value>): (r: Result<Value>)
    ensures Unmapped in args ==> r == Ok(Unmapped)
    ensures Unmapped !in args ==>
              (r.Ok? <==> args != [] && forall i :: 0 <= i < |args| ==> args[i].Number?)
    ensures Unmapped !in args && r.Ok? ==>
              r.value in args && r.value.Number?
              && forall i :: 0 <= i < |args| ==> args[i].n <= r.value.n
  {
    if args == [] then Err
    else if |args| == 1 then
      if args[0].Boolean? then Err else Ok(args[0])
    else
      var rest := MaxOf(args[1..]);
      assert args == [args[0]] + args[1..];
      if args[0].Unmapped? then Ok(Unmapped)
      else if rest.Err? then Err
      else if rest.value.Unmapped? then rest
      else if args[0].Number? then
        Ok(if rest.value.n > args[0].n then rest.value else args[0])
      else Err
  }

  // ----- Number literals ----------------------------------------------------

  predicate IsDigit(c: char) {
    '0' <= c <= '9'
  }

  predicate IsNumberChar(c: char) {
    IsDigit(c) || c == '.'
  }

  function DigitValue(c: char): real
    requires IsDigit(c)
  {
    (c as int - '0' as int) as real
  }

  /** The value of the digits after the decimal point. */
  function Fraction(digits: string): Result<real> {
    if digits == "" then Ok(0.0)
    else if !IsDigit(digits[0]) then Err
    else
      var rest :- Fraction(digits[1..]);
      Ok((DigitValue(digits[0]) + rest) / 10.0)
  }

  /** `str::parse::<f64>` on the digit-and-dot texts the tokenizer cuts out. */
  function ParseNumber(text: string, acc: real := 0.0): Result<real> {
    if text == "" then Ok(acc)
    else if text[0] == '.' then
      var fraction :- Fraction(text[1..]);
      Ok(acc + fraction)
    else if IsDigit(text[0]) then
      ParseNumber(text[1..], 10.0 * acc + DigitValue(text[0]))
    else Err
  }

  /** A literal is a number exactly when it has at most one decimal point. */
  lemma {:induction false} ParseNumberAcceptsOneDot(text: string, acc: real)
    requires forall i :: 0 <= i < |text| ==> IsNumberChar(text[i])
    ensures ParseNumber(text, acc).Ok? <==>
            forall i, j :: 0 <= i < j < |text| ==> !(text[i] == '.' && text[j] == '.')
  {
    if text == "" {
    } else if text[0] == '.' {
      FractionAcceptsDigits(text[1..]);
      assert forall j :: 1 <= j < |text| ==> text[j] == text[1..][j - 1];
    } else {
      ParseNumberAcceptsOneDot(text[1..], 10.0 * acc + DigitValue(text[0]));
      assert forall j :: 1 <= j < |text| ==> text[j] == text[1..][j - 1];
    }
  }

  lemma {:induction false} FractionAcceptsDigits(digits: string)
    ensures Fraction(digits).Ok? <==> forall i :: 0 <= i < |digits| ==> IsDigit(digits[i])
  {
    if digits == "" {
    } else {
      FractionAcceptsDigits(digits[1..]);
      assert forall j :: 1 <= j < |digits| ==> digits[j] == digits[1..][j - 1];
    }
  }

  // ----- Syntax trees -------------------------------------------------------

  datatype Expr =
    | Literal(text: string)
    | Path(name: string)
    | Group(inner: Expr)
    | Max(args: seq<Expr>)
    | Binary(op: Op, lhs: Expr, rhs: Expr)

  function ExprLevel(e: Expr): nat {
    if e.Binary? then Level(e.op) else 4
  }

  /** The compositional value of a tree. */
  function Eval(e: Expr, ctx: Context): Result<Value> {
    match e
    case Literal(text) =>
      var n :- ParseNumber(text);
      Ok(Number(n))
    case Path(name) => Ok(if name in ctx then ctx[name] else Unmapped)
    case Group(inner) => Eval(inner, ctx)
    case Max(args) =>
      var values :- EvalAll(args, ctx);
      MaxOf(values)
    case Binary(op, lhs, rhs) =>
      var l :- Eval(lhs, ctx);
      var r :- Eval(rhs, ctx);
      Apply(op, l, r)
  }

  function EvalAll(es: seq<Expr>, ctx: Context): (r: Result<seq<Value>>)
    ensures r.Ok? ==> |r.value| == |es|
  {
    if es == [] then Ok([])
    else
      var head :- Eval(es[0], ctx);
      var tail :- EvalAll(es[1..], ctx);
      Ok([head] + tail)
  }

  // ----- The grammar --------------------------------------------------------

  datatype Token =
    | NumberToken(text: string)
    | IdentToken(text: string)
    | OpToken(op: Op)
    | LParen
    | RParen
    | Comma

  /**
   A derivation of the locked grammar: `AND`, `+ -` and `* /` associate to the left,
   a comparison does not chain, and a looser operand needs its own parentheses.
   */
  ghost predicate Shaped(e: Expr) {
    match e
    case Literal(_) => true
    case Path(_) => true
    case Group(inner) => Shaped(inner)
    case Max(args) => args != [] && forall i :: 0 <= i < |args| ==> Shaped(args[i])
    case Binary(op, lhs, rhs) =>
      && Shaped(lhs) && Shaped(rhs)
      && ExprLevel(rhs) > Level(op)
      && (if Level(op) == 1 then ExprLevel(lhs) > 1 else ExprLevel(lhs) >= Level(op))
  }

  /** The tokens a tree stands for, read left to right. */
  function Yield(e: Expr): (ts: seq<Token>)
    ensures Shaped(e) ==> ts != []
  {
    match e
    case Literal(text) => [NumberToken(text)]
    case Path(name) => [IdentToken(name)]
    case Group(inner) => [LParen] + Yield(inner) + [RParen]
    case Max(args) => [IdentToken("max"), LParen] + YieldAll(args) + [RParen]
    case Binary(op, lhs, rhs) => Yield(lhs) + [OpToken(op)] + Yield(rhs)
  }

  function YieldAll(es: seq<Expr>): seq<Token> {
    if es == [] then []
    else if |es| == 1 then Yield(es[0])
    else Yield(es[0]) + [Comma] + YieldAll(es[1..])
  }

  // ----- Parenthesising an arbitrary tree -----------------------------------

  /** Every tree over real names and literals; no shape is asked of it. */
  ghost predicate Complete(e: Expr) {
    match e
    case Literal(_) => true
    case Path(_) => true
    case Group(inner) => Complete(inner)
    case Max(args) => args != [] && forall i :: 0 <= i < |args| ==> Complete(args[i])
    case Binary(_, lhs, rhs) => Complete(lhs) && Complete(rhs)
  }

  function GroupBelow(e: Expr, level: nat): Expr {
    if ExprLevel(e) >= level then e else Group(e)
  }

  /** Adds just the parentheses that precedence and associativity ask for. */
  function Parenthesize(e: Expr): Expr {
    match e
    case Literal(_) => e
    case Path(_) => e
    case Group(inner) => Group(Parenthesize(inner))
    case Max(args) => Max(ParenthesizeAll(args))
    case Binary(op, lhs, rhs) =>
      Binary(op,
             GroupBelow(Parenthesize(lhs), if Level(op) == 1 then 2 else Level(op)),
             GroupBelow(Parenthesize(rhs), Level(op) + 1))
  }

  function ParenthesizeAll(es: seq<Expr>): (r: seq<Expr>)
    ensures |r| == |es|
  {
    if es == [] then [] else [Parenthesize(es[0])] + ParenthesizeAll(es[1..])
  }

  /** Parenthesising reaches the grammar and does not change the value. */
  lemma {:induction false} ParenthesizeMeans(e: Expr, ctx: Context)
    requires Complete(e)
    ensures Shaped(Parenthesize(e))
    ensures Eval(Parenthesize(e), ctx) == Eval(e, ctx)
    ensures ExprLevel(Parenthesize(e)) == ExprLevel(e)
  {
    match e
    case Literal(_) =>
    case Path(_) =>
    case Group(inner) => ParenthesizeMeans(inner, ctx);
    case Max(args) => ParenthesizeAllMeans(args, ctx);
    case Binary(op, lhs, rhs) =>
      ParenthesizeMeans(lhs, ctx);
      ParenthesizeMeans(rhs, ctx);
  }

  lemma {:induction false} ParenthesizeAllMeans(es: seq<Expr>, ctx: Context)
    requires forall i :: 0 <= i < |es| ==> Complete(es[i])
    ensures var ps := ParenthesizeAll(es);
            EvalAll(ps, ctx) == EvalAll(es, ctx) && forall i :: 0 <= i < |ps| ==> Shaped(ps[i])
  {
    if es == [] {
    } else {
      ParenthesizeMeans(es[0], ctx);
      ParenthesizeAllMeans(es[1..], ctx);
      assert ParenthesizeAll(es)[1..] == ParenthesizeAll(es[1..]);
    }
  }

  // ----- Unmapped is absorbing ----------------------------------------------

  /** The field paths a tree refers to. */
  function Paths(e: Expr): set<string> {
    match e
    case Literal(_) => {}
    case Path(name) => {name}
    case Group(inner) => Paths(inner)
    case Max(args) => PathsAll(args)
    case Binary(_, lhs, rhs) => Paths(lhs) + Paths(rhs)
  }

  function PathsAll(es: seq<Expr>): set<string> {
    if es == [] then {} else Paths(es[0]) + PathsAll(es[1..])
  }

  predicate Bound(name: string, ctx: Context) {
    name in ctx && !ctx[name].Unmapped?
  }

  /** A Number or Bool comes out only when every field path is bound. */
  lemma {:induction false} DefiniteNeedsEveryPath(e: Expr, ctx: Context)
    requires Eval(e, ctx).Ok? && !Eval(e, ctx).value.Unmapped?
    ensures forall name :: name in Paths(e) ==> Bound(name, ctx)
  {
    match e
    case Literal(_) =>
    case Path(_) =>
    case Group(inner) => DefiniteNeedsEveryPath(inner, ctx);
    case Max(args) => DefiniteNeedsEveryPathAll(args, ctx);
    case Binary(op, lhs, rhs) =>
      DefiniteNeedsEveryPath(lhs, ctx);
      DefiniteNeedsEveryPath(rhs, ctx);
  }

  lemma {:induction false} DefiniteNeedsEveryPathAll(es: seq<Expr>, ctx: Context)
    requires EvalAll(es, ctx).Ok? && Unmapped !in EvalAll(es, ctx).value
    ensures forall name :: name in PathsAll(es) ==> Bound(name, ctx)
  {
    if es == [] {
    } else {
      var values := EvalAll(es, ctx).value;
      assert values[0] == Eval(es[0], ctx).value && values[1..] == EvalAll(es[1..], ctx).value;
      DefiniteNeedsEveryPath(es[0], ctx);
      DefiniteNeedsEveryPathAll(es[1..], ctx);
    }
  }

  /** `more` keeps every definite binding of `ctx`; it may add or replace the rest. */
  ghost predicate Extends(ctx: Context, more: Context) {
    forall name :: Bound(name, ctx) ==> name in more && more[name] == ctx[name]
  }

  /** Only an Unmapped result can change when evidence is added: definite values and errors stay. */
  lemma {:induction false} ExtendingKeepsSettled(e: Expr, ctx: Context, more: Context)
    requires Extends(ctx, more)
    ensures Eval(e, ctx) == Ok(Unmapped) || Eval(e, more) == Eval(e, ctx)
  {
    match e
    case Literal(_) =>
    case Path(name) => assert Bound(name, ctx) || Eval(e, ctx) == Ok(Unmapped);
    case Group(inner) => ExtendingKeepsSettled(inner, ctx, more);
    case Max(args) => ExtendingKeepsSettledAll(args, ctx, more);
    case Binary(op, lhs, rhs) =>
      ExtendingKeepsSettled(lhs, ctx, more);
      ExtendingKeepsSettled(rhs, ctx, more);
  }

  lemma {:induction false} ExtendingKeepsSettledAll(es: seq<Expr>, ctx: Context, more: Context)
    requires Extends(ctx, more)
    ensures (EvalAll(es, ctx).Ok? && Unmapped in EvalAll(es, ctx).value)
            || EvalAll(es, more) == EvalAll(es, ctx)
  {
    if es == [] {
    } else {
      ExtendingKeepsSettled(es[0], ctx, more);
      ExtendingKeepsSettledAll(es[1..], ctx, more);
    }
  }
}
