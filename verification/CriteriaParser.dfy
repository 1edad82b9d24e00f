/** The parser of `cli/src/verify.rs`, which evaluates as it parses. */
module CriteriaParser {
  // `ParseLevel` is a parser that only builds trees.  It is proved to recognise exactly the
  // grammar (`ParseIsSound`, `ParseIsComplete`).  The five `Parse...` methods are the code's own
  // fused form: they hold a cursor, evaluate as they go and never build a tree.  Each is proved
  // to agree with the tree parser followed by the compositional evaluator.

  import opened Outcome
  import opened CriteriaGrammar

  type Parsed<T> = Option<(T, nat)>

  lemma SliceOfSlice<T>(s: seq<T>, a: nat, b: nat, c: nat, d: nat)
    requires a <= b <= c <= d <= |s|
    ensures s[a..d][b - a..c - a] == s[b..c]
  {
    forall k | 0 <= k < c - b
      ensures s[a..d][b - a..c - a][k] == s[b..c][k]
    {
      assert s[a..d][b - a + k] == s[b + k];
    }
  }

  lemma SliceSplits<T>(s: seq<T>, a: nat, b: nat, c: nat)
    requires a <= b < c <= |s|
    ensures s[a..c] == s[a..b] + [s[b]] + s[b + 1..c]
  {
  }

  // ----- A parser that builds trees -----------------------------------------

  predicate OpAt(tokens: seq<Token>, pos: nat, level: nat) {
    pos < |tokens| && tokens[pos].OpToken? && Level(tokens[pos].op) == level
  }

  function ParseLevel(level: nat, tokens: seq<Token>, pos: nat): (r: Parsed<Expr>)
    requires level <= 4 && pos <= |tokens|
    ensures r.Some? ==> pos < r.value.1 <= |tokens|
    decreases |tokens| - pos, 4 - level, 1
  {
    if level == 4 then
      ParsePrimaryTree(tokens, pos)
    else
      match ParseLevel(level + 1, tokens, pos)
      case None => None
      case Some((lhs, next)) => ParseTail(level, lhs, tokens, next)
  }

  /** Extends `lhs` by the operators of `level` that follow it. */
  function ParseTail(level: nat, lhs: Expr, tokens: seq<Token>, pos: nat): (r: Parsed<Expr>)
    requires level < 4 && pos <= |tokens|
    ensures r.Some? ==> pos <= r.value.1 <= |tokens|
    decreases |tokens| - pos, 4 - level, 0
  {
    if !OpAt(tokens, pos, level) then Some((lhs, pos))
    else
      match ParseLevel(level + 1, tokens, pos + 1)
      case None => None
      case Some((rhs, next)) =>
        var e := Binary(tokens[pos].op, lhs, rhs);
        if level == 1 then Some((e, next)) else ParseTail(level, e, tokens, next)
  }

  function ParsePrimaryTree(tokens: seq<Token>, pos: nat): (r: Parsed<Expr>)
    requires pos <= |tokens|
    ensures r.Some? ==> pos < r.value.1 <= |tokens|
    decreases |tokens| - pos, 0, 0
  {
    if pos == |tokens| then None
    else match tokens[pos]
      case NumberToken(text) => Some((Literal(text), pos + 1))
      case LParen => (
        match ParseLevel(0, tokens, pos + 1)
        case None => None
        case Some((inner, next)) =>
          if next < |tokens| && tokens[next] == RParen then Some((Group(inner), next + 1)) else None)
      case IdentToken(text) =>
        if text == "max" && pos + 1 < |tokens| && tokens[pos + 1] == LParen then
          match ParseArgsTree(tokens, pos + 2)
          case None => None
          case Some((args, next)) =>
            if next < |tokens| && tokens[next] == RParen then Some((Max(args), next + 1)) else None
        else Some((Path(text), pos + 1))
      case _ => None
  }

  function ParseArgsTree(tokens: seq<Token>, pos: nat): (r: Parsed<seq<Expr>>)
    requires pos <= |tokens|
    ensures r.Some? ==> pos < r.value.1 <= |tokens|
    decreases |tokens| - pos, 5, 0
  {
    match ParseLevel(0, tokens, pos)
    case None => None
    case Some((arg, next)) =>
      if next < |tokens| && tokens[next] == Comma then
        match ParseArgsTree(tokens, next + 1)
        case None => None
        case Some((rest, last)) => Some(([arg] + rest, last))
      else Some(([arg], next))
  }

  // ----- The tree parser is sound -------------------------------------------

  ghost predicate Covers(e: Expr, tokens: seq<Token>, pos: nat, next: nat) {
    pos <= next <= |tokens| && Shaped(e) && tokens[pos..next] == Yield(e)
  }

  lemma {:induction false} ParseIsSound(level: nat, tokens: seq<Token>, pos: nat)
    requires level <= 4 && pos <= |tokens|
    requires ParseLevel(level, tokens, pos).Some?
    ensures var (e, next) := ParseLevel(level, tokens, pos).value;
            Covers(e, tokens, pos, next) && ExprLevel(e) >= level
    decreases |tokens| - pos, 4 - level, 1
  {
    if level == 4 {
      ParsePrimaryIsSound(tokens, pos);
    } else {
      ParseIsSound(level + 1, tokens, pos);
      var (lhs, next) := ParseLevel(level + 1, tokens, pos).value;
      ParseTailIsSound(level, lhs, tokens, pos, next);
    }
  }

  lemma {:induction false} ParseTailIsSound(level: nat, lhs: Expr, tokens: seq<Token>, start: nat, pos: nat)
    requires level < 4 && start < pos <= |tokens|
    requires ExprLevel(lhs) >= if level == 1 then 2 else level
    requires Covers(lhs, tokens, start, pos)
    requires ParseTail(level, lhs, tokens, pos).Some?
    ensures var (e, next) := ParseTail(level, lhs, tokens, pos).value;
            Covers(e, tokens, start, next) && ExprLevel(e) >= level
    decreases |tokens| - pos, 4 - level, 0
  {
    if OpAt(tokens, pos, level) {
      ParseIsSound(level + 1, tokens, pos + 1);
      var (rhs, next) := ParseLevel(level + 1, tokens, pos + 1).value;
      var e := Binary(tokens[pos].op, lhs, rhs);
      SliceSplits(tokens, start, pos, next);
      if level != 1 {
        ParseTailIsSound(level, e, tokens, start, next);
      }
    }
  }

  lemma {:induction false} ParsePrimaryIsSound(tokens: seq<Token>, pos: nat)
    requires pos <= |tokens| && ParsePrimaryTree(tokens, pos).Some?
    ensures var (e, next) := ParsePrimaryTree(tokens, pos).value;
            Covers(e, tokens, pos, next) && ExprLevel(e) == 4
    decreases |tokens| - pos, 0, 0
  {
    var (e, next) := ParsePrimaryTree(tokens, pos).value;
    match e
    case Group(inner) =>
      ParseIsSound(0, tokens, pos + 1);
      Bracketed(tokens, pos, [LParen], next);
    case Max(args) =>
      ParseArgsIsSound(tokens, pos + 2);
      Bracketed(tokens, pos, [IdentToken("max"), LParen], next);
    case _ =>
  }

  /** A slice that opens with `front` and closes with a parenthesis, seen from outside and inside. */
  lemma Bracketed(tokens: seq<Token>, pos: nat, front: seq<Token>, next: nat)
    requires pos + |front| < next <= |tokens|
    requires tokens[pos..pos + |front|] == front && tokens[next - 1] == RParen
    ensures tokens[pos..next] == front + tokens[pos + |front|..next - 1] + [RParen]
  {
  }

  lemma {:induction false} ParseArgsIsSound(tokens: seq<Token>, pos: nat)
    requires pos <= |tokens| && ParseArgsTree(tokens, pos).Some?
    ensures var (args, next) := ParseArgsTree(tokens, pos).value;
            args != [] && (forall i :: 0 <= i < |args| ==> Shaped(args[i]))
            && tokens[pos..next] == YieldAll(args)
    decreases |tokens| - pos, 5, 0
  {
    ParseIsSound(0, tokens, pos);
    var (arg, next) := ParseLevel(0, tokens, pos).value;
    if next < |tokens| && tokens[next] == Comma {
      ParseArgsIsSound(tokens, next + 1);
      var (rest, last) := ParseArgsTree(tokens, next + 1).value;
      assert ([arg] + rest)[1..] == rest;
      SliceSplits(tokens, pos, next, last);
    }
  }

  // ----- The tree parser is complete ----------------------------------------

  /** What may stand after a phrase of `level`: nothing that would make the phrase longer. */
  ghost predicate Follows(level: nat, tokens: seq<Token>, pos: nat) {
    pos < |tokens| ==>
      tokens[pos] == RParen || tokens[pos] == Comma
      || (tokens[pos].OpToken? && Level(tokens[pos].op) < level)
  }

  /** A slice that reads `front`, `middle`, `back` falls apart at `middle`. */
  lemma SplitsAt(tokens: seq<Token>, pos: nat, next: nat, front: seq<Token>, middle: Token, back: seq<Token>)
    requires pos <= next <= |tokens| && tokens[pos..next] == front + [middle] + back
    ensures var mid := pos + |front|;
            mid < next && tokens[pos..mid] == front && tokens[mid] == middle && tokens[mid + 1..next] == back
  {
    var mid := pos + |front|;
    var all := front + [middle] + back;
    assert |tokens[pos..next]| == next - pos;
    SliceOfSlice(tokens, pos, pos, mid, next);
    SliceOfSlice(tokens, pos, mid + 1, next, next);
    assert all[0..|front|] == front && all[|front|] == middle && all[|front| + 1..|all|] == back;
    assert tokens[pos..next][mid - pos] == tokens[mid];
  }

  lemma BinaryCovers(e: Expr, tokens: seq<Token>, pos: nat, next: nat) returns (mid: nat)
    requires e.Binary? && Covers(e, tokens, pos, next)
    ensures pos <= mid < next && tokens[mid] == OpToken(e.op)
    ensures Covers(e.lhs, tokens, pos, mid) && Covers(e.rhs, tokens, mid + 1, next)
  {
    mid := pos + |Yield(e.lhs)|;
    SplitsAt(tokens, pos, next, Yield(e.lhs), OpToken(e.op), Yield(e.rhs));
  }

  lemma {:induction false} ParseIsComplete(e: Expr, level: nat, tokens: seq<Token>, pos: nat, next: nat)
    requires level <= 4 && Covers(e, tokens, pos, next)
    requires ExprLevel(e) >= level && Follows(level, tokens, next)
    ensures ParseLevel(level, tokens, pos) == Some((e, next))
    decreases e, 4 - level, 1
  {
    if level == 4 {
      PrimaryIsComplete(e, tokens, pos, next);
    } else if ExprLevel(e) > level {
      ParseIsComplete(e, level + 1, tokens, pos, next);
    } else {
      SpineIsComplete(e, level, tokens, pos, next);
    }
  }

  /**
   The loop of `level`, started after its first operand, passes through `e` itself.
   This is what makes a left-associated tree come out of a left-to-right loop.
   */
  lemma {:induction false} SpineIsComplete(e: Expr, level: nat, tokens: seq<Token>, pos: nat, next: nat)
    requires level < 4 && Covers(e, tokens, pos, next)
    requires ExprLevel(e) >= level && Follows(level + 1, tokens, next)
    ensures var first := ParseLevel(level + 1, tokens, pos);
            && first.Some?
            && (ParseTail(level, first.value.0, tokens, first.value.1)
                == if level == 1 && ExprLevel(e) == 1 then Some((e, next))
                   else ParseTail(level, e, tokens, next))
    decreases e, 4 - level, 0
  {
    if ExprLevel(e) > level {
      ParseIsComplete(e, level + 1, tokens, pos, next);
    } else {
      var mid := BinaryCovers(e, tokens, pos, next);
      SpineIsComplete(e.lhs, level, tokens, pos, mid);
      ParseIsComplete(e.rhs, level + 1, tokens, mid + 1, next);
    }
  }

  lemma {:induction false} PrimaryIsComplete(e: Expr, tokens: seq<Token>, pos: nat, next: nat)
    requires Covers(e, tokens, pos, next)
    requires ExprLevel(e) == 4 && Follows(4, tokens, next)
    ensures ParsePrimaryTree(tokens, pos) == Some((e, next))
    decreases e, 0, 0
  {
    match e
    case Literal(_) => assert tokens[pos..next][0] == tokens[pos];
    case Path(_) => assert tokens[pos..next][0] == tokens[pos];
    case Group(inner) =>
      Unbracket(tokens, pos, [LParen], Yield(inner), next);
      ParseIsComplete(inner, 0, tokens, pos + 1, next - 1);
    case Max(args) =>
      MaxIsComplete(args, tokens, pos, next);
  }

  lemma {:induction false} MaxIsComplete(args: seq<Expr>, tokens: seq<Token>, pos: nat, next: nat)
    requires Covers(Max(args), tokens, pos, next)
    ensures ParsePrimaryTree(tokens, pos) == Some((Max(args), next))
    decreases args, 1
  {
    var front := [IdentToken("max"), LParen];
    Unbracket(tokens, pos, front, YieldAll(args), next);
    assert tokens[pos] == front[0];
    assert tokens[pos + 1] == front[1];
    ArgsAreComplete(args, tokens, pos + 2, next - 1);
  }

  lemma Unbracket(tokens: seq<Token>, pos: nat, front: seq<Token>, inner: seq<Token>, next: nat)
    requires pos <= next <= |tokens| && tokens[pos..next] == front + inner + [RParen]
    ensures var open := pos + |front|;
            && open < next
            && (forall i :: 0 <= i < |front| ==> tokens[pos + i] == front[i])
            && tokens[open..next - 1] == inner
            && tokens[next - 1] == RParen
  {
    assert |tokens[pos..next]| == next - pos;
    SliceOfSlice(tokens, pos, pos + |front|, next - 1, next);
    forall i | 0 <= i < |front|
      ensures tokens[pos + i] == front[i]
    {
      assert tokens[pos..next][i] == front[i];
    }
    assert tokens[pos..next][next - pos - 1] == tokens[next - 1];
  }

  lemma {:induction false} ArgsAreComplete(args: seq<Expr>, tokens: seq<Token>, pos: nat, next: nat)
    requires pos <= next < |tokens| && tokens[next] == RParen
    requires args != [] && forall i :: 0 <= i < |args| ==> Shaped(args[i])
    requires tokens[pos..next] == YieldAll(args)
    ensures ParseArgsTree(tokens, pos) == Some((args, next))
    decreases args, 0
  {
    if |args| == 1 {
      ParseIsComplete(args[0], 0, tokens, pos, next);
      assert args == [args[0]];
    } else {
      var mid := pos + |Yield(args[0])|;
      SplitsAt(tokens, pos, next, Yield(args[0]), Comma, YieldAll(args[1..]));
      ParseIsComplete(args[0], 0, tokens, pos, mid);
      ArgsAreComplete(args[1..], tokens, mid + 1, next);
      assert args == [args[0]] + args[1..];
    }
  }

  /** The grammar is unambiguous: a token list is the yield of at most one derivation. */
  lemma GrammarIsUnambiguous(d: Expr, e: Expr)
    requires Shaped(d) && Shaped(e) && Yield(d) == Yield(e)
    ensures d == e
  {
    var tokens := Yield(d);
    assert tokens[0..|tokens|] == tokens;
    ParseIsComplete(d, 0, tokens, 0, |tokens|);
    ParseIsComplete(e, 0, tokens, 0, |tokens|);
  }

  // ----- The fused parser ---------------------------------------------------

  /** The fused outcome `r` and cursor `next` are what parsing and then evaluating would give. */
  ghost predicate Refines(parsed: Parsed<Expr>, ctx: Context, r: Result<Value>, next: nat) {
    match parsed
    case None => r.Err?
    case Some((e, last)) => r == Eval(e, ctx) && (r.Ok? ==> next == last)
  }

  ghost predicate ParsesAs(level: nat, tokens: seq<Token>, pos: nat, ctx: Context, r: Result<Value>, next: nat)
    requires level <= 4 && pos <= |tokens|
  {
    (r.Ok? ==> pos < next <= |tokens|) && Refines(ParseLevel(level, tokens, pos), ctx, r, next)
  }

  /** Once the left operand fails to evaluate, no continuation of the loop can recover. */
  lemma {:induction false} TailKeepsErrors(level: nat, lhs: Expr, tokens: seq<Token>, pos: nat, ctx: Context)
    requires level < 4 && pos <= |tokens| && Eval(lhs, ctx).Err?
    ensures var tail := ParseTail(level, lhs, tokens, pos);
            tail.Some? ==> Eval(tail.value.0, ctx).Err?
    decreases |tokens| - pos
  {
    if OpAt(tokens, pos, level) && level != 1 {
      match ParseLevel(level + 1, tokens, pos + 1)
      case None =>
      case Some((rhs, next)) =>
        TailKeepsErrors(level, Binary(tokens[pos].op, lhs, rhs), tokens, next, ctx);
    }
  }

  /** A binary tree evaluates its operands first, from the left. */
  lemma {:induction false} EvalBinary(op: Op, lhs: Expr, rhs: Expr, l: Value, r: Result<Value>, ctx: Context)
    requires Eval(lhs, ctx) == Ok(l) && Eval(rhs, ctx) == r
    ensures r.Err? ==> Eval(Binary(op, lhs, rhs), ctx).Err?
    ensures r.Ok? ==> Eval(Binary(op, lhs, rhs), ctx) == Apply(op, l, r.value)
  {
  }

  lemma {:induction false} TailOfErr(level: nat, lhs: Expr, tokens: seq<Token>, pos: nat, ctx: Context)
    requires level < 4 && OpAt(tokens, pos, level)
    requires ParseLevel(level + 1, tokens, pos + 1).Some? ==>
               Eval(Binary(tokens[pos].op, lhs, ParseLevel(level + 1, tokens, pos + 1).value.0), ctx).Err?
    ensures var tail := ParseTail(level, lhs, tokens, pos);
            tail.Some? ==> Eval(tail.value.0, ctx).Err?
  {
    match ParseLevel(level + 1, tokens, pos + 1)
    case None =>
    case Some((rhs, last)) =>
      if level != 1 {
        TailKeepsErrors(level, Binary(tokens[pos].op, lhs, rhs), tokens, last, ctx);
      }
  }

  /** One turn of a loop: the right operand refines its parse, so the combined value refines the tail. */
  lemma {:induction false} TailStep(level: nat, lhs: Expr, l: Value, tokens: seq<Token>, pos: nat, ctx: Context,
                 r: Result<Value>, next: nat)
    requires level < 4 && OpAt(tokens, pos, level)
    requires Eval(lhs, ctx) == Ok(l)
    requires ParsesAs(level + 1, tokens, pos + 1, ctx, r, next)
    ensures r.Err? || Apply(tokens[pos].op, l, r.value).Err? ==>
              var tail := ParseTail(level, lhs, tokens, pos);
              tail.Some? ==> Eval(tail.value.0, ctx).Err?
    ensures r.Ok? ==>
              var parsed := ParseLevel(level + 1, tokens, pos + 1);
              && parsed.Some?
              && parsed.value.1 == next
              && var e := Binary(tokens[pos].op, lhs, parsed.value.0);
                 Eval(e, ctx) == Apply(tokens[pos].op, l, r.value)
  {
    var parsed := ParseLevel(level + 1, tokens, pos + 1);
    if parsed.Some? {
      EvalBinary(tokens[pos].op, lhs, parsed.value.0, l, r, ctx);
    }
    if r.Err? || Apply(tokens[pos].op, l, r.value).Err? {
      TailOfErr(level, lhs, tokens, pos, ctx);
    }
  }

  /** `parse_and_expr` */
  method ParseAnd(tokens: seq<Token>, pos: nat, ctx: Context) returns (r: Result<Value>, next: nat)
    requires pos <= |tokens|
    ensures ParsesAs(0, tokens, pos, ctx, r, next)
    decreases |tokens| - pos, 4
  {
    r, next := ParseCmp(tokens, pos, ctx);
    if r.Err? {
      var first := ParseLevel(1, tokens, pos);
      if first.Some? {
        TailKeepsErrors(0, first.value.0, tokens, first.value.1, ctx);
      }
      return;
    }
    var lhs := r.value;
    ghost var tree := ParseLevel(1, tokens, pos).value.0;
    while next < |tokens| && tokens[next] == OpToken(And)
      invariant pos < next <= |tokens|
      invariant Eval(tree, ctx) == Ok(lhs)
      invariant ParseLevel(0, tokens, pos) == ParseTail(0, tree, tokens, next)
    {
      ghost var at := next;
      next := next + 1;
      r, next := ParseCmp(tokens, next, ctx);
      TailStep(0, tree, lhs, tokens, at, ctx, r, next);
      if r.Err? {
        return;
      }
      ghost var rhs := ParseLevel(1, tokens, at + 1).value.0;
      r := Apply(And, lhs, r.value);
      if r.Err? {
        return;
      }
      lhs := r.value;
      tree := Binary(And, tree, rhs);
    }
    r := Ok(lhs);
  }

  /** `parse_cmp_expr` */
  method ParseCmp(tokens: seq<Token>, pos: nat, ctx: Context) returns (r: Result<Value>, next: nat)
    requires pos <= |tokens|
    ensures ParsesAs(1, tokens, pos, ctx, r, next)
    decreases |tokens| - pos, 3
  {
    r, next := ParseAdd(tokens, pos, ctx);
    if r.Err? {
      var first := ParseLevel(2, tokens, pos);
      if first.Some? {
        TailKeepsErrors(1, first.value.0, tokens, first.value.1, ctx);
      }
      return;
    }
    ghost var tree := ParseLevel(2, tokens, pos).value.0;
    ghost var whole := ParseLevel(1, tokens, pos);
    assert whole == ParseTail(1, tree, tokens, next);
    if next < |tokens| && tokens[next].OpToken?
       && (tokens[next].op == Gte || tokens[next].op == Lte || tokens[next].op == Eq)
    {
      var lhs := r.value;
      var op := tokens[next].op;
      ghost var at := next;
      next := next + 1;
      r, next := ParseAdd(tokens, next, ctx);
      TailStep(1, tree, lhs, tokens, at, ctx, r, next);
      if r.Err? {
        return;
      }
      assert whole == Some((Binary(op, tree, ParseLevel(2, tokens, at + 1).value.0), next));
      r := Apply(op, lhs, r.value);
    } else {
      assert whole == Some((tree, next));
    }
  }

  /** `parse_add_expr` */
  method ParseAdd(tokens: seq<Token>, pos: nat, ctx: Context) returns (r: Result<Value>, next: nat)
    requires pos <= |tokens|
    ensures ParsesAs(2, tokens, pos, ctx, r, next)
    decreases |tokens| - pos, 2
  {
    r, next := ParseMul(tokens, pos, ctx);
    if r.Err? {
      var first := ParseLevel(3, tokens, pos);
      if first.Some? {
        TailKeepsErrors(2, first.value.0, tokens, first.value.1, ctx);
      }
      return;
    }
    var lhs := r.value;
    ghost var tree := ParseLevel(3, tokens, pos).value.0;
    while next < |tokens| && (tokens[next] == OpToken(Plus) || tokens[next] == OpToken(Minus))
      invariant pos < next <= |tokens|
      invariant Eval(tree, ctx) == Ok(lhs)
      invariant ParseLevel(2, tokens, pos) == ParseTail(2, tree, tokens, next)
    {
      ghost var at := next;
      var op := tokens[next].op;
      next := next + 1;
      r, next := ParseMul(tokens, next, ctx);
      TailStep(2, tree, lhs, tokens, at, ctx, r, next);
      if r.Err? {
        return;
      }
      ghost var rhs := ParseLevel(3, tokens, at + 1).value.0;
      r := Apply(op, lhs, r.value);
      if r.Err? {
        return;
      }
      lhs := r.value;
      tree := Binary(op, tree, rhs);
    }
    r := Ok(lhs);
  }

  /** `parse_mul_expr` */
  method ParseMul(tokens: seq<Token>, pos: nat, ctx: Context) returns (r: Result<Value>, next: nat)
    requires pos <= |tokens|
    ensures ParsesAs(3, tokens, pos, ctx, r, next)
    decreases |tokens| - pos, 1
  {
    r, next := ParsePrimary(tokens, pos, ctx);
    if r.Err? {
      var first := ParseLevel(4, tokens, pos);
      if first.Some? {
        TailKeepsErrors(3, first.value.0, tokens, first.value.1, ctx);
      }
      return;
    }
    var lhs := r.value;
    ghost var tree := ParseLevel(4, tokens, pos).value.0;
    while next < |tokens| && (tokens[next] == OpToken(Star) || tokens[next] == OpToken(Slash))
      invariant pos < next <= |tokens|
      invariant Eval(tree, ctx) == Ok(lhs)
      invariant ParseLevel(3, tokens, pos) == ParseTail(3, tree, tokens, next)
    {
      ghost var at := next;
      var op := tokens[next].op;
      next := next + 1;
      r, next := ParsePrimary(tokens, next, ctx);
      TailStep(3, tree, lhs, tokens, at, ctx, r, next);
      if r.Err? {
        return;
      }
      ghost var rhs := ParseLevel(4, tokens, at + 1).value.0;
      r := Apply(op, lhs, r.value);
      if r.Err? {
        return;
      }
      lhs := r.value;
      tree := Binary(op, tree, rhs);
    }
    r := Ok(lhs);
  }

  /** `parse_primary` */
  method ParsePrimary(tokens: seq<Token>, pos: nat, ctx: Context) returns (r: Result<Value>, next: nat)
    requires pos <= |tokens|
    ensures ParsesAs(4, tokens, pos, ctx, r, next)
    decreases |tokens| - pos, 0
  {
    next := pos;
    if next >= |tokens| {
      return Err, next;
    }
    match tokens[next]
    case NumberToken(text) =>
      var v := ParseNumber(text);
      if v.Err? {
        return Err, next;
      }
      r, next := Ok(Number(v.value)), next + 1;
    case LParen =>
      next := next + 1;
      r, next := ParseAnd(tokens, next, ctx);
      if r.Err? {
        return;
      }
      if next >= |tokens| || tokens[next] != RParen {
        return Err, next;
      }
      next := next + 1;
    case IdentToken(name) =>
      if name == "max" && next + 1 < |tokens| && tokens[next + 1] == LParen {
        next := next + 2;
        var args: seq<Value>;
        r, args, next := ParseArgs(tokens, next, ctx);
        if r.Err? {
          return;
        }
        if next >= |tokens| || tokens[next] != RParen {
          return Err, next;
        }
        next := next + 1;
        r := EvalMax(args);
      } else {
        next := next + 1;
        r := Ok(if name in ctx then ctx[name] else Unmapped);
      }
    case _ =>
      r := Err;
  }

  lemma {:induction false} EvalAllSplit(front: seq<Expr>, back: seq<Expr>, ctx: Context)
    ensures EvalAll(front + back, ctx)
            == if EvalAll(front, ctx).Err? || EvalAll(back, ctx).Err? then Err
               else Ok(EvalAll(front, ctx).value + EvalAll(back, ctx).value)
    decreases front
  {
    if front == [] {
      assert front + back == back;
      assert EvalAll(back, ctx).Ok? ==> [] + EvalAll(back, ctx).value == EvalAll(back, ctx).value;
    } else {
      assert (front + back)[1..] == front[1..] + back;
      EvalAllSplit(front[1..], back, ctx);
      if EvalAll(front, ctx).Ok? && EvalAll(back, ctx).Ok? {
        var head := Eval(front[0], ctx).value;
        var tail, rest := EvalAll(front[1..], ctx).value, EvalAll(back, ctx).value;
        assert [head] + (tail + rest) == ([head] + tail) + rest;
      }
    }
  }

  function Prepend(front: seq<Expr>, parsed: Parsed<seq<Expr>>): Parsed<seq<Expr>> {
    match parsed
    case None => None
    case Some((back, next)) => Some((front + back, next))
  }

  /** One turn of the argument loop that succeeds. */
  lemma ArgsStep(trees: seq<Expr>, args: seq<Value>, tokens: seq<Token>, pos: nat, ctx: Context,
                 v: Value, next: nat)
    requires pos <= |tokens| && EvalAll(trees, ctx) == Ok(args)
    requires ParsesAs(0, tokens, pos, ctx, Ok(v), next)
    ensures var arg := ParseLevel(0, tokens, pos).value.0;
            && EvalAll(trees + [arg], ctx) == Ok(args + [v])
            && Prepend(trees, ParseArgsTree(tokens, pos))
               == if next < |tokens| && tokens[next] == Comma then
                    Prepend(trees + [arg], ParseArgsTree(tokens, next + 1))
                  else Some((trees + [arg], next))
  {
    var arg := ParseLevel(0, tokens, pos).value.0;
    EvalAllSplit(trees, [arg], ctx);
    assert [arg][1..] == [] && EvalAll([], ctx) == Ok([]);
    assert [v] + [] == [v];
    if next < |tokens| && tokens[next] == Comma {
      var more := ParseArgsTree(tokens, next + 1);
      if more.Some? {
        assert trees + ([arg] + more.value.0) == (trees + [arg]) + more.value.0;
      }
    }
  }

  /** An argument that fails makes the whole list fail. */
  lemma ArgsFail(trees: seq<Expr>, tokens: seq<Token>, pos: nat, ctx: Context, next: nat)
    requires pos <= |tokens|
    requires ParsesAs(0, tokens, pos, ctx, Err, next)
    ensures var parsed := Prepend(trees, ParseArgsTree(tokens, pos));
            parsed.Some? ==> EvalAll(parsed.value.0, ctx).Err?
  {
    var parsed := ParseArgsTree(tokens, pos);
    if parsed.Some? {
      assert parsed.value.0[0] == ParseLevel(0, tokens, pos).value.0;
      EvalAllSplit(trees, parsed.value.0, ctx);
    }
  }

  /** The argument loop inside the `max(` branch of `parse_primary`. */
  method ParseArgs(tokens: seq<Token>, pos: nat, ctx: Context)
    returns (r: Result<Value>, args: seq<Value>, next: nat)
    requires pos <= |tokens|
    ensures r.Ok? ==> pos < next <= |tokens|
    ensures var parsed := ParseArgsTree(tokens, pos);
            if r.Ok? then
              parsed.Some? && parsed.value.1 == next && EvalAll(parsed.value.0, ctx) == Ok(args)
            else
              parsed.Some? ==> EvalAll(parsed.value.0, ctx).Err?
    decreases |tokens| - pos, 5
  {
    args, next := [], pos;
    ghost var trees: seq<Expr> := [];
    ghost var parsed := ParseArgsTree(tokens, pos);
    assert parsed.Some? ==> [] + parsed.value.0 == parsed.value.0;
    while true
      invariant pos <= next <= |tokens|
      invariant EvalAll(trees, ctx) == Ok(args)
      invariant parsed == Prepend(trees, ParseArgsTree(tokens, next))
      decreases |tokens| - next
    {
      ghost var at := next;
      r, next := ParseAnd(tokens, next, ctx);
      if r.Err? {
        ArgsFail(trees, tokens, at, ctx, next);
        return;
      }
      ArgsStep(trees, args, tokens, at, ctx, r.value, next);
      trees := trees + [ParseLevel(0, tokens, at).value.0];
      args := args + [r.value];
      if next < |tokens| && tokens[next] == Comma {
        next := next + 1;
      } else {
        return;
      }
    }
  }

  /** `eval_max` */
  method EvalMax(args: seq<Value>) returns (r: Result<Value>)
    ensures r == MaxOf(args)
  {
    if args == [] {
      return Err;
    }
    for i := 0 to |args|
      invariant Unmapped !in args[..i]
    {
      if args[i] == Unmapped {
        return Ok(Unmapped);
      }
      assert args[..i + 1] == args[..i] + [args[i]];
    }
    assert args[..|args|] == args;
    if !args[0].Number? {
      return Err;
    }
    var best := args[0].n;
    for i := 1 to |args|
      invariant forall j :: 0 <= j < i ==> args[j].Number? && args[j].n <= best
      invariant Number(best) in args[..i]
    {
      if !args[i].Number? {
        return Err;
      }
      if args[i].n > best {
        best := args[i].n;
      }
    }
    r := Ok(Number(best));
    var k :| 0 <= k < |args| && args[k] == MaxOf(args).value;
    assert args[k].n <= best;
  }
}
