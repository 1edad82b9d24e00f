/** The tokenizer of `cli/src/verify.rs`, and results about whole texts. */
module CriteriaText {
  // The results are: what `eval_expr` returns for a text, what printing a tree and evaluating the
  // print returns, and when a verdict can change.

  import opened Outcome
  import opened Chars
  import opened CriteriaGrammar
  import opened CriteriaParser

  // ----- The tokenizer ------------------------------------------------------

  predicate IsIdentChar(c: char, alnum: AlnumTable) {
    alnum(c) || c == '_' || c == '.'
  }

  function IdentClass(alnum: AlnumTable): char -> bool {
    c => IsIdentChar(c, alnum)
  }

  /** The token that a text not starting with whitespace opens with, and the token's length. */
  function LexOne(s: string, alnum: AlnumTable): (r: Result<(Token, nat)>)
    requires s != ""
    ensures r.Ok? ==> 0 < r.value.1 <= |s|
  {
    if ">=" <= s then Ok((OpToken(Gte), 2))
    else if "<=" <= s then Ok((OpToken(Lte), 2))
    else if "==" <= s then Ok((OpToken(Eq), 2))
    else if s[0] == '+' then Ok((OpToken(Plus), 1))
    else if s[0] == '-' then Ok((OpToken(Minus), 1))
    else if s[0] == '*' then Ok((OpToken(Star), 1))
    else if s[0] == '/' then Ok((OpToken(Slash), 1))
    else if s[0] == '(' then Ok((LParen, 1))
    else if s[0] == ')' then Ok((RParen, 1))
    else if s[0] == ',' then Ok((Comma, 1))
    else if IsDigit(s[0]) then
      var k := RunLength(s, IsNumberChar);
      Ok((NumberToken(s[..k]), k))
    else if alnum(s[0]) || s[0] == '_' then
      var k := RunLength(s, IdentClass(alnum));
      var token :- WordToken(s[..k]);
      Ok((token, k))
    else Err
  }

  function WordToken(text: string): Result<Token> {
    if text == "OR" || text == "NOT" then Err
    else Ok(if text == "AND" then OpToken(And) else IdentToken(text))
  }

  function Lex(s: string, alnum: AlnumTable): Result<seq<Token>>
    decreases |s|
  {
    if s == "" then Ok([])
    else if IsWhitespace(s[0]) then Lex(s[1..], alnum)
    else
      var (token, k) :- LexOne(s, alnum);
      var rest :- Lex(s[k..], alnum);
      Ok([token] + rest)
  }

  /** What a run of the tokenizer still returns once it holds `front` and stands at `i`. */
  function LexFrom(s: string, i: nat, front: seq<Token>, alnum: AlnumTable): Result<seq<Token>>
    requires i <= |s|
  {
    var rest :- Lex(s[i..], alnum);
    Ok(front + rest)
  }

  lemma LexFromEnds(s: string, front: seq<Token>, alnum: AlnumTable)
    ensures LexFrom(s, 0, [], alnum) == Lex(s, alnum)
    ensures LexFrom(s, |s|, front, alnum) == Ok(front)
  {
    assert s[0..] == s;
    assert front + [] == front;
    assert Lex(s, alnum).Ok? ==> [] + Lex(s, alnum).value == Lex(s, alnum).value;
  }

  /** One turn of the tokenizer loop. */
  lemma LexFromStep(s: string, i: nat, front: seq<Token>, r: Result<Token>, next: nat, alnum: AlnumTable)
    requires i < next <= |s| && !IsWhitespace(s[i])
    requires LexOne(s[i..], alnum) == if r.Ok? then Ok((r.value, next - i)) else Err
    ensures LexFrom(s, i, front, alnum)
            == if r.Ok? then LexFrom(s, next, front + [r.value], alnum) else Err
  {
    assert s[i..][next - i..] == s[next..];
    var rest := Lex(s[next..], alnum);
    if r.Ok? && rest.Ok? {
      assert front + ([r.value] + rest.value) == (front + [r.value]) + rest.value;
    }
  }

  /** `tokenize`: one cursor over the characters, with an inner loop for each run. */
  method Tokenize(chars: string, alnum: AlnumTable) returns (r: Result<seq<Token>>)
    ensures r == Lex(chars, alnum)
  {
    var tokens := [];
    var i := 0;
    LexFromEnds(chars, [], alnum);
    while i < |chars|
      invariant i <= |chars|
      invariant Lex(chars, alnum) == LexFrom(chars, i, tokens, alnum)
    {
      if IsWhitespace(chars[i]) {
        assert chars[i..][1..] == chars[i + 1..];
        i := i + 1;
        continue;
      }
      var token, next := TokenAt(chars, i, alnum);
      LexFromStep(chars, i, tokens, token, next, alnum);
      if token.Err? {
        return Err;
      }
      tokens := tokens + [token.value];
      i := next;
    }
    LexFromEnds(chars, tokens, alnum);
    r := Ok(tokens);
  }

  /** The body of the tokenizer loop: the two-character operators, then the `match`. */
  method TokenAt(chars: string, i: nat, alnum: AlnumTable) returns (token: Result<Token>, next: nat)
    requires i < |chars|
    ensures LexOne(chars[i..], alnum) == if token.Ok? then Ok((token.value, next - i)) else Err
    ensures i < next <= |chars|
  {
    next := i + 1;
    if i + 1 < |chars| {
      assert chars[i..][..2] == [chars[i], chars[i + 1]];
      match (chars[i], chars[i + 1])
      case ('>', '=') => return Ok(OpToken(Gte)), i + 2;
      case ('<', '=') => return Ok(OpToken(Lte)), i + 2;
      case ('=', '=') => return Ok(OpToken(Eq)), i + 2;
      case _ =>
    }
    match chars[i]
    case '+' => token := Ok(OpToken(Plus));
    case '-' => token := Ok(OpToken(Minus));
    case '*' => token := Ok(OpToken(Star));
    case '/' => token := Ok(OpToken(Slash));
    case '(' => token := Ok(LParen);
    case ')' => token := Ok(RParen);
    case ',' => token := Ok(Comma);
    case c =>
      if IsDigit(c) {
        next := RunEnd(chars, i, IsNumberChar);
        token := Ok(NumberToken(chars[i..next]));
      } else if alnum(c) || c == '_' {
        next := RunEnd(chars, i, IdentClass(alnum));
        token := WordToken(chars[i..next]);
      } else {
        token := Err;
      }
  }

  method RunEnd(chars: string, start: nat, inClass: char -> bool) returns (end: nat)
    requires start < |chars| && inClass(chars[start])
    ensures start < end <= |chars| && end - start == RunLength(chars[start..], inClass)
    ensures chars[start..end] == chars[start..][..end - start]
  {
    end := start;
    while end < |chars| && inClass(chars[end])
      invariant start <= end <= |chars|
      invariant forall j :: start <= j < end ==> inClass(chars[j])
    {
      end := end + 1;
    }
    RunLengthIs(chars[start..], inClass, end - start);
  }

  // ----- What eval_expr returns ---------------------------------------------

  /** `e` is a derivation of the text in the locked grammar. */
  ghost predicate Derives(text: string, e: Expr, alnum: AlnumTable) {
    Shaped(e) && Lex(text, alnum) == Ok(Yield(e))
  }

  /** The meaning of a text: the value of its derivation, or an error when it has none. */
  ghost function Meaning(text: string, ctx: Context, alnum: AlnumTable): Result<Value> {
    if exists e :: Derives(text, e, alnum) then
      var e :| Derives(text, e, alnum);
      Eval(e, ctx)
    else Err
  }

  lemma MeaningOf(text: string, e: Expr, ctx: Context, alnum: AlnumTable)
    requires Derives(text, e, alnum)
    ensures Meaning(text, ctx, alnum) == Eval(e, ctx)
  {
    forall d | Derives(text, d, alnum)
      ensures d == e
    {
      GrammarIsUnambiguous(d, e);
    }
  }

  /**
   `eval_expr`: an outcome other than an error needs the whole text to be one derivation,
   and is then that derivation's value.
   */
  method EvalExpr(text: string, ctx: Context, alnum: AlnumTable) returns (r: Result<Value>)
    ensures r == Meaning(text, ctx, alnum)
    ensures r.Ok? ==> exists e :: Derives(text, e, alnum) && r == Eval(e, ctx)
    ensures forall e :: Derives(text, e, alnum) ==> r == Eval(e, ctx)
  {
    var lexed := Tokenize(text, alnum);
    if lexed.Err? {
      return Err;
    }
    var tokens := lexed.value;
    var pos;
    r, pos := ParseAnd(tokens, 0, ctx);
    ParseDecides(tokens);
    if e :| Derives(text, e, alnum) {
      MeaningOf(text, e, ctx, alnum);
    }
    if r.Ok? && pos < |tokens| {
      r := Err;
    }
    assert r.Ok? ==> Derives(text, ParseLevel(0, tokens, 0).value.0, alnum);
    forall e | Derives(text, e, alnum)
      ensures r == Eval(e, ctx)
    {
      MeaningOf(text, e, ctx, alnum);
    }
  }

  /** Parsing from the start and reaching the end is the same as being a yield. */
  lemma ParseDecides(tokens: seq<Token>)
    ensures var parsed := ParseLevel(0, tokens, 0);
            && (parsed.Some? && parsed.value.1 == |tokens| ==>
                  Shaped(parsed.value.0) && Yield(parsed.value.0) == tokens)
            && (forall e :: Shaped(e) && Yield(e) == tokens ==> parsed == Some((e, |tokens|)))
  {
    assert tokens[0..|tokens|] == tokens;
    if ParseLevel(0, tokens, 0).Some? {
      ParseIsSound(0, tokens, 0);
    }
    forall e | Shaped(e) && Yield(e) == tokens
      ensures ParseLevel(0, tokens, 0) == Some((e, |tokens|))
    {
      ParseIsComplete(e, 0, tokens, 0, |tokens|);
    }
  }

  // ----- Printing -----------------------------------------------------------

  function Spell(token: Token): string {
    match token
    case NumberToken(text) => text
    case IdentToken(text) => text
    case LParen => "("
    case RParen => ")"
    case Comma => ","
    case OpToken(op) =>
      match op
      case And => "AND"
      case Gte => ">="
      case Lte => "<="
      case Eq => "=="
      case Plus => "+"
      case Minus => "-"
      case Star => "*"
      case Slash => "/"
  }

  function Spellings(tokens: seq<Token>): string {
    if tokens == [] then ""
    else if |tokens| == 1 then Spell(tokens[0])
    else Spell(tokens[0]) + " " + Spellings(tokens[1..])
  }

  predicate IsNumberText(text: string) {
    text != "" && IsDigit(text[0]) && forall i :: 0 <= i < |text| ==> IsNumberChar(text[i])
  }

  predicate IsName(text: string, alnum: AlnumTable) {
    && text != "" && (alnum(text[0]) || text[0] == '_') && !IsDigit(text[0])
    && (forall i :: 0 <= i < |text| ==> IsIdentChar(text[i], alnum))
    && text != "AND" && text != "OR" && text != "NOT"
  }

  predicate Spellable(token: Token, alnum: AlnumTable) {
    match token
    case NumberToken(text) => IsNumberText(text)
    case IdentToken(text) => IsName(text, alnum)
    case _ => true
  }

  lemma SpelledTokenLexes(token: Token, rest: string, alnum: AlnumTable)
    requires Spellable(token, alnum) && (rest == "" || rest[0] == ' ')
    ensures var s := Spell(token) + rest;
            s != "" && !IsWhitespace(s[0]) && LexOne(s, alnum) == Ok((token, |Spell(token)|))
  {
    var word := Spell(token);
    var s := word + rest;
    assert s[..|word|] == word;
    if token.NumberToken? {
      assert s[0] == word[0] && IsDigit(s[0]);
      RunLengthIs(s, IsNumberChar, |word|);
    } else if token.IdentToken? || token == OpToken(And) {
      assert PlausibleAt(alnum, 'A') && PlausibleAt(alnum, 'N') && PlausibleAt(alnum, 'D');
      assert PlausibleAt(alnum, ' ') && PlausibleAt(alnum, word[0]);
      assert s[0] == word[0] && IsIdentChar(s[0], alnum);
      RunLengthIs(s, IdentClass(alnum), |word|);
    } else {
      SpelledSymbolLexes(token, rest, alnum);
    }
  }

  lemma SpelledSymbolLexes(token: Token, rest: string, alnum: AlnumTable)
    requires !token.NumberToken? && !token.IdentToken? && token != OpToken(And)
    ensures var s := Spell(token) + rest;
            s != "" && !IsWhitespace(s[0]) && LexOne(s, alnum) == Ok((token, |Spell(token)|))
  {
    var s := Spell(token) + rest;
    assert s[0] == Spell(token)[0];
    if |Spell(token)| == 2 {
      assert Spell(token) <= s;
    }
  }

  /** Tokens written with a space between them lex back to themselves. */
  lemma {:induction false} SpellingsLex(tokens: seq<Token>, alnum: AlnumTable)
    requires forall t :: t in tokens ==> Spellable(t, alnum)
    ensures Lex(Spellings(tokens), alnum) == Ok(tokens)
  {
    if tokens == [] {
    } else {
      var rest := if |tokens| == 1 then "" else " " + Spellings(tokens[1..]);
      var word := Spell(tokens[0]);
      var s := word + rest;
      assert Spellings(tokens) == s;
      SpelledTokenLexes(tokens[0], rest, alnum);
      assert s[|word|..] == rest;
      SpellingsLex(tokens[1..], alnum);
      if |tokens| > 1 {
        assert rest[1..] == Spellings(tokens[1..]);
      }
      assert Lex(rest, alnum) == Ok(tokens[1..]);
      assert tokens == [tokens[0]] + tokens[1..];
    }
  }

  /** The literals and names of a tree are ones the tokenizer can cut out. */
  ghost predicate Printable(e: Expr, alnum: AlnumTable) {
    match e
    case Literal(text) => IsNumberText(text)
    case Path(name) => IsName(name, alnum)
    case Group(inner) => Printable(inner, alnum)
    case Max(args) => args != [] && forall i :: 0 <= i < |args| ==> Printable(args[i], alnum)
    case Binary(_, lhs, rhs) => Printable(lhs, alnum) && Printable(rhs, alnum)
  }

  function Print(e: Expr): string {
    Spellings(Yield(Parenthesize(e)))
  }

  lemma {:induction false} PrintableYields(e: Expr, alnum: AlnumTable)
    requires Printable(e, alnum)
    ensures Complete(e) && forall t :: t in Yield(Parenthesize(e)) ==> Spellable(t, alnum)
  {
    match e
    case Literal(_) =>
    case Path(_) =>
    case Group(inner) => PrintableYields(inner, alnum);
    case Max(args) =>
      PrintableAllYields(args, alnum);
      assert PlausibleAt(alnum, 'm') && PlausibleAt(alnum, 'a') && PlausibleAt(alnum, 'x');
    case Binary(_, lhs, rhs) =>
      PrintableYields(lhs, alnum);
      PrintableYields(rhs, alnum);
  }

  lemma {:induction false} PrintableAllYields(es: seq<Expr>, alnum: AlnumTable)
    requires forall i :: 0 <= i < |es| ==> Printable(es[i], alnum)
    ensures forall i :: 0 <= i < |es| ==> Complete(es[i])
    ensures forall t :: t in YieldAll(ParenthesizeAll(es)) ==> Spellable(t, alnum)
  {
    if es == [] {
    } else {
      PrintableYields(es[0], alnum);
      PrintableAllYields(es[1..], alnum);
      assert forall i :: 1 <= i < |es| ==> es[i] == es[1..][i - 1];
      assert ParenthesizeAll(es)[1..] == ParenthesizeAll(es[1..]);
    }
  }

  /** Printing any tree and evaluating the text gives the tree's own value, errors included. */
  lemma PrintedTreeKeepsItsMeaning(e: Expr, ctx: Context, alnum: AlnumTable)
    requires Printable(e, alnum)
    ensures Derives(Print(e), Parenthesize(e), alnum)
    ensures Meaning(Print(e), ctx, alnum) == Eval(e, ctx)
  {
    PrintableYields(e, alnum);
    ParenthesizeMeans(e, ctx);
    SpellingsLex(Yield(Parenthesize(e)), alnum);
    MeaningOf(Print(e), Parenthesize(e), ctx, alnum);
  }

  // ----- Verdicts -----------------------------------------------------------

  datatype Verdict = Pass | Fail | Partial
  datatype CriterionResult = CriterionResult(verdict: Verdict, stale: bool, description: string)

  ghost function VerdictOf(criteriaText: string, ctx: Context, alnum: AlnumTable): Verdict {
    var meaning := Meaning(Trim(criteriaText), ctx, alnum);
    if meaning == Ok(Boolean(true)) then Pass
    else if meaning == Ok(Boolean(false)) then Fail
    else Partial
  }

  /** `evaluate_criteria_text` */
  method EvaluateCriteriaText(criteriaText: string, ctx: Context, stale: bool, alnum: AlnumTable)
    returns (r: CriterionResult)
    ensures r == CriterionResult(VerdictOf(criteriaText, ctx, alnum), stale, Trim(criteriaText))
  {
    var text := Trim(criteriaText);
    var value := EvalExpr(text, ctx, alnum);
    var verdict := match value
      case Ok(Boolean(b)) => if b then Pass else Fail
      case Ok(Unmapped) => Partial
      case Ok(Number(_)) => Partial
      case Err => Partial;
    r := CriterionResult(verdict, stale, text);
  }

  /** The field paths of a token list: every identifier that is not a `max(` call. */
  function FieldPaths(tokens: seq<Token>): set<string> {
    if tokens == [] then {}
    else (if tokens[0].IdentToken? && !(tokens[0].text == "max" && |tokens| > 1 && tokens[1] == LParen)
          then {tokens[0].text} else {}) + FieldPaths(tokens[1..])
  }

  lemma {:induction false} FieldPathsSplit(front: seq<Token>, back: seq<Token>)
    requires back == [] || back[0] != LParen
             || (front != [] && front[|front| - 1] != IdentToken("max"))
    ensures FieldPaths(front + back) == FieldPaths(front) + FieldPaths(back)
  {
    if front == [] {
      assert front + back == back;
    } else {
      assert (front + back)[1..] == front[1..] + back;
      if |front| == 1 {
        assert front[1..] + back == back;
      } else {
        FieldPathsSplit(front[1..], back);
      }
    }
  }

  lemma {:induction false} FieldPathsOfYield(e: Expr)
    requires Shaped(e)
    ensures FieldPaths(Yield(e)) == Paths(e)
  {
    match e
    case Literal(_) =>
    case Path(_) =>
    case Group(inner) =>
      FieldPathsOfYield(inner);
      FieldPathsSplit([LParen] + Yield(inner), [RParen]);
      FieldPathsSplit([LParen], Yield(inner));
    case Max(args) =>
      FieldPathsOfYieldAll(args);
      var front := [IdentToken("max"), LParen];
      FieldPathsSplit(front + YieldAll(args), [RParen]);
      FieldPathsSplit(front, YieldAll(args));
      assert front[1..] == [LParen];
    case Binary(op, lhs, rhs) =>
      FieldPathsOfYield(lhs);
      FieldPathsOfYield(rhs);
      FieldPathsSplit(Yield(lhs) + [OpToken(op)], Yield(rhs));
      FieldPathsSplit(Yield(lhs), [OpToken(op)]);
  }

  lemma {:induction false} FieldPathsOfYieldAll(es: seq<Expr>)
    requires forall i :: 0 <= i < |es| ==> Shaped(es[i])
    ensures FieldPaths(YieldAll(es)) == PathsAll(es)
  {
    if |es| == 1 {
      FieldPathsOfYield(es[0]);
    } else if |es| > 1 {
      FieldPathsOfYield(es[0]);
      FieldPathsOfYieldAll(es[1..]);
      FieldPathsSplit(Yield(es[0]) + [Comma], YieldAll(es[1..]));
      FieldPathsSplit(Yield(es[0]), [Comma]);
    }
  }

  /** A Number or Bool needs every field path written in the text to be bound. */
  lemma DefiniteTextIsFullyBound(text: string, ctx: Context, alnum: AlnumTable)
    requires Meaning(text, ctx, alnum).Ok? && !Meaning(text, ctx, alnum).value.Unmapped?
    ensures Lex(text, alnum).Ok?
            && forall name :: name in FieldPaths(Lex(text, alnum).value) ==> Bound(name, ctx)
  {
    var e :| Derives(text, e, alnum) && Meaning(text, ctx, alnum) == Eval(e, ctx);
    DefiniteNeedsEveryPath(e, ctx);
    FieldPathsOfYield(e);
  }

  /** More evidence never overturns a PASS or a FAIL. */
  lemma VerdictsSettle(criteriaText: string, ctx: Context, more: Context, alnum: AlnumTable)
    requires Extends(ctx, more) && VerdictOf(criteriaText, ctx, alnum) != Partial
    ensures VerdictOf(criteriaText, more, alnum) == VerdictOf(criteriaText, ctx, alnum)
  {
    var text := Trim(criteriaText);
    var e :| Derives(text, e, alnum) && Meaning(text, ctx, alnum) == Eval(e, ctx);
    ExtendingKeepsSettled(e, ctx, more);
    MeaningOf(text, e, more, alnum);
  }
}
