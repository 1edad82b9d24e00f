/** What success criteria compute, told by laws and by the texts themselves. */
module CriteriaLaws {
  // The operators are settled by their inverses and by the order of the numbers, literals by the
  // numerals they are read from, and precedence and spelling by texts written out in full.

  import opened Outcome
  import opened Chars
  import opened CriteriaGrammar
  import opened CriteriaParser
  import opened CriteriaText

  // ----- Operators ----------------------------------------------------------

  /** Each of the two undoes the other. */
  lemma PlusAndMinus(x: real, y: real, z: real)
    ensures Apply(Plus, Number(x), Number(y)) == Ok(Number(z)) <==> z - y == x
    ensures Apply(Minus, Number(x), Number(y)) == Ok(Number(z)) <==> z + y == x
  {
  }

  lemma ProductIs(x: real, y: real)
    ensures Apply(Star, Number(x), Number(y)) == Ok(Number(Times(x, y)))
  {
  }

  /** A product adds up its second factor. */
  lemma Product(x: real, y: real, z: real, p: real, q: real)
    requires Apply(Star, Number(x), Number(y)) == Ok(Number(p))
    requires Apply(Star, Number(x), Number(z)) == Ok(Number(q))
    ensures Apply(Star, Number(x), Number(1.0)) == Ok(Number(x))
    ensures Apply(Star, Number(x), Number(y + z)) == Ok(Number(p + q))
  {
    ProductIs(x, 1.0);
    ProductIs(x, y);
    ProductIs(x, z);
    ProductIs(x, y + z);
    Distributes(x, y, z);
  }

  lemma Distributes(x: real, y: real, z: real)
    ensures Times(x, 1.0) == x && Times(x, y + z) == Times(x, y) + Times(x, z)
  {
  }

  /** A quotient undoes a product. */
  lemma Quotient(x: real, y: real, z: real)
    requires Apply(Slash, Number(x), Number(y)).Ok?
    ensures Apply(Slash, Number(x), Number(y)) == Ok(Number(z)) <==> Apply(Star, Number(z), Number(y)) == Ok(Number(x))
  {
    EpsilonIsPositive();
    ProductIs(z, y);
    OverUndoesTimes(x, y, z);
  }

  lemma OverUndoesTimes(x: real, y: real, z: real)
    requires y != 0.0
    ensures Over(x, y) == z <==> Times(z, y) == x
  {
    QuotientIs(x, y, z);
  }

  /** There is none only near zero. */
  lemma NoQuotient(x: real, y: real)
    ensures Apply(Slash, Number(x), Number(y)).Err? <==> -EPSILON < y < EPSILON
  {
    EpsilonIsPositive();
  }

  lemma QuotientIs(x: real, y: real, z: real)
    requires y != 0.0
    ensures x / y == z <==> z * y == x
  {
    assert x / y * y == x;
    if z * y == x {
      assert (z - x / y) * y == z * y - x / y * y;
    }
  }

  /** 2 to the power -52. */
  lemma EpsilonIsPositive()
    ensures EPSILON > 0.0 && EPSILON * 8192.0 * 8192.0 * 8192.0 * 8192.0 == 1.0
  {
  }

  /** Comparisons look at the difference; equality allows one below EPSILON either way. */
  lemma Comparisons(x: real, y: real)
    ensures Apply(Gte, Number(x), Number(y)) == Ok(Boolean(x - y >= 0.0))
    ensures Apply(Lte, Number(x), Number(y)) == Ok(Boolean(y - x >= 0.0))
    ensures Apply(Eq, Number(x), Number(y)) == Ok(Boolean(x - y < EPSILON && y - x < EPSILON))
  {
    EpsilonIsPositive();
  }

  lemma Conjunction(p: bool, q: bool)
    ensures Apply(And, Boolean(p), Boolean(q)) == Ok(Boolean(true)) <==> p && q
    ensures Apply(And, Boolean(p), Boolean(q)) == Ok(Boolean(false)) <==> !p || !q
  {
  }

  predicate Logical(op: Op) {
    op == And
  }

  predicate Comparing(op: Op) {
    op == Gte || op == Lte || op == Eq
  }

  /** Whatever is unmapped absorbs; otherwise the kinds must fit, and they settle the kind of the result. */
  lemma KindsOfResults(op: Op, lhs: Value, rhs: Value)
    ensures var r := Apply(op, lhs, rhs);
            && (r == Ok(Unmapped) <==> lhs.Unmapped? || rhs.Unmapped?)
            && (r.Ok? && r.value.Boolean? <==>
                  if Logical(op) then lhs.Boolean? && rhs.Boolean?
                  else Comparing(op) && lhs.Number? && rhs.Number?)
            && (r.Ok? && r.value.Number? <==>
                  && !Logical(op) && !Comparing(op) && lhs.Number? && rhs.Number?
                  && !(op == Slash && -EPSILON < rhs.n < EPSILON))
  {
    EpsilonIsPositive();
  }

  // ----- Literals -----------------------------------------------------------

  function DigitOf(d: nat): char
    requires d < 10
  {
    "0123456789"[d]
  }

  /** The decimal numeral of a number. */
  function Numeral(n: nat): string {
    if n < 10 then [DigitOf(n)] else Numeral(n / 10) + [DigitOf(n % 10)]
  }

  function Tens(k: nat): (t: nat)
    ensures t > 0
  {
    if k == 0 then 1 else 10 * Tens(k - 1)
  }

  /** The last `k` digits of a number, leading zeros included. */
  function Padded(n: nat, k: nat): string {
    if k == 0 then "" else Padded(n / 10, k - 1) + [DigitOf(n % 10)]
  }

  lemma DigitIs(d: nat)
    requires d < 10
    ensures IsDigit(DigitOf(d)) && DigitValue(DigitOf(d)) == d as real
  {
    assert "0123456789"[d] as int == '0' as int + d;
  }

  /** Reading digits goes on from what was read before them. */
  function Read(digits: string, acc: real): real
    requires forall i :: 0 <= i < |digits| ==> IsDigit(digits[i])
  {
    if digits == "" then acc else Read(digits[1..], 10.0 * acc + DigitValue(digits[0]))
  }

  lemma {:induction false} ReadSnoc(digits: string, c: char, acc: real)
    requires IsDigit(c) && forall i :: 0 <= i < |digits| ==> IsDigit(digits[i])
    ensures forall i :: 0 <= i < |digits + [c]| ==> IsDigit((digits + [c])[i])
    ensures Read(digits + [c], acc) == 10.0 * Read(digits, acc) + DigitValue(c)
  {
    if digits == "" {
      assert digits + [c] == [c] && [c][1..] == "";
    } else {
      assert (digits + [c])[1..] == digits[1..] + [c];
      ReadSnoc(digits[1..], c, 10.0 * acc + DigitValue(digits[0]));
    }
  }

  lemma {:induction false} NumeralReads(n: nat)
    ensures Numeral(n) != "" && forall i :: 0 <= i < |Numeral(n)| ==> IsDigit(Numeral(n)[i])
    ensures Read(Numeral(n), 0.0) == n as real
  {
    if n < 10 {
      DigitIs(n);
      assert [DigitOf(n)][1..] == "";
    } else {
      NumeralReads(n / 10);
      DigitIs(n % 10);
      ReadSnoc(Numeral(n / 10), DigitOf(n % 10), 0.0);
    }
  }

  lemma {:induction false} ParseAfterDigits(digits: string, rest: string, acc: real)
    requires forall i :: 0 <= i < |digits| ==> IsDigit(digits[i])
    ensures ParseNumber(digits + rest, acc) == ParseNumber(rest, Read(digits, acc))
  {
    if digits == "" {
      assert digits + rest == rest;
    } else {
      assert (digits + rest)[1..] == digits[1..] + rest;
      ParseAfterDigits(digits[1..], rest, 10.0 * acc + DigitValue(digits[0]));
    }
  }

  lemma {:induction false} FractionSnoc(digits: string, c: char)
    requires IsDigit(c) && Fraction(digits).Ok?
    ensures Fraction(digits + [c]).Ok?
    ensures Fraction(digits + [c]).value
            == Fraction(digits).value + DigitValue(c) / Tens(|digits| + 1) as real
  {
    if digits == "" {
      assert digits + [c] == [c] && [c][1..] == "";
    } else {
      assert (digits + [c])[1..] == digits[1..] + [c];
      FractionSnoc(digits[1..], c);
      TenthOfShare(DigitValue(c), Tens(|digits|));
    }
  }

  lemma TenthOfShare(x: real, t: nat)
    requires t > 0
    ensures x / t as real / 10.0 == x / (10 * t) as real
  {
    QuotientIs(x, t as real, x / t as real);
    QuotientIs(x, (10 * t) as real, x / t as real / 10.0);
  }

  lemma {:induction false} PaddedReads(n: nat, k: nat)
    requires n < Tens(k)
    ensures |Padded(n, k)| == k && Fraction(Padded(n, k)) == Ok(n as real / Tens(k) as real)
    ensures forall i :: 0 <= i < k ==> IsDigit(Padded(n, k)[i])
  {
    if k == 0 {
    } else {
      PaddedReads(n / 10, k - 1);
      DigitIs(n % 10);
      FractionSnoc(Padded(n / 10, k - 1), DigitOf(n % 10));
      SharesAdd(n, Tens(k - 1));
    }
  }

  lemma SharesAdd(n: nat, t: nat)
    requires t > 0
    ensures (n / 10) as real / t as real + (n % 10) as real / (10 * t) as real == n as real / (10 * t) as real
  {
    var a, b, s := (n / 10) as real, (n % 10) as real, (10 * t) as real;
    assert n as real == 10.0 * a + b;
    QuotientIs(a, t as real, a / t as real);
    QuotientIs(b, s, b / s);
    QuotientIs(n as real, s, a / t as real + b / s);
    assert (a / t as real + b / s) * s == a / t as real * s + b / s * s;
    assert a / t as real * s == 10.0 * (a / t as real * t as real);
  }

  /** A numeral is read as its number. */
  lemma NumeralMeans(n: nat)
    ensures ParseNumber(Numeral(n)) == Ok(n as real) && IsNumberText(Numeral(n))
  {
    NumeralReads(n);
    ParseAfterDigits(Numeral(n), "", 0.0);
    assert Numeral(n) + "" == Numeral(n);
  }

  /** With a point, the digits behind it count as tenths, hundredths and so on. */
  lemma DecimalMeans(n: nat, m: nat, k: nat)
    requires m < Tens(k)
    ensures ParseNumber(Numeral(n) + ("." + Padded(m, k))) == Ok(n as real + m as real / Tens(k) as real)
    ensures IsNumberText(Numeral(n) + ("." + Padded(m, k)))
  {
    var rest := "." + Padded(m, k);
    NumeralReads(n);
    PaddedReads(m, k);
    ParseAfterDigits(Numeral(n), rest, 0.0);
    assert rest[1..] == Padded(m, k);
  }

  // ----- Texts --------------------------------------------------------------

  /** How each operator is written. */
  lemma OperatorsAreWritten(alnum: AlnumTable)
    ensures Lex("+", alnum) == Ok([OpToken(Plus)]) && Lex("-", alnum) == Ok([OpToken(Minus)])
    ensures Lex("*", alnum) == Ok([OpToken(Star)]) && Lex("/", alnum) == Ok([OpToken(Slash)])
  {
    Written(OpToken(Plus), "+", alnum);
    Written(OpToken(Minus), "-", alnum);
    Written(OpToken(Star), "*", alnum);
    Written(OpToken(Slash), "/", alnum);
  }

  lemma ComparisonsAreWritten(alnum: AlnumTable)
    ensures Lex(">=", alnum) == Ok([OpToken(Gte)]) && Lex("<=", alnum) == Ok([OpToken(Lte)])
    ensures Lex("==", alnum) == Ok([OpToken(Eq)]) && Lex("AND", alnum) == Ok([OpToken(And)])
  {
    Written(OpToken(Gte), ">=", alnum);
    Written(OpToken(Lte), "<=", alnum);
    Written(OpToken(Eq), "==", alnum);
    Written(OpToken(And), "AND", alnum);
  }

  lemma Written(token: Token, text: string, alnum: AlnumTable)
    requires Spellable(token, alnum) && Spell(token) == text
    ensures Lex(text, alnum) == Ok([token])
  {
    SpellingsLex([token], alnum);
    assert Spellings([token]) == Spell(token);
  }

  function Word(n: nat): Token {
    NumberToken(Numeral(n))
  }

  function Num(n: nat): Expr {
    Literal(Numeral(n))
  }

  lemma SpellMore(token: Token, tokens: seq<Token>)
    requires tokens != []
    ensures Spellings([token] + tokens) == Spell(token) + (" " + Spellings(tokens))
  {
    assert ([token] + tokens)[1..] == tokens;
  }

  lemma SpellFive(a: Token, b: Token, c: Token, d: Token, e: Token)
    ensures Spellings([a, b, c, d, e])
            == Spell(a) + (" " + (Spell(b) + (" " + (Spell(c) + (" " + (Spell(d) + (" " + Spell(e))))))))
  {
    SpellMore(d, [e]);
    SpellMore(c, [d] + [e]);
    SpellMore(b, [c] + ([d] + [e]));
    SpellMore(a, [b] + ([c] + ([d] + [e])));
    assert [a] + ([b] + ([c] + ([d] + [e]))) == [a, b, c, d, e];
  }

  /** The text `m op n == k`. */
  function EquationText(m: nat, op: string, n: nat, k: nat): string {
    Numeral(m) + (" " + (op + (" " + (Numeral(n) + (" " + ("==" + (" " + Numeral(k))))))))
  }

  lemma EquationMeans(m: nat, op: Op, n: nat, k: nat, ctx: Context, alnum: AlnumTable)
    requires op == Plus || op == Minus || op == Star || op == Slash
    ensures Meaning(EquationText(m, Spell(OpToken(op)), n, k), ctx, alnum)
            == Eval(Binary(Eq, Binary(op, Num(m), Num(n)), Num(k)), ctx)
  {
    var e := Binary(Eq, Binary(op, Num(m), Num(n)), Num(k));
    NumeralMeans(m);
    NumeralMeans(n);
    NumeralMeans(k);
    EquationPrints(m, op, n, k);
    PrintedTreeKeepsItsMeaning(e, ctx, alnum);
  }

  lemma EquationPrints(m: nat, op: Op, n: nat, k: nat)
    requires op == Plus || op == Minus || op == Star || op == Slash
    ensures Print(Binary(Eq, Binary(op, Num(m), Num(n)), Num(k))) == EquationText(m, Spell(OpToken(op)), n, k)
  {
    var left := Binary(op, Num(m), Num(n));
    assert Parenthesize(left) == left && Parenthesize(Binary(Eq, left, Num(k))) == Binary(Eq, left, Num(k));
    assert Yield(left) == [Word(m), OpToken(op), Word(n)];
    assert Yield(Binary(Eq, left, Num(k))) == [Word(m), OpToken(op), Word(n), OpToken(Eq), Word(k)];
    SpellFive(Word(m), OpToken(op), Word(n), OpToken(Eq), Word(k));
  }

  /** `m + n == k` holds exactly if it is true. */
  lemma SumHolds(m: nat, n: nat, k: nat, ctx: Context, alnum: AlnumTable)
    ensures Meaning(EquationText(m, "+", n, k), ctx, alnum) == Ok(Boolean(m + n == k))
  {
    EquationHolds(m, Plus, n, k, m + n, ctx, alnum);
  }

  /** `m - n == k` holds exactly if `n + k` is `m`. */
  lemma DifferenceHolds(m: nat, n: nat, k: nat, ctx: Context, alnum: AlnumTable)
    ensures Meaning(EquationText(m, "-", n, k), ctx, alnum) == Ok(Boolean(n + k == m))
  {
    EquationHolds(m, Minus, n, k, m - n, ctx, alnum);
  }

  /** `m * n == k` holds exactly if it is true. */
  lemma ProductHolds(m: nat, n: nat, k: nat, ctx: Context, alnum: AlnumTable)
    ensures Meaning(EquationText(m, "*", n, k), ctx, alnum) == Ok(Boolean(m * n == k))
  {
    ProductOfWholes(m, n);
    ProductIs(m as real, n as real);
    EquationHolds(m, Star, n, k, m * n, ctx, alnum);
  }

  lemma EquationHolds(m: nat, op: Op, n: nat, k: nat, result: int, ctx: Context, alnum: AlnumTable)
    requires op == Plus || op == Minus || op == Star || op == Slash
    requires Apply(op, Number(m as real), Number(n as real)) == Ok(Number(result as real))
    ensures Meaning(EquationText(m, Spell(OpToken(op)), n, k), ctx, alnum) == Ok(Boolean(result == k))
  {
    EquationMeans(m, op, n, k, ctx, alnum);
    NumEvaluates(m, ctx);
    NumEvaluates(n, ctx);
    NumEvaluates(k, ctx);
    EvalBinary(op, Num(m), Num(n), Number(m as real), Ok(Number(n as real)), ctx);
    EvalBinary(Eq, Binary(op, Num(m), Num(n)), Num(k), Number(result as real), Ok(Number(k as real)), ctx);
    WholeNumbersDiffer(result, k);
  }

  lemma NumEvaluates(n: nat, ctx: Context)
    ensures Eval(Num(n), ctx) == Ok(Number(n as real))
  {
    NumeralMeans(n);
  }

  lemma {:induction false} ProductOfWholes(m: nat, n: nat)
    ensures Times(m as real, n as real) == (m * n) as real
  {
    if n == 0 {
    } else {
      var k := n - 1;
      ProductOfWholes(m, k);
      Distributes(m as real, k as real, 1.0);
      assert n as real == k as real + 1.0;
      assert m * n == m * k + m;
      assert (m * n) as real == (m * k) as real + m as real;
    }
  }

  lemma WholeNumbersDiffer(m: int, k: int)
    ensures Apply(Eq, Number(m as real), Number(k as real)) == Ok(Boolean(m == k))
  {
    Comparisons(m as real, k as real);
    assert EPSILON < 1.0;
  }

  // ----- Precedence ---------------------------------------------------------

  /** The three groups of operators that bind, from loose to tight: comparisons, sums, products. */
  predicate Adding(op: Op) {
    op == Plus || op == Minus
  }

  predicate Multiplying(op: Op) {
    op == Star || op == Slash
  }

  predicate Looser(a: Op, b: Op) {
    || (Logical(a) && !Logical(b))
    || (Comparing(a) && (Adding(b) || Multiplying(b)))
    || (Adding(a) && Multiplying(b))
  }

  /** `x a y b z` without parentheses. */
  function Chain(x: Expr, a: Op, y: Expr, b: Op, z: Expr): seq<Token> {
    Yield(x) + [OpToken(a)] + Yield(y) + [OpToken(b)] + Yield(z)
  }

  predicate IsPrimary(e: Expr) {
    !e.Binary?
  }

  /**
   Of two operators the tighter one takes the operand between them; of two that bind alike the left one
   does, but two comparisons in a row have no derivation at all.
   */
  lemma TwoOperators(x: Expr, a: Op, y: Expr, b: Op, z: Expr, e: Expr)
    requires Shaped(x) && Shaped(y) && Shaped(z) && IsPrimary(x) && IsPrimary(y) && IsPrimary(z)
    ensures Shaped(e) && Yield(e) == Chain(x, a, y, b, z) <==>
              if Looser(a, b) then e == Binary(a, x, Binary(b, y, z))
              else !(Comparing(a) && Comparing(b)) && e == Binary(b, Binary(a, x, y), z)
  {
    ChainYields(x, a, y, b, z);
    if Shaped(e) && Yield(e) == Chain(x, a, y, b, z) {
      OneChain(x, a, y, b, z, e);
    }
  }

  lemma ChainYields(x: Expr, a: Op, y: Expr, b: Op, z: Expr)
    requires Shaped(x) && Shaped(y) && Shaped(z) && IsPrimary(x) && IsPrimary(y) && IsPrimary(z)
    ensures Yield(Binary(a, x, Binary(b, y, z))) == Chain(x, a, y, b, z)
    ensures Yield(Binary(b, Binary(a, x, y), z)) == Chain(x, a, y, b, z)
    ensures Looser(a, b) ==> Shaped(Binary(a, x, Binary(b, y, z)))
    ensures !Looser(a, b) && !(Comparing(a) && Comparing(b)) ==> Shaped(Binary(b, Binary(a, x, y), z))
  {
    assert Yield(x) + [OpToken(a)] + (Yield(y) + [OpToken(b)] + Yield(z)) == Chain(x, a, y, b, z);
  }

  /** A derivation of a chain is the one that the operators allow. */
  lemma OneChain(x: Expr, a: Op, y: Expr, b: Op, z: Expr, e: Expr)
    requires Shaped(x) && Shaped(y) && Shaped(z) && IsPrimary(x) && IsPrimary(y) && IsPrimary(z)
    requires Shaped(e) && Yield(e) == Chain(x, a, y, b, z)
    ensures !(Comparing(a) && Comparing(b))
    ensures e == if Looser(a, b) then Binary(a, x, Binary(b, y, z)) else Binary(b, Binary(a, x, y), z)
  {
    ChainYields(x, a, y, b, z);
    if Comparing(a) && Comparing(b) {
      ComparisonStops(x, a, y, b, z);
      WholeYieldParses(e, Chain(x, a, y, b, z));
    } else {
      GrammarIsUnambiguous(e, if Looser(a, b) then Binary(a, x, Binary(b, y, z)) else Binary(b, Binary(a, x, y), z));
    }
  }

  lemma WholeYieldParses(e: Expr, tokens: seq<Token>)
    requires Shaped(e) && Yield(e) == tokens
    ensures ParseLevel(0, tokens, 0) == Some((e, |tokens|))
  {
    assert tokens[0..|tokens|] == tokens;
    ParseIsComplete(e, 0, tokens, 0, |tokens|);
  }

  /** The parser reads one comparison and stops in front of the next. */
  lemma ComparisonStops(x: Expr, a: Op, y: Expr, b: Op, z: Expr)
    requires Shaped(x) && Shaped(y) && IsPrimary(x) && IsPrimary(y) && Comparing(a) && Comparing(b)
    ensures var tokens := Chain(x, a, y, b, z);
            ParseLevel(0, tokens, 0).Some? && ParseLevel(0, tokens, 0).value.1 < |tokens|
  {
    var first := Binary(a, x, y);
    var tokens, mid := Chain(x, a, y, b, z), |Yield(first)|;
    assert tokens == Yield(first) + ([OpToken(b)] + Yield(z));
    assert tokens[0..mid] == Yield(first) && tokens[mid] == OpToken(b);
    SpineIsComplete(first, 1, tokens, 0, mid);
    assert ParseLevel(1, tokens, 0) == Some((first, mid));
  }

  // ----- Names ----------------------------------------------------------------

  /** Names are joined to longer names by dots and underscores. */
  lemma NamesJoin(a: string, b: string, alnum: AlnumTable)
    requires IsName(a, alnum) && IsName(b, alnum)
    ensures IsName(a + ("." + b), alnum) && IsName(a + ("_" + b), alnum)
  {
    LongNameIs(a, "." + b, alnum);
    LongNameIs(a, "_" + b, alnum);
  }

  lemma LongNameIs(a: string, rest: string, alnum: AlnumTable)
    requires IsName(a, alnum) && rest != "" && (rest[0] == '.' || rest[0] == '_')
    requires forall i :: 0 <= i < |rest| ==> IsIdentChar(rest[i], alnum)
    ensures IsName(a + rest, alnum)
  {
    var s := a + rest;
    assert s[|a|] == rest[0];
    assert s[0] == a[0];
    assert '.' !in "AND" && '_' !in "AND" && '.' !in "OR" && '_' !in "OR" && '.' !in "NOT" && '_' !in "NOT";
    assert rest[0] in s;
  }

  // ----- A requirement on a field -------------------------------------------

  /** The text `name >= n`, as success criteria are written. */
  lemma AtLeastMeans(name: string, n: nat, ctx: Context, alnum: AlnumTable)
    requires IsName(name, alnum)
    ensures var r := Meaning(name + (" " + (">=" + (" " + Numeral(n)))), ctx, alnum);
            && (!Bound(name, ctx) ==> r == Ok(Unmapped))
            && (Bound(name, ctx) && ctx[name].Boolean? ==> r == Err)
            && (Bound(name, ctx) && ctx[name].Number? ==> r == Ok(Boolean(ctx[name].n - n as real >= 0.0)))
  {
    var e := Binary(Gte, Path(name), Num(n));
    NumeralMeans(n);
    AtLeastPrints(name, n);
    PrintedTreeKeepsItsMeaning(e, ctx, alnum);
    if Bound(name, ctx) && ctx[name].Number? {
      Comparisons(ctx[name].n, n as real);
    }
  }

  lemma AtLeastPrints(name: string, n: nat)
    ensures Print(Binary(Gte, Path(name), Num(n))) == name + (" " + (">=" + (" " + Numeral(n))))
  {
    var e := Binary(Gte, Path(name), Num(n));
    assert Parenthesize(e) == e;
    assert Yield(e) == [IdentToken(name)] + ([OpToken(Gte)] + [Word(n)]);
    SpellMore(OpToken(Gte), [Word(n)]);
    SpellMore(IdentToken(name), [OpToken(Gte)] + [Word(n)]);
  }

  /** And the verdict on it: passed exactly if the field is a number that is large enough. */
  lemma AtLeastVerdict(name: string, n: nat, ctx: Context, alnum: AlnumTable)
    requires IsName(name, alnum)
    ensures var verdict := VerdictOf(name + (" " + (">=" + (" " + Numeral(n)))), ctx, alnum);
            && (verdict == Pass <==> Bound(name, ctx) && ctx[name].Number? && ctx[name].n - n as real >= 0.0)
            && (verdict == Fail <==> Bound(name, ctx) && ctx[name].Number? && ctx[name].n - n as real < 0.0)
  {
    AtLeastMeans(name, n, ctx, alnum);
    AtLeastIsTrimmed(name, n, alnum);
  }

  lemma AtLeastIsTrimmed(name: string, n: nat, alnum: AlnumTable)
    requires IsName(name, alnum)
    ensures var text := name + (" " + (">=" + (" " + Numeral(n)))); Trim(text) == text
  {
    var text := name + (" " + (">=" + (" " + Numeral(n))));
    NumeralReads(n);
    assert PlausibleAt(alnum, name[0]);
    assert text[0] == name[0] && text[|text| - 1] == Numeral(n)[|Numeral(n)| - 1];
    TrimOfTrimmed("", text);
    assert "" + text == text;
  }

  /** `max ( m , n )` is the larger of the two. */
  lemma MaxMeans(m: nat, n: nat, ctx: Context, alnum: AlnumTable)
    ensures Meaning("max" + (" " + ("(" + (" " + MaxTail(m, n)))), ctx, alnum)
            == Ok(Number((if m >= n then m else n) as real))
  {
    var e := Max([Num(m), Num(n)]);
    NumeralMeans(m);
    NumeralMeans(n);
    MaxPrints(m, n);
    PrintedTreeKeepsItsMeaning(e, ctx, alnum);
    NumEvaluates(m, ctx);
    NumEvaluates(n, ctx);
    ArgsEvaluate([Num(m), Num(n)], Num(m), Num(n), Number(m as real), Number(n as real), ctx);
    LargerOfTwo(m as real, n as real);
  }

  function MaxTail(m: nat, n: nat): string {
    Numeral(m) + (" " + ("," + (" " + (Numeral(n) + (" " + ")")))))
  }

  lemma MaxPrints(m: nat, n: nat)
    ensures Print(Max([Num(m), Num(n)])) == "max" + (" " + ("(" + (" " + MaxTail(m, n))))
  {
    var args := [Num(m), Num(n)];
    var tail := [Word(m)] + ([Comma] + ([Word(n)] + [RParen]));
    TwoArgsYield(args, Num(m), Num(n));
    assert Yield(Max(args)) == [IdentToken("max")] + ([LParen] + tail);
    assert Parenthesize(Max(args)) == Max(args);
    SpellMore(Word(n), [RParen]);
    SpellMore(Comma, [Word(n)] + [RParen]);
    SpellMore(Word(m), [Comma] + ([Word(n)] + [RParen]));
    SpellMore(LParen, tail);
    SpellMore(IdentToken("max"), [LParen] + tail);
  }

  lemma TwoArgsYield(args: seq<Expr>, a: Expr, b: Expr)
    requires args == [a, b] && a.Literal? && b.Literal?
    ensures ParenthesizeAll(args) == args
    ensures YieldAll(args) == [NumberToken(a.text)] + [Comma] + [NumberToken(b.text)]
  {
    assert args[1..] == [b] && args[1..][1..] == [];
    assert ParenthesizeAll(args[1..]) == [b] + ParenthesizeAll([]);
    assert ParenthesizeAll(args) == [a] + [b];
    assert YieldAll(args[1..]) == Yield(b);
  }

  lemma ArgsEvaluate(args: seq<Expr>, a: Expr, b: Expr, x: Value, y: Value, ctx: Context)
    requires args == [a, b] && Eval(a, ctx) == Ok(x) && Eval(b, ctx) == Ok(y)
    ensures EvalAll(args, ctx) == Ok([x, y])
  {
    assert args[1..] == [b] && args[1..][1..] == [];
    assert EvalAll([], ctx) == Ok([]);
    assert EvalAll(args[1..], ctx) == Ok([y] + []);
    assert [x] + ([y] + []) == [x, y];
  }

  lemma LargerOfTwo(x: real, y: real)
    ensures MaxOf([Number(x), Number(y)]) == Ok(Number(if x >= y then x else y))
  {
    assert [Number(x), Number(y)][1..] == [Number(y)];
  }
}
