/** The reference scan of `cli/src/verify.rs` against its tokenizer. */
module RequirementRefs {
  // The scan cuts a text at every character that is not alphanumeric, `_` or `.`; the tokenizer
  // cuts the same text by token rules.  `1REQ_A.x` is one run but two tokens.  They disagree exactly
  // on the texts where a number touches a reference, and so never on one that has a derivation.

  import opened Outcome
  import opened Chars
  import opened CriteriaGrammar
  import opened CriteriaText

  predicate IsRequirementRef(word: string) {
    "REQ_" <= word && '.' in word
  }

  lemma IsRequirementRefMeans(word: string)
    ensures IsRequirementRef(word) <==> exists rest :: word == "REQ_" + rest && '.' in rest
  {
    if IsRequirementRef(word) {
      assert word == "REQ_" + word[4..];
      var i :| 0 <= i < |word| && word[i] == '.';
      assert i >= 4 && word[4..][i - 4] == '.';
    }
    if rest :| word == "REQ_" + rest && '.' in rest {
      var i :| 0 <= i < |rest| && rest[i] == '.';
      assert word[4 + i] == '.';
    }
  }

  /** The maximal runs of identifier characters, left to right. */
  function Runs(s: string, alnum: AlnumTable): (r: seq<string>)
    ensures s != "" && IsIdentChar(s[0], alnum) ==> r != []
  {
    if s == "" then []
    else
      var rest := Runs(s[1..], alnum);
      if !IsIdentChar(s[0], alnum) then rest
      else if |s| > 1 && IsIdentChar(s[1], alnum) then [[s[0]] + rest[0]] + rest[1..]
      else [[s[0]]] + rest
  }

  function RefsAmong(words: seq<string>): seq<string> {
    if words == [] then []
    else RefOf(words[0]) + RefsAmong(words[1..])
  }

  /** The dotted `REQ_` identifiers among the tokens. */
  function RefTokens(tokens: seq<Token>): seq<string> {
    if tokens == [] then []
    else (if tokens[0].IdentToken? then RefOf(tokens[0].text) else []) + RefTokens(tokens[1..])
  }

  // ----- The scan -----------------------------------------------------------

  datatype Binding = Binding(ref: string, value: real)

  function Resolved(refs: seq<string>, resolve: string -> Option<real>): seq<Binding> {
    if refs == [] then []
    else (match resolve(refs[0]) case Some(v) => [Binding(refs[0], v)] case None => [])
         + Resolved(refs[1..], resolve)
  }

  /** The bindings are those of the references that resolve. */
  lemma {:induction false} ResolvedHolds(refs: seq<string>, resolve: string -> Option<real>, b: Binding)
    ensures b in Resolved(refs, resolve) <==> b.ref in refs && resolve(b.ref) == Some(b.value)
  {
    if refs == [] {
    } else {
      ResolvedHolds(refs[1..], resolve, b);
      assert refs == [refs[0]] + refs[1..];
    }
  }

  lemma {:induction false} ResolvedSplit(front: seq<string>, back: seq<string>, resolve: string -> Option<real>)
    ensures Resolved(front + back, resolve) == Resolved(front, resolve) + Resolved(back, resolve)
  {
    if front == [] {
      assert front + back == back;
    } else {
      assert (front + back)[1..] == front[1..] + back;
      ResolvedSplit(front[1..], back, resolve);
    }
  }

  lemma {:induction false} RunsTake(word: string, s: string, alnum: AlnumTable)
    requires word != "" && forall i :: 0 <= i < |word| ==> IsIdentChar(word[i], alnum)
    requires s == "" || !IsIdentChar(s[0], alnum)
    ensures Runs(word + s, alnum) == [word] + Runs(s, alnum)
  {
    var all := word + s;
    assert all[1..] == word[1..] + s;
    if |word| > 1 {
      RunsTake(word[1..], s, alnum);
      assert all[1] == word[1];
      assert [word[0]] + word[1..] == word;
    } else {
      assert all[1..] == s && word == [word[0]];
      assert |all| > 1 ==> all[1] == s[0];
    }
  }

  function RefOf(word: string): seq<string> {
    if IsRequirementRef(word) then [word] else []
  }

  /** A word that ends where the run ends contributes itself, if it is a reference. */
  lemma RefsTake(s: string, word: string, rest: string, alnum: AlnumTable)
    requires s == word + rest && forall i :: 0 <= i < |word| ==> IsIdentChar(word[i], alnum)
    requires rest == "" || !IsIdentChar(rest[0], alnum)
    ensures RefsAmong(Runs(s, alnum)) == RefOf(word) + RefsAmong(Runs(rest, alnum))
  {
    if word == "" {
      assert s == rest;
    } else {
      RunsTake(word, rest, alnum);
      assert ([word] + Runs(rest, alnum))[1..] == Runs(rest, alnum);
    }
  }

  /** What the scan ends up with, once it has found `done`, holds `token` and stands at `i`. */
  function ScanFrom(done: seq<string>, token: string, text: string, i: nat, alnum: AlnumTable): seq<string>
    requires i <= |text|
  {
    done + RefsAmong(Runs(token + text[i..], alnum))
  }

  lemma ScanFromStep(done: seq<string>, token: string, text: string, i: nat, alnum: AlnumTable)
    requires i < |text| && forall j :: 0 <= j < |token| ==> IsIdentChar(token[j], alnum)
    ensures ScanFrom(done, token, text, i, alnum)
            == if IsIdentChar(text[i], alnum) then ScanFrom(done, token + [text[i]], text, i + 1, alnum)
               else ScanFrom(done + RefOf(token), "", text, i + 1, alnum)
  {
    if IsIdentChar(text[i], alnum) {
      assert token + text[i..] == (token + [text[i]]) + text[i + 1..];
    } else {
      RefsTakeGap(token, text[i..], text[i + 1..], alnum);
      assert "" + text[i + 1..] == text[i + 1..];
    }
  }

  lemma RefsTakeGap(token: string, s: string, rest: string, alnum: AlnumTable)
    requires s != "" && rest == s[1..] && !IsIdentChar(s[0], alnum)
    requires forall j :: 0 <= j < |token| ==> IsIdentChar(token[j], alnum)
    ensures RefsAmong(Runs(token + s, alnum)) == RefOf(token) + RefsAmong(Runs(rest, alnum))
  {
    RefsTake(token + s, token, s, alnum);
  }

  lemma ScanFromEnds(done: seq<string>, token: string, text: string, alnum: AlnumTable)
    requires forall i :: 0 <= i < |token| ==> IsIdentChar(token[i], alnum)
    ensures ScanFrom([], "", text, 0, alnum) == RefsAmong(Runs(text, alnum))
    ensures ScanFrom(done, token, text, |text|, alnum) == done + RefOf(token)
  {
    assert "" + text[0..] == text;
    assert token + text[|text|..] == token;
    RefsTake(token, token, "", alnum);
    assert Runs("", alnum) == [] && RefOf(token) + [] == RefOf(token);
  }

  /** `resolve_req_attr_refs` */
  method ResolveReqAttrRefs(text: string, resolve: string -> Option<real>, alnum: AlnumTable)
    returns (out: seq<Binding>)
    ensures out == Resolved(RefsAmong(Runs(text, alnum)), resolve)
    ensures forall b :: b in out <==> b.ref in RefsAmong(Runs(text, alnum)) && resolve(b.ref) == Some(b.value)
  {
    out := [];
    var token := "";
    ghost var done: seq<string> := [];
    ghost var target := RefsAmong(Runs(text, alnum));
    ScanFromEnds([], "", text, alnum);
    for i := 0 to |text|
      invariant forall j :: 0 <= j < |token| ==> IsIdentChar(token[j], alnum)
      invariant target == ScanFrom(done, token, text, i, alnum)
      invariant out == Resolved(done, resolve)
    {
      ScanFromStep(done, token, text, i, alnum);
      if IsIdentChar(text[i], alnum) {
        token := token + [text[i]];
      } else {
        out := Flush(token, out, done, resolve);
        done := done + RefOf(token);
        token := "";
      }
    }
    ScanFromEnds(done, token, text, alnum);
    out := Flush(token, out, done, resolve);
    forall b
      ensures b in out <==> b.ref in target && resolve(b.ref) == Some(b.value)
    {
      ResolvedHolds(target, resolve, b);
    }
  }

  method Flush(token: string, out: seq<Binding>, ghost done: seq<string>, resolve: string -> Option<real>)
    returns (r: seq<Binding>)
    requires out == Resolved(done, resolve)
    ensures r == Resolved(done + RefOf(token), resolve)
  {
    r := out;
    ResolvedSplit(done, RefOf(token), resolve);
    if "REQ_" <= token && '.' in token {
      match resolve(token)
      case Some(v) => r := r + [Binding(token, v)];
      case None =>
    }
  }

  // ----- When scan and tokenizer agree ---------------------------------------

  /** The run of identifier characters that `s` opens with is a reference. */
  predicate RefAt(s: string, alnum: AlnumTable) {
    IsRequirementRef(s[..RunLength(s, IdentClass(alnum))])
  }

  /** Somewhere a number is followed, with no gap, by a reference. */
  predicate Glued(s: string, alnum: AlnumTable)
    decreases |s|
  {
    if s == "" then false
    else if IsWhitespace(s[0]) then Glued(s[1..], alnum)
    else
      match LexOne(s, alnum)
      case Err => false
      case Ok((token, k)) => (token.NumberToken? && RefAt(s[k..], alnum)) || Glued(s[k..], alnum)
  }

  /** How the first token lies in the text, told by runs of identifier characters. */
  ghost predicate TokenRun(s: string, token: Token, k: nat, alnum: AlnumTable) {
    && 0 < k <= |s|
    && if token.NumberToken? then
         IsDigit(s[0]) && k == RunLength(s, IsNumberChar)
       else if token.IdentToken? || token == OpToken(And) then
         k == RunLength(s, IdentClass(alnum)) && s[..k] == Spell(token)
       else
         k <= 2 && forall i :: 0 <= i < k ==> !IsIdentChar(s[i], alnum)
  }

  lemma FirstTokenRun(s: string, alnum: AlnumTable) returns (token: Token, k: nat, rest: seq<Token>)
    requires s != "" && !IsWhitespace(s[0]) && Lex(s, alnum).Ok?
    ensures TokenRun(s, token, k, alnum)
    ensures !IsDigit(s[0]) && IsIdentChar(s[0], alnum) ==> token.IdentToken? || token == OpToken(And)
    ensures Lex(s[k..], alnum) == Ok(rest) && Lex(s, alnum) == Ok([token] + rest)
    ensures Glued(s, alnum) <==> (token.NumberToken? && RefAt(s[k..], alnum)) || Glued(s[k..], alnum)
  {
    assert PlausibleAt(alnum, s[0]) && (|s| > 1 ==> PlausibleAt(alnum, s[1]));
    var one := LexOne(s, alnum).value;
    token, k := one.0, one.1;
    rest := Lex(s[k..], alnum).value;
  }

  /** One step of the scan over the first token: only a reference behind a number is lost. */
  lemma ScanStep(s: string, token: Token, k: nat, alnum: AlnumTable)
    requires TokenRun(s, token, k, alnum)
    ensures if token.NumberToken? && RefAt(s[k..], alnum) then
              |RefsAmong(Runs(s, alnum))| < |RefsAmong(Runs(s[k..], alnum))|
            else
              RefsAmong(Runs(s, alnum)) == RefTokens([token]) + RefsAmong(Runs(s[k..], alnum))
  {
    RefTokensOne(token);
    if token.NumberToken? {
      NumberStep(s, k, alnum);
    } else if token.IdentToken? || token == OpToken(And) {
      WordStep(s, k, alnum);
      NotARef("AND");
    } else {
      GapStep(s, k, alnum);
    }
  }

  lemma RefTokensOne(token: Token)
    ensures RefTokens([token]) == if token.IdentToken? then RefOf(token.text) else []
  {
    assert [token][1..] == [] && RefTokens([]) == [];
  }

  lemma WordStep(s: string, k: nat, alnum: AlnumTable)
    requires k == RunLength(s, IdentClass(alnum))
    ensures RefsAmong(Runs(s, alnum)) == RefOf(s[..k]) + RefsAmong(Runs(s[k..], alnum))
  {
    RefsTake(s, s[..k], s[k..], alnum);
  }

  lemma GapStep(s: string, k: nat, alnum: AlnumTable)
    requires 0 < k <= |s| && k <= 2 && forall i :: 0 <= i < k ==> !IsIdentChar(s[i], alnum)
    ensures RefsAmong(Runs(s, alnum)) == RefsAmong(Runs(s[k..], alnum))
  {
    assert k == 2 ==> s[1..][1..] == s[2..];
  }

  /** A number's run swallows the word that touches it, which loses something if that word is a reference. */
  lemma NumberStep(s: string, k: nat, alnum: AlnumTable)
    requires s != "" && IsDigit(s[0]) && k == RunLength(s, IsNumberChar)
    ensures var tail := s[k..];
            RefsAmong(Runs(tail, alnum))
            == RefOf(tail[..RunLength(tail, IdentClass(alnum))]) + RefsAmong(Runs(s, alnum))
  {
    var n := RunLength(s[k..], IdentClass(alnum));
    var number, word, rest := s[..k], s[k..][..n], s[k..][n..];
    NumberIsIdentRun(number, alnum);
    CutTwice(s, k, n);
    RefsTake(s[k..], word, rest, alnum);
    NumberAndWord(s, number, word, rest, alnum);
  }

  lemma CutTwice(s: string, k: nat, n: nat)
    requires k <= |s| && n <= |s[k..]|
    ensures s[k..] == s[k..][..n] + s[k..][n..]
    ensures s == s[..k] + s[k..][..n] + s[k..][n..]
  {
  }

  lemma NumberIsIdentRun(number: string, alnum: AlnumTable)
    requires forall i :: 0 <= i < |number| ==> IsNumberChar(number[i])
    ensures forall i :: 0 <= i < |number| ==> IsIdentChar(number[i], alnum)
  {
    forall i | 0 <= i < |number|
      ensures IsIdentChar(number[i], alnum)
    {
      assert IsNumberChar(number[i]) && PlausibleAt(alnum, number[i]);
    }
  }

  lemma NumberAndWord(s: string, number: string, word: string, rest: string, alnum: AlnumTable)
    requires s == number + word + rest && number != "" && IsDigit(number[0])
    requires forall i :: 0 <= i < |number| ==> IsIdentChar(number[i], alnum)
    requires forall i :: 0 <= i < |word| ==> IsIdentChar(word[i], alnum)
    requires rest == "" || !IsIdentChar(rest[0], alnum)
    ensures RefsAmong(Runs(s, alnum)) == RefsAmong(Runs(rest, alnum))
  {
    RefsTake(s, number + word, rest, alnum);
    NotARef(number + word);
  }

  lemma NotARef(word: string)
    requires word == "" || word[0] != 'R'
    ensures RefOf(word) == []
  {
    assert "REQ_"[0] == 'R';
  }

  lemma RefTokensCons(token: Token, rest: seq<Token>)
    ensures RefTokens([token] + rest) == RefTokens([token]) + RefTokens(rest)
  {
    RefTokensOne(token);
    assert ([token] + rest)[1..] == rest;
  }

  /** Scan and tokenizer see the same references exactly if no number touches one; otherwise the scan sees fewer. */
  lemma {:induction false} ScanMatchesTokens(s: string, alnum: AlnumTable)
    requires Lex(s, alnum).Ok?
    ensures RefsAmong(Runs(s, alnum)) == RefTokens(Lex(s, alnum).value) <==> !Glued(s, alnum)
    ensures Glued(s, alnum) ==> |RefsAmong(Runs(s, alnum))| < |RefTokens(Lex(s, alnum).value)|
    decreases |s|
  {
    if s == "" {
    } else if IsWhitespace(s[0]) {
      assert PlausibleAt(alnum, s[0]);
      ScanMatchesTokens(s[1..], alnum);
    } else {
      var token, k, rest := FirstTokenRun(s, alnum);
      ScanMatchesTokens(s[k..], alnum);
      ScanStep(s, token, k, alnum);
      RefTokensOne(token);
      RefTokensCons(token, rest);
    }
  }

  // ----- Texts with a derivation, and one without ------------------------------

  /** No number is directly followed by an identifier in the token list. */
  ghost predicate NoGlue(tokens: seq<Token>) {
    forall i :: 0 < i < |tokens| ==> !(tokens[i - 1].NumberToken? && tokens[i].IdentToken?)
  }

  lemma {:induction false} YieldHasNoGlue(e: Expr)
    requires Shaped(e)
    ensures NoGlue(Yield(e))
  {
    match e
    case Literal(_) =>
    case Path(_) =>
    case Group(inner) => YieldHasNoGlue(inner);
    case Max(args) => YieldAllHasNoGlue(args);
    case Binary(_, lhs, rhs) =>
      YieldHasNoGlue(lhs);
      YieldHasNoGlue(rhs);
  }

  lemma {:induction false} YieldAllHasNoGlue(es: seq<Expr>)
    requires forall i :: 0 <= i < |es| ==> Shaped(es[i])
    ensures NoGlue(YieldAll(es))
  {
    if es == [] {
    } else {
      YieldHasNoGlue(es[0]);
      YieldAllHasNoGlue(es[1..]);
    }
  }

  lemma GlueFree(token: Token, rest: seq<Token>)
    requires NoGlue([token] + rest)
    ensures NoGlue(rest)
    ensures token.NumberToken? && rest != [] ==> !rest[0].IdentToken?
  {
    var tokens := [token] + rest;
    forall i | 0 < i < |rest|
      ensures !(rest[i - 1].NumberToken? && rest[i].IdentToken?)
    {
      assert tokens[i] == rest[i - 1] && tokens[i + 1] == rest[i];
    }
    assert rest != [] ==> tokens[1] == rest[0] && tokens[0] == token;
  }

  lemma {:induction false} GlueShowsInTokens(s: string, alnum: AlnumTable)
    requires Lex(s, alnum).Ok? && NoGlue(Lex(s, alnum).value)
    ensures !Glued(s, alnum)
    decreases |s|
  {
    if s == "" {
    } else if IsWhitespace(s[0]) {
      GlueShowsInTokens(s[1..], alnum);
    } else {
      var token, k, rest := FirstTokenRun(s, alnum);
      GlueFree(token, rest);
      GlueShowsInTokens(s[k..], alnum);
      if token.NumberToken? && RefAt(s[k..], alnum) {
        ReferenceIsToken(s[k..], alnum);
      }
    }
  }

  /** A text that opens with a reference opens with an identifier token. */
  lemma ReferenceIsToken(s: string, alnum: AlnumTable)
    requires RefAt(s, alnum) && Lex(s, alnum).Ok?
    ensures Lex(s, alnum).value != [] && Lex(s, alnum).value[0].IdentToken?
  {
    var k := RunLength(s, IdentClass(alnum));
    assert s[..k][0] == "REQ_"[0];
    assert PlausibleAt(alnum, s[0]);
    var token, _, _ := FirstTokenRun(s, alnum);
    assert Spell(OpToken(And))[0] == 'A';
  }

  /**
   On every text with a derivation, the scan visits exactly the dotted `REQ_` identifiers
   the tokenizer produces, in order.
   */
  lemma ScanVisitsEveryReference(text: string, e: Expr, alnum: AlnumTable)
    requires Derives(text, e, alnum)
    ensures RefsAmong(Runs(text, alnum)) == RefTokens(Yield(e))
  {
    YieldHasNoGlue(e);
    GlueShowsInTokens(text, alnum);
    ScanMatchesTokens(text, alnum);
  }

  /** Without a derivation the two cuts can differ: a digit glued to a reference hides it from the scan. */
  lemma ScanMissesGluedReferences(word: string, alnum: AlnumTable)
    requires IsName(word, alnum) && IsRequirementRef(word)
    ensures var text := "1" + word;
            && Lex(text, alnum) == Ok([NumberToken("1"), IdentToken(word)])
            && RefTokens([NumberToken("1"), IdentToken(word)]) == [word]
            && RefsAmong(Runs(text, alnum)) == []
  {
    var text := "1" + word;
    NameLexes(word, alnum);
    LexNumberThen(text, word, alnum);
    assert [NumberToken("1")] + [IdentToken(word)] == [NumberToken("1"), IdentToken(word)];
    RefTokensCons(NumberToken("1"), [IdentToken(word)]);
    RefTokensOne(NumberToken("1"));
    RefTokensOne(IdentToken(word));
    ScanMatchesTokens(text, alnum);
  }

  lemma NameLexes(word: string, alnum: AlnumTable)
    requires IsName(word, alnum)
    ensures Lex(word, alnum) == Ok([IdentToken(word)])
  {
    SpellingsLex([IdentToken(word)], alnum);
    assert Spellings([IdentToken(word)]) == word;
  }

  lemma LexNumberThen(text: string, word: string, alnum: AlnumTable)
    requires text == "1" + word && IsName(word, alnum) && IsRequirementRef(word)
    requires Lex(word, alnum).Ok?
    ensures Lex(text, alnum) == Ok([NumberToken("1")] + Lex(word, alnum).value)
    ensures Glued(text, alnum)
  {
    assert word[0] == "REQ_"[0];
    LexOneNumber(text, word, alnum);
    assert text[1..] == word;
    WholeRef(word, alnum);
  }

  lemma LexOneNumber(text: string, word: string, alnum: AlnumTable)
    requires text == "1" + word && word != "" && !IsNumberChar(word[0])
    ensures LexOne(text, alnum) == Ok((NumberToken("1"), 1))
  {
    RunLengthIs(text, IsNumberChar, 1);
    assert text[..1] == "1";
  }

  lemma WholeRef(word: string, alnum: AlnumTable)
    requires IsName(word, alnum) && IsRequirementRef(word)
    ensures RefAt(word, alnum)
  {
    RunLengthIs(word, IdentClass(alnum), |word|);
    assert word[..|word|] == word;
  }
}
