/** `levenshtein` and `nearest_symbol` of `lsp/src/code_action.rs`. */
module EditDistance {
  // `Distance` is the textbook recursion.  It is proved to be the least number of single-character
  // insertions, deletions and substitutions that lead from one string to the other, and a metric.
  // The two-row table computes it.

  import opened Outcome
  import opened Dotted
  import opened Order

  function Min(a: nat, b: nat): nat {
    if a <= b then a else b
  }

  function Max(a: nat, b: nat): nat {
    if a >= b then a else b
  }

  function Cost(c: char, d: char): nat {
    if c == d then 0 else 1
  }

  function Front(s: string): string
    requires s != ""
  {
    s[..|s| - 1]
  }

  function Last(s: string): char
    requires s != ""
  {
    s[|s| - 1]
  }

  function Distance(a: string, b: string): nat
    decreases |a| + |b|
  {
    if a == "" then |b|
    else if b == "" then |a|
    else Min(Min(Distance(Front(a), b) + 1, Distance(a, Front(b)) + 1),
             Distance(Front(a), Front(b)) + Cost(Last(a), Last(b)))
  }

  // ----- Edit scripts -------------------------------------------------------

  datatype Edit = Insert(c: char) | Delete(c: char) | Replace(c: char, d: char)

  /** Edits from left to right; keeping a character is replacing it by itself, at no cost. */
  datatype Script = Nothing | Then(before: Script, edit: Edit)

  function Consumed(edit: Edit): string {
    if edit.Insert? then "" else [edit.c]
  }

  function Produced(edit: Edit): string {
    match edit
    case Insert(c) => [c]
    case Delete(_) => ""
    case Replace(_, d) => [d]
  }

  function EditCost(edit: Edit): nat {
    if edit.Replace? then Cost(edit.c, edit.d) else 1
  }

  function Source(s: Script): string {
    if s.Nothing? then "" else Source(s.before) + Consumed(s.edit)
  }

  function Target(s: Script): string {
    if s.Nothing? then "" else Target(s.before) + Produced(s.edit)
  }

  function Price(s: Script): nat {
    if s.Nothing? then 0 else Price(s.before) + EditCost(s.edit)
  }

  lemma {:induction false} NoScriptIsCheaper(s: Script)
    ensures Distance(Source(s), Target(s)) <= Price(s)
  {
    if s.Then? {
      NoScriptIsCheaper(s.before);
      AppendingCosts(Source(s.before), Target(s.before), s.edit);
    }
  }

  lemma AppendingCosts(a: string, b: string, edit: Edit)
    ensures Distance(a + Consumed(edit), b + Produced(edit)) <= Distance(a, b) + EditCost(edit)
  {
    match edit
    case Insert(c) => assert Front(b + [c]) == b && a + "" == a;
    case Delete(c) => assert Front(a + [c]) == a && b + "" == b;
    case Replace(c, d) => assert Front(a + [c]) == a && Front(b + [d]) == b;
  }

  lemma FrontLast(s: string)
    requires s != ""
    ensures s == Front(s) + [Last(s)]
  {
  }

  function BestScript(a: string, b: string): (s: Script)
    ensures Source(s) == a && Target(s) == b && Price(s) == Distance(a, b)
    decreases |a| + |b|
  {
    if a == "" && b == "" then Nothing
    else if a == "" || (b != "" && Distance(a, b) == Distance(a, Front(b)) + 1) then
      FrontLast(b);
      assert a + "" == a;
      Then(BestScript(a, Front(b)), Insert(Last(b)))
    else if b == "" || Distance(a, b) == Distance(Front(a), b) + 1 then
      FrontLast(a);
      assert b + "" == b;
      Then(BestScript(Front(a), b), Delete(Last(a)))
    else
      FrontLast(a);
      FrontLast(b);
      Then(BestScript(Front(a), Front(b)), Replace(Last(a), Last(b)))
  }

  /** Runs `p` and then `q`; edits of the same character merge. */
  function Compose(p: Script, q: Script): (s: Script)
    requires Target(p) == Source(q)
    ensures Source(s) == Source(p) && Target(s) == Target(q) && Price(s) <= Price(p) + Price(q)
    decreases p, q
  {
    if p.Then? && p.edit.Delete? then Then(Compose(p.before, q), p.edit)
    else if q.Then? && q.edit.Insert? then Then(Compose(p, q.before), q.edit)
    else if p.Nothing? || q.Nothing? then
      assert p.Nothing? && q.Nothing?;
      Nothing
    else
      assert Front(Target(p)) == Target(p.before) && Front(Source(q)) == Source(q.before);
      assert Last(Target(p)) == Last(Source(q));
      var both := Compose(p.before, q.before);
      match (p.edit, q.edit)
      case (Insert(_), Delete(_)) => both
      case (Insert(_), Replace(_, d)) => Then(both, Insert(d))
      case (Replace(c, _), Delete(_)) => Then(both, Delete(c))
      case (Replace(c, _), Replace(_, d)) => Then(both, Replace(c, d))
  }

  // ----- A metric -----------------------------------------------------------

  lemma {:induction false} DistanceIsSymmetric(a: string, b: string)
    ensures Distance(a, b) == Distance(b, a)
    decreases |a| + |b|
  {
    if a == "" || b == "" {
    } else {
      DistanceIsSymmetric(Front(a), b);
      DistanceIsSymmetric(a, Front(b));
      DistanceIsSymmetric(Front(a), Front(b));
    }
  }

  lemma {:induction false} DistanceIsZeroOnlyOnEqual(a: string, b: string)
    ensures Distance(a, b) == 0 <==> a == b
    decreases |a| + |b|
  {
    if a == "" || b == "" {
    } else {
      DistanceIsZeroOnlyOnEqual(Front(a), Front(b));
      assert a == Front(a) + [Last(a)] && b == Front(b) + [Last(b)];
    }
  }

  lemma TriangleInequality(a: string, b: string, c: string)
    ensures Distance(a, c) <= Distance(a, b) + Distance(b, c)
  {
    NoScriptIsCheaper(Compose(BestScript(a, b), BestScript(b, c)));
  }

  // ----- The least number of single-character edits -------------------------

  /** `t` is `s` with one character inserted, deleted or substituted. */
  ghost predicate OneEdit(s: string, t: string) {
    exists left: string, x: string, y: string, right: string ::
      |x| <= 1 && |y| <= 1 && s == left + x + right && t == left + y + right
  }

  ghost predicate EditPath(path: seq<string>, a: string, b: string) {
    && path != [] && path[0] == a && path[|path| - 1] == b
    && forall i :: 0 < i < |path| ==> OneEdit(path[i - 1], path[i])
  }

  lemma {:induction false} CommonEndAddsNothing(a: string, b: string, right: string)
    ensures Distance(a + right, b + right) <= Distance(a, b)
  {
    if right == "" {
      assert a + right == a && b + right == b;
    } else {
      CommonEndAddsNothing(a, b, Front(right));
      assert a + right == (a + Front(right)) + [Last(right)];
      assert b + right == (b + Front(right)) + [Last(right)];
      AppendingCosts(a + Front(right), b + Front(right), Replace(Last(right), Last(right)));
    }
  }

  /** A script that keeps `s` and then makes one edit, which may be none at all. */
  lemma ShortEditCostsAtMostOne(left: string, x: string, y: string)
    requires |x| <= 1 && |y| <= 1
    ensures Distance(left + x, left + y) <= 1
  {
    if x == "" && y == "" {
      DistanceIsZeroOnlyOnEqual(left + x, left + y);
    } else {
      var edit := if x == "" then Insert(y[0]) else if y == "" then Delete(x[0]) else Replace(x[0], y[0]);
      assert Consumed(edit) == x && Produced(edit) == y && EditCost(edit) <= 1;
      AppendingToEqual(left, edit);
    }
  }

  lemma AppendingToEqual(left: string, edit: Edit)
    ensures Distance(left + Consumed(edit), left + Produced(edit)) <= EditCost(edit)
  {
    DistanceIsZeroOnlyOnEqual(left, left);
    AppendingCosts(left, left, edit);
  }

  lemma OneEditCostsAtMostOne(s: string, t: string)
    requires OneEdit(s, t)
    ensures Distance(s, t) <= 1
  {
    var left, x, y, right :| |x| <= 1 && |y| <= 1 && s == left + x + right && t == left + y + right;
    ShortEditCostsAtMostOne(left, x, y);
    CommonEndAddsNothing(left + x, left + y, right);
  }

  lemma {:induction false} NoPathIsShorter(path: seq<string>, a: string, b: string)
    requires EditPath(path, a, b)
    ensures Distance(a, b) <= |path| - 1
  {
    if |path| == 1 {
      DistanceIsZeroOnlyOnEqual(a, b);
    } else {
      var shorter := path[..|path| - 1];
      var c := path[|path| - 2];
      NoPathIsShorter(shorter, a, c);
      OneEditCostsAtMostOne(c, b);
      TriangleInequality(a, c, b);
    }
  }

  lemma {:induction false} ScriptAsPath(s: Script, right: string) returns (path: seq<string>)
    ensures EditPath(path, Source(s) + right, Target(s) + right) && |path| == Price(s) + 1
  {
    match s
    case Nothing =>
      path := [right];
      assert "" + right == right;
    case Then(before, edit) =>
      var x, y := Consumed(edit), Produced(edit);
      var front := ScriptAsPath(before, x + right);
      assert Source(before) + (x + right) == Source(s) + right;
      assert Target(before) + (x + right) == Target(before) + x + right;
      var next := Target(before) + y + right;
      assert next == Target(s) + right;
      if x == y {
        path := front;
      } else {
        assert OneEdit(front[|front| - 1], next);
        path := front + [next];
      }
  }

  /** The distance is the least number of single-character edits from `a` to `b`. */
  lemma DistanceIsLeastEditCount(a: string, b: string)
    ensures exists path :: EditPath(path, a, b) && |path| - 1 == Distance(a, b)
    ensures forall path :: EditPath(path, a, b) ==> Distance(a, b) <= |path| - 1
  {
    var path := ScriptAsPath(BestScript(a, b), "");
    assert a + "" == a && b + "" == b;
    assert EditPath(path, a, b);
    forall other | EditPath(other, a, b)
      ensures Distance(a, b) <= |other| - 1
    {
      NoPathIsShorter(other, a, b);
    }
  }

  // ----- The two-row table --------------------------------------------------

  /** The first `upTo` cells of `row` hold the distances from `a[..i]` to the prefixes of `b`. */
  ghost predicate Row(row: seq<nat>, a: string, i: nat, b: string, upTo: nat)
    requires i <= |a| && upTo <= |b| + 1 == |row|
  {
    forall j {:trigger row[j]} :: 0 <= j < upTo ==> row[j] == Distance(a[..i], b[..j])
  }

  /** The row above, filled from 0 to |b|, is the row of the empty prefix. */
  lemma FirstRow(row: seq<nat>, a: string, b: string)
    requires |row| == |b| + 1 && forall j :: 0 <= j <= |b| ==> row[j] == j
    ensures Row(row, a, 0, b, |b| + 1)
  {
  }

  /** The first cell of a row. */
  lemma FirstCell(row: seq<nat>, a: string, i: nat, b: string)
    requires i <= |a| && |row| == |b| + 1 && row[0] == i
    ensures Row(row, a, i, b, 1)
  {
  }

  /** The cell recurrence fills in one more cell. */
  lemma NextCell(prev: seq<nat>, cur: seq<nat>, a: string, i: nat, b: string, j: nat, v: nat)
    requires i < |a| && j < |b| && |prev| == |cur| == |b| + 1
    requires Row(prev, a, i, b, |b| + 1) && Row(cur, a, i + 1, b, j + 1)
    requires v == Min(Min(prev[j + 1] + 1, cur[j] + 1), prev[j] + Cost(a[i], b[j]))
    ensures Row(cur[j + 1 := v], a, i + 1, b, j + 2)
  {
    assert Front(a[..i + 1]) == a[..i] && Front(b[..j + 1]) == b[..j];
    assert v == Distance(a[..i + 1], b[..j + 1]);
  }

  /** `levenshtein`: two rows, swapped after each character of `a`. */
  method Levenshtein(a: string, b: string) returns (distance: nat)
    ensures distance == Distance(a, b)
  {
    if a == "" {
      return |b|;
    }
    if b == "" {
      return |a|;
    }
    var prev := new nat[|b| + 1](j => j);
    var cur := new nat[|b| + 1](_ => 0);
    FirstRow(prev[..], a, b);
    for i := 0 to |a|
      invariant fresh(prev) && fresh(cur) && prev != cur && prev.Length == cur.Length == |b| + 1
      invariant Row(prev[..], a, i, b, |b| + 1)
    {
      ghost var row := prev[..];
      cur[0] := i + 1;
      FirstCell(cur[..], a, i + 1, b);
      for j := 0 to |b|
        invariant prev[..] == row
        invariant Row(cur[..], a, i + 1, b, j + 1)
      {
        var cost := if a[i] == b[j] then 0 else 1;
        var v := Min(Min(prev[j + 1] + 1, cur[j] + 1), prev[j] + cost);
        NextCell(row, cur[..], a, i, b, j, v);
        ghost var next := cur[..][j + 1 := v];
        cur[j + 1] := v;
        assert cur[..] == next;
      }
      prev, cur := cur, prev;
    }
    assert a[..|a|] == a && b[..|b|] == b;
    distance := prev[|b|];
  }

  // ----- Did you mean -------------------------------------------------------

  /** The terminal names a suggestion may be taken from. */
  function Candidates(paths: seq<string>, bad: string): set<string> {
    set p | p in paths && LastSegment(p) != bad :: LastSegment(p)
  }

  /** `s` beats `t`: closer to `bad`, or as close and first in alphabetical order. */
  predicate Beats(bad: string, s: string, t: string) {
    var ds, dt := Distance(bad, s), Distance(bad, t);
    ds < dt || (ds == dt && Less(s, t))
  }

  function Threshold(bad: string): nat {
    Max(2, |bad| / 3)
  }

  /** A typo may take two edits, or up to a third of the name. */
  lemma ThresholdIs(bad: string, edits: nat)
    ensures edits <= Threshold(bad) <==> edits <= 2 || 3 * edits <= |bad|
  {
  }

  /** The candidate that beats all others, provided it is within the threshold. */
  ghost predicate Nearest(candidates: set<string>, bad: string, r: Option<string>) {
    match r
    case None => forall t :: t in candidates ==> Distance(bad, t) > Threshold(bad)
    case Some(s) =>
      && s in candidates && Distance(bad, s) <= Threshold(bad)
      && forall t :: t in candidates && t != s ==> Beats(bad, s, t)
  }

  /** `nearest_symbol`, whatever order the index enumerates its paths in. */
  method NearestSymbol(paths: seq<string>, bad: string) returns (r: Option<string>)
    ensures Nearest(Candidates(paths, bad), bad, r)
    ensures r.Some? ==>
              && r.value != bad && '.' !in r.value
              && (exists path :: path in paths && DotEndsWith(path, r.value))
              && (Distance(bad, r.value) <= 2 || 3 * Distance(bad, r.value) <= |bad|)
    ensures r.None? ==>
              forall path, name :: path in paths && name != bad && '.' !in name && DotEndsWith(path, name) ==>
                Distance(bad, name) > 2 && 3 * Distance(bad, name) > |bad|
  {
    var best: Option<(nat, string)> := None;
    var seen: set<string> := {};
    for i := 0 to |paths|
      invariant forall t :: t in Candidates(paths[..i], bad) <==> t in seen
      invariant best.None? ==> seen == {}
      invariant best.Some? ==>
          && best.value.0 == Distance(bad, best.value.1) && best.value.1 in seen
          && forall t :: t in seen && t != best.value.1 ==> Beats(bad, best.value.1, t)
    {
      var term := LastSegment(paths[i]);
      assert paths[..i + 1] == paths[..i] + [paths[i]];
      if term == bad || term in seen {
        continue;
      }
      seen := seen + {term};
      var dist := Levenshtein(bad, term);
      var better := match best
        case None => true
        case Some((d, n)) => dist < d || (dist == d && Less(term, n));
      if best.Some? {
        BeatsIsLinear(bad, term, best.value.1, seen);
      }
      if better {
        best := Some((dist, term));
      }
    }
    assert paths[..|paths|] == paths;
    if best.None? {
      NearestMeans(paths, bad, None);
      return None;
    }
    var (dist, name) := best.value;
    r := if dist <= Threshold(bad) then Some(name) else None;
    NearestMeans(paths, bad, r);
  }

  /** The answer told from the paths: a last segment other than the bad name, within reach of a typo. */
  lemma NearestMeans(paths: seq<string>, bad: string, r: Option<string>)
    requires Nearest(Candidates(paths, bad), bad, r)
    ensures r.Some? ==>
              && r.value != bad && '.' !in r.value
              && (exists path :: path in paths && DotEndsWith(path, r.value))
              && (Distance(bad, r.value) <= 2 || 3 * Distance(bad, r.value) <= |bad|)
    ensures r.None? ==>
              forall path, name :: path in paths && name != bad && '.' !in name && DotEndsWith(path, name) ==>
                Distance(bad, name) > 2 && 3 * Distance(bad, name) > |bad|
  {
    match r
    case Some(s) =>
      var path :| path in paths && LastSegment(path) == s && s != bad;
      LastSegmentIs(path, s);
      ThresholdIs(bad, Distance(bad, s));
    case None =>
      forall path, name | path in paths && name != bad && '.' !in name && DotEndsWith(path, name)
        ensures Distance(bad, name) > 2 && 3 * Distance(bad, name) > |bad|
      {
        LastSegmentIs(path, name);
        assert name in Candidates(paths, bad);
        ThresholdIs(bad, Distance(bad, name));
      }
  }

  lemma BeatsIsLinear(bad: string, s: string, t: string, others: set<string>)
    requires s != t
    ensures Beats(bad, s, t) || Beats(bad, t, s)
    ensures Beats(bad, s, t) ==> forall u :: u in others && Beats(bad, t, u) ==> Beats(bad, s, u)
  {
    LessIsTotal(s, t);
    forall u | u in others && Beats(bad, s, t) && Beats(bad, t, u)
      ensures Beats(bad, s, u)
    {
      if Less(s, t) && Less(t, u) {
        LessIsTransitive(s, t, u);
      }
    }
  }

  /** There is one answer, so the enumeration order of the index cannot show. */
  lemma NearestIsUnique(candidates: set<string>, bad: string, r: Option<string>, q: Option<string>)
    requires Nearest(candidates, bad, r) && Nearest(candidates, bad, q)
    ensures r == q
  {
    if r.Some? && q.Some? && r != q {
      if Less(r.value, q.value) {
        LessIsAsymmetric(r.value, q.value);
      }
    }
  }
}
