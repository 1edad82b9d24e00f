/** The model-value lookup of `cli/src/model_values.rs`. */
module ModelValues {
  // First an exact key, then the only value held by the keys that dot-end with the query, then the
  // same for ever shorter tails of the query.

  import opened Outcome
  import opened Dotted

  type Values = map<string, real>

  predicate Matches(values: Values, suffix: string, key: string) {
    key in values && DotEndsWith(key, suffix)
  }

  /** Two keys match the suffix and disagree. */
  ghost predicate Ambiguous(values: Values, suffix: string) {
    exists j, k :: Matches(values, suffix, j) && Matches(values, suffix, k) && values[j] != values[k]
  }

  /** Some key matches, and every matching key holds `v`. */
  ghost predicate OnlyValue(values: Values, suffix: string, v: real) {
    && (exists k :: Matches(values, suffix, k))
    && (forall k :: Matches(values, suffix, k) ==> values[k] == v)
  }

  /** `unique_key_with_suffix`; the keys are visited in whatever order. */
  method UniqueKeyWithSuffix(values: Values, suffix: string) returns (hit: Option<real>)
    ensures hit.Some? ==> OnlyValue(values, suffix, hit.value)
    ensures hit.None? ==> forall v :: !OnlyValue(values, suffix, v)
  {
    hit := None;
    var left := values.Keys;
    while left != {}
      invariant left <= values.Keys
      invariant hit.None? ==> forall k :: k in values && k !in left ==> !DotEndsWith(k, suffix)
      invariant hit.Some? ==>
          && (exists k :: k !in left && Matches(values, suffix, k))
          && (forall k :: k !in left && Matches(values, suffix, k) ==> values[k] == hit.value)
    {
      var k :| k in left;
      left := left - {k};
      if DotEndsWith(k, suffix) {
        assert Matches(values, suffix, k);
        if hit.Some? && hit.value != values[k] {
          return None;
        }
        hit := Some(values[k]);
      }
    }
  }

  ghost function Unique(values: Values, suffix: string): (r: Option<real>)
    ensures r.Some? <==> exists v :: OnlyValue(values, suffix, v)
    ensures r.Some? ==> OnlyValue(values, suffix, r.value)
  {
    if v: real :| OnlyValue(values, suffix, v) then Some(v) else None
  }

  /** The query without its first `start` segments. */
  function Tail(query: string, start: nat): string
    requires start < |Split(query)|
  {
    Join(Split(query)[start..])
  }

  /** What one tail answers: an exact key first, else the only value of the keys it ends. */
  ghost function Answer(values: Values, tail: string): Option<real> {
    if tail in values then Some(values[tail]) else Unique(values, tail)
  }

  /** The longest tail that answers is the one at `start`, and it answers `v`. */
  ghost predicate ResolvesAt(values: Values, query: string, start: nat, v: real) {
    && start < |Split(query)|
    && Answer(values, Tail(query, start)) == Some(v)
    && forall s :: 0 <= s < start ==> Answer(values, Tail(query, s)).None?
  }

  /** `ModelValueIndex::resolve` */
  method Resolve(values: Values, query: string) returns (r: Option<real>)
    ensures r.Some? ==> exists start :: ResolvesAt(values, query, start, r.value)
    ensures r.None? ==> forall s :: 0 <= s < |Split(query)| ==> Answer(values, Tail(query, s)).None?
  {
    JoinInvertsSplit(query);
    var segments := Split(query);
    assert segments[0..] == segments && Tail(query, 0) == query;
    if query in values {
      assert ResolvesAt(values, query, 0, values[query]);
      return Some(values[query]);
    }
    var hit := UniqueKeyWithSuffix(values, query);
    if hit.Some? {
      assert ResolvesAt(values, query, 0, hit.value);
      return hit;
    }
    for start := 1 to |segments|
      invariant forall s :: 0 <= s < start ==> Answer(values, Tail(query, s)).None?
    {
      var tail := Join(segments[start..]);
      if tail in values {
        assert ResolvesAt(values, query, start, values[tail]);
        return Some(values[tail]);
      }
      hit := UniqueKeyWithSuffix(values, tail);
      if hit.Some? {
        assert ResolvesAt(values, query, start, hit.value);
        return hit;
      }
    }
    r := None;
  }

  /** The answering tail, and so the resolved value, is unique. */
  lemma ResolutionIsUnique(values: Values, query: string, s: nat, v: real, t: nat, w: real)
    requires ResolvesAt(values, query, s, v) && ResolvesAt(values, query, t, w)
    ensures s == t && v == w
  {
  }

  /** Ambiguity of a tail carries over to every shorter tail. */
  lemma AmbiguityCarriesOver(values: Values, query: string, s: nat, t: nat)
    requires s <= t < |Split(query)| && Ambiguous(values, Tail(query, s))
    ensures Ambiguous(values, Tail(query, t))
  {
    var long, short := Tail(query, s), Tail(query, t);
    JoinedTailIsDotSuffix(Split(query)[s..], t - s);
    assert Split(query)[s..][t - s..] == Split(query)[t..];
    var j, k :| Matches(values, long, j) && Matches(values, long, k) && values[j] != values[k];
    DotEndsWithIsTransitive(j, long, short);
    DotEndsWithIsTransitive(k, long, short);
    assert Matches(values, short, j) && Matches(values, short, k);
  }

  /** From an ambiguous tail on, only an exact key can answer. */
  lemma AmbiguousTailsNeedAnExactKey(values: Values, query: string, s: nat, t: nat, v: real)
    requires ResolvesAt(values, query, t, v)
    requires s <= t && Ambiguous(values, Tail(query, s))
    ensures Tail(query, t) in values && values[Tail(query, t)] == v
  {
    AmbiguityCarriesOver(values, query, s, t);
  }
}
