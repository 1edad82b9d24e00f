/** `str` comparison, which is comparison by code point. */
module Order {

  predicate Less(a: string, b: string) {
    if b == "" then false
    else if a == "" then true
    else if a[0] != b[0] then a[0] < b[0]
    else Less(a[1..], b[1..])
  }

  /** The two part at `k`: one ends there, or its character there is the smaller one. */
  predicate PartsAt(a: string, b: string, k: nat) {
    k <= |a| && k < |b| && a[..k] == b[..k] && (k == |a| || a[k] < b[k])
  }

  /** `Less` is the order of dictionaries. */
  lemma {:induction false} LessIsDictionaryOrder(a: string, b: string)
    ensures Less(a, b) <==> exists k: nat :: PartsAt(a, b, k)
  {
    if b == "" {
    } else if a == "" {
      assert PartsAt(a, b, 0);
    } else if a[0] != b[0] {
      if a[0] < b[0] {
        assert PartsAt(a, b, 0);
      }
      assert forall k: nat :: 0 < k <= |a| && k <= |b| ==> a[..k][0] != b[..k][0];
    } else {
      LessIsDictionaryOrder(a[1..], b[1..]);
      if k: nat :| PartsAt(a[1..], b[1..], k) {
        assert a[..k + 1] == [a[0]] + a[1..][..k] && b[..k + 1] == [b[0]] + b[1..][..k];
        assert PartsAt(a, b, k + 1);
      }
      if k: nat :| PartsAt(a, b, k) {
        assert a[1..][..k - 1] == a[..k][1..] && b[1..][..k - 1] == b[..k][1..];
        assert PartsAt(a[1..], b[1..], k - 1);
      }
    }
  }

  lemma {:induction false} LessIsTotal(a: string, b: string)
    ensures Less(a, b) || a == b || Less(b, a)
  {
    if a == "" || b == "" || a[0] != b[0] {
    } else {
      LessIsTotal(a[1..], b[1..]);
      assert a == [a[0]] + a[1..] && b == [b[0]] + b[1..];
    }
  }

  lemma {:induction false} LessIsAsymmetric(a: string, b: string)
    requires Less(a, b)
    ensures !Less(b, a) && a != b
  {
    if a == "" || a[0] != b[0] {
    } else {
      LessIsAsymmetric(a[1..], b[1..]);
    }
  }

  lemma {:induction false} LessIsTransitive(a: string, b: string, c: string)
    requires Less(a, b) && Less(b, c)
    ensures Less(a, c)
  {
    if a == "" || a[0] != b[0] || b[0] != c[0] {
    } else {
      LessIsTransitive(a[1..], b[1..], c[1..]);
    }
  }

  // ----- Sorting names without repeats ----------------------------------------

  ghost predicate Distinct<T>(s: seq<T>) {
    forall i, j :: 0 <= i < j < |s| ==> s[i] != s[j]
  }

  ghost predicate Ascending(s: seq<string>) {
    forall i, j :: 0 <= i < j < |s| ==> Less(s[i], s[j])
  }

  ghost function Elements<T>(s: seq<T>): set<T> {
    set x | x in s
  }

  function Insert(x: string, s: seq<string>): seq<string> {
    if s != [] && Less(s[0], x) then [s[0]] + Insert(x, s[1..]) else [x] + s
  }

  /** `sort()` on names. */
  function Sort(s: seq<string>): seq<string> {
    if s == [] then [] else Insert(s[0], Sort(s[1..]))
  }

  lemma {:induction false} InsertKeepsOrder(x: string, s: seq<string>)
    requires Ascending(s) && x !in s
    ensures Ascending(Insert(x, s)) && Elements(Insert(x, s)) == Elements(s) + {x}
    ensures |Insert(x, s)| == |s| + 1
  {
    if s == [] {
    } else if Less(s[0], x) {
      InsertKeepsOrder(x, s[1..]);
      var rest := Insert(x, s[1..]);
      forall y | y in rest
        ensures Less(s[0], y)
      {
        assert y in Elements(rest);
        assert y == x || y in s[1..];
      }
      assert Elements([s[0]] + rest) == {s[0]} + Elements(rest);
      assert s == [s[0]] + s[1..];
    } else {
      LessIsTotal(s[0], x);
      forall y | y in s
        ensures Less(x, y)
      {
        if y != s[0] {
          LessIsTransitive(x, s[0], y);
        }
      }
    }
  }

  lemma {:induction false} SortSorts(s: seq<string>)
    requires Distinct(s)
    ensures Ascending(Sort(s)) && Elements(Sort(s)) == Elements(s) && |Sort(s)| == |s|
  {
    if s == [] {
    } else {
      SortSorts(s[1..]);
      assert s == [s[0]] + s[1..];
      assert s[0] !in Elements(Sort(s[1..]));
      InsertKeepsOrder(s[0], Sort(s[1..]));
    }
  }

  lemma AscendingIsDistinct(s: seq<string>)
    requires Ascending(s)
    ensures Distinct(s)
  {
    forall i, j | 0 <= i < j < |s|
      ensures s[i] != s[j]
    {
      LessIsAsymmetric(s[i], s[j]);
    }
  }

  /** A set of names has one ascending listing. */
  lemma {:induction false} AscendingIsUnique(s: seq<string>, t: seq<string>)
    requires Ascending(s) && Ascending(t) && Elements(s) == Elements(t)
    ensures s == t
  {
    assert t != [] ==> t[0] in Elements(t);
    if s == [] {
    } else {
      assert s[0] in Elements(t) && s[0] in t;
      assert t[0] in Elements(s) && t[0] in s;
      if s[0] != t[0] {
        assert Less(s[0], t[0]) && Less(t[0], s[0]);
        LessIsAsymmetric(s[0], t[0]);
      }
      AscendingIsDistinct(s);
      AscendingIsDistinct(t);
      assert Elements(s[1..]) == Elements(s) - {s[0]};
      assert Elements(t[1..]) == Elements(t) - {t[0]};
      AscendingIsUnique(s[1..], t[1..]);
    }
  }

  /** The elements of a set in ascending order. */
  ghost function Listing(names: set<string>): (s: seq<string>)
    ensures Ascending(s) && Elements(s) == names
  {
    if names == {} then []
    else
      var x :| x in names;
      var rest := Listing(names - {x});
      assert x !in Elements(rest);
      InsertKeepsOrder(x, rest);
      Insert(x, rest)
  }

  /** However the elements of a set are enumerated, sorting gives its listing. */
  lemma SortIsListing(s: seq<string>)
    requires Distinct(s)
    ensures Sort(s) == Listing(Elements(s))
  {
    SortSorts(s);
    AscendingIsUnique(Sort(s), Listing(Elements(s)));
  }

  // ----- sort() and dedup() together --------------------------------------------

  ghost predicate NonDescending(s: seq<string>) {
    forall i, j :: 0 <= i < j < |s| ==> s[i] == s[j] || Less(s[i], s[j])
  }

  lemma {:induction false} InsertKeepsNonDescending(x: string, s: seq<string>)
    requires NonDescending(s)
    ensures NonDescending(Insert(x, s)) && Elements(Insert(x, s)) == Elements(s) + {x}
  {
    if s == [] {
    } else if Less(s[0], x) {
      InsertKeepsNonDescending(x, s[1..]);
      var rest := Insert(x, s[1..]);
      forall y | y in rest
        ensures s[0] == y || Less(s[0], y)
      {
        assert y in Elements(rest);
        assert y == x || y in s[1..];
      }
      assert Elements([s[0]] + rest) == {s[0]} + Elements(rest);
      assert s == [s[0]] + s[1..];
    } else {
      LessIsTotal(s[0], x);
      forall y | y in s
        ensures x == y || Less(x, y)
      {
        if y != s[0] && s[0] != x {
          LessIsTransitive(x, s[0], y);
        }
      }
    }
  }

  lemma {:induction false} SortSortsAll(s: seq<string>)
    ensures NonDescending(Sort(s)) && Elements(Sort(s)) == Elements(s)
  {
    if s == [] {
    } else {
      SortSortsAll(s[1..]);
      InsertKeepsNonDescending(s[0], Sort(s[1..]));
      assert s == [s[0]] + s[1..];
    }
  }

  /** `dedup()`: drops an element equal to the one before it. */
  function Dedup(s: seq<string>): seq<string> {
    if |s| < 2 then s
    else if s[0] == s[1] then Dedup(s[1..])
    else [s[0]] + Dedup(s[1..])
  }

  lemma {:induction false} DedupStrictens(s: seq<string>)
    requires NonDescending(s)
    ensures Ascending(Dedup(s)) && Elements(Dedup(s)) == Elements(s)
  {
    if |s| < 2 {
    } else {
      DedupStrictens(s[1..]);
      var rest := Dedup(s[1..]);
      assert s == [s[0]] + s[1..] && Elements(s) == {s[0]} + Elements(s[1..]);
      if s[0] != s[1] {
        forall y | y in rest
          ensures Less(s[0], y)
        {
          assert y in Elements(s[1..]);
          var k :| 1 <= k < |s| && s[k] == y;
          if k > 1 && s[1] != s[k] {
            LessIsTransitive(s[0], s[1], s[k]);
          }
        }
        assert Elements([s[0]] + rest) == {s[0]} + Elements(rest);
      }
    }
  }

  /** Sorting and deduplicating a list gives the listing of its elements. */
  lemma SortDedupIsListing(s: seq<string>)
    ensures Dedup(Sort(s)) == Listing(Elements(s))
  {
    SortSortsAll(s);
    DedupStrictens(Sort(s));
    AscendingIsUnique(Dedup(Sort(s)), Listing(Elements(s)));
  }

  lemma DistinctConcat<T>(s: seq<T>, t: seq<T>)
    requires Distinct(s) && Distinct(t) && forall x :: x in t ==> x !in s
    ensures Distinct(s + t)
  {
    forall i, j | 0 <= i < j < |s + t|
      ensures (s + t)[i] != (s + t)[j]
    {
      if i < |s| <= j {
        assert s[i] in s && t[j - |s|] in t;
      }
    }
  }

  // ----- A stable sort ------------------------------------------------------------

  function InsertBy<T>(s: seq<T>, x: T, before: (T, T) -> bool): seq<T> {
    if s == [] || !before(x, s[|s| - 1]) then s + [x]
    else InsertBy(s[..|s| - 1], x, before) + [s[|s| - 1]]
  }

  /** `sort_by`: elements of which neither is before the other keep their order. */
  function SortBy<T>(s: seq<T>, before: (T, T) -> bool): seq<T> {
    if s == [] then [] else InsertBy(SortBy(s[..|s| - 1], before), s[|s| - 1], before)
  }

  lemma {:induction false} InsertByHolds<T>(s: seq<T>, x: T, before: (T, T) -> bool, y: T)
    ensures y in InsertBy(s, x, before) <==> y in s || y == x
  {
    if s == [] || !before(x, s[|s| - 1]) {
    } else {
      InsertByHolds(s[..|s| - 1], x, before, y);
      assert s == s[..|s| - 1] + [s[|s| - 1]];
    }
  }

  lemma {:induction false} SortByHolds<T>(s: seq<T>, before: (T, T) -> bool, y: T)
    ensures y in SortBy(s, before) <==> y in s
  {
    if s == [] {
    } else {
      SortByHolds(s[..|s| - 1], before, y);
      InsertByHolds(SortBy(s[..|s| - 1], before), s[|s| - 1], before, y);
      assert s == s[..|s| - 1] + [s[|s| - 1]];
    }
  }

  ghost predicate Sorted<T>(s: seq<T>, before: (T, T) -> bool) {
    forall i, j :: 0 <= i < j < |s| ==> !before(s[j], s[i])
  }

  /** What a comparison must be like to sort by it. */
  ghost predicate WeakOrder<T(!new)>(before: (T, T) -> bool) {
    && (forall a, b :: before(a, b) ==> !before(b, a))
    && (forall a, b, c :: !before(b, a) && !before(c, b) ==> !before(c, a))
  }

  lemma SortedSnoc<T>(s: seq<T>, x: T, before: (T, T) -> bool)
    requires Sorted(s, before) && forall l :: l in s ==> !before(x, l)
    ensures Sorted(s + [x], before)
  {
  }

  lemma {:induction false} InsertBySorts<T(!new)>(s: seq<T>, x: T, before: (T, T) -> bool)
    requires WeakOrder(before) && Sorted(s, before)
    ensures Sorted(InsertBy(s, x, before), before)
  {
    if s == [] {
    } else if before(x, s[|s| - 1]) {
      var front, last := s[..|s| - 1], s[|s| - 1];
      InsertBySorts(front, x, before);
      forall l | l in InsertBy(front, x, before)
        ensures !before(last, l)
      {
        InsertByHolds(front, x, before, l);
      }
      SortedSnoc(InsertBy(front, x, before), last, before);
    } else {
      forall l | l in s
        ensures !before(x, l)
      {
        var last := s[|s| - 1];
        assert l == last || !before(last, l);
      }
      SortedSnoc(s, x, before);
    }
  }

  lemma {:induction false} SortBySorts<T(!new)>(s: seq<T>, before: (T, T) -> bool)
    requires WeakOrder(before)
    ensures Sorted(SortBy(s, before), before)
  {
    if s == [] {
    } else {
      SortBySorts(s[..|s| - 1], before);
      InsertBySorts(SortBy(s[..|s| - 1], before), s[|s| - 1], before);
    }
  }

  lemma {:induction false} InsertByKeeps<T>(s: seq<T>, x: T, before: (T, T) -> bool)
    ensures multiset(InsertBy(s, x, before)) == multiset(s) + multiset{x}
  {
    if s == [] || !before(x, s[|s| - 1]) {
    } else {
      InsertByKeeps(s[..|s| - 1], x, before);
      assert s == s[..|s| - 1] + [s[|s| - 1]];
    }
  }

  /** Sorting keeps every element as often as it occurs. */
  lemma {:induction false} SortByKeeps<T>(s: seq<T>, before: (T, T) -> bool)
    ensures multiset(SortBy(s, before)) == multiset(s)
  {
    if s == [] {
    } else {
      SortByKeeps(s[..|s| - 1], before);
      InsertByKeeps(SortBy(s[..|s| - 1], before), s[|s| - 1], before);
      assert s == s[..|s| - 1] + [s[|s| - 1]];
    }
  }

  lemma NotLessIsTransitive(a: string, b: string, c: string)
    requires !Less(b, a) && !Less(c, b)
    ensures !Less(c, a)
  {
    LessIsTotal(a, b);
    LessIsTotal(b, c);
    if Less(a, b) && Less(b, c) {
      LessIsTransitive(a, b, c);
    }
    if Less(c, a) {
      LessIsAsymmetric(c, a);
    }
  }

  /** An ascending listing of a map's keys, as a `BTreeMap` iterates and as `sort()` leaves a queue. */
  method SortedNames(names: set<string>) returns (s: seq<string>)
    ensures s == Listing(names)
  {
    var left, found := names, [];
    while left != {}
      invariant left <= names && Distinct(found) && Elements(found) == names - left
    {
      var x :| x in left;
      assert x !in Elements(found);
      DistinctConcat(found, [x]);
      assert Elements(found + [x]) == Elements(found) + {x};
      found := found + [x];
      left := left - {x};
    }
    assert names - left == names;
    SortIsListing(found);
    s := Sort(found);
  }
}
