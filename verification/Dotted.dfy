/** Dotted names: `split('.')`, `join(".")` and dot-suffixes. */
module Dotted {

  /** `s.split('.')`; never empty. */
  function Split(s: string): (r: seq<string>)
    ensures r != []
    ensures forall i :: 0 <= i < |r| ==> '.' !in r[i]
  {
    if s == "" then [""]
    else if s[0] == '.' then [""] + Split(s[1..])
    else
      var rest := Split(s[1..]);
      [[s[0]] + rest[0]] + rest[1..]
  }

  /** `segments.join(".")` */
  function Join(segments: seq<string>): string {
    if segments == [] then ""
    else if |segments| == 1 then segments[0]
    else segments[0] + "." + Join(segments[1..])
  }

  lemma {:induction false} JoinInvertsSplit(s: string)
    ensures Join(Split(s)) == s
  {
    if s == "" {
    } else {
      JoinInvertsSplit(s[1..]);
      var rest := Split(s[1..]);
      if s[0] == '.' {
        assert Split(s)[1..] == rest;
      } else {
        assert Split(s)[1..] == rest[1..];
        if |rest| > 1 {
          assert [s[0]] + (rest[0] + "." + Join(rest[1..])) == ([s[0]] + rest[0]) + "." + Join(rest[1..]);
        }
      }
    }
  }

  lemma {:induction false} SplitInvertsJoin(segments: seq<string>)
    requires segments != [] && forall i :: 0 <= i < |segments| ==> '.' !in segments[i]
    ensures Split(Join(segments)) == segments
    decreases |segments|, |segments[0]|
  {
    var head, tail := segments[0], segments[1..];
    if head == "" && tail == [] {
    } else if head != "" {
      var shorter := [head[1..]] + tail;
      assert Join(segments)[1..] == Join(shorter) by {
        assert shorter[1..] == tail;
      }
      SplitInvertsJoin(shorter);
      assert head == [head[0]] + head[1..];
    } else {
      assert Join(segments) == "." + Join(tail);
      SplitInvertsJoin(tail);
    }
  }

  lemma {:induction false} JoinConcat(a: seq<string>, b: seq<string>)
    requires a != [] && b != []
    ensures Join(a + b) == Join(a) + "." + Join(b)
  {
    assert (a + b)[1..] == a[1..] + b;
    if |a| > 1 {
      JoinConcat(a[1..], b);
      assert a[0] + "." + (Join(a[1..]) + "." + Join(b)) == (a[0] + "." + Join(a[1..])) + "." + Join(b);
    } else {
      assert a[1..] + b == b;
    }
  }

  /** Joining two names with a dot joins their segments. */
  lemma SplitConcat(a: string, b: string)
    ensures Split(a + "." + b) == Split(a) + Split(b)
  {
    JoinInvertsSplit(a);
    JoinInvertsSplit(b);
    JoinConcat(Split(a), Split(b));
    SplitInvertsJoin(Split(a) + Split(b));
  }

  predicate EndsWith(s: string, suffix: string) {
    |suffix| <= |s| && s[|s| - |suffix|..] == suffix
  }

  /** `s` is `suffix`, or ends in a dot followed by `suffix`. */
  predicate DotEndsWith(s: string, suffix: string) {
    s == suffix || EndsWith(s, "." + suffix)
  }

  lemma EndsWithIsTransitive(a: string, b: string, c: string)
    requires EndsWith(a, b) && EndsWith(b, c)
    ensures EndsWith(a, c)
  {
    assert a[|a| - |c|..] == a[|a| - |b|..][|b| - |c|..];
  }

  lemma EndsWithAfter(p: string, s: string)
    ensures EndsWith(p + s, s)
  {
  }

  lemma DotEndsWithIsTransitive(a: string, b: string, c: string)
    requires DotEndsWith(a, b) && DotEndsWith(b, c)
    ensures DotEndsWith(a, c)
  {
    if a != b && b != c {
      EndsWithAfter(".", b);
      EndsWithIsTransitive("." + b, b, "." + c);
      EndsWithIsTransitive(a, "." + b, "." + c);
    }
  }

  lemma RestIsDotSuffix(segments: seq<string>)
    requires |segments| > 1
    ensures DotEndsWith(Join(segments), Join(segments[1..]))
  {
    var rest := "." + Join(segments[1..]);
    assert Join(segments) == segments[0] + rest;
    EndsWithAfter(segments[0], rest);
  }

  /** Dropping leading segments leaves a dot-suffix. */
  lemma {:induction false} JoinedTailIsDotSuffix(segments: seq<string>, start: nat)
    requires start < |segments|
    ensures DotEndsWith(Join(segments), Join(segments[start..]))
  {
    if start == 0 {
      assert segments[0..] == segments;
    } else {
      var rest := segments[1..];
      assert rest[start - 1..] == segments[start..];
      RestIsDotSuffix(segments);
      JoinedTailIsDotSuffix(rest, start - 1);
      DotEndsWithIsTransitive(Join(segments), Join(rest), Join(segments[start..]));
    }
  }

  ghost predicate IsTail<T>(s: seq<T>, t: seq<T>) {
    |t| <= |s| && s[|s| - |t|..] == t
  }

  lemma DotSuffixIsTail(s: string, suffix: string)
    requires DotEndsWith(s, suffix)
    ensures IsTail(Split(s), Split(suffix))
  {
    if s != suffix {
      var front := s[..|s| - |suffix| - 1];
      assert s == front + ("." + suffix) == front + "." + suffix;
      SplitConcat(front, suffix);
    }
  }

  lemma TailIsDotSuffix(s: string, suffix: string)
    requires IsTail(Split(s), Split(suffix))
    ensures DotEndsWith(s, suffix)
  {
    JoinInvertsSplit(s);
    JoinInvertsSplit(suffix);
    JoinedTailIsDotSuffix(Split(s), |Split(s)| - |Split(suffix)|);
  }

  /** Ending in a dotted suffix is a matter of whole segments. */
  lemma DotEndsWithIsByTail(s: string, suffix: string)
    ensures DotEndsWith(s, suffix) <==> IsTail(Split(s), Split(suffix))
  {
    if DotEndsWith(s, suffix) {
      DotSuffixIsTail(s, suffix);
    }
    if IsTail(Split(s), Split(suffix)) {
      TailIsDotSuffix(s, suffix);
    }
  }

  /** `rsplit('.').next()` */
  function LastSegment(path: string): string {
    var segments := Split(path);
    segments[|segments| - 1]
  }

  lemma {:induction false} SplitOfSegment(s: string)
    requires '.' !in s
    ensures Split(s) == [s]
  {
    if s == "" {
    } else {
      SplitOfSegment(s[1..]);
      assert s == [s[0]] + s[1..];
    }
  }

  /** The last segment is the one dotted suffix without a dot. */
  lemma LastSegmentIs(path: string, name: string)
    ensures name == LastSegment(path) <==> '.' !in name && DotEndsWith(path, name)
  {
    var segments := Split(path);
    assert '.' !in segments[|segments| - 1];
    if '.' !in name {
      SplitOfSegment(name);
      DotEndsWithIsByTail(path, name);
      assert segments[|segments| - 1..] == [segments[|segments| - 1]];
    }
  }
}
