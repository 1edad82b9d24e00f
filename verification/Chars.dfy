/** Character classes and the few `str` helpers the modelled code shares. */
module Chars {

  /** `char::is_whitespace`: the Unicode property White_Space. */
  predicate IsWhitespace(c: char) {
    || '\U{9}' <= c <= '\U{D}' || c == ' ' || c == '\U{85}' || c == '\U{A0}' || c == '\U{1680}'
    || '\U{2000}' <= c <= '\U{200A}' || c == '\U{2028}' || c == '\U{2029}' || c == '\U{202F}'
    || c == '\U{205F}' || c == '\U{3000}'
  }

  predicate IsAsciiAlphanumeric(c: char) {
    '0' <= c <= '9' || 'a' <= c <= 'z' || 'A' <= c <= 'Z'
  }

  /** What the modelled code relies on in `char::is_alphanumeric`, for one character. */
  predicate PlausibleAt(f: char -> bool, c: char) {
    (IsAsciiAlphanumeric(c) ==> f(c)) && (f(c) ==> !IsWhitespace(c) && c !in "_.+-*/(),<>=")
  }

  ghost predicate PlausibleTable(f: char -> bool) {
    forall c: char {:trigger PlausibleAt(f, c)} :: PlausibleAt(f, c)
  }

  /** The Unicode table behind `char::is_alphanumeric`; every result holds for any plausible one. */
  type AlnumTable = f: char -> bool | PlausibleTable(f) witness c => IsAsciiAlphanumeric(c)

  /** The length of the longest prefix of `s` made of characters in the class. */
  function RunLength(s: string, inClass: char -> bool): (k: nat)
    ensures k <= |s|
    ensures forall i :: 0 <= i < k ==> inClass(s[i])
    ensures k < |s| ==> !inClass(s[k])
  {
    if s == "" || !inClass(s[0]) then 0 else 1 + RunLength(s[1..], inClass)
  }

  lemma RunLengthIs(s: string, inClass: char -> bool, k: nat)
    requires k <= |s| && (forall i :: 0 <= i < k ==> inClass(s[i])) && (k < |s| ==> !inClass(s[k]))
    ensures RunLength(s, inClass) == k
  {
  }

  function TrimStart(s: string): (r: string)
    ensures r != "" ==> !IsWhitespace(r[0])
  {
    if s != "" && IsWhitespace(s[0]) then TrimStart(s[1..]) else s
  }

  function TrimEnd(s: string): (r: string)
    ensures r <= s && (r != "" ==> !IsWhitespace(r[|r| - 1]))
  {
    if s != "" && IsWhitespace(s[|s| - 1]) then TrimEnd(s[..|s| - 1]) else s
  }

  /** `str::trim` */
  function Trim(s: string): string {
    TrimEnd(TrimStart(s))
  }

  // ----- Trimming --------------------------------------------------------------

  predicate Trimmed(s: string) {
    s != "" ==> !IsWhitespace(s[0]) && !IsWhitespace(s[|s| - 1])
  }

  predicate Blank(s: string) {
    forall i :: 0 <= i < |s| ==> IsWhitespace(s[i])
  }

  lemma {:induction false} TrimStartSkips(blank: string, s: string)
    requires Blank(blank)
    ensures TrimStart(blank + s) == TrimStart(s)
  {
    if blank == "" {
      assert blank + s == s;
    } else {
      assert (blank + s)[1..] == blank[1..] + s;
      TrimStartSkips(blank[1..], s);
    }
  }

  lemma TrimOfTrimmed(blank: string, s: string)
    requires Blank(blank) && Trimmed(s)
    ensures Trim(blank + s) == s
  {
    TrimStartSkips(blank, s);
  }

  lemma {:induction false} TrimStartIsSuffix(s: string)
    ensures |TrimStart(s)| <= |s| && TrimStart(s) == s[|s| - |TrimStart(s)|..]
  {
    if s == "" || !IsWhitespace(s[0]) {
    } else {
      TrimStartIsSuffix(s[1..]);
    }
  }

  lemma TrimTrims(s: string)
    ensures Trimmed(Trim(s))
    ensures forall c :: c in Trim(s) ==> c in s
  {
    TrimStartIsSuffix(s);
    var t := TrimEnd(TrimStart(s));
    if t != "" {
      assert t[0] == TrimStart(s)[0];
    }
  }

  lemma {:induction false} TrimStartSnoc(s: string, c: char)
    requires IsWhitespace(c)
    ensures TrimEnd(TrimStart(s + [c])) == TrimEnd(TrimStart(s))
  {
    if s == "" {
      assert s + [c] == [c];
      assert TrimStart([c]) == TrimStart([c][1..]) == "";
    } else if IsWhitespace(s[0]) {
      assert (s + [c])[1..] == s[1..] + [c];
      TrimStartSnoc(s[1..], c);
    } else {
      assert (s + [c])[..|s|] == s;
    }
  }

  lemma {:induction false} TrimEndIsPrefix(s: string)
    ensures Blank(s[|TrimEnd(s)|..])
  {
    if s == "" || !IsWhitespace(s[|s| - 1]) {
    } else {
      TrimEndIsPrefix(s[..|s| - 1]);
    }
  }

  lemma {:induction false} TrimStartDropsBlanks(s: string)
    ensures |TrimStart(s)| <= |s| && Blank(s[..|s| - |TrimStart(s)|])
  {
    if s == "" || !IsWhitespace(s[0]) {
    } else {
      TrimStartDropsBlanks(s[1..]);
    }
  }

  /** Trimming takes off blanks at both ends and nothing else. */
  lemma TrimTakesBlanks(s: string) returns (front: string, back: string)
    ensures s == front + Trim(s) + back && Blank(front) && Blank(back) && Trimmed(Trim(s))
  {
    var t := TrimStart(s);
    TrimStartIsSuffix(s);
    TrimStartDropsBlanks(s);
    TrimEndIsPrefix(t);
    TrimTrims(s);
    front, back := s[..|s| - |t|], t[|Trim(s)|..];
    assert t == Trim(s) + back && s == front + t;
  }
}
