/** Character classes and substring tests used by the helpers and by the build pipeline. */
module Strings {

  import opened Wrappers

  /** Ruby's `\w` on a String without the Unicode flag: `[a-zA-Z0-9_]`. */
  predicate IsWordChar(c: char) {
    ('a' <= c <= 'z') || ('A' <= c <= 'Z') || ('0' <= c <= '9') || c == '_'
  }

  predicate StartsWith(s: string, prefix: string) {
    prefix <= s
  }

  predicate EndsWith(s: string, suffix: string) {
    |suffix| <= |s| && s[|s| - |suffix|..] == suffix
  }

  /** `s[sub]` is truthy in Ruby: `sub` occurs somewhere in `s`. */
  predicate Contains(s: string, sub: string)
    decreases |s|
  {
    StartsWith(s, sub) || (s != [] && Contains(s[1..], sub))
  }

  /** An occurrence in a suffix is an occurrence in the whole string. */
  lemma {:induction false} ContainsInSuffix(a: string, b: string, sub: string)
    requires Contains(b, sub)
    ensures Contains(a + b, sub)
  {
    if a == [] {
      assert a + b == b;
    } else {
      assert (a + b)[1..] == a[1..] + b;
      ContainsInSuffix(a[1..], b, sub);
    }
  }

  /** An occurrence uses up characters of `s`: every character of `sub` occurs in `s` at least as often. */
  lemma {:induction false} ContainsCount(s: string, sub: string)
    requires Contains(s, sub)
    ensures multiset(sub) <= multiset(s)
    decreases |s|
  {
    if StartsWith(s, sub) {
      assert s == sub + s[|sub|..];
    } else {
      ContainsCount(s[1..], sub);
      assert s == [s[0]] + s[1..];
    }
  }

  /** `sub` cannot occur in a string that has fewer copies of one of its characters. */
  lemma TooFewOf(s: string, sub: string, c: char)
    requires multiset(s)[c] < multiset(sub)[c]
    ensures !Contains(s, sub)
  {
    if Contains(s, sub) {
      ContainsCount(s, sub);
      assert false;
    }
  }

  /** `sub` cannot occur in a string that lacks one of its characters. */
  lemma MissingChar(s: string, sub: string, i: int)
    requires 0 <= i < |sub| && sub[i] !in s
    ensures !Contains(s, sub)
  {
    assert sub[i] in multiset(sub);
    TooFewOf(s, sub, sub[i]);
  }

  /** The part of `s` before the first `c`, or all of `s` if there is none. */
  function Before(s: string, c: char): (r: string)
    ensures r <= s && c !in r
    ensures c in s ==> |r| < |s| && s[|r|] == c
    ensures c !in s ==> r == s
  {
    if s == [] then []
    else if s[0] == c then []
    else [s[0]] + Before(s[1..], c)
  }

  /** The part of `s` after the first `c`, or `None` if `s` has none. */
  function After(s: string, c: char): (r: Option<string>)
    ensures c !in s <==> r.None?
    ensures r.Some? ==> s == Before(s, c) + [c] + r.value
  {
    if s == [] then None
    else if s[0] == c then Some(s[1..])
    else match After(s[1..], c)
      case None => None
      case Some(t) => Some(t)
  }

  /** `parts.join(sep)`. */
  function JoinWith(parts: seq<string>, sep: string): string
  {
    if parts == [] then ""
    else if |parts| == 1 then parts[0]
    else parts[0] + sep + JoinWith(parts[1..], sep)
  }

  /** A character put in front of the first part goes in front of the joined string. */
  lemma JoinWithPrepend(c: char, parts: seq<string>, sep: string)
    requires parts != []
    ensures JoinWith([[c] + parts[0]] + parts[1..], sep) == [c] + JoinWith(parts, sep)
  {
    var q := [[c] + parts[0]] + parts[1..];
    assert q[1..] == parts[1..];
  }
}
