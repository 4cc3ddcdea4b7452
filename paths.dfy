/**
 * Slash-separated path strings and their component form. A path string is
 * split at every '/'; dropping the empty parts gives the components the
 * filesystem resolves (so "a//b/" and "a/b" name the same entry).
 */
module Paths {

  import opened Strings

  const Sep: char := '/'

  predicate ValidName(n: string) {
    n != "" && Sep !in n
  }

  predicate ValidPath(p: seq<string>) {
    forall i :: 0 <= i < |p| ==> ValidName(p[i])
  }

  /** Every part between separators, empty parts included; the empty string is one empty part. */
  function Split(s: string): (r: seq<string>)
    ensures |r| >= 1
    ensures forall i :: 0 <= i < |r| ==> Sep !in r[i]
  {
    if s == [] then [[]]
    else
      var rest := Split(s[1..]);
      if s[0] == Sep then [[]] + rest
      else [[s[0]] + rest[0]] + rest[1..]
  }

  /** The parts separated by single slashes (`parts.join('/')`). */
  function Join(parts: seq<string>): string
  {
    JoinWith(parts, [Sep])
  }

  function NonEmpty(parts: seq<string>): (r: seq<string>)
    ensures |r| <= |parts|
    ensures forall i :: 0 <= i < |r| ==> r[i] != ""
    ensures forall x :: x in r <==> x in parts && x != ""
  {
    if parts == [] then []
    else if parts[0] == "" then NonEmpty(parts[1..])
    else [parts[0]] + NonEmpty(parts[1..])
  }

  /** The components a path string resolves to. */
  function Components(s: string): (r: seq<string>)
    ensures ValidPath(r)
  {
    var parts := Split(s);
    var r := NonEmpty(parts);
    assert forall i :: 0 <= i < |r| ==> r[i] in parts;
    r
  }

  lemma {:induction false} SplitNoSep(s: string)
    requires Sep !in s
    ensures Split(s) == [s]
  {
    if s != [] {
      SplitNoSep(s[1..]);
      assert [s[0]] + s[1..] == s;
    }
  }

  /** Splitting distributes over a separator. */
  lemma {:induction false} SplitAround(a: string, b: string)
    ensures Split(a + [Sep] + b) == Split(a) + Split(b)
  {
    var s := a + [Sep] + b;
    if a == [] {
      assert s == [Sep] + b;
      SplitCons(Sep, b);
    } else {
      assert s == [a[0]] + (a[1..] + [Sep] + b);
      assert a == [a[0]] + a[1..];
      SplitAround(a[1..], b);
      SplitCons(a[0], a[1..]);
      SplitCons(a[0], a[1..] + [Sep] + b);
    }
  }

  /** One step of `Split`: a separator starts a new part, any other character joins the first part. */
  lemma SplitCons(c: char, s: string)
    ensures Split([c] + s) == if c == Sep then [[]] + Split(s) else [[c] + Split(s)[0]] + Split(s)[1..]
  {
    assert ([c] + s)[1..] == s;
  }

  lemma {:induction false} NonEmptyConcat(a: seq<string>, b: seq<string>)
    ensures NonEmpty(a + b) == NonEmpty(a) + NonEmpty(b)
  {
    if a != [] {
      assert (a + b)[1..] == a[1..] + b;
      NonEmptyConcat(a[1..], b);
    } else {
      assert a + b == b;
    }
  }

  lemma ComponentsAround(a: string, b: string)
    ensures Components(a + [Sep] + b) == Components(a) + Components(b)
  {
    SplitAround(a, b);
    NonEmptyConcat(Split(a), Split(b));
  }

  lemma ComponentsOfName(n: string)
    requires ValidName(n)
    ensures Components(n) == [n]
  {
    SplitNoSep(n);
  }

  /** Components of a joined valid path are that path: the string form loses nothing. */
  lemma {:induction false} ComponentsJoin(p: seq<string>)
    requires ValidPath(p)
    ensures Components(Join(p)) == p
  {
    if p == [] {
    } else if |p| == 1 {
      ComponentsOfName(p[0]);
    } else {
      ComponentsAround(p[0], Join(p[1..]));
      ComponentsOfName(p[0]);
      ComponentsJoin(p[1..]);
      assert p == [p[0]] + p[1..];
    }
  }

  /** A string appended to the joined path lengthens its last component. */
  lemma {:induction false} JoinAppendLast(p: seq<string>, x: string)
    requires |p| >= 1
    ensures Join(p) + x == Join(p[..|p| - 1] + [p[|p| - 1] + x])
  {
    if |p| > 1 {
      var q := p[..|p| - 1] + [p[|p| - 1] + x];
      JoinAppendLast(p[1..], x);
      assert q[0] == p[0];
      assert q[1..] == p[1..][..|p[1..]| - 1] + [p[1..][|p[1..]| - 1] + x];
    }
  }
}
