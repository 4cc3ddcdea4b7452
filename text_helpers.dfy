/** The `nl2br` view helper: every line break becomes one `<br>` element. */
module TextHelpers {

  import opened Strings

  predicate IsBreakChar(c: char) {
    c == '\r' || c == '\n'
  }

  predicate NoLineBreaks(s: string) {
    forall i :: 0 <= i < |s| ==> !IsBreakChar(s[i])
  }

  const Br: string := "<br>"

  /**
   * `txt.gsub(/(\r\n|\r|\n)/, '<br>')`. The scan goes left to right and the
   * alternation tries `\r\n` before `\r`, so a CR LF pair is one match.
   */
  function Nl2Br(s: string): string
    decreases |s|
  {
    if s == [] then []
    else if |s| >= 2 && s[0] == '\r' && s[1] == '\n' then Br + Nl2Br(s[2..])
    else if IsBreakChar(s[0]) then Br + Nl2Br(s[1..])
    else [s[0]] + Nl2Br(s[1..])
  }

  /**
   * The lines of `s`: the pieces between breaks, a CR LF pair being one
   * break, empty pieces kept. The empty text is one empty line.
   */
  function Lines(s: string): (r: seq<string>)
    ensures |r| >= 1
    ensures forall i :: 0 <= i < |r| ==> NoLineBreaks(r[i])
    decreases |s|
  {
    if s == [] then [[]]
    else if |s| >= 2 && s[0] == '\r' && s[1] == '\n' then [[]] + Lines(s[2..])
    else if IsBreakChar(s[0]) then [[]] + Lines(s[1..])
    else
      var rest := Lines(s[1..]);
      [[s[0]] + rest[0]] + rest[1..]
  }

  /** The result is the lines of the text joined by `<br>`: each break, CR LF included, gives exactly one. */
  lemma {:induction false} Nl2BrJoinsLines(s: string)
    ensures Nl2Br(s) == JoinWith(Lines(s), Br)
    decreases |s|
  {
    if s == [] {
    } else if |s| >= 2 && s[0] == '\r' && s[1] == '\n' {
      Nl2BrJoinsLines(s[2..]);
      assert ([[]] + Lines(s[2..]))[1..] == Lines(s[2..]);
    } else if IsBreakChar(s[0]) {
      Nl2BrJoinsLines(s[1..]);
      assert ([[]] + Lines(s[1..]))[1..] == Lines(s[1..]);
    } else {
      Nl2BrJoinsLines(s[1..]);
      JoinWithPrepend(s[0], Lines(s[1..]), Br);
    }
  }

  /** No CR or LF is left in the result. */
  lemma {:induction false} Nl2BrRemovesBreaks(s: string)
    ensures NoLineBreaks(Nl2Br(s))
    decreases |s|
  {
    if s == [] {
    } else if |s| >= 2 && s[0] == '\r' && s[1] == '\n' {
      Nl2BrRemovesBreaks(s[2..]);
      AppendNoBreaks(Br, Nl2Br(s[2..]));
    } else if IsBreakChar(s[0]) {
      Nl2BrRemovesBreaks(s[1..]);
      AppendNoBreaks(Br, Nl2Br(s[1..]));
    } else {
      Nl2BrRemovesBreaks(s[1..]);
      AppendNoBreaks([s[0]], Nl2Br(s[1..]));
    }
  }

  lemma AppendNoBreaks(a: string, b: string)
    requires NoLineBreaks(a) && NoLineBreaks(b)
    ensures NoLineBreaks(a + b)
  {
    forall i | 0 <= i < |a + b| ensures !IsBreakChar((a + b)[i]) {
      if i >= |a| { assert (a + b)[i] == b[i - |a|]; }
    }
  }

  /** The text comes back unchanged exactly when it has no line break. */
  lemma {:induction false} Nl2BrUnchangedIff(s: string)
    ensures Nl2Br(s) == s <==> NoLineBreaks(s)
    decreases |s|
  {
    Nl2BrRemovesBreaks(s);
    if NoLineBreaks(s) && s != [] {
      assert NoLineBreaks(s[1..]) by {
        forall i | 0 <= i < |s[1..]| ensures !IsBreakChar(s[1..][i]) { assert s[1..][i] == s[i + 1]; }
      }
      Nl2BrUnchangedIff(s[1..]);
      assert !IsBreakChar(s[0]);
      assert s == [s[0]] + s[1..];
    }
  }

  lemma Nl2BrExample()
    ensures Nl2Br("a\r\nb\rc\nd") == "a<br>b<br>c<br>d"
    ensures Nl2Br("\n\r") == "<br><br>"
  {
    var s := "a\r\nb\rc\nd";
    assert s[1..][2..] == "b\rc\nd";
    assert s[1..][2..][1..][1..] == "c\nd";
    assert s[1..][2..][1..][1..][1..][1..] == "d";
    var t := "\n\r";
    assert t[1..][1..] == [];
  }
}
