/** The part of java.lang.String the services use: trim() followed by isEmpty(). */
module JavaString {

  /** String.trim() removes every leading and trailing character whose code is at most U+0020. */
  predicate IsTrimmed(c: char) {
    c <= ' '
  }

  /** The first loop of trim(): the length of the run of leading characters it removes. */
  function LeadingRun(s: string): (n: nat)
    ensures n <= |s|
    ensures forall i :: 0 <= i < n ==> IsTrimmed(s[i])
    ensures n == |s| || !IsTrimmed(s[n])
  {
    if s == [] || !IsTrimmed(s[0]) then 0
    else
      assert forall i :: 1 <= i < |s| ==> s[i] == s[1..][i - 1];
      1 + LeadingRun(s[1..])
  }

  /** The second loop of trim(): the length of the run of trailing characters it removes. */
  function TrailingRun(s: string): (n: nat)
    ensures n <= |s|
    ensures forall i :: |s| - n <= i < |s| ==> IsTrimmed(s[i])
    ensures n == |s| || !IsTrimmed(s[|s| - n - 1])
  {
    if s == [] || !IsTrimmed(s[|s| - 1]) then 0
    else
      assert forall i :: 0 <= i < |s| - 1 ==> s[i] == s[..|s| - 1][i];
      1 + TrailingRun(s[..|s| - 1])
  }

  /** Drops the leading characters trim() removes. */
  function TrimStart(s: string): (r: string)
    ensures |r| <= |s| && r == s[|s| - |r|..]
    ensures forall i :: 0 <= i < |s| - |r| ==> IsTrimmed(s[i])
    ensures r == [] || !IsTrimmed(r[0])
  {
    s[LeadingRun(s)..]
  }

  /** Drops the trailing characters trim() removes. */
  function TrimEnd(s: string): (r: string)
    ensures |r| <= |s| && r == s[..|r|]
    ensures forall i :: |r| <= i < |s| ==> IsTrimmed(s[i])
    ensures r == [] || !IsTrimmed(r[|r| - 1])
  {
    s[..|s| - TrailingRun(s)]
  }

  /** String.trim(): s without its leading and its trailing trimmed characters. */
  function Trim(s: string): (r: string)
    ensures var a := |s| - |TrimStart(s)|;
            a + |r| <= |s| && r == s[a..a + |r|]
            && (forall i :: 0 <= i < a ==> IsTrimmed(s[i]))
            && (forall i :: a + |r| <= i < |s| ==> IsTrimmed(s[i]))
    ensures r == [] || (!IsTrimmed(r[0]) && !IsTrimmed(r[|r| - 1]))
  {
    TrimEnd(TrimStart(s))
  }

  /**
   * name.trim().isEmpty(), the blankness test of every service method. A name is blank exactly
   * when dropping its leading trimmed characters already leaves nothing: the trailing pass of
   * trim() cannot empty a string that starts with a kept character.
   */
  predicate IsBlank(s: string): (b: bool)
    ensures b <==> |TrimStart(s)| == 0
  {
    |Trim(s)| == 0
  }

  /** A string is blank exactly when every one of its characters is one trim() removes. */
  lemma BlankIffAllTrimmed(s: string)
    ensures IsBlank(s) <==> forall i :: 0 <= i < |s| ==> IsTrimmed(s[i])
  {
  }
}
