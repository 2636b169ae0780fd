/**
 * Whitespace trimming as used on heading and anchor texts
 * (`String.prototype.trim`), over a fixed whitespace set.
 */
module Text {

  /** The characters `trim` removes: the ASCII blanks and line breaks,
      no-break space, byte-order mark, and the two Unicode line/paragraph separators. */
  predicate IsWhitespace(c: char) {
    c == ' ' || c == '\t' || c == '\n' || c == '\r' || c == '\U{000B}' || c == '\U{000C}'
    || c == '\U{00A0}' || c == '\U{FEFF}' || c == '\U{2028}' || c == '\U{2029}'
  }

  /** A string that neither starts nor ends with whitespace. */
  predicate IsTrimmed(s: string) {
    |s| == 0 || (!IsWhitespace(s[0]) && !IsWhitespace(s[|s| - 1]))
  }

  /** Everything in `s` outside the window `s[start..start + n]` is whitespace. */
  predicate BlankMargins(s: string, start: int, n: int) {
    && 0 <= start
    && 0 <= n
    && start + n <= |s|
    && (forall i :: 0 <= i < start ==> IsWhitespace(s[i]))
    && (forall i :: start + n <= i < |s| ==> IsWhitespace(s[i]))
  }

  /** Drops leading whitespace: the result is the suffix after the leading blanks. */
  function TrimStart(s: string): (r: string)
    ensures |r| <= |s| && r == s[|s| - |r|..]
    ensures BlankMargins(s, |s| - |r|, |r|)
    ensures |r| == 0 || !IsWhitespace(r[0])
  {
    if |s| > 0 && IsWhitespace(s[0]) then
      var r := TrimStart(s[1..]);
      assert forall i :: 1 <= i < |s| - |r| ==> s[i] == s[1..][i - 1];
      r
    else
      s
  }

  /** Drops trailing whitespace: the result is the prefix before the trailing blanks. */
  function TrimEnd(s: string): (r: string)
    ensures |r| <= |s| && r == s[..|r|]
    ensures BlankMargins(s, 0, |r|)
    ensures |r| == 0 || !IsWhitespace(r[|r| - 1])
  {
    if |s| > 0 && IsWhitespace(s[|s| - 1]) then
      var r := TrimEnd(s[..|s| - 1]);
      assert forall i :: |r| <= i < |s| - 1 ==> s[i] == s[..|s| - 1][i];
      r
    else
      s
  }

  /** `trim`: the result carries no outer whitespace and is a window of `s`
      with only whitespace around it. */
  function Trim(s: string): (r: string)
    ensures IsTrimmed(r)
    ensures exists start :: BlankMargins(s, start, |r|) && s[start..start + |r|] == r
  {
    var tail := TrimStart(s);
    var r := TrimEnd(tail);
    var start := |s| - |tail|;
    assert |r| > 0 ==> r[0] == tail[0];
    assert forall i :: start + |r| <= i < |s| ==> s[i] == tail[i - start];
    assert s[start..start + |r|] == tail[..|r|];
    assert BlankMargins(s, start, |r|);
    r
  }

  /** The trimmed string is unique: any window with only whitespace around it
      and no whitespace at its ends is exactly what `Trim` returns. */
  lemma TrimUnique(s: string, start: int, n: int)
    requires BlankMargins(s, start, n)
    requires IsTrimmed(s[start..start + n])
    ensures Trim(s) == s[start..start + n]
  {
  }

  /** A string without outer whitespace is left unchanged. */
  lemma TrimOfTrimmed(s: string)
    requires IsTrimmed(s)
    ensures Trim(s) == s
  {
  }

  /** Trimming twice is trimming once. */
  lemma TrimIdempotent(s: string)
    ensures Trim(Trim(s)) == Trim(s)
  {
  }
}
