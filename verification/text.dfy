/** The text tests the scripts rely on through Python's str methods and its
    re module: whitespace, str.strip(), the pattern ^\s*$ and str.lower(). */
module Text {

  /** Python's str.isspace() for one character. It is the set that
      str.strip() removes and that \s matches in a str pattern. */
  predicate IsSpace(c: char)
  {
    var n := c as int;
    || 0x09 <= n <= 0x0D
    || 0x1C <= n <= 0x20
    || n == 0x85 || n == 0xA0 || n == 0x1680
    || 0x2000 <= n <= 0x200A
    || n == 0x2028 || n == 0x2029 || n == 0x202F || n == 0x205F || n == 0x3000
  }

  predicate AllSpace(s: string)
  {
    forall i | 0 <= i < |s| :: IsSpace(s[i])
  }

  /** str.lstrip() with no argument: drops the leading whitespace run. */
  function StripLeading(s: string): (r: string)
    ensures |r| <= |s| && r == s[|s| - |r|..]
    ensures forall i | 0 <= i < |s| - |r| :: IsSpace(s[i])
    ensures |r| > 0 ==> !IsSpace(r[0])
  {
    if |s| > 0 && IsSpace(s[0]) then StripLeading(s[1..]) else s
  }

  /** str.rstrip() with no argument: drops the trailing whitespace run. */
  function StripTrailing(s: string): (r: string)
    ensures |r| <= |s| && r == s[..|r|]
    ensures forall i | |r| <= i < |s| :: IsSpace(s[i])
    ensures |r| > 0 ==> !IsSpace(r[|r| - 1])
  {
    if |s| > 0 && IsSpace(s[|s| - 1]) then StripTrailing(s[..|s| - 1]) else s
  }

  /** str.strip() with no argument. What it keeps starts and ends with a
      non-whitespace character, and the result is empty exactly when `s` is
      all whitespace; StripKeepsMiddle shows that it removes only whitespace. */
  function Strip(s: string): (r: string)
    ensures |r| <= |s|
    ensures |r| > 0 ==> !IsSpace(r[0]) && !IsSpace(r[|r| - 1])
    ensures r == "" <==> AllSpace(s)
  {
    var t := StripLeading(s);
    var r := StripTrailing(t);
    assert r != "" ==> r[0] == t[0];
    assert r == "" ==> t == "";
    r
  }

  /** What str.strip() keeps is the text from the first non-whitespace
      character on, unchanged; everything before and after it is whitespace. */
  lemma StripKeepsMiddle(s: string)
    ensures var k := |s| - |StripLeading(s)|;
            && k + |Strip(s)| <= |s|
            && (forall i | 0 <= i < |Strip(s)| :: Strip(s)[i] == s[k + i])
            && (forall i | 0 <= i < k :: IsSpace(s[i]))
            && (forall i | k + |Strip(s)| <= i < |s| :: IsSpace(s[i]))
  {
    StripKeepsRest(s);
    StripDropsTrailing(s);
  }

  lemma StripKeepsRest(s: string)
    ensures var k := |s| - |StripLeading(s)|;
            && k + |Strip(s)| <= |s|
            && forall i | 0 <= i < |Strip(s)| :: Strip(s)[i] == s[k + i]
  {
    var t := StripLeading(s);
    var r := StripTrailing(t);
    var k := |s| - |t|;
    forall i | 0 <= i < |r| ensures r[i] == s[k + i] {
      assert r[i] == t[i] == s[k..][i];
    }
  }

  lemma StripDropsTrailing(s: string)
    ensures var k := |s| - |StripLeading(s)|;
            forall i | k + |Strip(s)| <= i < |s| :: IsSpace(s[i])
  {
    var t := StripLeading(s);
    var r := StripTrailing(t);
    var k := |s| - |t|;
    assert t == s[k..];
    forall i | k + |r| <= i < |s| ensures IsSpace(s[i]) {
      var j := i - k;
      assert t[j] == s[i];
      assert |r| <= j < |t|;
      assert IsSpace(t[j]);
    }
  }


  /** Whether re.search(r'^\s*$', s) finds a match: `^` anchors at the start
      and `$` matches at the end of the string or just before one final
      newline, so the whitespace run must reach one of those two places. */
  predicate MatchesBlankPattern(s: string)
  {
    || AllSpace(s)
    || (|s| > 0 && s[|s| - 1] == '\n' && AllSpace(s[..|s| - 1]))
  }

  /** The pattern ^\s*$ matches exactly the all-whitespace strings (a final
      newline is whitespace too), so it agrees with the str.strip() == '' test. */
  lemma BlankPatternIffAllSpace(s: string)
    ensures MatchesBlankPattern(s) <==> AllSpace(s)
    ensures MatchesBlankPattern(s) <==> Strip(s) == ""
  {
    if |s| > 0 && s[|s| - 1] == '\n' && AllSpace(s[..|s| - 1]) {
      assert IsSpace('\n');
      forall i | 0 <= i < |s| ensures IsSpace(s[i]) {
        if i < |s| - 1 {
          assert s[i] == s[..|s| - 1][i];
        }
      }
    }
  }

  /** str.lower() on one character, for the ASCII letters the file-name test
      looks at. */
  function LowerChar(c: char): char
  {
    if 'A' <= c <= 'Z' then (c as int + 32) as char else c
  }

  /** str.lower(): every character lower-cased, nothing added or dropped. */
  function Lower(s: string): (r: string)
    ensures |r| == |s|
    ensures forall i | 0 <= i < |s| :: r[i] == LowerChar(s[i])
  {
    if |s| == 0 then ""
    else
      var r := [LowerChar(s[0])] + Lower(s[1..]);
      assert forall i | 1 <= i < |s| :: r[i] == Lower(s[1..])[i - 1];
      r
  }

  /** str.endswith(suffix). */
  predicate EndsWith(s: string, suffix: string)
  {
    |suffix| <= |s| && s[|s| - |suffix|..] == suffix
  }
}
