/** Two concrete instances of the abstract regular-expression engine, for the
    patterns whose meaning the core depends on:

    - `\w+`, the pattern of util/text/PatternProcessor_test.go;
    - `(?P<word>\w+)|(?P<sign>\W)`, the tokeniser of the profile matcher in
      env/Environment.go: every maximal run of word characters is one hit,
      every other character is a hit of its own.

    Both scan left to right and never overlap, as Go's leftmost-first engine
    does for these patterns. */
module WordScan {
  import opened Strings
  import opened Regex

  /** The end of the run of word characters that starts at `i`. */
  function RunEnd(s: string, i: nat): (j: nat)
    requires i <= |s|
    ensures i <= j <= |s|
    ensures forall k :: i <= k < j ==> IsWordChar(s[k])
    ensures j < |s| ==> !IsWordChar(s[j])
    decreases |s| - i
  {
    if i < |s| && IsWordChar(s[i]) then RunEnd(s, i + 1) else i
  }

  /** The hits of `\w+` in `s` at or after position `i`. */
  function WordRunsFrom(s: string, i: nat): (ms: seq<seq<int>>)
    requires i <= |s|
    ensures ValidScan([""], s, ms)
    ensures forall k :: 0 <= k < |ms| ==> i <= ms[k][0] < ms[k][1]
    decreases |s| - i
  {
    if i == |s| then []
    else if IsWordChar(s[i]) then
      var j := RunEnd(s, i);
      var hit := [i, j];
      assert GroupInBounds(s, hit, 0);
      [hit] + WordRunsFrom(s, j)
    else WordRunsFrom(s, i + 1)
  }

  /** `\w+`, as a compiled expression with no named groups. */
  function WordRegexp(): Regexp {
    Regexp([""], s => WordRunsFrom(s, 0))
  }

  /** The hits of `(?P<word>\w+)|(?P<sign>\W)` in `s` at or after `i`. */
  function WordSignFrom(s: string, i: nat): (ms: seq<seq<int>>)
    requires i <= |s|
    ensures ValidScan(["", "word", "sign"], s, ms)
    ensures forall k :: 0 <= k < |ms| ==> i <= ms[k][0] < ms[k][1]
    decreases |s| - i
  {
    if i == |s| then []
    else if IsWordChar(s[i]) then
      var j := RunEnd(s, i);
      var hit := [i, j, i, j, -1, -1];
      assert GroupInBounds(s, hit, 0) && GroupInBounds(s, hit, 1) && GroupInBounds(s, hit, 2);
      [hit] + WordSignFrom(s, j)
    else
      var hit := [i, i + 1, -1, -1, i, i + 1];
      assert GroupInBounds(s, hit, 0) && GroupInBounds(s, hit, 1) && GroupInBounds(s, hit, 2);
      [hit] + WordSignFrom(s, i + 1)
  }

  /** `(?P<word>\w+)|(?P<sign>\W)`, with groups `word` (1) and `sign` (2). */
  function WordSignRegexp(): Regexp {
    Regexp(["", "word", "sign"], s => WordSignFrom(s, 0))
  }

  /** Both scanners have the shape the template processor relies on. */
  lemma ScannersAreValid()
    ensures ValidRegexp(WordRegexp())
    ensures ValidRegexp(WordSignRegexp())
  {
  }
}
