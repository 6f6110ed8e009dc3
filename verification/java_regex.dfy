/** The parts of java.util.regex the plugin relies on, written out by hand:
    line terminators, the `^` and `$` anchors, a pattern whose only
    metacharacter is `.` (the final-name substitution), and
    `Matcher.find` + `appendReplacement` + `appendTail` for one match. */
module JavaRegex {
  import opened Wrappers

  /** The characters java.util.regex treats as line terminators when
      UNIX_LINES is off. */
  predicate IsLineTerminator(c: char) {
    c == '\n' || c == '\r' || c == '\U{0085}' || c == '\U{2028}' || c == '\U{2029}'
  }

  predicate NoLineTerminator(s: string) {
    forall i :: 0 <= i < |s| ==> !IsLineTerminator(s[i])
  }

  /** `^` under MULTILINE: at the start of the input or after a line
      terminator, never between `\r` and `\n`, and never at the very end of
      the input. */
  predicate LineStartAt(s: string, i: nat) {
    i < |s| &&
    (i == 0 || (IsLineTerminator(s[i - 1]) && !(s[i - 1] == '\r' && s[i] == '\n')))
  }

  /** The text that a pattern ending in `$` (MULTILINE off) must match: `$`
      also matches just before one line terminator (or `\r\n`) that ends
      the input. */
  function DollarBody(s: string): (body: string)
    ensures body == s || |body| + 1 == |s| || |body| + 2 == |s|
    ensures body == s[..|body|]
    ensures NoLineTerminator(s) ==> body == s
    ensures |body| + 1 == |s| ==> IsLineTerminator(s[|s| - 1])
    ensures |body| + 2 == |s| ==> s[|s| - 2] == '\r' && s[|s| - 1] == '\n'
    ensures |s| > 0 && IsLineTerminator(s[|s| - 1]) ==> body != s
    ensures |s| >= 2 && s[|s| - 2] == '\r' && s[|s| - 1] == '\n' ==> |body| + 2 == |s|
  {
    if |s| >= 2 && s[|s| - 2] == '\r' && s[|s| - 1] == '\n' then s[..|s| - 2]
    else if |s| >= 1 && IsLineTerminator(s[|s| - 1]) then s[..|s| - 1]
    else s
  }

  /** One pattern character against one text character: `.` matches
      anything but a line terminator; every other character matches itself. */
  predicate CharMatches(p: char, c: char) {
    if p == '.' then !IsLineTerminator(c) else p == c
  }

  /** The pattern `pat` matches the text at position `i`. */
  predicate MatchesAt(text: string, pat: string, i: nat) {
    i + |pat| <= |text| &&
    forall k :: 0 <= k < |pat| ==> CharMatches(pat[k], text[i + k])
  }

  /** `Matcher.find()` from position `from`: the leftmost match at or after
      `from`, if any. */
  function FirstMatch(text: string, pat: string, from: nat): (r: Option<nat>)
    ensures r.Some? ==> from <= r.value && MatchesAt(text, pat, r.value)
    ensures r.Some? ==> forall j: nat :: from <= j < r.value ==> !MatchesAt(text, pat, j)
    ensures r.None? ==> forall j: nat :: from <= j ==> !MatchesAt(text, pat, j)
    decreases |text| - from
  {
    if from + |pat| > |text| then None
    else if MatchesAt(text, pat, from) then Some(from)
    else FirstMatch(text, pat, from + 1)
  }

  /** `find()` once, then `appendReplacement(sb, repl)` and `appendTail(sb)`:
      the first match of `pat` is replaced by `repl`; with no match the text
      comes back unchanged. */
  function ReplaceFirst(text: string, pat: string, repl: string): (r: string)
    ensures (forall j: nat :: !MatchesAt(text, pat, j)) ==> r == text
    ensures forall i: nat :: MatchesAt(text, pat, i) && (forall j: nat :: j < i ==> !MatchesAt(text, pat, j)) ==>
              r == text[..i] + repl + text[i + |pat|..]
  {
    match FirstMatch(text, pat, 0)
    case None => text
    case Some(i) =>
      text[..i] + repl + text[i + |pat|..]
  }

  /** A pattern without `.` matches exactly where the same text occurs. */
  lemma LiteralMatch(text: string, pat: string, i: nat)
    requires forall k :: 0 <= k < |pat| ==> pat[k] != '.'
    ensures MatchesAt(text, pat, i) <==> i + |pat| <= |text| && text[i..i + |pat|] == pat
  {
    if i + |pat| <= |text| && text[i..i + |pat|] == pat {
      forall k | 0 <= k < |pat| ensures CharMatches(pat[k], text[i + k]) {
        assert text[i..i + |pat|][k] == text[i + k];
      }
    }
  }

  /** Every literal occurrence of the pattern is also a match, so the
      replaced match never lies after the first literal occurrence. */
  lemma OccurrenceIsMatch(text: string, pat: string, i: nat)
    requires i + |pat| <= |text| && text[i..i + |pat|] == pat
    ensures MatchesAt(text, pat, i)
    ensures FirstMatch(text, pat, 0).Some? && FirstMatch(text, pat, 0).value <= i
  {
    forall k | 0 <= k < |pat| ensures CharMatches(pat[k], text[i + k]) {
      assert text[i..i + |pat|][k] == text[i + k];
    }
  }

  /** The result of a replacement keeps the text before the match, holds the
      replacement, and keeps the text after the match. */
  lemma ReplaceFirstShape(text: string, pat: string, repl: string)
    ensures var m := FirstMatch(text, pat, 0);
            var r := ReplaceFirst(text, pat, repl);
            (m.None? ==> r == text) &&
            (m.Some? ==>
               |r| == |text| - |pat| + |repl| &&
               r[..m.value] == text[..m.value] &&
               r[m.value..m.value + |repl|] == repl &&
               r[m.value + |repl|..] == text[m.value + |pat|..])
  {
  }

  /** When the text is `pre + mid + post`, `mid` matches the pattern, and the
      pattern's first character is a literal absent from `pre`, the match
      replaced is `mid`. */
  lemma ReplaceAfterPrefix(text: string, pre: string, mid: string, post: string, pat: string, repl: string)
    requires text == pre + mid + post && |pat| > 0 && pat[0] != '.' && |mid| == |pat|
    requires forall k :: 0 <= k < |pre| ==> pre[k] != pat[0]
    requires forall k :: 0 <= k < |pat| ==> CharMatches(pat[k], mid[k])
    ensures ReplaceFirst(text, pat, repl) == pre + repl + post
  {
    forall j: nat | j < |pre| ensures !MatchesAt(text, pat, j) {
      assert text[j] == pre[j];
    }
    forall k | 0 <= k < |pat| ensures CharMatches(pat[k], text[|pre| + k]) {
      assert text[|pre| + k] == mid[k];
    }
    assert text[..|pre|] == pre;
    assert text[|pre| + |pat|..] == post;
  }

  /** The final-name substitution on a concrete name: the old version text
      inside the name is replaced by the new one. */
  lemma ReplaceFirstExample(name: string, oldVersion: string, newVersion: string)
    requires name == "app-1.0.0-SNAPSHOT.jar" && oldVersion == "1.0.0-SNAPSHOT" && newVersion == "1.0.1"
    ensures ReplaceFirst(name, oldVersion, newVersion) == "app-" + newVersion + ".jar"
  {
    assert forall k :: 0 <= k < |oldVersion| ==> CharMatches(oldVersion[k], oldVersion[k]);
    assert name == "app-" + oldVersion + ".jar";
    ReplaceAfterPrefix(name, "app-", oldVersion, ".jar", oldVersion, newVersion);
  }

  /** Since the old version is compiled as a pattern, each of its dots
      matches any character: `1.0` is found in `1x0`. */
  lemma DotMatchesAnyCharacter(name: string, oldVersion: string, newVersion: string)
    requires name == "app-1x0.jar" && oldVersion == "1.0" && newVersion == "2.0"
    ensures ReplaceFirst(name, oldVersion, newVersion) == "app-" + newVersion + ".jar"
  {
    assert CharMatches(oldVersion[0], '1') && CharMatches(oldVersion[1], 'x') && CharMatches(oldVersion[2], '0');
    assert name == "app-" + "1x0" + ".jar";
    ReplaceAfterPrefix(name, "app-", "1x0", ".jar", oldVersion, newVersion);
  }
}
