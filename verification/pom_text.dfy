/** The text side of `CreateXMLMojo.updatePOM`: the pom file is read line by
    line (`BufferedReader.readLine`, each line re-terminated by `\n`), the
    first indented `<version>` line is found with the MULTILINE pattern
    `^(?<lead>[ ]{n}<version>)(?<text>[^<]*)(?<tail></version>[ ]*\n)`, and
    only the `text` group is replaced by the new project version. */
module PomText {
  import opened Wrappers
  import opened Errors
  import opened JavaRegex

  /** The pom file on disk, as the characters it holds. */
  class PomFile {
    var content: string

    constructor (content: string)
      ensures this.content == content
    {
      this.content := content;
    }
  }

  // ---------------------------------------------------------------------
  // Reading the file

  /** The characters `BufferedReader.readLine` ends a line on. */
  predicate IsBreak(c: char) { c == '\n' || c == '\r' }

  /** End of the line that starts at `i`: the first `\n` or `\r` at or after
      `i`, or the end of the input. */
  function LineEnd(raw: string, i: nat): (e: nat)
    requires i <= |raw|
    ensures i <= e <= |raw|
    ensures forall k :: i <= k < e ==> !IsBreak(raw[k])
    ensures e < |raw| ==> IsBreak(raw[e])
    decreases |raw| - i
  {
    if i == |raw| || IsBreak(raw[i]) then i else LineEnd(raw, i + 1)
  }

  /** Where the next line starts after a line ending at `e`: `\r\n` counts
      as one terminator. */
  function NextLine(raw: string, e: nat): (j: nat)
    requires e <= |raw|
    ensures e < j <= |raw| || (e == j == |raw|)
    ensures e < |raw| && raw[e] == '\r' && e + 1 < |raw| && raw[e + 1] == '\n' ==> j == e + 2
    ensures e < |raw| && !(raw[e] == '\r' && e + 1 < |raw| && raw[e + 1] == '\n') ==> j == e + 1
  {
    if e == |raw| then e
    else if raw[e] == '\r' && e + 1 < |raw| && raw[e + 1] == '\n' then e + 2
    else e + 1
  }

  /** What the read loop appends from position `i` on: every remaining line,
      each followed by `\n`. */
  function LinesFrom(raw: string, i: nat): (text: string)
    requires i <= |raw|
    decreases |raw| - i
  {
    if i == |raw| then ""
    else
      var e := LineEnd(raw, i);
      raw[i..e] + "\n" + LinesFrom(raw, NextLine(raw, e))
  }

  /** The pom text as `updatePOM` sees it. */
  function PomTextOf(raw: string): string {
    LinesFrom(raw, 0)
  }

  /** Text in the form the read loop produces: no `\r`, and empty or ending
      in `\n`. */
  predicate IsNormal(s: string) {
    (forall k :: 0 <= k < |s| ==> s[k] != '\r') && (s == [] || s[|s| - 1] == '\n')
  }

  /** The read loop: `while ((input = in.readLine()) != null)
      pomText.append(input).append("\n")`, one line per iteration. */
  method ReadPomText(raw: string) returns (text: string)
    ensures text == PomTextOf(raw)
  {
    text := "";
    var i := 0;
    while i < |raw|
      invariant 0 <= i <= |raw|
      invariant text + LinesFrom(raw, i) == PomTextOf(raw)
      decreases |raw| - i
    {
      var e := i;
      while e < |raw| && !IsBreak(raw[e])
        invariant i <= e <= |raw|
        invariant LineEnd(raw, i) == LineEnd(raw, e)
        decreases |raw| - e
      {
        e := e + 1;
      }
      assert e == LineEnd(raw, i);
      ghost var rest := LinesFrom(raw, NextLine(raw, e));
      assert LinesFrom(raw, i) == raw[i..e] + "\n" + rest;
      text := text + raw[i..e] + "\n";
      assert text + rest == PomTextOf(raw);
      i := NextLine(raw, e);
    }
  }

  /** What the loop produces is normal: no `\r` survives and every line is
      terminated. */
  lemma {:induction false} LinesFromNormal(raw: string, i: nat)
    requires i <= |raw|
    ensures IsNormal(LinesFrom(raw, i))
    decreases |raw| - i
  {
    if i < |raw| {
      var e := LineEnd(raw, i);
      var rest := LinesFrom(raw, NextLine(raw, e));
      LinesFromNormal(raw, NextLine(raw, e));
      var s := raw[i..e] + "\n" + rest;
      assert s == LinesFrom(raw, i);
      forall k | 0 <= k < |s| ensures s[k] != '\r' {
        if k < e - i {
          assert s[k] == raw[i + k];
        } else if k > e - i {
          assert s[k] == rest[k - (e - i) - 1];
        }
      }
    }
  }

  /** Reading back a normal text gives the same text. */
  lemma {:induction false} LinesFromIdentity(s: string, i: nat)
    requires IsNormal(s) && i <= |s|
    ensures LinesFrom(s, i) == s[i..]
    decreases |s| - i
  {
    if i < |s| {
      var e := LineEnd(s, i);
      assert IsBreak(s[|s| - 1]);
      assert e < |s| && s[e] == '\n';
      assert NextLine(s, e) == e + 1;
      LinesFromIdentity(s, e + 1);
      assert LinesFrom(s, i) == s[i..e] + "\n" + s[e + 1..];
      assert s[i..] == s[i..e] + "\n" + s[e + 1..];
    }
  }

  /** The read loop is idempotent: a second read of what the first produced
      changes nothing. */
  lemma PomTextIdempotent(raw: string)
    ensures IsNormal(PomTextOf(raw))
    ensures PomTextOf(PomTextOf(raw)) == PomTextOf(raw)
  {
    LinesFromNormal(raw, 0);
    LinesFromIdentity(PomTextOf(raw), 0);
  }

  // ---------------------------------------------------------------------
  // Finding the version line

  const Open: string := "<version>"
  const Close: string := "</version>"

  /** First `<` at or after `from`, or the end: where `[^<]*` stops. */
  function RunEnd(s: string, from: nat): (r: nat)
    requires from <= |s|
    ensures from <= r <= |s|
    ensures forall k :: from <= k < r ==> s[k] != '<'
    ensures r < |s| ==> s[r] == '<'
    decreases |s| - from
  {
    if from == |s| || s[from] == '<' then from else RunEnd(s, from + 1)
  }

  /** First non-space at or after `from`, or the end: where `[ ]*` stops. */
  function SpaceEnd(s: string, from: nat): (r: nat)
    requires from <= |s|
    ensures from <= r <= |s|
    ensures forall k :: from <= k < r ==> s[k] == ' '
    ensures r < |s| ==> s[r] != ' '
    decreases |s| - from
  {
    if from == |s| || s[from] != ' ' then from else SpaceEnd(s, from + 1)
  }

  /** The `lead` group at `i`: a line start, exactly `n` spaces, `<version>`. */
  predicate LeadAt(s: string, n: nat, i: nat) {
    LineStartAt(s, i) && i + n + |Open| <= |s| &&
    (forall k :: i <= k < i + n ==> s[k] == ' ') &&
    s[i + n..i + n + |Open|] == Open
  }

  /** The `tail` group at `p`: `</version>`, spaces, `\n`. */
  predicate TailAt(s: string, p: nat) {
    p + |Close| <= |s| && s[p..p + |Close|] == Close &&
    SpaceEnd(s, p + |Close|) < |s| && s[SpaceEnd(s, p + |Close|)] == '\n'
  }

  /** Start of the `text` group of a match at `i`. */
  function TextStart(n: nat, i: nat): nat { i + n + |Open| }

  /** The pattern matches at `i`. `[^<]*` can only stop at a `<` (it never
      gives characters back usefully, since `</version>` starts with `<`),
      and `[ ]*` can only stop before the `\n`, so the match is decided by
      the maximal runs. */
  predicate VersionLineAt(s: string, n: nat, i: nat) {
    LeadAt(s, n, i) && TailAt(s, RunEnd(s, TextStart(n, i)))
  }

  /** `m.find()`: the leftmost version line at or after `from`. */
  function FindVersionLine(s: string, n: nat, from: nat): (r: Option<nat>)
    ensures r.Some? ==> from <= r.value && VersionLineAt(s, n, r.value)
    ensures r.Some? ==> forall j: nat :: from <= j < r.value ==> !VersionLineAt(s, n, j)
    ensures r.None? ==> forall j: nat :: from <= j ==> !VersionLineAt(s, n, j)
    decreases |s| - from
  {
    if from >= |s| then None
    else if VersionLineAt(s, n, from) then Some(from)
    else FindVersionLine(s, n, from + 1)
  }

  /** The outcome of a successful edit: the new text, and the old `text`
      group (`oldVersion`). */
  datatype PomEdit = PomEdit(newText: string, oldVersion: string)

  /** The edit of `updatePOM` on the text read: a negative indent makes the
      pattern illegal; no match is `<version> tag: Not Found`; otherwise the
      first match's `text` group is replaced by `projectVersion` and the rest
      of the text is kept. */
  function EditPom(text: string, indent: int, projectVersion: string): (r: Result<PomEdit, Error>)
    ensures indent < 0 ==> r == Failure(IllegalIndent(indent))
    ensures indent >= 0 && FindVersionLine(text, indent, 0).None? ==> r == Failure(VersionTagNotFound)
    ensures r.Success? ==> indent >= 0 && FindVersionLine(text, indent, 0).Some?
    ensures r.Success? ==>
              var ts := TextStart(indent, FindVersionLine(text, indent, 0).value);
              var te := RunEnd(text, ts);
              r.value.oldVersion == text[ts..te] &&
              r.value.newText == text[..ts] + projectVersion + text[te..]
  {
    if indent < 0 then Failure(IllegalIndent(indent))
    else match FindVersionLine(text, indent, 0)
      case None => Failure(VersionTagNotFound)
      case Some(i) =>
        var ts := TextStart(indent, i);
        var te := RunEnd(text, ts);
        Success(PomEdit(text[..ts] + projectVersion + text[te..], text[ts..te]))
  }

  // ---------------------------------------------------------------------
  // Rewriting and reading back

  predicate NoOpenAngle(v: string) { forall k :: 0 <= k < |v| ==> v[k] != '<' }

  /** Two texts that agree up to and including a `<` at `m` have the same
      `tail` group at every `p` before `m`. */
  lemma TailBeforeAngle(s: string, t: string, p: nat, m: nat)
    requires m < |s| && m < |t| && s[..m + 1] == t[..m + 1] && s[m] == '<' && p < m
    ensures TailAt(s, p) <==> TailAt(t, p)
  {
    assert t[m] == '<' by { assert s[..m + 1][m] == t[..m + 1][m]; }
    if p + |Close| > m {
      assert Close[m - p] != '<';
      if p + |Close| <= |s| { assert s[p..p + |Close|][m - p] == s[m]; }
      if p + |Close| <= |t| { assert t[p..p + |Close|][m - p] == t[m]; }
    } else {
      assert s[p..p + |Close|] == t[p..p + |Close|] by {
        forall k | p <= k < p + |Close| ensures s[k] == t[k] {
          assert s[..m + 1][k] == t[..m + 1][k];
        }
      }
      SpaceEndPrefix(s, t, p + |Close|, m);
    }
  }

  /** The space run in two texts that agree up to a non-space at `m` ends at
      the same place, at or before `m`. */
  lemma {:induction false} SpaceEndPrefix(s: string, t: string, from: nat, m: nat)
    requires m < |s| && m < |t| && s[..m + 1] == t[..m + 1] && s[m] != ' ' && from <= m
    ensures SpaceEnd(s, from) == SpaceEnd(t, from) <= m
    decreases m - from
  {
    assert s[from] == t[from] by { assert s[..m + 1][from] == t[..m + 1][from]; }
    if s[from] == ' ' {
      SpaceEndPrefix(s, t, from + 1, m);
    }
  }

  /** The `tail` group depends only on the text from its start on. */
  lemma TailShift(s: string, p: nat, t: string, q: nat)
    requires p <= |s| && q <= |t| && s[p..] == t[q..]
    ensures TailAt(s, p) <==> TailAt(t, q)
  {
    var d := |s| - p;
    if p + |Close| <= |s| {
      assert s[p..p + |Close|] == s[p..][..|Close|];
      assert t[q..q + |Close|] == t[q..][..|Close|];
      SpaceEndShift(s, p + |Close|, t, q + |Close|);
    }
  }

  lemma {:induction false} SpaceEndShift(s: string, p: nat, t: string, q: nat)
    requires p <= |s| && q <= |t| && s[p..] == t[q..]
    ensures SpaceEnd(s, p) - p == SpaceEnd(t, q) - q
    ensures SpaceEnd(s, p) < |s| ==> s[SpaceEnd(s, p)] == t[SpaceEnd(t, q)]
    decreases |s| - p
  {
    if p < |s| {
      assert s[p] == s[p..][0] == t[q..][0] == t[q];
      if s[p] == ' ' {
        assert s[p + 1..] == s[p..][1..];
        assert t[q + 1..] == t[q..][1..];
        SpaceEndShift(s, p + 1, t, q + 1);
      }
    }
  }

  /** `[^<]*` run from `from` stops at the first `<`. */
  lemma {:induction false} RunEndAt(s: string, from: nat, q: nat)
    requires from <= q < |s| && s[q] == '<'
    requires forall k :: from <= k < q ==> s[k] != '<'
    ensures RunEnd(s, from) == q
    decreases q - from
  {
    if from < q {
      RunEndAt(s, from + 1, q);
    }
  }

  /** A `<version>` at `m` is not a `</version>`. */
  lemma OpenIsNotTail(s: string, m: nat)
    requires m + |Open| <= |s| && s[m..m + |Open|] == Open
    ensures !TailAt(s, m)
  {
    assert s[m + 1] == s[m..m + |Open|][1] == 'v';
    if m + |Close| <= |s| {
      assert s[m..m + |Close|][1] == s[m + 1];
    }
  }

  /** The edited text at the match: the same `lead`, the new version as the
      `text` group, and the same `tail`. */
  lemma EditedLineAt(s: string, n: nat, i: nat, v: string)
    requires VersionLineAt(s, n, i) && NoOpenAngle(v)
    ensures var ts := TextStart(n, i);
            var te := RunEnd(s, ts);
            var t := s[..ts] + v + s[te..];
            VersionLineAt(t, n, i) && RunEnd(t, ts) == ts + |v| && t[ts..ts + |v|] == v
  {
    var ts := TextStart(n, i);
    var te := RunEnd(s, ts);
    var t := s[..ts] + v + s[te..];
    assert te < |s|;
    assert forall k :: 0 <= k < ts ==> t[k] == s[k];
    assert t[i + n..i + n + |Open|] == s[i + n..i + n + |Open|];
    assert LeadAt(t, n, i);
    forall k | ts <= k < ts + |v| ensures t[k] != '<' {
      assert t[k] == v[k - ts];
    }
    assert t[ts + |v|] == s[te];
    RunEndAt(t, ts, ts + |v|);
    assert t[ts + |v|..] == s[te..];
    TailShift(s, te, t, ts + |v|);
  }

  /** Texts agreeing below `m` have the same `lead` groups ending before `m`. */
  lemma LeadBefore(s: string, t: string, n: nat, j: nat, m: nat)
    requires m <= |s| && m <= |t| && forall k :: 0 <= k < m ==> s[k] == t[k]
    requires j + n + |Open| < m
    ensures LeadAt(s, n, j) <==> LeadAt(t, n, j)
  {
    assert t[j + n..j + n + |Open|] == s[j + n..j + n + |Open|];
  }

  /** A `text` group starting at or before the `<` of the edited line's
      `<version>` ends at the same place in both texts, so the `tail` that
      follows it is the same. */
  lemma TailNear(s: string, t: string, a: nat, m: nat)
    requires m + |Open| <= |s| && m + |Open| <= |t|
    requires forall k :: 0 <= k < m + |Open| ==> s[k] == t[k]
    requires s[m..m + |Open|] == Open && a <= m
    ensures TailAt(t, RunEnd(t, a)) ==> TailAt(s, RunEnd(s, a))
  {
    assert s[m] == s[m..m + |Open|][0];
    var p := RunEnd(s, a);
    RunEndAt(t, a, p);
    if p < m {
      assert s[..m + 1] == t[..m + 1];
      TailBeforeAngle(s, t, p, m);
    } else {
      assert t[m..m + |Open|] == s[m..m + |Open|];
      OpenIsNotTail(t, m);
    }
  }

  /** A `text` group starting inside the edited line's `<version>` runs to
      the edited `text` group's end in both texts, where the same `tail`
      follows. */
  lemma TailFar(s: string, n: nat, i: nat, v: string, a: nat)
    requires VersionLineAt(s, n, i) && NoOpenAngle(v)
    requires i + n < a < TextStart(n, i)
    ensures var ts := TextStart(n, i);
            var t := s[..ts] + v + s[RunEnd(s, ts)..];
            TailAt(t, RunEnd(t, a)) ==> TailAt(s, RunEnd(s, a))
  {
    var m := i + n;
    var ts := TextStart(n, i);
    var te := RunEnd(s, ts);
    var t := s[..ts] + v + s[te..];
    forall k | a <= k < te ensures s[k] != '<' {
      if k < ts { assert s[k] == s[m..m + |Open|][k - m]; }
    }
    RunEndAt(s, a, te);
    forall k | a <= k < ts + |v| ensures t[k] != '<' {
      if k < ts { assert t[k] == s[k]; } else { assert t[k] == v[k - ts]; }
    }
    assert t[ts + |v|] == s[te];
    RunEndAt(t, a, ts + |v|);
    assert t[ts + |v|..] == s[te..];
    TailShift(s, te, t, ts + |v|);
  }

  /** No version line of the edited text starts before the edited one. */
  lemma NoEarlierLine(s: string, n: nat, i: nat, v: string, j: nat)
    requires VersionLineAt(s, n, i) && NoOpenAngle(v) && j < i
    requires !VersionLineAt(s, n, j)
    ensures var ts := TextStart(n, i);
            !VersionLineAt(s[..ts] + v + s[RunEnd(s, ts)..], n, j)
  {
    var ts := TextStart(n, i);
    var t := s[..ts] + v + s[RunEnd(s, ts)..];
    var m := i + n;
    assert forall k :: 0 <= k < ts ==> t[k] == s[k];
    LeadBefore(s, t, n, j, ts);
    var a := TextStart(n, j);
    if a <= m {
      TailNear(s, t, a, m);
    } else {
      TailFar(s, n, i, v, a);
    }
  }

  /** Editing keeps the match where it was: in the edited text the first
      version line is the one that was edited, and its `text` group is the
      version written. */
  lemma EditedLineFoundFirst(s: string, n: nat, v: string)
    requires FindVersionLine(s, n, 0).Some? && NoOpenAngle(v)
    ensures var i := FindVersionLine(s, n, 0).value;
            var ts := TextStart(n, i);
            var t := s[..ts] + v + s[RunEnd(s, ts)..];
            FindVersionLine(t, n, 0) == Some(i) && RunEnd(t, ts) == ts + |v| && t[ts..ts + |v|] == v
  {
    var i := FindVersionLine(s, n, 0).value;
    var ts := TextStart(n, i);
    var t := s[..ts] + v + s[RunEnd(s, ts)..];
    EditedLineAt(s, n, i, v);
    forall j: nat | j < i ensures !VersionLineAt(t, n, j) {
      NoEarlierLine(s, n, i, v, j);
    }
    FindFirstAt(t, n, 0, i);
  }

  /** `find` returns a match when none precedes it. */
  lemma {:induction false} FindFirstAt(s: string, n: nat, from: nat, i: nat)
    requires from <= i && VersionLineAt(s, n, i)
    requires forall j: nat :: from <= j < i ==> !VersionLineAt(s, n, j)
    ensures FindVersionLine(s, n, from) == Some(i)
    decreases i - from
  {
    if from < i {
      FindFirstAt(s, n, from + 1, i);
    }
  }

  /** A second edit of an edited text finds the version the first edit
      wrote, and ends where a single edit with the second version would
      have: editing twice is editing once with the later version. */
  lemma EditTwice(text: string, indent: int, v: string, w: string)
    requires EditPom(text, indent, v).Success? && NoOpenAngle(v)
    ensures EditPom(EditPom(text, indent, v).value.newText, indent, w) ==
              Success(PomEdit(EditPom(text, indent, w).value.newText, v))
  {
    var n: nat := indent;
    var i := FindVersionLine(text, n, 0).value;
    var ts := TextStart(n, i);
    var te := RunEnd(text, ts);
    EditedLineFoundFirst(text, n, v);
    SpliceTwice(text, ts, te, v, w);
  }

  /** Splicing `w` over a spliced-in `v` is splicing `w` over the original. */
  lemma SpliceTwice(text: string, ts: nat, te: nat, v: string, w: string)
    requires ts <= te <= |text|
    ensures var t := text[..ts] + v + text[te..];
            t[..ts] + w + t[ts + |v|..] == text[..ts] + w + text[te..] && t[ts..ts + |v|] == v
  {
    var t := text[..ts] + v + text[te..];
    assert t[..ts] == text[..ts];
    assert t[ts + |v|..] == text[te..];
  }

  /** An edit of normal text with a version free of `\r` leaves normal text,
      so reading the written file back gives exactly what was written. */
  lemma EditKeepsNormal(text: string, indent: int, v: string)
    requires IsNormal(text) && EditPom(text, indent, v).Success?
    requires forall k :: 0 <= k < |v| ==> v[k] != '\r'
    ensures IsNormal(EditPom(text, indent, v).value.newText)
    ensures PomTextOf(EditPom(text, indent, v).value.newText) == EditPom(text, indent, v).value.newText
  {
    var n: nat := indent;
    var i := FindVersionLine(text, n, 0).value;
    var ts := TextStart(n, i);
    var te := RunEnd(text, ts);
    assert te < |text|;
    SpliceKeepsNormal(text, ts, te, v);
    LinesFromIdentity(text[..ts] + v + text[te..], 0);
  }

  /** Splicing a text free of `\r` into normal text, before its last
      character, leaves normal text. */
  lemma SpliceKeepsNormal(text: string, ts: nat, te: nat, v: string)
    requires IsNormal(text) && ts <= te < |text|
    requires forall k :: 0 <= k < |v| ==> v[k] != '\r'
    ensures IsNormal(text[..ts] + v + text[te..])
  {
    var t := text[..ts] + v + text[te..];
    forall k | 0 <= k < |t| ensures t[k] != '\r' {
      if k < ts { assert t[k] == text[k]; }
      else if k < ts + |v| { assert t[k] == v[k - ts]; }
      else { assert t[k] == text[te + (k - ts - |v|)]; }
    }
    assert t[|t| - 1] == text[|text| - 1];
  }

  /** The whole round trip on the file: the pom written by one run, read
      back by the next run with the same indent, yields the version the
      first run wrote as `oldVersion`, and the second run's file is what one
      run with its version would have written. */
  lemma PomRoundTrip(raw: string, indent: int, v: string, w: string)
    requires EditPom(PomTextOf(raw), indent, v).Success?
    requires NoOpenAngle(v) && forall k :: 0 <= k < |v| ==> v[k] != '\r'
    ensures var written := EditPom(PomTextOf(raw), indent, v).value.newText;
            EditPom(PomTextOf(written), indent, w) ==
              Success(PomEdit(EditPom(PomTextOf(raw), indent, w).value.newText, v))
  {
    PomTextIdempotent(raw);
    EditKeepsNormal(PomTextOf(raw), indent, v);
    EditTwice(PomTextOf(raw), indent, v, w);
  }
}
