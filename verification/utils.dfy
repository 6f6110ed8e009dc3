/** `Utils.updateBuildNumber`: the /project/version text is matched against
    `^(?<main>\d+(\.\d+){L-2})(\.(?<build>\d+))?(?<suffix>-SNAPSHOT)?$`
    (L = `version.number.length`), the build segment is kept, incremented or
    started, the `-SNAPSHOT` suffix is forced on or off by `release`, and the
    document is rewritten when the text changed. */
module Utils {
  import opened Wrappers
  import opened Errors
  import opened JavaInt
  import opened JavaRegex

  const Suffix: string := "-SNAPSHOT"

  /** Index of the last `.` in `s`, or -1 when there is none. */
  function LastDot(s: string): (r: int)
    ensures -1 <= r < |s|
    ensures r >= 0 ==> s[r] == '.'
    ensures forall k :: r < k < |s| ==> s[k] != '.'
  {
    if |s| == 0 then -1
    else if s[|s| - 1] == '.' then |s| - 1
    else LastDot(s[..|s| - 1])
  }

  /** The `.`-separated runs of `s` (n dots give n + 1 runs, some possibly empty). */
  function SplitDots(s: string): (runs: seq<string>)
    ensures |runs| >= 1
    decreases |s|
  {
    var j := LastDot(s);
    if j < 0 then [s] else SplitDots(s[..j]) + [s[j + 1..]]
  }

  predicate AllDigitRuns(runs: seq<string>) {
    forall i :: 0 <= i < |runs| ==> IsDigits(runs[i])
  }

  /** Text matched by the `main` group `\d+(\.\d+){vLength-2}`: exactly
      vLength - 1 digit runs separated by dots. */
  predicate IsMain(main: string, vLength: int) {
    var runs := SplitDots(main);
    |runs| == vLength - 1 && AllDigitRuns(runs)
  }

  /** The three groups of an accepted version text. */
  datatype VersionParts = VersionParts(main: string, build: Option<string>, snapshot: bool)

  predicate WellFormed(p: VersionParts, vLength: int) {
    IsMain(p.main, vLength) && (p.build.Some? ==> IsDigits(p.build.value))
  }

  function BuildText(build: Option<string>): string {
    match build
    case None => ""
    case Some(b) => "." + b
  }

  function SuffixText(snapshot: bool): string {
    if snapshot then Suffix else ""
  }

  /** `format("%s%s%s", main, build, suffix)`. */
  function Format(p: VersionParts): string {
    p.main + BuildText(p.build) + SuffixText(p.snapshot)
  }

  predicate EndsWithSuffix(s: string) {
    |s| >= |Suffix| && s[|s| - |Suffix|..] == Suffix
  }

  /** The optional `-SNAPSHOT` group at the end of the matched text: the text
      before it, and whether it was there. */
  function SplitSuffix(body: string): (r: (string, bool))
    ensures r.0 + SuffixText(r.1) == body
    ensures r.1 <==> EndsWithSuffix(body)
  {
    if EndsWithSuffix(body) then (body[..|body| - |Suffix|], true) else (body, false)
  }

  /** The `main` and `build` groups of the text before the suffix: the runs
      must all be digits, and there must be vLength - 1 of them (no build
      segment) or vLength (the last one is the build segment). */
  function PartsOf(core: string, snapshot: bool, vLength: int): (r: Option<VersionParts>)
    requires vLength >= 2
    ensures r.Some? ==> WellFormed(r.value, vLength)
    ensures r.Some? ==> r.value.main + BuildText(r.value.build) == core && r.value.snapshot == snapshot
  {
    var runs := SplitDots(core);
    if !AllDigitRuns(runs) then None
    else if |runs| == vLength - 1 then Some(VersionParts(core, None, snapshot))
    else if |runs| == vLength then
      var j := LastDot(core);
      assert j >= 0 && runs == SplitDots(core[..j]) + [core[j + 1..]];
      assert SplitDots(core[..j]) == runs[..vLength - 1];
      assert IsDigits(runs[vLength - 1]);
      assert core == core[..j] + "." + core[j + 1..];
      Some(VersionParts(core[..j], Some(core[j + 1..]), snapshot))
    else None
  }

  /** The regex match of the old version text (`None` when `m.find()`
      fails): whatever is accepted is well formed, and its groups reassemble
      to the matched text. */
  function Parse(text: string, vLength: int): (r: Option<VersionParts>)
    requires vLength >= 2
    ensures r.Some? ==> WellFormed(r.value, vLength)
    ensures r.Some? ==> Format(r.value) == DollarBody(text)
  {
    var (core, snapshot) := SplitSuffix(DollarBody(text));
    PartsOf(core, snapshot, vLength)
  }

  /** The new build segment (digits without the dot), or `None` for no segment:
      absent + keep stays absent, absent + increment starts at 0, present +
      keep is kept verbatim, present + increment is `Integer.parseInt` + `++`. */
  function NextBuild(build: Option<string>, keep: bool): (r: Result<Option<string>, Error>)
    ensures keep ==> r == Success(build)
    ensures r.Failure? ==> build.Some? && !keep && ParseInt(build.value).None?
    ensures !keep && r.Success? ==> r.value.Some? && |r.value.value| > 0 && IsDigit(r.value.value[|r.value.value| - 1])
  {
    match build
    case None => if keep then Success(None) else Success(Some("0"))
    case Some(b) =>
      if keep then Success(Some(b))
      else match ParseInt(b)
        case None => Failure(BuildSegmentOutOfRange(b))
        case Some(n) =>
          IntToStringEndsInDigit(Inc32(n));
          Success(Some(IntToString(Inc32(n))))
  }

  /** What `updateBuildNumber` reports: whether the text changed, the old text
      and the new text. */
  datatype VersionUpdate = VersionUpdate(changed: bool, oldVersion: string, newVersion: string)

  /** The value computation of `updateBuildNumber`, without the document. */
  function ComputeUpdate(vLength: int, keep: bool, release: bool, text: string): (r: Result<VersionUpdate, Error>)
    ensures vLength < 2 ==> r == Failure(VersionLengthTooSmall(vLength))
    ensures vLength >= 2 && Parse(text, vLength).None? ==> r == Failure(NoValidVersionText(text))
    ensures r.Success? ==> r.value.oldVersion == text && (r.value.changed <==> r.value.newVersion != text)
    ensures r.Success? ==> (EndsWithSuffix(r.value.newVersion) <==> !release)
  {
    if vLength < 2 then Failure(VersionLengthTooSmall(vLength))
    else match Parse(text, vLength)
      case None => Failure(NoValidVersionText(text))
      case Some(p) =>
        match NextBuild(p.build, keep)
        case Failure(e) => Failure(e)
        case Success(nb) =>
          var output := Format(VersionParts(p.main, nb, !release));
          FormatSuffix(p.main, nb, !release);
          Success(VersionUpdate(text != output, text, output))
  }

  /** The pom file's /project/version element, as its trimmed text. */
  class PomDocument {
    var version: string

    constructor (version: string)
      ensures this.version == version
    {
      this.version := version;
    }
  }

  /** `updateBuildNumber`: the length check comes before the document is
      consulted; the element is rewritten only when the text changed; the
      result carries the old and the new text (`oldVersion.val`,
      `projectVersion.val`) and the changed flag. */
  method UpdateBuildNumber(vLength: int, keep: bool, release: bool, pom: PomDocument)
    returns (r: Result<VersionUpdate, Error>)
    modifies pom
    ensures r == ComputeUpdate(vLength, keep, release, old(pom.version))
    ensures pom.version == if r.Success? && r.value.changed then r.value.newVersion else old(pom.version)
  {
    if vLength < 2 {
      return Failure(VersionLengthTooSmall(vLength));
    }
    var oldVersion := pom.version;
    r := ComputeUpdate(vLength, keep, release, oldVersion);
    if r.Success? && r.value.changed {
      pom.version := r.value.newVersion;
    }
  }

  // ---------------------------------------------------------------------
  // Lemmas about the version grammar

  /** The last dot of `a.b`, when `b` has no dot, is the one before `b`. */
  lemma LastDotAppend(a: string, b: string)
    requires forall k :: 0 <= k < |b| ==> b[k] != '.'
    ensures LastDot(a + "." + b) == |a|
  {
    var s := a + "." + b;
    assert s[|a|] == '.';
  }

  /** Appending `.b` to a text adds exactly one run, `b`, when `b` has no dot. */
  lemma SplitAppend(a: string, b: string)
    requires forall k :: 0 <= k < |b| ==> b[k] != '.'
    ensures LastDot(a + "." + b) == |a|
    ensures SplitDots(a + "." + b) == SplitDots(a) + [b]
  {
    var s := a + "." + b;
    LastDotAppend(a, b);
    assert s[..|a|] == a && s[|a| + 1..] == b;
  }

  /** Every character of a text whose runs are all digits is a digit or a dot,
      and its last character is a digit. */
  lemma {:induction false} MainChars(s: string)
    requires AllDigitRuns(SplitDots(s))
    ensures |s| > 0 && IsDigit(s[|s| - 1])
    ensures forall i :: 0 <= i < |s| ==> IsDigit(s[i]) || s[i] == '.'
    decreases |s|
  {
    var j := LastDot(s);
    if j >= 0 {
      var runs := SplitDots(s[..j]);
      assert SplitDots(s) == runs + [s[j + 1..]];
      assert AllDigitRuns(runs) by {
        forall i | 0 <= i < |runs| ensures IsDigits(runs[i]) {
          assert SplitDots(s)[i] == runs[i];
        }
      }
      MainChars(s[..j]);
      var last := s[j + 1..];
      assert IsDigits(last) by { assert SplitDots(s)[|SplitDots(s)| - 1] == last; }
      assert s[|s| - 1] == last[|last| - 1];
      forall i | 0 <= i < |s| ensures IsDigit(s[i]) || s[i] == '.' {
        if i < j { assert s[i] == s[..j][i]; }
        else if i > j { assert s[i] == last[i - j - 1]; }
      }
    } else {
      assert IsDigits(SplitDots(s)[0]);
    }
  }

  /** A formatted version without the suffix ends in a digit. */
  lemma FormatLastChar(main: string, build: Option<string>)
    requires AllDigitRuns(SplitDots(main))
    requires build.Some? ==> IsDigits(build.value)
    ensures var s := main + BuildText(build); |s| > 0 && IsDigit(s[|s| - 1])
  {
    MainChars(main);
  }

  /** A formatted version ends in the suffix exactly when it has one, as long
      as the part before the suffix ends in a digit. */
  lemma FormatSuffix(main: string, build: Option<string>, snapshot: bool)
    requires AllDigitRuns(SplitDots(main))
    requires build.Some? ==> |build.value| > 0 && IsDigit(build.value[|build.value| - 1])
    ensures EndsWithSuffix(Format(VersionParts(main, build, snapshot))) <==> snapshot
  {
    MainChars(main);
    var core := main + BuildText(build);
    assert |core| > 0 && IsDigit(core[|core| - 1]) by {
      if build.Some? { assert core[|core| - 1] == build.value[|build.value| - 1]; }
    }
    SplitSuffixFormat(core, snapshot);
  }

  /** A formatted version has no line terminator. */
  lemma FormatNoTerminator(p: VersionParts)
    requires AllDigitRuns(SplitDots(p.main))
    requires p.build.Some? ==> IsDigits(p.build.value)
    ensures NoLineTerminator(Format(p))
  {
    var s := Format(p);
    var core := p.main + BuildText(p.build);
    MainChars(p.main);
    forall i | 0 <= i < |s| ensures !IsLineTerminator(s[i]) {
      if i < |p.main| {
        assert s[i] == p.main[i];
      } else if i < |core| {
        assert s[i] == core[i];
        if i > |p.main| { assert s[i] == p.build.value[i - |p.main| - 1]; }
      } else {
        assert s[i] == Suffix[i - |core|];
      }
    }
  }

  /** The suffix group is found exactly when it was written. */
  lemma SplitSuffixFormat(core: string, snapshot: bool)
    requires |core| > 0 && IsDigit(core[|core| - 1])
    ensures SplitSuffix(core + SuffixText(snapshot)) == (core, snapshot)
  {
    var s := core + SuffixText(snapshot);
    if snapshot {
      assert s[|s| - |Suffix|..] == Suffix;
      assert s[..|s| - |Suffix|] == core;
    } else {
      assert s == core;
    }
  }

  /** The groups of a well-formed version are found again in its text. */
  lemma PartsOfFormat(p: VersionParts, vLength: int)
    requires vLength >= 2 && WellFormed(p, vLength)
    ensures PartsOf(p.main + BuildText(p.build), p.snapshot, vLength) == Some(p)
  {
    var core := p.main + BuildText(p.build);
    match p.build
    case None =>
      assert core == p.main;
    case Some(b) =>
      assert forall k :: 0 <= k < |b| ==> b[k] != '.' by {
        forall k | 0 <= k < |b| ensures b[k] != '.' { assert IsDigit(b[k]); }
      }
      assert core == p.main + "." + b;
      SplitAppend(p.main, b);
      var runs := SplitDots(core);
      assert runs == SplitDots(p.main) + [b];
      assert AllDigitRuns(runs) by {
        forall i | 0 <= i < |runs| ensures IsDigits(runs[i]) {
          if i < |runs| - 1 { assert runs[i] == SplitDots(p.main)[i]; }
        }
      }
      assert core[..|p.main|] == p.main && core[|p.main| + 1..] == b;
  }

  /** Completeness of the parse: every well-formed version, formatted, is
      accepted and parses back to itself. */
  lemma ParseFormat(p: VersionParts, vLength: int)
    requires vLength >= 2 && WellFormed(p, vLength)
    ensures Parse(Format(p), vLength) == Some(p)
  {
    var s := Format(p);
    FormatNoTerminator(p);
    FormatLastChar(p.main, p.build);
    SplitSuffixFormat(p.main + BuildText(p.build), p.snapshot);
    PartsOfFormat(p, vLength);
  }

  /** Partner of the above: a text is accepted with groups `p` exactly when,
      up to one final line terminator, it is the format of the well-formed
      version `p`. */
  lemma ParseAcceptsExactlyFormats(text: string, p: VersionParts, vLength: int)
    requires vLength >= 2
    ensures Parse(text, vLength) == Some(p) <==> WellFormed(p, vLength) && Format(p) == DollarBody(text)
  {
    if WellFormed(p, vLength) && Format(p) == DollarBody(text) {
      ParseFormat(p, vLength);
      FormatNoTerminator(p);
      assert DollarBody(Format(p)) == Format(p);
      assert Parse(text, vLength) == Parse(Format(p), vLength);
    }
  }
}
