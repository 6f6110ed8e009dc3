/** What `Utils.updateBuildNumber` does to a version text, stated rule by
    rule: the four build-segment rules, the suffix rule, when a run fails,
    and what a second run makes of the first run's output. */
module VersionRules {
  import opened Wrappers
  import opened Errors
  import opened JavaInt
  import opened JavaRegex
  import opened Utils

  /** A run on an accepted text whose build step succeeds writes the format
      of the old main part, the new build segment and the chosen suffix. */
  lemma ComputeUpdateOk(vLength: int, keep: bool, release: bool, text: string, p: VersionParts)
    requires vLength >= 2 && Parse(text, vLength) == Some(p)
    requires NextBuild(p.build, keep).Success?
    ensures var out := Format(VersionParts(p.main, NextBuild(p.build, keep).value, !release));
            ComputeUpdate(vLength, keep, release, text) == Success(VersionUpdate(text != out, text, out))
  {
  }

  /** The same, stated on the new text alone for a known new build segment. */
  lemma NewVersionOf(vLength: int, keep: bool, release: bool, text: string, p: VersionParts, nb: Option<string>)
    requires vLength >= 2 && Parse(text, vLength) == Some(p)
    requires NextBuild(p.build, keep) == Success(nb)
    ensures var r := ComputeUpdate(vLength, keep, release, text);
            r.Success? && r.value.newVersion == Format(VersionParts(p.main, nb, !release))
  {
  }

  /** The new text for a known new build segment `b`, written out. */
  lemma NewVersionWithBuild(vLength: int, keep: bool, release: bool, text: string, p: VersionParts, b: string)
    requires vLength >= 2 && Parse(text, vLength) == Some(p)
    requires NextBuild(p.build, keep) == Success(Some(b))
    ensures var r := ComputeUpdate(vLength, keep, release, text);
            r.Success? && r.value.newVersion == p.main + "." + b + SuffixText(!release)
  {
    NewVersionOf(vLength, keep, release, text, p, Some(b));
    FormatWithBuild(p.main, b, !release);
  }

  /** An increment below the largest int writes `Integer.toString(n + 1)`,
      a digit string of value n + 1. */
  lemma NextBuildIncrement(b: string)
    requires IsDigits(b) && DigitsValue(b) < MaxInt
    ensures NextBuild(Some(b), false) == Success(Some(IntToString(DigitsValue(b) + 1)))
    ensures IsDigits(IntToString(DigitsValue(b) + 1)) && DigitsValue(IntToString(DigitsValue(b) + 1)) == DigitsValue(b) + 1
  {
    NextBuildText(Some(b));
    IntToStringDigits(DigitsValue(b) + 1);
  }

  /** The text part of the above alone, kept apart so that proofs which only
      need the new text do not also carry the digit facts. */
  lemma NextBuildText(build: Option<string>)
    requires build.Some? && IsDigits(build.value) && DigitsValue(build.value) < MaxInt
    ensures NextBuild(build, false) == Success(Some(IntToString(DigitsValue(build.value) + 1)))
  {
    assert ParseInt(build.value) == Some(DigitsValue(build.value));
  }

  /** An increment at the largest int wraps to the smallest. */
  lemma NextBuildWrap(b: string)
    requires IsDigits(b) && DigitsValue(b) == MaxInt
    ensures NextBuild(Some(b), false) == Success(Some(IntToString(MinInt)))
  {
    assert ParseInt(b) == Some(MaxInt);
  }

  /** The new build segment is a digit string whenever the old one was,
      unless the increment wraps. */
  lemma NextBuildDigits(build: Option<string>, keep: bool)
    requires build.Some? ==> IsDigits(build.value)
    requires keep || build.None? || DigitsValue(build.value) < MaxInt
    ensures NextBuild(build, keep).Success?
    ensures NextBuild(build, keep).value.Some? ==> IsDigits(NextBuild(build, keep).value.value)
  {
    if !keep && build.Some? {
      NextBuildIncrement(build.value);
    }
  }

  lemma FormatWithBuild(main: string, b: string, snapshot: bool)
    ensures Format(VersionParts(main, Some(b), snapshot)) == main + "." + b + SuffixText(snapshot)
  {
  }

  lemma FormatStartBuild(main: string, snapshot: bool)
    ensures Format(VersionParts(main, Some("0"), snapshot)) == main + ".0" + SuffixText(snapshot)
  {
    assert BuildText(Some("0")) == ".0";
  }

  lemma FormatWithoutBuild(main: string, snapshot: bool)
    ensures Format(VersionParts(main, None, snapshot)) == main + SuffixText(snapshot)
  {
  }

  /** Build rule 1: no build segment and keep: the new text is the old main
      part and the suffix chosen by `release`, with no build segment. */
  lemma BuildAbsentKeep(vLength: int, release: bool, text: string, p: VersionParts)
    requires vLength >= 2 && Parse(text, vLength) == Some(p) && p.build.None?
    ensures var r := ComputeUpdate(vLength, true, release, text);
            r.Success? && r.value.newVersion == p.main + SuffixText(!release)
  {
    assert NextBuild(p.build, true) == Success(None);
    ComputeUpdateOk(vLength, true, release, text, p);
    FormatWithoutBuild(p.main, !release);
  }

  /** Build rule 2: no build segment and increment: the build segment starts
      at `.0`. */
  lemma BuildAbsentIncrement(vLength: int, release: bool, text: string, p: VersionParts)
    requires vLength >= 2 && Parse(text, vLength) == Some(p) && p.build.None?
    ensures var r := ComputeUpdate(vLength, false, release, text);
            r.Success? && r.value.newVersion == p.main + ".0" + SuffixText(!release)
  {
    assert NextBuild(p.build, false) == Success(Some("0"));
    ComputeUpdateOk(vLength, false, release, text, p);
    FormatStartBuild(p.main, !release);
  }

  /** Build rule 3: a build segment and keep: its digits are kept verbatim
      (leading zeros included). */
  lemma BuildPresentKeep(vLength: int, release: bool, text: string, p: VersionParts)
    requires vLength >= 2 && Parse(text, vLength) == Some(p) && p.build.Some?
    ensures var r := ComputeUpdate(vLength, true, release, text);
            r.Success? && r.value.newVersion == p.main + "." + p.build.value + SuffixText(!release)
  {
    assert NextBuild(p.build, true) == Success(p.build);
    ComputeUpdateOk(vLength, true, release, text, p);
    FormatWithBuild(p.main, p.build.value, !release);
  }

  /** Build rule 4: a build segment and increment: the segment becomes
      `next`, the `Integer.toString` of its value plus one (leading zeros
      dropped). The text is a parameter so that the proof does not unfold
      the decimal conversion. */
  lemma BuildPresentIncrement(vLength: int, release: bool, text: string, p: VersionParts, next: string)
    requires vLength >= 2 && Parse(text, vLength) == Some(p) && p.build.Some?
    requires DigitsValue(p.build.value) < MaxInt && next == IntToString(DigitsValue(p.build.value) + 1)
    ensures var r := ComputeUpdate(vLength, false, release, text);
            r.Success? && r.value.newVersion == p.main + "." + next + SuffixText(!release)
  {
    NextBuildText(p.build);
    NewVersionWithBuild(vLength, false, release, text, p, next);
  }

  /** A run fails only for a length below 2, a text outside the pattern, or
      (when incrementing) a build segment too large for a Java int. */
  lemma UpdateFailsOnlyOnBadInput(vLength: int, keep: bool, release: bool, text: string)
    ensures ComputeUpdate(vLength, keep, release, text).Failure? <==>
              vLength < 2 || Parse(text, vLength).None? ||
              (!keep && Parse(text, vLength).value.build.Some? &&
               DigitsValue(Parse(text, vLength).value.build.value) > MaxInt)
  {
  }

  /** Unless an increment wraps past the largest int, the new text is itself
      accepted, and parses to the main part of the old text, the new build
      segment and the suffix chosen by `release`. */
  lemma UpdateOutputAccepted(vLength: int, keep: bool, release: bool, text: string, p: VersionParts)
    requires vLength >= 2 && Parse(text, vLength) == Some(p)
    requires keep || p.build.None? || DigitsValue(p.build.value) < MaxInt
    ensures NextBuild(p.build, keep).Success?
    ensures var r := ComputeUpdate(vLength, keep, release, text);
            r.Success? &&
            Parse(r.value.newVersion, vLength) == Some(VersionParts(p.main, NextBuild(p.build, keep).value, !release))
  {
    NextBuildDigits(p.build, keep);
    var q := VersionParts(p.main, NextBuild(p.build, keep).value, !release);
    ComputeUpdateOk(vLength, keep, release, text, p);
    assert ComputeUpdate(vLength, keep, release, text) == Success(VersionUpdate(text != Format(q), text, Format(q)));
    assert WellFormed(q, vLength);
    ParseFormat(q, vLength);
  }

  /** Idempotence: with keep set and `release` fixed, a second run on the
      first run's output produces the same text and reports no change. */
  lemma KeepIdempotent(vLength: int, release: bool, text: string, p: VersionParts)
    requires vLength >= 2 && Parse(text, vLength) == Some(p)
    ensures var u := ComputeUpdate(vLength, true, release, text);
            u.Success? &&
            ComputeUpdate(vLength, true, release, u.value.newVersion) ==
              Success(VersionUpdate(false, u.value.newVersion, u.value.newVersion))
  {
    UpdateOutputAccepted(vLength, true, release, text, p);
    var s := ComputeUpdate(vLength, true, release, text).value.newVersion;
    var q := VersionParts(p.main, p.build, !release);
    assert Parse(s, vLength) == Some(q);
    ComputeUpdateOk(vLength, true, release, s, q);
  }

  /** A keep run with `release` leaves the build segment's text as it was and
      drops any suffix. */
  lemma KeepRelease(vLength: int, text: string, p: VersionParts)
    requires vLength >= 2 && Parse(text, vLength) == Some(p)
    ensures var r := ComputeUpdate(vLength, true, true, text);
            r.Success? && Parse(r.value.newVersion, vLength) == Some(VersionParts(p.main, p.build, false))
  {
    UpdateOutputAccepted(vLength, true, true, text, p);
  }

  /** An increment run without `release` on a version without a build
      segment writes build segment 0 and the suffix; the main part is kept. */
  lemma IncrementStartsAtZero(vLength: int, text: string, p: VersionParts)
    requires vLength >= 2 && Parse(text, vLength) == Some(p) && p.build.None?
    ensures var r := ComputeUpdate(vLength, false, false, text);
            r.Success? && Parse(r.value.newVersion, vLength) == Some(VersionParts(p.main, Some("0"), true))
  {
    assert NextBuild(p.build, false) == Success(Some("0"));
    UpdateOutputAccepted(vLength, false, false, text, p);
  }

  /** An increment run without `release` raises the build value by exactly
      one and writes the suffix; the main part is kept. */
  lemma IncrementAddsOne(vLength: int, text: string, p: VersionParts)
    requires vLength >= 2 && Parse(text, vLength) == Some(p) && p.build.Some?
    requires DigitsValue(p.build.value) < MaxInt
    ensures var r := ComputeUpdate(vLength, false, false, text);
            r.Success? && Parse(r.value.newVersion, vLength).Some? &&
            var q := Parse(r.value.newVersion, vLength).value;
            q.main == p.main && q.snapshot && q.build.Some? && IsDigits(q.build.value) &&
            DigitsValue(q.build.value) == DigitsValue(p.build.value) + 1
  {
    NextBuildIncrement(p.build.value);
    UpdateOutputAccepted(vLength, false, false, text, p);
  }

  /** At the largest int the Java `++` wraps: the new build segment is
      `-2147483648`, which the next run rejects as no valid version text. */
  lemma IncrementWrapRejected(vLength: int, release: bool, text: string, p: VersionParts)
    requires vLength >= 2 && Parse(text, vLength) == Some(p)
    requires p.build.Some? && DigitsValue(p.build.value) == MaxInt
    ensures var r := ComputeUpdate(vLength, false, release, text);
            r.Success? &&
            r.value.newVersion == p.main + "." + IntToString(MinInt) + SuffixText(!release) &&
            Parse(r.value.newVersion, vLength).None?
  {
    var b := IntToString(MinInt);
    NextBuildWrap(p.build.value);
    assert NextBuild(p.build, false) == Success(Some(b));
    var out := Format(VersionParts(p.main, Some(b), !release));
    ComputeUpdateOk(vLength, false, release, text, p);
    assert ComputeUpdate(vLength, false, release, text) == Success(VersionUpdate(text != out, text, out));
    FormatWithBuild(p.main, b, !release);
    NatToStringValue(-MinInt);
    assert b[1..] == NatToString(-MinInt);
    SignedBuildRejected(vLength, p.main, b, !release);
  }

  /** A build segment made of a minus sign and digits is never accepted. */
  lemma SignedBuildRejected(vLength: int, main: string, b: string, snapshot: bool)
    requires vLength >= 2 && AllDigitRuns(SplitDots(main))
    requires |b| > 1 && b[0] == '-' && IsDigits(b[1..])
    ensures Parse(main + "." + b + SuffixText(snapshot), vLength).None?
  {
    var out := main + "." + b + SuffixText(snapshot);
    var k := |main| + 1;
    MainChars(main);
    forall i | 0 <= i < |out| ensures !IsLineTerminator(out[i]) {
      if i < |main| {
        assert out[i] == main[i];
      } else if i == |main| {
      } else if i == k {
        assert out[i] == b[0];
      } else if i < k + |b| {
        assert out[i] == b[1..][i - k - 1];
      } else {
        assert out[i] == SuffixText(snapshot)[i - k - |b|];
      }
    }
    assert DollarBody(out) == out;
    assert out[k] == '-' && out[k - 1] == '.';
    if Parse(out, vLength).Some? {
      var q := Parse(out, vLength).value;
      MinusInFormat(q, out, k);
    }
  }

  /** Before its suffix, a formatted version holds only digits and dots. */
  lemma CoreChars(q: VersionParts)
    requires AllDigitRuns(SplitDots(q.main))
    requires q.build.Some? ==> IsDigits(q.build.value)
    ensures var t := Format(q);
            forall i :: 0 <= i < |q.main + BuildText(q.build)| ==> IsDigit(t[i]) || t[i] == '.'
  {
    MainChars(q.main);
    var t := Format(q);
    forall i | 0 <= i < |q.main + BuildText(q.build)| ensures IsDigit(t[i]) || t[i] == '.' {
      if i < |q.main| {
        assert t[i] == q.main[i];
      } else if i > |q.main| {
        assert t[i] == q.build.value[i - |q.main| - 1];
      }
    }
  }

  /** In a formatted version the only minus sign is the suffix's, right
      after a digit. */
  lemma MinusInFormat(q: VersionParts, t: string, k: nat)
    requires AllDigitRuns(SplitDots(q.main))
    requires q.build.Some? ==> IsDigits(q.build.value)
    requires t == Format(q) && k < |t| && t[k] == '-'
    ensures k == |q.main + BuildText(q.build)| && k > 0 && IsDigit(t[k - 1])
  {
    var core := q.main + BuildText(q.build);
    assert k >= |core| by {
      CoreChars(q);
    }
    assert t[k] == Suffix[k - |core|];
    assert k == |core|;
    FormatLastChar(q.main, q.build);
    assert t[|core| - 1] == core[|core| - 1];
  }

  /** An increment run without `release` on `main-SNAPSHOT` writes
      `main.0-SNAPSHOT` and reports a change. */
  lemma IncrementFromNoBuild(vLength: int, main: string)
    requires vLength >= 2 && IsMain(main, vLength)
    ensures ComputeUpdate(vLength, false, false, main + Suffix) ==
              Success(VersionUpdate(true, main + Suffix, main + ".0" + Suffix))
  {
    var p := VersionParts(main, None, true);
    FormatWithoutBuild(main, true);
    ParseFormat(p, vLength);
    BuildAbsentIncrement(vLength, false, main + Suffix, p);
    ComputeUpdateOk(vLength, false, false, main + Suffix, p);
    assert |main + Suffix| != |main + ".0" + Suffix|;
  }

  /** An increment run without `release` on `main.0-SNAPSHOT` writes
      `main.1-SNAPSHOT` and reports a change. */
  lemma IncrementFromZero(vLength: int, main: string)
    requires vLength >= 2 && IsMain(main, vLength)
    ensures ComputeUpdate(vLength, false, false, main + ".0" + Suffix) ==
              Success(VersionUpdate(true, main + ".0" + Suffix, main + ".1" + Suffix))
  {
    var second := main + ".0" + Suffix;
    var third := main + ".1" + Suffix;
    assert second[|main| + 1] != third[|main| + 1];
    assert IntToString(1) == "1";
    assert main + "." + IntToString(1) + Suffix == third;
    var q := VersionParts(main, Some("0"), true);
    FormatStartBuild(main, true);
    assert DigitsValue("0") == 0;
    ParseFormat(q, vLength);
    BuildPresentIncrement(vLength, false, second, q, IntToString(DigitsValue(q.build.value) + 1));
    ComputeUpdateOk(vLength, false, false, second, q);
  }


  /** `1.0-SNAPSHOT` with version length 3: the first increment run writes
      `1.0.0-SNAPSHOT`, the second `1.0.1-SNAPSHOT`. */
  lemma ScenarioTwoIncrements(main: string)
    requires main == "1.0"
    ensures IsMain(main, 3)
    ensures ComputeUpdate(3, false, false, main + Suffix) ==
              Success(VersionUpdate(true, main + Suffix, main + ".0" + Suffix))
    ensures ComputeUpdate(3, false, false, main + ".0" + Suffix) ==
              Success(VersionUpdate(true, main + ".0" + Suffix, main + ".1" + Suffix))
  {
    assert SplitDots("1") == ["1"];
    assert LastDot(main) == 1;
    assert main[..1] == "1" && main[2..] == "0";
    assert SplitDots(main) == ["1", "0"];
    IncrementFromNoBuild(3, main);
    IncrementFromZero(3, main);
  }

  /** A text that is no version is rejected. */
  lemma MalformedRejected()
    ensures ComputeUpdate(3, false, false, "abc") == Failure(NoValidVersionText("abc"))
  {
    assert !IsDigit('a');
    assert DollarBody("abc") == "abc";
    assert SplitSuffix("abc") == ("abc", false);
    assert !IsDigits(SplitDots("abc")[0]);
  }
}
