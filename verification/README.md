# simple-buildnumber-maven-plugin, modelled in Dafny

This project models the version arithmetic and text rewriting of the Maven
plugin `simple-buildnumber-maven-plugin`. The plugin has five core pieces:

- **`Utils.updateBuildNumber`.** It is used by the `increment` and `keep`
  goals through `AbstractBuildNumberMojo.run`.
  - It reads the pom's `/project/version` text and matches it against
    `^main(\.build)?(-SNAPSHOT)?$`, where `main` has `version.number.length - 1`
    dot-separated digit runs.
  - It keeps, starts (`.0`) or increments (Java `++`) the build segment, then
    forces the `-SNAPSHOT` suffix on or off according to `release`.
  - It rewrites the document only when the text changed, and tells the caller
    whether it did.
- **`Utils.updateFinalName`.** It replaces the first match of the old version
  in the build's final name. The old version is compiled as a regular
  expression, so each `.` in it matches any character.
- **The two `CreateXMLMojo`s (`create-xml` goal, current and legacy).**
  - They advance a counter kept in a properties file under the key
    `buildNumber`, and publish it as a project property.
  - They compose `major.minor.counter` (with `-SNAPSHOT` unless `release`) and
    set it as the project version.
  - They rewrite the text of the first indented `<version>` line of the pom,
    read line by line.
  - They substitute the version into the final name. The current one can also
    publish the final name as a property.
- **`CreateMojo` (`create` goal).** It advances the counter under a
  configurable key, with a run-once guard keyed on the project's properties.
- **`AbstractBuildNumberMojo`.** It handles skipping, runs `updateBuildNumber`,
  and carries a changed version into the artifact, the model and the final
  name.

## Modules and forms

- **Value-level modules.** They hold datatypes, functions and lemmas:
  - `Wrappers` and `Errors`: results, and one error per throw site;
  - `JavaInt`: `Integer.parseInt`, `Integer.toString` and the wrapping `++`;
  - `JavaRegex`: line terminators, `$`, the dot-as-wildcard pattern, and
    `find` + `appendReplacement` + `appendTail`;
  - `Utils` and `VersionRules`: the version grammar and the update rules;
  - `PomText`: the pom read loop and the `<version>` line edit.
- **State-changing code.** It is modelled as classes whose methods carry
  `modifies` clauses:
  - `Utils.PomDocument` and `Utils.UpdateBuildNumber`;
  - `PomText.PomFile` and `PomText.ReadPomText` (the `readLine` loop);
  - `BuildCounter.PropertiesFile` and `BuildCounter.AdvanceCounter`;
  - `Project.MavenProject`;
  - the mojo classes `CreateXml.CreateXmlMojo`,
    `LegacyCreateXml.LegacyCreateXmlMojo`, `Create.CreateMojo` and
    `BuildNumber.BuildNumberMojo`.
- Each method's `ensures` ties the new state to the functions that specify it.
  The lemmas prove what those functions promise.

### Notes on the source's behaviour

- **Final-name substitution is a regex replacement.** `Utils.updateFinalName`
  (Utils.java:232) and both `updateFinalName` methods of the mojos compile the
  old version as a pattern, so a `.` in it is a wildcard.
  - `JavaRegex.ReplaceFirst` lets each `.` match any character except a line
    terminator (`JavaRegex.DotMatchesAnyCharacter`).
  - For a text without dots, a match is exactly a literal occurrence
    (`JavaRegex.LiteralMatch`).
- **`main` has exactly N-1 runs.** The pattern at Utils.java:128-130 repeats
  `\.\d+` exactly `version.number.length - 2` times. So the runs of the text
  before the suffix are read as follows:
  - fewer than N-1 runs: the match fails;
  - exactly N-1 runs: all of them are `main`, and there is no build segment;
  - exactly N runs: the last one is the build segment.
- **`++` wraps.** The counter and the build segment are Java ints: `++` takes
  2147483647 to -2147483648 (CreateXMLMojo.java:398, Utils.java:162).
  - `BuildCounter.CounterWraps` and `VersionRules.IncrementWrapRejected` show
    the wrap.
  - `BuildCounter.ComposedNegativeRejected` shows that the resulting text is
    rejected.
- **The `increment` and `keep` goals never touch the properties file.** Their
  build segment comes from the pom text alone (`VersionRules.IncrementFromNoBuild`,
  `VersionRules.IncrementFromZero`, `VersionRules.ScenarioTwoIncrements`).

## Model

| member | source | states |
|---|---|---|
| JavaInt.ParseInt | src/main/java/com/bewsoftware/mojo/buildnumber/simple/CreateXMLMojo.java:383-391 | `Integer.parseInt`: a result exactly for the texts `IsIntText` describes, that is digits of a value at most 2147483647, or a `+` or `-` followed by digits whose signed value fits an int; anything else (`1x`, an empty text, a lone sign) is rejected; the value is that of the digits, negated after a `-` |
| JavaInt.Inc32 | src/main/java/com/bewsoftware/mojo/buildnumber/simple/CreateXMLMojo.java:398 | `++` on an int adds one below the largest int and wraps to the smallest at it; the result stays in range |
| JavaInt.ParseIntToString | src/main/java/com/bewsoftware/mojo/buildnumber/simple/CreateXMLMojo.java:385-398 | round trip: the text `String.valueOf` stores for any int is parsed back by `Integer.parseInt` as the same int |
| JavaInt.NatToStringValue | src/main/java/com/bewsoftware/mojo/buildnumber/simple/Utils.java:162 | the decimal text of a natural number is a digit string whose value is that number |
| JavaRegex.DollarBody | src/main/java/com/bewsoftware/mojo/buildnumber/simple/Utils.java:128-130 | what `$` lets the pattern match: the whole text when it does not end in a line terminator; otherwise the text without that terminator, and without both characters of a final `\r\n`; the removed part is always a line terminator or `\r\n` |
| JavaRegex.FirstMatch | src/main/java/com/bewsoftware/mojo/buildnumber/simple/Utils.java:235-238 | `find`: the leftmost position at or after `from` where the pattern matches, with no match before it; `None` only when it matches nowhere |
| JavaRegex.ReplaceFirst | src/main/java/com/bewsoftware/mojo/buildnumber/simple/Utils.java:226-251 | `updateFinalName`: with no match the name comes back unchanged; otherwise the leftmost match is replaced by the new version and the text before and after it is kept |
| JavaRegex.ReplaceFirstShape | src/main/java/com/bewsoftware/mojo/buildnumber/simple/Utils.java:238-246 | the replaced name has the old length minus the pattern's plus the replacement's, and keeps the prefix before the match and the tail after it, character for character |
| JavaRegex.LiteralMatch | src/main/java/com/bewsoftware/mojo/buildnumber/simple/Utils.java:232-235 | a pattern without `.` matches at a position exactly when the same text occurs there (both directions) |
| JavaRegex.OccurrenceIsMatch | src/main/java/com/bewsoftware/mojo/buildnumber/simple/Utils.java:232-238 | every literal occurrence of the old version is a match, so the replaced match is never later than the first occurrence |
| JavaRegex.ReplaceAfterPrefix | src/main/java/com/bewsoftware/mojo/buildnumber/simple/Utils.java:232-246 | in `pre + mid + post`, where `mid` matches the pattern and `pre` lacks the pattern's first (literal) character, the result is `pre + newVersion + post` |
| JavaRegex.ReplaceFirstExample | src/main/java/com/bewsoftware/mojo/buildnumber/simple/Utils.java:226-251 | `app-1.0.0-SNAPSHOT.jar` with old version `1.0.0-SNAPSHOT` and new version `1.0.1` becomes `app-1.0.1.jar` |
| JavaRegex.DotMatchesAnyCharacter | src/main/java/com/bewsoftware/mojo/buildnumber/simple/Utils.java:232-240 | the old version `1.0` is found in `app-1x0.jar`, which becomes `app-2.0.jar`: a dot in the old version matches any character |
| Utils.PartsOf | src/main/java/com/bewsoftware/mojo/buildnumber/simple/Utils.java:128-139 | the `main` and `build` groups of the text before the suffix: whatever is accepted has a `main` of exactly `version.number.length - 1` digit runs and an all-digit build segment, and main, dot and build give back that text |
| Utils.SplitSuffix | src/main/java/com/bewsoftware/mojo/buildnumber/simple/Utils.java:128-130 | the optional `-SNAPSHOT` group: it is taken exactly when the matched text ends in `-SNAPSHOT`, and the text before it together with the group gives back the matched text |
| Utils.Parse | src/main/java/com/bewsoftware/mojo/buildnumber/simple/Utils.java:128-139 | an accepted text yields well-formed groups, and formatting the groups gives back the text (up to a final line terminator) |
| Utils.NextBuild | src/main/java/com/bewsoftware/mojo/buildnumber/simple/Utils.java:145-164 | keep returns the segment unchanged; an increment fails only on a segment `Integer.parseInt` rejects, and otherwise yields a segment ending in a digit |
| Utils.ComputeUpdate | src/main/java/com/bewsoftware/mojo/buildnumber/simple/Utils.java:102-209 | a length below 2 and a text outside the pattern fail with their own errors; a success carries the old text, a changed flag that holds exactly when the new text differs, and a new text that ends in `-SNAPSHOT` exactly when `release` is off |
| Utils.UpdateBuildNumber | src/main/java/com/bewsoftware/mojo/buildnumber/simple/Utils.java:91-214 | the result is `ComputeUpdate` of the document's text; a length below 2 leaves the document untouched; the document takes the new text only when the text changed |
| Utils.ParseFormat | src/main/java/com/bewsoftware/mojo/buildnumber/simple/Utils.java:128-139 | completeness: every well-formed version, formatted, is accepted and parses back to the same groups |
| Utils.ParseAcceptsExactlyFormats | src/main/java/com/bewsoftware/mojo/buildnumber/simple/Utils.java:128-135 | a text is accepted with groups `p` exactly when `p` is well formed and its format is the text (up to one final line terminator) |
| Utils.FormatSuffix | src/main/java/com/bewsoftware/mojo/buildnumber/simple/Utils.java:166-181 | a formatted version ends in `-SNAPSHOT` exactly when the suffix was chosen |
| Utils.SplitAppend | src/main/java/com/bewsoftware/mojo/buildnumber/simple/Utils.java:128-129 | appending `.b` (with `b` dot-free) adds exactly one run `b` after the runs of the text |
| VersionRules.UpdateFailsOnlyOnBadInput | src/main/java/com/bewsoftware/mojo/buildnumber/simple/Utils.java:102-209 | a run fails exactly when the length is below 2, the text is rejected, or an increment meets a build segment above the largest int |
| VersionRules.BuildAbsentKeep | src/main/java/com/bewsoftware/mojo/buildnumber/simple/Utils.java:145-149 | no build segment and keep: the new text is the main part and the chosen suffix, with no build segment |
| VersionRules.BuildAbsentIncrement | src/main/java/com/bewsoftware/mojo/buildnumber/simple/Utils.java:145-153 | no build segment and increment: the new text is the main part, `.0` and the chosen suffix |
| VersionRules.BuildPresentKeep | src/main/java/com/bewsoftware/mojo/buildnumber/simple/Utils.java:154-158 | a build segment and keep: its digits are kept verbatim, leading zeros included |
| VersionRules.BuildPresentIncrement | src/main/java/com/bewsoftware/mojo/buildnumber/simple/Utils.java:159-163 | a build segment below the largest int and increment: the segment becomes `next`, given as the decimal text of its value plus one |
| VersionRules.NextBuildIncrement | src/main/java/com/bewsoftware/mojo/buildnumber/simple/Utils.java:161-162 | the incremented segment is a digit string whose value is the old value plus one |
| VersionRules.NextBuildWrap | src/main/java/com/bewsoftware/mojo/buildnumber/simple/Utils.java:161-162 | a build segment equal to the largest int is incremented to `-2147483648` |
| VersionRules.UpdateOutputAccepted | src/main/java/com/bewsoftware/mojo/buildnumber/simple/Utils.java:137-181 | unless an increment wraps, the new text is accepted again and parses to the old main part, the new build segment and the suffix chosen by `release` |
| VersionRules.KeepIdempotent | src/main/java/com/bewsoftware/mojo/buildnumber/simple/Utils.java:145-185 | with keep and a fixed `release`, a second run on the first run's output gives the same text and reports no change |
| VersionRules.KeepRelease | src/main/java/com/bewsoftware/mojo/buildnumber/simple/Utils.java:156-177 | a keep run with `release` keeps the main part and build segment and drops the suffix |
| VersionRules.IncrementStartsAtZero | src/main/java/com/bewsoftware/mojo/buildnumber/simple/Utils.java:150-173 | an increment run without `release` on a text without a build segment yields build segment `0`, the same main part and the suffix |
| VersionRules.IncrementAddsOne | src/main/java/com/bewsoftware/mojo/buildnumber/simple/Utils.java:159-173 | an increment run without `release` raises the build value by exactly one and keeps the main part |
| VersionRules.IncrementWrapRejected | src/main/java/com/bewsoftware/mojo/buildnumber/simple/Utils.java:159-163 | at the largest int the new text carries `.-2147483648`, and that text is rejected by the next run |
| VersionRules.SignedBuildRejected | src/main/java/com/bewsoftware/mojo/buildnumber/simple/Utils.java:128-130 | a build segment of a minus sign followed by digits is never accepted |
| VersionRules.IncrementFromNoBuild | src/main/java/com/bewsoftware/mojo/buildnumber/simple/Utils.java:145-185 | an increment run on `main-SNAPSHOT` writes `main.0-SNAPSHOT` and reports a change |
| VersionRules.IncrementFromZero | src/main/java/com/bewsoftware/mojo/buildnumber/simple/Utils.java:154-185 | an increment run on `main.0-SNAPSHOT` writes `main.1-SNAPSHOT` and reports a change |
| VersionRules.ScenarioTwoIncrements | src/main/java/com/bewsoftware/mojo/buildnumber/simple/Utils.java:128-185 | with version length 3, `1.0-SNAPSHOT` becomes `1.0.0-SNAPSHOT` and then `1.0.1-SNAPSHOT` |
| VersionRules.MalformedRejected | src/main/java/com/bewsoftware/mojo/buildnumber/simple/Utils.java:205-209 | `abc` fails with "no valid version text" |
| BuildCounter.PropertiesFile.Loaded | src/main/java/com/bewsoftware/mojo/buildnumber/simple/CreateXMLMojo.java:341-368 | a missing properties file is created empty and then loaded, so it yields no entries; an existing file yields its entries |
| BuildCounter.StoredCounter | src/main/java/com/bewsoftware/mojo/buildnumber/simple/CreateXMLMojo.java:372-391 | a missing key reads as 0; a present value succeeds exactly when `Integer.parseInt` accepts it, and fails with that text otherwise |
| BuildCounter.NextRevision | src/main/java/com/bewsoftware/mojo/buildnumber/simple/CreateXMLMojo.java:381-398 | keep uses the stored counter as read; increment applies the wrapping `++`; failures are the stored counter's |
| BuildCounter.StoreCounter | src/main/java/com/bewsoftware/mojo/buildnumber/simple/CreateXMLMojo.java:398-399 | the counter text is stored under its key and the timestamp under `time`; every other entry is kept and none is added |
| BuildCounter.AdvanceCounter | src/main/java/com/bewsoftware/mojo/buildnumber/simple/CreateXMLMojo.java:341-411 | the file exists afterwards; the result is the next revision of what was loaded (an absent file loads empty); the entries are stored only on a successful increment |
| BuildCounter.CounterReadBack | src/main/java/com/bewsoftware/mojo/buildnumber/simple/CreateXMLMojo.java:372-399 | what an increment stores is read back by the next run as the same number |
| BuildCounter.FirstRunIsOne | src/main/java/com/bewsoftware/mojo/buildnumber/simple/CreateXMLMojo.java:376-398 | an empty file reads as 0, and the first increment yields 1 |
| BuildCounter.TwoRunsAddTwo | src/main/java/com/bewsoftware/mojo/buildnumber/simple/CreateXMLMojo.java:372-399 | two incrementing runs raise the counter by exactly two below the largest int |
| BuildCounter.CounterWraps | src/main/java/com/bewsoftware/mojo/buildnumber/simple/CreateXMLMojo.java:398 | at the largest int the counter becomes -2147483648, and the next run reads that back |
| BuildCounter.TimeKeyOverwritesCounter | src/main/java/com/bew/mojo/buildnumber/simple/CreateMojo.java:161-162 | with the counter key `time`, the timestamp overwrites the counter, and the next run parses the timestamp |
| BuildCounter.ComposeVersion | src/main/java/com/bewsoftware/mojo/buildnumber/simple/CreateXMLMojo.java:428 | the composed project version ends in `-SNAPSHOT` exactly when `release` is off |
| BuildCounter.ComposedVersionAccepted | src/main/java/com/bewsoftware/mojo/buildnumber/simple/CreateXMLMojo.java:428 | with a well-formed major/minor text and a non-negative counter, `updateBuildNumber` accepts the composed version and finds the major/minor text as `main` and the counter as build segment |
| BuildCounter.ComposedNegativeRejected | src/main/java/com/bewsoftware/mojo/buildnumber/simple/CreateXMLMojo.java:428 | a negative counter (after a wrap) makes a composed version that `updateBuildNumber` rejects |
| PomText.LineEnd | src/main/java/com/bewsoftware/mojo/buildnumber/simple/CreateXMLMojo.java:508-510 | `readLine`'s line end: the line starting at `i` ends at the first `\n` or `\r` at or after `i`, or at the end of the input; no break lies before it |
| PomText.NextLine | src/main/java/com/bewsoftware/mojo/buildnumber/simple/CreateXMLMojo.java:508-510 | where the next line starts: after `\r\n` (one terminator) two characters on, after a lone `\n` or `\r` one character on, and nowhere past the end |
| PomText.ReadPomText | src/main/java/com/bewsoftware/mojo/buildnumber/simple/CreateXMLMojo.java:508-513 | the `readLine` loop produces exactly `PomTextOf(raw)`: every line of the file, each ending in `\n` |
| PomText.LinesFromNormal | src/main/java/com/bewsoftware/mojo/buildnumber/simple/CreateXMLMojo.java:510-513 | the text read has no `\r`, and is empty or ends in `\n` |
| PomText.LinesFromIdentity | src/main/java/com/bewsoftware/mojo/buildnumber/simple/CreateXMLMojo.java:510-513 | reading back a text in that form gives the same text |
| PomText.PomTextIdempotent | src/main/java/com/bewsoftware/mojo/buildnumber/simple/CreateXMLMojo.java:508-513 | reading is idempotent: a second read of the text read changes nothing |
| PomText.RunEnd | src/main/java/com/bewsoftware/mojo/buildnumber/simple/CreateXMLMojo.java:501 | where `[^<]*` stops: no `<` before it, and a `<` at it unless it is the end of the text |
| PomText.SpaceEnd | src/main/java/com/bewsoftware/mojo/buildnumber/simple/CreateXMLMojo.java:501 | where `[ ]*` stops: only spaces before it, and no space at it |
| PomText.FindVersionLine | src/main/java/com/bewsoftware/mojo/buildnumber/simple/CreateXMLMojo.java:501-522 | `find` under MULTILINE: the leftmost line start with exactly `indent` spaces, `<version>`, text, `</version>`, spaces and `\n`; `None` only when there is none |
| PomText.EditPom | src/main/java/com/bewsoftware/mojo/buildnumber/simple/CreateXMLMojo.java:519-535 | a negative indent is an illegal pattern; no version line is `<version> tag: Not Found`; otherwise only the first line's `text` group is replaced, everything else is kept, and the old group is returned |
| PomText.EditedLineFoundFirst | src/main/java/com/bewsoftware/mojo/buildnumber/simple/CreateXMLMojo.java:522-529 | after an edit with a version free of `<`, the first version line is still the edited one and its text is the version written |
| PomText.EditTwice | src/main/java/com/bewsoftware/mojo/buildnumber/simple/CreateXMLMojo.java:522-535 | a second edit of an edited text finds the version the first edit wrote as its old version, and gives what one edit with the second version gives |
| PomText.EditKeepsNormal | src/main/java/com/bewsoftware/mojo/buildnumber/simple/CreateXMLMojo.java:508-540 | an edit of the text read, with a version free of `\r`, gives text that reads back unchanged |
| PomText.PomRoundTrip | src/main/java/com/bewsoftware/mojo/buildnumber/simple/CreateXMLMojo.java:498-547 | the pom written by one run, read by the next run with the same indent, yields the first run's version as old version, and the file is what one run with the second version writes |
| PomText.TailBeforeAngle | src/main/java/com/bewsoftware/mojo/buildnumber/simple/CreateXMLMojo.java:501 | the `tail` group before a `<` depends only on the text up to that `<` |
| PomText.RunEndAt | src/main/java/com/bewsoftware/mojo/buildnumber/simple/CreateXMLMojo.java:501 | `[^<]*` stops at the first `<` |
| PomText.FindFirstAt | src/main/java/com/bewsoftware/mojo/buildnumber/simple/CreateXMLMojo.java:522 | a version line with none before it is the one `find` returns |
| Project.MavenProject.SetProperty | src/main/java/com/bewsoftware/mojo/buildnumber/simple/CreateXMLMojo.java:459-464 | a `null` value leaves the properties as they were; otherwise the key is set; nothing else changes |
| Project.MavenProject.SetVersion | src/main/java/com/bewsoftware/mojo/buildnumber/simple/CreateXMLMojo.java:430-433 | the artifact and the model take the version; properties and final name are kept |
| CreateXml.PatternText | src/main/java/com/bewsoftware/mojo/buildnumber/simple/CreateXMLMojo.java:469 | the old version as it appears in the pattern; `null` is spelled `null` |
| CreateXml.CreateXmlMojo.SetProperty | src/main/java/com/bewsoftware/mojo/buildnumber/simple/CreateXMLMojo.java:459-464 | a `null` value sets nothing; otherwise the project property is set; artifact, model and final name are kept |
| CreateXml.CreateXmlMojo.UpdateFinalName | src/main/java/com/bewsoftware/mojo/buildnumber/simple/CreateXMLMojo.java:466-488 | the final name field becomes the first-match replacement of the old version by the project version |
| CreateXml.CreateXmlMojo.UpdatePom | src/main/java/com/bewsoftware/mojo/buildnumber/simple/CreateXMLMojo.java:498-547 | on failure the file and the old version are left as they were; on success the file holds the edited text and the old version is the replaced text group |
| CreateXml.CreateXmlMojo.Execute | src/main/java/com/bewsoftware/mojo/buildnumber/simple/CreateXMLMojo.java:290-453 | skip changes nothing; a missing `major.minor.version` fails before any file work; the counter is advanced under `buildNumber` and published under `buildNumberPropertyName`; artifact and model take the composed version; a failed pom edit stops before the final name; otherwise the final name is substituted and, when configured, published |
| LegacyCreateXml.LegacyCreateXmlMojo.SetProperty | src/main/java/com/bew/mojo/buildnumber/simple/CreateXMLMojo.java:427-432 | a `null` value puts nothing; otherwise the key is put; artifact, model and final name are kept |
| LegacyCreateXml.LegacyCreateXmlMojo.UpdateFinalName | src/main/java/com/bew/mojo/buildnumber/simple/CreateXMLMojo.java:434-456 | the final name field becomes the first-match replacement of the old version by the project version |
| LegacyCreateXml.LegacyCreateXmlMojo.UpdatePom | src/main/java/com/bew/mojo/buildnumber/simple/CreateXMLMojo.java:466-515 | on failure the file and the old version are left as they were; on success the file holds the edited text and the old version is the replaced text group |
| LegacyCreateXml.LegacyCreateXmlMojo.Execute | src/main/java/com/bew/mojo/buildnumber/simple/CreateXMLMojo.java:212-369 | skip changes nothing; a missing `major.minor.version` fails before any file work; the counter is advanced and published; artifact and model take the composed version; the pom edit comes before the final name, which is substituted with the old text the edit found |
| Create.CreateMojo.Execute | src/main/java/com/bew/mojo/buildnumber/simple/CreateMojo.java:105-184 | skip changes nothing; with `runOnce` a published revision ends the run before the file is touched; otherwise the counter is advanced under the configured key, and on success the revision is published under it, so a `runOnce` rerun stops early |
| BuildNumber.BuildNumberMojo.UpdateProjectVersion | src/main/java/com/bewsoftware/mojo/buildnumber/simple/AbstractBuildNumberMojo.java:136-154 | artifact and model take the new version; the final name is the first-match replacement of the old version by the new one; properties are kept |
| BuildNumber.BuildNumberMojo.Run | src/main/java/com/bewsoftware/mojo/buildnumber/simple/AbstractBuildNumberMojo.java:105-128 | skip returns false and changes nothing; failures of `updateBuildNumber` propagate with the project untouched; otherwise the result is true and the project changes only when the version text changed |

## Left out

- File I/O and its failures are not modelled: creating the properties file
  and its directories, `Properties.load`/`store` and their text format and
  escaping, reading and writing the pom, dom4j `SAXReader`/`XMLWriter`, and
  the exceptions they raise. The properties file is a map, and the pom is a
  string or, for `Utils`, its `/project/version` text.
- The timestamp (`Calendar` epoch seconds) is a parameter, `now`.
- Logging and the long error and warning texts are not modelled; the errors
  are the constructors of `Errors.Error`.
- The Maven framework (annotations, parameters, `MavenProject`, `Artifact`,
  `Model`) is reduced to `Project.MavenProject`. The project is a required
  parameter (`required = true`), and the `project == null` branches are not
  modelled. The two `CreateXMLMojo`s and `AbstractBuildNumberMojo.run`
  dereference the project before their check. `CreateMojo` relies on
  `required = true` alone: with a null project it returns without any file
  work (CreateMojo.java:112), and that no-op is not modelled.
- `EvalMojo`, `IncrementMojo` and `KeepMojo` are not part of this model. The
  last two only call `run(false)` and `run(true)`, which
  `BuildNumber.BuildNumberMojo.Run` covers. The test class is not modelled.
- The unused `SEMVAR` and `VERSIONING` constants of `Utils` are not modelled.
- JavaRegex.ReplaceFirst: `.` is the only metacharacter modelled; every other
  pattern character is taken literally. This is exact for the versions
  `Utils` accepts and composes (digits, dots, `-SNAPSHOT`). It is not exact
  for a pom `<version>` text holding other metacharacters. `$` and `\` in the
  replacement, which `appendReplacement` treats specially, are taken
  literally too.
- CreateXml.CreateXmlMojo.UpdateFinalName: the old version captured from the
  pom is embedded in the pattern as is; a text holding regex syntax other
  than `.` (or unbalanced brackets that make the pattern illegal) is taken
  literally instead.
- LegacyCreateXml.LegacyCreateXmlMojo.UpdateFinalName: the same limitation.
- JavaInt.ParseInt: only ASCII digits are modelled; `Integer.parseInt` also
  accepts other Unicode decimal digits.
- Utils.UpdateBuildNumber: the document is its trimmed version text. The
  whitespace normalisation of `getTextTrim`, a missing `<version>` element
  (a `NullPointerException`) and the reformatting done by `XMLWriter` are
  not modelled.
- PomText.EditPom: the replacement `lead + projectVersion + tail` is spliced
  literally. `appendReplacement` treats `$` (a group reference) and `\` (an
  escape) in it specially, and `projectVersion` carries the unchecked
  `major.minor.version` text, so a `$` or `\` there is not modelled (nor is the
  exception an unknown group reference raises).
- PomText.EditPom: a version written into the pom that holds `<` or `\r` is
  allowed, but the round-trip lemmas assume it holds neither, since such a
  text changes what the next run finds.
