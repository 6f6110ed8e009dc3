/** The `create-xml` goal (`com.bewsoftware` `CreateXMLMojo`): advance the
    counter in the properties file under the fixed key `buildNumber`,
    publish it as a project property, compose `major.minor.buildNumber`
    (with `-SNAPSHOT` unless `release`), set it as the project version,
    write it into the pom's indented `<version>` line, substitute it into
    the final name, and optionally publish the final name. */
module CreateXml {
  import opened Wrappers
  import opened Errors
  import opened JavaInt
  import opened JavaRegex
  import opened PomText
  import opened BuildCounter
  import opened Project

  /** The key the counter is stored under in the properties file, whatever
      `buildNumberPropertyName` is. */
  const BuildNumberKey: string := "buildNumber"

  /** The text `"(?<text>" + oldVersion + ")"` embeds: a Java `null` is
      spelled `null`. */
  function PatternText(oldVersion: Option<string>): (t: string)
    ensures oldVersion.Some? ==> t == oldVersion.value
    ensures oldVersion.None? ==> t == "null"
  {
    match oldVersion
    case Some(v) => v
    case None => "null"
  }

  class CreateXmlMojo {
    const buildNumberPropertyName: string
    const finalBaseNamePropertyName: Option<string>
    const keepNumber: bool
    const majorMinorVersion: Option<string>
    const numberOfIndentSpaces: int
    const release: bool
    const skip: bool
    const propertiesFile: PropertiesFile
    const pomFile: PomFile
    const project: MavenProject
    /** Copied from the project just before the substitution. */
    var finalName: string
    /** The `text` group of the last pom edit; `null` before the first. */
    var oldVersion: Option<string>

    constructor (buildNumberPropertyName: string, finalBaseNamePropertyName: Option<string>,
                 keepNumber: bool, majorMinorVersion: Option<string>, numberOfIndentSpaces: int,
                 release: bool, skip: bool,
                 propertiesFile: PropertiesFile, pomFile: PomFile, project: MavenProject)
      ensures this.buildNumberPropertyName == buildNumberPropertyName
      ensures this.finalBaseNamePropertyName == finalBaseNamePropertyName
      ensures this.keepNumber == keepNumber && this.majorMinorVersion == majorMinorVersion
      ensures this.numberOfIndentSpaces == numberOfIndentSpaces
      ensures this.release == release && this.skip == skip
      ensures this.propertiesFile == propertiesFile && this.pomFile == pomFile && this.project == project
      ensures finalName == "" && oldVersion == None
    {
      this.buildNumberPropertyName := buildNumberPropertyName;
      this.finalBaseNamePropertyName := finalBaseNamePropertyName;
      this.keepNumber := keepNumber;
      this.majorMinorVersion := majorMinorVersion;
      this.numberOfIndentSpaces := numberOfIndentSpaces;
      this.release := release;
      this.skip := skip;
      this.propertiesFile := propertiesFile;
      this.pomFile := pomFile;
      this.project := project;
      finalName := "";
      oldVersion := None;
    }

    /** `setProperty`: sets the project property unless the value is `null`. */
    method SetProperty(property: string, value: Option<string>)
      modifies project
      ensures project.properties == if value.Some? then old(project.properties)[property := value.value] else old(project.properties)
      ensures project.artifactVersion == old(project.artifactVersion)
      ensures project.modelVersion == old(project.modelVersion)
      ensures project.finalName == old(project.finalName)
    {
      project.SetProperty(property, value);
    }

    /** `updateFinalName`: the first match of the old version in the final
        name is replaced by the project version; no match leaves it as is. */
    method UpdateFinalName(projectVersion: string)
      modifies this
      ensures finalName == ReplaceFirst(old(finalName), PatternText(oldVersion), projectVersion)
      ensures oldVersion == old(oldVersion)
    {
      finalName := ReplaceFirst(finalName, PatternText(oldVersion), projectVersion);
    }

    /** `updatePOM`: read the pom line by line, edit the first indented
        `<version>` line, remember its old text, and write the result back;
        on failure the file is not written. */
    method UpdatePom(projectVersion: string) returns (r: Outcome<Error>)
      modifies this, pomFile
      ensures var e := EditPom(PomTextOf(old(pomFile.content)), numberOfIndentSpaces, projectVersion);
              (e.Failure? ==> r == Fail(e.error) && pomFile.content == old(pomFile.content) && oldVersion == old(oldVersion)) &&
              (e.Success? ==> r == Pass && pomFile.content == e.value.newText && oldVersion == Some(e.value.oldVersion))
      ensures finalName == old(finalName)
    {
      var text := ReadPomText(pomFile.content);
      var e := EditPom(text, numberOfIndentSpaces, projectVersion);
      match e
      case Failure(err) =>
        return Fail(err);
      case Success(edit) =>
        oldVersion := Some(edit.oldVersion);
        pomFile.content := edit.newText;
        return Pass;
    }

    /** `execute`. Steps that succeed before a failing one keep their
        effects: the counter is stored and the project updated even when
        the pom has no `<version>` line to edit. */
    method Execute(now: string) returns (r: Outcome<Error>)
      modifies this, propertiesFile, pomFile, project
      ensures skip ==> r == Pass && unchanged(this, propertiesFile, pomFile, project)
      ensures !skip && majorMinorVersion.None? ==>
                r == Fail(MajorMinorNotSet) && unchanged(this, propertiesFile, pomFile, project)
      ensures !skip && majorMinorVersion.Some? ==>
                var c := NextRevision(old(propertiesFile.Loaded()), BuildNumberKey, keepNumber);
                propertiesFile.present &&
                propertiesFile.entries ==
                  (if c.Success? && !keepNumber then StoreCounter(old(propertiesFile.Loaded()), BuildNumberKey, c.value, now)
                   else old(propertiesFile.Loaded())) &&
                (c.Failure? ==> r == Fail(c.error) && unchanged(this, pomFile, project))
      ensures !skip && majorMinorVersion.Some? ==>
                var c := NextRevision(old(propertiesFile.Loaded()), BuildNumberKey, keepNumber);
                c.Success? ==>
                  var projectVersion := ComposeVersion(majorMinorVersion.value, c.value, release);
                  var e := EditPom(PomTextOf(old(pomFile.content)), numberOfIndentSpaces, projectVersion);
                  var withNumber := old(project.properties)[buildNumberPropertyName := IntToString(c.value)];
                  project.artifactVersion == projectVersion && project.modelVersion == projectVersion &&
                  (e.Failure? ==>
                     r == Fail(e.error) && pomFile.content == old(pomFile.content) &&
                     project.properties == withNumber && project.finalName == old(project.finalName) &&
                     oldVersion == old(oldVersion) && finalName == old(finalName)) &&
                  (e.Success? ==>
                     var name := ReplaceFirst(old(project.finalName), e.value.oldVersion, projectVersion);
                     r == Pass && pomFile.content == e.value.newText && oldVersion == Some(e.value.oldVersion) &&
                     finalName == name && project.finalName == name &&
                     project.properties ==
                       (if finalBaseNamePropertyName.Some? then withNumber[finalBaseNamePropertyName.value := name]
                        else withNumber))
    {
      if skip {
        return Pass;
      }
      if majorMinorVersion.None? {
        return Fail(MajorMinorNotSet);
      }
      var counter := AdvanceCounter(propertiesFile, BuildNumberKey, keepNumber, now);
      if counter.Failure? {
        return Fail(counter.error);
      }
      var buildNumber := counter.value;
      SetProperty(buildNumberPropertyName, Some(IntToString(buildNumber)));
      var projectVersion := ComposeVersion(majorMinorVersion.value, buildNumber, release);
      project.SetVersion(projectVersion);
      r := UpdatePom(projectVersion);
      if r.Fail? {
        return;
      }
      finalName := project.finalName;
      UpdateFinalName(projectVersion);
      project.finalName := finalName;
      if finalBaseNamePropertyName.Some? {
        SetProperty(finalBaseNamePropertyName.value, Some(finalName));
      }
    }
  }
}
