/** The earlier `create-xml` goal (`com.bew` `CreateXMLMojo`): the same
    steps as the current one, without publishing the final name, and with
    `setProperty` done by `Properties.put`. */
module LegacyCreateXml {
  import opened Wrappers
  import opened Errors
  import opened JavaInt
  import opened JavaRegex
  import opened PomText
  import opened BuildCounter
  import opened Project
  import CreateXml

  class LegacyCreateXmlMojo {
    const buildNumberPropertyName: string
    const keepNumber: bool
    const majorMinorVersion: Option<string>
    const numberOfIndentSpaces: int
    const release: bool
    const skip: bool
    const propertiesFile: PropertiesFile
    const pomFile: PomFile
    const theProject: MavenProject
    /** Copied from the project just before the substitution. */
    var finalName: string
    /** The `text` group of the last pom edit; `null` before the first. */
    var oldVersion: Option<string>

    constructor (buildNumberPropertyName: string, keepNumber: bool, majorMinorVersion: Option<string>,
                 numberOfIndentSpaces: int, release: bool, skip: bool,
                 propertiesFile: PropertiesFile, pomFile: PomFile, theProject: MavenProject)
      ensures this.buildNumberPropertyName == buildNumberPropertyName
      ensures this.keepNumber == keepNumber && this.majorMinorVersion == majorMinorVersion
      ensures this.numberOfIndentSpaces == numberOfIndentSpaces
      ensures this.release == release && this.skip == skip
      ensures this.propertiesFile == propertiesFile && this.pomFile == pomFile && this.theProject == theProject
      ensures finalName == "" && oldVersion == None
    {
      this.buildNumberPropertyName := buildNumberPropertyName;
      this.keepNumber := keepNumber;
      this.majorMinorVersion := majorMinorVersion;
      this.numberOfIndentSpaces := numberOfIndentSpaces;
      this.release := release;
      this.skip := skip;
      this.propertiesFile := propertiesFile;
      this.pomFile := pomFile;
      this.theProject := theProject;
      finalName := "";
      oldVersion := None;
    }

    /** `setProperty`: `put`s the project property unless the value is `null`. */
    method SetProperty(property: string, value: Option<string>)
      modifies theProject
      ensures theProject.properties ==
                if value.Some? then old(theProject.properties)[property := value.value] else old(theProject.properties)
      ensures theProject.artifactVersion == old(theProject.artifactVersion)
      ensures theProject.modelVersion == old(theProject.modelVersion)
      ensures theProject.finalName == old(theProject.finalName)
    {
      theProject.SetProperty(property, value);
    }

    /** `updateFinalName`: the first match of the old version in the final
        name is replaced by the project version; no match leaves it as is. */
    method UpdateFinalName(projectVersion: string)
      modifies this
      ensures finalName == ReplaceFirst(old(finalName), CreateXml.PatternText(oldVersion), projectVersion)
      ensures oldVersion == old(oldVersion)
    {
      finalName := ReplaceFirst(finalName, CreateXml.PatternText(oldVersion), projectVersion);
    }

    /** `updatePOM`: read the pom line by line, edit the first indented
        `<version>` line, remember its old text, and write the result back;
        on failure the file is not written. */
    method UpdatePom(projectVersion: string) returns (r: Outcome<Error>)
      modifies this, pomFile
      ensures var e := EditPom(PomTextOf(old(pomFile.content)), numberOfIndentSpaces, projectVersion);
              (e.Failure? ==> r == Fail(e.error) && pomFile.content == old(pomFile.content) && oldVersion == old(oldVersion)) &&
              (e.Success? ==> r == Pass && pomFile.content == e.value.newText && oldVersion == Some(e.value.oldVersion))
      ensures finalName == old(finalName)
    {
      var text := ReadPomText(pomFile.content);
      var e := EditPom(text, numberOfIndentSpaces, projectVersion);
      match e
      case Failure(err) =>
        return Fail(err);
      case Success(edit) =>
        oldVersion := Some(edit.oldVersion);
        pomFile.content := edit.newText;
        return Pass;
    }

    /** `execute`. Steps that succeed before a failing one keep their
        effects. */
    method Execute(now: string) returns (r: Outcome<Error>)
      modifies this, propertiesFile, pomFile, theProject
      ensures skip ==> r == Pass && unchanged(this, propertiesFile, pomFile, theProject)
      ensures !skip && majorMinorVersion.None? ==>
                r == Fail(MajorMinorNotSet) && unchanged(this, propertiesFile, pomFile, theProject)
      ensures !skip && majorMinorVersion.Some? ==>
                var c := NextRevision(old(propertiesFile.Loaded()), CreateXml.BuildNumberKey, keepNumber);
                propertiesFile.present &&
                propertiesFile.entries ==
                  (if c.Success? && !keepNumber
                   then StoreCounter(old(propertiesFile.Loaded()), CreateXml.BuildNumberKey, c.value, now)
                   else old(propertiesFile.Loaded())) &&
                (c.Failure? ==> r == Fail(c.error) && unchanged(this, pomFile, theProject))
      ensures !skip && majorMinorVersion.Some? ==>
                var c := NextRevision(old(propertiesFile.Loaded()), CreateXml.BuildNumberKey, keepNumber);
                c.Success? ==>
                  var projectVersion := ComposeVersion(majorMinorVersion.value, c.value, release);
                  var e := EditPom(PomTextOf(old(pomFile.content)), numberOfIndentSpaces, projectVersion);
                  theProject.artifactVersion == projectVersion && theProject.modelVersion == projectVersion &&
                  theProject.properties == old(theProject.properties)[buildNumberPropertyName := IntToString(c.value)] &&
                  (e.Failure? ==>
                     r == Fail(e.error) && pomFile.content == old(pomFile.content) &&
                     theProject.finalName == old(theProject.finalName) &&
                     oldVersion == old(oldVersion) && finalName == old(finalName)) &&
                  (e.Success? ==>
                     var name := ReplaceFirst(old(theProject.finalName), e.value.oldVersion, projectVersion);
                     r == Pass && pomFile.content == e.value.newText && oldVersion == Some(e.value.oldVersion) &&
                     finalName == name && theProject.finalName == name)
    {
      if skip {
        return Pass;
      }
      if majorMinorVersion.None? {
        return Fail(MajorMinorNotSet);
      }
      var counter := AdvanceCounter(propertiesFile, CreateXml.BuildNumberKey, keepNumber, now);
      if counter.Failure? {
        return Fail(counter.error);
      }
      var buildNumber := counter.value;
      SetProperty(buildNumberPropertyName, Some(IntToString(buildNumber)));
      var projectVersion := ComposeVersion(majorMinorVersion.value, buildNumber, release);
      theProject.SetVersion(projectVersion);
      r := UpdatePom(projectVersion);
      if r.Fail? {
        return;
      }
      finalName := theProject.finalName;
      UpdateFinalName(projectVersion);
      theProject.finalName := finalName;
    }
  }
}
