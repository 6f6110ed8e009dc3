/** The `create` goal (`com.bew` `CreateMojo`): unless a previous execution
    already published the revision (`runOnce`), advance the counter in the
    properties file under the configured property name and publish it as a
    project property. */
module Create {
  import opened Wrappers
  import opened Errors
  import opened JavaInt
  import opened BuildCounter
  import opened Project

  class CreateMojo {
    const buildNumberPropertyName: string
    const keepNumber: bool
    const propertiesFile: PropertiesFile
    const runOnce: bool
    const skip: bool
    const project: MavenProject
    /** The revision published by this execution, or found from an earlier one. */
    var revision: Option<string>

    constructor (buildNumberPropertyName: string, keepNumber: bool, propertiesFile: PropertiesFile,
                 runOnce: bool, skip: bool, project: MavenProject)
      ensures this.buildNumberPropertyName == buildNumberPropertyName && this.keepNumber == keepNumber
      ensures this.propertiesFile == propertiesFile && this.runOnce == runOnce && this.skip == skip
      ensures this.project == project && revision == None
    {
      this.buildNumberPropertyName := buildNumberPropertyName;
      this.keepNumber := keepNumber;
      this.propertiesFile := propertiesFile;
      this.runOnce := runOnce;
      this.skip := skip;
      this.project := project;
      revision := None;
    }

    /** `execute`. With `runOnce`, a revision already published under the
        property name stops the execution before the properties file is
        touched; a successful execution publishes one, so the next execution
        of the same build stops there. */
    method Execute(now: string) returns (r: Outcome<Error>)
      modifies this, propertiesFile, project
      ensures skip ==> r == Pass && unchanged(this, propertiesFile, project)
      ensures !skip ==> revision == Lookup(old(project.properties), buildNumberPropertyName) || r.Pass?
      ensures !skip && runOnce && buildNumberPropertyName in old(project.properties) ==>
                r == Pass && revision == Some(old(project.properties)[buildNumberPropertyName]) &&
                unchanged(propertiesFile, project)
      ensures !skip && !(runOnce && buildNumberPropertyName in old(project.properties)) ==>
                var c := NextRevision(old(propertiesFile.Loaded()), buildNumberPropertyName, keepNumber);
                propertiesFile.present &&
                propertiesFile.entries ==
                  (if c.Success? && !keepNumber
                   then StoreCounter(old(propertiesFile.Loaded()), buildNumberPropertyName, c.value, now)
                   else old(propertiesFile.Loaded())) &&
                (c.Failure? ==>
                   r == Fail(c.error) && revision == Lookup(old(project.properties), buildNumberPropertyName) &&
                   unchanged(project)) &&
                (c.Success? ==>
                   r == Pass && revision == Some(IntToString(c.value)) &&
                   project.properties == old(project.properties)[buildNumberPropertyName := IntToString(c.value)] &&
                   project.artifactVersion == old(project.artifactVersion) &&
                   project.modelVersion == old(project.modelVersion) &&
                   project.finalName == old(project.finalName))
      ensures !skip && r.Pass? ==> buildNumberPropertyName in project.properties
    {
      if skip {
        return Pass;
      }
      revision := Lookup(project.properties, buildNumberPropertyName);
      if runOnce && revision.Some? {
        return Pass;
      }
      var counter := AdvanceCounter(propertiesFile, buildNumberPropertyName, keepNumber, now);
      if counter.Failure? {
        return Fail(counter.error);
      }
      revision := Some(IntToString(counter.value));
      project.SetProperty(buildNumberPropertyName, revision);
      return Pass;
    }
  }
}
