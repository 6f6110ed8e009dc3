/** `AbstractBuildNumberMojo`, the parent of the `increment` and `keep`
    goals: run `Utils.updateBuildNumber` on the pom document and, when the
    version text changed, carry the new version into the project. */
module BuildNumber {
  import opened Wrappers
  import opened Errors
  import opened JavaRegex
  import opened Utils
  import opened Project

  class BuildNumberMojo {
    /** `version.number.length`. */
    const length: int
    const release: bool
    const skip: bool
    const theProject: MavenProject
    /** The pom document `updateBuildNumber` reads and rewrites. */
    const pom: PomDocument

    constructor (length: int, release: bool, skip: bool, theProject: MavenProject, pom: PomDocument)
      ensures this.length == length && this.release == release && this.skip == skip
      ensures this.theProject == theProject && this.pom == pom
    {
      this.length := length;
      this.release := release;
      this.skip := skip;
      this.theProject := theProject;
      this.pom := pom;
    }

    /** `updateProjectVersion`: the artifact and model take the new version,
        and the first match of the old version in the final name is
        replaced by it. */
    method UpdateProjectVersion(newVersion: string, oldVersion: string)
      modifies theProject
      ensures theProject.artifactVersion == newVersion && theProject.modelVersion == newVersion
      ensures theProject.finalName == ReplaceFirst(old(theProject.finalName), oldVersion, newVersion)
      ensures theProject.properties == old(theProject.properties)
    {
      theProject.SetVersion(newVersion);
      theProject.finalName := ReplaceFirst(theProject.finalName, oldVersion, newVersion);
    }

    /** `run(keep)`: `false` when skipped; otherwise the outcome of
        `updateBuildNumber` (its failures propagate), with the project
        updated only when the version text changed, and then `true`. */
    method Run(keep: bool) returns (r: Result<bool, Error>)
      modifies theProject, pom
      ensures skip ==> r == Success(false) && unchanged(theProject, pom)
      ensures !skip ==>
                var u := ComputeUpdate(length, keep, release, old(pom.version));
                (u.Failure? ==> r == Failure(u.error) && unchanged(theProject) && pom.version == old(pom.version)) &&
                (u.Success? ==> r == Success(true) && pom.version == u.value.newVersion) &&
                (u.Success? && !u.value.changed ==> unchanged(theProject)) &&
                (u.Success? && u.value.changed ==>
                   theProject.artifactVersion == u.value.newVersion &&
                   theProject.modelVersion == u.value.newVersion &&
                   theProject.finalName == ReplaceFirst(old(theProject.finalName), u.value.oldVersion, u.value.newVersion) &&
                   theProject.properties == old(theProject.properties))
    {
      if skip {
        return Success(false);
      }
      var u := UpdateBuildNumber(length, keep, release, pom);
      if u.Failure? {
        return Failure(u.error);
      }
      if u.value.changed {
        UpdateProjectVersion(u.value.newVersion, u.value.oldVersion);
      }
      return Success(true);
    }
  }
}
