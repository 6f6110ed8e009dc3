/** The parts of the Maven project the mojos read and update: its
    properties, the artifact and model versions, and the build's final
    name. */
module Project {
  import opened Wrappers

  class MavenProject {
    var properties: map<string, string>
    var artifactVersion: string
    var modelVersion: string
    var finalName: string

    constructor (properties: map<string, string>, version: string, finalName: string)
      ensures this.properties == properties
      ensures artifactVersion == version && modelVersion == version
      ensures this.finalName == finalName
    {
      this.properties := properties;
      artifactVersion := version;
      modelVersion := version;
      this.finalName := finalName;
    }

    /** `setProperty` of the mojos: a `null` value sets nothing. */
    method SetProperty(key: string, value: Option<string>)
      modifies this
      ensures properties == if value.Some? then old(properties)[key := value.value] else old(properties)
      ensures artifactVersion == old(artifactVersion) && modelVersion == old(modelVersion)
      ensures finalName == old(finalName)
    {
      if value.Some? {
        properties := properties[key := value.value];
      }
    }

    /** `getArtifact().selectVersion(v)` and `getModel().setVersion(v)`. */
    method SetVersion(version: string)
      modifies this
      ensures artifactVersion == version && modelVersion == version
      ensures properties == old(properties) && finalName == old(finalName)
    {
      artifactVersion := version;
      modelVersion := version;
    }
  }
}
