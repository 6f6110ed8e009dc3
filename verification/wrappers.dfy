/** Option, Result and Outcome, the wrappers used for the plugin's null
    values, return values and exceptions. */
module Wrappers {

  datatype Option<+T> = None | Some(value: T)

  /** A computation that either yields a value or fails with an error. */
  datatype Result<+T, +E> = Success(value: T) | Failure(error: E)

  /** A computation without a value that either completes or fails. */
  datatype Outcome<+E> = Pass | Fail(error: E)

  /** The value stored under `key`, or `None` when the key is absent
      (java.util.Properties.getProperty). */
  function Lookup<K, V>(m: map<K, V>, key: K): (r: Option<V>)
    ensures r.Some? <==> key in m
    ensures r.Some? ==> r.value == m[key]
  {
    if key in m then Some(m[key]) else None
  }
}

/** The failures the plugin reports, one per throw site. */
module Errors {

  datatype Error =
      /** `version.number.length` below 2 (MojoExecutionException). */
    | VersionLengthTooSmall(length: int)
      /** The /project/version text does not fit the version pattern (MojoFailureException). */
    | NoValidVersionText(text: string)
      /** The build segment does not fit a Java int (NumberFormatException from Integer.parseInt). */
    | BuildSegmentOutOfRange(digits: string)
      /** The `major.minor.version` property is not set (MojoFailureException). */
    | MajorMinorNotSet
      /** The stored counter is not a Java int (MojoExecutionException). */
    | CounterNotInteger(text: string)
      /** A negative indent makes the `[ ]{n}` pattern illegal (PatternSyntaxException). */
    | IllegalIndent(indent: int)
      /** No indented `<version>` line in the pom (MojoExecutionException). */
    | VersionTagNotFound
}
