/** The field selection of `PomVersion`: which of a decoded POM's two version
    elements is the effective version. Reading the file and decoding the XML
    happen outside the model; their outcome is the input `decoded`. */
module Descriptor {
  import opened Wrappers
  import opened Errors

  /** The two elements of a POM the tool reads: `project/version` and
      `project/parent/version`; an absent element decodes as "". */
  datatype Pom = Pom(version: string, parentVersion: string)

  /** The POM's own version wins; the parent's is the fallback; a POM with
      neither is an error naming the file. */
  function EffectiveVersion(pomFile: string, pom: Pom): (r: Result<string, Error>)
    ensures r.Failure? <==> pom.version == "" && pom.parentVersion == ""
    ensures r.Failure? ==> r.error == BothVersionsEmpty(pomFile)
    ensures r.Success? ==> r.value != ""
    ensures pom.version != "" ==> r == Success(pom.version)
    ensures pom.version == "" && pom.parentVersion != "" ==> r == Success(pom.parentVersion)
  {
    if pom.version == "" && pom.parentVersion == "" then Failure(BothVersionsEmpty(pomFile))
    else if pom.version == "" then Success(pom.parentVersion)
    else Success(pom.version)
  }

  /** `PomVersion(pomFile)`: a read or decode error is returned as it is,
      otherwise the effective version of the decoded POM. */
  function PomVersion(pomFile: string, decoded: Result<Pom, string>): (r: Result<string, Error>)
    ensures decoded.Failure? ==> r == Failure(PomUnreadable(decoded.error))
    ensures decoded.Success? ==> r == EffectiveVersion(pomFile, decoded.value)
  {
    match decoded
    case Failure(cause) => Failure(PomUnreadable(cause))
    case Success(pom) => EffectiveVersion(pomFile, pom)
  }

  /** The POMs of the repository's own tests: no parent, only a parent, an
      own version overriding the parent's, and a file that does not exist.
      Reading the file is outside the model, so the missing file arrives as a
      failed read, and the clause shows only that such a read is reported. */
  lemma PomExamples(parent: string)
    ensures EffectiveVersion("pom.xml", Pom("1.0-FAKE_1234-SNAPSHOT", "")) == Success("1.0-FAKE_1234-SNAPSHOT")
    ensures EffectiveVersion("pom.xml", Pom("", "2.0-FAKE_1234-SNAPSHOT")) == Success("2.0-FAKE_1234-SNAPSHOT")
    ensures EffectiveVersion("pom.xml", Pom("3.0-FAKE_1234-SNAPSHOT", parent)) == Success("3.0-FAKE_1234-SNAPSHOT")
    ensures PomVersion("nosuch-pom.xml", Failure("no such file")).Failure?
  {
  }
}
