/** The build script's use of the parser: ask rustc for its version, ask
    once more through clippy's driver if clippy answered, insist on major
    version 1, and hand the result to the library as its `RustVersion`.
    Running the commands, decoding their output and writing files are not
    modelled: the two outputs are parameters. */
module Build {
  import opened Primitives
  import Rustc
  import Versions

  datatype Failure =
    | UnexpectedOutput
    | UnsupportedMajor(major: u16)

  datatype Outcome = Detected(version: Versions.RustVersion) | Failed(failure: Failure)

  /** The library's view of a parsed version: the same numbers, widened
      from 16 to 32 bits, and the same channel. */
  function ToRustVersion(v: Rustc.Version): (r: Versions.RustVersion)
    ensures Versions.Key(r) == [v.major, v.minor, v.patch]
    ensures r.channel == v.channel
  {
    Versions.RustVersion(v.major, v.minor, v.patch, v.channel)
  }

  /** The detection loop. `output` is what `rustc --version` printed;
      `driverOutput` is what `rustc --rustc --version` prints, consulted only
      when the first answer came from clippy's driver. */
  function Detect(output: string, driverOutput: string): (r: Outcome)
    ensures r.Detected? ==> r.version.major == 1
    ensures r.Detected? <==>
      || (Rustc.Parse(output).Success? && Rustc.Parse(output).version.major == 1)
      || (Rustc.Parse(output).OopsClippy? && Rustc.Parse(driverOutput).Success?
          && Rustc.Parse(driverOutput).version.major == 1)
    ensures r.Detected? && Rustc.Parse(output).Success? ==> r.version == ToRustVersion(Rustc.Parse(output).version)
    ensures r.Detected? && !Rustc.Parse(output).Success? ==> r.version == ToRustVersion(Rustc.Parse(driverOutput).version)
    ensures Rustc.Parse(output).Unrecognized? ==> r == Failed(UnexpectedOutput)
    ensures Rustc.Parse(output).OopsClippy? && !Rustc.Parse(driverOutput).Success? ==> r == Failed(UnexpectedOutput)
    ensures Rustc.Parse(output).Success? && Rustc.Parse(output).version.major != 1
      ==> r == Failed(UnsupportedMajor(Rustc.Parse(output).version.major))
    ensures Rustc.Parse(output).OopsClippy? && Rustc.Parse(driverOutput).Success?
            && Rustc.Parse(driverOutput).version.major != 1
      ==> r == Failed(UnsupportedMajor(Rustc.Parse(driverOutput).version.major))
  {
    var parsed := match Rustc.Parse(output)
      case OopsClippy => Rustc.Parse(driverOutput)
      case other => other;
    match parsed
    case Success(v) => if v.major != 1 then Failed(UnsupportedMajor(v.major)) else Detected(ToRustVersion(v))
    case _ => Failed(UnexpectedOutput)
  }

  /** A direct answer from rustc never leads to a second command. */
  lemma NoRetryAfterDirectAnswer(output: string, driverOutput: string, otherOutput: string)
    requires !Rustc.Parse(output).OopsClippy?
    ensures Detect(output, driverOutput) == Detect(output, otherOutput)
  {
  }
}
