/**
  `load_set`: reads both sections of a Becker & Hickl .SET file, the
  identification block first and the system parameters second, each from
  the start of the same file.
*/
module SetFile {
  import opened Wrappers
  import opened SetIdentification
  import opened SetSysParams

  /** The dictionary `load_set` returns: one entry per section. */
  datatype SetContents = SetContents(identification: map<string, string>, sysParams: map<string, Value>)

  /** Which of the two section readers failed, and how. */
  datatype SetError = IdentificationError(idError: IdError) | SysParamsError(paramError: ParamError)

  /**
    What `load_set` produces from the lines of a file: both sections when
    both can be read; otherwise the identification error, which is met
    first, or else the system-parameter error.
  */
  function SetFileContents(lines: seq<string>): (r: Result<SetContents, SetError>)
    ensures r.Success? <==> IdentificationSection(lines).Success? && SysParamsSection(lines).Success?
    ensures r.Success? ==>
      && r.value.identification == IdentificationSection(lines).value
      && r.value.sysParams == SysParamsSection(lines).value
    ensures IdentificationSection(lines).Failure? ==>
      r == Failure(IdentificationError(IdentificationSection(lines).error))
    ensures IdentificationSection(lines).Success? && SysParamsSection(lines).Failure? ==>
      r == Failure(SysParamsError(SysParamsSection(lines).error))
  {
    match IdentificationSection(lines)
    case Failure(e) => Failure(IdentificationError(e))
    case Success(identification) =>
      match SysParamsSection(lines)
      case Failure(e) => Failure(SysParamsError(e))
      case Success(sysParams) => Success(SetContents(identification, sysParams))
  }

  /** `load_set(fname_set)`, on the lines of the file. */
  method LoadSet(lines: seq<string>) returns (r: Result<SetContents, SetError>)
    ensures r == SetFileContents(lines)
  {
    var identification := ReadIdentification(lines);
    if identification.Failure? {
      return Failure(IdentificationError(identification.error));
    }
    var sysParams := ReadSysParams(lines);
    if sysParams.Failure? {
      return Failure(SysParamsError(sysParams.error));
    }
    return Success(SetContents(identification.value, sysParams.value));
  }
}
