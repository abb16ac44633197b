/** Failure-carrying wrappers shared by every layer of the model, and the
    parse-result record (CParseResult) that handlers, lines and whole parses return. */
module Results {

  datatype Option<+T> = None | Some(value: T) {
    function GetOr(default: T): T {
      match this
      case Some(v) => v
      case None => default
    }
  }

  /** A computation that either yields a value or raises an error message. */
  datatype Result<+T> = Ok(value: T) | Err(msg: string)

  /** CParseResult: an error flag and the text getError() hands out.
      `errorString` is None while nobody has called setError (the null pointer). */
  datatype ParseResult = ParseResult(error: bool, errorString: Option<string>)

  /** A default-constructed CParseResult. */
  const Success: ParseResult := ParseResult(false, None)

  /** setError: marks the result failed and keeps its own copy of the message. */
  function SetError(r: ParseResult, err: string): (r': ParseResult)
    ensures r'.error
    ensures GetError(r') == Some(err)
  {
    r.(error := true, errorString := Some(err))
  }

  /** getError: the message stored by the last setError, if any. */
  function GetError(r: ParseResult): Option<string> {
    r.errorString
  }

  /** The text a caller reads back as a std::string from a failed result;
      a failed result without a message reads as the empty string. */
  function ErrorText(r: ParseResult): string {
    r.errorString.GetOr("")
  }

  lemma SetErrorThenGetError(r: ParseResult, err: string)
    ensures GetError(SetError(r, err)) == Some(err)
    ensures ErrorText(SetError(r, err)) == err
    ensures !Success.error && GetError(Success).None?
  {
  }
}
