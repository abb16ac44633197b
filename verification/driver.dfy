/** The parse driver (src/config.cpp:878-1023): parse() resets the state and
    reads the raw string or the file line by line; the error text of the
    configuration collects one message per reported failure. */
module Driver {
  import opened Results
  import opened Text
  import opened Numbers
  import opened Foreign
  import opened Order
  import opened Registry
  import opened LineReader
  import opened Grammar

  /** Where the lines come from: the raw string, or a file by its canonical path. */
  datatype Origin = Stream | File(path: string)

  /** What the file system says about the configuration file. */
  datatype FileView = Missing | Unopenable | Readable(contents: string)

  /** The state after a parse and the result handed back. */
  datatype Outcome = Outcome(c: Config, result: ParseResult)

  const NOT_COMMENCED: string := "Cannot parse: not commenced. You have to .commence() first."

  /** The lead of every message: the file is named when there is one. */
  function Lead(o: Origin): string {
    match o
    case Stream => "Config error"
    case File(path) => "Config error in file " + path
  }

  function LineMessage(o: Origin, lineNum: nat, err: string): string {
    Lead(o) + " at line " + NatToString(lineNum) + ": " + err
  }

  function BackslashMessage(o: Origin): string {
    Lead(o) + ": Last line ends with backslash"
  }

  function UnclosedMessage(o: Origin): string {
    Lead(o) + ": Unclosed category at EOF"
  }

  /** Adds a message to the error text, on a new line unless it is the first. */
  function Append(err: string, msg: string): (r: string)
    requires msg != ""
    ensures r != "" && StartsWith(r, err) && EndsWith(r, msg)
    ensures err == "" ==> r == msg
  {
    if err == "" then msg else err + "\n" + msg
  }

  /** The result of a read so far reports exactly the error text collected:
      every message is added together with a setError of the whole text. */
  predicate Reports(result: ParseResult, err: string) {
    result == if err == "" then Success else ParseResult(true, Some(err))
  }

  /** Whether a failed line is added to the error text: a file's lines obey
      the `noerror` directive, and only the first failure counts unless all
      errors are wanted. */
  predicate Reported(c: Config, o: Origin, failed: bool) {
    failed && (o.Stream? || !c.flags.noError) && (c.parseError == "" || c.options.throwAllErrors)
  }

  /** After the last line: an open category is an error (reported under the
      same first-error rule) and the stack is emptied. */
  function Finish(c: Config, o: Origin, result: ParseResult): (r: Outcome)
    ensures r.c.categories == []
    ensures Reports(result, c.parseError) ==> Reports(r.result, r.c.parseError)
    ensures StartsWith(r.c.parseError, c.parseError)
    ensures c.categories == [] ==> r == Outcome(c, result)
    ensures !c.options.throwAllErrors && c.parseError != "" ==> r.c.parseError == c.parseError
  {
    if c.categories == [] then Outcome(c, result)
    else if c.parseError == "" || c.options.throwAllErrors then
      var e := Append(c.parseError, UnclosedMessage(o));
      Outcome(c.(parseError := e, categories := []), SetError(result, e))
    else Outcome(c.(categories := []), result)
  }

  /** The read loop of parseRawStream and parseFile from physical line `pos`:
      each logical line goes through parseLine; a failure is reported with the
      number of the line's first physical line. A last line ending in a
      backslash is always reported, whatever came before. */
  function ReadLines(c: Config, lines: seq<string>, pos: nat, o: Origin, result: ParseResult, host: Host): (r: Outcome)
    requires pos <= |lines|
    ensures r.c.categories == []
    ensures Reports(result, c.parseError) ==> Reports(r.result, r.c.parseError)
    ensures !c.options.throwAllErrors && c.parseError != "" ==>
      r.c.parseError == c.parseError || r.c.parseError == Append(c.parseError, BackslashMessage(o))
    ensures WellFormedTable(c.variables) ==> WellFormedTable(r.c.variables)
    decreases |lines| - pos
  {
    match GetNextLine(lines, pos)
    case Eof => Finish(c, o, result)
    case Backslash =>
      var e := Append(c.parseError, BackslashMessage(o));
      Finish(c.(parseError := e), o, SetError(result, e))
    case Line(text, lineNum, next) =>
      var after := Advance(c, text, lineNum, o, result, host);
      ReadLines(after.c, lines, next, o, after.result, host)
  }

  /** One logical line: parseLine, then the bookkeeping. Lines never change
      the error text themselves, so only the report can add to it. */
  function Advance(c: Config, text: string, lineNum: nat, o: Origin, result: ParseResult, host: Host): (r: Outcome)
    ensures Reports(result, c.parseError) ==> Reports(r.result, r.c.parseError)
    ensures StartsWith(r.c.parseError, c.parseError)
    ensures !c.options.throwAllErrors && c.parseError != "" ==> r.c.parseError == c.parseError
    ensures WellFormedTable(c.variables) ==> WellFormedTable(r.c.variables)
  {
    var s := ParseLine(c, text, false, host, 0);
    Report(s.c, o, lineNum, s.result, result)
  }

  /** The bookkeeping after one line: a reported failure is added to the
      error text and the whole text becomes the result's message. */
  function Report(c: Config, o: Origin, lineNum: nat, line: ParseResult, result: ParseResult): (r: Outcome)
    ensures r.c == c.(parseError := r.c.parseError)
    ensures Reports(result, c.parseError) ==> Reports(r.result, r.c.parseError)
    ensures Reported(c, o, line.error) <==> r.c.parseError != c.parseError
    ensures Reported(c, o, line.error) ==> r.c.parseError == Append(c.parseError, LineMessage(o, lineNum, ErrorText(line)))
    ensures !Reported(c, o, line.error) ==> r == Outcome(c, result)
  {
    if Reported(c, o, line.error) then
      var e := Append(c.parseError, LineMessage(o, lineNum, ErrorText(line)));
      Outcome(c.(parseError := e), SetError(result, e))
    else Outcome(c, result)
  }

  /** parseRawStream. */
  function ParseRawStream(c: Config, stream: string, host: Host): (r: Outcome)
    ensures r.c.categories == []
    ensures Reports(Success, c.parseError) ==> Reports(r.result, r.c.parseError)
  {
    ReadLines(c, PhysicalLines(stream), 0, Stream, Success, host)
  }

  /** parseFile, given what opening the file gives. */
  function ParseFile(c: Config, path: string, file: FileView, host: Host): (r: Outcome)
    requires !file.Missing?
    ensures file.Unopenable? ==> r == Outcome(c, SetError(Success, "File failed to open"))
    ensures file.Readable? ==> r.c.categories == []
    ensures file.Readable? && Reports(Success, c.parseError) ==> Reports(r.result, r.c.parseError)
  {
    match file
    case Unopenable => Outcome(c, SetError(Success, "File failed to open"))
    case Readable(text) => ReadLines(c, PhysicalLines(text), 0, File(path), Success, host)
  }

  /** The state parse() reads into: clearState, then every value and every
      remaining instance reset to its default. */
  function Reset(c: Config, host: Host): (r: Config)
    ensures r.categories == [] && r.parseError == "" && r.variables == c.env
    ensures r.currentSpecialCategory.None? && r.currentSpecialKey == ""
    ensures r.values.Keys == c.values.Keys + c.defaults.Keys
    ensures forall k :: k in c.defaults ==> !r.values[k].setByUser && r.values[k].kind == c.defaults[k].kind
    ensures forall i :: i in r.instances ==> i.isStatic
    ensures |r.instances| == |ClearState(c).instances|
    ensures forall j :: 0 <= j < |r.instances| ==> r.instances[j] == ClearState(c).instances[j].(values := r.instances[j].values)
    ensures forall j, k :: 0 <= j < |r.instances| && k in DescriptorDefaults(c, r.instances[j].descriptor) ==>
      k in r.instances[j].values && !r.instances[j].values[k].setByUser &&
      r.instances[j].values[k].kind == DescriptorDefaults(c, r.instances[j].descriptor)[k].kind
    ensures Settings(r) == Settings(c).(4 := r.values.Keys, 8 := "")
  {
    var c1 := ClearState(c);
    var c2 := c1.(values := ApplyDefaults(c1.values, c1.defaults, host));
    var instances := MapSeq(c2.instances, (i: Instance) => ApplyDefaultsToCat(c2, i, host));
    assert forall j :: 0 <= j < |instances| ==> instances[j].isStatic by {
      forall j | 0 <= j < |instances| ensures instances[j].isStatic {
        assert c2.instances[j] in c1.instances;
      }
    }
    c2.(instances := instances)
  }

  /** parse(): refused before commence(); otherwise reset, then read the raw
      string when there is one and the file otherwise. A missing file is an
      error unless missing configurations are allowed. */
  function Parse(c: Config, file: FileView, canonical: string, host: Host): (r: Result<Outcome>)
    ensures !c.commenced <==> r == Err(NOT_COMMENCED)
    ensures r.Ok? ==> r.value.c.categories == []
    ensures r.Ok? && (c.rawConfigString != "" || file.Readable?) ==> Reports(r.value.result, r.value.c.parseError)
    ensures r.Ok? && c.rawConfigString == "" && file.Unopenable? ==> r.value.result == SetError(Success, "File failed to open")
    ensures r.Ok? && c.rawConfigString == "" && file.Missing? ==>
      r.value.result == (if c.options.allowMissingConfig then Success else SetError(Success, "Config file is missing"))
  {
    if !c.commenced then Err(NOT_COMMENCED)
    else
      var c1 := Reset(c, host);
      if c.rawConfigString != "" then Ok(ParseRawStream(c1, c.rawConfigString, host))
      else match file
        case Missing =>
          if c.options.allowMissingConfig then Ok(Outcome(c1, Success))
          else Ok(Outcome(c1, SetError(Success, "Config file is missing")))
        case _ => Ok(ParseFile(c1, canonical, file, host))
  }

  /** parseDynamic(line): one line at run time. */
  function ParseDynamic(c: Config, line: string, host: Host, fuel: nat): (r: Step)
    ensures LineFrame(c, r.c)
    ensures WellFormedTable(c.variables) ==> WellFormedTable(r.c.variables)
  {
    ParseLine(c, CString(line), true, host, fuel)
  }

  /** parseDynamic(command, value): the line `command=value`. */
  function ParseDynamicSet(c: Config, command: string, value: string, host: Host, fuel: nat): (r: Step)
    ensures LineFrame(c, r.c)
    ensures WellFormedTable(c.variables) ==> WellFormedTable(r.c.variables)
  {
    ParseLine(c, CString(command) + "=" + CString(value), true, host, fuel)
  }

  /** Messages are only ever added: the error text a read starts with stays
      at the front of the one it ends with. */
  lemma {:induction false} ErrorsAccumulate(c: Config, lines: seq<string>, pos: nat, o: Origin, result: ParseResult, host: Host)
    requires pos <= |lines|
    ensures StartsWith(ReadLines(c, lines, pos, o, result, host).c.parseError, c.parseError)
    decreases |lines| - pos
  {
    match GetNextLine(lines, pos)
    case Eof =>
    case Backslash =>
      var e := Append(c.parseError, BackslashMessage(o));
      PrefixTransitive(c.parseError, e, Finish(c.(parseError := e), o, SetError(result, e)).c.parseError);
    case Line(text, lineNum, next) =>
      var after := Advance(c, text, lineNum, o, result, host);
      ErrorsAccumulate(after.c, lines, next, o, after.result, host);
      PrefixTransitive(c.parseError, after.c.parseError, ReadLines(after.c, lines, next, o, after.result, host).c.parseError);
  }

  lemma PrefixTransitive(a: string, b: string, c: string)
    requires StartsWith(b, a) && StartsWith(c, b)
    ensures StartsWith(c, a)
  {
    assert c[..|a|] == c[..|b|][..|a|];
  }
}
