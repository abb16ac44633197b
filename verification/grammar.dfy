/** One logical line (parseLine, src/config.cpp:633-876) and variable
    definitions (parseVariable, 492-515). A redefinition at run time replays
    every line that used the variable; that replay is bounded by `fuel`. */
module Grammar {
  import opened Results
  import opened Text
  import opened Foreign
  import opened Values
  import opened Order
  import opened Registry
  import opened Directives
  import opened Expand
  import opened Assign
  import opened Handlers

  /** The state after a line and the line's result. */
  datatype Step = Step(c: Config, result: ParseResult)

  /** What a line may change beyond a value assignment: the variable table
      and the `if` frames. */
  predicate LineFrame(c: Config, r: Config) {
    Settings(r) == Settings(c)
  }

  /** The innermost `if` frame failed: ordinary lines are skipped. */
  predicate Skipping(c: Config) {
    |c.flags.ifFailed| > 0 && c.flags.ifFailed[|c.flags.ifFailed| - 1]
  }

  /** A `#` comment line: only `# hyprlang ...` directives act. */
  function CommentLine(c: Config, comment: string, host: Host): (r: Step)
    ensures r.c == c.(flags := r.c.flags)
    ensures r.result.error ==> r.result == SetError(Success, "stray endif")
  {
    var (flags, err) := ParseComment(c, comment, host);
    Step(c.(flags := flags), if err.Some? then SetError(Success, err.value) else Success)
  }

  /** A line without '=' that is "}" or ends in "{": close or open a category.
      Because a line with a '}' is handled first, an opening line always ends
      in "{" here, so the source's "garbage after {" error cannot occur. */
  function Brace(c: Config, text: string): (r: Step)
    requires EndsWith(text, "{") || text == "}"
    ensures r.c == c.(categories := r.c.categories, currentSpecialKey := r.c.currentSpecialKey,
                      currentSpecialCategory := r.c.currentSpecialCategory)
  {
    if '}' in text then
      if text != "}" then Step(c, SetError(Success, "Invalid config line"))
      else if |c.categories| == 0 then Step(c, SetError(Success, "Stray category close"))
      else
        var cats := c.categories[..|c.categories| - 1];
        if |cats| == 0 then Step(c.(categories := cats, currentSpecialKey := "", currentSpecialCategory := None), Success)
        else Step(c.(categories := cats), Success)
    else
      Step(c.(categories := c.categories + [Trim(text[..|text| - 1])]), Success)
  }

  /** After trimming, the line starts with '#'. */
  predicate IsComment(raw: string) {
    var line := Trim(raw);
    |line| > 0 && line[0] == '#'
  }

  /** The text a line is read as: trimmed, stripped of its comment, trimmed again. */
  function Content(raw: string): string {
    Trim(StripComment(Trim(raw)))
  }

  /** parseLine. `fuel` bounds the depth of variable-redefinition replays. */
  function ParseLine(c: Config, raw: string, dynamic: bool, host: Host, fuel: nat): (r: Step)
    ensures LineFrame(c, r.c)
    ensures WellFormedTable(c.variables) ==> WellFormedTable(r.c.variables)
    ensures Skipping(c) && !IsComment(raw) ==> r == Step(c, Success)
    decreases fuel, 4
  {
    if IsComment(raw) then CommentLine(c, Trim(raw)[1..], host)
    else if Skipping(c) then Step(c, Success)
    else Statement(c, Content(raw), dynamic, host, fuel)
  }

  /** The content of an ordinary line: nothing, an assignment, or a category
      line. */
  function Statement(c: Config, text: string, dynamic: bool, host: Host, fuel: nat): (r: Step)
    ensures LineFrame(c, r.c)
    ensures WellFormedTable(c.variables) ==> WellFormedTable(r.c.variables)
    decreases fuel, 3
  {
    if text == "" then Step(c, Success)
    else
      match FindChar(text, '=', 0)
      case Some(eq) => AssignLine(c, text, eq, dynamic, host, fuel)
      case None =>
        if !EndsWith(text, "{") && text != "}" then Step(c, SetError(Success, "Invalid config line"))
        else Brace(c, text)
  }

  /** A line with '=' at `eq`: expand, then define a variable, or set a value
      and fall back to the handlers. */
  function AssignLine(c: Config, text: string, eq: nat, dynamic: bool, host: Host, fuel: nat): (r: Step)
    requires eq < |text|
    ensures LineFrame(c, r.c)
    ensures WellFormedTable(c.variables) ==> WellFormedTable(r.c.variables)
    decreases fuel, 2
  {
    var lhs := Trim(text[..eq]);
    var rhs := Trim(text[eq + 1..]);
    if lhs == "" then Step(c, SetError(Success, "Empty lhs."))
    else
      var isVariable := lhs[0] == '$';
      var record := if dynamic then None else Some(LineRef(text, c.categories, c.currentSpecialCategory));
      var e := ExpandLine(c.variables, lhs, rhs, isVariable, record, host);
      var c1 := c.(variables := e.vars);
      SameBindings(c.variables, e.vars);
      if e.error.Some? then Step(c1, SetError(Success, e.error.value))
      else if isVariable then ParseVariable(c1, e.lhs, e.rhs, dynamic, host, fuel)
      else SetOrHandle(c1, e.lhs, Unescape(e.rhs), host)
  }

  /** configSetValueSafe (skipped when only verifying), then the handlers when
      the name was not a value; an error result is the line's result. */
  function SetOrHandle(c: Config, lhs: string, value: string, host: Host): (r: Step)
    ensures Untouched(c, r.c)
  {
    var a := if !c.options.verifyOnly then ConfigSetValue(c, lhs, value, host) else Assignment(c, false, Success);
    var h := if !a.found then RunHandlers(a.c.handlers, a.c.categories, lhs, value, a.result, a.found, host) else (a.result, a.found);
    Step(a.c, if h.0.error then h.0 else Success)
  }

  /** Where SetOrHandle sends a line. When only verifying, no value is set
      and the last accepting handler decides; otherwise a matched value
      decides and no handler is consulted, and an unmatched one goes to the
      handlers, keeping configSetValueSafe's error when none accepts. */
  lemma SetOrHandleRoutes(c: Config, lhs: string, value: string, host: Host)
    ensures c.options.verifyOnly ==>
      var r := SetOrHandle(c, lhs, value, host);
      var last := LastAccepting(c.handlers, c.categories, lhs);
      r.c == c &&
      r.result == (if last.Some? && host.handler(c.handlers[last.value].func, CString(lhs), CString(value)).error
                   then host.handler(c.handlers[last.value].func, CString(lhs), CString(value)) else Success)
    ensures !c.options.verifyOnly && ConfigSetValue(c, lhs, value, host).found ==>
      var a := ConfigSetValue(c, lhs, value, host);
      SetOrHandle(c, lhs, value, host) == Step(a.c, if a.result.error then a.result else Success)
    ensures !c.options.verifyOnly && !ConfigSetValue(c, lhs, value, host).found ==>
      var a := ConfigSetValue(c, lhs, value, host);
      var r := SetOrHandle(c, lhs, value, host);
      var last := LastAccepting(a.c.handlers, a.c.categories, lhs);
      r.c == a.c &&
      r.result == (if last.Some? then
                     (if host.handler(a.c.handlers[last.value].func, CString(lhs), CString(value)).error
                      then host.handler(a.c.handlers[last.value].func, CString(lhs), CString(value)) else Success)
                   else a.result)
  {
  }

  /** parseVariable's table update: the first entry named `name` takes the new
      value and hands back the lines recorded against it, or a new entry is
      added and the table sorted again. On a well-formed table the name reads
      back the new value and every other name keeps its binding. */
  function Define(vars: seq<Variable>, name: string, value: string): (r: (seq<Variable>, seq<LineRef>))
    ensures WellFormedTable(vars) ==> WellFormedTable(r.0)
    ensures WellFormedTable(vars) ==> ValueOf(r.0, name) == Some(value)
    ensures WellFormedTable(vars) ==> forall n :: n != name ==> ValueOf(r.0, n) == ValueOf(vars, n)
  {
    match FirstMatch(vars, (v: Variable) => v.name == name)
    case Some(k) =>
      UpdateBinding(vars, k, value);
      (vars[k := vars[k].(value := value)], vars[k].lines)
    case None =>
      InsertBinding(vars, name, value);
      (SortDesc(vars + [Variable(name, value, [])], VariableLength), [])
  }

  /** parseVariable: `$name = value` defines the variable; at run time every
      line recorded against it is parsed again under the category stack and
      special category it was read with, and the stack is cleared afterwards. */
  function ParseVariable(c: Config, lhs: string, rhs: string, dynamic: bool, host: Host, fuel: nat): (r: Step)
    requires |lhs| > 0
    ensures r.result == Success && LineFrame(c, r.c)
    ensures WellFormedTable(c.variables) ==> WellFormedTable(r.c.variables)
    ensures !dynamic ==> r.c == c.(variables := Define(c.variables, lhs[1..], rhs).0)
    ensures dynamic ==> r.c.categories == []
    decreases fuel, 1
  {
    var (vars, lines) := Define(c.variables, lhs[1..], rhs);
    var c1 := c.(variables := vars);
    if dynamic && fuel > 0 then Step(Replay(c1, lines, host, fuel - 1).(categories := []), Success)
    else if dynamic then Step(c1.(categories := []), Success)
    else Step(c1, Success)
  }

  /** The replay loop of a dynamic redefinition; results are ignored. */
  function Replay(c: Config, lines: seq<LineRef>, host: Host, fuel: nat): (r: Config)
    ensures LineFrame(c, r)
    ensures WellFormedTable(c.variables) ==> WellFormedTable(r.variables)
    decreases fuel, 5, |lines|
  {
    if |lines| == 0 then c
    else
      var l := lines[0];
      var s := ParseLine(c.(categories := l.categories, currentSpecialCategory := l.special), l.line, true, host, fuel);
      Replay(s.c, lines[1..], host, fuel)
  }

  /** Expansion keeps every binding, so it keeps the table well formed. */
  lemma SameBindings(a: seq<Variable>, b: seq<Variable>)
    requires |a| == |b| && forall j :: 0 <= j < |a| ==> b[j].name == a[j].name
    ensures WellFormedTable(a) ==> WellFormedTable(b)
  {
    assert forall j :: 0 <= j < |a| ==> VariableName(b[j]) == VariableName(a[j]) && VariableLength(b[j]) == VariableLength(a[j]);
  }

  /** In a table with unique names, looking up an entry's name finds that entry. */
  lemma UniqueLookup(t: seq<Variable>, j: nat)
    requires j < |t| && DistinctBy(t, VariableName)
    ensures ValueOf(t, t[j].name) == Some(t[j].value)
  {
    var i :| 0 <= i < |t| && t[i].name == t[j].name && t[i].value == ValueOf(t, t[j].name).value;
    assert VariableName(t[i]) == VariableName(t[j]);
  }

  /** Updating the entry at `k` in place. */
  lemma UpdateBinding(vars: seq<Variable>, k: nat, value: string)
    requires k < |vars|
    ensures var t := vars[k := vars[k].(value := value)];
      WellFormedTable(vars) ==> (WellFormedTable(t) && ValueOf(t, vars[k].name) == Some(value) &&
                                 forall n :: n != vars[k].name ==> ValueOf(t, n) == ValueOf(vars, n))
  {
    if !WellFormedTable(vars) { return; }
    var t := vars[k := vars[k].(value := value)];
    SameBindings(vars, t);
    forall n | n != vars[k].name
      ensures ValueOf(t, n) == ValueOf(vars, n)
    {
      if ValueOf(vars, n).Some? {
        var j :| 0 <= j < |vars| && vars[j].name == n && vars[j].value == ValueOf(vars, n).value;
        UniqueLookup(vars, j);
        UniqueLookup(t, j);
      }
    }
    UniqueLookup(t, k);
  }

  /** With unique names, a lookup depends only on which entries are there. */
  lemma SameEntriesValueOf(t: seq<Variable>, s: seq<Variable>, n: string)
    requires DistinctBy(t, VariableName) && DistinctBy(s, VariableName)
    requires forall y :: y in t <==> y in s
    ensures ValueOf(t, n) == ValueOf(s, n)
  {
    if ValueOf(s, n).Some? {
      var j :| 0 <= j < |s| && s[j].name == n && s[j].value == ValueOf(s, n).value;
      assert s[j] in t;
      var p :| 0 <= p < |t| && t[p] == s[j];
      var q :| 0 <= q < |t| && t[q].name == n && t[q].value == ValueOf(t, n).value;
      assert VariableName(t[p]) == VariableName(t[q]);
    } else {
      assert forall q :: 0 <= q < |t| ==> t[q] in s;
    }
  }

  /** Looking up in a table with one new entry at the end. */
  lemma AppendValueOf(vars: seq<Variable>, x: Variable, n: string)
    requires DistinctBy(vars + [x], VariableName)
    ensures ValueOf(vars + [x], n) == if n == x.name then Some(x.value) else ValueOf(vars, n)
  {
    var s := vars + [x];
    assert forall j :: 0 <= j < |vars| ==> s[j] == vars[j];
    assert s[|vars|] == x;
    if ValueOf(s, n).Some? {
      var q :| 0 <= q < |s| && s[q].name == n && s[q].value == ValueOf(s, n).value;
      if n == x.name {
        assert VariableName(s[q]) == VariableName(s[|vars|]);
      } else if ValueOf(vars, n).Some? {
        var j :| 0 <= j < |vars| && vars[j].name == n && vars[j].value == ValueOf(vars, n).value;
        assert VariableName(s[q]) == VariableName(s[j]);
      }
    }
  }

  /** Adding a new name and sorting. */
  lemma InsertBinding(vars: seq<Variable>, name: string, value: string)
    requires forall j :: 0 <= j < |vars| ==> vars[j].name != name
    ensures var t := SortDesc(vars + [Variable(name, value, [])], VariableLength);
      WellFormedTable(vars) ==> (WellFormedTable(t) && ValueOf(t, name) == Some(value) &&
                                 forall n :: n != name ==> ValueOf(t, n) == ValueOf(vars, n))
  {
    if !WellFormedTable(vars) { return; }
    var x := Variable(name, value, []);
    var s := vars + [x];
    var t := SortDesc(s, VariableLength);
    assert DistinctBy(s, VariableName) by {
      assert forall j :: 0 <= j < |vars| ==> s[j] == vars[j];
    }
    SortedAppend(s);
    forall n
      ensures ValueOf(t, n) == if n == name then Some(value) else ValueOf(vars, n)
    {
      SameEntriesValueOf(t, s, n);
      AppendValueOf(vars, x, n);
    }
  }

  /** Sorting a table of distinct names gives a well-formed table with the
      same entries. */
  lemma SortedAppend(s: seq<Variable>)
    requires DistinctBy(s, VariableName)
    ensures var t := SortDesc(s, VariableLength);
      WellFormedTable(t) && forall y :: y in t <==> y in s
  {
    var t := SortDesc(s, VariableLength);
    SortDescDistinct(s, VariableLength, VariableName);
    SortDescSorted(s, VariableLength);
    assert forall y :: y in t <==> y in s by {
      assert forall y :: y in t <==> y in multiset(t);
    }
  }

  /** An ordinary line: not a comment, not inside a failed `if`. */
  predicate Ordinary(c: Config, raw: string) {
    !IsComment(raw) && !Skipping(c)
  }

  /** An ordinary line is read for its content. */
  lemma OrdinaryLine(c: Config, raw: string, dynamic: bool, host: Host, fuel: nat)
    requires Ordinary(c, raw)
    ensures ParseLine(c, raw, dynamic, host, fuel) == Statement(c, Content(raw), dynamic, host, fuel)
  {
  }

  /** An ordinary line with an '=' is an assignment line. */
  lemma AssignmentLine(c: Config, raw: string, eq: nat, dynamic: bool, host: Host, fuel: nat)
    requires Ordinary(c, raw) && FindChar(Content(raw), '=', 0) == Some(eq)
    ensures ParseLine(c, raw, dynamic, host, fuel) == AssignLine(c, Content(raw), eq, dynamic, host, fuel)
  {
    OrdinaryLine(c, raw, dynamic, host, fuel);
  }

  /** A line of text with no '=' is a category line. */
  lemma CategoryLine(c: Config, text: string, dynamic: bool, host: Host, fuel: nat)
    requires text != "" && '=' !in text
    ensures Statement(c, text, dynamic, host, fuel) ==
      if !EndsWith(text, "{") && text != "}" then Step(c, SetError(Success, "Invalid config line")) else Brace(c, text)
  {
    assert FindChar(text, '=', 0).None?;
  }

  /** A line that is blank once its comment is cut changes nothing. */
  lemma BlankLine(c: Config, raw: string, dynamic: bool, host: Host, fuel: nat)
    requires Ordinary(c, raw) && Content(raw) == ""
    ensures ParseLine(c, raw, dynamic, host, fuel) == Step(c, Success)
  {
    OrdinaryLine(c, raw, dynamic, host, fuel);
  }

  /** A comment line only runs its directive, inside a failed `if` too: the
      flags become what parseComment makes of the text after '#', and nothing
      else changes. */
  lemma CommentOnly(c: Config, raw: string, dynamic: bool, host: Host, fuel: nat)
    requires IsComment(raw)
    ensures var r := ParseLine(c, raw, dynamic, host, fuel);
      r.c == c.(flags := ParseComment(c, Trim(raw)[1..], host).0) &&
      (r.result.error <==> ParseComment(c, Trim(raw)[1..], host).1.Some?)
  {
  }

  /** A "}" with no open category is an error and changes nothing. */
  lemma StrayClose(c: Config, raw: string, dynamic: bool, host: Host, fuel: nat)
    requires Ordinary(c, raw) && Content(raw) == "}" && c.categories == []
    ensures ParseLine(c, raw, dynamic, host, fuel) == Step(c, SetError(Success, "Stray category close"))
  {
    OrdinaryLine(c, raw, dynamic, host, fuel);
    CategoryLine(c, "}", dynamic, host, fuel);
  }

  /** A line with no '=' that neither opens nor is a lone "}" is an error and
      changes nothing. */
  lemma InvalidLine(c: Config, raw: string, dynamic: bool, host: Host, fuel: nat)
    requires Ordinary(c, raw) && Content(raw) != "" && '=' !in Content(raw)
    requires var text := Content(raw);
      (!EndsWith(text, "{") && text != "}") || ('}' in text && text != "}")
    ensures ParseLine(c, raw, dynamic, host, fuel) == Step(c, SetError(Success, "Invalid config line"))
  {
    OrdinaryLine(c, raw, dynamic, host, fuel);
    CategoryLine(c, Content(raw), dynamic, host, fuel);
  }

  /** `name {` opens a category: its trimmed name is pushed on the stack. */
  lemma OpenCategory(c: Config, raw: string, dynamic: bool, host: Host, fuel: nat)
    requires Ordinary(c, raw) && EndsWith(Content(raw), "{") && '=' !in Content(raw) && '}' !in Content(raw)
    ensures var text := Content(raw);
      ParseLine(c, raw, dynamic, host, fuel) == Step(c.(categories := c.categories + [Trim(text[..|text| - 1])]), Success)
  {
    OrdinaryLine(c, raw, dynamic, host, fuel);
    CategoryLine(c, Content(raw), dynamic, host, fuel);
  }

  /** "}" pops the innermost category; popping the last one also forgets the
      special key and the special category. */
  lemma CloseCategory(c: Config, raw: string, dynamic: bool, host: Host, fuel: nat)
    requires Ordinary(c, raw) && Content(raw) == "}" && c.categories != []
    ensures var cats := c.categories[..|c.categories| - 1];
      ParseLine(c, raw, dynamic, host, fuel) ==
        Step(if cats == [] then c.(categories := cats, currentSpecialKey := "", currentSpecialCategory := None)
             else c.(categories := cats), Success)
  {
    OrdinaryLine(c, raw, dynamic, host, fuel);
    CategoryLine(c, "}", dynamic, host, fuel);
  }

  /** Opening and then closing a category restores the stack. */
  lemma OpenThenClose(c: Config, open: string, close: string, dynamic: bool, host: Host, fuel: nat)
    requires Ordinary(c, open) && Ordinary(c, close) && Content(close) == "}"
    requires EndsWith(Content(open), "{") && '=' !in Content(open) && '}' !in Content(open)
    ensures var r2 := ParseLine(ParseLine(c, open, dynamic, host, fuel).c, close, dynamic, host, fuel);
      r2.result == Success &&
      r2.c == (if c.categories == [] then c.(currentSpecialKey := "", currentSpecialCategory := None) else c)
  {
    var text := Content(open);
    OpenCategory(c, open, dynamic, host, fuel);
    var c1 := c.(categories := c.categories + [Trim(text[..|text| - 1])]);
    CloseCategory(c1, close, dynamic, host, fuel);
    assert c1.categories[..|c1.categories| - 1] == c.categories;
  }

  /** A line whose name is blank is an error and changes nothing. */
  lemma EmptyLhs(c: Config, raw: string, eq: nat, dynamic: bool, host: Host, fuel: nat)
    requires Ordinary(c, raw) && FindChar(Content(raw), '=', 0) == Some(eq)
    requires Trim(Content(raw)[..eq]) == ""
    ensures ParseLine(c, raw, dynamic, host, fuel) == Step(c, SetError(Success, "Empty lhs."))
  {
    AssignmentLine(c, raw, eq, dynamic, host, fuel);
  }

  /** The parts of an assignment line. */
  function Lhs(raw: string, eq: nat): string
    requires eq < |Content(raw)|
  {
    Trim(Content(raw)[..eq])
  }

  function Rhs(raw: string, eq: nat): string
    requires eq < |Content(raw)|
  {
    Trim(Content(raw)[eq + 1..])
  }

  /** A line without variables, expressions or escapes reaches
      configSetValueSafe and the handlers with its two sides as written. */
  lemma PlainAssignment(c: Config, raw: string, eq: nat, dynamic: bool, host: Host, fuel: nat)
    requires Ordinary(c, raw) && FindChar(Content(raw), '=', 0) == Some(eq)
    requires var lhs := Lhs(raw, eq); var rhs := Rhs(raw, eq);
      lhs != "" && lhs[0] != '$' && '{' !in rhs && '\\' !in rhs &&
      forall j :: 0 <= j < |c.variables| ==> Unmentioned(lhs, rhs, false, c.variables[j])
    ensures ParseLine(c, raw, dynamic, host, fuel) == SetOrHandle(c, Lhs(raw, eq), Rhs(raw, eq), host)
  {
    var text := Content(raw);
    var lhs := Lhs(raw, eq);
    var rhs := Rhs(raw, eq);
    var record := if dynamic then None else Some(LineRef(text, c.categories, c.currentSpecialCategory));
    NoBraceNoLive(rhs);
    NothingToExpand(c.variables, lhs, rhs, false, record, host);
    UnescapePlain(rhs);
    AssignmentLine(c, raw, eq, dynamic, host, fuel);
    assert c.(variables := c.variables) == c;
  }

  /** End to end: `name = value` for a known flat value of a plain type, when
      values are being set, stores the converted text; the line fails exactly
      when the text does not convert, and then nothing changes. */
  lemma SetLine(c: Config, raw: string, eq: nat, dynamic: bool, host: Host, fuel: nat)
    requires Ordinary(c, raw) && FindChar(Content(raw), '=', 0) == Some(eq) && !c.options.verifyOnly
    requires var lhs := Lhs(raw, eq); var rhs := Rhs(raw, eq);
      lhs != "" && lhs[0] != '$' && '{' !in rhs && '\\' !in rhs &&
      forall j :: 0 <= j < |c.variables| ==> Unmentioned(lhs, rhs, false, c.variables[j])
    requires var name := ValueName(c.categories, Lhs(raw, eq));
      '[' !in name && name in c.values && WellTyped(c.values[name]) &&
      c.values[name].kind in {IntType, FloatType, Vec2Type, StrType}
    ensures var r := ParseLine(c, raw, dynamic, host, fuel);
      var name := ValueName(c.categories, Lhs(raw, eq));
      var want := Converted(c.values[name].kind, Rhs(raw, eq), host);
      (r.result.error <==> want.Err?) &&
      (want.Err? ==> r == Step(c, SetError(Success, want.msg))) &&
      (want.Ok? ==> name in r.c.values && GetValue(r.c.values[name]) == Ok(want.value) && r.c.values[name].setByUser &&
                    r.c == c.(values := r.c.values))
  {
    PlainAssignment(c, raw, eq, dynamic, host, fuel);
    AssignFlat(c, Lhs(raw, eq), Rhs(raw, eq), host);
  }

  /** End to end: `$name = value` without variables or expressions on the
      right defines the variable; every other name keeps its binding. */
  lemma DefineLine(c: Config, raw: string, eq: nat, host: Host, fuel: nat)
    requires Ordinary(c, raw) && FindChar(Content(raw), '=', 0) == Some(eq) && WellFormedTable(c.variables)
    requires var lhs := Lhs(raw, eq); var rhs := Rhs(raw, eq);
      |lhs| > 0 && lhs[0] == '$' && '{' !in rhs &&
      forall j :: 0 <= j < |c.variables| ==> !Mentions(rhs, c.variables[j])
    ensures var r := ParseLine(c, raw, false, host, fuel);
      var name := Lhs(raw, eq)[1..];
      r.result == Success && ValueOf(r.c.variables, name) == Some(Rhs(raw, eq)) &&
      forall n :: n != name ==> ValueOf(r.c.variables, n) == ValueOf(c.variables, n)
  {
    var text := Content(raw);
    var lhs := Lhs(raw, eq);
    var rhs := Rhs(raw, eq);
    var record := Some(LineRef(text, c.categories, c.currentSpecialCategory));
    NoBraceNoLive(rhs);
    NothingToExpand(c.variables, lhs, rhs, true, record, host);
    AssignmentLine(c, raw, eq, false, host, fuel);
  }
}
