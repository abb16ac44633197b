/** Right-hand-side expansion in parseLine (src/config.cpp:694-791): variable
    substitution passes bounded at 100, `{{a op b}}` expressions
    (parseExpression, 583-631) and the final unescaping of `\\`, `\{`, `\}`. */
module Expand {
  import opened Results
  import opened Text
  import opened Foreign
  import opened Order
  import opened Registry

  /** The operators parseExpression accepts. */
  predicate IsOperator(w: string) {
    w == "+" || w == "-" || w == "*" || w == "/"
  }

  /** The value of the first variable of the table with this name. */
  function ValueOf(vars: seq<Variable>, name: string): (r: Option<string>)
    ensures r.Some? ==> exists j :: 0 <= j < |vars| && vars[j].name == name && vars[j].value == r.value
    ensures r.None? <==> forall j :: 0 <= j < |vars| ==> vars[j].name != name
  {
    match FirstMatch(vars, (v: Variable) => v.name == name)
    case Some(k) => Some(vars[k].value)
    case None => None
  }

  const NOT_A_NUMBER_VARIABLE: string := "Failed to parse expression: value 1 holds a variable that does not look like a number"
  const NOT_A_NUMBER: string := "Failed to parse expression: value 1 does not look like a number or the variable doesn't exist"

  /** One operand: a variable's value when the word names one (std::stof of the
      value), otherwise the word itself. Both failures say "value 1". */
  function Operand(vars: seq<Variable>, word: string, host: Host): (r: Result<Float32>)
    ensures r.Err? ==> (r.msg == NOT_A_NUMBER_VARIABLE <==> ValueOf(vars, word).Some?)
    ensures r.Err? ==> (r.msg == NOT_A_NUMBER <==> ValueOf(vars, word).None?)
    ensures r.Ok? <==> host.stof(if ValueOf(vars, word).Some? then ValueOf(vars, word).value else word).Some?
  {
    var text := if ValueOf(vars, word).Some? then ValueOf(vars, word).value else word;
    match host.stof(text)
    case Some(f) => Ok(f)
    case None => Err(if ValueOf(vars, word).Some? then NOT_A_NUMBER_VARIABLE else NOT_A_NUMBER)
  }

  /** parseExpression: `a op b` with op one of + - * /. Operands are looked up
      in the configuration's variable table, which starts as a copy of the
      environment; getVariable's environment-first lookup is not used, so a
      redefined name reads its redefined value. */
  function ParseExpression(vars: seq<Variable>, s: string, host: Host): (r: Result<Float32>)
    ensures s == "" ==> r == Err("Expression is empty")
    ensures s != "" && !IsOperator(Arg(Words(s), 1)) ==> r == Err("Invalid expression type: supported +, -, *, /")
    ensures r.Ok? ==> IsOperator(Arg(Words(s), 1)) && Operand(vars, Arg(Words(s), 0), host).Ok? && Operand(vars, Arg(Words(s), 2), host).Ok?
  {
    if s == "" then Err("Expression is empty")
    else
      var args := Words(s);
      var op := Arg(args, 1);
      if !IsOperator(op) then Err("Invalid expression type: supported +, -, *, /")
      else
        match Operand(vars, Arg(args, 0), host)
        case Err(m) => Err(m)
        case Ok(left) =>
          match Operand(vars, Arg(args, 2), host)
          case Err(m) => Err(m)
          case Ok(right) => Ok(host.arith(left, op[0], right))
  }

  /** The number of backslashes immediately before index `i`. */
  function BackslashRun(s: string, i: nat): (n: nat)
    requires i <= |s|
    ensures n <= i
    ensures forall j :: i - n <= j < i ==> s[j] == '\\'
    ensures n < i ==> s[i - n - 1] != '\\'
  {
    if i == 0 || s[i - 1] != '\\' then 0 else 1 + BackslashRun(s, i - 1)
  }

  /** An expression opening `{{` at `i` is live when the backslashes before it
      pair up (zero included). */
  predicate LiveOpen(s: string, i: nat) {
    i <= |s| && At(s, "{{", i) && BackslashRun(s, i) % 2 == 0
  }

  /** The search for the first live `{{` from `from` on: find, then skip the
      escaped occurrences. */
  function LiveFrom(s: string, from: nat): (r: Option<nat>)
    ensures r.Some? ==> from <= r.value && LiveOpen(s, r.value)
    ensures r.Some? ==> forall j :: from <= j < r.value ==> !LiveOpen(s, j)
    ensures r.None? ==> forall j :: from <= j ==> !LiveOpen(s, j)
    decreases |s| - from
  {
    if from + 2 > |s| then None
    else if LiveOpen(s, from) then Some(from)
    else LiveFrom(s, from + 1)
  }

  function FirstLive(s: string): (r: Option<nat>)
    ensures r.Some? ==> LiveOpen(s, r.value) && forall j :: 0 <= j < r.value ==> !LiveOpen(s, j)
    ensures r.None? ==> forall j :: 0 <= j ==> !LiveOpen(s, j)
  {
    LiveFrom(s, 0)
  }

  /** The span the expression loop works on next: the first live `{{` and
      the first `}}` after it. */
  function NextSpan(rhs: string): (r: Option<(nat, nat)>)
    ensures r.Some? ==> r.value.0 + 2 <= r.value.1 && r.value.1 + 2 <= |rhs| && At(rhs, "{{", r.value.0)
    ensures r.None? <==> FirstLive(rhs).None? || FindFrom(rhs, "}}", FirstLive(rhs).value + 2).None?
    ensures r.Some? ==> FirstLive(rhs) == Some(r.value.0) && FindFrom(rhs, "}}", r.value.0 + 2) == Some(r.value.1)
  {
    match FirstLive(rhs)
    case None => None
    case Some(b) =>
      (match FindFrom(rhs, "}}", b + 2)
       case None => None
       case Some(e) => Some((b, e)))
  }

  /** Replaces the span `[b, e + 2)` by brace-free text; at least two opening
      braces go. */
  function Splice(rhs: string, b: nat, e: nat, text: string): (r: string)
    requires b + 2 <= e && e + 2 <= |rhs| && At(rhs, "{{", b) && '{' !in text
    ensures Count(r, '{') + 2 <= Count(rhs, '{')
  {
    ReplacingDropsBraces(rhs, b, e + 2, text);
    rhs[..b] + text + rhs[e + 2..]
  }

  /** The expression loop: the first live `{{` with a later `}}` is evaluated
      and replaced by the formatted result, until no live `{{` has a `}}` after
      it. An expression error fails the line. */
  function ExpandExpressions(vars: seq<Variable>, rhs: string, host: Host): (r: Result<string>)
    ensures NextSpan(rhs).None? ==> r == Ok(rhs)
    ensures r.Ok? ==> NextSpan(r.value).None?
    decreases Count(rhs, '{')
  {
    match NextSpan(rhs)
    case None => Ok(rhs)
    case Some(span) =>
      match ParseExpression(vars, rhs[span.0 + 2..span.1], host)
      case Err(m) => Err(m)
      case Ok(x) => ExpandExpressions(vars, Splice(rhs, span.0, span.1, host.format(x)), host)
  }

  /** Replacing a span that starts with `{{` by brace-free text removes at
      least two opening braces. */
  lemma ReplacingDropsBraces(s: string, b: nat, e: nat, text: string)
    requires b + 2 <= e <= |s| && At(s, "{{", b) && '{' !in text
    ensures Count(s[..b] + text + s[e..], '{') + 2 <= Count(s, '{')
  {
    assert s == s[..b] + s[b..e] + s[e..];
    CountAppend(s[..b] + s[b..e], s[e..], '{');
    CountAppend(s[..b], s[b..e], '{');
    assert s[b..e] == "{{" + s[b + 2..e];
    CountAppend("{{", s[b + 2..e], '{');
    assert Count("{{", '{') == 2;
    CountAppend(s[..b] + text, s[e..], '{');
    CountAppend(s[..b], text, '{');
  }

  /** An empty `{{}}` span fails the line with "Expression is empty". */
  lemma EmptySpan(vars: seq<Variable>, rhs: string, host: Host)
    requires FirstLive(rhs).Some? && At(rhs, "}}", FirstLive(rhs).value + 2)
    ensures ExpandExpressions(vars, rhs, host) == Err("Expression is empty")
  {
    var b := FirstLive(rhs).value;
    assert FindFrom(rhs, "}}", b + 2) == Some(b + 2);
    assert NextSpan(rhs) == Some((b, b + 2));
  }

  /** The result of one substitution pass over the variable table. */
  datatype Pass = Pass(vars: seq<Variable>, lhs: string, rhs: string, any: bool)

  /** Variable `v` occurs, as `$name`, in the text. */
  predicate Mentions(s: string, v: Variable) {
    Contains(s, "$" + v.name)
  }

  /** Neither side mentions `v` (the LHS only counts when it is searched). */
  predicate Unmentioned(lhs: string, rhs: string, skipLhs: bool, v: Variable) {
    !Mentions(rhs, v) && (skipLhs || !Mentions(lhs, v))
  }

  /** `after` is `before` with the same binding, and at most the one line
      reference `record` added to its lines. */
  predicate Recorded(before: Variable, after: Variable, record: Option<LineRef>) {
    after.name == before.name && after.value == before.value &&
    (after.lines == before.lines || (record.Some? && after.lines == before.lines + [record.value]))
  }

  /** One variable's turn in a pass. */
  function SubstOne(v: Variable, lhs: string, rhs: string, skipLhs: bool, record: Option<LineRef>): (p: Pass)
    ensures |p.vars| == 1 && Recorded(v, p.vars[0], record)
    ensures record.None? ==> p.vars == [v]
    ensures skipLhs ==> p.lhs == lhs
    ensures !p.any <==> Unmentioned(lhs, rhs, skipLhs, v)
    ensures !p.any ==> p.lhs == lhs && p.rhs == rhs && p.vars == [v]
  {
    var pat := "$" + v.name;
    var lhsHit := !skipLhs && Contains(lhs, pat);
    var rhsHit := Contains(rhs, pat);
    var v1 := if (lhsHit || rhsHit) && record.Some? then v.(lines := v.lines + [record.value]) else v;
    Pass([v1], if lhsHit then ReplaceAll(lhs, pat, v.value) else lhs,
         if rhsHit then ReplaceAll(rhs, pat, v.value) else rhs, lhsHit || rhsHit)
  }

  /** One pass: every variable in table order replaces all of its `$name`
      occurrences (the LHS is skipped for a variable definition); a variable
      that matched records the line when `record` is given. */
  function SubstPass(vars: seq<Variable>, lhs: string, rhs: string, skipLhs: bool, record: Option<LineRef>): (p: Pass)
    ensures |p.vars| == |vars|
    ensures forall j :: 0 <= j < |vars| ==> Recorded(vars[j], p.vars[j], record)
    ensures record.None? ==> p.vars == vars
    ensures skipLhs ==> p.lhs == lhs
    ensures !p.any ==> p.lhs == lhs && p.rhs == rhs && p.vars == vars
    ensures !p.any <==> forall j :: 0 <= j < |vars| ==> Unmentioned(lhs, rhs, skipLhs, vars[j])
    decreases |vars|
  {
    if |vars| == 0 then Pass([], lhs, rhs, false)
    else
      var first := SubstOne(vars[0], lhs, rhs, skipLhs, record);
      var rest := SubstPass(vars[1..], first.lhs, first.rhs, skipLhs, record);
      var p := Pass(first.vars + rest.vars, rest.lhs, rest.rhs, first.any || rest.any);
      assert forall j :: 1 <= j < |vars| ==> p.vars[j] == rest.vars[j - 1] && vars[j] == vars[1..][j - 1];
      assert !p.any ==> first.lhs == lhs && first.rhs == rhs;
      p
  }

  /** What the expansion loop leaves: the variable table (with new line
      records), both sides, and the error that stopped it, if any. */
  datatype Expansion = Expansion(vars: seq<Variable>, lhs: string, rhs: string, error: Option<string>)

  const EXPANSION_LIMIT_ERROR: string := "Expanding variables exceeded max iteration limit"

  /** Passes i .. 99 of the expansion loop. */
  function ExpandFrom(vars: seq<Variable>, lhs: string, rhs: string, skipLhs: bool, record: Option<LineRef>, i: nat, host: Host): (r: Expansion)
    requires i < 100
    ensures |r.vars| == |vars|
    ensures forall j :: 0 <= j < |vars| ==> r.vars[j].name == vars[j].name && r.vars[j].value == vars[j].value
    ensures skipLhs ==> r.lhs == lhs
    decreases 100 - i
  {
    var p := SubstPass(vars, lhs, rhs, skipLhs, record);
    match ExpandExpressions(p.vars, p.rhs, host)
    case Err(m) => Expansion(p.vars, p.lhs, p.rhs, Some(m))
    case Ok(rhs') =>
      if !p.any then Expansion(p.vars, p.lhs, rhs', None)
      else if i == 99 then Expansion(p.vars, p.lhs, rhs', Some(EXPANSION_LIMIT_ERROR))
      else
        var r := ExpandFrom(p.vars, p.lhs, rhs', skipLhs, record, i + 1, host);
        assert forall j :: 0 <= j < |vars| ==> r.vars[j].name == p.vars[j].name;
        r
  }

  /** The whole loop, from pass 0. */
  function ExpandLine(vars: seq<Variable>, lhs: string, rhs: string, skipLhs: bool, record: Option<LineRef>, host: Host): (r: Expansion)
    ensures |r.vars| == |vars|
    ensures forall j :: 0 <= j < |vars| ==> r.vars[j].name == vars[j].name && r.vars[j].value == vars[j].value
    ensures skipLhs ==> r.lhs == lhs
  {
    ExpandFrom(vars, lhs, rhs, skipLhs, record, 0, host)
  }

  /** A line mentioning no variable and no live expression comes out as it went in. */
  lemma NothingToExpand(vars: seq<Variable>, lhs: string, rhs: string, skipLhs: bool, record: Option<LineRef>, host: Host)
    requires forall j :: 0 <= j < |vars| ==> Unmentioned(lhs, rhs, skipLhs, vars[j])
    requires FirstLive(rhs).None?
    ensures ExpandLine(vars, lhs, rhs, skipLhs, record, host) == Expansion(vars, lhs, rhs, None)
  {
  }

  /** Replacing a pattern by itself changes nothing. */
  lemma {:induction false} ReplaceAllSame(s: string, what: string)
    requires |what| > 0
    ensures ReplaceAll(s, what, what) == s
    decreases |s|
  {
    if |s| >= |what| {
      if s[..|what|] == what {
        ReplaceAllSame(s[|what|..], what);
        assert s == s[..|what|] + s[|what|..];
      } else {
        ReplaceAllSame(s[1..], what);
        assert s == [s[0]] + s[1..];
      }
    }
  }

  /** Text without '{' holds no live expression. */
  lemma NoBraceNoLive(s: string)
    requires '{' !in s
    ensures FirstLive(s).None?
  {
    forall j | 0 <= j && j + 2 <= |s|
      ensures !At(s, "{{", j)
    {
      assert s[j..j + 2][0] == s[j];
    }
  }

  /** A variable whose value mentions itself makes every pass match, and the
      100th pass reports the iteration limit. */
  lemma {:induction false} SelfReferenceHitsLimit(v: Variable, lhs: string, rhs: string, record: Option<LineRef>, i: nat, host: Host)
    requires i < 100
    requires v.value == "$" + v.name
    requires Mentions(rhs, v) && '{' !in rhs
    ensures ExpandFrom([v], lhs, rhs, true, record, i, host).error == Some(EXPANSION_LIMIT_ERROR)
    decreases 100 - i
  {
    var p := SubstPass([v], lhs, rhs, true, record);
    ReplaceAllSame(rhs, "$" + v.name);
    assert p.rhs == rhs && p.any;
    NoBraceNoLive(rhs);
    var v1 := p.vars[0];
    assert p.vars == [v1] && v1.name == v.name && v1.value == v.value;
    if i < 99 {
      SelfReferenceHitsLimit(v1, p.lhs, rhs, record, i + 1, host);
    }
  }

  /** The unescaping rules, read left to right: `\\` is one backslash, `\{`
      and `\}` are the bare brace, anything else stays. */
  function Unescape(s: string): (r: string)
    ensures |r| <= |s|
  {
    if |s| < 2 then s
    else if s[0] == '\\' && s[1] == '\\' then "\\" + Unescape(s[2..])
    else if s[0] == '\\' && (s[1] == '{' || s[1] == '}') then [s[1]] + Unescape(s[2..])
    else [s[0]] + Unescape(s[1..])
  }

  /** The loop invariant of the in-place unescaping: the text before `i` is
      final and the rest still needs unescaping. */
  predicate UnescapedUpTo(s: string, rhs: string, i: nat) {
    i <= |rhs| && Unescape(s) == rhs[..i] + Unescape(rhs[i..])
  }

  /** An ordinary character is final once stepped over. */
  lemma StepOver(s: string, rhs: string, i: nat)
    requires UnescapedUpTo(s, rhs, i) && i + 1 < |rhs|
    requires !(rhs[i] == '\\' && (rhs[i + 1] == '\\' || rhs[i + 1] == '{' || rhs[i + 1] == '}'))
    ensures UnescapedUpTo(s, rhs, i + 1)
  {
    var t := rhs[i..];
    assert t[1..] == rhs[i + 1..];
    assert rhs[..i + 1] == rhs[..i] + [t[0]];
  }

  /** `\\` loses its first backslash and the second is final. */
  lemma EraseEscapedBackslash(s: string, rhs: string, i: nat)
    requires UnescapedUpTo(s, rhs, i) && i + 1 < |rhs| && rhs[i] == '\\' && rhs[i + 1] == '\\'
    ensures UnescapedUpTo(s, rhs[..i] + rhs[i + 1..], i + 1)
  {
    var t := rhs[i..];
    var erased := rhs[..i] + rhs[i + 1..];
    assert Unescape(t) == "\\" + Unescape(t[2..]);
    assert erased[..i + 1] == rhs[..i] + "\\";
    assert erased[i + 1..] == t[2..];
  }

  /** `\{` and `\}` lose the backslash; the brace is looked at again. */
  lemma EraseBraceEscape(s: string, rhs: string, i: nat)
    requires UnescapedUpTo(s, rhs, i) && i + 1 < |rhs| && rhs[i] == '\\' && (rhs[i + 1] == '{' || rhs[i + 1] == '}')
    ensures UnescapedUpTo(s, rhs[..i] + rhs[i + 1..], i)
  {
    var t := rhs[i..];
    var erased := rhs[..i] + rhs[i + 1..];
    assert t[1..][1..] == t[2..];
    assert Unescape(t) == Unescape(t[1..]);
    assert erased[i..] == t[1..];
    assert erased[..i] == rhs[..i];
  }

  /** The unescaping loop of parseLine as written: erase in place, stepping
      over an unescaped backslash and re-examining the brace after a removed one. */
  method UnescapeInPlace(s: string) returns (rhs: string)
    ensures rhs == Unescape(s)
  {
    rhs := s;
    var i := 0;
    while |rhs| != 0 && i < |rhs| - 1
      invariant UnescapedUpTo(s, rhs, i)
      decreases |rhs| - i
    {
      if rhs[i] == '\\' && rhs[i + 1] == '\\' {
        EraseEscapedBackslash(s, rhs, i);
        rhs := rhs[..i] + rhs[i + 1..];
        i := i + 1;
      } else if rhs[i] == '\\' && (rhs[i + 1] == '{' || rhs[i + 1] == '}') {
        EraseBraceEscape(s, rhs, i);
        rhs := rhs[..i] + rhs[i + 1..];
      } else {
        StepOver(s, rhs, i);
        i := i + 1;
      }
    }
    assert rhs[..i] + rhs[i..] == rhs;
  }

  /** The inverse: a backslash before every backslash and brace. */
  function Escape(s: string): (r: string)
    ensures |r| >= |s|
  {
    if |s| == 0 then ""
    else if s[0] == '\\' || s[0] == '{' || s[0] == '}' then ['\\', s[0]] + Escape(s[1..])
    else [s[0]] + Escape(s[1..])
  }

  /** Round trip: unescaping an escaped text gives it back. */
  lemma {:induction false} UnescapeEscape(s: string)
    ensures Unescape(Escape(s)) == s
  {
    if |s| > 0 {
      UnescapeEscape(s[1..]);
      var e := Escape(s);
      if s[0] == '\\' || s[0] == '{' || s[0] == '}' {
        assert e[2..] == Escape(s[1..]);
      } else if |s| > 1 {
        assert e[1..] == Escape(s[1..]);
      } else {
        assert Escape(s[1..]) == "";
      }
      assert s == [s[0]] + s[1..];
    }
  }

  /** Text without backslashes is left alone. */
  lemma {:induction false} UnescapePlain(s: string)
    requires '\\' !in s
    ensures Unescape(s) == s
  {
    if |s| >= 2 {
      UnescapePlain(s[1..]);
      assert s == [s[0]] + s[1..];
    }
  }
}
