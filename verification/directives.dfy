/** Comments and `# hyprlang` directives (parseComment, src/config.cpp:531-581,
    and the comment loop of parseLine, 650-668). */
module Directives {
  import opened Results
  import opened Text
  import opened Foreign
  import opened Registry

  /** The third word that switches noerror on: true, yes, enable, enabled,
      set, or nothing at all. */
  predicate EnablesNoError(w: string) {
    w == "true" || w == "yes" || w == "enable" || w == "enabled" || w == "set" || w == ""
  }

  /** The first directive word found from word `i` on. */
  datatype Directive = NoErrorWord(on: bool) | EndIfWord | IfWord(variable: string) | NoDirective

  function Scan(args: seq<string>, i: nat): (d: Directive)
    ensures d.NoErrorWord? ==> d.on == EnablesNoError(Arg(args, 2))
    decreases |args| - i
  {
    if i >= |args| then NoDirective
    else if args[i] == "noerror" then NoErrorWord(EnablesNoError(Arg(args, 2)))
    else if args[i] == "endif" then EndIfWord
    else if args[i] == "if" then IfWord(Arg(args, i + 1))
    else Scan(args, i + 1)
  }

  /** Whether an `if` frame for this word fails: a leading '!' negates; an
      unknown variable fails a plain test and passes a negated one. */
  function IfFails(c: Config, word: string, host: Host): (r: bool)
    ensures !StartsWith(word, "!") ==>
      (r <==> GetVariable(c, word).None? || !host.truthy(GetVariable(c, word).value.value))
    ensures StartsWith(word, "!") ==>
      (r <==> GetVariable(c, word[1..]).Some? && host.truthy(GetVariable(c, word[1..]).value.value))
  {
    var negated := StartsWith(word, "!");
    var name := if negated then word[1..] else word;
    match GetVariable(c, name)
    case Some(v) => if negated then host.truthy(v.value) else !host.truthy(v.value)
    case None => !negated
  }

  /** `if v` fails exactly when v is unknown or not truthy. */
  lemma IfPlain(c: Config, v: string, host: Host)
    requires !StartsWith(v, "!")
    ensures IfFails(c, v, host) <==> GetVariable(c, v).None? || !host.truthy(GetVariable(c, v).value.value)
  {
  }

  /** `if !v` is the negation of `if v`. */
  lemma IfNegated(c: Config, v: string, host: Host)
    requires !StartsWith(v, "!")
    ensures IfFails(c, "!" + v, host) == !IfFails(c, v, host)
  {
    assert StartsWith("!" + v, "!");
    assert ("!" + v)[1..] == v;
  }

  /** parseComment on the text after '#': the new flags and, for a stray
      endif, the error. Text not starting with "hyprlang" is a plain comment. */
  function ParseComment(c: Config, comment: string, host: Host): (r: (Flags, Option<string>))
    ensures !StartsWith(Trim(comment), "hyprlang") ==> r == (c.flags, None)
    ensures r.1.Some? ==> r.1.value == "stray endif" && c.flags.ifFailed == [] && r.0 == c.flags
    ensures |r.0.ifFailed| <= |c.flags.ifFailed| + 1
  {
    var text := Trim(comment);
    if !StartsWith(text, "hyprlang") then (c.flags, None)
    else
      match Scan(DirectiveArgs(comment), 1)
      case NoErrorWord(on) => (c.flags.(noError := on), None)
      case EndIfWord =>
        if |c.flags.ifFailed| == 0 then (c.flags, Some("stray endif"))
        else (c.flags.(ifFailed := c.flags.ifFailed[..|c.flags.ifFailed| - 1]), None)
      case IfWord(v) =>
        if v == "" then (c.flags, None)
        else (c.flags.(ifFailed := c.flags.ifFailed + [IfFails(c, v, host)]), None)
      case NoDirective => (c.flags, None)
  }

  /** The directive words of a `# hyprlang ...` comment. */
  function DirectiveArgs(comment: string): seq<string> {
    Words(Trim(comment))
  }

  /** `endif` on an empty stack is the error "stray endif"; otherwise it
      drops the innermost frame. */
  lemma EndIf(c: Config, comment: string, host: Host)
    requires StartsWith(Trim(comment), "hyprlang") && Arg(DirectiveArgs(comment), 1) == "endif"
    ensures ParseComment(c, comment, host).1 == (if c.flags.ifFailed == [] then Some("stray endif") else None)
    ensures c.flags.ifFailed != [] ==>
      ParseComment(c, comment, host).0 == c.flags.(ifFailed := c.flags.ifFailed[..|c.flags.ifFailed| - 1])
  {
    assert Scan(DirectiveArgs(comment), 1) == EndIfWord;
  }

  /** `if v` pushes one frame recording whether v fails the test. */
  lemma IfPushes(c: Config, comment: string, host: Host)
    requires StartsWith(Trim(comment), "hyprlang") && Arg(DirectiveArgs(comment), 1) == "if"
    requires Arg(DirectiveArgs(comment), 2) != ""
    ensures var v := Arg(DirectiveArgs(comment), 2);
      ParseComment(c, comment, host) == (c.flags.(ifFailed := c.flags.ifFailed + [IfFails(c, v, host)]), None)
  {
    assert Scan(DirectiveArgs(comment), 1) == IfWord(Arg(DirectiveArgs(comment), 2));
  }

  /** `noerror` sets the switch from the third word. */
  lemma NoError(c: Config, comment: string, host: Host)
    requires StartsWith(Trim(comment), "hyprlang") && Arg(DirectiveArgs(comment), 1) == "noerror"
    ensures ParseComment(c, comment, host) == (c.flags.(noError := EnablesNoError(Arg(DirectiveArgs(comment), 2))), None)
  {
    assert Scan(DirectiveArgs(comment), 1) == NoErrorWord(EnablesNoError(Arg(DirectiveArgs(comment), 2)));
  }

  /** An `if` then an `endif` leave the flags as they were. */
  lemma IfThenEndIf(c: Config, ifComment: string, endComment: string, host: Host)
    requires StartsWith(Trim(ifComment), "hyprlang") && Arg(DirectiveArgs(ifComment), 1) == "if"
    requires Arg(DirectiveArgs(ifComment), 2) != ""
    requires StartsWith(Trim(endComment), "hyprlang") && Arg(DirectiveArgs(endComment), 1) == "endif"
    ensures var f := ParseComment(c, ifComment, host).0;
      ParseComment(c.(flags := f), endComment, host) == (c.flags, None)
  {
    IfPushes(c, ifComment, host);
    var f := ParseComment(c, ifComment, host).0;
    EndIf(c.(flags := f), endComment, host);
    assert f.ifFailed[..|f.ifFailed| - 1] == c.flags.ifFailed;
  }

  /** The comment loop as written: at each '#', a following '#' is an escape
      that collapses the pair and resumes the search two characters on; any
      other '#' cuts the line there. */
  function StripFrom(line: string, pos: nat): (r: string)
    requires pos < |line| && line[pos] == '#'
    ensures pos <= |r| <= |line| && r[..pos] == line[..pos]
    decreases |line| - pos
  {
    if pos < |line| - 1 && line[pos + 1] == '#' then
      var collapsed := line[..pos + 1] + line[pos + 2..];
      match FindChar(collapsed, '#', pos + 2)
      case None => collapsed
      case Some(p) => StripFrom(collapsed, p)
    else line[..pos]
  }

  /** The comment handling of parseLine. */
  function StripComment(line: string): (r: string)
    ensures |r| <= |line|
    ensures '#' !in line ==> r == line
    ensures FindChar(line, '#', 0).Some? ==>
      var p := FindChar(line, '#', 0).value; p <= |r| && r[..p] == line[..p]
  {
    match FindChar(line, '#', 0)
    case None => line
    case Some(p) => StripFrom(line, p)
  }

  /** Reference reading, left to right: "##" stands for a literal '#' and the
      character after it is kept as it is; any other '#' ends the line. */
  function Decomment(s: string): (r: string)
    ensures |r| <= |s|
  {
    if |s| == 0 then ""
    else if s[0] == '#' then
      if |s| >= 2 && s[1] == '#' then "#" + (if |s| >= 3 then [s[2]] + Decomment(s[3..]) else "")
      else ""
    else [s[0]] + Decomment(s[1..])
  }

  /** Decomment copies a '#'-free prefix as is. */
  lemma {:induction false} DecommentPlain(s: string, m: nat)
    requires m <= |s| && '#' !in s[..m]
    ensures Decomment(s) == s[..m] + Decomment(s[m..])
  {
    if m > 0 {
      assert s[0] == s[..m][0];
      assert s[1..][..m - 1] == s[1..m];
      DecommentPlain(s[1..], m - 1);
      assert s[1..][m - 1..] == s[m..];
    }
  }

  lemma {:induction false} StripFromIsDecomment(line: string, pos: nat)
    requires pos < |line| && line[pos] == '#'
    ensures StripFrom(line, pos) == line[..pos] + Decomment(line[pos..])
    decreases |line| - pos
  {
    if pos < |line| - 1 && line[pos + 1] == '#' {
      var collapsed := line[..pos + 1] + line[pos + 2..];
      match FindChar(collapsed, '#', pos + 2)
      case None => EscapeThenEnd(line, pos);
      case Some(p) =>
        StripFromIsDecomment(collapsed, p);
        EscapeThenMore(line, pos, p);
    } else {
      assert Decomment(line[pos..]) == "";
    }
  }

  /** The reference reading of an escaped pair. */
  lemma DecommentEscape(t: string)
    requires |t| >= 2 && t[0] == '#' && t[1] == '#'
    ensures |t| >= 3 ==> Decomment(t) == "#" + [t[2]] + Decomment(t[3..])
    ensures |t| == 2 ==> Decomment(t) == "#"
  {
  }

  /** An escaped pair with no '#' after it. */
  lemma EscapeThenEnd(line: string, pos: nat)
    requires pos + 1 < |line| && line[pos] == '#' && line[pos + 1] == '#'
    requires FindChar(line[..pos + 1] + line[pos + 2..], '#', pos + 2).None?
    ensures line[..pos + 1] + line[pos + 2..] == line[..pos] + Decomment(line[pos..])
  {
    var t := line[pos..];
    var collapsed := line[..pos + 1] + line[pos + 2..];
    DecommentEscape(t);
    if |t| >= 3 {
      var u := t[3..];
      assert u == collapsed[pos + 2..];
      assert '#' !in u;
      DecommentPlain(u, |u|);
      assert u[..|u|] == u;
      assert collapsed == line[..pos] + "#" + [t[2]] + u;
    } else {
      assert collapsed == line[..pos] + "#";
    }
  }

  /** An escaped pair followed, at `p` of the collapsed line, by another '#'. */
  lemma EscapeThenMore(line: string, pos: nat, p: nat)
    requires pos + 1 < |line| && line[pos] == '#' && line[pos + 1] == '#'
    requires var collapsed := line[..pos + 1] + line[pos + 2..];
      FindChar(collapsed, '#', pos + 2) == Some(p)
    ensures var collapsed := line[..pos + 1] + line[pos + 2..];
      collapsed[..p] + Decomment(collapsed[p..]) == line[..pos] + Decomment(line[pos..])
  {
    var collapsed := line[..pos + 1] + line[pos + 2..];
    var t := line[pos..];
    assert |t| >= 3;
    DecommentEscape(t);
    var u := t[3..];
    var m := p - pos - 2;
    assert u[..m] == collapsed[pos + 2..p];
    assert '#' !in u[..m];
    DecommentPlain(u, m);
    assert u[m..] == collapsed[p..];
    assert collapsed[..p] == line[..pos] + "#" + [t[2]] + collapsed[pos + 2..p];
  }

  /** The comment loop computes the reference reading. */
  lemma StripCommentIsDecomment(line: string)
    ensures StripComment(line) == Decomment(line)
  {
    match FindChar(line, '#', 0)
    case None =>
      DecommentPlain(line, |line|);
      assert line[..|line|] == line;
    case Some(p) =>
      StripFromIsDecomment(line, p);
      DecommentPlain(line, p);
  }
}
