/** Keyword handlers (src/config.cpp:801-841): a line whose name is not a
    value goes to every registered handler that accepts it, in registration
    order; the last one called decides the line's result. */
module Handlers {
  import opened Results
  import opened Text
  import opened Foreign
  import opened Registry

  /** The handler's name without a leading ':'. */
  function HandlerName(name: string): (r: string)
    ensures name == ":" + r || (r == name && (|name| == 0 || name[0] != ':'))
  {
    if |name| > 0 && name[0] == ':' then name[1..] else name
  }

  /** The category walk of a scoped handler name: each `segment:` has to be
      the next open category; the walk stops at the first mismatch, when the
      name has no further ':' or when the stack is used up. Returns the rest
      of the name (the source keeps its start index instead) and how many
      categories were matched. */
  function Walk(s: string, cats: seq<string>, depth: nat): (r: (string, nat))
    requires depth <= |cats|
    ensures |r.0| <= |s| && depth <= r.1 <= |cats|
    decreases |s|
  {
    if depth == |cats| then (s, depth)
    else
      match FindChar(s, ':', 0)
      case None => (s, depth)
      case Some(colon) =>
        if s[..colon] != cats[depth] then (s, depth)
        else Walk(s[colon + 1..], cats, depth + 1)
  }

  /** A scoped, flag-less handler name accepts the line when the walk uses
      every open category and the rest of the name is the line's name. */
  predicate ScopedAccepts(hn: string, cats: seq<string>, lhs: string) {
    Walk(hn, cats, 0) == (lhs, |cats|)
  }

  /** Whether handler `h` is called for a line named `lhs` under `cats`: a
      handler taking flags matches any colon-free name it prefixes, an unscoped
      one its exact name, and a scoped one the category path and the name. */
  function Accepts(h: Handler, cats: seq<string>, lhs: string): (r: bool)
    ensures h.allowFlags ==> (r <==> StartsWith(lhs, HandlerName(h.name)) && ':' !in lhs)
    ensures !h.allowFlags && ':' !in h.name ==> (r <==> h.name == lhs)
    ensures !h.allowFlags && ':' in h.name && (forall j :: 0 <= j < |cats| ==> ':' !in cats[j]) ==>
      (r <==> HandlerName(h.name) == ColonPrefix(cats) + lhs)
  {
    ScopedIffWhenColonFree(HandlerName(h.name), cats, lhs);
    var unscoped := ':' !in h.name;
    var hn := HandlerName(h.name);
    (h.allowFlags || unscoped || ScopedAccepts(hn, cats, lhs)) &&
    (!unscoped || hn == lhs || h.allowFlags) &&
    (!h.allowFlags || (StartsWith(lhs, hn) && ':' !in lhs))
  }

  /** The last handler of the list that accepts the line. */
  function LastAccepting(hs: seq<Handler>, cats: seq<string>, lhs: string): (r: Option<nat>)
    ensures r.Some? ==> r.value < |hs| && Accepts(hs[r.value], cats, lhs)
    ensures r.Some? ==> forall j :: r.value < j < |hs| ==> !Accepts(hs[j], cats, lhs)
    ensures r.None? ==> forall j :: 0 <= j < |hs| ==> !Accepts(hs[j], cats, lhs)
  {
    if |hs| == 0 then None
    else
      assert forall j :: 1 <= j < |hs| ==> hs[j] == hs[1..][j - 1];
      match LastAccepting(hs[1..], cats, lhs)
      case Some(k) => Some(k + 1)
      case None => if Accepts(hs[0], cats, lhs) then Some(0) else None
  }

  /** The handler loop: `ret` and `found` start as configSetValueSafe left
      them; each accepting handler is called on the C strings of both sides,
      so the last one's result is the line's. */
  function RunHandlers(hs: seq<Handler>, cats: seq<string>, lhs: string, rhs: string, ret: ParseResult, found: bool, host: Host): (r: (ParseResult, bool))
    ensures var last := LastAccepting(hs, cats, lhs);
      r == (if last.Some? then host.handler(hs[last.value].func, CString(lhs), CString(rhs)) else ret, found || last.Some?)
    decreases |hs|
  {
    if |hs| == 0 then (ret, found)
    else
      var h := hs[0];
      var next := if Accepts(h, cats, lhs) then (host.handler(h.func, CString(lhs), CString(rhs)), true) else (ret, found);
      var r := RunHandlers(hs[1..], cats, lhs, rhs, next.0, next.1, host);
      assert LastAccepting(hs[1..], cats, lhs).Some? ==> hs[1..][LastAccepting(hs[1..], cats, lhs).value] == hs[LastAccepting(hs, cats, lhs).value];
      r
  }

  /** The category path, built from the front. */
  lemma {:induction false} ColonPrefixFront(cats: seq<string>)
    requires |cats| > 0
    ensures ColonPrefix(cats) == cats[0] + ":" + ColonPrefix(cats[1..])
    decreases |cats|
  {
    if |cats| > 1 {
      var init := cats[..|cats| - 1];
      ColonPrefixFront(init);
      assert init[1..] == cats[1..][..|cats[1..]| - 1];
      assert init[0] == cats[0];
    } else {
      assert cats[1..] == [];
      assert cats[..0] == [];
    }
  }

  /** A segment followed by ':' is found by the colon search and read back. */
  lemma SegmentAt(s: string, cat: string, tail: string)
    requires ':' !in cat && s == cat + ":" + tail
    ensures FindChar(s, ':', 0) == Some(|cat|)
    ensures s[..|cat|] == cat && s[|cat| + 1..] == tail
  {
    assert s[|cat|] == ':';
    assert forall j :: 0 <= j < |cat| ==> s[j] == cat[j];
  }

  /** The path of the categories from `depth` on, built from the front. */
  lemma PrefixStep(cats: seq<string>, depth: nat)
    requires depth < |cats|
    ensures ColonPrefix(cats[depth..]) == cats[depth] + ":" + ColonPrefix(cats[depth + 1..])
  {
    ColonPrefixFront(cats[depth..]);
    assert cats[depth..][1..] == cats[depth + 1..];
  }

  /** A name that spells out the remaining categories, colon-terminated, is
      walked to the end of them. */
  lemma {:induction false} WalkOverPrefix(s: string, cats: seq<string>, depth: nat, rest: string)
    requires depth <= |cats|
    requires forall j :: depth <= j < |cats| ==> ':' !in cats[j]
    requires s == ColonPrefix(cats[depth..]) + rest
    ensures Walk(s, cats, depth) == (rest, |cats|)
    decreases |cats| - depth
  {
    if depth < |cats| {
      var tail := ColonPrefix(cats[depth + 1..]);
      PrefixStep(cats, depth);
      assert s == cats[depth] + ":" + (tail + rest);
      SegmentAt(s, cats[depth], tail + rest);
      WalkOverPrefix(s[|cats[depth]| + 1..], cats, depth + 1, rest);
    } else {
      assert cats[depth..] == [];
      assert s == rest;
    }
  }

  lemma Rejoin(s: string, colon: nat, seg: string, tail: string, rest: string)
    requires colon < |s| && s[colon] == ':' && s[..colon] == seg && s[colon + 1..] == tail + rest
    ensures s == seg + ":" + tail + rest
  {
    assert s == s[..colon] + ":" + s[colon + 1..];
  }

  /** A walk that used every category went over exactly their path. */
  lemma {:induction false} WalkSpellsPrefix(s: string, cats: seq<string>, depth: nat)
    requires depth <= |cats|
    requires Walk(s, cats, depth).1 == |cats|
    ensures s == ColonPrefix(cats[depth..]) + Walk(s, cats, depth).0
    decreases |s|
  {
    if depth == |cats| {
      assert cats[depth..] == [];
    } else {
      var colon := FindChar(s, ':', 0).value;
      var after := s[colon + 1..];
      assert s[..colon] == cats[depth] && Walk(s, cats, depth) == Walk(after, cats, depth + 1);
      WalkSpellsPrefix(after, cats, depth + 1);
      PrefixStep(cats, depth);
      Rejoin(s, colon, cats[depth], ColonPrefix(cats[depth + 1..]), Walk(after, cats, depth + 1).0);
    }
  }

  /** ScopedAcceptsIff for categories that may or may not be colon-free. */
  lemma ScopedIffWhenColonFree(hn: string, cats: seq<string>, lhs: string)
    ensures (forall j :: 0 <= j < |cats| ==> ':' !in cats[j]) ==>
      (ScopedAccepts(hn, cats, lhs) <==> hn == ColonPrefix(cats) + lhs)
  {
    if forall j :: 0 <= j < |cats| ==> ':' !in cats[j] {
      ScopedAcceptsIff(hn, cats, lhs);
    }
  }

  /** Reference for scoped handler names: when no open category contains a
      ':', a scoped handler accepts the line exactly when its name is the
      category path followed by the line's name. */
  lemma ScopedAcceptsIff(hn: string, cats: seq<string>, lhs: string)
    requires forall j :: 0 <= j < |cats| ==> ':' !in cats[j]
    ensures ScopedAccepts(hn, cats, lhs) <==> hn == ColonPrefix(cats) + lhs
  {
    assert cats[0..] == cats;
    if hn == ColonPrefix(cats) + lhs {
      WalkOverPrefix(hn, cats, 0, lhs);
    }
    if ScopedAccepts(hn, cats, lhs) {
      WalkSpellsPrefix(hn, cats, 0);
    }
  }
}
