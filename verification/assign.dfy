/** Assignment of one `name = value` pair (configSetValueSafe,
    src/config.cpp:283-490): the full name is the category path plus the
    command; a `cat[key]:leaf` name creates the keyed instance it names; the
    cell is looked up among the flat values, the current special category,
    the existing instances and finally the descriptors (creating a keyed or
    numbered instance); the text is then converted to the cell's type. */
module Assign {
  import opened Results
  import opened Text
  import opened Numbers
  import opened Foreign
  import opened Values
  import opened Coerce
  import opened Order
  import opened Registry

  /** The full name of a command under a category stack, "a:b:command". */
  function ValueName(cats: seq<string>, command: string): string {
    ColonPrefix(cats) + command
  }

  /** The key between the first '[' and the last ']', and the name without them. */
  datatype Bracket = Bracket(key: string, name: string)

  function SplitBracket(valueName: string): (r: Option<Bracket>)
    ensures r.Some? ==> |r.value.key| + |r.value.name| + 2 == |valueName|
    ensures '[' !in valueName || ']' !in valueName ==> r.None?
  {
    match FindChar(valueName, '[', 0)
    case None => None
    case Some(l) =>
      (match FindLastChar(valueName, ']')
       case None => None
       case Some(r) => if l < r then Some(Bracket(valueName[l + 1..r], valueName[..l] + valueName[r + 1..])) else None)
  }

  /** Round trip: a name built as prefix[key]suffix splits back into its key
      and prefix + suffix, whatever the key holds. */
  lemma SplitBracketOfJoin(prefix: string, key: string, suffix: string)
    requires '[' !in prefix && ']' !in suffix
    ensures SplitBracket(prefix + "[" + key + "]" + suffix) == Some(Bracket(key, prefix + suffix))
  {
    var s := prefix + "[" + key + "]" + suffix;
    var l := |prefix|;
    var r := |prefix| + 1 + |key|;
    assert s[l] == '[' && s[r] == ']';
    assert forall j :: 0 <= j < l ==> s[j] == prefix[j];
    assert forall j :: r < j < |s| ==> s[j] == suffix[j - r - 1];
    assert FindChar(s, '[', 0) == Some(l);
    assert FindLastChar(s, ']') == Some(r);
    assert s[l + 1..r] == key;
    assert s[..l] == prefix && s[r + 1..] == suffix;
  }

  /** The leaf of `valueName` below a category of that name, as the source
      computes it: substr(name.length() + 1), which throws out_of_range when
      the name is the whole of `valueName`. */
  function LeafAsWritten(valueName: string, name: string): (r: Result<string>)
    requires StartsWith(valueName, name)
  {
    if |valueName| < |name| + 1 then Err("basic_string::substr: __pos > this->size()")
    else Ok(valueName[|name| + 1..])
  }

  /** A line naming just the category passes the prefix test and throws. */
  lemma LeafAsWrittenThrows(name: string)
    ensures StartsWith(name, name) && LeafAsWritten(name, name).Err?
  {
  }

  /** The leaf with the missing length check: a name that is the category
      itself has no leaf, and the lookup goes on as for a missing value. */
  function Leaf(valueName: string, name: string): (r: Option<string>)
    requires StartsWith(valueName, name)
    ensures r.Some? <==> |valueName| > |name|
    ensures r.Some? ==> LeafAsWritten(valueName, name) == Ok(r.value)
  {
    if |valueName| > |name| then Some(valueName[|name| + 1..]) else None
  }

  /** Round trip: the leaf of "name:leaf" below `name` is `leaf`. */
  lemma LeafOfPath(name: string, leaf: string)
    ensures StartsWith(name + ":" + leaf, name) && Leaf(name + ":" + leaf, name) == Some(leaf)
  {
    var s := name + ":" + leaf;
    assert s[..|name|] == name;
    assert s[|name| + 1..] == leaf;
  }

  /** An instance of descriptor `d` already carries this key. */
  predicate HasKey(d: Descriptor, key: string, i: Instance) {
    i.key == d.key && i.name == d.name && KeyText(i) == key
  }

  function KeyedExists(c: Config, d: Descriptor, key: string): (r: bool)
    ensures r <==> exists j :: 0 <= j < |c.instances| && HasKey(d, key, c.instances[j])
  {
    FirstMatch(c.instances, (i: Instance) => HasKey(d, key, i)).Some?
  }

  /** A new, non-static instance of `d` appended to the instance list after
      addSpecialConfigValue(d.name, d.key, keyDefault) registered the key's
      default and applyDefaultsToCat filled it. The registration only touches
      static instances, so it is done first here. */
  function NewInstance(c: Config, d: Descriptor, keyDefault: string, host: Host): (r: Config)
    ensures |r.instances| == |c.instances| + 1 && r.nextId == c.nextId + 1
    ensures var n := r.instances[|c.instances|];
      n.id == c.nextId && n.descriptor == d.id && n.name == d.name && n.key == d.key && !n.isStatic && n.anonymousID == 0
    ensures forall k :: k in DescriptorDefaults(r, d.id) ==> k in r.instances[|c.instances|].values
    ensures r.instances[|c.instances|].values.Keys == DescriptorDefaults(r, d.id).Keys
    ensures forall j :: 0 <= j < |c.instances| ==> r.instances[j].anonymousID == c.instances[j].anonymousID
    ensures Untouched(c, r)
  {
    var c1 := match FindDescriptor(c, d.name)
      case Some(di) => RegisterSpecial(c, di, d.key, DefaultOf(FromString(keyDefault)), host)
      case None => c;
    var inst := ApplyDefaultsToCat(c1, Instance(c1.nextId, d.id, d.name, d.key, false, 0, map[]), host);
    c1.(instances := c1.instances + [inst], nextId := c1.nextId + 1)
  }

  /** The instance at index k with cell `leaf` replaced. */
  function PutCell(c: Config, k: nat, leaf: string, cell: ConfigValue): (r: Config)
    requires k < |c.instances|
    ensures |r.instances| == |c.instances|
    ensures r.instances[k].values == c.instances[k].values[leaf := cell]
    ensures Untouched(c, r)
  {
    var i := c.instances[k];
    c.(instances := c.instances[k := i.(values := i.values[leaf := cell])])
  }

  /** setFrom of a text on cell `leaf` of instance k; a cell that is not a
      string keeps its value (the source's bad_any_cast is not modelled). */
  function SetKeyText(c: Config, k: nat, leaf: string, text: string): (r: Config)
    requires k < |c.instances|
    ensures |r.instances| == |c.instances|
    ensures var v := c.instances[k].values; leaf in v && v[leaf].kind == StrType ==>
      leaf in r.instances[k].values && r.instances[k].values[leaf].data == StrData(CString(text))
    ensures Untouched(c, r)
  {
    match SetFrom(CellAt(c.instances[k].values, leaf), AnyStr(text))
    case Ok(cell) => PutCell(c, k, leaf, cell)
    case Err(_) => c
  }

  /** The instance a `cat[key]:` line creates: key default and key cell both `key`. */
  function CreateKeyed(c: Config, d: Descriptor, key: string, host: Host): (r: Config)
    ensures |r.instances| == |c.instances| + 1
    ensures Untouched(c, r)
  {
    var c1 := NewInstance(c, d, key, host);
    SetKeyText(c1, |c.instances|, d.key, key)
  }

  /** Descriptor `di` is the only one with its id. */
  predicate OwnId(c: Config, di: nat)
    requires di < |c.descriptors|
  {
    forall j :: 0 <= j < |c.descriptors| && j != di ==> c.descriptors[j].id != c.descriptors[di].id
  }

  /** A descriptor with its own id is the one its id finds. */
  lemma DefaultsById(c: Config, di: nat)
    requires di < |c.descriptors| && OwnId(c, di)
    ensures DescriptorDefaults(c, c.descriptors[di].id) == c.descriptors[di].defaults
  {
    var m := FirstMatch(c.descriptors, (d: Descriptor) => d.id == c.descriptors[di].id);
    assert m == Some(di);
  }

  /** The instance a `cat[key]:` line creates reads back the key it was
      created for (when the key's default is, or becomes, a string), so the
      category now exists for that key. */
  lemma CreateKeyedHasKey(c: Config, di: nat, key: string, host: Host)
    requires di < |c.descriptors| && FindDescriptor(c, c.descriptors[di].name) == Some(di) && OwnId(c, di)
    requires var d := c.descriptors[di]; d.key !in d.defaults || d.defaults[d.key].kind == StrType
    requires '\0' !in key
    ensures var d := c.descriptors[di]; var r := CreateKeyed(c, d, key, host);
      HasKey(d, key, r.instances[|c.instances|]) && SpecialCategoryExistsForKey(r, d.name, key)
  {
    var d := c.descriptors[di];
    var c1 := RegisterSpecial(c, di, d.key, DefaultOf(FromString(key)), host);
    assert c1.descriptors[di].id == d.id;
    DefaultsById(c1, di);
    var r := CreateKeyed(c, d, key, host);
    var n := r.instances[|c.instances|];
    assert n in r.instances;
  }

  /** The descriptors loop of the `[key]` path: the first matching keyed
      descriptor that already has the key stops it; every other matching
      descriptor gets a new instance. */
  function BracketScan(c: Config, descs: seq<Descriptor>, valueName: string, key: string, host: Host): (r: Config)
    ensures |r.instances| >= |c.instances|
    decreases |descs|
    ensures Untouched(c, r)
  {
    if |descs| == 0 then c
    else
      var d := descs[0];
      if d.key == "" || !StartsWith(valueName, d.name + ":") then BracketScan(c, descs[1..], valueName, key, host)
      else if KeyedExists(c, d, key) then c
      else BracketScan(CreateKeyed(c, d, key, host), descs[1..], valueName, key, host)
  }

  /** Where a name resolved to: a flat cell, or cell `leaf` of instance `index`. */
  datatype Target = Flat(name: string) | InInstance(index: nat, leaf: string)

  /** The lookup either finds a cell or ends the assignment early. */
  datatype Resolution =
    | Found(c: Config, target: Target)
    | Done(c: Config, found: bool, result: ParseResult)

  function NotFound(c: Config, valueName: string): (r: Resolution) {
    Done(c, false, SetError(Success, "config option <" + valueName + "> does not exist."))
  }

  /** The index of the current special category's instance, if it still exists. */
  function CurrentIndex(c: Config): (r: Option<nat>)
    ensures r.Some? ==> r.value < |c.instances| && Some(c.instances[r.value].id) == c.currentSpecialCategory
    ensures r.None? ==> c.currentSpecialCategory.None? || forall j :: 0 <= j < |c.instances| ==> Some(c.instances[j].id) != c.currentSpecialCategory
  {
    match c.currentSpecialCategory
    case None => None
    case Some(id) => FirstMatch(c.instances, (i: Instance) => i.id == id)
  }

  /** The cell `valueName` names inside instance k, if the instance's name
      prefixes it and the leaf is there. */
  function LeafIn(c: Config, k: nat, valueName: string): (r: Option<string>)
    requires k < |c.instances|
    ensures r.Some? ==> r.value in c.instances[k].values
    ensures var n := c.instances[k].name; r.Some? <==> StartsWith(valueName, n) && |valueName| > |n| && valueName[|n| + 1..] in c.instances[k].values
    ensures r.Some? ==> r.value == valueName[|c.instances[k].name| + 1..]
  {
    var i := c.instances[k];
    if !StartsWith(valueName, i.name) then None
    else match Leaf(valueName, i.name)
      case Some(leaf) => if leaf in i.values then Some(leaf) else None
      case None => None
  }

  /** Whether an instance is tried for a name: its name prefixes the name,
      and it is static or carries the current key. */
  predicate Candidate(valueName: string, currentKey: string, i: Instance) {
    StartsWith(valueName, i.name) && (i.isStatic || KeyText(i) == currentKey)
  }

  function DontErrorOnMissing(c: Config, id: nat): bool {
    match FirstMatch(c.descriptors, (d: Descriptor) => d.id == id)
    case Some(k) => c.descriptors[k].dontErrorOnMissing
    case None => false
  }

  /** The largest anonymous number in use (0 when there is no instance). */
  function MaxAnonymous(insts: seq<Instance>): (m: nat)
    ensures forall j :: 0 <= j < |insts| ==> insts[j].anonymousID <= m
    ensures |insts| == 0 ==> m == 0
    ensures |insts| > 0 ==> exists j :: 0 <= j < |insts| && insts[j].anonymousID == m
  {
    if |insts| == 0 then 0
    else
      var rest := MaxAnonymous(insts[1..]);
      assert forall j :: 1 <= j < |insts| ==> insts[j] == insts[1..][j - 1];
      if insts[0].anonymousID > rest || |insts| == 1 then insts[0].anonymousID
      else
        var j :| 0 <= j < |insts[1..]| && insts[1..][j].anonymousID == rest;
        assert insts[j + 1].anonymousID == rest;
        rest
  }

  /** Numbering a new anonymous instance k: one more than every number in use. */
  function NumberAnonymous(c: Config, k: nat): (r: Config)
    requires k < |c.instances|
    ensures |r.instances| == |c.instances|
    ensures r.instances[k] == c.instances[k].(anonymousID := r.instances[k].anonymousID, values := r.instances[k].values)
    ensures r.instances[k].anonymousID == MaxAnonymous(c.instances) + 1
    ensures r.currentSpecialKey == NatToString(MaxAnonymous(c.instances) + 1)
    ensures var v := c.instances[k].values; ANONYMOUS_KEY in v && v[ANONYMOUS_KEY].kind == StrType ==>
      ANONYMOUS_KEY in r.instances[k].values &&
      r.instances[k].values[ANONYMOUS_KEY].data == StrData(NatToString(MaxAnonymous(c.instances) + 1))
    ensures Untouched(c, r)
  {
    var biggest := MaxAnonymous(c.instances) + 1;
    var c1 := SetKeyText(c, k, ANONYMOUS_KEY, NatToString(biggest));
    var i := c1.instances[k];
    c1.(instances := c1.instances[k := i.(anonymousID := biggest)], currentSpecialKey := NatToString(biggest))
  }

  /** Appending an instance numbered 0 leaves the largest number in use as it was. */
  lemma MaxAnonymousAppendZero(a: seq<Instance>, b: seq<Instance>)
    requires |b| == |a| + 1 && b[|a|].anonymousID == 0
    requires forall j :: 0 <= j < |a| ==> b[j].anonymousID == a[j].anonymousID
    ensures MaxAnonymous(b) == MaxAnonymous(a)
  {
    var mb := MaxAnonymous(b);
    var ma := MaxAnonymous(a);
    var j :| 0 <= j < |b| && b[j].anonymousID == mb;
    if j < |a| {
      assert mb <= ma;
    }
    if |a| > 0 {
      var i :| 0 <= i < |a| && a[i].anonymousID == ma;
      assert b[i].anonymousID == ma;
    }
  }

  /** The error of a keyed category whose first line is not its key. */
  function KeyFirstError(d: Descriptor): string {
    "special category's first value must be the key. Key for <" + d.name + "> is <" + d.key + ">"
  }

  /** The descriptors loop: the first keyed descriptor `valueName` falls under
      creates an instance when the leaf is one of its values or its key. */
  function ResolveDescriptor(c: Config, valueName: string, value: string, host: Host): (r: Resolution)
    ensures r.Done? && !r.found ==> r.result == SetError(Success, "config option <" + valueName + "> does not exist.")
    ensures r.Found? && r.target.InInstance? ==> r.target.index < |r.c.instances|
    ensures r.Found? ==> r.target.InInstance?
    ensures Untouched(c, r.c)
  {
    match FirstMatch(c.descriptors, (d: Descriptor) => d.key != "" && StartsWith(valueName, d.name + ":"))
    case None => NotFound(c, valueName)
    case Some(di) =>
      var d := c.descriptors[di];
      var trunk := valueName[|d.name| + 1..];
      if trunk !in d.defaults && trunk != d.key then NotFound(c, valueName)
      else
        var c1 := NewInstance(c, d, "0", host);
        var k := |c.instances|;
        var c2 := c1.(currentSpecialCategory := Some(c1.instances[k].id));
        var found := trunk in c2.instances[k].values;
        if d.anonymous then
          var c3 := NumberAnonymous(c2, k);
          if found then Found(c3, InInstance(k, trunk)) else NotFound(c3, valueName)
        else if !found || trunk != d.key then Done(c2, true, SetError(Success, KeyFirstError(d)))
        else Found(c2.(currentSpecialKey := value), InInstance(k, trunk))
  }

  /** A new instance of a descriptor whose key default is, or becomes, a
      string has a string key cell. */
  lemma NewInstanceKeyCell(c: Config, di: nat, keyDefault: string, host: Host)
    requires di < |c.descriptors| && FindDescriptor(c, c.descriptors[di].name) == Some(di) && OwnId(c, di)
    requires var d := c.descriptors[di]; d.key !in d.defaults || d.defaults[d.key].kind == StrType
    ensures var d := c.descriptors[di]; var n := NewInstance(c, d, keyDefault, host).instances[|c.instances|];
      d.key in n.values && n.values[d.key].kind == StrType
  {
    var d := c.descriptors[di];
    var c0 := RegisterSpecial(c, di, d.key, DefaultOf(FromString(keyDefault)), host);
    assert c0.descriptors[di].id == d.id;
    DefaultsById(c0, di);
  }

  /** The anonymous path of the descriptors loop: a new instance, made current, then numbered. */
  lemma ResolvesAnonymous(c: Config, di: nat, valueName: string, value: string, host: Host)
    requires di < |c.descriptors|
    requires FirstMatch(c.descriptors, (d: Descriptor) => d.key != "" && StartsWith(valueName, d.name + ":")) == Some(di)
    requires var d := c.descriptors[di]; d.anonymous
    requires var d := c.descriptors[di]; var trunk := valueName[|d.name| + 1..]; trunk in d.defaults || trunk == d.key
    ensures var c1 := NewInstance(c, c.descriptors[di], "0", host); var k := |c.instances|;
      ResolveDescriptor(c, valueName, value, host).c == NumberAnonymous(c1.(currentSpecialCategory := Some(c1.instances[k].id)), k)
  {
  }

  /** Numbering an instance whose key cell is a string writes the number as its key text. */
  lemma NumberedKeyText(c: Config, k: nat)
    requires k < |c.instances| && c.instances[k].key == ANONYMOUS_KEY
    requires ANONYMOUS_KEY in c.instances[k].values && c.instances[k].values[ANONYMOUS_KEY].kind == StrType
    ensures var i := NumberAnonymous(c, k).instances[k];
      i.key == c.instances[k].key && i.name == c.instances[k].name &&
      KeyText(i) == NatToString(MaxAnonymous(c.instances) + 1)
  {
  }

  /** A line that opens a new anonymous instance numbers it one above every
      number in use and writes that number as its key text (when the key's
      default is, or becomes, a string). */
  lemma AnonymousNumbered(c: Config, di: nat, valueName: string, value: string, host: Host)
    requires di < |c.descriptors| && FindDescriptor(c, c.descriptors[di].name) == Some(di) && OwnId(c, di)
    requires FirstMatch(c.descriptors, (d: Descriptor) => d.key != "" && StartsWith(valueName, d.name + ":")) == Some(di)
    requires var d := c.descriptors[di]; d.anonymous && d.key == ANONYMOUS_KEY
    requires var d := c.descriptors[di]; d.key !in d.defaults || d.defaults[d.key].kind == StrType
    requires var d := c.descriptors[di]; var trunk := valueName[|d.name| + 1..]; trunk in d.defaults || trunk == d.key
    ensures var d := c.descriptors[di]; var r := ResolveDescriptor(c, valueName, value, host);
      var k := |c.instances|; var n := MaxAnonymous(c.instances) + 1;
      |r.c.instances| == k + 1 && r.c.instances[k].anonymousID == n &&
      HasKey(d, NatToString(n), r.c.instances[k]) && r.c.currentSpecialKey == NatToString(n)
  {
    var d := c.descriptors[di];
    NewInstanceKeyCell(c, di, "0", host);
    var c1 := NewInstance(c, d, "0", host);
    var k := |c.instances|;
    var c2 := c1.(currentSpecialCategory := Some(c1.instances[k].id));
    MaxAnonymousAppendZero(c.instances, c2.instances);
    ResolvesAnonymous(c, di, valueName, value, host);
    NumberedKeyText(c2, k);
  }

  /** A name that is not a flat value and whose leaf the current special
      category holds resolves into that instance, before any other instance
      or descriptor is tried. */
  lemma CurrentInstanceFirst(c: Config, valueName: string, value: string, host: Host, k: nat)
    requires valueName !in c.values
    requires CurrentIndex(c) == Some(k) && LeafIn(c, k, valueName).Some?
    ensures Resolve(c, valueName, value, host) == Found(c, InInstance(k, LeafIn(c, k, valueName).value))
  {
  }

  /** The second step: when the current special category does not hold the
      leaf, the first candidate instance becomes the current category and
      resolves the name when it holds the leaf; when it lacks the leaf and
      its category does not error on missing values, the line is done. */
  lemma LiveInstanceStep(c: Config, valueName: string, value: string, host: Host, k: nat)
    requires valueName !in c.values
    requires CurrentIndex(c).None? || LeafIn(c, CurrentIndex(c).value, valueName).None?
    requires k < |c.instances| && Candidate(valueName, c.currentSpecialKey, c.instances[k])
    requires forall j :: 0 <= j < k ==> !Candidate(valueName, c.currentSpecialKey, c.instances[j])
    ensures var c1 := c.(currentSpecialCategory := Some(c.instances[k].id));
      LeafIn(c1, k, valueName).Some? ==> Resolve(c, valueName, value, host) == Found(c1, InInstance(k, LeafIn(c1, k, valueName).value))
    ensures var c1 := c.(currentSpecialCategory := Some(c.instances[k].id));
      LeafIn(c1, k, valueName).None? && DontErrorOnMissing(c, c.instances[k].descriptor) ==>
      Resolve(c, valueName, value, host) == Done(c1, true, Success)
  {
    assert FirstMatch(c.instances, (i: Instance) => Candidate(valueName, c.currentSpecialKey, i)) == Some(k);
  }

  /** The lookup after the flat values: the current special category, then
      the first candidate instance, then the descriptors. */
  function ResolveSpecial(c: Config, valueName: string, value: string, host: Host): (r: Resolution)
    ensures r.Done? && !r.found ==> r.result == SetError(Success, "config option <" + valueName + "> does not exist.")
    ensures r.Found? ==> r.target.InInstance? && r.target.index < |r.c.instances|
    ensures Untouched(c, r.c)
  {
    var current := CurrentIndex(c);
    if current.Some? && LeafIn(c, current.value, valueName).Some? then
      Found(c, InInstance(current.value, LeafIn(c, current.value, valueName).value))
    else
      match FirstMatch(c.instances, (i: Instance) => Candidate(valueName, c.currentSpecialKey, i))
      case Some(k) =>
        var c1 := c.(currentSpecialCategory := Some(c.instances[k].id));
        if LeafIn(c1, k, valueName).Some? then Found(c1, InInstance(k, LeafIn(c1, k, valueName).value))
        else if DontErrorOnMissing(c, c.instances[k].descriptor) then Done(c1, true, Success)
        else ResolveDescriptor(c1, valueName, value, host)
      case None => ResolveDescriptor(c, valueName, value, host)
  }

  function Resolve(c: Config, valueName: string, value: string, host: Host): (r: Resolution)
    ensures valueName in c.values ==> r == Found(c, Flat(valueName))
    ensures r.Found? && r.target.Flat? ==> r.target.name in r.c.values
    ensures r.Found? && r.target.InInstance? ==> r.target.index < |r.c.instances|
    ensures r.Done? && !r.found ==> r.result == SetError(Success, "config option <" + valueName + "> does not exist.")
    ensures Untouched(c, r.c)
  {
    if valueName in c.values then Found(c, Flat(valueName)) else ResolveSpecial(c, valueName, value, host)
  }

  /** The outcome of configSetValueSafe: the new state, whether the name was
      known (false sends the line to the handlers), and the result. */
  datatype Assignment = Assignment(c: Config, found: bool, result: ParseResult)

  /** vec2 text: two floats separated by exactly one space. */
  function ParseVec2(value: string, host: Host): (r: Result<Vec2>)
  {
    match FindChar(value, ' ', 0)
    case None => Err("failed parsing a vec2: no space")
    case Some(p) =>
      var lhs := value[..p];
      var rhs := value[p + 1..];
      if Contains(lhs, " ") || Contains(rhs, " ") then Err("failed parsing a vec2: too many args")
      else
        (match (host.stof(lhs), host.stof(rhs))
         case (Some(x), Some(y)) => Ok(Vec2(x, y))
         case _ => Err("failed parsing a vec2: stof"))
  }

  /** Contains on a one-character needle is membership. */
  lemma ContainsChar(s: string, ch: char)
    ensures Contains(s, [ch]) <==> ch in s
  {
    if ch in s {
      var j :| 0 <= j < |s| && s[j] == ch;
      assert s[j..j + 1] == [ch];
      assert At(s, [ch], j);
    }
    if Contains(s, [ch]) {
      var j := FindFrom(s, [ch], 0).value;
      assert s[j..j + 1][0] == s[j];
    }
  }

  /** Reference reading of a vec2: split on spaces into exactly two fields. */
  lemma ParseVec2Fields(value: string, host: Host)
    ensures var f := SplitOn(value, ' ');
      ParseVec2(value, host).Ok? <==> |f| == 2 && host.stof(f[0]).Some? && host.stof(f[1]).Some?
    ensures var f := SplitOn(value, ' ');
      ParseVec2(value, host).Ok? ==> ParseVec2(value, host).value == Vec2(host.stof(f[0]).value, host.stof(f[1]).value)
  {
    match FindChar(value, ' ', 0)
    case None =>
    case Some(p) =>
      var rhs := value[p + 1..];
      ContainsChar(value[..p], ' ');
      ContainsChar(rhs, ' ');
      assert ' ' !in value[..p];
      if ' ' in rhs {
        assert |SplitOn(rhs, ' ')| > 1 by {
          assert FindChar(rhs, ' ', 0).Some?;
        }
      } else {
        assert FindChar(rhs, ' ', 0).None?;
      }
  }

  /** The text-to-type conversion and store into the resolved cell. Only a
      successful store marks the cell as set by the user. */
  function Store(c: Config, t: Target, value: string, host: Host): (r: Assignment)
    requires t.Flat? ==> t.name in c.values
    requires t.InInstance? ==> t.index < |c.instances|
    ensures r.found
    ensures Untouched(c, r.c)
  {
    var cell := if t.Flat? then c.values[t.name] else CellAt(c.instances[t.index].values, t.leaf);
    var out := Convert(cell, value, host);
    var c1 := if out.0.Some? then Write(c, t, out.0.value) else c;
    Assignment(c1, true, out.1)
  }

  /** Puts a cell back where the target says. */
  function Write(c: Config, t: Target, cell: ConfigValue): (r: Config)
    requires t.Flat? ==> t.name in c.values
    requires t.InInstance? ==> t.index < |c.instances|
    ensures Untouched(c, r)
  {
    match t
    case Flat(name) =>
      assert c.values[name := cell].Keys == c.values.Keys;
      c.(values := c.values[name := cell])
    case InInstance(k, leaf) => PutCell(c, k, leaf, cell)
  }

  /** The type switch on one cell: the cell to write back (if any) and the
      line's result. A custom type's callback runs, and its data slot and last
      text are kept, even when it reports an error. */
  function Convert(cell: ConfigValue, value: string, host: Host): (r: (Option<ConfigValue>, ParseResult))
    ensures !r.1.error ==> r.0.Some? && r.0.value.setByUser && r.0.value.kind == cell.kind
    ensures r.1.error ==> r.0.None? || (cell.kind == CustomType && r.0.value.setByUser == cell.setByUser)
    ensures cell.kind == EmptyType ==> r == (None, SetError(Success, "internal error: invalid value found (no type?)"))
  {
    match cell.kind
    case IntType =>
      (match ToInt(value, host)
       case Err(m) => (None, SetError(Success, m))
       case Ok(v) => Mark(SetFrom(cell, AnyInt(v))))
    case FloatType =>
      (match host.stof(value)
       case None => (None, SetError(Success, "failed parsing a float: stof"))
       case Some(f) => Mark(SetFrom(cell, AnyFloat(f))))
    case Vec2Type =>
      (match ParseVec2(value, host)
       case Err(m) => (None, SetError(Success, m))
       case Ok(v) => Mark(SetFrom(cell, AnyVec2(v))))
    case StrType => Mark(SetFrom(cell, AnyStr(value)))
    case CustomType =>
      if !cell.data.CustomData? then (None, SetError(Success, "internal error: invalid value found (no type?)"))
      else
        var cv := cell.data.c;
        var out := host.customSet(cv.handler, CString(value), cv.data);
        var written := cell.(data := CustomData(cv.(data := out.data, lastVal := value)));
        if out.result.error then (Some(written), SetError(Success, ErrorText(out.result)))
        else (Some(written.(setByUser := true)), Success)
    case EmptyType => (None, SetError(Success, "internal error: invalid value found (no type?)"))
  }

  /** A successful setFrom marks the cell as set by the user. */
  function Mark(r: Result<ConfigValue>): (out: (Option<ConfigValue>, ParseResult))
    ensures r.Ok? ==> out == (Some(r.value.(setByUser := true)), Success)
    ensures r.Err? ==> out.0.None? && out.1.error
  {
    match r
    case Ok(cell) => (Some(cell.(setByUser := true)), Success)
    case Err(m) => (None, SetError(Success, m))
  }

  /** configSetValueSafe. */
  function ConfigSetValue(c: Config, command: string, value: string, host: Host): (r: Assignment)
    ensures !r.found ==> r.result.error
    ensures Untouched(c, r.c)
  {
    var full := ValueName(c.categories, command);
    var (c1, name) := match SplitBracket(full)
      case Some(b) => (BracketScan(c.(currentSpecialKey := b.key), c.descriptors, b.name, b.key, host), b.name)
      case None => (c, full);
    match Resolve(c1, name, value, host)
    case Done(c2, found, result) => Assignment(c2, found, result)
    case Found(c2, t) => Store(c2, t, value, host)
  }

  /** What getValue reads back after a successful assignment of `value` to a
      cell of this type: the reference for the type switch. */
  function Converted(kind: DataType, value: string, host: Host): Result<Any> {
    match kind
    case IntType => (match ToInt(value, host) case Ok(v) => Ok(AnyInt(v)) case Err(m) => Err(m))
    case FloatType => (match host.stof(value) case Some(f) => Ok(AnyFloat(f)) case None => Err("failed parsing a float: stof"))
    case Vec2Type => (match ParseVec2(value, host) case Ok(v) => Ok(AnyVec2(v)) case Err(m) => Err(m))
    case StrType => Ok(AnyStr(CString(value)))
    case _ => Err("internal error: invalid value found (no type?)")
  }

  /** Assigning to a known flat value of a plain type: the line fails exactly
      when the text does not convert, with the conversion's message; otherwise
      the cell reads back the converted value and is marked as set by the
      user, and nothing else changes. */
  lemma AssignFlat(c: Config, command: string, value: string, host: Host)
    requires var name := ValueName(c.categories, command);
      '[' !in name && name in c.values && WellTyped(c.values[name]) &&
      c.values[name].kind in {IntType, FloatType, Vec2Type, StrType}
    ensures var name := ValueName(c.categories, command);
      var r := ConfigSetValue(c, command, value, host);
      var want := Converted(c.values[name].kind, value, host);
      r.found && (r.result.error <==> want.Err?) &&
      (want.Err? ==> r.c == c && r.result == SetError(Success, want.msg)) &&
      (want.Ok? ==> (r.result == Success && name in r.c.values && GetValue(r.c.values[name]) == Ok(want.value) &&
                     r.c.values[name].setByUser && r.c == c.(values := r.c.values) && r.c.values.Keys == c.values.Keys))
  {
    var name := ValueName(c.categories, command);
    assert SplitBracket(name).None?;
    assert Resolve(c, name, value, host) == Found(c, Flat(name));
    var cell := c.values[name];
    var out := Convert(cell, value, host);
    if out.0.Some? {
      SetFromReadsBack(cell, Converted(cell.kind, value, host).value);
    }
  }

  /** A name that is no flat value, falls under no candidate instance and no
      keyed descriptor is unknown: the state is kept and the line goes on to
      the handlers. */
  lemma UnknownName(c: Config, command: string, value: string, host: Host)
    requires var name := ValueName(c.categories, command);
      '[' !in name && name !in c.values && CurrentIndex(c).None? &&
      (forall j :: 0 <= j < |c.instances| ==> !Candidate(name, c.currentSpecialKey, c.instances[j])) &&
      (forall j :: 0 <= j < |c.descriptors| ==> c.descriptors[j].key == "" || !StartsWith(name, c.descriptors[j].name + ":"))
    ensures ConfigSetValue(c, command, value, host) ==
      Assignment(c, false, SetError(Success, "config option <" + ValueName(c.categories, command) + "> does not exist."))
  {
    var name := ValueName(c.categories, command);
    assert SplitBracket(name).None?;
  }

  /** The first line of a new keyed category must set its key: any other of
      its values fails the line, but the instance is made all the same. */
  lemma KeyComesFirst(c: Config, valueName: string, value: string, host: Host)
    requires valueName !in c.values && CurrentIndex(c).None?
    requires forall j :: 0 <= j < |c.instances| ==> !Candidate(valueName, c.currentSpecialKey, c.instances[j])
    requires FirstMatch(c.descriptors, (d: Descriptor) => d.key != "" && StartsWith(valueName, d.name + ":")).Some?
    requires var d := c.descriptors[FirstMatch(c.descriptors, (d: Descriptor) => d.key != "" && StartsWith(valueName, d.name + ":")).value];
      !d.anonymous && valueName[|d.name| + 1..] in d.defaults && valueName[|d.name| + 1..] != d.key
    ensures var d := c.descriptors[FirstMatch(c.descriptors, (d: Descriptor) => d.key != "" && StartsWith(valueName, d.name + ":")).value];
      var r := Resolve(c, valueName, value, host);
      r.Done? && r.found && r.result == SetError(Success, KeyFirstError(d)) && |r.c.instances| == |c.instances| + 1
  {
  }

  /** A second `cat[key]:` line for the same key reuses the instance the
      first one made. */
  lemma BracketReuses(c: Config, di: nat, valueName: string, key: string, host: Host)
    requires di < |c.descriptors| && FindDescriptor(c, c.descriptors[di].name) == Some(di) && OwnId(c, di)
    requires var d := c.descriptors[di]; d.key != "" && StartsWith(valueName, d.name + ":")
    requires var d := c.descriptors[di]; d.key !in d.defaults || d.defaults[d.key].kind == StrType
    requires '\0' !in key
    requires !KeyedExists(c, c.descriptors[di], key)
    ensures var d := c.descriptors[di]; var once := BracketScan(c, [d], valueName, key, host);
      once == CreateKeyed(c, d, key, host) && BracketScan(once, [d], valueName, key, host) == once
  {
    var d := c.descriptors[di];
    CreateKeyedHasKey(c, di, key, host);
    var once := CreateKeyed(c, d, key, host);
    assert KeyedExists(once, d, key);
  }
}
