/** The parser's state (CConfigImpl plus CConfig's m_bCommenced flag) and the
    host-facing registration calls that shape it before and between parses:
    flat values and their defaults, special-category descriptors and their
    instances, keyword handlers, variables and the environment. Pointers that
    the source keeps (descriptor and instance addresses) are ids drawn from
    `nextId`. */
module Registry {
  import opened Results
  import opened Text
  import opened Foreign
  import opened Values
  import opened Order

  /** The key leaf of categories whose instances are numbered rather than named. */
  const ANONYMOUS_KEY: string := "__hyprlang_internal_anonymous_key"

  /** A line that used a variable, with the category stack and the current
      special category it was read under, kept for replay when the variable
      is redefined at run time. */
  datatype LineRef = LineRef(line: string, categories: seq<string>, special: Option<nat>)

  /** SVariable. */
  datatype Variable = Variable(name: string, value: string, lines: seq<LineRef>)

  /** SSpecialCategoryDescriptor. */
  datatype Descriptor = Descriptor(
    id: nat,
    name: string,
    key: string,
    dontErrorOnMissing: bool,
    anonymous: bool,
    defaults: map<string, RegDefault>)

  /** SSpecialCategory: one instance of a special category; `descriptor` is the
      id of the descriptor it was made from. */
  datatype Instance = Instance(
    id: nat,
    descriptor: nat,
    name: string,
    key: string,
    isStatic: bool,
    anonymousID: nat,
    values: map<string, ConfigValue>)

  /** SHandler: name, the allowFlags option and the host callback's id. */
  datatype Handler = Handler(name: string, allowFlags: bool, func: nat)

  /** The SConfigOptions the parser reads. */
  datatype Options = Options(verifyOnly: bool, throwAllErrors: bool, allowMissingConfig: bool)

  /** currentFlags: the noerror switch and the stack of `if` frames, each
      recording whether its condition failed. */
  datatype Flags = Flags(noError: bool, ifFailed: seq<bool>)

  datatype Config = Config(
    commenced: bool,
    options: Options,
    rawConfigString: string,
    path: string,
    values: map<string, ConfigValue>,
    defaults: map<string, RegDefault>,
    descriptors: seq<Descriptor>,
    instances: seq<Instance>,
    handlers: seq<Handler>,
    env: seq<Variable>,
    variables: seq<Variable>,
    categories: seq<string>,
    currentSpecialKey: string,
    currentSpecialCategory: Option<nat>,
    flags: Flags,
    parseError: string,
    nextId: nat)

  function VariableLength(v: Variable): nat {
    |v.name|
  }

  function VariableName(v: Variable): string {
    v.name
  }

  /** The variable table's invariant: one entry per name, longest names first,
      so that `$ab` is substituted before `$a` can eat its prefix. */
  predicate WellFormedTable(vars: seq<Variable>) {
    DistinctBy(vars, VariableName) && SortedDesc(vars, VariableLength)
  }

  function DescriptorLength(d: Descriptor): nat {
    |d.name|
  }

  function InstanceLength(i: Instance): nat {
    |i.name|
  }

  /** One `NAME=VALUE` entry of the process environment. An entry without '='
      gives its whole text as the name and, because substr(npos + 1) wraps to
      substr(0), as the value too. */
  function EnvVariable(entry: string): (v: Variable)
    ensures '=' !in v.name && v.lines == []
    ensures '=' !in entry ==> v == Variable(entry, entry, [])
  {
    match FindChar(entry, '=', 0)
    case None => Variable(entry, entry, [])
    case Some(k) => Variable(entry[..k], entry[k + 1..], [])
  }

  /** The entry `n=v` gives back the name and value it was made from. */
  lemma EnvVariableOfEntry(n: string, v: string)
    requires '=' !in n
    ensures EnvVariable(n + "=" + v) == Variable(n, v, [])
  {
    var e := n + "=" + v;
    assert e[|n|] == '=';
    assert forall j :: 0 <= j < |n| ==> e[j] == n[j];
    assert FindChar(e, '=', 0) == Some(|n|);
    assert e[..|n|] == n && e[|n| + 1..] == v;
  }

  /** CConfig(path, options): the text is either the configuration itself
      (pathIsStream) or a file path; the environment is captured, longest
      names first; nothing is registered yet. */
  function NewConfig(path: string, pathIsStream: bool, options: Options, environ: seq<string>): (c: Config)
    ensures SortedDesc(c.env, VariableLength)
    ensures multiset(c.env) == multiset(MapSeq(environ, EnvVariable))
    ensures pathIsStream ==> c.rawConfigString == path && c.path == ""
    ensures !pathIsStream ==> c.rawConfigString == "" && c.path == path
    ensures !c.commenced && c.values == map[] && c.defaults == map[] && c.variables == []
    ensures c.descriptors == [] && c.instances == [] && c.handlers == [] && c.categories == []
  {
    var env := MapSeq(environ, EnvVariable);
    SortDescSorted(env, VariableLength);
    Config(false, options, if pathIsStream then path else "", if pathIsStream then "" else path,
      map[], map[], [], [], [], SortDesc(env, VariableLength), [], [], "", None, Flags(false, []), "", 0)
  }

  /** defaultFrom applied to every key that has a default (creating untyped
      cells first, as operator[] does); cells without a default are untouched. */
  function ApplyDefaults(values: map<string, ConfigValue>, defaults: map<string, RegDefault>, host: Host): (r: map<string, ConfigValue>)
    ensures r.Keys == values.Keys + defaults.Keys
    ensures forall k :: k in defaults ==> WellTyped(r[k]) && r[k].kind == defaults[k].kind && !r[k].setByUser
    ensures forall k :: k in values && k !in defaults ==> r[k] == values[k]
  {
    map k | k in values.Keys + defaults.Keys ::
      if k in defaults then ApplyDefault(if k in values then values[k] else EmptyValue, defaults[k], host) else values[k]
  }

  /** addConfigValue: registers a default under `name` unless one is there
      already (emplace); refused after commence(), and an untyped cell aborts. */
  function AddConfigValue(c: Config, name: string, cell: ConfigValue): (r: Result<Config>)
    requires WellTyped(cell)
    ensures c.commenced ==> r == Err("Cannot addConfigValue after commence()")
    ensures !c.commenced ==> (r.Ok? <==> cell.kind != EmptyType)
    ensures r.Ok? ==> r.value == c.(defaults := r.value.defaults)
    ensures r.Ok? ==> r.value.defaults.Keys == c.defaults.Keys + {name}
    ensures r.Ok? ==> forall k :: k in c.defaults ==> r.value.defaults[k] == c.defaults[k]
    ensures r.Ok? && name !in c.defaults ==> r.value.defaults[name].kind == cell.kind
  {
    if c.commenced then Err("Cannot addConfigValue after commence()")
    else if cell.kind == EmptyType then Err("terminate called without an active exception")
    else if name in c.defaults then Ok(c)
    else Ok(c.(defaults := c.defaults[name := DefaultOf(cell)]))
  }

  /** commence(): from now on every registered default has a typed cell. */
  function Commence(c: Config, host: Host): (r: Config)
    ensures r.commenced
    ensures r == c.(commenced := true, values := r.values)
    ensures r.values.Keys == c.values.Keys + c.defaults.Keys
    ensures forall k :: k in c.defaults ==> WellTyped(r.values[k]) && r.values[k].kind == c.defaults[k].kind && !r.values[k].setByUser
  {
    c.(commenced := true, values := ApplyDefaults(c.values, c.defaults, host))
  }

  /** Round trip: a value registered before commence() reads back from its cell. */
  lemma AddThenCommence(c: Config, name: string, cell: ConfigValue, host: Host)
    requires !c.commenced && name !in c.defaults
    requires WellTyped(cell) && cell.kind != EmptyType && cell.kind != CustomType
    requires cell.kind == StrType ==> '\0' !in cell.data.s
    ensures AddConfigValue(c, name, cell).Ok?
    ensures GetValue(Commence(AddConfigValue(c, name, cell).value, host).values[name]) == GetValue(cell)
  {
    var c' := AddConfigValue(c, name, cell).value;
    assert c'.defaults[name] == DefaultOf(cell);
    RegisterThenDefault(cell, if name in c.values then c.values[name] else EmptyValue, host);
  }

  /** The defaults of the descriptor with the given id (none if it is gone). */
  function DescriptorDefaults(c: Config, id: nat): map<string, RegDefault> {
    match FirstMatch(c.descriptors, (d: Descriptor) => d.id == id)
    case None => map[]
    case Some(k) => c.descriptors[k].defaults
  }

  /** applyDefaultsToCat: the instance's cells reset from its descriptor. */
  function ApplyDefaultsToCat(c: Config, inst: Instance, host: Host): (r: Instance)
    ensures r == inst.(values := r.values)
    ensures forall k :: k in DescriptorDefaults(c, inst.descriptor) ==>
      k in r.values && r.values[k].kind == DescriptorDefaults(c, inst.descriptor)[k].kind && !r.values[k].setByUser
  {
    inst.(values := ApplyDefaults(inst.values, DescriptorDefaults(c, inst.descriptor), host))
  }

  /** The key addSpecialCategory gives a descriptor. */
  function DescriptorKey(key: Option<string>, anonymousKeyBased: bool): string {
    if anonymousKeyBased then ANONYMOUS_KEY else key.GetOr("")
  }

  /** addSpecialCategory: a new descriptor; a category with neither a key nor
      anonymous numbering also gets its one static instance. Both tables are
      re-sorted, longest name first. */
  function AddSpecialCategory(c: Config, name: string, key: Option<string>, ignoreMissing: bool, anonymousKeyBased: bool): (r: Config)
    ensures SortedDesc(r.descriptors, DescriptorLength) && SortedDesc(r.instances, InstanceLength)
    ensures multiset(r.descriptors) ==
      multiset(c.descriptors) + multiset{Descriptor(c.nextId, name, DescriptorKey(key, anonymousKeyBased), ignoreMissing, anonymousKeyBased, map[])}
    ensures key.None? && !anonymousKeyBased ==>
      multiset(r.instances) == multiset(c.instances) + multiset{Instance(c.nextId + 1, c.nextId, name, "", true, 0, map[])}
    ensures key.Some? || anonymousKeyBased ==> multiset(r.instances) == multiset(c.instances)
    ensures r.nextId > c.nextId + 1
    ensures r == c.(descriptors := r.descriptors, instances := r.instances, nextId := r.nextId)
  {
    var desc := Descriptor(c.nextId, name, DescriptorKey(key, anonymousKeyBased), ignoreMissing, anonymousKeyBased, map[]);
    var added := if key.None? && !anonymousKeyBased then [Instance(c.nextId + 1, c.nextId, name, "", true, 0, map[])] else [];
    SortDescSorted(c.descriptors + [desc], DescriptorLength);
    SortDescSorted(c.instances + added, InstanceLength);
    c.(descriptors := SortDesc(c.descriptors + [desc], DescriptorLength),
       instances := SortDesc(c.instances + added, InstanceLength),
       nextId := c.nextId + 2)
  }

  predicate NotNamed(name: string, d: Descriptor) {
    d.name != name
  }

  predicate InstanceNotNamed(name: string, i: Instance) {
    i.name != name
  }

  /** removeSpecialCategory: every descriptor and instance of that name goes. */
  function RemoveSpecialCategory(c: Config, name: string): (r: Config)
    ensures forall d :: d in r.descriptors <==> d in c.descriptors && d.name != name
    ensures forall i :: i in r.instances <==> i in c.instances && i.name != name
    ensures r == c.(descriptors := r.descriptors, instances := r.instances)
  {
    c.(descriptors := Filter(c.descriptors, d => NotNamed(name, d)),
       instances := Filter(c.instances, i => InstanceNotNamed(name, i)))
  }

  /** removeSpecialCategory keeps the current special category: when it is
      an instance of the removed category, it is left referring to nothing. */
  lemma RemoveSpecialCategoryDangles(c: Config, name: string)
    requires c.currentSpecialCategory.Some?
    requires forall i :: i in c.instances && i.id == c.currentSpecialCategory.value ==> i.name == name
    ensures Dangling(RemoveSpecialCategory(c, name))
  {
    var r := RemoveSpecialCategory(c, name);
    forall j | 0 <= j < |r.instances| ensures r.instances[j].id != c.currentSpecialCategory.value {
      assert r.instances[j] in r.instances;
    }
  }

  /** Round trip: adding a category under a fresh name and removing it leaves
      the same descriptors and instances as before. */
  lemma AddThenRemoveSpecialCategory(c: Config, name: string, key: Option<string>, ignoreMissing: bool, anonymousKeyBased: bool)
    requires forall d :: d in c.descriptors ==> d.name != name
    requires forall i :: i in c.instances ==> i.name != name
    ensures var r := RemoveSpecialCategory(AddSpecialCategory(c, name, key, ignoreMissing, anonymousKeyBased), name);
      (forall d :: d in r.descriptors <==> d in c.descriptors) &&
      (forall i :: i in r.instances <==> i in c.instances)
  {
    var a := AddSpecialCategory(c, name, key, ignoreMissing, anonymousKeyBased);
    forall d ensures d in a.descriptors <==> (d in c.descriptors ||
      d == Descriptor(c.nextId, name, DescriptorKey(key, anonymousKeyBased), ignoreMissing, anonymousKeyBased, map[])) {
      assert d in a.descriptors <==> d in multiset(a.descriptors);
      assert d in c.descriptors <==> d in multiset(c.descriptors);
    }
    forall i ensures i in a.instances ==> i in c.instances || i.name == name {
      assert i in a.instances <==> i in multiset(a.instances);
      assert i in c.instances <==> i in multiset(c.instances);
    }
    forall i ensures i in c.instances ==> i in a.instances {
      assert i in a.instances <==> i in multiset(a.instances);
      assert i in c.instances <==> i in multiset(c.instances);
    }
  }

  /** The first descriptor of that name, as find_if finds it. */
  function FindDescriptor(c: Config, name: string): (r: Option<nat>)
    ensures r.Some? ==> r.value < |c.descriptors| && c.descriptors[r.value].name == name
    ensures r.None? ==> forall j :: 0 <= j < |c.descriptors| ==> c.descriptors[j].name != name
    ensures r.Some? ==> forall j :: 0 <= j < r.value ==> c.descriptors[j].name != name
  {
    FirstMatch(c.descriptors, (d: Descriptor) => d.name == name)
  }

  /** The cell a map holds under `k`, or a fresh untyped one (operator[]). */
  function CellAt(values: map<string, ConfigValue>, k: string): ConfigValue {
    if k in values then values[k] else EmptyValue
  }

  /** A static instance of the category `name`. */
  predicate StaticOf(name: string, i: Instance) {
    i.name == name && i.isStatic
  }

  /** The registration step of addSpecialConfigValue, for a descriptor found
      by name: the default is added unless one exists (emplace), and the first
      static instance of that name is reset to it. */
  function RegisterSpecial(c: Config, di: nat, name: string, d: RegDefault, host: Host): (r: Config)
    requires di < |c.descriptors|
    ensures |r.descriptors| == |c.descriptors| && |r.instances| == |c.instances|
    ensures name in r.descriptors[di].defaults
    ensures name in c.descriptors[di].defaults ==> r.descriptors[di].defaults == c.descriptors[di].defaults
    ensures name !in c.descriptors[di].defaults ==> r.descriptors[di].defaults == c.descriptors[di].defaults[name := d]
    ensures r.descriptors[di] == c.descriptors[di].(defaults := r.descriptors[di].defaults)
    ensures forall j :: 0 <= j < |c.descriptors| && j != di ==> r.descriptors[j] == c.descriptors[j]
    ensures forall j :: 0 <= j < |c.instances| ==> r.instances[j].id == c.instances[j].id
    ensures forall j :: 0 <= j < |c.instances| ==> r.instances[j].anonymousID == c.instances[j].anonymousID
    ensures r == c.(descriptors := r.descriptors, instances := r.instances)
  {
    var desc := c.descriptors[di];
    var defaults := if name in desc.defaults then desc.defaults else desc.defaults[name := d];
    var c1 := c.(descriptors := c.descriptors[di := desc.(defaults := defaults)]);
    match FirstMatch(c1.instances, (i: Instance) => StaticOf(desc.name, i))
    case None => c1
    case Some(ii) =>
      var inst := c1.instances[ii];
      var cell := ApplyDefault(CellAt(inst.values, name), defaults[name], host);
      c1.(instances := c1.instances[ii := inst.(values := inst.values[name := cell])])
  }

  /** The first static instance of the descriptor's category gets the new
      cell reset to its default, unset by the user; every other instance, and
      every other cell of that one, stays as it was. Without a static
      instance no instance changes. */
  lemma RegisterSpecialResets(c: Config, di: nat, name: string, d: RegDefault, host: Host)
    requires di < |c.descriptors|
    ensures var r := RegisterSpecial(c, di, name, d, host);
      var m := FirstMatch(c.instances, (i: Instance) => StaticOf(c.descriptors[di].name, i));
      (m.None? ==> r.instances == c.instances) &&
      (m.Some? ==> var k := m.value;
        k < |c.instances| && name in r.instances[k].values &&
        !r.instances[k].values[name].setByUser &&
        r.instances[k].values[name].kind == r.descriptors[di].defaults[name].kind &&
        r.instances[k] == c.instances[k].(values := c.instances[k].values[name := r.instances[k].values[name]]) &&
        forall j :: 0 <= j < |c.instances| && j != k ==> r.instances[j] == c.instances[j])
  {
  }

  /** addSpecialConfigValue. */
  function AddSpecialConfigValue(c: Config, cat: string, name: string, cell: ConfigValue, host: Host): (r: Result<Config>)
    requires WellTyped(cell)
    ensures FindDescriptor(c, cat).None? ==> r == Err("No such category")
    ensures FindDescriptor(c, cat).Some? ==> (r.Ok? <==> cell.kind != EmptyType)
    ensures r.Ok? ==> |r.value.descriptors| == |c.descriptors|
    ensures r.Ok? ==> name in r.value.descriptors[FindDescriptor(c, cat).value].defaults
  {
    match FindDescriptor(c, cat)
    case None => Err("No such category")
    case Some(di) =>
      if cell.kind == EmptyType then Err("terminate called without an active exception")
      else Ok(RegisterSpecial(c, di, name, DefaultOf(cell), host))
  }

  /** A successful addSpecialConfigValue resets the new cell in the first
      static instance of the category and leaves every other instance. */
  lemma AddSpecialConfigValueResets(c: Config, cat: string, name: string, cell: ConfigValue, host: Host)
    requires WellTyped(cell) && FindDescriptor(c, cat).Some? && cell.kind != EmptyType
    ensures var r := AddSpecialConfigValue(c, cat, name, cell, host).value;
      var m := FirstMatch(c.instances, (i: Instance) => StaticOf(cat, i));
      (m.None? ==> r.instances == c.instances) &&
      (m.Some? ==> var k := m.value;
        k < |c.instances| && name in r.instances[k].values &&
        !r.instances[k].values[name].setByUser &&
        r.instances[k].values[name].kind == r.descriptors[FindDescriptor(c, cat).value].defaults[name].kind &&
        r.instances[k] == c.instances[k].(values := c.instances[k].values[name := r.instances[k].values[name]]) &&
        forall j :: 0 <= j < |c.instances| && j != k ==> r.instances[j] == c.instances[j])
  {
    var di := FindDescriptor(c, cat).value;
    RegisterSpecialResets(c, di, name, DefaultOf(cell), host);
    assert c.descriptors[di].name == cat;
  }

  /** removeSpecialConfigValue: the default goes from the first descriptor of that name. */
  function RemoveSpecialConfigValue(c: Config, cat: string, name: string): (r: Result<Config>)
    ensures r.Err? <==> FindDescriptor(c, cat).None?
    ensures r.Err? ==> r.msg == "No such category"
    ensures r.Ok? ==> var di := FindDescriptor(c, cat).value;
      |r.value.descriptors| == |c.descriptors| &&
      r.value.descriptors[di].defaults.Keys == c.descriptors[di].defaults.Keys - {name} &&
      forall k :: k in r.value.descriptors[di].defaults ==> r.value.descriptors[di].defaults[k] == c.descriptors[di].defaults[k]
  {
    match FindDescriptor(c, cat)
    case None => Err("No such category")
    case Some(di) =>
      var desc := c.descriptors[di];
      Ok(c.(descriptors := c.descriptors[di := desc.(defaults := desc.defaults - {name})]))
  }

  /** Round trip: a special value registered under a fresh name and then
      removed leaves the descriptor's defaults as they were. */
  lemma AddThenRemoveSpecialConfigValue(c: Config, cat: string, name: string, cell: ConfigValue, host: Host)
    requires WellTyped(cell) && cell.kind != EmptyType
    requires FindDescriptor(c, cat).Some?
    requires name !in c.descriptors[FindDescriptor(c, cat).value].defaults
    ensures var a := AddSpecialConfigValue(c, cat, name, cell, host);
      a.Ok? && RemoveSpecialConfigValue(a.value, cat, name).Ok? &&
      RemoveSpecialConfigValue(a.value, cat, name).value.descriptors[FindDescriptor(c, cat).value].defaults ==
        c.descriptors[FindDescriptor(c, cat).value].defaults
  {
    var di := FindDescriptor(c, cat).value;
    var a := AddSpecialConfigValue(c, cat, name, cell, host).value;
    assert a.descriptors[di].name == cat;
    assert forall j :: 0 <= j < di ==> a.descriptors[j] == c.descriptors[j];
    assert FindDescriptor(a, cat) == Some(di);
  }

  /** The key leaf's text: std::any_cast<const char*> of the instance's key
      cell. A key cell that does not hold a string makes that cast throw; the
      model reads it as the empty string. */
  function KeyText(i: Instance): string {
    if i.key in i.values && i.values[i.key].data.StrData? then i.values[i.key].data.s else ""
  }

  /** Whether getSpecialConfigValuePtr stops at this instance. */
  predicate Selects(i: Instance, cat: string, key: string) {
    i.name == cat && (i.isStatic || KeyText(i) == key)
  }

  /** getSpecialConfigValuePtr: the first instance of the category that is
      static or has the key decides; null when it lacks the value. */
  function GetSpecialConfigValuePtr(c: Config, cat: string, name: string, key: Option<string>): (r: Option<ConfigValue>)
    ensures r.Some? ==> exists i :: i in c.instances && Selects(i, cat, key.GetOr("")) && name in i.values && i.values[name] == r.value
    ensures (forall i :: i in c.instances ==> !Selects(i, cat, key.GetOr(""))) ==> r.None?
    ensures forall k :: 0 <= k < |c.instances| && Selects(c.instances[k], cat, key.GetOr("")) && (forall j :: 0 <= j < k ==> !Selects(c.instances[j], cat, key.GetOr(""))) ==> r == (if name in c.instances[k].values then Some(c.instances[k].values[name]) else None)
  {
    match FirstMatch(c.instances, (i: Instance) => Selects(i, cat, key.GetOr("")))
    case None => None
    case Some(k) => if name in c.instances[k].values then Some(c.instances[k].values[name]) else None
  }

  predicate KeyedInstanceOf(cat: string, i: Instance) {
    !i.isStatic && i.name == cat
  }

  /** specialCategoryExistsForKey. */
  function SpecialCategoryExistsForKey(c: Config, cat: string, key: string): (r: bool)
    ensures r <==> exists i :: i in c.instances && KeyedInstanceOf(cat, i) && KeyText(i) == key
  {
    var m := FirstMatch(c.instances, (i: Instance) => KeyedInstanceOf(cat, i) && KeyText(i) == key);
    if m.Some? then assert c.instances[m.value] in c.instances; true else false
  }

  /** retrieveKeysForCat: the keys of the category's keyed instances, in the
      order the instances were made. */
  function RetrieveKeysForCat(c: Config, cat: string): (r: seq<string>)
    ensures forall k :: k in r <==> SpecialCategoryExistsForKey(c, cat, k)
  {
    var keyed := Filter(c.instances, (i: Instance) => KeyedInstanceOf(cat, i));
    var r := MapSeq(keyed, KeyText);
    assert forall k :: k in r ==> exists j :: 0 <= j < |keyed| && keyed[j] in keyed && KeyText(keyed[j]) == k;
    r
  }

  lemma {:induction false} MapSeqAppend<T, U>(a: seq<T>, b: seq<T>, f: T -> U)
    ensures MapSeq(a + b, f) == MapSeq(a, f) + MapSeq(b, f)
  {
  }

  /** A new keyed instance adds its key at the end of the listing. */
  lemma RetrieveKeysAfterCreate(c: Config, cat: string, i: Instance)
    requires KeyedInstanceOf(cat, i)
    ensures RetrieveKeysForCat(c.(instances := c.instances + [i]), cat) == RetrieveKeysForCat(c, cat) + [KeyText(i)]
  {
    var keep := (j: Instance) => KeyedInstanceOf(cat, j);
    FilterAppend(c.instances, [i], keep);
    assert Filter([i], keep) == [i];
    MapSeqAppend(Filter(c.instances, keep), [i], KeyText);
  }

  /** registerHandler: appended, so handlers run in registration order. */
  function RegisterHandler(c: Config, name: string, allowFlags: bool, func: nat): (r: Config)
    ensures |r.handlers| == |c.handlers| + 1 && r.handlers[..|c.handlers|] == c.handlers
    ensures r.handlers[|c.handlers|] == Handler(name, allowFlags, func)
    ensures r == c.(handlers := r.handlers)
  {
    c.(handlers := c.handlers + [Handler(name, allowFlags, func)])
  }

  predicate HandlerNotNamed(name: string, h: Handler) {
    h.name != name
  }

  /** unregisterHandler: every handler of that name goes. */
  function UnregisterHandler(c: Config, name: string): (r: Config)
    ensures forall h :: h in r.handlers <==> h in c.handlers && h.name != name
    ensures r == c.(handlers := r.handlers)
  {
    c.(handlers := Filter(c.handlers, h => HandlerNotNamed(name, h)))
  }

  /** Unregistering undoes a registration under the same name. */
  lemma UnregisterAfterRegister(c: Config, name: string, allowFlags: bool, func: nat)
    ensures UnregisterHandler(RegisterHandler(c, name, allowFlags, func), name) == UnregisterHandler(c, name)
  {
    var keep := (h: Handler) => HandlerNotNamed(name, h);
    FilterAppend(c.handlers, [Handler(name, allowFlags, func)], keep);
  }

  /** getVariable: the environment shadows the configuration's own variables. */
  function GetVariable(c: Config, name: string): (r: Option<Variable>)
    ensures r.Some? ==> r.value.name == name && (r.value in c.env || r.value in c.variables)
    ensures r.None? <==> (forall v :: v in c.env ==> v.name != name) && (forall v :: v in c.variables ==> v.name != name)
    ensures (exists v :: v in c.env && v.name == name) ==> r.Some? && r.value in c.env
  {
    match FirstMatch(c.env, (v: Variable) => v.name == name)
    case Some(k) => Some(c.env[k])
    case None =>
      match FirstMatch(c.variables, (v: Variable) => v.name == name)
      case Some(k) => Some(c.variables[k])
      case None => None
  }

  /** The parts of the state no configuration line changes: the options,
      the source, which flat values exist, the registrations, the environment
      and the error text. */
  function Settings(c: Config): (bool, Options, string, string, set<string>, map<string, RegDefault>, seq<Handler>, seq<Variable>, string) {
    (c.commenced, c.options, c.rawConfigString, c.path, c.values.Keys, c.defaults, c.handlers, c.env, c.parseError)
  }

  /** Setting a value changes none of the settings, the variables or the
      `if` frames. */
  predicate Untouched(c: Config, r: Config) {
    Settings(r) == Settings(c) && r.variables == c.variables && r.flags == c.flags
  }

  /** The current special category refers to an instance that no longer exists. */
  predicate Dangling(c: Config) {
    c.currentSpecialCategory.Some? &&
    forall j :: 0 <= j < |c.instances| ==> c.instances[j].id != c.currentSpecialCategory.value
  }

  predicate IsStatic(i: Instance) {
    i.isStatic
  }

  /** clearState as written: the category stack, the error text and the
      variables are reset and the keyed and anonymous instances are freed,
      but currentSpecialCategory is left pointing where it pointed. */
  function ClearStateAsWritten(c: Config): (r: Config)
    ensures r.categories == [] && r.parseError == "" && r.variables == c.env
    ensures forall i :: i in r.instances <==> i in c.instances && i.isStatic
    ensures r.currentSpecialCategory == c.currentSpecialCategory
  {
    c.(categories := [], parseError := "", variables := c.env, instances := Filter(c.instances, IsStatic))
  }

  /** When the current special category is a keyed or anonymous instance,
      clearState leaves it dangling. */
  lemma ClearStateAsWrittenDangles(c: Config)
    requires c.currentSpecialCategory.Some?
    requires forall i :: i in c.instances && i.id == c.currentSpecialCategory.value ==> !i.isStatic
    ensures Dangling(ClearStateAsWritten(c))
  {
    var r := ClearStateAsWritten(c);
    forall j | 0 <= j < |r.instances| ensures r.instances[j].id != c.currentSpecialCategory.value {
      assert r.instances[j] in r.instances;
    }
  }

  /** clearState as intended: like the category close that empties the stack,
      it also forgets the current special category and key. */
  function ClearState(c: Config): (r: Config)
    ensures r.categories == [] && r.parseError == "" && r.variables == c.env
    ensures forall i :: i in r.instances <==> i in c.instances && i.isStatic
    ensures r.currentSpecialCategory.None? && r.currentSpecialKey == ""
    ensures !Dangling(r)
    ensures r.flags == c.flags && r.values == c.values && r.descriptors == c.descriptors && r.handlers == c.handlers
  {
    ClearStateAsWritten(c).(currentSpecialCategory := None, currentSpecialKey := "")
  }
}
