/** The value cell (CConfigValue) and the registry's default record
    (SConfigDefaultValue): a tagged payload whose tag is fixed by the
    registered type, plus the "set by user" flag. */
module Values {
  import opened Results
  import opened Numbers
  import opened Text
  import opened Foreign

  /** CConfigValue::eDataType. */
  datatype DataType = EmptyType | IntType | FloatType | StrType | Vec2Type | CustomType

  /** CConfigCustomValueType: set and destroy callbacks (host ids), the opaque
      slot the set callback fills, the registered default text and the text of
      the last assignment. */
  datatype CustomValue = CustomValue(handler: nat, dtor: nat, data: int, defaultVal: string, lastVal: string)

  /** What m_pData points at. */
  datatype Data =
    | NoData
    | IntData(i: Int64)
    | FloatData(f: Float32)
    | StrData(s: string)
    | Vec2Data(v: Vec2)
    | CustomData(c: CustomValue)

  /** CConfigValue. `buffer` counts the allocations made for m_pData, 0 being
      the null pointer: it changes exactly when the payload storage moves. */
  datatype ConfigValue = ConfigValue(kind: DataType, data: Data, buffer: nat, setByUser: bool)

  /** The std::any values getValue, setFrom and the registry pass around. */
  datatype Any =
    | AnyInt(i: Int64)
    | AnyFloat(f: Float32)
    | AnyStr(s: string)
    | AnyVec2(v: Vec2)
    | AnyPointer(p: int)

  /** SConfigDefaultValue: declared type, default payload, and for custom types
      the callbacks (host ids; 0 for the null pointer). */
  datatype DefaultValue = DefaultValue(kind: DataType, data: Any, handler: nat, dtor: nat)

  /** The payload has the shape the tag announces. */
  predicate Matches(kind: DataType, data: Data) {
    match kind
    case EmptyType => data.NoData?
    case IntType => data.IntData?
    case FloatType => data.FloatData?
    case StrType => data.StrData?
    case Vec2Type => data.Vec2Data?
    case CustomType => data.CustomData?
  }

  predicate WellTyped(c: ConfigValue) {
    Matches(c.kind, c.data) && (c.kind != EmptyType ==> c.buffer > 0)
  }

  /** A registry default whose payload std::any_cast can read as its type. */
  predicate WellFormedDefault(d: DefaultValue) {
    match d.kind
    case EmptyType => false
    case IntType => d.data.AnyInt?
    case FloatType => d.data.AnyFloat?
    case StrType => d.data.AnyStr?
    case Vec2Type => d.data.AnyVec2?
    case CustomType => d.data.AnyStr?
  }

  /** The registry holds only well-formed defaults. */
  type RegDefault = d: DefaultValue | WellFormedDefault(d) witness DefaultValue(IntType, AnyInt(0), 0, 0)

  /** CConfigValue(): no type, no storage. */
  const EmptyValue: ConfigValue := ConfigValue(EmptyType, NoData, 0, false)

  /** getValue(): the payload as a std::any; an untyped cell executes a bare
      `throw;`, which terminates the program. */
  function GetValue(c: ConfigValue): (r: Result<Any>)
    ensures WellTyped(c) && c.kind != EmptyType ==> r.Ok?
    ensures c.kind == EmptyType ==> r.Err?
    ensures WellTyped(c) && c.kind == IntType ==> r == Ok(AnyInt(c.data.i))
    ensures WellTyped(c) && c.kind == FloatType ==> r == Ok(AnyFloat(c.data.f))
    ensures WellTyped(c) && c.kind == StrType ==> r == Ok(AnyStr(c.data.s))
    ensures WellTyped(c) && c.kind == Vec2Type ==> r == Ok(AnyVec2(c.data.v))
    ensures WellTyped(c) && c.kind == CustomType ==> r == Ok(AnyPointer(c.data.c.data))
  {
    match c.data
    case IntData(i) => if c.kind == IntType then Ok(AnyInt(i)) else Err("payload does not match type")
    case FloatData(f) => if c.kind == FloatType then Ok(AnyFloat(f)) else Err("payload does not match type")
    case StrData(s) => if c.kind == StrType then Ok(AnyStr(s)) else Err("payload does not match type")
    case Vec2Data(v) => if c.kind == Vec2Type then Ok(AnyVec2(v)) else Err("payload does not match type")
    case CustomData(cv) => if c.kind == CustomType then Ok(AnyPointer(cv.data)) else Err("payload does not match type")
    case NoData => Err("terminate called without an active exception")
  }

  /** CConfigValue(int64_t). */
  function FromInt(v: Int64): (c: ConfigValue)
    ensures WellTyped(c) && c.kind == IntType && !c.setByUser
    ensures GetValue(c) == Ok(AnyInt(v))
  {
    ConfigValue(IntType, IntData(v), 1, false)
  }

  /** CConfigValue(float). */
  function FromFloat(v: Float32): (c: ConfigValue)
    ensures WellTyped(c) && c.kind == FloatType && !c.setByUser
    ensures GetValue(c) == Ok(AnyFloat(v))
  {
    ConfigValue(FloatType, FloatData(v), 1, false)
  }

  /** CConfigValue(SVector2D). */
  function FromVec2(v: Vec2): (c: ConfigValue)
    ensures WellTyped(c) && c.kind == Vec2Type && !c.setByUser
    ensures GetValue(c) == Ok(AnyVec2(v))
  {
    ConfigValue(Vec2Type, Vec2Data(v), 1, false)
  }

  /** CConfigValue(const char*): strncpy keeps the text up to the first NUL. */
  function FromString(s: string): (c: ConfigValue)
    ensures WellTyped(c) && c.kind == StrType && !c.setByUser
    ensures GetValue(c) == Ok(AnyStr(CString(s)))
    ensures '\0' !in s ==> GetValue(c) == Ok(AnyStr(s))
  {
    ConfigValue(StrType, StrData(CString(s)), 1, false)
  }

  /** CConfigValue(CConfigCustomValueType&&): the callbacks and the default
      text are kept; the opaque slot starts as the null pointer. */
  function FromCustom(handler: nat, dtor: nat, defaultVal: string): (c: ConfigValue)
    ensures WellTyped(c) && c.kind == CustomType && !c.setByUser
    ensures c.data.c.handler == handler && c.data.c.dtor == dtor && c.data.c.defaultVal == defaultVal
    ensures GetValue(c) == Ok(AnyPointer(0))
  {
    ConfigValue(CustomType, CustomData(CustomValue(handler, dtor, 0, defaultVal, "")), 1, false)
  }

  /** The storage count after a "calloc only if m_pData is null". */
  function Reuse(buffer: nat): (b: nat)
    ensures b > 0
    ensures buffer > 0 ==> b == buffer
  {
    if buffer == 0 then 1 else buffer
  }

  /** defaultFrom: the tag becomes the registered type, the payload the
      registered default, and the cell is no longer "set by user". INT, FLOAT,
      VEC2 and CUSTOM reuse existing storage; STR always reallocates. A custom
      type's set callback is run on the default text. An unknown tag raises
      "bad defaultFrom type"; a payload of the wrong type raises bad_any_cast. */
  function DefaultFrom(c: ConfigValue, d: DefaultValue, host: Host): (r: Result<ConfigValue>)
    ensures r.Ok? <==> WellFormedDefault(d)
    ensures d.kind == EmptyType ==> r == Err("bad defaultFrom type")
    ensures r.Ok? ==> WellTyped(r.value) && r.value.kind == d.kind && !r.value.setByUser
    ensures r.Ok? && d.kind != StrType && c.buffer > 0 ==> r.value.buffer == c.buffer
    ensures r.Ok? && d.kind == StrType ==> r.value.buffer != c.buffer
  {
    match d.kind
    case FloatType =>
      if d.data.AnyFloat? then Ok(ConfigValue(FloatType, FloatData(d.data.f), Reuse(c.buffer), false)) else Err("bad any_cast")
    case IntType =>
      if d.data.AnyInt? then Ok(ConfigValue(IntType, IntData(d.data.i), Reuse(c.buffer), false)) else Err("bad any_cast")
    case StrType =>
      if d.data.AnyStr? then Ok(ConfigValue(StrType, StrData(CString(d.data.s)), c.buffer + 1, false)) else Err("bad any_cast")
    case Vec2Type =>
      if d.data.AnyVec2? then Ok(ConfigValue(Vec2Type, Vec2Data(d.data.v), Reuse(c.buffer), false)) else Err("bad any_cast")
    case CustomType =>
      if d.data.AnyStr? then
        var prior := if c.buffer > 0 && c.data.CustomData? then c.data.c else CustomValue(0, 0, 0, "", "");
        var out := host.customSet(d.handler, CString(d.data.s), prior.data);
        Ok(ConfigValue(CustomType, CustomData(prior.(handler := d.handler, dtor := d.dtor, data := out.data)), Reuse(c.buffer), false))
      else Err("bad any_cast")
    case EmptyType => Err("bad defaultFrom type")
  }

  /** defaultFrom on a registry entry, which cannot fail. */
  function ApplyDefault(c: ConfigValue, d: RegDefault, host: Host): (r: ConfigValue)
    ensures WellTyped(r) && r.kind == d.kind && !r.setByUser
  {
    DefaultFrom(c, d, host).value
  }

  /** setFrom(std::any): overwrites the payload without touching the tag or the
      "set by user" flag. INT, FLOAT and VEC2 write in place; STR reallocates;
      CUSTOM and untyped cells raise "bad defaultFrom type"; a value of the
      wrong type raises bad_any_cast. */
  function SetFrom(c: ConfigValue, v: Any): (r: Result<ConfigValue>)
    ensures r.Ok? ==> r.value.kind == c.kind && r.value.setByUser == c.setByUser
    ensures c.kind == CustomType || c.kind == EmptyType ==> r == Err("bad defaultFrom type")
    ensures r.Ok? && c.kind != StrType ==> r.value.buffer == c.buffer
  {
    match c.kind
    case FloatType => if v.AnyFloat? then Ok(c.(data := FloatData(v.f))) else Err("bad any_cast")
    case IntType => if v.AnyInt? then Ok(c.(data := IntData(v.i))) else Err("bad any_cast")
    case StrType => if v.AnyStr? then Ok(c.(data := StrData(CString(v.s)), buffer := c.buffer + 1)) else Err("bad any_cast")
    case Vec2Type => if v.AnyVec2? then Ok(c.(data := Vec2Data(v.v))) else Err("bad any_cast")
    case CustomType => Err("bad defaultFrom type")
    case EmptyType => Err("bad defaultFrom type")
  }

  /** The registry record addConfigValue / addSpecialConfigValue build from a
      cell: its type and current payload; STR copies the text, CUSTOM keeps the
      default text and both callbacks. */
  function DefaultOf(c: ConfigValue): (d: RegDefault)
    requires WellTyped(c) && c.kind != EmptyType
    ensures d.kind == c.kind
  {
    match c.data
    case IntData(i) => DefaultValue(IntType, AnyInt(i), 0, 0)
    case FloatData(f) => DefaultValue(FloatType, AnyFloat(f), 0, 0)
    case StrData(s) => DefaultValue(StrType, AnyStr(s), 0, 0)
    case Vec2Data(v) => DefaultValue(Vec2Type, AnyVec2(v), 0, 0)
    case CustomData(cv) => DefaultValue(CustomType, AnyStr(cv.defaultVal), cv.handler, cv.dtor)
  }

  /** Round trip: a default applied to any cell reads back as the registered payload. */
  lemma DefaultFromReadsBack(c: ConfigValue, d: DefaultValue, host: Host)
    requires WellFormedDefault(d) && d.kind != CustomType
    ensures d.kind != StrType ==> GetValue(DefaultFrom(c, d, host).value) == Ok(d.data)
    ensures d.kind == StrType ==> GetValue(DefaultFrom(c, d, host).value) == Ok(AnyStr(CString(d.data.s)))
  {
  }

  /** Round trip: a registered cell's default, applied again, reproduces its payload. */
  lemma RegisterThenDefault(c: ConfigValue, cell: ConfigValue, host: Host)
    requires WellTyped(c) && c.kind != EmptyType && c.kind != CustomType
    requires c.kind == StrType ==> '\0' !in c.data.s
    ensures GetValue(ApplyDefault(cell, DefaultOf(c), host)) == GetValue(c)
  {
    var d := DefaultOf(c);
    if c.kind == StrType {
      assert CString(c.data.s) == c.data.s;
    }
  }

  /** Repeated resets keep the storage of INT, FLOAT, VEC2 and CUSTOM cells. */
  lemma ResetKeepsStorage(c: ConfigValue, d: RegDefault, host: Host)
    requires d.kind != StrType
    ensures ApplyDefault(ApplyDefault(c, d, host), d, host).buffer == ApplyDefault(c, d, host).buffer
  {
  }

  /** Round trip: a value written with setFrom reads back. */
  lemma SetFromReadsBack(c: ConfigValue, v: Any)
    requires WellTyped(c)
    requires SetFrom(c, v).Ok?
    ensures WellTyped(SetFrom(c, v).value)
    ensures !v.AnyStr? ==> GetValue(SetFrom(c, v).value) == Ok(v)
    ensures v.AnyStr? ==> GetValue(SetFrom(c, v).value) == Ok(AnyStr(CString(v.s)))
  {
  }
}
