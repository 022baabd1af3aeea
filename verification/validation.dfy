/** Request validation for creating and updating a server: the two rule tables
    exactly as the form requests declare them, the part of the framework's
    validator those rules exercise, and the typed data a passing request
    yields (`$request->validated()`). */
module Validation {
  import opened Base
  import opened Schema
  import opened ServerModel
  import opened Numerals

  /** A decoded JSON request value. `Other` stands for any non-null value of
      another JSON type (boolean, float, array, object). `Int` is a JSON
      integer of any size; one outside the 64-bit range reaches the validator
      as a float, which the `integer` rule refuses. */
  datatype Value = Str(s: string) | Int(n: int) | Null | Other

  /** A request body: JSON keys to values. Keys without a rule are ignored. */
  type Input = map<string, Value>

  /** The attributes that have rules. */
  datatype Field = NameKey | IpKey | ProviderKey | StatusKey | CpuKey | RamKey | StorageKey | VersionKey

  const AllFields: seq<Field> :=
    [NameKey, IpKey, ProviderKey, StatusKey, CpuKey, RamKey, StorageKey, VersionKey]

  /** The JSON key of an attribute. */
  function Key(f: Field): string {
    match f
    case NameKey => "name"
    case IpKey => "ip_address"
    case ProviderKey => "provider"
    case StatusKey => "status"
    case CpuKey => "cpu_cores"
    case RamKey => "ram_mb"
    case StorageKey => "storage_gb"
    case VersionKey => "version"
  }

  /** The validation rules used by the two requests. `UniqueAddress(ignore)` is
      `unique:servers,ip_address`, optionally ignoring one row. */
  datatype Rule =
    | Required
    | Sometimes
    | IsString
    | Ipv4
    | IsInteger
    | Min(bound: int)
    | Max(bound: int)
    | In(options: seq<string>)
    | UniqueAddress(ignore: Option<nat>)

  /** Which request is being validated; an update knows the id of the row it targets. */
  datatype Request = StoreRequest | UpdateRequest(id: nat)

  const MaxNameLength: int := 191
  const MaxIpLength: int := 45
  const MinCpu: int := 1
  const MaxCpu: int := 128
  const MinRam: int := 512
  const MaxRam: int := 1048576
  const MinStorage: int := 10
  const MaxStorage: int := 1048576

  /** The `rules()` arrays of the two form requests; `None` means the
      attribute has no rule and is therefore dropped from the validated data. */
  function Rules(req: Request, f: Field): Option<seq<Rule>> {
    match req
    case StoreRequest =>
      (match f
       case NameKey => Some([Required, IsString, Max(MaxNameLength)])
       case IpKey => Some([Required, Ipv4, Max(MaxIpLength), UniqueAddress(None)])
       case ProviderKey => Some([Required, In(ProviderNames)])
       case StatusKey => Some([Sometimes, In(StatusNames)])
       case CpuKey => Some([Required, IsInteger, Min(MinCpu), Max(MaxCpu)])
       case RamKey => Some([Required, IsInteger, Min(MinRam), Max(MaxRam)])
       case StorageKey => Some([Required, IsInteger, Min(MinStorage), Max(MaxStorage)])
       case VersionKey => None)
    case UpdateRequest(id) =>
      (match f
       case NameKey => Some([Sometimes, IsString, Max(MaxNameLength)])
       case IpKey => Some([Sometimes, Ipv4, Max(MaxIpLength), UniqueAddress(Some(id))])
       case ProviderKey => Some([Sometimes, In(ProviderNames)])
       case StatusKey => Some([Sometimes, In(StatusNames)])
       case CpuKey => Some([Sometimes, IsInteger, Min(MinCpu), Max(MaxCpu)])
       case RamKey => Some([Sometimes, IsInteger, Min(MinRam), Max(MaxRam)])
       case StorageKey => Some([Sometimes, IsInteger, Min(MinStorage), Max(MaxStorage)])
       case VersionKey => Some([Sometimes, IsInteger]))
  }

  /** What validation consults outside the request: the table, for the
      uniqueness rule, and the IPv4 syntax check, which is the framework's. */
  datatype Env = Env(rows: map<nat, Server>, isIpv4: string -> bool)

  /** `required`: present, not null and not a blank string. */
  predicate Filled(v: Value) {
    !v.Null? && !(v.Str? && IsBlank(v.s))
  }

  /** The size `min`/`max` compare: the number itself for an attribute with a
      numeric rule, otherwise the length of the string. */
  function Size(v: Value, numeric: bool): int {
    if numeric && v.Int? then v.n
    else if v.Str? then |v.s|
    else 0
  }

  predicate Holds(rule: Rule, v: Value, numeric: bool, env: Env) {
    match rule
    case Required => Filled(v)
    case Sometimes => true
    case IsString => v.Str?
    case Ipv4 => v.Str? && env.isIpv4(v.s)
    case IsInteger => v.Int? && IsPhpInt(v.n)
    case Min(b) => Size(v, numeric) >= b
    case Max(b) => Size(v, numeric) <= b
    case In(opts) => v.Str? && v.s in opts
    case UniqueAddress(ig) => !(v.Str? && IpTaken(env.rows, v.s, ig))
  }

  /** A string value that is empty once `trim()` has run. */
  predicate IsBlankText(v: Value) {
    v.Str? && IsBlank(v.s)
  }

  /** Every rule listed for an attribute holds of its value. */
  predicate HoldsAll(rules: seq<Rule>, x: Value, env: Env) {
    forall i | 0 <= i < |rules| :: Holds(rules[i], x, IsInteger in rules, env)
  }

  /** An absent attribute passes unless it is required. The validator runs
      only the implicit rule `required` on a blank string, which fails it,
      and skips every other rule; any other present value must satisfy every
      rule listed for it. */
  predicate Passes(rules: seq<Rule>, v: Option<Value>, env: Env) {
    match v
    case None => Required !in rules
    case Some(x) => if IsBlankText(x) then Required !in rules else HoldsAll(rules, x, env)
  }

  function Lookup(input: Input, f: Field): Option<Value> {
    if Key(f) in input then Some(input[Key(f)]) else None
  }

  predicate FieldOk(req: Request, f: Field, input: Input, env: Env) {
    Rules(req, f).None? || Passes(Rules(req, f).value, Lookup(input, f), env)
  }

  /** The attributes that fail validation (the keys of the error bag). */
  function FailedFields(req: Request, input: Input, env: Env): set<Field> {
    set f | f in AllFields && !FieldOk(req, f, input, env)
  }

  /** `validated()`: the present attributes that have rules. */
  function Validated(req: Request, input: Input): map<Field, Value> {
    map f | f in AllFields && Rules(req, f).Some? && Key(f) in input :: input[Key(f)]
  }

  lemma ValidatedAt(req: Request, input: Input, f: Field)
    ensures f in Validated(req, input) <==> Rules(req, f).Some? && Key(f) in input
    ensures f in Validated(req, input) ==> Validated(req, input)[f] == input[Key(f)]
  {
    AllFieldsListed(f);
  }

  lemma AllFieldsListed(f: Field)
    ensures f in AllFields
  {
  }

  lemma NoFailures(req: Request, input: Input, env: Env)
    requires FailedFields(req, input, env) == {}
    ensures forall f :: FieldOk(req, f, input, env)
  {
    forall f ensures FieldOk(req, f, input, env) {
      AllFieldsListed(f);
      assert f !in FailedFields(req, input, env);
    }
  }

  lemma AllOk(req: Request, input: Input, env: Env)
    requires forall f :: FieldOk(req, f, input, env)
    ensures FailedFields(req, input, env) == {}
  {
  }

  lemma Passes2(a: Rule, b: Rule, x: Value, env: Env)
    ensures var rs := [a, b]; var num := IsInteger in rs;
            HoldsAll(rs, x, env) <==> Holds(a, x, num, env) && Holds(b, x, num, env)
  {
    var rs := [a, b];
    if Holds(a, x, IsInteger in rs, env) && Holds(b, x, IsInteger in rs, env) {
      forall i | 0 <= i < 2 ensures Holds(rs[i], x, IsInteger in rs, env) {
        if i == 0 { assert rs[i] == a; } else { assert rs[i] == b; }
      }
    }
    if HoldsAll(rs, x, env) {
      assert rs[0] == a && rs[1] == b;
    }
  }

  lemma Passes3(a: Rule, b: Rule, c: Rule, x: Value, env: Env)
    ensures var rs := [a, b, c]; var num := IsInteger in rs;
            HoldsAll(rs, x, env) <==> Holds(a, x, num, env) && Holds(b, x, num, env) && Holds(c, x, num, env)
  {
    var rs := [a, b, c];
    var num := IsInteger in rs;
    if Holds(a, x, num, env) && Holds(b, x, num, env) && Holds(c, x, num, env) {
      forall i | 0 <= i < 3 ensures Holds(rs[i], x, num, env) {
        if i == 0 { assert rs[i] == a; } else if i == 1 { assert rs[i] == b; } else { assert rs[i] == c; }
      }
    }
    if HoldsAll(rs, x, env) {
      assert rs[0] == a && rs[1] == b && rs[2] == c;
    }
  }

  lemma Passes4(a: Rule, b: Rule, c: Rule, d: Rule, x: Value, env: Env)
    ensures var rs := [a, b, c, d]; var num := IsInteger in rs;
            HoldsAll(rs, x, env) <==>
              Holds(a, x, num, env) && Holds(b, x, num, env) && Holds(c, x, num, env) && Holds(d, x, num, env)
  {
    var rs := [a, b, c, d];
    var num := IsInteger in rs;
    if Holds(a, x, num, env) && Holds(b, x, num, env) && Holds(c, x, num, env) && Holds(d, x, num, env) {
      forall i | 0 <= i < 4 ensures Holds(rs[i], x, num, env) {
        if i == 0 { assert rs[i] == a; }
        else if i == 1 { assert rs[i] == b; }
        else if i == 2 { assert rs[i] == c; }
        else { assert rs[i] == d; }
      }
    }
    if HoldsAll(rs, x, env) {
      assert rs[0] == a && rs[1] == b && rs[2] == c && rs[3] == d;
    }
  }

  /** The row a uniqueness check may ignore: the one an update targets. */
  function Ignored(req: Request): Option<nat> {
    if req.UpdateRequest? then Some(req.id) else None
  }

  /** Create requires every attribute but `status` (and `version`, which has no rule). */
  predicate IsRequired(req: Request, f: Field) {
    req.StoreRequest? && f != StatusKey && f != VersionKey
  }

  /** What one attribute's rules demand, stated field by field: a required
      attribute must be present and not blank; an optional one may be absent
      or blank; any other present value must have the type, length, range or
      enum value its rules name, and a present ip address must be unused by
      every row but the one being updated. */
  ghost predicate FieldSpec(req: Request, f: Field, input: Input, env: Env) {
    if Key(f) !in input || IsBlankText(input[Key(f)]) then !IsRequired(req, f)
    else
      var v := input[Key(f)];
      match f
         case NameKey => v.Str? && |v.s| <= MaxNameLength
         case IpKey => v.Str? && env.isIpv4(v.s) && |v.s| <= MaxIpLength && !IpTaken(env.rows, v.s, Ignored(req))
         case ProviderKey => v.Str? && v.s in ProviderNames
         case StatusKey => v.Str? && v.s in StatusNames
         case CpuKey => v.Int? && MinCpu <= v.n <= MaxCpu
         case RamKey => v.Int? && MinRam <= v.n <= MaxRam
         case StorageKey => v.Int? && MinStorage <= v.n <= MaxStorage
         case VersionKey => req.UpdateRequest? ==> v.Int? && IsPhpInt(v.n)
  }

  /** The rule table and the field-by-field statement agree. */
  lemma FieldOkIff(req: Request, f: Field, input: Input, env: Env)
    ensures FieldOk(req, f, input, env) <==> FieldSpec(req, f, input, env)
  {
    if f.NameKey? || f.IpKey? || f.ProviderKey? || f.StatusKey? {
      TextFieldOkIff(req, f, input, env);
    } else {
      NumberFieldOkIff(req, f, input, env);
    }
  }

  lemma TextFieldOkIff(req: Request, f: Field, input: Input, env: Env)
    requires f.NameKey? || f.IpKey? || f.ProviderKey? || f.StatusKey?
    ensures FieldOk(req, f, input, env) <==> FieldSpec(req, f, input, env)
  {
    var top := if req.StoreRequest? then Required else Sometimes;
    if Key(f) in input && !IsBlankText(input[Key(f)]) {
      var x := input[Key(f)];
      match f
      case NameKey => Passes3(top, IsString, Max(MaxNameLength), x, env);
      case IpKey => Passes4(top, Ipv4, Max(MaxIpLength), UniqueAddress(Ignored(req)), x, env);
      case ProviderKey => Passes2(top, In(ProviderNames), x, env);
      case StatusKey => Passes2(Sometimes, In(StatusNames), x, env);
    }
  }

  lemma NumberFieldOkIff(req: Request, f: Field, input: Input, env: Env)
    requires f.CpuKey? || f.RamKey? || f.StorageKey? || f.VersionKey?
    ensures FieldOk(req, f, input, env) <==> FieldSpec(req, f, input, env)
  {
    var top := if req.StoreRequest? then Required else Sometimes;
    if Key(f) in input && !IsBlankText(input[Key(f)]) {
      var x := input[Key(f)];
      match f
      case CpuKey => Passes4(top, IsInteger, Min(MinCpu), Max(MaxCpu), x, env);
      case RamKey => Passes4(top, IsInteger, Min(MinRam), Max(MaxRam), x, env);
      case StorageKey => Passes4(top, IsInteger, Min(MinStorage), Max(MaxStorage), x, env);
      case VersionKey => Passes2(Sometimes, IsInteger, x, env);
    }
  }

  /** Validation passes exactly when every attribute meets `FieldSpec`. */
  lemma AcceptedIff(req: Request, input: Input, env: Env)
    ensures FailedFields(req, input, env) == {} <==> forall f :: FieldSpec(req, f, input, env)
  {
    forall f ensures FieldOk(req, f, input, env) <==> FieldSpec(req, f, input, env) {
      FieldOkIff(req, f, input, env);
    }
    if FailedFields(req, input, env) == {} {
      NoFailures(req, input, env);
    }
  }

  /** The value a request sent for an enum or integer attribute that decoded
      to `e`: the name or the number of a typed value, or the blank text
      itself. */
  predicate ProviderSent(v: Value, e: Entry<Provider>) {
    match e
    case Typed(p) => v == Str(ProviderName(p))
    case Blank(t) => v == Str(t) && IsBlank(t)
  }

  predicate StatusSent(v: Value, e: Entry<Status>) {
    match e
    case Typed(t) => v == Str(StatusName(t))
    case Blank(t) => v == Str(t) && IsBlank(t)
  }

  predicate IntSent(v: Value, e: Entry<int>) {
    match e
    case Typed(n) => v == Int(n)
    case Blank(t) => v == Str(t) && IsBlank(t)
  }

  /** As `IntSent`, with a typed number within [lo, hi]. */
  predicate NumberSent(v: Value, e: Entry<int>, lo: int, hi: int) {
    IntSent(v, e) && (e.Typed? ==> lo <= e.value <= hi)
  }

  /** How validated data reads an enum or integer attribute: blank text
      stays text, anything else is the typed value. */
  function ProviderEntry(v: Value): Entry<Provider>
    requires IsBlankText(v) || (v.Str? && ParseProvider(v.s).Some?)
  {
    if IsBlankText(v) then Blank(v.s) else Typed(ParseProvider(v.s).value)
  }

  function StatusEntry(v: Value): Entry<Status>
    requires IsBlankText(v) || (v.Str? && ParseStatus(v.s).Some?)
  {
    if IsBlankText(v) then Blank(v.s) else Typed(ParseStatus(v.s).value)
  }

  function IntEntry(v: Value): Entry<int>
    requires IsBlankText(v) || v.Int?
  {
    if v.Int? then Typed(v.n) else Blank(v.s)
  }

  /** The attributes a create request carries, decoded. */
  datatype NewServer = NewServer(
    name: string,
    ipAddress: string,
    provider: Provider,
    status: Option<Entry<Status>>,
    cpuCores: U16,
    ramMb: U64,
    storageGb: U64)

  /** Attribute `f` of a create request decodes into `n`: each required
      attribute is present with the right type and within its bounds, the ip
      address is not used by any row, and `status` is absent, one of its
      names, or blank. */
  ghost predicate StoreFieldOf(input: Input, n: NewServer, env: Env, f: Field) {
    match f
    case NameKey =>
      && "name" in input && input["name"] == Str(n.name)
      && !IsBlank(n.name) && |n.name| <= MaxNameLength
    case IpKey =>
      && "ip_address" in input && input["ip_address"] == Str(n.ipAddress)
      && !IsBlank(n.ipAddress) && env.isIpv4(n.ipAddress) && |n.ipAddress| <= MaxIpLength
      && !IpTaken(env.rows, n.ipAddress, None)
    case ProviderKey =>
      "provider" in input && input["provider"] == Str(ProviderName(n.provider))
    case StatusKey =>
      && ("status" in input <==> n.status.Some?)
      && (n.status.Some? ==> StatusSent(input["status"], n.status.value))
    case CpuKey =>
      "cpu_cores" in input && input["cpu_cores"] == Int(n.cpuCores) && MinCpu <= n.cpuCores <= MaxCpu
    case RamKey =>
      "ram_mb" in input && input["ram_mb"] == Int(n.ramMb) && MinRam <= n.ramMb <= MaxRam
    case StorageKey =>
      "storage_gb" in input && input["storage_gb"] == Int(n.storageGb) && MinStorage <= n.storageGb <= MaxStorage
    case VersionKey => true
  }

  /** `input` is a create request whose every rule holds and whose attributes
      decode to `n`, attribute by attribute. */
  ghost predicate StoreInputOf(input: Input, n: NewServer, env: Env) {
    && StoreFieldOf(input, n, env, NameKey)
    && StoreFieldOf(input, n, env, IpKey)
    && StoreFieldOf(input, n, env, ProviderKey)
    && StoreFieldOf(input, n, env, StatusKey)
    && StoreFieldOf(input, n, env, CpuKey)
    && StoreFieldOf(input, n, env, RamKey)
    && StoreFieldOf(input, n, env, StorageKey)
  }

  /** Reads one field's `FieldSpec` out of a passing validation. */
  lemma SpecOf(req: Request, f: Field, input: Input, env: Env)
    requires FailedFields(req, input, env) == {}
    ensures FieldSpec(req, f, input, env)
  {
    AcceptedIff(req, input, env);
  }

  /** The shape of attribute `f` in the validated data of a passing create
      request: the required attributes are there with their types and bounds,
      and `status`, if there, is blank or one of its names. */
  predicate StoreDataAt(data: map<Field, Value>, f: Field) {
    match f
    case NameKey => NameKey in data && data[NameKey].Str?
    case IpKey => IpKey in data && data[IpKey].Str?
    case ProviderKey => ProviderKey in data && data[ProviderKey].Str? && ParseProvider(data[ProviderKey].s).Some?
    case StatusKey =>
      StatusKey in data ==>
        IsBlankText(data[StatusKey]) || (data[StatusKey].Str? && ParseStatus(data[StatusKey].s).Some?)
    case CpuKey => CpuKey in data && data[CpuKey].Int? && 0 <= data[CpuKey].n <= MaxU16
    case RamKey => RamKey in data && data[RamKey].Int? && 0 <= data[RamKey].n <= MaxU64
    case StorageKey => StorageKey in data && data[StorageKey].Int? && 0 <= data[StorageKey].n <= MaxU64
    case VersionKey => true
  }

  predicate StoreDataOk(data: map<Field, Value>) {
    && StoreDataAt(data, NameKey)
    && StoreDataAt(data, IpKey)
    && StoreDataAt(data, ProviderKey)
    && StoreDataAt(data, StatusKey)
    && StoreDataAt(data, CpuKey)
    && StoreDataAt(data, RamKey)
    && StoreDataAt(data, StorageKey)
  }

  /** The validated data of a create request, read into typed attributes. */
  function DecodeStore(data: map<Field, Value>): NewServer
    requires StoreDataOk(data)
  {
    NewServer(
      data[NameKey].s,
      data[IpKey].s,
      ParseProvider(data[ProviderKey].s).value,
      if StatusKey in data then Some(StatusEntry(data[StatusKey])) else None,
      data[CpuKey].n,
      data[RamKey].n,
      data[StorageKey].n)
  }

  lemma StoreShapeAt(input: Input, env: Env, f: Field)
    requires FailedFields(StoreRequest, input, env) == {}
    ensures StoreDataAt(Validated(StoreRequest, input), f)
  {
    SpecOf(StoreRequest, f, input, env);
    ValidatedAt(StoreRequest, input, f);
  }

  lemma StoreFieldDecodes(input: Input, env: Env, f: Field)
    requires FailedFields(StoreRequest, input, env) == {}
    requires StoreDataOk(Validated(StoreRequest, input))
    ensures StoreFieldOf(input, DecodeStore(Validated(StoreRequest, input)), env, f)
  {
    SpecOf(StoreRequest, f, input, env);
    ValidatedAt(StoreRequest, input, f);
  }

  /** What a passing create validation leaves behind: validated data of the
      right shape, decoding to attributes that obey the rules. */
  lemma StoreDecodes(input: Input, env: Env)
    requires FailedFields(StoreRequest, input, env) == {}
    ensures StoreDataOk(Validated(StoreRequest, input))
    ensures StoreInputOf(input, DecodeStore(Validated(StoreRequest, input)), env)
  {
    StoreShapeAt(input, env, NameKey);
    StoreShapeAt(input, env, IpKey);
    StoreShapeAt(input, env, ProviderKey);
    StoreShapeAt(input, env, StatusKey);
    StoreShapeAt(input, env, CpuKey);
    StoreShapeAt(input, env, RamKey);
    StoreShapeAt(input, env, StorageKey);
    StoreFieldDecodes(input, env, NameKey);
    StoreFieldDecodes(input, env, IpKey);
    StoreFieldDecodes(input, env, ProviderKey);
    StoreFieldDecodes(input, env, StatusKey);
    StoreFieldDecodes(input, env, CpuKey);
    StoreFieldDecodes(input, env, RamKey);
    StoreFieldDecodes(input, env, StorageKey);
  }

  /** `StoreServerRequest`: either the attributes that failed, or the decoded
      validated data. `version` has no rule, so it is never part of the result;
      a blank `status` passes, since `in` is not run on blank text. */
  function ValidateStore(input: Input, env: Env): (r: Result<NewServer, set<Field>>)
    ensures r.Success? ==> StoreInputOf(input, r.value, env)
    ensures r.Failure? ==> r.error != {}
    ensures r.Failure? ==> forall f | f in r.error :: !FieldOk(StoreRequest, f, input, env)
  {
    var failed := FailedFields(StoreRequest, input, env);
    if failed != {} then Failure(failed)
    else
      StoreDecodes(input, env);
      Success(DecodeStore(Validated(StoreRequest, input)))
  }

  lemma EnumNamesListed(p: Provider, s: Status)
    ensures ProviderName(p) in ProviderNames && StatusName(s) in StatusNames
  {
    assert ParseProvider(ProviderName(p)) == Some(p);
    assert ParseStatus(StatusName(s)) == Some(s);
  }

  /** Every create request whose attributes obey the rules is accepted, with
      exactly those attributes: with the ensures of `ValidateStore` this makes
      `StoreInputOf` an exact description of the accepted requests. */
  lemma StoreAccepts(input: Input, n: NewServer, env: Env)
    requires StoreInputOf(input, n, env)
    ensures ValidateStore(input, env) == Success(n)
  {
    forall f ensures FieldSpec(StoreRequest, f, input, env) {
      StoreSpecAt(input, n, env, f);
    }
    AcceptedIff(StoreRequest, input, env);
    var r := ValidateStore(input, env);
    assert r.Success?;
    StoreDecodeUnique(input, r.value, n, env);
  }

  lemma StoreSpecAt(input: Input, n: NewServer, env: Env, f: Field)
    requires StoreInputOf(input, n, env)
    ensures FieldSpec(StoreRequest, f, input, env)
  {
    EnumNamesListed(n.provider, if n.status.Some? && n.status.value.Typed? then n.status.value.value else Active);
    assert !IsTrimmable(ProviderName(n.provider)[0]);
  }

  /** A create request describes at most one decoded value. */
  lemma StoreDecodeUnique(input: Input, n: NewServer, m: NewServer, env: Env)
    requires StoreInputOf(input, n, env) && StoreInputOf(input, m, env)
    ensures n == m
  {
    NamesInjective(n.provider, m.provider, Active, Active);
    if n.status.Some? {
      StatusSentUnique(input["status"], n.status.value, m.status.value);
    }
  }

  /** `version` has no create rule: whatever a client sends under that key,
      validation -- and so the row it leads to -- is the same. */
  lemma StoreIgnoresVersion(input: Input, v: Value, env: Env)
    ensures ValidateStore(input["version" := v], env) == ValidateStore(input, env)
  {
    var input' := input["version" := v];
    forall f ensures FieldOk(StoreRequest, f, input', env) == FieldOk(StoreRequest, f, input, env) {
      if f != VersionKey {
        assert Lookup(input', f) == Lookup(input, f);
      }
    }
    assert FailedFields(StoreRequest, input', env) == FailedFields(StoreRequest, input, env);
    forall f ensures f in Validated(StoreRequest, input') <==> f in Validated(StoreRequest, input) {
      ValidatedAt(StoreRequest, input', f);
      ValidatedAt(StoreRequest, input, f);
    }
    forall f | f in Validated(StoreRequest, input)
      ensures Validated(StoreRequest, input')[f] == Validated(StoreRequest, input)[f]
    {
      ValidatedAt(StoreRequest, input', f);
      ValidatedAt(StoreRequest, input, f);
    }
    assert Validated(StoreRequest, input') == Validated(StoreRequest, input);
    SameValidation(input', input, env);
  }

  /** `ValidateStore` reads the input only through the failed attributes and
      the validated data. */
  lemma SameValidation(input: Input, input': Input, env: Env)
    requires FailedFields(StoreRequest, input, env) == FailedFields(StoreRequest, input', env)
    requires Validated(StoreRequest, input) == Validated(StoreRequest, input')
    ensures ValidateStore(input, env) == ValidateStore(input', env)
  {
  }

  /** The attributes an update request carries, decoded, and the version the
      client claims to have read. */
  datatype UpdateData = UpdateData(changes: Changes, version: Option<Entry<int>>)

  /** Attribute `f` of an update request for row `id` decodes into `d`: it is
      among the changes exactly when its key is present; a blank string is
      carried as it was sent; any other value has the right type and lies
      within the create bounds, and an ip address is not used by a row other
      than `id`; a supplied `version` is a 64-bit integer or blank. */
  ghost predicate UpdateFieldOf(input: Input, id: nat, d: UpdateData, env: Env, f: Field) {
    var c := d.changes;
    match f
    case NameKey =>
      && ("name" in input <==> c.name.Some?)
      && (c.name.Some? ==>
            var n := c.name.value;
            input["name"] == Str(n) && (IsBlank(n) || |n| <= MaxNameLength))
    case IpKey =>
      && ("ip_address" in input <==> c.ipAddress.Some?)
      && (c.ipAddress.Some? ==>
            var ip := c.ipAddress.value;
            && input["ip_address"] == Str(ip)
            && (IsBlank(ip) || (env.isIpv4(ip) && |ip| <= MaxIpLength && !IpTaken(env.rows, ip, Some(id)))))
    case ProviderKey =>
      && ("provider" in input <==> c.provider.Some?)
      && (c.provider.Some? ==> ProviderSent(input["provider"], c.provider.value))
    case StatusKey =>
      && ("status" in input <==> c.status.Some?)
      && (c.status.Some? ==> StatusSent(input["status"], c.status.value))
    case CpuKey =>
      && ("cpu_cores" in input <==> c.cpuCores.Some?)
      && (c.cpuCores.Some? ==> NumberSent(input["cpu_cores"], c.cpuCores.value, MinCpu, MaxCpu))
    case RamKey =>
      && ("ram_mb" in input <==> c.ramMb.Some?)
      && (c.ramMb.Some? ==> NumberSent(input["ram_mb"], c.ramMb.value, MinRam, MaxRam))
    case StorageKey =>
      && ("storage_gb" in input <==> c.storageGb.Some?)
      && (c.storageGb.Some? ==> NumberSent(input["storage_gb"], c.storageGb.value, MinStorage, MaxStorage))
    case VersionKey =>
      && ("version" in input <==> d.version.Some?)
      && (d.version.Some? ==> NumberSent(input["version"], d.version.value, PhpIntMin, PhpIntMax))
  }

  /** `input` is an update request for row `id` whose rules all hold and
      which decodes to `d`, attribute by attribute. */
  ghost predicate UpdateInputOf(input: Input, id: nat, d: UpdateData, env: Env) {
    && UpdateFieldOf(input, id, d, env, NameKey)
    && UpdateFieldOf(input, id, d, env, IpKey)
    && UpdateFieldOf(input, id, d, env, ProviderKey)
    && UpdateFieldOf(input, id, d, env, StatusKey)
    && UpdateFieldOf(input, id, d, env, CpuKey)
    && UpdateFieldOf(input, id, d, env, RamKey)
    && UpdateFieldOf(input, id, d, env, StorageKey)
    && UpdateFieldOf(input, id, d, env, VersionKey)
  }

  /** The shape of attribute `f` in the validated data of a passing update
      request: if it is there, it is blank text or has its type. */
  predicate UpdateDataAt(data: map<Field, Value>, f: Field) {
    f in data ==>
      IsBlankText(data[f]) ||
      match f
      case ProviderKey => data[f].Str? && ParseProvider(data[f].s).Some?
      case StatusKey => data[f].Str? && ParseStatus(data[f].s).Some?
      case NameKey => data[f].Str?
      case IpKey => data[f].Str?
      case _ => data[f].Int?
  }

  predicate UpdateDataOk(data: map<Field, Value>) {
    && UpdateDataAt(data, NameKey)
    && UpdateDataAt(data, IpKey)
    && UpdateDataAt(data, ProviderKey)
    && UpdateDataAt(data, StatusKey)
    && UpdateDataAt(data, CpuKey)
    && UpdateDataAt(data, RamKey)
    && UpdateDataAt(data, StorageKey)
    && UpdateDataAt(data, VersionKey)
  }

  /** The validated data of an update request, read into the changes and the
      claimed version. */
  function DecodeUpdate(data: map<Field, Value>): UpdateData
    requires UpdateDataOk(data)
  {
    UpdateData(
      Changes(
        if NameKey in data then Some(data[NameKey].s) else None,
        if IpKey in data then Some(data[IpKey].s) else None,
        if ProviderKey in data then Some(ProviderEntry(data[ProviderKey])) else None,
        if StatusKey in data then Some(StatusEntry(data[StatusKey])) else None,
        if CpuKey in data then Some(IntEntry(data[CpuKey])) else None,
        if RamKey in data then Some(IntEntry(data[RamKey])) else None,
        if StorageKey in data then Some(IntEntry(data[StorageKey])) else None),
      if VersionKey in data then Some(IntEntry(data[VersionKey])) else None)
  }

  /** Attribute `f` of a passing update request has the shape its rules
      promise in the validated data. */
  lemma UpdateShapeAt(input: Input, id: nat, env: Env, f: Field)
    requires FailedFields(UpdateRequest(id), input, env) == {}
    ensures UpdateDataAt(Validated(UpdateRequest(id), input), f)
  {
    SpecOf(UpdateRequest(id), f, input, env);
    ValidatedAt(UpdateRequest(id), input, f);
  }

  /** Attribute `f` of a passing update request decodes as its rules promise. */
  lemma UpdateFieldDecodes(input: Input, id: nat, env: Env, f: Field)
    requires FailedFields(UpdateRequest(id), input, env) == {}
    requires UpdateDataOk(Validated(UpdateRequest(id), input))
    ensures UpdateFieldOf(input, id, DecodeUpdate(Validated(UpdateRequest(id), input)), env, f)
  {
    SpecOf(UpdateRequest(id), f, input, env);
    ValidatedAt(UpdateRequest(id), input, f);
  }

  /** What a passing update validation leaves behind: validated data of the
      right shape, decoding to changes that obey the rules. */
  lemma UpdateDecodes(input: Input, id: nat, env: Env)
    requires FailedFields(UpdateRequest(id), input, env) == {}
    ensures UpdateDataOk(Validated(UpdateRequest(id), input))
    ensures UpdateInputOf(input, id, DecodeUpdate(Validated(UpdateRequest(id), input)), env)
  {
    UpdateShapeAt(input, id, env, NameKey);
    UpdateShapeAt(input, id, env, IpKey);
    UpdateShapeAt(input, id, env, ProviderKey);
    UpdateShapeAt(input, id, env, StatusKey);
    UpdateShapeAt(input, id, env, CpuKey);
    UpdateShapeAt(input, id, env, RamKey);
    UpdateShapeAt(input, id, env, StorageKey);
    UpdateShapeAt(input, id, env, VersionKey);
    UpdateFieldDecodes(input, id, env, NameKey);
    UpdateFieldDecodes(input, id, env, IpKey);
    UpdateFieldDecodes(input, id, env, ProviderKey);
    UpdateFieldDecodes(input, id, env, StatusKey);
    UpdateFieldDecodes(input, id, env, CpuKey);
    UpdateFieldDecodes(input, id, env, RamKey);
    UpdateFieldDecodes(input, id, env, StorageKey);
    UpdateFieldDecodes(input, id, env, VersionKey);
  }

  /** `UpdateServerRequest` ("sometimes" rules): either the attributes that
      failed, or the decoded validated data. An absent attribute is neither
      checked nor among the changes; a blank one passes unchecked. */
  function ValidateUpdate(input: Input, id: nat, env: Env): (r: Result<UpdateData, set<Field>>)
    ensures r.Success? ==> UpdateInputOf(input, id, r.value, env)
    ensures r.Failure? ==> r.error != {}
    ensures r.Failure? ==> forall f | f in r.error :: !FieldOk(UpdateRequest(id), f, input, env)
  {
    var failed := FailedFields(UpdateRequest(id), input, env);
    if failed != {} then Failure(failed)
    else
      UpdateDecodes(input, id, env);
      Success(DecodeUpdate(Validated(UpdateRequest(id), input)))
  }

  lemma NamesInjective(p: Provider, q: Provider, s: Status, t: Status)
    ensures ProviderName(p) == ProviderName(q) ==> p == q
    ensures StatusName(s) == StatusName(t) ==> s == t
  {
    assert ParseProvider(ProviderName(p)) == Some(p);
    assert ParseStatus(StatusName(s)) == Some(s);
  }

  /** No enum name is blank, so a blank value never reads as a typed one. */
  lemma NamesNotBlank(p: Provider, t: Status)
    ensures !IsBlank(ProviderName(p)) && !IsBlank(StatusName(t))
  {
    assert !IsTrimmable(ProviderName(p)[0]) && !IsTrimmable(StatusName(t)[0]);
  }

  lemma ProviderEntryUnique(v: Value, a: Entry<Provider>, b: Entry<Provider>)
    requires ProviderSent(v, a) && ProviderSent(v, b)
    ensures a == b
  {
    match a
    case Typed(p) =>
      NamesNotBlank(p, Active);
      if b.Typed? { NamesInjective(p, b.value, Active, Active); }
    case Blank(_) =>
      if b.Typed? { NamesNotBlank(b.value, Active); }
  }

  lemma StatusSentUnique(v: Value, a: Entry<Status>, b: Entry<Status>)
    requires StatusSent(v, a) && StatusSent(v, b)
    ensures a == b
  {
    match a
    case Typed(t) =>
      NamesNotBlank(Aws, t);
      if b.Typed? { NamesInjective(Aws, Aws, t, b.value); }
    case Blank(_) =>
      if b.Typed? { NamesNotBlank(Aws, b.value); }
  }

  /** An update request describes at most one decoded value. */
  lemma UpdateDecodeUnique(input: Input, id: nat, d: UpdateData, e: UpdateData, env: Env)
    requires UpdateInputOf(input, id, d, env) && UpdateInputOf(input, id, e, env)
    ensures d == e
  {
    var p, q := d.changes, e.changes;
    if p.provider.Some? {
      ProviderEntryUnique(input["provider"], p.provider.value, q.provider.value);
    }
    if p.status.Some? {
      StatusSentUnique(input["status"], p.status.value, q.status.value);
    }
  }

  /** Attribute `f` of an update request that decodes into `d` meets its
      field-by-field statement. */
  lemma UpdateSpecAt(input: Input, id: nat, d: UpdateData, env: Env, f: Field)
    requires UpdateInputOf(input, id, d, env)
    ensures FieldSpec(UpdateRequest(id), f, input, env)
  {
    var c := d.changes;
    match f
    case ProviderKey =>
      if c.provider.Some? && c.provider.value.Typed? {
        EnumNamesListed(c.provider.value.value, Active);
      }
    case StatusKey =>
      if c.status.Some? && c.status.value.Typed? {
        EnumNamesListed(Aws, c.status.value.value);
      }
    case _ =>
  }

  /** Every update request whose present attributes obey the rules is
      accepted with exactly those attributes. */
  lemma UpdateAccepts(input: Input, id: nat, d: UpdateData, env: Env)
    requires UpdateInputOf(input, id, d, env)
    ensures ValidateUpdate(input, id, env) == Success(d)
  {
    forall f ensures FieldSpec(UpdateRequest(id), f, input, env) {
      UpdateSpecAt(input, id, d, env, f);
    }
    AcceptedIff(UpdateRequest(id), input, env);
    var r := ValidateUpdate(input, id, env);
    assert r.Success?;
    UpdateDecodeUnique(input, id, r.value, d, env);
  }

  /** Whether an update passes does not depend on the targeted row's own
      stored values: its ip address is never a clash with itself. */
  lemma UpdateInputOfOwnRow(input: Input, id: nat, d: UpdateData, rows: map<nat, Server>, s: Server, isIpv4: string -> bool)
    requires UpdateInputOf(input, id, d, Env(rows, isIpv4))
    ensures UpdateInputOf(input, id, d, Env(rows[id := s], isIpv4))
  {
    var rows' := rows[id := s];
    if d.changes.ipAddress.Some? {
      var ip := d.changes.ipAddress.value;
      if IpTaken(rows', ip, Some(id)) {
        var k :| k in rows' && rows'[k].ipAddress == ip && Some(id) != Some(k);
        assert rows[k] == rows'[k];
      }
    }
    assert UpdateFieldOf(input, id, d, Env(rows', isIpv4), IpKey);
  }

  /** Everything either request validates is a fillable attribute of the model. */
  lemma RulesOnlyCoverFillable(req: Request, f: Field)
    requires Rules(req, f).Some?
    ensures Key(f) in Fillable
  {
  }

  /** The validated bounds fit the columns they are stored in. */
  lemma BoundsFitColumns()
    ensures MaxNameLength <= NameColumnLength as int && MaxIpLength <= IpColumnLength as int
    ensures 0 <= MinCpu && MaxCpu <= MaxU16
    ensures 0 <= MinRam && MaxRam <= MaxU64 && 0 <= MinStorage && MaxStorage <= MaxU64
  {
  }
}
