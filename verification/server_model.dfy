/** The Eloquent model of a server: which attributes mass assignment may
    write, and what filling a row with a set of validated attributes does. */
module ServerModel {
  import opened Base
  import opened Schema

  /** The `$fillable` attribute names. `id`, `created_at` and `updated_at`
      are absent, so input can never set them. */
  const Fillable: seq<string> :=
    ["name", "ip_address", "provider", "status", "cpu_cores", "ram_mb", "storage_gb", "version"]

  /** A set of fillable attributes, each possibly absent. Integer attributes
      already carry the width of their column (the `$casts` make them read
      back as integers). */
  datatype Patch = Patch(
    name: Option<string>,
    ipAddress: Option<string>,
    provider: Option<Provider>,
    status: Option<Status>,
    cpuCores: Option<U16>,
    ramMb: Option<U64>,
    storageGb: Option<U64>)

  /** An attribute bound for an enum or integer column, as mass assignment
      receives it: a value of the column's type, or a blank string, which
      validation lets through unchecked when the attribute is optional. */
  datatype Entry<T> = Typed(value: T) | Blank(text: string)

  /** The attributes an update hands to `$server->update($data)`, each
      possibly absent, before the columns convert them. */
  datatype Changes = Changes(
    name: Option<string>,
    ipAddress: Option<string>,
    provider: Option<Entry<Provider>>,
    status: Option<Entry<Status>>,
    cpuCores: Option<Entry<int>>,
    ramMb: Option<Entry<int>>,
    storageGb: Option<Entry<int>>)

  predicate TextStorable(v: Option<string>, width: nat) {
    v.Some? ==> ColumnText(v.value, width).Some?
  }

  predicate EnumStorable<T>(e: Option<Entry<T>>) {
    e.Some? ==> e.value.Typed?
  }

  predicate IntStorable(e: Option<Entry<int>>, max: int) {
    e.Some? ==> e.value.Typed? && 0 <= e.value.value <= max
  }

  /** Every column accepts its attribute (MySQL strict mode): an enum or an
      integer column refuses a blank string, an integer column refuses a value
      outside its width, and a text column refuses an overlong string. */
  predicate Storable(c: Changes) {
    && TextStorable(c.name, NameColumnLength)
    && TextStorable(c.ipAddress, IpColumnLength)
    && EnumStorable(c.provider)
    && EnumStorable(c.status)
    && IntStorable(c.cpuCores, MaxU16)
    && IntStorable(c.ramMb, MaxU64)
    && IntStorable(c.storageGb, MaxU64)
  }

  /** The values the columns take from storable attributes. */
  function ToPatch(c: Changes): Patch
    requires Storable(c)
  {
    Patch(
      if c.name.Some? then ColumnText(c.name.value, NameColumnLength) else None,
      if c.ipAddress.Some? then ColumnText(c.ipAddress.value, IpColumnLength) else None,
      if c.provider.Some? then Some(c.provider.value.value) else None,
      if c.status.Some? then Some(c.status.value.value) else None,
      if c.cpuCores.Some? then Some(c.cpuCores.value.value) else None,
      if c.ramMb.Some? then Some(c.ramMb.value.value) else None,
      if c.storageGb.Some? then Some(c.storageGb.value.value) else None)
  }

  /** The supplied value, or the current one when none was supplied. */
  function Pick<T>(supplied: Option<T>, current: T): T {
    if supplied.Some? then supplied.value else current
  }

  /** `$server->update($data)`: every supplied attribute is written, every
      other one keeps its value, `version` takes the value the caller computed
      and `updated_at` is touched. The row's id is its key, so it cannot change. */
  function Fill(s: Server, p: Patch, version: U32, now: nat): (r: Server)
    ensures p.name.Some? ==> r.name == p.name.value
    ensures p.name.None? ==> r.name == s.name
    ensures p.ipAddress.Some? ==> r.ipAddress == p.ipAddress.value
    ensures p.ipAddress.None? ==> r.ipAddress == s.ipAddress
    ensures p.provider.Some? ==> r.provider == p.provider.value
    ensures p.provider.None? ==> r.provider == s.provider
    ensures p.status.Some? ==> r.status == p.status.value
    ensures p.status.None? ==> r.status == s.status
    ensures p.cpuCores.Some? ==> r.cpuCores == p.cpuCores.value
    ensures p.cpuCores.None? ==> r.cpuCores == s.cpuCores
    ensures p.ramMb.Some? ==> r.ramMb == p.ramMb.value
    ensures p.ramMb.None? ==> r.ramMb == s.ramMb
    ensures p.storageGb.Some? ==> r.storageGb == p.storageGb.value
    ensures p.storageGb.None? ==> r.storageGb == s.storageGb
    ensures r.version == version && r.createdAt == s.createdAt && r.updatedAt == now
  {
    Server(
      Pick(p.name, s.name),
      Pick(p.ipAddress, s.ipAddress),
      Pick(p.provider, s.provider),
      Pick(p.status, s.status),
      Pick(p.cpuCores, s.cpuCores),
      Pick(p.ramMb, s.ramMb),
      Pick(p.storageGb, s.storageGb),
      version,
      s.createdAt,
      now)
  }

  /** The patch that changes nothing. */
  const EmptyPatch: Patch := Patch(None, None, None, None, None, None, None)

  /** Filling with an empty patch only bumps the version and the update time. */
  lemma FillEmpty(s: Server, version: U32, now: nat)
    ensures Fill(s, EmptyPatch, version, now) == s.(version := version, updatedAt := now)
  {
  }
}
