/** The `servers` table: the shape of a row, its column widths and defaults,
    and the two unique indexes the database enforces on every write. */
module Schema {
  import opened Base

  const MaxU16: int := 0xFFFF
  const MaxU32: int := 0xFFFF_FFFF
  const MaxU64: int := 0xFFFF_FFFF_FFFF_FFFF

  /** `unsignedSmallInteger` */
  type U16 = x: int | 0 <= x <= MaxU16
  /** `unsignedInteger` */
  type U32 = x: int | 0 <= x <= MaxU32
  /** `unsignedBigInteger` */
  type U64 = x: int | 0 <= x <= MaxU64

  /** Length of `string('name')` (the default string column) and of `string('ip_address', 45)`. */
  const NameColumnLength: nat := 255
  const IpColumnLength: nat := 45

  datatype Provider = Aws | DigitalOcean | Vultr | Other
  datatype Status = Active | Inactive | Maintenance

  /** The enum values in declaration order. */
  const ProviderNames: seq<string> := ["aws", "digitalocean", "vultr", "other"]
  const StatusNames: seq<string> := ["active", "inactive", "maintenance"]

  function ProviderName(p: Provider): string {
    match p
    case Aws => "aws"
    case DigitalOcean => "digitalocean"
    case Vultr => "vultr"
    case Other => "other"
  }

  function StatusName(s: Status): string {
    match s
    case Active => "active"
    case Inactive => "inactive"
    case Maintenance => "maintenance"
  }

  /** The enum column accepts exactly the declared names, and reads each back
      as the value it names. */
  function ParseProvider(s: string): (r: Option<Provider>)
    ensures r.Some? <==> s in ProviderNames
    ensures r.Some? ==> ProviderName(r.value) == s
    ensures forall p: Provider :: s == ProviderName(p) ==> r == Some(p)
  {
    if s == "aws" then Some(Aws)
    else if s == "digitalocean" then Some(DigitalOcean)
    else if s == "vultr" then Some(Vultr)
    else if s == "other" then Some(Other)
    else None
  }

  function ParseStatus(s: string): (r: Option<Status>)
    ensures r.Some? <==> s in StatusNames
    ensures r.Some? ==> StatusName(r.value) == s
    ensures forall t: Status :: s == StatusName(t) ==> r == Some(t)
  {
    if s == "active" then Some(Active)
    else if s == "inactive" then Some(Inactive)
    else if s == "maintenance" then Some(Maintenance)
    else None
  }

  /** Column defaults. */
  const DefaultProvider: Provider := Other
  const DefaultStatus: Status := Inactive
  const InitialVersion: U32 := 1

  /** One row of the table, without its id (the id is the key it is stored
      under). `createdAt` and `updatedAt` are clock readings. */
  datatype Server = Server(
    name: string,
    ipAddress: string,
    provider: Provider,
    status: Status,
    cpuCores: U16,
    ramMb: U64,
    storageGb: U64,
    version: U32,
    createdAt: nat,
    updatedAt: nat)

  /** The table: rows by id, and the next value of the auto-increment counter. */
  datatype Db = Db(rows: map<nat, Server>, nextId: nat)

  /** Ids are assigned from 1 upwards by the auto-increment counter. */
  predicate WellFormed(db: Db) {
    forall id | id in db.rows :: 1 <= id < db.nextId
  }

  /** `unique('ip_address')` */
  ghost predicate UniqueIp(rows: map<nat, Server>) {
    forall a, b | a in rows && b in rows && rows[a].ipAddress == rows[b].ipAddress :: a == b
  }

  /** `unique(['provider', 'name'])` */
  ghost predicate UniqueProviderName(rows: map<nat, Server>) {
    forall a, b | a in rows && b in rows && rows[a].provider == rows[b].provider
                  && rows[a].name == rows[b].name :: a == b
  }

  /** The string columns are long enough for what a row holds. */
  predicate FitsColumns(s: Server) {
    |s.name| <= NameColumnLength && |s.ipAddress| <= IpColumnLength
  }

  /** What a `VARCHAR(width)` column stores in strict mode: a string that fits
      is stored as it is; a longer one loses the spaces that run past the
      column (with only a warning); any other overlong string fails the
      statement (`None`). */
  function ColumnText(s: string, width: nat): (r: Option<string>)
    ensures |s| <= width ==> r == Some(s)
    ensures r.None? <==> exists i | width <= i < |s| :: s[i] != ' '
    ensures r.Some? ==> |r.value| <= width && r.value == s[..|r.value|]
    ensures r.Some? ==> forall i | |r.value| <= i < |s| :: s[i] == ' '
  {
    if |s| <= width then Some(s)
    else if forall i | width <= i < |s| :: s[i] == ' ' then Some(s[..width])
    else None
  }

  /** Some row other than `except` already uses this ip address. */
  predicate IpTaken(rows: map<nat, Server>, ip: string, except: Option<nat>) {
    exists id | id in rows :: rows[id].ipAddress == ip && except != Some(id)
  }

  /** Some row other than `except` already has this (provider, name) pair. */
  predicate ProviderNameTaken(rows: map<nat, Server>, p: Provider, name: string, except: Option<nat>) {
    exists id | id in rows :: rows[id].provider == p && rows[id].name == name && except != Some(id)
  }

  /** An INSERT: the row receives the next auto-increment id unless it would
      break a unique index, in which case the database refuses it (`None`). */
  function Insert(db: Db, s: Server): (r: Option<(Db, nat)>)
    requires WellFormed(db)
    ensures r.None? <==> IpTaken(db.rows, s.ipAddress, None)
                         || ProviderNameTaken(db.rows, s.provider, s.name, None)
    ensures r.Some? ==> var (db', id) := r.value;
              id !in db.rows && id >= 1 && db'.rows == db.rows[id := s] && WellFormed(db')
    ensures r.Some? && UniqueIp(db.rows) ==> UniqueIp(r.value.0.rows)
    ensures r.Some? && UniqueProviderName(db.rows) ==> UniqueProviderName(r.value.0.rows)
  {
    if IpTaken(db.rows, s.ipAddress, None) || ProviderNameTaken(db.rows, s.provider, s.name, None) then None
    else
      var id := if db.nextId == 0 then 1 else db.nextId;
      Some((Db(db.rows[id := s], id + 1), id))
  }

  /** An UPDATE of the row stored under `id`, refused when the new values
      would break a unique index against some other row. */
  function Write(db: Db, id: nat, s: Server): (r: Option<Db>)
    requires id in db.rows
    ensures r.None? <==> IpTaken(db.rows, s.ipAddress, Some(id))
                         || ProviderNameTaken(db.rows, s.provider, s.name, Some(id))
    ensures r.Some? ==> r.value == Db(db.rows[id := s], db.nextId)
    ensures r.Some? && UniqueIp(db.rows) ==> UniqueIp(r.value.rows)
    ensures r.Some? && UniqueProviderName(db.rows) ==> UniqueProviderName(r.value.rows)
  {
    if IpTaken(db.rows, s.ipAddress, Some(id))
       || ProviderNameTaken(db.rows, s.provider, s.name, Some(id)) then None
    else Some(Db(db.rows[id := s], db.nextId))
  }
}
