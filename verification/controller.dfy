/** The write endpoints of the server controller: create (`store`), update
    with its optimistic version check, `destroy` and `bulkDelete`. Each takes
    the table and returns the table after the request together with the
    response, which is either the created or updated data or an error kind. */
module Controller {
  import opened Base
  import opened Numerals
  import opened Schema
  import opened ServerModel
  import opened Validation

  /** The error responses, by the condition that produces them. */
  datatype Error =
    | NotFound                              // 404 not_found
    | InvalidRequest                        // 400 invalid_request: no ids to delete
    | ValidationFailed(fields: set<Field>)  // 422: the form request's error bag
    | VersionMismatch                       // 409 version_mismatch
    | DuplicateKey                          // 409: a unique index refused the write
    | ColumnRefused                         // a column refuses its value in strict mode (500 on
                                            // create, 409 on update): too wide, not an enum
                                            // member, not an integer, too long
    | MissingIds(ids: seq<nat>)             // 404 not_found, naming the absent ids

  datatype Outcome<T> = Ok(value: T) | Err(error: Error)

  /** The table after a request, and the response to it. */
  datatype Step<T> = Step(db: Db, out: Outcome<T>)

  /** The bounds every row satisfies because every write is validated first. */
  ghost predicate WithinRules(s: Server) {
    && (|s.name| <= MaxNameLength || IsBlank(s.name)) && |s.name| <= NameColumnLength
    && |s.ipAddress| <= MaxIpLength
    && MinCpu <= s.cpuCores <= MaxCpu
    && MinRam <= s.ramMb <= MaxRam
    && MinStorage <= s.storageGb <= MaxStorage
    && s.version >= InitialVersion
  }

  /** The table invariant: ids below the counter, both unique indexes, and the
      validated bounds on every row. */
  ghost predicate Valid(db: Db) {
    && WellFormed(db)
    && UniqueIp(db.rows)
    && UniqueProviderName(db.rows)
    && forall id | id in db.rows :: WithinRules(db.rows[id])
  }

  /** No row that survives a request has a smaller version afterwards. */
  ghost predicate VersionsKept(db: Db, db': Db) {
    forall id | id in db.rows && id in db'.rows :: db.rows[id].version <= db'.rows[id].version
  }

  /** A create request whose `status` passed validation as blank text, which
      the enum column refuses. */
  predicate BlankStatus(n: NewServer) {
    n.status.Some? && n.status.value.Blank?
  }

  /** The row `Server::create` inserts: the validated attributes, the column
      defaults for what was not supplied, and the clock for both timestamps. */
  function Created(n: NewServer, now: nat): (s: Server)
    requires !BlankStatus(n)
    ensures s.version == InitialVersion == 1
    ensures n.status.None? ==> s.status == DefaultStatus == Inactive
    ensures n.status.Some? ==> s.status == n.status.value.value
    ensures s.name == n.name && s.ipAddress == n.ipAddress && s.provider == n.provider
    ensures s.cpuCores == n.cpuCores && s.ramMb == n.ramMb && s.storageGb == n.storageGb
    ensures s.createdAt == now && s.updatedAt == now
  {
    Server(n.name, n.ipAddress, n.provider,
           if n.status.Some? then n.status.value.value else DefaultStatus,
           n.cpuCores, n.ramMb, n.storageGb, InitialVersion, now, now)
  }

  /** A row created from a passing create request is within the rules. */
  lemma CreatedWithinRules(input: Input, n: NewServer, env: Env, now: nat)
    requires StoreInputOf(input, n, env) && !BlankStatus(n)
    ensures WithinRules(Created(n, now))
  {
    assert StoreFieldOf(input, n, env, NameKey) && StoreFieldOf(input, n, env, IpKey);
  }

  /** `store`: validate, then insert. The ip address was checked by
      validation, so the only unique index the insert can still trip over is
      (provider, name); a blank `status`, which validation lets through, is
      refused by the enum column. On success the response carries the new id. */
  function Create(db: Db, input: Input, isIpv4: string -> bool, now: nat): (r: Step<nat>)
    requires WellFormed(db)
    ensures r.out.Err? ==> r.db == db
    ensures r.out.Err? ==> r.out.error.ValidationFailed? || r.out.error in {DuplicateKey, ColumnRefused}
    ensures var v := ValidateStore(input, Env(db.rows, isIpv4));
            (r.out.Err? && r.out.error.ValidationFailed? <==> v.Failure?)
            && (v.Failure? ==> r.out == Err(ValidationFailed(v.error)))
    ensures var v := ValidateStore(input, Env(db.rows, isIpv4));
            r.out == Err(ColumnRefused) <==> v.Success? && BlankStatus(v.value)
    ensures var v := ValidateStore(input, Env(db.rows, isIpv4));
            r.out == Err(DuplicateKey) ==>
              v.Success? && !BlankStatus(v.value)
              && ProviderNameTaken(db.rows, v.value.provider, v.value.name, None)
    ensures var v := ValidateStore(input, Env(db.rows, isIpv4));
            r.out.Ok? ==>
              v.Success? && !BlankStatus(v.value) && r.out.value !in db.rows
              && r.db.rows == db.rows[r.out.value := Created(v.value, now)]
    ensures Valid(db) ==> Valid(r.db) && VersionsKept(db, r.db)
  {
    match ValidateStore(input, Env(db.rows, isIpv4))
    case Failure(fields) => Step(db, Err(ValidationFailed(fields)))
    case Success(n) =>
      if BlankStatus(n) then Step(db, Err(ColumnRefused))
      else
        var row := Created(n, now);
        CreatedWithinRules(input, n, Env(db.rows, isIpv4), now);
        match Insert(db, row)
        case None => Step(db, Err(DuplicateKey))
        case Some((db', id)) => Step(db', Ok(id))
  }

  /** Validated changes that the columns accept keep a row within the rules:
      text that skipped its length rule is blank, and stays blank when the
      column cuts it. */
  lemma FillWithinRules(s: Server, input: Input, id: nat, d: UpdateData, env: Env, version: U32, now: nat)
    requires UpdateInputOf(input, id, d, env) && Storable(d.changes) && version >= s.version
    ensures WithinRules(s) ==> WithinRules(Fill(s, ToPatch(d.changes), version, now))
  {
    var c := d.changes;
    if c.name.Some? && IsBlank(c.name.value) {
      var n := c.name.value;
      var w := ColumnText(n, NameColumnLength).value;
      assert forall i | 0 <= i < |w| :: w[i] == n[i];
    }
  }

  /** `(int)$data['version']`: the number sent, or the cast of the blank text. */
  function Claim(e: Entry<int>): int {
    match e
    case Typed(n) => n
    case Blank(t) => PhpIntCast(t)
  }

  /** What `update` does once the input has passed validation: the optimistic
      version check on the claimed version cast to an integer, then one
      `UPDATE`, which fails when the incremented version does not fit the
      32-bit column or another column refuses its value, and which the unique
      indexes may still refuse. */
  function ApplyUpdate(db: Db, id: nat, d: UpdateData, now: nat): (r: Step<Server>)
    requires id in db.rows
    ensures r.out.Err? ==> r.db == db
    ensures r.out.Err? ==> r.out.error in {VersionMismatch, ColumnRefused, DuplicateKey}
    ensures r.out == Err(VersionMismatch) <==>
              d.version.Some? && Claim(d.version.value) != db.rows[id].version
    ensures r.out == Err(ColumnRefused) <==>
              (d.version.Some? ==> Claim(d.version.value) == db.rows[id].version)
              && (db.rows[id].version == MaxU32 || !Storable(d.changes))
    ensures r.out.Ok? ==>
              && (d.version.Some? ==> Claim(d.version.value) == db.rows[id].version)
              && Storable(d.changes)
              && r.out.value.version == db.rows[id].version + 1
              && r.out.value == Fill(db.rows[id], ToPatch(d.changes), db.rows[id].version + 1, now)
              && r.db == Db(db.rows[id := r.out.value], db.nextId)
    ensures r.out == Err(DuplicateKey) ==>
              db.rows[id].version < MaxU32 && Storable(d.changes)
              && var s := Fill(db.rows[id], ToPatch(d.changes), db.rows[id].version + 1, now);
                 ProviderNameTaken(db.rows, s.provider, s.name, Some(id))
                 || IpTaken(db.rows, s.ipAddress, Some(id))
  {
    var current := db.rows[id];
    if d.version.Some? && Claim(d.version.value) != current.version then Step(db, Err(VersionMismatch))
    else if current.version + 1 > MaxU32 || !Storable(d.changes) then Step(db, Err(ColumnRefused))
    else
      var s := Fill(current, ToPatch(d.changes), current.version + 1, now);
      match Write(db, id, s)
      case None => Step(db, Err(DuplicateKey))
      case Some(db') => Step(db', Ok(s))
  }

  /** `update`: validate ("sometimes" rules, the row's own ip address allowed),
      refuse a supplied version that differs from the stored one, then write
      the supplied attributes with the version advanced by one -- whether or
      not the client sent a version. The version column is 32 bits wide. */
  function Update(db: Db, id: nat, input: Input, isIpv4: string -> bool, now: nat): (r: Step<Server>)
    ensures id !in db.rows ==> r == Step(db, Err(NotFound))
    ensures id in db.rows ==>
              var v := ValidateUpdate(input, id, Env(db.rows, isIpv4));
              && (v.Failure? ==> r == Step(db, Err(ValidationFailed(v.error))))
              && (v.Success? ==> r == ApplyUpdate(db, id, v.value, now))
    ensures r.out.Err? ==> r.db == db
    ensures r.out.Ok? ==>
              && r.db.rows.Keys == db.rows.Keys && r.db.nextId == db.nextId
              && r.db.rows[id] == r.out.value
              && (forall k | k in db.rows && k != id :: r.db.rows[k] == db.rows[k])
  {
    if id !in db.rows then Step(db, Err(NotFound))
    else
      match ValidateUpdate(input, id, Env(db.rows, isIpv4))
      case Failure(fields) => Step(db, Err(ValidationFailed(fields)))
      case Success(d) => ApplyUpdate(db, id, d, now)
  }

  /** An update keeps the table invariant and never lowers a version. */
  lemma UpdateKeepsInvariant(db: Db, id: nat, input: Input, isIpv4: string -> bool, now: nat)
    requires Valid(db)
    ensures Valid(Update(db, id, input, isIpv4, now).db)
    ensures VersionsKept(db, Update(db, id, input, isIpv4, now).db)
  {
    if id in db.rows {
      var env := Env(db.rows, isIpv4);
      var v := ValidateUpdate(input, id, env);
      if v.Success? {
        ApplyKeepsInvariant(db, id, input, v.value, env, now);
      }
    }
  }

  /** Applying a validated patch keeps the table invariant and never lowers
      a version. */
  lemma ApplyKeepsInvariant(db: Db, id: nat, input: Input, d: UpdateData, env: Env, now: nat)
    requires Valid(db) && id in db.rows && UpdateInputOf(input, id, d, env)
    ensures Valid(ApplyUpdate(db, id, d, now).db)
    ensures VersionsKept(db, ApplyUpdate(db, id, d, now).db)
  {
    var r := ApplyUpdate(db, id, d, now);
    if r.out.Ok? {
      FillWithinRules(db.rows[id], input, id, d, env, db.rows[id].version + 1, now);
      assert Write(db, id, r.out.value) == Some(r.db);
    }
  }

  /** The body the edit form sends back: the record as `show` returned it,
      `id` and `version` included. The timestamps it also carries have no
      rule, so validation ignores them and they are left out here. */
  function ResourceInput(id: nat, s: Server): Input {
    map["id" := Int(id), "name" := Str(s.name), "ip_address" := Str(s.ipAddress),
        "provider" := Str(ProviderName(s.provider)), "status" := Str(StatusName(s.status)),
        "cpu_cores" := Int(s.cpuCores), "ram_mb" := Int(s.ramMb), "storage_gb" := Int(s.storageGb),
        "version" := Int(s.version)]
  }

  /** What validation makes of the edit form's body: every attribute
      supplied, and the stored version. */
  function ResourceData(s: Server): UpdateData {
    UpdateData(Changes(Some(s.name), Some(s.ipAddress), Some(Typed(s.provider)), Some(Typed(s.status)),
                       Some(Typed(s.cpuCores as int)), Some(Typed(s.ramMb as int)), Some(Typed(s.storageGb as int))),
               Some(Typed(s.version as int)))
  }

  /** The edit form's body for a row of a valid table passes update
      validation -- its own ip address is not a clash -- and decodes to the
      whole record. */
  lemma ResourceAccepted(db: Db, id: nat, isIpv4: string -> bool)
    requires Valid(db) && id in db.rows && isIpv4(db.rows[id].ipAddress)
    ensures ValidateUpdate(ResourceInput(id, db.rows[id]), id, Env(db.rows, isIpv4))
            == Success(ResourceData(db.rows[id]))
  {
    var s := db.rows[id];
    var env := Env(db.rows, isIpv4);
    assert !IpTaken(db.rows, s.ipAddress, Some(id));
    assert UpdateInputOf(ResourceInput(id, s), id, ResourceData(s), env);
    UpdateAccepts(ResourceInput(id, s), id, ResourceData(s), env);
  }

  /** Writing a row's own record back over it only advances the version and
      touches the update time. */
  lemma ResourceApplies(db: Db, id: nat, now: nat)
    requires Valid(db) && id in db.rows && db.rows[id].version < MaxU32
    ensures var s := db.rows[id];
            var s' := s.(version := s.version + 1, updatedAt := now);
            ApplyUpdate(db, id, ResourceData(s), now) == Step(Db(db.rows[id := s'], db.nextId), Ok(s'))
  {
    var s := db.rows[id];
    var filled := Fill(s, ToPatch(ResourceData(s).changes), s.version + 1, now);
    assert filled == s.(version := s.version + 1, updatedAt := now);
    assert !ProviderNameTaken(db.rows, filled.provider, filled.name, Some(id));
    assert !IpTaken(db.rows, filled.ipAddress, Some(id));
    assert ApplyUpdate(db, id, ResourceData(s), now).out.Ok?;
  }

  /** Saving the edit form unchanged succeeds on a valid table: the row comes
      back with only its version advanced and its update time touched. (The
      stored ip address must still pass the ipv4 check, and the version must
      have room to grow.) */
  lemma ResubmitSucceeds(db: Db, id: nat, isIpv4: string -> bool, now: nat)
    requires Valid(db) && id in db.rows
    requires isIpv4(db.rows[id].ipAddress) && db.rows[id].version < MaxU32
    ensures var s := db.rows[id];
            var s' := s.(version := s.version + 1, updatedAt := now);
            Update(db, id, ResourceInput(id, s), isIpv4, now) == Step(Db(db.rows[id := s'], db.nextId), Ok(s'))
  {
    ResourceAccepted(db, id, isIpv4);
    ResourceApplies(db, id, now);
  }

  /** A replayed update is refused: once an update that named a version has
      gone through, sending the same request again meets the advanced
      version and gets `version_mismatch`, leaving the table as it is. */
  lemma StaleVersionRejected(db: Db, id: nat, input: Input, isIpv4: string -> bool, now: nat, later: nat)
    requires id in db.rows && "version" in input
    requires Update(db, id, input, isIpv4, now).out.Ok?
    ensures var db' := Update(db, id, input, isIpv4, now).db;
            Update(db', id, input, isIpv4, later) == Step(db', Err(VersionMismatch))
  {
    var env := Env(db.rows, isIpv4);
    var d := ValidateUpdate(input, id, env).value;
    var db' := Update(db, id, input, isIpv4, now).db;
    var env' := Env(db'.rows, isIpv4);
    assert db'.rows == db.rows[id := db'.rows[id]];
    UpdateInputOfOwnRow(input, id, d, db.rows, db'.rows[id], isIpv4);
    UpdateAccepts(input, id, d, env');
  }

  /** A blank `version` passes validation, but `(int)` reads it as 0, which
      no row of a valid table holds: the update is a version mismatch and
      changes nothing. */
  lemma BlankVersionMismatches(db: Db, id: nat, input: Input, isIpv4: string -> bool, now: nat)
    requires Valid(db) && id in db.rows && "version" in input && IsBlankText(input["version"])
    requires ValidateUpdate(input, id, Env(db.rows, isIpv4)).Success?
    ensures Update(db, id, input, isIpv4, now) == Step(db, Err(VersionMismatch))
  {
    var d := ValidateUpdate(input, id, Env(db.rows, isIpv4)).value;
    assert UpdateFieldOf(input, id, d, Env(db.rows, isIpv4), VersionKey);
    BlankCastsToZero(d.version.value.text);
  }

  /** A `version` beyond the 64-bit range reaches the validator as a float,
      which fails `integer`: the update is refused by validation, naming only
      `version`, before any version check. */
  lemma WideVersionRefused(db: Db, id: nat, n: int, isIpv4: string -> bool, now: nat)
    requires id in db.rows && !IsPhpInt(n)
    ensures Update(db, id, map["version" := Int(n)], isIpv4, now) == Step(db, Err(ValidationFailed({VersionKey})))
  {
    var input: Input := map["version" := Int(n)];
    var env := Env(db.rows, isIpv4);
    forall f | f in AllFields ensures !FieldOk(UpdateRequest(id), f, input, env) <==> f == VersionKey {
      FieldOkIff(UpdateRequest(id), f, input, env);
    }
    assert FailedFields(UpdateRequest(id), input, env) == {VersionKey};
  }

  /** An update that sends only an empty `ip_address` passes validation,
      which runs nothing but `required` on blank text, and the empty address
      is written whenever no other row holds it. */
  lemma BlankAddressWritten(db: Db, id: nat, isIpv4: string -> bool, now: nat)
    requires Valid(db) && id in db.rows && db.rows[id].version < MaxU32
    requires !IpTaken(db.rows, "", Some(id))
    ensures var r := Update(db, id, map["ip_address" := Str("")], isIpv4, now);
            r.out.Ok? && r.out.value.ipAddress == "" && r.out.value.name == db.rows[id].name
  {
    var input: Input := map["ip_address" := Str("")];
    var d := UpdateData(Changes(None, Some(""), None, None, None, None, None), None);
    var env := Env(db.rows, isIpv4);
    assert UpdateFieldOf(input, id, d, env, IpKey);
    UpdateAccepts(input, id, d, env);
    var s := Fill(db.rows[id], ToPatch(d.changes), db.rows[id].version + 1, now);
    assert !ProviderNameTaken(db.rows, s.provider, s.name, Some(id));
  }

  /** `destroy`: an absent id is reported and changes nothing; a present one
      is removed, and no other row is touched. */
  function Destroy(db: Db, id: nat): (r: Step<()>)
    ensures r.out.Err? <==> id !in db.rows
    ensures r.out.Err? ==> r.out.error == NotFound && r.db == db
    ensures r.out.Ok? ==> r.db.rows.Keys == db.rows.Keys - {id} && r.db.nextId == db.nextId
    ensures forall k | k in r.db.rows :: k in db.rows && r.db.rows[k] == db.rows[k]
    ensures Valid(db) ==> Valid(r.db) && VersionsKept(db, r.db)
  {
    if id !in db.rows then Step(db, Err(NotFound))
    else Step(Db(db.rows - {id}, db.nextId), Ok(()))
  }

  /** The requested ids with no row, in request order and with repeats kept
      (what `array_values(array_diff($ids, $existingIds))` yields). */
  function MissingFrom(ids: seq<nat>, rows: map<nat, Server>): (m: seq<nat>)
    ensures |m| <= |ids|
    ensures forall x :: x in m <==> x in ids && x !in rows
    ensures |m| == 0 <==> forall i | 0 <= i < |ids| :: ids[i] in rows
  {
    if |ids| == 0 then []
    else (if ids[0] in rows then [] else [ids[0]]) + MissingFrom(ids[1..], rows)
  }

  lemma RemoveSubset(keys: set<nat>, s: set<nat>)
    requires s <= keys
    ensures |keys - s| == |keys| - |s|
  {
    assert keys == (keys - s) + s;
  }

  /** `bulkDelete`: no ids is a bad request; if any id has no row the whole
      batch is refused and the absent ids are named; otherwise exactly the
      requested rows are removed and the count is the number of distinct ids. */
  function BulkDelete(db: Db, ids: seq<nat>): (r: Step<nat>)
    ensures |ids| == 0 ==> r == Step(db, Err(InvalidRequest))
    ensures r.out.Err? ==> r.db == db
    ensures |ids| > 0 && (exists i | 0 <= i < |ids| :: ids[i] !in db.rows) ==>
              r.out == Err(MissingIds(MissingFrom(ids, db.rows))) && |MissingFrom(ids, db.rows)| > 0
    ensures |ids| > 0 && (forall i | 0 <= i < |ids| :: ids[i] in db.rows) ==> r.out.Ok?
    ensures r.out.Ok? ==>
              && |ids| > 0 && (forall i | 0 <= i < |ids| :: ids[i] in db.rows)
              && r.db.rows.Keys == db.rows.Keys - Items(ids)
              && (forall k | k in r.db.rows :: r.db.rows[k] == db.rows[k])
              && r.out.value == |Items(ids)|
              && r.out.value == |db.rows| - |r.db.rows|
    ensures Valid(db) ==> Valid(r.db) && VersionsKept(db, r.db)
  {
    if |ids| == 0 then Step(db, Err(InvalidRequest))
    else
      var missing := MissingFrom(ids, db.rows);
      if |missing| > 0 then Step(db, Err(MissingIds(missing)))
      else
        var doomed := Items(ids);
        var rows' := db.rows - doomed;
        assert doomed <= db.rows.Keys;
        RemoveSubset(db.rows.Keys, doomed);
        assert rows'.Keys == db.rows.Keys - doomed;
        Step(Db(rows', db.nextId), Ok(|doomed|))
  }
}
