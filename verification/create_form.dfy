/** The create form: its starting values and the handler that keeps the
    three number inputs at or above their minimum. */
module CreateForm {
  import opened Base
  import opened Numerals
  import opened Schema
  import opened ServerModel
  import opened Validation

  /** The minimum each number input passes to its handler. */
  const CpuFloor: int := 1
  const RamFloor: int := 512
  const StorageFloor: int := 10

  /** `handleNumberChange(field, minValue)`: the input's text read with
      `parseInt`; text that does not parse, or a value below the minimum,
      is replaced by the minimum. */
  function HandleNumberChange(minValue: int, text: string): (r: int)
    ensures r >= minValue
    ensures JsParseInt(text).None? ==> r == minValue
    ensures JsParseInt(text).Some? && JsParseInt(text).value < minValue ==> r == minValue
    ensures JsParseInt(text).Some? && JsParseInt(text).value >= minValue ==> r == JsParseInt(text).value
  {
    match JsParseInt(text)
    case None => minValue
    case Some(v) => if v < minValue then minValue else v
  }

  /** The input then shows the stored number, and handling that text again
      stores the same number: the handler is idempotent. */
  lemma HandleNumberChangeIdempotent(minValue: int, text: string)
    ensures var r := HandleNumberChange(minValue, text);
            HandleNumberChange(minValue, Decimal(r)) == r
  {
    ParseDecimal(HandleNumberChange(minValue, text));
  }

  /** A number the input shows unchanged, when it is at least the minimum. */
  lemma HandleNumberChangeKeeps(minValue: int, n: int)
    ensures HandleNumberChange(minValue, Decimal(n)) == if n < minValue then minValue else n
  {
    ParseDecimal(n);
  }

  /** `defaultValues` of the form. */
  datatype Defaults = Defaults(provider: string, status: string, cpuCores: int, ramMb: int, storageGb: int)

  const FormDefaults: Defaults := Defaults("other", "inactive", 1, 512, 10)

  /** The form starts at the minimum of each number input, which is also the
      smallest value the create request accepts; the provider and status it
      starts with are the column defaults of the table. */
  lemma DefaultsAgree()
    ensures FormDefaults.cpuCores == CpuFloor == MinCpu
    ensures FormDefaults.ramMb == RamFloor == MinRam
    ensures FormDefaults.storageGb == StorageFloor == MinStorage
    ensures FormDefaults.provider == ProviderName(DefaultProvider)
    ensures FormDefaults.status == StatusName(DefaultStatus)
  {
  }

  /** The body the form posts: the two text inputs, the selects and the three
      numbers. */
  function FormInput(name: string, ip: string, d: Defaults): Input {
    map["name" := Str(name), "ip_address" := Str(ip), "provider" := Str(d.provider),
        "status" := Str(d.status), "cpu_cores" := Int(d.cpuCores), "ram_mb" := Int(d.ramMb),
        "storage_gb" := Int(d.storageGb)]
  }

  /** Submitting the untouched form with a usable name and a free ipv4
      address is accepted, with the default provider and status and the
      smallest sizes. */
  lemma DefaultFormAccepted(name: string, ip: string, env: Env)
    requires !IsBlank(name) && |name| <= MaxNameLength
    requires !IsBlank(ip) && env.isIpv4(ip) && |ip| <= MaxIpLength && !IpTaken(env.rows, ip, None)
    ensures ValidateStore(FormInput(name, ip, FormDefaults), env)
            == Success(NewServer(name, ip, Provider.Other, Some(Typed(Inactive)), 1, 512, 10))
  {
    StoreAccepts(FormInput(name, ip, FormDefaults), NewServer(name, ip, Provider.Other, Some(Typed(Inactive)), 1, 512, 10), env);
  }

  /** Whatever is typed, a number the handlers store is never below what the
      create request accepts. */
  lemma HandledNumbersMeetMinimum(cpu: string, ram: string, storage: string)
    ensures HandleNumberChange(CpuFloor, cpu) >= MinCpu
    ensures HandleNumberChange(RamFloor, ram) >= MinRam
    ensures HandleNumberChange(StorageFloor, storage) >= MinStorage
  {
  }
}
