/** The metadata records drivers register at link time, and the dependency graph they describe. */
module Drivers {
  import opened Digraphs

  const MAX_DRIVERS: nat := 128
  const MAX_REGISTERED_CAPABILITIES: nat := 256

  datatype Error =
    | Unspecified | CapacityExceeded | InvalidRecord | DuplicateDriver | DuplicateDriverEntry | DuplicateDriverExit
    | UnknownDriver | UnknownDriverDependency | MissingCapabilityProvider | MultipleCapabilityProviders
    | DependencyCycle | CapabilityResolveFailed

  datatype Outcome = Done | Failed(error: Error)

  /** A pointer to a driver identity: null, an identity without a name, or a named one. */
  datatype DriverRef = NoDriver | Unnamed | Driver(name: string)

  /** A pointer to a capability key. */
  datatype KeyRef = NoKey | UnnamedKey | Key(name: string, single: bool)

  /** A driver with its entry or exit function, `present` when that function is not null. */
  datatype EntryRecord = EntryRecord(driver: DriverRef, present: bool)

  datatype ProvideRecord = ProvideRecord(driver: DriverRef, key: KeyRef, present: bool)

  datatype NeedRecord = NeedRecord(driver: DriverRef, dependency: DriverRef)

  datatype UseRecord = UseRecord(driver: DriverRef, key: KeyRef)

  datatype Records = Records(
    drivers: seq<DriverRef>, inits: seq<EntryRecord>, exits: seq<EntryRecord>,
    offers: seq<ProvideRecord>, needs: seq<NeedRecord>, uses: seq<UseRecord>)

  predicate SameKey(a: KeyRef, b: KeyRef) {
    a.Key? && b.Key? && a.name == b.name
  }

  /** `ref` names the `a`-th driver. */
  predicate Is(r: Records, ref: DriverRef, a: nat) {
    a < |r.drivers| && ref.Driver? && r.drivers[a] == ref
  }

  ghost predicate Registered(r: Records, ref: DriverRef) {
    exists a: nat :: Is(r, ref, a)
  }

  ghost function Providers(r: Records, key: KeyRef): set<nat> {
    set j: nat | j < |r.offers| && SameKey(r.offers[j].key, key)
  }

  ghost predicate Overprovided(r: Records, key: KeyRef) {
    key.Key? && key.single && |Providers(r, key)| > 1
  }

  predicate SameDriver(a: DriverRef, b: DriverRef) {
    a.Driver? && a == b
  }

  predicate Incomplete(o: ProvideRecord) {
    o.driver.NoDriver? || !o.key.Key? || !o.present
  }

  ghost predicate Malformed(r: Records) {
    || (exists i :: 0 <= i < |r.drivers| && !r.drivers[i].Driver?)
    || (exists i :: 0 <= i < |r.inits| && (r.inits[i].driver.NoDriver? || !r.inits[i].present))
    || (exists i :: 0 <= i < |r.exits| && (r.exits[i].driver.NoDriver? || !r.exits[i].present))
    || (exists i :: 0 <= i < |r.offers| && Incomplete(r.offers[i]))
    || (exists i :: 0 <= i < |r.needs| && (r.needs[i].driver.NoDriver? || !r.needs[i].dependency.Driver?))
    || (exists i :: 0 <= i < |r.uses| && (r.uses[i].driver.NoDriver? || !r.uses[i].key.Key?))
  }

  ghost predicate EntryComplete(e: EntryRecord) {
    !e.driver.NoDriver? && e.present
  }

  ghost predicate NeedComplete(o: NeedRecord) {
    !o.driver.NoDriver? && o.dependency.Driver?
  }

  ghost predicate UseComplete(o: UseRecord) {
    !o.driver.NoDriver? && o.key.Key?
  }

  /** A complete record whose driver is not registered. */
  ghost predicate Stray(r: Records) {
    || (exists i :: 0 <= i < |r.inits| && EntryComplete(r.inits[i]) && !Registered(r, r.inits[i].driver))
    || (exists i :: 0 <= i < |r.exits| && EntryComplete(r.exits[i]) && !Registered(r, r.exits[i].driver))
    || (exists i :: 0 <= i < |r.offers| && !Incomplete(r.offers[i]) && !Registered(r, r.offers[i].driver))
    || (exists i :: 0 <= i < |r.needs| && NeedComplete(r.needs[i]) && !Registered(r, r.needs[i].driver))
    || (exists i :: 0 <= i < |r.uses| && UseComplete(r.uses[i]) && !Registered(r, r.uses[i].driver))
  }

  ghost predicate Twice(entries: seq<EntryRecord>) {
    exists i, j :: 0 <= i < j < |entries| && SameDriver(entries[i].driver, entries[j].driver)
  }

  /** What is wrong with a set of records when its registry is refused with this error. A record is
      looked at for completeness first, then for its driver, then for what it names. */
  ghost predicate Defect(r: Records, e: Error) {
    match e
    case InvalidRecord => Malformed(r)
    case CapacityExceeded => |r.drivers| > MAX_DRIVERS
    case DuplicateDriver => exists i, j :: 0 <= i < j < |r.drivers| && SameDriver(r.drivers[i], r.drivers[j])
    case DuplicateDriverEntry => Twice(r.inits)
    case DuplicateDriverExit => Twice(r.exits)
    case UnknownDriver => Stray(r)
    case UnknownDriverDependency =>
      exists i :: 0 <= i < |r.needs| && NeedComplete(r.needs[i]) && Registered(r, r.needs[i].driver) &&
                  !Registered(r, r.needs[i].dependency)
    case MissingCapabilityProvider =>
      exists i :: 0 <= i < |r.uses| && UseComplete(r.uses[i]) && Registered(r, r.uses[i].driver) &&
                  Providers(r, r.uses[i].key) == {}
    case MultipleCapabilityProviders =>
      || (exists i :: 0 <= i < |r.offers| && !Incomplete(r.offers[i]) && Registered(r, r.offers[i].driver) &&
                      Overprovided(r, r.offers[i].key))
      || (exists i :: 0 <= i < |r.uses| && UseComplete(r.uses[i]) && Registered(r, r.uses[i].driver) &&
                      Overprovided(r, r.uses[i].key))
    case _ => false
  }

  ghost predicate Registrable(r: Records) {
    forall e: Error :: !Defect(r, e)
  }

  // ---- the dependency graph, on driver positions ----

  ghost predicate NeedsBy(r: Records, i: nat, a: nat, b: nat) {
    i < |r.needs| && Is(r, r.needs[i].driver, a) && Is(r, r.needs[i].dependency, b)
  }

  ghost predicate UsesBy(r: Records, i: nat, j: nat, a: nat, b: nat) {
    && i < |r.uses| && Is(r, r.uses[i].driver, a)
    && j < |r.offers| && SameKey(r.offers[j].key, r.uses[i].key) && Is(r, r.offers[j].driver, b)
  }

  /** Driver `a` depends on driver `b`: by name, or because `b` provides a capability `a` requires. */
  ghost predicate Depends(r: Records, a: nat, b: nat) {
    (exists i: nat :: NeedsBy(r, i, a, b)) || (exists i: nat, j: nat :: UsesBy(r, i, j, a, b))
  }

  ghost function Graph(r: Records): Digraph {
    iset a: nat, b: nat | Depends(r, a, b) :: (a, b)
  }
}
