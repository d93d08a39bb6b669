/**
 * The `import-all-systems` command: resolve the hash algorithm once, then
 * import the given ROM files into every system of the catalogue, one system
 * after the other, stopping at the first failure.
 *
 * The database is a value snapshot (`Database`), `import_system` is an
 * oracle from its arguments to an outcome, and everything the command does
 * that can be observed (queries, progress lines, import calls) is recorded
 * as an `Event` in a trace.
 */
module ImportAllSystems {
  import opened Wrappers

  // ---------------------------------------------------------------------
  // Hash-algorithm resolution
  // ---------------------------------------------------------------------

  /** The digest used to fingerprint ROM files. */
  datatype HashAlgorithm = Crc | Md5

  /** The textual name of a hash algorithm, as accepted on the command line
      and as stored in the `HASH_ALGORITHM` setting. */
  function Name(h: HashAlgorithm): string
  {
    match h
    case Crc => "CRC"
    case Md5 => "MD5"
  }

  /** The error type of the command: a message, as `bail!` produces. */
  datatype Error = Error(message: string)

  /** The error raised when no hash algorithm can be resolved. */
  const NotPossible := Error("Not possible")

  /** The key of the persisted setting consulted on the fall-through path. */
  const HashSettingKey := "HASH_ALGORITHM"

  /** True when `s` is the name of some hash algorithm. */
  predicate Recognised(s: Option<string>)
  {
    exists h: HashAlgorithm :: s == Some(Name(h))
  }

  /** The `Some("CRC") => Crc, Some("MD5") => Md5, _ => ...` mapping that
      both the explicit value and the persisted value go through. */
  function ParseHash(s: Option<string>): (r: Option<HashAlgorithm>)
    ensures forall h :: r == Some(h) <==> s == Some(Name(h))
    ensures r.Some? <==> Recognised(s)
  {
    if s == Some("CRC") then Some(Crc)
    else if s == Some("MD5") then Some(Md5)
    else None
  }

  /** True when the explicit `--hash` value does not decide the algorithm,
      so that the persisted setting has to be read. */
  predicate NeedsPersisted(explicit: Option<string>)
  {
    !Recognised(explicit)
  }

  /** Resolve the hash algorithm from the explicit `--hash` value and the
      persisted `HASH_ALGORITHM` value: a recognised explicit value wins,
      otherwise a recognised persisted value is used, otherwise the run
      fails with "Not possible". */
  function Resolve(explicit: Option<string>, persisted: Option<string>): (r: Result<HashAlgorithm, Error>)
    ensures r.Success? <==> Recognised(explicit) || Recognised(persisted)
    ensures forall h :: r == Success(h) <==>
      (explicit == Some(Name(h)) || (NeedsPersisted(explicit) && persisted == Some(Name(h))))
    ensures r.Failure? ==> r.error == NotPossible
  {
    match ParseHash(explicit)
    case Some(h) => Success(h)
    case None =>
      match ParseHash(persisted)
      case Some(h) => Success(h)
      case None => Failure(NotPossible)
  }

  /** A recognised explicit value decides the result whatever the persisted
      setting holds, absent or garbled included. */
  lemma ResolveIgnoresPersisted(explicit: Option<string>, p: Option<string>, q: Option<string>)
    requires !NeedsPersisted(explicit)
    ensures Resolve(explicit, p) == Resolve(explicit, q)
    ensures Resolve(explicit, p).Success? && explicit == Some(Name(Resolve(explicit, p).value))
  {
  }

  // ---------------------------------------------------------------------
  // The catalogue and the collaborators
  // ---------------------------------------------------------------------

  type SystemId = int
  type Path = string

  /** A system of the catalogue: its database id and its display name. */
  datatype System = System(id: SystemId, name: string)

  /** A system's header (bytes to skip and the like); only its identity
      matters here. */
  type Header(==)

  /** The part of the SQLite database the command reads: the settings table
      (a key present with a NULL value maps to `None`), the systems in the
      order `find_systems` returns them, and the headers by system id. */
  datatype Database = Database(
    settings: map<string, Option<string>>,
    systems: seq<System>,
    headers: map<SystemId, Header>)

  /** `find_header_by_system_id`: a system without a header gets `None`. */
  function HeaderOf(db: Database, id: SystemId): Option<Header>
  {
    if id in db.headers then Some(db.headers[id]) else None
  }

  /** The value of the `HASH_ALGORITHM` setting (`None` when unset). */
  function PersistedHash(db: Database): Option<string>
  {
    if HashSettingKey in db.settings then db.settings[HashSettingKey] else None
  }

  /** The arguments of one `import_system` call. */
  datatype ImportCall = ImportCall(
    system: System,
    header: Option<Header>,
    romfilePaths: seq<Path>,
    hash: HashAlgorithm,
    noTrash: bool)

  /** What `import_system` and the command return: `Ok(())` or an error. */
  type Outcome = Result<(), Error>

  /** `import_system`, seen only through its outcome. */
  type ImportOracle = ImportCall -> Outcome

  /** What the command does that can be observed, in order. */
  datatype Event =
    | ReadSetting(key: string)     // find_setting_by_key
    | FindSystems                  // find_systems
    | FindHeader(systemId: SystemId) // find_header_by_system_id
    | Println(systemName: string)  // the progress line `Import System "<name>"`
    | Import(call: ImportCall)     // import_system

  /** What stays the same for every system of one run. */
  datatype RunArgs = RunArgs(romfilePaths: seq<Path>, hash: HashAlgorithm, noTrash: bool)

  // ---------------------------------------------------------------------
  // Specification of the per-system loop
  // ---------------------------------------------------------------------

  /** The `import_system` call made for system `s`. */
  function CallFor(db: Database, args: RunArgs, s: System): ImportCall
  {
    ImportCall(s, HeaderOf(db, s.id), args.romfilePaths, args.hash, args.noTrash)
  }

  /** The events of one iteration of the loop. */
  function Step(db: Database, args: RunArgs, s: System): seq<Event>
  {
    [FindHeader(s.id), Println(s.name), Import(CallFor(db, args, s))]
  }

  /** The events of the iterations for `ss`, one after the other. */
  function Events(db: Database, args: RunArgs, ss: seq<System>): (r: seq<Event>)
    ensures |r| == 3 * |ss|
  {
    if ss == [] then [] else Step(db, args, ss[0]) + Events(db, args, ss[1..])
  }

  /** The index of the first system whose import fails, or `|ss|` when all
      of them succeed. */
  function FirstFailure(db: Database, args: RunArgs, importSystem: ImportOracle, ss: seq<System>): (k: nat)
    ensures k <= |ss|
    ensures forall j :: 0 <= j < k ==> importSystem(CallFor(db, args, ss[j])).Success?
    ensures k < |ss| ==> importSystem(CallFor(db, args, ss[k])).Failure?
  {
    if ss == [] then 0
    else if importSystem(CallFor(db, args, ss[0])).Failure? then 0
    else 1 + FirstFailure(db, args, importSystem, ss[1..])
  }

  /** How many systems a run reaches when the first failure is at `k`. */
  function Reached(k: nat, n: nat): nat
  {
    if k < n then k + 1 else n
  }

  /** The imports a trace contains, in order. */
  function Imports(trace: seq<Event>): seq<ImportCall>
  {
    if trace == [] then []
    else (if trace[0].Import? then [trace[0].call] else []) + Imports(trace[1..])
  }

  /** The import calls for `ss`, one per system, in order. */
  function Calls(db: Database, args: RunArgs, ss: seq<System>): seq<ImportCall>
  {
    seq(|ss|, j requires 0 <= j < |ss| => CallFor(db, args, ss[j]))
  }

  /** The events before the loop: the setting is read only when the
      explicit value does not decide, then the systems are listed. */
  function Preamble(explicit: Option<string>): seq<Event>
  {
    (if NeedsPersisted(explicit) then [ReadSetting(HashSettingKey)] else []) + [FindSystems]
  }

  // ---------------------------------------------------------------------
  // Lemmas about the loop's events
  // ---------------------------------------------------------------------

  /** For every system visited: its header lookup, then its progress line,
      then its import with the header of the same id; systems in order. */
  lemma {:induction false} EventsAt(db: Database, args: RunArgs, ss: seq<System>, j: nat)
    requires j < |ss|
    ensures Events(db, args, ss)[3 * j] == FindHeader(ss[j].id)
    ensures Events(db, args, ss)[3 * j + 1] == Println(ss[j].name)
    ensures Events(db, args, ss)[3 * j + 2] == Import(ImportCall(ss[j], HeaderOf(db, ss[j].id), args.romfilePaths, args.hash, args.noTrash))
  {
    if j > 0 {
      EventsAt(db, args, ss[1..], j - 1);
    }
  }

  /** One more iteration appends that system's events. */
  lemma {:induction false} EventsSnoc(db: Database, args: RunArgs, ss: seq<System>, s: System)
    ensures Events(db, args, ss + [s]) == Events(db, args, ss) + Step(db, args, s)
  {
    if ss == [] {
      assert [s][1..] == [];
    } else {
      assert (ss + [s])[1..] == ss[1..] + [s];
      EventsSnoc(db, args, ss[1..], s);
    }
  }

  /** The loop never reads the setting nor lists the systems again. */
  lemma {:induction false} EventsOnlyPerSystem(db: Database, args: RunArgs, ss: seq<System>)
    ensures ReadSetting(HashSettingKey) !in Events(db, args, ss)
    ensures FindSystems !in Events(db, args, ss)
  {
    if ss != [] {
      EventsOnlyPerSystem(db, args, ss[1..]);
    }
  }

  /** Exactly one import per system, in catalogue order. */
  lemma {:induction false} ImportsOfEvents(db: Database, args: RunArgs, ss: seq<System>)
    ensures Imports(Events(db, args, ss)) == Calls(db, args, ss)
  {
    if ss != [] {
      ImportsOfEvents(db, args, ss[1..]);
      ImportsAppend(Step(db, args, ss[0]), Events(db, args, ss[1..]));
      var s := Step(db, args, ss[0]);
      assert Imports(s) == [CallFor(db, args, ss[0])] by {
        assert s[1..][1..][1..] == [];
        assert Imports(s[1..][1..]) == [CallFor(db, args, ss[0])];
        assert Imports(s[1..]) == [CallFor(db, args, ss[0])];
      }
      assert Calls(db, args, ss) == [CallFor(db, args, ss[0])] + Calls(db, args, ss[1..]);
    }
  }

  /** The imports of a concatenation are the imports of each part. */
  lemma {:induction false} ImportsAppend(a: seq<Event>, b: seq<Event>)
    ensures Imports(a + b) == Imports(a) + Imports(b)
  {
    if a == [] {
      assert a + b == b;
    } else {
      var head := if a[0].Import? then [a[0].call] else [];
      assert (a + b)[0] == a[0];
      assert (a + b)[1..] == a[1..] + b;
      ImportsAppend(a[1..], b);
      calc {
        Imports(a + b);
        head + Imports(a[1..] + b);
        head + (Imports(a[1..]) + Imports(b));
        (head + Imports(a[1..])) + Imports(b);
      }
    }
  }

  // ---------------------------------------------------------------------
  // The command
  // ---------------------------------------------------------------------

  /**
   * What a run does, as a reference definition: when no hash algorithm
   * resolves, only the setting is read and the run fails with "Not
   * possible"; otherwise the systems are listed and visited in order up to
   * and including the first failing import, whose error is the result.
   * A missing `HASH_ALGORITHM` row reads as `None` here; the command
   * itself panics on it, so that case is outside `Run`'s precondition.
   */
  function Expected(
    db: Database,
    romfilePaths: seq<Path>,
    explicitHash: Option<string>,
    noTrash: bool,
    importSystem: ImportOracle): (Outcome, seq<Event>)
  {
    match Resolve(explicitHash, PersistedHash(db))
    case Failure(e) => (Failure(e), [ReadSetting(HashSettingKey)])
    case Success(hash) =>
      var args := RunArgs(romfilePaths, hash, noTrash);
      var k := FirstFailure(db, args, importSystem, db.systems);
      var result := if k < |db.systems| then importSystem(CallFor(db, args, db.systems[k])) else Success(());
      (result, Preamble(explicitHash) + Events(db, args, db.systems[..Reached(k, |db.systems|)]))
  }

  /**
   * The command's `main`: resolve the hash algorithm, reading the
   * `HASH_ALGORITHM` setting only when `--hash` does not decide (the
   * setting's `.unwrap()` is the precondition), then import into every
   * system in catalogue order, stopping at the first failure. Returns the
   * command's result and the trace of what it did.
   */
  method Run(
    db: Database,
    romfilePaths: seq<Path>,
    explicitHash: Option<string>,
    noTrash: bool,
    importSystem: ImportOracle)
    returns (r: Outcome, trace: seq<Event>)
    requires NeedsPersisted(explicitHash) ==> HashSettingKey in db.settings
    ensures (r, trace) == Expected(db, romfilePaths, explicitHash, noTrash, importSystem)
  {
    trace := [];
    var hash: HashAlgorithm;
    match ParseHash(explicitHash) {
      case Some(h) =>
        hash := h;
      case None =>
        trace := [ReadSetting(HashSettingKey)];
        match ParseHash(db.settings[HashSettingKey]) {
          case Some(h) =>
            hash := h;
          case None =>
            return Failure(NotPossible), trace;
        }
    }
    assert Resolve(explicitHash, PersistedHash(db)) == Success(hash);
    var systems := db.systems;
    trace := trace + [FindSystems];
    ghost var args := RunArgs(romfilePaths, hash, noTrash);
    assert trace == Preamble(explicitHash) + Events(db, args, systems[..0]);
    var i := 0;
    while i < |systems|
      invariant i <= |systems|
      invariant forall j :: 0 <= j < i ==> importSystem(CallFor(db, args, systems[j])).Success?
      invariant trace == Preamble(explicitHash) + Events(db, args, systems[..i])
    {
      var system := systems[i];
      var header := HeaderOf(db, system.id);
      trace := trace + [FindHeader(system.id)];
      trace := trace + [Println(system.name)];
      var call := ImportCall(system, header, romfilePaths, hash, noTrash);
      trace := trace + [Import(call)];
      var outcome := importSystem(call);
      LoopStep(db, args, explicitHash, systems, i, trace);
      if outcome.Failure? {
        ExpectedStopsAt(db, romfilePaths, explicitHash, noTrash, importSystem, hash, i);
        return outcome, trace;
      }
      i := i + 1;
    }
    assert systems[..i] == systems;
    ExpectedStopsAt(db, romfilePaths, explicitHash, noTrash, importSystem, hash, i);
    r := Success(());
  }

  /** `Expected` once the first failure is known to be at `i` (or `i` is
      the number of systems and none fails). */
  lemma ExpectedStopsAt(
    db: Database, romfilePaths: seq<Path>, explicitHash: Option<string>, noTrash: bool, importSystem: ImportOracle,
    hash: HashAlgorithm, i: nat)
    requires Resolve(explicitHash, PersistedHash(db)) == Success(hash)
    requires i <= |db.systems|
    requires forall j :: 0 <= j < i ==>
      importSystem(CallFor(db, RunArgs(romfilePaths, hash, noTrash), db.systems[j])).Success?
    requires i < |db.systems| ==>
      importSystem(CallFor(db, RunArgs(romfilePaths, hash, noTrash), db.systems[i])).Failure?
    ensures var args := RunArgs(romfilePaths, hash, noTrash);
      Expected(db, romfilePaths, explicitHash, noTrash, importSystem) ==
      ( if i < |db.systems| then importSystem(CallFor(db, args, db.systems[i])) else Success(()),
        Preamble(explicitHash) + Events(db, args, db.systems[..Reached(i, |db.systems|)]) )
  {
  }

  /** One iteration of `Run`'s loop extends the trace by that system's step. */
  lemma LoopStep(db: Database, args: RunArgs, explicit: Option<string>, systems: seq<System>, i: nat, trace: seq<Event>)
    requires i < |systems|
    requires trace == Preamble(explicit) + Events(db, args, systems[..i])
      + [FindHeader(systems[i].id)] + [Println(systems[i].name)] + [Import(CallFor(db, args, systems[i]))]
    ensures trace == Preamble(explicit) + Events(db, args, systems[..i + 1])
  {
    EventsSnoc(db, args, systems[..i], systems[i]);
    assert systems[..i + 1] == systems[..i] + [systems[i]];
  }

  // ---------------------------------------------------------------------
  // What a run promises
  // ---------------------------------------------------------------------

  /** The setting is read exactly when `--hash` does not name an algorithm. */
  lemma ReadsSettingOnlyOnFallThrough(
    db: Database, romfilePaths: seq<Path>, explicitHash: Option<string>, noTrash: bool, importSystem: ImportOracle)
    ensures var (_, trace) := Expected(db, romfilePaths, explicitHash, noTrash, importSystem);
      ReadSetting(HashSettingKey) in trace <==> NeedsPersisted(explicitHash)
  {
    match Resolve(explicitHash, PersistedHash(db))
    case Failure(_) =>
    case Success(hash) =>
      var args := RunArgs(romfilePaths, hash, noTrash);
      var k := FirstFailure(db, args, importSystem, db.systems);
      var visited := db.systems[..Reached(k, |db.systems|)];
      EventsOnlyPerSystem(db, args, visited);
  }

  /** When no algorithm resolves, the run fails with "Not possible" before
      listing any system: no header lookup, no progress line, no import. */
  lemma ConfigFailureTouchesNothing(
    db: Database, romfilePaths: seq<Path>, explicitHash: Option<string>, noTrash: bool, importSystem: ImportOracle)
    requires NeedsPersisted(explicitHash) ==> HashSettingKey in db.settings
    requires !Recognised(explicitHash) && !Recognised(PersistedHash(db))
    ensures Expected(db, romfilePaths, explicitHash, noTrash, importSystem)
      == (Failure(NotPossible), [ReadSetting(HashSettingKey)])
  {
  }

  /** Once resolved, the run makes exactly one import per visited system,
      in catalogue order, each with the header of that system's id and with
      the same paths, algorithm and flag. */
  lemma {:induction false} ImportsAreUniform(
    db: Database, romfilePaths: seq<Path>, explicitHash: Option<string>, noTrash: bool, importSystem: ImportOracle)
    requires Resolve(explicitHash, PersistedHash(db)).Success?
    ensures var hash := Resolve(explicitHash, PersistedHash(db)).value;
      var (_, trace) := Expected(db, romfilePaths, explicitHash, noTrash, importSystem);
      var calls := Imports(trace);
      && |calls| <= |db.systems|
      && (forall j :: 0 <= j < |calls| ==> calls[j].system == db.systems[j])
      && (forall c :: c in calls ==>
            && c.hash == hash && c.romfilePaths == romfilePaths && c.noTrash == noTrash
            && c.header == HeaderOf(db, c.system.id))
  {
    var hash := Resolve(explicitHash, PersistedHash(db)).value;
    var args := RunArgs(romfilePaths, hash, noTrash);
    var k := FirstFailure(db, args, importSystem, db.systems);
    ImportsOfTrace(db, args, explicitHash, db.systems[..Reached(k, |db.systems|)]);
  }

  /** If every import succeeds (an empty catalogue included), the run
      succeeds after exactly one import per system. */
  lemma AllSucceed(
    db: Database, romfilePaths: seq<Path>, explicitHash: Option<string>, noTrash: bool, importSystem: ImportOracle)
    requires Resolve(explicitHash, PersistedHash(db)).Success?
    requires var args := RunArgs(romfilePaths, Resolve(explicitHash, PersistedHash(db)).value, noTrash);
      forall s :: s in db.systems ==> importSystem(CallFor(db, args, s)).Success?
    ensures var (r, trace) := Expected(db, romfilePaths, explicitHash, noTrash, importSystem);
      && r == Success(())
      && trace == Preamble(explicitHash)
           + Events(db, RunArgs(romfilePaths, Resolve(explicitHash, PersistedHash(db)).value, noTrash), db.systems)
      && Imports(trace) == Calls(db, RunArgs(romfilePaths, Resolve(explicitHash, PersistedHash(db)).value, noTrash), db.systems)
  {
    var args := RunArgs(romfilePaths, Resolve(explicitHash, PersistedHash(db)).value, noTrash);
    assert db.systems[..|db.systems|] == db.systems;
    ImportsOfTrace(db, args, explicitHash, db.systems);
  }

  /** The imports of a run's trace are the calls for the systems visited. */
  lemma ImportsOfTrace(db: Database, args: RunArgs, explicit: Option<string>, visited: seq<System>)
    ensures Imports(Preamble(explicit) + Events(db, args, visited)) == Calls(db, args, visited)
  {
    ImportsOfEvents(db, args, visited);
    ImportsAppend(Preamble(explicit), Events(db, args, visited));
    var pre := Preamble(explicit);
    if NeedsPersisted(explicit) {
      assert pre[1..][1..] == [];
    } else {
      assert pre[1..] == [];
    }
  }

  /** If the import for the `k`-th system fails and the earlier ones
      succeed, the run returns that error, its last event is that import,
      and nothing is done for the systems after it. */
  lemma {:induction false} FailFast(
    db: Database, romfilePaths: seq<Path>, explicitHash: Option<string>, noTrash: bool, importSystem: ImportOracle,
    k: nat)
    requires Resolve(explicitHash, PersistedHash(db)).Success?
    requires k < |db.systems|
    requires var args := RunArgs(romfilePaths, Resolve(explicitHash, PersistedHash(db)).value, noTrash);
      && (forall j :: 0 <= j < k ==> importSystem(CallFor(db, args, db.systems[j])).Success?)
      && importSystem(CallFor(db, args, db.systems[k])).Failure?
    ensures var args := RunArgs(romfilePaths, Resolve(explicitHash, PersistedHash(db)).value, noTrash);
      var (r, trace) := Expected(db, romfilePaths, explicitHash, noTrash, importSystem);
      && r == importSystem(CallFor(db, args, db.systems[k]))
      && |trace| == |Preamble(explicitHash)| + 3 * (k + 1)
      && trace[|trace| - 1] == Import(CallFor(db, args, db.systems[k]))
      && trace == Preamble(explicitHash) + Events(db, args, db.systems[..k + 1])
      && Imports(trace) == Calls(db, args, db.systems[..k + 1])
  {
    var args := RunArgs(romfilePaths, Resolve(explicitHash, PersistedHash(db)).value, noTrash);
    var visited := db.systems[..k + 1];
    EventsAt(db, args, visited, k);
    ImportsOfTrace(db, args, explicitHash, visited);
  }
}
