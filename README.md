# import-all-systems, modelled in Dafny

This project models the `import-all-systems` command of oxyromon, a ROM
collection manager. The command takes a list of ROM files or directories, an
optional `--hash` value and a `--no-trash` flag. It does two things:

1. It resolves the hash algorithm once. It takes the `--hash` value if that
   is `"CRC"` or `"MD5"`. Otherwise it reads the persisted `HASH_ALGORITHM`
   setting and maps it the same way. If neither is recognised, it fails with
   "Not possible".
2. It goes through every system of the catalogue, in the order the database
   returns them. For each system it looks up the header, prints a progress
   line, and calls `import_system` with the same paths, algorithm and flag.
   The first failing call ends the run with that call's error.

Files:

- `wrappers.dfy`: module `Wrappers`, with `Option` and `Result`.
- `import_all_systems.dfy`: module `ImportAllSystems`.
  - `ParseHash` and `Resolve` are pure functions over the two optional
    strings. They are specified through their inverse, `Name`.
  - The database is a value (`Database`): the settings table, the systems in
    catalogue order, and the headers by system id.
  - `import_system` is an oracle, a function from its arguments
    (`ImportCall`) to an outcome.
  - `Run` is the command itself. It is a method with the command's `for` loop over the systems. It
    returns the result and a trace of `Event`s: setting read, systems listed,
    header lookup, progress line, import call. It is proved equal to the
    reference definition `Expected`. Lemmas about `Expected` state what a run
    promises.

Two behaviours of the code are worth noting:

- An explicit `--hash` value that is not `"CRC"` or `"MD5"` falls through to
  the persisted setting, as the code's `Some(&_) | None` arm does. It is not
  treated as an error. So the setting is read whenever the explicit value is
  absent or unrecognised, not only when it is absent.
- `find_systems` and `find_header_by_system_id` return plain values in the
  code, with no `?`. The model therefore has no catalogue error path.

## Model

| member | source | states |
|---|---|---|
| `ImportAllSystems.ParseHash` | src/import_all_systems.rs:52-54 | the mapping gives `h` exactly when the string is `Name(h)` ("CRC" or "MD5"); any other string, or none, gives `None` |
| `ImportAllSystems.Resolve` | src/import_all_systems.rs:52-67 | resolution succeeds iff the explicit or the persisted value is recognised; it yields `h` iff the explicit value names `h`, or the explicit value is unrecognised and the persisted value names `h`; otherwise the error is "Not possible" |
| `ImportAllSystems.ResolveIgnoresPersisted` | src/import_all_systems.rs:52-54 | a recognised explicit value decides the result whatever the persisted value is, absent or garbled included |
| `ImportAllSystems.FirstFailure` | src/import_all_systems.rs:68-79 | the index where the loop stops: every import before it succeeds, and the import at it fails (or it equals the number of systems) |
| `ImportAllSystems.EventsAt` | src/import_all_systems.rs:68-78 | for the j-th system, events 3j, 3j+1 and 3j+2 are its header lookup by its id, its progress line, and its import with that header; print always comes before import |
| `ImportAllSystems.ImportsOfEvents` | src/import_all_systems.rs:68-79 | the loop's events contain exactly one import per visited system, in catalogue order |
| `ImportAllSystems.Run` | src/import_all_systems.rs:45-82 | the command's result and trace are exactly `Expected`: the setting is read only on fall-through, the systems are visited in order up to the first failure, and that failure's error is returned |
| `ImportAllSystems.ReadsSettingOnlyOnFallThrough` | src/import_all_systems.rs:52-58 | the trace reads `HASH_ALGORITHM` iff the explicit value is not "CRC" or "MD5" |
| `ImportAllSystems.ConfigFailureTouchesNothing` | src/import_all_systems.rs:64-68 | when neither value is recognised, the run fails with "Not possible" and its trace is the setting read alone: no system listing, header lookup, progress line or import |
| `ImportAllSystems.ImportsAreUniform` | src/import_all_systems.rs:71-78 | every import of a run gets the one algorithm resolved before the loop (lines 50-67), the same paths and the same `no_trash` flag, and the header of its own system's id; the j-th import is for the j-th system |
| `ImportAllSystems.AllSucceed` | src/import_all_systems.rs:68-81 | when every import succeeds, an empty catalogue included, the run returns `Ok(())`, its trace is the preamble followed by every system's header lookup, progress line and import, and its imports are exactly the calls for every system, one each, in catalogue order |
| `ImportAllSystems.FailFast` | src/import_all_systems.rs:79 | when the k-th import is the first to fail, the run returns its error, the trace ends with that import, and it is exactly the preamble followed by the events of systems 0..k, so its imports are the calls for systems 0..k and nothing else |

## Left out

- `subcommand()`, the command-line definition. Its value restriction on `--hash` depends on the `HashAlgorithm` variant names, which are not part of this model. `Run` takes any explicit string and handles it as the match does.
- The database connection and the queries `find_setting_by_key`, `find_systems` and `find_header_by_system_id` are not part of this model. The model uses a value snapshot of what they return.
- The `.unwrap()` on the setting lookup panics when the setting row is missing. `Run` has a precondition instead: the row must exist whenever the setting is read.
- The `.unwrap()` on the `ROMS` argument is not modelled. The paths are passed in as a sequence, which the command line guarantees to be non-empty; nothing in the model depends on that.
- The internals of `import_system`, which is not part of this model. It is an oracle from its arguments to success or failure. So its effect on the database is not modelled, and its outcome cannot depend on earlier imports except through its arguments.
- The progress bar. Only the fact and the order of each progress line are kept, as `Println(name)`. The text `Import System "<name>"` is not kept, and neither is its Debug quoting of the name.
- `async`/`await` and the `#[cfg(feature = ...)]` gates. The run is sequential, and the model assumes the features are enabled.
- `Run` returns its trace as a value. It does not update a shared connection or progress bar in place.
