# Local mod database and update decision of the Outer Wilds mod manager

This project models two parts of `owmods_core` in Dafny and proves properties about them.

1. **The local mod database** (`LocalDatabase`). It is a map from keys to
   records. Each record is either a mod that loaded (`Valid(LocalMod)`) or a folder
   that did not yield a usable mod (`Invalid(FailedMod)`). The database is built
   from the manifests a directory walk discovers, taken in walk order:
   - A mod that loads claims its unique name as its key.
   - A later mod that reuses a claimed name is recorded under its own folder
     path as a duplicate of the first claimant.
   - A manifest that fails to load is recorded under its folder path with the
     loader's message.

   The queries over the map (`get_mod`, `valid`, `active`, `invalid`,
   `dependent`, …) are modelled as functions of the map. Two passes rewrite the
   map in place:
   - `validate` overwrites the error list of every valid mod.
   - `validate_updates` adds at most one `Outdated` error to each valid mod.
2. **The update decision** (`check_mod_needs_update`) and the bulk update
   (`update_all`). The loader runtime (OWML) is looked up through the catalog's
   dedicated entry; every other mod is looked up by unique name. If both version
   strings parse, the structured comparison decides; otherwise any textual
   difference means an update. `update_all` does four things:
   - it collects the out-of-date mods;
   - it updates the runtime whenever the runtime is out of date, dry run or not;
   - it hands the out-of-date mods to the parallel installer unless this is a dry run;
   - it reports whether anything needed updating.

Modules, one per file:
- `Wrappers`: Option and Result.
- `ModTypes`: manifests, local, failed and remote records, `Cmp`, and the
  runtime's unique name.
- `Paths`: paths as sequences of components.
- `Updates`: the per-mod decision.
- `LocalDb`: `db/local.rs`.
- `BulkUpdate`: `update_all`.

`updates.rs` is split across two Dafny modules. `db/local.rs` calls the decision
and `update_all` uses the database, and Dafny modules cannot import one another in
a cycle.

Foreign code is passed in as function-valued parameters. None of these parameters
is given any meaning beyond its type:
- `fix_version` (`VersionFixer`);
- `version_compare::compare` (`Comparer`: `None` when a string does not parse);
- the validation rule set `check_mod` (`ModChecker`);
- the file reads: `is_dir`, the glob walk, JSON repair plus deserialisation, and
  `get_mod_enabled` (`Disk`);
- the two installers (`Installer`).

The calls `update_all` makes to the installers and to the analytics sink are
returned as a trace of `Call`s. `HashMap` iteration order is arbitrary, so:
- the iterator queries return sets;
- the loops of `validate`, `validate_updates` and `update_all` visit the
  records in an arbitrary order (`:|`).

The code says what the doc comments do not, and the model follows the code:
- The doc comment of `check_mod_needs_update` (`owmods_core/src/updates.rs:15`,
  `:21`) says that unparseable versions are skipped. The code falls back to string
  inequality instead.
- The same doc comment says the second component is `None` whenever the first is
  `false`. The code returns `Some(remote)` whenever a counterpart exists. The
  model states only the direction the callers rely on: `true` implies `Some`.

The properties about construction hold under the hypothesis `Separated`. It says
that folder keys are pairwise distinct (one manifest per folder) and that no
folder key equals a unique name that loaded. The code needs this hypothesis: a
folder path that equalled a unique name would overwrite that name's entry.
`CollectKeys` needs no hypothesis. It proves the key scheme (every valid mod is
stored under its own unique name) for every walk.

## Model

| member | source | states |
|---|---|---|
| `Paths.Parent` | owmods_core/src/db/local.rs:200-204 | a path has no parent exactly when it is the root; otherwise joining the last component back gives the path |
| `Paths.StripPrefix` | owmods_core/src/db/local.rs:376-381 | the prefix is stripped exactly when the base is a component-wise prefix, and the base followed by the remainder is the original path |
| `LocalDb.ReadLocalMod` | owmods_core/src/db/local.rs:195-214 | no parent gives "Mod Path Not Found"; a manifest read failure or an enabled-marker failure yields its own message; a manifest with a parent whose file and enabled marker both read always loads; a loaded mod has no errors, its folder as mod path, the marker's enabled flag and the manifest with its version normalised |
| `LocalDb.GetOwml` | owmods_core/src/db/local.rs:155-166 | returns a mod exactly when the runtime manifest reads; that mod is always enabled, has no errors, has the runtime folder as path and carries the normalised version |
| `LocalDb.ProbeOf` | owmods_core/src/db/local.rs:372-382 | a walk error or a manifest without a parent aborts with its message; every other entry yields a probe (a failed load does not stop the walk); the key is the rendered folder, the display path is the folder relative to `Mods`, or the whole folder when it lies outside `Mods`, and a loaded mod's path equals the key |
| `LocalDb.ManifestInFolder` | owmods_core/src/db/local.rs:195-214 | `<folder>/manifest.json` loads exactly when the manifest and the folder's enabled marker both read, and the mod's path is that folder |
| `LocalDb.WalkEntryProbe` | owmods_core/src/db/local.rs:370-380 | an entry `<Mods>/<rel>/manifest.json` of the walk always yields a probe keyed by its rendered folder and displayed as `rel` |
| `LocalDb.Probes` | owmods_core/src/db/local.rs:372-374 | the walk succeeds exactly when every entry does, giving one probe per entry; otherwise it fails with the error of the first failing entry |
| `LocalDb.GetLocalMods` | owmods_core/src/db/local.rs:368-411 | the loop builds exactly the map of the in-order fold over the probes, or returns the first aborting error |
| `LocalDb.CollectKeys` | owmods_core/src/db/local.rs:383-408 | for every walk, every valid entry is keyed by its own unique name, which some folder loaded, and every failed entry is keyed by a folder path |
| `LocalDb.FirstClaimKept` | owmods_core/src/db/local.rs:384-397 | the first-discovered mod with a unique name is stored under that name exactly as loaded, whatever follows |
| `LocalDb.DuplicateRecorded` | owmods_core/src/db/local.rs:384-392 | a later mod reusing a claimed name is stored under its own folder as `Invalid(DuplicateMod(p))`, where p is the first claimant's mod path (the behaviour the test at lines 459-475 checks) |
| `LocalDb.FailedLoadRecorded` | owmods_core/src/db/local.rs:399-408 | a folder that fails to load is stored under its folder as `Invalid(InvalidManifest(msg))` with the loader's message, and later entries do not disturb it (the behaviour the test at lines 441-456 checks) |
| `LocalDb.ValidKeysAreLoadedNames` | owmods_core/src/db/local.rs:383-398 | the keys holding valid mods are exactly the distinct unique names that loaded |
| `LocalDb.ValidCountAfterBuild` | owmods_core/src/db/local.rs:421-430 | `valid()` has as many elements as there are distinct unique names that loaded |
| `LocalDb.GetMod` | owmods_core/src/db/local.rs:82-89 | `Some(m)` exactly when the key holds `Valid(m)`; `None` for absent and for failed entries |
| `LocalDb.GetModUnsafe` | owmods_core/src/db/local.rs:115-117 | returns the stored record, valid or failed, exactly when the key is present |
| `LocalDb.AllMods` | owmods_core/src/db/local.rs:258-260 | contains every stored record and nothing that is not stored |
| `LocalDb.ValidMods` | owmods_core/src/db/local.rs:232-237 | exactly the payloads of the `Valid` records of `all()` |
| `LocalDb.ActiveMods` | owmods_core/src/db/local.rs:222-224 | a subset of `valid()`; a stored valid mod is in it exactly when it is enabled |
| `LocalDb.InvalidMods` | owmods_core/src/db/local.rs:245-250 | every failed record; a valid record exactly when it is enabled and has at least one error, so disabled mods with errors are excluded |
| `LocalDb.Dependent` | owmods_core/src/db/local.rs:270-277 | a valid mod is a dependent of t exactly when its dependency list is present and contains t's unique name |
| `LocalDb.DependentIsDirect` | owmods_core/src/db/local.rs:262-277 | a mod that depends only on a dependent of t is not itself a dependent of t; dependence is not transitive |
| `LocalDb.ValidCount` | owmods_core/src/db/local.rs:232-237 | under the key scheme, `valid()` has exactly as many elements as there are keys holding a valid mod |
| `LocalDb.MarkOutdated` | owmods_core/src/db/local.rs:354-364 | a record keeps its validity and everything but its errors; the old list is a prefix of the new one, and the list grows by at most one; it grows exactly when an update is needed and no `Outdated` is present, and the added error is `Outdated(remote version)` |
| `LocalDb.WithOutdatedMarks` | owmods_core/src/db/local.rs:346-366 | keys are unchanged and every record is rewritten independently by the rule above |
| `LocalDb.MarkOutdatedTwice` | owmods_core/src/db/local.rs:355-363 | applying the per-record rule twice is the same as applying it once |
| `LocalDb.ValidateUpdatesIdempotent` | owmods_core/src/db/local.rs:346-366 | running `validate_updates` twice gives the same database as running it once |
| `LocalDb.ValidateUpdatesTwiceOneOutdated` | owmods_core/src/db/local.rs:355-363 | an out-of-date mod without an `Outdated` error has exactly one after two runs |
| `LocalDb.LocalDatabase.GetModMut` | owmods_core/src/db/local.rs:120-127 | finds a mod exactly when `get_mod` does; the caller's write then replaces that valid record only, and otherwise nothing changes |
| `LocalDb.LocalDatabase.Validate` | owmods_core/src/db/local.rs:312-323 | keeps the key scheme and the keys, changes only the error lists of valid mods, and leaves failed records as they are; when the rule set ignores other mods' errors, each valid mod's errors become the rule set's verdict on the database before the pass |
| `LocalDb.LocalDatabase.ValidateUpdates` | owmods_core/src/db/local.rs:346-366 | the new map is the per-record outdated rule applied to the old one, and the key scheme is preserved |
| `LocalDb.Fetch` | owmods_core/src/db/local.rs:48-60 | a missing `Mods` folder gives an empty database; a failed walk gives its error; otherwise the database has the keys and records of the built map up to error lists, and the key scheme holds; when the rule set ignores other mods' errors, every valid mod's error list is the rule set's verdict on the built map |
| `Updates.RemoteCounterpart` | owmods_core/src/updates.rs:27-31 | the runtime's unique name goes to the dedicated runtime lookup; every other name goes to the catalog entry of that name, which is absent when the catalog lacks it |
| `Updates.CheckModNeedsUpdate` | owmods_core/src/updates.rs:23-42 | no counterpart gives `(false, None)`; `true` implies `Some(remote)`; if compare succeeds the result is `true` exactly when it returns `Gt`; if compare fails the result is `true` exactly when the version strings differ |
| `Updates.DecisionReadsOnlyManifest` | owmods_core/src/updates.rs:27-36 | the decision reads only the manifest, so rewriting errors leaves it unchanged |
| `Updates.SameVersionNoUpdate` | owmods_core/src/updates.rs:34-36 | identical version strings never need an update unless the comparer ranks a version above itself (the behaviour the test at lines 137-142 checks) |
| `Updates.ExampleNewerRemote` | owmods_core/src/updates.rs:129-135 | local 0.1.0 against remote 0.2.0 needs an update, and the surfaced remote version is 0.2.0 |
| `Updates.ExampleUnparseable` | owmods_core/src/updates.rs:144-156 | "burger" against "burger" needs no update, and "burger" against "burger2.0" needs one |
| `BulkUpdate.CollectOutdated` | owmods_core/src/updates.rs:60-73 | pushes one remote mod per valid mod that needs an update; their unique names are exactly those of the out-of-date mods' counterparts |
| `BulkUpdate.OwmlCalls` | owmods_core/src/updates.rs:75-90 | one non-forced runtime install exactly when the runtime is installed locally and needs an update |
| `BulkUpdate.ReportUpdates` | owmods_core/src/updates.rs:101-107 | one analytics event per updated mod, in the installer's order |
| `BulkUpdate.UpdateAll` | owmods_core/src/updates.rs:54-111 | the runtime install comes first whenever it is due, whatever `dry` is, and its failure aborts; with nothing else out of date the result is whether the runtime was out of date; a dry run installs no mods but reports true; otherwise there is exactly one parallel install of exactly the out-of-date names, and then one event per updated mod; a successful result is true exactly when any mod or the runtime needed updating |

## Left out

- Search: `search` delegates to a fuzzy ranking (`search_list`) whose source is not part of this model.
- Paths are sequences of components rendered with `/` separators. Windows paths and non-UTF-8 names (the `to_str().unwrap()` panics) are not modelled.
- The glob pattern error of `glob::glob` (line 370-371) is not modelled. The walk is an abstract sequence of entries, and each entry may carry an error.
- LocalDb.GetOwml: the runtime mod's path is the rendered folder path, not the raw configured string.
- The best-effort JSON repair (`fix_json_file`) and the parser's message text are part of the abstract manifest read. The Debug formatting of the load error (`format!("{:?}", …)`) is taken as the message itself.
- Manifest fields other than unique name, name, version and dependencies are not modelled. Remote records carry only unique name and version.
- `OWML_UNIQUE_NAME` is "Alek.OWML". The constants file that defines it is not part of this model.
- `RemoteDatabase::get_owml` is modelled as the catalog's dedicated runtime entry. The remote database source is not part of this model.
- `check_mod`'s rule set (missing and disabled dependencies, conflicts, …) is not part of this model. Its results appear as whatever the `ModChecker` parameter returns, and `RuleError` stands for its error kinds.
- LocalDb.LocalDatabase.Validate: when the rule set reads other mods' error lists, the verdicts depend on the visiting order. The contract then states only that error lists alone change.
- LocalDb.Fetch: inherits the same limit, because it runs `validate` on the built map; the exact verdicts are stated only for a rule set that ignores other mods' errors.
- The iterator queries are not lazy sequences: each is a set, so iteration order and repeated identical records are not modelled.
- BulkUpdate.CollectOutdated: the order of the collected mods follows the arbitrary map order. The contract states their names as a set and their number, not their order.
- The installers are functions of their arguments, and the database and configuration they receive are left out. Their effect on disk is not modelled. Parallelism and async/await are not modelled.
- Logging (`debug!`, `info!`, `warn!`) is not modelled.
- `game.rs`, the GUI frontend and the Tauri backend are not part of this model.
