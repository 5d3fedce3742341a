/** The records the local and remote mod databases hold. Only the fields the
    database and the update decision read are modelled. */
module ModTypes {
  import opened Wrappers

  /** Unique name of the mod loader runtime, which is looked up through its own
      remote entry rather than through the catalog by name. */
  const OWML_UNIQUE_NAME: string := "Alek.OWML"

  /** The manifest of an installed mod (the fields the core reads). */
  datatype ModManifest = ModManifest(
    uniqueName: string,
    name: string,
    version: string,
    dependencies: Option<seq<string>>)

  /** Errors attached to a mod. `RuleError` stands for the errors produced by
      the validation rule set, which is not part of this model. */
  datatype ModValidationError =
    | InvalidManifest(message: string)
    | DuplicateMod(otherPath: string)
    | Outdated(remoteVersion: string)
    | RuleError(detail: string)

  /** A mod that loaded: its manifest, its folder, enabled marker and errors. */
  datatype LocalMod = LocalMod(
    enabled: bool,
    errors: seq<ModValidationError>,
    modPath: string,
    manifest: ModManifest)

  /** A mod folder that did not yield a usable mod. */
  datatype FailedMod = FailedMod(
    modPath: string,
    displayPath: string,
    error: ModValidationError)

  /** What the local database stores under each key. */
  datatype UnsafeLocalMod = Valid(m: LocalMod) | Invalid(failed: FailedMod)

  /** An entry of the remote catalog. */
  datatype RemoteMod = RemoteMod(uniqueName: string, version: string)

  /** The remote catalog: entries by unique name, and the loader runtime's own
      entry, which has a dedicated lookup. */
  datatype RemoteDatabase = RemoteDatabase(
    mods: map<string, RemoteMod>,
    owml: Option<RemoteMod>)
  {
    function GetMod(uniqueName: string): (r: Option<RemoteMod>)
      ensures r.Some? <==> uniqueName in mods
      ensures r.Some? ==> r.value == mods[uniqueName]
    {
      if uniqueName in mods then Some(mods[uniqueName]) else None
    }

    function GetOwml(): Option<RemoteMod> { owml }
  }

  /** The outcome of a version comparison (the `version_compare::Cmp` enum). */
  datatype Cmp = Eq | Ne | Lt | Le | Ge | Gt

  /** Signature of `version_compare::compare(a, b)`: `None` when either string
      does not parse as a version, otherwise how `a` compares to `b`. */
  type Comparer = (string, string) -> Option<Cmp>

  /** True iff some error in the list is an `Outdated` error. */
  predicate HasOutdated(errors: seq<ModValidationError>)
  {
    exists i :: 0 <= i < |errors| && errors[i].Outdated?
  }

  /** Number of `Outdated` errors in the list. */
  function OutdatedCount(errors: seq<ModValidationError>): nat
  {
    if errors == [] then 0
    else OutdatedCount(errors[..|errors| - 1]) + (if errors[|errors| - 1].Outdated? then 1 else 0)
  }

  lemma {:induction false} OutdatedCountZero(errors: seq<ModValidationError>)
    ensures OutdatedCount(errors) == 0 <==> !HasOutdated(errors)
  {
    if errors != [] {
      var init := errors[..|errors| - 1];
      OutdatedCountZero(init);
      assert forall i :: 0 <= i < |init| ==> init[i] == errors[i];
      if HasOutdated(init) {
        var i :| 0 <= i < |init| && init[i].Outdated?;
        assert errors[i].Outdated?;
      }
      if HasOutdated(errors) && !errors[|errors| - 1].Outdated? {
        var i :| 0 <= i < |errors| && errors[i].Outdated?;
        assert init[i].Outdated?;
      }
    }
  }
}
