/** The per-mod update decision of `check_mod_needs_update`. */
module Updates {
  import opened Wrappers
  import opened ModTypes

  /** The remote counterpart of a local mod: the loader runtime goes through
      the catalog's dedicated lookup, every other mod through its unique name. */
  function RemoteCounterpart(local: LocalMod, remote: RemoteDatabase): (r: Option<RemoteMod>)
    ensures local.manifest.uniqueName == OWML_UNIQUE_NAME ==> r == remote.owml
    ensures local.manifest.uniqueName != OWML_UNIQUE_NAME ==>
      (r.Some? <==> local.manifest.uniqueName in remote.mods) &&
      (r.Some? ==> r.value == remote.mods[local.manifest.uniqueName])
  {
    if local.manifest.uniqueName == OWML_UNIQUE_NAME then remote.GetOwml()
    else remote.GetMod(local.manifest.uniqueName)
  }

  /** Whether `local` needs an update, and the remote counterpart it was
      compared against. A structured comparison decides when both versions
      parse; otherwise any textual difference counts as an update. */
  function CheckModNeedsUpdate(local: LocalMod, remote: RemoteDatabase, compare: Comparer)
    : (r: (bool, Option<RemoteMod>))
    ensures r.1 == RemoteCounterpart(local, remote)
    ensures r.1.None? ==> r == (false, None)
    ensures r.0 ==> r.1.Some?
    ensures r.1.Some? && compare(r.1.value.version, local.manifest.version).Some? ==>
      (r.0 <==> compare(r.1.value.version, local.manifest.version) == Some(Gt))
    ensures r.1.Some? && compare(r.1.value.version, local.manifest.version).None? ==>
      (r.0 <==> local.manifest.version != r.1.value.version)
  {
    match RemoteCounterpart(local, remote)
    case Some(remoteMod) =>
      var needs :=
        match compare(remoteMod.version, local.manifest.version)
        case Some(o) => o == Gt
        case None => local.manifest.version != remoteMod.version;
      (needs, Some(remoteMod))
    case None => (false, None)
  }

  /** The decision reads only the manifest: rewriting a mod's errors, path or
      enabled flag does not change it. */
  lemma DecisionReadsOnlyManifest(a: LocalMod, b: LocalMod, remote: RemoteDatabase, compare: Comparer)
    requires a.manifest == b.manifest
    ensures CheckModNeedsUpdate(a, remote, compare) == CheckModNeedsUpdate(b, remote, compare)
  {
  }

  /** Identical version strings never call for an update unless the comparer
      itself claims a version is greater than itself. */
  lemma SameVersionNoUpdate(local: LocalMod, remote: RemoteDatabase, compare: Comparer)
    requires RemoteCounterpart(local, remote).Some?
    requires RemoteCounterpart(local, remote).value.version == local.manifest.version
    requires compare(local.manifest.version, local.manifest.version) != Some(Gt)
    ensures !CheckModNeedsUpdate(local, remote, compare).0
  {
  }

  /** A local mod `0.1.0` against a catalog entry `0.2.0` that the comparer
      ranks higher: an update, surfacing remote version `0.2.0`. */
  lemma ExampleNewerRemote(local: LocalMod, remote: RemoteDatabase, compare: Comparer)
    requires local.manifest.uniqueName != OWML_UNIQUE_NAME
    requires local.manifest.version == "0.1.0"
    requires remote.mods == map[local.manifest.uniqueName := RemoteMod(local.manifest.uniqueName, "0.2.0")]
    requires compare("0.2.0", "0.1.0") == Some(Gt)
    ensures CheckModNeedsUpdate(local, remote, compare).0
    ensures CheckModNeedsUpdate(local, remote, compare).1.value.version == "0.2.0"
  {
  }

  /** Unparseable versions fall back to string inequality: `burger` against
      `burger` is no update, `burger` against `burger2.0` is one. */
  lemma ExampleUnparseable(local: LocalMod, remote: RemoteDatabase, compare: Comparer)
    requires local.manifest.uniqueName != OWML_UNIQUE_NAME
    requires local.manifest.version == "burger"
    requires local.manifest.uniqueName in remote.mods
    requires compare(remote.mods[local.manifest.uniqueName].version, "burger").None?
    ensures remote.mods[local.manifest.uniqueName].version == "burger" ==>
      !CheckModNeedsUpdate(local, remote, compare).0
    ensures remote.mods[local.manifest.uniqueName].version == "burger2.0" ==>
      CheckModNeedsUpdate(local, remote, compare).0
  {
  }
}
