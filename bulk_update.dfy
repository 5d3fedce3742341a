/** `update_all`: collect the out-of-date mods, update the loader runtime when
    it is out of date, and hand the rest to the parallel installer. The
    installers and the analytics sink are external; the calls made to them are
    returned as a trace. */
module BulkUpdate {
  import opened Wrappers
  import opened ModTypes
  import opened Paths
  import opened Updates
  import opened LocalDb

  /** The external installers, as functions of their arguments. */
  datatype Installer = Installer(
    // `download_and_install_owml(config, remote_owml, force)`
    installOwml: (RemoteMod, bool) -> Result<(), string>,
    // `install_mods_parallel(names, config, remote_db, local_db)`: the mods it updated
    installMods: seq<string> -> Result<seq<LocalMod>, string>)

  /** One call made to an external collaborator. */
  datatype Call =
    | InstallOwml(remote: RemoteMod, force: bool)
    | InstallModsParallel(names: seq<string>)
    | ModUpdateEvent(uniqueName: string)

  /** The mods among `s` that need an update. */
  function NeedingUpdate(s: set<LocalMod>, remote: RemoteDatabase, compare: Comparer): set<LocalMod>
  {
    set m | m in s && CheckModNeedsUpdate(m, remote, compare).0
  }

  /** Unique names of the remote counterparts of the mods among `s` that need
      an update. */
  function OutOfDateNames(s: set<LocalMod>, remote: RemoteDatabase, compare: Comparer): set<string>
  {
    set m | m in NeedingUpdate(s, remote, compare) :: CheckModNeedsUpdate(m, remote, compare).1.value.uniqueName
  }

  /** The loader-runtime install `update_all` makes, if any: exactly when the
      runtime is installed locally and needs an update, never forced. */
  function OwmlCalls(owml: Option<LocalMod>, remote: RemoteDatabase, compare: Comparer): (r: seq<Call>)
    ensures |r| <= 1
    ensures r != [] <==> owml.Some? && CheckModNeedsUpdate(owml.value, remote, compare).0
    ensures r != [] ==> r[0] == InstallOwml(CheckModNeedsUpdate(owml.value, remote, compare).1.value, false)
  {
    match owml
    case None => []
    case Some(o) =>
      var (update, remoteOwml) := CheckModNeedsUpdate(o, remote, compare);
      if update then [InstallOwml(remoteOwml.value, false)] else []
  }

  /** The analytics events for the mods the installer reports as updated. */
  function UpdateEvents(updated: seq<LocalMod>): (r: seq<Call>)
    ensures |r| == |updated|
    ensures forall i :: 0 <= i < |updated| ==> r[i] == ModUpdateEvent(updated[i].manifest.uniqueName)
  {
    seq(|updated|, i requires 0 <= i < |updated| => ModUpdateEvent(updated[i].manifest.uniqueName))
  }

  /** True iff the loader-runtime install was attempted and failed. */
  predicate OwmlInstallFails(owmlCalls: seq<Call>, installer: Installer)
  {
    owmlCalls != [] && owmlCalls[0].InstallOwml? &&
    installer.installOwml(owmlCalls[0].remote, owmlCalls[0].force).Failure?
  }

  /** The first loop of `update_all`: the remote counterparts of the mods in
      `valid` that need an update, one per such mod, in visiting order. */
  method CollectOutdated(valid: set<LocalMod>, remote: RemoteDatabase, compare: Comparer)
    returns (needsUpdate: seq<RemoteMod>)
    ensures NamesOf(needsUpdate) == OutOfDateNames(valid, remote, compare)
    ensures |needsUpdate| == |NeedingUpdate(valid, remote, compare)|
  {
    needsUpdate := [];
    var pending := valid;
    ghost var seen: set<LocalMod> := {};
    while pending != {}
      invariant pending !! seen && pending + seen == valid
      invariant NamesOf(needsUpdate) == OutOfDateNames(seen, remote, compare)
      invariant |needsUpdate| == |NeedingUpdate(seen, remote, compare)|
      decreases pending
    {
      var localMod :| localMod in pending;
      var (update, remoteMod) := CheckModNeedsUpdate(localMod, remote, compare);
      VisitOne(seen, localMod, remote, compare);
      if update {
        NamesOfSnoc(needsUpdate, remoteMod.value);
        needsUpdate := needsUpdate + [remoteMod.value];
      }
      pending := pending - {localMod};
      seen := seen + {localMod};
    }
  }

  /** Unique names of a sequence of remote mods. */
  function NamesOf(rs: seq<RemoteMod>): set<string>
  {
    set x | x in rs :: x.uniqueName
  }

  lemma NamesOfSnoc(rs: seq<RemoteMod>, x: RemoteMod)
    ensures NamesOf(rs + [x]) == NamesOf(rs) + {x.uniqueName}
  {
    assert forall y :: y in rs + [x] <==> y in rs || y == x;
  }

  lemma VisitOne(seen: set<LocalMod>, m: LocalMod, remote: RemoteDatabase, compare: Comparer)
    requires m !in seen
    ensures var check := CheckModNeedsUpdate(m, remote, compare);
      if check.0 then
        && NeedingUpdate(seen + {m}, remote, compare) == NeedingUpdate(seen, remote, compare) + {m}
        && |NeedingUpdate(seen + {m}, remote, compare)| == |NeedingUpdate(seen, remote, compare)| + 1
        && OutOfDateNames(seen + {m}, remote, compare) == OutOfDateNames(seen, remote, compare) + {check.1.value.uniqueName}
      else
        && NeedingUpdate(seen + {m}, remote, compare) == NeedingUpdate(seen, remote, compare)
        && OutOfDateNames(seen + {m}, remote, compare) == OutOfDateNames(seen, remote, compare)
  {
    if CheckModNeedsUpdate(m, remote, compare).0 {
      assert NeedingUpdate(seen + {m}, remote, compare) == NeedingUpdate(seen, remote, compare) + {m};
    } else {
      assert NeedingUpdate(seen + {m}, remote, compare) == NeedingUpdate(seen, remote, compare);
    }
  }

  /** The last loop of `update_all`: one analytics event per updated mod. */
  method ReportUpdates(updated: seq<LocalMod>) returns (events: seq<Call>)
    ensures events == UpdateEvents(updated)
  {
    events := [];
    for i := 0 to |updated|
      invariant events == UpdateEvents(updated[..i])
    {
      assert UpdateEvents(updated[..i + 1]) == UpdateEvents(updated[..i]) + [ModUpdateEvent(updated[i].manifest.uniqueName)];
      events := events + [ModUpdateEvent(updated[i].manifest.uniqueName)];
    }
    assert updated[..|updated|] == updated;
  }

  method UpdateAll(owmlPath: Path, localDb: LocalDatabase, remote: RemoteDatabase, dry: bool,
                   disk: Disk, fixVersion: VersionFixer, compare: Comparer, installer: Installer)
    returns (r: Result<bool, string>, calls: seq<Call>)
    // the loader runtime is updated first whenever it is out of date, dry run or not
    ensures var owmlCalls := OwmlCalls(GetOwml(owmlPath, disk, fixVersion), remote, compare);
      |calls| >= |owmlCalls| && calls[..|owmlCalls|] == owmlCalls
    // a failed runtime install aborts
    ensures var owmlCalls := OwmlCalls(GetOwml(owmlPath, disk, fixVersion), remote, compare);
      OwmlInstallFails(owmlCalls, installer) ==>
        r == Failure(installer.installOwml(owmlCalls[0].remote, false).error) && calls == owmlCalls
    // nothing else out of date: the answer is whether the runtime was
    ensures var owmlCalls := OwmlCalls(GetOwml(owmlPath, disk, fixVersion), remote, compare);
      !OwmlInstallFails(owmlCalls, installer) && NeedingUpdate(ValidMods(localDb.mods), remote, compare) == {} ==>
        r == Success(owmlCalls != []) && calls == owmlCalls
    // a dry run installs no mods but still reports changes
    ensures var owmlCalls := OwmlCalls(GetOwml(owmlPath, disk, fixVersion), remote, compare);
      !OwmlInstallFails(owmlCalls, installer) && NeedingUpdate(ValidMods(localDb.mods), remote, compare) != {} && dry ==>
        r == Success(true) && calls == owmlCalls
    // otherwise one parallel install of exactly the out-of-date names, then one
    // analytics event per mod it updated
    ensures var owmlCalls := OwmlCalls(GetOwml(owmlPath, disk, fixVersion), remote, compare);
      var outdated := NeedingUpdate(ValidMods(localDb.mods), remote, compare);
      !OwmlInstallFails(owmlCalls, installer) && outdated != {} && !dry ==>
        && |calls| > |owmlCalls|
        && calls[|owmlCalls|].InstallModsParallel?
        && var names := calls[|owmlCalls|].names;
           && (set n | n in names) == OutOfDateNames(ValidMods(localDb.mods), remote, compare)
           && |names| == |outdated|
           && match installer.installMods(names)
              case Failure(e) => r == Failure(e) && calls == owmlCalls + [InstallModsParallel(names)]
              case Success(updated) =>
                r == Success(true) && calls == owmlCalls + [InstallModsParallel(names)] + UpdateEvents(updated)
    // the answer: something needed updating, whether or not it was installed
    ensures r.Success? ==>
      (r.value <==> NeedingUpdate(ValidMods(localDb.mods), remote, compare) != {} ||
                    OwmlCalls(GetOwml(owmlPath, disk, fixVersion), remote, compare) != [])
  {
    var needsUpdate := CollectOutdated(ValidMods(localDb.mods), remote, compare);

    var owml := GetOwml(owmlPath, disk, fixVersion);
    var owmlUpdated := false;
    calls := [];
    if owml.Some? {
      var (update, remoteOwml) := CheckModNeedsUpdate(owml.value, remote, compare);
      if update {
        owmlUpdated := true;
        calls := calls + [InstallOwml(remoteOwml.value, false)];
        var installed := installer.installOwml(remoteOwml.value, false);
        if installed.Failure? {
          return Failure(installed.error), calls;
        }
      }
    }
    assert calls == OwmlCalls(owml, remote, compare);

    if needsUpdate == [] {
      assert NeedingUpdate(ValidMods(localDb.mods), remote, compare) == {};
      return Success(owmlUpdated), calls;
    }
    if !dry {
      var modNames := seq(|needsUpdate|, i requires 0 <= i < |needsUpdate| => needsUpdate[i].uniqueName);
      assert (set n | n in modNames) == NamesOf(needsUpdate) by {
        forall x | x in needsUpdate ensures x.uniqueName in modNames {
          var i :| 0 <= i < |needsUpdate| && needsUpdate[i] == x;
          assert modNames[i] == x.uniqueName;
        }
      }
      calls := calls + [InstallModsParallel(modNames)];
      var updated := installer.installMods(modNames);
      if updated.Failure? {
        return Failure(updated.error), calls;
      }
      var events := ReportUpdates(updated.value);
      calls := calls + events;
    }
    r := Success(true);
  }
}
