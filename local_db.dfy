/** The local mod database: loading one mod folder, building the database from
    the folders a directory walk discovers, the queries over the stored map and
    the two in-place validation passes. */
module LocalDb {
  import opened Wrappers
  import opened ModTypes
  import opened Paths
  import opened Updates

  /** What the core reads from disk, as functions of the path read. */
  datatype Disk = Disk(
    // `path.is_dir()`
    isDir: Path -> bool,
    // the walk of `<dir>/**/manifest.json`, in the order it yields entries
    manifestsUnder: Path -> seq<Result<Path, string>>,
    // best-effort JSON repair followed by deserialisation of a manifest file
    readManifest: Path -> Result<ModManifest, string>,
    // the enabled marker of a mod folder
    modEnabled: Path -> Result<bool, string>)

  /** Normalisation of version strings (`fix_version`). */
  type VersionFixer = string -> string

  /** The validation rule set (`check_mod`) run against the whole database. */
  type ModChecker = (LocalMod, Mods) -> seq<ModValidationError>

  /** The stored map: unique names of valid mods, folder paths of failed ones. */
  type Mods = map<string, UnsafeLocalMod>

  const MANIFEST_FILE: string := "manifest.json"
  const OWML_MANIFEST_FILE: string := "OWML.Manifest.json"
  const MODS_FOLDER: string := "Mods"

  // ---------------------------------------------------------------------------
  // Loading one mod

  /** `read_local_mod`: the folder holding the manifest is the mod's folder;
      the manifest's version is normalised; errors start empty. */
  function ReadLocalMod(manifestPath: Path, disk: Disk, fixVersion: VersionFixer)
    : (r: Result<LocalMod, string>)
    ensures manifestPath == [] ==> r == Failure("Mod Path Not Found")
    ensures manifestPath != [] && disk.readManifest(manifestPath).Failure? ==>
      r == Failure(disk.readManifest(manifestPath).error)
    ensures manifestPath != [] && disk.readManifest(manifestPath).Success? &&
            disk.modEnabled(Parent(manifestPath).value).Failure? ==>
      r == Failure(disk.modEnabled(Parent(manifestPath).value).error)
    ensures manifestPath != [] && disk.readManifest(manifestPath).Success? &&
            disk.modEnabled(Parent(manifestPath).value).Success? ==>
      r.Success?
    ensures r.Success? ==>
      var folder := Parent(manifestPath).value;
      var read := disk.readManifest(manifestPath).value;
      && r.value.errors == []
      && r.value.modPath == Render(folder)
      && r.value.enabled == disk.modEnabled(folder).value
      && r.value.manifest == read.(version := fixVersion(read.version))
  {
    match Parent(manifestPath)
    case None => Failure("Mod Path Not Found")
    case Some(folder) =>
      match disk.readManifest(manifestPath)
      case Failure(e) => Failure(e)
      case Success(manifest) =>
        match disk.modEnabled(folder)
        case Failure(e) => Failure(e)
        case Success(enabled) =>
          Success(LocalMod(enabled, [], Render(folder), manifest.(version := fixVersion(manifest.version))))
  }

  /** `get_owml`: the loader runtime's manifest sits directly in its folder; it
      is always enabled and starts without errors, whatever its marker says. */
  function GetOwml(owmlPath: Path, disk: Disk, fixVersion: VersionFixer): (r: Option<LocalMod>)
    ensures r.Some? <==> disk.readManifest(Join(owmlPath, OWML_MANIFEST_FILE)).Success?
    ensures r.Some? ==>
      var read := disk.readManifest(Join(owmlPath, OWML_MANIFEST_FILE)).value;
      && r.value.enabled
      && r.value.errors == []
      && r.value.modPath == Render(owmlPath)
      && r.value.manifest == read.(version := fixVersion(read.version))
  {
    match disk.readManifest(Join(owmlPath, OWML_MANIFEST_FILE))
    case Failure(_) => None
    case Success(manifest) =>
      Some(LocalMod(true, [], Render(owmlPath), manifest.(version := fixVersion(manifest.version))))
  }

  // ---------------------------------------------------------------------------
  // Building the map

  /** One discovered mod folder: its key path, its path for display and the
      outcome of loading it. */
  datatype Probe = Probe(path: string, displayPath: string, load: Result<LocalMod, string>)

  /** The per-entry work of `get_local_mods` before the map is touched: a walk
      error or a manifest without a parent aborts the whole construction. */
  function ProbeOf(modsPath: Path, entry: Result<Path, string>, disk: Disk, fixVersion: VersionFixer)
    : (r: Result<Probe, string>)
    ensures entry.Failure? ==> r == Failure(entry.error)
    ensures entry.Success? && entry.value == [] ==> r == Failure("Invalid Manifest!")
    ensures entry.Success? && entry.value != [] ==> r.Success?
    ensures r.Success? ==>
      var folder := Parent(entry.value).value;
      && r.value.path == Render(folder)
      && r.value.load == ReadLocalMod(entry.value, disk, fixVersion)
      && (r.value.load.Success? ==> r.value.load.value.modPath == r.value.path)
      && (StripPrefix(folder, modsPath).Some? ==>
            r.value.displayPath == JoinComponents(StripPrefix(folder, modsPath).value))
      && (StripPrefix(folder, modsPath).None? ==> r.value.displayPath == Render(folder))
  {
    match entry
    case Failure(e) => Failure(e)
    case Success(manifestPath) =>
      match Parent(manifestPath)
      case None => Failure("Invalid Manifest!")
      case Some(folder) =>
        var display := match StripPrefix(folder, modsPath)
          case Some(rel) => JoinComponents(rel)
          case None => Render(folder);
        Success(Probe(Render(folder), display, ReadLocalMod(manifestPath, disk, fixVersion)))
  }

  /** A manifest `<folder>/manifest.json` loads exactly when its manifest and
      the folder's enabled marker both read, and the mod's path is the folder. */
  lemma {:induction false} ManifestInFolder(folder: Path, disk: Disk, fixVersion: VersionFixer)
    ensures var r := ReadLocalMod(Join(folder, MANIFEST_FILE), disk, fixVersion);
      && (r.Success? <==>
            disk.readManifest(Join(folder, MANIFEST_FILE)).Success? && disk.modEnabled(folder).Success?)
      && (r.Success? ==> r.value.modPath == Render(folder))
  {
    ParentOfJoin(folder, MANIFEST_FILE);
  }

  /** An entry `<Mods>/<rel>/manifest.json` of the walk always yields a probe,
      keyed by its rendered folder and displayed as `rel`. */
  lemma {:induction false} WalkEntryProbe(modsPath: Path, rel: Path, disk: Disk, fixVersion: VersionFixer)
    ensures var r := ProbeOf(modsPath, Success(Join(modsPath + rel, MANIFEST_FILE)), disk, fixVersion);
      && r.Success?
      && r.value.path == Render(modsPath + rel)
      && r.value.displayPath == JoinComponents(rel)
  {
    ParentOfJoin(modsPath + rel, MANIFEST_FILE);
    StripPrefixOfAppend(modsPath, rel);
  }

  /** All probes of a walk, or the error of the first entry that aborts it
      (`ProbesFailAt`). */
  function Probes(modsPath: Path, entries: seq<Result<Path, string>>, disk: Disk, fixVersion: VersionFixer)
    : (r: Result<seq<Probe>, string>)
    ensures r.Success? <==>
      forall i :: 0 <= i < |entries| ==> ProbeOf(modsPath, entries[i], disk, fixVersion).Success?
    ensures r.Success? ==>
      && |r.value| == |entries|
      && forall i :: 0 <= i < |entries| ==> ProbeOf(modsPath, entries[i], disk, fixVersion) == Success(r.value[i])
    decreases |entries|
  {
    if entries == [] then Success([])
    else
      match ProbeOf(modsPath, entries[0], disk, fixVersion)
      case Failure(e) => Failure(e)
      case Success(p) =>
        assert forall i :: 1 <= i < |entries| ==> entries[i] == entries[1..][i - 1];
        match Probes(modsPath, entries[1..], disk, fixVersion)
        case Failure(e) => Failure(e)
        case Success(ps) => Success([p] + ps)
  }

  /** The walk fails with the error of its first failing entry. */
  lemma {:induction false} ProbesFailAt(modsPath: Path, entries: seq<Result<Path, string>>, disk: Disk, fixVersion: VersionFixer, i: nat)
    requires i < |entries| && ProbeOf(modsPath, entries[i], disk, fixVersion).Failure?
    requires forall j :: 0 <= j < i ==> ProbeOf(modsPath, entries[j], disk, fixVersion).Success?
    ensures Probes(modsPath, entries, disk, fixVersion) == Failure(ProbeOf(modsPath, entries[i], disk, fixVersion).error)
    decreases i
  {
    if i > 0 {
      assert forall j :: 0 <= j < i - 1 ==> entries[1..][j] == entries[j + 1];
      ProbesFailAt(modsPath, entries[1..], disk, fixVersion, i - 1);
    }
  }

  lemma ProbesAllSucceed(modsPath: Path, entries: seq<Result<Path, string>>, disk: Disk, fixVersion: VersionFixer, ps: seq<Probe>)
    requires |ps| == |entries|
    requires forall j :: 0 <= j < |entries| ==> ProbeOf(modsPath, entries[j], disk, fixVersion) == Success(ps[j])
    ensures Probes(modsPath, entries, disk, fixVersion) == Success(ps)
  {
    var r := Probes(modsPath, entries, disk, fixVersion);
    assert r.Success?;
    assert |r.value| == |ps|;
    assert forall j :: 0 <= j < |entries| ==> r.value[j] == ps[j];
    assert r.value == ps;
  }

  /** One step of `get_local_mods`: a loaded mod claims its unique name unless
      a valid mod already holds it, in which case it is recorded as a duplicate
      under its own folder; a mod that failed to load is recorded under its
      folder with the loader's message. */
  function Insert(mods: Mods, p: Probe): Mods
  {
    match p.load
    case Success(lm) =>
      var name := lm.manifest.uniqueName;
      if name in mods && mods[name].Valid? then
        mods[p.path := Invalid(FailedMod(p.path, p.displayPath, DuplicateMod(mods[name].m.modPath)))]
      else
        mods[name := Valid(lm)]
    case Failure(msg) =>
      mods[p.path := Invalid(FailedMod(p.path, p.displayPath, InvalidManifest(msg)))]
  }

  /** The map built from the probes, in discovery order. */
  function Collect(ps: seq<Probe>): Mods
  {
    if ps == [] then map[] else Insert(Collect(ps[..|ps| - 1]), ps[|ps| - 1])
  }

  /** Unique name of the mod a probe loaded. */
  function LoadedName(p: Probe): string
    requires p.load.Success?
  {
    p.load.value.manifest.uniqueName
  }

  lemma CollectSnoc(ps: seq<Probe>, p: Probe)
    ensures Collect(ps + [p]) == Insert(Collect(ps), p)
  {
    assert (ps + [p])[..|ps|] == ps;
  }

  /** The unique names of all mods that loaded. */
  function LoadedNames(ps: seq<Probe>): set<string>
  {
    set i | 0 <= i < |ps| && ps[i].load.Success? :: LoadedName(ps[i])
  }

  /** The folder keys of all probes. */
  function FolderKeys(ps: seq<Probe>): set<string>
  {
    set i | 0 <= i < |ps| :: ps[i].path
  }

  /** The key scheme: every valid mod is stored under its own unique name. */
  predicate KeyedByName(mods: Mods)
  {
    forall k :: k in mods && mods[k].Valid? ==> mods[k].m.manifest.uniqueName == k
  }

  /** The keys that hold valid mods. */
  function ValidKeys(mods: Mods): set<string>
  {
    set k | k in mods && mods[k].Valid?
  }

  /** Folder keys are pairwise distinct (one manifest per folder) and never
      coincide with a unique name that loaded. */
  predicate Separated(ps: seq<Probe>)
  {
    && (forall i, j :: 0 <= i < j < |ps| ==> ps[i].path != ps[j].path)
    && (forall i, j :: 0 <= i < |ps| && 0 <= j < |ps| && ps[j].load.Success? ==>
          ps[i].path != LoadedName(ps[j]))
  }

  /** Without any hypothesis on the walk: valid entries sit under their own
      unique name, which some probe loaded, and failed entries under a folder key. */
  lemma {:induction false} CollectKeys(ps: seq<Probe>)
    ensures KeyedByName(Collect(ps))
    ensures ValidKeys(Collect(ps)) <= LoadedNames(ps)
    ensures forall k :: k in Collect(ps) && Collect(ps)[k].Invalid? ==> k in FolderKeys(ps)
  {
    if ps != [] {
      var init, last := ps[..|ps| - 1], ps[|ps| - 1];
      CollectKeys(init);
      assert LoadedNames(init) <= LoadedNames(ps) by {
        forall n | n in LoadedNames(init) ensures n in LoadedNames(ps) {
          var i :| 0 <= i < |init| && init[i].load.Success? && LoadedName(init[i]) == n;
          assert ps[i] == init[i];
        }
      }
      assert FolderKeys(init) <= FolderKeys(ps) by {
        forall n | n in FolderKeys(init) ensures n in FolderKeys(ps) {
          var i :| 0 <= i < |init| && init[i].path == n;
          assert ps[i] == init[i];
        }
      }
      assert last.path in FolderKeys(ps);
      if last.load.Success? {
        assert LoadedName(last) in LoadedNames(ps);
      }
    }
  }

  /** Later probes that touch neither key `k` as a folder nor as a unique name
      leave the entry under `k` as it was. */
  lemma {:induction false} KeyUntouched(ps: seq<Probe>, n: nat, k: string)
    requires n <= |ps|
    requires k in Collect(ps[..n])
    requires forall j :: n <= j < |ps| ==> ps[j].path != k && (ps[j].load.Success? ==> LoadedName(ps[j]) != k)
    ensures k in Collect(ps) && Collect(ps)[k] == Collect(ps[..n])[k]
  {
    if |ps| == n {
      assert ps[..n] == ps;
    } else {
      var init := ps[..|ps| - 1];
      assert init[..n] == ps[..n];
      KeyUntouched(init, n, k);
    }
  }

  /** The first-discovered mod with a given unique name is stored under that
      name exactly as it was loaded. */
  lemma {:induction false} FirstClaimKept(ps: seq<Probe>, i: nat)
    requires Separated(ps)
    requires i < |ps| && ps[i].load.Success?
    requires forall j :: 0 <= j < i && ps[j].load.Success? ==> LoadedName(ps[j]) != LoadedName(ps[i])
    ensures LoadedName(ps[i]) in Collect(ps)
    ensures Collect(ps)[LoadedName(ps[i])] == Valid(ps[i].load.value)
  {
    var u := LoadedName(ps[i]);
    var init, last := ps[..|ps| - 1], ps[|ps| - 1];
    assert Separated(init);
    CollectKeys(init);
    if i == |ps| - 1 {
      assert forall j :: 0 <= j < |init| ==> init[j] == ps[j];
      assert u !in LoadedNames(init);
      assert u !in FolderKeys(init);
    } else {
      FirstClaimKept(init, i);
      assert last.path != u;
    }
  }

  /** A later mod reusing a claimed unique name is stored under its own folder
      as a duplicate of the first claimant's folder. */
  lemma {:induction false} DuplicateRecorded(ps: seq<Probe>, j: nat, i: nat)
    requires Separated(ps)
    requires j < i < |ps| && ps[j].load.Success? && ps[i].load.Success?
    requires LoadedName(ps[j]) == LoadedName(ps[i])
    requires forall l :: 0 <= l < j && ps[l].load.Success? ==> LoadedName(ps[l]) != LoadedName(ps[j])
    ensures ps[i].path in Collect(ps)
    ensures Collect(ps)[ps[i].path] ==
      Invalid(FailedMod(ps[i].path, ps[i].displayPath, DuplicateMod(ps[j].load.value.modPath)))
  {
    var before := ps[..i];
    assert Separated(before);
    FirstClaimKept(before, j);
    assert ps[..i + 1][..i] == before;
    assert Collect(ps[..i + 1]) == Insert(Collect(before), ps[i]);
    KeyUntouched(ps, i + 1, ps[i].path);
  }

  /** A folder whose manifest failed to load is stored under its folder with
      the loader's message. */
  lemma {:induction false} FailedLoadRecorded(ps: seq<Probe>, i: nat)
    requires Separated(ps)
    requires i < |ps| && ps[i].load.Failure?
    ensures ps[i].path in Collect(ps)
    ensures Collect(ps)[ps[i].path] ==
      Invalid(FailedMod(ps[i].path, ps[i].displayPath, InvalidManifest(ps[i].load.error)))
  {
    assert ps[..i + 1][..i] == ps[..i];
    assert Collect(ps[..i + 1]) == Insert(Collect(ps[..i]), ps[i]);
    KeyUntouched(ps, i + 1, ps[i].path);
  }

  /** Exactly one valid entry per distinct unique name that loaded. */
  lemma {:induction false} ValidKeysAreLoadedNames(ps: seq<Probe>)
    requires Separated(ps)
    ensures ValidKeys(Collect(ps)) == LoadedNames(ps)
  {
    if ps != [] {
      var init, last := ps[..|ps| - 1], ps[|ps| - 1];
      assert Separated(init);
      ValidKeysAreLoadedNames(init);
      assert forall i :: 0 <= i < |init| ==> init[i] == ps[i];
      var before := Collect(init);
      if last.load.Success? && !(LoadedName(last) in before && before[LoadedName(last)].Valid?) {
        assert LoadedNames(ps) == LoadedNames(init) + {LoadedName(last)};
        assert ValidKeys(Collect(ps)) == ValidKeys(before) + {LoadedName(last)};
      } else {
        assert last.path !in LoadedNames(ps);
        if last.load.Success? {
          assert LoadedNames(ps) == LoadedNames(init) + {LoadedName(last)};
          assert LoadedName(last) in ValidKeys(before);
        } else {
          assert LoadedNames(ps) == LoadedNames(init);
        }
        assert ValidKeys(Collect(ps)) == ValidKeys(before);
      }
    }
  }

  /** `get_local_mods`: walks the manifests under `modsPath` and builds the map
      entry by entry; the first walk error aborts the construction. */
  method GetLocalMods(modsPath: Path, disk: Disk, fixVersion: VersionFixer) returns (r: Result<Mods, string>)
    ensures r == match Probes(modsPath, disk.manifestsUnder(modsPath), disk, fixVersion)
                 case Failure(e) => Failure(e)
                 case Success(ps) => Success(Collect(ps))
  {
    var entries := disk.manifestsUnder(modsPath);
    var mods: Mods := map[];
    ghost var ps: seq<Probe> := [];
    for i := 0 to |entries|
      invariant |ps| == i
      invariant forall j :: 0 <= j < i ==> ProbeOf(modsPath, entries[j], disk, fixVersion) == Success(ps[j])
      invariant mods == Collect(ps)
    {
      var probe := ProbeOf(modsPath, entries[i], disk, fixVersion);
      if probe.Failure? {
        ProbesFailAt(modsPath, entries, disk, fixVersion, i);
        return Failure(probe.error);
      }
      var p := probe.value;
      mods := Insert(mods, p);
      CollectSnoc(ps, p);
      ps := ps + [p];
    }
    ProbesAllSucceed(modsPath, entries, disk, fixVersion, ps);
    r := Success(mods);
  }

  // ---------------------------------------------------------------------------
  // Queries over the stored map

  /** `get_mod`: a valid mod by unique name; absent and failed entries alike
      give `None`. */
  function GetMod(mods: Mods, uniqueName: string): (r: Option<LocalMod>)
    ensures r.Some? <==> uniqueName in mods && mods[uniqueName].Valid?
    ensures r.Some? ==> mods[uniqueName] == Valid(r.value)
  {
    if uniqueName in mods && mods[uniqueName].Valid? then Some(mods[uniqueName].m) else None
  }

  /** `get_mod_unsafe`: whatever is stored under the key, valid or failed. */
  function GetModUnsafe(mods: Mods, key: string): (r: Option<UnsafeLocalMod>)
    ensures r.Some? <==> key in mods
    ensures r.Some? ==> r.value == mods[key]
  {
    if key in mods then Some(mods[key]) else None
  }

  /** `all`: every stored record. */
  function AllMods(mods: Mods): (r: set<UnsafeLocalMod>)
    ensures forall k :: k in mods ==> mods[k] in r
    ensures forall e :: e in r ==> exists k :: k in mods && mods[k] == e
  {
    mods.Values
  }

  /** `valid`: the payloads of the valid records of `all`. */
  function ValidMods(mods: Mods): (r: set<LocalMod>)
    ensures forall m :: m in r <==> Valid(m) in AllMods(mods)
  {
    set e | e in mods.Values && e.Valid? :: e.m
  }

  /** `active`: the valid mods that are enabled. */
  function ActiveMods(mods: Mods): (r: set<LocalMod>)
    ensures r <= ValidMods(mods)
    ensures forall k :: k in mods && mods[k].Valid? ==> (mods[k].m in r <==> mods[k].m.enabled)
    ensures forall m :: m in r ==> m.enabled
  {
    set m | m in ValidMods(mods) && m.enabled
  }

  /** `invalid`: every failed record, and the valid records that are enabled
      and carry at least one error. */
  function InvalidMods(mods: Mods): (r: set<UnsafeLocalMod>)
    ensures r <= AllMods(mods)
    ensures forall k :: k in mods && mods[k].Invalid? ==> mods[k] in r
    ensures forall k :: k in mods && mods[k].Valid? ==>
      (mods[k] in r <==> mods[k].m.enabled && mods[k].m.errors != [])
  {
    set e | e in mods.Values && (e.Invalid? || (e.m.enabled && e.m.errors != []))
  }

  /** True iff `m` declares `target`'s unique name among its dependencies. */
  predicate DependsOn(m: LocalMod, target: LocalMod)
  {
    match m.manifest.dependencies
    case Some(deps) => target.manifest.uniqueName in deps
    case None => false
  }

  /** `dependent`: the valid mods that list `target` as a direct dependency. */
  function Dependent(mods: Mods, target: LocalMod): (r: set<LocalMod>)
    ensures r <= ValidMods(mods)
    ensures forall m :: m in ValidMods(mods) ==>
      (m in r <==> m.manifest.dependencies.Some? && target.manifest.uniqueName in m.manifest.dependencies.value)
  {
    set m | m in ValidMods(mods) && DependsOn(m, target)
  }

  /** Dependence is direct only: a mod that depends on a dependent of
      `target`, without naming `target` itself, is not among its dependents. */
  lemma DependentIsDirect(mods: Mods, target: LocalMod, middle: LocalMod, top: LocalMod)
    requires middle in Dependent(mods, target)
    requires top in ValidMods(mods) && top.manifest.dependencies == Some([middle.manifest.uniqueName])
    requires middle.manifest.uniqueName != target.manifest.uniqueName
    ensures top in Dependent(mods, middle)
    ensures top !in Dependent(mods, target)
  {
  }

  /** Under the key scheme distinct valid keys hold distinct mods, so `valid`
      has exactly as many elements as there are keys holding a valid mod. */
  lemma {:induction false} ValidCount(mods: Mods)
    requires KeyedByName(mods)
    ensures |ValidMods(mods)| == |ValidKeys(mods)|
  {
    assert ValidMods(mods) == set k | k in ValidKeys(mods) :: mods[k].m;
    ValidImageCount(mods, ValidKeys(mods));
  }

  lemma {:induction false} ValidImageCount(mods: Mods, keys: set<string>)
    requires KeyedByName(mods)
    requires keys <= ValidKeys(mods)
    ensures |set k | k in keys :: mods[k].m| == |keys|
    decreases |keys|
  {
    if keys != {} {
      var k :| k in keys;
      var rest := keys - {k};
      ValidImageCount(mods, rest);
      var img := set l | l in keys :: mods[l].m;
      var imgRest := set l | l in rest :: mods[l].m;
      assert img == imgRest + {mods[k].m};
      assert mods[k].m !in imgRest;
    }
  }

  /** A walk whose folders load with N distinct unique names yields exactly N
      valid mods, however many duplicates and failures accompany them. */
  lemma ValidCountAfterBuild(ps: seq<Probe>)
    requires Separated(ps)
    ensures |ValidMods(Collect(ps))| == |LoadedNames(ps)|
  {
    CollectKeys(ps);
    ValidKeysAreLoadedNames(ps);
    ValidCount(Collect(ps));
  }

  /** Two maps with the same keys and records that differ at most in the
      error lists of valid mods. */
  predicate SameExceptErrors(a: Mods, b: Mods)
  {
    && a.Keys == b.Keys
    && forall k :: k in a ==>
         if a[k].Valid? then b[k].Valid? && b[k].m == a[k].m.(errors := b[k].m.errors)
         else b[k] == a[k]
  }

  /** A rule set that ignores the error lists of the database it inspects. */
  ghost predicate ErrorBlind(checkMod: ModChecker)
  {
    forall m, d1, d2 :: SameExceptErrors(d1, d2) ==> checkMod(m, d1) == checkMod(m, d2)
  }

  lemma SameExceptErrorsKeyedByName(a: Mods, b: Mods)
    requires SameExceptErrors(a, b) && KeyedByName(a)
    ensures KeyedByName(b)
  {
    forall k | k in b && b[k].Valid? ensures b[k].m.manifest.uniqueName == k {
      assert a[k].Valid?;
    }
  }

  /** One step of `validate`: rewriting one valid mod's errors with the rule
      set's verdict keeps the map equal to the original up to error lists and
      keeps the key scheme; a rule set that ignores errors gives the verdict on
      the original map. */
  lemma ValidateStep(orig: Mods, cur: Mods, name: string, checkMod: ModChecker)
    requires SameExceptErrors(orig, cur) && KeyedByName(orig)
    requires name in cur && cur[name] == orig[name] && orig[name].Valid?
    ensures var next := cur[name := Valid(cur[name].m.(errors := checkMod(cur[name].m, cur)))];
      && SameExceptErrors(orig, next)
      && KeyedByName(next)
      && (ErrorBlind(checkMod) ==> checkMod(cur[name].m, cur) == checkMod(orig[name].m, orig))
  {
    var next := cur[name := Valid(cur[name].m.(errors := checkMod(cur[name].m, cur)))];
    SameExceptErrorsKeyedByName(orig, next);
  }

  // ---------------------------------------------------------------------------
  // The outdated pass

  /** What `validate_updates` does to one record: a valid mod that needs an
      update and carries no `Outdated` error yet gains one naming the remote
      version; every other record is left as it is. */
  function MarkOutdated(e: UnsafeLocalMod, remote: RemoteDatabase, compare: Comparer): (r: UnsafeLocalMod)
    ensures r.Valid? == e.Valid?
    ensures e.Invalid? ==> r == e
    ensures e.Valid? ==>
      var check := CheckModNeedsUpdate(e.m, remote, compare);
      && r.m == e.m.(errors := r.m.errors)
      && |e.m.errors| <= |r.m.errors| <= |e.m.errors| + 1
      && r.m.errors[..|e.m.errors|] == e.m.errors
      && (|r.m.errors| == |e.m.errors| + 1 <==> check.0 && !HasOutdated(e.m.errors))
      && (|r.m.errors| == |e.m.errors| + 1 ==>
            r.m.errors[|e.m.errors|] == Outdated(check.1.value.version))
  {
    match e
    case Invalid(_) => e
    case Valid(m) =>
      var (needsUpdate, remoteMod) := CheckModNeedsUpdate(m, remote, compare);
      if needsUpdate && !HasOutdated(m.errors) then
        Valid(m.(errors := m.errors + [Outdated(remoteMod.value.version)]))
      else e
  }

  /** The database after `validate_updates`. */
  function WithOutdatedMarks(mods: Mods, remote: RemoteDatabase, compare: Comparer): (r: Mods)
    ensures r.Keys == mods.Keys
    ensures forall k :: k in mods ==> r[k] == MarkOutdated(mods[k], remote, compare)
  {
    map k | k in mods :: MarkOutdated(mods[k], remote, compare)
  }

  lemma MarkOutdatedTwice(e: UnsafeLocalMod, remote: RemoteDatabase, compare: Comparer)
    ensures MarkOutdated(MarkOutdated(e, remote, compare), remote, compare) == MarkOutdated(e, remote, compare)
  {
    var once := MarkOutdated(e, remote, compare);
    if e.Valid? {
      DecisionReadsOnlyManifest(e.m, once.m, remote, compare);
      if |once.m.errors| == |e.m.errors| + 1 {
        assert once.m.errors[|e.m.errors|].Outdated?;
        assert HasOutdated(once.m.errors);
      }
    }
  }

  /** Running the outdated pass a second time changes nothing. */
  lemma {:induction false} ValidateUpdatesIdempotent(mods: Mods, remote: RemoteDatabase, compare: Comparer)
    ensures WithOutdatedMarks(WithOutdatedMarks(mods, remote, compare), remote, compare)
         == WithOutdatedMarks(mods, remote, compare)
  {
    var once := WithOutdatedMarks(mods, remote, compare);
    forall k | k in mods
      ensures WithOutdatedMarks(once, remote, compare)[k] == once[k]
    {
      MarkOutdatedTwice(mods[k], remote, compare);
    }
  }

  lemma {:induction false} OutdatedCountAppend(errors: seq<ModValidationError>, e: ModValidationError)
    ensures OutdatedCount(errors + [e]) == OutdatedCount(errors) + (if e.Outdated? then 1 else 0)
  {
    assert (errors + [e])[..|errors|] == errors;
  }

  /** An out-of-date mod with no `Outdated` error carries exactly one after
      the pass has run twice. */
  lemma ValidateUpdatesTwiceOneOutdated(mods: Mods, remote: RemoteDatabase, compare: Comparer, k: string)
    requires k in mods && mods[k].Valid?
    requires CheckModNeedsUpdate(mods[k].m, remote, compare).0
    requires OutdatedCount(mods[k].m.errors) == 0
    ensures var twice := WithOutdatedMarks(WithOutdatedMarks(mods, remote, compare), remote, compare);
      OutdatedCount(twice[k].m.errors) == 1
  {
    ValidateUpdatesIdempotent(mods, remote, compare);
    OutdatedCountZero(mods[k].m.errors);
    var once := WithOutdatedMarks(mods, remote, compare);
    var errs := mods[k].m.errors;
    var rm := CheckModNeedsUpdate(mods[k].m, remote, compare).1.value;
    assert once[k].m.errors == errs + [Outdated(rm.version)];
    OutdatedCountAppend(errs, Outdated(rm.version));
  }

  // ---------------------------------------------------------------------------
  // The database object

  /** `LocalDatabase`: the map of records, rewritten in place by the two
      validation passes and by callers holding a mutable borrow of one mod. */
  class LocalDatabase {
    var mods: Mods

    /** The key scheme the construction establishes. */
    ghost predicate Consistent()
      reads this
    {
      KeyedByName(mods)
    }

    constructor (initial: Mods)
      ensures mods == initial
    {
      mods := initial;
    }

    /** `get_mod_mut`: the write a caller makes through the mutable borrow of a
        valid mod is `edit`; absent and failed entries are left alone. */
    method GetModMut(uniqueName: string, edit: LocalMod -> LocalMod) returns (found: bool)
      modifies this
      ensures found == GetMod(old(mods), uniqueName).Some?
      ensures found ==> mods == old(mods)[uniqueName := Valid(edit(old(mods)[uniqueName].m))]
      ensures !found ==> mods == old(mods)
    {
      var local := GetMod(mods, uniqueName);
      found := local.Some?;
      if found {
        mods := mods[uniqueName := Valid(edit(local.value))];
      }
    }

    /** `validate`: rewrites the error list of every valid mod with the rule
        set's verdict; failed records and keys stay as they are. Mods are
        visited in an arbitrary order and the rule set sees the database as
        it is at that moment; when it ignores other mods' errors, each verdict
        is the one against the database before the pass. */
    method Validate(checkMod: ModChecker)
      requires Consistent()
      modifies this
      ensures Consistent()
      ensures SameExceptErrors(old(mods), mods)
      ensures ErrorBlind(checkMod) ==>
        forall k :: k in old(mods) && old(mods)[k].Valid? ==>
          mods[k] == Valid(old(mods)[k].m.(errors := checkMod(old(mods)[k].m, old(mods))))
    {
      var names := set m | m in ValidMods(mods) :: m.manifest.uniqueName;
      assert names == ValidKeys(mods) by {
        forall n | n in ValidKeys(mods) ensures n in names {
          assert mods[n].m in ValidMods(mods);
        }
      }
      ghost var done: set<string> := {};
      while names != {}
        invariant Consistent()
        invariant SameExceptErrors(old(mods), mods)
        invariant names !! done && names + done == ValidKeys(old(mods))
        invariant forall k :: k in names ==> mods[k] == old(mods)[k]
        invariant ErrorBlind(checkMod) ==>
          forall k :: k in done ==>
            mods[k] == Valid(old(mods)[k].m.(errors := checkMod(old(mods)[k].m, old(mods))))
        decreases names
      {
        var name :| name in names;
        var localMod := GetMod(mods, name).value;
        var errors := checkMod(localMod, mods);
        ghost var before := mods;
        var found := GetModMut(name, (m: LocalMod) => m.(errors := errors));
        ValidateStep(old(mods), before, name, checkMod);
        names := names - {name};
        done := done + {name};
      }
    }

    /** `validate_updates`: every valid mod that needs an update and has no
        `Outdated` error yet gains one naming the remote version. */
    method ValidateUpdates(remote: RemoteDatabase, compare: Comparer)
      modifies this
      ensures mods == WithOutdatedMarks(old(mods), remote, compare)
      ensures old(Consistent()) ==> Consistent()
    {
      var keys := mods.Keys;
      while keys != {}
        invariant mods.Keys == old(mods).Keys && keys <= mods.Keys
        invariant forall k :: k in keys ==> mods[k] == old(mods)[k]
        invariant forall k :: k in mods && k !in keys ==> mods[k] == MarkOutdated(old(mods)[k], remote, compare)
        decreases keys
      {
        var k :| k in keys;
        match mods[k] {
          case Valid(localMod) =>
            var (needsUpdate, remoteMod) := CheckModNeedsUpdate(localMod, remote, compare);
            if needsUpdate && !HasOutdated(localMod.errors) {
              mods := mods[k := Valid(localMod.(errors := localMod.errors + [Outdated(remoteMod.value.version)]))];
            }
          case Invalid(_) =>
        }
        keys := keys - {k};
      }
      assert SameExceptErrors(old(mods), mods);
      if old(Consistent()) {
        SameExceptErrorsKeyedByName(old(mods), mods);
      }
    }
  }

  // ---------------------------------------------------------------------------
  // Construction from disk

  /** `fetch`: an empty database when the `Mods` folder is missing, otherwise
      the map built from the walk, validated in place. */
  method Fetch(owmlPath: Path, disk: Disk, fixVersion: VersionFixer, checkMod: ModChecker)
    returns (r: Result<LocalDatabase, string>)
    ensures r.Success? ==> fresh(r.value) && r.value.Consistent()
    ensures !disk.isDir(Join(owmlPath, MODS_FOLDER)) ==> r.Success? && r.value.mods == map[]
    ensures disk.isDir(Join(owmlPath, MODS_FOLDER)) ==>
      var modsPath := Join(owmlPath, MODS_FOLDER);
      match Probes(modsPath, disk.manifestsUnder(modsPath), disk, fixVersion)
      case Failure(e) => r == Failure(e)
      case Success(ps) =>
        && r.Success?
        && SameExceptErrors(Collect(ps), r.value.mods)
        && (ErrorBlind(checkMod) ==>
              forall k :: k in Collect(ps) && Collect(ps)[k].Valid? ==>
                r.value.mods[k] == Valid(Collect(ps)[k].m.(errors := checkMod(Collect(ps)[k].m, Collect(ps)))))
  {
    var modsPath := Join(owmlPath, MODS_FOLDER);
    if disk.isDir(modsPath) {
      var built := GetLocalMods(modsPath, disk, fixVersion);
      if built.Failure? {
        return Failure(built.error);
      }
      var ps := Probes(modsPath, disk.manifestsUnder(modsPath), disk, fixVersion).value;
      CollectKeys(ps);
      var db := new LocalDatabase(built.value);
      db.Validate(checkMod);
      r := Success(db);
    } else {
      var db := new LocalDatabase(map[]);
      r := Success(db);
    }
  }
}
