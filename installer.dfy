/**
 * The installation pipeline of the AlDente installer script: download the disk
 * image, mount it, copy `AlDente.app` into `/Applications`, unmount, and delete
 * the image. Every external effect is an outcome supplied by the caller; the
 * filesystem is a map from paths to trees, the mount table a set of mount
 * points, and the external calls made are recorded in a ghost trace.
 */
module Installer {
  import opened Wrappers
  import opened PyStr
  import opened VolumeScan

  const Url: string := "https://github.com/AppHouseKitchen/AlDente-Charge-Limiter/releases/download/1.31.3/AlDente.dmg"
  const Filename: string := "AlDente.dmg"
  const AppBundle: string := "AlDente.app"
  const Destination: string := "/Applications/AlDente.app"
  const MacOS: string := "Darwin"

  type Path = string

  /** What a path holds: a file, or a directory of named subtrees. */
  datatype Tree = File(data: seq<bv8>) | Dir(entries: map<string, Tree>)

  /** `os.path.exists(p)` is `p in fs`; what lies below a path is inside its tree. */
  type FileSystem = map<Path, Tree>

  /** The external calls the script makes. */
  datatype Event =
    | HttpGet(url: string)
    | HdiutilAttach(image: Path)
    | HdiutilInfo
    | Rmtree(path: Path)
    | Copytree(source: Path, target: Path)
    | HdiutilDetach(volume: Path)
    | OsRemove(path: Path)

  /** The HTTP download: a complete body, a failure before the file is opened, or one while streaming. */
  datatype FetchOutcome = Fetched(body: seq<bv8>) | RequestFailed | StreamFailed(partial: seq<bv8>)

  /** `hdiutil attach`: a non-zero exit, or the mount point where the image appeared. */
  datatype AttachOutcome = AttachFailed | Attached(mountPoint: Path)

  /**
   * A `shutil` tree operation whose arguments are acceptable: it completes, or an
   * I/O error interrupts it and leaves the target as `left`.
   */
  datatype TreeOpOutcome = Completes | Raises(left: Option<Tree>)

  /** Everything the outside world decides during one run. */
  datatype Environment = Environment(
    cwd: Path,
    fetch: FetchOutcome,
    attach: AttachOutcome,
    info: Option<string>,       // stdout of `hdiutil info`, or None for a non-zero exit
    rmtree: TreeOpOutcome,
    copytree: TreeOpOutcome,
    detachOk: bool)

  /** `os.path.join(a, b)` for two components. */
  function JoinPath(a: Path, b: Path): (p: Path)
    ensures |b| <= |p| && p[|p| - |b|..] == b
    ensures b != [] && b[0] == '/' ==> p == b
    ensures (b == [] || b[0] != '/') ==> a <= p
  {
    if b != [] && b[0] == '/' then b
    else if a == [] || a[|a| - 1] == '/' then a + b
    else a + "/" + b
  }

  /** The downloaded image, the bundle in a volume and the install location never coincide. */
  lemma InstallerPathsDistinct(cwd: Path, volume: Path)
    ensures JoinPath(cwd, Filename) != JoinPath(volume, AppBundle)
    ensures JoinPath(cwd, Filename) != Destination
  {
    var image, app := JoinPath(cwd, Filename), JoinPath(volume, AppBundle);
    assert image[|image| - 1] == Filename[|Filename| - 1] == 'g';
    assert app[|app| - 1] == AppBundle[|AppBundle| - 1] == 'p';
    assert Destination[|Destination| - 1] == 'p';
  }

  function Lookup(fs: FileSystem, p: Path): Option<Tree> {
    if p in fs then Some(fs[p]) else None
  }

  /** The filesystem with `p` holding `t` (or nothing). */
  function Put(fs: FileSystem, p: Path, t: Option<Tree>): (r: FileSystem)
    ensures Lookup(r, p) == t
    ensures forall q :: q != p ==> Lookup(r, q) == Lookup(fs, q)
  {
    if t.Some? then fs[p := t.value] else fs - {p}
  }

  /** When `copy_aldente_app` reports success, in terms of the state it starts from. */
  predicate CopySucceeds(fs: FileSystem, volume: Path, rmtree: TreeOpOutcome, copytree: TreeOpOutcome) {
    var app := JoinPath(volume, AppBundle);
    && app in fs && fs[app].Dir?
    && app != Destination          // otherwise rmtree would delete the source first
    && (Destination in fs ==> fs[Destination].Dir? && rmtree.Completes?)
    && copytree.Completes?
  }

  /** The external calls `copy_aldente_app` makes. */
  function CopyEvents(fs: FileSystem, volume: Path, rmtree: TreeOpOutcome): seq<Event> {
    var app := JoinPath(volume, AppBundle);
    if app !in fs then []
    else if Destination !in fs then [Copytree(app, Destination)]
    else if fs[Destination].Dir? && rmtree.Completes? then [Rmtree(Destination), Copytree(app, Destination)]
    else [Rmtree(Destination)]
  }

  /**
   * What `/Applications/AlDente.app` holds once `copy_aldente_app` returns, branch
   * by branch: untouched without a bundle or when `rmtree` refuses a file; what an
   * interrupted `rmtree` left; nothing when `copytree` has no directory to copy
   * (the bundle is a file, or `rmtree` just removed it because it is the
   * destination); what an interrupted `copytree` left; otherwise the bundle.
   */
  function CopyLeaves(fs: FileSystem, volume: Path, rmtree: TreeOpOutcome, copytree: TreeOpOutcome): Option<Tree> {
    var app := JoinPath(volume, AppBundle);
    if app !in fs then Lookup(fs, Destination)
    else if Destination in fs && fs[Destination].File? then Some(fs[Destination])
    else if Destination in fs && rmtree.Raises? then rmtree.left
    else if app == Destination || fs[app].File? then None
    else if copytree.Raises? then copytree.left
    else Some(fs[app])
  }

  /**
   * A successful copy installs the bundle; without a bundle the old install stays;
   * a failed copy leaves the old install, nothing, or what an interrupted tree
   * operation left behind.
   */
  lemma CopyLeavesCases(fs: FileSystem, volume: Path, rmtree: TreeOpOutcome, copytree: TreeOpOutcome)
    ensures var app, r := JoinPath(volume, AppBundle), CopyLeaves(fs, volume, rmtree, copytree);
      && (CopySucceeds(fs, volume, rmtree, copytree) ==> r == Lookup(fs, app))
      && (app !in fs ==> r == Lookup(fs, Destination))
      && (!CopySucceeds(fs, volume, rmtree, copytree) ==>
            || r == Lookup(fs, Destination)
            || r == None
            || (rmtree.Raises? && r == rmtree.left)
            || (copytree.Raises? && r == copytree.left))
  {
  }

  lemma AppendAssoc(a: seq<Event>, b: seq<Event>, c: seq<Event>)
    ensures a + b + c == a + (b + c)
  {
  }

  /** Number of `hdiutil detach` calls in a trace. */
  function Detaches(trace: seq<Event>): nat {
    if trace == [] then 0
    else (if trace[0].HdiutilDetach? then 1 else 0) + Detaches(trace[1..])
  }

  lemma {:induction false} DetachesAppend(a: seq<Event>, b: seq<Event>)
    ensures Detaches(a + b) == Detaches(a) + Detaches(b)
  {
    if a == [] {
      assert a + b == b;
    } else {
      assert (a + b)[0] == a[0] && (a + b)[1..] == a[1..] + b;
      DetachesAppend(a[1..], b);
    }
  }

  lemma {:induction false} NoDetaches(trace: seq<Event>)
    requires forall i :: 0 <= i < |trace| ==> !trace[i].HdiutilDetach?
    ensures Detaches(trace) == 0
  {
    if trace != [] {
      NoDetaches(trace[1..]);
    }
  }

  function InstallerPath(env: Environment): Path {
    JoinPath(env.cwd, Filename)
  }

  /** The filesystem once the image has been written. */
  function Downloaded(fs: FileSystem, env: Environment): FileSystem
    requires env.fetch.Fetched?
  {
    fs[InstallerPath(env) := File(env.fetch.body)]
  }

  /** What `mount_dmg` returns. */
  function MountedVolume(env: Environment): Option<Path> {
    if env.attach.Attached? && env.info.Some? then FindVolume(env.info.value) else None
  }

  /** The calls made by `mount_dmg`: the listing is requested only once the image is attached. */
  function MountDmgEvents(image: Path, attach: AttachOutcome): seq<Event> {
    [HdiutilAttach(image)] + (if attach.Attached? then [HdiutilInfo] else [])
  }

  /** The calls made by a successful download and by `mount_dmg`. */
  function MountEvents(env: Environment): seq<Event> {
    [HttpGet(Url)] + MountDmgEvents(InstallerPath(env), env.attach)
  }

  /** The calls made by steps 3 to 5 of `main`. */
  function FinishEvents(fs: FileSystem, installer: Path, volume: Path, rmtree: TreeOpOutcome, copytree: TreeOpOutcome): seq<Event> {
    CopyEvents(fs, volume, rmtree) + [HdiutilDetach(volume)]
    + (if CopySucceeds(fs, volume, rmtree, copytree) then [OsRemove(installer)] else [])
  }

  /** The calls made by one run of `main`, in order. */
  function InstallEvents(fs: FileSystem, env: Environment): seq<Event> {
    if !env.fetch.Fetched? then [HttpGet(Url)]
    else if MountedVolume(env).None? then MountEvents(env)
    else MountEvents(env) + FinishEvents(Downloaded(fs, env), InstallerPath(env), MountedVolume(env).value, env.rmtree, env.copytree)
  }

  /** Whether a trace deletes a file. */
  predicate Removes(trace: seq<Event>) {
    exists i :: 0 <= i < |trace| && trace[i].OsRemove?
  }

  /** Whether a trace touches the installed copy under `/Applications`. */
  predicate ChangesApplications(trace: seq<Event>) {
    exists i :: 0 <= i < |trace| && (trace[i].Rmtree? || trace[i].Copytree?)
  }

  lemma RemovesAppend(a: seq<Event>, b: seq<Event>)
    ensures Removes(a + b) <==> Removes(a) || Removes(b)
  {
    if Removes(a + b) {
      var i :| 0 <= i < |a + b| && (a + b)[i].OsRemove?;
      if i < |a| {
        assert a[i] == (a + b)[i];
      } else {
        assert b[i - |a|] == (a + b)[i];
      }
    }
    if Removes(a) {
      var i :| 0 <= i < |a| && a[i].OsRemove?;
      assert (a + b)[i] == a[i];
    }
    if Removes(b) {
      var i :| 0 <= i < |b| && b[i].OsRemove?;
      assert (a + b)[|a| + i] == b[i];
    }
  }

  /** The download and `mount_dmg` neither detach, nor delete, nor touch `/Applications`. */
  lemma MountEventsQuiet(env: Environment)
    ensures var calls := MountEvents(env);
      Detaches(calls) == 0 && !Removes(calls) && !ChangesApplications(calls)
  {
    NoDetaches(MountEvents(env));
  }

  /**
   * Steps 3 to 5 detach exactly once and delete the image exactly when the copy
   * succeeded, as their last call.
   */
  lemma FinishEventsFacts(fs: FileSystem, installer: Path, volume: Path, rmtree: TreeOpOutcome, copytree: TreeOpOutcome)
    ensures var calls := FinishEvents(fs, installer, volume, rmtree, copytree);
      && calls != []
      && Detaches(calls) == 1
      && (Removes(calls) <==> CopySucceeds(fs, volume, rmtree, copytree))
      && (Removes(calls) ==> calls[|calls| - 1] == OsRemove(installer))
  {
    var copyEvents := CopyEvents(fs, volume, rmtree);
    assert forall i :: 0 <= i < |copyEvents| ==> copyEvents[i].Rmtree? || copyEvents[i].Copytree?;
    FinishShape(copyEvents, volume, installer, CopySucceeds(fs, volume, rmtree, copytree));
  }

  /** Tree operations, one detach, then possibly one delete: the shape of steps 3 to 5. */
  lemma FinishShape(copyEvents: seq<Event>, volume: Path, installer: Path, remove: bool)
    requires forall i :: 0 <= i < |copyEvents| ==> copyEvents[i].Rmtree? || copyEvents[i].Copytree?
    ensures var calls := copyEvents + [HdiutilDetach(volume)] + (if remove then [OsRemove(installer)] else []);
      && calls != []
      && Detaches(calls) == 1
      && (Removes(calls) <==> remove)
      && (Removes(calls) ==> calls[|calls| - 1] == OsRemove(installer))
  {
    var detach: seq<Event> := [HdiutilDetach(volume)];
    var tail: seq<Event> := if remove then [OsRemove(installer)] else [];
    NoDetaches(copyEvents);
    NoDetaches(tail);
    DetachesAppend(copyEvents, detach);
    DetachesAppend(copyEvents + detach, tail);
    RemovesAppend(copyEvents, detach);
    RemovesAppend(copyEvents + detach, tail);
  }

  /** Every run starts with the download; when it fails, no other call follows. */
  lemma DownloadComesFirst(fs: FileSystem, env: Environment)
    ensures var calls := InstallEvents(fs, env);
      && calls != [] && calls[0] == HttpGet(Url)
      && (!env.fetch.Fetched? ==>
            && calls == [HttpGet(Url)]
            && Detaches(calls) == 0 && !Removes(calls) && !ChangesApplications(calls))
  {
    var calls := InstallEvents(fs, env);
    assert calls[0] == HttpGet(Url);
    if !env.fetch.Fetched? {
      assert calls[1..] == [];
    }
  }

  /** When the image could not be mounted or no volume was found, nothing after the mount happens. */
  lemma MountFailureStops(fs: FileSystem, env: Environment)
    requires env.fetch.Fetched? && MountedVolume(env).None?
    ensures var calls := InstallEvents(fs, env);
      Detaches(calls) == 0 && !Removes(calls) && !ChangesApplications(calls)
  {
    MountEventsQuiet(env);
  }

  /** `hdiutil detach` is called exactly once when a volume was found, and never otherwise. */
  lemma UnmountOnceIffMounted(fs: FileSystem, env: Environment)
    ensures Detaches(InstallEvents(fs, env)) == if env.fetch.Fetched? && MountedVolume(env).Some? then 1 else 0
  {
    MountEventsQuiet(env);
    if !env.fetch.Fetched? {
      NoDetaches(InstallEvents(fs, env));
    } else if MountedVolume(env).Some? {
      var finish := FinishEvents(Downloaded(fs, env), InstallerPath(env), MountedVolume(env).value, env.rmtree, env.copytree);
      FinishEventsFacts(Downloaded(fs, env), InstallerPath(env), MountedVolume(env).value, env.rmtree, env.copytree);
      DetachesAppend(MountEvents(env), finish);
    }
  }

  /** The image is deleted exactly when the copy succeeded, and then as the last call. */
  lemma RemoveOnlyAfterCopy(fs: FileSystem, env: Environment)
    ensures var calls := InstallEvents(fs, env);
      Removes(calls) <==> (&& env.fetch.Fetched? && MountedVolume(env).Some?
                            && CopySucceeds(Downloaded(fs, env), MountedVolume(env).value, env.rmtree, env.copytree))
    ensures var calls := InstallEvents(fs, env);
      Removes(calls) ==> calls[|calls| - 1] == OsRemove(InstallerPath(env))
  {
    MountEventsQuiet(env);
    if env.fetch.Fetched? && MountedVolume(env).Some? {
      var finish := FinishEvents(Downloaded(fs, env), InstallerPath(env), MountedVolume(env).value, env.rmtree, env.copytree);
      FinishEventsFacts(Downloaded(fs, env), InstallerPath(env), MountedVolume(env).value, env.rmtree, env.copytree);
      RemovesAppend(MountEvents(env), finish);
      var calls := MountEvents(env) + finish;
      assert calls[|calls| - 1] == finish[|finish| - 1];
    } else if !env.fetch.Fetched? {
      assert !Removes([HttpGet(Url)]);
    }
  }

  /**
   * A run in which everything succeeds makes exactly these calls: download,
   * attach, list, (remove the old copy,) copy, detach, delete the image. The
   * outcome of the detach plays no part, so its failure does not stop the delete.
   */
  lemma SuccessfulRunCalls(fs: FileSystem, env: Environment)
    requires env.fetch.Fetched? && MountedVolume(env).Some?
    requires CopySucceeds(Downloaded(fs, env), MountedVolume(env).value, env.rmtree, env.copytree)
    ensures var volume, image := MountedVolume(env).value, InstallerPath(env);
      InstallEvents(fs, env)
      == [HttpGet(Url), HdiutilAttach(image), HdiutilInfo]
         + (if Destination in fs then [Rmtree(Destination)] else [])
         + [Copytree(JoinPath(volume, AppBundle), Destination)]
         + [HdiutilDetach(volume)]
         + [OsRemove(image)]
  {
    var volume, image := MountedVolume(env).value, InstallerPath(env);
    var fs1, app := Downloaded(fs, env), JoinPath(volume, AppBundle);
    InstallerPathsDistinct(env.cwd, volume);
    var removeOld: seq<Event> := if Destination in fs then [Rmtree(Destination)] else [];
    var mountEvents := MountEvents(env);
    assert mountEvents == [HttpGet(Url), HdiutilAttach(image), HdiutilInfo];
    var copyEvents := CopyEvents(fs1, volume, env.rmtree);
    assert copyEvents == removeOld + [Copytree(app, Destination)];
    AppendAssoc(mountEvents, removeOld, [Copytree(app, Destination)]);
    AppendAssoc(mountEvents, copyEvents, [HdiutilDetach(volume)]);
    AppendAssoc(mountEvents, copyEvents + [HdiutilDetach(volume)], [OsRemove(image)]);
  }

  /**
   * What one run of `main` leaves in the files and the mount table, for each of its
   * four outcomes, starting from `fs0` and `mounted0`.
   */
  ghost predicate InstallState(fs0: FileSystem, mounted0: set<Path>, fs: FileSystem, mounted: set<Path>, env: Environment) {
    // 1. download failed: nothing is mounted; a partly written image stays behind
    && (!env.fetch.Fetched? ==> mounted == mounted0)
    && (env.fetch.RequestFailed? ==> fs == fs0)
    && (env.fetch.StreamFailed? ==> fs == fs0[InstallerPath(env) := File(env.fetch.partial)])
    // 2. attach or discovery failed: the image is kept, an attached image stays attached
    && (env.fetch.Fetched? && MountedVolume(env).None? ==>
      && fs == Downloaded(fs0, env)
      && mounted == if env.attach.Attached? then mounted0 + {env.attach.mountPoint} else mounted0)
    // 3. copy failed: the image is kept and only the destination may have changed
    && (env.fetch.Fetched? && MountedVolume(env).Some?
            && !CopySucceeds(Downloaded(fs0, env), MountedVolume(env).value, env.rmtree, env.copytree) ==>
      && Lookup(fs, Destination) == CopyLeaves(Downloaded(fs0, env), MountedVolume(env).value, env.rmtree, env.copytree)
      && (forall p :: p != Destination ==> Lookup(fs, p) == Lookup(Downloaded(fs0, env), p))
      && mounted == AfterDetach(mounted0 + {env.attach.mountPoint}, MountedVolume(env).value, env.detachOk))
    // 4. success: the bundle is installed and the image is gone
    && (env.fetch.Fetched? && MountedVolume(env).Some?
            && CopySucceeds(Downloaded(fs0, env), MountedVolume(env).value, env.rmtree, env.copytree) ==>
      && Lookup(fs, Destination) == Lookup(fs0, JoinPath(MountedVolume(env).value, AppBundle))
      && Lookup(fs, InstallerPath(env)) == None
      && (forall p :: p != Destination && p != InstallerPath(env) ==> Lookup(fs, p) == Lookup(fs0, p))
      && mounted == AfterDetach(mounted0 + {env.attach.mountPoint}, MountedVolume(env).value, env.detachOk))
  }

  /**
   * When the volume holds no `AlDente.app`, `copy_aldente_app` gives up before
   * `rmtree`: the old install survives and only the downloaded image is new.
   */
  lemma NoBundleKeepsInstall(fs0: FileSystem, mounted0: set<Path>, fs: FileSystem, mounted: set<Path>, env: Environment)
    requires InstallState(fs0, mounted0, fs, mounted, env)
    requires env.fetch.Fetched? && MountedVolume(env).Some?
    requires JoinPath(MountedVolume(env).value, AppBundle) !in Downloaded(fs0, env)
    ensures Lookup(fs, Destination) == Lookup(fs0, Destination)
    ensures forall p :: p != InstallerPath(env) ==> Lookup(fs, p) == Lookup(fs0, p)
  {
    InstallerPathsDistinct(env.cwd, MountedVolume(env).value);
  }

  function AfterDetach(mounted: set<Path>, volume: Path, detachOk: bool): set<Path> {
    if detachOk then mounted - {volume} else mounted
  }

  class Machine {
    var fs: FileSystem
    var mounted: set<Path>
    ghost var trace: seq<Event>

    constructor (files: FileSystem, volumes: set<Path>)
      ensures fs == files && mounted == volumes && trace == []
    {
      fs, mounted, trace := files, volumes, [];
    }

    /** `download_aldente_installer`: the image is written to the working directory. */
    method DownloadInstaller(url: string, filename: Path, cwd: Path, outcome: FetchOutcome) returns (installer: Option<Path>)
      modifies this`fs, this`trace
      ensures installer.Some? <==> outcome.Fetched?
      ensures installer.Some? ==> installer.value == JoinPath(cwd, filename)
      ensures outcome.Fetched? ==> fs == old(fs)[JoinPath(cwd, filename) := File(outcome.body)]
      ensures outcome.RequestFailed? ==> fs == old(fs)
      ensures outcome.StreamFailed? ==> fs == old(fs)[JoinPath(cwd, filename) := File(outcome.partial)]
      ensures trace == old(trace) + [HttpGet(url)]
    {
      var path := JoinPath(cwd, filename);
      trace := trace + [HttpGet(url)];
      match outcome {
        case RequestFailed =>
          installer := None;
        case StreamFailed(partial) =>
          // the partly written file stays behind
          fs := fs[path := File(partial)];
          installer := None;
        case Fetched(body) =>
          fs := fs[path := File(body)];
          installer := Some(path);
      }
    }

    /** `mount_dmg`: attach the image, list the volumes, and scan the listing. */
    method MountDmg(image: Path, attach: AttachOutcome, info: Option<string>) returns (volume: Option<Path>)
      modifies this`mounted, this`trace
      ensures volume == if attach.Attached? && info.Some? then FindVolume(info.value) else None
      ensures mounted == if attach.Attached? then old(mounted) + {attach.mountPoint} else old(mounted)
      ensures trace == old(trace) + MountDmgEvents(image, attach)
    {
      trace := trace + [HdiutilAttach(image)];
      if attach.AttachFailed? {
        volume := None;
        return;
      }
      mounted := mounted + {attach.mountPoint};
      trace := trace + [HdiutilInfo];
      if info.None? {
        volume := None;
        return;
      }
      volume := ScanVolume(info.value);
    }

    /** `shutil.rmtree`: fails on a missing path or a file. */
    method RemoveTree(path: Path, outcome: TreeOpOutcome) returns (ok: bool)
      modifies this`fs, this`trace
      ensures ok <==> path in old(fs) && old(fs)[path].Dir? && outcome.Completes?
      ensures ok ==> fs == old(fs) - {path}
      ensures !ok && path in old(fs) && old(fs)[path].Dir? ==> fs == Put(old(fs), path, outcome.left)
      ensures !(path in old(fs) && old(fs)[path].Dir?) ==> fs == old(fs)
      ensures trace == old(trace) + [Rmtree(path)]
    {
      trace := trace + [Rmtree(path)];
      if path !in fs || fs[path].File? {
        return false;
      }
      match outcome {
        case Completes =>
          fs := fs - {path};
          ok := true;
        case Raises(left) =>
          fs := Put(fs, path, left);
          ok := false;
      }
    }

    /** `shutil.copytree`: fails unless the source is a directory and the target is absent. */
    method CopyTree(source: Path, target: Path, outcome: TreeOpOutcome) returns (ok: bool)
      modifies this`fs, this`trace
      ensures ok <==> source in old(fs) && old(fs)[source].Dir? && target !in old(fs) && outcome.Completes?
      ensures ok ==> fs == old(fs)[target := old(fs)[source]]
      ensures !ok && source in old(fs) && old(fs)[source].Dir? && target !in old(fs) ==> fs == Put(old(fs), target, outcome.left)
      ensures !(source in old(fs) && old(fs)[source].Dir? && target !in old(fs)) ==> fs == old(fs)
      ensures trace == old(trace) + [Copytree(source, target)]
    {
      trace := trace + [Copytree(source, target)];
      if source !in fs || fs[source].File? || target in fs {
        return false;
      }
      match outcome {
        case Completes =>
          fs := fs[target := fs[source]];
          ok := true;
        case Raises(left) =>
          fs := Put(fs, target, left);
          ok := false;
      }
    }

    /**
     * `copy_aldente_app`: replace `/Applications/AlDente.app` by the bundle on the
     * volume, removing any existing copy first.
     */
    method CopyAlDenteApp(volume: Path, rmtree: TreeOpOutcome, copytree: TreeOpOutcome) returns (ok: bool)
      modifies this`fs, this`trace
      ensures ok <==> CopySucceeds(old(fs), volume, rmtree, copytree)
      ensures ok ==> Lookup(fs, Destination) == Lookup(old(fs), JoinPath(volume, AppBundle))
      ensures JoinPath(volume, AppBundle) !in old(fs) ==> fs == old(fs)
      ensures Lookup(fs, Destination) == CopyLeaves(old(fs), volume, rmtree, copytree)
      ensures forall p :: p != Destination ==> Lookup(fs, p) == Lookup(old(fs), p)
      ensures trace == old(trace) + CopyEvents(old(fs), volume, rmtree)
    {
      var app := JoinPath(volume, AppBundle);
      if app !in fs {
        return false;
      }
      ghost var fs0 := fs;
      if Destination in fs {
        var removed := RemoveTree(Destination, rmtree);
        if !removed {
          assert Lookup(fs, Destination) == CopyLeaves(fs0, volume, rmtree, copytree);
          return false;
        }
      }
      assert Lookup(fs, app) == if app == Destination then None else Lookup(fs0, app);
      ok := CopyTree(app, Destination, copytree);
    }

    /** `unmount_dmg`: a failed detach is only reported. */
    method UnmountDmg(volume: Path, detachOk: bool)
      modifies this`mounted, this`trace
      ensures mounted == AfterDetach(old(mounted), volume, detachOk)
      ensures trace == old(trace) + [HdiutilDetach(volume)]
    {
      trace := trace + [HdiutilDetach(volume)];
      if detachOk {
        mounted := mounted - {volume};
      }
    }

    /** `os.remove`: the file must exist, or the script stops with an uncaught error. */
    method RemoveFile(path: Path)
      requires path in fs && fs[path].File?
      modifies this`fs, this`trace
      ensures fs == old(fs) - {path}
      ensures trace == old(trace) + [OsRemove(path)]
    {
      trace := trace + [OsRemove(path)];
      fs := fs - {path};
    }

    /**
     * Steps 3 to 5 of `main`, once the image is on disk and a volume was found:
     * copy the bundle; unmount in either case; delete the image only after a copy.
     */
    method FinishInstall(installer: Path, volume: Path, rmtree: TreeOpOutcome, copytree: TreeOpOutcome, detachOk: bool)
      requires installer in fs && fs[installer].File?
      requires installer != JoinPath(volume, AppBundle) && installer != Destination
      modifies this`fs, this`mounted, this`trace
      ensures trace == old(trace) + FinishEvents(old(fs), installer, volume, rmtree, copytree)
      ensures mounted == AfterDetach(old(mounted), volume, detachOk)
      ensures Lookup(fs, Destination) == CopyLeaves(old(fs), volume, rmtree, copytree)
      ensures JoinPath(volume, AppBundle) !in old(fs) ==> fs == old(fs)
      ensures !CopySucceeds(old(fs), volume, rmtree, copytree) ==>
        forall p :: p != Destination ==> Lookup(fs, p) == Lookup(old(fs), p)
      ensures CopySucceeds(old(fs), volume, rmtree, copytree) ==>
        && Lookup(fs, Destination) == Lookup(old(fs), JoinPath(volume, AppBundle))
        && Lookup(fs, installer) == None
        && (forall p :: p != Destination && p != installer ==> Lookup(fs, p) == Lookup(old(fs), p))
    {
      ghost var fs0, t0 := fs, trace;
      ghost var copyEvents := CopyEvents(fs0, volume, rmtree);
      var copied := CopyAlDenteApp(volume, rmtree, copytree);
      UnmountDmg(volume, detachOk);
      AppendAssoc(t0, copyEvents, [HdiutilDetach(volume)]);
      if copied {
        assert Lookup(fs, installer) == Lookup(fs0, installer);
        RemoveFile(installer);
        AppendAssoc(t0, copyEvents + [HdiutilDetach(volume)], [OsRemove(installer)]);
      } else {
        assert FinishEvents(fs0, installer, volume, rmtree, copytree) == copyEvents + [HdiutilDetach(volume)];
      }
    }

    /** `main`: download, mount, then finish; a failed step abandons the rest. */
    method Install(env: Environment)
      modifies this
      ensures trace == old(trace) + InstallEvents(old(fs), env)
      ensures InstallState(old(fs), old(mounted), fs, mounted, env)
    {
      ghost var t0 := trace;
      var installer := DownloadInstaller(Url, Filename, env.cwd, env.fetch);
      // the path is never empty, so Python's `not installer_path` is `is None`
      if installer.None? {
        return;
      }
      var volume := MountDmg(installer.value, env.attach, env.info);
      ghost var mountEvents := MountEvents(env);
      AppendAssoc(t0, [HttpGet(Url)], MountDmgEvents(installer.value, env.attach));
      // a found volume is a non-empty token, so `not volume_path` is `is None`
      if volume.None? {
        return;
      }
      InstallerPathsDistinct(env.cwd, volume.value);
      ghost var fs1 := fs;
      FinishInstall(installer.value, volume.value, env.rmtree, env.copytree, env.detachOk);
      AppendAssoc(t0, mountEvents, FinishEvents(fs1, installer.value, volume.value, env.rmtree, env.copytree));
    }

    /** The script's entry point: `main` runs only on macOS. */
    method RunScript(sysname: string, env: Environment)
      modifies this
      ensures sysname != MacOS ==> fs == old(fs) && mounted == old(mounted) && trace == old(trace)
      ensures sysname == MacOS ==> trace == old(trace) + InstallEvents(old(fs), env)
      ensures sysname == MacOS ==> InstallState(old(fs), old(mounted), fs, mounted, env)
    {
      if sysname != MacOS {
        return;
      }
      Install(env);
    }
  }
}
