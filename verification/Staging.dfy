// internal/install/stage.go: staging the writer and handing over to it.
//
// Every external command and file operation is a step of Host whose outcome is
// arbitrary, so a contract here speaks about every pattern of failures. The
// source's error values are sets of failures; the empty set is nil and
// errors.Join is union.
module Staging {
  import opened Wrappers

  datatype InstallMethod = Direct | Kexec | Grub | Other(name: string)

  // The two staging directories and /etc/grub.d.
  datatype Place = BuildDir | BootDir | ScriptDir

  datatype File = BuildInitrd | BootInitrd | Script

  datatype NextEntry = NoEntry | WriterEntry | OtherEntry

  datatype Image = NoImage | WriterImage | OtherImage

  // The request that ends a run: reboot through GRUB, or jump into the image.
  datatype Handover = Pending | Rebooting | Jumping

  datatype Failure =
    | StepFailed
    | UnsetFailed
    | RemoveFailed(file: File)
    | RmdirFailed(dir: Place)
    | RefreshFailed
    | UnloadFailed

  type Error = set<Failure>

  datatype Stage = Stage(
    method_: InstallMethod,
    initrd: Option<File>,
    script: Option<File>,
    environment: bool,
    stageDir: Option<Place>,
    buildDir: Option<Place>)

  function Location(f: File): Place
  {
    match f
    case BuildInitrd => BuildDir
    case BootInitrd => BootDir
    case Script => ScriptDir
  }

  // The only file the installer keeps in a place.
  function Content(d: Place): File
  {
    match d
    case BuildDir => BuildInitrd
    case BootDir => BootInitrd
    case ScriptDir => Script
  }

  // What the installer can leave on the host. `foreign` are the directories
  // that hold files of others; `strays` are those that hold a temporary file
  // whose removal failed, an error the source ignores. The last three fields
  // record what commands of this run did.
  datatype World = World(
    files: set<File>,
    dirs: set<Place>,
    foreign: set<Place>,
    strays: set<Place>,
    menu: bool,
    next: NextEntry,
    image: Image,
    unsetFailed: bool,
    unloadFailed: bool,
    handover: Handover)
  {
    ghost predicate Valid()
    {
      && (BuildInitrd in files ==> BuildDir in dirs)
      && (BootInitrd in files ==> BootDir in dirs)
      && foreign <= dirs
      && strays - {ScriptDir} <= dirs
      && ScriptDir !in dirs
    }

    predicate Occupied(d: Place)
    {
      d in foreign || d in strays || Content(d) in files
    }

    // An armed entry finds everything it boots in place, and never competes
    // with a loaded kexec image, unless a command to undo one of them failed.
    // The machine leaves this system only for a writer that is ready.
    predicate Safe()
    {
      && (next == WriterEntry ==>
            && (unsetFailed || (menu && Script in files && BootInitrd in files))
            && (image == WriterImage ==> unloadFailed))
      && (handover == Rebooting ==> next == WriterEntry && !unsetFailed)
      && (handover == Jumping ==> image == WriterImage && BuildInitrd !in files)
    }

    // Safe whatever becomes of the files.
    predicate Quiet()
    {
      && (next == WriterEntry ==> unsetFailed && (image == WriterImage ==> unloadFailed))
      && handover == Pending
    }
  }

  // Each thing found in `after` but not in `before` is named by the error,
  // apart from stray temporary files and a kexec image that refused to unload.
  ghost predicate Accounted(before: World, after: World, err: Error)
  {
    && (forall f :: f in after.files && f !in before.files ==> RemoveFailed(f) in err)
    && (forall d :: d in after.dirs && d !in before.dirs ==>
          || RmdirFailed(d) in err
          || d in after.strays - before.strays
          || RemoveFailed(Content(d)) in err)
    && (after.menu && !before.menu ==> RefreshFailed in err || RemoveFailed(Script) in err)
    && (after.next == WriterEntry && before.next != WriterEntry ==> UnsetFailed in err)
    && (after.image == WriterImage && before.image != WriterImage ==> after.unloadFailed)
  }

  // No artifact of the installer is left that was not there before. A
  // directory counts unless it holds files of others.
  ghost predicate NothingLeft(before: World, after: World)
  {
    && after.files <= before.files
    && after.dirs - after.foreign <= before.dirs - before.foreign
    && (after.menu ==> before.menu)
    && (after.next == WriterEntry ==> before.next == WriterEntry)
    && (after.image == WriterImage ==> before.image == WriterImage)
  }

  // The commands, file operations and checks of a run that can fail.
  datatype Kind =
    | Sources       // kernel, initramfs and command line read
    | MakeDir | Unlink | RemoveEmpty
    | Space         // sizes and free space for the build
    | Build         // BuildInitramfs
    | Measure       // validateInitramfsMemory
    | BootSpace     // size and free space in the boot directory
    | Copy          // copyFileAtomic
    | Compose       // grubScript
    | Install       // writeFileAtomic
    | Flush         // sync
    | Load | Unload
    | Jump          // systemctl kexec
    | DirectJump    // kexec -e
    | UpdateMenu
    | Validate      // validateGRUBConfiguration
    | Storage       // validateGRUBStorage
    | Arm
    | ReadBack      // verifyGRUBNextEntry
    | Unset
    | Reboot        // systemctl reboot
    | DirectReboot  // reboot
    | WriteDirectly // WriteManifest and RunWriter

  // The ways off this system, and the removal of a loaded image.
  predicate Leaves(k: Kind)
  {
    k.Load? || k.Unload? || k.Jump? || k.DirectJump? || k.Reboot? || k.DirectReboot?
  }

  // The kinds of which a step of this run has passed, whether no step has
  // failed, and whether one has failed that neither leaves nor unloads.
  datatype Run = Run(passed: set<Kind>, faultless: bool, elsewhere: bool)
  {
    ghost function Next(k: Kind, ok: bool): Run
    {
      if ok then this.(passed := passed + {k}) else this.(faultless := false, elsewhere := elsewhere || !Leaves(k))
    }

    // No step is tried before those that it needs have passed.
    ghost predicate InOrder(k: Kind)
    {
      match k
      case MakeDir => Sources in passed
      case Space => MakeDir in passed && Unlink in passed
      case Build => Space in passed
      case Measure => Build in passed
      case BootSpace => Measure in passed
      case Copy => BootSpace in passed
      case Compose => Copy in passed
      case Install => Compose in passed
      case Flush => Measure in passed
      case Load => Flush in passed
      case Jump => Load in passed
      case DirectJump => Load in passed
      case Validate => UpdateMenu in passed
      case Storage => Validate in passed
      case Arm => Storage in passed && Install in passed && Flush in passed
      case ReadBack => Arm in passed
      case Reboot => ReadBack in passed
      case DirectReboot => ReadBack in passed
      case _ => true
    }
  }

  // A stretch of steps: what has passed for the sake of later ones stays
  // passed, and a failure stays on record.
  ghost predicate Grew(before: Run, after: Run)
  {
    && before.passed <= after.passed
    && (after.faultless ==> before.faultless)
    && (before.elsewhere ==> after.elsewhere)
  }

  // A stretch without attempts to leave or unload, all well when `ok`.
  ghost predicate Stayed(before: Run, after: Run, ok: bool)
  {
    && Grew(before, after)
    && (after.elsewhere <==> before.elsewhere || !ok)
    && (!ok ==> !after.faultless)
  }

  // How a kind of step turns out on a host: always well, always badly, or
  // either way at each use.
  datatype Luck = Works | Fails | Either

  class Host {
    const luck: Kind -> Luck
    var now: World
    // Every state the host has been in was safe, and every step was in order.
    ghost var alwaysSafe: bool
    ghost var run: Run

    constructor (w: World, luck: Kind -> Luck)
      ensures now == w && this.luck == luck && run == Run({}, true, false)
      ensures alwaysSafe == w.Safe()
    {
      now, this.luck, run := w, luck, Run({}, true, false);
      alwaysSafe := w.Safe();
    }

    // The monitor knows about the present.
    ghost predicate Watched()
      reads this
    {
      alwaysSafe ==> now.Safe()
    }

    ghost predicate Agrees(k: Kind, ok: bool)
    {
      (luck(k).Works? ==> ok) && (luck(k).Fails? ==> !ok)
    }

    // One of two ways is enough.
    ghost predicate AgreesEither(k: Kind, direct: Kind, ok: bool)
    {
      && (luck(k).Works? || luck(direct).Works? ==> ok)
      && (luck(k).Fails? && luck(direct).Fails? ==> !ok)
    }

    ghost predicate NoJump()
    {
      luck(Jump).Fails? && luck(DirectJump).Fails?
    }

    ghost predicate SureJump()
    {
      luck(Jump).Works? || luck(DirectJump).Works?
    }

    ghost predicate SureReboot()
    {
      luck(Reboot).Works? || luck(DirectReboot).Works?
    }

    // Everything works but, perhaps, leaving this system and unloading.
    ghost predicate OthersWork()
    {
      forall k :: !Leaves(k) ==> luck(k).Works?
    }

    method Outcome(k: Kind) returns (ok: bool)
      ensures Agrees(k, ok)
    {
      var chance: bool := *;
      ok := luck(k).Works? || (luck(k).Either? && chance);
    }

    // One step: the only way the host changes.
    method Become(w: World, k: Kind, ok: bool)
      modifies this
      ensures now == w && run == old(run).Next(k, ok)
      ensures alwaysSafe == (old(alwaysSafe) && old(run).InOrder(k) && now.Safe())
    {
      alwaysSafe := alwaysSafe && run.InOrder(k);
      now, run := w, run.Next(k, ok);
      alwaysSafe := alwaysSafe && now.Safe();
    }

    // A command or check that leaves the modelled host alone.
    method Step(k: Kind) returns (ok: bool)
      modifies this
      ensures now == old(now) && run == old(run).Next(k, ok)
      ensures alwaysSafe == (old(alwaysSafe) && old(run).InOrder(k) && now.Safe())
      ensures Agrees(k, ok)
    {
      ok := Outcome(k);
      Become(now, k, ok);
    }

    // systemctl reboot or reboot, systemctl kexec or kexec -e.
    method Request(k: Kind, h: Handover) returns (ok: bool)
      modifies this
      ensures now == if ok then old(now).(handover := h) else old(now)
      ensures run == old(run).Next(k, ok)
      ensures alwaysSafe == (old(alwaysSafe) && old(run).InOrder(k) && now.Safe())
      ensures Agrees(k, ok)
    {
      ok := Outcome(k);
      Become(if ok then now.(handover := h) else now, k, ok);
    }

    // The request and, when it fails, its direct form.
    method HandOver(k: Kind, direct: Kind, h: Handover) returns (ok: bool)
      requires Leaves(k) && Leaves(direct)
      modifies this
      ensures now == if ok then old(now).(handover := h) else old(now)
      ensures old(alwaysSafe) && old(now).Safe() && now.Safe() && old(run).InOrder(k) && old(run).InOrder(direct) ==> alwaysSafe
      ensures Grew(old(run), run) && run.elsewhere == old(run).elsewhere && (run.faultless ==> ok)
      ensures old(Watched()) ==> Watched()
      ensures AgreesEither(k, direct, ok)
    {
      ok := Request(k, h);
      if !ok {
        ok := Request(direct, h);
      }
    }

    method Mkdir(d: Place) returns (ok: bool)
      modifies this
      ensures now == if ok then old(now).(dirs := old(now).dirs + {d}) else old(now)
      ensures run == old(run).Next(MakeDir, ok)
      ensures alwaysSafe == (old(alwaysSafe) && old(run).InOrder(MakeDir) && now.Safe())
      ensures Agrees(MakeDir, ok)
    {
      ok := Outcome(MakeDir);
      Become(if ok then now.(dirs := now.dirs + {d}) else now, MakeDir, ok);
    }

    // os.Remove of a file, where a missing file counts as success.
    method RemoveFile(f: File) returns (ok: bool)
      modifies this
      ensures now == if ok then old(now).(files := old(now).files - {f}) else old(now)
      ensures run == old(run).Next(Unlink, ok)
      ensures alwaysSafe == (old(alwaysSafe) && old(run).InOrder(Unlink) && now.Safe())
      ensures Agrees(Unlink, ok)
    {
      ok := Outcome(Unlink);
      Become(if ok then now.(files := now.files - {f}) else now, Unlink, ok);
    }

    // os.Remove of a directory, where missing or not empty counts as success.
    method RemoveDir(d: Place) returns (ok: bool)
      modifies this
      ensures now == if ok && !old(now).Occupied(d) then old(now).(dirs := old(now).dirs - {d}) else old(now)
      ensures run == old(run).Next(RemoveEmpty, ok)
      ensures alwaysSafe == (old(alwaysSafe) && old(run).InOrder(RemoveEmpty) && now.Safe())
      ensures Agrees(RemoveEmpty, ok)
    {
      ok := Outcome(RemoveEmpty);
      Become(if ok && !now.Occupied(d) then now.(dirs := now.dirs - {d}) else now, RemoveEmpty, ok);
    }

    function Making(f: File): Kind
    {
      match f
      case BuildInitrd => Build
      case BootInitrd => Copy
      case Script => Install
    }

    // A file produced through a temporary in the same place: on failure the
    // temporary may be left behind, and with it `f` itself when `partial`.
    method Produce(f: File, partial: bool) returns (ok: bool)
      modifies this
      ensures now == old(now).(files := now.files, strays := now.strays)
      ensures old(now).strays <= now.strays <= old(now).strays + {Location(f)}
      ensures if ok then now.files == old(now).files + {f}
              else now.files == old(now).files || (partial && now.files == old(now).files + {f})
      ensures run == old(run).Next(Making(f), ok)
      ensures alwaysSafe == (old(alwaysSafe) && old(run).InOrder(Making(f)) && now.Safe())
      ensures Agrees(Making(f), ok)
    {
      ok := Outcome(Making(f));
      var stray: bool, made: bool := *, *;
      Become(now.(files := if ok || (partial && made) then now.files + {f} else now.files,
                  strays := if stray then now.strays + {Location(f)} else now.strays), Making(f), ok);
    }

    method KexecLoad() returns (ok: bool)
      modifies this
      ensures if ok then now == old(now).(image := WriterImage)
              else now == old(now) || now == old(now).(image := NoImage)
      ensures run == old(run).Next(Load, ok)
      ensures alwaysSafe == (old(alwaysSafe) && old(run).InOrder(Load) && now.Safe())
      ensures Agrees(Load, ok)
    {
      ok := Outcome(Load);
      var dropped: bool := *;
      Become(if ok then now.(image := WriterImage) else if dropped then now.(image := NoImage) else now, Load, ok);
    }

    method KexecUnload() returns (ok: bool)
      modifies this
      ensures now == if ok then old(now).(image := NoImage) else old(now).(unloadFailed := true)
      ensures run == old(run).Next(Unload, ok)
      ensures alwaysSafe == (old(alwaysSafe) && old(run).InOrder(Unload) && now.Safe())
      ensures Agrees(Unload, ok)
    {
      ok := Outcome(Unload);
      Become(if ok then now.(image := NoImage) else now.(unloadFailed := true), Unload, ok);
    }

    // update-grub builds grub.cfg from the scripts it finds.
    method UpdateGrub() returns (ok: bool)
      modifies this
      ensures now == old(now).(menu := now.menu)
      ensures now.menu ==> Script in now.files || (!ok && old(now).menu)
      ensures luck(UpdateMenu).Works? && Script in now.files ==> now.menu
      ensures run == old(run).Next(UpdateMenu, ok)
      ensures alwaysSafe == (old(alwaysSafe) && old(run).InOrder(UpdateMenu) && now.Safe())
      ensures Agrees(UpdateMenu, ok)
    {
      ok := Outcome(UpdateMenu);
      var listed: bool := *;
      Become(now.(menu := (listed || luck(UpdateMenu).Works?) && (Script in now.files || (!ok && now.menu))), UpdateMenu, ok);
    }

    method GrubReboot() returns (ok: bool)
      modifies this
      ensures now == old(now) || now == old(now).(next := WriterEntry)
      ensures luck(Arm).Works? ==> now.next == WriterEntry
      ensures run == old(run).Next(Arm, ok)
      ensures alwaysSafe == (old(alwaysSafe) && old(run).InOrder(Arm) && now.Safe())
      ensures Agrees(Arm, ok)
    {
      ok := Outcome(Arm);
      var armed: bool := *;
      Become(if armed || luck(Arm).Works? then now.(next := WriterEntry) else now, Arm, ok);
    }

    method UnsetNextEntry() returns (ok: bool)
      modifies this
      ensures now == old(now).(next := now.next, unsetFailed := old(now).unsetFailed || !ok)
      ensures now.next == NoEntry || (!ok && now.next == old(now).next)
      ensures run == old(run).Next(Unset, ok)
      ensures alwaysSafe == (old(alwaysSafe) && old(run).InOrder(Unset) && now.Safe())
      ensures Agrees(Unset, ok)
    {
      ok := Outcome(Unset);
      var cleared: bool := *;
      Become(if ok then now.(next := NoEntry)
             else now.(unsetFailed := true, next := if cleared then NoEntry else now.next), Unset, ok);
    }

    // validateGRUBConfiguration: succeeds only on a complete writer entry.
    method ValidateConfiguration() returns (ok: bool)
      modifies this
      ensures now == old(now) && run == old(run).Next(Validate, ok)
      ensures alwaysSafe == (old(alwaysSafe) && old(run).InOrder(Validate) && now.Safe())
      ensures (ok ==> now.menu) && (now.menu ==> Agrees(Validate, ok))
    {
      ok := Outcome(Validate);
      ok := ok && now.menu;
      Become(now, Validate, ok);
    }

    // verifyGRUBNextEntry: succeeds only when the entry reads back as armed.
    method VerifyNextEntry() returns (ok: bool)
      modifies this
      ensures now == old(now) && run == old(run).Next(ReadBack, ok)
      ensures alwaysSafe == (old(alwaysSafe) && old(run).InOrder(ReadBack) && now.Safe())
      ensures (ok ==> now.next == WriterEntry) && (now.next == WriterEntry ==> Agrees(ReadBack, ok))
    {
      ok := Outcome(ReadBack);
      ok := ok && now.next == WriterEntry;
      Become(now, ReadBack, ok);
    }

    // The loop over file paths shared by both cleanups.
    method RemoveFiles(paths: seq<File>) returns (errs: Error)
      requires now.Valid()
      modifies this
      ensures now == old(now).(files := now.files) && now.Valid()
      ensures now.files <= old(now).files
      ensures forall f :: f in old(now).files && f !in paths ==> f in now.files
      ensures forall f :: f in paths && f in now.files ==> RemoveFailed(f) in errs
      ensures forall e :: e in errs ==> e.RemoveFailed?
      ensures old(alwaysSafe) && old(now).Quiet() ==> alwaysSafe
      ensures Stayed(old(run), run, errs == {})
      ensures old(Watched()) ==> Watched()
      ensures OthersWork() ==> errs == {}
    {
      errs := {};
      for i := 0 to |paths|
        invariant now == old(now).(files := now.files) && now.Valid()
        invariant now.files <= old(now).files
        invariant forall f :: f in old(now).files && f !in paths[..i] ==> f in now.files
        invariant forall f :: f in paths[..i] && f in now.files ==> RemoveFailed(f) in errs
        invariant forall e :: e in errs ==> e.RemoveFailed?
        invariant old(alwaysSafe) && old(now).Quiet() ==> alwaysSafe
        invariant Stayed(old(run), run, errs == {})
        invariant old(Watched()) ==> Watched()
        invariant OthersWork() ==> errs == {}
      {
        var ok := RemoveFile(paths[i]);
        if !ok {
          errs := errs + {RemoveFailed(paths[i])};
        }
      }
    }

    // The loop over directories shared by both cleanups.
    method RemoveDirs(places: seq<Place>) returns (errs: Error)
      requires now.Valid()
      modifies this
      ensures now == old(now).(dirs := now.dirs) && now.Valid()
      ensures now.dirs <= old(now).dirs
      ensures forall d :: d in old(now).dirs && d !in places ==> d in now.dirs
      ensures forall d :: d in places && d in now.dirs ==> RmdirFailed(d) in errs || now.Occupied(d)
      ensures forall e :: e in errs ==> e.RmdirFailed?
      ensures old(alwaysSafe) && old(now).Safe() ==> alwaysSafe
      ensures Stayed(old(run), run, errs == {})
      ensures old(Watched()) ==> Watched()
      ensures OthersWork() ==> errs == {}
    {
      errs := {};
      for i := 0 to |places|
        invariant now == old(now).(dirs := now.dirs) && now.Valid()
        invariant now.dirs <= old(now).dirs
        invariant forall d :: d in old(now).dirs && d !in places[..i] ==> d in now.dirs
        invariant forall d :: d in places[..i] && d in now.dirs ==> RmdirFailed(d) in errs || now.Occupied(d)
        invariant forall e :: e in errs ==> e.RmdirFailed?
        invariant old(alwaysSafe) && old(now).Safe() ==> alwaysSafe
        invariant Stayed(old(run), run, errs == {})
        invariant old(Watched()) ==> Watched()
        invariant OthersWork() ==> errs == {}
      {
        var ok := RemoveDir(places[i]);
        if !ok {
          errs := errs + {RmdirFailed(places[i])};
        }
      }
    }

    method CleanupPartialStage(files: seq<File>, directories: seq<Place>) returns (errs: Error)
      requires now.Valid()
      modifies this
      ensures now == old(now).(files := now.files, dirs := now.dirs) && now.Valid()
      ensures now.files <= old(now).files && now.dirs <= old(now).dirs
      ensures forall f :: f in files && f in now.files ==> RemoveFailed(f) in errs
      ensures forall d :: d in directories && d in now.dirs ==> RmdirFailed(d) in errs || now.Occupied(d)
      ensures StepFailed !in errs && UnsetFailed !in errs && UnloadFailed !in errs
      ensures old(alwaysSafe) && old(now).Quiet() ==> alwaysSafe
      ensures Stayed(old(run), run, errs == {})
      ensures old(Watched()) ==> Watched()
      ensures OthersWork() ==> errs == {}
    {
      errs := RemoveFiles(files);
      var reversed := seq(|directories|, i requires 0 <= i < |directories| => directories[|directories| - 1 - i]);
      assert forall d :: d in directories ==> d in reversed by {
        forall d | d in directories ensures d in reversed {
          var k :| 0 <= k < |directories| && directories[k] == d;
          assert reversed[|directories| - 1 - k] == d;
        }
      }
      var more := RemoveDirs(reversed);
      errs := errs + more;
    }

    // The two loops of cleanupStage.
    method RemoveStaged(stage: Stage) returns (errs: Error)
      requires now.Valid()
      modifies this
      ensures now == old(now).(files := now.files, dirs := now.dirs) && now.Valid()
      ensures now.files <= old(now).files && now.dirs <= old(now).dirs
      ensures forall f :: (stage.script == Some(f) || stage.initrd == Some(f)) && f in now.files ==> RemoveFailed(f) in errs
      ensures forall d :: (stage.stageDir == Some(d) || stage.buildDir == Some(d)) && d in now.dirs ==>
                RmdirFailed(d) in errs || now.Occupied(d)
      ensures forall e :: e in errs ==> e.RemoveFailed? || e.RmdirFailed?
      ensures old(alwaysSafe) && old(now).Quiet() ==> alwaysSafe
      ensures Stayed(old(run), run, errs == {})
      ensures old(Watched()) ==> Watched()
      ensures OthersWork() ==> errs == {}
    {
      var files := (if stage.script.Some? then [stage.script.value] else []) +
                   (if stage.initrd.Some? then [stage.initrd.value] else []);
      var dirs := (if stage.stageDir.Some? then [stage.stageDir.value] else []) +
                  (if stage.buildDir.Some? then [stage.buildDir.value] else []);
      var fileErrs := RemoveFiles(files);
      var dirErrs := RemoveDirs(dirs);
      errs := fileErrs + dirErrs;
    }

    // grub-editenv, the first step of cleanupStage.
    method ClearEntry() returns (errs: Error)
      modifies this
      ensures now == old(now).(next := now.next, unsetFailed := now.unsetFailed)
      ensures (errs == {} ==> now.next == NoEntry) && (now.next == old(now).next || now.next == NoEntry)
      ensures now.unsetFailed <==> old(now).unsetFailed || UnsetFailed in errs
      ensures errs <= {UnsetFailed}
      ensures old(alwaysSafe) && old(now).handover == Pending && old(now).Safe() ==> alwaysSafe && now.Quiet()
      ensures Stayed(old(run), run, errs == {}) && (old(Watched()) ==> Watched()) && Watched()
      ensures OthersWork() ==> errs == {}
    {
      errs := {};
      var ok := UnsetNextEntry();
      if !ok {
        errs := {UnsetFailed};
      }
    }

    // update-grub, the last step of cleanupStage.
    method RefreshMenu() returns (errs: Error)
      modifies this
      ensures now == old(now).(menu := now.menu)
      ensures now.menu ==> RefreshFailed in errs || Script in now.files
      ensures errs <= {RefreshFailed}
      ensures old(alwaysSafe) && old(now).Quiet() ==> alwaysSafe
      ensures Stayed(old(run), run, errs == {}) && (old(Watched()) ==> Watched()) && Watched()
      ensures errs == {} ==> UpdateMenu in run.passed
      ensures OthersWork() ==> errs == {}
    {
      errs := {};
      var ok := UpdateGrub();
      if !ok {
        errs := {RefreshFailed};
      }
    }

    // cleanupStage after its first step.
    method TakeDown(stage: Stage, refreshGrub: bool) returns (errs: Error)
      requires now.Valid()
      modifies this
      ensures now == old(now).(files := now.files, dirs := now.dirs, menu := now.menu) && now.Valid()
      ensures now.files <= old(now).files && now.dirs <= old(now).dirs
      ensures forall f :: (stage.script == Some(f) || stage.initrd == Some(f)) && f in now.files ==> RemoveFailed(f) in errs
      ensures forall d :: (stage.stageDir == Some(d) || stage.buildDir == Some(d)) && d in now.dirs ==>
                RmdirFailed(d) in errs || now.Occupied(d)
      ensures if refreshGrub then now.menu ==> RefreshFailed in errs || Script in now.files
              else now.menu == old(now).menu
      ensures StepFailed !in errs && UnsetFailed !in errs && UnloadFailed !in errs
      ensures old(alwaysSafe) && old(now).Quiet() ==> alwaysSafe
      ensures Stayed(old(run), run, errs == {})
      ensures old(Watched()) ==> Watched()
      ensures OthersWork() ==> errs == {}
    {
      errs := RemoveStaged(stage);
      if refreshGrub {
        var refresh := RefreshMenu();
        errs := errs + refresh;
      }
    }

    method CleanupStage(stage: Stage, clearNextEntry: bool, refreshGrub: bool) returns (errs: Error)
      requires now.Valid()
      modifies this
      ensures now == old(now).(files := now.files, dirs := now.dirs, menu := now.menu,
                               next := now.next, unsetFailed := now.unsetFailed) && now.Valid()
      ensures now.files <= old(now).files && now.dirs <= old(now).dirs
      ensures forall f :: (stage.script == Some(f) || stage.initrd == Some(f)) && f in now.files ==> RemoveFailed(f) in errs
      ensures forall d :: (stage.stageDir == Some(d) || stage.buildDir == Some(d)) && d in now.dirs ==>
                RmdirFailed(d) in errs || now.Occupied(d)
      ensures if refreshGrub then now.menu ==> RefreshFailed in errs || Script in now.files
              else now.menu == old(now).menu
      ensures if clearNextEntry && stage.environment
              then (UnsetFailed !in errs ==> now.next == NoEntry) && (now.next == old(now).next || now.next == NoEntry)
              else now.next == old(now).next
      ensures now.unsetFailed <==> old(now).unsetFailed || UnsetFailed in errs
      ensures StepFailed !in errs && UnloadFailed !in errs
      ensures !(clearNextEntry && stage.environment) ==> UnsetFailed !in errs
      ensures old(alwaysSafe) && old(now).Safe() && old(now).handover == Pending ==>
                ((clearNextEntry && stage.environment) || old(now).Quiet() ==> alwaysSafe)
      ensures Stayed(old(run), run, errs == {})
      ensures old(Watched()) ==> Watched()
      ensures OthersWork() ==> errs == {}
    {
      errs := {};
      if clearNextEntry && stage.environment {
        errs := ClearEntry();
      }
      var more := TakeDown(stage, refreshGrub);
      errs := errs + more;
    }

    // The initramfs is built and measured.
    method BuildImage() returns (ok: bool)
      requires now.Valid() && BuildDir in now.dirs
      modifies this
      ensures now == old(now).(files := now.files, strays := now.strays) && now.Valid()
      ensures old(now).strays <= now.strays
      ensures old(alwaysSafe) && old(now).Quiet() && MakeDir in old(run).passed && Unlink in old(run).passed ==> alwaysSafe
      ensures now.files == old(now).files || now.files == old(now).files + {BuildInitrd}
      ensures ok ==> BuildInitrd in now.files && Measure in run.passed
      ensures Stayed(old(run), run, ok)
      ensures old(Watched()) ==> Watched()
      ensures OthersWork() ==> ok
    {
      ok := Step(Space);
      if !ok { return; }
      ok := Produce(BuildInitrd, true);
      if !ok { return; }
      ok := Step(Measure);
    }

    // An initramfs of an earlier run goes first.
    method RebuildImage() returns (ok: bool)
      requires now.Valid() && BuildDir in now.dirs
      modifies this
      ensures now == old(now).(files := now.files, strays := now.strays) && now.Valid()
      ensures old(now).strays <= now.strays
      ensures old(alwaysSafe) && old(now).Quiet() && MakeDir in old(run).passed ==> alwaysSafe
      ensures now.files <= old(now).files + {BuildInitrd}
      ensures ok ==> now.files == old(now).files + {BuildInitrd} && Measure in run.passed
      ensures Stayed(old(run), run, ok)
      ensures old(Watched()) ==> Watched()
      ensures OthersWork() ==> ok
    {
      ok := RemoveFile(BuildInitrd);
      if !ok { return; }
      ok := BuildImage();
    }

    // PrepareStage from the first directory to the measured initramfs. What is
    // registered for cleanup is returned with the outcome.
    method BuildInitrdStage() returns (ok: bool, files: seq<File>, dirs: seq<Place>)
      requires now.Valid()
      modifies this
      ensures now == old(now).(files := now.files, dirs := now.dirs, strays := now.strays) && now.Valid()
      ensures old(now).strays <= now.strays
      ensures old(alwaysSafe) && old(now).Quiet() && Sources in old(run).passed ==> alwaysSafe
      ensures Registered(files, dirs, old(now), now)
      ensures ok ==> now.files == old(now).files + {BuildInitrd} && now.dirs == old(now).dirs + {BuildDir}
      ensures ok ==> files == [BuildInitrd] && dirs == [BuildDir] && Measure in run.passed
      ensures Stayed(old(run), run, ok)
      ensures old(Watched()) ==> Watched()
      ensures OthersWork() ==> ok
    {
      files, dirs := [], [];
      ok := Mkdir(BuildDir);
      if !ok { return; }
      dirs, files := [BuildDir], [BuildInitrd];
      ok := RebuildImage();
    }

    // The built image is copied to the boot directory.
    method CopyToBoot() returns (ok: bool)
      requires now.Valid() && BootDir in now.dirs
      modifies this
      ensures now == old(now).(files := now.files, strays := now.strays) && now.Valid()
      ensures old(now).strays <= now.strays
      ensures old(alwaysSafe) && old(now).Quiet() && Measure in old(run).passed ==> alwaysSafe
      ensures now.files == if ok then old(now).files + {BootInitrd} else old(now).files
      ensures ok ==> Copy in run.passed
      ensures Stayed(old(run), run, ok)
      ensures old(Watched()) ==> Watched()
      ensures OthersWork() ==> ok
    {
      ok := Step(BootSpace);
      if !ok { return; }
      ok := Produce(BootInitrd, false);
    }

    // The built image moves to the boot directory, and the script is composed.
    method MoveToBoot() returns (ok: bool)
      requires now.Valid() && BootDir in now.dirs
      modifies this
      ensures now == old(now).(files := now.files, strays := now.strays) && now.Valid()
      ensures old(now).strays <= now.strays
      ensures old(alwaysSafe) && old(now).Quiet() && Measure in old(run).passed ==> alwaysSafe
      ensures now.files <= old(now).files + {BootInitrd}
      ensures ok ==> now.files == old(now).files - {BuildInitrd} + {BootInitrd} && Compose in run.passed
      ensures Stayed(old(run), run, ok)
      ensures old(Watched()) ==> Watched()
      ensures OthersWork() ==> ok
    {
      ok := CopyToBoot();
      if !ok { return; }
      ok := RemoveFile(BuildInitrd);
      if !ok { return; }
      ok := Step(Compose);
    }

    // PrepareStage once the boot directory is there.
    method FillBoot(registered: seq<File>) returns (ok: bool, files: seq<File>)
      requires now.Valid() && BootDir in now.dirs && BootInitrd in registered
      modifies this
      ensures now == old(now).(files := now.files, strays := now.strays) && now.Valid()
      ensures old(now).strays <= now.strays
      ensures old(alwaysSafe) && old(now).Quiet() && Measure in old(run).passed ==> alwaysSafe
      ensures registered <= files
      ensures forall f :: f in now.files && f !in old(now).files ==> f in files
      ensures ok ==> now.files == old(now).files - {BuildInitrd} + {BootInitrd, Script} && Install in run.passed
      ensures Stayed(old(run), run, ok)
      ensures old(Watched()) ==> Watched()
      ensures OthersWork() ==> ok
    {
      files := registered;
      ok := MoveToBoot();
      if !ok { return; }
      files := files + [Script];
      ok := Produce(Script, false);
    }

    // PrepareStage from the boot directory to the GRUB script.
    method InstallGrubEntry(builtFiles: seq<File>, builtDirs: seq<Place>)
      returns (ok: bool, files: seq<File>, dirs: seq<Place>)
      requires now.Valid()
      modifies this
      ensures now == old(now).(files := now.files, dirs := now.dirs, strays := now.strays) && now.Valid()
      ensures old(now).strays <= now.strays
      ensures old(alwaysSafe) && old(now).Quiet() && Sources in old(run).passed && Measure in old(run).passed ==> alwaysSafe
      ensures builtFiles <= files && builtDirs <= dirs
      ensures Registered(files, dirs, old(now), now)
      ensures ok ==> now.files == old(now).files - {BuildInitrd} + {BootInitrd, Script} && now.dirs == old(now).dirs + {BootDir}
      ensures ok ==> Install in run.passed
      ensures Stayed(old(run), run, ok)
      ensures old(Watched()) ==> Watched()
      ensures OthersWork() ==> ok
    {
      files, dirs := builtFiles, builtDirs;
      ok := Mkdir(BootDir);
      if !ok { return; }
      dirs, files := dirs + [BootDir], files + [BootInitrd];
      ok, files := FillBoot(files);
    }

    // PrepareStage between its first checks and its deferred cleanup.
    method Fill(target: InstallMethod) returns (ok: bool, files: seq<File>, dirs: seq<Place>)
      requires now.Valid() && (target == Kexec || target == Grub)
      modifies this
      ensures now == old(now).(files := now.files, dirs := now.dirs, strays := now.strays) && now.Valid()
      ensures old(now).strays <= now.strays
      ensures old(alwaysSafe) && old(now).Quiet() && Sources in old(run).passed ==> alwaysSafe
      ensures Registered(files, dirs, old(now), now)
      ensures ok && target == Kexec ==> now.files == old(now).files + {BuildInitrd} && now.dirs == old(now).dirs + {BuildDir}
      ensures ok && target == Grub ==>
                now.files == old(now).files - {BuildInitrd} + {BootInitrd, Script} && now.dirs == old(now).dirs + {BuildDir, BootDir}
      ensures ok ==> Measure in run.passed && (target == Grub ==> Install in run.passed)
      ensures Stayed(old(run), run, ok)
      ensures old(Watched()) ==> Watched()
      ensures OthersWork() ==> ok
    {
      ok, files, dirs := BuildInitrdStage();
      if ok && target == Grub {
        ok, files, dirs := InstallGrubEntry(files, dirs);
      }
    }

    // The deferred cleanup of PrepareStage.
    method Abandon(files: seq<File>, dirs: seq<Place>, ghost before: World) returns (err: Error)
      requires now.Valid() && before.Valid() && Registered(files, dirs, before, now)
      requires now == before.(files := now.files, dirs := now.dirs, strays := now.strays) && before.strays <= now.strays
      modifies this
      ensures now == old(now).(files := now.files, dirs := now.dirs) && now.Valid()
      ensures StepFailed in err && UnsetFailed !in err && UnloadFailed !in err
      ensures Accounted(before, now, err)
      ensures old(alwaysSafe) && old(now).Quiet() ==> alwaysSafe
      ensures Grew(old(run), run) && (old(Watched()) ==> Watched())
    {
      err := CleanupPartialStage(files, dirs);
      err := err + {StepFailed};
    }

    method PrepareStage(target: InstallMethod) returns (stage: Stage, err: Error)
      requires now.Valid()
      modifies this
      ensures now == old(now).(files := now.files, dirs := now.dirs, strays := now.strays) && now.Valid()
      ensures old(now).strays <= now.strays
      ensures UnsetFailed !in err && UnloadFailed !in err
      ensures err == {} ==> Staged(target, stage, old(now), now)
      ensures err != {} ==> Accounted(old(now), now, err)
      ensures old(alwaysSafe) && old(now).Quiet() ==> alwaysSafe
      ensures target != Kexec && target != Grub ==> err != {} && now == old(now)
      ensures err == {} ==> Measure in run.passed && (target == Grub ==> Install in run.passed)
      ensures Stayed(old(run), run, err == {} || (target != Kexec && target != Grub))
      ensures old(Watched()) ==> Watched()
      ensures OthersWork() && (target == Kexec || target == Grub) ==> err == {}
    {
      stage, err := Stage(target, None, None, false, None, None), {StepFailed};
      if target != Kexec && target != Grub {
        return;
      }
      var ok := Step(Sources);
      if !ok { return; }
      var files, dirs;
      ok, files, dirs := Fill(target);
      if !ok {
        err := Abandon(files, dirs, old(now));
        return;
      }
      err := {};
      if target == Kexec {
        stage := stage.(initrd := Some(BuildInitrd), buildDir := Some(BuildDir), stageDir := Some(BuildDir));
      } else {
        stage := stage.(initrd := Some(BootInitrd), script := Some(Script), environment := true,
                        buildDir := Some(BuildDir), stageDir := Some(BootDir));
      }
    }

    // executeKexec from the loaded image on: its files go before the jump.
    method UnstageAndJump(stage: Stage) returns (err: Error)
      requires now.Valid() && now.handover == Pending
      modifies this
      ensures now == old(now).(files := now.files, dirs := now.dirs, handover := now.handover) && now.Valid()
      ensures now.files <= old(now).files && now.dirs <= old(now).dirs
      ensures now.handover == if err == {} then Jumping else Pending
      ensures err == {} ==> forall f :: (stage.script == Some(f) || stage.initrd == Some(f)) ==> f !in now.files
      ensures err == {} ==> forall d :: (stage.stageDir == Some(d) || stage.buildDir == Some(d)) && d in now.dirs ==> now.Occupied(d)
      ensures UnsetFailed !in err && UnloadFailed !in err
      ensures old(alwaysSafe) && old(now).next != WriterEntry && old(now).image == WriterImage ==>
                (stage.initrd == Some(BuildInitrd) && Load in old(run).passed ==> alwaysSafe)
      ensures Grew(old(run), run) && (err != {} ==> !run.faultless)
      ensures run.elsewhere <==> old(run).elsewhere || (err != {} && StepFailed !in err)
      ensures old(Watched()) ==> Watched()
      ensures NoJump() ==> err != {}
      ensures OthersWork() ==> err <= {StepFailed} && AgreesEither(Jump, DirectJump, err == {})
    {
      err := CleanupStage(stage, false, false);
      if err == {} {
        var ok := HandOver(Jump, DirectJump, Jumping);
        if !ok {
          err := {StepFailed};
        }
      }
    }

    // executeKexec up to its deferred cleanup.
    method LoadAndJump(stage: Stage) returns (err: Error, loaded: bool)
      requires now.Valid() && now.handover == Pending
      modifies this
      ensures now == old(now).(files := now.files, dirs := now.dirs, image := now.image, handover := now.handover) && now.Valid()
      ensures now.files <= old(now).files && now.dirs <= old(now).dirs
      ensures now.handover == if err == {} then Jumping else Pending
      ensures if loaded then now.image == WriterImage else err != {} && (now.image == old(now).image || now.image == NoImage)
      ensures err == {} ==> forall f :: (stage.script == Some(f) || stage.initrd == Some(f)) ==> f !in now.files
      ensures err == {} ==> forall d :: (stage.stageDir == Some(d) || stage.buildDir == Some(d)) && d in now.dirs ==> now.Occupied(d)
      ensures UnsetFailed !in err && UnloadFailed !in err
      ensures old(alwaysSafe) && old(now).next != WriterEntry && stage.initrd == Some(BuildInitrd) && Flush in old(run).passed ==> alwaysSafe
      ensures Agrees(Load, loaded) && (!loaded ==> err == {StepFailed})
      ensures Grew(old(run), run) && (err != {} ==> !run.faultless)
      ensures run.elsewhere <==> old(run).elsewhere || (err != {} && StepFailed !in err)
      ensures old(Watched()) ==> Watched()
      ensures NoJump() ==> err != {}
      ensures OthersWork() ==> err <= {StepFailed}
      ensures OthersWork() && luck(Load).Works? ==> loaded && AgreesEither(Jump, DirectJump, err == {})
    {
      loaded := false;
      var ok := KexecLoad();
      if !ok {
        return {StepFailed}, loaded;
      }
      loaded := true;
      err := UnstageAndJump(stage);
    }

    method ExecuteKexec(stage: Stage) returns (err: Error)
      requires now.Valid() && now.handover == Pending
      modifies this
      ensures now == old(now).(files := now.files, dirs := now.dirs, image := now.image, unloadFailed := now.unloadFailed,
                               handover := now.handover) && now.Valid()
      ensures now.files <= old(now).files && now.dirs <= old(now).dirs
      ensures now.handover == if err == {} then Jumping else Pending
      ensures err == {} ==> now.image == WriterImage && now.unloadFailed == old(now).unloadFailed
      ensures err == {} ==> forall f :: (stage.script == Some(f) || stage.initrd == Some(f)) ==> f !in now.files
      ensures err == {} ==> forall d :: (stage.stageDir == Some(d) || stage.buildDir == Some(d)) && d in now.dirs ==> now.Occupied(d)
      ensures err != {} && old(now).image != WriterImage && !old(now).unloadFailed ==>
                (now.image == WriterImage <==> now.unloadFailed)
      ensures !old(now).unloadFailed ==> (now.unloadFailed <==> UnloadFailed in err)
      ensures UnloadFailed in err ==> now.image == WriterImage
      ensures UnsetFailed !in err
      ensures old(alwaysSafe) && old(now).next != WriterEntry && stage.initrd == Some(BuildInitrd) && Flush in old(run).passed ==> alwaysSafe
      ensures Grew(old(run), run) && (err != {} ==> !run.faultless)
      ensures run.elsewhere <==> old(run).elsewhere || (err != {} && StepFailed !in err)
      ensures luck(Load).Fails? ==> err == {StepFailed}
      ensures old(Watched()) ==> Watched()
      ensures luck(Load).Fails? || NoJump() ==> err != {}
      ensures err != {} && luck(Load).Works? ==> Agrees(Unload, UnloadFailed !in err)
      ensures OthersWork() && luck(Load).Works? && SureJump() ==> err == {}
      ensures OthersWork() && luck(Load).Works? && NoJump() && luck(Unload).Fails? ==>
                err == {StepFailed, UnloadFailed} && now.image == WriterImage && now.unloadFailed
    {
      var loaded;
      err, loaded := LoadAndJump(stage);
      if err != {} && loaded {
        var ok := KexecUnload();
        if !ok {
          err := err + {UnloadFailed};
        }
      }
    }

    // executeGRUB before it arms anything.
    method ListEntry() returns (ok: bool)
      modifies this
      ensures now == old(now).(menu := now.menu)
      ensures ok ==> now.menu && Storage in run.passed
      ensures old(alwaysSafe) && old(now).next != WriterEntry && old(now).handover == Pending ==> alwaysSafe
      ensures Stayed(old(run), run, ok) && Watched()
      ensures OthersWork() && Script in old(now).files ==> ok
    {
      ok := UpdateGrub();
      if !ok { return; }
      ok := ValidateConfiguration();
      if !ok { return; }
      ok := Step(Storage);
    }

    // grub-reboot, and the entry read back.
    method ConfirmEntry() returns (ok: bool)
      modifies this
      ensures now == old(now).(next := now.next) && (now.next == old(now).next || now.next == WriterEntry)
      ensures ok ==> now.next == WriterEntry && ReadBack in run.passed
      ensures Stayed(old(run), run, ok) && Watched()
      ensures now.Safe() && old(run).InOrder(Arm) && old(alwaysSafe) ==> alwaysSafe
      ensures OthersWork() ==> ok
    {
      ok := GrubReboot();
      if !ok { return; }
      ok := VerifyNextEntry();
    }

    // executeGRUB from grub-reboot to the request that ends the run.
    method ArmEntry() returns (ok: bool)
      requires now.handover == Pending
      modifies this
      ensures now == old(now).(next := now.next, handover := if ok then Rebooting else Pending)
      ensures (now.next == old(now).next || now.next == WriterEntry) && (ok ==> now.next == WriterEntry)
      ensures Grew(old(run), run) && (!ok ==> !run.faultless)
      ensures if ok then run.elsewhere == old(run).elsewhere else SureReboot() ==> run.elsewhere
      ensures Watched()
      ensures old(now).(next := WriterEntry).Safe() && !old(now).unsetFailed && old(now).next != WriterEntry ==>
                now.Safe() && (old(run).InOrder(Arm) && old(alwaysSafe) ==> alwaysSafe)
      ensures OthersWork() ==> AgreesEither(Reboot, DirectReboot, ok)
    {
      ok := ConfirmEntry();
      if !ok { return; }
      ok := HandOver(Reboot, DirectReboot, Rebooting);
    }

    // executeGRUB up to its deferred cleanup.
    method ArmAndReboot(stage: Stage) returns (err: Error, armAttempted: bool)
      requires now.Valid() && now.handover == Pending && !now.unsetFailed
      modifies this
      ensures now == old(now).(menu := now.menu, next := now.next, handover := now.handover) && now.Valid()
      ensures err <= {StepFailed}
      ensures now.handover == if err == {} then Rebooting else Pending
      ensures !armAttempted ==> now.next == old(now).next && err != {}
      ensures armAttempted ==> now.menu && Storage in run.passed
      ensures err == {} ==> now.next == WriterEntry
      ensures old(now).next != WriterEntry && (old(now).image == WriterImage ==> old(now).unloadFailed) &&
              BootInitrd in old(now).files && Script in old(now).files ==>
                now.Safe() && (old(alwaysSafe) && Install in old(run).passed && Flush in old(run).passed ==> alwaysSafe)
      ensures Grew(old(run), run) && (err != {} ==> !run.faultless)
      ensures err == {} ==> run.elsewhere == old(run).elsewhere
      ensures err != {} && SureReboot() ==> run.elsewhere
      ensures old(Watched()) ==> Watched()
      ensures OthersWork() && Script in old(now).files ==> AgreesEither(Reboot, DirectReboot, err == {})
    {
      err, armAttempted := {StepFailed}, false;
      var ok := ListEntry();
      if !ok { return; }
      armAttempted := true;
      ok := ArmEntry();
      if !ok { return; }
      err := {};
    }

    method ExecuteGrub(stage: Stage) returns (err: Error)
      requires now.Valid() && Staged(Grub, stage, now, now) && now.handover == Pending && !now.unsetFailed
      modifies this
      ensures now == old(now).(files := now.files, dirs := now.dirs, menu := now.menu, next := now.next,
                               unsetFailed := now.unsetFailed, handover := now.handover) && now.Valid()
      ensures now.files <= old(now).files && now.dirs <= old(now).dirs
      ensures now.handover == if err == {} then Rebooting else Pending
      ensures err == {} ==> Armed(now) && now.files == old(now).files && now.dirs == old(now).dirs
      ensures err != {} ==>
                && (forall f :: f in {Script, BootInitrd} && f in now.files ==> RemoveFailed(f) in err)
                && (forall d :: d in {BuildDir, BootDir} && d in now.dirs ==> RmdirFailed(d) in err || now.Occupied(d))
                && (now.menu ==> RefreshFailed in err || RemoveFailed(Script) in err)
                && (now.next == WriterEntry && old(now).next != WriterEntry ==> UnsetFailed in err)
      ensures now.unsetFailed <==> old(now).unsetFailed || UnsetFailed in err
      ensures UnloadFailed !in err
      ensures old(now).next != WriterEntry && (old(now).image == WriterImage ==> old(now).unloadFailed) ==>
                (old(alwaysSafe) && Install in old(run).passed && Flush in old(run).passed ==> alwaysSafe)
      ensures Grew(old(run), run) && (err != {} ==> !run.faultless)
      ensures err == {} ==> run.elsewhere == old(run).elsewhere
      ensures err != {} ==> run.elsewhere || (err == {StepFailed} && !SureReboot())
      ensures old(Watched()) ==> Watched()
      ensures OthersWork() ==> err <= {StepFailed} && AsTheReboot(err)
    {
      var armAttempted;
      err, armAttempted := ArmAndReboot(stage);
      if err != {} {
        var errs := CleanupStage(stage, armAttempted, true);
        err := err + errs;
      }
    }

    // The fallback: staged again and started through GRUB, whose error then
    // replaces that of kexec.
    method FallBack(kexecErr: Error) returns (err: Error, ghost staged: bool)
      requires now.Valid() && now.handover == Pending && !now.unsetFailed && kexecErr != {} && UnsetFailed !in kexecErr
      modifies this
      ensures now == old(now).(files := now.files, dirs := now.dirs, strays := now.strays, menu := now.menu, next := now.next,
                               unsetFailed := now.unsetFailed, handover := now.handover)
      ensures now.Valid() && old(now).strays <= now.strays
      ensures err != {} ==> Accounted(old(now), now, err)
      ensures err == {} ==> staged && Armed(now)
      ensures err != {} ==> now.handover == Pending
      ensures if staged then UnloadFailed !in err else kexecErr <= err && (UnloadFailed in err ==> UnloadFailed in kexecErr)
      ensures now.unsetFailed <==> UnsetFailed in err
      ensures old(now).next != WriterEntry && (old(now).image == WriterImage ==> old(now).unloadFailed) ==>
                (old(alwaysSafe) && old(now).Quiet() && Flush in old(run).passed ==> alwaysSafe)
      ensures Grew(old(run), run) && (err != {} ==> !run.faultless)
      ensures !staged ==> run.elsewhere
      ensures err == {} ==> run.elsewhere == old(run).elsewhere
      ensures err != {} ==> run.elsewhere || (err == {StepFailed} && !SureReboot())
      ensures old(Watched()) ==> Watched()
      ensures OthersWork() ==> staged && err <= {StepFailed} && AsTheReboot(err)
    {
      staged := false;
      var stage, failure := PrepareStage(Grub);
      if failure != {} {
        err := kexecErr + failure;
        return;
      }
      staged := true;
      err := ExecuteGrub(stage);
    }

    // StageAndBoot once a kexec stage is in place: on failure everything is
    // removed and, when possible, staged again for GRUB.
    method KexecOrFallBack(stage: Stage, grubUsable: bool, ghost before: World) returns (err: Error, ghost fellBack: bool)
      requires now.Valid() && !now.unsetFailed && !now.unloadFailed && now.handover == Pending
      requires Staged(Kexec, stage, now, now) && Before(before, now)
      modifies this
      ensures now == old(now).(files := now.files, dirs := now.dirs, strays := now.strays, menu := now.menu, next := now.next,
                               image := now.image, unsetFailed := now.unsetFailed, unloadFailed := now.unloadFailed,
                               handover := now.handover)
      ensures now.Valid() && old(now).strays <= now.strays
      ensures err != {} ==> Accounted(before, now, err)
      ensures err == {} ==> if fellBack then Armed(now) else Loaded(now)
      ensures err != {} ==> now.handover == Pending
      ensures old(now).image != WriterImage && err != {} ==> (now.image == WriterImage <==> now.unloadFailed)
      ensures !fellBack ==> (now.unloadFailed <==> UnloadFailed in err)
      ensures fellBack ==> grubUsable && UnloadFailed !in err
      ensures now.unsetFailed <==> UnsetFailed in err
      ensures old(now).next != WriterEntry && old(now).image != WriterImage && old(alwaysSafe) && Flush in old(run).passed ==> alwaysSafe
      ensures Grew(old(run), run) && (err != {} || fellBack ==> !run.faultless)
      ensures err != {} && grubUsable && !fellBack ==> run.elsewhere
      ensures err != {} && fellBack ==> run.elsewhere || (err == {StepFailed} && !SureReboot())
      ensures err == {} && (!fellBack || luck(Load).Fails?) ==> run.elsewhere == old(run).elsewhere
      ensures fellBack && now.unloadFailed ==> now.image == WriterImage
      ensures old(Watched()) ==> Watched()
      ensures OthersWork() && grubUsable && (luck(Load).Fails? || NoJump()) ==> fellBack
      ensures OthersWork() && fellBack ==> err <= {StepFailed} && AsTheReboot(err)
      ensures OthersWork() && luck(Load).Works? && SureJump() ==> err == {} && !fellBack
      ensures OthersWork() && fellBack && luck(Load).Works? && luck(Unload).Fails? ==> now.image == WriterImage && now.unloadFailed
    {
      fellBack := false;
      err := ExecuteKexec(stage);
      if err == {} { return; }
      var cleanup := CleanupStage(stage, false, false);
      if cleanup != {} || !grubUsable {
        err := err + cleanup;
        return;
      }
      err, fellBack := FallBack(err);
    }

    // sync, or the stage is taken down again.
    method Sync(stage: Stage) returns (err: Error)
      requires now.Valid()
      modifies this
      ensures now == old(now).(files := now.files, dirs := now.dirs) && now.Valid()
      ensures err == {} ==> now == old(now)
      ensures err != {} ==>
                && now.files <= old(now).files && now.dirs <= old(now).dirs
                && (forall f :: (stage.script == Some(f) || stage.initrd == Some(f)) && f in now.files ==> RemoveFailed(f) in err)
                && (forall d :: (stage.stageDir == Some(d) || stage.buildDir == Some(d)) && d in now.dirs ==>
                      RmdirFailed(d) in err || now.Occupied(d))
      ensures UnsetFailed !in err && UnloadFailed !in err
      ensures old(alwaysSafe) && old(now).Quiet() && Measure in old(run).passed ==> alwaysSafe
      ensures Stayed(old(run), run, err == {})
      ensures old(Watched()) ==> Watched()
      ensures err == {} ==> Flush in run.passed
      ensures OthersWork() ==> err == {}
    {
      err := {};
      var ok := Step(Flush);
      if !ok {
        err := CleanupStage(stage, false, false);
        err := {StepFailed} + err;
      }
    }

    // StageAndBoot for the methods that need a stage.
    method BootThroughStage(target: InstallMethod, grubUsable: bool) returns (err: Error, ghost fellBack: bool)
      requires now.Valid() && !now.unsetFailed && !now.unloadFailed && now.handover == Pending
      modifies this
      ensures now.Valid() && now.foreign == old(now).foreign
      ensures err != {} ==> Accounted(old(now), now, err)
      ensures err != {} ==> now.handover == Pending
      ensures err == {} ==> if target == Kexec && !fellBack then Loaded(now) else Armed(now)
      ensures old(now).image != WriterImage && err != {} ==> (now.image == WriterImage <==> now.unloadFailed)
      ensures !fellBack ==> (now.unloadFailed <==> UnloadFailed in err)
      ensures fellBack ==> target == Kexec && grubUsable && UnloadFailed !in err
      ensures now.unsetFailed <==> UnsetFailed in err
      ensures old(alwaysSafe) && old(now).next != WriterEntry && old(now).image != WriterImage ==> alwaysSafe
      ensures target != Kexec && target != Grub ==> err != {} && now == old(now)
      ensures Grew(old(run), run) && ((err != {} && (target == Kexec || target == Grub)) || fellBack ==> !run.faultless)
      ensures err != {} && target == Kexec && grubUsable && !fellBack ==> run.elsewhere
      ensures err != {} && (fellBack || target == Grub) ==>
                run.elsewhere || (err == {StepFailed} && !SureReboot())
      ensures err == {} && (!fellBack || luck(Load).Fails?) ==> run.elsewhere == old(run).elsewhere
      ensures fellBack && now.unloadFailed ==> now.image == WriterImage
      ensures old(Watched()) ==> Watched()
      ensures OthersWork() && target == Kexec && grubUsable && (luck(Load).Fails? || NoJump()) ==> fellBack
      ensures OthersWork() && (fellBack || target == Grub) ==> err <= {StepFailed} && AsTheReboot(err)
      ensures OthersWork() && target == Kexec && luck(Load).Works? && SureJump() ==> err == {} && !fellBack
      ensures OthersWork() && fellBack && luck(Load).Works? && luck(Unload).Fails? ==> now.image == WriterImage && now.unloadFailed
    {
      fellBack := false;
      ghost var start := now;
      var stage;
      stage, err := PrepareStage(target);
      if err != {} { return; }
      err := Sync(stage);
      if err != {} { return; }
      if target == Kexec {
        err, fellBack := KexecOrFallBack(stage, grubUsable, start);
        return;
      }
      err := ExecuteGrub(stage);
    }

    // The whole hand-over. `fellBack` tells that a failed kexec was followed
    // by an attempt through GRUB, whose error replaces the first one.
    method StageAndBoot(target: InstallMethod, grubUsable: bool) returns (err: Error, ghost fellBack: bool)
      requires now.Valid()
      modifies this
      ensures now.Valid() && now.foreign == old(now).foreign
      ensures err != {} ==> Accounted(old(now), now, err)
      ensures err != {} && err <= {StepFailed} && now.strays <= old(now).strays && !now.unloadFailed ==>
                NothingLeft(old(now), now)
      ensures err != {} ==> now.handover == Pending
      ensures err == {} && target != Direct ==> if target == Kexec && !fellBack then Loaded(now) else Armed(now)
      ensures old(now).image != WriterImage && err != {} ==> (now.image == WriterImage <==> now.unloadFailed)
      ensures !fellBack ==> (now.unloadFailed <==> UnloadFailed in err)
      ensures fellBack ==> target == Kexec && grubUsable && UnloadFailed !in err
      ensures now.unsetFailed <==> UnsetFailed in err
      ensures old(alwaysSafe) && old(now).next != WriterEntry && old(now).image != WriterImage ==> alwaysSafe && now.Safe()
      ensures target == Direct || target.Other? ==>
                now == old(now).(unsetFailed := false, unloadFailed := false, handover := Pending)
      ensures target.Other? ==> err != {}
      ensures Watched()
      ensures (err != {} && !target.Other?) || fellBack ==> !run.faultless
      ensures target == Direct && err == {} ==> WriteDirectly in run.passed
      // An error with GRUB at hand and no fallback needs a failed step of a
      // preparation, the sync or a cleanup; after a fallback it needs such a
      // step or a failed reboot.
      ensures err != {} && target == Kexec && grubUsable && !fellBack ==> run.elsewhere
      ensures err != {} && (fellBack || target == Grub) ==>
                run.elsewhere || (err == {StepFailed} && !SureReboot())
      // Where the run succeeds no such step has failed but, perhaps, one of the
      // cleanup between the load and the jump, which is then done again.
      ensures err == {} && (!fellBack || luck(Load).Fails?) ==> !run.elsewhere
      // Where all but leaving works, a failed load or jump leads to GRUB
      // whatever the unload does, and only a failed reboot ends in an error.
      ensures OthersWork() && target == Kexec && grubUsable && (luck(Load).Fails? || NoJump()) ==> fellBack
      ensures OthersWork() && (fellBack || target == Grub) ==> err <= {StepFailed} && AsTheReboot(err)
      ensures OthersWork() && target == Kexec && luck(Load).Works? && SureJump() ==> err == {} && !fellBack
      ensures OthersWork() && fellBack && luck(Load).Works? && luck(Unload).Fails? ==> now.image == WriterImage && now.unloadFailed
    {
      run := Run({}, true, false);
      now := now.(unsetFailed := false, unloadFailed := false, handover := Pending);
      alwaysSafe := alwaysSafe && now.Safe();
      if target == Direct {
        var ok := Step(WriteDirectly);
        return if ok then {} else {StepFailed}, false;
      }
      err, fellBack := BootThroughStage(target, grubUsable);
    }

    ghost predicate AsTheReboot(err: Error)
      reads this
    {
      && (SureReboot() ==> err == {} && Armed(now))
      && (luck(Reboot).Fails? && luck(DirectReboot).Fails? ==> err == {StepFailed})
    }
  }

  const CLEAN := World({}, {}, {}, {}, false, NoEntry, NoImage, false, false, Pending)

  function FailsToLeave(k: Kind): Luck
  {
    if Leaves(k) && k != Load then Fails else Works
  }

  // A run whose error says nothing of the image it leaves loaded: the jump and
  // the unload fail, then the reboot.
  method UnreportedImage() returns (host: Host, err: Error)
    ensures err == {StepFailed} && host.now.image == WriterImage && host.now.unloadFailed
    ensures !NothingLeft(CLEAN, host.now)
  {
    host := new Host(CLEAN, FailsToLeave);
    ghost var fellBack;
    err, fellBack := host.StageAndBoot(Kexec, true);
  }

  // Whatever a step of PrepareStage added is registered for the deferred
  // cleanup, each file together with its staging directory.
  ghost predicate Registered(files: seq<File>, dirs: seq<Place>, before: World, after: World)
  {
    && (forall f :: f in after.files && f !in before.files ==> f in files)
    && (forall d :: d in after.dirs && d !in before.dirs ==> d in dirs)
  }

  // `staged` is `before` with a kexec stage added.
  ghost predicate Before(before: World, staged: World)
  {
    && before.Valid()
    && staged == before.(files := before.files + {BuildInitrd}, dirs := before.dirs + {BuildDir}, strays := staged.strays)
    && before.strays <= staged.strays
  }

  ghost predicate Staged(target: InstallMethod, stage: Stage, before: World, after: World)
  {
    match target
    case Kexec =>
      && stage == Stage(Kexec, Some(BuildInitrd), None, false, Some(BuildDir), Some(BuildDir))
      && after.files == before.files + {BuildInitrd}
      && after.dirs == before.dirs + {BuildDir}
    case Grub =>
      && stage == Stage(Grub, Some(BootInitrd), Some(Script), true, Some(BootDir), Some(BuildDir))
      && after.files == before.files - {BuildInitrd} + {BootInitrd, Script}
      && after.dirs == before.dirs + {BuildDir, BootDir}
    case _ => false
  }

  ghost predicate Armed(w: World)
  {
    w.handover == Rebooting && w.next == WriterEntry && w.menu && Script in w.files && BootInitrd in w.files
  }

  ghost predicate Loaded(w: World)
  {
    w.handover == Jumping && w.image == WriterImage && BuildInitrd !in w.files && (BuildDir in w.dirs ==> w.Occupied(BuildDir))
  }
}
