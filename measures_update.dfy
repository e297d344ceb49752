/** measures_update: decide whether the measures data at a path need an
    update, take the data lock, re-check, and install a new version. */
module Update {
  import opened Errors
  import opened Strings
  import opened Sorting
  import opened Available
  import opened Readme
  import opened Directory

  /** The arguments of measures_update that steer the decision. */
  datatype Call = Call(
    pathUnset: bool,           // path is None and config.measurespath is None too
    version: Option<string>,   // the requested version, None for the latest
    force: bool,
    autoUpdateRules: bool,
    useAstronObsTable: bool)

  /** What get_data_info reports for the measures readme: the version token
      (possibly 'invalid', 'error' or 'unknown') and its age in days. */
  datatype ReadmeInfo = ReadmeInfo(version: string, age: Option<real>)

  /** A name in the download server's directory and its `ftp.size`. */
  datatype Entry = Entry(name: string, size: int)

  /** Where the install sequence raises, if it does. */
  datatype Fault =
    | NoFault
    | ConnectFault               // FTP(), login, cwd, nlst or size raises
    | DownloadFault              // retrbinary raises
    | ExtractFault(done: nat)    // extraction raises after `done` members

  /** Everything measures_update learns from outside the directory. */
  datatype Env = Env(
    info: Option<ReadmeInfo>,     // get_data_info before the lock
    listing: Listing,             // the session behind measures_available()
    reread: Option<ReadmeInfo>,   // get_data_info once the lock is held
    server: seq<Entry>,           // the download session's listing
    archiveMembers: seq<string>,  // the members of the downloaded archive
    fault: Fault,
    today: string,                // the date written into the readme
    now: int)                     // the clock, for modification times

  /** How measures_update ends. Python returns None on every path that does
      not raise; the model names the return that was taken. */
  datatype Exit =
    | AutoVersionGiven           // auto_update_rules with a version (163-165)
    | AutoForceGiven             // auto_update_rules with force (166-168)
    | CheckedRecently            // readme younger than a day (190-193)
    | NotMaintained              // readme version 'unknown' (203-205)
    | AlreadyInstalled           // the resolved version is installed (220-228)
    | NoObservatories            // no geodetic/Observatories (232-238)
    | RequestedPresent           // re-check: requested version now installed (268-270)
    | RecentAfterLock            // re-check: readme now younger than a day (271-273)
    | TargetMissing(target: string)  // target not on the server (302-303)
    | Installed(target: string)
    | Raised(error: Error)

  /** The exit taken and the filesystem steps performed, in order. */
  datatype Outcome = Outcome(exit: Exit, ops: seq<Op>)

  /** What happened while the lock was held, and whether clean_lock was set. */
  datatype Session = Session(exit: Exit, ops: seq<Op>, clean: bool)

  function Current(info: Option<ReadmeInfo>): Option<string> {
    if info.Some? then Some(info.value.version) else None
  }

  predicate AgeRecent(info: Option<ReadmeInfo>) {
    info.Some? && info.value.age.Some? && info.value.age.value < 1.0
  }

  /** The version compared against the installed one (207-217): the requested
      one, else the last name measures_available() returns. A RemoteError
      propagates; any other failure, an empty list included, gives None. */
  function CheckVersion(c: Call, e: Env): (r: Result<Option<string>>)
    ensures c.version.Some? ==> r == Ok(c.version)
    ensures r.Err? <==> c.version.None? && e.listing.AddressError?
    ensures r.Err? ==> r.error == RemoteError(RemotePrefix + e.listing.detail)
    ensures r == Ok(None) <==> c.version.None? && (e.listing.OtherError? || (e.listing.Names? && KeepListed(e.listing.names) == []))
    ensures c.version.None? && e.listing.Names? && KeepListed(e.listing.names) != [] ==>
              r == Ok(Some(KeepListed(e.listing.names)[|KeepListed(e.listing.names)| - 1]))
  {
    if c.version.Some? then Ok(c.version)
    else match MeasuresAvailable(e.listing)
      case Ok(names) => if |names| > 0 then Ok(Some(names[|names| - 1])) else Ok(None)
      case Err(err) => if err.RemoteError? then Err(err) else Ok(None)
  }

  /** The decisions taken before the lock when force is False (188-238);
      None when the update goes on to the writability check. `d` is the
      directory once it exists. */
  function PreLock(d: Dir, c: Call, e: Env): Option<Outcome> {
    var current := Current(e.info);
    if c.version.None? && AgeRecent(e.info) then Some(Outcome(CheckedRecently, []))
    else if current == Some("invalid") then Some(Outcome(Raised(NoReadme), []))
    else if current == Some("error") then Some(Outcome(Raised(BadReadme), []))
    else if current == Some("unknown") then Some(Outcome(NotMaintained, []))
    else match CheckVersion(c, e)
      case Err(err) => Some(Outcome(Raised(err), []))
      case Ok(check) =>
        if check.Some? && check == current then
          if d.readme.Some? then Some(Outcome(AlreadyInstalled, [Touch(e.now)]))
          else Some(Outcome(Raised(Failure(TouchFailed)), []))
        else if !d.observatories then Some(Outcome(NoObservatories, []))
        else None
  }

  /** A server entry the download session keeps (296). */
  predicate Downloadable(en: Entry) {
    Listed(en.name) && en.size > 0
  }

  /** The names of the downloadable entries, in the server's order. */
  function Candidates(server: seq<Entry>): (r: seq<string>)
    ensures forall i :: 0 <= i < |r| ==> Listed(r[i])
  {
    if server == [] then []
    else (if Downloadable(server[0]) then [server[0].name] else []) + Candidates(server[1..])
  }

  /** Whether an archive member is extracted (326-334). */
  predicate Extractable(name: string, force: bool, useAstronObsTable: bool) {
    if force && useAstronObsTable then
      !(Contains(name, "geodetic") && MatchesDotOld(name))
    else
      !((Contains(name, "geodetic") && MatchesDotOld(name)) || Contains(name, "Observatories"))
  }

  /** The extraction list x_list: the extractable members in archive order. */
  function Selected(members: seq<string>, force: bool, useAstronObsTable: bool): seq<string>
    decreases |members|
  {
    if members == [] then []
    else
      var m := members[|members| - 1];
      var init := Selected(members[..|members| - 1], force, useAstronObsTable);
      if Extractable(m, force, useAstronObsTable) then init + [m] else init
  }

  function Min(a: nat, b: nat): nat {
    if a <= b then a else b
  }

  /** The install sequence (286-349), the lock being held: connect and choose
      the target, then transfer it. clean_lock is False from the connect on. */
  function Install(d: Dir, c: Call, e: Env): Session {
    if e.fault == ConnectFault then Session(Raised(Failure(ConnectFailed)), [], false)
    else
      var files := Sort(Candidates(e.server));
      if c.version.None? && files == [] then Session(Raised(Failure(NoVersions)), [], false)
      else
        var target := if c.version.None? then files[|files| - 1] else c.version.value;
        if target !in files then Session(TargetMissing(target), [], false)
        else Transfer(d, c, e, target)
  }

  /** Lines 306-315: delete a stale measures.ztar, then download the target
      into a new one; a failed download leaves the partial archive. */
  function Transfer(d: Dir, c: Call, e: Env, target: string): Session {
    var fetch := (if d.archive then [RemoveArchive] else []) + [Download];
    if e.fault == DownloadFault then Session(Raised(Failure(DownloadFailed)), fetch, false)
    else
      var s := Unpack(Run(d, fetch), c, e, target);
      Session(s.exit, fetch + s.ops, s.clean)
  }

  /** Lines 317-349: remove the readme, extract the selected members, delete
      the archive and write the new readme; clean_lock becomes True again
      only once the new readme is written. */
  function Unpack(d: Dir, c: Call, e: Env, target: string): Session {
    var unmark := if d.readme.Some? then [RemoveReadme] else [];
    var xs := Selected(e.archiveMembers, c.force, c.useAstronObsTable);
    if e.fault.ExtractFault? then
      Session(Raised(Failure(ExtractFailed)), unmark + [Extract(xs[..Min(e.fault.done, |xs|)])], false)
    else
      Session(Installed(target),
              unmark + [Extract(xs)] + [RemoveArchive] + [WriteReadme(ReadmeText(target, e.today), e.now)], true)
  }

  /** What happens once the lock is taken (255-349). Without force the readme
      is read again; the check at 276 looks at the REQUESTED version. */
  function Locked(d: Dir, c: Call, e: Env): Session {
    if c.force then Install(d, c, e)
    else if c.version.Some? && c.version == Current(e.reread) then Session(RequestedPresent, [], true)
    else if c.version.None? && AgeRecent(e.reread) then Session(RecentAfterLock, [], true)
    else if e.reread.Some? && (c.version == Some("invalid") || c.version == Some("unknown")) then
      Session(Raised(BadReadme), [], false)
    else Install(d, c, e)
  }

  /** os.makedirs when the path does not exist yet (172-174). */
  function CreateOps(d: Dir): seq<Op> {
    if d.isDir then [] else [MakeDirs]
  }

  /** measures_update as a whole: the exit it takes and the filesystem steps
      it performs on a directory in state `d`. The lock is truncated in the
      `finally` (381-386) only when it was taken here and clean_lock is set. */
  function UpdateOutcome(d: Dir, c: Call, e: Env): Outcome {
    if c.pathUnset then Outcome(Raised(UnsetMeasurespath), [])
    else if c.autoUpdateRules && c.version.Some? then Outcome(AutoVersionGiven, [])
    else if c.autoUpdateRules && c.force then Outcome(AutoForceGiven, [])
    else if c.autoUpdateRules && !(d.isDir && d.owned) then Outcome(Raised(AutoUpdatesNotAllowed), [])
    else
      var mk := CreateOps(d);
      var d1 := Run(d, mk);
      var pre := if c.force then None else PreLock(d1, c, e);
      if pre.Some? then Outcome(pre.value.exit, mk + pre.value.ops)
      else if !d1.writable then Outcome(Raised(NotWritable), mk)
      else if d1.lockDirty then Outcome(Raised(BadLock), mk)
      else
        var s := Locked(Step(d1, TakeLock), c, e);
        Outcome(s.exit, mk + [TakeLock] + s.ops + (if s.clean then [TruncateLock] else []))
  }

  /** The loop at 325-334 that builds the extraction list. */
  method SelectMembers(members: seq<string>, force: bool, useAstronObsTable: bool) returns (xList: seq<string>)
    ensures xList == Selected(members, force, useAstronObsTable)
  {
    xList := [];
    for i := 0 to |members|
      invariant xList == Selected(members[..i], force, useAstronObsTable)
    {
      var m := members[i];
      assert members[..i + 1][..i] == members[..i];
      if force && useAstronObsTable {
        if !(Contains(m, "geodetic") && MatchesDotOld(m)) {
          xList := xList + [m];
        }
      } else {
        if !((Contains(m, "geodetic") && MatchesDotOld(m)) || Contains(m, "Observatories")) {
          xList := xList + [m];
        }
      }
    }
    assert members[..|members|] == members;
  }

  /** measures_update on the directory itself: the same exit, the same steps
      in the same order, as UpdateOutcome describes. */
  method MeasuresUpdate(dir: ManagedDirectory, c: Call, e: Env) returns (exit: Exit)
    modifies dir
    ensures exit == UpdateOutcome(old(dir.State()), c, e).exit
    ensures dir.State() == Run(old(dir.State()), UpdateOutcome(old(dir.State()), c, e).ops)
    ensures dir.history == Extend(old(dir.history), UpdateOutcome(old(dir.State()), c, e).ops)
  {
    ghost var d0, h0 := dir.State(), dir.history;
    if c.pathUnset {
      return Raised(UnsetMeasurespath);
    }
    if c.autoUpdateRules {
      if c.version.Some? {
        return AutoVersionGiven;
      }
      if c.force {
        return AutoForceGiven;
      }
      if !dir.isDir || !dir.owned {
        return Raised(AutoUpdatesNotAllowed);
      }
    }
    ghost var mk: seq<Op> := [];
    if !dir.isDir {
      Performed(d0, h0, [], MakeDirs);
      dir.MakeDirs();
      mk := [MakeDirs];
    }

    if !c.force {
      var stop := PreLockChecks(dir, c, e);
      if stop.Some? {
        exit := stop.value;
        ghost var p := PreLock(Run(d0, mk), c, e).value;
        RunAppend(d0, mk, p.ops);
        ExtendAppend(h0, mk, p.ops);
        return;
      }
    }

    if !dir.writable {
      return Raised(NotWritable);
    }
    var locked := dir.AcquireLock();
    if !locked {
      return Raised(BadLock);
    }
    Performed(d0, h0, mk, TakeLock);
    ghost var d1 := dir.State();
    var cleanLock;
    exit, cleanLock := LockedSession(dir, c, e);
    ghost var s := Locked(d1, c, e);
    RunAppend(d0, mk + [TakeLock], s.ops);
    ExtendAppend(h0, mk + [TakeLock], s.ops);
    // the finally clause
    if cleanLock {
      Performed(d0, h0, mk + [TakeLock] + s.ops, TruncateLock);
      dir.TruncateLock();
    } else {
      assert mk + [TakeLock] + s.ops + [] == mk + [TakeLock] + s.ops;
    }
  }

  /** Lines 176-238 when force is False: the exit when measures_update returns
      or raises before the writability check, as PreLock describes. */
  method PreLockChecks(dir: ManagedDirectory, c: Call, e: Env) returns (stop: Option<Exit>)
    modifies dir
    ensures stop.Some? == PreLock(old(dir.State()), c, e).Some?
    ensures stop.Some? ==> stop.value == PreLock(old(dir.State()), c, e).value.exit
    ensures stop.Some? ==> dir.State() == Run(old(dir.State()), PreLock(old(dir.State()), c, e).value.ops)
    ensures stop.Some? ==> dir.history == Extend(old(dir.history), PreLock(old(dir.State()), c, e).value.ops)
    ensures stop.None? ==> dir.State() == old(dir.State()) && dir.history == old(dir.history)
  {
    ghost var d0, h0 := dir.State(), dir.history;
    var current: Option<string> := None;
    var ageRecent := false;
    if e.info.Some? {
      current := Some(e.info.value.version);
      if e.info.value.age.Some? {
        ageRecent := e.info.value.age.value < 1.0;
      }
    }
    if c.version.None? && ageRecent {
      return Some(CheckedRecently);
    }
    if current == Some("invalid") {
      return Some(Raised(NoReadme));
    }
    if current == Some("error") {
      return Some(Raised(BadReadme));
    }
    if current == Some("unknown") {
      return Some(NotMaintained);
    }
    var checkVersion := c.version;
    if checkVersion.None? {
      match MeasuresAvailable(e.listing)
      case Ok(names) =>
        if |names| > 0 {
          checkVersion := Some(names[|names| - 1]);
        }
      case Err(err) =>
        if err.RemoteError? {
          return Some(Raised(err));
        }
    }
    if checkVersion.Some? && checkVersion == current {
      Performed(d0, h0, [], Touch(e.now));
      assert [] + [Touch(e.now)] == [Touch(e.now)];
      var touched := dir.Utime(e.now);
      if !touched {
        return Some(Raised(Failure(TouchFailed)));
      }
      return Some(AlreadyInstalled);
    }
    if !dir.observatories {
      return Some(NoObservatories);
    }
    stop := None;
  }

  /** Lines 255-349, the lock being held, as Locked describes them;
      `cleanLock` is the value clean_lock has when the try block ends. */
  method LockedSession(dir: ManagedDirectory, c: Call, e: Env) returns (exit: Exit, cleanLock: bool)
    modifies dir
    ensures exit == Locked(old(dir.State()), c, e).exit
    ensures cleanLock == Locked(old(dir.State()), c, e).clean
    ensures dir.State() == Run(old(dir.State()), Locked(old(dir.State()), c, e).ops)
    ensures dir.history == Extend(old(dir.history), Locked(old(dir.State()), c, e).ops)
  {
    cleanLock := true;
    var doUpdate := c.force;
    if !doUpdate {
      // re-read the readme: another update may have finished meanwhile
      var current: Option<string> := None;
      var ageRecent := false;
      if e.reread.Some? {
        current := Some(e.reread.value.version);
        if e.reread.value.age.Some? {
          ageRecent := e.reread.value.age.value < 1.0;
        }
      }
      if c.version.Some? && c.version == current {
        return RequestedPresent, cleanLock;
      } else if c.version.None? && ageRecent {
        return RecentAfterLock, cleanLock;
      } else if e.reread.Some? && (c.version == Some("invalid") || c.version == Some("unknown")) {
        cleanLock := false;
        return Raised(BadReadme), cleanLock;
      } else {
        doUpdate := true;
      }
    }
    // doUpdate holds here; clean_lock is False from the connect on (292)
    exit, cleanLock := InstallData(dir, c, e);
  }

  /** The install sequence on the directory itself, as Install describes it;
      `committed` is the value clean_lock has when it ends. */
  method InstallData(dir: ManagedDirectory, c: Call, e: Env) returns (exit: Exit, committed: bool)
    modifies dir
    ensures exit == Install(old(dir.State()), c, e).exit
    ensures committed == Install(old(dir.State()), c, e).clean
    ensures dir.State() == Run(old(dir.State()), Install(old(dir.State()), c, e).ops)
    ensures dir.history == Extend(old(dir.history), Install(old(dir.State()), c, e).ops)
  {
    if e.fault == ConnectFault {
      return Raised(Failure(ConnectFailed)), false;
    }
    var files := Sort(Candidates(e.server));
    if c.version.None? && |files| == 0 {
      return Raised(Failure(NoVersions)), false;
    }
    var target := if c.version.None? then files[|files| - 1] else c.version.value;
    if target !in files {
      return TargetMissing(target), false;
    }
    exit, committed := TransferData(dir, c, e, target);
  }

  /** Lines 306-349 on the directory itself, as Transfer describes them. */
  method TransferData(dir: ManagedDirectory, c: Call, e: Env, target: string) returns (exit: Exit, committed: bool)
    modifies dir
    ensures exit == Transfer(old(dir.State()), c, e, target).exit
    ensures committed == Transfer(old(dir.State()), c, e, target).clean
    ensures dir.State() == Run(old(dir.State()), Transfer(old(dir.State()), c, e, target).ops)
    ensures dir.history == Extend(old(dir.history), Transfer(old(dir.State()), c, e, target).ops)
  {
    ghost var d0, h0 := dir.State(), dir.history;
    ghost var clear: seq<Op> := if dir.archive then [RemoveArchive] else [];
    if dir.archive {
      Performed(d0, h0, [], RemoveArchive);
      dir.RemoveArchive();
    }
    Performed(d0, h0, clear, Download);
    dir.OpenArchive();
    ghost var fetch := clear + [Download];
    if e.fault == DownloadFault {
      return Raised(Failure(DownloadFailed)), false;
    }
    ghost var d1, h1 := dir.State(), dir.history;
    exit, committed := UnpackData(dir, c, e, target);
    ghost var s := Unpack(d1, c, e, target);
    RunAppend(d0, fetch, s.ops);
    ExtendAppend(h0, fetch, s.ops);
  }

  /** Lines 317-349 on the directory itself, as Unpack describes them. */
  method UnpackData(dir: ManagedDirectory, c: Call, e: Env, target: string) returns (exit: Exit, committed: bool)
    modifies dir
    ensures exit == Unpack(old(dir.State()), c, e, target).exit
    ensures committed == Unpack(old(dir.State()), c, e, target).clean
    ensures dir.State() == Run(old(dir.State()), Unpack(old(dir.State()), c, e, target).ops)
    ensures dir.history == Extend(old(dir.history), Unpack(old(dir.State()), c, e, target).ops)
  {
    ghost var d0, h0 := dir.State(), dir.history;
    ghost var unmark: seq<Op> := if dir.readme.Some? then [RemoveReadme] else [];
    if dir.readme.Some? {
      Performed(d0, h0, [], RemoveReadme);
      dir.RemoveReadme();
    }
    var xList := SelectMembers(e.archiveMembers, c.force, c.useAstronObsTable);
    if e.fault.ExtractFault? {
      var part := xList[..Min(e.fault.done, |xList|)];
      Performed(d0, h0, unmark, Extract(part));
      dir.ExtractAll(part);
      return Raised(Failure(ExtractFailed)), false;
    }
    Performed(d0, h0, unmark, Extract(xList));
    dir.ExtractAll(xList);
    ghost var ops := unmark + [Extract(xList)];
    Performed(d0, h0, ops, RemoveArchive);
    dir.RemoveArchive();
    ops := ops + [RemoveArchive];
    var text := ReadmeText(target, e.today);
    Performed(d0, h0, ops, WriteReadme(text, e.now));
    dir.WriteReadme(text, e.now);
    ops := ops + [WriteReadme(text, e.now)];
    exit, committed := Installed(target), true;
  }
}
