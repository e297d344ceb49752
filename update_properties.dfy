/** What measures_update promises, stated over UpdateOutcome: the guards and
    early returns, the lock protocol, the order of the install steps, the
    choice of the target and the state the directory is left in. */
module UpdateProperties {
  import opened Errors
  import opened Strings
  import opened Sorting
  import opened Available
  import opened Readme
  import opened Directory
  import opened Update

  /** The call gets past the path and auto_update_rules guards (148-174). */
  predicate PassesGuards(d: Dir, c: Call) {
    !c.pathUnset && (c.autoUpdateRules ==> c.version.None? && !c.force && d.isDir && d.owned)
  }

  /** A readme version that get_data_info uses to report a problem. */
  predicate Sentinel(v: Option<string>) {
    v == Some("invalid") || v == Some("error") || v == Some("unknown")
  }

  /** A step that changes the measures data themselves (as opposed to
      creating the directory, touching the readme or handling the lock). */
  predicate ChangesData(op: Op) {
    op.RemoveArchive? || op.Download? || op.RemoveReadme? || op.Extract? || op.WriteReadme?
  }

  /** The rule a single step obeys in state `d`: data change only while the
      lock file is non-empty; the archive is downloaded only once a stale
      one is deleted; members are extracted only from a present archive into
      a directory without a readme; the new readme is written only once the
      old one and the archive are gone. */
  predicate Allowed(d: Dir, op: Op) {
    (ChangesData(op) ==> d.lockDirty) &&
    (op.Download? ==> !d.archive) &&
    (op.Extract? ==> d.readme.None? && d.archive) &&
    (op.WriteReadme? ==> d.readme.None? && !d.archive)
  }

  /** Every step of `ops`, performed from `d`, obeys Allowed. */
  predicate Disciplined(d: Dir, ops: seq<Op>)
    decreases |ops|
  {
    ops == [] || (Disciplined(d, ops[..|ops| - 1]) && Allowed(Run(d, ops[..|ops| - 1]), ops[|ops| - 1]))
  }

  /** What Disciplined means at each position of the sequence. */
  lemma {:induction false} DisciplinedAt(d: Dir, ops: seq<Op>, k: nat)
    requires Disciplined(d, ops) && k < |ops|
    ensures Allowed(Run(d, ops[..k]), ops[k])
    decreases |ops|
  {
    var n := |ops| - 1;
    if k < n {
      assert ops[..n][..k] == ops[..k];
      DisciplinedAt(d, ops[..n], k);
    }
  }

  lemma {:induction false} DisciplinedAppend(d: Dir, a: seq<Op>, b: seq<Op>)
    requires Disciplined(d, a) && Disciplined(Run(d, a), b)
    ensures Disciplined(d, a + b)
    decreases |b|
  {
    if b == [] {
      assert a + b == a;
    } else {
      var n := |b| - 1;
      assert (a + b)[..|a + b| - 1] == a + b[..n];
      DisciplinedAppend(d, a, b[..n]);
      RunAppend(d, a, b[..n]);
    }
  }

  /** Steps that change no data are always allowed. */
  lemma {:induction false} QuietDisciplined(d: Dir, ops: seq<Op>)
    requires forall op :: op in ops ==> !ChangesData(op)
    ensures Disciplined(d, ops)
    decreases |ops|
  {
    if ops != [] {
      QuietDisciplined(d, ops[..|ops| - 1]);
    }
  }

  lemma DisciplinedSnoc(d: Dir, ops: seq<Op>, op: Op)
    requires Disciplined(d, ops) && Allowed(Run(d, ops), op)
    ensures Disciplined(d, ops + [op])
  {
    assert (ops + [op])[..|ops|] == ops;
  }

  /** Data steps leave everything but the data as it was. */
  lemma {:induction false} DataStepsKeepLock(d: Dir, ops: seq<Op>)
    requires forall op :: op in ops ==> ChangesData(op)
    ensures Run(d, ops).lockDirty == d.lockDirty && Run(d, ops).isDir == d.isDir
    decreases |ops|
  {
    if ops != [] {
      var rest := ops[1..];
      assert ops[0] in ops && forall op :: op in rest ==> op in ops;
      DataStepKeepsLock(d, ops[0]);
      DataStepsKeepLock(Step(d, ops[0]), rest);
    }
  }

  lemma DataStepKeepsLock(d: Dir, op: Op)
    requires ChangesData(op)
    ensures Step(d, op).lockDirty == d.lockDirty && Step(d, op).isDir == d.isDir
  {
    match op
    case Extract(_) =>
    case WriteReadme(_, _) =>
    case _ =>
  }

  lemma CreateOpsRun(d: Dir)
    ensures Run(d, CreateOps(d)) == d.(isDir := true)
    ensures forall op :: op in CreateOps(d) ==> op == MakeDirs
  {
    if !d.isDir {
      assert Run(d, [MakeDirs]) == Run(Step(d, MakeDirs), []);
    }
  }

  /** Removing the readme, if there is one, is allowed under the lock. */
  lemma UnmarkDisciplined(d: Dir)
    requires d.lockDirty
    ensures var unmark := if d.readme.Some? then [RemoveReadme] else [];
      Disciplined(d, unmark) && Run(d, unmark) == d.(readme := None)
  {
    if d.readme.Some? {
      DisciplinedSnoc(d, [], RemoveReadme);
      RunSnoc(d, [], RemoveReadme);
      assert [] + [RemoveReadme] == [RemoveReadme];
    }
  }

  /** Extracting, then removing the archive and writing the readme, is
      allowed once the readme is gone and the archive is there. */
  lemma ExtractTailDisciplined(d: Dir, pre: seq<Op>, x: seq<string>, w: Op)
    requires Disciplined(d, pre) && w.WriteReadme?
    requires Run(d, pre).readme.None? && Run(d, pre).archive && Run(d, pre).lockDirty
    ensures Disciplined(d, pre + [Extract(x)])
    ensures Disciplined(d, pre + [Extract(x)] + [RemoveArchive] + [w])
  {
    DisciplinedSnoc(d, pre, Extract(x));
    RunSnoc(d, pre, Extract(x));
    DisciplinedSnoc(d, pre + [Extract(x)], RemoveArchive);
    RunSnoc(d, pre + [Extract(x)], RemoveArchive);
    DisciplinedSnoc(d, pre + [Extract(x)] + [RemoveArchive], w);
  }

  /** Unpacking obeys the rules once the lock is held and the archive is there. */
  lemma UnpackDisciplined(d: Dir, c: Call, e: Env, target: string)
    requires d.lockDirty && d.archive
    ensures Disciplined(d, Unpack(d, c, e, target).ops)
    ensures forall op :: op in Unpack(d, c, e, target).ops ==> ChangesData(op)
  {
    var unmark := if d.readme.Some? then [RemoveReadme] else [];
    var xs := Selected(e.archiveMembers, c.force, c.useAstronObsTable);
    var x := if e.fault.ExtractFault? then xs[..Min(e.fault.done, |xs|)] else xs;
    var w := WriteReadme(ReadmeText(target, e.today), e.now);
    UnmarkDisciplined(d);
    ExtractTailDisciplined(d, unmark, x, w);
    ExtractTailChangesData(unmark, x, w);
  }

  /** ... and each of those steps changes data. */
  lemma ExtractTailChangesData(pre: seq<Op>, x: seq<string>, w: Op)
    requires (forall op :: op in pre ==> ChangesData(op)) && w.WriteReadme?
    ensures forall op :: op in pre + [Extract(x)] ==> ChangesData(op)
    ensures forall op :: op in pre + [Extract(x)] + [RemoveArchive] + [w] ==> ChangesData(op)
  {
  }

  /** So does the whole transfer, once the lock is held. */
  lemma TransferDisciplined(d: Dir, c: Call, e: Env, target: string)
    requires d.lockDirty
    ensures Disciplined(d, Transfer(d, c, e, target).ops)
    ensures forall op :: op in Transfer(d, c, e, target).ops ==> ChangesData(op)
  {
    var pre := if d.archive then [RemoveArchive] else [];
    if d.archive {
      DisciplinedSnoc(d, [], RemoveArchive);
      assert [] + [RemoveArchive] == pre;
    }
    if d.archive {
      RunSnoc(d, [], RemoveArchive);
    }
    DisciplinedSnoc(d, pre, Download);
    var fetch := pre + [Download];
    if e.fault != DownloadFault {
      RunSnoc(d, pre, Download);
      assert Run(d, fetch).archive;
      DataStepsKeepLock(d, pre);
      UnpackDisciplined(Run(d, fetch), c, e, target);
      DisciplinedAppend(d, fetch, Unpack(Run(d, fetch), c, e, target).ops);
    }
  }

  /** Everything done under the lock changes data and obeys the rules. */
  lemma SessionDisciplined(d: Dir, c: Call, e: Env)
    requires d.lockDirty
    ensures Disciplined(d, Locked(d, c, e).ops)
    ensures forall op :: op in Locked(d, c, e).ops ==> ChangesData(op)
  {
    if e.fault != ConnectFault {
      var files := Sort(Candidates(e.server));
      if !(c.version.None? && files == []) {
        var target := if c.version.None? then files[|files| - 1] else c.version.value;
        TransferDisciplined(d, c, e, target);
      }
    }
  }

  /** Before the lock, at most the readme is touched. */
  lemma PreLockSteps(d: Dir, c: Call, e: Env)
    requires PreLock(d, c, e).Some?
    ensures PreLock(d, c, e).value.ops == [] || PreLock(d, c, e).value.ops == [Touch(e.now)]
  {
  }

  /** The rules hold for every step measures_update performs. */
  lemma DisciplineHolds(d: Dir, c: Call, e: Env)
    ensures Disciplined(d, UpdateOutcome(d, c, e).ops)
  {
    var o := UpdateOutcome(d, c, e);
    if PassesGuards(d, c) {
      var mk := CreateOps(d);
      var d1 := Run(d, mk);
      CreateOpsRun(d);
      var pre := if c.force then None else PreLock(d1, c, e);
      if pre.Some? {
        PreLockSteps(d1, c, e);
        QuietDisciplined(d, mk + pre.value.ops);
      } else if d1.writable && !d1.lockDirty {
        var s := Locked(Step(d1, TakeLock), c, e);
        SessionDisciplined(Step(d1, TakeLock), c, e);
        LockedTailDisciplined(d, mk, s.ops, s.clean);
      } else {
        QuietDisciplined(d, mk);
      }
    }
  }

  /** Taking the lock after steps that change no data, a session obeying the
      rules, and the truncation in the `finally`, obey the rules together. */
  lemma LockedTailDisciplined(d: Dir, mk: seq<Op>, ops: seq<Op>, clean: bool)
    requires forall op :: op in mk ==> !ChangesData(op)
    requires Disciplined(Step(Run(d, mk), TakeLock), ops)
    ensures Disciplined(d, mk + [TakeLock] + ops + (if clean then [TruncateLock] else []))
  {
    QuietDisciplined(d, mk + [TakeLock]);
    RunSnoc(d, mk, TakeLock);
    DisciplinedAppend(d, mk + [TakeLock], ops);
    if clean {
      DisciplinedSnoc(d, mk + [TakeLock] + ops, TruncateLock);
    } else {
      assert mk + [TakeLock] + ops + [] == mk + [TakeLock] + ops;
    }
  }

  /** Lines 244-349: every step that changes the measures data happens
      while the lock file is non-empty; a stale measures.ztar is deleted
      before the download; members are extracted only from the downloaded
      archive once the readme is gone; the new readme is written only after
      the extraction and once the archive is deleted. So an interrupted
      update never leaves a readme beside partial data. */
  lemma OrderingDiscipline(d: Dir, c: Call, e: Env)
    ensures var ops := UpdateOutcome(d, c, e).ops;
      forall k :: 0 <= k < |ops| && ChangesData(ops[k]) ==> Run(d, ops[..k]).lockDirty
    ensures var ops := UpdateOutcome(d, c, e).ops;
      forall k :: 0 <= k < |ops| && ops[k].Download? ==> !Run(d, ops[..k]).archive
    ensures var ops := UpdateOutcome(d, c, e).ops;
      forall k :: 0 <= k < |ops| && ops[k].Extract? ==> Run(d, ops[..k]).readme.None? && Run(d, ops[..k]).archive
    ensures var ops := UpdateOutcome(d, c, e).ops;
      forall k :: 0 <= k < |ops| && ops[k].WriteReadme? ==> Run(d, ops[..k]).readme.None? && !Run(d, ops[..k]).archive
    ensures var ops := UpdateOutcome(d, c, e).ops;
      forall k :: 0 <= k < |ops| && ops[k].Extract? ==> exists j :: 0 <= j < k && ops[j].Download?
    ensures var ops := UpdateOutcome(d, c, e).ops;
      forall k :: 0 <= k < |ops| && ops[k].WriteReadme? ==> exists j :: 0 <= j < k && ops[j].Extract?
  {
    var ops := UpdateOutcome(d, c, e).ops;
    DisciplineHolds(d, c, e);
    forall k | 0 <= k < |ops| ensures Allowed(Run(d, ops[..k]), ops[k]) {
      DisciplinedAt(d, ops, k);
    }
    OrderHolds(d, c, e);
  }

  /** Every extraction in `ops` comes after a download. */
  predicate DownloadsFirst(ops: seq<Op>) {
    forall k :: 0 <= k < |ops| && ops[k].Extract? ==> exists j :: 0 <= j < k && ops[j].Download?
  }

  /** Every readme write in `ops` comes after an extraction. */
  predicate ExtractsFirst(ops: seq<Op>) {
    forall k :: 0 <= k < |ops| && ops[k].WriteReadme? ==> exists j :: 0 <= j < k && ops[j].Extract?
  }

  lemma DownloadsFirstAppend(a: seq<Op>, b: seq<Op>)
    requires DownloadsFirst(a) && (Download in a || DownloadsFirst(b))
    ensures DownloadsFirst(a + b)
  {
    forall k | 0 <= k < |a + b| && (a + b)[k].Extract?
      ensures exists j :: 0 <= j < k && (a + b)[j].Download?
    {
      if k < |a| {
        assert (a + b)[k] == a[k];
        var j :| 0 <= j < k && a[j].Download?;
        assert (a + b)[j] == a[j];
      } else if Download in a {
        var j :| 0 <= j < |a| && a[j] == Download;
        assert (a + b)[j] == a[j];
      } else {
        assert (a + b)[k] == b[k - |a|];
        var j :| 0 <= j < k - |a| && b[j].Download?;
        assert (a + b)[j + |a|] == b[j];
      }
    }
  }

  lemma ExtractsFirstAppend(a: seq<Op>, b: seq<Op>)
    requires ExtractsFirst(a) && ((exists i :: 0 <= i < |a| && a[i].Extract?) || ExtractsFirst(b))
    ensures ExtractsFirst(a + b)
  {
    forall k | 0 <= k < |a + b| && (a + b)[k].WriteReadme?
      ensures exists j :: 0 <= j < k && (a + b)[j].Extract?
    {
      if k < |a| {
        assert (a + b)[k] == a[k];
        var j :| 0 <= j < k && a[j].Extract?;
        assert (a + b)[j] == a[j];
      } else if exists i :: 0 <= i < |a| && a[i].Extract? {
        var j :| 0 <= j < |a| && a[j].Extract?;
        assert (a + b)[j] == a[j];
      } else {
        assert (a + b)[k] == b[k - |a|];
        var j :| 0 <= j < k - |a| && b[j].Extract?;
        assert (a + b)[j + |a|] == b[j];
      }
    }
  }

  /** Steps without an extraction need no download before them. */
  lemma NoExtractDownloadsFirst(ops: seq<Op>)
    requires forall op :: op in ops ==> !op.Extract?
    ensures DownloadsFirst(ops)
  {
    forall k | 0 <= k < |ops| ensures !ops[k].Extract? { assert ops[k] in ops; }
  }

  /** Steps without a readme write need no extraction before them. */
  lemma NoWriteExtractsFirst(ops: seq<Op>)
    requires forall op :: op in ops ==> !op.WriteReadme?
    ensures ExtractsFirst(ops)
  {
    forall k | 0 <= k < |ops| ensures !ops[k].WriteReadme? { assert ops[k] in ops; }
  }

  /** An extraction, then removing the archive and writing the readme, after
      steps that write no readme. */
  lemma UnpackTailOrdered(pre: seq<Op>, x: seq<string>, w: Op)
    requires forall op :: op in pre ==> !op.WriteReadme?
    ensures ExtractsFirst(pre + [Extract(x)])
    ensures ExtractsFirst(pre + [Extract(x)] + [RemoveArchive] + [w])
  {
    var a := pre + [Extract(x)];
    NoWriteExtractsFirst(a);
    assert a[|pre|].Extract?;
    ExtractsFirstAppend(a, [RemoveArchive]);
    assert (a + [RemoveArchive])[|pre|].Extract?;
    ExtractsFirstAppend(a + [RemoveArchive], [w]);
  }

  /** The readme is written only after the extraction (317-345). */
  lemma UnpackOrdered(d: Dir, c: Call, e: Env, target: string)
    ensures ExtractsFirst(Unpack(d, c, e, target).ops)
  {
    var unmark := if d.readme.Some? then [RemoveReadme] else [];
    var xs := Selected(e.archiveMembers, c.force, c.useAstronObsTable);
    var x := if e.fault.ExtractFault? then xs[..Min(e.fault.done, |xs|)] else xs;
    UnpackTailOrdered(unmark, x, WriteReadme(ReadmeText(target, e.today), e.now));
  }

  /** Extraction follows the download, and the readme write the extraction (306-345). */
  lemma TransferOrdered(d: Dir, c: Call, e: Env, target: string)
    ensures DownloadsFirst(Transfer(d, c, e, target).ops) && ExtractsFirst(Transfer(d, c, e, target).ops)
  {
    var fetch := (if d.archive then [RemoveArchive] else []) + [Download];
    NoExtractDownloadsFirst(fetch);
    NoWriteExtractsFirst(fetch);
    assert fetch[|fetch| - 1] == Download;
    if e.fault != DownloadFault {
      var u := Unpack(Run(d, fetch), c, e, target);
      UnpackOrdered(Run(d, fetch), c, e, target);
      DownloadsFirstAppend(fetch, u.ops);
      ExtractsFirstAppend(fetch, u.ops);
    }
  }

  lemma SessionOrdered(d: Dir, c: Call, e: Env)
    ensures DownloadsFirst(Locked(d, c, e).ops) && ExtractsFirst(Locked(d, c, e).ops)
  {
    if e.fault != ConnectFault {
      var files := Sort(Candidates(e.server));
      if !(c.version.None? && files == []) {
        var target := if c.version.None? then files[|files| - 1] else c.version.value;
        TransferOrdered(d, c, e, target);
      }
    }
  }

  /** Taking the lock after steps that neither extract nor write the readme,
      a session in order, and the truncation in the `finally`, stay in order. */
  lemma LockedTailOrdered(mk: seq<Op>, ops: seq<Op>, clean: bool)
    requires forall op :: op in mk ==> !op.Extract? && !op.WriteReadme?
    requires DownloadsFirst(ops) && ExtractsFirst(ops)
    ensures var all := mk + [TakeLock] + ops + (if clean then [TruncateLock] else []);
      DownloadsFirst(all) && ExtractsFirst(all)
  {
    var t: seq<Op> := if clean then [TruncateLock] else [];
    NoExtractDownloadsFirst(mk + [TakeLock]);
    NoWriteExtractsFirst(mk + [TakeLock]);
    DownloadsFirstAppend(mk + [TakeLock], ops);
    ExtractsFirstAppend(mk + [TakeLock], ops);
    NoExtractDownloadsFirst(t);
    NoWriteExtractsFirst(t);
    DownloadsFirstAppend(mk + [TakeLock] + ops, t);
    ExtractsFirstAppend(mk + [TakeLock] + ops, t);
  }

  /** Every call extracts only after downloading and writes the readme only
      after extracting. */
  lemma OrderHolds(d: Dir, c: Call, e: Env)
    ensures DownloadsFirst(UpdateOutcome(d, c, e).ops) && ExtractsFirst(UpdateOutcome(d, c, e).ops)
  {
    var ops := UpdateOutcome(d, c, e).ops;
    LockTakenIff(d, c, e);
    if ReachesLock(d, c, e) {
      var mk := CreateOps(d);
      CreateOpsRun(d);
      var d1 := Run(d, mk);
      var s := Locked(Step(d1, TakeLock), c, e);
      SessionOrdered(Step(d1, TakeLock), c, e);
      LockedTailOrdered(mk, s.ops, s.clean);
    } else {
      NoExtractDownloadsFirst(ops);
      NoWriteExtractsFirst(ops);
    }
  }

  /** The call gets as far as get_data_lock and the lock is free (240-252). */
  predicate ReachesLock(d: Dir, c: Call, e: Env) {
    PassesGuards(d, c) && (c.force || PreLock(Run(d, CreateOps(d)), c, e).None?) && d.writable && !d.lockDirty
  }

  /** clean_lock (276-349): the session ends clean exactly when it neither
      raised nor found the target missing. */
  lemma SessionCleanIff(d: Dir, c: Call, e: Env)
    ensures Locked(d, c, e).clean <==> !(Locked(d, c, e).exit.Raised? || Locked(d, c, e).exit.TargetMissing?)
  {
    if e.fault != ConnectFault {
      var files := Sort(Candidates(e.server));
      if !(c.version.None? && files == []) {
        var target := if c.version.None? then files[|files| - 1] else c.version.value;
        if e.fault != DownloadFault {
          var fetch := (if d.archive then [RemoveArchive] else []) + [Download];
          assert Unpack(Run(d, fetch), c, e, target).clean <==> !Unpack(Run(d, fetch), c, e, target).exit.Raised?;
        }
      }
    }
  }

  /** The lock is taken exactly when the call passes every check before it,
      whatever the readme says when force is set; everything else happens
      without it and changes no data. */
  lemma LockTakenIff(d: Dir, c: Call, e: Env)
    ensures TakeLock in UpdateOutcome(d, c, e).ops <==> ReachesLock(d, c, e)
    ensures TakeLock !in UpdateOutcome(d, c, e).ops ==>
              forall op :: op in UpdateOutcome(d, c, e).ops ==> !ChangesData(op)
  {
    var o := UpdateOutcome(d, c, e);
    if PassesGuards(d, c) {
      var mk := CreateOps(d);
      var d1 := Run(d, mk);
      CreateOpsRun(d);
      var pre := if c.force then None else PreLock(d1, c, e);
      if pre.Some? {
        PreLockSteps(d1, c, e);
      } else if d1.writable && !d1.lockDirty {
        assert TakeLock in mk + [TakeLock];
      }
    }
  }

  /** The session from a taken lock, followed by the truncation when
      clean_lock is set, leaves the lock non-empty exactly on failure. */
  lemma SessionLockState(d: Dir, c: Call, e: Env)
    requires d.lockDirty
    ensures var s := Locked(d, c, e);
      Run(d, s.ops + (if s.clean then [TruncateLock] else [])).lockDirty <==> s.exit.Raised? || s.exit.TargetMissing?
  {
    var s := Locked(d, c, e);
    SessionDisciplined(d, c, e);
    SessionCleanIff(d, c, e);
    DataStepsKeepLock(d, s.ops);
    if s.clean {
      RunSnoc(d, s.ops, TruncateLock);
    } else {
      assert s.ops + [] == s.ops;
    }
  }

  /** The `finally` at 381-386: once this call has taken the lock, it leaves
      the lock file non-empty exactly when it raised or found the target
      missing. */
  lemma LockReleasedUnlessFailed(d: Dir, c: Call, e: Env)
    requires TakeLock in UpdateOutcome(d, c, e).ops
    ensures Run(d, UpdateOutcome(d, c, e).ops).lockDirty <==>
              UpdateOutcome(d, c, e).exit.Raised? || UpdateOutcome(d, c, e).exit.TargetMissing?
  {
    LockTakenIff(d, c, e);
    var mk := CreateOps(d);
    CreateOpsRun(d);
    var d2 := Step(Run(d, mk), TakeLock);
    var s := Locked(d2, c, e);
    var t := if s.clean then [TruncateLock] else [];
    RunSnoc(d, mk, TakeLock);
    SessionLockState(d2, c, e);
    assert mk + [TakeLock] + s.ops + t == (mk + [TakeLock]) + (s.ops + t);
    RunAppend(d, mk + [TakeLock], s.ops + t);
  }

  /** A call that does not take the lock changes nothing but the existence
      of the directory and the readme's modification time. */
  lemma UntakenLockChangesNoData(d: Dir, c: Call, e: Env)
    requires TakeLock !in UpdateOutcome(d, c, e).ops
    ensures var f := Run(d, UpdateOutcome(d, c, e).ops);
      f == d.(isDir := f.isDir, readmeMtime := f.readmeMtime)
  {
    var ops := UpdateOutcome(d, c, e).ops;
    UnlockedOps(d, c, e);
    CreateOpsRun(d);
    RunSnoc(d, CreateOps(d), Touch(e.now));
    if ops == [] {
      assert Run(d, ops) == d;
    }
  }

  /** Without the lock, the only steps are creating the directory and
      touching the readme. */
  lemma UnlockedOps(d: Dir, c: Call, e: Env)
    requires TakeLock !in UpdateOutcome(d, c, e).ops
    ensures var ops := UpdateOutcome(d, c, e).ops;
      ops == [] || ops == CreateOps(d) || ops == CreateOps(d) + [Touch(e.now)]
  {
    LockTakenIff(d, c, e);
    if PassesGuards(d, c) {
      var d1 := Run(d, CreateOps(d));
      if !c.force && PreLock(d1, c, e).Some? {
        PreLockSteps(d1, c, e);
        if PreLock(d1, c, e).value.ops == [] {
          assert CreateOps(d) + [] == CreateOps(d);
        }
      }
    }
  }

  /** Lines 162-174: with auto_update_rules a version or force is refused
      quietly, an absent or foreign directory raises, and the directory is
      never created. */
  lemma AutoUpdateRulesGuard(d: Dir, c: Call, e: Env)
    requires !c.pathUnset && c.autoUpdateRules
    ensures c.version.Some? ==> UpdateOutcome(d, c, e) == Outcome(AutoVersionGiven, [])
    ensures c.version.None? && c.force ==> UpdateOutcome(d, c, e) == Outcome(AutoForceGiven, [])
    ensures c.version.None? && !c.force && !(d.isDir && d.owned) ==>
              UpdateOutcome(d, c, e) == Outcome(Raised(AutoUpdatesNotAllowed), [])
    ensures MakeDirs !in UpdateOutcome(d, c, e).ops
  {
    if PassesGuards(d, c) {
      ExistingDirNotCreated(d, c, e);
    }
  }

  /** A path that is already a directory is never created again. */
  lemma ExistingDirNotCreated(d: Dir, c: Call, e: Env)
    requires d.isDir
    ensures MakeDirs !in UpdateOutcome(d, c, e).ops
  {
    LockTakenIff(d, c, e);
    if TakeLock in UpdateOutcome(d, c, e).ops {
      var d1 := d.(isDir := true);
      assert Run(d, CreateOps(d)) == d1;
      var s := Locked(Step(d1, TakeLock), c, e);
      SessionDisciplined(Step(d1, TakeLock), c, e);
      LockedTailNotCreated(s.ops, s.clean);
    } else {
      UnlockedOps(d, c, e);
    }
  }

  lemma LockedTailNotCreated(ops: seq<Op>, clean: bool)
    requires forall op :: op in ops ==> ChangesData(op)
    ensures MakeDirs !in [] + [TakeLock] + ops + (if clean then [TruncateLock] else [])
  {
  }

  /** Lines 183-193: without force and without a version, a readme younger
      than a day ends the call before the network is asked or the
      directory is looked at further. */
  lemma RecentCheckStops(d: Dir, c: Call, e: Env)
    requires PassesGuards(d, c) && !c.force && c.version.None? && AgeRecent(e.info)
    ensures UpdateOutcome(d, c, e) == Outcome(CheckedRecently, CreateOps(d))
  {
    assert CreateOps(d) + [] == CreateOps(d);
  }

  /** Lines 195-205: a missing, unreadable or unmaintained readme ends the
      call without the lock. */
  lemma ReadmeProblemsStop(d: Dir, c: Call, e: Env)
    requires PassesGuards(d, c) && !c.force && !(c.version.None? && AgeRecent(e.info))
    ensures Current(e.info) == Some("invalid") ==> UpdateOutcome(d, c, e) == Outcome(Raised(NoReadme), CreateOps(d))
    ensures Current(e.info) == Some("error") ==> UpdateOutcome(d, c, e) == Outcome(Raised(BadReadme), CreateOps(d))
    ensures Current(e.info) == Some("unknown") ==> UpdateOutcome(d, c, e) == Outcome(NotMaintained, CreateOps(d))
  {
    assert CreateOps(d) + [] == CreateOps(d);
  }

  /** Lines 207-217: when the latest version is wanted, a failure to reach
      the server while listing propagates before the lock. */
  lemma RemoteErrorStops(d: Dir, c: Call, e: Env)
    requires PassesGuards(d, c) && !c.force && c.version.None? && !AgeRecent(e.info) && !Sentinel(Current(e.info))
    requires e.listing.AddressError?
    ensures UpdateOutcome(d, c, e) == Outcome(Raised(RemoteError(RemotePrefix + e.listing.detail)), CreateOps(d))
  {
    assert CreateOps(d) + [] == CreateOps(d);
  }

  /** Lines 219-228: when the version to check for is the installed one,
      the readme is touched and nothing else happens; a readme that went
      missing makes the touch fail. */
  lemma AlreadyInstalledTouches(d: Dir, c: Call, e: Env)
    requires PassesGuards(d, c) && !c.force && !(c.version.None? && AgeRecent(e.info)) && !Sentinel(Current(e.info))
    requires Current(e.info).Some? && CheckVersion(c, e) == Ok(Current(e.info))
    ensures d.readme.Some? ==> UpdateOutcome(d, c, e) == Outcome(AlreadyInstalled, CreateOps(d) + [Touch(e.now)])
    ensures d.readme.Some? ==> Run(d, UpdateOutcome(d, c, e).ops) == d.(isDir := true, readmeMtime := e.now)
    ensures d.readme.None? ==> UpdateOutcome(d, c, e) == Outcome(Raised(Failure(TouchFailed)), CreateOps(d))
  {
    CreateOpsRun(d);
    if d.readme.Some? {
      RunSnoc(d, CreateOps(d), Touch(e.now));
    } else {
      assert CreateOps(d) + [] == CreateOps(d);
    }
  }

  /** Lines 230-238: once the version to check is not the installed one (the
      test of line 220, which a `None` version to check never passes),
      without geodetic/Observatories there is nothing to update in place,
      and the call ends without the lock. */
  lemma MissingObservatoriesStops(d: Dir, c: Call, e: Env)
    requires PassesGuards(d, c) && !c.force && !(c.version.None? && AgeRecent(e.info)) && !Sentinel(Current(e.info))
    requires CheckVersion(c, e).Ok? && !(CheckVersion(c, e).value.Some? && CheckVersion(c, e).value == Current(e.info))
    requires !d.observatories
    ensures UpdateOutcome(d, c, e) == Outcome(NoObservatories, CreateOps(d))
  {
    CreateOpsRun(d);
    assert CreateOps(d) + [] == CreateOps(d);
  }

  /** Lines 240-242: an unwritable directory raises before the lock, with
      or without force. */
  lemma NotWritableStops(d: Dir, c: Call, e: Env)
    requires PassesGuards(d, c) && (c.force || PreLock(Run(d, CreateOps(d)), c, e).None?) && !d.writable
    ensures UpdateOutcome(d, c, e) == Outcome(Raised(NotWritable), CreateOps(d))
  {
    CreateOpsRun(d);
  }

  /** Lines 244-252: a lock file that is already non-empty (another update
      crashed or is running) raises BadLock and is left as it is. */
  lemma DirtyLockStops(d: Dir, c: Call, e: Env)
    requires PassesGuards(d, c) && (c.force || PreLock(Run(d, CreateOps(d)), c, e).None?) && d.writable && d.lockDirty
    ensures UpdateOutcome(d, c, e) == Outcome(Raised(BadLock), CreateOps(d))
    ensures Run(d, UpdateOutcome(d, c, e).ops) == d.(isDir := true)
  {
    CreateOpsRun(d);
  }

  /** Lines 255-273: once the lock is held, a readme that now shows the
      requested version, or one younger than a day when the latest is
      wanted, ends the call: the lock is taken and truncated again and the
      data are left alone. */
  lemma RecheckFindsNothingToDo(d: Dir, c: Call, e: Env)
    requires ReachesLock(d, c, e) && !c.force
    requires (c.version.Some? && c.version == Current(e.reread)) || (c.version.None? && AgeRecent(e.reread))
    ensures UpdateOutcome(d, c, e) ==
              Outcome(if c.version.Some? then RequestedPresent else RecentAfterLock,
                      CreateOps(d) + [TakeLock] + [] + [TruncateLock])
    ensures Run(d, UpdateOutcome(d, c, e).ops) == d.(isDir := true)
  {
    CreateOpsRun(d);
    RunSnoc(d, CreateOps(d), TakeLock);
    assert CreateOps(d) + [TakeLock] + [] == CreateOps(d) + [TakeLock];
    RunSnoc(d, CreateOps(d) + [TakeLock], TruncateLock);
  }

  /** Line 276 as written: the re-check compares the REQUESTED version with
      'invalid' and 'unknown'. A request for one of those names whose
      readme does not show it raises BadReadme and keeps the lock
      non-empty; nothing else is changed. */
  lemma RecheckRejectsSentinelRequest(d: Dir, c: Call, e: Env)
    requires ReachesLock(d, c, e) && !c.force && e.reread.Some?
    requires (c.version == Some("invalid") || c.version == Some("unknown")) && Current(e.reread) != c.version
    ensures UpdateOutcome(d, c, e).exit == Raised(BadReadme)
    ensures Run(d, UpdateOutcome(d, c, e).ops) == d.(isDir := true, lockDirty := true)
  {
    CreateOpsRun(d);
    RunSnoc(d, CreateOps(d), TakeLock);
    assert CreateOps(d) + [TakeLock] + [] + [] == CreateOps(d) + [TakeLock];
  }

  /** Line 276 as written, the other side: when the latest version is wanted,
      a re-read readme that now reports 'invalid' or 'unknown' does not stop
      the install. */
  lemma RecheckIgnoresInstalledSentinel(d: Dir, c: Call, e: Env)
    requires ReachesLock(d, c, e) && !c.force && c.version.None? && !AgeRecent(e.reread)
    ensures UpdateOutcome(d, c, e).exit == Install(Step(d.(isDir := true), TakeLock), c, e).exit
  {
    CreateOpsRun(d);
  }

  /** Two updates racing for the lock: when another process installed the
      requested version while this one waited, nothing is downloaded. */
  lemma NoDownloadOnceInstalled(d: Dir, c: Call, e: Env)
    requires !c.force && c.version.Some? && Current(e.reread) == c.version
    ensures Download !in UpdateOutcome(d, c, e).ops
  {
    LockTakenIff(d, c, e);
    if ReachesLock(d, c, e) {
      RecheckFindsNothingToDo(d, c, e);
      CreateOpsRun(d);
    }
  }

  /** Lines 288-303: the target is the requested version, or the greatest
      downloadable name on the server in code-point order; an empty server
      listing raises only when no version was requested, and a target is
      reported missing exactly when a requested version is not on the server. */
  lemma InstallChoosesTarget(d: Dir, c: Call, e: Env)
    ensures var s := Install(d, c, e);
      s.exit.Installed? ==>
        s.exit.target in Candidates(e.server) &&
        (c.version.Some? ==> s.exit.target == c.version.value) &&
        (c.version.None? ==> forall n :: n in Candidates(e.server) ==> LexLe(n, s.exit.target))
    ensures var s := Install(d, c, e);
      s.exit.TargetMissing? ==> c.version == Some(s.exit.target) && s.exit.target !in Candidates(e.server)
    ensures e.fault != ConnectFault && c.version.Some? && c.version.value !in Candidates(e.server) ==>
              Install(d, c, e).exit == TargetMissing(c.version.value)
    ensures Install(d, c, e).exit == Raised(Failure(NoVersions)) <==>
              e.fault != ConnectFault && c.version.None? && Candidates(e.server) == []
  {
    SortedCandidates(Candidates(e.server));
    if e.fault != ConnectFault && !(c.version.None? && Sort(Candidates(e.server)) == []) {
      TransferEnds(d, c, e, ChosenTarget(c, e));
    }
  }

  /** `sorted` keeps the candidates, so its last name is the greatest one. */
  lemma SortedCandidates(cs: seq<string>)
    ensures forall n :: n in Sort(cs) <==> n in cs
    ensures Sort(cs) == [] <==> cs == []
    ensures cs != [] ==> |Sort(cs)| == |cs| && forall n :: n in cs ==> LexLe(n, Sort(cs)[|cs| - 1])
  {
    var files := Sort(cs);
    SortCorrect(cs);
    forall n ensures n in files <==> n in cs {
      assert n in files <==> multiset(files)[n] > 0;
    }
    if cs != [] {
      SortLastIsMaximum(cs);
    } else {
      assert |files| == |multiset(files)| == 0;
    }
  }

  /** A transfer either installs the target it was given or raises. */
  lemma TransferEnds(d: Dir, c: Call, e: Env, target: string)
    ensures var x := Transfer(d, c, e, target).exit;
      (x.Installed? ==> x.target == target) && (x.Raised? || x.Installed?) &&
      x != Raised(Failure(NoVersions))
  {
  }

  /** Proof helper: three steps after a sequence of steps. */
  lemma RunThree(d: Dir, a: seq<Op>, x: Op, y: Op, z: Op)
    ensures Run(d, a + [x] + [y] + [z]) == Step(Step(Step(Run(d, a), x), y), z)
  {
    RunSnoc(d, a, x);
    RunSnoc(d, a + [x], y);
    RunSnoc(d, a + [x] + [y], z);
  }

  /** The directory after a complete unpack. */
  lemma UnpackState(d: Dir, c: Call, e: Env, target: string)
    requires !e.fault.ExtractFault?
    ensures var xs := Selected(e.archiveMembers, c.force, c.useAstronObsTable);
      Run(d, Unpack(d, c, e, target).ops) ==
        d.(readme := Some(ReadmeText(target, e.today)), readmeMtime := e.now,
           members := d.members + NameSet(xs), observatories := TableAfter(d.observatories, xs), archive := false)
  {
    var unmark := if d.readme.Some? then [RemoveReadme] else [];
    var xs := Selected(e.archiveMembers, c.force, c.useAstronObsTable);
    var w := WriteReadme(ReadmeText(target, e.today), e.now);
    UnmarkRun(d);
    RunThree(d, unmark, Extract(xs), RemoveArchive, w);
    CommitSteps(Run(d, unmark), xs, ReadmeText(target, e.today), e.now);
  }

  /** Removing the readme, if there is one. */
  lemma UnmarkRun(d: Dir)
    ensures Run(d, if d.readme.Some? then [RemoveReadme] else []) == d.(readme := None)
  {
    if d.readme.Some? {
      assert Run(d, [RemoveReadme]) == Run(Step(d, RemoveReadme), []);
    }
  }

  /** Proof helper: extracting, removing the archive and writing the readme,
      stated on a plain directory value. */
  lemma CommitSteps(u: Dir, xs: seq<string>, text: string, t: int)
    ensures Step(Step(Step(u, Extract(xs)), RemoveArchive), WriteReadme(text, t)) ==
              u.(readme := Some(text), readmeMtime := t, members := u.members + NameSet(xs),
                 observatories := TableAfter(u.observatories, xs), archive := false)
  {
  }

  /** The last three steps of a complete unpack: the extraction of every
      selected member, the removal of the archive and the writing of the
      new readme. */
  lemma UnpackSteps(d: Dir, c: Call, e: Env, target: string)
    requires !e.fault.ExtractFault?
    ensures var xs := Selected(e.archiveMembers, c.force, c.useAstronObsTable); var ops := Unpack(d, c, e, target).ops;
      |ops| >= 3 && ops[|ops| - 3] == Extract(xs) && ops[|ops| - 2] == RemoveArchive &&
      ops[|ops| - 1] == WriteReadme(ReadmeText(target, e.today), e.now)
  {
  }

  /** The directory after the archive is fetched. */
  lemma FetchState(d: Dir)
    ensures Run(d, (if d.archive then [RemoveArchive] else []) + [Download]) == d.(archive := true)
  {
    var pre := if d.archive then [RemoveArchive] else [];
    if d.archive {
      RunSnoc(d, [], RemoveArchive);
      assert [] + [RemoveArchive] == pre;
    }
    RunSnoc(d, pre, Download);
  }

  /** A transfer that installs its target ends as a complete unpack does. */
  lemma TransferInstalledState(d: Dir, c: Call, e: Env, target: string)
    requires Transfer(d, c, e, target).exit.Installed?
    ensures var xs := Selected(e.archiveMembers, c.force, c.useAstronObsTable);
      Run(d, Transfer(d, c, e, target).ops) ==
        d.(readme := Some(ReadmeText(target, e.today)), readmeMtime := e.now,
           members := d.members + NameSet(xs), observatories := TableAfter(d.observatories, xs), archive := false)
  {
    var fetch := (if d.archive then [RemoveArchive] else []) + [Download];
    FetchState(d);
    var a := Run(d, fetch);
    var u := Unpack(a, c, e, target);
    assert !e.fault.ExtractFault?;
    assert Transfer(d, c, e, target).ops == fetch + u.ops;
    UnpackState(a, c, e, target);
    UnpackAfterFetch(d, fetch, u.ops, Selected(e.archiveMembers, c.force, c.useAstronObsTable),
                     ReadmeText(target, e.today), e.now);
  }

  /** Proof helper: a complete unpack after a fetch, stated on plain values. */
  lemma UnpackAfterFetch(d: Dir, fetch: seq<Op>, ops: seq<Op>, xs: seq<string>, text: string, t: int)
    requires Run(d, fetch) == d.(archive := true)
    requires var a := d.(archive := true);
      Run(a, ops) == a.(readme := Some(text), readmeMtime := t, members := a.members + NameSet(xs),
                        observatories := TableAfter(a.observatories, xs), archive := false)
    ensures Run(d, fetch + ops) ==
              d.(readme := Some(text), readmeMtime := t, members := d.members + NameSet(xs),
                 observatories := TableAfter(d.observatories, xs), archive := false)
  {
    RunAppend(d, fetch, ops);
  }

  /** ... and with the same last three steps. */
  lemma TransferInstalledSteps(d: Dir, c: Call, e: Env, target: string)
    requires Transfer(d, c, e, target).exit.Installed?
    ensures var s := Transfer(d, c, e, target); var xs := Selected(e.archiveMembers, c.force, c.useAstronObsTable);
      s.exit == Installed(target) && s.clean &&
      |s.ops| >= 3 && s.ops[|s.ops| - 3] == Extract(xs) && s.ops[|s.ops| - 2] == RemoveArchive &&
      s.ops[|s.ops| - 1] == WriteReadme(ReadmeText(target, e.today), e.now)
  {
    var fetch := (if d.archive then [RemoveArchive] else []) + [Download];
    var u := Unpack(Run(d, fetch), c, e, target);
    assert !e.fault.ExtractFault?;
    UnpackSteps(Run(d, fetch), c, e, target);
    var n := |fetch + u.ops|;
    assert (fetch + u.ops)[n - 3] == u.ops[|u.ops| - 3];
    assert (fetch + u.ops)[n - 2] == u.ops[|u.ops| - 2];
    assert (fetch + u.ops)[n - 1] == u.ops[|u.ops| - 1];
  }

  /** An install that succeeded is the transfer of its target. */
  lemma InstallIsTransfer(d: Dir, c: Call, e: Env)
    requires Install(d, c, e).exit.Installed?
    ensures Install(d, c, e) == Transfer(d, c, e, Install(d, c, e).exit.target)
  {
    var files := Sort(Candidates(e.server));
    var target := if c.version.None? then files[|files| - 1] else c.version.value;
    TransferInstalledSteps(d, c, e, target);
  }

  /** A session that installed its target went through the whole install
      sequence. */
  lemma SessionInstalled(d: Dir, c: Call, e: Env)
    requires Locked(d, c, e).exit.Installed?
    ensures var s := Locked(d, c, e); var xs := Selected(e.archiveMembers, c.force, c.useAstronObsTable);
      s == Install(d, c, e) && s.clean &&
      Run(d, s.ops) == d.(readme := Some(ReadmeText(s.exit.target, e.today)), readmeMtime := e.now,
                          members := d.members + NameSet(xs), observatories := TableAfter(d.observatories, xs),
                          archive := false) &&
      |s.ops| >= 3 && s.ops[|s.ops| - 3] == Extract(xs) && s.ops[|s.ops| - 2] == RemoveArchive &&
      s.ops[|s.ops| - 1] == WriteReadme(ReadmeText(s.exit.target, e.today), e.now)
  {
    assert Locked(d, c, e) == Install(d, c, e);
    InstallIsTransfer(d, c, e);
    var t := Install(d, c, e).exit.target;
    TransferInstalledState(d, c, e, t);
    TransferInstalledSteps(d, c, e, t);
  }

  /** The lock branch of UpdateOutcome, spelled out. */
  lemma LockBranch(d: Dir, c: Call, e: Env)
    requires ReachesLock(d, c, e)
    ensures var s := Locked(d.(isDir := true, lockDirty := true), c, e);
      UpdateOutcome(d, c, e) ==
        Outcome(s.exit, CreateOps(d) + [TakeLock] + s.ops + (if s.clean then [TruncateLock] else []))
    ensures Run(d, CreateOps(d) + [TakeLock]) == d.(isDir := true, lockDirty := true)
  {
    CreateOpsRun(d);
    RunSnoc(d, CreateOps(d), TakeLock);
  }

  /** The directory after the lock branch: the session's steps from a taken
      lock, then the truncation when clean_lock is set. */
  lemma LockBranchRun(d: Dir, c: Call, e: Env)
    requires ReachesLock(d, c, e)
    ensures var d2 := d.(isDir := true, lockDirty := true); var s := Locked(d2, c, e);
      Run(d, UpdateOutcome(d, c, e).ops) == Run(Run(d2, s.ops), if s.clean then [TruncateLock] else [])
  {
    LockBranch(d, c, e);
    var d2 := d.(isDir := true, lockDirty := true);
    var s := Locked(d2, c, e);
    var a := CreateOps(d) + [TakeLock];
    var t := if s.clean then [TruncateLock] else [];
    RunAppend(d, a + s.ops, t);
    RunAppend(d, a, s.ops);
  }

  /** Exits that only the session under the lock can take. */
  predicate SessionExit(x: Exit) {
    x.RequestedPresent? || x.RecentAfterLock? || x.TargetMissing? || x.Installed? ||
    (x.Raised? && x.error.Failure? && x.error.stage != TouchFailed)
  }

  /** No decision before the lock takes a session exit. */
  lemma PreLockExits(d: Dir, c: Call, e: Env)
    requires PreLock(d, c, e).Some?
    ensures !SessionExit(PreLock(d, c, e).value.exit)
  {
  }

  /** Those exits mean the lock was taken. */
  lemma SessionExitTakesLock(d: Dir, c: Call, e: Env)
    requires SessionExit(UpdateOutcome(d, c, e).exit)
    ensures ReachesLock(d, c, e)
  {
    if PassesGuards(d, c) {
      CreateOpsRun(d);
      if !c.force && PreLock(d.(isDir := true), c, e).Some? {
        PreLockExits(d.(isDir := true), c, e);
      }
    }
  }

  /** Proof helper: truncating the lock after steps that reach `want`. */
  lemma TruncateAfter(d: Dir, ops: seq<Op>, want: Dir)
    requires Run(d, ops) == want
    ensures Run(Run(d, ops), [TruncateLock]) == want.(lockDirty := false)
  {
  }

  /** An update that installs its target leaves the directory with the
      selected members added (and the Observatories table in place when one
      of them puts it there), no archive, the readme of lines 343-345 for
      that target and an empty lock file. */
  lemma InstalledState(d: Dir, c: Call, e: Env)
    requires UpdateOutcome(d, c, e).exit.Installed?
    ensures var o := UpdateOutcome(d, c, e); var xs := Selected(e.archiveMembers, c.force, c.useAstronObsTable);
      Run(d, o.ops) == d.(isDir := true, readme := Some(ReadmeText(o.exit.target, e.today)), readmeMtime := e.now,
                          members := d.members + NameSet(xs), observatories := TableAfter(d.observatories, xs),
                          archive := false, lockDirty := false)
  {
    SessionExitTakesLock(d, c, e);
    LockBranch(d, c, e);
    LockBranchRun(d, c, e);
    var d2 := d.(isDir := true, lockDirty := true);
    var s := Locked(d2, c, e);
    SessionInstalled(d2, c, e);
    var xs := Selected(e.archiveMembers, c.force, c.useAstronObsTable);
    TruncateAfter(d2, s.ops, d2.(readme := Some(ReadmeText(s.exit.target, e.today)), readmeMtime := e.now,
                                 members := d2.members + NameSet(xs), observatories := TableAfter(d2.observatories, xs),
                                 archive := false));
  }

  /** The new readme is written after the complete extraction and the
      removal of the archive, and only the lock truncation follows it. */
  lemma InstalledSteps(d: Dir, c: Call, e: Env)
    requires UpdateOutcome(d, c, e).exit.Installed?
    ensures var o := UpdateOutcome(d, c, e); var xs := Selected(e.archiveMembers, c.force, c.useAstronObsTable);
      |o.ops| >= 4 && o.ops[|o.ops| - 4] == Extract(xs) && o.ops[|o.ops| - 3] == RemoveArchive &&
      o.ops[|o.ops| - 2] == WriteReadme(ReadmeText(o.exit.target, e.today), e.now) &&
      o.ops[|o.ops| - 1] == TruncateLock
  {
    SessionExitTakesLock(d, c, e);
    LockBranch(d, c, e);
    var d2 := d.(isDir := true, lockDirty := true);
    var s := Locked(d2, c, e);
    var a := CreateOps(d) + [TakeLock];
    SessionInstalled(d2, c, e);
    var n := |a + s.ops + [TruncateLock]|;
    assert (a + s.ops + [TruncateLock])[n - 4] == s.ops[|s.ops| - 3];
    assert (a + s.ops + [TruncateLock])[n - 3] == s.ops[|s.ops| - 2];
    assert (a + s.ops + [TruncateLock])[n - 2] == s.ops[|s.ops| - 1];
  }

  /** The installed target is the requested version or else the greatest
      downloadable name the server lists. */
  lemma InstalledTarget(d: Dir, c: Call, e: Env)
    requires UpdateOutcome(d, c, e).exit.Installed?
    ensures var t := UpdateOutcome(d, c, e).exit.target;
      t in Candidates(e.server) && (c.version.Some? ==> t == c.version.value) &&
      (c.version.None? ==> forall n :: n in Candidates(e.server) ==> LexLe(n, t))
  {
    SessionExitTakesLock(d, c, e);
    LockBranch(d, c, e);
    var d2 := d.(isDir := true, lockDirty := true);
    SessionInstalled(d2, c, e);
    InstallChoosesTarget(d2, c, e);
  }

  /** The members a failed extraction got through. */
  function Partial(c: Call, e: Env): seq<string>
    requires e.fault.ExtractFault?
  {
    var xs := Selected(e.archiveMembers, c.force, c.useAstronObsTable);
    xs[..Min(e.fault.done, |xs|)]
  }

  /** Proof helper: running no further step after steps that reach `want`
      (keeps the solver from unfolding those steps again). */
  lemma NothingAfter(d: Dir, ops: seq<Op>, want: Dir)
    requires Run(d, ops) == want
    ensures Run(Run(d, ops), []) == want
  {
  }

  /** A failed unpack has removed the readme and extracted part of the
      selection. */
  lemma UnpackFailureState(d: Dir, c: Call, e: Env, target: string)
    requires e.fault.ExtractFault?
    ensures Run(d, Unpack(d, c, e, target).ops) ==
              d.(readme := None, members := d.members + NameSet(Partial(c, e)),
                 observatories := TableAfter(d.observatories, Partial(c, e)))
  {
    var unmark := if d.readme.Some? then [RemoveReadme] else [];
    if d.readme.Some? {
      assert Run(d, [RemoveReadme]) == Run(Step(d, RemoveReadme), []);
    }
    RunSnoc(d, unmark, Extract(Partial(c, e)));
  }

  /** The target the install sequence settles on (296-301), when there is one. */
  function ChosenTarget(c: Call, e: Env): string {
    var files := Sort(Candidates(e.server));
    if c.version.Some? then c.version.value else if files == [] then "" else files[|files| - 1]
  }

  /** An install that reached the download is the transfer of its target. */
  lemma InstallTransfers(d: Dir, c: Call, e: Env)
    requires e.fault != ConnectFault && !Install(d, c, e).exit.TargetMissing?
    requires Install(d, c, e).exit != Raised(Failure(NoVersions))
    ensures Install(d, c, e) == Transfer(d, c, e, ChosenTarget(c, e))
  {
  }

  /** A transfer whose extraction raised. */
  lemma TransferExtractFailure(d: Dir, c: Call, e: Env, target: string)
    requires e.fault.ExtractFault?
    ensures Transfer(d, c, e, target).exit == Raised(Failure(ExtractFailed)) && !Transfer(d, c, e, target).clean
    ensures Run(d, Transfer(d, c, e, target).ops) ==
              d.(archive := true, readme := None, members := d.members + NameSet(Partial(c, e)),
                 observatories := TableAfter(d.observatories, Partial(c, e)))
  {
    var fetch := (if d.archive then [RemoveArchive] else []) + [Download];
    FetchState(d);
    UnpackFailureState(Run(d, fetch), c, e, target);
    RunAppend(d, fetch, Unpack(Run(d, fetch), c, e, target).ops);
  }

  /** The directory after a session that failed while extracting. */
  lemma SessionExtractFailure(d: Dir, c: Call, e: Env)
    requires Locked(d, c, e).exit == Raised(Failure(ExtractFailed))
    ensures e.fault.ExtractFault? && !Locked(d, c, e).clean
    ensures e.fault.ExtractFault? &&
      Run(d, Locked(d, c, e).ops) ==
        d.(archive := true, readme := None, members := d.members + NameSet(Partial(c, e)),
           observatories := TableAfter(d.observatories, Partial(c, e)))
  {
    assert Locked(d, c, e) == Install(d, c, e);
    InstallTransfers(d, c, e);
    TransferExtractFailure(d, c, e, ChosenTarget(c, e));
  }

  /** Lines 317-339 with the extraction raising: the readme is gone, the
      members extracted so far stay (with the Observatories table when one
      of them put it in place), the archive is left behind and the lock file
      stays non-empty, so the next update refuses to run. */
  lemma ExtractFailureState(d: Dir, c: Call, e: Env)
    requires UpdateOutcome(d, c, e).exit == Raised(Failure(ExtractFailed))
    ensures e.fault.ExtractFault? &&
      Run(d, UpdateOutcome(d, c, e).ops) ==
        d.(isDir := true, lockDirty := true, archive := true, readme := None,
           members := d.members + NameSet(Partial(c, e)), observatories := TableAfter(d.observatories, Partial(c, e)))
  {
    SessionExitTakesLock(d, c, e);
    LockBranch(d, c, e);
    LockBranchRun(d, c, e);
    var d2 := d.(isDir := true, lockDirty := true);
    SessionExtractFailure(d2, c, e);
    NothingAfter(d2, Locked(d2, c, e).ops,
                 d2.(archive := true, readme := None, members := d2.members + NameSet(Partial(c, e)),
                     observatories := TableAfter(d2.observatories, Partial(c, e))));
  }

  /** A transfer whose download raised. */
  lemma TransferDownloadFailure(d: Dir, c: Call, e: Env, target: string)
    requires e.fault == DownloadFault
    ensures Transfer(d, c, e, target).exit == Raised(Failure(DownloadFailed)) && !Transfer(d, c, e, target).clean
    ensures Run(d, Transfer(d, c, e, target).ops) == d.(archive := true)
  {
    FetchState(d);
  }

  /** The directory after a session whose download failed. */
  lemma SessionDownloadFailure(d: Dir, c: Call, e: Env)
    requires Locked(d, c, e).exit == Raised(Failure(DownloadFailed))
    ensures !Locked(d, c, e).clean && Run(d, Locked(d, c, e).ops) == d.(archive := true)
  {
    assert Locked(d, c, e) == Install(d, c, e);
    InstallTransfers(d, c, e);
    TransferDownloadFailure(d, c, e, ChosenTarget(c, e));
  }

  /** Lines 306-315 with the download raising: a partial measures.ztar is
      left behind, the old data and readme are untouched and the lock file
      stays non-empty. */
  lemma DownloadFailureState(d: Dir, c: Call, e: Env)
    requires UpdateOutcome(d, c, e).exit == Raised(Failure(DownloadFailed))
    ensures Run(d, UpdateOutcome(d, c, e).ops) == d.(isDir := true, lockDirty := true, archive := true)
  {
    SessionExitTakesLock(d, c, e);
    LockBranch(d, c, e);
    LockBranchRun(d, c, e);
    var d2 := d.(isDir := true, lockDirty := true);
    SessionDownloadFailure(d2, c, e);
    NothingAfter(d2, Locked(d2, c, e).ops, d2.(archive := true));
  }

  /** A session that failed before the download performed no step. */
  lemma SessionEarlyFailure(d: Dir, c: Call, e: Env)
    requires Locked(d, c, e).exit in {Raised(Failure(ConnectFailed)), Raised(Failure(NoVersions))} ||
             Locked(d, c, e).exit.TargetMissing?
    ensures Locked(d, c, e).ops == [] && !Locked(d, c, e).clean
  {
    assert Locked(d, c, e) == Install(d, c, e);
    if e.fault != ConnectFault && !Install(d, c, e).exit.TargetMissing? && Install(d, c, e).exit != Raised(Failure(NoVersions)) {
      InstallTransfers(d, c, e);
    }
  }

  /** Lines 286-303: a failure to connect, an empty server listing and a
      missing target all end the session before anything is downloaded,
      with the lock file left non-empty. */
  lemma EarlyFailureState(d: Dir, c: Call, e: Env)
    requires UpdateOutcome(d, c, e).exit in {Raised(Failure(ConnectFailed)), Raised(Failure(NoVersions))} ||
             UpdateOutcome(d, c, e).exit.TargetMissing?
    ensures Run(d, UpdateOutcome(d, c, e).ops) == d.(isDir := true, lockDirty := true)
  {
    SessionExitTakesLock(d, c, e);
    LockBranch(d, c, e);
    LockBranchRun(d, c, e);
    var d2 := d.(isDir := true, lockDirty := true);
    SessionEarlyFailure(d2, c, e);
    NothingAfter(d2, [], d2);
  }

  /** Lines 325-334: a member is extracted exactly when it is in the
      archive and passes the name tests. */
  lemma {:induction false} SelectedMembers(members: seq<string>, force: bool, useAstronObsTable: bool, m: string)
    ensures m in Selected(members, force, useAstronObsTable) <==> m in members && Extractable(m, force, useAstronObsTable)
    decreases |members|
  {
    if members != [] {
      var init := members[..|members| - 1];
      SelectedMembers(init, force, useAstronObsTable, m);
      assert members == init + [members[|members| - 1]];
    }
  }

  /** The name tests on two members: an ephemeris is always extracted, a
      '.old' name in geodetic never. */
  lemma ExtractionExamples()
    ensures Extractable("ephemerides/DE200", false, false)
    ensures !Extractable("geodetic/TAI_UTC.old", true, true)
  {
    OccurringCharacter("ephemerides/DE200", "geodetic", 0);
    OccurringCharacter("ephemerides/DE200", "Observatories", 0);
    assert OccursAt("geodetic/TAI_UTC.old", "geodetic", 0);
    assert DotOldAt("geodetic/TAI_UTC.old", 16);
  }

  /** The Observatories table is extracted only with both force and
      use_astron_obs_table. */
  lemma ObservatoriesExamples()
    ensures !Extractable("geodetic/Observatories", true, false)
    ensures Extractable("geodetic/Observatories", true, true)
  {
    DotOldNeedsL("geodetic/Observatories");
    var name := "geodetic/" + "Observatories";
    assert name[9..22] == "Observatories";
    assert OccursAt(name, "Observatories", 9) && name == "geodetic/Observatories";
  }

  /** A member that would put geodetic/Observatories in place has
      "Observatories" in its name, at index 9. */
  lemma ObservatoriesPathNamesTable(n: string)
    requires ObservatoriesPath(n)
    ensures Contains(n, "Observatories")
  {
    var p := "geodetic/Observatories";
    assert p[9..22] == "Observatories";
    if n != p {
      assert n[..23] == p + "/";
      assert n[9..22] == n[..23][9..22];
    }
    assert OccursAt(n, "Observatories", 9);
  }

  /** Without both force and use_astron_obs_table (331-333) nothing selected
      puts the Observatories table in place, so extraction leaves the
      directory's Observatories flag as it was. */
  lemma ObservatoriesKeptUnlessAsked(members: seq<string>, force: bool, useAstronObsTable: bool, before: bool)
    requires !(force && useAstronObsTable)
    ensures !ObservatoriesAmong(Selected(members, force, useAstronObsTable))
    ensures TableAfter(before, Selected(members, force, useAstronObsTable)) == before
  {
    var xs := Selected(members, force, useAstronObsTable);
    forall n | n in xs
      ensures !ObservatoriesPath(n)
    {
      SelectedMembers(members, force, useAstronObsTable, n);
      if ObservatoriesPath(n) {
        ObservatoriesPathNamesTable(n);
      }
    }
  }

  /** With force and use_astron_obs_table (327-328) a member of the
      Observatories table that '.old' does not match is extracted, and the
      table is then in place. */
  lemma ObservatoriesExtractedWhenAsked(members: seq<string>, m: string, before: bool)
    requires m in members && ObservatoriesPath(m) && !MatchesDotOld(m)
    ensures ObservatoriesAmong(Selected(members, true, true))
    ensures TableAfter(before, Selected(members, true, true))
  {
    SelectedMembers(members, true, true, m);
  }

  /** The Observatories flag after extracting the selection, by the two
      branches of 327-333. */
  lemma TableAfterExtraction(members: seq<string>, force: bool, useAstronObsTable: bool, before: bool)
    ensures var xs := Selected(members, force, useAstronObsTable);
      (!(force && useAstronObsTable) ==> TableAfter(before, xs) == before) &&
      (force && useAstronObsTable && (exists m :: m in members && ObservatoriesPath(m) && !MatchesDotOld(m)) ==>
         TableAfter(before, xs)) &&
      (force && useAstronObsTable && "geodetic/Observatories" in members ==> TableAfter(before, xs))
  {
    DotOldNeedsL("geodetic/Observatories");
    assert ObservatoriesPath("geodetic/Observatories");
    if !(force && useAstronObsTable) {
      ObservatoriesKeptUnlessAsked(members, force, useAstronObsTable, before);
    } else if m :| m in members && ObservatoriesPath(m) && !MatchesDotOld(m) {
      ObservatoriesExtractedWhenAsked(members, m, before);
    }
  }

  /** Proof helper: the Observatories flag after an install. */
  lemma InstalledTable(d: Dir, c: Call, e: Env)
    requires UpdateOutcome(d, c, e).exit.Installed?
    ensures Run(d, UpdateOutcome(d, c, e).ops).observatories ==
              TableAfter(d.observatories, Selected(e.archiveMembers, c.force, c.useAstronObsTable))
  {
    InstalledState(d, c, e);
  }

  /** After an install the Observatories table is in place exactly as line
      232 will next find it: unchanged unless both force and
      use_astron_obs_table were given, and present when they were and the
      archive holds a member of the table that '.old' does not match. */
  lemma InstalledObservatories(d: Dir, c: Call, e: Env)
    requires UpdateOutcome(d, c, e).exit.Installed?
    ensures !(c.force && c.useAstronObsTable) ==> Run(d, UpdateOutcome(d, c, e).ops).observatories == d.observatories
    ensures c.force && c.useAstronObsTable && (exists m :: m in e.archiveMembers && ObservatoriesPath(m) && !MatchesDotOld(m)) ==>
              Run(d, UpdateOutcome(d, c, e).ops).observatories
    ensures c.force && c.useAstronObsTable && "geodetic/Observatories" in e.archiveMembers ==>
              Run(d, UpdateOutcome(d, c, e).ops).observatories
  {
    InstalledTable(d, c, e);
    TableAfterExtraction(e.archiveMembers, c.force, c.useAstronObsTable, d.observatories);
  }

  /** The extraction list is no longer than the archive's member list. */
  lemma {:induction false} SelectedLength(members: seq<string>, force: bool, useAstronObsTable: bool)
    ensures |Selected(members, force, useAstronObsTable)| <= |members|
    decreases |members|
  {
    if members != [] {
      SelectedLength(members[..|members| - 1], force, useAstronObsTable);
    }
  }

  /** Proof helper: the members after an install. */
  lemma InstalledMembers(d: Dir, c: Call, e: Env)
    requires UpdateOutcome(d, c, e).exit.Installed?
    ensures Run(d, UpdateOutcome(d, c, e).ops).members ==
              d.members + NameSet(Selected(e.archiveMembers, c.force, c.useAstronObsTable))
  {
    InstalledState(d, c, e);
  }

  /** An install adds at most as many names to the directory as the archive
      has members: a member is extracted at most once (338). */
  lemma InstalledMemberBound(d: Dir, c: Call, e: Env)
    requires UpdateOutcome(d, c, e).exit.Installed?
    ensures |Run(d, UpdateOutcome(d, c, e).ops).members| <= |d.members| + |e.archiveMembers|
  {
    var xs := Selected(e.archiveMembers, c.force, c.useAstronObsTable);
    InstalledMembers(d, c, e);
    NameSetSize(xs);
    SelectedLength(e.archiveMembers, c.force, c.useAstronObsTable);
  }

  /** With force (108) an update always happens once the guards, the
      writability check and the lock let it: no readme information is
      consulted, and the call is the install sequence under the lock, with
      the truncation when clean_lock is set. */
  lemma ForceAlwaysInstalls(d: Dir, c: Call, e: Env)
    requires c.force && !c.pathUnset && !c.autoUpdateRules && d.writable && !d.lockDirty
    ensures var s := Install(d.(isDir := true, lockDirty := true), c, e);
      UpdateOutcome(d, c, e) ==
        Outcome(s.exit, CreateOps(d) + [TakeLock] + s.ops + (if s.clean then [TruncateLock] else []))
  {
    LockBranch(d, c, e);
  }

  /** The members a failed extraction leaves are among those the complete
      extraction would add, and so is the Observatories table. */
  lemma PartialWithinSelection(c: Call, e: Env)
    requires e.fault.ExtractFault?
    ensures var xs := Selected(e.archiveMembers, c.force, c.useAstronObsTable);
      NameSet(Partial(c, e)) <= NameSet(xs) && (ObservatoriesAmong(Partial(c, e)) ==> ObservatoriesAmong(xs))
  {
    var xs := Selected(e.archiveMembers, c.force, c.useAstronObsTable);
    var k := Min(e.fault.done, |xs|);
    assert xs == xs[..k] + xs[k..];
    NameSetAppend(xs[..k], xs[k..]);
  }

  /** Because '.old' is a regular expression and is searched anywhere in the
      name, a geodetic member with "old" after its first character is
      skipped as well, whatever its extension. */
  lemma DotOldIsARegex()
    ensures !Extractable("geodetic/Threshold", true, true)
  {
    assert OccursAt("geodetic/Threshold", "geodetic", 0);
    assert DotOldAt("geodetic/Threshold", 14);
  }

  /** Line 296: the download candidates are the server names that pass the
      listing filter and have a positive size. */
  lemma {:induction false} CandidatesMembers(server: seq<Entry>, n: string)
    ensures n in Candidates(server) <==> exists en :: en in server && en.name == n && Downloadable(en)
    decreases |server|
  {
    if server != [] {
      CandidatesMembers(server[1..], n);
      assert forall en :: en in server <==> en == server[0] || en in server[1..];
    }
  }

  /** The readme an install writes reads back as the installed version and
      the date of the install. */
  lemma InstalledReadmeReadsBack(d: Dir, c: Call, e: Env)
    requires UpdateOutcome(d, c, e).exit.Installed?
    requires '\n' !in UpdateOutcome(d, c, e).exit.target && '\n' !in e.today
    ensures var f := Run(d, UpdateOutcome(d, c, e).ops);
      f.readme.Some? && ParseReadme(f.readme.value) == Some((UpdateOutcome(d, c, e).exit.target, e.today))
  {
    InstalledState(d, c, e);
    ReadmeRoundTrip(UpdateOutcome(d, c, e).exit.target, e.today);
  }
}
