/** The managed measures directory: its observable state as a value, the
    filesystem operations measures_update performs on it, and a class whose
    methods perform them in place. */
module Directory {
  import opened Errors

  /** What measures_update can observe of, or change in, the directory. */
  datatype Dir = Dir(
    isDir: bool,             // the path exists as a directory
    owned: bool,             // the directory is owned by the calling user
    writable: bool,          // os.access(path, W_OK | X_OK)
    observatories: bool,     // geodetic/Observatories is a directory
    readme: Option<string>,  // the text of geodetic/readme.txt, if present
    readmeMtime: int,        // modification time of the readme
    lockDirty: bool,         // data_update.lock is non-empty
    archive: bool,           // a measures.ztar is present
    members: set<string>)    // the archive members extracted into the directory

  /** One filesystem step of measures_update. */
  datatype Op =
    | MakeDirs                            // os.makedirs(path)
    | Touch(time: int)                    // os.utime(readme)
    | TakeLock                            // get_data_lock writes its holder info
    | RemoveArchive                       // os.remove(measures.ztar)
    | Download                            // measures.ztar opened and written
    | RemoveReadme                        // os.remove(readme)
    | Extract(names: seq<string>)         // extractall of these members
    | WriteReadme(text: string, time: int)
    | TruncateLock                        // lock_fd.truncate(0)

  /** The names that extracting a member list adds. */
  function NameSet(names: seq<string>): set<string> {
    set n | n in names
  }

  /** Extracting a member list adds at most as many names as the list is long
      (fewer when it names a member twice). */
  lemma {:induction false} NameSetSize(names: seq<string>)
    ensures |NameSet(names)| <= |names|
  {
    if names != [] {
      NameSetSize(names[1..]);
      assert NameSet(names) == {names[0]} + NameSet(names[1..]) by {
        assert names == [names[0]] + names[1..];
      }
    }
  }

  /** Extracting two member lists one after the other adds the same names as
      extracting their concatenation. */
  lemma NameSetAppend(a: seq<string>, b: seq<string>)
    ensures NameSet(a + b) == NameSet(a) + NameSet(b)
  {
  }

  /** An archive member whose extraction makes geodetic/Observatories a
      directory: the directory entry itself or a file below it. */
  predicate ObservatoriesPath(n: string) {
    n == "geodetic/Observatories" || "geodetic/Observatories/" <= n
  }

  /** Extracting the member list puts the Observatories table in place. */
  predicate ObservatoriesAmong(names: seq<string>) {
    exists n :: n in names && ObservatoriesPath(n)
  }

  /** Whether geodetic/Observatories is a directory once `names` are extracted. */
  function TableAfter(before: bool, names: seq<string>): bool {
    before || ObservatoriesAmong(names)
  }

  /** The directory after one step. */
  function Step(d: Dir, op: Op): Dir {
    match op
    case MakeDirs => d.(isDir := true)
    case Touch(t) => d.(readmeMtime := t)
    case TakeLock => d.(lockDirty := true)
    case RemoveArchive => d.(archive := false)
    case Download => d.(archive := true)
    case RemoveReadme => d.(readme := None)
    case Extract(names) =>
      d.(members := d.members + NameSet(names), observatories := TableAfter(d.observatories, names))
    case WriteReadme(text, t) => d.(readme := Some(text), readmeMtime := t)
    case TruncateLock => d.(lockDirty := false)
  }

  /** The directory after a sequence of steps, in order. */
  function Run(d: Dir, ops: seq<Op>): Dir
    decreases |ops|
  {
    if ops == [] then d else Run(Step(d, ops[0]), ops[1..])
  }

  /** Running two sequences one after the other is running their concatenation. */
  lemma {:induction false} RunAppend(d: Dir, a: seq<Op>, b: seq<Op>)
    ensures Run(d, a + b) == Run(Run(d, a), b)
    decreases |a|
  {
    if a == [] {
      assert a + b == b;
    } else {
      assert (a + b)[0] == a[0] && (a + b)[1..] == a[1..] + b;
      RunAppend(Step(d, a[0]), a[1..], b);
    }
  }

  /** Running one more step after a sequence. */
  lemma RunSnoc(d: Dir, ops: seq<Op>, op: Op)
    ensures Run(d, ops + [op]) == Step(Run(d, ops), op)
  {
    RunAppend(d, ops, [op]);
    assert [op][1..] == [];
  }

  /** The steps performed on a directory so far, the latest outermost. */
  datatype Trace = Start | Then(before: Trace, op: Op)

  /** A trace extended by a sequence of steps, in order. */
  function Extend(t: Trace, ops: seq<Op>): Trace
    decreases |ops|
  {
    if ops == [] then t else Extend(Then(t, ops[0]), ops[1..])
  }

  lemma {:induction false} ExtendAppend(t: Trace, a: seq<Op>, b: seq<Op>)
    ensures Extend(t, a + b) == Extend(Extend(t, a), b)
    decreases |a|
  {
    if a == [] {
      assert a + b == b;
    } else {
      assert (a + b)[0] == a[0] && (a + b)[1..] == a[1..] + b;
      ExtendAppend(Then(t, a[0]), a[1..], b);
    }
  }

  /** Performing `op` after `ops` from state `d` with trace `t`. */
  lemma Performed(d: Dir, t: Trace, ops: seq<Op>, op: Op)
    ensures Run(d, ops + [op]) == Step(Run(d, ops), op)
    ensures Extend(t, ops + [op]) == Then(Extend(t, ops), op)
  {
    RunSnoc(d, ops, op);
    ExtendAppend(t, ops, [op]);
    assert [op][1..] == [];
  }

  /** The directory as measures_update changes it in place. `history` records
      every step performed on it. */
  class ManagedDirectory {
    var isDir: bool
    var owned: bool
    var writable: bool
    var observatories: bool
    var readme: Option<string>
    var readmeMtime: int
    var lockDirty: bool
    var archive: bool
    var members: set<string>
    ghost var history: Trace

    function State(): Dir
      reads this
    {
      Dir(isDir, owned, writable, observatories, readme, readmeMtime, lockDirty, archive, members)
    }

    constructor (d: Dir)
      ensures State() == d && history == Start
    {
      isDir, owned, writable, observatories := d.isDir, d.owned, d.writable, d.observatories;
      readme, readmeMtime, lockDirty := d.readme, d.readmeMtime, d.lockDirty;
      archive, members := d.archive, d.members;
      history := Start;
    }

    method MakeDirs()
      modifies this
      ensures State() == Step(old(State()), Op.MakeDirs) && history == Then(old(history), Op.MakeDirs)
    {
      isDir := true;
      history := Then(history, Op.MakeDirs);
    }

    /** os.utime on the readme; fails with `ok == false` when there is none. */
    method Utime(time: int) returns (ok: bool)
      modifies this
      ensures ok == old(readme).Some?
      ensures ok ==> State() == Step(old(State()), Touch(time)) && history == Then(old(history), Touch(time))
      ensures !ok ==> State() == old(State()) && history == old(history)
    {
      ok := readme.Some?;
      if ok {
        readmeMtime := time;
        history := Then(history, Touch(time));
      }
    }

    /** get_data_lock: refuses (BadLock) a non-empty lock file, otherwise
        writes the holder information into it. */
    method AcquireLock() returns (ok: bool)
      modifies this
      ensures ok == !old(lockDirty)
      ensures ok ==> State() == Step(old(State()), TakeLock) && history == Then(old(history), TakeLock)
      ensures !ok ==> State() == old(State()) && history == old(history)
    {
      ok := !lockDirty;
      if ok {
        lockDirty := true;
        history := Then(history, TakeLock);
      }
    }

    method RemoveArchive()
      modifies this
      ensures State() == Step(old(State()), Op.RemoveArchive) && history == Then(old(history), Op.RemoveArchive)
    {
      archive := false;
      history := Then(history, Op.RemoveArchive);
    }

    method OpenArchive()
      modifies this
      ensures State() == Step(old(State()), Download) && history == Then(old(history), Download)
    {
      archive := true;
      history := Then(history, Download);
    }

    method RemoveReadme()
      modifies this
      ensures State() == Step(old(State()), Op.RemoveReadme) && history == Then(old(history), Op.RemoveReadme)
    {
      readme := None;
      history := Then(history, Op.RemoveReadme);
    }

    method ExtractAll(names: seq<string>)
      modifies this
      ensures State() == Step(old(State()), Extract(names)) && history == Then(old(history), Extract(names))
    {
      members := members + NameSet(names);
      observatories := TableAfter(observatories, names);
      history := Then(history, Extract(names));
    }

    method WriteReadme(text: string, time: int)
      modifies this
      ensures State() == Step(old(State()), Op.WriteReadme(text, time))
      ensures history == Then(old(history), Op.WriteReadme(text, time))
    {
      readme, readmeMtime := Some(text), time;
      history := Then(history, Op.WriteReadme(text, time));
    }

    method TruncateLock()
      modifies this
      ensures State() == Step(old(State()), Op.TruncateLock) && history == Then(old(history), Op.TruncateLock)
    {
      lockDirty := false;
      history := Then(history, Op.TruncateLock);
    }
  }
}
