/**
  * Any number of replacements of one file, interleaved step by step, with a power loss
  * possible after every step.
  */
module AtomicReplace {
  import opened Basics
  import opened Storage

  // ---- The protocol ----

  /** Where a call of the replacement stands. `made` is the file it has created, if any. */
  datatype Pc =
    | Start
    | Writing(file: nat, written: nat)
    | Flushed(file: nat)
    | Synced(file: nat)
    | Renamed
    | Cleaning(error: Error, made: Option<nat>)
    | Succeeded
    | Failed(error: Error, left: Option<nat>)  // `left` is its file if the removal failed

  datatype Writer = Writer(tmp: Name, bytes: Bytes, pc: Pc) {
    /** The file it is still going to write, sync or rename. */
    function Owned(): Option<nat> {
      match pc
      case Writing(i, _) => Some(i)
      case Flushed(i) => Some(i)
      case Synced(i) => Some(i)
      case _ => None
    }

    predicate HasReplaced() {
      pc == Renamed || pc == Succeeded
    }
  }

  /** What the operating system does with the next call: it fails, or proceeds; a write takes up to `n` bytes. */
  datatype Os = Proceed(n: nat) | Fail(e: IoError)

  function OpenStep(fs: Fs, w: Writer, os: Os): (Fs, Pc) {
    if w.bytes == [] then (fs, Failed(VaultFormat, None))
    else if os.Fail? then (fs, Cleaning(MapIo(os.e), None))
    else if w.tmp in fs.live then (fs, Cleaning(Error.Storage, None))
    else (fs.Create(w.tmp), Writing(|fs.inodes|, 0))
  }

  function WriteStep(fs: Fs, w: Writer, os: Os): (Fs, Pc)
    requires w.pc.Writing?
  {
    var file, k := w.pc.file, w.pc.written;
    if os.Fail? then (fs, Cleaning(MapIo(os.e), Some(file)))
    else if k >= |w.bytes| || file >= |fs.inodes| then (fs, Flushed(file))
    else
      var m := Min(os.n, |w.bytes| - k);
      (fs.Append(file, w.bytes[k..k + m]), Writing(file, k + m))
  }

  function SyncStep(fs: Fs, w: Writer, os: Os): (Fs, Pc)
    requires w.pc.Flushed?
  {
    if os.Fail? || w.pc.file >= |fs.inodes| then (fs, Cleaning(if os.Fail? then MapIo(os.e) else Error.Storage, Some(w.pc.file)))
    else (fs.Sync(w.pc.file), Synced(w.pc.file))
  }

  function RenameStep(fs: Fs, path: Name, w: Writer, os: Os): (Fs, Pc)
    requires w.pc.Synced?
  {
    if os.Fail? then (fs, Cleaning(MapIo(os.e), Some(w.pc.file)))
    else if w.tmp !in fs.live then (fs, Cleaning(VaultNotFound, Some(w.pc.file)))
    else (fs.Rename(w.tmp, path), Renamed)
  }

  function CleanStep(fs: Fs, w: Writer, os: Os): (Fs, Pc)
    requires w.pc.Cleaning?
  {
    if os.Fail? then (fs, Failed(w.pc.error, w.pc.made))
    else (if w.tmp in fs.live then fs.Remove(w.tmp) else fs, Failed(w.pc.error, None))
  }

  function Step(fs: Fs, path: Name, w: Writer, os: Os): (Fs, Pc) {
    match w.pc
    case Start => OpenStep(fs, w, os)
    case Writing(_, _) => WriteStep(fs, w, os)
    case Flushed(_) => SyncStep(fs, w, os)
    case Synced(_) => RenameStep(fs, path, w, os)
    case Renamed => (if os.Fail? then fs else fs.SyncDirectory(), Succeeded)
    case Cleaning(_, _) => CleanStep(fs, w, os)
    case Succeeded => (fs, w.pc)
    case Failed(_, _) => (fs, w.pc)
  }

  /** The shared file system, the calls, and which of them renamed last. */
  datatype System = System(fs: Fs, writers: seq<Writer>, last: Option<nat>)

  function Act(s: System, path: Name, i: nat, os: Os): System {
    if i >= |s.writers| then s
    else
      var w := s.writers[i];
      var (fs, pc) := Step(s.fs, path, w, os);
      System(fs, s.writers[i := w.(pc := pc)], if pc == Renamed then Some(i) else s.last)
  }

  type Schedule = seq<(nat, Os)>

  function Run(s: System, path: Name, schedule: Schedule): System
    decreases |schedule|
  {
    if schedule == [] then s else Run(Act(s, path, schedule[0].0, schedule[0].1), path, schedule[1..])
  }

  /** The calls before their first step. */
  predicate Initial(s: System) {
    s.last == None && forall i :: 0 <= i < |s.writers| ==> s.writers[i].pc == Start
  }

  // ---- The property ----

  /** The file at the path is the initial one or the whole bytes of the last call that renamed. */
  ghost predicate Intact(start: System, s: System, path: Name) {
    s.fs.Read(path) ==
    match s.last
    case None => start.fs.Read(path)
    case Some(i) => if i < |s.writers| then Some(s.writers[i].bytes) else None
  }

  /** After a power loss the path holds something it could have held initially, or the whole bytes of a call that renamed. */
  ghost predicate CrashSafe(start: System, s: System, path: Name) {
    forall c :: MayHold(s.fs, path, c) ==>
      MayHold(start.fs, path, c) || exists i :: 0 <= i < |s.writers| && s.writers[i].HasReplaced() && c == Some(s.writers[i].bytes)
  }

  /** Three calls with something to write work under one temporary name. */
  predicate Share(ws: seq<Writer>, i: nat, j: nat, k: nat)
    requires i < |ws| && j < |ws| && k < |ws|
  {
    && i != j && j != k && i != k
    && ws[i].tmp == ws[j].tmp == ws[k].tmp
    && ws[i].bytes != [] && ws[j].bytes != [] && ws[k].bytes != []
  }

  /** A fourth call works under the temporary name of `i`. */
  predicate Joins(ws: seq<Writer>, i: nat, j: nat, k: nat, l: nat)
    requires i < |ws| && j < |ws| && k < |ws| && l < |ws|
  {
    l != i && l != j && l != k && ws[l].tmp == ws[i].tmp && ws[l].bytes != []
  }

  /** At most two calls share a temporary name that is free at the start, and at most three one that is taken. */
  ghost predicate Uncrowded(start: System) {
    forall i: nat, j: nat, k: nat ::
      i < |start.writers| && j < |start.writers| && k < |start.writers| && Share(start.writers, i, j, k) ==>
        && start.writers[i].tmp in start.fs.live
        && forall l: nat :: l < |start.writers| ==> !Joins(start.writers, i, j, k, l)
  }

  // ---- The invariant ----

  /** The content of the file a call is working on. */
  ghost predicate FileOk(fs: Fs, w: Writer) {
    match w.pc
    case Writing(f, k) => f < |fs.inodes| && k <= |w.bytes| && fs.inodes[f].data == w.bytes[..k]
    case Flushed(f) => f < |fs.inodes| && fs.inodes[f].data == w.bytes
    case Synced(f) => f < |fs.inodes| && fs.inodes[f] == Inode(w.bytes, true)
    case _ => true
  }

  /** The temporary name of a working call leads to its own file or nowhere, and nowhere only once no later call can create it. */
  ghost predicate LinkOk(s: System, i: nat)
    requires i < |s.writers|
  {
    var w := s.writers[i];
    w.Owned().Some? ==>
      && (w.tmp in s.fs.live ==> s.fs.live[w.tmp] == w.Owned().value)
      && (forall j :: 0 <= j < |s.writers| && j != i && s.writers[j].tmp == w.tmp && s.writers[j].bytes != [] && s.writers[j].pc == Start ==>
            w.tmp in s.fs.live)
  }

  /** Only calls with something to write get to work. */
  ghost predicate BusyOk(s: System) {
    forall i :: 0 <= i < |s.writers| && (s.writers[i].Owned().Some? || s.writers[i].pc.Cleaning?) ==> s.writers[i].bytes != []
  }

  /** A temporary name that was taken at the start leads to the same file until a call has failed under it. */
  ghost predicate LeftoverOk(start: System, s: System, name: Name) {
    name in start.fs.live ==>
      || (name in s.fs.live && s.fs.live[name] == start.fs.live[name])
      || exists r :: 0 <= r < |s.writers| && FailedUnder(s.writers[r], name)
  }

  predicate FailedUnder(w: Writer, name: Name) {
    w.tmp == name && w.bytes != [] && w.pc.Failed?
  }

  /** Files in the making are new, and each belongs to one call. */
  ghost predicate OwnersOk(start: System, s: System) {
    && (forall i :: 0 <= i < |s.writers| && s.writers[i].Owned().Some? ==> |start.fs.inodes| <= s.writers[i].Owned().value < |s.fs.inodes|)
    && (forall i, j :: 0 <= i < j < |s.writers| && s.writers[i].Owned().Some? ==> s.writers[i].Owned() != s.writers[j].Owned())
  }

  ghost predicate OldFilesKept(start: System, s: System) {
    start.fs.inodes <= s.fs.inodes
  }

  ghost predicate Unowned(s: System, file: nat) {
    forall i :: 0 <= i < |s.writers| ==> s.writers[i].Owned() != Some(file)
  }

  ghost predicate InitialTarget(start: System, path: Name, file: nat) {
    file < |start.fs.inodes| && exists v :: v in start.fs.Versions() && path in v && v[path] == file
  }

  ghost predicate NewTarget(s: System, file: nat) {
    file < |s.fs.inodes| && exists i :: 0 <= i < |s.writers| && s.writers[i].HasReplaced() && s.fs.inodes[file] == Inode(s.writers[i].bytes, true)
  }

  ghost predicate InitiallyAbsent(start: System, path: Name) {
    exists v :: v in start.fs.Versions() && path !in v
  }

  /** Where the path leads in one version of the directory. */
  ghost predicate VersionOk(start: System, s: System, path: Name, v: Directory) {
    if path in v then Unowned(s, v[path]) && (InitialTarget(start, path, v[path]) || NewTarget(s, v[path]))
    else InitiallyAbsent(start, path)
  }

  ghost predicate LastOk(start: System, s: System, path: Name) {
    && Intact(start, s, path)
    && (s.last.Some? ==> s.last.value < |s.writers| && s.writers[s.last.value].HasReplaced())
  }

  /** The calls themselves: names and contents do not change. */
  ghost predicate SameCalls(start: System, s: System) {
    && |s.writers| == |start.writers|
    && forall i :: 0 <= i < |s.writers| ==> s.writers[i].tmp == start.writers[i].tmp && s.writers[i].bytes == start.writers[i].bytes
  }

  /** The invariant of the calls at work and of their files. */
  ghost predicate CallsInv(start: System, s: System) {
    && SameCalls(start, s)
    && s.fs.Valid()
    && OldFilesKept(start, s)
    && OwnersOk(start, s)
    && BusyOk(s)
    && (forall i :: 0 <= i < |s.writers| ==> LeftoverOk(start, s, s.writers[i].tmp))
    && (forall i :: 0 <= i < |s.writers| ==> FileOk(s.fs, s.writers[i]) && LinkOk(s, i))
  }

  /** The invariant of the file that is being replaced. */
  ghost predicate TargetInv(start: System, s: System, path: Name) {
    && (forall v :: v in s.fs.Versions() ==> VersionOk(start, s, path, v))
    && LastOk(start, s, path)
  }

  ghost predicate Inv(start: System, s: System, path: Name) {
    CallsInv(start, s) && TargetInv(start, s, path)
  }

  /** What a schedule may start from. */
  ghost predicate GoodStart(start: System, path: Name) {
    && Initial(start)
    && start.fs.Valid()
    && forall i :: 0 <= i < |start.writers| ==> start.writers[i].tmp != path
  }

  lemma StartInv(start: System, path: Name)
    requires GoodStart(start, path)
    ensures Inv(start, start, path)
  {
    forall v | v in start.fs.Versions() ensures VersionOk(start, start, path, v) {
    }
  }

  /** A version stays in order while the file it leads to is neither changed nor claimed. */
  lemma VersionKept(start: System, s: System, s': System, path: Name, v: Directory)
    requires VersionOk(start, s, path, v) && |s'.writers| == |s.writers|
    requires forall j :: 0 <= j < |s.writers| && s.writers[j].HasReplaced() ==>
               s'.writers[j].HasReplaced() && s'.writers[j].bytes == s.writers[j].bytes
    requires path in v && v[path] < |s.fs.inodes| ==> v[path] < |s'.fs.inodes| && s'.fs.inodes[v[path]] == s.fs.inodes[v[path]]
    requires path in v ==> Unowned(s', v[path])
    ensures VersionOk(start, s', path, v)
  {
    if path in v && NewTarget(s, v[path]) {
      var j :| 0 <= j < |s.writers| && s.writers[j].HasReplaced() && s.fs.inodes[v[path]] == Inode(s.writers[j].bytes, true);
      assert s'.writers[j].HasReplaced();
    }
  }

  /** While only files in the making change, and no file is newly claimed, the target stays in order. */
  lemma TargetKept(start: System, s: System, s': System, path: Name)
    requires TargetInv(start, s, path) && SameCalls(s, s') && s'.last == s.last
    requires s'.fs.live == s.fs.live && forall v :: v in s'.fs.Versions() ==> v in s.fs.Versions()
    requires forall j :: 0 <= j < |s.writers| && s.writers[j].HasReplaced() ==> s'.writers[j].HasReplaced()
    requires |s'.fs.inodes| == |s.fs.inodes|
    requires forall f :: 0 <= f < |s.fs.inodes| && Unowned(s, f) ==> s'.fs.inodes[f] == s.fs.inodes[f]
    requires forall j :: 0 <= j < |s.writers| ==> s'.writers[j].Owned() == s.writers[j].Owned() || s'.writers[j].Owned() == None
    ensures TargetInv(start, s', path)
  {
    assert s.fs.live in s.fs.Versions();
    assert VersionOk(start, s, path, s.fs.live);
    forall v | v in s'.fs.Versions() ensures VersionOk(start, s', path, v) {
      assert VersionOk(start, s, path, v);
      VersionKept(start, s, s', path, v);
    }
  }

  lemma LeftoverKept(start: System, s: System, s': System, name: Name)
    requires LeftoverOk(start, s, name) && |s'.writers| == |s.writers|
    requires forall j :: 0 <= j < |s.writers| && s.writers[j].pc.Failed? ==> s'.writers[j] == s.writers[j]
    requires name in start.fs.live && name in s.fs.live && s.fs.live[name] == start.fs.live[name] ==>
               (name in s'.fs.live && s'.fs.live[name] == s.fs.live[name])
               || exists r :: 0 <= r < |s'.writers| && FailedUnder(s'.writers[r], name)
    ensures LeftoverOk(start, s', name)
  {
    if r :| 0 <= r < |s.writers| && FailedUnder(s.writers[r], name) {
      assert FailedUnder(s'.writers[r], name);
    }
  }

  /** A call that gives up, or has nothing left to do, disturbs nobody. */
  lemma GiveUpInv(start: System, s: System, path: Name, i: nat, pc: Pc)
    requires Inv(start, s, path)
    requires i < |s.writers| && !s.writers[i].HasReplaced() && !s.writers[i].pc.Failed?
    requires (pc.Cleaning? && s.writers[i].bytes != []) || pc.Failed?
    ensures Inv(start, s.(writers := s.writers[i := s.writers[i].(pc := pc)]), path)
  {
    GiveUpTarget(start, s, path, i, pc);
    GiveUpCalls(start, s, i, pc);
  }

  lemma GiveUpCalls(start: System, s: System, i: nat, pc: Pc)
    requires CallsInv(start, s)
    requires i < |s.writers| && !s.writers[i].HasReplaced() && !s.writers[i].pc.Failed?
    requires (pc.Cleaning? && s.writers[i].bytes != []) || pc.Failed?
    ensures CallsInv(start, s.(writers := s.writers[i := s.writers[i].(pc := pc)]))
  {
    var s' := s.(writers := s.writers[i := s.writers[i].(pc := pc)]);
    forall k: nat | k < |s.writers| ensures LeftoverOk(start, s', s'.writers[k].tmp) && LinkOk(s', k) {
      assert LinkOk(s, k);
      LeftoverKept(start, s, s', s.writers[k].tmp);
    }
  }

  lemma GiveUpTarget(start: System, s: System, path: Name, i: nat, pc: Pc)
    requires Inv(start, s, path)
    requires i < |s.writers| && !s.writers[i].HasReplaced() && (pc.Cleaning? || pc.Failed?)
    ensures TargetInv(start, s.(writers := s.writers[i := s.writers[i].(pc := pc)]), path)
  {
    TargetKept(start, s, s.(writers := s.writers[i := s.writers[i].(pc := pc)]), path);
  }

  lemma VersionsAfterReplace(fs: Fs, d: Directory)
    ensures forall v :: v in fs.Replace(d).Versions() ==> v in fs.Versions() || v == d
  {
    assert fs.Replace(d).Versions() == fs.Versions() + [d];
  }

  /** Call `i` has created its file. */
  function Made(s: System, i: nat): System
    requires i < |s.writers|
  {
    s.(fs := s.fs.Create(s.writers[i].tmp), writers := s.writers[i := s.writers[i].(pc := Writing(|s.fs.inodes|, 0))])
  }

  lemma CreateCalls(start: System, s: System, path: Name, i: nat)
    requires GoodStart(start, path) && CallsInv(start, s)
    requires i < |s.writers| && s.writers[i].pc == Start && s.writers[i].bytes != [] && s.writers[i].tmp !in s.fs.live
    ensures CallsInv(start, Made(s, i))
  {
    var tmp, s' := s.writers[i].tmp, Made(s, i);
    var grown := s.fs.(inodes := s.fs.inodes + [Inode([], false)]);
    LiveInRange(s.fs);
    ReplaceIsValid(grown, s.fs.live[tmp := |s.fs.inodes|]);
    forall k: nat | k < |s.writers| ensures FileOk(s'.fs, s'.writers[k]) && LinkOk(s', k) && LeftoverOk(start, s', s'.writers[k].tmp) {
      assert FileOk(s.fs, s.writers[k]) && LinkOk(s, k);
      LeftoverKept(start, s, s', s.writers[k].tmp);
    }
  }

  lemma CreateTarget(start: System, s: System, path: Name, i: nat)
    requires GoodStart(start, path) && Inv(start, s, path)
    requires i < |s.writers| && s.writers[i].pc == Start && s.writers[i].tmp !in s.fs.live
    ensures TargetInv(start, Made(s, i), path)
  {
    var tmp, s' := s.writers[i].tmp, Made(s, i);
    var grown := s.fs.(inodes := s.fs.inodes + [Inode([], false)]);
    VersionsAfterReplace(grown, s.fs.live[tmp := |s.fs.inodes|]);
    LiveInRange(s.fs);
    assert tmp == start.writers[i].tmp;
    assert s.fs.live in s.fs.Versions();
    forall v | v in s'.fs.Versions() ensures VersionOk(start, s', path, v) {
      if v in s.fs.Versions() {
        VersionAfterCreate(start, s, path, i, v);
      } else {
        assert v == s.fs.live[tmp := |s.fs.inodes|];
        VersionAfterCreate(start, s, path, i, s.fs.live);
      }
    }
  }

  lemma VersionAfterCreate(start: System, s: System, path: Name, i: nat, v: Directory)
    requires Inv(start, s, path) && v in s.fs.Versions()
    requires i < |s.writers| && s.writers[i].pc == Start
    ensures VersionOk(start, Made(s, i), path, v)
  {
    assert VersionOk(start, s, path, v);
    VersionKept(start, s, Made(s, i), path, v);
  }

  lemma OpenInv(start: System, s: System, path: Name, i: nat, os: Os)
    requires GoodStart(start, path) && Inv(start, s, path)
    requires i < |s.writers| && s.writers[i].pc == Start
    ensures Inv(start, Act(s, path, i, os), path)
  {
    var w := s.writers[i];
    var (fs, pc) := OpenStep(s.fs, w, os);
    if pc.Writing? {
      CreateCalls(start, s, path, i);
      CreateTarget(start, s, path, i);
    } else {
      GiveUpInv(start, s, path, i, pc);
    }
  }

  /** Call `i` has written `m` more bytes to its file. */
  function Appended(s: System, i: nat, m: nat): System
    requires i < |s.writers| && s.writers[i].pc.Writing? && s.writers[i].pc.file < |s.fs.inodes|
    requires s.writers[i].pc.written + m <= |s.writers[i].bytes|
  {
    var w := s.writers[i];
    var (file, k) := (w.pc.file, w.pc.written);
    s.(fs := s.fs.Append(file, w.bytes[k..k + m]), writers := s.writers[i := w.(pc := Writing(file, k + m))])
  }

  lemma AppendCalls(start: System, s: System, i: nat, m: nat)
    requires CallsInv(start, s)
    requires i < |s.writers| && s.writers[i].pc.Writing? && s.writers[i].pc.file < |s.fs.inodes|
    requires s.writers[i].pc.written + m <= |s.writers[i].bytes|
    ensures CallsInv(start, Appended(s, i, m))
  {
    var w := s.writers[i];
    var k := w.pc.written;
    var s' := Appended(s, i, m);
    assert w.Owned() == Some(w.pc.file);
    assert w.bytes[..k] + w.bytes[k..k + m] == w.bytes[..k + m];
    assert s'.fs.Versions() == s.fs.Versions();
    forall j | 0 <= j < |s.writers| ensures FileOk(s'.fs, s'.writers[j]) && LinkOk(s', j) {
      assert FileOk(s.fs, s.writers[j]) && LinkOk(s, j);
    }
  }

  lemma AppendTarget(start: System, s: System, path: Name, i: nat, m: nat)
    requires Inv(start, s, path)
    requires i < |s.writers| && s.writers[i].pc.Writing? && s.writers[i].pc.file < |s.fs.inodes|
    requires s.writers[i].pc.written + m <= |s.writers[i].bytes|
    ensures TargetInv(start, Appended(s, i, m), path)
  {
    assert s.writers[i].Owned() == Some(s.writers[i].pc.file);
    TargetKept(start, s, Appended(s, i, m), path);
  }

  lemma AppendInv(start: System, s: System, path: Name, i: nat, m: nat)
    requires Inv(start, s, path)
    requires i < |s.writers| && s.writers[i].pc.Writing? && s.writers[i].pc.file < |s.fs.inodes|
    requires s.writers[i].pc.written + m <= |s.writers[i].bytes|
    ensures Inv(start, Appended(s, i, m), path)
  {
    AppendCalls(start, s, i, m);
    AppendTarget(start, s, path, i, m);
  }

  /** Moving on with the same file, once it is as the next phase wants it. */
  lemma AdvanceCalls(start: System, s: System, i: nat, pc: Pc)
    requires CallsInv(start, s)
    requires i < |s.writers| && s.writers[i].Owned().Some?
    requires s.writers[i].(pc := pc).Owned() == s.writers[i].Owned() && FileOk(s.fs, s.writers[i].(pc := pc))
    ensures CallsInv(start, s.(writers := s.writers[i := s.writers[i].(pc := pc)]))
  {
    var s' := s.(writers := s.writers[i := s.writers[i].(pc := pc)]);
    forall j: nat | j < |s.writers| ensures LinkOk(s', j) && LeftoverOk(start, s', s'.writers[j].tmp) {
      assert LinkOk(s, j);
      LeftoverKept(start, s, s', s.writers[j].tmp);
    }
  }

  /** Everything has been written. */
  lemma FlushInv(start: System, s: System, path: Name, i: nat)
    requires Inv(start, s, path)
    requires i < |s.writers| && s.writers[i].pc.Writing? && s.writers[i].pc.written >= |s.writers[i].bytes|
    ensures Inv(start, s.(writers := s.writers[i := s.writers[i].(pc := Flushed(s.writers[i].pc.file))]), path)
  {
    var w := s.writers[i];
    var pc := Flushed(w.pc.file);
    assert FileOk(s.fs, w);
    assert w.bytes[..w.pc.written] == w.bytes;
    AdvanceCalls(start, s, i, pc);
    TargetKept(start, s, s.(writers := s.writers[i := w.(pc := pc)]), path);
  }

  lemma WriteFails(start: System, s: System, path: Name, i: nat, os: Os)
    requires Inv(start, s, path)
    requires i < |s.writers| && s.writers[i].pc.Writing? && os.Fail?
    ensures Inv(start, Act(s, path, i, os), path)
  {
    var pc := Cleaning(MapIo(os.e), Some(s.writers[i].pc.file));
    assert s.writers[i].Owned().Some?;
    assert s.writers[i].bytes != [];
    assert Act(s, path, i, os) == s.(writers := s.writers[i := s.writers[i].(pc := pc)]);
    GiveUpInv(start, s, path, i, pc);
  }

  lemma WriteGoesOn(start: System, s: System, path: Name, i: nat, os: Os)
    requires Inv(start, s, path)
    requires i < |s.writers| && s.writers[i].pc.Writing? && s.writers[i].pc.file < |s.fs.inodes|
    requires !os.Fail? && s.writers[i].pc.written < |s.writers[i].bytes|
    ensures Inv(start, Act(s, path, i, os), path)
  {
    var m := Min(os.n, |s.writers[i].bytes| - s.writers[i].pc.written);
    assert Act(s, path, i, os) == Appended(s, i, m);
    AppendInv(start, s, path, i, m);
  }

  lemma WriteEnds(start: System, s: System, path: Name, i: nat, os: Os)
    requires Inv(start, s, path)
    requires i < |s.writers| && s.writers[i].pc.Writing? && s.writers[i].pc.file < |s.fs.inodes|
    requires !os.Fail? && s.writers[i].pc.written >= |s.writers[i].bytes|
    ensures Inv(start, Act(s, path, i, os), path)
  {
    assert Act(s, path, i, os) == s.(writers := s.writers[i := s.writers[i].(pc := Flushed(s.writers[i].pc.file))]);
    FlushInv(start, s, path, i);
  }

  lemma WriteInv(start: System, s: System, path: Name, i: nat, os: Os)
    requires Inv(start, s, path)
    requires i < |s.writers| && s.writers[i].pc.Writing?
    ensures Inv(start, Act(s, path, i, os), path)
  {
    assert FileOk(s.fs, s.writers[i]);
    if os.Fail? {
      WriteFails(start, s, path, i, os);
    } else if s.writers[i].pc.written < |s.writers[i].bytes| {
      WriteGoesOn(start, s, path, i, os);
    } else {
      WriteEnds(start, s, path, i, os);
    }
  }

  /** Syncing a file in the making changes nothing that anyone reads. */
  lemma SyncFile(start: System, s: System, path: Name, file: nat, i: nat)
    requires Inv(start, s, path)
    requires i < |s.writers| && s.writers[i].pc == Flushed(file) && file < |s.fs.inodes|
    ensures Inv(start, s.(fs := s.fs.Sync(file)), path)
  {
    var s' := s.(fs := s.fs.Sync(file));
    assert s.writers[i].Owned() == Some(file);
    assert s'.fs.Versions() == s.fs.Versions();
    TargetKept(start, s, s', path);
    forall j | 0 <= j < |s.writers| ensures FileOk(s'.fs, s'.writers[j]) && LinkOk(s', j) {
      assert FileOk(s.fs, s.writers[j]) && LinkOk(s, j);
    }
  }

  lemma SyncInv(start: System, s: System, path: Name, i: nat, os: Os)
    requires Inv(start, s, path)
    requires i < |s.writers| && s.writers[i].pc.Flushed?
    ensures Inv(start, Act(s, path, i, os), path)
  {
    var w := s.writers[i];
    var (fs, pc) := SyncStep(s.fs, w, os);
    assert FileOk(s.fs, w);
    if pc.Cleaning? {
      GiveUpInv(start, s, path, i, pc);
    } else {
      SyncFile(start, s, path, w.pc.file, i);
      var s1 := s.(fs := fs);
      AdvanceCalls(start, s1, i, pc);
      TargetKept(start, s1, s1.(writers := s.writers[i := w.(pc := pc)]), path);
    }
  }

  /** While two calls are busy under one name, one of them with a file, no other call is still going to create it. */
  lemma OnlyPair(start: System, s: System, i: nat, k: nat)
    requires start.fs.Valid() && Uncrowded(start) && CallsInv(start, s)
    requires i < |s.writers| && k < |s.writers| && i != k && s.writers[i].tmp == s.writers[k].tmp
    requires s.writers[k].Owned().Some? && (s.writers[i].Owned().Some? || s.writers[i].pc.Cleaning?)
    ensures forall j :: 0 <= j < |s.writers| && s.writers[j].tmp == s.writers[i].tmp && s.writers[j].bytes != [] ==> s.writers[j].pc != Start
  {
    var ws, name := start.writers, s.writers[i].tmp;
    forall j: nat | j < |ws| && s.writers[j].tmp == name && s.writers[j].bytes != [] ensures s.writers[j].pc != Start {
      if j != i && j != k {
        assert Share(ws, i, j, k);
        LiveInRange(start.fs);
        assert LinkOk(s, k) && LeftoverOk(start, s, name);
        var r: nat :| r < |s.writers| && FailedUnder(s.writers[r], name);
        assert r != j ==> Joins(ws, i, j, k, r);
      }
    }
  }

  /** Call `i` has renamed its file. */
  function Moved(s: System, path: Name, i: nat): System
    requires i < |s.writers| && s.writers[i].tmp in s.fs.live
  {
    System(s.fs.Rename(s.writers[i].tmp, path), s.writers[i := s.writers[i].(pc := Renamed)], Some(i))
  }

  lemma MoveCalls(start: System, s: System, path: Name, i: nat)
    requires GoodStart(start, path) && Uncrowded(start) && CallsInv(start, s)
    requires i < |s.writers| && s.writers[i].pc.Synced? && s.writers[i].tmp in s.fs.live
    ensures CallsInv(start, Moved(s, path, i))
  {
    var tmp := s.writers[i].tmp;
    var d := (s.fs.live - {tmp})[path := s.fs.live[tmp]];
    var s' := Moved(s, path, i);
    LiveInRange(s.fs);
    ReplaceIsValid(s.fs, d);
    forall k: nat | k < |s.writers| ensures LinkOk(s', k) {
      MovedLink(start, s, path, i, k);
    }
    forall k: nat | k < |s.writers| ensures LeftoverOk(start, s', s'.writers[k].tmp) {
      MovedLeftover(start, s, path, i, k);
    }
  }

  lemma MovedLink(start: System, s: System, path: Name, i: nat, k: nat)
    requires GoodStart(start, path) && Uncrowded(start) && CallsInv(start, s)
    requires i < |s.writers| && s.writers[i].pc.Synced? && s.writers[i].tmp in s.fs.live && k < |s.writers|
    ensures LinkOk(Moved(s, path, i), k)
  {
    assert LinkOk(s, k);
    assert s.writers[k].tmp == start.writers[k].tmp != path;
    if k != i && s.writers[k].Owned().Some? && s.writers[k].tmp == s.writers[i].tmp {
      OnlyPair(start, s, i, k);
    }
  }

  lemma MovedLeftover(start: System, s: System, path: Name, i: nat, k: nat)
    requires GoodStart(start, path) && CallsInv(start, s)
    requires i < |s.writers| && s.writers[i].pc.Synced? && s.writers[i].tmp in s.fs.live && k < |s.writers|
    ensures LeftoverOk(start, Moved(s, path, i), s.writers[k].tmp)
  {
    LiveInRange(start.fs);
    assert LinkOk(s, i) && s.writers[k].tmp == start.writers[k].tmp != path;
    LeftoverKept(start, s, Moved(s, path, i), s.writers[k].tmp);
  }

  lemma MoveTarget(start: System, s: System, path: Name, i: nat)
    requires GoodStart(start, path) && Inv(start, s, path)
    requires i < |s.writers| && s.writers[i].pc.Synced? && s.writers[i].tmp in s.fs.live
    ensures TargetInv(start, Moved(s, path, i), path)
  {
    var w, file := s.writers[i], s.writers[i].pc.file;
    var d := (s.fs.live - {w.tmp})[path := s.fs.live[w.tmp]];
    var s' := Moved(s, path, i);
    assert LinkOk(s, i) && FileOk(s.fs, w) && w.Owned() == Some(file);
    VersionsAfterReplace(s.fs, d);
    forall v | v in s'.fs.Versions() ensures VersionOk(start, s', path, v) {
      if v in s.fs.Versions() {
        assert VersionOk(start, s, path, v);
        VersionKept(start, s, s', path, v);
      } else {
        assert s'.writers[i].HasReplaced() && s'.fs.inodes[file] == Inode(s'.writers[i].bytes, true);
      }
    }
  }

  lemma RenameInv(start: System, s: System, path: Name, i: nat, os: Os)
    requires GoodStart(start, path) && Uncrowded(start) && Inv(start, s, path)
    requires i < |s.writers| && s.writers[i].pc.Synced?
    ensures Inv(start, Act(s, path, i, os), path)
  {
    var (fs, pc) := RenameStep(s.fs, path, s.writers[i], os);
    if pc.Renamed? {
      MoveCalls(start, s, path, i);
      MoveTarget(start, s, path, i);
    } else {
      GiveUpInv(start, s, path, i, pc);
    }
  }

  /** Call `i` has removed the file under its name, whosever it is. */
  function Removed(s: System, i: nat): System
    requires i < |s.writers| && s.writers[i].pc.Cleaning?
  {
    s.(fs := s.fs.Remove(s.writers[i].tmp), writers := s.writers[i := s.writers[i].(pc := Failed(s.writers[i].pc.error, None))])
  }

  lemma RemoveCalls(start: System, s: System, path: Name, i: nat)
    requires GoodStart(start, path) && Uncrowded(start) && CallsInv(start, s)
    requires i < |s.writers| && s.writers[i].pc.Cleaning?
    ensures CallsInv(start, Removed(s, i))
  {
    var tmp, s' := s.writers[i].tmp, Removed(s, i);
    LiveInRange(s.fs);
    ReplaceIsValid(s.fs, s.fs.live - {tmp});
    forall k: nat | k < |s.writers| ensures LinkOk(s', k) {
      RemovedLink(start, s, i, k);
    }
    assert FailedUnder(s'.writers[i], tmp);
    forall k: nat | k < |s.writers| ensures LeftoverOk(start, s', s'.writers[k].tmp) {
      LeftoverKept(start, s, s', s.writers[k].tmp);
    }
  }

  lemma RemovedLink(start: System, s: System, i: nat, k: nat)
    requires start.fs.Valid() && Uncrowded(start) && CallsInv(start, s)
    requires i < |s.writers| && s.writers[i].pc.Cleaning? && k < |s.writers|
    ensures LinkOk(Removed(s, i), k)
  {
    assert LinkOk(s, k);
    if s.writers[k].Owned().Some? && s.writers[k].tmp == s.writers[i].tmp {
      OnlyPair(start, s, i, k);
    }
  }

  lemma RemoveTarget(start: System, s: System, path: Name, i: nat)
    requires GoodStart(start, path) && Inv(start, s, path)
    requires i < |s.writers| && s.writers[i].pc.Cleaning?
    ensures TargetInv(start, Removed(s, i), path)
  {
    var tmp, s' := s.writers[i].tmp, Removed(s, i);
    VersionsAfterReplace(s.fs, s.fs.live - {tmp});
    assert tmp == start.writers[i].tmp;
    assert s.fs.live in s.fs.Versions();
    assert VersionOk(start, s, path, s.fs.live);
    forall v | v in s'.fs.Versions() ensures VersionOk(start, s', path, v) {
      if v in s.fs.Versions() {
        VersionKept(start, s, s', path, v);
      } else {
        VersionKept(start, s, s', path, s.fs.live);
      }
    }
  }

  lemma CleanInv(start: System, s: System, path: Name, i: nat, os: Os)
    requires GoodStart(start, path) && Uncrowded(start) && Inv(start, s, path)
    requires i < |s.writers| && s.writers[i].pc.Cleaning?
    ensures Inv(start, Act(s, path, i, os), path)
  {
    var (fs, pc) := CleanStep(s.fs, s.writers[i], os);
    if os.Fail? || s.writers[i].tmp !in s.fs.live {
      GiveUpInv(start, s, path, i, pc);
    } else {
      RemoveCalls(start, s, path, i);
      RemoveTarget(start, s, path, i);
    }
  }

  lemma FinishCalls(start: System, s: System, path: Name, i: nat, os: Os)
    requires CallsInv(start, s)
    requires i < |s.writers| && s.writers[i].pc.Renamed?
    ensures CallsInv(start, Act(s, path, i, os))
  {
    var s' := Act(s, path, i, os);
    assert s.fs.live in s.fs.Versions();
    forall j: nat | j < |s.writers| ensures LinkOk(s', j) && LeftoverOk(start, s', s'.writers[j].tmp) {
      assert LinkOk(s, j);
      LeftoverKept(start, s, s', s.writers[j].tmp);
    }
  }

  lemma FinishInv(start: System, s: System, path: Name, i: nat, os: Os)
    requires Inv(start, s, path)
    requires i < |s.writers| && s.writers[i].pc.Renamed?
    ensures Inv(start, Act(s, path, i, os), path)
  {
    var s' := Act(s, path, i, os);
    FinishCalls(start, s, path, i, os);
    assert s.fs.live in s.fs.Versions();
    assert forall v :: v in s'.fs.Versions() ==> v in s.fs.Versions();
    TargetKept(start, s, s', path);
  }

  lemma ActInv(start: System, s: System, path: Name, i: nat, os: Os)
    requires GoodStart(start, path) && Uncrowded(start) && Inv(start, s, path)
    ensures Inv(start, Act(s, path, i, os), path)
  {
    if i < |s.writers| {
      match s.writers[i].pc
      case Start => OpenInv(start, s, path, i, os);
      case Writing(_, _) => WriteInv(start, s, path, i, os);
      case Flushed(_) => SyncInv(start, s, path, i, os);
      case Synced(_) => RenameInv(start, s, path, i, os);
      case Renamed => FinishInv(start, s, path, i, os);
      case Cleaning(_, _) => CleanInv(start, s, path, i, os);
      case _ => assert s.writers[i := s.writers[i]] == s.writers;
    }
  }

  lemma {:induction false} RunInv(start: System, s: System, path: Name, schedule: Schedule)
    requires GoodStart(start, path) && Uncrowded(start) && Inv(start, s, path)
    ensures Inv(start, Run(s, path, schedule), path)
    decreases |schedule|
  {
    if schedule != [] {
      ActInv(start, s, path, schedule[0].0, schedule[0].1);
      RunInv(start, Act(s, path, schedule[0].0, schedule[0].1), path, schedule[1..]);
    }
  }

  // ---- Safety of every interleaving ----

  lemma InvIsCrashSafe(start: System, s: System, path: Name)
    requires Inv(start, s, path)
    ensures CrashSafe(start, s, path)
  {
    forall c | MayHold(s.fs, path, c)
      ensures MayHold(start.fs, path, c) || exists i :: 0 <= i < |s.writers| && s.writers[i].HasReplaced() && c == Some(s.writers[i].bytes)
    {
      var v :| v in s.fs.Versions() && HeldIn(s.fs, v, path, c);
      assert VersionOk(start, s, path, v);
      if path in v {
        if InitialTarget(start, path, v[path]) {
          var v0 :| v0 in start.fs.Versions() && path in v0 && v0[path] == v[path];
          assert HeldIn(start.fs, v0, path, c);
        }
      } else {
        var v0 :| v0 in start.fs.Versions() && path !in v0;
        assert HeldIn(start.fs, v0, path, c);
      }
    }
  }

  /**
    * While no temporary name is crowded, every interleaving keeps the file whole:
    * running programs see the initial file or the bytes of the last call that renamed, and a
    * power loss at any point leaves what it could have left initially or such bytes.
    */
  lemma EveryRunIsSafe(start: System, path: Name, schedule: Schedule)
    requires GoodStart(start, path) && Uncrowded(start)
    ensures var s := Run(start, path, schedule); Intact(start, s, path) && CrashSafe(start, s, path)
  {
    StartInv(start, path);
    RunInv(start, start, path, schedule);
    InvIsCrashSafe(start, Run(start, path, schedule), path);
  }

  lemma {:induction false} ReplacedStays(s: System, path: Name, schedule: Schedule, i: nat)
    requires i < |s.writers| && s.writers[i].HasReplaced()
    ensures i < |Run(s, path, schedule).writers| && Run(s, path, schedule).writers[i].HasReplaced()
    decreases |schedule|
  {
    if schedule != [] {
      ReplacedStays(Act(s, path, schedule[0].0, schedule[0].1), path, schedule[1..], i);
    }
  }

  /** A call that ends with an error was never the one whose bytes are in place. */
  lemma FailedNeverReplaced(start: System, path: Name, before: Schedule, after: Schedule, i: nat)
    requires GoodStart(start, path) && Uncrowded(start)
    requires i < |start.writers|
    requires var s := Run(Run(start, path, before), path, after); i < |s.writers| && s.writers[i].pc.Failed?
    ensures Run(start, path, before).last != Some(i)
  {
    StartInv(start, path);
    RunInv(start, start, path, before);
    if Run(start, path, before).last == Some(i) {
      ReplacedStays(Run(start, path, before), path, after, i);
    }
  }

  /** The call is at work on this file, or could not remove it. */
  ghost predicate Holds(w: Writer, file: nat) {
    match w.pc
    case Cleaning(_, made) => made == Some(file)
    case Failed(_, left) => left == Some(file)
    case _ => w.Owned() == Some(file)
  }

  ghost predicate NoLitter(start: System, s: System, path: Name) {
    forall n :: n in s.fs.live && n != path && s.fs.live[n] >= |start.fs.inodes| ==>
      exists i :: 0 <= i < |s.writers| && s.writers[i].tmp == n && Holds(s.writers[i], s.fs.live[n])
  }

  lemma ActNoLitter(start: System, s: System, path: Name, i: nat, os: Os)
    requires NoLitter(start, s, path)
    ensures NoLitter(start, Act(s, path, i, os), path)
  {
    var s' := Act(s, path, i, os);
    if i < |s.writers| {
      var w := s.writers[i];
      forall n | n in s'.fs.live && n != path && s'.fs.live[n] >= |start.fs.inodes|
        ensures exists j :: 0 <= j < |s'.writers| && s'.writers[j].tmp == n && Holds(s'.writers[j], s'.fs.live[n])
      {
        if n in s.fs.live && s.fs.live[n] == s'.fs.live[n] {
          var j :| 0 <= j < |s.writers| && s.writers[j].tmp == n && Holds(s.writers[j], s.fs.live[n]);
          assert s'.writers[j].tmp == n && Holds(s'.writers[j], s'.fs.live[n]);
        } else {
          assert s'.writers[i].tmp == n && Holds(s'.writers[i], s'.fs.live[n]);
        }
      }
    }
  }

  lemma {:induction false} RunNoLitter(start: System, s: System, path: Name, schedule: Schedule)
    requires NoLitter(start, s, path)
    ensures NoLitter(start, Run(s, path, schedule), path)
    decreases |schedule|
  {
    if schedule != [] {
      ActNoLitter(start, s, path, schedule[0].0, schedule[0].1);
      RunNoLitter(start, Act(s, path, schedule[0].0, schedule[0].1), path, schedule[1..]);
    }
  }

  /** A temporary file in the directory belongs to a call that is still at work or whose own removal failed. */
  lemma NothingIsLeftBehind(start: System, path: Name, schedule: Schedule)
    requires GoodStart(start, path)
    ensures NoLitter(start, Run(start, path, schedule), path)
  {
    LiveInRange(start.fs);
    RunNoLitter(start, start, path, schedule);
  }

  // ---- Three calls under one name ----

  lemma {:induction false} RunAppend(s: System, path: Name, a: Schedule, b: Schedule)
    ensures Run(s, path, a + b) == Run(Run(s, path, a), path, b)
    decreases |a|
  {
    if a == [] {
      assert a + b == b;
    } else {
      assert (a + b)[1..] == a[1..] + b;
      RunAppend(Act(s, path, a[0].0, a[0].1), path, a[1..], b);
    }
  }

  lemma RunOne(s: System, path: Name, i: nat, os: Os)
    ensures Run(s, path, [(i, os)]) == Act(s, path, i, os)
  {
    var t := Act(s, path, i, os);
    assert [(i, os)][1..] == [];
    assert Run(t, path, []) == t;
  }

  /** The first call on its own, up to the point where only the rename is left. */
  lemma ReadyToRename(s: System, path: Name, i: nat) returns (schedule: Schedule)
    requires i < |s.writers| && s.writers[i].pc == Start && s.writers[i].bytes != [] && s.writers[i].tmp !in s.fs.live
    ensures var w := s.writers[i];
            var t := Run(s, path, schedule);
            && t.writers == s.writers[i := w.(pc := Synced(|s.fs.inodes|))]
            && t.fs.live == s.fs.live[w.tmp := |s.fs.inodes|]
            && t.fs.inodes == s.fs.inodes + [Inode(w.bytes, true)]
  {
    var w := s.writers[i];
    var n := |w.bytes|;
    var s1 := Act(s, path, i, Proceed(0));
    var s2 := Act(s1, path, i, Proceed(n));
    var s3 := Act(s2, path, i, Proceed(0));
    var s4 := Act(s3, path, i, Proceed(0));
    assert w.bytes[0..n] == w.bytes && [] + w.bytes == w.bytes;
    schedule := [(i, Proceed(0))] + [(i, Proceed(n))] + [(i, Proceed(0))] + [(i, Proceed(0))];
    RunOne(s, path, i, Proceed(0));
    RunOne(s1, path, i, Proceed(n));
    RunOne(s2, path, i, Proceed(0));
    RunOne(s3, path, i, Proceed(0));
    RunAppend(s, path, [(i, Proceed(0))], [(i, Proceed(n))]);
    RunAppend(s, path, [(i, Proceed(0))] + [(i, Proceed(n))], [(i, Proceed(0))]);
    RunAppend(s, path, [(i, Proceed(0))] + [(i, Proceed(n))] + [(i, Proceed(0))], [(i, Proceed(0))]);
  }

  /**
    * Three calls under one free name: the second fails to create the file and removes the first
    * one's, the third creates it anew, and the first renames what the third has only begun.
    */
  lemma ThreeCanTear(start: System, path: Name, i: nat, j: nat, k: nat) returns (schedule: Schedule)
    requires i < |start.writers| && j < |start.writers| && k < |start.writers| && Share(start.writers, i, j, k)
    requires start.writers[i].pc == Start && start.writers[j].pc == Start && start.writers[k].pc == Start
    requires start.writers[i].tmp != path && start.writers[i].tmp !in start.fs.live
    ensures var s := Run(start, path, schedule); s.fs.Read(path) == Some([]) && s.last == Some(i)
    ensures |Run(start, path, schedule).writers| == |start.writers|
    ensures Run(start, path, schedule).writers[i].bytes == start.writers[i].bytes
  {
    var ready := ReadyToRename(start, path, i);
    var s := Run(start, path, ready);
    var s1 := Act(s, path, j, Proceed(0));
    var s2 := Act(s1, path, j, Proceed(0));
    var s3 := Act(s2, path, k, Proceed(0));
    var s4 := Act(s3, path, i, Proceed(0));
    RunOne(s, path, j, Proceed(0));
    RunOne(s1, path, j, Proceed(0));
    RunOne(s2, path, k, Proceed(0));
    RunOne(s3, path, i, Proceed(0));
    RunAppend(start, path, ready, [(j, Proceed(0))]);
    RunAppend(start, path, ready + [(j, Proceed(0))], [(j, Proceed(0))]);
    RunAppend(start, path, ready + [(j, Proceed(0))] + [(j, Proceed(0))], [(k, Proceed(0))]);
    RunAppend(start, path, ready + [(j, Proceed(0))] + [(j, Proceed(0))] + [(k, Proceed(0))], [(i, Proceed(0))]);
    schedule := ready + [(j, Proceed(0))] + [(j, Proceed(0))] + [(k, Proceed(0))] + [(i, Proceed(0))];
    assert s4.fs.Read(path) == Some([]);
  }

  /** A fourth call under a taken name first fails on it and removes it. */
  lemma FourCanTear(start: System, path: Name, i: nat, j: nat, k: nat, l: nat) returns (schedule: Schedule)
    requires GoodStart(start, path)
    requires i < |start.writers| && j < |start.writers| && k < |start.writers| && l < |start.writers|
    requires Share(start.writers, i, j, k) && Joins(start.writers, i, j, k, l) && start.writers[i].tmp in start.fs.live
    ensures !Intact(start, Run(start, path, schedule), path)
  {
    var s1 := Act(start, path, l, Proceed(0));
    var s2 := Act(s1, path, l, Proceed(0));
    assert s2.writers[i] == start.writers[i] && s2.writers[j] == start.writers[j] && s2.writers[k] == start.writers[k];
    var torn := ThreeCanTear(s2, path, i, j, k);
    RunOne(start, path, l, Proceed(0));
    RunOne(s1, path, l, Proceed(0));
    RunAppend(start, path, [(l, Proceed(0))], [(l, Proceed(0))]);
    schedule := [(l, Proceed(0))] + [(l, Proceed(0))];
    RunAppend(start, path, schedule, torn);
    schedule := schedule + torn;
  }

  /**
    * The file stays whole under every interleaving exactly when at most two calls share a
    * temporary name that is free at the start and at most three one that is taken; and exactly
    * then a power loss leaves it whole as well.
    */
  lemma IntactExactlyWhen(start: System, path: Name)
    requires GoodStart(start, path)
    ensures (forall schedule :: Intact(start, Run(start, path, schedule), path)) <==> Uncrowded(start)
    ensures (forall schedule :: Intact(start, Run(start, path, schedule), path) && CrashSafe(start, Run(start, path, schedule), path))
            <==> Uncrowded(start)
  {
    if Uncrowded(start) {
      forall schedule ensures Intact(start, Run(start, path, schedule), path) && CrashSafe(start, Run(start, path, schedule), path) {
        EveryRunIsSafe(start, path, schedule);
      }
    } else {
      var i: nat, j: nat, k: nat :| i < |start.writers| && j < |start.writers| && k < |start.writers| && Share(start.writers, i, j, k)
        && (start.writers[i].tmp !in start.fs.live || exists l: nat :: l < |start.writers| && Joins(start.writers, i, j, k, l));
      if start.writers[i].tmp !in start.fs.live {
        var schedule := ThreeCanTear(start, path, i, j, k);
        assert !Intact(start, Run(start, path, schedule), path);
      } else {
        var l: nat :| l < |start.writers| && Joins(start.writers, i, j, k, l);
        var schedule := FourCanTear(start, path, i, j, k, l);
      }
    }
  }

  /** Calls whose names come from distinct random draws, none of which is the path, never share a name. */
  lemma DistinctDrawsSuffice(start: System, draws: seq<(Bytes, Bytes)>)
    requires |start.writers| == |draws|
    requires forall i :: 0 <= i < |draws| ==> |draws[i].0| == |draws[i].1| == 8 && start.writers[i].tmp == TempName(draws[i].0, draws[i].1)
    requires forall i, j :: 0 <= i < j < |draws| ==> draws[i] != draws[j]
    ensures Uncrowded(start)
  {
    forall i: nat, j: nat, k: nat | i < |draws| && j < |draws| && k < |draws| && Share(start.writers, i, j, k) ensures false {
      TempNamesDiffer(draws[i].0, draws[i].1, draws[j].0, draws[j].1);
    }
  }

  // ---- One call on its own ----

  function Solo(fs: Fs, tmp: Name, bytes: Bytes): System {
    System(fs, [Writer(tmp, bytes, Start)], None)
  }

  function Answer(fault: Option<IoError>): Os {
    match fault
    case None => Proceed(0)
    case Some(e) => Fail(e)
  }

  /** The steps that the faults of one replacement amount to. */
  function SoloSchedule(fs: Fs, tmp: Name, bytes: Bytes, f: Faults): Schedule {
    var open := [(0, Answer(f.create))];
    var write := if f.write.Some? then [(0, Proceed(f.write.value.0)), (0, Fail(f.write.value.1))]
                 else [(0, Proceed(|bytes|)), (0, Answer(f.flush))];
    var sync := [(0, Answer(f.sync))];
    var rename := [(0, Answer(f.rename))];
    var clean := [(0, if f.removeFails then Fail(OtherIo) else Proceed(0))];
    var finish := [(0, if f.directorySyncFails then Fail(OtherIo) else Proceed(0))];
    if bytes == [] then open
    else if f.create.Some? || tmp in fs.live then open + clean
    else if f.write.Some? || f.flush.Some? then open + write + clean
    else if f.sync.Some? then open + write + sync + clean
    else if f.rename.Some? then open + write + sync + rename + clean
    else open + write + sync + rename + finish
  }

  /** The system of one call that stands at `pc`. */
  function At(fs: Fs, tmp: Name, bytes: Bytes, pc: Pc): System {
    System(fs, [Writer(tmp, bytes, pc)], if pc == Renamed || pc == Succeeded then Some(0) else None)
  }

  /** One more step: the schedule so far has led to `s`. */
  lemma Then(start: System, path: Name, so: Schedule, s: System, os: Os)
    requires Run(start, path, so) == s
    ensures Run(start, path, so + [(0, os)]) == Act(s, path, 0, os)
  {
    RunAppend(start, path, so, [(0, os)]);
    RunOne(s, path, 0, os);
  }

  lemma OpenStage(fs: Fs, path: Name, tmp: Name, bytes: Bytes, f: Faults)
    requires bytes != []
    ensures Run(Solo(fs, tmp, bytes), path, [(0, Answer(f.create))])
            == if f.create.Some? then At(fs, tmp, bytes, Cleaning(MapIo(f.create.value), None))
               else if tmp in fs.live then At(fs, tmp, bytes, Cleaning(Error.Storage, None))
               else At(fs.Create(tmp), tmp, bytes, Writing(|fs.inodes|, 0))
  {
    RunOne(Solo(fs, tmp, bytes), path, 0, Answer(f.create));
  }

  lemma WriteStage(start: System, path: Name, so: Schedule, fs: Fs, tmp: Name, bytes: Bytes, file: nat, f: Faults)
    requires bytes != [] && file < |fs.inodes|
    requires Run(start, path, so) == At(fs, tmp, bytes, Writing(file, 0))
    ensures f.write.Some? ==>
              Run(start, path, so + [(0, Proceed(f.write.value.0)), (0, Fail(f.write.value.1))])
              == At(fs.Append(file, bytes[..Min(f.write.value.0, |bytes|)]), tmp, bytes, Cleaning(MapIo(f.write.value.1), Some(file)))
    ensures f.write.None? ==>
              Run(start, path, so + [(0, Proceed(|bytes|)), (0, Answer(f.flush))])
              == At(fs.Append(file, bytes), tmp, bytes,
                    if f.flush.Some? then Cleaning(MapIo(f.flush.value), Some(file)) else Flushed(file))
  {
    var s := At(fs, tmp, bytes, Writing(file, 0));
    var n := if f.write.Some? then f.write.value.0 else |bytes|;
    var next := if f.write.Some? then Fail(f.write.value.1) else Answer(f.flush);
    var m := Min(n, |bytes|);
    var s1 := Act(s, path, 0, Proceed(n));
    assert bytes[0..m] == bytes[..m] && bytes[..|bytes|] == bytes;
    assert s1 == At(fs.Append(file, bytes[..m]), tmp, bytes, Writing(file, m));
    Then(start, path, so, s, Proceed(n));
    Then(start, path, so + [(0, Proceed(n))], s1, next);
    assert so + [(0, Proceed(n))] + [(0, next)] == so + [(0, Proceed(n)), (0, next)];
  }

  lemma CleanStage(start: System, path: Name, so: Schedule, fs: Fs, tmp: Name, bytes: Bytes, e: Error, made: Option<nat>, f: Faults)
    requires Run(start, path, so) == At(fs, tmp, bytes, Cleaning(e, made))
    ensures Run(start, path, so + [(0, if f.removeFails then Fail(OtherIo) else Proceed(0))])
            == At(CleanUp(fs, tmp, f), tmp, bytes, Failed(e, if f.removeFails then made else None))
  {
    Then(start, path, so, At(fs, tmp, bytes, Cleaning(e, made)), if f.removeFails then Fail(OtherIo) else Proceed(0));
  }

  lemma SyncStage(start: System, path: Name, so: Schedule, fs: Fs, tmp: Name, bytes: Bytes, file: nat, f: Faults)
    requires file < |fs.inodes| && Run(start, path, so) == At(fs, tmp, bytes, Flushed(file))
    ensures Run(start, path, so + [(0, Answer(f.sync))])
            == if f.sync.Some? then At(fs, tmp, bytes, Cleaning(MapIo(f.sync.value), Some(file)))
               else At(fs.Sync(file), tmp, bytes, Synced(file))
  {
    Then(start, path, so, At(fs, tmp, bytes, Flushed(file)), Answer(f.sync));
  }

  lemma RenameStage(start: System, path: Name, so: Schedule, fs: Fs, tmp: Name, bytes: Bytes, file: nat, f: Faults)
    requires tmp in fs.live && Run(start, path, so) == At(fs, tmp, bytes, Synced(file))
    ensures Run(start, path, so + [(0, Answer(f.rename))])
            == if f.rename.Some? then At(fs, tmp, bytes, Cleaning(MapIo(f.rename.value), Some(file)))
               else At(fs.Rename(tmp, path), tmp, bytes, Renamed)
  {
    Then(start, path, so, At(fs, tmp, bytes, Synced(file)), Answer(f.rename));
  }

  /** The sequential replacement is one run of the protocol, so what holds of every run holds of it. */
  lemma ReplacementIsARun(fs: Fs, path: Name, tmp: Name, bytes: Bytes, f: Faults)
    ensures var s := Run(Solo(fs, tmp, bytes), path, SoloSchedule(fs, tmp, bytes, f));
            var (fs', r) := AtomicWrite(fs, path, tmp, bytes, f);
            && s.fs == fs' && |s.writers| == 1
            && match r
               case Ok(_) => s.writers[0].pc == Succeeded
               case Err(e) => s.writers[0].pc.Failed? && s.writers[0].pc.error == e
  {
    var s0 := Solo(fs, tmp, bytes);
    var open := [(0, Answer(f.create))];
    if bytes == [] {
      RunOne(s0, path, 0, Answer(f.create));
    } else {
      OpenStage(fs, path, tmp, bytes, f);
      if f.create.Some? || tmp in fs.live {
        CleanStage(s0, path, open, fs, tmp, bytes, if f.create.Some? then MapIo(f.create.value) else Error.Storage, None, f);
      } else {
        OpenedIsARun(fs, path, tmp, bytes, f);
      }
    }
  }

  lemma OpenedIsARun(fs: Fs, path: Name, tmp: Name, bytes: Bytes, f: Faults)
    requires bytes != [] && f.create.None? && tmp !in fs.live
    ensures var s := Run(Solo(fs, tmp, bytes), path, SoloSchedule(fs, tmp, bytes, f));
            var (fs', r) := AtomicWrite(fs, path, tmp, bytes, f);
            && s.fs == fs' && |s.writers| == 1
            && match r
               case Ok(_) => s.writers[0].pc == Succeeded
               case Err(e) => s.writers[0].pc.Failed? && s.writers[0].pc.error == e
  {
    var s0, file := Solo(fs, tmp, bytes), |fs.inodes|;
    var open := [(0, Answer(f.create))];
    var fs1 := fs.Create(tmp);
    OpenStage(fs, path, tmp, bytes, f);
    WriteStage(s0, path, open, fs1, tmp, bytes, file, f);
    if f.write.Some? {
      var so := open + [(0, Proceed(f.write.value.0)), (0, Fail(f.write.value.1))];
      CleanStage(s0, path, so, fs1.Append(file, bytes[..Min(f.write.value.0, |bytes|)]), tmp, bytes, MapIo(f.write.value.1), Some(file), f);
    } else {
      var fs2 := fs1.Append(file, bytes);
      var so2 := open + [(0, Proceed(|bytes|)), (0, Answer(f.flush))];
      if f.flush.Some? {
        CleanStage(s0, path, so2, fs2, tmp, bytes, MapIo(f.flush.value), Some(file), f);
      } else {
        SyncStage(s0, path, so2, fs2, tmp, bytes, file, f);
        var so3 := so2 + [(0, Answer(f.sync))];
        if f.sync.Some? {
          CleanStage(s0, path, so3, fs2, tmp, bytes, MapIo(f.sync.value), Some(file), f);
        } else {
          var fs3 := fs2.Sync(file);
          RenameStage(s0, path, so3, fs3, tmp, bytes, file, f);
          var so4 := so3 + [(0, Answer(f.rename))];
          if f.rename.Some? {
            CleanStage(s0, path, so4, fs3, tmp, bytes, MapIo(f.rename.value), Some(file), f);
          } else {
            Then(s0, path, so4, At(fs3.Rename(tmp, path), tmp, bytes, Renamed), if f.directorySyncFails then Fail(OtherIo) else Proceed(0));
          }
        }
      }
    }
  }

  /** A power loss at any point of one replacement leaves what could have been left before it, or exactly the new bytes. */
  lemma PowerLossDuringReplacement(fs: Fs, path: Name, tmp: Name, bytes: Bytes, schedule: Schedule, c: Option<Bytes>)
    requires fs.Valid() && tmp != path
    requires MayHold(Run(Solo(fs, tmp, bytes), path, schedule).fs, path, c)
    ensures MayHold(fs, path, c) || c == Some(bytes)
  {
    var start := Solo(fs, tmp, bytes);
    EveryRunIsSafe(start, path, schedule);
    RunInv(start, start, path, schedule) by { StartInv(start, path); }
  }

  /** After a replacement that succeeded, a power loss brings back an earlier state exactly when the directory was not synced. */
  lemma DurabilityOfSuccess(fs: Fs, path: Name, tmp: Name, bytes: Bytes, f: Faults, c: Option<Bytes>)
    requires fs.Valid() && tmp != path && AtomicWrite(fs, path, tmp, bytes, f).1.Ok?
    ensures MayHold(AtomicWrite(fs, path, tmp, bytes, f).0, path, c)
            <==> c == Some(bytes) || (f.directorySyncFails && MayHold(fs, path, c))
  {
    var fs' := AtomicWrite(fs, path, tmp, bytes, f).0;
    var file := |fs.inodes|;
    assert [] + bytes == bytes;
    assert fs'.inodes == fs.inodes + [Inode(bytes, true)];
    assert fs'.live in fs'.Versions() && fs'.live[path] == file;
    assert c == Some(bytes) ==> HeldIn(fs', fs'.live, path, c);
    if f.directorySyncFails {
      var created := fs.live[tmp := file];
      assert fs'.Versions() == fs.Versions() + [created, fs'.live];
      forall v | v in fs.Versions() ensures HeldIn(fs', v, path, c) <==> HeldIn(fs, v, path, c) {
        assert path in v ==> v[path] < |fs.inodes|;
      }
      assert fs.live in fs.Versions();
      assert HeldIn(fs', created, path, c) <==> HeldIn(fs', fs.live, path, c);
      if MayHold(fs, path, c) {
        var v :| v in fs.Versions() && HeldIn(fs, v, path, c);
        assert v in fs'.Versions() && HeldIn(fs', v, path, c);
      }
    } else {
      assert fs'.Versions() == [fs'.live];
    }
  }
}
