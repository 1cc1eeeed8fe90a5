/**
  * Power loss after and during runs of the application: exactly what it can leave, and that the
  * application goes on from there.
  */
module PowerLoss {
  import opened Basics
  import opened Crypto
  import opened Vault
  import opened UnlockedVaults
  import opened SectionBinding
  import opened Storage
  import opened AppModel
  import opened Runs
  import opened RunTheorems
  import AtomicReplace
  import VaultSize
  import Utf8

  // ---- One replacement ----

  /** A replacement adds its own bytes, and only if it succeeds, to what a power loss may leave. */
  lemma ReplacementMayHold(fs: Fs, path: Name, tmp: Name, bytes: Bytes, f: Faults, c: Option<Bytes>)
    requires fs.Valid() && tmp != path
    requires MayHold(AtomicWrite(fs, path, tmp, bytes, f).0, path, c)
    ensures MayHold(fs, path, c) || (AtomicWrite(fs, path, tmp, bytes, f).1.Ok? && c == Some(bytes))
  {
    var start := AtomicReplace.Solo(fs, tmp, bytes);
    var schedule := AtomicReplace.SoloSchedule(fs, tmp, bytes, f);
    AtomicReplace.ReplacementIsARun(fs, path, tmp, bytes, f);
    AtomicReplace.EveryRunIsSafe(start, path, schedule);
    AtomicReplace.StartInv(start, path);
    AtomicReplace.RunInv(start, start, path, schedule);
  }

  /** Files are kept, and so is every directory that a power loss may bring back. */
  ghost predicate Grows(fs: Fs, fs': Fs) {
    fs.inodes <= fs'.inodes && forall v :: v in fs.Versions() ==> v in fs'.Versions()
  }

  lemma MayHoldGrows(fs: Fs, fs': Fs, path: Name, c: Option<Bytes>)
    requires fs.Valid() && Grows(fs, fs') && MayHold(fs, path, c)
    ensures MayHold(fs', path, c)
  {
    var v :| v in fs.Versions() && HeldIn(fs, v, path, c);
    assert HeldIn(fs', v, path, c);
  }

  lemma FailureGrows(fs: Fs, path: Name, tmp: Name, bytes: Bytes, f: Faults)
    requires AtomicWrite(fs, path, tmp, bytes, f).1.Err?
    ensures Grows(fs, AtomicWrite(fs, path, tmp, bytes, f).0)
  {
    var fs1 := WriteTemp(fs, tmp, bytes, f).0;
    assert Grows(fs, fs1) by {
      assert fs1 == fs || fs1.Versions() == fs.Versions() + [fs.live[tmp := |fs.inodes|]];
    }
    assert CleanUp(fs1, tmp, f) == fs1 || CleanUp(fs1, tmp, f).Versions() == fs1.Versions() + [fs1.live - {tmp}];
  }

  /** Exactly what a power loss may leave after a replacement. */
  lemma WriteMayHold(fs: Fs, path: Name, tmp: Name, bytes: Bytes, f: Faults, c: Option<Bytes>)
    requires fs.Valid() && tmp != path
    ensures var (fs', r) := AtomicWrite(fs, path, tmp, bytes, f);
            MayHold(fs', path, c) <==>
              if r.Ok? then c == Some(bytes) || (f.directorySyncFails && MayHold(fs, path, c)) else MayHold(fs, path, c)
  {
    var (fs', r) := AtomicWrite(fs, path, tmp, bytes, f);
    if r.Ok? {
      AtomicReplace.DurabilityOfSuccess(fs, path, tmp, bytes, f, c);
    } else {
      FailureGrows(fs, path, tmp, bytes, f);
      if MayHold(fs', path, c) {
        ReplacementMayHold(fs, path, tmp, bytes, f, c);
      } else if MayHold(fs, path, c) {
        MayHoldGrows(fs, fs', path, c);
      }
    }
  }

  // ---- One call ----

  /** A replacement that succeeded (or not), with the directory synced (or not), took place. */
  ghost predicate Replaced(path: Name, fs: Fs, fs': Fs, wrote: bool, syncFails: bool) {
    forall c :: MayHold(fs', path, c) <==>
      if wrote then c == fs'.Read(path) || (syncFails && MayHold(fs, path, c)) else MayHold(fs, path, c)
  }

  lemma WriteReplaces(path: Name, fs: Fs, file: VaultFile, io: SaveIo)
    requires fs.Valid() && io.Tmp() != path
    ensures var (fs', r) := AtomicWrite(fs, path, io.Tmp(), ToBytes(file), io.faults);
            Replaced(path, fs, fs', r.Ok?, io.faults.directorySyncFails)
  {
    var bytes := ToBytes(file);
    var (fs', r) := AtomicWrite(fs, path, io.Tmp(), bytes, io.faults);
    AtomicWriteOutcome(fs, path, io.Tmp(), bytes, io.faults);
    forall c ensures MayHold(fs', path, c) <==>
      if r.Ok? then c == fs'.Read(path) || (io.faults.directorySyncFails && MayHold(fs, path, c)) else MayHold(fs, path, c)
    {
      WriteMayHold(fs, path, io.Tmp(), bytes, io.faults, c);
    }
  }

  lemma SaveReplaces(p: Primitives, path: Name, s: Sys, io: SaveIo)
    requires s.fs.Valid() && io.Tmp() != path && s.mode.Unlocked?
    ensures var (s', r) := SaveDone(p, path, s, io); Replaced(path, s.fs, s'.fs, r.Ok?, io.faults.directorySyncFails)
  {
    var made := Seal(p, s.log, s.mode.vault, io.nonce).1;
    if made.Ok? {
      WriteReplaces(path, s.fs, made.value, io);
    }
  }

  lemma CreateFs(p: Primitives, path: Name, s: Sys, op: Op)
    requires op.CreateVault?
    ensures var (s', a) := Do(p, path, s, op);
            var made := New(p, s.log, op.password, op.draws).1;
            if !Attempted(path, s, op) || made.Err? then s'.fs == s.fs && a.Failed()
            else
              var (fs', r) := AtomicWrite(s.fs, path, op.io.Tmp(), ToBytes(made.value.0), op.io.faults);
              s'.fs == fs' && (a.Failed() <==> r.Err?)
  {
  }

  lemma CreateReplaces(p: Primitives, path: Name, s: Sys, op: Op)
    requires s.fs.Valid() && op.CreateVault? && op.io.Tmp() != path
    ensures var (s', a) := Do(p, path, s, op); Replaced(path, s.fs, s'.fs, Wrote(s, op, a), op.io.faults.directorySyncFails)
  {
    CreateFs(p, path, s, op);
    var (s', a) := Do(p, path, s, op);
    var made := New(p, s.log, op.password, op.draws).1;
    if Attempted(path, s, op) && made.Ok? {
      WrittenBy(path, s, op, s', a, made.value.0);
    } else {
      UnwrittenBy(path, s, op, s', a);
    }
  }

  lemma WrittenBy(path: Name, s: Sys, op: Op, s': Sys, a: Answer, file: VaultFile)
    requires s.fs.Valid() && op.CreateVault? && op.io.Tmp() != path
    requires var (fs', r) := AtomicWrite(s.fs, path, op.io.Tmp(), ToBytes(file), op.io.faults);
             s'.fs == fs' && (a.Failed() <==> r.Err?)
    ensures Replaced(path, s.fs, s'.fs, Wrote(s, op, a), op.io.faults.directorySyncFails)
  {
    WriteReplaces(path, s.fs, file, op.io);
  }

  lemma UnwrittenBy(path: Name, s: Sys, op: Op, s': Sys, a: Answer)
    requires op.CreateVault? && s'.fs == s.fs && a.Failed()
    ensures Replaced(path, s.fs, s'.fs, Wrote(s, op, a), op.io.faults.directorySyncFails)
  {
  }

  lemma EntryOpReplaces(p: Primitives, path: Name, s: Sys, op: Op)
    requires s.fs.Valid() && op.IsEntryOp() && op.io.Tmp() != path
    ensures var (s', a) := Do(p, path, s, op); Replaced(path, s.fs, s'.fs, Wrote(s, op, a), op.io.faults.directorySyncFails)
  {
    EntryOpIs(p, path, s, op);
    if s.mode.Unlocked? {
      SaveReplaces(p, path, WithEntries(s, ListAfter(s.mode.vault.entries, op)), op.io);
    }
  }

  lemma KeepsFs(p: Primitives, path: Name, w: World, op: Op)
    requires !op.MayWrite()
    ensures Step(p, path, w, op).sys.fs == w.sys.fs && Step(p, path, w, op).sys.log == w.sys.log
  {
    if op.OpenVault? {
      OpenLedger(p, path, w, op);
    } else {
      OtherLedger(p, path, w, op);
    }
  }

  /** The call did not write the file, or could not sync the directory. */
  predicate SyncFails(op: Op) {
    op.MayWrite() ==> op.io.faults.directorySyncFails
  }

  lemma StepReplaces(p: Primitives, path: Name, w: World, op: Op)
    requires w.sys.fs.Valid() && Fair(path, w.book.births, op)
    ensures var (s', a) := Do(p, path, w.sys, op); Replaced(path, w.sys.fs, s'.fs, Wrote(w.sys, op, a), SyncFails(op))
  {
    if op.CreateVault? {
      CreateReplaces(p, path, w.sys, op);
    } else if op.IsEntryOp() {
      EntryOpReplaces(p, path, w.sys, op);
    } else if op.SaveVault? {
      if w.sys.mode.Unlocked? {
        SaveReplaces(p, path, w.sys, op.io);
      }
    } else {
      KeepsFs(p, path, w, op);
    }
  }

  lemma SaveExtends(p: Primitives, path: Name, s: Sys, births: seq<Birth>, i: nat, io: SaveIo)
    requires Sound(p) && Honest(p, s.log, births) && i < |births|
    requires s.mode.Unlocked? && s.mode.vault.vaultKey == births[i].vaultKey && ValidList(s.mode.vault.entries)
    ensures Extends(s.log, SaveDone(p, path, s, io).0.log)
  {
    SealKeepsHonest(p, s.log, births, i, s.mode.vault, io.nonce);
  }

  lemma EntryOpExtends(p: Primitives, path: Name, w: World, op: Op)
    requires Sound(p) && Inv(p, path, w) && op.IsEntryOp()
    ensures Extends(w.sys.log, Do(p, path, w.sys, op).0.log)
  {
    EntryOpIs(p, path, w.sys, op);
    if w.sys.mode.Unlocked? {
      var es := w.sys.mode.vault.entries;
      ListAfterIsValid(es, op);
      SaveExtends(p, path, WithEntries(w.sys, ListAfter(es, op)), w.book.births, w.book.saved.value.vault, op.io);
    }
  }

  lemma CreateExtends(p: Primitives, path: Name, w: World, op: Op)
    requires Sound(p) && Inv(p, path, w) && op.CreateVault? && op.draws.Valid()
    ensures Extends(w.sys.log, Do(p, path, w.sys, op).0.log)
  {
    NewKeepsHonest(p, w.sys.log, w.book.births, op.password, op.draws);
    CreateLog(p, path, w.sys, op);
  }

  lemma CreateLog(p: Primitives, path: Name, s: Sys, op: Op)
    requires op.CreateVault?
    ensures var log' := Do(p, path, s, op).0.log; log' == s.log || log' == New(p, s.log, op.password, op.draws).0
  {
  }

  lemma SaveOpExtends(p: Primitives, path: Name, w: World, op: Op)
    requires Sound(p) && Inv(p, path, w) && op.SaveVault?
    ensures Extends(w.sys.log, Do(p, path, w.sys, op).0.log)
  {
    if w.sys.mode.Unlocked? {
      SaveExtends(p, path, w.sys, w.book.births, w.book.saved.value.vault, op.io);
    }
  }

  /** What could be decrypted before a call can be decrypted after it. */
  lemma StepExtends(p: Primitives, path: Name, w: World, op: Op)
    requires Sound(p) && Inv(p, path, w) && Fair(path, w.book.births, op)
    ensures Extends(w.sys.log, Step(p, path, w, op).sys.log)
  {
    if op.CreateVault? {
      CreateExtends(p, path, w, op);
    } else if op.IsEntryOp() {
      EntryOpExtends(p, path, w, op);
    } else if op.SaveVault? {
      SaveOpExtends(p, path, w, op);
    } else {
      KeepsFs(p, path, w, op);
    }
  }

  // ---- What a run leaves to chance ----

  /** The saves that a power loss may bring back after the call: `None` is the absence of the file. */
  function LeftAfter(p: Primitives, path: Name, w: World, op: Op, left: seq<Option<Saved>>): seq<Option<Saved>> {
    if !Wrote(w.sys, op, Do(p, path, w.sys, op).1) then left
    else if SyncFails(op) then left + [Step(p, path, w, op).book.saved]
    else [Step(p, path, w, op).book.saved]
  }

  function LeftIn(p: Primitives, path: Name, w: World, ops: seq<Op>, left: seq<Option<Saved>>): seq<Option<Saved>>
    decreases |ops|
  {
    if ops == [] then left else LeftIn(p, path, Step(p, path, w, ops[0]), ops[1..], LeftAfter(p, path, w, ops[0], left))
  }

  /** The file of a save. */
  function Content(p: Primitives, births: seq<Birth>, x: Option<Saved>): Option<Bytes> {
    match x
    case None => None
    case Some(sv) =>
      if sv.vault < |births| then Some(ToBytes(FileOf(p, births[sv.vault], sv.nonce, sv.entries))) else None
  }

  /** A save of a known vault whose payload is in the history of the cipher. */
  ghost predicate SavedOk(p: Primitives, log: Log, births: seq<Birth>, x: Option<Saved>) {
    x.Some? ==>
      && x.value.vault < |births|
      && ValidList(x.value.entries)
      && Sealed(p, log, births[x.value.vault], x.value.nonce, x.value.entries)
  }

  ghost predicate Among(p: Primitives, births: seq<Birth>, left: seq<Option<Saved>>, c: Option<Bytes>) {
    exists x :: x in left && c == Content(p, births, x)
  }

  /** A power loss may leave the files of these saves and nothing else. */
  ghost predicate Leaves(p: Primitives, path: Name, w: World, left: seq<Option<Saved>>) {
    && (forall x :: x in left ==> SavedOk(p, w.sys.log, w.book.births, x))
    && (forall c :: MayHold(w.sys.fs, path, c) <==> Among(p, w.book.births, left, c))
  }

  lemma SavedOkLater(p: Primitives, log: Log, log': Log, births: seq<Birth>, more: seq<Birth>, x: Option<Saved>)
    requires SavedOk(p, log, births, x) && Extends(log, log') && births <= more
    ensures SavedOk(p, log', more, x) && Content(p, more, x) == Content(p, births, x)
  {
    if x.Some? {
      assert more[x.value.vault] == births[x.value.vault];
    }
  }

  lemma InvSavedOk(p: Primitives, path: Name, w: World)
    requires Inv(p, path, w)
    ensures SavedOk(p, w.sys.log, w.book.births, w.book.saved) && w.sys.fs.Read(path) == Content(p, w.book.births, w.book.saved)
  {
  }

  lemma AmongLater(p: Primitives, births: seq<Birth>, more: seq<Birth>, left: seq<Option<Saved>>, c: Option<Bytes>)
    requires forall x :: x in left ==> Content(p, more, x) == Content(p, births, x)
    ensures Among(p, more, left, c) <==> Among(p, births, left, c)
  {
  }

  lemma AmongAppended(p: Primitives, births: seq<Birth>, left: seq<Option<Saved>>, y: Option<Saved>, c: Option<Bytes>)
    ensures Among(p, births, left + [y], c) <==> Among(p, births, left, c) || c == Content(p, births, y)
    ensures Among(p, births, [y], c) <==> c == Content(p, births, y)
  {
    assert forall x :: x in left + [y] <==> x in left || x == y;
    assert y in [y];
  }

  /** Growing births and histories keep what is left. */
  lemma LeftIsKept(p: Primitives, log: Log, log': Log, births: seq<Birth>, more: seq<Birth>, left: seq<Option<Saved>>, c: Option<Bytes>)
    requires (forall x :: x in left ==> SavedOk(p, log, births, x)) && Extends(log, log') && births <= more
    ensures forall x :: x in left ==> SavedOk(p, log', more, x)
    ensures Among(p, more, left, c) <==> Among(p, births, left, c)
  {
    forall x | x in left ensures SavedOk(p, log', more, x) && Content(p, more, x) == Content(p, births, x) {
      SavedOkLater(p, log, log', births, more, x);
    }
    AmongLater(p, births, more, left, c);
  }

  /** The effect of one call, in terms of its outcome only. */
  lemma LeavesAfter(p: Primitives, path: Name, w: World, w': World, wrote: bool, syncFails: bool, left: seq<Option<Saved>>)
    requires Leaves(p, path, w, left) && Replaced(path, w.sys.fs, w'.sys.fs, wrote, syncFails)
    requires Extends(w.sys.log, w'.sys.log) && w.book.births <= w'.book.births
    requires SavedOk(p, w'.sys.log, w'.book.births, w'.book.saved) && w'.sys.fs.Read(path) == Content(p, w'.book.births, w'.book.saved)
    ensures Leaves(p, path, w', if !wrote then left else if syncFails then left + [w'.book.saved] else [w'.book.saved])
  {
    var left' := if !wrote then left else if syncFails then left + [w'.book.saved] else [w'.book.saved];
    forall c ensures MayHold(w'.sys.fs, path, c) <==> Among(p, w'.book.births, left', c) {
      LeftIsKept(p, w.sys.log, w'.sys.log, w.book.births, w'.book.births, left, c);
      AmongAppended(p, w'.book.births, left, w'.book.saved, c);
    }
    LeftIsKept(p, w.sys.log, w'.sys.log, w.book.births, w'.book.births, left, None);
  }

  lemma StepLeaves(p: Primitives, path: Name, w: World, op: Op, left: seq<Option<Saved>>)
    requires Sound(p) && Inv(p, path, w) && Fair(path, w.book.births, op) && Leaves(p, path, w, left)
    ensures Leaves(p, path, Step(p, path, w, op), LeftAfter(p, path, w, op, left))
  {
    var w' := Step(p, path, w, op);
    StepKeepsInv(p, path, w, op);
    StepReplaces(p, path, w, op);
    StepExtends(p, path, w, op);
    BirthsGrow(p, path, w, op);
    InvSavedOk(p, path, w');
    LeavesAfter(p, path, w, w', Wrote(w.sys, op, Do(p, path, w.sys, op).1), SyncFails(op), left);
  }

  /**
    * Exactly what a power loss after a run can leave: from the saves that could come back before
    * the run, the whole file of the last save whose directory sync succeeded, or of a save after it.
    */
  lemma {:induction false} PowerLossLeavesExactly(p: Primitives, path: Name, w: World, ops: seq<Op>, left: seq<Option<Saved>>)
    requires Sound(p) && Inv(p, path, w) && FairRun(p, path, w, ops) && Leaves(p, path, w, left)
    ensures Leaves(p, path, Run(p, path, w, ops), LeftIn(p, path, w, ops, left))
    decreases |ops|
  {
    if ops != [] {
      StepKeepsInv(p, path, w, ops[0]);
      StepLeaves(p, path, w, ops[0], left);
      PowerLossLeavesExactly(p, path, Step(p, path, w, ops[0]), ops[1..], LeftAfter(p, path, w, ops[0], left));
    }
  }

  /** The path is absent from the directory as it is and as a power loss may bring it back. */
  ghost predicate DurablyAbsent(path: Name, fs: Fs) {
    forall v :: v in fs.Versions() ==> path !in v
  }

  /** At a first launch there is nothing to come back. */
  lemma NothingAtFirst(p: Primitives, path: Name, s: Sys)
    requires FirstLaunch(path, s) && DurablyAbsent(path, s.fs)
    ensures Leaves(p, path, Begin(s), [None])
  {
    assert s.fs.live in s.fs.Versions();
    forall c ensures MayHold(s.fs, path, c) <==> Among(p, [], [None], c) {
      AmongAppended(p, [], [], None, c);
      if c == None {
        assert HeldIn(s.fs, s.fs.live, path, c);
      }
    }
  }

  /**
    * If power is lost at any step of one more save of `bytes`, the file is one that a power loss
    * could have left before it, or the whole new one.
    */
  lemma PowerLossLeavesAWholeFile(p: Primitives, path: Name, w: World, left: seq<Option<Saved>>, tmp: Name, bytes: Bytes, steps: AtomicReplace.Schedule, c: Option<Bytes>)
    requires w.sys.fs.Valid() && Leaves(p, path, w, left) && tmp != path
    requires MayHold(AtomicReplace.Run(AtomicReplace.Solo(w.sys.fs, tmp, bytes), path, steps).fs, path, c)
    ensures Among(p, w.book.births, left, c) || c == Some(bytes)
  {
    AtomicReplace.PowerLossDuringReplacement(w.sys.fs, path, tmp, bytes, steps, c);
  }

  // ---- A synced save is a floor ----

  /** No call reports a save. */
  predicate NoSaves(p: Primitives, path: Name, w: World, ops: seq<Op>)
    decreases |ops|
  {
    ops != [] ==> !Wrote(w.sys, ops[0], Do(p, path, w.sys, ops[0]).1) && NoSaves(p, path, Step(p, path, w, ops[0]), ops[1..])
  }

  lemma {:induction false} NoSavesLeave(p: Primitives, path: Name, w: World, ops: seq<Op>, left: seq<Option<Saved>>)
    requires NoSaves(p, path, w, ops)
    ensures LeftIn(p, path, w, ops, left) == left && Run(p, path, w, ops).book.saved == w.book.saved
    decreases |ops|
  {
    if ops != [] {
      NoSavesLeave(p, path, Step(p, path, w, ops[0]), ops[1..], left);
    }
  }

  /** The saved list after the first `n` calls. */
  ghost predicate SavedThen(p: Primitives, path: Name, w: World, ops: seq<Op>, n: nat, x: Option<Saved>) {
    n <= |ops| && Run(p, path, w, ops[..n]).book.saved == x
  }

  lemma {:induction false} LeftIsRecent(p: Primitives, path: Name, w: World, ops: seq<Op>, left: seq<Option<Saved>>, x: Option<Saved>)
    requires x in LeftIn(p, path, w, ops, left)
    ensures x in left || exists n: nat :: SavedThen(p, path, w, ops, n, x)
    decreases |ops|
  {
    if ops != [] {
      var w1 := Step(p, path, w, ops[0]);
      LeftIsRecent(p, path, w1, ops[1..], LeftAfter(p, path, w, ops[0], left), x);
      if x == w1.book.saved {
        assert Run(p, path, w1, ops[1..][..0]) == w1;
        assert SavedThen(p, path, w1, ops[1..], 0, x);
      }
      if n: nat :| SavedThen(p, path, w1, ops[1..], n, x) {
        assert ops[..n + 1][1..] == ops[1..][..n] && ops[..n + 1][0] == ops[0];
        assert SavedThen(p, path, w, ops, n + 1, x);
      }
    }
  }

  lemma StepKeepsSaved(p: Primitives, path: Name, w: World, op: Op)
    requires w.book.saved.Some?
    ensures Step(p, path, w, op).book.saved.Some?
  {
  }

  lemma {:induction false} SavedStaysSome(p: Primitives, path: Name, w: World, ops: seq<Op>)
    requires w.book.saved.Some?
    ensures Run(p, path, w, ops).book.saved.Some?
    decreases |ops|
  {
    if ops != [] {
      StepKeepsSaved(p, path, w, ops[0]);
      SavedStaysSome(p, path, Step(p, path, w, ops[0]), ops[1..]);
    }
  }

  lemma LeftSince(p: Primitives, path: Name, w: World, ops: seq<Op>, x: Option<Saved>)
    requires w.book.saved.Some? && x in LeftIn(p, path, w, ops, [w.book.saved])
    ensures x.Some? && exists n: nat :: SavedThen(p, path, w, ops, n, x)
  {
    LeftIsRecent(p, path, w, ops, [w.book.saved], x);
    if x == w.book.saved {
      assert Run(p, path, w, ops[..0]) == w;
      assert SavedThen(p, path, w, ops, 0, x);
    }
    var n: nat :| SavedThen(p, path, w, ops, n, x);
    if n <= |ops| {
      SavedStaysSome(p, path, w, ops[..n]);
    }
  }

  /** The call puts its save on disk for good. */
  predicate SavesForGood(p: Primitives, path: Name, w: World, op: Op) {
    Wrote(w.sys, op, Do(p, path, w.sys, op).1) && !SyncFails(op)
  }

  lemma SavedIsSome(p: Primitives, path: Name, w: World, op: Op)
    requires Inv(p, path, w) && Wrote(w.sys, op, Do(p, path, w.sys, op).1)
    ensures Step(p, path, w, op).book.saved.Some?
  {
  }

  /** Whatever could come back before it. */
  lemma SyncedSaveLeaves(p: Primitives, path: Name, w: World, op: Op)
    requires Sound(p) && Inv(p, path, w) && Fair(path, w.book.births, op) && SavesForGood(p, path, w, op)
    ensures var w' := Step(p, path, w, op); w'.book.saved.Some? && Leaves(p, path, w', [w'.book.saved])
  {
    var w' := Step(p, path, w, op);
    StepKeepsInv(p, path, w, op);
    StepReplaces(p, path, w, op);
    InvSavedOk(p, path, w');
    SavedIsSome(p, path, w, op);
    OnlyTheSaved(p, path, w.sys.fs, w');
  }

  lemma OnlyTheSaved(p: Primitives, path: Name, fs: Fs, w': World)
    requires Replaced(path, fs, w'.sys.fs, true, false)
    requires SavedOk(p, w'.sys.log, w'.book.births, w'.book.saved) && w'.sys.fs.Read(path) == Content(p, w'.book.births, w'.book.saved)
    ensures Leaves(p, path, w', [w'.book.saved])
  {
    forall c ensures MayHold(w'.sys.fs, path, c) <==> Among(p, w'.book.births, [w'.book.saved], c) {
      AmongAppended(p, w'.book.births, [], w'.book.saved, c);
    }
  }

  /** After a save with a synced directory, a power loss brings back that save or one made after it, never an older one and never nothing. */
  lemma SyncedSaveIsAFloor(p: Primitives, path: Name, w: World, op: Op, after: seq<Op>, c: Option<Bytes>)
    requires Sound(p) && Inv(p, path, w) && Fair(path, w.book.births, op) && FairRun(p, path, Step(p, path, w, op), after)
    requires SavesForGood(p, path, w, op)
    requires MayHold(Run(p, path, Step(p, path, w, op), after).sys.fs, path, c)
    ensures var w1 := Step(p, path, w, op);
            exists n: nat, x :: SavedThen(p, path, w1, after, n, x) && x.Some?
                                && c == Content(p, Run(p, path, w1, after).book.births, x)
  {
    var w1 := Step(p, path, w, op);
    StepKeepsInv(p, path, w, op);
    SyncedSaveLeaves(p, path, w, op);
    PowerLossLeavesExactly(p, path, w1, after, [w1.book.saved]);
    var x :| x in LeftIn(p, path, w1, after, [w1.book.saved]) && c == Content(p, Run(p, path, w1, after).book.births, x);
    LeftSince(p, path, w1, after, x);
  }

  /** If the last save of a run also synced the directory, a power loss leaves exactly the file that is there. */
  lemma LastSyncedSaveSurvives(p: Primitives, path: Name, w: World, op: Op, after: seq<Op>, c: Option<Bytes>)
    requires Sound(p) && Inv(p, path, w) && Fair(path, w.book.births, op) && FairRun(p, path, Step(p, path, w, op), after)
    requires SavesForGood(p, path, w, op) && NoSaves(p, path, Step(p, path, w, op), after)
    ensures var fs := Run(p, path, Step(p, path, w, op), after).sys.fs; MayHold(fs, path, c) <==> c == fs.Read(path)
  {
    var w1 := Step(p, path, w, op);
    StepKeepsInv(p, path, w, op);
    SyncedSaveLeaves(p, path, w, op);
    PowerLossLeavesExactly(p, path, w1, after, [w1.book.saved]);
    NoSavesLeave(p, path, w1, after, [w1.book.saved]);
    RunKeepsInv(p, path, w1, after);
    var w2 := Run(p, path, w1, after);
    InvSavedOk(p, path, w2);
    AmongAppended(p, w2.book.births, [], w1.book.saved, c);
  }

  // ---- Going on after a power loss ----

  /** A run that a power loss ends: after its calls, or after some steps of one more call that was about to save; and what is found then. */
  datatype Session = Session(ops: seq<Op>, cut: Option<Cut>, found: Sys)

  datatype Cut = Cut(op: Op, steps: AtomicReplace.Schedule)

  /** The ledger and the history at the power loss; for a call cut short, as if it had saved. */
  function EndOf(p: Primitives, path: Name, w: World, e: Session): World {
    var w1 := Run(p, path, w, e.ops);
    if e.cut.None? then w1 else Step(p, path, w1, e.cut.value.op)
  }

  function LeftAtEnd(p: Primitives, path: Name, w: World, e: Session, left: seq<Option<Saved>>): seq<Option<Saved>> {
    var some := LeftIn(p, path, w, e.ops, left);
    if e.cut.None? then some else some + [EndOf(p, path, w, e).book.saved]
  }

  /** The file system at the power loss. */
  function DiskAtEnd(p: Primitives, path: Name, w: World, e: Session): Fs {
    var fs := Run(p, path, w, e.ops).sys.fs;
    if e.cut.None? || !e.cut.value.op.MayWrite() then fs
    else
      var bytes := EndOf(p, path, w, e).sys.fs.Read(path);
      AtomicReplace.Run(AtomicReplace.Solo(fs, e.cut.value.op.io.Tmp(), if bytes.Some? then bytes.value else []), path, e.cut.value.steps).fs
  }

  /** Everything is on disk. */
  predicate Settled(fs: Fs) {
    fs.past == [] && forall i :: 0 <= i < |fs.inodes| ==> fs.inodes[i].synced
  }

  /** For everything that a power loss may leave there is a disk on which it is found. */
  lemma SomethingIsFound(path: Name, c: Option<Bytes>) returns (fs: Fs)
    ensures fs.Valid() && Settled(fs) && fs.Read(path) == c
  {
    fs := if c.Some? then Fs([Inode(c.value, true)], map[path := 0], []) else Fs([], map[], []);
  }

  /** The application starts again, and sees the file if it can look at it. */
  predicate StartsOn(path: Name, s: Sys, log: Log) {
    s.log == log && (s.mode == NoVault || (s.mode == Locked && s.fs.Read(path).Some?))
  }

  /** What is found after the session is something that the power loss may have left. */
  ghost predicate Follows(p: Primitives, path: Name, w: World, e: Session) {
    && FairRun(p, path, w, e.ops)
    && (e.cut.Some? ==>
          var w1 := Run(p, path, w, e.ops);
          Fair(path, w1.book.births, e.cut.value.op) && Wrote(w1.sys, e.cut.value.op, Do(p, path, w1.sys, e.cut.value.op).1))
    && e.found.fs.Valid() && Settled(e.found.fs)
    && StartsOn(path, e.found, EndOf(p, path, w, e).sys.log)
    && MayHold(DiskAtEnd(p, path, w, e), path, e.found.fs.Read(path))
  }

  /** The save whose file has this content, the latest if there are several. */
  function Pick(p: Primitives, births: seq<Birth>, left: seq<Option<Saved>>, c: Option<Bytes>): Option<Saved> {
    if left == [] then None
    else if Content(p, births, left[|left| - 1]) == c then left[|left| - 1]
    else Pick(p, births, left[..|left| - 1], c)
  }

  lemma {:induction false} PickIsAmong(p: Primitives, births: seq<Birth>, left: seq<Option<Saved>>, c: Option<Bytes>)
    requires Among(p, births, left, c)
    ensures Pick(p, births, left, c) in left && Content(p, births, Pick(p, births, left, c)) == c
  {
    var n := |left| - 1;
    assert left == left[..n] + [left[n]];
    AmongAppended(p, births, left[..n], left[n], c);
    if Content(p, births, left[n]) != c {
      PickIsAmong(p, births, left[..n], c);
    }
  }

  /** The application on what it finds, with the save that came back in the ledger. */
  function Resume(p: Primitives, path: Name, w: World, e: Session, left: seq<Option<Saved>>): World {
    var end := EndOf(p, path, w, e);
    World(e.found, end.book.(
      saved := Pick(p, end.book.births, LeftAtEnd(p, path, w, e, left), e.found.fs.Read(path)), stale := false))
  }

  lemma EndIsAmong(p: Primitives, path: Name, w: World, e: Session, left: seq<Option<Saved>>)
    requires Sound(p) && Inv(p, path, w) && Leaves(p, path, w, left) && Follows(p, path, w, e)
    ensures var end, some := EndOf(p, path, w, e), LeftAtEnd(p, path, w, e, left);
            && Inv(p, path, end)
            && (forall x :: x in some ==> SavedOk(p, end.sys.log, end.book.births, x))
            && Among(p, end.book.births, some, e.found.fs.Read(path))
  {
    RunKeepsInv(p, path, w, e.ops);
    PowerLossLeavesExactly(p, path, w, e.ops, left);
    if e.cut.Some? {
      CutIsAmong(p, path, Run(p, path, w, e.ops), LeftIn(p, path, w, e.ops, left), e.cut.value, e.found.fs.Read(path));
    }
  }

  lemma CutIsAmong(p: Primitives, path: Name, w: World, left: seq<Option<Saved>>, cut: Cut, c: Option<Bytes>)
    requires Sound(p) && Inv(p, path, w) && Leaves(p, path, w, left)
    requires Fair(path, w.book.births, cut.op) && Wrote(w.sys, cut.op, Do(p, path, w.sys, cut.op).1)
    requires var bytes := Step(p, path, w, cut.op).sys.fs.Read(path);
             MayHold(AtomicReplace.Run(AtomicReplace.Solo(w.sys.fs, cut.op.io.Tmp(), if bytes.Some? then bytes.value else []), path, cut.steps).fs, path, c)
    ensures var w' := Step(p, path, w, cut.op);
            && Inv(p, path, w')
            && (forall x :: x in left + [w'.book.saved] ==> SavedOk(p, w'.sys.log, w'.book.births, x))
            && Among(p, w'.book.births, left + [w'.book.saved], c)
  {
    var w' := Step(p, path, w, cut.op);
    StepKeepsInv(p, path, w, cut.op);
    SavedIsSome(p, path, w, cut.op);
    InvSavedOk(p, path, w');
    StepExtends(p, path, w, cut.op);
    BirthsGrow(p, path, w, cut.op);
    SavedIsThere(p, path, w');
    CutLeaves(p, path, w, w', left, cut.op.io.Tmp(), w'.sys.fs.Read(path).value, cut.steps, c);
  }

  lemma SavedIsThere(p: Primitives, path: Name, w: World)
    requires Inv(p, path, w) && w.book.saved.Some?
    ensures w.sys.fs.Read(path).Some?
  {
  }

  lemma CutLeaves(p: Primitives, path: Name, w: World, w': World, left: seq<Option<Saved>>, tmp: Name, bytes: Bytes, steps: AtomicReplace.Schedule, c: Option<Bytes>)
    requires w.sys.fs.Valid() && Leaves(p, path, w, left) && tmp != path
    requires Extends(w.sys.log, w'.sys.log) && w.book.births <= w'.book.births
    requires SavedOk(p, w'.sys.log, w'.book.births, w'.book.saved) && Content(p, w'.book.births, w'.book.saved) == Some(bytes)
    requires MayHold(AtomicReplace.Run(AtomicReplace.Solo(w.sys.fs, tmp, bytes), path, steps).fs, path, c)
    ensures forall x :: x in left + [w'.book.saved] ==> SavedOk(p, w'.sys.log, w'.book.births, x)
    ensures Among(p, w'.book.births, left + [w'.book.saved], c)
  {
    PowerLossLeavesAWholeFile(p, path, w, left, tmp, bytes, steps, c);
    LeftIsKept(p, w.sys.log, w'.sys.log, w.book.births, w'.book.births, left, c);
    AmongAppended(p, w'.book.births, left, w'.book.saved, c);
  }

  lemma FoundInv(p: Primitives, path: Name, w: World, s: Sys, x: Option<Saved>)
    requires Inv(p, path, w) && SavedOk(p, w.sys.log, w.book.births, x)
    requires s.fs.Valid() && s.fs.Read(path) == Content(p, w.book.births, x) && StartsOn(path, s, w.sys.log)
    ensures Inv(p, path, World(s, w.book.(saved := x, stale := false)))
  {
  }

  lemma FoundLeaves(p: Primitives, path: Name, w: World)
    requires Inv(p, path, w) && Settled(w.sys.fs)
    ensures Leaves(p, path, w, [w.book.saved])
  {
    var fs := w.sys.fs;
    LiveInRange(fs);
    InvSavedOk(p, path, w);
    assert fs.Versions() == [fs.live];
    forall c ensures MayHold(fs, path, c) <==> Among(p, w.book.births, [w.book.saved], c) {
      AmongAppended(p, w.book.births, [], w.book.saved, c);
      assert MayHold(fs, path, c) <==> HeldIn(fs, fs.live, path, c);
    }
  }

  /**
    * After a power loss, also in the middle of a save, the application is in a state from which
    * the theorems on runs and on power losses hold again: the invariant is restored, memory and
    * disk agree, and only the save that came back can come back once more.
    */
  lemma RunsGoOn(p: Primitives, path: Name, w: World, e: Session, left: seq<Option<Saved>>)
    requires Sound(p) && Inv(p, path, w) && Leaves(p, path, w, left) && Follows(p, path, w, e)
    ensures var r := Resume(p, path, w, e, left);
            && r.book.saved in LeftAtEnd(p, path, w, e, left)
            && Inv(p, path, r) && Agrees(r) && Leaves(p, path, r, [r.book.saved])
  {
    var end, some := EndOf(p, path, w, e), LeftAtEnd(p, path, w, e, left);
    EndIsAmong(p, path, w, e, left);
    PickIsAmong(p, end.book.births, some, e.found.fs.Read(path));
    FoundInv(p, path, end, e.found, Pick(p, end.book.births, some, e.found.fs.Read(path)));
    FoundLeaves(p, path, Resume(p, path, w, e, left));
  }

  // ---- Any number of power losses ----

  /** Sessions one after the other, each from what was found after the one before. */
  ghost predicate Lives(p: Primitives, path: Name, w: World, left: seq<Option<Saved>>, es: seq<Session>)
    decreases |es|
  {
    es != [] ==>
      && Follows(p, path, w, es[0])
      && var r := Resume(p, path, w, es[0], left); Lives(p, path, r, [r.book.saved], es[1..])
  }

  /** The state after the last of them, and what can come back then. */
  function Live(p: Primitives, path: Name, w: World, left: seq<Option<Saved>>, es: seq<Session>): (World, seq<Option<Saved>>)
    decreases |es|
  {
    if es == [] then (w, left)
    else var r := Resume(p, path, w, es[0], left); Live(p, path, r, [r.book.saved], es[1..])
  }

  lemma {:induction false} AnyNumberOfPowerLosses(p: Primitives, path: Name, w: World, left: seq<Option<Saved>>, es: seq<Session>)
    requires Sound(p) && Inv(p, path, w) && Leaves(p, path, w, left) && Lives(p, path, w, left, es)
    ensures var (r, left') := Live(p, path, w, left, es); Inv(p, path, r) && Leaves(p, path, r, left')
    decreases |es|
  {
    if es != [] {
      var r := Resume(p, path, w, es[0], left);
      RunsGoOn(p, path, w, es[0], left);
      AnyNumberOfPowerLosses(p, path, r, [r.book.saved], es[1..]);
    }
  }

  /**
    * From a first launch, through any number of runs ended by power losses and one more run: the
    * disk holds the last save that was made or came back, unlocking gives exactly its list or the
    * named error, and a further power loss can leave exactly the saves in `LeftIn`.
    */
  lemma LifeOfAVault(p: Primitives, path: Name, s: Sys, es: seq<Session>, ops: seq<Op>, password: string, now: nat, later: nat)
    requires Sound(p) && FirstLaunch(path, s) && DurablyAbsent(path, s.fs) && Lives(p, path, Begin(s), [None], es)
    requires FairRun(p, path, Live(p, path, Begin(s), [None], es).0, ops)
    ensures var (r, left) := Live(p, path, Begin(s), [None], es);
            var w := Run(p, path, r, ops);
            var t := UnlockDone(p, path, LockDone(w.sys, now), password, None, later);
            && SavedOk(p, w.sys.log, w.book.births, w.book.saved)
            && w.sys.fs.Read(path) == Content(p, w.book.births, w.book.saved)
            && (if w.sys.mode.NoVault? then t.1 == Err(VaultNotFound)
                else w.book.saved.Some? && EndedWith(t, ReopenedBook(p, w.book, password)))
            && Leaves(p, path, w, LeftIn(p, path, r, ops, left))
  {
    var (r, left) := Live(p, path, Begin(s), [None], es);
    FirstLaunchInv(p, path, s);
    NothingAtFirst(p, path, s);
    AnyNumberOfPowerLosses(p, path, Begin(s), [None], es);
    RunKeepsInv(p, path, r, ops);
    InvSavedOk(p, path, Run(p, path, r, ops));
    LockThenUnlock(p, path, r, ops, password, now, later);
    PowerLossLeavesExactly(p, path, r, ops, left);
  }

  /**
    * A file found after a power loss opens with the creation password of its vault, and gives
    * exactly the list of the save that wrote it, unless that list has outgrown what can be read.
    */
  lemma FoundFileOpens(p: Primitives, path: Name, w: World, e: Session, left: seq<Option<Saved>>, password: string, now: nat)
    requires Sound(p) && Inv(p, path, w) && Leaves(p, path, w, left) && Follows(p, path, w, e) && e.found.mode.Locked?
    ensures var book := Resume(p, path, w, e, left).book;
            && book.saved.Some? && book.saved.value.vault < |book.births| && book.saved in LeftAtEnd(p, path, w, e, left)
            && var b, es, t := SavedBirth(book), book.saved.value.entries, UnlockDone(p, path, e.found, password, None, now);
               && EndedWith(t, Reopened(b, es, Kek(p, Utf8.Encode(password), b.params)))
               && (b.password == Utf8.Encode(password) && |WriteEntries(es)| <= VaultSize.MAX_READABLE_PAYLOAD ==>
                     t.0.mode == Unlocked(VaultOf(b, es)))
  {
    RunsGoOn(p, path, w, e, left);
    OpensNow(p, path, Resume(p, path, w, e, left), password, now);
  }

  lemma OpensNow(p: Primitives, path: Name, w: World, password: string, now: nat)
    requires Sound(p) && Inv(p, path, w) && w.sys.mode.Locked?
    ensures w.book.saved.value.vault < |w.book.births|
    ensures var b, es, t := SavedBirth(w.book), w.book.saved.value.entries, UnlockDone(p, path, w.sys, password, None, now);
            && EndedWith(t, Reopened(b, es, Kek(p, Utf8.Encode(password), b.params)))
            && (b.password == Utf8.Encode(password) && |WriteEntries(es)| <= VaultSize.MAX_READABLE_PAYLOAD ==>
                  t.0.mode == Unlocked(VaultOf(b, es)))
  {
    var sv, b := w.book.saved.value, SavedBirth(w.book);
    UnlockTriedOutcome(p, path, w.sys, w.book.births, sv.vault, sv.nonce, sv.entries, password);
    OpenOutcome(p, path, w.sys, password, now);
    if b.password == Utf8.Encode(password) {
      ReopenedExactlyWhen(p, w.sys.log, b, sv.entries, password, password);
    }
  }
}
