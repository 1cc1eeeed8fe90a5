/**
  * What holds after every run. A run may start from any state that satisfies the invariant: a first
  * launch does, and so does every state that a run or a power loss leads to.
  */
module RunTheorems {
  import opened Basics
  import opened Crypto
  import opened Vault
  import opened UnlockedVaults
  import opened VaultTheorems
  import opened SectionBinding
  import opened Storage
  import opened AppModel
  import opened Runs
  import opened Success
  import VaultSize
  import Utf8

  ghost predicate FirstLaunch(path: Name, s: Sys) {
    s.fs.Valid() && s.fs.Read(path) == None && s.log == map[] && s.mode == NoVault
  }

  function Begin(s: Sys): World {
    World(s, Book([], None, false))
  }

  /** A first launch satisfies the invariant, with memory and disk in agreement: the theorems hold of every run from there. */
  lemma FirstLaunchInv(p: Primitives, path: Name, s: Sys)
    requires Sound(p) && FirstLaunch(path, s)
    ensures Inv(p, path, Begin(s)) && Agrees(Begin(s))
  {
    EmptyIsHonest(p);
  }

  // ---- The disk ----

  /** The vault that was saved last. */
  function SavedBirth(book: Book): Birth
    requires book.saved.Some? && book.saved.value.vault < |book.births|
  {
    book.births[book.saved.value.vault]
  }

  function StoredFile(p: Primitives, book: Book): VaultFile
    requires book.saved.Some? && book.saved.value.vault < |book.births|
  {
    FileOf(p, SavedBirth(book), book.saved.value.nonce, book.saved.value.entries)
  }

  /**
    * The plaintext on disk is the entry list at the last successful save, `[]` after creation;
    * before the first one there is no file.
    */
  lemma DiskHoldsLastSave(p: Primitives, path: Name, w0: World, ops: seq<Op>)
    requires Sound(p) && Inv(p, path, w0) && FairRun(p, path, w0, ops)
    ensures var w := Run(p, path, w0, ops);
            match w.book.saved
            case None => w.sys.fs.Read(path) == None && w.sys.mode == NoVault
            case Some(sv) =>
              && sv.vault < |w.book.births|
              && var f, b := StoredFile(p, w.book), SavedBirth(w.book);
                 && w.sys.fs.Read(path) == Some(ToBytes(f))
                 && ValidList(sv.entries)
                 && OpenSections(w.sys.log, f, b.kek) == Ok((b.vaultKey, WriteEntries(sv.entries)))
  {
    RunKeepsInv(p, path, w0, ops);
    var w := Run(p, path, w0, ops);
    if w.book.saved.Some? {
      var sv := w.book.saved.value;
      SavedSectionsOpen(p, w.sys.log, w.book.births, sv.vault, sv.nonce, sv.entries);
    }
  }

  lemma SavedSectionsOpen(p: Primitives, log: Log, births: seq<Birth>, i: nat, nonce: Bytes, es: seq<Entry>)
    requires Sound(p) && Honest(p, log, births) && i < |births| && Sealed(p, log, births[i], nonce, es)
    ensures OpenSections(log, FileOf(p, births[i], nonce, es), births[i].kek) == Ok((births[i].vaultKey, WriteEntries(es)))
  {
    var f := FileOf(p, births[i], nonce, es);
    SavedFileIsValid(p, log, births[i], nonce, es);
    KekLength(p, births[i].password, births[i].params);
    OpenedSections(p, log, births, f, births[i].kek, i);
  }

  lemma BirthsGrow(p: Primitives, path: Name, w: World, op: Op)
    ensures w.book.births <= BirthsNow(p, path, w, op)
  {
  }

  /** A call that fails, and any call that does not report a save, leaves the stored bytes alone. */
  lemma OnlySavesChangeTheDisk(p: Primitives, path: Name, w0: World, ops: seq<Op>, op: Op)
    requires Sound(p) && Inv(p, path, w0) && FairRun(p, path, w0, ops)
    requires Fair(path, Run(p, path, w0, ops).book.births, op)
    ensures var t := Run(p, path, w0, ops).sys;
            var (t', a) := Do(p, path, t, op);
            && (a.Failed() ==> !Wrote(t, op, a))
            && (!Wrote(t, op, a) ==> t'.fs.Read(path) == t.fs.Read(path))
  {
    var w := Run(p, path, w0, ops);
    RunKeepsInv(p, path, w0, ops);
    StepKeepsInv(p, path, w, op);
    SameSavedSameDisk(p, path, w, op);
    FailedWritesNothing(w.sys, op, Do(p, path, w.sys, op).1);
  }

  lemma FailedWritesNothing(s: Sys, op: Op, a: Answer)
    ensures a.Failed() ==> !Wrote(s, op, a)
  {
  }

  lemma SameSavedSameDisk(p: Primitives, path: Name, w: World, op: Op)
    requires Inv(p, path, w) && Inv(p, path, Step(p, path, w, op))
    ensures var (t', a) := Do(p, path, w.sys, op);
            !Wrote(w.sys, op, a) ==> t'.fs.Read(path) == w.sys.fs.Read(path)
  {
    BirthsGrow(p, path, w, op);
  }

  // ---- The header ----

  /** Creation will take the place of the stored vault: the look at the file fails, and nothing else. */
  predicate Overwrites(p: Primitives, path: Name, s: Sys, op: Op) {
    && op.CreateVault? && s.fs.Read(path).Some? && op.lookFails
    && CanCreate(p, s, op.password, op.confirm, op.draws, op.io)
  }

  predicate NeverOverwrites(p: Primitives, path: Name, w: World, ops: seq<Op>)
    decreases |ops|
  {
    ops != [] ==> !Overwrites(p, path, w.sys, ops[0]) && NeverOverwrites(p, path, Step(p, path, w, ops[0]), ops[1..])
  }

  lemma CreateTakesOver(p: Primitives, path: Name, w: World, op: Op)
    requires Sound(p) && Inv(p, path, w) && op.CreateVault? && op.draws.Valid() && w.book.saved.Some?
    ensures Step(p, path, w, op).book.saved == if Overwrites(p, path, w.sys, op) then SavedNow(w, w.sys, op) else w.book.saved
  {
    CreationSucceedsExactlyWhen(p, path, w.sys, op.password, op.confirm, op.draws, op.lookFails, op.io, op.now);
  }

  lemma OthersKeepVault(p: Primitives, path: Name, w: World, op: Op)
    requires !op.CreateVault? && w.book.saved.Some?
    ensures var saved := Step(p, path, w, op).book.saved; saved.Some? && saved.value.vault == w.book.saved.value.vault
  {
  }

  /** The vault of the file is the same one, or the one just created. */
  lemma StepKeepsVault(p: Primitives, path: Name, w: World, op: Op)
    requires Sound(p) && Inv(p, path, w) && Fair(path, w.book.births, op) && w.book.saved.Some?
    ensures var w' := Step(p, path, w, op);
            && w.book.births <= w'.book.births
            && w'.book.saved.Some?
            && w'.book.saved.value.vault == if Overwrites(p, path, w.sys, op) then |w.book.births| else w.book.saved.value.vault
  {
    BirthsGrow(p, path, w, op);
    if op.CreateVault? {
      CreateTakesOver(p, path, w, op);
    } else {
      OthersKeepVault(p, path, w, op);
    }
  }

  lemma {:induction false} RunKeepsVault(p: Primitives, path: Name, w: World, ops: seq<Op>)
    requires Sound(p) && Inv(p, path, w) && FairRun(p, path, w, ops) && w.book.saved.Some?
    ensures var w' := Run(p, path, w, ops);
            && w.book.births <= w'.book.births
            && w'.book.saved.Some?
            && w'.book.saved.value.vault >= w.book.saved.value.vault
            && (w'.book.saved.value.vault == w.book.saved.value.vault <==> NeverOverwrites(p, path, w, ops))
    decreases |ops|
  {
    if ops != [] {
      StepKeepsInv(p, path, w, ops[0]);
      StepKeepsVault(p, path, w, ops[0]);
      RunKeepsVault(p, path, Step(p, path, w, ops[0]), ops[1..]);
    }
  }

  lemma {:induction false} RunConcat(p: Primitives, path: Name, w: World, before: seq<Op>, after: seq<Op>)
    ensures Run(p, path, w, before + after) == Run(p, path, Run(p, path, w, before), after)
    ensures FairRun(p, path, w, before + after) <==>
              FairRun(p, path, w, before) && FairRun(p, path, Run(p, path, w, before), after)
    decreases |before|
  {
    if before == [] {
      assert before + after == after;
    } else {
      assert (before + after)[1..] == before[1..] + after;
      RunConcat(p, path, Step(p, path, w, before[0]), before[1..], after);
    }
  }

  /**
    * Once a vault is stored, every later file carries the same version, KDF section and wrapped
    * key, exactly as long as no creation overwrites it; from then on the wrapped key is another.
    */
  lemma HeaderIsForever(p: Primitives, path: Name, w: World, ops: seq<Op>)
    requires Sound(p) && Inv(p, path, w) && FairRun(p, path, w, ops) && w.book.saved.Some?
    ensures var w' := Run(p, path, w, ops);
            && w.book.saved.value.vault < |w.book.births|
            && w'.book.saved.Some? && w'.book.saved.value.vault < |w'.book.births|
            && var f, f' := StoredFile(p, w.book), StoredFile(p, w'.book);
               && w.sys.fs.Read(path) == Some(ToBytes(f)) && w'.sys.fs.Read(path) == Some(ToBytes(f'))
               && f.version == f'.version
               && (NeverOverwrites(p, path, w, ops) ==> f.kdf == f'.kdf && f.wrappedKey == f'.wrappedKey)
               && (!NeverOverwrites(p, path, w, ops) ==> f.wrappedKey != f'.wrappedKey)
  {
    var w' := Run(p, path, w, ops);
    RunKeepsInv(p, path, w, ops);
    RunKeepsVault(p, path, w, ops);
    SameWrappedKey(p, w'.sys.log, w'.book.births, w.book.saved.value.vault, w'.book.saved.value.vault);
  }

  lemma SameWrappedKey(p: Primitives, log: Log, births: seq<Birth>, i: nat, j: nat)
    requires Honest(p, log, births) && DistinctNonces(births) && i < |births| && j < |births|
    ensures births[i].Wrapped() == births[j].Wrapped() <==> i == j
  {
    assert Recorded(p, log, births[i]) && Recorded(p, log, births[j]);
    if births[i].Wrapped() == births[j].Wrapped() {
      OnlyOneVault(births, i, j);
    }
  }

  // ---- Lock, then unlock ----

  /** Unlocking ended with `back`. */
  predicate EndedWith(t: (Sys, Result<Unit>), back: Result<VaultState>) {
    match back
    case Ok(v) => t.1 == Ok(Unit) && t.0.mode == Unlocked(v)
    case Err(e) => t.1 == Err(e) && t.0.mode == Locked
  }

  lemma OpenOutcome(p: Primitives, path: Name, s: Sys, password: string, now: nat)
    requires s.mode.Locked?
    ensures EndedWith(UnlockDone(p, path, s, password, None, now), UnlockTried(p, path, s, password, None))
  {
  }

  function ReopenedBook(p: Primitives, book: Book, password: string): Result<VaultState>
    requires book.saved.Some? && book.saved.value.vault < |book.births|
  {
    var b := SavedBirth(book);
    Reopened(b, book.saved.value.entries, Kek(p, Utf8.Encode(password), b.params))
  }

  lemma ReopenedIs(p: Primitives, path: Name, w: World, password: string, now: nat, later: nat)
    requires Sound(p) && Inv(p, path, w) && !w.sys.mode.NoVault?
    ensures EndedWith(UnlockDone(p, path, LockDone(w.sys, now), password, None, later), ReopenedBook(p, w.book, password))
  {
    var sv, t := w.book.saved.value, LockDone(w.sys, now);
    UnlockTriedOutcome(p, path, t, w.book.births, sv.vault, sv.nonce, sv.entries, password);
    OpenOutcome(p, path, t, password, later);
  }

  /**
    * After any run that does not end without a vault in sight, locking and unlocking gives
    * exactly the list that was saved last, if the password derives the key-encryption key of the
    * vault and the payload is within the readable size; otherwise it fails with the error that
    * `Reopened` names. Without a vault in sight it is `VaultNotFound`, file or no file.
    */
  lemma LockThenUnlock(p: Primitives, path: Name, w0: World, ops: seq<Op>, password: string, now: nat, later: nat)
    requires Sound(p) && Inv(p, path, w0) && FairRun(p, path, w0, ops)
    ensures var w := Run(p, path, w0, ops);
            var t := UnlockDone(p, path, LockDone(w.sys, now), password, None, later);
            if w.sys.mode.NoVault? then t.1 == Err(VaultNotFound) && t.0.mode == NoVault && t.0.fs == w.sys.fs
            else
              && w.book.saved.Some? && w.book.saved.value.vault < |w.book.births|
              && EndedWith(t, ReopenedBook(p, w.book, password))
  {
    RunKeepsInv(p, path, w0, ops);
    var w := Run(p, path, w0, ops);
    if !w.sys.mode.NoVault? {
      ReopenedIs(p, path, w, password, now, later);
    }
  }

  /** There is a vault on disk, and the application does not know of it. */
  predicate Hidden(path: Name, s: Sys) {
    s.mode.NoVault? && s.fs.Read(path).Some?
  }

  /**
    * A stored vault is hidden exactly from a restart that fails to look at the file until the
    * next restart that does not, or a creation that goes through.
    */
  lemma HiddenExactlyWhen(p: Primitives, path: Name, w0: World, ops: seq<Op>, op: Op)
    requires Sound(p) && Inv(p, path, w0) && FairRun(p, path, w0, ops)
    requires Fair(path, Run(p, path, w0, ops).book.births, op)
    ensures var t := Run(p, path, w0, ops).sys;
            Hidden(path, Do(p, path, t, op).0) <==>
              if op.Restart? then op.lookFails && t.fs.Read(path).Some? else Hidden(path, t) && !Overwrites(p, path, t, op)
  {
    var w := Run(p, path, w0, ops);
    RunKeepsInv(p, path, w0, ops);
    HiddenStep(p, path, w, op);
  }

  lemma HiddenStep(p: Primitives, path: Name, w: World, op: Op)
    requires Sound(p) && Inv(p, path, w) && Fair(path, w.book.births, op)
    ensures Hidden(path, Step(p, path, w, op).sys) <==>
              if op.Restart? then op.lookFails && w.sys.fs.Read(path).Some? else Hidden(path, w.sys) && !Overwrites(p, path, w.sys, op)
  {
    if op.CreateVault? {
      HiddenCreate(p, path, w, op);
    } else if op.MayWrite() {
      HiddenWrite(p, path, w, op);
    } else {
      HiddenOther(p, path, w, op);
    }
  }

  lemma HiddenWrite(p: Primitives, path: Name, w: World, op: Op)
    requires op.MayWrite() && !op.CreateVault?
    ensures Hidden(path, Step(p, path, w, op).sys) <==> Hidden(path, w.sys)
  {
    WritesNeedAnOpenVault(p, path, w, op);
  }

  lemma HiddenOther(p: Primitives, path: Name, w: World, op: Op)
    requires !op.MayWrite()
    ensures Hidden(path, Step(p, path, w, op).sys) <==>
              if op.Restart? then op.lookFails && w.sys.fs.Read(path).Some? else Hidden(path, w.sys)
  {
    if op.OpenVault? {
      OpenLedger(p, path, w, op);
    } else {
      OtherLedger(p, path, w, op);
    }
  }

  lemma HiddenCreate(p: Primitives, path: Name, w: World, op: Op)
    requires Sound(p) && Inv(p, path, w) && Fair(path, w.book.births, op) && op.CreateVault?
    ensures Hidden(path, Step(p, path, w, op).sys) <==> Hidden(path, w.sys) && !Overwrites(p, path, w.sys, op)
  {
    CreateOutcome(p, path, w.sys, op.password, op.confirm, op.draws, op.lookFails, op.io, op.now);
  }

  lemma WritesNeedAnOpenVault(p: Primitives, path: Name, w: World, op: Op)
    requires op.MayWrite() && !op.CreateVault?
    ensures var s' := Step(p, path, w, op).sys;
            if w.sys.mode.Unlocked? then s'.mode.Unlocked? else s'.mode == w.sys.mode && s'.fs == w.sys.fs
  {
  }

  lemma CreateOutcome(p: Primitives, path: Name, s: Sys, password: string, confirm: string, draws: CreateDraws, lookFails: bool, io: SaveIo, now: nat)
    requires Sound(p) && draws.Valid() && s.fs.Valid() && io.Tmp() != path
    ensures var (s', r) := Created(p, path, s, password, confirm, draws, lookFails, io, now);
            && (r.Ok? <==> !VaultExists(s.fs, path, lookFails) && CanCreate(p, s, password, confirm, draws, io))
            && (r.Ok? ==> New(p, s.log, password, draws).1.Ok? && s'.mode.Unlocked?
                          && s'.fs.Read(path) == Some(ToBytes(New(p, s.log, password, draws).1.value.0)))
            && (r.Err? ==> s'.mode == s.mode && s'.fs.Read(path) == s.fs.Read(path))
  {
    CreationSucceedsExactlyWhen(p, path, s, password, confirm, draws, lookFails, io, now);
    var made := New(p, s.log, password, draws).1;
    if made.Ok? {
      AtomicWriteOutcome(s.fs, path, io.Tmp(), ToBytes(made.value.0), io.faults);
    }
  }

  /**
    * "Refuses to overwrite an existing vault" holds exactly as long as the look at the file
    * succeeds: with a file at the path, creation goes through exactly when that look fails and
    * nothing else does, and then the file of the new, empty vault takes the place of the old one.
    */
  lemma CreateOverwritesExactlyWhen(p: Primitives, path: Name, s: Sys, password: string, confirm: string, draws: CreateDraws, lookFails: bool, io: SaveIo, now: nat)
    requires Sound(p) && draws.Valid() && s.fs.Valid() && io.Tmp() != path && s.fs.Read(path).Some?
    ensures var (s', r) := Created(p, path, s, password, confirm, draws, lookFails, io, now);
            && (r.Ok? <==> lookFails && CanCreate(p, s, password, confirm, draws, io))
            && (r.Ok? ==> New(p, s.log, password, draws).1.Ok?
                          && s'.fs.Read(path) == Some(ToBytes(New(p, s.log, password, draws).1.value.0)))
            && (r.Err? ==> s'.fs.Read(path) == s.fs.Read(path))
  {
    CreateOutcome(p, path, s, password, confirm, draws, lookFails, io, now);
  }

  lemma CreatedBy(p: Primitives, path: Name, w: World, op: Op)
    requires Sound(p) && Inv(p, path, w) && Fair(path, w.book.births, op)
    requires op.CreateVault? && Do(p, path, w.sys, op).1 == Done(Ok(Unit))
    ensures var w' := Step(p, path, w, op);
            && w'.book.saved.Some? && w'.book.saved.value.vault < |w'.book.births|
            && SavedBirth(w'.book).password == Utf8.Encode(op.password)
  {
    NewRecord(p, w.sys.log, w.book.births, op.password, op.draws);
  }

  /** For a vault that was made with `creation`. */
  lemma ReopenedExactlyWhen(p: Primitives, log: Log, b: Birth, es: seq<Entry>, creation: string, password: string)
    requires Recorded(p, log, b) && b.password == Utf8.Encode(creation)
    ensures var back := Reopened(b, es, Kek(p, Utf8.Encode(password), b.params));
            back == Ok(VaultOf(b, es)) <==>
              && |WriteEntries(es)| <= VaultSize.MAX_READABLE_PAYLOAD
              && Kek(p, Utf8.Encode(password), b.params) == Kek(p, Utf8.Encode(creation), b.params)
  {
  }

  lemma OtherVaultOpens(p: Primitives, log: Log, births: seq<Birth>, i: nat, j: nat, es: seq<Entry>, kek: Result<Bytes>)
    requires Honest(p, log, births) && DistinctNonces(births) && i < |births| && j < |births| && i != j
    ensures Reopened(births[j], es, kek) != Ok(VaultOf(births[i], es))
  {
    SameWrappedKey(p, log, births, i, j);
  }

  /**
    * The creation password opens the vault again, with exactly the list that was saved last,
    * and so does every password from which the same key is derived. It does exactly if no later
    * creation has overwritten the file, the application sees it, and the list has not outgrown
    * what can be read back.
    */
  lemma CreationPasswordOpens(p: Primitives, path: Name, w: World, create: Op, ops: seq<Op>, password: string, now: nat, later: nat)
    requires Sound(p) && Inv(p, path, w) && Fair(path, w.book.births, create) && FairRun(p, path, Step(p, path, w, create), ops)
    requires create.CreateVault? && Do(p, path, w.sys, create).1 == Done(Ok(Unit))
    ensures var w1 := Step(p, path, w, create);
            var w2 := Run(p, path, w1, ops);
            var t := UnlockDone(p, path, LockDone(w2.sys, now), password, None, later);
            && w1.book.saved.Some? && w1.book.saved.value.vault < |w1.book.births| && w2.book.saved.Some?
            && var b, es := SavedBirth(w1.book), w2.book.saved.value.entries;
               t.0.mode == Unlocked(VaultOf(b, es)) <==>
                 && NeverOverwrites(p, path, w1, ops)
                 && !w2.sys.mode.NoVault?
                 && |WriteEntries(es)| <= VaultSize.MAX_READABLE_PAYLOAD
                 && Kek(p, Utf8.Encode(password), b.params) == Kek(p, Utf8.Encode(create.password), b.params)
  {
    CreatedBy(p, path, w, create);
    StepKeepsInv(p, path, w, create);
    OpensAgain(p, path, Step(p, path, w, create), ops, create.password, password, now, later);
  }

  lemma OpensAgain(p: Primitives, path: Name, w0: World, after: seq<Op>, creation: string, password: string, now: nat, later: nat)
    requires Sound(p) && Inv(p, path, w0) && FairRun(p, path, w0, after) && w0.book.saved.Some?
    requires SavedBirth(w0.book).password == Utf8.Encode(creation)
    ensures var w := Run(p, path, w0, after);
            var t := UnlockDone(p, path, LockDone(w.sys, now), password, None, later);
            && w.book.saved.Some?
            && var b, es := SavedBirth(w0.book), w.book.saved.value.entries;
               t.0.mode == Unlocked(VaultOf(b, es)) <==>
                 && NeverOverwrites(p, path, w0, after)
                 && !w.sys.mode.NoVault?
                 && |WriteEntries(es)| <= VaultSize.MAX_READABLE_PAYLOAD
                 && Kek(p, Utf8.Encode(password), b.params) == Kek(p, Utf8.Encode(creation), b.params)
  {
    var w := Run(p, path, w0, after);
    RunKeepsInv(p, path, w0, after);
    RunKeepsVault(p, path, w0, after);
    if !w.sys.mode.NoVault? {
      ReopenedIs(p, path, w, password, now, later);
      VaultThatOpens(p, w, w0.book.saved.value.vault, creation, password);
    }
  }

  /** What opens is vault `i` exactly if it is the stored one, can be read, and the key is right. */
  lemma VaultThatOpens(p: Primitives, w: World, i: nat, creation: string, password: string)
    requires Honest(p, w.sys.log, w.book.births) && DistinctNonces(w.book.births)
    requires w.book.saved.Some? && w.book.saved.value.vault < |w.book.births| && i < |w.book.births|
    requires w.book.births[i].password == Utf8.Encode(creation)
    ensures var b, es := w.book.births[i], w.book.saved.value.entries;
            ReopenedBook(p, w.book, password) == Ok(VaultOf(b, es)) <==>
              && w.book.saved.value.vault == i
              && |WriteEntries(es)| <= VaultSize.MAX_READABLE_PAYLOAD
              && Kek(p, Utf8.Encode(password), b.params) == Kek(p, Utf8.Encode(creation), b.params)
  {
    var j, es := w.book.saved.value.vault, w.book.saved.value.entries;
    if i == j {
      ReopenedExactlyWhen(p, w.sys.log, w.book.births[i], es, creation, password);
    } else {
      OtherVaultOpens(p, w.sys.log, w.book.births, i, j, es, Kek(p, Utf8.Encode(password), w.book.births[j].params));
    }
  }

  /** The vault is closed and its file has outgrown what can be read back. */
  predicate Shut(w: World) {
    && !w.sys.mode.Unlocked? && w.book.saved.Some?
    && |WriteEntries(w.book.saved.value.entries)| > VaultSize.MAX_READABLE_PAYLOAD
  }

  lemma ShutOpen(p: Primitives, path: Name, w: World, op: Op)
    requires Sound(p) && Inv(p, path, w) && Shut(w) && op.OpenVault?
    ensures !Step(p, path, w, op).sys.mode.Unlocked? && Step(p, path, w, op).book.saved == w.book.saved
  {
    OpenLedger(p, path, w, op);
    if w.sys.mode.Locked? {
      var sv := w.book.saved.value;
      UnlockTriedOutcome(p, path, w.sys, w.book.births, sv.vault, sv.nonce, sv.entries, op.password);
      FaultyUnlock(p, path, w.sys, op.password, op.fault);
    }
  }

  lemma ShutCreate(p: Primitives, path: Name, w: World, op: Op)
    requires Sound(p) && Inv(p, path, w) && Fair(path, w.book.births, op) && Shut(w) && op.CreateVault? && !Overwrites(p, path, w.sys, op)
    ensures !Step(p, path, w, op).sys.mode.Unlocked? && Step(p, path, w, op).book.saved == w.book.saved
  {
    CreateOutcome(p, path, w.sys, op.password, op.confirm, op.draws, op.lookFails, op.io, op.now);
  }

  lemma ShutWrite(p: Primitives, path: Name, w: World, op: Op)
    requires Shut(w) && op.MayWrite() && !op.CreateVault?
    ensures !Step(p, path, w, op).sys.mode.Unlocked? && Step(p, path, w, op).book.saved == w.book.saved
  {
    WritesNeedAnOpenVault(p, path, w, op);
  }

  lemma ShutStep(p: Primitives, path: Name, w: World, op: Op)
    requires Sound(p) && Inv(p, path, w) && Fair(path, w.book.births, op) && Shut(w) && !Overwrites(p, path, w.sys, op)
    ensures !Step(p, path, w, op).sys.mode.Unlocked? && Step(p, path, w, op).book.saved == w.book.saved
  {
    if op.CreateVault? {
      ShutCreate(p, path, w, op);
    } else if op.MayWrite() {
      ShutWrite(p, path, w, op);
    } else if op.OpenVault? {
      ShutOpen(p, path, w, op);
    } else {
      OtherLedger(p, path, w, op);
    }
  }

  /** Such a vault never opens again and its file never changes, whatever is tried, unless a creation overwrites it. */
  lemma {:induction false} ShutForGood(p: Primitives, path: Name, w: World, ops: seq<Op>)
    requires Sound(p) && Inv(p, path, w) && FairRun(p, path, w, ops) && Shut(w) && NeverOverwrites(p, path, w, ops)
    ensures var w' := Run(p, path, w, ops); !w'.sys.mode.Unlocked? && w'.sys.fs.Read(path) == w.sys.fs.Read(path)
    decreases |ops|
  {
    if ops != [] {
      var w1 := Step(p, path, w, ops[0]);
      StepKeepsInv(p, path, w, ops[0]);
      ShutStep(p, path, w, ops[0]);
      BirthsGrow(p, path, w, ops[0]);
      SameSavedSameFile(p, path, w, w1);
      ShutForGood(p, path, w1, ops[1..]);
    }
  }

  lemma SameSavedSameFile(p: Primitives, path: Name, w: World, w': World)
    requires Inv(p, path, w) && Inv(p, path, w') && w.book.saved == w'.book.saved && w.book.births <= w'.book.births
    ensures w'.sys.fs.Read(path) == w.sys.fs.Read(path)
  {
  }

  // ---- Memory ----

  /** The list in memory after an entry operation, whether or not it is saved. */
  function ListAfter(es: seq<Entry>, op: Op): seq<Entry>
    requires op.IsEntryOp()
  {
    match op
    case AddEntry(e, _) => if Added(es, e).Ok? then es + [e] else es
    case UpdateEntry(e, _) => if ValidateEntry(e).Ok? then UpdatedFirst(es, e) else es
    case RemoveEntry(id, _) => Retained(es, id)
  }

  /** The entry operation will change the list in memory and not be able to save it. */
  predicate FailsAfterChange(s: Sys, op: Op) {
    && op.IsEntryOp() && s.mode.Unlocked?
    && var es := s.mode.vault.entries;
       ListAfter(es, op) != es && !CanSave(s, ListAfter(es, op), op.io)
  }

  /** The list in memory, if there is one, is the list on disk. */
  predicate Agrees(w: World) {
    w.sys.mode.Unlocked? ==> w.book.saved.Some? && w.sys.mode.vault.entries == w.book.saved.value.entries
  }

  /** In every reachable state the list in memory is valid, and the list on disk unless an entry operation has changed it and failed since. */
  lemma MemoryAgreesUntilAFailure(p: Primitives, path: Name, w0: World, ops: seq<Op>)
    requires Sound(p) && Inv(p, path, w0) && FairRun(p, path, w0, ops)
    ensures var w := Run(p, path, w0, ops);
            && (w.sys.mode.Unlocked? ==> ValidList(w.sys.mode.vault.entries))
            && (!w.book.stale ==> Agrees(w))
  {
    RunKeepsInv(p, path, w0, ops);
  }

  lemma ListChangedBy(p: Primitives, path: Name, s: Sys, op: Op)
    requires op.IsEntryOp() && s.mode.Unlocked?
    ensures var es := ListAfter(s.mode.vault.entries, op);
            var (s', a) := Do(p, path, s, op);
            var (t, r) := SaveDone(p, path, WithEntries(s, es), op.io);
            if es == s.mode.vault.entries then s'.mode == s.mode else s' == t && a == ChangeAnswer(op, r)
  {
    var es := s.mode.vault.entries;
    match op
    case AddEntry(e, io) =>
      if Added(es, e).Ok? {
        AddOutcome(p, path, s, e, io);
      }
    case UpdateEntry(e, io) =>
      UpdateOutcome(p, path, s, e, io);
      if e.id !in Ids(es) {
        assert forall i :: 0 <= i < |es| ==> es[i].id == Ids(es)[i];
        UpdatedFirstNowhere(es, e);
      }
    case RemoveEntry(id, io) =>
      RemoveOutcome(p, path, s, id, io);
      if id !in Ids(es) {
        assert forall i :: 0 <= i < |es| ==> es[i].id == Ids(es)[i];
        RetainedNowhere(es, id);
      }
  }

  /** An entry operation does nothing, or changes the list and saves it. */
  lemma EntryOpIs(p: Primitives, path: Name, s: Sys, op: Op)
    requires op.IsEntryOp()
    ensures var (s', a) := Do(p, path, s, op);
            || (s' == s && !Wrote(s, op, a))
            || (s.mode.Unlocked?
                && var (t, r) := SaveDone(p, path, WithEntries(s, ListAfter(s.mode.vault.entries, op)), op.io);
                   s' == t && a == ChangeAnswer(op, r))
  {
    if s.mode.Unlocked? {
      match op
      case AddEntry(e, io) =>
        if Added(s.mode.vault.entries, e).Ok? {
          AddOutcome(p, path, s, e, io);
        }
      case UpdateEntry(e, io) => UpdateOutcome(p, path, s, e, io);
      case RemoveEntry(id, io) => RemoveOutcome(p, path, s, id, io);
    }
  }

  lemma ListAfterIsValid(es: seq<Entry>, op: Op)
    requires op.IsEntryOp() && ValidList(es)
    ensures ValidList(ListAfter(es, op))
  {
    match op
    case AddEntry(e, _) =>
      if Added(es, e).Ok? {
        AddKeepsValid(es, e);
      }
    case UpdateEntry(e, _) =>
      if ValidateEntry(e).Ok? {
        UpdateKeepsValid(es, e);
      }
    case RemoveEntry(id, _) => RemoveKeepsValid(es, id);
  }

  /** An entry operation on an open vault: what is in memory, and what the ledger says. */
  lemma EntryOpOutcome(p: Primitives, path: Name, w: World, op: Op)
    requires Sound(p) && Inv(p, path, w) && op.IsEntryOp() && w.sys.mode.Unlocked?
    ensures var w', es := Step(p, path, w, op), ListAfter(w.sys.mode.vault.entries, op);
            && w'.sys.mode == WithEntries(w.sys, es).mode
            && (FailsAfterChange(w.sys, op) ==> Do(p, path, w.sys, op).1.Failed() && w'.book == w.book.(stale := true))
            && (!FailsAfterChange(w.sys, op) && es != w.sys.mode.vault.entries ==> w'.book.saved.value.entries == es)
  {
    var es := ListAfter(w.sys.mode.vault.entries, op);
    assert Recorded(p, w.sys.log, SavedBirth(w.book));
    ListChangedBy(p, path, w.sys, op);
    if es != w.sys.mode.vault.entries {
      var (s', r) := SaveDone(p, path, WithEntries(w.sys, es), op.io);
      SaveOfChange(p, path, w.sys, es, op.io);
      ChangingLedger(p, path, w, op, s', r);
    }
  }

  lemma SaveOfChange(p: Primitives, path: Name, s: Sys, es: seq<Entry>, io: SaveIo)
    requires s.mode.Unlocked? && |s.mode.vault.vaultKey| == KEY_LEN
    ensures var (s', r) := SaveDone(p, path, WithEntries(s, es), io);
            (r.Ok? <==> CanSave(s, es, io)) && s'.mode == WithEntries(s, es).mode
  {
    SaveSucceedsExactlyWhen(p, path, WithEntries(s, es), io);
  }

  lemma UnstaleInv(p: Primitives, path: Name, w: World)
    requires Inv(p, path, w) && Agrees(w)
    ensures Inv(p, path, World(w.sys, w.book.(stale := false)))
  {
  }

  /** The flag of the ledger influences nothing but itself. */
  lemma FlagIsPassive(p: Primitives, path: Name, w: World, op: Op)
    ensures var w', w0' := Step(p, path, w, op), Step(p, path, World(w.sys, w.book.(stale := false)), op);
            && w'.sys == w0'.sys && w'.book.saved == w0'.book.saved
            && (w0'.book.stale ==> op.IsEntryOp() && w'.sys.mode != w.sys.mode)
  {
  }

  lemma EntryOpAgrees(p: Primitives, path: Name, w: World, op: Op)
    requires Sound(p) && Inv(p, path, w) && Agrees(w) && op.IsEntryOp() && w.sys.mode.Unlocked?
    ensures Agrees(Step(p, path, w, op)) <==> !FailsAfterChange(w.sys, op)
  {
    EntryOpOutcome(p, path, w, op);
    SilentLedger(p, path, w, op);
  }

  lemma OtherCallAgrees(p: Primitives, path: Name, w: World, op: Op)
    requires Sound(p) && Inv(p, path, w) && Fair(path, w.book.births, op) && Agrees(w)
    requires !op.IsEntryOp() || !w.sys.mode.Unlocked?
    ensures Agrees(Step(p, path, w, op))
  {
    var w0 := World(w.sys, w.book.(stale := false));
    UnstaleInv(p, path, w);
    StepKeepsInv(p, path, w0, op);
    FlagIsPassive(p, path, w, op);
    if op.IsEntryOp() {
      WritesNeedAnOpenVault(p, path, w, op);
    }
  }

  /** From memory that agrees with the disk, one call leads to memory that does, exactly unless it changes the list and cannot save it. */
  lemma AgreesAfterStep(p: Primitives, path: Name, w: World, op: Op)
    requires Sound(p) && Inv(p, path, w) && Fair(path, w.book.births, op) && Agrees(w)
    ensures Agrees(Step(p, path, w, op)) <==> !FailsAfterChange(w.sys, op)
  {
    if op.IsEntryOp() && w.sys.mode.Unlocked? {
      EntryOpAgrees(p, path, w, op);
    } else {
      OtherCallAgrees(p, path, w, op);
    }
  }

  /** What is not written is not in the ledger, and what is written is what is in memory. */
  lemma SilentLedger(p: Primitives, path: Name, w: World, op: Op)
    requires op.IsEntryOp() && w.sys.mode.Unlocked? && w.book.saved.Some?
    ensures var w' := Step(p, path, w, op);
            || w'.book.saved == w.book.saved
            || (w'.book.saved.Some? && w'.sys.mode.Unlocked? && w'.book.saved.value.entries == w'.sys.mode.vault.entries)
  {
  }

  predicate AlwaysAgrees(p: Primitives, path: Name, w: World, ops: seq<Op>)
    decreases |ops|
  {
    Agrees(w) && (ops != [] ==> AlwaysAgrees(p, path, Step(p, path, w, ops[0]), ops[1..]))
  }

  predicate EveryChangeIsSaved(p: Primitives, path: Name, w: World, ops: seq<Op>)
    decreases |ops|
  {
    ops != [] ==> !FailsAfterChange(w.sys, ops[0]) && EveryChangeIsSaved(p, path, Step(p, path, w, ops[0]), ops[1..])
  }

  lemma {:induction false} AgreesFrom(p: Primitives, path: Name, w: World, ops: seq<Op>)
    requires Sound(p) && Inv(p, path, w) && FairRun(p, path, w, ops) && Agrees(w)
    ensures AlwaysAgrees(p, path, w, ops) <==> EveryChangeIsSaved(p, path, w, ops)
    decreases |ops|
  {
    if ops != [] {
      StepKeepsInv(p, path, w, ops[0]);
      AgreesAfterStep(p, path, w, ops[0]);
      var w1 := Step(p, path, w, ops[0]);
      if Agrees(w1) {
        AgreesFrom(p, path, w1, ops[1..]);
      }
    }
  }

  /** Memory and disk agree at every moment of a run exactly when none of its entry operations changes the list and cannot save it. */
  lemma MemoryAgreesExactlyWhen(p: Primitives, path: Name, w0: World, ops: seq<Op>)
    requires Sound(p) && Inv(p, path, w0) && Agrees(w0) && FairRun(p, path, w0, ops)
    ensures AlwaysAgrees(p, path, w0, ops) <==> EveryChangeIsSaved(p, path, w0, ops)
  {
    AgreesFrom(p, path, w0, ops);
  }

  /**
    * An entry that cannot be added, updated or removed on disk is so in memory nevertheless: the
    * call fails, the disk stays, and locking and unlocking gives the list as it was before.
    */
  lemma FailedSaveIsForgotten(p: Primitives, path: Name, w0: World, ops: seq<Op>, op: Op, password: string, now: nat, later: nat)
    requires Sound(p) && Inv(p, path, w0) && FairRun(p, path, w0, ops)
    requires var w := Run(p, path, w0, ops);
             Fair(path, w.book.births, op) && Agrees(w) && FailsAfterChange(w.sys, op)
    ensures var w := Run(p, path, w0, ops);
            var es := ListAfter(w.sys.mode.vault.entries, op);
            var (s', a) := Do(p, path, w.sys, op);
            var t := UnlockDone(p, path, LockDone(s', now), password, None, later);
            && a.Failed()
            && s'.mode == WithEntries(w.sys, es).mode && es != w.sys.mode.vault.entries
            && s'.fs.Read(path) == w.sys.fs.Read(path)
            && (t.1.Ok? ==> t.0.mode == Unlocked(w.sys.mode.vault))
  {
    var w := Run(p, path, w0, ops);
    RunKeepsInv(p, path, w0, ops);
    EntryOpOutcome(p, path, w, op);
    OnlySavesChangeTheDisk(p, path, w0, ops, op);
    StepKeepsInv(p, path, w, op);
    ReopensAsBefore(p, path, w, Step(p, path, w, op), password, now, later);
  }

  lemma ReopensAsBefore(p: Primitives, path: Name, w: World, w': World, password: string, now: nat, later: nat)
    requires Sound(p) && Inv(p, path, w) && Inv(p, path, w') && Agrees(w) && w.sys.mode.Unlocked? && w'.sys.mode.Unlocked?
    requires w'.book == w.book.(stale := true)
    ensures var t := UnlockDone(p, path, LockDone(w'.sys, now), password, None, later);
            t.1.Ok? ==> t.0.mode == Unlocked(w.sys.mode.vault)
  {
    ReopenedIs(p, path, w', password, now, later);
  }
}
