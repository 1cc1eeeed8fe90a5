/** Particular runs: that runs exist, and for each finding a run in which the promise is not kept. */
module Witnesses {
  import opened Basics
  import opened Crypto
  import opened Vault
  import opened VaultTheorems
  import opened UnlockedVaults
  import opened SectionBinding
  import opened Storage
  import opened AppModel
  import opened Runs
  import opened Success
  import opened RunTheorems
  import opened PowerLoss
  import opened TimedRuns
  import VaultSize
  import Utf8
  import Clipboard
  import AutoLock

  const PATH: Name := "vault.json"

  // ---- Calls that do not fail ----

  /** No call up to the rename fails; whether the directory can be synced is left open. */
  predicate Calm(io: SaveIo) {
    io.Valid() && io.nonce.Some? && io.Tmp() != PATH && NoFault(io.faults)
  }

  predicate CalmCreation(op: Op) {
    && op.CreateVault? && |op.password| >= MIN_MASTER_PASSWORD_LEN && op.password == op.confirm
    && op.draws.Valid() && AllDrawn(op.draws) && Calm(op.io)
  }

  /** The nonce of save number `k`. */
  function Nonce(k: nat): (r: Bytes)
    requires k < 0x100_0000
    ensures |r| == NONCE_LEN
  {
    [k / 0x1_0000, k / 256 % 256, k % 256] + seq(NONCE_LEN - 3, i => 0)
  }

  lemma NoncesDiffer(k: nat, l: nat)
    requires k < l < 0x100_0000
    ensures Nonce(k) != Nonce(l)
  {
    NonceDigits(k);
    NonceDigits(l);
  }

  lemma NonceDigits(k: nat)
    requires k < 0x100_0000
    ensures k == Nonce(k)[0] as int * 0x1_0000 + Nonce(k)[1] as int * 256 + Nonce(k)[2] as int
  {
    var high := k / 256;
    assert high / 256 == k / 0x1_0000;
  }

  lemma SomeIo(k: nat, syncFails: bool) returns (io: SaveIo)
    requires k < 0x100_0000
    ensures Calm(io) && io.nonce == Some(Nonce(k)) && io.faults.directorySyncFails == syncFails
  {
    io := SaveIo(Some(Nonce(k)), Some(Zeros()), Some(Zeros()), Faults(None, None, None, None, None, false, syncFails));
    assert io.Tmp()[0] == '.';
  }

  lemma SomeCreation(password: string, k: nat, lookFails: bool) returns (op: Op)
    requires |password| >= MIN_MASTER_PASSWORD_LEN && k < 0xff
    ensures CalmCreation(op) && op.password == password && op.lookFails == lookFails && op.draws.wrapNonce == Some(Nonce(k))
    ensures !op.io.faults.directorySyncFails
  {
    var io := SomeIo(k, false);
    var draws := CreateDraws(Some(seq(SALT_LEN, i => k)), Some(seq(KEY_LEN, i => k)), Some(Nonce(k)), Some(Nonce(k + 1)));
    op := Op.CreateVault(password, password, draws, lookFails, io, 0);
  }

  predicate EveryCallSucceeds(p: Primitives, path: Name, w: World, ops: seq<Op>)
    decreases |ops|
  {
    ops != [] ==> !Do(p, path, w.sys, ops[0]).1.Failed() && EveryCallSucceeds(p, path, Step(p, path, w, ops[0]), ops[1..])
  }

  /** A fair run in which no call fails leads from `w0` to `w`. */
  ghost predicate Reaches(p: Primitives, w0: World, ops: seq<Op>, w: World) {
    FairRun(p, PATH, w0, ops) && EveryCallSucceeds(p, PATH, w0, ops) && Run(p, PATH, w0, ops) == w
  }

  /** No temporary file is in the way. */
  predicate Tidy(fs: Fs) {
    forall n :: n in fs.live ==> n == PATH
  }

  /** The vault is open, with this list in memory and on disk. */
  ghost predicate Holds(p: Primitives, w: World, es: seq<Entry>) {
    && Inv(p, PATH, w) && Tidy(w.sys.fs)
    && w.sys.mode.Unlocked? && w.sys.mode.vault.entries == es
    && w.book.saved.Some? && w.book.saved.value.entries == es
  }

  lemma CalmReplace(s: Sys, io: SaveIo)
    requires Tidy(s.fs) && Calm(io)
    ensures CanReplace(s, io)
  {
  }

  lemma CalmWrite(fs: Fs, bytes: Bytes, io: SaveIo)
    requires bytes != [] && Tidy(fs) && Calm(io)
    ensures var (fs', r) := AtomicWrite(fs, PATH, io.Tmp(), bytes, io.faults); r.Ok? && Tidy(fs')
  {
  }

  lemma KekNeverFails(p: Primitives, password: Bytes, salt: Bytes)
    requires Sound(p) && NeverFails(p) && |salt| == SALT_LEN
    ensures Kek(p, password, DefaultParams(salt)).Ok?
  {
  }

  lemma CreationGoes(p: Primitives, s: Sys, op: Op)
    requires Sound(p) && NeverFails(p) && CalmCreation(op) && Tidy(s.fs) && !VaultExists(s.fs, PATH, op.lookFails)
    ensures Do(p, PATH, s, op).1 == Done(Ok(Unit))
  {
    KekNeverFails(p, Utf8.Encode(op.password), op.draws.salt.value);
    CalmReplace(s, op.io);
    CreationSucceedsExactlyWhen(p, PATH, s, op.password, op.confirm, op.draws, op.lookFails, op.io, op.now);
  }

  lemma CreatedList(p: Primitives, w: World, op: Op)
    requires op.CreateVault? && Do(p, PATH, w.sys, op).1 == Done(Ok(Unit))
    ensures var w' := Step(p, PATH, w, op);
            w'.sys.mode.Unlocked? && w'.sys.mode.vault.entries == [] && w'.book.saved.Some? && w'.book.saved.value.entries == []
  {
  }

  lemma CreatedTidy(p: Primitives, s: Sys, op: Op)
    requires Tidy(s.fs) && CalmCreation(op) && Do(p, PATH, s, op).1 == Done(Ok(Unit))
    ensures Tidy(Do(p, PATH, s, op).0.fs)
  {
    var made := New(p, s.log, op.password, op.draws).1;
    CreateFs(p, PATH, s, op);
    FilesAreNotEmpty(made.value.0);
    CalmWrite(s.fs, ToBytes(made.value.0), op.io);
  }

  /** A creation that sees no file goes through. */
  lemma CalmCreate(p: Primitives, w: World, op: Op)
    requires Sound(p) && NeverFails(p) && CalmCreation(op)
    requires Inv(p, PATH, w) && Tidy(w.sys.fs) && !VaultExists(w.sys.fs, PATH, op.lookFails)
    requires Fair(PATH, w.book.births, op)
    ensures Do(p, PATH, w.sys, op).1 == Done(Ok(Unit)) && Holds(p, Step(p, PATH, w, op), [])
  {
    CreationGoes(p, w.sys, op);
    StepKeepsInv(p, PATH, w, op);
    CreatedList(p, w, op);
    CreatedTidy(p, w.sys, op);
  }

  lemma NextIsNew(es: seq<Entry>, e: Entry)
    requires ValidList(es + [e])
    ensures Added(es, e) == Ok(es + [e])
  {
    var ids := Ids(es + [e]);
    assert ids[|es|] == e.id && ValidateEntry((es + [e])[|es|]).Ok?;
    forall i | 0 <= i < |es| ensures Ids(es)[i] != e.id {
      assert ids[i] == Ids(es)[i] && ids[i] != ids[|es|];
    }
  }

  lemma AddSaves(p: Primitives, s: Sys, es: seq<Entry>, e: Entry, io: SaveIo)
    requires s.mode.Unlocked? && s.mode.vault.entries == es && |s.mode.vault.vaultKey| == KEY_LEN && Tidy(s.fs) && Calm(io)
    requires Added(es, e) == Ok(es + [e]) && |WriteEntries(es + [e])| <= MAX_DECRYPTED_BYTES
    ensures var (s', r) := SaveDone(p, PATH, WithEntries(s, es + [e]), io);
            && r == Ok(Unit) && s'.mode == WithEntries(s, es + [e]).mode
            && Do(p, PATH, s, AddEntry(e, io)) == (s', Done(r))
  {
    CalmReplace(s, io);
    AddOutcome(p, PATH, s, e, io);
    SaveOfChange(p, PATH, s, es + [e], io);
  }

  lemma SaveTidy(p: Primitives, s: Sys, io: SaveIo)
    requires s.mode.Unlocked? && Tidy(s.fs) && Calm(io) && SaveDone(p, PATH, s, io).1.Ok?
    ensures Tidy(SaveDone(p, PATH, s, io).0.fs)
  {
    var made := Seal(p, s.log, s.mode.vault, io.nonce).1;
    FilesAreNotEmpty(made.value);
    CalmWrite(s.fs, ToBytes(made.value), io);
  }

  lemma AddedList(p: Primitives, w: World, es: seq<Entry>, op: Op, s': Sys)
    requires op.AddEntry? && w.sys.mode.Unlocked? && w.book.saved.Some?
    requires Do(p, PATH, w.sys, op) == (s', Done(Ok(Unit))) && s'.mode == WithEntries(w.sys, es).mode
    ensures var w' := Step(p, PATH, w, op);
            && w'.sys == s' && w'.sys.mode.Unlocked? && w'.sys.mode.vault.entries == es
            && w'.book.saved.Some? && w'.book.saved.value.entries == es
            && w'.book.births == w.book.births
  {
    ChangingLedger(p, PATH, w, op, s', Ok(Unit));
  }

  lemma KeyLength(p: Primitives, w: World)
    requires Inv(p, PATH, w) && w.sys.mode.Unlocked?
    ensures |w.sys.mode.vault.vaultKey| == KEY_LEN
  {
    assert Recorded(p, w.sys.log, SavedBirth(w.book));
  }

  /** Adding a further entry of a valid list goes through. */
  lemma CalmAdd(p: Primitives, w: World, es: seq<Entry>, e: Entry, io: SaveIo)
    requires Sound(p) && Holds(p, w, es) && ValidList(es + [e]) && |WriteEntries(es + [e])| <= MAX_DECRYPTED_BYTES && Calm(io)
    ensures Fair(PATH, w.book.births, AddEntry(e, io)) && Do(p, PATH, w.sys, AddEntry(e, io)).1 == Done(Ok(Unit))
    ensures Holds(p, Step(p, PATH, w, AddEntry(e, io)), es + [e])
    ensures Step(p, PATH, w, AddEntry(e, io)).book.births == w.book.births
  {
    NextIsNew(es, e);
    KeyLength(p, w);
    AddSaves(p, w.sys, es, e, io);
    SaveTidy(p, WithEntries(w.sys, es + [e]), io);
    AddedList(p, w, es + [e], AddEntry(e, io), SaveDone(p, PATH, WithEntries(w.sys, es + [e]), io).0);
    StepKeepsInv(p, PATH, w, AddEntry(e, io));
  }

  // ---- Runs, one call longer ----

  /** The first launch on an empty disk. */
  lemma EmptyDisk(p: Primitives) returns (s: Sys)
    requires Sound(p)
    ensures FirstLaunch(PATH, s) && DurablyAbsent(PATH, s.fs) && Inv(p, PATH, Begin(s)) && Tidy(s.fs)
    ensures !VaultExists(s.fs, PATH, false)
  {
    s := Sys(NoVault, AutoLock.Timer(AutoLock.DEFAULT_TIMEOUT, 0), Clipboard.NewGuard(), None,
             Fs([], map[], []), map[], Clipboard.Board(None, []));
    FirstLaunchInv(p, PATH, s);
  }

  lemma NoCalls(p: Primitives, w: World) returns (none: seq<Op>)
    ensures |none| == 0 && Reaches(p, w, none, w)
  {
    none := [];
  }

  lemma OneMore(p: Primitives, w0: World, ops: seq<Op>, w: World, op: Op)
    requires Reaches(p, w0, ops, w) && Fair(PATH, w.book.births, op) && !Do(p, PATH, w.sys, op).1.Failed()
    ensures Reaches(p, w0, ops + [op], Step(p, PATH, w, op))
  {
    RunConcat(p, PATH, w0, ops, [op]);
    assert [op][1..] == [];
    SucceedsConcat(p, w0, ops, op);
  }

  lemma {:induction false} SucceedsConcat(p: Primitives, w0: World, ops: seq<Op>, op: Op)
    requires EveryCallSucceeds(p, PATH, w0, ops) && !Do(p, PATH, Run(p, PATH, w0, ops).sys, op).1.Failed()
    ensures EveryCallSucceeds(p, PATH, w0, ops + [op])
    decreases |ops|
  {
    if ops == [] {
      assert [] + [op] == [op] && [op][1..] == [];
    } else {
      assert (ops + [op])[1..] == ops[1..] + [op];
      SucceedsConcat(p, Step(p, PATH, w0, ops[0]), ops[1..], op);
    }
  }

  /** The nonces that have wrapped keys have numbers below `k`. */
  ghost predicate NoncesBelow(births: seq<Birth>, k: nat)
    requires k < 0x100_0000
  {
    forall i :: 0 <= i < |births| ==> HasNonceBelow(births[i], k)
  }

  ghost predicate HasNonceBelow(b: Birth, k: nat)
    requires k < 0x100_0000
  {
    exists l: nat :: l < k && b.nonce == Nonce(l)
  }

  lemma NewNonce(p: Primitives, log: Log, births: seq<Birth>, password: Bytes, d: CreateDraws)
    requires d.wrapNonce.Some?
    ensures var more := BirthsAfter(p, log, births, password, d);
            more == births || (|more| == |births| + 1 && more[..|births|] == births && more[|births|].nonce == d.wrapNonce.value)
  {
  }

  lemma OneMoreNonce(births: seq<Birth>, more: seq<Birth>, k: nat)
    requires k < 0xff && NoncesBelow(births, k)
    requires more == births || (|more| == |births| + 1 && more[..|births|] == births && more[|births|].nonce == Nonce(k))
    ensures NoncesBelow(more, k + 1)
  {
    forall i | 0 <= i < |more| ensures HasNonceBelow(more[i], k + 1) {
      if i < |births| {
        assert HasNonceBelow(births[i], k) && more[i] == births[i];
      }
    }
  }

  lemma BirthNonces(p: Primitives, w: World, op: Op, k: nat)
    requires k < 0xff && NoncesBelow(w.book.births, k) && op.CreateVault? && op.draws.wrapNonce == Some(Nonce(k))
    ensures NoncesBelow(Step(p, PATH, w, op).book.births, k + 1)
  {
    NewNonce(p, w.sys.log, w.book.births, Utf8.Encode(op.password), op.draws);
    OneMoreNonce(w.book.births, BirthsNow(p, PATH, w, op), k);
  }

  lemma FreshNonce(births: seq<Birth>, k: nat)
    requires k < 0x100_0000 && NoncesBelow(births, k)
    ensures forall i :: 0 <= i < |births| ==> births[i].nonce != Nonce(k)
  {
    forall i | 0 <= i < |births| ensures births[i].nonce != Nonce(k) {
      assert HasNonceBelow(births[i], k);
      var l: nat :| l < k && births[i].nonce == Nonce(l);
      NoncesDiffer(l, k);
    }
  }

  /** One more call. */
  predicate Next(ops: seq<Op>, ops': seq<Op>) {
    |ops'| == |ops| + 1 && ops == ops'[..|ops|]
  }

  lemma MoreCreate(p: Primitives, w0: World, ops: seq<Op>, w: World, password: string, k: nat, lookFails: bool) returns (ops': seq<Op>, w': World)
    requires Sound(p) && NeverFails(p) && |password| >= MIN_MASTER_PASSWORD_LEN && k < 0xff && NoncesBelow(w.book.births, k)
    requires Reaches(p, w0, ops, w) && Inv(p, PATH, w) && Tidy(w.sys.fs) && !VaultExists(w.sys.fs, PATH, lookFails)
    ensures Next(ops, ops') && ops'[|ops|].CreateVault? && ops'[|ops|].password == password && ops'[|ops|].lookFails == lookFails
    ensures Reaches(p, w0, ops', w') && Holds(p, w', []) && NoncesBelow(w'.book.births, k + 1)
  {
    var op := SomeCreation(password, k, lookFails);
    ops' := ops + [op];
    w' := Step(p, PATH, w, op);
    FreshNonce(w.book.births, k);
    CreatesAlso(p, w0, ops, w, op);
    BirthNonces(p, w, op, k);
  }

  lemma CreatesAlso(p: Primitives, w0: World, ops: seq<Op>, w: World, op: Op)
    requires Sound(p) && NeverFails(p) && CalmCreation(op) && Fair(PATH, w.book.births, op)
    requires Reaches(p, w0, ops, w) && Inv(p, PATH, w) && Tidy(w.sys.fs) && !VaultExists(w.sys.fs, PATH, op.lookFails)
    ensures Reaches(p, w0, ops + [op], Step(p, PATH, w, op)) && Holds(p, Step(p, PATH, w, op), [])
  {
    CalmCreate(p, w, op);
    OneMore(p, w0, ops, w, op);
  }

  lemma MoreAdd(p: Primitives, w0: World, ops: seq<Op>, w: World, es: seq<Entry>, e: Entry, io: SaveIo) returns (ops': seq<Op>, w': World)
    requires Sound(p) && Holds(p, w, es) && ValidList(es + [e]) && |WriteEntries(es + [e])| <= MAX_DECRYPTED_BYTES && Calm(io)
    requires Reaches(p, w0, ops, w)
    ensures ops' == ops + [AddEntry(e, io)] && Next(ops, ops')
    ensures Reaches(p, w0, ops', w') && Holds(p, w', es + [e]) && w'.book.births == w.book.births
    ensures w' == Step(p, PATH, w, AddEntry(e, io))
  {
    ops' := ops + [AddEntry(e, io)];
    w' := Step(p, PATH, w, AddEntry(e, io));
    CalmAdd(p, w, es, e, io);
    OneMore(p, w0, ops, w, AddEntry(e, io));
  }

  lemma RestartIsSilent(p: Primitives, w: World, op: Op)
    requires op.Restart? && op.lookFails
    ensures Do(p, PATH, w.sys, op).1 == Silent && Fair(PATH, w.book.births, op)
    ensures var w' := Step(p, PATH, w, op);
            w'.sys.mode == NoVault && w'.sys.fs == w.sys.fs && w'.sys.log == w.sys.log && w'.book == w.book.(stale := false)
  {
  }

  lemma MoreRestart(p: Primitives, w0: World, ops: seq<Op>, w: World) returns (ops': seq<Op>, w': World)
    requires Sound(p) && Reaches(p, w0, ops, w) && Inv(p, PATH, w)
    ensures Next(ops, ops') && ops'[|ops|].Restart? && ops'[|ops|].lookFails
    ensures Reaches(p, w0, ops', w') && Inv(p, PATH, w') && w'.sys.fs == w.sys.fs
    ensures w'.sys.mode == NoVault && w'.book.births == w.book.births && w'.book.saved == w.book.saved
  {
    var op := Op.Restart(Clipboard.ClearIo(false, false, false), true, 0);
    ops' := ops + [op];
    w' := Step(p, PATH, w, op);
    RestartsAlso(p, w0, ops, w, op);
  }

  lemma RestartsAlso(p: Primitives, w0: World, ops: seq<Op>, w: World, op: Op)
    requires Sound(p) && Reaches(p, w0, ops, w) && Inv(p, PATH, w) && op.Restart? && op.lookFails
    ensures var w' := Step(p, PATH, w, op);
            && Reaches(p, w0, ops + [op], w') && Inv(p, PATH, w') && w'.sys.fs == w.sys.fs
            && w'.sys.mode == NoVault && w'.book.births == w.book.births && w'.book.saved == w.book.saved
  {
    RestartIsSilent(p, w, op);
    GoesOn(p, w0, ops, w, op);
  }

  lemma GoesOn(p: Primitives, w0: World, ops: seq<Op>, w: World, op: Op)
    requires Sound(p) && Reaches(p, w0, ops, w) && Inv(p, PATH, w)
    requires Fair(PATH, w.book.births, op) && !Do(p, PATH, w.sys, op).1.Failed()
    ensures Reaches(p, w0, ops + [op], Step(p, PATH, w, op)) && Inv(p, PATH, Step(p, PATH, w, op))
  {
    StepKeepsInv(p, PATH, w, op);
    OneMore(p, w0, ops, w, op);
  }

  /** Runs exist: the first call of a first launch can create the vault. */
  lemma RunsExist(p: Primitives, password: string) returns (s: Sys, ops: seq<Op>, w: World)
    requires Sound(p) && NeverFails(p) && |password| >= MIN_MASTER_PASSWORD_LEN
    ensures FirstLaunch(PATH, s) && DurablyAbsent(PATH, s.fs)
    ensures |ops| == 1 && ops[0].CreateVault? && ops[0].password == password
    ensures Reaches(p, Begin(s), ops, w) && Holds(p, w, []) && NoncesBelow(w.book.births, 1)
  {
    s := EmptyDisk(p);
    ops, w := FirstVault(p, Begin(s), password);
  }

  lemma FirstVault(p: Primitives, w0: World, password: string) returns (ops: seq<Op>, w: World)
    requires Sound(p) && NeverFails(p) && |password| >= MIN_MASTER_PASSWORD_LEN
    requires Inv(p, PATH, w0) && w0.book.births == [] && Tidy(w0.sys.fs) && !VaultExists(w0.sys.fs, PATH, false)
    ensures |ops| == 1 && ops[0].CreateVault? && ops[0].password == password
    ensures Reaches(p, w0, ops, w) && Holds(p, w, []) && NoncesBelow(w.book.births, 1)
  {
    var none := NoCalls(p, w0);
    ops, w := MoreCreate(p, w0, none, w0, password, 0, false);
  }

  // ---- A vault that is replaced ----

  lemma SmallPayload() returns (e: Entry)
    ensures ValidList([e]) && |WriteEntries([e])| <= MAX_DECRYPTED_BYTES && e.password != "" && e.password[0] == 'p'
  {
    e := VaultSize.BulkyEntry(0);
    VaultSize.BulkyPayloadOf(1);
    VaultSize.BulkyEntryIsValid(0);
    OneIsValid(e);
    assert VaultSize.BulkyEntries(1) == [e];
  }

  lemma OneIsValid(e: Entry)
    requires ValidateEntry(e).Ok?
    ensures ValidList([e])
  {
  }

  /**
    * A run of four calls, none of which reports a failure, in which a stored entry is lost:
    * create, add, start again without being able to look at the file, create again.
    */
  lemma StoredVaultIsReplaced(p: Primitives, password: string) returns (s: Sys, ops: seq<Op>, e: Entry, w2: World, w4: World)
    requires Sound(p) && NeverFails(p) && |password| >= MIN_MASTER_PASSWORD_LEN
    ensures FirstLaunch(PATH, s) && |ops| == 4
    ensures ops[0].CreateVault? && ops[1].AddEntry? && ops[1].entry == e && ops[2].Restart? && ops[3].CreateVault?
    ensures Reaches(p, Begin(s), ops[..2], w2) && Holds(p, w2, [e])
    ensures Reaches(p, Begin(s), ops, w4) && Holds(p, w4, [])
  {
    var ops2, ops3, w3;
    s, ops2, e, w2 := StoredEntry(p, password);
    ops3, w3 := MoreRestart(p, Begin(s), ops2, w2);
    ops, w4 := MoreCreate(p, Begin(s), ops3, w3, password, 1, true);
    ThreeThenFour(ops2, ops3, ops);
  }

  lemma ThreeThenFour(ops2: seq<Op>, ops3: seq<Op>, ops4: seq<Op>)
    requires Next(ops2, ops3) && Next(ops3, ops4)
    ensures ops4[..|ops2|] == ops2 && ops4[|ops2|] == ops3[|ops2|]
    ensures forall i :: 0 <= i < |ops2| ==> ops4[i] == ops2[i]
  {
    assert ops4[..|ops3|][..|ops2|] == ops4[..|ops2|];
  }

  lemma StoredEntry(p: Primitives, password: string) returns (s: Sys, ops: seq<Op>, e: Entry, w: World)
    requires Sound(p) && NeverFails(p) && |password| >= MIN_MASTER_PASSWORD_LEN
    ensures FirstLaunch(PATH, s) && |ops| == 2 && ops[0].CreateVault? && ops[1].AddEntry? && ops[1].entry == e
    ensures Reaches(p, Begin(s), ops, w) && Holds(p, w, [e]) && NoncesBelow(w.book.births, 1)
    ensures e.password != "" && e.password[0] == 'p'
  {
    var ops1, w1;
    s, ops1, w1 := RunsExist(p, password);
    e := SmallPayload();
    var io := SomeIo(2, false);
    ops, w := FirstEntry(p, Begin(s), ops1, w1, e, io);
  }

  lemma FirstEntry(p: Primitives, w0: World, ops: seq<Op>, w: World, e: Entry, io: SaveIo) returns (ops': seq<Op>, w': World)
    requires Sound(p) && Reaches(p, w0, ops, w) && Holds(p, w, []) && NoncesBelow(w.book.births, 1)
    requires ValidList([e]) && |WriteEntries([e])| <= MAX_DECRYPTED_BYTES && Calm(io)
    ensures Next(ops, ops') && ops'[|ops|] == AddEntry(e, io)
    ensures Reaches(p, w0, ops', w') && Holds(p, w', [e]) && NoncesBelow(w'.book.births, 1)
    ensures w' == Step(p, PATH, w, AddEntry(e, io))
  {
    assert [] + [e] == [e];
    ops', w' := MoreAdd(p, w0, ops, w, [], e, io);
  }

  // ---- A change that is forgotten ----

  lemma {:induction false} AgreesAtTheEnd(p: Primitives, w: World, ops: seq<Op>)
    requires AlwaysAgrees(p, PATH, w, ops)
    ensures Agrees(Run(p, PATH, w, ops))
    decreases |ops|
  {
    if ops != [] {
      AgreesAtTheEnd(p, Step(p, PATH, w, ops[0]), ops[1..]);
    }
  }

  lemma FailingAdd(p: Primitives, w: World, op: Op)
    requires Sound(p) && Holds(p, w, []) && Fair(PATH, w.book.births, op)
    requires op.AddEntry? && ValidList([op.entry]) && op.io.faults.rename.Some?
    ensures var w' := Step(p, PATH, w, op);
            && Do(p, PATH, w.sys, op).1.Failed() && !Agrees(w')
            && w'.sys.mode == WithEntries(w.sys, [op.entry]).mode && w'.sys.fs.Read(PATH) == w.sys.fs.Read(PATH)
  {
    assert [] + [op.entry] == [op.entry];
    NextIsNew([], op.entry);
    FailedAdd(p, w, op);
    AgreesAfterStep(p, PATH, w, op);
    StepKeepsInv(p, PATH, w, op);
    SameSavedSameDisk(p, PATH, w, op);
  }

  lemma FailedAdd(p: Primitives, w: World, op: Op)
    requires Sound(p) && Inv(p, PATH, w) && w.sys.mode.Unlocked? && w.sys.mode.vault.entries == []
    requires op.AddEntry? && Added([], op.entry) == Ok([op.entry]) && op.io.faults.rename.Some?
    ensures Do(p, PATH, w.sys, op).1.Failed() && FailsAfterChange(w.sys, op)
    ensures Step(p, PATH, w, op).sys.mode == WithEntries(w.sys, [op.entry]).mode
    ensures !Wrote(w.sys, op, Do(p, PATH, w.sys, op).1)
  {
    EntryOpOutcome(p, PATH, w, op);
  }

  lemma LastCall(p: Primitives, w0: World, ops: seq<Op>, w: World, op: Op)
    requires Reaches(p, w0, ops, w) && Fair(PATH, w.book.births, op)
    ensures FairRun(p, PATH, w0, ops + [op]) && Run(p, PATH, w0, ops + [op]) == Step(p, PATH, w, op)
  {
    RunConcat(p, PATH, w0, ops, [op]);
    assert [op][1..] == [];
  }

  lemma FailingRename(k: nat) returns (io: SaveIo)
    requires k < 0x100_0000
    ensures io.Valid() && io.Tmp() != PATH && io.faults.rename.Some?
  {
    var calm := SomeIo(k, false);
    io := calm.(faults := calm.faults.(rename := Some(OtherIo)));
    assert io.Tmp() == calm.Tmp();
  }

  /** A run in which memory and disk part: the rename of an addition fails, and the entry is in memory only. */
  lemma ChangeStaysInMemoryOnly(p: Primitives, password: string) returns (s: Sys, ops: seq<Op>, e: Entry)
    requires Sound(p) && NeverFails(p) && |password| >= MIN_MASTER_PASSWORD_LEN
    ensures FirstLaunch(PATH, s) && |ops| == 2 && ops[0].CreateVault? && ops[1].AddEntry? && ops[1].entry == e
    ensures FairRun(p, PATH, Begin(s), ops) && !AlwaysAgrees(p, PATH, Begin(s), ops)
    ensures var w1, w2 := Run(p, PATH, Begin(s), ops[..1]), Run(p, PATH, Begin(s), ops);
            w2.sys.mode.Unlocked? && w2.sys.mode.vault.entries == [e] && w2.sys.fs.Read(PATH) == w1.sys.fs.Read(PATH)
  {
    var ops1, w1;
    s, ops1, w1 := RunsExist(p, password);
    e := SmallPayload();
    var io := FailingRename(2);
    var op := AddEntry(e, io);
    ops := ops1 + [op];
    FailingAdd(p, w1, op);
    LastCall(p, Begin(s), ops1, w1, op);
    assert ops[..1] == ops1;
    if AlwaysAgrees(p, PATH, Begin(s), ops) {
      AgreesAtTheEnd(p, Begin(s), ops);
    }
  }

  // ---- An older file that comes back ----

  lemma ReadMayBeHeld(fs: Fs, path: Name)
    requires fs.Valid()
    ensures MayHold(fs, path, fs.Read(path))
  {
    LiveInRange(fs);
    assert fs.live in fs.Versions() && HeldIn(fs, fs.live, path, fs.Read(path));
  }

  lemma SameBytesSameFile(f: VaultFile, g: VaultFile)
    requires ToBytes(f) == ToBytes(g)
    ensures f == g
  {
    ParseBytesOfPrint(FileToJson(f));
    ParseBytesOfPrint(FileToJson(g));
    FileJsonRoundTrip(f);
    FileJsonRoundTrip(g);
  }

  /** Files of different lists of one vault have different bytes. */
  lemma ListsDiffer(p: Primitives, log: Log, births: seq<Birth>, i: nat, n: Bytes, es: seq<Entry>, n': Bytes, es': seq<Entry>)
    requires Sound(p) && Honest(p, log, births) && i < |births|
    requires Sealed(p, log, births[i], n, es) && Sealed(p, log, births[i], n', es') && es != es'
    ensures ToBytes(FileOf(p, births[i], n, es)) != ToBytes(FileOf(p, births[i], n', es'))
  {
    if ToBytes(FileOf(p, births[i], n, es)) == ToBytes(FileOf(p, births[i], n', es')) {
      SameBytesSameFile(FileOf(p, births[i], n, es), FileOf(p, births[i], n', es'));
      SavedSectionsOpen(p, log, births, i, n, es);
      SavedSectionsOpen(p, log, births, i, n', es');
      PayloadRoundTrip(es);
      PayloadRoundTrip(es');
    }
  }

  lemma UnsyncedAdd(p: Primitives, w: World, op: Op, e: Entry)
    requires Sound(p) && Holds(p, w, []) && Fair(PATH, w.book.births, op)
    requires op.AddEntry? && op.io.faults.directorySyncFails && Do(p, PATH, w.sys, op).1 == Done(Ok(Unit))
    requires Holds(p, Step(p, PATH, w, op), [e])
    ensures var w' := Step(p, PATH, w, op);
            MayHold(w'.sys.fs, PATH, w.sys.fs.Read(PATH)) && w'.sys.fs.Read(PATH) != w.sys.fs.Read(PATH)
  {
    var w' := Step(p, PATH, w, op);
    ReadMayBeHeld(w.sys.fs, PATH);
    StepReplaces(p, PATH, w, op);
    StepExtends(p, PATH, w, op);
    BirthsGrow(p, PATH, w, op);
    OthersKeepVault(p, PATH, w, op);
    var sv, sv' := w.book.saved.value, w'.book.saved.value;
    SavedOkLater(p, w.sys.log, w'.sys.log, w.book.births, w'.book.births, w.book.saved);
    ListsDiffer(p, w'.sys.log, w'.book.births, sv.vault, sv.nonce, sv.entries, sv'.nonce, sv'.entries);
  }

  /** A run of two saves, neither of which reports a failure, after which a power loss may bring the older file back. */
  lemma OlderFileComesBack(p: Primitives, password: string) returns (s: Sys, ops: seq<Op>, w1: World, w2: World)
    requires Sound(p) && NeverFails(p) && |password| >= MIN_MASTER_PASSWORD_LEN
    ensures FirstLaunch(PATH, s) && DurablyAbsent(PATH, s.fs) && |ops| == 2 && ops[0].CreateVault? && ops[1].AddEntry?
    ensures Reaches(p, Begin(s), ops[..1], w1) && Holds(p, w1, [])
    ensures Reaches(p, Begin(s), ops, w2) && Holds(p, w2, [ops[1].entry])
    ensures MayHold(w2.sys.fs, PATH, w1.sys.fs.Read(PATH)) && w2.sys.fs.Read(PATH) != w1.sys.fs.Read(PATH)
  {
    var ops1;
    s, ops1, w1 := RunsExist(p, password);
    var e := SmallPayload();
    ops, w2 := UnsyncedEntry(p, Begin(s), ops1, w1, e);
  }

  lemma UnsyncedEntry(p: Primitives, w0: World, ops: seq<Op>, w: World, e: Entry) returns (ops': seq<Op>, w': World)
    requires Sound(p) && Reaches(p, w0, ops, w) && Holds(p, w, []) && NoncesBelow(w.book.births, 1)
    requires ValidList([e]) && |WriteEntries([e])| <= MAX_DECRYPTED_BYTES
    ensures Next(ops, ops') && ops'[|ops|].AddEntry? && ops'[|ops|].entry == e
    ensures Reaches(p, w0, ops', w') && Holds(p, w', [e])
    ensures MayHold(w'.sys.fs, PATH, w.sys.fs.Read(PATH)) && w'.sys.fs.Read(PATH) != w.sys.fs.Read(PATH)
  {
    var io := SomeIo(2, true);
    ops', w' := FirstEntry(p, w0, ops, w, e, io);
    AddIsFair(p, w, e, io);
    UnsyncedAdd(p, w, AddEntry(e, io), e);
  }

  lemma AddIsFair(p: Primitives, w: World, e: Entry, io: SaveIo)
    requires Sound(p) && Holds(p, w, []) && ValidList([e]) && |WriteEntries([e])| <= MAX_DECRYPTED_BYTES && Calm(io)
    ensures Fair(PATH, w.book.births, AddEntry(e, io)) && Do(p, PATH, w.sys, AddEntry(e, io)).1 == Done(Ok(Unit))
  {
    assert [] + [e] == [e];
    CalmAdd(p, w, [], e, io);
  }

  // ---- A copied password that stays ----

  lemma NotWiped(value: string)
    requires value != "" && value[0] == 'p'
    ensures !Clipboard.AllZero(Utf8.Encode(value))
  {
    assert Utf8.Encode(value)[0] == 112;
  }

  /** A copy that succeeds and one that is refused. */
  lemma CopyTwice(p: Primitives, w: World, e: Entry) returns (copy: Op, refused: Op)
    requires w.sys.mode.Unlocked? && w.sys.mode.vault.entries == [e]
    ensures copy.CopyField? && copy.id == e.id && copy.id in Ids(w.sys.mode.vault.entries) && copy.now == 0
    ensures Do(p, PATH, w.sys, copy).1 == Done(Ok(Unit)) && CopiedValue(w.sys, copy) == e.password
    ensures refused.CopyField? && Refused(p, PATH, Step(p, PATH, w, copy).sys, refused)
    ensures Step(p, PATH, w, copy).sys.board.content == Some(e.password)
    ensures RefusedCall(p, PATH, Step(p, PATH, w, copy).sys, refused) == [Clipboard.SetText(e.password, false)]
  {
    assert Ids([e])[0] == e.id;
    copy := Op.CopyField(e.id, PasswordField, false, 0, false);
    refused := Op.CopyField(e.id, PasswordField, true, 0, false);
  }

  lemma OneRefused(p: Primitives, w: World, refused: Op, value: string)
    requires Refused(p, PATH, w.sys, refused) && value != "" && value[0] == 'p'
    ensures !NoneRefused(p, PATH, w, [refused]) && !Unwipeable(p, PATH, w, [refused], value)
    ensures forall d :: Waiting(p, PATH, w, [refused], d)
    ensures Run(p, PATH, w, [refused]) == Step(p, PATH, w, refused)
    ensures RefusedCalls(p, PATH, w, [refused]) == RefusedCall(p, PATH, w.sys, refused)
  {
    NotWiped(value);
    assert [refused][1..] == [];
    assert RefusedCall(p, PATH, w.sys, refused) + [] == RefusedCall(p, PATH, w.sys, refused);
  }

  /**
    * A copied password that outlives its deadline: it is copied, a second copy is refused by the
    * clipboard, and the due tick reads the password, leaves it, and forgets it.
    */
  lemma CopiedPasswordStays(p: Primitives, w: World, e: Entry) returns (copy: Op, refused: Op, due: Op)
    requires w.sys.mode.Unlocked? && w.sys.mode.vault.entries == [e] && e.password != "" && e.password[0] == 'p'
    ensures CopyCycle(p, PATH, w, copy, [refused], due, []) && Refused(p, PATH, Step(p, PATH, w, copy).sys, refused)
    ensures var v, w3 := e.password, Step(p, PATH, Run(p, PATH, Step(p, PATH, w, copy), [refused]), due);
            && w3.sys.board.content == Some(v) && w3.sys.guard.deadline == None
            && w3.sys.board.calls == w.sys.board.calls
                 + [Clipboard.SetText(v, true)] + [Clipboard.SetText(v, false)] + [Clipboard.GetText(Some(v))]
  {
    copy, refused := CopyTwice(p, w, e);
    var w1 := Step(p, PATH, w, copy);
    due := Op.Tick([], Clock(w.sys.guard.clearAfter, w.sys.guard.clearAfter, w.sys.guard.clearAfter, w.sys.guard.clearAfter),
                   Clipboard.ClearIo(false, false, false));
    OneRefused(p, w1, refused, e.password);
    CopyLeaves(p, PATH, w1, refused);
    ClipboardSchedule(p, PATH, w, copy, [refused], due, []);
    CopiedValueIsClearedExactlyWhen(p, PATH, w, copy, [refused], due, []);
  }

  /** Such a state is reached. */
  lemma CopiedPasswordCanStay(p: Primitives, password: string)
    returns (s: Sys, ops: seq<Op>, w: World, e: Entry, copy: Op, refused: Op, due: Op)
    requires Sound(p) && NeverFails(p) && |password| >= MIN_MASTER_PASSWORD_LEN
    ensures FirstLaunch(PATH, s) && Reaches(p, Begin(s), ops, w) && Holds(p, w, [e])
    ensures CopyCycle(p, PATH, w, copy, [refused], due, []) && Refused(p, PATH, Step(p, PATH, w, copy).sys, refused)
    ensures var w3 := Step(p, PATH, Run(p, PATH, Step(p, PATH, w, copy), [refused]), due);
            w3.sys.board.content == Some(e.password) && w3.sys.guard.deadline == None
  {
    s, ops, e, w := StoredEntry(p, password);
    copy, refused, due := CopiedPasswordStays(p, w, e);
  }

  // ---- A vault that outgrows its reader ----

  lemma ValidPrefix(es: seq<Entry>, n: nat)
    requires ValidList(es) && n <= |es|
    ensures ValidList(es[..n])
  {
    var ids, front := Ids(es), Ids(es[..n]);
    forall i, j | 0 <= i < j < n ensures front[i] != front[j] {
      assert ids[i] != ids[j];
    }
    forall i | 0 <= i < n ensures ValidateEntry(es[..n][i]).Ok? {
      assert ValidateEntry(es[i]).Ok?;
    }
  }

  /** One creation with the password, and the entries added one by one. */
  ghost predicate Builds(ops: seq<Op>, password: string, es: seq<Entry>) {
    && |ops| == |es| + 1
    && ops[0].CreateVault? && ops[0].password == password
    && forall j :: 0 < j < |ops| ==> ops[j].AddEntry? && ops[j].entry == es[j - 1]
  }

  /** Every valid list whose beginnings are within the limit of `seal` can be built up entry by entry. */
  lemma {:induction false} ListsCanBeBuilt(p: Primitives, password: string, es: seq<Entry>) returns (s: Sys, ops: seq<Op>, w: World)
    requires Sound(p) && NeverFails(p) && |password| >= MIN_MASTER_PASSWORD_LEN
    requires ValidList(es)
    requires forall m :: 0 <= m <= |es| ==> |WriteEntries(es[..m])| <= MAX_DECRYPTED_BYTES
    ensures FirstLaunch(PATH, s) && Builds(ops, password, es) && Reaches(p, Begin(s), ops, w) && Holds(p, w, es)
  {
    if es == [] {
      s, ops, w := RunsExist(p, password);
    } else {
      var n := |es| - 1;
      var before, w1;
      ValidPrefix(es, n);
      PrefixOfPrefix(es, n);
      s, before, w1 := ListsCanBeBuilt(p, password, es[..n]);
      var io := SomeIo(n + 1, false);
      ops, w := MoreAdd(p, Begin(s), before, w1, es[..n], es[n], io);
      BuildsMore(before, ops, password, es);
    }
  }

  lemma PrefixOfPrefix(es: seq<Entry>, n: nat)
    requires |es| == n + 1
    ensures es[..n] + [es[n]] == es && es[..n + 1] == es
    ensures forall m :: 0 <= m <= n ==> es[..n][..m] == es[..m]
  {
  }

  lemma BuildsMore(ops: seq<Op>, ops': seq<Op>, password: string, es: seq<Entry>)
    requires es != [] && Builds(ops, password, es[..|es| - 1])
    requires Next(ops, ops') && ops'[|ops|].AddEntry? && ops'[|ops|].entry == es[|es| - 1]
    ensures Builds(ops', password, es)
  {
    forall j | 0 < j < |ops'| ensures ops'[j].AddEntry? && ops'[j].entry == es[j - 1] {
      if j < |ops| {
        assert ops'[j] == ops[j];
      }
    }
  }

  lemma BulkyBeginnings(m: nat)
    requires m <= 600
    ensures |WriteEntries(VaultSize.BulkyEntries(600)[..m])| <= MAX_DECRYPTED_BYTES
  {
    assert VaultSize.BulkyEntries(600)[..m] == VaultSize.BulkyEntries(m);
    if m == 0 {
      EmptyPayload();
      assert VaultSize.BulkyEntries(0) == [];
    } else {
      VaultSize.BulkyPayloadOf(m);
    }
  }

  /**
    * A run of one creation and six hundred additions, none of which reports a failure, after
    * which the vault, once closed, opens with no password, the creation password included.
    */
  lemma SavedVaultIsLockedOut(p: Primitives, password: string) returns (s: Sys, ops: seq<Op>, w: World)
    requires Sound(p) && NeverFails(p) && |password| >= MIN_MASTER_PASSWORD_LEN
    ensures FirstLaunch(PATH, s) && Builds(ops, password, VaultSize.BulkyEntries(600)) && Reaches(p, Begin(s), ops, w)
    ensures Holds(p, w, VaultSize.BulkyEntries(600))
    ensures forall any, now, later ::
              UnlockDone(p, PATH, LockDone(w.sys, now), any, None, later).1 == Err(VaultFormat)
  {
    var es := VaultSize.BulkyEntries(600);
    VaultSize.BulkyVaultIsValid();
    forall m | 0 <= m <= 600 ensures |WriteEntries(es[..m])| <= MAX_DECRYPTED_BYTES {
      BulkyBeginnings(m);
    }
    s, ops, w := ListsCanBeBuilt(p, password, es);
    forall any, now, later ensures UnlockDone(p, PATH, LockDone(w.sys, now), any, None, later).1 == Err(VaultFormat) {
      TooLongToOpen(p, w, any, now, later);
    }
  }

  lemma TooLongToOpen(p: Primitives, w: World, any: string, now: nat, later: nat)
    requires Sound(p) && Holds(p, w, VaultSize.BulkyEntries(600))
    ensures UnlockDone(p, PATH, LockDone(w.sys, now), any, None, later).1 == Err(VaultFormat)
  {
    VaultSize.BulkyPayload();
    ReopenedIs(p, PATH, w, any, now, later);
  }
}
