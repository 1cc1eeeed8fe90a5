/**
  * Whole runs of the application: any sequence of calls, with storage and the random source
  * failing at will, other programs writing the clipboard, and restarts in between. A ledger
  * records what the calls reported; the theorems say what the ledger tells about the disk.
  */
module Runs {
  import opened Basics
  import opened Crypto
  import opened Vault
  import opened UnlockedVaults
  import opened VaultTheorems
  import opened SectionBinding
  import opened Storage
  import opened Clipboard
  import opened AutoLock
  import opened AppModel
  import VaultSize
  import Utf8

  // ---- Calls ----

  datatype Op =
    | CreateVault(password: string, confirm: string, draws: CreateDraws, lookFails: bool, io: SaveIo, now: nat)
    | OpenVault(password: string, fault: Option<ReadFault>, now: nat)
    | CloseVault(now: nat)
    | SaveVault(io: SaveIo)
    | AddEntry(entry: Entry, io: SaveIo)
    | UpdateEntry(entry: Entry, io: SaveIo)
    | RemoveEntry(id: string, io: SaveIo)
    | CopyField(id: string, field: Field, setFails: bool, now: nat, keep: bool)
    | Tick(events: seq<Event>, clock: Clock, clearIo: ClearIo)
    | Restart(clearIo: ClearIo, lookFails: bool, now: nat)
    | OtherProgram(content: Option<string>)
  {
    predicate IsEntryOp() {
      AddEntry? || UpdateEntry? || RemoveEntry?
    }

    predicate MayWrite() {
      CreateVault? || SaveVault? || IsEntryOp()
    }
  }

  datatype Answer = Silent | Done(outcome: Result<Unit>) | Changed(change: Result<bool>) {
    predicate Failed() {
      (Done? && outcome.Err?) || (Changed? && change.Err?)
    }
  }

  function Do(p: Primitives, path: Name, s: Sys, op: Op): (Sys, Answer) {
    match op
    case CreateVault(password, confirm, draws, lookFails, io, now) =>
      var (s', r) := Created(p, path, s, password, confirm, draws, lookFails, io, now); (s', Done(r))
    case OpenVault(password, fault, now) =>
      var (s', r) := UnlockDone(p, path, s, password, fault, now); (s', Done(r))
    case CloseVault(now) => (LockDone(s, now), Silent)
    case SaveVault(io) => var (s', r) := SaveDone(p, path, s, io); (s', Done(r))
    case AddEntry(e, io) => var (s', r) := AddDone(p, path, s, e, io); (s', Done(r))
    case UpdateEntry(e, io) => var (s', r) := UpdateEntryDone(p, path, s, e, io); (s', Changed(r))
    case RemoveEntry(id, io) => var (s', r) := RemoveDone(p, path, s, id, io); (s', Changed(r))
    case CopyField(id, f, setFails, now, keep) => var (s', r) := CopyDone(s, id, f, setFails, now, keep); (s', Done(r))
    case Tick(events, clock, io) => (TickDone(s, events, clock, io), Silent)
    case Restart(io, lookFails, now) => (Restarted(path, s, io, lookFails, now), Silent)
    case OtherProgram(content) => (s.(board := s.board.(content := content)), Silent)
  }

  /** The call reported that it has written the file. */
  predicate Wrote(s: Sys, op: Op, a: Answer) {
    match op
    case CreateVault(_, _, _, _, _, _) => !a.Failed()
    case SaveVault(_) => s.mode.Unlocked? && !a.Failed()
    case AddEntry(_, _) => !a.Failed()
    case UpdateEntry(_, _) => a == Changed(Ok(true))
    case RemoveEntry(_, _) => a == Changed(Ok(true))
    case _ => false
  }

  // ---- The ledger ----

  /** The last successful save: of which vault, with which nonce, and the entry list at that time. */
  datatype Saved = Saved(vault: nat, nonce: Bytes, entries: seq<Entry>)

  /**
    * The vaults whose keys have been wrapped so far, the last successful save, and whether an
    * entry operation has changed the list and failed since the vault was last opened or saved.
    */
  datatype Book = Book(births: seq<Birth>, saved: Option<Saved>, stale: bool)

  datatype World = World(sys: Sys, book: Book)

  function Drawn(d: Draw): Bytes {
    if d.Some? then d.value else []
  }

  predicate Attempted(path: Name, s: Sys, op: Op) {
    && op.CreateVault?
    && |op.password| >= MIN_MASTER_PASSWORD_LEN
    && op.password == op.confirm
    && !VaultExists(s.fs, path, op.lookFails)
  }

  function BirthsNow(p: Primitives, path: Name, w: World, op: Op): seq<Birth> {
    if Attempted(path, w.sys, op) then BirthsAfter(p, w.sys.log, w.book.births, Utf8.Encode(op.password), op.draws)
    else w.book.births
  }

  function SavedNow(w: World, s': Sys, op: Op): Option<Saved>
    requires op.MayWrite()
  {
    if op.CreateVault? then Some(Saved(|w.book.births|, Drawn(op.draws.payloadNonce), []))
    else if w.book.saved.Some? && s'.mode.Unlocked?
    then Some(Saved(w.book.saved.value.vault, Drawn(op.io.nonce), s'.mode.vault.entries))
    else w.book.saved
  }

  function Step(p: Primitives, path: Name, w: World, op: Op): World {
    var (s', a) := Do(p, path, w.sys, op);
    var wrote := Wrote(w.sys, op, a);
    World(s', Book(
      BirthsNow(p, path, w, op),
      if wrote then SavedNow(w, s', op) else w.book.saved,
      s'.mode.Unlocked? && !wrote && (w.book.stale || (op.IsEntryOp() && a.Failed() && s'.mode != w.sys.mode))))
  }

  function Run(p: Primitives, path: Name, w: World, ops: seq<Op>): World
    decreases |ops|
  {
    if ops == [] then w else Run(p, path, Step(p, path, w, ops[0]), ops[1..])
  }

  // ---- What is asked of the environment ----

  /**
    * The random source gives as many bytes as asked for or none, temporary names are not the
    * vault's own, and the nonce that wraps a new key has not wrapped another. Nothing else is
    * asked: every call to the storage may fail.
    */
  predicate Fair(path: Name, births: seq<Birth>, op: Op) {
    && (op.MayWrite() ==> op.io.Valid() && op.io.Tmp() != path)
    && (op.CreateVault? ==>
          && op.draws.Valid()
          && (forall i :: 0 <= i < |births| ==> births[i].nonce != Drawn(op.draws.wrapNonce)))
  }

  predicate FairRun(p: Primitives, path: Name, w: World, ops: seq<Op>)
    decreases |ops|
  {
    ops != [] ==> Fair(path, w.book.births, ops[0]) && FairRun(p, path, Step(p, path, w, ops[0]), ops[1..])
  }

  // ---- The invariant ----

  function VaultOf(b: Birth, es: seq<Entry>): VaultState {
    VaultState(es, b.vaultKey, b.Wrapped(), b.Kdf(), SUPPORTED_VERSION)
  }

  function Ciphertext(p: Primitives, b: Birth, nonce: Bytes, es: seq<Entry>): Bytes {
    p.gcm(b.vaultKey, nonce, AAD_VAULT, WriteEntries(es))
  }

  /** The file that a save of `es` under the key of `b` produces. */
  function FileOf(p: Primitives, b: Birth, nonce: Bytes, es: seq<Entry>): VaultFile {
    VaultFile(SUPPORTED_VERSION, b.Kdf(), b.Wrapped(), EncryptedBlob.FromRaw(nonce, Ciphertext(p, b, nonce, es)))
  }

  /** The payload of the save is in the history of the cipher. */
  ghost predicate Sealed(p: Primitives, log: Log, b: Birth, nonce: Bytes, es: seq<Entry>) {
    var box := Box(b.vaultKey, nonce, AAD_VAULT, Ciphertext(p, b, nonce, es));
    |nonce| == NONCE_LEN && box in log && log[box] == WriteEntries(es)
  }

  predicate DistinctNonces(births: seq<Birth>) {
    forall i, j :: 0 <= i < j < |births| ==> births[i].nonce != births[j].nonce
  }

  ghost predicate OnDisk(p: Primitives, path: Name, fs: Fs, log: Log, book: Book) {
    match book.saved
    case None => fs.Read(path) == None
    case Some(sv) =>
      && sv.vault < |book.births|
      && ValidList(sv.entries)
      && Sealed(p, log, book.births[sv.vault], sv.nonce, sv.entries)
      && fs.Read(path) == Some(ToBytes(FileOf(p, book.births[sv.vault], sv.nonce, sv.entries)))
  }

  ghost predicate InMemory(mode: Mode, book: Book) {
    match mode
    case NoVault => !book.stale
    case Locked => book.saved.Some? && !book.stale
    case Unlocked(v) =>
      && book.saved.Some?
      && book.saved.value.vault < |book.births|
      && v == VaultOf(book.births[book.saved.value.vault], v.entries)
      && ValidList(v.entries)
      && (book.stale || v.entries == book.saved.value.entries)
  }

  ghost predicate Inv(p: Primitives, path: Name, w: World) {
    && w.sys.fs.Valid()
    && Honest(p, w.sys.log, w.book.births)
    && DistinctNonces(w.book.births)
    && OnDisk(p, path, w.sys.fs, w.sys.log, w.book)
    && InMemory(w.sys.mode, w.book)
  }

  // ---- Every call keeps it ----

  lemma WriteOutcome(path: Name, fs: Fs, file: VaultFile, io: SaveIo)
    requires fs.Valid() && io.Tmp() != path
    ensures var (fs', r) := AtomicWrite(fs, path, io.Tmp(), ToBytes(file), io.faults);
            fs'.Valid() && fs'.Read(path) == if r.Ok? then Some(ToBytes(file)) else fs.Read(path)
  {
    AtomicWriteOutcome(fs, path, io.Tmp(), ToBytes(file), io.faults);
  }

  lemma SealRecord(p: Primitives, log: Log, b: Birth, es: seq<Entry>, nonce: Draw)
    requires DrawOf(nonce, NONCE_LEN) && Seal(p, log, VaultOf(b, es), nonce).1.Ok?
    ensures nonce.Some?
    ensures var (log', r) := Seal(p, log, VaultOf(b, es), nonce);
            r.value == FileOf(p, b, nonce.value, es) && Sealed(p, log', b, nonce.value, es)
  {
  }

  lemma OnDiskExtends(p: Primitives, path: Name, fs: Fs, log: Log, fs': Fs, log': Log, book: Book)
    requires OnDisk(p, path, fs, log, book) && Extends(log, log') && fs'.Read(path) == fs.Read(path)
    ensures OnDisk(p, path, fs', log', book)
  {
  }

  /** Saving, whatever the list in memory is. */
  lemma SaveKeepsInv(p: Primitives, path: Name, s: Sys, book: Book, io: SaveIo)
    requires Sound(p) && Inv(p, path, World(s, book)) && s.mode.Unlocked?
    requires io.Valid() && io.Tmp() != path
    ensures var (s', r) := SaveDone(p, path, s, io);
            && s'.mode == s.mode
            && (r.Err? ==> Inv(p, path, World(s', book)) && s'.fs.Read(path) == s.fs.Read(path))
            && (r.Ok? ==> Inv(p, path, World(s', book.(
                  saved := Some(Saved(book.saved.value.vault, Drawn(io.nonce), s.mode.vault.entries)), stale := false))))
  {
    var v, i := s.mode.vault, book.saved.value.vault;
    SealKeepsHonest(p, s.log, book.births, i, v, io.nonce);
    var (log', made) := Seal(p, s.log, v, io.nonce);
    if made.Err? {
      OnDiskExtends(p, path, s.fs, s.log, s.fs, log', book);
    } else {
      SealRecord(p, s.log, book.births[i], v.entries, io.nonce);
      WriteOutcome(path, s.fs, made.value, io);
      var (fs', r) := AtomicWrite(s.fs, path, io.Tmp(), ToBytes(made.value), io.faults);
      if r.Err? {
        OnDiskExtends(p, path, s.fs, s.log, fs', log', book);
      }
    }
  }

  lemma BirthRecord(p: Primitives, log: Log, births: seq<Birth>, password: string, d: CreateDraws)
    requires Sound(p) && Honest(p, log, births) && d.Valid() && DistinctNonces(births)
    requires forall i :: 0 <= i < |births| ==> births[i].nonce != Drawn(d.wrapNonce)
    ensures var more := BirthsAfter(p, log, births, Utf8.Encode(password), d); births <= more && DistinctNonces(more)
  {
    BirthNonce(p, log, Utf8.Encode(password), d);
  }

  lemma BirthNonce(p: Primitives, log: Log, password: Bytes, d: CreateDraws)
    requires d.Valid()
    ensures var r := NewBirth(p, log, password, d).1; r.Ok? ==> r.value.nonce == Drawn(d.wrapNonce)
  {
  }

  lemma NewRecord(p: Primitives, log: Log, births: seq<Birth>, password: string, d: CreateDraws)
    requires New(p, log, password, d).1.Ok? && d.Valid()
    ensures d.payloadNonce.Some?
    ensures var more := BirthsAfter(p, log, births, Utf8.Encode(password), d);
            var (log', r) := New(p, log, password, d);
            && |more| == |births| + 1
            && more[|births|].password == Utf8.Encode(password)
            && r.value == (FileOf(p, more[|births|], d.payloadNonce.value, []), VaultOf(more[|births|], []))
            && Sealed(p, log', more[|births|], d.payloadNonce.value, [])
  {
    EmptyPayload();
  }

  lemma InstallOutcome(path: Name, s: Sys, file: VaultFile, vault: VaultState, io: SaveIo, now: nat)
    requires s.fs.Valid() && io.Tmp() != path
    ensures var (s', r) := Installed(path, s, file, vault, io, now);
            && s'.fs.Valid() && s'.log == s.log
            && s'.mode == (if r.Ok? then Unlocked(vault) else s.mode)
            && s'.fs.Read(path) == if r.Ok? then Some(ToBytes(file)) else s.fs.Read(path)
  {
    WriteOutcome(path, s.fs, file, io);
  }

  /** A file and an open vault made for one of the recorded vaults, and what a save of it records. */
  ghost predicate MadeFor(p: Primitives, log: Log, births: seq<Birth>, made: (VaultFile, VaultState), saved: Saved) {
    && saved.vault < |births| && saved.entries == []
    && made == (FileOf(p, births[saved.vault], saved.nonce, []), VaultOf(births[saved.vault], []))
    && Sealed(p, log, births[saved.vault], saved.nonce, [])
  }

  /** The file is there and the vault is open. */
  lemma StoredInv(p: Primitives, path: Name, s: Sys, s': Sys, book: Book, made: (VaultFile, VaultState), saved: Saved)
    requires Inv(p, path, World(s, book)) && MadeFor(p, s.log, book.births, made, saved)
    requires s'.fs.Valid() && s'.log == s.log && s'.mode == Unlocked(made.1)
    requires s'.fs.Read(path) == Some(ToBytes(made.0))
    ensures Inv(p, path, World(s', book.(saved := Some(saved), stale := false)))
  {
    assert ValidList([]);
  }

  /** Nothing was stored. */
  lemma UnstoredInv(p: Primitives, path: Name, s: Sys, s': Sys, book: Book)
    requires Inv(p, path, World(s, book))
    requires s'.fs.Valid() && s'.log == s.log && s'.mode == s.mode && s'.fs.Read(path) == s.fs.Read(path)
    ensures Inv(p, path, World(s', book))
  {
  }

  lemma NewKeepsInv(p: Primitives, path: Name, s: Sys, book: Book, password: string, d: CreateDraws)
    requires Sound(p) && Inv(p, path, World(s, book)) && d.Valid()
    requires forall i :: 0 <= i < |book.births| ==> book.births[i].nonce != Drawn(d.wrapNonce)
    ensures var more := BirthsAfter(p, s.log, book.births, Utf8.Encode(password), d);
            Inv(p, path, World(s.(error := None, log := New(p, s.log, password, d).0), book.(births := more)))
  {
    NewKeepsHonest(p, s.log, book.births, password, d);
    BirthRecord(p, s.log, book.births, password, d);
    var more := BirthsAfter(p, s.log, book.births, Utf8.Encode(password), d);
    assert forall i :: 0 <= i < |book.births| ==> more[i] == book.births[i];
  }

  /** What becomes of a vault that has been made, or not, as the last of the recorded ones. */
  function AfterMaking(path: Name, s: Sys, book: Book, made: Result<(VaultFile, VaultState)>, saved: Saved, io: SaveIo, now: nat): World {
    if made.Err? then World(s, book)
    else
      var (s', r) := Installed(path, s, made.value.0, made.value.1, io, now);
      World(s', if r.Err? then book else book.(saved := Some(saved), stale := false))
  }

  lemma CreateLedger(p: Primitives, path: Name, w: World, op: Op)
    requires Attempted(path, w.sys, op) && (w.book.stale ==> w.sys.mode.Unlocked?)
    ensures var (log', made) := New(p, w.sys.log, op.password, op.draws);
            Step(p, path, w, op) ==
              AfterMaking(path, w.sys.(error := None, log := log'), w.book.(births := BirthsNow(p, path, w, op)), made,
                          Saved(|w.book.births|, Drawn(op.draws.payloadNonce), []), op.io, op.now)
  {
  }

  lemma RefusedLedger(p: Primitives, path: Name, w: World, op: Op)
    requires op.CreateVault? && !Attempted(path, w.sys, op)
    ensures var w' := Step(p, path, w, op);
            && w'.sys == w.sys.(error := w'.sys.error)
            && w'.book == w.book.(stale := w.sys.mode.Unlocked? && w.book.stale)
  {
  }

  /** Nothing that the invariant speaks of has changed. */
  lemma SameKeepsInv(p: Primitives, path: Name, w: World, w': World)
    requires Inv(p, path, w)
    requires w'.sys.fs == w.sys.fs && w'.sys.log == w.sys.log && w'.sys.mode == w.sys.mode
    requires w'.book == w.book.(stale := w.sys.mode.Unlocked? && w.book.stale)
    ensures Inv(p, path, w')
  {
  }

  lemma MakesVault(p: Primitives, path: Name, s: Sys, book: Book, password: string, d: CreateDraws)
    requires Sound(p) && Inv(p, path, World(s, book)) && d.Valid()
    requires forall i :: 0 <= i < |book.births| ==> book.births[i].nonce != Drawn(d.wrapNonce)
    ensures var more := BirthsAfter(p, s.log, book.births, Utf8.Encode(password), d);
            var (log', made) := New(p, s.log, password, d);
            && Inv(p, path, World(s.(error := None, log := log'), book.(births := more)))
            && (made.Ok? ==> MadeFor(p, log', more, made.value, Saved(|book.births|, Drawn(d.payloadNonce), [])))
  {
    NewKeepsInv(p, path, s, book, password, d);
    if New(p, s.log, password, d).1.Ok? {
      NewRecord(p, s.log, book.births, password, d);
    }
  }

  lemma AttemptKeepsInv(p: Primitives, path: Name, w: World, op: Op)
    requires Sound(p) && Inv(p, path, w) && Attempted(path, w.sys, op) && Fair(path, w.book.births, op)
    ensures Inv(p, path, Step(p, path, w, op))
  {
    var (log', made) := New(p, w.sys.log, op.password, op.draws);
    MakesVault(p, path, w.sys, w.book, op.password, op.draws);
    CreateLedger(p, path, w, op);
    MadeKeepsInv(p, path, w.sys.(error := None, log := log'), w.book.(births := BirthsNow(p, path, w, op)), made,
                 Saved(|w.book.births|, Drawn(op.draws.payloadNonce), []), op.io, op.now);
  }

  /** Writing the file of a vault whose key has just been wrapped. */
  lemma MadeKeepsInv(p: Primitives, path: Name, s: Sys, book: Book, made: Result<(VaultFile, VaultState)>, saved: Saved, io: SaveIo, now: nat)
    requires Inv(p, path, World(s, book)) && io.Valid() && io.Tmp() != path
    requires made.Ok? ==> MadeFor(p, s.log, book.births, made.value, saved)
    ensures Inv(p, path, AfterMaking(path, s, book, made, saved, io, now))
  {
    if made.Ok? {
      InstallOutcome(path, s, made.value.0, made.value.1, io, now);
      var (s', r) := Installed(path, s, made.value.0, made.value.1, io, now);
      if r.Ok? {
        StoredInv(p, path, s, s', book, made.value, saved);
      } else {
        UnstoredInv(p, path, s, s', book);
      }
    }
  }

  lemma CreateKeepsInv(p: Primitives, path: Name, w: World, op: Op)
    requires Sound(p) && Inv(p, path, w) && op.CreateVault? && Fair(path, w.book.births, op)
    ensures Inv(p, path, Step(p, path, w, op))
  {
    if Attempted(path, w.sys, op) {
      AttemptKeepsInv(p, path, w, op);
    } else {
      RefusedLedger(p, path, w, op);
      SameKeepsInv(p, path, w, Step(p, path, w, op));
    }
  }

  /** Changing the list in memory and saving it. */
  lemma ChangeKeepsInv(p: Primitives, path: Name, s: Sys, book: Book, es: seq<Entry>, io: SaveIo)
    requires Sound(p) && Inv(p, path, World(s, book)) && s.mode.Unlocked? && ValidList(es)
    requires io.Valid() && io.Tmp() != path
    ensures var (s', r) := SaveDone(p, path, WithEntries(s, es), io);
            && s'.mode == WithEntries(s, es).mode
            && (r.Err? ==> Inv(p, path, World(s', book.(stale := true))) && s'.fs.Read(path) == s.fs.Read(path))
            && (r.Ok? ==> Inv(p, path, World(s', book.(
                  saved := Some(Saved(book.saved.value.vault, Drawn(io.nonce), es)), stale := false))))
  {
    assert Inv(p, path, World(WithEntries(s, es), book.(stale := true)));
    SaveKeepsInv(p, path, WithEntries(s, es), book.(stale := true), io);
  }

  function ChangeAnswer(op: Op, saved: Result<Unit>): Answer {
    if op.AddEntry? then Done(saved) else Changed(if saved.Err? then Err(saved.error) else Ok(true))
  }

  lemma ChangingLedger(p: Primitives, path: Name, w: World, op: Op, s': Sys, r: Result<Unit>)
    requires op.IsEntryOp() && Do(p, path, w.sys, op) == (s', ChangeAnswer(op, r))
    requires w.book.saved.Some? && s'.mode.Unlocked?
    ensures Step(p, path, w, op) == World(s', if r.Err? then w.book.(stale := w.book.stale || s'.mode != w.sys.mode) else w.book.(
              saved := Some(Saved(w.book.saved.value.vault, Drawn(op.io.nonce), s'.mode.vault.entries)), stale := false))
  {
  }

  /** An entry operation that changes the list in memory to `es` and then saves. */
  lemma ChangingStep(p: Primitives, path: Name, w: World, op: Op, es: seq<Entry>)
    requires Sound(p) && Inv(p, path, w) && op.IsEntryOp() && Fair(path, w.book.births, op)
    requires w.sys.mode.Unlocked? && ValidList(es)
    requires var (s', r) := SaveDone(p, path, WithEntries(w.sys, es), op.io);
             Do(p, path, w.sys, op) == (s', ChangeAnswer(op, r))
    ensures Inv(p, path, Step(p, path, w, op))
  {
    var (s', r) := SaveDone(p, path, WithEntries(w.sys, es), op.io);
    ChangeKeepsInv(p, path, w.sys, w.book, es, op.io);
    ChangingLedger(p, path, w, op, s', r);
    if r.Err? && s'.mode == w.sys.mode {
      UnchangedInv(p, path, w, s');
    }
  }

  lemma UnchangedInv(p: Primitives, path: Name, w: World, s': Sys)
    requires Inv(p, path, w) && Inv(p, path, World(s', w.book.(stale := true))) && s'.mode == w.sys.mode
    ensures Inv(p, path, World(s', w.book))
  {
  }

  lemma IdleStep(p: Primitives, path: Name, w: World, op: Op)
    requires Inv(p, path, w) && !op.CreateVault?
    requires Do(p, path, w.sys, op).0 == w.sys && !Wrote(w.sys, op, Do(p, path, w.sys, op).1)
    ensures Inv(p, path, Step(p, path, w, op))
  {
  }

  lemma AddOutcome(p: Primitives, path: Name, s: Sys, e: Entry, io: SaveIo)
    requires s.mode.Unlocked? && Added(s.mode.vault.entries, e).Ok?
    ensures var (s', r) := SaveDone(p, path, WithEntries(s, s.mode.vault.entries + [e]), io);
            Do(p, path, s, AddEntry(e, io)) == (s', ChangeAnswer(AddEntry(e, io), r))
  {
  }

  lemma AddRefused(p: Primitives, path: Name, s: Sys, e: Entry, io: SaveIo)
    requires s.mode.Unlocked? && Added(s.mode.vault.entries, e).Err?
    ensures Do(p, path, s, AddEntry(e, io)) == (s, Done(Err(Added(s.mode.vault.entries, e).error)))
  {
  }

  /** A closed vault refuses entry operations. */
  lemma ClosedRefuses(p: Primitives, path: Name, s: Sys, op: Op)
    requires op.IsEntryOp() && !s.mode.Unlocked?
    ensures Do(p, path, s, op).0 == s && Do(p, path, s, op).1.Failed()
  {
  }

  lemma AddedKeepsInv(p: Primitives, path: Name, w: World, op: Op)
    requires Sound(p) && Inv(p, path, w) && op.AddEntry? && Fair(path, w.book.births, op) && w.sys.mode.Unlocked?
    requires Added(w.sys.mode.vault.entries, op.entry).Ok?
    ensures Inv(p, path, Step(p, path, w, op))
  {
    AddKeepsValid(w.sys.mode.vault.entries, op.entry);
    AddOutcome(p, path, w.sys, op.entry, op.io);
    ChangingStep(p, path, w, op, w.sys.mode.vault.entries + [op.entry]);
  }

  lemma AddKeepsInv(p: Primitives, path: Name, w: World, op: Op)
    requires Sound(p) && Inv(p, path, w) && op.AddEntry? && Fair(path, w.book.births, op) && w.sys.mode.Unlocked?
    ensures Inv(p, path, Step(p, path, w, op))
  {
    if Added(w.sys.mode.vault.entries, op.entry).Ok? {
      AddedKeepsInv(p, path, w, op);
    } else {
      AddRefused(p, path, w.sys, op.entry, op.io);
      IdleStep(p, path, w, op);
    }
  }

  lemma UpdateOutcome(p: Primitives, path: Name, s: Sys, e: Entry, io: SaveIo)
    requires s.mode.Unlocked?
    ensures var es := s.mode.vault.entries;
            var (s', r) := SaveDone(p, path, WithEntries(s, UpdatedFirst(es, e)), io);
            Do(p, path, s, UpdateEntry(e, io)) ==
              if ValidateEntry(e).Err? then (s, Changed(Err(InvalidEntry)))
              else if e.id !in Ids(es) then (s, Changed(Ok(false)))
              else (s', ChangeAnswer(UpdateEntry(e, io), r))
  {
    if e.id !in Ids(s.mode.vault.entries) {
      UpdatedFirstNowhere(s.mode.vault.entries, e);
    }
  }

  lemma UpdateKeepsInv(p: Primitives, path: Name, w: World, op: Op)
    requires Sound(p) && Inv(p, path, w) && op.UpdateEntry? && Fair(path, w.book.births, op) && w.sys.mode.Unlocked?
    ensures Inv(p, path, Step(p, path, w, op))
  {
    var es := w.sys.mode.vault.entries;
    UpdateOutcome(p, path, w.sys, op.entry, op.io);
    if ValidateEntry(op.entry).Ok? && op.entry.id in Ids(es) {
      UpdateKeepsValid(es, op.entry);
      ChangingStep(p, path, w, op, UpdatedFirst(es, op.entry));
    } else {
      IdleStep(p, path, w, op);
    }
  }

  lemma RemoveOutcome(p: Primitives, path: Name, s: Sys, id: string, io: SaveIo)
    requires s.mode.Unlocked?
    ensures var es := s.mode.vault.entries;
            var (s', r) := SaveDone(p, path, WithEntries(s, Retained(es, id)), io);
            Do(p, path, s, RemoveEntry(id, io)) ==
              if id !in Ids(es) then (s, Changed(Ok(false))) else (s', ChangeAnswer(RemoveEntry(id, io), r))
  {
    if id !in Ids(s.mode.vault.entries) {
      var es := s.mode.vault.entries;
      assert forall i :: 0 <= i < |es| ==> es[i].id == Ids(es)[i];
      RetainedNowhere(es, id);
    }
  }

  lemma NothingRemoved(p: Primitives, path: Name, s: Sys, id: string, io: SaveIo)
    requires s.mode.Unlocked? && id !in Ids(s.mode.vault.entries)
    ensures Do(p, path, s, RemoveEntry(id, io)) == (s, Changed(Ok(false)))
  {
    RemoveOutcome(p, path, s, id, io);
  }

  lemma RemovedKeepsInv(p: Primitives, path: Name, w: World, op: Op)
    requires Sound(p) && Inv(p, path, w) && op.RemoveEntry? && Fair(path, w.book.births, op) && w.sys.mode.Unlocked?
    requires op.id in Ids(w.sys.mode.vault.entries)
    ensures Inv(p, path, Step(p, path, w, op))
  {
    RemoveOutcome(p, path, w.sys, op.id, op.io);
    RemoveKeepsValid(w.sys.mode.vault.entries, op.id);
    ChangingStep(p, path, w, op, Retained(w.sys.mode.vault.entries, op.id));
  }

  lemma RemoveKeepsInv(p: Primitives, path: Name, w: World, op: Op)
    requires Sound(p) && Inv(p, path, w) && op.RemoveEntry? && Fair(path, w.book.births, op) && w.sys.mode.Unlocked?
    ensures Inv(p, path, Step(p, path, w, op))
  {
    if op.id in Ids(w.sys.mode.vault.entries) {
      RemovedKeepsInv(p, path, w, op);
    } else {
      NothingRemoved(p, path, w.sys, op.id, op.io);
      IdleStep(p, path, w, op);
    }
  }

  lemma SaveOpKeepsInv(p: Primitives, path: Name, w: World, op: Op)
    requires Sound(p) && Inv(p, path, w) && op.SaveVault? && Fair(path, w.book.births, op)
    ensures Inv(p, path, Step(p, path, w, op))
  {
    if w.sys.mode.Unlocked? {
      SaveKeepsInv(p, path, w.sys, w.book, op.io);
      SaveLedger(p, path, w, op);
    } else {
      IdleStep(p, path, w, op);
    }
  }

  lemma SaveLedger(p: Primitives, path: Name, w: World, op: Op)
    requires op.SaveVault? && w.sys.mode.Unlocked? && w.book.saved.Some?
    ensures var (s', r) := SaveDone(p, path, w.sys, op.io);
            Step(p, path, w, op) == World(s', if r.Err? then w.book else w.book.(
              saved := Some(Saved(w.book.saved.value.vault, Drawn(op.io.nonce), w.sys.mode.vault.entries)), stale := false))
  {
  }

  // ---- Unlocking ----

  /** Every vault that opens the stored file with a derived key is the one that was saved. */
  lemma OnlyOneVault(births: seq<Birth>, i: nat, j: nat)
    requires DistinctNonces(births) && i < |births| && j < |births|
    requires |births[i].nonce| == |births[j].nonce| == NONCE_LEN && |births[i].wrapped| >= TAG_LEN && |births[j].wrapped| >= TAG_LEN
    requires births[i].Wrapped() == births[j].Wrapped()
    ensures i == j
  {
    BlobRoundTrip(births[i].nonce, births[i].wrapped);
    BlobRoundTrip(births[j].nonce, births[j].wrapped);
  }

  lemma SavedFileIsValid(p: Primitives, log: Log, b: Birth, nonce: Bytes, es: seq<Entry>)
    requires Sound(p) && Recorded(p, log, b) && |nonce| == NONCE_LEN
    ensures var f := FileOf(p, b, nonce, es);
            && f.Validate().Ok? && f.kdf.ToKdfParams() == Ok(b.params)
            && f.vault.DecodeNonce() == Ok(nonce) && f.vault.DecodeCiphertext() == Ok(Ciphertext(p, b, nonce, es))
  {
    KdfParamsRoundTrip(b.params);
    BlobRoundTrip(b.nonce, b.wrapped);
    BlobRoundTrip(nonce, Ciphertext(p, b, nonce, es));
    ValidFile(FileOf(p, b, nonce, es));
  }

  /** What `unlock` makes of the stored file: exactly the saved list for the right key, `Authentication` for any other. */
  lemma UnlockOfSaved(p: Primitives, log: Log, births: seq<Birth>, i: nat, nonce: Bytes, es: seq<Entry>, password: string, kek: Bytes)
    requires Sound(p) && Honest(p, log, births) && DistinctNonces(births) && i < |births|
    requires Sealed(p, log, births[i], nonce, es) && ValidList(es) && |WriteEntries(es)| <= MAX_DECRYPTED_BYTES
    requires Kek(p, Utf8.Encode(password), births[i].params) == Ok(kek)
    ensures Unlock(p, log, FileOf(p, births[i], nonce, es), password)
            == if kek == births[i].kek then Ok(VaultOf(births[i], es)) else Err(Authentication)
  {
    var b, f := births[i], FileOf(p, births[i], nonce, es);
    SavedFileIsValid(p, log, b, nonce, es);
    UnlockByKek(p, log, births, f, password, kek);
    if kek == b.kek {
      PayloadRoundTrip(es);
      OpenedUnlocks(p, log, births, f, password, kek, i);
    } else if j: nat :| Opened(log, births, f, kek, j) {
      OnlyOneVault(births, i, j);
    }
  }

  lemma BirthOpens(p: Primitives, log: Log, b: Birth, es: seq<Entry>)
    requires Sound(p) && Recorded(p, log, b)
    ensures Opens(p, log, VaultOf(b, es), b.password)
  {
    KdfParamsRoundTrip(b.params);
    BlobRoundTrip(b.nonce, b.wrapped);
  }

  lemma SavedFileLength(p: Primitives, log: Log, b: Birth, nonce: Bytes, es: seq<Entry>)
    requires Sound(p) && Recorded(p, log, b) && |nonce| == NONCE_LEN
    ensures |ToBytes(FileOf(p, b, nonce, es))|
            == VaultSize.HeaderLength(b.Kdf(), b.Wrapped()) + 16 + (|WriteEntries(es)| + TAG_LEN + 2) / 3 * 4
  {
    KdfParamsRoundTrip(b.params);
    BlobRoundTrip(b.nonce, b.wrapped);
    VaultSize.LengthByCiphertext(FileOf(p, b, nonce, es), nonce, Ciphertext(p, b, nonce, es));
  }

  lemma SavedHeaderLength(p: Primitives, log: Log, b: Birth)
    requires Sound(p) && Genuine(p, log) && Recorded(p, log, b)
    ensures 297 <= VaultSize.HeaderLength(b.Kdf(), b.Wrapped()) <= 300
  {
    BirthOpens(p, log, b, []);
    VaultSize.HeaderLengthBounds(p, log, VaultOf(b, []), b.password);
  }

  /** A stored file is within the read limits exactly when its payload has at most `MAX_READABLE_PAYLOAD` bytes. */
  lemma SavedFileFits(p: Primitives, log: Log, b: Birth, nonce: Bytes, es: seq<Entry>)
    requires Sound(p) && Genuine(p, log) && Recorded(p, log, b) && |nonce| == NONCE_LEN
    ensures |ToBytes(FileOf(p, b, nonce, es))| <= MAX_VAULT_FILE_BYTES <==> |WriteEntries(es)| <= VaultSize.MAX_READABLE_PAYLOAD
  {
    SavedFileLength(p, log, b, nonce, es);
    SavedHeaderLength(p, log, b);
    VaultSize.Threshold(VaultSize.HeaderLength(b.Kdf(), b.Wrapped()), |WriteEntries(es)|);
  }

  /** The result of unlocking a stored list with a password that gives `kek`. */
  function Reopened(b: Birth, es: seq<Entry>, kek: Result<Bytes>): Result<VaultState> {
    if |WriteEntries(es)| > VaultSize.MAX_READABLE_PAYLOAD then Err(VaultFormat)
    else if kek.Err? then Err(KeyDerivation)
    else if kek.value != b.kek then Err(Authentication)
    else Ok(VaultOf(b, es))
  }

  lemma ReadOfSaved(p: Primitives, log: Log, b: Birth, nonce: Bytes, es: seq<Entry>, path: Name, fs: Fs)
    requires Sound(p) && Genuine(p, log) && Recorded(p, log, b) && |nonce| == NONCE_LEN
    requires fs.Read(path) == Some(ToBytes(FileOf(p, b, nonce, es)))
    ensures if |WriteEntries(es)| > VaultSize.MAX_READABLE_PAYLOAD then ReadVault(fs, path, None) == Err(VaultFormat)
            else ReadVault(fs, path, None).Ok? && FromBytes(ReadVault(fs, path, None).value) == Ok(FileOf(p, b, nonce, es))
  {
    SavedFileIsValid(p, log, b, nonce, es);
    SavedFileFits(p, log, b, nonce, es);
    FileRoundTrip(FileOf(p, b, nonce, es));
  }

  lemma UnlockTriedOutcome(p: Primitives, path: Name, s: Sys, births: seq<Birth>, i: nat, nonce: Bytes, es: seq<Entry>, password: string)
    requires Sound(p) && Honest(p, s.log, births) && DistinctNonces(births) && i < |births|
    requires Sealed(p, s.log, births[i], nonce, es) && ValidList(es)
    requires s.fs.Read(path) == Some(ToBytes(FileOf(p, births[i], nonce, es)))
    ensures UnlockTried(p, path, s, password, None) == Reopened(births[i], es, Kek(p, Utf8.Encode(password), births[i].params))
  {
    var b, f := births[i], FileOf(p, births[i], nonce, es);
    ReadOfSaved(p, s.log, b, nonce, es, path, s.fs);
    if |WriteEntries(es)| <= VaultSize.MAX_READABLE_PAYLOAD {
      var k := Kek(p, Utf8.Encode(password), b.params);
      if k.Ok? {
        UnlockOfSaved(p, s.log, births, i, nonce, es, password, k.value);
      } else {
        UnlockWithoutKey(p, s.log, b, nonce, es, password);
      }
    }
  }

  lemma UnlockWithoutKey(p: Primitives, log: Log, b: Birth, nonce: Bytes, es: seq<Entry>, password: string)
    requires Sound(p) && Recorded(p, log, b) && |nonce| == NONCE_LEN && Kek(p, Utf8.Encode(password), b.params).Err?
    ensures Unlock(p, log, FileOf(p, b, nonce, es), password) == Err(KeyDerivation)
  {
    SavedFileIsValid(p, log, b, nonce, es);
  }

  lemma OpenKeepsInv(p: Primitives, path: Name, w: World, op: Op)
    requires Sound(p) && Inv(p, path, w) && op.OpenVault?
    ensures Inv(p, path, Step(p, path, w, op))
  {
    var s := w.sys;
    OpenLedger(p, path, w, op);
    if s.mode.Locked? {
      LoadedIs(p, path, w, op.password, op.fault);
      LoadedInv(p, path, w, Step(p, path, w, op));
    } else {
      SameKeepsInv(p, path, w, Step(p, path, w, op));
    }
  }

  lemma LoadsSaved(p: Primitives, path: Name, s: Sys, births: seq<Birth>, sv: Saved, password: string)
    requires Sound(p) && Honest(p, s.log, births) && DistinctNonces(births) && sv.vault < |births|
    requires Sealed(p, s.log, births[sv.vault], sv.nonce, sv.entries) && ValidList(sv.entries)
    requires s.fs.Read(path) == Some(ToBytes(FileOf(p, births[sv.vault], sv.nonce, sv.entries)))
    ensures var r := UnlockTried(p, path, s, password, None); r.Ok? ==> r.value == VaultOf(births[sv.vault], sv.entries)
  {
    UnlockTriedOutcome(p, path, s, births, sv.vault, sv.nonce, sv.entries, password);
  }

  /** What an unlock loads, if it does, is what was saved. */
  lemma LoadedIs(p: Primitives, path: Name, w: World, password: string, fault: Option<ReadFault>)
    requires Sound(p) && Inv(p, path, w) && w.book.saved.Some?
    ensures var r := UnlockTried(p, path, w.sys, password, fault);
            r.Ok? ==> r.value == VaultOf(w.book.births[w.book.saved.value.vault], w.book.saved.value.entries)
  {
    var sv := w.book.saved.value;
    FaultyUnlock(p, path, w.sys, password, fault);
    LoadsSaved(p, path, w.sys, w.book.births, sv, password);
  }

  lemma LoadedInv(p: Primitives, path: Name, w: World, w': World)
    requires Inv(p, path, w) && w.sys.mode.Locked?
    requires w'.sys.fs == w.sys.fs && w'.sys.log == w.sys.log && w'.book == w.book
    requires w'.sys.mode == w.sys.mode
             || w'.sys.mode == Unlocked(VaultOf(w.book.births[w.book.saved.value.vault], w.book.saved.value.entries))
    ensures Inv(p, path, w')
  {
  }

  lemma FaultyUnlock(p: Primitives, path: Name, s: Sys, password: string, fault: Option<ReadFault>)
    ensures UnlockTried(p, path, s, password, fault).Ok? ==>
              UnlockTried(p, path, s, password, fault) == UnlockTried(p, path, s, password, None)
  {
  }

  lemma OpenLedger(p: Primitives, path: Name, w: World, op: Op)
    requires op.OpenVault?
    ensures var s, w' := w.sys, Step(p, path, w, op);
            var r := UnlockTried(p, path, s, op.password, op.fault);
            && w'.sys.fs == s.fs && w'.sys.log == s.log
            && w'.sys.mode == (if s.mode.Locked? && r.Ok? then Unlocked(r.value) else s.mode)
            && w'.book == w.book.(stale := w'.sys.mode.Unlocked? && w.book.stale)
  {
  }

  lemma OtherLedger(p: Primitives, path: Name, w: World, op: Op)
    requires !op.MayWrite() && !op.OpenVault?
    ensures var s, w' := w.sys, Step(p, path, w, op);
            && w'.sys.fs == s.fs && w'.sys.log == s.log
            && (w'.sys.mode == s.mode || (op.Restart? && w'.sys.mode == if VaultExists(s.fs, path, op.lookFails) then Locked else NoVault)
                || (s.mode.Unlocked? && w'.sys.mode == Locked))
            && w'.book == w.book.(stale := w'.sys.mode.Unlocked? && w.book.stale)
  {
  }

  lemma OtherKeepsInv(p: Primitives, path: Name, w: World, op: Op)
    requires Inv(p, path, w) && !op.MayWrite() && !op.OpenVault?
    ensures Inv(p, path, Step(p, path, w, op))
  {
    OtherLedger(p, path, w, op);
    var w' := Step(p, path, w, op);
    if w'.sys.mode == w.sys.mode {
      SameKeepsInv(p, path, w, w');
    }
  }

  lemma EntryOpKeepsInv(p: Primitives, path: Name, w: World, op: Op)
    requires Sound(p) && Inv(p, path, w) && op.IsEntryOp() && Fair(path, w.book.births, op)
    ensures Inv(p, path, Step(p, path, w, op))
  {
    if !w.sys.mode.Unlocked? {
      ClosedRefuses(p, path, w.sys, op);
      IdleStep(p, path, w, op);
    } else if op.AddEntry? {
      AddKeepsInv(p, path, w, op);
    } else if op.UpdateEntry? {
      UpdateKeepsInv(p, path, w, op);
    } else {
      RemoveKeepsInv(p, path, w, op);
    }
  }

  lemma StepKeepsInv(p: Primitives, path: Name, w: World, op: Op)
    requires Sound(p) && Inv(p, path, w) && Fair(path, w.book.births, op)
    ensures Inv(p, path, Step(p, path, w, op))
  {
    if op.CreateVault? {
      CreateKeepsInv(p, path, w, op);
    } else if op.SaveVault? {
      SaveOpKeepsInv(p, path, w, op);
    } else if op.IsEntryOp() {
      EntryOpKeepsInv(p, path, w, op);
    } else if op.OpenVault? {
      OpenKeepsInv(p, path, w, op);
    } else {
      OtherKeepsInv(p, path, w, op);
    }
  }

  lemma {:induction false} RunKeepsInv(p: Primitives, path: Name, w: World, ops: seq<Op>)
    requires Sound(p) && Inv(p, path, w) && FairRun(p, path, w, ops)
    ensures Inv(p, path, Run(p, path, w, ops))
    decreases |ops|
  {
    if ops != [] {
      StepKeepsInv(p, path, w, ops[0]);
      RunKeepsInv(p, path, Step(p, path, w, ops[0]), ops[1..]);
    }
  }
}
