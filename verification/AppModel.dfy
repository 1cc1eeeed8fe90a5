/** What each operation of the application does to its state, the disk, the cipher history and the clipboard. */
module AppModel {
  import opened Basics
  import opened Crypto
  import opened Vault
  import opened UnlockedVaults
  import opened Storage
  import opened Clipboard
  import opened AutoLock

  const MIN_MASTER_PASSWORD_LEN := 12

  datatype Mode = NoVault | Locked | Unlocked(vault: VaultState)

  /** The application together with the machine it runs on. */
  datatype Sys = Sys(
    mode: Mode,
    timer: Timer,
    guard: Guard,
    error: Option<Error>,
    fs: Fs,
    log: Log,
    board: Board)

  /** Random draws and failures of one save. */
  datatype SaveIo = SaveIo(nonce: Draw, tmpA: Draw, tmpB: Draw, faults: Faults) {
    predicate Valid() {
      DrawOf(nonce, NONCE_LEN) && DrawOf(tmpA, 8) && DrawOf(tmpB, 8)
    }

    function Tmp(): Name {
      TempName(OrZeros(tmpA), OrZeros(tmpB))
    }
  }

  // ---- Lifecycle ----

  /** The file of a new vault is written; then the vault is open. */
  function Installed(path: Name, s: Sys, file: VaultFile, vault: VaultState, io: SaveIo, now: nat): (Sys, Result<Unit>) {
    var (fs', w) := AtomicWrite(s.fs, path, io.Tmp(), ToBytes(file), io.faults);
    var s1 := s.(fs := fs');
    if w.Err? then (s1, w)
    else (s1.(mode := Unlocked(vault), timer := s.timer.(lastActivity := now)), Ok(Unit))
  }

  /** `io.nonce` is not used: the nonces of a new vault are in `draws`. */
  function Created(p: Primitives, path: Name, s: Sys, password: string, confirm: string, draws: CreateDraws, lookFails: bool, io: SaveIo, now: nat): (Sys, Result<Unit>) {
    if |password| < MIN_MASTER_PASSWORD_LEN then (s.(error := Some(PasswordTooShort)), Err(PasswordTooShort))
    else if password != confirm then (s.(error := Some(PasswordMismatch)), Err(PasswordMismatch))
    else if VaultExists(s.fs, path, lookFails) then (s.(error := Some(VaultAlreadyExists)), Err(VaultAlreadyExists))
    else
      var (log', r) := New(p, s.log, password, draws);
      var s1 := s.(error := None, log := log');
      match r
      case Err(e) => (s1, Err(e))
      case Ok((file, vault)) => Installed(path, s1, file, vault, io, now)
  }

  function UnlockTried(p: Primitives, path: Name, s: Sys, password: string, fault: Option<ReadFault>): Result<VaultState> {
    var bytes :- ReadVault(s.fs, path, fault);
    var file :- FromBytes(bytes);
    Unlock(p, s.log, file, password)
  }

  function UnlockDone(p: Primitives, path: Name, s: Sys, password: string, fault: Option<ReadFault>, now: nat): (Sys, Result<Unit>) {
    match s.mode
    case NoVault => (s.(error := Some(VaultNotFound)), Err(VaultNotFound))
    case Unlocked(_) => (s.(error := None), Ok(Unit))
    case Locked =>
      match UnlockTried(p, path, s, password, fault)
      case Err(e) => (s.(error := None), Err(e))
      case Ok(v) => (s.(error := None, mode := Unlocked(v), timer := s.timer.(lastActivity := now)), Ok(Unit))
  }

  function LockDone(s: Sys, now: nat): Sys {
    var s0 := s.(error := None);
    if s.mode.Unlocked? then s0.(mode := Locked, timer := s.timer.(lastActivity := now)) else s0
  }

  function SaveDone(p: Primitives, path: Name, s: Sys, io: SaveIo): (Sys, Result<Unit>) {
    match s.mode
    case Unlocked(v) =>
      (var (log', r) := Seal(p, s.log, v, io.nonce);
       match r
       case Err(e) => (s.(log := log'), Err(e))
       case Ok(file) =>
         var (fs', w) := AtomicWrite(s.fs, path, io.Tmp(), ToBytes(file), io.faults);
         (s.(log := log', fs := fs'), w))
    case _ => (s, Ok(Unit))
  }

  // ---- Entry operations: memory first, then the file ----

  function WithEntries(s: Sys, es: seq<Entry>): Sys
    requires s.mode.Unlocked?
  {
    s.(mode := Unlocked(s.mode.vault.(entries := es)))
  }

  function AddDone(p: Primitives, path: Name, s: Sys, e: Entry, io: SaveIo): (Sys, Result<Unit>) {
    if !s.mode.Unlocked? then (s, Err(VaultNotFound))
    else
      match Added(s.mode.vault.entries, e)
      case Err(x) => (s, Err(x))
      case Ok(es) => SaveDone(p, path, WithEntries(s, es), io)
  }

  function SaveChange(p: Primitives, path: Name, s: Sys, changed: bool, io: SaveIo): (Sys, Result<bool>) {
    if !changed then (s, Ok(false))
    else
      var (s', r) := SaveDone(p, path, s, io);
      (s', if r.Err? then Err(r.error) else Ok(true))
  }

  function UpdateEntryDone(p: Primitives, path: Name, s: Sys, e: Entry, io: SaveIo): (Sys, Result<bool>) {
    if !s.mode.Unlocked? then (s, Err(VaultNotFound))
    else if ValidateEntry(e).Err? then (s, Err(InvalidEntry))
    else
      var es := s.mode.vault.entries;
      SaveChange(p, path, WithEntries(s, UpdatedFirst(es, e)), e.id in Ids(es), io)
  }

  function RemoveDone(p: Primitives, path: Name, s: Sys, id: string, io: SaveIo): (Sys, Result<bool>) {
    if !s.mode.Unlocked? then (s, Err(VaultNotFound))
    else
      var es := s.mode.vault.entries;
      SaveChange(p, path, WithEntries(s, Retained(es, id)), id in Ids(es), io)
  }

  // ---- Clipboard ----

  datatype Field = PasswordField | UsernameField

  function FieldOf(e: Entry, f: Field): string {
    if f == PasswordField then e.password else e.username
  }

  function CopyDone(s: Sys, id: string, f: Field, setFails: bool, now: nat, keep: bool): (Sys, Result<Unit>) {
    if !s.mode.Unlocked? || id !in Ids(s.mode.vault.entries) then (s, Err(VaultNotFound))
    else
      var es := s.mode.vault.entries;
      var (g, b, r) := Copied(s.guard, s.board, FieldOf(es[IndexOf(Ids(es), id)], f), setFails, now, keep);
      (s.(guard := g, board := b), r)
  }

  // ---- One frame ----

  /** The clock readings of a tick in the order in which they are taken. */
  datatype Clock = Clock(poll: nat, activity: nat, check: nat, lock: nat) {
    predicate Ordered() {
      poll <= activity <= check <= lock
    }
  }

  function TickDone(s: Sys, events: seq<Event>, clock: Clock, io: ClearIo): Sys {
    var (g, b) := Polled(s.guard, s.board, clock.poll, io);
    var s1 := s.(guard := g, board := b);
    if !s.mode.Unlocked? then s1
    else
      var s2 := if UserActivityIn(events) then s1.(timer := s1.timer.(lastActivity := clock.activity)) else s1;
      if s2.timer.ShouldLockAt(clock.check) then LockDone(s2, clock.lock) else s2
  }

  /** The program ends and is started again. */
  function Restarted(path: Name, s: Sys, io: ClearIo, lookFails: bool, now: nat): Sys {
    s.(mode := if VaultExists(s.fs, path, lookFails) then Locked else NoVault,
       timer := Timer(DEFAULT_TIMEOUT, now),
       guard := NewGuard(),
       error := None,
       board := Dropped(s.guard, s.board, io))
  }
}
