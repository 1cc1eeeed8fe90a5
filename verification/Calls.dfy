/**
  * What each call of the application answers and changes, said from the state before it and the
  * call's inputs: entries, events, times, limits and errors are written out, and what a call does
  * not touch is listed.
  */
module Calls {
  import opened Basics
  import opened Crypto
  import opened Vault
  import opened VaultTheorems
  import opened UnlockedVaults
  import opened Storage
  import opened Clipboard
  import opened AutoLock
  import opened AppModel
  import opened Success
  import opened Runs
  import Utf8

  // ---- The clipboard part of ticks, copies and restarts ----

  /** One clearing attempt: the clipboard is read, and cleared exactly if the text read is what is retained. */
  ghost predicate ClearAttempt(g: Guard, b: Board, io: ClearIo, b': Board) {
    if !io.getFails && b.content.Some? && Utf8.Encode(b.content.value) == g.secret then
      && b'.calls == b.calls + [GetText(b.content), Clear(!io.clearFails)]
      && b'.content == if io.clearFails then b.content else None
    else
      b'.calls == b.calls + [GetText(if io.getFails then None else b.content)] && b'.content == b.content
  }

  /** A due clear is attempted once and forgotten with the secret; nothing happens before it is due. */
  ghost predicate PolledAt(g: Guard, b: Board, now: nat, io: ClearIo, g': Guard, b': Board) {
    if g.deadline.Some? && g.deadline.value <= now then
      && ClearAttempt(g, b, io, b')
      && g'.deadline == None && g'.clearAfter == g.clearAfter && AllZero(g'.secret)
    else
      b' == b && g' == g
  }

  lemma PollIs(g: Guard, b: Board, now: nat, io: ClearIo)
    ensures var (g', b') := Polled(g, b, now, io); PolledAt(g, b, now, io, g', b')
  {
  }

  // ---- Ticks ----

  /** Open and last active at `last`, the vault is locked by a look at the clock exactly at the timeout. */
  ghost predicate LockedByTick(s: Sys, last: nat, clock: Clock, s': Sys) {
    if s.timer.timeout > 0 && clock.check < last + s.timer.timeout then
      s'.mode == s.mode && s'.timer.lastActivity == last && s'.error == s.error
    else
      s'.mode == Locked && s'.timer.lastActivity == clock.lock && s'.error == None
  }

  /**
    * A tick in which a key or button goes down, text is entered, pasted, copied or cut, or the
    * pointer or wheel moves counts as activity; released keys and buttons and other events do
    * not. An open vault stays open exactly if the timeout has not passed since the last activity,
    * a closed one stays closed, and the clipboard is polled whether the vault is open or not.
    */
  lemma TickDoes(s: Sys, events: seq<Event>, clock: Clock, io: ClearIo)
    ensures var s' := TickDone(s, events, clock, io);
            && PolledAt(s.guard, s.board, clock.poll, io, s'.guard, s'.board)
            && s'.fs == s.fs && s'.log == s.log && s'.timer.timeout == s.timer.timeout
            && (!s.mode.Unlocked? ==> s'.mode == s.mode && s'.timer == s.timer && s'.error == s.error)
    ensures s.mode.Unlocked?
            && (Key(true) in events || Text in events || Paste in events || Copy in events || Cut in events
                || PointerMoved in events || PointerButton(true) in events || MouseWheel in events) ==>
              LockedByTick(s, clock.activity, clock, TickDone(s, events, clock, io))
    ensures s.mode.Unlocked? && (forall e :: e in events ==> e == Key(false) || e == PointerButton(false) || e == OtherEvent) ==>
              LockedByTick(s, s.timer.lastActivity, clock, TickDone(s, events, clock, io))
  {
    PollIs(s.guard, s.board, clock.poll, io);
    if Key(true) in events || Text in events || Paste in events || Copy in events || Cut in events
       || PointerMoved in events || PointerButton(true) in events || MouseWheel in events {
      assert UserActivityIn(events);
    }
  }

  // ---- Copying ----

  /**
    * Copying hands the password or the username of the first entry with the id to the guard: it
    * is put on the clipboard and retained, to be cleared after the guard's delay. If the clipboard
    * refuses, only what was retained before is wiped. A closed vault or a missing id is
    * `VaultNotFound`, and nothing is touched.
    */
  lemma CopyDoes(s: Sys, id: string, f: Field, i: nat, setFails: bool, now: nat, keep: bool)
    requires s.mode.Unlocked? && i < |s.mode.vault.entries| && s.mode.vault.entries[i].id == id
    requires forall j :: 0 <= j < i ==> s.mode.vault.entries[j].id != id
    ensures var (s', r) := CopyDone(s, id, f, setFails, now, keep);
            var e := s.mode.vault.entries[i];
            var value := match f case PasswordField => e.password case UsernameField => e.username;
            && s' == s.(guard := s'.guard, board := s'.board)
            && s'.board.calls == s.board.calls + [SetText(value, !setFails)]
            && s'.guard.clearAfter == s.guard.clearAfter
            && if setFails then
                 && r == Err(Error.Clipboard) && s'.board.content == s.board.content
                 && s'.guard.deadline == s.guard.deadline && AllZero(s'.guard.secret)
               else
                 && r == Ok(Unit) && s'.board.content == Some(value)
                 && s'.guard.secret == Utf8.Encode(value) && s'.guard.deadline == Some(now + s.guard.clearAfter)
  {
    var ids := Ids(s.mode.vault.entries);
    assert ids[i] == id && IndexOf(ids, id) == i;
  }

  lemma CopyOfNothing(s: Sys, id: string, f: Field, setFails: bool, now: nat, keep: bool)
    requires !s.mode.Unlocked? || forall j :: 0 <= j < |s.mode.vault.entries| ==> s.mode.vault.entries[j].id != id
    ensures CopyDone(s, id, f, setFails, now, keep) == (s, Err(VaultNotFound))
  {
  }

  // ---- Restarts ----

  /** Ending the program attempts a pending clear; the next start sees the file if it is there and can be looked at, with fresh timers of three minutes and twenty seconds. */
  lemma RestartDoes(path: Name, s: Sys, io: ClearIo, lookFails: bool, now: nat)
    ensures var s' := Restarted(path, s, io, lookFails, now);
            && (if s.guard.deadline.Some? then ClearAttempt(s.guard, s.board, io, s'.board) else s'.board == s.board)
            && s'.mode == (if s.fs.Read(path).Some? && !lookFails then Locked else NoVault)
            && s'.timer == Timer(180_000_000_000, now)
            && s'.guard == Guard([], None, 20_000_000_000)
            && s'.error == None && s'.fs == s.fs && s'.log == s.log
  {
  }

  // ---- Locking and unlocking ----

  lemma LockDoes(s: Sys, now: nat)
    ensures var s' := LockDone(s, now);
            && s' == s.(mode := s'.mode, timer := s'.timer, error := None)
            && (s.mode.Unlocked? ==> s'.mode == Locked && s'.timer == Timer(s.timer.timeout, now))
            && (!s.mode.Unlocked? ==> s'.mode == s.mode && s'.timer == s.timer)
  {
  }

  /** How an error of the operating system is reported. */
  function Reported(e: IoError): Error {
    if e == NotFound then VaultNotFound else Error.Storage
  }

  /** The file opens to `v`: it is there, small enough, a good file, and the password opens it. */
  ghost predicate FileOpens(p: Primitives, path: Name, s: Sys, password: string, v: VaultState, bytes: Bytes, f: VaultFile) {
    s.fs.Read(path) == Some(bytes) && |bytes| <= 67_108_864 && FromBytes(bytes) == Ok(f) && Unlock(p, s.log, f, password) == Ok(v)
  }

  /**
    * Unlocking loads a vault exactly if the application is locked, no call of the read fails and
    * the file opens; then the timer starts. An open vault stays as it is, without one in sight it
    * is `VaultNotFound`; whatever fails, only the error field changes.
    */
  lemma UnlockDoes(p: Primitives, path: Name, s: Sys, password: string, fault: Option<ReadFault>, now: nat)
    ensures var (s', r) := UnlockDone(p, path, s, password, fault, now);
            && s' == s.(mode := s'.mode, timer := s'.timer, error := s'.error)
            && s'.error == (if s.mode.NoVault? then Some(VaultNotFound) else None)
            && (s.mode.NoVault? ==> r == Err(VaultNotFound))
            && (s.mode.Unlocked? ==> r == Ok(Unit))
            && (s.mode.Locked? && r.Ok? ==>
                  && s'.mode.Unlocked? && s'.timer == Timer(s.timer.timeout, now) && fault.None?
                  && exists bytes, f :: FileOpens(p, path, s, password, s'.mode.vault, bytes, f))
            && (!s.mode.Locked? || r.Err? ==> s'.mode == s.mode && s'.timer == s.timer)
    ensures s.mode.Locked? && fault.None? ==>
              forall v, bytes, f :: FileOpens(p, path, s, password, v, bytes, f) ==>
                UnlockDone(p, path, s, password, fault, now).0.mode == Unlocked(v)
  {
    var r := UnlockTried(p, path, s, password, fault);
    if s.mode.Locked? && r.Ok? {
      var bytes := s.fs.Read(path).value;
      assert FileOpens(p, path, s, password, r.value, bytes, FromBytes(bytes).value);
    }
  }

  /** The answer is the error of the first thing that goes wrong: looking at the file, finding it, its size, reading it, its format, opening it. */
  lemma UnlockFailsWith(p: Primitives, path: Name, s: Sys, password: string, fault: Option<ReadFault>, now: nat)
    requires s.mode.Locked?
    ensures var r := UnlockDone(p, path, s, password, fault, now).1;
            match fault
            case Some(AtMetadata(e)) => r == Err(Reported(e))
            case _ =>
              match s.fs.Read(path)
              case None => r == Err(VaultNotFound)
              case Some(bytes) =>
                if |bytes| > 67_108_864 then r == Err(VaultFormat)
                else if fault.Some? then r == Err(Reported(fault.value.e))
                else
                  match FromBytes(bytes)
                  case Err(e) => r == Err(e)
                  case Ok(f) =>
                    match Unlock(p, s.log, f, password)
                    case Err(e) => r == Err(e)
                    case Ok(_) => r == Ok(Unit)
  {
  }

  // ---- Saving ----

  /** The file at the path is `f`. */
  ghost predicate HasFile(fs: Fs, path: Name, f: VaultFile) {
    fs.Read(path) == Some(ToBytes(f))
  }

  /**
    * A save touches nothing but the file and the history. It goes through only with a file of the
    * same header whose payload is the list in memory; a failed one leaves the file as it was.
    */
  lemma SaveDoes(p: Primitives, path: Name, s: Sys, io: SaveIo)
    requires Sound(p) && s.fs.Valid() && io.Valid() && io.Tmp() != path
    ensures var (s', r) := SaveDone(p, path, s, io);
            && s' == s.(fs := s'.fs, log := s'.log)
            && (!s.mode.Unlocked? ==> s' == s && r == Ok(Unit))
            && (r.Err? ==> s'.fs.Read(path) == s.fs.Read(path))
            && (s.mode.Unlocked? && r.Ok? ==>
                  var v := s.mode.vault;
                  exists f :: HasFile(s'.fs, path, f) && SealedFrom(s'.log, f, v))
  {
    if s.mode.Unlocked? {
      var made := Seal(p, s.log, s.mode.vault, io.nonce);
      if made.1.Ok? {
        AtomicWriteOutcome(s.fs, path, io.Tmp(), ToBytes(made.1.value), io.faults);
        SealIs(p, s.log, s.mode.vault, io.nonce);
        assert SaveDone(p, path, s, io).1.Ok? ==> HasFile(SaveDone(p, path, s, io).0.fs, path, made.1.value);
      }
    }
  }

  /** The file has the header of `v`, and its payload decrypts under the vault key to the JSON of the entries. */
  ghost predicate SealedFrom(log: Log, f: VaultFile, v: VaultState) {
    && f.version == v.version && f.kdf == v.kdf && f.wrappedKey == v.wrappedKey
    && f.vault.DecodeNonce().Ok? && f.vault.DecodeCiphertext().Ok?
    && DecryptVault(log, v.vaultKey, f.vault.DecodeNonce().value, f.vault.DecodeCiphertext().value) == Ok(WriteEntries(v.entries))
  }

  lemma SealIs(p: Primitives, log: Log, v: VaultState, nonce: Draw)
    requires Sound(p) && DrawOf(nonce, NONCE_LEN) && Seal(p, log, v, nonce).1.Ok?
    ensures SealedFrom(Seal(p, log, v, nonce).0, Seal(p, log, v, nonce).1.value, v)
  {
    BlobRoundTrip(nonce.value, p.gcm(v.vaultKey, nonce.value, AAD_VAULT, WriteEntries(v.entries)));
  }

  // ---- Errors of a replacement ----

  /** What the calls of a replacement report, in the order in which they are made. */
  function Reports(fs: Fs, tmp: Name, f: Faults): seq<Option<IoError>> {
    [f.create,
     if tmp in fs.live then Some(OtherIo) else None,
     if f.write.Some? then Some(f.write.value.1) else None,
     f.flush,
     f.sync,
     f.rename]
  }

  /** The error of the first report, success without one. */
  ghost predicate AsReported(rs: seq<Option<IoError>>, r: Result<Unit>) {
    && (r.Ok? <==> forall i :: 0 <= i < |rs| ==> rs[i].None?)
    && forall i :: 0 <= i < |rs| && FirstReport(rs, i) ==> r == Err(Reported(rs[i].value))
  }

  predicate FirstReport(rs: seq<Option<IoError>>, i: nat)
    requires i < |rs|
  {
    rs[i].Some? && forall j :: 0 <= j < i ==> rs[j].None?
  }

  /** A replacement fails with the error of the first call that fails, and an empty one with `VaultFormat` before any call. */
  lemma ReplacementFailsWith(fs: Fs, path: Name, tmp: Name, bytes: Bytes, f: Faults)
    ensures bytes == [] ==> AtomicWrite(fs, path, tmp, bytes, f) == (fs, Err(VaultFormat))
    ensures bytes != [] ==> AsReported(Reports(fs, tmp, f), AtomicWrite(fs, path, tmp, bytes, f).1)
  {
    if bytes != [] {
      ReportsAre(fs, tmp, f);
      ReplacementSucceedsExactlyWhen(fs, path, tmp, bytes, f);
      var rs := Reports(fs, tmp, f);
      forall i: nat | i < 6 && FirstReport(rs, i) ensures AtomicWrite(fs, path, tmp, bytes, f).1 == Err(Reported(rs[i].value)) {
        FirstFails(fs, path, tmp, bytes, f, i);
      }
    }
  }

  lemma ReportsAre(fs: Fs, tmp: Name, f: Faults)
    ensures var rs := Reports(fs, tmp, f);
            && |rs| == 6 && rs[0] == f.create && rs[3] == f.flush && rs[4] == f.sync && rs[5] == f.rename
            && rs[1] == (if tmp in fs.live then Some(OtherIo) else None)
            && rs[2] == (if f.write.Some? then Some(f.write.value.1) else None)
  {
  }

  lemma FirstFails(fs: Fs, path: Name, tmp: Name, bytes: Bytes, f: Faults, i: nat)
    requires bytes != [] && i < 6 && FirstReport(Reports(fs, tmp, f), i)
    ensures AtomicWrite(fs, path, tmp, bytes, f).1 == Err(Reported(Reports(fs, tmp, f)[i].value))
  {
    ReportsAre(fs, tmp, f);
  }

  /** A save fails with `VaultFormat` above 48 MiB of payload, then with `Crypto` without a nonce, then as the replacement does. */
  lemma SaveFailsWith(p: Primitives, path: Name, s: Sys, io: SaveIo)
    requires s.mode.Unlocked? && |s.mode.vault.vaultKey| == 32
    ensures var r, n := SaveDone(p, path, s, io).1, |WriteEntries(s.mode.vault.entries)|;
            if n > 50_331_648 then r == Err(VaultFormat)
            else if io.nonce.None? then r == Err(Error.Crypto)
            else AsReported(Reports(s.fs, io.Tmp(), io.faults), r)
  {
    var made := Seal(p, s.log, s.mode.vault, io.nonce).1;
    if made.Ok? {
      FilesAreNotEmpty(made.value);
      ReplacementFailsWith(s.fs, path, io.Tmp(), ToBytes(made.value), io.faults);
    }
  }

  // ---- Entry operations ----

  /** With a list in memory changed to `es`, everything is as a save of it leaves it. */
  ghost predicate ChangedTo(p: Primitives, path: Name, s: Sys, es: seq<Entry>, io: SaveIo, s': Sys, r: Result<Unit>) {
    s.mode.Unlocked? && (s', r) == SaveDone(p, path, s.(mode := Unlocked(s.mode.vault.(entries := es))), io)
    && s'.mode == Unlocked(s.mode.vault.(entries := es))
  }

  /** An acceptable entry with a new id goes to the end of the list, if there is room; otherwise it is `InvalidEntry` and nothing changes. */
  lemma AddDoes(p: Primitives, path: Name, s: Sys, e: Entry, io: SaveIo)
    ensures var (s', r) := AddDone(p, path, s, e, io);
            if !s.mode.Unlocked? then s' == s && r == Err(VaultNotFound)
            else
              var es := s.mode.vault.entries;
              if Acceptable(e) && (forall i :: 0 <= i < |es| ==> es[i].id != e.id) && |es| < 100_000
              then ChangedTo(p, path, s, es + [e], io, s', r)
              else s' == s && r == Err(InvalidEntry)
  {
    EntryIsAcceptedExactlyWhen(e);
    if s.mode.Unlocked? {
      var es := s.mode.vault.entries;
      assert e.id in Ids(es) <==> exists i :: 0 <= i < |es| && es[i].id == e.id;
    }
  }

  /** An acceptable entry takes the place of the first one with its id, and the answer says whether there is one. */
  lemma UpdateDoes(p: Primitives, path: Name, s: Sys, e: Entry, io: SaveIo)
    ensures var (s', r) := UpdateEntryDone(p, path, s, e, io);
            if !s.mode.Unlocked? then s' == s && r == Err(VaultNotFound)
            else if !Acceptable(e) then s' == s && r == Err(InvalidEntry)
            else
              var es := s.mode.vault.entries;
              && ((forall i :: 0 <= i < |es| ==> es[i].id != e.id) ==> s' == s && r == Ok(false))
              && forall i :: 0 <= i < |es| && es[i].id == e.id && (forall j :: 0 <= j < i ==> es[j].id != e.id) ==>
                   exists saved :: ChangedTo(p, path, s, es[i := e], io, s', saved) && r == if saved.Ok? then Ok(true) else Err(saved.error)
  {
    EntryIsAcceptedExactlyWhen(e);
    if s.mode.Unlocked? && Acceptable(e) {
      var es := s.mode.vault.entries;
      if forall i :: 0 <= i < |es| ==> es[i].id != e.id {
        UpdatedFirstNowhere(es, e);
      }
      forall i | 0 <= i < |es| && es[i].id == e.id && (forall j :: 0 <= j < i ==> es[j].id != e.id)
        ensures var (s', r) := UpdateEntryDone(p, path, s, e, io);
                exists saved :: ChangedTo(p, path, s, es[i := e], io, s', saved) && r == if saved.Ok? then Ok(true) else Err(saved.error)
      {
        UpdateAt(p, path, s, e, i, io);
      }
    }
  }

  lemma UpdateAt(p: Primitives, path: Name, s: Sys, e: Entry, i: nat, io: SaveIo)
    requires s.mode.Unlocked? && ValidateEntry(e).Ok? && i < |s.mode.vault.entries| && s.mode.vault.entries[i].id == e.id
    requires forall j :: 0 <= j < i ==> s.mode.vault.entries[j].id != e.id
    ensures var (s', r) := UpdateEntryDone(p, path, s, e, io);
            exists saved :: ChangedTo(p, path, s, s.mode.vault.entries[i := e], io, s', saved)
                            && r == if saved.Ok? then Ok(true) else Err(saved.error)
  {
    var es := s.mode.vault.entries;
    UpdatedFirstAt(es, e, i);
    assert Ids(es)[i] == e.id;
    var saved := SaveDone(p, path, WithEntries(s, es[i := e]), io);
    assert ChangedTo(p, path, s, es[i := e], io, saved.0, saved.1);
  }

  /** The entry with the id is taken out of a list of distinct ids, and the answer says whether there is one. */
  lemma RemoveDoes(p: Primitives, path: Name, s: Sys, id: string, io: SaveIo)
    requires s.mode.Unlocked? ==> AcceptableList(s.mode.vault.entries)
    ensures var (s', r) := RemoveDone(p, path, s, id, io);
            if !s.mode.Unlocked? then s' == s && r == Err(VaultNotFound)
            else
              var es := s.mode.vault.entries;
              && ((forall i :: 0 <= i < |es| ==> es[i].id != id) ==> s' == s && r == Ok(false))
              && forall i :: 0 <= i < |es| && es[i].id == id ==>
                   exists saved :: ChangedTo(p, path, s, es[..i] + es[i + 1..], io, s', saved)
                                   && r == if saved.Ok? then Ok(true) else Err(saved.error)
  {
    if s.mode.Unlocked? {
      var es := s.mode.vault.entries;
      if forall i :: 0 <= i < |es| ==> es[i].id != id {
        RetainedNowhere(es, id);
      }
      forall i | 0 <= i < |es| && es[i].id == id
        ensures var (s', r) := RemoveDone(p, path, s, id, io);
                exists saved :: ChangedTo(p, path, s, es[..i] + es[i + 1..], io, s', saved)
                                && r == if saved.Ok? then Ok(true) else Err(saved.error)
      {
        RemoveAt(p, path, s, id, i, io);
      }
    }
  }

  lemma {:induction false} RetainedAround(es: seq<Entry>, id: string, i: nat)
    requires i < |es| && es[i].id == id && forall j :: 0 <= j < |es| && j != i ==> es[j].id != id
    ensures Retained(es, id) == es[..i] + es[i + 1..]
  {
    if i == 0 {
      RetainedNowhere(es[1..], id);
    } else {
      RetainedAround(es[1..], id, i - 1);
      assert es[..i] + es[i + 1..] == [es[0]] + (es[1..][..i - 1] + es[1..][i..]);
    }
  }

  lemma RemoveAt(p: Primitives, path: Name, s: Sys, id: string, i: nat, io: SaveIo)
    requires s.mode.Unlocked? && i < |s.mode.vault.entries| && s.mode.vault.entries[i].id == id
    requires forall j :: 0 <= j < |s.mode.vault.entries| && j != i ==> s.mode.vault.entries[j].id != id
    ensures var (s', r) := RemoveDone(p, path, s, id, io);
            var es := s.mode.vault.entries;
            exists saved :: ChangedTo(p, path, s, es[..i] + es[i + 1..], io, s', saved)
                            && r == if saved.Ok? then Ok(true) else Err(saved.error)
  {
    var es := s.mode.vault.entries;
    RetainedAround(es, id, i);
    assert Ids(es)[i] == id;
    var saved := SaveDone(p, path, WithEntries(s, es[..i] + es[i + 1..]), io);
    assert ChangedTo(p, path, s, es[..i] + es[i + 1..], io, saved.0, saved.1);
  }

  // ---- Creation ----

  /** A failed creation changes nothing but the error field and the history. */
  lemma CreationTouches(p: Primitives, path: Name, s: Sys, password: string, confirm: string, d: CreateDraws, lookFails: bool, io: SaveIo, now: nat)
    requires s.fs.Valid() && io.Tmp() != path
    ensures var (s', r) := Created(p, path, s, password, confirm, d, lookFails, io, now);
            && s' == s.(mode := s'.mode, timer := s'.timer, error := s'.error, fs := s'.fs, log := s'.log)
            && (r.Err? ==> s'.mode == s.mode && s'.timer == s.timer && s'.fs.Read(path) == s.fs.Read(path))
            && s'.error == (if |password| < 12 then Some(PasswordTooShort)
                            else if password != confirm then Some(PasswordMismatch)
                            else if s.fs.Read(path).Some? && !lookFails then Some(VaultAlreadyExists)
                            else None)
            && (s'.error.Some? ==> r == Err(s'.error.value) && s'.fs == s.fs && s'.log == s.log)
  {
    if |password| >= 12 && password == confirm && !(s.fs.Read(path).Some? && !lookFails) {
      var made := New(p, s.log, password, d);
      if made.1.Ok? {
        AtomicWriteOutcome(s.fs, path, io.Tmp(), ToBytes(made.1.value.0), io.faults);
      }
    }
  }

  /** A successful creation leaves an open empty vault, its file at the path, and the timer started; the password opens the file to just that vault. */
  lemma CreationMakes(p: Primitives, path: Name, s: Sys, password: string, confirm: string, d: CreateDraws, lookFails: bool, io: SaveIo, now: nat)
    requires Sound(p) && Genuine(p, s.log) && d.Valid() && s.fs.Valid() && io.Tmp() != path
    requires Created(p, path, s, password, confirm, d, lookFails, io, now).1.Ok?
    ensures var s' := Created(p, path, s, password, confirm, d, lookFails, io, now).0;
            && s'.mode.Unlocked? && s'.mode.vault.entries == [] && d.vaultKey == Some(s'.mode.vault.vaultKey)
            && s'.timer == Timer(s.timer.timeout, now)
            && exists f :: HasFile(s'.fs, path, f) && Unlock(p, s'.log, f, password) == Ok(s'.mode.vault)
  {
    CreatedIs(p, path, s, password, confirm, d, lookFails, io, now);
    NewOpens(p, s.log, password, d);
    var (f, v) := New(p, s.log, password, d).1.value;
    assert HasFile(Created(p, path, s, password, confirm, d, lookFails, io, now).0.fs, path, f);
  }

  lemma CreatedIs(p: Primitives, path: Name, s: Sys, password: string, confirm: string, d: CreateDraws, lookFails: bool, io: SaveIo, now: nat)
    requires s.fs.Valid() && io.Tmp() != path && Created(p, path, s, password, confirm, d, lookFails, io, now).1.Ok?
    ensures var s' := Created(p, path, s, password, confirm, d, lookFails, io, now).0;
            var (log', made) := New(p, s.log, password, d);
            && made.Ok? && d.vaultKey == Some(made.value.1.vaultKey)
            && s'.mode == Unlocked(made.value.1) && s'.timer == Timer(s.timer.timeout, now) && s'.log == log'
            && HasFile(s'.fs, path, made.value.0)
  {
    var (log', made) := New(p, s.log, password, d);
    InstallOutcome(path, s.(error := None, log := log'), made.value.0, made.value.1, io, now);
  }

  /** Past the first checks, creation fails with the error of the first step that fails: the salt, the derivation, the other draws, the replacement. */
  lemma CreationFailsWith(p: Primitives, path: Name, s: Sys, password: string, d: CreateDraws, lookFails: bool, io: SaveIo, now: nat)
    requires Sound(p) && d.Valid() && |password| >= 12 && !(s.fs.Read(path).Some? && !lookFails)
    ensures var r := Created(p, path, s, password, password, d, lookFails, io, now).1;
            if d.salt.None? then r == Err(Error.Crypto)
            else
              var kek := Kek(p, Utf8.Encode(password), KdfParams("argon2id", d.salt.value, 3, 65_536, 1, 32));
              if kek.Err? then r == Err(KeyDerivation)
              else if d.vaultKey.None? || d.wrapNonce.None? || d.payloadNonce.None? then r == Err(Error.Crypto)
              else AsReported(Reports(s.fs, io.Tmp(), io.faults), r)
  {
    Utf8.DecodeOfEncode(password);
    if d.salt.Some? && Kek(p, Utf8.Encode(password), DefaultParams(d.salt.value)).Ok? {
      KekLength(p, Utf8.Encode(password), DefaultParams(d.salt.value));
      var made := New(p, s.log, password, d).1;
      if made.Ok? {
        FilesAreNotEmpty(made.value.0);
        ReplacementFailsWith(s.fs, path, io.Tmp(), ToBytes(made.value.0), io.faults);
      }
    }
  }
}
