/** The application object; every method is proved against the function that specifies it. */
module Apps {
  import opened Basics
  import opened Crypto
  import opened Vault
  import opened UnlockedVaults
  import opened Storage
  import opened Clipboard
  import opened AutoLock
  import opened AppModel

  /** The history of the ideal cipher. */
  class Cipher {
    var log: Log

    constructor ()
      ensures log == map[]
    {
      log := map[];
    }
  }

  datatype AppState =
    | NoVaultState
    | LockedState(path: Name)
    | UnlockedState(path: Name, vault: UnlockedVault)

  class App {
    var state: AppState
    const vaultPath: Name
    const clipboard: ClipboardGuard
    const autolock: AutoLock
    var error: Option<Error>
    const disk: FileSystem
    const cipher: Cipher

    ghost predicate Valid()
      reads this
    {
      state != NoVaultState ==> state.path == vaultPath
    }

    ghost function Vaults(): set<object>
      reads this
    {
      if state.UnlockedState? then {state.vault} else {}
    }

    ghost function Footprint(): set<object>
      reads this
    {
      {this, clipboard, clipboard.backend, autolock, disk, cipher} + Vaults()
    }

    ghost function CurrentMode(): Mode
      reads this, Vaults()
    {
      match state
      case NoVaultState => NoVault
      case LockedState(_) => Locked
      case UnlockedState(_, v) => Unlocked(v.State())
    }

    /** The abstract state. */
    ghost function View(): Sys
      reads Footprint()
    {
      Sys(CurrentMode(), autolock.State(), clipboard.State(), error, disk.fs, cipher.log, clipboard.backend.State())
    }

    constructor (vaultPath: Name, clipboard: ClipboardGuard, autolock: AutoLock, disk: FileSystem, cipher: Cipher, lookFails: bool)
      ensures Valid() && this.vaultPath == vaultPath
      ensures this.clipboard == clipboard && this.autolock == autolock && this.disk == disk && this.cipher == cipher
      ensures View() == Sys(if VaultExists(disk.fs, vaultPath, lookFails) then Locked else NoVault, autolock.State(),
                            clipboard.State(), None, disk.fs, cipher.log, clipboard.backend.State())
    {
      this.vaultPath, this.clipboard, this.autolock, this.disk, this.cipher := vaultPath, clipboard, autolock, disk, cipher;
      error := None;
      state := if VaultExists(disk.fs, vaultPath, lookFails) then LockedState(vaultPath) else NoVaultState;
    }

    method Install(file: VaultFile, made: VaultState, io: SaveIo, now: nat) returns (r: Result<Unit>)
      requires Valid() && io.Valid()
      modifies Footprint()
      ensures Valid() && fresh(Vaults() - old(Vaults()))
      ensures (View(), r) == Installed(vaultPath, old(View()), file, made, io, now)
    {
      var tmp := TempPathIn(io.tmpA, io.tmpB);
      r := disk.WriteVaultAtomic(vaultPath, tmp, ToBytes(file), io.faults);
      if r.Ok? {
        var vault := new UnlockedVault(made);
        state := UnlockedState(vaultPath, vault);
        autolock.NoteActivityAt(now);
      }
    }

    method CreateVault(p: Primitives, password: string, confirm: string, draws: CreateDraws, lookFails: bool, io: SaveIo, now: nat)
      returns (r: Result<Unit>)
      requires Valid() && io.Valid()
      modifies Footprint()
      ensures Valid() && fresh(Vaults() - old(Vaults()))
      ensures (View(), r) == Created(p, vaultPath, old(View()), password, confirm, draws, lookFails, io, now)
    {
      error := None;
      if |password| < MIN_MASTER_PASSWORD_LEN {
        error := Some(PasswordTooShort);
        return Err(PasswordTooShort);
      }
      if password != confirm {
        error := Some(PasswordMismatch);
        return Err(PasswordMismatch);
      }
      if VaultExists(disk.fs, vaultPath, lookFails) {
        error := Some(VaultAlreadyExists);
        return Err(VaultAlreadyExists);
      }
      var (log', made) := New(p, cipher.log, password, draws);
      cipher.log := log';
      if made.Err? {
        return Err(made.error);
      }
      r := Install(made.value.0, made.value.1, io, now);
    }

    method Unlock(p: Primitives, password: string, fault: Option<ReadFault>, now: nat) returns (r: Result<Unit>)
      requires Valid()
      modifies Footprint()
      ensures Valid() && fresh(Vaults() - old(Vaults()))
      ensures (View(), r) == UnlockDone(p, vaultPath, old(View()), password, fault, now)
    {
      error := None;
      if state.NoVaultState? {
        error := Some(VaultNotFound);
        return Err(VaultNotFound);
      }
      if state.UnlockedState? {
        return Ok(Unit);
      }
      var path := state.path;
      var bytes :- ReadVault(disk.fs, path, fault);
      var file :- FromBytes(bytes);
      var unlocked :- Vault.Unlock(p, cipher.log, file, password);
      var vault := new UnlockedVault(unlocked);
      state := UnlockedState(path, vault);
      autolock.NoteActivityAt(now);
      return Ok(Unit);
    }

    method Lock(now: nat)
      requires Valid()
      modifies Footprint()
      ensures Valid() && fresh(Vaults() - old(Vaults()))
      ensures View() == LockDone(old(View()), now)
    {
      error := None;
      if state.UnlockedState? {
        var path := state.path;
        state.vault.Lock();
        state := LockedState(path);
        autolock.NoteActivityAt(now);
      }
    }

    method Save(p: Primitives, io: SaveIo) returns (r: Result<Unit>)
      requires Valid() && io.Valid()
      modifies Footprint()
      ensures Valid() && state == old(state)
      ensures (View(), r) == SaveDone(p, vaultPath, old(View()), io)
    {
      if !state.UnlockedState? {
        return Ok(Unit);
      }
      var (log', made) := Seal(p, cipher.log, state.vault.State(), io.nonce);
      cipher.log := log';
      var file :- made;
      var tmp := TempPathIn(io.tmpA, io.tmpB);
      r := disk.WriteVaultAtomic(state.path, tmp, ToBytes(file), io.faults);
    }

    method AddEntry(p: Primitives, entry: Entry, io: SaveIo) returns (r: Result<Unit>)
      requires Valid() && io.Valid()
      modifies Footprint()
      ensures Valid() && fresh(Vaults() - old(Vaults()))
      ensures (View(), r) == AddDone(p, vaultPath, old(View()), entry, io)
    {
      if !state.UnlockedState? {
        return Err(VaultNotFound);
      }
      var _ :- state.vault.AddEntry(entry);
      r := Save(p, io);
    }

    method UpdateEntry(p: Primitives, entry: Entry, io: SaveIo) returns (r: Result<bool>)
      requires Valid() && io.Valid()
      modifies Footprint()
      ensures Valid() && fresh(Vaults() - old(Vaults()))
      ensures (View(), r) == UpdateEntryDone(p, vaultPath, old(View()), entry, io)
    {
      if !state.UnlockedState? {
        return Err(VaultNotFound);
      }
      var changed :- state.vault.UpdateEntry(entry);
      if changed {
        var _ :- Save(p, io);
      }
      return Ok(changed);
    }

    method RemoveEntry(p: Primitives, id: string, io: SaveIo) returns (r: Result<bool>)
      requires Valid() && io.Valid()
      modifies Footprint()
      ensures Valid() && fresh(Vaults() - old(Vaults()))
      ensures (View(), r) == RemoveDone(p, vaultPath, old(View()), id, io)
    {
      if !state.UnlockedState? {
        return Err(VaultNotFound);
      }
      var removed := state.vault.RemoveEntry(id);
      if removed {
        var _ :- Save(p, io);
      }
      return Ok(removed);
    }

    method CopyField(id: string, field: Field, setFails: bool, now: nat, keep: bool) returns (r: Result<Unit>)
      requires Valid()
      modifies Footprint()
      ensures Valid() && fresh(Vaults() - old(Vaults()))
      ensures (View(), r) == CopyDone(old(View()), id, field, setFails, now, keep)
    {
      if !state.UnlockedState? {
        return Err(VaultNotFound);
      }
      var entries := state.vault.entries;
      for i := 0 to |entries|
        invariant forall j :: 0 <= j < i ==> entries[j].id != id
      {
        if entries[i].id == id {
          assert Ids(entries)[i] == id;
          assert IndexOf(Ids(entries), id) == i;
          r := clipboard.Copy(FieldOf(entries[i], field), setFails, now, keep);
          return;
        }
      }
      return Err(VaultNotFound);
    }

    method Tick(events: seq<Event>, clock: Clock, io: ClearIo)
      requires Valid()
      modifies Footprint()
      ensures Valid() && fresh(Vaults() - old(Vaults()))
      ensures View() == TickDone(old(View()), events, clock, io)
    {
      clipboard.Poll(clock.poll, io);
      if state.UnlockedState? {
        if UserActivityIn(events) {
          autolock.NoteActivityAt(clock.activity);
        }
        if autolock.State().ShouldLockAt(clock.check) {
          Lock(clock.lock);
        }
      }
    }
  }
}
