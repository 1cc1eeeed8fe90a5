/** Exactly when saves, creations and replacements succeed, in terms of what is known before the call. */
module Success {
  import opened Basics
  import opened Crypto
  import opened Vault
  import opened VaultTheorems
  import opened Storage
  import opened AppModel
  import Json
  import Utf8

  predicate NoFault(f: Faults) {
    f.create.None? && f.write.None? && f.flush.None? && f.sync.None? && f.rename.None?
  }

  /** The replacement will succeed. */
  predicate CanReplace(s: Sys, io: SaveIo) {
    io.Tmp() !in s.fs.live && NoFault(io.faults)
  }

  /** Saving `es` will succeed. */
  predicate CanSave(s: Sys, es: seq<Entry>, io: SaveIo) {
    |WriteEntries(es)| <= MAX_DECRYPTED_BYTES && io.nonce.Some? && CanReplace(s, io)
  }

  predicate AllDrawn(d: CreateDraws) {
    d.salt.Some? && d.vaultKey.Some? && d.wrapNonce.Some? && d.payloadNonce.Some?
  }

  /** Creation will succeed, if it sees no file. */
  predicate CanCreate(p: Primitives, s: Sys, password: string, confirm: string, d: CreateDraws, io: SaveIo) {
    && |password| >= MIN_MASTER_PASSWORD_LEN && password == confirm
    && AllDrawn(d) && Kek(p, Utf8.Encode(password), DefaultParams(d.salt.value)).Ok?
    && CanReplace(s, io)
  }

  /** A replacement succeeds exactly when there is something to write, the temporary name is free and no call up to the rename fails. */
  lemma ReplacementSucceedsExactlyWhen(fs: Fs, path: Name, tmp: Name, bytes: Bytes, f: Faults)
    ensures AtomicWrite(fs, path, tmp, bytes, f).1.Ok? <==> bytes != [] && tmp !in fs.live && NoFault(f)
  {
  }

  lemma FilesAreNotEmpty(f: VaultFile)
    ensures ToBytes(f) != []
  {
    ParseBytesOfPrint(FileToJson(f));
    assert Json.SkipBlanks("") == "";
    assert Json.ParseValue("") == None;
  }

  /** A save succeeds exactly when the payload is within the limit of `seal`, a nonce can be drawn, and the replacement succeeds. */
  lemma SaveSucceedsExactlyWhen(p: Primitives, path: Name, s: Sys, io: SaveIo)
    requires s.mode.Unlocked? && |s.mode.vault.vaultKey| == KEY_LEN
    ensures SaveDone(p, path, s, io).1.Ok? <==> CanSave(s, s.mode.vault.entries, io)
  {
    var made := Seal(p, s.log, s.mode.vault, io.nonce).1;
    if made.Ok? {
      FilesAreNotEmpty(made.value);
      ReplacementSucceedsExactlyWhen(s.fs, path, io.Tmp(), ToBytes(made.value), io.faults);
    }
  }

  lemma NewSucceedsExactlyWhen(p: Primitives, log: Log, password: string, d: CreateDraws)
    requires Sound(p) && d.Valid() && password != ""
    ensures New(p, log, password, d).1.Ok? <==>
              AllDrawn(d) && Kek(p, Utf8.Encode(password), DefaultParams(d.salt.value)).Ok?
  {
    Utf8.DecodeOfEncode(password);
    if d.salt.Some? && Kek(p, Utf8.Encode(password), DefaultParams(d.salt.value)).Ok? {
      KekLength(p, Utf8.Encode(password), DefaultParams(d.salt.value));
    }
  }

  /**
    * Creation succeeds exactly when the password is long enough and confirmed, no file is seen,
    * every draw and the key derivation succeed, and the replacement does.
    */
  lemma CreationSucceedsExactlyWhen(p: Primitives, path: Name, s: Sys, password: string, confirm: string, d: CreateDraws, lookFails: bool, io: SaveIo, now: nat)
    requires Sound(p) && d.Valid()
    ensures Created(p, path, s, password, confirm, d, lookFails, io, now).1.Ok? <==>
              !VaultExists(s.fs, path, lookFails) && CanCreate(p, s, password, confirm, d, io)
  {
    if |password| >= MIN_MASTER_PASSWORD_LEN {
      NewSucceedsExactlyWhen(p, s.log, password, d);
      var made := New(p, s.log, password, d).1;
      if made.Ok? {
        FilesAreNotEmpty(made.value.0);
        ReplacementSucceedsExactlyWhen(s.fs, path, io.Tmp(), ToBytes(made.value.0), io.faults);
      }
    }
  }
}
