/**
  * Who can open which file. Several vaults share one history of encryptions; a file may be
  * put together from the sections of any of them, or be anything else that validates.
  */
module SectionBinding {
  import opened Basics
  import opened Crypto
  import opened Vault
  import opened UnlockedVaults
  import opened VaultTheorems
  import Utf8

  // ---- Honest histories ----

  /** A vault whose wrapped key is in the history. */
  ghost predicate Recorded(p: Primitives, log: Log, b: Birth) {
    && b.params.Validate().Ok?
    && Kek(p, b.password, b.params) == Ok(b.kek)
    && |b.vaultKey| == KEY_LEN
    && |b.nonce| == NONCE_LEN
    && |b.wrapped| >= TAG_LEN
    && var box := Box(b.kek, b.nonce, AAD_VAULT_KEY, b.wrapped); box in log && log[box] == b.vaultKey
  }

  /** The box is the wrapped key of one of the vaults. */
  ghost predicate IsWrap(births: seq<Birth>, box: Box, plain: Bytes) {
    exists i :: 0 <= i < |births| && box == Box(births[i].kek, births[i].nonce, AAD_VAULT_KEY, births[i].wrapped) && plain == births[i].vaultKey
  }

  /** The box is a valid entry list under the key of one of the vaults. */
  ghost predicate IsPayload(births: seq<Birth>, box: Box, plain: Bytes) {
    && box.aad == AAD_VAULT
    && OpenPayload(plain).Ok?
    && exists i :: 0 <= i < |births| && births[i].vaultKey == box.key
  }

  /** Only creating and sealing vaults has used the cipher. */
  ghost predicate Honest(p: Primitives, log: Log, births: seq<Birth>) {
    && Genuine(p, log)
    && (forall i :: 0 <= i < |births| ==> Recorded(p, log, births[i]))
    && (forall box :: box in log ==> IsWrap(births, box, log[box]) || IsPayload(births, box, log[box]))
  }

  lemma EmptyIsHonest(p: Primitives)
    ensures Honest(p, map[], [])
  {}

  /** The vaults after one more creation: a vault exists once its key has been wrapped. */
  function BirthsAfter(p: Primitives, log: Log, births: seq<Birth>, password: Bytes, d: CreateDraws): seq<Birth> {
    match NewBirth(p, log, password, d).1
    case Ok(b) => births + [b]
    case Err(_) => births
  }

  lemma MoreBirths(births: seq<Birth>, b: Birth, box: Box, plain: Bytes)
    ensures IsWrap(births, box, plain) ==> IsWrap(births + [b], box, plain)
    ensures IsPayload(births, box, plain) ==> IsPayload(births + [b], box, plain)
  {
    var more := births + [b];
    if IsWrap(births, box, plain) {
      var i :| 0 <= i < |births| && box == Box(births[i].kek, births[i].nonce, AAD_VAULT_KEY, births[i].wrapped) && plain == births[i].vaultKey;
      assert more[i] == births[i];
    }
    if IsPayload(births, box, plain) {
      var i :| 0 <= i < |births| && births[i].vaultKey == box.key;
      assert more[i] == births[i];
    }
  }

  lemma BirthKeepsHonest(p: Primitives, log: Log, births: seq<Birth>, password: Bytes, d: CreateDraws)
    requires Sound(p) && Honest(p, log, births) && d.Valid()
    ensures Honest(p, NewBirth(p, log, password, d).0, BirthsAfter(p, log, births, password, d))
    ensures Extends(log, NewBirth(p, log, password, d).0)
  {
    var (log', r) := NewBirth(p, log, password, d);
    if r.Ok? {
      BirthUnwraps(p, log, password, d);
      OneMoreBirth(p, log, births, r.value, log');
    }
  }

  lemma OneMoreBirth(p: Primitives, log: Log, births: seq<Birth>, b: Birth, log': Log)
    requires Honest(p, log, births) && Genuine(p, log') && Extends(log, log') && Recorded(p, log', b)
    requires log' == log[Box(b.kek, b.nonce, AAD_VAULT_KEY, b.wrapped) := b.vaultKey]
    ensures Honest(p, log', births + [b])
  {
    var more := births + [b];
    forall box | box in log' ensures IsWrap(more, box, log'[box]) || IsPayload(more, box, log'[box]) {
      if box in log {
        MoreBirths(births, b, box, log[box]);
      } else {
        assert more[|births|] == b;
      }
    }
  }

  lemma PayloadKeepsHonest(p: Primitives, log: Log, births: seq<Birth>, i: nat, plain: Bytes, nonce: Draw)
    requires Sound(p) && Honest(p, log, births)
    requires i < |births| && OpenPayload(plain).Ok?
    ensures var log' := EncryptVault(p, log, births[i].vaultKey, plain, nonce).0; Honest(p, log', births) && Extends(log, log')
  {
    if nonce.Some? {
      EncryptExtends(p, log, births[i].vaultKey, nonce.value, AAD_VAULT, plain);
      var (log', ct) := Encrypt(p, log, births[i].vaultKey, nonce.value, AAD_VAULT, plain);
      forall box | box in log' ensures IsWrap(births, box, log'[box]) || IsPayload(births, box, log'[box]) {
        if box != Box(births[i].vaultKey, nonce.value, AAD_VAULT, ct) {
          assert box in log && log[box] == log'[box];
        }
      }
    }
  }

  /** Creating a vault keeps the history honest. */
  lemma NewKeepsHonest(p: Primitives, log: Log, births: seq<Birth>, password: string, d: CreateDraws)
    requires Sound(p) && Honest(p, log, births) && d.Valid()
    ensures var log' := New(p, log, password, d).0;
            Honest(p, log', BirthsAfter(p, log, births, Utf8.Encode(password), d)) && Extends(log, log')
  {
    var pw := Utf8.Encode(password);
    BirthKeepsHonest(p, log, births, pw, d);
    var (log1, r) := NewBirth(p, log, pw, d);
    if r.Ok? {
      EmptyPayload();
      PayloadRoundTrip([]);
      PayloadKeepsHonest(p, log1, births + [r.value], |births|, EMPTY_PAYLOAD, d.payloadNonce);
    }
  }

  /** Sealing a vault keeps the history honest. */
  lemma SealKeepsHonest(p: Primitives, log: Log, births: seq<Birth>, i: nat, v: VaultState, nonce: Draw)
    requires Sound(p) && Honest(p, log, births)
    requires i < |births| && v.vaultKey == births[i].vaultKey && ValidList(v.entries)
    ensures var log' := Seal(p, log, v, nonce).0; Honest(p, log', births) && Extends(log, log')
  {
    var json := WriteEntries(v.entries);
    PayloadRoundTrip(v.entries);
    if |json| <= MAX_DECRYPTED_BYTES {
      PayloadKeepsHonest(p, log, births, i, json, nonce);
    }
  }

  // ---- Opening a file ----

  /** The section was sealed as a payload under `vaultKey`. */
  ghost predicate SealedUnder(log: Log, blob: EncryptedBlob, vaultKey: Bytes) {
    && blob.DecodeNonce().Ok?
    && blob.DecodeCiphertext().Ok?
    && Box(vaultKey, blob.DecodeNonce().value, AAD_VAULT, blob.DecodeCiphertext().value) in log
  }

  /** Vault `i` has this wrapped key and key-encryption key, and the payload section was sealed under its vault key. */
  ghost predicate Opened(log: Log, births: seq<Birth>, f: VaultFile, kek: Bytes, i: nat) {
    && i < |births|
    && births[i].kek == kek
    && births[i].Wrapped() == f.wrappedKey
    && SealedUnder(log, f.vault, births[i].vaultKey)
  }

  lemma OpenedSections(p: Primitives, log: Log, births: seq<Birth>, f: VaultFile, kek: Bytes, i: nat)
    requires Sound(p) && Honest(p, log, births) && f.Validate().Ok? && |kek| == KEY_LEN
    requires Opened(log, births, f, kek, i)
    ensures var box := Box(births[i].vaultKey, f.vault.DecodeNonce().value, AAD_VAULT, f.vault.DecodeCiphertext().value);
            OpenSections(log, f, kek) == Ok((births[i].vaultKey, log[box])) && OpenPayload(log[box]).Ok?
  {
    var b := births[i];
    BlobRoundTrip(b.nonce, b.wrapped);
    var box := Box(b.vaultKey, f.vault.DecodeNonce().value, AAD_VAULT, f.vault.DecodeCiphertext().value);
    assert IsWrap(births, box, log[box]) || IsPayload(births, box, log[box]);
    assert UnwrapVaultKey(log, kek, b.nonce, b.wrapped) == Ok(b.vaultKey);
  }

  lemma SectionsNeedAVault(p: Primitives, log: Log, births: seq<Birth>, f: VaultFile, kek: Bytes) returns (i: nat)
    requires Sound(p) && Honest(p, log, births) && f.Validate().Ok? && |kek| == KEY_LEN
    requires OpenSections(log, f, kek).Ok?
    ensures Opened(log, births, f, kek, i)
  {
    SectionsOutcome(p, log, f, kek);
    var wn, wc := f.wrappedKey.DecodeNonce().value, f.wrappedKey.DecodeCiphertext().value;
    var box := Box(kek, wn, AAD_VAULT_KEY, wc);
    assert IsWrap(births, box, log[box]);
    i :| 0 <= i < |births| && box == Box(births[i].kek, births[i].nonce, AAD_VAULT_KEY, births[i].wrapped) && log[box] == births[i].vaultKey;
    BlobIsCanonical(f.wrappedKey);
  }

  /** A file that vault `i` opens yields the entry list that was sealed. */
  lemma OpenedUnlocks(p: Primitives, log: Log, births: seq<Birth>, f: VaultFile, password: string, kek: Bytes, i: nat)
    requires Sound(p) && Honest(p, log, births) && f.Validate().Ok?
    requires FileKek(p, f.kdf, Utf8.Encode(password)) == Ok(kek)
    requires Opened(log, births, f, kek, i)
    ensures var box := Box(births[i].vaultKey, f.vault.DecodeNonce().value, AAD_VAULT, f.vault.DecodeCiphertext().value);
            && OpenPayload(log[box]).Ok?
            && Unlock(p, log, f, password)
               == Ok(VaultState(OpenPayload(log[box]).value, births[i].vaultKey, f.wrappedKey, f.kdf, f.version))
  {
    KekLength(p, Utf8.Encode(password), f.kdf.ToKdfParams().value);
    OpenedSections(p, log, births, f, kek, i);
  }

  /**
    * For every file that validates: it opens exactly when some vault has its wrapped key and
    * the derived key-encryption key and sealed its payload section; otherwise the result is
    * `Authentication`.
    */
  lemma UnlockByKek(p: Primitives, log: Log, births: seq<Birth>, f: VaultFile, password: string, kek: Bytes)
    requires Sound(p) && Honest(p, log, births) && f.Validate().Ok?
    requires FileKek(p, f.kdf, Utf8.Encode(password)) == Ok(kek)
    ensures Unlock(p, log, f, password).Ok? <==> exists i: nat :: Opened(log, births, f, kek, i)
    ensures Unlock(p, log, f, password).Ok? || Unlock(p, log, f, password) == Err(Authentication)
  {
    if i: nat :| Opened(log, births, f, kek, i) {
      OpenedUnlocks(p, log, births, f, password, kek, i);
    } else {
      KekLength(p, Utf8.Encode(password), f.kdf.ToKdfParams().value);
      if OpenSections(log, f, kek).Ok? {
        var i := SectionsNeedAVault(p, log, births, f, kek);
        assert false;
      }
      SectionsOutcome(p, log, f, kek);
    }
  }

  /** No vault has the key that `password` gives for `f`, unless it has this password and these parameters. */
  ghost predicate NoKdfCollision(p: Primitives, births: seq<Birth>, f: VaultFile, password: Bytes)
  {
    FileKek(p, f.kdf, password).Ok? ==>
      forall i :: 0 <= i < |births| && births[i].kek == FileKek(p, f.kdf, password).value ==>
        births[i].password == password && births[i].Kdf() == f.kdf
  }

  /** Both header sections are those of vault `i`, made with `password`, and the payload was sealed under its key. */
  ghost predicate FromOneVault(log: Log, births: seq<Birth>, f: VaultFile, password: Bytes, i: nat) {
    && i < |births|
    && births[i].password == password
    && births[i].Kdf() == f.kdf
    && births[i].Wrapped() == f.wrappedKey
    && SealedUnder(log, f.vault, births[i].vaultKey)
  }

  /**
    * A file opens with a password exactly when its KDF and wrapped-key sections are those of
    * one vault created with that password and its payload was sealed under that vault's key.
    * Every other file that validates, whatever its sections come from, gives `Authentication`.
    */
  lemma SectionsAreBound(p: Primitives, log: Log, births: seq<Birth>, f: VaultFile, password: string)
    requires Sound(p) && Honest(p, log, births) && f.Validate().Ok?
    requires FileKek(p, f.kdf, Utf8.Encode(password)).Ok?
    requires NoKdfCollision(p, births, f, Utf8.Encode(password))
    ensures var r := Unlock(p, log, f, password);
            && (r.Ok? <==> exists i: nat :: FromOneVault(log, births, f, Utf8.Encode(password), i))
            && (r.Ok? || r == Err(Authentication))
  {
    var pw := Utf8.Encode(password);
    var kek := FileKek(p, f.kdf, pw).value;
    UnlockByKek(p, log, births, f, password, kek);
    if i: nat :| Opened(log, births, f, kek, i) {
      assert FromOneVault(log, births, f, pw, i);
    }
    if i: nat :| FromOneVault(log, births, f, pw, i) {
      KdfParamsRoundTrip(births[i].params);
      assert Opened(log, births, f, kek, i);
    }
  }

  /** The file of vault `i` with its two encrypted sections exchanged. */
  function Swapped(births: seq<Birth>, i: nat, payload: EncryptedBlob): VaultFile
    requires i < |births|
  {
    VaultFile(SUPPORTED_VERSION, births[i].Kdf(), payload, births[i].Wrapped())
  }

  /** By coincidence the payload section is the wrapped key of a vault with the same key-encryption key, and the wrapped key a payload of that vault. */
  ghost predicate Coincides(log: Log, births: seq<Birth>, i: nat, payload: EncryptedBlob, j: nat)
    requires i < |births|
  {
    && j < |births| && births[j].kek == births[i].kek && births[j].Wrapped() == payload
    && SealedUnder(log, births[i].Wrapped(), births[j].vaultKey)
  }

  /**
    * Exchanging the two encrypted sections of a saved vault gives `Authentication`, unless the
    * cipher has produced the same nonce and ciphertext as a wrapped key and as a payload; in
    * particular always when no payload nonce repeats the nonce of a wrapped key.
    */
  lemma SwappedSectionsFail(p: Primitives, log: Log, births: seq<Birth>, i: nat, payload: EncryptedBlob, password: string)
    requires Sound(p) && Honest(p, log, births)
    requires i < |births| && births[i].password == Utf8.Encode(password)
    requires SealedUnder(log, payload, births[i].vaultKey)
    ensures var r := Unlock(p, log, Swapped(births, i, payload), password);
            && (r == Err(Authentication) <==> forall j: nat :: !Coincides(log, births, i, payload, j))
            && ((forall j :: 0 <= j < |births| ==> births[j].nonce != payload.DecodeNonce().value) ==> r == Err(Authentication))
  {
    var f := Swapped(births, i, payload);
    SwappedIsValid(p, log, births, i, payload);
    UnlockByKek(p, log, births, f, password, births[i].kek);
    forall j: nat ensures Opened(log, births, f, births[i].kek, j) <==> Coincides(log, births, i, payload, j) {
    }
    forall j: nat | Coincides(log, births, i, payload, j) ensures births[j].nonce == payload.DecodeNonce().value {
      BlobRoundTrip(births[j].nonce, births[j].wrapped);
    }
  }

  lemma SwappedIsValid(p: Primitives, log: Log, births: seq<Birth>, i: nat, payload: EncryptedBlob)
    requires Honest(p, log, births) && i < |births| && SealedUnder(log, payload, births[i].vaultKey)
    ensures var f := Swapped(births, i, payload); f.Validate().Ok? && FileKek(p, f.kdf, births[i].password) == Ok(births[i].kek)
  {
    KdfParamsRoundTrip(births[i].params);
    BlobRoundTrip(births[i].nonce, births[i].wrapped);
    ValidFile(Swapped(births, i, payload));
  }

  // ---- The key hierarchy over the life of an unlocked vault ----

  /** What can be done to an unlocked vault; `Rewrite` is any use of the unchecked mutable access. */
  datatype VaultOp = Add(entry: Entry) | Update(entry: Entry) | Remove(id: string) | Rewrite(entries: seq<Entry>) | LockOp

  function Apply(v: VaultState, op: VaultOp): VaultState {
    match op
    case Add(e) => if Added(v.entries, e).Ok? then v.(entries := Added(v.entries, e).value) else v
    case Update(e) => if ValidateEntry(e).Ok? then v.(entries := UpdatedFirst(v.entries, e)) else v
    case Remove(id) => v.(entries := Retained(v.entries, id))
    case Rewrite(es) => v.(entries := es)
    case LockOp => v.(entries := [], vaultKey := [])
  }

  function ApplyAll(v: VaultState, ops: seq<VaultOp>): VaultState
    decreases |ops|
  {
    if ops == [] then v else ApplyAll(Apply(v, ops[0]), ops[1..])
  }

  lemma {:induction false} HeaderIsKept(v: VaultState, ops: seq<VaultOp>)
    ensures var w := ApplyAll(v, ops); w.version == v.version && w.kdf == v.kdf && w.wrappedKey == v.wrappedKey
    ensures v.vaultKey == [] ==> ApplyAll(v, ops).vaultKey == []
    decreases |ops|
  {
    if ops != [] {
      HeaderIsKept(Apply(v, ops[0]), ops[1..]);
    }
  }

  /** Whatever is done to an unlocked vault, every file it seals carries the sections it was opened with. */
  lemma SealedHeaderIsKept(p: Primitives, log: Log, v: VaultState, ops: seq<VaultOp>, nonce: Draw)
    requires Seal(p, log, ApplyAll(v, ops), nonce).1.Ok?
    ensures var f := Seal(p, log, ApplyAll(v, ops), nonce).1.value;
            f.version == v.version && f.kdf == v.kdf && f.wrappedKey == v.wrappedKey
  {
    HeaderIsKept(v, ops);
  }

  /** Once locked, a vault never seals again, whatever is done to it afterwards. */
  lemma LockedNeverSeals(p: Primitives, log: Log, v: VaultState, before: seq<VaultOp>, after: seq<VaultOp>, nonce: Draw)
    ensures var w := ApplyAll(v, before + [LockOp] + after);
            w.vaultKey == [] && Seal(p, log, w, nonce).1.Err? && Seal(p, log, w, nonce).0 == log
    decreases |before|
  {
    var ops := before + [LockOp] + after;
    if before == [] {
      assert ops[1..] == after;
      HeaderIsKept(Apply(v, LockOp), after);
    } else {
      assert ops[1..] == before[1..] + [LockOp] + after;
      LockedNeverSeals(p, log, Apply(v, before[0]), before[1..], after, nonce);
    }
  }
}
