/** What sealing, storing and unlocking promise together. */
module VaultTheorems {
  import opened Basics
  import opened Json
  import opened Crypto
  import opened Vault
  import Base64
  import Utf8

  // ---- Round trip ----

  /** The header sections of `v` yield its vault key to whoever derives `kek`. */
  ghost predicate Unwraps(log: Log, wrappedKey: EncryptedBlob, kek: Bytes, vaultKey: Bytes) {
    && wrappedKey.DecodeNonce().Ok?
    && wrappedKey.DecodeCiphertext().Ok?
    && UnwrapVaultKey(log, kek, wrappedKey.DecodeNonce().value, wrappedKey.DecodeCiphertext().value) == Ok(vaultKey)
  }

  /** The header sections of `v` yield its vault key to whoever knows `password`. */
  ghost predicate Opens(p: Primitives, log: Log, v: VaultState, password: Bytes) {
    && v.version == SUPPORTED_VERSION
    && v.kdf.ToKdfParams().Ok?
    && Kek(p, password, v.kdf.ToKdfParams().value).Ok?
    && Unwraps(log, v.wrappedKey, Kek(p, password, v.kdf.ToKdfParams().value).value, v.vaultKey)
  }

  lemma UnwrapsExtends(log: Log, log': Log, wrappedKey: EncryptedBlob, kek: Bytes, vaultKey: Bytes)
    requires Unwraps(log, wrappedKey, kek, vaultKey) && Extends(log, log')
    ensures Unwraps(log', wrappedKey, kek, vaultKey)
  {
  }

  lemma ValidFile(f: VaultFile)
    requires f.version == SUPPORTED_VERSION && f.kdf.ToKdfParams().Ok?
    requires f.wrappedKey.DecodeNonce().Ok? && f.wrappedKey.DecodeCiphertext().Ok?
    requires f.vault.DecodeNonce().Ok? && f.vault.DecodeCiphertext().Ok?
    ensures f.Validate().Ok?
  {
  }

  /** A payload sealed under the vault key of a header opens with it. */
  lemma SealedSectionsOpen(p: Primitives, log: Log, f: VaultFile, kek: Bytes, vaultKey: Bytes, nonce: Bytes, payload: Bytes)
    requires Sound(p) && Genuine(p, log)
    requires Unwraps(log, f.wrappedKey, kek, vaultKey) && |vaultKey| == KEY_LEN && |nonce| == NONCE_LEN
    requires f.vault == EncryptedBlob.FromRaw(nonce, p.gcm(vaultKey, nonce, AAD_VAULT, payload))
    ensures var log' := Encrypt(p, log, vaultKey, nonce, AAD_VAULT, payload).0;
            Genuine(p, log') && Extends(log, log') && OpenSections(log', f, kek) == Ok((vaultKey, payload))
    ensures f.vault.DecodeNonce().Ok? && f.vault.DecodeCiphertext().Ok?
  {
    var (log', ct) := Encrypt(p, log, vaultKey, nonce, AAD_VAULT, payload);
    EncryptExtends(p, log, vaultKey, nonce, AAD_VAULT, payload);
    BlobRoundTrip(nonce, ct);
    UnwrapsExtends(log, log', f.wrappedKey, kek, vaultKey);
    assert DecryptVault(log', vaultKey, nonce, ct) == Ok(payload);
  }

  lemma UnlockFrom(p: Primitives, log: Log, f: VaultFile, password: string, kek: Bytes, vaultKey: Bytes, payload: Bytes, es: seq<Entry>)
    requires f.Validate().Ok? && f.kdf.ToKdfParams().Ok?
    requires Kek(p, Utf8.Encode(password), f.kdf.ToKdfParams().value) == Ok(kek)
    requires OpenSections(log, f, kek) == Ok((vaultKey, payload))
    requires |payload| <= MAX_DECRYPTED_BYTES && ReadEntries(payload) == Ok(es) && ValidList(es)
    ensures Unlock(p, log, f, password) == Ok(VaultState(es, vaultKey, f.wrappedKey, f.kdf, f.version))
  {
  }

  /** The wrapped key of a new vault opens with the key that its password gives. */
  lemma BirthUnwraps(p: Primitives, log: Log, password: Bytes, d: CreateDraws)
    requires Sound(p) && Genuine(p, log) && d.Valid()
    requires NewBirth(p, log, password, d).1.Ok?
    ensures var (log', r) := NewBirth(p, log, password, d);
            var b := r.value;
            && Genuine(p, log') && Extends(log, log')
            && b.params.Validate().Ok? && Kek(p, password, b.params) == Ok(b.kek)
            && |b.vaultKey| == KEY_LEN
            && Unwraps(log', b.Wrapped(), b.kek, b.vaultKey)
            && log' == log[Box(b.kek, b.nonce, AAD_VAULT_KEY, b.wrapped) := b.vaultKey]
            && b.password == password && b.nonce == d.wrapNonce.value
            && |b.nonce| == NONCE_LEN && |b.wrapped| >= TAG_LEN
  {
    var (log', r) := NewBirth(p, log, password, d);
    var b := r.value;
    EncryptExtends(p, log, b.kek, b.nonce, AAD_VAULT_KEY, b.vaultKey);
    BlobRoundTrip(b.nonce, b.wrapped);
  }

  /** Creation yields an empty vault that its password opens, and whose file unlocks to it. */
  lemma NewOpens(p: Primitives, log: Log, password: string, d: CreateDraws)
    requires Sound(p) && Genuine(p, log) && d.Valid()
    requires New(p, log, password, d).1.Ok?
    ensures var (log', r) := New(p, log, password, d);
            var (f, v) := r.value;
            && Genuine(p, log') && Extends(log, log')
            && Opens(p, log', v, Utf8.Encode(password))
            && v.entries == []
            && f.Validate().Ok?
            && Unlock(p, log', f, password) == Ok(v)
  {
    var (log1, birth) := NewBirth(p, log, Utf8.Encode(password), d);
    var b := birth.value;
    BirthUnwraps(p, log, Utf8.Encode(password), d);
    var (log', r) := New(p, log, password, d);
    var (f, v) := r.value;
    SealedSectionsOpen(p, log1, f, b.kek, b.vaultKey, d.payloadNonce.value, EMPTY_PAYLOAD);
    KdfParamsRoundTrip(b.params);
    ValidFile(f);
    EmptyPayload();
    PayloadRoundTrip([]);
    UnwrapsExtends(log1, log', v.wrappedKey, b.kek, b.vaultKey);
    UnlockFrom(p, log', f, password, b.kek, b.vaultKey, EMPTY_PAYLOAD, []);
  }

  /** A sealed vault unlocks to itself: the same entries in the same order, the same key and sections. */
  lemma SealUnlocks(p: Primitives, log: Log, v: VaultState, nonce: Draw, password: string)
    requires Sound(p) && Genuine(p, log) && DrawOf(nonce, NONCE_LEN)
    requires Opens(p, log, v, Utf8.Encode(password)) && ValidList(v.entries)
    requires Seal(p, log, v, nonce).1.Ok?
    ensures var (log', r) := Seal(p, log, v, nonce);
            && Genuine(p, log') && Extends(log, log')
            && r.value.Validate().Ok?
            && Unlock(p, log', r.value, password) == Ok(v)
  {
    var json := WriteEntries(v.entries);
    var kek := Kek(p, Utf8.Encode(password), v.kdf.ToKdfParams().value).value;
    var (log', r) := Seal(p, log, v, nonce);
    SealedSectionsOpen(p, log, r.value, kek, v.vaultKey, nonce.value, json);
    ValidFile(r.value);
    PayloadRoundTrip(v.entries);
    UnlockFrom(p, log', r.value, password, kek, v.vaultKey, json, v.entries);
  }

  /** `seal`, `to_bytes`, `from_bytes`, `unlock`: the vault comes back exactly when its file fits the read limit. */
  lemma SaveReopen(p: Primitives, log: Log, v: VaultState, nonce: Draw, password: string)
    requires Sound(p) && Genuine(p, log) && DrawOf(nonce, NONCE_LEN)
    requires Opens(p, log, v, Utf8.Encode(password)) && ValidList(v.entries)
    requires Seal(p, log, v, nonce).1.Ok?
    ensures var (log', r) := Seal(p, log, v, nonce);
            var bytes := ToBytes(r.value);
            if |bytes| <= MAX_VAULT_FILE_BYTES
            then FromBytes(bytes).Ok? && Unlock(p, log', FromBytes(bytes).value, password) == Ok(v)
            else FromBytes(bytes) == Err(VaultFormat)
  {
    SealUnlocks(p, log, v, nonce, password);
    FileRoundTrip(Seal(p, log, v, nonce).1.value);
  }

  // ---- The closed error set of unlock ----

  lemma BlobTextWithin(j: Json, n: nat)
    requires TextWithin(j, n) && BlobFromJson(j).Some?
    ensures |BlobFromJson(j).value.ciphertext| <= n
  {
    FieldsTextWithin(j, BLOB_FIELDS, n);
    assert TextWithin(Fields(j, BLOB_FIELDS).value[1], n);
  }

  lemma FileTextWithin(j: Json, n: nat)
    requires TextWithin(j, n) && FileFromJson(j).Some?
    ensures var f := FileFromJson(j).value; |f.wrappedKey.ciphertext| <= n && |f.vault.ciphertext| <= n
  {
    var f := Fields(j, FILE_FIELDS).value;
    FieldsTextWithin(j, FILE_FIELDS, n);
    BlobTextWithin(f[2], n);
    BlobTextWithin(f[3], n);
  }

  lemma ReadFieldsAreShort(bytes: Bytes, f: VaultFile)
    requires FromBytes(bytes) == Ok(f)
    ensures |f.wrappedKey.ciphertext| <= |bytes| && |f.vault.ciphertext| <= |bytes| <= MAX_VAULT_FILE_BYTES
  {
    var s := Utf8.Decode(bytes).value;
    ValueTextWithin(s, |bytes|);
    FileTextWithin(Parse(s).value, |bytes|);
  }

  lemma BlobIsShort(b: EncryptedBlob)
    requires b.DecodeCiphertext().Ok? && |b.ciphertext| <= MAX_VAULT_FILE_BYTES
    ensures |b.DecodeCiphertext().value| <= MAX_DECRYPTED_BYTES
  {
    Base64.DecodedLength(b.ciphertext);
  }

  lemma ReadIsValid(bytes: Bytes, f: VaultFile)
    requires FromBytes(bytes) == Ok(f)
    ensures f.Validate().Ok? && f.kdf.ToKdfParams().Ok?
    ensures f.wrappedKey.DecodeNonce().Ok? && f.wrappedKey.DecodeCiphertext().Ok?
    ensures f.vault.DecodeNonce().Ok? && f.vault.DecodeCiphertext().Ok?
  {
  }

  /** No Base64 field of a file that was read holds more than 48 MiB. */
  lemma ReadSectionsAreShort(bytes: Bytes, f: VaultFile)
    requires FromBytes(bytes) == Ok(f)
    ensures f.Validate().Ok?
    ensures |f.kdf.ToKdfParams().value.salt| == SALT_LEN
    ensures |f.wrappedKey.DecodeNonce().value| == |f.vault.DecodeNonce().value| == NONCE_LEN
    ensures |f.wrappedKey.DecodeCiphertext().value| <= MAX_DECRYPTED_BYTES
    ensures |f.vault.DecodeCiphertext().value| <= MAX_DECRYPTED_BYTES
  {
    ReadFieldsAreShort(bytes, f);
    ReadIsValid(bytes, f);
    BlobIsShort(f.wrappedKey);
    BlobIsShort(f.vault);
  }

  /** Opening the sections of a valid file either authenticates or it does not. */
  lemma SectionsOutcome(p: Primitives, log: Log, f: VaultFile, kek: Bytes)
    requires Sound(p) && Genuine(p, log) && f.Validate().Ok? && |kek| == KEY_LEN
    ensures match OpenSections(log, f, kek)
            case Err(e) => e == Authentication
            case Ok((vk, payload)) =>
              && |vk| == KEY_LEN && Unwraps(log, f.wrappedKey, kek, vk)
              && DecryptVault(log, vk, f.vault.DecodeNonce().value, f.vault.DecodeCiphertext().value) == Ok(payload)
              && |payload| + TAG_LEN == |f.vault.DecodeCiphertext().value|
  {
  }

  lemma KekLength(p: Primitives, password: Bytes, params: KdfParams)
    requires Sound(p) && Kek(p, password, params).Ok?
    ensures |Kek(p, password, params).value| == KEY_LEN
  {
  }

  /** The key-encryption key a password gives for a file. */
  function FileKek(p: Primitives, kdf: KdfSection, password: Bytes): Result<Bytes> {
    var params :- kdf.ToKdfParams();
    Kek(p, password, params)
  }

  /**
    * On a file that `from_bytes` accepts, `unlock` has three outcomes unless the KDF itself
    * fails: the sections do not authenticate, the payload is not a valid entry list, or the
    * vault opens. Decoding a section again cannot fail, and the payload limit is never what
    * rejects.
    */
  lemma UnlockOutcomes(p: Primitives, log: Log, bytes: Bytes, f: VaultFile, password: string)
    requires Sound(p) && Genuine(p, log)
    requires FromBytes(bytes) == Ok(f)
    ensures Unlock(p, log, f, password) ==
            match FileKek(p, f.kdf, Utf8.Encode(password))
            case Err(_) => Err(KeyDerivation)
            case Ok(kek) =>
              match OpenSections(log, f, kek)
              case Err(_) => Err(Authentication)
              case Ok((vk, payload)) =>
                match ReadEntries(payload)
                case Err(_) => Err(InvalidEntry)
                case Ok(es) => if ValidList(es) then Ok(VaultState(es, vk, f.wrappedKey, f.kdf, f.version)) else Err(InvalidEntry)
  {
    ReadSectionsAreShort(bytes, f);
    KdfSectionIsCanonical(f.kdf);
    var params := f.kdf.ToKdfParams().value;
    if Kek(p, Utf8.Encode(password), params).Ok? {
      KekLength(p, Utf8.Encode(password), params);
      SectionsOutcome(p, log, f, Kek(p, Utf8.Encode(password), params).value);
    }
  }
}
