/**
  * The key hierarchy: which keys, nonces and associated data each step uses, and exactly when
  * each of them succeeds. Labels, lengths and parameters are written out.
  */
module Keys {
  import opened Basics
  import opened Crypto
  import opened Vault
  import opened VaultTheorems
  import opened Acceptance
  import Base64
  import Utf8

  predicate GoodParams(params: KdfParams) {
    && params.name == "argon2id" && |params.salt| == 16
    && FairCosts(params.timeCost, params.memoryCost, params.parallelism, params.hashLen)
  }

  /** A password gives a key exactly through both derivations, with a master key of 32 bytes in between. */
  lemma KekIsDerivedExactlyWhen(p: Primitives, password: Bytes, params: KdfParams)
    ensures GoodParams(params) <==> params.Validate().Ok?
    ensures Kek(p, password, params) ==
              if !GoodParams(params) then Err(InvalidKdfParameters)
              else
                match p.argon2(password, params)
                case Some(mk) => if |mk| == 32 && p.hkdf(mk).Some? then Ok(p.hkdf(mk).value) else Err(KeyDerivation)
                case None => Err(KeyDerivation)
  {
  }

  lemma {:induction false} LabelBytes(s: string)
    requires forall c :: c in s ==> c < 128 as char
    ensures |Utf8.Encode(s)| == |s| && forall i :: 0 <= i < |s| ==> Utf8.Encode(s)[i] == s[i] as int
  {
    if s != "" {
      assert s[0] in s && forall c :: c in s[1..] ==> c in s;
      LabelBytes(s[1..]);
    }
  }

  /** The associated data separates wrapped keys from payloads. */
  lemma LabelsAre()
    ensures AAD_VAULT_KEY == Utf8.Encode("vault_key") && AAD_VAULT == Utf8.Encode("vault") && AAD_VAULT_KEY != AAD_VAULT
  {
    KeyLabelIs();
    LabelBytes("vault");
    assert |AAD_VAULT_KEY| == 9 && |AAD_VAULT| == 5;
  }

  lemma KeyLabelIs()
    ensures AAD_VAULT_KEY == Utf8.Encode("vault_key")
  {
    LabelBytes("vault_key");
  }

  /** A wrapped key opens exactly with the key, nonce, label and ciphertext of the wrapping, and only to 32 bytes. */
  lemma KeyUnwrapsExactlyWhen(log: Log, kek: Bytes, nonce: Bytes, ct: Bytes, key: Bytes)
    ensures UnwrapVaultKey(log, kek, nonce, ct) == Ok(key) <==>
              && |kek| == 32 && |nonce| == 12 && |ct| >= 16 && |key| == 32
              && Box(kek, nonce, AAD_VAULT_KEY, ct) in log && log[Box(kek, nonce, AAD_VAULT_KEY, ct)] == key
    ensures UnwrapVaultKey(log, kek, nonce, ct).Err? ==>
              UnwrapVaultKey(log, kek, nonce, ct).error == if |kek| == 32 then Authentication else Error.Crypto
  {
  }

  lemma PayloadDecryptsExactlyWhen(log: Log, key: Bytes, nonce: Bytes, ct: Bytes, payload: Bytes)
    ensures DecryptVault(log, key, nonce, ct) == Ok(payload) <==>
              && |key| == 32 && |nonce| == 12 && |ct| >= 16
              && Box(key, nonce, AAD_VAULT, ct) in log && log[Box(key, nonce, AAD_VAULT, ct)] == payload
    ensures DecryptVault(log, key, nonce, ct).Err? ==>
              DecryptVault(log, key, nonce, ct).error == if |key| == 32 then Authentication else Error.Crypto
  {
  }

  // ---- What is written ----

  function NewParams(salt: Bytes): KdfParams {
    KdfParams("argon2id", salt, 3, 65_536, 1, 32)
  }

  /** The vault key under the derived key, and `[]` under the vault key. */
  function NewFile(p: Primitives, kek: Bytes, salt: Bytes, key: Bytes, wrapNonce: Bytes, payloadNonce: Bytes): VaultFile {
    VaultFile(
      1,
      KdfSection("argon2id", Base64.Encode(salt), 3, 65_536, 1, 32),
      EncryptedBlob(Base64.Encode(wrapNonce), Base64.Encode(p.gcm(kek, wrapNonce, AAD_VAULT_KEY, key))),
      EncryptedBlob(Base64.Encode(payloadNonce), Base64.Encode(p.gcm(key, payloadNonce, AAD_VAULT, EMPTY_PAYLOAD))))
  }

  /** Creation draws salt, key and two nonces, and makes exactly this file and the empty vault of its sections; nothing else is encrypted. */
  lemma NewVaultIs(p: Primitives, log: Log, password: string, salt: Bytes, key: Bytes, wrapNonce: Bytes, payloadNonce: Bytes, kek: Bytes)
    requires password != "" && |salt| == 16 && |key| == 32 && |kek| == 32
    requires Kek(p, Utf8.Encode(password), NewParams(salt)) == Ok(kek)
    ensures var f := NewFile(p, kek, salt, key, wrapNonce, payloadNonce);
            var d := CreateDraws(Some(salt), Some(key), Some(wrapNonce), Some(payloadNonce));
            New(p, log, password, d) ==
              (log[Box(kek, wrapNonce, AAD_VAULT_KEY, p.gcm(kek, wrapNonce, AAD_VAULT_KEY, key)) := key]
                  [Box(key, payloadNonce, AAD_VAULT, p.gcm(key, payloadNonce, AAD_VAULT, EMPTY_PAYLOAD)) := EMPTY_PAYLOAD],
               Ok((f, VaultState([], key, f.wrappedKey, f.kdf, 1))))
  {
    Utf8.DecodeOfEncode(password);
  }

  /** Sealing keeps the header and encrypts the JSON of the entries under the vault key, if there are at most 48 MiB of it. */
  lemma SealedVaultIs(p: Primitives, log: Log, v: VaultState, nonce: Draw)
    requires |v.vaultKey| == 32
    ensures var payload := WriteEntries(v.entries);
            Seal(p, log, v, nonce) ==
              if |payload| > 50_331_648 then (log, Err(VaultFormat))
              else if nonce.None? then (log, Err(Error.Crypto))
              else
                var ct := p.gcm(v.vaultKey, nonce.value, AAD_VAULT, payload);
                (log[Box(v.vaultKey, nonce.value, AAD_VAULT, ct) := payload],
                 Ok(VaultFile(v.version, v.kdf, v.wrappedKey, EncryptedBlob(Base64.Encode(nonce.value), Base64.Encode(ct)))))
  {
  }

  // ---- What is read ----

  /** The two sections hold this key, wrapped under `kek`, and this payload, encrypted under the key. */
  ghost predicate Holds(log: Log, f: VaultFile, kek: Bytes, key: Bytes, payload: Bytes,
                        wrapNonce: Bytes, wrapped: Bytes, nonce: Bytes, ct: Bytes) {
    && IsText(f.wrappedKey.nonce, wrapNonce) && |wrapNonce| == 12 && IsText(f.wrappedKey.ciphertext, wrapped) && |wrapped| >= 16
    && IsText(f.vault.nonce, nonce) && |nonce| == 12 && IsText(f.vault.ciphertext, ct) && |ct| >= 16
    && |key| == 32
    && Box(kek, wrapNonce, AAD_VAULT_KEY, wrapped) in log && log[Box(kek, wrapNonce, AAD_VAULT_KEY, wrapped)] == key
    && Box(key, nonce, AAD_VAULT, ct) in log && log[Box(key, nonce, AAD_VAULT, ct)] == payload
  }

  lemma HeldSectionsOpen(log: Log, f: VaultFile, kek: Bytes, key: Bytes, payload: Bytes,
                         wrapNonce: Bytes, wrapped: Bytes, nonce: Bytes, ct: Bytes)
    requires |kek| == 32 && Holds(log, f, kek, key, payload, wrapNonce, wrapped, nonce, ct)
    ensures OpenSections(log, f, kek) == Ok((key, payload))
  {
    TextDecodes(f.wrappedKey.nonce);
    TextDecodes(f.wrappedKey.ciphertext);
    TextDecodes(f.vault.nonce);
    TextDecodes(f.vault.ciphertext);
    KeyUnwrapsExactlyWhen(log, kek, wrapNonce, wrapped, key);
    PayloadDecryptsExactlyWhen(log, key, nonce, ct, payload);
  }

  lemma OpenSectionsHold(log: Log, f: VaultFile, kek: Bytes, key: Bytes, payload: Bytes)
    requires |kek| == 32 && OpenSections(log, f, kek) == Ok((key, payload))
    ensures exists wrapNonce, wrapped, nonce, ct :: Holds(log, f, kek, key, payload, wrapNonce, wrapped, nonce, ct)
  {
    BlobIsAcceptedExactlyWhen(f.wrappedKey);
    BlobIsAcceptedExactlyWhen(f.vault);
    var wrapNonce, wrapped := f.wrappedKey.DecodeNonce().value, f.wrappedKey.DecodeCiphertext().value;
    var nonce, ct := f.vault.DecodeNonce().value, f.vault.DecodeCiphertext().value;
    KeyUnwrapsExactlyWhen(log, kek, wrapNonce, wrapped, key);
    PayloadDecryptsExactlyWhen(log, key, nonce, ct, payload);
    assert Holds(log, f, kek, key, payload, wrapNonce, wrapped, nonce, ct);
  }

  /** The file opens to `v` under this key-encryption key, through this payload. */
  ghost predicate OpensTo(log: Log, f: VaultFile, kek: Bytes, payload: Bytes, v: VaultState,
                          wrapNonce: Bytes, wrapped: Bytes, nonce: Bytes, ct: Bytes) {
    && Holds(log, f, kek, v.vaultKey, payload, wrapNonce, wrapped, nonce, ct)
    && OpenPayload(payload) == Ok(v.entries)
    && v.wrappedKey == f.wrappedKey && v.kdf == f.kdf && v.version == f.version
  }

  /** The parameters that a section stands for. */
  ghost predicate StandsFor(k: KdfSection, params: KdfParams) {
    && IsText(k.salt, params.salt) && params.name == k.name
    && (params.timeCost, params.memoryCost, params.parallelism, params.hashLen) == (k.timeCost, k.memoryCost, k.parallelism, k.hashLen)
  }

  /**
    * A file opens to a vault exactly if it is good, the password derives a key-encryption key of
    * 32 bytes from its parameters, that key opens the wrapped key, the vault key opens the
    * payload, the payload is an acceptable list, and the vault takes over the header sections.
    */
  lemma UnlockExactlyWhen(p: Primitives, log: Log, f: VaultFile, password: string, params: KdfParams, v: VaultState)
    requires Sound(p) && StandsFor(f.kdf, params)
    ensures Unlock(p, log, f, password) == Ok(v) <==>
              && GoodFile(f)
              && Kek(p, Utf8.Encode(password), params).Ok?
              && exists payload, wrapNonce, wrapped, nonce, ct ::
                   OpensTo(log, f, Kek(p, Utf8.Encode(password), params).value, payload, v, wrapNonce, wrapped, nonce, ct)
    ensures Unlock(p, log, f, password) == Ok(v) ==> AcceptableList(v.entries)
  {
    FileIsAcceptedExactlyWhen(f);
    if GoodFile(f) && Kek(p, Utf8.Encode(password), params).Ok? {
      var kek := Kek(p, Utf8.Encode(password), params).value;
      if payload, wrapNonce, wrapped, nonce, ct :| OpensTo(log, f, kek, payload, v, wrapNonce, wrapped, nonce, ct) {
        OpensToUnlocks(p, log, f, password, params, payload, v, wrapNonce, wrapped, nonce, ct);
      }
    }
    if Unlock(p, log, f, password) == Ok(v) {
      UnlockOpensTo(p, log, f, password, params, v);
    }
  }

  lemma OpensToUnlocks(p: Primitives, log: Log, f: VaultFile, password: string, params: KdfParams, payload: Bytes, v: VaultState,
                       wrapNonce: Bytes, wrapped: Bytes, nonce: Bytes, ct: Bytes)
    requires Sound(p) && StandsFor(f.kdf, params) && f.Validate().Ok? && Kek(p, Utf8.Encode(password), params).Ok?
    requires OpensTo(log, f, Kek(p, Utf8.Encode(password), params).value, payload, v, wrapNonce, wrapped, nonce, ct)
    ensures Unlock(p, log, f, password) == Ok(v)
  {
    ParamsOfFile(f, params);
    KekLength(p, Utf8.Encode(password), params);
    HeldSectionsOpen(log, f, Kek(p, Utf8.Encode(password), params).value, v.vaultKey, payload, wrapNonce, wrapped, nonce, ct);
  }

  lemma UnlockOpensTo(p: Primitives, log: Log, f: VaultFile, password: string, params: KdfParams, v: VaultState)
    requires Sound(p) && StandsFor(f.kdf, params) && Unlock(p, log, f, password) == Ok(v)
    ensures f.Validate().Ok? && Kek(p, Utf8.Encode(password), params).Ok? && AcceptableList(v.entries)
    ensures exists payload, wrapNonce, wrapped, nonce, ct ::
              OpensTo(log, f, Kek(p, Utf8.Encode(password), params).value, payload, v, wrapNonce, wrapped, nonce, ct)
  {
    ParamsOfFile(f, params);
    KekLength(p, Utf8.Encode(password), params);
    var kek := Kek(p, Utf8.Encode(password), params).value;
    var payload := OpenSections(log, f, kek).value.1;
    PayloadIsAcceptedExactlyWhen(payload, v.entries);
    OpenSectionsHold(log, f, kek, v.vaultKey, payload);
    var wrapNonce, wrapped, nonce, ct :| Holds(log, f, kek, v.vaultKey, payload, wrapNonce, wrapped, nonce, ct);
    assert OpensTo(log, f, kek, payload, v, wrapNonce, wrapped, nonce, ct);
  }

  lemma ParamsOfFile(f: VaultFile, params: KdfParams)
    requires f.Validate().Ok? && StandsFor(f.kdf, params)
    ensures f.kdf.ToKdfParams() == Ok(params)
  {
    KdfIsAcceptedExactlyWhen(f.kdf);
    TextDecodes(f.kdf.salt);
    assert f.kdf.ToKdfParams().value.salt == params.salt;
  }
}
