/**
  * Key derivation and authenticated encryption.
  *
  * Argon2id, HKDF-SHA256 and AES-256-GCM are function parameters. AES-256-GCM is ideal
  * in this sense: every encryption is entered in a history, and a decryption succeeds
  * exactly on the nonce, associated data and ciphertext of an encryption under the same key.
  */
module Crypto {
  import opened Basics

  type u32 = x: nat | x < 0x1_0000_0000

  const SALT_LEN := 16
  const NONCE_LEN := 12
  const KEY_LEN := 32
  const TAG_LEN := 16

  /** The ASCII bytes of `vault_key` and `vault`. */
  const AAD_VAULT_KEY: Bytes := [118, 97, 117, 108, 116, 95, 107, 101, 121]
  const AAD_VAULT: Bytes := [118, 97, 117, 108, 116]

  const KDF_NAME_ARGON2ID := "argon2id"

  const ARGON2_MIN_TIME_COST := 1
  const ARGON2_MAX_TIME_COST := 16
  const ARGON2_MIN_MEMORY_KIB := 19 * 1024
  const ARGON2_MAX_MEMORY_KIB := 1024 * 1024
  const ARGON2_MIN_PARALLELISM := 1
  const ARGON2_MAX_PARALLELISM := 4
  const ARGON2_HASH_LEN := 32

  datatype KdfParams = KdfParams(
    name: string,
    salt: Bytes,
    timeCost: u32,
    memoryCost: u32,
    parallelism: u32,
    hashLen: u32)
  {
    function Validate(): (r: Result<Unit>)
      ensures r.Err? ==> r.error == InvalidKdfParameters
    {
      if name != KDF_NAME_ARGON2ID then Err(InvalidKdfParameters)
      else if |salt| != SALT_LEN then Err(InvalidKdfParameters)
      else if hashLen != ARGON2_HASH_LEN then Err(InvalidKdfParameters)
      else if timeCost < ARGON2_MIN_TIME_COST || timeCost > ARGON2_MAX_TIME_COST then Err(InvalidKdfParameters)
      else if memoryCost < ARGON2_MIN_MEMORY_KIB || memoryCost > ARGON2_MAX_MEMORY_KIB then Err(InvalidKdfParameters)
      else if parallelism < ARGON2_MIN_PARALLELISM || parallelism > ARGON2_MAX_PARALLELISM then Err(InvalidKdfParameters)
      else Ok(Unit)
    }
  }

  function DefaultParams(salt: Bytes): KdfParams {
    KdfParams(KDF_NAME_ARGON2ID, salt, 3, 65_536, 1, ARGON2_HASH_LEN)
  }

  /** The primitives the crate takes from libraries. `gcm` takes key, nonce, associated data, message. */
  datatype Primitives = Primitives(
    argon2: (Bytes, KdfParams) -> Option<Bytes>,
    hkdf: Bytes -> Option<Bytes>,
    gcm: (Bytes, Bytes, Bytes, Bytes) -> Bytes)

  /** What the libraries promise of their outputs. */
  ghost predicate Sound(p: Primitives) {
    && (forall pw, params :: p.argon2(pw, params).Some? ==> |p.argon2(pw, params).value| == params.hashLen)
    && (forall mk :: p.hkdf(mk).Some? ==> |p.hkdf(mk).value| == KEY_LEN)
    && (forall k, n, a, m :: |p.gcm(k, n, a, m)| == |m| + TAG_LEN)
    && (forall k, n, a, m, m' :: p.gcm(k, n, a, m) == p.gcm(k, n, a, m') ==> m == m')
  }

  ghost predicate NeverFails(p: Primitives) {
    (forall pw, params :: p.argon2(pw, params).Some?) && (forall mk :: p.hkdf(mk).Some?)
  }

  /** The promises are consistent, also with key derivation that never fails. */
  lemma SoundPrimitivesExist() returns (p: Primitives)
    ensures Sound(p) && NeverFails(p)
  {
    var tag: Bytes := seq(TAG_LEN, i => 0);
    p := Primitives(
      (pw: Bytes, params: KdfParams) => Some(seq(params.hashLen, i => 0)),
      (mk: Bytes) => Some(seq(KEY_LEN, i => 0)),
      (k: Bytes, n: Bytes, a: Bytes, m: Bytes) => m + tag);
    forall k, n, a, m, m' | p.gcm(k, n, a, m) == p.gcm(k, n, a, m') ensures m == m' {
      assert |m + tag| == |m' + tag|;
      assert m == (m + tag)[..|m|] && m' == (m' + tag)[..|m'|];
    }
  }

  /** One encryption, named by everything a decryption has to present. */
  datatype Box = Box(key: Bytes, nonce: Bytes, aad: Bytes, ciphertext: Bytes)

  /** Every encryption so far, with its plaintext. */
  type Log = map<Box, Bytes>

  /** Every ciphertext in the history was computed by the cipher. */
  ghost predicate Genuine(p: Primitives, log: Log) {
    forall b :: b in log ==> b.ciphertext == p.gcm(b.key, b.nonce, b.aad, log[b])
  }

  /** Nothing that could be decrypted before is lost or changed. */
  ghost predicate Extends(log: Log, log': Log) {
    forall b :: b in log ==> b in log' && log'[b] == log[b]
  }

  function Encrypt(p: Primitives, log: Log, key: Bytes, nonce: Bytes, aad: Bytes, msg: Bytes): (r: (Log, Bytes)) {
    var ct := p.gcm(key, nonce, aad, msg);
    (log[Box(key, nonce, aad, ct) := msg], ct)
  }

  function Decrypt(log: Log, key: Bytes, nonce: Bytes, aad: Bytes, ct: Bytes): Option<Bytes> {
    var b := Box(key, nonce, aad, ct);
    if b in log then Some(log[b]) else None
  }

  lemma EncryptExtends(p: Primitives, log: Log, key: Bytes, nonce: Bytes, aad: Bytes, msg: Bytes)
    requires Sound(p) && Genuine(p, log)
    ensures var log' := Encrypt(p, log, key, nonce, aad, msg).0; Genuine(p, log') && Extends(log, log')
  {
  }

  function DeriveMasterKey(p: Primitives, password: Bytes, params: KdfParams): (r: Result<Bytes>)
    ensures r.Err? ==> r.error in {InvalidKdfParameters, KeyDerivation}
  {
    var _ :- params.Validate();
    match p.argon2(password, params)
    case None => Err(KeyDerivation)
    case Some(mk) => Ok(mk)
  }

  function DeriveKek(p: Primitives, masterKey: Bytes): (r: Result<Bytes>)
    ensures r.Err? ==> r.error == KeyDerivation
  {
    if |masterKey| != KEY_LEN then Err(KeyDerivation)
    else
      match p.hkdf(masterKey)
      case None => Err(KeyDerivation)
      case Some(kek) => Ok(kek)
  }

  /** The key-encryption key that a password gives under stored parameters. */
  function Kek(p: Primitives, password: Bytes, params: KdfParams): Result<Bytes> {
    var mk :- DeriveMasterKey(p, password, params);
    DeriveKek(p, mk)
  }

  function WrapVaultKey(p: Primitives, log: Log, kek: Bytes, vaultKey: Bytes, nonce: Draw): (Log, Result<(Bytes, Bytes)>) {
    if |kek| != KEY_LEN || |vaultKey| != KEY_LEN then (log, Err(Error.Crypto))
    else if nonce.None? then (log, Err(Error.Crypto))
    else
      var (log', ct) := Encrypt(p, log, kek, nonce.value, AAD_VAULT_KEY, vaultKey);
      (log', Ok((nonce.value, ct)))
  }

  function UnwrapVaultKey(log: Log, kek: Bytes, nonce: Bytes, ct: Bytes): Result<Bytes> {
    if |kek| != KEY_LEN then Err(Error.Crypto)
    else if |nonce| != NONCE_LEN then Err(Authentication)
    else if |ct| < TAG_LEN then Err(Authentication)
    else
      match Decrypt(log, kek, nonce, AAD_VAULT_KEY, ct)
      case None => Err(Authentication)
      case Some(plain) => if |plain| != KEY_LEN then Err(Authentication) else Ok(plain)
  }

  function EncryptVault(p: Primitives, log: Log, vaultKey: Bytes, plain: Bytes, nonce: Draw): (Log, Result<(Bytes, Bytes)>) {
    if |vaultKey| != KEY_LEN then (log, Err(Error.Crypto))
    else if nonce.None? then (log, Err(Error.Crypto))
    else
      var (log', ct) := Encrypt(p, log, vaultKey, nonce.value, AAD_VAULT, plain);
      (log', Ok((nonce.value, ct)))
  }

  function DecryptVault(log: Log, vaultKey: Bytes, nonce: Bytes, ct: Bytes): Result<Bytes> {
    if |vaultKey| != KEY_LEN then Err(Error.Crypto)
    else if |nonce| != NONCE_LEN then Err(Authentication)
    else if |ct| < TAG_LEN then Err(Authentication)
    else
      match Decrypt(log, vaultKey, nonce, AAD_VAULT, ct)
      case None => Err(Authentication)
      case Some(plain) => Ok(plain)
  }
}
