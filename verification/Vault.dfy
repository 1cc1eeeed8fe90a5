/** The vault file: its sections, its JSON form, validation, creation, sealing and unlocking. */
module Vault {
  import opened Basics
  import opened Json
  import opened Crypto
  import Base64
  import Utf8
  import Hex

  const MAX_VAULT_FILE_BYTES := 64 * 1024 * 1024
  const MAX_DECRYPTED_BYTES := 48 * 1024 * 1024
  const MAX_ENTRIES := 100_000

  const MAX_ID_BYTES := 128
  const MAX_TITLE_BYTES := 1024
  const MAX_USERNAME_BYTES := 4096
  const MAX_PASSWORD_BYTES := 16 * 1024
  const MAX_URL_BYTES := 4096
  const MAX_TOTP_BYTES := 1024
  const MAX_NOTES_BYTES := 64 * 1024

  const SUPPORTED_VERSION: u32 := 1

  // ---- Sections ----

  function DecodeBase64(s: string): Result<Bytes> {
    match Base64.Decode(s)
    case None => Err(InvalidEncoding)
    case Some(b) => Ok(b)
  }

  datatype KdfSection = KdfSection(
    name: string,
    salt: string,
    timeCost: u32,
    memoryCost: u32,
    parallelism: u32,
    hashLen: u32)
  {
    function ToKdfParams(): Result<KdfParams> {
      if name != KDF_NAME_ARGON2ID then Err(InvalidKdfParameters)
      else
        var raw :- DecodeBase64(salt);
        if |raw| != SALT_LEN then Err(InvalidKdfParameters)
        else
          var params := KdfParams(name, raw, timeCost, memoryCost, parallelism, hashLen);
          var _ :- params.Validate();
          Ok(params)
    }

    static function FromKdfParams(p: KdfParams): KdfSection {
      KdfSection(p.name, Base64.Encode(p.salt), p.timeCost, p.memoryCost, p.parallelism, p.hashLen)
    }
  }

  datatype EncryptedBlob = EncryptedBlob(nonce: string, ciphertext: string) {
    function DecodeNonce(): Result<Bytes> {
      var n :- DecodeBase64(nonce);
      if |n| != NONCE_LEN then Err(InvalidEncoding) else Ok(n)
    }

    function DecodeCiphertext(): Result<Bytes> {
      var c :- DecodeBase64(ciphertext);
      if |c| < TAG_LEN then Err(InvalidEncoding) else Ok(c)
    }

    static function FromRaw(nonce: Bytes, ciphertext: Bytes): EncryptedBlob {
      EncryptedBlob(Base64.Encode(nonce), Base64.Encode(ciphertext))
    }
  }

  datatype VaultFile = VaultFile(version: u32, kdf: KdfSection, wrappedKey: EncryptedBlob, vault: EncryptedBlob) {
    function Validate(): Result<Unit> {
      if version != SUPPORTED_VERSION then Err(UnsupportedVersion)
      else
        var _ :- kdf.ToKdfParams();
        var _ :- wrappedKey.DecodeNonce();
        var _ :- wrappedKey.DecodeCiphertext();
        var _ :- vault.DecodeNonce();
        var _ :- vault.DecodeCiphertext();
        Ok(Unit)
    }
  }

  /** Reading a stored parameter set back gives the parameters that were stored. */
  lemma KdfParamsRoundTrip(p: KdfParams)
    requires p.Validate().Ok?
    ensures KdfSection.FromKdfParams(p).ToKdfParams() == Ok(p)
  {
    Base64.DecodeOfEncode(p.salt);
  }

  /** A section that is accepted is the one its parameters would be stored as. */
  lemma KdfSectionIsCanonical(k: KdfSection)
    requires k.ToKdfParams().Ok?
    ensures KdfSection.FromKdfParams(k.ToKdfParams().value) == k
    ensures k.ToKdfParams().value.Validate().Ok?
  {
    Base64.EncodeOfDecode(k.salt);
  }

  /** The codecs of an encrypted section are the identity on what encryption produces. */
  lemma BlobRoundTrip(nonce: Bytes, ct: Bytes)
    requires |nonce| == NONCE_LEN && |ct| >= TAG_LEN
    ensures var b := EncryptedBlob.FromRaw(nonce, ct);
            b.DecodeNonce() == Ok(nonce) && b.DecodeCiphertext() == Ok(ct)
  {
    Base64.DecodeOfEncode(nonce);
    Base64.DecodeOfEncode(ct);
  }

  /** A section that is accepted is the one its bytes would be stored as. */
  lemma BlobIsCanonical(b: EncryptedBlob)
    requires b.DecodeNonce().Ok? && b.DecodeCiphertext().Ok?
    ensures EncryptedBlob.FromRaw(b.DecodeNonce().value, b.DecodeCiphertext().value) == b
  {
    Base64.EncodeOfDecode(b.nonce);
    Base64.EncodeOfDecode(b.ciphertext);
  }

  // ---- Entries ----

  datatype Entry = Entry(
    id: string,
    title: string,
    username: string,
    password: string,
    url: string,
    totp: string,
    notes: string)

  /** `s.len()`: the length in bytes. */
  function Len(s: string): nat {
    |Utf8.Encode(s)|
  }

  function ValidateEntry(e: Entry): Result<Unit> {
    if e.id == "" || Len(e.id) > MAX_ID_BYTES then Err(InvalidEntry)
    else if exists c :: c in e.id && Hex.Value(c).None? then Err(InvalidEntry)
    else if Len(e.title) > MAX_TITLE_BYTES
         || Len(e.username) > MAX_USERNAME_BYTES
         || Len(e.password) > MAX_PASSWORD_BYTES
         || Len(e.url) > MAX_URL_BYTES
         || Len(e.totp) > MAX_TOTP_BYTES
         || Len(e.notes) > MAX_NOTES_BYTES then Err(InvalidEntry)
    else Ok(Unit)
  }

  /** What an entry has to satisfy: sizes are in bytes of UTF-8, and the id is hexadecimal in either case. */
  predicate Acceptable(e: Entry) {
    && 1 <= |Utf8.Encode(e.id)| <= 128
    && (forall c :: c in e.id ==> '0' <= c <= '9' || 'a' <= c <= 'f' || 'A' <= c <= 'F')
    && |Utf8.Encode(e.title)| <= 1024
    && |Utf8.Encode(e.username)| <= 4096
    && |Utf8.Encode(e.password)| <= 16_384
    && |Utf8.Encode(e.url)| <= 4096
    && |Utf8.Encode(e.totp)| <= 1024
    && |Utf8.Encode(e.notes)| <= 65_536
  }

  /** The checks of one entry pass exactly if it is acceptable, and have one error. */
  lemma EntryIsAcceptedExactlyWhen(e: Entry)
    ensures ValidateEntry(e) == if Acceptable(e) then Ok(Unit) else Err(InvalidEntry)
  {
  }

  /** What a list has to satisfy. */
  predicate AcceptableList(es: seq<Entry>) {
    && |es| <= 100_000
    && (forall e :: e in es ==> Acceptable(e))
    && forall i, j :: 0 <= i < j < |es| ==> es[i].id != es[j].id
  }

  lemma ListIsAcceptedExactlyWhen(es: seq<Entry>)
    ensures ValidList(es) <==> AcceptableList(es)
  {
    forall i | 0 <= i < |es| ensures ValidateEntry(es[i]).Ok? <==> Acceptable(es[i]) {
      EntryIsAcceptedExactlyWhen(es[i]);
    }
    assert forall i :: 0 <= i < |es| ==> Ids(es)[i] == es[i].id;
  }

  function Ids(es: seq<Entry>): (ids: seq<string>)
    ensures |ids| == |es|
    ensures forall i :: 0 <= i < |es| ==> ids[i] == es[i].id
  {
    seq(|es|, i requires 0 <= i < |es| => es[i].id)
  }

  /** What the entry list of a vault has to satisfy. */
  predicate ValidList(es: seq<Entry>) {
    && |es| <= MAX_ENTRIES
    && (forall i :: 0 <= i < |es| ==> ValidateEntry(es[i]).Ok?)
    && Distinct(Ids(es))
  }

  lemma OneMoreId(es: seq<Entry>, i: nat)
    requires i < |es| && Distinct(Ids(es[..i]))
    ensures Ids(es[..i + 1]) == Ids(es[..i]) + [es[i].id]
    ensures es[i].id in Ids(es[..i]) ==> !Distinct(Ids(es))
    ensures es[i].id !in Ids(es[..i]) ==> Distinct(Ids(es[..i + 1]))
  {
    var ids := Ids(es[..i]);
    if es[i].id in ids {
      var j :| 0 <= j < i && ids[j] == es[i].id;
      assert Ids(es)[j] == Ids(es)[i];
    }
  }

  /** One more entry of a list whose beginning is valid. */
  lemma OneMoreEntry(es: seq<Entry>, i: nat)
    requires i < |es| <= MAX_ENTRIES && ValidList(es[..i])
    ensures if ValidateEntry(es[i]).Err? then ValidateEntry(es[i]) == Err(InvalidEntry) && !ValidList(es)
            else if es[i].id in Ids(es[..i]) then !ValidList(es)
            else ValidList(es[..i + 1])
    ensures Ids(es[..i + 1]) == Ids(es[..i]) + [es[i].id]
  {
    OneMoreId(es, i);
    assert es[..i + 1] == es[..i] + [es[i]];
  }

  /**
    * The one pass over a loaded list that keeps the set of ids seen so far accepts exactly
    * the lists a vault may hold.
    */
  method ValidateEntries(es: seq<Entry>) returns (r: Result<Unit>)
    ensures r == if ValidList(es) then Ok(Unit) else Err(InvalidEntry)
    ensures r.Ok? <==> AcceptableList(es)
  {
    ListIsAcceptedExactlyWhen(es);
    if |es| > MAX_ENTRIES {
      return Err(InvalidEntry);
    }
    var seen: set<string> := {};
    for i := 0 to |es|
      invariant ValidList(es[..i])
      invariant forall id :: id in seen <==> id in Ids(es[..i])
    {
      OneMoreEntry(es, i);
      var valid := ValidateEntry(es[i]);
      if valid.Err? {
        return valid;
      }
      if es[i].id in seen {
        return Err(InvalidEntry);
      }
      seen := seen + {es[i].id};
    }
    assert es[..|es|] == es;
    return Ok(Unit);
  }

  /** Sixteen random bytes make an id that an entry may carry; different bytes, different ids. */
  method NewId(draw: Draw) returns (r: Result<string>)
    requires DrawOf(draw, 16)
    ensures draw.None? ==> r == Err(Error.Crypto)
    ensures draw.Some? ==> r == Ok(Hex.Of(draw.value))
  {
    if draw.None? {
      return Err(Error.Crypto);
    }
    var s := "";
    for i := 0 to |draw.value|
      invariant s == Hex.Of(draw.value[..i])
    {
      var b := draw.value[i];
      Hex.OfAppend(draw.value[..i], b);
      assert draw.value[..i + 1] == draw.value[..i] + [b];
      s := s + [Hex.Digit(b / 16), Hex.Digit(b % 16)];
    }
    assert draw.value[..|draw.value|] == draw.value;
    return Ok(s);
  }

  lemma NewIdIsValid(bytes: Bytes, e: Entry)
    requires |bytes| == 16 && ValidateEntry(e).Ok?
    ensures ValidateEntry(e.(id := Hex.Of(bytes))).Ok?
  {
    Hex.OfIsHex(bytes);
    Utf8.AsciiLength(Hex.Of(bytes));
  }

  // ---- JSON ----

  const FILE_FIELDS := ["version", "kdf", "wrapped_key", "vault"]
  const KDF_FIELDS := ["name", "salt", "time_cost", "memory_cost", "parallelism", "hash_len"]
  const BLOB_FIELDS := ["nonce", "ciphertext"]
  const ENTRY_FIELDS := ["id", "title", "username", "password", "url", "totp", "notes"]

  lemma FieldNamesDistinct()
    ensures Distinct(FILE_FIELDS) && Distinct(KDF_FIELDS) && Distinct(BLOB_FIELDS) && Distinct(ENTRY_FIELDS)
  {
  }

  function AsText(j: Json): Option<string> {
    if j.Str? then Some(j.text) else None
  }

  function AsU32(j: Json): Option<u32> {
    if j.Num? && j.n < 0x1_0000_0000 then Some(j.n) else None
  }

  function KdfToJson(k: KdfSection): Json {
    Struct(KDF_FIELDS, [Str(k.name), Str(k.salt), Num(k.timeCost), Num(k.memoryCost), Num(k.parallelism), Num(k.hashLen)])
  }

  function KdfFromJson(j: Json): Option<KdfSection> {
    match Fields(j, KDF_FIELDS)
    case None => None
    case Some(f) =>
      var name, salt, t, m, p, h := AsText(f[0]), AsText(f[1]), AsU32(f[2]), AsU32(f[3]), AsU32(f[4]), AsU32(f[5]);
      if name.None? || salt.None? || t.None? || m.None? || p.None? || h.None? then None
      else Some(KdfSection(name.value, salt.value, t.value, m.value, p.value, h.value))
  }

  function BlobToJson(b: EncryptedBlob): Json {
    Struct(BLOB_FIELDS, [Str(b.nonce), Str(b.ciphertext)])
  }

  function BlobFromJson(j: Json): Option<EncryptedBlob> {
    match Fields(j, BLOB_FIELDS)
    case None => None
    case Some(f) =>
      var n, c := AsText(f[0]), AsText(f[1]);
      if n.None? || c.None? then None else Some(EncryptedBlob(n.value, c.value))
  }

  function FileToJson(f: VaultFile): Json {
    Struct(FILE_FIELDS, [Num(f.version), KdfToJson(f.kdf), BlobToJson(f.wrappedKey), BlobToJson(f.vault)])
  }

  function FileFromJson(j: Json): Option<VaultFile> {
    match Fields(j, FILE_FIELDS)
    case None => None
    case Some(f) =>
      var v, k, w, p := AsU32(f[0]), KdfFromJson(f[1]), BlobFromJson(f[2]), BlobFromJson(f[3]);
      if v.None? || k.None? || w.None? || p.None? then None
      else Some(VaultFile(v.value, k.value, w.value, p.value))
  }

  function EntryToJson(e: Entry): Json {
    Struct(ENTRY_FIELDS, [Str(e.id), Str(e.title), Str(e.username), Str(e.password), Str(e.url), Str(e.totp), Str(e.notes)])
  }

  function EntryFromJson(j: Json): Option<Entry> {
    match Fields(j, ENTRY_FIELDS)
    case None => None
    case Some(f) =>
      var a, b, c, d, e, g, h := AsText(f[0]), AsText(f[1]), AsText(f[2]), AsText(f[3]), AsText(f[4]), AsText(f[5]), AsText(f[6]);
      if a.None? || b.None? || c.None? || d.None? || e.None? || g.None? || h.None? then None
      else Some(Entry(a.value, b.value, c.value, d.value, e.value, g.value, h.value))
  }

  function EntryJsons(es: seq<Entry>): (items: seq<Json>)
    ensures |items| == |es|
    ensures forall i :: 0 <= i < |es| ==> items[i] == EntryToJson(es[i])
  {
    seq(|es|, i requires 0 <= i < |es| => EntryToJson(es[i]))
  }

  function EntriesFromJsons(items: seq<Json>): Option<seq<Entry>> {
    if items == [] then Some([])
    else
      var e, rest := EntryFromJson(items[0]), EntriesFromJsons(items[1..]);
      if e.None? || rest.None? then None else Some([e.value] + rest.value)
  }

  /** `serde_json::to_vec(&entries)`. */
  function WriteEntries(es: seq<Entry>): Bytes {
    Utf8.Encode(Print(Arr(EntryJsons(es))))
  }

  function ParseBytes(b: Bytes): Option<Json> {
    match Utf8.Decode(b)
    case None => None
    case Some(s) => Parse(s)
  }

  function ReadEntries(payload: Bytes): Result<seq<Entry>> {
    match ParseBytes(payload)
    case Some(Arr(items)) =>
      (match EntriesFromJsons(items)
       case None => Err(InvalidEntry)
       case Some(es) => Ok(es))
    case _ => Err(InvalidEntry)
  }

  function ToBytes(f: VaultFile): Bytes {
    Utf8.Encode(Print(FileToJson(f)))
  }

  function FromBytes(b: Bytes): Result<VaultFile> {
    if b == [] || |b| > MAX_VAULT_FILE_BYTES then Err(VaultFormat)
    else
      match ParseBytes(b)
      case None => Err(VaultFormat)
      case Some(j) =>
        match FileFromJson(j)
        case None => Err(VaultFormat)
        case Some(f) =>
          var _ :- f.Validate();
          Ok(f)
  }

  lemma ParseBytesOfPrint(j: Json)
    ensures ParseBytes(Utf8.Encode(Print(j))) == Some(j)
  {
    Utf8.DecodeOfEncode(Print(j));
    ParseOfPrint(j);
  }

  lemma KdfJsonRoundTrip(k: KdfSection)
    ensures KdfFromJson(KdfToJson(k)) == Some(k)
  {
    FieldNamesDistinct();
    FieldsOfStruct(KDF_FIELDS, [Str(k.name), Str(k.salt), Num(k.timeCost), Num(k.memoryCost), Num(k.parallelism), Num(k.hashLen)]);
  }

  lemma BlobJsonRoundTrip(b: EncryptedBlob)
    ensures BlobFromJson(BlobToJson(b)) == Some(b)
  {
    FieldNamesDistinct();
    FieldsOfStruct(BLOB_FIELDS, [Str(b.nonce), Str(b.ciphertext)]);
  }

  lemma FileJsonRoundTrip(f: VaultFile)
    ensures FileFromJson(FileToJson(f)) == Some(f)
  {
    FieldNamesDistinct();
    FieldsOfStruct(FILE_FIELDS, [Num(f.version), KdfToJson(f.kdf), BlobToJson(f.wrappedKey), BlobToJson(f.vault)]);
    KdfJsonRoundTrip(f.kdf);
    BlobJsonRoundTrip(f.wrappedKey);
    BlobJsonRoundTrip(f.vault);
  }

  lemma EntryJsonRoundTrip(e: Entry)
    ensures EntryFromJson(EntryToJson(e)) == Some(e)
  {
    FieldNamesDistinct();
    FieldsOfStruct(ENTRY_FIELDS, [Str(e.id), Str(e.title), Str(e.username), Str(e.password), Str(e.url), Str(e.totp), Str(e.notes)]);
  }

  lemma {:induction false} EntriesJsonRoundTrip(es: seq<Entry>)
    ensures EntriesFromJsons(EntryJsons(es)) == Some(es)
  {
    if es != [] {
      EntryJsonRoundTrip(es[0]);
      EntriesJsonRoundTrip(es[1..]);
      assert EntryJsons(es)[1..] == EntryJsons(es[1..]);
      assert [es[0]] + es[1..] == es;
    }
  }

  /** Reading a payload back gives the entries that were written, in the same order. */
  lemma PayloadRoundTrip(es: seq<Entry>)
    ensures ReadEntries(WriteEntries(es)) == Ok(es)
  {
    ParseBytesOfPrint(Arr(EntryJsons(es)));
    EntriesJsonRoundTrip(es);
  }

  /** A valid file is read back exactly when it fits the read limit. */
  lemma FileRoundTrip(f: VaultFile)
    requires f.Validate().Ok?
    ensures FromBytes(ToBytes(f)) == if |ToBytes(f)| <= MAX_VAULT_FILE_BYTES then Ok(f) else Err(VaultFormat)
  {
    ParseBytesOfPrint(FileToJson(f));
    FileJsonRoundTrip(f);
  }

  // ---- Lifecycle ----

  /** The fields of an unlocked vault. */
  datatype VaultState = VaultState(
    entries: seq<Entry>,
    vaultKey: Bytes,
    wrappedKey: EncryptedBlob,
    kdf: KdfSection,
    version: u32)

  /** The random draws of vault creation, in order. */
  datatype CreateDraws = CreateDraws(salt: Draw, vaultKey: Draw, wrapNonce: Draw, payloadNonce: Draw) {
    predicate Valid() {
      DrawOf(salt, SALT_LEN) && DrawOf(vaultKey, KEY_LEN) && DrawOf(wrapNonce, NONCE_LEN) && DrawOf(payloadNonce, NONCE_LEN)
    }
  }

  /** A new vault up to the wrapping of its key. */
  datatype Birth = Birth(password: Bytes, params: KdfParams, kek: Bytes, vaultKey: Bytes, nonce: Bytes, wrapped: Bytes) {
    function Wrapped(): EncryptedBlob {
      EncryptedBlob.FromRaw(nonce, wrapped)
    }

    function Kdf(): KdfSection {
      KdfSection.FromKdfParams(params)
    }
  }

  function NewBirth(p: Primitives, log: Log, password: Bytes, d: CreateDraws): (Log, Result<Birth>) {
    if password == [] then (log, Err(PasswordTooShort))
    else if d.salt.None? then (log, Err(Error.Crypto))
    else
      var params := DefaultParams(d.salt.value);
      match Kek(p, password, params)
      case Err(e) => (log, Err(e))
      case Ok(kek) =>
        if d.vaultKey.None? then (log, Err(Error.Crypto))
        else
          var (log1, w) := WrapVaultKey(p, log, kek, d.vaultKey.value, d.wrapNonce);
          match w
          case Err(e) => (log1, Err(e))
          case Ok((nonce, ct)) => (log1, Ok(Birth(password, params, kek, d.vaultKey.value, nonce, ct)))
  }

  /** The payload of an empty vault is the literal `[]`. */
  const EMPTY_PAYLOAD: Bytes := [91, 93]

  function New(p: Primitives, log: Log, password: string, d: CreateDraws): (Log, Result<(VaultFile, VaultState)>) {
    var (log1, birth) := NewBirth(p, log, Utf8.Encode(password), d);
    match birth
    case Err(e) => (log1, Err(e))
    case Ok(b) =>
      var (log2, v) := EncryptVault(p, log1, b.vaultKey, EMPTY_PAYLOAD, d.payloadNonce);
      match v
      case Err(e) => (log2, Err(e))
      case Ok((nonce, ct)) =>
        var file := VaultFile(SUPPORTED_VERSION, b.Kdf(), b.Wrapped(), EncryptedBlob.FromRaw(nonce, ct));
        (log2, Ok((file, VaultState([], b.vaultKey, file.wrappedKey, file.kdf, file.version))))
  }

  function Seal(p: Primitives, log: Log, v: VaultState, nonce: Draw): (Log, Result<VaultFile>) {
    var json := WriteEntries(v.entries);
    if |json| > MAX_DECRYPTED_BYTES then (log, Err(VaultFormat))
    else
      var (log', s) := EncryptVault(p, log, v.vaultKey, json, nonce);
      match s
      case Err(e) => (log', Err(e))
      case Ok((n, ct)) => (log', Ok(VaultFile(v.version, v.kdf, v.wrappedKey, EncryptedBlob.FromRaw(n, ct))))
  }

  /** What `unlock` does with a decrypted payload. */
  function OpenPayload(payload: Bytes): Result<seq<Entry>> {
    if |payload| > MAX_DECRYPTED_BYTES then Err(VaultFormat)
    else
      var es :- ReadEntries(payload);
      if ValidList(es) then Ok(es) else Err(InvalidEntry)
  }

  /** The key and the payload behind the two encrypted sections. */
  function OpenSections(log: Log, f: VaultFile, kek: Bytes): Result<(Bytes, Bytes)> {
    var wrapNonce :- f.wrappedKey.DecodeNonce();
    var wrapCt :- f.wrappedKey.DecodeCiphertext();
    var vaultKey :- UnwrapVaultKey(log, kek, wrapNonce, wrapCt);
    var nonce :- f.vault.DecodeNonce();
    var ct :- f.vault.DecodeCiphertext();
    var payload :- DecryptVault(log, vaultKey, nonce, ct);
    Ok((vaultKey, payload))
  }

  function Unlock(p: Primitives, log: Log, f: VaultFile, password: string): Result<VaultState> {
    var _ :- f.Validate();
    var params :- f.kdf.ToKdfParams();
    var kek :- Kek(p, Utf8.Encode(password), params);
    var (vaultKey, payload) :- OpenSections(log, f, kek);
    var es :- OpenPayload(payload);
    Ok(VaultState(es, vaultKey, f.wrappedKey, f.kdf, f.version))
  }

  lemma EmptyPayload()
    ensures WriteEntries([]) == EMPTY_PAYLOAD
  {
    assert Print(Arr(EntryJsons([]))) == "[]";
    assert Utf8.Encode("[]") == [91, 93] by {
      assert "[]"[1..] == "]" && "]"[1..] == "";
    }
  }
}
