/** The exact size of a saved file, and the payload size up to which it can be read back. */
module VaultSize {
  import opened Basics
  import opened Json
  import opened Crypto
  import opened Vault
  import opened VaultTheorems
  import Base64
  import Utf8
  import Hex

  lemma NamesArePlain()
    ensures forall n :: n in FILE_FIELDS ==> PlainText(n)
    ensures forall n :: n in KDF_FIELDS ==> PlainText(n)
    ensures forall n :: n in BLOB_FIELDS ==> PlainText(n)
    ensures forall n :: n in ENTRY_FIELDS ==> PlainText(n)
  {
  }

  lemma Sum2(a: nat, b: nat)
    ensures Sum([a, b]) == a + b
  {
    assert [a, b][1..] == [b];
    assert [b][1..] == [];
    assert Sum([b]) == b;
  }

  lemma Sum4(a: nat, b: nat, c: nat, d: nat)
    ensures Sum([a, b, c, d]) == a + b + c + d
  {
    Sum2(c, d);
    assert [a, b, c, d][1..] == [b, c, d] && [b, c, d][1..] == [c, d];
  }

  lemma Sum6(a: nat, b: nat, c: nat, d: nat, e: nat, f: nat)
    ensures Sum([a, b, c, d, e, f]) == a + b + c + d + e + f
  {
    Sum4(c, d, e, f);
    assert [a, b, c, d, e, f][1..] == [b, c, d, e, f] && [b, c, d, e, f][1..] == [c, d, e, f];
  }

  lemma Sum7(a: nat, b: nat, c: nat, d: nat, e: nat, f: nat, g: nat)
    ensures Sum([a, b, c, d, e, f, g]) == a + b + c + d + e + f + g
  {
    Sum6(b, c, d, e, f, g);
    assert [a, b, c, d, e, f, g][1..] == [b, c, d, e, f, g];
  }

  lemma KdfNames()
    ensures |KDF_FIELDS| == 6 && |KDF_FIELDS[0]| == |KDF_FIELDS[1]| == 4 && |KDF_FIELDS[2]| == 9
    ensures |KDF_FIELDS[3]| == |KDF_FIELDS[4]| == 11 && |KDF_FIELDS[5]| == 8
  {
  }

  lemma FileNames()
    ensures |FILE_FIELDS| == 4 && |FILE_FIELDS[0]| == 7 && |FILE_FIELDS[1]| == 3 && |FILE_FIELDS[2]| == 11 && |FILE_FIELDS[3]| == 5
  {
  }

  lemma EntryNames()
    ensures |ENTRY_FIELDS| == 7 && |ENTRY_FIELDS[0]| == 2 && |ENTRY_FIELDS[1]| == 5 && |ENTRY_FIELDS[2]| == |ENTRY_FIELDS[3]| == 8
    ensures |ENTRY_FIELDS[4]| == 3 && |ENTRY_FIELDS[5]| == 4 && |ENTRY_FIELDS[6]| == 5
  {
  }

  /** The printed length of a struct of four fields, of six, and of seven. */
  lemma FourFields(n: seq<string>, v: seq<Json>)
    requires |n| == |v| == 4 && forall i :: 0 <= i < |n| ==> PlainText(n[i])
    ensures |Print(Struct(n, v))| == 17 + |n[0]| + |n[1]| + |n[2]| + |n[3]| + |Print(v[0])| + |Print(v[1])| + |Print(v[2])| + |Print(v[3])|
  {
    var s := FieldSizes(n, v);
    StructLength(n, v);
    assert s == [s[0], s[1], s[2], s[3]];
    Sum4(s[0], s[1], s[2], s[3]);
  }

  lemma SixFields(n: seq<string>, v: seq<Json>)
    requires |n| == |v| == 6 && forall i :: 0 <= i < |n| ==> PlainText(n[i])
    ensures |Print(Struct(n, v))| == 25 + |n[0]| + |n[1]| + |n[2]| + |n[3]| + |n[4]| + |n[5]|
                                    + |Print(v[0])| + |Print(v[1])| + |Print(v[2])| + |Print(v[3])| + |Print(v[4])| + |Print(v[5])|
  {
    var s := FieldSizes(n, v);
    StructLength(n, v);
    assert s == [s[0], s[1], s[2], s[3], s[4], s[5]];
    Sum6(s[0], s[1], s[2], s[3], s[4], s[5]);
  }

  lemma SevenFields(n: seq<string>, v: seq<Json>)
    requires |n| == |v| == 7 && forall i :: 0 <= i < |n| ==> PlainText(n[i])
    ensures |Print(Struct(n, v))| == 29 + |n[0]| + |n[1]| + |n[2]| + |n[3]| + |n[4]| + |n[5]| + |n[6]|
                                    + |Print(v[0])| + |Print(v[1])| + |Print(v[2])| + |Print(v[3])| + |Print(v[4])| + |Print(v[5])| + |Print(v[6])|
  {
    var s := FieldSizes(n, v);
    StructLength(n, v);
    assert s == [s[0], s[1], s[2], s[3], s[4], s[5], s[6]];
    Sum7(s[0], s[1], s[2], s[3], s[4], s[5], s[6]);
  }

  lemma BlobLength(b: EncryptedBlob)
    requires PlainText(b.nonce) && PlainText(b.ciphertext)
    ensures |Print(BlobToJson(b))| == 28 + |b.nonce| + |b.ciphertext|
  {
    var values := [Str(b.nonce), Str(b.ciphertext)];
    NamesArePlain();
    StructLength(BLOB_FIELDS, values);
    PlainLength(b.nonce);
    PlainLength(b.ciphertext);
    assert FieldSizes(BLOB_FIELDS, values) == [7 + |b.nonce|, 12 + |b.ciphertext|];
    Sum2(7 + |b.nonce|, 12 + |b.ciphertext|);
  }

  lemma KdfLength(k: KdfSection)
    requires PlainText(k.name) && PlainText(k.salt)
    ensures |Print(KdfToJson(k))| == 76 + |k.name| + |k.salt| + |PrintNat(k.timeCost)| + |PrintNat(k.memoryCost)|
                                     + |PrintNat(k.parallelism)| + |PrintNat(k.hashLen)|
  {
    NamesArePlain();
    KdfNames();
    SixFields(KDF_FIELDS, [Str(k.name), Str(k.salt), Num(k.timeCost), Num(k.memoryCost), Num(k.parallelism), Num(k.hashLen)]);
    PlainLength(k.name);
    PlainLength(k.salt);
  }

  lemma AsciiFields(names: seq<string>, values: seq<Json>)
    requires |names| == |values|
    requires forall i :: 0 <= i < |names| ==> Ascii(names[i]) && AsciiValue(values[i])
    ensures AsciiValue(Struct(names, values))
  {
  }

  lemma AsciiBlob(b: EncryptedBlob)
    requires PlainText(b.nonce) && PlainText(b.ciphertext)
    ensures AsciiValue(BlobToJson(b))
  {
    AsciiFields(BLOB_FIELDS, [Str(b.nonce), Str(b.ciphertext)]);
  }

  lemma AsciiKdf(k: KdfSection)
    requires PlainText(k.name) && PlainText(k.salt)
    ensures AsciiValue(KdfToJson(k))
  {
    AsciiFields(KDF_FIELDS, [Str(k.name), Str(k.salt), Num(k.timeCost), Num(k.memoryCost), Num(k.parallelism), Num(k.hashLen)]);
  }

  /** The bytes of a file's JSON that are not the encrypted payload. */
  function HeaderLength(kdf: KdfSection, wrapped: EncryptedBlob): nat {
    176 + |kdf.name| + |kdf.salt|
    + |PrintNat(kdf.timeCost)| + |PrintNat(kdf.memoryCost)| + |PrintNat(kdf.parallelism)| + |PrintNat(kdf.hashLen)|
    + |wrapped.nonce| + |wrapped.ciphertext|
  }

  lemma FileIsAscii(f: VaultFile)
    requires PlainText(f.kdf.name) && PlainText(f.kdf.salt)
    requires PlainText(f.wrappedKey.nonce) && PlainText(f.wrappedKey.ciphertext)
    requires PlainText(f.vault.nonce) && PlainText(f.vault.ciphertext)
    ensures |ToBytes(f)| == |Print(FileToJson(f))|
  {
    AsciiKdf(f.kdf);
    AsciiBlob(f.wrappedKey);
    AsciiBlob(f.vault);
    AsciiFields(FILE_FIELDS, [Num(f.version), KdfToJson(f.kdf), BlobToJson(f.wrappedKey), BlobToJson(f.vault)]);
    AsciiPrint(FileToJson(f));
    Utf8.AsciiLength(Print(FileToJson(f)));
  }

  lemma FileJsonLength(version: u32, k: Json, w: Json, v: Json)
    ensures |Print(Struct(FILE_FIELDS, [Num(version), k, w, v]))| == 43 + |PrintNat(version)| + |Print(k)| + |Print(w)| + |Print(v)|
  {
    NamesArePlain();
    FileNames();
    FourFields(FILE_FIELDS, [Num(version), k, w, v]);
  }

  lemma FileLength(f: VaultFile)
    requires f.version == SUPPORTED_VERSION
    requires PlainText(f.kdf.name) && PlainText(f.kdf.salt)
    requires PlainText(f.wrappedKey.nonce) && PlainText(f.wrappedKey.ciphertext)
    requires PlainText(f.vault.nonce) && PlainText(f.vault.ciphertext)
    ensures |ToBytes(f)| == HeaderLength(f.kdf, f.wrappedKey) + |f.vault.nonce| + |f.vault.ciphertext|
  {
    FileIsAscii(f);
    KdfLength(f.kdf);
    BlobLength(f.wrappedKey);
    BlobLength(f.vault);
    FileJsonLength(f.version, KdfToJson(f.kdf), BlobToJson(f.wrappedKey), BlobToJson(f.vault));
  }

  lemma HeaderIsPlain(kdf: KdfSection, wrapped: EncryptedBlob)
    requires kdf.ToKdfParams().Ok? && wrapped.DecodeNonce().Ok? && wrapped.DecodeCiphertext().Ok?
    ensures PlainText(kdf.name) && PlainText(kdf.salt) && PlainText(wrapped.nonce) && PlainText(wrapped.ciphertext)
  {
    KdfSectionIsCanonical(kdf);
    Base64.EncodedIsPlain(kdf.ToKdfParams().value.salt);
    BlobIsCanonical(wrapped);
    Base64.EncodedIsPlain(wrapped.DecodeNonce().value);
    Base64.EncodedIsPlain(wrapped.DecodeCiphertext().value);
  }

  lemma EncodedTextLength(b: Bytes, t: string)
    requires t == Base64.Encode(b)
    ensures |t| == (|b| + 2) / 3 * 4 && PlainText(t)
  {
    Base64.EncodedLength(b);
    Base64.EncodedIsPlain(b);
  }

  /** The texts of an encrypted section, whatever the lengths of its parts. */
  lemma RawTexts(b: EncryptedBlob, nonce: Bytes, ct: Bytes)
    requires b == EncryptedBlob.FromRaw(nonce, ct)
    ensures |b.nonce| == (|nonce| + 2) / 3 * 4 && |b.ciphertext| == (|ct| + 2) / 3 * 4
    ensures PlainText(b.nonce) && PlainText(b.ciphertext)
  {
    EncodedTextLength(nonce, b.nonce);
    EncodedTextLength(ct, b.ciphertext);
  }

  lemma NonceTextLength(b: EncryptedBlob, nonce: Bytes, ct: Bytes)
    requires b == EncryptedBlob.FromRaw(nonce, ct) && |nonce| == NONCE_LEN
    ensures |b.nonce| == 16 && |b.ciphertext| == (|ct| + 2) / 3 * 4
    ensures PlainText(b.nonce) && PlainText(b.ciphertext)
  {
    RawTexts(b, nonce, ct);
  }

  /** The length of a file by the length of its ciphertext. */
  lemma LengthByCiphertext(f: VaultFile, nonce: Bytes, ct: Bytes)
    requires f.version == SUPPORTED_VERSION
    requires f.kdf.ToKdfParams().Ok? && f.wrappedKey.DecodeNonce().Ok? && f.wrappedKey.DecodeCiphertext().Ok?
    requires f.vault == EncryptedBlob.FromRaw(nonce, ct) && |nonce| == NONCE_LEN
    ensures |ToBytes(f)| == HeaderLength(f.kdf, f.wrappedKey) + 16 + (|ct| + 2) / 3 * 4
  {
    HeaderIsPlain(f.kdf, f.wrappedKey);
    NonceTextLength(f.vault, nonce, ct);
    FileLength(f);
  }

  /**
    * A file sealed from a payload of `n` bytes has the header's length and sixteen characters
    * of nonce, plus four characters for every three bytes of payload and tag.
    */
  lemma SealedFileLength(p: Primitives, log: Log, v: VaultState, nonce: Draw)
    requires Sound(p) && DrawOf(nonce, NONCE_LEN)
    requires v.version == SUPPORTED_VERSION && v.kdf.ToKdfParams().Ok?
    requires v.wrappedKey.DecodeNonce().Ok? && v.wrappedKey.DecodeCiphertext().Ok?
    requires Seal(p, log, v, nonce).1.Ok?
    ensures |ToBytes(Seal(p, log, v, nonce).1.value)|
            == HeaderLength(v.kdf, v.wrappedKey) + 16 + (|WriteEntries(v.entries)| + TAG_LEN + 2) / 3 * 4
  {
    SealedIs(p, log, v, nonce);
    LengthByCiphertext(Seal(p, log, v, nonce).1.value, nonce.value, p.gcm(v.vaultKey, nonce.value, AAD_VAULT, WriteEntries(v.entries)));
  }

  lemma SealedIs(p: Primitives, log: Log, v: VaultState, nonce: Draw)
    requires Seal(p, log, v, nonce).1.Ok?
    ensures nonce.Some? && Seal(p, log, v, nonce).1.value
            == VaultFile(v.version, v.kdf, v.wrappedKey,
                         EncryptedBlob.FromRaw(nonce.value, p.gcm(v.vaultKey, nonce.value, AAD_VAULT, WriteEntries(v.entries))))
  {
  }

  // ---- The readable payloads ----

  /** The largest payload whose file is within the read limit. */
  const MAX_READABLE_PAYLOAD := 50_331_395

  lemma SmallNatLength(n: nat)
    ensures n < 10 ==> |PrintNat(n)| == 1
    ensures 10 <= n < 100 ==> |PrintNat(n)| == 2
    ensures 100 <= n < 1000 ==> |PrintNat(n)| == 3
  {
  }

  lemma MemoryCostLength(n: nat)
    requires ARGON2_MIN_MEMORY_KIB <= n <= ARGON2_MAX_MEMORY_KIB
    ensures 5 <= |PrintNat(n)| <= 7
  {
    SmallNatLength(n / 10 / 10 / 10 / 10);
    assert |PrintNat(n)| == 1 + |PrintNat(n / 10)|;
    assert |PrintNat(n / 10)| == 1 + |PrintNat(n / 10 / 10)|;
    assert |PrintNat(n / 10 / 10)| == 1 + |PrintNat(n / 10 / 10 / 10)|;
    assert |PrintNat(n / 10 / 10 / 10)| == 1 + |PrintNat(n / 10 / 10 / 10 / 10)|;
  }

  lemma CostLengths(params: KdfParams)
    requires params.Validate().Ok?
    ensures 1 <= |PrintNat(params.timeCost)| <= 2 && 5 <= |PrintNat(params.memoryCost)| <= 7
    ensures |PrintNat(params.parallelism)| == 1 && |PrintNat(params.hashLen)| == 2
    ensures |params.salt| == SALT_LEN && |params.name| == 8
  {
    SmallNatLength(params.timeCost);
    SmallNatLength(params.parallelism);
    SmallNatLength(params.hashLen);
    MemoryCostLength(params.memoryCost);
  }

  lemma WrappedCiphertextLength(p: Primitives, log: Log, kek: Bytes, nonce: Bytes, ct: Bytes)
    requires Sound(p) && Genuine(p, log) && UnwrapVaultKey(log, kek, nonce, ct).Ok?
    ensures |ct| == KEY_LEN + TAG_LEN && |nonce| == NONCE_LEN
  {
    assert Box(kek, nonce, AAD_VAULT_KEY, ct) in log;
  }

  lemma KdfTextLengths(params: KdfParams)
    requires params.Validate().Ok?
    ensures var k := KdfSection.FromKdfParams(params); |k.name| == 8 && |k.salt| == 24
  {
    CostLengths(params);
    Base64.EncodedLength(params.salt);
  }

  lemma WrappedTextLengths(nonce: Bytes, ct: Bytes)
    requires |nonce| == NONCE_LEN && |ct| == KEY_LEN + TAG_LEN
    ensures var b := EncryptedBlob.FromRaw(nonce, ct); |b.nonce| == 16 && |b.ciphertext| == 64
  {
    RawTexts(EncryptedBlob.FromRaw(nonce, ct), nonce, ct);
  }

  lemma HeaderLengthFrom(p: Primitives, log: Log, v: VaultState, password: Bytes)
    requires Sound(p) && Genuine(p, log) && Opens(p, log, v, password)
    ensures HeaderLength(v.kdf, v.wrappedKey) == 291 + |PrintNat(v.kdf.timeCost)| + |PrintNat(v.kdf.memoryCost)|
    ensures 1 <= |PrintNat(v.kdf.timeCost)| <= 2 && 5 <= |PrintNat(v.kdf.memoryCost)| <= 7
  {
    var params := v.kdf.ToKdfParams().value;
    var nonce, ct := v.wrappedKey.DecodeNonce().value, v.wrappedKey.DecodeCiphertext().value;
    KdfSectionIsCanonical(v.kdf);
    BlobIsCanonical(v.wrappedKey);
    WrappedCiphertextLength(p, log, Kek(p, password, params).value, nonce, ct);
    KdfTextLengths(params);
    WrappedTextLengths(nonce, ct);
    CostLengths(params);
  }

  /** With the parameters of new vaults a file has 313 bytes besides the encrypted payload. */
  lemma DefaultFileLength(p: Primitives, log: Log, v: VaultState, nonce: Draw, password: Bytes)
    requires Sound(p) && Genuine(p, log) && DrawOf(nonce, NONCE_LEN)
    requires Opens(p, log, v, password) && Seal(p, log, v, nonce).1.Ok?
    requires v.kdf.timeCost == 3 && v.kdf.memoryCost == 65_536
    ensures |ToBytes(Seal(p, log, v, nonce).1.value)| == 313 + (|WriteEntries(v.entries)| + TAG_LEN + 2) / 3 * 4
  {
    SealedFileLength(p, log, v, nonce);
    HeaderLengthFrom(p, log, v, password);
    DefaultCostLengths();
  }

  lemma DefaultCostLengths()
    ensures |PrintNat(3)| == 1 && |PrintNat(65_536)| == 5
  {
    SmallNatLength(3);
    SmallNatLength(655);
    assert |PrintNat(6_553)| == 1 + |PrintNat(655)|;
  }

  /** With every accepted parameter set the header takes from 297 to 300 bytes. */
  lemma HeaderLengthBounds(p: Primitives, log: Log, v: VaultState, password: Bytes)
    requires Sound(p) && Genuine(p, log) && Opens(p, log, v, password)
    ensures 297 <= HeaderLength(v.kdf, v.wrappedKey) <= 300
  {
    HeaderLengthFrom(p, log, v, password);
  }

  lemma Threshold(header: nat, n: nat)
    requires 297 <= header <= 300
    ensures header + 16 + (n + TAG_LEN + 2) / 3 * 4 <= MAX_VAULT_FILE_BYTES <==> n <= MAX_READABLE_PAYLOAD
  {
  }

  lemma FitsExactlyWhen(p: Primitives, log: Log, v: VaultState, nonce: Draw, password: Bytes)
    requires Sound(p) && Genuine(p, log) && DrawOf(nonce, NONCE_LEN)
    requires Opens(p, log, v, password) && Seal(p, log, v, nonce).1.Ok?
    ensures |ToBytes(Seal(p, log, v, nonce).1.value)| <= MAX_VAULT_FILE_BYTES <==> |WriteEntries(v.entries)| <= MAX_READABLE_PAYLOAD
  {
    SealedFileLength(p, log, v, nonce);
    HeaderLengthBounds(p, log, v, password);
    Threshold(HeaderLength(v.kdf, v.wrappedKey), |WriteEntries(v.entries)|);
  }

  /**
    * Whatever the accepted KDF parameters, a saved vault can be read back exactly when its
    * payload has at most `MAX_READABLE_PAYLOAD` bytes.
    */
  lemma ReadableExactlyWhen(p: Primitives, log: Log, v: VaultState, nonce: Draw, password: string)
    requires Sound(p) && Genuine(p, log) && DrawOf(nonce, NONCE_LEN)
    requires Opens(p, log, v, Utf8.Encode(password)) && ValidList(v.entries)
    requires Seal(p, log, v, nonce).1.Ok?
    ensures FromBytes(ToBytes(Seal(p, log, v, nonce).1.value)).Ok? <==> |WriteEntries(v.entries)| <= MAX_READABLE_PAYLOAD
  {
    SealUnlocks(p, log, v, nonce, password);
    FitsExactlyWhen(p, log, v, nonce, Utf8.Encode(password));
    FileRoundTrip(Seal(p, log, v, nonce).1.value);
  }

  // ---- Payloads that can be saved but not read back ----

  function Repeat(c: char, n: nat): (s: string)
    ensures |s| == n && forall i :: 0 <= i < n ==> s[i] == c
  {
    seq(n, i => c)
  }

  /** Entry `i` of a vault of 600 entries; its JSON has 83885 bytes. */
  function BulkyEntry(i: nat): Entry
    requires i < 600
  {
    Entry(Hex.Of([i / 256, i % 256]), "", Repeat('u', 1883), Repeat('p', MAX_PASSWORD_BYTES), "", "", Repeat('n', MAX_NOTES_BYTES))
  }

  function BulkyEntries(n: nat): (es: seq<Entry>)
    requires n <= 600
    ensures |es| == n
    ensures forall i :: 0 <= i < n ==> es[i] == BulkyEntry(i)
  {
    seq(n, i requires 0 <= i < n => BulkyEntry(i))
  }

  lemma EntrySizes(v: seq<Json>)
    requires |v| == 7
    ensures |Print(Struct(ENTRY_FIELDS, v))| == 64 + |Print(v[0])| + |Print(v[1])| + |Print(v[2])| + |Print(v[3])|
                                                + |Print(v[4])| + |Print(v[5])| + |Print(v[6])|
  {
    NamesArePlain();
    EntryNames();
    SevenFields(ENTRY_FIELDS, v);
  }

  lemma BulkyEntryLength(i: nat)
    requires i < 600
    ensures |Print(EntryToJson(BulkyEntry(i)))| == 83_885
  {
    var e := BulkyEntry(i);
    HexIsPlain([i / 256, i % 256]);
    PlainLength(e.id);
    PlainLength("");
    PlainLength(e.username);
    PlainLength(e.password);
    PlainLength(e.notes);
    EntrySizes([Str(e.id), Str(e.title), Str(e.username), Str(e.password), Str(e.url), Str(e.totp), Str(e.notes)]);
  }

  lemma BulkyEntryIsAscii(i: nat)
    requires i < 600
    ensures AsciiValue(EntryToJson(BulkyEntry(i)))
  {
    var e := BulkyEntry(i);
    HexIsPlain([i / 256, i % 256]);
    AsciiFields(ENTRY_FIELDS, [Str(e.id), Str(e.title), Str(e.username), Str(e.password), Str(e.url), Str(e.totp), Str(e.notes)]);
  }

  lemma BulkyEntryIsValid(i: nat)
    requires i < 600
    ensures ValidateEntry(BulkyEntry(i)).Ok?
  {
    var e := BulkyEntry(i);
    Hex.OfIsHex([i / 256, i % 256]);
    Utf8.AsciiLength(e.id);
    Utf8.AsciiLength(e.username);
    Utf8.AsciiLength(e.password);
    Utf8.AsciiLength(e.notes);
  }

  lemma {:induction false} HexIsPlain(b: Bytes)
    ensures PlainText(Hex.Of(b))
  {
    if b != [] {
      HexIsPlain(b[1..]);
    }
  }

  lemma {:induction false} EqualItems(items: seq<Json>)
    requires forall i :: 0 <= i < |items| ==> |Print(items[i])| == 83_885
    ensures ItemsLength(items) == |items| * 83_886
  {
    if items != [] {
      EqualItems(items[1..]);
    }
  }

  lemma BulkyVaultIsValid()
    ensures ValidList(BulkyEntries(600))
  {
    var es := BulkyEntries(600);
    forall i | 0 <= i < 600 ensures ValidateEntry(es[i]).Ok? {
      BulkyEntryIsValid(i);
    }
    forall i, j | 0 <= i < j < 600 ensures Ids(es)[i] != Ids(es)[j] {
      if Hex.Of([i / 256, i % 256]) == Hex.Of([j / 256, j % 256]) {
        Hex.OfInjective([i / 256, i % 256], [j / 256, j % 256]);
      }
    }
  }

  lemma BulkyPayloadOf(n: nat)
    requires 0 < n <= 600
    ensures |WriteEntries(BulkyEntries(n))| == n * 83_886 + 1
  {
    var items := EntryJsons(BulkyEntries(n));
    forall i | 0 <= i < n ensures |Print(items[i])| == 83_885 && AsciiValue(items[i]) {
      BulkyEntryLength(i);
      BulkyEntryIsAscii(i);
    }
    EqualItems(items);
    PrintedItems(items);
    AsciiPrint(Arr(items));
    Utf8.AsciiLength(Print(Arr(items)));
  }

  /** Six hundred long entries make a payload that `seal` accepts and whose file nothing can read. */
  lemma BulkyPayload()
    ensures |WriteEntries(BulkyEntries(600))| == 50_331_601
    ensures MAX_READABLE_PAYLOAD < 50_331_601 <= MAX_DECRYPTED_BYTES
  {
    BulkyPayloadOf(600);
  }

  /**
    * The limit of `seal` lies above the limit of the reader: this vault is saved without an
    * error and its file is refused from then on.
    */
  lemma SavedButUnreadable(p: Primitives, log: Log, v: VaultState, nonce: Bytes, password: string)
    requires Sound(p) && Genuine(p, log) && |nonce| == NONCE_LEN
    requires Opens(p, log, v, Utf8.Encode(password)) && v.entries == BulkyEntries(600)
    ensures var r := Seal(p, log, v, Some(nonce)).1;
            r.Ok? && FromBytes(ToBytes(r.value)) == Err(VaultFormat)
  {
    BulkyVaultIsValid();
    BulkyPayload();
    ReadableExactlyWhen(p, log, v, Some(nonce), password);
    SaveReopen(p, log, v, Some(nonce), password);
  }
}
