/**
  * What the readers of the vault format accept, in terms of the format: field names, sizes,
  * versions and bounds are written out, and nothing refers to how the readers check them.
  */
module Acceptance {
  import opened Basics
  import opened Json
  import opened JsonGrammar
  import opened Crypto
  import opened Vault
  import opened VaultTheorems
  import Base64
  import Utf8

  // ---- Parameters and sections ----

  ghost predicate IsText(text: string, bytes: Bytes) {
    text == Base64.Encode(bytes)
  }

  /** The costs that a file may ask for. */
  predicate FairCosts(timeCost: nat, memoryCost: nat, parallelism: nat, hashLen: nat) {
    1 <= timeCost <= 16 && 19_456 <= memoryCost <= 1_048_576 && 1 <= parallelism <= 4 && hashLen == 32
  }

  /** A key-derivation section is accepted exactly with the one algorithm, a salt of sixteen bytes and costs within the bounds. */
  lemma KdfIsAcceptedExactlyWhen(k: KdfSection)
    ensures k.ToKdfParams().Ok? <==>
              && k.name == "argon2id"
              && (exists salt :: IsText(k.salt, salt) && |salt| == 16)
              && FairCosts(k.timeCost, k.memoryCost, k.parallelism, k.hashLen)
    ensures k.ToKdfParams().Ok? ==>
              var r := k.ToKdfParams().value;
              && IsText(k.salt, r.salt) && r.name == k.name
              && (r.timeCost, r.memoryCost, r.parallelism, r.hashLen) == (k.timeCost, k.memoryCost, k.parallelism, k.hashLen)
    ensures k.ToKdfParams().Err? ==>
              k.ToKdfParams().error
              == if k.name == "argon2id" && !exists salt :: IsText(k.salt, salt) then InvalidEncoding else InvalidKdfParameters
  {
    TextDecodes(k.salt);
  }

  /** A text is one of some bytes exactly if it decodes, and then to them. */
  lemma TextDecodes(text: string)
    ensures Base64.Decode(text).Some? ==> IsText(text, Base64.Decode(text).value)
    ensures forall bytes :: IsText(text, bytes) ==> Base64.Decode(text) == Some(bytes)
  {
    if Base64.Decode(text).Some? {
      Base64.EncodeOfDecode(text);
    }
    forall bytes | IsText(text, bytes) ensures Base64.Decode(text) == Some(bytes) {
      Base64.DecodeOfEncode(bytes);
    }
  }

  /** A nonce of twelve bytes and a ciphertext that has room for the tag. */
  ghost predicate GoodBlob(b: EncryptedBlob) {
    && (exists nonce :: IsText(b.nonce, nonce) && |nonce| == 12)
    && (exists ct :: IsText(b.ciphertext, ct) && |ct| >= 16)
  }

  lemma BlobIsAcceptedExactlyWhen(b: EncryptedBlob)
    ensures b.DecodeNonce().Ok? && b.DecodeCiphertext().Ok? <==> GoodBlob(b)
    ensures b.DecodeNonce().Ok? ==> IsText(b.nonce, b.DecodeNonce().value)
    ensures b.DecodeCiphertext().Ok? ==> IsText(b.ciphertext, b.DecodeCiphertext().value)
    ensures b.DecodeNonce().Err? ==> b.DecodeNonce().error == InvalidEncoding
    ensures b.DecodeCiphertext().Err? ==> b.DecodeCiphertext().error == InvalidEncoding
  {
    TextDecodes(b.nonce);
    TextDecodes(b.ciphertext);
  }

  /** What a file has to satisfy. */
  ghost predicate GoodFile(f: VaultFile) {
    && f.version == 1
    && f.kdf.name == "argon2id"
    && (exists salt :: IsText(f.kdf.salt, salt) && |salt| == 16)
    && FairCosts(f.kdf.timeCost, f.kdf.memoryCost, f.kdf.parallelism, f.kdf.hashLen)
    && GoodBlob(f.wrappedKey)
    && GoodBlob(f.vault)
  }

  /** Validation accepts exactly the good files; the version is checked first, then the parameters, then the encodings. */
  lemma FileIsAcceptedExactlyWhen(f: VaultFile)
    ensures f.Validate().Ok? <==> GoodFile(f)
    ensures f.version != 1 ==> f.Validate() == Err(UnsupportedVersion)
    ensures f.version == 1 && f.kdf.ToKdfParams().Err? ==> f.Validate() == Err(f.kdf.ToKdfParams().error)
    ensures f.version == 1 && f.kdf.ToKdfParams().Ok? && !(GoodBlob(f.wrappedKey) && GoodBlob(f.vault)) ==> f.Validate() == Err(InvalidEncoding)
  {
    KdfIsAcceptedExactlyWhen(f.kdf);
    BlobIsAcceptedExactlyWhen(f.wrappedKey);
    BlobIsAcceptedExactlyWhen(f.vault);
  }

  // ---- Field names ----

  /** An object is read as an entry exactly if it has the seven fields with its values and no other, in any order; the entry is written in the order of declaration. */
  lemma EntryIsReadExactlyFrom(members: seq<Member>, e: Entry)
    ensures EntryFromJson(Obj(members)) == Some(e) <==>
              && |members| == 7
              && Member("id", Str(e.id)) in members
              && Member("title", Str(e.title)) in members
              && Member("username", Str(e.username)) in members
              && Member("password", Str(e.password)) in members
              && Member("url", Str(e.url)) in members
              && Member("totp", Str(e.totp)) in members
              && Member("notes", Str(e.notes)) in members
    ensures EntryToJson(e) == Obj([
              Member("id", Str(e.id)), Member("title", Str(e.title)), Member("username", Str(e.username)),
              Member("password", Str(e.password)), Member("url", Str(e.url)), Member("totp", Str(e.totp)),
              Member("notes", Str(e.notes))])
  {
    var values := [Str(e.id), Str(e.title), Str(e.username), Str(e.password), Str(e.url), Str(e.totp), Str(e.notes)];
    FieldNamesDistinct();
    FieldsOfObject(members, ENTRY_FIELDS, values);
    EntryFields(members, e, values);
  }

  lemma EntryFields(members: seq<Member>, e: Entry, values: seq<Json>)
    requires values == [Str(e.id), Str(e.title), Str(e.username), Str(e.password), Str(e.url), Str(e.totp), Str(e.notes)]
    ensures EntryFromJson(Obj(members)) == Some(e) <==> Fields(Obj(members), ENTRY_FIELDS) == Some(values)
  {
    if EntryFromJson(Obj(members)) == Some(e) {
      var f := Fields(Obj(members), ENTRY_FIELDS).value;
      assert f[0] == values[0] && f[1] == values[1] && f[2] == values[2] && f[3] == values[3];
      assert f[4] == values[4] && f[5] == values[5] && f[6] == values[6];
      assert f == values;
    }
  }

  lemma KdfIsReadExactlyFrom(members: seq<Member>, k: KdfSection)
    ensures KdfFromJson(Obj(members)) == Some(k) <==>
              && |members| == 6
              && Member("name", Str(k.name)) in members
              && Member("salt", Str(k.salt)) in members
              && Member("time_cost", Num(k.timeCost)) in members
              && Member("memory_cost", Num(k.memoryCost)) in members
              && Member("parallelism", Num(k.parallelism)) in members
              && Member("hash_len", Num(k.hashLen)) in members
    ensures KdfToJson(k) == Obj([
              Member("name", Str(k.name)), Member("salt", Str(k.salt)), Member("time_cost", Num(k.timeCost)),
              Member("memory_cost", Num(k.memoryCost)), Member("parallelism", Num(k.parallelism)),
              Member("hash_len", Num(k.hashLen))])
  {
    var values := [Str(k.name), Str(k.salt), Num(k.timeCost), Num(k.memoryCost), Num(k.parallelism), Num(k.hashLen)];
    FieldNamesDistinct();
    FieldsOfObject(members, KDF_FIELDS, values);
    KdfFields(members, k, values);
  }

  lemma KdfFields(members: seq<Member>, k: KdfSection, values: seq<Json>)
    requires values == [Str(k.name), Str(k.salt), Num(k.timeCost), Num(k.memoryCost), Num(k.parallelism), Num(k.hashLen)]
    ensures KdfFromJson(Obj(members)) == Some(k) <==> Fields(Obj(members), KDF_FIELDS) == Some(values)
  {
    if KdfFromJson(Obj(members)) == Some(k) {
      var f := Fields(Obj(members), KDF_FIELDS).value;
      assert f[0] == values[0] && f[1] == values[1] && f[2] == values[2];
      assert f[3] == values[3] && f[4] == values[4] && f[5] == values[5];
      assert f == values;
    }
  }

  lemma BlobIsReadExactlyFrom(members: seq<Member>, b: EncryptedBlob)
    ensures BlobFromJson(Obj(members)) == Some(b) <==>
              && |members| == 2
              && Member("nonce", Str(b.nonce)) in members
              && Member("ciphertext", Str(b.ciphertext)) in members
    ensures BlobToJson(b) == Obj([Member("nonce", Str(b.nonce)), Member("ciphertext", Str(b.ciphertext))])
  {
    var values := [Str(b.nonce), Str(b.ciphertext)];
    FieldNamesDistinct();
    FieldsOfObject(members, BLOB_FIELDS, values);
    if BlobFromJson(Obj(members)) == Some(b) {
      var f := Fields(Obj(members), BLOB_FIELDS).value;
      assert f[0] == values[0] && f[1] == values[1];
      assert f == values;
    }
  }

  /** The members of a file object and what they are read as. */
  ghost predicate FileMembers(members: seq<Member>, f: VaultFile, kdf: Json, wrapped: Json, vault: Json) {
    && Member("version", Num(f.version)) in members
    && Member("kdf", kdf) in members && KdfFromJson(kdf) == Some(f.kdf)
    && Member("wrapped_key", wrapped) in members && BlobFromJson(wrapped) == Some(f.wrappedKey)
    && Member("vault", vault) in members && BlobFromJson(vault) == Some(f.vault)
  }

  lemma FileIsReadExactlyFrom(members: seq<Member>, f: VaultFile)
    ensures FileFromJson(Obj(members)) == Some(f) <==>
              |members| == 4 && exists kdf, wrapped, vault :: FileMembers(members, f, kdf, wrapped, vault)
    ensures FileToJson(f) == Obj([
              Member("version", Num(f.version)), Member("kdf", KdfToJson(f.kdf)),
              Member("wrapped_key", BlobToJson(f.wrappedKey)), Member("vault", BlobToJson(f.vault))])
  {
    if |members| == 4 && exists kdf, wrapped, vault :: FileMembers(members, f, kdf, wrapped, vault) {
      var kdf, wrapped, vault :| FileMembers(members, f, kdf, wrapped, vault);
      FileOfMembers(members, f, kdf, wrapped, vault);
    }
    if FileFromJson(Obj(members)) == Some(f) {
      MembersOfFile(members, f);
    }
  }

  lemma FileOfMembers(members: seq<Member>, f: VaultFile, kdf: Json, wrapped: Json, vault: Json)
    requires |members| == 4 && FileMembers(members, f, kdf, wrapped, vault)
    ensures FileFromJson(Obj(members)) == Some(f)
  {
    FieldNamesDistinct();
    FieldsOfObject(members, FILE_FIELDS, [Num(f.version), kdf, wrapped, vault]);
  }

  lemma MembersOfFile(members: seq<Member>, f: VaultFile)
    requires FileFromJson(Obj(members)) == Some(f)
    ensures |members| == 4 && exists kdf, wrapped, vault :: FileMembers(members, f, kdf, wrapped, vault)
  {
    var v := Fields(Obj(members), FILE_FIELDS).value;
    FieldNamesDistinct();
    FieldsOfObject(members, FILE_FIELDS, v);
    assert v[0] == Num(f.version);
    assert Member(FILE_FIELDS[0], v[0]) in members && Member(FILE_FIELDS[1], v[1]) in members;
    assert Member(FILE_FIELDS[2], v[2]) in members && Member(FILE_FIELDS[3], v[3]) in members;
    assert FileMembers(members, f, v[1], v[2], v[3]);
  }

  /** Each of the four is also read from an array of its values in the order of declaration, and never from a text or a number. */
  lemma ArraysAreReadInOrder(items: seq<Json>, e: Entry, k: KdfSection, b: EncryptedBlob, f: VaultFile)
    ensures EntryFromJson(Arr(items)) == Some(e) <==>
              items == [Str(e.id), Str(e.title), Str(e.username), Str(e.password), Str(e.url), Str(e.totp), Str(e.notes)]
    ensures KdfFromJson(Arr(items)) == Some(k) <==>
              items == [Str(k.name), Str(k.salt), Num(k.timeCost), Num(k.memoryCost), Num(k.parallelism), Num(k.hashLen)]
    ensures BlobFromJson(Arr(items)) == Some(b) <==> items == [Str(b.nonce), Str(b.ciphertext)]
    ensures FileFromJson(Arr(items)) == Some(f) <==>
              && |items| == 4 && items[0] == Num(f.version) && KdfFromJson(items[1]) == Some(f.kdf)
              && BlobFromJson(items[2]) == Some(f.wrappedKey) && BlobFromJson(items[3]) == Some(f.vault)
    ensures forall j: Json :: j.Str? || j.Num? ==> EntryFromJson(j) == None && KdfFromJson(j) == None && BlobFromJson(j) == None && FileFromJson(j) == None
  {
    EntryArray(items, e);
    KdfArray(items, k);
    BlobArray(items, b);
  }

  lemma EntryArray(items: seq<Json>, e: Entry)
    ensures EntryFromJson(Arr(items)) == Some(e) <==>
              items == [Str(e.id), Str(e.title), Str(e.username), Str(e.password), Str(e.url), Str(e.totp), Str(e.notes)]
  {
  }

  lemma KdfArray(items: seq<Json>, k: KdfSection)
    ensures KdfFromJson(Arr(items)) == Some(k) <==>
              items == [Str(k.name), Str(k.salt), Num(k.timeCost), Num(k.memoryCost), Num(k.parallelism), Num(k.hashLen)]
  {
  }

  lemma BlobArray(items: seq<Json>, b: EncryptedBlob)
    ensures BlobFromJson(Arr(items)) == Some(b) <==> items == [Str(b.nonce), Str(b.ciphertext)]
  {
  }

  // ---- Whole documents ----

  /** The bytes are the UTF-8 form of a document with this value. */
  ghost predicate IsDocument(bytes: Bytes, text: string, j: Json) {
    bytes == Utf8.Encode(text) && DocumentOf(text, j)
  }

  lemma DocumentIsParsed(bytes: Bytes, j: Json)
    ensures ParseBytes(bytes) == Some(j) <==> exists text :: IsDocument(bytes, text, j)
  {
    if ParseBytes(bytes) == Some(j) {
      Utf8.EncodeOfDecode(bytes);
      ParsesExactlyDocuments(Utf8.Decode(bytes).value, j);
      assert IsDocument(bytes, Utf8.Decode(bytes).value, j);
    }
    if text :| IsDocument(bytes, text, j) {
      ParsesExactlyDocuments(text, j);
      Utf8.DecodeOfEncode(text);
    }
  }

  ghost predicate HoldsFile(bytes: Bytes, text: string, j: Json, f: VaultFile) {
    IsDocument(bytes, text, j) && FileFromJson(j) == Some(f)
  }

  /**
    * Bytes are accepted as a file exactly if there are at most 64 MiB of them and they are a
    * document of a good file. Anything that is no document of a file is `VaultFormat`; a file
    * that is not good has the error of its validation.
    */
  lemma BytesAreAcceptedExactlyWhen(bytes: Bytes, f: VaultFile)
    ensures FromBytes(bytes) == Ok(f) <==> 1 <= |bytes| <= 67_108_864 && GoodFile(f) && exists text, j :: HoldsFile(bytes, text, j, f)
    ensures (|bytes| > 67_108_864 || |bytes| == 0 || forall text, j, g :: !HoldsFile(bytes, text, j, g)) ==> FromBytes(bytes) == Err(VaultFormat)
    ensures 1 <= |bytes| <= 67_108_864 && !GoodFile(f) && (exists text, j :: HoldsFile(bytes, text, j, f)) ==>
              f.Validate().Err? && FromBytes(bytes) == Err(f.Validate().error)
  {
    FileIsAcceptedExactlyWhen(f);
    if 1 <= |bytes| <= 67_108_864 {
      if text, j :| HoldsFile(bytes, text, j, f) {
        HeldFileIsRead(bytes, text, j, f);
      }
      ReadFileIsHeld(bytes);
    }
  }

  lemma HeldFileIsRead(bytes: Bytes, text: string, j: Json, f: VaultFile)
    requires 1 <= |bytes| <= 67_108_864 && HoldsFile(bytes, text, j, f)
    ensures FromBytes(bytes) == if f.Validate().Ok? then Ok(f) else Err(f.Validate().error)
  {
    DocumentIsParsed(bytes, j);
  }

  lemma ReadFileIsHeld(bytes: Bytes)
    requires 1 <= |bytes| <= 67_108_864
    ensures FromBytes(bytes) == Err(VaultFormat)
            || exists text, j, f :: HoldsFile(bytes, text, j, f) && (FromBytes(bytes).Ok? ==> FromBytes(bytes).value == f)
  {
    if ParseBytes(bytes).Some? && FileFromJson(ParseBytes(bytes).value).Some? {
      var j := ParseBytes(bytes).value;
      DocumentIsParsed(bytes, j);
      var text :| IsDocument(bytes, text, j);
      assert HoldsFile(bytes, text, j, FileFromJson(j).value);
    }
  }

  /** The bytes are a document of an array whose items are read as the entries, in order. */
  ghost predicate HoldsEntries(bytes: Bytes, text: string, items: seq<Json>, es: seq<Entry>) {
    && IsDocument(bytes, text, Arr(items))
    && |items| == |es|
    && forall i :: 0 <= i < |es| ==> EntryFromJson(items[i]) == Some(es[i])
  }

  lemma {:induction false} ItemsAreRead(items: seq<Json>, es: seq<Entry>)
    ensures EntriesFromJsons(items) == Some(es) <==>
              |items| == |es| && forall i :: 0 <= i < |es| ==> EntryFromJson(items[i]) == Some(es[i])
  {
    if items != [] && es != [] {
      ItemsAreRead(items[1..], es[1..]);
      assert es == [es[0]] + es[1..];
    }
  }

  /** A payload opens to a list exactly if it has at most 48 MiB, is a document of that list, and the list is acceptable. */
  lemma PayloadIsAcceptedExactlyWhen(payload: Bytes, es: seq<Entry>)
    ensures OpenPayload(payload) == Ok(es) <==>
              |payload| <= 50_331_648 && AcceptableList(es) && exists text, items :: HoldsEntries(payload, text, items, es)
    ensures |payload| > 50_331_648 ==> OpenPayload(payload) == Err(VaultFormat)
    ensures |payload| <= 50_331_648 && OpenPayload(payload).Err? ==> OpenPayload(payload).error == InvalidEntry
  {
    PayloadIsRead(payload, es);
    ListIsAcceptedExactlyWhen(es);
  }

  lemma PayloadIsRead(payload: Bytes, es: seq<Entry>)
    ensures ReadEntries(payload) == Ok(es) <==> exists text, items :: HoldsEntries(payload, text, items, es)
    ensures ReadEntries(payload).Err? ==> ReadEntries(payload).error == InvalidEntry
  {
    if text, items :| HoldsEntries(payload, text, items, es) {
      DocumentIsParsed(payload, Arr(items));
      ItemsAreRead(items, es);
    }
    if ReadEntries(payload) == Ok(es) {
      var items := ParseBytes(payload).value.items;
      DocumentIsParsed(payload, Arr(items));
      ItemsAreRead(items, es);
      var text :| IsDocument(payload, text, Arr(items));
      assert HoldsEntries(payload, text, items, es);
    }
  }
}
