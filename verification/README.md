# A verified model of offline-vault

offline-vault keeps a list of entries in one encrypted file. This project models its life in
memory and on disk, and proves what the parts promise together: what is stored after any run of
the application, what a later unlock returns, what a power loss can leave, who can open which
file, when the vault locks, when the clipboard is cleared, and that the password generator is
exactly uniform.

`dafny verify dfyconfig.toml` checks the whole project.

## How it is modelled

- **Bytes and text.** Base64 (section 4 of RFC 4648, strict as in section 3.5), UTF-8, hexadecimal
  and a compact JSON printer with a tolerant parser (strings as in section 7 of RFC 8259) are
  written out (`Base64`, `Utf8`, `Hex`, `Json`). The bytes of a vault file are therefore concrete,
  and so are its length limits.
- **What is accepted and what is answered.** `JsonGrammar` states the grammar of RFC 8259 as a
  relation, and the parser is proved to accept exactly its documents. `Acceptance`, `Keys` and
  `Calls` say what the readers, the key hierarchy and each call of the application do in terms of
  inputs and states alone: fields, limits, events, times and errors are written out, so these
  theorems do not depend on the functions that compute them.
- **Cryptography.** Argon2id, HKDF-SHA256 and AES-256-GCM are function parameters (`Crypto`).
  AES-256-GCM is ideal: a history records every encryption under its key, nonce, associated data
  and ciphertext, and decryption is a lookup in it. `Sound` collects what is asked of the
  primitives: output lengths, and that a ciphertext determines its message. Nothing is assumed
  about collisions of the KDF; where one would matter the theorem names it.
- **Randomness, clocks and failures** are inputs of each call: every draw may fail, every file
  operation may fail, a failing write leaves any prefix, the clipboard may refuse.
- **State.** `UnlockedVaults.UnlockedVault`, `Storage.FileSystem`, `Clipboard.ClipboardGuard`,
  `AutoLock.AutoLock` and `Apps.App` are classes whose methods change their fields as the source
  does. Each method is proved equal to a function on its abstract state, and the theorems about
  runs are about those functions.
- **Files and power.** A file system has a volatile directory, the directories a power loss may
  bring back, and for each file whether its bytes are synced (`Storage`). `AtomicReplace` splits
  one replacement of the file into its system calls and interleaves any number of them.
- **Runs.** `Runs` is any sequence of calls of the application, including restarts and writes of
  other programs to the clipboard. Its ledger records what the calls reported. `Fair` says what is
  asked of the environment: draws have the requested length, a temporary name is not the vault's
  own, and the nonce that wraps a new key has not wrapped another. Every call to the storage may
  fail. `Success` says exactly when calls succeed, `Witnesses` that runs exist, and `RunTheorems`,
  `TimedRuns` and `PowerLoss` say what holds after all of them. The theorems start from any state
  of the invariant; a first launch is one, and so is a start after a power loss, whether power went
  after a call or at any step of one that was about to save (`PowerLoss.RunsGoOn`). They therefore
  hold through any number of power losses.

## Findings

Places where the code does not do what its documentation or its own limits suggest. Each is
proved for all inputs together with the exact condition.

- `seal` accepts payloads of up to 48 MiB, but a file is readable only up to 64 MiB, which is a
  payload of at most 50331395 bytes, whatever the accepted KDF parameters
  (`VaultSize.ReadableExactlyWhen`). A run of one creation and 600 additions, none of which reports
  a failure, ends with a vault that opens with no password once it is closed
  (`Witnesses.SavedVaultIsLockedOut`), and it stays so unless a creation overwrites it
  (`RunTheorems.ShutForGood`); while it is still open, removing entries and saving rescues it.
- Memory and disk agree throughout a run if and only if no entry operation changes the list and
  cannot save it; whether it can is known before the call
  (`RunTheorems.MemoryAgreesExactlyWhen`). Such a change stays in memory although the call fails,
  and locking loses it, whether it was an addition, an update or a removal
  (`RunTheorems.FailedSaveIsForgotten`). `Witnesses.ChangeStaysInMemoryOnly` is a run of a creation
  and an addition whose rename fails.
- "Refuses to overwrite an existing vault" (`src/app.rs:153-155`) depends on looking at the file:
  a failed look counts as absence, and then creation replaces the old vault, if and only if nothing
  else fails (`RunTheorems.CreateOverwritesExactlyWhen`). The header of the file and what the
  creation password opens are kept exactly until that happens (`RunTheorems.HeaderIsForever`,
  `RunTheorems.CreationPasswordOpens`). `Witnesses.StoredVaultIsReplaced` is a run of four calls
  without a reported failure in which a stored entry is lost this way. A restart that cannot look at
  the file hides a vault without losing it (`RunTheorems.HiddenExactlyWhen`).
- When the random source fails, a temporary name falls back to zeros, and a call that cannot
  create its temporary file removes whatever has that name. The file stays whole under every
  interleaving if and only if at most two calls share a name that is free at the start, and at most
  three one that is taken (`AtomicReplace.IntactExactlyWhen`).
- Success of a replacement means renamed, not durable: a failure to sync the directory is
  ignored, and exactly then a power loss may bring back an earlier file
  (`AtomicReplace.DurabilityOfSuccess`, over runs `PowerLoss.PowerLossLeavesExactly`).
  `Witnesses.OlderFileComesBack` is a run of a creation and an addition that both succeed, after
  which a power loss may leave the file without the entry.
- "Copied passwords are cleared from the clipboard after 20 seconds" (`README.md:43`): a copy wipes
  the retained secret before it sets the text, and keeps the old deadline if that fails
  (`src/clipboard.rs:131-143`). After a refused copy the due poll finds the password copied before,
  does not recognise it, leaves it and forgets it. A value that is still there and readable is
  cleared if and only if no copy is refused in between, apart from values that wiping leaves as
  they are (`TimedRuns.CopiedValueIsClearedExactlyWhen`); `Witnesses.CopiedPasswordCanStay` is a
  run in which it stays.
- `ClipboardGuard::cancel` is documented as called on lock, but the application never calls it:
  a pending clear survives locking and happens on schedule (`TimedRuns.ClipboardSchedule`).
- `SecureBuffer::wipe` is documented as keeping its length, while wiping a vector also empties
  it. The model takes either, by a flag, and what is proved of a wiped secret (every remaining byte
  is zero) holds both ways.

## Model

| member | source | states |
|---|---|---|
| Base64.DecodeOfEncode | src/vault.rs:112-117 | decoding inverts encoding on every byte string |
| Base64.EncodeOfDecode | src/vault.rs:92-110 | every accepted string is the canonical encoding of what it decodes to: padding and trailing zero bits are enforced |
| Base64.DecodedLength | src/vault.rs:102-110 | three bytes are never produced from fewer than four characters |
| Base64.SymbolIs | src/vault.rs:112-117 | the symbols are the standard alphabet of RFC 4648 |
| Base64.TextIsTheNumber | src/vault.rs:112-117 | the symbols are, in base 64, the number that the bytes are in base 256: bit order and grouping are those of the standard |
| Base64.PaddingIs | src/vault.rs:112-117 | one equals sign at the end for each byte missing to a group of three, and no other |
| Utf8.DecodeOfEncode | src/vault.rs:358-374 | decoding inverts encoding on every text |
| Utf8.EncodeOfDecode | src/vault.rs:154-165 | only canonical bytes are accepted: no overlong forms, no surrogates |
| Utf8.CharIsWritten | src/vault.rs:271-286 | the length of a character by its range, and its bits, as in RFC 3629: what the byte limits count |
| Json.ParseOfPrint | src/vault.rs:154-165 | parsing inverts printing on every JSON value of the two schemas |
| Json.EscapesAre | src/vault.rs:163-165 | the escapes the printer writes, character by character |
| Json.FieldsOfObject | src/vault.rs:29-53 | an object is read as a struct exactly if each field is a member and there is no other member, in any order |
| JsonGrammar.ParsesExactlyDocuments | src/vault.rs:154-165 | the parser accepts a text with a value if and only if the grammar derives it: blanks, escapes, surrogate pairs, numbers, arrays and objects |
| Vault.KdfParamsRoundTrip | src/vault.rs:57-88 | `to_kdf_params` of `from_kdf_params` is the identity on valid parameters |
| Vault.KdfSectionIsCanonical | src/vault.rs:57-88 | `from_kdf_params` of `to_kdf_params` is the identity on accepted sections |
| Vault.BlobRoundTrip | src/vault.rs:91-118 | the two decoders invert `from_raw` on nonces of 12 bytes and ciphertexts of at least 16 |
| Vault.BlobIsCanonical | src/vault.rs:91-118 | `from_raw` inverts the decoders on accepted sections |
| Vault.EntryIsAcceptedExactlyWhen | src/vault.rs:271-288 | an entry is accepted if and only if its id has 1 to 128 hexadecimal digits and the six other fields have at most 1024, 4096, 16384, 4096, 1024 and 65536 bytes of UTF-8 |
| Vault.ListIsAcceptedExactlyWhen | src/vault.rs:290-302 | a list is valid if and only if it has at most 100000 acceptable entries with pairwise distinct ids |
| Vault.ValidateEntries | src/vault.rs:290-302 | the single pass with the set of seen ids accepts exactly the lists of at most 100000 acceptable entries with pairwise distinct ids |
| Vault.NewId | src/vault.rs:261-269 | the id is the hexadecimal form of the sixteen drawn bytes, or the error of the draw |
| Hex.OfIsLowerCase | src/vault.rs:261-269 | the hexadecimal form has two lower-case digits for every byte, the high one first |
| Vault.NewIdIsValid | src/vault.rs:224-245 | an entry that is valid with some id is valid with a generated one |
| Vault.EmptyPayload | src/vault.rs:133-134 | the literal payload of a new vault is what sealing an empty list writes |
| Vault.PayloadRoundTrip | src/vault.rs:358-374 | reading a written payload gives the same entries in the same order |
| Vault.FileRoundTrip | src/vault.rs:154-177 | a valid file is read back from its bytes exactly when they are within the limit, and refused otherwise |
| Acceptance.KdfIsAcceptedExactlyWhen | src/vault.rs:57-77 | a section is accepted if and only if it names `argon2id`, its salt encodes sixteen bytes, and the costs are 1 to 16, 19456 to 1048576, 1 to 4 and 32; which error otherwise |
| Acceptance.FileIsAcceptedExactlyWhen | src/vault.rs:167-177 | a file is accepted if and only if it has version 1, an accepted section, nonces of twelve bytes and ciphertexts of at least sixteen; the version is checked first, then the parameters, then the encodings |
| Acceptance.EntryIsReadExactlyFrom | src/vault.rs:212-222 | an object is read as an entry if and only if it has exactly the seven named members; an entry is written with them in order |
| Acceptance.KdfIsReadExactlyFrom | src/vault.rs:38-47 | the same for the KDF section |
| Acceptance.BlobIsReadExactlyFrom | src/vault.rs:49-54 | the same for an encrypted section |
| Acceptance.FileIsReadExactlyFrom | src/vault.rs:29-36 | the same for the file |
| Acceptance.ArraysAreReadInOrder | src/vault.rs:29-54 | each of the four is also read from an array of its values in order of declaration, and from nothing else |
| Acceptance.BytesAreAcceptedExactlyWhen | src/vault.rs:154-161 | bytes are accepted as a file if and only if there are 1 to 67108864 of them and they are a document of an acceptable file; `VaultFormat` for what is no file, the error of validation otherwise |
| Acceptance.PayloadIsAcceptedExactlyWhen | src/vault.rs:193-200 | a decrypted payload opens to a list if and only if it has at most 50331648 bytes, is a document of that list, and the list is acceptable |
| Keys.KekIsDerivedExactlyWhen | src/crypto.rs:187-229 | a password gives a key-encryption key if and only if the parameters are within bounds and both derivations succeed, with a master key of 32 bytes; which error otherwise |
| Keys.LabelsAre | src/crypto.rs:56-59 | the associated data are the texts `vault_key` and `vault` |
| Keys.KeyUnwrapsExactlyWhen | src/crypto.rs:264-297 | a wrapped key opens if and only if it was wrapped under this key, nonce and label, and is 32 bytes long |
| Keys.NewVaultIs | src/vault.rs:121-152 | the file and the history of a new vault: version, algorithm, costs, and which message is encrypted under which key, nonce and label |
| Keys.SealedVaultIs | src/vault.rs:358-374 | the file of a sealed vault and the one encryption it takes; `VaultFormat` above 48 MiB, `Crypto` without a nonce |
| Keys.UnlockExactlyWhen | src/vault.rs:179-209 | unlock returns a vault if and only if the file is acceptable, the password derives a key, that key opens the wrapped key, the vault key opens the payload, the payload is an acceptable list, and the header sections are taken over |
| Crypto.SoundPrimitivesExist | src/crypto.rs:187-326 | what is asked of the primitives can be met, also by key derivation that never fails |
| Crypto.EncryptExtends | src/crypto.rs:303-326 | an encryption keeps the history genuine and loses nothing that could be decrypted |
| UnlockedVaults.UnlockedVault.AddEntry | src/vault.rs:329-339 | the entry is appended if and only if it is acceptable, no entry has its id and there are fewer than 100000; otherwise `InvalidEntry` with the list unchanged |
| UnlockedVaults.UnlockedVault.UpdateEntry | src/vault.rs:341-350 | refused if and only if the entry is not acceptable; otherwise the first entry with that id is replaced in place, and the answer says whether there was one |
| UnlockedVaults.UnlockedVault.RemoveEntry | src/vault.rs:352-356 | exactly the entries with other ids are retained; the answer says whether the id was there |
| UnlockedVaults.UnlockedVault.Lock | src/vault.rs:376-381 | entries and key are emptied, the header sections stay |
| UnlockedVaults.ListFromOrderAndMap | src/vault.rs:304-311 | under distinct ids the order of ids and the map from id to entry determine the list |
| UnlockedVaults.AddRefinesInsert | src/vault.rs:329-339 | adding is insertion of a new key at the end of the order, accepted if and only if the entry is valid, the id is free and there is room |
| UnlockedVaults.UpdateRefinesMapUpdate | src/vault.rs:341-350 | first-match update is map update of a present key and keeps the order |
| UnlockedVaults.RemoveRefinesMapDelete | src/vault.rs:352-356 | removal by retaining is map deletion, keeps the order of the rest and drops at most one entry |
| UnlockedVaults.AddKeepsValid | src/vault.rs:329-339 | adding keeps the list one that loading accepts |
| UnlockedVaults.UpdateKeepsValid | src/vault.rs:341-350 | updating keeps the list one that loading accepts |
| UnlockedVaults.RemoveKeepsValid | src/vault.rs:352-356 | removing keeps the list one that loading accepts |
| VaultTheorems.NewOpens | src/vault.rs:121-152 | a new vault is empty, its file is valid, and the creation password unlocks the file to exactly the vault that creation returned |
| VaultTheorems.SealUnlocks | src/vault.rs:358-374 | a sealed vault unlocks to itself: entries in order, key, and header sections |
| VaultTheorems.SaveReopen | src/vault.rs:154-209 | seal, `to_bytes`, `from_bytes`, `unlock` returns the same vault exactly when the file fits, and the error of `from_bytes` otherwise |
| VaultTheorems.ReadSectionsAreShort | src/vault.rs:154-177 | no Base64 field of a file that was read decodes to more than 48 MiB: salt and nonces have their fixed lengths and both ciphertexts stay within the bound |
| VaultTheorems.UnlockOutcomes | src/vault.rs:179-209 | closed error set: on a file from `from_bytes` the outcome is success, `Authentication` or `InvalidEntry`, or the failure of the KDF; decoding again never fails and the payload limit never rejects |
| VaultSize.SealedFileLength | src/vault.rs:358-374 | the exact length of a saved file from the length of its payload |
| VaultSize.DefaultFileLength | src/crypto.rs:113-123 | with the parameters of new vaults the part besides the encrypted payload has 313 bytes |
| VaultSize.HeaderLengthBounds | src/crypto.rs:132-154 | with every accepted parameter set the header takes 297 to 300 bytes |
| VaultSize.FitsExactlyWhen | src/vault.rs:11-14 | a saved file is within 64 MiB exactly when its payload has at most 50331395 bytes |
| VaultSize.ReadableExactlyWhen | src/vault.rs:154-165 | a saved file can be read back exactly under the same bound |
| VaultSize.BulkyVaultIsValid | src/vault.rs:290-302 | six hundred particular entries make a valid list |
| VaultSize.BulkyPayload | src/vault.rs:358-364 | their payload has 50331601 bytes: above the readable bound, within the limit of `seal` |
| VaultSize.SavedButUnreadable | src/vault.rs:358-374 | that vault is saved without an error and its file is refused |
| SectionBinding.NewKeepsHonest | src/vault.rs:121-152 | after creating a vault the history still holds only wrapped keys and valid payloads of known vaults |
| SectionBinding.SealKeepsHonest | src/vault.rs:358-374 | the same for sealing |
| SectionBinding.UnlockByKek | src/vault.rs:179-209 | a valid file opens if and only if some vault has its wrapped key and the derived key-encryption key and sealed its payload; otherwise `Authentication` |
| SectionBinding.SectionsAreBound | src/vault.rs:179-192 | for files put together from any sections: success if and only if the KDF section and the wrapped key come from one vault made with this password and the payload was sealed under its key |
| SectionBinding.SwappedSectionsFail | tests/vault_tests.rs:212-223 | exchanging the two encrypted sections gives `Authentication` if and only if the cipher has not coincidentally produced one section as wrapped key and as payload; always, if no payload nonce repeats the nonce of a wrapped key |
| SectionBinding.SealedHeaderIsKept | src/vault.rs:368-373 | whatever is done to an open vault, the files it seals carry the header it was opened with |
| SectionBinding.LockedNeverSeals | src/vault.rs:376-381 | after a lock no sequence of operations makes the vault seal again |
| Storage.TempPathIn | src/storage.rs:88-99 | the loop builds the name of the sixteen bytes, zeros for a failed draw |
| Storage.TempNamesDiffer | src/storage.rs:88-99 | names collide exactly when all their random bytes do |
| Storage.TempNameIs | src/storage.rs:88-99 | the name is `.vt.`, 32 lower-case digits of the two draws, and `.tmp` |
| Storage.FileSystem.CreateSecure | src/storage.rs:101-112 | a file is created only under a free name |
| Storage.FileSystem.WriteTempFile | src/storage.rs:46-52 | create, write, flush, sync in this order, stopping at the first failure |
| Storage.FileSystem.WriteVaultAtomic | src/storage.rs:34-72 | the method does to the file system what the replacement function says, for every combination of failures |
| Storage.AtomicWriteOutcome | src/storage.rs:34-72 | success puts exactly the new bytes at the path, failure leaves what was there, and no other name but the temporary one changes |
| Storage.FailedWriteCleansUp | src/storage.rs:54-62 | a failed replacement leaves no temporary file unless the removal failed |
| AtomicReplace.EveryRunIsSafe | src/storage.rs:34-72 | under every interleaving of calls without a crowded name, the file is the initial one or the bytes of the last call that renamed, and a power loss at any step leaves such a file |
| AtomicReplace.FailedNeverReplaced | src/storage.rs:54-62 | a call that ends with an error was never the one whose file is in place |
| AtomicReplace.NothingIsLeftBehind | src/storage.rs:54-62 | a temporary file belongs to a call still at work or to one whose removal failed |
| AtomicReplace.ThreeCanTear | src/storage.rs:54-57 | three calls under one free name have a schedule that puts an unfinished file in place |
| AtomicReplace.FourCanTear | src/storage.rs:54-57 | so have four calls under a name that is taken at the start |
| AtomicReplace.IntactExactlyWhen | src/storage.rs:34-72 | the file stays whole under every schedule if and only if at most two calls with something to write share a name that is free at the start, and at most three one that is taken; the same condition decides whether it is whole and also stays whole when power is lost |
| AtomicReplace.DistinctDrawsSuffice | src/storage.rs:88-99 | distinct random draws are enough for that |
| AtomicReplace.ReplacementIsARun | src/storage.rs:34-72 | the sequential replacement is one run of the step protocol |
| AtomicReplace.PowerLossDuringReplacement | src/storage.rs:46-69 | a power loss between any two steps leaves what could have been left before, or exactly the new bytes |
| AtomicReplace.DurabilityOfSuccess | src/storage.rs:64-71 | after success an earlier file can come back if and only if the directory sync failed |
| PasswordGenerator.Alphabet | src/password_generator.rs:83-101 | exactly the characters of the enabled classes: lower case, upper case, digits, symbols, each class in order; an error if no class is enabled |
| PasswordGenerator.Consume | src/password_generator.rs:148-156 | the inner loop writes the letters of the accepted bytes in order, within bounds, until the buffer is full |
| PasswordGenerator.Generate | src/password_generator.rs:118-169 | the password has the requested length and only characters of enabled classes; it is the first `length` accepted bytes of the concatenated chunks mapped through the alphabet; it stops with the first chunk that completes them; it fails exactly on no class, a length outside 8 to 128, or a failed draw |
| Uniformity.WordReadsOff | src/password_generator.rs:129-157 | a stream gives a word if and only if the byte that follows `i` others below the limit gives letter `i` by its remainder, where the limit is the largest multiple of the number of enabled characters that is at most 255 |
| PasswordGenerator.WordIsStable | src/password_generator.rs:142-157 | further random bytes never change a complete password |
| PasswordGenerator.LengthChunksSuffice | src/password_generator.rs:142-157 | if every chunk has an accepted byte, `length` chunks are enough |
| Uniformity.LettersAreDistinct | src/password_generator.rs:50-53 | the alphabet of every choice of classes has no duplicates |
| Uniformity.LimitIsWhole | src/password_generator.rs:129-138 | the rejection limit is a positive multiple of the alphabet's length that fits a byte |
| Uniformity.RewriteIsBijective | src/password_generator.rs:133-157 | rewriting the residues of accepted bytes turns the streams of one word into those of another and is undone by the reverse rewriting |
| Uniformity.GeneratorIsUniform | src/password_generator.rs:118-169 | for any number of random bytes, any two words of the requested length are produced by equally many streams |
| AutoLock.RemainingIsTimeToLock | src/autolock.rs:38-49 | no time remains if and only if the vault should lock, and what remains is when it will |
| AutoLock.AutoLock.NoteActivityAt | src/autolock.rs:30-32 | only the time of the last activity changes |
| Clipboard.ClipboardGuard.Copy | src/clipboard.rs:131-143 | the new guard and clipboard after a copy, including a failed one, which wipes the secret and keeps the old deadline |
| Clipboard.ClipboardGuard.TryClear | src/clipboard.rs:169-194 | reads, clears if the text equals the secret, wipes either way |
| Clipboard.ClipboardGuard.Poll | src/clipboard.rs:150-156 | nothing before the deadline, one clearing attempt at or after it |
| Clipboard.ClipboardGuard.Cancel | src/clipboard.rs:163-166 | wipes and forgets the deadline, the clipboard is not touched |
| Clipboard.ClipboardGuard.Drop | src/clipboard.rs:197-205 | one clearing attempt if a deadline is pending |
| Clipboard.SecretIsKnown | src/clipboard.rs:131-205 | in every run with other programs writing at will, a pending secret is the value copied last, and without a deadline or after a failed copy every retained byte is zero |
| Clipboard.EveryClearIsOurs | src/clipboard.rs:131-205 | in every such run the exact calls and content after each step: the clipboard is read exactly when a clear comes due or the guard is dropped with one pending, it is cleared if and only if the text read is the retained secret, only copying sets text, a copy is due after twenty seconds, and cancelling touches nothing |
| Apps.App.CreateVault | src/app.rs:156-188 | the method changes the whole state as the creation function says: checks in order, file before state |
| Apps.App.Unlock | src/app.rs:195-222 | the same for unlocking: memory is rebuilt from the disk, or only the error field changes |
| Apps.App.Lock | src/app.rs:226-243 | the same for locking |
| Apps.App.Save | src/app.rs:246-257 | the same for saving |
| Apps.App.AddEntry | src/app.rs:263-269 | memory changes first, then the file |
| Apps.App.UpdateEntry | src/app.rs:273-282 | memory changes first, the file only if there was such an entry |
| Apps.App.RemoveEntry | src/app.rs:286-295 | memory changes first, the file only if there was such an entry |
| Apps.App.CopyField | src/app.rs:302-333 | the first entry with the id gives its password or username to the guard |
| Apps.App.Tick | src/app.rs:340-353 | the clipboard is polled in every state; an open vault notes activity and may lock |
| Calls.CreationTouches | src/app.rs:156-188 | the checks in order with their errors and the error field: fewer than 12 characters, no confirmation, a file in sight; a failed creation leaves mode, timer, clipboard and file alone |
| Calls.CreationMakes | src/app.rs:156-188 | a successful creation leaves an open empty vault with the drawn key, the timer started, and a file that the password opens to just that vault |
| Calls.CreationFailsWith | src/vault.rs:121-152 | past the checks the error is that of the first of salt, derivation, other draws and replacement that fails |
| Calls.UnlockDoes | src/app.rs:195-222 | a locked application opens a vault if and only if nothing fails and the file at the path opens to it; what each mode answers, and what is left alone |
| Calls.UnlockFailsWith | src/storage.rs:17-27 | the error is that of the first of metadata, presence, size, read, format and unlock that fails |
| Calls.LockDoes | src/app.rs:226-243 | an open vault is locked and the timer noted; nothing else changes but the error field |
| Calls.SaveDoes | src/app.rs:246-257 | a save touches only file and history; after success the file has the header of the vault and its payload decrypts to the entries in memory, after failure the file is as before |
| Calls.SaveFailsWith | src/app.rs:246-257 | the error is `VaultFormat` above 48 MiB, then `Crypto` without a nonce, then that of the replacement |
| Calls.ReplacementFailsWith | src/storage.rs:34-72 | a replacement fails with the error of the first of its calls that fails: `VaultNotFound` for a missing path, `Storage` for the rest, `VaultFormat` for nothing to write |
| Calls.AddDoes | src/app.rs:263-269 | an acceptable entry with a new id goes to the end of the list in memory, if there is room, and the list is saved; otherwise `InvalidEntry` or `VaultNotFound` and nothing changes |
| Calls.UpdateDoes | src/app.rs:273-282 | an acceptable entry takes the place of the first with its id, and the list is saved; without one the answer is false and nothing changes |
| Calls.RemoveDoes | src/app.rs:286-295 | the entry with the id is taken out in place, and the list is saved; without one the answer is false and nothing changes |
| Calls.CopyDoes | src/app.rs:302-333 | the password or the username of the first entry with the id is put on the clipboard and retained, due after the delay; a refused copy wipes what was retained and keeps the deadline |
| Calls.CopyOfNothing | src/app.rs:302-333 | a closed vault or a missing id is `VaultNotFound`, and nothing is touched |
| Calls.TickDoes | src/app.rs:340-353 | which events count as activity; an open vault stays open if and only if the timeout has not passed since the last activity, and the clipboard is polled in every mode |
| Calls.RestartDoes | src/clipboard.rs:197-205 | ending the program with a clear pending reads the clipboard and clears it if and only if the text is the retained secret; the next start is locked if and only if the file is seen, with timers of three minutes and twenty seconds |
| Runs.SaveKeepsInv | src/app.rs:246-257 | a save of any list in memory either fails and leaves the file, or makes exactly that list the stored one |
| Runs.UnlockOfSaved | src/vault.rs:179-209 | the stored file opens to exactly the saved list for the vault's key, and gives `Authentication` for every other key |
| Runs.SavedFileFits | src/storage.rs:14-24 | a stored file is within the read limit exactly when its payload has at most 50331395 bytes |
| Runs.StepKeepsInv | src/app.rs:156-353 | every call, failing or not, keeps the relation between memory, disk and ledger |
| RunTheorems.DiskHoldsLastSave | src/app.rs:156-295 | after every run the plaintext on disk is the entry list of the last successful save, empty after creation |
| RunTheorems.OnlySavesChangeTheDisk | src/app.rs:156-295 | after every run a call that fails, or that does not report a save, leaves the stored bytes unchanged |
| RunTheorems.HeaderIsForever | src/vault.rs:368-373 | once a vault is stored, every later file has the identical version, KDF section and wrapped key exactly until a creation overwrites it; afterwards the wrapped key is another |
| RunTheorems.LockThenUnlock | src/app.rs:195-243 | after every run, locking and unlocking gives exactly the last saved list or the named error; with no vault in sight it is `VaultNotFound`, file or no file |
| RunTheorems.HiddenExactlyWhen | src/app.rs:95-105 | a stored vault is out of sight exactly from a restart that fails to look at it until a restart that does not, or an overwriting creation |
| RunTheorems.CreateOverwritesExactlyWhen | src/app.rs:156-188 | with a file at the path, creation goes through if and only if looking at the file fails and the conditions of creation known before the call hold; then the file is the new one, otherwise the old one |
| RunTheorems.CreationPasswordOpens | src/app.rs:156-243 | whatever happens after creation, a password opens that vault again, with the last saved list, if and only if no later creation has overwritten it, the application sees it, the payload is within the readable bound, and the password derives the key of the creation password |
| RunTheorems.ShutForGood | src/app.rs:195-222 | a closed vault whose payload has outgrown the reader never opens again and its file never changes, whatever is called, unless a creation overwrites it |
| RunTheorems.MemoryAgreesUntilAFailure | src/app.rs:263-295 | in every reachable state the list in memory is valid, and equal to the stored one unless an entry operation has changed it and failed since |
| RunTheorems.AgreesAfterStep | src/app.rs:263-295 | from agreement, a call leads to agreement if and only if it is not an entry operation that changes the list and cannot save it |
| RunTheorems.MemoryAgreesExactlyWhen | src/app.rs:263-295 | memory and disk agree at every moment of a run if and only if none of its entry operations changes the list and cannot save it |
| RunTheorems.FailedSaveIsForgotten | src/app.rs:263-295 | an addition, update or removal that cannot be saved fails, is in memory, not on disk, and gone after locking and unlocking |
| Success.ReplacementSucceedsExactlyWhen | src/storage.rs:34-72 | a replacement succeeds if and only if there is something to write, the temporary name is free and no call up to the rename fails; the removal and the directory sync do not matter |
| Success.SaveSucceedsExactlyWhen | src/app.rs:246-257 | a save succeeds if and only if the payload is within the limit of `seal`, a nonce is drawn and the replacement succeeds |
| Success.CreationSucceedsExactlyWhen | src/app.rs:156-188 | creation succeeds if and only if the password is long enough and confirmed, no file is seen, every draw and the key derivation succeed, and the replacement does |
| Witnesses.RunsExist | src/app.rs:156-188 | the first call of a first launch can store a vault and open it, so the hypotheses of the theorems about runs can be met |
| Witnesses.ListsCanBeBuilt | src/app.rs:263-269 | every valid list whose beginnings are within the limit of `seal` is reached by a creation and additions none of which fails |
| Witnesses.ChangeStaysInMemoryOnly | src/app.rs:263-269 | a run from a first launch ends with an entry in memory and the file without it |
| Witnesses.OlderFileComesBack | src/storage.rs:64-71 | two saves succeed, and a power loss may leave the file of the first |
| Witnesses.CopiedPasswordCanStay | src/clipboard.rs:131-156 | after a successful copy, a refused one and a due tick the password is still on the clipboard and nothing will clear it |
| Witnesses.StoredVaultIsReplaced | src/app.rs:156-188 | a run of creation, addition, restart and creation, none of which fails, replaces a vault with an entry by an empty one |
| Witnesses.SavedVaultIsLockedOut | src/vault.rs:358-374 | a run of one creation and six hundred additions, none of which fails, after which the closed vault gives `VaultFormat` to every password |
| TimedRuns.WaitingTouchesNothing | src/app.rs:302-353 | before the deadline, and without one, the only clipboard calls are those of copies that are refused there; these wipe the retained secret and keep the deadline |
| TimedRuns.ClipboardSchedule | src/app.rs:302-353 | after a successful copy, until another one succeeds and whatever is locked, unlocked, saved or refused meanwhile: no earlier tick touches the clipboard, the first tick at or after the deadline reads it, clears it if and only if the text there is what is still retained, and forgets the deadline; later ticks do nothing |
| TimedRuns.CopiedValueIsClearedExactlyWhen | src/clipboard.rs:131-194 | a copied value that is still there and readable is cleared by the first due tick if and only if no copy was refused in between, or wiping leaves the value as it is; otherwise it stays and the deadline is forgotten |
| TimedRuns.ExitClearsExactlyWhen | src/clipboard.rs:197-205 | a program that ends before the deadline of a copy clears the copied value that is still there and readable if and only if no copy was refused in between, or wiping leaves the value as it is |
| TimedRuns.CopiedValueIs | src/app.rs:302-333 | the copied value is the chosen field of the first entry with the id |
| TimedRuns.TicksLockExactlyIdleVaults | src/app.rs:340-353 | on a clock that does not go back, a tick leaves the vault open if and only if the last creation, unlock or activity is less than the timeout before |
| TimedRuns.TouchedIsActivity | src/autolock.rs:64-82 | activity is a pressed key or button, text, paste, copy, cut, a moved pointer or the wheel, and nothing else |
| TimedRuns.IdleVaultIsClosed | src/app.rs:340-353 | an idle stretch with a tick at least the timeout after the last activity ends with a closed vault |
| PowerLoss.WriteMayHold | src/storage.rs:34-72 | exactly what a power loss may leave after one replacement: its own bytes after success, what was there before if it failed or the directory sync did |
| PowerLoss.PowerLossLeavesExactly | src/storage.rs:46-69 | a power loss after a run can leave exactly the whole files of the last save with a synced directory and of the saves after it, and no file if and only if there was no such save |
| PowerLoss.SyncedSaveIsAFloor | src/storage.rs:64-71 | after a save with a synced directory nothing older comes back, and never nothing |
| PowerLoss.LastSyncedSaveSurvives | src/storage.rs:64-71 | if the last save synced the directory, failed calls after it included, a power loss leaves exactly the file that is there |
| PowerLoss.PowerLossLeavesAWholeFile | src/storage.rs:46-69 | a power loss at any step of one more save leaves what could be left before it, or the whole new file |
| PowerLoss.RunsGoOn | src/app.rs:95-114 | started again on what a power loss left, after a run or at any step of one more call that was about to save, the application is in a state of the invariant, memory and disk agree, the last save is one of those that could come back, and a further power loss can leave no other: the theorems on runs and on power losses apply again |
| PowerLoss.AnyNumberOfPowerLosses | src/app.rs:95-114 | after any number of runs ended by power losses the invariant holds, and what the next power loss can leave is exactly known |
| PowerLoss.LifeOfAVault | src/app.rs:95-295 | from a first launch through any number of power losses and one more run, the disk holds the last save made or come back, unlocking gives its list or the named error, and a further power loss leaves exactly the saves from the last synced one on |
| PowerLoss.FoundFileOpens | src/vault.rs:179-209 | a file found after such a power loss opens with the creation password to exactly the list of the save that wrote it, if it is within the readable bound |

## Left out

- SectionBinding.SectionsAreBound: takes as a hypothesis that no recorded vault has the derived key without having this password and KDF section; injectivity of the KDF on all inputs cannot be met and is not assumed.
- Runs.UnlockOfSaved: relies on the wrap nonces of the recorded vaults being distinct; how likely random nonces repeat is not modelled.
- Json.ParseOfPrint: values are texts, natural numbers, arrays and objects; a document with any other value (null, booleans, signs, fractions) is refused at once, as both schemas refuse it. Nesting limits are not modelled.
- Storage.AtomicWriteOutcome: the path has a parent directory that exists and is not itself a directory; creating directories, permissions and the mode of new files are not modelled.
- Uniformity.GeneratorIsUniform: equal numbers of streams stand for equal probability; the random source itself is not modelled.
- Internals of Argon2id, HKDF-SHA256 and AES-256-GCM, and a failure of encryption itself on a message within its limits.
- `entries_mut` appears only as arbitrary rewriting of the list in the theorems on header sections; the application never calls it.
- `delete_vault`, the accessors and `clear_error` of the application: one-line members.
- Error messages: an error is a variant, and the error field of the application holds the variant.
- The graphical interface, path resolution from the environment, memory locking and the backend for a missing clipboard (it behaves as one that always fails).
- Constant-time comparison, redacted debug output and remains of secrets in freed memory.
- Two instances of the application on one vault are covered only as concurrent replacements of the file, not as runs.
