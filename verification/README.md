# EuleDB, modelled and proved in Dafny

EuleDB is a local database whose files are encrypted at rest, whose audit log is a hash chain, and whose
text columns carry embeddings that follow the text. This project models those parts and proves what they
are for.

| part | files |
|---|---|
| the encrypted object path | `Aead`, `Frame`, `BlockFrame`, `FrameLoops`, `Upload`, `ObjectStore`, `Handles`, `StoreLaws`, `EncryptingStore`, and for damaged objects `Reading`, `Tampering`, `DamagedReads`, `SplicedReads`, `Refusals` |
| the keyring and its keyfile | `Keyring`, `KeyringObject` |
| the audit log | `Text`, `Utf8`, `AuditRecord`, `AuditChain`, `AuditLog` |
| auto-embedding columns | `Chunks`, `ChunkLaws`, `Reconcile`, `EmbeddedTable`, `TableLaws`, `EmbeddedTableObject` |
| hybrid ranking | `Fusion` |
| the corpus format | `Corpus` |
| shared | `Wrappers`, `Bytes`, `Arithmetic`, and the byte layouts of all formats in `Layouts` |

Two forms stand beside each other. What the code computes is a function or a value-level state machine, and
the theorems are about that. What the code does in place (loops, objects that update their fields) is a
method or a class, and its contract says that it does exactly what the function says.

**Main results**

- No run of puts, interleaved multipart uploads, gets of any range, heads, listings, copies, deletes, key
  rotations and passphrase changes distinguishes the encrypting store from a plain map of plaintexts
  (`ObjectStore.RunAgrees`). Among several handles, each with the keys it was opened with, the one difference is a
  get of bytes sealed under a key from after that, which is refused by the key's name (`Handles.CallAgrees`,
  `Handles.SharedRunAgrees`).
- Whatever a put or an upload stores is sealed under the key that was current when it began, which after n rotations
  is key n + 1, and each of its blocks with a nonce drawn for it alone (`StoreLaws.PutAfterRotations`,
  `StoreLaws.UploadAfterRotations`).
- A get of a damaged object succeeds, for any range that is not empty, if and only if its header is one the frame
  writes and each block that meets the range is the block of that position from some object sealed under the
  header's key (`DamagedReads.ReadsWhenRunBelongs`); what it then hands out is, byte for byte, sealed plaintext at
  the positions it was sealed at (`DamagedReads.ReadsOnlySealedBytes`). That is less than refusing every damaged
  object: `DamagedReads.WholeRead` says exactly which damage a get of the whole accepts.
- The whole-object `open`, which the code compiles for its tests only, is stricter. It succeeds if and only if every
  position is so filled and the last block is a final one (`Tampering.OpensOnlySplices`), and so, where all blocks
  are one object's, only for that object (`Tampering.OpensOnlyAsSealed`).
- However a plaintext is cut into parts, the streaming sealer sends what the whole-object sealer writes
  (`Upload.StreamedIsWhole`), and any range reads back through its span (`BlockFrame.Sealer.RangeReads`).
- Two verifying audit chains with the same last hash are the same chain, or they exhibit two preimages with
  one digest or a preimage of the all-zero anchor (`AuditChain.LastHashDecides`).
- Over every run of writes, wherever each of them stopped, no companion table holds part of a row's embedding,
  and one successful write leaves each column with exactly the embeddings of the live rows' own texts
  (`TableLaws.StoredWasAdded`, `TableLaws.WriteStores`).

**How the unseen is modelled.** The AEAD is a pair of functions with the interface of section 2 of RFC 5116;
the laws assumed of it (`Aead.Cipher.Lawful`) are that decryption inverts encryption, that a ciphertext is 16
bytes longer than its message and whatever decrypts 16 bytes longer than what it decrypts to, and that a ciphertext
made with one associated data does not decrypt under another. `Aead.LawfulCipherExists` gives a cipher that has
them. What it is to be unforgeable is no law but a hypothesis of the theorems about damaged objects
(`Tampering.Unforged`): given all the objects that were sealed, every stored block that some held key accepts where
it lies is a block that was sealed with that key, at that place or at another, in that object or in another. The
theorems about one object assume that all such blocks are that object's. The hash is an
arbitrary function into 32 bytes: nothing is assumed of it, and where a collision is possible the theorem hands
out the collision. Key derivation, the tokenizer and the embedder are parameters. Nonces, salts and keys are
inputs. `ObjectStore` takes every operation through a handle on the keyring as it is, so there a rotation means that
the store is opened anew; in `Handles` a handle keeps the frame it was opened with, as a store does in the code
(crates/euledb-storage/src/store.rs:509). A locked append, a get (a size and two ranges) and the overwriting of a
companion table are one atomic step each. Row ids are never used twice in a table's life.

**What the code does that its documentation does not say**

- The comments in crates/euledb-storage/src/crypto/frame.rs:25-29, 264-268 and 361-366 say that authenticating whether
  a block is the last one stops truncation. It does in `open`. A get derives the length from the stored size and
  fetches only the blocks that the range meets, so when that length is a multiple of the block size the short block
  behind it is never fetched: an object cut after any full block, with any 28 bytes put behind it, reads as the
  whole of its first blocks (`DamagedReads.CutIsRead`), and any 41 bytes read as an empty object, header and all
  unread, as do metadata and every empty range (`DamagedReads.SizeIsUnread`). `DamagedReads.WholeRead` is the exact
  condition, by that length: inside a block, only the object itself; between two blocks, an object that begins as
  this one did up to there; nothing, always.
- Lines 33-36 of the same file admit replacing one whole object by another of the same key. Since no block says which
  object it is from, single blocks can be replaced as well, each by the block of its position in another object of
  that key, but, where a get opens them, by nothing else (`DamagedReads.ReadsWhenRunBelongs`). The first
  blocks of one object in front of the later blocks of another read as the one plaintext up to there and the other
  from there on (`SplicedReads.SpliceIsRead`).
- Removing a line that re-anchored the log brings back the chain before it. If that chain was broken, its break is
  reported again; if it was not, the removal is reported at the next record, unless the line before is the same line
  once more (`AuditChain.RemovalReported`).
- A keyring that was rotated past 65535 keys still writes a keyfile, but the count in it is cut to two bytes
  and the keyfile does not open again. `Keyring.KeyfileReopens` states when it opens: exactly up to 65535 keys.
  `Keyring.RunReopens` shows over all runs that rotating goes on undisturbed past that point, and
  `Keyring.RotatedKeyfile` that a new keyring gets there with its 65535th rotation.
- The audit log's escaping leaves carriage returns alone and its reader drops one at the end of a line, so a
  plan that ends in a carriage return is lost on reading (`AuditRecord.ReturnIsLost`) and, short of a
  collision, its record breaks the chain. A plan can be a user's text: `search_text` records its query there
  (crates/euledb-storage/src/store.rs:926-930). `AuditRecord.RenderParses` and `AuditLog.AppendOutcome` state
  when nothing is lost and when the chain still verifies.
- A query that begins with the re-anchor marker passes for a re-anchor. `AuditLog.AppendOutcome` covers it too.
- A live row whose text embeds to no vector at all keeps its companion table from ever counting as up to date
  (`Reconcile.AgreementIsUpToDate`): nothing is wrong, but every write rebuilds it. A text over the token budget
  whose pieces are all blank is one (`Chunks.NoChunkWhenBlank`).

## Model

| member | source | states |
|---|---|---|
| Aead.LawfulCipherExists | crates/euledb-storage/src/crypto/frame.rs:228-250 | the laws assumed of the AEAD that blocks are sealed with can be met, for the 14-byte associated data and every other |
| Frame.BlockSizesAccepted | crates/euledb-storage/src/crypto/frame.rs:88-95 | exactly the fifteen powers of two from 2^6 to 2^20 are accepted as block sizes |
| Refusals.SizeRefused | crates/euledb-storage/src/crypto/frame.rs:88-95 | an accepted block size is the one given, and a refused one is named |
| Frame.AssociatedDataInjective | crates/euledb-storage/src/crypto/frame.rs:438-445 | no two blocks that differ in key, index or finality share their associated data |
| Layouts.AssociatedBytes | crates/euledb-storage/src/crypto/frame.rs:438-445 | what a tag covers beside the block, byte by byte: version 2, the key's id, the index, and 1 for a last block |
| Layouts.HeaderBytes | crates/euledb-storage/src/crypto/frame.rs:209-217 | a header, byte by byte: the magic, version 2, the block size and the key's id |
| Frame.LengthsInverse | crates/euledb-storage/src/crypto/frame.rs:153-179 | a stored size is read as n exactly when it is the size that n bytes are stored in |
| Frame.LengthsRefused | crates/euledb-storage/src/crypto/frame.rs:165-179 | a stored size is refused exactly when no plaintext has it |
| Frame.CiphertextLenIncreasing | crates/euledb-storage/src/crypto/frame.rs:153-158 | a longer plaintext is stored in strictly more bytes |
| Frame.CiphertextLenFits | crates/euledb-storage/src/crypto/frame.rs:153-158 | below 2^63 bytes the length arithmetic stays inside 64 bits |
| Frame.SpanIsMinimal | crates/euledb-storage/src/crypto/frame.rs:185-199 | the span of a range holds exactly the blocks that meet the range, begins and ends with such a block and stays inside the object |
| Frame.SpanBlockBound | crates/euledb-storage/src/crypto/frame.rs:185-199 | a range read fetches at most one block more than the length of the range needs |
| BlockFrame.Sealer.BlockOpens | crates/euledb-storage/src/crypto/frame.rs:228-250 | a sealed block is its nonce, ciphertext and tag, 28 bytes longer than its chunk, and opens to it at its own index |
| BlockFrame.Sealer.ObjectLength | crates/euledb-storage/src/crypto/frame.rs:258-292 | a sealed object occupies what the length arithmetic predicts, and its size reads back as the plaintext's |
| BlockFrame.Sealer.ObjectDraws | crates/euledb-storage/src/crypto/frame.rs:258-292 | a sealed object names its key in its header, and block i of it begins with the ith nonce drawn, one for each block |
| BlockFrame.Sealer.RangeReads | crates/euledb-storage/src/crypto/frame.rs:326-387 | opening what the span of a range selects from a sealed object gives exactly that slice, and a range past the end is refused |
| BlockFrame.BlockFrame.HeaderReads | crates/euledb-storage/src/crypto/frame.rs:209-217 | a header reads back as its block size and key, whatever follows it |
| BlockFrame.BlockFrame.HeaderUnique | crates/euledb-storage/src/crypto/frame.rs:396-432 | a header is accepted only if it is byte for byte the one written for the key it names, which is held |
| Refusals.HeaderAnswers | crates/euledb-storage/src/crypto/frame.rs:396-432 | what any bytes are answered with as a header: the first thing wrong with them, with the values found and expected, or the size and key they name |
| BlockFrame.BlockFrame.OpenSealed | crates/euledb-storage/src/crypto/frame.rs:305-316 | a sealed object opens to its plaintext under any frame that holds its key, current or not |
| FrameLoops.PiecesEndShort | crates/euledb-storage/src/crypto/frame.rs:264-275 | full chunks plus an empty one on exact multiples are full chunks and exactly one short chunk |
| FrameLoops.Seal | crates/euledb-storage/src/crypto/frame.rs:258-292 | the loop over the chunks writes the object |
| FrameLoops.OpenSpan | crates/euledb-storage/src/crypto/frame.rs:326-387 | the loop over the stored blocks opens the span, with the same refusals |
| Tampering.AcceptedInPlace | crates/euledb-storage/src/crypto/frame.rs:347-368 | a block of an object that authenticates at a position is the block that belongs there |
| Tampering.OpensOnlySplices | crates/euledb-storage/src/crypto/frame.rs:305-316 | with nothing forged, the whole-object open succeeds if and only if the header is one the frame writes and every position holds the block of that position from some object sealed under its key, the last a final one |
| Tampering.OpensOnlyAsSealed | crates/euledb-storage/src/crypto/frame.rs:305-316 | where all blocks are one object's, the whole-object open succeeds if and only if it is that object: cuts, drops, repeats, exchanges and header changes are refused |
| Reading.RunOpens | crates/euledb-storage/src/crypto/frame.rs:326-387 | opening a run of stored blocks, whatever they are, succeeds exactly when each is accepted where it lies, and answers the range of what they hold |
| Refusals.BlocksRefused | crates/euledb-storage/src/crypto/frame.rs:326-387 | opening stored blocks fails as the first of them that does not authenticate where it lies, named by its position, and otherwise each of them does |
| DamagedReads.ReadsWhenRunBelongs | crates/euledb-storage/src/crypto/store.rs:121-187 | with nothing forged, a get of a range that is not empty succeeds if and only if the header is one the frame writes and each block that meets the range is the block of that position from some object sealed under its key |
| Refusals.GetRefused | crates/euledb-storage/src/crypto/store.rs:121-187 | what a get of a range that is not empty is refused with: what is wrong with the header, or else the first block among those that meet the range that does not authenticate where it lies |
| DamagedReads.ReadsOnlySealedBytes | crates/euledb-storage/src/crypto/store.rs:158-179 | each byte a get hands out is the byte at that position of some object sealed under the key of the header |
| DamagedReads.ReadsOnlyItsBytes | crates/euledb-storage/src/crypto/store.rs:158-179 | where all blocks are one object's, a get that succeeds ends inside its plaintext and answers exactly that slice of it |
| DamagedReads.WholeRead | crates/euledb-storage/src/crypto/store.rs:121-187 | exactly when a get of a whole damaged object succeeds, by whether the length its size says ends inside a block, between two, or at nothing |
| DamagedReads.CutIsRead | crates/euledb-storage/src/crypto/frame.rs:185-199 | an object cut after a full block, with 28 bytes behind it, reads as the whole of its first blocks |
| SplicedReads.SpliceIsRead | crates/euledb-storage/src/crypto/frame.rs:438-445 | the first blocks of one object in front of the later blocks of another of the same key read as the one plaintext up to there and the other from there on |
| DamagedReads.SizeIsUnread | crates/euledb-storage/src/crypto/store.rs:132-156 | metadata and empty ranges are answered from the stored size alone |
| Upload.State.PutPartHolds | crates/euledb-storage/src/crypto/store.rs:257-287 | a part keeps the invariant: pending below a block, index equal to the blocks sealed, the header sent once, and sent and pending together what was written |
| Upload.State.CompleteSeals | crates/euledb-storage/src/crypto/store.rs:289-305 | completing a sound upload makes what was sent the sealed object of all that was written |
| Upload.StreamedIsWhole | crates/euledb-storage/src/crypto/store.rs:257-305 | however a plaintext is cut into parts, none or empty ones included, what is sent is the whole-object seal of it |
| Upload.SealingUpload.DrainFullBlocks | crates/euledb-storage/src/crypto/store.rs:257-274 | the draining loop sends the header once and every full block |
| Upload.SealingUpload.PutPart | crates/euledb-storage/src/crypto/store.rs:279-287 | a part is added to what was written and the invariant kept; the inner upload is handed one part more or none, and never an empty one |
| Upload.SealingUpload.Complete | crates/euledb-storage/src/crypto/store.rs:289-305 | what the inner upload completes with is the sealed object of all that was written, under the key and with the draws the upload was begun with, block by block |
| ObjectStore.SelectedIsSlice | crates/euledb-storage/src/crypto/store.rs:50-59 | the bytes that a bounded, offset, suffix or whole request asks for, picked one by one, are exactly the clamped slice |
| StoreLaws.RequestSays | crates/euledb-storage/src/crypto/store.rs:50-59 | what each kind of request comes to on any data, cut short where the data ends |
| ObjectStore.ReadAgrees | crates/euledb-storage/src/crypto/store.rs:121-187 | a get or head of a sealed object answers the bytes asked for, the range and the plaintext's size |
| ObjectStore.SizeAgrees | crates/euledb-storage/src/crypto/store.rs:41-47 | a listed size is the plaintext's |
| ObjectStore.CompletedSeals | crates/euledb-storage/src/crypto/store.rs:289-305 | what a completed upload stores is what was written, sealed under a held key |
| ObjectStore.StandsForOutlives | crates/euledb-storage/src/crypto/keyring.rs:299-301 | objects and open uploads from before a rotation stand for the same plaintexts after it |
| ObjectStore.StepAgrees | crates/euledb-storage/src/crypto/store.rs:89-226 | each operation answers alike on the encrypting store and on the plain map, and keeps them standing for each other |
| ObjectStore.RunAgrees | crates/euledb-storage/src/crypto/store.rs:89-226 | every run of operations answers exactly as on a plain map of plaintexts |
| ObjectStore.NewStandsForEmpty | crates/euledb-storage/src/crypto/store.rs:36-38 | a store over a new keyring with nothing in it stands for the empty map |
| StoreLaws.PutSeals | crates/euledb-storage/src/crypto/store.rs:89-106 | a put stores its bytes under the keyring's current key, each block with its own draw, and changes no other object, upload or key; a refused one changes nothing |
| StoreLaws.CompleteStores | crates/euledb-storage/src/crypto/store.rs:289-305 | a completed upload stores its parts end to end under the key and with the draws it was begun with |
| StoreLaws.UploadsEnd | crates/euledb-storage/src/crypto/store.rs:279-309 | aborting ends an upload and stores nothing, and of one that is not open nothing can be put, completed or aborted |
| StoreLaws.PutAfterRotations | crates/euledb-storage/src/crypto/keyring.rs:231-247 | after n rotations of a new keyring, in any run of operations, a put stores under key n + 1 |
| StoreLaws.UploadAfterRotations | crates/euledb-storage/src/crypto/store.rs:108-119 | an upload begun after n rotations and completed after any other operations, rotations included, stores the parts put to it under key n + 1, with the draws it was begun with |
| StoreLaws.PutReads | crates/euledb-storage/src/crypto/store.rs:89-106 | after a put its path reads as what was put, whatever the request, and every other get answers as before; a create of an existing path is refused |
| StoreLaws.CopyReads | crates/euledb-storage/src/crypto/store.rs:221-226 | after a copy its target reads as its source did, and every other get answers as before; the refusals |
| StoreLaws.DeleteReads | crates/euledb-storage/src/crypto/store.rs:189-194 | after a delete its path is not found, and every other get answers as before |
| StoreLaws.ListReads | crates/euledb-storage/src/crypto/store.rs:196-210 | a listing names exactly the stored paths under the prefix, each with the size that a head of it answers |
| StoreLaws.HandleStays | crates/euledb-storage/src/store.rs:508-518 | a handle takes the keys and the current key the keyring has when it is opened, and over every run of calls keeps them |
| StoreLaws.OldHandlePuts | crates/euledb-storage/src/store.rs:508-518 | whatever was rotated since, a put through a handle seals under the key that was current when it was opened |
| Handles.CallAgrees | crates/euledb-storage/src/store.rs:508-518 | through a handle with the frame it was opened with, every operation answers as on the plain map, but for a get of bytes sealed under a key that the handle does not hold, which is refused by that key's name; what the store stands for is the same |
| Handles.SharedRunAgrees | crates/euledb-storage/src/store.rs:508-518 | over every run of calls through any handles with rotations in between, the store stands for the plain map and every answer is the plain one or such a refusal |
| Handles.FreshHandle | crates/euledb-storage/src/crypto/keyring.rs:299-301 | a handle that holds the keyring's keys as they are, which `StoreLaws.HandleStays` says a new one does, is refused nothing |
| EncryptingStore.EncryptingObjectStore.PutOpts | crates/euledb-storage/src/crypto/store.rs:89-106 | a put makes the store stand for the joined payload at that path; the stored object names the frame's current key, block i of it begins with draw i, and no other object changes; a refused put changes nothing |
| EncryptingStore.EncryptingObjectStore.GetOpts | crates/euledb-storage/src/crypto/store.rs:121-187 | a get answers as the plaintexts would where the store is as it was sealed, and of any other stored bytes what the value-level read does, which is what the theorems of `DamagedReads` are about |
| EncryptingStore.EncryptingObjectStore.CopyOpts | crates/euledb-storage/src/crypto/store.rs:221-226 | copying ciphertext verbatim copies the plaintext it stands for, and a refused copy changes nothing |
| Keyring.LastIsHighest | crates/euledb-storage/src/crypto/keyring.rs:232-238 | the last id in order is the highest one held |
| Layouts.KeySetBytes | crates/euledb-storage/src/crypto/keyring.rs:321-330 | an encoded key set, byte by byte: the current id, the count, and each id and key in ascending order |
| Layouts.KeyfileBytes | crates/euledb-storage/src/crypto/keyring.rs:207-219 | a keyfile, byte by byte: version 2, the salt, the nonce, what is sealed |
| Keyring.KeySetReads | crates/euledb-storage/src/crypto/keyring.rs:321-374 | an encoded key set decodes to itself if and only if it holds at most 65535 keys, and is refused otherwise |
| Keyring.KeyfileReopens | crates/euledb-storage/src/crypto/keyring.rs:140-219 | a keyfile reopens with the passphrase it was last wrapped under as the very keyring that wrote it, exactly up to 65535 keys |
| Refusals.KeyfileRefused | crates/euledb-storage/src/crypto/keyring.rs:140-205 | what a keyfile that cannot be opened is refused as, up to its unwrapping |
| Refusals.KeySetRefused | crates/euledb-storage/src/crypto/keyring.rs:333-374 | what an unwrapped key set is refused as, and that one which is read has the length it declares and holds its current key |
| Keyring.CreateNumbers | crates/euledb-storage/src/crypto/keyring.rs:113-131 | a new keyring holds key 1 alone, current, wrapped under its passphrase with the salt and the nonce drawn for it |
| Keyring.RotateNumbers | crates/euledb-storage/src/crypto/keyring.rs:231-247 | rotating adds the next id with the key drawn for it as the current one, touches no other key, and wraps the new set under the nonce drawn for it, with the passphrase and salt as they were |
| Keyring.RephraseKeeps | crates/euledb-storage/src/crypto/keyring.rs:258-264 | changing the passphrase wraps the same keys under a new salt and nonce, the ones drawn for it |
| Keyring.RunDraws | crates/euledb-storage/src/crypto/keyring.rs:113-317 | after every run the keyring has the salt and nonce last drawn in it, and each key drawn in it under the next id in turn |
| Keyring.RunKeeps | crates/euledb-storage/src/crypto/keyring.rs:113-264 | after every run of rotations, passphrase changes and reopenings the ids are 1 to n with n current, no key was lost or altered, the wrapping is that of the present keys, and the keyfile reopens |
| Keyring.RunReopens | crates/euledb-storage/src/crypto/keyring.rs:231-247 | up to the last id, a run succeeds exactly when each reopening in it finds at most 65535 keys; it then leaves ids 1 to n and their wrapping, and its keyfile reopens exactly if n is at most 65535 |
| Keyring.RotatedKeyfile | crates/euledb-storage/src/crypto/keyring.rs:231-247 | a new keyring rotated any number of times holds one key more, and its keyfile reopens exactly below 65535 rotations |
| KeyringObject.EncodeKeySet | crates/euledb-storage/src/crypto/keyring.rs:321-330 | the loop writes the entries in ascending order |
| KeyringObject.DecodeKeySet | crates/euledb-storage/src/crypto/keyring.rs:333-374 | the loop reads every entry, with the same refusals |
| KeyringObject.Keyring.Open | crates/euledb-storage/src/crypto/keyring.rs:140-205 | opening a keyfile makes the keyring it holds, or fails as specified |
| KeyringObject.Keyring.RotateDataKey | crates/euledb-storage/src/crypto/keyring.rs:231-247 | the fields after a rotation: the key drawn under the id behind the highest one, that id current, the nonce drawn, salt and wrapping key as before; refused exactly if the last id is held, and then nothing changes |
| KeyringObject.Keyring.ChangePassphrase | crates/euledb-storage/src/crypto/keyring.rs:258-264 | the fields after a change: a new salt, key and wrapping, the same data keys |
| KeyringObject.Keyring.Reseal | crates/euledb-storage/src/crypto/keyring.rs:304-317 | the cached wrapping is that of the present keys under the fresh nonce |
| Text.UnescapeEscape | crates/euledb-storage/src/audit.rs:176-211 | unescaping inverts escaping on every text |
| Text.UnescapeSays | crates/euledb-storage/src/audit.rs:191-211 | what unescaping makes of text that nobody escaped: every known escape, an unknown one kept whole, a lone last backslash dropped |
| Text.Spellings | crates/euledb-storage/src/audit.rs:176-187 | how each escaped character is spelled, and that every other stays |
| Text.EscapeKeepsReturn | crates/euledb-storage/src/audit.rs:176-187 | escaping a log field leaves a carriage return at the end of a text where it is |
| Text.EscapeText | crates/euledb-storage/src/audit.rs:176-187 | the escaping loop computes the character-wise escape |
| Text.UnescapeText | crates/euledb-storage/src/audit.rs:191-211 | the unescaping loop, with unknown escapes kept and a last backslash dropped |
| Text.DecimalReads | crates/euledb-storage/src/audit.rs:141-156 | a 64-bit number written in decimal parses back, and holds no separator |
| Text.DecimalSays | crates/euledb-storage/src/audit.rs:124-126 | a number's decimal digits, without a leading zero |
| Text.NumberSays | crates/euledb-storage/src/audit.rs:141-156 | what 64 bits cannot say is no number, nor is nothing or a plus alone; a plus in front is read over |
| Text.HexSays | crates/euledb-storage/src/audit.rs:214-221 | each byte is two small digits, the higher first |
| Text.PairSays | crates/euledb-storage/src/audit.rs:223-233 | in reading, hexadecimal letters may be large, and a plus may stand for the higher digit |
| Text.LastLine | crates/euledb-storage/src/audit.rs:168-173 | a last line without a newline is a line all the same, and keeps a carriage return |
| Text.HexReads | crates/euledb-storage/src/audit.rs:214-233 | bytes written in hexadecimal read back, and hold no separator |
| AuditRecord.PreimageInjective | crates/euledb-storage/src/audit.rs:102-120 | what is hashed has one reading: equal preimages mean equal sequence, link, query, plan and rows |
| Layouts.HashedBytes | crates/euledb-storage/src/audit.rs:102-120 | what is hashed, byte by byte: the link, the number, the query and plan each behind its length, the rows |
| Layouts.CharacterBytes | crates/euledb-storage/src/audit.rs:106-118 | the UTF-8 bytes of every character |
| AuditRecord.FieldsRead | crates/euledb-storage/src/audit.rs:123-161 | the six fields of a record read back as that record, whatever query and plan hold |
| AuditRecord.LineSays | crates/euledb-storage/src/audit.rs:136-161 | a line is a record exactly by its first six fields, and which field says what |
| AuditRecord.ParseSays | crates/euledb-storage/src/audit.rs:164-173 | a log parses exactly when every line that is not empty does, and otherwise fails as its first bad line |
| AuditRecord.RenderParses | crates/euledb-storage/src/audit.rs:123-173 | the lines of any records parse to as many records, and to the same ones if and only if no plan ends in a carriage return |
| AuditRecord.ReturnIsLost | crates/euledb-storage/src/audit.rs:168-187 | a plan that is a carriage return reads back empty |
| AuditRecord.AppendedLineParses | crates/euledb-storage/src/audit.rs:297-298 | a line appended to a log whose last line is whole adds one record behind those it held |
| AuditChain.AnchorIndexIsLast | crates/euledb-storage/src/audit.rs:356-361 | the current chain starts at the last re-anchor, or at the start |
| AuditChain.BreakIsLeast | crates/euledb-storage/src/audit.rs:364-381 | the break reported is the sequence of the least link that fails, for a wrong link and a wrong hash alike |
| AuditChain.BreakIsFirst | crates/euledb-storage/src/audit.rs:364-381 | a break is reported if and only if it is the first link of the current chain that fails |
| AuditChain.NoBreakMeansAllHold | crates/euledb-storage/src/audit.rs:364-381 | no break is reported exactly when every link holds |
| AuditChain.FindFirstBreak | crates/euledb-storage/src/audit.rs:364-381 | the loop reports none exactly when all links of the current chain hold, and otherwise the first that fails |
| AuditChain.LastHashDecides | crates/euledb-storage/src/audit.rs:102-120 | two verifying chains with one last hash are equal record for record, or show a collision or a preimage of the anchor |
| AuditChain.AlterationReported | crates/euledb-storage/src/audit.rs:364-381 | changing a record's content but not its hash is reported at that record, or at it or before it if the change hides the re-anchor the chain starts with, or shows a collision |
| AuditChain.RemovalReported | crates/euledb-storage/src/audit.rs:364-381 | removing a record that is not the last is reported at its successor; removing the re-anchor that the chain starts with, as the break it covered or at its successor, and goes unnoticed exactly if the record before it is the same; or it shows a collision or a preimage of the anchor |
| AuditLog.AppendOutcome | crates/euledb-storage/src/audit.rs:260-301 | an append succeeds exactly when the current chain verifies, only extends the file, and keeps it verifying exactly when its record reads back with its hash and is no false re-anchor |
| AuditLog.AppendSays | crates/euledb-storage/src/audit.rs:260-301 | the one record an append adds, field by field: what it was given, the next number, the hash before it |
| AuditLog.ReanchorOutcome | crates/euledb-storage/src/audit.rs:393-406 | re-anchoring succeeds exactly on a log that parses and does not verify, only extends it, and leaves it verifying |
| AuditLog.AnchorSays | crates/euledb-storage/src/audit.rs:393-406 | the one record a re-anchor adds, field by field: it names the first link that failed, has the next number, anchors the chain, and has no plan and no rows |
| AuditLog.RefusalsSay | crates/euledb-storage/src/audit.rs:260-406 | a refused append reports the line that is no record or the first link that fails; a refused re-anchor, the line or that every link holds |
| AuditLog.RunAnswers | crates/euledb-storage/src/audit.rs:260-406 | at every point of every run, damage included, an append is made exactly when the log verifies there, a re-anchor exactly when it parses and does not, and neither takes anything away |
| AuditLog.RunExtends | crates/euledb-storage/src/audit.rs:260-406 | in every run of appends and re-anchors the file only grows |
| AuditLog.SoundRun | crates/euledb-storage/src/audit.rs:260-406 | an undamaged run of entries whose plan does not end in a carriage return and whose query is no re-anchor records every one in order, refuses every re-anchor and ends verifying |
| AuditLog.UndamagedLog | crates/euledb-storage/src/audit.rs:260-301 | from an empty file the records are the entries, numbered 0 to n-1 |
| AuditLog.Recovers | crates/euledb-storage/src/audit.rs:393-406 | however a log was damaged, if it parses and its last line is whole, at most one re-anchor makes it verify without losing a byte |
| AuditLog.Log.Append | crates/euledb-storage/src/audit.rs:260-301 | the file after an append, and the refusal of a broken chain |
| AuditLog.Log.Verify | crates/euledb-storage/src/audit.rs:345-348 | verifying succeeds exactly when the log parses and every link of the current chain holds, and otherwise reports the line that is no record or the first break |
| AuditLog.Log.Reanchor | crates/euledb-storage/src/audit.rs:393-406 | the file and the answer are those of the value-level re-anchor, whose record `AuditLog.AnchorSays` describes |
| Chunks.Chunks | crates/euledb-embed/src/lib.rs:172-197 | the chunks are the closed form that `ChunkLaws.ShortText` and `ChunkLaws.LongText` describe in numbers |
| ChunkLaws.ShortText | crates/euledb-embed/src/lib.rs:172-179 | a text whose tokens and the prefix's come to at most 510 is its own one chunk; a tokenizer's error is the answer |
| ChunkLaws.LongText | crates/euledb-embed/src/lib.rs:172-197 | a longer text is cut behind every mth token, where the prefix, m and 2 are 512, or m is 1 where that leaves no room; its chunks are exactly the pieces that break no character and are not blank, in order |
| Chunks.SegmentsCoverText | crates/euledb-embed/src/lib.rs:181-195 | the segments are contiguous from the text's start to its last token's end, each cut between characters and of 1 to budget-many tokens |
| Chunks.TokenInsideSegment | crates/euledb-embed/src/lib.rs:181-195 | every token lies wholly inside the segment of its group |
| Chunks.ChunksAccountForText | crates/euledb-embed/src/lib.rs:172-197 | the pieces of a long text join up to it, and its chunks are the pieces that are not blank, whole and in order |
| Chunks.NoChunkWhenBlank | crates/euledb-embed/src/lib.rs:172-197 | a text has no chunk exactly when it is over the budget and every piece is blank or would cut a character |
| Reconcile.VectorsSorted | crates/euledb-storage/src/store.rs:558-617 | reading a companion table back loses nothing and is in row and chunk order |
| Reconcile.SortedGroup | crates/euledb-storage/src/store.rs:615-615 | the sort keeps a row's vectors in their order |
| Reconcile.ReconcileAgrees | crates/euledb-storage/src/store.rs:1012-1143 | a reconciliation that succeeds leaves exactly the live rows, each with its text's whole embedding in order |
| Reconcile.ReconcileIdempotent | crates/euledb-storage/src/store.rs:1012-1143 | reconciling again succeeds and changes nothing |
| Reconcile.ReconcileSucceeds | crates/euledb-storage/src/store.rs:1012-1143 | with an embedder that works, reconciling cannot fail |
| Reconcile.ReconcileSays | crates/euledb-storage/src/store.rs:1012-1143 | exactly when reconciling succeeds: the rows stored are the live ones, or each live row is stored already or its text embeds, and its vectors fit; otherwise it fails as the first row that cannot be stored |
| Reconcile.AgreementIsUpToDate | crates/euledb-storage/src/store.rs:1067-1074 | a table in agreement is skipped exactly when every live text has at least one vector |
| EmbeddedTable.ReconcileAllAgrees | crates/euledb-storage/src/store.rs:1149-1154 | stopped anywhere it keeps embeddings whole; run to its end, every column agrees and is settled |
| EmbeddedTable.StepSound | crates/euledb-storage/src/store.rs:1317-1419 | a write keeps the invariant wherever it stopped, and if it succeeds every column agrees and a second reconciliation changes nothing; what that says of each row is `TableLaws.WriteStores` |
| EmbeddedTable.RunSound | crates/euledb-storage/src/store.rs:1317-1419 | every reachable state keeps the invariant; what that says of each stored row is `TableLaws.StoredWasAdded` |
| EmbeddedTable.OneSuccessHeals | crates/euledb-storage/src/store.rs:1317-1419 | after any writes, finished or not, one that succeeds leaves every column in agreement with the live rows |
| TableLaws.WriteRows | crates/euledb-storage/src/store.rs:1317-1419 | after a write, live are the rows that were and are not gone, in their order, and behind them those added; without its audit entry it touches no embedding |
| TableLaws.WriteStores | crates/euledb-storage/src/store.rs:1012-1143 | after any writes and one that succeeds, each column stores for every row added, or live and not gone, the whole embedding of that row's own text in order, and nothing for any other id |
| TableLaws.StoredWasAdded | crates/euledb-storage/src/store.rs:1012-1143 | in every reachable state each id stored is that of a row that was added, with the whole embedding of that row's own text |
| TableLaws.ReconcileStops | crates/euledb-storage/src/store.rs:1149-1154 | reconciling takes the columns in order and stops at the first it cannot do: those before it agree, no other is touched, and the answer is that column's error or the end of the process |
| TableLaws.WriteStops | crates/euledb-storage/src/store.rs:1317-1419 | where any write stops after any others: without its audit entry before the first column, else at the first column it cannot do; the columns before it agree with the rows now live, no other is touched, and the answer says which it was |
| EmbeddedTable.WorkingEmbedderSucceeds | crates/euledb-storage/src/store.rs:1317-1419 | a write that is logged and not interrupted succeeds with a working embedder and a handle that may read, whatever came before |
| EmbeddedTableObject.Batch.PushReadsBack | crates/euledb-storage/src/store.rs:1108-1134 | an embedding of the checked width added to the flat value list reads back as itself and moves no other |
| EmbeddedTableObject.AddRows | crates/euledb-storage/src/store.rs:1078-1112 | the rebuilding loop writes each live row's kept or new embedding, or fails at the first that cannot be made |
| EmbeddedTableObject.AutoEmbeddingTable.ReadVectors | crates/euledb-storage/src/store.rs:558-617 | the stored vectors in row and chunk order |
| EmbeddedTableObject.AutoEmbeddingTable.ReconcileColumn | crates/euledb-storage/src/store.rs:1012-1143 | the companion table afterwards, and that a failure changes none |
| EmbeddedTableObject.AutoEmbeddingTable.ReconcileColumns | crates/euledb-storage/src/store.rs:1149-1154 | every column in turn, up to the first failure |
| EmbeddedTableObject.AutoEmbeddingTable.Write | crates/euledb-storage/src/store.rs:1317-1419 | the whole state after a write: commit, then audit entry, then reconciliation, as `TableLaws` describes it |
| Fusion.Contribute | crates/euledb-storage/src/fusion.rs:66-93 | walking a list credits each place: one hit a row, the sum of its places' worth, its last rank |
| Fusion.Fuse | crates/euledb-storage/src/fusion.rs:58-106 | the result is the first `limit` of a ranking of both lists, each row once, by score and then row |
| Fusion.ScoresSay | crates/euledb-storage/src/fusion.rs:66-93 | of lists without repeats, a hit's score is one over k and its rank, summed over the lists that hold it, and its ranks are its places there |
| Fusion.RankingUnique | crates/euledb-storage/src/fusion.rs:95-103 | two lists have one ranking |
| Fusion.BothBeatOne | crates/euledb-storage/src/fusion.rs:66-103 | a row at rank k+1 or better on both sides strictly outranks every row that one side found |
| Fusion.BoundIsTight | crates/euledb-storage/src/fusion.rs:66-103 | at rank k+2 on both sides it need not |
| Fusion.SwapKeepsOrder | crates/euledb-storage/src/fusion.rs:66-103 | exchanging the lists keeps rows, scores and order and exchanges the ranks |
| Corpus.FetcherEscapeIsCharwise | scripts/fetch-corpus.py:38-40 | the four whole-string replacements are one escape per character |
| Corpus.CollectPage | scripts/fetch-corpus.py:72-88 | one page adds a line for every document of at least 500 characters, in order |
| Corpus.StubsAreShort | scripts/fetch-corpus.py:72-88 | what is collected is exactly the documents of at least 500 characters, in order |
| Corpus.LineReads | crates/euledb-corpus/src/lib.rs:55-73 | a document whose id and language hold no separator reads back from its line |
| Corpus.LineFields | scripts/fetch-corpus.py:72-88 | the four fields of a line, in order, title and text escaped |
| Corpus.BodySays | scripts/fetch-corpus.py:101-103 | a file is its lines in order, each behind the ones before and with a newline behind it |
| Corpus.OthersSkipped | crates/euledb-corpus/src/lib.rs:55-73 | a line is read exactly if it has four fields, and any other is skipped wherever it stands |
| Corpus.CorpusReads | crates/euledb-corpus/src/lib.rs:131-136 | a written corpus parses to its documents if and only if no id or language holds a separator |

## Left out

- AES-GCM, SHA-256, HMAC, Argon2, zeroizing and constant-time comparison: only their interfaces appear.
- Failures of the random source, the file system, the file locks and the inner store's network; the order and
  size limits of an inner multipart upload's parts.
- Failures inside `rotate_data_key` and `change_passphrase` after fields have changed: the keyring is modelled
  where they succeed, and where the id space is exhausted before anything changes.
- `list_with_delimiter`, conditional options, attributes and timestamps of stored objects.
- ObjectStore.RunAgrees: a rotation that finds the id space exhausted changes nothing and is answered like one
  that succeeds, because the plain map has no keys to run out of.
- Tampering.OpensOnlySplices: for objects of one block size and of fewer than 2^64 bytes.
- AuditLog.AppendOutcome: says nothing of what follows a torn last line, which the code does not protect; a log
  that is not UTF-8 is not modelled.
- AuditLog.UndamagedLog: for the entries `AuditLog.SoundRun` admits, and up to 2^64 of them. Behind a record numbered
  2^64-1 the model's next number is 0, as in a build without overflow checks; a build with them stops there.
- AuditChain.RemovalReported: does not cover the last record, whose removal leaves a chain as sound as before.
- Fusion.Fuse: scores are exact numbers; the rounding of `f32` is not modelled.
- Fusion.BothBeatOne: for lists without repeats; with repeats one side can outweigh two places.
- Chunks.ChunksAccountForText: for token ends that ascend and lie between characters, as a tokenizer gives
  them; that a piece re-tokenizes to no more tokens than it was cut from is the tokenizer's affair.
- EmbeddedTable.WorkingEmbedderSucceeds: a handle that may write and not read, which fails once there is a companion
  table to read, is not modelled.
- EmbeddedTable.RunSound: runs end at `drop_table`, which leaves the companion table behind; a companion table
  that exists but cannot be opened is not modelled.
- The forward pass, its bucket choice, padding, mean pooling and normalising; how wide `hybrid_search` asks
  both sides before fusing.
- Lance, Arrow, full-text and vector indexes, predicates, capabilities, schemas, compression, measurement and
  configuration: libraries that cannot be seen, or checks that would add only easy members.
- The fetcher's page requests, retries and language loop, and the digest check of the reference corpus.
