# Flight Academy: keys, envelopes and the audit chain, modelled in Dafny

This project models three linked parts of the repository and proves what they promise over all inputs and all runs.

1. **Data-encryption keys.** `InMemoryKeyProvider` and `SqlKeyProvider` are the two implementations of the `KeyProvider` trait, as classes with mutable state. `KeyStore` says what each operation does to the table of wrapped keys and states the invariant they all keep; `KeyAnswers` says of each answer, from the rows alone, exactly when it is given. `DekTransactions` is the SQL provider again, one SQL statement at a time: any number of transactions interleave at READ COMMITTED, with row locks, unique checks that wait for or collide with other transactions' rows, aborts at any point and the cascade of a tenant deletion. `DekRefinement` and `DekSqlRuns` prove that every interleaving amounts to the in-memory operations in commit order, `DekSqlPairs` when an answer is not the in-memory one, `DekSqlCalls` that a call whose pair the others leave alone always answers as in memory, `DekSqlSealed` what becomes of sealed values, and `DekSqlExamples` gives two runs worth knowing.
2. **Envelopes.** `Envelope`, `Encrypted` and `MasterKek` are the byte formats and the associated data. A cipher is any pair of functions with the contract of section 2 of RFC 5116 (`Aead.Sound`); `Aead.Toy` meets it at the sizes of the shipped ciphers, and `DekExample` builds from it an instance of everything the theorems about keys assume. `DekRuns` joins them to the key lifecycle: what is sealed stays readable until its key version is shredded, and never after.
3. **The audit chain.** `Json` is the canonical form of RFC 8785 and proves that canonical objects are prefix-free, `AuditHash` is the hashed string, `JsonText`, `AuditText`, `RowText` and `PayloadText` say byte by byte what those texts are, with readers of their own (`Utf8` does the same for text, `DocumentText` is about objects listed by name, `PinnedText` is a document the repository's tests pin), `AuditChain` is verifying, ordering and extending one chain. `TenantWrites` is the database with any number of clients whose attempts begin, take a snapshot, and commit or meet SQLSTATE 40001; `TenantRuns`, `TenantHistory`, `TenantSerial`, `TenantAnswers` and `TenantReplay` are theorems about all its runs, `TenantCounterexamples` four runs to remember, and `TenantHandlers` the handlers and retry loops as programs. SHA-256 is any function with 32-byte results and is never taken to be injective: where two hashes agree, the theorems give equal rows or an explicit pair of rows on which the hash breaks.

Text (`str`) is its UTF-8 bytes. Random bytes, clock readings, the policy decision and what other clients do in between are arguments.

`dafny verify dfyconfig.toml` checks the whole project.

## Where the code does less than its comments say

- **Serializable does not order a chain.** `now()` is fixed at BEGIN and the snapshot is taken by the first query after it, so a writer can be overtaken in that gap, link to a row that sorts after its own and fork the chain, with no serialization conflict at all (`TenantCounterexamples.OvertakenWriterForks`). A chain is one line if and only if each of its rows sorts after all rows committed before it (`TenantRuns.LinearIffOrdered`); with a strictly increasing clock that is so whenever every snapshot is taken right at BEGIN (`TenantRuns.PromptRunsAreLinear`).
- **Changes do not always replay.** `patch_diff` compares with the row resolved before the transaction. A PATCH that asks for the value its caller resolved, when the row has another by now, writes the old value back and records no change (`TenantCounterexamples.StaleResolveBreaksReplay`). And reading goes by time and id, not by commit: a PATCH that another one overtakes between its BEGIN and its first query has the last word on the tenant, but its row stands first and the chain ends with the other's value, although nothing stale was written (`TenantCounterexamples.OvertakenPatchIsMisread`). Where only the handlers work on the tenant, the chain as read replays after every event if and only if for each PATCH and each field the rows it comes to stand in front of record last what its UPDATE leaves, or record nothing and no stale value is written back (`TenantReplay.AlwaysReadReplaysIff`). Where the rows come in order only the second half matters (`TenantReplay.AuditReplay`).
- **A PATCH can be recorded as somebody else's change.** The same comparison: a PATCH of the settings alone, after another caller has renamed the tenant, is recorded under its own actor as having changed the name (`TenantCounterexamples.RecordedUnderTheWrongActor`), and the replay stays right. A row records exactly what its own UPDATE changed if and only if the row that the UPDATE matched still had the name and settings resolved before (`TenantAnswers.RecordsOwnChangeIff`).
- **A waiting rotate can miss the new key.** A rotate that waits for another rotate's row is told `NoActiveDek` although an active key exists in every state from its BEGIN to its answer (`DekSqlExamples.RotateMissesTheNewActive`). It is told so if and only if another rotate of the same row was committed, or the tenant deleted, between its two looks at the row (`DekSqlPairs.RotateMisreportsIff`).
- **A generate that loses a race is not told `AlreadyActiveDek`.** The check before the INSERT is there so that callers see that error and not a unique violation. When another generate of the pair is committed between the check and the INSERT, the caller gets `Storage`; `DekSqlPairs.GenerateMisreportsIff` has the exact condition and `DekSqlExamples.StaleVersionStoppedByIndex` a run.
- **The default cipher need not be registered.** `default_cipher` says that construction guarantees it, but `for_test` takes any byte. The default resolves if and only if it is one of the three shipped ids or some cipher was registered under it (`Envelope.CipherRegistry.DefaultCipher`); with 0x7F it panics at first (`Envelope.DefaultAt7F`).
- **An empty previous hash hashes like none.** Only the column tells them apart (`AuditHash.EmptyPrevLooksLikeNone`).
- **An unfit pool role is louder than described.** `verify_pool_role` speaks of silent forks. With the policies of this schema the INSERT of a role subject to row-level security is refused; the silent form needs an INSERT policy that this schema does not have. `TenantRuns.UnfitRoleHasNoChain` covers both.

## Model

| member | source | states |
|---|---|---|
| InMemoryKeyProvider.NextVersionFor | crates/flight-academy-store/src/key_provider.rs:395-406 | the scan finds the greatest version of the pair, or that the pair has no row |
| InMemoryKeyProvider.FindActiveVersion | crates/flight-academy-store/src/key_provider.rs:411-424 | under the invariant the first active row met is the same for every iteration order |
| InMemoryKeyProvider.Provider.constructor | crates/flight-academy-store/src/key_provider.rs:375-380 | an empty provider keeps the invariant |
| InMemoryKeyProvider.Provider.GenerateDek | crates/flight-academy-store/src/key_provider.rs:428-465 | the map and the answer afterwards, every rejection included; after a success `active_dek_for` gives this key; the invariant is kept |
| InMemoryKeyProvider.Provider.ActiveDekFor | crates/flight-academy-store/src/key_provider.rs:467-488 | the greatest version of the pair, which is the active one, with the key in its row; `NoActiveDek` if and only if the pair has no row |
| InMemoryKeyProvider.Provider.DekAtVersion | crates/flight-academy-store/src/key_provider.rs:490-510 | the requested version's key, unwrapped, or `NoSuchDekVersion` |
| InMemoryKeyProvider.Provider.RotateDek | crates/flight-academy-store/src/key_provider.rs:512-559 | retires the top version and adds its successor, after which `active_dek_for` gives the new key under it, or changes nothing; the invariant is kept |
| InMemoryKeyProvider.Provider.ShredDek | crates/flight-academy-store/src/key_provider.rs:561-584 | succeeds if and only if the row is there and retired, and then takes away that row; `CannotShredActiveDek` if and only if it is active, `NoSuchDekVersion` if and only if it is not there; the invariant is kept |
| KeyStore.NextIsActivePlusOne | crates/flight-academy-db/src/dek_wrappings.rs:218-229 | a pair with any row has exactly one active row, it is the greatest, and `retired + 1` is `max + 1` whatever gaps shredding left |
| KeyStore.GenerateKeepsValid | crates/flight-academy-store/src/key_provider.rs:428-465 | a generate succeeds only on an empty pair, issues version 1, and leaves every other pair and every wrapped key alone |
| KeyStore.RotateKeepsValid | crates/flight-academy-store/src/key_provider.rs:512-559 | a rotate moves the top by one, adds one row, keeps every wrapped key and every other pair |
| KeyStore.ShredKeepsValid | crates/flight-academy-store/src/key_provider.rs:561-584 | a shred removes one row, the top stays the top, other pairs are untouched |
| KeyAnswers.ActiveIff | crates/flight-academy-store/src/key_provider.rs:467-488 | `active_dek_for` gives a key and a version if and only if the version is the pair's greatest and a read at it gives that key; its two errors have their exact conditions too |
| KeyAnswers.GenerateAnswers | crates/flight-academy-store/src/key_provider.rs:428-465 | when a generate succeeds and when it gives which error; then version 1 has one more row, no other row changes, and reads and writes both get the key |
| KeyAnswers.RotateAnswers | crates/flight-academy-store/src/key_provider.rs:512-559 | the same for a rotate with `t` on top: overflow, wrapping error, or both versions answered, `t` retired with its key as it was, `t + 1` added, and both lookups give the new key |
| KeyAnswers.ShredIff | crates/flight-academy-store/src/key_provider.rs:561-584 | each answer of a shred if and only if the row, whatever the controller and the version, is retired, active or not there |
| KeyAnswers.DekAtVersionIff | crates/flight-academy-store/src/key_provider.rs:490-510 | a read gives a key if and only if the row holds a wrapping of it under its own triple; `NoSuchDekVersion` if and only if there is no row |
| KeyStore.EraseTenant | crates/flight-academy-db/schema.sql:348-349 | deleting a tenant removes all and only its wrappings |
| KeyStore.EraseKeepsValid | crates/flight-academy-db/schema.sql:348-349 | and keeps the invariant |
| DekRuns.VersionConservation | crates/flight-academy-store/src/key_provider.rs:393-406 | over every run, live and shredded versions partition 1..n, n counts the successful generates and rotates, and the next version is n + 1: none is issued twice |
| DekRuns.SealedValuesOpen | crates/flight-academy-store/src/encrypted.rs:59-93 | over every run, a value sealed under the then-active key opens to its plaintext through peek, `dek_at_version` and `open` exactly as long as its version's row is there, else `NoSuchDekVersion` |
| DekRuns.GoneIsForever | crates/flight-academy-store/src/key_provider.rs:561-584 | shredded and erased versions never come back in any continuation |
| DekRuns.UnreadableForever | crates/flight-academy-store/src/key_provider.rs:302-303 | a value whose version is gone reports `NoSuchDekVersion` in every continuation |
| DekRuns.SealedUnderTop | crates/flight-academy-store/src/key_provider.rs:467-488 | over every run, what is sealed in it is sealed under the version on top at that moment |
| DekRuns.SealsIff | crates/flight-academy-store/src/encrypted.rs:59-79 | in every state a value is added if and only if the pair has a key on top that its row gives back and the cipher seals with it |
| DekRuns.RetiredCanBeShredded | crates/flight-academy-store/src/key_provider.rs:561-584 | after every run each live version but the top can be shredded, and `dek_at_version` refuses it from then on; the top cannot |
| Bytes.BigEndianValue | crates/flight-academy-store/src/aead/mod.rs:353-361 | the four bytes of a version, most significant first, stand for its number, both ways |
| Bytes.CastsLoseNothing | crates/flight-academy-db/src/dek_wrappings.rs:107-121 | the u32/i32 casts keep the 32 bits: they undo each other, agree modulo 2^32, and the top bit is the sign |
| DekTable.QueriesAgree | crates/flight-academy-db/src/dek_wrappings.rs:95-107 | the active-row query, `MAX`, and the in-memory lookups agree on every table the invariant allows |
| DekTable.DekAtVersionAgrees | crates/flight-academy-db/src/dek_wrappings.rs:160-186 | both providers answer alike for every u32; from 2^31 up both say `NoSuchDekVersion` |
| DekTable.ActiveDekForAgrees | crates/flight-academy-db/src/dek_wrappings.rs:133-158 | both providers resolve the same active key |
| DekTable.SqlActiveIff | crates/flight-academy-db/src/dek_wrappings.rs:133-158 | from the table a write gets the greatest version of the pair, which is the active one, and the key in its row |
| DekRefinement.RotateInsertNeverConflicts | crates/flight-academy-db/src/dek_wrappings.rs:198-248 | after its UPDATE a rotate's INSERT meets neither the primary key nor the active index |
| DekRefinement.NextKeepsInv | crates/flight-academy-db/src/dek_wrappings.rs:64-305 | every statement, abort and deletion keeps the table's invariant, the locks exclusive and each transaction's expectations true |
| DekRefinement.NeverDeadlocks | crates/flight-academy-db/src/dek_wrappings.rs:64-305 | under the invariant, as long as a call is unfinished some transaction can run its next statement: the locks of key calls never form a cycle among themselves |
| DekSqlRuns.StatementRefines | crates/flight-academy-db/src/dek_wrappings.rs:64-305 | a statement that answers Ok does to the table what the in-memory operation does at that moment with the same answer; every other statement leaves the table alone |
| DekSqlRuns.RejectionsAgree | crates/flight-academy-db/src/dek_wrappings.rs:64-305 | for every rejection there is, whether it is the in-memory one at that moment: a failing INSERT's `Storage` never is, a waiting rotate's `NoActiveDek` only when its tenant is gone, every other one is |
| DekSqlRuns.SqlRefinesMemory | crates/flight-academy-db/src/dek_wrappings.rs:64-305 | after any interleaving the table is the in-memory map after the committed calls in commit order |
| DekSqlRuns.AtMostOneActive | crates/flight-academy-db/schema.sql:271 | no interleaving commits two active rows of a pair, and the active one has the greatest version |
| DekSqlRuns.SqlVersionConservation | crates/flight-academy-db/src/dek_wrappings.rs:218-229 | under every interleaving the next version is one more than the number of calls answered with a version, and all up to it are live or shredded |
| DekSqlRuns.CommittedKeyIsActive | crates/flight-academy-db/src/dek_wrappings.rs:113-131 | a generate or rotate that is answered leaves a table from which a write gets its key, under the version answered |
| DekSqlPairs.PairStep | crates/flight-academy-db/src/dek_wrappings.rs:64-305 | all that any event does to a pair's active version: 1 by a generate where there was none, one up by a rotate, gone with the tenant, else nothing |
| DekSqlPairs.ActiveUnlessDeleted | crates/flight-academy-db/src/dek_wrappings.rs:198-203 | a pair with an active row has one in every state to come until its tenant is deleted: a rotate is atomic to everybody |
| DekSqlPairs.RotateMisreportsIff | crates/flight-academy-db/src/dek_wrappings.rs:205-216 | through any run of others between a rotate's two looks, it is told `NoActiveDek` if and only if it was overtaken or its tenant deleted, and rightly if and only if deleted |
| DekSqlPairs.GenerateMisreportsIff | crates/flight-academy-db/src/dek_wrappings.rs:75-93 | from the check to the INSERT through any run, the in-memory answer turns into `AlreadyActiveDek` if and only if another generate was committed and the tenant not deleted, and the caller is then told `Storage` or `Encrypt` |
| DekSqlPairs.NoVersionTwice | crates/flight-academy-db/src/dek_wrappings.rs:218-229 | under every interleaving no two calls on a pair are answered with the same version |
| DekSqlSealed.SqlSealedValuesOpen | crates/flight-academy-db/src/dek_wrappings.rs:160-186 | under every interleaving a value sealed with a key looked up in the table reads back from it exactly as long as its version's row is there, else `NoSuchDekVersion` |
| DekSqlSealed.SqlUnreadableForever | crates/flight-academy-db/src/dek_wrappings.rs:254-304 | once its row is gone, every interleaving that follows refuses it |
| DekSqlCalls.CallAmongOthers | crates/flight-academy-db/src/dek_wrappings.rs:64-305 | a call, among any number of others that run no statement on its pair, never waits, is answered within four statements, and comes to what the in-memory operation comes to on its pair |
| DekSqlCalls.CallAgreesIff | crates/flight-academy-db/src/dek_wrappings.rs:64-305 | and agrees with the in-memory provider if and only if its new row fits the columns (version below 2^31, record kind 1 to 64 characters) and the foreign key |
| DekSqlCalls.SoloCall | crates/flight-academy-db/src/dek_wrappings.rs:64-305 | with nobody else about, the run of its statements comes to exactly `Outcome` on the whole table |
| DekSqlExamples.RotateMissesTheNewActive | crates/flight-academy-db/src/dek_wrappings.rs:205-216 | a run of a waiting rotate, from its BEGIN, that is told `NoActiveDek` although every state of the run has an active row |
| DekSqlExamples.StaleVersionStoppedByIndex | crates/flight-academy-db/schema.sql:271 | a reachable state in which a version number read before it was issued and shredded by others is stopped by the active index alone |
| SqlKeyProvider.InsertActive | crates/flight-academy-db/src/dek_wrappings.rs:113-127 | the INSERT goes through if and only if CHECKs, primary key, active index and foreign key let it, and adds just that row |
| SqlKeyProvider.RetireActive | crates/flight-academy-db/src/dek_wrappings.rs:205-216 | the UPDATE retires the one active row and leaves none active |
| SqlKeyProvider.RotateOutcome | crates/flight-academy-db/src/dek_wrappings.rs:218-252 | `retired + 1` is free, fits below 2^32, and gives the in-memory rotate |
| SqlKeyProvider.Provider.constructor | crates/flight-academy-db/src/dek_wrappings.rs:45-47 | an empty table keeps the invariant |
| SqlKeyProvider.Provider.GenerateDek | crates/flight-academy-db/src/dek_wrappings.rs:64-131 | the table and the answer are the in-memory ones, or `Storage` and no change when the row does not fit; after a success `active_dek_for` gives this key |
| SqlKeyProvider.Provider.RotateDek | crates/flight-academy-db/src/dek_wrappings.rs:188-252 | the same for a rotate, with `retired + 1` for `max + 1` |
| SqlKeyProvider.Provider.ShredDek | crates/flight-academy-db/src/dek_wrappings.rs:254-304 | the same for a shred, through the cast of the requested version; the row alone decides the answer |
| SqlKeyProvider.Provider.ActiveDekFor | crates/flight-academy-db/src/dek_wrappings.rs:133-158 | the in-memory answer on the same rows, which is the greatest version and the key in its row; user controllers are refused |
| SqlKeyProvider.Provider.DekAtVersion | crates/flight-academy-db/src/dek_wrappings.rs:160-186 | the in-memory answer on the same rows for every u32 |
| SqlKeyProvider.Provider.DeleteTenant | crates/flight-academy-db/schema.sql:348-349 | removes all and only the tenant's wrappings and keeps the invariant |
| Aead.ToyIsSound | crates/flight-academy-store/src/aead/mod.rs:87-121 | the AEAD contract can be met, with the 32-byte keys and 16-byte tags of the shipped ciphers |
| DekExample.ToyEnvIsValid | crates/flight-academy-store/src/key_provider.rs:199-256 | the master key and registry the theorems about keys assume can be had |
| DekExample.ToyIsFresh | crates/flight-academy-db/src/dek_wrappings.rs:64-131 | so can what the runs of `DekSqlExamples` assume, for every pair whose record kind fits |
| DekExample.SealedReadShreddedRefused | crates/flight-academy-store/src/key_provider.rs:321-339 | a run in which a value is sealed, rotated past and read, and refused once its version is shredded |
| Envelope.CipherRegistry.constructor | crates/flight-academy-store/src/aead/mod.rs:134-165 | the registry holds the three ciphers under their own ids, with any byte as default; if they keep the AEAD contract it is one the envelope theorems hold for |
| Envelope.CipherRegistry.Register | crates/flight-academy-store/src/aead/mod.rs:167-169 | registering replaces one entry and keeps the registry in order |
| Envelope.CipherRegistry.DefaultCipher | crates/flight-academy-store/src/aead/mod.rs:182-189 | after any registrations the default resolves if and only if it is one of the three ids or some cipher was registered under it |
| Envelope.DefaultAt7F | crates/flight-academy-store/src/aead/mod.rs:156-165 | with default 0x7F the first resolution panics, and the one after a cipher is registered there finds it |
| Envelope.ParsePrint | crates/flight-academy-store/src/aead/mod.rs:215-313 | the reader gives back exactly what the writer put in, if and only if the id is no sentinel and the nonce 12 to 32 bytes long |
| Envelope.PrintParse | crates/flight-academy-store/src/aead/mod.rs:253-313 | any bytes that pass the header checks re-encode to themselves |
| Envelope.DecryptEncrypt | crates/flight-academy-store/src/aead/mod.rs:215-313 | decrypting an encryption gives the plaintext, whatever else is registered |
| Envelope.DecryptAcceptsExactlyEncryptions | crates/flight-academy-store/src/aead/mod.rs:253-313 | an envelope decrypts to a plaintext if and only if it is an encryption of it under the key its header asks for |
| Envelope.PeekDecidesTheKey | crates/flight-academy-store/src/aead/mod.rs:315-347 | decrypt asks only for the key at the version peek reports, and fails as peek fails where peek fails |
| Envelope.EncryptIs | crates/flight-academy-store/src/aead/mod.rs:206-251 | an envelope is seven header bytes (0x02, the cipher's id, the version most significant byte first, the nonce length), the nonce, and what the cipher makes of the plaintext with that header and the record authenticated |
| Envelope.DecryptIs | crates/flight-academy-store/src/aead/mod.rs:253-313 | on every byte string: which refusal comes first, which key is asked for, and which bytes are handed to the cipher |
| Envelope.PeekIs | crates/flight-academy-store/src/aead/mod.rs:315-347 | peeking looks at the length, the first byte and the version only |
| Envelope.ComposeAadInjective | crates/flight-academy-store/src/aead/mod.rs:350-361 | the associated data determines header and record |
| Encrypted.OpenIff | crates/flight-academy-store/src/encrypted.rs:84-93 | opening gives a text if and only if decrypting with the record's bytes gives it and it is UTF-8; otherwise the error is decrypt's, or `Decrypt` |
| Encrypted.OpensExactlyWhatWasSealed | crates/flight-academy-store/src/encrypted.rs:56-93 | a value opens as a text if and only if it is a sealing of that text under the same record |
| Encrypted.ToBytesIs | crates/flight-academy-store/src/encrypted.rs:33-45 | the bytes of a record are kind, colon, id, colon, column, and nothing else is |
| Utf8.Utf8Iff | crates/flight-academy-store/src/encrypted.rs:84-93 | the bytes taken for text are exactly the encodings of sequences of Unicode scalar values |
| Encrypted.AadRecordInjective | crates/flight-academy-store/src/encrypted.rs:33-45 | the record identity is unambiguous when kind and column have no separator |
| Encrypted.AadRecordUniqueIff | crates/flight-academy-store/src/encrypted.rs:33-45 | against all other records it is unambiguous if and only if no part has a separator |
| MasterKek.Master.UnwrapWrap | crates/flight-academy-store/src/key_provider.rs:202-255 | a wrapped key is 60 bytes and unwraps to itself under its own triple |
| MasterKek.Master.WrapLayout | crates/flight-academy-store/src/key_provider.rs:202-228 | the 60 bytes are the nonce and then what the cipher made |
| MasterKek.Master.UnwrapIff | crates/flight-academy-store/src/key_provider.rs:230-255 | unwrapping gives a key if and only if the bytes are a wrapping of it under the same triple; each error has its condition |
| MasterKek.WrapAadLayout | crates/flight-academy-store/src/key_provider.rs:185-197 | the wrap AAD byte by byte |
| MasterKek.WrapAadInjective | crates/flight-academy-store/src/key_provider.rs:185-197 | the wrap AAD determines controller, record kind and version for every record kind |
| MasterKek.WrapAadIsNotDataAad | crates/flight-academy-store/src/key_provider.rs:178-184 | no wrap AAD is a data AAD |
| Json.EmitSplit | crates/flight-academy-db/src/audit.rs:390-391 | a canonical value is determined by any text it begins, given what may follow a value |
| Json.ObjectSplit | crates/flight-academy-db/src/audit.rs:390-391 | canonical objects are prefix-free whatever follows |
| JsonText.EmitIs | crates/flight-academy-db/src/audit.rs:390-391 | the canonical text of every value: the three literals, quoted strings, items with commas, members sorted by key, no white space |
| JsonText.EscapeIs | crates/flight-academy-db/src/audit.rs:390-391 | what each byte of a string is written as: only the quote, the backslash and control characters are escaped, with their letter or two lower-case digits |
| JsonText.OrderIsUtf16 | crates/flight-academy-db/src/audit.rs:57-60 | members are sorted by the UTF-16 code units of their keys, although the writer compares bytes |
| AuditText.UuidTextIff | crates/flight-academy-db/src/audit.rs:62-71 | a reader of lower-case hexadecimal with hyphens after 8, 12, 16 and 20 digits gives the UUID back, and from no other text |
| AuditText.Rfc3339Iff | crates/flight-academy-db/src/audit.rs:378-380 | a text is that of a timestamp if and only if it reads as it: each field at its place, the fraction there only when not zero and without zeros at its end, `Z` |
| AuditText.PinnedTimestamps | crates/flight-academy-db/tests/audit_chain.rs:209-231 | the two timestamps pinned there have the bytes pinned there |
| PinnedText.PinnedDocumentIs | crates/flight-academy-db/tests/audit_chain.rs:234-260 | so does the document pinned there: nested object, array, literals, numbers and the order of members |
| RowText.HashedStringIs | crates/flight-academy-db/src/audit.rs:368-398 | the hashed bytes of every row: seven named members in this order, each id as its text or `null`, then the previous hash |
| PayloadText.UpdatePayloadIs | apps/api/src/handlers/tenants.rs:271-304 | the text of a recorded update: its action, and for exactly the fields that differ what they were and what they are |
| PayloadText.DeletePayloadIs | apps/api/src/handlers/tenants.rs:408-411 | the text of a recorded deletion: its action and its reason |
| AuditHash.Rfc3339Injective | crates/flight-academy-db/src/audit.rs:378-380 | the printed timestamp determines it to the microsecond |
| AuditHash.UuidTextInjective | crates/flight-academy-db/src/audit.rs:62-71 | the printed UUID determines it |
| AuditHash.CanonicalRowInjective | crates/flight-academy-db/src/audit.rs:62-71 | the canonical row determines all seven fields, absent ids included |
| AuditHash.HashedStringDetermines | crates/flight-academy-db/src/audit.rs:254-267 | the hashed string determines the row and the previous hash, first row and later row included |
| AuditHash.SameHash | crates/flight-academy-db/src/audit.rs:368-398 | equal hashes mean the same row or two different strings with one hash |
| AuditHash.EmptyPrevLooksLikeNone | crates/flight-academy-db/src/audit.rs:257-261 | an empty previous hash hashes like none |
| AuditChain.KeyOrder | crates/flight-academy-db/src/audit.rs:213-221 | rows are read by time, from the year down to the microsecond, and at the same time by the first byte in which their ids differ |
| AuditChain.FindCollision | crates/flight-academy-db/src/audit.rs:352-398 | walking two verifying chains back from equal tips finds colliding rows, or the chains are the same row by row |
| AuditChain.TamperEvidence | crates/flight-academy-db/src/audit.rs:352-398 | two chains that verify row by row and end in the same hash agree on every covered column, or two of their rows break the hash |
| AuditChain.HashesAreDistinct | crates/flight-academy-db/src/audit.rs:352-398 | no hash appears twice in a verifying chain unless two of its rows collide |
| AuditChain.BlindSpots | crates/flight-academy-db/src/audit.rs:10-14 | re-derivation does not see missing last rows or changed row ids |
| AuditChain.TipEndsTheChain | crates/flight-academy-db/src/audit.rs:213-221 | the row the tip query picks is where the chain in order ends |
| AuditChain.AppendKeepsLinear | crates/flight-academy-db/src/audit.rs:200-295 | a row that sorts after all others keeps the chain one line |
| AuditChain.AppendLinearIff | crates/flight-academy-db/src/audit.rs:200-295 | linked as the writer links it, a new row keeps the chain one line if and only if it sorts after all others |
| TenantWrites.CommitsAsIfAlone | crates/flight-academy-db/src/audit.rs:160-176 | whatever snapshot it read, a committed write does to the tenant row and says in its audit row what it would running alone at its COMMIT; its link, its answer and all agree too when the tip it read is still the tip |
| TenantSerial.RunsAreSerial | crates/flight-academy-db/src/audit.rs:178-192 | every interleaved run leaves the tenants and the contents of the audit rows of a serial run of its committed writes in commit order; the whole database, links included, if and only if every write read the tip that was there at its COMMIT |
| TenantSerial.WhenSerial | apps/api/src/handlers/tenants.rs:207-231 | PATCH and DELETE alone always are serial in commit order, links included, and so is every run whose rows come in order |
| TenantSerial.OthersLeaveNothing | apps/api/src/handlers/tenants.rs:263-269 | a call answered in any other way might as well not have been made: the same run without its events leaves the same database and the same answers to everybody else |
| TenantWrites.WritesAreWhole | apps/api/src/handlers/tenants.rs:233-287 | tenant row and audit row change together or not at all, from the state the transaction commits in; no other step of a call changes either |
| TenantRuns.ChainStep | crates/flight-academy-db/src/audit.rs:200-295 | a committed write appends one row, linked to the tip its snapshot held, to its own tenant's chain and to no other |
| TenantRuns.OrderedLinksToTip | crates/flight-academy-db/src/audit.rs:212-228 | a row that comes after all others is linked to the tip of its COMMIT, however old its snapshot |
| TenantRuns.ChainsAreLinear | crates/flight-academy-db/src/audit.rs:178-192 | under the ordering hypothesis and a fit role every interleaving over any number of tenants leaves each chain one line, and no two rows share a predecessor |
| TenantRuns.LinearIffOrdered | crates/flight-academy-db/src/audit.rs:212-228 | over whole runs a chain is one line if and only if its rows came in order |
| TenantRuns.UnfitRoleHasNoChain | crates/flight-academy-db/src/audit.rs:327-350 | on a role `verify_pool_role` refuses, a chain is one line only with at most one row, and with this schema's policies it has none |
| TenantRuns.PromptRunsAreLinear | crates/flight-academy-db/src/audit.rs:212-228 | with an increasing clock and the snapshot taken at BEGIN, rows always come in order |
| TenantHistory.Pairing | apps/api/src/handlers/tenants.rs:166-201 | after any run a chain has exactly one row for each call that was answered with a change, and none for any other |
| TenantHistory.RowsRecordWrites | apps/api/src/handlers/tenants.rs:271-283 | the rows are the committed writes in commit order: actor, time, tenant and payload |
| TenantHistory.OneWritePerCall | apps/api/src/handlers/tenants.rs:207-231 | a call contributes its one committed attempt when answered with a change, and nothing otherwise |
| TenantHistory.RetriesAreBounded | apps/api/src/handlers/tenants.rs:207-231 | over any run at most three attempts begin, all but the last met 40001, and 40001 reaches the caller only after three |
| TenantHistory.SoftDeleteIsFinal | apps/api/src/handlers/tenants.rs:384-419 | at most one call is told it deleted the tenant; there is a `tenant.delete` row exactly then, one, and last in commit order, so no update commits after it |
| TenantHistory.DeletedStays | crates/flight-academy-db/schema.sql:177 | nothing brings a deleted tenant back and no UPDATE matches it again |
| TenantHistory.DeletedByWhom | apps/api/src/handlers/tenants.rs:384-406 | a tenant no other program deleted is deleted only if a handler call was told so |
| TenantAnswers.UpdatedIsRecorded | apps/api/src/handlers/tenants.rs:194-200 | 200: the row shown has what was asked for and the slug and type resolved, and the chain has the caller's row, recording what differs between the row it had resolved and the row it is shown |
| TenantAnswers.RecordsOwnChangeIff | apps/api/src/handlers/tenants.rs:271-283 | over every run the row a PATCH leaves records exactly the change its own UPDATE made if and only if the name and settings its caller had resolved were still there at its commit |
| TenantAnswers.GoneMeansDeleted | apps/api/src/handlers/tenants.rs:187-199 | 404 of a resolved tenant, and 204 matched or not: the tenant is deleted, and the last row committed to a chain fed by the handlers is its one `tenant.delete` row |
| TenantAnswers.RemovedIsRecorded | apps/api/src/handlers/tenants.rs:408-422 | the call that deleted the tenant has its reason in the chain, and it is the one in the tenant's row |
| TenantAnswers.RunKeeps | crates/flight-academy-db/schema.sql:177 | no run undoes a deletion, takes a tenant row away, changes a slug or a tenant type, or touches the row of a deleted tenant |
| TenantAnswers.WriteLeavesRow | apps/api/src/handlers/tenants.rs:233-287 | what each committed write leaves of the tenants: a PATCH its row with what was asked for and every other column as it was, a DELETE its row with its reason and every other column as it was, no other row |
| TenantAnswers.StoredReasonIsRecorded | apps/api/src/handlers/tenants.rs:384-411 | over every run, the stored reason of a tenant that no other program deleted is the one in its `tenant.delete` row |
| Tenants.PatchedIff | apps/api/src/handlers/tenants.rs:249-256 | the UPDATE makes of a row exactly the row with the requested fields as requested and id, slug, type and the other field as they were |
| Tenants.WhiteIff | apps/api/src/handlers/tenants.rs:344-351 | the characters trimmed are the 25 with the Unicode property `White_Space` |
| Utf8.CharCountCounts | apps/api/src/handlers/tenants.rs:173-183 | the length checked is the number of characters |
| Tenants.TrimStrips | apps/api/src/handlers/tenants.rs:344-351 | trimming takes all white space off both ends of a reason and nothing else |
| Tenants.UpdatePayloadReads | apps/api/src/handlers/tenants.rs:271-275 | a recorded update has a change for exactly the fields that differ, with the new value |
| Tenants.DeletePayloadReads | apps/api/src/handlers/tenants.rs:408-411 | a recorded deletion carries its reason |
| Tenants.DiffReplaysIff | apps/api/src/handlers/tenants.rs:289-304 | the recorded changes turn the row into what the UPDATE made of it if and only if no stale value was written back |
| Tenants.DiffIsOwnIff | apps/api/src/handlers/tenants.rs:289-304 | the diffs against the resolved row and against the row updated are the same if and only if the two have the same name and settings |
| TenantReplay.ReplayStepIff | apps/api/src/handlers/tenants.rs:233-287 | one event keeps the replay in commit order exact if and only if it is not a PATCH writing back a stale value |
| TenantReplay.AlwaysReplaysIff | apps/api/src/handlers/tenants.rs:166-171 | the replay in commit order, which no column of a row tells, is exact after every event of a run if and only if no PATCH ever does |
| Tenants.PatchReadsIff | apps/api/src/handlers/tenants.rs:271-304 | with its payload in between other rows the fold gives what the UPDATE left if and only if, field by field, later rows record just that last, or nothing and no stale value was written back |
| TenantReplay.ReadStepIff | crates/flight-academy-db/src/audit.rs:212-228 | one event keeps the replay of the chain as read, by time and id, exact if and only if it is not a PATCH that fails this against the rows it comes to stand in front of |
| TenantReplay.AlwaysReadReplaysIff | crates/flight-academy-db/src/audit.rs:212-228 | over whole runs the chain as read replays to the tenant's name and settings after every event if and only if no PATCH does |
| AuditChain.AfterInOrder | crates/flight-academy-db/src/audit.rs:213-221 | the rows a new row comes to stand in front of are exactly those with a later time and id |
| TenantReplay.AuditReplay | apps/api/src/handlers/tenants.rs:166-171 | where the rows come in order, the chain as read replays after every event if and only if no PATCH writes back a stale value; so at the end reading it in order gives the current name and settings |
| TenantReplay.FreshIsNotStale | apps/api/src/handlers/tenants.rs:154-195 | a PATCH whose caller resolved the row it updates is never stale |
| TenantCounterexamples.OvertakenWriterForks | crates/flight-academy-db/src/audit.rs:31-38 | a run of three writers, serial in their commits, in which two rows share a predecessor |
| TenantCounterexamples.StaleResolveBreaksReplay | apps/api/src/handlers/tenants.rs:271-275 | a run of two PATCHes in order whose chain, as committed and as read, replays to a name the tenant does not have |
| TenantCounterexamples.OvertakenPatchIsMisread | crates/flight-academy-db/src/audit.rs:212-228 | a run of two PATCHes, neither stale, whose chain as read ends with a name the tenant no longer has, though in commit order it replays |
| TenantCounterexamples.RecordedUnderTheWrongActor | apps/api/src/handlers/tenants.rs:271-275 | a run of two PATCHes in which the one that says nothing about the name is recorded as having changed it, and the replay is right |
| TenantHandlers.RetryContract | apps/api/src/handlers/tenants.rs:207-231 | for every sequence of outcomes and all foreign commits: three attempts at most, only 40001 retried, the last attempt's effect or none |
| TenantHandlers.AnswerMeans | apps/api/src/handlers/tenants.rs:187-231 | what each answer of the loop says of the tenant row and the audit rows, under all foreign commits that undo no deletion |
| TenantHandlers.AttemptAnswers | apps/api/src/handlers/tenants.rs:233-287 | an attempt that reaches COMMIT: exactly when it finds nothing, goes round again, is refused with which error, or has its effect |
| TenantHandlers.FitIff | crates/flight-academy-db/src/audit.rs:327-350 | with this schema's policies a role is fit if and only if it can append, and that is INSERT, SELECT and the bypass |
| TenantHandlers.WriterMeans | crates/flight-academy-db/src/audit.rs:101-137 | the standalone writer's answers: Ok leaves its one row, linked, and no other change; an error nothing |
| TenantHandlers.AttemptIsPartOfARun | apps/api/src/handlers/tenants.rs:233-287 | the handlers' attempts are what calls do in the runs above |
| TenantHandlers.DiffTenants | apps/api/src/handlers/tenants.rs:289-304 | the map has a member for exactly the fields that differ, and applying it to the row before gives the row after |
| TenantHandlers.Database.WriteTenantAuditEventInTx | crates/flight-academy-db/src/audit.rs:200-295 | exactly when it is refused; its row carries the hash of the chain's last row in order and makes the line one longer |
| TenantHandlers.Database.TryTenantPatchOnce | apps/api/src/handlers/tenants.rs:233-287 | one attempt's effect and answer are the run's step: if it succeeds, the row found at COMMIT with what was asked for and every other column as it was, and one audit row; else nothing |
| TenantHandlers.Database.TryTenantDeleteOnce | apps/api/src/handlers/tenants.rs:373-423 | the same for a delete: the row found with the reason given and every other column as it was; whether it matched does not change the caller's answer |
| TenantHandlers.Database.TryWriteTenantAuditEvent | crates/flight-academy-db/src/audit.rs:160-176 | the same for the standalone writer |
| TenantHandlers.Database.RetrySerializable | apps/api/src/handlers/tenants.rs:207-231 | the loop ends with the answer and the database of `Retried`, and its trailing `unreachable!` is never reached |
| TenantHandlers.Database.WriteTenantAuditEvent | crates/flight-academy-db/src/audit.rs:101-137 | the standalone writer's loop, the same way |
| TenantHandlers.Database.TenantPatch | apps/api/src/handlers/tenants.rs:148-201 | every answer of PATCH and what it means: 400, 403 and the no-op touch nothing; 200 leaves the row shown, which is the one found with what was asked for and nothing else changed, and one audit row; 404 after resolving means deleted; 500 leaves nothing |
| TenantHandlers.Database.TenantDelete | apps/api/src/handlers/tenants.rs:326-371 | every answer of DELETE and what it means: 204 means deleted, by this call with its trimmed reason in the row and one audit row, or before it with none; 500 leaves nothing |

## Left out

- SqlKeyProvider.Provider.GenerateDek: the class runs one call at a time; calls that interleave statement by statement are in `DekTransactions`, where a call is a value with a program counter because Dafny methods do not interleave.
- SqlKeyProvider.Provider.RotateDek: likewise one call at a time; the wait for another rotate's row is in `DekTransactions`.
- TenantHandlers.Database.RetrySerializable: also stands for the loop of `write_tenant_audit_event`, which has the same shape, bound and error code.
- AuditChain.TamperEvidence: says nothing about a chain whose last rows were removed; without a remembered tip re-derivation does not see that.
- Cipher internals, SHA-256, the system's random source and zeroization: abstract functions and arguments.
- RFC 8785 number formatting: a number is the token it is written as.
- `jsonb` renormalising numbers on the way in and out, and its refusal of NUL characters: a stored payload is the value that was hashed.
- Leap-second and calendar checks of timestamps: any day 1 to 31 is allowed, which only widens the theorems.
- Serialization conflicts among three or more transactions, and the server's false positives: COMMIT refuses the pairs of writers that could not have run one after the other (`TenantWrites.Cycle`), and any attempt may meet 40001 besides, so the model has all runs the server has and more.
- Partitions of `audit_events`: a row outside the existing months is one of the other errors an attempt may meet.
- The immutability triggers of `audit_events`, and the `updated_at` trigger, `created_at` and `retired_at` columns: no modelled statement depends on them.
- A table owner without the bypass attribute: row-level security would not apply to it, but `verify_pool_role` refuses it and the model treats it like any refused role.
- Connection errors with unknown commit status: every attempt either commits or does not, and its caller knows which.
- Hard deletion of a tenant row beside the audit chain: modelled for the wrappings only; `TenantWrites` has soft deletion.
- Slug uniqueness and reuse: a call starts with the live row its slug resolved to.
- DekRefinement.NeverDeadlocks: is about key calls among themselves. The deletion of a tenant waits for all transactions that hold its rows and then happens in one step; in PostgreSQL it takes the tenant's row first and its cascade waits with that row in hand, so that it and a rotate between its two statements can wait for each other until the server aborts one.
- Tenant ids are random, so an erased id is not created again.
- Lock poisoning after the `u32` overflow panic of the in-memory provider: the call is modelled as an error that leaves the map alone.
- `wrap_algo_id` and `kek_id`: constants in every row.
- `EncryptedJson`: `EncryptedString` with a JSON printer in front.
- HTTP routing, headers, the ABAC policies (their decision is an argument), command line, views, master key files and the environment lookup for the default cipher.
