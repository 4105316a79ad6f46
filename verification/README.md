# KDNA, verified

A Dafny model of the parts of KDNA that have to be right: the Read disclosure boundary of the Python SDK, key
wrapping, protected entries and external key grants, archives and checksums, strict and canonical JSON, the content
digest and its signature, version precedence, publication to the registry, and the reader of Swift package manifests.
Every module states what one part of the system computes and proves what the system promises of it. `dafny verify
dfyconfig.toml` checks all of it.

## What is modelled

**The Read boundary.** A Host has a table of expansion handles and a set of denials, and shares a counter with all
other Hosts. A read is admitted, observes the Host, projects and filters a body, observes again, filters again,
measures itself into a byte budget, is delivered, and only then registers its handles. Between two points where it
waits nothing else runs, so a system is a set of calls, each in a phase, and a run is any sequence of such steps of
any number of calls: observations and deliveries answer when and how they like, and other Hosts move the counter.
`ReadValues` and `ReadBudget` have canonical sizes and the budget, `ReadAdmission` the request checks,
`ReadProjection` bodies and scopes, `ReadHost` observations and denials, `ReadCalls` the phases (as functions, and as
methods of a class over the shared tables that are proved to compute them), `ReadRuns` the invariant of every
interleaving, and `ReadGuarantees` what follows for whole runs. `ReadBodies` says exactly what a ready body holds of
its snapshot, `ReadAnswers` exactly when a call goes on at each of its waits, `ReadCodes` and `ReadDiagnostics` what
its error codes and diagnostics mean, and `ReadTexts` what its identifiers, digests and sizes are as strings of
characters.

**Bytes and keys.** `KeyWrap` is AES-256 key wrap with its buffer views and their aliasing, `ProtectedEntry` the
password and recovery slots and recovery codes, `ExternalGrant` envelope, grant, authorization, decryption and
disposal, and `Bindings` which of them share their associated data. Ciphers, hashes, key agreement and signatures are
functions of which only laws of correctness are assumed (a decryption undoes its encryption, agreement commutes, a
signature verifies). Where a lemma says what is refused, it assumes the converse as well: nothing verifies but what
the owner of a key signed, and nothing opens but what was sealed. Each set of laws can be met, these included
(`KeyWrap.BlockCipher.SomeCipher`, `ExternalGrant.LawsCanBeMet`, `ProtectedEntry.LawsCanBeMet`,
`Signature.LawsCanBeMet`, `TarWriter.AsciiHost`). `GrantChecks` and `EntryChecks` say exactly what is created,
authorized, encrypted and decrypted. `Crc32` and `Zip` are the stored-archive writer and the repository's own reader
of it, `ZipReads` and `ZipIndexes` say which bytes that reader takes for which entries, and `CrcVectors` has the
polynomial and known checksums. `Tar` is the release tarball parser and `TarWriter` a writer for it; `TarArchives`
says exactly which archives are accepted, and `TarPaths` which paths.

**Texts.** `JsonParser` is the duplicate-safe parser, `JsonGrammar` the grammar that it accepts, `JsonPrinter`
canonical JSON by RFC 8785, and `JsonRoundTrip` relates them; `JsonSpellings` has what the printer's escapes are among
all that the grammar allows. `StableJson` (with `StableSpellings`) is `stableStringify`, over values whose objects
list their members in the order they came. A text is a sequence of UTF-16 code units. `SemVer` has the two version
comparisons, `SemVerTexts` the texts that are versions, `SwiftTokens`, `SwiftLexer` and `SwiftDependencies` the
splitter, lexer and manifest reader; `SwiftSources` and `SwiftManifests` say exactly which sources they read, and as
what.

**Assets and releases.** `ContentDigest` and `Signature` are the canonical digest and its Ed25519 bundle; of
`JSON.parse` they assume that it reads what the grammar of JSON spells as what it means (`ContentDigest.ReadingHost`
is such a host). `CountedEntries` says which entries count as what, `SignatureTexts` how a bundle is written, and
`DigestConfusion` is about contents that share their digest. `Publication` is any number of release runs, retries and
crashes against a registry that never overwrites a version, together with other publishers and retagging;
`PublicationRuns` has what an upload needs and that a free version is published, `RegistryTexts` the registry's
answers, tags and versions.

Methods have the loops, the fields and the arrays that the code has; each is proved against a function, and the
properties are proved of that function. Python and JavaScript exceptions are results.

## Where the code falls short

Lemmas give the exact condition, or a concrete input.

- `aesUnwrap` XORs 24 into byte 7 of the caller's ciphertext, because its first register is a view of that buffer. A second
  unwrap of the same buffer never gives the same key (`KeyWrap.SecondUnwrapDiffers`).
- A grant between the end of its offline grace and its expiry is accepted neither online nor offline
  (`ExternalGrant.WindowIsExact`).
- An empty plaintext can be encrypted but not opened again: external envelopes fail their schema
  (`ExternalGrant.EnvelopeOf`), protected entries their check for missing fields (`ProtectedEntry.EntryOpensWithEither`).
- The content digest joins names and hashes with line breaks. Any two or more entries that count have the digest of a
  single one, under a name that has line breaks (`DigestConfusion.MergedHasTheDigest`), so that a signature of the ones
  verifies for the other (`Signature.MergedAssetVerifies`). Contents have a digest of their own, collisions apart,
  exactly when they have no entry, or one whose name does not hold another (`DigestConfusion.ConfusableExactly`). Two
  assets that both have no line breaks in their names are told apart (`ContentDigest.DigestTellsApart`).
- Associated data join their fields with line breaks, too. A binding of a grant has the same as another exactly when a
  field has a line break with text before it and a field behind it, or with text behind it and a field before it
  (`Bindings.BindingIsSharedExactly`; `Bindings.EntryIsSharedExactly` for protected entries, whose fields may be empty).
  Without a line break in its own fields it shares them with no other at all (`Bindings.CleanBindingsAreDistinct`).
- Writing the content digest into the authoring record changes the digest when there was no such object before
  (`ContentDigest.AuthoringDigestDoesNotCount`).
- The PAX parser assigns to a plain object, so a record with the key `__proto__` is dropped, and is not seen as unsupported
  or duplicate either (`TarWriter.RecordIsKept`).
- Header numbers of a tarball lose the high bit of each byte, and are cut at a NUL only if no line end follows it
  (`Tar.OctalNumbersAre` for exactly what is read, `Tar.HighBitIsLost` and `Tar.LineEndKeepsNul` for inputs).
- The path check of a tarball decodes a path without its byte order mark, so that the limit of 255 bytes for a segment is
  one of 258 for a first segment with a mark (`TarPaths.MarkIsNotCounted`; `TarPaths.GoodPathsAre` for exactly which paths
  are accepted).
- `splitArguments` looks brackets up in a plain object, so identifiers such as `constructor` make it throw
  (`SwiftTokens.ConstructorIsNotSplit`; `SwiftTokens.SplitsExactlyBalanced` for exactly which lists are split).
- The loader comparison ignores prereleases, which the SemVer comparison does not (`SemVer.ComparisonsAgreeExactly`).
- A comment says that `verifySignatureBundle` takes a parsed bundle. The code parses what it is given, so it takes bytes;
  the model does too.

## Model

| member | source | states |
|---|---|---|
| `ReadGuarantees.TableHoldsConfirmedHandles` | python-sdk/kdna/read.py:401-495 | In every state of every interleaving, a handle is in the table if and only if it was issued by a ready envelope whose delivery was confirmed, and each entry lies under its own id |
| `ReadGuarantees.HandleIdsAreUnique` | python-sdk/kdna/read.py:457-462 | No two handles of ready envelopes, of one call or of two concurrent ones, have the same id, whether or not they were confirmed |
| `ReadGuarantees.HandlesAreNeverReplaced` | python-sdk/kdna/read.py:470-472 | What is in the handle table stays there, unchanged, in every later state |
| `ReadGuarantees.ExpansionIsOfAnIssuedHandle` | python-sdk/kdna/read.py:246-259 | An expand read that becomes ready used a handle equal to a table entry, of this snapshot, asset and selection; both observations allowed it, were of its host and epoch and fell within its lifetime; the closure that was disclosed has exactly the handle's scope |
| `ReadGuarantees.ReadyBodyIsInBothScopes` | python-sdk/kdna/read.py:442-456 | A ready body is the projection cut once to the intersection of the two observed scopes; closure, declarations, catalog, claims, reference ends and omission targets lie in both; the reported confirmation is that of the claims left |
| `ReadBodies.ReadyBodyHoldsExactly` | python-sdk/kdna/read.py:442-456 | In every state of every run a ready body holds exactly what the snapshot has for the request in both scopes: of declarations, catalog, references, relationships and claims the sublist that is wanted, in order; as closure the nodes of the first mandatory closure of the selection (or of the first matching target, or none), in its order; the fields that the first declaration lacks; and an omission for each judgment and declaration left out |
| `ReadBodies.ScopedHolds` | python-sdk/kdna/read.py:262-295 | So it is for a projection cut to any one scope: what is in the scope stays, whatever else of its list does not |
| `ReadAnswers.BeginsExactly` | python-sdk/kdna/read.py:401-438 | A call waits for its first observation if and only if candidate, control, snapshot, Host and handle allow it, each stated on its own; until then no table changes |
| `ReadAnswers.ObservesExactly` | python-sdk/kdna/read.py:314-353 | An observation lets a call go on if and only if it is about this Host, asset and snapshot, is timely, decides to allow, is not revoked and meets no recorded denial it does not lift |
| `ReadAnswers.ConfirmsExactly` | python-sdk/kdna/read.py:438-448 | A call goes on from its first observation if and only if that lets it, the snapshot has a body for it, and the scope covers its closure; the body then holds exactly what is in the scope |
| `ReadAnswers.ReadiesExactly` | python-sdk/kdna/read.py:448-466 | It becomes ready if and only if the second observation lets it and covers the closure as well, and the envelope fits |
| `ReadAnswers.ReadyWasLet` | python-sdk/kdna/read.py:401-466 | In every run, a ready call began with a candidate of its request and a snapshot that goes with it, and was let go on by two later observations, one after the other |
| `ReadAnswers.HandlesExactly` | python-sdk/kdna/read.py:457-462 | What a ready exact read has minted: a handle for each target of its selection in the second scope, in the order of the snapshot, with these fields, numbered one after the other; other reads mint none |
| `ReadCodes.ProjectionCodes` | python-sdk/kdna/read.py:220-245 | Which code a request gets for its version tuple, asset, asset version and selection |
| `ReadCodes.HandleCodes` | python-sdk/kdna/read.py:246-259 | Which code an expansion gets for a handle of other versions, another snapshot, another asset or another scope |
| `ReadCodes.EarlyCodes` | python-sdk/kdna/read.py:424-438 | Which of them comes first, before any observation |
| `ReadCodes.ObservationCodes` | python-sdk/kdna/read.py:314-353 | Which code an observation gives that does not let a call go on |
| `ReadGuarantees.DenialsStep` | python-sdk/kdna/read.py:346-352 | One step of any call: a denying observation records the denial, only a lifting one removes it, and no call becomes ready on a host, epoch and asset that is denied after the step |
| `ReadGuarantees.DenialsStick` | python-sdk/kdna/read.py:314-353 | Over any run, from a denial (or its record) on, the denial stays recorded and no call whose second observation comes later becomes ready, until a valid observation lifts it with decision allow and not revoked |
| `ReadGuarantees.HandleLifetime` | python-sdk/kdna/read.py:462 | A handle's lifetime is positive, at most 3600000 ms, starts at the second observation and ends no later than it; its scope lies in the scope observed |
| `ReadGuarantees.HandleIsProper` | python-sdk/kdna/read.py:156-181 | A minted handle meets every field check of admission if and only if the number in its id has at most 203 digits, as every counter below 10^203 does |
| `ReadGuarantees.ConfirmedHandleIsAccepted` | python-sdk/kdna/read.py:424-438 | In any reachable state, a request to expand a confirmed handle on its live snapshot passes admission, projection checks and the table check, and waits for its first observation, if and only if its number has at most 203 digits |
| `ReadGuarantees.PermittedExpansionIsReady` | python-sdk/kdna/read.py:438-466 | When both observations permit it and cover the handle's scope, the expansion of a confirmed handle becomes ready, whatever other calls do in between, if and only if its envelope fits the budget |
| `ReadGuarantees.WrittenEnvelopeIsReady` | python-sdk/kdna/read.py:387-398 | An envelope that can be written at all fits exactly when its size is within the budget |
| `ReadGuarantees.EnvelopesStateTheirSizes` | python-sdk/kdna/read.py:387-398 | Every envelope that is prepared or delivered in a run, ready or rejected, states its own size, which is within its limit |
| `ReadGuarantees.ObservationOfHandle` | python-sdk/kdna/read.py:336-345 | A trusted observation lets an expansion go on if and only if host and epoch are the handle's and the time is in [issued_at, expires_at) |
| `ReadRuns.StepKeeps` | python-sdk/kdna/read.py:401-495 | The invariant of the shared tables and of all suspended calls is kept by every step between two awaits, and no step removes or changes a table entry |
| `ReadRuns.RunHolds` | python-sdk/kdna/read.py:401-495 | Hence it holds in every state of every run |
| `ReadRuns.HandleNamesAreDistinct` | python-sdk/kdna/read.py:462 | A handle id determines its snapshot id, colons inside it notwithstanding, and its number |
| `ReadRuns.EnteredAdds` | python-sdk/kdna/read.py:470-472 | Registering new handles adds exactly those |
| `ReadCalls.TrustedHost.Observe` | python-sdk/kdna/read.py:314-353 | The method updates the denials and answers as the specification of an observation says, and touches nothing else |
| `ReadCalls.TrustedHost.Mint` | python-sdk/kdna/read.py:457-462 | The loop mints the specified handles and moves the counter by as many |
| `ReadCalls.TrustedHost.Enter` | python-sdk/kdna/read.py:470-472 | The loop enters the handles in order into the table, and nothing else changes |
| `ReadCalls.TrustedHost.Dispatch` | python-sdk/kdna/read.py:478-495 | What a prepared answer leads to: delivery, or an end without one |
| `ReadCalls.TrustedHost.Begin` | python-sdk/kdna/read.py:401-442 | From the call to the first await: the new state and phase of the call |
| `ReadCalls.TrustedHost.First` | python-sdk/kdna/read.py:438-448 | From the first observation to the second |
| `ReadCalls.TrustedHost.Second` | python-sdk/kdna/read.py:448-466 | From the second observation to delivery |
| `ReadCalls.TrustedHost.Compose` | python-sdk/kdna/read.py:455-466 | The ready answer, its receipt number behind those of its handles |
| `ReadCalls.TrustedHost.Delivery` | python-sdk/kdna/read.py:467-475 | Handles are registered when delivery was confirmed, and only then |
| `ReadHost.DenialKeysAreDistinct` | python-sdk/kdna/read.py:346 | The canonical JSON under which a denial is kept tells host, epoch and asset apart |
| `ReadProjection.Projection.Scope` | python-sdk/kdna/read.py:356-369 | The in-place filter yields the body cut to the scope, or leaves the body as it was when the closure is not covered |
| `ReadProjection.ScopedIsInScope` | python-sdk/kdna/read.py:356-369 | One filter pass leaves only what is in the scope, takes nothing away from a body that is in scope, and keeps the confirmation in step with the claims |
| `ReadProjection.TwoScopesAreOne` | python-sdk/kdna/read.py:442-454 | Two passes succeed together exactly when one pass with the intersection does, and then yield the same body, confirmation included |
| `ReadProjection.ProjectedReportsClaims` | python-sdk/kdna/read.py:287-294 | A projected body reports a claim as its confirmation exactly when it has one |
| `ReadBudget.Envelope.Measure` | python-sdk/kdna/read.py:376-384 | The in-place measurement returns the size of the envelope and fills in its counts; it raises exactly when a count or a text cannot be written |
| `ReadBudget.CountsKeepTheSize` | python-sdk/kdna/read.py:376-384 | Whatever sixteen-digit counts are filled in, the size is the same |
| `ReadBudget.MeasuredStatesItsSize` | python-sdk/kdna/read.py:376-384 | After measuring, `actual_bytes` is the size of the very envelope it stands in, and `required_bytes` the size asked for |
| `ReadBudget.Finish` | python-sdk/kdna/read.py:387-398 | The answer is the specified one for every status, code and limit |
| `ReadBudget.AnswerStatesItsSize` | python-sdk/kdna/read.py:387-398 | Any envelope that is returned states its own size, which is within the limit |
| `ReadBudget.ReadyAnswer` | python-sdk/kdna/read.py:387-398 | A ready envelope is returned exactly when it fits; a budget rejection reports as `required_bytes` the exact size of the envelope that did not |
| `ReadBudget.RespondToInvalid` | python-sdk/kdna/read.py:208-214 | An admission rejection states its own size and is within the limit; it is withheld only when no such rejection fits |
| `ReadBudget.AdmissionCountKeepsTheSize` | python-sdk/kdna/read.py:209-211 | Filling in the count of an admission rejection does not change its size |
| `ReadValues.Fixed` | python-sdk/kdna/read.py:62-65 | Sixteen digits, with the value of any safe integer |
| `ReadValues.SizeOfMember` | python-sdk/kdna/read.py:58-59 | Replacing a member by one of the same size keeps the size of an object's canonical JSON |
| `ReadAdmission.AdmitsExactlyProperRequests` | python-sdk/kdna/read.py:101-183 | A candidate is admitted with a request if and only if the request is well formed and the candidate is exactly its JSON: nothing is dropped and nothing is added |
| `ReadAdmission.HandleChecked` | python-sdk/kdna/read.py:156-181 | The sixteen handle checks pass if and only if the value is exactly the JSON of a well-formed handle |
| `ReadAdmission.ShapeChecked` | python-sdk/kdna/read.py:141-157 | Mode, selection and handle go together in exactly four ways |
| `ReadAdmission.OpeningChecked` | python-sdk/kdna/read.py:124-140 | What the checks before the mode accept, for the supported tuple |
| `ReadAdmission.Keys` | python-sdk/kdna/read.py:104-111 | Passes exactly for an object that has all required members and none that is not allowed |
| `ReadDiagnostics.DiagnosticsAreTrue` | python-sdk/kdna/read.py:101-183 | Every diagnostic of a rejected candidate is true of it: at the named place a member is missing, unknown, of another type than is wanted there, no identifier, no safe integer, negative, or does not go with the mode |
| `ReadDiagnostics.VersionRejectionsAre` | python-sdk/kdna/read.py:137-140 | Another tuple is called mixed if and only if a version in it, other than that of the payload profile, is the supported one |
| `ReadTexts.IdentifiersAre` | python-sdk/kdna/core/_values.py:17-29 | An identifier is the UTF-16 form of a string of Unicode characters that is not empty, has at most 256 bytes in UTF-8 (section 3 of RFC 3629) and no control characters |
| `ReadTexts.WellFormedTextsAre` | python-sdk/kdna/core/_values.py:17-25 | A text is well formed if and only if it is the UTF-16 form of some characters |
| `ReadTexts.SizeIsOfUtf8` | python-sdk/kdna/read.py:58-59 | The bytes that are counted are those of the UTF-8 form |
| `ReadTexts.DigestsAre` | python-sdk/kdna/read.py:173-177 | A digest is `sha256:` and 64 small hexadecimal digits |
| `ReadTexts.BudgetsAre` | python-sdk/kdna/read.py:376-384 | The budget of an envelope, and that of an admission rejection, member by member |
| `KeyWrap.AesWrap` | packages/kdna-core/src/crypto-profile.js:109-138 | The in-place wrap over aliased buffer views returns a fresh buffer with the specified wrapping, and writes neither the plaintext nor the shared initial value |
| `KeyWrap.AesUnwrap` | packages/kdna-core/src/crypto-profile.js:140-168 | The in-place unwrap returns the specified result; its only write to the caller's memory is that byte 7 of a 40-byte ciphertext is XORed with 24 |
| `KeyWrap.UnwrapOnce` | packages/kdna-core/src/crypto-profile.js:149-161 | One step: which registers still look into the caller's buffer, and what that step writes there |
| `KeyWrap.UnwrapOfWrap` | packages/kdna-core/src/crypto-profile.js:109-168 | Unwrapping a wrapped key returns it, for every 16-byte block permutation and 32-byte key |
| `KeyWrap.UnwrapAcceptsExactly` | packages/kdna-core/src/crypto-profile.js:140-168 | A ciphertext is accepted with a result if and only if it is the wrapping of that result |
| `KeyWrap.SecondUnwrapDiffers` | packages/kdna-core/src/crypto-profile.js:153 | A second unwrap of the same buffer never returns the key again; after two, the buffer is as it was |
| `KeyWrap.ShiftingIsRotatedIndexing` | packages/kdna-core/src/crypto-profile.js:119-133 | After any number of steps, the registers of the indexed form are those of the shifting form of section 2.2.1 of RFC 3394, rotated |
| `KeyWrap.WrapMeetsTheStandard` | packages/kdna-core/src/crypto-profile.js:109-138 | So the code's indexing computes the 24 steps of section 2.2.1 of RFC 3394 from the initial value of section 2.2.3.1, eight bytes a6 |
| `ProtectedEntry.RecoveryCodeIsRead` | packages/kdna-core/src/crypto-profile.js:316-332 | A recovery code decodes to the key it was made of |
| `ProtectedEntry.CodesOfTheSameKey` | packages/kdna-core/src/crypto-profile.js:323-332 | Two accepted codes are the same key exactly when they differ in hyphens and letter case only |
| `ProtectedEntry.EntryOpensWithEither` | packages/kdna-core/src/crypto-profile.js:334-433 | An encrypted entry opens with its password, and with its recovery code if it has one, to the plaintext it was made of, exactly when that plaintext is not empty |
| `EntryChecks.DecryptsExactly` | packages/kdna-core/src/crypto-profile.js:388-433 | An entry is decrypted to a plaintext if and only if its header is the supported one, it has content, and the slot of the password, or without one of the recovery code, wraps a key under which that plaintext is sealed with this name and manifest |
| `EntryChecks.EncryptsExactly` | packages/kdna-core/src/crypto-profile.js:334-386 | What an encrypted entry is: its header, its sealed content and one slot for each secret |
| `EntryChecks.SlotsUnlockExactly` | packages/kdna-core/src/crypto-profile.js:388-433 | A slot gives a content key if and only if it is the first of its name and is the wrapping of that key |
| `EntryChecks.CodesAre` | packages/kdna-core/src/crypto-profile.js:323-332 | A recovery code decodes to a key if and only if what follows its prefix is, but for hyphens and letter case, the 64 hexadecimal digits of the key |
| `Crc32.BuildTable` | scripts/generate-external-grant-fixtures.js:39-49 | Entry k of the table is eight steps of the reflected polynomial division from k |
| `Crc32.Checksum` | scripts/generate-external-grant-fixtures.js:51-57 | The table-driven loop computes the bit-by-bit CRC of section 8 of RFC 1952, for every byte string |
| `Crc32.LookupFeedsOneByte` | scripts/generate-external-grant-fixtures.js:54 | One table lookup is feeding the eight bits of a byte, lowest first |
| `Crc32.FeedAtOnce` | scripts/generate-external-grant-fixtures.js:39-57 | Up to 32 bits may be XORed in at once instead of one per step |
| `Crc32.BurstDetected` | scripts/generate-external-grant-fixtures.js:51-57 | Messages that differ only within four consecutive bytes have different checksums |
| `CrcVectors.PolynomialIsTheStandards` | scripts/generate-external-grant-fixtures.js:39-49 | The constant 0xedb88320 is the polynomial with exponents 26, 23, 22, 16, 12, 11, 10, 8, 7, 5, 4, 2, 1 and 0 |
| `CrcVectors.KnownChecksums` | scripts/generate-external-grant-fixtures.js:51-57 | Four bytes ff have the checksum ffffffff, and ff ff ff 7f has the complement of the polynomial |
| `Zip.BuildStored` | scripts/generate-external-grant-fixtures.js:63-121 | The writer returns the specified archive, or throws exactly when a field does not fit its 16 or 32 bits |
| `Zip.FindEnd` | packages/kdna-core/src/asset-reader.js:119-125 | Finds the last end-of-central-directory signature that has a whole record behind it, if there is one |
| `Zip.ParseEntries` | packages/kdna-core/src/asset-reader.js:127-161 | The loop over the central directory yields the specified index or error |
| `Zip.LocalReadsBack` | packages/kdna-core/src/asset-reader.js:163-177 | Wherever a written local header and its data stand, reading the entry gives the data |
| `Zip.ReaderRecoversArchive` | packages/kdna-core/src/asset-reader.js:119-177 | For any files within the field limits, the reader recovers from the written archive exactly the map of names to contents |
| `Zip.ContentsAreFiles` | scripts/generate-external-grant-fixtures.js:63-121 | For distinct names that are neither empty nor directories, that map is just the files |
| `ZipReads.DataAre` | packages/kdna-core/src/asset-reader.js:163-177 | An entry is read to these bytes if and only if behind its local header, name and extra field they stand stored, or stand there deflated |
| `ZipReads.RecordsAre` | packages/kdna-core/src/asset-reader.js:127-161 | A central record is read as an entry if and only if its bytes say so, field by field |
| `ZipIndexes.IndexesAre` | packages/kdna-core/src/asset-reader.js:119-161 | A buffer is read as an index if and only if records stand one behind the other from where its last end record says, as many as that says, and the index has the last record of each name that is neither empty nor a directory |
| `ZipReads.OtherMethodsAreRefused` | packages/kdna-core/src/asset-reader.js:163-177 | Every method but 0 and 8 is refused |
| `ZipReads.RecordFailuresAre` | packages/kdna-core/src/asset-reader.js:127-161 | Which error a central record gives that is not read |
| `ZipReads.HeaderFailuresAre` | packages/kdna-core/src/asset-reader.js:163-177 | Which error a local header gives that is not one |
| `JsonParser.DuplicateSafeJsonParser.Parse` | scripts/core-release-authority.js:126-132 | The imperative parser returns or throws as the specified parse of the whole document does |
| `JsonParser.DuplicateSafeJsonParser.Whitespace` | scripts/core-release-authority.js:117-124 | Advances to the first unit that is not white space |
| `JsonParser.DuplicateSafeJsonParser.ValueAt` | scripts/core-release-authority.js:134-154 | Value, index and error are those of the specification |
| `JsonParser.DuplicateSafeJsonParser.ObjectAt` | scripts/core-release-authority.js:156-189 | Likewise for an object, whose member names must be new |
| `JsonParser.DuplicateSafeJsonParser.ArrayAt` | scripts/core-release-authority.js:191-211 | Likewise for an array |
| `JsonParser.DuplicateSafeJsonParser.StringAt` | scripts/core-release-authority.js:213-241 | Likewise for a string, with its surrogate pairs |
| `JsonParser.DuplicateSafeJsonParser.EscapeAt` | scripts/core-release-authority.js:243-264 | Likewise for an escape |
| `JsonParser.DuplicateSafeJsonParser.HexAt` | scripts/core-release-authority.js:266-271 | Likewise for four hexadecimal digits |
| `JsonParser.DuplicateSafeJsonParser.NumberAt` | scripts/core-release-authority.js:273-282 | Likewise for a number |
| `JsonGrammar.DocumentAccepted` | scripts/core-release-authority.js:105-283 | Every document that the grammar spells is accepted, consumed to its end, with the value that its tree means |
| `JsonGrammar.AcceptsExactlyDocuments` | scripts/core-release-authority.js:105-283 | A document is accepted with a value if and only if a syntax tree within the depth limit and without duplicate names spells all of it and means that value |
| `JsonPrinter.AssertUnicodeScalarString` | packages/kdna-core/src/runtime-capsule.js:266-279 | The scan accepts exactly the texts whose surrogates are paired |
| `JsonPrinter.SortedKeys` | packages/kdna-core/src/runtime-capsule.js:281-342 | Whatever order the members come in, their names are put in the one ascending order of UTF-16 units |
| `JsonPrinter.AscendingIsUnique` | packages/kdna-core/src/runtime-capsule.js:281-342 | There is only one ascending order of the same names |
| `JsonPrinter.Serialize` | packages/kdna-core/src/runtime-capsule.js:281-342 | The recursive printer returns the specified canonical text, or throws exactly for malformed strings |
| `JsonPrinter.SerializeItems` | packages/kdna-core/src/runtime-capsule.js:284-342 | The texts of the items of an array, in order |
| `JsonPrinter.SerializeMembers` | packages/kdna-core/src/runtime-capsule.js:284-342 | The texts of the members of an object, in the order of their names |
| `JsonSpellings.PrintedIsTheShortest` | packages/kdna-core/src/runtime-capsule.js:287-290 | Of all spellings that the grammar of RFC 8259 reads as a given string, the printed one is the shortest without capital letters in its escapes, and the only one: section 3.2.2.2 of RFC 8785 |
| `JsonSpellings.PrintedIsShortest` | packages/kdna-core/src/runtime-capsule.js:287-290 | So it is from any place in a text on, escape by escape |
| `JsonSpellings.LettersOfTheGrammar` | scripts/core-release-authority.js:243-264 | The letters behind a backslash are those of section 7 of RFC 8259, with their meanings |
| `JsonSpellings.IntegersOfTheGrammar` | scripts/core-release-authority.js:273-282 | A number lexeme is an integer if and only if it is the text of a safe one; minus zero is kept as its text |
| `JsonSpellings.DigitsOfTheGrammar` | scripts/core-release-authority.js:266-271 | Hexadecimal digits, small and capital, and their values |
| `JsonSpellings.WordsOfTheGrammar` | scripts/core-release-authority.js:134-154 | The three names and the marks of the structure |
| `JsonSpellings.SpacesOfTheGrammar` | scripts/core-release-authority.js:117-124 | White space is that of section 2 of RFC 8259 |
| `JsonRoundTrip.ParsesWhatWasPrinted` | packages/kdna-core/src/runtime-capsule.js:281-342 | Parsing a printed value returns it if and only if it is nested no deeper than the limit; no printed value is ever parsed as another |
| `JsonRoundTrip.PrintingIsInjective` | packages/kdna-core/src/runtime-capsule.js:281-342 | Different values are printed differently, at any nesting |
| `JsonValues.IntTextConverts` | scripts/core-release-authority.js:273-282 | The text of a safe integer converts to that integer |
| `Tar.ParsePax` | scripts/core-release-authority.js:1561-1584 | The loop over the records returns the specified values |
| `Tar.ParseTarFiles` | scripts/core-release-authority.js:1614-1720 | The loop over the blocks returns the specified files, in archive order, or rejects |
| `Tar.AcceptedArchiveIsTiled` | scripts/core-release-authority.js:1614-1720 | On acceptance the records tile the archive up to two zero blocks, with only zeros behind; each file has the data and mode of its record and the path that the record before it left waiting or its header has; paths are distinct, modes permitted, number and sizes bounded; metadata stand before a file each, and none is left over |
| `TarArchives.ArchivesAre` | scripts/core-release-authority.js:1614-1720 | An archive is accepted with a list of files if and only if that is the list of files of records that tile it, each with its metadata before it, within the limits |
| `TarArchives.FilesOfRecordsAre` | scripts/core-release-authority.js:1680-1695 | The file of a record has its data and mode, a path under `package/` that is good, and, if a size was given before, that size |
| `TarArchives.HeadersAre` | scripts/core-release-authority.js:1643-1660 | A block is read as a header if and only if its checksum and its fields say so, field by field |
| `TarArchives.ValuesAre` | scripts/core-release-authority.js:1561-1584 | The records of an extended header are read as values if and only if they are lines that count themselves, with a key each, none twice and only known ones |
| `TarArchives.MetadataIs` | scripts/core-release-authority.js:1614-1720 | What an extended header or a GNU long name leaves for the next file |
| `TarPaths.AcceptedPathsArePlain` | scripts/core-release-authority.js:496-520 | Every file of an accepted archive has a path of at most 1024 bytes without control characters that is not absolute and between whose slashes stand names that are not empty, not `.` or `..`, not `.git` in any letter case, without a backslash, and at most 255 bytes long (258 for the first, with a byte order mark) |
| `TarPaths.GoodPathsAre` | scripts/core-release-authority.js:496-520 | The path check passes if and only if what is left without a byte order mark has such names, is in normal form and has no control characters |
| `TarPaths.MarkIsNotCounted` | scripts/core-release-authority.js:496-520 | A byte order mark and 255 letters are a good path of one segment of 258 bytes |
| `Tar.RecordsAreDisjoint` | scripts/core-release-authority.js:1637-1711 | The records of a tiled archive do not overlap |
| `Tar.OctalNumbersAre` | scripts/core-release-authority.js:1556-1558 | A field without the high bit is read as a number if and only if the low seven bits of its bytes spell it in octal, in white space and up to a NUL behind which there is no line end |
| `Tar.BinaryNumbersAre` | scripts/core-release-authority.js:1548-1555 | One with the high bit is read if and only if the rest of its bits are a safe integer |
| `TarArchives.FirstByteWeighsMost` | scripts/core-release-authority.js:1548-1555 | The rest of its bits are a number in base 256, the first byte first |
| `Tar.HighBitIsLost` | scripts/core-release-authority.js:1556 | The mode field 30 30 30 30 30 30 b1 00 is read as 1 |
| `Tar.LineEndKeepsNul` | scripts/core-release-authority.js:1556-1557 | The mode field 30 30 30 30 30 31 00 20 is read as 1, and 30 30 30 30 30 31 00 0a is not a number |
| `TarWriter.OctalFieldIsRead` | scripts/core-release-authority.js:1547-1559 | Zero-padded octal digits behind which a NUL, and perhaps a space, stands are read as their number |
| `TarWriter.HeaderIsRead` | scripts/core-release-authority.js:1643-1658 | A ustar header is read as the fields that were written |
| `TarWriter.PaxLineIsRead` | scripts/core-release-authority.js:1564-1581 | A PAX record that counts its own length is read as its key and value |
| `TarWriter.RecordIsKept` | scripts/core-release-authority.js:1579-1580 | It is kept under its key, but for the key `__proto__`, which is dropped |
| `TarWriter.ArchiveIsReadBack` | scripts/core-release-authority.js:1614-1720 | Any archive of ustar headers, each with a PAX path record or a NUL-padded GNU long name before it where wanted, is read back as the files it was written for |
| `TarWriter.PackedFilesAreReadBack` | scripts/core-release-authority.js:1614-1720 | Any list of files within the limits can be written, with path records for long paths, and is then read back |
| `TarWriter.LongNamesAreReadBack` | scripts/core-release-authority.js:1614-1720 | So it is with a GNU long name before every file |
| `SemVer.CompareSemver` | scripts/ecosystem-manifest.js:106-119 | The loop over the core and the comparison of prereleases yield the specified order; it throws exactly when a version does not match |
| `SemVer.ComparePrereleaseIdentifiers` | scripts/ecosystem-manifest.js:121-145 | The loop over the identifiers yields the specified order |
| `SemVer.PrecedenceIsATotalOrder` | scripts/ecosystem-manifest.js:106-145 | Reflexive, antisymmetric in sign, transitive, and 0 exactly for the same core and prerelease |
| `SemVer.FollowsSection11` | scripts/ecosystem-manifest.js:106-145 | It is the precedence of section 11 of Semantic Versioning 2.0.0, stated as the first place where two versions differ |
| `SemVerTexts.SemverTextsAre` | scripts/ecosystem-manifest.js:13-16 | A text is read as a version if and only if it is written from three numbers without leading zeros, a list of prerelease identifiers and one of build identifiers (items 2, 9 and 10 of Semantic Versioning 2.0.0), and then as these |
| `SemVerTexts.CoordinatesAre` | packages/kdna-core/src/loader-compatibility.js:8-15 | A loader coordinate is such a text whose prerelease numbers may have leading zeros |
| `SemVerTexts.StrictTextsAre` | packages/kdna-core/src/loader-compatibility.js:8-15 | A stable version is three numbers and nothing else |
| `SemVer.LengthThenDigitsIsNumeric` | packages/kdna-core/src/loader-compatibility.js:28-32 | Comparing digit strings by length and then by digits is comparing their integers, of any size |
| `SemVer.CompareLoaderVersions` | packages/kdna-core/src/loader-compatibility.js:34-47 | The three-step loop yields the order of the cores; it throws exactly when a coordinate does not match |
| `SemVer.AssessLoaderCompatibility` | packages/kdna-core/src/loader-compatibility.js:53-63 | Compatible, incompatible or unknown, as specified |
| `SemVer.StrictComparisonsAgree` | scripts/ecosystem-manifest.js:95-119 | On x.y.z versions the loader's comparison is that of SemVer |
| `SemVer.ComparisonsAgreeExactly` | packages/kdna-core/src/loader-compatibility.js:34-47 | On all versions the two agree exactly when the cores differ or the prereleases are the same |
| `SemVer.CompatibilityIsDownwardClosed` | packages/kdna-core/src/loader-compatibility.js:53-63 | A loader that meets a requirement meets every lower one |
| `Publication.DecisionIsExact` | scripts/core-release-authority.js:2405-2446 | Against a truthful answer: publish exactly when the version is absent, skip exactly when the registry holds this integrity, shasum and gitHead |
| `RegistryTexts.DecidesExactly` | scripts/core-release-authority.js:2405-2446 | Of all answers of the lookup command, exactly one makes a run publish and exactly one makes it skip |
| `Publication.AwaitDistTag` | scripts/release-channel-authority.js:849-878 | Returns the first observation that selects the version, after one sleep per failed attempt; gives up only when none of the bounded attempts does |
| `RegistryTexts.TagsAre` | scripts/release-channel-authority.js:799-813 | Dist-tags are accepted if and only if there is a `latest`, and every tag is a name of letters, digits, dots, underscores and hyphens for three numbers and perhaps runs of letters and digits behind a hyphen |
| `RegistryTexts.ChannelsAre` | scripts/release-channel-authority.js:942-1029 | Which tags a run accepts: on the stable channel only `latest` differs, on the preview channel it does not |
| `RegistryTexts.StableVersionsAre` | scripts/release-channel-authority.js:14-20 | A stable coordinate is three decimal numbers without leading zeros, none above the largest safe integer |
| `Publication.StepKeeps` | scripts/release-channel-authority.js:942-1029 | Every step of a run, a crash or another publisher keeps the invariant, and no version is rewritten |
| `Publication.EndedRunsAreBacked` | scripts/release-channel-authority.js:957-1029 | A run that ends in published or skip-identical does so only when the registry holds exactly its artifact and commit; on the stable channel the tags it saw are its baseline with only `latest` changed, on the preview channel `latest` is unchanged and the preview tag selects the version |
| `Publication.EndedRunsAgree` | scripts/core-release-authority.js:2576-2588 | Runs that end well for the same version had the same artifact and commit, and at most one of them published |
| `Publication.VersionsAreWrittenOnce` | scripts/release-channel-authority.js:957-1029 | What the registry holds it holds in every later state |
| `Publication.RetrySkips` | scripts/release-channel-authority.js:727-768 | A retry after an upload that nobody heard of finds its version and skips it |
| `PublicationRuns.UploadsWereCleared` | scripts/release-channel-authority.js:942-1029 | In every run of the system, who uploads has looked the version up before and did not find it, and then, but for Core, has seen the tags as the evidence recorded them |
| `PublicationRuns.UploadsWereHeard` | scripts/release-channel-authority.js:942-1029 | In every run of the system, who has published, or waits for the tags, has heard that its upload went through |
| `PublicationRuns.FreeVersionIsPublished` | scripts/release-channel-authority.js:942-1029 | A run that meets no obstacle publishes: its version, its tag and nothing else are different in the end |
| `PublicationRuns.FirstReadDecides` | scripts/release-channel-authority.js:849-878 | On the stable channel the first of thirteen reads of the tags that shows the version decides whether the run publishes; without one it fails |
| `PublicationRuns.AttemptsAreBounded` | scripts/release-channel-authority.js:849-878 | In every run of the system the tags are read for one of thirteen attempts |
| `ExternalGrant.WindowIsExact` | packages/kdna-core/src/external-key-grant.js:382-402 | A grant has a state exactly when its times are ordered and it is in its window: issued less five minutes to refresh, or to the end of grace when offline; between grace and expiry there is none; and the code for every other time |
| `ExternalGrant.EnvelopeOf` | packages/kdna-core/src/external-key-grant.js:185-225 | When an entry can be encrypted, and when its envelope meets the schema: not for an empty plaintext |
| `ExternalGrant.CreatedGrant` | packages/kdna-core/src/external-key-grant.js:285-380 | What a created grant binds, wraps and signs |
| `ExternalGrant.DeviceUnwraps` | packages/kdna-core/src/external-key-grant.js:463-487 | The device agrees on the issuer's key-encryption key and unwraps the entry key |
| `ExternalGrant.GrantIsAccepted` | packages/kdna-core/src/external-key-grant.js:408-500 | Under matching expectations a created grant is accepted if and only if the time is in its window, in the right state and with the entry key |
| `ExternalGrant.GrantRoundTrip` | packages/kdna-core/src/external-key-grant.js:185-546 | Encrypt, grant, authorize within the window, decrypt: the plaintext comes back |
| `GrantChecks.AuthorizesExactly` | packages/kdna-core/src/external-key-grant.js:408-500 | Where only issuers sign: an arbitrary grant authorizes if and only if it is valid and not rolled back, has the pinned issuer's signature over all its other fields, is in its window, is for this account, device, device keys, asset, entry and ciphertext, and wraps the key that comes out to this device |
| `GrantChecks.ChangedGrantIsRefused` | packages/kdna-core/src/external-key-grant.js:426-432 | A created grant with any field changed is refused under its issuer's key, by whoever expects it, and as a signature if it is otherwise valid |
| `GrantChecks.CreatesExactly` | packages/kdna-core/src/external-key-grant.js:285-380 | A grant is created if and only if envelope, device keys, root, salt and binding are well formed and its times are ordered; and what it then is |
| `GrantChecks.DecryptsExactly` | packages/kdna-core/src/external-key-grant.js:513-546 | An entry is decrypted to a plaintext if and only if it is the one granted, with this ciphertext, and the key seals that plaintext to it |
| `GrantChecks.MismatchesAreTold` | packages/kdna-core/src/external-key-grant.js:435-462 | Which code a grant for another account, device, asset or digest gets |
| `GrantChecks.HkdfMeetsTheStandard` | packages/kdna-core/src/crypto-profile.js:89-104 | The single block of the code is HKDF of section 2 of RFC 5869 for a key of 32 bytes |
| `GrantChecks.PurposesDiffer` | packages/kdna-core/src/external-key-grant.js:153-166 | Keys of entries and keys of devices are derived for texts that are never the same |
| `Bindings.DataExactly` | packages/kdna-core/src/external-key-grant.js:123-145 | Associated data exist if and only if no field is empty, the access is licensed and the profile is account or org; they are the fields, one a line |
| `Bindings.BindingIsSharedExactly` | packages/kdna-core/src/external-key-grant.js:123-145 | Another manifest, entry name, digest and key references have the same associated data if and only if one of the seven free fields has a line break with text before it and a field behind it, or with text behind it and a field before it |
| `Bindings.CleanBindingsAreDistinct` | packages/kdna-core/src/external-key-grant.js:123-145 | A binding with no line break in these fields shares its associated data with no other at all |
| `Bindings.EntryIsSharedExactly` | packages/kdna-core/src/crypto-profile.js:62-78 | For a protected entry: if and only if there is a line break in the asset identifier, in the version, or in the entry name with text behind it |
| `ExternalGrant.Access.DecryptEntry` | packages/kdna-core/src/external-key-grant.js:513-546 | Decrypts as specified under the key that is kept, and never without one |
| `ExternalGrant.Access.Dispose` | packages/kdna-core/src/external-key-grant.js:551-554 | The key's bytes are cleared and the key is gone |
| `ContentDigest.ContentDigestFromEntryBuffers` | packages/kdna-core/src/asset-reader.js:211-228 | Whatever order the entries were put in, the loop computes the specified digest of the map of names to contents, or throws when counted JSON cannot be parsed |
| `ContentDigest.SameContentSameDigest` | packages/kdna-core/src/asset-reader.js:211-228 | Entries with the same canonical content under the same counted names have the same digest |
| `ContentDigest.ExcludedEntriesDoNotCount` | packages/kdna-core/src/asset-reader.js:204-217 | `.DS_Store`, `build-receipt.json`, `signature.kdsig` and `reports/` entries can be added, replaced or removed |
| `CountedEntries.CountsExactly` | packages/kdna-core/src/asset-reader.js:204-217 | An entry counts if and only if its name is not left out: as it is, or, under a JSON name, as the text of its value, and of the manifest what is left |
| `CountedEntries.LeftOutExactly` | packages/kdna-core/src/asset-reader.js:204-210 | Which names are left out |
| `CountedEntries.ManifestsAre` | packages/kdna-core/src/asset-reader.js:188-200 | What is left of a manifest, member by member |
| `CountedEntries.DigestOfTwo` | packages/kdna-core/src/asset-reader.js:220-227 | The digest of two entries, letter by letter |
| `StableJson.StableIsOfTheValue` | packages/kdna-core/src/asset-reader.js:35-44 | `stableStringify` of a value whose objects list their members in any order is the text of its unordered value: members are sorted at every depth |
| `StableJson.StableIsCanonical` | packages/kdna-core/src/asset-reader.js:35-44 | For safe integers and well-formed strings that text is the canonical JSON of RFC 8785 |
| `StableSpellings.StringsAreWritten` | packages/kdna-core/src/asset-reader.js:35-44 | Every unit of a string is written as the canonical form has it, but a surrogate without its other half as `\u` and four small digits |
| `StableSpellings.WrittenIsWellFormed` | packages/kdna-core/src/asset-reader.js:35-44 | So what is written is well formed, whatever the string |
| `StableJson.RearrangedMeansTheSame` | packages/kdna-core/src/asset-reader.js:35-56 | Syntax trees that differ in white space, in the order of members and in how characters are escaped, and in nothing else, mean the same value |
| `ContentDigest.JsonCountsByItsValue` | packages/kdna-core/src/asset-reader.js:211-228 | Two such documents under the same name give the same digest |
| `ContentDigest.ValuesCount` | packages/kdna-core/src/asset-reader.js:211-228 | So do any two contents that parse to the same value, whatever the order of its members |
| `ContentDigest.ManifestIsOfTheValue` | packages/kdna-core/src/asset-reader.js:188-200 | What is left of a manifest depends on its value only, through spreads of objects, arrays and strings, deletions and the replaced authoring record |
| `ContentDigest.WrittenDigestDoesNotCount` | packages/kdna-core/src/asset-reader.js:188-228 | Replacing the manifest by one with the digest written into it leaves the digest as it is |
| `ContentDigest.AuthoringDigestDoesNotCount` | packages/kdna-core/src/asset-reader.js:188-228 | For a manifest whose numbers are safe integers and whose strings are well-formed, writing it into the authoring record leaves the digest as it is when that record was an object before, and otherwise changes it, unless two hashed texts collide |
| `ContentDigest.DigestTellsApart` | packages/kdna-core/src/asset-reader.js:211-228 | For names without line breaks on both sides, unless two of the texts hashed for them collide, the same digest means the same names and canonical contents |
| `DigestConfusion.MergedHasTheDigest` | packages/kdna-core/src/asset-reader.js:220-227 | Any two or more entries that count have the digest of one single entry, whatever the hash does: the lines before the last are part of its name |
| `DigestConfusion.ConfusableExactly` | packages/kdna-core/src/asset-reader.js:211-228 | Without a collision, contents share their digest with others if and only if they have two or more entries, or one whose name holds another entry and a line break |
| `DigestConfusion.CleanNamesAreConfusable` | packages/kdna-core/src/asset-reader.js:211-228 | For names without line breaks, that is: if and only if there are two or more entries |
| `DigestConfusion.OthersAreToldApart` | packages/kdna-core/src/asset-reader.js:211-228 | All other contents have a digest of their own among contents with any names, unless two hashed texts collide |
| `Signature.SerializedIsParsed` | packages/kdna-core/src/signature.js:143-236 | A bundle that passes the checks is parsed back from its serialization, by any `JSON.parse` that reads JSON |
| `Signature.SignedAssetVerifies` | packages/kdna-core/src/signature.js:242-306 | A bundle signed over an asset's digest and added to it leaves the digest as it was and verifies against it, unpinned, and pinned to a key if and only if that is the signer's, in whatever letter case |
| `Signature.VerifiesExactly` | packages/kdna-core/src/signature.js:262-306 | Where only owners sign: arbitrary bytes verify for a digest, as a bundle, if and only if they are JSON of it, the owner of some seed signed this digest in it, and its key is the pinned one, if one is pinned |
| `Signature.PinnedExactly` | packages/kdna-core/src/signature.js:262-306 | Under a seed's pinned key bytes verify if and only if they parse to exactly what that seed signs |
| `Signature.ChangedBundleIsRefused` | packages/kdna-core/src/signature.js:284-295 | A signed bundle with anything changed does not verify under its signer's key, nor, unless both have the same signature, for another digest |
| `Signature.ParsedExactly` | packages/kdna-core/src/signature.js:163-236 | Bytes are parsed as a bundle if and only if they are JSON of its six members, and its fields are well formed |
| `Signature.ParseCodes` | packages/kdna-core/src/signature.js:163-236 | Which code another profile or another version gets |
| `Signature.PayloadBindsTheDigest` | packages/kdna-core/src/signature.js:72-75 | What is signed names profile and version, and is another text for another digest |
| `SignatureTexts.BundlesAreWritten` | packages/kdna-core/src/signature.js:143-161 | A bundle is serialized to its canonical text, byte by byte, and a line end |
| `SignatureTexts.HexTextsAre` | packages/kdna-core/src/signature.js:50-52 | A key or signature is the small hexadecimal text of some 32 or 64 bytes |
| `Signature.ChangedAssetDoesNotVerify` | packages/kdna-core/src/signature.js:262-306 | When neither asset has a name with a line break, a bundle that verifies for one verifies for the other only if their canonical contents are the same, unless the hash collides |
| `Signature.MergedAssetVerifies` | packages/kdna-core/src/signature.js:262-306 | A bundle that verifies for an asset with two or more entries that count verifies for another asset with other canonical content as well (the last of these entries is one whose content can stand under another name: any but the manifest, and a manifest of safe integers and well-formed strings) |
| `Signature.SignedForAnotherExactly` | packages/kdna-core/src/signature.js:262-306 | A bundle that verifies for an asset without line breaks in its names verifies for some other asset, without a collision, if and only if two or more entries of the first count (the last of them as before) |
| `Signature.OnlyThisAssetVerifies` | packages/kdna-core/src/signature.js:262-306 | A bundle for an asset whose content cannot be confused verifies for no other asset, whatever names that has, unless the hash collides |
| `DigestConfusion.ContentMoves` | packages/kdna-core/src/asset-reader.js:188-210 | The content of any entry but the manifest counts the same under every other name of its kind |
| `DigestConfusion.ManifestMoves` | packages/kdna-core/src/asset-reader.js:188-210 | What counts of a manifest of safe integers and well-formed strings can be written as an entry that counts the same under every other JSON name |
| `Signature.PrintedLineIsParsed` | packages/kdna-core/src/signature.js:143-161 | Canonical text with its line end is read back by the strict parser, too |
| `SwiftTokens.SplitArguments` | scripts/ecosystem-source-swift.js:69-87 | The loop with its bracket stack returns the specified rows or throws |
| `SwiftTokens.SplitsExactlyBalanced` | scripts/ecosystem-source-swift.js:69-87 | A list is split if and only if it is the text of a forest of trees, balanced over all three kinds of brackets, without names of Object.prototype |
| `SwiftTokens.SplitIsExact` | scripts/ecosystem-source-swift.js:69-87 | Every row is balanced and has no top-level comma; with commas between them the rows are the input, but for one trailing comma |
| `SwiftTokens.ConstructorIsNotSplit` | scripts/ecosystem-source-swift.js:69-87 | A list with the identifier `constructor` anywhere in it is not split |
| `SwiftTokens.BalancedIsSplit` | scripts/ecosystem-source-swift.js:69-87 | The rows are those between the top-level commas |
| `SwiftLexer.ReadTokens` | scripts/ecosystem-source-swift.js:7-67 | The loop returns the specified tokens or throws |
| `SwiftLexer.SkipComment` | scripts/ecosystem-source-swift.js:16-34 | The loop counts nested comments to the one that closes the first |
| `SwiftLexer.SkipGap` | scripts/ecosystem-source-swift.js:11-34 | White space and comments leave the tokens behind them as they are |
| `SwiftLexer.SkippedIsComment` | scripts/ecosystem-source-swift.js:19-33 | Every block comment that the loop skips is made of text and nested comments |
| `SwiftLexer.CommentIsSkipped` | scripts/ecosystem-source-swift.js:19-33 | Every such comment is skipped whole, at any depth and whatever follows, also with `*` at the end of its text |
| `SwiftLexer.SourceIsReadBack` | scripts/ecosystem-source-swift.js:7-67 | Whatever white space, line comments, ended or at the end of the source, and nested comments stand between them, the tokens of a source are read back |
| `SwiftSources.TokensExactly` | scripts/ecosystem-source-swift.js:7-67 | A text is read as tokens if and only if it is a source that has these tokens, with such gaps and comments between them |
| `SwiftSources.NamesAre` | scripts/ecosystem-source-swift.js:53-65 | The characters of identifiers |
| `SwiftSources.SpacesAre` | scripts/ecosystem-source-swift.js:11-14 | The characters of white space |
| `SwiftSources.LiteralsAre` | scripts/ecosystem-source-swift.js:39-52 | The characters of string literals |
| `SwiftSources.LeavesAre` | scripts/ecosystem-source-swift.js:69-87 | The tokens that stand for themselves in an argument list: all but three pairs of brackets and the names of Object.prototype |
| `SwiftDependencies.CallEnd` | scripts/ecosystem-source-swift.js:89-97 | The counting loop finds the specified end, or none |
| `SwiftDependencies.CallEndsAtItsBracket` | scripts/ecosystem-source-swift.js:89-97 | A call of balanced arguments ends at its own bracket, whatever follows |
| `SwiftDependencies.DependencyIsRead` | scripts/ecosystem-source-swift.js:99-137 | A written package dependency is read back, whichever argument comes first and with or without a trailing comma |
| `SwiftDependencies.ManifestIsReadBack` | scripts/ecosystem-source-swift.js:139-180 | The dependencies of any written manifest are read back, in order |
| `SwiftDependencies.SourceIsReadBack` | scripts/ecosystem-source-swift.js:139-180 | So they are from its source text, with any such gaps and comments |
| `SwiftManifests.SourcesAre` | scripts/ecosystem-source-swift.js:139-180 | A source is read as a list of dependencies if and only if its tokens are a manifest of them |
| `SwiftManifests.ManifestsAre` | scripts/ecosystem-source-swift.js:139-180 | Tokens are read so if and only if they have one `Package` call with balanced arguments, one of which, and no other, is `dependencies:` with a list of calls of these dependencies, and these are all the package calls there are, in order |
| `SwiftManifests.CallsOfDependencies` | scripts/ecosystem-source-swift.js:99-137 | A call is read as a dependency if and only if it is `.package` of its public address and its full commit, in either order, with or without a last comma |
| `SwiftManifests.CallsAre` | scripts/ecosystem-source-swift.js:139-154 | The calls that are found are all there are, in order |
| `SwiftManifests.UrlsAre` | scripts/ecosystem-source-swift.js:125-129 | The address is `https://github.com/aikdna/`, a name of small letters, digits and hyphens, and `.git` |

## Left out

- The file system, Git, npm, processes and the network: their results are parameters or steps of the environment.
- AES, SHA-256, HMAC, Ed25519, X25519, Argon2id, gzip, inflate, CBOR, base64 and JSON Schema: functions with only the laws that are used.
- Floating-point numbers: printed and measured numbers are safe integers, and the parsers keep any other number as its text, so that 1.50 and 1.5 are different values here; a JSON number that Python holds as a float (5.0) is its integer.
- Regular expressions are predicates and scans written out; Unicode normalization and UTF-8 validity of tar paths are predicates of the host.
- Cycles, sparse arrays, accessors and prototypes that `canonicalizeJcs` rejects: values are trees.
- The BOM and byte limit of `strictJson`, which come before the parser.
- Message texts, the stage that a Read diagnostic derives from its code, and which of several reasons is given for text that is not JSON.
- ReadRuns.StepKeeps: assumes of accepted snapshots what building them guarantees (identifiers, digests, an id of `snapshot:` and a UUID, non-empty scopes of its own nodes without duplicates, one target for each name and selection, selections that name the asset); how snapshots are built is not part of this model.
- The node and depth limits of `copy_json`, except that lists have at most 10000 items.
- Callbacks that are not awaitable answer in a step of their own, like those that are; Hosts on several threads are not modelled.
- JsonPrinter.Serialize: does not model values that are not JSON, as above.
- Tar.ParseTarFiles: returns the files in archive order, since `localeCompare` is not modelled, and without their SHA-256; gzip is undone before.
- SwiftLexer.ReadTokens: a character outside the basic plane that is not in a string or comment is one token, where the code makes two of it.
- Publication.DecisionIsExact: the registry's answers may be old or lost but not invented; release evidence and approvals are taken as validated.
- The licensed-entry and scrypt profiles, which use the same key wrap and envelope as those modelled.
- Media types, load profiles, human-lock checks, rendering, evaluation and the inventory scripts: no hard property.
