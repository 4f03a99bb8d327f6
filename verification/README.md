# Verified model of the enclave encryption service

This project models the part of the Nitro enclave service that decides which fields of a JSON
payload are personal data, replaces them by tokens and back, and keeps doing so correctly while
keys rotate, schemas are refreshed and many requests are in flight. `dafny verify dfyconfig.toml`
checks all of it.

## What is modelled

- **Tokens** (`Utf8`, `Base64Url`, `Cipher`, `Nonces`). UTF-8 and unpadded base64url are concrete. A token is
  `v1.<nonce>.<ciphertext>`. HMAC-SHA256 and AES-256-GCM-SIV are a record of functions of which
  `Cipher.Sound` assumes only output lengths, success within the length limit of section 6 of
  RFC 8452, and that opening undoes sealing; `Cipher.Toy` meets these assumptions.
- **Paths** (`Paths`). The resolver writes dot-notation paths one segment at a time and the payload
  walk parses them back. Parsing is a bijection onto the lists described by `Parsed`; building and
  parsing back is the identity exactly on the lists described by `Faithful`.
- **Payload transform** (`JsonTree`, `Transform`, `Payload`, `PayloadHeap`). A value is determined by
  the labels at its positions (`Extensional`). The walk along one path after another, in any order,
  is one pure map over the selected positions. `PayloadHeap` does the walk in place on a tree of
  mutable nodes and is proved against the pure one; it also places a received payload on the heap and
  reads it back for the response.
- **Schema resolver** (`Resolver`, `Flags`, `EndToEnd`). The recursive walk through objects, arrays and `$ref`
  is proved against a declarative reading of the document (`Flagged`), that against chains of schemas
  read off the document itself (`Flags`), and the emitted paths against the positions they select in
  payloads.
- **Key store, schema cache, handlers** (`KeyStore`, `SchemaCaching`, `Handlers`). Classes with the
  fields of the original, heap buffers for keys, and methods that state the whole new state.
- **The running service** (`Service`, `ServiceSafety`, `ServiceCounters`, `ServiceHistory`,
  `ServiceMeaning`, `ServiceChange`). Startup, rotation, refresh and requests as interleaved atomic steps; the theorems
  are about every state of every run.

## Where the code differs from what is said about it

- The comment on nonce derivation (crates/enclave/src/crypto/cipher.rs:105) says that different
  plaintexts or keys give different nonces. A 12-byte prefix of a MAC cannot do that:
  `Nonces.PlaintextsShareNonce` finds, under every key, two plaintexts with one nonce, and
  `Nonces.KeysShareNonce`, for every plaintext, two keys. Nothing here relies on it: that different
  plaintexts give different tokens follows from decryption alone.
- The decrypt handler's comment says fields not in the `v1.` format are left unchanged. The test is
  the `v1.` prefix, so a plaintext that starts with `v1.` at a PII position makes the whole request
  fail, unless it is itself an authentic token. `Payload.PlaintextWithPrefixFails` shows one such
  payload; `Payload.DecryptMeaning` gives the exact condition.
- A flagged property whose name contains a dot, ends in `[]` where no array follows, or is an empty
  first name before another name, a component that is itself an array, and an array directly inside an
  array are written as paths that select something else. `EndToEnd.MeansFlagsIffFaithful` says exactly
  when the paths mean what the document flags; `EndToEnd.DottedNameIsMissed` and
  `EndToEnd.DottedNameHitsAnother` show one document on which they do not.
- On a document with a cycle of references the walk does not end. `Resolver.SelfReferenceNeverEnds`
  shows the smallest such document; `Resolver.EndsIffAcyclic` says exactly when the walks end.

## Model

| member | source | states |
|---|---|---|
| `Utf8.DecodeEncode` | crates/enclave/src/server/handlers.rs:288-342 | every string is recovered from its UTF-8 bytes, so a decrypted leaf is the leaf that was encrypted |
| `Utf8.EncodeDecode` | crates/enclave/src/server/handlers.rs:340-342 | `from_utf8` accepts only bytes that are the encoding of its result |
| `Utf8.EncodedBits` | crates/enclave/src/server/handlers.rs:288-290 | the bytes of each character, by value: one byte below 128, otherwise a lead byte in the range for its length and continuation bytes that together carry the scalar value |
| `Base64Url.DecodeEncode` | crates/enclave/src/crypto/cipher.rs:47-54 | decoding inverts encoding for every byte sequence, in all three remainder cases; encodings contain no dot |
| `Base64Url.EncodeDecode` | crates/enclave/src/crypto/cipher.rs:67-78 | a string that decodes is the one encoding of its bytes (no padding, no stray trailing bits) |
| `Base64Url.SameBits` | crates/enclave/src/crypto/cipher.rs:47-54 | the characters, read as digits by code point, carry the bits of the bytes in order: the numbers in base 64 and base 256 differ only by the zero bits that fill the last character |
| `Base64Url.Alphabet` | crates/enclave/src/crypto/cipher.rs:51-52 | the 64 characters by code point: upper case, lower case, digits, hyphen, underscore |
| `Base64Url.EncodeLength` | crates/enclave/src/crypto/cipher.rs:47-54 | encoded length is ceil(4m/3) and never 1 modulo 4 |
| `Cipher.Toy` | crates/enclave/src/crypto/cipher.rs:109-157 | the assumptions made about HMAC and AES-GCM-SIV can be met |
| `Cipher.ParsePrinted` | crates/enclave/src/crypto/cipher.rs:47-81 | parsing a printed field returns it, for every nonce and every ciphertext; the parts are version, nonce and ciphertext in that order |
| `Cipher.PrintParsed` | crates/enclave/src/crypto/cipher.rs:62-81 | every accepted string prints back to itself, so the token text is canonical even though the third part of the split may hold dots |
| `Cipher.EncryptField` | crates/enclave/src/crypto/cipher.rs:109-143 | InvalidKeyLength exactly for a key that is not 32 bytes; success up to 2^36 bytes; the nonce is the first 12 bytes of the MAC of the plaintext under the key, and the ciphertext, 16 bytes longer, is the plaintext sealed with that nonce |
| `Cipher.DecryptField` | crates/enclave/src/crypto/cipher.rs:151-164 | InvalidKeyLength exactly for a key that is not 32 bytes; under a 32-byte key a plaintext exactly when the field authenticates, and then the one it holds; never InvalidFormat |
| `Cipher.TokenOpens` | crates/enclave/src/crypto/cipher.rs:130-157 | a token starts with `v1.`, opens to its plaintext under the same key even if that starts with `v1.`, has length 20 + ceil(4(n+16)/3), and is longer than the plaintext |
| `Cipher.TokenText` | crates/enclave/src/crypto/cipher.rs:47-143 | the whole text of a token: `v1.`, the encoded first 12 bytes of the MAC of the UTF-8 bytes, a dot, and the encoded ciphertext sealed with that nonce |
| `Cipher.TokensEqualIffPlaintextsEqual` | crates/enclave/src/crypto/cipher.rs:119-143 | under one key, tokens are equal if and only if plaintexts are |
| `Cipher.OpenLeafSucceeds` | crates/enclave/src/server/handlers.rs:335-347 | a leaf opens to t if and only if its first three characters are not `v1.` and it is t, or it is the canonical text of a field that authenticates under a 32-byte key and holds t in UTF-8 |
| `Cipher.OtherLeafKept` | crates/enclave/src/server/handlers.rs:337-344 | a string that does not start with the characters `v1.` is returned as it is, under every key |
| `Cipher.OpenFieldText` | crates/enclave/src/server/handlers.rs:337-342 | the text of a field: InvalidKeyLength for a key that is not 32 bytes, otherwise success or AeadFailure by whether it authenticates and holds UTF-8 |
| `Cipher.OpenOtherText` | crates/enclave/src/server/handlers.rs:337-344 | any other string is InvalidFormat if it starts with `v1.`, and unchanged if not |
| `Cipher.BarePrefixFails` | crates/enclave/src/server/handlers.rs:335-347 | the string `v1.` passes the prefix test and is InvalidFormat under every key |
| `Nonces.Collision` | crates/enclave/src/crypto/cipher.rs:109-117 | any function to byte sequences shorter than its arguments takes some value twice |
| `Nonces.PlaintextsShareNonce` | crates/enclave/src/crypto/cipher.rs:100-117 | under every key, two different plaintexts within the length limit derive the same nonce |
| `Nonces.KeysShareNonce` | crates/enclave/src/crypto/cipher.rs:100-117 | for every plaintext, two different 32-byte keys derive the same nonce |
| `JsonTree.Extensional` | crates/enclave/src/server/handlers.rs:282-312 | two JSON values with the same label at every position are equal, so position-wise statements determine the payload |
| `JsonTree.LabelBelow` | crates/enclave/src/server/handlers.rs:296-309 | a position below an element or member is that position inside it |
| `Paths.ParsePath` | crates/enclave/src/server/handlers.rs:267-278 | the loop pushes exactly the parsed segments, and joining them returns the path |
| `Paths.ParseWord` | crates/enclave/src/server/handlers.rs:267-278 | a path without dots is one name, or with `[]` at its end the name and an array step |
| `Paths.ParseDotted` | crates/enclave/src/server/handlers.rs:269 | a path with a dot is its first part followed by the rest |
| `Paths.PrintOfParse` | crates/enclave/src/server/handlers.rs:267-278 | joining parsed segments returns the input, for every string |
| `Paths.ParseInjective` | crates/enclave/src/server/handlers.rs:267-278 | distinct path strings parse to distinct segment lists |
| `Paths.ParseIsParsed` | crates/enclave/src/server/handlers.rs:267-278 | what parsing can produce: starts with a key, array steps directly after keys, keys without dots, `[]` endings only before an array step |
| `Paths.ParseOfPrint` | crates/enclave/src/server/handlers.rs:267-278 | and every such list is the parse of its own text |
| `Paths.BuildThenParse` | crates/enclave/src/schema/resolver.rs:67-71 | a path built by the resolver parses back to its segments if and only if they are faithful |
| `Paths.BuildLast` | crates/enclave/src/schema/resolver.rs:67-100 | each further segment adds a dot and its name, its name alone after an empty prefix, or `[]` |
| `Paths.BuiltParsedIsFaithful` | crates/enclave/src/schema/resolver.rs:96-100 | building and parsing any parseable list lands among the faithful ones |
| `Transform.RewriteMeaning` | crates/enclave/src/server/handlers.rs:282-312 | walking one path succeeds exactly when each string it selects can be transformed, and then those strings, and nothing else, have been transformed |
| `Transform.RewriteItems` | crates/enclave/src/server/handlers.rs:303-309 | an array walk succeeds element by element, or fails with the error of the first element that fails |
| `Transform.DistinctPathsDisjoint` | crates/enclave/src/server/handlers.rs:267-312 | two different paths never select the same position |
| `Transform.ImageKeepsOthers` | crates/enclave/src/server/handlers.rs:282-325 | transforming some positions makes no other path start or stop matching, and no other leaf change |
| `Transform.RewriteAllMeaning` | crates/enclave/src/server/handlers.rs:315-325 | the loop over all paths succeeds exactly when every selected string can be transformed; each is then transformed once and nothing else changes |
| `Transform.OrderIndependent` | crates/enclave/src/server/handlers.rs:369-379 | iteration order decides neither success nor the resulting payload |
| `Transform.LoopIsOnePass` | crates/enclave/src/server/handlers.rs:315-325 | the loop computes the same payload as a single structural pass over the value |
| `Transform.ImageUnique` | crates/enclave/src/server/handlers.rs:315-325 | the position-wise description determines the resulting payload |
| `Transform.ChangedPaths` | crates/enclave/src/server/handlers.rs:330-379 | for any pair of leaf operations of which one undoes the other: transform with one path set and back with another, exact success condition and the label left at every position |
| `Transform.SealThenOpen` | crates/enclave/src/server/handlers.rs:282-379 | an inverse on leaves is an inverse on whole payloads, for any two iteration orders |
| `Transform.SealedLeavesMatch` | crates/enclave/src/server/handlers.rs:282-325 | with an inverse on leaves, two transformed leaves of any two payloads are equal if and only if the originals were |
| `Payload.SealerUndone` | crates/enclave/src/crypto/cipher.rs:130-157 | opening undoes sealing on every string it succeeds on, under one key |
| `Payload.EncryptSucceeds` | crates/enclave/src/server/handlers.rs:315-325 | with a 32-byte key and no oversized leaf, encrypting a payload never fails |
| `Payload.EncryptMeaning` | crates/enclave/src/server/handlers.rs:282-325 | every selected string leaf becomes a token different from it that opens to it; every other position is untouched |
| `Payload.DecryptMeaning` | crates/enclave/src/server/handlers.rs:330-379 | decryption succeeds if and only if every selected string that starts with the characters `v1.` is canonical, authenticates and is UTF-8; otherwise it fails as a whole |
| `Payload.PlaintextWithPrefixFails` | crates/enclave/src/server/handlers.rs:330-379 | the payload with `ssn` set to `v1.` and the one path `ssn` fails with InvalidFormat, whatever the key |
| `Payload.ChangedSchema` | crates/enclave/src/server/handlers.rs:330-379 | encrypt with one path set, decrypt with another: exact success condition, and the label left at every position |
| `Payload.GrownSchema` | crates/enclave/src/schema/mod.rs:113-131 | if leaves selected only by the newer schema do not look like tokens, decryption succeeds and restores exactly what the newer schema selects |
| `Payload.RoundTrip` | crates/enclave/src/server/handlers.rs:282-379 | decrypting an encrypted payload with the same paths and key returns the original, for any two iteration orders and any payload |
| `Payload.TokensMatchPlaintexts` | crates/enclave/src/crypto/cipher.rs:109-157 | under one key, two encrypted leaves of any two payloads are equal if and only if the originals were |
| `PayloadHeap.Place` | crates/enclave/src/server/handlers.rs:18-30 | a received payload stands in new nodes, each in one place, that hold exactly its value |
| `PayloadHeap.Read` | crates/enclave/src/server/handlers.rs:117 | reading the nodes gives the value they hold and changes nothing |
| `PayloadHeap.AtPath` | crates/enclave/src/server/handlers.rs:282-312 | the in-place walk leaves in the nodes exactly what the pure walk computes, or fails with the same error |
| `PayloadHeap.AtField` | crates/enclave/src/server/handlers.rs:349-356 | descending into one member changes that member only, to what the pure walk computes for it |
| `PayloadHeap.AtItems` | crates/enclave/src/server/handlers.rs:357-363 | the loop over array elements transforms each in place and stops at the first failure |
| `PayloadHeap.OnePath` | crates/enclave/src/server/handlers.rs:320-323 | one iteration extends the order walked by its path |
| `PayloadHeap.PiiFields` | crates/enclave/src/server/handlers.rs:369-379 | iterating the path set in any order transforms the node tree into the one-pass image, and succeeds exactly when that is defined |
| `Resolver.TargetName` | crates/enclave/src/schema/resolver.rs:47-53 | a reference resolves only to a component defined in place; chained references do not resolve |
| `Resolver.WalkSchema` | crates/enclave/src/schema/resolver.rs:63-127 | terminates by rank of the component, then structure; adds to the accumulator exactly the paths built from the flagged positions below the schema |
| `Resolver.ResolvePiiPaths` | crates/enclave/src/schema/resolver.rs:24-39 | the resulting set is exactly the paths built from flagged positions of the components defined in place |
| `Resolver.EmitsUnfold` | crates/enclave/src/schema/resolver.rs:78-91 | the declarative path set unfolds one property or array step at a time |
| `Flags.FlaggedIffChain` | crates/enclave/src/schema/resolver.rs:47-127 | a position is flagged exactly when a chain of schemas leads to it, each standing at a property or at the items of the one before, in place or through `#/components/schemas/`, and the last one has `x-pii` true |
| `Flags.PathsOfChains` | crates/enclave/src/schema/resolver.rs:24-127 | the resolved paths are those written for the ends of such chains, and no others |
| `Flags.FlagIsOneExtension` | crates/enclave/src/schema/resolver.rs:79-84 | only the value under `x-pii` decides, whatever other extensions there are, and only the boolean true |
| `Flags.PropertyInlined` | crates/enclave/src/schema/resolver.rs:73-76 | a property given by reference flags what the component written in its place would |
| `Flags.ItemsInlined` | crates/enclave/src/schema/resolver.rs:102-105 | so do array items |
| `Resolver.PiiPaths` | crates/enclave/src/schema/resolver.rs:24-39 | the PII paths of an acyclic document form a finite set |
| `Resolver.EndsIffAcyclic` | crates/enclave/src/schema/resolver.rs:47-127 | the walks from all components end if and only if the components can be ranked above what they refer to |
| `Resolver.SelfReferenceNeverEnds` | crates/enclave/src/schema/resolver.rs:47-127 | a component whose property refers to itself: no ranking fits, and no depth of calls ends the walk |
| `EndToEnd.MeansFlagsIffFaithful` | crates/enclave/src/schema/resolver.rs:24-127 | the emitted paths, parsed back, select exactly the flagged positions if and only if every flagged position is faithful |
| `EndToEnd.EncryptsFlaggedLeaves` | crates/enclave/src/server/handlers.rs:267-325 | resolve, re-parse and encrypt: on a faithful document exactly the string leaves at flagged positions become tokens |
| `EndToEnd.PlainIsFaithful` | crates/enclave/src/schema/resolver.rs:63-127 | non-empty names without dots or `[]` endings, no array component and no array of arrays are enough |
| `EndToEnd.DottedNameIsMissed` | crates/enclave/src/schema/resolver.rs:67-71 | a document whose one flagged property, `a.b`, is selected by no path |
| `EndToEnd.DottedNameHitsAnother` | crates/enclave/src/schema/resolver.rs:67-71 | on that document the member `b` of `a`, which is not flagged, is selected instead |
| `KeyStore.DekBytes.Drop` | crates/enclave/src/dek/store.rs:29-34 | every byte of the buffer is zero afterwards, and no other buffer changes |
| `KeyStore.DekBytes.Clone` | crates/enclave/src/dek/store.rs:26-27 | the copy has the same bytes in a new buffer |
| `KeyStore.DekStore.Store` | crates/enclave/src/dek/store.rs:75-84 | 32 bytes replace the key in a new buffer and zero the old one; any other length is an error and changes nothing |
| `KeyStore.DekStore.Current` | crates/enclave/src/dek/store.rs:93-96 | a copy of the key in a new buffer, or NotInitialised |
| `KeyStore.DekStore.IsReady` | crates/enclave/src/dek/store.rs:64-66 | true exactly when a key is stored |
| `KeyStore.Vault.StoreNew` | crates/enclave/src/dek/store.rs:75-84 | storing leaves every outstanding copy alone and zeroes only the replaced key |
| `KeyStore.Vault.TakeCopy` | crates/enclave/src/dek/store.rs:86-96 | a handed-out copy shares its buffer with nothing; a copy that is not kept is zeroed |
| `KeyStore.Vault.ReleaseCopy` | crates/enclave/src/dek/store.rs:29-34 | dropping one copy zeroes its buffer and changes neither the store nor another copy |
| `KeyStore.Vault.Run` | crates/enclave/src/dek/store.rs:26-96 | over any interleaving of stores, reads and drops, buffers stay unshared and hold what the keys as values say, and every buffer ever stored or handed out that is now neither is all zeroes |
| `KeyStore.HeldKeySurvives` | crates/enclave/src/dek/store.rs:86-96 | a key held by a request is unchanged by any accesses until that request drops it |
| `KeyStore.HeldIsLastStored` | crates/enclave/src/dek/store.rs:75-96 | what a request takes is the 32-byte key last stored, and it holds that until it drops it, whatever comes between and after |
| `KeyStore.ReleasedStaysReleased` | crates/enclave/src/dek/store.rs:29-34 | a dropped copy is not held again without another read |
| `KeyStore.ReadyForever` | crates/enclave/src/dek/store.rs:64-84 | once stored, a 32-byte key is present after any accesses |
| `SchemaCaching.SchemaNameFromKey` | crates/enclave/src/schema/mod.rs:136-144 | the loop over extensions computes the one schema name of the key |
| `SchemaCaching.SchemaNameMeaning` | crates/enclave/src/schema/mod.rs:133-144 | it is the one name that, after the prefix if the key has it, and with `.yaml`, `.yml`, `.json` or, if none of them fits, nothing added, makes up the key |
| `SchemaCaching.NamesOfListedKeys` | crates/enclave/src/schema/mod.rs:150-164 | prefix, stem and any of the three extensions give the stem |
| `SchemaCaching.NameOfOtherKey` | crates/enclave/src/schema/mod.rs:166-177 | a key without the prefix and without those extensions is its own name |
| `SchemaCaching.CollectSucceeds` | crates/enclave/src/schema/mod.rs:63-98 | loading succeeds exactly when every object with a key is fetched and parsed |
| `SchemaCaching.CollectMeaning` | crates/enclave/src/schema/mod.rs:61-102 | each derived name maps to the last listed object deriving it, and there are no other names |
| `SchemaCaching.LoadAll` | crates/enclave/src/schema/mod.rs:42-107 | installs all collected documents with their PII paths, or fails and leaves the cache untouched |
| `SchemaCaching.SchemaCache.ReplaceAll` | crates/enclave/src/schema/cache.rs:79-92 | the new map has exactly the given names, each with its document and that document's PII paths |
| `SchemaCaching.LookupAfterLoad` | crates/enclave/src/schema/mod.rs:61-105 | after a load a lookup finds exactly the names that some listed key derives, each with the document last listed under it and the paths that document flags |
| `SchemaCaching.SchemaCache.Get` | crates/enclave/src/schema/cache.rs:67-73 | succeeds exactly for cached names, with that entry; from a consistent cache its paths are those its document flags; otherwise UnknownSchema with the name asked for |
| `Handlers.AppState.TransformAndDrop` | crates/enclave/src/server/handlers.rs:97-109 | success exactly when every selected leaf can be transformed; the copied key is zeroed afterwards |
| `Handlers.AppState.TransformWithKey` | crates/enclave/src/server/handlers.rs:82-109 | 503 without a key, otherwise the payload transformed in place with a copy of it or 500; the stored key is left alone |
| `Handlers.AppState.Handle` | crates/enclave/src/server/handlers.rs:23-118 | the response is the specified one; one latency sample is added and, for a success, one to the success count, for anything else one to the error count of that endpoint only; key store and cache are unchanged |
| `Handlers.AppState.Serve` | crates/enclave/src/server/handlers.rs:18-118 | for every payload, header and endpoint the whole response, body included, is the specified one, counted by its outcome |
| `Handlers.MeasuredIsCountThenRecord` | crates/enclave/src/server/handlers.rs:97-117 | what the uninterrupted handler measures is what the interleaved counting and recording steps do |
| `Handlers.AppState.Health` | crates/enclave/src/server/handlers.rs:124-140 | healthy exactly when a key is stored and some schema is cached |
| `ServiceSafety.RunKeepsInv` | crates/enclave/src/main.rs:262-317 | every state of every run: key absent or 32 bytes and present while serving, cached path sets agree with their documents, every answer is justified by the call's own paths and key |
| `ServiceSafety.KeyStep` | crates/enclave/src/dek/mod.rs:38-107 | the key changes by storing 32 fetched bytes, which always installs them, and by nothing else; a failed fetch or another length leaves it |
| `ServiceSafety.KeyLifecycle` | crates/enclave/src/dek/mod.rs:85-107 | readiness never reverts, and no handler ever answers 503 |
| `ServiceSafety.Provenance` | crates/enclave/src/server/handlers.rs:67-95 | every call arrived, then read its paths from the cache of one step, then its key from the store of a later step |
| `ServiceSafety.SuccessIsOneTransform` | crates/enclave/src/server/handlers.rs:68-117 | a successful response is the pure transform under one cached schema and one key, each current at the call's own read step |
| `ServiceSafety.AnswerIsAtomic` | crates/enclave/src/server/handlers.rs:148-243 | every finished call, with any outcome, was answered as an atomic handler would have |
| `ServiceSafety.PendingLoad` | crates/enclave/src/schema/mod.rs:113-131 | schemas waiting to be installed come from one completed load |
| `ServiceSafety.CacheStep` | crates/enclave/src/schema/mod.rs:42-131 | a swap installs one completed load whole, and every other step after startup leaves the cache as it is |
| `ServiceHistory.KeptWhileQuiet` | crates/enclave/src/schema/mod.rs:113-131 | while serving, the cache stays until a refresh installs another and the key until one is stored |
| `ServiceHistory.SchemaReadOnce` | crates/enclave/src/server/handlers.rs:68-80 | what a call holds as its paths, at any later step, is what the cache had at its one schema read |
| `ServiceHistory.KeyReadOnce` | crates/enclave/src/server/handlers.rs:82-95 | what a call holds as its key, at any later step, is what the store had at its one key read |
| `ServiceSafety.HealthWhileServing` | crates/enclave/src/server/handlers.rs:124-140 | in every run, healthy exactly with a key at the first read and a schema cached at the second, even steps apart; once serving, degraded only while no schema is cached |
| `ServiceCounters.RunKeepsTally` | crates/enclave/src/server/handlers.rs:97-117 | the counters equal the numbers of calls that reached each point, in every state |
| `ServiceCounters.CountersConserved` | crates/enclave/src/dek/mod.rs:92-106 | successes plus errors equal finished calls plus those returning, samples lie between, all agree when none is returning; store writes are one plus the rotation counter plus at most one not yet counted |
| `ServiceMeaning.CallCanProceed` | crates/enclave/src/server/handlers.rs:68-117 | a call that has not returned always has an enabled next step |
| `ServiceMeaning.RespondMeaning` | crates/enclave/src/server/handlers.rs:23-118 | 400 exactly without a cached schema, then 503 exactly without a key, then 500 exactly when some selected string fails, otherwise exactly the payload with the selected strings sealed or opened and all else as sent |
| `ServiceMeaning.ServingRun` | crates/enclave/src/main.rs:259-317 | the service starts with any 32-byte key and any listing whose documents load |
| `ServiceMeaning.CallCompletes` | crates/enclave/src/server/handlers.rs:23-118 | in every reachable serving state a new request can run to its end, with exactly the specified answer |
| `ServiceMeaning.DecryptCallRestores` | crates/enclave/src/server/handlers.rs:142-243 | a decrypt call given an encrypt call's output, with the same paths and key read, returns the payload first sent |
| `ServiceMeaning.QuietRoundTrip` | crates/enclave/src/server/handlers.rs:142-243 | the same over the run: with no schema installed between the two schema reads and no key stored between the two key reads, the payload first sent is returned |
| `ServiceMeaning.DecryptAfterRefresh` | crates/enclave/src/schema/mod.rs:113-131 | with schemas refreshed between the two calls but no key stored: exact success condition, and the label left at every position, in terms of the two cached path sets |
| `ServiceMeaning.CallsTokenise` | crates/enclave/src/crypto/cipher.rs:119-143 | across encrypt calls that read the same key, tokens are equal if and only if the leaves sent were |
| `ServiceMeaning.EncryptCallMeaning` | crates/enclave/src/server/handlers.rs:18-118 | a successful encrypt call changed exactly the leaves flagged by the document it found in the cache, under the key it found in the store |
| `ServiceChange.RotationStoreStep` | crates/enclave/src/dek/mod.rs:92-104 | 32 fetched bytes become the key; bytes of another length leave everything but the task's own state |
| `ServiceChange.RefreshSwapStep` | crates/enclave/src/schema/mod.rs:104 | the loaded schemas become the cache |
| `ServiceChange.FailureChangesNothing` | crates/enclave/src/dek/mod.rs:98-104 | a failed fetch or load leaves the service as it was |
| `ServiceChange.StartupFailureExits` | crates/enclave/src/main.rs:259-266 | a startup fetch or load that fails, or a key of another length, ends the process |
| `ServiceChange.ExitIsFinal` | crates/enclave/src/main.rs:259-266 | no run goes on after that, and no request was accepted |
| `ServiceChange.MayBeAbandoned` | crates/enclave/src/server/handlers.rs:82-84 | a call that waits for the key can be given up, which changes nothing else |
| `ServiceChange.AbandonedForever` | crates/enclave/src/server/handlers.rs:82-84 | such a call is never answered and never counted |
| `ServiceChange.PendingFetch` | crates/enclave/src/dek/mod.rs:38-80 | a key waiting to be stored is what the latest fetch returned |
| `ServiceChange.RotatedKeyIsHeld` | crates/enclave/src/dek/mod.rs:85-107 | over every run, a call that reads the key after a rotation and before the next holds the 32 bytes that rotation fetched |
| `ServiceChange.RotationSettles` | crates/enclave/src/dek/mod.rs:85-107 | from every reachable serving state the rotation task can come to its next wait |
| `ServiceChange.RotationCompletes` | crates/enclave/src/dek/mod.rs:85-107 | from there any 32-byte key can be rotated in, is counted once, and disturbs no request, counter or schema |
| `ServiceChange.ServedWithNewKey` | crates/enclave/src/dek/mod.rs:85-107 | so any 32-byte key can become the one the next request is answered with |
| `ServiceChange.RefreshedSchemaIsHeld` | crates/enclave/src/schema/mod.rs:113-131 | over every run, a call that reads its schema after a refresh and before the next holds the paths of the document that one completed load gave for its name |
| `ServiceChange.RefreshCompletes` | crates/enclave/src/schema/mod.rs:113-131 | from every reachable serving state with no load waiting any listing that loads can be installed whole, and disturbs no request, counter or key |
| `ServiceChange.ServedWithNewSchema` | crates/enclave/src/schema/mod.rs:113-131 | the next request is then answered with the document last listed under its name |

## Left out

- The internals of AES-256-GCM-SIV, HMAC-SHA256 and SHA-256: functions with the assumptions of `Cipher.Sound`; nothing is assumed about forgery or collisions.
- AWS calls (Secrets Manager, KMS, S3), YAML and JSON text parsing and HTTP extraction: each is an event that fails or returns a value.
- Which error a failing transform reports: with several failing leaves it depends on iteration order, and the handlers answer 500 for all of them.
- `Service.Enabled`: a load that contains a document with cyclic references is never installed; in the original the process runs out of stack there.
- Sharing of the nodes of a payload: `PayloadHeap` works on a tree each node of which has one owner, as Rust guarantees for an owned value.
- The nonce buffers that `from_str` and `derive_nonce` fill by slice copy are modelled as values of fixed length.
- The order in which properties and components are visited: the methods take them in any order, the original in document order.
- Time: ticks, latency values and timeouts; only the order of steps matters.
- vsock bridges, TLS, routing, middleware, configuration, telemetry set-up, log output and the 404 handler: none of them decides which fields are transformed, with what key, or what a handler answers.
