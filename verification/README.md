# ROK: scoped keys, envelopes and encrypted stores

This project models the core of ROK and proves what its layers promise together. An owner holds one
spend key. From it a tree of read keys is derived, one for each scope path. Data is sealed in envelopes
that name a scope or a list of recipients, are signed by the owner, travel in a binary format or in
protobuf structs, and are kept in stores that look like plain maps to whoever holds a suitable key.

The layers, lowest first:

- `Basics`, `Fields`: bytes, error variants, little-endian integers, length-prefixed blocks, repetition.
  A Rust `str` is modelled as its bytes, so lengths and prefix tests are byte-exact.
- `Scopes`, `Names`, `Encoding`: scope paths, and the small printers and parsers for composite keys,
  titles, resource URIs and key strings.
- `Primitives`: the cryptographic library calls as a record of functions with functional laws only
  (RFC 7748 section 6.1, RFC 8439 section 2.8, RFC 8452 section 4, RFC 8032 section 5.1, FIPS 203
  section 7). The type `Crypto` of lawful records has a symbolic instance as its witness, so the laws
  are consistent. Every theorem holds for every lawful record.
- `Derivation`, `Keys`, `Delegation`: the derivation loop, key pairs, and chains of derive, export, encode,
  decode and import steps.
- `Envelopes`, `EnvelopeCodec`, `SignedBytes`, `Sectioned`, `Proto`: the formats.
- `Encryption`, `Access`, `Hybrid`: encrypting, decrypting, re-keying, and who can open what.
- `Storage`, `Fileverse`, `Memory`, `SharedMemory`, `Vaults`, `Policies`, `Syncing`, `Credentials`: the stateful
  stores and loops on top.

Conventions. Code that changes state or runs a loop is a method or a class, proved equal to a
specification function; the promises are lemmas about those functions. Randomness is an argument
(`Coins`: what the generator hands out during one call, in order), and so is the time in policy queries.
A hash map's iteration order is left open: listings are specified as "each element once, in some order".
`Panic` stands for the place where the Rust code would abort on a slice copy. A scope key, a recipient
list and an envelope are values, as in the source; the builders, stores, the vault and the policy are
classes. Where recipients are looked up by key id, lookup takes the first entry with a
matching id, and "not shadowed" (`Access.NotShadowed`) says that the first recipient with a key's id has that
key. The specification functions are tied to the library calls they must make, not only to each other: what
`encrypt` and re-keying draw is what they use, what decryption gives is what the first entry and the payload
open to, with the error of the first thing missing, and each derivation has its own HKDF input.

Where a promise fails at the edges, the exact condition is proved:

- `to_bytes` then `from_bytes` restores an envelope if and only if every length fits its field and the
  version is at least 2; the printer always writes the mode byte, the parser expects it from version 2 on
  (`EnvelopeCodec.RoundTrip`).
- The signed bytes carry the scope without its length, so they determine the envelope exactly up to the
  length of its scope (`SignedBytes.SignedBytesDetermineEnvelope`, `SignedBytes.ScopeLengthMatters`). The
  comment on `signable_bytes` speaks of everything but the signature.
- Two names (scope and key) share a composite key exactly when one runs through the other: `b/c` under `/a`
  and `c` under `/a/b` (`Names.SharedExactly`). So a name has a namesake exactly when its scope is not root
  and either lies two or more levels deep or is followed in the key by a valid segment and a slash
  (`Names.AliasedExactly`). What the in-memory store then does is proved for all keys
  (`Memory.StoreKeepsLastWrites`), with a run in which one memory replaces another
  (`Memory.SlashedKeyLosesItsMemory`) and one in which a name that was never written reads another's content
  (`Memory.PhantomRead`). As the map from scope and key that its interface suggests, a list seen from root is
  exact exactly when no two written names share a composite key (`Memory.NoneLostExactly`); a read is exact
  exactly when nothing is stored under its composite key, its own memory is, or it may see the same content
  there (`Memory.StoreIsAMap`); and list and all reads together are so for a key at root exactly when no
  written name has a namesake, written or not (`Memory.MapForEveryName`). Slash-free keys throughout are
  enough (`Memory.SlashFreeStoreIsAMap`). The titles of the Fileverse backend do not collide
  (`Names.TitlesDistinct`).
- After an owner's synchronisation on the in-memory backend every valid entry reads back, and a second one
  writes nothing, exactly when entries that share a composite key agree and each reads back already or shares
  it with an entry under the session's scope (`Syncing.SyncReadsBackAndIsIdempotent`). An entry outside the
  session's scope that does not read back already is written by every synchronisation of it alone
  (`Syncing.OutsideEntryWrittenAgain`).
- An envelope that carries the valid signature of another one, where that signature verifies for no other
  bytes, fails the check exactly when its signed bytes differ (`Access.AlteredStaysClosed`). When the scopes
  have different lengths they need not differ (`Access.AlteredScopePasses`).
- Right after its grant a key has access at the scope exactly when it had it before, or the expiry in force
  there, which is that of the first grant, has not passed (`Policies.GrantChangesExactly`).
- A stored memory restores from its bytes exactly when its scope takes fewer than 2^16 bytes and its content
  fewer than 2^64 (`Memory.SealedBytesRestore`). A scope of 2^16 bytes makes its memory unreadable and every
  list above it fail (`Memory.LongScopeEndsList`).
- Titles and URIs are recovered exactly for non-empty keys without `:` and without `/` respectively, and the
  list filter finds the documents at or below a scope exactly when their keys are of the first kind.
- Printing a parsed container gives its bytes back exactly when every inner envelope uses up its block, in a
  current version (`Sectioned.ReprintContainer`); bytes left over in a block are dropped unnoticed
  (`Sectioned.SlackIsDropped`).
- A policy survives the protobuf structs exactly when no rule expires at time 0 and every key text encodes an
  8-byte id, as all texts made by grants do. The comment on `expires_at` calls 0 "no expiry"; the query
  treats `Some(0)` as expired, the conversion as none, and the model follows the code.
- `Vault::rekey` runs through exactly when no document lies under the scope, or the new list is not empty and
  the given key is on the list of every document there (`Vaults.RekeySucceedsExactly`); the owner's root key
  is no exception (`Vaults.UnlistedOwnerCannotRekey`). Its comment says the documents are decrypted with the
  spend key; the code needs the given read key on each document's list, and the model follows the code.

## Model

| member | source | states |
|---|---|---|
| `Scopes.NewAcceptsExactlyPaths` | crates/rok-core/src/keys/scope.rs:25-68 | a string is accepted if and only if it is root or a slash-joined list of non-empty segments |
| `Scopes.NoEmptySegment` | crates/rok-core/src/keys/scope.rs:56-65 | the last scan for empty segments can never fire after the checks before it |
| `Scopes.ComponentsOfScope` | crates/rok-core/src/keys/scope.rs:98-104 | the components of a scope are valid segments and render back to it |
| `Scopes.ComponentsOfRender` | crates/rok-core/src/keys/scope.rs:98-104 | every list of segments is the component list of the scope it renders to |
| `Scopes.AncestorIsPrefix` | crates/rok-core/src/keys/scope.rs:74-84 | the string prefix test is the prefix order on component lists, both directions |
| `Scopes.AncestorOrder` | crates/rok-core/src/keys/scope.rs:70-84 | partial order with root least, in which the ancestors of a scope form a chain |
| `Scopes.ParentUndoesChild` | crates/rok-core/src/keys/scope.rs:107-143 | a child has one component more, and its parent is the scope it came from |
| `Scopes.ParentStripsLast` | crates/rok-core/src/keys/scope.rs:107-116 | every scope but root has a parent, whose components are its own without the last |
| `Scopes.FilterIsAncestor` | crates/rok-sdk/src/storage/mod.rs:134-143 | on scopes the hand-written storage filter is the ancestor order |
| `Envelopes.SignableBytes` | crates/rok-core/src/envelope.rs:54-85 | the buffer loop produces the specified signed form |
| `Envelopes.ToBytes` | crates/rok-core/src/envelope.rs:104-161 | the buffer loop produces the specified layout, lengths truncated to their fields |
| `Envelopes.FromBytes` | crates/rok-core/src/envelope.rs:164-274 | the cursor parser computes the specified parser, errors included |
| `Envelopes.ReadEntries` | crates/rok-core/src/envelope.rs:219-238 | the loop over access entries reads the specified list or fails with its error |
| `EnvelopeCodec.ParseExactly` | crates/rok-core/src/envelope.rs:164-274 | parsing gives an envelope and a rest if and only if the data is the layout of that canonical envelope followed by the rest, for version 1 and later |
| `EnvelopeCodec.RoundTrip` | crates/rok-core/src/envelope.rs:104-274 | behind any trailing bytes, the printed envelope is restored if and only if its lengths fit and its version is at least 2 |
| `EnvelopeCodec.OldVersionShifts` | crates/rok-core/src/envelope.rs:116-201 | a version-1 envelope is never restored from its own print |
| `EnvelopeCodec.WireInOrder` | crates/rok-core/src/envelope.rs:104-161 | the printed bytes field by field, with literal magic, codes and widths |
| `EnvelopeCodec.SignableInOrder` | crates/rok-core/src/envelope.rs:54-85 | the signed bytes field by field |
| `EnvelopeCodec.ParseErrorsExactly` | crates/rok-core/src/envelope.rs:164-217 | a parse blames the scope if and only if all before it is in order and it is none; every other failure is a format error |
| `Fields.LEDigit` | crates/rok-core/src/envelope.rs:57-70 | byte i of a printed integer is its digit of 256 to the power of i |
| `EnvelopeCodec.Reprint` | crates/rok-core/src/envelope.rs:104-274 | printing a parsed envelope gives the consumed bytes back |
| `EnvelopeCodec.PrefixRejected` | crates/rok-core/src/envelope.rs:167-176 | every strict prefix of a printed envelope is rejected |
| `EnvelopeCodec.ParseExtends` | crates/rok-core/src/envelope.rs:164-274 | bytes behind a parsed envelope never change what is parsed |
| `EnvelopeCodec.SizeOfWire` | crates/rok-core/src/envelope.rs:104-161 | the printed size in closed form |
| `EnvelopeCodec.ConsumedSize` | crates/rok-core/src/envelope.rs:164-274 | a successful parse consumes exactly that size |
| `SignedBytes.SignedBytesDetermineEnvelope` | crates/rok-core/src/envelope.rs:53-85 | equal signed bytes mean equal fields, up to signature and empty ML-KEM ciphertext, if and only if the scopes have equal length |
| `SignedBytes.SignedExactly` | crates/rok-core/src/envelope.rs:53-85 | at one scope length, two envelopes have the same signed bytes if and only if they are the same up to signature and empty ML-KEM ciphertext |
| `SignedBytes.ScopeLengthMatters` | crates/rok-core/src/envelope.rs:60-61 | two envelopes, at `/a` and `/aa`, have the same signed bytes |
| `Derivation.DeriveChildReadSecret` | crates/rok-core/src/derive.rs:44-82 | the loop over levels computes the specified walk, and fails for the same scopes |
| `Derivation.StepwiseIsDirect` | crates/rok-core/src/derive.rs:36-82 | deriving A to B and then B to C gives the secret of A to C |
| `Derivation.InfosArePrefixes` | crates/rok-core/src/derive.rs:68-79 | the info strings of a walk are the successive scope prefixes, each an ancestor of the target |
| `Derivation.DistinctScopesDistinctSecrets` | crates/rok-core/src/derive.rs:68-79 | with HKDF as a free constructor, secrets are equal if and only if the scopes are |
| `Derivation.WalkIsInterpreted` | crates/rok-core/src/derive.rs:62-81 | the real walk is the free one with HKDF under the read-child salt for the constructor, so its infos are those of `InfosArePrefixes` |
| `Derivation.WalksApart` | crates/rok-core/src/derive.rs:36-81 | where HKDF does not collide on what two walks expand, their secrets are equal if and only if root secrets and scopes are |
| `Derivation.PurposesSeparate` | crates/rok-core/src/derive.rs:8-127 | each derivation is one HKDF call on its own salt, input key and info, and two that HKDF tells apart are equal only for one purpose and one set of arguments |
| `Encoding.TaggedRoundTrip` | crates/rok-core/src/encoding.rs:25-59 | a payload decodes under its own tag and gives a tag error under every other |
| `Encoding.TaggedExactly` | crates/rok-core/src/encoding.rs:35-59 | a string is accepted if and only if its bytes are tag, payload and the double-hash checksum of both; errors are of the first thing wrong |
| `Encoding.WrongChecksumRefused` | crates/rok-core/src/encoding.rs:52-56 | any other checksum is refused |
| `Encoding.SpendPublicRoundTrip` | crates/rok-core/src/encoding.rs:62-78 | a spend public key comes back if and only if it is a valid point, and derived ones always do |
| `Encoding.ReadPublicRoundTrip` | crates/rok-core/src/encoding.rs:83-106 | a read public key and its scope come back |
| `Encoding.SpendPublicExactly` | crates/rok-core/src/encoding.rs:67-78 | a spend key is read exactly from its own tagged bytes, if it is a valid point |
| `Encoding.ReadPublicExactly` | crates/rok-core/src/encoding.rs:92-106 | a read public key is read exactly from the key followed by its scope |
| `Encoding.ExportedKeyExactly` | crates/rok-core/src/encoding.rs:130-166 | an exported key is read exactly from its parts in order; every flag but 1 is read as no parent |
| `Encoding.ExportedWritten` | crates/rok-core/src/encoding.rs:111-127 | an exported key is written as its parts in order, with a flag of 1 or 0 |
| `Encoding.ExportedKeyRoundTrip` | crates/rok-core/src/encoding.rs:25-166 | an exported key, with or without parent, comes back, and is refused by both public-key decoders and under every other tag |
| `Delegation.DeriveChildIsOwned` | crates/rok-core/src/keys/read.rs:79-97 | narrowing an owner's key gives the owner's key for the child scope, with the parent's id |
| `Delegation.DerivesExactly` | crates/rok-core/src/keys/read.rs:79-97 | narrowing any key succeeds if and only if the scope is strictly below its own; the result is a proper pair with the parent's id |
| `Delegation.SegmentIsChild` | crates/rok-core/src/keys/read.rs:100-103 | a segment step gives the key one component below, and fails if and only if it is no segment |
| `Delegation.ImportExactly` | crates/rok-core/src/keys/read.rs:126-144 | an exported key is imported if and only if its public half belongs to its secret |
| `Delegation.OwnerSecretsApart` | crates/rok-core/src/derive.rs:25-81 | two owners' secrets at two scopes are equal if and only if owner and scope are, where HKDF does not collide |
| `Delegation.HandoverKeeps` | crates/rok-core/src/keys/read.rs:118-144 | export, encode, decode, import gives the same key |
| `Delegation.DelegatedKeysAreOwned` | crates/rok-core/src/keys/read.rs:79-144 | a key reached by any chain has the secret the owner derives for its scope, lies below the start, and names a proper ancestor's key as parent unless it is root |
| `Delegation.ReachableExactlyBelow` | crates/rok-core/src/keys/read.rs:72-103 | a scope can be reached by some chain if and only if it is at or below the key's scope |
| `Delegation.PathIndependence` | crates/rok-core/src/keys/read.rs:79-103 | two chains from the root ending at one scope give the same key material |
| `Delegation.ScopeKeyIsOwned` | crates/rok-core/src/keys/spend.rs:71-77 | the owner's key for any scope exists and is the owner's, root included |
| `Encryption.WrapEach` | crates/rok-core/src/encrypt.rs:265-277 | the loop wraps the data key once for each recipient, in order |
| `Encryption.EncryptBuilder.Encrypt` | crates/rok-core/src/encrypt.rs:220-304 | the builder computes the specified signed envelope or error |
| `Encryption.RekeyRecipients` | crates/rok-core/src/encrypt.rs:386-477 | the method computes the specified re-addressed envelope or error, checks in order |
| `Access.PayloadOpens` | crates/rok-core/src/encrypt.rs:22-64 | a sealed payload, split into ciphertext and tag, opens to the plaintext and keeps its length |
| `Access.AssembledIsSealed` | crates/rok-core/src/encrypt.rs:252-303 | what `encrypt` assembles is signed by the owner and sealed for its audience |
| `Access.DataKeyRecovered` | crates/rok-core/src/encrypt.rs:343-361 | a listed key recovers the data key through the first matching entry, an unlisted one gets no entry |
| `Access.FoundIsFirst` | crates/rok-core/src/encrypt.rs:345-349 | lookup finds the first entry with the id, if and only if there is one |
| `Access.RecoversExactly` | crates/rok-core/src/encrypt.rs:343-361 | for any envelope, the data key is what the exchange with the sender unwraps from that entry; otherwise no entry or a decryption error |
| `Access.DecryptsExactly` | crates/rok-core/src/encrypt.rs:308-375 | for any envelope, decryption gives a plaintext if and only if signature, scope, entry and payload open to it; the error is of the first of these missing |
| `Access.EncryptUsesItsCoins` | crates/rok-core/src/encrypt.rs:220-304 | in both modes the payload is sealed under the data key and nonce drawn, every entry wraps that key under its own nonce, and all other fields are as asked for |
| `Access.EncryptFailsExactly` | crates/rok-core/src/encrypt.rs:220-250 | encryption fails if and only if there is no spend key, or outside scope mode no recipient |
| `Access.RecipientsOpen` | crates/rok-core/src/encrypt.rs:308-375 | a recipient envelope opens for exactly the listed keys; others get the no-entry error with their id |
| `Access.ScopeSealedOpens` | crates/rok-core/src/encrypt.rs:320-361 | a scope envelope opens for every owner's key at or above its scope and gives a scope mismatch to every other |
| `Access.ScopeSealedForAnyKey` | crates/rok-core/src/encrypt.rs:320-361 | anyone's key above the scope opens a scope envelope if and only if the key derived from it is the owner's; else it finds no entry, and elsewhere it is a scope mismatch |
| `Access.ScopeEncryptionOpensAbove` | crates/rok-core/src/encrypt.rs:220-375 | scope encryption followed by decryption with a key delegated along any chain gives the plaintext or the mismatch |
| `Access.RekeyMovesAccess` | crates/rok-core/src/encrypt.rs:386-477 | re-keying succeeds if and only if the key is listed and the new list is not empty; payload fields stay, access moves |
| `Access.RekeysExactly` | crates/rok-core/src/encrypt.rs:386-477 | any envelope is re-keyed if and only if it is a recipient envelope with a valid signature of its own, there are recipients, and the key unwraps a data key; payload and mode stay, entries are fresh for that key |
| `Access.RekeyErrors` | crates/rok-core/src/encrypt.rs:393-436 | which error a refused re-keying gives |
| `Access.AlteredNeverRekeyed` | crates/rok-core/src/encrypt.rs:404-412 | an envelope carrying another one's signature, which vouches for no other bytes, is never signed anew |
| `Access.RekeyChain` | crates/rok-core/src/encrypt.rs:386-477 | any chain of re-keyings runs through if and only if each call is permitted, and keeps the payload |
| `Access.LastListDecides` | crates/rok-core/src/encrypt.rs:308-477 | after any chain exactly the keys of the last list read the original plaintext |
| `Access.SignedBytesDetermineDecryption` | crates/rok-core/src/encrypt.rs:308-375 | envelopes with one signed form, one scope length and one signature decrypt alike |
| `Access.AlteredStaysClosed` | crates/rok-core/src/encrypt.rs:308-318 | an envelope carrying the signature of another, which verifies for no other bytes, fails the signature check for every key if and only if its signed bytes differ or the signature was not valid; at one scope length it decrypts like the other if nothing signed differs and fails otherwise |
| `Access.AlteredScopePasses` | crates/rok-core/src/encrypt.rs:308-318 | the owner's signature on one envelope verifies on another one at another scope, so the alteration passes the check |
| `Access.BinaryCopyDecryptsAlike` | crates/rok-core/src/envelope.rs:104-274 | the binary-restored copy has the same signed bytes and decrypts alike, value or error, for every key |
| `Access.ScopeEnvelopeFits` | crates/rok-core/src/encrypt.rs:282-296 | a scope envelope fits the binary format if and only if scope and plaintext do |
| `Sectioned.SectionedEnvelope.RekeySection` | crates/rok-core/src/sectioned.rs:81-106 | the first section of the name is replaced, or the container is unchanged and the error returned |
| `Sectioned.SectionedEnvelope.ToBytes` | crates/rok-core/src/sectioned.rs:119-137 | the loop writes the specified container layout |
| `Sectioned.FromBytes` | crates/rok-core/src/sectioned.rs:140-189 | the cursor parser computes the specified container parser |
| `Sectioned.SectionedEnvelopeBuilder.AddSection` | crates/rok-core/src/sectioned.rs:218-227 | a used name is refused and leaves the builder as it was; otherwise the section is appended |
| `Sectioned.SectionedEnvelopeBuilder.Build` | crates/rok-core/src/sectioned.rs:230-240 | built containers are non-empty with pairwise distinct names |
| `Sectioned.ContainerRoundTrip` | crates/rok-core/src/sectioned.rs:119-189 | for any number of sections the container is restored if and only if it and all inner envelopes fit |
| `Sectioned.ContainerInOrder` | crates/rok-core/src/sectioned.rs:119-137 | the printed container field by field |
| `Sectioned.ContainerPrefixRejected` | crates/rok-core/src/sectioned.rs:140-189 | every strict prefix of a printed container is rejected |
| `Sectioned.NamesSurvive` | crates/rok-core/src/sectioned.rs:119-241 | the round trip keeps names, number and distinctness |
| `Sectioned.FormatsAreDisjoint` | crates/rok-core/src/sectioned.rs:154-160 | neither binary parser accepts the other's output |
| `Sectioned.RekeySectionIsLocal` | crates/rok-core/src/sectioned.rs:81-106 | re-keying the first section of a name moves its access and touches no other section and no name, repeated names included |
| `Sectioned.SectionRekeysExactly` | crates/rok-core/src/sectioned.rs:81-106 | for any container, a section is re-keyed if and only if it is found and its envelope may be; only that envelope's access changes |
| `Sectioned.SectionsRekeyAlone` | crates/rok-core/src/sectioned.rs:81-106 | a chain of re-keyings on a container runs through if and only if all names are found and each section's own calls run through alone, and does the same to each section |
| `Sectioned.SectionChainMovesAccess` | crates/rok-core/src/sectioned.rs:81-106 | after any chain on a container each section keeps its payload and is sealed for the last list that reached it |
| `Sectioned.ReprintContainer` | crates/rok-core/src/sectioned.rs:119-189 | printing a parsed container gives the consumed bytes back if and only if every inner envelope, in a current version, uses up its block |
| `Sectioned.SlackIsDropped` | crates/rok-core/src/sectioned.rs:172-184 | a container whose block holds one byte more than its envelope parses and prints differently |
| `Proto.EnvelopeFromProto` | crates/rok-core/src/proto.rs:250-334 | the checks and the entry loop compute the specified conversion |
| `Proto.ProtoRoundTrip` | crates/rok-core/src/proto.rs:227-334 | every envelope comes back in normal form, and every accepted struct is the image of its result |
| `Proto.StructsMatchExactly` | crates/rok-core/src/proto.rs:227-334 | both conversions keep every field in its place; a struct is accepted if and only if it matches an envelope |
| `Proto.StructErrors` | crates/rok-core/src/proto.rs:250-334 | which error a refused struct gives |
| `Proto.ProtoCopyDecryptsAlike` | crates/rok-core/src/proto.rs:227-334 | the copy restored through the structs signs and decrypts like the original |
| `Proto.SectionedFromProto` | crates/rok-core/src/proto.rs:422-435 | the section loop computes the specified conversion and stops at the first error |
| `Proto.SectionsExactly` | crates/rok-core/src/proto.rs:422-435 | a container struct converts if and only if every section has an envelope that does; otherwise the first bad section's error |
| `Proto.ContainerProtoRoundTrip` | crates/rok-core/src/proto.rs:383-435 | containers come back through the structs without any bound |
| `Hybrid.HybridAgreement` | crates/rok-pq/src/hybrid.rs:32-78 | both sides, deriving the ML-KEM pair on their own, combine the same secret |
| `Hybrid.HybridOpens` | crates/rok-pq/src/envelope.rs:137-181 | the owner's key at the envelope's scope opens it |
| `Hybrid.HybridOpensAbove` | crates/rok-pq/src/envelope.rs:23-182 | hybrid encryption opens for any delegated key at or above the scope and gives a scope mismatch otherwise |
| `Hybrid.HybridForAnyKey` | crates/rok-pq/src/envelope.rs:99-182 | anyone's key gets a scope mismatch outside the order, no entry if the key derived from it is not the owner's, and the plaintext if its secret is |
| `Hybrid.HybridUsesItsCoins` | crates/rok-pq/src/envelope.rs:23-93 | payload, both exchanges and the wrapped key use what was drawn, and all other fields are as asked for |
| `Hybrid.HybridDecryptsExactly` | crates/rok-pq/src/envelope.rs:99-182 | for any envelope, hybrid decryption gives a plaintext if and only if algorithm, signature, scope, both exchanges, entry and payload open to it; the error is of the first missing |
| `Hybrid.AlteredHybridStaysClosed` | crates/rok-pq/src/envelope.rs:106-117 | under a signature that vouches for no other bytes a hybrid envelope fails the check for every key if and only if its signed bytes differ; equally signed ones decrypt alike |
| `Hybrid.HybridCopiesAlike` | crates/rok-pq/src/envelope.rs:99-182 | copies of any encodable envelope, through bytes or protobuf structs, decrypt alike, value or error, for every key |
| `Hybrid.HybridEnvelopeSurvives` | crates/rok-pq/src/envelope.rs:23-93 | what hybrid encryption makes survives the binary format if and only if scope and plaintext fit |
| `Hybrid.HybridNormalFormAlike` | crates/rok-pq/src/envelope.rs:149-164 | an empty and an absent ML-KEM ciphertext decrypt alike |
| `Names.SharedExactly` | crates/rok-sdk/src/storage/mod.rs:68-70 | two names have one composite key if and only if they are the same or one runs through the other, for all keys |
| `Names.SlashFreeUnambiguous` | crates/rok-sdk/src/storage/mod.rs:68-70 | names with slash-free keys never share a composite key |
| `Names.AliasedExactly` | crates/rok-sdk/src/storage/mod.rs:68-70 | a name shares its composite key with another if and only if its scope is not root and is two levels deep or goes on in the key with a valid segment and a slash |
| `Names.SharedNames` | crates/rok-sdk/src/storage/mod.rs:68-70 | concrete names that share a composite key |
| `Names.TitleRoundTrip` | crates/rok-sdk/src/storage/fileverse.rs:75-86 | a title gives scope and key back if and only if the key is non-empty and has no colon |
| `Names.TitlesDistinct` | crates/rok-sdk/src/storage/fileverse.rs:120-125 | titles are equal if and only if scope and key are, for all keys |
| `Names.ParseTitleExactly` | crates/rok-sdk/src/storage/fileverse.rs:75-86 | any string parses as a title if and only if it is the prefix, a scope part, a colon and a non-empty colon-free key |
| `Names.UriRoundTrip` | crates/rok-mcp/src/tools.rs:680-702 | a resource URI gives scope, root included, and key back if and only if the key is non-empty and has no slash |
| `Names.SplitUriExactly` | crates/rok-mcp/src/tools.rs:680-702 | any string splits as a URI if and only if it is that of a scope and non-empty slash-free key, or root's with one slash |
| `Fileverse.FilterDocs` | crates/rok-sdk/src/storage/fileverse.rs:248-263 | the filter loop keeps the specified documents in order |
| `Fileverse.KeptExactly` | crates/rok-sdk/src/storage/fileverse.rs:250-261 | a document is kept if and only if its title parses, its body decodes and its scope is under the prefix |
| `Fileverse.FilterFindsItems` | crates/rok-sdk/src/storage/fileverse.rs:250-261 | over stored documents the filter returns exactly the items at or below the scope, whole and in order, if and only if their keys are non-empty and without colon |
| `Storage.MemoryStorage.Put` | crates/rok-sdk/src/storage/mod.rs:80-109 | insert or overwrite under the composite key, which is the returned id |
| `Storage.MemoryStorage.GetByKey` | crates/rok-sdk/src/storage/mod.rs:111-126 | the entry under the composite key, or a storage error |
| `Storage.MemoryStorage.List` | crates/rok-sdk/src/storage/mod.rs:128-146 | exactly the entries under the prefix, each once |
| `Storage.MemoryStorage.Delete` | crates/rok-sdk/src/storage/mod.rs:148-158 | removes the entry, or reports that there is none |
| `Memory.MemoryStore.Write` | crates/rok-sdk/src/memory.rs:45-55 | encrypt, serialise and put; on an error nothing is stored |
| `Memory.MemoryStore.AcceptProposal` | crates/rok-sdk/src/memory.rs:100-102 | accepting a proposal is the write of its content |
| `Memory.MemoryStore.Read` | crates/rok-sdk/src/memory.rs:60-64 | fetch, parse and decrypt, with the first error of the three |
| `Memory.MemoryStore.List` | crates/rok-sdk/src/memory.rs:67-94 | the loop shows the listed entries, skipping undecryptable ones and stopping at malformed ones |
| `Memory.MemoryStore.GrantAccess` | crates/rok-sdk/src/memory.rs:108-115 | exports the owner's key for the scope |
| `Memory.MemoryReader.List` | crates/rok-sdk/src/memory.rs:145-168 | the agent's loop shows what the owner's would under its verification key |
| `Memory.GrantIsOwned` | crates/rok-sdk/src/memory.rs:108-115 | a granted key always exists and imports as the owner's key for that scope |
| `Memory.SealedBytesRestore` | crates/rok-sdk/src/memory.rs:45-55 | a write's encryption never fails, and its bytes restore the envelope if and only if scope and content fit |
| `Memory.LongScopeEndsList` | crates/rok-sdk/src/memory.rs:45-94 | one memory with a scope of a multiple of 2^16 bytes reads as an invalid scope and ends every list above it with that error |
| `Memory.WriteUpdates` | crates/rok-sdk/src/memory.rs:45-55 | a write never fails and, whatever the key, replaces the memory behind its composite key |
| `Memory.ReadSees` | crates/rok-sdk/src/memory.rs:60-64 | a read gives the content behind the composite key, an unknown-entry error, or a scope mismatch, by map and ancestor order |
| `Memory.ListSeesExactly` | crates/rok-sdk/src/memory.rs:67-94 | a list shows exactly the memories at or below the key's scope, each once, with current contents |
| `Memory.ShowsWhatOpens` | crates/rok-sdk/src/memory.rs:67-94 | a list of any entries fails if and only if one does not parse or opens at no scope, with the first such error; otherwise it shows exactly those that open, in order, and passes over all others |
| `SharedMemory.ListSeesOwn` | crates/rok-sdk/src/memory.rs:67-94 | on a backend of many owners a list shows exactly one's own memories at or below the key's scope |
| `SharedMemory.ReadSeesOwn` | crates/rok-sdk/src/memory.rs:60-64 | a read of another owner's entry is a signature failure |
| `SharedMemory.EachOwnerSeesOwn` | crates/rok-sdk/src/memory.rs:45-168 | after any run of writes by any owners on one backend each delegated key lists and reads its own owner's memories only |
| `Memory.StoreKeepsLastWrites` | crates/rok-sdk/src/memory.rs:45-102 | after any run of writes and accepted proposals on an empty store, whatever the keys, list and read show the last memory under each composite key, for a key delegated along any chain |
| `Memory.StoreIsAMap` | crates/rok-sdk/src/memory.rs:45-102 | after any such run a list agrees with the map of last contents by scope and key if and only if no name below the key's scope was lost to a namesake; a read agrees if and only if its composite key is free, holds its own memory, or shows it the same content, as when no other written name shares it |
| `Memory.MapForEveryName` | crates/rok-sdk/src/memory.rs:45-94 | for a key at root, nothing is lost and reads under all names agree if and only if no written name has a namesake, written or not |
| `Memory.PhantomRead` | crates/rok-sdk/src/memory.rs:45-64 | after one write, a read under a name never written gives its content |
| `Memory.NoneLostExactly` | crates/rok-sdk/src/memory.rs:45-94 | no memory is lost to a list from root if and only if no two written names share a composite key |
| `Memory.SlashFreeStoreIsAMap` | crates/rok-sdk/src/memory.rs:45-102 | with slash-free keys list and read are those of the map of last contents |
| `Memory.SlashedKeyLosesItsMemory` | crates/rok-sdk/src/memory.rs:45-94 | the run of two writes in which the second replaces the first under another name |
| `Vaults.Vault.Store` | crates/rok-sdk/src/vault.rs:41-57 | encrypt and insert; on an error nothing changes |
| `Vaults.Vault.Retrieve` | crates/rok-sdk/src/vault.rs:60-67 | decrypt the named document or report it missing |
| `Vaults.Vault.List` | crates/rok-sdk/src/vault.rs:70-87 | the matching documents, each once, with scope, size and recipient count |
| `Vaults.ListShowsContents` | crates/rok-sdk/src/vault.rs:70-87 | a listing has exactly one entry for each document at or below the filter, with its scope, plaintext length and number of recipients |
| `Vaults.Vault.Rekey` | crates/rok-sdk/src/vault.rs:93-125 | when it succeeds, its count, the error when it stops, that every document is untouched or wholly re-encrypted, and that no two share their randomness |
| `Vaults.RekeySucceedsExactly` | crates/rok-sdk/src/vault.rs:93-125 | re-keying runs through if and only if no document lies under the scope, or there are new recipients and the key is listed on each document there |
| `Vaults.UnlistedOwnerCannotRekey` | crates/rok-sdk/src/vault.rs:89-115 | the owner's root key, unlisted on one document under the scope, cannot decrypt it and stops the re-keying |
| `Vaults.StoredIsDocument` | crates/rok-sdk/src/vault.rs:41-57 | recipient encryption succeeds if and only if there are recipients, and seals for them |
| `Vaults.StoreUpdates` | crates/rok-sdk/src/vault.rs:41-57 | storing is an update of scope, recipients and plaintext under the name, or an error without recipients |
| `Vaults.DocumentOpens` | crates/rok-sdk/src/vault.rs:60-67 | a document opens for exactly its recipients |
| `Vaults.RekeyReaddresses` | crates/rok-sdk/src/vault.rs:93-125 | re-keying, completed or interrupted, gives documents under the scope the new recipients, all of them if that is possible, and keeps names, scopes and plaintexts |
| `Vaults.RunRefines` | crates/rok-sdk/src/vault.rs:41-125 | every run of stores and re-keyings is a run on the map of scopes, recipients and plaintexts |
| `Vaults.VaultRun` | crates/rok-sdk/src/vault.rs:41-125 | after any run on an empty vault, re-keyings interrupted or not, the documents hold the scopes and plaintexts last stored |
| `Vaults.VaultRunReads` | crates/rok-sdk/src/vault.rs:60-67 | after any such run a document gives the data last stored to exactly the keys on its list |
| `Policies.AccessPolicy.Grant` | crates/rok-sdk/src/policy.rs:30-46 | the rule list after a grant |
| `Policies.AccessPolicy.Revoke` | crates/rok-sdk/src/policy.rs:49-56 | the rule list after a revocation |
| `Policies.AccessPolicy.KeyIdsForScope` | crates/rok-sdk/src/policy.rs:61-87 | the result is strictly sorted and holds exactly the keys of unexpired rules at or above the scope |
| `Policies.StrictlySortedUnique` | crates/rok-sdk/src/policy.rs:84-86 | being strictly sorted, that result is determined by its elements |
| `Policies.GrantRefines` | crates/rok-sdk/src/policy.rs:30-46 | a grant acts on the map from scopes to key sets; the first grant's expiry stays |
| `Policies.RevokeRefines` | crates/rok-sdk/src/policy.rs:49-56 | a revocation removes one key of one scope from the map |
| `Policies.GrantChangesExactly` | crates/rok-sdk/src/policy.rs:30-81 | a grant adds access for its key at or below its scope if and only if the expiry in force there has not passed, and changes nothing else |
| `Policies.GrantLastsThroughExpiry` | crates/rok-sdk/src/policy.rs:61-87 | a grant shows up to and including the second of its expiry, and without one always |
| `Policies.RevokeChangesExactly` | crates/rok-sdk/src/policy.rs:49-81 | a revocation leaves exactly the access that does not rest on that key at that scope |
| `Policies.RunRefines` | crates/rok-sdk/src/policy.rs:30-56 | any run keeps one rule per scope without repeated keys and acts on the map |
| `Policies.PolicyIsAMap` | crates/rok-sdk/src/policy.rs:30-87 | after any run on an empty policy the query returns exactly what the map grants |
| `Policies.AccessGrowsDownwards` | crates/rok-sdk/src/policy.rs:58-81 | moving to a descendant scope, or back in time, only adds keys |
| `Policies.ProtoRoundTrip` | crates/rok-sdk/src/policy.rs:116-171 | the structs carry the rules if and only if none expires at time 0 and every key text encodes an 8-byte id |
| `Syncing.Sync` | crates/rok-mcp/src/tools.rs:507-586 | the loop computes the specified entries and tally, after loading the session's keys in order |
| `Syncing.EveryEntryCounted` | crates/rok-mcp/src/tools.rs:527-564 | written, skipped, proposed and errors add up to the entries; an agent writes nothing, an owner proposes nothing |
| `Syncing.AgentSyncCounts` | crates/rok-mcp/src/tools.rs:527-564 | an agent's sync skips exactly the entries held already, proposes the other valid ones and stores nothing |
| `Syncing.EachWriteDrawsItsOwn` | crates/rok-mcp/src/tools.rs:541-557 | what an owner's sync changes are writes of its entries, each with randomness of its own |
| `Syncing.SwappedStringsRefused` | crates/rok-mcp/src/tools.rs:519-525 | an agent's two strings, swapped, are refused by the spend key's tag |
| `Syncing.OwnerSyncUpserts` | crates/rok-mcp/src/tools.rs:532-564 | an owner's sync upserts every valid entry in order, whatever its key, and only invalid scopes are errors |
| `Syncing.SyncReadsBackAndIsIdempotent` | crates/rok-mcp/src/tools.rs:527-564 | afterwards every valid entry reads back, and a second sync writes nothing, if and only if entries that share a composite key agree and each reads back already or shares it with a readable entry |
| `Syncing.CoveredReadable` | crates/rok-mcp/src/tools.rs:541-557 | for entries under the session's scope that condition is that those sharing a composite key agree |
| `Syncing.OutsideEntryWrittenAgain` | crates/rok-mcp/src/tools.rs:541-557 | an entry outside the session's scope that does not read back already is a scope mismatch right after its write, and the next sync of it writes it again |
| `Syncing.DistinctSlashFreeAgree` | crates/rok-mcp/src/tools.rs:527-564 | entries with slash-free keys and distinct scope and key agree |
| `Syncing.GrantedAgentSees` | crates/rok-mcp/src/tools.rs:444-460 | an agent logging in with the granted strings lists and reads exactly the memories at or below the granted scope |
| `Credentials.Issue` | crates/rok-sdk/src/identity.rs:32-59 | every attribute is encrypted for the recipients under its name and scope, with randomness of its own; it fails if and only if there are attributes and no recipients |
| `Credentials.IssuedAreDocuments` | crates/rok-sdk/src/identity.rs:32-59 | what is issued are documents sealed for the recipients |
| `Credentials.Disclose` | crates/rok-sdk/src/identity.rs:65-88 | the loop discloses as specified, skipping and stopping on the same errors |
| `Credentials.DisclosesWhatOpens` | crates/rok-sdk/src/identity.rs:65-88 | for any attributes, disclosure fails if and only if one in reach fails for another reason than a missing entry, with the first such error; otherwise it gives exactly those in reach that open |
| `Credentials.DisclosureIsSelective` | crates/rok-sdk/src/identity.rs:65-88 | disclosure never fails on an issued credential; a listed key sees exactly the attributes at or below its scope, an unlisted key none |

## Left out

- Memory.StoreIsAMap: for scopes under 65536 bytes and contents under 2^64 bytes, the sizes `Memory.SealedBytesRestore` shows to be those that restore; what a reader makes of the truncated bytes beyond them is not modelled further.
- Access.AlteredStaysClosed: takes as a hypothesis that the one signature at hand verifies for no other bytes, because nothing is assumed about forgery; that alterations of the scope's length can keep the signed bytes is `Access.AlteredScopePasses`.
- Hybrid.HybridForAnyKey: says nothing of a key with the owner's public half and another secret, which the laws of key exchange do not exclude.
- Access.RecipientsOpen: assumes that the first recipient with the key's id has the key, because lookup goes by the first 8 bytes of a hash; a shadowed key tries the wrong entry, of which the laws say nothing.
- SharedMemory.EachOwnerSeesOwn: takes as a hypothesis that the owner's verification key rejects the other owners' signatures, because nothing is assumed about forgery.
- Derivation.WalksApart: takes as a hypothesis that HKDF does not collide on the finitely many inputs in play.
- SignedBytes.SignedBytesDetermineEnvelope: for counts that fit the signed u32 and u64 fields, which truncate beyond.
- Syncing.Sync: on the in-memory backend, where the session opens the Fileverse backend (crates/rok-mcp/src/session.rs:203-210), so what is said of shared composite keys belongs to the former; the HTTP calls of the Fileverse backend are not part of the model, only its title parsing and list filter.
- The inside of X25519, Ed25519, ChaCha20-Poly1305, AES-GCM-SIV, HKDF, SHA-256, ML-KEM and base58: only the functional laws in `Primitives` are assumed, and nothing is claimed about secrecy or forgery.
- The length limits at which the ciphers refuse to encrypt, zeroisation, the storage mutex and its poisoning, and machine overflow of the parser's cursor: positions are unbounded integers.
- The text of error messages; error variants and their structured fields are kept.
- Protobuf byte encoding, JSON of policies, and the protobuf structs of keys: only the structs of envelopes, sections and policies are modelled.
- Timestamps of stored entries, which nothing modelled reads.
- Metadata accessors, `MemoryKeyring`, `Pipeline`, session and configuration files, the command line and the remaining server tools: they would only add easy members.
