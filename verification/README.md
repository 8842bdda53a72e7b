# Teaclave TrustZone SDK: a verified model of its stateful core

A Dafny model of the parts of the SDK that keep state, own resources or compute sizes
and encodings, with proofs about all their inputs and all their runs.
`dafny verify dfyconfig.toml` checks everything.

How the modelling is done:

- A call into the TEE, the client library, a socket or the allocator is a step whose
  outcome is a parameter. A theorem over all parameters is a theorem over every behaviour
  of the other side.
- Each operation is a step function on values. Where the source changes things in place,
  a class with those fields has methods proved to perform exactly that step, and the
  theorems about runs are about the steps. For handles, `Performs` says it for every
  world the code may run in.
- Serialisers (`bincode`) are parameters assumed to read back what they wrote. The HMAC is
  a parameter. ELF headers and symbols are taken as parsed.
- Released resources are accounted for in a log (`Ledger`): a log is legal if only dead
  resources are acquired and only live ones used or released.

| file | what it models |
|---|---|
| `SecureDb`, `SecureStorageDb` | the key-value database over the private storage: steps, and the class |
| `SecureDbRefinement` | with no failing call it is a map; several databases in one store do not interfere |
| `SecureDbFaults` | what survives when any call may fail, and what reopening can uncover |
| `SecureClient`, `SecureStorageClient` | typed tables on top, each with its own id and value type: one map per table |
| `SecureClientExamples` | a schema of two differently typed tables, and two tables of one type |
| `SessionEntry` | the generated session entry points and the boxed session context |
| `TeecContext` | the client's reference-counted context and its sessions, with interleavings |
| `Handles` | object handles and TA sessions, released exactly once |
| `BoundedBuffer` | memory references: checked writes and the reported size |
| `TeeParams`, `TeeParamsInPlace` | four parameters packed, decoded, written and copied back |
| `BigInt` | every result fits the buffer sized from bit counts |
| `ElfUuid` | address translation in an ELF image and the UUID's way through it |
| `Hotp` | the HOTP example TA against RFC 4226 |
| `Transfer` | `write_all` and `read_exact` |
| `Plugin` | a plugin call over one shared buffer |
| `Base`, `Ledger` | the shared types, and the log of acquired and released resources |

Facts that turned out to depend on a condition, each proved with that condition:

- A value put under the database's own name cannot be read back (`PutIsReadableIff`).
- A put whose object was saved and whose index write failed is readable until the database
  is reopened and gone afterwards, its object left behind (`ReopenAfterFaults`,
  `UnindexedPutIsLost`).
- `list_entries` also sees the rows of every table whose name extends the one asked for,
  because the prefix handed down omits the separator. Its result is exact, in every
  iteration order, if and only if each such row decodes to a row the table has
  (`ListingExactIff`, `ListEntriesExactIff`); otherwise an own row may be replaced
  (`OwnRowReplaced`). It is exact if no such table holds a row (`NoExtensionListsExactly`).
- A failing open handler (or parameter decoding) whose error carries raw code 0 is
  reported as success: the session is then open without a context, invokes answer a
  security error, and a run panics if and only if it closes such a session
  (`SlotIsNullIff`, `InvokeWithoutContext`, `PanicsIff`).
- `divide` asks for the quotient in 32-bit arithmetic that wraps when the dividend has
  fewer bits than the divisor. The quotient always fits (`DivideFits`), but the request is
  no larger than the dividend if and only if the dividend is at most one bit shorter;
  beyond that it is close to 2^32 bits. With overflow checks `divide` panics if and only
  if the dividend is shorter at all (`QuotientRequestModestIff`).
- A sum or difference of the largest numbers wraps its request to none, which holds the
  result if and only if it is zero; a wrapped product never fits (`EvalIsExactIff`).
- A transfer of 2^32 bytes or more never completes (`TooLongNeverCompletes`).

## Model

| member | source | states |
|---|---|---|
| SecureDb.ClearEffect | crates/secure_db/src/db.rs:73-78 | whatever fails, `clear` removes object and list entry of a key together, only keys of its iteration, leaves all other objects as they were, and answers Ok only with none of them left |
| SecureDb.ListEffect | crates/secure_db/src/db.rs:80-89 | a listing succeeds exactly when every key covered by the prefix has a loadable object, and then holds exactly those rows |
| SecureStorageDb.PrivateStorage.Save | crates/secure_db/src/backend.rs:23-39 | a save replaces the object or leaves the store unchanged |
| SecureStorageDb.PrivateStorage.Load | crates/secure_db/src/backend.rs:41-66 | a load distinguishes a missing object from a failure |
| SecureStorageDb.PrivateStorage.Remove | crates/secure_db/src/backend.rs:68-83 | removing fails for a missing object, and a failure changes nothing |
| SecureStorageDb.Db.Open | crates/secure_db/src/db.rs:34-48 | opening yields the persisted key list, an empty one if there is none, and fails on a failed load or an undecodable list, touching nothing |
| SecureStorageDb.Db.StoreKeyList | crates/secure_db/src/db.rs:91-95 | the key list in memory replaces the persisted one, or nothing changes |
| SecureStorageDb.Db.Put | crates/secure_db/src/db.rs:50-55 | object, list and index are written in that order, each failure leaving the effects before it |
| SecureStorageDb.Db.Get | crates/secure_db/src/db.rs:57-62 | only a listed key with a loadable object is answered |
| SecureStorageDb.Db.Delete | crates/secure_db/src/db.rs:64-71 | an unlisted key is refused; otherwise object, list and index change in that order |
| SecureStorageDb.Db.Clear | crates/secure_db/src/db.rs:73-78 | the loop deletes key by key, in any iteration order, and stops at the first error |
| SecureStorageDb.Db.ListEntriesWithPrefix | crates/secure_db/src/db.rs:80-89 | the result is exactly the stored rows whose key has the prefix, or an error if one of them cannot be loaded |
| SecureDbRefinement.DeleteRefines | crates/secure_db/src/db.rs:64-71 | deleting a present key steps the abstract map and keeps memory, index and objects in agreement |
| SecureDbRefinement.ClearRefines | crates/secure_db/src/db.rs:73-78 | clearing, in any iteration order, succeeds and reaches the empty map |
| SecureDbRefinement.StepRefines | crates/secure_db/src/db.rs:34-95 | every failure-free operation answers and steps as the abstract map, leaving foreign objects alone |
| SecureDbRefinement.RunRefines | crates/secure_db/src/db.rs:34-95 | over every failure-free run, reopenings included, replies equal the abstract map's, memory, index and objects agree with it, and objects outside keys and name are untouched |
| SecureDbRefinement.FreshOpenIsEmpty | crates/secure_db/src/db.rs:34-48 | opening an unused name starts a database refining the empty map |
| SecureDbRefinement.OpenReadsList | crates/secure_db/src/db.rs:34-48 | opening a used name takes over the list it decodes to, and fails exactly if it cannot be loaded or decoded |
| SecureDbRefinement.PutIsReadableIff | crates/secure_db/src/db.rs:50-62 | a successful put is read back if and only if the key is not the database's name, or the value is the serialised list written over it |
| SecureDbRefinement.InterleavedRunRefines | crates/secure_db/src/db.rs:34-95 | any interleaving of calls on any number of databases in one store refines one map each, if no key is shared and no key is a database name |
| SecureDbFaults.StepUnderFaults | crates/secure_db/src/db.rs:50-78 | under any failure, every key in memory keeps its object, and only a removal whose index write failed leaves a persisted key without one |
| SecureDbFaults.RunUnderFaults | crates/secure_db/src/db.rs:50-78 | over every run with failures and no reopening, memory stays backed by objects, and a dangling persisted key traces back to an erring delete or clear that removed its object, never to a put |
| SecureDbFaults.DanglingLaw | crates/secure_db/src/db.rs:50-71 | exactly which persisted keys lack an object after a put or delete: none once the index is written, one fewer or one more otherwise |
| SecureDbFaults.FailedPut | crates/secure_db/src/db.rs:50-55 | a failed put leaves its object old or new, and everything else, the persisted list included, as it was |
| SecureDbFaults.StoppedClear | crates/secure_db/src/db.rs:73-78 | however far a clear got, memory lists exactly those of its keys whose objects remain, unchanged |
| SecureDbFaults.ClearStopsAtFirstError | crates/secure_db/src/db.rs:73-78 | a clear stops at the first key whose removal or index write fails: keys before it are gone, it is gone exactly if its removal succeeded, later keys and everything else keep entry, object and bytes, the persisted list is the last one written, and the answer is an error; without such a key it is Ok |
| SecureDbFaults.StepOverGhost | crates/secure_db/src/db.rs:57-89 | a key listed without an object stays so, and every operation needing its object fails |
| SecureDbFaults.RunOverGhost | crates/secure_db/src/db.rs:57-89 | after reopening such a list, over every run until the key is put again, it stays listed and every get, delete, clear and covering listing fails |
| SecureDbFaults.ReopenUncovers | crates/secure_db/src/db.rs:34-48 | reopening turns a dangling persisted key into such a listed key |
| SecureDbFaults.RunKeepsMissing | crates/secure_db/src/db.rs:50-78 | over every run with failures, a persisted key that memory lacks has no object |
| SecureDbFaults.ReopenAfterFaults | crates/secure_db/src/db.rs:34-95 | reopening after any such run touches no object: a key in both lists answers as before, one only persisted fails everything that needs it, one only in memory is gone although its object stays |
| SecureDbFaults.UnindexedPutIsLost | crates/secure_db/src/db.rs:50-55 | a put that saved its object and lost its index write is readable until the reopening only, and leaves its object |
| SecureDbFaults.PutEndsGhost | crates/secure_db/src/db.rs:50-55 | saving the key ends that, whether or not the index is written |
| Storable.StorageKeyInjective | crates/secure_db/src/storable.rs:40-51 | with separator-free table names, a storage key determines table and id |
| Storable.StorageKeyText | crates/secure_db/src/storable.rs:40-51 | a key as it stands in storage |
| Storable.PrefixSeesTable | crates/secure_db/src/storable.rs:40-51 | a table name is a prefix of a row's key exactly when it is a prefix of that row's table name |
| Storable.NameIsNoRow | crates/secure_db/src/storable.rs:25-51 | a separator-free database name is never a row's key |
| SecureClient.StorageKeysLawful | crates/secure_db/src/storable.rs:25-51 | if each table prints its own ids injectively and reads its own values back, storage keys have all the properties the client relies on, whatever the tables' types |
| SecureClientExamples.ShopSchemaLawful | crates/secure_db/src/storable.rs:25-51 | two tables with different id and value types, each decoder yielding its own type only, make such a schema |
| SecureClient.ListingExactIff | crates/secure_db/src/client.rs:85-94 | the storage listing of a table is exactly its rows if and only if no table whose name properly extends it holds a row |
| SecureClient.ListEntriesExactIff | crates/secure_db/src/client.rs:85-102 | the typed listing is exactly the table, in every iteration order, if and only if every stored row of an extending table decodes, under this table, to a row it has |
| SecureClient.NoExtensionListsExactly | crates/secure_db/src/client.rs:85-102 | with no row in an extending table every listing is exact |
| SecureClient.EitherValueListed | crates/secure_db/src/client.rs:95-101 | a foreign row that decodes to the id of an own row replaces it, or is replaced by it, as the iteration order has it |
| SecureClientExamples.OwnRowReplaced | crates/secure_db/src/client.rs:85-102 | with tables `User` and `UserBackup` of one type, listing `User` gives the other table's row in place of its own |
| SecureClient.DecodedFolds | crates/secure_db/src/client.rs:95-101 | decoding answers if and only if every row decodes, with exactly the ids carried and for each the value of the last row carrying it |
| SecureClient.GetAnswers | crates/secure_db/src/client.rs:43-56 | whatever is stored, a get fails exactly for a key unlisted, missing, unloadable or undecodable, and otherwise answers what the bytes decode to |
| SecureDbFaults.FaultyStepMirrors | crates/secure_db/src/db.rs:50-89 | under any failures a call changes the map behind memory and objects exactly by what was saved or removed, and answers from it; a listing fails if and only if a load it makes fails |
| SecureClient.StepAgrees | crates/secure_db/src/client.rs:43-102 | each client call, whatever storage call fails, steps and answers as one map per table; a listing is an error exactly for a failing load or an undecodable row, else the fold of the covered rows, and the table itself if extensions are harmless |
| SecureClient.ClientRunRefines | crates/secure_db/src/client.rs:43-102 | over every run with failures anywhere, tables of any types, the store represents one map per table, a put counting once saved and a delete once removed, and every answer is theirs; reopening included while the persisted key list is current |
| SecureClient.HealthyReopensSettled | crates/secure_db/src/client.rs:37-41 | without failures the persisted key list is current at every reopening |
| SecureStorageClient.Client.Get | crates/secure_db/src/client.rs:43-56 | performs the typed get of the step semantics, the load failing or not |
| SecureStorageClient.Client.Put | crates/secure_db/src/client.rs:58-69 | performs the typed put of the step semantics, either write failing or not |
| SecureStorageClient.Client.DeleteEntry | crates/secure_db/src/client.rs:71-83 | performs the typed delete of the step semantics, removal and index write failing or not |
| SecureStorageClient.Client.ListEntries | crates/secure_db/src/client.rs:85-102 | performs the typed listing of the step semantics, any load failing or not |
| SecureStorageClient.Client.DecodeRows | crates/secure_db/src/client.rs:95-101 | the decoding loop builds the map by carried id, later rows replacing earlier ones, and fails on the first undecodable row |
| Ledger.Balance | crates/optee-utee/src/object/object_handle.rs:56-78 | in a legal log every resource was released once per acquisition, save the live one |
| Ledger.ReleasedMeansGone | crates/optee-utee/src/object/object_handle.rs:56-78 | in a legal log no resource is used or released again after its release without a new acquisition |
| SessionEntry.EntryPoints.OpenSession | crates/optee-utee-macros/src/lib.rs:229-250 | a box is leaked into the slot only when decoding and handler succeed |
| SessionEntry.EntryPoints.InvokeCommand | crates/optee-utee-macros/src/lib.rs:483-510 | a null slot or failed decoding touches nothing; otherwise the box taken back is forgotten on both answers, so the end of the scope frees nothing and the handler's context is kept |
| SessionEntry.EntryPoints.EndOfScope | crates/optee-utee-macros/src/lib.rs:499-509 | a local box is freed unless forgotten |
| SessionEntry.EntryPoints.CloseSession | crates/optee-utee-macros/src/lib.rs:339-347 | the box is freed once after the handler; a null slot panics |
| SessionEntry.InvokeAnswers | crates/optee-utee-macros/src/lib.rs:490-509 | over every run an invoke answers the security error without a context, the code of a failed decoding, or zero or the fault code the handler gives on what the session's own calls have left |
| SessionEntry.OpenAnswers | crates/optee-utee-macros/src/lib.rs:234-250 | an open answers the code of a failed decoding or of the failing handler, touching nothing, or zero with the new context in its box and slot |
| SessionEntry.StepOwned | crates/optee-utee-macros/src/lib.rs:229-250 | every entry-point call keeps the boxes in one-to-one correspondence with the open sessions |
| SessionEntry.StepContext | crates/optee-utee-macros/src/lib.rs:483-510 | a call changes only its own session's context |
| SessionEntry.RunOwned | crates/optee-utee-macros/src/lib.rs:483-510 | over every interleaving, live boxes are exactly the open sessions' and each context is what that session's calls alone would have left, errors included |
| SessionEntry.OpenSessionIsEnabled | crates/optee-utee-macros/src/lib.rs:483-510 | over every run, an invoke or close of an open session finds a live box or null: nothing is assumed about memory |
| SessionEntry.BoxesConserved | crates/optee-utee-macros/src/lib.rs:339-347 | over every run, boxes acquired are the successful opens, boxes released are the closes, boxes handed to a handler are the invokes that decode and the closes, and the difference of the first two is live |
| SessionEntry.OpenSessionHasContextIff | crates/optee-utee-macros/src/lib.rs:241-249 | a session the framework takes for open has a context if and only if no failure was reported with code 0; without one, closing panics |
| SessionEntry.SlotIsNullIff | crates/optee-utee-macros/src/lib.rs:229-250 | over every run an open session lacks a context if and only if its latest open failed with code 0 |
| SessionEntry.InvokeWithoutContext | crates/optee-utee-macros/src/lib.rs:490-492 | such a session answers every invoke with a security error and nothing changes |
| SessionEntry.PanicsIff | crates/optee-utee-macros/src/lib.rs:339-347 | a run has panicked if and only if its last call closes a session whose latest open failed with code 0 |
| SessionEntry.NoPanicWithoutZeroCode | crates/optee-utee-macros/src/lib.rs:339-347 | over every run in which no failing open carries code 0, nothing panics and every open session has its context |
| TeecContext.StepCounted | crates/optee-teec/src/session.rs:87-159 | every action keeps the reference count equal to the number of holders |
| TeecContext.StepLog | crates/optee-teec/src/session.rs:87-159 | every open, invoke and close acts on an unfinalised context and an unclosed session |
| TeecContext.EveryRunIsSafe | crates/optee-teec/src/context.rs:26-44 | over every interleaving the log is legal, and when nothing is held any more each context was finalised and each session closed exactly once |
| TeecContext.CallsMade | crates/optee-teec/src/session.rs:87-159 | the native calls each action makes, no more and no fewer: a context is finalised exactly by giving up its only reference |
| TeecContext.FinalizedLast | crates/optee-teec/src/context.rs:28-34 | a context is finalised only when no context value, open in progress or session is left on it |
| TeecContext.FailedOpenKeepsCount | crates/optee-teec/src/session.rs:101-125 | a failed open leaves counts, sessions and handles as they were |
| TeecContext.Process.NewContext | crates/optee-teec/src/context.rs:58-66 | a context starts with one reference, or not at all |
| TeecContext.Process.BeginOpen | crates/optee-teec/src/session.rs:101-108 | the clone taken for the call keeps the invariant |
| TeecContext.Process.CallOpenSession | crates/optee-teec/src/session.rs:112-129 | a successful call adds a session with its own reference, a failed one nothing |
| TeecContext.Process.EndOpen | crates/optee-teec/src/session.rs:125-130 | the call's clone is given back |
| TeecContext.Process.OpenSession | crates/optee-teec/src/session.rs:87-130 | the three actions in a row, keeping the invariant |
| TeecContext.Process.InvokeCommand | crates/optee-teec/src/session.rs:133-150 | an invoke uses a live session on a live context |
| TeecContext.Process.DropSession | crates/optee-teec/src/session.rs:153-159 | a session is closed before its reference is given back |
| TeecContext.Process.DropContext | crates/optee-teec/src/context.rs:28-34 | dropping a context value finalises only if it was the last holder |
| Handles.StepOwned | crates/optee-utee/src/object/persistent_object.rs:83-261 | every action keeps each live handle controlled from exactly one place |
| Handles.ValuesMove | crates/optee-utee/src/object/persistent_object.rs:83-261 | which values a call takes, on every outcome, and which it returns |
| Handles.CallsMade | crates/optee-utee/src/object/persistent_object.rs:83-261 | the TEE calls each action makes: handles obtained, used and closed, one call each and no other |
| Handles.EveryHandleReleasedOnce | crates/optee-utee/src/object/persistent_object.rs:83-261 | over every run no handle is used or released after release, and once no value is left each was released exactly once, whatever errors were reported |
| Handles.ObjectHandle.FromRaw | crates/optee-utee/src/object/object_handle.rs:27-32 | a null handle is refused; performs the run's take-over of a handle |
| Handles.ObjectHandle.Drop | crates/optee-utee/src/object/object_handle.rs:72-78 | a handle that is not null is closed, which is the run's drop |
| Handles.ObjectHandle.Forget | crates/optee-utee/src/object/object_handle.rs:56-58 | a forgotten handle is not closed by the drop that follows, which is the run's forget |
| Handles.PersistentObject.Open | crates/optee-utee/src/object/persistent_object.rs:83-102 | an object exists exactly if the TEE handed out a handle; performs the run's open |
| Handles.PersistentObject.Create | crates/optee-utee/src/object/persistent_object.rs:167-195 | the attributes' handle is used by the call and closed after it, on success and on every error; performs the run's create |
| Handles.PersistentObject.CloseAndDelete | crates/optee-utee/src/object/persistent_object.rs:249-261 | forgetting before the drop makes one release of it, whatever the call reports: exactly the run's action |
| BoundedBuffer.Apply | crates/optee-utee/src/parameter/memref.rs:132-173 | an edit is accepted exactly if it ends within the capacity, and a refused one changes nothing |
| BoundedBuffer.LastWriteWins | crates/optee-utee/src/parameter/memref.rs:132-173 | after any sequence of edits each byte is that of the last accepted write covering it or the original, and the size is the end of the last accepted edit |
| BoundedBuffer.SizeWithinCapacity | crates/optee-utee/src/parameter/memref.rs:136-173 | the reported size never exceeds the capacity |
| Memref.ParameterMemref.constructor | crates/optee-utee/src/parameter/memref.rs:223-246 | the size found at decoding becomes the fixed capacity |
| Memref.ParameterMemref.SetUpdatedSize | crates/optee-utee/src/parameter/memref.rs:136-142 | a size is accepted exactly up to the capacity |
| Memref.ParameterMemref.WriteAt | crates/optee-utee/src/parameter/memref.rs:154-173 | bytes and size change together, or nothing does |
| Memref.ParameterMemref.SetOutput | crates/optee-utee/src/parameter/memref.rs:145-147 | a write at offset zero |
| Memref.ParameterMemref.ReadToVec | crates/optee-utee/src/parameter/memref.rs:84-93 | a read covers the whole capacity, whatever size has been reported |
| Memref.ParameterMemref.ReadAt | crates/optee-utee/src/parameter/memref.rs:103-119 | as many bytes as there are from the offset are copied, the rest of the destination is kept, and only an offset past the end is refused |
| TeeParams.NibbleRoundTrip | crates/optee-utee-sys/src/tee_api_defines.rs:487-493 | four packed type nibbles are read back one by one |
| TeeParams.KnownCodes | crates/optee-utee-sys/src/tee_api_defines.rs:65-71 | the type codes in the API's numbers |
| TeeParams.CodesRoundTrip | crates/optee-utee/src/parameter/mod.rs:132-144 | every code is read as its type and back, and exactly 4 and those above 7 are unknown |
| TeeParams.KnownWords | crates/optee-utee/src/tee_parameter.rs:324-330 | the packed words of two calls, in numbers |
| TeeParams.TypesRoundTrip | crates/optee-utee/src/tee_parameter.rs:324-330 | the packed word of any four slots is read as exactly their types |
| TeeParams.PackDecode | crates/optee-utee/src/parameter/mod.rs:114-124 | any four slots, packed and decoded, give the callee the same variants, buffers and values |
| TeeParams.FromRawRefusesIff | crates/optee-utee/src/parameter/mod.rs:114-124 | a slot is refused if and only if it is a memory reference pointing nowhere; a writer's capacity is the size found |
| TeeParams.FromRawAllRefusesIff | crates/optee-utee/src/parameter/mod.rs:114-124 | a call is refused if and only if one of its slots is |
| TeeParams.CalleeEffect | crates/optee-utee/src/parameter/value.rs:127-143 | after any operations a wrapper holds the last-write-wins buffer and size, or the last values set |
| TeeParams.UpdateEffect | crates/optee-utee/src/tee_parameter.rs:345-368 | on any raw sizes, slots before the first rejected one are updated, it and the later ones are untouched, and sound slots stay sound |
| TeeParams.UpdateSlotRejectsIff | crates/optee-utee/src/tee_parameter.rs:153-207 | one slot's copy-back is rejected if and only if an output or inout memory reference came back with a size beyond its buffer |
| TeeParams.CopyBackAcceptsIff | crates/optee-utee/src/tee_parameter.rs:345-368 | a copy-back is accepted if and only if every such size is at most its buffer's length, and then every slot holds the bytes, size or values left |
| TeeParams.OutputsOffered | crates/optee-utee/src/tee_parameter.rs:81-99 | only memory and values a callee may write are offered as output |
| TeeParams.SlotRoundTrip | crates/optee-utee/src/tee_parameter.rs:153-207 | one slot's way through the call delivers the callee's final state |
| TeeParams.CallRoundTrip | crates/optee-utee/src/tee_parameter.rs:324-368 | for every four slots and any checked callee operations, the call is accepted and written slices and output values are the callee's final ones, the whole buffer if no size was reported |
| TeeParams.WrittenStaysInBuffer | crates/optee-utee/src/tee_parameter.rs:81-87 | over any run, with any sizes coming back, no slot claims more written bytes than its buffer has |
| TeeParamsInPlace.Params.Set | crates/optee-utee/src/tee_parameter.rs:294-322 | one slot is replaced, an output starting with nothing written |
| TeeParamsInPlace.Params.RawParamTypes | crates/optee-utee/src/tee_parameter.rs:324-330 | the word computed is read back as exactly the slots' types |
| TeeParamsInPlace.Params.PackTypes | crates/optee-utee/src/tee_parameter.rs:324-330 | the accumulating loop computes TEE_PARAM_TYPES of the four codes |
| TeeParamsInPlace.Params.AsRaw | crates/optee-utee/src/tee_parameter.rs:332-339 | each raw slot points at the slot's own buffer with its full length, or carries its values |
| TeeParamsInPlace.Params.UpdateSlotFromRaw | crates/optee-utee/src/tee_parameter.rs:153-207 | one slot takes over size or values, or is left alone with an error for a size beyond its buffer |
| TeeParamsInPlace.Params.UpdateFromRaw | crates/optee-utee/src/tee_parameter.rs:345-368 | the in-place loop is the copy-back on values the round trip is about, and each slot keeps its buffer |
| TeeParamsInPlace.InPlaceIsOnValues | crates/optee-utee/src/tee_parameter.rs:345-368 | slots updated in place up to a rejected size are, as values, what the copy-back makes of them |
| TeeParamsInPlace.UpdatedViews | crates/optee-utee/src/tee_parameter.rs:153-207 | copy-back in place is copy-back on the slots' values |
| TeeParamsInPlace.TeeCall | crates/optee-utee/src/ta_session.rs:67-79 | the TEE's side: any bytes into the shared buffers, any sizes and values into the raw parameters, pointers kept |
| TeeParamsInPlace.Send | crates/optee-utee/src/ta_session.rs:56-79 | the parameters packed by `as_raw` come back as the call left them, and the slots hold the bytes written meanwhile |
| TeeParamsInPlace.TaSession.Drop | crates/optee-utee/src/ta_session.rs:136-145 | the session is closed, which is the run's drop |
| TeeParamsInPlace.TaSession.InvokeCommand | crates/optee-utee/src/ta_session.rs:101-132 | performs the run's use of a session; answers Ok if and only if the call worked and every returned size is at most its buffer's length; slots end as the copy-back on values has it |
| TeeParamsInPlace.BuildWithParams | crates/optee-utee/src/ta_session.rs:50-87 | a session is returned, and open, if and only if it opened and every returned size is at most its buffer's length; otherwise it is closed again |
| TeeParamsInPlace.Build | crates/optee-utee/src/ta_session.rs:50-87 | with or without parameters, performs the run's build, the session being kept exactly if every returned size is at most its buffer's length |
| BitLength.FitsIff | crates/optee-utee/src/arithmetical.rs:103-105 | the bit count is the least number of bits that holds the magnitude |
| BitLength.ProductBitsTight | crates/optee-utee/src/arithmetical.rs:138-149 | a product has at most one bit less than its factors together |
| BitLength.QuotientBits | crates/optee-utee/src/arithmetical.rs:151-155 | a quotient needs at most the difference of the bit counts plus one |
| BitLength.QuotientBitsTight | crates/optee-utee/src/arithmetical.rs:151-155 | and at least the difference |
| BigInt.AllocationHolds | crates/optee-utee/src/arithmetical.rs:36-45 | the words allocated for some bits are the fewest that hold them |
| BigInt.Bits2Suffice | crates/optee-utee/src/arithmetical.rs:118-143 | sums, differences and products fit the bits asked for them |
| BigInt.Bits1Suffice | crates/optee-utee/src/arithmetical.rs:111-149 | negations, squares and magnitudes fit the bits asked for them |
| BigInt.SumNeedsAll | crates/optee-utee/src/arithmetical.rs:118-130 | operands of any lengths whose sum and difference need every bit asked for |
| BigInt.ProductNeedsAll | crates/optee-utee/src/arithmetical.rs:138-143 | operands of any lengths from two bits on whose product needs every bit asked for |
| BigInt.UnaryNeedsAll | crates/optee-utee/src/arithmetical.rs:111-149 | negations and magnitudes have exactly the bits asked for, and some square of every length needs them all |
| BigInt.WrappedProductFails | crates/optee-utee/src/arithmetical.rs:138-149 | a product whose request wraps never fits it |
| BigInt.EvalIsExactIff | crates/optee-utee/src/arithmetical.rs:111-149 | with 32-bit counts that wrap, an expression tree evaluates through its buffers to the number it denotes, if and only if operands of sums are shorter than 2^32 - 1 bits or the sum is zero, and factors are together shorter than 2^32 bits |
| BigInt.OctetBufferSuffices | crates/optee-utee/src/arithmetical.rs:58-70 | the octet buffer holds the whole magnitude of any number in its buffer |
| BigInt.DivideFits | crates/optee-utee/src/arithmetical.rs:151-166 | for all operands quotient and remainder are stored exactly in the sizes asked for them, wrapped requests included |
| BigInt.QuotientRequestIs | crates/optee-utee/src/arithmetical.rs:151-155 | the quotient's request in terms of how much shorter the dividend is |
| BigInt.QuotientRequestModestIff | crates/optee-utee/src/arithmetical.rs:151-155 | the quotient's request stays within the dividend's size if and only if the dividend is at most one bit shorter than the divisor; a build with overflow checks panics if and only if it is shorter |
| BigInt.ShortDividends | crates/optee-utee/src/arithmetical.rs:151-155 | the requests for 3 / 4 and 1 / 4 |
| BigInt.ResidueFits | crates/optee-utee/src/arithmetical.rs:168-237 | every residue fits the buffer sized from the modulus |
| BigInt.BezoutBounds | crates/optee-utee/src/arithmetical.rs:247-262 | extended Euclid's coefficients are exact and bounded by the other operand over the gcd |
| BigInt.IsGcd | crates/optee-utee/src/arithmetical.rs:247-262 | its result divides both operands and is divided by every common divisor |
| BigInt.ExtendedGcdFits | crates/optee-utee/src/arithmetical.rs:247-262 | for all operands, any sign and zero included, gcd and both coefficients fit the one size allocated |
| BigInt.GcdNeedsAll | crates/optee-utee/src/arithmetical.rs:247-262 | the size asked for the gcd is needed by that of a number with itself |
| Uuid.LayoutRoundTrip | crates/optee-utee-build/src/code_generator.rs:246-256 | every UUID split into fields, laid out little-endian and read with `from_bytes_le` is itself |
| Uuid.FieldsAndOctets | crates/optee-utee-build/src/code_generator.rs:246-256 | the fields are the octets most significant first, and are stored reversed |
| ElfUuid.BytesAtVa | tools/cargo-optee/src/elf_uuid.rs:176-261 | the loop finds the file bytes exactly if the range does not overflow, the first segment holding it precedes any overflowing one and backs it from within the file |
| ElfUuid.FoundIsImage | tools/cargo-optee/src/elf_uuid.rs:176-261 | with disjoint segments a successful read is the loader's image byte for byte, from one segment's file part only |
| ElfUuid.BackedIsFound | tools/cargo-optee/src/elf_uuid.rs:198-255 | a range every address of which one segment takes from within the file is found unless a segment up to there overflows |
| ElfUuid.OutsideIsRefused | tools/cargo-optee/src/elf_uuid.rs:191-198 | a range that leaves the address space or that no segment spans is refused |
| ElfUuid.UnbackedIsRefused | tools/cargo-optee/src/elf_uuid.rs:198-227 | so is one behind an overflowing segment, and one whose segment zero-fills its end |
| ElfUuid.ExportedSymbol | tools/cargo-optee/src/elf_uuid.rs:139-145 | the first defined, non-local symbol of the name, or none if there is none |
| ElfUuid.UnfitIsRefused | tools/cargo-optee/src/elf_uuid.rs:151-168 | nothing is read without such a symbol, from code, or from an object known to be too short |
| ElfUuid.ReadTaUuidFromBytes | tools/cargo-optee/src/elf_uuid.rs:50-67 | computes the TA's UUID as the round trip below is about |
| ElfUuid.ReadPluginUuidFromBytes | tools/cargo-optee/src/elf_uuid.rs:69-94 | computes the plugin's UUID, past the name pointer of the ELF class |
| ElfUuid.TaUuidRoundTrip | tools/cargo-optee/src/elf_uuid.rs:50-67 | every UUID built into a loaded, exported `ta_head` is the one read back |
| ElfUuid.PluginUuidRoundTrip64 | tools/cargo-optee/src/elf_uuid.rs:69-94 | every UUID in a loaded, exported `plugin_method` with an eight-octet name pointer is the one read back from a 64-bit plugin |
| ElfUuid.PluginUuidRoundTrip32 | tools/cargo-optee/src/elf_uuid.rs:69-94 | the same with a four-octet name pointer from a 32-bit plugin |
| Hotp.IncrementAddsOne | examples/ta/hotp-rs/src/main.rs:104-109 | the carry loop adds one modulo two to the counter's width |
| Words.AndOfMask | examples/ta/hotp-rs/src/main.rs:140-142 | masking the low bits is the remainder by a power of two |
| Words.ShlMultiplies | examples/ta/hotp-rs/src/main.rs:142-145 | a 32-bit left shift multiplies while the word holds the result |
| Words.OrOfDisjoint | examples/ta/hotp-rs/src/main.rs:142-145 | or-ing a number into clear low bits adds it |
| Hotp.BinCodeIsSum | examples/ta/hotp-rs/src/main.rs:142-145 | the masked, shifted and or-ed bytes are the 31-bit big-endian number |
| Hotp.TruncateIsHotpValue | examples/ta/hotp-rs/src/main.rs:138-149 | truncation, with its masks, shifts and ors, is the six-digit value of section 5.3 of RFC 4226, all indices in bounds |
| Hotp.KeyIsLatest | examples/ta/hotp-rs/src/main.rs:86-97 | over every run the key in use is exactly the last accepted one |
| Hotp.RegisterAnswers | examples/ta/hotp-rs/src/main.rs:86-97 | after every run a registration answers Done if and only if it brings a memory reference of 10 to 64 bytes, and changes nothing otherwise |
| Hotp.CounterCountsMacs | examples/ta/hotp-rs/src/main.rs:99-113 | over every run the counter is the number of MACs computed, modulo 2^64, undelivered passwords included |
| Hotp.DeliversHotp | examples/ta/hotp-rs/src/main.rs:99-113 | after every run a request answers if and only if a key was accepted, the MAC works and the parameter takes a value; the answer is the HOTP of the latest key at that count |
| Hotp.HmacOtp.RegisterSharedKey | examples/ta/hotp-rs/src/main.rs:86-97 | a key of 10 to 64 bytes overwrites the buffer's start, anything else changes nothing |
| Hotp.HmacOtp.Advance | examples/ta/hotp-rs/src/main.rs:104-109 | the in-place carry loop is the specified increment |
| Hotp.HmacOtp.GetHotp | examples/ta/hotp-rs/src/main.rs:99-136 | the counter advances exactly when the MAC was computed, before the parameter's type is looked at |
| Transfer.TooLongNeverCompletes | crates/optee-utee/src/net/optee.rs:119-146 | over any honest transport a transfer of 2^32 bytes or more never completes |
| Transfer.HandedOver | crates/optee-utee/src/net/optee.rs:119-146 | a length below 2^32 is handed over whole, a longer one as its remainder |
| Transfer.CompletesIffShort | crates/optee-utee/src/net/optee.rs:119-146 | over a transport that always progresses, a transfer completes if and only if it is shorter than 2^32 bytes |
| Transfer.Sender.Send | crates/optee-utee/src/net/optee.rs:119-132 | the transport is handed the truncated length and takes a prefix |
| Transfer.Sender.WriteAll | crates/optee-utee/src/net/optee_no_std.rs:78-86 | terminates; Ok exactly if every call progressed to the end, the bytes sent then being the whole buffer in order, otherwise a proper prefix |
| Transfer.Receiver.Recv | crates/optee-utee/src/net/optee.rs:133-146 | the next bytes of the stream land at the position, nothing else changes |
| Transfer.Receiver.ReadExact | crates/optee-utee/src/net/optee_no_std.rs:120-131 | terminates; Ok exactly if the buffer was filled with the stream's bytes in order, otherwise a proper prefix of it was |
| Plugin.PluginParameters.FromRaw | crates/optee-teec/src/extension.rs:67-96 | pointers are refused exactly if a length or an output comes without a buffer |
| Plugin.PluginParameters.WriteOutputAt | crates/optee-teec/src/extension.rs:118-132 | buffer and length change together within the buffer, nothing changes otherwise |
| Plugin.PluginParameters.SetBufFromSlice | crates/optee-teec/src/extension.rs:106-108 | a write at position zero |
| Plugin.PluginParameters.SetOutLen | crates/optee-teec/src/extension.rs:158-165 | a length is accepted exactly up to the buffer's |
| Plugin.PluginBody | crates/optee-teec/src/extension.rs:98-165 | any sequence of operations leaves the buffer and length of the step semantics |
| Plugin.LengthIsLastReport | crates/optee-teec/src/extension.rs:118-165 | the length is the end of the last operation that succeeded; direct writes never change it |
| Plugin.BytesAreWrites | crates/optee-teec/src/extension.rs:98-165 | the bytes are those of the last write within the buffer to cover them |
| Plugin.LoadablePluginCommand.WriteBody | crates/optee-utee/src/extension.rs:125-127 | the request is appended, growing the buffer only when needed |
| Plugin.LoadablePluginCommand.Call | crates/optee-utee/src/extension.rs:134-154 | the plugin sees the request padded with zeros; the response is the final buffer's first bytes as last reported, empty if nothing was, and a short buffer comes only from foreign code |

## Left out

- Object ids longer than 64 bytes: the TEE panics on them, which ends the run; every prefix of a run is covered.
- A storage call that fails after having changed the store: failures are taken to leave the store as it was, and overwriting to be atomic (crates/optee-utee/src/object/object_define.rs:72-75). A comment in crates/optee-utee/src/object/persistent_object.rs:252-258 says a deletion has happened whatever the call reports; the model follows the reported result.
- Lock poisoning in the typed client, and its answers after reopening from a key list that a failed write left behind, beyond what `SecureDbFaults` says of the database.
- The default table name computed from a type's path (crates/secure_db/src/storable.rs:32-38): table names are parameters without the separator.
- The order in which a serialiser writes a hash set: an encoding is a function of the set.
- Entry points without a session context, TA creation and destruction, panics inside handlers.
- Builds with overflow checks, in which a bit count beyond 32 bits panics: only `divide` is covered for them.
- The Montgomery (FMM) numbers, shifts, comparisons and primality tests of `BigInt`: calls into the TEE with sizes chosen there.
- Plugin positions whose end exceeds the address space, on which the plugin panics.
- Debug builds of the HOTP TA, in which the counter byte overflow panics.
- Parameters that Normal World changes during a call, and `ParameterAny` of unknown types beyond passing them on.
- Error kinds beyond what decides a branch, ELF and UUID text parsing, symbol-table diagnostics, code generation and command-line tooling.
- Transient objects, cryptographic operations, time, properties, traces and the remaining example applications: thin calls into the TEE.
