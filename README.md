# capture-lite provenance pipeline, in Dafny

This project models the local capture provenance pipeline of capture-lite. That pipeline turns the raw bytes of a capture into a stored proof with facts and signatures. The model covers six parts:

- **The image store** (`ImageStoreSpec`, `ImageStoreService`). This is a content-addressed blob directory, keyed by SHA-256 of the base64 content. It has an extension table and a thumbnail table, and a one-shot `hasInitialized` flag.
  - `ImageStoreSpec` states every operation as a function on a `Store` value and proves the store's properties about those functions.
  - The class `ImageStoreService.ImageStore` performs the operations step by step on its fields. It is proved to compute exactly those functions.
- **The proof repository** (`ProofRepositorySpec`, `ProofRepositoryService`). It keeps one JSON file per proof at `proof/<hash>.json` and raw media at `raw/<hash>.<extension>`. Its proof cache is replaced wholesale by `refresh$`.
- **The collector** (`Collector`). It has two provider registries with insertion-ordered set semantics. The capture pipeline `_storeAndCollect$` is described by the sequence of calls it makes.
- **The Capacitor fact provider** (`CapacitorProviderModel`). This is the pure list construction of `provide$` and its two default-on toggles.
- **The Web Crypto API signature provider** (`WebCryptoApi`). It has two key slots, guarded lazy key generation, and signing.
- **The migration service** (`Migration`). It has the paginated backend fetch loop, the post-capture filter, and the flag-guarded run-once migration.

Shared modules:
- `Wrappers` holds `Option` and `Result`.
- `OrderedSets` holds sequences used as insertion-ordered sets. Rows are added unless an equal one is present, and deletion drops every equal one. This is the behaviour of a JavaScript `Set` and of a table inserted into with the IGNORE conflict strategy.

Collaborators whose code is not part of this model are parameters or function-typed fields:
- SHA-256, ECDSA signing and key generation;
- image downscaling and the MIME-type to extension table;
- `fileNameWithoutExtension` and `getOldProof`;
- the clock, the localisation service, and the backend's asset list.

An observable operation is modelled by what its first subscription yields: a value, completion without a value, or an error (`ProofRepositorySpec.Observed`).

Three behaviours of the code that the model keeps as they are:
- `delete` of an index that was never written fails with the filesystem's not-found error (`ImageStoreSpec.DeleteUnknownFails`).
- `initialize$` regenerates the key pair when either slot is empty (`WebCryptoApi.InitializeReplacesHalfPair`).
- With no information provider registered, the signature providers are handed `undefined` instead of the proof (see "## Findings").

## Model

| member | source | states |
|---|---|---|
| OrderedSets.Insert | src/app/shared/services/image-store/image-store.service.ts:205-212 | IGNORE insertion: the result holds the old rows plus the new one; it keeps the old rows as a prefix; it grows iff the row was absent; it keeps rows duplicate-free |
| OrderedSets.Remove | src/app/shared/services/image-store/image-store.service.ts:214-221 | deletion drops exactly the rows equal to the argument; it shrinks iff one was present; it keeps rows duplicate-free |
| OrderedSets.InsertAll | src/app/services/collector/collector.service.ts:55-57 | `forEach(set.add)`: membership is the union; old members keep their place; no duplicates appear |
| OrderedSets.RemoveAll | src/app/services/collector/collector.service.ts:59-61 | `forEach(set.delete)`: membership is the difference; removing absent members changes nothing |
| OrderedSets.InsertAllPresent | src/app/services/collector/collector.service.ts:55-57 | adding members that are all present already leaves the registry unchanged |
| OrderedSets.InsertAllIdempotent | src/app/services/collector/collector.service.ts:55-57 | adding the same providers twice equals adding them once |
| ImageStoreSpec.Find | src/app/shared/services/image-store/image-store.service.ts:198-203 | `find` returns nothing iff no row has the index, and otherwise the first row that has it |
| ImageStoreSpec.Read | src/app/shared/services/image-store/image-store.service.ts:60-68 | `read(index)`: the content of `index.<first extension>`, or not-found; its meaning is stated by `WriteThenRead` and `ThumbnailGeneratedOnce` |
| ImageStoreSpec.Exists | src/app/shared/services/image-store/image-store.service.ts:115-123 | `exists(index)`: the listing holds `index.<first extension>`; stated after `delete` by `DeleteThenNotExists` |
| ImageStoreSpec.WriteEntry | src/app/shared/services/image-store/image-store.service.ts:87-99 | `_write`: IGNORE-insert of the row, then the file under the extension passed; stated by `FirstExtensionWins` |
| ImageStoreSpec.Write | src/app/shared/services/image-store/image-store.service.ts:70-85 | `write`: the content hash, and `_write` unless IGNORE finds the blob; stated by `WriteThenRead`, `WriteIgnoreTwice`, `WriteReplaceTwice`, `WriteKeepsUnique` |
| ImageStoreSpec.Delete | src/app/shared/services/image-store/image-store.service.ts:101-113 | `delete`: the thumbnail first, then the file and the first extension row; stated by `DeleteShrinks`, `DeleteLeavesNoTrace`, `DeleteRemovesThumbnailBlob`, `DeleteThenNotExists`, `DeleteUnknownFails` |
| ImageStoreSpec.DeleteThumbnail | src/app/shared/services/image-store/image-store.service.ts:165-177 | `deleteThumbnail`: drops the first thumbnail row and deletes the thumbnail's blob; stated by `DeleteThumbnailShrinks` and `DeleteDropsThumbnailRow` |
| ImageStoreSpec.GetThumbnailUrl | src/app/shared/services/image-store/image-store.service.ts:125-132 | `getThumbnailUrl`: the cached thumbnail, or a new one written with REPLACE and recorded; stated by `ThumbnailGeneratedOnce` and `GetThumbnailUrlKeepsUnique` |
| ImageStoreSpec.FindAppend | src/app/shared/services/image-store/image-store.service.ts:205-212 | appending a row never changes which row `find` returns for an index that already had one |
| ImageStoreSpec.FirstExtensionWins | src/app/shared/services/image-store/image-store.service.ts:87-99 | `_write` changes the recorded extension only for an index that had none, and never for another index |
| ImageStoreSpec.WriteThenRead | src/app/shared/services/image-store/image-store.service.ts:70-85 | `write` returns `sha256(base64)`; with IGNORE on an existing blob the store is unchanged; a write that happens stores the bytes under `index.<new extension>`, and `read` keeps addressing the first extension recorded for the index |
| ImageStoreSpec.StemOfFileName | src/app/shared/services/image-store/image-store.service.ts:93 | the part of `index.extension` before the first '.' is the index, when the index has no '.' |
| ImageStoreSpec.SplitAtOnlyDot | src/app/shared/services/image-store/image-store.service.ts:93 | a file name with a single '.' determines its index and its extension |
| ImageStoreSpec.ReadHashesToIndex | src/app/shared/services/image-store/image-store.service.ts:60-68 | in a content-addressed store, whatever `read(index)` returns hashes to `index` |
| ImageStoreSpec.WriteKeepsConsistent | src/app/shared/services/image-store/image-store.service.ts:70-99 | `write` keeps every blob named after its content hash and every extension row backed by its file |
| ImageStoreSpec.WriteThenReadAlways | src/app/shared/services/image-store/image-store.service.ts:60-99 | on a consistent store and a collision-free hash, `read(write(base64))` yields `base64` for either strategy and whatever extension the index already had |
| ImageStoreSpec.DeleteFileAndExtensionKeepsRows | src/app/shared/services/image-store/image-store.service.ts:104-112 | the locked step of `delete` keeps the file of every extension row it does not drop |
| ImageStoreSpec.DeleteKeepsConsistent | src/app/shared/services/image-store/image-store.service.ts:101-113 | `delete`, thumbnail cascade included, keeps the store consistent |
| ImageStoreSpec.DeleteThumbnailKeepsConsistent | src/app/shared/services/image-store/image-store.service.ts:165-177 | `deleteThumbnail` keeps the store consistent |
| ImageStoreSpec.GetThumbnailUrlKeepsConsistent | src/app/shared/services/image-store/image-store.service.ts:125-163 | `getThumbnailUrl` keeps the store consistent |
| ImageStoreSpec.EmptyStoreConsistent | src/app/shared/services/image-store/image-store.service.ts:223-235 | the empty store that `clear` leaves is consistent |
| ImageStoreSpec.WriteIgnoreTwice | src/app/shared/services/image-store/image-store.service.ts:77-84 | two IGNORE writes of the same bytes return the same index, and the second leaves the recorded extension as the first did |
| ImageStoreSpec.WriteReplaceTwice | src/app/shared/services/image-store/image-store.service.ts:77-78 | a second REPLACE write of the same bytes leaves the store as the first left it |
| ImageStoreSpec.DeleteShrinks | src/app/shared/services/image-store/image-store.service.ts:101-113 | `delete` only removes: no file is written or changed and no row is added; every extension row it drops has lost its file |
| ImageStoreSpec.DeleteThumbnailShrinks | src/app/shared/services/image-store/image-store.service.ts:165-177 | the recursive thumbnail delete only removes, in the same sense |
| ImageStoreSpec.DeleteLeavesNoTrace | src/app/shared/services/image-store/image-store.service.ts:101-113 | with at most one row per index, a successful `delete(index)` leaves no extension row and no thumbnail row for the index, and its file is gone |
| ImageStoreSpec.DeleteDropsThumbnailRow | src/app/shared/services/image-store/image-store.service.ts:165-177 | with at most one row per index, `delete(index)` leaves no thumbnail row for the index, whether or not it succeeds |
| ImageStoreSpec.DeleteDropsExtensionRow | src/app/shared/services/image-store/image-store.service.ts:101-113 | with at most one row per index, a successful `delete(index)` leaves no extension row for the index and its file is gone |
| ImageStoreSpec.DeleteRemovesThumbnailBlob | src/app/shared/services/image-store/image-store.service.ts:165-177 | with at most one row per index, a successful `delete(index)` of an image with a thumbnail also removes the thumbnail's blob and leaves no extension row for the thumbnail |
| ImageStoreSpec.DeleteThenNotExists | src/app/shared/services/image-store/image-store.service.ts:101-123 | with at most one row per index, after a successful `delete(index)` `exists(index)` is false, unless a file `index.undefined` was there before |
| ImageStoreSpec.DeleteFileAndExtensionShrinks | src/app/shared/services/image-store/image-store.service.ts:104-112 | the locked step of `delete` only removes files and rows, and a dropped extension row loses its file |
| ImageStoreSpec.DeleteKeepsUnique | src/app/shared/services/image-store/image-store.service.ts:101-113 | `delete` keeps at most one row per index in each table |
| ImageStoreSpec.DeleteThumbnailKeepsUnique | src/app/shared/services/image-store/image-store.service.ts:165-177 | `deleteThumbnail` keeps at most one row per index in each table |
| ImageStoreSpec.WriteKeepsUnique | src/app/shared/services/image-store/image-store.service.ts:70-99 | on a store with one row per index, a write keeps that property iff it writes nothing or the index has no extension yet or the same one |
| ImageStoreSpec.GetThumbnailUrlKeepsUnique | src/app/shared/services/image-store/image-store.service.ts:125-163 | `getThumbnailUrl` keeps one row per index in each table when the thumbnail's own index had no extension yet or the same one |
| ImageStoreSpec.TwoExtensionsSurviveDelete | src/app/shared/services/image-store/image-store.service.ts:70-113 | from an empty store, two REPLACE writes of the same bytes under two extensions leave two rows for one index; `delete` of it then succeeds and `exists` stays true |
| ImageStoreSpec.DeleteUnknownFails | src/app/shared/services/image-store/image-store.service.ts:101-113 | deleting an index with no rows fails with the not-found error for `index.undefined` and changes nothing |
| ImageStoreSpec.ThumbnailGeneratedOnce | src/app/shared/services/image-store/image-store.service.ts:125-163 | on a consistent store and a collision-free hash: after a first successful `getThumbnailUrl` a thumbnail row exists, and a second call returns the same data URL from the cached blob and changes nothing |
| ImageStoreService.ImageStore.constructor | src/app/shared/services/image-store/image-store.service.ts:25 | a new store starts with `hasInitialized` false over the persisted files and tables |
| ImageStoreService.ImageStore.Initialize | src/app/shared/services/image-store/image-store.service.ts:40-58 | `mkdir` is issued iff the flag was unset and the root directory was missing; afterwards the flag is set and the directory exists |
| ImageStoreService.ImageStore.Read | src/app/shared/services/image-store/image-store.service.ts:60-68 | returns the content of `index.<first extension>` or the not-found error, and changes no file or row; the store is initialised afterwards (flag set, root directory present) |
| ImageStoreService.ImageStore.SetImageExtension | src/app/shared/services/image-store/image-store.service.ts:205-212 | inserts the row with IGNORE and returns the row passed in |
| ImageStoreService.ImageStore.DeleteImageExtension | src/app/shared/services/image-store/image-store.service.ts:214-221 | drops the first row of the index; without one it is a no-op; it returns the index |
| ImageStoreService.ImageStore.WriteEntry | src/app/shared/services/image-store/image-store.service.ts:87-99 | records the extension with IGNORE, then writes the file named after the extension just passed; the store is initialised afterwards (flag set, root directory present) |
| ImageStoreService.ImageStore.Exists | src/app/shared/services/image-store/image-store.service.ts:115-123 | true iff the root listing holds `index.<first extension>`; the store is initialised afterwards (flag set, root directory present) |
| ImageStoreService.ImageStore.Write | src/app/shared/services/image-store/image-store.service.ts:70-85 | returns `sha256(base64)` under both strategies; an IGNORE write of an existing blob changes nothing; the store is initialised afterwards (flag set, root directory present) |
| ImageStoreService.ImageStore.Delete | src/app/shared/services/image-store/image-store.service.ts:101-113 | deletes the thumbnail first, then the blob and its extension row, as `ImageStoreSpec.Delete`; the store is initialised afterwards (flag set, root directory present) |
| ImageStoreService.ImageStore.DeleteThumbnail | src/app/shared/services/image-store/image-store.service.ts:165-177 | a no-op returning the index without a thumbnail row; otherwise drops the row and deletes the thumbnail's blob recursively; when a row existed, the store is initialised afterwards, and otherwise nothing changes |
| ImageStoreService.ImageStore.StoreThumbnail | src/app/shared/services/image-store/image-store.service.ts:148-163 | writes the thumbnail with REPLACE, records the row with IGNORE, and returns the thumbnail's base64; the store is initialised afterwards (flag set, root directory present) |
| ImageStoreService.ImageStore.MakeThumbnail | src/app/shared/services/image-store/image-store.service.ts:139-146 | the downscaled stored image, or the read error; the store is initialised afterwards (flag set, root directory present) |
| ImageStoreService.ImageStore.SetThumbnail | src/app/shared/services/image-store/image-store.service.ts:134-137 | a read error changes nothing; otherwise the downscaled image is stored as the index's thumbnail and returned; the store is initialised afterwards (flag set, root directory present) |
| ImageStoreService.ImageStore.GetThumbnailUrl | src/app/shared/services/image-store/image-store.service.ts:125-132 | reads the cached thumbnail when a row exists, and then changes nothing; otherwise it makes and stores one; the store is initialised afterwards (flag set, root directory present) |
| ImageStoreService.ImageStore.Clear | src/app/shared/services/image-store/image-store.service.ts:223-235 | both tables empty, no files, flag reset, root directory removed |
| ImageStoreService.ImageStore.Drop | src/app/shared/services/image-store/image-store.service.ts:237-241 | the state `clear` leaves |
| ProofRepositorySpec.Refresh | src/app/services/data/proof/proof-repository.service.ts:22-32 | `refresh$` as written; stated by `RemoveDeletesExactly` and `StaleCacheAfterRemovingLastProof` |
| ProofRepositorySpec.RefreshCorrected | src/app/services/data/proof/proof-repository.service.ts:22-32 | the corrected refresh, which also empties the cache for an empty folder; stated by `RemoveCorrectedMirrorsFolder` |
| ProofRepositorySpec.GetAll | src/app/services/data/proof/proof-repository.service.ts:42-46 | `getAll$`: the refreshed cache |
| ProofRepositorySpec.GetByHash | src/app/services/data/proof/proof-repository.service.ts:48-52 | `getByHash$`: the refreshed cache's proof with the hash; stated by `GetByHashFindsTheProof` |
| ProofRepositorySpec.Add | src/app/services/data/proof/proof-repository.service.ts:55-61 | `add$`: the files in order, then the refresh, then the URIs; stated by `AddStoresOneFilePerHash` |
| ProofRepositorySpec.Remove | src/app/services/data/proof/proof-repository.service.ts:72-76 | `remove$`: the deletions, then the refresh; stated by `RemoveDeletesExactly` |
| ProofRepositorySpec.RemoveCorrected | src/app/services/data/proof/proof-repository.service.ts:72-76 | `remove$` with the corrected refresh; stated by `RemoveCorrectedMirrorsFolder` |
| ProofRepositorySpec.GetRawFile | src/app/services/data/proof/proof-repository.service.ts:85-96 | `getRawFile$` of a proof or a hash; stated by `RawFileRoundTrip` |
| ProofRepositorySpec.AddRawFile | src/app/services/data/proof/proof-repository.service.ts:103-112 | `addRawFile$`: the bytes under `raw/<sha256>.<extension>`; stated by `RawFileRoundTrip` |
| ProofRepositorySpec.RemoveRawFile | src/app/services/data/proof/proof-repository.service.ts:114-119 | `removeRawFile$`; stated by `RawFileRoundTrip` |
| ProofRepositorySpec.ProofFileNameInjective | src/app/services/data/proof/proof-repository.service.ts:63-70 | different hashes give different proof file names |
| ProofRepositorySpec.WellNamedHashesUnique | src/app/services/data/proof/proof-repository.service.ts:22-32 | a folder of files named after their proofs' hashes never holds two different proofs with one hash |
| ProofRepositorySpec.SaveProofFiles | src/app/services/data/proof/proof-repository.service.ts:55-70 | the folder gains exactly the files named after the given hashes; other files are untouched; the naming invariant is kept |
| ProofRepositorySpec.SaveProofFilesLastWriterWins | src/app/services/data/proof/proof-repository.service.ts:63-70 | each written file holds the last proof given with its hash |
| ProofRepositorySpec.DeleteProofFiles | src/app/services/data/proof/proof-repository.service.ts:72-83 | the folder loses exactly the files of the given proofs |
| ProofRepositorySpec.DeleteProofFilesMissing | src/app/services/data/proof/proof-repository.service.ts:72-83 | no deletion fails iff every file existed and no hash was given twice |
| ProofRepositorySpec.ProofWithHash | src/app/services/data/proof/proof-repository.service.ts:48-52 | a cached proof with the hash, or none iff no cached proof has it |
| ProofRepositorySpec.AddStoresOneFilePerHash | src/app/services/data/proof/proof-repository.service.ts:55-61 | `add$` emits one URI per argument, in order; the folder gains one file per hash, and a stored hash is overwritten, not duplicated; the refreshed cache mirrors the folder |
| ProofRepositorySpec.RemoveDeletesExactly | src/app/services/data/proof/proof-repository.service.ts:72-83 | `remove$` deletes exactly the given proofs' files; it fails iff one was missing or repeated; after success the cache mirrors a non-empty folder |
| ProofRepositorySpec.StaleCacheAfterRemovingLastProof | src/app/services/data/proof/proof-repository.service.ts:22-32 | removing the only proof empties the folder, but the cache still holds it and the call completes without emitting |
| ProofRepositorySpec.RemoveCorrectedMirrorsFolder | src/app/services/data/proof/proof-repository.service.ts:72-76 | with the corrected refresh, a successful `remove$` always leaves the cache equal to the folder and emits it |
| ProofRepositorySpec.GetByHashFindsTheProof | src/app/services/data/proof/proof-repository.service.ts:48-52 | `getByHash$` finds a proof iff the folder holds one with the hash, and it is the one in `proof/<hash>.json` |
| ProofRepositorySpec.RawFileRoundTrip | src/app/services/data/proof/proof-repository.service.ts:85-119 | a raw file added under `raw/<sha256>.<extension>` is read back from a proof with that hash and type; once removed, it is gone |
| ProofRepositorySpec.FindByHash | src/app/services/data/proof/proof-repository.service.ts:51 | the search over the cached set returns a proof with the hash, or none iff there is none |
| ProofRepositoryService.ProofRepository.constructor | src/app/services/data/proof/proof-repository.service.ts:20 | the cache starts as the empty set |
| ProofRepositoryService.ProofRepository.Refresh | src/app/services/data/proof/proof-repository.service.ts:22-32 | an empty folder completes and leaves the cache; otherwise the cache becomes the folder's proofs |
| ProofRepositoryService.ProofRepository.GetAll | src/app/services/data/proof/proof-repository.service.ts:42-46 | the refreshed cache |
| ProofRepositoryService.ProofRepository.GetByHash | src/app/services/data/proof/proof-repository.service.ts:48-52 | refresh, then the cached proof with the hash |
| ProofRepositoryService.ProofRepository.Add | src/app/services/data/proof/proof-repository.service.ts:55-61 | writes the files in argument order, refreshes, and emits the URIs |
| ProofRepositoryService.ProofRepository.Remove | src/app/services/data/proof/proof-repository.service.ts:72-76 | deletes the files in order; a missing file fails the call; otherwise it refreshes |
| ProofRepositoryService.ProofRepository.GetRawFile | src/app/services/data/proof/proof-repository.service.ts:85-96 | reads `raw/<hash>.<extension>` of the proof, or of the proof looked up by hash; an unknown hash fails |
| ProofRepositoryService.ProofRepository.AddRawFile | src/app/services/data/proof/proof-repository.service.ts:103-112 | stores the bytes under their content hash and returns that path |
| ProofRepositoryService.ProofRepository.RemoveRawFile | src/app/services/data/proof/proof-repository.service.ts:114-119 | deletes the proof's raw file, or fails when it is missing |
| Collector.StoreAndCollectSteps | src/app/services/collector/collector.service.ts:39-53 | `_storeAndCollect$` as written, as its sequence of calls; stated by `EachInformationProviderCalledOnce`, `EachSignatureProviderCalledOnce`, `StagesInOrder`, `InformationProvidersGetTheProof` and `NoInformationProviderLeavesSignerWithoutProof` |
| Collector.StoreAndCollectStepsCorrected | src/app/services/collector/collector.service.ts:39-53 | the pipeline with every signature provider handed the proof; stated by `CorrectedSignersGetTheProof` |
| Collector.EachInformationProviderCalledOnce | src/app/services/collector/collector.service.ts:46-49 | each registered information provider is called exactly once per capture, and no other is |
| Collector.EachSignatureProviderCalledOnce | src/app/services/collector/collector.service.ts:51 | each registered signature provider is called exactly once per capture, and no other is |
| Collector.StagesInOrder | src/app/services/collector/collector.service.ts:39-53 | raw save first, proof add second, then all information calls, then all signature calls; no later stage precedes an earlier one |
| Collector.InformationProvidersGetTheProof | src/app/services/collector/collector.service.ts:42-48 | information providers receive the proof whose hash comes from the saved file's URI, with the caller's MIME type and the creation time |
| Collector.NoInformationProviderLeavesSignerWithoutProof | src/app/services/collector/collector.service.ts:46-51 | with no information provider, every registered signature provider is handed `undefined`, once each, in registry order |
| Collector.CorrectedSignersGetTheProof | src/app/services/collector/collector.service.ts:46-51 | in the corrected pipeline every signature provider signs the created proof, and the other calls are those of the program |
| Collector.ProofHashIsContentHash | src/app/services/collector/collector.service.ts:40-44 | with raw files named `raw/<sha256>.<extension>`, the proof's hash is the content hash when the hash has no '.' or '/' |
| Collector.RegistryUpdatesIdempotent | src/app/services/collector/collector.service.ts:55-69 | re-adding registered providers, or removing unregistered ones, changes nothing; removal twice equals removal once |
| Collector.CollectorService.constructor | src/app/services/collector/collector.service.ts:18-19 | both registries start empty |
| Collector.CollectorService.AddInformationProvider | src/app/services/collector/collector.service.ts:55-57 | the information registry gains the providers and nothing else changes |
| Collector.CollectorService.RemoveInformationProvider | src/app/services/collector/collector.service.ts:59-61 | the information registry loses the providers and nothing else changes |
| Collector.CollectorService.AddSignatureProvider | src/app/services/collector/collector.service.ts:63-65 | the signature registry gains the providers and nothing else changes |
| Collector.CollectorService.RemoveSignatureProvider | src/app/services/collector/collector.service.ts:67-69 | the signature registry loses the providers and nothing else changes |
| Collector.CollectorService.StoreAndCollect | src/app/services/collector/collector.service.ts:39-53 | the pipeline over the registered providers, each of them called exactly once |
| CapacitorProviderModel.GetBoolean | src/app/services/collector/information/capacitor-provider/capacitor-provider.ts:30-40 | a toggle that was never set reads true |
| CapacitorProviderModel.TogglesDefaultOnAndIndependent | src/app/services/collector/information/capacitor-provider/capacitor-provider.ts:30-44 | both toggles default to on; each setter sets its own toggle and leaves the other |
| CapacitorProviderModel.Provide | src/app/services/collector/information/capacitor-provider/capacitor-provider.ts:60-161 | `provide$` for given toggles; stated by `ProvideShape`, `ProvideValues` and `ProvideGatedByToggles` |
| CapacitorProviderModel.ProvideWithPreferences | src/app/services/collector/information/capacitor-provider/capacitor-provider.ts:30-59 | `provide$` with the toggles read from the preferences; stated by `DefaultPreferencesCollectEverything` |
| CapacitorProviderModel.ProvideShape | src/app/services/collector/information/capacitor-provider/capacitor-provider.ts:60-161 | the list has 16 records with device collection on, plus 1 with location on; each is tagged with the proof hash and "Capacitor"; the names are device, battery, language and location keys in that order |
| CapacitorProviderModel.ProvideValues | src/app/services/collector/information/capacitor-provider/capacitor-provider.ts:60-161 | the values are the device fields, battery level and charging state, language code, and `(lat, lon)`, in that order |
| CapacitorProviderModel.ProvideGatedByToggles | src/app/services/collector/information/capacitor-provider/capacitor-provider.ts:51-59 | both toggles off give the empty list; the two groups are independent and concatenate in order |
| CapacitorProviderModel.DefaultPreferencesCollectEverything | src/app/services/collector/information/capacitor-provider/capacitor-provider.ts:30-59 | with no preference set, all 17 records are produced |
| WebCryptoApi.InitializedKeys | src/app/services/collector/signature/web-crypto-api-provider/web-crypto-api-provider.ts:17-30 | the slots after `initialize$`; stated by `InitializeKeepsCompletePair`, `InitializeReplacesHalfPair`, `InitializeFillsSlots` and `InitializeIdempotent` |
| WebCryptoApi.InitializeKeepsCompletePair | src/app/services/collector/signature/web-crypto-api-provider/web-crypto-api-provider.ts:17-30 | with both slots filled, nothing is written |
| WebCryptoApi.InitializeReplacesHalfPair | src/app/services/collector/signature/web-crypto-api-provider/web-crypto-api-provider.ts:23 | a stored public key without its private key is replaced with the new pair |
| WebCryptoApi.InitializeFillsSlots | src/app/shared/collector/signature/web-crypto-api-signature-provider/web-crypto-api-signature-provider.service.spec.ts:23-28 | after initialization both keys are non-empty when the generator yields non-empty keys |
| WebCryptoApi.InitializeIdempotent | src/app/shared/collector/signature/web-crypto-api-signature-provider/web-crypto-api-signature-provider.service.spec.ts:48-56 | initializing twice keeps the keys of the first initialization |
| WebCryptoApi.WebCryptoApiProvider.constructor | src/app/services/collector/signature/web-crypto-api-provider/web-crypto-api-provider.ts:32-38 | the key slots are the persisted preferences |
| WebCryptoApi.WebCryptoApiProvider.Initialize | src/app/services/collector/signature/web-crypto-api-provider/web-crypto-api-provider.ts:17-30 | a pair is generated and stored iff the public or the private key is empty; otherwise the slots are unchanged |
| WebCryptoApi.WebCryptoApiProvider.Provide | src/app/services/collector/signature/web-crypto-api-provider/web-crypto-api-provider.ts:40-51 | the signature of the message under the stored private key, paired with the stored public key; no slot is written |
| Migration.Page | src/app/shared/services/migration/migration.service.ts:86-90 | a page holds at most `limit` assets; it is empty iff the offset is past the end; it is the slice from the offset |
| Migration.FetchAllNotOriginallyOwned | src/app/shared/services/migration/migration.service.ts:81-99 | returns the whole remote list in order; the requested offsets are 0, 100, 200, … up to the list's length; the loop stops at the first empty page, after the fewest requests that reach the end |
| Migration.LocalPostCaptures | src/app/shared/services/migration/migration.service.ts:65-73 | exactly the proofs whose legacy hash is among the assets' proof hashes |
| Migration.LocalPostCapturesIsFilter | src/app/shared/services/migration/migration.service.ts:68-73 | the post-capture selection is a filter: it keeps a single proof iff its legacy hash is listed, and distributes over concatenation, so order is kept |
| Migration.Migrated | src/app/shared/services/migration/migration.service.ts:38-79 | `migrate$()` run to completion; stated by `MigrateRemovesExactlyPostCaptures`, `MigrateTwiceIsOnce`, `HasMigratedOnlyWhenRun` and `InterruptedRunRetriedInFull` |
| Migration.MigrateRemovesExactlyPostCaptures | src/app/shared/services/migration/migration.service.ts:38-79 | a run removes exactly the post captures and keeps every other proof; it sets the flag, `hasMigrated` and the version; with the flag set nothing changes |
| Migration.MigrateTwiceIsOnce | src/app/shared/services/migration/migration.service.ts:51-53 | a second run changes nothing, whatever the backend list and app version |
| Migration.HasMigratedOnlyWhenRun | src/app/shared/services/migration/migration.service.ts:22-41 | `hasMigrated` becomes true only through a migration that was not skipped |
| Migration.InterruptedRunRetriedInFull | src/app/shared/services/migration/migration.service.ts:39-43 | a run interrupted after some deletions leaves the flag unset; the retry ends with the same proofs, flag and version as one uninterrupted run |
| Migration.MigrationService.constructor | src/app/shared/services/migration/migration.service.ts:22-25 | `hasMigrated` starts false |
| Migration.MigrationService.RemoveLocalPostCaptures | src/app/shared/services/migration/migration.service.ts:65-79 | removes the post captures one by one, in order |
| Migration.MigrationService.RemoveProofs | src/app/shared/services/migration/migration.service.ts:74-78 | removes the given proofs one by one, in order, recording one removal each |
| Migration.MigrationService.Migrate | src/app/shared/services/migration/migration.service.ts:38-59 | skipped when the flag is set; otherwise the removals, then the flag, then `hasMigrated`, then the previous version, in that order |

## Findings

| source | as written | input that shows it | evidently intended | confidence | as-written member | corrected member |
|---|---|---|---|---|---|---|
| src/app/services/data/proof/proof-repository.service.ts:28 | `forkJoin([])` over an empty `proof/` folder completes without emitting, so `refresh$` never replaces the cache | a repository holding one proof `p`: `remove$(p)` empties the folder but the cache still holds `p`, and the call completes without emitting | an empty folder refreshes the cache to the empty set | high; not executed | ProofRepositorySpec.StaleCacheAfterRemovingLastProof | ProofRepositorySpec.RemoveCorrectedMirrorsFolder |
| src/app/services/collector/collector.service.ts:46-51 | with no information provider, `defaultIfEmpty([])` emits `[]`, and `([proof])` destructures `undefined` from it | no information provider and one signature provider `s`: `s` is asked to sign `undefined` | the signature providers sign the created proof whether or not facts were collected | high; not executed | Collector.NoInformationProviderLeavesSignerWithoutProof | Collector.CorrectedSignersGetTheProof |

The classes model the code as written. `ProofRepositorySpec.RefreshCorrected`, `ProofRepositorySpec.RemoveCorrected` and `Collector.StoreAndCollectStepsCorrected` are the corrected definitions. The properties the program evidently intends are proved about them.

## Left out

- The `Table` class is not part of this model. The model assumes its semantics: an IGNORE `insert` appends a row unless an equal whole row is present and returns its argument; `delete` drops every equal row; `queryAll` returns the rows in insertion order. `FirstExtensionWins`, `WriteThenRead` and the delete lemmas rest on this.
- DeleteLeavesNoTrace: holds only for stores with at most one row per index (`Unique`). A REPLACE write of bytes already stored under another extension appends a second extension row for the index (`WriteKeepsUnique`). A `delete` then removes only the first row and its file, so the second file survives and `exists` stays true (`TwoExtensionsSurviveDelete`).
- DeleteDropsExtensionRow: holds only under `Unique`, for the same reason as `DeleteLeavesNoTrace`.
- DeleteRemovesThumbnailBlob: holds only under `Unique`; a thumbnail index with two extension rows keeps its second file.
- DeleteThenNotExists: holds only under `Unique`; with two extension rows `exists` stays true after `delete` (`TwoExtensionsSurviveDelete`).
- DeleteDropsThumbnailRow: holds only under `Unique` as well. `getThumbnailUrl` adds a thumbnail row only for an index without one (`GetThumbnailUrlKeepsUnique`). A direct call of `storeThumbnail` for an index that already has a thumbnail appends a second row, and `delete` drops only the first.
- WriteThenReadAlways: rests on `ContentHashing`, which idealises SHA-256 as collision-free, with digests and extensions free of '.'. It also rests on `Consistent` (every blob named after its content hash, every extension row backed by its file). Every operation keeps `Consistent` and the empty store has it, but a store persisted by other code is not known to satisfy it.
- ThumbnailGeneratedOnce: rests on `ContentHashing` and `Consistent`, as `WriteThenReadAlways` does.
- StoreAndCollect: lists every call of a run that completes, as `StoreAndCollectSteps` does. A provider whose `collectAndStore$` fails, or completes without emitting, makes `forkJoin` stop the pipeline, and the later stages are not run. The model does not show such a truncated run.
- Concurrency is not modelled: the image store's mutex, `Promise.all`, `forkJoin` and `zip`. Each public operation is one sequential step. The recursive thumbnail delete removes the thumbnail row before it recurses.
- Filesystem failures other than a missing file are not modelled. Writes always succeed. A missing `proof/` folder reads as empty.
- Platform URIs are not modelled. A returned URI is the folder-relative path (`proof/<hash>.json`, `raw/<hash>.<extension>`), without the platform's data-directory prefix.
- `ImageStore.getUri` is not modelled. It only asks the plugin for the platform URI of the same path that `read` uses.
- The root listing of the data directory is reduced to one flag: whether the `ImageStore` directory exists.
- `drop` is not modelled beyond `clear`. Dropping a table is modelled as leaving it empty, as `clear` does.
- JSON serialisation is not modelled. A proof file holds the proof itself, so parsing is lossless.
- Observables are modelled by their first result only. `getAll$` and `getByHash$` keep following `proofList$` after that first emission, and later emissions are not modelled.
- `storeAndCollect` is not modelled: its platform branch and `BackgroundTask` are operating-system lifetime plumbing. Because of that, the model also does not show that with no signature provider the pipeline emits nothing and the background task is never finished.
- What the information and signature providers compute and store (`collectAndStore$`) is not modelled. The collector model stops at the arguments they receive.
- The collector's own revision of the repository is used (`saveRawFile$`, and `add$` emitting the added proofs). The proof repository modelled here names these `addRawFile$`, and its `add$` emits URIs.
- `fileNameWithoutExtension` is not part of this model. `Collector.ProofHashIsContentHash` assumes it returns the stem of the last path segment.
- Number and boolean rendering (`String(...)` and template literals) is not modelled. Plugin results arrive already rendered, and plugin failures are not modelled.
- The localisation service is the uninterpreted parameter `translate`.
- The `WebCryptoApiProvider.id` field is not modelled.
- Key generation and ECDSA signing are not modelled: the new pair is a parameter, and `sign` is uninterpreted.
- The migration's blocking dialog and its translated message are not modelled.
- `Device.getInfo` is not modelled; the app version is a parameter.
- The backend serves a stable list, and a page is the slice from the requested offset. Backend and transport errors are not modelled.
- `getOldProof` is not modelled: the migration service takes the legacy hash as an uninterpreted function of a proof.
- The migration's repository calls (`getAll`, `remove`) are modelled as a list of proofs with set deletion.
