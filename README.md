# Shapr3DConverter conversion core in Dafny

This project models the core of Shapr3DConverter, an iOS app that imports
Shapr3D documents and converts them to STEP, STL or OBJ. The app keeps a
conversion state for every document and format, and it caches the document
list on disk. The model covers these parts:

- **Two conversion engines.** `DocumentConversionEngine.convertPublisher` is the streaming engine, with a cancellation flag. `FileConverter.convert` is the older synchronous engine, with a progress callback that can answer `.abort`. Both read the source in chunks of at most 1024 bytes and write the bitwise complement of every byte. Each is a method with a loop, proved equal to a recursive function that runs one pass of the loop per call. The properties are proved about that function.
- **The output path rule** `outputURL(for:format:)`.
- **Two copies of `DocumentConversionManager`.** Each is a class holding a registry from `(documentID, format)` to the running job. Methods update the registry and the document's state map in place. The current copy lives under `Conversion/`. The older copy writes to `converted_<name>`. Both copies share the registry invariant in `ConversionRegistry`.
- **The document entity and the cache codec.** This covers `ConversionFormat`, `ConversionState`, and `DocumentItem`, a class whose `states` field the managers assign. It also covers the tagged record `ConversionStateCodable` with its decoding, which can fail, and `compactMapKeys`, `toDocumentItem` and `toCacheable`.
- **The cache manager.** `restoreDocuments` keeps cached items whose file still exists, in order. `saveDocuments` writes the encoded list, and `cacheFileURL` gives the cache file's path.
- **The file manager.** `copyFile` copies a file to a uniquely prefixed name. `removeFile` removes a file.
- **Localized strings.** These are the string keys plus `{format}` placeholder substitution.
- **The grid's column-count rule.**

How external things are represented:

- **File system.** The file system is a map from `Url` to byte sequences, either as a value or as the `files` field of a `FileStore` object.
- **Engine inputs.**
  - A source file is a `SourceFile`: its size attribute, its bytes, and whether it opens.
  - Whether the target can be created is a boolean.
- **Oracles.**
  - The random fault draw and the cancellation flag are functions of the loop pass.
  - The synchronous engine's callback is a function of its call number.
- **Parameters.** These are passed in as parameters:
  - the JSON encoder and decoder;
  - the documents directory;
  - the unique copy prefix (a fresh `UUID` in the app);
  - the localized string table;
  - the error's `localizedDescription`.
- **Progress.**
  - The engines report progress as the pair `Fraction(bytesWritten, totalBytes)`.
  - The managers store progress as a `real`.
- **Events.** Combine delivery is replaced by explicit event methods (`OnValue` and `OnCompletion`) that take the `Job` that sent the event. Cancelling a subscription stops its delivery, and a completed publisher sends nothing more. So an event has an effect only while its job is still the one registered under its key. The predicate `Live` states this.

Two declarations are each made twice in the source:

- Both engine files declare `ProgressAction`, `FileConverterProtocol` and `ConversionError`. `ConversionError` is modelled once, in `Streams`.
- Both manager files declare `ConversionKey`. It is modelled once, as `ConversionRegistry.Key`.

## Model

| member | source | states |
|---|---|---|
| Streams.ComplementAll | Shapr3DConverter/Sources/DocumentService/DocumentConversionEngine.swift:52 | The converted chunk has the same length as the input, and each byte is the complement of the input byte at the same position. |
| Streams.ComplementInvolution | Shapr3DConverter/Sources/DocumentService/DocumentConversionEngine.swift:52-53 | Applying the transform twice gives back the original bytes. |
| Streams.Chunk | Shapr3DConverter/Sources/DocumentService/DocumentConversionEngine.swift:46-47 | A read returns at most 1024 bytes: the next `min(1024, remaining)` bytes at the handle's offset. It is empty exactly at end of file. |
| DocumentItem.AllCasesComplete | Shapr3DConverter/Sources/UI/Documents/Models/DocumentItem.swift:4-8 | `allCases` has exactly three formats, contains every format, and its raw values are pairwise distinct. |
| DocumentItem.RawValueRoundTrip | Shapr3DConverter/Sources/UI/Documents/Models/DocumentItem.swift:4-8 | `FormatFromRawValue`, which is `ConversionFormat(rawValue:)`, maps each format's `RawValue` back to that format, and maps no other string to it. |
| DocumentItem.RawValueInjective | Shapr3DConverter/Sources/UI/Documents/Models/DocumentItem.swift:4-8 | Two formats with the same raw value are the same format. |
| DocumentItem.AllIdle | Shapr3DConverter/Sources/UI/Documents/Models/DocumentItem.swift:30-31 | The default state map has every format, and every format is `idle`. |
| DocumentItem.Document.constructor | Shapr3DConverter/Sources/UI/Documents/Models/DocumentItem.swift:23-32 | The constructor stores id, URL and name. An explicit state map is stored unchanged, even one that lacks some formats. Without one, every format starts `idle`. |
| DocumentItem.EqualityByIdentity | Shapr3DConverter/Sources/UI/Documents/Models/DocumentItem.swift:34-40 | `SameDocument`, which is `==`, is an equivalence that compares ids only, whatever the URL or name. Equal items give the same `HashInput`, which is what `hash(into:)` feeds the hasher. |
| DocumentConversionEngine.ConvertPublisher | Shapr3DConverter/Sources/DocumentService/DocumentConversionEngine.swift:21-64 | The worker with its `while !isCancelled` loop produces exactly the target contents and the event stream of the specification function `Convert`. `Convert` does the early checks, then runs `Pump`, the loop written one pass per call. |
| DocumentConversionEngine.PumpOutput | Shapr3DConverter/Sources/DocumentService/DocumentConversionEngine.swift:52-54 | About `Pump`, the `while !isCancelled` loop: from any handle position, the loop's output is the complement of exactly the bytes it consumed, in order, and never runs past the end of the source. |
| DocumentConversionEngine.PumpValues | Shapr3DConverter/Sources/DocumentService/DocumentConversionEngine.swift:46-56 | The loop sends a stream. Its i-th value is the position after the i-th chunk, and every chunk before it was a full 1024 bytes. The output ends where the last value says. |
| DocumentConversionEngine.PumpFinished | Shapr3DConverter/Sources/DocumentService/DocumentConversionEngine.swift:46-50 | `.finished` is sent only after the whole source was consumed. `PumpCompletes` gives the converse for a run with no cancellation and no fault. |
| DocumentConversionEngine.PumpOutcome | Shapr3DConverter/Sources/DocumentService/DocumentConversionEngine.swift:41-62 | The loop ends in exactly one of three ways, `Decided` by the pass after the last value. That pass sends `CancellationError` exactly when it sees the flag. It sends `dataError` exactly when it does not see the flag but draws a fault. It sends `.finished` exactly when it sees neither. Every earlier pass saw neither. |
| DocumentConversionEngine.PumpCompletes | Shapr3DConverter/Sources/DocumentService/DocumentConversionEngine.swift:41-51 | With the flag never set and no fault drawn, the loop sends `.finished` and writes the complement of the whole rest of the source. |
| DocumentConversionEngine.ConvertIsStream | Shapr3DConverter/Sources/DocumentService/DocumentConversionEngine.swift:41-62 | Every run sends some values, then exactly one completion, and nothing after it. A run that never created the target sends only a failure. |
| DocumentConversionEngine.ConvertOutcome | Shapr3DConverter/Sources/DocumentService/DocumentConversionEngine.swift:40-62 | Past the early checks, the worker sends `CancellationError`, `dataError` or `.finished` exactly as the pass after the last value sees the flag, a fault or neither. No earlier pass saw either. |
| DocumentConversionEngine.ConvertCompletes | Shapr3DConverter/Sources/DocumentService/DocumentConversionEngine.swift:40-51 | With no cancellation and no fault, the worker sends `.finished`. The target is the complement of the whole source and converts back to it. |
| DocumentConversionEngine.ConvertEarlyFailures | Shapr3DConverter/Sources/DocumentService/DocumentConversionEngine.swift:27-34 | A missing size attribute gives `inputError`. A source that `FileHandle(forReadingFrom:)` cannot open gives a file-system error. A failed `createFile` gives `outputError`. A missing source gives a file-system error. In each case the failure is the whole stream and nothing is written. |
| DocumentConversionEngine.ConvertOutput | Shapr3DConverter/Sources/DocumentService/DocumentConversionEngine.swift:40-57 | The target is the complement of a prefix of the source. Converting it again restores that prefix. After `.finished` it is the complement of the whole source. |
| DocumentConversionEngine.ConvertProgress | Shapr3DConverter/Sources/DocumentService/DocumentConversionEngine.swift:40-56 | Every value is the cumulative number of bytes written over the size attribute. The values strictly increase, each grows by at most 1024, and the last equals the target's length. |
| DocumentConversionEngine.ValueIncreases | Shapr3DConverter/Sources/DocumentService/DocumentConversionEngine.swift:54-56 | A later progress value counts strictly more bytes than an earlier one. |
| DocumentConversionEngine.ConvertProgressRatio | Shapr3DConverter/Sources/DocumentService/DocumentConversionEngine.swift:54-56 | When the size attribute is the real length, every value lies in (0, 1] and the values strictly increase as fractions. A finished run on a non-empty source ends at exactly 1. |
| DocumentConversionEngine.EmptySourceFinishes | Shapr3DConverter/Sources/DocumentService/DocumentConversionEngine.swift:46-50 | With no fault and no cancellation on the first pass, an empty source finishes with an empty target and no progress value. |
| DocumentConversionEngine.CancelledFrom | Shapr3DConverter/Sources/DocumentService/DocumentConversionEngine.swift:41-59 | Cancellation is polled only at the head of a pass. If the flag is first seen at pass j, exactly the chunks before it were reported, then the stream fails with `CancellationError`. |
| DocumentConversionEngine.CancelledAtPass | Shapr3DConverter/Sources/DocumentService/DocumentConversionEngine.swift:41-59 | A cancellation first seen at pass j leaves exactly j values and the complement of the first j chunks. This includes a chunk already in progress when cancel was requested. |
| DocumentConversionEngine.FormatExtension | Shapr3DConverter/Sources/DocumentService/DocumentConversionEngine.swift:83 | Trimming the dots from a raw value gives `step`, `stl` or `obj`. The result is non-empty and contains no dot. |
| DocumentConversionEngine.OutputURLShape | Shapr3DConverter/Sources/DocumentService/DocumentConversionEngine.swift:82-85 | `OutputURL`, which is `outputURL(for:format:)`: the output path keeps the input's directory and stem, and sets the extension to the format tag without its dot. |
| DocumentConversionEngine.OutputURLReplacesExtension | Shapr3DConverter/Sources/DocumentService/DocumentConversionEngine.swift:82-85 | `outputURL(outputURL(u, f1), f2) == outputURL(u, f2)`, so the rule is idempotent. |
| DocumentConversionEngine.OutputURLsDistinct | Shapr3DConverter/Sources/DocumentService/DocumentConversionEngine.swift:82-85 | Different formats of one input never get the same output path. |
| FileConverter.Convert | Shapr3DConverter/Sources/Service/ConverEngine.swift:20-42 | `convert` does the early checks, then runs the loop. Together they produce exactly the target, callback arguments and outcome of the specification function `Converted`. |
| FileConverter.Pump | Shapr3DConverter/Sources/Service/ConverEngine.swift:29-41 | The `while true` loop produces exactly the output, callback arguments and outcome of the specification function `Loop`. |
| FileConverter.LoopOutput | Shapr3DConverter/Sources/Service/ConverEngine.swift:35-39 | About `Loop`, the `while true` loop one pass per call: the loop writes the complement of exactly the bytes it consumed, in order. |
| FileConverter.LoopCalls | Shapr3DConverter/Sources/Service/ConverEngine.swift:35-40 | Without a callback nothing is reported. With a callback it is called once per non-empty chunk, with the cumulative position over the total. The output ends at the last reported position. |
| FileConverter.LoopOutcome | Shapr3DConverter/Sources/Service/ConverEngine.swift:31-40 | The loop ends in exactly one of three ways. It returns only after consuming the whole source. It throws `dataError`. Or it throws `aborted`, and then only right after a call answered `.abort`. A run that does not abort ends at the pass after its last chunk, pass `iteration + ChunksOf(|output|)`. It throws `dataError` exactly when that pass draws a fault, and otherwise returns. Every earlier pass drew no fault and, with a callback, was answered `.continue`. |
| FileConverter.LoopCompletes | Shapr3DConverter/Sources/Service/ConverEngine.swift:31-41 | With no fault and a callback that never aborts, or no callback at all, the loop returns normally having converted the whole rest of the source. |
| FileConverter.LoopAbortsAtCall | Shapr3DConverter/Sources/Service/ConverEngine.swift:35-40 | Suppose the callback answers `.abort` at call j and `.continue` before it. Then the loop throws `aborted` after j + 1 calls and j + 1 written chunks, and reads nothing more. |
| FileConverter.LoopFaultsAtPass | Shapr3DConverter/Sources/Service/ConverEngine.swift:31-40 | Suppose the first j passes draw no fault, are answered `.continue` and each still finds input, and pass j draws the fault. Then the loop throws `dataError` with exactly the first j chunks converted. |
| FileConverter.ConvertedEarlyFailures | Shapr3DConverter/Sources/Service/ConverEngine.swift:21-26 | About `Converted`, the whole call as a function: a missing size attribute throws `inputError`, a failed `createFile` throws `outputError`, and an unopenable or missing source throws a file-system error. All of these happen before any write or callback. |
| FileConverter.ConvertedOutput | Shapr3DConverter/Sources/Service/ConverEngine.swift:35-37 | The target is the complement of a prefix of the source, and converting it again restores that prefix. After a normal return it is the complement of the whole source. |
| FileConverter.ConvertedCalls | Shapr3DConverter/Sources/Service/ConverEngine.swift:35-40 | Without a callback there are no calls. With one, the call arguments are the cumulative counts over the size attribute after each chunk. They strictly increase, and the last is the target's length. |
| FileConverter.ConvertedAbortFollowsAnswer | Shapr3DConverter/Sources/Service/ConverEngine.swift:40 | `aborted` is thrown only when a callback exists and its last call was answered `.abort`. |
| FileConverter.ConvertedCompletes | Shapr3DConverter/Sources/Service/ConverEngine.swift:35-40 | With no fault and no `.abort`, `convert` returns normally. The target is then the complement of the whole source, and converting it again gives the source back. |
| FileConverter.ConvertedAbortsAtCall | Shapr3DConverter/Sources/Service/ConverEngine.swift:35-40 | An `.abort` answered to call j stops the conversion with exactly j + 1 calls and the first j + 1 chunks converted. |
| FileConverter.ConvertedFaultsAtPass | Shapr3DConverter/Sources/Service/ConverEngine.swift:20-41 | The whole-call form: a fault drawn at pass j, after j passes that proceed and find input, gives `dataError` and a target holding the complement of the first j chunks. |
| FileConverter.ConvertedFaultAfterLastChunk | Shapr3DConverter/Sources/Service/ConverEngine.swift:31-35 | The fault check also comes before the final empty read. For a source of any size, a fault drawn at the pass after its last chunk gives `dataError`, with the whole source already converted. |
| FileConverter.ConvertedEmptySource | Shapr3DConverter/Sources/Service/ConverEngine.swift:35 | An empty source returns normally with an empty target, and the callback is never called. |
| DocumentItemCached.Encode | Shapr3DConverter/Sources/UI/Documents/Models/DocumentItemCached.swift:9-32 | The tag names the case, in both directions. Each payload field is present exactly for its own case; the other fields are nil. |
| DocumentItemCached.StateRoundTrip | Shapr3DConverter/Sources/UI/Documents/Models/DocumentItemCached.swift:9-42 | About `ToConversionState`, which is `toConversionState()`: `toConversionState(ConversionStateCodable(from: s)) == s` for all four cases. |
| DocumentItemCached.DecodeReadsOwnPayload | Shapr3DConverter/Sources/UI/Documents/Models/DocumentItemCached.swift:34-42 | A decoded state re-encodes to the same tag and the same payload field. |
| DocumentItemCached.DecodeFailures | Shapr3DConverter/Sources/UI/Documents/Models/DocumentItemCached.swift:34-42 | Decoding fails exactly for an unknown tag or a missing payload for the tag. `idle` decodes whatever the payload fields hold. |
| DocumentItemCached.CompactMapKeys | Shapr3DConverter/Sources/UI/Documents/Models/DocumentItemCached.swift:62-72 | The result's keys are exactly the non-nil new keys, and each holds the value of an entry mapping to it. When no two kept keys collide, the result is exactly those entries, re-keyed with their values unchanged. |
| DocumentItemCached.FormatFromRawValueInjective | Shapr3DConverter/Sources/UI/Documents/Models/DocumentItemCached.swift:55 | `ConversionFormat(rawValue:)` never sends two tags to the same format, so re-keying loses no entry. |
| DocumentItemCached.CompactMapValues | Shapr3DConverter/Sources/UI/Documents/Models/DocumentItemCached.swift:56 | `compactMapValues` keeps exactly the entries whose transformed value is non-nil, and stores that value. |
| DocumentItemCached.RestoredStates | Shapr3DConverter/Sources/UI/Documents/Models/DocumentItemCached.swift:54-58 | The restored states are exactly the cached entries that have a known format tag and a decodable state. Missing formats are not filled with `idle`. |
| DocumentItemCached.RestoredByCompactMaps | Shapr3DConverter/Sources/UI/Documents/Models/DocumentItemCached.swift:54-56 | Re-keying by format and then dropping undecodable states gives exactly `RestoredStates`. |
| DocumentItemCached.ToDocumentItem | Shapr3DConverter/Sources/UI/Documents/Models/DocumentItemCached.swift:50-59 | `toDocumentItem` always returns a new document, never nil. It copies id and name, places the file at `documentsDirectory/fileName`, and installs the restored states. |
| DocumentItemCached.CacheableStates | Shapr3DConverter/Sources/UI/Documents/Models/DocumentItem.swift:45-46 | There is one entry per present format, keyed by its raw value and holding the encoded state. Every key is a known format tag. |
| DocumentItemCached.ToCacheable | Shapr3DConverter/Sources/UI/Documents/Models/DocumentItem.swift:44-53 | `toCacheable` keeps id and name and encodes the states under their raw values. |
| DocumentItemCached.CacheRoundTrip | Shapr3DConverter/Sources/UI/Documents/Models/DocumentItemCached.swift:54-58 | Caching a state map and restoring it gives the map back exactly, including the formats it lacks. |
| DocumentCacheManager.CacheFileURL | Shapr3DConverter/Sources/DocumentService/Cache/DocumentCacheManager.swift:49-52 | The cache path is the documents directory plus a component, and that component is `.documents_cache.json` and nothing else. |
| DocumentCacheManager.Surviving | Shapr3DConverter/Sources/DocumentService/Cache/DocumentCacheManager.swift:38-41 | The filter keeps exactly the cached items whose `documentsDirectory/fileName` exists, and is never longer than the cached list. |
| DocumentCacheManager.SurvivingKeepsOrder | Shapr3DConverter/Sources/DocumentService/Cache/DocumentCacheManager.swift:38-41 | The filter keeps the cached order: it distributes over concatenation. |
| DocumentCacheManager.SurvivingSingle | Shapr3DConverter/Sources/DocumentService/Cache/DocumentCacheManager.swift:38-41 | A single cached item is kept exactly when its file exists. |
| DocumentCacheManager.RestoredItems | Shapr3DConverter/Sources/DocumentService/Cache/DocumentCacheManager.swift:27-45 | A missing cache file gives []. So does a cache that fails to decode. Otherwise the result is the surviving items. |
| DocumentCacheManager.RestoreDocuments | Shapr3DConverter/Sources/DocumentService/Cache/DocumentCacheManager.swift:27-45 | `restoreDocuments` returns one new document per surviving item, in order. Each has the item's id and name, its file in the documents directory, and the restored states. |
| DocumentCacheManager.Cacheable | Shapr3DConverter/Sources/DocumentService/Cache/DocumentCacheManager.swift:14 | `documents.map(toCacheable)` keeps count and order. |
| DocumentCacheManager.SaveDocuments | Shapr3DConverter/Sources/DocumentService/Cache/DocumentCacheManager.swift:9-23 | `saveDocuments` replaces the cache file with the encoded list. An encoding or write error is swallowed and leaves the files unchanged. |
| DocumentCacheManager.SaveRestoreRoundTrip | Shapr3DConverter/Sources/DocumentService/Cache/DocumentCacheManager.swift:9-45 | Restoring after a successful save gives the saved documents whose file exists. Each comes back with its own states. |
| DocumentFileManager.UniqueDestination | Shapr3DConverter/Sources/DocumentService/Files/DocumentFileManager.swift:10-12 | The copy goes to `parent(destination)/prefix_name`. |
| DocumentFileManager.CopyFile | Shapr3DConverter/Sources/DocumentService/Files/DocumentFileManager.swift:9-23 | `copyFile` returns exactly the result of the `Copied` specification and leaves the store's files as `Copied` says. |
| DocumentFileManager.CopyOutcome | Shapr3DConverter/Sources/DocumentService/Files/DocumentFileManager.swift:9-23 | A copy succeeds exactly when the source exists and any file already at the destination could be removed. Success returns the source's own name and the unique destination, which now holds the source's bytes, overwriting. Failure returns `("", nil)`. No other file changes. |
| DocumentFileManager.CopyOntoSource | Shapr3DConverter/Sources/DocumentService/Files/DocumentFileManager.swift:15-18 | When the unique destination is the source itself, the removal deletes the source and the copy fails. |
| DocumentFileManager.RemoveFile | Shapr3DConverter/Sources/DocumentService/Files/DocumentFileManager.swift:25-34 | `removeFile` returns exactly the result of the `Removed` specification and leaves the store's files as `Removed` says. |
| DocumentFileManager.RemoveOutcome | Shapr3DConverter/Sources/DocumentService/Files/DocumentFileManager.swift:25-34 | Removing a missing path returns true and changes nothing. False comes back exactly when the removal throws, and then the file remains. On success the file is gone and no other file changes. |
| DocumentFileManager.RemoveIdempotent | Shapr3DConverter/Sources/DocumentService/Files/DocumentFileManager.swift:25-34 | Removing twice is removing once. |
| ConversionRegistry.CompletedState | Shapr3DConverter/Sources/DocumentService/Conversion/DocumentConversionManager.swift:29-39 | `.finished` gives `completed(url)`, a `CancellationError` gives `idle`, and any other failure gives `failed(description)`. Each holds in both directions. |
| ConversionRegistry.RegisterKeepsWellFormed | Shapr3DConverter/Sources/DocumentService/Conversion/DocumentConversionManager.swift:17-45 | Registering a new job over the superseded one keeps the single-flight registry invariant, and the superseded job is registered nowhere. |
| ConversionRegistry.UnregisterKeepsWellFormed | Shapr3DConverter/Sources/DocumentService/Conversion/DocumentConversionManager.swift:47-52 | Removing a key keeps the registry invariant, whether or not its job is also marked cancelled. |
| ConversionManager.DocumentConversionManager.constructor | Shapr3DConverter/Sources/DocumentService/Conversion/DocumentConversionManager.swift:13-15 | A new manager has an empty registry. |
| ConversionManager.DocumentConversionManager.StartConversion | Shapr3DConverter/Sources/DocumentService/Conversion/DocumentConversionManager.swift:17-45 | The format becomes `converting(0)`. The previous job for the key is cancelled and no longer delivers. The key maps to a new job targeting `outputURL`. Nothing else changes. |
| ConversionManager.DocumentConversionManager.OnValue | Shapr3DConverter/Sources/DocumentService/Conversion/DocumentConversionManager.swift:41-43 | A delivered progress value p sets `converting(p)` for the job's format only. Stale events change nothing. |
| ConversionManager.DocumentConversionManager.OnCompletion | Shapr3DConverter/Sources/DocumentService/Conversion/DocumentConversionManager.swift:27-40 | A delivered completion stores the `CompletedState` and removes the key. After `.finished` the state is `completed(outputURL)`, the same URL as the target. A stale completion changes nothing and cannot remove a newer job's key. |
| ConversionManager.DocumentConversionManager.CancelConversion | Shapr3DConverter/Sources/DocumentService/Conversion/DocumentConversionManager.swift:47-52 | The key is removed and its job is cancelled, and the format becomes `idle`, whether or not a job ran. Repeating it changes nothing. |
| ConversionManager.DocumentConversionManager.CancelAllConversions | Shapr3DConverter/Sources/DocumentService/Conversion/DocumentConversionManager.swift:54-61 | Afterwards every format is `idle` and no key of the document remains. Other documents' keys are untouched. |
| LegacyConversionManager.DocumentConversionManager.constructor | Shapr3DConverter/Sources/DocumentService/DocumentConversionManager.swift:13-15 | A new manager has an empty registry. |
| LegacyConversionManager.DocumentConversionManager.StartConversion | Shapr3DConverter/Sources/DocumentService/DocumentConversionManager.swift:17-46 | The format becomes `converting(0)`. The previous job is cancelled. The key maps to a new job targeting `converted_<name>`. |
| LegacyConversionManager.DocumentConversionManager.OnValue | Shapr3DConverter/Sources/DocumentService/DocumentConversionManager.swift:42-44 | A delivered progress value p sets `converting(p)`, and stale events change nothing. |
| LegacyConversionManager.DocumentConversionManager.OnCompletion | Shapr3DConverter/Sources/DocumentService/DocumentConversionManager.swift:28-41 | A delivered completion stores the `CompletedState` with `outputURL` and removes the key. After `.finished` the reported URL is not the file the job wrote. |
| LegacyConversionManager.DocumentConversionManager.CancelConversion | Shapr3DConverter/Sources/DocumentService/DocumentConversionManager.swift:48-53 | The key is removed and the format becomes `idle`, whether or not a job existed. Repeating it changes nothing. |
| LegacyConversionManager.ConvertedTarget | Shapr3DConverter/Sources/DocumentService/DocumentConversionManager.swift:22-23 | The target is the source's directory plus `converted_` followed by the source's name. |
| LegacyConversionManager.TargetIgnoresFormat | Shapr3DConverter/Sources/DocumentService/DocumentConversionManager.swift:22-23 | Every format of one document writes the same path. |
| LegacyConversionManager.ReportsOtherPath | Shapr3DConverter/Sources/DocumentService/DocumentConversionManager.swift:37-39 | The URL reported after `.finished` always differs from the path written. |
| Localized.KeysDistinct | Shapr3DConverter/Sources/Constants/Localized.swift:22-26 | Two cases have the same `Key`, their `String(describing:)` name, exactly when they are the same case. |
| Localized.PlaceholderIsFormat | Shapr3DConverter/Sources/Constants/Localized.swift:28-30 | `Placeholder` has one case, and its pattern is `{format}`. |
| Localized.NoOccurrenceUnchanged | Shapr3DConverter/Sources/Constants/Localized.swift:51 | About `ReplaceAll`, which is `replacingOccurrences(of:with:)`: a string with no occurrence of the pattern is left unchanged. |
| Localized.FreePrefixCopied | Shapr3DConverter/Sources/Constants/Localized.swift:51 | The scan runs left to right: a prefix in which no occurrence starts is copied unchanged. |
| Localized.OccurrenceReplaced | Shapr3DConverter/Sources/Constants/Localized.swift:51 | An occurrence at the scan position is replaced by the value, and scanning continues after it, so occurrences do not overlap. |
| Localized.ReplaceBySelf | Shapr3DConverter/Sources/Constants/Localized.swift:51 | Replacing the pattern with itself leaves any string unchanged. |
| Localized.SubstitutedUnchanged | Shapr3DConverter/Sources/Constants/Localized.swift:48-53 | About `Substituted`, the specification of `replacingPlaceholders(with:)`: an empty variables map leaves the string unchanged. So does a string without `{format}`. |
| Localized.ReplacingPlaceholders | Shapr3DConverter/Sources/Constants/Localized.swift:48-53 | `{format}` is replaced by its value when the map has one, and the result does not depend on the order the map is iterated. |
| Localized.Lookup | Shapr3DConverter/Sources/Constants/Localized.swift:35-39 | The lookup gives the table's entry for the key, or the key itself when the table has none. |
| Localized.LocalizedText | Shapr3DConverter/Sources/Constants/Localized.swift:34-42 | `localized` substitutes the variables into the looked-up text. An untranslated key with no variables yields the key itself. |
| DocumentGridLayout.Columns | Shapr3DConverter/Sources/UI/Documents/DocumentGridViewController.swift:92-99 | The column count is always between 2 and 5. |
| DocumentGridLayout.ColumnsCountThresholds | Shapr3DConverter/Sources/UI/Documents/DocumentGridViewController.swift:92-99 | The count is 2 plus the number of thresholds among 400, 700 and 1000 that the width has reached. |
| DocumentGridLayout.ColumnRanges | Shapr3DConverter/Sources/UI/Documents/DocumentGridViewController.swift:93-98 | Widths below 400 give 2, including zero and negative widths; [400, 700) gives 3; [700, 1000) gives 4; 1000 or more gives 5. Each range holds in both directions. |
| DocumentGridLayout.ColumnsMonotonic | Shapr3DConverter/Sources/UI/Documents/DocumentGridViewController.swift:93-98 | A wider container never gets fewer columns. |

## Left out

- **Threads and Combine.** Dispatch queues, `receive(on:)` and `PassthroughSubject` delivery are left out. Events are sequential method calls, and a cancelled or finished subscription delivers nothing. The `[weak self]` guard is not modelled; the manager is assumed to outlive its subscriptions.
- **`usleep` pacing.** It has no observable effect on the results and is left out.
- **`UInt.random` fault draw.** It becomes an oracle parameter: `fault(k)` is the draw at pass k.
- **Floating point.**
  - Progress is the exact pair `(bytesWritten, totalBytes)` rather than a `Double`.
  - A size attribute of 0 with a non-empty source would give an infinite `Double`. The exact fraction is then undefined and no unit-interval claim is made about it.
  - `CGFloat` widths are reals, and NaN is not modelled.
- **File handles and file I/O.**
  - A `FileHandle` read or write that throws partway through a conversion is not modelled. Reads of a readable source always succeed.
  - `FileHandle(forWritingTo:)` throwing after `createFile` succeeded (DocumentConversionEngine.swift:35, ConverEngine.swift:27) is not modelled. Both engines take a creatable target to be openable for writing.
  - `Data(contentsOf:)` failing on an existing cache file is folded into the decoder returning `None`.
  - `copyItem` failing for a reason other than a missing source is not modelled.
- **JSON.** `JSONEncoder` and `JSONDecoder` are parameters. The format of the cache file is not modelled.
- **Background save.** `saveDocuments` runs on a background queue in the app. Here it is a function from the old files to the new files.
- **Environment values.**
  - `UUID()` generation is left out: document ids are numbers, and the copy prefix is a parameter.
  - The `documentDirectory` lookup is a parameter.
  - `localizedDescription` is a parameter.
  - `NSLocalizedString` is a map lookup that falls back to the key.
- **URLs.** Percent-encoding, relative paths and names that begin with a dot are not modelled. A path is a list of parent components plus a last component.
- **`toCacheable`'s `fileURL:` argument.** `toCacheable` passes this argument, but `DocumentItemCached` does not declare such a field. The model keeps only the declared fields: id, file name and states.
- **`toDocumentItem` return type.** It is declared to return an Optional but always returns an item, so the model returns a document.
- **Engine protocols.** The `FileConverterProtocol` protocols and the duplicate `ProgressAction` in the streaming engine's file have no behaviour and are not modelled.
- Localized.ReplaceAll: compares the string's `char`s one by one. Foundation's `replacingOccurrences(of:with:)` without options compares under canonical equivalence, so a `}` followed by a combining mark is a match here but not there. The only pattern is `{format}`, and the model does not cover translations that put a combining mark right after it.
- DocumentItemCached.CompactMapKeys: when two kept keys map to the same new key, the source keeps whichever entry the dictionary iterates last. The contract only says the value comes from one of them, because the iteration order is unspecified. `ConversionFormat(rawValue:)` never collides, so this does not affect restored documents.

## Findings

| source | as written | input that shows it | evidently intended | confidence | as-written member | corrected member |
|---|---|---|---|---|---|---|
| Shapr3DConverter/Sources/DocumentService/DocumentConversionManager.swift:37-39 | The engine writes to `converted_<name>` (lines 22-23), but `.finished` stores `completed(outputURL(fileURL, format))`, a file that was never written. | A document at `docs/part.shapr` converted to `.step` writes `docs/converted_part.shapr` but reports `docs/part.step`. | The completed state names the file the job wrote, as the copy under `Conversion/` does. | not executed; follows from the two path rules | LegacyConversionManager.ReportsOtherPath | ConversionManager.DocumentConversionManager.OnCompletion |
