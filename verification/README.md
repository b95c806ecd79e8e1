# A model of the content-addressed NAR store

ekapkgs serves Nix store paths. The server cuts every archive into chunks that are shared between
paths, keeps them in five SQLite tables and a chunk directory, and negotiates with clients so that
only missing chunks travel. This project models that core in Dafny and proves what it relies on:

- the **NAR codec**: a cursor parser that rewinds, a recursive writer, and a streaming writer over a
  Merkle tree (`NarFormat`, `NarFields`, `Utf8`, `NarCodec`, `NarRoundTrip`, `NameOrder`, `Streaming`,
  `StreamingWriter`);
- the **castore**: ingesting, reading, evicting, and the invariant that makes its tables refine a map
  from path hash to tree in every run (`Merkle`, `CasStore`, `CasInvariant`, `CasEviction`, `CasReads`,
  `ReturnedArchive`, `DirSource`, `PathNames`, `Castore`);
- **chunk sync**: the tree walk with visited sets, the request with an exact set or a Bloom filter, the
  client's chunk store and the pull that rebuilds the wanted archives (`TreeWalk`, `TreeWalkResults`,
  `HaveCheck`, `Manifest`, `ChunkStore`, `CasPull`, `Decompose`);
- the two **garbage collectors** (`AccessOrder`, `EvictionPlan`, `EvictionResults`, `Gc`, `GcFiles`,
  `CasGc`, `CasAccess`);
- **planning and streaming**: the layered download plan, closure expansion, message framing, the
  client's reassembly, and streaming from the store (`DownloadPlan`, `Closure`, `Stream`, `StreamClient`,
  `StreamServer`);
- **caches and filters** that must agree with the simple thing: `DirCache`, `DeltaCache`,
  `DeltaCacheRuns`, `DeltaCacheFits`, `Bloom`, `BloomCoverage` (with `Arithmetic`), `BloomGate`; and `Threshold` signatures.

## How to read it

Objects that the program updates in place are classes; each of their methods is proved equal to a
function on values, and the laws are proved about those functions, over every run. `Merkle.Config`
collects what is not modelled concretely (hash, directory encoding, chunker, compressor) and
`Merkle.Sound` states all that is assumed of it: the hash is injective, decoding inverts encoding,
chunks are non-empty, at most 256 KiB and concatenate to the data, decompression inverts compression
up to its output limit; `SoundConfig` has parameters that meet all of it. The first SQLite state is an empty store whose `path_files` table is ready.

The central statement is `CasReads.RunRefinesMap`: after any sequence of archive uploads, metadata
uploads, chunk uploads, reported accesses and evictions, reading a path returns the written form of the name-sorted tree
last put under its hash and not evicted since. The invariant behind it (`CasStore.Inv`) links all
five tables and the chunk files.

## Where the code and its comments differ

The model follows the code; each of these has a member that states it, with its exact condition.

- `get_for_target` is described as finding any cached delta for a target. Evicting an older delta
  removes the index entry of a newer one that is still cached (`EvictingOneLosesTheTarget`); the exact
  condition is `FoundIffNothingEvicted`, and told from the insertions alone `FoundIffOldestFits`. The
  eviction order is by insertion, not by use.
- `verify_threshold` is described as counting distinct certificates with a valid signature. Only the
  first signature naming a certificate is looked at (`InvalidFirstHidesValid`); the exact condition
  is `FirstSignatureDecides`.
- An externally uploaded chunk larger than twice the maximal chunk size is stored, but if it was
  compressed it cannot be read back (`StoredChunkReadsBack` is an equivalence).
- The stride of the Bloom filter is made odd so that the sequence covers all positions. As long as nothing
  wraps at 2^64, `n` hash functions cover all `b` positions if and only if `n >= b` and the stride has no
  factor in common with `b` (`CoversIffCoprime`; `OddStrideMissesPositions` has a key that misses). Odd
  strides do cover every filter whose size is a power of two (`PowerOfTwoIsCovered`), and every filter
  once the sum has wrapped often enough (`EveryFilterIsCoveredInTheEnd`).
- A client with more than 1000 chunks sends a filter, and the server takes a false positive for a chunk the
  client has. The path then cannot be rebuilt (`CollisionBlocksTree` has the keys of chunks that block one).
- A pull checks the rebuilt archive against the hash of the archive as it was pushed, but the store keeps a
  tree and writes it sorted. A held path whose manifest has the hash of the pushed bytes is therefore
  skipped exactly if these were not the archive of a sorted tree (`PushedPathPulls`; an archive with
  trailing bytes is a case, `TrailedIsNotCanonical`). `CasPull` says exactly which paths arrive.
- While the filters are being rebuilt, a row is noted in the filter that is about to be replaced; afterwards
  `has_chunk` and `has_narinfo` deny it although it is stored, unless the rows the filter knows cover its
  positions (`Warmup`, `HasChunk`; `WarmupAround` has two rows that are denied). Only rows that fall between
  building and swapping a filter are lost (`OnlyMeanwhileIsLost`).
- An archive whose writing fails midway is still ended with a terminal message, and the client takes
  the full blocks it got for the archive. It gets what was written if and only if writing succeeded or
  failed at a multiple of 64 KiB (`DeliveredIffWritten`). In the store this happens exactly to paths with
  metadata and no tree under the key of their url: the client stages an empty file (`StagedIffHeld`).
- The client looks at the delta flag only when the hash changes; payloads are always recovered, flags
  exactly in steady streams (`StreamRoundTrip`; `DeltaAfterArchiveIsMistaken` has an unsteady one).
- The filesystem collector deletes the archive of an evicted path even if a retained path has the same file
  (`SharedArchiveIsLost`). Retained paths keep their files, whatever has to be freed, if and only if
  paths that share a file are all on or below a reference cycle (`FilesAreKeptIff`).
- The castore evicts by last access, but an access is dated back to the full hour and an upload is not: a path
  that was accessed last can be the older one (`AccessMakesOlder`). The order is that of the requests unless a
  path was put, and another accessed later, within one clock hour (`EarlierIsOlderIff`).
- In a download plan a path that references itself always ends in the leftover batch, unless the
  client has its hash or another entry provides it (`SelfReferenceIsLeftover`).

## Model

| member | source | states |
|---|---|---|
| NarRoundTrip.ParseInvertsWrite | crates/ekapkgs-nix/src/nar.rs:101-286 | for every tree that fits in memory and every trailing byte string, parsing the written archive followed by the trailer gives the tree back |
| NarRoundTrip.WriteNarIsPrefixFree | crates/ekapkgs-nix/src/nar.rs:220-286 | no archive is a proper prefix of another, and equal archives mean equal trees: writing is injective |
| NarRoundTrip.ParsedIsRepresentable | crates/ekapkgs-nix/src/nar.rs:109-215 | whatever is accepted at any offset is a tree the writer can write: names and targets are UTF-8 and lengths fit 64 bits |
| NarRoundTrip.WriteAfterParseNormalises | crates/ekapkgs-nix/src/nar.rs:101-286 | for every accepted input, writing the parsed tree gives an archive that parses to the same tree, so normalising twice changes nothing more |
| NarRoundTrip.EncodedIsLexed | crates/ekapkgs-nix/src/nar.rs:61-74 | reading strings one after the other from an encoded token list yields exactly the tokens, padding included |
| NarFormat.ReadStr | crates/ekapkgs-nix/src/nar.rs:61-74 | a string is only read if all its bytes exist; the cursor may end up to 7 bytes past the end because padding is skipped unseen |
| NarFormat.ParseObj | crates/ekapkgs-nix/src/nar.rs:109-123 | parsing an object advances, ends at most 7 bytes past the end, and terminates on every input |
| NarCodec.NarReader.ReadU64 | crates/ekapkgs-nix/src/nar.rs:49-59 | the cursor method reads what the grammar says and leaves the cursor where the grammar says |
| NarCodec.NarReader.ReadStr | crates/ekapkgs-nix/src/nar.rs:61-74 | the same for length-prefixed padded strings |
| NarCodec.NarReader.ExpectStr | crates/ekapkgs-nix/src/nar.rs:77-88 | the same for expected tokens, with the error cases |
| NarCodec.NarReader.ParseNarObj | crates/ekapkgs-nix/src/nar.rs:109-123 | the recursive cursor parser agrees with the look-ahead grammar on result, error and end position; on no outcome, errors included, is the cursor more than 7 bytes past the end |
| NarCodec.NarReader.ParseRegular | crates/ekapkgs-nix/src/nar.rs:125-155 | the field loop agrees with the grammar on result, error and end position; it ends with the closing string next or just after the contents, and never more than 7 bytes past the end, errors included |
| NarCodec.NarReader.StepBack | crates/ekapkgs-nix/src/nar.rs:145-146 | the 16 bytes stepped back over are the closing string, which is read next again |
| NarCodec.NarReader.ParseDirectory | crates/ekapkgs-nix/src/nar.rs:157-209 | the entry loop agrees with the grammar; it ends with the closing string next or with fewer than 8 bytes left |
| NarCodec.NarReader.NextEntry | crates/ekapkgs-nix/src/nar.rs:160-205 | one turn: an entry, an error, or the end, where the closing string is left for the caller |
| NarCodec.NarReader.ParseDirEntry | crates/ekapkgs-nix/src/nar.rs:169-177 | one entry agrees with the grammar |
| NarCodec.NarReader.ParseSymlink | crates/ekapkgs-nix/src/nar.rs:211-215 | symlinks agree with the grammar |
| NarCodec.ParseNarBytes | crates/ekapkgs-nix/src/nar.rs:101-107 | the parser's entry point computes the function the round-trip laws are about |
| NarCodec.WriteNarTo | crates/ekapkgs-nix/src/nar.rs:230-286 | the recursive writer appends exactly the archive of the tree, field by field as the format has it: length in eight bytes, payload, zeros |
| NarCodec.WriteBytesTo | crates/ekapkgs-nix/src/nar.rs:275-286 | appends eight bytes of length, least significant first, the bytes, and zeros up to the next multiple of eight |
| NarFields.StrIsField | crates/ekapkgs-nix/src/nar.rs:275-286 | every written string is such a field, every byte of its padding zero |
| NarFields.EncodedAreFields | crates/ekapkgs-nix/src/nar.rs:230-286 | an encoded token list is one field for each token, in order, and nothing else |
| NarFields.LeafProductions | crates/ekapkgs-nix/src/nar.rs:235-268 | the tokens of executable and plain files, links and the empty directory, spelled out |
| NarFields.EntryProduction | crates/ekapkgs-nix/src/nar.rs:248-259 | one more entry adds exactly its seven framing tokens around the tokens of its node, before the closing string |
| Utf8.Utf8Exactly | crates/ekapkgs-nix/src/nar.rs:89-93 | a name or target is accepted if and only if it is a sequence of encoded Unicode scalar values |
| NameOrder.SortedIndicesSorts | crates/ekapkgs-nix/src/nar.rs:388-394 | the sort used by the streaming writer is a stable permutation by name, in the order of `NameLeIsBytewise` |
| NameOrder.NameLeIsBytewise | crates/ekapkgs-nix/src/nar.rs:388-394 | one name is at most another if and only if it begins it or has the smaller byte where they first differ |
| NameOrder.CanonIsSorted | crates/ekapkgs-nix/src/nar.rs:388-394 | the recursively sorted form of every tree is sorted at every level |
| NameOrder.SortedIsAscending | crates/ekapkgs-nix/src/nar.rs:388-394 | sorted means that in every directory, at every level, the names ascend byte by byte |
| NameOrder.CanonIsReordered | crates/ekapkgs-nix/src/nar.rs:388-394 | the sorted form has the same files, links and names, at every level in another order |
| NameOrder.CanonOfSorted | crates/ekapkgs-nix/src/nar.rs:388-394 | a tree that is already sorted is unchanged |
| Streaming.ChunksConcatenate | crates/ekapkgs-serve/src/storage/castore.rs:1923-1953 | a reader that has every chunk of a file yields the file's bytes |
| Streaming.RenderComplete | crates/ekapkgs-nix/src/nar.rs:333-413 | from any complete reader the streaming writer's output is the archive of the sorted tree |
| Streaming.RenderedFilesRead | crates/ekapkgs-nix/src/nar.rs:333-413 | if the whole tree is written without an error, every file of it can be read |
| StreamingWriter.WriteNarStreaming | crates/ekapkgs-nix/src/nar.rs:324-331 | the streaming writer, walking digests and sorting entries in place, writes what is rendered; when a part is missing it returns the error and leaves in the sink exactly what comes before that part |
| StreamingWriter.WriteCasNode | crates/ekapkgs-nix/src/nar.rs:333-413 | the same for one node, in the order of the sorted entries, failures included |
| StreamingWriter.WriteFileDataTo | crates/ekapkgs-serve/src/storage/castore.rs:1923-1953 | file data is written chunk by chunk and equals the concatenation the rows describe, up to the first missing chunk |
| Merkle.CaOfInjective | crates/ekapkgs-serve/src/storage/castore.rs:1111-1199 | a root node stands for one tree only |
| CasInvariant.IngestAdds | crates/ekapkgs-serve/src/storage/castore.rs:1111-1199 | ingesting a tree keeps the table invariants, adds exactly its chunks, non-empty files and directories, and changes no existing row or file |
| CasInvariant.StoreChunkKeepsInv | crates/ekapkgs-serve/src/storage/castore.rs:603-606 | uploading a chunk keeps the global invariant |
| CasInvariant.PutTreeKeepsInv | crates/ekapkgs-serve/src/storage/castore.rs:1831-1884 | putting a tree keeps the global invariant with the path now holding the tree |
| CasInvariant.PutNarinfoKeepsInv | crates/ekapkgs-serve/src/storage/castore.rs:1802-1829 | metadata keeps an existing tree and creates a placeholder otherwise |
| CasInvariant.UpdateAccessKeepsInv | crates/ekapkgs-serve/src/storage/castore.rs:619-645 | recording accesses keeps the invariant and every tree |
| CasInvariant.PathFilesAreRows | crates/ekapkgs-serve/src/storage/castore.rs:1847-1855 | every recorded non-empty file of every path, old or re-pushed, has its chunk rows |
| CasEviction.EvictKeepsInv | crates/ekapkgs-serve/src/storage/castore.rs:747-851 | eviction removes one path from the abstract map and keeps the invariant, so everything another path needs stays |
| CasEviction.RunKeepsInv | crates/ekapkgs-serve/src/storage/castore.rs:747-999 | the invariant holds after every run from the empty store |
| CasEviction.EvictLeavesNoGarbage | crates/ekapkgs-serve/src/storage/castore.rs:747-851 | eviction leaves no chunk without a file and no file without a path if there was none before |
| CasEviction.EvictKeepsOrphans | crates/ekapkgs-serve/src/storage/castore.rs:747-851 | eviction changes nothing about which chunks no file lists: it leaves none behind and removes none of them |
| CasEviction.PutTreeMakesNoGarbage | crates/ekapkgs-serve/src/storage/castore.rs:1831-1884 | nor does putting an archive |
| CasEviction.RunWithoutUploadsHasNoGarbage | crates/ekapkgs-serve/src/storage/castore.rs:747-999 | in runs without chunk uploads there is never garbage |
| CasEviction.RunKeepsFilesOwned | crates/ekapkgs-serve/src/storage/castore.rs:747-999 | after every run, uploads included, each file row belongs to a path |
| CasEviction.TablesHoldWhatPathsShare | crates/ekapkgs-serve/src/storage/castore.rs:747-851 | without garbage a chunk is stored if and only if a file lists it, a file if and only if a path has it and it is not empty |
| CasEviction.EvictConservesBytes | crates/ekapkgs-serve/src/storage/castore.rs:747-851 | the total of the recorded chunk sizes drops by exactly what eviction reports as freed |
| CasEviction.NoPathsNoBytes | crates/ekapkgs-serve/src/storage/castore.rs:747-851 | without paths and garbage no chunk, chunk file or file row is left |
| CasReads.StoredChunkReadsBack | crates/ekapkgs-serve/src/storage/castore.rs:489-531 | a stored chunk reads back if and only if it is at most twice the maximal chunk size or was not worth compressing; otherwise reading fails |
| CasReads.StoredFileReadsBack | crates/ekapkgs-serve/src/storage/castore.rs:1923-1953 | every ingested file reads back |
| CasReads.ServerWritesUpToMissing | crates/ekapkgs-serve/src/storage/castore.rs:1923-1953 | of a file with an unreadable chunk exactly the chunks before it are written, then the error |
| CasReads.HeldTreeIsComplete | crates/ekapkgs-serve/src/storage/castore.rs:1771-1800 | every tree the invariant says is held can be read completely |
| CasReads.RunRefinesMap | crates/ekapkgs-serve/src/storage/castore.rs:1771-1884 | after every run, reading a path equals reading the abstract map: nothing, a placeholder error, or the archive of the sorted tree last put |
| CasReads.OtherOperationsAreInvisible | crates/ekapkgs-serve/src/storage/castore.rs:747-851 | any further operations that neither put nor evict a hash, accesses to it and evictions of others included, do not change what reading it from tables and chunk files gives |
| CasReads.LastPutStays | crates/ekapkgs-serve/src/storage/castore.rs:1831-1884 | a path stands for the tree put last under it, whatever happens to other paths |
| CasReads.CanonicalArchiveIsReturned | crates/ekapkgs-serve/src/storage/castore.rs:1771-1884 | a canonical sorted archive comes back byte for byte after any run and any later operations on other paths |
| ReturnedArchives.PutArchiveIsReturnedSorted | crates/ekapkgs-serve/src/storage/castore.rs:1771-1884 | whatever archive is put, what is read back after any run and any operations on other paths is an archive of the same tree, its directories in ascending byte order, each field as the format has it |
| ReturnedArchives.ReturnedArchiveIsSorted | crates/ekapkgs-serve/src/storage/castore.rs:1771-1800 | in every run, whatever is read is such an archive of the tree the path stands for |
| Castores.Castore.constructor | crates/ekapkgs-serve/src/storage/castore.rs:249-296 | a new store is empty and satisfies the invariant |
| Castores.Castore.WriteChunkFile | crates/ekapkgs-serve/src/storage/castore.rs:956-999 | small chunks get no file, existing files are kept and reported without a level, new files hold the shorter of data and compressed data |
| Castores.Castore.StoreChunk | crates/ekapkgs-serve/src/storage/castore.rs:936-947 | writing the file and inserting the row has the specified effect on tables and files |
| Castores.Castore.StoreChunkExternal | crates/ekapkgs-serve/src/storage/castore.rs:603-606 | one step of the run model, keeping the invariant |
| Castores.Castore.GetChunkByDigest | crates/ekapkgs-serve/src/storage/castore.rs:489-531 | inline data, raw file or bounded decompression, and every error case |
| Castores.Castore.IngestFile | crates/ekapkgs-serve/src/storage/castore.rs:1113-1165 | storing pieces and then rows one by one has the specified effect |
| Castores.Castore.IngestNode | crates/ekapkgs-serve/src/storage/castore.rs:1111-1199 | the recursive ingest has the specified effect and returns the tree's root node |
| Castores.Castore.CollectFileDigests | crates/ekapkgs-serve/src/storage/castore.rs:855-903 | walking the stored directories collects exactly the digests of the tree's files |
| Castores.Castore.PutNar | crates/ekapkgs-serve/src/storage/castore.rs:1831-1884 | one step of the run model: an archive that does not parse is an error and changes nothing |
| Castores.Castore.PutNarinfo | crates/ekapkgs-serve/src/storage/castore.rs:1802-1829 | one step of the run model |
| Castores.Castore.UpdateAccess | crates/ekapkgs-serve/src/storage/castore.rs:619-645 | one step of the run model: a batch of accesses, each path once, unknown paths passed over |
| DirSources.DirSource.Load | crates/ekapkgs-serve/src/storage/castore.rs:1069-1104 | asking the cache first and filling it afterwards gives what the table gives, and keeps the cache coherent |
| DirSources.OnlyCheckedRowsAreSafe | crates/ekapkgs-serve/src/storage/castore.rs:1077-1104 | a directory is loaded from its own row; the row of another directory under its digest is refused by the server and taken by the client, which does not check |
| Castores.Castore.WriteNarTo | crates/ekapkgs-serve/src/storage/castore.rs:1780-1800 | writes what the abstract map says for the path, also when that is cut short, and tells a missing path from a failed one |
| Castores.Castore.GetNar | crates/ekapkgs-serve/src/storage/castore.rs:1771-1800 | reads through the directory cache and returns what the abstract map holds: an archive of the held tree with ascending names |
| Castores.Castore.EvictPath | crates/ekapkgs-serve/src/storage/castore.rs:747-851 | one step of the run model, returning the exact drop of the byte total |
| Castores.Castore.DropFiles | crates/ekapkgs-serve/src/storage/castore.rs:781-811 | exactly the files of the path that no remaining path has lose their rows, and their chunks are the candidates |
| Castores.Castore.DropChunks | crates/ekapkgs-serve/src/storage/castore.rs:813-846 | exactly the candidates that no remaining file lists are deleted, and their sizes are summed |
| Castores.Castore.TotalChunkBytes | crates/ekapkgs-serve/src/storage/castore.rs:648-655 | the sum over the chunk table |
| DirCaches.QueueIsByLastUse | crates/ekapkgs-serve/src/storage/castore.rs:90-132 | after every run the queue lists the cached keys once each in the order of their last use, so the victim is the least recently used, and the size stays within capacity |
| DirCaches.LoggedIsLru | crates/ekapkgs-serve/src/storage/castore.rs:90-132 | the cache on the read path is at all times the result of some run, so its queue is in order of last use and within capacity |
| DirCaches.TouchKeepsRight | crates/ekapkgs-serve/src/storage/castore.rs:108-117 | a lookup keeps queue and table in step |
| DirCaches.PutKeepsRight | crates/ekapkgs-serve/src/storage/castore.rs:119-131 | an insertion keeps queue and table in step and the size bounded |
| DirCaches.DirCache.Get | crates/ekapkgs-serve/src/storage/castore.rs:108-117 | returns the cached directory and moves it to the back |
| DirCaches.DirCache.Insert | crates/ekapkgs-serve/src/storage/castore.rs:119-131 | replaces, or evicts the front of the queue, and appends |
| TreeWalks.TreeWalk.WalkCasNode | crates/ekapkgs-serve/src/storage/castore.rs:1304-1407 | the walk that skips seen files and directories adds exactly what the full walk adds at first occurrence |
| TreeWalks.TreeWalk.RequestChunks | crates/ekapkgs-serve/src/storage/castore.rs:1350-1361 | chunks are requested once each unless claimed |
| TreeWalks.SeenDirAddsNothing | crates/ekapkgs-serve/src/storage/castore.rs:1370-1398 | a directory seen before and not being walked has been emitted with everything below it |
| TreeWalks.DirIsNotBelowItself | crates/ekapkgs-serve/src/storage/castore.rs:1370-1398 | no directory contains itself, so skipping seen directories never skips an open one |
| TreeWalkResults.WalkCasTrees | crates/ekapkgs-serve/src/storage/castore.rs:572-600 | the negotiation walk equals walking every wanted tree in full and keeping first occurrences |
| TreeWalkResults.MissingIsExact | crates/ekapkgs-serve/src/storage/castore.rs:1304-1407 | the missing list is duplicate-free and is exactly the chunks of the wanted trees that the client does not claim |
| TreeWalkResults.MappingsAreExact | crates/ekapkgs-serve/src/storage/castore.rs:1304-1407 | every non-empty file of the wanted trees has exactly one mapping, and nothing else has |
| TreeWalkResults.DirectoriesAreExact | crates/ekapkgs-serve/src/storage/castore.rs:1370-1398 | every directory of the wanted trees is emitted exactly once, after all directories in it |
| ChunkStores.ChunkStore.StoreChunk | crates/ekapkgs/src/chunk_store.rs:76-94 | adds a chunk that is not there and keeps the client's tables genuine |
| ChunkStores.ChunkStore.StoreFileChunks | crates/ekapkgs/src/chunk_store.rs:128-147 | rows are inserted one by one and existing rows are kept |
| ChunkStores.ChunkStore.IndexResponse | crates/ekapkgs/src/chunk_store.rs:255-296 | afterwards every announced directory and mapping is there and the tables are still genuine |
| ChunkStores.ChunkStore.WriteNar | crates/ekapkgs/src/cas_pull.rs:183-192 | reassembly writes what the local tables render |
| ChunkStores.ClientTrustsRows | crates/ekapkgs/src/chunk_store.rs:117-125 | whatever directory a row decodes to is taken for the one under its digest |
| ChunkStores.ClientWritesWholeFiles | crates/ekapkgs/src/chunk_store.rs:150-178 | of a file with a missing chunk the client writes nothing |
| CasPulls.NeededChunkIsServed | crates/ekapkgs-serve/src/storage/castore.rs:489-531 | the server can serve every chunk its walk announces, with matching digest |
| Manifests.StoringKeepsBytesIff | crates/ekapkgs-serve/src/storage/castore.rs:1857-1877 | writing the stored tree gives back the bytes that were pushed if and only if these are the archive of a sorted tree with nothing after it |
| Manifests.RebuiltVerifiesIff | crates/ekapkgs/src/cas_pull.rs:246-258 | a rebuilt archive has the hash of the pushed bytes if and only if these are such an archive |
| Manifests.VerifiedExactly | crates/ekapkgs/src/cas_pull.rs:246-258 | an archive is accepted if and only if a SHA-256 hash in the manifest is its own; hashes of other kinds accept everything |
| Manifests.TrailedIsNotCanonical | crates/ekapkgs/src/cas_pull.rs:195-204 | an archive followed by anything is accepted by the store and never has its hash after rebuilding |
| HaveChecks.BuildCheck | crates/ekapkgs/src/negotiate.rs:118-160 | up to 1000 digests the request is the exact set; above, a filter that answers yes exactly for digests all of whose positions are those of held digests |
| HaveChecks.HeldIsClaimed | crates/ekapkgs-serve/src/storage/castore.rs:77-85 | what the client has always counts as held |
| CasPulls.RebuiltIffClaimsHold | crates/ekapkgs-serve/src/storage/castore.rs:70-86 | for any membership test: after the download the archive of a wanted tree can be written if and only if the test claims no chunk of it that the client lacks, and then it is the archive the server has |
| CasPulls.ClaimsAreDecidedBefore | crates/ekapkgs/src/cas_pull.rs:58-140 | whether a claim is false depends on what the client had before the pull; downloading cannot repair one |
| CasPulls.CollisionBlocksTree | crates/ekapkgs-nix/src/bloom.rs:74-95 | a client with more than 1000 chunks, one of them under the first of two colliding keys, never gets a tree with a chunk it lacks under the second, whatever the number of hash functions |
| CasPulls.FetchChunks | crates/ekapkgs/src/cas_pull.rs:63-140 | downloading the missing list succeeds; the client then has exactly its own chunks and the listed ones |
| CasPulls.Sync | crates/ekapkgs/src/cas_pull.rs:27-140 | for any membership test: one negotiation followed by the download leaves the client with the announced directories, mappings and missing chunks, and its own chunks |
| CasPulls.CasPull | crates/ekapkgs/src/cas_pull.rs:20-205 | exact set or filter: a path arrives if and only if it is wanted, the server holds its tree, the request claims no chunk of it falsely and its rebuilt archive has the hash in the manifest, and then as the bytes the server itself returns; the server refuses exactly lists of more than 10,000 hashes and filters over 16 MiB |
| CasPulls.PushedPathPulls | crates/ekapkgs/src/cas_pull.rs:195-204 | after any run in which a path was put last with given bytes, and with their hash in the manifest, the path arrives if and only if the bytes are the archive of a sorted tree |
| Decomposing.DecomposeNar | crates/ekapkgs-nix/src/decompose.rs:42-62 | the client's accumulating recursion computes the specified decomposition |
| Decomposing.Decomposer.DecomposeNode | crates/ekapkgs-nix/src/decompose.rs:64-176 | one node adds its directories, mappings and first occurrences of chunks |
| Decomposing.Decomposer.AddPieces | crates/ekapkgs-nix/src/decompose.rs:72-100 | the hasher fed piece by piece has seen the whole file |
| Decomposing.DecompositionAgreesWithIngest | crates/ekapkgs-nix/src/decompose.rs:42-176 | for every tree the client's root, directories, mappings and chunks are exactly what the server stores when it ingests the tree into an empty store; no chunk is listed twice |
| AccessOrder.OrderByAccess | crates/ekapkgs-serve/src/storage/castore.rs:907-921 | all keys, each once, oldest access first |
| EvictionResults.SelectionKeepsClosed | crates/ekapkgs-serve/src/gc.rs:480-524 | every eviction is of a stored path then unreferenced and still needed; every referrer of an evicted path was evicted before it; freed is the sum of the evicted sizes |
| EvictionResults.SelectionProgress | crates/ekapkgs-serve/src/gc.rs:480-524 | the selection frees enough, or a reference cycle among retained paths is exhibited |
| EvictionResults.TargetIsMetIffFree | crates/ekapkgs-serve/src/gc.rs:480-524 | enough is freed if and only if the sizes of the paths that are neither on a reference cycle nor referenced, directly or not, from one sum to the amount asked for |
| EvictionResults.EntangledStays | crates/ekapkgs-serve/src/gc.rs:480-524 | a path on or below a reference cycle is never evicted |
| EvictionResults.LessSelectsPrefix | crates/ekapkgs-serve/src/gc.rs:480-524 | a smaller amount evicts a beginning of what a larger one evicts, in the same order |
| EvictionResults.PrefixIsSelected | crates/ekapkgs-serve/src/gc.rs:480-524 | whatever has been evicted when a path with a size goes is the whole selection for some smaller amount |
| EvictionResults.AcyclicSelectionSuffices | crates/ekapkgs-serve/src/gc.rs:480-524 | without cycles other than self-references it always frees enough |
| EvictionResults.StuckHasCycle | crates/ekapkgs-serve/src/gc.rs:480-524 | if every retained path is pinned by another one, a cycle survives |
| EvictionResults.OldestUnreferencedFirst | crates/ekapkgs-serve/src/gc.rs:460-524 | of two paths that nothing references the older is evicted first |
| EvictionPlans.RoundsEnd | crates/ekapkgs-serve/src/gc.rs:480-524 | the outer loop ends with enough freed or with every retained path pinned |
| Gc.GcDb.RunGc | crates/ekapkgs-serve/src/gc.rs:424-567 | the nested loops compute the selection and delete exactly the selected rows, every reference from or to them, and of the files on disk exactly the metadata file and the archive of every path that is gone |
| Gc.GcDb.Scan | crates/ekapkgs-serve/src/gc.rs:484-520 | one scan with early exit computes one pass of the selection |
| Gc.GcDb.DeleteRows | crates/ekapkgs-serve/src/gc.rs:537-567 | deletes the evicted rows, their references and their files, nothing else |
| Gc.GcDb.MaybeRunGc | crates/ekapkgs-serve/src/gc.rs:390-422 | below the limit nothing changes; above it bytes are conserved, and the target is met if and only if the paths free of reference cycles make up for the excess; otherwise a cycle survives among stored paths |
| Gc.GcOutcome | crates/ekapkgs-serve/src/gc.rs:390-567 | conservation and the exact condition for the target, for every listing, reference set and target |
| Gc.RetainedPathsKeepTheirReferences | crates/ekapkgs-serve/src/gc.rs:537-567 | after a run no retained path has lost a reference |
| GcFiles.FilesAreKeptIff | crates/ekapkgs-serve/src/gc.rs:537-567 | no run, whatever it has to free, removes a file of a path it retains if and only if any two stored paths that share a file are both on or below a reference cycle; every path has a size |
| GcFiles.SharersKeepFiles | crates/ekapkgs-serve/src/gc.rs:537-567 | one half of this for a given amount and for paths of any size |
| GcFiles.SharedArchiveIsLost | crates/ekapkgs-serve/src/gc.rs:544-560 | of two unreferenced paths with one archive the older is evicted and takes the archive of the other along |
| CasGc.CasMaybeRunGc | crates/ekapkgs-serve/src/gc.rs:192-246 | evicts the shortest prefix of the paths by ascending last access that frees enough, so that no path is kept that was accessed before an evicted one; reports the exact drop, and ends at or below the target if and only if the chunks that no file lists fit into it |
| CasGc.CollectionMeetsTarget | crates/ekapkgs-serve/src/gc.rs:202-246 | a finished collection is at or below its target if and only if the sizes of the chunks no file listed at its start sum to at most the target |
| CasGc.EvictAllKeepsInv | crates/ekapkgs-serve/src/gc.rs:219-246 | any sequence of evictions keeps the invariant |
| CasGc.ListedOldestFirst | crates/ekapkgs-serve/src/storage/castore.rs:907-921 | the listing has every path once, by ascending last access |
| CasGc.CollectedIsOldest | crates/ekapkgs-serve/src/gc.rs:219-246 | whatever a collection evicts was last accessed no later than anything it keeps |
| CasAccess.LastAccessIsLastRequest | crates/ekapkgs-serve/src/storage/castore.rs:619-645 | after every run the last access of a path is the time of the last request for it, back to the full hour if that was an access |
| CasAccess.EarlierIsOlderIff | crates/ekapkgs-serve/src/storage/castore.rs:619-645 | of two paths the one requested earlier is not the newer one, if and only if it was not put in the clock hour, past its first second, in which the other was accessed |
| CasAccess.LeastRecentlyRequestedGo | crates/ekapkgs-serve/src/gc.rs:192-246 | of an evicted and a kept path, the last request for the evicted one came first, or less than an hour later |
| CasAccess.AccessMakesOlder | crates/ekapkgs-serve/src/storage/castore.rs:619-645 | three requests after which the path accessed last is the older one |
| DownloadPlans.BuildDownloadPlan | crates/ekapkgs-serve/src/api/negotiate.rs:736-814 | the batches are a finished layering: an entry is in a batch as soon as its references are available and not before (`FirstBatchNeedsNothing`, `DependenciesComeFirst`), no batch is empty, and the rest is one last batch |
| DownloadPlans.PlanIsUnique | crates/ekapkgs-serve/src/api/negotiate.rs:736-814 | that description leaves no choice: any two plans for the same entries and `have` are equal, batches, order and priorities included |
| DownloadPlans.RegularIffGrounded | crates/ekapkgs-serve/src/api/negotiate.rs:736-814 | an entry gets a regular batch if and only if all its references lie in every set that contains `have` and each entry with all its references in the set: the plan is the least fixpoint |
| DownloadPlans.FirstBatchNeedsNothing | crates/ekapkgs-serve/src/api/negotiate.rs:736-814 | if some entry has all its references in `have`, the first batch is exactly the entries of that kind |
| PathNames.HashPartExact | crates/ekapkgs-nix/src/store.rs:120-126 | the hash part of any path is the one piece between the last slash and the first dash after it |
| PathNames.StorePathHash | crates/ekapkgs-nix/src/store.rs:120-126 | of a directory, a slash, a hash, a dash and a name it is the hash |
| DownloadPlans.DependenciesComeFirst | crates/ekapkgs-serve/src/api/negotiate.rs:736-814 | every reference is in `have` or an earlier batch, and some reference is in the batch just before |
| DownloadPlans.SelfReferenceIsLeftover | crates/ekapkgs-serve/src/api/negotiate.rs:757-765 | if every entry for a hash references itself and the client lacks the hash, none of them gets a regular batch |
| DownloadPlans.PlanListsEveryEntry | crates/ekapkgs-serve/src/api/negotiate.rs:736-814 | the batches together list the hash of every entry exactly once |
| Closures.ExpandClosureHashes | crates/ekapkgs-serve/src/api/negotiate.rs:678-729 | the result is duplicate-free, within every closed set, and either itself closed or exactly 50,000 hashes of a closure that is larger |
| Streams.ChannelWriter.Write | crates/ekapkgs-serve/src/api/negotiate.rs:1078-1095 | any split of writes is the same bytes; only full blocks are sent |
| Streams.ChannelWriter.FlushFinal | crates/ekapkgs-serve/src/api/negotiate.rs:1069-1074 | afterwards everything is sent; all blocks but the last are full and the last is not empty |
| Streams.SendNarChunks | crates/ekapkgs-serve/src/api/negotiate.rs:1102-1141 | the messages carry the data in full blocks under the given flag, the first with the total size and the last marked; no data gives one empty message |
| Streams.StreamNar | crates/ekapkgs-serve/src/api/negotiate.rs:463-518 | the messages of an archive are its blocks and an empty terminal message, also if writing failed |
| StreamClients.StreamRoundTrip | crates/ekapkgs/src/download.rs:262-313 | the client recovers every hash, payload and flag if and only if no two adjacent payloads for one hash are of different kind and the first is not a delta for the empty hash |
| StreamClients.DeltaAfterArchiveIsMistaken | crates/ekapkgs/src/download.rs:268-276 | an archive followed by a delta for the same hash is received as two archives |
| StreamClients.PayloadsAreRecovered | crates/ekapkgs/src/download.rs:262-313 | hashes and payloads are recovered in every stream |
| StreamClients.BrokenStreamIsPrefix | crates/ekapkgs/src/download.rs:262-313 | a stream that breaks off has delivered a beginning of what the whole stream delivers |
| StreamClients.DistinctRoundTrip | crates/ekapkgs/src/download.rs:262-313 | a stream of distinct non-empty hashes is recovered exactly |
| StreamClients.StreamAndImport | crates/ekapkgs/src/download.rs:262-313 | the loop stages and counts what reassembly and delta application give |
| StreamClients.EveryPathIsStaged | crates/ekapkgs-serve/src/api/negotiate.rs:408-527 | from server items to staged files: every archive and every applicable delta ends up under its own url |
| StreamClients.UnavailableIsNotStaged | crates/ekapkgs/src/download.rs:262-313 | for a path that the server skips nothing is staged |
| StreamClients.StagedExactly | crates/ekapkgs/src/download.rs:262-313 | what the url of each path holds at the end: its archive, its delta applied to the base, the raw delta if it has no base, or nothing |
| StreamClients.DeliveredIffWritten | crates/ekapkgs-serve/src/api/negotiate.rs:463-518 | the client receives what was written if and only if writing did not fail or stopped at a multiple of the block size; otherwise it receives the full blocks, as a finished payload |
| StreamServers.FindItem | crates/ekapkgs-serve/src/api/negotiate.rs:420-496 | what is streamed for a hash follows from store and delta cache: a cached delta; nothing for an unknown path; else an archive that is complete exactly if the key of its url is held |
| StreamServers.ServeNars | crates/ekapkgs-serve/src/api/negotiate.rs:408-527 | every requested hash gets, in order, the messages of what is found for it in its turn, while requests change the store and deltas come in between |
| StreamServers.KeyIsOwnHash | crates/ekapkgs-serve/src/storage/castore.rs:1785-1788 | the key parsed back from a path's url is its hash if and only if the hash has no slash and no dot |
| PathNames.NarPathHashExact | crates/ekapkgs-serve/src/storage/castore.rs:1785-1788 | the key of any url is the one piece between the last slash and the first dot after it |
| StreamServers.StagedIffHeld | crates/ekapkgs-serve/src/api/negotiate.rs:408-527 | without a cached delta the client stages what the store reads back if and only if the path is known and the key of its url holds a tree; a known path whose key holds none is staged as an empty file, whatever else is requested |
| DeltaCaches.InsertKeepsRight | crates/ekapkgs-serve/src/main.rs:216-252 | order and map list the same keys once each, the total is the sum of the sizes and at most 64 MiB, every indexed key is the newest of its target |
| DeltaCaches.DeltaCache.InsertDelta | crates/ekapkgs-serve/src/main.rs:216-252 | the imperative insertion has the specified effect on all four fields |
| DeltaCaches.DeltaCache.GetDelta | crates/ekapkgs-serve/src/main.rs:254-258 | lookup by base and target |
| DeltaCaches.DeltaCache.GetDeltaForTarget | crates/ekapkgs-serve/src/main.rs:261-265 | lookup through the index |
| DeltaCacheRuns.RunIsRight | crates/ekapkgs-serve/src/main.rs:216-252 | the invariant holds after every sequence of insertions |
| DeltaCacheRuns.FoundForTargetIsLatest | crates/ekapkgs-serve/src/main.rs:216-265 | whatever is found for a target is the delta most recently inserted for it |
| DeltaCacheRuns.CachedIsLatest | crates/ekapkgs-serve/src/main.rs:216-258 | a cached delta is the one most recently inserted for its key |
| DeltaCacheRuns.FoundIffNothingEvicted | crates/ekapkgs-serve/src/main.rs:216-265 | a target is found if and only if every entry cached for it at its latest insertion is still cached |
| DeltaCacheFits.CachedIffFits | crates/ekapkgs-serve/src/main.rs:216-252 | a delta is cached if and only if, at every insertion since its own, an unlimited cache fed with the insertions from its own on holds at most 64 MiB |
| DeltaCacheFits.FoundIffOldestFits | crates/ekapkgs-serve/src/main.rs:216-265 | a target is found if and only if each key cached for it at its latest insertion has, with everything inserted since that key, always fitted into 64 MiB |
| DeltaCacheRuns.EvictingOneLosesTheTarget | crates/ekapkgs-serve/src/main.rs:216-265 | a concrete run after which a target is not found although its newest delta is cached |
| Blooms.InsertKeysExact | crates/ekapkgs-nix/src/bloom.rs:74-80 | after inserting keys a bit is set if and only if it was set or some key hits it |
| Blooms.InsertedKeysMatch | crates/ekapkgs-nix/src/bloom.rs:74-96 | no false negatives after any insertions into any filter |
| Blooms.MatchesExact | crates/ekapkgs-nix/src/bloom.rs:86-95 | a filter filled from empty answers yes exactly for keys whose positions are all covered |
| Blooms.PositionExact | crates/ekapkgs-nix/src/bloom.rs:77-114 | the position of every hash function, from the bytes of the key: two little-endian words, the second made odd, in wrapping arithmetic |
| Blooms.BitExact | crates/ekapkgs-nix/src/bloom.rs:78-90 | positions count from the least significant bit of each byte |
| BloomCoverage.HitsExact | crates/ekapkgs-nix/src/bloom.rs:109-115 | while nothing wraps, a position is reached if and only if it is congruent to the first word modulo the greatest common divisor of stride and size |
| BloomCoverage.CoversIffCoprime | crates/ekapkgs-nix/src/bloom.rs:109-115 | while nothing wraps, all positions are reached if and only if there is a hash function for each and stride and size are coprime |
| BloomCoverage.PowerOfTwoIsCovered | crates/ekapkgs-nix/src/bloom.rs:109-115 | with a power of two as size every key reaches every position, wrapping included |
| BloomCoverage.EveryFilterIsCoveredInTheEnd | crates/ekapkgs-nix/src/bloom.rs:109-115 | the wrapping sum takes every 64-bit value, so 2^64 hash functions cover every filter |
| BloomCoverage.OddStrideMissesPositions | crates/ekapkgs-nix/src/bloom.rs:109-115 | with 72 bits and stride 3 some position is never reached by 72 hash functions |
| Blooms.BloomFilter.Insert | crates/ekapkgs-nix/src/bloom.rs:74-80 | the loop over the hash functions sets exactly the key's bits |
| Blooms.BloomFilter.MaybeContains | crates/ekapkgs-nix/src/bloom.rs:86-95 | yes if and only if all the key's bits are set |
| Blooms.SendFilter | crates/ekapkgs-nix/src/bloom.rs:64-103 | a filter rebuilt from its bytes and number of hash functions answers every query like the original |
| BloomGates.GatedCastore.HasChunk | crates/ekapkgs-serve/src/storage/castore.rs:538-551 | the answer is the table's, except for a row whose positions the filter in use does not cover; when every row is noted it is the table's, before and after warm-up |
| BloomGates.GatedCastore.HasNarinfo | crates/ekapkgs-serve/src/storage/castore.rs:1741-1753 | the same for paths |
| BloomGates.GatedCastore.Warmup | crates/ekapkgs-serve/src/storage/castore.rs:304-321 | with any requests between the steps, each filter ends up with the rows at its build and those noted since its swap |
| BloomGates.OnlyMeanwhileIsLost | crates/ekapkgs-serve/src/storage/castore.rs:304-321 | a row that is stored afterwards and not in its filter was noted between building that filter and swapping it in |
| BloomGates.GatedCastore.QuietWarmup | crates/ekapkgs-serve/src/storage/castore.rs:304-321 | if nothing happens between building and swapping a filter, the gates are right afterwards |
| BloomGates.GatedCastore.WarmupAround | crates/ekapkgs-serve/src/storage/castore.rs:304-321 | a chunk upload and a metadata upload into an empty store at these moments: both rows are stored and both filters deny them |
| BloomGates.GatedCastore.PutNar | crates/ekapkgs-serve/src/storage/castore.rs:1831-1884 | putting an archive keeps store and gates right |
| BloomGates.GatedCastore.EvictPath | crates/ekapkgs-serve/src/storage/castore.rs:747-851 | eviction leaves the filters alone and keeps the gates right |
| Thresholds.VerifyThreshold | crates/ekapkgs-protocol/src/signing.rs:145-196 | Ok if and only if the threshold is at most the number of distinct names that count, otherwise the error reports that number; a name counts exactly under the conditions of `SignersAreAuthorised` |
| Thresholds.SignersGrow | crates/ekapkgs-protocol/src/signing.rs:145-196 | appending signatures never lowers the number |
| Thresholds.SignersAreAuthorised | crates/ekapkgs-protocol/src/signing.rs:56-137 | a name counts if and only if the first root of the issuer of its first certificate signed that certificate, it is in date, keys and signatures have their lengths, and its key signed the path in the first signature that names it |
| Thresholds.FirstSignatureDecides | crates/ekapkgs-protocol/src/signing.rs:137-196 | the number equals that of certificates with any valid signature if and only if none of those has an invalid one listed first |
| Thresholds.InvalidFirstHidesValid | crates/ekapkgs-protocol/src/signing.rs:169-172 | an invalid signature hides a later valid one of the same certificate |

## Left out

- SQLite mechanics: WAL, reader pool, corruption recovery, schema migration and backfill; the store starts empty with `path_files` ready.
- Crashes and rolled-back transactions: every operation runs to its end, and deletions in groups of 50 are one loop.
- Concrete hash, encoding, chunker, compressor and signature scheme: parameters of `Merkle.Config` and `Thresholds.Crypto`; the hash is taken as injective.
- Root nodes: their protobuf encoding is the identity here, so undecodable roots, absent digests and digests of wrong length do not occur.
- Rows of `file_chunks` are kept as one list per file, with contiguous indices.
- Castores.Castore.PutNarinfo: does not model the metadata itself, only what it does to the path row; unparsable metadata is a caller error that changes nothing.
- Readers: the two implementations of the chunk reader are values holding all their answers, and the tree a root stands for is a ghost argument that also bounds the recursion.
- Streams.StreamNar: sending never fails; a receiver that goes away has a beginning of the messages (`BrokenStreamIsPrefix`).
- StreamServers.ServeNars: how buffering splits the writes is a parameter, and metadata never fails to load.
- CasPulls.CasPull: the downloads arrive in order and intact, because the server answers them from the same state; archives are staged under their hash, not under the url in the manifest, so two entries with one url do not overwrite each other; the size of the filter and its number of hash functions, chosen in floating point, are parameters.
- BloomGates.GatedCastore.Warmup: the sizes that floating point chooses are parameters; every request is one step.
- Closures.ExpandClosureHashes: a failed metadata lookup is the same as absent metadata, as in the code.
- Gc.GcDb.RunGc: removing a file never fails; the access times of the filesystem cache are a given column, only those of the castore are modelled over runs.
- Integer overflow of `usize` offsets, wall-clock time, metrics, logging and the texts of error messages.
- Client-side eviction to a size, delta computation, HTTP and gRPC plumbing, configuration and the command line.
