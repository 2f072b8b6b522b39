# NbtFile: a verified model of LibNbt's document object

LibNbt stores Named Binary Tag (NBT) documents. A document is one root
`TAG_Compound` tree, written as a byte stream. The stream may be LZ4-compressed
as a whole. `NbtFile` is the object that owns such a document. It loads a root
compound from a path or a stream. It saves the root back to a stream, or to a
path through a temporary file. It also answers path queries against the root.

This project models `NbtFile` in Dafny as written, including its defects, and
proves what it does.

- `LibNbt.NbtFile` is a class whose fields mirror the C# object:
  - `loadedFile`, `compressedFile` and `rootTag`;
  - `fileContents`, a byte array that each save with a root replaces with a new one;
  - the two LZ4 objects, as `Option` constants where `None` stands for null.
- The three loops of the source are `while` loops with invariants:
  - the copy of the encoded tree into `FileContents`;
  - the output loop that writes `FileContents` to the sink;
  - the loop that copies the saved bytes into the temporary file.
- Each loop is proved against a function of `Framing` or `SaveProtocol`.
- The code the object calls but that is not part of this model is passed in
  as function values (`External.Collaborators`). Nothing is assumed about
  those functions:
  - the tag codec `NbtCompound.ReadTag`/`WriteTag`;
  - LZ4;
  - the path resolver `TagQuery`/`NbtCompound.Query<T>`.
  Their round-trip laws appear only as hypotheses of the lemmas that need them.
- The .NET library (`MemoryStream.Read`, `Buffer.BlockCopy`, `Stream.Write`,
  `File.*`) is modelled in `Platform`. The file system is a map from path to
  bytes, with a ghost `history` of every state that a mutating call leaves.
  That history is how the model states what a concurrent reader could observe
  during a save.
- Exceptions become `Results.Outcome`/`Result` values with the error kinds
  `NotFound`, `InvalidData`, `FormatError`, `DecompressionError`,
  `InvalidArgument` and `NullReference`.

The save is meant to replace the destination atomically, going through a
temporary file. The code deletes the destination first and then moves the
temporary file onto it, so it is not atomic. The model follows the code, and
the gap is recorded under Findings. The save is also meant to write the whole
encoded root, but the code writes less:
- **Uncompressed save:** the code can write only encodings of at most 4096 bytes.
- **Sink:** the code writes only payloads shorter than 4096 bytes.

The model follows the code in both cases.

## Model

| member | source | states |
|---|---|---|
| `LibNbt.NbtFile.constructor` | LibNbt/NbtFile.cs:27-37 | records the file name and the compressed flag; both LZ4 objects exist exactly when `compressed` holds, otherwise both are null; no root, no FileContents |
| `LibNbt.NbtFile.Named` | LibNbt/NbtFile.cs:26 | the one-argument constructor means compressed, with both LZ4 objects created |
| `LibNbt.NbtFile.Default` | LibNbt/NbtFile.cs:25 | the parameterless constructor means file name `""` and compressed |
| `LibNbt.NbtFile.LoadFileInternal` | LibNbt/NbtFile.cs:76-93 | reads from offset 0; succeeds exactly when the first byte is TAG_Compound (10) and ReadTag accepts the rest; an empty stream or another first byte fails with InvalidData, a ReadTag failure with FormatError; RootTag is replaced by the decoded root on success and unchanged on failure |
| `LibNbt.NbtFile.LoadStream` | LibNbt/NbtFile.cs:61-75 | when compressed, the whole stream is decompressed first (a decompressor failure is DecompressionError), then LoadFileInternal's outcome and RootTag update apply |
| `LibNbt.NbtFile.LoadFile` | LibNbt/NbtFile.cs:46-60 | a missing path fails with NotFound(path) and leaves LoadedFile, CompressedFile and RootTag unchanged; an existing path sets LoadedFile and CompressedFile before decoding, whatever the decoding outcome |
| `LibNbt.NbtFile.LoadFileCompressed` | LibNbt/NbtFile.cs:45 | LoadFile(path) is LoadFile(path, true) |
| `LibNbt.NbtFile.LoadCurrentFile` | LibNbt/NbtFile.cs:43 | LoadFile() reloads LoadedFile with the CompressedFile setting and keeps both fields |
| `LibNbt.NbtFile.SaveStream` | LibNbt/NbtFile.cs:120-159 | with no root, nothing is written and FileContents is unchanged; otherwise FileContents becomes a fresh array holding the payload (compressed bytes, or the copy of the encoding) and the sink receives exactly the bytes of `SaveOutput`; an uncompressed encoding over 4096 bytes fails with InvalidArgument and writes nothing |
| `LibNbt.NbtFile.SaveStreamCompressed` | LibNbt/NbtFile.cs:119 | SaveFile(Stream) is SaveFile(Stream, true): it always succeeds, since only an uncompressed copy can fail, and the sink contents and FileContents are those of the compressed save |
| `LibNbt.NbtFile.SaveFile` | LibNbt/NbtFile.cs:96-118 | if the stream save fails, the file system is untouched; otherwise the file system passes through exactly the states of `SaveTrace` and ends with the path holding the saved bytes and no `.tmp` file |
| `LibNbt.NbtFile.SaveFileCompressed` | LibNbt/NbtFile.cs:95 | SaveFile(path) is SaveFile(path, true): it always succeeds, leaving the states of `SaveTrace`, the same final file system and the same FileContents as the compressed save |
| `LibNbt.NbtFile.QueryAs` | LibNbt/NbtFile.cs:165-170 | Query<T> fails with NullReference when no root is loaded, and otherwise returns the resolver's answer for the root and the path |
| `LibNbt.NbtFile.Query` | LibNbt/NbtFile.cs:161-164 | Query is Query<NbtTag>: the same null case, otherwise the untyped resolver's answer |
| `LibNbt.CopyEncoded` | LibNbt/NbtFile.cs:138-146 | the copy loop finishes exactly when the encoding fits in one 4096-byte buffer and then copies it verbatim; a longer encoding leaves its first 4096 bytes followed by zeros, and the second Read fails with InvalidArgument |
| `LibNbt.WriteContents` | LibNbt/NbtFile.cs:150-157 | the output loop always terminates after ceil(len/4096) passes and writes exactly `Emitted(FileContents, 0)` to the sink |
| `LibNbt.RemoveStaleTemp` | LibNbt/NbtFile.cs:104-105 | a stale `name.tmp` is deleted if present; the only state left behind is the one without it |
| `LibNbt.WriteTempFile` | LibNbt/NbtFile.cs:106-114 | the temporary file is created empty and then receives all saved bytes, one state per 4096-byte chunk |
| `LibNbt.MoveOnto` | LibNbt/NbtFile.cs:115-116 | an existing destination is deleted and then the temporary file is moved onto it, leaving the states of `Replacement` |
| `LibNbt.ReplaceFile` | LibNbt/NbtFile.cs:104-116 | the whole temp-then-rename protocol leaves exactly the states of `SaveTrace` and ends with the destination holding the saved bytes and no temporary file |
| `LibNbt.SaveAndReload` | LibNbt/NbtFile.cs:46-157 | saving to a path and loading it back restores the root, given codec and LZ4 round-trips and a payload shorter than 4096 bytes |
| `LibNbt.SaveWithoutRoot` | LibNbt/NbtFile.cs:98-122 | with a null RootTag, SaveFile(path, compressed) succeeds and leaves an empty destination file, whether or not the LZ4 objects were created, because the compressor is only reached inside the RootTag check |
| `Framing.ChunkCount` | LibNbt/NbtFile.cs:150-157 | the number of 4096-byte steps needed to cover n bytes, which is ceil(n/4096) |
| `Framing.CopiedContents` | LibNbt/NbtFile.cs:138-146 | what the copy leaves in FileContents: the encoding's length, its first min(len, 4096) bytes, and zeros after byte 4096 |
| `Framing.EmittedAllOrNothing` | LibNbt/NbtFile.cs:150-157 | the output loop writes the whole buffer (from offset 0) when it is shorter than 4096 bytes, and nothing otherwise |
| `Framing.EmittedIsComplete` | LibNbt/NbtFile.cs:150-157 | the sink receives all of FileContents exactly when its length is below 4096 |
| `Framing.LongPayloadIsDropped` | LibNbt/NbtFile.cs:153-155 | a FileContents of 4096 bytes or more produces no output at all |
| `Framing.SaveOutputIsPayloadOrNothing` | LibNbt/NbtFile.cs:120-157 | the stream save fails only for an uncompressed encoding over 4096 bytes; with no root it writes nothing; otherwise it writes the payload when shorter than 4096 bytes and nothing otherwise |
| `Framing.SaveThenLoad` | LibNbt/NbtFile.cs:61-157 | bytes saved from a root load back as that root, given codec and LZ4 round-trips and a payload shorter than 4096 bytes |
| `Framing.UncompressedRoundTripIff` | LibNbt/NbtFile.cs:138-157 | without compression, the save/load round trip holds exactly for encodings shorter than 4096 bytes; at exactly 4096 the saved file is empty and loading it fails with InvalidData |
| `SaveProtocol.TempName` | LibNbt/NbtFile.cs:104 | the temporary name `name + ".tmp"` always differs from the destination |
| `SaveProtocol.ChunkStatesArePrefixes` | LibNbt/NbtFile.cs:110-113 | after every chunk write the temporary file holds a non-empty prefix of the saved bytes, and no other path differs from the state before the writes |
| `SaveProtocol.ChunkStatesGrow` | LibNbt/NbtFile.cs:110-113 | each later chunk write leaves a strictly longer prefix, longer by at most 4096 bytes per write in between |
| `SaveProtocol.ChunkStatesEnds` | LibNbt/NbtFile.cs:110-113 | there is a chunk write exactly when there are bytes to save; the first write holds at most 4096 bytes and the last leaves the temporary file holding all of them |
| `SaveProtocol.SaveTraceEnds` | LibNbt/NbtFile.cs:104-116 | after the save, the path holds the saved bytes, `path.tmp` is absent and every other path is unchanged |
| `SaveProtocol.SaveTraceFrame` | LibNbt/NbtFile.cs:104-116 | no intermediate state touches any path other than the destination and its temporary file |
| `SaveProtocol.SaveTraceStartsClean` | LibNbt/NbtFile.cs:104-106 | a stale temporary file is removed first, and the temporary file is created empty before anything is written to it |
| `SaveProtocol.SaveTraceKeepsDestinationUntilDelete` | LibNbt/NbtFile.cs:104-115 | until the destination is deleted, every state holds the old destination unchanged (or still lacks it), so a save interrupted there loses nothing |
| `SaveProtocol.SaveTraceExposesMissingDestination` | LibNbt/NbtFile.cs:115-116 | when the destination existed, the state between the delete and the move has the temporary file but no destination |
| `Corrections.CorrectedEmittedIsComplete` | LibNbt/NbtFile.cs:150-157 | with chunks of min(4096, len - outPos) bytes, the output loop writes every byte, in order |
| `Corrections.FullBufferIsDropped` | LibNbt/NbtFile.cs:153-155 | on 4096 zero bytes the loop as written outputs nothing, and the corrected loop outputs all of them |
| `Corrections.WriteAllContents` | LibNbt/NbtFile.cs:150-157 | the corrected output loop appends all of FileContents to the sink |
| `Corrections.LongEncodingFailsToCopy` | LibNbt/NbtFile.cs:141-142 | an encoding of 4097 bytes makes the copy loop as written fail with InvalidArgument |
| `Corrections.CopyEncodedFixed` | LibNbt/NbtFile.cs:140-146 | the copy loop reading each chunk into offset 0 of the buffer copies an encoding of any length verbatim |
| `Corrections.AtomicSaveTraceKeepsDestination` | LibNbt/NbtFile.cs:115-116 | with an overwriting move, every state holds the destination, either with its old bytes or with the new ones, and the last state holds the new bytes |
| `Corrections.ReplaceFileAtomically` | LibNbt/NbtFile.cs:104-116 | the protocol with `File.Move(tmp, path, true)` leaves exactly the states of `AtomicSaveTrace` and the same final file system |

## Left out

- `NbtCompound.ReadTag`/`WriteTag`, `NbtTagType`, `TagQuery` and `NbtCompound.Query<T>` are not part of this model. They are function values in `External.Collaborators`. Their round-trip law (`CodecRoundTrips`) is a hypothesis of the lemmas that use it.
- LZ4 compression is a foreign library. `compress` and `decompress` are function values, and `CompressionRoundTrips` is a hypothesis, not a proved fact.
- `Dispose` is a no-op and has no counterpart.
- `LibNbt.NbtFile.LoadStream` and `LoadCurrentFile` require `CodecsCreated()` on their compressed path. `LoadFile` and `LoadFileCompressed` require it on their compressed path only when the file exists, since a missing file fails with NotFound before the decompressor is reached. `SaveStream`, `SaveStreamCompressed`, `SaveFile` and `SaveFileCompressed` require it on their compressed path only when a root is loaded, since a save with no root never reaches the compressor. The source calls the LZ4 objects without a null check, so on an instance constructed with `compressed == false` the excluded calls would throw a NullReferenceException. The model does not state that exception.
- Streams are byte sequences. `LoadStream` sees the whole content of the stream. The source's compressed branch reads from the stream's current position, and partial reads are not modelled.
- The sink of `SaveStream` appends. Positioned writes into the middle of an existing stream are not modelled.
- `File.OpenWrite` is modelled only on a path that does not exist, which is the only way the save uses it. Each write to the temporary file reaches the file system at once: FileStream buffering is not modelled.
- I/O failures are not modelled: a full disk, missing permissions, or exceptions from `File.Delete`/`File.Move` on a locked file.
- The 32-bit `int` arithmetic of `pos` and `outPos` is unbounded in the model. `outPos += BufferSize` could overflow only for a FileContents within 4096 bytes of `int.MaxValue` in length.
- Query<T> narrowing to a tag type happens inside `NbtCompound.Query<T>`. It is represented by the resolver argument of `QueryAs`.
- `LibNbt.NbtFile.QueryAs`: the source parses the path with `new TagQuery(query)` before it dereferences RootTag, while the model uses one resolver for parsing and resolving. A parse failure that would come before the null dereference is therefore not distinguished; TagQuery is not part of this model, so whether its constructor can fail is not stated.
- Concurrency and interruption of saves are out of scope: the source is single-threaded. The ghost `history` of file-system states stands in for what an interrupted save or a concurrent reader could observe.

## Findings

| source | as written | input that shows it | evidently intended | confidence | as-written member | corrected member |
|---|---|---|---|---|---|---|
| LibNbt/NbtFile.cs:153-155 | `outAmt` is FileContents.Length when that is below 4096 and 0 otherwise, so a payload of 4096 bytes or more is never written | a FileContents of 4096 bytes: every pass writes 0 bytes and the saved file is empty | write min(4096, length - outPos) bytes per pass | high (proved, not executed) | `Framing.LongPayloadIsDropped` | `Corrections.CorrectedEmittedIsComplete` |
| LibNbt/NbtFile.cs:141-144 | each Read asks for 4096 bytes at offset `pos` of the 4096-byte buffer, and BlockCopy then copies from offset 0 | an uncompressed encoding of 4097 bytes: the second Read(buffer, 4096, 4096) throws ArgumentException | read each chunk into offset 0 of the buffer | high (proved, not executed) | `Corrections.LongEncodingFailsToCopy` | `Corrections.CopyEncodedFixed` |
| LibNbt/NbtFile.cs:115-116 | the destination is deleted and then the temporary file is moved onto it, so there is a state with no destination | saving over any existing file: the state after File.Delete has no file at that path | replace the destination in one step (an overwriting move) | high (proved, not executed) | `SaveProtocol.SaveTraceExposesMissingDestination` | `Corrections.AtomicSaveTraceKeepsDestination` |
