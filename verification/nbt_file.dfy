/** LibNbt/NbtFile.cs: the document object that frames the tag codec, loads a
    root compound from a (possibly compressed) file and saves it back through a
    temporary file. */
module LibNbt {
  import opened Results
  import opened Platform
  import opened External
  import opened Framing
  import opened SaveProtocol

  /** The uncompressed branch of SaveFile(Stream): reads the encoded tree back
      from `memStream` into `buffer` and block-copies each chunk into
      `contents`, asking every Read for a full buffer at offset `pos`. */
  method CopyEncoded(memStream: MemoryStream, buffer: array<byte>, contents: array<byte>) returns (r: Outcome)
    requires memStream.Valid() && memStream.position == 0
    requires buffer.Length == BUFFER_SIZE && buffer != contents
    requires contents[..] == Zeros(|memStream.data|)
    modifies memStream, buffer, contents
    ensures r == CopyOutcome(memStream.data)
    ensures contents[..] == CopiedContents(memStream.data)
  {
    var data := memStream.data;
    var pos := 0;
    while pos < contents.Length
      invariant memStream.Valid() && memStream.position == pos
      invariant pos == 0 || pos == Min(|data|, BUFFER_SIZE)
      invariant contents[..] == data[..pos] + Zeros(|data| - pos)
      decreases contents.Length - pos
    {
      var read := memStream.Read(buffer, pos, buffer.Length);
      if read.Err? {
        return Fail(read.error);
      }
      var amtSaved := read.value;
      if amtSaved == 0 {
        break;
      }
      ghost var before := contents[..];
      BlockCopy(buffer, 0, contents, pos, amtSaved);
      CopyStep(data, pos, amtSaved, before, contents[..]);
      pos := pos + amtSaved;
    }
    assert contents[..] == data[..pos] + Zeros(|data| - pos);
    r := Pass;
  }

  /** One pass of the copy loop: placing the next `amt` bytes of `data` at `pos`
      extends the copied prefix by `amt`. */
  lemma CopyStep(data: seq<byte>, pos: nat, amt: nat, before: seq<byte>, after: seq<byte>)
    requires pos + amt <= |data|
    requires before == data[..pos] + Zeros(|data| - pos)
    requires |after| == |before| && after[pos..pos + amt] == data[pos..pos + amt]
    requires forall i :: 0 <= i < |after| && !(pos <= i < pos + amt) ==> after[i] == before[i]
    ensures after == data[..pos + amt] + Zeros(|data| - pos - amt)
  {
    forall i | 0 <= i < |after|
      ensures after[i] == (data[..pos + amt] + Zeros(|data| - pos - amt))[i]
    {
      if pos <= i < pos + amt {
        assert after[i] == after[pos..pos + amt][i - pos];
      }
    }
  }

  /** The output loop of SaveFile(Stream): one Write per BUFFER_SIZE step of
      outPos, each of OutAmount bytes. Returns, as a ghost, how many passes it made. */
  method WriteContents(contents: array<byte>, sink: OutputStream) returns (ghost passes: nat)
    modifies sink
    ensures sink.written == old(sink.written) + Emitted(contents[..], 0)
    ensures passes == ChunkCount(contents.Length)
  {
    var outPos := 0;
    passes := 0;
    while outPos < contents.Length
      invariant outPos == passes * BUFFER_SIZE
      invariant passes == 0 || (passes - 1) * BUFFER_SIZE < contents.Length
      invariant old(sink.written) + Emitted(contents[..], 0) == sink.written + Emitted(contents[..], outPos)
    {
      var outAmt := 0;
      if BUFFER_SIZE > contents.Length {
        outAmt := contents.Length;
      }
      sink.Write(contents, outPos, outAmt);
      outPos := outPos + BUFFER_SIZE;
      passes := passes + 1;
    }
  }

  /** NbtFile.cs:106-114, in SaveFile(string, bool): File.OpenWrite creates the
      temporary file, then each 4096-byte Read of the saved bytes is appended
      to it until Read returns 0. */
  method WriteTempFile(out: seq<byte>, fs: FileSystem, saveFileName: string)
    requires saveFileName !in fs.files
    modifies fs
    ensures fs.files == old(fs.files)[saveFileName := out]
    ensures fs.history == old(fs.history) + TempWrite(old(fs.files), saveFileName, out)
  {
    ghost var base := fs.files;
    var saveStream := new MemoryStream(out);
    fs.Create(saveFileName);
    ghost var created := fs.history;
    var buffer := new byte[BUFFER_SIZE];
    ghost var chunks := 0;
    while true
      invariant saveStream.Valid() && saveStream.data == out
      invariant saveStream.position == Min(chunks * BUFFER_SIZE, |out|)
      invariant chunks <= ChunkCount(|out|)
      invariant fs.files == base[saveFileName := out[..saveStream.position]]
      invariant fs.history == created + ChunkStates(base, saveFileName, out, chunks)
      decreases |out| - saveStream.position
    {
      ghost var pos := saveStream.position;
      var read := saveStream.Read(buffer, 0, buffer.Length);
      var bytesRead := read.value;
      if bytesRead == 0 {
        break;
      }
      ChunkReadStep(chunks, |out|);
      ChunkStatesStep(base, saveFileName, out, chunks);
      AppendSlice(base, saveFileName, out, pos, saveStream.position);
      fs.Append(saveFileName, buffer, 0, bytesRead);
      chunks := chunks + 1;
    }
    ChunkReadDone(chunks, |out|);
    assert out[..|out|] == out;
  }

  /** NbtFile.cs:105, in SaveFile(string, bool): delete a stale temporary file. */
  method RemoveStaleTemp(fs: FileSystem, saveFileName: string)
    modifies fs
    ensures fs.files == old(fs.files) - {saveFileName}
    ensures fs.history == old(fs.history) + StaleRemoval(old(fs.files), saveFileName)
  {
    if fs.Exists(saveFileName) {
      fs.Delete(saveFileName);
    } else {
      assert fs.files == fs.files - {saveFileName};
    }
  }

  /** NbtFile.cs:115-116, in SaveFile(string, bool): delete the destination if it
      exists, then move the temporary file onto it. */
  method MoveOnto(fs: FileSystem, saveFileName: string, fileName: string)
    requires saveFileName in fs.files && saveFileName != fileName
    modifies fs
    ensures fs.history == old(fs.history) + Replacement(old(fs.files), saveFileName, fileName)
    ensures fs.files == ((old(fs.files) - {fileName}) - {saveFileName})[fileName := old(fs.files)[saveFileName]]
  {
    if fs.Exists(fileName) {
      fs.Delete(fileName);
    } else {
      assert fs.files == fs.files - {fileName};
    }
    fs.Move(saveFileName, fileName);
  }

  /** NbtFile.cs:104-116, in SaveFile(string, bool): remove a stale temporary file,
      write the saved bytes to it, delete the destination, move the temporary
      file onto it. */
  method ReplaceFile(out: seq<byte>, fs: FileSystem, fileName: string)
    modifies fs
    ensures fs.history == old(fs.history) + SaveTrace(old(fs.files), fileName, out)
    ensures fs.files == (old(fs.files) - {TempName(fileName)})[fileName := out]
  {
    var saveFileName := TempName(fileName);
    ghost var before, h0 := fs.files, fs.history;
    RemoveStaleTemp(fs, saveFileName);
    ghost var cleared, h1 := fs.files, fs.history;
    WriteTempFile(out, fs, saveFileName);
    ghost var h2 := fs.history;
    MoveOnto(fs, saveFileName, fileName);
    MoveResult(cleared, saveFileName, fileName, out);
    SaveTraceComposes(before, fileName, out, h0, h1, h2, fs.history);
  }

  class NbtFile<Tag> {
    /** The codec, LZ4 and query code the document calls. */
    const env: Collaborators<Tag>
    /** The LZ4 decompressor and compressor objects; None stands for null. */
    const decompressor: Option<seq<byte> -> Option<seq<byte>>>
    const compressor: Option<seq<byte> -> seq<byte>>

    var fileContents: array?<byte>
    var loadedFile: string
    var compressedFile: bool
    var rootTag: Option<Tag>

    /** Both LZ4 objects exist; only then may a compressed load or save run. */
    ghost predicate CodecsCreated() {
      decompressor == Some(env.decompress) && compressor == Some(env.compress)
    }

    /** NbtFile(string fileName, bool compressed) */
    constructor (env: Collaborators<Tag>, fileName: string, compressed: bool)
      ensures this.env == env && loadedFile == fileName && compressedFile == compressed
      ensures CodecsCreated() <==> compressed
      ensures !compressed ==> decompressor.None? && compressor.None?
      ensures rootTag == None && fileContents == null
    {
      this.env := env;
      loadedFile := fileName;
      compressedFile := compressed;
      if compressed {
        decompressor := Some(env.decompress);
        compressor := Some(env.compress);
      } else {
        decompressor := None;
        compressor := None;
      }
      rootTag := None;
      fileContents := null;
    }

    /** NbtFile(string fileName): compressed by default. */
    constructor Named(env: Collaborators<Tag>, fileName: string)
      ensures this.env == env && loadedFile == fileName && compressedFile && CodecsCreated()
      ensures rootTag == None && fileContents == null
    {
      this.env := env;
      loadedFile := fileName;
      compressedFile := true;
      decompressor := Some(env.decompress);
      compressor := Some(env.compress);
      rootTag := None;
      fileContents := null;
    }

    /** NbtFile(): no file name, compressed. */
    constructor Default(env: Collaborators<Tag>)
      ensures this.env == env && loadedFile == "" && compressedFile && CodecsCreated()
      ensures rootTag == None && fileContents == null
    {
      this.env := env;
      loadedFile := "";
      compressedFile := true;
      decompressor := Some(env.decompress);
      compressor := Some(env.compress);
      rootTag := None;
      fileContents := null;
    }

    /** LoadFileInternal(Stream): checks the first byte, then lets ReadTag decode the rest. */
    method LoadFileInternal(stream: seq<byte>) returns (r: Outcome)
      modifies this`rootTag
      ensures r.Pass? <==> |stream| > 0 && stream[0] == TAG_COMPOUND && env.readTag(stream[1..]).Some?
      ensures (|stream| == 0 || stream[0] != TAG_COMPOUND) ==> r == Fail(InvalidData)
      ensures r.Fail? && |stream| > 0 && stream[0] == TAG_COMPOUND ==> r == Fail(FormatError)
      ensures r.Pass? ==> rootTag == env.readTag(stream[1..])
      ensures r.Fail? ==> rootTag == old(rootTag)
      ensures r == StatusOf(ParseRoot(env, stream))
    {
      var firstByte: int := if |stream| > 0 then stream[0] as int else -1;
      if firstByte == TAG_COMPOUND as int {
        var rootCompound := env.readTag(stream[1..]);
        if rootCompound.None? {
          return Fail(FormatError);
        }
        rootTag := rootCompound;
        r := Pass;
      } else {
        r := Fail(InvalidData);
      }
    }

    /** LoadFile(Stream, bool): decompresses the whole stream first when compressed. */
    method LoadStream(stream: seq<byte>, compressed: bool) returns (r: Outcome)
      requires compressed ==> CodecsCreated()
      modifies this`rootTag
      ensures r == StatusOf(LoadOutcome(env, stream, compressed))
      ensures rootTag == if r.Pass? then Some(LoadOutcome(env, stream, compressed).value) else old(rootTag)
    {
      if compressed {
        var data := decompressor.value(stream);
        if data.None? {
          return Fail(DecompressionError);
        }
        r := LoadFileInternal(data.value);
      } else {
        r := LoadFileInternal(stream);
      }
    }

    /** LoadFile(string, bool): a missing file fails before any field changes;
        otherwise LoadedFile and CompressedFile are updated before decoding. */
    method LoadFile(fs: FileSystem, fileName: string, compressed: bool) returns (r: Outcome)
      requires compressed && fileName in fs.files ==> CodecsCreated()
      modifies this`loadedFile, this`compressedFile, this`rootTag
      ensures fileName !in fs.files ==>
                r == Fail(NotFound(fileName)) && loadedFile == old(loadedFile) &&
                compressedFile == old(compressedFile) && rootTag == old(rootTag)
      ensures fileName in fs.files ==>
                loadedFile == fileName && compressedFile == compressed &&
                r == StatusOf(LoadOutcome(env, fs.files[fileName], compressed)) &&
                rootTag == if r.Pass? then Some(LoadOutcome(env, fs.files[fileName], compressed).value) else old(rootTag)
    {
      if !fs.Exists(fileName) {
        return Fail(NotFound(fileName));
      }
      loadedFile := fileName;
      compressedFile := compressed;
      r := LoadStream(fs.files[fileName], compressedFile);
    }

    /** LoadFile(string): always compressed. */
    method LoadFileCompressed(fs: FileSystem, fileName: string) returns (r: Outcome)
      requires fileName in fs.files ==> CodecsCreated()
      modifies this`loadedFile, this`compressedFile, this`rootTag
      ensures fileName !in fs.files ==>
                r == Fail(NotFound(fileName)) && loadedFile == old(loadedFile) &&
                compressedFile == old(compressedFile) && rootTag == old(rootTag)
      ensures fileName in fs.files ==>
                loadedFile == fileName && compressedFile &&
                r == StatusOf(LoadOutcome(env, fs.files[fileName], true)) &&
                rootTag == if r.Pass? then Some(LoadOutcome(env, fs.files[fileName], true).value) else old(rootTag)
    {
      r := LoadFile(fs, fileName, true);
    }

    /** LoadFile(): reloads LoadedFile with the CompressedFile setting. */
    method LoadCurrentFile(fs: FileSystem) returns (r: Outcome)
      requires compressedFile ==> CodecsCreated()
      modifies this`loadedFile, this`compressedFile, this`rootTag
      ensures loadedFile == old(loadedFile) && compressedFile == old(compressedFile)
      ensures old(loadedFile) !in fs.files ==> r == Fail(NotFound(old(loadedFile))) && rootTag == old(rootTag)
      ensures old(loadedFile) in fs.files ==>
                r == StatusOf(LoadOutcome(env, fs.files[old(loadedFile)], old(compressedFile))) &&
                rootTag == if r.Pass? then Some(LoadOutcome(env, fs.files[old(loadedFile)], old(compressedFile)).value)
                           else old(rootTag)
    {
      r := LoadFile(fs, loadedFile, compressedFile);
    }

    /** SaveFile(Stream, bool): with no root nothing happens; otherwise the root is
        encoded, FileContents is rebuilt (compressed, or copied through a
        4096-byte buffer) and written to the sink by the output loop. */
    method SaveStream(sink: OutputStream, compressed: bool) returns (r: Outcome)
      requires compressed && rootTag.Some? ==> CodecsCreated()
      modifies this`fileContents, sink
      ensures r == StatusOf(SaveOutput(env, rootTag, compressed))
      ensures r.Pass? ==> sink.written == old(sink.written) + SaveOutput(env, rootTag, compressed).value
      ensures r.Fail? ==> sink.written == old(sink.written)
      ensures rootTag.None? ==> fileContents == old(fileContents)
      ensures rootTag.Some? ==>
                fileContents != null && fresh(fileContents) &&
                fileContents[..] == Payload(env, rootTag.value, compressed)
    {
      r := Pass;
      if rootTag.Some? {
        var encoded := env.writeTag(rootTag.value);
        var buffer := new byte[BUFFER_SIZE];
        if compressed {
          var data := compressor.value(encoded);
          fileContents := new byte[|data|](i requires 0 <= i < |data| => data[i]);
          assert fileContents[..] == data;
        } else {
          var contents := new byte[|encoded|](_ => 0);
          fileContents := contents;
          var memStream := new MemoryStream(encoded);
          r := CopyEncoded(memStream, buffer, contents);
          if r.Fail? {
            return;
          }
        }
        assert fileContents[..] == Payload(env, rootTag.value, compressed);
        ghost var passes := WriteContents(fileContents, sink);
      }
    }

    /** SaveFile(Stream): always compressed. */
    method SaveStreamCompressed(sink: OutputStream) returns (r: Outcome)
      requires rootTag.Some? ==> CodecsCreated()
      modifies this`fileContents, sink
      ensures r == StatusOf(SaveOutput(env, rootTag, true))
      ensures r.Pass? ==> sink.written == old(sink.written) + SaveOutput(env, rootTag, true).value
      ensures r.Pass?
      ensures rootTag.None? ==> fileContents == old(fileContents)
      ensures rootTag.Some? ==>
                fileContents != null && fresh(fileContents) && fileContents[..] == Payload(env, rootTag.value, true)
    {
      r := SaveStream(sink, true);
    }

    /** SaveFile(string, bool): saves into a MemoryStream, then replaces the file
        through `fileName + ".tmp"`, passing through exactly the states of SaveTrace. */
    method SaveFile(fs: FileSystem, fileName: string, compressed: bool) returns (r: Outcome)
      requires compressed && rootTag.Some? ==> CodecsCreated()
      modifies this`fileContents, fs
      ensures r == StatusOf(SaveOutput(env, rootTag, compressed))
      ensures r.Fail? ==> fs.files == old(fs.files) && fs.history == old(fs.history)
      ensures r.Pass? ==>
                fs.history == old(fs.history) + SaveTrace(old(fs.files), fileName, SaveOutput(env, rootTag, compressed).value)
      ensures r.Pass? ==>
                fs.files == (old(fs.files) - {TempName(fileName)})[fileName := SaveOutput(env, rootTag, compressed).value]
      ensures rootTag.None? ==> fileContents == old(fileContents)
      ensures rootTag.Some? ==>
                fileContents != null && fresh(fileContents) &&
                fileContents[..] == Payload(env, rootTag.value, compressed)
    {
      var saveStream := new OutputStream();
      r := SaveStream(saveStream, compressed);
      assert rootTag.None? ==> fileContents == old(fileContents);
      if r.Fail? {
        return;
      }
      assert fs.files == old(fs.files) && fs.history == old(fs.history);
      assert saveStream.written == SaveOutput(env, rootTag, compressed).value;
      ReplaceFile(saveStream.written, fs, fileName);
    }

    /** SaveFile(string): always compressed. */
    method SaveFileCompressed(fs: FileSystem, fileName: string) returns (r: Outcome)
      requires rootTag.Some? ==> CodecsCreated()
      modifies this`fileContents, fs
      ensures r == StatusOf(SaveOutput(env, rootTag, true))
      ensures r.Pass?
      ensures r.Pass? ==>
                fs.history == old(fs.history) + SaveTrace(old(fs.files), fileName, SaveOutput(env, rootTag, true).value)
      ensures r.Pass? ==>
                fs.files == (old(fs.files) - {TempName(fileName)})[fileName := SaveOutput(env, rootTag, true).value]
      ensures rootTag.None? ==> fileContents == old(fileContents)
      ensures rootTag.Some? ==>
                fileContents != null && fresh(fileContents) && fileContents[..] == Payload(env, rootTag.value, true)
    {
      r := SaveFile(fs, fileName, true);
    }

    /** Query<T>(string): resolves the path against the root with the resolver
        for T; RootTag is dereferenced without a null check. */
    function QueryAs(resolve: (Tag, string) -> Result<Tag>, path: string): (r: Result<Tag>)
      reads this
      ensures rootTag.None? ==> r == Err(NullReference)
      ensures rootTag.Some? ==> r == resolve(rootTag.value, path)
    {
      match rootTag
      case None => Err(NullReference)
      case Some(root) => resolve(root, path)
    }

    /** Query(string): Query<NbtTag>, the resolver that accepts any tag. */
    function Query(path: string): (r: Result<Tag>)
      reads this
      ensures rootTag.None? ==> r == Err(NullReference)
      ensures rootTag.Some? ==> r == env.query(rootTag.value, path)
    {
      QueryAs(env.query, path)
    }
  }

  /** A client of NbtFile: saving the root to a file and loading that file back
      restores the root, provided the codec (and, when compressing, LZ4)
      round-trips and the payload is shorter than BUFFER_SIZE. */
  method SaveAndReload<Tag>(doc: NbtFile<Tag>, fs: FileSystem, fileName: string, compressed: bool) returns (r: Outcome)
    requires doc.rootTag.Some? && (compressed ==> doc.CodecsCreated())
    requires CodecRoundTrips(doc.env, doc.rootTag.value)
    requires compressed ==> CompressionRoundTrips(doc.env, doc.env.writeTag(doc.rootTag.value))
    requires |Payload(doc.env, doc.rootTag.value, compressed)| < BUFFER_SIZE
    modifies doc, fs
    ensures r == Pass && doc.rootTag == old(doc.rootTag)
    ensures doc.loadedFile == fileName && doc.compressedFile == compressed
    ensures fs.files == (old(fs.files) - {TempName(fileName)})[fileName := Payload(doc.env, doc.rootTag.value, compressed)]
  {
    SaveThenLoad(doc.env, doc.rootTag.value, compressed);
    var saved := doc.SaveFile(fs, fileName, compressed);
    r := doc.LoadFile(fs, fileName, compressed);
  }

  /** A client of NbtFile: with no root loaded, SaveFile succeeds and leaves an
      empty destination file. */
  method SaveWithoutRoot<Tag>(doc: NbtFile<Tag>, fs: FileSystem, fileName: string, compressed: bool) returns (r: Outcome)
    requires doc.rootTag.None?
    modifies doc, fs
    ensures r == Pass && doc.fileContents == old(doc.fileContents)
    ensures fs.files == (old(fs.files) - {TempName(fileName)})[fileName := []]
  {
    r := doc.SaveFile(fs, fileName, compressed);
  }
}
