/** Corrected versions of the three places where NbtFile.cs does not do what it
    evidently means to, each with the intended property proved. The model of
    NbtFile itself (module LibNbt) keeps the code as written. */
module Corrections {
  import opened Results
  import opened Platform
  import opened Framing
  import opened SaveProtocol
  import LibNbt

  // ------------------------------------------- output loop (NbtFile.cs:150-157)

  /** The output loop as intended: each pass writes the next
      min(BUFFER_SIZE, length - outPos) bytes at outPos. */
  function CorrectedEmitted(contents: seq<byte>, outPos: nat): (written: seq<byte>)
    requires outPos <= |contents|
    decreases |contents| - outPos
  {
    if outPos == |contents| then []
    else
      var outAmt := Min(BUFFER_SIZE, |contents| - outPos);
      contents[outPos..outPos + outAmt] + CorrectedEmitted(contents, outPos + outAmt)
  }

  /** The corrected loop writes every byte from outPos on, in order. */
  lemma {:induction false} CorrectedEmittedIsComplete(contents: seq<byte>, outPos: nat)
    requires outPos <= |contents|
    ensures CorrectedEmitted(contents, outPos) == contents[outPos..]
    decreases |contents| - outPos
  {
    if outPos < |contents| {
      var outAmt := Min(BUFFER_SIZE, |contents| - outPos);
      CorrectedEmittedIsComplete(contents, outPos + outAmt);
      assert contents[outPos..outPos + outAmt] + contents[outPos + outAmt..] == contents[outPos..];
    }
  }

  /** The written loop drops a FileContents of exactly BUFFER_SIZE zero bytes,
      which the corrected loop writes in full. */
  lemma FullBufferIsDropped()
    ensures Emitted(Zeros(BUFFER_SIZE), 0) == []
    ensures CorrectedEmitted(Zeros(BUFFER_SIZE), 0) == Zeros(BUFFER_SIZE)
  {
    LongPayloadIsDropped(Zeros(BUFFER_SIZE));
    CorrectedEmittedIsComplete(Zeros(BUFFER_SIZE), 0);
  }

  /** The output loop with the corrected chunk size: the sink receives all of `contents`. */
  method WriteAllContents(contents: array<byte>, sink: OutputStream)
    modifies sink
    ensures sink.written == old(sink.written) + contents[..]
  {
    var outPos := 0;
    while outPos < contents.Length
      invariant outPos <= contents.Length
      invariant sink.written == old(sink.written) + contents[..outPos]
    {
      var outAmt := Min(BUFFER_SIZE, contents.Length - outPos);
      sink.Write(contents, outPos, outAmt);
      assert contents[..outPos] + contents[outPos..outPos + outAmt] == contents[..outPos + outAmt];
      outPos := outPos + outAmt;
    }
    assert contents[..contents.Length] == contents[..];
  }

  // --------------------------------------------- copy loop (NbtFile.cs:140-146)

  /** An encoding one byte longer than the buffer makes the written copy loop throw. */
  lemma LongEncodingFailsToCopy()
    ensures CopyOutcome(Zeros(BUFFER_SIZE + 1)) == Fail(InvalidArgument)
  {
  }

  /** The copy loop as intended: every Read fills the buffer from offset 0, and
      the chunk is block-copied to position `pos` of FileContents. */
  method CopyEncodedFixed(memStream: MemoryStream, buffer: array<byte>, contents: array<byte>)
    requires memStream.Valid() && memStream.position == 0
    requires buffer.Length == BUFFER_SIZE && buffer != contents
    requires contents.Length == |memStream.data|
    modifies memStream, buffer, contents
    ensures contents[..] == memStream.data
  {
    var data := memStream.data;
    var pos := 0;
    while pos < contents.Length
      invariant memStream.Valid() && memStream.position == pos
      invariant contents[..pos] == data[..pos]
      decreases contents.Length - pos
    {
      var read := memStream.Read(buffer, 0, buffer.Length);
      var amtSaved := read.value;
      if amtSaved == 0 {
        break;
      }
      BlockCopy(buffer, 0, contents, pos, amtSaved);
      assert contents[..pos + amtSaved] == contents[..pos] + contents[pos..pos + amtSaved];
      pos := pos + amtSaved;
    }
    assert contents[..contents.Length] == contents[..];
  }

  // ----------------------------------------------- replace (NbtFile.cs:115-116)

  /** The save protocol with an overwriting move: the destination is replaced in one step. */
  function AtomicSaveTrace(before: FileMap, fileName: string, out: seq<byte>): (trace: seq<FileMap>)
  {
    var tmp := TempName(fileName);
    var cleared := before - {tmp};
    StaleRemoval(before, tmp) + TempWrite(cleared, tmp, out) + [cleared[fileName := out]]
  }

  /** With an overwriting move, every state holds the destination: before the
      move as it was, after it with the new bytes. */
  lemma AtomicSaveTraceKeepsDestination(before: FileMap, fileName: string, out: seq<byte>)
    requires fileName in before
    ensures var trace := AtomicSaveTrace(before, fileName, out);
            trace[|trace| - 1][fileName] == out &&
            forall i :: 0 <= i < |trace| ==>
              fileName in trace[i] && (trace[i][fileName] == before[fileName] || trace[i][fileName] == out)
  {
    var trace := AtomicSaveTrace(before, fileName, out);
    var tmp := TempName(fileName);
    var cleared := before - {tmp};
    var n := |StaleRemoval(before, tmp) + TempWrite(cleared, tmp, out)|;
    forall i | 0 <= i < |trace|
      ensures fileName in trace[i] && (trace[i][fileName] == before[fileName] || trace[i][fileName] == out)
    {
      if i < n {
        assert trace[i] in StaleRemoval(before, tmp) + TempWrite(cleared, tmp, out);
      }
    }
  }

  /** Moving the written temporary file over the destination leaves the cleared
      state with the destination replaced. */
  lemma OverwriteResult(cleared: FileMap, tmp: string, fileName: string, out: seq<byte>)
    requires tmp !in cleared && tmp != fileName
    ensures (cleared[tmp := out] - {tmp})[fileName := out] == cleared[fileName := out]
  {
  }

  /** The two phases of the atomic save followed by the overwriting move leave
      exactly the states of AtomicSaveTrace. */
  lemma AtomicSaveTraceComposes(before: FileMap, fileName: string, out: seq<byte>,
                                h0: seq<FileMap>, h2: seq<FileMap>, h3: seq<FileMap>)
    requires h2 == h0 + StaleRemoval(before, TempName(fileName))
                  + TempWrite(before - {TempName(fileName)}, TempName(fileName), out)
    requires h3 == h2 + [(before - {TempName(fileName)})[fileName := out]]
    ensures h3 == h0 + AtomicSaveTrace(before, fileName, out)
  {
  }

  /** NbtFile.cs:104-116 with File.Move(saveFileName, fileName, true) in place of the
      delete and the move. */
  method ReplaceFileAtomically(out: seq<byte>, fs: FileSystem, fileName: string)
    modifies fs
    ensures fs.history == old(fs.history) + AtomicSaveTrace(old(fs.files), fileName, out)
    ensures fs.files == (old(fs.files) - {TempName(fileName)})[fileName := out]
  {
    var saveFileName := TempName(fileName);
    ghost var before, h0 := fs.files, fs.history;
    LibNbt.RemoveStaleTemp(fs, saveFileName);
    ghost var cleared := fs.files;
    LibNbt.WriteTempFile(out, fs, saveFileName);
    ghost var h2 := fs.history;
    fs.MoveOverwrite(saveFileName, fileName);
    OverwriteResult(cleared, saveFileName, fileName, out);
    AtomicSaveTraceComposes(before, fileName, out, h0, h2, fs.history);
  }
}
