/** What NbtFile does to bytes, as functions: the outcome of loading a byte
    stream, the FileContents buffer that SaveFile(Stream) builds, and the bytes
    its output loop hands to the sink. The methods of LibNbt.NbtFile are proved
    against these functions; the lemmas here say what they mean. */
module Framing {
  import opened Results
  import opened Platform
  import opened External

  /** NbtFile.BufferSize */
  const BUFFER_SIZE: nat := 4096

  /** The number of BUFFER_SIZE chunks that cover `n` bytes: ceil(n / BUFFER_SIZE). */
  function ChunkCount(n: nat): (k: nat)
    ensures k * BUFFER_SIZE >= n
    ensures k == 0 || (k - 1) * BUFFER_SIZE < n
  {
    (n + BUFFER_SIZE - 1) / BUFFER_SIZE
  }

  // ---------------------------------------------------------------- loading

  /** LoadFileInternal on a stream holding `stream`: the first byte must be
      TAG_Compound (an empty stream reads as -1), the rest goes to ReadTag. */
  function ParseRoot<Tag>(env: Collaborators<Tag>, stream: seq<byte>): (r: Result<Tag>)
  {
    if |stream| > 0 && stream[0] == TAG_COMPOUND then
      match env.readTag(stream[1..])
      case Some(t) => Ok(t)
      case None => Err(FormatError)
    else
      Err(InvalidData)
  }

  /** LoadFile(Stream, compressed): decompress the whole stream first when asked to. */
  function LoadOutcome<Tag>(env: Collaborators<Tag>, stream: seq<byte>, compressed: bool): (r: Result<Tag>)
  {
    if compressed then
      match env.decompress(stream)
      case Some(data) => ParseRoot(env, data)
      case None => Err(DecompressionError)
    else
      ParseRoot(env, stream)
  }

  // ---------------------------------------------------------------- saving

  /** How many bytes one pass of the output loop writes: the whole buffer when it
      is shorter than BUFFER_SIZE, otherwise nothing. */
  function OutAmount(length: nat): (amt: nat) {
    if BUFFER_SIZE > length then length else 0
  }

  /** The bytes the output loop of SaveFile(Stream) writes, starting at `outPos`:
      each pass writes OutAmount bytes at outPos and advances outPos by BUFFER_SIZE. */
  function Emitted(contents: seq<byte>, outPos: nat): (written: seq<byte>)
    requires outPos % BUFFER_SIZE == 0
    decreases |contents| - outPos
  {
    if outPos >= |contents| then []
    else contents[outPos..outPos + OutAmount(|contents|)] + Emitted(contents, outPos + BUFFER_SIZE)
  }

  /** Whether the uncompressed copy loop finishes: its second pass asks
      MemoryStream.Read for 4096 bytes at offset 4096 of a 4096-byte buffer. */
  function CopyOutcome(encoded: seq<byte>): (o: Outcome) {
    if |encoded| <= BUFFER_SIZE then Pass else Fail(InvalidArgument)
  }

  /** What the uncompressed copy loop leaves in the zero-filled FileContents. */
  function CopiedContents(encoded: seq<byte>): (contents: seq<byte>)
    ensures |contents| == |encoded|
    ensures contents[..Min(|encoded|, BUFFER_SIZE)] == encoded[..Min(|encoded|, BUFFER_SIZE)]
    ensures forall i :: BUFFER_SIZE <= i < |contents| ==> contents[i] == 0
  {
    if |encoded| <= BUFFER_SIZE then encoded
    else encoded[..BUFFER_SIZE] + Zeros(|encoded| - BUFFER_SIZE)
  }

  /** FileContents after SaveFile(Stream, compressed) has encoded `root`. */
  function Payload<Tag>(env: Collaborators<Tag>, root: Tag, compressed: bool): (payload: seq<byte>) {
    var encoded := env.writeTag(root);
    if compressed then env.compress(encoded) else CopiedContents(encoded)
  }

  /** SaveFile(Stream, compressed): fails or yields the bytes written to the sink. */
  function SaveOutput<Tag>(env: Collaborators<Tag>, root: Option<Tag>, compressed: bool): (r: Result<seq<byte>>)
  {
    match root
    case None => Ok([])
    case Some(t) =>
      if !compressed && CopyOutcome(env.writeTag(t)).Fail? then Err(InvalidArgument)
      else Ok(Emitted(Payload(env, t, compressed), 0))
  }

  // ---------------------------------------------------------------- lemmas

  /** The output loop writes everything from offset 0 when the buffer is shorter
      than BUFFER_SIZE, and nothing at all otherwise. */
  lemma {:induction false} EmittedAllOrNothing(contents: seq<byte>, outPos: nat)
    requires outPos % BUFFER_SIZE == 0
    ensures Emitted(contents, outPos) == if outPos == 0 && |contents| < BUFFER_SIZE then contents else []
    decreases |contents| - outPos
  {
    if outPos < |contents| {
      EmittedAllOrNothing(contents, outPos + BUFFER_SIZE);
    }
  }

  /** The sink receives all of FileContents exactly when it is shorter than BUFFER_SIZE. */
  lemma EmittedIsComplete(contents: seq<byte>)
    ensures Emitted(contents, 0) == contents <==> |contents| < BUFFER_SIZE
  {
    EmittedAllOrNothing(contents, 0);
  }

  /** A payload of BUFFER_SIZE bytes or more produces an empty output. */
  lemma LongPayloadIsDropped(contents: seq<byte>)
    requires |contents| >= BUFFER_SIZE
    ensures Emitted(contents, 0) == []
  {
    EmittedAllOrNothing(contents, 0);
  }

  /** SaveFile(Stream) fails only in the uncompressed case with an encoding longer
      than BUFFER_SIZE; when it succeeds, the sink receives the whole FileContents
      if that is shorter than BUFFER_SIZE and nothing otherwise. */
  lemma SaveOutputIsPayloadOrNothing<Tag>(env: Collaborators<Tag>, root: Option<Tag>, compressed: bool)
    ensures SaveOutput(env, root, compressed).Ok? <==>
              root.None? || compressed || |env.writeTag(root.value)| <= BUFFER_SIZE
    ensures root.None? ==> SaveOutput(env, root, compressed) == Ok([])
    ensures root.Some? && SaveOutput(env, root, compressed).Ok? ==>
              var payload := Payload(env, root.value, compressed);
              SaveOutput(env, root, compressed).value == if |payload| < BUFFER_SIZE then payload else []
  {
    if root.Some? {
      EmittedAllOrNothing(Payload(env, root.value, compressed), 0);
    }
  }

  /** Saving a root and loading the bytes written gives the root back, provided
      the codec (and, when compressing, LZ4) round-trips and the payload is
      shorter than BUFFER_SIZE. */
  lemma SaveThenLoad<Tag>(env: Collaborators<Tag>, t: Tag, compressed: bool)
    requires CodecRoundTrips(env, t)
    requires compressed ==> CompressionRoundTrips(env, env.writeTag(t))
    requires |Payload(env, t, compressed)| < BUFFER_SIZE
    ensures SaveOutput(env, Some(t), compressed) == Ok(Payload(env, t, compressed))
    ensures LoadOutcome(env, SaveOutput(env, Some(t), compressed).value, compressed) == Ok(t)
  {
    EmittedAllOrNothing(Payload(env, t, compressed), 0);
  }

  /** Without compression the save/load round trip works exactly for encodings
      shorter than BUFFER_SIZE: at BUFFER_SIZE bytes the file comes out empty and
      loading it fails with InvalidData; beyond, the save itself fails. */
  lemma UncompressedRoundTripIff<Tag>(env: Collaborators<Tag>, t: Tag)
    requires CodecRoundTrips(env, t)
    ensures (SaveOutput(env, Some(t), false).Ok? &&
             LoadOutcome(env, SaveOutput(env, Some(t), false).value, false) == Ok(t))
            <==> |env.writeTag(t)| < BUFFER_SIZE
    ensures |env.writeTag(t)| == BUFFER_SIZE ==>
              SaveOutput(env, Some(t), false) == Ok([]) && LoadOutcome<Tag>(env, [], false) == Err(InvalidData)
  {
    var encoded := env.writeTag(t);
    if |encoded| < BUFFER_SIZE {
      SaveThenLoad(env, t, false);
    } else if |encoded| == BUFFER_SIZE {
      LongPayloadIsDropped(Payload(env, t, false));
    }
  }
}
