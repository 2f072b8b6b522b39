/** The code NbtFile calls but that is not part of this model: the tag codec
    (NbtCompound.WriteTag / ReadTag), the LZ4 compressor and decompressor, and
    the path resolver (TagQuery with NbtCompound.Query<T>). Each is a function
    value supplied from outside, so nothing is assumed about it. */
module External {
  import opened Results
  import opened Platform

  datatype Collaborators<!Tag> = Collaborators(
    // NbtCompound.WriteTag into an empty MemoryStream: the bytes of the named root tag
    writeTag: Tag -> seq<byte>,
    // NbtCompound.ReadTag on the bytes that follow the root's type byte; None when it throws
    readTag: seq<byte> -> Option<Tag>,
    // ILZ4Compressor.Compress
    compress: seq<byte> -> seq<byte>,
    // ILZ4Decompressor.Decompress; None when it throws
    decompress: seq<byte> -> Option<seq<byte>>,
    // RootTag.Query<NbtTag>(new TagQuery(path))
    query: (Tag, string) -> Result<Tag>
  )

  /** NbtTagType.TAG_Compound, the type byte every NBT file must start with. */
  const TAG_COMPOUND: byte := 10

  /** The round-trip law the codec is expected to satisfy for `t`: WriteTag emits
      the TAG_Compound type byte and ReadTag reads back the rest. It is a
      hypothesis of the lemmas that use it, never a fact of the model. */
  ghost predicate CodecRoundTrips<Tag>(env: Collaborators<Tag>, t: Tag)
  {
    var bytes := env.writeTag(t);
    |bytes| > 0 && bytes[0] == TAG_COMPOUND && env.readTag(bytes[1..]) == Some(t)
  }

  /** The LZ4 round-trip law for one buffer, likewise a hypothesis only. */
  ghost predicate CompressionRoundTrips<Tag>(env: Collaborators<Tag>, data: seq<byte>)
  {
    env.decompress(env.compress(data)) == Some(data)
  }
}
