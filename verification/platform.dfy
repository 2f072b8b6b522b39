/** The parts of the .NET class library that NbtFile calls, reduced to what the
    document object relies on: a readable MemoryStream, an append-only output
    stream, Buffer.BlockCopy and a file system that is a map from path to contents. */
module Platform {
  import opened Results

  newtype byte = x: int | 0 <= x < 256

  function Min(a: int, b: int): (m: int) {
    if a < b then a else b
  }

  function Zeros(n: nat): (z: seq<byte>)
  {
    seq(n, _ => 0)
  }

  /** A MemoryStream over a fixed byte sequence, read from `position` on. */
  class MemoryStream {
    const data: seq<byte>
    var position: nat

    ghost predicate Valid()
      reads this
    {
      position <= |data|
    }

    constructor (data: seq<byte>)
      ensures Valid() && this.data == data && position == 0
    {
      this.data := data;
      position := 0;
    }

    /** Stream.Read(buffer, offset, count): refuses a range that does not fit in
        `buffer`; otherwise copies up to `count` bytes into buffer[offset..] and
        returns how many it copied (0 at the end of the stream). */
    method Read(buffer: array<byte>, offset: int, count: int) returns (r: Result<nat>)
      requires Valid()
      modifies this, buffer
      ensures Valid()
      ensures r.Ok? <==> 0 <= offset && 0 <= count && count <= buffer.Length - offset
      ensures r.Err? ==> r.error == InvalidArgument && position == old(position) && buffer[..] == old(buffer[..])
      ensures r.Ok? ==> r.value == Min(count, |data| - old(position)) && position == old(position) + r.value
      ensures r.Ok? ==> buffer[offset..offset + r.value] == data[old(position)..position]
      ensures r.Ok? ==> forall i :: 0 <= i < buffer.Length && !(offset <= i < offset + r.value) ==> buffer[i] == old(buffer[i])
    {
      if offset < 0 || count < 0 || buffer.Length - offset < count {
        return Err(InvalidArgument);
      }
      var n := Min(count, |data| - position);
      for i := 0 to n
        invariant position == old(position)
        invariant forall j :: offset <= j < offset + i ==> buffer[j] == data[position + j - offset]
        invariant forall j :: 0 <= j < buffer.Length && !(offset <= j < offset + i) ==> buffer[j] == old(buffer[j])
      {
        buffer[offset + i] := data[position + i];
      }
      position := position + n;
      r := Ok(n);
    }
  }

  /** The sink of SaveFile(Stream): every Write appends to what was written so far. */
  class OutputStream {
    var written: seq<byte>

    constructor ()
      ensures written == []
    {
      written := [];
    }

    /** Stream.Write(buffer, offset, count). */
    method Write(buffer: array<byte>, offset: nat, count: nat)
      requires offset + count <= buffer.Length
      modifies this
      ensures written == old(written) + buffer[offset..offset + count]
    {
      written := written + buffer[offset..offset + count];
    }
  }

  /** Buffer.BlockCopy(src, srcOffset, dst, dstOffset, count); overlapping ranges
      copy as if through a temporary. */
  method BlockCopy(src: array<byte>, srcOffset: nat, dst: array<byte>, dstOffset: nat, count: nat)
    requires srcOffset + count <= src.Length && dstOffset + count <= dst.Length
    modifies dst
    ensures dst[dstOffset..dstOffset + count] == old(src[srcOffset..srcOffset + count])
    ensures forall i :: 0 <= i < dst.Length && !(dstOffset <= i < dstOffset + count) ==> dst[i] == old(dst[i])
  {
    var chunk := src[srcOffset..srcOffset + count];
    for i := 0 to count
      invariant forall j :: dstOffset <= j < dstOffset + i ==> dst[j] == chunk[j - dstOffset]
      invariant forall j :: 0 <= j < dst.Length && !(dstOffset <= j < dstOffset + i) ==> dst[j] == old(dst[j])
    {
      dst[dstOffset + i] := chunk[i];
    }
  }

  type FileMap = map<string, seq<byte>>

  /** The file system as a map from path to contents. `history` records every
      state a mutating call leaves behind, so that callers can state which
      intermediate states another process could observe. */
  class FileSystem {
    var files: FileMap
    ghost var history: seq<FileMap>

    constructor (files: FileMap)
      ensures this.files == files && history == []
    {
      this.files := files;
      history := [];
    }

    /** File.Exists */
    predicate Exists(name: string)
      reads this
    {
      name in files
    }

    /** File.Delete (a missing file is not an error) */
    method Delete(name: string)
      modifies this
      ensures files == old(files) - {name}
      ensures history == old(history) + [files]
    {
      files := files - {name};
      history := history + [files];
    }

    /** File.OpenWrite on a path that does not exist: creates it empty. */
    method Create(name: string)
      requires name !in files
      modifies this
      ensures files == old(files)[name := []]
      ensures history == old(history) + [files]
    {
      files := files[name := []];
      history := history + [files];
    }

    /** FileStream.Write on a stream positioned at the end of the file. */
    method Append(name: string, buffer: array<byte>, offset: nat, count: nat)
      requires name in files && offset + count <= buffer.Length
      modifies this
      ensures files == old(files)[name := old(files)[name] + buffer[offset..offset + count]]
      ensures history == old(history) + [files]
    {
      files := files[name := files[name] + buffer[offset..offset + count]];
      history := history + [files];
    }

    /** File.Move: the source must exist and the destination must not. */
    method Move(source: string, dest: string)
      requires source in files && dest !in files
      modifies this
      ensures files == (old(files) - {source})[dest := old(files)[source]]
      ensures history == old(history) + [files]
    {
      files := (files - {source})[dest := files[source]];
      history := history + [files];
    }

    /** File.Move(source, dest, overwrite: true): replaces the destination in one step. */
    method MoveOverwrite(source: string, dest: string)
      requires source in files
      modifies this
      ensures files == (old(files) - {source})[dest := old(files)[source]]
      ensures history == old(history) + [files]
    {
      files := (files - {source})[dest := files[source]];
      history := history + [files];
    }
  }
}
