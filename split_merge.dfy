/**
 * hw03/split.c and hw03/merge.c: split a file into its first half and the
 * rest through a MAX_BUF-byte buffer, and concatenate two files through the
 * same kind of buffer. A file opened for reading is its bytes and a
 * position; a file opened for writing is the bytes written so far.
 */
module SplitMerge {
  newtype Byte = b: int | 0 <= b < 256

  const MaxBuf: int := 1024

  /** A file opened for reading: fixed contents and the stream position. */
  class InFile {
    const data: seq<Byte>
    var pos: int

    predicate Valid()
      reads this
    {
      0 <= pos <= |data|
    }

    /** fopen(..., "rb"): the position is at the start. */
    constructor (contents: seq<Byte>)
      ensures Valid() && data == contents && pos == 0
    {
      data := contents;
      pos := 0;
    }

    /** ftell: the current position. */
    method Tell() returns (offset: int)
      requires Valid()
      ensures offset == pos
    {
      offset := pos;
    }

    /** fseek(fp, 0L, SEEK_END). */
    method SeekEnd()
      requires Valid()
      modifies this
      ensures Valid() && pos == |data|
    {
      pos := |data|;
    }

    /** fseek(fp, offset, SEEK_SET) to a position inside the file. */
    method SeekSet(offset: int)
      requires Valid() && 0 <= offset <= |data|
      modifies this
      ensures Valid() && pos == offset
    {
      pos := offset;
    }

    /**
     * fread(buf, 1, count, fp): up to `count` bytes from the position, fewer
     * only at the end of the file; the position moves past them.
     */
    method Read(count: int) returns (chunk: seq<Byte>)
      requires Valid() && count >= 0
      modifies this
      ensures Valid() && old(pos) <= pos
      ensures |chunk| == if old(pos) + count <= |data| then count else |data| - old(pos)
      ensures chunk == data[old(pos)..pos]
    {
      var n := if pos + count <= |data| then count else |data| - pos;
      chunk := data[pos..pos + n];
      pos := pos + n;
    }
  }

  /** A file opened for writing with "wb": it starts empty and grows at the end. */
  class OutFile {
    var data: seq<Byte>

    constructor ()
      ensures data == []
    {
      data := [];
    }

    /** fwrite(buf, 1, count, fp): the chunk is appended. */
    method Write(chunk: seq<Byte>)
      modifies this
      ensures data == old(data) + chunk
    {
      data := data + chunk;
    }
  }

  /**
   * filesize: remember the position, seek to the end, take that offset as
   * the size, and seek back. The size is the file's length and the
   * position is where it was.
   */
  method FileSize(fp: InFile) returns (size: int)
    requires fp.Valid()
    modifies fp
    ensures fp.Valid() && fp.pos == old(fp.pos)
    ensures size == |fp.data|
  {
    var cur := fp.Tell();
    fp.SeekEnd();
    size := fp.Tell();
    fp.SeekSet(cur);
  }

  /**
   * split's copying: `size = filesize(src) / 2` bytes go to dst1 in chunks
   * of at most MAX_BUF, then the rest of src goes to dst2 until fread
   * returns 0. dst1 gets the first half (rounded down), dst2 the rest, and
   * every chunk of the first loop holds between 1 and MAX_BUF bytes.
   */
  method Split(src: InFile, dst1: OutFile, dst2: OutFile) returns (chunks1: seq<int>)
    requires src.Valid() && src.pos == 0 && dst1 != dst2
    requires dst1.data == [] && dst2.data == []
    modifies src, dst1, dst2
    ensures dst1.data == src.data[..|src.data| / 2]
    ensures dst2.data == src.data[|src.data| / 2..]
    ensures forall k :: 0 <= k < |chunks1| ==> 1 <= chunks1[k] <= MaxBuf
  {
    var size := FileSize(src);
    size := size / 2;
    ghost var half := size;
    chunks1 := [];
    while size > 0
      invariant src.Valid() && half == |src.data| / 2
      invariant 0 <= size <= half && src.pos == half - size
      invariant dst1.data == src.data[..src.pos] && dst2.data == []
      invariant forall k :: 0 <= k < |chunks1| ==> 1 <= chunks1[k] <= MaxBuf
    {
      var count := if size > MaxBuf then MaxBuf else size;
      var buf := src.Read(count);
      dst1.Write(buf);
      chunks1 := chunks1 + [count];
      size := size - count;
    }
    var buf := src.Read(MaxBuf);
    while |buf| > 0
      invariant src.Valid() && half == |src.data| / 2 && half <= src.pos
      invariant dst1.data == src.data[..half]
      invariant dst2.data + buf == src.data[half..src.pos]
      invariant |buf| == 0 ==> src.pos == |src.data|
      decreases |src.data| - src.pos, |buf|
    {
      ghost var p := src.pos;
      dst2.Write(buf);
      buf := src.Read(MaxBuf);
      assert src.data[half..src.pos] == src.data[half..p] + src.data[p..src.pos];
    }
    assert src.data[half..src.pos] == src.data[half..];
  }

  /**
   * One loop of merge: `while ((count = fread(buf, 1, MAX_BUF, src)))
   * fwrite(buf, 1, count, dst);` from the start of src. All of src is
   * appended to dst, as the listed chunks, each of 1 to MAX_BUF bytes.
   */
  method CopyChunks(src: InFile, dst: OutFile) returns (chunks: seq<seq<Byte>>)
    requires src.Valid() && src.pos == 0
    modifies src, dst
    ensures src.Valid() && src.pos == |src.data|
    ensures dst.data == old(dst.data) + src.data
    ensures Concat(chunks) == src.data
    ensures forall k :: 0 <= k < |chunks| ==> 1 <= |chunks[k]| <= MaxBuf
  {
    chunks := [];
    ghost var start := dst.data;
    ghost var copied: seq<Byte> := [];
    var buf := src.Read(MaxBuf);
    while |buf| > 0
      invariant src.Valid()
      invariant copied == Concat(chunks) && dst.data == start + copied
      invariant copied + buf == src.data[..src.pos]
      invariant |buf| <= MaxBuf && (|buf| == 0 ==> src.pos == |src.data|)
      invariant forall k :: 0 <= k < |chunks| ==> 1 <= |chunks[k]| <= MaxBuf
      decreases |src.data| - src.pos, |buf|
    {
      ghost var last := buf;
      chunks, buf := CopyStep(src, dst, chunks, buf);
      assert start + (copied + last) == (start + copied) + last;
      copied := copied + last;
    }
    assert src.data[..src.pos] == src.data;
  }

  /**
   * One pass of merge's loop body: write the chunk just read, then read the
   * next one. What is written so far and what was read so far stay in step.
   */
  method CopyStep(src: InFile, dst: OutFile, chunks: seq<seq<Byte>>, buf: seq<Byte>)
    returns (chunks': seq<seq<Byte>>, buf': seq<Byte>)
    requires src.Valid() && 1 <= |buf| <= MaxBuf
    requires Concat(chunks) + buf == src.data[..src.pos]
    modifies src, dst
    ensures src.Valid() && old(src.pos) <= src.pos
    ensures dst.data == old(dst.data) + buf
    ensures chunks' == chunks + [buf] && Concat(chunks') == Concat(chunks) + buf
    ensures Concat(chunks') + buf' == src.data[..src.pos]
    ensures |buf'| <= MaxBuf && (|buf'| == 0 ==> src.pos == |src.data|)
    ensures |buf'| == 0 || old(src.pos) < src.pos
  {
    dst.Write(buf);
    ConcatAppend(chunks, buf);
    chunks' := chunks + [buf];
    ghost var p := src.pos;
    buf' := src.Read(MaxBuf);
    assert src.data[..src.pos] == src.data[..p] + src.data[p..src.pos];
  }

  /**
   * merge's copying: all of src1, then all of src2, into dst. The
   * destination is src1 followed by src2, and `writes` lists the chunks in
   * order: those before `boundary` make up src1 and the rest src2, each
   * of 1 to MAX_BUF bytes.
   */
  method Merge(src1: InFile, src2: InFile, dst: OutFile) returns (writes: seq<seq<Byte>>, boundary: int)
    requires src1.Valid() && src2.Valid() && src1.pos == 0 && src2.pos == 0
    requires src1 != src2 && dst.data == []
    modifies src1, src2, dst
    ensures dst.data == src1.data + src2.data
    ensures 0 <= boundary <= |writes|
    ensures Concat(writes[..boundary]) == src1.data && Concat(writes[boundary..]) == src2.data
    ensures forall k :: 0 <= k < |writes| ==> 1 <= |writes[k]| <= MaxBuf
  {
    var first := CopyChunks(src1, dst);
    var second := CopyChunks(src2, dst);
    writes := first + second;
    boundary := |first|;
    assert writes[..boundary] == first && writes[boundary..] == second;
  }

  /** The bytes of a list of chunks, in order. */
  function Concat(chunks: seq<seq<Byte>>): seq<Byte>
  {
    if |chunks| == 0 then [] else Concat(chunks[..|chunks| - 1]) + chunks[|chunks| - 1]
  }

  lemma ConcatAppend(chunks: seq<seq<Byte>>, c: seq<Byte>)
    ensures Concat(chunks + [c]) == Concat(chunks) + c
  {
    assert (chunks + [c])[..|chunks|] == chunks;
  }

  /**
   * Running split on a file and merge on its two outputs, in order, gives
   * back the original bytes.
   */
  method SplitThenMerge(contents: seq<Byte>) returns (merged: seq<Byte>)
    ensures merged == contents
  {
    var src := new InFile(contents);
    var a := new OutFile();
    var b := new OutFile();
    var _ := Split(src, a, b);
    var first := new InFile(a.data);
    var second := new InFile(b.data);
    var dst := new OutFile();
    var _, _ := Merge(first, second, dst);
    merged := dst.data;
    assert contents == contents[..|contents| / 2] + contents[|contents| / 2..];
  }
}
