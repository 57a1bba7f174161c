/**
 * What the two conversion engines have in common: bytes and their bitwise
 * complement, reading a source in chunks of at most `BufferSize` bytes,
 * progress as the pair (bytes written, total bytes), the source file as the
 * engines see it, and the errors a conversion can end with.
 */
module Streams {
  import opened Wrappers

  type byte = bv8

  /** `Config.bufferSize` of both engines. */
  const BufferSize: nat := 1024

  /** `readData.map { ~$0 }`. */
  function ComplementAll(s: seq<byte>): (r: seq<byte>)
    ensures |r| == |s|
    ensures forall i :: 0 <= i < |s| ==> r[i] == !s[i]
  {
    seq(|s|, i requires 0 <= i < |s| => !s[i])
  }

  /** The transform is its own inverse: converting the output again restores the source. */
  lemma ComplementInvolution(s: seq<byte>)
    ensures ComplementAll(ComplementAll(s)) == s
  {
  }

  lemma ComplementAllAppend(a: seq<byte>, b: seq<byte>)
    ensures ComplementAll(a + b) == ComplementAll(a) + ComplementAll(b)
  {
  }

  /** Converting two adjacent slices of a buffer is converting their union. */
  lemma ComplementSlices(data: seq<byte>, a: nat, b: nat, c: nat)
    requires a <= b <= c <= |data|
    ensures ComplementAll(data[a..b]) + ComplementAll(data[b..c]) == ComplementAll(data[a..c])
  {
    assert data[a..c] == data[a..b] + data[b..c];
    ComplementAllAppend(data[a..b], data[b..c]);
  }

  function Min(a: int, b: int): int
  {
    if a <= b then a else b
  }

  /**
   * `input.read(upToCount: BufferSize)` on a regular file whose handle is at
   * `offset`: the next at most `BufferSize` bytes, empty at end of file.
   */
  function Chunk(data: seq<byte>, offset: nat): (c: seq<byte>)
    requires offset <= |data|
    ensures |c| <= BufferSize
    ensures |c| == Min(BufferSize, |data| - offset)
    ensures c == [] <==> offset == |data|
    ensures c == data[offset..offset + |c|]
  {
    data[offset..Min(offset + BufferSize, |data|)]
  }

  /** A progress report `Double(bytesWritten) / Double(totalBytes)`, kept as the pair. */
  datatype Fraction = Fraction(written: nat, total: nat)
  {
    function Value(): real
      requires total > 0
    {
      written as real / total as real
    }
  }

  /**
   * The source file as the engines find it: its `.size` attribute (absent
   * when `attributesOfItem` has no size entry), the bytes a read handle would
   * deliver, and whether `FileHandle(forReadingFrom:)` succeeds.
   */
  datatype SourceFile = SourceFile(sizeAttribute: Option<nat>, contents: seq<byte>, readable: bool)

  /** `ConversionError`, declared identically by both engines. */
  datatype ConversionError = Aborted | InputError | OutputError | DataError

  /**
   * What a conversion can fail with: one of the engine's own errors,
   * `CancellationError`, or an error thrown by Foundation (a missing
   * source file, a source that cannot be opened).
   */
  datatype Error = Conversion(error: ConversionError) | Cancellation | FileSystem

  /**
   * The positions reported from one chunk further on, behind the position
   * after that chunk, are the positions reported from here.
   */
  lemma PositionsStep(rest: seq<Fraction>, written: nat, next: nat, n: nat, total: nat)
    requires written < n && next == Min(written + BufferSize, n)
    requires rest != [] ==> next == written + BufferSize
    requires forall i :: 0 <= i < |rest| ==>
      rest[i] == Fraction(Min(next + (i + 1) * BufferSize, n), total) && next + i * BufferSize < n
    ensures var vs := [Fraction(next, total)] + rest;
      forall i :: 0 <= i < |vs| ==>
        vs[i] == Fraction(Min(written + (i + 1) * BufferSize, n), total) && written + i * BufferSize < n
  {
    var vs := [Fraction(next, total)] + rest;
    forall i | 0 <= i < |vs|
      ensures vs[i] == Fraction(Min(written + (i + 1) * BufferSize, n), total) && written + i * BufferSize < n
    {
      if i > 0 {
        assert vs[i] == rest[i - 1];
        ShiftByChunk(written, i);
      }
    }
  }

  /** Starting one chunk later is having read one chunk more. */
  lemma ShiftByChunk(written: nat, i: nat)
    requires i > 0
    ensures written + BufferSize + i * BufferSize == written + (i + 1) * BufferSize
    ensures written + BufferSize + (i - 1) * BufferSize == written + i * BufferSize
  {
  }
}
