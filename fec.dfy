/**
 * Forward error correction of a whole buffer (encode.c): the buffer is cut into
 * 223-byte chunks, the last one possibly shorter, and each chunk's codeword is
 * written at a 255-byte stride. A short last chunk yields a shortened codeword of
 * its own length plus 32 parity bytes, so the output is the input plus 32 bytes
 * per chunk.
 */
module Fec {
  import opened Bytes
  import opened Protocol
  import Codeword

  /** The number of chunks: the fewest 223-byte pieces that cover `n` bytes. */
  function ChunkCount(n: nat): (c: nat)
    ensures n <= c * 223
    ensures c == 0 || (c - 1) * 223 < n
  {
    n / 223 + (if n % 223 != 0 then 1 else 0)
  }

  /**
   * reedSolomonOutSize, in `unsigned int` arithmetic. While the sum fits 32 bits it is
   * the input size plus 32 parity bytes per chunk.
   */
  function ReedSolomonOutSize(dataSize: nat): (r: nat)
    requires dataSize < U32Limit
    ensures r < U32Limit
    ensures dataSize == 0 ==> r == 0
    ensures dataSize + 32 * ChunkCount(dataSize) < U32Limit ==>
      r == dataSize + 32 * ChunkCount(dataSize)
  {
    var numChunks := dataSize / 223;
    var numChunks' := if dataSize % 223 != 0 then numChunks + 1 else numChunks;
    (dataSize + numChunks' * 32) % 0x1_0000_0000
  }

  /** A whole number of chunks takes a whole number of codewords; a last chunk of r bytes, r + 32. */
  lemma OutSizeClosedForm(dataSize: nat)
    requires dataSize + 32 * ChunkCount(dataSize) < U32Limit
    ensures dataSize % 223 == 0 ==>
      ReedSolomonOutSize(dataSize) == dataSize / 223 * 255
    ensures dataSize % 223 != 0 ==>
      ReedSolomonOutSize(dataSize) == dataSize / 223 * 255 + dataSize % 223 + 32
  {
    var q, m := dataSize / 223, dataSize % 223;
    assert dataSize == q * 223 + m;
    if m == 0 {
      assert ChunkCount(dataSize) == q;
    } else {
      assert ChunkCount(dataSize) == q + 1;
    }
  }

  /** One more byte of input never needs fewer output bytes. */
  lemma OutSizeMonotonic(a: nat, b: nat)
    requires a <= b && b + 32 * ChunkCount(b) < U32Limit
    ensures ChunkCount(a) <= ChunkCount(b)
    ensures ReedSolomonOutSize(a) <= ReedSolomonOutSize(b)
  {
  }

  /** The codeword of one chunk, with the code shape of the program: 223 data bytes, 32 parity bytes. */
  function ChunkCodeword(polynomialMod: seq<byte> -> seq<byte>, chunk: seq<byte>): (c: seq<byte>)
    requires |chunk| <= 223
    ensures |c| == |chunk| + 32
    ensures c[..|chunk|] == chunk
  {
    Codeword.Codeword(223, 32, polynomialMod, chunk)
  }

  /**
   * What the chunk loop relies on of its encoder: every chunk of at most 223 bytes
   * comes back 32 bytes longer.
   */
  ghost predicate IsChunkEncoder(encode: seq<byte> -> seq<byte>)
  {
    forall chunk :: |chunk| <= 223 ==> |encode(chunk)| == |chunk| + 32
  }

  /** A systematic encoder: every chunk of at most 223 bytes starts its own codeword. */
  ghost predicate IsSystematic(encode: seq<byte> -> seq<byte>)
    requires IsChunkEncoder(encode)
  {
    forall chunk :: |chunk| <= 223 ==> encode(chunk)[..|chunk|] == chunk
  }

  /** The program's encoder of one chunk, with the generator held by `polynomialMod`. */
  function ChunkEncoder(polynomialMod: seq<byte> -> seq<byte>): (encode: seq<byte> -> seq<byte>)
    ensures IsChunkEncoder(encode)
  {
    chunk => if |chunk| <= 223 then ChunkCodeword(polynomialMod, chunk) else []
  }

  /** The program's chunk encoder is systematic. */
  lemma ChunkEncoderIsSystematic(polynomialMod: seq<byte> -> seq<byte>)
    ensures IsSystematic(ChunkEncoder(polynomialMod))
  {
  }

  /** The encoded stream of `data`: the codewords of its chunks, one after another. */
  function EncodedStream(encode: seq<byte> -> seq<byte>, data: seq<byte>): (out: seq<byte>)
    requires IsChunkEncoder(encode)
    decreases |data|
  {
    if data == [] then []
    else if |data| <= 223 then encode(data)
    else encode(data[..223]) + EncodedStream(encode, data[223..])
  }

  /** The stream is 32 bytes longer than the input per chunk. */
  lemma {:induction false} EncodedStreamLength(encode: seq<byte> -> seq<byte>, data: seq<byte>)
    requires IsChunkEncoder(encode)
    ensures |EncodedStream(encode, data)| == |data| + 32 * ChunkCount(|data|)
    decreases |data|
  {
    if |data| > 223 {
      EncodedStreamLength(encode, data[223..]);
    }
  }

  /** The stream of the whole buffer is as long as reedSolomonOutSize says. */
  lemma EncodedStreamSize(encode: seq<byte> -> seq<byte>, data: seq<byte>)
    requires IsChunkEncoder(encode)
    requires |data| + 32 * ChunkCount(|data|) < U32Limit
    ensures |EncodedStream(encode, data)| == ReedSolomonOutSize(|data|)
  {
    EncodedStreamLength(encode, data);
  }

  /** Splitting the input on a chunk boundary splits the stream after the same codewords. */
  lemma {:induction false} EncodedStreamAppend(encode: seq<byte> -> seq<byte>, a: seq<byte>, b: seq<byte>)
    requires IsChunkEncoder(encode)
    requires |a| % 223 == 0
    ensures EncodedStream(encode, a + b) == EncodedStream(encode, a) + EncodedStream(encode, b)
    decreases |a|
  {
    if a == [] {
      assert a + b == b;
    } else if b == [] {
      assert a + b == a;
    } else {
      var tail := a[223..];
      assert (a + b)[..223] == a[..223];
      assert (a + b)[223..] == tail + b;
      EncodedStreamAppend(encode, tail, b);
      if |a| == 223 {
        assert tail == [] && a[..223] == a;
      }
    }
  }

  /** A prefix ending on a chunk boundary or at the end is followed by the rest of the stream. */
  lemma StreamPrefix(encode: seq<byte> -> seq<byte>, data: seq<byte>, i: nat)
    requires IsChunkEncoder(encode)
    requires i <= |data| && (i % 223 == 0 || i == |data|)
    ensures EncodedStream(encode, data) == EncodedStream(encode, data[..i]) + EncodedStream(encode, data[i..])
  {
    if i == |data| {
      assert data[..i] == data && data[i..] == [];
    } else {
      assert data == data[..i] + data[i..];
      EncodedStreamAppend(encode, data[..i], data[i..]);
    }
  }

  /** The chunk count of a whole number of chunks. */
  lemma ChunkCountOfChunks(k: nat)
    ensures (k * 223) % 223 == 0
    ensures ChunkCount(k * 223) == k
    ensures k * 223 + 32 * k == k * 255
  {
  }

  /** The stream of a non-empty input begins with the codeword of its first chunk. */
  lemma StreamHead(encode: seq<byte> -> seq<byte>, rest: seq<byte>, len: nat, cw: seq<byte>)
    requires IsChunkEncoder(encode)
    requires rest != [] && len == (if |rest| >= 223 then 223 else |rest|)
    requires cw == encode(rest[..len])
    ensures |cw| == len + 32 <= |EncodedStream(encode, rest)|
    ensures forall t :: 0 <= t < |cw| ==> EncodedStream(encode, rest)[t] == cw[t]
  {
    if |rest| <= 223 {
      assert rest[..len] == rest;
    } else {
      EncodedStreamLength(encode, rest[223..]);
    }
  }

  /**
   * Chunk k of the input, from offset i = 223k, is encoded at output offset at = 255k:
   * byte t of its codeword is byte at + t of the stream. The chunk is 223 bytes long
   * except possibly the last.
   */
  lemma ChunkPlacement(encode: seq<byte> -> seq<byte>, data: seq<byte>, k: nat, i: nat, chunkSize: nat, at: nat, cw: seq<byte>)
    requires IsChunkEncoder(encode)
    requires i == k * 223 && at == k * 255 && i < |data|
    requires chunkSize == if |data| - i >= 223 then 223 else |data| - i
    requires cw == encode(data[i..i + chunkSize])
    ensures |cw| == chunkSize + 32
    ensures at + |cw| <= |EncodedStream(encode, data)|
    ensures forall t :: 0 <= t < |cw| ==> EncodedStream(encode, data)[at + t] == cw[t]
  {
    ChunkCountOfChunks(k);
    StreamPrefix(encode, data, i);
    EncodedStreamLength(encode, data[..i]);
    assert |EncodedStream(encode, data[..i])| == at;
    var rest := data[i..];
    assert rest[..chunkSize] == data[i..i + chunkSize];
    StreamHead(encode, rest, chunkSize, cw);
  }

  /**
   * The stream of a systematic encoder, such as the program's, is systematic: every
   * input byte t of chunk k (from offset 223k) appears unchanged at output offset
   * t + 32k, within the codeword that starts at 255k.
   */
  lemma StreamIsSystematic(encode: seq<byte> -> seq<byte>, data: seq<byte>, k: nat, i: nat, chunkSize: nat)
    requires IsChunkEncoder(encode) && IsSystematic(encode)
    requires i == k * 223 && i < |data|
    requires chunkSize == if |data| - i >= 223 then 223 else |data| - i
    ensures k * 255 + chunkSize <= |EncodedStream(encode, data)|
    ensures forall t :: i <= t < i + chunkSize ==> EncodedStream(encode, data)[t + 32 * k] == data[t]
  {
    var chunk := data[i..i + chunkSize];
    var cw := encode(chunk);
    ChunkPlacement(encode, data, k, i, chunkSize, k * 255, cw);
    ChunkCountOfChunks(k);
    assert cw[..|chunk|] == chunk;
    forall t | i <= t < i + chunkSize
      ensures EncodedStream(encode, data)[t + 32 * k] == data[t]
    {
      var u := t - i;
      assert t + 32 * k == k * 255 + u;
      assert EncodedStream(encode, data)[k * 255 + u] == cw[u];
      assert cw[u] == cw[..chunkSize][u] == chunk[u] == data[t];
    }
  }

  /** A short chunk k is the last: its codeword ends the stream. */
  lemma LastChunk(encode: seq<byte> -> seq<byte>, data: seq<byte>, k: nat)
    requires IsChunkEncoder(encode)
    requires k * 223 < |data| < k * 223 + 223
    ensures |EncodedStream(encode, data)| == k * 255 + (|data| - k * 223) + 32
  {
    EncodedStreamLength(encode, data);
    assert ChunkCount(|data|) == k + 1;
  }

  /**
   * Writing the codeword of chunk k at output offset 255k writes the bytes of the
   * encoded stream there.
   */
  lemma ChunkInStream(encode: seq<byte> -> seq<byte>, data: seq<byte>, k: nat, i: nat, chunkSize: nat, at: nat,
                      cw: seq<byte>, out: seq<byte>)
    requires IsChunkEncoder(encode)
    requires i == k * 223 && at == k * 255 && i < |data|
    requires chunkSize == if |data| - i >= 223 then 223 else |data| - i
    requires cw == encode(data[i..i + chunkSize])
    requires at + chunkSize + 32 <= |out|
    requires forall j :: at <= j < at + chunkSize + 32 ==> out[j] == cw[j - at]
    ensures at + chunkSize + 32 <= |EncodedStream(encode, data)|
    ensures forall j :: at <= j < at + chunkSize + 32 ==> out[j] == EncodedStream(encode, data)[j]
  {
    ChunkPlacement(encode, data, k, i, chunkSize, at, cw);
    forall j | at <= j < at + chunkSize + 32
      ensures out[j] == EncodedStream(encode, data)[j]
    {
      assert out[j] == cw[j - at] == EncodedStream(encode, data)[at + (j - at)];
    }
  }

  /** One call of the libcorrect encoder on a chunk: its codeword is written at `at`, nothing else. */
  method EncodeChunk(rs: Codeword.Encoder, inBuf: array<byte>, i: nat, chunkSize: nat, outBuf: array<byte>, at: nat)
    requires rs.Valid() && rs.messageLength == 223 && rs.minDistance == 32
    requires i + chunkSize <= inBuf.Length && chunkSize <= 223 && at + chunkSize + 32 <= outBuf.Length
    requires inBuf != rs.encodedPolynomial && inBuf != rs.encodedRemainder
    requires outBuf != rs.encodedPolynomial && outBuf != rs.encodedRemainder
    modifies rs.encodedPolynomial, rs.encodedRemainder, outBuf
    ensures forall j :: 0 <= j < outBuf.Length && !(at <= j < at + chunkSize + 32) ==> outBuf[j] == old(outBuf[j])
    ensures var cw := ChunkEncoder(rs.polynomialMod)(old(inBuf[i..i + chunkSize]));
            forall j :: at <= j < at + chunkSize + 32 ==> outBuf[j] == cw[j - at]
  {
    ghost var chunk := inBuf[i..i + chunkSize];
    ghost var prior := outBuf[..];
    var _ := rs.Encode(inBuf, i, chunkSize, outBuf, at);
    ghost var cw := ChunkCodeword(rs.polynomialMod, chunk);
    assert outBuf[..] == prior[..at] + cw + prior[at + chunkSize + 32..];
    forall j | at <= j < at + chunkSize + 32
      ensures outBuf[j] == cw[j - at]
    {
      assert outBuf[j] == outBuf[..][j];
    }
  }

  /**
   * The body of the chunk loop: chunk k, the input bytes [i, i + chunkSize), is encoded
   * into the bytes of the encoded stream from output offset at = 255k, one codeword
   * long, and nothing else is written.
   */
  method EncodeStreamChunk(rs: Codeword.Encoder, inBuf: array<byte>, inBufLen: nat, ghost k: nat, i: nat, chunkSize: nat,
                           outBuf: array<byte>, at: nat)
    requires rs.Valid() && rs.messageLength == 223 && rs.minDistance == 32
    requires inBufLen <= inBuf.Length && i == k * 223 && at == k * 255 && i < inBufLen
    requires chunkSize == if inBufLen - i >= 223 then 223 else inBufLen - i
    requires |EncodedStream(ChunkEncoder(rs.polynomialMod), inBuf[..inBufLen])| <= outBuf.Length
    requires inBuf != rs.encodedPolynomial && inBuf != rs.encodedRemainder && inBuf != outBuf
    requires outBuf != rs.encodedPolynomial && outBuf != rs.encodedRemainder
    modifies rs.encodedPolynomial, rs.encodedRemainder, outBuf
    ensures inBuf[..inBufLen] == old(inBuf[..inBufLen])
    ensures at + chunkSize + 32 <= |EncodedStream(ChunkEncoder(rs.polynomialMod), inBuf[..inBufLen])|
    ensures forall j :: 0 <= j < outBuf.Length && !(at <= j < at + chunkSize + 32) ==> outBuf[j] == old(outBuf[j])
    ensures forall j :: at <= j < at + chunkSize + 32 ==>
      outBuf[j] == EncodedStream(ChunkEncoder(rs.polynomialMod), inBuf[..inBufLen])[j]
  {
    ghost var encode := ChunkEncoder(rs.polynomialMod);
    ghost var data := inBuf[..inBufLen];
    ghost var cw := encode(data[i..i + chunkSize]);
    assert inBuf[i..i + chunkSize] == data[i..i + chunkSize];
    ChunkPlacement(encode, data, k, i, chunkSize, at, cw);
    EncodeChunk(rs, inBuf, i, chunkSize, outBuf, at);
    ChunkInStream(encode, data, k, i, chunkSize, at, cw, outBuf[..]);
  }

  /**
   * reedSolomonEncode with the program's encoder `rs`: chunk after chunk, the codeword
   * of input bytes [i, i + chunkSize) goes to output offset dataWritten, and dataWritten
   * advances a whole codeword. The output buffer must be as large as
   * reedSolomonOutSize says; exactly that many bytes are written, with the encoded
   * stream, and the result is always 0.
   */
  method ReedSolomonEncode(rs: Codeword.Encoder, inBuf: array<byte>, inBufLen: nat, outBuf: array<byte>)
    returns (r: int)
    requires rs.Valid() && rs.messageLength == 223 && rs.minDistance == 32
    requires inBufLen <= inBuf.Length
    requires inBufLen + 32 * ChunkCount(inBufLen) < U32Limit
    requires ReedSolomonOutSize(inBufLen) <= outBuf.Length
    requires inBuf != rs.encodedPolynomial && inBuf != rs.encodedRemainder && inBuf != outBuf
    requires outBuf != rs.encodedPolynomial && outBuf != rs.encodedRemainder
    modifies rs.encodedPolynomial, rs.encodedRemainder, outBuf
    ensures r == 0
    ensures outBuf[..ReedSolomonOutSize(inBufLen)] == EncodedStream(ChunkEncoder(rs.polynomialMod), inBuf[..inBufLen])
    ensures outBuf[ReedSolomonOutSize(inBufLen)..] == old(outBuf[ReedSolomonOutSize(inBufLen)..])
  {
    ghost var encode := ChunkEncoder(rs.polynomialMod);
    ghost var data := inBuf[..inBufLen];
    ghost var stream := EncodedStream(encode, data);
    ghost var size := ReedSolomonOutSize(inBufLen);
    ghost var k: nat := 0;        // chunks encoded so far
    ghost var written := 0;       // output bytes written so far
    EncodedStreamSize(encode, data);
    var dataWritten := 0;
    var i := 0;
    while i < inBufLen
      invariant rs.Valid() && inBuf[..inBufLen] == data
      invariant i == k * 223 && dataWritten == k * 255
      invariant i <= inBufLen ==> written == dataWritten
      invariant i > inBufLen ==> written == size
      invariant written <= size
      invariant forall j :: 0 <= j < written ==> outBuf[j] == stream[j]
      invariant forall j :: written <= j < outBuf.Length ==> outBuf[j] == old(outBuf[j])
      decreases inBufLen - i
    {
      var chunkSize := 0;
      if inBufLen - i >= 223 {
        chunkSize := 223;
      } else {
        chunkSize := inBufLen - i;
      }
      EncodeStreamChunk(rs, inBuf, inBufLen, k, i, chunkSize, outBuf, dataWritten);
      if chunkSize < 223 {
        LastChunk(encode, data, k);
      }
      dataWritten := dataWritten + 255;
      i := i + 223;
      k := k + 1;
      written := written + chunkSize + 32;
    }
    ChunkCountOfChunks(k);
    EncodedStreamLength(encode, data);
    assert written == size;
    assert outBuf[..size] == stream;
    return 0;
  }
}
