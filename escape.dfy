/**
 * The byte escaper (encode.c): every ESCAPE_BYTE becomes ESCAPE_BYTE ESCAPE_BYTE,
 * every SYNC_BYTE becomes ESCAPE_BYTE ESCAPE_SYNC_BYTE, so that the sync value
 * the modem sends as a preamble never appears in the payload.
 */
module Escape {
  import opened Bytes
  import opened Protocol

  predicate IsReserved(b: byte)
  {
    b == EscapeByte || b == SyncByte
  }

  /** How many bytes of `s` need an extra escape byte. */
  function ReservedCount(s: seq<byte>): (n: nat)
    ensures n <= |s|
  {
    if s == [] then 0 else (if IsReserved(s[0]) then 1 else 0) + ReservedCount(s[1..])
  }

  /** The escape code of one byte. */
  function EscapedByte(b: byte): (r: seq<byte>)
    ensures |r| == if IsReserved(b) then 2 else 1
    ensures SyncByte !in r
  {
    if b == EscapeByte then [EscapeByte, EscapeByte]
    else if b == SyncByte then [EscapeByte, EscapeSyncByte]
    else [b]
  }

  /** The escaped stream: the concatenation of the escape codes of the bytes of `s`, in order. */
  function Escaped(s: seq<byte>): (r: seq<byte>)
    ensures |r| == |s| + ReservedCount(s)
    ensures SyncByte !in r
  {
    if s == [] then [] else EscapedByte(s[0]) + Escaped(s[1..])
  }

  lemma {:induction false} ReservedCountAppend(a: seq<byte>, b: seq<byte>)
    ensures ReservedCount(a + b) == ReservedCount(a) + ReservedCount(b)
  {
    if a != [] {
      assert (a + b)[1..] == a[1..] + b;
      ReservedCountAppend(a[1..], b);
    } else {
      assert a + b == b;
    }
  }

  lemma {:induction false} EscapedAppend(a: seq<byte>, b: seq<byte>)
    ensures Escaped(a + b) == Escaped(a) + Escaped(b)
  {
    if a != [] {
      assert (a + b)[1..] == a[1..] + b;
      EscapedAppend(a[1..], b);
    } else {
      assert a + b == b;
    }
  }

  /** Escaping one more byte extends the escaped prefix by that byte's code. */
  lemma EscapedSnoc(s: seq<byte>, i: nat)
    requires i < |s|
    ensures Escaped(s[..i + 1]) == Escaped(s[..i]) + EscapedByte(s[i])
    ensures ReservedCount(s[..i + 1]) == ReservedCount(s[..i]) + (if IsReserved(s[i]) then 1 else 0)
  {
    assert s[..i + 1] == s[..i] + [s[i]];
    EscapedAppend(s[..i], [s[i]]);
    ReservedCountAppend(s[..i], [s[i]]);
  }

  /**
   * The write index of the copy loop after `i` input bytes, `i + ReservedCount(s[..i])`,
   * never passes the final size `|s| + ReservedCount(s)`.
   */
  lemma WriteIndexBound(s: seq<byte>, i: nat)
    requires i <= |s|
    ensures i + ReservedCount(s[..i]) <= |s| + ReservedCount(s)
  {
    assert s == s[..i] + s[i..];
    ReservedCountAppend(s[..i], s[i..]);
  }

  /** countEscapeBytes: how many of the first `bufferSize` bytes are ESCAPE_BYTE or SYNC_BYTE. */
  method CountEscapeBytes(buffer: array<byte>, bufferSize: nat) returns (count: nat)
    requires bufferSize <= buffer.Length
    ensures count == ReservedCount(buffer[..bufferSize])
  {
    count := 0;
    for i := 0 to bufferSize
      invariant count == ReservedCount(buffer[..i])
    {
      EscapedSnoc(buffer[..bufferSize], i);
      assert buffer[..bufferSize][..i] == buffer[..i];
      assert buffer[..bufferSize][..i + 1] == buffer[..i + 1];
      if buffer[i] == EscapeByte {
        count := count + 1;
      } else if buffer[i] == SyncByte {
        count := count + 1;
      }
    }
  }

  /** The value escapeBuffer returns on allocation failure: -1 as an `unsigned int`. */
  const EscapeFailed: nat := U32Limit - 1

  /**
   * escapeBuffer. With nothing to escape the buffer and its size are handed back
   * unchanged. Otherwise a fresh buffer of `bufferSize + count` bytes receives the
   * escaped stream and replaces the old one; if that allocation fails
   * (`allocationFails`), nothing changes and the result is -1.
   */
  method EscapeBuffer(buffer: array<byte>, bufferSize: nat, allocationFails: bool)
    returns (status: nat, newBuffer: array<byte>, newBufferSize: nat)
    requires bufferSize <= buffer.Length
    ensures ReservedCount(buffer[..bufferSize]) == 0 ==>
      status == 0 && newBuffer == buffer && newBufferSize == bufferSize
    ensures ReservedCount(buffer[..bufferSize]) != 0 && allocationFails ==>
      status == EscapeFailed && newBuffer == buffer && newBufferSize == bufferSize
    ensures ReservedCount(buffer[..bufferSize]) != 0 && !allocationFails ==>
      status == 0 && fresh(newBuffer) &&
      newBufferSize == newBuffer.Length == bufferSize + ReservedCount(buffer[..bufferSize]) &&
      newBuffer[..] == Escaped(buffer[..bufferSize])
  {
    var escapeCount := CountEscapeBytes(buffer, bufferSize);
    if escapeCount == 0 {
      return 0, buffer, bufferSize;
    }
    var size := bufferSize + escapeCount;
    if allocationFails {
      return EscapeFailed, buffer, bufferSize;
    }
    var newBuf := new byte[size];
    CopyEscaped(buffer, bufferSize, newBuf);
    return 0, newBuf, size;
  }

  /** The escape code of byte i of `s` starts at offset i + ReservedCount(s[..i]) of its escaped stream. */
  lemma EscapedAt(s: seq<byte>, i: nat, j: nat, code: seq<byte>)
    requires i < |s| && j == i + ReservedCount(s[..i]) && code == EscapedByte(s[i])
    ensures j + |code| <= |Escaped(s)|
    ensures forall t :: 0 <= t < |code| ==> Escaped(s)[j + t] == code[t]
  {
    assert s == s[..i] + s[i..];
    EscapedAppend(s[..i], s[i..]);
    assert s[i..][1..] == s[i + 1..];
  }

  /**
   * The copy loop of escapeBuffer: input index i and output index j advance together,
   * j by two for a reserved byte, and the output is the escaped stream of the input.
   */
  method CopyEscaped(buffer: array<byte>, bufferSize: nat, newBuf: array<byte>)
    requires bufferSize <= buffer.Length && newBuf != buffer
    requires newBuf.Length == bufferSize + ReservedCount(buffer[..bufferSize])
    modifies newBuf
    ensures newBuf[..] == Escaped(buffer[..bufferSize])
  {
    ghost var s := buffer[..bufferSize];
    ghost var out := Escaped(s);
    var i, j := 0, 0;
    while i < bufferSize
      invariant 0 <= i <= bufferSize
      invariant j == i + ReservedCount(s[..i]) <= newBuf.Length
      invariant forall k :: 0 <= k < j ==> newBuf[k] == out[k]
    {
      EscapedSnoc(s, i);
      WriteIndexBound(s, i + 1);
      ghost var code := EscapedByte(s[i]);
      ghost var start := j;
      EscapedAt(s, i, j, code);
      j := WriteEscapeCode(newBuf, j, buffer[i]);
      forall k | 0 <= k < j
        ensures newBuf[k] == out[k]
      {
        if k >= start {
          assert newBuf[start + (k - start)] == code[k - start] == out[start + (k - start)];
        }
      }
      i := i + 1;
    }
    assert s[..bufferSize] == s;
    assert newBuf[..] == out;
  }

  /**
   * One step of the copy loop: the escape code of `b` is written from index j, and
   * the index after it is returned.
   */
  method WriteEscapeCode(newBuf: array<byte>, j: nat, b: byte) returns (next: nat)
    requires j + |EscapedByte(b)| <= newBuf.Length
    modifies newBuf
    ensures next == j + |EscapedByte(b)|
    ensures forall k :: 0 <= k < newBuf.Length && !(j <= k < next) ==> newBuf[k] == old(newBuf[k])
    ensures forall t :: 0 <= t < |EscapedByte(b)| ==> newBuf[j + t] == EscapedByte(b)[t]
  {
    next := j;
    if b == EscapeByte {
      newBuf[next] := EscapeByte;
      next := next + 1;
      newBuf[next] := EscapeByte;
    } else if b == SyncByte {
      newBuf[next] := EscapeByte;
      next := next + 1;
      newBuf[next] := EscapeSyncByte;
    } else {
      newBuf[next] := b;
    }
    next := next + 1;
  }
}
