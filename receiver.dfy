/**
 * The receiving script (sgex.py): the inverse of the escape code, and the
 * sanity checks on the decompressed transmission before the save is written.
 */
module Receiver {
  import opened Bytes
  import opened Protocol
  import Escape

  /** How decoding an escaped stream ends. */
  datatype Decoded =
    | Ok(bytes: seq<byte>)
    | Corrupt    // ESCAPE_BYTE followed by a byte other than ESCAPE_BYTE or ESCAPE_SYNC_BYTE
    | PastEnd    // ESCAPE_BYTE as the very last byte: `message[i + 1]` is out of range

  /** What the Python function gives its caller: a string, or an IndexError it raises. */
  datatype Unescaped = Returned(text: seq<byte>) | IndexError

  function Prepend(b: byte, d: Decoded): Decoded
  {
    if d.Ok? then Ok([b] + d.bytes) else d
  }

  /** Reference reading of an escaped stream, one escape code at a time from the front. */
  function Decode(m: seq<byte>): (d: Decoded)
    ensures d.Ok? ==> |d.bytes| <= |m|
  {
    if m == [] then Ok([])
    else if m[0] != EscapeByte then Prepend(m[0], Decode(m[1..]))
    else if |m| == 1 then PastEnd
    else if m[1] == EscapeByte then Prepend(EscapeByte, Decode(m[2..]))
    else if m[1] == EscapeSyncByte then Prepend(SyncByte, Decode(m[2..]))
    else Corrupt
  }

  /** The Python results: corruption is reported by returning the empty string. */
  function AsReturned(d: Decoded): Unescaped
  {
    match d
    case Ok(s) => Returned(s)
    case Corrupt => Returned([])
    case PastEnd => IndexError
  }

  function PrefixedBy(acc: seq<byte>, d: Decoded): Decoded
  {
    if d.Ok? then Ok(acc + d.bytes) else d
  }

  /** unescape: the copy loop over index `i`, appending to an accumulator. */
  method Unescape(message: seq<byte>) returns (r: Unescaped)
    ensures r == AsReturned(Decode(message))
  {
    var escapedMessage: seq<byte> := [];
    var i := 0;
    while i < |message|
      invariant 0 <= i <= |message|
      invariant Decode(message) == PrefixedBy(escapedMessage, Decode(message[i..]))
    {
      ghost var rest := message[i..];
      if message[i] == EscapeByte {
        if i + 1 == |message| {
          return IndexError;
        }
        assert rest[2..] == message[i + 2..];
        if message[i + 1] == EscapeByte {
          assert Decode(rest) == Prepend(EscapeByte, Decode(message[i + 2..]));
          escapedMessage := escapedMessage + [EscapeByte];
          i := i + 1;
        } else if message[i + 1] == EscapeSyncByte {
          assert Decode(rest) == Prepend(SyncByte, Decode(message[i + 2..]));
          escapedMessage := escapedMessage + [SyncByte];
          i := i + 1;
        } else {
          return Returned([]);
        }
      } else {
        assert rest[1..] == message[i + 1..];
        assert Decode(rest) == Prepend(message[i], Decode(message[i + 1..]));
        escapedMessage := escapedMessage + [message[i]];
      }
      i := i + 1;
    }
    assert message[i..] == [];
    return Returned(escapedMessage);
  }

  /** A stream without the escape byte 0x54 reads back unchanged. */
  lemma {:induction false} DecodeWithoutEscape(m: seq<byte>)
    requires EscapeByte !in m
    ensures Decode(m) == Ok(m)
  {
    if m != [] {
      assert m[0] != EscapeByte by { assert m[0] in m; }
      assert EscapeByte !in m[1..] by {
        forall k | 0 <= k < |m| - 1 ensures m[1..][k] != EscapeByte { assert m[1..][k] == m[k + 1]; }
      }
      DecodeWithoutEscape(m[1..]);
      assert [m[0]] + m[1..] == m;
    }
  }

  /** Reading the escape code of one byte, then anything, reads back that byte first. */
  lemma DecodeEscapedByte(b: byte, t: seq<byte>)
    ensures Decode(Escape.EscapedByte(b) + t) == Prepend(b, Decode(t))
  {
    var m := Escape.EscapedByte(b) + t;
    if b == EscapeByte || b == SyncByte {
      assert m[2..] == t;
    } else {
      assert m[1..] == t;
    }
  }

  /** Round trip: unescaping the escaped stream of any bytes gives those bytes back. */
  lemma {:induction false} DecodeEscaped(s: seq<byte>)
    ensures Decode(Escape.Escaped(s)) == Ok(s)
  {
    if s != [] {
      DecodeEscaped(s[1..]);
      DecodeEscapedByte(s[0], Escape.Escaped(s[1..]));
      assert [s[0]] + s[1..] == s;
    }
  }

  /** Once a well-formed prefix has been read, decoding continues with the rest. */
  lemma {:induction false} DecodeAppend(p: seq<byte>, t: seq<byte>)
    requires Decode(p).Ok?
    ensures Decode(p + t) == PrefixedBy(Decode(p).bytes, Decode(t))
  {
    if p == [] {
      assert p + t == t;
    } else {
      var n := if p[0] != EscapeByte then 1 else 2;
      var c := if p[0] != EscapeByte then p[0] else if p[1] == EscapeByte then EscapeByte else SyncByte;
      assert |p| >= n && (p + t)[..n] == p[..n];
      assert Decode(p) == Prepend(c, Decode(p[n..]));
      assert (p + t)[n..] == p[n..] + t;
      assert Decode(p + t) == Prepend(c, Decode(p[n..] + t));
      DecodeAppend(p[n..], t);
      PrefixedByPrepend(c, Decode(p[n..]).bytes, Decode(t));
    }
  }

  lemma PrefixedByPrepend(c: byte, acc: seq<byte>, d: Decoded)
    ensures Prepend(c, PrefixedBy(acc, d)) == PrefixedBy([c] + acc, d)
  {
    if d.Ok? {
      AppendAssoc([c], acc, d.bytes);
    }
  }

  /** After a well-formed prefix, ESCAPE_BYTE followed by any other byte is corruption. */
  lemma InvalidEscapeIsCorrupt(p: seq<byte>, x: byte, t: seq<byte>)
    requires Decode(p).Ok?
    requires x != EscapeByte && x != EscapeSyncByte
    ensures Decode(p + [EscapeByte, x] + t) == Corrupt
  {
    assert p + [EscapeByte, x] + t == p + ([EscapeByte, x] + t);
    DecodeAppend(p, [EscapeByte, x] + t);
  }

  /** After a well-formed prefix, a lone ESCAPE_BYTE at the end reads past the end. */
  lemma TrailingEscapeReadsPastEnd(p: seq<byte>)
    requires Decode(p).Ok?
    ensures Decode(p + [EscapeByte]) == PastEnd
  {
    DecodeAppend(p, [EscapeByte]);
  }

  /** Why the script stops without writing a save. */
  datatype Rejection =
    | UnescapeFailed   // unescape gave the empty string
    | UnescapeCrashed  // unescape raised IndexError
    | TooSmall         // fewer than TRANSMISSION_HEADER_SIZE bytes
    | BadMagic         // bytes 0..4 are not "SGEX"
    | WrongLength      // TRANSMISSION_HEADER_SIZE + saveSize differs from the length

  datatype Received<T> = Accepted(value: T) | Rejected(why: Rejection)

  /**
   * The first check of the script on the escaped input: an empty result of
   * `unescape` counts as corruption, even when the input itself was empty.
   */
  function ReceiveEscaped(message: seq<byte>): (r: Received<seq<byte>>)
    ensures r.Accepted? <==> Decode(message).Ok? && Decode(message).bytes != []
    ensures r.Accepted? ==> r.value == Decode(message).bytes
  {
    match AsReturned(Decode(message))
    case IndexError => Rejected(UnescapeCrashed)
    case Returned(s) => if s == [] then Rejected(UnescapeFailed) else Accepted(s)
  }

  /** The escaped stream of every non-empty buffer passes the check and yields that buffer. */
  lemma ReceiveEscapedRoundTrip(s: seq<byte>)
    requires s != []
    ensures ReceiveEscaped(Escape.Escaped(s)) == Accepted(s)
  {
    DecodeEscaped(s);
  }

  /** What the script takes out of a decompressed transmission that passes its checks. */
  datatype Transmission = Transmission(md5Hash: seq<byte>, saveName: seq<byte>, saveSize: nat, saveData: seq<byte>)

  /**
   * The checks of `main` after decompression, in order: the length is at least
   * the 36-byte header, bytes 0..4 are "SGEX", the size read big-endian from
   * bytes 32..36 plus 36 is the whole length; the save data is bytes 36 on.
   */
  function CheckTransmission(buf: seq<byte>): (r: Received<Transmission>)
    ensures r.Accepted? <==>
      |buf| >= 36 && buf[..4] == TransmissionMagic && 36 + FromBigEndian(buf[32..36]) == |buf|
    ensures r.Accepted? ==>
      r.value.saveData == buf[36..] && |r.value.saveData| == r.value.saveSize &&
      r.value.md5Hash == buf[4..20] && r.value.saveName == buf[20..31]
  {
    if |buf| < TransmissionHeaderSize then Rejected(TooSmall)
    else if buf[..TransmissionMagicSize] != TransmissionMagic then Rejected(BadMagic)
    else
      var saveSize := FromBigEndian(buf[SizeOffset..TransmissionHeaderSize]);
      if TransmissionHeaderSize + saveSize != |buf| then Rejected(WrongLength)
      else Accepted(Transmission(buf[HashOffset..FilenameOffset], buf[FilenameOffset..FilenameOffset + 11],
                                 saveSize, buf[TransmissionHeaderSize..]))
  }
}
