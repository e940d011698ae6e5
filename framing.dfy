/**
 * The two headers the sender builds in front of the save data (encode.c):
 * TRANSMISSION_HEADER, which the receiving script checks, and the BUP header
 * that describes the save to the backup library.
 */
module Framing {
  import opened Bytes
  import opened Protocol
  import Receiver

  /** Filename bytes `strncpy` copies into the header: one less than the field, whose last byte stays NUL. */
  const HeaderFilenameLength: nat := MaxSaveFilename - 1

  /** Status of the header initialisers on invalid parameters. */
  const InvalidParameters: int := -1

  /**
   * The 36 bytes a successful initializeTransmissionHeader leaves in the header:
   * "SGEX", the 16 hash bytes, the filename cut to 11 bytes and NUL-filled to 12,
   * then the save size. The size is stored in the byte order of the SH-2, which is
   * big-endian.
   */
  function TransmissionHeader(md5Hash: seq<byte>, saveFilename: seq<byte>, saveFileSize: nat): (h: seq<byte>)
    requires |md5Hash| >= Md5HashSize && saveFileSize < U32Limit
    ensures |h| == TransmissionHeaderSize
  {
    TransmissionMagic + md5Hash[..Md5HashSize] + StrNCopy(saveFilename, HeaderFilenameLength) + [0]
    + BigEndian32(saveFileSize)
  }

  /**
   * The header's fields sit at the offsets of the struct layout: magic, hash,
   * a filename field that always holds a NUL-terminated prefix of the name, and
   * the size that reads back as saveFileSize.
   */
  lemma TransmissionHeaderFields(md5Hash: seq<byte>, saveFilename: seq<byte>, saveFileSize: nat)
    requires |md5Hash| >= Md5HashSize && saveFileSize < U32Limit
    ensures var h := TransmissionHeader(md5Hash, saveFilename, saveFileSize);
            var len := if CStrLen(saveFilename) < HeaderFilenameLength then CStrLen(saveFilename) else HeaderFilenameLength;
            h[..HashOffset] == TransmissionMagic &&
            h[HashOffset..FilenameOffset] == md5Hash[..Md5HashSize] &&
            h[SizeOffset - 1] == 0 &&
            CStrLen(h[FilenameOffset..SizeOffset]) == len &&
            h[FilenameOffset..FilenameOffset + len] == saveFilename[..len] &&
            FromBigEndian(h[SizeOffset..TransmissionHeaderSize]) == saveFileSize
  {
    var h := TransmissionHeader(md5Hash, saveFilename, saveFileSize);
    var name := StrNCopy(saveFilename, HeaderFilenameLength) + [0];
    assert h == TransmissionMagic + md5Hash[..Md5HashSize] + name + BigEndian32(saveFileSize);
    assert h[FilenameOffset..SizeOffset] == name;
    assert h[SizeOffset..TransmissionHeaderSize] == BigEndian32(saveFileSize);
    StrNCopyTerminated(saveFilename, HeaderFilenameLength);
    var len := if CStrLen(saveFilename) < HeaderFilenameLength then CStrLen(saveFilename) else HeaderFilenameLength;
    assert h[FilenameOffset..FilenameOffset + len] == name[..len];
    BigEndian32RoundTrip(saveFileSize);
  }

  /**
   * The receiving script accepts a header followed by exactly saveFileSize bytes
   * and reads back the hash, the 11 filename bytes, the size and the save data.
   * (What the sender actually compresses has the BUP header in between; that
   * stream is not covered here.)
   */
  lemma ReceiverAcceptsHeader(md5Hash: seq<byte>, saveFilename: seq<byte>, saveFileSize: nat, save: seq<byte>)
    requires |md5Hash| >= Md5HashSize && saveFileSize < U32Limit && |save| == saveFileSize
    ensures Receiver.CheckTransmission(TransmissionHeader(md5Hash, saveFilename, saveFileSize) + save)
            == Receiver.Accepted(Receiver.Transmission(md5Hash[..Md5HashSize], StrNCopy(saveFilename, HeaderFilenameLength),
                                                      saveFileSize, save))
  {
    var h := TransmissionHeader(md5Hash, saveFilename, saveFileSize);
    var buf := h + save;
    TransmissionHeaderFields(md5Hash, saveFilename, saveFileSize);
    assert buf[..TransmissionHeaderSize] == h;
    assert buf[..4] == h[..4];
    assert buf[SizeOffset..TransmissionHeaderSize] == h[SizeOffset..TransmissionHeaderSize];
    assert buf[HashOffset..FilenameOffset] == h[HashOffset..FilenameOffset];
    assert buf[FilenameOffset..FilenameOffset + 11] == h[FilenameOffset..FilenameOffset + 11]
        == StrNCopy(saveFilename, HeaderFilenameLength);
    assert buf[TransmissionHeaderSize..] == save;
  }

  /** Whether initializeTransmissionHeader accepts its parameters. */
  predicate TransmissionHeaderArgsValid(headerPresent: bool, md5Hash: Option<seq<byte>>, md5HashSize: nat,
                                        saveFilename: Option<seq<byte>>, saveFileSize: nat)
  {
    headerPresent && md5Hash.Some? && md5HashSize == Md5HashSize && saveFilename.Some? && saveFileSize != 0
  }

  /**
   * initializeTransmissionHeader on the shared transmission buffer `data` (NULL when
   * not allocated). Invalid parameters give -1 and leave the buffer alone; otherwise
   * the header bytes are zeroed and then filled, the rest of the buffer is untouched,
   * and the result is 0.
   */
  method InitializeTransmissionHeader(data: array?<byte>, md5Hash: Option<seq<byte>>, md5HashSize: nat,
                                      saveFilename: Option<seq<byte>>, saveFileSize: nat)
    returns (r: int)
    requires data != null ==> data.Length >= TransmissionHeaderSize
    requires md5Hash.Some? && md5HashSize == Md5HashSize ==> |md5Hash.value| >= Md5HashSize
    requires saveFileSize < U32Limit
    modifies data
    ensures !TransmissionHeaderArgsValid(data != null, md5Hash, md5HashSize, saveFilename, saveFileSize) ==>
      r == InvalidParameters && (data != null ==> unchanged(data))
    ensures TransmissionHeaderArgsValid(data != null, md5Hash, md5HashSize, saveFilename, saveFileSize) ==>
      r == 0 &&
      data[..TransmissionHeaderSize] == TransmissionHeader(md5Hash.value, saveFilename.value, saveFileSize) &&
      data[TransmissionHeaderSize..] == old(data[TransmissionHeaderSize..])
  {
    if data == null || md5Hash.None? || md5HashSize != Md5HashSize || saveFilename.None? || saveFileSize == 0 {
      return InvalidParameters;
    }
    ghost var rest := data[TransmissionHeaderSize..];
    forall k | 0 <= k < TransmissionHeaderSize {
      data[k] := 0;
    }
    forall k | 0 <= k < TransmissionMagicSize {
      data[k] := TransmissionMagic[k];
    }
    forall k | 0 <= k < Md5HashSize {
      data[HashOffset + k] := md5Hash.value[k];
    }
    var name := StrNCopy(saveFilename.value, HeaderFilenameLength);
    forall k | 0 <= k < HeaderFilenameLength {
      data[FilenameOffset + k] := name[k];
    }
    var size := BigEndian32(saveFileSize);
    forall k | 0 <= k < 4 {
      data[SizeOffset + k] := size[k];
    }
    ghost var h := TransmissionHeader(md5Hash.value, saveFilename.value, saveFileSize);
    assert forall k :: 0 <= k < TransmissionHeaderSize ==> data[k] == h[k];
    assert data[..TransmissionHeaderSize] == h;
    assert data[TransmissionHeaderSize..] == rest;
    return 0;
  }

  // The backup library's limits (jo engine): an 11-character filename, a 10-character comment.
  const BackupMaxFilenameLength: nat := 11
  const BackupMaxCommentLength: nat := 10

  /** "Vmem" in ASCII. */
  const VmemMagic: seq<byte> := [0x56, 0x6D, 0x65, 0x6D]

  /** The directory entry of a save inside the BUP header. */
  datatype BupDir = BupDir(filename: seq<byte>, comment: seq<byte>, language: byte, date: nat, datasize: nat, blocksize: nat)

  /** The BUP header: magic, directory entry, and the date once more. */
  datatype BupHeader = BupHeader(magic: seq<byte>, dir: BupDir, date: nat)

  /**
   * initializeBUPHeader: a NULL filename or comment or an empty save gives -1.
   * Otherwise the header holds the "Vmem" magic, at most 11 filename bytes and 11
   * comment bytes as strncpy leaves them, the language, date and size, a zero block
   * size, and the date also in the header's own date field.
   */
  function InitializeBupHeader(saveFilename: Option<seq<byte>>, saveComment: Option<seq<byte>>, saveLanguage: byte,
                               date: nat, saveFileSize: nat): (r: Option<BupHeader>)
    ensures r.None? <==> saveFilename.None? || saveComment.None? || saveFileSize == 0
    ensures r.Some? ==>
      r.value.magic == VmemMagic && r.value.dir.datasize == saveFileSize && r.value.dir.blocksize == 0 &&
      r.value.date == r.value.dir.date == date && r.value.dir.language == saveLanguage &&
      |r.value.dir.filename| == BackupMaxFilenameLength && |r.value.dir.comment| == BackupMaxCommentLength + 1
    ensures r.Some? ==>
      r.value.dir.filename == StrNCopy(saveFilename.value, BackupMaxFilenameLength) &&
      r.value.dir.comment == StrNCopy(saveComment.value, BackupMaxCommentLength + 1)
  {
    if saveFilename.None? || saveComment.None? || saveFileSize == 0 then None
    else
      Some(BupHeader(VmemMagic,
                     BupDir(StrNCopy(saveFilename.value, BackupMaxFilenameLength),
                            StrNCopy(saveComment.value, BackupMaxCommentLength + 1),
                            saveLanguage, date, saveFileSize, 0),
                     date))
  }

  /** Status of initializeBUPHeader as the C function returns it. */
  function BupHeaderStatus(r: Option<BupHeader>): int
  {
    if r.None? then InvalidParameters else 0
  }

  /**
   * The BUP filename holds the save's name as a C string, up to 11 characters:
   * the header names the same save as the transmission header, whose field is the
   * same prefix of the name. This holds because two assumed constants agree: the
   * backup library's filename limit, taken as 11, and MAX_SAVE_FILENAME - 1 with
   * MAX_SAVE_FILENAME taken as 12. Neither definition is part of this model.
   */
  lemma BupFilenameMatchesHeader(md5Hash: seq<byte>, saveFilename: seq<byte>, saveComment: seq<byte>, saveLanguage: byte,
                                 date: nat, saveFileSize: nat)
    requires |md5Hash| >= Md5HashSize && 0 < saveFileSize < U32Limit
    ensures var b := InitializeBupHeader(Some(saveFilename), Some(saveComment), saveLanguage, date, saveFileSize);
            var h := TransmissionHeader(md5Hash, saveFilename, saveFileSize);
            b.Some? && b.value.dir.filename == h[FilenameOffset..FilenameOffset + HeaderFilenameLength]
  {
    var h := TransmissionHeader(md5Hash, saveFilename, saveFileSize);
    var name := StrNCopy(saveFilename, HeaderFilenameLength);
    assert h == TransmissionMagic + md5Hash[..Md5HashSize] + name + [0] + BigEndian32(saveFileSize);
    assert h[FilenameOffset..FilenameOffset + HeaderFilenameLength] == name;
  }
}
