/**
 * Constants of the transmission format: the Reed-Solomon code shape, the
 * reserved byte values of the escape code, and the layout of the fixed
 * transmission header that precedes the save data.
 */
module Protocol {
  import opened Bytes

  // Reed-Solomon code shape: a 255-byte codeword carries 223 data bytes and 32 parity bytes.
  const CodewordSize: nat := 255
  const ParityBytes: nat := 32
  const DataChunkSize: nat := CodewordSize - ParityBytes

  // Reserved byte values.
  const SyncByte: byte := 0xAB
  const EscapeSyncByte: byte := 0x9F
  const EscapeByte: byte := 0x54

  // Generator of the code: 32 consecutive roots starting at alpha^1, one apart.
  const RsFirstConsecutiveRoot: nat := 1
  const RsRootGap: nat := 1
  const RsNumRoots: nat := 32
  /** Field primitive polynomial x^8 + x^7 + x^2 + x + 1 (the CCSDS one); the receiver names it too. */
  const RsPrimitivePolynomial: nat := 0x187

  // Transmission header: magic[4] | md5Hash[16] | saveFilename[MaxSaveFilename] | saveFileSize (u32).
  const TransmissionMagicSize: nat := 4
  /** "SGEX" in ASCII. */
  const TransmissionMagic: seq<byte> := [0x53, 0x47, 0x45, 0x58]
  const Md5HashSize: nat := 16
  const MaxSaveFilename: nat := 12
  const HashOffset: nat := TransmissionMagicSize
  const FilenameOffset: nat := HashOffset + Md5HashSize
  const SizeOffset: nat := FilenameOffset + MaxSaveFilename
  const TransmissionHeaderSize: nat := SizeOffset + 4

  /** The derived code constants have the values the rest of the program relies on. */
  lemma CodeShape()
    ensures DataChunkSize == 223
    ensures RsNumRoots == ParityBytes
    ensures DataChunkSize + ParityBytes == CodewordSize < 256
  {
  }

  /** The three reserved values differ, so an escaped stream can be read back unambiguously. */
  lemma ReservedBytesDistinct()
    ensures SyncByte != EscapeByte && SyncByte != EscapeSyncByte && EscapeByte != EscapeSyncByte
  {
  }

  /** The header fields follow one another without gaps and fill 36 bytes, the size last. */
  lemma HeaderLayout()
    ensures |TransmissionMagic| == TransmissionMagicSize
    ensures HashOffset == 4 && FilenameOffset == 20 && SizeOffset == 32
    ensures TransmissionHeaderSize == 36
  {
  }
}
