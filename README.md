# Save Game Extractor: the transmit pipeline, verified in Dafny

Save Game Extractor gets a Sega Saturn save off the console as sound. The console
side builds a transmission: a 36-byte `TRANSMISSION_HEADER` ("SGEX", MD5 hash,
filename, size), the save data, compression, Reed-Solomon coding in 223-byte chunks
with 32 parity bytes each, and an escape code that removes every sync byte 0xAB.
It then plays the escaped stream as binary FSK through the PCM channel, in batches of
up to 128 bytes. Each batch is a leader, a preamble of two sync frames, one frame per
byte and a trailer. A PC script (`sgex.py`) records the sound, undoes the escape
code and checks the header.

This project models that pipeline and proves properties of the model:

| file | module | source |
|---|---|---|
| `bytes.dfy` | `Bytes` | bytes, `strncpy`, big-endian 32-bit integers |
| `protocol.dfy` | `Protocol` | the constants and header layout of `encode.h` |
| `escape.dfy` | `Escape` | `countEscapeBytes`, `escapeBuffer` (`encode.c`) |
| `receiver.dfy` | `Receiver` | `unescape` and the header checks of `sgex.py` |
| `codeword.dfy` | `Codeword` | `correct_reed_solomon_encode` (`libcorrect/encode.c`), as a class over the encoder's coefficient arrays |
| `fec.dfy` | `Fec` | `reedSolomonOutSize`, `reedSolomonEncode` (`encode.c`) |
| `framing.dfy` | `Framing` | `initializeTransmissionHeader`, `initializeBUPHeader` (`encode.c`) |
| `audio.dfy` | `Audio` | the Saturn back end of simpleaudio (`simpleaudio-saturn.c`), as a class over the staging buffer |
| `fsk.dfy` | `Fsk` | the tone sequences of `saturn-minimodem.c` as pure functions, and `isB64Char` |
| `modem.dfy` | `Minimodem` | the transmit session of `saturn-minimodem.c`, as a class over the transfer globals |

Notes on the model:

- **Tones.** A tone is a kind (mark, space, silence) and a length in samples. The
  modem records every tone it emits in a ghost sequence `tones`. The methods are
  proved against pure functions of `Fsk`: `FrameTones`, `BatchPrefix` and `BatchTrace`
  give the tones of a frame and of a batch.
- **Oracles.** The PCM status register and the B button are functions from the
  number of reads so far to a boolean. The samples synthesised for a tone are a
  function of the tone.
- **Reed-Solomon size.** The code writes `msg_length + 32` bytes for the last, short
  chunk. So the encoded size is `n + 32 * ceil(n / 223)`, not the `ceil(n / 223) * 255`
  that full 255-byte codewords would give. The model follows the code.
- **Header size field.** The header's size field is stored in the byte order of the
  SH-2, which is big-endian. The receiver reads it big-endian. `MAX_SAVE_FILENAME`
  comes from `main.h`, which is not part of this model. It is taken as 12, the value
  for which the receiver's offsets 20, 32 and 36 hold.
- **Backup limits.** The backup library's limits come from the jo engine, which is
  not part of this model. They are taken as 11 characters for a filename and 10 for
  a comment.
- **Data words.** The source turns each byte into data words with `encode(bits, buf)`.
  Its encoder, `databits_encode_ascii8`, is not part of this model. The model takes it
  to give one 8-bit data word equal to the byte, which is what an 8-bit ASCII encoder does.
- **flushBufferOnly.** The early return when `flushBufferOnly` is set
  (saturn-minimodem.c:328-332) is reachable. A batch whose final flush finds the
  PCM channel busy leaves audio staged after the last byte. The next calls then
  return `TRANSFER_PROGRESS` without flushing. They change nothing but the count of PCM status reads, which `Transfer` states.

## Model

| member | source | states |
|---|---|---|
| Bytes.StrNCopy | encode.c:47 | the field holds the source's C string cut to `n` bytes, then NUL bytes up to `n` |
| Bytes.StrNCopyTerminated | encode.c:47 | a `strncpy` field followed by a NUL byte is a C string: the first `min(strlen, n)` bytes of the source |
| Bytes.BigEndian32RoundTrip | sgex.py:146-147 | reading the four bytes of a 32-bit size most significant first gives the size back |
| Protocol.CodeShape | encode.h:11-21 | a chunk is 223 bytes, 223 + 32 = 255 < 256, and the number of roots equals the parity bytes |
| Protocol.ReservedBytesDistinct | encode.h:15-17 | 0xAB, 0x9F and 0x54 are pairwise distinct |
| Protocol.HeaderLayout | encode.h:25-32 | the magic is 4 bytes; the hash, filename and size start at 4, 20 and 32; the header is 36 bytes |
| Escape.ReservedCount | encode.c:154-171 | the number of bytes needing an extra escape byte is at most the buffer's length |
| Escape.EscapedByte | encode.c:201-219 | the escape code of a byte is 2 bytes for 0x54 and 0xAB and 1 byte otherwise, and never holds 0xAB |
| Escape.Escaped | encode.c:199-220 | the escaped stream is as long as the input plus its reserved bytes and holds no 0xAB |
| Escape.ReservedCountAppend | encode.c:154-171 | the reserved-byte count of a concatenation is the sum of the counts |
| Escape.EscapedAppend | encode.c:199-220 | escaping distributes over concatenation |
| Escape.EscapedSnoc | encode.c:199-220 | one more input byte appends its escape code and adds 1 to the count exactly when it is reserved |
| Escape.WriteIndexBound | encode.c:199-220 | the write index `i + count(prefix i)` never exceeds the new size |
| Escape.EscapedAt | encode.c:199-220 | the escape code of byte `i` sits at index `i + count(prefix i)` of the escaped stream |
| Escape.WriteEscapeCode | encode.c:201-219 | the loop body writes the escape code of one byte at `j`, returns `j` plus its length and leaves every other cell alone |
| Escape.CountEscapeBytes | encode.c:154-171 | the count is the number of 0x54 and 0xAB bytes in the buffer |
| Escape.CopyEscaped | encode.c:199-220 | the copy loop fills the new buffer with exactly the escaped stream |
| Escape.EscapeBuffer | encode.c:174-230 | no reserved byte: buffer, size and status 0 unchanged; allocation failure: -1 and buffer unchanged; otherwise a fresh buffer of size + count holding the escaped stream, status 0 |
| Receiver.Decode | sgex.py:41-75 | a successful decoding is never longer than the escaped stream |
| Receiver.DecodeWithoutEscape | sgex.py:41-75 | a stream without 0x54 decodes to itself |
| Receiver.Unescape | sgex.py:41-75 | the loop's result is the reference decoding: the decoded bytes, "" for a bad escape, IndexError for a trailing 0x54 |
| Receiver.DecodeEscapedByte | sgex.py:49-71 | decoding the escape code of a byte reads back that byte and continues after the code |
| Receiver.DecodeEscaped | sgex.py:41-75 | round trip: unescaping the escaped stream of any bytes gives those bytes |
| Receiver.DecodeAppend | sgex.py:41-75 | after a well-formed prefix, decoding continues with the rest |
| Receiver.InvalidEscapeIsCorrupt | sgex.py:64-67 | 0x54 followed by a byte other than 0x54 and 0x9F makes the result corrupt |
| Receiver.TrailingEscapeReadsPastEnd | sgex.py:49-51 | a lone 0x54 at the end reads past the end |
| Receiver.ReceiveEscaped | sgex.py:102-105 | the check passes exactly when decoding succeeds with a non-empty result, so an empty input also counts as corrupt |
| Receiver.ReceiveEscapedRoundTrip | sgex.py:102-105 | the escaped stream of any non-empty buffer passes the check and yields that buffer |
| Receiver.CheckTransmission | sgex.py:135-155 | the checks pass exactly when there are at least 36 bytes, the magic is "SGEX" and 36 + the big-endian size at 32..36 is the length; the hash is bytes 4..20, the name 20..31, the data 36.. |
| Codeword.MessagePolynomial | libcorrect/encode.c:9-30 | coefficient `k` of the message range holds message byte `minDistance + len - 1 - k`, and every other coefficient is 0 |
| Codeword.CoefficientRangesPartition | libcorrect/encode.c:16-30 | the two zero-filled ranges and the message range partition `[0, order]`, with the message at `order-pad-len+1 .. order-pad` |
| Codeword.Remainder | libcorrect/encode.c:34 | the remainder has `minDistance` coefficients |
| Codeword.Codeword | libcorrect/encode.c:38-44 | the codeword is `len + minDistance` bytes, the message first, then the remainder in reverse coefficient order |
| Codeword.Encoder.PolynomialMod | libcorrect/encode.c:34 | only the remainder is written, and it is the remainder of the message polynomial |
| Codeword.Encoder.ZeroCoefficients | libcorrect/encode.c:25-30 | the range is zeroed and the other coefficients are unchanged |
| Codeword.Encoder.StoreMessage | libcorrect/encode.c:12-17 | message byte `i` goes to coefficient `order - (i + pad)`, and every coefficient outside the message range is unchanged |
| Codeword.Encoder.LoadMessage | libcorrect/encode.c:9-30 | the coefficients are the message polynomial afterwards, with no stale coefficient left |
| Codeword.Encoder.StoreMessageOut | libcorrect/encode.c:38-40 | `encoded[i]` is message byte `i`, and nothing else is written |
| Codeword.Encoder.StoreRemainderOut | libcorrect/encode.c:42-44 | `encoded[len + i]` is remainder coefficient `minDistance - 1 - i`, and nothing else is written |
| Codeword.Encoder.StoreCodeword | libcorrect/encode.c:38-44 | exactly `len + minDistance` bytes at the offset become the codeword |
| Codeword.Encoder.Encode | libcorrect/encode.c:3-50 | a too-long message returns -1 and writes nothing; otherwise the result is `block_length` and exactly the codeword is written |
| Fec.ChunkCount | encode.c:113-120 | the chunk count is `ceil(n / 223)` |
| Fec.ReedSolomonOutSize | encode.c:111-123 | the size is `n + 32 * ceil(n / 223)` when that fits 32 bits, and 0 for 0 |
| Fec.OutSizeClosedForm | encode.c:111-123 | whole chunks give `n / 223 * 255`; otherwise `n / 223 * 255 + n % 223 + 32` |
| Fec.OutSizeMonotonic | encode.c:111-123 | more input never needs fewer chunks or output bytes |
| Fec.ChunkCodeword | encode.c:144 | the codeword of a chunk is 32 bytes longer than the chunk and starts with it |
| Fec.ChunkEncoder | encode.c:144 | the encoder of a chunk has the codeword shape |
| Fec.ChunkEncoderIsSystematic | libcorrect/encode.c:38-40 | every codeword starts with its chunk |
| Fec.EncodedStreamLength | encode.c:131-147 | the encoded stream is `n + 32 * ChunkCount(n)` bytes |
| Fec.EncodedStreamSize | encode.c:111-147 | the encoded stream is exactly `reedSolomonOutSize(n)` bytes |
| Fec.EncodedStreamAppend | encode.c:131-147 | a prefix of whole chunks is encoded on its own |
| Fec.StreamPrefix | encode.c:131-147 | the stream splits at any chunk boundary |
| Fec.ChunkPlacement | encode.c:131-146 | chunk `k`, read at offset `223k`, has its codeword at output offset `255k` |
| Fec.StreamIsSystematic | encode.c:131-147 | input byte `t` of chunk `k` appears at output offset `t + 32k` |
| Fec.LastChunk | encode.c:135-142 | with a short last chunk `k`, the stream ends `n - 223k + 32` bytes after `255k` |
| Fec.EncodeChunk | encode.c:144 | one call writes exactly the chunk's codeword at the offset |
| Fec.EncodeStreamChunk | encode.c:133-146 | one pass of the loop writes the bytes of the stream at `255k .. 255k + size + 32` and nothing else |
| Fec.ReedSolomonEncode | encode.c:127-150 | the result is 0, the first `reedSolomonOutSize(n)` output bytes are the encoded stream, and the rest are unchanged |
| Framing.TransmissionHeader | encode.c:43-48 | the header is 36 bytes |
| Framing.TransmissionHeaderFields | encode.c:43-48 | magic, hash, a NUL-terminated filename prefix and a size field that reads back as the size, at the struct offsets |
| Framing.ReceiverAcceptsHeader | sgex.py:135-155 | a header followed by exactly the save passes the receiver's checks, which read back hash, name, size and data |
| Framing.InitializeTransmissionHeader | encode.c:31-51 | invalid parameters: -1 and the buffer untouched; otherwise 0, the header bytes set and the rest of the buffer untouched |
| Framing.InitializeBupHeader | encode.c:53-81 | None exactly for a null filename or comment or size 0; otherwise "Vmem", the filename cut by `strncpy` to 11 bytes and the comment to 11 bytes, the language, size, block size 0 and the date in both places |
| Framing.BupFilenameMatchesHeader | encode.c:47-71 | the BUP filename equals the transmission header's filename field |
| Fsk.Bit | saturn-minimodem.c:222-224 | a bit is 0 or 1 |
| Fsk.BitTone | saturn-minimodem.c:227 | a data bit is sent as a mark or a space, never as silence |
| Fsk.BitToneInverse | saturn-minimodem.c:227 | reading the tone a bit is sent as gives the bit back, for both bit values |
| Fsk.DataTones | saturn-minimodem.c:219-232 | one `bit_nsamples` tone per data bit, in the chosen bit order |
| Fsk.LsbDataTonesDecode | saturn-minimodem.c:219-232 | least significant first, the data tones decode to `bits mod 2^n` |
| Fsk.DataTonesDecode | saturn-minimodem.c:219-232 | in either bit order, the data tones decode to `bits mod 2^n` |
| Fsk.FrameCarriesBits | saturn-minimodem.c:198-237 | a frame is a start tone, `n` data tones that decode to `bits mod 2^n`, and a stop tone |
| Fsk.FrameTones | saturn-minimodem.c:198-237 | a frame has one tone per start bit group, data bit and stop bit group present, and none of them is silence |
| Fsk.ByteFrameShape | saturn-minimodem.c:213-236 | a byte frame is 10 tones and 592 samples |
| Fsk.SyncPreambleFrames | saturn-minimodem.c:404-407 | the preamble is two frames of 0xAB, least significant bit first |
| Fsk.BatchTrace | saturn-minimodem.c:292-441 | a batch that consumed nothing emits only the trailer, and one whose first byte is 0xAB emits nothing |
| Fsk.BatchTraceCompleted | saturn-minimodem.c:341-437 | a batch without 0xAB is leader, preamble, data frames and trailer |
| Fsk.BatchTraceAborted | saturn-minimodem.c:369-377 | a batch ended by 0xAB has no trailer and no frame for it |
| Fsk.BatchTraceOf | saturn-minimodem.c:341-437 | only the last consumed byte can be 0xAB, and the tones are those of a completed or an aborted batch accordingly |
| Fsk.BatchPrefixSnoc | saturn-minimodem.c:391-416 | one more byte appends its frame, after the leader and preamble if it is the first |
| Fsk.DataFramesAt | saturn-minimodem.c:411-416 | the `k`-th data frame sits at `10k` |
| Fsk.BatchPrefixShape | saturn-minimodem.c:393-416 | a batch that sends bytes is the 2 leader tones and 2 sync frames, then one frame per byte |
| Fsk.BatchCarriesSync | saturn-minimodem.c:400-408 | the two frames after the leader decode to 0xAB |
| Fsk.BatchCarriesBytes | saturn-minimodem.c:410-416 | the `k`-th data frame decodes to the `k`-th byte sent |
| Fsk.PreambleSamples | saturn-minimodem.c:393-408 | leader and preamble last 1258 samples |
| Fsk.TrailerSamples | saturn-minimodem.c:281-285 | the trailer lasts 75 samples |
| Fsk.BatchPrefixSamples | saturn-minimodem.c:393-416 | a batch lasts 1258 + 592 samples per byte, or nothing when no byte is sent |
| Fsk.BatchSamplesBound | saturn-minimodem.c:341-437 | a batch of at most 128 bytes lasts at most 77109 samples |
| Fsk.IsB64Char | saturn-minimodem.c:239-272 | only ASCII characters are accepted |
| Fsk.IsB64CharAlphabet | saturn-minimodem.c:240-272 | `isB64Char` holds exactly for the 64 Base64 letters, '=', '\n' and ' ' |
| Audio.HandOff | simpleaudio-saturn.c:134-147 | the sound played is the staged bytes, zero-padded to 26000 when shorter |
| Audio.HandOffBounds | simpleaudio-saturn.c:134-147 | whatever fits in the buffer plays as 26000 to 156000 bytes |
| Audio.AudioSink.constructor | simpleaudio-saturn.c:106-110 | no buffer, nothing staged, nothing played |
| Audio.AudioSink.PollPcm | simpleaudio-saturn.c:122 | one read of the PCM status |
| Audio.AudioSink.IsBufferFlushed | simpleaudio-saturn.c:157-165 | true exactly when nothing is staged |
| Audio.AudioSink.Write | simpleaudio-saturn.c:169-220 | an append that does not fit returns -1 and changes nothing staged; otherwise the bytes are appended to the staged bytes, and the result is 1 with `g_isRunning` set when the PCM is busy, else `nframes`; `totalBytes` wraps at 2^32 |
| Audio.AudioSink.PlaySound | simpleaudio-saturn.c:62-89 | the sound starts only when the PCM channel is idle |
| Audio.AudioSink.Flush | simpleaudio-saturn.c:113-154 | empty: true, nothing changes; busy: false, `g_isRunning` set, nothing staged changes; otherwise the padded sound is handed off, the buffer emptied, true |
| Minimodem.BatchFitsAudioBuffer | saturn-minimodem.c:341-421 | the samples of a whole batch fit in the 156000-byte staging buffer |
| Minimodem.Modem.constructor | saturn-minimodem.c:45-49 | no transfer buffer, size and progress 0, not transmitting |
| Minimodem.Modem.ToneSamples | simple-tone-generator.c:139-193 | two bytes per sample, and zeros for silence |
| Minimodem.Modem.PollKeyB | saturn-minimodem.c:355 | one read of the B button |
| Minimodem.Modem.EmitTone | simple-tone-generator.c:127-206 | the tone is recorded; its samples are appended to the staged audio when they fit, and otherwise nothing staged changes; nothing is played and `g_isRunning` is never cleared |
| Minimodem.Modem.EmitDataTones | saturn-minimodem.c:219-232 | the loop emits exactly the data tones of the frame |
| Minimodem.Modem.TransmitFrame | saturn-minimodem.c:198-237 | exactly the frame's tones are emitted, and nothing is played |
| Minimodem.Modem.EmitLeader | saturn-minimodem.c:396-398 | the leader's two mark tones are emitted |
| Minimodem.Modem.EmitSyncPreamble | saturn-minimodem.c:403-407 | the two sync frames are emitted |
| Minimodem.Modem.SendByte | saturn-minimodem.c:385-416 | leader and preamble when not yet transmitting, then the byte's frame; afterwards `tx_transmitting` is 2; nothing is played |
| Minimodem.Modem.StopTransmit | saturn-minimodem.c:276-288 | the trailer's marks and flush silence, then `tx_transmitting` is 0; nothing is played |
| Minimodem.Modem.SendNext | saturn-minimodem.c:367-416 | the next byte is consumed; 0xAB is reported and not sent, any other byte's tones extend the batch |
| Minimodem.Modem.BatchRound | saturn-minimodem.c:343-381 | a round stops on a busy PCM without reading the pad, on a B press, or at the end of the buffer; otherwise it consumes one byte |
| Minimodem.Modem.BatchRounds | saturn-minimodem.c:334-432 | at most 128 bytes are consumed, only the last can be 0xAB, the tones are the batch prefix of the bytes sent, and the pad reads and the reason for stopping are accounted for |
| Minimodem.Modem.FinishBatch | saturn-minimodem.c:434-437 | an aborted batch changes neither the tones nor the audio; otherwise the trailer is emitted and the audio flushed, which plays at most one more sound after the earlier ones |
| Minimodem.Modem.TransmitBuffer | saturn-minimodem.c:292-441 | at most 128 bytes consumed, progress never past the size, and the tones emitted are exactly `BatchTrace` of the consumed bytes |
| Minimodem.Modem.InitTransfer | saturn-minimodem.c:443-460 | a null buffer or size 0 gives -1 and changes nothing; otherwise buffer and size are stored, progress 0 |
| Minimodem.Modem.TransferStatus | saturn-minimodem.c:462-478 | fails exactly when an out-pointer is null or no transfer is set up; otherwise (progress, size), with progress ≤ size |
| Minimodem.Modem.Transfer | saturn-minimodem.c:482-535 | -1 uninitialised; 3 on a busy PCM, with one status read and no other change to the session or the audio; 2 with progress reset when all is sent and flushed; 1 with nothing but the status read changed when all is sent and audio is still staged; otherwise 1, after one batch whose tones are `BatchTrace` of the bytes consumed |

## Left out

- MD5 (`calculateMD5Hash`) and zlib (`compressOutSize`, `compressBuffer`) are foreign library calls. The receiver's MD5 comparison, Reed-Solomon decoding and decompression are library calls too. The pipeline composition in `main.c` is UI code.
- `polynomial_mod` and GF(256) arithmetic are not modelled. The remainder is an uninterpreted function of the message polynomial, so the model proves no parity values. The generator the constants of `encode.h` select is not the one of CCSDS 131.0-B section 4, so no CCSDS conformance is claimed.
- Floating-point code is not modelled: the sine synthesis of `simple-tone-generator.c`, the float helpers of `saturn-minimodem.c`, the mark and space frequencies and the computation of `bit_nsamples`. `bit_nsamples` is the constant 37. The samples of a tone are an oracle of the tone, so the phase carried over from one tone to the next is not modelled.
- Hardware is not modelled: `slPCMStat`, `slPCMOn`, `jo_is_pad1_key_pressed` and the PCM pitch registers. They are oracles or left out. `jo_malloc` in `sa_saturn_write` and `simpleaudio_tone` is assumed to succeed. In `escapeBuffer` its failure is a parameter.
- Audio.AudioSink.Write: the first write's memory is an array that exists from the start, with `hasBuffer` standing for a non-NULL `g_AudioBuffer`. That first write requires at most 156000 bytes, because the code copies without a check.
- Minimodem.Modem.FinishBatch does not say which sound the flush plays, only that at most one is added. The staged bytes of the trailer tones are not carried through the emitters.
- Audio.AudioSink.Flush: `played` records a copy of the sound. The code hands `g_AudioBuffer` itself to `slPCMOn`, and the next `sa_saturn_write` overwrites it from offset 0. The model does not capture that aliasing. It is harmless only because `SaturnMinimodem_transfer` returns busy while the channel plays.
- Escape.EscapeBuffer: the code adds the escape count to the size in `unsigned int` (encode.c:188), which would wrap for inputs of 2^31 bytes or more. The model's sum does not wrap. Such a buffer cannot exist in the Saturn's memory.
- The idle-carrier branch under `if(1==1)` in `fsk_transmit_buffer` (saturn-minimodem.c:382-383, 423-430) is dead and not modelled.
- Minimodem.Modem.BatchRounds: the C loop counts every round it starts and stops after the 128th. The model counts the rounds that sent a byte and checks before the next round. Only a round that ended the batch can have sent nothing, so the two agree.
- Minimodem.Modem.TransmitBuffer does not restate the B-button facts. Those are stated on BatchRounds.
- The transfer buffer is held as a value, so the model does not capture the caller changing it during a transfer.
- Minimodem.BatchFitsAudioBuffer: the model proves that a batch's samples fit the staging buffer only as a pure bound. It does not prove that every `sa_saturn_write` of a batch succeeds, because audio staged by an earlier batch whose flush failed is not bounded.
- Framing.InitializeBupHeader: the BUP header is a record, not its byte layout, because the `BUP_HEADER` struct (jo engine) is not part of this model. `initializeBUPHeader`'s status is ignored by its caller.
- The receiver's length check counts the 36-byte header and the save, but the sender puts the BUP header between them. The model states no end-to-end match for that stream.
- The receiver's UTF-8 decoding of the magic and the name is not modelled. A magic that is not "SGEX" is rejected either way. A name that is not valid UTF-8 makes the script fail after its checks, which the model does not capture.
