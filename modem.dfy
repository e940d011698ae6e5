/**
 * The transmit session of saturn-minimodem.c: a transfer buffer handed over by
 * the caller, a batch loop that sends up to 128 of its bytes per call as FSK
 * frames, and the status API around it. Tones go to the audio back end as
 * samples; the model also records them, symbolically, in `tones`. The B button is
 * an oracle: `keyB(n)` is what the n-th read of the pad returns.
 */
module Minimodem {
  import opened Bytes
  import opened Protocol
  import opened Fsk
  import opened Audio

  /** Results of SaturnMinimodem_transfer. */
  const TransferError: int := -1
  const TransferProgress: int := 1
  const TransferComplete: int := 2
  const TransferBusy: int := 3

  /** Bytes per sample of the output stream: signed 16-bit, one channel. */
  const FrameSize: nat := 2

  /** The longest tone the audio back end's first write can stage (156000 bytes). */
  const MaxToneSamples: nat := 78000

  /** Why a batch ended. */
  datatype BatchEnd = AudioBusy | KeyPressed | BufferDone | BatchFull | SyncByteFound

  /** A whole batch, 128 frames included, fits in the audio staging buffer. */
  lemma BatchFitsAudioBuffer(consumed: seq<byte>)
    requires |consumed| <= MaxBatchBytes
    ensures FrameSize * TotalSamples(BatchTrace(consumed)) <= MaxAudioBufferSize
  {
    BatchSamplesBound(consumed);
  }

  class Modem {
    /** The audio back end the tones are written to; it also holds g_isRunning. */
    const audio: AudioSink
    /** What the n-th read of the B button returns. */
    const keyB: nat -> bool
    var keyPolls: nat
    /** The samples the tone generator synthesises for a mark or space tone. */
    const waveform: ToneEvent -> seq<byte>

    /** g_TransferBuffer (None for NULL), g_TransferBufferSize and g_TransferProgress. */
    var transferBuffer: Option<seq<byte>>
    var transferSize: nat
    var transferProgress: nat
    /** tx_transmitting: 0 idle, 1 leader sent, 2 preamble sent. */
    var transmitting: nat
    /** The tones emitted so far. */
    ghost var tones: seq<ToneEvent>

    ghost predicate Valid()
      reads this, audio
    {
      audio.Valid() &&
      transferProgress <= transferSize < U32Limit &&
      (transferBuffer.Some? ==> transferSize <= |transferBuffer.value|) &&
      transmitting <= 2
    }

    /** The session before initTransfer: no buffer, nothing sent. */
    constructor (audio: AudioSink, keyB: nat -> bool, waveform: ToneEvent -> seq<byte>)
      requires audio.Valid()
      ensures Valid() && this.audio == audio && this.keyB == keyB && this.waveform == waveform
      ensures transferBuffer == None && transferSize == 0 && transferProgress == 0
      ensures transmitting == 0 && keyPolls == 0 && tones == []
    {
      this.audio := audio;
      this.keyB := keyB;
      this.waveform := waveform;
      keyPolls := 0;
      transferBuffer := None;
      transferSize := 0;
      transferProgress := 0;
      transmitting := 0;
      tones := [];
    }

    /** The samples of one tone: the synthesised wave, or zeros for silence. */
    function ToneSamples(e: ToneEvent): (s: seq<byte>)
      ensures |s| == FrameSize * e.nsamples
      ensures e.tone == Silence ==> s == Zeros(FrameSize * e.nsamples)
    {
      if e.tone == Silence then Zeros(FrameSize * e.nsamples) else Fit(waveform(e), FrameSize * e.nsamples)
    }

    /** The B button was down at read `p`. */
    ghost predicate Pressed(p: nat)
    {
      keyB(p)
    }

    /** The B button was up at every read from `lo` up to, not including, `hi`. */
    ghost predicate NotPressed(lo: nat, hi: int)
    {
      forall p :: lo <= p < hi ==> !keyB(p)
    }

    /** jo_is_pad1_key_pressed(JO_KEY_B). */
    method PollKeyB() returns (pressed: bool)
      modifies this`keyPolls
      ensures pressed == keyB(old(keyPolls)) && keyPolls == old(keyPolls) + 1
    {
      pressed := keyB(keyPolls);
      keyPolls := keyPolls + 1;
    }

    /** simpleaudio_tone: the tone's samples are written to the back end, whose status is not looked at. */
    method EmitTone(e: ToneEvent)
      requires Valid() && e.nsamples <= MaxToneSamples
      modifies this`tones, audio, audio.buffer
      ensures Valid() && tones == old(tones) + [e]
      ensures old(audio.isRunning) ==> audio.isRunning
      ensures audio.played == old(audio.played)
      ensures old(audio.hasBuffer) && old(audio.size) + FrameSize * e.nsamples > MaxAudioBufferSize ==>
        audio.Staged() == old(audio.Staged())
      ensures !old(audio.hasBuffer) || old(audio.size) + FrameSize * e.nsamples <= MaxAudioBufferSize ==>
        audio.Staged() == old(audio.Staged()) + ToneSamples(e)
    {
      var status := audio.Write(ToneSamples(e), e.nsamples, FrameSize);
      tones := tones + [e];
    }

    /**
     * fsk_transmit_frame: the start tone, one tone per data bit taken from the least
     * or the most significant end, and the stop tone.
     */
    method TransmitFrame(bits: nat, nDataBits: nat, bitNSamples: nat, nStartBits: nat, nStopBits: nat,
                         invert: bool, msbFirst: bool)
      requires Valid()
      requires bitNSamples * nStartBits <= MaxToneSamples && bitNSamples * nStopBits <= MaxToneSamples
      requires bitNSamples <= MaxToneSamples
      modifies this`tones, audio, audio.buffer
      ensures Valid() && tones == old(tones) + FrameTones(bits, nDataBits, bitNSamples, nStartBits, nStopBits, invert, msbFirst)
      ensures old(audio.isRunning) ==> audio.isRunning
      ensures audio.played == old(audio.played)
    {
      if nStartBits > 0 {
        EmitTone(ToneEvent(StartTone(invert), bitNSamples * nStartBits));
      }
      EmitDataTones(bits, nDataBits, bitNSamples, msbFirst);
      if nStopBits > 0 {
        EmitTone(ToneEvent(StopTone(invert), bitNSamples * nStopBits));
      }
    }

    /** The data tones of a frame: bit i is `(bits >> i) & 1`, or `(bits >> (n-1-i)) & 1` most significant first. */
    method EmitDataTones(bits: nat, nDataBits: nat, bitNSamples: nat, msbFirst: bool)
      requires Valid() && bitNSamples <= MaxToneSamples
      modifies this`tones, audio, audio.buffer
      ensures Valid() && tones == old(tones) + DataTones(bits, nDataBits, bitNSamples, msbFirst)
      ensures old(audio.isRunning) ==> audio.isRunning
      ensures audio.played == old(audio.played)
    {
      ghost var data := DataTones(bits, nDataBits, bitNSamples, msbFirst);
      var i := 0;
      while i < nDataBits
        invariant 0 <= i <= nDataBits && Valid()
        invariant tones == old(tones) + data[..i]
        invariant old(audio.isRunning) ==> audio.isRunning
        invariant audio.played == old(audio.played)
      {
        var bit := if msbFirst then bits / Pow2(nDataBits - i - 1) % 2 else bits / Pow2(i) % 2;
        EmitTone(ToneEvent(if bit == 1 then Mark else Space, bitNSamples));
        assert data[..i + 1] == data[..i] + [data[i]];
        i := i + 1;
      }
      assert data[..nDataBits] == data;
    }

    /** The leader: LeaderBits mark tones, one bit long each. */
    method EmitLeader()
      requires Valid()
      modifies this`tones, audio, audio.buffer
      ensures Valid() && tones == old(tones) + LeaderTones()
      ensures old(audio.isRunning) ==> audio.isRunning
      ensures audio.played == old(audio.played)
    {
      var j := 0;
      while j < LeaderBits
        invariant 0 <= j <= LeaderBits && Valid()
        invariant tones == old(tones) + LeaderTones()[..j]
        invariant old(audio.isRunning) ==> audio.isRunning
        invariant audio.played == old(audio.played)
      {
        EmitTone(ToneEvent(if InvertStartStop then Space else Mark, BitNSamples));
        assert LeaderTones()[..j + 1] == LeaderTones()[..j] + [LeaderTones()[j]];
        j := j + 1;
      }
    }

    /** The preamble: SyncFrames frames of the sync byte, least significant bit first. */
    method EmitSyncPreamble()
      requires Valid()
      modifies this`tones, audio, audio.buffer
      ensures Valid() && tones == old(tones) + SyncPreamble()
      ensures old(audio.isRunning) ==> audio.isRunning
      ensures audio.played == old(audio.played)
    {
      var j := 0;
      while j < SyncFrames
        invariant 0 <= j <= SyncFrames && Valid()
        invariant tones == old(tones) + SyncFrameTones(j)
        invariant old(audio.isRunning) ==> audio.isRunning
        invariant audio.played == old(audio.played)
      {
        TransmitFrame(SyncByte as nat, DataBits, BitNSamples, StartBits, StopBits, InvertStartStop, false);
        AppendAssoc(old(tones), SyncFrameTones(j), ByteFrame(SyncByte as nat, false));
        j := j + 1;
      }
    }

    /**
     * The tones for one source byte: the leader when nothing has been sent yet, the
     * preamble when it has not been sent yet, then the byte's frame.
     */
    method SendByte(b: byte)
      requires Valid() && (transmitting == 0 || transmitting == 2)
      modifies this`tones, this`transmitting, audio, audio.buffer
      ensures Valid() && transmitting == 2
      ensures tones == old(tones) + FrameLead(old(transmitting) == 0) + ByteFrame(b as nat, MsbFirst)
      ensures old(audio.isRunning) ==> audio.isRunning
      ensures audio.played == old(audio.played)
    {
      ghost var t0, first := tones, transmitting == 0;
      if transmitting == 0 {
        transmitting := 1;
        EmitLeader();
      }
      if transmitting < 2 {
        transmitting := 2;
        EmitSyncPreamble();
        AppendAssoc(t0, LeaderTones(), SyncPreamble());
      }
      ghost var t1 := tones;
      assert t1 == t0 + FrameLead(first);
      TransmitFrame(b as nat, DataBits, BitNSamples, StartBits, StopBits, InvertStartStop, MsbFirst);
    }

    /** tx_stop_transmit_sighandler: the trailer marks, the flush silence, and transmitting cleared. */
    method StopTransmit()
      requires Valid()
      modifies this`tones, this`transmitting, audio, audio.buffer
      ensures Valid() && tones == old(tones) + TrailerTones() && transmitting == 0
      ensures old(audio.isRunning) ==> audio.isRunning
      ensures audio.played == old(audio.played)
    {
      ghost var marks := Repeat(ToneEvent(Mark, BitNSamples), TrailerBits);
      var j := 0;
      while j < TrailerBits
        invariant 0 <= j <= TrailerBits && Valid()
        invariant tones == old(tones) + marks[..j]
        invariant old(audio.isRunning) ==> audio.isRunning
        invariant audio.played == old(audio.played)
      {
        EmitTone(ToneEvent(Mark, BitNSamples));
        assert marks[..j + 1] == marks[..j] + [marks[j]];
        j := j + 1;
      }
      if FlushNSamples > 0 {
        EmitTone(ToneEvent(Silence, FlushNSamples));
      }
      transmitting := 0;
    }

    /**
     * fsk_transmit_buffer: one batch. The rounds of its loop run first (BatchRounds);
     * a batch they cut short at a sync byte returns at once, with no trailer and no
     * flush, and any other batch ends with the trailer and an audio flush.
     */
    method TransmitBuffer() returns (end: BatchEnd, ghost sent: seq<byte>)
      requires Valid() && transferBuffer.Some?
      modifies this`tones, this`transmitting, this`transferProgress, this`keyPolls, audio, audio.buffer
      ensures Valid() && transferBuffer == old(transferBuffer) && transferSize == old(transferSize)
      ensures old(transferProgress) <= transferProgress <= old(transferProgress) + MaxBatchBytes
      ensures var consumed := transferBuffer.value[old(transferProgress)..transferProgress];
              consumed == sent + (if end == SyncByteFound then [SyncByte] else []) &&
              SyncByte !in sent && tones == old(tones) + BatchTrace(consumed)
      ensures end == BufferDone ==> transferProgress == transferSize
      ensures end == BatchFull ==> transferProgress == old(transferProgress) + MaxBatchBytes
      ensures end == AudioBusy ==> audio.isRunning
      ensures end != SyncByteFound ==> transmitting == 0 && (audio.size == 0 || audio.isRunning)
    {
      ghost var t0 := tones;
      end, sent := BatchRounds();
      FinishBatch(end == SyncByteFound);
      BatchTraceAfter(t0, sent, end == SyncByteFound);
    }

    /**
     * The loop of fsk_transmit_buffer, from a cleared g_isRunning and tx_transmitting:
     * rounds run until one stops the batch or 128 of them have sent a byte. (The C loop
     * counts every round it starts and stops right after the 128th; only the last
     * round counted can be one that sent nothing, so counting the rounds that sent a
     * byte, and checking the count before the next round, is the same.)
     */
    method BatchRounds() returns (end: BatchEnd, ghost sent: seq<byte>)
      requires Valid() && transferBuffer.Some?
      modifies this`tones, this`transmitting, this`transferProgress, this`keyPolls, audio, audio.buffer
      ensures Valid() && old(transferProgress) <= transferProgress <= old(transferProgress) + MaxBatchBytes
      ensures transferBuffer.value[old(transferProgress)..transferProgress] ==
              sent + (if end == SyncByteFound then [SyncByte] else [])
      ensures SyncByte !in sent && tones == old(tones) + BatchPrefix(sent)
      ensures keyPolls == old(keyPolls) + (transferProgress - old(transferProgress))
                          + (if end == KeyPressed || end == BufferDone then 1 else 0)
      ensures NotPressed(old(keyPolls), keyPolls - (if end == KeyPressed then 1 else 0))
      ensures end == KeyPressed ==> keyPolls > old(keyPolls) && Pressed(keyPolls - 1)
      ensures end == BufferDone ==> transferProgress == transferSize
      ensures end == BatchFull ==> transferProgress == old(transferProgress) + MaxBatchBytes
      ensures end == AudioBusy ==> audio.isRunning
    {
      audio.isRunning := false;
      transmitting := 0;
      var buf := transferBuffer.value;
      ghost var p0 := transferProgress;
      ghost var t0 := tones;
      ghost var k0 := keyPolls;
      var counter := 0;
      while true
        invariant Valid() && transferBuffer == Some(buf) && transferSize == old(transferSize)
        invariant p0 <= transferProgress <= transferSize
        invariant counter <= MaxBatchBytes
        invariant keyPolls == k0 + counter && transferProgress == p0 + counter
        invariant SyncByte !in buf[p0..transferProgress]
        invariant tones == t0 + BatchPrefix(buf[p0..transferProgress])
        invariant transmitting == (if counter == 0 then 0 else 2)
        invariant NotPressed(k0, keyPolls)
        decreases MaxBatchBytes - counter
      {
        if counter == MaxBatchBytes {
          end, sent := BatchFull, buf[p0..transferProgress];
          break;
        }
        ghost var before := buf[p0..transferProgress];
        var stop := BatchRound(p0, t0, k0);
        if stop.Some? {
          end, sent := stop.value, before;
          break;
        }
        counter := counter + 1;
      }
    }

    /**
     * One round of the batch loop, in a batch that started at progress p0, tones t0
     * and key read k0. It stops the batch when the audio back end has seen the PCM
     * channel busy (without reading the B button), when the B button is down, or when
     * the buffer is used up; otherwise it consumes one byte. A sync byte stops the
     * batch without being sent; any other byte is sent and the result is None.
     */
    method BatchRound(ghost p0: nat, ghost t0: seq<ToneEvent>, ghost k0: nat) returns (stop: Option<BatchEnd>)
      requires Valid() && transferBuffer.Some? && p0 <= transferProgress
      requires transmitting == (if transferProgress == p0 then 0 else 2)
      requires SyncByte !in transferBuffer.value[p0..transferProgress]
      requires tones == t0 + BatchPrefix(transferBuffer.value[p0..transferProgress])
      requires NotPressed(k0, keyPolls)
      modifies this`tones, this`transmitting, this`transferProgress, this`keyPolls, audio, audio.buffer
      ensures Valid() && p0 <= transferProgress
      ensures transferProgress == old(transferProgress) + (if stop == None || stop == Some(SyncByteFound) then 1 else 0)
      ensures keyPolls == old(keyPolls) + (if stop == Some(AudioBusy) then 0 else 1)
      ensures NotPressed(k0, keyPolls - (if stop == Some(KeyPressed) then 1 else 0))
      ensures stop == Some(AudioBusy) ==> audio.isRunning
      ensures stop == Some(KeyPressed) ==> Pressed(old(keyPolls))
      ensures stop == Some(BufferDone) ==> transferProgress >= transferSize
      ensures stop.Some? ==>
        stop != Some(BatchFull) && tones == old(tones) &&
        transferBuffer.value[p0..transferProgress] ==
        old(transferBuffer.value[p0..transferProgress]) + (if stop == Some(SyncByteFound) then [SyncByte] else [])
      ensures stop == None ==>
        transmitting == 2 && SyncByte !in transferBuffer.value[p0..transferProgress] &&
        tones == t0 + BatchPrefix(transferBuffer.value[p0..transferProgress])
    {
      if audio.isRunning {
        return Some(AudioBusy);
      }
      var pressed := PollKeyB();
      if pressed {
        return Some(KeyPressed);
      }
      assert NotPressed(k0, keyPolls);
      if transferProgress >= transferSize {
        return Some(BufferDone);
      }
      var sync := SendNext(p0, t0);
      if sync {
        return Some(SyncByteFound);
      }
      return None;
    }

    /**
     * The end of a round that found a byte left: the byte is consumed, and sent
     * unless it is the sync byte (then the result is true and nothing is sent).
     */
    method SendNext(ghost p0: nat, ghost t0: seq<ToneEvent>) returns (sync: bool)
      requires Valid() && transferBuffer.Some? && p0 <= transferProgress < transferSize
      requires transmitting == (if transferProgress == p0 then 0 else 2)
      requires SyncByte !in transferBuffer.value[p0..transferProgress]
      requires tones == t0 + BatchPrefix(transferBuffer.value[p0..transferProgress])
      modifies this`tones, this`transmitting, this`transferProgress, audio, audio.buffer
      ensures Valid() && transferProgress == old(transferProgress) + 1
      ensures transferBuffer.value[p0..transferProgress] ==
              old(transferBuffer.value[p0..transferProgress]) + [transferBuffer.value[old(transferProgress)]]
      ensures sync <==> transferBuffer.value[old(transferProgress)] == SyncByte
      ensures sync ==> tones == old(tones)
      ensures !sync ==>
        transmitting == 2 && SyncByte !in transferBuffer.value[p0..transferProgress] &&
        tones == t0 + BatchPrefix(transferBuffer.value[p0..transferProgress])
    {
      ghost var before := transferBuffer.value[p0..transferProgress];
      var b := transferBuffer.value[transferProgress];
      SliceSnoc(transferBuffer.value, p0, transferProgress);
      assert (transmitting == 0) == (before == []);
      transferProgress := transferProgress + 1;
      if b == SyncByte {
        return true;
      }
      SendAfter(t0, before, b);
      return false;
    }

    /** Sending a byte other than the sync byte extends the batch's tones by its frame. */
    method SendAfter(ghost t0: seq<ToneEvent>, ghost before: seq<byte>, b: byte)
      requires Valid() && b != SyncByte && SyncByte !in before
      requires transmitting == (if before == [] then 0 else 2)
      requires tones == t0 + BatchPrefix(before)
      modifies this`tones, this`transmitting, audio, audio.buffer
      ensures Valid() && transmitting == 2 && SyncByte !in before + [b]
      ensures tones == t0 + BatchPrefix(before + [b])
    {
      SendByte(b);
      BatchPrefixSnocAfter(t0, before, b);
    }

    /**
     * The end of a batch: nothing when it was cut short at a sync byte (the C code
     * returns from inside the loop), otherwise the trailer and then an audio flush.
     */
    method FinishBatch(aborted: bool)
      requires Valid()
      modifies this`tones, this`transmitting, audio, audio.buffer
      ensures Valid() && tones == old(tones) + (if aborted then [] else TrailerTones())
      ensures old(audio.isRunning) ==> audio.isRunning
      ensures !aborted ==> transmitting == 0 && (audio.size == 0 || audio.isRunning)
      ensures aborted ==> transmitting == old(transmitting) && unchanged(audio) && unchanged(audio.buffer)
      ensures !aborted ==> |old(audio.played)| <= |audio.played| <= |old(audio.played)| + 1 &&
                           audio.played[..|old(audio.played)|] == old(audio.played)
    {
      if aborted {
        assert tones == old(tones) + [];
        return;
      }
      StopTransmit();
      var flushed := audio.Flush();
      transmitting := 0;
    }

    /**
     * SaturnMinimodem_initTransfer: a NULL buffer or a zero size gives -1 and changes
     * nothing; otherwise the buffer and size are stored and progress starts at 0.
     */
    method InitTransfer(data: Option<seq<byte>>, size: nat) returns (r: int)
      requires Valid() && size < U32Limit
      requires data.Some? ==> size <= |data.value|
      modifies this`transferBuffer, this`transferSize, this`transferProgress
      ensures Valid()
      ensures data.None? || size == 0 ==>
        r == -1 && transferBuffer == old(transferBuffer) && transferSize == old(transferSize) &&
        transferProgress == old(transferProgress)
      ensures data.Some? && size != 0 ==>
        r == 0 && transferBuffer == data && transferSize == size && transferProgress == 0
    {
      if data.None? {
        return -1;
      }
      if size == 0 {
        return -1;
      }
      transferBuffer := data;
      transferSize := size;
      transferProgress := 0;
      return 0;
    }

    /**
     * SaturnMinimodem_transferStatus with or without its two out-pointers: None (-1)
     * when either is NULL or no transfer is set up, otherwise (progress, size).
     */
    function TransferStatus(bytesTransferred: bool, totalBytes: bool): (r: Option<(nat, nat)>)
      reads this, audio, audio.buffer
      requires Valid()
      ensures r.None? <==> !bytesTransferred || !totalBytes || transferBuffer.None? || transferSize == 0
      ensures r.Some? ==> r.value.0 == transferProgress && r.value.1 == transferSize && r.value.0 <= r.value.1
    {
      if !bytesTransferred || !totalBytes then None
      else if transferBuffer.None? || transferSize == 0 then None
      else Some((transferProgress, transferSize))
    }

    /** The audio back end was read once and nothing else about it changed. */
    twostate predicate AudioOnlyPolled()
      reads this, audio, audio.buffer
    {
      audio.pcmPolls == old(audio.pcmPolls) + 1 && audio.size == old(audio.size) &&
      audio.hasBuffer == old(audio.hasBuffer) && audio.totalBytes == old(audio.totalBytes) &&
      audio.isRunning == old(audio.isRunning) && audio.played == old(audio.played) &&
      unchanged(audio.buffer)
    }

    /**
     * SaturnMinimodem_transfer: -1 without a transfer; 3 while the PCM channel is
     * busy; 2 once every byte is sent and the audio flushed, progress going back to 0;
     * otherwise 1, after a batch when bytes remain or after nothing at all when only
     * the audio is still staged.
     */
    method Transfer() returns (r: int)
      requires Valid()
      modifies this, audio, audio.buffer
      ensures Valid() && transferBuffer == old(transferBuffer) && transferSize == old(transferSize)
      ensures old(transferBuffer).None? || old(transferSize) == 0 ==>
        r == TransferError && unchanged(this) && unchanged(audio)
      ensures old(transferBuffer).Some? && old(transferSize) != 0 && audio.pcmBusy(old(audio.pcmPolls)) ==>
        r == TransferBusy && unchanged(this) && AudioOnlyPolled()
      ensures old(transferBuffer).Some? && old(transferSize) != 0 && !audio.pcmBusy(old(audio.pcmPolls)) &&
              old(transferProgress) >= old(transferSize) ==>
        tones == old(tones) && transmitting == old(transmitting) && keyPolls == old(keyPolls) &&
        AudioOnlyPolled() &&
        (old(audio.size) == 0 ==> r == TransferComplete && transferProgress == 0) &&
        (old(audio.size) != 0 ==> r == TransferProgress && transferProgress == old(transferProgress))
      ensures old(transferBuffer).Some? && old(transferSize) != 0 && !audio.pcmBusy(old(audio.pcmPolls)) &&
              old(transferProgress) < old(transferSize) ==>
        r == TransferProgress &&
        old(transferProgress) <= transferProgress <= old(transferProgress) + MaxBatchBytes &&
        tones == old(tones) + BatchTrace(transferBuffer.value[old(transferProgress)..transferProgress])
    {
      if transferBuffer.None? || transferSize == 0 {
        return TransferError;
      }
      var busy := audio.PollPcm();
      if busy {
        return TransferBusy;
      }
      if transferProgress >= transferSize {
        if audio.IsBufferFlushed() {
          transferProgress := 0;
          return TransferComplete;
        }
        // The batch is started with flushBufferOnly set, and returns at once.
        return TransferProgress;
      }
      var end, sent := TransmitBuffer();
      return TransferProgress;
    }
  }
}
