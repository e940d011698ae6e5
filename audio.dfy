/**
 * The Saturn audio back end of simpleaudio (simpleaudio-saturn.c): a staging
 * buffer that tone samples are appended to, and a flush that pads it to a
 * minimum length and hands it to the PCM channel. The PCM channel's status
 * register is an oracle: `pcmBusy(n)` is what the n-th read of it returns.
 * The memory the first write allocates is the array `buffer`, which exists from
 * the start; `hasBuffer` says whether g_AudioBuffer points to it yet.
 */
module Audio {
  import opened Bytes

  /** The shortest sound handed to the PCM channel, in bytes. */
  const FlushBufferMin: nat := 26000
  /** The capacity of the staging buffer: six times the minimum. */
  const MaxAudioBufferSize: nat := 156000

  /** Status of a write that does not fit. */
  const WriteFailed: int := -1

  /**
   * The sound a successful flush plays for the staged bytes: those bytes,
   * zero-padded to FlushBufferMin when shorter.
   */
  function HandOff(staged: seq<byte>): (h: seq<byte>)
    ensures |h| == if |staged| < FlushBufferMin then FlushBufferMin else |staged|
    ensures h[..|staged|] == staged
    ensures forall k :: |staged| <= k < |h| ==> h[k] == 0
  {
    if |staged| < FlushBufferMin then staged + Zeros(FlushBufferMin - |staged|) else staged
  }

  /** Whatever fits in the staging buffer is played as a sound of 26000 to 156000 bytes. */
  lemma HandOffBounds(staged: seq<byte>)
    requires |staged| <= MaxAudioBufferSize
    ensures FlushBufferMin <= |HandOff(staged)| <= MaxAudioBufferSize
  {
  }

  class AudioSink {
    /** The block g_AudioBuffer points to once `hasBuffer` is set (until then it is NULL). */
    const buffer: array<byte>
    var hasBuffer: bool
    /** g_AudioBufferSize: how many staged bytes the buffer holds. */
    var size: nat
    /** totalBytes: every byte ever offered to `Write`, as an `unsigned int`. */
    var totalBytes: nat
    /** g_isRunning: set when the PCM channel was found busy. */
    var isRunning: bool
    /** How many times the PCM status has been read, and what each read returns. */
    var pcmPolls: nat
    const pcmBusy: nat -> bool
    /** The sounds actually started on the PCM channel, in order. */
    var played: seq<seq<byte>>

    ghost predicate Valid()
      reads this
    {
      buffer.Length == MaxAudioBufferSize && size <= MaxAudioBufferSize &&
      (!hasBuffer ==> size == 0) && totalBytes < U32Limit
    }

    /** The bytes staged for the next flush. */
    ghost function Staged(): (s: seq<byte>)
      reads this, buffer
      requires Valid()
      ensures |s| == size
    {
      buffer[..size]
    }

    /** The back end before any write: no buffer, nothing staged, nothing played. */
    constructor (pcmBusy: nat -> bool)
      ensures Valid() && !hasBuffer && size == 0 && totalBytes == 0 && !isRunning
      ensures pcmPolls == 0 && this.pcmBusy == pcmBusy && played == []
    {
      buffer := new byte[MaxAudioBufferSize];
      hasBuffer := false;
      size := 0;
      totalBytes := 0;
      isRunning := false;
      pcmPolls := 0;
      this.pcmBusy := pcmBusy;
      played := [];
    }

    /** slPCMStat: one read of the PCM channel status. */
    method PollPcm() returns (busy: bool)
      modifies this`pcmPolls
      ensures busy == pcmBusy(old(pcmPolls)) && pcmPolls == old(pcmPolls) + 1
    {
      busy := pcmBusy(pcmPolls);
      pcmPolls := pcmPolls + 1;
    }

    /** sa_saturn_is_buffer_flushed: true exactly when nothing is staged. */
    function IsBufferFlushed(): (b: bool)
      reads this, buffer
      requires Valid()
      ensures b <==> Staged() == []
    {
      size == 0
    }

    /**
     * sa_saturn_write of `frames`, nframes frames of framesize bytes. The first write
     * allocates the buffer at full capacity, zeroes it and copies without a capacity
     * check. A later write that does not fit returns -1 and stages nothing; otherwise
     * the bytes are appended. A write that stages its bytes then reads the PCM status:
     * busy sets isRunning and returns 1, idle returns nframes.
     */
    method Write(frames: seq<byte>, nframes: nat, framesize: nat) returns (r: int)
      requires Valid() && |frames| == nframes * framesize
      requires !hasBuffer ==> |frames| <= MaxAudioBufferSize
      modifies this, buffer
      ensures Valid() && played == old(played) && hasBuffer
      ensures totalBytes == (old(totalBytes) + |frames|) % U32Limit
      ensures old(hasBuffer) && old(size) + |frames| > MaxAudioBufferSize ==>
        r == WriteFailed && size == old(size) && unchanged(buffer) &&
        isRunning == old(isRunning) && pcmPolls == old(pcmPolls)
      ensures !old(hasBuffer) || old(size) + |frames| <= MaxAudioBufferSize ==>
        Staged() == old(Staged()) + frames && pcmPolls == old(pcmPolls) + 1 &&
        (pcmBusy(old(pcmPolls)) ==> r == 1 && isRunning) &&
        (!pcmBusy(old(pcmPolls)) ==> r == nframes && isRunning == old(isRunning))
    {
      var nbytes := |frames|;
      totalBytes := (totalBytes + nbytes) % U32Limit;
      if !hasBuffer {
        size := nbytes;
        hasBuffer := true;
        forall k | 0 <= k < MaxAudioBufferSize {
          buffer[k] := 0;
        }
        forall k | 0 <= k < nbytes {
          buffer[k] := frames[k];
        }
        assert buffer[..size] == frames;
      } else {
        if size + nbytes > MaxAudioBufferSize {
          return WriteFailed;
        }
        ghost var staged := buffer[..size];
        forall k | 0 <= k < nbytes {
          buffer[size + k] := frames[k];
        }
        size := size + nbytes;
        assert buffer[..size] == staged + frames by {
          assert forall k :: 0 <= k < |staged| ==> buffer[k] == staged[k];
        }
      }
      var busy := PollPcm();
      if busy {
        isRunning := true;
        return 1;
      }
      return nframes;
    }

    /**
     * jo_audio_play_sound_on_channel2: reads the PCM status once more and starts the
     * sound only if the channel is idle.
     */
    method PlaySound(sound: seq<byte>)
      modifies this`pcmPolls, this`played
      ensures pcmPolls == old(pcmPolls) + 1
      ensures played == old(played) + (if pcmBusy(old(pcmPolls)) then [] else [sound])
    {
      var busy := PollPcm();
      if !busy {
        played := played + [sound];
      }
    }

    /**
     * sa_saturn_flush_buffer. Nothing staged: true, nothing changes. PCM busy: isRunning
     * is set, false is returned and the staged bytes stay. Otherwise the staged bytes,
     * zero-padded to FlushBufferMin, are handed to the PCM channel, the buffer is
     * emptied and the result is true.
     */
    method Flush() returns (ok: bool)
      requires Valid()
      modifies this, buffer
      ensures Valid() && totalBytes == old(totalBytes) && hasBuffer == old(hasBuffer)
      ensures old(size) == 0 ==> ok && unchanged(this) && unchanged(buffer)
      ensures old(size) != 0 && pcmBusy(old(pcmPolls)) ==>
        !ok && isRunning && size == old(size) && unchanged(buffer) &&
        pcmPolls == old(pcmPolls) + 1 && played == old(played)
      ensures old(size) != 0 && !pcmBusy(old(pcmPolls)) ==>
        ok && size == 0 && isRunning == old(isRunning) && pcmPolls == old(pcmPolls) + 2 &&
        played == old(played) + (if pcmBusy(old(pcmPolls) + 1) then [] else [HandOff(old(Staged()))])
    {
      if IsBufferFlushed() {
        return true;
      }
      var busy := PollPcm();
      if busy {
        isRunning := true;
        return false;
      }
      ghost var staged := buffer[..size];
      if size < FlushBufferMin {
        forall k | size <= k < FlushBufferMin {
          buffer[k] := 0;
        }
        assert buffer[..FlushBufferMin] == HandOff(staged) by {
          assert forall k :: 0 <= k < |staged| ==> buffer[k] == staged[k];
        }
        size := FlushBufferMin;
      }
      assert buffer[..size] == HandOff(staged);
      PlaySound(buffer[..size]);
      size := 0;
      return true;
    }
  }
}
