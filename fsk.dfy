/**
 * Binary FSK framing (saturn-minimodem.c), on symbolic tones: a frame is a start
 * tone, one tone per data bit and a stop tone, and a batch of source bytes is a
 * leader, a preamble of sync frames, the data frames and a trailer. Frequencies
 * and sample synthesis are not modelled; a tone is its kind and its length in
 * samples.
 */
module Fsk {
  import opened Bytes
  import opened Protocol

  /** Mark carries a 1, space a 0; silence is the zero-frequency flush tone. */
  datatype Tone = Mark | Space | Silence

  /** One simpleaudio_tone call: a tone held for `nsamples` samples. */
  datatype ToneEvent = ToneEvent(tone: Tone, nsamples: nat)

  /** The transmitter configuration the session is initialised with. */
  const BitNSamples: nat := 37        // 44100 samples/s over 1200 bits/s, rounded
  const DataBits: nat := 8
  const StartBits: nat := 4
  const StopBits: nat := 4
  const InvertStartStop: bool := false
  const MsbFirst: bool := false
  const LeaderBits: nat := 2
  const TrailerBits: nat := 2
  const SyncFrames: nat := 2
  /** An interactive transmitter ends with one sample of silence. */
  const FlushNSamples: nat := 1
  /** One batch consumes at most this many source bytes. */
  const MaxBatchBytes: nat := 128

  /** `(bits >> i) & 1`. */
  function Bit(bits: nat, i: nat): (b: nat)
    ensures b < 2
  {
    bits / Pow2(i) % 2
  }

  /** The tone a data bit is sent as: mark for 1, space otherwise; never silence. */
  function BitTone(bit: nat): (t: Tone)
    ensures t != Silence
  {
    if bit == 1 then Mark else Space
  }

  /** The value a data tone carries. */
  function ToneBit(e: ToneEvent): (b: nat)
    ensures b < 2
    ensures b == 1 <==> e.tone == Mark
  {
    if e.tone == Mark then 1 else 0
  }

  /** Reading a data tone gives back the bit it was sent for, and the tone read back is the tone sent. */
  lemma BitToneInverse(bit: nat, n: nat)
    requires bit < 2
    ensures ToneBit(ToneEvent(BitTone(bit), n)) == bit
    ensures BitTone(ToneBit(ToneEvent(BitTone(bit), n))) == BitTone(bit)
  {
  }

  /** Data bit `i` of a frame: counted from the least or from the most significant end. */
  function DataBit(bits: nat, n: nat, i: nat, msbFirst: bool): (b: nat)
    requires i < n
    ensures b < 2
  {
    if msbFirst then Bit(bits, n - 1 - i) else Bit(bits, i)
  }

  /** The n data tones of a frame, in transmission order. */
  function DataTones(bits: nat, n: nat, bitNSamples: nat, msbFirst: bool): (ts: seq<ToneEvent>)
    ensures |ts| == n
    ensures forall i :: 0 <= i < n ==> ts[i].nsamples == bitNSamples && ToneBit(ts[i]) == DataBit(bits, n, i, msbFirst)
  {
    seq(n, i requires 0 <= i < n => ToneEvent(BitTone(DataBit(bits, n, i, msbFirst)), bitNSamples))
  }

  function StartTone(invert: bool): Tone
  {
    if invert then Mark else Space
  }

  function StopTone(invert: bool): Tone
  {
    if invert then Space else Mark
  }

  /** What fsk_transmit_frame emits: start tone (if any), data tones, stop tone (if any). */
  function FrameTones(bits: nat, n: nat, bitNSamples: nat, nStartBits: nat, nStopBits: nat,
                      invert: bool, msbFirst: bool): (ts: seq<ToneEvent>)
    ensures |ts| == (if nStartBits > 0 then 1 else 0) + n + (if nStopBits > 0 then 1 else 0)
    ensures forall i :: 0 <= i < |ts| ==> ts[i].tone != Silence
  {
    (if nStartBits > 0 then [ToneEvent(StartTone(invert), bitNSamples * nStartBits)] else [])
    + DataTones(bits, n, bitNSamples, msbFirst)
    + (if nStopBits > 0 then [ToneEvent(StopTone(invert), bitNSamples * nStopBits)] else [])
  }

  /** A receiver's reading of data tones that arrive least significant bit first. */
  function DecodeLsbFirst(ts: seq<ToneEvent>): nat
  {
    if ts == [] then 0 else ToneBit(ts[0]) + 2 * DecodeLsbFirst(ts[1..])
  }

  /** A receiver's reading of data tones in either bit order. */
  function DecodeDataTones(ts: seq<ToneEvent>, msbFirst: bool): nat
  {
    DecodeLsbFirst(if msbFirst then Reversed(ts) else ts)
  }

  /** A positive multiple of d is at least d. */
  lemma MulAtLeast(d: nat, k: nat)
    requires k >= 1
    ensures d * k >= d
  {
    assert d * k == d * (k - 1) + d;
  }

  /** Division with remainder is unique. */
  lemma DivModUnique(a: nat, d: nat, q: nat, r: nat)
    requires 0 <= r < d && a == d * q + r
    ensures a / d == q && a % d == r
  {
    var q' := a / d;
    if q' < q {
      MulAtLeast(d, q - q');
      assert false;
    } else if q' > q {
      MulAtLeast(d, q' - q);
      assert false;
    }
  }

  /** `bits >> (i+1)` is `(bits >> 1) >> i`. */
  lemma BitShift(bits: nat, i: nat)
    ensures Bit(bits, i + 1) == Bit(bits / 2, i)
  {
    var h := bits / 2;
    var p := Pow2(i);
    var q := h / p;
    assert h == p * q + h % p;
    assert bits == (2 * p) * q + (2 * (h % p) + bits % 2);
    DivModUnique(bits, 2 * p, q, 2 * (h % p) + bits % 2);
    assert Pow2(i + 1) == 2 * p;
  }

  /** `bits mod 2^n` splits into its low bit and the rest. */
  lemma ModPow2Step(bits: nat, n: nat)
    requires n > 0
    ensures bits % Pow2(n) == bits % 2 + 2 * (bits / 2 % Pow2(n - 1))
  {
    var h := bits / 2;
    var p := Pow2(n - 1);
    assert h == p * (h / p) + h % p;
    assert bits == (2 * p) * (h / p) + (2 * (h % p) + bits % 2);
    DivModUnique(bits, 2 * p, h / p, 2 * (h % p) + bits % 2);
  }

  /** Least-significant-first data tones decode to the low n bits. */
  lemma {:induction false} LsbDataTonesDecode(bits: nat, n: nat, bitNSamples: nat)
    ensures DecodeLsbFirst(DataTones(bits, n, bitNSamples, false)) == bits % Pow2(n)
  {
    var ts := DataTones(bits, n, bitNSamples, false);
    if n > 0 {
      var rest := DataTones(bits / 2, n - 1, bitNSamples, false);
      forall i | 0 <= i < n - 1
        ensures ToneBit(ts[1..][i]) == ToneBit(rest[i])
      {
        BitShift(bits, i);
      }
      LsbDataTonesDecode(bits / 2, n - 1, bitNSamples);
      DecodeSameBits(ts[1..], rest);
      ModPow2Step(bits, n);
      assert Pow2(0) == 1;
    }
  }

  /** Decoding only looks at which tones are marks. */
  lemma {:induction false} DecodeSameBits(a: seq<ToneEvent>, b: seq<ToneEvent>)
    requires |a| == |b|
    requires forall i :: 0 <= i < |a| ==> ToneBit(a[i]) == ToneBit(b[i])
    ensures DecodeLsbFirst(a) == DecodeLsbFirst(b)
  {
    if a != [] {
      DecodeSameBits(a[1..], b[1..]);
    }
  }

  /**
   * Data tones decode to the low n bits of the value, `bits mod 2^n`, in either bit
   * order, when the receiver reads them in the order they were sent.
   */
  lemma DataTonesDecode(bits: nat, n: nat, bitNSamples: nat, msbFirst: bool)
    ensures DecodeDataTones(DataTones(bits, n, bitNSamples, msbFirst), msbFirst) == bits % Pow2(n)
  {
    LsbDataTonesDecode(bits, n, bitNSamples);
    if msbFirst {
      var ts := DataTones(bits, n, bitNSamples, true);
      DecodeSameBits(Reversed(ts), DataTones(bits, n, bitNSamples, false));
    }
  }

  /**
   * A frame is its start tone, the data tones and its stop tone, and the data
   * tones decode to `bits mod 2^n`.
   */
  lemma FrameCarriesBits(bits: nat, n: nat, bitNSamples: nat, nStartBits: nat, nStopBits: nat,
                         invert: bool, msbFirst: bool)
    requires nStartBits > 0 && nStopBits > 0
    ensures var f := FrameTones(bits, n, bitNSamples, nStartBits, nStopBits, invert, msbFirst);
            |f| == n + 2 &&
            f[0] == ToneEvent(StartTone(invert), bitNSamples * nStartBits) &&
            f[n + 1] == ToneEvent(StopTone(invert), bitNSamples * nStopBits) &&
            DecodeDataTones(f[1..n + 1], msbFirst) == bits % Pow2(n)
  {
    var f := FrameTones(bits, n, bitNSamples, nStartBits, nStopBits, invert, msbFirst);
    assert f[1..n + 1] == DataTones(bits, n, bitNSamples, msbFirst);
    DataTonesDecode(bits, n, bitNSamples, msbFirst);
  }

  /** Total length of a tone sequence in samples. */
  function TotalSamples(ts: seq<ToneEvent>): nat
  {
    if ts == [] then 0 else TotalSamples(ts[..|ts| - 1]) + ts[|ts| - 1].nsamples
  }

  lemma {:induction false} TotalSamplesAppend(a: seq<ToneEvent>, b: seq<ToneEvent>)
    ensures TotalSamples(a + b) == TotalSamples(a) + TotalSamples(b)
  {
    if b != [] {
      assert (a + b)[..|a + b| - 1] == a + b[..|b| - 1];
      TotalSamplesAppend(a, b[..|b| - 1]);
    } else {
      assert a + b == a;
    }
  }

  /** A sequence of n tones of s samples each lasts n * s samples. */
  lemma {:induction false} TotalSamplesUniform(ts: seq<ToneEvent>, s: nat)
    requires forall i :: 0 <= i < |ts| ==> ts[i].nsamples == s
    ensures TotalSamples(ts) == |ts| * s
  {
    if ts != [] {
      TotalSamplesUniform(ts[..|ts| - 1], s);
    }
  }

  /** The frame of one source byte, as the session is configured. */
  function ByteFrame(bits: nat, msbFirst: bool): seq<ToneEvent>
  {
    FrameTones(bits, DataBits, BitNSamples, StartBits, StopBits, InvertStartStop, msbFirst)
  }

  const FrameLength: nat := DataBits + 2
  const FrameSamples: nat := BitNSamples * (StartBits + DataBits + StopBits)

  /** A configured frame is 10 tones and 592 samples long. */
  lemma ByteFrameShape(bits: nat, msbFirst: bool)
    ensures |ByteFrame(bits, msbFirst)| == FrameLength
    ensures TotalSamples(ByteFrame(bits, msbFirst)) == FrameSamples
  {
    var start := [ToneEvent(StartTone(InvertStartStop), BitNSamples * StartBits)];
    var data := DataTones(bits, DataBits, BitNSamples, msbFirst);
    var stop := [ToneEvent(StopTone(InvertStartStop), BitNSamples * StopBits)];
    TotalSamplesAppend(start + data, stop);
    TotalSamplesAppend(start, data);
    TotalSamplesUniform(data, BitNSamples);
    assert TotalSamples(start) == BitNSamples * StartBits by {
      assert start[..0] == [];
    }
    assert TotalSamples(stop) == BitNSamples * StopBits by {
      assert stop[..0] == [];
    }
  }

  /** `n` copies of one tone. */
  function Repeat(e: ToneEvent, n: nat): (ts: seq<ToneEvent>)
    ensures |ts| == n && forall i :: 0 <= i < n ==> ts[i] == e
  {
    seq(n, _ => e)
  }

  /** The leader emitted before the first byte of a batch: mark tones, one bit long. */
  function LeaderTones(): seq<ToneEvent>
  {
    Repeat(ToneEvent(if InvertStartStop then Space else Mark, BitNSamples), LeaderBits)
  }

  /** n frames of the sync byte, always least significant bit first. */
  function SyncFrameTones(n: nat): seq<ToneEvent>
  {
    if n == 0 then [] else SyncFrameTones(n - 1) + ByteFrame(SyncByte as nat, false)
  }

  /** The preamble: SyncFrames frames of the sync byte. */
  function SyncPreamble(): seq<ToneEvent>
  {
    SyncFrameTones(SyncFrames)
  }

  /** The preamble is two sync frames. */
  lemma SyncPreambleFrames()
    ensures SyncPreamble() == ByteFrame(SyncByte as nat, false) + ByteFrame(SyncByte as nat, false)
  {
    var f := ByteFrame(SyncByte as nat, false);
    calc {
      SyncPreamble();
      SyncFrameTones(1) + f;
      (SyncFrameTones(0) + f) + f;
      { assert [] + f == f; }
      f + f;
    }
  }

  /** The frames of the bytes sent, in order. */
  function DataFrames(sent: seq<byte>): seq<ToneEvent>
  {
    if sent == [] then [] else DataFrames(sent[..|sent| - 1]) + ByteFrame(sent[|sent| - 1] as nat, MsbFirst)
  }

  /** The trailer emitted when a batch stops: mark tones, then the flush silence. */
  function TrailerTones(): seq<ToneEvent>
  {
    Repeat(ToneEvent(Mark, BitNSamples), TrailerBits)
    + (if FlushNSamples > 0 then [ToneEvent(Silence, FlushNSamples)] else [])
  }

  /** What goes before a byte's frame: the leader and preamble for the first byte of a batch. */
  function FrameLead(first: bool): seq<ToneEvent>
  {
    if first then LeaderTones() + SyncPreamble() else []
  }

  /** The tones of a batch that has sent `sent` so far: leader and preamble once the first byte goes out. */
  function BatchPrefix(sent: seq<byte>): seq<ToneEvent>
  {
    (if sent == [] then [] else LeaderTones() + SyncPreamble()) + DataFrames(sent)
  }

  /**
   * The tones of a whole batch given the bytes it consumed. A last byte equal to
   * the sync byte is not sent: the batch ends there without a trailer. Otherwise
   * every consumed byte is sent and the trailer follows.
   */
  function BatchTrace(consumed: seq<byte>): (ts: seq<ToneEvent>)
    ensures consumed == [] ==> ts == TrailerTones()
    ensures consumed == [SyncByte] ==> ts == []
  {
    if consumed != [] && consumed[|consumed| - 1] == SyncByte then BatchPrefix(consumed[..|consumed| - 1])
    else BatchPrefix(consumed) + TrailerTones()
  }

  /** A batch that met no sync byte is its prefix and the trailer. */
  lemma BatchTraceCompleted(consumed: seq<byte>)
    requires SyncByte !in consumed
    ensures BatchTrace(consumed) == BatchPrefix(consumed) + TrailerTones()
  {
    if consumed != [] {
      assert consumed[|consumed| - 1] in consumed;
    }
  }

  /** A batch cut short by a sync byte has no trailer and does not send that byte. */
  lemma BatchTraceAborted(sent: seq<byte>)
    ensures BatchTrace(sent + [SyncByte]) == BatchPrefix(sent)
  {
    assert (sent + [SyncByte])[..|sent|] == sent;
  }

  /**
   * A batch that sent `sent`, no sync byte among them, and then stopped at a sync
   * byte or not: the bytes it consumed hold no sync byte before the last, the last
   * is the sync byte exactly when it stopped there, and its tones are the prefix,
   * followed by the trailer when it did not stop there.
   */
  lemma BatchTraceOf(sent: seq<byte>, aborted: bool)
    requires SyncByte !in sent
    ensures var consumed := sent + (if aborted then [SyncByte] else []);
            (forall k :: 0 <= k < |consumed| - 1 ==> consumed[k] != SyncByte) &&
            (aborted <==> consumed != [] && consumed[|consumed| - 1] == SyncByte) &&
            BatchTrace(consumed) == BatchPrefix(sent) + (if aborted then [] else TrailerTones())
  {
    if aborted {
      BatchTraceAborted(sent);
    } else {
      assert sent + [] == sent;
      BatchTraceCompleted(sent);
    }
  }

  /** The same, with the tones that came before the batch in front. */
  lemma BatchTraceAfter(pre: seq<ToneEvent>, sent: seq<byte>, aborted: bool)
    requires SyncByte !in sent
    ensures pre + BatchPrefix(sent) + (if aborted then [] else TrailerTones()) ==
            pre + BatchTrace(sent + (if aborted then [SyncByte] else []))
  {
    BatchTraceOf(sent, aborted);
    AppendAssoc(pre, BatchPrefix(sent), if aborted then [] else TrailerTones());
  }

  /** Sending one more byte appends its frame, after the leader and preamble if it is the first. */
  lemma BatchPrefixSnoc(sent: seq<byte>, b: byte)
    ensures BatchPrefix(sent + [b]) ==
      BatchPrefix(sent) + FrameLead(sent == []) + ByteFrame(b as nat, MsbFirst)
  {
    assert (sent + [b])[..|sent|] == sent;
    if sent == [] {
      assert DataFrames([b]) == ByteFrame(b as nat, MsbFirst) by {
        assert [b][..0] == [];
      }
    }
  }

  /** BatchPrefixSnoc after tones emitted earlier. */
  lemma BatchPrefixSnocAfter(pre: seq<ToneEvent>, sent: seq<byte>, b: byte)
    ensures pre + BatchPrefix(sent) + FrameLead(sent == []) + ByteFrame(b as nat, MsbFirst)
            == pre + BatchPrefix(sent + [b])
  {
    BatchPrefixSnoc(sent, b);
  }

  /** The k-th data frame of a batch sits 10 tones after the previous one. */
  lemma {:induction false} DataFramesAt(sent: seq<byte>, k: nat)
    requires k < |sent|
    ensures |DataFrames(sent)| == FrameLength * |sent|
    ensures DataFrames(sent)[FrameLength * k..FrameLength * k + FrameLength] == ByteFrame(sent[k] as nat, MsbFirst)
  {
    var init := sent[..|sent| - 1];
    ByteFrameShape(sent[|sent| - 1] as nat, MsbFirst);
    if k < |sent| - 1 {
      DataFramesAt(init, k);
      assert DataFrames(sent) == DataFrames(init) + ByteFrame(sent[|sent| - 1] as nat, MsbFirst);
      assert DataFrames(sent)[FrameLength * k..FrameLength * k + FrameLength]
          == DataFrames(init)[FrameLength * k..FrameLength * k + FrameLength];
    } else {
      DataFramesLength(init);
    }
  }

  lemma {:induction false} DataFramesLength(sent: seq<byte>)
    ensures |DataFrames(sent)| == FrameLength * |sent|
    ensures TotalSamples(DataFrames(sent)) == FrameSamples * |sent|
  {
    if sent != [] {
      var init := sent[..|sent| - 1];
      var last := ByteFrame(sent[|sent| - 1] as nat, MsbFirst);
      DataFramesLength(init);
      ByteFrameShape(sent[|sent| - 1] as nat, MsbFirst);
      TotalSamplesAppend(DataFrames(init), last);
    }
  }

  /** Tones a receiver finds before the first data frame: two leader tones and the preamble. */
  const PreambleLength: nat := LeaderBits + SyncFrames * FrameLength

  /** The tones of a batch are the leader, the preamble and one frame per byte sent. */
  lemma BatchPrefixShape(sent: seq<byte>)
    requires sent != []
    ensures |BatchPrefix(sent)| == PreambleLength + FrameLength * |sent|
    ensures BatchPrefix(sent)[..PreambleLength] == LeaderTones() + SyncPreamble()
    ensures BatchPrefix(sent)[PreambleLength..] == DataFrames(sent)
  {
    SyncPreambleFrames();
    ByteFrameShape(SyncByte as nat, false);
    DataFramesLength(sent);
  }

  /** The data frames of a batch start at PreambleLength. */
  lemma BatchPrefixData(sent: seq<byte>)
    requires sent != []
    ensures |BatchPrefix(sent)| == PreambleLength + FrameLength * |sent|
    ensures BatchPrefix(sent)[PreambleLength..] == DataFrames(sent)
  {
    BatchPrefixShape(sent);
  }

  /** The two frames after the leader carry the sync byte. */
  lemma BatchCarriesSync(sent: seq<byte>)
    requires sent != []
    ensures var ts := BatchPrefix(sent);
            |ts| >= PreambleLength &&
            DecodeDataTones(ts[LeaderBits + 1..LeaderBits + 1 + DataBits], false) == SyncByte as nat &&
            DecodeDataTones(ts[LeaderBits + FrameLength + 1..LeaderBits + FrameLength + 1 + DataBits], false)
              == SyncByte as nat
  {
    var ts := BatchPrefix(sent);
    var sync := ByteFrame(SyncByte as nat, false);
    SyncPreambleFrames();
    BatchPrefixShape(sent);
    assert Pow2(DataBits) == 256;
    FrameCarriesBits(SyncByte as nat, DataBits, BitNSamples, StartBits, StopBits, InvertStartStop, false);
    var pre := ts[..PreambleLength];
    assert pre == LeaderTones() + sync + sync;
    assert ts[LeaderBits + 1..LeaderBits + 1 + DataBits] == pre[LeaderBits + 1..LeaderBits + 1 + DataBits]
        == sync[1..DataBits + 1];
    assert ts[LeaderBits + FrameLength + 1..LeaderBits + FrameLength + 1 + DataBits]
        == pre[LeaderBits + FrameLength + 1..LeaderBits + FrameLength + 1 + DataBits]
        == sync[1..DataBits + 1];
  }

  /** The data tones of a frame found at `at` in a tone sequence. */
  lemma FrameDataAt(ts: seq<ToneEvent>, off: nat, j: nat, frame: seq<ToneEvent>)
    requires |frame| == FrameLength && off + j + FrameLength <= |ts|
    requires ts[off..][j..j + FrameLength] == frame
    ensures ts[off + j + 1..off + j + 1 + DataBits] == frame[1..DataBits + 1]
  {
    var sub := ts[off + j + 1..off + j + 1 + DataBits];
    forall i | 0 <= i < DataBits
      ensures sub[i] == frame[1..DataBits + 1][i]
    {
      assert frame[1 + i] == ts[off..][j..j + FrameLength][1 + i] == ts[off + (j + (1 + i))];
    }
  }

  /** The k-th data frame of a batch carries the k-th byte sent. */
  lemma BatchCarriesBytes(sent: seq<byte>, k: nat)
    requires k < |sent|
    ensures var ts := BatchPrefix(sent);
            var at := PreambleLength + FrameLength * k;
            at + FrameLength <= |ts| &&
            DecodeDataTones(ts[at + 1..at + 1 + DataBits], MsbFirst) == sent[k] as nat
  {
    var ts := BatchPrefix(sent);
    var j := FrameLength * k;
    BatchPrefixData(sent);
    DataFramesAt(sent, k);
    assert Pow2(DataBits) == 256;
    FrameCarriesBits(sent[k] as nat, DataBits, BitNSamples, StartBits, StopBits, InvertStartStop, MsbFirst);
    var frame := ByteFrame(sent[k] as nat, MsbFirst);
    FrameDataAt(ts, PreambleLength, j, frame);
  }

  /** The leader and preamble last 74 + 1184 samples. */
  lemma PreambleSamples()
    ensures TotalSamples(LeaderTones() + SyncPreamble()) == 1258
  {
    var sync := ByteFrame(SyncByte as nat, false);
    SyncPreambleFrames();
    TotalSamplesUniform(LeaderTones(), BitNSamples);
    ByteFrameShape(SyncByte as nat, false);
    TotalSamplesAppend(sync, sync);
    TotalSamplesAppend(LeaderTones(), SyncPreamble());
  }

  /** The trailer lasts two bits and one sample. */
  lemma TrailerSamples()
    ensures TotalSamples(TrailerTones()) == 75
  {
    var marks := Repeat(ToneEvent(Mark, BitNSamples), TrailerBits);
    var flush := [ToneEvent(Silence, FlushNSamples)];
    assert TrailerTones() == marks + flush;
    TotalSamplesAppend(marks, flush);
    TotalSamplesUniform(marks, BitNSamples);
    assert flush[..0] == [];
  }

  /** A batch that has sent k bytes has lasted 1258 + 592 * k samples (none when k is 0). */
  lemma BatchPrefixSamples(sent: seq<byte>)
    ensures TotalSamples(BatchPrefix(sent)) == (if sent == [] then 0 else 1258) + 592 * |sent|
  {
    DataFramesLength(sent);
    if sent != [] {
      PreambleSamples();
      TotalSamplesAppend(LeaderTones() + SyncPreamble(), DataFrames(sent));
    } else {
      assert BatchPrefix(sent) == [];
    }
  }

  /** How long a batch lasts: at most 77109 samples for 128 consumed bytes. */
  lemma BatchSamplesBound(consumed: seq<byte>)
    requires |consumed| <= MaxBatchBytes
    ensures TotalSamples(BatchTrace(consumed)) <= 77109
  {
    if consumed != [] && consumed[|consumed| - 1] == SyncByte {
      BatchPrefixSamples(consumed[..|consumed| - 1]);
    } else {
      BatchPrefixSamples(consumed);
      TrailerSamples();
      TotalSamplesAppend(BatchPrefix(consumed), TrailerTones());
    }
  }

  /** The characters from `lo` to `hi`, in order. */
  function CharRange(lo: char, hi: char): (r: seq<char>)
    requires lo <= hi && hi as int < 0xD800
    ensures |r| == hi as int - lo as int + 1
    ensures forall i :: 0 <= i < |r| ==> r[i] as int == lo as int + i
  {
    seq(hi as int - lo as int + 1, i requires 0 <= i < hi as int - lo as int + 1 => (lo as int + i) as char)
  }

  /** The 64 digits of base64 (section 4 of RFC 4648), in the order of their values. */
  function Base64Alphabet(): (r: seq<char>)
    ensures |r| == 64
  {
    CharRange('A', 'Z') + CharRange('a', 'z') + CharRange('0', '9') + ['+', '/']
  }

  /** '=' pads base64 text to a multiple of four characters. */
  const Base64Pad: char := '='

  /** isB64Char: letters, digits, '/', '+', '=', and also newline and space. */
  function IsB64Char(x: char): (b: bool)
    ensures b ==> x as int < 128
  {
    ('A' <= x <= 'Z') || ('a' <= x <= 'z') || ('0' <= x <= '9') || x == '/' || x == '+' || x == '='
    || x == '\n' || x == ' '
  }

  /** isB64Char accepts exactly the base64 digits, the pad, newline and space. */
  lemma IsB64CharAlphabet(x: char)
    ensures IsB64Char(x) <==> x in Base64Alphabet() || x == Base64Pad || x == '\n' || x == ' '
  {
    var upper, lower, digits := CharRange('A', 'Z'), CharRange('a', 'z'), CharRange('0', '9');
    assert Base64Alphabet() == upper + lower + digits + ['+', '/'];
    if 'A' <= x <= 'Z' {
      assert upper[x as int - 'A' as int] == x;
    } else if 'a' <= x <= 'z' {
      assert lower[x as int - 'a' as int] == x;
    } else if '0' <= x <= '9' {
      assert digits[x as int - '0' as int] == x;
    }
    if x in upper {
      var i :| 0 <= i < |upper| && upper[i] == x;
    } else if x in lower {
      var i :| 0 <= i < |lower| && lower[i] == x;
    } else if x in digits {
      var i :| 0 <= i < |digits| && digits[i] == x;
    }
  }
}
