/**
 * The systematic Reed-Solomon encoder of libcorrect (libcorrect/encode.c), reduced
 * to its index arithmetic. The message is stored reversed into the coefficients of a
 * polynomial of order blockLength - 1, the remaining coefficients are zeroed, the
 * polynomial is reduced modulo the generator, and the codeword is the message
 * followed by the remainder in reverse coefficient order. Polynomial division over
 * GF(256) is not modelled: `polynomialMod` stands for it.
 */
module Codeword {
  import opened Bytes

  /**
   * The dividend polynomial for message `m`, lowest-order coefficient first:
   * minDistance zeros, the message reversed, then one zero per byte the message
   * is shorter than messageLength.
   */
  function MessagePolynomial(messageLength: nat, minDistance: nat, m: seq<byte>): (p: seq<byte>)
    requires |m| <= messageLength
    ensures |p| == messageLength + minDistance
    // coefficient k of the message range holds message byte minDistance + |m| - 1 - k
    ensures forall k :: minDistance <= k < minDistance + |m| ==> p[k] == m[minDistance + |m| - 1 - k]
    // the two memsets: [0, order + 1 - messageLength) and [order + 1 - pad, order]
    ensures forall k :: 0 <= k < minDistance ==> p[k] == 0
    ensures forall k :: minDistance + |m| <= k < |p| ==> p[k] == 0
  {
    Zeros(minDistance) + Reversed(m) + Zeros(messageLength - |m|)
  }

  /**
   * The bounds of the three coefficient ranges the encoder writes: the low zeros
   * [0, order + 1 - messageLength), the message order - pad - msgLength + 1 .. order - pad,
   * and the high zeros [order + 1 - pad, order]. Each range starts where the previous
   * one ends and the last ends at the order, so together they partition [0, order]
   * and no stale coefficient survives.
   */
  lemma CoefficientRangesPartition(messageLength: nat, minDistance: nat, msgLength: nat)
    requires msgLength <= messageLength && 1 <= messageLength + minDistance
    ensures var order := messageLength + minDistance - 1;
            var pad := messageLength - msgLength;
            order + 1 - messageLength == minDistance &&
            order - pad - msgLength + 1 == minDistance &&
            order - pad + 1 == order + 1 - pad == minDistance + msgLength <= order + 1
  {
  }

  /** The remainder polynomial as polynomial_mod leaves it: minDistance coefficients. */
  function Remainder(minDistance: nat, polynomialMod: seq<byte> -> seq<byte>, p: seq<byte>): (r: seq<byte>)
    ensures |r| == minDistance
  {
    Fit(polynomialMod(p), minDistance)
  }

  /**
   * The bytes the encoder writes for message `m`: the message unchanged, then the
   * remainder coefficients from the highest down.
   */
  function Codeword(messageLength: nat, minDistance: nat, polynomialMod: seq<byte> -> seq<byte>, m: seq<byte>): (c: seq<byte>)
    requires |m| <= messageLength
    ensures |c| == |m| + minDistance
    ensures c[..|m|] == m
    ensures forall i :: |m| <= i < |c| ==>
      c[i] == Remainder(minDistance, polynomialMod, MessagePolynomial(messageLength, minDistance, m))[minDistance - 1 - (i - |m|)]
  {
    m + Reversed(Remainder(minDistance, polynomialMod, MessagePolynomial(messageLength, minDistance, m)))
  }

  /** Status returned when the message does not fit. */
  const EncodeTooLong: int := -1

  /**
   * The encoder object: its code parameters, the generator (inside `polynomialMod`),
   * and the two scratch polynomials it reuses for every message.
   */
  class Encoder {
    const messageLength: nat
    const minDistance: nat
    const blockLength: nat
    const polynomialMod: seq<byte> -> seq<byte>
    var encodedPolynomial: array<byte>
    var encodedRemainder: array<byte>

    ghost predicate Valid()
      reads this
    {
      blockLength == messageLength + minDistance && 1 <= blockLength &&
      encodedPolynomial.Length == blockLength &&
      encodedRemainder.Length == minDistance &&
      encodedPolynomial != encodedRemainder
    }

    /** An encoder with `numRoots` parity symbols per `blockLength`-symbol codeword. */
    constructor (blockLength: nat, numRoots: nat, polynomialMod: seq<byte> -> seq<byte>)
      requires 1 <= blockLength && numRoots <= blockLength
      ensures Valid() && fresh(encodedPolynomial) && fresh(encodedRemainder)
      ensures this.blockLength == blockLength && minDistance == numRoots
      ensures messageLength == blockLength - numRoots && this.polynomialMod == polynomialMod
    {
      this.blockLength := blockLength;
      minDistance := numRoots;
      messageLength := blockLength - numRoots;
      this.polynomialMod := polynomialMod;
      encodedPolynomial := new byte[blockLength];
      encodedRemainder := new byte[numRoots];
    }

    /** polynomial_mod: writes the remainder of the encoded polynomial, and nothing else. */
    method PolynomialMod()
      requires Valid()
      modifies encodedRemainder
      ensures encodedRemainder[..] == Remainder(minDistance, polynomialMod, encodedPolynomial[..])
      ensures encodedPolynomial[..] == old(encodedPolynomial[..])
    {
      ghost var poly := encodedPolynomial[..];
      var r := Remainder(minDistance, polynomialMod, encodedPolynomial[..]);
      forall k | 0 <= k < minDistance {
        encodedRemainder[k] := r[k];
      }
      assert encodedPolynomial[..] == poly;
      assert encodedRemainder[..] == r;
    }

    /** The first half of the encoder: the message and the zero fill go into the polynomial. */
    method LoadMessage(msg: array<byte>, msgStart: nat, msgLength: nat)
      requires Valid()
      requires msgStart + msgLength <= msg.Length && msgLength <= messageLength
      requires msg != encodedPolynomial
      modifies encodedPolynomial
      ensures encodedPolynomial[..] == MessagePolynomial(messageLength, minDistance, msg[msgStart..msgStart + msgLength])
    {
      ghost var m := msg[msgStart..msgStart + msgLength];
      var padLength := messageLength - msgLength;
      var order := encodedPolynomial.Length - 1;
      CoefficientRangesPartition(messageLength, minDistance, msgLength);
      StoreMessage(msg, msgStart, msgLength);
      if padLength != 0 {
        ZeroCoefficients(order + 1 - padLength, order + 1);
      }
      ZeroCoefficients(0, order + 1 - messageLength);
      ghost var p := MessagePolynomial(messageLength, minDistance, m);
      assert forall k :: 0 <= k < |p| ==> encodedPolynomial[k] == p[k];
      assert encodedPolynomial[..] == p;
    }

    /** A memset of the coefficients [lo, hi) to zero. */
    method ZeroCoefficients(lo: nat, hi: nat)
      requires Valid() && lo <= hi <= encodedPolynomial.Length
      modifies encodedPolynomial
      ensures forall k :: lo <= k < hi ==> encodedPolynomial[k] == 0
      ensures forall k :: 0 <= k < encodedPolynomial.Length && !(lo <= k < hi) ==> encodedPolynomial[k] == old(encodedPolynomial[k])
    {
      forall k | lo <= k < hi {
        encodedPolynomial[k] := 0;
      }
    }

    /**
     * The store loop: message byte i goes to coefficient order - (i + pad), so the message
     * occupies coefficients minDistance .. minDistance + msgLength - 1, highest first.
     */
    method StoreMessage(msg: array<byte>, msgStart: nat, msgLength: nat)
      requires Valid()
      requires msgStart + msgLength <= msg.Length && msgLength <= messageLength
      requires msg != encodedPolynomial
      modifies encodedPolynomial
      ensures forall k :: minDistance <= k < minDistance + msgLength ==>
        encodedPolynomial[k] == msg[msgStart + minDistance + msgLength - 1 - k]
      ensures forall k :: 0 <= k < encodedPolynomial.Length && !(minDistance <= k < minDistance + msgLength) ==>
        encodedPolynomial[k] == old(encodedPolynomial[k])
    {
      var padLength := messageLength - msgLength;
      var order := encodedPolynomial.Length - 1;
      // message goes from high order to low order, the polynomial low to high
      for i := 0 to msgLength
        invariant forall k :: minDistance + msgLength - i <= k < minDistance + msgLength ==>
          encodedPolynomial[k] == msg[msgStart + minDistance + msgLength - 1 - k]
        invariant forall k :: 0 <= k < encodedPolynomial.Length && !(minDistance + msgLength - i <= k < minDistance + msgLength) ==>
          encodedPolynomial[k] == old(encodedPolynomial[k])
      {
        encodedPolynomial[order - (i + padLength)] := msg[msgStart + i];
      }
    }

    /** The second half: message bytes back out highest order first, then the remainder reversed. */
    method StoreCodeword(ghost m: seq<byte>, msgLength: nat, encoded: array<byte>, encodedStart: nat)
      requires Valid() && |m| == msgLength <= messageLength
      requires encodedStart + |m| + minDistance <= encoded.Length
      requires encoded != encodedPolynomial && encoded != encodedRemainder
      requires encodedPolynomial[..] == MessagePolynomial(messageLength, minDistance, m)
      requires encodedRemainder[..] == Remainder(minDistance, polynomialMod, encodedPolynomial[..])
      modifies encoded
      ensures encoded[..] == old(encoded[..encodedStart]) + Codeword(messageLength, minDistance, polynomialMod, m)
                             + old(encoded[encodedStart + |m| + minDistance..])
    {
      ghost var before := encoded[..];
      StoreMessageOut(m, msgLength, encoded, encodedStart);
      StoreRemainderOut(msgLength, encoded, encodedStart);
      ghost var c := Codeword(messageLength, minDistance, polynomialMod, m);
      assert forall k :: 0 <= k < msgLength ==> c[k] == m[k];
      assert forall k :: 0 <= k < encoded.Length ==> encoded[k] == (before[..encodedStart] + c + before[encodedStart + msgLength + minDistance..])[k];
    }

    /** The message copy loop: message byte i is read back from coefficient order - (i + pad). */
    method StoreMessageOut(ghost m: seq<byte>, msgLength: nat, encoded: array<byte>, encodedStart: nat)
      requires Valid() && |m| == msgLength <= messageLength
      requires encodedStart + msgLength <= encoded.Length
      requires encoded != encodedPolynomial
      requires encodedPolynomial[..] == MessagePolynomial(messageLength, minDistance, m)
      modifies encoded
      ensures forall k :: 0 <= k < msgLength ==> encoded[encodedStart + k] == m[k]
      ensures forall k :: 0 <= k < encoded.Length && !(encodedStart <= k < encodedStart + msgLength) ==> encoded[k] == old(encoded[k])
    {
      var padLength := messageLength - msgLength;
      var order := encodedPolynomial.Length - 1;
      for i := 0 to msgLength
        invariant forall k :: 0 <= k < i ==> encoded[encodedStart + k] == m[k]
        invariant forall k :: 0 <= k < encoded.Length && !(encodedStart <= k < encodedStart + i) ==> encoded[k] == old(encoded[k])
      {
        assert encodedPolynomial[order - (i + padLength)] == encodedPolynomial[..][order - (i + padLength)];
        encoded[encodedStart + i] := encodedPolynomial[order - (i + padLength)];
      }
    }

    /** The parity copy loop: the remainder coefficients follow the message, highest first. */
    method StoreRemainderOut(msgLength: nat, encoded: array<byte>, encodedStart: nat)
      requires Valid()
      requires encodedStart + msgLength + minDistance <= encoded.Length
      requires encoded != encodedRemainder
      modifies encoded
      ensures forall k :: encodedStart + msgLength <= k < encodedStart + msgLength + minDistance ==>
        encoded[k] == encodedRemainder[minDistance - 1 - (k - encodedStart - msgLength)]
      ensures forall k :: 0 <= k < encoded.Length && !(encodedStart + msgLength <= k < encodedStart + msgLength + minDistance) ==>
        encoded[k] == old(encoded[k])
    {
      for i := 0 to minDistance
        invariant forall k :: encodedStart + msgLength <= k < encodedStart + msgLength + i ==>
          encoded[k] == encodedRemainder[minDistance - 1 - (k - encodedStart - msgLength)]
        invariant forall k :: 0 <= k < encoded.Length && !(encodedStart + msgLength <= k < encodedStart + msgLength + i) ==>
          encoded[k] == old(encoded[k])
      {
        encoded[encodedStart + msgLength + i] := encodedRemainder[minDistance - (i + 1)];
      }
    }

    /**
     * correct_reed_solomon_encode for `msgLength` bytes of `msg` from `msgStart`,
     * written into `encoded` from `encodedStart`. A message longer than
     * messageLength returns -1 and writes nothing. Otherwise exactly
     * msgLength + minDistance bytes of `encoded` are written, with the codeword,
     * yet the result is blockLength.
     */
    method Encode(msg: array<byte>, msgStart: nat, msgLength: nat, encoded: array<byte>, encodedStart: nat)
      returns (r: int)
      requires Valid()
      requires msgStart + msgLength <= msg.Length
      requires msgLength <= messageLength ==> encodedStart + msgLength + minDistance <= encoded.Length
      requires msg != encodedPolynomial && msg != encodedRemainder
      requires encoded != encodedPolynomial && encoded != encodedRemainder
      modifies encodedPolynomial, encodedRemainder, encoded
      ensures msgLength > messageLength ==>
        r == EncodeTooLong && unchanged(encoded) && unchanged(encodedPolynomial) && unchanged(encodedRemainder)
      ensures msgLength <= messageLength ==>
        var m := old(msg[msgStart..msgStart + msgLength]);
        r == blockLength &&
        encodedPolynomial[..] == MessagePolynomial(messageLength, minDistance, m) &&
        encodedRemainder[..] == Remainder(minDistance, polynomialMod, encodedPolynomial[..]) &&
        encoded[..] == old(encoded[..encodedStart]) + Codeword(messageLength, minDistance, polynomialMod, m)
                       + old(encoded[encodedStart + msgLength + minDistance..])
    {
      if msgLength > messageLength {
        return EncodeTooLong;
      }
      ghost var m := msg[msgStart..msgStart + msgLength];
      LoadMessage(msg, msgStart, msgLength);
      PolynomialMod();
      StoreCodeword(m, msgLength, encoded, encodedStart);
      return blockLength;
    }
  }
}
