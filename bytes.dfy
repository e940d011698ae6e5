/** Byte-level vocabulary shared by every stage of the pipeline. */
module Bytes {

  newtype byte = x: int | 0 <= x < 256

  /** A C pointer that may be NULL, or a Python value that may be missing. */
  datatype Option<T> = None | Some(value: T)

  /** The largest value an `unsigned int` holds, plus one. */
  const U32Limit: nat := 0x1_0000_0000

  function Pow2(k: nat): (r: nat)
    ensures r >= 1
  {
    if k == 0 then 1 else 2 * Pow2(k - 1)
  }

  /** `n` zero bytes, as `memset(p, 0, n)` leaves them. */
  function Zeros(n: nat): (z: seq<byte>)
    ensures |z| == n
    ensures forall k :: 0 <= k < n ==> z[k] == 0
  {
    seq(n, _ => 0)
  }

  /** `s` padded with zeros or cut down to exactly `n` bytes. */
  function Fit(s: seq<byte>, n: nat): (r: seq<byte>)
    ensures |r| == n
    ensures forall k :: 0 <= k < n && k < |s| ==> r[k] == s[k]
    ensures forall k :: |s| <= k < n ==> r[k] == 0
  {
    if |s| >= n then s[..n] else s + Zeros(n - |s|)
  }

  function Reversed<T>(s: seq<T>): (r: seq<T>)
    ensures |r| == |s|
    ensures forall k :: 0 <= k < |s| ==> r[k] == s[|s| - 1 - k]
  {
    if s == [] then [] else Reversed(s[1..]) + [s[0]]
  }

  /** Concatenation regrouped, so that callers need not compare sequences element by element. */
  /** Extending a slice by one index appends that element. */
  lemma SliceSnoc<T>(s: seq<T>, i: nat, j: nat)
    requires i <= j < |s|
    ensures s[i..j + 1] == s[i..j] + [s[j]]
  {
  }

  lemma AppendAssoc<T>(a: seq<T>, b: seq<T>, c: seq<T>)
    ensures a + b + c == a + (b + c)
  {
  }

  /** The four bytes of `x` most significant first. */
  function BigEndian32(x: nat): (r: seq<byte>)
    requires x < U32Limit
    ensures |r| == 4
  {
    [(x / 0x100_0000) as byte, (x / 0x1_0000 % 0x100) as byte,
     (x / 0x100 % 0x100) as byte, (x % 0x100) as byte]
  }

  /** The number a byte string denotes read most significant byte first. */
  function FromBigEndian(s: seq<byte>): nat
  {
    if s == [] then 0 else FromBigEndian(s[..|s| - 1]) * 256 + s[|s| - 1] as nat
  }

  lemma BigEndian32RoundTrip(x: nat)
    requires x < U32Limit
    ensures FromBigEndian(BigEndian32(x)) == x
  {
    var r := BigEndian32(x);
    var q1 := x / 0x100;
    var q2 := q1 / 0x100;
    var q3 := q2 / 0x100;
    assert x / 0x1_0000 == q2 && x / 0x100_0000 == q3 && q3 < 256;
    assert r[..3][..2][..1] == [r[0]];
    assert r[..3][..2] == [r[0], r[1]];
    assert r[..3] == [r[0], r[1], r[2]];
    assert FromBigEndian([r[0]]) == q3;
    assert FromBigEndian([r[0], r[1]]) == q3 * 256 + q2 % 256 == q2;
    assert FromBigEndian([r[0], r[1], r[2]]) == q2 * 256 + q1 % 256 == q1;
    assert FromBigEndian(r) == q1 * 256 + x % 256;
  }

  /** Length of the C string held in `s`: bytes up to the first NUL (or all of `s`). */
  function CStrLen(s: seq<byte>): (n: nat)
    ensures n <= |s|
    ensures forall k :: 0 <= k < n ==> s[k] != 0
    ensures n < |s| ==> s[n] == 0
  {
    if s == [] || s[0] == 0 then 0 else 1 + CStrLen(s[1..])
  }

  /**
   * What `strncpy(dst, src, n)` leaves in the first `n` bytes of `dst`:
   * the C string of `src` cut to `n` bytes, then NUL bytes up to `n`.
   */
  function StrNCopy(src: seq<byte>, n: nat): (r: seq<byte>)
    ensures |r| == n
    ensures forall k :: 0 <= k < n && k < CStrLen(src) ==> r[k] == src[k]
    ensures forall k :: CStrLen(src) <= k < n ==> r[k] == 0
  {
    var len := if CStrLen(src) < n then CStrLen(src) else n;
    src[..len] + Zeros(n - len)
  }

  /** The first NUL of `s` is at `n`, or `s` has none and `n` is its length: then `n` is its C string length. */
  lemma {:induction false} CStrLenUnique(s: seq<byte>, n: nat)
    requires n <= |s|
    requires forall k :: 0 <= k < n ==> s[k] != 0
    requires n < |s| ==> s[n] == 0
    ensures CStrLen(s) == n
  {
    if s != [] && s[0] != 0 {
      assert forall k :: 0 <= k < n - 1 ==> s[1..][k] == s[k + 1];
      CStrLenUnique(s[1..], n - 1);
    }
  }

  /**
   * A field filled by `strncpy(dst, src, n)` whose next byte is NUL holds a C string:
   * the first `n` bytes at most of the string of `src`.
   */
  lemma StrNCopyTerminated(src: seq<byte>, n: nat)
    ensures var len := if CStrLen(src) < n then CStrLen(src) else n;
            CStrLen(StrNCopy(src, n) + [0]) == len && (StrNCopy(src, n) + [0])[..len] == src[..len]
  {
    var len := if CStrLen(src) < n then CStrLen(src) else n;
    var f := StrNCopy(src, n) + [0];
    CStrLenUnique(f, len);
  }
}
