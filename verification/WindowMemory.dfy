/** Little-endian integers in a byte image, and what a write leaves alone. */
module WindowMemory {
  import opened Common

  type Byte = b: int | 0 <= b < 256

  function Enc32(n: nat): (s: seq<Byte>)
    requires n < U32
    ensures |s| == 4
  {
    [n % 0x100, n / 0x100 % 0x100, n / 0x1_0000 % 0x100, n / 0x100_0000]
  }

  function Enc64(n: nat): (s: seq<Byte>)
    requires n < U64
    ensures |s| == 8
  {
    Enc32(n % U32) + Enc32(n / U32)
  }

  function Get32(m: seq<Byte>, off: nat): (n: nat)
    requires off + 4 <= |m|
    ensures n < U32
  {
    m[off] as int + 0x100 * (m[off + 1] as int) + 0x1_0000 * (m[off + 2] as int) + 0x100_0000 * (m[off + 3] as int)
  }

  function Get64(m: seq<Byte>, off: nat): (n: nat)
    requires off + 8 <= |m|
  {
    Get32(m, off) + U32 * Get32(m, off + 4)
  }

  /** `v` stands in the image at `off`. */
  predicate BytesAt(m: seq<Byte>, off: nat, v: seq<Byte>) {
    off + |v| <= |m| && forall i :: off <= i < off + |v| ==> m[i] == v[i - off]
  }

  lemma RoundTrip32(n: nat)
    requires n < U32
    ensures Get32(Enc32(n), 0) == n
  {
    assert n / 0x1_0000 == n / 0x100 / 0x100;
    assert n / 0x100_0000 == n / 0x1_0000 / 0x100;
  }

  lemma RoundTrip64(n: nat)
    requires n < U64
    ensures Get64(Enc64(n), 0) == n
  {
    RoundTrip32(n % U32);
    RoundTrip32(n / U32);
  }

  /** The two images agree outside `[a, b)`. */
  predicate SameExcept(m: seq<Byte>, n: seq<Byte>, a: nat, b: nat) {
    |m| == |n| && forall i :: 0 <= i < |m| && !(a <= i < b) ==> m[i] == n[i]
  }

  predicate Apart(a: nat, b: nat, lo: nat, hi: nat) {
    hi <= a || b <= lo
  }

  /** `n` is `m` with `v` written at `off`. */
  predicate Wrote(m: seq<Byte>, n: seq<Byte>, off: nat, v: seq<Byte>) {
    off + |v| <= |m| && SameExcept(m, n, off, off + |v|) && BytesAt(n, off, v)
  }

  predicate Wrote32(m: seq<Byte>, n: seq<Byte>, off: nat, x: nat) {
    off + 4 <= |m| && SameExcept(m, n, off, off + 4) && Get32(n, off) == x
  }

  lemma WroteNumber(m: seq<Byte>, n: seq<Byte>, off: nat, x: nat)
    requires x < U32 && Wrote(m, n, off, Enc32(x))
    ensures Wrote32(m, n, off, x)
  {
    RoundTrip32(x);
  }

  lemma BytesFrame(m: seq<Byte>, n: seq<Byte>, a: nat, b: nat, off: nat, v: seq<Byte>)
    requires SameExcept(m, n, a, b) && BytesAt(m, off, v) && Apart(a, b, off, off + |v|)
    ensures BytesAt(n, off, v)
  {
  }

  lemma Get32Frame(m: seq<Byte>, n: seq<Byte>, a: nat, b: nat, off: nat)
    requires SameExcept(m, n, a, b) && off + 4 <= |m| && Apart(a, b, off, off + 4)
    ensures Get32(m, off) == Get32(n, off)
  {
  }

  /** A 64-bit word read as two 32-bit ones. */
  lemma BytesWord(m: seq<Byte>, off: nat, n: nat)
    requires n < U64 && BytesAt(m, off, Enc64(n))
    ensures Get32(m, off) + U32 * Get32(m, off + 4) == n
  {
    BytesNumber(m, off, Enc64(n), 0);
    BytesNumber(m, off, Enc64(n), 4);
    RoundTrip64(n);
  }

  lemma BytesNumber(n: seq<Byte>, off: nat, v: seq<Byte>, k: nat)
    requires BytesAt(n, off, v) && k + 4 <= |v|
    ensures Get32(n, off + k) == Get32(v, k)
  {
  }
}
