/** Machine words and byte strings: the C integer widths the flight software relies on,
    the in-memory form of a 32-bit word, and writing a block into a memory image. */
module Bytes {

  type byte = x: int | 0 <= x < 0x100

  type u32 = x: int | 0 <= x < 0x1_0000_0000

  type int32 = x: int | -0x8000_0000 <= x < 0x8000_0000

  /** The C cast `(uint32_t) i`. */
  function ToU32(i: int32): u32 {
    if i < 0 then i + 0x1_0000_0000 else i
  }

  /** The C cast `(int) u`. */
  function ToInt32(u: u32): int32 {
    if u < 0x8000_0000 then u else u - 0x1_0000_0000
  }

  /** Two's complement result of an `int` computation. */
  function WrapInt32(i: int): int32 {
    ToInt32(i % 0x1_0000_0000)
  }

  /** C division, which truncates towards zero. */
  function TruncDiv(a: int, b: nat): int
    requires b > 0
  {
    if a >= 0 then a / b else -(-a / b)
  }

  /** C remainder, which has the sign of the dividend. */
  function TruncMod(a: int, b: nat): int
    requires b > 0
  {
    a - TruncDiv(a, b) * b
  }

  /** The four bytes of a word, most significant first. */
  function WordBytes(u: u32): (b: seq<byte>)
    ensures |b| == 4
  {
    [u / 0x100 / 0x100 / 0x100, u / 0x100 / 0x100 % 0x100, u / 0x100 % 0x100, u % 0x100]
  }

  function WordAt(b: seq<byte>): u32
    requires |b| == 4
  {
    b[0] as int * 0x100_0000 + b[1] as int * 0x1_0000 + b[2] as int * 0x100 + b[3]
  }

  lemma {:induction false} WordRoundTrip(u: u32)
    ensures WordAt(WordBytes(u)) == u
  {
    var q0 := u / 0x100;
    var q1 := q0 / 0x100;
    assert u == q0 * 0x100 + u % 0x100;
    assert q0 == q1 * 0x100 + q0 % 0x100;
    assert q1 == q1 / 0x100 * 0x100 + q1 % 0x100;
  }

  /** The value of an erased flash byte. */
  const ERASED: byte := 0xFF

  function Fill(n: nat): (s: seq<byte>)
    ensures |s| == n
  {
    seq(n, _ => ERASED)
  }

  /** `m` with the block `d` written at address `at`. */
  function Splice(m: seq<byte>, at: nat, d: seq<byte>): (r: seq<byte>)
    requires at + |d| <= |m|
    ensures |r| == |m|
  {
    m[..at] + d + m[at + |d|..]
  }

  predicate IsErased(m: seq<byte>, at: nat, n: nat)
    requires at + n <= |m|
  {
    forall i :: at <= i < at + n ==> m[i] == ERASED
  }

  /** `m'` is `m` after the driver wrote the block `d` at address `at`: an erased byte takes the new value, one
      that is not erased takes any value. */
  ghost predicate Written(m: seq<byte>, m': seq<byte>, at: nat, d: seq<byte>) {
    && at + |d| <= |m| == |m'|
    && (forall k :: 0 <= k < at || at + |d| <= k < |m| ==> m'[k] == m[k])
    && (forall k :: at <= k < at + |d| && m[k] == ERASED ==> m'[k] == d[k - at])
  }

  /** On erased bytes that is the block and nothing else. */
  lemma {:induction false} WrittenOnErased(m: seq<byte>, m': seq<byte>, at: nat, d: seq<byte>)
    requires Written(m, m', at, d) && IsErased(m, at, |d|)
    ensures m' == Splice(m, at, d)
  {}

  /** A block written next to another is one longer block. */
  lemma {:induction false} SpliceAdjacent(m: seq<byte>, at: nat, a: seq<byte>, b: seq<byte>)
    requires at + |a| + |b| <= |m|
    ensures Splice(Splice(m, at, a), at + |a|, b) == Splice(m, at, a + b)
  {}

  /** Erased bytes behind a block may be counted as part of it. */
  lemma {:induction false} SpliceGap(m: seq<byte>, at: nat, a: seq<byte>, gap: nat)
    requires at + |a| + gap <= |m|
    requires IsErased(m, at + |a|, gap)
    ensures Splice(m, at, a) == Splice(m, at, a + Fill(gap))
  {}

  /** The bytes of `m` from address `at` on are `d`. */
  predicate Holds(m: seq<byte>, at: nat, d: seq<byte>) {
    at + |d| <= |m| && m[at..at + |d|] == d
  }

  /** Writing a block leaves every disjoint block as it was. */
  lemma {:induction false} SpliceMiss(m: seq<byte>, at: nat, d: seq<byte>, lo: nat, b: seq<byte>)
    requires at + |d| <= |m| && Holds(m, lo, b)
    requires lo + |b| <= at || at + |d| <= lo
    ensures Holds(Splice(m, at, d), lo, b)
  {}

  /** Being erased is holding a block of erased bytes. */
  lemma {:induction false} ErasedIsFill(m: seq<byte>, at: nat, n: nat)
    requires at + n <= |m|
    ensures IsErased(m, at, n) <==> Holds(m, at, Fill(n))
  {}

  /** Slot `r` of an array of `per` slots of `size` bytes lies inside the array. */
  lemma {:induction false} ProductStep(r: nat, per: nat, size: nat)
    requires r < per
    ensures r * size + size <= per * size
    decreases per
  {
    assert per * size == (per - 1) * size + size;
    if r < per - 1 {
      ProductStep(r, per - 1, size);
    }
  }

  /** Quotient and remainder are determined. */
  lemma {:induction false} QuotientIs(n: nat, per: nat, q: nat, r: nat)
    requires r < per && n == q * per + r
    ensures n / per == q && n % per == r
  {
    var q' := n / per;
    assert q' * per <= n < q' * per + per;
    if q' < q { ProductStep(q', q, per); } else if q < q' { ProductStep(q, q', per); }
  }
}
