/** Byte strings and the little-endian integers that the packed structs hold. */
module Bytes {

  type Byte = b: int | 0 <= b < 256

  const U16_RANGE := 0x1_0000
  const U32_RANGE := 0x1_0000_0000
  const U64_RANGE := 0x1_0000_0000_0000_0000

  type U32 = n: int | 0 <= n < U32_RANGE
  type U64 = n: int | 0 <= n < U64_RANGE

  /** A u16 that was given the value `n`. */
  function Wrap16(n: nat): (r: nat)
    ensures r < U16_RANGE && (n < U16_RANGE ==> r == n)
  {
    n % 0x1_0000
  }

  function Pow256(k: nat): (p: nat)
    ensures p >= 1
  {
    if k == 0 then 1 else 256 * Pow256(k - 1)
  }

  /** The low `k` bytes of `n`, least significant first. */
  function ToLE(n: nat, k: nat): (bs: seq<Byte>)
    ensures |bs| == k
  {
    if k == 0 then [] else [n % 256] + ToLE(n / 256, k - 1)
  }

  function FromLE(bs: seq<Byte>): nat {
    if bs == [] then 0 else bs[0] + 256 * FromLE(bs[1..])
  }

  /** The least significant byte comes first. */
  lemma LittleEndian(b: seq<Byte>)
    ensures |b| == 2 ==> FromLE(b) == b[0] as int + 0x100 * b[1] as int
    ensures |b| == 4 ==>
              FromLE(b) == b[0] as int + 0x100 * b[1] as int + 0x1_0000 * b[2] as int + 0x100_0000 * b[3] as int
    ensures |b| == 8 ==> FromLE(b) == FromLE(b[..4]) + U32_RANGE * FromLE(b[4..])
  {
    if |b| == 2 {
      FromLEStep(b);
      FromLEStep(b[1..]);
    } else if |b| == 4 {
      FromLESplit(b, 2);
      LittleEndian(b[..2]);
      LittleEndian(b[2..]);
      assert Pow256(2) == 0x1_0000;
    } else if |b| == 8 {
      FromLESplit(b, 4);
      assert Pow256(4) == U32_RANGE;
    }
  }

  lemma {:induction false} FromLESplit(b: seq<Byte>, k: nat)
    requires k <= |b|
    ensures FromLE(b) == FromLE(b[..k]) + Pow256(k) * FromLE(b[k..])
  {
    if k > 0 {
      FromLESplit(b[1..], k - 1);
      assert b[..k][1..] == b[1..][..k - 1] && b[k..] == b[1..][k - 1..];
      Distribute(FromLE(b[..k][1..]), Pow256(k - 1), FromLE(b[k..]));
    }
  }

  lemma Distribute(a: nat, p: nat, c: nat)
    ensures 256 * (a + p * c) == 256 * a + (256 * p) * c
  {
  }

  lemma FromLEStep(b: seq<Byte>)
    requires b != []
    ensures FromLE(b) == b[0] as int + 256 * FromLE(b[1..])
    ensures |b| == 1 ==> FromLE(b) == b[0] as int
  {
  }

  lemma {:induction false} FromLEOfToLE(n: nat, k: nat)
    requires n < Pow256(k)
    ensures FromLE(ToLE(n, k)) == n
  {
    if k > 0 {
      FromLEOfToLE(n / 256, k - 1);
      assert ToLE(n, k)[1..] == ToLE(n / 256, k - 1);
    }
  }

  lemma {:induction false} FromLEBound(bs: seq<Byte>)
    ensures FromLE(bs) < Pow256(|bs|)
  {
    if bs != [] {
      FromLEBound(bs[1..]);
    }
  }

  lemma Pow256Of8()
    ensures Pow256(8) == U64_RANGE
  {
    assert Pow256(4) == U32_RANGE;
    assert Pow256(8) == 256 * (256 * (256 * (256 * Pow256(4))));
  }

  function Zeros(n: nat): (bs: seq<Byte>)
    ensures |bs| == n
  {
    seq(n, _ => 0)
  }

  /** The contents of a receive buffer after `recvfrom` wrote a datagram at its start. */
  function Overlay(datagram: seq<Byte>, stale: seq<Byte>): (buf: seq<Byte>)
    ensures |buf| == |stale|
    ensures forall i :: 0 <= i < |buf| ==> buf[i] == if i < |datagram| then datagram[i] else stale[i]
  {
    if |datagram| <= |stale| then datagram + stale[|datagram|..] else datagram[..|stale|]
  }
}
