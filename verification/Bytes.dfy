/** Bytes, fixed-width unsigned integers and the little-endian codec of tpkg.h. */
module Bytes {

  type byte = x: int | 0 <= x < 0x100
  type bytes = seq<byte>

  const U32_LIMIT := 0x1_0000_0000
  const U64_LIMIT := 0x1_0000_0000_0000_0000
  const U64_MAX := U64_LIMIT - 1

  type u32 = x: int | 0 <= x < U32_LIMIT
  type u64 = x: int | 0 <= x < U64_LIMIT

  function Zeros(n: nat): (r: bytes)
    ensures |r| == n
    ensures forall i :: 0 <= i < n ==> r[i] == 0
  {
    seq(n, _ => 0)
  }

  // ---- little-endian numbers ------------------------------------------------

  function Pow256(n: nat): (r: nat)
    ensures r > 0
  {
    if n == 0 then 1 else 0x100 * Pow256(n - 1)
  }

  /** The n low-order bytes of v, least significant first. */
  function LeBytes(v: nat, n: nat): (r: bytes)
    ensures |r| == n
  {
    if n == 0 then [] else [v % 0x100] + LeBytes(v / 0x100, n - 1)
  }

  function LeValue(bs: bytes): nat {
    if bs == [] then 0 else bs[0] + 0x100 * LeValue(bs[1..])
  }

  lemma Pow256Widths()
    ensures Pow256(4) == U32_LIMIT && Pow256(8) == U64_LIMIT
  {
    assert Pow256(2) == 0x1_0000;
    assert Pow256(4) == 0x1_0000_0000;
    assert Pow256(6) == 0x1_0000_0000_0000;
  }

  lemma {:induction false} LeValueOfBytes(v: nat, n: nat)
    requires v < Pow256(n)
    ensures LeValue(LeBytes(v, n)) == v
  {
    if n > 0 {
      assert v / 0x100 < Pow256(n - 1);
      LeValueOfBytes(v / 0x100, n - 1);
      assert LeBytes(v, n)[1..] == LeBytes(v / 0x100, n - 1);
    }
  }

  lemma {:induction false} LeBytesOfValue(bs: bytes)
    ensures LeValue(bs) < Pow256(|bs|)
    ensures LeBytes(LeValue(bs), |bs|) == bs
  {
    if bs != [] {
      LeBytesOfValue(bs[1..]);
      assert LeValue(bs) % 0x100 == bs[0] && LeValue(bs) / 0x100 == LeValue(bs[1..]);
    }
  }

  /** Byte i of a little-endian number is the number shifted right by 8*i and masked. */
  lemma {:induction false} LeByteAt(v: nat, n: nat, i: nat)
    requires i < n
    ensures LeBytes(v, n)[i] == v / Pow256(i) % 0x100
  {
    if i > 0 {
      LeByteAt(v / 0x100, n - 1, i - 1);
      DivDiv(v, Pow256(i - 1));
    }
  }

  lemma DivDiv(v: nat, p: nat)
    requires p > 0
    ensures v / 0x100 / p == v / (0x100 * p)
  {
    var q, r := v / 0x100 / p, v / 0x100 % p;
    var low := v % 0x100;
    assert v == 0x100 * (q * p + r) + low;
    var rest := 0x100 * r + low;
    assert v == (0x100 * p) * q + rest && 0 <= rest < 0x100 * p;
    DivUnique(v, 0x100 * p, q, rest);
  }

  lemma DivUnique(v: nat, d: nat, q: nat, r: nat)
    requires d > 0 && v == d * q + r && r < d
    ensures v / d == q
  {
    var gap: int := v / d - q;
    var width: int := d;
    assert width * gap == r - v % d;
    assert gap >= 1 ==> width * gap >= width;
    assert gap <= -1 ==> width * gap <= -width;
  }

  /** Adding byte |bs| to a little-endian number sets its next higher digit. */
  lemma {:induction false} LeValueSnoc(bs: bytes, b: byte)
    ensures LeValue(bs + [b]) == LeValue(bs) + b * Pow256(|bs|)
  {
    if bs == [] {
      assert LeValue([b]) == b + 0x100 * LeValue([]);
    } else {
      assert (bs + [b])[1..] == bs[1..] + [b];
      LeValueSnoc(bs[1..], b);
      assert 0x100 * (b * Pow256(|bs| - 1)) == b * Pow256(|bs|);
    }
  }

  lemma U32Bytes(v: u32)
    ensures LeValue(LeBytes(v, 4)) == v
  {
    Pow256Widths();
    LeValueOfBytes(v, 4);
  }

  lemma U64Bytes(v: u64)
    ensures LeValue(LeBytes(v, 8)) == v
  {
    Pow256Widths();
    LeValueOfBytes(v, 8);
  }

  function U32At(bs: bytes, at: nat): (v: u32)
    requires at + 4 <= |bs|
  {
    LeBytesOfValue(bs[at..at + 4]);
    Pow256Widths();
    LeValue(bs[at..at + 4])
  }

  function U64At(bs: bytes, at: nat): (v: u64)
    requires at + 8 <= |bs|
  {
    LeBytesOfValue(bs[at..at + 8]);
    Pow256Widths();
    LeValue(bs[at..at + 8])
  }

  // ---- the codec routines, in place -----------------------------------------

  /** a, with the bytes from `at` on replaced by bs. */
  function Patched(a: bytes, at: nat, bs: bytes): (r: bytes)
    requires at + |bs| <= |a|
    ensures |r| == |a|
  {
    a[..at] + bs + a[at + |bs|..]
  }

  lemma PatchedTwice(a: bytes, at: nat, x: bytes, y: bytes)
    requires at + |x| + |y| <= |a|
    ensures Patched(Patched(a, at, x), at + |x|, y) == Patched(a, at, x + y)
  {
  }

  method Put32(p: array<byte>, at: nat, v: u32)
    requires at + 4 <= p.Length
    modifies p
    ensures p[..] == Patched(old(p[..]), at, LeBytes(v, 4))
  {
    forall i: nat | i < 4 ensures LeBytes(v, 4)[i] == v / Pow256(i) % 0x100 { LeByteAt(v, 4, i); }
    assert Pow256(1) == 0x100 && Pow256(2) == 0x1_0000 && Pow256(3) == 0x100_0000;
    p[at] := v % 0x100;
    p[at + 1] := v / 0x100 % 0x100;
    p[at + 2] := v / 0x1_0000 % 0x100;
    p[at + 3] := v / 0x100_0000 % 0x100;
  }

  method Put64(p: array<byte>, at: nat, v: u64)
    requires at + 8 <= p.Length
    modifies p
    ensures p[..] == Patched(old(p[..]), at, LeBytes(v, 8))
  {
    for i := 0 to 8
      invariant forall k :: 0 <= k < i ==> p[at + k] == LeBytes(v, 8)[k]
      invariant forall k :: 0 <= k < p.Length && !(at <= k < at + i) ==> p[k] == old(p[k])
    {
      p[at + i] := v / Pow256(i) % 0x100;
      LeByteAt(v, 8, i);
    }
    assert p[at..at + 8] == LeBytes(v, 8);
  }

  /** Shifted bytes do not overlap, so or-ing them together adds them up (Words.OrAddsByte). */
  method Get32(p: array<byte>, at: nat) returns (v: u32)
    requires at + 4 <= p.Length
    ensures v == U32At(p[..], at)
  {
    var b0: int, b1: int, b2: int, b3: int := p[at], p[at + 1], p[at + 2], p[at + 3];
    var n: nat := b0 + b1 * 0x100 + b2 * 0x1_0000 + b3 * 0x100_0000;
    ghost var w := p[..][at..at + 4];
    assert w == [p[at], p[at + 1], p[at + 2], p[at + 3]];
    LeValueSnoc([], w[0]);
    LeValueSnoc([w[0]], w[1]);
    LeValueSnoc([w[0], w[1]], w[2]);
    LeValueSnoc([w[0], w[1], w[2]], w[3]);
    assert [] + [w[0]] == [w[0]] && [w[0]] + [w[1]] == [w[0], w[1]];
    assert [w[0], w[1]] + [w[2]] == [w[0], w[1], w[2]] && [w[0], w[1], w[2]] + [w[3]] == w;
    assert Pow256(1) == 0x100 && Pow256(2) == 0x1_0000 && Pow256(3) == 0x100_0000;
    assert n == U32At(p[..], at);
    v := n;
  }

  method Get64(p: array<byte>, at: nat) returns (v: u64)
    requires at + 8 <= p.Length
    ensures v == U64At(p[..], at)
  {
    var n: nat := 0;
    for i := 0 to 8
      invariant n == LeValue(p[..][at..at + i])
    {
      LeValueSnoc(p[..][at..at + i], p[at + i]);
      assert p[..][at..at + i] + [p[at + i]] == p[..][at..at + i + 1];
      n := n + p[at + i] * Pow256(i);
    }
    assert n == U64At(p[..], at);
    v := n;
  }
}
