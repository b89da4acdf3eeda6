/**
 * Fixed-width unsigned integers of the Rust source (`u8`, `u16`, `u64`) as
 * bounded subsets of `int`, and the little-endian byte layout of `u64::to_le_bytes`.
 */
module Bytes {

  type byte = x: int | 0 <= x < 0x100
  type u16 = x: int | 0 <= x < 0x1_0000
  type u64 = x: int | 0 <= x < 0x1_0000_0000_0000_0000

  /** `n` zero bytes: a `[0u8; n]`. */
  function Zeros(n: nat): (z: seq<byte>)
    ensures |z| == n
    ensures forall i :: 0 <= i < n ==> z[i] == 0
  {
    seq(n, _ => 0)
  }

  function Pow256(n: nat): (p: nat)
    ensures p >= 1
  {
    if n == 0 then 1 else 256 * Pow256(n - 1)
  }

  /** The number a byte string denotes when its byte `i` weighs `256^i`. */
  function FromLe(bs: seq<byte>): nat
  {
    if bs == [] then 0 else bs[0] + 256 * FromLe(bs[1..])
  }

  /** The `n` low-order bytes of `v`, least significant first. */
  function LeBytes(v: nat, n: nat): (bs: seq<byte>)
    ensures |bs| == n
    ensures v < Pow256(n) ==> FromLe(bs) == v
  {
    if n == 0 then []
    else
      var rest := LeBytes(v / 256, n - 1);
      assert ([v % 256] + rest)[1..] == rest;
      [v % 256] + rest
  }

  /** `u64::to_le_bytes`: eight bytes from which the value is recovered exactly. */
  function ToLeBytes(v: u64): (bs: seq<byte>)
    ensures |bs| == 8
    ensures FromLe(bs) == v
  {
    assert Pow256(8) == 0x1_0000_0000_0000_0000 by {
      assert Pow256(4) == 0x1_0000_0000;
    }
    LeBytes(v, 8)
  }

  /** Distinct `u64` values have distinct little-endian layouts. */
  lemma ToLeBytesInjective(a: u64, b: u64)
    ensures ToLeBytes(a) == ToLeBytes(b) <==> a == b
  {
  }
}
