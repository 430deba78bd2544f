/** Octets, little-endian fields and the address-rounding macro shared by the other modules. */
module Bytes {

  type Byte = b: int | 0 <= b < 256

  function Least(a: nat, b: nat): nat { if a < b then a else b }

  /** 256 to the power `w`: the number of values an unsigned field of `w` octets can hold. */
  function Capacity(w: nat): (c: nat)
    ensures c >= 1
  {
    if w == 0 then 1 else 256 * Capacity(w - 1)
  }

  /** The number that the octets of `s` denote, least significant octet first. */
  function LittleEndian(s: seq<Byte>): nat {
    if s == [] then 0 else s[0] + 256 * LittleEndian(s[1..])
  }

  /** The `w` octets of `v`, least significant octet first. */
  function ToLittleEndian(v: nat, w: nat): (s: seq<Byte>)
    ensures |s| == w
  {
    if w == 0 then [] else [v % 256] + ToLittleEndian(v / 256, w - 1)
  }

  lemma {:induction false} LittleEndianRoundTrip(v: nat, w: nat)
    requires v < Capacity(w)
    ensures LittleEndian(ToLittleEndian(v, w)) == v
  {
    if w > 0 {
      LittleEndianRoundTrip(v / 256, w - 1);
      assert ToLittleEndian(v, w)[1..] == ToLittleEndian(v / 256, w - 1);
    }
  }

  /** `n` rounded up to a multiple of `a`. */
  function RoundUp(n: nat, a: nat): (r: nat)
    requires a > 0
    ensures n <= r < n + a && r % a == 0
  {
    MultipleIsAligned((n + a - 1) / a, a);
    (n + a - 1) / a * a
  }

  lemma MultipleIsAligned(k: int, a: nat)
    requires a > 0
    ensures k * a % a == 0
  {
    QuotientUnique(k * a, a, k, 0);
  }

  lemma QuotientUnique(x: int, a: nat, q: int, r: int)
    requires a > 0 && x == q * a + r && 0 <= r < a
    ensures x / a == q && x % a == r
  {
    var d := x / a - q;
    assert d * a == r - x % a;
    ProductBound(d, a);
  }

  lemma ProductBound(d: int, a: int)
    requires a > 0
    ensures d > 0 ==> d * a >= a
    ensures d < 0 ==> d * a <= -a
  {
    if d > 0 {
      assert (d - 1) * a >= 0;
    } else if d < 0 {
      assert (-d - 1) * a >= 0;
    }
  }

  lemma AlignedSum(x: int, y: int, a: nat)
    requires a > 0 && x % a == 0 && y % a == 0
    ensures (x + y) % a == 0 && (x - y) % a == 0
  {
    MultipleIsAligned(x / a + y / a, a);
    MultipleIsAligned(x / a - y / a, a);
    assert (x / a + y / a) * a == x + y;
    assert (x / a - y / a) * a == x - y;
  }
}
