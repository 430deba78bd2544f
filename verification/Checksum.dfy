/** The Internet checksum of src/lib/liblwip/core/inet_chksum.c: three ways to sum a buffer, and
    the sums over chains of buffers with odd-sized pieces.

    The host is little-endian (src/lib/liblwip/arch/cc.h:41). u32_t arithmetic wraps. */
module Checksum {
  import opened Bytes

  // ---------------------------------------------------------------- the reference, RFC 1071

  /** Addition with end-around carry on 16-bit words. */
  function OnesAdd(a: nat, b: nat): nat {
    if a + b < 0x10000 then a + b else a + b - 0xffff
  }

  /** The one's complement sum of the 16-bit words of `d`, most significant octet first, an odd
      last octet padded with zero (sections 1 and 2 of RFC 1071). */
  function OnesSum(d: seq<Byte>): nat {
    if d == [] then 0
    else if |d| == 1 then (d[0] as nat) * 256
    else OnesAdd((d[0] as nat) * 256 + d[1], OnesSum(d[2..]))
  }

  // ---------------------------------------------------------------- macros

  /** FOLD_U32T */
  function Fold(x: nat): nat { x / 0x10000 + x % 0x10000 }

  /** SWAP_BYTES_IN_WORD, and lwip_htons on this host */
  function Swap(x: nat): nat { x % 256 * 256 + x / 256 % 256 }

  /** u32_t addition */
  function Add32(x: nat, y: nat): nat { (x + y) % 0x1_0000_0000 }

  // ---------------------------------------------------------------- sums modulo 0xffff

  predicate Same(x: int, y: int) { (x - y) % 0xffff == 0 }

  /** The octets of `d` weighted 1, 256, 1, 256, ... up to multiples of 0xffff. */
  function Weigh(d: seq<Byte>): nat {
    if d == [] then 0 else d[0] + 256 * Weigh(d[1..])
  }

  predicate AllZero(d: seq<Byte>) { forall i | 0 <= i < |d| :: d[i] == 0 }

  /** The 16-bit representative of `x` modulo 0xffff, where only 0 itself gives 0. */
  function Canon(x: nat): nat { if x == 0 then 0 else (x - 1) % 0xffff + 1 }

  lemma CanonIs(x: nat, y: nat)
    requires y <= 0xffff && Same(x, y) && (x == 0 <==> y == 0)
    ensures Canon(x) == y
  {
  }

  /** What a sum `x` has to satisfy to stand for the octets `d`. */
  ghost predicate Stands(x: nat, d: seq<Byte>) {
    Same(x, Weigh(d)) && (x == 0 <==> AllZero(d))
  }

  lemma {:induction false} WeighZero(d: seq<Byte>)
    ensures Weigh(d) == 0 <==> AllZero(d)
  {
    if d != [] {
      WeighZero(d[1..]);
      assert d == [d[0]] + d[1..];
    }
  }

  lemma StandsIsCanon(x: nat, d: seq<Byte>)
    requires Stands(x, d) && x <= 0xffff
    ensures x == Canon(Weigh(d))
  {
    hide Same, Canon;
    WeighZero(d);
    SameSquare(x);
    SameTrans(x, Weigh(d), Weigh(d));
    CanonIs(Weigh(d), x);
  }

  lemma SameTimes(x: int, y: int)
    requires Same(x, y)
    ensures Same(256 * x, 256 * y)
  {
    assert 256 * x - 256 * y == 256 * (x - y);
  }

  lemma SameTrans(x: int, y: int, z: int)
    requires Same(x, y) && Same(y, z)
    ensures Same(x, z) && Same(z, x) && Same(y, x)
  {
    assert x - z == (x - y) + (y - z);
  }

  lemma SameSum(x: int, y: int, u: int, v: int)
    requires Same(x, y) && Same(u, v)
    ensures Same(x + u, y + v)
  {
    assert (x + u) - (y + v) == (x - y) + (u - v);
  }

  /** 256 * 256 is 1 modulo 0xffff. */
  lemma SameSquare(x: int)
    ensures Same(256 * (256 * x), x) && Same(x, x)
  {
    assert 256 * (256 * x) - x == 0xffff * x;
  }

  /** Weights are periodic: what follows an even number of octets keeps its weight, what
      follows an odd number is multiplied by 256. */
  lemma {:induction false} WeighConcat(a: seq<Byte>, b: seq<Byte>)
    ensures Same(Weigh(a + b), Weigh(a) + if |a| % 2 == 0 then Weigh(b) else 256 * Weigh(b))
  {
    hide Same;
    SameSquare(Weigh(b));
    if a == [] {
      assert a + b == b;
    } else {
      WeighConcat(a[1..], b);
      assert (a + b)[1..] == a[1..] + b && (a + b)[0] == a[0];
      assert Weigh(a + b) == a[0] + 256 * Weigh(a[1..] + b);
      if |a| % 2 == 0 {
        ShiftConcat(a[0], Weigh(a[1..]), 256 * Weigh(b), Weigh(b), Weigh(a[1..] + b));
      } else {
        SameRefl(256 * Weigh(b));
        ShiftConcat(a[0], Weigh(a[1..]), Weigh(b), 256 * Weigh(b), Weigh(a[1..] + b));
      }
    }
  }

  lemma ShiftConcat(x: nat, w: nat, v: nat, v': nat, c: nat)
    requires Same(c, w + v) && Same(256 * v, v')
    ensures Same(x + 256 * c, x + 256 * w + v')
  {
    hide Same;
    SameTimes(c, w + v);
    SameRefl(x);
    SameSum(x, x, 256 * c, 256 * (w + v));
    SameRefl(x + 256 * w);
    SameSum(x + 256 * w, x + 256 * w, 256 * v, v');
    SameTrans(x + 256 * c, x + 256 * w + 256 * v, x + 256 * w + v');
  }

  lemma AllZeroConcat(a: seq<Byte>, b: seq<Byte>)
    ensures AllZero(a + b) <==> AllZero(a) && AllZero(b)
  {
    assert forall i | 0 <= i < |a| :: (a + b)[i] == a[i];
    assert forall i | 0 <= i < |b| :: (a + b)[|a| + i] == b[i];
  }

  lemma FoldFacts(x: nat)
    ensures Same(Fold(x), x) && (Fold(x) == 0 <==> x == 0)
    ensures x < 0x1_0000_0000 ==> Fold(x) <= 0x1fffe
    ensures x <= 0x1fffe ==> Fold(x) <= 0xffff
  {
    assert Fold(x) == x - 0xffff * (x / 0x10000);
  }

  lemma SwapFacts(x: nat)
    requires x <= 0xffff
    ensures Swap(x) <= 0xffff && Same(Swap(x), 256 * x) && Same(256 * Swap(x), x) && (Swap(x) == 0 <==> x == 0)
    ensures Swap(Swap(x)) == x
  {
    assert x == x / 256 * 256 + x % 256;
    assert 256 * x - Swap(x) == 0xffff * (x / 256);
    assert 256 * Swap(x) - x == 0xffff * (x % 256);
  }

  /** Two octets as the host reads them. */
  function Word(d: seq<Byte>, i: nat): nat
    requires i + 2 <= |d|
  {
    (d[i] as nat) + 256 * (d[i + 1] as nat)
  }

  lemma WeighSmall(x: Byte, y: Byte)
    ensures Weigh([x]) == x && Weigh([x, y]) == (x as nat) + 256 * (y as nat)
    ensures (AllZero([x]) <==> x == 0) && (AllZero([x, y]) <==> x == 0 && y == 0)
  {
    assert [x][1..] == [] && [y][1..] == [] && [x, y][1..] == [y];
    assert Weigh([y]) == y + 256 * Weigh([]);
  }

  /** Appending what stands for `b` behind an even number of octets adds it to the sum. */
  lemma StandsConcat(x: nat, a: seq<Byte>, y: nat, b: seq<Byte>, z: nat)
    requires Stands(x, a) && Stands(y, b) && |a| % 2 == 0
    requires Same(z, x + y) && (z == 0 <==> x == 0 && y == 0)
    ensures Stands(z, a + b)
  {
    hide Same;
    WeighConcat(a, b);
    AllZeroConcat(a, b);
    SameSum(x, Weigh(a), y, Weigh(b));
    SameTrans(z, x + y, Weigh(a) + Weigh(b));
    SameSquare(Weigh(a + b));
    SameTrans(Weigh(a + b), Weigh(a + b), Weigh(a) + Weigh(b));
    SameTrans(z, Weigh(a) + Weigh(b), Weigh(a + b));
  }

  lemma WordStands(d: seq<Byte>, i: nat)
    requires i + 2 <= |d|
    ensures Stands(Word(d, i), d[i..i + 2])
  {
    WeighSmall(d[i], d[i + 1]);
    assert d[i..i + 2] == [d[i], d[i + 1]];
  }

  /** Putting one octet in front shifts everything else. */
  lemma StandsPrepend(x: nat, d: seq<Byte>, y: nat)
    requires d != [] && Stands(x, d[1..])
    requires Same(y, d[0] + 256 * x) && (y == 0 <==> x == 0 && d[0] == 0)
    ensures Stands(y, d)
  {
    hide Same;
    SameTimes(x, Weigh(d[1..]));
    SameSquare(d[0]);
    SameSum(d[0], d[0], 256 * x, 256 * Weigh(d[1..]));
    SameTrans(y, d[0] + 256 * x, Weigh(d));
    WeighSmall(d[0], 0);
    assert d == [d[0]] + d[1..];
    AllZeroConcat([d[0]], d[1..]);
  }

  lemma OnesAddStands(x: nat, y: nat, b: nat, w: nat)
    requires x < 256 && y < 256 && b <= 0xffff && Same(256 * b, w)
    ensures Same(256 * OnesAdd(x * 256 + y, b), x + 256 * (y + 256 * w))
  {
    var a := x * 256 + y;
    assert Same(256 * OnesAdd(a, b), 256 * a + 256 * b) by {
      assert 256 * OnesAdd(a, b) - (256 * a + 256 * b) == if a + b < 0x10000 then 0 else -256 * 0xffff;
    }
    hide Same;
    SameSquare(x);
    SameSquare(256 * y);
    SameSquare(w);
    SameTrans(256 * (256 * w), w, w);
    SameTrans(256 * b, w, 256 * (256 * w));
    SameSum(256 * (256 * x), x, 256 * y, 256 * y);
    SameSum(256 * (256 * x) + 256 * y, x + 256 * y, 256 * b, 256 * (256 * w));
    SameTrans(256 * OnesAdd(a, b), 256 * a + 256 * b, x + 256 * y + 256 * (256 * w));
  }

  // ---------------------------------------------------------------- the reference has the same sum

  lemma {:induction false} OnesSumBound(d: seq<Byte>)
    ensures OnesSum(d) <= 0xffff
  {
    if |d| > 1 { OnesSumBound(d[2..]); }
  }

  lemma {:induction false} OnesSumStands(d: seq<Byte>)
    ensures OnesSum(d) <= 0xffff && Same(256 * OnesSum(d), Weigh(d)) && (OnesSum(d) == 0 <==> AllZero(d))
  {
    hide Same;
    SameSquare(0);
    if |d| == 1 {
      WeighSmall(d[0], 0);
      assert d == [d[0]];
      SameSquare(d[0]);
    } else if |d| > 1 {
      OnesSumStands(d[2..]);
      OnesSumBound(d[2..]);
      var x, y, b, w := d[0] as nat, d[1] as nat, OnesSum(d[2..]), Weigh(d[2..]);
      assert Weigh(d) == x + 256 * (y + 256 * w) by { assert d[1..][1..] == d[2..]; }
      OnesAddStands(x, y, b, w);
      WeighSmall(d[0], d[1]);
      assert d == [d[0], d[1]] + d[2..];
      AllZeroConcat([d[0], d[1]], d[2..]);
    }
  }

  /** The checksum value that stands for `d` is the reference sum in host order. */
  lemma ReferenceIsCanon(d: seq<Byte>)
    ensures Swap(OnesSum(d)) == Canon(Weigh(d))
  {
    hide Same, Swap, Canon;
    OnesSumStands(d);
    SwapFacts(OnesSum(d));
    SameTrans(Swap(OnesSum(d)), 256 * OnesSum(d), Weigh(d));
    StandsIsCanon(Swap(OnesSum(d)), d);
  }

  // ---------------------------------------------------------------- one buffer

  /** `x` stands for the octets [lo, hi) of `d`, an even number of them. */
  ghost predicate Summed(x: nat, d: seq<Byte>, lo: nat, hi: nat) {
    lo <= hi <= |d| && (hi - lo) % 2 == 0 && Stands(x, d[lo..hi])
  }

  lemma SummedNothing(d: seq<Byte>, lo: nat)
    requires lo <= |d|
    ensures Summed(0, d, lo, lo)
  {
    assert d[lo..lo] == [];
  }

  lemma SummedMore(x: nat, d: seq<Byte>, lo: nat, mid: nat, hi: nat, y: nat, z: nat)
    requires Summed(x, d, lo, mid) && mid <= hi <= |d| && Stands(y, d[mid..hi])
    requires Same(z, x + y) && (z == 0 <==> x == 0 && y == 0)
    ensures Stands(z, d[lo..hi])
  {
    assert d[lo..hi] == d[lo..mid] + d[mid..hi];
    StandsConcat(x, d[lo..mid], y, d[mid..hi], z);
  }

  lemma TailStands(d: seq<Byte>, i: nat)
    requires i + 1 == |d|
    ensures Stands(d[i], d[i..])
  {
    WeighSmall(d[i], 0);
    assert d[i..] == [d[i]];
    SameSquare(d[i]);
  }

  lemma BigWordStands(d: seq<Byte>, i: nat)
    requires i + 2 <= |d|
    ensures Stands(256 * ((d[i] as nat) * 256 + d[i + 1]), d[i..i + 2])
  {
    WordStands(d, i);
    var x, y := d[i] as nat, d[i + 1] as nat;
    assert 256 * (x * 256 + y) - Word(d, i) == 0xffff * x;
    hide Stands;
    StandsSame(256 * (x * 256 + y), Word(d, i), d[i..i + 2]);
  }

  lemma StandsSame(x: nat, y: nat, d: seq<Byte>)
    requires Stands(y, d) && Same(x, y) && (x == 0 <==> y == 0)
    ensures Stands(x, d)
  {
    hide Same;
    SameTrans(x, y, Weigh(d));
  }

  /** Two folds bring any 32-bit sum down to 16 bits without changing what it stands for. */
  lemma FoldTwice(x: nat, d: seq<Byte>)
    requires Stands(x, d) && x < 0x1_0000_0000
    ensures Stands(Fold(Fold(x)), d) && Fold(Fold(x)) <= 0xffff && Stands(Fold(x), d)
  {
    FoldFacts(x);
    FoldFacts(Fold(x));
    hide Stands, Same, Fold;
    StandsSame(Fold(x), x, d);
    StandsSame(Fold(Fold(x)), Fold(x), d);
  }

  /** Version 1: octet by octet, in network order, at any address. */
  method Chksum1(d: seq<Byte>) returns (r: nat)
    requires |d| <= 0x20000
    ensures r == Swap(OnesSum(d))
  {
    hide Stands, Same, Fold, Swap, Weigh;
    var acc: nat, i: nat := 0, 0;
    SummedNothing(d, 0);
    while |d| - i > 1
      invariant i <= |d| && i % 2 == 0 && acc <= 0xffff * (i / 2) && Summed(256 * acc, d, 0, i)
    {
      var src := (d[i] as nat) * 256 + d[i + 1];
      BigWordStands(d, i);
      SameRefl(256 * (acc + src));
      SummedMore(256 * acc, d, 0, i, i + 2, 256 * src, 256 * (acc + src));
      acc := Add32(acc, src);
      i := i + 2;
    }
    if |d| - i > 0 {
      var src := (d[i] as nat) * 256;
      BigTail(d, i);
      assert d[i..|d|] == d[i..];
      SameRefl(256 * (acc + src));
      SummedMore(256 * acc, d, 0, i, |d|, 256 * src, 256 * (acc + src));
      acc := Add32(acc, src);
    }
    assert d[0..|d|] == d;
    BigFolds(acc, d);
    acc := Fold(acc);
    if acc > 0xffff { acc := Fold(acc); }
    r := Swap(acc);
    ReferenceIsCanon(d);
  }

  lemma SameRefl(x: int)
    ensures Same(x, x)
  {
  }

  lemma BigTail(d: seq<Byte>, i: nat)
    requires i + 1 == |d|
    ensures Stands(256 * ((d[i] as nat) * 256), d[i..])
  {
    TailStands(d, i);
    SameSquare(d[i]);
    hide Stands, Same;
    StandsSame(256 * ((d[i] as nat) * 256), d[i], d[i..]);
  }

  /** Folding and byte-swapping a network-order sum gives the value that stands for `d`. */
  lemma BigFolds(acc: nat, d: seq<Byte>)
    requires acc < 0x1_0000_0000 && Stands(256 * acc, d)
    ensures Fold(Fold(acc)) <= 0xffff && Swap(Fold(Fold(acc))) == Canon(Weigh(d))
    ensures Fold(acc) <= 0xffff ==> Swap(Fold(acc)) == Canon(Weigh(d))
  {
    FoldFacts(acc);
    FoldFacts(Fold(acc));
    BigSwap(acc, Fold(acc), d);
    SameTrans(Fold(Fold(acc)), Fold(acc), acc);
    BigSwap(acc, Fold(Fold(acc)), d);
  }

  lemma BigSwap(acc: nat, f: nat, d: seq<Byte>)
    requires Stands(256 * acc, d) && Same(f, acc) && (f == 0 <==> acc == 0)
    ensures f <= 0xffff ==> Swap(f) == Canon(Weigh(d))
  {
    hide Same, Swap, Canon;
    if f <= 0xffff {
      SwapFacts(f);
      SameTimes(f, acc);
      SameTrans(Swap(f), 256 * f, 256 * acc);
      StandsSame(Swap(f), 256 * acc, d);
      StandsIsCanon(Swap(f), d);
    }
  }

  /** Version 2: aligned 16-bit words; the odd octets at either end are put together into `t`.
      The 32-bit accumulator does not wrap. */
  method Chksum2(d: seq<Byte>, addr: nat) returns (r: nat)
    requires |d| <= 0x20000
    ensures r == Swap(OnesSum(d))
  {
    hide Stands, Same, Fold, Swap, Weigh, OnesSum;
    var t: nat, sum: nat, pos: nat := 0, 0, 0;
    var odd := addr % 2 == 1;
    if odd && |d| > 0 {
      t := (d[0] as nat) * 256;
      pos := 1;
    }
    var start := pos;
    SummedNothing(d, start);
    while |d| - pos > 1
      invariant start <= pos <= |d| && sum <= 0xffff * ((pos - start) / 2) && Summed(sum, d, start, pos)
    {
      WordStands(d, pos);
      SameRefl(sum + Word(d, pos));
      SummedMore(sum, d, start, pos, pos + 2, Word(d, pos), sum + Word(d, pos));
      sum := Add32(sum, Word(d, pos));
      pos := pos + 2;
    }
    r := Finish(d, start, pos, sum, t, odd);
  }

  /** The common end of versions 2 and 3: a dangling octet joins `t`. */
  method Finish(d: seq<Byte>, ghost start: nat, pos: nat, sum: nat, t0: nat, odd: bool) returns (r: nat)
    requires Summed(sum, d, start, pos) && |d| - pos <= 1 && sum <= 0xffff_ffff - (if pos < |d| || start == 1 then 0xffff else 0)
    requires start == (if odd && |d| > 0 then 1 else 0)
    requires t0 == if start == 1 then (d[0] as nat) * 256 else 0
    ensures r == Swap(OnesSum(d))
  {
    hide Stands, Same, Fold, Swap, Weigh, OnesSum;
    var t: nat := t0;
    ghost var body: nat := sum;
    if |d| - pos > 0 {
      TailStands(d, pos);
      assert d[pos..|d|] == d[pos..];
      SameRefl(sum + d[pos]);
      SummedMore(sum, d, start, pos, |d|, d[pos], sum + d[pos]);
      body := sum + d[pos];
      t := t + d[pos];
    }
    assert d[start..|d|] == d[start..];
    r := EndBytes(d, start, body, Add32(sum, t), odd);
  }

  /** Then fold twice, swap if the buffer began at an odd
      address. `body` stands for everything behind the first octet of such a buffer. */
  method EndBytes(d: seq<Byte>, ghost start: nat, ghost body: nat, sum: nat, odd: bool) returns (r: nat)
    requires start <= |d| && Stands(body, d[start..]) && sum < 0x1_0000_0000
    requires start == (if odd && |d| > 0 then 1 else 0)
    requires sum == body + if start == 1 then (d[0] as nat) * 256 else 0
    ensures r == Swap(OnesSum(d))
  {
    hide Stands, Same, Fold, Swap, Weigh, OnesSum;
    FoldFacts(sum);
    FoldFacts(Fold(sum));
    r := Fold(Fold(sum));
    SameTrans(r, Fold(sum), sum);
    ReferenceIsCanon(d);
    if start == 1 {
      OddStart(d, body, sum, r);
    } else {
      assert d[0..] == d;
      StandsSame(r, sum, d);
      StandsIsCanon(r, d);
      if odd { EmptySum(d, r); }
    }
    if odd {
      r := Swap(r);
    }
  }

  lemma EmptySum(d: seq<Byte>, r: nat)
    requires d == [] && r == Canon(Weigh(d))
    ensures Swap(r) == r
  {
  }

  lemma OddStart(d: seq<Byte>, body: nat, sum: nat, r: nat)
    requires d != [] && Stands(body, d[1..]) && sum == body + (d[0] as nat) * 256
    requires Same(r, sum) && (r == 0 <==> sum == 0) && r <= 0xffff
    ensures Swap(r) == Canon(Weigh(d))
  {
    hide Same, Stands, Swap, Canon, Weigh;
    SwapFacts(r);
    var x := d[0] as nat;
    SameTimes(r, sum);
    SameTrans(Swap(r), 256 * r, 256 * sum);
    SameSquare(x);
    SameRefl(256 * body);
    SameSum(256 * (256 * x), x, 256 * body, 256 * body);
    assert 256 * (256 * x) + 256 * body == 256 * sum;
    SameTrans(Swap(r), 256 * sum, x + 256 * body);
    StandsPrepend(body, d, Swap(r));
    StandsIsCanon(Swap(r), d);
  }

  /** Add a 32-bit word and add back the carry. */
  method AddWithCarry(sum: nat, w: nat) returns (r: nat)
    requires sum < 0x1_0000_0000 && w < 0x1_0000_0000
    ensures r < 0x1_0000_0000 && Same(r, sum + w) && (r == 0 <==> sum == 0 && w == 0)
  {
    r := Add32(sum, w);
    if r < sum {
      r := r + 1;
      assert r - (sum + w) == -0xffff_ffff == -65537 * 0xffff;
    }
  }

  function DoubleWord(d: seq<Byte>, i: nat): nat
    requires i + 4 <= |d|
  {
    Word(d, i) + 0x10000 * Word(d, i + 2)
  }

  lemma DoubleWordStands(d: seq<Byte>, i: nat)
    requires i + 4 <= |d|
    ensures DoubleWord(d, i) < 0x1_0000_0000 && Stands(DoubleWord(d, i), d[i..i + 4])
  {
    var x, y := Word(d, i), Word(d, i + 2);
    WordStands(d, i);
    WordStands(d, i + 2);
    assert d[i..i + 4] == d[i..i + 2] + d[i + 2..i + 4];
    assert DoubleWord(d, i) - (x + y) == 0xffff * y;
    hide Stands;
    StandsConcat(x, d[i..i + 2], y, d[i + 2..i + 4], DoubleWord(d, i));
  }

  /** Version 3: aligned 32-bit words, eight octets per turn, for any length. */
  method Chksum3(d: seq<Byte>, addr: nat) returns (r: nat)
    ensures r == Swap(OnesSum(d))
  {
    hide Stands, Same, Fold, Swap, Weigh, OnesSum, DoubleWord;
    var t: nat, sum: nat, pos: nat := 0, 0, 0;
    var odd := addr % 2 == 1;
    if odd && |d| > 0 {
      t := (d[0] as nat) * 256;
      pos := 1;
    }
    var start := pos;
    SummedNothing(d, start);
    if (addr + pos) % 4 != 0 && |d| - pos > 1 {
      sum := AddWord(d, start, pos, sum);
      pos := pos + 2;
    }
    while |d| - pos > 7
      invariant start <= pos <= |d| && sum < 0x1_0000_0000 && Summed(sum, d, start, pos)
    {
      var tmp := AddDouble(d, start, pos, sum);
      sum := AddDouble(d, start, pos + 4, tmp);
      pos := pos + 8;
    }
    FoldFacts(sum);
    StandsSame(Fold(sum), sum, d[start..pos]);
    sum := Fold(sum);
    ghost var base := pos;
    while |d| - pos > 1
      invariant base <= pos <= |d| && |d| - base <= 7 && sum <= 0x1fffe + 0xffff * ((pos - base) / 2)
      invariant Summed(sum, d, start, pos)
    {
      sum := AddWord(d, start, pos, sum);
      pos := pos + 2;
    }
    r := Finish(d, start, pos, sum, t, odd);
  }

  method AddWord(d: seq<Byte>, ghost start: nat, pos: nat, sum: nat) returns (r: nat)
    requires pos + 2 <= |d| && Summed(sum, d, start, pos) && sum < 0xf000_0000
    ensures Summed(r, d, start, pos + 2) && r == sum + Word(d, pos)
  {
    WordStands(d, pos);
    hide Stands, Same;
    SameRefl(sum + Word(d, pos));
    SummedMore(sum, d, start, pos, pos + 2, Word(d, pos), sum + Word(d, pos));
    r := Add32(sum, Word(d, pos));
  }

  method AddDouble(d: seq<Byte>, ghost start: nat, pos: nat, sum: nat) returns (r: nat)
    requires pos + 4 <= |d| && Summed(sum, d, start, pos) && sum < 0x1_0000_0000
    ensures Summed(r, d, start, pos + 4) && r < 0x1_0000_0000
  {
    hide Stands, Same, DoubleWord;
    DoubleWordStands(d, pos);
    r := AddWithCarry(sum, DoubleWord(d, pos));
    SummedMore(sum, d, start, pos, pos + 4, DoubleWord(d, pos), r);
  }

  /** inet_chksum with version 2: the complement of the reference sum. */
  method InetChksum(d: seq<Byte>, addr: nat) returns (r: nat)
    requires |d| <= 0xffff
    ensures r == 0xffff - Swap(OnesSum(d))
    ensures r <= 0xffff
  {
    var c := Chksum2(d, addr);
    OnesSumBound(d);
    SwapFacts(OnesSum(d));
    r := 0xffff - c;
  }

  // ---------------------------------------------------------------- chains of buffers

  /** The payload of one pbuf and the address it starts at; q->len is an u16_t. */
  datatype Piece = Piece(addr: nat, bytes: seq<Byte>)

  ghost predicate Pieces(ps: seq<Piece>) { forall i | 0 <= i < |ps| :: |ps[i].bytes| <= 0xffff }

  /** The payloads one behind the other. */
  ghost function Flat(ps: seq<Piece>): seq<Byte> {
    if ps == [] then [] else Flat(ps[..|ps| - 1]) + ps[|ps| - 1].bytes
  }

  /** The accumulator of the chain loops, seen through its `swapped` flag. */
  function Seen(acc: nat, swapped: bool): nat { if swapped then Swap(acc) else acc }

  /** One turn of the chain loops on `p`, whose sum is `c`, up to the swap. */
  lemma PieceAdded(acc: nat, swapped: bool, d: seq<Byte>, c: nat, p: seq<Byte>)
    requires acc <= 0xffff && c <= 0xffff && Stands(Seen(acc, swapped), d) && Stands(c, p)
    requires swapped == (|d| % 2 == 1)
    ensures Fold(acc + c) <= 0xffff && Stands(Seen(Fold(acc + c), swapped), d + p)
  {
    FoldFacts(acc + c);
    SwapFacts(acc);
    SwapFacts(Fold(acc + c));
    hide Same, Stands, Fold, Swap;
    if swapped {
      AddedAfterOdd(acc, d, c, p, Fold(acc + c));
    } else {
      StandsConcat(acc, d, c, p, Fold(acc + c));
    }
  }

  lemma AddedAfterOdd(acc: nat, d: seq<Byte>, c: nat, p: seq<Byte>, f: nat)
    requires acc <= 0xffff && f <= 0xffff && Stands(Swap(acc), d) && Stands(c, p) && |d| % 2 == 1
    requires Same(f, acc + c) && (f == 0 <==> acc == 0 && c == 0)
    ensures Stands(Swap(f), d + p)
  {
    hide Same, Swap;
    SwapFacts(acc);
    SwapFacts(f);
    WeighConcat(d, p);
    AllZeroConcat(d, p);
    SameTimes(f, acc + c);
    SameTrans(Swap(f), 256 * f, 256 * (acc + c));
    SameTimes(c, Weigh(p));
    SameRefl(256 * acc);
    SameTrans(Swap(acc), 256 * acc, 256 * acc);
    SameTrans(256 * acc, Swap(acc), Weigh(d));
    SameSum(256 * acc, Weigh(d), 256 * c, 256 * Weigh(p));
    assert 256 * (acc + c) == 256 * acc + 256 * c;
    SameTrans(Swap(f), 256 * (acc + c), Weigh(d) + 256 * Weigh(p));
    SameRefl(Weigh(d + p));
    SameTrans(Weigh(d + p), Weigh(d + p), Weigh(d) + 256 * Weigh(p));
    SameTrans(Swap(f), Weigh(d) + 256 * Weigh(p), Weigh(d + p));
  }

  lemma StartSeen(acc: nat, ps: seq<Piece>)
    ensures Seen(acc, false) == acc && Seen(acc, true) == Swap(acc) && Flat(ps[..0]) == []
  {
  }

  lemma SeenSwapped(acc: nat, swapped: bool)
    requires acc <= 0xffff
    ensures Seen(Swap(acc), !swapped) == Seen(acc, swapped) && Swap(acc) <= 0xffff && Seen(acc, swapped) <= 0xffff
    ensures Seen(acc, swapped) == if swapped then Swap(acc) else acc
  {
    SwapFacts(acc);
  }

  /** Chksum2 of a buffer stands for it. */
  method PieceSum(p: seq<Byte>, addr: nat) returns (c: nat)
    requires |p| <= 0xffff
    ensures c <= 0xffff && Stands(c, p)
  {
    c := Chksum2(p, addr);
    OnesSumStands(p);
    SwapFacts(OnesSum(p));
    hide Same, Swap;
    SameTrans(Swap(OnesSum(p)), 256 * OnesSum(p), Weigh(p));
  }

  lemma FlatMore(ps: seq<Piece>, i: nat)
    requires i < |ps|
    ensures Flat(ps[..i + 1]) == Flat(ps[..i]) + ps[i].bytes
  {
    assert ps[..i + 1][..i] == ps[..i];
  }

  /** The loop of inet_chksum_pbuf and inet_cksum_pseudo_base: whatever `acc` stood for before,
      it stands for that with all payloads behind it afterwards. */
  method SumChain(ps: seq<Piece>, acc0: nat, ghost a: seq<Byte>) returns (acc: nat)
    requires Pieces(ps) && acc0 <= 0xffff && Stands(acc0, a) && |a| % 2 == 0
    ensures acc <= 0xffff && Stands(acc, a + Flat(ps))
  {
    hide Stands, Swap, Fold, Same;
    acc := acc0;
    var swapped, i: nat := false, 0;
    assert a + Flat(ps[..0]) == a;
    while i < |ps|
      invariant i <= |ps| && acc <= 0xffff
      invariant swapped == (|a + Flat(ps[..i])| % 2 == 1)
      invariant Stands(Seen(acc, swapped), a + Flat(ps[..i]))
    {
      ghost var d := a + Flat(ps[..i]);
      var c := PieceSum(ps[i].bytes, ps[i].addr);
      PieceAdded(acc, swapped, d, c, ps[i].bytes);
      FlatMore(ps, i);
      assert a + Flat(ps[..i + 1]) == d + ps[i].bytes;
      acc := Fold(acc + c);
      if |ps[i].bytes| % 2 != 0 {
        SeenSwapped(acc, swapped);
        swapped := !swapped;
        acc := Swap(acc);
      }
      i := i + 1;
    }
    assert ps[..i] == ps;
    SeenSwapped(acc, swapped);
    if swapped {
      acc := Swap(acc);
    }
  }

  /** inet_chksum_pbuf equals inet_chksum of the flat octets, however they are cut up. */
  method InetChksumPbuf(ps: seq<Piece>) returns (r: nat)
    requires Pieces(ps)
    ensures r == 0xffff - Swap(OnesSum(Flat(ps)))
  {
    SameSquare(0);
    var acc := SumChain(ps, 0, []);
    assert [] + Flat(ps) == Flat(ps);
    StandsIsCanon(acc, Flat(ps));
    ReferenceIsCanon(Flat(ps));
    r := 0xffff - acc;
  }

  // ---------------------------------------------------------------- pseudo headers

  /** The IPv4 pseudo header: source, destination, zero, protocol, length. */
  ghost function PseudoHeader(src: seq<Byte>, dst: seq<Byte>, proto: Byte, len: nat): seq<Byte>
    requires len <= 0xffff
  {
    src + dst + [0, proto] + [len / 256, len % 256]
  }

  /** Fold the two addresses down to 16 bits, as the callers of the two base functions do. */
  method AddressSum(src: seq<Byte>, dst: seq<Byte>) returns (acc: nat)
    requires |src| == 4 && |dst| == 4
    ensures acc <= 0xffff && Stands(acc, src + dst)
  {
    var x, y := DoubleWord(src, 0), DoubleWord(dst, 0);
    acc := x % 0x10000 + x / 0x10000 + y % 0x10000 + y / 0x10000;
    AddressesStand(src, dst, acc);
    FoldTwice(acc, src + dst);
    acc := Fold(Fold(acc));
  }

  lemma AddressesStand(src: seq<Byte>, dst: seq<Byte>, acc: nat)
    requires |src| == 4 && |dst| == 4
    requires acc == Fold(DoubleWord(src, 0)) + Fold(DoubleWord(dst, 0))
    ensures acc < 0x1_0000_0000 && Stands(acc, src + dst)
  {
    hide Stands, Same, Fold, DoubleWord;
    var x, y := DoubleWord(src, 0), DoubleWord(dst, 0);
    DoubleWordStands(src, 0);
    DoubleWordStands(dst, 0);
    assert src[0..4] == src && dst[0..4] == dst;
    FoldFacts(x);
    FoldFacts(y);
    StandsSame(Fold(x), x, src);
    StandsSame(Fold(y), y, dst);
    SameRefl(Fold(x) + Fold(y));
    StandsConcat(Fold(x), src, Fold(y), dst, acc);
  }

  /** The end of both base functions: add protocol and length, fold, complement. `d` is what the
      accumulator stands for, the addresses first. */
  method PseudoEnd(acc: nat, proto: Byte, len: nat, ghost addrs: seq<Byte>, ghost data: seq<Byte>) returns (r: nat)
    requires acc <= 0xffff && len <= 0xffff && |addrs| % 2 == 0 && Stands(acc, addrs + data)
    ensures r == 0xffff - Swap(OnesSum(addrs + [0, proto] + [len / 256, len % 256] + data))
  {
    hide Stands, Same, Swap, Fold, OnesSum;
    ghost var h: seq<Byte> := [0, proto] + [len / 256, len % 256];
    ghost var all := addrs + [0, proto] + [len / 256, len % 256] + data;
    assert addrs + [0, proto] + [len / 256, len % 256] == addrs + h;
    var sum := acc + Swap(proto) + Swap(len);
    FourBytes(proto, len);
    InsertEven(acc, addrs, data, Swap(proto) + Swap(len), h, sum);
    FoldTwice(sum, all);
    StandsIsCanon(Fold(Fold(sum)), all);
    ReferenceIsCanon(all);
    r := 0xffff - Fold(Fold(sum));
  }

  lemma FourBytes(proto: Byte, len: nat)
    requires len <= 0xffff
    ensures Swap(proto) + Swap(len) <= 0x1fffe && Stands(Swap(proto) + Swap(len), [0, proto] + [len / 256, len % 256])
  {
    hide Same, Stands, Swap;
    SwappedWord(proto);
    SwappedWord(len);
    assert proto / 256 == 0 && proto % 256 == proto;
    SameRefl(Swap(proto) + Swap(len));
    StandsConcat(Swap(proto), [0, proto], Swap(len), [len / 256, len % 256], Swap(proto) + Swap(len));
  }

  /** A swapped 16-bit number stands for its octets, most significant first. */
  lemma SwappedWord(x: nat)
    requires x <= 0xffff
    ensures Swap(x) <= 0xffff && Stands(Swap(x), [x / 256, x % 256])
  {
    assert Swap(x) == x / 256 + 256 * (x % 256);
    hide Stands, Swap;
    TwoBytes(x / 256, x % 256, Swap(x));
  }

  lemma TwoBytes(x: Byte, y: Byte, z: nat)
    ensures z == (x as nat) + 256 * (y as nat) ==> Stands(z, [x, y])
  {
    WeighSmall(x, y);
    SameRefl(z);
  }

  /** An even number of octets may be inserted at an even place: sums do not see the order. */
  lemma InsertEven(x: nat, a: seq<Byte>, b: seq<Byte>, y: nat, h: seq<Byte>, z: nat)
    requires |a| % 2 == 0 && |h| % 2 == 0 && Stands(x, a + b) && Stands(y, h) && z == x + y
    ensures Stands(z, a + h + b)
  {
    hide Same, Weigh, AllZero;
    AllZeroConcat(a, b);
    AllZeroConcat(a + h, b);
    AllZeroConcat(a, h);
    InsertWeight(x, a, b, y, h);
  }

  lemma InsertWeight(x: nat, a: seq<Byte>, b: seq<Byte>, y: nat, h: seq<Byte>)
    requires |a| % 2 == 0 && |h| % 2 == 0 && Same(x, Weigh(a + b)) && Same(y, Weigh(h))
    ensures Same(x + y, Weigh(a + h + b))
  {
    hide Same, Weigh;
    var z, wa, wb, wh := x + y, Weigh(a), Weigh(b), Weigh(h);
    assert |a + h| % 2 == 0;
    WeighConcat(a, b);
    WeighConcat(a + h, b);
    WeighConcat(a, h);
    SameTrans(x, Weigh(a + b), wa + wb);
    SameSum(x, wa + wb, y, wh);
    SameRefl(wb);
    SameSum(Weigh(a + h), wa + wh, wb, wb);
    SameTrans(Weigh(a + h + b), Weigh(a + h) + wb, wa + wh + wb);
    SameTrans(z, wa + wb + wh, Weigh(a + h + b));
  }

  /** inet_chksum_pseudo: the checksum of the pseudo header followed by the flat octets. */
  method InetChksumPseudo(ps: seq<Piece>, proto: Byte, len: nat, src: seq<Byte>, dst: seq<Byte>) returns (r: nat)
    requires Pieces(ps) && len <= 0xffff && |src| == 4 && |dst| == 4
    ensures r == 0xffff - Swap(OnesSum(PseudoHeader(src, dst, proto, len) + Flat(ps)))
  {
    hide Stands, Swap, OnesSum;
    var acc := AddressSum(src, dst);
    acc := SumChain(ps, acc, src + dst);
    r := PseudoEnd(acc, proto, len, src + dst, Flat(ps));
  }

  /** inet_chksum_pseudo_partial: only the first `chksumLen` octets are covered, even though the
      loop decides about swapping by the full length of a pbuf it covers in part. `deleteMe`
      is the LWIP_ASSERT of src/lib/liblwip/core/inet_chksum.c:416, which fails exactly when
      0x7fff octets or more are still to come behind the first pbuf. */
  method InetChksumPseudoPartial(ps: seq<Piece>, proto: Byte, len: nat, chksumLen: nat, src: seq<Byte>, dst: seq<Byte>)
    returns (r: nat, deleteMe: bool)
    requires Pieces(ps) && len <= 0xffff && chksumLen <= 0xffff && |src| == 4 && |dst| == 4
    ensures r == 0xffff - Swap(OnesSum(PseudoHeader(src, dst, proto, len) + Flat(ps)[..Least(chksumLen, |Flat(ps)|)]))
    ensures deleteMe <==> (ps == [] || chksumLen == 0 || chksumLen - Least(|ps[0].bytes|, chksumLen) < 0x7fff)
  {
    hide Stands, Swap, OnesSum;
    var acc := AddressSum(src, dst);
    acc, deleteMe := SumPartial(ps, chksumLen, acc, src + dst);
    r := PseudoEnd(acc, proto, len, src + dst, Flat(ps)[..Least(chksumLen, |Flat(ps)|)]);
  }

  /** A datagram of 0x8000 octets with its first octet in a pbuf of its own, as an odd header
      added in front leaves it: the assertion fails, the checksum is right. */
  method DeleteMeFails(proto: Byte, src: seq<Byte>, dst: seq<Byte>, data: seq<Byte>) returns (r: nat, deleteMe: bool)
    requires |src| == 4 && |dst| == 4 && |data| == 0x8000
    ensures !deleteMe && r == 0xffff - Swap(OnesSum(PseudoHeader(src, dst, proto, 0x8000) + data))
  {
    hide Swap, OnesSum, Flat, PseudoHeader;
    var ps := [Piece(0, data[..1]), Piece(0, data[1..])];
    r, deleteMe := InetChksumPseudoPartial(ps, proto, 0x8000, 0x8000, src, dst);
    FlatTwo(ps, data);
    assert data[..0x8000] == data;
  }

  lemma FlatTwo(ps: seq<Piece>, data: seq<Byte>)
    requires |ps| == 2 && ps[0].bytes + ps[1].bytes == data
    ensures Flat(ps) == data
  {
    assert ps[..1][..0] == [] && ps[..1] == [ps[0]];
    assert Flat(ps[..1]) == [] + ps[0].bytes == ps[0].bytes;
  }

  method SumPartial(ps: seq<Piece>, chksumLen: nat, acc0: nat, ghost a: seq<Byte>) returns (acc: nat, deleteMe: bool)
    requires Pieces(ps) && acc0 <= 0xffff && Stands(acc0, a) && |a| % 2 == 0
    ensures acc <= 0xffff && Stands(acc, a + Flat(ps)[..Least(chksumLen, |Flat(ps)|)])
    ensures deleteMe <==> (ps == [] || chksumLen == 0 || chksumLen - Least(|ps[0].bytes|, chksumLen) < 0x7fff)
  {
    hide Stands, Swap, Fold, Same, Seen, Flat;
    acc, deleteMe := acc0, true;
    var swapped, i: nat, left: nat := false, 0, chksumLen;
    ghost var done: seq<Byte> := [];
    assert a + done == a;
    StartSeen(acc0, ps);
    while i < |ps| && left > 0
      invariant i <= |ps| && acc <= 0xffff && |done| + left == chksumLen
      invariant if left > 0 then done == Flat(ps[..i]) else |done| == chksumLen && done <= Flat(ps[..i])
      invariant left > 0 ==> swapped == (|a + done| % 2 == 1)
      invariant Stands(Seen(acc, swapped), a + done)
      invariant i > 0 ==> left <= chksumLen - Least(|ps[0].bytes|, chksumLen)
      invariant deleteMe <==> (i == 0 || chksumLen == 0 || chksumLen - Least(|ps[0].bytes|, chksumLen) < 0x7fff)
    {
      ghost var d := a + done;
      var chklen := Least(|ps[i].bytes|, left);
      var part := ps[i].bytes[..chklen];
      var c := PieceSum(part, ps[i].addr);
      PieceAdded(acc, swapped, d, c, part);
      FlatMore(ps, i);
      left := left - chklen;
      deleteMe := deleteMe && left < 0x7fff;
      done := done + part;
      assert a + done == d + part;
      acc := Fold(acc + c);
      if |ps[i].bytes| % 2 != 0 {
        SeenSwapped(acc, swapped);
        swapped := !swapped;
        acc := Swap(acc);
      }
      i := i + 1;
    }
    SeenSwapped(acc, swapped);
    if swapped {
      acc := Swap(acc);
    }
    PartialCovered(ps, i, done, chksumLen, left);
  }

  lemma PartialCovered(ps: seq<Piece>, i: nat, done: seq<Byte>, n: nat, left: nat)
    requires i <= |ps| && |done| + left == n && (i == |ps| || left == 0)
    requires if left > 0 then done == Flat(ps[..i]) else done <= Flat(ps[..i])
    ensures done == Flat(ps)[..Least(n, |Flat(ps)|)]
  {
    FlatPrefix(ps, i);
    assert ps[..|ps|] == ps;
  }

  lemma {:induction false} FlatPrefix(ps: seq<Piece>, i: nat)
    requires i <= |ps|
    ensures Flat(ps[..i]) <= Flat(ps)
    decreases |ps| - i
  {
    if i < |ps| {
      FlatMore(ps, i);
      FlatPrefix(ps, i + 1);
    } else {
      assert ps[..i] == ps;
    }
  }
}
