/** The heap of src/lib/liblwip/core/mem.c as it runs: block headers written into the bytes of
    the arena, found again by following `next` and `prev` offsets, and a cached `lfree`.

    Every operation is proved to do to the bytes what HeapSpec says happens to the block list,
    and to leave every byte of every other live payload alone. The source takes a lock around
    each operation, so each method is one atomic step. The guard bytes of MEM_OVERFLOW_CHECK
    and the restart loops of LWIP_ALLOW_MEM_FREE_FROM_OTHER_CONTEXT are compiled out. */
module Heap {
  import opened Bytes
  import opened HeapSpec
  import opened HeapLinks

  /** A payload address relative to `ram`; addresses below the arena are negative. */
  datatype Pointer = Null | At(off: int)

  /** mem_link_valid: the neighbours' headers point back at `p`. */
  predicate LinkValid(c: Config, s: seq<Byte>, p: nat)
    requires c.header >= 2 * c.width + 1 && p + c.header <= |s| && c.size + c.header <= |s|
  {
    var h := HeaderAt(c, s, p);
    && h.next <= c.size && h.prev <= c.size
    && (h.prev == p || HeaderAt(c, s, h.prev).next == p)
    && (h.next == c.size || HeaderAt(c, s, h.next).prev == p)
  }

  /** The tests that mem_free makes before it touches the heap. */
  predicate Releasable(c: Config, s: seq<Byte>, off: int)
    requires c.header >= 2 * c.width + 1 && c.align > 0 && c.size + c.header <= |s|
  {
    && off % c.align == 0
    && off - c.header >= 0 && off + c.min <= c.size
    && HeaderAt(c, s, off - c.header).used
    && LinkValid(c, s, off - c.header)
  }

  /** Every byte of the live payloads in `l`, except those of block `but`, is the same. */
  ghost predicate PayloadsKept(c: Config, l: Blocks, but: int, s: seq<Byte>, t: seq<Byte>) {
    && |t| == |s|
    && forall q, x | q in Live(l) && q != but && q + c.header <= x < Live(l)[q] && x < |s| :: t[x] == s[x]
  }

  /** Only bytes of the headers at `h1`, `h2` and `h3` changed. */
  ghost predicate HeadersOnly(c: Config, s: seq<Byte>, t: seq<Byte>, h1: nat, h2: nat, h3: nat) {
    && |t| == |s|
    && forall x | 0 <= x < |s| && !(h1 <= x < h1 + c.header) && !(h2 <= x < h2 + c.header)
                  && !(h3 <= x < h3 + c.header) :: t[x] == s[x]
  }

  /** The three writes of a cut, one after the other. */
  lemma CutIsRelinked(c: Config, s0: seq<Byte>, s1: seq<Byte>, s2: seq<Byte>, s3: seq<Byte>, p: nat, p2: nat, e: nat)
    requires c.Valid() && p + c.header <= p2 && p2 + c.header <= e <= c.size && c.size + c.header <= |s0|
    requires Written(c, s0, s1, p2, Header(e, p, false))
    requires Written(c, s1, s2, p, HeaderAt(c, s1, p).(next := p2))
    requires if e == c.size then s3 == s2 else Written(c, s2, s3, e, HeaderAt(c, s2, e).(prev := p2))
    ensures Relinked(c, s0, s3, p, e, c.size,
                     Cons(Block(p, p2, HeaderAt(c, s0, p).used), Cons(Block(p2, e, false), Nil)))
    ensures HeadersOnly(c, s0, s3, p, p2, e)
  {
    HeaderFrame(c, s0, s1, p);
    HeaderFrame(c, s0, s1, e);
    HeaderFrame(c, s1, s2, p2);
    HeaderFrame(c, s1, s2, e);
    HeaderFrame(c, s2, s3, p);
    HeaderFrame(c, s2, s3, p2);
    TwoBlocks(c, s3, p, p2, e, HeaderAt(c, s0, p).used, HeaderAt(c, s0, p).prev);
  }

  lemma OneBlock(c: Config, t: seq<Byte>, p: nat, e: nat, u: bool, prev: nat)
    requires c.header >= 2 * c.width + 1 && p + c.header <= e && p + c.header <= |t|
    requires HeaderAt(c, t, p) == Header(e, prev, u)
    ensures var m := Cons(Block(p, e, u), Nil);
            Tiled(c, m, p, e) && Linked(c, t, m, prev) && LastStart(m, 0) == p
  {
    var m := Cons(Block(p, e, u), Nil);
    assert Tiled(c, m.rest, e, e) && Linked(c, t, m.rest, p) && LastStart(m.rest, p) == p;
  }

  lemma TwoBlocks(c: Config, t: seq<Byte>, p: nat, p2: nat, e: nat, u: bool, prev: nat)
    requires c.header >= 2 * c.width + 1 && p + c.header <= p2 && p2 + c.header <= e && p2 + c.header <= |t|
    requires HeaderAt(c, t, p) == Header(p2, prev, u) && HeaderAt(c, t, p2) == Header(e, p, false)
    ensures var m := Cons(Block(p, p2, u), Cons(Block(p2, e, false), Nil));
            Tiled(c, m, p, e) && Linked(c, t, m, prev) && LastStart(m, 0) == p2
  {
    OneBlock(c, t, p2, e, false, p);
  }

  /** The headers in `s` form the list `l`, closed by the end marker. */
  ghost predicate Represents(c: Config, s: seq<Byte>, l: Blocks)
    requires c.Valid()
  {
    && |s| == c.size + 2 * c.header
    && Tiled(c, l, 0, c.size) && Linked(c, s, l, 0)
    && HeaderAt(c, s, c.size) == Header(c.size, c.size, true)
  }

  /** Header bytes at `h` lie outside every live payload except possibly that of `but`. */
  ghost predicate Clear(l: Blocks, but: int, h: nat) {
    forall q | q in Live(l) && q != but :: h <= q || Live(l)[q] <= h
  }

  lemma {:induction false} ClearWithin(c: Config, l: Blocks, lo: nat, hi: nat, prevFree: bool, b: Block, but: int, h: nat)
    requires c.header > 0 && WellFormed(c, l, lo, hi, prevFree) && Has(l, b) && b.start <= h <= b.end
    requires b.used ==> b.start == but || h == b.start || h == b.end
    ensures Clear(l, but, h)
  {
    BlocksInRange(c, l.rest, l.b.end, hi, !l.b.used);
    HasInRange(c, l, lo, hi, prevFree, b);
    if l.b != b { ClearWithin(c, l.rest, l.b.end, hi, !l.b.used, b, but, h); }
  }

  lemma ClearHeadersKeepPayloads(c: Config, l: Blocks, but: int, s: seq<Byte>, t: seq<Byte>, h1: nat, h2: nat, h3: nat)
    requires HeadersOnly(c, s, t, h1, h2, h3)
    requires Clear(l, but, h1) && Clear(l, but, h2) && Clear(l, but, h3)
    ensures PayloadsKept(c, l, but, s, t)
  {
  }

  /** Relinking never reaches the end marker's own header. */
  lemma RelinkedKeepsEnd(c: Config, s: seq<Byte>, t: seq<Byte>, p: nat, e: nat, hi: nat, mid: Blocks)
    requires c.header >= 2 * c.width + 1 && Relinked(c, s, t, p, e, hi, mid) && (e < hi ==> e + c.header <= hi)
    ensures HeaderAt(c, t, hi) == HeaderAt(c, s, hi)
  {
    if e < hi { HeaderFrame(c, s, t, hi); }
  }

  /** Setting the flag of the first header before relinking makes no difference to the rest. */
  lemma FlagThenRelinked(c: Config, s0: seq<Byte>, s1: seq<Byte>, t: seq<Byte>, p: nat, u: bool, e: nat, hi: nat, mid: Blocks)
    requires c.header >= 2 * c.width + 1 && p + c.header <= |s0| && Written(c, s0, s1, p, HeaderAt(c, s0, p).(used := u))
    requires Relinked(c, s1, t, p, e, hi, mid)
    ensures Relinked(c, s0, t, p, e, hi, mid)
  {
    HeaderFrame(c, s0, s1, e);
  }

  /** Setting the flag of a block relinks it to itself. */
  lemma FlagIsRelinked(c: Config, s: seq<Byte>, t: seq<Byte>, l: Blocks, p: nat, u: bool)
    requires c.Valid() && Tiled(c, l, 0, c.size) && Linked(c, s, l, 0) && From(l, p).Cons?
    requires c.size + c.header <= |s|
    requires p + c.header <= |s| && Written(c, s, t, p, HeaderAt(c, s, p).(used := u))
    ensures Relinked(c, s, t, p, From(l, p).b.end, c.size, Cons(Block(p, From(l, p).b.end, u), Nil))
  {
    var f := From(l, p);
    FromInRange(c, l, 0, c.size, p);
    TiledOrder(c, f.rest, f.b.end, c.size);
    FollowNext(c, s, l, 0, c.size, 0, p);
    HeaderFrame(c, s, t, f.b.end);
    OneBlock(c, t, p, f.b.end, u, HeaderAt(c, s, p).prev);
  }

  /** The list after the `k` blocks that start at `p` gave way to `mid`. */
  lemma AfterRelinking(c: Config, s: seq<Byte>, t: seq<Byte>, l: Blocks, p: nat, k: nat, e: nat, mid: Blocks)
    requires c.Valid() && Represents(c, s, l) && Relinked(c, s, t, p, e, c.size, mid)
    requires From(l, p).Cons? && Tiled(c, Drop(From(l, p), k), e, c.size)
    requires k == 1 || (k == 2 && From(l, p).rest.Cons?)
    ensures Represents(c, t, Replace(l, p, k, mid))
  {
    var d := Drop(From(l, p), k);
    if d.Cons? { TiledOrder(c, d.rest, d.b.end, c.size); }
    RelinkedKeepsEnd(c, s, t, p, e, c.size, mid);
    RelinkedIsLinked(c, s, t, l, 0, c.size, 0, p, k, e, mid);
  }

  /** What a free block at `p` looks like from the outside. */
  lemma BlockFacts(c: Config, s: seq<Byte>, l: Blocks, p: nat)
    requires GoodHeap(c, l) && Represents(c, s, l) && From(l, p).Cons?
    ensures var f := From(l, p);
            && f.b.start == p && Has(l, f.b) && p + c.header + c.min <= f.b.end <= c.size
            && HeaderAt(c, s, p).next == f.b.end && HeaderAt(c, s, p).used == f.b.used
            && Drop(f, 1) == f.rest && Tiled(c, f.rest, f.b.end, c.size)
  {
    FollowNext(c, s, l, 0, c.size, 0, p);
    FromInRange(c, l, 0, c.size, p);
    HasInRange(c, l, 0, c.size, false, From(l, p).b);
    SmallDrop(From(l, p));
  }

  /** Flag set, then perhaps a cut: the block list afterwards is that of HeapSpec. */
  lemma TakeIsAlloc(c: Config, s: seq<Byte>, s1: seq<Byte>, t: seq<Byte>, l: Blocks, p: nat, size: nat)
    requires GoodHeap(c, l) && Represents(c, s, l) && From(l, p).Cons? && Fits(c, From(l, p).b, size)
    requires p + c.header <= |s| && Written(c, s, s1, p, HeaderAt(c, s, p).(used := true))
    requires var b := From(l, p).b;
             if Splits(c, b, size) then Relinked(c, s1, t, p, b.end, c.size, SplitBlock(c, b, size)) else t == s1
    ensures Represents(c, t, Alloc(c, l, p, size))
  {
    var b := From(l, p).b;
    BlockFacts(c, s, l, p);
    AllocIsReplace(c, l, 0, c.size, b, size);
    if Splits(c, b, size) {
      FlagThenRelinked(c, s, s1, t, p, true, b.end, c.size, SplitBlock(c, b, size));
    } else {
      FlagIsRelinked(c, s, s1, l, p, true);
    }
    AfterRelinking(c, s, t, l, p, 1, b.end, SplitBlock(c, b, size));
  }

  lemma HeadersOnlyAfterFlag(c: Config, s: seq<Byte>, s1: seq<Byte>, t: seq<Byte>, p: nat, h: nat, e: nat)
    requires c.header >= 2 * c.width + 1 && p + c.header <= |s| && Written(c, s, s1, p, HeaderAt(c, s, p).(used := true))
    requires HeadersOnly(c, s1, t, p, h, e)
    ensures HeadersOnly(c, s, t, p, h, e)
  {
  }

  lemma FlagIsHeaderOnly(c: Config, s: seq<Byte>, s1: seq<Byte>, p: nat, e: nat)
    requires c.header >= 2 * c.width + 1 && p + c.header <= |s| && Written(c, s, s1, p, HeaderAt(c, s, p).(used := true))
    ensures HeadersOnly(c, s, s1, p, p, e)
  {
  }

  /** Taking a block writes headers only, and only inside that block or right behind it. */
  lemma TakeKeepsPayloads(c: Config, s: seq<Byte>, t: seq<Byte>, l: Blocks, p: nat, h: nat)
    requires GoodHeap(c, l) && From(l, p).Cons? && !From(l, p).b.used && p <= h <= From(l, p).b.end
    requires HeadersOnly(c, s, t, p, h, From(l, p).b.end)
    ensures PayloadsKept(c, l, -1, s, t)
  {
    var b := From(l, p).b;
    WellFormedIsTiled(c, l, 0, c.size, false);
    FromInRange(c, l, 0, c.size, p);
    HasInRange(c, l, 0, c.size, false, b);
    ClearWithin(c, l, 0, c.size, false, b, -1, p);
    ClearWithin(c, l, 0, c.size, false, b, -1, h);
    ClearWithin(c, l, 0, c.size, false, b, -1, b.end);
    ClearHeadersKeepPayloads(c, l, -1, s, t, p, h, b.end);
  }

  /** A block offset of the list, or the end marker's. */
  ghost predicate Boundary(c: Config, l: Blocks, h: nat) { h == c.size || From(l, h).Cons? }

  lemma BoundaryIsClear(c: Config, l: Blocks, h: nat)
    requires GoodHeap(c, l) && Boundary(c, l, h)
    ensures Clear(l, -1, h)
  {
    WellFormedIsTiled(c, l, 0, c.size, false);
    BlocksInRange(c, l, 0, c.size, false);
    if h != c.size {
      FromInRange(c, l, 0, c.size, h);
      HasInRange(c, l, 0, c.size, false, From(l, h).b);
      ClearWithin(c, l, 0, c.size, false, From(l, h).b, -1, h);
    }
  }

  lemma {:induction false} FlagKeepsBoundaries(c: Config, l: Blocks, lo: nat, hi: nat, b: Block, u: bool, h: nat)
    requires c.header > 0 && Tiled(c, l, lo, hi) && Has(l, b)
    ensures From(Replace(l, b.start, 1, Cons(b.(used := u), Nil)), h).Cons? == From(l, h).Cons?
    ensures var f := From(Replace(l, b.start, 1, Cons(b.(used := u), Nil)), b.start); f.Cons? && f.b == b.(used := u)
  {
    TiledOrder(c, l.rest, l.b.end, hi);
    if l.b != b {
      FlagKeepsBoundaries(c, l.rest, l.b.end, hi, b, u, h);
    } else {
      SmallDrop(l);
      SmallAppend(b.(used := u), b, l.rest);
    }
  }

  /** The two writes that make block `p` reach to `e`. */
  lemma AbsorbIsRelinked(c: Config, s0: seq<Byte>, s1: seq<Byte>, s2: seq<Byte>, p: nat, e: nat)
    requires c.Valid() && p + c.header <= e <= c.size && c.size + c.header <= |s0|
    requires Written(c, s0, s1, p, HeaderAt(c, s0, p).(next := e))
    requires if e == c.size then s2 == s1 else Written(c, s1, s2, e, HeaderAt(c, s1, e).(prev := p))
    ensures Relinked(c, s0, s2, p, e, c.size, Cons(Block(p, e, HeaderAt(c, s0, p).used), Nil))
    ensures HeadersOnly(c, s0, s2, p, p, e)
  {
    HeaderFrame(c, s0, s1, e);
    HeaderFrame(c, s1, s2, p);
    OneBlock(c, s2, p, e, HeaderAt(c, s0, p).used, HeaderAt(c, s0, p).prev);
  }

  /** Making block `q` reach to the end of its successor merges the two. */
  lemma AbsorbIsMerge(c: Config, s: seq<Byte>, t: seq<Byte>, l: Blocks, q: nat)
    requires c.Valid() && Represents(c, s, l) && From(l, q).Cons? && From(l, q).rest.Cons?
    requires var f := From(l, q);
             Relinked(c, s, t, q, f.rest.b.end, c.size, Cons(f.b.(end := f.rest.b.end), Nil))
    ensures var f := From(l, q);
            Represents(c, t, Replace(l, q, 2, Cons(f.b.(end := f.rest.b.end), Nil)))
  {
    var f := From(l, q);
    FromInRange(c, l, 0, c.size, q);
    SmallDrop(f);
    AfterRelinking(c, s, t, l, q, 2, f.rest.b.end, Cons(f.b.(end := f.rest.b.end), Nil));
  }

  /** What the header at `p` says about the blocks around it. */
  lemma Neighbours(c: Config, s: seq<Byte>, l: Blocks, p: nat)
    requires c.Valid() && Represents(c, s, l) && From(l, p).Cons?
    ensures var f := From(l, p);
            && f.b.start == p && p + c.header <= f.b.end <= c.size && f.b.end + c.header <= |s|
            && HeaderAt(c, s, p).next == f.b.end && HeaderAt(c, s, p).used == f.b.used
            && (f.b.end == c.size <==> f.rest.Nil?)
            && (f.rest.Cons? ==> && f.rest.b.start == f.b.end && From(l, f.b.end) == f.rest
                                 && f.b.end + c.header <= f.rest.b.end <= c.size
                                 && HeaderAt(c, s, f.b.end).used == f.rest.b.used
                                 && HeaderAt(c, s, f.b.end).next == f.rest.b.end
                                 && Boundary(c, l, f.rest.b.end))
            && Boundary(c, l, f.b.end)
  {
    var f := From(l, p);
    FollowNext(c, s, l, 0, c.size, 0, p);
    FromInRange(c, l, 0, c.size, p);
    TiledOrder(c, f.rest, f.b.end, c.size);
    if f.rest.Cons? {
      FollowNext(c, s, l, 0, c.size, 0, f.b.end);
      TiledOrder(c, f.rest.rest, f.rest.b.end, c.size);
      assert f.rest.rest.Nil? ==> f.rest.b.end == c.size;
    }
  }

  lemma ListFactsOfTake(c: Config, l: Blocks, n: nat, p: nat)
    requires GoodHeap(c, l) && n < Capacity(c.width) && Acceptable(c, n)
    requires From(l, p).Cons? && Fits(c, From(l, p).b, Rounded(c, n))
    ensures var size, b := Rounded(c, n), From(l, p).b;
            var a := Alloc(c, l, p, size);
            && GoodHeap(c, a) && UsedTotal(a) == UsedTotal(l) + (Served(c, b, size).end - p)
            && (LowestFree(l, c.size) != p ==> LowestFree(a, c.size) == LowestFree(l, c.size))
            && (LowestFree(l, c.size) == p ==> From(a, p).Cons? && LowestFree(a, c.size) == LowestFree(From(a, p), c.size))
  {
    RoundedFacts(c, n);
    WellFormedIsTiled(c, l, 0, c.size, false);
    FromInRange(c, l, 0, c.size, p);
    AllocKeepsGood(c, l, From(l, p).b, Rounded(c, n));
    AllocAndLowestFree(c, l, 0, c.size, p, Rounded(c, n));
  }

  lemma FreeFacts(c: Config, l: Blocks, p: nat)
    requires GoodHeap(c, l) && p in Live(l)
    ensures Live(Free(l, p)) == Live(l) - {p} && UsedTotal(Free(l, p)) == UsedTotal(l) - (Live(l)[p] - p)
  {
    LiveIsPresent(l, p);
    FreeKeepsGood(c, l, Block(p, Live(l)[p], true));
  }

  /** A pointer that is not aligned, outside of the arena, or before which no used block stands is
      refused. */
  lemma ForeignIsRefused(c: Config, s: seq<Byte>, off: int)
    requires c.Valid() && |s| == c.size + 2 * c.header
    requires off % c.align != 0 || off < c.header || off + c.min > c.size || !HeaderAt(c, s, off - c.header).used
    ensures !Releasable(c, s, off)
  {
  }

  lemma TrimmedFacts(c: Config, l: Blocks, p: nat, n: nat)
    requires GoodHeap(c, l) && p in Live(l) && n < Capacity(c.width) && Acceptable(c, n)
    ensures var t := Trim(c, l, p, Wanted(c, n));
            && Live(t) == Live(l)[p := ShortEnd(c, Live(l), p, Wanted(c, n))]
            && UsedTotal(t) == UsedTotal(l) - (Live(l)[p] - ShortEnd(c, Live(l), p, Wanted(c, n)))
  {
    hide ShortEnd, Trim, Live;
    AcceptedIsWanted(c, n);
    RoundedFacts(c, n);
    TrimShortens(c, l, p, Wanted(c, n));
  }

  lemma TrimOutcomeFacts(c: Config, l: Blocks, s: seq<Byte>, p: int, size: nat, fits: bool, l': Blocks, s': seq<Byte>, nextOk: bool)
    requires TrimOutcome(c, l, s, p, size, fits, l', s', nextOk)
    ensures p in Live(l) && (fits <==> Live(l)[p] >= p + c.header + size) && l' == (if fits then Trim(c, l, p, size) else l)
  {
  }

  /** What a request comes to, by the live blocks alone. */
  lemma MallocFacts(c: Config, l: Blocks, n: nat)
    requires GoodHeap(c, l) && n < Capacity(c.width)
    ensures var size := Rounded(c, n);
            var p := FirstFit(c, l, size, c.size);
            var a := Alloc(c, l, p, size);
            && (Acceptable(c, n) <==> RoundUp(n, c.align) <= c.size)
            && (Acceptable(c, n) ==> && (p == c.size <==> NoRoom(c, Live(l), Wanted(c, n)))
                                     && (p != c.size ==> && Granted(c, Live(l), Live(a), p, Wanted(c, n))
                                                         && p in Live(a) && UsedTotal(a) == UsedTotal(l) + (Live(a)[p] - p)))
  {
    hide Rounded, Acceptable, FirstFit, Alloc, Live, Granted, NoRoom;
    AcceptedIsWanted(c, n);
    if Acceptable(c, n) {
      AllocGrants(c, l, Wanted(c, n));
      FirstFitInRange(c, l, Wanted(c, n));
    }
  }

  lemma FirstFitInRange(c: Config, l: Blocks, size: nat)
    requires GoodHeap(c, l)
    ensures FirstFit(c, l, size, c.size) <= c.size
  {
    FirstFitIsLowest(c, l, 0, c.size, false, size);
  }

  /** Forward plugging, on lists and bytes. */
  lemma ForwardMerge(c: Config, s: seq<Byte>, t: seq<Byte>, l: Blocks, p: nat)
    requires c.Valid() && Represents(c, s, l) && From(l, p).Cons? && !From(l, p).b.used
    requires var f := From(l, p);
             if f.rest.Cons? && !f.rest.b.used then
               Relinked(c, s, t, p, f.rest.b.end, c.size, Cons(f.b.(end := f.rest.b.end), Nil))
             else t == s
    ensures var m := MergeAfter(l, p);
            && Represents(c, t, m) && LowestFree(m, c.size) == LowestFree(l, c.size) <= p
            && From(m, p).Cons? && !From(m, p).b.used
  {
    MergeAfterIsReplace(c, l, 0, c.size, p);
    MergeAndLowestFree(c, l, 0, c.size, p);
    if From(l, p).rest.Cons? && !From(l, p).rest.b.used { AbsorbIsMerge(c, s, t, l, p); }
  }

  /** Backward plugging; `q` is what the header at `p` names as its predecessor. */
  lemma BackwardMerge(c: Config, s: seq<Byte>, t: seq<Byte>, l: Blocks, p: nat, q: nat)
    requires c.Valid() && Represents(c, s, l) && From(l, p).Cons? && !From(l, p).b.used
    requires p + c.header <= |s| && q == HeaderAt(c, s, p).prev
    requires if q != p && From(l, q).Cons? && !From(l, q).b.used && From(l, q).rest.Cons? then
               var f := From(l, q);
               Relinked(c, s, t, q, f.rest.b.end, c.size, Cons(f.b.(end := f.rest.b.end), Nil))
             else t == s
    ensures var m := MergeBefore(l, p);
            Represents(c, t, m) && LowestFree(m, c.size) == LowestFree(l, c.size)
  {
    FollowPrev(c, s, l, 0, c.size, 0, p);
    MergeAndLowestFree(c, l, 0, c.size, p);
    FromInRange(c, l, 0, c.size, p);
    if p == 0 {
      MergeBeforeFirst(l, p);
    } else {
      MergeBeforeIsReplace(c, l, 0, c.size, p, q);
      if !From(l, q).b.used { AbsorbIsMerge(c, s, t, l, q); }
    }
  }

  /** What the header at `p` says about the block in front. */
  lemma Predecessor(c: Config, s: seq<Byte>, l: Blocks, p: nat)
    requires c.Valid() && Represents(c, s, l) && From(l, p).Cons?
    ensures p + c.header <= |s|
    ensures var q := HeaderAt(c, s, p).prev;
            && q <= p && From(l, q).Cons? && q + c.header <= |s|
            && HeaderAt(c, s, q).used == From(l, q).b.used
            && (q != p ==> From(l, q).rest == From(l, p) && q + c.header <= From(l, p).b.end)
            && (q == p <==> p == 0)
  {
    FollowPrev(c, s, l, 0, c.size, 0, p);
    FromInRange(c, l, 0, c.size, p);
    var q := HeaderAt(c, s, p).prev;
    FollowNext(c, s, l, 0, c.size, 0, q);
    FromInRange(c, l, 0, c.size, q);
  }

  lemma {:induction false} MergeAfterBoundaries(c: Config, l: Blocks, lo: nat, hi: nat, p: nat, h: nat)
    requires c.header > 0 && Tiled(c, l, lo, hi) && From(l, p).Cons? && From(MergeAfter(l, p), h).Cons?
    ensures From(l, h).Cons?
  {
    if l.b.start != p && l.b.start != h { MergeAfterBoundaries(c, l.rest, l.b.end, hi, p, h); }
  }

  lemma MergedEnd(c: Config, l: Blocks, p: nat)
    requires c.header > 0 && Tiled(c, l, 0, c.size) && From(l, p).Cons?
    ensures var f := From(l, p);
            && From(MergeAfter(l, p), p).Cons?
            && From(MergeAfter(l, p), p).b.end == if f.rest.Cons? && !f.rest.b.used then f.rest.b.end else f.b.end
  {
    MergedEndFrom(c, l, 0, c.size, p);
  }

  lemma {:induction false} MergedEndFrom(c: Config, l: Blocks, lo: nat, hi: nat, p: nat)
    requires c.header > 0 && Tiled(c, l, lo, hi) && From(l, p).Cons?
    ensures var f := From(l, p);
            && From(MergeAfter(l, p), p).Cons?
            && From(MergeAfter(l, p), p).b.end == if f.rest.Cons? && !f.rest.b.used then f.rest.b.end else f.b.end
  {
    if l.b.start != p { MergedEndFrom(c, l.rest, l.b.end, hi, p); }
  }

  lemma SameHeaders(c: Config, s: seq<Byte>, h1: nat, h2: nat, h3: nat)
    ensures HeadersOnly(c, s, s, h1, h2, h3)
  {
  }

  /** Header writes of the three stages of mem_free, put together. */
  lemma ReleaseKeepsPayloads(c: Config, s0: seq<Byte>, s1: seq<Byte>, s2: seq<Byte>, s3: seq<Byte>,
                             l: Blocks, p: nat, e: nat, q: nat)
    requires GoodHeap(c, l) && Boundary(c, l, p) && Boundary(c, l, e) && Boundary(c, l, q)
    requires HeadersOnly(c, s0, s1, p, p, p) && HeadersOnly(c, s1, s2, p, p, e) && HeadersOnly(c, s2, s3, q, q, e)
    ensures PayloadsKept(c, l, -1, s0, s3)
  {
    BoundaryIsClear(c, l, p);
    BoundaryIsClear(c, l, e);
    BoundaryIsClear(c, l, q);
    assert HeadersOnly(c, s0, s3, p, e, q);
    ClearHeadersKeepPayloads(c, l, -1, s0, s3, p, e, q);
  }

  /** Clearing the used flag of block `b`, on lists and bytes. */
  lemma FlagCleared(c: Config, s: seq<Byte>, t: seq<Byte>, l: Blocks, b: Block)
    requires GoodHeap(c, l) && Represents(c, s, l) && Has(l, b) && b.used
    requires b.start + c.header <= |s| && Written(c, s, t, b.start, HeaderAt(c, s, b.start).(used := false))
    ensures var m := Replace(l, b.start, 1, Cons(b.(used := false), Nil));
            && Represents(c, t, m) && From(m, b.start).Cons? && !From(m, b.start).b.used
            && LowestFree(m, c.size) == (if b.start < LowestFree(l, c.size) then b.start else LowestFree(l, c.size))
            && HeadersOnly(c, s, t, b.start, b.start, b.start)
            && HeaderAt(c, t, b.start).next == b.end
  {
    FromHas(c, l, 0, c.size, b);
    FlagIsRelinked(c, s, t, l, b.start, false);
    SmallDrop(From(l, b.start));
    AfterRelinking(c, s, t, l, b.start, 1, b.end, Cons(b.(used := false), Nil));
    FlagKeepsBoundaries(c, l, 0, c.size, b, false, b.start);
    ReleaseAndLowestFree(c, l, 0, c.size, b);
    FollowNext(c, s, l, 0, c.size, 0, b.start);
  }

  /** The three offsets whose headers mem_free writes are block offsets of the old list. */
  lemma ReleaseBoundaries(c: Config, s: seq<Byte>, l: Blocks, b: Block, q: nat)
    requires GoodHeap(c, l) && Represents(c, s, l) && Has(l, b) && b.used
    requires var m := MergeAfter(Replace(l, b.start, 1, Cons(b.(used := false), Nil)), b.start);
             From(m, q).Cons? && Tiled(c, m, 0, c.size)
    ensures var m := MergeAfter(Replace(l, b.start, 1, Cons(b.(used := false), Nil)), b.start);
            && Boundary(c, l, b.start) && Boundary(c, l, q)
            && From(m, b.start).Cons? && Boundary(c, l, From(m, b.start).b.end)
  {
    var x := Replace(l, b.start, 1, Cons(b.(used := false), Nil));
    FromHas(c, l, 0, c.size, b);
    HasInRange(c, l, 0, c.size, false, b);
    FlagKeepsBoundaries(c, l, 0, c.size, b, false, q);
    FlagKeepsBoundaries(c, l, 0, c.size, b, false, b.start);
    FlagKeepsTiling(c, l, 0, c.size, b);
    MergeAfterBoundaries(c, x, 0, c.size, b.start, q);
    MergedEnd(c, x, b.start);
    var m := MergeAfter(x, b.start);
    var e := From(m, b.start).b.end;
    EndIsBoundary(c, m, 0, c.size, b.start);
    if e != c.size {
      MergeAfterBoundaries(c, x, 0, c.size, b.start, e);
      FlagKeepsBoundaries(c, l, 0, c.size, b, false, e);
    }
  }

  lemma {:induction false} EndIsBoundary(c: Config, l: Blocks, lo: nat, hi: nat, p: nat)
    requires c.header > 0 && Tiled(c, l, lo, hi) && From(l, p).Cons?
    ensures From(l, p).b.end == hi || From(l, From(l, p).b.end).Cons?
  {
    TiledOrder(c, l.rest, l.b.end, hi);
    FromInRange(c, l, lo, hi, p);
    if l.b.start != p {
      FromInRange(c, l.rest, l.b.end, hi, p);
      EndIsBoundary(c, l.rest, l.b.end, hi, p);
    }
  }

  lemma {:induction false} FlagKeepsTiling(c: Config, l: Blocks, lo: nat, hi: nat, b: Block)
    requires c.header > 0 && Tiled(c, l, lo, hi) && Has(l, b)
    ensures Tiled(c, Replace(l, b.start, 1, Cons(b.(used := false), Nil)), lo, hi)
  {
    TiledOrder(c, l.rest, l.b.end, hi);
    if l.b != b {
      FlagKeepsTiling(c, l.rest, l.b.end, hi, b);
    } else {
      SmallDrop(l);
      SmallAppend(b.(used := false), b, l.rest);
    }
  }

  /** The checks of mem_free let every live pointer through. */
  lemma LiveIsReleasable(c: Config, s: seq<Byte>, l: Blocks, p: nat)
    requires GoodHeap(c, l) && Represents(c, s, l) && p in Live(l)
    ensures Releasable(c, s, p + c.header)
  {
    LiveLinkValid(c, s, l, p);
    StartIsAligned(c, l, p);
    AlignedSum(p, c.header, c.align);
  }

  lemma LiveLinkValid(c: Config, s: seq<Byte>, l: Blocks, p: nat)
    requires GoodHeap(c, l) && Represents(c, s, l) && p in Live(l)
    ensures p + c.header + c.min <= c.size && HeaderAt(c, s, p).used && LinkValid(c, s, p)
  {
    hide Config.Aligned, AlignedBlocks, Linked;
    var b := Block(p, Live(l)[p], true);
    LiveIsPresent(l, p);
    FromHas(c, l, 0, c.size, b);
    HasInRange(c, l, 0, c.size, false, b);
    Neighbours(c, s, l, p);
    Predecessor(c, s, l, p);
    var q := HeaderAt(c, s, p).prev;
    if q != p {
      FollowNext(c, s, l, 0, c.size, 0, q);
      FromInRange(c, l, 0, c.size, q);
    }
    if b.end != c.size { SuccessorPointsBack(c, s, l, p); }
  }

  lemma SuccessorPointsBack(c: Config, s: seq<Byte>, l: Blocks, p: nat)
    requires c.Valid() && Represents(c, s, l) && From(l, p).Cons? && From(l, p).b.end != c.size
    ensures From(l, p).b.end + c.header <= |s| && HeaderAt(c, s, From(l, p).b.end).prev == p
  {
    FollowNext(c, s, l, 0, c.size, 0, p);
    FromInRange(c, l, 0, c.size, p);
    assert From(l, p).rest.Cons?;
  }

  lemma ReleaseFacts(c: Config, s: seq<Byte>, l: Blocks, p: nat)
    requires GoodHeap(c, l) && Represents(c, s, l) && p in Live(l)
    ensures var b := Block(p, Live(l)[p], true);
            && Has(l, b) && p + c.header <= |s|
            && MergeBefore(MergeAfter(Replace(l, p, 1, Cons(b.(used := false), Nil)), p), p) == Free(l, p)
            && GoodHeap(c, Free(l, p)) && UsedTotal(Free(l, p)) == UsedTotal(l) - (b.end - p)
  {
    var b := Block(p, Live(l)[p], true);
    LiveIsPresent(l, p);
    HasInRange(c, l, 0, c.size, false, b);
    PlugIsFree(c, l, 0, c.size, false, b);
    FreeKeepsGood(c, l, b);
  }

  /** A free block with a free block in front of it is not the lowest. */
  lemma {:induction false} FreePairNotLowest(c: Config, l: Blocks, lo: nat, hi: nat, q: nat, p: nat)
    requires c.header > 0 && Tiled(c, l, lo, hi) && From(l, q).Cons? && !From(l, q).b.used && q < p
    ensures LowestFree(l, hi) < p
  {
    FromInRange(c, l, lo, hi, q);
    if l.b.start != q { FreePairNotLowest(c, l.rest, l.b.end, hi, q, p); }
  }

  /** What mem_trim does to the live block at `p`: it fails if the block is too small; otherwise
      the list is that of HeapSpec.Trim, other payloads and the kept bytes of this one are
      unchanged. `nextOk`, the assertion, fails exactly when the last block is cut in two. */
  ghost predicate TrimOutcome(c: Config, l: Blocks, s: seq<Byte>, p: int, size: nat,
                              fits: bool, l': Blocks, s': seq<Byte>, nextOk: bool)
  {
    && p in Live(l)
    && (fits <==> Live(l)[p] >= p + c.header + size)
    && l' == (if fits then Trim(c, l, p, size) else l)
    && (!fits ==> s' == s)
    && PayloadsKept(c, l, p, s, s')
    && (forall x | p + c.header <= x < p + c.header + size && x < |s| :: s'[x] == s[x])
    && (nextOk <==> !(Live(l)[p] == c.size && Splits(c, Block(p, Live(l)[p], true), size)))
  }

  /** A block that is not cut is left alone. */
  lemma TrimIsNothing(c: Config, l: Blocks, s: seq<Byte>, p: nat, size: nat)
    requires GoodHeap(c, l) && p in Live(l) && c.header + c.min > 0
    requires var b := Block(p, Live(l)[p], true); Trimmed(c, b, After(l, b), size) == b
    requires !Splits(c, Block(p, Live(l)[p], true), size)
    ensures TrimOutcome(c, l, s, p, size, Live(l)[p] >= p + c.header + size, l, s, true)
  {
    var b := Block(p, Live(l)[p], true);
    LiveIsPresent(l, p);
    WellFormedIsTiled(c, l, 0, c.size, false);
    TrimAndLowestFree(c, l, 0, c.size, b, size);
  }

  /** Cutting a live block short, on lists and bytes. */
  lemma CutIsTrim(c: Config, s: seq<Byte>, t: seq<Byte>, l: Blocks, b: Block, size: nat, e: nat)
    requires GoodHeap(c, l) && Represents(c, s, l) && Has(l, b) && b.used && Trimmed(c, b, After(l, b), size).end != b.end
    requires e == if After(l, b).Cons? && !After(l, b).b.used then After(l, b).b.end else b.end
    requires var mid := b.start + c.header + size;
             && Relinked(c, s, t, b.start, e, c.size, Cons(Block(b.start, mid, true), Cons(Block(mid, e, false), Nil)))
             && HeadersOnly(c, s, t, b.start, mid, e)
    ensures Represents(c, t, Trim(c, l, b.start, size))
    ensures TrimOutcome(c, l, s, b.start, size, true, Trim(c, l, b.start, size), t, !(b.end == c.size && Splits(c, b, size)))
  {
    hide AlignedBlocks, Config.Aligned, Linked, Relinked, Tiled, Trim, Represents, PayloadsKept, HeadersOnly;
    CutLinks(c, s, t, l, b, size, e);
    HasInRange(c, l, 0, c.size, false, b);
    CutKeepsPayloads(c, s, t, l, b, b.start + c.header + size, e);
    CutKeepsPrefix(c, s, t, b.start, b.start + c.header + size, e);
  }

  lemma CutKeepsPrefix(c: Config, s: seq<Byte>, t: seq<Byte>, p: nat, mid: nat, e: nat)
    requires HeadersOnly(c, s, t, p, mid, e) && mid <= e
    ensures |t| == |s| && forall x | p + c.header <= x < mid && x < |s| :: t[x] == s[x]
  {
  }

  lemma CutLinks(c: Config, s: seq<Byte>, t: seq<Byte>, l: Blocks, b: Block, size: nat, e: nat)
    requires GoodHeap(c, l) && Represents(c, s, l) && Has(l, b) && b.used && Trimmed(c, b, After(l, b), size).end != b.end
    requires e == if After(l, b).Cons? && !After(l, b).b.used then After(l, b).b.end else b.end
    requires var mid := b.start + c.header + size;
             Relinked(c, s, t, b.start, e, c.size, Cons(Block(b.start, mid, true), Cons(Block(mid, e, false), Nil)))
    ensures Represents(c, t, Trim(c, l, b.start, size))
  {
    hide AlignedBlocks, Config.Aligned, Linked, WellFormed, Relinked;
    var mid := b.start + c.header + size;
    var k := if After(l, b).Cons? && !After(l, b).b.used then 2 else 1;
    FromHas(c, l, 0, c.size, b);
    SmallDrop(From(l, b.start));
    TrimIsReplace(c, l, 0, c.size, b, size);
    AfterRelinking(c, s, t, l, b.start, k, e, Cons(Block(b.start, mid, true), Cons(Block(mid, e, false), Nil)));
  }

  lemma CutKeepsPayloads(c: Config, s: seq<Byte>, t: seq<Byte>, l: Blocks, b: Block, mid: nat, e: nat)
    requires GoodHeap(c, l) && Represents(c, s, l) && Has(l, b) && b.used && b.start + c.header <= mid <= b.end
    requires e == if After(l, b).Cons? && !After(l, b).b.used then After(l, b).b.end else b.end
    requires HeadersOnly(c, s, t, b.start, mid, e)
    ensures PayloadsKept(c, l, b.start, s, t) && b.end <= e
  {
    FromHas(c, l, 0, c.size, b);
    HasInRange(c, l, 0, c.size, false, b);
    Neighbours(c, s, l, b.start);
    ClearWithin(c, l, 0, c.size, false, b, b.start, b.start);
    ClearWithin(c, l, 0, c.size, false, b, b.start, mid);
    BoundaryIsClear(c, l, e);
    ClearHeadersKeepPayloads(c, l, b.start, s, t, b.start, mid, e);
  }

  lemma TrimFacts(c: Config, s: seq<Byte>, l: Blocks, p: nat, n: nat)
    requires GoodHeap(c, l) && Represents(c, s, l) && p in Live(l) && n < Capacity(c.width) && Acceptable(c, n)
    ensures var b, size := Block(p, Live(l)[p], true), Rounded(c, n);
            var t, r, low := Trimmed(c, b, After(l, b), size), After(l, b), LowestFree(l, c.size);
            && Has(l, b) && p + c.header + c.min <= b.end <= c.size && size >= c.min && c.size + 2 * c.header == |s|
            && HeaderAt(c, s, p).next == b.end && HeaderAt(c, s, p).used
            && (r.Nil? ==> b.end == c.size && HeaderAt(c, s, b.end).used)
            && (r.Cons? ==> && HeaderAt(c, s, b.end) == Header(r.b.end, p, r.b.used)
                            && b.end + c.header + c.min <= r.b.end <= c.size)
            && GoodHeap(c, Trim(c, l, p, size))
            && UsedTotal(Trim(c, l, p, size)) == UsedTotal(l) - (b.end - t.end)
            && (t.end == b.end ==> Trim(c, l, p, size) == l)
            && (t.end != b.end ==> LowestFree(Trim(c, l, p, size), c.size) == if low < p then low else t.end)
            && (low > p ==> low >= b.end) && low != p
            && (low > p && r.Cons? && !r.b.used ==> low == b.end)
  {
    var b, size := Block(p, Live(l)[p], true), Rounded(c, n);
    var r := After(l, b);
    RoundedFacts(c, n);
    hide AlignedBlocks, Config.Aligned;
    LiveIsPresent(l, p);
    FromHas(c, l, 0, c.size, b);
    HasInRange(c, l, 0, c.size, false, b);
    Neighbours(c, s, l, p);
    TrimKeepsGood(c, l, b, size);
    TrimAndLowestFree(c, l, 0, c.size, b, size);
    if r.Cons? {
      SuccessorPointsBack(c, s, l, p);
      FromInRange(c, l, 0, c.size, b.end);
      HasInRange(c, l, 0, c.size, false, r.b);
    }
  }

  lemma LiveHeader(c: Config, s: seq<Byte>, l: Blocks, p: nat)
    requires GoodHeap(c, l) && Represents(c, s, l) && p in Live(l)
    ensures Has(l, Block(p, Live(l)[p], true)) && p + c.header <= |s| && HeaderAt(c, s, p).used
  {
    LiveIsPresent(l, p);
    FromHas(c, l, 0, c.size, Block(p, Live(l)[p], true));
    Neighbours(c, s, l, p);
  }

  /** A header between the ones written keeps what it says. */
  lemma StaleHeader(c: Config, s: seq<Byte>, t: seq<Byte>, q: nat, e: nat, p: nat)
    requires c.header >= 2 * c.width + 1 && HeadersOnly(c, s, t, q, q, e)
    requires q + c.header <= p && p + c.header <= e && p + c.header <= |s|
    ensures HeaderAt(c, t, p) == HeaderAt(c, s, p)
  {
    HeaderFrame(c, s, t, p);
  }

  lemma SameBytesKept(c: Config, l: Blocks, s: seq<Byte>)
    ensures PayloadsKept(c, l, -1, s, s)
  {
  }

  lemma NextWritten(c: Config, s: seq<Byte>, t: seq<Byte>, p: nat, v: nat)
    requires c.header >= 2 * c.width + 1 && |t| == |s| && p + c.header <= |s| && v < Capacity(c.width)
    requires forall x | 0 <= x < |s| :: t[x] == if p <= x < p + c.width then ToLittleEndian(v, c.width)[x - p] else s[x]
    ensures Written(c, s, t, p, HeaderAt(c, s, p).(next := v))
  {
    hide ToLittleEndian, LittleEndian, Capacity;
    LittleEndianRoundTrip(v, c.width);
    assert t[p..p + c.width] == ToLittleEndian(v, c.width);
    assert t[p + c.width..p + 2 * c.width] == s[p + c.width..p + 2 * c.width];
  }

  lemma PrevWritten(c: Config, s: seq<Byte>, t: seq<Byte>, p: nat, v: nat)
    requires c.header >= 2 * c.width + 1 && |t| == |s| && p + c.header <= |s| && v < Capacity(c.width)
    requires forall x | 0 <= x < |s| :: t[x] == if p + c.width <= x < p + 2 * c.width then ToLittleEndian(v, c.width)[x - p - c.width] else s[x]
    ensures Written(c, s, t, p, HeaderAt(c, s, p).(prev := v))
  {
    hide ToLittleEndian, LittleEndian, Capacity;
    LittleEndianRoundTrip(v, c.width);
    assert t[p..p + c.width] == s[p..p + c.width];
    assert t[p + c.width..p + 2 * c.width] == ToLittleEndian(v, c.width);
  }

  class Arena {
    const c: Config
    const ram: array<Byte>
    var lfree: nat
    /** lwip_stats.mem.used and lwip_stats.mem.illegal */
    var used: int
    var illegal: nat
    ghost var blocks: Blocks

    ghost predicate Shaped()
      reads this
    {
      c.Valid() && ram.Length == c.size + 2 * c.header
    }

    /** The headers in `ram` form the list `blocks`, closed by the end marker. */
    ghost predicate Represented()
      reads this, ram
    {
      Shaped() && Represents(c, ram[..], blocks)
    }

    ghost predicate Valid()
      reads this, ram
    {
      && Represented() && GoodHeap(c, blocks)
      && lfree == LowestFree(blocks, c.size)
      && used == UsedTotal(blocks)
    }

    // -------------------------------------------------------------- field writes

    method SetNext(p: nat, v: nat)
      requires Shaped() && p + c.header <= ram.Length && v < Capacity(c.width)
      modifies ram
      ensures Written(c, old(ram[..]), ram[..], p, HeaderAt(c, old(ram[..]), p).(next := v))
      ensures HeadersFramed(old(ram[..]), p)
    {
      hide Config.Aligned, Capacity, HeaderAt, ToLittleEndian;
      var bytes := ToLittleEndian(v, c.width);
      forall i | 0 <= i < c.width { ram[p + i] := bytes[i]; }
      NextWritten(c, old(ram[..]), ram[..], p, v);
      FrameHeaders(old(ram[..]), p);
    }

    method SetPrev(p: nat, v: nat)
      requires Shaped() && p + c.header <= ram.Length && v < Capacity(c.width)
      modifies ram
      ensures Written(c, old(ram[..]), ram[..], p, HeaderAt(c, old(ram[..]), p).(prev := v))
      ensures HeadersFramed(old(ram[..]), p)
    {
      hide Config.Aligned, Capacity, HeaderAt, ToLittleEndian;
      var bytes := ToLittleEndian(v, c.width);
      forall i | 0 <= i < c.width { ram[p + c.width + i] := bytes[i]; }
      PrevWritten(c, old(ram[..]), ram[..], p, v);
      FrameHeaders(old(ram[..]), p);
    }

    method SetUsed(p: nat, u: bool)
      requires Shaped() && p + c.header <= ram.Length
      modifies ram
      ensures Written(c, old(ram[..]), ram[..], p, HeaderAt(c, old(ram[..]), p).(used := u))
      ensures HeadersFramed(old(ram[..]), p) && HeaderAt(c, ram[..], p).used == u
    {
      hide Config.Aligned, Capacity;
      ram[p + 2 * c.width] := if u then 1 else 0;
      assert ram[..][p..p + c.width] == old(ram[..])[p..p + c.width];
      assert ram[..][p + c.width..p + 2 * c.width] == old(ram[..])[p + c.width..p + 2 * c.width];
      FrameHeaders(old(ram[..]), p);
    }

    method SetHeader(p: nat, h: Header)
      requires Shaped() && p + c.header <= ram.Length && h.next < Capacity(c.width) && h.prev < Capacity(c.width)
      modifies ram
      ensures Written(c, old(ram[..]), ram[..], p, h)
      ensures HeadersFramed(old(ram[..]), p)
    {
      SetUsed(p, h.used);
      SetNext(p, h.next);
      SetPrev(p, h.prev);
      FrameHeaders(old(ram[..]), p);
    }

    /** Headers that do not overlap the one at `p` read as they did in `s`. */
    ghost predicate HeadersFramed(s: seq<Byte>, p: nat)
      requires Shaped()
      reads this, ram
    {
      && |s| == ram.Length
      && forall q: nat | q + c.header <= |s| && (q + c.header <= p || p + c.header <= q) ::
           HeaderAt(c, ram[..], q) == HeaderAt(c, s, q)
    }

    lemma FrameHeaders(s: seq<Byte>, p: nat)
      requires Shaped() && |s| == ram.Length
      requires forall x | 0 <= x < |s| && !(p <= x < p + c.header) :: ram[..][x] == s[x]
      ensures HeadersFramed(s, p)
    {
      forall q: nat | q + c.header <= |s| && (q + c.header <= p || p + c.header <= q)
        ensures HeaderAt(c, ram[..], q) == HeaderAt(c, s, q)
      {
        HeaderFrame(c, s, ram[..], q);
      }
    }

    // -------------------------------------------------------------- mem_init

    constructor (c: Config)
      requires c.Valid()
      ensures Valid() && fresh(ram) && this.c == c
      ensures blocks == Initial(c) && used == 0
    {
      this.c := c;
      ram := new Byte[c.size + 2 * c.header];
      lfree, used, illegal := 0, 0, 0;
      blocks := Initial(c);
      new;
      InitialIsGood(c);
      SetHeader(0, Header(c.size, 0, false));
      SetHeader(c.size, Header(c.size, c.size, true));
      assert Linked(c, ram[..], blocks, 0);
    }

    // -------------------------------------------------------------- shared steps

    /** Create a free block at `p2` between `p` and `e`. */
    method CutAt(p: nat, p2: nat, e: nat)
      requires Shaped() && p + c.header <= p2 && p2 + c.header <= e <= c.size
      modifies ram
      ensures var u := HeaderAt(c, old(ram[..]), p).used;
              Relinked(c, old(ram[..]), ram[..], p, e, c.size, Cons(Block(p, p2, u), Cons(Block(p2, e, false), Nil)))
      ensures HeadersOnly(c, old(ram[..]), ram[..], p, p2, e)
    {
      ghost var s0 := ram[..];
      SetHeader(p2, Header(e, p, false));
      ghost var s1 := ram[..];
      SetNext(p, p2);
      ghost var s2 := ram[..];
      if e != c.size {
        SetPrev(e, p2);
      }
      CutIsRelinked(c, s0, s1, s2, ram[..], p, p2, e);
    }

    // -------------------------------------------------------------- mem_malloc

    /** Mark the free block at `ptr` used, cutting off the part the request does not need; the
        result is the size of the block taken, header included. */
    method Take(ptr: nat, size: nat) returns (taken: nat)
      requires Represented() && GoodHeap(c, blocks) && From(blocks, ptr).Cons? && Fits(c, From(blocks, ptr).b, size)
      modifies ram
      ensures Represents(c, ram[..], Alloc(c, blocks, ptr, size))
      ensures PayloadsKept(c, blocks, -1, old(ram[..]), ram[..])
      ensures ptr + taken == Served(c, From(blocks, ptr).b, size).end
    {
      hide Config.Aligned, GoodHeap, Represents, PayloadsKept, HeadersOnly, Written, Alloc, Live, From, Has, Relinked;
      ghost var s, l := ram[..], blocks;
      BlockFacts(c, s, l, ptr);
      var next := HeaderAt(c, ram[..], ptr).next;
      SetUsed(ptr, true);
      ghost var s1 := ram[..];
      if next - (ptr + c.header) >= size + c.header + c.min {
        var ptr2 := ptr + c.header + size;
        CutAt(ptr, ptr2, next);
        assert SplitBlock(c, From(l, ptr).b, size) == Cons(Block(ptr, ptr2, true), Cons(Block(ptr2, next, false), Nil));
        HeadersOnlyAfterFlag(c, s, s1, ram[..], ptr, ptr2, next);
        TakeKeepsPayloads(c, s, ram[..], l, ptr, ptr2);
        TakeIsAlloc(c, s, s1, ram[..], l, ptr, size);
        taken := size + c.header;
      } else {
        FlagIsHeaderOnly(c, s, s1, ptr, next);
        TakeKeepsPayloads(c, s, ram[..], l, ptr, ptr);
        TakeIsAlloc(c, s, s1, ram[..], l, ptr, size);
        taken := next - ptr;
      }
    }

    /** Find the next free block after the one just taken. */
    method AdjustLowestFree()
      requires Represented() && From(blocks, lfree).Cons?
      requires LowestFree(blocks, c.size) == LowestFree(From(blocks, lfree), c.size)
      modifies this`lfree
      ensures lfree == LowestFree(blocks, c.size)
    {
      hide Config.Aligned, Linked;
      var cur := lfree;
      Neighbours(c, ram[..], blocks, cur);
      while HeaderAt(c, ram[..], cur).used && cur != c.size
        invariant cur <= c.size && Boundary(c, blocks, cur)
        invariant LowestFree(blocks, c.size) == LowestFree(From(blocks, cur), c.size)
        decreases c.size - cur
      {
        Neighbours(c, ram[..], blocks, cur);
        FromEnd(c, blocks, 0, c.size);
        cur := HeaderAt(c, ram[..], cur).next;
      }
      FromEnd(c, blocks, 0, c.size);
      if cur < c.size { Neighbours(c, ram[..], blocks, cur); }
      lfree := cur;
    }

    /** Round a request up, as mem_malloc and mem_trim begin by doing. */
    method Round(n: nat) returns (size: nat)
      requires c.align > 0
      ensures size == Rounded(c, n)
    {
      size := RoundUp(n, c.align) % Capacity(c.width);
      if size < c.min { size := c.min; }
    }

    /** The scan of mem_malloc, which starts at the lowest free block and stops early. */
    method Search(size: nat) returns (ptr: nat)
      requires Valid() && size <= c.size
      ensures ptr == FirstFit(c, blocks, size, c.size) && ptr <= c.size
      ensures ptr < c.size ==> From(blocks, ptr).Cons? && Fits(c, From(blocks, ptr).b, size)
    {
      hide Config.Aligned, Linked, WellFormed, AlignedBlocks;
      ptr := lfree;
      SearchFromLowestFree(c, blocks, 0, c.size, size);
      while ptr < c.size - size
        invariant ptr <= c.size && Boundary(c, blocks, ptr)
        invariant FirstFit(c, From(blocks, ptr), size, c.size) == FirstFit(c, blocks, size, c.size)
        decreases c.size - ptr
      {
        Neighbours(c, ram[..], blocks, ptr);
        FromEnd(c, blocks, 0, c.size);
        var h := HeaderAt(c, ram[..], ptr);
        if !h.used && h.next - (ptr + c.header) >= size {
          return;
        }
        ptr := h.next;
      }
      FromEnd(c, blocks, 0, c.size);
      if ptr < c.size { FromInRange(c, blocks, 0, c.size, ptr); }
      NothingFitsNearTheEnd(c, From(blocks, ptr), ptr, c.size, size);
      ptr := c.size;
    }

    /** mem_malloc: the lowest gap with room, or Null; and how much of it is taken. */
    method MemMalloc(n: nat) returns (r: Pointer)
      requires Valid() && n < Capacity(c.width)
      modifies this, ram
      ensures Valid() && illegal == old(illegal)
      ensures var size := Rounded(c, n);
              var p := FirstFit(c, old(blocks), size, c.size);
              if n == 0 || !Acceptable(c, n) || p == c.size
              then r == Null && blocks == old(blocks) && ram[..] == old(ram[..])
              else r == At(p + c.header) && blocks == Alloc(c, old(blocks), p, size)
      ensures r == Null <==> n == 0 || RoundUp(n, c.align) > c.size || NoRoom(c, old(Live(blocks)), Wanted(c, n))
      ensures r == Null ==> Live(blocks) == old(Live(blocks)) && used == old(used)
      ensures r.At? ==> && r.off >= c.header && Granted(c, old(Live(blocks)), Live(blocks), r.off - c.header, Wanted(c, n))
                        && r.off - c.header in Live(blocks) && used == old(used) + (Live(blocks)[r.off - c.header] - (r.off - c.header))
      ensures PayloadsKept(c, old(blocks), -1, old(ram[..]), ram[..])
    {
      hide Config.Aligned, Rounded, Linked, Tiled, WellFormed, AlignedBlocks, PayloadsKept, Alloc, From, Has, Live, FirstFit, Granted, NoRoom, Wanted, UsedTotal;
      MallocFacts(c, blocks, n);
      if n == 0 { SameBytesKept(c, blocks, ram[..]); return Null; }
      var size := Round(n);
      if size > c.size || size < n { SameBytesKept(c, blocks, ram[..]); return Null; }
      var ptr := Search(size);
      if ptr == c.size { SameBytesKept(c, blocks, ram[..]); return Null; }
      ghost var l := blocks;
      ListFactsOfTake(c, l, n, ptr);
      var taken := Take(ptr, size);
      blocks := Alloc(c, l, ptr, size);
      used := used + taken;
      if ptr == lfree { AdjustLowestFree(); }
      return At(ptr + c.header);
    }

    // -------------------------------------------------------------- mem_free

    /** Make block `p` reach to `e`. */
    method Absorb(p: nat, e: nat)
      requires Shaped() && p + c.header <= e <= c.size
      modifies ram
      ensures Relinked(c, old(ram[..]), ram[..], p, e, c.size, Cons(Block(p, e, HeaderAt(c, old(ram[..]), p).used), Nil))
      ensures HeadersOnly(c, old(ram[..]), ram[..], p, p, e)
    {
      ghost var s0 := ram[..];
      SetNext(p, e);
      ghost var s1 := ram[..];
      if e != c.size {
        SetPrev(e, p);
      }
      AbsorbIsRelinked(c, s0, s1, ram[..], p, e);
    }

    method PlugForward(mem: nat)
      requires Represented() && From(blocks, mem).Cons? && !From(blocks, mem).b.used
      requires lfree == LowestFree(blocks, c.size)
      modifies this`lfree, this`blocks, ram
      ensures Represented() && blocks == MergeAfter(old(blocks), mem) && lfree == LowestFree(blocks, c.size)
      ensures From(blocks, mem).Cons? && !From(blocks, mem).b.used
      ensures HeadersOnly(c, old(ram[..]), ram[..], mem, mem, From(blocks, mem).b.end)
    {
      hide Config.Aligned, Linked, Tiled, Relinked, HeadersOnly, MergeAfter;
      ghost var s, l := ram[..], blocks;
      Neighbours(c, s, l, mem);
      var nmem := HeaderAt(c, ram[..], mem).next;
      if mem != nmem && !HeaderAt(c, ram[..], nmem).used && nmem != c.size {
        if lfree == nmem { lfree := mem; }
        Absorb(mem, HeaderAt(c, ram[..], nmem).next);
      } else {
        SameHeaders(c, s, mem, mem, nmem);
      }
      ForwardMerge(c, s, ram[..], l, mem);
      MergedEnd(c, l, mem);
      blocks := MergeAfter(blocks, mem);
    }

    method PlugBackward(mem: nat) returns (ghost q: nat)
      requires Represented() && From(blocks, mem).Cons? && !From(blocks, mem).b.used
      requires lfree == LowestFree(blocks, c.size)
      modifies this`lfree, this`blocks, ram
      ensures Represented() && blocks == MergeBefore(old(blocks), mem) && lfree == LowestFree(blocks, c.size)
      ensures From(old(blocks), q).Cons?
      ensures HeadersOnly(c, old(ram[..]), ram[..], q, q, From(old(blocks), mem).b.end)
      ensures mem + c.header <= ram.Length && !HeaderAt(c, ram[..], mem).used
    {
      hide Config.Aligned, Linked, Tiled, Relinked, HeadersOnly, MergeBefore, MergeAfter;
      ghost var s, l := ram[..], blocks;
      Neighbours(c, s, l, mem);
      Predecessor(c, s, l, mem);
      MergeAndLowestFree(c, l, 0, c.size, mem);
      var pmem := HeaderAt(c, ram[..], mem).prev;
      q := pmem;
      if pmem != mem && !HeaderAt(c, ram[..], pmem).used {
        if lfree == mem { lfree := pmem; }
        FreePairNotLowest(c, l, 0, c.size, pmem, mem);
        Neighbours(c, s, l, pmem);
        Absorb(pmem, HeaderAt(c, ram[..], mem).next);
        StaleHeader(c, s, ram[..], pmem, From(l, mem).b.end, mem);
      } else {
        SameHeaders(c, s, q, q, From(l, mem).b.end);
      }
      BackwardMerge(c, s, ram[..], l, mem, pmem);
      blocks := MergeBefore(blocks, mem);
    }

    /** plug_holes: merge the free block `mem` with free neighbours on either side. */
    method PlugHoles(mem: nat) returns (ghost e: nat, ghost q: nat, ghost s: seq<Byte>)
      requires Represented() && From(blocks, mem).Cons? && !From(blocks, mem).b.used
      requires lfree == LowestFree(blocks, c.size)
      modifies this`lfree, this`blocks, ram
      ensures Represented() && lfree == LowestFree(blocks, c.size)
      ensures blocks == MergeBefore(MergeAfter(old(blocks), mem), mem)
      ensures var m := MergeAfter(old(blocks), mem);
              Tiled(c, m, 0, c.size) && From(m, q).Cons? && From(m, mem).Cons? && e == From(m, mem).b.end
      ensures HeadersOnly(c, old(ram[..]), s, mem, mem, e) && HeadersOnly(c, s, ram[..], q, q, e)
      ensures mem + c.header <= ram.Length && !HeaderAt(c, ram[..], mem).used
    {
      PlugForward(mem);
      s, e := ram[..], From(blocks, mem).b.end;
      q := PlugBackward(mem);
    }

    /** mem_free. A pointer that the checks let through has to be live; any other is refused
        and leaves the heap as it was. Freeing the same pointer again at once is refused: its
        header is free or stale, and says so either way. */
    method MemFree(rmem: Pointer)
      requires Valid()
      requires rmem.At? && Releasable(c, ram[..], rmem.off) ==> rmem.off - c.header in Live(blocks)
      modifies this, ram
      ensures Valid()
      ensures if rmem.At? && old(Releasable(c, ram[..], rmem.off))
              then && blocks == Free(old(blocks), rmem.off - c.header) && illegal == old(illegal)
                   && rmem.off - c.header in old(Live(blocks)) && Live(blocks) == old(Live(blocks)) - {rmem.off - c.header}
                   && used == old(used) - (old(Live(blocks))[rmem.off - c.header] - (rmem.off - c.header))
              else blocks == old(blocks) && ram[..] == old(ram[..]) && illegal == old(illegal) + (if rmem.Null? then 0 else 1)
      ensures PayloadsKept(c, old(blocks), -1, old(ram[..]), ram[..])
      ensures rmem.At? ==> !Releasable(c, ram[..], rmem.off)
    {
      hide Config.Aligned, GoodHeap, Represents, PayloadsKept, Free, Live, LowestFree, UsedTotal, LinkValid, HeaderAt;
      SameBytesKept(c, blocks, ram[..]);
      if rmem == Null { return; }
      var ok := PassesChecks(rmem.off);
      if !ok { illegal := illegal + 1; return; }
      FreeFacts(c, blocks, rmem.off - c.header);
      Release(rmem.off - c.header);
    }

    /** The checks of mem_free, in order. */
    method PassesChecks(off: int) returns (ok: bool)
      requires Shaped()
      ensures ok <==> Releasable(c, ram[..], off)
    {
      if off % c.align != 0 { return false; }
      if off - c.header < 0 || off + c.min > c.size { return false; }
      var mem := off - c.header;
      if !HeaderAt(c, ram[..], mem).used { return false; }
      ok := LinkValid(c, ram[..], mem);
    }

    /** The part of mem_free behind its checks. */
    method Release(mem: nat)
      requires Valid() && mem in Live(blocks)
      modifies this`lfree, this`used, this`blocks, ram
      ensures Valid() && blocks == Free(old(blocks), mem)
      ensures PayloadsKept(c, old(blocks), -1, old(ram[..]), ram[..])
      ensures mem + c.header <= ram.Length && !HeaderAt(c, ram[..], mem).used
    {
      hide Config.Aligned, Represents, GoodHeap, Live, Has, HeadersOnly, PayloadsKept, Written, MergeAfter, MergeBefore, Free, From, Tiled;
      ghost var s, l := ram[..], blocks;
      ghost var b := Block(mem, Live(l)[mem], true);
      ReleaseFacts(c, s, l, mem);
      SetUsed(mem, false);
      ghost var s1 := ram[..];
      FlagCleared(c, s, s1, l, b);
      blocks := Replace(l, mem, 1, Cons(b.(used := false), Nil));
      if mem < lfree { lfree := mem; }
      used := used - (HeaderAt(c, ram[..], mem).next - mem);
      ghost var e, q, s2 := PlugHoles(mem);
      ReleaseBoundaries(c, s, l, b, q);
      ReleaseKeepsPayloads(c, s, s1, s2, ram[..], l, mem, e, q);
    }

    // -------------------------------------------------------------- mem_trim

    /** A client writes into the block that it holds. The heap is as right as before, and no other
        live byte changes; so calls of the allocator may be mixed with such writes. */
    method Write(p: nat, at: nat, data: seq<Byte>)
      requires Valid() && p in Live(blocks) && p + c.header + at + |data| <= Live(blocks)[p]
      modifies ram
      ensures Valid() && PayloadsKept(c, blocks, p, old(ram[..]), ram[..])
      ensures Live(blocks)[p] <= ram.Length && ram[p + c.header + at..p + c.header + at + |data|] == data
      ensures forall x | 0 <= x < ram.Length && !(p + c.header + at <= x < p + c.header + at + |data|) :: ram[x] == old(ram[x])
    {
      ghost var s := ram[..];
      LiveStart(c, blocks, 0, c.size, p);
      var from := p + c.header + at;
      forall i | 0 <= i < |data| { ram[from + i] := data[i]; }
      PayloadWritten(c, s, ram[..], blocks, p);
    }

    /** mem_trim. `nextOk` is the LWIP_ASSERT of src/lib/liblwip/core/mem.c:790, which demands
        that the block being cut is not the last one although the code below it copes. */
    method MemTrim(rmem: int, n: nat) returns (r: Pointer, nextOk: bool)
      requires Valid() && n < Capacity(c.width)
      requires 0 <= rmem < c.size ==> rmem - c.header in Live(blocks)
      modifies this, ram
      ensures Valid()
      ensures Acceptable(c, n) <==> RoundUp(n, c.align) <= c.size
      ensures illegal == old(illegal) + if Acceptable(c, n) && !(0 <= rmem < c.size) then 1 else 0
      ensures if Acceptable(c, n) && 0 <= rmem < c.size
              then && TrimOutcome(c, old(blocks), old(ram[..]), rmem - c.header, Rounded(c, n), r != Null, blocks, ram[..], nextOk)
                   && (r == Null || r == At(rmem))
                   && (r == Null <==> old(Live(blocks))[rmem - c.header] < rmem + Wanted(c, n))
                   && Live(blocks) == (if r == Null then old(Live(blocks)) else
                                         old(Live(blocks))[rmem - c.header := ShortEnd(c, old(Live(blocks)), rmem - c.header, Wanted(c, n))])
                   && used == old(used) - if r == Null then 0 else
                                old(Live(blocks))[rmem - c.header] - ShortEnd(c, old(Live(blocks)), rmem - c.header, Wanted(c, n))
              else && blocks == old(blocks) && ram[..] == old(ram[..]) && nextOk
                   && r == if Acceptable(c, n) then At(rmem) else Null
    {
      hide Config.Aligned, Rounded, GoodHeap, Represents, TrimOutcome, Live, LowestFree, UsedTotal, ShortEnd, Trim, Wanted;
      AcceptedIsWanted(c, n);
      var newsize := Round(n);
      if newsize > c.size || newsize < n { return Null, true; }
      if rmem < 0 || rmem >= c.size { illegal := illegal + 1; return At(rmem), true; }
      var fits;
      ghost var l, s := blocks, ram[..];
      TrimmedFacts(c, l, rmem - c.header, n);
      fits, nextOk := Shrink(rmem - c.header, n, newsize);
      TrimOutcomeFacts(c, l, s, rmem - c.header, newsize, fits, blocks, ram[..], nextOk);
      r := if fits then At(rmem) else Null;
    }

    /** Relink the live block at `ptr` so that it ends `size` payload bytes behind its header and
        a free block reaches from there to `e`. */
    method CutShort(ptr: nat, size: nat, e: nat)
      requires Represented() && GoodHeap(c, blocks) && ptr in Live(blocks)
      requires var b := Block(ptr, Live(blocks)[ptr], true);
               var f := After(blocks, b);
               && Trimmed(c, b, f, size).end != b.end && e == (if f.Cons? && !f.b.used then f.b.end else b.end)
               && ptr + c.header + size + c.header <= e <= c.size
      modifies ram
      ensures var b := Block(ptr, Live(blocks)[ptr], true);
              && Represents(c, ram[..], Trim(c, blocks, ptr, size))
              && TrimOutcome(c, blocks, old(ram[..]), ptr, size, true, Trim(c, blocks, ptr, size), ram[..],
                             !(b.end == c.size && Splits(c, b, size)))
    {
      hide Config.Aligned, Represents, HeadersOnly, Relinked, TrimOutcome, Trim, After, Live, Has;
      ghost var s, l := ram[..], blocks;
      ghost var b := Block(ptr, Live(l)[ptr], true);
      LiveHeader(c, s, l, ptr);
      CutAt(ptr, ptr + c.header + size, e);
      CutIsTrim(c, s, ram[..], l, b, size, e);
    }

    /** The part of mem_trim behind its argument checks. */
    method Shrink(ptr: nat, ghost n: nat, newsize: nat) returns (fits: bool, nextOk: bool)
      requires Valid() && ptr in Live(blocks)
      requires n < Capacity(c.width) && Acceptable(c, n) && newsize == Rounded(c, n)
      modifies this`lfree, this`used, this`blocks, ram
      ensures Valid()
      ensures TrimOutcome(c, old(blocks), old(ram[..]), ptr, newsize, fits, blocks, ram[..], nextOk)
    {
      hide Config.Aligned, Rounded, GoodHeap, Represents, HeadersOnly, Relinked, TrimOutcome, Live, Has, Trim, After, LowestFree, UsedTotal;
      ghost var s, l := ram[..], blocks;
      TrimFacts(c, s, l, ptr, n);
      ghost var b := Block(ptr, Live(l)[ptr], true);
      var next := HeaderAt(c, ram[..], ptr).next;
      var size := next - ptr - c.header;
      if newsize >= size {
        TrimIsNothing(c, l, s, ptr, newsize);
        return newsize == size, true;
      }
      var ptr2 := ptr + c.header + newsize;
      if !HeaderAt(c, ram[..], next).used {
        var next2 := HeaderAt(c, ram[..], next).next;
        if lfree == next { lfree := ptr2; }
        CutShort(ptr, newsize, next2);
        blocks := Trim(c, l, ptr, newsize);
        used := used - (size - newsize);
        return true, true;
      } else if newsize + c.header + c.min <= size {
        if ptr2 < lfree { lfree := ptr2; }
        CutShort(ptr, newsize, next);
        blocks := Trim(c, l, ptr, newsize);
        used := used - (size - newsize);
        return true, next != c.size;
      }
      TrimIsNothing(c, l, s, ptr, newsize);
      return true, true;
    }
  }

  lemma PayloadWritten(c: Config, s: seq<Byte>, t: seq<Byte>, l: Blocks, p: nat)
    requires c.Valid() && GoodHeap(c, l) && Represents(c, s, l) && p in Live(l) && |t| == |s|
    requires forall x | 0 <= x < |s| && !(p + c.header <= x < Live(l)[p]) :: t[x] == s[x]
    ensures Represents(c, t, l) && PayloadsKept(c, l, p, s, t)
  {
    hide Linked, Tiled, HeaderAt, Live, GoodHeap;
    PayloadFrame(c, s, t, l, 0, c.size, 0, p);
    HeaderFrame(c, s, t, c.size);
    forall q, x | q in Live(l) && q != p && q + c.header <= x < Live(l)[q] && x < |s| ensures t[x] == s[x] {
      Apart(c, l, p, q);
    }
  }

  lemma Apart(c: Config, l: Blocks, p: nat, q: nat)
    requires GoodHeap(c, l) && p in Live(l) && q in Live(l) && p != q
    ensures Live(l)[p] <= q || Live(l)[q] <= p
  {
    hide Live, WellFormed;
    if p < q { LiveBlocksDisjoint(c, l, 0, c.size, false, p, q); } else { LiveBlocksDisjoint(c, l, 0, c.size, false, q, p); }
  }

  /** In every heap with room for two blocks the assertion of mem_trim can fail: take the whole heap
      and give back what is not needed of it. */
  method TrimWholeHeap(c: Config) returns (r: Pointer, nextOk: bool)
    requires c.Valid() && c.size >= 2 * (c.header + c.min)
    ensures r.At? && !nextOk
  {
    var h := new Arena(c);
    var n := c.size - c.header;
    WholeHeap(c);
    r := h.MemMalloc(n);
    r, nextOk := h.MemTrim(c.header, c.min);
  }

  lemma WholeHeap(c: Config)
    requires c.Valid() && c.size >= 2 * (c.header + c.min)
    ensures var n := c.size - c.header;
            && Rounded(c, n) == n && Acceptable(c, n) && Rounded(c, c.min) == c.min && Acceptable(c, c.min)
            && FirstFit(c, Initial(c), n, c.size) == 0
            && Alloc(c, Initial(c), 0, n) == Cons(Block(0, c.size, true), Nil)
            && Live(Cons(Block(0, c.size, true), Nil)) == map[0 := c.size]
            && Splits(c, Block(0, c.size, true), c.min)
  {
    var n := c.size - c.header;
    AlignedSum(c.size, c.header, c.align);
    AlignedIsRounded(c, n);
    AlignedIsRounded(c, c.min);
  }

  lemma AlignedIsRounded(c: Config, n: nat)
    requires c.Valid() && n % c.align == 0 && c.min <= n <= c.size
    ensures Rounded(c, n) == n && Acceptable(c, n)
  {
    var r := RoundUp(n, c.align);
    AlignedSum(r, n, c.align);
    QuotientUnique(r - n, c.align, 0, r - n);
    QuotientUnique(n, Capacity(c.width), 0, n);
  }
}
