/** What the heap of src/lib/liblwip/core/mem.c means: a list of blocks that tile the arena.

    The operations here work on block lists; module Heap runs the pointer code of the
    source on the bytes of the arena and is proved to do exactly this.

    The shipped options select libc's malloc (src/lib/liblwip/cfg/lwipopts.h:84-86), so this
    is the alternative build branch, src/lib/liblwip/core/mem.c:341-978. */
module HeapSpec {
  import opened Bytes

  /** MEM_ALIGNMENT, MEM_SIZE_ALIGNED, SIZEOF_STRUCT_MEM, MIN_SIZE_ALIGNED and
      sizeof(mem_size_t). */
  datatype Config = Config(align: nat, size: nat, header: nat, min: nat, width: nat) {
    ghost predicate Valid() { Sized() && Aligned() }

    ghost predicate Sized() {
      && align > 0 && min > 0 && width > 0
      && header >= 2 * width + 1
      && header + min <= size < Capacity(width)
    }

    ghost predicate Aligned()
      requires align > 0
    {
      && size % align == 0 && header % align == 0 && min % align == 0
      && Capacity(width) % align == 0
    }
  }

  /** A block owns the arena offsets [start, end); its header sits at `start`. */
  datatype Block = Block(start: nat, end: nat, used: bool)

  datatype Blocks = Nil | Cons(b: Block, rest: Blocks)

  // ---------------------------------------------------------------- well-formed heaps

  /** The blocks tile [lo, hi), each has room for a header and the minimum payload, and no free
      block follows a free one (`prevFree` says what stands just before `lo`). */
  ghost predicate WellFormed(c: Config, l: Blocks, lo: nat, hi: nat, prevFree: bool) {
    match l
    case Nil => lo == hi
    case Cons(b, r) =>
      && b.start == lo && b.start + c.header + c.min <= b.end
      && (prevFree ==> b.used)
      && WellFormed(c, r, b.end, hi, !b.used)
  }

  ghost predicate AlignedBlocks(c: Config, l: Blocks)
    requires c.align > 0
  {
    l.Cons? ==> l.b.start % c.align == 0 && AlignedBlocks(c, l.rest)
  }

  /** A heap that mem_init, mem_malloc, mem_free and mem_trim may be called on. */
  ghost predicate GoodHeap(c: Config, l: Blocks) {
    c.Valid() && WellFormed(c, l, 0, c.size, false) && AlignedBlocks(c, l)
  }

  /** The live blocks: start offset to end offset. */
  ghost function Live(l: Blocks): map<nat, nat> {
    match l
    case Nil => map[]
    case Cons(b, r) => if b.used then Live(r)[b.start := b.end] else Live(r)
  }

  /** mem_init leaves one free block that spans the arena. */
  function Initial(c: Config): Blocks { Cons(Block(0, c.size, false), Nil) }

  lemma InitialIsGood(c: Config)
    requires c.Valid()
    ensures GoodHeap(c, Initial(c)) && Live(Initial(c)) == map[]
  {
    QuotientUnique(0, c.align, 0, 0);
  }

  lemma {:induction false} BlocksInRange(c: Config, l: Blocks, lo: nat, hi: nat, prevFree: bool)
    requires c.header > 0 && WellFormed(c, l, lo, hi, prevFree)
    ensures lo <= hi
    ensures forall p | p in Live(l) :: lo <= p && p + c.header + c.min <= Live(l)[p] <= hi
  {
    if l.Cons? { BlocksInRange(c, l.rest, l.b.end, hi, !l.b.used); }
  }

  /** Live blocks do not overlap. */
  lemma {:induction false} LiveBlocksDisjoint(c: Config, l: Blocks, lo: nat, hi: nat, prevFree: bool, p: nat, q: nat)
    requires c.header > 0 && WellFormed(c, l, lo, hi, prevFree)
    requires p in Live(l) && q in Live(l) && p < q
    ensures Live(l)[p] <= q
  {
    if l.Cons? {
      BlocksInRange(c, l.rest, l.b.end, hi, !l.b.used);
      if p in Live(l.rest) {
        LiveBlocksDisjoint(c, l.rest, l.b.end, hi, !l.b.used, p, q);
      }
    }
  }

  // ---------------------------------------------------------------- requests

  /** The rounded size that mem_malloc and mem_trim work with, truncated to mem_size_t. */
  function Rounded(c: Config, n: nat): nat
    requires c.align > 0
  {
    var r := RoundUp(n, c.align) % Capacity(c.width);
    if r < c.min then c.min else r
  }

  predicate Acceptable(c: Config, n: nat)
    requires c.align > 0
  {
    n <= Rounded(c, n) <= c.size
  }

  lemma RoundedFacts(c: Config, n: nat)
    requires c.Valid()
    ensures Rounded(c, n) % c.align == 0 && Rounded(c, n) >= c.min
    ensures n < Capacity(c.width) ==> (Acceptable(c, n) <==> RoundUp(n, c.align) <= c.size)
  {
    var r, cap := RoundUp(n, c.align), Capacity(c.width);
    AlignedRemainder(r, cap, c.align);
    if n < cap {
      WrapsPastCapacity(n, c.align, cap);
      if r < cap { QuotientUnique(r, cap, 0, r); } else { QuotientUnique(r, cap, 1, 0); }
      FitsAfterRounding(c, n);
    }
  }

  lemma FitsAfterRounding(c: Config, n: nat)
    requires c.Valid() && n < Capacity(c.width)
    requires RoundUp(n, c.align) % Capacity(c.width) ==
             if RoundUp(n, c.align) < Capacity(c.width) then RoundUp(n, c.align) else 0
    ensures Acceptable(c, n) <==> RoundUp(n, c.align) <= c.size
  {
    if n <= c.min {
      BelowAlignedBound(n, c.min, c.align);
    }
  }

  lemma BelowAlignedBound(n: nat, m: nat, a: nat)
    requires a > 0 && m % a == 0 && n <= m
    ensures RoundUp(n, a) <= m
  {
    if RoundUp(n, a) > m {
      AlignedSum(RoundUp(n, a), m, a);
      QuotientUnique(RoundUp(n, a) - m, a, 0, RoundUp(n, a) - m);
      assert false;
    }
  }

  lemma AlignedRemainder(r: nat, cap: nat, a: nat)
    requires a > 0 && cap > 0 && r % a == 0 && cap % a == 0
    ensures r % cap % a == 0
  {
    MultipleOfAligned(r / cap, cap, a);
    AlignedSum(r, cap * (r / cap), a);
    assert r % cap == r - cap * (r / cap);
  }

  lemma {:induction false} MultipleOfAligned(k: nat, cap: nat, a: nat)
    requires a > 0 && cap % a == 0
    ensures cap * k % a == 0
  {
    if k == 0 {
      QuotientUnique(0, a, 0, 0);
    } else {
      MultipleOfAligned(k - 1, cap, a);
      AlignedSum(cap * (k - 1), cap, a);
      assert cap * (k - 1) + cap == cap * k;
    }
  }

  /** Rounding up either stays below the capacity or reaches it exactly. */
  lemma WrapsPastCapacity(n: nat, a: nat, cap: nat)
    requires a > 0 && cap % a == 0 && n < cap
    ensures RoundUp(n, a) <= cap
  {
    BelowAlignedBound(n, cap, a);
  }

  // ---------------------------------------------------------------- the operations

  predicate Fits(c: Config, b: Block, size: nat) {
    !b.used && b.end >= b.start + c.header + size
  }

  /** Full scan from the bottom for a free block that holds `size`: its offset, or `end`. */
  function FirstFit(c: Config, l: Blocks, size: nat, end: nat): nat {
    match l
    case Nil => end
    case Cons(b, r) => if Fits(c, b, size) then b.start else FirstFit(c, r, size, end)
  }

  predicate Splits(c: Config, b: Block, size: nat) {
    b.end >= b.start + c.header + size + c.header + c.min
  }

  /** The block that serves a request for `size` bytes out of free block `b`. */
  function Served(c: Config, b: Block, size: nat): Block {
    Block(b.start, if Splits(c, b, size) then b.start + c.header + size else b.end, true)
  }

  function Alloc(c: Config, l: Blocks, p: nat, size: nat): Blocks {
    match l
    case Nil => Nil
    case Cons(b, r) =>
      if b.start != p then Cons(b, Alloc(c, r, p, size))
      else
        var s := Served(c, b, size);
        Cons(s, if s.end == b.end then r else Cons(Block(s.end, b.end, false), r))
  }

  /** `b` in front of `r`, merged with the head of `r` if both are free. */
  function Join(b: Block, r: Blocks): Blocks {
    if !b.used && r.Cons? && !r.b.used then Cons(Block(b.start, r.b.end, false), r.rest) else Cons(b, r)
  }

  function Free(l: Blocks, p: nat): Blocks {
    match l
    case Nil => Nil
    case Cons(b, r) => if b.start == p then Join(b.(used := false), r) else Join(b, Free(r, p))
  }

  /** The block that live block `b`, followed by `r`, becomes when shrunk to `size` bytes: the
      tail joins a free successor, or becomes a block if it is large enough, or stays. */
  function Trimmed(c: Config, b: Block, r: Blocks, size: nat): Block {
    var mid := b.start + c.header + size;
    if b.end > mid && ((r.Cons? && !r.b.used) || Splits(c, b, size)) then Block(b.start, mid, true) else b
  }

  function Trim(c: Config, l: Blocks, p: nat, size: nat): Blocks {
    match l
    case Nil => Nil
    case Cons(b, r) =>
      if b.start != p then Cons(b, Trim(c, r, p, size))
      else
        var t := Trimmed(c, b, r, size);
        Cons(t, if t.end == b.end then r else Join(Block(t.end, b.end, false), r))
  }

  /** Offset of the lowest free block, or of the end marker. */
  function LowestFree(l: Blocks, end: nat): nat {
    match l
    case Nil => end
    case Cons(b, r) => if !b.used then b.start else LowestFree(r, end)
  }

  function UsedTotal(l: Blocks): int {
    match l
    case Nil => 0
    case Cons(b, r) => (if b.used then b.end - b.start else 0) + UsedTotal(r)
  }

  function FreeTotal(l: Blocks): int {
    match l
    case Nil => 0
    case Cons(b, r) => (if b.used then 0 else b.end - b.start) + FreeTotal(r)
  }

  /** Block `b` is somewhere in the list. */
  predicate Has(l: Blocks, b: Block) { l.Cons? && (l.b == b || Has(l.rest, b)) }

  // ---------------------------------------------------------------- the operations keep the heap well formed

  lemma {:induction false} AllocKeepsWellFormed(c: Config, l: Blocks, lo: nat, hi: nat, prevFree: bool, b: Block, size: nat)
    requires c.header > 0 && WellFormed(c, l, lo, hi, prevFree)
    requires Has(l, b) && Fits(c, b, size) && size >= c.min
    ensures WellFormed(c, Alloc(c, l, b.start, size), lo, hi, prevFree)
    ensures b.start !in Live(l)
    ensures Live(Alloc(c, l, b.start, size)) == Live(l)[b.start := Served(c, b, size).end]
    ensures UsedTotal(Alloc(c, l, b.start, size)) == UsedTotal(l) + (Served(c, b, size).end - b.start)
  {
    BlocksInRange(c, l.rest, l.b.end, hi, !l.b.used);
    HasInRange(c, l, lo, hi, prevFree, b);
    if l.b != b {
      AllocKeepsWellFormed(c, l.rest, l.b.end, hi, !l.b.used, b, size);
    }
  }

  lemma {:induction false} HasInRange(c: Config, l: Blocks, lo: nat, hi: nat, prevFree: bool, b: Block)
    requires c.header > 0 && WellFormed(c, l, lo, hi, prevFree) && Has(l, b)
    ensures lo <= b.start && b.start + c.header + c.min <= b.end <= hi
    ensures l.b != b ==> Has(l.rest, b) && l.b.end <= b.start
    ensures b.used <==> b.start in Live(l)
    ensures b.used ==> Live(l)[b.start] == b.end
  {
    BlocksInRange(c, l.rest, l.b.end, hi, !l.b.used);
    if l.b != b { HasInRange(c, l.rest, l.b.end, hi, !l.b.used, b); }
  }

  lemma {:induction false} FreeKeepsWellFormed(c: Config, l: Blocks, lo: nat, hi: nat, prevFree: bool, b: Block)
    requires c.header > 0 && WellFormed(c, l, lo, hi, prevFree) && Has(l, b) && b.used
    ensures WellFormed(c, Free(l, b.start), lo, hi, prevFree && l.b != b)
    ensures Live(Free(l, b.start)) == Live(l) - {b.start}
    ensures UsedTotal(Free(l, b.start)) == UsedTotal(l) - (b.end - b.start)
  {
    BlocksInRange(c, l.rest, l.b.end, hi, !l.b.used);
    HasInRange(c, l, lo, hi, prevFree, b);
    if l.b != b {
      FreeKeepsWellFormed(c, l.rest, l.b.end, hi, !l.b.used, b);
    }
  }

  /** What stands behind block `b`. */
  function After(l: Blocks, b: Block): Blocks {
    if l.Nil? then Nil else if l.b == b then l.rest else After(l.rest, b)
  }

  lemma {:induction false} TrimKeepsWellFormed(c: Config, l: Blocks, lo: nat, hi: nat, prevFree: bool, b: Block, size: nat)
    requires c.header > 0 && WellFormed(c, l, lo, hi, prevFree) && Has(l, b) && b.used && size >= c.min
    ensures var t := Trimmed(c, b, After(l, b), size);
            && WellFormed(c, Trim(c, l, b.start, size), lo, hi, prevFree)
            && Live(Trim(c, l, b.start, size)) == Live(l)[b.start := t.end]
            && UsedTotal(Trim(c, l, b.start, size)) == UsedTotal(l) - (b.end - t.end)
  {
    BlocksInRange(c, l.rest, l.b.end, hi, !l.b.used);
    HasInRange(c, l, lo, hi, prevFree, b);
    if l.b != b {
      TrimKeepsWellFormed(c, l.rest, l.b.end, hi, !l.b.used, b, size);
    } else {
      TrimHead(c, l, lo, hi, prevFree, size);
    }
  }

  lemma TrimHead(c: Config, l: Blocks, lo: nat, hi: nat, prevFree: bool, size: nat)
    requires c.header > 0 && WellFormed(c, l, lo, hi, prevFree) && l.Cons? && l.b.used && size >= c.min
    ensures var t := Trimmed(c, l.b, l.rest, size);
            && WellFormed(c, Trim(c, l, l.b.start, size), lo, hi, prevFree)
            && Live(Trim(c, l, l.b.start, size)) == Live(l)[t.start := t.end]
            && UsedTotal(Trim(c, l, l.b.start, size)) == UsedTotal(l) - (l.b.end - t.end)
  {
    var t, r := Trimmed(c, l.b, l.rest, size), l.rest;
    if t.end != l.b.end {
      var j := Join(Block(t.end, l.b.end, false), r);
      assert Trim(c, l, l.b.start, size) == Cons(t, j);
      assert WellFormed(c, j, t.end, hi, false);
      assert Live(j) == Live(r) && UsedTotal(j) == UsedTotal(r);
    }
  }

  lemma {:induction false} AllocKeepsAlignment(c: Config, l: Blocks, p: nat, size: nat)
    requires c.Valid() && AlignedBlocks(c, l) && size % c.align == 0
    ensures AlignedBlocks(c, Alloc(c, l, p, size))
  {
    if l.Cons? {
      AllocKeepsAlignment(c, l.rest, p, size);
      AlignedSum(l.b.start, c.header, c.align);
      AlignedSum(l.b.start + c.header, size, c.align);
    }
  }

  lemma {:induction false} FreeKeepsAlignment(c: Config, l: Blocks, p: nat)
    requires c.align > 0 && AlignedBlocks(c, l)
    ensures AlignedBlocks(c, Free(l, p))
  {
    if l.Cons? { FreeKeepsAlignment(c, l.rest, p); }
  }

  lemma {:induction false} TrimKeepsAlignment(c: Config, l: Blocks, p: nat, size: nat)
    requires c.Valid() && AlignedBlocks(c, l) && size % c.align == 0
    ensures AlignedBlocks(c, Trim(c, l, p, size))
  {
    if l.Cons? {
      TrimKeepsAlignment(c, l.rest, p, size);
      AlignedSum(l.b.start, c.header, c.align);
      AlignedSum(l.b.start + c.header, size, c.align);
    }
  }

  lemma AllocKeepsGood(c: Config, l: Blocks, b: Block, size: nat)
    requires GoodHeap(c, l) && Has(l, b) && Fits(c, b, size) && size >= c.min && size % c.align == 0
    ensures GoodHeap(c, Alloc(c, l, b.start, size))
    ensures b.start !in Live(l)
    ensures Live(Alloc(c, l, b.start, size)) == Live(l)[b.start := Served(c, b, size).end]
    ensures UsedTotal(Alloc(c, l, b.start, size)) == UsedTotal(l) + (Served(c, b, size).end - b.start)
  {
    AllocKeepsWellFormed(c, l, 0, c.size, false, b, size);
    AllocKeepsAlignment(c, l, b.start, size);
  }

  lemma FreeKeepsGood(c: Config, l: Blocks, b: Block)
    requires GoodHeap(c, l) && Has(l, b) && b.used
    ensures GoodHeap(c, Free(l, b.start))
    ensures Live(Free(l, b.start)) == Live(l) - {b.start}
    ensures UsedTotal(Free(l, b.start)) == UsedTotal(l) - (b.end - b.start)
  {
    FreeKeepsWellFormed(c, l, 0, c.size, false, b);
    FreeKeepsAlignment(c, l, b.start);
  }

  lemma TrimKeepsGood(c: Config, l: Blocks, b: Block, size: nat)
    requires GoodHeap(c, l) && Has(l, b) && b.used && size >= c.min && size % c.align == 0
    ensures var t := Trimmed(c, b, After(l, b), size);
            && GoodHeap(c, Trim(c, l, b.start, size))
            && Live(Trim(c, l, b.start, size)) == Live(l)[b.start := t.end]
            && UsedTotal(Trim(c, l, b.start, size)) == UsedTotal(l) - (b.end - t.end)
  {
    TrimKeepsWellFormed(c, l, 0, c.size, false, b, size);
    TrimKeepsAlignment(c, l, b.start, size);
  }

  // ---------------------------------------------------------------- the live blocks determine the heap

  /** Two well-formed heaps with the same live blocks are the same list: coalescing leaves no
      freedom in how the free space is cut up. */
  lemma {:induction false} LiveBlocksDetermineHeap(c: Config, l: Blocks, m: Blocks, lo: nat, hi: nat, prevFree: bool)
    requires c.header > 0
    requires WellFormed(c, l, lo, hi, prevFree) && WellFormed(c, m, lo, hi, prevFree)
    requires Live(l) == Live(m)
    ensures l == m
  {
    if l.Cons? && m.Cons? {
      BlocksInRange(c, l.rest, l.b.end, hi, !l.b.used);
      BlocksInRange(c, m.rest, m.b.end, hi, !m.b.used);
      assert l.b.used == (lo in Live(l)) == (lo in Live(m)) == m.b.used;
      if !l.b.used {
        FreeHeadNotShorter(c, l, m, lo, hi, prevFree);
        FreeHeadNotShorter(c, m, l, lo, hi, prevFree);
      }
      assert Live(l.rest) == Live(l) - {lo};
      assert Live(m.rest) == Live(m) - {lo};
      LiveBlocksDetermineHeap(c, l.rest, m.rest, l.b.end, hi, !l.b.used);
    } else if l.Cons? {
      BlocksInRange(c, l.rest, l.b.end, hi, !l.b.used);
    } else if m.Cons? {
      BlocksInRange(c, m.rest, m.b.end, hi, !m.b.used);
    }
  }

  lemma FreeHeadNotShorter(c: Config, l: Blocks, m: Blocks, lo: nat, hi: nat, prevFree: bool)
    requires c.header > 0 && l.Cons? && m.Cons? && !l.b.used && !m.b.used
    requires WellFormed(c, l, lo, hi, prevFree) && WellFormed(c, m, lo, hi, prevFree)
    requires Live(l) == Live(m)
    ensures l.b.end >= m.b.end
  {
    BlocksInRange(c, m.rest, m.b.end, hi, !m.b.used);
    assert l.rest.Cons? ==> l.b.end in Live(l.rest);
  }

  /** mem_malloc followed at once by mem_free gives back the very same block list, and so the
      same lowest free block and the same used total. */
  lemma MallocThenFreeRestores(c: Config, l: Blocks, b: Block, size: nat)
    requires GoodHeap(c, l) && Has(l, b) && Fits(c, b, size) && size >= c.min
    ensures Free(Alloc(c, l, b.start, size), b.start) == l
  {
    var a, s := Alloc(c, l, b.start, size), Served(c, b, size);
    AllocKeepsWellFormed(c, l, 0, c.size, false, b, size);
    LiveIsPresent(a, b.start);
    FreeKeepsWellFormed(c, a, 0, c.size, false, s);
    LiveBlocksDetermineHeap(c, Free(a, b.start), l, 0, c.size, false);
  }

  lemma {:induction false} LiveIsPresent(l: Blocks, p: nat)
    requires p in Live(l)
    ensures Has(l, Block(p, Live(l)[p], true))
  {
    if !(l.b.used && l.b.start == p) { LiveIsPresent(l.rest, p); }
  }

  /** Releasing two live blocks gives the same heap in either order. */
  lemma FreeOrderIrrelevant(c: Config, l: Blocks, p: nat, q: nat)
    requires GoodHeap(c, l) && p in Live(l) && q in Live(l) && p != q
    ensures Free(Free(l, p), q) == Free(Free(l, q), p)
  {
    FreeTwice(c, l, p, q);
    FreeTwice(c, l, q, p);
    LiveBlocksDetermineHeap(c, Free(Free(l, p), q), Free(Free(l, q), p), 0, c.size, false);
  }

  lemma FreeTwice(c: Config, l: Blocks, p: nat, q: nat)
    requires GoodHeap(c, l) && p in Live(l) && q in Live(l) && p != q
    ensures WellFormed(c, Free(Free(l, p), q), 0, c.size, false)
    ensures Live(Free(Free(l, p), q)) == Live(l) - {p, q}
  {
    LiveIsPresent(l, p);
    FreeKeepsWellFormed(c, l, 0, c.size, false, Block(p, Live(l)[p], true));
    LiveIsPresent(Free(l, p), q);
    FreeKeepsWellFormed(c, Free(l, p), 0, c.size, false, Block(q, Live(l)[q], true));
  }

  // ---------------------------------------------------------------- what a client gets

  /** The bytes that a request for `n` is given at least. */
  function Wanted(c: Config, n: nat): nat
    requires c.align > 0
  {
    if RoundUp(n, c.align) < c.min then c.min else RoundUp(n, c.align)
  }

  lemma AcceptedIsWanted(c: Config, n: nat)
    requires c.Valid() && n < Capacity(c.width)
    ensures Acceptable(c, n) <==> RoundUp(n, c.align) <= c.size
    ensures Acceptable(c, n) ==> Rounded(c, n) == Wanted(c, n)
  {
    RoundedFacts(c, n);
    var r, cap := RoundUp(n, c.align), Capacity(c.width);
    if r <= c.size { QuotientUnique(r, cap, 0, r); }
  }

  /** A stretch of the arena that no live block uses and that cannot be made longer. */
  ghost predicate Gap(live: map<nat, nat>, size: nat, p: nat, g: nat) { GapFrom(live, 0, size, false, p, g) }

  /** The same in [lo, hi); `prevFree` says that the stretch before `lo` is unused too. */
  ghost predicate GapFrom(live: map<nat, nat>, lo: nat, hi: nat, prevFree: bool, p: nat, g: nat) {
    && lo <= p < g <= hi
    && ((p == lo && !prevFree) || exists q | q in live :: live[q] == p)
    && (g == hi || g in live)
    && forall q | q in live :: live[q] <= p || g <= q
  }

  /** The free blocks of a heap are exactly the gaps between its live blocks. */
  lemma {:induction false} GapsAreFreeBlocks(c: Config, l: Blocks, lo: nat, hi: nat, prevFree: bool, p: nat, g: nat)
    requires c.header > 0 && WellFormed(c, l, lo, hi, prevFree)
    ensures GapFrom(Live(l), lo, hi, prevFree, p, g) <==> Has(l, Block(p, g, false))
  {
    if l.Cons? {
      BlocksInRange(c, l.rest, l.b.end, hi, !l.b.used);
      GapsAreFreeBlocks(c, l.rest, l.b.end, hi, !l.b.used, p, g);
      if l.b.used {
        UsedHead(c, l, lo, hi, prevFree, p, g);
      } else {
        FreeHead(c, l, lo, hi, prevFree, p, g);
      }
    }
  }

  lemma UsedHead(c: Config, l: Blocks, lo: nat, hi: nat, prevFree: bool, p: nat, g: nat)
    requires c.header > 0 && WellFormed(c, l, lo, hi, prevFree) && l.Cons? && l.b.used
    requires forall q | q in Live(l.rest) :: l.b.end <= q && q < Live(l.rest)[q] <= hi
    ensures GapFrom(Live(l), lo, hi, prevFree, p, g) <==> GapFrom(Live(l.rest), l.b.end, hi, false, p, g)
  {
    var live, rest := Live(l), Live(l.rest);
    assert live == rest[lo := l.b.end] && lo !in rest;
    if GapFrom(live, lo, hi, prevFree, p, g) {
      assert live[lo] <= p;
      if p != l.b.end {
        var q :| q in live && live[q] == p;
        assert q in rest && rest[q] == p;
      }
      forall q | q in rest ensures rest[q] <= p || g <= q { assert q in live && live[q] == rest[q]; }
    }
    if GapFrom(rest, l.b.end, hi, false, p, g) {
      if p == l.b.end {
        assert lo in live && live[lo] == p;
      } else {
        var q :| q in rest && rest[q] == p;
        assert q in live && live[q] == p;
      }
    }
  }

  lemma FreeHead(c: Config, l: Blocks, lo: nat, hi: nat, prevFree: bool, p: nat, g: nat)
    requires c.header > 0 && WellFormed(c, l, lo, hi, prevFree) && l.Cons? && !l.b.used
    requires forall q | q in Live(l.rest) :: l.b.end <= q && q < Live(l.rest)[q] <= hi
    ensures p == lo ==> (GapFrom(Live(l), lo, hi, prevFree, p, g) <==> g == l.b.end)
    ensures p != lo ==> (GapFrom(Live(l), lo, hi, prevFree, p, g) <==> GapFrom(Live(l.rest), l.b.end, hi, true, p, g))
    ensures !GapFrom(Live(l.rest), l.b.end, hi, true, lo, g)
  {
    assert l.rest.Cons? ==> l.b.end in Live(l.rest);
    assert l.rest.Nil? ==> Live(l.rest) == map[] && l.b.end == hi;
  }

  /** The pointer `p` was granted out of the gap up to `g`: the lowest gap with room. What is left of
      it becomes free if it has room for a block, and goes with the pointer otherwise. */
  ghost predicate GrantedIn(c: Config, live: map<nat, nat>, live': map<nat, nat>, p: nat, g: nat, need: nat) {
    && Gap(live, c.size, p, g) && p + c.header + need <= g
    && (forall q: nat, h: nat | Gap(live, c.size, q, h) && q + c.header + need <= h :: p <= q)
    && live' == live[p := if p + c.header + need + c.header + c.min <= g then p + c.header + need else g]
  }

  ghost predicate Granted(c: Config, live: map<nat, nat>, live': map<nat, nat>, p: nat, need: nat) {
    exists g :: GrantedIn(c, live, live', p, g, need)
  }

  ghost predicate NoRoom(c: Config, live: map<nat, nat>, need: nat) {
    forall q: nat, g: nat | Gap(live, c.size, q, g) :: g < q + c.header + need
  }

  /** What mem_malloc does, told by the live blocks alone. */
  lemma AllocGrants(c: Config, l: Blocks, need: nat)
    requires GoodHeap(c, l) && need >= c.min
    ensures var p := FirstFit(c, l, need, c.size);
            && (p == c.size <==> NoRoom(c, Live(l), need))
            && (p < c.size ==> Granted(c, Live(l), Live(Alloc(c, l, p, need)), p, need))
            && (p < c.size ==> p in Live(Alloc(c, l, p, need))
                               && UsedTotal(Alloc(c, l, p, need)) == UsedTotal(l) + (Live(Alloc(c, l, p, need))[p] - p))
  {
    hide FirstFit, Live, WellFormed, Alloc, Has, GapFrom, GrantedIn;
    var p := FirstFit(c, l, need, c.size);
    FirstFitIsLowest(c, l, 0, c.size, false, need);
    if p < c.size {
      var b :| Has(l, b) && Fits(c, b, need) && b.start == p;
      GapsAreFreeBlocks(c, l, 0, c.size, false, p, b.end);
      assert b == Block(p, b.end, false) && Gap(Live(l), c.size, p, b.end);
      AllocKeepsWellFormed(c, l, 0, c.size, false, b, need);
      GrantedFrom(c, l, b, need);
    } else {
      forall q: nat, g: nat | Gap(Live(l), c.size, q, g) ensures g < q + c.header + need {
        GapsAreFreeBlocks(c, l, 0, c.size, false, q, g);
        assert Has(l, Block(q, g, false));
      }
    }
  }

  lemma GrantedFrom(c: Config, l: Blocks, b: Block, need: nat)
    requires GoodHeap(c, l) && Has(l, b) && Fits(c, b, need) && need >= c.min
    requires forall d | Has(l, d) && Fits(c, d, need) :: b.start <= d.start
    ensures GrantedIn(c, Live(l), Live(Alloc(c, l, b.start, need)), b.start, b.end, need)
  {
    hide Live, WellFormed, Alloc, Has, GapFrom;
    AllocKeepsWellFormed(c, l, 0, c.size, false, b, need);
    GapsAreFreeBlocks(c, l, 0, c.size, false, b.start, b.end);
    assert b == Block(b.start, b.end, false);
    forall q: nat, h: nat | Gap(Live(l), c.size, q, h) && q + c.header + need <= h ensures b.start <= q {
      GapsAreFreeBlocks(c, l, 0, c.size, false, q, h);
      assert Has(l, Block(q, h, false)) && Fits(c, Block(q, h, false), need);
    }
  }

  /** Where the live block at `p` ends after mem_trim: the part that is not needed is given back if a
      gap follows it or it has room for a block of its own. */
  ghost function ShortEnd(c: Config, live: map<nat, nat>, p: nat, need: nat): nat
    requires p in live
  {
    var mid, end := p + c.header + need, live[p];
    if mid < end && ((exists g :: Gap(live, c.size, end, g)) || mid + c.header + c.min <= end) then mid else end
  }

  lemma TrimShortens(c: Config, l: Blocks, p: nat, need: nat)
    requires GoodHeap(c, l) && p in Live(l) && need >= c.min && need % c.align == 0
    ensures var t := Trim(c, l, p, need);
            && Live(t) == Live(l)[p := ShortEnd(c, Live(l), p, need)]
            && UsedTotal(t) == UsedTotal(l) - (Live(l)[p] - ShortEnd(c, Live(l), p, need))
  {
    var b := Block(p, Live(l)[p], true);
    LiveIsPresent(l, p);
    TrimKeepsWellFormed(c, l, 0, c.size, false, b, need);
    BehindIsGap(c, l, 0, c.size, false, b);
    hide Live, WellFormed, Trim, Has, GapFrom, After;
    forall g ensures Gap(Live(l), c.size, b.end, g) <==> Has(l, Block(b.end, g, false)) { GapsAreFreeBlocks(c, l, 0, c.size, false, b.end, g); }
  }

  /** A free block follows exactly if the list says so. */
  lemma {:induction false} BehindIsGap(c: Config, l: Blocks, lo: nat, hi: nat, prevFree: bool, b: Block)
    requires c.header > 0 && WellFormed(c, l, lo, hi, prevFree) && Has(l, b)
    ensures (After(l, b).Cons? && !After(l, b).b.used) <==> exists g :: Has(l, Block(b.end, g, false))
  {
    HasInRange(c, l, lo, hi, prevFree, b);
    if l.b == b {
      if l.rest.Cons? && !l.rest.b.used { assert Has(l, Block(b.end, l.rest.b.end, false)); }
      forall g | Has(l, Block(b.end, g, false)) ensures l.rest.Cons? && l.rest.b == Block(b.end, g, false) {
        HasInRange(c, l.rest, l.b.end, hi, !l.b.used, Block(b.end, g, false));
      }
    } else {
      BehindIsGap(c, l.rest, l.b.end, hi, !l.b.used, b);
      HasInRange(c, l.rest, l.b.end, hi, !l.b.used, b);
      forall g ensures Has(l, Block(b.end, g, false)) <==> Has(l.rest, Block(b.end, g, false)) {
        if l.b == Block(b.end, g, false) { assert false; }
      }
    }
  }

  // ---------------------------------------------------------------- first fit and the cached lowest free block

  /** The scan finds the lowest block that fits and fails only when no block fits. */
  lemma {:induction false} FirstFitIsLowest(c: Config, l: Blocks, lo: nat, hi: nat, prevFree: bool, size: nat)
    requires c.header > 0 && WellFormed(c, l, lo, hi, prevFree)
    ensures var p := FirstFit(c, l, size, hi);
            && lo <= p <= hi
            && (p == hi <==> forall b | Has(l, b) :: !Fits(c, b, size))
            && (forall b | Has(l, b) && Fits(c, b, size) :: p <= b.start)
            && (p < hi ==> exists b :: Has(l, b) && Fits(c, b, size) && b.start == p)
  {
    if l.Cons? {
      BlocksInRange(c, l.rest, l.b.end, hi, !l.b.used);
      FirstFitIsLowest(c, l.rest, l.b.end, hi, !l.b.used, size);
      if Fits(c, l.b, size) {
        assert Has(l, l.b);
        forall b | Has(l, b) ensures l.b.start <= b.start { HasInRange(c, l, lo, hi, prevFree, b); }
      }
    }
  }

  lemma {:induction false} SpaceIsConserved(c: Config, l: Blocks, lo: nat, hi: nat, prevFree: bool)
    requires WellFormed(c, l, lo, hi, prevFree)
    ensures UsedTotal(l) + FreeTotal(l) == hi - lo
  {
    if l.Cons? { SpaceIsConserved(c, l.rest, l.b.end, hi, !l.b.used); }
  }

  // ---------------------------------------------------------------- whole runs, seen by the client

  /** A call on the heap. Pointers are named by the offset of their block; the payload handed
      out starts one header behind it. */
  datatype Call = Malloc(n: nat) | Release(p: nat) | Shrink(p: nat, n: nat)

  /** The heap and, for every pointer the client holds, the size it last asked for. */
  datatype Client = Client(heap: Blocks, owned: map<nat, nat>)

  predicate Legal(c: Config, s: Client, call: Call) {
    match call
    case Malloc(n) => n < Capacity(c.width)
    case Release(p) => p in s.owned
    case Shrink(p, n) => p in s.owned && n < Capacity(c.width)
  }

  function EndOf(l: Blocks, start: nat): nat {
    if l.Nil? then start else if l.b.start == start then l.b.end else EndOf(l.rest, start)
  }

  function Step(c: Config, s: Client, call: Call): Client
    requires c.align > 0
  {
    match call
    case Malloc(n) =>
      var size := Rounded(c, n);
      var p := FirstFit(c, s.heap, size, c.size);
      if n == 0 || !Acceptable(c, n) || p == c.size then s
      else Client(Alloc(c, s.heap, p, size), s.owned[p := n])
    case Release(p) => Client(Free(s.heap, p), s.owned - {p})
    case Shrink(p, n) =>
      var size := Rounded(c, n);
      if !Acceptable(c, n) || EndOf(s.heap, p) < p + c.header + size then s
      else Client(Trim(c, s.heap, p, size), s.owned[p := n])
  }

  predicate LegalRun(c: Config, s: Client, calls: seq<Call>)
    requires c.align > 0
    decreases |calls|
  {
    calls == [] || (Legal(c, s, calls[0]) && LegalRun(c, Step(c, s, calls[0]), calls[1..]))
  }

  function Run(c: Config, s: Client, calls: seq<Call>): Client
    requires c.align > 0
    decreases |calls|
  {
    if calls == [] then s else Run(c, Step(c, s, calls[0]), calls[1..])
  }

  /** The client's pointers are exactly the live blocks, each large enough for its request and with
      less to spare than a block of its own would take. */
  ghost predicate Sound(c: Config, s: Client) {
    && GoodHeap(c, s.heap)
    && s.owned.Keys == Live(s.heap).Keys
    && (forall p | p in s.owned :: p + c.header + s.owned[p] <= Live(s.heap)[p])
    && (forall p | p in s.owned :: Live(s.heap)[p] < p + c.header + Wanted(c, s.owned[p]) + c.header + c.min)
  }

  lemma {:induction false} EndOfIsEnd(c: Config, l: Blocks, lo: nat, hi: nat, prevFree: bool, b: Block)
    requires c.header > 0 && WellFormed(c, l, lo, hi, prevFree) && Has(l, b)
    ensures EndOf(l, b.start) == b.end
  {
    HasInRange(c, l, lo, hi, prevFree, b);
    if l.b != b { EndOfIsEnd(c, l.rest, l.b.end, hi, !l.b.used, b); }
  }

  lemma MallocStaysSound(c: Config, s: Client, n: nat)
    requires Sound(c, s) && n < Capacity(c.width)
    ensures Sound(c, Step(c, s, Malloc(n)))
  {
    var size := Rounded(c, n);
    var p := FirstFit(c, s.heap, size, c.size);
    if n > 0 && Acceptable(c, n) && p != c.size {
      RoundedFacts(c, n);
      AcceptedIsWanted(c, n);
      FirstFitIsLowest(c, s.heap, 0, c.size, false, size);
      var b :| Has(s.heap, b) && Fits(c, b, size) && b.start == p;
      AllocKeepsGood(c, s.heap, b, size);
    }
  }

  lemma ReleaseStaysSound(c: Config, s: Client, p: nat)
    requires Sound(c, s) && p in s.owned
    ensures Sound(c, Step(c, s, Release(p)))
  {
    LiveIsPresent(s.heap, p);
    FreeKeepsGood(c, s.heap, Block(p, Live(s.heap)[p], true));
  }

  lemma ShrinkStaysSound(c: Config, s: Client, p: nat, n: nat)
    requires Sound(c, s) && p in s.owned && n < Capacity(c.width)
    ensures Sound(c, Step(c, s, Shrink(p, n)))
  {
    hide WellFormed, AlignedBlocks, Live, Trim, EndOf, Has, Rounded, After, RoundUp;
    var b, size := Block(p, Live(s.heap)[p], true), Rounded(c, n);
    LiveIsPresent(s.heap, p);
    EndOfIsEnd(c, s.heap, 0, c.size, false, b);
    if Acceptable(c, n) && b.end >= p + c.header + size {
      RoundedFacts(c, n);
      AcceptedIsWanted(c, n);
      TrimKeepsGood(c, s.heap, b, size);
    }
  }

  lemma {:induction false} RunsStaySound(c: Config, s: Client, calls: seq<Call>)
    requires Sound(c, s) && LegalRun(c, s, calls)
    ensures Sound(c, Run(c, s, calls))
    decreases |calls|
  {
    if calls != [] {
      match calls[0] {
        case Malloc(n) => MallocStaysSound(c, s, n);
        case Release(p) => ReleaseStaysSound(c, s, p);
        case Shrink(p, n) => ShrinkStaysSound(c, s, p, n);
      }
      RunsStaySound(c, Step(c, s, calls[0]), calls[1..]);
    }
  }

  /** After any legal sequence of calls the heap is good, the client's pointers are exactly the
      live blocks, and every payload is aligned, has its requested bytes inside the arena and less
      to spare than a header and the minimum, and ends before the header of the next one. */
  lemma EveryRunIsSound(c: Config, calls: seq<Call>)
    requires c.Valid() && LegalRun(c, Client(Initial(c), map[]), calls)
    ensures var s := Run(c, Client(Initial(c), map[]), calls);
            && Sound(c, s)
            && UsedTotal(s.heap) + FreeTotal(s.heap) == c.size
            && (forall p | p in s.owned :: (p + c.header) % c.align == 0 && p + c.header + s.owned[p] <= c.size)
            && (forall p | p in s.owned :: Live(s.heap)[p] < p + c.header + Wanted(c, s.owned[p]) + c.header + c.min)
            && (forall p, q | p in s.owned && q in s.owned && p < q :: p + c.header + s.owned[p] <= q)
  {
    var s0 := Client(Initial(c), map[]);
    InitialIsGood(c);
    RunsStaySound(c, s0, calls);
    SoundPayloads(c, Run(c, s0, calls));
  }

  lemma SoundPayloads(c: Config, s: Client)
    requires Sound(c, s)
    ensures UsedTotal(s.heap) + FreeTotal(s.heap) == c.size
    ensures forall p | p in s.owned :: (p + c.header) % c.align == 0 && p + c.header + s.owned[p] <= c.size
    ensures forall p, q | p in s.owned && q in s.owned && p < q :: p + c.header + s.owned[p] <= q
  {
    SpaceIsConserved(c, s.heap, 0, c.size, false);
    BlocksInRange(c, s.heap, 0, c.size, false);
    forall p | p in s.owned ensures (p + c.header) % c.align == 0 {
      StartIsAligned(c, s.heap, p);
      AlignedSum(p, c.header, c.align);
    }
    forall p, q | p in s.owned && q in s.owned && p < q ensures p + c.header + s.owned[p] <= q {
      LiveBlocksDisjoint(c, s.heap, 0, c.size, false, p, q);
    }
  }

  lemma {:induction false} StartIsAligned(c: Config, l: Blocks, p: nat)
    requires c.align > 0 && AlignedBlocks(c, l) && p in Live(l)
    ensures p % c.align == 0
  {
    if !(l.b.used && p == l.b.start) { StartIsAligned(c, l.rest, p); }
  }
}
