/** How block lists sit in the bytes of the arena: headers with `next` and `prev` offsets, and
    what relinking a few of them does to the list (src/lib/liblwip/core/mem.c). */
module HeapLinks {
  import opened Bytes
  import opened HeapSpec

  /** struct mem: offsets of the neighbouring headers and the used flag. */
  datatype Header = Header(next: nat, prev: nat, used: bool)

  // ---------------------------------------------------------------- headers in the arena

  function HeaderAt(c: Config, s: seq<Byte>, p: nat): Header
    requires c.header >= 2 * c.width + 1 && p + c.header <= |s|
  {
    Header(LittleEndian(s[p..p + c.width]), LittleEndian(s[p + c.width..p + 2 * c.width]), s[p + 2 * c.width] != 0)
  }

  /** `t` is `s` with header `h` at `p`; no byte outside that header changed. */
  ghost predicate Written(c: Config, s: seq<Byte>, t: seq<Byte>, p: nat, h: Header)
    requires c.header >= 2 * c.width + 1
  {
    && |t| == |s| && p + c.header <= |s|
    && HeaderAt(c, t, p) == h
    && forall x | 0 <= x < |s| && !(p <= x < p + c.header) :: t[x] == s[x]
  }

  /** Headers that the changed bytes do not reach read as before. */
  lemma HeaderFrame(c: Config, s: seq<Byte>, t: seq<Byte>, q: nat)
    requires c.header >= 2 * c.width + 1 && |t| == |s| && q + c.header <= |s|
    requires forall x | q <= x < q + c.header :: t[x] == s[x]
    ensures HeaderAt(c, t, q) == HeaderAt(c, s, q)
  {
    assert t[q..q + c.width] == s[q..q + c.width];
    assert t[q + c.width..q + 2 * c.width] == s[q + c.width..q + 2 * c.width];
  }

  // ---------------------------------------------------------------- the list the headers form

  /** The blocks tile [lo, hi); unlike WellFormed this allows free neighbours, which exist for
      a moment inside mem_free. */
  ghost predicate Tiled(c: Config, l: Blocks, lo: nat, hi: nat) {
    match l
    case Nil => lo == hi
    case Cons(b, r) => b.start == lo && b.start + c.header <= b.end && Tiled(c, r, b.end, hi)
  }

  /** The headers in `s` link up as the list `l` whose first `prev` field is `prev`. */
  ghost predicate Linked(c: Config, s: seq<Byte>, l: Blocks, prev: nat)
    requires c.header >= 2 * c.width + 1
  {
    match l
    case Nil => true
    case Cons(b, r) =>
      && b.start + c.header <= |s|
      && HeaderAt(c, s, b.start) == Header(b.end, prev, b.used)
      && Linked(c, s, r, b.start)
  }

  lemma {:induction false} WellFormedIsTiled(c: Config, l: Blocks, lo: nat, hi: nat, prevFree: bool)
    requires WellFormed(c, l, lo, hi, prevFree)
    ensures Tiled(c, l, lo, hi)
  {
    if l.Cons? { WellFormedIsTiled(c, l.rest, l.b.end, hi, !l.b.used); }
  }

  lemma {:induction false} TiledOrder(c: Config, l: Blocks, lo: nat, hi: nat)
    requires Tiled(c, l, lo, hi)
    ensures lo <= hi
    ensures forall b | Has(l, b) :: lo <= b.start && b.start + c.header <= b.end <= hi
  {
    if l.Cons? { TiledOrder(c, l.rest, l.b.end, hi); }
  }

  /** A stretch of the list whose bytes did not change is still linked. */
  lemma {:induction false} LinkedFrame(c: Config, s: seq<Byte>, t: seq<Byte>, l: Blocks, lo: nat, hi: nat, prev: nat)
    requires c.header >= 2 * c.width + 1 && |t| == |s|
    requires Tiled(c, l, lo, hi) && hi <= |s| && Linked(c, s, l, prev)
    requires forall x | lo <= x < hi :: t[x] == s[x]
    ensures Linked(c, t, l, prev)
  {
    if l.Cons? {
      TiledOrder(c, l.rest, l.b.end, hi);
      HeaderFrame(c, s, t, l.b.start);
      LinkedFrame(c, s, t, l.rest, l.b.end, hi, l.b.start);
    }
  }
  /** What is written inside a live payload does not touch the links. */
  lemma {:induction false} PayloadFrame(c: Config, s: seq<Byte>, t: seq<Byte>, l: Blocks, lo: nat, hi: nat, prev: nat, p: nat)
    requires c.header >= 2 * c.width + 1 && |t| == |s| && p in Live(l)
    requires Tiled(c, l, lo, hi) && hi <= |s| && Linked(c, s, l, prev)
    requires forall x | lo <= x < hi && !(p + c.header <= x < Live(l)[p]) :: t[x] == s[x]
    ensures Linked(c, t, l, prev) && lo <= p && p + c.header <= Live(l)[p] <= hi
  {
    TiledOrder(c, l.rest, l.b.end, hi);
    if l.b.used && l.b.start == p {
      HeaderFrame(c, s, t, p);
      LinkedFrame(c, s, t, l.rest, l.b.end, hi, p);
    } else {
      LiveStart(c, l.rest, l.b.end, hi, p);
      HeaderFrame(c, s, t, l.b.start);
      PayloadFrame(c, s, t, l.rest, l.b.end, hi, l.b.start, p);
    }
  }

  lemma {:induction false} LiveStart(c: Config, l: Blocks, lo: nat, hi: nat, p: nat)
    requires Tiled(c, l, lo, hi) && p in Live(l)
    ensures lo <= p && p + c.header <= Live(l)[p] <= hi
  {
    TiledOrder(c, l.rest, l.b.end, hi);
    if p in Live(l.rest) { LiveStart(c, l.rest, l.b.end, hi, p); }
  }


  function Append(l: Blocks, m: Blocks): Blocks {
    match l
    case Nil => m
    case Cons(b, r) => Cons(b, Append(r, m))
  }

  function Drop(l: Blocks, k: nat): Blocks {
    if k == 0 || l.Nil? then l else Drop(l.rest, k - 1)
  }

  lemma SmallAppend(x: Block, y: Block, m: Blocks)
    ensures Append(Cons(x, Nil), m) == Cons(x, m)
    ensures Append(Cons(x, Cons(y, Nil)), m) == Cons(x, Cons(y, m))
  {
    assert Append(Cons(y, Nil), m) == Cons(y, Append(Nil, m)) == Cons(y, m);
    assert Append(Cons(x, Nil), m) == Cons(x, Append(Nil, m));
  }

  lemma SmallDrop(l: Blocks)
    requires l.Cons?
    ensures Drop(l, 1) == l.rest
    ensures l.rest.Cons? ==> Drop(l, 2) == l.rest.rest
  {
    assert Drop(l, 1) == Drop(l.rest, 0);
    if l.rest.Cons? { assert Drop(l.rest, 1) == Drop(l.rest.rest, 0); }
  }

  /** `l` with the `k` blocks that begin at offset `p` replaced by `mid`. */
  function Replace(l: Blocks, p: nat, k: nat, mid: Blocks): Blocks {
    match l
    case Nil => Nil
    case Cons(b, r) => if b.start == p then Append(mid, Drop(l, k)) else Cons(b, Replace(r, p, k, mid))
  }

  function LastStart(l: Blocks, prev: nat): nat {
    if l.Nil? then prev else LastStart(l.rest, l.b.start)
  }

  /** The blocks from offset `p` on. */
  function From(l: Blocks, p: nat): Blocks {
    if l.Nil? || l.b.start == p then l else From(l.rest, p)
  }

  lemma {:induction false} LinkedAppend(c: Config, s: seq<Byte>, l: Blocks, m: Blocks, prev: nat)
    requires c.header >= 2 * c.width + 1
    requires Linked(c, s, l, prev) && Linked(c, s, m, LastStart(l, prev))
    ensures Linked(c, s, Append(l, m), prev)
  {
    if l.Cons? { LinkedAppend(c, s, l.rest, m, l.b.start); }
  }

  lemma {:induction false} TiledAppend(c: Config, l: Blocks, m: Blocks, lo: nat, mid: nat, hi: nat)
    requires Tiled(c, l, lo, mid) && Tiled(c, m, mid, hi)
    ensures Tiled(c, Append(l, m), lo, hi)
  {
    if l.Cons? { TiledAppend(c, l.rest, m, l.b.end, mid, hi); }
  }

  /** Relinking in place: the `k` blocks that start at `p` and end at `e` give way to `mid`,
      which tiles the same bytes; the only other field that changes is the `prev` of the block
      behind, unless that is the end marker. */
  ghost predicate Relinked(c: Config, s: seq<Byte>, t: seq<Byte>, p: nat, e: nat, hi: nat, mid: Blocks)
    requires c.header >= 2 * c.width + 1
  {
    && |t| == |s| && p + c.header <= e <= hi && hi + c.header <= |s|
    && Tiled(c, mid, p, e) && mid.Cons?
    && Linked(c, t, mid, HeaderAt(c, s, p).prev)
    && (forall x | 0 <= x < |s| && !(p <= x < e) && !(e <= x < e + c.header) :: t[x] == s[x])
    && HeaderAt(c, t, e) == (if e == hi then HeaderAt(c, s, e)
                             else HeaderAt(c, s, e).(prev := LastStart(mid, 0)))
  }

  lemma LastStartNonEmpty(l: Blocks, x: nat, y: nat)
    requires l.Cons?
    ensures LastStart(l, x) == LastStart(l, y)
  {
  }

  lemma {:induction false} RelinkedIsLinked(c: Config, s: seq<Byte>, t: seq<Byte>, l: Blocks, lo: nat, hi: nat, prev: nat,
                                            p: nat, k: nat, e: nat, mid: Blocks)
    requires c.header >= 2 * c.width + 1
    requires Tiled(c, l, lo, hi) && Linked(c, s, l, prev) && Relinked(c, s, t, p, e, hi, mid)
    requires From(l, p).Cons? && Tiled(c, Drop(From(l, p), k), e, hi)
    requires k == 1 || (k == 2 && From(l, p).rest.Cons?)
    ensures Linked(c, t, Replace(l, p, k, mid), prev)
    ensures Tiled(c, Replace(l, p, k, mid), lo, hi)
  {
    TiledOrder(c, l.rest, l.b.end, hi);
    if l.b.start == p {
      var d := Drop(l, k);
      RelinkedTail(c, s, t, l, lo, hi, prev, k, e, mid);
      LastStartNonEmpty(mid, 0, prev);
      LinkedAppend(c, t, mid, d, prev);
      TiledAppend(c, mid, d, p, e, hi);
    } else {
      FromInRange(c, l.rest, l.b.end, hi, p);
      HeaderFrame(c, s, t, l.b.start);
      RelinkedIsLinked(c, s, t, l.rest, l.b.end, hi, l.b.start, p, k, e, mid);
    }
  }

  lemma {:induction false} FromInRange(c: Config, l: Blocks, lo: nat, hi: nat, p: nat)
    requires Tiled(c, l, lo, hi) && From(l, p).Cons?
    ensures lo <= p && p + c.header <= hi && From(l, p).b.start == p && Has(l, From(l, p).b)
    ensures Tiled(c, From(l, p), p, hi)
  {
    TiledOrder(c, l.rest, l.b.end, hi);
    if l.b.start != p { FromInRange(c, l.rest, l.b.end, hi, p); }
  }

  lemma RelinkedTail(c: Config, s: seq<Byte>, t: seq<Byte>, l: Blocks, lo: nat, hi: nat, prev: nat,
                     k: nat, e: nat, mid: Blocks)
    requires c.header >= 2 * c.width + 1 && l.Cons?
    requires Tiled(c, l, lo, hi) && Linked(c, s, l, prev) && Relinked(c, s, t, lo, e, hi, mid)
    requires Tiled(c, Drop(l, k), e, hi) && (k == 1 || (k == 2 && l.rest.Cons?))
    ensures Linked(c, t, Drop(l, k), LastStart(mid, 0))
  {
    var d := Drop(l, k);
    SmallDrop(l);
    if d.Cons? {
      TiledOrder(c, d.rest, d.b.end, hi);
      assert exists q :: Linked(c, s, d, q) by { assert Linked(c, s, d, if k == 1 then l.b.start else l.rest.b.start); }
      LinkedFrame(c, s, t, d.rest, d.b.end, hi, d.b.start);
    }
  }

  // ---------------------------------------------------------------- reading the list through its headers

  /** The header at a block's offset is the block, and following `next` is taking the rest. */
  lemma {:induction false} FollowNext(c: Config, s: seq<Byte>, l: Blocks, lo: nat, hi: nat, prev: nat, p: nat)
    requires c.Valid() && Tiled(c, l, lo, hi) && Linked(c, s, l, prev) && From(l, p).Cons?
    ensures p + c.header <= |s|
    ensures var f := From(l, p);
            && HeaderAt(c, s, p).next == f.b.end && HeaderAt(c, s, p).used == f.b.used
            && From(l, f.b.end) == f.rest && Linked(c, s, f, HeaderAt(c, s, p).prev)
  {
    TiledOrder(c, l.rest, l.b.end, hi);
    if l.b.start != p {
      FollowNext(c, s, l.rest, l.b.end, hi, l.b.start, p);
      FromInRange(c, l.rest, l.b.end, hi, p);
    }
  }

  /** Following `prev` from any block but the first leads to the block in front of it. */
  lemma {:induction false} FollowPrev(c: Config, s: seq<Byte>, l: Blocks, lo: nat, hi: nat, prev: nat, p: nat)
    requires c.Valid() && Tiled(c, l, lo, hi) && Linked(c, s, l, prev) && From(l, p).Cons?
    ensures p + c.header <= |s|
    ensures p == lo ==> HeaderAt(c, s, p).prev == prev
    ensures p != lo ==> var q := HeaderAt(c, s, p).prev;
                        lo <= q < p && From(l, q).Cons? && From(l, q).b.start == q && From(l, q).rest == From(l, p)
  {
    TiledOrder(c, l.rest, l.b.end, hi);
    if l.b.start != p {
      FromInRange(c, l.rest, l.b.end, hi, p);
      FollowPrev(c, s, l.rest, l.b.end, hi, l.b.start, p);
    }
  }

  lemma {:induction false} FromEnd(c: Config, l: Blocks, lo: nat, hi: nat)
    requires c.header > 0 && Tiled(c, l, lo, hi)
    ensures From(l, hi) == Nil
  {
    if l.Cons? {
      TiledOrder(c, l.rest, l.b.end, hi);
      FromEnd(c, l.rest, l.b.end, hi);
    }
  }

  lemma {:induction false} FromHas(c: Config, l: Blocks, lo: nat, hi: nat, b: Block)
    requires c.header > 0 && Tiled(c, l, lo, hi) && Has(l, b)
    ensures From(l, b.start).Cons? && From(l, b.start).b == b && From(l, b.start).rest == After(l, b)
    ensures Tiled(c, From(l, b.start), b.start, hi)
  {
    TiledOrder(c, l.rest, l.b.end, hi);
    if l.b != b { FromHas(c, l.rest, l.b.end, hi, b); }
  }

  /** The search may start at the lowest free block: everything below is in use. */
  lemma {:induction false} SearchFromLowestFree(c: Config, l: Blocks, lo: nat, hi: nat, size: nat)
    requires c.header > 0 && Tiled(c, l, lo, hi)
    ensures var p := LowestFree(l, hi);
            && lo <= p <= hi
            && (p < hi ==> From(l, p).Cons? && !From(l, p).b.used)
            && FirstFit(c, From(l, p), size, hi) == FirstFit(c, l, size, hi)
  {
    if l.Cons? {
      TiledOrder(c, l.rest, l.b.end, hi);
      SearchFromLowestFree(c, l.rest, l.b.end, hi, size);
    }
  }

  /** The search may stop once too few bytes are left. */
  lemma {:induction false} NothingFitsNearTheEnd(c: Config, l: Blocks, lo: nat, hi: nat, size: nat)
    requires c.header > 0 && Tiled(c, l, lo, hi) && lo + size >= hi
    ensures FirstFit(c, l, size, hi) == hi
  {
    if l.Cons? {
      TiledOrder(c, l.rest, l.b.end, hi);
      NothingFitsNearTheEnd(c, l.rest, l.b.end, hi, size);
    }
  }

  // ---------------------------------------------------------------- list operations as replacements

  function SplitBlock(c: Config, b: Block, size: nat): Blocks {
    var s := Served(c, b, size);
    Cons(s, if s.end == b.end then Nil else Cons(Block(s.end, b.end, false), Nil))
  }

  lemma {:induction false} AllocIsReplace(c: Config, l: Blocks, lo: nat, hi: nat, b: Block, size: nat)
    requires c.header > 0 && Tiled(c, l, lo, hi) && Has(l, b)
    ensures Alloc(c, l, b.start, size) == Replace(l, b.start, 1, SplitBlock(c, b, size))
  {
    TiledOrder(c, l.rest, l.b.end, hi);
    if l.b != b {
      AllocIsReplace(c, l.rest, l.b.end, hi, b, size);
    } else {
      SmallDrop(l);
      SmallAppend(Served(c, b, size), Block(Served(c, b, size).end, b.end, false), l.rest);
    }
  }

  lemma {:induction false} TrimIsReplace(c: Config, l: Blocks, lo: nat, hi: nat, b: Block, size: nat)
    requires c.header > 0 && Tiled(c, l, lo, hi) && Has(l, b)
    ensures var r := After(l, b);
            var t := Trimmed(c, b, r, size);
            if t.end == b.end then Trim(c, l, b.start, size) == Replace(l, b.start, 1, Cons(t, Nil))
            else if r.Cons? && !r.b.used then
              Trim(c, l, b.start, size) == Replace(l, b.start, 2, Cons(t, Cons(Block(t.end, r.b.end, false), Nil)))
            else Trim(c, l, b.start, size) == Replace(l, b.start, 1, Cons(t, Cons(Block(t.end, b.end, false), Nil)))
  {
    TiledOrder(c, l.rest, l.b.end, hi);
    if l.b != b {
      TrimIsReplace(c, l.rest, l.b.end, hi, b, size);
    } else {
      var r := l.rest;
      var t := Trimmed(c, b, r, size);
      SmallDrop(l);
      if r.Cons? && !r.b.used {
        SmallAppend(t, Block(t.end, r.b.end, false), r.rest);
      }
      SmallAppend(t, Block(t.end, b.end, false), r);
    }
  }

  /** First half of plug_holes: merge block `p` with a free block behind it. */
  function MergeAfter(l: Blocks, p: nat): Blocks {
    match l
    case Nil => Nil
    case Cons(b, r) =>
      if b.start != p then Cons(b, MergeAfter(r, p))
      else if r.Cons? && !r.b.used then Cons(b.(end := r.b.end), r.rest)
      else l
  }

  /** Second half of plug_holes: merge block `p` into a free block in front of it. */
  function MergeBefore(l: Blocks, p: nat): Blocks {
    if l.Nil? || l.rest.Nil? || l.b.start >= p then l
    else if l.rest.b.start != p then Cons(l.b, MergeBefore(l.rest, p))
    else if !l.b.used then Cons(l.b.(end := l.rest.b.end), l.rest.rest)
    else l
  }

  /** Clearing the flag and plugging the holes is releasing the block. */
  lemma {:induction false} PlugIsFree(c: Config, l: Blocks, lo: nat, hi: nat, prevFree: bool, b: Block)
    requires c.header > 0 && WellFormed(c, l, lo, hi, prevFree) && Has(l, b) && b.used
    ensures MergeBefore(MergeAfter(Replace(l, b.start, 1, Cons(b.(used := false), Nil)), b.start), b.start)
            == Free(l, b.start)
  {
    HasInRange(c, l, lo, hi, prevFree, b);
    if l.b != b {
      PlugIsFree(c, l.rest, l.b.end, hi, !l.b.used, b);
      var x := MergeAfter(Replace(l.rest, b.start, 1, Cons(b.(used := false), Nil)), b.start);
      HasInRange(c, l.rest, l.b.end, hi, !l.b.used, b);
      SmallDrop(l.rest);
      SmallAppend(b.(used := false), b, l.rest.rest);
      assert x.Cons? && x.b.start == l.rest.b.start;
    } else {
      var x := Replace(l, b.start, 1, Cons(b.(used := false), Nil));
      SmallDrop(l);
      SmallAppend(b.(used := false), b, l.rest);
    }
  }

  // ---------------------------------------------------------------- the lowest free block

  /** Taking a block above the lowest free one keeps it; taking that one leaves only blocks
      behind it to look at. */
  lemma {:induction false} AllocAndLowestFree(c: Config, l: Blocks, lo: nat, hi: nat, p: nat, size: nat)
    requires c.header > 0 && Tiled(c, l, lo, hi) && From(l, p).Cons? && !From(l, p).b.used
    ensures var a := Alloc(c, l, p, size);
            && LowestFree(l, hi) <= p
            && (LowestFree(l, hi) != p ==> LowestFree(a, hi) == LowestFree(l, hi))
            && (LowestFree(l, hi) == p ==> From(a, p).Cons? && LowestFree(a, hi) == LowestFree(From(a, p), hi))
  {
    FromInRange(c, l, lo, hi, p);
    TiledOrder(c, l.rest, l.b.end, hi);
    if l.b.start != p {
      AllocAndLowestFree(c, l.rest, l.b.end, hi, p, size);
      SearchFromLowestFree(c, l.rest, l.b.end, hi, size);
    }
  }

  /** Clearing a flag lowers the lowest free block to it, if it was above. */
  lemma {:induction false} ReleaseAndLowestFree(c: Config, l: Blocks, lo: nat, hi: nat, b: Block)
    requires c.header > 0 && Tiled(c, l, lo, hi) && Has(l, b) && b.used
    ensures LowestFree(Replace(l, b.start, 1, Cons(b.(used := false), Nil)), hi)
            == if b.start < LowestFree(l, hi) then b.start else LowestFree(l, hi)
  {
    TiledOrder(c, l.rest, l.b.end, hi);
    SearchFromLowestFree(c, l.rest, l.b.end, hi, 0);
    if l.b != b {
      ReleaseAndLowestFree(c, l.rest, l.b.end, hi, b);
    } else {
      SmallDrop(l);
      SmallAppend(b.(used := false), b, l.rest);
    }
  }

  /** Merging a free block with a free neighbour does not move the lowest free block. */
  lemma {:induction false} MergeAndLowestFree(c: Config, l: Blocks, lo: nat, hi: nat, p: nat)
    requires c.header > 0 && Tiled(c, l, lo, hi) && From(l, p).Cons? && !From(l, p).b.used
    ensures LowestFree(MergeAfter(l, p), hi) == LowestFree(MergeBefore(l, p), hi) == LowestFree(l, hi)
    ensures LowestFree(l, hi) <= p
  {
    FromInRange(c, l, lo, hi, p);
    TiledOrder(c, l.rest, l.b.end, hi);
    if l.b.start != p {
      MergeAndLowestFree(c, l.rest, l.b.end, hi, p);
    }
  }

  lemma {:induction false} MergeAfterIsReplace(c: Config, l: Blocks, lo: nat, hi: nat, p: nat)
    requires c.header > 0 && Tiled(c, l, lo, hi) && From(l, p).Cons?
    ensures var f := From(l, p);
            && (f.rest.Cons? && !f.rest.b.used ==>
                  MergeAfter(l, p) == Replace(l, p, 2, Cons(f.b.(end := f.rest.b.end), Nil)))
            && (!(f.rest.Cons? && !f.rest.b.used) ==> MergeAfter(l, p) == l)
            && From(MergeAfter(l, p), p).Cons? && From(MergeAfter(l, p), p).b.used == f.b.used
  {
    FromInRange(c, l, lo, hi, p);
    TiledOrder(c, l.rest, l.b.end, hi);
    if l.b.start != p {
      MergeAfterIsReplace(c, l.rest, l.b.end, hi, p);
    } else {
      SmallDrop(l);
      if l.rest.Cons? { SmallAppend(l.b.(end := l.rest.b.end), l.b, l.rest.rest); }
    }
  }

  lemma {:induction false} MergeBeforeIsReplace(c: Config, l: Blocks, lo: nat, hi: nat, p: nat, q: nat)
    requires c.header > 0 && Tiled(c, l, lo, hi) && From(l, p).Cons?
    requires q < p && From(l, q).Cons? && From(l, q).rest == From(l, p)
    ensures var f := From(l, q);
            MergeBefore(l, p) == if f.b.used then l else Replace(l, q, 2, Cons(f.b.(end := f.rest.b.end), Nil))
  {
    FromInRange(c, l, lo, hi, p);
    FromInRange(c, l, lo, hi, q);
    TiledOrder(c, l.rest, l.b.end, hi);
    if l.b.start == q {
      SmallDrop(l);
      SmallAppend(l.b.(end := l.rest.b.end), l.b, l.rest.rest);
    } else {
      FromInRange(c, l.rest, l.b.end, hi, p);
      FromInRange(c, l.rest, l.b.end, hi, q);
      MergeBeforeIsReplace(c, l.rest, l.b.end, hi, p, q);
    }
  }

  lemma MergeBeforeFirst(l: Blocks, p: nat)
    requires l.Cons? && l.b.start == p
    ensures MergeBefore(l, p) == l
  {
  }

  lemma {:induction false} TrimAndLowestFree(c: Config, l: Blocks, lo: nat, hi: nat, b: Block, size: nat)
    requires c.header > 0 && Tiled(c, l, lo, hi) && Has(l, b) && b.used
    ensures var t, low := Trimmed(c, b, After(l, b), size), LowestFree(l, hi);
            && (t.end == b.end ==> Trim(c, l, b.start, size) == l)
            && (t.end != b.end ==> LowestFree(Trim(c, l, b.start, size), hi) == if low < b.start then low else t.end)
            && (low > b.start ==> low >= b.end) && low != b.start
            && (low > b.start && After(l, b).Cons? && !After(l, b).b.used ==> low == b.end)
  {
    TiledOrder(c, l.rest, l.b.end, hi);
    SearchFromLowestFree(c, l.rest, l.b.end, hi, 0);
    if l.b != b { TrimAndLowestFree(c, l.rest, l.b.end, hi, b, size); }
  }
}
