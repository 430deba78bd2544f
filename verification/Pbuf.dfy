/** The operations of src/lib/liblwip/core/pbuf.c on the graph of module PbufGraph: reference
    counting, concatenating, cutting and allocating chains.

    `ext` is the multiset of references that callers hold. Ghost lists name the chains that the
    pointer arguments start. */
module Pbuf {
  import opened Bytes
  import opened PbufGraph
  import opened PbufSpec
  import opened PbufData

  class Pbufs {
    var mem: Mem
    /** free elements of the pbuf pool, and its size */
    var avail: nat
    const poolSize: nat
    ghost var ext: multiset<nat>

    ghost predicate Valid()
      reads this
    {
      Good(mem, ext, avail, poolSize)
    }

    constructor (poolSize: nat)
      ensures Valid() && mem == map[] && ext == multiset{} && avail == poolSize && this.poolSize == poolSize
    {
      mem, avail, ext := map[], poolSize, multiset{};
      this.poolSize := poolSize;
    }

    /** pbuf_free: give up one reference to the chain `l0`. The number of deallocated nodes is
        returned in an u8_t. */
    method Free(p0: nat, ghost l0: List) returns (count: nat)
      requires Valid() && Chain(mem, p0, l0) && (p0 != 0 ==> p0 in ext)
      modifies this`mem, this`avail, this`ext
      ensures Valid() && ext == old(ext) - multiset{p0}
      ensures mem == Released(old(mem), l0) && count == Cut8(Run(old(mem), l0))
    {
      hide Good, Cut8, NextCount;
      CountCut(0);
      count := 0;
      var p := p0;
      ghost var l, freed: nat, base := l0, 0, ext - multiset{p0};
      NullNotHeld(mem, ext, avail, poolSize);
      assert ext == WithToken(base, p);
      while p != 0
        invariant Valid() && Chain(mem, p, l) && ext == WithToken(base, p)
        invariant Released(mem, l) == Released(old(mem), l0)
        invariant count == Cut8(freed) && freed + Run(mem, l) == Run(old(mem), l0)
        decreases Length(l)
      {
        NodeRef(mem, ext, avail, poolSize, p);
        if mem[p].ref - 1 == 0 {
          var q := mem[p].next;
          ReleaseNode(p, l, base);
          CountCut(freed);
          count, freed := NextCount(count), freed + 1;
          p, l := q, l.rest;
        } else {
          DropReference(p, base);
          p, l := 0, Nil;
        }
      }
    }

    /** pbuf_ref; an assertion stops the program before the u8_t wraps. */
    method Ref(p: nat)
      requires Valid() && (p != 0 ==> p in mem && mem[p].ref < 255)
      modifies this`mem, this`ext
      ensures Valid() && ext == WithToken(old(ext), p)
      ensures mem == if p == 0 then old(mem) else old(mem)[p := old(mem)[p].(ref := old(mem)[p].ref + 1)]
    {
      if p != 0 {
        hide Good;
        RefKeepsGood(mem, ext, avail, poolSize, p);
        mem := mem[p := mem[p].(ref := mem[p].ref + 1)];
        ext := WithToken(ext, p);
      }
    }

    /** pbuf_cat: hook chain `t` behind chain `h`, taking over the caller's reference to it. */
    method Cat(h: nat, t: nat, ghost lh: List, ghost lt: List)
      requires Valid() && Chain(mem, h, lh) && Chain(mem, t, lt)
      requires h != 0 && t != 0 ==> t in ext && Last(lh) !in Nodes(lt)
      modifies this`mem, this`ext
      ensures Valid()
      ensures if h == 0 || t == 0 then mem == old(mem) && ext == old(ext)
              else ext == old(ext) - multiset{t} && Joined(old(mem), mem, h, lh, t, lt)
    {
      hide Good, Joined, Bumped, Cut16, Append, Chain, Last, Lengthened, Nodes;
      if h == 0 || t == 0 { return; }
      Separate(mem, h, lh, t, lt);
      ghost var mem0, d := mem, mem[t].tot;
      var p := AddTotals(h, t, lh);
      ghost var done := Nodes(lh) - {p};
      BumpedNode(mem0, mem, done, d, t);
      BumpedNode(mem0, mem, done, d, p);
      ghost var mem1 := mem;
      mem := mem[p := Lengthened(mem[p], mem[t].tot).(next := t)];
      CatHooks(mem0, mem1, mem, ext, avail, poolSize, h, lh, t, lt);
      ext := ext - multiset{t};
    }

    /** The loop of pbuf_cat: add the length of `t` to every node of chain `h` but the last, which
        is returned. */
    method AddTotals(h: nat, t: nat, ghost lh: List) returns (p: nat)
      requires Chain(mem, h, lh) && lh.Cons? && t in mem && t !in Nodes(lh)
      modifies this`mem
      ensures p == Last(lh) && p in old(mem) && p in Nodes(lh) && Bumped(old(mem), mem, Nodes(lh) - {p}, old(mem)[t].tot)
    {
      hide Bumped, Cut16, Last, Lengthened;
      ghost var mem0, d := mem, mem[t].tot;
      BumpedNone(mem, d);
      ghost var l, done: set<nat> := lh, {};
      p := h;
      while mem[p].next != 0
        invariant Bumped(mem0, mem, done, d) && Chain(mem0, p, l) && l.Cons? && p in mem && mem[p].next == mem0[p].next
        invariant Nodes(lh) == done + Nodes(l) && done !! Nodes(l) && Last(l) == Last(lh)
        decreases l
      {
        StepAlong(mem0, p, l);
        BumpedMore(mem0, mem, done, d, p, t);
        mem := mem[p := Lengthened(mem[p], mem[t].tot)];
        done := done + {p};
        p, l := mem[p].next, l.rest;
      }
      LastAlone(mem0, p, l);
    }

    /** pbuf_chain: like pbuf_cat, but the caller keeps a reference to `t`. */
    method ChainTo(h: nat, t: nat, ghost lh: List, ghost lt: List)
      requires Valid() && Chain(mem, h, lh) && Chain(mem, t, lt)
      requires h != 0 && t != 0 ==> t in ext && Last(lh) !in Nodes(lt)
      requires t != 0 ==> mem[t].ref < 255
      modifies this`mem, this`ext
      ensures Valid()
      ensures h != 0 && t != 0 ==>
        && ext == old(ext)
        && Chain(mem, h, Append(lh, lt))
        && Flat(mem, Append(lh, lt)) == Flat(old(mem), lh) + Flat(old(mem), lt)
        && (TotOk(old(mem), lh) && TotOk(old(mem), lt) ==> TotOk(mem, Append(lh, lt)))
        && mem.Keys == old(mem).Keys
        && (forall a | a in old(mem) && a !in Nodes(lh) && a != t :: mem[a] == old(mem)[a])
        && mem[t] == old(mem)[t].(ref := old(mem)[t].ref + 1)
      ensures h == 0 && t != 0 ==> ext == old(ext) + multiset{t} && mem == old(mem)[t := old(mem)[t].(ref := old(mem)[t].ref + 1)]
      ensures t == 0 ==> mem == old(mem) && ext == old(ext)
    {
      hide Good, Joined, Chain, Append, Nodes, Last, Flat, TotOk;
      ghost var mem0 := mem;
      if h != 0 && t != 0 { Separate(mem, h, lh, t, lt); }
      NonNull(mem, t, lt);
      Cat(h, t, lh, lt);
      ghost var mem1 := mem;
      if h != 0 && t != 0 { JoinedFrame(mem0, mem1, h, lh, t, lt); }
      Ref(t);
      if h != 0 && t != 0 {
        RefKeepsContents(mem1, t, h, Append(lh, lt));
        assert ext == old(ext);
      }
    }

    /** pbuf_dechain: cut `p` off its tail and give up its reference to that. The result says
        whether the tail is gone by an u8_t count of deallocated nodes, so it is the address of a
        deallocated node exactly if that count is a positive multiple of 256. */
    method Dechain(p: nat, ghost l: List) returns (r: nat)
      requires Valid() && Chain(mem, p, l) && p != 0
      modifies this`mem, this`avail, this`ext
      ensures Valid() && ext == old(ext)
      ensures p in mem && mem[p] == old(mem)[p].(next := 0, tot := mem[p].tot)
      ensures old(mem)[p].next == 0 ==> mem == old(mem) && r == 0
      ensures var q := old(mem)[p].next;
              var k := Run(old(mem), l.rest);
              q != 0 ==>
                && mem[p].tot == mem[p].len
                && r == (if k % 256 > 0 then 0 else q)
                && (q in mem <==> k == 0)
                && (r != 0 && r !in mem <==> k > 0 && k % 256 == 0)
                && (k == 0 ==> Chain(mem, q, l.rest) && Flat(mem, l.rest) == Flat(old(mem), l.rest))
                && (k == 0 && TotOk(old(mem), l) ==> TotOk(mem, l.rest))
      ensures Kept(old(mem), mem, Nodes(l))
    {
      hide Good, Ok, Chain, Nodes, Released, Run, Flat, TotOk, Cut16;
      NonNull(mem, p, l);
      var q := mem[p].next;
      if q == 0 { return 0; }
      ghost var mem0 := mem;
      CutOffGood(mem, ext, avail, poolSize, p, l);
      mem := mem[q := mem[q].(tot := Cut16(mem[p].tot - mem[p].len))];
      mem := mem[p := mem[p].(next := 0, tot := mem[p].len)];
      ext := ext + multiset{q};
      ghost var mem1 := mem;
      var gone := Free(q, l.rest);
      CutOffRun(mem0, p, l);
      GoodIsOk(mem, ext, avail, poolSize);
      CutOffReleased(mem0, p, l, mem, ext);
      assert ext == old(ext);
      r := if gone > 0 then 0 else q;
    }

    /** pbuf_add_header: reveal `inc` bytes in front of the payload. */
    method AddHeader(p: nat, inc: nat) returns (err: bool)
      requires Valid() && p in mem
      modifies this`mem
      ensures Valid() && err == GrowFails(old(mem)[p], inc)
      ensures err <==> inc != 0 && (inc > old(mem)[p].off || old(mem)[p].tot + inc > 0xFFFF)
      ensures mem == if err then old(mem) else old(mem)[p := Grown(old(mem)[p], inc)]
    {
      hide Good, Shaped;
      ShapedAt(mem, ext, avail, poolSize, p);
      GrowFailsExactly(mem[p], inc);
      if inc > 0xFFFF { return true; }
      if inc == 0 {
        GrowNothing(mem[p]);
        return false;
      }
      if Cut16(inc + mem[p].tot) < inc { return true; }
      if mem[p].off < inc { return true; }
      GrownPayload(mem[p], inc);
      ReshapeGood(mem, ext, avail, poolSize, p, Grown(mem[p], inc));
      mem := mem[p := Grown(mem[p], inc)];
      return false;
    }

    /** pbuf_remove_header: hide the first `dec` bytes of the payload. */
    method RemoveHeader(p: nat, dec: nat) returns (err: bool)
      requires Valid() && p in mem
      modifies this`mem
      ensures Valid() && err == StripFails(old(mem)[p], dec)
      ensures mem == if err then old(mem) else old(mem)[p := Stripped(old(mem)[p], dec)]
    {
      hide Good;
      ShapedAt(mem, ext, avail, poolSize, p);
      if dec > 0xFFFF { return true; }
      if dec == 0 { assert mem == mem[p := Stripped(mem[p], dec)]; return false; }
      if dec > mem[p].len { return true; }
      StrippedPayload(mem[p], dec);
      ReshapeGood(mem, ext, avail, poolSize, p, Stripped(mem[p], dec));
      mem := mem[p := mem[p].(off := mem[p].off + dec, len := Cut16(mem[p].len - dec), tot := Cut16(mem[p].tot - dec))];
      return false;
    }

    /** pbuf_free_header: give up the first `size` bytes of the chain at `q`, with the nodes that
        become empty, and return the rest; the caller's reference moves there. */
    method FreeHeader(q: nat, size: nat, ghost l: List) returns (p: nat, ghost gone: List, ghost rest: List)
      requires Valid() && Chain(mem, q, l) && (q != 0 ==> q in ext) && size < 0x10000
      modifies this`mem, this`avail, this`ext
      ensures Valid() && ext == WithToken(old(ext) - multiset{q}, p)
      ensures Chain(mem, p, rest) && Nodes(rest) <= Nodes(l)
      ensures Flat(mem, rest) == DropBytes(Flat(old(mem), l), size)
      ensures TotOk(old(mem), l) ==> TotOk(mem, rest)
      ensures size > |Flat(old(mem), l)| ==> p == 0
      ensures Kept(old(mem), mem, Nodes(l)) && GivenUp(old(mem), l, gone, p, rest, size)
    {
      hide Good, Chain, Flat, TotOk, DropBytes, Stripped, GivenUp, Peeling;
      var left: nat := size;
      p, gone, rest := q, Nil, l;
      PeelStart(mem, q, l, size);
      ghost var base, stripped := ext - multiset{q}, false;
      NullNotHeld(mem, ext, avail, poolSize);
      assert ext == WithToken(base, p);
      hide WithToken, Kept;
      while left != 0 && p != 0
        invariant Valid() && ext == WithToken(base, p) && Chain(mem, p, rest)
        invariant Peeling(old(mem), mem, l, gone, p, rest, size, left, stripped)
        decreases left, Length(rest)
      {
        NonNull(mem, p, rest);
        ShapedAt(mem, ext, avail, poolSize, p);
        ghost var mem0 := mem;
        if left >= mem[p].len {
          var f := p;
          left := left - mem[p].len;
          p := DropHead(f, rest, base);
          PeeledHead(old(mem), mem0, mem, l, gone, f, rest, size, left, stripped);
          gone, rest := Append(gone, Cons(f, Nil)), rest.rest;
        } else {
          PeelRest(old(mem), mem, l, gone, p, rest, size, left, stripped);
          var err := RemoveHeader(p, left);
          left, stripped := 0, true;
        }
      }
      Peeled(old(mem), mem, l, gone, p, rest, size, left, stripped);
    }

    /** pbuf_realloc: shorten the chain at `p` to its first `newLen` bytes; it cannot grow. The
        lengths come out right even when the old ones have wrapped. The link to the tail is cut
        before the tail is freed instead of after; pbuf_free does not look at it. */
    method Realloc(p: nat, newLen: nat, ghost l: List) returns (ghost l': List)
      requires Valid() && Chain(mem, p, l) && p != 0 && TotOk(mem, l) && newLen < 0x10000
      modifies this`mem, this`avail, this`ext
      ensures Valid() && ext == old(ext) && Kept(old(mem), mem, Nodes(l))
      ensures newLen >= old(mem)[p].tot ==> mem == old(mem) && l' == l
      ensures newLen < old(mem)[p].tot ==>
        && newLen < |Flat(old(mem), l)| && Flat(mem, l') == Flat(old(mem), l)[..newLen]
        && Chain(mem, p, l') && TotOk(mem, l') && Nodes(l') <= Nodes(l) && ShortestFront(old(mem), l, l', newLen)
        && l'.Cons? && (var q := Last(l'); q in mem && q in old(mem) && TrimmedTo(old(mem)[q], mem[q]))
    {
      hide Good, Chain, Flat, TotOk, ShortestFront, TrimmedTo, Last, Walked, Ended, Shortened, Released, Nodes, Cut16, Append, Shaped;
      NonNull(mem, p, l);
      HeadTot(mem, l);
      if newLen >= mem[p].tot { return l; }
      CutBelow(|Flat(mem, l)|);
      ghost var mem0, tot := mem, mem[p].tot;
      var shrink := mem[p].tot - newLen;
      var q, rem, pre, post := SkipKept(p, newLen, shrink, l);
      ghost var mem1 := mem;
      ShapedAt(mem0, ext, avail, poolSize, q);
      ShapedIs(mem0[q]);
      var t := mem[q].next;
      mem := mem[q := Shortened(mem[q], rem)];
      ghost var mem2 := mem;
      EndedIs(mem0, mem1, mem2, q, rem);
      EndGood(mem0, mem1, mem2, ext, avail, poolSize, l, pre, q, post, shrink, rem);
      EndKept(mem0, mem1, mem2, l, pre, q, post, shrink, rem);
      ShrinkCut(|Flat(mem0, l)|, tot, newLen);
      EndContents(mem0, mem1, mem2, p, l, pre, q, post, newLen, shrink, rem);
      EndIsShortest(mem0, mem1, l, pre, q, post, shrink, newLen, rem);
      l' := Append(pre, Cons(q, Nil));
      EndReleased(mem0, mem2, p, l', t, post.rest, l);
      ext := WithToken(ext, t);
      FreeTail(t, post.rest);
      assert ext == old(ext) by { NullNotHeld(mem0, old(ext), old(avail), poolSize); }
    }

    /** `if (q->next != NULL) pbuf_free(q->next)`. */
    method FreeTail(t: nat, ghost l: List)
      requires Chain(mem, t, l) && Good(mem, ext, avail, poolSize) && (t != 0 ==> t in ext)
      modifies this`mem, this`avail, this`ext
      ensures Valid() && ext == old(ext) - multiset{t} && mem == Released(old(mem), l)
    {
      hide Good;
      NullNotHeld(mem, ext, avail, poolSize);
      if t != 0 { var count := Free(t, l); }
    }

    /** The first loop of pbuf_realloc: find the node where the first `newLen` bytes end, taking
        `shrink` off every tot_len before it. */
    method SkipKept(p: nat, newLen: nat, shrink: int, ghost l: List)
      returns (q: nat, rem: nat, ghost pre: List, ghost post: List)
      requires Valid() && Chain(mem, p, l) && p != 0 && newLen <= |Flat(mem, l)| && newLen < 0x10000
      modifies this`mem
      ensures Walked(old(mem), mem, l, pre, q, post, shrink)
      ensures q in mem && q in old(mem) && mem[q] == old(mem)[q]
      ensures rem <= mem[q].len && newLen == |Flat(old(mem), pre)| + rem && (pre.Nil? || rem > 0)
    {
      hide Good, Shaped, Walked, Lengthened, Chain, Flat, Payload;
      ghost var mem0 := mem;
      NonNull(mem, p, l);
      WalkStart(mem, p, l, shrink);
      q, rem, pre, post := p, newLen, Nil, l;
      assert Flat(mem0, Nil) == [] by { NilTail(mem0, l); }
      while rem > mem[q].len
        invariant Walked(mem0, mem, l, pre, q, post, shrink) && q in mem && q in mem0 && mem[q] == mem0[q]
        invariant newLen == |Flat(mem0, pre)| + rem && rem <= |Flat(mem0, post)| && (pre.Nil? || rem > 0)
        decreases post
      {
        ShapedAt(mem0, ext, avail, poolSize, q);
        WalkStep(mem0, mem, l, pre, q, post, shrink, rem);
        rem := rem - mem[q].len;
        mem := mem[q := Lengthened(mem[q], -shrink)];
        pre, post := Append(pre, Cons(q, Nil)), post.rest;
        q := mem[q].next;
        WalkedAt(mem0, mem, l, pre, q, post, shrink);
      }
    }

    /** pbuf_alloc, pool case: a chain of exactly `length` bytes, or NULL and every element given
        back, which happens exactly if the pool holds too few. `off` is the header space of the
        layer, rounded up; `dust` is what the elements held. */
    method AllocPool(length: nat, off0: nat, bufSize: nat, dust: seq<Byte>) returns (p: nat, ghost l: List)
      requires Valid() && length < 0x10000 && off0 < bufSize < 0x10000 && |dust| == bufSize
      modifies this`mem, this`avail, this`ext
      ensures Valid() && (p == 0 <==> old(avail) < Needed(length, off0, bufSize))
      ensures p == 0 ==> mem == old(mem) && ext == old(ext) && avail == old(avail)
      ensures p != 0 ==>
        && ext == old(ext) + multiset{p} && Chain(mem, p, l) && |Flat(mem, l)| == length && TotOk(mem, l)
        && Nodes(l) !! old(mem).Keys && mem - Nodes(l) == old(mem)
        && Length(l) == Needed(length, off0, bufSize) && avail == old(avail) - Length(l) && Sole(mem, l)
        && p in mem && mem[p].off == off0 && LaidOut(mem, l, off0, bufSize, 0)
    {
      hide LaidOut, Good, Building, Chain, Flat, TotOk, Nodes, Released, Append, Length, Needed, WithToken;
      var rem: nat, off: nat, last: nat, more := length, off0, 0, true;
      p, l := 0, Nil;
      BuildStart(mem, last, length);
      assert LaidOut(mem, Nil, off0, bufSize, rem) by { LaidOutNone(mem, off0, bufSize, rem); }
      NoTokens(ext);
      while more
        invariant Valid() && Building(old(mem), mem, p, l, last, rem, length) && ext == WithToken(old(ext), p)
        invariant off < bufSize && (p != 0 ==> last in mem)
        invariant LaidOut(mem, l, off0, bufSize, rem) && (more ==> off == if l.Nil? then off0 else 0) && (more && l.Cons? ==> rem > 0)
        invariant old(avail) == avail + Length(l) && (more ==> Needed(length, off0, bufSize) == Length(l) + Needed(rem, off, bufSize))
        invariant !more ==> rem == 0 && p != 0 && Length(l) == Needed(length, off0, bufSize)
        decreases rem + if more then 1 else 0
      {
        NeededStep(rem, off, bufSize);
        if avail == 0 {
          GiveBack(p, l, old(mem), old(ext), last, rem, length);
          SameAvail(mem, ext, avail, old(avail), poolSize);
          p, l := 0, Nil;
          return;
        }
        var qlen := if rem <= bufSize - off then rem else bufSize - off;
        ghost var mem1, n := mem, Node(0, dust, off, qlen, rem, 1, true, false);
        BuildFacts(old(mem), mem, p, l, last, rem, length);
        var q := AppendNode(p, l, last, Node(0, dust, off, qlen, rem, 1, true, false), old(mem), old(ext), rem, length);
        HookedSpans(mem1, p, l, last, q, n);
        LaidOutMore(mem1, mem, l, off0, bufSize, rem, q, rem - qlen);
        if p == 0 { p := q; }
        last, l := q, Append(l, Cons(q, Nil));
        rem, off := rem - qlen, 0;
        more := rem > 0;
      }
      BuildDone(old(mem), mem, p, l, last, length);
      WithOne(old(ext), p);
      LaidOutHead(mem, p, l, off0, bufSize);
    }

    /** pbuf_alloc, heap case: one pbuf of exactly `length` bytes behind `off` bytes of header space,
        or NULL. `header` is the size of struct pbuf, all sizes are rounded up, `cap` is the number of
        values of mem_size_t, `heapOk` says whether mem_malloc finds a block, and `dust` what it
        holds. NULL comes exactly if the heap has no block or the size does not fit. */
    method AllocRam(length: nat, off: nat, header: nat, room: nat, cap: nat, heapOk: bool, dust: seq<Byte>) returns (p: nat)
      requires Valid() && length < 0x10000 && length <= room <= cap && 0 < header && off + 2 * header <= cap && |dust| == off + room
      modifies this`mem, this`ext
      ensures Valid() && (p == 0 <==> !heapOk || header + off + room >= cap)
      ensures p == 0 ==> mem == old(mem) && ext == old(ext)
      ensures p != 0 ==> p !in old(mem) && ext == old(ext) + multiset{p}
                         && mem == old(mem)[p := Node(0, dust, off, length, length, 1, false, false)]
    {
      hide Good;
      SizeWrapsExactly(header, off, room, cap);
      if SizeWraps(header, off, room, cap) { return 0; }
      if !heapOk { return 0; }
      FreshAddress(mem);
      p :| p != 0 && p !in mem;
      var n := Node(0, dust, off, length, length, 1, false, false);
      NewGood(mem, ext, avail, poolSize, p, n);
      mem := mem[p := n];
      ext := ext + multiset{p};
    }

    /** `if (p) pbuf_free(p)` when the pool runs dry. */
    method GiveBack(p: nat, ghost l: List, ghost mem0: Mem, ghost base: multiset<nat>, ghost last: nat, ghost rem: nat, ghost length: nat)
      requires Valid() && Building(mem0, mem, p, l, last, rem, length) && ext == WithToken(base, p)
      modifies this`mem, this`avail, this`ext
      ensures Valid() && mem == mem0 && ext == base
    {
      hide Good, Building, Released, WithToken, Chain;
      BuildFacts(mem0, mem, p, l, last, rem, length);
      if p != 0 {
        WithOne(base, p);
        var count := Free(p, l);
      } else {
        BuildEmpty(mem0, mem, l, last, rem, length);
        NoTokens(base);
      }
    }

    /** Take an element from the pool and hook it behind the chain so far. */
    method AppendNode(p: nat, ghost l: List, last: nat, n: Node, ghost mem0: Mem, ghost base: multiset<nat>, ghost rem: nat, ghost length: nat)
      returns (q: nat)
      requires Valid() && avail > 0 && Building(mem0, mem, p, l, last, rem, length) && ext == WithToken(base, p)
      requires n.next == 0 && n.ref == 1 && n.pool && n.tot == rem && n.len <= rem && Shaped(n)
      modifies this`mem, this`avail, this`ext
      ensures Valid() && avail == old(avail) - 1 && q != 0 && q in mem && ext == WithToken(base, if p == 0 then q else p)
      ensures Building(mem0, mem, if p == 0 then q else p, Append(l, Cons(q, Nil)), q, rem - n.len, length)
      ensures Length(Append(l, Cons(q, Nil))) == Length(l) + 1
      ensures q !in old(mem) && (p != 0 ==> last in old(mem)) && mem == Hooked(old(mem), p, last, q, n)
    {
      hide Good, Building, WithToken, Chain, Append, Length, Shaped;
      BuildFacts(mem0, mem, p, l, last, rem, length);
      FreshAddress(mem);
      q :| q != 0 && q !in mem;
      HookedGood(mem, ext, avail, poolSize, base, p, last, q, n);
      BuildStep(mem0, mem, p, l, last, rem, length, q, n);
      mem := mem[q := n];
      avail := avail - 1;
      if p != 0 { mem := mem[last := mem[last].(next := q)]; }
      ext := WithToken(base, if p == 0 then q else p);
    }

    /** pbuf_copy_partial: copy at most `len0` bytes of the chain from `off0` on to `dst`. */
    method CopyPartial(buf: nat, dst: array<Byte>, len0: nat, off0: nat, ghost l: List) returns (n: nat)
      requires Valid() && Chain(mem, buf, l) && len0 < 0x10000 && off0 < 0x10000
      requires |Slice(Flat(mem, l), off0, len0)| <= dst.Length
      modifies dst
      ensures n == |Slice(Flat(mem, l), off0, len0)|
      ensures dst[..n] == Slice(Flat(mem, l), off0, len0) && dst[n..] == old(dst[n..])
    {
      hide Good, Flat, Chain, Slice, Piece, Shaped;
      ghost var want, got, init: seq<Byte> := Slice(Flat(mem, l), off0, len0), [], dst[..];
      var p, len: nat, off: nat := buf, len0, off0;
      ghost var rest := l;
      n := 0;
      assert want == [] + want;
      while len != 0 && p != 0
        invariant Chain(mem, p, rest) && Valid() && n <= |want| <= dst.Length
        invariant got == dst[..n] && want == got + Slice(Flat(mem, rest), off, len) && dst[n..] == init[n..]
        decreases rest
      {
        NonNull(mem, p, rest);
        ShapedAt(mem, ext, avail, poolSize, p);
        CopyStep(mem, p, rest, off, len);
        if off != 0 && off >= mem[p].len {
          off := off - mem[p].len;
        } else {
          var k := mem[p].len - off;
          if k > len { k := len; }
          var src := Piece(mem[p], off, k);
          AddPiece(got, src, Slice(Flat(mem, rest.rest), 0, len - k));
          assert dst[n + k..] == dst[n..][k..] && init[n + k..] == init[n..][k..];
          MemCpy(dst, n, src);
          got := got + src;
          n, len, off := n + k, len - k, 0;
        }
        p, rest := mem[p].next, rest.rest;
      }
      EmptyEnd(mem, p, rest, len);
      SliceEmpty(Flat(mem, rest), off, len);
      assert got + [] == got;
    }

    /** MEMCPY into an application buffer. */
    static method MemCpy(dst: array<Byte>, at: nat, src: seq<Byte>)
      requires at + |src| <= dst.Length
      modifies dst
      ensures dst[..at + |src|] == old(dst[..at]) + src && dst[at + |src|..] == old(dst[at + |src|..])
    {
      forall i | 0 <= i < |src| { dst[at + i] := src[i]; }
    }

    /** pbuf_skip: the node and the offset in it where byte `off` of the chain is. */
    method Skip(p: nat, off: nat, ghost l: List) returns (q: nat, left: nat, ghost pre: List, ghost post: List)
      requires Valid() && Chain(mem, p, l) && off < 0x10000
      ensures Cursor(mem, l, pre, q, post) && off == |Flat(mem, pre)| + left
      ensures q != 0 <==> off < |Flat(mem, l)|
      ensures q != 0 ==> q in mem && left < mem[q].len
    {
      hide Good, Flat, Chain, Cursor, Shaped, Append;
      q, left, pre, post := p, off, Nil, l;
      CursorStart(mem, p, l);
      CursorHead(mem, l, pre, q, post);
      while q != 0 && mem[q].len <= left
        invariant Cursor(mem, l, pre, q, post) && off == |Flat(mem, pre)| + left && (q != 0 ==> q in mem)
        decreases post
      {
        CursorHead(mem, l, pre, q, post);
        ShapedAt(mem, ext, avail, poolSize, q);
        CursorStep(mem, l, pre, q, post);
        left := left - mem[q].len;
        pre, post := Append(pre, Cons(q, Nil)), post.rest;
        q := mem[q].next;
        CursorHead(mem, l, pre, q, post);
      }
      CursorHead(mem, l, pre, q, post);
      if q != 0 {
        ShapedAt(mem, ext, avail, poolSize, q);
        CursorStep(mem, l, pre, q, post);
      }
    }

    /** MEMCPY into the payload of a node. */
    method Store(q: nat, at: nat, data: seq<Byte>)
      requires Valid() && q in mem && Shaped(mem[q]) && at + |data| <= mem[q].len
      modifies this`mem
      ensures Valid() && mem == old(mem)[q := Written(old(mem)[q], at, data)]
    {
      hide Good;
      WriteGood(mem, ext, avail, poolSize, q, at, data);
      mem := mem[q := Written(mem[q], at, data)];
    }

    /** pbuf_take: overwrite the start of the chain with `data`. */
    method Take(buf: nat, data: seq<Byte>, ghost l: List) returns (err: Err)
      requires Valid() && Chain(mem, buf, l) && TotOk(mem, l) && |data| < 0x10000
      modifies this`mem
      ensures Valid()
      ensures err == if buf == 0 then ErrArg else if old(mem)[buf].tot < |data| then ErrMem else ErrOk
      ensures if err.ErrOk? then Laid(old(mem), mem, buf, l, 0, data) else mem == old(mem)
    {
      hide Good, Flat, Chain, Cursor, Laid, Shaped, Append, Written, TotOk;
      if buf == 0 { return ErrArg; }
      TotBelow(mem, buf, l);
      if mem[buf].tot < |data| { return ErrMem; }
      ghost var mem0 := mem;
      var p, left: nat, copied: nat := buf, |data|, 0;
      ghost var pre, post := Nil, l;
      CursorStart(mem, p, l);
      CursorHead(mem, l, pre, p, post);
      LaidStart(mem, p, l, 0);
      assert data[..0] == [];
      while left != 0
        invariant Valid() && copied + left == |data| && Laid(mem0, mem, buf, l, 0, data[..copied])
        invariant Cursor(mem, l, pre, p, post) && (left != 0 ==> copied == |Flat(mem, pre)|)
        decreases left, post
      {
        LaidLength(mem0, mem, buf, l, 0, data[..copied]);
        CursorHead(mem, l, pre, p, post);
        ShapedAt(mem, ext, avail, poolSize, p);
        var k := left;
        if k > mem[p].len { k := mem[p].len; }
        LaidMore(mem0, mem, buf, l, 0, data[..copied], pre, p, post, 0, data[copied..copied + k]);
        assert data[..copied] + data[copied..copied + k] == data[..copied + k];
        Store(p, 0, data[copied..copied + k]);
        ShapedAt(mem, ext, avail, poolSize, p);
        CursorStep(mem, l, pre, p, post);
        left, copied := left - k, copied + k;
        pre, post := Append(pre, Cons(p, Nil)), post.rest;
        p := mem[p].next;
      }
      assert data[..copied] == data;
      return ErrOk;
    }

    /** pbuf_take_at: overwrite the chain with `data` from `off` on. It succeeds exactly if `off`
        lies in the chain and the 16-bit tot_len there leaves room. */
    method TakeAt(buf: nat, data: seq<Byte>, off: nat, ghost l: List) returns (err: Err)
      requires Valid() && Chain(mem, buf, l) && TotOk(mem, l) && |data| < 0x10000 && off < 0x10000
      modifies this`mem
      ensures Valid() && (err.ErrOk? || err.ErrMem?)
      ensures if err.ErrOk? then Laid(old(mem), mem, buf, l, off, data) else mem == old(mem)
      ensures err.ErrOk? <==> Room(old(mem), l, off, |data|)
      ensures |Flat(old(mem), l)| < 0x10000 ==>
        (err.ErrOk? <==> off < |Flat(old(mem), l)| && off + |data| <= |Flat(old(mem), l)|)
    {
      hide Good, Flat, Chain, Cursor, Laid, Shaped, Append, Written, TotOk, Nodes, Room, ShapedList;
      ghost var mem0 := mem;
      var q, at, pre, post := Skip(buf, off, l);
      ChainShaped(mem, ext, avail, poolSize, buf, l);
      RoomAt(mem, l, pre, q, post, at, |data|);
      if q == 0 { return ErrMem; }
      CursorTail(mem, l, pre, q, post);
      TotBelow(mem, q, post);
      CutSmall(|Flat(mem, post)|);
      if mem[q].tot < at + |data| { return ErrMem; }
      ShapedAt(mem, ext, avail, poolSize, q);
      var first := mem[q].len - at;
      if first > |data| { first := |data|; }
      LaidStart(mem, buf, l, off);
      LaidMore(mem0, mem, buf, l, off, [], pre, q, post, at, data[..first]);
      assert [] + data[..first] == data[..first];
      Store(q, at, data[..first]);
      if first == |data| {
        assert data[..first] == data;
        return ErrOk;
      }
      LaidTot(mem0, mem, buf, l, off, data[..first]);
      CursorTail(mem, l, pre, q, post);
      ShapedAt(mem, ext, avail, poolSize, q);
      RoomBehind(mem, q, post);
      CursorStep(mem, l, pre, q, post);
      ghost var mem1 := mem;
      CursorTail(mem, l, Append(pre, Cons(q, Nil)), mem[q].next, post.rest);
      err := Take(mem[q].next, data[first..], post.rest);
      LaidTail(mem0, mem1, mem, buf, l, off, data[..first], Append(pre, Cons(q, Nil)), mem1[q].next, post.rest, data[first..]);
      assert data[..first] + data[first..] == data;
    }

    /** pbuf_copy_partial_pbuf: copy `copyLen` bytes of chain `from` to `offset` in chain `to`. */
    method CopyPartialPbuf(to: nat, from: nat, copyLen: nat, offset: nat, ghost lt: List, ghost lf: List) returns (err: Err)
      requires Valid() && Chain(mem, to, lt) && Chain(mem, from, lf) && TotOk(mem, lt) && TotOk(mem, lf)
      requires Nodes(lt) !! Nodes(lf) && copyLen < 0x10000 && offset < 0x10000 && (to != 0 ==> offset <= mem[to].len)
      modifies this`mem
      ensures Valid() && !err.ErrMem?
      ensures err.ErrArg? <==> from == 0 || old(mem)[from].tot < copyLen || to == 0 || old(mem)[to].tot < offset + copyLen
      ensures err.ErrArg? ==> mem == old(mem)
      ensures err.ErrOk? ==> copyLen <= |Flat(old(mem), lf)| && Laid(old(mem), mem, to, lt, offset, Flat(old(mem), lf)[..copyLen])
      ensures err.ErrOk? ==> Flat(mem, lf) == Flat(old(mem), lf)
      ensures NoQueue(old(mem), lt) && NoQueue(old(mem), lf) ==> !err.ErrVal?
    {
      hide Good, Flat, Chain, Cursor, Copied, Shaped, Append, Written, TotOk, Nodes, NoQueue, Laid;
      if from == 0 { return ErrArg; }
      TotBelow(mem, from, lf);
      if mem[from].tot < copyLen || to == 0 { return ErrArg; }
      TotBelow(mem, to, lt);
      if mem[to].tot < offset + copyLen { return ErrArg; }
      ghost var mem0 := mem;
      var q, offT: nat, f, offF: nat, left: nat := to, offset, from, 0, copyLen;
      ghost var preT, postT, preF, postF, done: nat := Nil, lt, Nil, lf, 0;
      CursorStart(mem, q, lt);
      CursorStart(mem, f, lf);
      CopiedStart(mem, to, lt, from, lf, offset);
      var more := true;
      while more
        invariant Valid() && Copied(mem0, mem, to, lt, from, lf, offset, done) && done + left == copyLen
        invariant Cursor(mem, lt, preT, q, postT) && Cursor(mem, lf, preF, f, postF)
        invariant offset + done == |Flat(mem, preT)| + offT && done == |Flat(mem, preF)| + offF
        invariant more ==> q in mem && q != 0 && offT <= mem[q].len && f in mem && f != 0 && offF <= mem[f].len
        invariant !more ==> left == 0
        decreases more, left, Length(postT) + Length(postF)
      {
        ShapedAt(mem, ext, avail, poolSize, q);
        ShapedAt(mem, ext, avail, poolSize, f);
        var k := if mem[q].len - offT >= mem[f].len - offF then mem[f].len - offF else mem[q].len - offT;
        if k > left { k := left; }
        CopiedMore(mem0, mem, to, lt, from, lf, offset, done, preT, q, postT, offT, preF, f, postF, offF, k);
        Store(q, offT, Piece(mem[f], offF, k));
        offT, offF, left, done := offT + k, offF + k, left - k, done + k;
        if offF >= mem[f].len {
          f, offF, preF, postF := Onward(f, offF, lf, preF, postF);
        }
        if offT == mem[q].len {
          q, offT, preT, postT := Onward(q, offT, lt, preT, postT);
        }
        RoomLeft(mem0, mem, to, lt, from, lf, offset, done, copyLen, preT, q, postT, preF, f, postF);
        if f != 0 && mem[f].len == mem[f].tot && mem[f].next != 0 { return ErrVal; }
        if q != 0 && mem[q].len == mem[q].tot && mem[q].next != 0 { return ErrVal; }
        more := left != 0;
      }
      CopiedDone(mem0, mem, to, lt, from, lf, offset, done);
      return ErrOk;
    }

    /** pbuf_split_64k: cut the chain where its length would pass 65535. The 16-bit lengths of the
        front are exact afterwards, whatever has wrapped before. */
    method Split64k(p: nat, ghost l: List) returns (rest: nat, ghost front: List, ghost back: List)
      requires Valid() && Chain(mem, p, l) && TotOk(mem, l)
      modifies this`mem, this`ext
      ensures Valid() && ext == WithToken(old(ext), rest) && Kept(old(mem), mem, Nodes(l))
      ensures l == Append(front, back) && Chain(mem, p, front) && Chain(mem, rest, back)
      ensures Flat(mem, front) + Flat(mem, back) == Flat(old(mem), l)
      ensures |Flat(mem, front)| < 0x10000 && TotOk(mem, front) && Ahead(mem, front, 0) && TotOk(mem, back)
      ensures rest == 0 ==> mem == old(mem)
      ensures rest != 0 ==>
        && rest in mem && rest in old(mem) && p in old(mem)
        && |Flat(mem, front)| + mem[rest].len >= 0x10000 && mem[rest].fin == (old(mem)[p].fin || old(mem)[rest].fin)
    {
      hide Good, Flat, Chain, Append, TotOk, Nodes, Ahead, Kept, WithToken;
      NonNull(mem, p, l);
      NoTokens(ext);
      NilChain(mem);
      if p == 0 || mem[p].next == 0 {
        Unsplit(mem, ext, avail, poolSize, p, l);
        assert Flat(mem, l) + [] == Flat(mem, l);
        return 0, l, Nil;
      }
      var i, r, pre, back' := FrontEnd(p, l);
      front, back := Append(pre, Cons(i, Nil)), back';
      rest := CutBehind(p, l, i, r, pre, back);
      if rest != 0 {
        if mem[p].fin {
          ghost var mem1 := mem;
          ShapedFin(mem, ext, avail, poolSize, rest);
          ReshapeGood(mem, ext, avail, poolSize, rest, mem[rest].(fin := true));
          FinKeepsContents(mem, rest, p, front);
          FinKeepsContents(mem, rest, rest, back);
          KeptFin(old(mem), mem, rest, Nodes(l));
          mem := mem[rest := mem[rest].(fin := true)];
        }
      }
      ExactTot(mem, front);
    }

    /** Find the last node `i` of the front, and the node behind it. */
    method FrontEnd(p: nat, ghost l: List) returns (i: nat, r: nat, ghost pre: List, ghost back: List)
      requires Valid() && Chain(mem, p, l) && p != 0
      ensures l == Append(pre, Cons(i, back)) && i in mem && i != 0 && mem[i].next == r && Chain(mem, r, back) && (r != 0 ==> r in mem)
      ensures |Flat(mem, Append(pre, Cons(i, Nil)))| < 0x10000
      ensures r != 0 ==> |Flat(mem, Append(pre, Cons(i, Nil)))| + mem[r].len >= 0x10000
    {
      hide Good, Flat, Chain, Cursor, Append, Shaped, Cut16;
      CursorStart(mem, p, l);
      CursorHead(mem, l, Nil, p, l);
      ShapedAt(mem, ext, avail, poolSize, p);
      ShapedIs(mem[p]);
      var n: nat := mem[p].len;
      i, pre := p, Nil;
      ghost var post := l;
      CursorStep(mem, l, pre, i, post);
      r := Behind(i, l, pre, post);
      while r != 0 && Cut16(n + mem[r].len) >= n
        invariant Cursor(mem, l, pre, i, post) && i in mem && i != 0 && post.Cons? && Shaped(mem[i])
        invariant r == mem[i].next && (r != 0 ==> r in mem && Shaped(mem[r]))
        invariant n == |Flat(mem, Append(pre, Cons(i, Nil)))| && n < 0x10000
        decreases post
      {
        ShapedIs(mem[r]);
        NoWrap(n, mem[r].len);
        CursorStep(mem, l, pre, i, post);
        CursorHead(mem, l, Append(pre, Cons(i, Nil)), r, post.rest);
        CursorStep(mem, l, Append(pre, Cons(i, Nil)), r, post.rest);
        pre, post := Append(pre, Cons(i, Nil)), post.rest;
        n := Cut16(n + mem[r].len);
        i := r;
        r := Behind(i, l, pre, post);
      }
      if r != 0 {
        ShapedIs(mem[r]);
        NoWrap(n, mem[r].len);
      }
      CursorIs(mem, l, pre, i, post);
      back := post.rest;
    }

    /** The node behind `i`. */
    method Behind(i: nat, ghost l: List, ghost pre: List, ghost post: List) returns (r: nat)
      requires Valid() && Cursor(mem, l, pre, i, post) && i in mem && i != 0 && post.Cons? && Shaped(mem[i])
      ensures r == mem[i].next && (r != 0 ==> r in mem && Shaped(mem[r]))
    {
      hide Good, Chain, Cursor, Shaped;
      r := mem[i].next;
      CursorStep(mem, l, pre, i, post);
      CursorHead(mem, l, Append(pre, Cons(i, Nil)), r, post.rest);
      if r != 0 { ShapedAt(mem, ext, avail, poolSize, r); }
    }

    /** Cut behind `i`; if something follows, take its length off the lengths in front. */
    method CutBehind(p: nat, ghost l: List, i: nat, r: nat, ghost pre: List, ghost back: List) returns (rest: nat)
      requires Valid() && Chain(mem, p, l) && TotOk(mem, l) && p != 0
      requires l == Append(pre, Cons(i, back)) && i in mem && i != 0 && mem[i].next == r && Chain(mem, r, back) && (r != 0 ==> r in mem)
      requires |Flat(mem, Append(pre, Cons(i, Nil)))| < 0x10000
      modifies this`mem, this`ext
      ensures Valid() && rest == r && ext == WithToken(old(ext), r) && Kept(old(mem), mem, Nodes(l))
      ensures var front := Append(pre, Cons(i, Nil));
              && l == Append(front, back) && Chain(mem, p, front) && Chain(mem, r, back)
              && Flat(mem, front) + Flat(mem, back) == Flat(old(mem), l) && Flat(mem, front) == Flat(old(mem), front)
              && TotOk(mem, front) && TotOk(mem, back)
      ensures r == 0 ==> mem == old(mem)
      ensures p in mem && p in old(mem) && mem[p].fin == old(mem)[p].fin
      ensures r != 0 ==> r in mem && r in old(mem) && mem[r] == old(mem)[r] && r in Nodes(l)
    {
      hide Good, Flat, Chain, Append, TotOk, Nodes, Kept, WithToken, SplitAt, Bumped, Lengthened;
      ghost var mem0, front := mem, Append(pre, Cons(i, Nil));
      CutLink(mem, ext, avail, poolSize, i);
      mem := mem[i := mem[i].(next := 0)];
      ext := WithToken(ext, r);
      ghost var mem1 := mem;
      var d := 0;
      FrontChain(mem0, mem1, p, l, pre, i, r, back);
      if r != 0 {
        d := -(mem[r].tot as int);
        Retotal(p, d, front);
      } else {
        BumpNothing(mem, ext, avail, poolSize, Nodes(front));
        assert mem == mem0;
      }
      SplitIs(mem0, mem1, mem, p, l, pre, i, r, back, d);
      NonNull(mem0, r, back);
      SplitContents(mem0, mem, p, l, pre, i, r, back, d);
      SplitLengths(mem0, mem, p, l, pre, i, r, back, d);
      BackTot(mem0, mem, l, front, r, back);
      SplitFlags(mem0, mem, p, l, pre, i, r, back, d);
      rest := r;
    }

    /** Add `d` to every tot_len of a chain. */
    method Retotal(p: nat, d: int, ghost l: List)
      requires Valid() && Chain(mem, p, l)
      modifies this`mem
      ensures Valid() && Bumped(old(mem), mem, Nodes(l), d)
    {
      hide Good, Bumped, Lengthened, Chain;
      var i := p;
      ghost var rest, done: set<nat> := l, {};
      ghost var mem0 := mem;
      BumpedNone(mem, d);
      while i != 0
        invariant Bumped(mem0, mem, done, d) && Chain(mem0, i, rest)
        invariant Nodes(l) == done + Nodes(rest) && done !! Nodes(rest)
        decreases rest
      {
        NonNull(mem0, i, rest);
        NoRepeat(mem0, i, rest);
        BumpedOne(mem0, mem, done, d, i);
        mem := mem[i := Lengthened(mem[i], d)];
        done := done + {i};
        i, rest := mem[i].next, rest.rest;
      }
      NonNull(mem0, i, rest);
      BumpedGood(mem0, mem, Nodes(l), d, ext, avail, poolSize);
    }

    /** On to the next node of a chain. */
    method Onward(q: nat, off: nat, ghost l: List, ghost pre: List, ghost post: List)
      returns (r: nat, off': nat, ghost pre': List, ghost post': List)
      requires Valid() && Cursor(mem, l, pre, q, post) && q in mem && q != 0 && off == mem[q].len
      ensures Cursor(mem, l, pre', r, post') && off' == 0 && |Flat(mem, pre')| == |Flat(mem, pre)| + off
      ensures (r != 0 ==> r in mem) && Length(post') < Length(post)
    {
      hide Good, Flat, Chain, Cursor, Shaped, Append;
      CursorHead(mem, l, pre, q, post);
      ShapedAt(mem, ext, avail, poolSize, q);
      CursorStep(mem, l, pre, q, post);
      r, off', pre', post' := mem[q].next, 0, Append(pre, Cons(q, Nil)), post.rest;
      CursorHead(mem, l, pre', r, post');
    }

    /** Cut the head off a chain and give up the reference to it. */
    method DropHead(f: nat, ghost l: List, ghost base: multiset<nat>) returns (p: nat)
      requires Valid() && Chain(mem, f, l) && f != 0 && f in mem && ext == WithToken(base, f)
      modifies this`mem, this`avail, this`ext
      ensures Valid() && ext == WithToken(base, p) && p == old(mem)[f].next && mem - {f} == old(mem) - {f}
    {
      hide Good, Released, Shaped;
      p := mem[f].next;
      ghost var mem0 := mem;
      CutLink(mem, ext, avail, poolSize, f);
      mem := mem[f := mem[f].(next := 0)];
      ext := WithToken(ext, p);
      SingleReleased(mem, f);
      var count := Free(f, Cons(f, Nil));
      assert ext == WithToken(base, p);
      assert mem - {f} == mem0 - {f};
    }

    /** Deallocate a node whose last reference is given up; its link is now to be given up. */
    method ReleaseNode(p: nat, ghost l: List, ghost base: multiset<nat>)
      requires Valid() && Chain(mem, p, l) && p != 0 && ext == WithToken(base, p) && p in mem && mem[p].ref == 1
      modifies this`mem, this`avail, this`ext
      ensures Valid() && mem == old(mem) - {p} && ext == WithToken(base, old(mem)[p].next)
      ensures Chain(mem, old(mem)[p].next, l.rest) && Run(mem, l.rest) == Run(old(mem), l.rest)
    {
      hide Good;
      var q := mem[p].next;
      ReleaseKeepsGood(mem, ext, avail, poolSize, p, base);
      UnlinkHead(mem, p, l);
      if mem[p].pool { avail := avail + 1; }
      ext := WithToken(base, q);
      mem := mem - {p};
    }

    /** Give up a reference that is not the last. */
    method DropReference(p: nat, ghost base: multiset<nat>)
      requires Valid() && p != 0 && ext == WithToken(base, p) && p in mem && mem[p].ref > 1
      modifies this`mem, this`ext
      ensures Valid() && mem == old(mem)[p := old(mem)[p].(ref := old(mem)[p].ref - 1)] && ext == base
    {
      hide Good;
      DropKeepsGood(mem, ext, avail, poolSize, p, base);
      mem := mem[p := mem[p].(ref := mem[p].ref - 1)];
      ext := base;
    }
  }

  /** pbuf_dechain can return the address of a deallocated pbuf: 65535 bytes in pbufs of 255 make a
      chain of 257 with a tail of 256, and an u8_t does not tell their number from none. */
  method DechainDangles(dust: seq<Byte>) returns (ps: Pbufs, q: nat)
    requires |dust| == 255
    ensures q != 0 && q !in ps.mem
  {
    hide *;
    ps := new Pbufs(257);
    NeededFull(257);
    var p, l := ps.AllocPool(65535, 0, 255, dust);
    SoleTail(ps.mem, p, l);
    q := ps.Dechain(p, l);
  }

  lemma SoleTail(mem: Mem, p: nat, l: List)
    requires Chain(mem, p, l) && p != 0 && Sole(mem, l) && Length(l) > 1
    ensures p in mem && l.Cons? && mem[p].next != 0 && Run(mem, l.rest) == Length(l) - 1
  {
    NonNull(mem, p, l);
    NonNull(mem, mem[p].next, l.rest);
    SoleRun(mem, l.rest);
  }

  /** pbuf_add_header can make the length of a pbuf wrap: behind a pbuf of 65535 bytes a further byte
      makes tot_len 0, and ten bytes of header leave a pbuf of nine. Hiding them again is refused. */
  method HeaderWraps(dust: seq<Byte>) returns (ps: Pbufs, p: nat, added: bool, removed: bool)
    requires |dust| == 65600
    ensures p in ps.mem && ps.mem[p].len == 9 && added && !removed
  {
    hide Good, Joined, Chain, Nodes, Flat, TotOk, Append, Last;
    ps := new Pbufs(0);
    p := ps.AllocRam(65535, 64, 16, 65536, 0x1_0000_0000, true, dust);
    var t := ps.AllocRam(1, 0, 16, 4, 0x1_0000_0000, true, dust[..4]);
    ghost var lh, lt, mem0 := Cons(p, Nil), Cons(t, Nil), ps.mem;
    TwoAlone(ps.mem, p, t);
    ps.Cat(p, t, lh, lt);
    JoinedLengths(mem0, ps.mem, p, lh, t, lt);
    var err := ps.AddHeader(p, 10);
    added := !err;
    err := ps.RemoveHeader(p, 10);
    removed := !err;
  }

  lemma JoinedLengths(mem: Mem, mem': Mem, p: nat, lh: List, t: nat, lt: List)
    requires Joined(mem, mem', p, lh, t, lt) && lh == Cons(p, Nil) && p in mem
    ensures p in mem' && mem'[p].off == mem[p].off && mem'[p].len == mem[p].len && mem'[p].tot == Cut16(mem[p].tot + mem[t].tot)
  {
  }

  lemma ChainShaped(mem: Mem, ext: multiset<nat>, avail: nat, poolSize: nat, p: nat, l: List)
    requires Good(mem, ext, avail, poolSize) && Chain(mem, p, l)
    ensures ShapedList(mem, l) && Nodes(l) <= mem.Keys
  {
    hide Good, Shaped;
    ChainNodes(mem, p, l);
    forall x | x in Nodes(l) && x in mem ensures Shaped(mem[x]) { ShapedAt(mem, ext, avail, poolSize, x); }
  }

  lemma TwoAlone(mem: Mem, p: nat, t: nat)
    requires p in mem && t in mem && p != t && p != 0 && t != 0 && mem[p].next == 0 && mem[t].next == 0
    ensures Chain(mem, p, Cons(p, Nil)) && Chain(mem, t, Cons(t, Nil)) && Last(Cons(p, Nil)) !in Nodes(Cons(t, Nil))
  {
    NilChain(mem);
  }
}
