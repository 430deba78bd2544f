/** What the operations of src/lib/liblwip/core/pbuf.c do to the graph of module PbufGraph, as
    predicates and functions on memories, and the proofs that they keep the graph in order. */
module PbufSpec {
  import opened Bytes
  import opened PbufGraph

  ghost predicate AllShaped(mem: Mem) { forall a | a in mem :: Shaped(mem[a]) }

  ghost function PoolNodes(mem: Mem): set<nat> { set a | a in mem && mem[a].pool }

  /** The counts are right, every node is well shaped, and no pool element is missing. */
  ghost predicate Good(mem: Mem, ext: multiset<nat>, avail: nat, size: nat) {
    Ok(mem, ext) && AllShaped(mem) && avail + |PoolNodes(mem)| == size
  }

  /** Nothing but tot_len fields differ. */
  ghost predicate SameButTot(mem: Mem, mem': Mem) {
    mem'.Keys == mem.Keys && forall a | a in mem :: mem'[a] == mem[a].(tot := mem'[a].tot)
  }

  lemma TotChangeKeepsOk(mem: Mem, mem': Mem, ext: multiset<nat>)
    requires Ok(mem, ext) && SameButTot(mem, mem')
    ensures Ok(mem', ext) && PoolNodes(mem') == PoolNodes(mem)
  {
    forall a | a in mem' ensures NodeOk(mem', ext, a) {
      assert NodeOk(mem, ext, a);
      assert Preds(mem', a) == Preds(mem, a);
    }
    LinksClosed(mem, ext);
    hide NodeOk;
    SameLinksAcyclic(mem, mem');
  }

  /** Chains that share a node end in the same node. */
  lemma {:induction false} SharedTail(mem: Mem, h: nat, lh: List, t: nat, lt: List, x: nat)
    requires Chain(mem, h, lh) && Chain(mem, t, lt) && x in Nodes(lh) && x in Nodes(lt)
    ensures Last(lh) in Nodes(lt)
    decreases lh
  {
    if lh.a == x {
      var m := SubChain(mem, t, lt, x);
      ChainUnique(mem, x, lh, m);
      ChainNodes(mem, h, lh);
    } else {
      SharedTail(mem, mem[h].next, lh.rest, t, lt, x);
    }
  }

  /** Exchanging the tail of a chain and adding the difference of the lengths to every tot_len
      before it keeps the lengths right. */
  lemma {:induction false} RetailTot(mem: Mem, mem': Mem, l: List, m: List, m': List, d: int)
    requires TotOk(mem, Append(l, m)) && TotOk(mem', m')
    requires Nodes(l) <= mem.Keys && Nodes(l) <= mem'.Keys
    requires forall x | x in Nodes(l) :: Payload(mem'[x]) == Payload(mem[x])
    requires forall x | x in Nodes(l) :: mem'[x].tot == Cut16(mem[x].tot + d)
    requires Cut16(|Flat(mem', m')|) == Cut16(|Flat(mem, m)| + d)
    ensures TotOk(mem', Append(l, m'))
  {
    if l.Cons? {
      assert l.a in mem' && mem'[l.a].tot == Cut16(|Flat(mem', Append(l, m'))|) by {
        FlatFrame(mem, mem', l);
        FlatAppend(mem', l, m');
        FlatAppend(mem, l, m);
        hide Cut16, Append, Payload;
        AddCut(|Flat(mem, l)| + |Flat(mem, m)|, d);
        SumCut(|Flat(mem, l)|, |Flat(mem, m)| + d, |Flat(mem', m')|);
      }
      hide Flat, Cut16, Payload;
      RetailTot(mem, mem', l.rest, m, m', d);
    }
  }

  lemma SumCut(x: int, y: int, z: int)
    requires Cut16(y) == Cut16(z)
    ensures Cut16(x + y) == Cut16(x + z)
  {
  }

  lemma AddCut(x: int, y: int)
    ensures Cut16(Cut16(x) + y) == Cut16(x + y)
  {
  }

  lemma RefKeepsOk(mem: Mem, ext: multiset<nat>, p: nat)
    requires Ok(mem, ext) && p in mem
    ensures p != 0 && Ok(mem[p := mem[p].(ref := mem[p].ref + 1)], WithToken(ext, p))
  {
    var mem' := mem[p := mem[p].(ref := mem[p].ref + 1)];
    forall a | a in mem' ensures NodeOk(mem', WithToken(ext, p), a) {
      assert NodeOk(mem, ext, a);
      assert Preds(mem', a) == Preds(mem, a);
    }
    LinksClosed(mem, ext);
    hide NodeOk;
    SameLinksAcyclic(mem, mem');
  }

  /** The outcome of pbuf_cat: one chain with the contents of both, its lengths right if they
      were right before; no other node is touched. */
  ghost predicate Joined(mem: Mem, mem': Mem, h: nat, lh: List, t: nat, lt: List) {
    && Chain(mem', h, Append(lh, lt))
    && Flat(mem', Append(lh, lt)) == Flat(mem, lh) + Flat(mem, lt)
    && (TotOk(mem, lh) && TotOk(mem, lt) ==> TotOk(mem', Append(lh, lt)))
    && t in mem && Raised(mem, mem', lh, mem[t].tot)
  }

  /** The nodes of `lh` keep all but their links and `d` more in tot_len; all others are kept. */
  ghost predicate Raised(mem: Mem, mem': Mem, lh: List, d: nat) {
    && mem'.Keys == mem.Keys
    && (forall a | a in mem && a !in Nodes(lh) :: mem'[a] == mem[a])
    && forall a | a in mem && a in Nodes(lh) :: mem'[a] == Lengthened(mem[a], d).(next := mem'[a].next)
  }

  /** A node with `d` added to its tot_len. */
  function Lengthened(n: Node, d: int): (r: Node)
    ensures r == n.(tot := r.tot) && r.tot == Cut16(n.tot + d)
  {
    n.(tot := Cut16(n.tot + d))
  }

  /** `d` has been added to the tot_len of the nodes in `done`. */
  ghost predicate Bumped(mem: Mem, mem': Mem, done: set<nat>, d: int) {
    && mem'.Keys == mem.Keys
    && forall a | a in mem :: mem'[a] == if a in done then Lengthened(mem[a], d) else mem[a]
  }

  lemma Separate(mem: Mem, h: nat, lh: List, t: nat, lt: List)
    requires Chain(mem, h, lh) && Chain(mem, t, lt) && h != 0 && t != 0 && Last(lh) !in Nodes(lt)
    ensures Nodes(lh) !! Nodes(lt) && t in mem && t in Nodes(lt) && lh.Cons? && lt.Cons?
  {
    forall x | x in Nodes(lh) ensures x !in Nodes(lt) {
      if x in Nodes(lt) { SharedTail(mem, h, lh, t, lt, x); }
    }
  }

  lemma StepAlong(mem: Mem, p: nat, l: List)
    requires Chain(mem, p, l) && l.Cons? && mem[p].next != 0
    ensures l.rest.Cons? && p !in Nodes(l.rest) && Last(l.rest) == Last(l) && Chain(mem, mem[p].next, l.rest)
    ensures Nodes(l) == {p} + Nodes(l.rest) && mem[p].next in mem
  {
    NoRepeat(mem, p, l);
  }

  lemma LastAlone(mem: Mem, p: nat, l: List)
    requires Chain(mem, p, l) && l.Cons? && mem[p].next == 0
    ensures l == Cons(p, Nil) && Last(l) == p && Nodes(l) == {p}
  {
  }

  lemma BumpedNone(mem: Mem, d: int)
    ensures Bumped(mem, mem, {}, d)
  {
  }

  lemma BumpedNode(mem: Mem, mem': Mem, done: set<nat>, d: int, a: nat)
    requires Bumped(mem, mem', done, d) && a in mem && a !in done
    ensures mem'.Keys == mem.Keys && mem'[a] == mem[a]
  {
  }

  lemma BumpedMore(mem: Mem, mem': Mem, done: set<nat>, d: int, p: nat, t: nat)
    requires Bumped(mem, mem', done, d) && p in mem && p !in done && t in mem && t !in done && p != t && d == mem[t].tot
    ensures p in mem' && t in mem' && mem'[p] == mem[p] && mem'[t] == mem[t]
    ensures Bumped(mem, mem'[p := Lengthened(mem'[p], mem'[t].tot)], done + {p}, d)
    ensures forall x | x in mem :: x in mem' && mem'[x].next == mem[x].next
  {
  }

  lemma BumpedGood(mem: Mem, mem': Mem, done: set<nat>, d: int, ext: multiset<nat>, avail: nat, size: nat)
    requires Good(mem, ext, avail, size) && Bumped(mem, mem', done, d)
    ensures Good(mem', ext, avail, size)
  {
    TotChangeKeepsOk(mem, mem', ext);
    hide Ok;
  }

  /** The last write of pbuf_cat. */
  lemma CatHooks(mem0: Mem, mem1: Mem, mem2: Mem, ext: multiset<nat>, avail: nat, size: nat, h: nat, lh: List, t: nat, lt: List)
    requires Good(mem0, ext, avail, size) && t in mem0 && lh.Cons? && lt.Cons?
    requires Chain(mem0, h, lh) && Chain(mem0, t, lt) && t in ext && Nodes(lh) !! Nodes(lt)
    requires var p := Last(lh);
             && Bumped(mem0, mem1, Nodes(lh) - {p}, mem0[t].tot) && p in mem1
             && mem2 == mem1[p := Lengthened(mem1[p], mem0[t].tot).(next := t)]
    ensures Good(mem2, ext - multiset{t}, avail, size)
    ensures Joined(mem0, mem2, h, lh, t, lt)
  {
    hide Good, Bumped, Cut16, Flat, TotOk, Chain, Last, Nodes, Append;
    CatContents(mem0, mem1, mem2, h, lh, t, lt, Last(lh));
    CatLinks(mem0, mem1, mem2, ext, avail, size, h, lh, t, lt);
  }

  lemma CatLinks(mem0: Mem, mem1: Mem, mem2: Mem, ext: multiset<nat>, avail: nat, size: nat, h: nat, lh: List, t: nat, lt: List)
    requires Good(mem0, ext, avail, size) && t in mem0 && lh.Cons? && lt.Cons?
    requires Chain(mem0, h, lh) && Chain(mem0, t, lt) && t in ext && Nodes(lh) !! Nodes(lt)
    requires var p := Last(lh);
             && Bumped(mem0, mem1, Nodes(lh) - {p}, mem0[t].tot) && p in mem1
             && mem2 == mem1[p := Lengthened(mem1[p], mem0[t].tot).(next := t)]
    ensures Good(mem2, ext - multiset{t}, avail, size) && Chain(mem2, h, Append(lh, lt))
  {
    hide Good, Bumped, Chain, Nodes, Append, Last, Shaped;
    var p, done := Last(lh), Nodes(lh) - {Last(lh)};
    BumpedGood(mem0, mem1, done, mem0[t].tot, ext, avail, size);
    BumpedChain(mem0, mem1, done, mem0[t].tot, h, lh);
    BumpedChain(mem0, mem1, done, mem0[t].tot, t, lt);
    ChainNodes(mem1, h, lh);
    ShapedHook(mem1, ext, avail, size, p, mem0[t].tot, t);
    HookGood(mem1, ext, avail, size, p, t, mem2[p], lt);
    UpdatedChain(mem1, p, mem2[p], t, lt);
    var m := HookChain(mem1, mem2, p, t, lt, h, lh);
  }

  lemma BumpedChain(mem: Mem, mem': Mem, done: set<nat>, d: int, a: nat, l: List)
    requires Bumped(mem, mem', done, d) && Chain(mem, a, l)
    ensures Chain(mem', a, l)
  {
    ChainNodes(mem, a, l);
    hide Chain, Cut16, Last;
    ChainFrame(mem, mem', a, l);
  }

  /** A chain does not feel a change to a node outside it. */
  lemma UpdatedChain(mem: Mem, p: nat, n: Node, a: nat, l: List)
    requires Chain(mem, a, l) && p !in Nodes(l)
    ensures Chain(mem[p := n], a, l)
  {
    ChainNodes(mem, a, l);
    hide Chain;
    ChainFrame(mem, mem[p := n], a, l);
  }

  lemma ShapedHook(mem: Mem, ext: multiset<nat>, avail: nat, size: nat, p: nat, d: int, t: nat)
    requires Good(mem, ext, avail, size) && p in mem
    ensures Shaped(Lengthened(mem[p], d).(next := t)) && p != 0
  {
  }

  /** What pbuf_cat does to the two chains, node by node. */
  lemma CatNodes(mem0: Mem, mem1: Mem, mem2: Mem, lh: List, lt: List, p: nat)
    requires lh.Cons? && lt.Cons? && lt.a in mem0 && p in Nodes(lh) && p in mem1 && Nodes(lh) !! Nodes(lt)
    requires Nodes(lh) <= mem0.Keys && Nodes(lt) <= mem0.Keys
    requires Bumped(mem0, mem1, Nodes(lh) - {p}, mem0[lt.a].tot)
    requires mem2 == mem1[p := Lengthened(mem1[p], mem0[lt.a].tot).(next := lt.a)]
    ensures Raised(mem0, mem2, lh, mem0[lt.a].tot)
  {
    hide Cut16, Lengthened, Nodes;
    forall x | x in Nodes(lh) ensures mem2[x] == Lengthened(mem0[x], mem0[lt.a].tot).(next := mem2[x].next) {}
  }

  lemma CatFlat(mem0: Mem, mem2: Mem, lh: List, d: nat, lt: List)
    requires Nodes(lh) <= mem0.Keys && Nodes(lt) <= mem0.Keys && Nodes(lh) !! Nodes(lt) && Raised(mem0, mem2, lh, d)
    ensures Flat(mem2, Append(lh, lt)) == Flat(mem0, lh) + Flat(mem0, lt)
  {
    hide Flat, Nodes, Append, Lengthened, Cut16, TotOk;
    FlatFrame(mem0, mem2, lh);
    FlatFrame(mem0, mem2, lt);
    FlatAppend(mem2, lh, lt);
  }

  lemma CatTot(mem0: Mem, mem2: Mem, lh: List, t: nat, lt: List)
    requires lh.Cons? && lt.Cons? && lt.a == t && t in mem0 && TotOk(mem0, lh) && TotOk(mem0, lt)
    requires Nodes(lh) <= mem0.Keys && Nodes(lt) <= mem0.Keys && Nodes(lh) !! Nodes(lt) && Raised(mem0, mem2, lh, mem0[t].tot)
    ensures TotOk(mem2, Append(lh, lt))
  {
    hide Cut16, Flat, TotOk, Nodes, Append, Lengthened;
    FlatFrame(mem0, mem2, lt);
    HeadTot(mem0, lt);
    NilTail(mem0, lh);
    CutSmall(|Flat(mem0, lt)|);
    RetailTot(mem0, mem2, lh, Nil, lt, mem0[t].tot);
  }

  lemma CatContents(mem0: Mem, mem1: Mem, mem2: Mem, h: nat, lh: List, t: nat, lt: List, p: nat)
    requires lh.Cons? && lt.Cons? && t in mem0 && p == Last(lh) && p in mem1 && Nodes(lh) !! Nodes(lt)
    requires Chain(mem0, h, lh) && Chain(mem0, t, lt)
    requires Bumped(mem0, mem1, Nodes(lh) - {p}, mem0[t].tot)
    requires mem2 == mem1[p := Lengthened(mem1[p], mem0[t].tot).(next := t)]
    ensures Flat(mem2, Append(lh, lt)) == Flat(mem0, lh) + Flat(mem0, lt)
    ensures TotOk(mem0, lh) && TotOk(mem0, lt) ==> TotOk(mem2, Append(lh, lt))
    ensures Raised(mem0, mem2, lh, mem0[t].tot)
  {
    hide Cut16, Flat, TotOk, Bumped, Last, Nodes, Append, Payload, Lengthened, Raised;
    ChainNodes(mem0, h, lh);
    ChainNodes(mem0, t, lt);
    NonNull(mem0, t, lt);
    hide Chain;
    CatNodes(mem0, mem1, mem2, lh, lt, p);
    CatFlat(mem0, mem2, lh, mem0[t].tot, lt);
    if TotOk(mem0, lh) && TotOk(mem0, lt) { CatTot(mem0, mem2, lh, t, lt); }
  }

  lemma HeadTot(mem: Mem, l: List)
    requires l.Cons? && TotOk(mem, l)
    ensures l.a in mem && mem[l.a].tot == Cut16(|Flat(mem, l)|)
  {
  }

  lemma HookGood(mem: Mem, ext: multiset<nat>, avail: nat, size: nat, p: nat, t: nat, n: Node, lt: List)
    requires Good(mem, ext, avail, size) && p in mem && mem[p].next == 0 && t in ext
    requires n.next == t && n.ref == mem[p].ref && n.pool == mem[p].pool && Shaped(n)
    requires Chain(mem, t, lt) && p !in Nodes(lt)
    ensures Good(mem[p := n], ext - multiset{t}, avail, size)
  {
    HookKeepsOk(mem, ext, p, t, n, lt);
    PoolUpdate(mem, p, n);
    hide Ok;
  }

  lemma ReleaseKeepsGood(mem: Mem, ext: multiset<nat>, avail: nat, size: nat, p: nat, base: multiset<nat>)
    requires Good(mem, ext, avail, size) && p in mem && mem[p].ref == 1 && p != 0 && ext == WithToken(base, p)
    ensures Good(mem - {p}, WithToken(base, mem[p].next), avail + (if mem[p].pool then 1 else 0), size)
  {
    ReleaseKeepsOk(mem, ext, p);
    PoolRemove(mem, p);
    assert ext - multiset{p} == base;
    hide Ok;
  }

  lemma DropKeepsGood(mem: Mem, ext: multiset<nat>, avail: nat, size: nat, p: nat, base: multiset<nat>)
    requires Good(mem, ext, avail, size) && p in mem && mem[p].ref > 1 && p != 0 && ext == WithToken(base, p)
    ensures Good(mem[p := mem[p].(ref := mem[p].ref - 1)], base, avail, size)
  {
    DropKeepsOk(mem, ext, p);
    PoolUpdate(mem, p, mem[p].(ref := mem[p].ref - 1));
    assert ext - multiset{p} == base;
    hide Ok;
  }

  lemma RefKeepsGood(mem: Mem, ext: multiset<nat>, avail: nat, size: nat, p: nat)
    requires Good(mem, ext, avail, size) && p in mem
    ensures p != 0 && Good(mem[p := mem[p].(ref := mem[p].ref + 1)], WithToken(ext, p), avail, size)
  {
    RefKeepsOk(mem, ext, p);
    PoolUpdate(mem, p, mem[p].(ref := mem[p].ref + 1));
    hide Ok;
  }

  /** `base` and a reference to `p`, unless that is NULL. */
  ghost function WithToken(base: multiset<nat>, p: nat): multiset<nat> {
    base + if p == 0 then multiset{} else multiset{p}
  }

  /** What an u8_t keeps of `n`. */
  function Cut8(n: nat): nat { n % 256 }

  function NextCount(count: nat): nat { (count + 1) % 256 }

  lemma CountCut(n: nat)
    ensures NextCount(Cut8(n)) == Cut8(n + 1) && Cut8(0) == 0
  {
  }

  lemma NullNotHeld(mem: Mem, ext: multiset<nat>, avail: nat, size: nat)
    requires Good(mem, ext, avail, size)
    ensures 0 !in ext && 0 !in mem && forall a | a in ext :: a in mem
  {
  }

  lemma NodeRef(mem: Mem, ext: multiset<nat>, avail: nat, size: nat, p: nat)
    requires Good(mem, ext, avail, size) && p in mem
    ensures mem[p].ref > 0
  {
    assert NodeOk(mem, ext, p);
  }

  /** Taking the head off a chain leaves the rest a chain with the same counts. */
  lemma UnlinkHead(mem: Mem, p: nat, l: List)
    requires Chain(mem, p, l) && p != 0
    ensures Chain(mem - {p}, mem[p].next, l.rest) && Run(mem - {p}, l.rest) == Run(mem, l.rest)
  {
    NoRepeat(mem, p, l);
    ChainNodes(mem, mem[p].next, l.rest);
    ChainFrame(mem, mem - {p}, mem[p].next, l.rest);
    RunFrame(mem, mem - {p}, l.rest);
  }

  lemma PoolRemove(mem: Mem, p: nat)
    requires p in mem
    ensures |PoolNodes(mem - {p})| == |PoolNodes(mem)| - if mem[p].pool then 1 else 0
  {
    assert PoolNodes(mem - {p}) == PoolNodes(mem) - {p};
  }

  lemma PoolUpdate(mem: Mem, p: nat, n: Node)
    requires p in mem && n.pool == mem[p].pool
    ensures |PoolNodes(mem[p := n])| == |PoolNodes(mem)|
  {
    assert PoolNodes(mem[p := n]) == PoolNodes(mem);
  }

  // ---------------------------------------------------------------- giving up a reference

  /** pbuf_free touches nothing outside the chain, and only counts within it; the head goes
      exactly if the run of last references is not empty. */
  lemma ReleasedFrame(mem: Mem, p: nat, l: List)
    requires Chain(mem, p, l)
    ensures var r := Released(mem, l);
            && r.Keys <= mem.Keys
            && (forall a | a in mem && a !in Nodes(l) :: a in r && r[a] == mem[a])
            && (forall a | a in r :: r[a] == mem[a].(ref := r[a].ref))
            && (p != 0 ==> (p in r <==> Run(mem, l) == 0))
  {
    var k := Run(mem, l);
    ReleasedExactly(mem, p, l);
    DropNodes(l, k);
    if l.Cons? && k > 0 { assert p in Front(l, k); }
    hide Released;
  }

  lemma {:induction false} DropNodes(l: List, k: nat)
    ensures Drop(l, k).Cons? ==> Drop(l, k).a in Nodes(l)
  {
    if l.Cons? && k > 0 { DropNodes(l.rest, k - 1); }
  }

  // ---------------------------------------------------------------- pbuf_dechain

  /** The memory when pbuf_dechain has cut `p` off its tail. */
  ghost function CutOff(mem: Mem, p: nat): Mem
    requires p in mem && mem[p].next in mem && mem[p].next != p
  {
    var q := mem[p].next;
    var mem1 := mem[q := mem[q].(tot := Cut16(mem[p].tot - mem[p].len))];
    mem1[p := mem1[p].(next := 0, tot := mem1[p].len)]
  }

  lemma CutOffGood(mem: Mem, ext: multiset<nat>, avail: nat, size: nat, p: nat, l: List)
    requires Good(mem, ext, avail, size) && Chain(mem, p, l) && l.Cons? && mem[p].next != 0
    ensures mem[p].next in mem && mem[p].next != p && mem[p].len < 0x10000 && Shaped(mem[p])
    ensures Good(CutOff(mem, p), ext + multiset{mem[p].next}, avail, size)
    ensures Chain(CutOff(mem, p), mem[p].next, l.rest) && p !in Nodes(l.rest)
  {
    hide Good;
    var q := mem[p].next;
    NoRepeat(mem, p, l);
    NonNull(mem, q, l.rest);
    CutOffChain(mem, p, l);
    hide Chain, Nodes;
    ShapedAt(mem, ext, avail, size, p);
    var tot := Cut16(mem[p].tot - mem[p].len);
    hide Cut16;
    RetotGood(mem, ext, avail, size, q, tot);
    var mem1 := mem[q := mem[q].(tot := tot)];
    CutGood(mem1, ext, avail, size, p, mem1[p].(next := 0, tot := mem1[p].len));
  }

  lemma CutOffChain(mem: Mem, p: nat, l: List)
    requires Chain(mem, p, l) && l.Cons? && mem[p].next in mem && mem[p].next != p && p !in Nodes(l.rest)
    ensures Chain(CutOff(mem, p), mem[p].next, l.rest)
  {
    var q := mem[p].next;
    ChainNodes(mem, q, l.rest);
    hide Chain, Nodes, Cut16;
    ChainFrame(mem, CutOff(mem, p), q, l.rest);
  }

  lemma RetotGood(mem: Mem, ext: multiset<nat>, avail: nat, size: nat, q: nat, tot: nat)
    requires Good(mem, ext, avail, size) && q in mem && tot < 0x10000
    ensures Good(mem[q := mem[q].(tot := tot)], ext, avail, size)
  {
    assert Shaped(mem[q]);
    TotChangeKeepsOk(mem, mem[q := mem[q].(tot := tot)], ext);
    hide Ok;
  }

  lemma CutGood(mem: Mem, ext: multiset<nat>, avail: nat, size: nat, p: nat, n: Node)
    requires Good(mem, ext, avail, size) && p in mem && mem[p].next != 0
    requires n.next == 0 && n.ref == mem[p].ref && n.pool == mem[p].pool && Shaped(n)
    ensures Good(mem[p := n], ext + multiset{mem[p].next}, avail, size)
  {
    CutKeepsOk(mem, ext, p, n);
    PoolUpdate(mem, p, n);
    hide Ok;
  }

  /** Cutting keeps the tail's contents, and its lengths if the whole chain's were right. */
  lemma CutOffTail(mem: Mem, p: nat, l: List)
    requires Chain(mem, p, l) && l.Cons? && mem[p].next in mem && mem[p].next != p && mem[p].next != 0 && Shaped(mem[p])
    ensures Flat(CutOff(mem, p), l.rest) == Flat(mem, l.rest)
    ensures TotOk(mem, l) ==> TotOk(CutOff(mem, p), l.rest)
  {
    hide Flat, TotOk, Cut16, Nodes;
    var q := mem[p].next;
    NoRepeat(mem, p, l);
    ChainNodes(mem, q, l.rest);
    hide Chain;
    FlatFrame(mem, CutOff(mem, p), l.rest);
    if TotOk(mem, l) {
      TailTot(mem, p, l);
      TotOkRest(mem, l);
    }
  }

  lemma TotOkRest(mem: Mem, l: List)
    requires l.Cons? && TotOk(mem, l)
    ensures TotOk(mem, l.rest)
  {
  }

  lemma TailTot(mem: Mem, p: nat, l: List)
    requires Chain(mem, p, l) && l.Cons? && TotOk(mem, l) && mem[p].next in mem && mem[p].next != 0 && Shaped(mem[p])
    ensures mem[mem[p].next].tot == Cut16(mem[p].tot - mem[p].len)
  {
    var rest, len := |Flat(mem, l.rest)|, mem[p].len;
    assert TotOk(mem, l.rest) && l.rest.a == mem[p].next;
    assert |Flat(mem, l)| == len + rest;
    SubCut(len + rest, len);
  }

  lemma SubCut(x: int, y: int)
    ensures Cut16(Cut16(x) - y) == Cut16(x - y)
  {
  }

  lemma NonNull(mem: Mem, p: nat, l: List)
    requires Chain(mem, p, l)
    ensures p != 0 ==> p in mem && l.Cons? && l.a == p && Nodes(l) == {p} + Nodes(l.rest) && Chain(mem, mem[p].next, l.rest)
    ensures p == 0 ==> l.Nil?
  {
  }

  lemma JoinedFrame(mem: Mem, mem': Mem, h: nat, lh: List, t: nat, lt: List)
    requires Joined(mem, mem', h, lh, t, lt) && t in mem && t !in Nodes(lh)
    ensures mem'.Keys == mem.Keys && mem'[t] == mem[t] && Chain(mem', h, Append(lh, lt))
    ensures Flat(mem', Append(lh, lt)) == Flat(mem, lh) + Flat(mem, lt)
    ensures TotOk(mem, lh) && TotOk(mem, lt) ==> TotOk(mem', Append(lh, lt))
    ensures forall a | a in mem && a !in Nodes(lh) :: mem'[a] == mem[a]
  {
  }

  /** A count plays no part in chains and contents. */
  lemma RefKeepsContents(mem: Mem, t: nat, h: nat, l: List)
    requires t in mem && Chain(mem, h, l)
    ensures var mem' := mem[t := mem[t].(ref := mem[t].ref + 1)];
            Chain(mem', h, l) && Flat(mem', l) == Flat(mem, l) && TotOk(mem', l) == TotOk(mem, l)
  {
    var mem' := mem[t := mem[t].(ref := mem[t].ref + 1)];
    ChainNodes(mem, h, l);
    hide Chain, Flat, TotOk, Last;
    ChainFrame(mem, mem', h, l);
    FlatFrame(mem, mem', l);
  }

  lemma CutOffRun(mem: Mem, p: nat, l: List)
    requires Chain(mem, p, l) && l.Cons? && mem[p].next in mem && mem[p].next != p
    ensures Run(CutOff(mem, p), l.rest) == Run(mem, l.rest)
  {
    NoRepeat(mem, p, l);
    ChainNodes(mem, mem[p].next, l.rest);
    hide Run, Chain, Last, Cut16;
    RunFrame(mem, CutOff(mem, p), l.rest);
  }

  /** What is left when the tail of a cut has been released. */
  lemma CutOffReleased(mem: Mem, p: nat, l: List, mem': Mem, ext': multiset<nat>)
    requires Chain(mem, p, l) && l.Cons? && mem[p].next in mem && mem[p].next != p && mem[p].next != 0 && Shaped(mem[p])
    requires mem' == Released(CutOff(mem, p), l.rest) && Ok(mem', ext')
    requires Chain(CutOff(mem, p), mem[p].next, l.rest) && p !in Nodes(l.rest)
    ensures p in mem' && mem'[p] == mem[p].(next := 0, tot := mem[p].len)
    ensures var q := mem[p].next;
            var k := Run(mem, l.rest);
            && (q in mem' <==> k == 0)
            && (k == 0 ==> Chain(mem', q, l.rest) && Flat(mem', l.rest) == Flat(mem, l.rest))
            && (k == 0 && TotOk(mem, l) ==> TotOk(mem', l.rest))
    ensures forall a | a in mem && a !in Nodes(l) :: a in mem' && mem'[a] == mem[a]
  {
    hide Released, Flat, TotOk, Run, Ok, Cut16;
    NonNull(mem, p, l);
    var mem1, q := CutOff(mem, p), mem[p].next;
    ReleasedFrame(mem1, q, l.rest);
    CutOffRun(mem, p, l);
    CutOffTail(mem, p, l);
    NonNull(mem1, q, l.rest);
    if q in mem' { SurvivorsKeepChains(mem1, mem', ext', q, l.rest); }
  }

  lemma ShapedAt(mem: Mem, ext: multiset<nat>, avail: nat, size: nat, p: nat)
    requires Good(mem, ext, avail, size) && p in mem
    ensures Shaped(mem[p])
  {
  }

  lemma GoodIsOk(mem: Mem, ext: multiset<nat>, avail: nat, size: nat)
    requires Good(mem, ext, avail, size)
    ensures Ok(mem, ext)
  {
  }

  lemma {:induction false} NilTail(mem: Mem, l: List)
    ensures Append(l, Nil) == l && Flat(mem, Nil) == []
  {
    if l.Cons? { NilTail(mem, l.rest); }
  }

  lemma CutSmall(x: int)
    ensures Cut16(Cut16(x)) == Cut16(x) && (0 <= x < 0x10000 ==> Cut16(x) == x)
  {
  }

  // ---------------------------------------------------------------- headers

  /** A node with `inc` more bytes in front, as pbuf_add_header leaves it. */
  function Grown(n: Node, inc: nat): Node
    requires inc <= n.off
  {
    n.(off := n.off - inc, len := Cut16(n.len + inc), tot := Cut16(n.tot + inc))
  }

  /** A node without its first `dec` bytes, as pbuf_remove_header leaves it. */
  function Stripped(n: Node, dec: nat): Node
    requires dec <= n.len
  {
    n.(off := n.off + dec, len := n.len - dec, tot := Cut16(n.tot - dec))
  }

  /** pbuf_add_header refuses the request. */
  predicate GrowFails(n: Node, inc: nat) {
    inc > 0xFFFF || (inc != 0 && (Cut16(inc + n.tot) < inc || n.off < inc))
  }

  /** The test on tot_len notices exactly that it would wrap. */
  lemma GrowFailsExactly(n: Node, inc: nat)
    requires Shaped(n)
    ensures GrowFails(n, inc) <==> inc != 0 && (inc > n.off || n.tot + inc > 0xFFFF)
  {
  }

  predicate StripFails(n: Node, dec: nat) { dec > n.len }

  /** Revealing a header puts the bytes in front of the payload exactly if its 16-bit length
      does not wrap. The guard on tot_len gives that for every chain shorter than 64K. */
  lemma GrownPayload(n: Node, inc: nat)
    requires Shaped(n) && !GrowFails(n, inc)
    ensures Shaped(Grown(n, inc))
    ensures n.len + inc < 0x10000 <==> Payload(Grown(n, inc)) == n.buf[n.off - inc..n.off] + Payload(n)
    ensures n.len <= n.tot ==> n.len + inc < 0x10000
    ensures Grown(n, inc).tot == n.tot + inc
  {
    if n.len + inc < 0x10000 {
      assert n.buf[n.off - inc..n.off] + Payload(n) == n.buf[n.off - inc..n.off + n.len];
    }
  }

  lemma GrowNothing(n: Node)
    requires Shaped(n)
    ensures Grown(n, 0) == n && !GrowFails(n, 0)
  {
  }

  lemma StrippedPayload(n: Node, dec: nat)
    requires Shaped(n) && !StripFails(n, dec)
    ensures Shaped(Stripped(n, dec)) && Payload(Stripped(n, dec)) == Payload(n)[dec..]
  {
  }

  /** Revealing a header and hiding it again restores the pbuf exactly if the length does not
      wrap in between; when it wraps, hiding is refused. */
  lemma GrowThenStrip(n: Node, inc: nat)
    requires Shaped(n) && !GrowFails(n, inc)
    ensures n.len + inc < 0x10000 ==> !StripFails(Grown(n, inc), inc) && Stripped(Grown(n, inc), inc) == n
    ensures n.len + inc >= 0x10000 ==> StripFails(Grown(n, inc), inc)
  {
  }

  /** Hiding a header and revealing it again restores the pbuf exactly if it is no longer than
      tot_len; otherwise revealing is refused. */
  lemma StripThenGrow(n: Node, dec: nat)
    requires Shaped(n) && !StripFails(n, dec)
    ensures dec <= n.tot ==> !GrowFails(Stripped(n, dec), dec) && Grown(Stripped(n, dec), dec) == n
    ensures dec > n.tot ==> GrowFails(Stripped(n, dec), dec)
  {
  }

  /** A node may change its bytes and lengths freely as far as the counts are concerned. */
  lemma ReshapeGood(mem: Mem, ext: multiset<nat>, avail: nat, size: nat, p: nat, n: Node)
    requires Good(mem, ext, avail, size) && p in mem && Shaped(n)
    requires n.next == mem[p].next && n.ref == mem[p].ref && n.pool == mem[p].pool
    ensures Good(mem[p := n], ext, avail, size)
  {
    var mem' := mem[p := n];
    forall a | a in mem' ensures NodeOk(mem', ext, a) {
      assert NodeOk(mem, ext, a);
      assert Preds(mem', a) == Preds(mem, a);
    }
    LinksClosed(mem, ext);
    hide NodeOk;
    SameLinksAcyclic(mem, mem');
    PoolUpdate(mem, p, n);
    hide Acyclic;
  }

  // ---------------------------------------------------------------- pbuf_free_header

  /** `s` without its first `k` bytes. */
  function DropBytes(s: seq<Byte>, k: nat): seq<Byte> { if k <= |s| then s[k..] else [] }

  lemma DropBytesAppend(s: seq<Byte>, t: seq<Byte>, k: nat)
    ensures k >= |s| ==> DropBytes(s + t, k) == DropBytes(t, k - |s|)
    ensures k <= |s| ==> DropBytes(s + t, k) == s[k..] + t
    ensures DropBytes(s, 0) == s
  {
  }

  /** A chain loses its head: what follows is as before. */
  lemma HeadGone(mem: Mem, mem': Mem, p: nat, l: List)
    requires Chain(mem, p, l) && l.Cons? && mem' - {p} == mem - {p} && Shaped(mem[p])
    ensures Chain(mem', mem[p].next, l.rest) && Flat(mem', l.rest) == Flat(mem, l.rest)
    ensures TotOk(mem, l) ==> TotOk(mem', l.rest)
    ensures forall k: nat | k >= mem[p].len :: DropBytes(Flat(mem, l), k) == DropBytes(Flat(mem', l.rest), k - mem[p].len)
    ensures |Flat(mem, l)| == mem[p].len + |Flat(mem', l.rest)|
  {
    var r := l.rest;
    NoRepeat(mem, p, l);
    ChainNodes(mem, mem[p].next, r);
    assert |Payload(mem[p])| == mem[p].len && Flat(mem, l) == Payload(mem[p]) + Flat(mem, r);
    hide Flat, Chain, Cut16, Payload, Last;
    forall x | x in Nodes(r) ensures x in mem && x in mem' && mem'[x] == mem[x] {
      assert x in mem - {p};
    }
    ChainFrame(mem, mem', mem[p].next, r);
    FlatFrame(mem, mem', r);
    forall k: nat | k >= mem[p].len ensures DropBytes(Flat(mem, l), k) == DropBytes(Flat(mem', r), k - mem[p].len) {
      DropBytesAppend(Payload(mem[p]), Flat(mem', r), k);
    }
  }

  /** A chain's head loses its first `dec` bytes. */
  lemma HeadStripped(mem: Mem, p: nat, l: List, dec: nat)
    requires Chain(mem, p, l) && l.Cons? && Shaped(mem[p]) && dec <= mem[p].len
    ensures var mem' := mem[p := Stripped(mem[p], dec)];
            && Chain(mem', p, l) && Flat(mem', l) == DropBytes(Flat(mem, l), dec) && DropBytes(Flat(mem', l), 0) == Flat(mem', l)
            && (TotOk(mem, l) ==> TotOk(mem', l))
    ensures |Flat(mem, l)| >= mem[p].len
  {
    var mem', r := mem[p := Stripped(mem[p], dec)], l.rest;
    NoRepeat(mem, p, l);
    ChainNodes(mem, p, l);
    StrippedPayload(mem[p], dec);
    assert Flat(mem, l) == Payload(mem[p]) + Flat(mem, r) && Flat(mem', l) == Payload(mem'[p]) + Flat(mem', r);
    assert |Payload(mem[p])| == mem[p].len;
    if TotOk(mem, l) { SubCut(|Flat(mem, l)|, dec); }
    hide Flat, Chain, Cut16, Payload, Last;
    ChainFrame(mem, mem', p, l);
    FlatFrame(mem, mem', r);
    DropBytesAppend(Payload(mem[p]), Flat(mem, r), dec);
  }

  /** The memory when the only node of a chain has lost a reference. */
  lemma SingleReleased(mem: Mem, p: nat)
    requires p in mem
    ensures Released(mem, Cons(p, Nil)) - {p} == mem - {p}
  {
  }

  lemma CutLink(mem: Mem, ext: multiset<nat>, avail: nat, size: nat, f: nat)
    requires Good(mem, ext, avail, size) && f in mem
    ensures Good(mem[f := mem[f].(next := 0)], WithToken(ext, mem[f].next), avail, size)
  {
    ShapedAt(mem, ext, avail, size, f);
    hide Good;
    if mem[f].next != 0 {
      CutGood(mem, ext, avail, size, f, mem[f].(next := 0));
    } else {
      assert mem[f := mem[f].(next := 0)] == mem;
      assert WithToken(ext, 0) == ext;
    }
  }

  /** No node outside `s` has changed. */
  ghost predicate Kept(mem: Mem, mem': Mem, s: set<nat>) {
    forall a | a in mem && a !in s :: a in mem' && mem'[a] == mem[a]
  }

  lemma KeptMore(mem0: Mem, mem1: Mem, mem2: Mem, p: nat, s: set<nat>)
    requires Kept(mem0, mem1, s) && mem2 - {p} == mem1 - {p} && p in s
    ensures Kept(mem0, mem2, s)
  {
    forall a | a in mem0 && a !in s ensures a in mem2 && mem2[a] == mem0[a] {
      assert a in mem1 - {p};
    }
  }

  /** The nodes `gone` were given up and `left` bytes of `size` are still to go: each of them was
      needed, and those that follow are as before. */
  ghost predicate Dropping(mem0: Mem, mem: Mem, l: List, gone: List, rest: List, size: nat, left: nat) {
    && l == Append(gone, rest) && |Flat(mem0, gone)| + left == size
    && (gone.Cons? ==> Last(gone) in mem0 && |Flat(mem0, gone)| - mem0[Last(gone)].len < size)
    && forall a | a in Nodes(rest) :: a in mem0 && a in mem && mem[a] == mem0[a]
  }

  lemma DroppingMore(mem0: Mem, mem: Mem, mem': Mem, l: List, gone: List, p: nat, rest: List, size: nat, left: nat)
    requires Dropping(mem0, mem, l, gone, rest, size, left) && Chain(mem, p, rest) && rest.Cons? && Shaped(mem[p])
    requires left > 0 && left >= mem[p].len && mem' - {p} == mem - {p}
    ensures Dropping(mem0, mem', l, Append(gone, Cons(p, Nil)), rest.rest, size, left - mem[p].len)
  {
    NoRepeat(mem, p, rest);
    AppendMid(gone, p, rest.rest);
    FlatAppend(mem0, gone, Cons(p, Nil));
    AppendLast(gone, p);
    assert p in Nodes(rest);
    assert Flat(mem0, Cons(p, Nil)) == Payload(mem0[p]) + Flat(mem0, Nil) && Flat(mem0, Nil) == [];
    hide Flat, Chain, Append, Last;
    forall a | a in Nodes(rest.rest) ensures a in mem0 && a in mem' && mem'[a] == mem0[a] {
      assert a in Nodes(rest) && a != p;
      assert a in mem - {p};
    }
  }

  lemma DroppingStart(mem: Mem, p: nat, l: List, size: nat)
    requires Chain(mem, p, l)
    ensures Dropping(mem, mem, l, Nil, l, size, size)
  {
    ChainNodes(mem, p, l);
  }

  /** Which nodes of `l` pbuf_free_header gives up: as many as `size` bytes fill, the last of them
      needed for it; the node `p` that stays has more, or nothing was left to go. */
  ghost predicate GivenUp(mem: Mem, l: List, gone: List, p: nat, rest: List, size: nat) {
    && l == Append(gone, rest) && (gone.Cons? ==> Last(gone) in mem && |Flat(mem, gone)| - mem[Last(gone)].len < size)
    && |Flat(mem, gone)| <= size
    && (p != 0 ==> p in mem && (size == |Flat(mem, gone)| || size < |Flat(mem, gone)| + mem[p].len))
  }

  lemma DroppingEnds(mem0: Mem, mem: Mem, l: List, gone: List, p: nat, rest: List, size: nat, left: nat)
    requires Dropping(mem0, mem, l, gone, rest, size, left) && Chain(mem, p, rest)
    requires left == 0 || p == 0 || (p in mem && left < mem[p].len)
    ensures GivenUp(mem0, l, gone, p, rest, size)
  {
    NonNull(mem, p, rest);
    hide Flat, Chain, Append, Last;
    assert p != 0 ==> p in Nodes(rest);
  }

  lemma Exhausted(mem: Mem, p: nat, l: List, k: nat)
    requires Chain(mem, p, l) && (k == 0 || p == 0)
    ensures DropBytes(Flat(mem, l), k) == Flat(mem, l) && (k > |Flat(mem, l)| ==> p == 0)
  {
  }

  /** How far pbuf_free_header has come; `stripped` says that the node at `p` lost its first bytes. */
  ghost predicate Peeling(mem0: Mem, mem: Mem, l: List, gone: List, p: nat, rest: List, size: nat, left: nat, stripped: bool) {
    && Chain(mem, p, rest) && Nodes(rest) <= Nodes(l) && Kept(mem0, mem, Nodes(l))
    && DropBytes(Flat(mem, rest), left) == DropBytes(Flat(mem0, l), size)
    && (TotOk(mem0, l) ==> TotOk(mem, rest))
    && (size > |Flat(mem0, l)| ==> left > |Flat(mem, rest)|)
    && if stripped then left == 0 && GivenUp(mem0, l, gone, p, rest, size) else Dropping(mem0, mem, l, gone, rest, size, left)
  }

  lemma PeelStart(mem: Mem, p: nat, l: List, size: nat)
    requires Chain(mem, p, l)
    ensures Peeling(mem, mem, l, Nil, p, l, size, size, false)
  {
    DroppingStart(mem, p, l, size);
  }

  /** The node at `p` is given up. */
  lemma PeeledHead(mem0: Mem, mem: Mem, mem': Mem, l: List, gone: List, p: nat, rest: List, size: nat, left: nat, stripped: bool)
    requires rest.Cons? && p in mem && Shaped(mem[p]) && mem' - {p} == mem - {p}
    requires left + mem[p].len > 0 && Peeling(mem0, mem, l, gone, p, rest, size, left + mem[p].len, stripped)
    ensures Peeling(mem0, mem', l, Append(gone, Cons(p, Nil)), mem[p].next, rest.rest, size, left, stripped) && Chain(mem', mem[p].next, rest.rest)
  {
    hide Chain, Flat, TotOk, DropBytes, GivenUp, Dropping, Kept;
    NonNull(mem, p, rest);
    HeadGone(mem, mem', p, rest);
    DroppingMore(mem0, mem, mem', l, gone, p, rest, size, left + mem[p].len);
    KeptMore(mem0, mem, mem', p, Nodes(l));
  }

  /** The node at `p` loses its first `left` bytes. */
  lemma PeelRest(mem0: Mem, mem: Mem, l: List, gone: List, p: nat, rest: List, size: nat, left: nat, stripped: bool)
    requires rest.Cons? && p in mem && Shaped(mem[p]) && 0 < left < mem[p].len && Peeling(mem0, mem, l, gone, p, rest, size, left, stripped)
    ensures var mem' := mem[p := Stripped(mem[p], left)];
            Peeling(mem0, mem', l, gone, p, rest, size, 0, true) && Chain(mem', p, rest)
  {
    hide Chain, Flat, TotOk, DropBytes, Stripped, GivenUp, Dropping, Kept;
    NonNull(mem, p, rest);
    DroppingEnds(mem0, mem, l, gone, p, rest, size, left);
    HeadStripped(mem, p, rest, left);
    KeptMore(mem0, mem, mem[p := Stripped(mem[p], left)], p, Nodes(l));
  }

  lemma Peeled(mem0: Mem, mem: Mem, l: List, gone: List, p: nat, rest: List, size: nat, left: nat, stripped: bool)
    requires Peeling(mem0, mem, l, gone, p, rest, size, left, stripped) && (left == 0 || p == 0)
    ensures Chain(mem, p, rest) && Nodes(rest) <= Nodes(l) && Kept(mem0, mem, Nodes(l)) && GivenUp(mem0, l, gone, p, rest, size)
    ensures Flat(mem, rest) == DropBytes(Flat(mem0, l), size) && (TotOk(mem0, l) ==> TotOk(mem, rest))
    ensures size > |Flat(mem0, l)| ==> p == 0
  {
    Exhausted(mem, p, rest, left);
    hide Chain, Flat, TotOk, DropBytes, GivenUp, Dropping, Kept;
    if !stripped { DroppingEnds(mem0, mem, l, gone, p, rest, size, left); }
  }

  // ---------------------------------------------------------------- pbuf_realloc

  /** The new last node of a shortened chain: `rem` bytes, and nothing behind it. The block of a
      node from the heap is trimmed. */
  function Shortened(n: Node, rem: nat): Node
    requires rem <= n.len && n.off + n.len <= |n.buf|
  {
    n.(buf := if !n.pool && rem != n.len then n.buf[..n.off + rem] else n.buf, len := rem, tot := rem, next := 0)
  }

  /** How far pbuf_realloc has come: the nodes of `pre` are shorter by `shrink`, `q` is next. */
  ghost predicate Walked(mem0: Mem, mem: Mem, l: List, pre: List, q: nat, post: List, shrink: int) {
    && l == Append(pre, post) && Chain(mem0, q, post) && post.Cons?
    && Nodes(pre) !! Nodes(post) && Nodes(pre) <= mem0.Keys
    && Bumped(mem0, mem, Nodes(pre), -shrink)
  }

  lemma WalkStart(mem: Mem, p: nat, l: List, shrink: int)
    requires Chain(mem, p, l) && l.Cons?
    ensures Walked(mem, mem, l, Nil, p, l, shrink)
  {
  }

  /** While more bytes are wanted than `q` holds, there is a next node. */
  lemma WalkStep(mem0: Mem, mem: Mem, l: List, pre: List, q: nat, post: List, shrink: int, rem: nat)
    requires Walked(mem0, mem, l, pre, q, post, shrink) && q in mem0 && Shaped(mem0[q])
    requires rem > mem0[q].len && rem <= |Flat(mem0, post)|
    ensures q in mem && mem[q] == mem0[q] && mem0[q].next in mem0
    ensures Walked(mem0, mem[q := Lengthened(mem[q], -shrink)], l, Append(pre, Cons(q, Nil)), mem0[q].next, post.rest, shrink)
    ensures Flat(mem0, Append(pre, Cons(q, Nil))) == Flat(mem0, pre) + Payload(mem0[q])
    ensures |Payload(mem0[q])| == mem0[q].len && |Flat(mem0, post)| == mem0[q].len + |Flat(mem0, post.rest)|
  {
    hide Cut16;
    NoRepeat(mem0, q, post);
    assert |Flat(mem0, post)| == mem0[q].len + |Flat(mem0, post.rest)|;
    assert post.rest.Cons? by { assert Flat(mem0, Nil) == []; }
    assert mem0[q].next in mem0 by { NonNull(mem0, mem0[q].next, post.rest); }
    AppendMid(pre, q, post.rest);
    NodesAppend(pre, Cons(q, Nil));
    FlatAppend(mem0, pre, Cons(q, Nil));
    assert Flat(mem0, Cons(q, Nil)) == Payload(mem0[q]);
    assert Nodes(Append(pre, Cons(q, Nil))) == Nodes(pre) + {q};
    hide Flat;
  }

  lemma {:induction false} AppendMid(pre: List, q: nat, post: List)
    ensures Append(Append(pre, Cons(q, Nil)), post) == Append(pre, Cons(q, post))
  {
    if pre.Cons? { AppendMid(pre.rest, q, post); }
  }

  lemma WalkedAt(mem0: Mem, mem: Mem, l: List, pre: List, q: nat, post: List, shrink: int)
    requires Walked(mem0, mem, l, pre, q, post, shrink)
    ensures post.Cons? && q in mem0 && q in mem && mem[q] == mem0[q] && q != 0
  {
    NonNull(mem0, q, post);
    hide Chain, Nodes;
  }

  /** The memory when `q` has become the last node of its chain. */
  ghost predicate Ended(mem0: Mem, mem1: Mem, mem2: Mem, q: nat, rem: nat) {
    && q in mem0 && q in mem1 && mem1[q] == mem0[q] && Shaped(mem0[q]) && rem <= mem0[q].len
    && mem2 == mem1[q := Shortened(mem0[q], rem)]
  }

  /** Cutting behind `q` keeps the counts and leaves a reference to the tail to be given up. */
  lemma EndGood(mem0: Mem, mem1: Mem, mem2: Mem, ext: multiset<nat>, avail: nat, size: nat,
                                   l: List, pre: List, q: nat, post: List, shrink: int, rem: nat)
    requires Good(mem0, ext, avail, size) && Walked(mem0, mem1, l, pre, q, post, shrink) && Ended(mem0, mem1, mem2, q, rem)
    ensures Good(mem2, WithToken(ext, mem0[q].next), avail, size) && Chain(mem2, mem0[q].next, post.rest)
  {
    hide Good, Shortened, Chain;
    BumpedGood(mem0, mem1, Nodes(pre), -shrink, ext, avail, size);
    ShortenedNode(mem0[q], rem);
    if mem0[q].next != 0 {
      CutGood(mem1, ext, avail, size, q, Shortened(mem0[q], rem));
    } else {
      ReshapeGood(mem1, ext, avail, size, q, Shortened(mem0[q], rem));
      assert WithToken(ext, 0) == ext;
    }
    EndTail(mem0, mem1, mem2, l, pre, q, post, shrink, rem);
  }

  lemma EndTail(mem0: Mem, mem1: Mem, mem2: Mem, l: List, pre: List, q: nat, post: List, shrink: int, rem: nat)
    requires Walked(mem0, mem1, l, pre, q, post, shrink) && Ended(mem0, mem1, mem2, q, rem)
    ensures Chain(mem2, mem0[q].next, post.rest) && q !in Nodes(post.rest) && post.a == q
  {
    hide Shortened, Cut16;
    NoRepeat(mem0, q, post);
    ChainNodes(mem0, mem0[q].next, post.rest);
    hide Chain, Last;
    ChainFrame(mem0, mem2, mem0[q].next, post.rest);
  }

  lemma ShortenedNode(n: Node, rem: nat)
    requires Shaped(n) && rem <= n.len
    ensures var m := Shortened(n, rem);
            && Shaped(m) && m.next == 0 && m.ref == n.ref && m.pool == n.pool && m.tot == rem && Payload(m) == Payload(n)[..rem]
  {
    assert Payload(n) == n.buf[n.off..n.off + n.len];
    assert Payload(n)[..rem] == n.buf[n.off..n.off + rem];
    assert n.buf[..n.off + rem][n.off..n.off + rem] == n.buf[n.off..n.off + rem];
  }

  /** The shortened chain holds the prefix and its lengths are right. */
  lemma EndContents(mem0: Mem, mem1: Mem, mem2: Mem, p: nat, l: List, pre: List, q: nat, post: List, newLen: nat, shrink: int, rem: nat)
    requires Chain(mem0, p, l) && l.Cons? && TotOk(mem0, l)
    requires Walked(mem0, mem1, l, pre, q, post, shrink) && Ended(mem0, mem1, mem2, q, rem)
    requires newLen == |Flat(mem0, pre)| + rem && Cut16(|Flat(mem0, l)| - newLen) == Cut16(shrink)
    ensures var l' := Append(pre, Cons(q, Nil));
            && Chain(mem2, p, l') && Nodes(l') <= Nodes(l) && Nodes(l') !! Nodes(post.rest)
            && newLen <= |Flat(mem0, l)| && Flat(mem2, l') == Flat(mem0, l)[..newLen]
            && TotOk(mem2, l')
  {
    var l' := Append(pre, Cons(q, Nil));
    EndTail(mem0, mem1, mem2, l, pre, q, post, shrink, rem);
    NodesAppend(pre, Cons(q, Nil));
    NodesAppend(pre, post);
    EndChain(mem0, mem1, mem2, p, l, pre, q, post, shrink, rem);
    EndFlat(mem0, mem1, mem2, l, pre, q, post, newLen, shrink, rem);
    EndTot(mem0, mem1, mem2, l, pre, q, post, newLen, shrink, rem);
    hide Chain, Flat, TotOk, Walked, Ended, Append;
  }

  lemma EndChain(mem0: Mem, mem1: Mem, mem2: Mem, p: nat, l: List, pre: List, q: nat, post: List, shrink: int, rem: nat)
    requires Chain(mem0, p, l) && Walked(mem0, mem1, l, pre, q, post, shrink) && Ended(mem0, mem1, mem2, q, rem)
    ensures Chain(mem2, p, Append(pre, Cons(q, Nil)))
  {
    hide Shortened, Cut16;
    ShortenedNode(mem0[q], rem);
    assert q != 0 && post.a == q;
    PrefixChain(mem0, mem2, p, pre, q, post);
  }

  lemma {:induction false} PrefixChain(mem: Mem, mem': Mem, p: nat, pre: List, q: nat, post: List)
    requires Chain(mem, p, Append(pre, post)) && post.Cons? && post.a == q && q != 0 && q in mem' && mem'[q].next == 0
    requires forall x | x in Nodes(pre) :: x in mem && x in mem' && mem'[x].next == mem[x].next
    ensures Chain(mem', p, Append(pre, Cons(q, Nil)))
    decreases pre
  {
    if pre.Cons? {
      assert p in Nodes(pre);
      PrefixChain(mem, mem', mem[p].next, pre.rest, q, post);
    } else {
      assert Chain(mem', 0, Nil);
    }
  }

  /** What becomes of the nodes before the new end. */
  lemma EndNodes(mem0: Mem, mem1: Mem, mem2: Mem, l: List, pre: List, q: nat, post: List, shrink: int, rem: nat)
    requires Walked(mem0, mem1, l, pre, q, post, shrink) && Ended(mem0, mem1, mem2, q, rem)
    ensures q !in Nodes(pre) && Nodes(pre) <= mem2.Keys
    ensures forall x | x in Nodes(pre) :: mem2[x] == Lengthened(mem0[x], -shrink)
    ensures q in mem2 && mem2[q] == Shortened(mem0[q], rem) && post.a == q
  {
    hide Shortened, Lengthened;
  }

  lemma EndFlat(mem0: Mem, mem1: Mem, mem2: Mem, l: List, pre: List, q: nat, post: List, newLen: nat, shrink: int, rem: nat)
    requires Walked(mem0, mem1, l, pre, q, post, shrink) && Ended(mem0, mem1, mem2, q, rem)
    requires newLen == |Flat(mem0, pre)| + rem
    ensures newLen <= |Flat(mem0, l)| && Flat(mem2, Append(pre, Cons(q, Nil))) == Flat(mem0, l)[..newLen]
    ensures |Flat(mem0, l)| == |Flat(mem0, pre)| + |Flat(mem0, post)|
  {
    EndNodes(mem0, mem1, mem2, l, pre, q, post, shrink, rem);
    hide Bumped, Chain, Lengthened, Shortened, Cut16;
    ShortenedNode(mem0[q], rem);
    FlatFrame(mem0, mem2, pre);
    FlatAppend(mem0, pre, post);
    FlatAppend(mem2, pre, Cons(q, Nil));
    var f := Payload(mem0[q]);
    assert Flat(mem0, post) == f + Flat(mem0, post.rest);
    assert Flat(mem2, Cons(q, Nil)) == f[..rem];
    assert |f| == mem0[q].len;
    hide Flat;
    assert (Flat(mem0, pre) + (f + Flat(mem0, post.rest)))[..newLen] == Flat(mem0, pre) + f[..rem];
  }

  lemma EndTot(mem0: Mem, mem1: Mem, mem2: Mem, l: List, pre: List, q: nat, post: List, newLen: nat, shrink: int, rem: nat)
    requires TotOk(mem0, l) && Walked(mem0, mem1, l, pre, q, post, shrink) && Ended(mem0, mem1, mem2, q, rem)
    requires newLen == |Flat(mem0, pre)| + rem && Cut16(|Flat(mem0, l)| - newLen) == Cut16(shrink)
    ensures TotOk(mem2, Append(pre, Cons(q, Nil)))
  {
    EndNodes(mem0, mem1, mem2, l, pre, q, post, shrink, rem);
    hide Bumped, Chain, Lengthened, Shortened;
    ShortenedNode(mem0[q], rem);
    FlatAppend(mem0, pre, post);
    assert Flat(mem2, Cons(q, Nil)) == Payload(mem2[q]);
    assert |Payload(mem2[q])| == rem;
    CutSmall(rem);
    assert TotOk(mem2, Cons(q, Nil));
    hide Flat, TotOk;
    EndSum(|Flat(mem0, post)|, rem, shrink);
    RetailTot(mem0, mem2, pre, post, Cons(q, Nil), -shrink);
  }

  lemma EndSum(x: int, rem: int, shrink: int)
    requires Cut16(x - rem) == Cut16(shrink)
    ensures Cut16(rem) == Cut16(x - shrink)
  {
  }

  /** Releasing the tail leaves the shortened chain alone. */
  lemma EndReleased(mem0: Mem, mem2: Mem, p: nat, l': List, t: nat, tail: List, l: List)
    requires Chain(mem2, p, l') && Chain(mem2, t, tail) && Nodes(l') !! Nodes(tail)
    requires Kept(mem0, mem2, Nodes(l)) && Nodes(tail) <= Nodes(l)
    ensures var mem' := Released(mem2, tail);
            && Chain(mem', p, l') && Flat(mem', l') == Flat(mem2, l') && TotOk(mem', l') == TotOk(mem2, l')
            && Kept(mem0, mem', Nodes(l)) && forall x | x in Nodes(l') :: x in mem' && x in mem2 && mem'[x] == mem2[x]
  {
    var mem' := Released(mem2, tail);
    hide Released;
    ReleasedFrame(mem2, t, tail);
    ChainNodes(mem2, p, l');
    hide Chain, Flat, TotOk, Cut16, Last;
    ChainFrame(mem2, mem', p, l');
    FlatFrame(mem2, mem', l');
  }

  lemma EndKept(mem0: Mem, mem1: Mem, mem2: Mem, l: List, pre: List, q: nat, post: List, shrink: int, rem: nat)
    requires Walked(mem0, mem1, l, pre, q, post, shrink) && Ended(mem0, mem1, mem2, q, rem)
    ensures Kept(mem0, mem2, Nodes(l)) && Nodes(post.rest) <= Nodes(l) && post.Cons?
  {
    hide Shortened, Lengthened, Chain;
    NodesAppend(pre, post);
    EndTail(mem0, mem1, mem2, l, pre, q, post, shrink, rem);
  }

  /** The last node that is kept: its payload starts where it did, and the block of a node from the
      heap ends with it if it became shorter; a pool element stays as it is. */
  predicate TrimmedTo(n: Node, n': Node) {
    && n'.off == n.off && n'.len <= n.len && n'.next == 0 && n'.pool == n.pool && n'.fin == n.fin
    && n'.buf == if n.pool || n'.len == n.len || n.off + n'.len > |n.buf| then n.buf else n.buf[..n.off + n'.len]
  }

  /** `l'` is the shortest front of chain `l` that holds `n` bytes, but at least one node. */
  ghost predicate ShortestFront(mem: Mem, l: List, l': List, n: nat) {
    n <= |Flat(mem, l')| && exists pre, q, post :: FrontOf(l, l', pre, q, post) && (pre.Nil? || |Flat(mem, pre)| < n)
  }

  ghost predicate FrontOf(l: List, l': List, pre: List, q: nat, post: List) {
    l' == Append(pre, Cons(q, Nil)) && l == Append(l', post)
  }

  lemma EndIsShortest(mem0: Mem, mem1: Mem, l: List, pre: List, q: nat, post: List, shrink: int, newLen: nat, rem: nat)
    requires Walked(mem0, mem1, l, pre, q, post, shrink) && q in mem0 && Shaped(mem0[q])
    requires rem <= mem0[q].len && newLen == |Flat(mem0, pre)| + rem && (pre.Nil? || rem > 0)
    ensures ShortestFront(mem0, l, Append(pre, Cons(q, Nil)), newLen)
    ensures Append(pre, Cons(q, Nil)).Cons? && Last(Append(pre, Cons(q, Nil))) == q && q in Nodes(Append(pre, Cons(q, Nil))) && TrimmedTo(mem0[q], Shortened(mem0[q], rem))
  {
    AppendLast(pre, q);
    NodesAppend(pre, Cons(q, Nil));
    var l' := Append(pre, Cons(q, Nil));
    NonNull(mem0, q, post);
    AppendMid(pre, q, post.rest);
    FlatAppend(mem0, pre, Cons(q, Nil));
    assert Flat(mem0, Cons(q, Nil)) == Payload(mem0[q]) + Flat(mem0, Nil) && Flat(mem0, Nil) == [];
    hide Flat, Append, Walked;
    assert FrontOf(l, l', pre, q, post.rest);
  }

  lemma ShapedIs(n: Node)
    requires Shaped(n)
    ensures n.off + n.len <= |n.buf| && n.len < 0x10000 && n.tot < 0x10000
  {
  }

  lemma EndedIs(mem0: Mem, mem1: Mem, mem2: Mem, q: nat, rem: nat)
    requires q in mem0 && q in mem1 && mem1[q] == mem0[q] && Shaped(mem0[q]) && rem <= mem0[q].len
    requires mem2 == mem1[q := Shortened(mem0[q], rem)]
    ensures Ended(mem0, mem1, mem2, q, rem)
  {
  }

  lemma CutBelow(x: nat)
    ensures Cut16(x) <= x
  {
  }

  lemma ShrinkCut(x: int, tot: int, newLen: int)
    requires tot == Cut16(x)
    ensures Cut16(x - newLen) == Cut16(tot - newLen)
  {
  }

  // ---------------------------------------------------------------- pbuf_alloc from the pool

  /** How many pool elements hold `rem` bytes when the first leaves `off` bytes unused. */
  function Needed(rem: nat, off: nat, bufSize: nat): nat
    requires off < bufSize
    decreases rem
  {
    if rem <= bufSize - off then 1 else 1 + Needed(rem - (bufSize - off), 0, bufSize)
  }

  /** Every tot_len counts what follows and `rem` bytes yet to come. */
  ghost predicate Ahead(mem: Mem, l: List, rem: nat) {
    l.Cons? ==> l.a in mem && mem[l.a].tot == |Flat(mem, l)| + rem && Ahead(mem, l.rest, rem)
  }

  /** The unfinished chain of pbuf_alloc: fresh nodes with one reference each. */
  ghost predicate Building(mem0: Mem, mem: Mem, p: nat, l: List, last: nat, rem: nat, length: nat) {
    && Chain(mem, p, l) && (l.Cons? ==> last == Last(l)) && Nodes(l) !! mem0.Keys && mem - Nodes(l) == mem0
    && (forall x | x in Nodes(l) :: x in mem && mem[x].ref == 1)
    && |Flat(mem, l)| + rem == length && Ahead(mem, l, rem)
  }

  /** How pbuf_alloc lays out a chain: the payload of its first node starts at `off`, that of every
      other at the start of its buffer, and all buffers are full but that of the last one, and that
      one too while `rem` bytes are still to come. */
  ghost predicate LaidOut(mem: Mem, l: List, off: nat, bufSize: nat, rem: nat) {
    match l
    case Nil => true
    case Cons(a, r) =>
      && a in mem && mem[a].off == off && |mem[a].buf| == bufSize
      && (r.Cons? || rem > 0 ==> off + mem[a].len == bufSize)
      && LaidOut(mem, r, 0, bufSize, rem)
  }

  lemma {:induction false} LaidOutMore(mem: Mem, mem': Mem, l: List, off: nat, bufSize: nat, rem: nat, q: nat, rem': nat)
    requires LaidOut(mem, l, off, bufSize, rem) && (l.Cons? ==> rem > 0) && q in mem'
    requires forall x | x in Nodes(l) && x in mem :: x in mem' && SameSpan(mem[x], mem'[x])
    requires mem'[q].off == (if l.Nil? then off else 0) && |mem'[q].buf| == bufSize
    requires rem' > 0 ==> mem'[q].off + mem'[q].len == bufSize
    ensures LaidOut(mem', Append(l, Cons(q, Nil)), off, bufSize, rem')
  {
    if l.Cons? {
      LaidOutMore(mem, mem', l.rest, 0, bufSize, rem, q, rem');
    } else {
      assert LaidOut(mem', Nil, 0, bufSize, rem');
    }
  }

  predicate SameSpan(n: Node, m: Node) { m.off == n.off && m.len == n.len && m.buf == n.buf }

  lemma HookedSpans(mem: Mem, p: nat, l: List, last: nat, q: nat, n: Node)
    requires Chain(mem, p, l) && q !in mem && (p != 0 ==> last in mem)
    ensures var mem' := Hooked(mem, p, last, q, n);
            && q in mem' && SameSpan(n, mem'[q])
            && forall x | x in Nodes(l) && x in mem :: x in mem' && SameSpan(mem[x], mem'[x])
  {
    hide Chain;
  }

  lemma LaidOutNone(mem: Mem, off: nat, bufSize: nat, rem: nat)
    ensures LaidOut(mem, Nil, off, bufSize, rem)
  {
  }

  lemma LaidOutHead(mem: Mem, p: nat, l: List, off: nat, bufSize: nat)
    requires Chain(mem, p, l) && LaidOut(mem, l, off, bufSize, 0) && p != 0
    ensures p in mem && mem[p].off == off
  {
    NonNull(mem, p, l);
  }

  /** The header space asked for is there: headers that fit it can be added. */
  lemma AllocatedHasRoom(mem: Mem, p: nat, l: List, off: nat, bufSize: nat, k: nat)
    requires Chain(mem, p, l) && l.Cons? && LaidOut(mem, l, off, bufSize, 0) && TotOk(mem, l)
    requires k <= off && k + |Flat(mem, l)| < 0x10000
    ensures !GrowFails(mem[p], k)
  {
    CutSmall(|Flat(mem, l)|);
  }

  lemma {:induction false} Bound(s: set<nat>) returns (b: nat)
    ensures forall x | x in s :: x < b
  {
    if s == {} { b := 0; } else {
      var y :| y in s;
      var c := Bound(s - {y});
      b := if c <= y then y + 1 else c;
      forall x | x in s ensures x < b { assert x == y || x in s - {y}; }
    }
  }

  /** There is an unused address. */
  lemma FreshAddress(mem: Mem)
    ensures exists q: nat :: q != 0 && q !in mem
  {
    var b := Bound(mem.Keys);
    assert b + 1 !in mem;
  }

  lemma NewGood(mem: Mem, ext: multiset<nat>, avail: nat, size: nat, q: nat, n: Node)
    requires Good(mem, ext, avail, size) && (n.pool ==> avail > 0) && q != 0 && q !in mem
    requires n.next == 0 && n.ref == 1 && Shaped(n)
    ensures Good(mem[q := n], ext + multiset{q}, if n.pool then avail - 1 else avail, size)
  {
    NewCounts(mem, ext, q, n);
    NewAcyclic(mem, q, n);
    NewPool(mem, q, n);
    hide Acyclic, CountsOk, PoolNodes;
  }

  lemma NewCounts(mem: Mem, ext: multiset<nat>, q: nat, n: Node)
    requires CountsOk(mem, ext) && q != 0 && q !in mem && n.next == 0 && n.ref == 1
    ensures CountsOk(mem[q := n], ext + multiset{q})
  {
    var mem' := mem[q := n];
    LinksClosed(mem, ext);
    forall a | a in mem' ensures NodeOk(mem', ext + multiset{q}, a) {
      if a == q { assert Preds(mem', a) == {}; }
      else { assert NodeOk(mem, ext, a); assert Preds(mem', a) == Preds(mem, a); }
    }
    hide NodeOk;
  }

  lemma NewPool(mem: Mem, q: nat, n: Node)
    requires q !in mem
    ensures |PoolNodes(mem[q := n])| == |PoolNodes(mem)| + if n.pool then 1 else 0
  {
    assert PoolNodes(mem[q := n]) == PoolNodes(mem) + if n.pool then {q} else {};
  }

  lemma NewAcyclic(mem: Mem, q: nat, n: Node)
    requires Acyclic(mem) && q != 0 && q !in mem && n.next == 0
    ensures Acyclic(mem[q := n])
  {
    var mem' := mem[q := n];
    forall a | a in mem' ensures Ends(mem', a) {
      if a == q {
        assert Chain(mem', 0, Nil);
        assert Chain(mem', q, Cons(q, Nil));
      } else {
        assert Ends(mem, a);
        var l :| Chain(mem, a, l);
        ChainNodes(mem, a, l);
        ChainFrame(mem, mem', a, l);
      }
    }
  }

  lemma BuildStart(mem: Mem, last: nat, length: nat)
    ensures Building(mem, mem, 0, Nil, last, length, length)
  {
    assert mem - Nodes(Nil) == mem;
  }

  /** The node `q` with `len` of the `rem` bytes, hooked behind the chain so far. */
  ghost function Hooked(mem: Mem, p: nat, last: nat, q: nat, n: Node): Mem
    requires p != 0 ==> last in mem
  {
    if p == 0 then mem[q := n] else mem[q := n][last := mem[last].(next := q)]
  }

  lemma BuildStep(mem0: Mem, mem: Mem, p: nat, l: List, last: nat, rem: nat, length: nat, q: nat, n: Node)
    requires Building(mem0, mem, p, l, last, rem, length) && q != 0 && q !in mem && (p != 0 ==> last in mem)
    requires n.next == 0 && n.ref == 1 && n.tot == rem && n.len <= rem && Shaped(n)
    ensures Building(mem0, Hooked(mem, p, last, q, n), if p == 0 then q else p, Append(l, Cons(q, Nil)), q, rem - n.len, length)
    ensures Length(Append(l, Cons(q, Nil))) == Length(l) + 1
  {
    var mem', m := Hooked(mem, p, last, q, n), Append(l, Cons(q, Nil));
    NonNull(mem, p, l);
    ChainNodes(mem, p, l);
    NodesAppend(l, Cons(q, Nil));
    AppendLast(l, q);
    BuildChain(mem, p, l, last, q, n);
    BuildLengths(mem, p, l, last, rem, q, n);
    hide Chain, Flat, Ahead, Append, Length, Last;
    assert mem' - Nodes(m) == mem0;
  }

  lemma {:induction false} AppendLast(l: List, q: nat)
    ensures Last(Append(l, Cons(q, Nil))) == q && Length(Append(l, Cons(q, Nil))) == Length(l) + 1
  {
    if l.Cons? { AppendLast(l.rest, q); }
  }

  lemma BuildChain(mem: Mem, p: nat, l: List, last: nat, q: nat, n: Node)
    requires Chain(mem, p, l) && (l.Cons? ==> last == Last(l)) && q != 0 && q !in mem && n.next == 0 && (p != 0 ==> last in mem)
    ensures Chain(Hooked(mem, p, last, q, n), if p == 0 then q else p, Append(l, Cons(q, Nil)))
  {
    var mem' := Hooked(mem, p, last, q, n);
    NonNull(mem, p, l);
    ChainNodes(mem, p, l);
    assert Chain(mem', 0, Nil);
    assert Chain(mem', q, Cons(q, Nil));
    if p != 0 {
      var mem1 := mem[q := n];
      UpdatedChain(mem, q, n, p, l);
      var m := HookChain(mem1, mem', last, q, Cons(q, Nil), p, l);
    }
  }

  lemma BuildLengths(mem: Mem, p: nat, l: List, last: nat, rem: nat, q: nat, n: Node)
    requires Chain(mem, p, l) && Ahead(mem, l, rem) && q != 0 && q !in mem && (p != 0 ==> last in mem)
    requires n.tot == rem && n.len <= rem && Shaped(n)
    ensures var mem', m := Hooked(mem, p, last, q, n), Append(l, Cons(q, Nil));
            |Flat(mem', m)| == |Flat(mem, l)| + n.len && Ahead(mem', m, rem - n.len)
  {
    var mem' := Hooked(mem, p, last, q, n);
    ChainNodes(mem, p, l);
    NonNull(mem, p, l);
    hide Chain, Last;
    assert mem'[q].buf == n.buf && mem'[q].off == n.off && mem'[q].len == n.len && mem'[q].tot == n.tot;
    AheadStep(mem, mem', l, rem, q, n.len);
  }

  lemma {:induction false} AheadStep(mem: Mem, mem': Mem, l: List, rem: nat, q: nat, len: nat)
    requires Ahead(mem, l, rem) && q in mem' && Nodes(l) <= mem.Keys && Nodes(l) <= mem'.Keys
    requires forall x | x in Nodes(l) :: Payload(mem'[x]) == Payload(mem[x]) && mem'[x].tot == mem[x].tot
    requires mem'[q].tot == rem && |Payload(mem'[q])| == len <= rem
    ensures var m := Append(l, Cons(q, Nil));
            |Flat(mem', m)| == |Flat(mem, l)| + len && Ahead(mem', m, rem - len)
  {
    hide Payload;
    if l.Nil? {
      assert Flat(mem', Cons(q, Nil)) == Payload(mem'[q]);
    } else {
      AheadStep(mem, mem', l.rest, rem, q, len);
    }
  }

  lemma {:induction false} AheadDone(mem: Mem, l: List)
    requires Ahead(mem, l, 0) && |Flat(mem, l)| < 0x10000
    ensures TotOk(mem, l)
  {
    if l.Cons? { AheadDone(mem, l.rest); }
  }

  /** Giving an unfinished chain back restores the memory. */
  lemma {:induction false} BuildUndone(mem0: Mem, mem: Mem, p: nat, l: List)
    requires Chain(mem, p, l) && (forall x | x in Nodes(l) :: x in mem && mem[x].ref == 1)
    requires mem - Nodes(l) == mem0
    ensures Released(mem, l) == mem0
    decreases l
  {
    if l.Cons? {
      var mem1 := mem - {p};
      NoRepeat(mem, p, l);
      UnlinkHead(mem, p, l);
      assert mem1 - Nodes(l.rest) == mem - Nodes(l);
      BuildUndone(mem0, mem1, mem[p].next, l.rest);
    } else {
      assert mem - {} == mem;
    }
  }

  lemma NeededStep(rem: nat, off: nat, bufSize: nat)
    requires off < bufSize
    ensures Needed(rem, off, bufSize) == if rem <= bufSize - off then 1 else 1 + Needed(rem - (bufSize - off), 0, bufSize)
    ensures Needed(rem, off, bufSize) > 0
  {
  }

  lemma NoTokens(ext: multiset<nat>)
    ensures WithToken(ext, 0) == ext && Length(Nil) == 0
  {
  }

  lemma WithOne(ext: multiset<nat>, p: nat)
    requires p != 0
    ensures WithToken(ext, p) == ext + multiset{p} && WithToken(ext, p) - multiset{p} == ext && p in WithToken(ext, p)
  {
  }

  /** The free elements of the pool follow from the pool nodes in use. */
  lemma SameAvail(mem: Mem, ext: multiset<nat>, avail: nat, avail': nat, size: nat)
    requires Good(mem, ext, avail, size) && Good(mem, ext, avail', size)
    ensures avail == avail'
  {
  }

  lemma BuildEmpty(mem0: Mem, mem: Mem, l: List, last: nat, rem: nat, length: nat)
    requires Building(mem0, mem, 0, l, last, rem, length)
    ensures mem == mem0 && l == Nil
  {
    NonNull(mem, 0, l);
    assert mem - {} == mem;
  }

  lemma BuildDone(mem0: Mem, mem: Mem, p: nat, l: List, last: nat, length: nat)
    requires Building(mem0, mem, p, l, last, 0, length) && length < 0x10000
    ensures Chain(mem, p, l) && |Flat(mem, l)| == length && TotOk(mem, l) && Nodes(l) !! mem0.Keys && mem - Nodes(l) == mem0
    ensures Sole(mem, l)
  {
    AheadDone(mem, l);
  }

  /** Every node of the chain has one reference. */
  ghost predicate Sole(mem: Mem, l: List) { forall x | x in Nodes(l) :: x in mem && mem[x].ref == 1 }

  lemma {:induction false} SoleRun(mem: Mem, l: List)
    requires Sole(mem, l)
    ensures Run(mem, l) == Length(l)
  {
    if l.Cons? { SoleRun(mem, l.rest); }
  }

  /** Elements for 255 bytes that are all full. */
  lemma {:induction false} NeededFull(k: nat)
    requires k > 0
    ensures Needed(255 * k, 0, 255) == k
  {
    if k > 1 { NeededFull(k - 1); }
  }

  // ---------------------------------------------------------------- pbuf_alloc from the heap

  /** The sizes that the PBUF_RAM case of pbuf_alloc computes in a mem_size_t of `cap` values. */
  function PayloadLen(off: nat, length: nat, cap: nat): nat
    requires cap > 0
  {
    (off + length) % cap
  }

  function AllocLen(header: nat, off: nat, length: nat, cap: nat): nat
    requires cap > 0
  {
    (header + PayloadLen(off, length, cap)) % cap
  }

  predicate SizeWraps(header: nat, off: nat, length: nat, cap: nat)
    requires cap > 0
  {
    PayloadLen(off, length, cap) < length || AllocLen(header, off, length, cap) < length
  }

  /** The two comparisons notice exactly the requests whose size does not fit mem_size_t. */
  lemma SizeWrapsExactly(header: nat, off: nat, length: nat, cap: nat)
    requires length <= cap && 0 < header && off + 2 * header <= cap
    ensures SizeWraps(header, off, length, cap) <==> header + off + length >= cap
  {
    hide SizeWraps;
    var p := off + length;
    QuotientUnique(p, cap, if p < cap then 0 else 1, if p < cap then p else p - cap);
    var q := header + PayloadLen(off, length, cap);
    if p < cap { QuotientUnique(q, cap, if q < cap then 0 else 1, if q < cap then q else q - cap); }
    WrapsIs(header, off, length, cap);
  }

  lemma WrapsIs(header: nat, off: nat, length: nat, cap: nat)
    requires cap > 0
    ensures SizeWraps(header, off, length, cap) <==> PayloadLen(off, length, cap) < length || AllocLen(header, off, length, cap) < length
  {
  }

  lemma BuildFacts(mem0: Mem, mem: Mem, p: nat, l: List, last: nat, rem: nat, length: nat)
    requires Building(mem0, mem, p, l, last, rem, length)
    ensures Chain(mem, p, l) && Released(mem, l) == mem0
    ensures p != 0 ==> last in mem && mem[last].next == 0 && last != 0
  {
    BuildUndone(mem0, mem, p, l);
    NonNull(mem, p, l);
    ChainNodes(mem, p, l);
  }

  /** A new node behind the unfinished chain. */
  lemma HookedGood(mem: Mem, ext: multiset<nat>, avail: nat, size: nat, base: multiset<nat>, p: nat, last: nat, q: nat, n: Node)
    requires Good(mem, ext, avail, size) && avail > 0 && q != 0 && q !in mem && ext == WithToken(base, p)
    requires n.next == 0 && n.ref == 1 && n.pool && Shaped(n)
    requires p != 0 ==> last in mem && mem[last].next == 0
    ensures Good(Hooked(mem, p, last, q, n), WithToken(base, if p == 0 then q else p), avail - 1, size)
  {
    hide Good, Shaped;
    var mem1 := mem[q := n];
    NewGood(mem, ext, avail, size, q, n);
    if p == 0 {
      assert ext + multiset{q} == WithToken(base, q);
    } else {
      ShapedLink(mem, ext, avail, size, last, q);
      assert Chain(mem1, 0, Nil);
      assert Chain(mem1, q, Cons(q, Nil));
      HookGood(mem1, ext + multiset{q}, avail - 1, size, last, q, mem[last].(next := q), Cons(q, Nil));
      assert ext + multiset{q} - multiset{q} == ext;
    }
  }

  lemma ShapedLink(mem: Mem, ext: multiset<nat>, avail: nat, size: nat, p: nat, t: nat)
    requires Good(mem, ext, avail, size) && p in mem
    ensures Shaped(mem[p].(next := t))
  {
  }

  // ---------------------------------------------------------------- no leaks

  /** When the last outside reference is gone, no node is left and the pool is full. */
  lemma NoLeaks(mem: Mem, avail: nat, size: nat)
    requires Good(mem, multiset{}, avail, size)
    ensures mem == map[] && avail == size
  {
    if a :| a in mem {
      var b, l := Climb(mem, a, |mem.Keys| + 1);
      ChainNodes(mem, b, l);
      DistinctNodes(mem, b, l);
      SubsetSize(Nodes(l), mem.Keys);
      assert false;
    }
    assert mem == map[];
    assert PoolNodes(mem) == {};
  }

  /** Without outside references every node has one before it, so chains grow without end. */
  lemma {:induction false} Climb(mem: Mem, a: nat, k: nat) returns (b: nat, l: List)
    requires Ok(mem, multiset{}) && a in mem
    ensures b in mem && Chain(mem, b, l) && Length(l) > k
  {
    if k == 0 {
      assert Ends(mem, a);
      b, l :| b == a && Chain(mem, a, l);
    } else {
      b, l := Climb(mem, a, k - 1);
      assert NodeOk(mem, multiset{}, b);
      assert Preds(mem, b) != {};
      var c :| c in Preds(mem, b);
      b, l := c, Cons(c, l);
    }
  }

  lemma {:induction false} DistinctNodes(mem: Mem, a: nat, l: List)
    requires Chain(mem, a, l)
    ensures |Nodes(l)| == Length(l)
    decreases l
  {
    if l.Cons? {
      NoRepeat(mem, a, l);
      DistinctNodes(mem, mem[a].next, l.rest);
    }
  }

  lemma SubsetSize(s: set<nat>, t: set<nat>)
    requires s <= t
    ensures |s| <= |t|
  {
    assert t == s + (t - s);
  }
}
