/** Reference-counted packet buffers (src/lib/liblwip/core/pbuf.c) as a graph of nodes in memory.

    `mem` maps the addresses of live struct pbufs to their fields; address 0 is NULL. Payload
    bytes live in the node (`buf`, from `off` on), so PBUF_REF aliasing of caller memory and
    custom pbufs are not part of this model. */
module PbufGraph {
  import opened Bytes

  /** What an u16_t keeps of `n`. */
  function Cut16(n: int): nat { n % 0x10000 }

  /** struct pbuf. `pool` says that the node came from the pbuf pool, `fin` is the flag
      PBUF_FLAG_TCP_FIN. */
  datatype Node = Node(next: nat, buf: seq<Byte>, off: nat, len: nat, tot: nat, ref: nat, pool: bool, fin: bool)

  datatype List = Nil | Cons(a: nat, rest: List)

  type Mem = map<nat, Node>

  // ---------------------------------------------------------------- chains

  /** The addresses of a chain. */
  function Nodes(l: List): set<nat> { if l.Nil? then {} else {l.a} + Nodes(l.rest) }

  function Append(l: List, m: List): List {
    match l
    case Nil => m
    case Cons(a, r) => Cons(a, Append(r, m))
  }

  function Length(l: List): nat { if l.Nil? then 0 else 1 + Length(l.rest) }

  function Last(l: List): nat
    requires l.Cons?
  {
    if l.rest.Nil? then l.a else Last(l.rest)
  }

  /** Following `next` from `a` gives exactly the addresses `l`. */
  ghost predicate Chain(mem: Mem, a: nat, l: List)
    decreases l
  {
    match l
    case Nil => a == 0
    case Cons(x, r) => a == x && a != 0 && a in mem && Chain(mem, mem[a].next, r)
  }

  lemma {:induction false} ChainUnique(mem: Mem, a: nat, l: List, m: List)
    requires Chain(mem, a, l) && Chain(mem, a, m)
    ensures l == m
    decreases l
  {
    if l.Cons? { ChainUnique(mem, mem[a].next, l.rest, m.rest); }
  }

  /** The chain that starts at a node of a chain is a tail of it. */
  lemma {:induction false} SubChain(mem: Mem, a: nat, l: List, b: nat) returns (m: List)
    requires Chain(mem, a, l) && b in Nodes(l)
    ensures Chain(mem, b, m) && Length(m) <= Length(l) && m.Cons?
    ensures b != a ==> Length(m) < Length(l)
    ensures Nodes(m) <= Nodes(l)
    decreases l
  {
    if l.a == b { m := l; } else { m := SubChain(mem, mem[a].next, l.rest, b); }
  }

  /** A chain that ends visits no node twice. */
  lemma NoRepeat(mem: Mem, a: nat, l: List)
    requires Chain(mem, a, l) && l.Cons?
    ensures a !in Nodes(l.rest)
  {
    if a in Nodes(l.rest) {
      var m := SubChain(mem, mem[a].next, l.rest, a);
      ChainUnique(mem, a, l, m);
      assert false;
    }
  }

  /** A chain depends only on the `next` fields of its nodes. */
  lemma {:induction false} ChainFrame(mem: Mem, mem': Mem, a: nat, l: List)
    requires Chain(mem, a, l)
    requires Nodes(l) <= mem.Keys && Nodes(l) <= mem'.Keys && forall x | x in Nodes(l) :: mem'[x].next == mem[x].next
    ensures Chain(mem', a, l)
    decreases l
  {
    if l.Cons? {
      ChainFrame(mem, mem', mem[a].next, l.rest);
    }
  }

  lemma {:induction false} ChainNodes(mem: Mem, a: nat, l: List)
    requires Chain(mem, a, l)
    ensures Nodes(l) <= mem.Keys && 0 !in Nodes(l)
    ensures l.Cons? ==> Last(l) in Nodes(l) && mem[Last(l)].next == 0
    decreases l
  {
    if l.Cons? { ChainNodes(mem, mem[a].next, l.rest); }
  }

  // ---------------------------------------------------------------- the reference counts

  /** The nodes whose `next` is `a`. */
  ghost function Preds(mem: Mem, a: nat): set<nat> { set b | b in mem && mem[b].next == a }

  /** The count of `a` is the number of outside references plus the number of links to it; it
      is referenced, and its own link leads to a live node. */
  ghost predicate NodeOk(mem: Mem, ext: multiset<nat>, a: nat)
    requires a in mem
  {
    mem[a].ref == ext[a] + |Preds(mem, a)| && mem[a].ref > 0 && (mem[a].next == 0 || mem[a].next in mem)
  }

  ghost predicate CountsOk(mem: Mem, ext: multiset<nat>) {
    && 0 !in mem
    && (forall a | a in mem :: NodeOk(mem, ext, a))
    && (forall a | a in ext :: a in mem)
  }

  ghost predicate Ends(mem: Mem, a: nat) { exists l :: Chain(mem, a, l) }

  /** Every node starts a chain that ends. */
  ghost predicate Acyclic(mem: Mem) { forall a {:trigger Ends(mem, a)} | a in mem :: Ends(mem, a) }

  ghost predicate Ok(mem: Mem, ext: multiset<nat>) { CountsOk(mem, ext) && Acyclic(mem) }

  lemma LinksClosed(mem: Mem, ext: multiset<nat>)
    requires CountsOk(mem, ext)
    ensures forall a | a in mem :: mem[a].next == 0 || mem[a].next in mem
  {
    forall a | a in mem ensures mem[a].next == 0 || mem[a].next in mem { assert NodeOk(mem, ext, a); }
  }

  lemma PredsUpdate(mem: Mem, b: nat, n: Node, a: nat)
    requires b in mem
    ensures Preds(mem[b := n], a) == if n.next == a then Preds(mem, a) + {b} else Preds(mem, a) - {b}
    ensures b in Preds(mem, a) <==> mem[b].next == a
  {
  }

  lemma PredsRemove(mem: Mem, b: nat, a: nat)
    requires b in mem
    ensures Preds(mem - {b}, a) == Preds(mem, a) - {b}
    ensures b in Preds(mem, a) <==> mem[b].next == a
  {
  }

  /** Dropping one reference to `p` that is not the last. */
  lemma DropKeepsOk(mem: Mem, ext: multiset<nat>, p: nat)
    requires Ok(mem, ext) && p in ext && mem[p].ref > 1
    ensures Ok(mem[p := mem[p].(ref := mem[p].ref - 1)], ext - multiset{p})
  {
    var mem' := mem[p := mem[p].(ref := mem[p].ref - 1)];
    forall a | a in mem' ensures NodeOk(mem', ext - multiset{p}, a) {
      assert NodeOk(mem, ext, a);
      assert Preds(mem', a) == Preds(mem, a);
    }
    LinksClosed(mem, ext);
    hide NodeOk;
    SameLinksAcyclic(mem, mem');
  }

  lemma SameLinksAcyclic(mem: Mem, mem': Mem)
    requires Acyclic(mem) && mem'.Keys <= mem.Keys
    requires forall a | a in mem' :: mem'[a].next == mem[a].next && (mem[a].next == 0 || mem[a].next in mem')
    ensures Acyclic(mem')
  {
    forall a | a in mem' ensures Ends(mem', a) {
      assert Ends(mem, a);
      var l :| Chain(mem, a, l);
      ClosedChain(mem, mem', a, l);
    }
  }

  lemma {:induction false} ClosedChain(mem: Mem, mem': Mem, a: nat, l: List)
    requires Chain(mem, a, l) && (a == 0 || a in mem')
    requires forall x | x in mem' :: x in mem && mem'[x].next == mem[x].next && (mem[x].next == 0 || mem[x].next in mem')
    ensures Chain(mem', a, l)
    decreases l
  {
    if l.Cons? { ClosedChain(mem, mem', mem[a].next, l.rest); }
  }

  /** Dropping the last reference to `p`: the node goes, and its link becomes a reference to
      be dropped in turn. */
  lemma ReleaseKeepsOk(mem: Mem, ext: multiset<nat>, p: nat)
    requires Ok(mem, ext) && p in ext && mem[p].ref == 1
    ensures var q := mem[p].next;
            Ok(mem - {p}, ext - multiset{p} + if q == 0 then multiset{} else multiset{q})
  {
    ReleaseCounts(mem, ext, p);
    LinksClosed(mem, ext);
    hide NodeOk;
    SameLinksAcyclic(mem, mem - {p});
  }

  lemma ReleaseCounts(mem: Mem, ext: multiset<nat>, p: nat)
    requires CountsOk(mem, ext) && p in ext && mem[p].ref == 1
    ensures var q := mem[p].next;
            CountsOk(mem - {p}, ext - multiset{p} + if q == 0 then multiset{} else multiset{q})
    ensures forall a | a in mem :: mem[a].next != p
  {
    var q, mem' := mem[p].next, mem - {p};
    var ext' := ext - multiset{p} + if q == 0 then multiset{} else multiset{q};
    assert NodeOk(mem, ext, p);
    assert Preds(mem, p) == {};
    forall a | a in mem ensures mem[a].next != p { assert a in Preds(mem, p) <==> mem[a].next == p; }
    forall a | a in mem' ensures NodeOk(mem', ext', a) {
      assert NodeOk(mem, ext, a);
      PredsRemove(mem, p, a);
    }
    hide NodeOk;
  }

  /** Cutting the link behind `p` turns it into an outside reference to the old successor. */
  lemma CutKeepsOk(mem: Mem, ext: multiset<nat>, p: nat, n: Node)
    requires Ok(mem, ext) && p in mem && mem[p].next != 0 && n.next == 0 && n.ref == mem[p].ref
    ensures Ok(mem[p := n], ext + multiset{mem[p].next})
  {
    CutCounts(mem, ext, p, n);
    hide CountsOk;
    var mem' := mem[p := n];
    forall a | a in mem' ensures Ends(mem', a) {
      assert Ends(mem, a);
      var l :| Chain(mem, a, l);
      var m := CutChain(mem, mem', p, a, l);
    }
  }

  lemma CutCounts(mem: Mem, ext: multiset<nat>, p: nat, n: Node)
    requires CountsOk(mem, ext) && p in mem && mem[p].next != 0 && n.next == 0 && n.ref == mem[p].ref
    ensures CountsOk(mem[p := n], ext + multiset{mem[p].next}) && p != 0
  {
    assert NodeOk(mem, ext, p);
    var q, mem' := mem[p].next, mem[p := n];
    forall a | a in mem' ensures NodeOk(mem', ext + multiset{q}, a) {
      assert NodeOk(mem, ext, a);
      PredsUpdate(mem, p, n, a);
    }
    hide NodeOk;
  }

  lemma {:induction false} CutChain(mem: Mem, mem': Mem, p: nat, a: nat, l: List) returns (m: List)
    requires Chain(mem, a, l) && p in mem && p in mem' && mem' == mem[p := mem'[p]] && mem'[p].next == 0 && p != 0
    ensures Chain(mem', a, m)
    decreases l
  {
    if l.Nil? { m := Nil; }
    else if a == p { m := Cons(p, Nil); assert Chain(mem', 0, Nil); }
    else {
      m := CutChain(mem, mem', p, mem[a].next, l.rest);
      m := Cons(a, m);
    }
  }

  /** Hooking `t` behind `p` turns an outside reference to `t` into a link. */
  lemma HookKeepsOk(mem: Mem, ext: multiset<nat>, p: nat, t: nat, n: Node, lt: List)
    requires Ok(mem, ext) && p in mem && mem[p].next == 0 && t in ext && n.next == t && n.ref == mem[p].ref
    requires Chain(mem, t, lt) && p !in Nodes(lt)
    ensures Ok(mem[p := n], ext - multiset{t})
  {
    HookCounts(mem, ext, p, t, n);
    hide CountsOk;
    var mem' := mem[p := n];
    ChainNodes(mem, t, lt);
    ChainFrame(mem, mem', t, lt);
    forall a | a in mem' ensures Ends(mem', a) {
      assert Ends(mem, a);
      var l :| Chain(mem, a, l);
      var m := HookChain(mem, mem', p, t, lt, a, l);
    }
  }

  lemma HookCounts(mem: Mem, ext: multiset<nat>, p: nat, t: nat, n: Node)
    requires CountsOk(mem, ext) && p in mem && mem[p].next == 0 && t in ext && n.next == t && n.ref == mem[p].ref
    ensures CountsOk(mem[p := n], ext - multiset{t}) && p != 0
  {
    var mem' := mem[p := n];
    assert t in mem;
    forall a | a in mem' ensures NodeOk(mem', ext - multiset{t}, a) {
      assert NodeOk(mem, ext, a);
      PredsUpdate(mem, p, n, a);
    }
    hide NodeOk;
  }

  lemma {:induction false} HookChain(mem: Mem, mem': Mem, p: nat, t: nat, lt: List, a: nat, l: List) returns (m: List)
    requires Chain(mem, a, l) && p in mem && mem[p].next == 0 && p != 0
    requires p in mem' && mem' == mem[p := mem'[p]] && mem'[p].next == t && Chain(mem', t, lt)
    ensures Chain(mem', a, m)
    ensures p in Nodes(l) ==> m == Append(l, lt)
    ensures p !in Nodes(l) ==> m == l
    decreases l
  {
    if l.Nil? { m := Nil; }
    else if a == p { m := Cons(p, lt); assert l.rest == Nil; }
    else {
      m := HookChain(mem, mem', p, t, lt, mem[a].next, l.rest);
      m := Cons(a, m);
    }
  }

  // ---------------------------------------------------------------- contents and lengths

  predicate Shaped(n: Node) { n.off + n.len <= |n.buf| && n.len < 0x10000 && n.tot < 0x10000 }

  function Payload(n: Node): seq<Byte> {
    if n.off + n.len <= |n.buf| then n.buf[n.off..n.off + n.len] else []
  }

  /** The bytes a chain stands for. */
  ghost function Flat(mem: Mem, l: List): seq<Byte> {
    match l
    case Nil => []
    case Cons(a, r) => (if a in mem then Payload(mem[a]) else []) + Flat(mem, r)
  }

  /** Every tot_len is the length of the rest of the chain, cut to 16 bits. */
  ghost predicate TotOk(mem: Mem, l: List) {
    match l
    case Nil => true
    case Cons(a, r) => a in mem && mem[a].tot == Cut16(|Flat(mem, l)|) && TotOk(mem, r)
  }

  /** Contents and lengths of a chain depend only on its own nodes. */
  lemma {:induction false} FlatFrame(mem: Mem, mem': Mem, l: List)
    requires Nodes(l) <= mem.Keys && Nodes(l) <= mem'.Keys && forall x | x in Nodes(l) :: Payload(mem'[x]) == Payload(mem[x])
    ensures Flat(mem', l) == Flat(mem, l)
    ensures (forall x | x in Nodes(l) :: mem'[x].tot == mem[x].tot) ==> TotOk(mem', l) == TotOk(mem, l)
  {
    if l.Cons? {
      FlatFrame(mem, mem', l.rest);
    }
  }

  lemma {:induction false} FlatAppend(mem: Mem, l: List, m: List)
    ensures Flat(mem, Append(l, m)) == Flat(mem, l) + Flat(mem, m)
  {
    if l.Cons? { FlatAppend(mem, l.rest, m); }
  }

  lemma {:induction false} NodesAppend(l: List, m: List)
    ensures Nodes(Append(l, m)) == Nodes(l) + Nodes(m)
  {
    if l.Cons? { NodesAppend(l.rest, m); }
  }

  // ---------------------------------------------------------------- what pbuf_free does

  /** How many nodes at the head of the chain have a count of 1. */
  ghost function Run(mem: Mem, l: List): nat {
    if l.Nil? || l.a !in mem || mem[l.a].ref != 1 then 0 else 1 + Run(mem, l.rest)
  }

  ghost function Front(l: List, k: nat): set<nat> {
    if k == 0 || l.Nil? then {} else {l.a} + Front(l.rest, k - 1)
  }

  ghost function Drop(l: List, k: nat): List {
    if k == 0 || l.Nil? then l else Drop(l.rest, k - 1)
  }

  /** The head run is gone and the first node behind it has lost one reference. */
  ghost function Released(mem: Mem, l: List): Mem
    decreases l
  {
    if l.Nil? || l.a !in mem then mem
    else if mem[l.a].ref == 1 then Released(mem - {l.a}, l.rest)
    else mem[l.a := mem[l.a].(ref := if mem[l.a].ref > 0 then mem[l.a].ref - 1 else 0)]
  }

  /** pbuf_free deallocates exactly the maximal head run of nodes whose count reaches zero, takes
      one reference from the node behind it, and changes nothing else. */
  lemma {:induction false} ReleasedExactly(mem: Mem, p: nat, l: List)
    requires Chain(mem, p, l)
    ensures var r := Released(mem, l);
            var k := Run(mem, l);
            && r.Keys == mem.Keys - Front(l, k)
            && (forall a | a in r :: r[a] == if Drop(l, k).Cons? && a == Drop(l, k).a
                                             then mem[a].(ref := if mem[a].ref > 0 then mem[a].ref - 1 else 0) else mem[a])
            && (Front(l, k) <= Nodes(l))
    decreases l
  {
    if l.Cons? {
      NoRepeat(mem, p, l);
      if mem[p].ref == 1 {
        var mem' := mem - {p};
        ChainNodes(mem, mem[p].next, l.rest);
        ChainFrame(mem, mem', mem[p].next, l.rest);
        ReleasedExactly(mem', mem[p].next, l.rest);
        RunFrame(mem, mem', l.rest);
      }
    }
  }

  lemma {:induction false} RunFrame(mem: Mem, mem': Mem, l: List)
    requires Nodes(l) <= mem.Keys && Nodes(l) <= mem'.Keys && forall x | x in Nodes(l) :: mem'[x].ref == mem[x].ref
    ensures Run(mem', l) == Run(mem, l)
  {
    if l.Cons? {
      RunFrame(mem, mem', l.rest);
    }
  }

  /** A node that survives keeps its whole chain, contents and lengths. */
  lemma SurvivorsKeepChains(mem: Mem, mem': Mem, ext': multiset<nat>, b: nat, m: List)
    requires Ok(mem', ext') && Chain(mem, b, m) && b in mem'
    requires forall a | a in mem' :: a in mem && mem'[a] == mem[a].(ref := mem'[a].ref)
    ensures Chain(mem', b, m) && Flat(mem', m) == Flat(mem, m) && TotOk(mem', m) == TotOk(mem, m)
  {
    LinksClosed(mem', ext');
    ClosedChain(mem, mem', b, m);
    ChainNodes(mem', b, m);
    ChainNodes(mem, b, m);
    FlatFrame(mem, mem', m);
  }
}
