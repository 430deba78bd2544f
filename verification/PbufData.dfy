/** Copying into and out of pbuf chains (src/lib/liblwip/core/pbuf.c) against the flat byte string
    that a chain stands for. */
module PbufData {
  import opened Bytes
  import opened PbufGraph
  import opened PbufSpec

  /** At most `len` bytes of `s` from `off` on. */
  function Slice(s: seq<Byte>, off: nat, len: nat): seq<Byte> {
    if off >= |s| then [] else if off + len <= |s| then s[off..off + len] else s[off..]
  }

  /** `s` with `data` written over it at `at`. */
  function Overlay(s: seq<Byte>, at: nat, data: seq<Byte>): seq<Byte>
    requires at + |data| <= |s|
  {
    s[..at] + data + s[at + |data|..]
  }

  /** What is written is read back, and nothing else changes. */
  lemma OverlaySlice(s: seq<Byte>, at: nat, data: seq<Byte>)
    requires at + |data| <= |s|
    ensures |Overlay(s, at, data)| == |s| && Slice(Overlay(s, at, data), at, |data|) == data
    ensures forall i | 0 <= i < |s| && !(at <= i < at + |data|) :: Overlay(s, at, data)[i] == s[i]
  {
  }

  lemma OverlayMore(s: seq<Byte>, at: nat, d: seq<Byte>, e: seq<Byte>)
    requires at + |d| + |e| <= |s|
    ensures |Overlay(s, at, d)| == |s| && Overlay(Overlay(s, at, d), at + |d|, e) == Overlay(s, at, d + e)
  {
  }

  lemma OverlayNothing(s: seq<Byte>, at: nat)
    requires at <= |s|
    ensures Overlay(s, at, []) == s
  {
  }

  lemma OverlayInner(a: seq<Byte>, b: seq<Byte>, c: seq<Byte>, at: nat, d: seq<Byte>)
    requires at + |d| <= |b|
    ensures Overlay(a + (b + c), |a| + at, d) == a + (Overlay(b, at, d) + c)
  {
  }

  datatype Err = ErrOk | ErrMem | ErrArg | ErrVal

  // ---------------------------------------------------------------- reading

  /** The part of a slice that lies in the first piece, and the rest. */
  lemma SliceSplit(a: seq<Byte>, b: seq<Byte>, off: nat, len: nat)
    ensures off >= |a| ==> Slice(a + b, off, len) == Slice(b, off - |a|, len)
    ensures off <= |a| ==> var k := if |a| - off > len then len else |a| - off;
                           Slice(a + b, off, len) == a[off..off + k] + Slice(b, 0, len - k)
  {
    if off <= |a| {
      var k := if |a| - off > len then len else |a| - off;
      if k < len {
        assert Slice(b, 0, len - k) == if len - k <= |b| then b[..len - k] else b;
        assert off + len <= |a + b| ==> (a + b)[off..off + len] == a[off..off + k] + b[..len - k];
        assert (a + b)[off..] == a[off..off + k] + b;
      } else {
        assert Slice(b, 0, 0) == [];
        if off < |a + b| { assert (a + b)[off..off + len] == a[off..off + k]; }
      }
    }
  }

  lemma SliceEmpty(s: seq<Byte>, off: nat, len: nat)
    requires len == 0 || s == []
    ensures Slice(s, off, len) == []
  {
  }

  /** The contents of a chain, piece by piece. */
  lemma FlatHead(mem: Mem, p: nat, l: List)
    requires Chain(mem, p, l) && l.Cons? && Shaped(mem[p])
    ensures Flat(mem, l) == Payload(mem[p]) + Flat(mem, l.rest) && |Payload(mem[p])| == mem[p].len
    ensures Payload(mem[p]) == mem[p].buf[mem[p].off..mem[p].off + mem[p].len]
  {
  }

  // ---------------------------------------------------------------- writing

  /** A node with `data` written into its payload at `at`. */
  function Written(n: Node, at: nat, data: seq<Byte>): (r: Node)
    requires n.off + n.len <= |n.buf| && at + |data| <= n.len
    ensures r == n.(buf := r.buf)
  {
    n.(buf := Overlay(n.buf, n.off + at, data))
  }

  lemma WrittenPayload(n: Node, at: nat, data: seq<Byte>)
    requires Shaped(n) && at + |data| <= n.len
    ensures Shaped(Written(n, at, data)) && Payload(Written(n, at, data)) == Overlay(Payload(n), at, data)
  {
  }

  /** Only payload bytes of nodes in `s` differ. */
  ghost predicate Rewritten(mem: Mem, mem': Mem, s: set<nat>) {
    && mem'.Keys == mem.Keys
    && (forall a | a in mem :: SameShell(mem[a], mem'[a]))
    && (forall a | a in mem && a !in s :: mem'[a] == mem[a])
  }

  /** Two nodes differ at most in their payload bytes. */
  ghost predicate SameShell(n: Node, m: Node) {
    && m == n.(buf := m.buf) && |m.buf| == |n.buf|
    && forall i | 0 <= i < |n.buf| && !(n.off <= i < n.off + n.len) :: m.buf[i] == n.buf[i]
  }

  lemma WrittenShell(n: Node, at: nat, data: seq<Byte>)
    requires Shaped(n) && at + |data| <= n.len
    ensures SameShell(n, Written(n, at, data))
  {
  }

  lemma RewrittenSelf(mem: Mem, s: set<nat>)
    ensures Rewritten(mem, mem, s)
  {
  }

  lemma ShellTrans(n: Node, m: Node, k: Node)
    requires SameShell(n, m) && SameShell(m, k)
    ensures SameShell(n, k)
  {
  }

  lemma RewrittenMore(mem0: Mem, mem: Mem, s: set<nat>, q: nat, at: nat, data: seq<Byte>)
    requires Rewritten(mem0, mem, s) && q in mem && q in s && Shaped(mem[q]) && at + |data| <= mem[q].len
    ensures Rewritten(mem0, mem[q := Written(mem[q], at, data)], s)
  {
    WrittenShell(mem[q], at, data);
    hide SameShell, Written;
    assert SameShell(mem0[q], mem[q]);
    ShellTrans(mem0[q], mem[q], Written(mem[q], at, data));
  }

  /** Rewriting keeps chains and lengths, and the contents of chains elsewhere. */
  lemma RewrittenChain(mem: Mem, mem': Mem, s: set<nat>, p: nat, l: List)
    requires Rewritten(mem, mem', s) && Chain(mem, p, l)
    ensures Chain(mem', p, l)
    ensures Nodes(l) !! s ==> Flat(mem', l) == Flat(mem, l)
  {
    ChainNodes(mem, p, l);
    hide Chain, Flat, Payload, Last;
    forall x | x in Nodes(l) ensures x in mem && x in mem' && mem'[x].next == mem[x].next {
      assert SameShell(mem[x], mem'[x]);
    }
    ChainFrame(mem, mem', p, l);
    if Nodes(l) !! s { FlatFrame(mem, mem', l); }
  }

  lemma {:induction false} RewrittenTot(mem: Mem, mem': Mem, s: set<nat>, l: List)
    requires Rewritten(mem, mem', s) && TotOk(mem, l)
    ensures TotOk(mem', l) && |Flat(mem', l)| == |Flat(mem, l)|
  {
    if l.Cons? {
      RewrittenTot(mem, mem', s, l.rest);
      assert SameShell(mem[l.a], mem'[l.a]);
    }
  }

  lemma WriteGood(mem: Mem, ext: multiset<nat>, avail: nat, size: nat, q: nat, at: nat, data: seq<Byte>)
    requires Good(mem, ext, avail, size) && q in mem && Shaped(mem[q]) && at + |data| <= mem[q].len
    ensures Good(mem[q := Written(mem[q], at, data)], ext, avail, size)
  {
    hide Good;
    WrittenPayload(mem[q], at, data);
    ReshapeGood(mem, ext, avail, size, q, Written(mem[q], at, data));
  }

  /** Writing into one node of a chain overlays its contents. */
  lemma WriteFlat(mem: Mem, p: nat, l: List, pre: List, q: nat, post: List, at: nat, data: seq<Byte>)
    requires Chain(mem, p, l) && l == Append(pre, post) && Chain(mem, q, post) && post.Cons?
    requires Shaped(mem[q]) && at + |data| <= mem[q].len
    ensures |Flat(mem, pre)| + at + |data| <= |Flat(mem, l)|
    ensures Flat(mem[q := Written(mem[q], at, data)], l) == Overlay(Flat(mem, l), |Flat(mem, pre)| + at, data)
    ensures Flat(mem[q := Written(mem[q], at, data)], pre) == Flat(mem, pre)
  {
    hide Chain, Flat, Payload, Written, Append, Overlay;
    NonNull(mem, q, post);
    FlatHead(mem, q, post);
    var mem' := mem[q := Written(mem[q], at, data)];
    WriteParts(mem, p, l, pre, q, post, at, data);
    FlatAppend(mem, pre, post);
    FlatAppend(mem', pre, post);
    OverlayInner(Flat(mem, pre), Payload(mem[q]), Flat(mem, post.rest), at, data);
  }

  lemma WriteParts(mem: Mem, p: nat, l: List, pre: List, q: nat, post: List, at: nat, data: seq<Byte>)
    requires Chain(mem, p, l) && l == Append(pre, post) && Chain(mem, q, post) && post.Cons?
    requires Shaped(mem[q]) && at + |data| <= mem[q].len
    ensures var mem' := mem[q := Written(mem[q], at, data)];
            && Flat(mem', pre) == Flat(mem, pre)
            && |Payload(mem[q])| == mem[q].len
            && Flat(mem', post) == Overlay(Payload(mem[q]), at, data) + Flat(mem, post.rest)
  {
    var mem' := mem[q := Written(mem[q], at, data)];
    hide Shaped, Payload, Overlay;
    Unmixed(mem, p, pre, q, post);
    NoRepeat(mem, q, post);
    ChainNodes(mem, p, l);
    NodesAppend(pre, post);
    WrittenPayload(mem[q], at, data);
    FlatHead(mem, q, post);
    assert Flat(mem', post) == Payload(mem'[q]) + Flat(mem', post.rest);
    hide Chain, Flat, Written, Last, Append;
    FlatFrame(mem, mem', pre);
    FlatFrame(mem, mem', post.rest);
  }

  /** The two parts of a chain share no node. */
  lemma {:induction false} Unmixed(mem: Mem, p: nat, pre: List, q: nat, post: List)
    requires Chain(mem, p, Append(pre, post)) && Chain(mem, q, post)
    ensures Nodes(pre) !! Nodes(post)
    decreases pre
  {
    if pre.Cons? {
      NoRepeat(mem, p, Append(pre, post));
      NodesAppend(pre.rest, post);
      Unmixed(mem, mem[p].next, pre.rest, q, post);
    }
  }

  // ---------------------------------------------------------------- walking

  /** `q` is the node of chain `l` behind the nodes `pre`. */
  ghost predicate Cursor(mem: Mem, l: List, pre: List, q: nat, post: List) {
    l == Append(pre, post) && Chain(mem, q, post)
  }

  lemma CursorStart(mem: Mem, p: nat, l: List)
    requires Chain(mem, p, l)
    ensures Cursor(mem, l, Nil, p, l) && Flat(mem, Nil) == []
  {
  }

  lemma CursorHead(mem: Mem, l: List, pre: List, q: nat, post: List)
    requires Cursor(mem, l, pre, q, post)
    ensures |Flat(mem, l)| == |Flat(mem, pre)| + |Flat(mem, post)|
    ensures q != 0 ==> q in mem && post.Cons? && q in Nodes(l)
    ensures q == 0 ==> post.Nil? && Flat(mem, post) == []
  {
    NonNull(mem, q, post);
    FlatAppend(mem, pre, post);
    NodesAppend(pre, post);
  }

  lemma CursorStep(mem: Mem, l: List, pre: List, q: nat, post: List)
    requires Cursor(mem, l, pre, q, post) && q != 0 && q in mem && post.Cons? && Shaped(mem[q])
    ensures Cursor(mem, l, Append(pre, Cons(q, Nil)), mem[q].next, post.rest)
    ensures |Flat(mem, Append(pre, Cons(q, Nil)))| == |Flat(mem, pre)| + mem[q].len
    ensures |Flat(mem, post)| == mem[q].len + |Flat(mem, post.rest)|
  {
    AppendMid(pre, q, post.rest);
    FlatAppend(mem, pre, Cons(q, Nil));
    assert Flat(mem, Cons(q, Nil)) == Payload(mem[q]);
  }

  /** Writing at the cursor. */
  lemma CursorWrite(mem: Mem, p: nat, l: List, pre: List, q: nat, post: List, at: nat, data: seq<Byte>)
    requires Cursor(mem, l, pre, q, post) && Chain(mem, p, l) && post.Cons? && q in mem && Shaped(mem[q]) && at + |data| <= mem[q].len
    ensures var mem' := mem[q := Written(mem[q], at, data)];
            && Cursor(mem', l, pre, q, post) && Chain(mem', p, l)
            && |Flat(mem, pre)| + at + |data| <= |Flat(mem, l)|
            && Flat(mem', l) == Overlay(Flat(mem, l), |Flat(mem, pre)| + at, data)
            && |Flat(mem', pre)| == |Flat(mem, pre)|
  {
    hide Shaped;
    WriteFlat(mem, p, l, pre, q, post, at, data);
    WriteChain(mem, q, at, data, p, l);
    WriteChain(mem, q, at, data, q, post);
    hide Chain, Written, Overlay, Flat;
  }

  lemma WriteChain(mem: Mem, q: nat, at: nat, data: seq<Byte>, p: nat, l: List)
    requires q in mem && Shaped(mem[q]) && at + |data| <= mem[q].len && Chain(mem, p, l)
    ensures Chain(mem[q := Written(mem[q], at, data)], p, l)
  {
    ChainNodes(mem, p, l);
    ChainFrame(mem, mem[q := Written(mem[q], at, data)], p, l);
  }

  lemma EmptyEnd(mem: Mem, p: nat, l: List, len: nat)
    requires Chain(mem, p, l) && (len == 0 || p == 0)
    ensures len == 0 || Flat(mem, l) == []
  {
  }

  /** `k` payload bytes of a node from `off` on. */
  function Piece(n: Node, off: nat, k: nat): (r: seq<Byte>)
    requires Shaped(n) && off + k <= n.len
    ensures |r| == k
  {
    n.buf[n.off + off..n.off + off + k]
  }

  lemma CopyStep(mem: Mem, p: nat, l: List, off: nat, len: nat)
    requires Chain(mem, p, l) && l.Cons? && Shaped(mem[p])
    ensures off >= mem[p].len ==> Slice(Flat(mem, l), off, len) == Slice(Flat(mem, l.rest), off - mem[p].len, len)
    ensures off <= mem[p].len ==>
      var k := if mem[p].len - off > len then len else mem[p].len - off;
      Slice(Flat(mem, l), off, len) == Piece(mem[p], off, k) + Slice(Flat(mem, l.rest), 0, len - k)
  {
    FlatHead(mem, p, l);
    hide Flat, Slice, Chain, Piece, Payload;
    SliceSplit(Payload(mem[p]), Flat(mem, l.rest), off, len);
    PieceOfPayload(mem[p], 0, 0);
    if off <= mem[p].len { PieceOfPayload(mem[p], off, if mem[p].len - off > len then len else mem[p].len - off); }
  }

  lemma AddPiece(a: seq<Byte>, b: seq<Byte>, c: seq<Byte>)
    ensures a + (b + c) == (a + b) + c && |a + (b + c)| >= |a| + |b|
  {
  }

  // ---------------------------------------------------------------- pbuf_take and pbuf_take_at

  /** A write of `d` in progress: the chain `l` holds its old contents with `d` laid over them. */
  ghost predicate Laid(mem0: Mem, mem: Mem, p: nat, l: List, at: nat, d: seq<Byte>) {
    && Chain(mem, p, l) && Rewritten(mem0, mem, Nodes(l))
    && |Flat(mem, l)| == |Flat(mem0, l)| && at + |d| <= |Flat(mem0, l)|
    && Flat(mem, l) == Overlay(Flat(mem0, l), at, d)
  }

  lemma LaidStart(mem: Mem, p: nat, l: List, at: nat)
    requires Chain(mem, p, l) && at <= |Flat(mem, l)|
    ensures Laid(mem, mem, p, l, at, [])
  {
    OverlayNothing(Flat(mem, l), at);
    RewrittenSelf(mem, Nodes(l));
  }

  /** The next piece, written at the cursor where the last one ended. */
  lemma LaidMore(mem0: Mem, mem: Mem, p: nat, l: List, at: nat, d: seq<Byte>,
                                    pre: List, q: nat, post: List, k: nat, e: seq<Byte>)
    requires Laid(mem0, mem, p, l, at, d) && Cursor(mem, l, pre, q, post) && q != 0
    requires q in mem && Shaped(mem[q]) && k + |e| <= mem[q].len && at + |d| == |Flat(mem, pre)| + k
    ensures var mem' := mem[q := Written(mem[q], k, e)];
            && Laid(mem0, mem', p, l, at, d + e) && Cursor(mem', l, pre, q, post)
            && |Flat(mem', pre)| == |Flat(mem, pre)|
  {
    hide Flat, Chain, Overlay, Written, Rewritten, Cursor, Shaped;
    CursorHead(mem, l, pre, q, post);
    CursorWrite(mem, p, l, pre, q, post, k, e);
    RewrittenMore(mem0, mem, Nodes(l), q, k, e);
    OverlayMore(Flat(mem0, l), at, d, e);
    OverlayLength(Flat(mem0, l), at, d + e);
  }

  lemma OverlayLength(s: seq<Byte>, at: nat, d: seq<Byte>)
    requires at + |d| <= |s|
    ensures |Overlay(s, at, d)| == |s|
  {
  }

  /** A second write, into a later part of the chain. */
  lemma LaidTail(mem0: Mem, mem1: Mem, mem2: Mem, p: nat, l: List, at: nat, d: seq<Byte>,
                                    pre: List, q: nat, post: List, e: seq<Byte>)
    requires Laid(mem0, mem1, p, l, at, d) && Cursor(mem1, l, pre, q, post) && Laid(mem1, mem2, q, post, 0, e)
    requires at + |d| == |Flat(mem1, pre)|
    ensures Laid(mem0, mem2, p, l, at, d + e)
  {
    hide Flat, Chain, Overlay, Last, Rewritten, Append, Nodes;
    NodesAppend(pre, post);
    Unmixed(mem1, p, pre, q, post);
    ChainNodes(mem1, p, l);
    RewrittenTrans(mem0, mem1, mem2, Nodes(l), Nodes(post));
    RewrittenChain(mem1, mem2, Nodes(post), p, l);
    RewrittenFlat(mem1, mem2, Nodes(post), pre);
    FlatAppend(mem1, pre, post);
    FlatAppend(mem2, pre, post);
    OverlayTail(Flat(mem1, pre), Flat(mem1, post), e);
    OverlayMore(Flat(mem0, l), at, d, e);
    OverlayLength(Flat(mem0, l), at, d + e);
  }

  lemma RewrittenFlat(mem: Mem, mem': Mem, s: set<nat>, l: List)
    requires Rewritten(mem, mem', s) && Nodes(l) !! s && Nodes(l) <= mem.Keys
    ensures Flat(mem', l) == Flat(mem, l)
  {
    hide SameShell, Flat, Payload;
    FlatFrame(mem, mem', l);
  }

  lemma OverlayTail(a: seq<Byte>, b: seq<Byte>, e: seq<Byte>)
    requires |e| <= |b|
    ensures Overlay(a + b, |a|, e) == a + Overlay(b, 0, e)
  {
  }

  lemma RewrittenTrans(mem0: Mem, mem1: Mem, mem2: Mem, s: set<nat>, t: set<nat>)
    requires Rewritten(mem0, mem1, s) && Rewritten(mem1, mem2, t) && t <= s
    ensures Rewritten(mem0, mem2, s)
  {
    forall a | a in mem0 ensures SameShell(mem0[a], mem2[a]) {
      ShellTrans(mem0[a], mem1[a], mem2[a]);
    }
    hide SameShell;
  }

  /** Whether the target of a write is long enough shows in the 16-bit tot_len. */
  lemma TotBelow(mem: Mem, p: nat, l: List)
    requires Chain(mem, p, l) && p != 0 && TotOk(mem, l)
    ensures p in mem && mem[p].tot <= |Flat(mem, l)| && mem[p].tot == Cut16(|Flat(mem, l)|)
  {
    NonNull(mem, p, l);
    HeadTot(mem, l);
    CutBelow(|Flat(mem, l)|);
  }

  lemma LaidLength(mem0: Mem, mem: Mem, p: nat, l: List, at: nat, d: seq<Byte>)
    requires Laid(mem0, mem, p, l, at, d)
    ensures |Flat(mem, l)| == |Flat(mem0, l)| && Chain(mem, p, l)
  {
  }

  /** The room that pbuf_take_at sees is the room that pbuf_take sees in the next node. */
  lemma RoomBehind(mem: Mem, q: nat, post: List)
    requires Chain(mem, q, post) && q != 0 && TotOk(mem, post) && q in mem && Shaped(mem[q]) && mem[q].tot > mem[q].len
    ensures mem[q].next != 0 && mem[q].next in mem && mem[mem[q].next].tot == mem[q].tot - mem[q].len
  {
    NonNull(mem, q, post);
    var r := post.rest;
    NonNull(mem, mem[q].next, r);
    assert |Flat(mem, post)| == mem[q].len + |Flat(mem, r)|;
    if r.Nil? {
      assert false;
    } else {
      TailTot(mem, q, post);
      assert Cut16(mem[q].tot - mem[q].len) == mem[q].tot - mem[q].len;
    }
  }

  lemma {:induction false} CursorTot(mem: Mem, l: List, pre: List, q: nat, post: List)
    requires TotOk(mem, l) && l == Append(pre, post)
    ensures TotOk(mem, post)
    decreases pre
  {
    if pre.Cons? { CursorTot(mem, l.rest, pre.rest, q, post); }
  }

  lemma LaidTot(mem0: Mem, mem: Mem, p: nat, l: List, at: nat, d: seq<Byte>)
    requires Laid(mem0, mem, p, l, at, d) && TotOk(mem0, l)
    ensures TotOk(mem, l) && Chain(mem, p, l)
  {
    RewrittenTot(mem0, mem, Nodes(l), l);
  }

  /** Reading back what pbuf_take_at has written returns the data; every other byte is as before. */
  lemma TakeThenCopy(mem0: Mem, mem: Mem, p: nat, l: List, at: nat, data: seq<Byte>)
    requires Laid(mem0, mem, p, l, at, data)
    ensures Slice(Flat(mem, l), at, |data|) == data
    ensures forall i | 0 <= i < |Flat(mem0, l)| && !(at <= i < at + |data|) :: Flat(mem, l)[i] == Flat(mem0, l)[i]
  {
    OverlaySlice(Flat(mem0, l), at, data);
  }

  lemma CursorTail(mem: Mem, l: List, pre: List, q: nat, post: List)
    requires Cursor(mem, l, pre, q, post) && TotOk(mem, l)
    ensures Chain(mem, q, post) && TotOk(mem, post) && |Flat(mem, l)| == |Flat(mem, pre)| + |Flat(mem, post)|
    ensures q != 0 ==> q in mem && post.Cons?
  {
    CursorTot(mem, l, pre, q, post);
    NonNull(mem, q, post);
    FlatAppend(mem, pre, post);
  }

  ghost predicate ShapedList(mem: Mem, l: List) { forall x | x in Nodes(l) && x in mem :: Shaped(mem[x]) }

  /** The node that holds byte `off` of the chain counts at least `n` bytes from there on. */
  ghost predicate Room(mem: Mem, l: List, off: int, n: nat) {
    match l
    case Nil => false
    case Cons(a, r) => a in mem && if off < mem[a].len then off + n <= mem[a].tot else Room(mem, r, off - mem[a].len, n)
  }

  /** Where the byte is decides. */
  lemma {:induction false} RoomAt(mem: Mem, l: List, pre: List, q: nat, post: List, at: nat, n: nat)
    requires Cursor(mem, l, pre, q, post) && ShapedList(mem, l) && Nodes(l) <= mem.Keys && (q != 0 ==> q in mem && at < mem[q].len)
    ensures Room(mem, l, |Flat(mem, pre)| + at, n) <==> q != 0 && q in mem && at + n <= mem[q].tot
    decreases pre
  {
    NonNull(mem, q, post);
    if pre.Cons? {
      assert l.a == pre.a && pre.a in mem && Shaped(mem[pre.a]);
      assert |Flat(mem, pre)| == mem[pre.a].len + |Flat(mem, pre.rest)|;
      RoomAt(mem, l.rest, pre.rest, q, post, at, n);
    }
  }

  // ---------------------------------------------------------------- pbuf_copy_partial_pbuf

  /** No node but the last one looks like the end of a packet. */
  ghost predicate NoQueue(mem: Mem, l: List) {
    forall x | x in Nodes(l) && x in mem :: mem[x].len == mem[x].tot ==> mem[x].next == 0
  }

  /** Below 64K a chain with right lengths looks like a queue exactly if it has several nodes and the
      last one is empty. */
  lemma {:induction false} NoQueueExactly(mem: Mem, p: nat, l: List)
    requires Chain(mem, p, l) && l.Cons? && TotOk(mem, l) && |Flat(mem, l)| < 0x10000 && ShapedList(mem, l)
    ensures Last(l) in mem
    ensures NoQueue(mem, l) <==> l.rest.Nil? || mem[Last(l)].len > 0
    ensures |Flat(mem, l)| == 0 ==> mem[Last(l)].len == 0
    decreases l
  {
    FlatHead(mem, p, l);
    CutSmall(|Flat(mem, l)|);
    if l.rest.Cons? {
      NoQueueExactly(mem, mem[p].next, l.rest);
      assert NoQueue(mem, l) <==> mem[p].len != mem[p].tot && NoQueue(mem, l.rest);
      if l.rest.rest.Nil? {
        FlatHead(mem, mem[p].next, l.rest);
        assert Flat(mem, Nil) == [];
        assert mem[p].len != mem[p].tot <==> mem[Last(l)].len > 0;
      }
    } else {
      assert mem[p].next == 0;
      assert Nodes(l) == {p};
      assert NoQueue(mem, l);
    }
  }

  lemma PieceOfFlat(mem: Mem, l: List, pre: List, q: nat, post: List, off: nat, k: nat)
    requires Cursor(mem, l, pre, q, post) && q != 0 && q in mem && Shaped(mem[q]) && off + k <= mem[q].len
    ensures var at := |Flat(mem, pre)| + off;
            at + k <= |Flat(mem, l)| && Flat(mem, l)[..at] + Piece(mem[q], off, k) == Flat(mem, l)[..at + k]
  {
    hide Flat, Chain, Append, Payload, Piece;
    NonNull(mem, q, post);
    FlatHead(mem, q, post);
    FlatAppend(mem, pre, post);
    PieceOfPayload(mem[q], off, k);
    PieceOf(Flat(mem, pre), Payload(mem[q]), Flat(mem, post.rest), off, k);
  }

  lemma PieceOfPayload(n: Node, off: nat, k: nat)
    requires Shaped(n) && off + k <= n.len
    ensures |Payload(n)| == n.len && Piece(n, off, k) == Payload(n)[off..off + k]
  {
    assert n.buf[n.off..n.off + n.len][off..off + k] == n.buf[n.off + off..n.off + off + k];
  }

  lemma PieceOf(a: seq<Byte>, b: seq<Byte>, c: seq<Byte>, off: nat, k: nat)
    requires off + k <= |b|
    ensures (a + (b + c))[..|a| + off] + b[off..off + k] == (a + (b + c))[..|a| + off + k]
  {
  }

  /** How far a copy between two chains has come. */
  ghost predicate Copied(mem0: Mem, mem: Mem, to: nat, lt: List, from: nat, lf: List, offset: nat, done: nat) {
    && Chain(mem, from, lf) && Flat(mem, lf) == Flat(mem0, lf) && done <= |Flat(mem0, lf)|
    && Laid(mem0, mem, to, lt, offset, Flat(mem0, lf)[..done])
  }

  lemma CopiedStart(mem: Mem, to: nat, lt: List, from: nat, lf: List, offset: nat)
    requires Chain(mem, to, lt) && Chain(mem, from, lf) && offset <= |Flat(mem, lt)|
    ensures Copied(mem, mem, to, lt, from, lf, offset, 0)
  {
    LaidStart(mem, to, lt, offset);
    assert Flat(mem, lf)[..0] == [];
  }

  /** One memcpy of the loop. */
  lemma CopiedMore(mem0: Mem, mem: Mem, to: nat, lt: List, from: nat, lf: List, offset: nat, done: nat,
                                      preT: List, q: nat, postT: List, offT: nat, preF: List, f: nat, postF: List, offF: nat, k: nat)
    requires Copied(mem0, mem, to, lt, from, lf, offset, done) && Nodes(lt) !! Nodes(lf)
    requires Cursor(mem, lt, preT, q, postT) && q != 0 && q in mem && Shaped(mem[q]) && offT + k <= mem[q].len
    requires Cursor(mem, lf, preF, f, postF) && f != 0 && f in mem && Shaped(mem[f]) && offF + k <= mem[f].len
    requires offset + done == |Flat(mem, preT)| + offT && done == |Flat(mem, preF)| + offF
    ensures var mem' := mem[q := Written(mem[q], offT, Piece(mem[f], offF, k))];
            && Copied(mem0, mem', to, lt, from, lf, offset, done + k)
            && Cursor(mem', lt, preT, q, postT) && Cursor(mem', lf, preF, f, postF)
            && |Flat(mem', preT)| == |Flat(mem, preT)| && |Flat(mem', preF)| == |Flat(mem, preF)|
  {
    hide Flat, Chain, Laid, Written, Piece, Shaped, Append, Nodes, Cursor;
    CursorHead(mem, lt, preT, q, postT);
    CursorHead(mem, lf, preF, f, postF);
    PieceOfFlat(mem, lf, preF, f, postF, offF, k);
    LaidMore(mem0, mem, to, lt, offset, Flat(mem0, lf)[..done], preT, q, postT, offT, Piece(mem[f], offF, k));
    ElsewhereKept(mem, q, offT, Piece(mem[f], offF, k), from, lf, preF, f, postF);
  }

  lemma ElsewhereKept(mem: Mem, q: nat, at: nat, e: seq<Byte>, from: nat, lf: List, pre: List, f: nat, post: List)
    requires q in mem && Shaped(mem[q]) && at + |e| <= mem[q].len && q !in Nodes(lf) && Chain(mem, from, lf)
    requires Cursor(mem, lf, pre, f, post)
    ensures var mem' := mem[q := Written(mem[q], at, e)];
            && Chain(mem', from, lf) && Flat(mem', lf) == Flat(mem, lf) && Cursor(mem', lf, pre, f, post)
            && |Flat(mem', pre)| == |Flat(mem, pre)|
  {
    WriteChain(mem, q, at, e, from, lf);
    WriteChain(mem, q, at, e, f, post);
    NodesAppend(pre, post);
    ChainNodes(mem, from, lf);
    hide Flat, Chain, Written, Last;
    FlatFrame(mem, mem[q := Written(mem[q], at, e)], lf);
    FlatFrame(mem, mem[q := Written(mem[q], at, e)], pre);
  }

  /** Rewriting does not make a queue. */
  lemma NoQueueAt(mem0: Mem, mem: Mem, to: nat, lt: List, offset: nat, d: seq<Byte>, l: List, x: nat)
    requires Laid(mem0, mem, to, lt, offset, d) && x in Nodes(l) && x in mem && NoQueue(mem0, l)
    ensures mem[x].len == mem[x].tot ==> mem[x].next == 0
  {
    assert SameShell(mem0[x], mem[x]);
  }

  /** While bytes are left to copy neither chain has ended, and a node that looks like the end of
      a packet is the last. */
  lemma RoomLeft(mem0: Mem, mem: Mem, to: nat, lt: List, from: nat, lf: List, offset: nat, done: nat, copyLen: nat,
                                    preT: List, q: nat, postT: List, preF: List, f: nat, postF: List)
    requires Copied(mem0, mem, to, lt, from, lf, offset, done) && done <= copyLen
    requires copyLen <= |Flat(mem0, lf)| && offset + copyLen <= |Flat(mem0, lt)|
    requires Cursor(mem, lt, preT, q, postT) && Cursor(mem, lf, preF, f, postF)
    ensures q == 0 && offset + done == |Flat(mem, preT)| ==> done == copyLen
    ensures f == 0 && done == |Flat(mem, preF)| ==> done == copyLen
    ensures q != 0 ==> q in mem && (NoQueue(mem0, lt) && mem[q].len == mem[q].tot ==> mem[q].next == 0)
    ensures f != 0 ==> f in mem && (NoQueue(mem0, lf) && mem[f].len == mem[f].tot ==> mem[f].next == 0)
  {
    hide Flat, Chain, Laid, Cursor, Nodes, NoQueue;
    LaidLength(mem0, mem, to, lt, offset, Flat(mem0, lf)[..done]);
    CursorHead(mem, lt, preT, q, postT);
    CursorHead(mem, lf, preF, f, postF);
    if q != 0 && NoQueue(mem0, lt) { NoQueueAt(mem0, mem, to, lt, offset, Flat(mem0, lf)[..done], lt, q); }
    if f != 0 && NoQueue(mem0, lf) { NoQueueAt(mem0, mem, to, lt, offset, Flat(mem0, lf)[..done], lf, f); }
  }

  lemma CopiedDone(mem0: Mem, mem: Mem, to: nat, lt: List, from: nat, lf: List, offset: nat, done: nat)
    requires Copied(mem0, mem, to, lt, from, lf, offset, done)
    ensures done <= |Flat(mem0, lf)| && Laid(mem0, mem, to, lt, offset, Flat(mem0, lf)[..done]) && Flat(mem, lf) == Flat(mem0, lf)
  {
  }

  // ---------------------------------------------------------------- pbuf_split_64k

  /** The chain `l` cut in two behind the node `i`, with `d` added to the lengths in front. */
  ghost predicate SplitAt(mem0: Mem, mem: Mem, p: nat, l: List, pre: List, i: nat, r: nat, back: List, d: int) {
    && Chain(mem0, p, l) && l == Append(pre, Cons(i, back)) && i in mem0 && i in mem && mem0[i].next == r && Chain(mem0, r, back)
    && mem.Keys == mem0.Keys && i != 0
    && (forall x | x in mem0 && x in Nodes(pre) :: mem[x] == Lengthened(mem0[x], d))
    && mem[i] == Lengthened(mem0[i], d).(next := 0)
    && (forall x | x in mem0 && x !in Nodes(pre) && x != i :: mem[x] == mem0[x])
  }

  /** Where the front ends. */
  lemma FrontNodes(mem0: Mem, p: nat, l: List, pre: List, i: nat, r: nat, back: List)
    requires Chain(mem0, p, l) && l == Append(pre, Cons(i, back)) && i in mem0 && i != 0 && mem0[i].next == r && Chain(mem0, r, back)
    ensures i !in Nodes(pre) && i !in Nodes(back) && Nodes(pre) !! Nodes(back) && Nodes(l) <= mem0.Keys
    ensures Nodes(l) == Nodes(pre) + {i} + Nodes(back)
    ensures Nodes(Append(pre, Cons(i, Nil))) == Nodes(pre) + {i}
    ensures l == Append(Append(pre, Cons(i, Nil)), back)
  {
    assert Chain(mem0, i, Cons(i, back));
    Unmixed(mem0, p, pre, i, Cons(i, back));
    NoRepeat(mem0, i, Cons(i, back));
    ChainNodes(mem0, p, l);
    NodesAppend(pre, Cons(i, back));
    NodesAppend(pre, Cons(i, Nil));
    AppendMid(pre, i, back);
  }

  /** Both halves are chains whose contents make up the whole. */
  lemma SplitContents(mem0: Mem, mem: Mem, p: nat, l: List, pre: List, i: nat, r: nat, back: List, d: int)
    requires SplitAt(mem0, mem, p, l, pre, i, r, back, d)
    ensures var front := Append(pre, Cons(i, Nil));
            && Chain(mem, p, front) && Chain(mem, r, back) && Nodes(front) !! Nodes(back) && l == Append(front, back)
            && Flat(mem, front) == Flat(mem0, front) && Flat(mem, back) == Flat(mem0, back)
            && Flat(mem0, l) == Flat(mem0, front) + Flat(mem0, back)
            && (TotOk(mem0, back) ==> TotOk(mem, back)) && Kept(mem0, mem, Nodes(l))
  {
    var front := Append(pre, Cons(i, Nil));
    FrontNodes(mem0, p, l, pre, i, r, back);
    SplitChains(mem0, mem, p, l, pre, i, r, back, d);
    hide Chain, Flat, TotOk, Lengthened, Append, Cut16;
    FlatFrame(mem0, mem, front);
    FlatFrame(mem0, mem, back);
    FlatAppend(mem0, front, back);
  }

  lemma SplitChains(mem0: Mem, mem: Mem, p: nat, l: List, pre: List, i: nat, r: nat, back: List, d: int)
    requires SplitAt(mem0, mem, p, l, pre, i, r, back, d)
    ensures Chain(mem, p, Append(pre, Cons(i, Nil))) && Chain(mem, r, back)
  {
    hide Lengthened, Cut16;
    FrontNodes(mem0, p, l, pre, i, r, back);
    PrefixChain(mem0, mem, p, pre, i, Cons(i, back));
    hide Chain;
    ChainFrame(mem0, mem, r, back);
  }

  /** Taking the length of the rest off the wrapped lengths leaves exact ones. */
  lemma SplitLengths(mem0: Mem, mem: Mem, p: nat, l: List, pre: List, i: nat, r: nat, back: List, d: int)
    requires SplitAt(mem0, mem, p, l, pre, i, r, back, d) && TotOk(mem0, l)
    requires back.Cons? ==> r in mem0 && d + mem0[r].tot == 0
    requires back.Nil? ==> d == 0
    requires |Flat(mem0, Append(pre, Cons(i, Nil)))| < 0x10000
    ensures TotOk(mem, Append(pre, Cons(i, Nil))) && Ahead(mem, Append(pre, Cons(i, Nil)), 0)
  {
    hide SplitAt, Chain, TotOk, Append, Flat, Ahead, Cut16, Payload;
    var front := Append(pre, Cons(i, Nil));
    SplitNodes(mem0, mem, p, l, pre, i, r, back, d);
    SplitContents(mem0, mem, p, l, pre, i, r, back, d);
    CursorTot(mem0, l, front, r, back);
    BackCut(mem0, back, r, d);
    BackCut(mem, Nil, 0, 0);
    RetailTot(mem0, mem, front, back, Nil, d);
    NilTail(mem, front);
    ExactTot(mem, front);
  }

  lemma SplitNodes(mem0: Mem, mem: Mem, p: nat, l: List, pre: List, i: nat, r: nat, back: List, d: int)
    requires SplitAt(mem0, mem, p, l, pre, i, r, back, d)
    ensures var front := Append(pre, Cons(i, Nil));
            && Nodes(front) <= mem0.Keys && Nodes(front) <= mem.Keys
            && (forall x | x in Nodes(front) :: Payload(mem[x]) == Payload(mem0[x]))
            && (forall x | x in Nodes(front) :: mem[x].tot == Cut16(mem0[x].tot + d))
    ensures Chain(mem0, r, back) && Chain(mem, 0, Nil)
  {
    hide Append, Cut16, Lengthened, Nodes, Chain;
    FrontNodes(mem0, p, l, pre, i, r, back);
    BackCut(mem, Nil, 0, 0);
    var front := Append(pre, Cons(i, Nil));
    forall x | x in Nodes(front)
      ensures x in mem0 && x in mem && mem[x] == Lengthened(mem0[x], d).(next := mem[x].next) {}
  }

  lemma BackCut(mem: Mem, back: List, r: nat, d: int)
    requires TotOk(mem, back) && Chain(mem, r, back)
    requires back.Cons? ==> r in mem && d + mem[r].tot == 0
    requires back.Nil? ==> d == 0
    ensures Cut16(|Flat(mem, Nil)|) == Cut16(|Flat(mem, back)| + d)
    ensures TotOk(mem, Nil) && Flat(mem, Nil) == [] && Chain(mem, 0, Nil)
  {
  }

  /** Lengths that are right modulo 2^16 are exact in a chain shorter than 64K. */
  lemma {:induction false} ExactTot(mem: Mem, l: List)
    requires TotOk(mem, l) && |Flat(mem, l)| < 0x10000
    ensures Ahead(mem, l, 0)
  {
    if l.Cons? {
      ExactTot(mem, l.rest);
      CutSmall(|Flat(mem, l)|);
    }
  }

  lemma NilChain(mem: Mem)
    ensures Chain(mem, 0, Nil) && TotOk(mem, Nil) && Flat(mem, Nil) == []
  {
  }

  /** A chain of at most one node is not split. */
  lemma Unsplit(mem: Mem, ext: multiset<nat>, avail: nat, size: nat, p: nat, l: List)
    requires Good(mem, ext, avail, size) && Chain(mem, p, l) && TotOk(mem, l) && (p == 0 || (p in mem && mem[p].next == 0))
    ensures |Flat(mem, l)| < 0x10000 && Ahead(mem, l, 0) && Append(l, Nil) == l && Kept(mem, mem, Nodes(l))
  {
    hide Good;
    NonNull(mem, p, l);
    if p != 0 {
      ShapedAt(mem, ext, avail, size, p);
      FlatHead(mem, p, l);
      assert Flat(mem, Nil) == [];
      LastAlone(mem, p, l);
    }
    NilTail(mem, l);
    ExactTot(mem, l);
  }

  /** Cutting behind `i` and adding `d` to the lengths in front is the split. */
  lemma SplitIs(mem0: Mem, mem1: Mem, mem: Mem, p: nat, l: List, pre: List, i: nat, r: nat, back: List, d: int)
    requires Chain(mem0, p, l) && l == Append(pre, Cons(i, back)) && i in mem0 && i != 0 && mem0[i].next == r && Chain(mem0, r, back)
    requires mem1 == mem0[i := mem0[i].(next := 0)]
    requires Bumped(mem1, mem, Nodes(Append(pre, Cons(i, Nil))), d)
    ensures SplitAt(mem0, mem, p, l, pre, i, r, back, d)
  {
    hide Lengthened, Append, Nodes, Chain;
    FrontNodes(mem0, p, l, pre, i, r, back);
    assert Lengthened(mem1[i], d) == Lengthened(mem0[i], d).(next := 0);
  }

  /** Flags and counts play no part in chains, contents and lengths. */
  lemma FinKeepsContents(mem: Mem, t: nat, h: nat, l: List)
    requires t in mem && Chain(mem, h, l)
    ensures var mem' := mem[t := mem[t].(fin := true)];
            Chain(mem', h, l) && Flat(mem', l) == Flat(mem, l) && TotOk(mem', l) == TotOk(mem, l)
  {
    var mem' := mem[t := mem[t].(fin := true)];
    ChainNodes(mem, h, l);
    hide Chain, Flat, TotOk, Last;
    ChainFrame(mem, mem', h, l);
    FlatFrame(mem, mem', l);
  }

  lemma BumpedOne(mem: Mem, mem': Mem, done: set<nat>, d: int, i: nat)
    requires Bumped(mem, mem', done, d) && i in mem && i !in done
    ensures i in mem' && mem'[i] == mem[i] && Lengthened(mem'[i], d).next == mem[i].next
    ensures Bumped(mem, mem'[i := Lengthened(mem'[i], d)], done + {i}, d)
  {
    hide Lengthened;
  }

  lemma ShapedFin(mem: Mem, ext: multiset<nat>, avail: nat, size: nat, r: nat)
    requires Good(mem, ext, avail, size) && r in mem
    ensures Shaped(mem[r].(fin := true))
  {
  }

  lemma KeptFin(mem0: Mem, mem: Mem, r: nat, s: set<nat>)
    requires Kept(mem0, mem, s) && r in mem && r in s
    ensures Kept(mem0, mem[r := mem[r].(fin := true)], s)
  {
  }

  lemma NoWrap(n: nat, k: nat)
    requires n < 0x10000 && k < 0x10000
    ensures Cut16(n + k) >= n ==> Cut16(n + k) == n + k < 0x10000
    ensures Cut16(n + k) < n ==> n + k >= 0x10000
  {
  }

  lemma CursorIs(mem: Mem, l: List, pre: List, i: nat, post: List)
    requires Cursor(mem, l, pre, i, post) && i != 0
    ensures post.Cons? && l == Append(pre, Cons(i, post.rest)) && i in mem && Chain(mem, mem[i].next, post.rest)
  {
  }

  lemma FrontChain(mem0: Mem, mem1: Mem, p: nat, l: List, pre: List, i: nat, r: nat, back: List)
    requires Chain(mem0, p, l) && l == Append(pre, Cons(i, back)) && i in mem0 && i != 0 && mem0[i].next == r && Chain(mem0, r, back)
    requires mem1 == mem0[i := mem0[i].(next := 0)]
    ensures Chain(mem1, p, Append(pre, Cons(i, Nil)))
  {
    FrontNodes(mem0, p, l, pre, i, r, back);
    PrefixChain(mem0, mem1, p, pre, i, Cons(i, back));
  }

  lemma BumpNothing(mem: Mem, ext: multiset<nat>, avail: nat, size: nat, s: set<nat>)
    requires Good(mem, ext, avail, size)
    ensures Bumped(mem, mem, s, 0)
  {
    forall a | a in mem ensures Lengthened(mem[a], 0) == mem[a] {
      assert Shaped(mem[a]);
      CutSmall(mem[a].tot);
    }
    hide Good;
  }

  lemma BackTot(mem0: Mem, mem: Mem, l: List, front: List, r: nat, back: List)
    requires TotOk(mem0, l) && l == Append(front, back) && (TotOk(mem0, back) ==> TotOk(mem, back))
    ensures TotOk(mem, back)
  {
    CursorTot(mem0, l, front, r, back);
  }

  lemma SplitFlags(mem0: Mem, mem: Mem, p: nat, l: List, pre: List, i: nat, r: nat, back: List, d: int)
    requires SplitAt(mem0, mem, p, l, pre, i, r, back, d) && p != 0
    ensures p in mem && p in mem0 && mem[p].fin == mem0[p].fin
    ensures r != 0 ==> r in mem && r in mem0 && mem[r] == mem0[r] && r in Nodes(l)
  {
    hide Append, Lengthened;
    NonNull(mem0, p, l);
    NonNull(mem0, r, back);
    FrontNodes(mem0, p, l, pre, i, r, back);
    hide Chain, Nodes;
  }
}
