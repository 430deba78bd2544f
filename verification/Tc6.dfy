/** Reassembly of received Ethernet frames (src/microchip/TC6_Arduino_10BASE_T1S.cpp): the callbacks
    that the TC6 library makes for every slice of a frame and at its end. */
module Tc6 {
  import opened Bytes

  /** TC6LwIP_MTU and MIN_HEADER_LEN */
  const Mtu: nat := 1536
  const MinHeader: nat := 42

  /** The receive pbuf: none, or one with a payload of Mtu bytes. Pbufs are numbered in the order in
      which they are allocated. */
  datatype Slot = Empty | Held(id: nat, bytes: seq<Byte>)

  /** What pbuf_alloc gives: nothing, a chain, or one pbuf; the memory holds some bytes. */
  datatype Alloc = Fails | Chained | Gets(dust: seq<Byte>)

  /** The receive fields, how many pbufs were allocated, which were freed, which were handed to the
      stack, and the frames in these. */
  datatype State = State(pbuf: Slot, rxLen: nat, invalid: bool, taken: nat, freed: multiset<nat>, given: multiset<nat>,
                         delivered: seq<seq<Byte>>)

  /** The one pbuf that is held, if any. */
  function Holding(s: State): multiset<nat> { if s.pbuf.Held? then multiset{s.pbuf.id} else multiset{} }

  /** How often pbuf `id` has been freed, handed over, or is held. */
  function Fates(s: State, id: nat): nat { s.freed[id] + s.given[id] + Holding(s)[id] }

  /** Every pbuf that was allocated is freed once, handed over once or held, and no other is. */
  ghost predicate Ok(s: State) {
    && s.rxLen < 0x10000
    && (s.pbuf.Held? ==> |s.pbuf.bytes| == Mtu)
    && (s.pbuf.Empty? ==> s.rxLen == 0)
    && |s.given| == |s.delivered|
    && Booked(s)
  }

  ghost predicate Booked(s: State) { forall id: nat :: Fates(s, id) == if id < s.taken then 1 else 0 }

  const Start := State(Empty, 0, false, 0, multiset{}, multiset{}, [])

  function Dropped(s: State): State { s.(pbuf := Empty, rxLen := 0, invalid := false, freed := s.freed + Holding(s)) }

  /** TC6_CB_OnRxEthernetSlice */
  function OnSlice(s: State, data: seq<Byte>, offset: nat, alloc: Alloc): State {
    Stored(if offset == 0 && s.pbuf.Held? then Dropped(s) else s, data, offset, alloc)
  }

  function Stored(s: State, data: seq<Byte>, offset: nat, alloc: Alloc): State {
    if s.invalid then s
    else if offset + |data| > Mtu then s.(invalid := true)
    else if s.pbuf.Held? then Copied(s, data, offset)
    else match alloc
         case Fails => s.(invalid := true)
         case Chained => s.(invalid := true, taken := s.taken + 1, freed := s.freed + multiset{s.taken})
         case Gets(dust) => Copied(s.(pbuf := Held(s.taken, dust), taken := s.taken + 1), data, offset)
  }

  function Copied(s: State, data: seq<Byte>, offset: nat): State {
    if s.pbuf.Held? && offset + |data| <= |s.pbuf.bytes|
    then s.(pbuf := s.pbuf.(bytes := s.pbuf.bytes[..offset] + data + s.pbuf.bytes[offset + |data|..]), rxLen := (s.rxLen + |data|) % 0x10000)
    else s
  }

  /** TC6_CB_OnRxEthernetPacket */
  function OnPacket(s: State, success: bool, len: nat): State {
    if success && !s.invalid && s.pbuf.Held? && s.rxLen != 0 && s.rxLen == len && len >= MinHeader
    then Handed(s, len) else Dropped(s)
  }

  /** The pbuf, shortened to the frame, is handed to the stack. */
  function Handed(s: State, len: nat): State
    requires s.pbuf.Held?
  {
    s.(delivered := s.delivered + [if len < |s.pbuf.bytes| then s.pbuf.bytes[..len] else s.pbuf.bytes],
       given := s.given + Holding(s), pbuf := Empty, rxLen := 0, invalid := false)
  }

  ghost predicate AllocOk(alloc: Alloc) { alloc.Gets? ==> |alloc.dust| == Mtu }

  lemma SliceKeepsOk(s: State, data: seq<Byte>, offset: nat, alloc: Alloc)
    requires Ok(s) && AllocOk(alloc)
    ensures Ok(OnSlice(s, data, offset, alloc))
  {
    hide Booked, Fates;
    var s1 := if offset == 0 && s.pbuf.Held? then Dropped(s) else s;
    DroppedBooked(s);
    SliceBooked(s1, data, offset, alloc);
  }

  lemma SliceBooked(s: State, data: seq<Byte>, offset: nat, alloc: Alloc)
    requires Ok(s) && AllocOk(alloc)
    ensures Ok(Stored(s, data, offset, alloc))
  {
    hide Booked, Fates;
    BookedSame(s, s.(invalid := true));
    if s.pbuf.Held? {
      CopiedBooked(s, data, offset);
    } else {
      AllocBooked(s, s.(invalid := true, taken := s.taken + 1, freed := s.freed + multiset{s.taken}));
      if alloc.Gets? {
        var t := s.(pbuf := Held(s.taken, alloc.dust), taken := s.taken + 1);
        AllocBooked(s, t);
        CopiedBooked(t, data, offset);
      }
    }
  }

  lemma BookedSame(s: State, t: State)
    requires Booked(s) && t.taken == s.taken && t.freed == s.freed && t.given == s.given && Holding(t) == Holding(s)
    ensures Booked(t)
  {
    forall id: nat ensures Fates(t, id) == if id < t.taken then 1 else 0 { assert Fates(s, id) == if id < s.taken then 1 else 0; }
  }

  lemma DroppedBooked(s: State)
    requires Booked(s)
    ensures Booked(Dropped(s))
  {
    forall id: nat ensures Fates(Dropped(s), id) == if id < s.taken then 1 else 0 {
      assert Fates(s, id) == if id < s.taken then 1 else 0;
    }
  }

  /** A pbuf just allocated is held, or freed at once. */
  lemma AllocBooked(s: State, t: State)
    requires Booked(s) && t.taken == s.taken + 1 && t.given == s.given
    requires || (s.pbuf.Empty? && t.pbuf.Held? && t.pbuf.id == s.taken && t.freed == s.freed)
             || (t.pbuf == s.pbuf && t.freed == s.freed + multiset{s.taken})
    ensures Booked(t)
  {
    forall id: nat ensures Fates(t, id) == if id < t.taken then 1 else 0 { assert Fates(s, id) == if id < s.taken then 1 else 0; }
  }

  lemma CopiedBooked(s: State, data: seq<Byte>, offset: nat)
    requires Booked(s)
    ensures Booked(Copied(s, data, offset))
  {
    BookedSame(s, Copied(s, data, offset));
  }

  lemma PacketKeepsOk(s: State, success: bool, len: nat)
    requires Ok(s)
    ensures Ok(OnPacket(s, success, len)) && OnPacket(s, success, len).pbuf.Empty? && !OnPacket(s, success, len).invalid
  {
    hide Booked, Fates;
    DroppedBooked(s);
    GivenBooked(s, OnPacket(s, success, len));
  }

  lemma GivenBooked(s: State, t: State)
    requires Booked(s)
    ensures t.taken == s.taken && t.freed == s.freed && t.given == s.given + Holding(s) && t.pbuf.Empty? ==> Booked(t)
  {
    if t.taken == s.taken && t.freed == s.freed && t.given == s.given + Holding(s) && t.pbuf.Empty? {
      forall id: nat ensures Fates(t, id) == if id < t.taken then 1 else 0 { assert Fates(s, id) == if id < s.taken then 1 else 0; }
    }
  }

  // ---------------------------------------------------------------- whole runs

  /** The callbacks that may come, in any order: frames may be cut off at any point. */
  datatype Event = Slice(data: seq<Byte>, offset: nat, alloc: Alloc) | Packet(success: bool, len: nat)

  datatype Run = Begin | After(before: Run, event: Event)

  ghost predicate RunOk(r: Run) { r.After? ==> RunOk(r.before) && (r.event.Slice? ==> AllocOk(r.event.alloc)) }

  function Result(r: Run): State {
    if r.Begin? then Start
    else match r.event
         case Slice(d, o, a) => OnSlice(Result(r.before), d, o, a)
         case Packet(ok, n) => OnPacket(Result(r.before), ok, n)
  }

  /** After any callbacks, every pbuf allocated so far has been freed exactly once or handed over
      exactly once, or is the one held; no other pbuf has been freed or handed over. */
  lemma {:induction false} EveryRunIsOk(r: Run)
    requires RunOk(r)
    ensures Ok(Result(r))
  {
    if r.After? {
      EveryRunIsOk(r.before);
      match r.event
      case Slice(d, o, a) => SliceKeepsOk(Result(r.before), d, o, a);
      case Packet(ok, n) => PacketKeepsOk(Result(r.before), ok, n);
    }
  }

  // ---------------------------------------------------------------- a frame

  /** The slices of a frame. */
  datatype Pieces = Nil | Cons(first: seq<Byte>, rest: Pieces)

  function Frame(p: Pieces): seq<Byte> { if p.Nil? then [] else p.first + Frame(p.rest) }

  /** The library hands over the slices one behind the other. */
  function Feed(s: State, p: Pieces, offset: nat, alloc: Alloc): State
    decreases p
  {
    if p.Nil? then s else Feed(OnSlice(s, p.first, offset, alloc), p.rest, offset + |p.first|, alloc)
  }

  function Attempt(s: State, p: Pieces, alloc: Alloc): State { OnPacket(Feed(s, p, 0, alloc), true, |Frame(p)|) }

  /** The slices so far are in place. */
  ghost predicate Filling(s: State, got: seq<Byte>, delivered: seq<seq<Byte>>) {
    Ok(s) && s.pbuf.Held? && !s.invalid && s.rxLen == |got| <= Mtu && s.pbuf.bytes[..|got|] == got && s.delivered == delivered
  }

  lemma FillingMore(s: State, got: seq<Byte>, data: seq<Byte>, alloc: Alloc)
    requires Filling(s, got, s.delivered) && alloc.Gets? && AllocOk(alloc) && |got| + |data| <= Mtu
    ensures Filling(OnSlice(s, data, |got|, alloc), got + data, s.delivered)
  {
    SliceKeepsOk(s, data, |got|, alloc);
    var t := OnSlice(s, data, |got|, alloc);
    if |got| == 0 {
      assert t.pbuf.bytes[..|data|] == data;
    } else {
      assert t.pbuf.bytes == s.pbuf.bytes[..|got|] + data + s.pbuf.bytes[|got| + |data|..];
      assert t.pbuf.bytes[..|got| + |data|] == got + data;
    }
  }

  lemma {:induction false} FeedFills(s: State, got: seq<Byte>, p: Pieces, alloc: Alloc)
    requires Filling(s, got, s.delivered) && alloc.Gets? && AllocOk(alloc) && |got| + |Frame(p)| <= Mtu
    ensures Filling(Feed(s, p, |got|, alloc), got + Frame(p), s.delivered)
    decreases p
  {
    if p.Nil? {
      assert got + [] == got;
    } else {
      hide OnSlice, Filling;
      FillingMore(s, got, p.first, alloc);
      var t := OnSlice(s, p.first, |got|, alloc);
      FillingDelivered(t, got + p.first, s.delivered);
      FeedFills(t, got + p.first, p.rest, alloc);
      assert (got + p.first) + Frame(p.rest) == got + Frame(p);
    }
  }

  lemma FillingDelivered(s: State, got: seq<Byte>, delivered: seq<seq<Byte>>)
    requires Filling(s, got, delivered)
    ensures s.delivered == delivered && Filling(s, got, s.delivered)
  {
  }

  lemma FirstSlice(s: State, data: seq<Byte>, alloc: Alloc)
    requires Ok(s) && alloc.Gets? && AllocOk(alloc) && |data| <= Mtu && (s.invalid ==> s.pbuf.Held?)
    ensures Filling(OnSlice(s, data, 0, alloc), data, s.delivered)
  {
    SliceKeepsOk(s, data, 0, alloc);
    assert OnSlice(s, data, 0, alloc).pbuf.bytes[..|data|] == data;
  }

  /** What an interrupted frame has marked invalid without holding a pbuf swallows every slice. */
  lemma {:induction false} FeedIgnored(s: State, p: Pieces, offset: nat, alloc: Alloc)
    requires s.invalid && s.pbuf.Empty?
    ensures Feed(s, p, offset, alloc) == s
    decreases p
  {
    if p.Cons? { FeedIgnored(s, p.rest, offset + |p.first|, alloc); }
  }

  /** After whatever went before, a frame of acceptable length that finds memory is delivered as
      it was sent, exactly unless an invalid mark is left without a pbuf. Either way nothing is
      left behind. */
  lemma FirstAttempt(s: State, p: Pieces, alloc: Alloc)
    requires Ok(s) && alloc.Gets? && AllocOk(alloc) && MinHeader <= |Frame(p)| <= Mtu
    ensures var t := Attempt(s, p, alloc);
            && Ok(t) && t.pbuf.Empty? && !t.invalid
            && t.delivered == if s.invalid && s.pbuf.Empty? then s.delivered else s.delivered + [Frame(p)]
  {
    if s.invalid && s.pbuf.Empty? {
      FeedIgnored(s, p, 0, alloc);
      PacketKeepsOk(s, true, |Frame(p)|);
    } else {
      FirstSlice(s, p.first, alloc);
      var t := OnSlice(s, p.first, 0, alloc);
      FillingDelivered(t, p.first, s.delivered);
      hide OnSlice, Filling, Feed;
      FeedFills(t, p.first, p.rest, alloc);
      Delivers(Feed(t, p.rest, |p.first|, alloc), p.first + Frame(p.rest), s.delivered);
      FeedStep(s, p, alloc);
    }
  }

  lemma FeedStep(s: State, p: Pieces, alloc: Alloc)
    requires p.Cons?
    ensures Feed(s, p, 0, alloc) == Feed(OnSlice(s, p.first, 0, alloc), p.rest, |p.first|, alloc)
  {
  }

  lemma Delivers(s: State, frame: seq<Byte>, delivered: seq<seq<Byte>>)
    requires Filling(s, frame, delivered) && MinHeader <= |frame| <= Mtu
    ensures var t := OnPacket(s, true, |frame|);
            Ok(t) && t.pbuf.Empty? && !t.invalid && t.delivered == delivered + [frame]
  {
    PacketKeepsOk(s, true, |frame|);
    assert s.pbuf.bytes[..Mtu] == s.pbuf.bytes;
  }

  /** The second attempt always gets through. */
  lemma SecondAttempt(s: State, p: Pieces, alloc: Alloc, q: Pieces, alloc': Alloc)
    requires Ok(s) && alloc.Gets? && AllocOk(alloc) && MinHeader <= |Frame(p)| <= Mtu
    requires alloc'.Gets? && AllocOk(alloc') && MinHeader <= |Frame(q)| <= Mtu
    ensures var t := Attempt(s, p, alloc); Attempt(t, q, alloc').delivered == t.delivered + [Frame(q)]
  {
    hide Attempt;
    FirstAttempt(s, p, alloc);
    FirstAttempt(Attempt(s, p, alloc), q, alloc');
  }

  /** What the end of a frame delivers: the first `len` bytes of the pbuf, exactly if the frame is
      reported good, no slice of it was refused, the slices have the reported length together,
      and this is at least 42 bytes. The pbuf is handed over or freed, and nothing is left. */
  lemma PacketDelivers(s: State, success: bool, len: nat)
    requires Ok(s)
    ensures var t := OnPacket(s, success, len);
            && t.pbuf == Empty && t.rxLen == 0 && !t.invalid && t.taken == s.taken
            && (if success && !s.invalid && s.pbuf.Held? && s.rxLen == len && len >= 42
                then && t.delivered == s.delivered + [s.pbuf.bytes[..Least(len, 1536)]]
                     && t.given == s.given + multiset{s.pbuf.id} && t.freed == s.freed
                else && t.delivered == s.delivered && t.given == s.given
                     && t.freed == s.freed + if s.pbuf.Held? then multiset{s.pbuf.id} else multiset{})
  {
    if s.pbuf.Held? { assert s.pbuf.bytes[..1536] == s.pbuf.bytes; }
  }

  /** A refused slice stays on record until the frame ends. */
  lemma {:induction false} FeedRefused(s: State, p: Pieces, offset: nat, alloc: Alloc)
    requires s.invalid && offset > 0
    ensures Feed(s, p, offset, alloc).invalid && Feed(s, p, offset, alloc).delivered == s.delivered
    decreases p
  {
    if p.Cons? { FeedRefused(s, p.rest, offset + |p.first|, alloc); }
  }

  lemma SliceRefused(s: State, data: seq<Byte>, offset: nat, alloc: Alloc)
    ensures OnSlice(s, data, offset, alloc).delivered == s.delivered
    ensures offset + |data| > Mtu ==> OnSlice(s, data, offset, alloc).invalid
  {
  }

  /** A slice that reaches past the pbuf is refused. */
  lemma {:induction false} FeedTooLong(s: State, p: Pieces, offset: nat, alloc: Alloc)
    requires offset <= Mtu < offset + |Frame(p)|
    ensures Feed(s, p, offset, alloc).invalid && Feed(s, p, offset, alloc).delivered == s.delivered
    decreases p
  {
    hide OnSlice;
    var t := OnSlice(s, p.first, offset, alloc);
    SliceRefused(s, p.first, offset, alloc);
    if offset + |p.first| <= Mtu {
      FeedTooLong(t, p.rest, offset + |p.first|, alloc);
    } else {
      FeedRefused(t, p.rest, offset + |p.first|, alloc);
    }
  }

  /** Without memory no slice is kept. */
  lemma {:induction false} FeedNoMemory(s: State, p: Pieces, offset: nat, alloc: Alloc)
    requires !alloc.Gets? && s.pbuf.Empty?
    ensures Feed(s, p, offset, alloc).pbuf.Empty? && Feed(s, p, offset, alloc).delivered == s.delivered
    decreases p
  {
    if p.Cons? { FeedNoMemory(OnSlice(s, p.first, offset, alloc), p.rest, offset + |p.first|, alloc); }
  }

  /** What becomes of every frame, after whatever went before: it is delivered as it was sent, once,
      exactly if it has 42 to 1536 bytes, finds memory in one piece, and no invalid mark is left
      without a pbuf. Nothing else is ever delivered in its place. */
  lemma FrameFate(s: State, p: Pieces, alloc: Alloc)
    requires Ok(s) && AllocOk(alloc)
    ensures Attempt(s, p, alloc).delivered ==
            s.delivered + if alloc.Gets? && 42 <= |Frame(p)| <= 1536 && !(s.invalid && s.pbuf.Empty?) then [Frame(p)] else []
  {
    if |Frame(p)| < 42 {
      hide OnSlice;
      FeedDelivers(s, p, 0, alloc);
    } else if |Frame(p)| > 1536 {
      FeedTooLong(s, p, 0, alloc);
    } else if alloc.Gets? {
      hide Attempt;
      FirstAttempt(s, p, alloc);
    } else {
      FeedStep(s, p, alloc);
      hide Feed;
      FeedNoMemory(OnSlice(s, p.first, 0, alloc), p.rest, |p.first|, alloc);
    }
  }

  lemma {:induction false} FeedDelivers(s: State, p: Pieces, offset: nat, alloc: Alloc)
    ensures Feed(s, p, offset, alloc).delivered == s.delivered
    decreases p
  {
    if p.Cons? {
      hide OnSlice;
      var t := OnSlice(s, p.first, offset, alloc);
      SliceRefused(s, p.first, offset, alloc);
      FeedDelivers(t, p.rest, offset + |p.first|, alloc);
    }
  }

  /** A frame that finds no memory and is cut off makes the next frame get lost. */
  lemma OneFrameLost(p: Pieces, dust: seq<Byte>)
    requires |dust| == Mtu && MinHeader <= |Frame(p)| <= Mtu
    ensures var r := After(Begin, Slice([0], 0, Fails));
            RunOk(r) && Attempt(Result(r), p, Gets(dust)).delivered == []
  {
    var r := After(Begin, Slice([0], 0, Fails));
    assert Result(Begin) == Start;
    assert Result(r) == Start.(invalid := true);
    EveryRunIsOk(r);
    hide Attempt;
    FirstAttempt(Result(r), p, Gets(dust));
  }

  // ---------------------------------------------------------------- the callbacks

  class Receiver {
    var pbuf: Slot
    var rxLen: nat
    var rxInvalid: bool
    /** how many pbufs have been allocated; the number of the next one */
    var taken: nat
    ghost var freed: multiset<nat>
    ghost var given: multiset<nat>
    ghost var delivered: seq<seq<Byte>>

    ghost function Now(): State
      reads this
    {
      State(pbuf, rxLen, rxInvalid, taken, freed, given, delivered)
    }

    constructor ()
      ensures Now() == Start && Ok(Now())
    {
      pbuf, rxLen, rxInvalid, taken, freed, given, delivered := Empty, 0, false, 0, multiset{}, multiset{}, [];
    }

    /** Free the held pbuf, if any, and start afresh. */
    method Discard()
      modifies this
      ensures Now() == Dropped(old(Now()))
    {
      ghost var s := Now();
      freed := freed + Holding(s);
      pbuf, rxLen, rxInvalid := Empty, 0, false;
    }

    /** pbuf_realloc shortens the pbuf, and the stack takes it over. */
    method Deliver(len: nat)
      requires pbuf.Held?
      modifies this
      ensures Now() == Handed(old(Now()), len)
    {
      ghost var s := Now();
      delivered := delivered + [if len < |pbuf.bytes| then pbuf.bytes[..len] else pbuf.bytes];
      given := given + Holding(s);
      pbuf, rxLen, rxInvalid := Empty, 0, false;
    }

    method OnRxSlice(data: seq<Byte>, offset: nat, alloc: Alloc)
      requires Ok(Now()) && AllocOk(alloc)
      modifies this
      ensures Now() == OnSlice(old(Now()), data, offset, alloc) && Ok(Now())
    {
      hide Ok, Booked, Dropped, Stored;
      SliceKeepsOk(Now(), data, offset, alloc);
      ghost var s := Now();
      OkFacts(s);
      if offset == 0 && pbuf.Held? {
        Discard();
        DroppedKeepsOk(s);
      }
      OkFacts(Now());
      Store(data, offset, alloc);
    }

    /** The part of the slice callback behind the check for a stale pbuf. */
    method Store(data: seq<Byte>, offset: nat, alloc: Alloc)
      requires AllocOk(alloc) && (pbuf.Held? ==> |pbuf.bytes| == Mtu)
      modifies this
      ensures Now() == Stored(old(Now()), data, offset, alloc)
    {
      hide Copied;
      var success := true;
      if rxInvalid { success := false; }
      if success && offset + |data| > Mtu {
        rxInvalid, success := true, false;
      }
      if success && pbuf.Empty? {
        match alloc
        case Fails =>
          rxInvalid, success := true, false;
        case Chained =>
          freed := freed + multiset{taken};
          taken := taken + 1;
          rxInvalid := true;
          success := false;
        case Gets(dust) =>
          pbuf, taken := Held(taken, dust), taken + 1;
      }
      if success { Copy(data, offset); }
    }

    /** memcpy into the pbuf. */
    method Copy(data: seq<Byte>, offset: nat)
      requires pbuf.Held? && offset + |data| <= |pbuf.bytes|
      modifies this`pbuf, this`rxLen
      ensures Now() == Copied(old(Now()), data, offset)
    {
      pbuf := pbuf.(bytes := pbuf.bytes[..offset] + data + pbuf.bytes[offset + |data|..]);
      rxLen := (rxLen + |data|) % 0x10000;
    }

    method OnRxPacket(success: bool, len: nat)
      requires Ok(Now())
      modifies this
      ensures Now() == OnPacket(old(Now()), success, len) && Ok(Now())
    {
      hide Ok, Booked, Dropped, Handed;
      PacketKeepsOk(Now(), success, len);
      var result := true;
      if !success || rxInvalid || pbuf.Empty? || rxLen == 0 { result := false; }
      if result && rxLen != len { result := false; }
      if result && len < MinHeader { result := false; }
      if result { Deliver(len); }
      if !result { Discard(); }
    }
  }

  lemma OkFacts(s: State)
    requires Ok(s)
    ensures s.pbuf.Held? ==> |s.pbuf.bytes| == Mtu
  {
  }

  lemma DroppedKeepsOk(s: State)
    requires Ok(s)
    ensures Ok(Dropped(s))
  {
    hide Booked;
    DroppedBooked(s);
  }
}
