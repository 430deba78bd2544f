/** Receiving from a TCP socket (lwip_recv_tcp in src/lib/liblwip/api/sockets.c, with
    netconn_recv_data_tcp in api_lib.c and lwip_netconn_do_recv in api_msg.c).

    A pbuf is its flat contents; module Pbuf proves that pbuf_copy_partial and pbuf_free_header
    act on a chain as taking and dropping a prefix of it. The TCP/IP thread acts between calls,
    before a fetch, while a fetch waits, and before the receiving side is closed. */
module Recv {
  import opened Bytes

  datatype Err = WouldBlock | Timeout | NotConnected | Closed | Reset | Aborted

  /** A message in the mailbox: data or an error. The end of the stream is the message for Closed. */
  datatype Item = Data(bytes: seq<Byte>) | Note(err: Err)

  datatype Box = Empty | Put(first: Item, rest: Box)

  datatype Fetched = Got(bytes: seq<Byte>) | Nothing(err: Err)

  /** Why a receive stops: it has what it wants, or a fetch gave nothing. */
  datatype Stop = Done | Stopped(err: Err)

  datatype Last = None | Some(bytes: seq<Byte>)

  datatype Fault = NoFault | Fault(err: Err)

  /** What TCP has told the connection: all data ever posted, that the peer has sent its end
      (recv_tcp without a pbuf), the error that err_tcp was called with, and whether there was room
      for the message about it. */
  datatype Net = Net(posted: seq<Byte>, ended: bool, failure: Fault, noted: bool)

  /** The errors that err_tcp is called with. */
  predicate Fatal(e: Err) { e.Closed? || e.Reset? || e.Aborted? }

  function Append(a: Box, b: Box): Box { if a.Empty? then b else Put(a.first, Append(a.rest, b)) }

  /** The data in a mailbox, in order. */
  function Stream(b: Box): seq<Byte> {
    match b
    case Empty => []
    case Put(Data(s), r) => s + Stream(r)
    case Put(_, r) => Stream(r)
  }

  predicate NoData(b: Box) { b.Empty? || (b.first.Note? && NoData(b.rest)) }

  predicate HasNote(b: Box) { b.Put? && (b.first.Note? || HasNote(b.rest)) }

  /** The first message that is no data is the end of the stream. */
  predicate EndAhead(b: Box) { b.Put? && if b.first.Note? then b.first.err.Closed? else EndAhead(b.rest) }

  /** Nothing follows the first message that is no data. */
  predicate OneEnd(b: Box) { b.Put? ==> if b.first.Note? then b.rest.Empty? else OneEnd(b.rest) }

  /** What can be in the mailbox: data is never empty and fits a 16-bit length, and no data follows
      an error or the end. An error can follow the end. */
  predicate Postable(b: Box) {
    match b
    case Empty => true
    case Put(Data(s), r) => 0 < |s| < 0x10000 && Postable(r)
    case Put(Note(_), r) => NoData(r) && Postable(r)
  }

  /** Data followed by the end, if `fin`: what recv_tcp posts. */
  predicate Arriving(b: Box, fin: bool) {
    match b
    case Empty => !fin
    case Put(Data(s), r) => 0 < |s| < 0x10000 && Arriving(r, fin)
    case Put(Note(e), r) => e.Closed? && fin && r.Empty?
  }

  /** A message for `e` says what TCP has told. */
  predicate Means(e: Err, net: Net) { (e.Closed? && net.ended) || net.failure == Fault(e) }

  predicate Truthful(b: Box, net: Net) { b.Empty? || ((b.first.Note? ==> Means(b.first.err, net)) && Truthful(b.rest, net)) }

  /** No data comes any more. */
  predicate Silent(net: Net) { net.ended || net.failure.Fault? }

  /** The data in front of the first message that is none. */
  function Front(b: Box): seq<Byte> {
    match b
    case Put(Data(s), r) => s + Front(r)
    case _ => []
  }

  /** What can be received without waiting: lastdata and the data at the front of the mailbox. */
  function Ready(last: Last, mbox: Box): nat { (if last.Some? then |last.bytes| else 0) + |Front(mbox)| }

  /** The unread rest: lastdata followed by the mailbox. */
  function Rest(last: Last, mbox: Box): seq<Byte> { (if last.Some? then last.bytes else []) + Stream(mbox) }

  lemma {:induction false} AppendFacts(a: Box, b: Box)
    ensures Stream(Append(a, b)) == Stream(a) + Stream(b)
    ensures HasNote(Append(a, b)) == (HasNote(a) || HasNote(b)) && NoData(Append(a, b)) == (NoData(a) && NoData(b))
    ensures Postable(a) && Postable(b) && (!HasNote(a) || NoData(b)) ==> Postable(Append(a, b))
    ensures |Front(Append(a, b))| >= |Front(a)|
    ensures EndAhead(Append(a, b)) == (EndAhead(a) || (!HasNote(a) && EndAhead(b))) && (EndAhead(a) ==> HasNote(a))
    ensures !HasNote(a) && OneEnd(b) ==> OneEnd(Append(a, b))
  {
    if a.Put? { AppendFacts(a.rest, b); }
  }

  lemma {:induction false} AppendTruthful(a: Box, b: Box, net: Net)
    ensures Truthful(Append(a, b), net) == (Truthful(a, net) && Truthful(b, net))
  {
    if a.Put? { AppendTruthful(a.rest, b, net); }
  }

  /** Messages stay true as TCP tells more. */
  lemma {:induction false} StillTruthful(b: Box, net: Net, net': Net)
    requires Truthful(b, net) && (net.ended ==> net'.ended) && (net.failure.Fault? ==> net'.failure == net.failure)
    ensures Truthful(b, net')
  {
    if b.Put? { StillTruthful(b.rest, net, net'); }
  }

  lemma {:induction false} NoteSilences(b: Box, net: Net)
    requires Truthful(b, net) && HasNote(b)
    ensures Silent(net)
  {
    if b.first.Data? { NoteSilences(b.rest, net); }
  }

  lemma {:induction false} NoDataFacts(b: Box)
    requires NoData(b)
    ensures Stream(b) == [] && Front(b) == [] && (b.Put? ==> HasNote(b))
  {
    if b.Put? { NoDataFacts(b.rest); }
  }

  lemma {:induction false} ArrivingFacts(b: Box, fin: bool, net: Net)
    requires Arriving(b, fin)
    ensures Postable(b) && HasNote(b) == fin && EndAhead(b) == fin && OneEnd(b) && (!fin || net.ended ==> Truthful(b, net))
  {
    if b.Put? && b.first.Data? { ArrivingFacts(b.rest, fin, net); }
  }

  /** Everything posted is consumed, kept in lastdata or in the mailbox, in this order. The end
      stays behind all data: it is set aside only when nothing is left before it. A message about
      the error is in the mailbox until everything before it has been taken. */
  ghost predicate Stored(taken: seq<Byte>, last: Last, mbox: Box, net: Net, finPending: bool, open: bool) {
    && taken + Rest(last, mbox) == net.posted
    && Postable(mbox) && Truthful(mbox, net) && (last.Some? ==> 0 < |last.bytes| < 0x10000)
    && (finPending ==> Means(Closed, net))
    && (finPending || !open ==> last.None? && NoData(mbox) && Silent(net))
    && (!open ==> mbox.Empty?)
    && (net.noted ==> open && net.failure.Fault? && (HasNote(mbox) || (last.None? && mbox.Empty?)))
  }

  /** The end of the stream is ahead or set aside until it has been dealt with; without an error it
      is there once. */
  ghost predicate EndKept(net: Net, mbox: Box, finPending: bool, open: bool, endSeen: bool) {
    && (net.ended && !endSeen ==> finPending || EndAhead(mbox)) && (!open ==> endSeen) && (endSeen ==> Silent(net))
    && (net.failure.NoFault? ==> && OneEnd(mbox) && (finPending || HasNote(mbox) ==> net.ended && !endSeen)
                                 && !(finPending && HasNote(mbox)))
  }

  /** The pending error is the one err_tcp was called with. If a message about it was posted, it
      stays pending until it has been reported. */
  ghost predicate Faults(pending: Fault, net: Net, reported: bool, mboxClosed: bool, pcb: bool, open: bool) {
    && (mboxClosed <==> net.failure.Fault?) && (mboxClosed ==> !pcb) && (!pcb ==> mboxClosed || !open) && (net.failure.Fault? ==> Fatal(net.failure.err))
    && (pending.Fault? ==> pending == net.failure)
    && (net.noted ==> mboxClosed && (reported || pending == net.failure))
  }

  lemma StoredArrive(taken: seq<Byte>, last: Last, mbox: Box, net: Net, finPending: bool, items: Box, fin: bool)
    requires Stored(taken, last, mbox, net, finPending, true) && Arriving(items, fin) && !Silent(net)
    ensures Stored(taken, last, Append(mbox, items), net.(posted := net.posted + Stream(items), ended := fin), finPending, true)
    ensures |Front(Append(mbox, items))| >= |Front(mbox)| && EndAhead(Append(mbox, items)) == fin
    ensures OneEnd(Append(mbox, items)) && HasNote(Append(mbox, items)) == fin && !HasNote(mbox)
  {
    var net' := net.(posted := net.posted + Stream(items), ended := fin);
    AppendFacts(mbox, items);
    AppendTruthful(mbox, items, net');
    StillTruthful(mbox, net, net');
    ArrivingFacts(items, fin, net');
    if HasNote(mbox) { NoteSilences(mbox, net); }
    hide Stream, HasNote, Postable, Append, Truthful, NoData, Front;
    var a := if last.Some? then last.bytes else [];
    Assoc(taken, a, Stream(mbox), Stream(items));
  }

  lemma Assoc(t: seq<Byte>, a: seq<Byte>, b: seq<Byte>, c: seq<Byte>)
    ensures t + (a + (b + c)) == (t + (a + b)) + c
  {
  }

  lemma StoredFail(taken: seq<Byte>, last: Last, mbox: Box, net: Net, finPending: bool, open: bool, e: Err, noted: bool)
    requires Stored(taken, last, mbox, net, finPending, open) && net.failure.NoFault? && (noted ==> open)
    ensures var note := if noted then Put(Note(e), Empty) else Empty;
            var mbox' := Append(mbox, note);
            && Stored(taken, last, mbox', net.(failure := Fault(e), noted := noted), finPending, open)
            && |Front(mbox')| >= |Front(mbox)| && (noted ==> mbox'.Put?) && (EndAhead(mbox) ==> EndAhead(mbox'))
  {
    var note := if noted then Put(Note(e), Empty) else Empty;
    var net' := net.(failure := Fault(e), noted := noted);
    AppendFacts(mbox, note);
    AppendTruthful(mbox, note, net');
    StillTruthful(mbox, net, net');
    assert Truthful(note, net') && NoData(note) && Postable(note) && Stream(note) == [];
  }

  /** Taking the first message. */
  lemma StoredPop(taken: seq<Byte>, mbox: Box, net: Net)
    requires Stored(taken, None, mbox, net, false, true) && mbox.Put?
    ensures mbox.first.Data? ==> Stored(taken, Some(mbox.first.bytes), mbox.rest, net, false, true)
                                 && 0 < |mbox.first.bytes| < 0x10000 && Ready(Some(mbox.first.bytes), mbox.rest) == |Front(mbox)|
                                 && HasNote(mbox.rest) == HasNote(mbox) && EndAhead(mbox.rest) == EndAhead(mbox)
    ensures mbox.first.Note? ==> EndAhead(mbox) == mbox.first.err.Closed? && (OneEnd(mbox) ==> mbox.rest.Empty?)
    ensures mbox.first.Data? && OneEnd(mbox) ==> OneEnd(mbox.rest)
    ensures mbox.first.Note? ==> Stored(taken, None, mbox.rest, net, false, true) && Front(mbox) == [] && HasNote(mbox)
                                 && Means(mbox.first.err, net) && AllTaken(taken, mbox.rest, net)
                                 && (mbox.first.err.Closed? ==> Stored(taken, None, mbox.rest, net, true, true))
  {
    if mbox.first.Data? {
      assert Stream(mbox) == mbox.first.bytes + Stream(mbox.rest);
    } else {
      NoDataFacts(mbox.rest);
    }
  }

  /** Everything posted has been consumed; what is left in the mailbox speaks of the end. */
  predicate AllTaken(taken: seq<Byte>, mbox: Box, net: Net) { taken == net.posted && NoData(mbox) && (mbox.Empty? || Silent(net)) }

  lemma NothingLeft(taken: seq<Byte>, mbox: Box, net: Net, finPending: bool, open: bool)
    requires Stored(taken, None, mbox, net, finPending, open)
    ensures finPending || !open || mbox.Empty? ==> AllTaken(taken, mbox, net) && Front(mbox) == [] && Ready(None, mbox) == 0
    ensures finPending ==> Stored(taken, None, mbox, net, false, open) && Means(Closed, net)
    ensures !open ==> mbox.Empty? && Silent(net)
    ensures mbox.Empty? ==> !HasNote(mbox) && !EndAhead(mbox) && OneEnd(mbox)
    ensures (finPending || !open) && !HasNote(mbox) ==> mbox.Empty?
  {
    if NoData(mbox) { NoDataFacts(mbox); }
  }

  /** Consuming the first `n` bytes of lastdata. */
  lemma StoredTake(taken: seq<Byte>, last: Last, mbox: Box, net: Net, finPending: bool, open: bool, n: nat)
    requires Stored(taken, last, mbox, net, finPending, open) && last.Some? && n <= |last.bytes|
    ensures Stored(taken + last.bytes[..n], if n < |last.bytes| then Some(last.bytes[n..]) else None, mbox, net, finPending, open)
    ensures !finPending && open && last.bytes[..n] <= Rest(last, mbox) && |last.bytes| > 0 && (net.noted ==> HasNote(mbox))
  {
    hide Postable, Truthful, HasNote, NoData, Stream;
    var b := last.bytes;
    assert b == b[..n] + b[n..];
    assert taken + b[..n] + (b[n..] + Stream(mbox)) == taken + (b + Stream(mbox));
  }

  /** What a receive with nothing to return reports as long as there is no error: the end if it has
      not been dealt with, and otherwise that nothing came in time. */
  function Idle(open: bool, ends: bool, wait: bool): Err {
    if !open then NotConnected else if ends then Closed else if wait then Timeout else WouldBlock
  }

  lemma CloseFacts(taken: seq<Byte>, mbox: Box, net: Net)
    requires Stored(taken, None, mbox, net, false, true) && AllTaken(taken, mbox, net) && net.failure.NoFault? && Means(Closed, net)
    ensures Stored(taken, None, Empty, net, false, false) && AllTaken(taken, Empty, net)
  {
  }

  lemma {:induction false} AppendEmpty(a: Box)
    ensures Append(a, Empty) == a
  {
    if a.Put? { AppendEmpty(a.rest); }
  }

  /** What a receive with nothing to return reports once err_tcp has run. */
  function Verdict(open: bool, finPending: bool, mbox: Box, pending: Fault): Err {
    var ends := finPending || (mbox.Put? && mbox.first == Note(Closed));
    if !open then NotConnected
    else if mbox.Put? && !ends && mbox.first.Note? then mbox.first.err
    else if pending.Fault? then pending.err
    else if ends then Reset else NotConnected
  }

  /** A posted error that has not been reported is what is reported. */
  lemma FaultFacts(taken: seq<Byte>, last: Last, mbox: Box, net: Net, finPending: bool, open: bool,
                   pending: Fault, reported: bool, mboxClosed: bool, pcb: bool)
    requires Stored(taken, last, mbox, net, finPending, open) && Faults(pending, net, reported, mboxClosed, pcb, open)
    ensures pending.Fault? || net.noted ==> mboxClosed
    ensures net.noted && !reported ==> Fault(Verdict(open, finPending, mbox, pending)) == net.failure
    ensures open && pending.Fault? ==> Fault(Verdict(open, finPending, mbox, pending)) == net.failure
  {
  }

  function Sum(s: seq<nat>): nat { if s == [] then 0 else s[0] + Sum(s[1..]) }

  lemma {:induction false} SumAppend(s: seq<nat>, x: nat)
    ensures Sum(s + [x]) == Sum(s) + x
  {
    if s == [] {
      assert s + [x] == [x] && [x][1..] == [];
    } else {
      assert (s + [x])[1..] == s[1..] + [x];
      SumAppend(s[1..], x);
    }
  }

  class Socket {
    var mbox: Box
    /** the receive mailbox is valid, the TCP control block exists */
    var open: bool
    var pcb: bool
    /** NETCONN_FLAG_MBOXCLOSED and pending_err */
    var mboxClosed: bool
    var pending: Fault
    /** NETCONN_FIN_RX_PENDING */
    var finPending: bool
    /** lastdata; `None` is NULL */
    var last: Last
    /** the arguments of the calls of tcp_recved */
    var credit: seq<nat>
    const ssizeMax: nat
    /** what TCP has told so far; the socket layer does not look at it */
    var net: Net
    /** the data consumed by receiving, and whether the error has been reported */
    ghost var taken: seq<Byte>
    ghost var reported: bool
    /** the end of the stream has been taken out of the mailbox and dealt with */
    ghost var endSeen: bool

    ghost predicate Kept()
      reads this
    {
      Stored(taken, last, mbox, net, finPending, open) && EndKept(net, mbox, finPending, open, endSeen) && Faults(pending, net, reported, mboxClosed, pcb, open)
    }

    ghost predicate Valid()
      reads this
    {
      Kept() && (pcb ==> Sum(credit) == |taken|) && ssizeMax > 0
    }

    constructor (ssizeMax: nat)
      requires ssizeMax > 0
      ensures Valid() && open && pcb && last.None? && mbox.Empty? && !finPending && net == Net([], false, NoFault, false) && taken == [] && !reported && !endSeen
      ensures this.ssizeMax == ssizeMax
    {
      mbox, open, pcb, mboxClosed, pending, finPending, last, credit := Empty, true, true, false, NoFault, false, None, [];
      net, taken, reported, endSeen := Net([], false, NoFault, false), [], false, false;
      this.ssizeMax := ssizeMax;
    }

    /** recv_tcp: data and perhaps the end arrive. Nothing comes without the control block, and no
        data behind the end. */
    method Arrive(items: Box, fin: bool)
      requires Kept()
      modifies this`mbox, this`net
      ensures Kept() && |Front(mbox)| >= |Front(old(mbox))|
      ensures if old(pcb && open && !Silent(net)) && Arriving(items, fin)
              then mbox == Append(old(mbox), items) && net == old(net).(posted := old(net).posted + Stream(items), ended := fin)
              else mbox == old(mbox) && net == old(net)
    {
      hide Stored, Front, Arriving, EndAhead, OneEnd, HasNote;
      if pcb && open && !Silent(net) && Arriving(items, fin) {
        StoredArrive(taken, last, mbox, net, finPending, items, fin);
        mbox, net := Append(mbox, items), net.(posted := net.posted + Stream(items), ended := fin);
      }
    }

    /** err_tcp: the control block is gone, `e` is pending, and a message about it goes to the
        mailbox if that is valid and not full. `room` says whether it has room; an empty one has. */
    method Fail(e: Err, room: bool)
      requires Kept() && Fatal(e)
      modifies this`mbox, this`net, this`pcb, this`mboxClosed, this`pending
      ensures Kept() && !pcb && |Front(mbox)| >= |Front(old(mbox))|
      ensures if !old(pcb) then mbox == old(mbox) && net == old(net) && pending == old(pending) && mboxClosed == old(mboxClosed)
              else && net == old(net).(failure := Fault(e), noted := old(open && (mbox.Empty? || room)))
                   && mbox == Append(old(mbox), if net.noted then Put(Note(e), Empty) else Empty)
                   && pending == Fault(e) && mboxClosed
    {
      hide Stored, Front, EndAhead;
      if pcb {
        var post := open && (mbox.Empty? || room);
        StoredFail(taken, last, mbox, net, finPending, open, e, post);
        pcb, pending, mboxClosed := false, Fault(e), true;
        net := net.(failure := Fault(e), noted := post);
        mbox := Append(mbox, if post then Put(Note(e), Empty) else Empty);
      }
    }

    /** Whatever the TCP/IP thread does for a while. */
    method Meanwhile()
      requires Kept()
      modifies this`mbox, this`net, this`pcb, this`mboxClosed, this`pending
      ensures Kept() && (pcb ==> old(pcb)) && |Front(mbox)| >= |Front(old(mbox))| && old(net.posted) <= net.posted
      ensures (old(HasNote(mbox)) ==> HasNote(mbox)) && (net.noted && !old(net.noted) ==> HasNote(mbox))
      ensures old(!pcb) ==> net == old(net) && mbox == old(mbox) && pending == old(pending) && mboxClosed == old(mboxClosed)
      ensures (old(Silent(net)) ==> Silent(net) && net.posted == old(net.posted)) && (old(NoData(mbox)) && old(Silent(net)) ==> NoData(mbox))
      ensures (old(net.ended) ==> net.ended) && (old(net.failure.Fault?) ==> net == old(net))
      ensures old(!open) ==> mbox == old(mbox)
      ensures !old(mboxClosed) && mboxClosed ==> pending == net.failure
    {
      hide Stored, Front, Arriving, Postable, Truthful, EndAhead, OneEnd;
      var items: Box, fin: bool := *, *;
      AppendFacts(mbox, items);
      Arrive(items, fin);
      var fails: bool, e: Err, room: bool := *, *, *;
      if fails && Fatal(e) {
        AppendFacts(mbox, if open && (mbox.Empty? || room) then Put(Note(e), Empty) else Empty);
        AppendEmpty(mbox);
        Fail(e, room);
      }
    }

    /** netconn_recv_data_tcp: take the next message from the mailbox. `wait` says that the call may
        block. The end of the stream is set aside when the caller has data to return (`noFin`);
        without data the result is reported. */
    method Fetch(wait: bool, noFin: bool) returns (r: Fetched)
      requires Kept() && last.None? && (noFin ==> !finPending && !wait && (net.noted ==> HasNote(mbox)))
      modifies this`mbox, this`net, this`pcb, this`mboxClosed, this`pending, this`finPending, this`open, this`last, this`reported, this`endSeen
      ensures Kept() && last == (if r.Got? then Some(r.bytes) else None) && (r.Got? ==> 0 < |r.bytes| < 0x10000)
      ensures old(net.posted) <= net.posted && (pcb ==> old(pcb)) && (r.Got? ==> !finPending)
      ensures r == Nothing(Closed) ==> Means(Closed, net)
      ensures r == Nothing(WouldBlock) ==> !wait
      ensures r.Nothing? && !noFin && net.failure.NoFault? ==>
        r.err == if !old(open) then NotConnected else if net.ended && !old(endSeen) then Closed else if wait then Timeout else WouldBlock
      ensures r.Nothing? && !noFin && net.failure.Fault? && !old(mboxClosed) ==>
        r.err == (if old(open) then net.failure.err else NotConnected) || (r.err.Closed? && net.ended && !old(endSeen))
      ensures r.Got? ==> Ready(last, mbox) >= old(Ready(last, mbox))
      ensures r.Nothing? ==> old(Ready(last, mbox)) == 0 && AllTaken(taken, mbox, net)
      ensures r.Nothing? && !noFin && net.failure == Fault(r.err) ==> reported
      ensures (old(reported) ==> reported) && (r.Got? || noFin ==> reported == old(reported))
      ensures old(mboxClosed && !HasNote(mbox) && !finPending) ==> !HasNote(mbox) && !finPending && open == old(open)
      ensures old(mboxClosed) ==>
        && net == old(net) && mboxClosed && (r.Got? ==> pending == old(pending) && HasNote(mbox) == old(HasNote(mbox)) && open == old(open))
        && (r.Nothing? && noFin && old(open) ==> (pending == if old(mbox.Empty?) then NoFault else old(pending)) && (old(mbox.Empty?) <==> !old(HasNote(mbox))))
        && (r.Nothing? && !noFin ==> r.err == Verdict(old(open), old(finPending), old(mbox), old(pending)))
    {
      hide Stored, Front, Postable, Truthful, HasNote, NoData, EndAhead, OneEnd;
      NothingLeft(taken, mbox, net, finPending, open);
      if !open {
        r := Nothing(NotConnected);
        ReportIf(r.err, noFin);
        return;
      }
      if finPending {
        finPending := false;
        r := HandleFin();
        return;
      }
      r := Next(wait, noFin);
    }

    /** The part of netconn_recv_data_tcp that looks into the mailbox. */
    method Next(wait: bool, noFin: bool) returns (r: Fetched)
      requires Kept() && last.None? && open && !finPending && (noFin ==> !wait && (net.noted ==> HasNote(mbox)))
      modifies this`mbox, this`net, this`pcb, this`mboxClosed, this`pending, this`finPending, this`open, this`last, this`reported, this`endSeen
      ensures Kept() && last == (if r.Got? then Some(r.bytes) else None) && (r.Got? ==> 0 < |r.bytes| < 0x10000)
      ensures old(net.posted) <= net.posted && (pcb ==> old(pcb)) && (r.Got? ==> !finPending)
      ensures r == Nothing(Closed) ==> Means(Closed, net)
      ensures r == Nothing(WouldBlock) ==> !wait
      ensures r.Nothing? && !noFin && net.failure.NoFault? ==> r.err == Idle(old(open), net.ended && !old(endSeen), wait)
      ensures r.Nothing? && !noFin && net.failure.Fault? && !old(mboxClosed) ==>
        r.err == (if old(open) then net.failure.err else NotConnected) || (r.err.Closed? && net.ended && !old(endSeen))
      ensures r.Got? ==> Ready(last, mbox) >= old(Ready(last, mbox))
      ensures r.Nothing? ==> old(Ready(last, mbox)) == 0 && AllTaken(taken, mbox, net)
      ensures r.Nothing? && !noFin && net.failure == Fault(r.err) ==> reported
      ensures (old(reported) ==> reported) && (r.Got? || noFin ==> reported == old(reported))
      ensures old(mboxClosed && !HasNote(mbox) && !finPending) ==> !HasNote(mbox) && !finPending && open == old(open)
      ensures old(mboxClosed) ==>
        && net == old(net) && mboxClosed && (r.Got? ==> pending == old(pending) && HasNote(mbox) == old(HasNote(mbox)) && open == old(open))
        && (r.Nothing? && noFin && old(open) ==> (pending == if old(mbox.Empty?) then NoFault else old(pending)) && (old(mbox.Empty?) <==> !old(HasNote(mbox))))
        && (r.Nothing? && !noFin ==> r.err == Verdict(old(open), old(finPending), old(mbox), old(pending)))
    {
      hide Stored, Front, Postable, Truthful, HasNote, NoData, EndAhead, OneEnd, Verdict, AllTaken, Means;
      NothingLeft(taken, mbox, net, finPending, open);
      Meanwhile();
      if mbox.Empty? && wait && !mboxClosed && pending.NoFault? { Meanwhile(); }
      NothingLeft(taken, mbox, net, finPending, open);
      FaultFacts(taken, last, mbox, net, finPending, open, pending, reported, mboxClosed, pcb);
      if mbox.Empty? {
        r := Dry(wait, noFin);
      } else {
        r := Pop(noFin);
      }
    }

    /** The mailbox is empty: report the pending error. A call that may block has waited for as long
        as it is allowed to, unless there is an error. */
    method Dry(wait: bool, noFin: bool) returns (r: Fetched)
      requires Kept() && last.None? && mbox.Empty? && !finPending && open && (noFin ==> !net.noted)
      modifies this`pending, this`reported
      ensures Kept() && r.Nothing? && AllTaken(taken, mbox, net) && pending.NoFault?
      ensures (r.err.Closed? ==> Means(Closed, net)) && (r.err.WouldBlock? ==> !wait)
      ensures reported == (old(reported) || (!noFin && net.failure == Fault(r.err)))
      ensures mboxClosed ==> r.err == Verdict(open, finPending, mbox, old(pending))
      ensures net.failure.NoFault? ==> r.err == if wait then Timeout else WouldBlock
    {
      hide Stored;
      NothingLeft(taken, mbox, net, finPending, open);
      r := Nothing(if pending.Fault? then pending.err else if mboxClosed then NotConnected else if wait then Timeout else WouldBlock);
      ReportIf(r.err, noFin);
      pending := NoFault;
    }

    /** Take the first message. */
    method Pop(noFin: bool) returns (r: Fetched)
      requires Kept() && last.None? && mbox.Put? && !finPending && open
      modifies this`mbox, this`net, this`pcb, this`mboxClosed, this`pending, this`finPending, this`open, this`last, this`reported, this`endSeen
      ensures Kept() && last == (if r.Got? then Some(r.bytes) else None) && (r.Got? ==> 0 < |r.bytes| < 0x10000 && !finPending)
      ensures old(net.posted) <= net.posted && (pcb ==> old(pcb))
      ensures r == Nothing(Closed) ==> Means(Closed, net)
      ensures r == Nothing(WouldBlock) ==> noFin
      ensures r.Nothing? && !noFin && net.failure.NoFault? ==> r.err.Closed? && net.ended && !old(endSeen)
      ensures r.Nothing? && !noFin && net.failure.Fault? && !old(mboxClosed) ==> r.err.Closed? && net.ended && !old(endSeen)
      ensures r.Got? ==> Ready(last, mbox) == old(Ready(last, mbox))
      ensures r.Nothing? ==> old(Ready(last, mbox)) == 0 && AllTaken(taken, mbox, net) && old(HasNote(mbox))
      ensures r.Nothing? && !noFin && net.failure == Fault(r.err) ==> reported
      ensures (old(reported) ==> reported) && (r.Got? || noFin ==> reported == old(reported))
      ensures old(mboxClosed) || r.Got? || noFin ==> net == old(net) && mboxClosed == old(mboxClosed)
      ensures r.Got? ==> HasNote(mbox) == old(HasNote(mbox))
      ensures r.Got? || noFin ==> pending == old(pending) && open
      ensures old(mboxClosed && !HasNote(mbox) && !finPending) ==> !HasNote(mbox) && !finPending && open == old(open)
      ensures old(mboxClosed) && r.Nothing? && !noFin ==> r.err == Verdict(true, false, old(mbox), old(pending))
    {
      hide Stored, Front, Postable, Truthful, HasNote, NoData, EndAhead, OneEnd;
      StoredPop(taken, mbox, net);
      var item := mbox.first;
      mbox := mbox.rest;
      match item
      case Data(b) =>
        last := Some(b);
        return Got(b);
      case Note(e) =>
        NothingLeft(taken, mbox, net, false, open);
        if !e.Closed? {
          r := Nothing(e);
          ReportIf(r.err, noFin);
        } else if noFin {
          finPending := true;
          r := Nothing(WouldBlock);
        } else {
          r := HandleFin();
        }
    }

    /** The caller is told the error. */
    ghost method ReportIf(e: Err, noFin: bool)
      modifies this`reported
      ensures reported == (old(reported) || (!noFin && net.failure == Fault(e)))
    {
      reported := reported || (!noFin && net.failure == Fault(e));
    }

    /** Report the end of the stream and close the receiving side, or report an error if the control
        block has gone. Closing leaves the mailbox alone if the control block goes meanwhile or a
        write is under way; if the sending side is closed too, it releases the control block. */
    method HandleFin() returns (r: Fetched)
      requires Stored(taken, last, mbox, net, finPending, open) && Faults(pending, net, reported, mboxClosed, pcb, open)
      requires last.None? && !finPending && open && Means(Closed, net) && AllTaken(taken, mbox, net)
      requires net.failure.NoFault? ==> mbox.Empty?
      modifies this`mbox, this`net, this`pcb, this`mboxClosed, this`pending, this`open, this`reported, this`endSeen
      ensures Kept() && r.Nothing? && AllTaken(taken, mbox, net) && old(net.posted) <= net.posted && (pcb ==> old(pcb))
      ensures (r.err.Closed? ==> Means(Closed, net)) && Fatal(r.err) && (net.failure.NoFault? ==> r.err.Closed?)
      ensures (net.failure == Fault(r.err) ==> reported) && (old(reported) ==> reported)
      ensures old(mboxClosed) ==> net == old(net) && mboxClosed && r.err == if old(pending).Fault? then old(pending).err else Reset
      ensures !old(mboxClosed) ==> r.err.Closed? && net.ended
    {
      hide Stored, Front, Postable, Truthful, HasNote, NoData, EndAhead, OneEnd;
      endSeen := true;
      NothingLeft(taken, mbox, net, finPending, open);
      if !pcb {
        r := Nothing(if pending.Fault? then pending.err else Reset);
        ReportIf(r.err, false);
        pending := NoFault;
        return;
      }
      Meanwhile();
      var writing: bool, both: bool := *, *;
      if pcb && !writing {
        CloseFacts(taken, mbox, net);
        mbox, open, pcb := Empty, false, !both;
        NothingLeft(taken, mbox, net, finPending, open);
      }
      r := Nothing(Closed);
      ReportIf(r.err, false);
    }

    /** lwip_netconn_do_recv: open the window by `len` bytes in steps that fit 16 bits. */
    method DoRecv(len: nat)
      modifies this`credit
      ensures pcb ==> Sum(credit) == old(Sum(credit)) + len
      ensures !pcb ==> credit == old(credit)
      ensures old(credit) <= credit && forall i | |old(credit)| <= i < |credit| :: credit[i] <= 0xffff
    {
      if !pcb { return; }
      var remaining := len;
      var more := true;
      while more
        invariant old(credit) <= credit && (more || remaining == 0)
        invariant Sum(credit) + remaining == old(Sum(credit)) + len
        invariant forall i | |old(credit)| <= i < |credit| :: credit[i] <= 0xffff
        decreases more, remaining
      {
        var recved := if remaining > 0xffff then 0xffff else remaining;
        SumAppend(credit, recved);
        credit := credit + [recved];
        remaining := remaining - recved;
        more := remaining != 0;
      }
    }

    /** lwip_recv_tcp: receive up to `len` bytes, or look at them. `n` is the result of the call,
        `data` what the caller's buffer holds and `err` what errno says. */
    method RecvTcp(len: nat, peek: bool, wait: bool) returns (n: int, data: seq<Byte>, err: Stop)
      requires Valid()
      modifies this
      ensures Valid() && old(net.posted) <= net.posted
      ensures if err.Done? then n == |data| <= len else data == [] && n == if err.err.Closed? then 0 else -1
      ensures !peek ==> taken == old(taken) + data && |credit| >= |old(credit)| && credit[..|old(credit)|] == old(credit)
      ensures peek ==> taken == old(taken) && data <= Rest(last, mbox) && credit == old(credit)
      ensures peek && n > 0 ==> last.Some? && n <= |last.bytes| && data == last.bytes[..n] && (n == len || n == ssizeMax || n == |last.bytes|)
      ensures 0 < len && n == 0 ==> Means(Closed, net)
      ensures err.Stopped? ==> old(Ready(last, mbox)) == 0 && (err.err.WouldBlock? ==> !wait)
      ensures 0 < len && data == [] ==> err.Stopped?
      ensures !peek ==> |data| >= Least(Least(len, ssizeMax), old(Ready(last, mbox)))
      ensures err.Stopped? || (!peek && |data| < Least(len, ssizeMax)) ==> last.None? && AllTaken(taken, mbox, net)
      ensures old(net.noted && !reported) && err.Stopped? ==> net == old(net) && net.failure == Fault(err.err)
      ensures data != [] ==> reported == old(reported)
      ensures err.Stopped? && net.failure.NoFault? ==>
        err.err == if !old(open) then NotConnected else if net.ended && !old(endSeen) then Closed else if wait then Timeout else WouldBlock
      ensures err.Stopped? && net.failure.Fault? && !old(mboxClosed) ==>
        err.err == (if old(open) then net.failure.err else NotConnected) || (err.err.Closed? && net.ended && !old(endSeen))
      ensures old(pending.Fault?) && data != [] ==>
        (pending.NoFault? <==> !peek && |data| < Least(len, ssizeMax) && !old(HasNote(mbox)))
      ensures old(mboxClosed && !HasNote(mbox) && !finPending) ==> !HasNote(mbox) && !finPending && open == old(open)
      ensures old(mboxClosed) ==> net == old(net) && mboxClosed
      ensures old(mboxClosed) && err.Stopped? ==>
        err.err == if !old(open) then NotConnected
                   else if old(!finPending && mbox.Put? && mbox.first.Note? && !mbox.first.err.Closed?) then old(mbox).first.err
                   else if old(pending.Fault?) then old(pending).err
                   else if old(finPending || (mbox.Put? && mbox.first == Note(Closed))) then Reset else NotConnected
    {
      hide Stored, Sum, Rest, Ready, HasNote, NoData;
      data, err := Gather(if len <= ssizeMax then len else ssizeMax, peek, wait);
      if data == [] && err.Stopped? {
        return if err.err.Closed? then 0 else -1, [], err;
      }
      if peek { PeekIsFront(last, mbox, data); }
      if |data| > 0 && !peek { DoRecv(|data|); }
      n, err := |data|, Done;
    }

    /** The loop of lwip_recv_tcp: collect up to `want` bytes until a fetch fails. */
    method Gather(want: nat, peek: bool, wait: bool) returns (data: seq<Byte>, err: Stop)
      requires Kept()
      modifies this`mbox, this`net, this`pcb, this`mboxClosed, this`pending, this`finPending, this`open, this`last, this`reported, this`endSeen, this`taken
      ensures Kept() && old(net.posted) <= net.posted && (pcb ==> old(pcb)) && |data| <= want
      ensures taken == if peek then old(taken) else old(taken) + data
      ensures peek && data != [] ==> Peeked(last, data, want)
      ensures err.Stopped? ==> last.None? && AllTaken(taken, mbox, net) && (|data| < want || want == 0) && (peek ==> data == [])
      ensures err.Done? ==> |data| == want || (peek && data != [])
      ensures err.Stopped? && data == [] ==> old(Ready(last, mbox)) == 0
      ensures err.Stopped? && data == [] ==> (err.err.Closed? ==> Means(Closed, net)) && (err.err.WouldBlock? ==> !wait)
      ensures !peek ==> |data| >= Least(want, old(Ready(last, mbox)))
      ensures old(mboxClosed && !HasNote(mbox) && !finPending) ==> !HasNote(mbox) && !finPending && open == old(open)
      ensures old(mboxClosed) ==> net == old(net) && mboxClosed
      ensures old(mboxClosed) && err.Stopped? && data == [] ==> err.err == Verdict(old(open), old(finPending), old(mbox), old(pending))
      ensures old(net.noted && !reported) && err.Stopped? && data == [] ==> net.failure == Fault(err.err)
      ensures data != [] ==> reported == old(reported)
      ensures err.Stopped? && data == [] && net.failure.NoFault? ==> err.err == Idle(old(open), net.ended && !old(endSeen), wait)
      ensures err.Stopped? && data == [] && net.failure.Fault? && !old(mboxClosed) ==>
        err.err == (if old(open) then net.failure.err else NotConnected) || (err.err.Closed? && net.ended && !old(endSeen))
      ensures old(pending.Fault?) && data != [] ==> (pending.NoFault? <==> err.Stopped? && !old(HasNote(mbox)))
    {
      hide Stored, Rest, Ready, HasNote, NoData, Verdict, Means, AllTaken, Peeked, Faults, EndKept;
      FaultFacts(taken, last, mbox, net, finPending, open, pending, reported, mboxClosed, pcb);
      var left: nat := want;
      ghost var ready0 := Ready(last, mbox);
      data, err := [], Done;
      var more, noFin := true, false;
      while more
        invariant Kept() && old(net.posted) <= net.posted && (pcb ==> old(pcb)) && err.Done?
        invariant reported == old(reported)
        invariant |data| + left == want && taken == (if peek then old(taken) else old(taken) + data)
        invariant peek && data != [] ==> Peeked(last, data, want)
        invariant more && noFin ==> last.None? && !finPending && open && data != [] && !peek && left > 0 && (net.noted ==> HasNote(mbox))
        invariant more && !noFin ==> data == [] && Same(old(mbox), old(pending), old(net), old(last), old(open), old(finPending), old(reported), old(endSeen), old(mboxClosed))
        invariant !more ==> (data != [] || want == 0) && (!peek ==> left == 0)
        invariant !peek ==> |data| + Ready(last, mbox) >= ready0
        invariant old(mboxClosed && !HasNote(mbox) && !finPending) ==> !HasNote(mbox) && !finPending && open == old(open)
        invariant old(mboxClosed) ==> net == old(net) && mboxClosed && pending == old(pending) && HasNote(mbox) == old(HasNote(mbox))
        decreases more, left
      {
        var chunk;
        chunk, err := Round(wait && !noFin, noFin, left, peek);
        if err.Stopped? { return; }
        assert (old(taken) + data) + chunk == old(taken) + (data + chunk) && [] + chunk == chunk;
        data := data + chunk;
        left := left - |chunk|;
        noFin := true;
        more := left > 0 && !peek;
      }
    }

    /** One round of the loop: fetch if lastdata is empty, and copy. */
    method Round(wait: bool, noFin: bool, left: nat, peek: bool) returns (chunk: seq<Byte>, err: Stop)
      requires Kept() && (noFin ==> last.None? && !finPending && open && !wait && (net.noted ==> HasNote(mbox)))
      modifies this`mbox, this`net, this`pcb, this`mboxClosed, this`pending, this`finPending, this`open, this`last, this`reported, this`endSeen, this`taken
      ensures Kept() && old(net.posted) <= net.posted && (pcb ==> old(pcb))
      ensures taken == if peek then old(taken) else old(taken) + chunk
      ensures err.Stopped? ==> chunk == [] && last.None? && AllTaken(taken, mbox, net) && old(Ready(last, mbox)) == 0
      ensures err.Stopped? ==> (err.err.Closed? ==> Means(Closed, net)) && (err.err.WouldBlock? ==> !wait)
      ensures err.Done? ==> !finPending && open && (net.noted ==> HasNote(mbox)) && (|chunk| > 0 || left == 0) && |chunk| <= left
      ensures err.Done? && peek ==> Peeked(last, chunk, left)
      ensures err.Done? || noFin ==> reported == old(reported)
      ensures err.Stopped? && !noFin && net.failure.NoFault? ==> err.err == Idle(old(open), net.ended && !old(endSeen), wait)
      ensures err.Stopped? && !noFin && net.failure.Fault? && !old(mboxClosed) ==>
        err.err == (if old(open) then net.failure.err else NotConnected) || (err.err.Closed? && net.ended && !old(endSeen))
      ensures err.Done? && !peek ==> (last.None? || |chunk| == left) && |chunk| + Ready(last, mbox) >= old(Ready(last, mbox))
      ensures old(mboxClosed && !HasNote(mbox) && !finPending) ==> !HasNote(mbox) && !finPending && open == old(open)
      ensures old(mboxClosed) ==>
        && net == old(net) && mboxClosed && (err.Done? ==> pending == old(pending) && HasNote(mbox) == old(HasNote(mbox)))
        && (err.Stopped? && noFin ==> (pending.NoFault? <==> old(pending).NoFault? || !old(HasNote(mbox))))
        && (err.Stopped? && !noFin ==> err.err == Verdict(old(open), old(finPending), old(mbox), old(pending)))
    {
      hide Stored, Rest, HasNote, NoData, Verdict, Means, AllTaken, Faults, Front, EndKept;
      chunk := [];
      assert taken + chunk == taken;
      if last.None? {
        var r := Fetch(wait, noFin);
        if r.Nothing? { return chunk, Stopped(r.err); }
      }
      chunk := Chunk(left, peek);
      err := Done;
    }

    ghost predicate Same(mbox0: Box, pending0: Fault, net0: Net, last0: Last, open0: bool, finPending0: bool, reported0: bool, endSeen0: bool, mboxClosed0: bool)
      reads this
    {
      mbox == mbox0 && pending == pending0 && net == net0 && last == last0 && open == open0 && finPending == finPending0 && reported == reported0 && endSeen == endSeen0 && mboxClosed == mboxClosed0
    }

    /** Copy what fits from lastdata and, unless peeking, consume it. */
    method Chunk(left: nat, peek: bool) returns (chunk: seq<Byte>)
      requires Kept() && last.Some?
      modifies this`last, this`taken
      ensures Kept() && |chunk| == Least(left, |old(last).bytes|) && |old(last).bytes| > 0 && chunk == old(last).bytes[..|chunk|]
      ensures !finPending && open && (net.noted ==> HasNote(mbox))
      ensures if peek then last == old(last) && taken == old(taken)
              else taken == old(taken) + chunk && (last.None? || |chunk| == left)
                   && |chunk| + Ready(last, mbox) == old(Ready(last, mbox))
    {
      hide Stored, Rest, Front, HasNote, EndAhead, OneEnd;
      var p := last.bytes;
      var copylen := if left > |p| then |p| else left;
      StoredTake(taken, last, mbox, net, finPending, open, copylen);
      chunk := p[..copylen];
      if !peek {
        last := if |p| - copylen > 0 then Some(p[copylen..]) else None;
        taken := taken + chunk;
      }
    }
  }

  /** What a peek has found: the front of lastdata, as much of it as was asked for. */
  predicate Peeked(last: Last, data: seq<Byte>, want: nat) {
    last.Some? && |data| <= |last.bytes| && data == last.bytes[..|data|] && (|data| == want || |data| == |last.bytes|)
  }

  lemma PeekIsFront(last: Last, mbox: Box, data: seq<Byte>)
    requires data == [] || (last.Some? && |data| <= |last.bytes| && data == last.bytes[..|data|])
    ensures data <= Rest(last, mbox)
  {
  }

  lemma TakenFits(taken: seq<Byte>, last: Last, mbox: Box, net: Net, finPending: bool, open: bool)
    requires Stored(taken, last, mbox, net, finPending, open)
    ensures |taken| <= |net.posted| && (NoData(mbox) && !HasNote(mbox) ==> mbox.Empty?)
  {
  }

  /** `d` arrives, and perhaps the end, and then the connection is reset. */
  method ReceiveThenReset(d: seq<Byte>, fin: bool, room: bool) returns (s: Socket)
    requires 0 < |d| < 0x10000
    ensures fresh(s) && s.Valid() && s.ssizeMax == 0x7fff_ffff && s.open && !s.finPending && s.taken == [] && !s.reported
    ensures s.net == Net(d, fin, Fault(Reset), room) && s.mboxClosed && s.pending == Fault(Reset)
    ensures Ready(s.last, s.mbox) == |d| && HasNote(s.mbox) == (fin || room)
  {
    var end := if fin then Put(Note(Closed), Empty) else Empty;
    var items := Put(Data(d), end);
    s := new Socket(0x7fff_ffff);
    NoDataFacts(end);
    assert Arriving(end, fin);
    assert Arriving(items, fin);
    assert Stream(items) == d + Stream(end);
    assert d + [] == d && [] + d == d;
    s.Arrive(items, fin);
    s.Fail(Reset, room);
    var note := if room then Put(Note(Reset), Empty) else Empty;
    assert s.mbox == Put(Data(d), Append(end, note));
    NoDataFacts(Append(end, note));
  }

  /** Asking for more than `d` returns `d`. */
  method ReceiveAll(s: Socket, d: seq<Byte>, wait: bool) returns (n: int)
    requires s.Valid() && |d| < s.ssizeMax && s.taken == [] && s.net.posted == d && s.mboxClosed && Ready(s.last, s.mbox) == |d| > 0
    modifies s
    ensures s.Valid() && n == |d| && s.last.None? && s.net == old(s.net) && s.mboxClosed && s.reported == old(s.reported) && s.taken == d
    ensures old(s.pending.Fault?) ==> (s.pending.NoFault? <==> !old(HasNote(s.mbox)))
    ensures old(!HasNote(s.mbox) && !s.finPending) ==> s.mbox.Empty? && !s.finPending && s.open == old(s.open)
  {
    hide Stored, Sum, Ready, HasNote, NoData, Rest;
    var data, err;
    n, data, err := s.RecvTcp(|d| + 1, false, wait);
    assert [] + data == data;
    TakenFits(s.taken, s.last, s.mbox, s.net, s.finPending, s.open);
  }

  /** A reset behind the end of the stream: a receive that asks for more than the data gets the data,
      and the next one reports the reset instead of the end. */
  method ResetBehindEnd(d: seq<Byte>, wait: bool) returns (n: int, err: Stop)
    requires 0 < |d| < 0x10000
    ensures n == |d| && err == Stopped(Reset)
  {
    hide Stored, Sum, Ready, HasNote, NoData, Rest;
    var s := ReceiveThenReset(d, true, true);
    n := ReceiveAll(s, d, wait);
    var m, data;
    m, data, err := s.RecvTcp(1, false, wait);
    TakenFits(s.taken, s.last, s.mbox, s.net, s.finPending, s.open);
  }

  /** A reset that finds the mailbox full: the receive that gets the data clears the pending error as
      well, and the next one does not report the reset. */
  method ResetIsLost(d: seq<Byte>, wait: bool) returns (n: int, err: Stop)
    requires 0 < |d| < 0x10000
    ensures n == |d| && err == Stopped(NotConnected)
  {
    hide Stored, Sum, Ready, HasNote, NoData, Rest;
    var s := ReceiveThenReset(d, false, false);
    n := ReceiveAll(s, d, wait);
    var m, data;
    m, data, err := s.RecvTcp(1, false, wait);
    TakenFits(s.taken, s.last, s.mbox, s.net, s.finPending, s.open);
  }
}
