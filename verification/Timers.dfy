/** The timeout list of src/lib/liblwip/core/timeouts.c: a list kept sorted with wrapping 32-bit
    times, proved to be a priority queue in true time that is first-in-first-out among equal
    times, and sys_check_timeouts running handlers that put themselves back on the list. */
module Timers {
  import opened Bytes

  const HALF: int := 0x8000_0000
  const FULL: int := 0x1_0000_0000

  function Wrap(t: int): nat { t % FULL }

  /** TIME_LESS_THAN on u32_t values. */
  predicate Before(t: nat, c: nat) { (t - c) % FULL > 0x7fff_ffff }

  /** The wrapped comparison is the true one for times less than 2^31 ms apart. */
  lemma BeforeIsLess(x: int, y: int)
    requires -HALF <= x - y < HALF
    ensures Before(Wrap(x), Wrap(y)) <==> x < y
  {
    WrapDistance(x, y);
  }

  /** Within the 2^32 ms that the values tell apart, it is right exactly for those. */
  lemma BeforeExact(x: int, y: int)
    requires -FULL < x - y < FULL
    ensures (Before(Wrap(x), Wrap(y)) <==> x < y) <==> -HALF <= x - y < HALF
  {
    WrapDistance(x, y);
  }

  lemma WrapDistance(x: int, y: int)
    ensures (Wrap(x) - Wrap(y)) % FULL == (x - y) % FULL
  {
    assert Wrap(x) - Wrap(y) == (x - y) - FULL * (x / FULL - y / FULL);
  }

  // ---------------------------------------------------------------- the queue in true time

  /** The handlers on the list: lwip_cyclic_timer with its table entry, tcpip_tcp_timer, and
      anything else, which may set further timers but does not put itself back at once. */
  datatype Handler = Cyclic(id: nat, interval: nat) | Tcp | Other(id: nat)

  datatype Entry = Entry(due: int, h: Handler)

  /** struct sys_timeo, with the time as the source keeps it. */
  datatype Node = Node(time: nat, h: Handler)

  ghost predicate Sorted(q: seq<Entry>) { forall i, j | 0 <= i < j < |q| :: q[i].due <= q[j].due }

  /** All times lie in the 2^31 ms from `base` on. */
  ghost predicate Within(q: seq<Entry>, base: int) {
    forall i | 0 <= i < |q| :: base <= q[i].due < base + HALF
  }

  /** The list holds the queue's times modulo 2^32. */
  ghost predicate Wrapped(l: seq<Node>, q: seq<Entry>) {
    |l| == |q| && forall i | 0 <= i < |q| :: l[i] == Node(Wrap(q[i].due), q[i].h)
  }

  /** How many leading entries are due at `t` or earlier. */
  function Rank(q: seq<Entry>, t: int): (r: nat)
    ensures r <= |q|
    ensures forall i | 0 <= i < r :: q[i].due <= t
    ensures r < |q| ==> t < q[r].due
  {
    if q == [] || t < q[0].due then 0 else 1 + Rank(q[1..], t)
  }

  lemma {:induction false} RankIs(q: seq<Entry>, t: int, r: nat)
    requires r <= |q| && (forall i | 0 <= i < r :: q[i].due <= t) && (r < |q| ==> t < q[r].due)
    ensures Rank(q, t) == r
  {
    if r > 0 { RankIs(q[1..], t, r - 1); }
  }

  /** The entries due at `t`, in order. */
  function Due(q: seq<Entry>, t: int): seq<Entry> { q[..Rank(q, t)] }

  /** A new entry goes behind everything due no later. */
  function Insert(q: seq<Entry>, e: Entry): seq<Entry> {
    q[..Rank(q, e.due)] + [e] + q[Rank(q, e.due)..]
  }

  /** The entries due after `t`, in order. */
  function Tail(q: seq<Entry>, t: int): seq<Entry> { q[Rank(q, t)..] }

  function Shift(q: seq<Entry>, delta: int): (r: seq<Entry>)
    ensures |r| == |q| && forall i | 0 <= i < |q| :: r[i] == Entry(q[i].due + delta, q[i].h)
  {
    if q == [] then [] else [Entry(q[0].due + delta, q[0].h)] + Shift(q[1..], delta)
  }

  /** Index of the first entry of handler `h`, or the length. */
  function Find(q: seq<Entry>, h: Handler): (r: nat)
    ensures r <= |q|
    ensures forall i | 0 <= i < r :: q[i].h != h
    ensures r < |q| ==> q[r].h == h
  {
    if q == [] || q[0].h == h then 0 else 1 + Find(q[1..], h)
  }

  function Cancel(q: seq<Entry>, h: Handler): seq<Entry> {
    var i := Find(q, h);
    if i == |q| then q else q[..i] + q[i + 1..]
  }

  function Count(q: seq<Entry>, h: Handler): nat {
    if q == [] then 0 else Count(q[..|q| - 1], h) + if q[|q| - 1].h == h then 1 else 0
  }

  // ---------------------------------------------------------------- what handlers do to the queue

  /** A call that changes the queue: a timeout is set, or the first one of a handler cancelled. */
  datatype Op = Set(e: Entry) | Drop(h: Handler)

  function After(q: seq<Entry>, op: Op): seq<Entry> { if op.Set? then Insert(q, op.e) else Cancel(q, op.h) }

  function Apply(q: seq<Entry>, ops: seq<Op>): seq<Entry> {
    if ops == [] then q else After(Apply(q, ops[..|ops| - 1]), ops[|ops| - 1])
  }

  /** The entry that a call takes off the queue. */
  function Gone(q: seq<Entry>, op: Op): seq<Entry> {
    if op.Set? || Find(q, op.h) == |q| then [] else [q[Find(q, op.h)]]
  }

  function Removed(q: seq<Entry>, ops: seq<Op>): seq<Entry> {
    if ops == [] then [] else Removed(q, ops[..|ops| - 1]) + Gone(Apply(q, ops[..|ops| - 1]), ops[|ops| - 1])
  }

  function Placed(op: Op): seq<Entry> { if op.Set? then [op.e] else [] }

  /** The entries that were set, in order. */
  function Sets(ops: seq<Op>): seq<Entry> {
    if ops == [] then [] else Sets(ops[..|ops| - 1]) + Placed(ops[|ops| - 1])
  }

  /** Everything is set for after `t`; what is cancelled are timers of the application. */
  ghost predicate Legal(ops: seq<Op>, t: int) { forall i | 0 <= i < |ops| :: LegalOp(ops[i], t) }

  predicate LegalOp(op: Op, t: int) { if op.Set? then op.e.due > t else op.h.Other? }

  /** The same, and no cyclic timer is set. */
  ghost predicate Plain(ops: seq<Op>, t: int) {
    forall i | 0 <= i < |ops| :: LegalOp(ops[i], t) && (ops[i].Set? ==> !ops[i].e.h.Cyclic?)
  }

  lemma ApplyNone(q: seq<Entry>)
    ensures Apply(q, []) == q && Removed(q, []) == [] && Sets([]) == []
  {
  }

  lemma ApplySnoc(q: seq<Entry>, ops: seq<Op>, op: Op)
    ensures Apply(q, ops + [op]) == After(Apply(q, ops), op)
    ensures Removed(q, ops + [op]) == Removed(q, ops) + Gone(Apply(q, ops), op)
    ensures Sets(ops + [op]) == Sets(ops) + Placed(op)
  {
    assert (ops + [op])[..|ops|] == ops;
  }

  lemma ApplyOne(q: seq<Entry>, op: Op)
    ensures Apply(q, [op]) == After(q, op) && Removed(q, [op]) == Gone(q, op) && Sets([op]) == Placed(op)
  {
    assert [] + [op] == [op];
    ApplyNone(q);
    ApplySnoc(q, [], op);
    assert [] + Gone(q, op) == Gone(q, op) && [] + Placed(op) == Placed(op);
  }

  lemma {:induction false} ApplyMore(q: seq<Entry>, ops: seq<Op>, more: seq<Op>)
    ensures Apply(q, ops + more) == Apply(Apply(q, ops), more)
    ensures Removed(q, ops + more) == Removed(q, ops) + Removed(Apply(q, ops), more)
    ensures Sets(ops + more) == Sets(ops) + Sets(more)
    decreases |more|
  {
    hide Apply, Removed, Sets, After, Gone, Placed;
    if more == [] {
      ApplyNone(Apply(q, ops));
      assert ops + [] == ops && Removed(q, ops) + [] == Removed(q, ops) && Sets(ops) + [] == Sets(ops);
    } else {
      var n := |more| - 1;
      var m, op := more[..n], more[n];
      ApplyMore(q, ops, m);
      LastApart(ops, more);
      ApplySnoc(q, ops + m, op);
      ApplySnoc(Apply(q, ops), m, op);
      Assoc(Removed(q, ops), Removed(Apply(q, ops), m), Gone(Apply(Apply(q, ops), m), op));
      Assoc(Sets(ops), Sets(m), Placed(op));
    }
  }

  lemma LastApart(ops: seq<Op>, more: seq<Op>)
    requires more != []
    ensures var n := |more| - 1; ops + more == (ops + more[..n]) + [more[n]] && more == more[..n] + [more[n]]
  {
  }

  lemma Assoc(a: seq<Entry>, b: seq<Entry>, c: seq<Entry>)
    ensures (a + b) + c == a + (b + c)
  {
  }

  /** No entry is lost or made up: what was on the queue or set is on it or was cancelled. */
  lemma {:induction false} ApplyConserves(q: seq<Entry>, ops: seq<Op>)
    ensures multiset(Apply(q, ops)) + multiset(Removed(q, ops)) == multiset(q) + multiset(Sets(ops))
  {
    if ops != [] {
      hide After, Gone, Placed;
      var n := |ops| - 1;
      var p, op := Apply(q, ops[..n]), ops[n];
      ApplyConserves(q, ops[..n]);
      AfterConserves(p, op);
      Rebook(multiset(After(p, op)), multiset(Gone(p, op)), multiset(p), multiset(Placed(op)),
             multiset(Removed(q, ops[..n])), multiset(q), multiset(Sets(ops[..n])));
    }
  }

  lemma Rebook(a: multiset<Entry>, g: multiset<Entry>, p: multiset<Entry>, s: multiset<Entry>, r: multiset<Entry>, q: multiset<Entry>, t: multiset<Entry>)
    requires a + g == p + s && p + r == q + t
    ensures a + (r + g) == q + (t + s)
  {
    assert a + (r + g) == (a + g) + r;
    assert (p + s) + r == (p + r) + s;
  }

  lemma AfterConserves(q: seq<Entry>, op: Op)
    ensures multiset(After(q, op)) + multiset(Gone(q, op)) == multiset(q) + multiset(Placed(op))
    ensures |After(q, op)| + |Gone(q, op)| == |q| + |Placed(op)|
  {
    if op.Set? {
      InsertMultiset(q, op.e);
    } else {
      var i := Find(q, op.h);
      if i < |q| { assert q == q[..i] + [q[i]] + q[i + 1..]; }
    }
  }

  lemma {:induction false} ApplyLength(q: seq<Entry>, ops: seq<Op>)
    ensures |Apply(q, ops)| + |Removed(q, ops)| == |q| + |Sets(ops)|
  {
    if ops != [] {
      hide Insert, Cancel, Find;
      ApplyLength(q, ops[..|ops| - 1]);
      AfterConserves(Apply(q, ops[..|ops| - 1]), ops[|ops| - 1]);
    }
  }

  /** Only timers of the application are cancelled. */
  lemma {:induction false} ApplyCount(q: seq<Entry>, ops: seq<Op>, g: Handler)
    requires !g.Other? && forall i | 0 <= i < |ops| && ops[i].Drop? :: ops[i].h.Other?
    ensures Count(Apply(q, ops), g) == Count(q, g) + Count(Sets(ops), g)
  {
    if ops != [] {
      hide Insert, Cancel, Find;
      var n := |ops| - 1;
      ApplyCount(q, ops[..n], g);
      AfterCount(Apply(q, ops[..n]), ops[n], g);
      CountConcat(Sets(ops[..n]), Placed(ops[n]), g);
    }
  }

  lemma AfterCount(q: seq<Entry>, op: Op, g: Handler)
    requires op.Drop? ==> op.h != g
    ensures Count(After(q, op), g) == Count(q, g) + Count(Placed(op), g)
  {
    hide Count;
    assert Count([], g) == 0 by { CountNone(g); }
    if op.Set? {
      InsertCount(q, op.e, g);
      CountOne(op.e, g);
    } else {
      var i := Find(q, op.h);
      if i < |q| {
        var a, b := q[..i], q[i + 1..];
        assert q == a + ([q[i]] + b);
        CountConcat(a, [q[i]] + b, g);
        CountConcat([q[i]], b, g);
        CountConcat(a, b, g);
        CountOne(q[i], g);
      }
    }
  }

  lemma CountNone(g: Handler)
    ensures Count([], g) == 0
  {
  }

  lemma {:induction false} CountConcat(a: seq<Entry>, b: seq<Entry>, h: Handler)
    ensures Count(a + b, h) == Count(a, h) + Count(b, h)
  {
    if b == [] {
      assert a + b == a;
    } else {
      var n := |b| - 1;
      CountConcat(a, b[..n], h);
      assert (a + b)[..|a + b| - 1] == a + b[..n];
    }
  }

  lemma InsertSorted(q: seq<Entry>, e: Entry)
    requires Sorted(q)
    ensures Sorted(Insert(q, e))
    ensures Rank(Insert(q, e), e.due) == Rank(q, e.due) + 1 && Insert(q, e)[Rank(q, e.due)] == e
  {
    RankIs(Insert(q, e), e.due, Rank(q, e.due) + 1);
  }

  lemma CountOne(e: Entry, h: Handler)
    ensures Count([e], h) == if e.h == h then 1 else 0
  {
    assert [e][..0] == [];
  }

  lemma InsertCount(q: seq<Entry>, e: Entry, h: Handler)
    ensures Count(Insert(q, e), h) == Count(q, h) + if e.h == h then 1 else 0
  {
    hide Count;
    var r := Rank(q, e.due);
    assert q == q[..r] + q[r..];
    CountConcat(q[..r], q[r..], h);
    CountConcat(q[..r] + [e], q[r..], h);
    CountConcat(q[..r], [e], h);
    CountOne(e, h);
  }

  /** Insertion keeps the order, adds exactly the new entry, and leaves entries of equal time in
      the order in which they came. */
  lemma InsertIsStable(q: seq<Entry>, e: Entry)
    requires Sorted(q)
    ensures Sorted(Insert(q, e)) && multiset(Insert(q, e)) == multiset(q) + multiset{e}
    ensures exists r: nat | r <= |q| ::
              && Insert(q, e) == q[..r] + [e] + q[r..]
              && (forall i | 0 <= i < r :: q[i].due <= e.due) && (forall i | r <= i < |q| :: e.due < q[i].due)
  {
    InsertSorted(q, e);
    InsertMultiset(q, e);
    hide Sorted;
    SuffixLater(q, e.due);
  }

  lemma InsertMultiset(q: seq<Entry>, e: Entry)
    ensures multiset(Insert(q, e)) == multiset(q) + multiset{e}
  {
    var r := Rank(q, e.due);
    assert q == q[..r] + q[r..];
  }

  lemma SuffixLater(q: seq<Entry>, t: int)
    requires Sorted(q)
    ensures forall i | Rank(q, t) <= i < |q| :: t < q[i].due
  {
    var r := Rank(q, t);
    assert forall i | r < i < |q| :: q[r].due <= q[i].due;
  }

  /** What is due at `t` after an insertion: a later entry changes nothing, an entry at `t`
      itself comes last. */
  lemma InsertDue(q: seq<Entry>, e: Entry, t: int)
    requires Sorted(q) && e.due >= t
    ensures Due(Insert(q, e), t) == if e.due > t then Due(q, t) else Due(q, t) + [e]
  {
    var k, r, q' := Rank(q, t), Rank(q, e.due), Insert(q, e);
    SuffixLater(q, e.due);
    SuffixLater(q, t);
    hide Sorted, Rank;
    assert k <= r;
    assert q'[..k] == q[..k];
    if e.due > t {
      assert k < |q'| ==> q'[k] == if k < r then q[k] else e;
      RankIs(q', t, k);
    } else {
      assert k == r;
      assert q'[..k + 1] == q[..k] + [e];
      assert k + 1 < |q'| ==> q'[k + 1] == q[k];
      RankIs(q', t, k + 1);
    }
  }

  lemma CancelSorted(q: seq<Entry>, h: Handler)
    requires Sorted(q)
    ensures Sorted(Cancel(q, h))
  {
  }

  lemma WrapSum(x: int, d: int)
    ensures Wrap(Wrap(x) + d) == Wrap(x + d)
  {
    assert x + d == Wrap(x) + d + FULL * (x / FULL);
  }

  // ---------------------------------------------------------------- the module's state

  /** The delay of the TCP timer in milliseconds. */
  const TCP_TMR_INTERVAL: nat := 250

  /** sys_timeout asserts that a delay is at most a quarter of the 32-bit range. */
  const MAX_DELAY: nat := 0x3fff_ffff

  class Timeouts {
    /** next_timeout, first entry first */
    var list: seq<Node>
    var currentDue: nat
    var tcpActive: bool
    /** free elements of the pool MEMP_SYS_TIMEOUT */
    var free: nat
    /** the millisecond counter behind sys_now, before it is cut to 32 bits */
    var clock: int
    ghost var q: seq<Entry>
    /** `currentDue` before it was cut to 32 bits */
    ghost var dueTime: int
    /** the pool has been found empty at least once, so a timer is missing */
    ghost var lost: bool
    /** what sys_untimeout has taken off the list */
    ghost var dropped: seq<Entry>

    /** The list is the queue `q`, and all its times and the clock lie in one window. */
    ghost predicate Valid(base: int)
      reads this
    {
      Wrapped(list, q) && Sorted(q) && Within(q, base) && base <= clock < base + HALF
    }

    /** The TCP timer is on the list at most once, and only while tcpip_tcp_timer_active is set;
        unless the pool has run out, it is there all that time. */
    ghost predicate TcpOk()
      reads this
    {
      Count(q, Tcp) <= (if tcpActive then 1 else 0) && (lost || Count(q, Tcp) == if tcpActive then 1 else 0)
    }

    constructor (pool: nat, clock: int)
      ensures Valid(clock) && TcpOk() && q == [] && this.clock == clock && free == pool && !lost
    {
      list, currentDue, tcpActive, free := [], 0, false, pool;
      this.clock := clock;
      q, dueTime, lost, dropped := [], 0, false, [];
    }

    /** sys_now: time passes, but not beyond `limit`. */
    method SysNow(limit: int) returns (now: nat)
      requires clock <= limit
      modifies this`clock
      ensures old(clock) <= clock <= limit && now == Wrap(clock)
    {
      var t: int := *;
      if clock <= t <= limit { clock := t; }
      now := Wrap(clock);
    }

    /** sys_timeout_abs: sorted insertion behind entries of the same time. */
    method SysTimeoutAbs(abs: nat, h: Handler, ghost due: int, ghost base: int)
      requires Valid(base) && abs == Wrap(due) && base <= due < base + HALF
      modifies this`list, this`free, this`q, this`lost
      ensures Valid(base)
      ensures if old(free) == 0 then list == old(list) && q == old(q) && free == 0 && lost
              else q == Insert(old(q), Entry(due, h)) && free == old(free) - 1 && lost == old(lost)
    {
      if free == 0 { lost := true; return; }
      free := free - 1;
      var i := Place(abs, due, base);
      hide Sorted, Within, Wrapped, Insert;
      InsertWrapped(list, q, Entry(due, h), base);
      list := list[..i] + [Node(abs, h)] + list[i..];
      q := Insert(q, Entry(due, h));
    }

    /** The search of sys_timeout_abs for the place of a new entry. */
    method Place(abs: nat, ghost due: int, ghost base: int) returns (i: nat)
      requires Valid(base) && abs == Wrap(due) && base <= due < base + HALF
      ensures i == Rank(q, due)
    {
      if list == [] { return 0; }
      BeforeIsLess(due, q[0].due);
      if Before(abs, list[0].time) {
        RankIs(q, due, 0);
        return 0;
      }
      var t: nat := 0;
      while t + 1 < |list| && !Before(abs, list[t + 1].time)
        invariant t < |list| && q[t].due <= due
      {
        BeforeIsLess(due, q[t + 1].due);
        t := t + 1;
      }
      if t + 1 < |list| { BeforeIsLess(due, q[t + 1].due); }
      RankIs(q, due, t + 1);
      i := t + 1;
    }

    /** sys_timeout */
    method SysTimeout(msecs: nat, h: Handler, limit: int, ghost base: int)
      requires Valid(base) && msecs <= MAX_DELAY && clock <= limit && limit + msecs < base + HALF
      modifies this`list, this`free, this`clock, this`q, this`lost
      ensures Valid(base) && old(clock) <= clock <= limit
      ensures if old(free) == 0 then q == old(q) && free == 0 && lost
              else q == Insert(old(q), Entry(clock + msecs, h)) && free == old(free) - 1 && lost == old(lost)
    {
      var now := SysNow(limit);
      WrapSum(clock, msecs);
      SysTimeoutAbs(Wrap(now + msecs), h, clock + msecs, base);
    }

    /** sys_untimeout removes the first entry of the handler, if there is one. */
    method SysUntimeout(h: Handler, ghost base: int)
      requires Valid(base)
      modifies this`list, this`free, this`q, this`dropped
      ensures Valid(base) && q == Cancel(old(q), h)
      ensures free == old(free) + |old(q)| - |q| && dropped == old(dropped) + Gone(old(q), Drop(h))
    {
      hide Wrap, Cancel, Sorted, Within;
      var i: nat := 0;
      while i < |list|
        invariant i <= |list| && list == old(list) && q == old(q) && free == old(free) && dropped == old(dropped)
        invariant forall j | 0 <= j < i :: q[j].h != h
      {
        if list[i].h == h {
          CancelNodes(list, q, h, i, base);
          list := list[..i] + list[i + 1..];
          dropped := dropped + [q[i]];
          q := Cancel(q, h);
          free := free + 1;
          return;
        }
        i := i + 1;
      }
      CancelAbsent(q, h);
    }

    /** sys_timeouts_sleeptime: exactly the time until the first entry is due. */
    method SleepTime(limit: int, ghost base: int) returns (r: nat)
      requires Valid(base) && clock <= limit < base + HALF
      modifies this`clock
      ensures Valid(base) && old(clock) <= clock <= limit
      ensures r == if q == [] then 0xffff_ffff else if q[0].due <= clock then 0 else q[0].due - clock
    {
      if list == [] { return 0xffff_ffff; }
      var now := SysNow(limit);
      BeforeIsLess(q[0].due, clock);
      if Before(list[0].time, now) { return 0; }
      WrapDistance(q[0].due, clock);
      r := Wrap(list[0].time - now);
    }

    /** sys_restart_timeouts: the first entry becomes due now and the distances stay. */
    method Restart(limit: int, ghost base: int)
      requires Valid(base) && clock <= limit < base + HALF
      modifies this`list, this`clock, this`q
      ensures old(clock) <= clock <= limit
      ensures if old(q) == [] then q == [] && Valid(base)
              else q == Shift(old(q), clock - old(q)[0].due) && Valid(clock)
    {
      hide Wrap, Shift, Sorted, Within;
      if list == [] { return; }
      var now := SysNow(limit);
      var first := list[0].time;
      var i: nat := 0;
      ghost var c := clock;
      while i < |list|
        invariant clock == c && i <= |list| == |q| && q == old(q) && now == Wrap(clock) && first == Wrap(q[0].due)
        invariant forall j | 0 <= j < i :: list[j] == Node(Wrap(q[j].due - q[0].due + clock), q[j].h)
        invariant forall j | i <= j < |q| :: list[j] == Node(Wrap(q[j].due), q[j].h)
      {
        Rebased(q[i].due, q[0].due, clock);
        list := list[i := Node(Wrap(Wrap(list[i].time - first) + now), list[i].h)];
        i := i + 1;
      }
      ShiftFacts(q, list, base, clock);
      q := Shift(q, clock - q[0].due);
    }

    // -------------------------------------------------------------- handlers

    /** Cyclic timers have positive intervals of at most `span` milliseconds. */
    ghost predicate IntervalsOk(span: nat)
      reads this
    {
      Intervals(q, span)
    }

    /** What every handler may assume and must leave: the window, room in it for the delays it
        asks for, and the entries due at `now0` untouched except by the caller. */
    ghost predicate Running(limit: int, span: nat, base: int, now0: int)
      reads this
    {
      && Valid(base) && IntervalsOk(span)
      && now0 <= clock <= limit && limit + span < base + HALF && TCP_TMR_INTERVAL <= span
    }

    /** tcp_timer_needed; `pcbs` says whether there are active or time-wait connections. The timer
        is set exactly if there are and it is off. */
    method TcpTimerNeeded(pcbs: bool, limit: int, span: nat, ghost base: int, ghost now0: int) returns (ghost ops: seq<Op>)
      requires Running(limit, span, base, now0)
      modifies this`list, this`free, this`clock, this`tcpActive, this`q, this`lost
      ensures Running(limit, span, base, now0) && (old(TcpOk()) ==> TcpOk()) && clock >= old(clock)
      ensures tcpActive == (old(tcpActive) || pcbs) && Did(old(q), old(free), old(dropped), ops) && Plain(ops, now0)
      ensures ops == [] ==> q == old(q)
      ensures if old(tcpActive) || !pcbs then ops == [] && lost == old(lost) && clock == old(clock)
              else if old(free) == 0 then ops == [] && lost
              else ops == [Set(Entry(clock + TCP_TMR_INTERVAL, Tcp))] && lost == old(lost)
      ensures |Sets(ops)| == |ops|
    {
      hide Wrapped, Within, Sorted, Insert, Count;
      ops := [];
      ApplyNone(q);
      if !tcpActive && pcbs {
        tcpActive := true;
        ops := Later(TCP_TMR_INTERVAL, Tcp, limit, span, base, now0);
      }
    }

    /** The calls `ops` account for the queue, the pool and what was cancelled. */
    ghost predicate Did(q0: seq<Entry>, free0: nat, dropped0: seq<Entry>, ops: seq<Op>)
      reads this
    {
      && q == Apply(q0, ops) && dropped == dropped0 + Removed(q0, ops)
      && free + |Sets(ops)| == free0 + |Removed(q0, ops)|
    }

    /** sys_timeout with a positive delay, seen from inside sys_check_timeouts. */
    method Later(msecs: nat, h: Handler, limit: int, span: nat, ghost base: int, ghost now0: int) returns (ghost ops: seq<Op>)
      requires Running(limit, span, base, now0) && 0 < msecs <= span && msecs <= MAX_DELAY && !h.Cyclic?
      modifies this`list, this`free, this`clock, this`q, this`lost
      ensures Running(limit, span, base, now0) && clock >= old(clock)
      ensures Did(old(q), old(free), old(dropped), ops) && Plain(ops, now0)
      ensures if old(free) == 0 then ops == [] && lost else ops == [Set(Entry(clock + msecs, h))] && lost == old(lost)
      ensures |Sets(ops)| == |ops| && Removed(old(q), ops) == []
      ensures Count(q, Tcp) == Count(old(q), Tcp) + if h == Tcp && ops != [] then 1 else 0
    {
      hide Wrapped, Within, Count, Insert;
      SysTimeout(msecs, h, limit, base);
      ops := [];
      ApplyNone(q);
      if old(free) > 0 {
        ops := [Set(Entry(clock + msecs, h))];
        InsertFacts(old(q), Entry(clock + msecs, h), span);
      }
    }

    /** sys_untimeout for a timer of the application, seen from inside sys_check_timeouts. */
    method Never(h: Handler, limit: int, span: nat, ghost base: int, ghost now0: int) returns (ghost ops: seq<Op>)
      requires Running(limit, span, base, now0) && h.Other?
      modifies this`list, this`free, this`q, this`dropped
      ensures Running(limit, span, base, now0) && Did(old(q), old(free), old(dropped), ops) && Plain(ops, now0)
      ensures Sets(ops) == [] && Count(q, Tcp) == Count(old(q), Tcp)
    {
      hide Wrapped, Within, Count, Sorted, Cancel;
      SysUntimeout(h, base);
      ops := [Drop(h)];
      CancelFacts(old(q), h, span);
      AfterConserves(old(q), Drop(h));
    }

    /** Whatever a handler does besides: time passes, further timers are set with positive
        delays or cancelled, and tcp_timer_needed may be called. A timer is missing only if at
        least as many were set as the pool had elements. */
    method UserCode(limit: int, span: nat, ghost base: int, ghost now0: int) returns (ghost ops: seq<Op>)
      requires Running(limit, span, base, now0) && TcpOk()
      modifies this`list, this`free, this`clock, this`tcpActive, this`q, this`lost, this`dropped
      ensures Running(limit, span, base, now0) && TcpOk() && clock >= old(clock)
      ensures Did(old(q), old(free), old(dropped), ops) && Plain(ops, now0)
      ensures (old(lost) ==> lost) && (lost && !old(lost) ==> |Sets(ops)| >= old(free))
    {
      hide Wrapped, Within, Count, Sorted, Insert, Apply, Removed, Sets;
      ops := [];
      ApplyNone(q);
      assert dropped + [] == dropped;
      var n: int := *;
      for i := 0 to if n < 0 then 0 else n
        invariant Running(limit, span, base, now0) && clock >= old(clock) && TcpOk()
        invariant Did(old(q), old(free), old(dropped), ops) && Plain(ops, now0)
        invariant (old(lost) ==> lost) && (lost && !old(lost) ==> |Sets(ops)| >= old(free))
      {
        ghost var more := OneCall(limit, span, base, now0);
        ApplyMore(old(q), ops, more);
        assert (old(dropped) + Removed(old(q), ops)) + Removed(Apply(old(q), ops), more) == old(dropped) + (Removed(old(q), ops) + Removed(Apply(old(q), ops), more));
        ops := ops + more;
      }
    }

    /** One call that user code makes. */
    method OneCall(limit: int, span: nat, ghost base: int, ghost now0: int) returns (ghost ops: seq<Op>)
      requires Running(limit, span, base, now0)
      modifies this`list, this`free, this`clock, this`tcpActive, this`q, this`lost, this`dropped
      ensures Running(limit, span, base, now0) && (old(TcpOk()) ==> TcpOk()) && clock >= old(clock)
      ensures old(tcpActive) ==> tcpActive && Count(q, Tcp) == Count(old(q), Tcp)
      ensures Did(old(q), old(free), old(dropped), ops) && Plain(ops, now0)
      ensures (old(lost) ==> lost) && (lost && !old(lost) ==> old(free) == 0)
    {
      hide Wrapped, Within, Count, Sorted, Insert, Apply, Removed, Sets;
      var pcbs: bool, msecs: nat, id: nat, cancel: bool := *, *, *, *;
      if cancel {
        ops := Never(Other(id), limit, span, base, now0);
      } else if 0 < msecs <= span && msecs <= MAX_DELAY {
        ops := Later(msecs, Other(id), limit, span, base, now0);
      } else {
        ops := TcpTimerNeeded(pcbs, limit, span, base, now0);
      }
    }

    /** lwip_cyclic_timer: run the handler, then come back one interval after the time this run
        was due, or one interval from now if that has passed already. `user` is what the handler
        itself does; the timer comes back exactly if that leaves an element of the pool. */
    method CyclicTimer(h: Handler, limit: int, span: nat, ghost base: int, ghost now0: int)
      returns (ghost user: seq<Op>, ghost ops: seq<Op>)
      requires Running(limit, span, base, now0) && TcpOk() && h.Cyclic? && 0 < h.interval <= span
      requires currentDue == Wrap(dueTime) && base <= dueTime <= now0
      modifies this`list, this`free, this`clock, this`tcpActive, this`q, this`lost, this`dropped
      ensures Running(limit, span, base, now0) && TcpOk() && Plain(user, now0) && clock >= old(clock)
      ensures Did(old(q), old(free), old(dropped), ops)
      ensures ops == if Spare(old(q), old(free), user) then user + [Set(Entry(NextTurn(dueTime, h.interval, clock), h))] else user
      ensures (old(lost) ==> lost) && (lost && !old(lost) ==> |Sets(ops)| >= old(free)) && (!Spare(old(q), old(free), user) ==> lost)
    {
      hide Wrapped, Within, Count, Sorted, Insert, Apply, Removed, Sets;
      user := UserCode(limit, span, base, now0);
      ghost var q1 := q;
      var now := SysNow(limit);
      WrapSum(dueTime, h.interval);
      WrapSum(clock, h.interval);
      var next := Wrap(currentDue + h.interval);
      BeforeIsLess(dueTime + h.interval, clock);
      ghost var due := NextTurn(dueTime, h.interval, clock);
      if Before(next, now) {
        SysTimeoutAbs(Wrap(now + h.interval), h, due, base);
      } else {
        SysTimeoutAbs(next, h, due, base);
      }
      ops := user;
      if Spare(old(q), old(free), user) {
        ops := user + [Set(Entry(due, h))];
        InsertFacts(q1, Entry(due, h), span);
        ApplySnoc(old(q), user, Set(Entry(due, h)));
      }
    }

    /** tcpip_tcp_timer: the timer stays on the list exactly while there are connections; `pcbs` says
        whether there are any after tcp_tmr. */
    method TcpTimer(pcbs: bool, limit: int, span: nat, ghost base: int, ghost now0: int)
      returns (ghost user: seq<Op>, ghost ops: seq<Op>)
      requires Running(limit, span, base, now0) && tcpActive && Count(q, Tcp) == 0
      modifies this`list, this`free, this`clock, this`tcpActive, this`q, this`lost, this`dropped
      ensures Running(limit, span, base, now0) && TcpOk() && tcpActive == pcbs && Plain(user, now0) && Plain(ops, now0) && clock >= old(clock)
      ensures Did(old(q), old(free), old(dropped), ops)
      ensures ops == if pcbs && Spare(old(q), old(free), user) then user + [Set(Entry(clock + TCP_TMR_INTERVAL, Tcp))] else user
      ensures (old(lost) ==> lost) && (lost && !old(lost) ==> |Sets(ops)| >= old(free))
    {
      hide Wrapped, Within, Count, Sorted, Insert, Apply, Removed, Sets;
      user := TcpTmr(limit, span, base, now0);
      ops := user;
      if pcbs {
        ghost var more := Later(TCP_TMR_INTERVAL, Tcp, limit, span, base, now0);
        ApplyMore(old(q), user, more);
        assert (old(dropped) + Removed(old(q), user)) + [] == old(dropped) + (Removed(old(q), user) + []);
        ops := user + more;
      } else {
        tcpActive := false;
      }
    }

    /** tcp_tmr: user code that runs while the TCP timer is off the list, but marked as active. */
    method TcpTmr(limit: int, span: nat, ghost base: int, ghost now0: int) returns (ghost ops: seq<Op>)
      requires Running(limit, span, base, now0) && tcpActive && Count(q, Tcp) == 0
      modifies this`list, this`free, this`clock, this`tcpActive, this`q, this`lost, this`dropped
      ensures Running(limit, span, base, now0) && tcpActive && Count(q, Tcp) == 0 && clock >= old(clock)
      ensures Did(old(q), old(free), old(dropped), ops) && Plain(ops, now0)
      ensures (old(lost) ==> lost) && (lost && !old(lost) ==> |Sets(ops)| >= old(free))
    {
      hide Wrapped, Within, Count, Sorted, Insert, Apply, Removed, Sets;
      ops := [];
      ApplyNone(q);
      assert dropped + [] == dropped;
      var n: int := *;
      for i := 0 to if n < 0 then 0 else n
        invariant Running(limit, span, base, now0) && clock >= old(clock) && tcpActive && Count(q, Tcp) == 0
        invariant Did(old(q), old(free), old(dropped), ops) && Plain(ops, now0)
        invariant (old(lost) ==> lost) && (lost && !old(lost) ==> |Sets(ops)| >= old(free))
      {
        ghost var more := OneCall(limit, span, base, now0);
        ApplyMore(old(q), ops, more);
        assert (old(dropped) + Removed(old(q), ops)) + Removed(Apply(old(q), ops), more) == old(dropped) + (Removed(old(q), ops) + Removed(Apply(old(q), ops), more));
        ops := ops + more;
      }
    }

    // -------------------------------------------------------------- sys_check_timeouts

    /** Take the first entry off the list. */
    method Pop(ghost base: int) returns (h: Handler)
      requires Valid(base) && list != []
      modifies this`list, this`free, this`q, this`currentDue, this`dueTime
      ensures Valid(base) && q == old(q)[1..] && Entry(dueTime, h) == old(q)[0] && currentDue == Wrap(dueTime)
      ensures free == old(free) + 1
    {
      currentDue, h := list[0].time, list[0].h;
      dueTime := q[0].due;
      list, q, free := list[1..], q[1..], free + 1;
    }

    /** Run the handler of the entry just taken off. `again` says that it has come back at `now0`;
        that is the last of `ops`. */
    method Dispatch(h: Handler, limit: int, span: nat, ghost base: int, ghost now0: int)
      returns (ghost ops: seq<Op>, ghost again: bool)
      requires Running(limit, span, base, now0) && (h.Cyclic? ==> 0 < h.interval <= span)
      requires currentDue == Wrap(dueTime) && base <= dueTime <= now0
      requires TcpOff(h, q, tcpActive, lost)
      modifies this`list, this`free, this`clock, this`tcpActive, this`q, this`lost, this`dropped
      ensures Running(limit, span, base, now0) && TcpOk() && clock >= old(clock)
      ensures Did(old(q), old(free), old(dropped), ops)
      ensures Outcome(Entry(dueTime, h), ops, again, now0, clock) && (lost || (h.Cyclic? ==> Returned(ops, h)))
      ensures (old(lost) ==> lost) && (lost && !old(lost) ==> |Sets(ops)| >= old(free))
    {
      hide Wrapped, Within, Count, Sorted, Apply, Removed, Sets, Outcome, Returned, Plain;
      again := false;
      match h
      case Cyclic(_, _) =>
        ghost var user;
        user, ops := CyclicTimer(h, limit, span, base, now0);
        again := Spare(old(q), old(free), user) && NextTurn(dueTime, h.interval, clock) == now0;
        CyclicOutcome(h, dueTime, user, ops, again, now0, clock);
      case Tcp =>
        var pcbs: bool := *;
        ghost var user;
        user, ops := TcpTimer(pcbs, limit, span, base, now0);
        PlainOutcome(Entry(dueTime, h), ops, now0, clock);
      case Other(_) =>
        ops := UserCode(limit, span, base, now0);
        PlainOutcome(Entry(dueTime, h), ops, now0, clock);
    }

    /** sys_check_timeouts ends, whatever the handlers put on the list. It runs, in order, every
        entry that was due when it began, except for those that handlers have cancelled before
        their turn (`gone`), and then once more those cyclic timers whose next turn came due at that
        very moment; nothing due is left. The queue afterwards is what was not due, changed by the
        calls `later` of the handlers. Every cyclic timer that ran is back at its next turn. One is
        missing only if more entries were set than the pool had to spare. From then on the list is
        right for the 2^31 ms that follow. */
    method CheckTimeouts(limit: int, span: nat, ghost base: int)
      returns (now0: int, ghost ran: seq<Entry>, ghost start: seq<Entry>, ghost extra: seq<Entry>, ghost gone: seq<Entry>, ghost later: seq<Op>)
      requires Running(limit, span, base, clock) && TcpOk()
      modifies this
      ensures Running(limit, span, base, now0) && Valid(now0) && TcpOk() && old(clock) <= now0
      ensures q == [] || now0 < q[0].due
      ensures ran == start + extra && Thinned(Due(old(q), now0), start, gone)
      ensures forall e | e in extra :: e.h.Cyclic? && e.due == now0 && Entry(now0 - e.h.interval, e.h) in start
      ensures forall h :: Count(extra, h) <= Count(start, h)
      ensures q == Apply(Tail(old(q), now0), later) && Legal(later, now0)
      ensures Logged(old(dropped), dropped, gone, Removed(Tail(old(q), now0), later))
      ensures lost || forall g: Handler | g.Cyclic? :: Count(q, g) == Count(old(q), g)
      ensures AllBack(Sets(later), ran, now0, clock)
      ensures free + |q| == old(free) + |old(q)| && (old(lost) ==> lost)
      ensures lost && !old(lost) ==> |Sets(later)| + |extra| > old(free)
    {
      hide Wrapped, Within, Due, Tail, Count, Sorted, Apply, Removed, Sets, AllBack, Underway, Outcome, Returned, TcpOff, Mine, Intervals,
           Thinned, Logged, Behind, Hits, LegalOp, Insert;
      var now := SysNow(limit);
      now0 := clock;
      start, ran, extra, gone, later := Due(q, now0), [], [], [], [];
      Begins(q, free, dropped, lost, now0, clock);
      while |list| > 0 && !Before(now, list[0].time)
        invariant Running(limit, span, base, now0) && TcpOk() && base <= now0
        invariant Underway(old(q), old(free), old(dropped), old(lost), now0, q, free, dropped, lost, clock, start, extra, ran, gone, later)
        decreases 2 * |start| - |ran|
      {
        FirstIsDue(list, q, now, now0, base);
        ghost var q0, free0, lost0, clock0, dropped0 := q, free, lost, clock, dropped;
        StillRoom(old(q), old(free), old(dropped), old(lost), now0, q, free, dropped, lost, clock, start, extra, ran, gone, later);
        PopFacts(q, span, now0);
        PopTcp(q, tcpActive, lost);
        var h := Pop(base);
        ghost var ops, again := Dispatch(h, limit, span, base, now0);
        start := CheckStep(old(q), old(free), old(dropped), old(lost), now0, q0, free0, dropped0, lost0, clock0, q, free, dropped, lost, clock,
                           start, extra, ran, gone, later, ops, again);
        later := later + Behind(q0[1..], Mine(ops, again), now0);
        gone := gone + Hits(q0[1..], Mine(ops, again), now0);
        ran := ran + [q0[0]];
        if again { extra := extra + [Entry(now0, h)]; }
      }
      if |list| > 0 { FirstIsDue(list, q, now, now0, base); }
      Ends(list, q, old(q), old(free), old(dropped), old(lost), now0, free, dropped, lost, clock, start, extra, ran, gone, later);
      NewWindow(q, base, now0);
    }

    /** The main loop calls sys_check_timeouts again and again, at most 2^31 ms apart less the longest
        delay, and sets and cancels timeouts in between. However often the 32-bit time wraps, every
        timeout is run at the first check at or after its time, and every timeout ever set has been
        run once, has been cancelled or is still waiting. `checks` are the times of the checks and what
        they ran, `added` all timeouts set on the way. */
    method Serve(rounds: nat, span: nat, base: int) returns (ghost checks: seq<Check>, ghost added: multiset<Entry>, ghost last: int)
      requires Running(clock, span, base, base) && TcpOk() && (q == [] || base < q[0].due)
      modifies this
      ensures Running(clock, span, last, last) && TcpOk() && |checks| == rounds && Punctual(checks, base, last)
      ensures q == [] || last < q[0].due
      ensures multiset(q) + Fired(checks) + multiset(dropped) == multiset(old(q)) + added + multiset(old(dropped))
    {
      hide Wrapped, Within, Sorted, Count, Fired, Punctual, Apply, Removed, Sets, Due, Tail, Thinned, Logged, AllBack, LegalOp, Intervals;
      var b := base;
      checks, added := [], multiset{};
      FiredNone();
      for i := 0 to rounds
        invariant Running(clock, span, b, b) && TcpOk() && (q == [] || b < q[0].due) && |checks| == i && Punctual(checks, base, b)
        invariant multiset(q) + Fired(checks) + multiset(dropped) == multiset(old(q)) + added + multiset(old(dropped))
      {
        ghost var was, log := q, dropped;
        var t: int := *;
        var limit := if clock <= t && t + span < b + HALF then t else clock;
        ghost var ops := UserCode(limit, span, b, b);
        ghost var mid, log1 := q, dropped;
        ghost var ran, start, extra, gone, later;
        var at;
        at, ran, start, extra, gone, later := CheckTimeouts(limit, span, b);
        ghost var more := multiset(Sets(ops)) + multiset(Sets(later)) + multiset(extra);
        RoundConserves(was, ops, mid, at, start, extra, gone, later, log, log1, dropped);
        NextRound(checks, base, b, was, ops, mid, at, start, extra, gone);
        FiredMore(checks, at, ran);
        Carry(multiset(was), Fired(checks), multiset(log), multiset(old(q)) + added + multiset(old(dropped)), multiset(q), multiset(ran), multiset(dropped), more);
        checks := checks + [Check(at, ran)];
        assert multiset(old(q)) + (added + more) + multiset(old(dropped)) == (multiset(old(q)) + added + multiset(old(dropped))) + more;
        added := added + more;
        b := at;
      }
      last := b;
    }
  }

  ghost predicate Intervals(q: seq<Entry>, span: nat) {
    forall i | 0 <= i < |q| && q[i].h.Cyclic? :: 0 < q[i].h.interval <= span
  }

  /** The pool has an element left after `ops`, which began with `free` of them. */
  predicate Spare(q: seq<Entry>, free: nat, ops: seq<Op>) { free + |Removed(q, ops)| > |Sets(ops)| }

  /** When a cyclic timer that was due at `due` has its next turn, seen at `now`. */
  function NextTurn(due: int, interval: nat, now: int): int {
    if due + interval < now then now + interval else due + interval
  }

  lemma InsertFacts(q: seq<Entry>, e: Entry, span: nat)
    requires Intervals(q, span) && (e.h.Cyclic? ==> 0 < e.h.interval <= span)
    ensures Intervals(Insert(q, e), span) && Apply(q, [Set(e)]) == Insert(q, e) && Sets([Set(e)]) == [e] && Removed(q, [Set(e)]) == []
    ensures forall g :: Count(Insert(q, e), g) == Count(q, g) + if g == e.h then 1 else 0
  {
    hide Count;
    ApplyOne(q, Set(e));
    forall g ensures Count(Insert(q, e), g) == Count(q, g) + if g == e.h then 1 else 0 { InsertCount(q, e, g); }
  }

  lemma CancelFacts(q: seq<Entry>, h: Handler, span: nat)
    requires Intervals(q, span) && h.Other?
    ensures Intervals(Cancel(q, h), span) && Apply(q, [Drop(h)]) == Cancel(q, h) && Sets([Drop(h)]) == [] && Removed(q, [Drop(h)]) == Gone(q, Drop(h))
    ensures Count(Cancel(q, h), Tcp) == Count(q, Tcp)
  {
    hide Count;
    ApplyOne(q, Drop(h));
    AfterCount(q, Drop(h), Tcp);
    assert Count([], Tcp) == 0 by { CountNone(Tcp); }
  }

  /** Ranks count on behind entries that are due. */
  lemma {:induction false} RankBehind(a: seq<Entry>, b: seq<Entry>, t: int)
    requires forall i | 0 <= i < |a| :: a[i].due <= t
    ensures Rank(a + b, t) == |a| + Rank(b, t)
  {
    if a == [] {
      assert a + b == b;
    } else {
      assert (a + b)[1..] == a[1..] + b;
      RankBehind(a[1..], b, t);
    }
  }

  lemma PutBehind(a: seq<Entry>, b: seq<Entry>, r: nat, e: Entry)
    requires r <= |b|
    ensures (a + b)[..|a| + r] + [e] + (a + b)[|a| + r..] == a + (b[..r] + [e] + b[r..])
  {
    assert (a + b)[..|a| + r] == a + b[..r] && (a + b)[|a| + r..] == b[r..];
  }

  lemma InsertBehind(a: seq<Entry>, b: seq<Entry>, e: Entry)
    requires forall i | 0 <= i < |a| :: a[i].due <= e.due
    ensures Insert(a + b, e) == a + Insert(b, e)
  {
    hide Rank;
    RankBehind(a, b, e.due);
    PutBehind(a, b, Rank(b, e.due), e);
  }

  lemma TailInsert(q: seq<Entry>, e: Entry, t: int)
    requires Sorted(q) && e.due >= t
    ensures Tail(Insert(q, e), t) == if e.due > t then Insert(Tail(q, t), e) else Tail(q, t)
  {
    SuffixLater(q, t);
    var k := Rank(q, t);
    var a, b := q[..k], q[k..];
    assert q == a + b;
    assert forall i | 0 <= i < |a| :: a[i].due <= t;
    hide Sorted, Rank, Tail, Insert;
    TailOf(a, b, t);
    InsertBehind(a, b, e);
    InsertFront(b, e, t);
    if e.due > t {
      TailOf(a, Insert(b, e), t);
    } else {
      assert a + ([e] + b) == (a + [e]) + b;
      TailOf(a + [e], b, t);
    }
  }

  lemma TailOf(a: seq<Entry>, b: seq<Entry>, t: int)
    requires (forall i | 0 <= i < |a| :: a[i].due <= t) && (b != [] ==> t < b[0].due)
    ensures Tail(a + b, t) == b
  {
    RankBehind(a, b, t);
    assert (a + b)[|a|..] == b;
  }

  lemma InsertFront(b: seq<Entry>, e: Entry, t: int)
    requires (b != [] ==> t < b[0].due) && e.due >= t
    ensures Insert(b, e) != [] && (e.due > t ==> t < Insert(b, e)[0].due) && (e.due == t ==> Insert(b, e) == [e] + b)
  {
  }

  /** The calls that reach what is due after `t`; a cancellation may find an entry before that. */
  function Behind(q: seq<Entry>, ops: seq<Op>, t: int): seq<Op> {
    if ops == [] then []
    else
      var n := |ops| - 1;
      Behind(q, ops[..n], t) + if Hit(Apply(q, ops[..n]), ops[n], t) then [] else [ops[n]]
  }

  /** The entries due at `t` that are cancelled. */
  function Hits(q: seq<Entry>, ops: seq<Op>, t: int): seq<Entry> {
    if ops == [] then []
    else
      var n := |ops| - 1;
      var p := Apply(q, ops[..n]);
      Hits(q, ops[..n], t) + if Hit(p, ops[n], t) then Gone(Due(p, t), ops[n]) else []
  }

  predicate Hit(q: seq<Entry>, op: Op, t: int) { op.Drop? && Find(Due(q, t), op.h) < |Due(q, t)| }

  /** One call acts either on what is due or on the rest. */
  lemma OpSplit(q: seq<Entry>, op: Op, t: int)
    requires Sorted(q) && LegalOp(op, t)
    ensures Sorted(After(q, op))
    ensures Due(After(q, op), t) == if Hit(q, op, t) then Cancel(Due(q, t), op.h) else Due(q, t)
    ensures Tail(After(q, op), t) == if Hit(q, op, t) then Tail(q, t) else After(Tail(q, t), op)
    ensures Gone(q, op) == if Hit(q, op, t) then Gone(Due(q, t), op) else Gone(Tail(q, t), op)
  {
    if op.Set? {
      hide Sorted, Due, Tail, Insert, Rank;
      InsertSorted(q, op.e);
      InsertDue(q, op.e, t);
      TailInsert(q, op.e, t);
    } else {
      CancelSorted(q, op.h);
      hide Sorted;
      SplitCancel(q, op.h, t);
    }
  }

  lemma SplitCancel(q: seq<Entry>, h: Handler, t: int)
    requires Sorted(q)
    ensures var hit := Find(Due(q, t), h) < |Due(q, t)|;
            && Due(Cancel(q, h), t) == (if hit then Cancel(Due(q, t), h) else Due(q, t))
            && Tail(Cancel(q, h), t) == (if hit then Tail(q, t) else Cancel(Tail(q, t), h))
            && Gone(q, Drop(h)) == if hit then Gone(Due(q, t), Drop(h)) else Gone(Tail(q, t), Drop(h))
  {
    hide Sorted, Rank, Due, Tail, Find, Cancel, Gone;
    var a, b := Due(q, t), Tail(q, t);
    DuePart(q, t);
    if Find(a, h) < |a| {
      CancelFront(a, b, h);
      CancelEarly(a, h, t);
      DueOf(Cancel(a, h), b, t);
    } else {
      CancelBack(a, b, h);
      CancelLate(b, h, t);
      DueOf(a, Cancel(b, h), t);
    }
  }

  lemma CancelEarly(a: seq<Entry>, h: Handler, t: int)
    requires forall i | 0 <= i < |a| :: a[i].due <= t
    ensures forall i | 0 <= i < |Cancel(a, h)| :: Cancel(a, h)[i].due <= t
  {
    hide Find;
  }

  lemma CancelLate(b: seq<Entry>, h: Handler, t: int)
    requires forall i | 0 <= i < |b| :: t < b[i].due
    ensures Cancel(b, h) != [] ==> t < Cancel(b, h)[0].due
  {
    hide Find;
  }

  lemma CancelFront(a: seq<Entry>, b: seq<Entry>, h: Handler)
    requires Find(a, h) < |a|
    ensures Cancel(a + b, h) == Cancel(a, h) + b && Gone(a + b, Drop(h)) == Gone(a, Drop(h))
  {
    var i := Find(a, h);
    FindIs(a + b, h, i);
    assert (a + b)[..i] + (a + b)[i + 1..] == (a[..i] + a[i + 1..]) + b;
  }

  lemma CancelBack(a: seq<Entry>, b: seq<Entry>, h: Handler)
    requires Find(a, h) == |a|
    ensures Cancel(a + b, h) == a + Cancel(b, h) && Gone(a + b, Drop(h)) == Gone(b, Drop(h))
  {
    hide Find, Cancel, Gone;
    FindBack(a, b, h);
    CancelIs(a + b, h);
    CancelIs(b, h);
    if Find(b, h) < |b| { WithoutBack(a, b, Find(b, h)); }
  }

  lemma CancelIs(q: seq<Entry>, h: Handler)
    ensures var i := Find(q, h);
            if i == |q| then Cancel(q, h) == q && Gone(q, Drop(h)) == []
            else Cancel(q, h) == Without(q, i) && Gone(q, Drop(h)) == [q[i]]
  {
  }

  lemma FindBack(a: seq<Entry>, b: seq<Entry>, h: Handler)
    requires Find(a, h) == |a|
    ensures Find(a + b, h) == |a| + Find(b, h)
  {
    hide Find;
    var j := Find(b, h);
    forall i | 0 <= i < |a| + j ensures (a + b)[i].h != h { assert (a + b)[i] == if i < |a| then a[i] else b[i - |a|]; }
    assert j < |b| ==> (a + b)[|a| + j] == b[j];
    FindIs(a + b, h, |a| + j);
  }

  lemma WithoutBack(a: seq<Entry>, b: seq<Entry>, j: nat)
    requires j < |b|
    ensures Without(a + b, |a| + j) == a + Without(b, j) && (a + b)[|a| + j] == b[j]
  {
    assert (a + b)[..|a| + j] == a + b[..j] && (a + b)[|a| + j + 1..] == b[j + 1..];
  }

  lemma DueOf(a: seq<Entry>, b: seq<Entry>, t: int)
    requires (forall i | 0 <= i < |a| :: a[i].due <= t) && (b != [] ==> t < b[0].due)
    ensures Due(a + b, t) == a && Tail(a + b, t) == b
  {
    RankBehind(a, b, t);
    assert (a + b)[..|a|] == a && (a + b)[|a|..] == b;
  }

  /** What is not due sees exactly the calls that are not spent on what is due. */
  lemma {:induction false} OpsTail(q: seq<Entry>, ops: seq<Op>, t: int)
    requires Sorted(q) && Legal(ops, t)
    ensures Sorted(Apply(q, ops)) && Tail(Apply(q, ops), t) == Apply(Tail(q, t), Behind(q, ops, t))
  {
    if ops != [] {
      hide Sorted, Due, Tail, After, Gone, LegalOp, Hit;
      var n := |ops| - 1;
      var p, op, b := Apply(q, ops[..n]), ops[n], Behind(q, ops[..n], t);
      OpsTail(q, ops[..n], t);
      assert LegalOp(op, t);
      OpSplit(p, op, t);
      if Hit(p, op, t) {
        assert b + [] == b;
      } else {
        ApplySnoc(Tail(q, t), b, op);
      }
    }
  }

  lemma {:induction false} OpsSets(q: seq<Entry>, ops: seq<Op>, t: int)
    requires Legal(ops, t)
    ensures Legal(Behind(q, ops, t), t) && Sets(Behind(q, ops, t)) == Sets(ops)
  {
    if ops != [] {
      hide Apply, LegalOp, Hit, Placed;
      var n := |ops| - 1;
      var p, op, b := Apply(q, ops[..n]), ops[n], Behind(q, ops[..n], t);
      OpsSets(q, ops[..n], t);
      assert LegalOp(op, t);
      if Hit(p, op, t) {
        HitPlacesNothing(p, op, t);
        assert b + [] == b;
      } else {
        assert (b + [op])[..|b|] == b;
      }
    }
  }

  lemma {:induction false} OpsRemoved(q: seq<Entry>, ops: seq<Op>, t: int)
    requires Sorted(q) && Legal(ops, t)
    ensures multiset(Removed(q, ops)) == multiset(Hits(q, ops, t)) + multiset(Removed(Tail(q, t), Behind(q, ops, t)))
  {
    if ops != [] {
      hide Sorted, Due, Tail, Apply, Gone, LegalOp, Hit;
      var n := |ops| - 1;
      var p, op, b := Apply(q, ops[..n]), ops[n], Behind(q, ops[..n], t);
      OpsRemoved(q, ops[..n], t);
      OpsTail(q, ops[..n], t);
      assert LegalOp(op, t);
      OpSplit(p, op, t);
      if Hit(p, op, t) {
        assert b + [] == b;
      } else {
        ApplySnoc(Tail(q, t), b, op);
      }
    }
  }

  lemma OpsSplit(q: seq<Entry>, ops: seq<Op>, t: int)
    requires Sorted(q) && Legal(ops, t)
    ensures Sorted(Apply(q, ops)) && Tail(Apply(q, ops), t) == Apply(Tail(q, t), Behind(q, ops, t))
    ensures Legal(Behind(q, ops, t), t) && Sets(Behind(q, ops, t)) == Sets(ops)
    ensures multiset(Removed(q, ops)) == multiset(Hits(q, ops, t)) + multiset(Removed(Tail(q, t), Behind(q, ops, t)))
  {
    hide Sorted, Tail, Apply, Removed, Sets, Hits, Behind, LegalOp;
    OpsTail(q, ops, t);
    OpsSets(q, ops, t);
    OpsRemoved(q, ops, t);
  }

  lemma HitPlacesNothing(q: seq<Entry>, op: Op, t: int)
    requires Hit(q, op, t)
    ensures Placed(op) == []
  {
  }

  // ---------------------------------------------------------------- parts of a sequence

  /** `b` is `a` with some entries left out. */
  ghost predicate PartOf(b: seq<Entry>, a: seq<Entry>) {
    b == [] || (a != [] && (|| PartOf(b, a[..|a| - 1])
                            || (b[|b| - 1] == a[|a| - 1] && PartOf(b[..|b| - 1], a[..|a| - 1]))))
  }

  lemma {:induction false} PartOfSelf(a: seq<Entry>)
    ensures PartOf(a, a)
  {
    if a != [] { PartOfSelf(a[..|a| - 1]); }
  }

  lemma {:induction false} PartOfPart(c: seq<Entry>, b: seq<Entry>, a: seq<Entry>)
    requires PartOf(c, b) && PartOf(b, a)
    ensures PartOf(c, a)
    decreases |a|
  {
    if c != [] {
      var a', b' := a[..|a| - 1], b[..|b| - 1];
      if PartOf(b, a') {
        PartOfPart(c, b, a');
      } else if PartOf(c, b') {
        PartOfPart(c, b', a');
      } else {
        PartOfPart(c[..|c| - 1], b', a');
      }
    }
  }

  /** A sequence without its entry `k`. */
  function Without(a: seq<Entry>, k: nat): seq<Entry>
    requires k < |a|
  {
    a[..k] + a[k + 1..]
  }

  lemma {:induction false} WithoutIsPart(a: seq<Entry>, k: nat)
    requires k < |a|
    ensures PartOf(Without(a, k), a)
  {
    var n := |a| - 1;
    if k == n {
      PartOfSelf(a[..n]);
      assert Without(a, k) == a[..n];
    } else {
      WithoutIsPart(a[..n], k);
      assert Without(a, k)[..n - 1] == Without(a[..n], k);
    }
  }

  lemma WithoutMultiset(a: seq<Entry>, k: nat)
    requires k < |a|
    ensures multiset(a) == multiset(Without(a, k)) + multiset{a[k]}
  {
    assert a == a[..k] + [a[k]] + a[k + 1..];
  }

  lemma {:induction false} PartSorted(b: seq<Entry>, a: seq<Entry>)
    requires PartOf(b, a) && Sorted(a)
    ensures Sorted(b) && forall e | e in b :: e in a
    decreases |a|
  {
    if b != [] {
      var a', b' := a[..|a| - 1], b[..|b| - 1];
      if PartOf(b, a') {
        PartSorted(b, a');
      } else {
        PartSorted(b', a');
        assert b == b' + [b[|b| - 1]] && a == a' + [a[|a| - 1]];
        forall i | 0 <= i < |b'| ensures b[i].due <= b[|b| - 1].due {
          assert b'[i] in a';
        }
      }
    }
  }

  lemma {:induction false} PartCount(b: seq<Entry>, a: seq<Entry>, h: Handler)
    requires PartOf(b, a)
    ensures Count(b, h) <= Count(a, h)
    decreases |a|
  {
    if b != [] {
      if PartOf(b, a[..|a| - 1]) {
        PartCount(b, a[..|a| - 1], h);
      } else {
        PartCount(b[..|b| - 1], a[..|a| - 1], h);
      }
    }
  }

  // ---------------------------------------------------------------- what a handler leaves behind

  /** What a handler has done without the entry that comes back at once. */
  function Mine(ops: seq<Op>, again: bool): seq<Op> { if again && ops != [] then ops[..|ops| - 1] else ops }

  /** `e` is the next turn of the cyclic timer whose turn was `r`, set between `now0` and `now`. */
  predicate Back(r: Entry, e: Entry, now0: int, now: int) {
    && r.h == e.h && e.h.Cyclic?
    && (|| (e.due == r.due + e.h.interval && now0 <= e.due)
        || (now0 <= e.due - e.h.interval <= now && r.due + e.h.interval < e.due - e.h.interval))
  }

  /** What the handler of `r` has done: it has set timers for later, and among them no cyclic timer
      but its own next turn; the last one is due at `now0` if it comes back at once. */
  ghost predicate Outcome(r: Entry, ops: seq<Op>, again: bool, now0: int, now: int) {
    && (again ==> && ops != [] && ops[|ops| - 1] == Set(Entry(now0, r.h)) && r.h.Cyclic? && r.h.interval > 0
                  && r.due + r.h.interval == now0)
    && Legal(Mine(ops, again), now0)
    && (forall i | 0 <= i < |Sets(ops)| && Sets(ops)[i].h.Cyclic? :: Back(r, Sets(ops)[i], now0, now))
    && (forall g: Handler | g.Cyclic? && g != r.h :: Count(Sets(ops), g) == 0)
  }

  lemma OutcomeFacts(r: Entry, ops: seq<Op>, again: bool, now0: int, now: int)
    requires Outcome(r, ops, again, now0, now)
    ensures Legal(Mine(ops, again), now0)
    ensures again ==> r.h.Cyclic? && r.h.interval > 0 && r.due + r.h.interval == now0
    ensures |Sets(Mine(ops, again))| == |Sets(ops)| - if again then 1 else 0
  {
  }

  ghost predicate Returned(ops: seq<Op>, h: Handler) { Count(Sets(ops), h) == 1 }

  lemma {:induction false} NoCyclic(ops: seq<Op>, now0: int)
    requires Plain(ops, now0)
    ensures forall i | 0 <= i < |Sets(ops)| :: !Sets(ops)[i].h.Cyclic?
    ensures forall g: Handler | g.Cyclic? :: Count(Sets(ops), g) == 0
  {
    if ops != [] {
      var n := |ops| - 1;
      NoCyclic(ops[..n], now0);
      forall g: Handler | g.Cyclic? ensures Count(Sets(ops), g) == 0 {
        CountConcat(Sets(ops[..n]), Placed(ops[n]), g);
        if ops[n].Set? { CountOne(ops[n].e, g); }
      }
      hide Count;
    }
  }

  lemma PlainOutcome(r: Entry, ops: seq<Op>, now0: int, now: int)
    requires Plain(ops, now0)
    ensures Outcome(r, ops, false, now0, now)
  {
    hide Count, Sets;
    NoCyclic(ops, now0);
  }

  lemma CyclicOutcome(h: Handler, due: int, user: seq<Op>, ops: seq<Op>, again: bool, now0: int, now: int)
    requires h.Cyclic? && h.interval > 0 && due <= now0 <= now && Plain(user, now0)
    requires ops == user || ops == user + [Set(Entry(NextTurn(due, h.interval, now), h))]
    requires again <==> |ops| > |user| && NextTurn(due, h.interval, now) == now0
    ensures Outcome(Entry(due, h), ops, again, now0, now) && (|ops| > |user| ==> Returned(ops, h))
  {
    hide Count, Sets, Plain;
    NoCyclic(user, now0);
    PlainIsLegal(user, now0);
    if |ops| > |user| {
      var e := Entry(NextTurn(due, h.interval, now), h);
      CountsWith(user, e);
      assert LegalOp(Set(e), now0) || e.due == now0;
      assert Mine(ops, true) == user;
    }
  }

  lemma PlainIsLegal(ops: seq<Op>, t: int)
    requires Plain(ops, t)
    ensures Legal(ops, t)
  {
  }

  lemma CountsWith(user: seq<Op>, e: Entry)
    ensures Sets(user + [Set(e)]) == Sets(user) + [e]
    ensures forall g: Handler :: Count(Sets(user + [Set(e)]), g) == Count(Sets(user), g) + if g == e.h then 1 else 0
  {
    hide Count, Sets;
    ApplySnoc([], user, Set(e));
    forall g: Handler ensures Count(Sets(user) + [e], g) == Count(Sets(user), g) + if g == e.h then 1 else 0 {
      CountConcat(Sets(user), [e], g);
      CountOne(e, g);
    }
  }

  /** The TCP timer as it stands when an entry of handler `h` has been taken off. */
  ghost predicate TcpOff(h: Handler, q: seq<Entry>, active: bool, lost: bool) {
    if h == Tcp then active && Count(q, Tcp) == 0
    else Count(q, Tcp) <= (if active then 1 else 0) && (lost || Count(q, Tcp) == if active then 1 else 0)
  }

  lemma PopTcp(q: seq<Entry>, active: bool, lost: bool)
    requires q != [] && Count(q, Tcp) <= (if active then 1 else 0) && (lost || Count(q, Tcp) == if active then 1 else 0)
    ensures TcpOff(q[0].h, q[1..], active, lost)
  {
    assert q == [q[0]] + q[1..];
    CountConcat([q[0]], q[1..], Tcp);
    CountOne(q[0], Tcp);
    hide Count;
  }

  /** An entry set by a handler has come back from a turn that was run. */
  ghost predicate CameBack(e: Entry, ran: seq<Entry>, now0: int, now: int) {
    exists i | 0 <= i < |ran| :: Back(ran[i], e, now0, now)
  }

  ghost predicate AllBack(later: seq<Entry>, ran: seq<Entry>, now0: int, now: int) {
    forall i | 0 <= i < |later| && later[i].h.Cyclic? :: CameBack(later[i], ran, now0, now)
  }

  /** `start` is what is left of `due` in order, without the entries `gone`. */
  ghost predicate Thinned(due: seq<Entry>, start: seq<Entry>, gone: seq<Entry>) {
    PartOf(start, due) && multiset(due) == multiset(start) + multiset(gone) && forall i | 0 <= i < |gone| :: gone[i].h.Other?
  }

  lemma ThinMore(due: seq<Entry>, start: seq<Entry>, gone: seq<Entry>, cut: seq<Entry>, more: seq<Entry>)
    requires Thinned(due, start, gone) && Thinned(start, cut, more)
    ensures Thinned(due, cut, gone + more)
  {
    PartOfPart(cut, start, due);
    hide PartOf;
  }

  /** What sys_untimeout has taken off since the log was `log0`: `gone` and `more`. */
  ghost predicate Logged(log0: seq<Entry>, log: seq<Entry>, gone: seq<Entry>, more: seq<Entry>) {
    log0 <= log && multiset(log) == multiset(log0) + multiset(gone) + multiset(more)
  }

  /** Where sys_check_timeouts stands with what is not due: the rest of the queue is the rest of the
      old one changed by `later`, and no cyclic timer is missing. */
  ghost predicate Ledger(q0: seq<Entry>, q: seq<Entry>, now0: int, ran: seq<Entry>, later: seq<Op>, lost: bool, now: int) {
    && Tail(q, now0) == Apply(Tail(q0, now0), later)
    && Legal(later, now0)
    && (lost || forall g: Handler | g.Cyclic? :: Count(q, g) == Count(q0, g))
    && AllBack(Sets(later), ran, now0, now)
  }

  lemma LedgerStarts(q: seq<Entry>, now0: int, lost: bool, now: int, log: seq<Entry>)
    ensures Ledger(q, q, now0, [], [], lost, now) && Plan(Due(q, now0), [], [], Due(q, now0), now0)
    ensures Thinned(Due(q, now0), Due(q, now0), []) && Logged(log, log, [], Removed(Tail(q, now0), [])) && Sets([]) == []
  {
    PlanStarts(Due(q, now0), now0);
    PartOfSelf(Due(q, now0));
  }

  /** What a handler does to what is due, and to the rest. */
  lemma PlanGrows(q: seq<Entry>, q': seq<Entry>, ops: seq<Op>, again: bool, r: Entry, now0: int, now: int)
    requires Sorted(q) && q' == Apply(q, ops) && Outcome(r, ops, again, now0, now)
    ensures Due(q', now0) == Due(Apply(q, Mine(ops, again)), now0) + if again then [Entry(now0, r.h)] else []
    ensures Tail(q', now0) == Apply(Tail(q, now0), Behind(q, Mine(ops, again), now0))
    ensures Removed(q, ops) == Removed(q, Mine(ops, again))
    ensures Sets(ops) == Sets(Mine(ops, again)) + if again then [Entry(now0, r.h)] else []
  {
    hide Sorted, Due, Tail, Count, Sets, Insert, Apply, Removed, Behind, Hits, LegalOp;
    var mine := Mine(ops, again);
    OpsTail(q, mine, now0);
    var p := Apply(q, mine);
    if again {
      var e := Entry(now0, r.h);
      assert ops == mine + [Set(e)];
      ApplySnoc(q, mine, Set(e));
      InsertDue(p, e, now0);
      TailInsert(p, e, now0);
      assert Removed(q, mine) + [] == Removed(q, mine);
    } else {
      assert Due(p, now0) + [] == Due(p, now0) && Sets(ops) + [] == Sets(ops);
    }
  }

  lemma LedgerStep(q0: seq<Entry>, q: seq<Entry>, q': seq<Entry>, now0: int, ran: seq<Entry>, later: seq<Op>,
                   lost: bool, lost': bool, now: int, now': int, ops: seq<Op>, again: bool)
    requires Ledger(q0, q, now0, ran, later, lost, now) && q != [] && q[0].due <= now0 && Sorted(q)
    requires q' == Apply(q[1..], ops) && Outcome(q[0], ops, again, now0, now') && now <= now'
    requires (lost ==> lost') && (lost' || (q[0].h.Cyclic? ==> Returned(ops, q[0].h)))
    ensures Ledger(q0, q', now0, ran + [q[0]], later + Behind(q[1..], Mine(ops, again), now0), lost', now')
    ensures |Sets(later + Behind(q[1..], Mine(ops, again), now0))| == |Sets(later)| + |Sets(Mine(ops, again))|
  {
    hide Tail, Apply, Count, AllBack, Sets, Behind, LegalOp;
    LedgerTail(q0, q, q', now0, later, ops, again, now');
    LedgerCounts(q0, q, q', ops, again, lost', now0, now');
    LedgerBack(later, ran, q, ops, again, now0, now, now');
  }

  lemma LedgerTail(q0: seq<Entry>, q: seq<Entry>, q': seq<Entry>, now0: int, later: seq<Op>, ops: seq<Op>, again: bool, now': int)
    requires Tail(q, now0) == Apply(Tail(q0, now0), later) && q != [] && q[0].due <= now0 && Sorted(q)
    requires q' == Apply(q[1..], ops) && Outcome(q[0], ops, again, now0, now')
    ensures Tail(q', now0) == Apply(Tail(q0, now0), later + Behind(q[1..], Mine(ops, again), now0))
  {
    TailOfRest(q, now0);
    assert Sorted(q[1..]);
    hide Tail, Outcome, Apply, Sorted;
    PlanGrows(q[1..], q', ops, again, q[0], now0, now');
    ApplyMore(Tail(q0, now0), later, Behind(q[1..], Mine(ops, again), now0));
  }

  lemma TailOfRest(q: seq<Entry>, t: int)
    requires q != [] && q[0].due <= t
    ensures Tail(q, t) == Tail(q[1..], t)
  {
    RankIs(q, t, 1 + Rank(q[1..], t));
  }

  lemma LedgerCounts(q0: seq<Entry>, q: seq<Entry>, q': seq<Entry>, ops: seq<Op>, again: bool, lost': bool, now0: int, now': int)
    requires q != [] && q' == Apply(q[1..], ops) && Outcome(q[0], ops, again, now0, now')
    requires lost' || (q[0].h.Cyclic? ==> Returned(ops, q[0].h))
    ensures lost' || forall g: Handler | g.Cyclic? :: Count(q', g) == Count(q, g)
  {
    hide Count, Apply, Sets;
    assert q == [q[0]] + q[1..];
    DropsOther(ops, again, now0);
    forall g: Handler | g.Cyclic? ensures Count(q, g) == Count(q[1..], g) + (if q[0].h == g then 1 else 0)
                                          && Count(q', g) == Count(q[1..], g) + Count(Sets(ops), g) {
      CountConcat([q[0]], q[1..], g);
      CountOne(q[0], g);
      ApplyCount(q[1..], ops, g);
    }
  }

  lemma DropsOther(ops: seq<Op>, again: bool, now0: int)
    requires Legal(Mine(ops, again), now0) && (again ==> ops != [] && ops[|ops| - 1].Set?)
    ensures forall i | 0 <= i < |ops| && ops[i].Drop? :: ops[i].h.Other?
  {
    forall i | 0 <= i < |ops| && ops[i].Drop? ensures ops[i].h.Other? {
      assert Mine(ops, again)[i] == ops[i];
      assert LegalOp(Mine(ops, again)[i], now0);
    }
  }

  lemma LedgerBack(later: seq<Op>, ran: seq<Entry>, q: seq<Entry>, ops: seq<Op>, again: bool, now0: int, now: int, now': int)
    requires AllBack(Sets(later), ran, now0, now) && now <= now' && q != [] && Outcome(q[0], ops, again, now0, now') && Sorted(q) && Legal(later, now0)
    ensures var made := Behind(q[1..], Mine(ops, again), now0);
            && AllBack(Sets(later + made), ran + [q[0]], now0, now') && Legal(later + made, now0)
            && |Sets(later + made)| == |Sets(later)| + |Sets(Mine(ops, again))|
  {
    var mine := Mine(ops, again);
    var made := Behind(q[1..], mine, now0);
    assert Sorted(q[1..]);
    hide Count, Sets, Behind, Sorted;
    OpsSplit(q[1..], mine, now0);
    ApplyMore([], later, made);
    PlanGrows(q[1..], Apply(q[1..], ops), ops, again, q[0], now0, now');
    BackMore(Sets(later), Sets(mine), Sets(ops), ran, q[0], now0, now, now');
  }

  lemma BackMore(later: seq<Entry>, mine: seq<Entry>, sets: seq<Entry>, ran: seq<Entry>, r: Entry, now0: int, now: int, now': int)
    requires AllBack(later, ran, now0, now) && now <= now' && |mine| <= |sets| && mine == sets[..|mine|]
    requires forall i | 0 <= i < |sets| && sets[i].h.Cyclic? :: Back(r, sets[i], now0, now')
    ensures AllBack(later + mine, ran + [r], now0, now')
  {
    forall i | 0 <= i < |later + mine| && (later + mine)[i].h.Cyclic? ensures CameBack((later + mine)[i], ran + [r], now0, now') {
      if i < |later| {
        assert CameBack(later[i], ran, now0, now);
        var k :| 0 <= k < |ran| && Back(ran[k], later[i], now0, now);
        assert (ran + [r])[k] == ran[k];
        assert Back((ran + [r])[k], later[i], now0, now');
      } else {
        assert mine[i - |later|] == sets[i - |later|];
        assert (ran + [r])[|ran|] == r;
        assert Back((ran + [r])[|ran|], sets[i - |later|], now0, now');
      }
    }
  }

  lemma LogStep(q0: seq<Entry>, q: seq<Entry>, q1: seq<Entry>, now0: int, ran: seq<Entry>, later: seq<Op>, lost: bool, now: int, now': int,
                ops: seq<Op>, again: bool, log0: seq<Entry>, log: seq<Entry>, log': seq<Entry>, gone: seq<Entry>)
    requires q != [] && q1 == q[1..] && q[0].due <= now0 && Sorted(q) && Ledger(q0, q, now0, ran, later, lost, now)
    requires Outcome(q[0], ops, again, now0, now')
    requires Logged(log0, log, gone, Removed(Tail(q0, now0), later)) && log' == log + Removed(q1, ops)
    ensures var mine := Mine(ops, again);
            Logged(log0, log', gone + Hits(q1, mine, now0), Removed(Tail(q0, now0), later + Behind(q1, mine, now0)))
  {
    var mine := Mine(ops, again);
    assert Sorted(q1);
    hide Count, Sets, Behind, Sorted, Tail, Removed, Apply, Hits, AllBack, LegalOp, Logged;
    TailOfRest(q, now0);
    PlanGrows(q1, Apply(q1, ops), ops, again, q[0], now0, now');
    OpsRemoved(q1, mine, now0);
    var b := Behind(q1, mine, now0);
    ApplyMore(Tail(q0, now0), later, b);
    LogMore(log0, log, gone, Removed(Tail(q0, now0), later), Removed(q1, ops), Hits(q1, mine, now0), Removed(Tail(q1, now0), b));
  }

  lemma LogMore(log0: seq<Entry>, log: seq<Entry>, gone: seq<Entry>, more: seq<Entry>, new1: seq<Entry>, hits: seq<Entry>, rest: seq<Entry>)
    requires Logged(log0, log, gone, more) && multiset(new1) == multiset(hits) + multiset(rest)
    ensures Logged(log0, log + new1, gone + hits, more + rest)
  {
  }

  lemma LedgerDone(q0: seq<Entry>, q: seq<Entry>, now0: int, ran: seq<Entry>, later: seq<Op>, lost: bool, now: int)
    requires Ledger(q0, q, now0, ran, later, lost, now) && Due(q, now0) == []
    ensures q == Apply(Tail(q0, now0), later) && Legal(later, now0)
    ensures (lost || forall g: Handler | g.Cyclic? :: Count(q, g) == Count(q0, g)) && AllBack(Sets(later), ran, now0, now)
  {
    assert Rank(q, now0) == 0 && q[0..] == q;
  }

  /** One turn of sys_check_timeouts: the first entry has been taken off and its handler run. */
  lemma StepParts(q0: seq<Entry>, q: seq<Entry>, q': seq<Entry>, now0: int, start: seq<Entry>, extra: seq<Entry>, ran: seq<Entry>,
                  gone: seq<Entry>, later: seq<Op>, lost: bool, lost': bool, now: int, now': int, ops: seq<Op>, again: bool,
                  log0: seq<Entry>, log: seq<Entry>, log': seq<Entry>) returns (cut: seq<Entry>)
    requires Ledger(q0, q, now0, ran, later, lost, now) && q != [] && q[0].due <= now0 && Sorted(q)
    requires Plan(start, extra, ran, Due(q, now0), now0) && Thinned(Due(q0, now0), start, gone)
    requires Logged(log0, log, gone, Removed(Tail(q0, now0), later)) && log' == log + Removed(q[1..], ops)
    requires q' == Apply(q[1..], ops) && Outcome(q[0], ops, again, now0, now') && now <= now'
    requires (lost ==> lost') && (lost' || (q[0].h.Cyclic? ==> Returned(ops, q[0].h)))
    ensures var mine := Mine(ops, again);
            var later', gone' := later + Behind(q[1..], mine, now0), gone + Hits(q[1..], mine, now0);
            && Plan(cut, if again then extra + [Entry(now0, q[0].h)] else extra, ran + [q[0]], Due(q', now0), now0)
            && Thinned(Due(q0, now0), cut, gone') && |cut| <= |start|
            && Ledger(q0, q', now0, ran + [q[0]], later', lost', now')
            && Logged(log0, log', gone', Removed(Tail(q0, now0), later'))
            && |Sets(later')| + (if again then 1 else 0) == |Sets(later)| + |Sets(ops)|
  {
    assert Sorted(q[1..]);
    hide Due, Tail, Count, Sorted, Apply, Removed, Sets, AllBack, Plan, Outcome, Returned, Ledger, Mine, Thinned, Logged, Behind, Hits, LegalOp;
    var mine := Mine(ops, again);
    OutcomeFacts(q[0], ops, again, now0, now');
    PlanDispatch(start, extra, ran, q, now0, again);
    cut := ThinPlan(start, if again then extra + [Entry(now0, q[0].h)] else extra, ran + [q[0]], q[1..], mine,
                    if again then [Entry(now0, q[0].h)] else [], now0);
    PlanGrows(q[1..], q', ops, again, q[0], now0, now');
    LedgerStep(q0, q, q', now0, ran, later, lost, lost', now, now', ops, again);
    LogStep(q0, q, q[1..], now0, ran, later, lost, now, now', ops, again, log0, log, log', gone);
    ThinMore(Due(q0, now0), start, gone, cut, Hits(q[1..], mine, now0));
  }

  /** Where sys_check_timeouts stands: it began with `q0`, `free0`, `log0` and `lost0`. */
  ghost predicate Underway(q0: seq<Entry>, free0: nat, log0: seq<Entry>, lost0: bool, now0: int,
                           q: seq<Entry>, free: nat, log: seq<Entry>, lost: bool, now: int,
                           start: seq<Entry>, extra: seq<Entry>, ran: seq<Entry>, gone: seq<Entry>, later: seq<Op>) {
    && Plan(start, extra, ran, Due(q, now0), now0) && Thinned(Due(q0, now0), start, gone)
    && Ledger(q0, q, now0, ran, later, lost, now)
    && Logged(log0, log, gone, Removed(Tail(q0, now0), later))
    && free + |q| == free0 + |q0| && free + |Sets(later)| + |extra| == free0 + |ran| + |log| - |log0|
    && (lost0 ==> lost) && (lost && !lost0 ==> |Sets(later)| + |extra| > free0)
  }

  lemma Begins(q: seq<Entry>, free: nat, log: seq<Entry>, lost: bool, now0: int, now: int)
    ensures Underway(q, free, log, lost, now0, q, free, log, lost, now, Due(q, now0), [], [], [], [])
  {
    hide Plan, Thinned, Ledger, Logged, Removed, Due, Tail;
    LedgerStarts(q, now0, lost, now, log);
  }

  lemma StillRoom(q0: seq<Entry>, free0: nat, log0: seq<Entry>, lost0: bool, now0: int, q: seq<Entry>, free: nat, log: seq<Entry>, lost: bool, now: int,
                  start: seq<Entry>, extra: seq<Entry>, ran: seq<Entry>, gone: seq<Entry>, later: seq<Op>)
    requires Underway(q0, free0, log0, lost0, now0, q, free, log, lost, now, start, extra, ran, gone, later) && q != [] && q[0].due <= now0
    ensures |ran| < 2 * |start|
  {
    hide Plan, Thinned, Ledger, Logged, Removed, Tail;
    PlanRoom(start, extra, ran, Due(q, now0), now0);
  }

  lemma CheckStep(q0: seq<Entry>, free0: nat, log0: seq<Entry>, lost0: bool, now0: int,
                  q: seq<Entry>, free: nat, log: seq<Entry>, lost: bool, now: int,
                  q': seq<Entry>, free': nat, log': seq<Entry>, lost': bool, now': int,
                  start: seq<Entry>, extra: seq<Entry>, ran: seq<Entry>, gone: seq<Entry>, later: seq<Op>, ops: seq<Op>, again: bool)
    returns (cut: seq<Entry>)
    requires Underway(q0, free0, log0, lost0, now0, q, free, log, lost, now, start, extra, ran, gone, later)
    requires q != [] && q[0].due <= now0 && Sorted(q) && q' == Apply(q[1..], ops) && log' == log + Removed(q[1..], ops)
    requires Outcome(q[0], ops, again, now0, now') && now <= now' && free' + |Sets(ops)| == free + 1 + |Removed(q[1..], ops)|
    requires (lost ==> lost') && (lost' || (q[0].h.Cyclic? ==> Returned(ops, q[0].h))) && (lost' && !lost ==> |Sets(ops)| >= free + 1)
    ensures |cut| <= |start|
    ensures Underway(q0, free0, log0, lost0, now0, q', free', log', lost', now', cut, if again then extra + [Entry(now0, q[0].h)] else extra,
                     ran + [q[0]], gone + Hits(q[1..], Mine(ops, again), now0), later + Behind(q[1..], Mine(ops, again), now0))
  {
    hide Due, Tail, Sorted, Apply, Removed, Sets, Plan, Outcome, Returned, Ledger, Mine, Thinned, Behind, Hits;
    cut := StepParts(q0, q, q', now0, start, extra, ran, gone, later, lost, lost', now, now', ops, again, log0, log, log');
    ApplyLength(q[1..], ops);
    hide Logged;
  }

  lemma Ends(l: seq<Node>, q: seq<Entry>, q0: seq<Entry>, free0: nat, log0: seq<Entry>, lost0: bool, now0: int, free: nat, log: seq<Entry>, lost: bool, now: int,
             start: seq<Entry>, extra: seq<Entry>, ran: seq<Entry>, gone: seq<Entry>, later: seq<Op>)
    requires Wrapped(l, q) && (l == [] || now0 < q[0].due)
    requires Underway(q0, free0, log0, lost0, now0, q, free, log, lost, now, start, extra, ran, gone, later)
    ensures q == [] || now0 < q[0].due
    ensures ran == start + extra && Thinned(Due(q0, now0), start, gone)
    ensures forall e | e in extra :: e.h.Cyclic? && e.due == now0 && Entry(now0 - e.h.interval, e.h) in start
    ensures forall h :: Count(extra, h) <= Count(start, h)
    ensures q == Apply(Tail(q0, now0), later) && Legal(later, now0)
    ensures Logged(log0, log, gone, Removed(Tail(q0, now0), later))
    ensures lost || forall g: Handler | g.Cyclic? :: Count(q, g) == Count(q0, g)
    ensures AllBack(Sets(later), ran, now0, now) && free + |q| == free0 + |q0|
    ensures (lost0 ==> lost) && (lost && !lost0 ==> |Sets(later)| + |extra| > free0)
  {
    hide Due, Tail, Count, Apply, Removed, Sets, AllBack, Plan, Ledger, Thinned, Logged, LegalOp;
    NothingDue(l, q, now0);
    PlanDone(start, extra, ran, now0);
    LedgerDone(q0, q, now0, ran, later, lost, now);
  }

  /** Once nothing is due, the window can begin now. */
  lemma NewWindow(q: seq<Entry>, base: int, now0: int)
    requires Sorted(q) && Within(q, base) && base <= now0 && (q == [] || now0 < q[0].due)
    ensures Within(q, now0)
  {
  }

  lemma FirstIsDue(l: seq<Node>, q: seq<Entry>, now: nat, now0: int, base: int)
    requires Wrapped(l, q) && Within(q, base) && l != [] && now == Wrap(now0) && base <= now0 < base + HALF
    ensures q != [] && base <= q[0].due && (!Before(now, l[0].time) <==> q[0].due <= now0)
  {
    BeforeIsLess(now0, q[0].due);
  }

  lemma PopFacts(q: seq<Entry>, span: nat, now0: int)
    requires q != [] && q[0].due <= now0
    ensures Intervals(q, span) ==> Intervals(q[1..], span) && (q[0].h.Cyclic? ==> 0 < q[0].h.interval <= span)
    ensures forall h :: Count(q, h) == Count(q[1..], h) + if q[0].h == h then 1 else 0
    ensures Due(q, now0) == [q[0]] + Due(q[1..], now0)
  {
    assert q == [q[0]] + q[1..];
    forall h ensures Count(q, h) == Count(q[1..], h) + if q[0].h == h then 1 else 0 {
      CountConcat([q[0]], q[1..], h);
      CountOne(q[0], h);
    }
    RankIs(q, now0, 1 + Rank(q[1..], now0));
  }

  lemma NothingDue(l: seq<Node>, q: seq<Entry>, now0: int)
    requires Wrapped(l, q) && (l == [] || now0 < q[0].due)
    ensures Due(q, now0) == [] && (q == [] || now0 < q[0].due)
  {
  }

  /** Where sys_check_timeouts stands: `start` was due when it began, `ran` has been run, `due`
      is still to come, and `extra` are the cyclic timers that came back at once, each of
      which belongs to an entry of `start` that has been run. */
  ghost predicate Plan(start: seq<Entry>, extra: seq<Entry>, ran: seq<Entry>, due: seq<Entry>, now0: int) {
    && ran + due == start + extra
    && |extra| <= Least(|ran|, |start|)
    && (forall e | e in extra :: e.h.Cyclic? && e.due == now0 && Entry(now0 - e.h.interval, e.h) in start)
    && (forall h :: Count(extra, h) <= Count(start[..Least(|ran|, |start|)], h))
  }

  lemma PlanStarts(start: seq<Entry>, now0: int)
    ensures Plan(start, [], [], start, now0)
  {
    assert [] + start == start + [];
  }

  lemma PlanRoom(start: seq<Entry>, extra: seq<Entry>, ran: seq<Entry>, due: seq<Entry>, now0: int)
    requires Plan(start, extra, ran, due, now0) && due != []
    ensures |ran| < 2 * |start|
  {
    assert |ran + due| == |start + extra|;
  }

  lemma PlanStep(start: seq<Entry>, extra: seq<Entry>, ran: seq<Entry>, due: seq<Entry>, now0: int, again: bool)
    requires Plan(start, extra, ran, due, now0) && due != []
    requires again ==> due[0].h.Cyclic? && due[0].h.interval > 0 && due[0].due + due[0].h.interval == now0
    ensures var x := Entry(now0, due[0].h);
            Plan(start, if again then extra + [x] else extra, ran + [due[0]], if again then due[1..] + [x] else due[1..], now0)
  {
    var e, k := due[0], |ran|;
    assert due == [e] + due[1..];
    assert (ran + due)[k] == e;
    assert ran + [e] + due[1..] == ran + due;
    if again {
      var x := Entry(now0, e.h);
      InFirstPart(start, extra, k);
      assert start[k] == e;
      assert ran + [e] + (due[1..] + [x]) == (ran + due) + [x];
      assert start + (extra + [x]) == (start + extra) + [x];
      assert start[..k + 1] == start[..k] + [e];
      forall h ensures Count(extra + [x], h) <= Count(start[..k + 1], h) {
        CountConcat(extra, [x], h);
        CountConcat(start[..k], [e], h);
        CountOne(x, h);
        CountOne(e, h);
      }
    } else if k < |start| {
      assert start[..k + 1] == start[..k] + [start[k]];
      forall h ensures Count(start[..k], h) <= Count(start[..k + 1], h) { CountConcat(start[..k], [start[k]], h); }
    }
  }

  /** A due entry is cancelled before its turn. */
  lemma PlanCut(start: seq<Entry>, extra: seq<Entry>, ran: seq<Entry>, due: seq<Entry>, now0: int, i: nat) returns (cut: seq<Entry>)
    requires Plan(start, extra, ran, due, now0) && i < |due| && due[i].h.Other?
    ensures Plan(cut, extra, ran, Without(due, i), now0) && Thinned(start, cut, [due[i]]) && |cut| < |start|
  {
    var k := |ran| + i;
    assert (ran + due)[k] == due[i];
    InFirstPart(start, extra, k);
    assert start[k] == due[i];
    cut := Without(start, k);
    WithoutIsPart(start, k);
    WithoutMultiset(start, k);
    hide Count, PartOf;
    assert ran + Without(due, i) == Without(ran + due, k);
    assert cut + extra == Without(start + extra, k);
    assert cut[..|ran|] == start[..|ran|];
    forall e | e in extra ensures Entry(now0 - e.h.interval, e.h) in cut {
      var x := Entry(now0 - e.h.interval, e.h);
      assert x in multiset(start) && x != start[k];
      assert x in multiset(cut);
    }
  }

  /** What handlers cancel among what is due. */
  lemma {:induction false} ThinPlan(start: seq<Entry>, extra: seq<Entry>, ran: seq<Entry>, q: seq<Entry>, ops: seq<Op>, y: seq<Entry>, now0: int)
    returns (cut: seq<Entry>)
    requires Plan(start, extra, ran, Due(q, now0) + y, now0) && Sorted(q) && Legal(ops, now0)
    ensures Plan(cut, extra, ran, Due(Apply(q, ops), now0) + y, now0) && Thinned(start, cut, Hits(q, ops, now0)) && |cut| <= |start|
    decreases |ops|
  {
    hide Sorted, Due, After, Plan, Thinned, LegalOp, Gone, Hit;
    if ops == [] {
      ThinNone(start);
      return start;
    }
    var n := |ops| - 1;
    var p := Apply(q, ops[..n]);
    cut := ThinPlan(start, extra, ran, q, ops[..n], y, now0);
    OpsSplit(q, ops[..n], now0);
    assert LegalOp(ops[n], now0);
    OpSplit(p, ops[n], now0);
    var d := Due(p, now0);
    if Hit(p, ops[n], now0) {
      var i := HitAt(p, ops[n], now0, y);
      ghost var more := PlanCut(cut, extra, ran, d + y, now0, i);
      ThinMore(start, cut, Hits(q, ops[..n], now0), more, [d[i]]);
      cut := more;
    } else {
      assert Hits(q, ops[..n], now0) + [] == Hits(q, ops[..n], now0);
    }
  }

  lemma ThinNone(start: seq<Entry>)
    ensures Thinned(start, start, [])
  {
    PartOfSelf(start);
  }

  lemma HitAt(q: seq<Entry>, op: Op, t: int, y: seq<Entry>) returns (i: nat)
    requires Hit(q, op, t) && LegalOp(op, t)
    ensures var d := Due(q, t); i < |d| && d[i].h.Other? && (d + y)[i] == d[i] && Without(d + y, i) == Cancel(d, op.h) + y && Gone(d, op) == [d[i]]
  {
    i := Find(Due(q, t), op.h);
  }

  /** The first entry has been run, and may have come back. */
  lemma PlanDispatch(start: seq<Entry>, extra: seq<Entry>, ran: seq<Entry>, q: seq<Entry>, now0: int, again: bool)
    requires q != [] && q[0].due <= now0 && Plan(start, extra, ran, Due(q, now0), now0)
    requires again ==> q[0].h.Cyclic? && q[0].h.interval > 0 && q[0].due + q[0].h.interval == now0
    ensures var x := Entry(now0, q[0].h);
            Plan(start, if again then extra + [x] else extra, ran + [q[0]], Due(q[1..], now0) + if again then [x] else [], now0)
  {
    RankIs(q, now0, 1 + Rank(q[1..], now0));
    var d := Due(q, now0);
    assert d == [q[0]] + Due(q[1..], now0);
    assert d[1..] == Due(q[1..], now0) && d[1..] + [] == d[1..];
    hide Plan, Due;
    PlanStep(start, extra, ran, d, now0, again);
  }

  lemma InFirstPart(a: seq<Entry>, b: seq<Entry>, k: nat)
    requires k < |a + b|
    ensures (a + b)[k] !in b ==> k < |a| && a[k] == (a + b)[k]
  {
    if k >= |a| { assert (a + b)[k] == b[k - |a|]; }
  }

  lemma PlanDone(start: seq<Entry>, extra: seq<Entry>, ran: seq<Entry>, now0: int)
    requires Plan(start, extra, ran, [], now0)
    ensures ran == start + extra && forall h :: Count(extra, h) <= Count(start, h)
    ensures forall e | e in extra :: e.h.Cyclic? && e.due == now0 && Entry(now0 - e.h.interval, e.h) in start
  {
    assert ran + [] == ran;
    assert |start| <= |ran| && start[..|start|] == start;
  }

  /** A timer with at most one entry on the list runs at most twice in one call, and handlers
      run in the order of their due times. `ran`, `start`, `extra` and `gone` are what CheckTimeouts
      returns. */
  lemma AtMostTwiceInOrder(q: seq<Entry>, now0: int, ran: seq<Entry>, start: seq<Entry>, extra: seq<Entry>, gone: seq<Entry>, h: Handler)
    requires Sorted(q) && ran == start + extra && Thinned(Due(q, now0), start, gone) && Count(q, h) <= 1
    requires forall e | e in extra :: e.due == now0
    requires Count(extra, h) <= Count(start, h)
    ensures Count(ran, h) <= 2 && Sorted(ran)
  {
    hide Count, Rank, Sorted, PartOf, Due, Tail;
    var d := Due(q, now0);
    DuePart(q, now0);
    CountConcat(d, Tail(q, now0), h);
    PartCount(start, d, h);
    CountConcat(start, extra, h);
    PartSorted(start, d);
    forall i | 0 <= i < |start| ensures start[i].due <= now0 { assert start[i] in d; }
    RunsInOrder(start, extra, now0);
  }

  lemma DuePart(q: seq<Entry>, t: int)
    requires Sorted(q)
    ensures q == Due(q, t) + Tail(q, t) && Sorted(Due(q, t)) && forall i | 0 <= i < |Due(q, t)| :: Due(q, t)[i].due <= t
    ensures forall i | 0 <= i < |Tail(q, t)| :: t < Tail(q, t)[i].due
  {
    SuffixLater(q, t);
    var k := Rank(q, t);
    hide Rank;
    assert q == q[..k] + q[k..];
    forall i | 0 <= i < |q[k..]| ensures t < q[k..][i].due { assert q[k..][i] == q[k + i]; }
    assert Sorted(q[..k]);
    hide Sorted;
  }

  lemma RunsInOrder(a: seq<Entry>, b: seq<Entry>, now0: int)
    requires Sorted(a) && (forall i | 0 <= i < |a| :: a[i].due <= now0) && forall e | e in b :: e.due == now0
    ensures Sorted(a + b)
  {
    forall i | 0 <= i < |b| ensures b[i].due == now0 { assert b[i] in b; }
  }

  // ---------------------------------------------------------------- runs of the main loop

  /** One call of sys_check_timeouts: its time and the entries it ran. */
  datatype Check = Check(at: int, ran: seq<Entry>)

  function Fired(checks: seq<Check>): multiset<Entry> {
    if checks == [] then multiset{} else Fired(checks[..|checks| - 1]) + multiset(checks[|checks| - 1].ran)
  }

  /** The time of the check before check `i`. */
  function Previous(checks: seq<Check>, base: int, i: nat): int
    requires i <= |checks|
  {
    if i == 0 then base else checks[i - 1].at
  }

  /** Everything was run by the first check at or after its time; `last` is the latest one. */
  ghost predicate Punctual(checks: seq<Check>, base: int, last: int) {
    && last == Previous(checks, base, |checks|)
    && forall i | 0 <= i < |checks| :: InTime(checks[i].ran, Previous(checks, base, i), checks[i].at)
  }

  ghost predicate InTime(ran: seq<Entry>, before: int, at: int) {
    before <= at && forall k | 0 <= k < |ran| :: before < ran[k].due <= at
  }

  lemma FiredNone()
    ensures Fired([]) == multiset{} && forall base :: Punctual([], base, base)
  {
  }

  lemma FiredMore(checks: seq<Check>, at: int, ran: seq<Entry>)
    ensures Fired(checks + [Check(at, ran)]) == Fired(checks) + multiset(ran)
  {
    assert (checks + [Check(at, ran)])[..|checks|] == checks;
  }

  lemma Carry(q: multiset<Entry>, f: multiset<Entry>, d: multiset<Entry>, sum: multiset<Entry>,
              q': multiset<Entry>, r: multiset<Entry>, d': multiset<Entry>, set1: multiset<Entry>)
    requires q + f + d == sum && q' + r + d' == q + d + set1
    ensures q' + (f + r) + d' == sum + set1
  {
    assert q' + (f + r) + d' == (q' + r + d') + f;
    assert (q + d + set1) + f == (q + f + d) + set1;
  }

  /** One round of the main loop loses no timeout and makes up none. */
  lemma RoundConserves(q: seq<Entry>, ops: seq<Op>, mid: seq<Entry>, at: int, start: seq<Entry>, extra: seq<Entry>, gone: seq<Entry>, later: seq<Op>,
                       log: seq<Entry>, log1: seq<Entry>, log2: seq<Entry>)
    requires mid == Apply(q, ops) && log1 == log + Removed(q, ops) && Thinned(Due(mid, at), start, gone)
    requires Logged(log1, log2, gone, Removed(Tail(mid, at), later))
    ensures multiset(Apply(Tail(mid, at), later)) + multiset(start + extra) + multiset(log2)
         == multiset(q) + multiset(log) + (multiset(Sets(ops)) + multiset(Sets(later)) + multiset(extra))
  {
    hide Apply, Removed, Sets, Due, Tail, PartOf;
    DueAndTail(mid, at);
    ApplyConserves(q, ops);
    ApplyConserves(Tail(mid, at), later);
    Balance(multiset(q), multiset(Sets(ops)), multiset(mid), multiset(Removed(q, ops)), multiset(Due(mid, at)), multiset(Tail(mid, at)),
            multiset(start), multiset(gone), multiset(Apply(Tail(mid, at), later)), multiset(Removed(Tail(mid, at), later)), multiset(Sets(later)),
            multiset(extra), multiset(log), multiset(log2));
  }

  lemma DueAndTail(q: seq<Entry>, t: int)
    ensures multiset(q) == multiset(Due(q, t)) + multiset(Tail(q, t))
  {
    assert q == Due(q, t) + Tail(q, t);
  }

  lemma Balance(q: multiset<Entry>, s: multiset<Entry>, mid: multiset<Entry>, r: multiset<Entry>, due: multiset<Entry>, tail: multiset<Entry>,
                start: multiset<Entry>, gone: multiset<Entry>, q': multiset<Entry>, r': multiset<Entry>, s': multiset<Entry>,
                extra: multiset<Entry>, log: multiset<Entry>, log2: multiset<Entry>)
    requires mid + r == q + s && mid == due + tail && due == start + gone && q' + r' == tail + s' && log2 == (log + r) + gone + r'
    ensures q' + (start + extra) + log2 == q + log + (s + s' + extra)
  {
    forall e ensures (q' + (start + extra) + log2)[e] == (q + log + (s + s' + extra))[e] {
      assert mid[e] + r[e] == (mid + r)[e] == (q + s)[e] == q[e] + s[e];
      assert q'[e] + r'[e] == (q' + r')[e] == (tail + s')[e] == tail[e] + s'[e];
    }
  }

  lemma {:induction false} ApplyAbove(q: seq<Entry>, ops: seq<Op>, b: int)
    requires (forall i | 0 <= i < |q| :: q[i].due > b) && Plain(ops, b)
    ensures forall i | 0 <= i < |Apply(q, ops)| :: Apply(q, ops)[i].due > b
  {
    if ops != [] {
      hide After;
      var n := |ops| - 1;
      ApplyAbove(q, ops[..n], b);
      assert LegalOp(ops[n], b);
      AfterAbove(Apply(q, ops[..n]), ops[n], b);
    }
  }

  lemma AfterAbove(q: seq<Entry>, op: Op, b: int)
    requires (forall i | 0 <= i < |q| :: q[i].due > b) && LegalOp(op, b)
    ensures forall i | 0 <= i < |After(q, op)| :: After(q, op)[i].due > b
  {
    hide Rank, Find;
  }

  /** What runs in a round was not due at the check before. */
  lemma NextRound(checks: seq<Check>, base: int, b: int, q: seq<Entry>, ops: seq<Op>, mid: seq<Entry>, at: int, start: seq<Entry>, extra: seq<Entry>, gone: seq<Entry>)
    requires Punctual(checks, base, b) && Sorted(q) && (q == [] || b < q[0].due) && Plain(ops, b) && b <= at
    requires mid == Apply(q, ops) && Sorted(mid) && Thinned(Due(mid, at), start, gone)
    requires forall e | e in extra :: e.h.Cyclic? && e.due == at && Entry(at - e.h.interval, e.h) in start
    ensures Punctual(checks + [Check(at, start + extra)], base, at)
  {
    hide Apply, Plain, PartOf, Due, Tail;
    assert forall i | 0 <= i < |q| :: q[0].due <= q[i].due;
    ApplyAbove(q, ops, b);
    DuePart(mid, at);
    hide Sorted;
    PartSorted(start, Due(mid, at));
    forall k | 0 <= k < |start| ensures b < start[k].due <= at {
      assert start[k] in Due(mid, at);
      assert start[k] in mid;
    }
    forall k | 0 <= k < |extra| ensures b < extra[k].due <= at {
      assert extra[k] in extra;
      var x := Entry(at - extra[k].h.interval, extra[k].h);
      assert x in start;
    }
    OneMore(checks, base, b, at, start + extra);
  }

  lemma OneMore(checks: seq<Check>, base: int, b: int, at: int, ran: seq<Entry>)
    requires Punctual(checks, base, b) && InTime(ran, b, at)
    ensures Punctual(checks + [Check(at, ran)], base, at)
  {
    hide InTime;
    var more := checks + [Check(at, ran)];
    forall i | 0 <= i < |more| ensures InTime(more[i].ran, Previous(more, base, i), more[i].at) {
      if i < |checks| { assert more[i] == checks[i] && Previous(more, base, i) == Previous(checks, base, i); }
    }
  }

  lemma InsertWrapped(l: seq<Node>, q: seq<Entry>, e: Entry, base: int)
    requires Wrapped(l, q) && Sorted(q) && Within(q, base) && base <= e.due < base + HALF
    ensures var i := Rank(q, e.due);
            Wrapped(l[..i] + [Node(Wrap(e.due), e.h)] + l[i..], Insert(q, e))
    ensures Sorted(Insert(q, e)) && Within(Insert(q, e), base)
  {
    hide Wrap, Rank;
    InsertSorted(q, e);
    InsertNodes(l, q, e, Node(Wrap(e.due), e.h));
    hide Sorted;
  }

  lemma CancelNodes(l: seq<Node>, q: seq<Entry>, h: Handler, i: nat, base: int)
    requires Wrapped(l, q) && Sorted(q) && Within(q, base) && i < |q| && q[i].h == h && forall j | 0 <= j < i :: q[j].h != h
    ensures Wrapped(l[..i] + l[i + 1..], Cancel(q, h)) && Sorted(Cancel(q, h)) && Within(Cancel(q, h), base)
    ensures |Cancel(q, h)| == |q| - 1
  {
    hide Wrap;
    FindIs(q, h, i);
    CancelSorted(q, h);
    assert Cancel(q, h) == q[..i] + q[i + 1..];
    hide Sorted, Cancel;
  }

  lemma CancelAbsent(q: seq<Entry>, h: Handler)
    requires forall j | 0 <= j < |q| :: q[j].h != h
    ensures Cancel(q, h) == q
  {
    FindIs(q, h, |q|);
  }

  lemma InsertNodes(l: seq<Node>, q: seq<Entry>, e: Entry, n: Node)
    requires Wrapped(l, q) && n == Node(Wrap(e.due), e.h)
    ensures var i := Rank(q, e.due); Wrapped(l[..i] + [n] + l[i..], Insert(q, e))
  {
    hide Wrap;
  }

  lemma ShiftFacts(q: seq<Entry>, l: seq<Node>, base: int, clock: int)
    requires q != [] && Sorted(q) && Within(q, base) && |l| == |q|
    requires forall j | 0 <= j < |q| :: l[j] == Node(Wrap(q[j].due - q[0].due + clock), q[j].h)
    ensures var r := Shift(q, clock - q[0].due); Wrapped(l, r) && Sorted(r) && Within(r, clock)
  {
    hide Wrap;
    var r := Shift(q, clock - q[0].due);
    assert forall j | 0 <= j < |q| :: r[j].due == q[j].due - q[0].due + clock;
    assert forall j | 0 <= j < |q| :: q[0].due <= q[j].due;
  }

  lemma Rebased(x: int, b: int, c: int)
    ensures Wrap(Wrap(Wrap(x) - Wrap(b)) + Wrap(c)) == Wrap(x - b + c)
  {
    WrapDistance(x, b);
    WrapSum(x - b, Wrap(c));
    WrapSum(c, x - b);
  }

  lemma {:induction false} FindIs(q: seq<Entry>, h: Handler, r: nat)
    requires r <= |q| && (forall i | 0 <= i < r :: q[i].h != h) && (r < |q| ==> q[r].h == h)
    ensures Find(q, h) == r
  {
    if r > 0 { FindIs(q[1..], h, r - 1); }
  }
}
