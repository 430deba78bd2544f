/** The DNS resolver (src/lib/liblwip/core/dns.c): its timer, its receive function and its queue.

    A server and the UDP layer are an environment that may answer anything; a reply is taken by
    what the resolver reads from it. Callbacks do not enter the resolver again. */
module Dns {
  import opened DnsSpec

  /** What dns_recv reads from a packet: `matches` says that its question is the one of the entry. */
  datatype Reply = Reply(txid: nat, response: bool, questions: nat, from: nat, matches: bool, error: bool, answer: Answer)

  /** The answer section: an address, something malformed, or no address. */
  datatype Answer = Address(ttl: nat) | Malformed | NoAddress

  datatype Result = InProgress | ErrMem

  /** A packet carries the id of an asking entry. */
  predicate Meant(e: Entry, r: Reply) { e.status.Asking? && e.txid == r.txid }

  ghost predicate AllTaken(reqs: seq<Req>) { forall k | 0 <= k < |reqs| :: reqs[k].Wait? }

  /** Some entry asks for `name`. */
  ghost predicate AskingFor(table: seq<Entry>, name: string) {
    exists j | 0 <= j < |table| :: table[j].status.Asking? && table[j].name == name
  }

  /** The ticket waits for an entry that asks for `name`. */
  ghost predicate WaitsFor(table: seq<Entry>, reqs: seq<Req>, t: nat, name: string) {
    exists k | 0 <= k < |reqs| :: reqs[k].Wait? && reqs[k].ticket == t && reqs[k].entry < |table| && table[reqs[k].entry].name == name
  }

  datatype Decision = Ignore | NextServer | Give(ttl: nat) | Drop

  /** What a packet for entry `i` leads to. */
  function Verdict(table: seq<Entry>, servers: seq<nat>, r: Reply, i: nat): Decision {
    if i >= |table| || !r.response || r.questions != 1 then Ignore
    else if !(table[i].server < |servers| && r.from == servers[table[i].server]) || !r.matches then Ignore
    else if r.error then (if Backup(servers, table[i]) then NextServer else Drop)
    else match r.answer
         case Address(ttl) => Give(ttl)
         case Malformed => Ignore
         case NoAddress => Drop
  }

  /** An entry with an answer, kept as long as it lives but not longer than DNS_MAX_TTL. */
  function Answered(c: Config, e: Entry, ttl: nat): Entry {
    var t := if ttl > c.maxTtl then c.maxTtl else ttl;
    e.(status := if t == 0 then Unused else Done, ttl := t)
  }

  /** After an answer that lives for `ttl`, and without further events, the entry is found for exactly
      the ticks before the smaller of `ttl` and DNS_MAX_TTL has passed, and is free from then on. */
  lemma AnswerKept(c: Config, servers: seq<nat>, e: Entry, ttl: nat, k: nat)
    ensures Silent(c, servers, Answered(c, e, ttl), k).status == if k < ttl && k < c.maxTtl then Done else Unused
  {
    var a := Answered(c, e, ttl);
    if a.status.Done? { AnswerLives(c, servers, a, k); } else { StaysUnused(c, servers, a, k); }
  }

  /** An entry that starts with the next server. */
  function Redirected(e: Entry): Entry { e.(server := e.server + 1, tmr := 1, retries := 0) }

  class Resolver {
    const c: Config
    var table: seq<Entry>
    var requests: seq<Req>
    /** server addresses; 0 is IP_ADDR_ANY, not configured */
    var servers: seq<nat>
    var seqno: nat
    var txid: nat
    /** the number of callbacks asked for; a ticket stands for a callback and its argument */
    var issued: nat
    /** the tickets called back */
    ghost var fired: multiset<nat>
    /** those of them called back with an address */
    ghost var good: multiset<nat>

    ghost predicate Valid()
      reads this
    {
      Inv(c, table, requests, servers, fired, issued) && txid < 0x10000 && seqno < 0x100
    }

    /** In the middle of a step on entry `i`. */
    ghost predicate Between(i: nat)
      reads this
    {
      InvBut(c, table, requests, servers, fired, issued, i) && txid < 0x10000 && seqno < 0x100
    }

    ghost function Now(): View
      reads this
    {
      View(table, requests, fired)
    }

    constructor (c: Config)
      requires ConfigOk(c)
      ensures Valid() && issued == 0 && this.c == c && seqno == 0
      ensures forall j | 0 <= j < |table| :: table[j].status.Unused?
    {
      this.c := c;
      table := seq(c.tableSize, _ => Entry(Unused, 0, 0, 0, 0, 0, 0, ""));
      requests := seq(c.maxRequests, _ => Free);
      servers := seq(c.maxServers, _ => 0);
      seqno, txid, fired, good, issued := 0, 0, multiset{}, multiset{}, 0;
      new;
      NothingPending(requests, |requests|);
    }

    /** dns_setserver */
    method SetServer(n: nat, addr: nat)
      requires Valid()
      modifies this`servers
      ensures Valid() && servers == (if n < c.maxServers then old(servers)[n := addr] else old(servers))
    {
      if n < c.maxServers { servers := servers[n := addr]; }
    }

    /** dns_call_found: make and drop every callback that waits for entry `i`, with or without an
        address. */
    method CallFound(i: nat, found: bool)
      requires Between(i)
      modifies this`requests, this`fired, this`good
      ensures good == if found then old(good) + (fired - old(fired)) else old(good)
      ensures |requests| == |old(requests)| && Between(i) && old(fired) <= fired && Flushed(old(requests), requests, fired, i) && NoneFor(requests, i)
    {
      hide Distinct, PendingTo, Tickets, Of;
      ghost var reqs0, fired0 := requests, fired;
      var k := 0;
      while k < c.maxRequests
        invariant k <= c.maxRequests == |requests| == |reqs0| && fired0 <= fired && good == old(good)
        invariant forall j | 0 <= j < k :: FlushedAt(reqs0[j], requests[j], fired, i)
        invariant forall j | k <= j < |reqs0| :: requests[j] == reqs0[j]
        invariant fired + Pending(requests) == Tickets(issued)
      {
        if requests[k].Wait? && requests[k].entry == i {
          FireOne(requests, k, fired, issued);
          fired := fired + Of(requests[k]);
          OfTicket(requests[k]);
          requests := requests[k := Free];
        }
        k := k + 1;
      }
      assert Flushed(reqs0, requests, fired, i);
      FlushedServed(table, reqs0, requests, fired, i);
      FlushedNone(reqs0, requests, fired, i);
      if found { good := good + (fired - fired0); }
    }

    /** dns_create_txid: the next number that no asking entry uses. At most one number for each
        entry is passed over. */
    method CreateTxid() returns (id: nat)
      requires |table| == c.tableSize <= 255 && txid < 0x10000
      modifies this`txid
      ensures txid < 0x10000
      ensures id == txid && forall j | 0 <= j < |table| && table[j].status.Asking? :: table[j].txid != id
    {
      hide Nth, Tried;
      ghost var n: nat, start := 0, txid;
      TriedNone(table, start);
      while true
        invariant txid == (if n == 0 then start else Nth(start, n)) && n <= 255 && Tried(table, start, n)
        decreases 256 - n
      {
        NthNext(start, n);
        txid := (txid + 1) % 0x10000;
        id := txid;
        var i := 0;
        while i < c.tableSize && !(table[i].status.Asking? && table[i].txid == id)
          invariant i <= c.tableSize && forall j | 0 <= j < i && table[j].status.Asking? :: table[j].txid != id
        {
          i := i + 1;
        }
        if i == c.tableSize { return; }
        TriedMore(table, start, n, i);
        n := n + 1;
      }
    }

    /** dns_backupserver_available */
    predicate BackupAvailable(e: Entry)
      requires |servers| == c.maxServers
      reads this
    {
      Backup(servers, e)
    }

    /** dns_send, as far as it concerns the tables: without a server the entry ends. */
    method Send(i: nat)
      requires Between(i) && table[i].status.Asking? && AskingOk(c, table[i])
      modifies this`requests, this`fired, this`good, this`table
      ensures Valid() && old(fired) <= fired && |requests| == |old(requests)| && good == old(good)
      ensures table == old(table)[i := Asked(servers, old(table)[i])]
      ensures old(table)[i].server < |servers|
      ensures table == old(table)[i := old(table)[i].(status := if servers[old(table)[i].server] == 0 then Unused else Asking)]
      ensures if table[i].status.Asking? then requests == old(requests) && fired == old(fired)
              else Flushed(old(requests), requests, fired, i)
    {
      hide Inv, InvBut, Flushed, NoneFor;
      FirstServer(c, table, requests, servers, fired, issued, i);
      if servers[table[i].server] == 0 {
        CallFound(i, false);
        SetEntry(c, table, requests, servers, fired, issued, i, table[i].(status := Unused));
        table := table[i := table[i].(status := Unused)];
      }
      Back(c, table, requests, servers, fired, issued, i);
    }

    /** dns_check_entry: ask for a new entry; on timeout ask again, ask the next server, or give up;
        drop an answer whose time is over. */
    method CheckEntry(i: nat)
      requires Between(i) && (table[i].status.New? || Valid())
      modifies this`requests, this`fired, this`good, this`table, this`txid
      ensures Valid() && old(fired) <= fired && good == old(good) && |requests| == |old(requests)|
      ensures table == old(table)[i := Ticked(c, servers, old(table)[i], txid)]
      ensures if (old(table)[i].status.New? || old(table)[i].status.Asking?) && !table[i].status.Asking?
              then Flushed(old(requests), requests, fired, i) else requests == old(requests) && fired == old(fired)
      ensures !old(table)[i].status.New? ==> Checked(c, old(Now()), Now(), i, 1)
    {
      hide Inv, InvBut, Flushed, TicksLeft, AskingOk, ConfigOk;
      ghost var table0 := table;
      BetweenFacts(c, table, requests, servers, fired, issued, i);
      match table[i].status
      case New =>
        var id := CreateTxid();
        AskFirst(c, table[i], id);
        SetEntry(c, table, requests, servers, fired, issued, i, table[i].(txid := id, status := Asking, server := 0, tmr := 1, retries := 0));
        table := table[i := table[i].(txid := id, status := Asking, server := 0, tmr := 1, retries := 0)];
        Send(i);
      case Asking =>
        AskAgain(c, table, requests, servers, fired, issued, i);
        ghost var e0 := table[i];
        var e := table[i].(tmr := table[i].tmr - 1);
        if e.tmr == 0 {
          e := e.(retries := e.retries + 1);
          if e.retries == c.maxRetries {
            if BackupAvailable(e) {
              e := e.(server := e.server + 1, tmr := 1, retries := 0);
              assert e == e0.(tmr := 1, retries := 0, server := e0.server + 1);
            } else {
              CallFound(i, false);
              Retire(c, table, requests, servers, fired, issued, i, e.(status := Unused));
              table := table[i := e.(status := Unused)];
              return;
            }
          } else {
            e := e.(tmr := e.retries);
            assert e == e0.(tmr := e0.retries + 1, retries := e0.retries + 1);
          }
          SetEntry(c, table, requests, servers, fired, issued, i, e);
          table := table[i := e];
          Send(i);
        } else {
          SetEntry(c, table, requests, servers, fired, issued, i, e);
          table := table[i := e];
          Back(c, table, requests, servers, fired, issued, i);
        }
      case Done =>
        IdleNone(c, table, requests, servers, fired, issued, i);
        var e := if table[i].ttl == 0 || table[i].ttl - 1 == 0 then table[i].(ttl := 0, status := Unused) else table[i].(ttl := table[i].ttl - 1);
        Retire(c, table, requests, servers, fired, issued, i, e);
        table := table[i := e];
      case Unused =>
    }

    /** dns_tmr: check every entry. */
    method Tick()
      requires Valid()
      modifies this`requests, this`fired, this`good, this`table, this`txid
      ensures Valid() && Step(c, old(Now()), Now(), 1) && good == old(good)
      ensures |table| == |old(table)| && forall j | 0 <= j < |table| :: table[j] == Ticked(c, servers, old(table)[j], 0)
    {
      hide Inv, Checked, Swept, Step, Ticked;
      ghost var v := Now();
      NoneNew(c, table, requests, servers, fired, issued);
      TableSize(c, table, requests, servers, fired, issued);
      SweptNone(c, table, requests, servers, fired, issued);
      var i := 0;
      while i < c.tableSize
        invariant Valid() && i <= c.tableSize && Swept(c, v, Now(), i) && good == old(good) && |table| == |v.table| == c.tableSize
        invariant forall j | 0 <= j < i :: table[j] == Ticked(c, servers, v.table[j], 0)
        invariant forall j | i <= j < |table| :: table[j] == v.table[j]
      {
        ghost var w := Now();
        InOrder(c, table, requests, servers, fired, issued, i);
        Leave(c, table, requests, servers, fired, issued, i);
        CheckEntry(i);
        AnyId(c, servers, v.table[i], txid);
        InOrder(c, table, requests, servers, fired, issued, i);
        SweptMore(c, v, w, Now(), i);
        i := i + 1;
      }
      SweptAll(c, v, Now(), table, requests, servers, fired, issued);
    }

    /** dns_correct_response: keep the answer for its time to live, call back, and drop it at once
        if that is zero. */
    method CorrectResponse(i: nat, ttl: nat)
      requires Valid() && i < |table| && table[i].status.Asking?
      modifies this`requests, this`fired, this`good, this`table
      ensures Valid() && Checked(c, old(Now()), Now(), i, 0) && Flushed(old(requests), requests, fired, i)
      ensures table == old(table)[i := Answered(c, old(table)[i], ttl)] && good == old(good) + (fired - old(fired))
    {
      hide Inv, InvBut, Flushed, TicksLeft;
      Leave(c, table, requests, servers, fired, issued, i);
      BetweenFacts(c, table, requests, servers, fired, issued, i);
      var e := table[i].(status := Done, ttl := if ttl > c.maxTtl then c.maxTtl else ttl);
      SetEntry(c, table, requests, servers, fired, issued, i, e);
      table := table[i := e];
      CallFound(i, true);
      if e.ttl == 0 {
        Retire(c, table, requests, servers, fired, issued, i, e.(status := Unused));
        table := table[i := e.(status := Unused)];
      } else {
        Back(c, table, requests, servers, fired, issued, i);
      }
    }

    /** dns_recv: find the entry that a packet answers and act on it. No packet makes a request wait
        longer, and no request of another entry is touched. */
    method Receive(r: Reply) returns (ghost i: nat)
      requires Valid()
      modifies this`requests, this`fired, this`good, this`table, this`txid
      ensures Valid() && Step(c, old(Now()), Now(), 0)
      ensures i <= |old(table)| && (i < |old(table)| ==> Meant(old(table)[i], r)) && (i == |old(table)| ==> forall j | 0 <= j < |old(table)| :: !Meant(old(table)[j], r))
      ensures match Verdict(old(table), servers, r, i)
              case Ignore => Now() == old(Now()) && good == old(good)
              case NextServer => table == old(table)[i := Redirected(old(table)[i])] && requests == old(requests) && good == old(good)
              case Give(ttl) => table == old(table)[i := Answered(c, old(table)[i], ttl)] && Flushed(old(requests), requests, fired, i)
                                && good == old(good) + (fired - old(fired))
              case Drop => table == old(table)[i := old(table)[i].(status := Unused)] && Flushed(old(requests), requests, fired, i) && good == old(good)
      ensures |servers| == c.maxServers && |table| == |old(table)|
      ensures var meant := i < |old(table)| && old(table)[i].server < |servers| && r.from == servers[old(table)[i].server];
              var heard := meant && r.response && r.questions == 1 && r.matches;
              var next := meant && old(table)[i].server + 1 < |servers| && servers[old(table)[i].server + 1] != 0;
              && (!heard || (!r.error && r.answer.Malformed?) <==> table == old(table))
              && (table == old(table) ==> requests == old(requests) && fired == old(fired) && good == old(good))
              && (heard && r.error && next ==>
                    && requests == old(requests) && fired == old(fired) && good == old(good) && table[i].status.Asking?
                    && table == old(table)[i := old(table)[i].(server := old(table)[i].server + 1, tmr := 1, retries := 0)])
              && (heard && (if r.error then !next else r.answer.NoAddress?) ==>
                    && table == old(table)[i := old(table)[i].(status := Unused)]
                    && Flushed(old(requests), requests, fired, i) && good == old(good))
              && (heard && !r.error && r.answer.Address? ==>
                    && table == old(table)[i := old(table)[i].(status := if r.answer.ttl == 0 then Unused else Done,
                                                               ttl := if r.answer.ttl > c.maxTtl then c.maxTtl else r.answer.ttl)]
                    && Flushed(old(requests), requests, fired, i) && good == old(good) + (fired - old(fired)))
    {
      hide Inv, Checked, Step, TicksLeft, Flushed;
      ghost var v := Now();
      SweptNone(c, table, requests, servers, fired, issued);
      Still(c, v);
      TableSize(c, table, requests, servers, fired, issued);
      var k := 0;
      while k < c.tableSize && !(table[k].status.Asking? && table[k].txid == r.txid)
        invariant k <= c.tableSize && Now() == v && forall j | 0 <= j < k :: !Meant(table[j], r)
      {
        k := k + 1;
      }
      i := k;
      if k == c.tableSize || !r.response || r.questions != 1 { return; }
      if r.from != servers[table[k].server] || !r.matches { return; }
      InOrder(c, table, requests, servers, fired, issued, k);
      if r.error {
        if BackupAvailable(table[k]) {
          AvoidServer(k);
        } else {
          Fail(k);
        }
      } else {
        match r.answer
        case Address(ttl) => CorrectResponse(k, ttl);
        case Malformed => return;
        case NoAddress => Fail(k);
      }
      InOrder(c, table, requests, servers, fired, issued, k);
      CheckedIsStep(c, v, Now(), k);
      assert table[k] != v.table[k];
    }

    /** Call back without an address and drop the entry. */
    method Fail(i: nat)
      requires Valid() && i < |table| && table[i].status.Asking?
      modifies this`requests, this`fired, this`good, this`table
      ensures Valid() && Checked(c, old(Now()), Now(), i, 0) && Flushed(old(requests), requests, fired, i)
      ensures table == old(table)[i := old(table)[i].(status := Unused)] && good == old(good)
    {
      hide Inv, InvBut, Flushed, TicksLeft;
      Leave(c, table, requests, servers, fired, issued, i);
      BetweenFacts(c, table, requests, servers, fired, issued, i);
      CallFound(i, false);
      Retire(c, table, requests, servers, fired, issued, i, table[i].(status := Unused));
      table := table[i := table[i].(status := Unused)];
    }

    /** After an error, let the timer move the entry to the next server at once. */
    method AvoidServer(i: nat)
      requires Valid() && i < |table| && table[i].status.Asking? && Backup(servers, table[i])
      modifies this`requests, this`fired, this`good, this`table, this`txid
      ensures Valid() && Checked(c, old(Now()), Now(), i, 0)
      ensures table == old(table)[i := Redirected(old(table)[i])] && requests == old(requests) && good == old(good) && fired == old(fired)
    {
      hide Inv, InvBut, Flushed, TicksLeft, AskingOk;
      AskAgain(c, table, requests, servers, fired, issued, i);
      Leave(c, table, requests, servers, fired, issued, i);
      BetweenFacts(c, table, requests, servers, fired, issued, i);
      GiveUp(c, table[i]);
      var e := table[i].(retries := c.maxRetries - 1, tmr := 1);
      SetEntry(c, table, requests, servers, fired, issued, i, e);
      table := table[i := e];
      Back(c, table, requests, servers, fired, issued, i);
      CheckEntry(i);
    }

    /** dns_enqueue: join the entry that asks for `name` already, or take an unused entry or the
        oldest answer and ask at once. With a callback wanted, the request gets the next ticket. */
    method Enqueue(name: string, wanted: bool) returns (r: Result, ghost i: nat)
      requires Valid()
      modifies this
      ensures Valid() && Step(c, old(Now()), Now(), 0) && good == old(good)
      ensures r.ErrMem? <==> old(AllTaken(requests) || (AllBusy() && !AskingFor(table, name)))
      ensures r.ErrMem? ==> Now() == old(Now()) && issued == old(issued)
      ensures r.InProgress? ==> issued == old(issued) + if wanted then 1 else 0
      ensures r.InProgress? && wanted ==> fired[old(issued)] + Pending(requests)[old(issued)] == 1
      ensures r.InProgress? && wanted ==> old(issued) in fired || WaitsFor(table, requests, old(issued), name)
      ensures servers == old(servers) && (r.InProgress? && !old(AskingFor(table, name)) ==> TakenFor(old(table), old(seqno), i, name))
    {
      hide Inv, InvBut, Step, TicksLeft, Pending, AskingOk, Flushed, ServedAt, Distinct, AllTaken, WaitsFor, AskingFor, Ticked;
      ghost var v := Now();
      SweptNone(c, table, requests, servers, fired, issued);
      Still(c, v);
      TableSize(c, table, requests, servers, fired, issued);
      var joined := Join(name, wanted);
      if joined {
        if wanted { ExactlyOnce(c, table, requests, servers, fired, issued, old(issued)); }
        return InProgress, 0;
      }
      var at := FindEntry();
      i := at;
      if at == c.tableSize { return ErrMem, at; }
      var k := FindSlot();
      Taken(requests, k);
      if k == c.maxRequests { return ErrMem, at; }
      Leave(c, table, requests, servers, fired, issued, at);
      IdleNone(c, table, requests, servers, fired, issued, at);
      InOrder(c, table, requests, servers, fired, issued, at);
      var e := table[at].(status := New, seqno := seqno, name := name);
      SetEntry(c, table, requests, servers, fired, issued, at, e);
      table := table[at := e];
      if wanted {
        PutBetween(c, table, requests, servers, fired, issued, at, k);
        requests := requests[k := Wait(issued, at)];
        issued := issued + 1;
      }
      seqno := (seqno + 1) % 0x100;
      ghost var reqs1 := requests;
      CheckEntry(at);
      InOrder(c, table, requests, servers, fired, issued, at);
      EnqueueStep(c, v, reqs1, Now(), at, k);
      NewEntry(c, servers, e, txid);
      if wanted {
        ExactlyOnce(c, table, requests, servers, fired, issued, old(issued));
        NewWaits(c, servers, e, txid, table, reqs1, requests, fired, at, k, old(issued), name);
      }
      return InProgress, at;
    }

    /** Entry `i` was taken for `name`: an unused one, or the oldest answer if none is unused. */
    ghost predicate TakenFor(table0: seq<Entry>, seqno0: nat, i: nat, name: string)
      reads this
    {
      && i < |table0| && seqno == (seqno0 + 1) % 0x100
      && (table0[i].status.Unused? || (table0[i].status.Done? && forall j | 0 <= j < |table0| ::
            table0[j].status.Asking? || (table0[j].status.Done? && Age(seqno0, table0[j]) <= Age(seqno0, table0[i]))))
      && |servers| > 0
      && table == table0[i := Entry(if servers[0] == 0 then Unused else Asking, txid, 0, 1, 0, table0[i].ttl, seqno0, name)]
    }

    /** Every entry is asking, or holds an answer too old for an u8_t to tell. */
    ghost predicate AllBusy()
      reads this
    {
      forall j | 0 <= j < |table| :: table[j].status.Asking? || (table[j].status.Done? && Age(seqno, table[j]) == 0)
    }

    /** Join an entry that asks for the same name, if a request slot is free. */
    method Join(name: string, wanted: bool) returns (joined: bool)
      requires Valid()
      modifies this`requests, this`issued
      ensures Valid() && (joined <==> old(AskingFor(table, name) && !AllTaken(requests)))
      ensures joined ==> issued == old(issued) + (if wanted then 1 else 0) && Step(c, old(Now()), Now(), 0)
      ensures joined && wanted ==> WaitsFor(table, requests, old(issued), name)
      ensures !joined ==> Now() == old(Now()) && issued == old(issued)
    {
      hide Inv, Step, Pending, AskingOk, Distinct, TicksLeft;
      ghost var v := Now();
      SweptNone(c, table, requests, servers, fired, issued);
      Still(c, v);
      TableSize(c, table, requests, servers, fired, issued);
      var i := 0;
      while i < c.tableSize
        invariant i <= c.tableSize && Valid() && Now() == v && issued == old(issued)
        invariant AllTaken(requests) || forall j | 0 <= j < i :: !(table[j].status.Asking? && table[j].name == name)
      {
        if table[i].status.Asking? && table[i].name == name {
          var k := FindSlot();
          if k < c.maxRequests {
            if wanted {
              PutAsking(c, table, requests, servers, fired, issued, i, k);
              requests := requests[k := Wait(issued, i)];
              assert requests[k] == Wait(issued, i);
              issued := issued + 1;
            }
            return true;
          }
        }
        i := i + 1;
      }
      return false;
    }

    /** The first free request slot. */
    method FindSlot() returns (k: nat)
      requires Valid()
      ensures k <= c.maxRequests == |requests| && (k < c.maxRequests ==> requests[k].Free?)
      ensures forall j | 0 <= j < k :: requests[j].Wait?
    {
      hide Inv;
      TableSize(c, table, requests, servers, fired, issued);
      k := 0;
      while k < c.maxRequests && !requests[k].Free?
        invariant k <= c.maxRequests && forall j | 0 <= j < k :: requests[j].Wait?
      {
        k := k + 1;
      }
    }

    /** The first unused entry, or the answer that was asked for longest ago. An answer as old as
        256 requests counts as new. */
    method FindEntry() returns (i: nat)
      requires Valid()
      ensures i <= c.tableSize == |table|
      ensures i < c.tableSize ==> table[i].status.Unused? || (table[i].status.Done? && 0 < Age(seqno, table[i]))
      ensures i < c.tableSize && table[i].status.Done? ==>
        forall j | 0 <= j < |table| :: table[j].status.Asking? || (table[j].status.Done? && Age(seqno, table[j]) <= Age(seqno, table[i]))
      ensures i == c.tableSize ==> forall j | 0 <= j < |table| :: table[j].status.Asking? || (table[j].status.Done? && Age(seqno, table[j]) == 0)
    {
      hide Inv;
      TableSize(c, table, requests, servers, fired, issued);
      NoneNew(c, table, requests, servers, fired, issued);
      var lseq, lseqi: nat := 0, c.tableSize;
      i := 0;
      while i < c.tableSize && !table[i].status.Unused?
        invariant i <= c.tableSize && lseqi <= c.tableSize
        invariant forall j | 0 <= j < i :: !table[j].status.Unused? && (table[j].status.Done? ==> Age(seqno, table[j]) <= lseq)
        invariant lseqi < c.tableSize ==> lseqi < i && table[lseqi].status.Done? && Age(seqno, table[lseqi]) == lseq > 0
        invariant lseqi == c.tableSize ==> lseq == 0
      {
        if table[i].status.Done? && Age(seqno, table[i]) > lseq {
          lseq, lseqi := Age(seqno, table[i]), i;
        }
        i := i + 1;
      }
      if i == c.tableSize { i := lseqi; }
    }
  }

  /** How many requests ago an entry was taken, as far as an u8_t can tell. */
  function Age(seqno: nat, e: Entry): nat { (seqno - e.seqno) % 0x100 }

  /** After `k` requests an entry is `k` old, except that every 256 requests it counts as new. */
  lemma AgeCounts(e: Entry, k: nat)
    requires e.seqno < 0x100
    ensures Age((e.seqno + k) % 0x100, e) == k % 256
  {
    var n := e.seqno + k;
    assert n == n / 256 * 256 + n % 256;
    assert n % 256 - e.seqno == k - n / 256 * 256;
    ModShift(k, n / 256);
  }

  lemma ModShift(k: int, m: int)
    ensures (k - m * 256) % 256 == k % 256
  {
  }

  lemma NewEntry(c: Config, servers: seq<nat>, e: Entry, id: nat)
    requires e.status.New? && |servers| > 0
    ensures Ticked(c, servers, e, id) == Entry(if servers[0] == 0 then Unused else Asking, id, 0, 1, 0, e.ttl, e.seqno, e.name)
  {
  }

  /** Without a ticket no slot is in use. */
  lemma {:induction false} NoTicket(reqs: seq<Req>, n: nat)
    requires n <= |reqs| && PendingTo(reqs, n) == multiset{}
    ensures forall k | 0 <= k < n :: reqs[k].Free?
  {
    if n > 0 {
      assert PendingTo(reqs, n - 1) <= PendingTo(reqs, n) && Of(reqs[n - 1]) <= PendingTo(reqs, n);
      assert |Of(reqs[n - 1])| == 0;
      NoTicket(reqs, n - 1);
    }
  }

  lemma RoomForRequests(c: Config, table: seq<Entry>, reqs: seq<Req>, servers: seq<nat>, fired: multiset<nat>)
    requires Inv(c, table, reqs, servers, fired, 0) && c.maxRequests > 0
    ensures !AllTaken(reqs) && |table| == c.tableSize && |servers| == c.maxServers
  {
    assert fired + Pending(reqs) == multiset{};
    assert Pending(reqs) <= fired + Pending(reqs);
    NoTicket(reqs, |reqs|);
    assert reqs[0].Free?;
  }

  /** A table of two entries that refuses a request although one entry holds an answer that could be
      dropped: 256 requests after that answer was asked for, its age counts as 0. */
  method OldAnswerIsKept(c: Config) returns (s: Resolver, r: Result)
    requires ConfigOk(c) && c.tableSize == 2 && c.maxRequests > 0
    ensures s.Valid() && r.ErrMem? && exists j | 0 <= j < |s.table| :: s.table[j].status.Done?
  {
    hide Inv, Step, Ticked;
    var a;
    s, a := AnswerOne(c);
    ghost var e := s.table[a];
    s.SetServer(0, 0);
    for k := 0 to 254
      invariant s.Valid() && fresh(s) && s.c == c && s.issued == 0 && Half(s.table, a, e, Unused) && s.seqno == k + 1
      invariant |s.servers| > 0 && s.servers[0] == 0
    {
      AskOnce(s, a, e, "b");
    }
    s.SetServer(0, 1);
    AskOnce(s, a, e, "b");
    RoomForRequests(c, s.table, s.requests, s.servers, s.fired);
    assert s.AllBusy() by { NowBusy(s, a, e); }
    ghost var i;
    r, i := s.Enqueue("c", false);
    assert s.table[a].status.Done?;
  }

  lemma NowBusy(s: Resolver, a: nat, e: Entry)
    requires Half(s.table, a, e, Asking) && s.seqno == 0
    ensures s.AllBusy()
  {
    forall j | 0 <= j < |s.table| ensures s.table[j].status.Asking? || (s.table[j].status.Done? && Age(s.seqno, s.table[j]) == 0) {
      assert j == a || j == 1 - a;
    }
  }

  /** The entry that is not `a` is taken for `name`. Without a server it is given up at once. */
  method AskOnce(s: Resolver, a: nat, ghost e: Entry, name: string)
    requires s.Valid() && s.issued == 0 && s.c.maxRequests > 0 && Half(s.table, a, e, Unused) && |s.servers| > 0
    modifies s
    ensures s.Valid() && s.issued == 0 && s.servers == old(s.servers) && s.seqno == (old(s.seqno) + 1) % 0x100
    ensures Half(s.table, a, e, if s.servers[0] == 0 then Unused else Asking)
    ensures s.servers[0] != 0 ==> s.table[1 - a].name == name
  {
    hide Inv, Step;
    RoomForRequests(s.c, s.table, s.requests, s.servers, s.fired);
    ghost var i;
    var r;
    r, i := s.Enqueue(name, false);
    assert i == 1 - a;
  }

  /** Of two entries, `a` is `e` and the other one has a given status. */
  ghost predicate Half(table: seq<Entry>, a: nat, e: Entry, other: Status) {
    |table| == 2 && a < 2 && table[a] == e && table[1 - a].status == other && e.status.Done? && e.seqno == 0
  }

  /** One name is asked for and answered. */
  method AnswerOne(c: Config) returns (s: Resolver, a: nat)
    requires ConfigOk(c) && c.tableSize == 2 && c.maxRequests > 0
    ensures fresh(s) && s.Valid() && s.c == c && s.issued == 0 && s.seqno == 1 && |s.servers| == c.maxServers
    ensures a < |s.table| && Half(s.table, a, s.table[a], Unused)
  {
    hide Inv, Step;
    s := new Resolver(c);
    RoomForRequests(c, s.table, s.requests, s.servers, s.fired);
    s.SetServer(0, 1);
    assert s.table[0].status.Unused? && s.table[1].status.Unused?;
    var r;
    ghost var i;
    r, i := s.Enqueue("a", false);
    a := if s.table[0].status.Asking? then 0 else 1;
    assert a == i && s.table[1 - a].status.Unused? && s.table[a].status.Asking? && s.table[a].server == 0 && s.table[a].seqno == 0;
    ghost var k := s.Receive(Reply(s.table[a].txid, true, 1, 1, true, false, Address(c.maxTtl)));
  }

  lemma {:induction false} NothingPending(reqs: seq<Req>, n: nat)
    requires n <= |reqs| && forall k | 0 <= k < |reqs| :: reqs[k] == Free
    ensures PendingTo(reqs, n) == multiset{}
  {
    if n > 0 { NothingPending(reqs, n - 1); }
  }

  lemma FireOne(reqs: seq<Req>, k: nat, fired: multiset<nat>, issued: nat)
    requires k < |reqs| && fired + Pending(reqs) == Tickets(issued)
    ensures (fired + Of(reqs[k])) + Pending(reqs[k := Free]) == Tickets(issued)
  {
    hide PendingTo, Tickets;
    PendingUpdate(reqs, k, Free, |reqs|);
    Exchange(fired, Pending(reqs), Pending(reqs[k := Free]), Of(reqs[k]));
  }

  lemma Exchange(f: multiset<nat>, p: multiset<nat>, p': multiset<nat>, o: multiset<nat>)
    requires p' + o == p + multiset{}
    ensures (f + o) + p' == f + p
  {
    assert (f + o) + p' == f + (p' + o);
    assert p + multiset{} == p;
  }

  lemma OfTicket(q: Req)
    requires q.Wait?
    ensures q.ticket in Of(q) && Of(Free) == multiset{}
  {
  }

  /** The k-th number after `start`. */
  ghost function Nth(start: nat, k: nat): nat { (start + k) % 0x10000 }

  lemma NthNext(start: nat, n: nat)
    requires start < 0x10000
    ensures ((if n == 0 then start else Nth(start, n)) + 1) % 0x10000 == Nth(start, n + 1) < 0x10000
  {
  }

  ghost function Numbers(start: nat, n: nat): set<nat> { if n == 0 then {} else Numbers(start, n - 1) + {Nth(start, n)} }

  lemma {:induction false} NumbersDiffer(start: nat, n: nat, m: nat)
    requires n < m < n + 0x10000 && m <= 0xffff
    ensures Nth(start, m) !in Numbers(start, n) && |Numbers(start, n)| == n
    decreases n
  {
    if n > 0 {
      NumbersDiffer(start, n - 1, m);
      NumbersDiffer(start, n - 1, n);
      assert Nth(start, n) != Nth(start, m);
    }
  }

  ghost predicate UsedId(table: seq<Entry>, n: nat, x: nat) { exists i | 0 <= i < n && i < |table| :: table[i].txid == x }

  /** The first `n` numbers after `start` are in use. */
  ghost predicate Tried(table: seq<Entry>, start: nat, n: nat) {
    forall x | x in Numbers(start, n) :: UsedId(table, |table|, x)
  }

  lemma TriedNone(table: seq<Entry>, start: nat)
    ensures Tried(table, start, 0)
  {
  }

  lemma TriedMore(table: seq<Entry>, start: nat, n: nat, i: nat)
    requires |table| <= 255 && Tried(table, start, n) && n <= 255 && i < |table| && table[i].txid == Nth(start, n + 1)
    ensures Tried(table, start, n + 1) && n + 1 <= 255
  {
    assert UsedId(table, |table|, Nth(start, n + 1));
    hide UsedId, Nth;
    NumbersDiffer(start, n + 1, n + 2);
    IdsBound(table, Numbers(start, n + 1), |table|);
  }

  /** The first n entries have at most n ids. */
  lemma {:induction false} IdsBound(table: seq<Entry>, s: set<nat>, n: nat)
    requires n <= |table| && forall x | x in s :: UsedId(table, n, x)
    ensures |s| <= n
  {
    if n == 0 {
      forall x ensures !UsedId(table, 0, x) {}
      assert s == {};
    } else {
      var y := table[n - 1].txid;
      forall x | x in s - {y} ensures UsedId(table, n - 1, x) {
        assert UsedId(table, n, x);
      }
      IdsBound(table, s - {y}, n - 1);
      assert s <= (s - {y}) + {y};
    }
  }

  lemma FirstServer(c: Config, table: seq<Entry>, reqs: seq<Req>, servers: seq<nat>, fired: multiset<nat>, issued: nat, i: nat)
    requires InvBut(c, table, reqs, servers, fired, issued, i) && AskingOk(c, table[i])
    ensures i < |table| == c.tableSize && table[i].server < |servers|
    ensures forall j | 0 <= j < |table| && j != i && table[j].status.Asking? :: EntryOk(c, table[j])
  {
  }

  lemma BetweenFacts(c: Config, table: seq<Entry>, reqs: seq<Req>, servers: seq<nat>, fired: multiset<nat>, issued: nat, i: nat)
    requires InvBut(c, table, reqs, servers, fired, issued, i)
    ensures i < |table| == c.tableSize <= 255 && |servers| == c.maxServers && ConfigOk(c)
  {
  }

  lemma AskFirst(c: Config, e: Entry, id: nat)
    requires ConfigOk(c)
    ensures AskingOk(c, e.(txid := id, status := Asking, server := 0, tmr := 1, retries := 0))
  {
  }

  /** Every way on for an asking entry whose timer is counted down. */
  lemma AskAgain(c: Config, table: seq<Entry>, reqs: seq<Req>, servers: seq<nat>, fired: multiset<nat>, issued: nat, i: nat)
    requires Inv(c, table, reqs, servers, fired, issued) && i < |table| && table[i].status.Asking?
    ensures AskingOk(c, table[i]) && table[i].tmr >= 1 && table[i].retries < c.maxRetries
    ensures var e := table[i];
            && (e.tmr > 1 ==> AskingOk(c, e.(tmr := e.tmr - 1)) && TicksLeft(c, e.(tmr := e.tmr - 1)) + 1 == TicksLeft(c, e))
            && (e.tmr == 1 && e.retries + 1 < c.maxRetries ==>
                  && AskingOk(c, e.(tmr := e.retries + 1, retries := e.retries + 1))
                  && TicksLeft(c, e.(tmr := e.retries + 1, retries := e.retries + 1)) + 1 == TicksLeft(c, e))
            && (e.tmr == 1 && e.retries + 1 == c.maxRetries && e.server + 1 < c.maxServers ==>
                  && AskingOk(c, e.(tmr := 1, retries := 0, server := e.server + 1))
                  && TicksLeft(c, e.(tmr := 1, retries := 0, server := e.server + 1)) + 1 == TicksLeft(c, e))
    ensures forall j | 0 <= j < |table| && j != i && table[j].status.Asking? :: table[j].txid != table[i].txid
  {
    assert EntryOk(c, table[i]);
    hide TicksLeft;
    TickDown(c, table[i]);
  }

  /** An entry without requests becomes or stays idle. */
  lemma Retire(c: Config, table: seq<Entry>, reqs: seq<Req>, servers: seq<nat>, fired: multiset<nat>, issued: nat, i: nat, e: Entry)
    requires InvBut(c, table, reqs, servers, fired, issued, i) && NoneFor(reqs, i) && (e.status.Unused? || e.status.Done?)
    ensures Inv(c, table[i := e], reqs, servers, fired, issued)
  {
    hide InvBut, Inv;
    SetEntry(c, table, reqs, servers, fired, issued, i, e);
    BetweenFacts(c, table, reqs, servers, fired, issued, i);
    Back(c, table[i := e], reqs, servers, fired, issued, i);
  }

  lemma SweptNone(c: Config, table: seq<Entry>, reqs: seq<Req>, servers: seq<nat>, fired: multiset<nat>, issued: nat)
    requires Inv(c, table, reqs, servers, fired, issued)
    ensures Swept(c, View(table, reqs, fired), View(table, reqs, fired), 0)
  {
    hide TicksLeft;
    forall k | 0 <= k < |reqs| ensures Moved(c, table, reqs[k], table, reqs[k], fired, 0) {
      if reqs[k].Wait? { assert ServedAt(table, reqs[k].entry, |table|); }
    }
  }

  lemma InOrder(c: Config, table: seq<Entry>, reqs: seq<Req>, servers: seq<nat>, fired: multiset<nat>, issued: nat, i: nat)
    requires Inv(c, table, reqs, servers, fired, issued) && i < c.tableSize
    ensures |table| == c.tableSize && EntryOk(c, table[i]) && Served(table, reqs, |table|)
  {
  }

  lemma SweptAll(c: Config, v: View, w: View, table: seq<Entry>, reqs: seq<Req>, servers: seq<nat>, fired: multiset<nat>, issued: nat)
    requires Inv(c, table, reqs, servers, fired, issued) && w == View(table, reqs, fired) && Swept(c, v, w, c.tableSize)
    ensures Step(c, v, w, 1)
  {
    hide TicksLeft;
    forall k | 0 <= k < |v.reqs| ensures Moved(c, v.table, v.reqs[k], w.table, w.reqs[k], w.fired, 1) {
      var n := if v.reqs[k].Wait? && v.reqs[k].entry < c.tableSize then 1 else 0;
      assert Moved(c, v.table, v.reqs[k], w.table, w.reqs[k], w.fired, n);
    }
  }

  lemma TableSize(c: Config, table: seq<Entry>, reqs: seq<Req>, servers: seq<nat>, fired: multiset<nat>, issued: nat)
    requires Inv(c, table, reqs, servers, fired, issued)
    ensures |table| == c.tableSize && |servers| == c.maxServers && |reqs| == c.maxRequests
    ensures forall i | 0 <= i < |table| && table[i].status.Asking? :: table[i].server < |servers|
    ensures c.maxTtl > 0 && c.maxServers > 0
  {
    forall i | 0 <= i < |table| && table[i].status.Asking? ensures table[i].server < |servers| {
      assert EntryOk(c, table[i]);
    }
  }

  lemma Still(c: Config, v: View)
    requires Swept(c, v, v, 0)
    ensures Step(c, v, v, 0)
  {
    hide TicksLeft;
    forall k | 0 <= k < |v.reqs| ensures Moved(c, v.table, v.reqs[k], v.table, v.reqs[k], v.fired, 0) {
      assert Moved(c, v.table, v.reqs[k], v.table, v.reqs[k], v.fired, if v.reqs[k].Wait? && v.reqs[k].entry < 0 then 1 else 0);
    }
  }

  lemma NoneNew(c: Config, table: seq<Entry>, reqs: seq<Req>, servers: seq<nat>, fired: multiset<nat>, issued: nat)
    requires Inv(c, table, reqs, servers, fired, issued)
    ensures forall i | 0 <= i < |table| :: !table[i].status.New?
  {
    forall i | 0 <= i < |table| ensures !table[i].status.New? { assert EntryOk(c, table[i]); }
  }

  /** A new ticket in a free slot. */
  lemma PutPending(reqs: seq<Req>, k: nat, fired: multiset<nat>, issued: nat, i: nat)
    requires k < |reqs| && reqs[k].Free? && fired + Pending(reqs) == Tickets(issued)
    ensures fired + Pending(reqs[k := Wait(issued, i)]) == Tickets(issued + 1)
  {
    PendingUpdate(reqs, k, Wait(issued, i), |reqs|);
    var p, p' := Pending(reqs), Pending(reqs[k := Wait(issued, i)]);
    assert p' + multiset{} == p';
    assert fired + (p + multiset{issued}) == (fired + p) + multiset{issued};
  }

  lemma PutServed(table: seq<Entry>, reqs: seq<Req>, k: nat, q: Req, but: nat)
    requires Served(table, reqs, but) && k < |reqs| && q.Wait? && ServedAt(table, q.entry, but)
    ensures Served(table, reqs[k := q], but)
  {
    hide ServedAt;
  }

  lemma PutBetween(c: Config, table: seq<Entry>, reqs: seq<Req>, servers: seq<nat>, fired: multiset<nat>, issued: nat, i: nat, k: nat)
    requires InvBut(c, table, reqs, servers, fired, issued, i) && k < |reqs| && reqs[k].Free?
    ensures InvBut(c, table, reqs[k := Wait(issued, i)], servers, fired, issued + 1, i)
  {
    PutServed(table, reqs, k, Wait(issued, i), i);
    hide Served, Distinct, EntryOk, Pending, Tickets;
    PutPending(reqs, k, fired, issued, i);
  }

  lemma PutAsking(c: Config, table: seq<Entry>, reqs: seq<Req>, servers: seq<nat>, fired: multiset<nat>, issued: nat, i: nat, k: nat)
    requires Inv(c, table, reqs, servers, fired, issued) && k < |reqs| && reqs[k].Free? && i < |table| && table[i].status.Asking?
    ensures Inv(c, table, reqs[k := Wait(issued, i)], servers, fired, issued + 1)
    ensures Step(c, View(table, reqs, fired), View(table, reqs[k := Wait(issued, i)], fired), 0)
  {
    PutServed(table, reqs, k, Wait(issued, i), |table|);
    PutPending(reqs, k, fired, issued, i);
    hide TicksLeft, Pending, Tickets, Distinct;
    var reqs' := reqs[k := Wait(issued, i)];
    forall j | 0 <= j < |reqs| ensures Moved(c, table, reqs[j], table, reqs'[j], fired, 0) {
      if reqs[j].Wait? { assert ServedAt(table, reqs[j].entry, |table|); }
    }
  }

  /** Taking an idle entry moves no request that waited before. */
  lemma EnqueueStep(c: Config, v: View, reqs1: seq<Req>, w: View, i: nat, k: nat)
    requires Served(v.table, v.reqs, |v.table|) && NoneFor(v.reqs, i) && i < |v.table| && k < |v.reqs| && v.reqs[k].Free?
    requires |reqs1| == |v.reqs| && (forall j | 0 <= j < |v.reqs| && j != k :: reqs1[j] == v.reqs[j])
    requires |w.table| == |v.table| && (forall j | 0 <= j < |v.table| && j != i :: w.table[j] == v.table[j])
    requires w.reqs == reqs1 || Flushed(reqs1, w.reqs, w.fired, i)
    requires v.fired <= w.fired
    ensures Step(c, v, w, 0)
  {
    hide TicksLeft;
    forall j | 0 <= j < |v.reqs| ensures Moved(c, v.table, v.reqs[j], w.table, w.reqs[j], w.fired, 0) {
      if v.reqs[j].Wait? {
        assert ServedAt(v.table, v.reqs[j].entry, |v.table|);
        assert !IsFor(v.reqs[j], i);
        if w.reqs != reqs1 { assert FlushedAt(reqs1[j], w.reqs[j], w.fired, i); }
      }
    }
  }

  lemma AnyId(c: Config, servers: seq<nat>, e: Entry, id: nat)
    requires !e.status.New?
    ensures Ticked(c, servers, e, id) == Ticked(c, servers, e, 0)
  {
  }

  lemma Taken(reqs: seq<Req>, k: nat)
    requires k <= |reqs| && (k < |reqs| ==> reqs[k].Free?) && forall j | 0 <= j < k :: reqs[j].Wait?
    ensures AllTaken(reqs) <==> k == |reqs|
  {
  }

  /** The request just put in waits for its entry, or has been called back at once. */
  lemma NewWaits(c: Config, servers: seq<nat>, e: Entry, id: nat, table: seq<Entry>, reqs1: seq<Req>, reqs: seq<Req>,
                                    fired: multiset<nat>, i: nat, k: nat, t: nat, name: string)
    requires k < |reqs1| && reqs1[k] == Wait(t, i) && i < |table| && e.status.New? && e.name == name
    requires table[i] == Ticked(c, servers, e, id)
    requires reqs == reqs1 || Flushed(reqs1, reqs, fired, i)
    ensures t in fired || WaitsFor(table, reqs, t, name)
  {
    if reqs != reqs1 { assert FlushedAt(reqs1[k], reqs[k], fired, i); } else { assert reqs[k] == Wait(t, i); }
  }
}
