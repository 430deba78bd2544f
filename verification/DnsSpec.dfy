/** The state of the DNS resolver (src/lib/liblwip/core/dns.c; RFC 1035): its tables, what every step
    keeps, and the time every request has left.

    The resolver is off in the shipped options. Modelled are several requests for one entry
    (LWIP_DNS_SECURE_NO_MULTIPLE_OUTSTANDING) and transaction ids from a counter. */
module DnsSpec {

  /** DNS_TABLE_SIZE, DNS_MAX_REQUESTS, DNS_MAX_SERVERS, DNS_MAX_RETRIES, DNS_MAX_TTL */
  datatype Config = Config(tableSize: nat, maxRequests: nat, maxServers: nat, maxRetries: nat, maxTtl: nat)

  ghost predicate ConfigOk(c: Config) {
    && 0 < c.tableSize <= 255 && c.maxRequests <= 255 && 0 < c.maxServers <= 255 && 0 < c.maxRetries <= 255
    && 0 < c.maxTtl <= 0x7FFFFFFF
  }

  datatype Status = Unused | New | Asking | Done

  /** struct dns_table_entry. Names are taken in lower case, as they are compared. */
  datatype Entry = Entry(status: Status, txid: nat, server: nat, tmr: nat, retries: nat, ttl: nat, seqno: nat, name: string)

  /** struct dns_req_entry: a slot with a callback to be made, known by its ticket. */
  datatype Req = Free | Wait(ticket: nat, entry: nat)

  // ---------------------------------------------------------------- time left

  /** Ticks for the retries after `retries`: the k-th waits k ticks. */
  function RetryTicks(c: Config, retries: nat): nat
    decreases c.maxRetries - retries
  {
    if retries + 1 >= c.maxRetries then 0 else retries + 1 + RetryTicks(c, retries + 1)
  }

  /** Ticks one server is given. */
  function ServerTicks(c: Config): nat { 1 + RetryTicks(c, 0) }

  function Times(n: nat, x: nat): nat { if n == 0 then 0 else x + Times(n - 1, x) }

  /** Ticks an entry has left to ask: by servers left, then retries left, then its timer. */
  function TicksLeft(c: Config, e: Entry): nat {
    e.tmr + RetryTicks(c, e.retries) + if e.server < c.maxServers then Times(c.maxServers - 1 - e.server, ServerTicks(c)) else 0
  }

  /** The longest any request waits. */
  function Longest(c: Config): nat { Times(c.maxServers, ServerTicks(c)) }

  // ---------------------------------------------------------------- what every step keeps

  /** An asking entry has a timer that runs, a retry left and a server in range. */
  predicate EntryOk(c: Config, e: Entry) {
    !e.status.New? && (e.status.Asking? ==> AskingOk(c, e))
  }

  predicate AskingOk(c: Config, e: Entry) {
    1 <= e.tmr <= (if e.retries == 0 then 1 else e.retries) && e.retries < c.maxRetries && e.server < c.maxServers
  }

  ghost predicate TableOk(c: Config, table: seq<Entry>) {
    |table| == c.tableSize && forall i | 0 <= i < |table| :: EntryOk(c, table[i])
  }

  /** The transaction ids of asking entries differ. */
  ghost predicate Distinct(table: seq<Entry>) {
    forall i, j | 0 <= i < j < |table| && table[i].status.Asking? && table[j].status.Asking? :: table[i].txid != table[j].txid
  }

  /** Every waiting request belongs to an entry that is asking, unless to `but`. */
  ghost predicate Served(table: seq<Entry>, reqs: seq<Req>, but: nat) {
    forall k | 0 <= k < |reqs| && reqs[k].Wait? :: ServedAt(table, reqs[k].entry, but)
  }

  ghost predicate ServedAt(table: seq<Entry>, i: nat, but: nat) {
    i < |table| && (i == but || table[i].status.Asking?)
  }

  ghost function Of(q: Req): multiset<nat> { if q.Wait? then multiset{q.ticket} else multiset{} }

  /** The tickets in the first `n` slots. */
  ghost function PendingTo(reqs: seq<Req>, n: nat): multiset<nat>
    requires n <= |reqs|
  {
    if n == 0 then multiset{} else PendingTo(reqs, n - 1) + Of(reqs[n - 1])
  }

  ghost function Pending(reqs: seq<Req>): multiset<nat> { PendingTo(reqs, |reqs|) }

  /** The tickets 0 .. n-1, once each. */
  ghost function Tickets(n: nat): multiset<nat> { if n == 0 then multiset{} else Tickets(n - 1) + multiset{n - 1} }

  ghost predicate Inv(c: Config, table: seq<Entry>, reqs: seq<Req>, servers: seq<nat>, fired: multiset<nat>, issued: nat) {
    && ConfigOk(c) && TableOk(c, table) && Distinct(table) && |reqs| == c.maxRequests && |servers| == c.maxServers
    && Served(table, reqs, |table|)
    && fired + Pending(reqs) == Tickets(issued)
  }

  lemma {:induction false} TicketCount(n: nat, t: nat)
    ensures Tickets(n)[t] == if t < n then 1 else 0
  {
    if n > 0 { TicketCount(n - 1, t); }
  }

  /** Every ticket is waiting in exactly one slot or has been called back exactly once. */
  lemma ExactlyOnce(c: Config, table: seq<Entry>, reqs: seq<Req>, servers: seq<nat>, fired: multiset<nat>, issued: nat, t: nat)
    requires Inv(c, table, reqs, servers, fired, issued)
    ensures fired[t] + Pending(reqs)[t] == if t < issued then 1 else 0
  {
    TicketCount(issued, t);
  }

  // ---------------------------------------------------------------- changes to the tables

  lemma {:induction false} PendingFrame(reqs: seq<Req>, reqs': seq<Req>, n: nat)
    requires n <= |reqs| && n <= |reqs'| && forall k | 0 <= k < n :: reqs'[k] == reqs[k]
    ensures PendingTo(reqs', n) == PendingTo(reqs, n)
  {
    if n > 0 { PendingFrame(reqs, reqs', n - 1); }
  }

  /** Taking a request out of its slot, or putting one in. */
  lemma {:induction false} PendingUpdate(reqs: seq<Req>, k: nat, q: Req, n: nat)
    requires k < n <= |reqs|
    ensures PendingTo(reqs[k := q], n) + Of(reqs[k]) == PendingTo(reqs, n) + Of(q)
  {
    hide Of;
    if k == n - 1 {
      PendingFrame(reqs, reqs[k := q], n - 1);
      LastSwap(PendingTo(reqs, n - 1), Of(reqs[k]), Of(q));
    } else {
      PendingUpdate(reqs, k, q, n - 1);
      Shuffle(PendingTo(reqs[k := q], n - 1), PendingTo(reqs, n - 1), Of(reqs[n - 1]), Of(reqs[k]), Of(q));
    }
  }

  lemma LastSwap(a: multiset<nat>, x: multiset<nat>, y: multiset<nat>)
    ensures (a + y) + x == (a + x) + y
  {
  }

  lemma Shuffle(a: multiset<nat>, b: multiset<nat>, o: multiset<nat>, x: multiset<nat>, y: multiset<nat>)
    requires a + x == b + y
    ensures (a + o) + x == (b + o) + y
  {
    assert (a + o) + x == (a + x) + o;
    assert (b + o) + y == (b + y) + o;
  }

  // ---------------------------------------------------------------- progress

  /** A request that waited still waits for the same entry, with no more ticks left and one fewer
      after a tick, or its callback was made. */
  ghost predicate Moved(c: Config, table: seq<Entry>, q: Req, table': seq<Entry>, q': Req, fired': multiset<nat>, ticks: nat) {
    q.Wait? ==>
      || (q' == q && q.entry < |table| && q.entry < |table'| && TicksLeft(c, table'[q.entry]) + ticks <= TicksLeft(c, table[q.entry]))
      || q.ticket in fired'
  }

  /** A snapshot of the resolver. */
  datatype View = View(table: seq<Entry>, reqs: seq<Req>, fired: multiset<nat>)

  ghost predicate Step(c: Config, v: View, w: View, ticks: nat) {
    && v.fired <= w.fired && |w.reqs| == |v.reqs|
    && forall k | 0 <= k < |v.reqs| :: Moved(c, v.table, v.reqs[k], w.table, w.reqs[k], w.fired, ticks)
  }

  /** Snapshots of a run, with the ticks of each step: 1 for dns_tmr, 0 for every other call. */
  datatype Run = Start(view: View) | Then(before: Run, view: View, ticks: nat)

  ghost predicate IsRun(c: Config, r: Run) {
    match r
    case Start(v) => true
    case Then(b, v, n) => IsRun(c, b) && Step(c, b.view, v, n)
  }

  function First(r: Run): View { if r.Start? then r.view else First(r.before) }

  function Ticks(r: Run): nat { if r.Start? then 0 else Ticks(r.before) + r.ticks }

  /** A request waiting at the start of a run is called back before the ticks of its entry have
      run out, whatever else happens. */
  lemma {:induction false} CalledInTime(c: Config, r: Run, k: nat)
    requires IsRun(c, r) && k < |First(r).reqs| && First(r).reqs[k].Wait?
    requires First(r).reqs[k].entry < |First(r).table|
    ensures k < |r.view.reqs|
    ensures var q := First(r).reqs[k];
            || (r.view.reqs[k] == q && q.entry < |r.view.table|
                && TicksLeft(c, r.view.table[q.entry]) + Ticks(r) <= TicksLeft(c, First(r).table[q.entry]))
            || q.ticket in r.view.fired
  {
    if r.Then? {
      CalledInTime(c, r.before, k);
      assert Moved(c, r.before.view.table, r.before.view.reqs[k], r.view.table, r.view.reqs[k], r.view.fired, r.ticks);
    }
  }

  /** No asking entry has more time left than all servers with all retries take. */
  lemma LongestWait(c: Config, e: Entry)
    requires ConfigOk(c) && AskingOk(c, e)
    ensures 1 <= TicksLeft(c, e) <= Longest(c)
  {
    RetryBound(c, e.retries);
    TimesBound(c.maxServers - 1 - e.server, c.maxServers - 1, ServerTicks(c));
  }

  /** Every request is called back within a bounded number of ticks. */
  lemma CalledWithinLongest(c: Config, r: Run, k: nat)
    requires ConfigOk(c) && IsRun(c, r) && Ticks(r) >= Longest(c) && k < |First(r).reqs| && First(r).reqs[k].Wait?
    requires TableOk(c, First(r).table) && Served(First(r).table, First(r).reqs, |First(r).table|)
    requires TableOk(c, r.view.table) && Served(r.view.table, r.view.reqs, |r.view.table|)
    ensures First(r).reqs[k].ticket in r.view.fired
  {
    var q := First(r).reqs[k];
    assert ServedAt(First(r).table, q.entry, |First(r).table|);
    assert EntryOk(c, First(r).table[q.entry]);
    LongestWait(c, First(r).table[q.entry]);
    CalledInTime(c, r, k);
    if r.view.reqs[k] == q {
      assert ServedAt(r.view.table, q.entry, |r.view.table|);
      assert EntryOk(c, r.view.table[q.entry]);
      LongestWait(c, r.view.table[q.entry]);
    }
  }

  lemma RetryBound(c: Config, k: nat)
    ensures (if k == 0 then 1 else k) + RetryTicks(c, k) <= 1 + RetryTicks(c, 0) || k >= c.maxRetries
  {
    if 0 < k < c.maxRetries { RetrySum(c, k); }
  }

  lemma {:induction false} RetrySum(c: Config, k: nat)
    requires 0 < k < c.maxRetries
    ensures k + RetryTicks(c, k) <= RetryTicks(c, 0)
  {
    if k > 1 { RetrySum(c, k - 1); }
  }

  lemma {:induction false} TimesBound(m: nat, n: nat, x: nat)
    requires m <= n
    ensures Times(m, x) <= Times(n, x)
  {
    if m > 0 { TimesBound(m - 1, n - 1, x); }
  }

  // ---------------------------------------------------------------- single steps

  /** What is called back and what stays when the requests of entry `i` are called back. */
  ghost predicate Flushed(reqs: seq<Req>, reqs': seq<Req>, fired': multiset<nat>, i: nat) {
    |reqs'| == |reqs| && forall k | 0 <= k < |reqs| :: FlushedAt(reqs[k], reqs'[k], fired', i)
  }

  ghost predicate FlushedAt(q: Req, q': Req, fired': multiset<nat>, i: nat) {
    if q.Wait? && q.entry == i then q' == Free && q.ticket in fired' else q' == q
  }

  /** The effect of one dns_check_entry on a table in order: entry `i` is one tick nearer to its
      end, or its requests have been called back. */
  ghost predicate Checked(c: Config, v: View, w: View, i: nat, ticks: nat) {
    && |w.table| == |v.table| && |w.reqs| == |v.reqs| && i < |v.table| && v.fired <= w.fired
    && (forall j | 0 <= j < |v.table| && j != i :: w.table[j] == v.table[j])
    && (w.reqs == v.reqs || Flushed(v.reqs, w.reqs, w.fired, i))
    && (w.table[i].status.Asking? && v.table[i].status.Asking? ==> TicksLeft(c, w.table[i]) + ticks <= TicksLeft(c, v.table[i]))
  }

  lemma CheckedIsStep(c: Config, v: View, w: View, i: nat)
    requires Checked(c, v, w, i, 0) && Served(v.table, v.reqs, |v.table|) && Served(w.table, w.reqs, |w.table|)
    ensures Step(c, v, w, 0)
  {
    forall k | 0 <= k < |v.reqs| ensures Moved(c, v.table, v.reqs[k], w.table, w.reqs[k], w.fired, 0) {
      CheckedMoved(c, v, w, i, 0, k);
    }
  }

  lemma CheckedMoved(c: Config, v: View, w: View, i: nat, ticks: nat, k: nat)
    requires Checked(c, v, w, i, ticks) && Served(v.table, v.reqs, |v.table|) && Served(w.table, w.reqs, |w.table|)
    requires k < |v.reqs|
    ensures var n := if v.reqs[k].Wait? && v.reqs[k].entry == i then ticks else 0;
            Moved(c, v.table, v.reqs[k], w.table, w.reqs[k], w.fired, n)
  {
    hide TicksLeft;
    var q := v.reqs[k];
    if q.Wait? {
      assert ServedAt(v.table, q.entry, |v.table|);
      if w.reqs == v.reqs {
        assert w.reqs[k] == q;
        assert ServedAt(w.table, q.entry, |w.table|);
      } else {
        assert FlushedAt(q, w.reqs[k], w.fired, i);
      }
    }
  }

  /** dns_check_entries after `n` entries: the requests of these are one tick further. */
  ghost predicate Swept(c: Config, v: View, w: View, n: nat) {
    && |w.table| == |v.table| && |w.reqs| == |v.reqs| && v.fired <= w.fired
    && (forall j | n <= j < |v.table| :: w.table[j] == v.table[j])
    && forall k | 0 <= k < |v.reqs| :: Moved(c, v.table, v.reqs[k], w.table, w.reqs[k], w.fired, if v.reqs[k].Wait? && v.reqs[k].entry < n then 1 else 0)
  }

  lemma SweptMore(c: Config, v: View, w: View, x: View, n: nat)
    requires Swept(c, v, w, n) && Checked(c, w, x, n, 1)
    requires Served(w.table, w.reqs, |w.table|) && Served(x.table, x.reqs, |x.table|)
    ensures Swept(c, v, x, n + 1)
  {
    hide TicksLeft;
    forall k | 0 <= k < |v.reqs|
      ensures Moved(c, v.table, v.reqs[k], x.table, x.reqs[k], x.fired, if v.reqs[k].Wait? && v.reqs[k].entry < n + 1 then 1 else 0)
    {
      assert Moved(c, v.table, v.reqs[k], w.table, w.reqs[k], w.fired, if v.reqs[k].Wait? && v.reqs[k].entry < n then 1 else 0);
      CheckedMoved(c, w, x, n, 1, k);
    }
  }

  // ---------------------------------------------------------------- what a tick does to an entry

  /** dns_send: an entry whose server is not configured any more ends. */
  function Asked(servers: seq<nat>, e: Entry): Entry {
    if e.server < |servers| && servers[e.server] != 0 then e else e.(status := Unused)
  }

  function Backup(servers: seq<nat>, e: Entry): bool { e.server + 1 < |servers| && servers[e.server + 1] != 0 }

  /** An entry after dns_check_entry; `id` is the id that a new entry gets. */
  function Ticked(c: Config, servers: seq<nat>, e: Entry, id: nat): Entry {
    match e.status
    case New => Asked(servers, e.(txid := id, status := Asking, server := 0, tmr := 1, retries := 0))
    case Asking =>
      if e.tmr > 1 then e.(tmr := e.tmr - 1)
      else if e.retries + 1 != c.maxRetries then Asked(servers, e.(tmr := e.retries + 1, retries := e.retries + 1))
      else if Backup(servers, e) then Asked(servers, e.(tmr := 1, retries := 0, server := e.server + 1))
      else e.(tmr := 0, retries := c.maxRetries, status := Unused)
    case Done => if e.ttl <= 1 then e.(ttl := 0, status := Unused) else e.(ttl := e.ttl - 1)
    case Unused => e
  }

  /** An entry after `k` ticks without an answer. */
  function Silent(c: Config, servers: seq<nat>, e: Entry, k: nat): Entry
    decreases k
  {
    if k == 0 then e else Silent(c, servers, Ticked(c, servers, e, 0), k - 1)
  }

  /** With all servers configured and silent, an entry asks for exactly the ticks it has left. */
  lemma {:induction false} AsksToTheEnd(c: Config, servers: seq<nat>, e: Entry, k: nat)
    requires ConfigOk(c) && e.status.Asking? && AskingOk(c, e) && |servers| == c.maxServers && forall j | 0 <= j < |servers| :: servers[j] != 0
    ensures k < TicksLeft(c, e) ==> Silent(c, servers, e, k).status.Asking?
    ensures k == TicksLeft(c, e) ==> Silent(c, servers, e, k).status.Unused?
    decreases k
  {
    LongestWait(c, e);
    if k > 0 {
      var f := Ticked(c, servers, e, 0);
      LastTick(c, servers, e);
      if f.status.Asking? {
        TickDown(c, e);
        AsksToTheEnd(c, servers, f, k - 1);
      }
    }
  }

  /** An answer that may be kept for `ttl` ticks is kept for exactly these. */
  lemma {:induction false} AnswerLives(c: Config, servers: seq<nat>, e: Entry, k: nat)
    requires e.status.Done? && e.ttl > 0
    ensures k < e.ttl ==> Silent(c, servers, e, k) == e.(ttl := e.ttl - k)
    ensures k >= e.ttl ==> Silent(c, servers, e, k).status.Unused?
    decreases k
  {
    if k > 0 {
      if e.ttl == 1 {
        StaysUnused(c, servers, Ticked(c, servers, e, 0), k - 1);
      } else {
        AnswerLives(c, servers, e.(ttl := e.ttl - 1), k - 1);
      }
    }
  }

  lemma {:induction false} StaysUnused(c: Config, servers: seq<nat>, e: Entry, k: nat)
    requires e.status.Unused?
    ensures Silent(c, servers, e, k) == e
    decreases k
  {
    if k > 0 { StaysUnused(c, servers, e, k - 1); }
  }

  /** The ticks before retry `r`: it waits one tick for the first, then one more each time. */
  function Before(r: nat): nat { if r == 0 then 0 else Before(r - 1) + if r == 1 then 1 else r - 1 }

  lemma {:induction false} SilentMore(c: Config, servers: seq<nat>, e: Entry, j: nat, k: nat)
    ensures Silent(c, servers, e, j + k) == Silent(c, servers, Silent(c, servers, e, j), k)
    decreases j
  {
    if j > 0 { SilentMore(c, servers, Ticked(c, servers, e, 0), j - 1, k); }
  }

  /** While its timer runs, nothing else about an entry changes. */
  lemma {:induction false} WaitsOut(c: Config, servers: seq<nat>, e: Entry, k: nat)
    requires e.status.Asking? && k < e.tmr
    ensures Silent(c, servers, e, k) == e.(tmr := e.tmr - k)
    decreases k
  {
    if k > 0 { WaitsOut(c, servers, e.(tmr := e.tmr - 1), k - 1); }
  }

  /** When an entry asks: with a configured server that keeps silent, retry `r` goes out after
      Before(r) ticks, to the same server. */
  lemma {:induction false} RetriesOnTime(c: Config, servers: seq<nat>, e: Entry, r: nat)
    requires ConfigOk(c) && e.status.Asking? && e.tmr == 1 && e.retries == 0 && r < c.maxRetries
    requires e.server < |servers| && servers[e.server] != 0
    ensures Silent(c, servers, e, Before(r)) == e.(retries := r, tmr := if r == 0 then 1 else r)
    decreases r
  {
    if r > 0 {
      var f := e.(retries := r - 1, tmr := if r == 1 then 1 else r - 1);
      RetriesOnTime(c, servers, e, r - 1);
      SilentMore(c, servers, e, Before(r - 1), f.tmr);
      OneMoreRetry(c, servers, f);
    }
  }

  lemma OneMoreRetry(c: Config, servers: seq<nat>, f: Entry)
    requires f.status.Asking? && f.tmr > 0 && f.retries + 1 < c.maxRetries && f.server < |servers| && servers[f.server] != 0
    ensures Silent(c, servers, f, f.tmr) == f.(retries := f.retries + 1, tmr := f.retries + 1)
  {
    hide Silent, Ticked;
    WaitsOut(c, servers, f, f.tmr - 1);
    SilentMore(c, servers, f, f.tmr - 1, 1);
    LastOfTimer(c, servers, f.(tmr := 1));
  }

  lemma LastOfTimer(c: Config, servers: seq<nat>, f: Entry)
    requires f.status.Asking? && f.tmr == 1 && f.retries + 1 < c.maxRetries && f.server < |servers| && servers[f.server] != 0
    ensures Silent(c, servers, f, 1) == f.(retries := f.retries + 1, tmr := f.retries + 1)
  {
    assert Silent(c, servers, f, 1) == Silent(c, servers, Ticked(c, servers, f, 0), 0);
  }

  lemma OneMore(r: nat)
    ensures Before(r + 1) == Before(r) + if r == 0 then 1 else r
  {
  }

  /** After the last retry of a silent server the next one is asked from the start if there is one,
      and the entry ends otherwise. */
  lemma ServerGivenUp(c: Config, servers: seq<nat>, e: Entry)
    requires ConfigOk(c) && e.status.Asking? && e.tmr == 1 && e.retries == 0 && e.server < |servers| && servers[e.server] != 0
    ensures var f := Silent(c, servers, e, Before(c.maxRetries));
            if e.server + 1 < |servers| && servers[e.server + 1] != 0 then f == e.(server := e.server + 1)
            else f.status.Unused? && f.server == e.server && f.name == e.name
  {
    hide Silent, Ticked, Before, Asked, Backup;
    var r := c.maxRetries - 1;
    var g := e.(retries := r, tmr := if r == 0 then 1 else r);
    OneMore(r);
    RetriesOnTime(c, servers, e, r);
    SilentMore(c, servers, e, Before(r), g.tmr);
    LastRetry(c, servers, g);
  }

  lemma LastRetry(c: Config, servers: seq<nat>, g: Entry)
    requires g.status.Asking? && g.tmr > 0 && g.retries + 1 == c.maxRetries
    ensures var f := Silent(c, servers, g, g.tmr);
            if g.server + 1 < |servers| && servers[g.server + 1] != 0 then f == g.(server := g.server + 1, tmr := 1, retries := 0)
            else f.status.Unused? && f.server == g.server && f.name == g.name
  {
    hide Silent, Ticked;
    WaitsOut(c, servers, g, g.tmr - 1);
    SilentMore(c, servers, g, g.tmr - 1, 1);
    LastOfServer(c, servers, g.(tmr := 1));
  }

  lemma LastOfServer(c: Config, servers: seq<nat>, h: Entry)
    requires h.status.Asking? && h.tmr == 1 && h.retries + 1 == c.maxRetries
    ensures var f := Silent(c, servers, h, 1);
            if h.server + 1 < |servers| && servers[h.server + 1] != 0 then f == h.(server := h.server + 1, tmr := 1, retries := 0)
            else f.status.Unused? && f.server == h.server && f.name == h.name
  {
    assert Silent(c, servers, h, 1) == Silent(c, servers, Ticked(c, servers, h, 0), 0);
  }

  /** The last tick of an entry is the one that ends it. */
  lemma LastTick(c: Config, servers: seq<nat>, e: Entry)
    requires ConfigOk(c) && e.status.Asking? && AskingOk(c, e) && |servers| == c.maxServers && forall j | 0 <= j < |servers| :: servers[j] != 0
    ensures var f := Ticked(c, servers, e, 0);
            && (f.status.Asking? ==> AskingOk(c, f) && TicksLeft(c, f) + 1 == TicksLeft(c, e))
            && (!f.status.Asking? ==> TicksLeft(c, e) == 1 && f.status.Unused?)
  {
    TickDown(c, e);
  }

  /** One tick takes an entry one step down its time. */
  lemma TickDown(c: Config, e: Entry)
    requires ConfigOk(c) && AskingOk(c, e)
    ensures e.tmr > 1 ==> TicksLeft(c, e.(tmr := e.tmr - 1)) + 1 == TicksLeft(c, e)
    ensures e.tmr == 1 && e.retries + 1 < c.maxRetries ==>
      TicksLeft(c, e.(tmr := e.retries + 1, retries := e.retries + 1)) + 1 == TicksLeft(c, e)
    ensures e.tmr == 1 && e.retries + 1 == c.maxRetries && e.server + 1 < c.maxServers ==>
      TicksLeft(c, e.(tmr := 1, retries := 0, server := e.server + 1)) + 1 == TicksLeft(c, e)
  {
  }

  /** Giving up on a server saves time. */
  lemma GiveUp(c: Config, e: Entry)
    requires ConfigOk(c) && AskingOk(c, e)
    ensures AskingOk(c, e.(retries := c.maxRetries - 1, tmr := 1))
    ensures TicksLeft(c, e.(retries := c.maxRetries - 1, tmr := 1)) <= TicksLeft(c, e)
  {
  }

  // ---------------------------------------------------------------- in the middle of a step

  /** The invariant with entry `i` in any state. */
  ghost predicate InvBut(c: Config, table: seq<Entry>, reqs: seq<Req>, servers: seq<nat>, fired: multiset<nat>, issued: nat, i: nat) {
    && ConfigOk(c) && |table| == c.tableSize && i < |table| && Distinct(table)
    && (forall j | 0 <= j < |table| && j != i :: EntryOk(c, table[j]))
    && |reqs| == c.maxRequests && |servers| == c.maxServers
    && Served(table, reqs, i)
    && fired + Pending(reqs) == Tickets(issued)
  }

  lemma Leave(c: Config, table: seq<Entry>, reqs: seq<Req>, servers: seq<nat>, fired: multiset<nat>, issued: nat, i: nat)
    requires Inv(c, table, reqs, servers, fired, issued) && i < |table|
    ensures InvBut(c, table, reqs, servers, fired, issued, i)
  {
    forall k | 0 <= k < |reqs| && reqs[k].Wait? ensures ServedAt(table, reqs[k].entry, i) {
      assert ServedAt(table, reqs[k].entry, |table|);
    }
  }

  /** Entry `i` may take any state that keeps the transaction ids distinct. */
  lemma SetEntry(c: Config, table: seq<Entry>, reqs: seq<Req>, servers: seq<nat>, fired: multiset<nat>, issued: nat, i: nat, e: Entry)
    requires InvBut(c, table, reqs, servers, fired, issued, i)
    requires e.status.Asking? ==> forall j | 0 <= j < |table| && j != i && table[j].status.Asking? :: table[j].txid != e.txid
    ensures InvBut(c, table[i := e], reqs, servers, fired, issued, i)
  {
    var t := table[i := e];
    forall k | 0 <= k < |reqs| && reqs[k].Wait? ensures ServedAt(t, reqs[k].entry, i) {
      assert ServedAt(table, reqs[k].entry, i);
    }
    assert Distinct(t) by {
      forall a, b | 0 <= a < b < |t| && t[a].status.Asking? && t[b].status.Asking? ensures t[a].txid != t[b].txid {}
    }
    hide Distinct;
  }

  /** The invariant holds again when entry `i` is asking, or is idle and has no requests. */
  lemma Back(c: Config, table: seq<Entry>, reqs: seq<Req>, servers: seq<nat>, fired: multiset<nat>, issued: nat, i: nat)
    requires InvBut(c, table, reqs, servers, fired, issued, i) && EntryOk(c, table[i])
    requires table[i].status.Asking? || NoneFor(reqs, i)
    ensures Inv(c, table, reqs, servers, fired, issued)
  {
    forall k | 0 <= k < |reqs| && reqs[k].Wait? ensures ServedAt(table, reqs[k].entry, |table|) {
      assert ServedAt(table, reqs[k].entry, i);
      assert !IsFor(reqs[k], i) || table[i].status.Asking?;
    }
  }

  ghost predicate IsFor(q: Req, i: nat) { q.Wait? && q.entry == i }

  ghost predicate NoneFor(reqs: seq<Req>, i: nat) { forall k | 0 <= k < |reqs| :: !IsFor(reqs[k], i) }

  lemma FlushedNone(reqs: seq<Req>, reqs': seq<Req>, fired': multiset<nat>, i: nat)
    requires Flushed(reqs, reqs', fired', i)
    ensures NoneFor(reqs', i)
  {
    forall k | 0 <= k < |reqs'| ensures !IsFor(reqs'[k], i) { assert FlushedAt(reqs[k], reqs'[k], fired', i); }
  }

  lemma FlushedServed(table: seq<Entry>, reqs: seq<Req>, reqs': seq<Req>, fired': multiset<nat>, i: nat)
    requires Flushed(reqs, reqs', fired', i) && Served(table, reqs, i)
    ensures Served(table, reqs', i)
  {
    forall k | 0 <= k < |reqs'| && reqs'[k].Wait? ensures ServedAt(table, reqs'[k].entry, i) {
      assert FlushedAt(reqs[k], reqs'[k], fired', i);
      assert ServedAt(table, reqs[k].entry, i);
    }
  }

  /** An idle entry has no requests. */
  lemma IdleNone(c: Config, table: seq<Entry>, reqs: seq<Req>, servers: seq<nat>, fired: multiset<nat>, issued: nat, i: nat)
    requires Inv(c, table, reqs, servers, fired, issued) && i < |table| && !table[i].status.Asking?
    ensures NoneFor(reqs, i)
  {
    forall k | 0 <= k < |reqs| ensures !IsFor(reqs[k], i) {
      if reqs[k].Wait? { assert ServedAt(table, reqs[k].entry, |table|); }
    }
  }
}
