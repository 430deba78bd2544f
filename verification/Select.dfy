/** The wake-up protocol of lwip_select (src/lib/liblwip/api/sockets.c, LWIP_NETCONN_FULLDUPLEX).

    Any number of threads run lwip_select, event_callback, lwip_close and the calls that allocate
    descriptors. A step is one region that the source protects with SYS_ARCH_PROTECT, or one write
    outside of such a region: alloc_socket sets the event fields of a slot after it has let go of
    the lock. Runs are all interleavings. The list walk of select_check_waiters is modelled in its
    fine-grained form, which lets go of the lock after every list element and restarts when
    `select_cb_ctr` has moved; the form that holds the core lock throughout has fewer runs.

    Descriptors count from 0 (LWIP_SOCKET_OFFSET). */
module Select {

  // ---------------------------------------------------------------- state

  datatype Kind = Rcv | Snd | Err

  datatype Event = RcvPlus | RcvMinus | SndPlus | SndMinus | Error

  /** struct lwip_sock; `used` is fd_used, `pending` is fd_free_pending, `conn` and `lastdata` say
      whether these are there. */
  datatype Socket = Socket(rcv: int, snd: bool, err: bool, waiting: nat, conn: bool, used: nat, pending: bool, lastdata: bool)

  /** The arguments of lwip_select; only descriptors below `max` are looked at. */
  datatype Sets = Sets(read: set<nat>, write: set<nat>, except: set<nat>, max: nat)

  datatype List = Nil | Cons(head: nat, tail: List)

  /** Where a thread stands in lwip_select. The index is the loop variable. */
  datatype Pc =
    | Marking(kind: Kind, i: nat)
    | FirstScan(i: nat, ready: bool)
    | Linking
    | Counting(i: nat)
    | SecondScan(i: nat, ready: bool)
    | Blocked
    | Uncounting(i: nat, upto: nat)
    | Unlinking
    | LastScan(i: nat)
    | Releasing(i: nat)

  /** Where select_check_waiters stands: before the list, or just behind an element. */
  datatype Cursor = Start | Behind(scb: nat, ctr: nat)

  /** A descriptor in use only until the next done_socket. */
  datatype Use = Nothing | One(s: nat)

  /** Where alloc_socket stands behind its locked region, by the next thing it does. */
  datatype Stage = ClearLastdata | AssertNobody | ClearRcv | SetSnd | ClearErr

  datatype Thread =
    | Idle
    | Selecting(sets: Sets, held: set<nat>, using: Use, signalled: bool, pc: Pc)
    | Updating(s: nat, event: Event)
    | Checking(s: nat, hasRcv: bool, hasSnd: bool, hasErr: bool, cur: Cursor)
    | Closing(s: nat)
    | Initialising(s: nat, writable: bool, stage: Stage)
    | Leaving(s: nat)

  datatype State = State(socks: seq<Socket>, list: List, ctr: nat, threads: map<nat, Thread>)

  /** SELWAIT_T is an u8_t. */
  const MAX_WAITING: nat := 255

  predicate Active(so: Socket, k: Kind) {
    match k
    case Rcv => so.rcv > 0
    case Snd => so.snd
    case Err => so.err
  }

  predicate InSet(x: Sets, s: nat, k: Kind) {
    match k
    case Rcv => s in x.read
    case Snd => s in x.write
    case Err => s in x.except
  }

  predicate Member(x: Sets, s: nat) { s < x.max && (s in x.read || s in x.write || s in x.except) }

  /** lwip_selscan finds something to report for this socket. */
  predicate Ready(x: Sets, s: nat, so: Socket) {
    || (s in x.read && (so.lastdata || so.rcv > 0))
    || (s in x.write && so.snd)
    || (s in x.except && so.err)
  }

  predicate Flag(th: Thread, k: Kind)
    requires th.Checking?
  {
    match k
    case Rcv => th.hasRcv
    case Snd => th.hasSnd
    case Err => th.hasErr
  }

  /** The thread's select_cb is on select_cb_list. */
  predicate Linked(th: Thread) {
    th.Selecting? && (th.pc.Counting? || th.pc.SecondScan? || th.pc.Blocked? || th.pc.Uncounting? || th.pc.Unlinking?)
  }

  /** The thread has raised select_waiting of `s` and not lowered it yet. */
  predicate Counts(th: Thread, s: nat) {
    && th.Selecting? && Member(th.sets, s)
    && (match th.pc
        case Counting(i) => s < i
        case SecondScan(_, _) => true
        case Blocked => true
        case Uncounting(i, upto) => i <= s < upto
        case _ => false)
  }

  /** The thread's second scan has passed `s`, nothing was ready, and it is on its way to
      waiting for a signal. */
  predicate Watches(th: Thread, s: nat) {
    && th.Selecting? && Member(th.sets, s)
    && (th.pc.Blocked? || (th.pc.SecondScan? && !th.pc.ready && s < th.pc.i))
  }

  // ---------------------------------------------------------------- the list

  predicate Mem(l: List, x: nat) { l.Cons? && (l.head == x || Mem(l.tail, x)) }

  predicate NoDup(l: List) { l.Cons? ==> !Mem(l.tail, l.head) && NoDup(l.tail) }

  function After(l: List, x: nat): List {
    if l.Nil? then Nil else if l.head == x then l.tail else After(l.tail, x)
  }

  function Remove(l: List, x: nat): List {
    if l.Nil? then Nil else if l.head == x then l.tail else Cons(l.head, Remove(l.tail, x))
  }

  lemma {:induction false} AfterNext(l: List, x: nat)
    requires NoDup(l) && Mem(l, x) && After(l, x).Cons?
    ensures Mem(l, After(l, x).head) && After(l, After(l, x).head) == After(l, x).tail
  {
    if l.head != x {
      AfterNext(l.tail, x);
    } else {
      assert Mem(l.tail, l.tail.head);
    }
  }

  lemma {:induction false} RemoveFacts(l: List, x: nat)
    requires NoDup(l)
    ensures NoDup(Remove(l, x))
    ensures forall y :: Mem(Remove(l, x), y) <==> Mem(l, y) && y != x
  {
    if l.Cons? { RemoveFacts(l.tail, x); }
  }

  // ---------------------------------------------------------------- the use count

  function Get(so: Socket): Socket { so.(used := so.used + 1) }

  /** done_socket: the last one out completes a pending free. */
  function Done(so: Socket): Socket {
    if so.used <= 1 && so.pending then so.(used := 0, conn := false, lastdata := false)
    else so.(used := if so.used > 0 then so.used - 1 else 0)
  }

  /** free_socket_locked */
  function Freed(so: Socket): Socket {
    if so.used > 1 then so.(used := so.used - 1, pending := true) else so.(used := 0, conn := false, lastdata := false)
  }

  function DoneAt(st: State, s: nat): State { if s < |st.socks| then st.(socks := st.socks[s := Done(st.socks[s])]) else st }

  // ---------------------------------------------------------------- steps

  datatype Act =
    | Call(sets: Sets)
    | Mark
    | Scan(poll: bool)
    | Link
    | Count
    | Wake(timeout: bool)
    | Uncount
    | Unlink(rescan: bool)
    | Release
    | Drop
    | Fire(s: nat, event: Event)
    | Update
    | Walk
    | Close(s: nat)
    | Abandon
    | Free
    | Reuse(s: nat, writable: bool)
    | Init
    | Keep(s: nat, lastdata: bool)

  predicate InSelect(th: Thread) { th.Selecting? && th.using.Nothing? }

  predicate Enabled(st: State, t: nat, act: Act) {
    && t in st.threads
    && var th := st.threads[t];
       match act
       case Call(_) => th.Idle?
       case Mark => InSelect(th) && th.pc.Marking?
       case Scan(_) => InSelect(th) && (th.pc.FirstScan? || th.pc.SecondScan? || th.pc.LastScan?)
       case Link => InSelect(th) && th.pc.Linking?
       case Count => InSelect(th) && th.pc.Counting?
       case Wake(timeout) => InSelect(th) && th.pc.Blocked? && (th.signalled || timeout)
       case Uncount => InSelect(th) && th.pc.Uncounting?
       case Unlink(_) => InSelect(th) && th.pc.Unlinking?
       case Release => InSelect(th) && th.pc.Releasing?
       case Drop => (th.Selecting? && th.using.One?) || th.Leaving?
       case Fire(s, _) => th.Idle? && s < |st.socks| && !st.socks[s].pending
       case Update => th.Updating? && th.s < |st.socks| && st.socks[th.s].conn
       case Walk => th.Checking?
       case Close(s) => th.Idle? && s < |st.socks| && !st.socks[s].pending
       case Abandon => (th.Updating? || th.Closing?) && th.s < |st.socks| && !st.socks[th.s].conn
       case Free => th.Closing? && th.s < |st.socks| && st.socks[th.s].conn
       case Reuse(s, _) => th.Idle? && s < |st.socks| && !st.socks[s].conn && st.socks[s].used == 0
       case Init => th.Initialising? && th.s < |st.socks|
       case Keep(s, _) => th.Idle? && s < |st.socks|
  }

  function Set(st: State, t: nat, th: Thread): State { st.(threads := st.threads[t := th]) }

  function SetSock(st: State, s: nat, so: Socket): State
    requires s < |st.socks|
  {
    st.(socks := st.socks[s := so])
  }

  function At(th: Thread, pc: Pc): Thread
    requires th.Selecting?
  {
    th.(pc := pc)
  }

  /** tryget_socket_unconn_locked, and what the thread does next while it uses the descriptor. */
  function Using(st: State, t: nat, th: Thread, i: nat, pc: Pc): State
    requires th.Selecting? && i < |st.socks|
  {
    Set(SetSock(st, i, Get(st.socks[i])), t, th.(using := One(i), pc := pc))
  }

  predicate Gettable(st: State, i: nat) { i < |st.socks| && !st.socks[i].pending }

  /** lwip_select_inc_sockets_used: one descriptor of one of the three sets. A descriptor whose
      free is pending is skipped. */
  function MarkStep(st: State, t: nat, th: Thread): State
    requires th.Selecting? && th.pc.Marking?
  {
    var k, i := th.pc.kind, th.pc.i;
    if i >= th.sets.max then
      Set(st, t, At(th, match k case Rcv => Marking(Snd, 0) case Snd => Marking(Err, 0) case Err => FirstScan(0, false)))
    else if InSet(th.sets, i, k) && i !in th.held && Gettable(st, i) then
      Set(SetSock(st, i, Get(st.socks[i])), t, th.(held := th.held + {i}, pc := Marking(k, i + 1)))
    else Set(st, t, At(th, Marking(k, i + 1)))
  }

  /** One descriptor of lwip_selscan. `poll` is a zero timeout, which never waits. */
  function ScanStep(st: State, t: nat, th: Thread, poll: bool): State
    requires th.Selecting? && (th.pc.FirstScan? || th.pc.SecondScan? || th.pc.LastScan?)
  {
    var i := th.pc.i;
    if i >= th.sets.max then Set(st, t, At(th, ScanEnd(th, poll)))
    else if !Member(th.sets, i) then Set(st, t, At(th, ScanOn(th, false)))
    else if !Gettable(st, i) then Set(st, t, At(th, if th.pc.SecondScan? then Uncounting(0, th.sets.max) else Releasing(0)))
    else Using(st, t, th, i, ScanOn(th, Ready(th.sets, i, st.socks[i])))
  }

  function ScanEnd(th: Thread, poll: bool): Pc
    requires th.Selecting? && (th.pc.FirstScan? || th.pc.SecondScan? || th.pc.LastScan?)
  {
    match th.pc
    case FirstScan(_, ready) => if ready || poll then Releasing(0) else Linking
    case SecondScan(_, ready) => if ready then Uncounting(0, th.sets.max) else Blocked
    case _ => Releasing(0)
  }

  function ScanOn(th: Thread, ready: bool): Pc
    requires th.Selecting? && (th.pc.FirstScan? || th.pc.SecondScan? || th.pc.LastScan?)
  {
    match th.pc
    case FirstScan(i, r) => FirstScan(i + 1, r || ready)
    case SecondScan(i, r) => SecondScan(i + 1, r || ready)
    case LastScan(i) => LastScan(i + 1)
  }

  /** Raise select_waiting of one descriptor; on an invalid one or on overflow, back out. */
  function CountStep(st: State, t: nat, th: Thread): State
    requires th.Selecting? && th.pc.Counting?
  {
    var i := th.pc.i;
    if i >= th.sets.max then Set(st, t, At(th, SecondScan(0, false)))
    else if !Member(th.sets, i) then Set(st, t, At(th, Counting(i + 1)))
    else if !Gettable(st, i) then Set(st, t, At(th, Uncounting(0, i)))
    else if st.socks[i].waiting >= MAX_WAITING then Using(st, t, th, i, Uncounting(0, i))
    else Using(SetSock(st, i, st.socks[i].(waiting := st.socks[i].waiting + 1)), t, th, i, Counting(i + 1))
  }

  function UncountStep(st: State, t: nat, th: Thread): State
    requires th.Selecting? && th.pc.Uncounting?
  {
    var i, upto := th.pc.i, th.pc.upto;
    if i >= upto then Set(st, t, At(th, Unlinking))
    else if Member(th.sets, i) && i < |st.socks| && st.socks[i].waiting > 0 then
      Set(SetSock(st, i, st.socks[i].(waiting := st.socks[i].waiting - 1)), t, At(th, Uncounting(i + 1, upto)))
    else Set(st, t, At(th, Uncounting(i + 1, upto)))
  }

  /** lwip_select_dec_sockets_used: let go of one marked descriptor. */
  function ReleaseStep(st: State, t: nat, th: Thread): State
    requires th.Selecting? && th.pc.Releasing?
  {
    var i := th.pc.i;
    if i >= th.sets.max then Set(st, t, Idle)
    else Set(if i in th.held then DoneAt(st, i) else st, t, th.(held := th.held - {i}, pc := Releasing(i + 1)))
  }

  /** done_socket at the end of a use. */
  function DropStep(st: State, t: nat, th: Thread): State
    requires (th.Selecting? && th.using.One?) || th.Leaving?
  {
    if th.Leaving? then Set(DoneAt(st, th.s), t, Idle) else Set(DoneAt(st, th.using.s), t, th.(using := Nothing))
  }

  function Fired(so: Socket, e: Event): Socket {
    match e
    case RcvPlus => so.(rcv := so.rcv + 1)
    case RcvMinus => so.(rcv := so.rcv - 1)
    case SndPlus => so.(snd := true)
    case SndMinus => so.(snd := false)
    case Error => so.(err := true)
  }

  /** check_waiters: events that do not make the socket ready skip the list. */
  predicate ChecksWaiters(so: Socket, e: Event) {
    match e
    case RcvPlus => so.rcv + 1 <= 1
    case RcvMinus => false
    case SndPlus => !so.snd
    case SndMinus => false
    case Error => true
  }

  /** The locked update of event_callback. */
  function UpdateStep(st: State, t: nat, th: Thread): State
    requires th.Updating? && th.s < |st.socks|
  {
    var so := st.socks[th.s];
    var so' := Fired(so, th.event);
    var th' := if so.waiting > 0 && ChecksWaiters(so, th.event)
               then Checking(th.s, so'.rcv > 0, so'.snd, so'.err, Start) else Leaving(th.s);
    Set(st.(socks := st.socks[th.s := so']), t, th')
  }

  /** One locked iteration of select_check_waiters: relock, restart if the list has changed,
      go to the next element and signal it if it waits for one of the saved events. */
  function WalkStep(st: State, t: nat, th: Thread): State
    requires th.Checking?
  {
    var rest := if th.cur.Start? || th.cur.ctr != st.ctr then st.list else After(st.list, th.cur.scb);
    if rest.Nil? then Set(st, t, Leaving(th.s))
    else Set(Signal(st, th, rest.head), t, th.(cur := Behind(rest.head, st.ctr)))
  }

  function Signal(st: State, th: Thread, w: nat): State
    requires th.Checking?
  {
    if w in st.threads && st.threads[w].Selecting? && Wants(st.threads[w].sets, th)
    then Set(st, w, st.threads[w].(signalled := true)) else st
  }

  predicate Wants(x: Sets, th: Thread)
    requires th.Checking?
  {
    (th.hasRcv && th.s in x.read) || (th.hasSnd && th.s in x.write) || (th.hasErr && th.s in x.except)
  }

  /** One write of alloc_socket behind its locked region. */
  function InitStep(st: State, t: nat, th: Thread): State
    requires th.Initialising? && th.s < |st.socks|
  {
    Set(SetSock(st, th.s, InitSock(th, st.socks[th.s])), t, InitThread(th))
  }

  function InitSock(th: Thread, so: Socket): Socket
    requires th.Initialising?
  {
    match th.stage
    case ClearLastdata => so.(lastdata := false)
    case AssertNobody => so
    case ClearRcv => so.(rcv := 0)
    case SetSnd => so.(snd := th.writable)
    case ClearErr => so.(err := false)
  }

  function InitThread(th: Thread): Thread
    requires th.Initialising?
  {
    match th.stage
    case ClearLastdata => th.(stage := AssertNobody)
    case AssertNobody => th.(stage := ClearRcv)
    case ClearRcv => th.(stage := SetSnd)
    case SetSnd => th.(stage := ClearErr)
    case ClearErr => Leaving(th.s)
  }

  function Step(st: State, t: nat, act: Act): State
    requires Enabled(st, t, act)
  {
    var th := st.threads[t];
    match act
    case Call(sets) => Set(st, t, Selecting(sets, {}, Nothing, false, Marking(Rcv, 0)))
    case Mark => MarkStep(st, t, th)
    case Scan(poll) => ScanStep(st, t, th, poll)
    case Link => Set(st.(list := Cons(t, st.list), ctr := st.ctr + 1), t, At(th, Counting(0)))
    case Count => CountStep(st, t, th)
    case Wake(_) => Set(st, t, At(th, Uncounting(0, th.sets.max)))
    case Uncount => UncountStep(st, t, th)
    case Unlink(rescan) =>
      Set(st.(list := Remove(st.list, t), ctr := st.ctr + 1), t, At(th, if rescan then LastScan(0) else Releasing(0)))
    case Release => ReleaseStep(st, t, th)
    case Drop => DropStep(st, t, th)
    case Fire(s, e) => Set(SetSock(st, s, Get(st.socks[s])), t, Updating(s, e))
    case Update => UpdateStep(st, t, th)
    case Walk => WalkStep(st, t, th)
    case Close(s) => Set(SetSock(st, s, Get(st.socks[s])), t, Closing(s))
    case Abandon => Set(st, t, Leaving(th.s))
    case Free => Set(SetSock(st, th.s, Freed(st.socks[th.s])), t, Idle)
    case Reuse(s, w) =>
      Set(SetSock(st, s, st.socks[s].(conn := true, used := 1, pending := false)), t, Initialising(s, w, ClearLastdata))
    case Init => InitStep(st, t, th)
    case Keep(s, d) => SetSock(st, s, st.socks[s].(lastdata := d))
  }

  /** At the start all of the memory is zero. */
  ghost predicate Initial(st: State) {
    && st.list == Nil
    && (forall t | t in st.threads :: st.threads[t].Idle?)
    && (forall s: nat | s < |st.socks| :: st.socks[s] == Socket(0, false, false, 0, false, 0, false, false))
  }

  datatype Move = Move(t: nat, act: Act)

  ghost predicate IsRun(st: State, moves: seq<Move>)
    decreases |moves|
  {
    moves == [] || (Enabled(st, moves[0].t, moves[0].act) && IsRun(Step(st, moves[0].t, moves[0].act), moves[1..]))
  }

  ghost function Run(st: State, moves: seq<Move>): State
    requires IsRun(st, moves)
    decreases |moves|
  {
    if moves == [] then st else Run(Step(st, moves[0].t, moves[0].act), moves[1..])
  }

  // ---------------------------------------------------------------- invariants

  /** Callback thread `c` is past its update of `s` with event `k` saved and has yet to reach
      the list entry of `w`. */
  predicate DueBy(st: State, c: nat, s: nat, k: Kind, w: nat) {
    && c in st.threads && st.threads[c].Checking?
    && var th := st.threads[c];
       && th.s == s && Flag(th, k)
       && (th.cur.Start? || th.cur.ctr != st.ctr || Mem(After(st.list, th.cur.scb), w))
  }

  ghost predicate Due(st: State, s: nat, k: Kind, w: nat) {
    exists c :: DueBy(st, c, s, k, w)
  }

  /** Thread `w` has been told, or will be told, about event `k` of socket `s`. */
  ghost predicate Told(st: State, w: nat, s: nat, k: Kind)
    requires w in st.threads && st.threads[w].Selecting?
  {
    st.threads[w].signalled || Due(st, s, k, w)
  }

  /** Whoever watches socket `s` has been, or will be, told about its events. */
  ghost predicate NoLostWakeUp(st: State, s: nat) {
    forall w, k | w in st.threads && Watches(st.threads[w], s) && s < |st.socks| && InSet(st.threads[w].sets, s, k)
                  && Active(st.socks[s], k) :: Told(st, w, s, k)
  }

  ghost function Counters(st: State, s: nat): set<nat> {
    set t | t in st.threads && Counts(st.threads[t], s)
  }

  ghost predicate ListOk(st: State) {
    && NoDup(st.list)
    && (forall t :: Mem(st.list, t) <==> t in st.threads && Linked(st.threads[t]))
  }

  ghost predicate CountsOk(st: State) {
    && (forall s: nat | s < |st.socks| :: st.socks[s].waiting == |Counters(st, s)|)
    && (forall t, s: nat | t in st.threads && Counts(st.threads[t], s) :: s < |st.socks|)
  }

  ghost predicate CursorsOk(st: State) {
    forall c | c in st.threads && st.threads[c].Checking? && st.threads[c].cur.Behind? ::
      && st.threads[c].cur.ctr <= st.ctr
      && (st.threads[c].cur.ctr == st.ctr ==> Mem(st.list, st.threads[c].cur.scb))
  }

  ghost predicate Structure(st: State) { ListOk(st) && CountsOk(st) && CursorsOk(st) }

  /** The step of thread `t` makes `s` writable outside of event_callback: it is the write of
      sendevent in alloc_socket. */
  predicate Raises(st: State, t: nat, act: Act, s: nat) {
    && act.Init? && t in st.threads && s < |st.socks| && !st.socks[s].snd
    && var th := st.threads[t]; th.Initialising? && th.s == s && th.stage.SetSnd? && th.writable
  }

  /** Nobody waits for `s` when the step makes it writable like that. */
  predicate Guarded(st: State, t: nat, act: Act, s: nat) { Raises(st, t, act, s) ==> st.socks[s].waiting == 0 }

  /** The lists and counts are right afterwards, and a step that is guarded loses no wake-up. */
  ghost predicate Kept(st: State, t: nat, act: Act, st': State, s: nat) {
    Structure(st') && (NoLostWakeUp(st, s) && Guarded(st, t, act, s) ==> NoLostWakeUp(st', s))
  }

  // ---------------------------------------------------------------- steps that leave lists and counts alone

  /** `th` becomes `th'` without joining or leaving the list or changing what it counts. */
  ghost predicate Steady(th: Thread, th': Thread) {
    Linked(th') == Linked(th) && !th.Checking? && !th'.Checking? && forall s: nat :: Counts(th', s) == Counts(th, s)
  }

  /** The same, without watching anything new. */
  ghost predicate Quiet(th: Thread, th': Thread) {
    && Steady(th, th')
    && (forall s: nat | Watches(th', s) :: Watches(th, s) && th'.sets == th.sets && th'.signalled == th.signalled)
  }

  /** Thread `t` and some sockets change, but no list and no count. */
  ghost predicate SameLists(st: State, st': State, t: nat) {
    && t in st.threads && st'.threads.Keys == st.threads.Keys && st'.list == st.list && st'.ctr == st.ctr
    && (forall u | u in st.threads && u != t :: st'.threads[u] == st.threads[u])
    && |st'.socks| == |st.socks| && forall s: nat | s < |st.socks| :: st'.socks[s].waiting == st.socks[s].waiting
  }

  lemma QuietStructure(st: State, st': State, t: nat)
    requires Structure(st) && SameLists(st, st', t) && Steady(st.threads[t], st'.threads[t])
    ensures Structure(st')
  {
    forall s: nat ensures Counters(st', s) == Counters(st, s) {}
  }

  /** Somebody who watches a socket is counted there. */
  lemma WatcherCounted(st: State, w: nat, s: nat)
    requires CountsOk(st) && w in st.threads && Watches(st.threads[w], s)
    ensures s < |st.socks| && st.socks[s].waiting > 0
  {
    assert Counts(st.threads[w], s);
    assert w in Counters(st, s);
  }

  lemma QuietTells(st: State, st': State, t: nat, s: nat)
    requires Structure(st) && NoLostWakeUp(st, s) && SameLists(st, st', t) && Quiet(st.threads[t], st'.threads[t])
    requires forall k | s < |st.socks| && Active(st'.socks[s], k) :: Active(st.socks[s], k) || st.socks[s].waiting == 0
    ensures NoLostWakeUp(st', s)
  {
    forall w, k | w in st'.threads && Watches(st'.threads[w], s) && s < |st'.socks|
                  && InSet(st'.threads[w].sets, s, k) && Active(st'.socks[s], k)
      ensures Told(st', w, s, k)
    {
      WatcherCounted(st, w, s);
      StillTold(st, st', t, w, s, k);
    }
  }

  lemma StillTold(st: State, st': State, t: nat, w: nat, s: nat, k: Kind)
    requires SameLists(st, st', t) && !st.threads[t].Checking? && w in st.threads && st.threads[w].Selecting? && st'.threads[w].Selecting?
    requires Told(st, w, s, k) && st'.threads[w].signalled == st.threads[w].signalled
    ensures Told(st', w, s, k)
  {
    if !st.threads[w].signalled {
      var c :| DueBy(st, c, s, k, w);
      assert DueBy(st', c, s, k, w);
    }
  }

  /** A quiet step that makes nothing ready unguarded keeps everything. */
  lemma QuietKeeps(st: State, t: nat, act: Act, st': State, s: nat)
    requires Structure(st) && SameLists(st, st', t) && Quiet(st.threads[t], st'.threads[t])
    requires Guarded(st, t, act, s) ==>
      forall k | s < |st.socks| && Active(st'.socks[s], k) :: Active(st.socks[s], k) || st.socks[s].waiting == 0
    ensures Kept(st, t, act, st', s)
  {
    hide Structure, NoLostWakeUp, SameLists, Steady;
    QuietStructure(st, st', t);
    if NoLostWakeUp(st, s) && Guarded(st, t, act, s) {
      QuietTells(st, st', t, s);
    }
  }

  lemma SelectStepsKeep(st: State, t: nat, act: Act, s: nat)
    requires Structure(st) && Enabled(st, t, act)
    requires act.Call? || act.Mark? || act.Wake? || act.Release?
    ensures Kept(st, t, act, Step(st, t, act), s)
  {
    hide Structure, Kept, Done;
    var st' := Step(st, t, act);
    forall so: Socket ensures Done(so).waiting == so.waiting && forall k :: Active(Done(so), k) == Active(so, k) { DoneFacts(so); }
    assert SameLists(st, st', t) && Quiet(st.threads[t], st'.threads[t]);
    QuietKeeps(st, t, act, st', s);
  }

  lemma ScanKeeps(st: State, t: nat, poll: bool, s: nat)
    requires Structure(st) && Enabled(st, t, Scan(poll)) && !st.threads[t].pc.SecondScan?
    ensures Kept(st, t, Scan(poll), Step(st, t, Scan(poll)), s)
  {
    hide Structure, Kept, Ready;
    var st' := Step(st, t, Scan(poll));
    assert SameLists(st, st', t) && Quiet(st.threads[t], st'.threads[t]);
    QuietKeeps(st, t, Scan(poll), st', s);
  }

  lemma DoneFacts(so: Socket)
    ensures Done(so).waiting == so.waiting && forall k :: Active(Done(so), k) == Active(so, k)
  {
  }

  lemma SocketStepsKeep(st: State, t: nat, act: Act, s: nat)
    requires Structure(st) && Enabled(st, t, act)
    requires act.Drop? || act.Fire? || act.Close? || act.Abandon? || act.Free?
    ensures Kept(st, t, act, Step(st, t, act), s)
  {
    hide Structure, Kept, Done, Freed;
    var st' := Step(st, t, act);
    forall so: Socket ensures Done(so).waiting == so.waiting && forall k :: Active(Done(so), k) == Active(so, k) { DoneFacts(so); }
    forall so: Socket ensures Freed(so).waiting == so.waiting && forall k :: Active(Freed(so), k) == Active(so, k) { FreedFacts(so); }
    assert SameLists(st, st', t) && Quiet(st.threads[t], st'.threads[t]);
    QuietKeeps(st, t, act, st', s);
  }

  lemma FreedFacts(so: Socket)
    ensures Freed(so).waiting == so.waiting && forall k :: Active(Freed(so), k) == Active(so, k)
  {
  }

  lemma ReuseKeeps(st: State, t: nat, act: Act, s: nat)
    requires Structure(st) && Enabled(st, t, act) && (act.Reuse? || act.Keep?)
    ensures Kept(st, t, act, Step(st, t, act), s)
  {
    hide Structure, Kept;
    var st' := Step(st, t, act);
    assert SameLists(st, st', t) && Quiet(st.threads[t], st'.threads[t]);
    QuietKeeps(st, t, act, st', s);
  }

  /** The writes of alloc_socket outside its locked region. */
  lemma InitKeeps(st: State, t: nat, s: nat)
    requires Structure(st) && Enabled(st, t, Init)
    ensures Kept(st, t, Init, Step(st, t, Init), s)
  {
    var th, st' := st.threads[t], Step(st, t, Init);
    InitFacts(th, st.socks[th.s]);
    hide Structure, Kept, InitSock, InitThread;
    assert SameLists(st, st', t) && Quiet(th, st'.threads[t]);
    QuietKeeps(st, t, Init, st', s);
  }

  lemma InitFacts(th: Thread, so: Socket)
    requires th.Initialising?
    ensures InitSock(th, so).waiting == so.waiting && (InitThread(th).Initialising? || InitThread(th).Leaving?)
    ensures forall k | Active(InitSock(th, so), k) && !Active(so, k) :: k.Snd? && th.stage.SetSnd? && th.writable
  {
  }

  /** The second scan: a descriptor it finds not ready has no active event at that moment. */
  lemma SecondScanKeeps(st: State, t: nat, poll: bool, s: nat)
    requires Structure(st) && Enabled(st, t, Scan(poll)) && st.threads[t].pc.SecondScan?
    ensures Kept(st, t, Scan(poll), Step(st, t, Scan(poll)), s)
  {
    SecondScanStructure(st, t, poll);
    hide Structure;
    var th := st.threads[t];
    var st' := ScanStep(st, t, th, poll);
    if NoLostWakeUp(st, s) {
      forall w, k | w in st'.threads && Watches(st'.threads[w], s) && s < |st'.socks|
                    && InSet(st'.threads[w].sets, s, k) && Active(st'.socks[s], k)
        ensures Told(st', w, s, k)
      {
        SecondScanSees(st, t, poll, w, s, k);
        hide ScanStep;
        StillTold(st, st', t, w, s, k);
      }
    }
  }

  lemma SecondScanStructure(st: State, t: nat, poll: bool)
    requires Structure(st) && Enabled(st, t, Scan(poll)) && st.threads[t].pc.SecondScan?
    ensures Structure(Step(st, t, Scan(poll))) && SameLists(st, Step(st, t, Scan(poll)), t)
  {
    hide Structure;
    var st' := ScanStep(st, t, st.threads[t], poll);
    assert SameLists(st, st', t) && Steady(st.threads[t], st'.threads[t]);
    QuietStructure(st, st', t);
  }

  lemma SecondScanSees(st: State, t: nat, poll: bool, w: nat, s: nat, k: Kind)
    requires Enabled(st, t, Scan(poll)) && st.threads[t].pc.SecondScan?
    requires var st' := ScanStep(st, t, st.threads[t], poll);
             w in st'.threads && Watches(st'.threads[w], s) && s < |st'.socks| && InSet(st'.threads[w].sets, s, k) && Active(st'.socks[s], k)
    ensures var st' := ScanStep(st, t, st.threads[t], poll);
            && w in st.threads && Watches(st.threads[w], s) && s < |st.socks| && InSet(st.threads[w].sets, s, k) && Active(st.socks[s], k)
            && st'.threads[w].signalled == st.threads[w].signalled
  {
  }

  // ---------------------------------------------------------------- counting

  lemma CountKeeps(st: State, t: nat, s: nat)
    requires Structure(st) && Enabled(st, t, Count)
    ensures Kept(st, t, Count, Step(st, t, Count), s)
  {
    hide Structure, NoLostWakeUp, Told;
    var th := st.threads[t];
    var i, st' := th.pc.i, CountStep(st, t, th);
    if i < th.sets.max && Member(th.sets, i) && st'.threads[t].pc.Counting? {
      CountMoved(st, st', t, i, true, s);
    } else {
      assert forall u: nat :: Counts(st'.threads[t], u) == Counts(th, u);
      assert SameLists(st, st', t) && Quiet(th, st'.threads[t]);
      QuietStructure(st, st', t);
      if NoLostWakeUp(st, s) { QuietTells(st, st', t, s); }
    }
  }

  lemma UncountKeeps(st: State, t: nat, s: nat)
    requires Structure(st) && Enabled(st, t, Uncount)
    ensures Kept(st, t, Uncount, Step(st, t, Uncount), s)
  {
    hide NoLostWakeUp, Told;
    var th := st.threads[t];
    var i, upto, st' := th.pc.i, th.pc.upto, UncountStep(st, t, th);
    if i < upto && Member(th.sets, i) {
      assert Counts(th, i) && t in Counters(st, i);
      hide Structure;
      CountMoved(st, st', t, i, false, s);
    } else {
      hide Structure;
      assert forall u: nat :: Counts(st'.threads[t], u) == Counts(th, u);
      assert SameLists(st, st', t) && Quiet(th, st'.threads[t]);
      QuietStructure(st, st', t);
      if NoLostWakeUp(st, s) { QuietTells(st, st', t, s); }
    }
  }

  /** Thread `t` starts or stops counting socket `i`; it does not watch anything. */
  lemma CountMoved(st: State, st': State, t: nat, i: nat, up: bool, s: nat)
    requires Structure(st) && t in st.threads && i < |st.socks| && !st.threads[t].Checking?
    requires st'.threads.Keys == st.threads.Keys && st'.list == st.list && st'.ctr == st.ctr && |st'.socks| == |st.socks|
    requires forall u | u in st.threads && u != t :: st'.threads[u] == st.threads[u]
    requires var th' := st'.threads[t];
             && !th'.Checking? && Linked(th') == Linked(st.threads[t]) && (forall u: nat :: !Watches(th', u))
             && forall u: nat :: Counts(th', u) == if u == i then up else Counts(st.threads[t], u)
    requires Counts(st.threads[t], i) == !up && (up || st.socks[i].waiting > 0)
    requires forall u: nat | u < |st.socks| ::
               st'.socks[u].waiting == if u != i then st.socks[u].waiting else if up then st.socks[u].waiting + 1 else st.socks[u].waiting - 1
    requires forall u: nat, k | u < |st.socks| && Active(st'.socks[u], k) :: Active(st.socks[u], k)
    ensures Structure(st') && (NoLostWakeUp(st, s) ==> NoLostWakeUp(st', s))
  {
    forall u: nat | u < |st'.socks| ensures st'.socks[u].waiting == |Counters(st', u)| {
      CountersChange(st, st', t, u);
    }
    if NoLostWakeUp(st, s) { CountTells(st, st', t, s); }
  }

  lemma CountersChange(st: State, st': State, t: nat, s: nat)
    requires t in st.threads && st'.threads.Keys == st.threads.Keys
    requires forall u | u in st.threads && u != t :: st'.threads[u] == st.threads[u]
    ensures Counters(st', s) == if Counts(st'.threads[t], s) then Counters(st, s) + {t} else Counters(st, s) - {t}
    ensures t in Counters(st, s) <==> Counts(st.threads[t], s)
  {
  }

  lemma CountTells(st: State, st': State, t: nat, s: nat)
    requires NoLostWakeUp(st, s) && t in st.threads && !st.threads[t].Checking?
    requires st'.threads.Keys == st.threads.Keys && st'.list == st.list && st'.ctr == st.ctr && |st'.socks| == |st.socks|
    requires forall u | u in st.threads && u != t :: st'.threads[u] == st.threads[u]
    requires !Watches(st'.threads[t], s) && forall k | s < |st.socks| && Active(st'.socks[s], k) :: Active(st.socks[s], k)
    ensures NoLostWakeUp(st', s)
  {
    forall w, k | w in st'.threads && Watches(st'.threads[w], s) && s < |st'.socks|
                  && InSet(st'.threads[w].sets, s, k) && Active(st'.socks[s], k)
      ensures Told(st', w, s, k)
    {
      assert Told(st, w, s, k);
      if !st.threads[w].signalled {
        var c :| DueBy(st, c, s, k, w);
        assert DueBy(st', c, s, k, w);
      }
    }
  }

  // ---------------------------------------------------------------- joining and leaving the list

  /** A list change makes every walk in progress start over, so nobody due is forgotten. */
  lemma ListChangeKeeps(st: State, t: nat, l: List, th': Thread, s: nat)
    requires Structure(st) && t in st.threads && NoDup(l)
    requires st.threads[t].Selecting? && th'.Selecting?
    requires forall u :: Mem(l, u) <==> if u == t then Linked(th') else Mem(st.list, u)
    requires forall u: nat :: Counts(th', u) == Counts(st.threads[t], u) && !Watches(th', u)
    ensures var st' := Set(st.(list := l, ctr := st.ctr + 1), t, th');
            Structure(st') && (NoLostWakeUp(st, s) ==> NoLostWakeUp(st', s))
  {
    var st' := Set(st.(list := l, ctr := st.ctr + 1), t, th');
    forall u: nat ensures Counters(st', u) == Counters(st, u) {}
    if NoLostWakeUp(st, s) {
      forall w, k | w in st'.threads && Watches(st'.threads[w], s) && s < |st'.socks|
                    && InSet(st'.threads[w].sets, s, k) && Active(st'.socks[s], k)
        ensures Told(st', w, s, k)
      {
        assert Told(st, w, s, k);
        if !st.threads[w].signalled {
          var c :| DueBy(st, c, s, k, w);
          assert DueBy(st', c, s, k, w);
        }
      }
    }
  }

  lemma LinkKeeps(st: State, t: nat, s: nat)
    requires Structure(st) && Enabled(st, t, Link)
    ensures Kept(st, t, Link, Step(st, t, Link), s)
  {
    assert !Mem(st.list, t);
    hide NoLostWakeUp, CountsOk, CursorsOk;
    ListChangeKeeps(st, t, Cons(t, st.list), At(st.threads[t], Counting(0)), s);
  }

  lemma UnlinkKeeps(st: State, t: nat, rescan: bool, s: nat)
    requires Structure(st) && Enabled(st, t, Unlink(rescan))
    ensures Kept(st, t, Unlink(rescan), Step(st, t, Unlink(rescan)), s)
  {
    RemoveFacts(st.list, t);
    hide NoLostWakeUp, CountsOk, CursorsOk;
    ListChangeKeeps(st, t, Remove(st.list, t), At(st.threads[t], if rescan then LastScan(0) else Releasing(0)), s);
  }

  // ---------------------------------------------------------------- event_callback

  lemma UpdateStructure(st: State, t: nat)
    requires Structure(st) && Enabled(st, t, Update)
    ensures Structure(UpdateStep(st, t, st.threads[t]))
  {
    var st' := UpdateStep(st, t, st.threads[t]);
    forall s: nat ensures Counters(st', s) == Counters(st, s) {}
  }

  /** The update that makes a socket ready sees the waiter count of everybody watching it. */
  lemma UpdateTells(st: State, t: nat, w: nat, s: nat, k: Kind)
    requires Structure(st) && NoLostWakeUp(st, s) && Enabled(st, t, Update)
    requires w in st.threads && Watches(st.threads[w], s) && s < |st.socks|
    requires InSet(st.threads[w].sets, s, k) && Active(UpdateStep(st, t, st.threads[t]).socks[s], k)
    ensures var st' := UpdateStep(st, t, st.threads[t]);
            w in st'.threads && st'.threads[w] == st.threads[w] && Told(st', w, s, k)
  {
    var st' := UpdateStep(st, t, st.threads[t]);
    if Active(st.socks[s], k) {
      assert Told(st, w, s, k);
      if !st.threads[w].signalled {
        var c :| DueBy(st, c, s, k, w);
        assert DueBy(st', c, s, k, w);
      }
    } else {
      WatcherCounted(st, w, s);
      assert DueBy(st', t, s, k, w);
    }
  }

  lemma UpdateKeeps(st: State, t: nat, s: nat)
    requires Structure(st) && Enabled(st, t, Update)
    ensures Kept(st, t, Update, Step(st, t, Update), s)
  {
    UpdateStructure(st, t);
    hide ListOk, CountsOk, CursorsOk, Told;
    var st' := UpdateStep(st, t, st.threads[t]);
    if NoLostWakeUp(st, s) {
      forall w, k | w in st'.threads && Watches(st'.threads[w], s) && s < |st'.socks|
                    && InSet(st'.threads[w].sets, s, k) && Active(st'.socks[s], k)
        ensures Told(st', w, s, k)
      {
        UpdateTells(st, t, w, s, k);
      }
    }
  }

  /** The walk that lets go of the lock and starts over forgets nobody who is due. */
  lemma WalkTells(st: State, t: nat, w: nat, s: nat, k: Kind)
    requires Structure(st) && Enabled(st, t, Walk) && w in st.threads && Watches(st.threads[w], s)
    requires InSet(st.threads[w].sets, s, k) && Told(st, w, s, k)
    ensures var st' := WalkStep(st, t, st.threads[t]);
            w in st'.threads && st'.threads[w].Selecting? && Told(st', w, s, k)
  {
    var th := st.threads[t];
    var st' := WalkStep(st, t, th);
    assert Mem(st.list, w);
    if !st.threads[w].signalled {
      var c :| DueBy(st, c, s, k, w);
      if c != t {
        assert DueBy(st', c, s, k, w);
      } else {
        var rest := if th.cur.Start? || th.cur.ctr != st.ctr then st.list else After(st.list, th.cur.scb);
        assert Mem(rest, w);
        if w != rest.head {
          if th.cur.Behind? && th.cur.ctr == st.ctr { AfterNext(st.list, th.cur.scb); }
          assert DueBy(st', t, s, k, w);
        }
      }
    }
  }

  /** A walk changes no thread but its own and the `signalled` flag of the one it visits. */
  lemma WalkChanges(st: State, t: nat, u: nat)
    requires Enabled(st, t, Walk)
    ensures var th, st' := st.threads[t], WalkStep(st, t, st.threads[t]);
            && st'.list == st.list && st'.ctr == st.ctr && st'.socks == st.socks
            && (u in st'.threads <==> u in st.threads)
            && (u in st.threads && u != t ==>
                  st'.threads[u] == st.threads[u]
                  || (st.threads[u].Selecting? && st'.threads[u] == st.threads[u].(signalled := true)))
            && (st'.threads[t].Leaving? || (st'.threads[t].Checking? && st'.threads[t].cur.Behind?))
  {
  }

  lemma WalkStructure(st: State, t: nat)
    requires Structure(st) && Enabled(st, t, Walk)
    ensures var st' := WalkStep(st, t, st.threads[t]); ListOk(st') && CountsOk(st')
  {
    hide WalkStep, CursorsOk;
    var st' := WalkStep(st, t, st.threads[t]);
    forall u ensures (u in st'.threads <==> u in st.threads)
                     && (u in st.threads ==> Linked(st'.threads[u]) == Linked(st.threads[u])
                                             && forall s: nat :: Counts(st'.threads[u], s) == Counts(st.threads[u], s)) {
      WalkChanges(st, t, u);
    }
    WalkChanges(st, t, t);
    forall s: nat ensures Counters(st', s) == Counters(st, s) {}
  }

  lemma WalkCursors(st: State, t: nat)
    requires Structure(st) && Enabled(st, t, Walk)
    ensures CursorsOk(WalkStep(st, t, st.threads[t]))
  {
    var th := st.threads[t];
    var st' := WalkStep(st, t, th);
    if th.cur.Behind? && th.cur.ctr == st.ctr && After(st.list, th.cur.scb).Cons? { AfterNext(st.list, th.cur.scb); }
    hide CountsOk, ListOk;
  }

  lemma WalkKeeps(st: State, t: nat, s: nat)
    requires Structure(st) && Enabled(st, t, Walk)
    ensures Kept(st, t, Walk, Step(st, t, Walk), s)
  {
    WalkStructure(st, t);
    WalkCursors(st, t);
    hide WalkStep, CursorsOk, CountsOk, ListOk;
    var st' := WalkStep(st, t, st.threads[t]);
    WalkChanges(st, t, t);
    if NoLostWakeUp(st, s) {
      forall w, k | w in st'.threads && Watches(st'.threads[w], s) && s < |st'.socks|
                    && InSet(st'.threads[w].sets, s, k) && Active(st'.socks[s], k)
        ensures Told(st', w, s, k)
      {
        WalkChanges(st, t, w);
        WalkTells(st, t, w, s, k);
      }
    }
  }

  // ---------------------------------------------------------------- every run

  /** Every step keeps lists and counts right, and loses no wake-up of `s` unless it makes `s`
      writable in alloc_socket while somebody waits for it. */
  lemma StepKeeps(st: State, t: nat, act: Act, s: nat)
    requires Structure(st) && Enabled(st, t, act)
    ensures Kept(st, t, act, Step(st, t, act), s)
  {
    hide Structure, Kept;
    match act
    case Scan(poll) =>
      if st.threads[t].pc.SecondScan? { SecondScanKeeps(st, t, poll, s); } else { ScanKeeps(st, t, poll, s); }
    case Link => LinkKeeps(st, t, s);
    case Count => CountKeeps(st, t, s);
    case Uncount => UncountKeeps(st, t, s);
    case Unlink(rescan) => UnlinkKeeps(st, t, rescan, s);
    case Update => UpdateKeeps(st, t, s);
    case Walk => WalkKeeps(st, t, s);
    case Call(_) => SelectStepsKeep(st, t, act, s);
    case Mark => SelectStepsKeep(st, t, act, s);
    case Wake(_) => SelectStepsKeep(st, t, act, s);
    case Release => SelectStepsKeep(st, t, act, s);
    case Reuse(_, _) => ReuseKeeps(st, t, act, s);
    case Keep(_, _) => ReuseKeeps(st, t, act, s);
    case Init => InitKeeps(st, t, s);
    case _ => SocketStepsKeep(st, t, act, s);
  }

  /** Whenever alloc_socket makes `s` writable in this run, nobody waits for `s`. */
  ghost predicate GuardedRun(st: State, moves: seq<Move>, s: nat)
    requires IsRun(st, moves)
    decreases |moves|
  {
    moves == [] || (Guarded(st, moves[0].t, moves[0].act, s) && GuardedRun(Step(st, moves[0].t, moves[0].act), moves[1..], s))
  }

  lemma {:induction false} RunKeeps(st: State, moves: seq<Move>, s: nat)
    requires Structure(st) && IsRun(st, moves)
    ensures Structure(Run(st, moves))
    ensures NoLostWakeUp(st, s) && GuardedRun(st, moves, s) ==> NoLostWakeUp(Run(st, moves), s)
    decreases |moves|
  {
    if moves != [] {
      hide Structure, NoLostWakeUp, Guarded;
      StepKeeps(st, moves[0].t, moves[0].act, s);
      RunKeeps(Step(st, moves[0].t, moves[0].act), moves[1..], s);
    }
  }

  lemma InitialIsRight(st: State, s: nat)
    requires Initial(st)
    ensures Structure(st) && NoLostWakeUp(st, s)
  {
    forall u: nat ensures Counters(st, u) == {} {}
  }

  /** No lost wake-up. In every interleaving in which alloc_socket makes socket `s` writable only
      while nobody waits for it, a thread blocked in lwip_select on `s`, marked or not, one of
      whose three event fields it waits for is set, has been signalled or is still due to be
      signalled by a callback past its update. */
  lemma BlockedIsTold(st: State, moves: seq<Move>, w: nat, s: nat, k: Kind)
    requires Initial(st) && IsRun(st, moves) && GuardedRun(st, moves, s)
    requires var e := Run(st, moves);
             && w in e.threads && e.threads[w].Selecting? && e.threads[w].pc.Blocked?
             && s < |e.socks| && s < e.threads[w].sets.max && InSet(e.threads[w].sets, s, k) && Active(e.socks[s], k)
    ensures Told(Run(st, moves), w, s, k)
  {
    InitialIsRight(st, s);
    RunKeeps(st, moves, s);
  }

  /** Once no callback is under way, nobody sleeps through an event. */
  lemma QuiescentMeansSignalled(st: State, moves: seq<Move>, w: nat, s: nat, k: Kind)
    requires Initial(st) && IsRun(st, moves) && GuardedRun(st, moves, s)
    requires var e := Run(st, moves);
             && w in e.threads && e.threads[w].Selecting? && e.threads[w].pc.Blocked?
             && s < |e.socks| && s < e.threads[w].sets.max && InSet(e.threads[w].sets, s, k) && Active(e.socks[s], k)
    requires forall c | c in Run(st, moves).threads :: !Run(st, moves).threads[c].Checking?
    ensures Run(st, moves).threads[w].signalled
  {
    BlockedIsTold(st, moves, w, s, k);
  }

  // ---------------------------------------------------------------- the write that is not guarded

  /** When alloc_socket makes `s` writable, exactly those wake-ups are lost that were not given
      already: the write itself tells nobody. */
  lemma RaisingTellsNobody(st: State, moves: seq<Move>, t: nat, s: nat)
    requires Initial(st) && IsRun(st, moves)
    requires Enabled(Run(st, moves), t, Init) && Raises(Run(st, moves), t, Init, s) && NoLostWakeUp(Run(st, moves), s)
    ensures var e := Run(st, moves);
            var e' := Step(e, t, Init);
            && (NoLostWakeUp(e', s) <==>
                  forall w | w in e.threads && Watches(e.threads[w], s) && s in e.threads[w].sets.write :: Told(e, w, s, Snd))
            && (e.socks[s].waiting == 0 ==> NoLostWakeUp(e', s))
            && (forall w | w in e.threads && Watches(e.threads[w], s) && s in e.threads[w].sets.write && !e.threads[w].signalled
                           && (forall c | c in e.threads && e.threads[c].Checking? :: e.threads[c].s != s) ::
                  w in e'.threads && e'.threads[w] == e.threads[w] && e.socks[s].waiting > 0 && Active(e'.socks[s], Snd) && !Told(e', w, s, Snd))
  {
    var e := Run(st, moves);
    var e' := Step(e, t, Init);
    InitialIsRight(st, s);
    RunKeeps(st, moves, s);
    hide Structure, NoLostWakeUp, Told;
    forall w | w in e.threads && Watches(e.threads[w], s)
      ensures e.socks[s].waiting > 0 && w in e'.threads && e'.threads[w] == e.threads[w]
      ensures forall k :: Told(e', w, s, k) <==> Told(e, w, s, k)
    {
      RaisingIsSilent(e, t, w, s);
    }
    RaisingLoses(e, t, s);
  }

  /** A write of alloc_socket changes nobody's prospect of being told. */
  lemma RaisingIsSilent(e: State, t: nat, w: nat, s: nat)
    requires Structure(e) && Enabled(e, t, Init) && w in e.threads && Watches(e.threads[w], s) && s < |e.socks|
    ensures var e' := Step(e, t, Init);
            && e.socks[s].waiting > 0 && w in e'.threads && e'.threads[w] == e.threads[w]
            && forall k :: Told(e', w, s, k) <==> Told(e, w, s, k)
  {
    var e' := Step(e, t, Init);
    WatcherCounted(e, w, s);
    InitFacts(e.threads[t], e.socks[e.threads[t].s]);
    hide Structure, InitSock, InitThread, Told;
    forall k ensures Told(e', w, s, k) <==> Told(e, w, s, k) {
      StillToldAfter(e, e', t, w, s, k);
    }
  }

  lemma StillToldAfter(e: State, e': State, t: nat, w: nat, s: nat, k: Kind)
    requires SameLists(e, e', t) && SameLists(e', e, t) && !e.threads[t].Checking? && !e'.threads[t].Checking?
    requires w in e.threads && e.threads[w].Selecting? && e'.threads[w] == e.threads[w]
    ensures Told(e', w, s, k) <==> Told(e, w, s, k)
  {
    if Told(e, w, s, k) { StillTold(e, e', t, w, s, k); }
    if Told(e', w, s, k) { StillTold(e', e, t, w, s, k); }
  }

  lemma RaisingLoses(e: State, t: nat, s: nat)
    requires Enabled(e, t, Init) && Raises(e, t, Init, s) && NoLostWakeUp(e, s)
    requires var e' := Step(e, t, Init);
             forall w | w in e.threads && Watches(e.threads[w], s) ::
               && e.socks[s].waiting > 0 && w in e'.threads && e'.threads[w] == e.threads[w]
               && forall k :: Told(e', w, s, k) <==> Told(e, w, s, k)
    ensures var e' := Step(e, t, Init);
            && (NoLostWakeUp(e', s) <==>
                  forall w | w in e.threads && Watches(e.threads[w], s) && s in e.threads[w].sets.write :: Told(e, w, s, Snd))
            && (e.socks[s].waiting == 0 ==> NoLostWakeUp(e', s))
            && (forall w | w in e.threads && Watches(e.threads[w], s) && s in e.threads[w].sets.write && !e.threads[w].signalled
                           && (forall c | c in e.threads && e.threads[c].Checking? :: e.threads[c].s != s) ::
                  Active(e'.socks[s], Snd) && !Told(e', w, s, Snd))
  {
    var e' := Step(e, t, Init);
    assert Active(e'.socks[s], Snd) && !Watches(e'.threads[t], s);
    assert forall k: Kind | !k.Snd? :: Active(e'.socks[s], k) == Active(e.socks[s], k);
    assert forall w | w in e'.threads && Watches(e'.threads[w], s) :: w in e.threads && e.threads[w] == e'.threads[w];
  }

  /** The LWIP_ASSERT of alloc_socket that nobody waits for the slot holds exactly when no select
      call stands between counting the descriptor and uncounting it. */
  lemma AllocAssertionExact(st: State, moves: seq<Move>, t: nat)
    requires Initial(st) && IsRun(st, moves) && Enabled(Run(st, moves), t, Init) && Run(st, moves).threads[t].stage.AssertNobody?
    ensures var e := Run(st, moves);
            var s := e.threads[t].s;
            e.socks[s].waiting == 0 <==> forall u | u in e.threads :: !Counts(e.threads[u], s)
  {
    var e := Run(st, moves);
    var s := e.threads[t].s;
    InitialIsRight(st, s);
    RunKeeps(st, moves, s);
    assert e.socks[s].waiting == |Counters(e, s)|;
    if Counters(e, s) != {} {
      var u :| u in Counters(e, s);
    } else {
      assert forall u | u in e.threads && Counts(e.threads[u], s) :: u in Counters(e, s);
    }
  }

  ghost predicate Reachable(st: State, e: State) {
    exists moves :: IsRun(st, moves) && Run(st, moves) == e
  }

  lemma {:induction false} RunThenStep(st: State, moves: seq<Move>, m: Move)
    requires IsRun(st, moves) && Enabled(Run(st, moves), m.t, m.act)
    ensures IsRun(st, moves + [m]) && Run(st, moves + [m]) == Step(Run(st, moves), m.t, m.act)
    decreases |moves|
  {
    if moves == [] {
      assert moves + [m] == [m];
      assert [m][1..] == [];
      assert IsRun(Step(st, m.t, m.act), []);
    } else {
      RunThenStep(Step(st, moves[0].t, moves[0].act), moves[1..], m);
      assert (moves + [m])[1..] == moves[1..] + [m];
    }
  }

  lemma ReachNext(st: State, e: State, t: nat, act: Act) returns (e': State)
    requires Reachable(st, e) && Enabled(e, t, act)
    ensures e' == Step(e, t, act) && Reachable(st, e')
  {
    var moves :| IsRun(st, moves) && Run(st, moves) == e;
    RunThenStep(st, moves, Move(t, act));
    e' := Step(e, t, act);
  }

  /** Thread 1 allocates descriptor 0 and stands at `stage`; thread 0 selects it for writing. */
  function Race(held: set<nat>, using: Use, pc: Pc, waiting: nat, used: nat, list: List, ctr: nat, stage: Stage, snd: bool): State {
    State([Socket(0, snd, false, waiting, true, used, false, false)], list, ctr,
          map[0 := Selecting(Sets({}, {0}, {}, 1), held, using, false, pc), 1 := Initialising(0, true, stage)])
  }

  /** Such a write is within reach, and marking the descriptor does not help: alloc_socket gives the
      slot to a new connection and lets go of the lock, a select call marks the descriptor, finds it
      not writable and goes to sleep, and then alloc_socket makes it writable. The assertion fails
      on the way, since select_waiting is 1. */
  lemma MarkedSleeperIsNotTold() returns (st: State, a: State, e: State)
    ensures Initial(st) && Reachable(st, a) && Reachable(st, e)
    ensures 1 in a.threads && a.threads[1].Initialising? && a.threads[1].stage.AssertNobody? && |a.socks| == 1 && a.socks[0].waiting == 1
    ensures 0 in e.threads && e.threads[0].Selecting? && e.threads[0].pc.Blocked? && 0 in e.threads[0].held && 0 in e.threads[0].sets.write
    ensures |e.socks| == 1 && Active(e.socks[0], Snd) && !Told(e, 0, 0, Snd)
  {
    hide Reachable, Told;
    st, e := StartRace();
    e := MarkAll(st, e);
    e := JoinList(st, e);
    e := SleepOn(st, e);
    a := ReachNext(st, e, 1, Init);
    assert a == Race({0}, Nothing, Blocked, 1, 2, Cons(0, Nil), 1, AssertNobody, false);
    e := ReachNext(st, a, 1, Init);
    assert e == Race({0}, Nothing, Blocked, 1, 2, Cons(0, Nil), 1, ClearRcv, false);
    e := ReachNext(st, e, 1, Init);
    assert e == Race({0}, Nothing, Blocked, 1, 2, Cons(0, Nil), 1, SetSnd, false);
    e := ReachNext(st, e, 1, Init);
    assert e == Race({0}, Nothing, Blocked, 1, 2, Cons(0, Nil), 1, ClearErr, true);
    NobodyTells(e);
  }

  lemma NobodyTells(e: State)
    requires e == Race({0}, Nothing, Blocked, 1, 2, Cons(0, Nil), 1, ClearErr, true)
    ensures !Told(e, 0, 0, Snd)
  {
    assert forall c :: !DueBy(e, c, 0, Snd, 0);
  }

  lemma StartRace() returns (st: State, e: State)
    ensures Initial(st) && Reachable(st, e) && e == Race({}, Nothing, Marking(Rcv, 0), 0, 1, Nil, 0, ClearLastdata, false)
  {
    st := State([Socket(0, false, false, 0, false, 0, false, false)], Nil, 0, map[0 := Idle, 1 := Idle]);
    assert IsRun(st, []) && Run(st, []) == st;
    assert Reachable(st, st);
    hide Reachable;
    e := ReachNext(st, st, 1, Reuse(0, true));
    e := ReachNext(st, e, 0, Call(Sets({}, {0}, {}, 1)));
    assert e == Race({}, Nothing, Marking(Rcv, 0), 0, 1, Nil, 0, ClearLastdata, false);
  }

  lemma MarkWritten(st: State, e0: State) returns (e: State)
    requires Reachable(st, e0) && e0 == Race({}, Nothing, Marking(Rcv, 0), 0, 1, Nil, 0, ClearLastdata, false)
    ensures Reachable(st, e) && e == Race({0}, Nothing, Marking(Snd, 1), 0, 2, Nil, 0, ClearLastdata, false)
  {
    hide Reachable;
    e := ReachNext(st, e0, 0, Mark);
    assert e == Race({}, Nothing, Marking(Rcv, 1), 0, 1, Nil, 0, ClearLastdata, false);
    e := ReachNext(st, e, 0, Mark);
    assert e == Race({}, Nothing, Marking(Snd, 0), 0, 1, Nil, 0, ClearLastdata, false);
    e := ReachNext(st, e, 0, Mark);
    assert {} + {0} == {0};
    assert e == Race({0}, Nothing, Marking(Snd, 1), 0, 2, Nil, 0, ClearLastdata, false);
  }

  lemma MarkAll(st: State, e0: State) returns (e: State)
    requires Reachable(st, e0) && e0 == Race({}, Nothing, Marking(Rcv, 0), 0, 1, Nil, 0, ClearLastdata, false)
    ensures Reachable(st, e) && e == Race({0}, Nothing, FirstScan(0, false), 0, 2, Nil, 0, ClearLastdata, false)
  {
    hide Reachable;
    e := MarkWritten(st, e0);
    e := ReachNext(st, e, 0, Mark);
    assert e == Race({0}, Nothing, Marking(Err, 0), 0, 2, Nil, 0, ClearLastdata, false);
    e := ReachNext(st, e, 0, Mark);
    assert e == Race({0}, Nothing, Marking(Err, 1), 0, 2, Nil, 0, ClearLastdata, false);
    e := ReachNext(st, e, 0, Mark);
    assert e == Race({0}, Nothing, FirstScan(0, false), 0, 2, Nil, 0, ClearLastdata, false);
  }

  lemma JoinList(st: State, e0: State) returns (e: State)
    requires Reachable(st, e0) && e0 == Race({0}, Nothing, FirstScan(0, false), 0, 2, Nil, 0, ClearLastdata, false)
    ensures Reachable(st, e) && e == Race({0}, Nothing, Counting(0), 0, 2, Cons(0, Nil), 1, ClearLastdata, false)
  {
    hide Reachable;
    e := ReachNext(st, e0, 0, Scan(false));
    assert e == Race({0}, One(0), FirstScan(1, false), 0, 3, Nil, 0, ClearLastdata, false);
    e := ReachNext(st, e, 0, Drop);
    assert e == Race({0}, Nothing, FirstScan(1, false), 0, 2, Nil, 0, ClearLastdata, false);
    e := ReachNext(st, e, 0, Scan(false));
    assert e == Race({0}, Nothing, Linking, 0, 2, Nil, 0, ClearLastdata, false);
    e := ReachNext(st, e, 0, Link);
    assert e == Race({0}, Nothing, Counting(0), 0, 2, Cons(0, Nil), 1, ClearLastdata, false);
  }

  lemma CountAll(st: State, e0: State) returns (e: State)
    requires Reachable(st, e0) && e0 == Race({0}, Nothing, Counting(0), 0, 2, Cons(0, Nil), 1, ClearLastdata, false)
    ensures Reachable(st, e) && e == Race({0}, Nothing, SecondScan(0, false), 1, 2, Cons(0, Nil), 1, ClearLastdata, false)
  {
    hide Reachable;
    e := ReachNext(st, e0, 0, Count);
    assert e == Race({0}, One(0), Counting(1), 1, 3, Cons(0, Nil), 1, ClearLastdata, false);
    e := ReachNext(st, e, 0, Drop);
    assert e == Race({0}, Nothing, Counting(1), 1, 2, Cons(0, Nil), 1, ClearLastdata, false);
    e := ReachNext(st, e, 0, Count);
    assert e == Race({0}, Nothing, SecondScan(0, false), 1, 2, Cons(0, Nil), 1, ClearLastdata, false);
  }

  lemma SleepOn(st: State, e0: State) returns (e: State)
    requires Reachable(st, e0) && e0 == Race({0}, Nothing, Counting(0), 0, 2, Cons(0, Nil), 1, ClearLastdata, false)
    ensures Reachable(st, e) && e == Race({0}, Nothing, Blocked, 1, 2, Cons(0, Nil), 1, ClearLastdata, false)
  {
    hide Reachable;
    e := CountAll(st, e0);
    e := ReachNext(st, e, 0, Scan(false));
    assert e == Race({0}, One(0), SecondScan(1, false), 1, 3, Cons(0, Nil), 1, ClearLastdata, false);
    e := ReachNext(st, e, 0, Drop);
    assert e == Race({0}, Nothing, SecondScan(1, false), 1, 2, Cons(0, Nil), 1, ClearLastdata, false);
    e := ReachNext(st, e, 0, Scan(false));
    assert e == Race({0}, Nothing, Blocked, 1, 2, Cons(0, Nil), 1, ClearLastdata, false);
  }

  // ---------------------------------------------------------------- what the event fields say

  /** A write to the event fields of a slot: an event, or one of the writes of alloc_socket. */
  datatype Write = Got(event: Event) | RcvCleared | SndSet(writable: bool) | ErrCleared

  /** What a step writes to the event fields of `s`. */
  function WriteOf(st: State, m: Move, s: nat): seq<Write> {
    if m.t !in st.threads then []
    else
      var th := st.threads[m.t];
      if m.act.Update? && th.Updating? && th.s == s then [Got(th.event)]
      else if m.act.Init? && th.Initialising? && th.s == s then
        match th.stage
        case ClearRcv => [RcvCleared]
        case SetSnd => [SndSet(th.writable)]
        case ClearErr => [ErrCleared]
        case _ => []
      else []
  }

  ghost function Log(st: State, moves: seq<Move>, s: nat): seq<Write>
    requires IsRun(st, moves)
    decreases |moves|
  {
    if moves == [] then [] else WriteOf(st, moves[0], s) + Log(Step(st, moves[0].t, moves[0].act), moves[1..], s)
  }

  /** What follows the last `x` in a log; all of it if there is none. */
  function Since(log: seq<Write>, x: Write): seq<Write> { if x in log then Since(log[1..], x) else log }

  /** A write to sendevent, and what it writes. */
  predicate OnSnd(x: Write) { x == Got(SndPlus) || x == Got(SndMinus) || x.SndSet? }

  predicate Raising(x: Write) { x == Got(SndPlus) || x == SndSet(true) }

  /** What one step does to the three event fields of a slot. */
  lemma StepWrites(st: State, t: nat, act: Act, s: nat)
    requires Enabled(st, t, act) && s < |st.socks|
    ensures var so, w := st.socks[s], WriteOf(st, Move(t, act), s);
            var st' := Step(st, t, act);
            && |st'.socks| == |st.socks| && |w| <= 1
            && st'.socks[s].rcv == (if w == [RcvCleared] then 0 else so.rcv + (if w == [Got(RcvPlus)] then 1 else if w == [Got(RcvMinus)] then -1 else 0))
            && st'.socks[s].snd == (if w != [] && OnSnd(w[0]) then Raising(w[0]) else so.snd)
            && st'.socks[s].err == (w == [Got(Error)] || (so.err && w != [ErrCleared]))
  {
    if !act.Update? && !act.Init? {
      hide Step, Enabled;
      NoEvent(st, t, act, s);
    }
  }

  /** All other steps leave the event fields alone. */
  lemma NoEvent(st: State, t: nat, act: Act, s: nat)
    requires Enabled(st, t, act) && s < |st.socks| && !act.Update? && !act.Init?
    ensures var so, st' := st.socks[s], Step(st, t, act);
            && |st'.socks| == |st.socks| && st'.socks[s].rcv == so.rcv && st'.socks[s].snd == so.snd && st'.socks[s].err == so.err
  {
    hide Done, Freed;
    forall so: Socket ensures Done(so).rcv == so.rcv && Done(so).snd == so.snd && Done(so).err == so.err
                              && Freed(so).rcv == so.rcv && Freed(so).snd == so.snd && Freed(so).err == so.err { KeptByUse(so); }
  }

  lemma KeptByUse(so: Socket)
    ensures Done(so).rcv == so.rcv && Done(so).snd == so.snd && Done(so).err == so.err
    ensures Freed(so).rcv == so.rcv && Freed(so).snd == so.snd && Freed(so).err == so.err
  {
  }

  /** The arrivals without the receipts since rcvevent was last cleared, from `r` on if never. */
  function Arrivals(r: int, log: seq<Write>): int {
    var since := multiset(Since(log, RcvCleared));
    (if RcvCleared in log then 0 else r) + since[Got(RcvPlus)] - since[Got(RcvMinus)]
  }

  /** Over every run, that is what rcvevent counts. */
  lemma {:induction false} ArrivalsAddUp(st: State, moves: seq<Move>, s: nat)
    requires IsRun(st, moves) && s < |st.socks|
    ensures s < |Run(st, moves).socks| && Run(st, moves).socks[s].rcv == Arrivals(st.socks[s].rcv, Log(st, moves, s))
    decreases |moves|
  {
    if moves != [] {
      hide Step, WriteOf, Enabled, Arrivals;
      var m := moves[0];
      StepWrites(st, m.t, m.act, s);
      ArrivalsAddUp(Step(st, m.t, m.act), moves[1..], s);
      OneArrival(st.socks[s].rcv, WriteOf(st, m, s), Log(Step(st, m.t, m.act), moves[1..], s));
    }
  }

  lemma OneArrival(r: int, w: seq<Write>, log: seq<Write>)
    requires |w| <= 1
    ensures var r' := if w == [RcvCleared] then 0 else r + (if w == [Got(RcvPlus)] then 1 else if w == [Got(RcvMinus)] then -1 else 0);
            Arrivals(r, w + log) == Arrivals(r', log)
  {
    hide Since;
    SinceMore(w, log, RcvCleared);
    NothingToDrop(log, RcvCleared);
    if w != [] { assert w == [w[0]]; }
  }

  lemma NothingToDrop(log: seq<Write>, x: Write)
    ensures x !in log ==> Since(log, x) == log
  {
  }

  lemma SinceMore(w: seq<Write>, log: seq<Write>, x: Write)
    requires |w| <= 1
    ensures Since(w + log, x) == if x in log then Since(log, x) else if w == [x] then log else w + log
    ensures x in w + log <==> x in log || w == [x]
    ensures multiset(w + log) == multiset(w) + multiset(log)
  {
    if w == [] {
      assert w + log == log;
    } else {
      assert w == [w[0]] && (w + log)[1..] == log;
      assert x !in log ==> Since(log, x) == log;
    }
  }

  /** The writes to sendevent in a log. */
  function SndWrites(log: seq<Write>): seq<Write> {
    if log == [] then [] else (if OnSnd(log[0]) then [log[0]] else []) + SndWrites(log[1..])
  }

  /** What the last write to sendevent in a log said, `v` if there is none. */
  function LastSaid(v: bool, log: seq<Write>): bool {
    var writes := SndWrites(log);
    if writes == [] then v else Raising(writes[|writes| - 1])
  }

  /** Over every run, that is what sendevent is. */
  lemma {:induction false} LastWriteCounts(st: State, moves: seq<Move>, s: nat)
    requires IsRun(st, moves) && s < |st.socks|
    ensures s < |Run(st, moves).socks| && Run(st, moves).socks[s].snd == LastSaid(st.socks[s].snd, Log(st, moves, s))
    decreases |moves|
  {
    if moves != [] {
      hide Step, WriteOf, Enabled, LastSaid;
      var m := moves[0];
      StepWrites(st, m.t, m.act, s);
      LastWriteCounts(Step(st, m.t, m.act), moves[1..], s);
      OneSaid(st.socks[s].snd, WriteOf(st, m, s), Log(Step(st, m.t, m.act), moves[1..], s));
    } else {
      assert SndWrites([]) == [];
    }
  }

  lemma OneSaid(v: bool, w: seq<Write>, log: seq<Write>)
    requires |w| <= 1
    ensures LastSaid(v, w + log) == LastSaid(if w != [] && OnSnd(w[0]) then Raising(w[0]) else v, log)
  {
    if w == [] {
      assert w + log == log;
    } else {
      assert (w + log)[1..] == log;
    }
  }

  /** Over every run, errevent is set exactly if an error came since it was last cleared. */
  lemma {:induction false} ErrorsStay(st: State, moves: seq<Move>, s: nat)
    requires IsRun(st, moves) && s < |st.socks|
    ensures var e, log := Run(st, moves), Log(st, moves, s);
            s < |e.socks| && (e.socks[s].err <==> Got(Error) in Since(log, ErrCleared) || (st.socks[s].err && ErrCleared !in log))
    decreases |moves|
  {
    if moves != [] {
      hide Step, WriteOf, Enabled;
      var m := moves[0];
      StepWrites(st, m.t, m.act, s);
      ErrorsStay(Step(st, m.t, m.act), moves[1..], s);
      SinceMore(WriteOf(st, m, s), Log(Step(st, m.t, m.act), moves[1..], s), ErrCleared);
    }
  }

  /** The event that a waiter for `k` waits for. */
  predicate Wakes(e: Event, k: Kind) { (e.RcvPlus? && k.Rcv?) || (e.SndPlus? && k.Snd?) || (e.Error? && k.Err?) }

  /** In every guarded run, an event sets its field, and everybody blocked on it is told; for an
      arrival the count must not be below zero. */
  lemma EventTells(st: State, moves: seq<Move>, t: nat, w: nat, s: nat, k: Kind)
    requires Initial(st) && IsRun(st, moves) && GuardedRun(st, moves, s)
    requires var e := Run(st, moves);
             && Enabled(e, t, Update) && e.threads[t].s == s && Wakes(e.threads[t].event, k) && (k.Rcv? ==> e.socks[s].rcv >= 0)
             && w in e.threads && Watches(e.threads[w], s) && InSet(e.threads[w].sets, s, k)
    ensures var e' := Step(Run(st, moves), t, Update);
            && s < |e'.socks| && Active(e'.socks[s], k) && w in e'.threads && e'.threads[w].Selecting? && Told(e', w, s, k)
  {
    var e := Run(st, moves);
    InitialIsRight(st, s);
    RunKeeps(st, moves, s);
    StepWrites(e, t, Update, s);
    UpdateTells(e, t, w, s, k);
  }

  // ---------------------------------------------------------------- what a scan reports

  /** A scan reports a descriptor exactly if an event it is asked for is active, or unread data is
      left from an earlier receive. */
  lemma ScanReports(st: State, t: nat, poll: bool)
    requires Enabled(st, t, Scan(poll)) && !st.threads[t].pc.LastScan?
    requires var th := st.threads[t]; th.pc.i < th.sets.max && Member(th.sets, th.pc.i) && Gettable(st, th.pc.i)
    ensures var th, th' := st.threads[t], Step(st, t, Scan(poll)).threads[t];
            var so := st.socks[th.pc.i];
            && th'.Selecting? && (th.pc.FirstScan? ==> th'.pc.FirstScan?) && (th.pc.SecondScan? ==> th'.pc.SecondScan?)
            && th'.pc.i == th.pc.i + 1
            && (th'.pc.ready <==> th.pc.ready || exists k :: InSet(th.sets, th.pc.i, k) && (Active(so, k) || (k.Rcv? && so.lastdata)))
  {
    var th := st.threads[t];
    var so := st.socks[th.pc.i];
    assert Active(so, Rcv) == (so.rcv > 0) && Active(so, Snd) == so.snd && Active(so, Err) == so.err;
    assert InSet(th.sets, th.pc.i, Rcv) == (th.pc.i in th.sets.read) && InSet(th.sets, th.pc.i, Snd) == (th.pc.i in th.sets.write)
           && InSet(th.sets, th.pc.i, Err) == (th.pc.i in th.sets.except);
  }

  /** A thread goes to sleep only at the end of a second scan that has found nothing, and it wakes
      up only when it is signalled or its time is over. */
  lemma SleepsOnlyAfterScan(st: State, t: nat, act: Act, u: nat)
    requires Enabled(st, t, act) && u in st.threads
    ensures var st' := Step(st, t, act);
            && u in st'.threads
            && (st'.threads[u].Selecting? && st'.threads[u].pc.Blocked? && !(st.threads[u].Selecting? && st.threads[u].pc.Blocked?) ==>
                  && u == t && act.Scan? && st.threads[u].Selecting? && st.threads[u].pc.SecondScan?
                  && st.threads[u].pc.i >= st.threads[u].sets.max && !st.threads[u].pc.ready)
            && (st.threads[u].Selecting? && st.threads[u].pc.Blocked? && !(st'.threads[u].Selecting? && st'.threads[u].pc.Blocked?) ==>
                  u == t && act.Wake? && (st.threads[u].signalled || act.timeout))
  {
    SameThreads(st, t, act);
  }

  /** A step changes no other thread but by a signal. */
  lemma SameThreads(st: State, t: nat, act: Act)
    requires Enabled(st, t, act)
    ensures var st' := Step(st, t, act);
            && t in st.threads && st'.threads.Keys == st.threads.Keys
            && forall u | u in st.threads && u != t :: st'.threads[u] == st.threads[u]
                 || (act.Walk? && st.threads[u].Selecting? && st'.threads[u] == st.threads[u].(signalled := true) && Wants(st.threads[u].sets, st.threads[t]))
  {
  }

  // ---------------------------------------------------------------- nobody is woken for nothing

  /** At some point of the run the socket had the event. */
  ghost predicate WasActive(st: State, moves: seq<Move>, s: nat, k: Kind)
    requires IsRun(st, moves)
    decreases |moves|
  {
    || (s < |st.socks| && Active(st.socks[s], k))
    || (moves != [] && WasActive(Step(st, moves[0].t, moves[0].act), moves[1..], s, k))
  }

  /** A callback carries only events that were there, and a signal was for one that was asked for. */
  ghost predicate Earned(st: State, moves: seq<Move>)
    requires IsRun(st, moves)
  {
    var e := Run(st, moves);
    && (forall c, k | c in e.threads && e.threads[c].Checking? && Flag(e.threads[c], k) :: WasActive(st, moves, e.threads[c].s, k))
    && (forall w | w in e.threads && e.threads[w].Selecting? && e.threads[w].signalled ::
          exists s, k :: InSet(e.threads[w].sets, s, k) && WasActive(st, moves, s, k))
  }

  lemma {:induction false} LastMove(st: State, moves: seq<Move>)
    requires IsRun(st, moves) && moves != []
    ensures var n := |moves| - 1;
            && IsRun(st, moves[..n]) && Enabled(Run(st, moves[..n]), moves[n].t, moves[n].act)
            && Run(st, moves) == Step(Run(st, moves[..n]), moves[n].t, moves[n].act)
    decreases |moves|
  {
    hide Step, Enabled;
    var n := |moves| - 1;
    if n == 0 {
      assert moves[..0] == [] && moves[1..] == [];
    } else {
      var next := Step(st, moves[0].t, moves[0].act);
      LastMove(next, moves[1..]);
      assert moves[..n][1..] == moves[1..][..n - 1] && moves[1..][n - 1] == moves[n];
    }
  }

  lemma {:induction false} WasActiveStill(st: State, moves: seq<Move>, s: nat, k: Kind)
    requires IsRun(st, moves) && moves != [] && IsRun(st, moves[..|moves| - 1])
    ensures WasActive(st, moves[..|moves| - 1], s, k) ==> WasActive(st, moves, s, k)
    decreases |moves|
  {
    hide Step, Enabled, Active;
    var n := |moves| - 1;
    if n > 0 {
      assert moves[..n][1..] == moves[1..][..n - 1];
      WasActiveStill(Step(st, moves[0].t, moves[0].act), moves[1..], s, k);
    }
  }

  lemma {:induction false} ActiveNow(st: State, moves: seq<Move>, s: nat, k: Kind)
    requires IsRun(st, moves) && s < |Run(st, moves).socks| && Active(Run(st, moves).socks[s], k)
    ensures WasActive(st, moves, s, k)
    decreases |moves|
  {
    if moves != [] {
      hide Step, Enabled, Active;
      ActiveNow(Step(st, moves[0].t, moves[0].act), moves[1..], s, k);
    }
  }

  /** Nobody is woken for nothing: in every run, a signalled thread waits for an event that some
      socket of its sets had. */
  lemma {:induction false} SignalIsEarned(st: State, moves: seq<Move>)
    requires Initial(st) && IsRun(st, moves)
    ensures Earned(st, moves)
    decreases |moves|
  {
    if moves != [] {
      var n := |moves| - 1;
      var m := moves[n];
      LastMove(st, moves);
      SignalIsEarned(st, moves[..n]);
      var e, e' := Run(st, moves[..n]), Run(st, moves);
      hide Step, Enabled, WasActive;
      forall c, k | c in e'.threads && e'.threads[c].Checking? && Flag(e'.threads[c], k) ensures WasActive(st, moves, e'.threads[c].s, k) {
        FlagSource(e, m.t, m.act, c, k);
        if e'.threads[c].s < |e'.socks| && Active(e'.socks[e'.threads[c].s], k) {
          ActiveNow(st, moves, e'.threads[c].s, k);
        } else {
          WasActiveStill(st, moves, e'.threads[c].s, k);
        }
      }
      forall w | w in e'.threads && e'.threads[w].Selecting? && e'.threads[w].signalled
        ensures exists s, k :: InSet(e'.threads[w].sets, s, k) && WasActive(st, moves, s, k)
      {
        var s, k := SignalSource(st, moves[..n], e, m.t, m.act, w);
        WasActiveStill(st, moves, s, k);
      }
    }
  }

  lemma FlagSource(e: State, t: nat, act: Act, c: nat, k: Kind)
    requires Enabled(e, t, act)
    requires var e' := Step(e, t, act); c in e'.threads && e'.threads[c].Checking? && Flag(e'.threads[c], k)
    ensures var e' := Step(e, t, act);
            || (e'.threads[c].s < |e'.socks| && Active(e'.socks[e'.threads[c].s], k))
            || (c in e.threads && e.threads[c].Checking? && e.threads[c].s == e'.threads[c].s && Flag(e.threads[c], k))
  {
    SameThreads(e, t, act);
  }

  lemma SignalSource(st: State, moves: seq<Move>, e: State, t: nat, act: Act, w: nat) returns (s: nat, k: Kind)
    requires IsRun(st, moves) && e == Run(st, moves) && Earned(st, moves) && Enabled(e, t, act)
    requires var e' := Step(e, t, act); w in e'.threads && e'.threads[w].Selecting? && e'.threads[w].signalled
    ensures InSet(Step(e, t, act).threads[w].sets, s, k) && WasActive(st, moves, s, k)
  {
    hide WasActive;
    SameThreads(e, t, act);
    var e' := Step(e, t, act);
    if e.threads[w].Selecting? && e.threads[w].signalled && e'.threads[w].sets == e.threads[w].sets {
      s, k :| InSet(e.threads[w].sets, s, k) && WasActive(st, moves, s, k);
    } else {
      SelfKeepsSignal(e, t, act);
      var th := e.threads[t];
      s := th.s;
      k := if th.hasRcv && s in e.threads[w].sets.read then Rcv else if th.hasSnd && s in e.threads[w].sets.write then Snd else Err;
      assert Flag(th, k);
    }
  }

  /** No step of its own signals a thread. */
  lemma SelfKeepsSignal(e: State, t: nat, act: Act)
    requires Enabled(e, t, act)
    ensures var th' := Step(e, t, act).threads[t];
            th'.Selecting? && th'.signalled ==> e.threads[t].Selecting? && e.threads[t].signalled && th'.sets == e.threads[t].sets
  {
  }

  // ---------------------------------------------------------------- the use count

  /** The thread has marked `s` in lwip_select. */
  predicate Marks(th: Thread, s: nat) { th.Selecting? && s in th.held }

  /** The thread uses `s` until its next done_socket or free_socket. */
  predicate Uses(th: Thread, s: nat) {
    match th
    case Idle => false
    case Selecting(_, _, using, _, _) => using == One(s)
    case _ => th.s == s
  }

  ghost function Markers(st: State, s: nat): set<nat> { set t | t in st.threads && Marks(st.threads[t], s) }

  ghost function Users(st: State, s: nat): set<nat> { set t | t in st.threads && Uses(st.threads[t], s) }

  /** fd_used counts the marks and uses of a slot, and a thread marks nothing that it will not
      let go of again. */
  ghost predicate UseOk(st: State) {
    && (forall s: nat | s < |st.socks| :: st.socks[s].used == |Markers(st, s)| + |Users(st, s)|)
    && (forall t | t in st.threads :: HoldsRight(st.threads[t], |st.socks|))
  }

  ghost predicate HoldsRight(th: Thread, n: nat) {
    match th
    case Idle => true
    case Selecting(x, held, using, _, pc) =>
      && (forall s | s in held :: s < x.max && s < n && (pc.Releasing? ==> pc.i <= s)) && (using.One? ==> using.s < n)
    case _ => th.s < n
  }

  function Share(th: Thread, s: nat): nat { (if Marks(th, s) then 1 else 0) + if Uses(th, s) then 1 else 0 }

  /** One step moves the count of a slot as it moves the share of its thread. */
  ghost predicate Fair(st: State, t: nat, st': State, s: nat) {
    && t in st.threads && t in st'.threads && s < |st.socks| && s < |st'.socks|
    && st'.socks[s].used + Share(st.threads[t], s) == st.socks[s].used + Share(st'.threads[t], s)
  }

  lemma DoneUse(so: Socket)
    ensures Done(so).used == if so.used > 0 then so.used - 1 else 0
  {
  }

  lemma FairMark(st: State, t: nat, s: nat)
    requires Enabled(st, t, Mark) && s < |st.socks| && HoldsRight(st.threads[t], |st.socks|) && st.socks[s].used >= Share(st.threads[t], s)
    ensures Fair(st, t, Step(st, t, Mark), s)
  {
  }

  lemma FairRelease(st: State, t: nat, s: nat)
    requires Enabled(st, t, Release) && s < |st.socks| && HoldsRight(st.threads[t], |st.socks|) && st.socks[s].used >= Share(st.threads[t], s)
    ensures Fair(st, t, Step(st, t, Release), s)
  {
    hide Done;
    DoneUse(st.socks[s]);
  }

  lemma FairDrop(st: State, t: nat, s: nat)
    requires Enabled(st, t, Drop) && s < |st.socks| && HoldsRight(st.threads[t], |st.socks|) && st.socks[s].used >= Share(st.threads[t], s)
    ensures Fair(st, t, Step(st, t, Drop), s)
  {
    hide Done;
    DoneUse(st.socks[s]);
  }

  lemma FairScans(st: State, t: nat, act: Act, s: nat)
    requires Enabled(st, t, act) && s < |st.socks| && (act.Scan? || act.Count? || act.Uncount?)
    ensures Fair(st, t, Step(st, t, act), s)
  {
  }

  lemma FairRest(st: State, t: nat, act: Act, s: nat)
    requires Enabled(st, t, act) && s < |st.socks| && HoldsRight(st.threads[t], |st.socks|) && st.socks[s].used >= Share(st.threads[t], s)
    requires !act.Mark? && !act.Release? && !act.Drop? && !act.Scan? && !act.Count? && !act.Uncount?
    ensures Fair(st, t, Step(st, t, act), s)
  {
  }

  lemma ShareMoves(st: State, t: nat, act: Act, s: nat)
    requires Enabled(st, t, act) && s < |st.socks| && HoldsRight(st.threads[t], |st.socks|) && st.socks[s].used >= Share(st.threads[t], s)
    ensures Fair(st, t, Step(st, t, act), s)
  {
    hide Step, Fair, HoldsRight;
    if act.Mark? {
      FairMark(st, t, s);
    } else if act.Release? {
      FairRelease(st, t, s);
    } else if act.Drop? {
      FairDrop(st, t, s);
    } else if act.Scan? || act.Count? || act.Uncount? {
      FairScans(st, t, act, s);
    } else {
      FairRest(st, t, act, s);
    }
  }

  lemma UseKept(st: State, t: nat, act: Act)
    requires UseOk(st) && Enabled(st, t, act)
    ensures UseOk(Step(st, t, act))
  {
    hide Step, Enabled, HoldsRight, Share, Marks, Uses;
    var st' := Step(st, t, act);
    SocketsStay(st, t, act);
    SameThreads(st, t, act);
    forall s: nat | s < |st.socks| ensures st'.socks[s].used == |Markers(st', s)| + |Users(st', s)| {
      SharesSum(st, st', t, s);
      ShareMoves(st, t, act, s);
    }
    forall u | u in st'.threads ensures HoldsRight(st'.threads[u], |st'.socks|) {
      if u == t {
        OwnHold(st, t, act);
      } else {
        OtherHold(st.threads[u], st'.threads[u], |st.socks|);
      }
    }
  }

  lemma SocketsStay(st: State, t: nat, act: Act)
    requires Enabled(st, t, act)
    ensures |Step(st, t, act).socks| == |st.socks|
  {
  }

  lemma OwnHold(st: State, t: nat, act: Act)
    requires Enabled(st, t, act) && HoldsRight(st.threads[t], |st.socks|)
    ensures t in Step(st, t, act).threads && HoldsRight(Step(st, t, act).threads[t], |st.socks|)
  {
    if st.threads[t].Selecting? {
      hide Step, HoldsRight;
      SelectHold(st, t, act);
    }
  }

  lemma SelectHold(st: State, t: nat, act: Act)
    requires Enabled(st, t, act) && st.threads[t].Selecting? && HoldsRight(st.threads[t], |st.socks|)
    ensures t in Step(st, t, act).threads && HoldsRight(Step(st, t, act).threads[t], |st.socks|)
  {
    hide Done, Ready;
  }

  lemma OtherHold(th: Thread, th': Thread, n: nat)
    requires HoldsRight(th, n) && (th' == th || (th.Selecting? && th' == th.(signalled := true)))
    ensures HoldsRight(th', n)
  {
  }

  lemma SharesSum(st: State, st': State, t: nat, s: nat)
    requires t in st.threads && st'.threads.Keys == st.threads.Keys
    requires forall u | u in st.threads && u != t ::
               st'.threads[u] == st.threads[u] || (st.threads[u].Selecting? && st'.threads[u] == st.threads[u].(signalled := true))
    ensures |Markers(st', s)| + |Users(st', s)| + Share(st.threads[t], s) == |Markers(st, s)| + |Users(st, s)| + Share(st'.threads[t], s)
    ensures |Markers(st, s)| + |Users(st, s)| >= Share(st.threads[t], s)
  {
    hide Marks, Uses, Markers, Users;
    forall x | x in st.threads && x != t ensures Marks(st'.threads[x], s) == Marks(st.threads[x], s) && Uses(st'.threads[x], s) == Uses(st.threads[x], s) {
      SameShare(st.threads[x], st'.threads[x], s);
    }
    MarkersChange(st, st', t, s);
    UsersChange(st, st', t, s);
    OneMember(Markers(st, s), t, Marks(st'.threads[t], s));
    OneMember(Users(st, s), t, Uses(st'.threads[t], s));
  }

  lemma SameShare(th: Thread, th': Thread, s: nat)
    requires th' == th || (th.Selecting? && th' == th.(signalled := true))
    ensures Marks(th', s) == Marks(th, s) && Uses(th', s) == Uses(th, s)
  {
  }

  lemma MarkersChange(st: State, st': State, t: nat, s: nat)
    requires t in st.threads && st'.threads.Keys == st.threads.Keys
    requires forall x | x in st.threads && x != t :: Marks(st'.threads[x], s) == Marks(st.threads[x], s)
    ensures Markers(st', s) == if Marks(st'.threads[t], s) then Markers(st, s) + {t} else Markers(st, s) - {t}
    ensures t in Markers(st, s) <==> Marks(st.threads[t], s)
  {
    hide Marks;
  }

  lemma UsersChange(st: State, st': State, t: nat, s: nat)
    requires t in st.threads && st'.threads.Keys == st.threads.Keys
    requires forall x | x in st.threads && x != t :: Uses(st'.threads[x], s) == Uses(st.threads[x], s)
    ensures Users(st', s) == if Uses(st'.threads[t], s) then Users(st, s) + {t} else Users(st, s) - {t}
    ensures t in Users(st, s) <==> Uses(st.threads[t], s)
  {
    hide Uses;
  }

  lemma OneMember(m: set<nat>, t: nat, stays: bool)
    ensures |if stays then m + {t} else m - {t}| + (if t in m then 1 else 0) == |m| + if stays then 1 else 0
    ensures |m| >= if t in m then 1 else 0
  {
    if t in m { assert m == (m - {t}) + {t}; }
  }

  /** In every run fd_used is the number of marks and uses of the slot. */
  lemma {:induction false} UsesAddUp(st: State, moves: seq<Move>)
    requires UseOk(st) && IsRun(st, moves)
    ensures UseOk(Run(st, moves))
    decreases |moves|
  {
    if moves != [] {
      hide UseOk, Step, Enabled;
      UseKept(st, moves[0].t, moves[0].act);
      UsesAddUp(Step(st, moves[0].t, moves[0].act), moves[1..]);
    }
  }

  // ---------------------------------------------------------------- nobody is stuck

  /** The thread can take this step without its time being over. */
  ghost predicate CanGo(st: State, t: nat, act: Act) { Enabled(st, t, act) && !(act.Wake? && act.timeout) }

  /** The thread waits for a signal that has not come. */
  predicate Asleep(th: Thread) { InSelect(th) && th.pc.Blocked? && !th.signalled }

  /** In every run each thread can go on, except exactly those that wait for a signal; whoever has
      been signalled can wake up. */
  lemma NobodyIsStuck(st: State, moves: seq<Move>, t: nat)
    requires Initial(st) && IsRun(st, moves) && t in Run(st, moves).threads
    ensures var e := Run(st, moves);
            (exists act :: CanGo(e, t, act)) <==> !Asleep(e.threads[t])
  {
    hide IsRun, Run, Step;
    InitialUse(st);
    UsesAddUp(st, moves);
    var e := Run(st, moves);
    if !Asleep(e.threads[t]) {
      assert HoldsRight(e.threads[t], |e.socks|);
      var act := NextAct(e, t);
    }
  }

  lemma NextAct(st: State, t: nat) returns (act: Act)
    requires t in st.threads && HoldsRight(st.threads[t], |st.socks|) && !Asleep(st.threads[t])
    ensures CanGo(st, t, act)
  {
    var th := st.threads[t];
    match th
    case Idle => act := Call(Sets({}, {}, {}, 0));
    case Updating(s, _) => act := if st.socks[s].conn then Update else Abandon;
    case Checking(_, _, _, _, _) => act := Walk;
    case Closing(s) => act := if st.socks[s].conn then Free else Abandon;
    case Initialising(_, _, _) => act := Init;
    case Leaving(_) => act := Drop;
    case Selecting(_, _, using, _, pc) =>
      if using.One? {
        act := Drop;
      } else {
        match pc
        case Marking(_, _) => act := Mark;
        case FirstScan(_, _) => act := Scan(false);
        case Linking => act := Link;
        case Counting(_) => act := Count;
        case SecondScan(_, _) => act := Scan(false);
        case Blocked => act := Wake(false);
        case Uncounting(_, _) => act := Uncount;
        case Unlinking => act := Unlink(false);
        case LastScan(_) => act := Scan(false);
        case Releasing(_) => act := Release;
      }
  }

  /** How many steps of its own a select call has left at most; two for each descriptor of a loop. */
  function Left(th: Thread): nat {
    if !th.Selecting? then 0
    else
      var n := th.sets.max;
      (if th.using.One? then 1 else 0) +
      match th.pc
      case Marking(Rcv, i) => 11 * (2 * n + 4) + ToGo(n, i)
      case Marking(Snd, i) => 10 * (2 * n + 4) + ToGo(n, i)
      case Marking(Err, i) => 9 * (2 * n + 4) + ToGo(n, i)
      case FirstScan(i, _) => 8 * (2 * n + 4) + ToGo(n, i)
      case Linking => 7 * (2 * n + 4)
      case Counting(i) => 6 * (2 * n + 4) + ToGo(n, i)
      case SecondScan(i, _) => 5 * (2 * n + 4) + ToGo(n, i)
      case Blocked => 4 * (2 * n + 4)
      case Uncounting(i, _) => 3 * (2 * n + 4) + ToGo(n, i)
      case Unlinking => 2 * (2 * n + 4)
      case LastScan(i) => 2 * n + 4 + ToGo(n, i)
      case Releasing(i) => 2 + ToGo(n, i)
  }

  function ToGo(n: nat, i: nat): nat { if i <= n then 2 * (n - i) else 0 }

  /** The last loop of a call stays within the descriptors of the call. */
  predicate Bounded(th: Thread) { th.Selecting? && th.pc.Uncounting? ==> th.pc.upto <= th.sets.max }

  /** Every step of a select call brings it nearer to its end, whatever it finds, and no step of
      another thread takes it back. */
  lemma SelectEnds(st: State, t: nat, act: Act, u: nat)
    requires Enabled(st, t, act) && u in st.threads && Bounded(st.threads[u])
    ensures var th, st' := st.threads[u], Step(st, t, act);
            && u in st'.threads && Bounded(st'.threads[u])
            && (th.Selecting? && u == t ==> st'.threads[u].Idle? || (st'.threads[u].Selecting? && Left(st'.threads[u]) < Left(th)))
            && (th.Selecting? && u != t ==> st'.threads[u].Selecting? && Left(st'.threads[u]) == Left(th))
  {
    hide Enabled, Left, Step;
    if u != t {
      OthersGoOn(st, t, act, u);
    } else {
      OwnStep(st, t, act);
    }
  }

  /** The thread has come nearer to the end of its call. */
  predicate Nearer(th: Thread, th': Thread) {
    Bounded(th') && (th.Selecting? ==> th'.Idle? || (th'.Selecting? && Left(th') < Left(th)))
  }

  lemma OwnStep(st: State, t: nat, act: Act)
    requires Enabled(st, t, act) && Bounded(st.threads[t])
    ensures t in Step(st, t, act).threads && Nearer(st.threads[t], Step(st, t, act).threads[t])
  {
    match act
    case Mark => MarkNearer(st, t, st.threads[t]);
    case Scan(poll) => ScanNearer(st, t, st.threads[t], poll);
    case Count => CountNearer(st, t, st.threads[t]);
    case Uncount => UncountNearer(st, t, st.threads[t]);
    case Release => ReleaseNearer(st, t, st.threads[t]);
    case _ => hide Done, Get, Freed, Gettable, Remove, MarkStep, ScanStep, CountStep, UncountStep, ReleaseStep;
  }

  lemma MarkNearer(st: State, t: nat, th: Thread)
    requires th.Selecting? && th.pc.Marking?
    ensures t in MarkStep(st, t, th).threads && Nearer(th, MarkStep(st, t, th).threads[t])
  {
    hide Get, Gettable, InSet;
  }

  lemma ScanNearer(st: State, t: nat, th: Thread, poll: bool)
    requires th.Selecting? && (th.pc.FirstScan? || th.pc.SecondScan? || th.pc.LastScan?) && th.using.Nothing?
    ensures t in ScanStep(st, t, th, poll).threads && Nearer(th, ScanStep(st, t, th, poll).threads[t])
  {
    hide Get, Member, Ready, Left, ScanOn, ScanEnd;
    if th.pc.i >= th.sets.max {
      ScanEndNearer(th, poll);
    } else {
      OutNearer(th);
      ScanOnNearer(th, false);
      if th.pc.i < |st.socks| {
        var ready := Ready(th.sets, th.pc.i, st.socks[th.pc.i]);
        ScanOnNearer(th, ready);
        UseCosts(th, th.pc.i, ScanOn(th, ready));
      }
    }
  }

  lemma ScanEndNearer(th: Thread, poll: bool)
    requires th.Selecting? && (th.pc.FirstScan? || th.pc.SecondScan? || th.pc.LastScan?)
    ensures Nearer(th, th.(pc := ScanEnd(th, poll)))
  {
  }

  lemma OutNearer(th: Thread)
    requires th.Selecting? && (th.pc.FirstScan? || th.pc.SecondScan? || th.pc.LastScan?)
    ensures Nearer(th, th.(pc := if th.pc.SecondScan? then Uncounting(0, th.sets.max) else Releasing(0)))
  {
  }

  lemma ScanOnNearer(th: Thread, ready: bool)
    requires th.Selecting? && (th.pc.FirstScan? || th.pc.SecondScan? || th.pc.LastScan?) && th.pc.i < th.sets.max
    ensures Nearer(th, th.(pc := ScanOn(th, ready))) && Left(th.(pc := ScanOn(th, ready))) + 1 < Left(th)
    ensures !ScanOn(th, ready).Uncounting?
  {
  }

  lemma UseCosts(th: Thread, s: nat, pc: Pc)
    requires th.Selecting? && th.using.Nothing?
    ensures Left(th.(using := One(s), pc := pc)) == Left(th.(pc := pc)) + 1
  {
  }

  lemma CountNearer(st: State, t: nat, th: Thread)
    requires th.Selecting? && th.pc.Counting? && th.using.Nothing?
    ensures t in CountStep(st, t, th).threads && Nearer(th, CountStep(st, t, th).threads[t])
  {
    hide Get, Member;
  }

  lemma UncountNearer(st: State, t: nat, th: Thread)
    requires th.Selecting? && th.pc.Uncounting? && Bounded(th)
    ensures t in UncountStep(st, t, th).threads && Nearer(th, UncountStep(st, t, th).threads[t])
  {
    hide Member;
  }

  lemma ReleaseNearer(st: State, t: nat, th: Thread)
    requires th.Selecting? && th.pc.Releasing?
    ensures t in ReleaseStep(st, t, th).threads && Nearer(th, ReleaseStep(st, t, th).threads[t])
  {
    hide Done;
  }

  lemma OthersGoOn(st: State, t: nat, act: Act, u: nat)
    requires Enabled(st, t, act) && u in st.threads && u != t
    ensures var th, st' := st.threads[u], Step(st, t, act);
            && u in st'.threads && (st'.threads[u] == th || (th.Selecting? && st'.threads[u] == th.(signalled := true)))
            && Left(st'.threads[u]) == Left(th)
  {
    hide Done, Get, Freed, Gettable, Remove, Ready, After;
  }

  /** How many steps of the run are the thread's own. */
  function Own(moves: seq<Move>, u: nat): nat {
    if moves == [] then 0 else (if moves[0].t == u then 1 else 0) + Own(moves[1..], u)
  }

  /** At some point of the run the thread is not in a call. */
  ghost predicate Returns(st: State, moves: seq<Move>, u: nat)
    requires IsRun(st, moves)
    decreases |moves|
  {
    || (u in st.threads && st.threads[u].Idle?)
    || (moves != [] && Returns(Step(st, moves[0].t, moves[0].act), moves[1..], u))
  }

  /** In every run a select call returns, or has taken fewer steps than it had left at the start:
      no interference makes it longer. */
  lemma {:induction false} SelectIsBounded(st: State, moves: seq<Move>, u: nat)
    requires IsRun(st, moves) && u in st.threads && st.threads[u].Selecting? && Bounded(st.threads[u])
    ensures var e := Run(st, moves);
            Returns(st, moves, u) || (u in e.threads && e.threads[u].Selecting? && Own(moves, u) + Left(e.threads[u]) <= Left(st.threads[u]))
    decreases |moves|
  {
    if moves != [] {
      var st' := Step(st, moves[0].t, moves[0].act);
      hide Step, Enabled, Left;
      SelectEnds(st, moves[0].t, moves[0].act, u);
      if st'.threads[u].Idle? {
        assert Returns(st', moves[1..], u);
      } else {
        SelectIsBounded(st', moves[1..], u);
      }
    }
  }

  /** What a scan comes to: the first one ends the call if it found something or must not wait, the
      second one makes the thread sleep exactly if it found nothing; descriptors that are not asked
      for are passed over. */
  lemma ScanEnds(st: State, t: nat, poll: bool)
    requires Enabled(st, t, Scan(poll)) && !st.threads[t].pc.LastScan?
    ensures var th, th' := st.threads[t], Step(st, t, Scan(poll)).threads[t];
            && th'.Selecting? && th'.sets == th.sets && th'.held == th.held
            && (th.pc.i >= th.sets.max ==>
                  if th.pc.FirstScan? then (th'.pc == Linking <==> !th.pc.ready && !poll) && (th'.pc == Releasing(0) <==> th.pc.ready || poll)
                  else (th'.pc == Blocked <==> !th.pc.ready) && (th'.pc == Uncounting(0, th.sets.max) <==> th.pc.ready))
            && (th.pc.i < th.sets.max && !Member(th.sets, th.pc.i) ==>
                  && th'.using == th.using
                  && th'.pc == if th.pc.FirstScan? then FirstScan(th.pc.i + 1, th.pc.ready) else SecondScan(th.pc.i + 1, th.pc.ready))
  {
  }

  /** A callback goes through the list exactly if somebody waits for the socket and the event makes
      a condition hold that did not hold before, or is an error. */
  lemma UpdateWalks(st: State, t: nat)
    requires Enabled(st, t, Update)
    ensures var th, th' := st.threads[t], Step(st, t, Update).threads[t];
            th'.Checking? <==>
              && st.socks[th.s].waiting > 0
              && exists k :: Wakes(th.event, k) && (k.Err? || !Active(st.socks[th.s], k))
  {
    var th := st.threads[t];
    var so := st.socks[th.s];
    match th.event
    case RcvPlus =>
      assert Wakes(th.event, Rcv);
      assert Active(so, Rcv) <==> so.rcv > 0;
    case SndPlus =>
      assert Wakes(th.event, Snd);
      assert Active(so, Snd) <==> so.snd;
    case Error => assert Wakes(th.event, Err);
    case RcvMinus =>
    case SndMinus =>
  }

  /** In every run the 8-bit select_waiting stays below its limit. */
  lemma {:induction false} WaitingFits(st: State, moves: seq<Move>, s: nat)
    requires IsRun(st, moves) && s < |st.socks| && st.socks[s].waiting <= 255
    ensures s < |Run(st, moves).socks| && Run(st, moves).socks[s].waiting <= 255
    decreases |moves|
  {
    if moves != [] {
      var st' := Step(st, moves[0].t, moves[0].act);
      WaitingMoves(st, moves[0].t, moves[0].act, s);
      WaitingFits(st', moves[1..], s);
    }
  }

  lemma WaitingMoves(st: State, t: nat, act: Act, s: nat)
    requires Enabled(st, t, act) && s < |st.socks| && st.socks[s].waiting <= 255
    ensures |Step(st, t, act).socks| == |st.socks| && Step(st, t, act).socks[s].waiting <= 255
  {
    if act.Release? || act.Drop? || act.Free? {
      hide Done, Freed;
      forall so: Socket ensures Done(so).waiting == so.waiting && Freed(so).waiting == so.waiting { WaitingKept(so); }
    }
  }

  lemma WaitingKept(so: Socket)
    ensures Done(so).waiting == so.waiting && Freed(so).waiting == so.waiting
  {
  }

  // ---------------------------------------------------------------- the end of a connection

  /** A slot whose free is pending and that nobody uses has no connection. */
  predicate Emptied(so: Socket) { so.pending && so.used == 0 ==> !so.conn }

  /** A connection and its unread data leave a slot only with the last use of a closed slot, and then
      they do. A close that is not the last use leaves the slot marked. */
  lemma ConnectionEnds(st: State, t: nat, act: Act, s: nat)
    requires Enabled(st, t, act) && s < |st.socks|
    ensures var so, st' := st.socks[s], Step(st, t, act);
            && |st'.socks| == |st.socks|
            && var so' := st'.socks[s];
               && (Emptied(so) ==> Emptied(so'))
               && (so.conn && !so'.conn ==> so.used <= 1 && so'.used == 0 && !so'.lastdata && (so.pending || act.Free?))
               && (act.Free? && st.threads[t].s == s && so.used > 0 ==>
                     so'.used == so.used - 1 && (if so.used == 1 then !so'.conn && !so'.lastdata else so'.pending && so'.conn))
               && (so.pending && !so'.pending ==> act.Reuse? && act.s == s && !so.conn && so.used == 0)
  {
    if act.Release? || act.Drop? || act.Free? {
      hide Done, Freed;
      forall so: Socket ensures UseEnds(so, Done(so), false) && UseEnds(so, Freed(so), true) { LastUse(so); }
    } else {
      hide Step, Enabled;
      NoUseEnds(st, t, act, s);
    }
  }

  lemma NoUseEnds(st: State, t: nat, act: Act, s: nat)
    requires Enabled(st, t, act) && s < |st.socks| && !act.Release? && !act.Drop? && !act.Free?
    ensures var so, st' := st.socks[s], Step(st, t, act);
            && |st'.socks| == |st.socks|
            && var so' := st'.socks[s];
               && (if act.Reuse? && act.s == s then so'.conn && !so'.pending && !so.conn && so.used == 0
                   else so'.conn == so.conn && so'.pending == so.pending)
               && so'.used >= so.used
  {
  }

  /** Unread data appears only when a receive leaves it; it goes when a receive takes it, with the
      connection, or when the slot is initialised. */
  lemma LastdataMoves(st: State, t: nat, act: Act, s: nat)
    requires Enabled(st, t, act) && s < |st.socks|
    ensures var so, st' := st.socks[s], Step(st, t, act);
            && |st'.socks| == |st.socks|
            && var so' := st'.socks[s];
               && (act.Keep? && act.s == s ==> so'.lastdata == act.lastdata)
               && (act.Init? && st.threads[t].s == s && st.threads[t].stage.ClearLastdata? ==> !so'.lastdata)
               && (!so.lastdata && so'.lastdata ==> act.Keep? && act.s == s)
               && (so.lastdata && !so'.lastdata ==> act.Keep? || act.Init? || (so.used <= 1 && !so'.conn && (so.pending || act.Free?)))
  {
    if act.Release? || act.Drop? || act.Free? {
      hide Done, Freed;
      forall so: Socket ensures UseEnds(so, Done(so), false) && UseEnds(so, Freed(so), true) { LastUse(so); }
    }
  }

  /** What the end of a use does to a slot; `close` says that it is a close. */
  predicate UseEnds(so: Socket, so': Socket, close: bool) {
    && so'.used == (if so.used > 0 then so.used - 1 else 0)
    && (if so.used <= 1 && (so.pending || close) then !so'.conn && !so'.lastdata else so'.conn == so.conn && so'.lastdata == so.lastdata)
    && so'.pending == (so.pending || (close && so.used > 1))
  }

  lemma LastUse(so: Socket)
    ensures UseEnds(so, Done(so), false) && UseEnds(so, Freed(so), true)
  {
  }

  /** In every run, a closed connection is gone when the last use of its slot is over. */
  lemma {:induction false} ClosedIsGone(st: State, moves: seq<Move>, s: nat)
    requires IsRun(st, moves) && s < |st.socks| && Emptied(st.socks[s])
    ensures s < |Run(st, moves).socks| && Emptied(Run(st, moves).socks[s])
    decreases |moves|
  {
    if moves != [] {
      hide Step, Enabled, Emptied;
      ConnectionEnds(st, moves[0].t, moves[0].act, s);
      ClosedIsGone(Step(st, moves[0].t, moves[0].act), moves[1..], s);
    }
  }

  lemma InitialUse(st: State)
    requires Initial(st)
    ensures UseOk(st)
  {
    forall s: nat ensures Markers(st, s) == {} && Users(st, s) == {} {}
  }
}
