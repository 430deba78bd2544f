/** The use count that keeps a socket slot alive while threads work on it
    (src/lib/liblwip/api/sockets.c, LWIP_NETCONN_FULLDUPLEX).

    A token stands for one use in progress: from the sock_inc_used or alloc_socket that started
    it to the done_socket or free_socket that ends it. Any number of threads may hold any number
    of tokens; a step is one region under SYS_ARCH_PROTECT, so runs are all interleavings. */
module SocketUse {

  datatype Option<T> = None | Some(value: T)

  /** conn, fd_used and fd_free_pending of struct lwip_sock. Connections are named by numbers. */
  datatype Slot = Slot(conn: Option<nat>, used: nat, pending: bool)

  /** `open`: the slot had a connection when the use began (what tryget_socket tests). */
  datatype Token = Token(slot: nat, open: bool)

  /** `made` holds every connection ever put into a slot, `freed` those handed to a freer. */
  datatype State = State(slots: seq<Slot>, tokens: map<nat, Token>, made: set<nat>, freed: multiset<nat>)

  /** fd_used is an u8_t; an assertion stops the program before it wraps. */
  const MAX_USED: nat := 255

  datatype Act =
    | Get(tok: nat, s: nat)
    | Alloc(tok: nat, s: nat, conn: nat)
    | Done(tok: nat)
    | Free(tok: nat)

  ghost predicate Enabled(st: State, act: Act) {
    match act
    case Get(tok, s) => tok !in st.tokens && s < |st.slots| && (st.slots[s].pending || st.slots[s].used < MAX_USED)
    case Alloc(tok, s, conn) =>
      tok !in st.tokens && s < |st.slots| && st.slots[s].conn.None? && st.slots[s].used == 0 && conn !in st.made
    case Done(tok) => tok in st.tokens
    case Free(tok) => tok in st.tokens && st.tokens[tok].open
  }

  /** free_socket_locked, called with fd_used at least 1: give up one use; hand out the
      connection if it was the last, otherwise leave that to whoever is last. */
  function FreeLocked(slot: Slot): (Slot, Option<nat>)
    requires slot.used > 0
  {
    if slot.used - 1 > 0 then (slot.(used := slot.used - 1, pending := true), None)
    else (slot.(used := 0, conn := None), slot.conn)
  }

  /** done_socket: give up one use; the last one out completes a pending free. */
  function DoneSlot(slot: Slot): (Slot, Option<nat>)
    requires slot.used > 0
  {
    if slot.used - 1 == 0 && slot.pending then FreeLocked(slot.(used := 1))
    else (slot.(used := slot.used - 1), None)
  }

  function Leave(st: State, tok: nat, r: (Slot, Option<nat>)): State
    requires tok in st.tokens && st.tokens[tok].slot < |st.slots|
  {
    State(st.slots[st.tokens[tok].slot := r.0], st.tokens - {tok}, st.made,
          if r.1.Some? then st.freed + multiset{r.1.value} else st.freed)
  }

  function Step(st: State, act: Act): State {
    match act
    case Get(tok, s) =>
      if s >= |st.slots| || st.slots[s].pending then st
      else st.(slots := st.slots[s := st.slots[s].(used := st.slots[s].used + 1)],
               tokens := st.tokens[tok := Token(s, st.slots[s].conn.Some?)])
    case Alloc(tok, s, conn) =>
      if s >= |st.slots| then st
      else State(st.slots[s := Slot(Some(conn), 1, false)], st.tokens[tok := Token(s, true)], st.made + {conn}, st.freed)
    case Done(tok) =>
      if tok !in st.tokens || st.tokens[tok].slot >= |st.slots| || st.slots[st.tokens[tok].slot].used == 0 then st
      else Leave(st, tok, DoneSlot(st.slots[st.tokens[tok].slot]))
    case Free(tok) =>
      if tok !in st.tokens || st.tokens[tok].slot >= |st.slots| || st.slots[st.tokens[tok].slot].used == 0 then st
      else Leave(st, tok, FreeLocked(st.slots[st.tokens[tok].slot]))
  }

  ghost predicate Initial(st: State) {
    && st.tokens == map[] && st.made == {} && st.freed == multiset{}
    && forall s: nat | s < |st.slots| :: st.slots[s] == Slot(None, 0, false)
  }

  // ---------------------------------------------------------------- invariant

  /** The uses in progress of slot `s`. */
  ghost function Holders(st: State, s: nat): set<nat> {
    set tok | tok in st.tokens && st.tokens[tok].slot == s
  }

  ghost predicate TokensOk(st: State) {
    && (forall tok | tok in st.tokens :: st.tokens[tok].slot < |st.slots|)
    && (forall s: nat | s < |st.slots| :: st.slots[s].used == |Holders(st, s)|)
    && (forall tok | tok in st.tokens && st.tokens[tok].open :: st.slots[st.tokens[tok].slot].conn.Some?)
    && (forall s: nat | s < |st.slots| && st.slots[s].pending && st.slots[s].used > 0 :: st.slots[s].conn.Some?)
  }

  /** Connection `x` sits in slot `s`. */
  predicate Installed(st: State, s: nat, x: nat) { s < |st.slots| && st.slots[s].conn == Some(x) }

  ghost predicate ConnsOk(st: State) {
    && (forall s: nat, x | Installed(st, s, x) :: x in st.made && st.freed[x] == 0)
    && (forall s: nat, r: nat, x | Installed(st, s, x) && Installed(st, r, x) :: s == r)
    && (forall x | x in st.made :: st.freed[x] == 1 || exists s: nat :: Installed(st, s, x))
    && (forall x | st.freed[x] > 0 :: x in st.made && st.freed[x] == 1)
  }

  ghost predicate Inv(st: State) { TokensOk(st) && ConnsOk(st) }

  lemma InitialInv(st: State)
    requires Initial(st)
    ensures Inv(st)
  {
    forall s: nat ensures Holders(st, s) == {} {}
  }

  lemma HoldersJoin(st: State, tok: nat, t: Token, s: nat)
    requires tok !in st.tokens
    ensures Holders(st.(tokens := st.tokens[tok := t]), s) == if s == t.slot then Holders(st, s) + {tok} else Holders(st, s)
  {
  }

  lemma HoldersLeave(st: State, tok: nat, s: nat)
    requires tok in st.tokens
    ensures Holders(st.(tokens := st.tokens - {tok}), s) == if s == st.tokens[tok].slot then Holders(st, s) - {tok} else Holders(st, s)
  {
  }

  lemma GetKeepsInv(st: State, tok: nat, s: nat)
    requires Inv(st) && Enabled(st, Get(tok, s))
    ensures Inv(Step(st, Get(tok, s)))
  {
    if !st.slots[s].pending {
      GetKeepsTokens(st, tok, s);
      hide TokensOk;
      SameConns(st, Step(st, Get(tok, s)));
    }
  }

  lemma GetKeepsTokens(st: State, tok: nat, s: nat)
    requires TokensOk(st) && Enabled(st, Get(tok, s)) && !st.slots[s].pending
    ensures TokensOk(Step(st, Get(tok, s)))
  {
    var st' := Step(st, Get(tok, s));
    var t := Token(s, st.slots[s].conn.Some?);
    forall r: nat | r < |st.slots| ensures st'.slots[r].used == |Holders(st', r)| {
      HoldersJoin(st, tok, t, r);
      assert Holders(st', r) == Holders(st.(tokens := st.tokens[tok := t]), r);
      assert tok !in Holders(st, r);
    }
  }

  lemma SameConns(st: State, st': State)
    requires ConnsOk(st) && st'.made == st.made && st'.freed == st.freed && |st'.slots| == |st.slots|
    requires forall s: nat | s < |st.slots| :: st'.slots[s].conn == st.slots[s].conn
    ensures ConnsOk(st')
  {
    forall s: nat, x ensures Installed(st', s, x) <==> Installed(st, s, x) {}
  }

  lemma AllocKeepsInv(st: State, tok: nat, s: nat, conn: nat)
    requires Inv(st) && Enabled(st, Alloc(tok, s, conn))
    ensures Inv(Step(st, Alloc(tok, s, conn)))
  {
    var st' := Step(st, Alloc(tok, s, conn));
    var t := Token(s, true);
    assert Holders(st, s) == {};
    forall r: nat | r < |st.slots| ensures st'.slots[r].used == |Holders(st', r)| {
      HoldersJoin(st, tok, t, r);
      assert Holders(st', r) == Holders(st.(tokens := st.tokens[tok := t]), r);
    }
    forall r: nat, x ensures Installed(st', r, x) <==> if r == s then x == conn else Installed(st, r, x) {}
    forall x | x in st'.made ensures st'.freed[x] == 1 || exists r: nat :: Installed(st', r, x) {
      if x == conn {
        assert Installed(st', s, x);
      } else if st.freed[x] != 1 {
        var r: nat :| Installed(st, r, x);
        assert Installed(st', r, x);
      }
    }
  }

  /** What leaving does to the slot: either only the count (and perhaps the mark) changes, or
      the last one out takes the connection with it. */
  lemma LeaveKeepsInv(st: State, tok: nat, r: (Slot, Option<nat>))
    requires Inv(st) && tok in st.tokens
    requires var slot := st.slots[st.tokens[tok].slot];
             && slot.used > 0 && r.0.used == slot.used - 1
             && (r.0.pending ==> r.0.used == 0 || slot.conn.Some?)
             && (if r.1.Some? then r.0.conn.None? && r.0.used == 0 && slot.conn == r.1 else r.0.conn == slot.conn)
    ensures Inv(Leave(st, tok, r))
  {
    var s := st.tokens[tok].slot;
    var st' := Leave(st, tok, r);
    assert tok in Holders(st, s);
    forall u: nat | u < |st.slots| ensures st'.slots[u].used == |Holders(st', u)| {
      HoldersLeave(st, tok, u);
      assert Holders(st', u) == Holders(st.(tokens := st.tokens - {tok}), u);
    }
    if r.1.Some? {
      assert Holders(st', s) == {};
      forall t | t in st'.tokens ensures st'.tokens[t].slot != s {
        assert t in Holders(st', s) <==> st'.tokens[t].slot == s;
      }
      ConnHandedOut(st, st', s, r.1.value);
    } else {
      SameConns(st, st');
    }
  }

  lemma ConnHandedOut(st: State, st': State, s: nat, x: nat)
    requires ConnsOk(st) && Installed(st, s, x) && st'.made == st.made && st'.freed == st.freed + multiset{x}
    requires |st'.slots| == |st.slots| && st'.slots[s].conn.None?
    requires forall r: nat | r < |st.slots| && r != s :: st'.slots[r].conn == st.slots[r].conn
    ensures ConnsOk(st')
  {
    forall r: nat, y ensures Installed(st', r, y) <==> r != s && Installed(st, r, y) {}
    forall y | y in st'.made ensures st'.freed[y] == 1 || exists r: nat :: Installed(st', r, y) {
      if y != x && st.freed[y] != 1 {
        var r: nat :| Installed(st, r, y);
        assert Installed(st', r, y);
      }
    }
  }

  lemma StepKeepsInv(st: State, act: Act)
    requires Inv(st) && Enabled(st, act)
    ensures Inv(Step(st, act))
  {
    match act
    case Get(tok, s) => GetKeepsInv(st, tok, s);
    case Alloc(tok, s, conn) => AllocKeepsInv(st, tok, s, conn);
    case Done(tok) =>
      TokenCounted(st, tok);
      LeaveKeepsInv(st, tok, DoneSlot(st.slots[st.tokens[tok].slot]));
    case Free(tok) =>
      TokenCounted(st, tok);
      LeaveKeepsInv(st, tok, FreeLocked(st.slots[st.tokens[tok].slot]));
  }

  lemma TokenCounted(st: State, tok: nat)
    requires Inv(st) && tok in st.tokens
    ensures st.tokens[tok].slot < |st.slots| && st.slots[st.tokens[tok].slot].used > 0
  {
    assert tok in Holders(st, st.tokens[tok].slot);
  }

  // ---------------------------------------------------------------- runs

  ghost predicate IsRun(st: State, acts: seq<Act>)
    decreases |acts|
  {
    acts == [] || (Enabled(st, acts[0]) && IsRun(Step(st, acts[0]), acts[1..]))
  }

  ghost function Run(st: State, acts: seq<Act>): State
    decreases |acts|
  {
    if acts == [] then st else Run(Step(st, acts[0]), acts[1..])
  }

  lemma {:induction false} RunKeepsInv(st: State, acts: seq<Act>)
    requires Inv(st) && IsRun(st, acts)
    ensures Inv(Run(st, acts))
    decreases |acts|
  {
    if acts != [] {
      StepKeepsInv(st, acts[0]);
      RunKeepsInv(Step(st, acts[0]), acts[1..]);
    }
  }

  /** In every interleaving fd_used counts the uses in progress, every connection is either in
      exactly one slot or has been handed to exactly one freer, and the slot of every use that
      began on an open socket still has its connection. */
  lemma EveryRunCounts(st: State, acts: seq<Act>)
    requires Initial(st) && IsRun(st, acts)
    ensures var e := Run(st, acts);
            && (forall s: nat | s < |e.slots| :: e.slots[s].used == |Holders(e, s)|)
            && (forall x | x in e.made :: (e.freed[x] == 1) != (exists s: nat :: Installed(e, s, x)))
            && (forall s: nat, r: nat, x | Installed(e, s, x) && Installed(e, r, x) :: s == r)
            && (forall x :: e.freed[x] <= 1)
            && (forall tok | tok in e.tokens && e.tokens[tok].open ::
                  e.tokens[tok].slot < |e.slots| && e.slots[e.tokens[tok].slot].conn.Some?)
  {
    InitialInv(st);
    RunKeepsInv(st, acts);
  }

  /** While a use lasts, whatever the other threads do, its slot keeps the connection (or the
      lack of one) that it had: the slot is neither freed nor reallocated. A connection leaves
      its slot only in the step that ends the last use. */
  lemma SlotStableWhileHeld(st: State, act: Act, tok: nat)
    requires Inv(st) && Enabled(st, act) && tok in st.tokens
    ensures var s, st' := st.tokens[tok].slot, Step(st, act);
            && s < |st.slots| && s < |st'.slots|
            && (tok in st'.tokens ==> st'.tokens[tok] == st.tokens[tok] && st'.slots[s].conn == st.slots[s].conn)
            && (st'.slots[s].conn != st.slots[s].conn ==> Holders(st, s) == {tok} && Holders(st', s) == {})
  {
    var s, st' := st.tokens[tok].slot, Step(st, act);
    StepKeepsInv(st, act);
    assert tok in Holders(st, s);
    if st'.slots[s].conn != st.slots[s].conn {
      assert act.Done? || act.Free?;
      assert st.tokens[act.tok].slot == s && act.tok in Holders(st, s);
      assert |Holders(st, s)| == 1;
      assert Holders(st, s) - {tok} - {act.tok} == Holders(st, s) - {tok, act.tok};
      SingletonHolders(Holders(st, s), tok, act.tok);
      assert |Holders(st', s)| == 0;
    }
  }

  lemma SingletonHolders(h: set<nat>, x: nat, y: nat)
    requires |h| == 1 && x in h && y in h
    ensures x == y && h == {x}
  {
    assert |h - {x}| == 0;
    assert h - {x} == {};
  }

  lemma {:induction false} SlotStableOverRun(st: State, acts: seq<Act>, tok: nat)
    requires Inv(st) && IsRun(st, acts) && tok in st.tokens
    requires forall i: nat | i < |acts| :: acts[i] != Done(tok) && acts[i] != Free(tok)
    ensures var s, e := st.tokens[tok].slot, Run(st, acts);
            && s < |st.slots| && s < |e.slots| && tok in e.tokens && e.tokens[tok] == st.tokens[tok]
            && e.slots[s].conn == st.slots[s].conn
    decreases |acts|
  {
    if acts != [] {
      var st' := Step(st, acts[0]);
      SlotStableWhileHeld(st, acts[0], tok);
      StepKeepsInv(st, acts[0]);
      SlotStableOverRun(st', acts[1..], tok);
    }
  }

  /** Once a free is pending, no new use of the slot starts until the slot is given to a new
      connection, and that happens only after the last use has ended. */
  lemma PendingAdmitsNobody(st: State, act: Act, s: nat)
    requires Inv(st) && Enabled(st, act) && s < |st.slots| && st.slots[s].pending
    ensures var st' := Step(st, act);
            if act.Alloc? && act.s == s then Holders(st, s) == {} && !st'.slots[s].pending
            else Holders(st', s) <= Holders(st, s) && st'.slots[s].pending
  {
    if act.Alloc? && act.s == s {
      assert |Holders(st, s)| == 0;
    }
  }

  /** A close ends its use of an open slot. The connection is handed out in that step exactly if no
      other use is in progress; otherwise it stays where it is and the slot is marked. */
  lemma CloseFreesOrMarks(st: State, tok: nat)
    requires Inv(st) && Enabled(st, Free(tok))
    ensures var s, st' := st.tokens[tok].slot, Step(st, Free(tok));
            && s < |st.slots| == |st'.slots| && st.slots[s].conn.Some? && st'.tokens == st.tokens - {tok}
            && (if Holders(st, s) == {tok}
                then st'.slots[s].conn.None? && st'.freed == st.freed + multiset{st.slots[s].conn.value}
                else st'.slots[s].conn == st.slots[s].conn && st'.slots[s].pending && st'.freed == st.freed)
  {
    TokenCounted(st, tok);
    OnlyHolder(st, tok);
  }

  /** Ending a use without closing hands out the connection exactly if it was the last use and the
      slot is marked; otherwise the connection and the mark stay as they are. */
  lemma DoneFreesOnlyLast(st: State, tok: nat)
    requires Inv(st) && Enabled(st, Done(tok))
    ensures var s, st' := st.tokens[tok].slot, Step(st, Done(tok));
            && s < |st.slots| == |st'.slots| && st'.tokens == st.tokens - {tok}
            && (if Holders(st, s) == {tok} && st.slots[s].pending
                then st.slots[s].conn.Some? && st'.slots[s].conn.None? && st'.freed == st.freed + multiset{st.slots[s].conn.value}
                else st'.slots[s].conn == st.slots[s].conn && st'.slots[s].pending == st.slots[s].pending && st'.freed == st.freed)
  {
    TokenCounted(st, tok);
    OnlyHolder(st, tok);
  }

  lemma OnlyHolder(st: State, tok: nat)
    requires Inv(st) && tok in st.tokens
    ensures st.slots[st.tokens[tok].slot].used == 1 <==> Holders(st, st.tokens[tok].slot) == {tok}
  {
    var h := Holders(st, st.tokens[tok].slot);
    assert tok in h;
    if |h| == 1 { SingletonHolders(h, tok, tok); }
  }

  /** Who allocates a slot may close it, and closing it at once hands out the connection and leaves
      the slots as they were before, apart from a mark that is cleared. */
  lemma AllocThenClose(st: State, tok: nat, s: nat, conn: nat)
    requires Inv(st) && Enabled(st, Alloc(tok, s, conn))
    ensures var st1 := Step(st, Alloc(tok, s, conn));
            && Enabled(st1, Free(tok))
            && (var st2 := Step(st1, Free(tok));
                && st2.freed == st.freed + multiset{conn} && st2.tokens == st.tokens
                && st2.slots == st.slots[s := st.slots[s].(pending := false)])
  {
    var st1 := Step(st, Alloc(tok, s, conn));
    var st2 := Step(st1, Free(tok));
    assert st2.tokens == st.tokens;
    assert st2.slots[s] == Slot(None, 0, false);
  }

  /** A use begins on any slot whose free is not pending; it may close the slot exactly if this has a
      connection, and ending it at once changes nothing. */
  lemma GetThenDone(st: State, tok: nat, s: nat)
    requires Inv(st) && Enabled(st, Get(tok, s))
    ensures var st1 := Step(st, Get(tok, s));
            && (tok in st1.tokens <==> !st.slots[s].pending)
            && (Enabled(st1, Free(tok)) <==> !st.slots[s].pending && st.slots[s].conn.Some?)
            && (if st.slots[s].pending then st1 == st else Step(st1, Done(tok)) == st)
  {
    if !st.slots[s].pending {
      var st1 := Step(st, Get(tok, s));
      var st2 := Step(st1, Done(tok));
      assert st2.tokens == st.tokens;
      assert st2.slots == st.slots;
    }
  }

  /** Connection `x` has been closed: it has been handed out, or it waits in slot `s` for the uses
      in progress, at most those in `users`, to end. */
  ghost predicate Closing(st: State, s: nat, x: nat, users: set<nat>) {
    st.freed[x] == 1 || (Installed(st, s, x) && st.slots[s].pending && Holders(st, s) != {} && Holders(st, s) <= users)
  }

  lemma StepKeepsClosing(st: State, act: Act, s: nat, x: nat, users: set<nat>)
    requires Inv(st) && Enabled(st, act) && Closing(st, s, x, users)
    ensures Closing(Step(st, act), s, x, users)
  {
    var st' := Step(st, act);
    StepKeepsInv(st, act);
    if st.freed[x] == 1 {
      assert st'.freed[x] >= 1;
    } else {
      PendingAdmitsNobody(st, act, s);
      var tok :| tok in Holders(st, s);
      SlotStableWhileHeld(st, act, tok);
      if st'.slots[s].conn == st.slots[s].conn {
        StillHeld(st, act, s);
      } else {
        ConnHasLeft(st, act, s, x);
      }
    }
  }

  lemma StillHeld(st: State, act: Act, s: nat)
    requires Inv(st) && Enabled(st, act) && s < |st.slots| == |Step(st, act).slots| && Holders(st, s) != {}
    requires st.slots[s].pending && st.slots[s].conn.Some? && Step(st, act).slots[s].conn == st.slots[s].conn
    ensures Holders(Step(st, act), s) != {}
  {
    var tok :| tok in Holders(st, s);
    var st' := Step(st, act);
    match act
    case Get(t, r) => assert tok in Holders(st', s);
    case Alloc(t, r, c) => assert tok in Holders(st', s);
    case Done(t) =>
      DoneFreesOnlyLast(st, t);
      Remains(st, st', s, t);
    case Free(t) =>
      CloseFreesOrMarks(st, t);
      Remains(st, st', s, t);
  }

  lemma Remains(st: State, st': State, s: nat, t: nat)
    requires Holders(st, s) != {} && t in st.tokens && st'.tokens == st.tokens - {t}
    requires st.tokens[t].slot == s ==> Holders(st, s) != {t}
    ensures Holders(st', s) != {}
  {
    assert exists u :: u in Holders(st, s) && u != t by {
      var v :| v in Holders(st, s);
      assert Holders(st, s) == {t} || exists u :: u in Holders(st, s) && u != t;
    }
    var u :| u in Holders(st, s) && u != t;
    assert u in Holders(st', s);
  }

  /** A connection that is no longer in its slot has been handed out. */
  lemma ConnHasLeft(st: State, act: Act, s: nat, x: nat)
    requires Inv(st) && Inv(Step(st, act)) && Enabled(st, act) && Installed(st, s, x)
    requires s < |Step(st, act).slots| && Step(st, act).slots[s].conn != st.slots[s].conn
    ensures Step(st, act).freed[x] == 1
  {
    var st' := Step(st, act);
    assert x in st'.made;
    match act
    case Get(t, r) =>
    case Alloc(t, r, c) =>
    case Done(t) => DoneFreesOnlyLast(st, t);
    case Free(t) => CloseFreesOrMarks(st, t);
  }

  lemma {:induction false} RunKeepsClosing(st: State, acts: seq<Act>, s: nat, x: nat, users: set<nat>)
    requires Inv(st) && IsRun(st, acts) && Closing(st, s, x, users)
    ensures Closing(Run(st, acts), s, x, users)
    decreases |acts|
  {
    if acts != [] {
      hide Closing;
      StepKeepsInv(st, acts[0]);
      StepKeepsClosing(st, acts[0], s, x, users);
      RunKeepsClosing(Step(st, acts[0]), acts[1..], s, x, users);
    }
  }

  /** No close is lost: whatever the threads do after it, the connection has been handed out, or it
      still waits for uses that were in progress at the close. So it has been handed out as soon
      as all of those have ended. */
  lemma EveryCloseIsHonoured(st: State, tok: nat, acts: seq<Act>)
    requires Inv(st) && Enabled(st, Free(tok)) && IsRun(Step(st, Free(tok)), acts)
    ensures var s := st.tokens[tok].slot;
            var e := Run(Step(st, Free(tok)), acts);
            && s < |st.slots| && st.slots[s].conn.Some?
            && (e.freed[st.slots[s].conn.value] == 1 || exists u :: u in Holders(e, s) && u in Holders(st, s) && u != tok)
  {
    var s, st' := st.tokens[tok].slot, Step(st, Free(tok));
    StepKeepsInv(st, Free(tok));
    CloseFreesOrMarks(st, tok);
    var x, users := st.slots[s].conn.value, Holders(st, s) - {tok};
    assert Closing(st', s, x, users) by {
      if Holders(st, s) == {tok} {
        assert st'.freed[x] >= 1;
      } else {
        Remains(st, st', s, tok);
        HoldersLeave(st, tok, s);
        assert Holders(st', s) == users;
      }
    }
    RunKeepsClosing(st', acts, s, x, users);
  }

  // ---------------------------------------------------------------- an assertion that does not hold

  /** sock_inc_used_locked asserts that a slot with a pending free is still in use. */
  predicate PendingAssertion(slot: Slot) { slot.pending ==> slot.used != 0 }

  /** The assertion fails exactly for a slot whose deferred free has completed: fd_free_pending
      stays set until the slot is allocated again. */
  lemma PendingAssertionExact(st: State, acts: seq<Act>, s: nat)
    requires Initial(st) && IsRun(st, acts) && s < |Run(st, acts).slots|
    ensures var slot := Run(st, acts).slots[s];
            PendingAssertion(slot) <==> !(slot.pending && slot.conn.None?)
  {
    InitialInv(st);
    RunKeepsInv(st, acts);
    PendingSlots(st, acts);
  }

  ghost predicate PendingIdleIsFree(st: State) {
    forall s: nat | s < |st.slots| && st.slots[s].pending && st.slots[s].used == 0 :: st.slots[s].conn.None?
  }

  lemma {:induction false} PendingSlots(st: State, acts: seq<Act>)
    requires Inv(st) && PendingIdleIsFree(st) && IsRun(st, acts)
    ensures PendingIdleIsFree(Run(st, acts))
    decreases |acts|
  {
    if acts != [] {
      StepKeepsInv(st, acts[0]);
      PendingSlots(Step(st, acts[0]), acts[1..]);
    }
  }

  /** Two uses, a close that has to wait, and the last use ending: the assertion fails. */
  lemma PendingAssertionFails() returns (st: State, acts: seq<Act>)
    ensures Initial(st) && IsRun(st, acts) && |Run(st, acts).slots| == 1
    ensures !PendingAssertion(Run(st, acts).slots[0])
  {
    st := State([Slot(None, 0, false)], map[], {}, multiset{});
    var s1 := Step(st, Alloc(0, 0, 7));
    var s2 := Step(s1, Get(1, 0));
    var s3 := Step(s2, Free(1));
    var s4 := Step(s3, Done(0));
    assert s2.slots[0] == Slot(Some(7), 2, false);
    assert s3.slots[0] == Slot(Some(7), 1, true);
    assert s4.slots[0] == Slot(None, 0, true);
    RunCons(s3, Done(0), []);
    RunCons(s2, Free(1), [Done(0)] + []);
    RunCons(s1, Get(1, 0), [Free(1)] + ([Done(0)] + []));
    acts := [Alloc(0, 0, 7)] + ([Get(1, 0)] + ([Free(1)] + ([Done(0)] + [])));
    RunCons(st, Alloc(0, 0, 7), [Get(1, 0)] + ([Free(1)] + ([Done(0)] + [])));
  }

  lemma RunCons(st: State, a: Act, rest: seq<Act>)
    requires Enabled(st, a) && IsRun(Step(st, a), rest)
    ensures IsRun(st, [a] + rest) && Run(st, [a] + rest) == Run(Step(st, a), rest)
  {
    assert ([a] + rest)[1..] == rest;
  }
}
