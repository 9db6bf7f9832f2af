/** The hierarchical lock of one local lock node: a ticket lock among the threads of a compute node that
    may hand a remote lock over from holder to holder. A step system with any number of threads, any
    addresses that collide on the node, and other compute nodes competing for the remote locks. */
module LockHandover {

  type Addr = nat
  type Tid = nat

  const MAX_HANDOVER: nat := 8
  const TICKETS: nat := 0x1_0000_0000    // tickets are 32-bit and wrap

  /** The fields of a LocalLockNode the address-based lock uses. ticket and current are the unwrapped
      counters; the lock compares them modulo TICKETS only. */
  datatype LockNode = LockNode(ticket: nat, current: nat, handover: bool, handoverCnt: nat, uniqueAddr: Addr)

  predicate SameTicket(a: nat, b: nat) {
    a % TICKETS == b % TICKETS
  }

  function TakeTicket(n: LockNode): LockNode {
    n.(ticket := n.ticket + 1)
  }

  /** The winner of a fresh round makes its address the one that may be handed over. */
  function Enter(n: LockNode, addr: Addr): LockNode {
    if n.handover then n else n.(uniqueAddr := addr)
  }

  predicate HandedOver(n: LockNode, addr: Addr) {
    n.handover && n.uniqueAddr == addr
  }

  /** Release, first part: hand over if somebody waits, unless it went on for too long. */
  function Decide(n: LockNode): LockNode {
    var keep := !SameTicket(n.ticket, n.current + 1) && n.handoverCnt <= MAX_HANDOVER;
    n.(handover := keep, handoverCnt := if keep then n.handoverCnt + 1 else 0)
  }

  /** Release, second part: the remote locks to be freed. */
  function Freed(n: LockNode, addr: Addr): set<Addr> {
    (if n.uniqueAddr != addr then {addr} else {}) + (if n.handover then {} else {n.uniqueAddr})
  }

  /** The form with the lock embedded in the data: what it unlocks and what it writes. */
  datatype Effects = Effects(unlocked: set<Addr>, written: multiset<Addr>)

  function EmbeddedRelease(n: LockNode, addr: Addr): Effects {
    if !n.handover then
      if n.uniqueAddr != addr then Effects({n.uniqueAddr, addr}, multiset{addr}) else Effects({addr}, multiset{addr})
    else
      if n.uniqueAddr != addr then Effects({addr}, multiset{addr}) else Effects({}, multiset{addr})
  }

  /** Both forms of release free the same locks, and the embedded one writes the data once. */
  lemma ReleaseFormsAgree(n: LockNode, addr: Addr)
    ensures EmbeddedRelease(n, addr).unlocked == Freed(n, addr)
    ensures EmbeddedRelease(n, addr).written == multiset{addr}
  {
  }

  function Advance(n: LockNode): LockNode {
    n.(current := n.current + 1)
  }

  // ---------------------------------------------------------------- the system

  /** Where a thread is. Entered: it has the local lock; handed says whether it may skip the remote lock.
      Inside: it holds the remote lock of addr as well. Decided and Leaving: within release. */
  datatype Phase =
    | Waiting(ticket: nat, addr: Addr)
    | Entered(ticket: nat, addr: Addr, handed: bool)
    | Inside(ticket: nat, addr: Addr)
    | Decided(ticket: nat, addr: Addr)
    | Leaving(ticket: nat, addr: Addr)

  /** threads holds the threads that are not idle; ours and others the remote locks this compute node
      and the others hold; streak counts the handovers in a row. */
  datatype System = System(node: LockNode, threads: map<Tid, Phase>, ours: set<Addr>, others: set<Addr>, streak: nat)

  datatype Step =
    | Arrive(tid: Tid, addr: Addr)
    | Pass(tid: Tid)
    | LockRemote(tid: Tid)
    | Finish(tid: Tid)
    | Unlock(tid: Tid)
    | Leave(tid: Tid)
    | OtherLocks(addr: Addr)
    | OtherUnlocks(addr: Addr)

  ghost predicate Next(s: System, step: Step, s': System) {
    match step
    case Arrive(tid, addr) =>   // acquire: fetch_add on the ticket; fewer than TICKETS threads queue up
      && tid !in s.threads && s.node.ticket - s.node.current + 1 < TICKETS
      && s' == s.(node := TakeTicket(s.node), threads := s.threads[tid := Waiting(s.node.ticket, addr)])
    case Pass(tid) =>           // acquire: the spin ends
      && tid in s.threads && s.threads[tid].Waiting? && SameTicket(s.threads[tid].ticket, s.node.current)
      && var p, n := s.threads[tid], Enter(s.node, s.threads[tid].addr);
         s' == s.(node := n, threads := s.threads[tid := Entered(p.ticket, p.addr, HandedOver(n, p.addr))])
    case LockRemote(tid) =>     // the caller: CAS on the remote lock unless it was handed over
      && tid in s.threads && s.threads[tid].Entered?
      && var p := s.threads[tid];
         && (p.handed || (p.addr !in s.ours && p.addr !in s.others))
         && s' == s.(threads := s.threads[tid := Inside(p.ticket, p.addr)],
                     ours := if p.handed then s.ours else s.ours + {p.addr})
    case Finish(tid) =>         // release: load the counters, set the handover flag and count
      && tid in s.threads && s.threads[tid].Inside?
      && var p, n := s.threads[tid], Decide(s.node);
         s' == s.(node := n, threads := s.threads[tid := Decided(p.ticket, p.addr)],
                  streak := if n.handover then s.streak + 1 else 0)
    case Unlock(tid) =>         // release: free remote locks
      && tid in s.threads && s.threads[tid].Decided?
      && var p := s.threads[tid];
         s' == s.(threads := s.threads[tid := Leaving(p.ticket, p.addr)], ours := s.ours - Freed(s.node, p.addr))
    case Leave(tid) =>          // release: fetch_add on the current ticket
      && tid in s.threads && s.threads[tid].Leaving?
      && s' == s.(node := Advance(s.node), threads := s.threads - {tid})
    case OtherLocks(addr) =>
      && addr !in s.ours && addr !in s.others && s' == s.(others := s.others + {addr})
    case OtherUnlocks(addr) =>
      && addr in s.others && s' == s.(others := s.others - {addr})
  }

  ghost predicate Init(s: System) {
    && s.node.ticket == s.node.current && !s.node.handover && s.node.handoverCnt == 0
    && s.threads == map[] && s.ours == {} && s.streak == 0
  }

  // ---------------------------------------------------------------- the invariant

  /** Tickets are dealt one each, nobody is served out of turn. */
  ghost predicate TicketInv(s: System) {
    && s.node.current <= s.node.ticket < s.node.current + TICKETS
    && (forall t :: t in s.threads ==> s.node.current <= s.threads[t].ticket < s.node.ticket)
    && (forall t :: t in s.threads && !s.threads[t].Waiting? ==> s.threads[t].ticket == s.node.current)
    && (forall t, u :: t in s.threads && u in s.threads && t != u ==> s.threads[t].ticket != s.threads[u].ticket)
    && (forall k :: s.node.current <= k < s.node.ticket ==> Served(s, k))
  }

  ghost predicate Served(s: System, k: nat) {
    exists t :: t in s.threads && s.threads[t].ticket == k
  }

  /** The remote locks held between holders. */
  function Kept(n: LockNode): set<Addr> {
    if n.handover then {n.uniqueAddr} else {}
  }

  ghost predicate NobodyIn(s: System) {
    forall t :: t in s.threads ==> s.threads[t].Waiting?
  }

  /** Which remote locks are ours, by the phase of the thread that has the local lock. */
  ghost predicate PhaseInv(s: System, p: Phase) {
    match p
    case Waiting(_, _) => true
    case Entered(_, addr, handed) =>
      s.ours == Kept(s.node) && handed == HandedOver(s.node, addr) && (!s.node.handover ==> s.node.uniqueAddr == addr)
    case Inside(_, addr) => s.ours == {s.node.uniqueAddr, addr}
    case Decided(_, addr) =>
      s.ours == {s.node.uniqueAddr, addr} && (s.node.handover ==> s.node.ticket > s.node.current + 1)
    case Leaving(_, addr) =>
      s.ours == Kept(s.node) && (s.node.handover ==> s.node.ticket > s.node.current + 1)
  }

  ghost predicate RemoteInv(s: System) {
    && s.ours !! s.others
    && (forall t :: t in s.threads ==> PhaseInv(s, s.threads[t]))
    && (NobodyIn(s) ==> s.ours == Kept(s.node) && (s.node.handover ==> s.node.ticket > s.node.current))
  }

  ghost predicate CountInv(s: System) {
    && s.node.handoverCnt == s.streak <= MAX_HANDOVER + 1 && (s.streak > 0 <==> s.node.handover)
  }

  ghost predicate Inv(s: System) {
    TicketInv(s) && RemoteInv(s) && CountInv(s)
  }

  lemma SameTicketIff(a: nat, b: nat)
    requires a <= b < a + TICKETS
    ensures SameTicket(a, b) <==> a == b
  {
  }

  lemma InitInv(s: System)
    requires Init(s)
    ensures Inv(s)
  {
  }

  // ---------------------------------------------------------------- what every step keeps

  /** One thread inside at a time. */
  lemma OneInside(s: System, t: Tid, u: Tid)
    requires TicketInv(s) && t in s.threads && u in s.threads && !s.threads[t].Waiting? && !s.threads[u].Waiting?
    ensures t == u
  {
  }

  lemma TicketStep(s: System, step: Step, s': System)
    requires TicketInv(s) && Next(s, step, s')
    ensures TicketInv(s')
  {
    match step
    case Arrive(tid, addr) => ArriveTickets(s, tid, s');
    case Leave(tid) => LeaveTickets(s, tid, s');
    case OtherLocks(addr) => SameTickets(s, s');
    case OtherUnlocks(addr) => SameTickets(s, s');
    case _ =>
      SameTicketIff(s.node.current, s.threads[step.tid].ticket);
      SameTickets(s, s');
  }

  /** A step that deals no ticket and lets at most the served thread out of the queue. */
  lemma SameTickets(s: System, s': System)
    requires TicketInv(s) && s'.node.ticket == s.node.ticket && s'.node.current == s.node.current
    requires s'.threads.Keys == s.threads.Keys
    requires forall t :: t in s.threads ==> s'.threads[t].ticket == s.threads[t].ticket
    requires forall t :: t in s.threads && s.threads[t].Waiting? && !s'.threads[t].Waiting? ==>
             s.threads[t].ticket == s.node.current
    requires forall t :: t in s.threads && !s.threads[t].Waiting? ==> !s'.threads[t].Waiting?
    ensures TicketInv(s')
  {
    forall k | s'.node.current <= k < s'.node.ticket ensures Served(s', k) {
      assert Served(s, k);
      var t :| t in s.threads && s.threads[t].ticket == k;
      assert t in s'.threads;
    }
  }

  lemma ArriveTickets(s: System, tid: Tid, s': System)
    requires TicketInv(s) && tid !in s.threads && s.node.ticket - s.node.current + 1 < TICKETS
    requires s'.node == TakeTicket(s.node)
    requires exists addr :: s'.threads == s.threads[tid := Waiting(s.node.ticket, addr)]
    ensures TicketInv(s')
  {
    forall k | s'.node.current <= k < s'.node.ticket ensures Served(s', k) {
      if k == s.node.ticket {
        assert tid in s'.threads && s'.threads[tid].ticket == k;
      } else {
        assert Served(s, k);
        var t :| t in s.threads && s.threads[t].ticket == k;
        assert t in s'.threads && s'.threads[t].ticket == k;
      }
    }
  }

  lemma LeaveTickets(s: System, tid: Tid, s': System)
    requires TicketInv(s) && tid in s.threads && s.threads[tid].Leaving?
    requires s'.node == Advance(s.node) && s'.threads == s.threads - {tid}
    ensures TicketInv(s')
  {
    forall k | s'.node.current <= k < s'.node.ticket ensures Served(s', k) {
      assert Served(s, k);
      var t :| t in s.threads && s.threads[t].ticket == k;
      assert t in s'.threads && s'.threads[t].ticket == k;
    }
  }

  lemma CountStep(s: System, step: Step, s': System)
    requires CountInv(s) && Next(s, step, s')
    ensures CountInv(s')
  {
  }

  /** The step of the thread that has the local lock fixes the phase of all others. */
  lemma PhaseStep(s: System, tid: Tid, s': System)
    requires TicketInv(s) && RemoteInv(s) && tid in s.threads && !s.threads[tid].Waiting?
    requires tid in s'.threads && s'.threads == s.threads[tid := s'.threads[tid]]
    requires !s'.threads[tid].Waiting? && PhaseInv(s', s'.threads[tid]) && s'.ours !! s'.others
    ensures RemoteInv(s')
  {}

  lemma PassStep(s: System, tid: Tid, s': System)
    requires TicketInv(s) && RemoteInv(s) && Next(s, Pass(tid), s')
    ensures RemoteInv(s')
  {}

  lemma LeaveStep(s: System, tid: Tid, s': System)
    requires TicketInv(s) && RemoteInv(s) && Next(s, Leave(tid), s')
    ensures RemoteInv(s')
  {}

  lemma RemoteStep(s: System, step: Step, s': System)
    requires TicketInv(s) && RemoteInv(s) && Next(s, step, s')
    ensures RemoteInv(s')
  {
    match step
    case Arrive(tid, addr) => assert forall t :: t in s.threads ==> t in s'.threads && s'.threads[t] == s.threads[t];
    case Pass(tid) => PassStep(s, tid, s');
    case Leave(tid) => LeaveStep(s, tid, s');
    case OtherLocks(addr) =>
    case OtherUnlocks(addr) =>
    case _ =>
      assert PhaseInv(s, s.threads[step.tid]);
      SameTicketIff(s.node.current + 1, s.node.ticket);
      PhaseStep(s, step.tid, s');
  }

  lemma StepKeeps(s: System, step: Step, s': System)
    requires Inv(s) && Next(s, step, s')
    ensures Inv(s')
  {
    hide Next;
    TicketStep(s, step, s');
    RemoteStep(s, step, s');
    CountStep(s, step, s');
  }

  // ---------------------------------------------------------------- runs

  ghost predicate IsRun(states: seq<System>, steps: seq<Step>) {
    && |states| == |steps| + 1 && Init(states[0])
    && forall i :: 0 <= i < |steps| ==> Next(states[i], steps[i], states[i + 1])
  }

  lemma {:induction false} RunInv(states: seq<System>, steps: seq<Step>, i: nat)
    requires IsRun(states, steps) && i < |states|
    ensures Inv(states[i])
    decreases i
  {
    hide Inv, Init, Next;
    if i == 0 {
      InitInv(states[0]);
    } else {
      RunInv(states, steps, i - 1);
      StepKeeps(states[i - 1], steps[i - 1], states[i]);
    }
  }

  /** In every run: one thread inside at a time, and it holds the remote lock of its address; between
      holders the remote lock of uniqueAddr, and no other, is held iff handover is set, and then somebody
      waits for it; at most MAX_HANDOVER + 1 handovers come in a row. */
  lemma HandoverSafe(states: seq<System>, steps: seq<Step>, i: nat)
    requires IsRun(states, steps) && i < |states|
    ensures var s := states[i];
            && (forall t, u | t in s.threads && u in s.threads ::
                  !s.threads[t].Waiting? && !s.threads[u].Waiting? ==> t == u)
            && (forall t :: t in s.threads && s.threads[t].Inside? ==>
                  s.threads[t].addr in s.ours && s.threads[t].addr !in s.others)
            && (NobodyIn(s) ==> s.ours == (if s.node.handover then {s.node.uniqueAddr} else {}))
            && (NobodyIn(s) && s.node.handover ==>
                  exists t :: t in s.threads && s.threads[t].Waiting? && s.threads[t].ticket == s.node.current)
            && s.streak <= MAX_HANDOVER + 1
  {
    hide Next, Init;
    RunInv(states, steps, i);
    var s := states[i];
    forall t, u | t in s.threads && u in s.threads && !s.threads[t].Waiting? && !s.threads[u].Waiting? ensures t == u {
      OneInside(s, t, u);
    }
    forall t | t in s.threads && s.threads[t].Inside? ensures s.threads[t].addr in s.ours {
      assert PhaseInv(s, s.threads[t]);
    }
    if NobodyIn(s) && s.node.handover {
      assert Served(s, s.node.current);
    }
  }

  /** No remote lock is acquired while this compute node has it, or freed while it does not. */
  lemma NoDoubleLock(states: seq<System>, steps: seq<Step>, i: nat, t: Tid)
    requires IsRun(states, steps) && i < |states| && t in states[i].threads
    ensures states[i].threads[t].Entered? && !states[i].threads[t].handed ==>
            states[i].threads[t].addr !in states[i].ours
    ensures states[i].threads[t].Entered? && states[i].threads[t].handed ==> states[i].threads[t].addr in states[i].ours
    ensures states[i].threads[t].Decided? ==> Freed(states[i].node, states[i].threads[t].addr) <= states[i].ours
  {
    hide Next, Init;
    RunInv(states, steps, i);
    assert PhaseInv(states[i], states[i].threads[t]);
  }

  /** Somebody else wants the local lock. */
  ghost predicate Contended(s: System, tid: Tid) {
    exists u :: u in s.threads && u != tid
  }

  /** In every run, a thread that releases hands over if and only if another thread waits and the lock was
      handed over at most MAX_HANDOVER times in a row; then it counts as one more time. */
  lemma HandsOverIff(states: seq<System>, steps: seq<Step>, i: nat, tid: Tid)
    requires IsRun(states, steps) && i < |steps| && steps[i] == Finish(tid)
    ensures var s, s' := states[i], states[i + 1];
            && (s'.node.handover <==> Contended(s, tid) && s.streak <= MAX_HANDOVER)
            && s'.streak == (if s'.node.handover then s.streak + 1 else 0)
  {
    hide RemoteInv;
    RunInv(states, steps, i);
    var s := states[i];
    assert Next(s, steps[i], states[i + 1]);
    SameTicketIff(s.node.current + 1, s.node.ticket);
    if s.node.current + 1 < s.node.ticket {
      assert Served(s, s.node.current + 1);
    }
  }

  /** What a thread does next. */
  function Ahead(p: Phase, tid: Tid): (step: Step) {
    match p
    case Waiting(_, _) => Pass(tid)
    case Entered(_, _, _) => LockRemote(tid)
    case Inside(_, _) => Finish(tid)
    case Decided(_, _) => Unlock(tid)
    case Leaving(_, _) => Leave(tid)
  }

  /** tid can make its next step, or it waits for another compute node. */
  ghost predicate CanMove(s: System, tid: Tid)
    requires tid in s.threads
  {
    var p := s.threads[tid];
    || (exists s' :: Next(s, Ahead(p, tid), s'))
    || (p.Entered? && p.addr in s.others)
  }

  lemma ServedMoves(s: System, tid: Tid)
    requires tid in s.threads && s.threads[tid].ticket == s.node.current && PhaseInv(s, s.threads[tid])
    ensures CanMove(s, tid)
  {
    var p := s.threads[tid];
    var s' := match p
      case Waiting(t, addr) =>
        var n := Enter(s.node, addr);
        s.(node := n, threads := s.threads[tid := Entered(t, addr, HandedOver(n, addr))])
      case Entered(t, addr, handed) =>
        s.(threads := s.threads[tid := Inside(t, addr)], ours := if handed then s.ours else s.ours + {addr})
      case Inside(t, addr) =>
        var n := Decide(s.node);
        s.(node := n, threads := s.threads[tid := Decided(t, addr)], streak := if n.handover then s.streak + 1 else 0)
      case Decided(t, addr) =>
        s.(threads := s.threads[tid := Leaving(t, addr)], ours := s.ours - Freed(s.node, addr))
      case Leaving(_, _) => s.(node := Advance(s.node), threads := s.threads - {tid});
    if !p.Entered? || p.addr !in s.others {
      assert Next(s, Ahead(p, tid), s');
    }
  }

  /** In every run, as long as threads want the lock, the one whose turn it is can go on, unless the remote lock
      it needs is held by another compute node. */
  lemma Progress(states: seq<System>, steps: seq<Step>, i: nat) returns (tid: Tid)
    requires IsRun(states, steps) && i < |states| && states[i].threads != map[]
    ensures tid in states[i].threads && states[i].threads[tid].ticket == states[i].node.current
    ensures CanMove(states[i], tid)
  {
    hide Init, Next, PhaseInv, CanMove;
    RunInv(states, steps, i);
    var s := states[i];
    var u :| u in s.threads;
    assert Served(s, s.node.current);
    tid :| tid in s.threads && s.threads[tid].ticket == s.node.current;
    ServedMoves(s, tid);
  }

  // ---------------------------------------------------------------- the lock node as an object

  /** LocalLockNode: each method is one atomic access of acquire_local_lock or release_local_lock. */
  class LocalLockNode {
    var ticket: nat
    var current: nat
    var handover: bool
    var handoverCnt: nat
    var uniqueAddr: Addr

    function View(): LockNode
      reads this
    {
      LockNode(ticket, current, handover, handoverCnt, uniqueAddr)
    }

    constructor ()
      ensures View() == LockNode(0, 0, false, 0, 0)
    {
      ticket, current, handover, handoverCnt, uniqueAddr := 0, 0, false, 0, 0;
    }

    /** acquire_local_lock up to the spin is the step Arrive. */
    method FetchTicket(addr: Addr, ghost s: System, ghost tid: Tid) returns (mine: nat, ghost s': System)
      requires s.node == View() && tid !in s.threads && ticket - current + 1 < TICKETS
      modifies this`ticket
      ensures Next(s, Arrive(tid, addr), s') && s'.node == View() && s'.threads[tid] == Waiting(mine, addr)
    {
      mine := ticket;
      ticket := ticket + 1;
      s' := s.(node := TakeTicket(s.node), threads := s.threads[tid := Waiting(s.node.ticket, addr)]);
    }

    /** One round of the spin: it ends exactly when the ticket is served, and then it is the step Pass; handed
        says whether the remote lock was handed over. */
    method Poll(mine: nat, addr: Addr, ghost s: System, ghost tid: Tid)
        returns (entered: bool, handed: bool, ghost s': System)
      requires s.node == View() && tid in s.threads && s.threads[tid] == Waiting(mine, addr)
      modifies this`uniqueAddr
      ensures entered <==> SameTicket(mine, old(current))
      ensures !entered ==> s' == s && View() == old(View())
      ensures entered ==> Next(s, Pass(tid), s') && s'.node == View() && s'.threads[tid] == Entered(mine, addr, handed)
    {
      if mine % TICKETS != current % TICKETS {
        return false, false, s;
      }
      if !handover {
        uniqueAddr := addr;
      }
      entered, handed := true, handover && uniqueAddr == addr;
      var n := Enter(s.node, addr);
      s' := s.(node := n, threads := s.threads[tid := Entered(mine, addr, HandedOver(n, addr))]);
    }

    method DecideHandover()
      modifies this`handover, this`handoverCnt
      ensures View() == Decide(old(View()))
    {
      handover := ticket % TICKETS != (current + 1) % TICKETS;
      if handoverCnt > MAX_HANDOVER {
        handover := false;
      }
      handoverCnt := handoverCnt + 1;
      if !handover {
        handoverCnt := 0;
      }
    }

    /** release_local_lock is the steps Finish, Unlock and Leave; freed are the calls of unlock_func. */
    method Release(addr: Addr, ghost s: System, ghost tid: Tid)
        returns (freed: set<Addr>, ghost s1: System, ghost s2: System, ghost s': System)
      requires s.node == View() && tid in s.threads && s.threads[tid].Inside? && s.threads[tid].addr == addr
      modifies this`handover, this`handoverCnt, this`current
      ensures Next(s, Finish(tid), s1) && Next(s1, Unlock(tid), s2) && Next(s2, Leave(tid), s')
      ensures s'.node == View() && s'.ours == s.ours - freed && tid !in s'.threads
    {
      var mine := s.threads[tid].ticket;
      DecideHandover();
      s1 := s.(node := Decide(s.node), threads := s.threads[tid := Decided(mine, addr)],
               streak := if Decide(s.node).handover then s.streak + 1 else 0);
      freed := {};
      if uniqueAddr != addr {
        freed := freed + {addr};
      }
      if !handover {
        freed := freed + {uniqueAddr};
      }
      s2 := s1.(threads := s1.threads[tid := Leaving(mine, addr)], ours := s1.ours - Freed(s1.node, addr));
      current := current + 1;
      s' := s2.(node := Advance(s2.node), threads := s2.threads - {tid});
    }
  }
}
