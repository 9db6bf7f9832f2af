/** What the writers of a DMTree wrote, read off the steps they took: a log that knows the keys and values of
    steps only. The store a run stands for is that log, so searches answer what was written. */
module DMWrites {

  import opened Common
  import opened KeyOrder
  import opened DMLeaf
  import opened DMProtocol
  import opened DMProtocolRuns
  import opened DMSearch

  datatype Write = Write(key: Key, value: Value)

  /** done are the completed writes, open the writes that are under way at a leaf. */
  datatype Log = Log(done: map<Key, Value>, open: map<Addr, Write>)

  /** A write is complete with the rewritten entry, with the table behind a new entry, or with the records of a
      resize. */
  function Completes(g: Log, step: Step): (w: Option<Write>) {
    match step
    case Update(_, k, v) => Some(Write(k, v))
    case AddTable(a) => if a in g.open then Some(g.open[a]) else None
    case Publish(a) => if a in g.open then Some(g.open[a]) else None
    case AddEntry(_, _, _) => None
    case StartResize(_, _, _, _, _) => None
    case WriteEntry(_, _) => None
    case WriteTable(_) => None
  }

  function Opened(g: Log, step: Step): (open: map<Addr, Write>) {
    match step
    case AddEntry(rec, k, v) => g.open[rec.addr := Write(k, v)]
    case StartResize(rec, k, v, _, _) => g.open[rec.addr := Write(k, v)]
    case Update(_, _, _) => g.open
    case AddTable(_) => g.open
    case WriteEntry(_, _) => g.open
    case WriteTable(_) => g.open
    case Publish(_) => g.open
  }

  function Logged(g: Log, step: Step): (g': Log) {
    match Completes(g, step)
    case Some(w) => Log(g.done[w.key := w.value], Opened(g, step))
    case None => Log(g.done, Opened(g, step))
  }

  /** The log of a sequence of steps; None is no step. */
  function LogOf(steps: seq<Option<Step>>): (g: Log) {
    if steps == [] then Log(map[], map[])
    else
      var g := LogOf(steps[..|steps| - 1]);
      match steps[|steps| - 1]
      case Some(step) => Logged(g, step)
      case None => g
  }

  // ---------------------------------------------------------------- the store is the log

  ghost predicate Does(p: Setup, s: State, step: Option<Step>, s': State) {
    if step.Some? then Performs(p, s, step.value, s') else s' == s
  }

  /** A run with the steps it takes. */
  ghost predicate LabeledRun(p: Setup, root: Addr, capacity: nat, run: seq<State>, steps: seq<Option<Step>>) {
    && p.top > 0 && capacity > 0 && |run| == |steps| + 1 && run[0] == InitState(p, root, capacity)
    && forall t :: 0 <= t < |steps| ==> Does(p, run[t], steps[t], run[t + 1])
  }

  lemma LabeledIsRun(p: Setup, root: Addr, capacity: nat, run: seq<State>, steps: seq<Option<Step>>)
    requires LabeledRun(p, root, capacity, run, steps)
    ensures Run(p, root, capacity, run)
  {
    hide Performs;
    forall t | 0 < t < |run| ensures Next(p, run[t - 1], run[t]) {
      assert Does(p, run[t - 1], steps[t - 1], run[t]);
    }
  }

  /** Every run has such steps. */
  lemma RunIsLabeled(p: Setup, root: Addr, capacity: nat, run: seq<State>) returns (steps: seq<Option<Step>>)
    requires Run(p, root, capacity, run)
    ensures LabeledRun(p, root, capacity, run, steps)
  {
    hide Performs;
    steps := [];
    for i := 0 to |run| - 1
      invariant |steps| == i && forall t :: 0 <= t < i ==> Does(p, run[t], steps[t], run[t + 1])
    {
      assert Next(p, run[i + 1 - 1], run[i + 1]);
      var step := None;
      if run[i + 1] != run[i] {
        var did :| Performs(p, run[i], did, run[i + 1]);
        step := Some(did);
      }
      steps := steps + [step];
    }
  }

  /** The log knows the store, and what each writer at work is writing. */
  ghost predicate Knows(g: Log, s: State) {
    && g.done == s.store
    && forall a :: a in s.jobs && !s.jobs[a].Idle? ==>
         a in g.open && g.open[a] == Write(s.jobs[a].key, s.jobs[a].value)
  }

  lemma StepLogged(p: Setup, g: Log, s: State, step: Step)
    requires Knows(g, s) && Enabled(p, s, step)
    ensures Knows(Logged(g, step), Do(p, s, step))
  {
    hide Resize, Accepting, FirstFp, Fingerprint;
  }

  lemma {:induction false} RunLogged(p: Setup, root: Addr, capacity: nat, run: seq<State>, steps: seq<Option<Step>>,
                                     t: nat)
    requires LabeledRun(p, root, capacity, run, steps) && t < |run|
    ensures Knows(LogOf(steps[..t]), run[t])
  {
    hide Enabled, Do, Knows, Logged;
    if t == 0 {
      InitLogged(p, root, capacity);
    } else {
      RunLogged(p, root, capacity, run, steps, t - 1);
      assert Does(p, run[t - 1], steps[t - 1], run[t]);
      assert steps[..t][..t - 1] == steps[..t - 1];
      if steps[t - 1].Some? {
        StepLogged(p, LogOf(steps[..t - 1]), run[t - 1], steps[t - 1].value);
      }
    }
  }

  lemma InitLogged(p: Setup, root: Addr, capacity: nat)
    ensures Knows(LogOf([]), InitState(p, root, capacity))
  {}

  /** In every run the store is the fold of the keys and values of its steps, in the order their writes
      complete. */
  lemma StoreIsLog(p: Setup, root: Addr, capacity: nat, run: seq<State>, steps: seq<Option<Step>>, t: nat)
    requires LabeledRun(p, root, capacity, run, steps) && t < |run|
    ensures run[t].store == LogOf(steps[..t]).done
  {
    hide LogOf, LabeledRun;
    RunLogged(p, root, capacity, run, steps, t);
  }

  // ---------------------------------------------------------------- answers

  function Written(g: Log, k: Key): (r: Outcome) {
    if k in g.done then Found(g.done[k]) else Missed
  }

  /** An attempt with the current record of k that sees state s only, while no writer is at the leaf. */
  ghost predicate Quiet(p: Setup, s: State, run: seq<State>, k: Key, m: Key, a: Attempt) {
    && k < p.top && IsFloor(s.parent, m, k) && a.rec == s.parent[m]
    && Readable(run, a) && run[a.tableTime] == s
    && (forall i :: 0 <= i < |a.slotTimes| ==> run[a.slotTimes[i]] == s)
    && a.rec.addr in s.jobs && s.jobs[a.rec.addr].Idle?
  }

  /** A quiet attempt answers with the last value written to its key, or misses a key never written. */
  lemma QuietAnswers(p: Setup, root: Addr, capacity: nat, run: seq<State>, steps: seq<Option<Step>>, t: nat,
                     k: Key, m: Key, a: Attempt)
    requires LabeledRun(p, root, capacity, run, steps) && t < |run| && Quiet(p, run[t], run, k, m, a)
    ensures Look(p.h, run, k, a) == Written(LogOf(steps[..t]), k)
  {
    hide Inv, LogOf, LabeledRun, Look;
    LabeledIsRun(p, root, capacity, run, steps);
    RunInv(p, root, capacity, run, t);
    StoreIsLog(p, root, capacity, run, steps, t);
    QuietLook(p, run[t], run, k, m, a);
  }

  /** Right after a write of k is complete, a quiet attempt for k answers with its value, and one for any other
      key answers as it would have before. */
  lemma WriteShows(p: Setup, root: Addr, capacity: nat, run: seq<State>, steps: seq<Option<Step>>, t: nat, w: Write,
                   q: Key, m: Key, a: Attempt)
    requires LabeledRun(p, root, capacity, run, steps) && t < |steps| && steps[t].Some?
    requires Completes(LogOf(steps[..t]), steps[t].value) == Some(w) && Quiet(p, run[t + 1], run, q, m, a)
    ensures Look(p.h, run, q, a) == if q == w.key then Found(w.value) else Written(LogOf(steps[..t]), q)
  {
    hide Look, Quiet, Does;
    QuietAnswers(p, root, capacity, run, steps, t + 1, q, m, a);
    assert steps[..t + 1][..t] == steps[..t] && steps[..t + 1][t] == steps[t];
    assert LogOf(steps[..t + 1]) == Logged(LogOf(steps[..t]), steps[t].value);
  }

  /** Some instant of the search saw k with that answer in the log. */
  ghost predicate AnsweredDuring(steps: seq<Option<Step>>, k: Key, r: Outcome, start: nat, end: nat) {
    exists t :: start <= t <= end && AnsweredAt(steps, k, r, t)
  }

  ghost predicate AnsweredAt(steps: seq<Option<Step>>, k: Key, r: Outcome, t: nat) {
    t <= |steps| && Written(LogOf(steps[..t]), k) == r
  }

  lemma StoreAnswers(p: Setup, root: Addr, capacity: nat, run: seq<State>, steps: seq<Option<Step>>, k: Key,
                     start: nat, end: nat)
    requires LabeledRun(p, root, capacity, run, steps)
    ensures forall v :: HeldDuring(run, k, v, start, end) ==> AnsweredDuring(steps, k, Found(v), start, end)
    ensures AbsentDuring(run, k, start, end) ==> AnsweredDuring(steps, k, Missed, start, end)
  {
    hide LogOf;
    forall v | HeldDuring(run, k, v, start, end) ensures AnsweredDuring(steps, k, Found(v), start, end) {
      var t :| start <= t <= end && HeldAt(run, k, v, t);
      StoreIsLog(p, root, capacity, run, steps, t);
      assert AnsweredAt(steps, k, Found(v), t);
    }
    if t :| start <= t <= end && AbsentAt(run, k, t) {
      StoreIsLog(p, root, capacity, run, steps, t);
      assert AnsweredAt(steps, k, Missed, t);
    }
  }

  /** A search with all its retries answers what the log held for its key at some instant of the search. */
  lemma SearchAnswersWrites(p: Setup, root: Addr, capacity: nat, run: seq<State>, steps: seq<Option<Step>>, k: Key,
                            tries: seq<Attempt>, start: nat, end: nat)
    requires LabeledRun(p, root, capacity, run, steps) && Searches(p.h, run, k, tries, start, end)
    ensures var r := Look(p.h, run, k, tries[|tries| - 1]);
            r.Found? || r.Missed? ==> AnsweredDuring(steps, k, r, start, end)
  {
    hide LabeledRun, Run, Look, HeldDuring, AbsentDuring, AnsweredDuring;
    LabeledIsRun(p, root, capacity, run, steps);
    SearchCorrect(p, root, capacity, run, k, tries, start, end);
    StoreAnswers(p, root, capacity, run, steps, k, start, end);
  }

  // ---------------------------------------------------------------- the leaf after a write

  /** Rewriting an entry leaves the leaf of DMLeaf.Insert. */
  lemma UpdateIsInsert(p: Setup, s: State, rec: Rec, k: Key, v: Value)
    requires Enabled(p, s, Update(rec, k, v))
    ensures Insert(p.h, s.leaves[rec.addr], k, v) == Stored(Do(p, s, Update(rec, k, v)).leaves[rec.addr])
  {
    hide Accepting;
    AcceptedFits(p.h, s.leaves[rec.addr], k, v, 0);
  }

  lemma {:induction false} AcceptedFits(h: Hash, l: Leaf, k: Key, v: Value, i: nat)
    requires |l.table.fp| == |l.entries| && i <= |l.entries| && Accepting(h, l, k, i) < |l.entries|
    ensures EntryInsert(l.entries[Accepting(h, l, k, i)], k, v).Some?
    decreases |l.entries| - i
  {
    if i < |l.entries| && Accepting(h, l, k, i) != i {
      AcceptedFits(h, l, k, v, i + 1);
    }
  }

  /** So do a new entry and then its fingerprint, whatever happens to other leaves in between. */
  lemma AddIsInsert(p: Setup, s: State, rec: Rec, k: Key, v: Value, s': State)
    requires Enabled(p, s, AddEntry(rec, k, v)) && Enabled(p, s', AddTable(rec.addr))
    requires var s1 := Do(p, s, AddEntry(rec, k, v));
             s'.leaves[rec.addr] == s1.leaves[rec.addr] && s'.jobs[rec.addr] == s1.jobs[rec.addr]
    ensures Insert(p.h, s.leaves[rec.addr], k, v) == Stored(Do(p, s', AddTable(rec.addr)).leaves[rec.addr])
  {
    hide Accepting, FirstFp;
  }
}
