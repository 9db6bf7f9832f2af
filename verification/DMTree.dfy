/** The leaves of a DMTree under its bottom inner level: a resize is published by the very node write that
    inserts its two records, so the parent map of the leaf protocol is the directory of the level, and a
    read that walks the level and then searches a leaf is right at some instant. */
module DMTree {

  import opened Common
  import opened KeyOrder
  import opened DMInner
  import DMLeaf
  import L = DMProtocol
  import LR = DMProtocolRuns
  import S = DMSearch
  import I = DMInnerLevel

  datatype Setup = Setup(leaf: L.Setup, inner: I.Setup) {
    predicate Valid() {
      leaf.top == inner.top > 0 && inner.cap >= 2
    }
  }

  datatype State = State(leaf: L.State, inner: I.State)

  datatype Step =
    | AtLeaf(step: L.Step)               // any write of the leaf protocol but the last of a resize
    | Direct(b: Addr, a: Addr)           // the records of the resized leaf b fit into inner node a
    | Prepare(b: Addr, a: Addr, at: Addr)// they do not: the sibling of inner node a is written
    | Finish(b: Addr, a: Addr)           // and then inner node a

  /** The record of a leaf. A table is found under the address of its leaf here. */
  function RecordOf(a: Addr, l: DMLeaf.Leaf): Record {
    Keyed(l.header.min, Child(a, a, l.header.capacity, l.header.version))
  }

  function UpdateRecord(b: Addr, j: L.Job): Option<Record>
    requires j.Publishing?
  {
    Some(RecordOf(b, j.halves.current))
  }

  function NewRecord(j: L.Job): Record
    requires j.Publishing?
  {
    RecordOf(j.at, j.halves.sibling)
  }

  predicate Publishing(s: State, b: Addr) {
    b in s.leaf.leaves && b in s.leaf.jobs && s.leaf.jobs[b].Publishing?
  }

  ghost predicate Enabled(p: Setup, s: State, step: Step) {
    match step
    case AtLeaf(t) => !t.Publish? && L.Enabled(p.leaf, s.leaf, t)
    case Direct(b, a) =>
      && Publishing(s, b)
      && I.Enabled(p.inner, s.inner, I.Write(a, UpdateRecord(b, s.leaf.jobs[b]), NewRecord(s.leaf.jobs[b])))
    case Prepare(b, a, at) =>
      && Publishing(s, b)
      && I.Enabled(p.inner, s.inner, I.StartSplit(a, UpdateRecord(b, s.leaf.jobs[b]), NewRecord(s.leaf.jobs[b]), at))
    case Finish(b, a) =>
      && Publishing(s, b) && a in s.inner.splits
      && s.inner.splits[a].update == UpdateRecord(b, s.leaf.jobs[b])
      && s.inner.splits[a].record == NewRecord(s.leaf.jobs[b])
  }

  ghost function Do(p: Setup, s: State, step: Step): (r: State)
    requires Enabled(p, s, step)
  {
    match step
    case AtLeaf(t) => s.(leaf := L.Do(p.leaf, s.leaf, t))
    case Direct(b, a) =>
      State(L.Do(p.leaf, s.leaf, L.Publish(b)),
            I.Do(p.inner, s.inner, I.Write(a, UpdateRecord(b, s.leaf.jobs[b]), NewRecord(s.leaf.jobs[b]))))
    case Prepare(b, a, at) =>
      var j := s.leaf.jobs[b];
      s.(inner := I.Do(p.inner, s.inner, I.StartSplit(a, UpdateRecord(b, j), NewRecord(j), at)))
    case Finish(b, a) =>
      State(L.Do(p.leaf, s.leaf, L.Publish(b)), I.Do(p.inner, s.inner, I.FinishSplit(a)))
  }

  function InitState(p: Setup, root: Addr, capacity: nat, node: Addr): State {
    var r := RecordOf(root, L.InitLeaf(p.leaf, capacity));
    State(L.InitState(p.leaf, root, capacity),
          I.State(map[node := Node(0, p.inner.top, None, true, true, [r])], map[], map[0 := r.value]))
  }

  // ---------------------------------------------------------------- level and leaves agree

  /** The parent map of the leaf protocol is the directory of the inner level. */
  ghost predicate Coupled(s: State) {
    && s.leaf.parent.Keys == s.inner.dir.Keys
    && forall m :: m in s.leaf.parent ==> s.leaf.parent[m] == L.Rec(s.inner.dir[m].addr, s.inner.dir[m].version)
  }

  ghost predicate Inv(p: Setup, s: State) {
    p.Valid() && L.Inv(p.leaf, s.leaf) && I.Inv(p.inner, s.inner) && Coupled(s)
  }

  lemma InitInv(p: Setup, root: Addr, capacity: nat, node: Addr)
    requires p.Valid() && capacity > 0
    ensures Inv(p, InitState(p, root, capacity, node))
  {
    L.InitInv(p.leaf, root, capacity);
    I.InitInv(p.inner, node, RecordOf(root, L.InitLeaf(p.leaf, capacity)).value, true);
  }

  lemma SiblingVersion(p: Setup, s: L.State, b: Addr)
    requires LR.Pending(p.leaf, s, b)
    ensures s.jobs[b].halves.sibling.header.version == 0
  {
    hide L.Inv;
    LR.PendingIs(p.leaf, s, b);
  }

  lemma PublishCoupled(p: Setup, s: State, b: Addr, s': State)
    requires Inv(p, s) && Publishing(s, b)
    requires s'.leaf == L.Published(s.leaf, b, s.leaf.jobs[b])
    requires s'.inner.dir == I.EnterBoth(s.inner.dir, UpdateRecord(b, s.leaf.jobs[b]), NewRecord(s.leaf.jobs[b]))
    ensures Coupled(s')
  {
    hide L.Inv, I.Inv;
    SiblingVersion(p, s.leaf, b);
  }

  lemma KeepsParent(p: Setup, s: L.State, t: L.Step)
    requires L.Enabled(p.leaf, s, t) && !t.Publish?
    ensures L.Do(p.leaf, s, t).parent == s.parent
  {}

  lemma StepKeeps(p: Setup, s: State, step: Step)
    requires Inv(p, s) && Enabled(p, s, step)
    ensures Inv(p, Do(p, s, step))
  {
    hide L.Inv, I.Inv, L.Enabled, I.Enabled;
    var s' := Do(p, s, step);
    match step
    case AtLeaf(t) =>
      LR.StepKeeps(p.leaf, s.leaf, t);
      KeepsParent(p, s.leaf, t);
    case Direct(b, a) =>
      PublishEnabled(p, s, b);
      LR.StepKeeps(p.leaf, s.leaf, L.Publish(b));
      I.StepKeeps(p.inner, s.inner, I.Write(a, UpdateRecord(b, s.leaf.jobs[b]), NewRecord(s.leaf.jobs[b])));
      PublishCoupled(p, s, b, s');
    case Prepare(b, a, at) =>
      I.StepKeeps(p.inner, s.inner, I.StartSplit(a, UpdateRecord(b, s.leaf.jobs[b]), NewRecord(s.leaf.jobs[b]), at));
    case Finish(b, a) =>
      PublishEnabled(p, s, b);
      FinishEnabled(p, s, a);
      LR.StepKeeps(p.leaf, s.leaf, L.Publish(b));
      I.StepKeeps(p.inner, s.inner, I.FinishSplit(a));
      PublishCoupled(p, s, b, s');
  }

  lemma PublishEnabled(p: Setup, s: State, b: Addr)
    requires Publishing(s, b)
    ensures L.Enabled(p.leaf, s.leaf, L.Publish(b))
  {}

  lemma FinishEnabled(p: Setup, s: State, a: Addr)
    requires a in s.inner.splits
    ensures I.Enabled(p.inner, s.inner, I.FinishSplit(a))
  {}

  /** The asserts of inner_write hold in every reachable state: whichever bottom node covers the record of
      the new leaf also covers and holds the record of the leaf that was resized. */
  lemma PublishAsserts(p: Setup, s: State, b: Addr, a: Addr)
    requires Inv(p, s) && Publishing(s, b) && a in s.inner.nodes
    requires s.inner.nodes[a].Covers(NewRecord(s.leaf.jobs[b]).key)
    ensures var u := UpdateRecord(b, s.leaf.jobs[b]).value;
            && s.inner.nodes[a].Covers(u.key) && HasKey(s.inner.nodes[a].records, u.key)
            && Place(p.inner.cap, s.inner.nodes[a].records, u).Some?
  {
    hide L.Inv, I.Inv, Place;
    LR.PendingIs(p.leaf, s.leaf, b);
    I.UpdateAsserts(p.inner, s.inner, a, UpdateRecord(b, s.leaf.jobs[b]).value, NewRecord(s.leaf.jobs[b]));
  }

  // ---------------------------------------------------------------- runs

  ghost predicate Performs(p: Setup, s: State, step: Step, s': State) {
    Enabled(p, s, step) && s' == Do(p, s, step)
  }

  /** One step of a writer, or none. */
  ghost predicate Next(p: Setup, s: State, s': State) {
    s' == s || exists step :: Performs(p, s, step, s')
  }

  ghost predicate Run(p: Setup, root: Addr, capacity: nat, node: Addr, run: seq<State>) {
    && p.Valid() && capacity > 0
    && |run| > 0 && run[0] == InitState(p, root, capacity, node)
    && forall t :: 0 < t < |run| ==> Next(p, run[t - 1], run[t])
  }

  lemma {:induction false} RunInv(p: Setup, root: Addr, capacity: nat, node: Addr, run: seq<State>, t: nat)
    requires Run(p, root, capacity, node, run) && t < |run|
    ensures Inv(p, run[t])
  {
    hide Inv, Enabled, Do;
    if t == 0 {
      InitInv(p, root, capacity, node);
    } else {
      RunInv(p, root, capacity, node, run, t - 1);
      assert Next(p, run[t - 1], run[t]);
      if run[t] != run[t - 1] {
        var step :| Performs(p, run[t - 1], step, run[t]);
        StepKeeps(p, run[t - 1], step);
      }
    }
  }

  function LeafRun(run: seq<State>): (r: seq<L.State>)
    ensures |r| == |run| && forall t :: 0 <= t < |run| ==> r[t] == run[t].leaf
  {
    seq(|run|, t requires 0 <= t < |run| => run[t].leaf)
  }

  function InnerRun(run: seq<State>): (r: seq<I.State>)
    ensures |r| == |run| && forall t :: 0 <= t < |run| ==> r[t] == run[t].inner
  {
    seq(|run|, t requires 0 <= t < |run| => run[t].inner)
  }

  lemma StepProjects(p: Setup, s: State, step: Step)
    requires Enabled(p, s, step)
    ensures LR.Next(p.leaf, s.leaf, Do(p, s, step).leaf)
    ensures I.Next(p.inner, s.inner, Do(p, s, step).inner)
  {
    hide L.Enabled, I.Enabled, L.Do, I.Do;
    var s' := Do(p, s, step);
    match step
    case AtLeaf(t) =>
      assert LR.Performs(p.leaf, s.leaf, t, s'.leaf);
    case Direct(b, a) =>
      PublishEnabled(p, s, b);
      assert LR.Performs(p.leaf, s.leaf, L.Publish(b), s'.leaf);
      var j := s.leaf.jobs[b];
      assert I.Performs(p.inner, s.inner, I.Write(a, UpdateRecord(b, j), NewRecord(j)), s'.inner);
    case Prepare(b, a, at) =>
      var j := s.leaf.jobs[b];
      assert I.Performs(p.inner, s.inner, I.StartSplit(a, UpdateRecord(b, j), NewRecord(j), at), s'.inner);
    case Finish(b, a) =>
      PublishEnabled(p, s, b);
      FinishEnabled(p, s, a);
      assert LR.Performs(p.leaf, s.leaf, L.Publish(b), s'.leaf);
      assert I.Performs(p.inner, s.inner, I.FinishSplit(a), s'.inner);
  }

  /** The write of the bottom level in a step that has one. */
  function InnerStep(s: State, step: Step): (t: I.Step)
    requires !step.AtLeaf? && Publishing(s, step.b)
  {
    match step
    case Direct(b, a) => I.Write(a, UpdateRecord(b, s.leaf.jobs[b]), NewRecord(s.leaf.jobs[b]))
    case Prepare(b, a, at) => I.StartSplit(a, UpdateRecord(b, s.leaf.jobs[b]), NewRecord(s.leaf.jobs[b]), at)
    case Finish(_, a) => I.FinishSplit(a)
  }

  lemma InnerStepIs(p: Setup, s: State, step: Step)
    requires Enabled(p, s, step) && !step.AtLeaf?
    ensures I.Enabled(p.inner, s.inner, InnerStep(s, step))
    ensures Do(p, s, step).inner == I.Do(p.inner, s.inner, InnerStep(s, step))
  {
    hide L.Do, I.Do;
  }

  /** A run of the tree is a run of its leaves and a run of its bottom level. */
  lemma RunProjects(p: Setup, root: Addr, capacity: nat, node: Addr, run: seq<State>)
    requires Run(p, root, capacity, node, run)
    ensures LR.Run(p.leaf, root, capacity, LeafRun(run)) && I.Run(p.inner, InnerRun(run))
  {
    hide Inv, Enabled, Do, I.Inv;
    forall t | 0 < t < |run|
      ensures LR.Next(p.leaf, run[t - 1].leaf, run[t].leaf) && I.Next(p.inner, run[t - 1].inner, run[t].inner)
    {
      assert Next(p, run[t - 1], run[t]);
      if run[t] != run[t - 1] {
        var step :| Performs(p, run[t - 1], step, run[t]);
        StepProjects(p, run[t - 1], step);
      }
    }
    I.InitInv(p.inner, node, RecordOf(root, L.InitLeaf(p.leaf, capacity)).value, true);
  }

  // ---------------------------------------------------------------- reads

  /** How a reader came by the record of an attempt: a walk along the bottom level. */
  datatype Descent = Descent(learnt: nat, visits: seq<I.Visit>)

  /** The reader stops at a node that covers k, and the attempt uses the record found there. */
  ghost predicate Takes(run: seq<State>, k: Key, v: I.Visit, a: S.Attempt) {
    && v.time == a.pathTime < |run| && v.addr in run[v.time].inner.nodes
    && var n := run[v.time].inner.nodes[v.addr];
    && n.Covers(k) && |n.records| > 0 && n.records[0].key <= k
    && var c := Find(n.records, k).value;
    && a.rec == L.Rec(c.addr, c.version)
  }

  ghost predicate Descends(run: seq<State>, k: Key, d: Descent, a: S.Attempt) {
    I.Walk(InnerRun(run), k, d.learnt, d.visits) && Takes(run, k, d.visits[|d.visits| - 1], a)
  }

  lemma DescentLeads(p: Setup, root: Addr, capacity: nat, node: Addr, run: seq<State>, k: Key, d: Descent, a: S.Attempt)
    requires Run(p, root, capacity, node, run) && k < p.leaf.top && Descends(run, k, d, a)
    ensures L.PathTo(run[a.pathTime].leaf, a.rec, k)
  {
    hide L.Inv, I.Inv, Find, Run;
    RunProjects(p, root, capacity, node, run);
    RunInv(p, root, capacity, node, run, a.pathTime);
    I.WalkFindsFloor(p.inner, InnerRun(run), k, d.learnt, d.visits);
    var s := run[a.pathTime];
    var m := Find(s.inner.nodes[d.visits[|d.visits| - 1].addr].records, k).key;
    assert IsFloor(s.leaf.parent, m, k);
    S.FloorIsPath(p.leaf, s.leaf, m, k);
  }

  /** End to end: whatever writers do to leaves and to the bottom level meanwhile, a read that walks the
      level and then searches leaves, with all its retries, returns a value the key had during the read
      or misses a key that was absent during the read. */
  lemma ReadCorrect(p: Setup, root: Addr, capacity: nat, node: Addr, run: seq<State>, k: Key,
                    tries: seq<S.Attempt>, descents: seq<Descent>, start: nat, end: nat)
    requires Run(p, root, capacity, node, run) && k < p.leaf.top
    requires S.Retries(p.leaf.h, LeafRun(run), k, tries) && |descents| == |tries|
    requires forall j :: 0 <= j < |tries| ==> S.Within(LeafRun(run), tries[j], start, end)
    requires forall j :: 0 <= j < |tries| ==> Descends(run, k, descents[j], tries[j])
    ensures var r := S.Look(p.leaf.h, LeafRun(run), k, tries[|tries| - 1]);
            && (r.Found? ==> S.HeldDuring(LeafRun(run), k, r.value, start, end))
            && (r.Missed? ==> S.AbsentDuring(LeafRun(run), k, start, end))
  {
    hide Run, Descends, S.Look, S.Retries, S.Within, S.HeldDuring, S.AbsentDuring;
    RunProjects(p, root, capacity, node, run);
    forall j | 0 <= j < |tries|
      ensures S.Timely(LeafRun(run), k, tries[j], start, end)
    {
      DescentLeads(p, root, capacity, node, run, k, descents[j], tries[j]);
      TimeInRun(run, tries[j], start, end);
    }
    S.SearchCorrect(p.leaf, root, capacity, LeafRun(run), k, tries, start, end);
  }

  lemma TimeInRun(run: seq<State>, a: S.Attempt, start: nat, end: nat)
    requires S.Within(LeafRun(run), a, start, end)
    ensures a.pathTime < |run|
  {}
}
