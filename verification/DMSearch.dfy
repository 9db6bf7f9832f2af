/** Optimistic searches of DMTree leaves, against every interleaving of the writers: what leaf_search
    answers was true at some instant of the search. */
module DMSearch {

  import opened Common
  import opened KeyOrder
  import opened DMLeaf
  import opened DMProtocol
  import opened DMProtocolRuns

  // ---------------------------------------------------------------- what time does not undo

  /** Fingerprints are never taken out of a table while its version lasts. */
  ghost predicate TableLater(t: Table, t': Table) {
    && t.version <= t'.version
    && (t.version == t'.version ==>
      |t.fp| == |t'.fp| && forall i :: 0 <= i < |t.fp| && t.fp[i] != 0 ==> t'.fp[i] == t.fp[i])
  }

  /** A slot keeps its key while the version of the leaf lasts. */
  ghost predicate LeafLater(l: Leaf, l': Leaf) {
    && l.header.version <= l'.header.version
    && (l.header.version == l'.header.version ==>
      |l.entries| == |l'.entries| && forall i, k :: EntryHas(l.entries, i, k) ==> EntryHas(l'.entries, i, k))
  }

  ghost predicate LaterAt(s: State, s': State, a: Addr)
    requires Aligned(s) && Aligned(s') && a in s.leaves
  {
    && a in s'.leaves
    && TableLater(s.leaves[a].table, s'.leaves[a].table)
    && LeafLater(Logical(s, a), Logical(s', a))
  }

  ghost predicate IssuedLater(s: State, s': State) {
    forall rec :: rec in s.issued ==> rec in s'.issued && s'.issued[rec] == s.issued[rec]
  }

  ghost predicate Later(s: State, s': State)
    requires Aligned(s) && Aligned(s')
  {
    IssuedLater(s, s') && forall a :: a in s.leaves ==> LaterAt(s, s', a)
  }

  lemma LaterTransitive(s: State, t: State, u: State)
    requires Aligned(s) && Aligned(t) && Aligned(u) && Later(s, t) && Later(t, u)
    ensures Later(s, u)
  {}

  lemma SameLater(s: State, s': State, a: Addr)
    requires Aligned(s) && Aligned(s') && a in s.leaves && a in s'.leaves
    requires s'.leaves[a].table == s.leaves[a].table && Logical(s', a) == Logical(s, a)
    ensures LaterAt(s, s', a)
  {}

  lemma UpdateLater(p: Setup, s: State, rec: Rec, k: Key, v: Value)
    requires Inv(p, s) && Enabled(p, s, Update(rec, k, v)) && Aligned(Do(p, s, Update(rec, k, v)))
    ensures LaterAt(s, Do(p, s, Update(rec, k, v)), rec.addr)
  {
    hide LeavesInv, SiblingInv, OwnersInv, IssuedInv, ParentInv, StoreInv, LeafInv;
    GrantedLive(p, s, rec, k);
    AcceptingIs(p.h, s.leaves[rec.addr], k, 0);
  }

  lemma AddTableLater(p: Setup, s: State, a: Addr)
    requires Inv(p, s) && Enabled(p, s, AddTable(a)) && Aligned(Do(p, s, AddTable(a)))
    ensures LaterAt(s, Do(p, s, AddTable(a)), a)
  {
    hide LeavesInv, SiblingInv, OwnersInv, IssuedInv, ParentInv, StoreInv, LeafInv, Contents;
    JobOf(p, s, a);
    LeafPartsValid(p.h, s.jobs[a].before);
  }

  lemma WriteTableLater(p: Setup, s: State, a: Addr)
    requires Inv(p, s) && Enabled(p, s, WriteTable(a)) && Aligned(Do(p, s, WriteTable(a)))
    ensures LaterAt(s, Do(p, s, WriteTable(a)), a)
  {
    hide LeavesInv, SiblingInv, OwnersInv, IssuedInv, ParentInv, StoreInv, LeafInv, Contents;
    JobOf(p, s, a);
    LeafPartsValid(p.h, s.jobs[a].before);
    LeafPartsValid(p.h, s.jobs[a].halves.current);
  }

  lemma PublishLater(p: Setup, s: State, a: Addr)
    requires Inv(p, s) && Enabled(p, s, Publish(a)) && Aligned(Do(p, s, Publish(a)))
    ensures LaterAt(s, Do(p, s, Publish(a)), a)
  {
    hide LeavesInv, SiblingInv, OwnersInv, IssuedInv, ParentInv, StoreInv, LeafInv, Contents;
    JobOf(p, s, a);
  }

  lemma StepLaterAt(p: Setup, s: State, step: Step, a: Addr)
    requires Inv(p, s) && Enabled(p, s, step) && Inv(p, Do(p, s, step)) && a in s.leaves
    ensures LaterAt(s, Do(p, s, step), a)
  {
    hide LeavesInv, SiblingInv, OwnersInv, IssuedInv, ParentInv, StoreInv, JobInv, LaterAt, Resize, LeafInv;
    var s' := Do(p, s, step);
    match step
    case Update(rec, k, v) =>
      if a == rec.addr { UpdateLater(p, s, rec, k, v); } else { SameLater(s, s', a); }
    case AddEntry(rec, k, v) =>
      GrantedLive(p, s, rec, k);
      SameLater(s, s', a);
    case AddTable(b) =>
      if a == b { AddTableLater(p, s, a); } else { SameLater(s, s', a); }
    case StartResize(rec, k, v, sibling, at) =>
      GrantedLive(p, s, rec, k);
      SameLater(s, s', a);
    case WriteEntry(b, i) =>
      SameLater(s, s', a);
    case WriteTable(b) =>
      if a == b { WriteTableLater(p, s, a); } else { SameLater(s, s', a); }
    case Publish(b) =>
      if a == b { PublishLater(p, s, a); } else { SameLater(s, s', a); }
  }

  lemma LeafPartsValid(h: Hash, l: Leaf)
    requires LeafInv(h, l)
    ensures |l.entries| == |l.table.fp| && l.table.version == l.header.version
    ensures forall i :: 0 <= i < |l.entries| ==> (l.entries[i].valid <==> l.table.fp[i] != 0)
    ensures forall i :: 0 <= i < |l.entries| && l.entries[i].valid ==> l.table.fp[i] == Fingerprint(h, l.entries[i].key)
  {}

  lemma StepLater(p: Setup, s: State, step: Step)
    requires Inv(p, s) && Enabled(p, s, step) && Inv(p, Do(p, s, step))
    ensures Later(s, Do(p, s, step))
  {
    var s' := Do(p, s, step);
    assert IssuedLater(s, s') by {
      IssuedGrows(p, s, step);
    }
    hide LeavesInv, SiblingInv, OwnersInv, IssuedInv, ParentInv, StoreInv, LaterAt, Do, Enabled;
    forall a | a in s.leaves
      ensures LaterAt(s, s', a)
    {
      StepLaterAt(p, s, step, a);
    }
  }

  lemma IssuedGrows(p: Setup, s: State, step: Step)
    requires Inv(p, s) && Enabled(p, s, step)
    ensures IssuedLater(s, Do(p, s, step))
  {
    hide LeavesInv, SiblingInv, OwnersInv, ParentInv, StoreInv, LeafInv, Contents, Resize, Takes;
    if step.Publish? {
      var a := step.a;
      PendingIs(p, s, a);
      hide Halved;
      forall rec | rec in s.issued
        ensures rec.addr == a ==> rec.version <= s.jobs[a].before.header.version
      {
        IssuedOf(s, rec);
      }
      assert s.jobs[a].halves.current.header.version == s.jobs[a].before.header.version + 1 by {
        HalvedVersion(p.h, s.jobs[a].before, s.jobs[a].key, s.jobs[a].value, s.jobs[a].halves, s.jobs[a].at);
      }
    }
  }

  lemma HalvedVersion(h: Hash, l: Leaf, k: Key, v: Value, r: Halves, at: Addr)
    requires Halved(h, l, k, v, r, at)
    ensures r.current.header.version == l.header.version + 1
  {}

  lemma {:induction false} RunLater(p: Setup, root: Addr, capacity: nat, run: seq<State>, t: nat, u: nat)
    requires Run(p, root, capacity, run) && t <= u < |run|
    ensures Inv(p, run[t]) && Inv(p, run[u]) && Later(run[t], run[u])
    decreases u
  {
    hide Inv, Do, Enabled, LaterAt;
    RunInv(p, root, capacity, run, u);
    RunInv(p, root, capacity, run, t);
    AlignedOf(p, run[t]);
    AlignedOf(p, run[u]);
    if t == u {
      LaterSame(run[t]);
    } else {
      RunLater(p, root, capacity, run, t, u - 1);
      AlignedOf(p, run[u - 1]);
      assert Next(p, run[u - 1], run[u]);
      if run[u] != run[u - 1] {
        var step :| Performs(p, run[u - 1], step, run[u]);
        StepLater(p, run[u - 1], step);
        LaterTransitive(run[t], run[u - 1], run[u]);
      }
    }
  }

  lemma AlignedOf(p: Setup, s: State)
    requires Inv(p, s)
    ensures Aligned(s)
  {}

  lemma LaterSame(s: State)
    requires Aligned(s)
    ensures Later(s, s)
  {}

  // ---------------------------------------------------------------- the search

  /** One pass of leaf_search from a record to an answer. rec is what the reader believed at pathTime;
      the table is the one of tableTime, which for a local copy may be long past; slotTimes[i] is when
      slot i is read, if it is. */
  datatype Attempt = Attempt(rec: Rec, pathTime: nat, local: bool, tableTime: nat, slotTimes: seq<nat>)

  datatype Outcome = Found(value: Value) | Stale | Missed

  ghost predicate Readable(run: seq<State>, a: Attempt) {
    && a.tableTime < |run| && a.rec.addr in run[a.tableTime].leaves
    && |a.slotTimes| == |run[a.tableTime].leaves[a.rec.addr].table.fp|
    && forall i :: 0 <= i < |a.slotTimes| ==>
      && a.slotTimes[i] < |run| && a.rec.addr in run[a.slotTimes[i]].leaves
      && i < |run[a.slotTimes[i]].leaves[a.rec.addr].entries|
  }

  function TableSeen(run: seq<State>, a: Attempt): Table
    requires Readable(run, a)
  {
    run[a.tableTime].leaves[a.rec.addr].table
  }

  function EntrySeen(run: seq<State>, a: Attempt, i: nat): Entry
    requires Readable(run, a) && i < |a.slotTimes|
  {
    run[a.slotTimes[i]].leaves[a.rec.addr].entries[i]
  }

  /** The loop over the slots with the fingerprint of k, from slot i on. */
  function Scan(h: Hash, run: seq<State>, k: Key, a: Attempt, i: nat): (r: Outcome)
    requires Readable(run, a) && i <= |a.slotTimes|
    decreases |a.slotTimes| - i
  {
    if i == |a.slotTimes| then Missed
    else if TableSeen(run, a).fp[i] != Fingerprint(h, k) then Scan(h, run, k, a, i + 1)
    else
      var e := EntrySeen(run, a, i);
      if e.version != a.rec.version then Stale
      else if e.valid && e.key == k then Found(e.value)
      else Scan(h, run, k, a, i + 1)
  }

  function Look(h: Hash, run: seq<State>, k: Key, a: Attempt): (r: Outcome)
    requires Readable(run, a)
  {
    if TableSeen(run, a).version != a.rec.version then Stale else Scan(h, run, k, a, 0)
  }

  /** The attempt runs within [start, end]. A cached record and a local table may be older. */
  ghost predicate Within(run: seq<State>, a: Attempt, start: nat, end: nat) {
    && Readable(run, a)
    && a.pathTime < |run|
    && (!a.local ==> start <= a.tableTime <= end && a.pathTime <= a.tableTime)
    && forall i :: 0 <= i < |a.slotTimes| ==>
      start <= a.slotTimes[i] <= end && a.pathTime <= a.slotTimes[i] && a.tableTime <= a.slotTimes[i]
  }

  /** and it starts from a record that led to k. */
  ghost predicate Timely(run: seq<State>, k: Key, a: Attempt, start: nat, end: nat) {
    Within(run, a, start, end) && PathTo(run[a.pathTime], a.rec, k)
  }

  /** The retries of leaf_search: only the first attempt may use the local table; a stale attempt is
      followed by one with a new record, a local miss by one with the remote table, and anything else
      is the answer. */
  ghost predicate Retries(h: Hash, run: seq<State>, k: Key, tries: seq<Attempt>) {
    && |tries| > 0
    && (forall j :: 0 <= j < |tries| ==> Readable(run, tries[j]))
    && (forall j :: 0 < j < |tries| ==> !tries[j].local)
    && (forall j :: 0 < j < |tries| ==>
      var before := tries[j - 1];
      var r := Look(h, run, k, before);
      r.Stale? || (r.Missed? && before.local && tries[j].rec == before.rec))
    && var last := tries[|tries| - 1];
    && !Look(h, run, k, last).Stale?
    && (Look(h, run, k, last).Missed? ==> !last.local)
  }

  ghost predicate Searches(h: Hash, run: seq<State>, k: Key, tries: seq<Attempt>, start: nat, end: nat) {
    Retries(h, run, k, tries) && forall j :: 0 <= j < |tries| ==> Timely(run, k, tries[j], start, end)
  }

  // ---------------------------------------------------------------- soundness

  /** The leaf that holds an entry of a believed record's version is the leaf readers rely on. */
  lemma EntryIsLogical(p: Setup, s: State, rec: Rec, i: nat)
    requires Inv(p, s) && rec in s.issued && rec.addr in s.leaves
    requires i < |s.leaves[rec.addr].entries| && s.leaves[rec.addr].entries[i].version == rec.version
    ensures Live(s, rec) && s.leaves[rec.addr].table == Logical(s, rec.addr).table
    ensures s.leaves[rec.addr].table.fp != [] && |s.leaves[rec.addr].table.fp| == |s.leaves[rec.addr].entries|
    ensures s.leaves[rec.addr].table.fp[i] != 0 ==>
              i < |Logical(s, rec.addr).entries| && s.leaves[rec.addr].entries[i] == Logical(s, rec.addr).entries[i]
  {
    hide SiblingInv, OwnersInv, ParentInv, StoreInv, LeavesInv, Contents, LeafInv;
    JobOf(p, s, rec.addr);
    IssuedOf(s, rec);
    LogicalSound(p, s, rec.addr);
    LeafParts(p.h, Logical(s, rec.addr));
    LeafPartsValid(p.h, Logical(s, rec.addr));
    var j := s.jobs[rec.addr];
    if j.Halving() {
      LeafParts(p.h, j.halves.current);
    }
  }

  /** Who reads a live leaf's committed entry reads the store. */
  lemma LiveReads(p: Setup, s: State, rec: Rec, k: Key, i: nat)
    requires Inv(p, s) && Live(s, rec) && s.issued[rec].Has(k)
    requires EntryHas(Logical(s, rec.addr).entries, i, k)
    ensures k in s.store && s.store[k] == Logical(s, rec.addr).entries[i].value
  {}

  /** The slot at which an attempt finds its value. */
  lemma {:induction false} ScanFound(h: Hash, run: seq<State>, k: Key, a: Attempt, i: nat) returns (j: nat)
    requires Readable(run, a) && i <= |a.slotTimes| && Scan(h, run, k, a, i).Found?
    ensures j < |a.slotTimes| && TableSeen(run, a).fp[j] == Fingerprint(h, k)
    ensures EntrySeen(run, a, j).version == a.rec.version
    ensures EntrySeen(run, a, j) == Entry(true, a.rec.version, k, Scan(h, run, k, a, i).value)
    decreases |a.slotTimes| - i
  {
    var e := EntrySeen(run, a, i);
    var hit := TableSeen(run, a).fp[i] == Fingerprint(h, k) && e.valid && e.key == k;
    if Scan(h, run, k, a, i) == Scan(h, run, k, a, i + 1) && !hit {
      j := ScanFound(h, run, k, a, i + 1);
    } else {
      j := i;
    }
  }

  /** A miss has looked into every slot with the fingerprint. */
  lemma {:induction false} ScanMissed(h: Hash, run: seq<State>, k: Key, a: Attempt, i: nat, j: nat)
    requires Readable(run, a) && i <= j < |a.slotTimes| && Scan(h, run, k, a, i).Missed?
    requires TableSeen(run, a).fp[j] == Fingerprint(h, k)
    ensures EntrySeen(run, a, j).version == a.rec.version
    ensures !(EntrySeen(run, a, j).valid && EntrySeen(run, a, j).key == k)
    decreases j - i
  {
    if i < j {
      ScanMissed(h, run, k, a, i + 1, j);
    }
  }

  ghost predicate HeldDuring(run: seq<State>, k: Key, v: Value, start: nat, end: nat) {
    exists t :: start <= t <= end && HeldAt(run, k, v, t)
  }

  ghost predicate HeldAt(run: seq<State>, k: Key, v: Value, t: nat) {
    t < |run| && k in run[t].store && run[t].store[k] == v
  }

  ghost predicate AbsentDuring(run: seq<State>, k: Key, start: nat, end: nat) {
    exists t :: start <= t <= end && AbsentAt(run, k, t)
  }

  ghost predicate AbsentAt(run: seq<State>, k: Key, t: nat) {
    t < |run| && k !in run[t].store
  }

  /** A value found is the value of the key when the entry was read, whatever the age of the record
      and of the table that led there. */
  lemma FoundIsHeld(p: Setup, root: Addr, capacity: nat, run: seq<State>, k: Key, a: Attempt, start: nat, end: nat)
    requires Run(p, root, capacity, run) && Timely(run, k, a, start, end)
    requires Look(p.h, run, k, a).Found?
    ensures HeldDuring(run, k, Look(p.h, run, k, a).value, start, end)
  {
    hide Inv, Later, Run;
    var j := ScanFound(p.h, run, k, a, 0);
    var u := a.slotTimes[j];
    RunLater(p, root, capacity, run, a.pathTime, u);
    RunLater(p, root, capacity, run, a.tableTime, u);
    AlignedOf(p, run[a.pathTime]);
    AlignedOf(p, run[a.tableTime]);
    AlignedOf(p, run[u]);
    LaterPath(run[a.pathTime], run[u], a.rec, k);
    LaterTable(run[a.tableTime], run[u], a.rec.addr);
    EntryIsLogical(p, run[u], a.rec, j);
    LogicalVersion(p, run[u], a.rec);
    LiveReads(p, run[u], a.rec, k, j);
    assert HeldAt(run, k, Look(p.h, run, k, a).value, u);
  }

  lemma LogicalVersion(p: Setup, s: State, rec: Rec)
    requires Inv(p, s) && Aligned(s) && Live(s, rec)
    ensures Logical(s, rec.addr).table.version == rec.version
  {
    hide SiblingInv, OwnersInv, ParentInv, StoreInv, IssuedInv, Contents;
    LogicalSound(p, s, rec.addr);
  }

  lemma LaterPath(s: State, s': State, rec: Rec, k: Key)
    requires Aligned(s) && Aligned(s') && Later(s, s') && PathTo(s, rec, k)
    ensures PathTo(s', rec, k)
  {}

  lemma LaterTable(s: State, s': State, a: Addr)
    requires Aligned(s) && Aligned(s') && Later(s, s') && a in s.leaves
    ensures LaterAt(s, s', a)
  {}

  /** Slot of a stored key in the table of a leaf that is still at the believed version. */
  lemma StoredSlot(p: Setup, s: State, rec: Rec, k: Key) returns (j: nat)
    requires Inv(p, s) && PathTo(s, rec, k) && rec.addr in s.leaves
    requires s.leaves[rec.addr].table.version == rec.version && k in s.store
    ensures Live(s, rec) && EntryHas(Logical(s, rec.addr).entries, j, k)
    ensures j < |s.leaves[rec.addr].table.fp| && s.leaves[rec.addr].table.fp[j] == Fingerprint(p.h, k)
  {
    hide SiblingInv, OwnersInv, ParentInv, StoreInv, LeavesInv, Contents, LeafInv;
    JobOf(p, s, rec.addr);
    IssuedOf(s, rec);
    LogicalSound(p, s, rec.addr);
    LeafPartsValid(p.h, Logical(s, rec.addr));
    var job := s.jobs[rec.addr];
    if job.Halving() {
      LeafPartsValid(p.h, job.halves.current);
    }
    AgreeOf(s, rec, k);
    j := ContentsFrom(Logical(s, rec.addr).entries, k);
  }

  /** A miss on the remote table means that the key was absent when that table was read. */
  lemma MissIsAbsent(p: Setup, root: Addr, capacity: nat, run: seq<State>, k: Key, a: Attempt, start: nat, end: nat)
    requires Run(p, root, capacity, run) && Timely(run, k, a, start, end)
    requires Look(p.h, run, k, a).Missed? && !a.local
    ensures AbsentAt(run, k, a.tableTime)
  {
    hide Inv, Later, Run;
    var s := run[a.tableTime];
    RunLater(p, root, capacity, run, a.pathTime, a.tableTime);
    AlignedOf(p, run[a.pathTime]);
    AlignedOf(p, s);
    LaterPath(run[a.pathTime], s, a.rec, k);
    if k in s.store {
      var j := StoredSlot(p, s, a.rec, k);
      ScanMissed(p.h, run, k, a, 0, j);
      var s' := run[a.slotTimes[j]];
      RunLater(p, root, capacity, run, a.tableTime, a.slotTimes[j]);
      AlignedOf(p, s');
      LaterPath(s, s', a.rec, k);
      LaterTable(s, s', a.rec.addr);
      EntryIsLogical(p, s', a.rec, j);
      LogicalVersion(p, s', a.rec);
      assert false;
    }
  }

  /** Searches are right at some instant: a value returned is one the key had during the search, and
      a final miss means that the key was absent during the search. */
  lemma SearchCorrect(p: Setup, root: Addr, capacity: nat, run: seq<State>, k: Key, tries: seq<Attempt>, start: nat,
                      end: nat)
    requires Run(p, root, capacity, run) && Searches(p.h, run, k, tries, start, end)
    ensures var r := Look(p.h, run, k, tries[|tries| - 1]);
            && (r.Found? ==> HeldDuring(run, k, r.value, start, end))
            && (r.Missed? ==> AbsentDuring(run, k, start, end))
  {
    hide Run, Look;
    var last := tries[|tries| - 1];
    var r := Look(p.h, run, k, last);
    if r.Found? {
      FoundIsHeld(p, root, capacity, run, k, last, start, end);
    } else if r.Missed? {
      MissIsAbsent(p, root, capacity, run, k, last, start, end);
    }
  }

  // ---------------------------------------------------------------- progress and asserts

  /** The record a search of the parent level finds leads to the leaf of the key. */
  lemma FloorIsPath(p: Setup, s: State, m: Key, k: Key)
    requires Inv(p, s) && k < p.top && IsFloor(s.parent, m, k)
    ensures PathTo(s, s.parent[m], k) && Live(s, s.parent[m])
  {}

  lemma {:induction false} ScanFresh(h: Hash, run: seq<State>, k: Key, a: Attempt, i: nat)
    requires Readable(run, a) && i <= |a.slotTimes|
    requires forall j :: 0 <= j < |a.slotTimes| ==> EntrySeen(run, a, j).version == a.rec.version
    ensures !Scan(h, run, k, a, i).Stale?
    decreases |a.slotTimes| - i
  {
    if i < |a.slotTimes| {
      ScanFresh(h, run, k, a, i + 1);
    }
  }

  /** While no writer is at the leaf, one attempt with the current record decides, and rightly. */
  lemma QuietLook(p: Setup, s: State, run: seq<State>, k: Key, m: Key, a: Attempt)
    requires Inv(p, s) && k < p.top && IsFloor(s.parent, m, k) && a.rec == s.parent[m]
    requires Readable(run, a) && run[a.tableTime] == s
    requires forall i :: 0 <= i < |a.slotTimes| ==> run[a.slotTimes[i]] == s
    requires a.rec.addr in s.jobs && s.jobs[a.rec.addr].Idle?
    ensures Look(p.h, run, k, a) == if k in s.store then Found(s.store[k]) else Missed
  {
    hide Inv;
    FloorIsPath(p, s, m, k);
    AlignedOf(p, s);
    LogicalVersion(p, s, a.rec);
    QuietVersions(p, s, a.rec);
    ScanFresh(p.h, run, k, a, 0);
    if Look(p.h, run, k, a).Found? {
      var j := ScanFound(p.h, run, k, a, 0);
      LiveReads(p, s, a.rec, k, j);
    } else if k in s.store {
      var j := StoredSlot(p, s, a.rec, k);
      ScanMissed(p.h, run, k, a, 0, j);
      assert false;
    }
  }

  lemma QuietVersions(p: Setup, s: State, rec: Rec)
    requires Inv(p, s) && Aligned(s) && Live(s, rec) && s.jobs[rec.addr].Idle?
    ensures forall i :: 0 <= i < |s.leaves[rec.addr].entries| ==> s.leaves[rec.addr].entries[i].version == rec.version
  {}

  /** The asserts of leaf_insert and leaf_resize hold: a writer past the version test finds every entry
      at the version it expects, and a resize finds a slot for every pair. */
  lemma WriterAsserts(p: Setup, s: State, rec: Rec, k: Key, v: Value, sibling: nat, at: Addr)
    requires Inv(p, s) && Granted(s, rec, k)
    ensures forall i :: 0 <= i < |s.leaves[rec.addr].entries| ==> s.leaves[rec.addr].entries[i].version == rec.version
    ensures var l := s.leaves[rec.addr];
            Accepting(p.h, l, k, 0) == |l.entries| && sibling >= l.header.capacity ==>
              |l.entries| == l.header.capacity > 0 && Resize(p.h, l, k, v, sibling, at).Some?
  {
    hide SiblingInv, OwnersInv, ParentInv, StoreInv, IssuedInv, LeavesInv, Contents, Resize, LeafInv, Takes;
    GrantedLive(p, s, rec, k);
    QuietVersions(p, s, rec);
    var l := s.leaves[rec.addr];
    if Accepting(p.h, l, k, 0) == |l.entries| && sibling >= l.header.capacity {
      Refused(p, s, rec, k);
      ResizeHalves(p.h, l, k, v, sibling, at);
    }
  }
}
