/** Every step of the DMTree leaf protocol keeps its invariant, so every state of every run has it. */
module DMProtocolRuns {

  import opened Common
  import opened DMLeaf
  import opened DMProtocol

  /** The version test turns a writer away from a leaf whose new records are not written yet. */
  lemma GrantedLive(p: Setup, s: State, rec: Rec, k: Key)
    requires Inv(p, s) && Granted(s, rec, k)
    ensures s.jobs[rec.addr].Idle? && Live(s, rec) && LeafInv(p.h, s.leaves[rec.addr])
    ensures RangeOf(s.leaves[rec.addr]).Has(k)
  {}

  /** Leaf a is not the hidden half of a resize. */
  ghost predicate Seen(s: State, a: Addr) {
    forall b :: b in s.jobs && s.jobs[b].Halving() ==> s.jobs[b].at != a
  }

  lemma BusySeen(p: Setup, s: State, a: Addr)
    requires Inv(p, s) && a in s.jobs && !s.jobs[a].Idle?
    ensures Seen(s, a) && Live(s, Rec(a, s.jobs[a].before.header.version))
  {
    hide LeavesInv, StoreInv, ParentInv;
    assert IssuedAt(s, Rec(a, s.jobs[a].before.header.version));
  }

  lemma IssuedSeen(p: Setup, s: State, rec: Rec)
    requires Inv(p, s) && rec in s.issued
    ensures Seen(s, rec.addr)
  {}

  lemma RangeLive(p: Setup, s: State, rec: Rec)
    requires Inv(p, s) && Live(s, rec)
    ensures s.issued[rec] == RangeOf(Logical(s, rec.addr))
  {
    hide StoreInv, ParentInv, SiblingInv, LeavesInv;
    assert IssuedAt(s, rec);
  }

  /** A change of leaf a alone that keeps its header and starts no resize. */
  lemma TouchKeeps(p: Setup, s: State, a: Addr, l: Leaf, j: Job, store: map<Key, Value>)
    requires Inv(p, s) && a in s.leaves && Seen(s, a)
    requires JobInv(p.h, l, j)
    requires (if j.Idle? then l else j.before).header == Logical(s, a).header
    requires !j.Idle? ==> Rec(a, j.before.header.version) in s.issued
    requires j.Halving() ==> s.jobs[a].Halving() && j.at == s.jobs[a].at && j.halves == s.jobs[a].halves
    ensures var s' := Touch(s, a, l, j, store);
            && Aligned(s') && LeavesInv(p, s') && SiblingInv(s') && OwnersInv(s')
            && IssuedInv(s') && ParentInv(p, s') && SameDirectory(s, s')
  {
    hide JobInv, StoreInv, ParentInv, IssuedInv, LeavesInv, SiblingInv;
    var s' := Touch(s, a, l, j, store);
    DirectoryKept(p, s, s');
    TouchLeaves(p, s, s', a);
    TouchSibling(s, s', a);
  }

  lemma TouchLeaves(p: Setup, s: State, s': State, a: Addr)
    requires Aligned(s) && LeavesInv(p, s) && Aligned(s') && s'.leaves.Keys == s.leaves.Keys && a in s.leaves
    requires forall b :: b in s.leaves && b != a ==> s'.leaves[b] == s.leaves[b] && s'.jobs[b] == s.jobs[b]
    requires JobInv(p.h, s'.leaves[a], s'.jobs[a])
    ensures LeavesInv(p, s')
  {}

  lemma TouchSibling(s: State, s': State, a: Addr)
    requires Aligned(s) && SiblingInv(s) && Aligned(s') && s'.leaves.Keys == s.leaves.Keys
    requires a in s.leaves && Seen(s, a)
    requires forall b :: b in s.leaves && b != a ==> s'.leaves[b] == s.leaves[b] && s'.jobs[b] == s.jobs[b]
    requires forall rec :: rec in s'.issued && rec !in s.issued ==>
             rec.addr == a || (s.jobs[a].Halving() && rec.addr == s.jobs[a].at)
    requires s'.jobs[a].Halving() ==>
               s.jobs[a].Halving() && s'.jobs[a].at == s.jobs[a].at && s'.jobs[a].halves == s.jobs[a].halves
    requires s'.jobs[a].Halving() ==> s'.issued == s.issued
    ensures SiblingInv(s')
  {}

  lemma UpdateStep(p: Setup, s: State, rec: Rec, k: Key, v: Value)
    requires Inv(p, s) && Enabled(p, s, Update(rec, k, v))
    ensures Inv(p, Do(p, s, Update(rec, k, v)))
  {
    hide StoreInv, ParentInv, IssuedInv, SiblingInv, OwnersInv, Contents, LeafInv, LeavesInv, KeysDistinct;
    var s' := Do(p, s, Update(rec, k, v));
    var a := rec.addr;
    var l := s.leaves[a];
    GrantedLive(p, s, rec, k);
    IssuedSeen(p, s, rec);
    LeafParts(p.h, l);
    AcceptingIs(p.h, l, k, 0);
    UpdateKeeps(p.h, l, Accepting(p.h, l, k, 0), k, v);
    LeafParts(p.h, s'.leaves[a]);
    TouchKeeps(p, s, a, s'.leaves[a], s.jobs[a], s'.store);
    StorePut(p, s, s', rec, k, v);
  }

  lemma Refused(p: Setup, s: State, rec: Rec, k: Key)
    requires Inv(p, s) && Granted(s, rec, k)
    requires Accepting(p.h, s.leaves[rec.addr], k, 0) == |s.leaves[rec.addr].entries|
    ensures Takes(p.h, s.leaves[rec.addr], k)
  {
    hide StoreInv, ParentInv, IssuedInv, SiblingInv, Contents, LeavesInv;
    GrantedLive(p, s, rec, k);
    var l := s.leaves[rec.addr];
    AcceptingIs(p.h, l, k, 0);
    if k in Contents(l.entries) {
      var i := ContentsFrom(l.entries, k);
      assert false;
    }
  }

  lemma AddEntryStep(p: Setup, s: State, rec: Rec, k: Key, v: Value)
    requires Inv(p, s) && Enabled(p, s, AddEntry(rec, k, v))
    ensures Inv(p, Do(p, s, AddEntry(rec, k, v)))
  {
    hide StoreInv, ParentInv, IssuedInv, SiblingInv, OwnersInv, LeavesInv, Takes;
    var s' := Do(p, s, AddEntry(rec, k, v));
    var a := rec.addr;
    Refused(p, s, rec, k);
    GrantedLive(p, s, rec, k);
    IssuedSeen(p, s, rec);
    LeafParts(p.h, s.leaves[a]);
    TouchKeeps(p, s, a, s'.leaves[a], s'.jobs[a], s.store);
    StoreKept(p, s, s');
  }

  lemma AddTableStep(p: Setup, s: State, a: Addr)
    requires Inv(p, s) && Enabled(p, s, AddTable(a))
    ensures Inv(p, Do(p, s, AddTable(a)))
  {
    hide StoreInv, ParentInv, IssuedInv, SiblingInv, OwnersInv, Contents, LeafInv, LeavesInv, KeysDistinct;
    var s' := Do(p, s, AddTable(a));
    var j := s.jobs[a];
    JobOf(p, s, a);
    BusySeen(p, s, a);
    LeafParts(p.h, j.before);
    AddedKeeps(p.h, j.before, j.slot, j.key, j.value);
    assert s'.leaves[a] == Added(p.h, j.before, j.slot, j.key, j.value);
    LeafParts(p.h, s'.leaves[a]);
    TouchKeeps(p, s, a, s'.leaves[a], Idle, s'.store);
    var rec := Rec(a, j.before.header.version);
    RangeLive(p, s, rec);
    StorePut(p, s, s', rec, j.key, j.value);
  }

  lemma WriteEntryStep(p: Setup, s: State, a: Addr, i: nat)
    requires Inv(p, s) && Enabled(p, s, WriteEntry(a, i))
    ensures Inv(p, Do(p, s, WriteEntry(a, i)))
  {
    hide StoreInv, ParentInv, IssuedInv, SiblingInv, LeavesInv, Halved;
    var s' := Do(p, s, WriteEntry(a, i));
    JobOf(p, s, a);
    BusySeen(p, s, a);
    TouchKeeps(p, s, a, s'.leaves[a], s.jobs[a], s.store);
    StoreKept(p, s, s');
  }

  lemma WriteTableStep(p: Setup, s: State, a: Addr)
    requires Inv(p, s) && Enabled(p, s, WriteTable(a))
    ensures Inv(p, Do(p, s, WriteTable(a)))
  {
    hide StoreInv, ParentInv, IssuedInv, SiblingInv, LeavesInv, Halved;
    var s' := Do(p, s, WriteTable(a));
    JobOf(p, s, a);
    BusySeen(p, s, a);
    TouchKeeps(p, s, a, s'.leaves[a], s'.jobs[a], s.store);
    StoreKept(p, s, s');
  }

  // ---------------------------------------------------------------- resizing

  lemma ResizeHalves(h: Hash, l: Leaf, k: Key, v: Value, sibling: nat, at: Addr)
    requires Takes(h, l, k) && sibling >= l.header.capacity
    ensures l.header.capacity == |l.entries| > 0
    ensures Resize(h, l, k, v, sibling, at).Some?
    ensures var halves := Resize(h, l, k, v, sibling, at).value;
            Halved(h, l, k, v, halves, at) && Mixed(l, l, halves.current)
  {
    hide Contents, KeysDistinct, Resize;
    LeafParts(h, l);
    ResizeConserves(h, l, k, v, sibling, at);
    LeafParts(h, Resize(h, l, k, v, sibling, at).value.current);
  }

  lemma HalvedIdle(h: Hash, l: Leaf, k: Key, v: Value, r: Halves, at: Addr)
    requires Halved(h, l, k, v, r, at)
    ensures JobInv(h, r.current, Idle) && JobInv(h, r.sibling, Idle)
  {}

  lemma StartResizeStep(p: Setup, s: State, rec: Rec, k: Key, v: Value, sibling: nat, at: Addr)
    requires Inv(p, s) && Enabled(p, s, StartResize(rec, k, v, sibling, at))
    ensures Inv(p, Do(p, s, StartResize(rec, k, v, sibling, at)))
  {
    hide StoreInv, ParentInv, IssuedInv, SiblingInv, OwnersInv, LeavesInv, Takes, Halved, Mixed, Resize, LeafInv;
    var s' := Do(p, s, StartResize(rec, k, v, sibling, at));
    var a := rec.addr;
    var l := s.leaves[a];
    Refused(p, s, rec, k);
    GrantedLive(p, s, rec, k);
    IssuedSeen(p, s, rec);
    ResizeHalves(p.h, l, k, v, sibling, at);
    var halves := Resize(p.h, l, k, v, sibling, at).value;
    HalvedIdle(p.h, l, k, v, halves, at);
    SiblingAdded(p, s, rec, k, v, halves, at);
    DirectoryKept(p, s, s');
    StoreKept(p, s, s');
  }

  function Started(s: State, a: Addr, j: Job, at: Addr, sib: Leaf): State {
    State(s.leaves[at := sib], s.jobs[at := Idle][a := j], s.parent, s.issued, s.store)
  }

  lemma SiblingAdded(p: Setup, s: State, rec: Rec, k: Key, v: Value, halves: Halves, at: Addr)
    requires Inv(p, s) && Live(s, rec) && at !in s.leaves && s.jobs[rec.addr].Idle?
    requires Seen(s, rec.addr)
    requires JobInv(p.h, s.leaves[rec.addr], Resizing(s.leaves[rec.addr], k, v, halves, at))
    requires JobInv(p.h, halves.sibling, Idle)
    ensures var s' := Started(s, rec.addr, Resizing(s.leaves[rec.addr], k, v, halves, at), at, halves.sibling);
            Aligned(s') && LeavesInv(p, s') && SiblingInv(s') && OwnersInv(s') && SameDirectory(s, s')
  {
    hide JobInv, StoreInv, ParentInv, LeavesInv, SiblingInv, IssuedInv, OwnersInv;
    var j := Resizing(s.leaves[rec.addr], k, v, halves, at);
    var s' := Started(s, rec.addr, j, at, halves.sibling);
    StartedLeaves(p, s, rec.addr, j, at, halves.sibling);
    StartedSibling(p, s, rec.addr, j);
    StartedOwners(p, s, rec, j, at, halves.sibling);
  }

  lemma StartedLeaves(p: Setup, s: State, a: Addr, j: Job, at: Addr, sib: Leaf)
    requires Aligned(s) && LeavesInv(p, s) && a in s.leaves && at !in s.leaves
    requires JobInv(p.h, s.leaves[a], j) && JobInv(p.h, sib, Idle)
    ensures Aligned(Started(s, a, j, at, sib)) && LeavesInv(p, Started(s, a, j, at, sib))
  {}

  lemma StartedSibling(p: Setup, s: State, a: Addr, j: Job)
    requires Inv(p, s) && a in s.leaves && Seen(s, a) && s.jobs[a].Idle?
    requires j.Resizing? && j.at !in s.leaves
    ensures Aligned(Started(s, a, j, j.at, j.halves.sibling)) && SiblingInv(Started(s, a, j, j.at, j.halves.sibling))
  {
    hide LeavesInv, StoreInv, ParentInv, OwnersInv;
    var s' := Started(s, a, j, j.at, j.halves.sibling);
    assert Unnamed(s, j.at) by {
      forall rec | rec in s.issued
        ensures rec.addr != j.at
      {
        assert IssuedAt(s, rec);
      }
    }
    hide IssuedInv;
    forall b | b in s'.jobs && s'.jobs[b].Halving()
      ensures HiddenHalf(s', b)
    {
      if b != a {
        assert HiddenHalf(s, b);
      }
    }
  }

  lemma StartedOwners(p: Setup, s: State, rec: Rec, j: Job, at: Addr, sib: Leaf)
    requires Aligned(s) && OwnersInv(s) && at !in s.leaves && Live(s, rec) && s.jobs[rec.addr].Idle?
    requires j.Resizing? && j.before == s.leaves[rec.addr]
    ensures OwnersInv(Started(s, rec.addr, j, at, sib))
  {}

  // ---------------------------------------------------------------- publishing

  ghost predicate Pending(p: Setup, s: State, a: Addr) {
    && Inv(p, s) && a in s.leaves && s.jobs[a].Publishing?
  }

  /** What the two records replace. */
  lemma PendingIs(p: Setup, s: State, a: Addr)
    requires Pending(p, s, a)
    ensures var j := s.jobs[a];
            var was := Rec(a, j.before.header.version);
            && Halved(p.h, j.before, j.key, j.value, j.halves, j.at) && s.leaves[a] == j.halves.current
            && Live(s, was) && s.issued[was] == RangeOf(j.before)
            && j.before.header.min in s.parent && s.parent[j.before.header.min] == was
            && ParentAt(p, s, j.before.header.min)
            && HiddenHalf(s, a) && Seen(s, a)
  {
    hide StoreInv, KeysDistinct, Contents;
    JobOf(p, s, a);
    BusySeen(p, s, a);
    var was := Rec(a, s.jobs[a].before.header.version);
    assert IssuedAt(s, was);
  }

  lemma PublishLocal(p: Setup, s: State, a: Addr)
    requires Pending(p, s, a)
    ensures var s' := Published(s, a, s.jobs[a]);
            Aligned(s') && LeavesInv(p, s') && SiblingInv(s') && OwnersInv(s')
  {
    hide StoreInv, ParentInv, JobInv, Halved, IssuedInv, LeavesInv, SiblingInv;
    PendingIs(p, s, a);
    var j := s.jobs[a];
    var s' := Published(s, a, j);
    HalvedIdle(p.h, j.before, j.key, j.value, j.halves, j.at);
    TouchLeaves(p, s, s', a);
    TouchSibling(s, s', a);
  }

  lemma PublishIssuedAt(p: Setup, s: State, a: Addr, rec: Rec)
    requires Pending(p, s, a) && Aligned(Published(s, a, s.jobs[a]))
    requires rec in Published(s, a, s.jobs[a]).issued
    ensures IssuedAt(Published(s, a, s.jobs[a]), rec)
  {
    hide StoreInv, LeavesInv, ParentInv, OwnersInv, SiblingInv, IssuedInv, LeafInv, Contents, KeysDistinct, Takes;
    PendingIs(p, s, a);
    if rec in s.issued {
      IssuedOf(s, rec);
    }
  }

  lemma PublishParentAt(p: Setup, s: State, a: Addr, m: Key)
    requires Pending(p, s, a) && Aligned(Published(s, a, s.jobs[a]))
    requires m in Published(s, a, s.jobs[a]).parent
    ensures ParentAt(p, Published(s, a, s.jobs[a]), m)
  {
    hide StoreInv, LeavesInv, ParentInv, OwnersInv, SiblingInv, IssuedInv, LeafInv, Contents, KeysDistinct, Takes;
    PendingIs(p, s, a);
    var j := s.jobs[a];
    if m in s.parent {
      ParentOf(p, s, m);
      IssuedOf(s, s.parent[m]);
    }
  }

  lemma ContentsIn(h: Hash, l: Leaf, x: Key)
    requires LeafInv(h, l) && x in Contents(l.entries)
    ensures RangeOf(l).Has(x)
  {}

  lemma HalvesAgree(h: Hash, st: map<Key, Value>, l: Leaf, k: Key, v: Value, r: Halves, at: Addr, x: Key)
    requires Halved(h, l, k, v, r, at) && AgreeAt(st, l.entries, x)
    ensures RangeOf(r.current).Has(x) ==> AgreeAt(st[k := v], r.current.entries, x)
    ensures RangeOf(r.sibling).Has(x) ==> AgreeAt(st[k := v], r.sibling.entries, x)
  {
    hide Contents, KeysDistinct, LeafInv;
    LeafParts(h, r.current);
    LeafParts(h, r.sibling);
    var c, b := Contents(r.current.entries), Contents(r.sibling.entries);
    if x in c {
      ContentsIn(h, r.current, x);
    }
    if x in b {
      ContentsIn(h, r.sibling, x);
    }
    var m := Contents(l.entries)[k := v];
    assert x in m <==> x in c || x in b;
    assert x in b ==> m[x] == b[x];
    assert x in c && x !in b ==> m[x] == c[x];
  }

  lemma PublishStoreAt(p: Setup, s: State, a: Addr, rec: Rec, x: Key)
    requires Pending(p, s, a) && Aligned(Published(s, a, s.jobs[a]))
    requires Live(Published(s, a, s.jobs[a]), rec) && Published(s, a, s.jobs[a]).issued[rec].Has(x)
    ensures AgreeAt(Published(s, a, s.jobs[a]).store, Logical(Published(s, a, s.jobs[a]), rec.addr).entries, x)
  {
    hide LeavesInv, OwnersInv, LeafInv, AgreeAt, ParentInv, SiblingInv, IssuedInv, StoreInv;
    PendingIs(p, s, a);
    PublishIssuedAt(p, s, a, rec);
    var j := s.jobs[a];
    var was := Rec(a, j.before.header.version);
    if rec.addr == a || rec.addr == j.at {
      HalvedRanges(p.h, j.before, j.key, j.value, j.halves, j.at);
      assert s.issued[was].Has(x);
      AgreeOf(s, was, x);
      HalvesAgree(p.h, s.store, j.before, j.key, j.value, j.halves, j.at, x);
    } else {
      assert Live(s, rec);
      HalvedRanges(p.h, j.before, j.key, j.value, j.halves, j.at);
      if x == j.key {
        LiveUnique(p, s, rec, was, x);
      }
      AgreeOf(s, rec, x);
      AgreeOther(s.store, Logical(s, rec.addr).entries, j.key, j.value, x);
    }
  }

  lemma HalvedRanges(h: Hash, l: Leaf, k: Key, v: Value, r: Halves, at: Addr)
    requires Halved(h, l, k, v, r, at)
    ensures RangeOf(l).Has(k)
    ensures forall x :: RangeOf(r.current).Has(x) || RangeOf(r.sibling).Has(x) ==> RangeOf(l).Has(x)
  {}

  lemma PublishStep(p: Setup, s: State, a: Addr)
    requires Pending(p, s, a)
    ensures Inv(p, Published(s, a, s.jobs[a]))
  {
    hide LeavesInv, OwnersInv, SiblingInv, IssuedAt, ParentAt, AgreeAt, Published;
    PublishLocal(p, s, a);
    var s' := Published(s, a, s.jobs[a]);
    forall rec | rec in s'.issued
      ensures IssuedAt(s', rec)
    {
      PublishIssuedAt(p, s, a, rec);
    }
    forall m | m in s'.parent
      ensures ParentAt(p, s', m)
    {
      PublishParentAt(p, s, a, m);
    }
    forall rec, x | Live(s', rec) && s'.issued[rec].Has(x)
      ensures AgreeAt(s'.store, Logical(s', rec.addr).entries, x)
    {
      PublishStoreAt(p, s, a, rec, x);
    }
    assert 0 in s'.parent by {
      PublishKeeps(p, s, a);
    }
  }

  lemma PublishKeeps(p: Setup, s: State, a: Addr)
    requires Pending(p, s, a)
    ensures 0 in Published(s, a, s.jobs[a]).parent
  {}

  // ---------------------------------------------------------------- runs

  /** Every step of every writer keeps the invariant. */
  lemma StepKeeps(p: Setup, s: State, step: Step)
    requires Inv(p, s) && Enabled(p, s, step)
    ensures Inv(p, Do(p, s, step))
  {
    hide Inv;
    match step
    case Update(rec, k, v) => UpdateStep(p, s, rec, k, v);
    case AddEntry(rec, k, v) => AddEntryStep(p, s, rec, k, v);
    case AddTable(a) => AddTableStep(p, s, a);
    case StartResize(rec, k, v, sibling, at) => StartResizeStep(p, s, rec, k, v, sibling, at);
    case WriteEntry(a, i) => WriteEntryStep(p, s, a, i);
    case WriteTable(a) => WriteTableStep(p, s, a);
    case Publish(a) => PublishStep(p, s, a);
  }

  ghost predicate Performs(p: Setup, s: State, step: Step, s': State) {
    Enabled(p, s, step) && s' == Do(p, s, step)
  }

  /** One step of a writer, or none. */
  ghost predicate Next(p: Setup, s: State, s': State) {
    s' == s || exists step :: Performs(p, s, step, s')
  }

  /** A run from the freshly created tree. */
  ghost predicate Run(p: Setup, root: Addr, capacity: nat, run: seq<State>) {
    && p.top > 0 && capacity > 0
    && |run| > 0 && run[0] == InitState(p, root, capacity)
    && forall t :: 0 < t < |run| ==> Next(p, run[t - 1], run[t])
  }

  lemma {:induction false} RunInv(p: Setup, root: Addr, capacity: nat, run: seq<State>, t: nat)
    requires Run(p, root, capacity, run) && t < |run|
    ensures Inv(p, run[t])
  {
    if t == 0 {
      InitInv(p, root, capacity);
    } else {
      RunInv(p, root, capacity, run, t - 1);
      assert Next(p, run[t - 1], run[t]);
      if run[t] != run[t - 1] {
        var step :| Performs(p, run[t - 1], step, run[t]);
        StepKeeps(p, run[t - 1], step);
      }
    }
  }
}
