/** One level of DMTree inner nodes under concurrent insertions and splits: searches with right-moves
    find the greatest record key at or below the query over the whole level. */
module DMInnerLevel {

  import opened Common
  import opened KeyOrder
  import opened DMInner

  datatype Setup = Setup(cap: nat, top: Key)

  /** A split whose sibling is written and whose origin is not: the origin stays locked, and nothing
      points to the sibling. */
  datatype Split = Split(pieces: Pieces, at: Addr, update: Option<Record>, record: Record)

  /** nodes are the linked nodes of the level. dir is a history variable: the records written so far. */
  datatype State = State(nodes: map<Addr, Node>, splits: map<Addr, Split>, dir: map<Key, Child>)

  datatype Step =
    | Write(a: Addr, update: Option<Record>, r: Record)                 // inner_write succeeds
    | StartSplit(a: Addr, update: Option<Record>, r: Record, at: Addr)  // node_split writes the sibling
    | FinishSplit(a: Addr)                                              // and then the origin

  /** The optional update_record of a bottom node, inserted before the new record. */
  function Updated(cap: nat, rs: seq<Record>, update: Option<Record>): (q: Option<seq<Record>>) {
    if update.None? then Some(rs) else Place(cap, rs, update.value)
  }

  function Enter(dir: map<Key, Child>, r: Record): map<Key, Child> {
    dir[r.key := r.value]
  }

  function EnterBoth(dir: map<Key, Child>, update: Option<Record>, r: Record): map<Key, Child> {
    Enter(if update.None? then dir else Enter(dir, update.value), r)
  }

  /** The writer holds the lock of a, has moved right to the node of r and passed check_hdr for both
      records, and the update has found its place. */
  predicate Granted(p: Setup, s: State, a: Addr, update: Option<Record>, r: Record) {
    && a in s.nodes && a !in s.splits
    && s.nodes[a].Covers(r.key)
    && (update.Some? ==> s.nodes[a].Covers(update.value.key))
    && Updated(p.cap, s.nodes[a].records, update).Some?
  }

  predicate Enabled(p: Setup, s: State, step: Step) {
    match step
    case Write(a, update, r) =>
      Granted(p, s, a, update, r) && Place(p.cap, Updated(p.cap, s.nodes[a].records, update).value, r).Some?
    case StartSplit(a, update, r, at) =>
      && Granted(p, s, a, update, r)
      && var rs := Updated(p.cap, s.nodes[a].records, update).value;
      && Place(p.cap, rs, r).None? && p.cap / 2 < |rs|
      && at !in s.nodes && (forall b :: b in s.splits ==> s.splits[b].at != at)
      && SplitNode(p.cap, s.nodes[a].(records := rs), r, at).Some?
    case FinishSplit(a) =>
      a in s.splits
  }

  function Do(p: Setup, s: State, step: Step): (r: State)
    requires Enabled(p, s, step)
  {
    match step
    case Write(a, update, r) =>
      var rs := Updated(p.cap, s.nodes[a].records, update).value;
      State(s.nodes[a := s.nodes[a].(records := Place(p.cap, rs, r).value)], s.splits, EnterBoth(s.dir, update, r))
    case StartSplit(a, update, r, at) =>
      var rs := Updated(p.cap, s.nodes[a].records, update).value;
      var pieces := SplitNode(p.cap, s.nodes[a].(records := rs), r, at).value;
      s.(splits := s.splits[a := Split(pieces, at, update, r)])
    case FinishSplit(a) =>
      var sp := s.splits[a];
      State(s.nodes[a := sp.pieces.origin][sp.at := sp.pieces.sibling], s.splits - {a},
            EnterBoth(s.dir, sp.update, sp.record))
  }

  // ---------------------------------------------------------------- the invariant

  ghost predicate Linked(p: Setup, nodes: map<Addr, Node>, a: Addr)
    requires a in nodes
  {
    var n := nodes[a];
    && NodeInv(p.cap, n) && n.max <= p.top
    && (n.right.None? ==> n.max == p.top)
    && (n.right.Some? ==> n.right.value in nodes && nodes[n.right.value].min == n.max)
  }

  ghost predicate Tiled(nodes: map<Addr, Node>) {
    forall a, b :: a in nodes && b in nodes && a != b ==> nodes[a].max <= nodes[b].min || nodes[b].max <= nodes[a].min
  }

  /** The records of n are those of dir in the range of n. */
  ghost predicate Holds(dir: map<Key, Child>, n: Node) {
    && (forall i :: 0 <= i < |n.records| ==> n.records[i].key in dir && dir[n.records[i].key] == n.records[i].value)
    && (forall k :: n.Covers(k) && k in dir ==> HasKey(n.records, k))
  }

  ghost predicate SplitInv(p: Setup, s: State, a: Addr)
    requires a in s.splits
  {
    var sp := s.splits[a];
    && a in s.nodes && sp.at !in s.nodes
    && Parted(p.cap, s.nodes[a], sp.pieces, sp.at)
    && s.nodes[a].Covers(sp.record.key) && (sp.update.Some? ==> s.nodes[a].Covers(sp.update.value.key))
    && Holds(EnterBoth(s.dir, sp.update, sp.record), sp.pieces.origin)
    && Holds(EnterBoth(s.dir, sp.update, sp.record), sp.pieces.sibling)
  }

  ghost predicate Inv(p: Setup, s: State) {
    && p.cap >= 2
    && (forall a :: a in s.nodes ==> Linked(p, s.nodes, a) && Holds(s.dir, s.nodes[a]))
    && Tiled(s.nodes)
    && (forall a :: a in s.splits ==> SplitInv(p, s, a))
    && (forall a, b :: a in s.splits && b in s.splits && a != b ==> s.splits[a].at != s.splits[b].at)
  }

  lemma InitInv(p: Setup, a: Addr, child: Child, leafParent: bool)
    requires p.cap >= 2 && p.top > 0
    ensures Inv(p, State(map[a := Node(0, p.top, None, true, leafParent, [Keyed(0, child)])], map[], map[0 := child]))
  {}

  lemma NodeOf(p: Setup, s: State, a: Addr)
    requires Inv(p, s) && a in s.nodes
    ensures Linked(p, s.nodes, a) && NodeInv(p.cap, s.nodes[a]) && Holds(s.dir, s.nodes[a])
  {}

  lemma SplitOf(p: Setup, s: State, a: Addr)
    requires Inv(p, s) && a in s.splits
    ensures SplitInv(p, s, a)
  {}

  // ---------------------------------------------------------------- records and directory

  lemma HoldsPlaced(dir: map<Key, Child>, n: Node, r: Record, q: seq<Record>)
    requires Holds(dir, n) && Placed(n.records, r, q)
    ensures Holds(Enter(dir, r), n.(records := q))
  {}

  /** dir and dir' are the same on [min, max). */
  ghost predicate SameWithin(dir: map<Key, Child>, dir': map<Key, Child>, min: Key, max: Key) {
    forall k :: min <= k < max ==> (k in dir <==> k in dir') && (k in dir ==> dir[k] == dir'[k])
  }

  lemma HoldsSame(cap: nat, dir: map<Key, Child>, dir': map<Key, Child>, n: Node)
    requires Holds(dir, n) && NodeInv(cap, n) && SameWithin(dir, dir', n.min, n.max)
    ensures Holds(dir', n)
  {}

  lemma EnterBothElsewhere(dir: map<Key, Child>, update: Option<Record>, r: Record, min: Key, max: Key)
    requires !(min <= r.key < max) && (update.Some? ==> !(min <= update.value.key < max))
    ensures SameWithin(dir, EnterBoth(dir, update, r), min, max)
  {}

  lemma EnterBothSame(dir: map<Key, Child>, dir': map<Key, Child>, update: Option<Record>, r: Record, min: Key,
                      max: Key)
    requires SameWithin(dir, dir', min, max)
    ensures SameWithin(EnterBoth(dir, update, r), EnterBoth(dir', update, r), min, max)
  {}

  lemma HoldsPart(dir: map<Key, Child>, n: Node, m: Node, rest: seq<Record>)
    requires Holds(dir, n) && n.min <= m.min && m.max <= n.max
    requires n.records == m.records + rest || n.records == rest + m.records
    requires forall i :: 0 <= i < |rest| ==> !m.Covers(rest[i].key)
    ensures Holds(dir, m)
  {
    forall i | 0 <= i < |m.records|
      ensures m.records[i] in n.records
    {
      assert n.records[i] == m.records[i] || n.records[|rest| + i] == m.records[i];
    }
    forall k | m.Covers(k) && k in dir
      ensures HasKey(m.records, k)
    {
      assert n.Covers(k) && HasKey(n.records, k);
      var i :| 0 <= i < |n.records| && n.records[i].key == k;
      assert n.records[i] in m.records + rest;
      assert n.records[i] !in rest;
    }
  }

  lemma HoldsParted(cap: nat, dir: map<Key, Child>, n: Node, p: Pieces, at: Addr)
    requires Parted(cap, n, p, at) && Holds(dir, n.(records := p.origin.records + p.sibling.records))
    ensures Holds(dir, p.origin) && Holds(dir, p.sibling)
  {
    hide Holds, Ascending, HasKey;
    Ordered(cap, p.origin);
    Ordered(cap, p.sibling);
    var whole := n.(records := p.origin.records + p.sibling.records);
    HoldsPart(dir, whole, p.origin, p.sibling.records);
    HoldsPart(dir, whole, p.sibling, p.origin.records);
  }

  lemma UpdatedKeeps(p: Setup, s: State, a: Addr, update: Option<Record>, r: Record)
    requires Inv(p, s) && Granted(p, s, a, update, r)
    ensures var n := s.nodes[a].(records := Updated(p.cap, s.nodes[a].records, update).value);
            && NodeInv(p.cap, n) && Holds(if update.None? then s.dir else Enter(s.dir, update.value), n)
  {
    hide NodeInv, Holds, Place, Placed, Inv;
    NodeOf(p, s, a);
    if update.Some? {
      PlaceKeeps(p.cap, s.nodes[a], update.value);
      HoldsPlaced(s.dir, s.nodes[a], update.value, Updated(p.cap, s.nodes[a].records, update).value);
    } else {
      assert s.nodes[a].(records := s.nodes[a].records) == s.nodes[a];
    }
  }

  lemma WrittenNode(p: Setup, s: State, a: Addr, update: Option<Record>, r: Record)
    requires Inv(p, s) && Enabled(p, s, Write(a, update, r))
    ensures var s' := Do(p, s, Write(a, update, r));
            && a in s'.nodes && NodeInv(p.cap, s'.nodes[a]) && Holds(s'.dir, s'.nodes[a])
            && s'.nodes[a] == s.nodes[a].(records := s'.nodes[a].records)
  {
    hide NodeInv, Holds, Place, Placed, Inv;
    UpdatedKeeps(p, s, a, update, r);
    var n := s.nodes[a].(records := Updated(p.cap, s.nodes[a].records, update).value);
    PlaceKeeps(p.cap, n, r);
    HoldsPlaced(if update.None? then s.dir else Enter(s.dir, update.value), n, r, Place(p.cap, n.records, r).value);
  }

  // ---------------------------------------------------------------- every step keeps the invariant

  /** Ranges of other nodes miss what a writer at a enters. */
  lemma MissesOthers(p: Setup, s: State, a: Addr, b: Addr, update: Option<Record>, r: Record)
    requires Inv(p, s) && a in s.nodes && b in s.nodes && a != b
    requires s.nodes[a].Covers(r.key) && (update.Some? ==> s.nodes[a].Covers(update.value.key))
    ensures SameWithin(s.dir, EnterBoth(s.dir, update, r), s.nodes[b].min, s.nodes[b].max)
  {
    hide Linked, Holds, SplitInv, SameWithin;
    EnterBothElsewhere(s.dir, update, r, s.nodes[b].min, s.nodes[b].max);
  }

  lemma HoldsOther(p: Setup, s: State, a: Addr, b: Addr, update: Option<Record>, r: Record)
    requires Inv(p, s) && a in s.nodes && b in s.nodes && a != b
    requires s.nodes[a].Covers(r.key) && (update.Some? ==> s.nodes[a].Covers(update.value.key))
    ensures Holds(EnterBoth(s.dir, update, r), s.nodes[b])
  {
    hide Inv, Holds, SameWithin, EnterBoth;
    NodeOf(p, s, b);
    MissesOthers(p, s, a, b, update, r);
    HoldsSame(p.cap, s.dir, EnterBoth(s.dir, update, r), s.nodes[b]);
  }

  /** A pending split at b survives a write at another node. */
  lemma SplitOther(p: Setup, s: State, s': State, a: Addr, b: Addr, update: Option<Record>, r: Record)
    requires Inv(p, s) && a in s.nodes && b in s.splits && a != b
    requires s.nodes[a].Covers(r.key) && (update.Some? ==> s.nodes[a].Covers(update.value.key))
    requires s'.dir == EnterBoth(s.dir, update, r) && b in s'.splits && s'.splits[b] == s.splits[b]
    requires b in s'.nodes && s'.nodes[b] == s.nodes[b] && s.splits[b].at !in s'.nodes
    ensures SplitInv(p, s', b)
  {
    hide Inv, Holds, SameWithin, EnterBoth, NodeInv;
    SplitOf(p, s, b);
    MissesOthers(p, s, a, b, update, r);
    var sp := s.splits[b];
    var d, d' := EnterBoth(s.dir, sp.update, sp.record), EnterBoth(s'.dir, sp.update, sp.record);
    EnterBothSame(s.dir, s'.dir, sp.update, sp.record, s.nodes[b].min, s.nodes[b].max);
    Narrower(p.cap, s.nodes[b], sp.pieces, sp.at, d, d');
    HoldsSame(p.cap, d, d', sp.pieces.origin);
    HoldsSame(p.cap, d, d', sp.pieces.sibling);
  }

  lemma Narrower(cap: nat, n: Node, p: Pieces, at: Addr, d: map<Key, Child>, d': map<Key, Child>)
    requires Parted(cap, n, p, at) && SameWithin(d, d', n.min, n.max)
    ensures SameWithin(d, d', p.origin.min, p.origin.max) && SameWithin(d, d', p.sibling.min, p.sibling.max)
    ensures n.min < p.origin.max < n.max
  {}

  lemma WriteStep(p: Setup, s: State, a: Addr, update: Option<Record>, r: Record)
    requires Inv(p, s) && Enabled(p, s, Write(a, update, r))
    ensures Inv(p, Do(p, s, Write(a, update, r)))
  {
    hide NodeInv, Holds, SplitInv, Place, EnterBoth, Updated;
    var s' := Do(p, s, Write(a, update, r));
    WrittenNode(p, s, a, update, r);
    forall b | b in s'.nodes
      ensures Linked(p, s'.nodes, b) && Holds(s'.dir, s'.nodes[b])
    {
      NodeOf(p, s, b);
      if b != a {
        HoldsOther(p, s, a, b, update, r);
      }
    }
    forall b | b in s'.splits
      ensures SplitInv(p, s', b)
    {
      SplitAt(p, s, b);
      SplitOther(p, s, s', a, b, update, r);
    }
  }

  lemma SplitAt(p: Setup, s: State, b: Addr)
    requires Inv(p, s) && b in s.splits
    ensures b in s.nodes && s.splits[b].at !in s.nodes
  {
    SplitOf(p, s, b);
  }

  lemma StartedSplit(p: Setup, s: State, a: Addr, update: Option<Record>, r: Record, at: Addr)
    requires Inv(p, s) && Enabled(p, s, StartSplit(a, update, r, at))
    ensures SplitInv(p, Do(p, s, StartSplit(a, update, r, at)), a)
  {
    hide Inv, Holds, NodeInv, Place, Placed, SplitNode;
    var dir := if update.None? then s.dir else Enter(s.dir, update.value);
    UpdatedKeeps(p, s, a, update, r);
    var n := s.nodes[a].(records := Updated(p.cap, s.nodes[a].records, update).value);
    PlaceKeeps(p.cap, n, r);
    Capacity(p, s);
    SplitKeeps(p.cap, n, r, at);
    var pieces := SplitNode(p.cap, n, r, at).value;
    HoldsPlaced(dir, n, r, pieces.origin.records + pieces.sibling.records);
    HoldsParted(p.cap, Enter(dir, r), n, pieces, at);
    assert Parted(p.cap, s.nodes[a], pieces, at);
  }

  lemma Capacity(p: Setup, s: State)
    requires Inv(p, s)
    ensures p.cap >= 2
  {}

  lemma StartSplitStep(p: Setup, s: State, a: Addr, update: Option<Record>, r: Record, at: Addr)
    requires Inv(p, s) && Enabled(p, s, StartSplit(a, update, r, at))
    ensures Inv(p, Do(p, s, StartSplit(a, update, r, at)))
  {
    hide SplitInv, Holds, Linked, Tiled, Place, SplitNode, Updated;
    StartedSplit(p, s, a, update, r, at);
    var s' := Do(p, s, StartSplit(a, update, r, at));
    SplitAdded(p, s, s', a);
  }

  lemma SplitAdded(p: Setup, s: State, s': State, a: Addr)
    requires Inv(p, s) && a !in s.splits && a in s'.splits && SplitInv(p, s', a)
    requires s'.nodes == s.nodes && s'.dir == s.dir && s'.splits == s.splits[a := s'.splits[a]]
    requires forall b :: b in s.splits ==> s.splits[b].at != s'.splits[a].at
    ensures Inv(p, s')
  {
    hide Holds, Linked, Tiled, Parted, EnterBoth;
    forall b | b in s'.splits && b != a
      ensures SplitInv(p, s', b)
    {
      SplitOf(p, s, b);
    }
  }

  lemma FinishedLinks(p: Setup, s: State, a: Addr, b: Addr)
    requires Inv(p, s) && a in s.splits && b in Do(p, s, FinishSplit(a)).nodes
    ensures Linked(p, Do(p, s, FinishSplit(a)).nodes, b)
  {
    hide Inv, Holds;
    SplitOf(p, s, a);
    NodeOf(p, s, a);
    if b in s.nodes {
      NodeOf(p, s, b);
    }
  }

  lemma FinishedTiles(p: Setup, s: State, a: Addr)
    requires Inv(p, s) && a in s.splits
    ensures Tiled(Do(p, s, FinishSplit(a)).nodes)
  {
    hide Holds, Linked, NodeInv;
    SplitOf(p, s, a);
    var sp := s.splits[a];
    assert s.nodes[a].min <= sp.pieces.origin.max <= s.nodes[a].max by {
      Ordered(p.cap, sp.pieces.origin);
      Ordered(p.cap, sp.pieces.sibling);
    }
  }

  lemma Ordered(cap: nat, n: Node)
    requires NodeInv(cap, n)
    ensures n.min < n.max
  {}

  lemma FinishSplitStep(p: Setup, s: State, a: Addr)
    requires Inv(p, s) && a in s.splits
    ensures Inv(p, Do(p, s, FinishSplit(a)))
  {
    hide Holds, SplitInv, Linked, Tiled, EnterBoth;
    var s' := Do(p, s, FinishSplit(a));
    var sp := s.splits[a];
    FinishedTiles(p, s, a);
    SplitParts(p, s, a);
    forall b | b in s'.nodes
      ensures Linked(p, s'.nodes, b) && Holds(s'.dir, s'.nodes[b])
    {
      FinishedLinks(p, s, a, b);
      if b != a && b != sp.at {
        HoldsOther(p, s, a, b, sp.update, sp.record);
      }
    }
    forall b | b in s'.splits
      ensures SplitInv(p, s', b)
    {
      SplitAt(p, s, b);
      SplitOther(p, s, s', a, b, sp.update, sp.record);
    }
  }

  lemma SplitParts(p: Setup, s: State, a: Addr)
    requires Inv(p, s) && a in s.splits
    ensures var sp := s.splits[a];
            && a in s.nodes && sp.at !in s.nodes
            && s.nodes[a].Covers(sp.record.key) && (sp.update.Some? ==> s.nodes[a].Covers(sp.update.value.key))
            && Holds(EnterBoth(s.dir, sp.update, sp.record), sp.pieces.origin)
            && Holds(EnterBoth(s.dir, sp.update, sp.record), sp.pieces.sibling)
  {
    hide Holds, Linked;
    SplitOf(p, s, a);
  }

  lemma StepKeeps(p: Setup, s: State, step: Step)
    requires Inv(p, s) && Enabled(p, s, step)
    ensures Inv(p, Do(p, s, step))
  {
    hide Inv;
    match step
    case Write(a, update, r) => WriteStep(p, s, a, update, r);
    case StartSplit(a, update, r, at) => StartSplitStep(p, s, a, update, r, at);
    case FinishSplit(a) => FinishSplitStep(p, s, a);
  }

  // ---------------------------------------------------------------- searches over runs

  ghost predicate Performs(p: Setup, s: State, step: Step, s': State) {
    Enabled(p, s, step) && s' == Do(p, s, step)
  }

  /** One step of a writer, or none. */
  ghost predicate Next(p: Setup, s: State, s': State) {
    s' == s || exists step :: Performs(p, s, step, s')
  }

  /** A run from any sound level, such as a new root. */
  ghost predicate Run(p: Setup, run: seq<State>) {
    && |run| > 0 && Inv(p, run[0])
    && forall t :: 0 < t < |run| ==> Next(p, run[t - 1], run[t])
  }

  lemma {:induction false} RunInv(p: Setup, run: seq<State>, t: nat)
    requires Run(p, run) && t < |run|
    ensures Inv(p, run[t])
  {
    hide Inv, Enabled, Do;
    if t > 0 {
      RunInv(p, run, t - 1);
      assert Next(p, run[t - 1], run[t]);
      if run[t] != run[t - 1] {
        var step :| Performs(p, run[t - 1], step, run[t]);
        StepKeeps(p, run[t - 1], step);
      }
    }
  }

  /** A node stays in its level and keeps its least key. */
  lemma StepMin(p: Setup, s: State, step: Step, a: Addr)
    requires Inv(p, s) && Enabled(p, s, step) && a in s.nodes
    ensures var s' := Do(p, s, step);
            a in s'.nodes && s'.nodes[a].min == s.nodes[a].min
  {
    hide Inv, Holds, NodeInv, Place, SplitNode, EnterBoth;
    if step.FinishSplit? {
      SplitOf(p, s, step.a);
    }
  }

  lemma {:induction false} RunMin(p: Setup, run: seq<State>, t: nat, u: nat, a: Addr)
    requires Run(p, run) && t <= u < |run| && a in run[t].nodes
    ensures a in run[u].nodes && run[u].nodes[a].min == run[t].nodes[a].min
    decreases u
  {
    hide Inv, Enabled, Do;
    if t < u {
      RunMin(p, run, t, u - 1, a);
      RunInv(p, run, u - 1);
      assert Next(p, run[u - 1], run[u]);
      if run[u] != run[u - 1] {
        var step :| Performs(p, run[u - 1], step, run[u]);
        StepMin(p, run[u - 1], step, a);
      }
    }
  }

  /** One node read of inner_search. */
  datatype Visit = Visit(addr: Addr, time: nat)

  /** inner_search: a node that does not cover k sends the reader to the right sibling it names; other
      writers may be at work between two reads. */
  ghost predicate RightMoves(run: seq<State>, k: Key, vs: seq<Visit>) {
    |vs| > 0 && vs[0].time < |run| && forall i :: 0 < i < |vs| ==> MovedRight(run, k, vs[i - 1], vs[i])
  }

  /** The first node was in the level, with a least key at or below k, when its address was learnt. */
  ghost predicate Walk(run: seq<State>, k: Key, learnt: nat, vs: seq<Visit>) {
    && RightMoves(run, k, vs)
    && learnt <= vs[0].time && vs[0].addr in run[learnt].nodes && run[learnt].nodes[vs[0].addr].min <= k
  }

  ghost predicate MovedRight(run: seq<State>, k: Key, v: Visit, w: Visit) {
    && v.time <= w.time < |run|
    && v.addr in run[v.time].nodes
    && !run[v.time].nodes[v.addr].Covers(k)
    && run[v.time].nodes[v.addr].right == Some(w.addr)
  }

  lemma {:induction false} WalkStays(p: Setup, run: seq<State>, k: Key, learnt: nat, vs: seq<Visit>, i: nat)
    requires Run(p, run) && Walk(run, k, learnt, vs) && i < |vs|
    ensures vs[i].time < |run| && vs[i].addr in run[vs[i].time].nodes && run[vs[i].time].nodes[vs[i].addr].min <= k
  {
    hide Inv;
    if i == 0 {
      RunMin(p, run, learnt, vs[0].time, vs[0].addr);
    } else {
      WalkStays(p, run, k, learnt, vs, i - 1);
      var v, w := vs[i - 1], vs[i];
      assert MovedRight(run, k, v, w);
      RunInv(p, run, v.time);
      NodeOf(p, run[v.time], v.addr);
      RunMin(p, run, v.time, w.time, w.addr);
    }
  }

  lemma FindIsFloor(p: Setup, s: State, a: Addr, k: Key)
    requires Inv(p, s) && a in s.nodes && s.nodes[a].Covers(k)
    ensures |s.nodes[a].records| > 0 && s.nodes[a].records[0].key <= k
    ensures var r := Find(s.nodes[a].records, k);
            IsFloor(s.dir, r.key, k) && s.dir[r.key] == r.value
  {
    hide Inv, Find;
    NodeOf(p, s, a);
    var n := s.nodes[a];
    var r := Find(n.records, k);
    var j :| 0 <= j < |n.records| && n.records[j] == r;
    forall x | x in s.dir && x <= k
      ensures x <= r.key
    {
      if n.min <= x {
        FindIsGreatest(n.records, k, x);
      }
    }
  }

  /** Whenever the walk ends at a node that covers k, the record it takes there is the floor of k over
      the whole level at that moment. */
  lemma WalkFindsFloor(p: Setup, run: seq<State>, k: Key, learnt: nat, vs: seq<Visit>)
    requires Run(p, run) && Walk(run, k, learnt, vs)
    ensures var v := vs[|vs| - 1];
            && v.time < |run| && v.addr in run[v.time].nodes
            && var n := run[v.time].nodes[v.addr];
            && (n.Covers(k) ==>
              && |n.records| > 0 && n.records[0].key <= k
              && IsFloor(run[v.time].dir, Find(n.records, k).key, k)
              && run[v.time].dir[Find(n.records, k).key] == Find(n.records, k).value)
            && (!n.Covers(k) && k < p.top ==> n.right.Some?)
  {
    hide Find, Inv, IsFloor;
    WalkStays(p, run, k, learnt, vs, |vs| - 1);
    var v := vs[|vs| - 1];
    RunInv(p, run, v.time);
    NodeOf(p, run[v.time], v.addr);
    if run[v.time].nodes[v.addr].Covers(k) {
      FindIsFloor(p, run[v.time], v.addr, k);
    }
  }

  /** The asserts of inner_write hold: the node that covers the new record also covers, and already
      holds, the record of the leaf that was resized, so replacing it cannot fail. */
  lemma UpdateAsserts(p: Setup, s: State, a: Addr, update: Record, r: Record)
    requires Inv(p, s) && a in s.nodes && s.nodes[a].Covers(r.key)
    requires IsFloor(s.dir, update.key, r.key)
    ensures s.nodes[a].Covers(update.key) && HasKey(s.nodes[a].records, update.key)
    ensures Place(p.cap, s.nodes[a].records, update).Some?
  {
    hide Inv, Place, Placed;
    NodeOf(p, s, a);
    var n := s.nodes[a];
    assert n.records[0].key in s.dir;
    PlaceKeeps(p.cap, n, update);
  }
}
