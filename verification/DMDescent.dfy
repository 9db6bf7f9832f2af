/** A whole DMTree: the inner levels above the bottom one. A split owes the level above a record of its
    sibling, or the tree a new root. Every record above the bottom names a node of the level below with
    that least key, so a descent from the root reaches, level by level, the node that covers its key. */
module DMDescent {

  import opened Common
  import opened KeyOrder
  import opened DMInner
  import L = DMProtocol
  import S = DMSearch
  import W = DMWrites
  import I = DMInnerLevel
  import T = DMTree

  /** The sibling `addr`, with least key `key`, of node `origin`: not yet known to the level above. */
  datatype Owed = Owed(level: nat, key: Key, addr: Addr, origin: Addr)

  /** uppers[h - 1] is inner level h; level 0 is the bottom level of the tree. root is the root pointer. */
  datatype State = State(tree: T.State, uppers: seq<I.State>, root: Addr, owed: set<Owed>)

  datatype Step =
    | Below(t: T.Step)                        // leaves and bottom level
    | Upper(h: nat, write: I.Step, o: Owed)   // inner_write or a write of node_split at level h
    | Grow(o: Owed, child: Child, at: Addr)   // update_root

  function Level(s: State, h: nat): (l: I.State)
    requires h <= |s.uppers|
  {
    if h == 0 then s.tree.inner else s.uppers[h - 1]
  }

  /** What the second write of a split leaves to insert one level up. */
  function Owes(h: nat, l: I.State, step: I.Step): (os: set<Owed>) {
    if step.FinishSplit? && step.a in l.splits then
      var sp := l.splits[step.a];
      {Owed(h, sp.pieces.sibling.min, sp.at, step.a)}
    else {}
  }

  function OwedBelow(s: State, step: T.Step): (os: set<Owed>) {
    if step.Finish? then Owes(0, s.tree.inner, I.FinishSplit(step.a)) else {}
  }

  /** The writer of o inserts its record, which has no update beside it above the bottom level. */
  predicate Inserts(h: nat, step: I.Step, o: Owed) {
    && o.level + 1 == h
    && match step
       case Write(_, update, r) => update.None? && r.key == o.key && r.value.addr == o.addr
       case StartSplit(_, update, r, _) => update.None? && r.key == o.key && r.value.addr == o.addr
       case FinishSplit(_) => false
  }

  ghost predicate Enabled(p: T.Setup, s: State, step: Step) {
    match step
    case Below(t) => T.Enabled(p, s.tree, t)
    case Upper(h, t, o) =>
      && 0 < h <= |s.uppers| && I.Enabled(p.inner, Level(s, h), t)
      && (t.FinishSplit? || (o in s.owed && Inserts(h, t, o)))
    case Grow(o, child, at) =>
      o in s.owed && o.level == |s.uppers| && o.origin == s.root && child.addr == o.addr
  }

  /** update_root: the old root, now split, and its sibling. */
  function NewRoot(p: T.Setup, split: Addr, key: Key, child: Child): (n: Node) {
    Node(0, p.inner.top, None, true, false, [Keyed(0, Child(split, 0, 0, 0)), Keyed(key, child)])
  }

  ghost function Do(p: T.Setup, s: State, step: Step): (r: State)
    requires Enabled(p, s, step)
  {
    match step
    case Below(t) =>
      s.(tree := T.Do(p, s.tree, t), owed := s.owed + OwedBelow(s, t))
    case Upper(h, t, o) =>
      s.(uppers := s.uppers[h - 1 := I.Do(p.inner, Level(s, h), t)],
         owed := if t.FinishSplit? then s.owed + Owes(h, Level(s, h), t) else s.owed - {o})
    case Grow(o, child, at) =>
      var n := NewRoot(p, s.root, o.key, child);
      s.(uppers := s.uppers + [I.State(map[at := n], map[], map[0 := n.records[0].value, o.key := child])],
         root := at, owed := s.owed - {o})
  }

  function InitState(p: T.Setup, leaf: Addr, capacity: nat, node: Addr): State {
    State(T.InitState(p, leaf, capacity, node), [], node, {})
  }

  // ---------------------------------------------------------------- a level names the one below

  /** addr is a node of the level, with that least key. */
  ghost predicate Names(l: I.State, key: Key, addr: Addr) {
    addr in l.nodes && l.nodes[addr].min == key
  }

  /** Every record of hi, also of a split under way, names a node of lo. */
  ghost predicate Over(lo: I.State, hi: I.State) {
    && (forall m :: m in hi.dir ==> Names(lo, m, hi.dir[m].addr))
    && (forall a :: a in hi.splits ==>
          var sp := hi.splits[a];
          sp.update.None? && Names(lo, sp.record.key, sp.record.value.addr))
  }

  ghost predicate Flagged(l: I.State, bottom: bool) {
    forall a :: a in l.nodes ==> l.nodes[a].leafParent == bottom
  }

  ghost predicate OwedInv(s: State, o: Owed) {
    o.level <= |s.uppers| && o.key > 0 && Names(Level(s, o.level), o.key, o.addr)
  }

  ghost predicate LevelInv(p: T.Setup, s: State, h: nat)
    requires h <= |s.uppers|
  {
    && I.Inv(p.inner, Level(s, h)) && Flagged(Level(s, h), h == 0)
    && (h > 0 ==> Over(Level(s, h - 1), Level(s, h)))
  }

  ghost predicate Inv(p: T.Setup, s: State) {
    && T.Inv(p, s.tree)
    && (forall h :: 0 <= h <= |s.uppers| ==> LevelInv(p, s, h))
    && Names(Level(s, |s.uppers|), 0, s.root)
    && (forall o :: o in s.owed ==> OwedInv(s, o))
  }

  /** Nodes of l are in l', with the same least keys. */
  ghost predicate Grows(l: I.State, l': I.State) {
    forall a :: a in l.nodes ==> a in l'.nodes && l'.nodes[a].min == l.nodes[a].min
  }

  lemma StepGrows(p: I.Setup, l: I.State, step: I.Step)
    requires I.Inv(p, l) && I.Enabled(p, l, step)
    ensures Grows(l, I.Do(p, l, step))
  {
    hide I.Inv, I.Enabled, I.Do;
    forall a | a in l.nodes
      ensures a in I.Do(p, l, step).nodes && I.Do(p, l, step).nodes[a].min == l.nodes[a].min
    {
      I.StepMin(p, l, step, a);
    }
  }

  lemma OverGrows(lo: I.State, lo': I.State, hi: I.State)
    requires Over(lo, hi) && Grows(lo, lo')
    ensures Over(lo', hi)
  {}

  /** A step of the upper level whose record names a node below. */
  lemma OverStep(p: I.Setup, lo: I.State, hi: I.State, h: nat, step: I.Step, o: Owed)
    requires Over(lo, hi) && I.Enabled(p, hi, step)
    requires step.FinishSplit? || (Inserts(h, step, o) && Names(lo, o.key, o.addr))
    ensures Over(lo, I.Do(p, hi, step))
  {
    hide Place, SplitNode, I.Granted;
  }

  lemma StepFlags(p: I.Setup, l: I.State, step: I.Step, bottom: bool)
    requires I.Inv(p, l) && I.Enabled(p, l, step) && Flagged(l, bottom)
    ensures Flagged(I.Do(p, l, step), bottom)
  {
    hide I.Inv, I.Holds, NodeInv, Place, SplitNode, I.EnterBoth;
    if step.FinishSplit? {
      I.SplitOf(p, l, step.a);
    }
  }

  lemma OwesSound(p: I.Setup, h: nat, l: I.State, step: I.Step, o: Owed)
    requires I.Inv(p, l) && I.Enabled(p, l, step) && o in Owes(h, l, step)
    ensures o.level == h && o.key > 0 && Names(I.Do(p, l, step), o.key, o.addr)
  {
    hide I.Inv, I.Holds, I.EnterBoth, NodeInv;
    I.SplitOf(p, l, step.a);
    I.Ordered(p.cap, l.splits[step.a].pieces.origin);
  }

  // ---------------------------------------------------------------- every step keeps the tree

  /** Only level h differs, and it grew. */
  ghost predicate Changes(p: T.Setup, s: State, s': State, h: nat) {
    && h <= |s.uppers| == |s'.uppers| && s'.root == s.root
    && (forall g :: 0 <= g <= |s.uppers| && g != h ==> Level(s', g) == Level(s, g))
    && Grows(Level(s, h), Level(s', h))
    && I.Inv(p.inner, Level(s', h)) && Flagged(Level(s', h), h == 0)
    && (h > 0 ==> Over(Level(s, h - 1), Level(s', h)))
  }

  lemma LevelKept(p: T.Setup, s: State, s': State, h: nat, g: nat)
    requires Inv(p, s) && Changes(p, s, s', h) && g <= |s'.uppers|
    ensures LevelInv(p, s', g) && Grows(Level(s, g), Level(s', g))
  {
    hide T.Inv, I.Inv, Over, Flagged;
    assert LevelInv(p, s, g);
    if g == h + 1 {
      OverGrows(Level(s, h), Level(s', h), Level(s, g));
      assert Level(s', g) == Level(s, g);
    } else if g > 0 && g != h {
      assert Level(s', g - 1) == Level(s, g - 1) && Level(s', g) == Level(s, g);
    } else if g == h && g > 0 {
      assert Level(s', g - 1) == Level(s, g - 1);
    }
  }

  lemma ChangeKeeps(p: T.Setup, s: State, s': State, h: nat)
    requires Inv(p, s) && T.Inv(p, s'.tree) && Changes(p, s, s', h)
    requires forall o :: o in s'.owed ==> o in s.owed || OwedInv(s', o)
    ensures Inv(p, s')
  {
    hide T.Inv, LevelInv, Changes;
    assert |s'.uppers| == |s.uppers| && s'.root == s.root by { ChangesSize(p, s, s', h); }
    forall g | 0 <= g <= |s'.uppers|
      ensures LevelInv(p, s', g)
    {
      LevelKept(p, s, s', h, g);
    }
    LevelKept(p, s, s', h, |s.uppers|);
    assert Names(Level(s, |s.uppers|), 0, s.root);
    forall o | o in s'.owed
      ensures OwedInv(s', o)
    {
      if o in s.owed {
        assert OwedInv(s, o);
        LevelKept(p, s, s', h, o.level);
      }
    }
  }

  lemma ChangesSize(p: T.Setup, s: State, s': State, h: nat)
    requires Changes(p, s, s', h)
    ensures |s'.uppers| == |s.uppers| && s'.root == s.root
  {}

  lemma Parts(p: T.Setup, s: State, h: nat)
    requires Inv(p, s) && h <= |s.uppers|
    ensures T.Inv(p, s.tree) && I.Inv(p.inner, Level(s, h)) && Flagged(Level(s, h), h == 0)
    ensures h > 0 ==> Over(Level(s, h - 1), Level(s, h))
  {
    assert LevelInv(p, s, h);
  }

  lemma UpperStep(p: T.Setup, s: State, h: nat, t: I.Step, o: Owed)
    requires Inv(p, s) && Enabled(p, s, Upper(h, t, o))
    ensures Inv(p, Do(p, s, Upper(h, t, o)))
  {
    hide T.Inv, I.Inv, I.Enabled, I.Do, Inv, Over, Flagged, Owes, Grows, Names;
    var l, s' := Level(s, h), Do(p, s, Upper(h, t, o));
    Parts(p, s, h);
    I.StepKeeps(p.inner, l, t);
    StepGrows(p.inner, l, t);
    StepFlags(p.inner, l, t, false);
    if !t.FinishSplit? {
      OwedIs(p, s, o);
    }
    OverStep(p.inner, Level(s, h - 1), l, h, t, o);
    assert Level(s', h) == I.Do(p.inner, l, t);
    assert Changes(p, s, s', h);
    forall n | n in s'.owed && n !in s.owed
      ensures OwedInv(s', n)
    {
      OwesSound(p.inner, h, l, t, n);
    }
    ChangeKeeps(p, s, s', h);
  }

  lemma OwedIs(p: T.Setup, s: State, o: Owed)
    requires Inv(p, s) && o in s.owed
    ensures OwedInv(s, o)
  {}

  /** A step of the tree below is a step of its bottom level, or none. */
  lemma BelowGrows(p: T.Setup, s: State, t: T.Step)
    requires Inv(p, s) && T.Enabled(p, s.tree, t)
    ensures Grows(s.tree.inner, T.Do(p, s.tree, t).inner) && Flagged(T.Do(p, s.tree, t).inner, true)
    ensures forall o :: o in OwedBelow(s, t) ==>
            o.level == 0 && o.key > 0 && Names(T.Do(p, s.tree, t).inner, o.key, o.addr)
  {
    hide T.Inv, I.Inv, I.Enabled, I.Do, Inv, Owes, Names, L.Do, L.Enabled;
    Parts(p, s, 0);
    var l := s.tree.inner;
    if t.AtLeaf? {
      return;
    }
    T.InnerStepIs(p, s.tree, t);
    var step := T.InnerStep(s.tree, t);
    StepGrows(p.inner, l, step);
    StepFlags(p.inner, l, step, true);
    if t.Finish? {
      forall o | o in OwedBelow(s, t)
        ensures o.level == 0 && o.key > 0 && Names(T.Do(p, s.tree, t).inner, o.key, o.addr)
      {
        OwesSound(p.inner, 0, l, step, o);
      }
    }
  }

  lemma BelowStep(p: T.Setup, s: State, t: T.Step)
    requires Inv(p, s) && Enabled(p, s, Below(t))
    ensures Inv(p, Do(p, s, Below(t)))
  {
    hide T.Inv, T.Enabled, T.Do, Inv, OwedBelow, Over, Flagged, Grows, Names;
    var s' := Do(p, s, Below(t));
    Parts(p, s, 0);
    T.StepKeeps(p, s.tree, t);
    TreeParts(p, s'.tree);
    BelowGrows(p, s, t);
    assert Changes(p, s, s', 0);
    ChangeKeeps(p, s, s', 0);
  }

  lemma TreeParts(p: T.Setup, s: T.State)
    requires T.Inv(p, s)
    ensures I.Inv(p.inner, s.inner) && p.inner.cap >= 2
  {}

  /** update_root: inserting first the record of the sibling and then that of the old root, whose key is
      the least, gives the new root, and neither insertion is refused. */
  lemma RootRecords(cap: nat, first: Child, key: Key, child: Child)
    requires cap >= 2 && key > 0
    ensures var q := Place(cap, [], Keyed(key, child));
            && q == Some([Keyed(key, child)])
            && Place(cap, q.value, Keyed(0, first)) == Some([Keyed(0, first), Keyed(key, child)])
  {
    var r, z := Keyed(key, child), Keyed(0, first);
    SortOne(r);
    SortOne(z);
    assert [] + [r] == [r] && [r] + [z] == [r, z] && [r, z][1..] == [z];
    assert KeyIndex([r], 0, 0) == 1;
    assert SortPairs([r, z]) == SortedInsert(r, SortPairs([z]));
    assert SortedInsert(r, [z]) == [z] + SortedInsert(r, [z][1..]) == [z, r];
  }

  lemma SortOne(r: Record)
    ensures SortPairs([r]) == [r]
  {
    assert [r][1..] == [];
  }

  lemma NewRootInv(p: T.Setup, split: Addr, key: Key, child: Child, at: Addr)
    requires p.inner.cap >= 2 && 0 < key < p.inner.top
    ensures var n := NewRoot(p, split, key, child);
            I.Inv(p.inner, I.State(map[at := n], map[], map[0 := n.records[0].value, key := child]))
  {
    var n := NewRoot(p, split, key, child);
    assert n.records[0].key == 0 && n.records[1].key == key;
  }

  lemma NodeBelowTop(p: I.Setup, l: I.State, a: Addr)
    requires I.Inv(p, l) && a in l.nodes
    ensures l.nodes[a].min < p.top
  {
    hide I.Inv, I.Holds;
    I.NodeOf(p, l, a);
    I.Ordered(p.cap, l.nodes[a]);
  }

  lemma GrowStep(p: T.Setup, s: State, o: Owed, child: Child, at: Addr)
    requires Inv(p, s) && Enabled(p, s, Grow(o, child, at))
    ensures Inv(p, Do(p, s, Grow(o, child, at)))
  {
    hide T.Inv, I.Inv, Over;
    var s', top := Do(p, s, Grow(o, child, at)), |s.uppers|;
    Parts(p, s, top);
    TreeParts(p, s.tree);
    OwedIs(p, s, o);
    NodeBelowTop(p.inner, Level(s, top), o.addr);
    NewRootInv(p, s.root, o.key, child, at);
    forall h | 0 <= h <= |s'.uppers|
      ensures LevelInv(p, s', h)
    {
      if h <= top {
        assert LevelInv(p, s, h) && Level(s', h) == Level(s, h);
        assert h > 0 ==> Level(s', h - 1) == Level(s, h - 1);
      } else {
        assert Level(s', top) == Level(s, top);
        GrownOver(p, s, o, child, at);
      }
    }
    forall n | n in s'.owed
      ensures OwedInv(s', n)
    {
      OwedIs(p, s, n);
      assert Level(s', n.level) == Level(s, n.level);
    }
  }

  lemma GrownOver(p: T.Setup, s: State, o: Owed, child: Child, at: Addr)
    requires Inv(p, s) && Enabled(p, s, Grow(o, child, at))
    ensures var hi := Do(p, s, Grow(o, child, at)).uppers[|s.uppers|];
            Over(Level(s, |s.uppers|), hi) && Flagged(hi, false)
  {
    hide T.Inv, LevelInv;
    OwedIs(p, s, o);
  }

  lemma StepKeeps(p: T.Setup, s: State, step: Step)
    requires Inv(p, s) && Enabled(p, s, step)
    ensures Inv(p, Do(p, s, step))
  {
    hide Inv;
    match step
    case Below(t) => BelowStep(p, s, t);
    case Upper(h, t, o) => UpperStep(p, s, h, t, o);
    case Grow(o, child, at) => GrowStep(p, s, o, child, at);
  }

  // ---------------------------------------------------------------- runs

  ghost predicate Performs(p: T.Setup, s: State, step: Step, s': State) {
    Enabled(p, s, step) && s' == Do(p, s, step)
  }

  ghost predicate Next(p: T.Setup, s: State, s': State) {
    exists step :: Performs(p, s, step, s')
  }

  /** A run from a new tree: one leaf under one inner node. */
  ghost predicate Run(p: T.Setup, leaf: Addr, capacity: nat, node: Addr, run: seq<State>) {
    && p.Valid() && capacity > 0
    && |run| > 0 && run[0] == InitState(p, leaf, capacity, node)
    && forall t :: 0 < t < |run| ==> Next(p, run[t - 1], run[t])
  }

  lemma InitInv(p: T.Setup, leaf: Addr, capacity: nat, node: Addr)
    requires p.Valid() && capacity > 0
    ensures Inv(p, InitState(p, leaf, capacity, node))
  {
    hide T.Inv, I.Inv;
    T.InitInv(p, leaf, capacity, node);
    TreeParts(p, T.InitState(p, leaf, capacity, node));
    assert LevelInv(p, InitState(p, leaf, capacity, node), 0);
  }

  lemma {:induction false} RunInv(p: T.Setup, leaf: Addr, capacity: nat, node: Addr, run: seq<State>, t: nat)
    requires Run(p, leaf, capacity, node, run) && t < |run|
    ensures Inv(p, run[t])
  {
    hide Inv, Enabled, Do;
    if t == 0 {
      InitInv(p, leaf, capacity, node);
    } else {
      RunInv(p, leaf, capacity, node, run, t - 1);
      assert Next(p, run[t - 1], run[t]);
      var step :| Performs(p, run[t - 1], step, run[t]);
      StepKeeps(p, run[t - 1], step);
    }
  }

  function TreeRun(run: seq<State>): (r: seq<T.State>)
    ensures |r| == |run| && forall t :: 0 <= t < |run| ==> r[t] == run[t].tree
  {
    seq(|run|, t requires 0 <= t < |run| => run[t].tree)
  }

  lemma StepBelow(p: T.Setup, s: State, step: Step)
    requires Enabled(p, s, step)
    ensures T.Next(p, s.tree, Do(p, s, step).tree)
  {
    hide T.Enabled, T.Do, I.Enabled, I.Do;
    if step.Below? {
      assert T.Performs(p, s.tree, step.t, Do(p, s, step).tree);
    }
  }

  /** A run is a run of the leaves and the bottom level. */
  lemma TreeRuns(p: T.Setup, leaf: Addr, capacity: nat, node: Addr, run: seq<State>)
    requires Run(p, leaf, capacity, node, run)
    ensures T.Run(p, leaf, capacity, node, TreeRun(run))
  {
    hide Enabled, Do;
    forall t | 0 < t < |run|
      ensures T.Next(p, run[t - 1].tree, run[t].tree)
    {
      assert Next(p, run[t - 1], run[t]);
      var step :| Performs(p, run[t - 1], step, run[t]);
      StepBelow(p, run[t - 1], step);
    }
  }

  // ---------------------------------------------------------------- levels over a run

  function LevelAt(s: State, h: nat): (l: I.State) {
    if h <= |s.uppers| then Level(s, h) else I.State(map[], map[], map[])
  }

  /** Level h over the run. An upper level is there from time `from` on. */
  function LevelRun(run: seq<State>, h: nat, from: nat): (r: seq<I.State>)
    requires from < |run|
    ensures |r| == |run|
    ensures forall t :: 0 <= t < |run| && (h == 0 || from <= t) ==> r[t] == LevelAt(run[t], h)
  {
    seq(|run|, t requires 0 <= t < |run| => LevelAt(run[if h > 0 && t < from then from else t], h))
  }

  lemma StepLevel(p: T.Setup, s: State, step: Step, h: nat)
    requires Enabled(p, s, step) && h <= |s.uppers|
    ensures h <= |Do(p, s, step).uppers| && I.Next(p.inner, Level(s, h), Level(Do(p, s, step), h))
  {
    hide T.Enabled, T.Do, I.Enabled, I.Do;
    var s' := Do(p, s, step);
    if step.Upper? && step.h == h {
      assert I.Performs(p.inner, Level(s, h), step.write, Level(s', h));
    }
    if step.Below? && h == 0 {
      T.StepProjects(p, s.tree, step.t);
    }
  }

  lemma NextLevel(p: T.Setup, leaf: Addr, capacity: nat, node: Addr, run: seq<State>, t: nat, h: nat)
    requires Run(p, leaf, capacity, node, run) && 0 < t < |run| && h <= |run[t - 1].uppers|
    ensures h <= |run[t].uppers| && I.Next(p.inner, Level(run[t - 1], h), Level(run[t], h))
  {
    hide Enabled, Do, Level, I.Next;
    assert Next(p, run[t - 1], run[t]);
    var step :| Performs(p, run[t - 1], step, run[t]);
    StepLevel(p, run[t - 1], step, h);
  }

  lemma {:induction false} LevelStays(p: T.Setup, leaf: Addr, capacity: nat, node: Addr, run: seq<State>,
                                      from: nat, t: nat, h: nat)
    requires Run(p, leaf, capacity, node, run) && from <= t < |run| && h <= |run[from].uppers|
    ensures h <= |run[t].uppers|
    decreases t
  {
    hide Run;
    if from < t {
      LevelStays(p, leaf, capacity, node, run, from, t - 1, h);
      NextLevel(p, leaf, capacity, node, run, t, h);
    }
  }

  /** Each level, from its creation on, is a run of the level protocol. */
  lemma LevelRuns(p: T.Setup, leaf: Addr, capacity: nat, node: Addr, run: seq<State>, h: nat, from: nat)
    requires Run(p, leaf, capacity, node, run) && from < |run| && h <= |run[from].uppers|
    ensures I.Run(p.inner, LevelRun(run, h, from))
  {
    hide Run, I.Inv, Inv, I.Next, T.Inv;
    assert |run| > 0;
    var r := LevelRun(run, h, from);
    var first := if h > 0 then from else 0;
    RunInv(p, leaf, capacity, node, run, first);
    Parts(p, run[first], h);
    forall t | 0 < t < |run|
      ensures I.Next(p.inner, r[t - 1], r[t])
    {
      if first < t {
        if h > 0 {
          LevelStays(p, leaf, capacity, node, run, from, t - 1, h);
        }
        NextLevel(p, leaf, capacity, node, run, t, h);
      } else {
        Stutters(p, r[t]);
      }
    }
  }

  lemma Stutters(p: T.Setup, l: I.State)
    ensures I.Next(p.inner, l, l)
  {}

  // ---------------------------------------------------------------- find_leaf

  /** A descent that reads the root pointer at time start; floors[h] are its node reads on level h. */
  datatype Descent = Descent(start: nat, floors: seq<seq<I.Visit>>)

  function Last(vs: seq<I.Visit>): (v: I.Visit)
    requires |vs| > 0
  {
    vs[|vs| - 1]
  }

  /** Node a of l covers k, and the search of that node takes the record of b. */
  ghost predicate Leads(l: I.State, k: Key, a: Addr, b: Addr) {
    && a in l.nodes && l.nodes[a].Covers(k)
    && var rs := l.nodes[a].records;
    && |rs| > 0 && rs[0].key <= k && Find(rs, k).value.addr == b
  }

  /** From the last node read on level h + 1 to the first on level h. */
  ghost predicate StepsDown(run: seq<State>, k: Key, d: Descent, h: nat)
    requires d.start < |run| && h + 1 < |d.floors| && |d.floors[h]| > 0 && |d.floors[h + 1]| > 0
  {
    var v, w := Last(d.floors[h + 1]), d.floors[h][0];
    v.time <= w.time && v.time < |run| && Leads(LevelRun(run, h + 1, d.start)[v.time], k, v.addr, w.addr)
  }

  /** find_leaf, down to the last node read on the bottom level. */
  ghost predicate FindsLeaf(run: seq<State>, k: Key, d: Descent) {
    && d.start < |run| && |d.floors| == |run[d.start].uppers| + 1
    && (forall h :: 0 <= h < |d.floors| ==> I.RightMoves(LevelRun(run, h, d.start), k, d.floors[h]))
    && d.floors[|d.floors| - 1][0].addr == run[d.start].root
    && d.start <= d.floors[|d.floors| - 1][0].time
    && (forall h :: 0 <= h < |d.floors| - 1 ==> StepsDown(run, k, d, h))
  }

  /** When the address of the first node on level h was read. */
  function Learnt(d: Descent, h: nat): (t: nat) {
    if h + 1 < |d.floors| && |d.floors[h + 1]| > 0 then Last(d.floors[h + 1]).time else d.start
  }

  lemma {:induction false} Later(run: seq<I.State>, k: Key, vs: seq<I.Visit>, i: nat)
    requires I.RightMoves(run, k, vs) && i < |vs|
    ensures vs[0].time <= vs[i].time < |run|
  {
    if i > 0 {
      Later(run, k, vs, i - 1);
      assert I.MovedRight(run, k, vs[i - 1], vs[i]);
    }
  }

  /** A record of a node of level h + 1 names a node of level h, with the key of the record its least. */
  lemma RecordNames(p: T.Setup, s: State, h: nat, k: Key, a: Addr, b: Addr)
    requires Inv(p, s) && h + 1 <= |s.uppers| && Leads(Level(s, h + 1), k, a, b)
    ensures b in Level(s, h).nodes && Level(s, h).nodes[b].min <= k
  {
    hide Inv, I.Inv, T.Inv, Find, Level;
    Parts(p, s, h + 1);
    I.FindIsFloor(p.inner, Level(s, h + 1), a, k);
  }

  /** On every level the descent starts at a node whose least key is at or below k, and it ends on a level
      exactly at the bottom, where next_is_leaf is set. */
  lemma {:induction false} Reaches(p: T.Setup, leaf: Addr, capacity: nat, node: Addr, run: seq<State>, k: Key,
                                   d: Descent, h: nat)
    requires Run(p, leaf, capacity, node, run) && FindsLeaf(run, k, d) && h < |d.floors|
    ensures I.Walk(LevelRun(run, h, d.start), k, Learnt(d, h), d.floors[h]) && d.start <= d.floors[h][0].time
    ensures var v := Last(d.floors[h]);
            && v.time < |run| && h <= |run[v.time].uppers| && v.addr in Level(run[v.time], h).nodes
            && Level(run[v.time], h).nodes[v.addr].leafParent == (h == 0)
    decreases |d.floors| - h
  {
    hide Run, I.Inv, Inv, T.Inv, Leads, Level;
    var r := LevelRun(run, h, d.start);
    assert I.RightMoves(r, k, d.floors[h]);
    if h + 1 == |d.floors| {
      RunInv(p, leaf, capacity, node, run, d.start);
      RootIs(p, run[d.start]);
    } else {
      Reaches(p, leaf, capacity, node, run, k, d, h + 1);
      var v := Last(d.floors[h + 1]);
      assert StepsDown(run, k, d, h);
      Later(LevelRun(run, h + 1, d.start), k, d.floors[h + 1], |d.floors[h + 1]| - 1);
      RunInv(p, leaf, capacity, node, run, v.time);
      RecordNames(p, run[v.time], h, k, v.addr, d.floors[h][0].addr);
    }
    EndsAt(p, leaf, capacity, node, run, k, d, h);
  }

  lemma RootIs(p: T.Setup, s: State)
    requires Inv(p, s)
    ensures s.root in Level(s, |s.uppers|).nodes && Level(s, |s.uppers|).nodes[s.root].min == 0
  {}

  lemma EndsAt(p: T.Setup, leaf: Addr, capacity: nat, node: Addr, run: seq<State>, k: Key, d: Descent, h: nat)
    requires Run(p, leaf, capacity, node, run) && FindsLeaf(run, k, d) && h < |d.floors|
    requires I.Walk(LevelRun(run, h, d.start), k, Learnt(d, h), d.floors[h]) && d.start <= d.floors[h][0].time
    ensures var v := Last(d.floors[h]);
            && v.time < |run| && h <= |run[v.time].uppers| && v.addr in Level(run[v.time], h).nodes
            && Level(run[v.time], h).nodes[v.addr].leafParent == (h == 0)
  {
    hide Run, I.Inv, Inv, T.Inv, FindsLeaf, Level;
    Later(LevelRun(run, h, d.start), k, d.floors[h], |d.floors[h]| - 1);
    var v := Last(d.floors[h]);
    StartsIn(run, k, d);
    LevelStays(p, leaf, capacity, node, run, d.start, v.time, h);
    LevelRuns(p, leaf, capacity, node, run, h, d.start);
    I.WalkStays(p.inner, LevelRun(run, h, d.start), k, Learnt(d, h), d.floors[h], |d.floors[h]| - 1);
    RunInv(p, leaf, capacity, node, run, v.time);
    Parts(p, run[v.time], h);
  }

  lemma StartsIn(run: seq<State>, k: Key, d: Descent)
    requires FindsLeaf(run, k, d)
    ensures d.start < |run| && |d.floors| == |run[d.start].uppers| + 1
  {}

  /** How a reader came by the record of an attempt: down from the root, or from a bottom node kept in the
      cache, read there earlier with a least key at or below k. */
  datatype Path = FromRoot(d: Descent) | FromCache(c: T.Descent)

  ghost predicate Follows(run: seq<State>, k: Key, path: Path, a: S.Attempt) {
    match path
    case FromRoot(d) => FindsLeaf(run, k, d) && T.Takes(TreeRun(run), k, Last(d.floors[0]), a)
    case FromCache(c) => T.Descends(TreeRun(run), k, c, a)
  }

  lemma FollowsDown(p: T.Setup, leaf: Addr, capacity: nat, node: Addr, run: seq<State>, k: Key, path: Path,
                    a: S.Attempt)
    returns (c: T.Descent)
    requires Run(p, leaf, capacity, node, run) && Follows(run, k, path, a)
    ensures T.Descends(TreeRun(run), k, c, a)
  {
    hide Run, FindsLeaf, T.Takes;
    if path.FromCache? {
      return path.c;
    }
    var d := path.d;
    StartsIn(run, k, d);
    Reaches(p, leaf, capacity, node, run, k, d, 0);
    assert T.InnerRun(TreeRun(run)) == LevelRun(run, 0, d.start);
    return T.Descent(Learnt(d, 0), d.floors[0]);
  }

  /** End to end from the root pointer: whatever writers do to leaves and to all inner levels meanwhile,
      new roots included, a read with all its retries returns a value the key had during the read or
      misses a key that was absent during the read. */
  lemma ReadCorrect(p: T.Setup, leaf: Addr, capacity: nat, node: Addr, run: seq<State>, k: Key,
                    tries: seq<S.Attempt>, paths: seq<Path>, start: nat, end: nat)
    requires Run(p, leaf, capacity, node, run) && k < p.leaf.top
    requires S.Retries(p.leaf.h, T.LeafRun(TreeRun(run)), k, tries) && |paths| == |tries|
    requires forall j :: 0 <= j < |tries| ==> S.Within(T.LeafRun(TreeRun(run)), tries[j], start, end)
    requires forall j :: 0 <= j < |tries| ==> Follows(run, k, paths[j], tries[j])
    ensures var r := S.Look(p.leaf.h, T.LeafRun(TreeRun(run)), k, tries[|tries| - 1]);
            && (r.Found? ==> S.HeldDuring(T.LeafRun(TreeRun(run)), k, r.value, start, end))
            && (r.Missed? ==> S.AbsentDuring(T.LeafRun(TreeRun(run)), k, start, end))
  {
    hide Run, Follows, T.Descends, T.Run, S.Look, S.Retries, S.Within, S.HeldDuring, S.AbsentDuring;
    TreeRuns(p, leaf, capacity, node, run);
    var descents := Descents(p, leaf, capacity, node, run, k, tries, paths);
    T.ReadCorrect(p, leaf, capacity, node, TreeRun(run), k, tries, descents, start, end);
  }

  lemma {:induction false} Descents(p: T.Setup, leaf: Addr, capacity: nat, node: Addr, run: seq<State>, k: Key,
                                    tries: seq<S.Attempt>, paths: seq<Path>)
    returns (ds: seq<T.Descent>)
    requires Run(p, leaf, capacity, node, run) && |paths| == |tries|
    requires forall j :: 0 <= j < |tries| ==> Follows(run, k, paths[j], tries[j])
    ensures |ds| == |tries| && forall j :: 0 <= j < |tries| ==> T.Descends(TreeRun(run), k, ds[j], tries[j])
  {
    hide Run, Follows, T.Descends;
    ds := [];
    for i := 0 to |tries|
      invariant |ds| == i && forall j :: 0 <= j < i ==> T.Descends(TreeRun(run), k, ds[j], tries[j])
    {
      var c := FollowsDown(p, leaf, capacity, node, run, k, paths[i], tries[i]);
      ds := ds + [c];
    }
  }

  // ---------------------------------------------------------------- what reads answer

  /** The write of the leaf protocol in a step, if it has one. */
  function LeafStep(step: Step): (t: Option<L.Step>) {
    match step
    case Below(t) =>
      (match t
       case AtLeaf(u) => Some(u)
       case Direct(b, _) => Some(L.Publish(b))
       case Prepare(_, _, _) => None
       case Finish(b, _) => Some(L.Publish(b)))
    case Upper(_, _, _) => None
    case Grow(_, _, _) => None
  }

  function LeafSteps(steps: seq<Step>): (ts: seq<Option<L.Step>>)
    ensures |ts| == |steps| && forall i :: 0 <= i < |steps| ==> ts[i] == LeafStep(steps[i])
  {
    seq(|steps|, i requires 0 <= i < |steps| => LeafStep(steps[i]))
  }

  /** A run with the steps it takes. */
  ghost predicate LabeledRun(p: T.Setup, leaf: Addr, capacity: nat, node: Addr, run: seq<State>, steps: seq<Step>) {
    && p.Valid() && capacity > 0
    && |run| == |steps| + 1 && run[0] == InitState(p, leaf, capacity, node)
    && forall t :: 0 <= t < |steps| ==> Performs(p, run[t], steps[t], run[t + 1])
  }

  lemma StepWrites(p: T.Setup, s: State, step: Step)
    requires Enabled(p, s, step)
    ensures W.Does(p.leaf, s.tree.leaf, LeafStep(step), Do(p, s, step).tree.leaf)
  {
    hide L.Do, I.Do, I.Enabled;
    if step.Below? {
      match step.t
      case AtLeaf(u) =>
      case Direct(b, _) => T.PublishEnabled(p, s.tree, b);
      case Prepare(_, _, _) =>
      case Finish(b, _) => T.PublishEnabled(p, s.tree, b);
    }
  }

  lemma LabeledProjects(p: T.Setup, leaf: Addr, capacity: nat, node: Addr, run: seq<State>, steps: seq<Step>)
    requires LabeledRun(p, leaf, capacity, node, run, steps)
    ensures Run(p, leaf, capacity, node, run)
    ensures W.LabeledRun(p.leaf, leaf, capacity, T.LeafRun(TreeRun(run)), LeafSteps(steps))
  {
    hide Enabled, Do, W.Does;
    forall t | 0 < t < |run| ensures Next(p, run[t - 1], run[t]) {
      assert Performs(p, run[t - 1], steps[t - 1], run[t - 1 + 1]);
    }
    forall t | 0 <= t < |steps|
      ensures W.Does(p.leaf, run[t].tree.leaf, LeafSteps(steps)[t], run[t + 1].tree.leaf)
    {
      assert Performs(p, run[t], steps[t], run[t + 1]);
      StepWrites(p, run[t], steps[t]);
    }
  }

  /** End to end, in terms of the keys and values the writers were called with: a read answers the last value
      whose write was complete, or that there was none, at some instant of the read. */
  lemma ReadAnswersWrites(p: T.Setup, leaf: Addr, capacity: nat, node: Addr, run: seq<State>, steps: seq<Step>, k: Key,
                          tries: seq<S.Attempt>, paths: seq<Path>, start: nat, end: nat)
    requires LabeledRun(p, leaf, capacity, node, run, steps) && k < p.leaf.top
    requires S.Retries(p.leaf.h, T.LeafRun(TreeRun(run)), k, tries) && |paths| == |tries|
    requires forall j :: 0 <= j < |tries| ==> S.Within(T.LeafRun(TreeRun(run)), tries[j], start, end)
    requires forall j :: 0 <= j < |tries| ==> Follows(run, k, paths[j], tries[j])
    ensures var r := S.Look(p.leaf.h, T.LeafRun(TreeRun(run)), k, tries[|tries| - 1]);
            r.Found? || r.Missed? ==> W.AnsweredDuring(LeafSteps(steps), k, r, start, end)
  {
    hide LabeledRun, Run, Follows, S.Look, S.Retries, S.Within, S.HeldDuring, S.AbsentDuring, W.AnsweredDuring;
    hide W.LabeledRun;
    LabeledProjects(p, leaf, capacity, node, run, steps);
    ReadCorrect(p, leaf, capacity, node, run, k, tries, paths, start, end);
    W.StoreAnswers(p.leaf, leaf, capacity, T.LeafRun(TreeRun(run)), LeafSteps(steps), k, start, end);
  }
}
