/** A whole DMTree never deadlocks: in every state of every run each piece of work under way, be it the write of a
    leaf, the split of an inner node or a record owed to the level above, has an enabled step, or it waits for one
    that has. */
module DMDeadlock {

  import opened Common
  import opened KeyOrder
  import opened DMInner
  import DMLeaf
  import L = DMProtocol
  import LR = DMProtocolRuns
  import P = DMProgress
  import I = DMInnerLevel
  import T = DMTree
  import opened DMDescent

  datatype Work =
    | AtLeaf(b: Addr)               // the writer of leaf b
    | Splitting(h: nat, a: Addr)    // the split of node a of level h
    | Inserting(o: Owed)            // the writer of an owed record

  ghost predicate Pending(s: State, w: Work) {
    match w
    case AtLeaf(b) => b in s.tree.leaf.jobs && !s.tree.leaf.jobs[b].Idle?
    case Splitting(h, a) => h <= |s.uppers| && a in Level(s, h).splits
    case Inserting(o) => o in s.owed
  }

  /** A step of the work w that is not its first. */
  predicate Continues(w: Work, step: Step) {
    match w
    case AtLeaf(b) =>
      && step.Below?
      && (match step.t
          case AtLeaf(u) => u == L.AddTable(b) || u == L.WriteTable(b) || (u.WriteEntry? && u.a == b)
          case Direct(c, _) => c == b
          case Prepare(c, _, _) => c == b
          case Finish(c, _) => c == b)
    case Splitting(h, a) =>
      if h == 0 then step.Below? && step.t.Finish? && step.t.a == a
      else step.Upper? && step.h == h && step.write == I.FinishSplit(a)
    case Inserting(o) =>
      (step.Upper? && !step.write.FinishSplit? && step.o == o) || (step.Grow? && step.o == o)
  }

  /** w has a step that changes the tree. */
  ghost predicate CanMove(p: T.Setup, s: State, w: Work) {
    exists step :: Moves(p, s, w, step)
  }

  ghost predicate Moves(p: T.Setup, s: State, w: Work, step: Step) {
    Continues(w, step) && Enabled(p, s, step) && Do(p, s, step) != s
  }

  /** w needs the node that w' splits, or a new root, which w' will write. */
  ghost predicate WaitsFor(s: State, w: Work, w': Work) {
    match (w, w')
    case (AtLeaf(b), Splitting(h, a)) =>
      && h == 0 && T.Publishing(s.tree, b) && a in s.tree.inner.nodes
      && s.tree.inner.nodes[a].Covers(T.NewRecord(s.tree.leaf.jobs[b]).key)
    case (Inserting(o), Splitting(h, a)) =>
      o.level < h == o.level + 1 <= |s.uppers| && a in Level(s, h).nodes && Level(s, h).nodes[a].Covers(o.key)
    case (Inserting(o), Inserting(o')) =>
      o.level == o'.level == |s.uppers| && o'.origin == s.root
    case _ => false
  }

  // ---------------------------------------------------------------- one level

  /** Right-moves from a end at a node that covers k. */
  lemma {:induction false} Covered(p: I.Setup, l: I.State, a: Addr, k: Key) returns (b: Addr)
    requires I.Inv(p, l) && a in l.nodes && l.nodes[a].min <= k < p.top
    ensures b in l.nodes && l.nodes[b].Covers(k)
    decreases p.top - l.nodes[a].min
  {
    hide I.Inv, I.Holds;
    I.NodeOf(p, l, a);
    b := a;
    if !l.nodes[a].Covers(k) {
      b := Covered(p, l, l.nodes[a].right.value, k);
    }
  }

  ghost function Taken(l: I.State): (used: set<Addr>) {
    l.nodes.Keys + (set b | b in l.splits :: l.splits[b].at)
  }

  /** A granted writer can write the node, or the sibling of a split. */
  lemma CanWrite(p: I.Setup, l: I.State, a: Addr, update: Option<Record>, r: Record) returns (step: I.Step)
    requires I.Inv(p, l) && I.Granted(p, l, a, update, r)
    ensures I.Enabled(p, l, step)
    ensures step == I.Write(a, update, r) || exists at :: step == I.StartSplit(a, update, r, at)
  {
    hide I.Inv, I.Holds, NodeInv, Place, SplitNode, I.Linked;
    var rs := I.Updated(p.cap, l.nodes[a].records, update).value;
    var n := l.nodes[a].(records := rs);
    I.UpdatedKeeps(p, l, a, update, r);
    PlaceKeeps(p.cap, n, r);
    if Place(p.cap, rs, r).Some? {
      step := I.Write(a, update, r);
    } else {
      var at := P.NewAddress(Taken(l));
      assert forall b :: b in l.splits ==> l.splits[b].at in Taken(l);
      assert p.cap >= 2 by { CapOf(p, l); }
      SplitKeeps(p.cap, n, r, at);
      step := I.StartSplit(a, update, r, at);
    }
  }

  lemma CapOf(p: I.Setup, l: I.State)
    requires I.Inv(p, l)
    ensures p.cap >= 2
  {}

  lemma OneCovers(p: I.Setup, l: I.State, a: Addr, b: Addr, k: Key)
    requires I.Inv(p, l) && a in l.nodes && b in l.nodes && l.nodes[a].Covers(k) && l.nodes[b].Covers(k)
    ensures a == b
  {}

  // ---------------------------------------------------------------- splits of the bottom level

  /** The split of bottom node a carries the records of the resized leaf b. */
  ghost predicate SplitsFor(s: T.State, a: Addr, b: Addr)
    requires a in s.inner.splits
  {
    && T.Publishing(s, b) && s.inner.splits[a].update == T.UpdateRecord(b, s.leaf.jobs[b])
    && s.inner.splits[a].record == T.NewRecord(s.leaf.jobs[b])
  }

  ghost predicate Owned(s: T.State) {
    forall a :: a in s.inner.splits ==> exists b :: SplitsFor(s, a, b)
  }

  /** Nobody but its own writer ends the resize of a leaf that waits for its records. */
  lemma PublishingStays(p: T.Setup, s: T.State, t: L.Step, b: Addr)
    requires T.Inv(p, s) && L.Enabled(p.leaf, s.leaf, t) && T.Publishing(s, b)
    requires t.Publish? ==> t.a != b
    ensures var s' := L.Do(p.leaf, s.leaf, t); b in s'.leaves && b in s'.jobs && s'.jobs[b] == s.leaf.jobs[b]
  {
    hide L.Inv, I.Inv, DMLeaf.Resize, DMLeaf.Accepting, DMLeaf.FirstFp, L.Granted;
    match t
    case Update(rec, k, _) => LR.GrantedLive(p.leaf, s.leaf, rec, k);
    case AddEntry(rec, k, _) => LR.GrantedLive(p.leaf, s.leaf, rec, k);
    case StartResize(rec, k, _, _, _) => LR.GrantedLive(p.leaf, s.leaf, rec, k);
    case _ =>
  }

  lemma SplitPlace(p: T.Setup, s: T.State, a: Addr)
    requires T.Inv(p, s) && a in s.inner.splits
    ensures a in s.inner.nodes && s.inner.nodes[a].Covers(s.inner.splits[a].record.key)
  {
    hide L.Inv, I.Holds;
    I.SplitOf(p.inner, s.inner, a);
  }

  /** A publication that ends the resize of b goes through the node b splits, if it splits one. */
  lemma PublishesIn(p: T.Setup, s: T.State, step: T.Step, a: Addr, b: Addr)
    requires T.Inv(p, s) && T.Enabled(p, s, step) && a in s.inner.splits && SplitsFor(s, a, b)
    requires (step.Direct? || step.Finish?) && step.b == b
    ensures step.Finish? && step.a == a
  {
    hide L.Inv, I.Inv, Place;
    SplitPlace(p, s, a);
    if step.Finish? {
      SplitPlace(p, s, step.a);
    }
    OneCovers(p.inner, s.inner, a, step.a, s.inner.splits[a].record.key);
  }

  lemma OwnedStays(p: T.Setup, s: T.State, step: T.Step, a: Addr, b: Addr)
    requires T.Inv(p, s) && T.Enabled(p, s, step) && a in s.inner.splits && SplitsFor(s, a, b)
    requires a in T.Do(p, s, step).inner.splits && T.Do(p, s, step).inner.splits[a] == s.inner.splits[a]
    requires step.Finish? ==> step.a != a
    ensures SplitsFor(T.Do(p, s, step), a, b)
  {
    hide L.Inv, I.Inv, L.Do, I.Do, T.Inv, I.Enabled, L.Enabled;
    if (step.Direct? || step.Finish?) && step.b == b {
      PublishesIn(p, s, step, a, b);
    }
    match step
    case AtLeaf(t) => PublishingStays(p, s, t, b);
    case Direct(c, _) =>
      T.PublishEnabled(p, s, c);
      PublishingStays(p, s, L.Publish(c), b);
    case Prepare(_, _, _) =>
    case Finish(c, _) =>
      T.PublishEnabled(p, s, c);
      PublishingStays(p, s, L.Publish(c), b);
  }

  lemma OwnedStep(p: T.Setup, s: T.State, step: T.Step)
    requires T.Inv(p, s) && T.Enabled(p, s, step) && Owned(s)
    ensures Owned(T.Do(p, s, step))
  {
    hide T.Inv, L.Do, L.Enabled, Place, SplitNode, I.EnterBoth, I.Updated;
    var s' := T.Do(p, s, step);
    forall a | a in s'.inner.splits ensures exists b :: SplitsFor(s', a, b) {
      if step.Prepare? && step.a == a {
        assert SplitsFor(s', a, step.b);
      } else {
        var b :| SplitsFor(s, a, b);
        OwnedStays(p, s, step, a, b);
      }
    }
  }

  // ---------------------------------------------------------------- the root

  ghost predicate SplitsRoot(s: State, o: Owed) {
    o in s.owed && o.level == |s.uppers| && o.origin == s.root
  }

  /** Where the top level has a second node, somebody owes the tree a new root. */
  ghost predicate RootOwed(s: State) {
    forall a :: a in Level(s, |s.uppers|).nodes && a != s.root ==> exists o :: SplitsRoot(s, o)
  }

  /** A step adds a node to a level only by a split, which is then owed. */
  lemma NodesGrow(p: I.Setup, h: nat, l: I.State, step: I.Step, a: Addr)
    requires I.Inv(p, l) && I.Enabled(p, l, step) && a in I.Do(p, l, step).nodes && a !in l.nodes
    ensures step.FinishSplit? && step.a in l.nodes
    ensures exists o :: o in Owes(h, l, step) && o.level == h && o.origin == step.a
  {
    hide I.Holds, Place, SplitNode, NodeInv;
    assert step.FinishSplit?;
    I.SplitOf(p, l, step.a);
    var sp := l.splits[step.a];
    assert Owed(h, sp.pieces.sibling.min, sp.at, step.a) in Owes(h, l, step);
  }

  lemma RootOwedStep(p: T.Setup, s: State, step: Step)
    requires Inv(p, s) && Enabled(p, s, step) && RootOwed(s)
    ensures RootOwed(Do(p, s, step))
  {
    hide Inv, T.Inv, I.Inv, T.Enabled, I.Enabled, L.Do, I.Do, T.Do, Owes;
    var s' := Do(p, s, step);
    var h := |s.uppers|;
    if step.Grow? {
      assert Level(s', h + 1).nodes.Keys == {s'.root};
      return;
    }
    forall a | a in Level(s', h).nodes && a != s'.root ensures exists o :: SplitsRoot(s', o) {
      if o :| SplitsRoot(s, o) {
        assert SplitsRoot(s', o) by { StaysOwed(p, s, step, o); }
      } else {
        var o := NewlyOwed(p, s, step, a);
        assert SplitsRoot(s', o);
      }
    }
  }

  lemma StaysOwed(p: T.Setup, s: State, step: Step, o: Owed)
    requires Enabled(p, s, step) && !step.Grow? && SplitsRoot(s, o)
    ensures SplitsRoot(Do(p, s, step), o)
  {
    hide T.Enabled, I.Enabled, T.Do, I.Do, Owes;
  }

  /** The first split of the top level is that of the root. */
  lemma NewlyOwed(p: T.Setup, s: State, step: Step, a: Addr) returns (o: Owed)
    requires Inv(p, s) && Enabled(p, s, step) && !step.Grow? && RootOwed(s) && !(exists o :: SplitsRoot(s, o))
    requires a in Level(Do(p, s, step), |s.uppers|).nodes && a != s.root
    ensures SplitsRoot(Do(p, s, step), o)
  {
    hide Inv, T.Inv, I.Inv, L.Do, I.Do, I.Enabled, L.Enabled, Owes;
    var h := |s.uppers|;
    var l := Level(s, h);
    assert a !in l.nodes;
    Parts(p, s, h);
    match step
    case Below(t) =>
      assert !t.AtLeaf?;
      T.InnerStepIs(p, s.tree, t);
      var u := T.InnerStep(s.tree, t);
      NodesGrow(p.inner, h, l, u, a);
      assert u.a == s.root;
      o :| o in Owes(h, l, u) && o.level == h && o.origin == u.a;
      assert o in OwedBelow(s, t);
    case Upper(g, u, _) =>
      assert g == h;
      NodesGrow(p.inner, h, l, u, a);
      assert u.a == s.root;
      o :| o in Owes(h, l, u) && o.level == h && o.origin == u.a;
  }

  // ---------------------------------------------------------------- every state of every run

  lemma {:induction false} RunOwned(p: T.Setup, leaf: Addr, capacity: nat, node: Addr, run: seq<State>, t: nat)
    requires Run(p, leaf, capacity, node, run) && t < |run|
    ensures Inv(p, run[t]) && Owned(run[t].tree) && RootOwed(run[t])
  {
    hide Inv, Enabled, Do, Owned, RootOwed;
    RunInv(p, leaf, capacity, node, run, t);
    if t == 0 {
      InitOwned(p, leaf, capacity, node);
    } else {
      RunOwned(p, leaf, capacity, node, run, t - 1);
      assert Next(p, run[t - 1], run[t]);
      var step :| Performs(p, run[t - 1], step, run[t]);
      RootOwedStep(p, run[t - 1], step);
      TreeOwnedStep(p, run[t - 1], step);
    }
  }

  lemma InitOwned(p: T.Setup, leaf: Addr, capacity: nat, node: Addr)
    ensures Owned(InitState(p, leaf, capacity, node).tree) && RootOwed(InitState(p, leaf, capacity, node))
  {}

  lemma TreeOwnedStep(p: T.Setup, s: State, step: Step)
    requires Inv(p, s) && Enabled(p, s, step) && Owned(s.tree)
    ensures Owned(Do(p, s, step).tree)
  {
    hide Inv, T.Inv, T.Enabled, T.Do, I.Do, I.Enabled, Owned;
    Parts(p, s, 0);
    if step.Below? {
      OwnedStep(p, s.tree, step.t);
    }
  }

  /** Every level has a node that starts at key 0. */
  lemma {:induction false} Leftmost(p: T.Setup, s: State, h: nat) returns (a: Addr)
    requires Inv(p, s) && h <= |s.uppers|
    ensures a in Level(s, h).nodes && Level(s, h).nodes[a].min == 0
    decreases |s.uppers| - h
  {
    hide Inv, T.Inv, I.Inv;
    if h == |s.uppers| {
      RootIs(p, s);
      a := s.root;
    } else {
      var b := Leftmost(p, s, h + 1);
      Parts(p, s, h + 1);
      I.NodeOf(p.inner, Level(s, h + 1), b);
      a := Level(s, h + 1).dir[0].addr;
    }
  }

  lemma HasCover(p: T.Setup, s: State, h: nat, k: Key) returns (a: Addr)
    requires Inv(p, s) && h <= |s.uppers| && k < p.inner.top
    ensures a in Level(s, h).nodes && Level(s, h).nodes[a].Covers(k)
  {
    hide Inv, T.Inv, I.Inv, Level;
    var b := Leftmost(p, s, h);
    Parts(p, s, h);
    a := Covered(p.inner, Level(s, h), b, k);
  }

  // ---------------------------------------------------------------- who can move

  lemma SplitMoves(p: T.Setup, s: State, h: nat, a: Addr)
    requires Inv(p, s) && Owned(s.tree) && h <= |s.uppers| && a in Level(s, h).splits
    ensures CanMove(p, s, Splitting(h, a))
  {
    hide Inv, L.Do, I.EnterBoth;
    if h == 0 {
      var b :| SplitsFor(s.tree, a, b);
      var step := Below(T.Finish(b, a));
      T.PublishEnabled(p, s.tree, b);
      T.FinishEnabled(p, s.tree, a);
      assert a !in Do(p, s, step).tree.inner.splits;
      assert Moves(p, s, Splitting(h, a), step);
    } else {
      var step := Upper(h, I.FinishSplit(a), Owed(0, 0, 0, 0));
      assert a !in Level(Do(p, s, step), h).splits;
      assert Moves(p, s, Splitting(h, a), step);
    }
  }

  lemma NewKeyBelowTop(p: T.Setup, s: T.State, b: Addr)
    requires T.Inv(p, s) && T.Publishing(s, b)
    ensures T.NewRecord(s.leaf.jobs[b]).key < p.inner.top
  {
    hide L.Inv, I.Inv;
    LR.PendingIs(p.leaf, s.leaf, b);
  }

  /** The records of a resized leaf can be written, unless their node is being split. */
  lemma PublishMoves(p: T.Setup, s: State, b: Addr) returns (w: Work)
    requires Inv(p, s) && Owned(s.tree) && T.Publishing(s.tree, b)
    ensures CanMove(p, s, w) && Pending(s, w) && (w == AtLeaf(b) || WaitsFor(s, AtLeaf(b), w))
  {
    hide Inv, T.Inv, I.Inv, L.Inv, I.Updated, Place, CanMove, Owned;
    Parts(p, s, 0);
    var j := s.tree.leaf.jobs[b];
    var u, r := T.UpdateRecord(b, j), T.NewRecord(j);
    NewKeyBelowTop(p, s.tree, b);
    assert p.inner.cap >= 2 by { TreeParts(p, s.tree); }
    var a := HasCover(p, s, 0, r.key);
    if a in s.tree.inner.splits {
      SplitMoves(p, s, 0, a);
      w := Splitting(0, a);
    } else {
      T.PublishAsserts(p, s.tree, b, a);
      assert I.Granted(p.inner, s.tree.inner, a, u, r) by { UpdatedIs(p.inner.cap, s.tree.inner.nodes[a].records, u); }
      var step := CanWrite(p.inner, s.tree.inner, a, u, r);
      WriteMoves(p, s, b, a, step);
      w := AtLeaf(b);
    }
  }

  lemma UpdatedIs(cap: nat, rs: seq<Record>, u: Option<Record>)
    requires u.Some?
    ensures I.Updated(cap, rs, u) == Place(cap, rs, u.value)
  {}

  lemma WriteMoves(p: T.Setup, s: State, b: Addr, a: Addr, write: I.Step)
    requires T.Publishing(s.tree, b) && I.Enabled(p.inner, s.tree.inner, write)
    requires var u, r := T.UpdateRecord(b, s.tree.leaf.jobs[b]), T.NewRecord(s.tree.leaf.jobs[b]);
             write == I.Write(a, u, r) || exists at :: write == I.StartSplit(a, u, r, at)
    ensures CanMove(p, s, AtLeaf(b))
  {
    hide Place, SplitNode, I.Updated, L.RangeOf;
    var step := Below(if write.Write? then T.Direct(b, a) else T.Prepare(b, a, write.at));
    if write.Write? {
      T.PublishEnabled(p, s.tree, b);
      assert Do(p, s, step).tree.leaf.jobs[b].Idle?;
    } else {
      assert a !in s.tree.inner.splits && a in Do(p, s, step).tree.inner.splits;
    }
    assert Moves(p, s, AtLeaf(b), step);
  }

  /** The writer of a leaf that has not written its table yet can go on. */
  lemma LeafMoves(p: T.Setup, s: State, b: Addr)
    requires Inv(p, s) && b in s.tree.leaf.jobs && s.tree.leaf.jobs[b].Locked()
    ensures CanMove(p, s, AtLeaf(b))
  {
    hide Inv, T.Inv, L.Inv;
    Parts(p, s, 0);
    var l := s.tree.leaf;
    assert L.Inv(p.leaf, l) by { LeafPart(p, s.tree); }
    P.JobShape(p.leaf, l, b);
    var j := l.jobs[b];
    if j.Adding? {
      assert Moves(p, s, AtLeaf(b), Below(T.AtLeaf(L.AddTable(b))));
    } else if l.leaves[b].entries == j.halves.current.entries {
      assert Moves(p, s, AtLeaf(b), Below(T.AtLeaf(L.WriteTable(b))));
    } else {
      var i :| 0 <= i < |j.halves.current.entries| && l.leaves[b].entries[i] != j.halves.current.entries[i];
      var step := Below(T.AtLeaf(L.WriteEntry(b, i)));
      assert Do(p, s, step).tree.leaf.leaves[b].entries[i] != l.leaves[b].entries[i];
      assert Moves(p, s, AtLeaf(b), step);
    }
  }

  lemma LeafPart(p: T.Setup, s: T.State)
    requires T.Inv(p, s)
    ensures L.Inv(p.leaf, s.leaf) && p.leaf.top == p.inner.top
  {}

  /** An owed record can be inserted one level up, unless its node is being split; at the top a new root is
      written by whoever split the old one. */
  lemma OwedMoves(p: T.Setup, s: State, o: Owed) returns (w: Work)
    requires Inv(p, s) && Owned(s.tree) && RootOwed(s) && o in s.owed
    ensures CanMove(p, s, w) && Pending(s, w) && (w == Inserting(o) || WaitsFor(s, Inserting(o), w))
  {
    hide Inv, T.Inv, I.Inv, CanMove, Owned;
    OwedIs(p, s, o);
    if o.level == |s.uppers| {
      RootIs(p, s);
      assert o.addr != s.root;
      var r :| SplitsRoot(s, r);
      GrowMoves(p, s, r);
      w := Inserting(r);
    } else {
      var h := o.level + 1;
      Parts(p, s, o.level);
      Parts(p, s, h);
      NodeBelowTop(p.inner, Level(s, o.level), o.addr);
      var a := HasCover(p, s, h, o.key);
      if a in Level(s, h).splits {
        SplitMoves(p, s, h, a);
        w := Splitting(h, a);
      } else {
        var r := Keyed(o.key, Child(o.addr, 0, 0, 0));
        var write := CanWrite(p.inner, Level(s, h), a, None, r);
        InsertMoves(p, s, o, write);
        w := Inserting(o);
      }
    }
  }

  lemma GrowMoves(p: T.Setup, s: State, o: Owed)
    requires SplitsRoot(s, o)
    ensures CanMove(p, s, Inserting(o))
  {
    var step := Grow(o, Child(o.addr, 0, 0, 0), 0);
    assert |Do(p, s, step).uppers| == |s.uppers| + 1;
    assert Moves(p, s, Inserting(o), step);
  }

  lemma InsertMoves(p: T.Setup, s: State, o: Owed, write: I.Step)
    requires o in s.owed && o.level < |s.uppers| && Inserts(o.level + 1, write, o)
    requires I.Enabled(p.inner, Level(s, o.level + 1), write)
    ensures CanMove(p, s, Inserting(o))
  {
    hide I.Enabled, I.Do;
    var step := Upper(o.level + 1, write, o);
    assert o !in Do(p, s, step).owed;
    assert Moves(p, s, Inserting(o), step);
  }

  /** In every state of every run, whatever is under way can go on, or waits for the split of a node or for a new
      root that can. */
  lemma NoDeadlock(p: T.Setup, leaf: Addr, capacity: nat, node: Addr, run: seq<State>, t: nat, w: Work)
    requires Run(p, leaf, capacity, node, run) && t < |run| && Pending(run[t], w)
    ensures CanMove(p, run[t], w)
            || exists w' :: Pending(run[t], w') && WaitsFor(run[t], w, w') && CanMove(p, run[t], w')
  {
    hide Run, Inv, Owned, RootOwed, CanMove, WaitsFor;
    RunOwned(p, leaf, capacity, node, run, t);
    var s := run[t];
    match w
    case AtLeaf(b) =>
      if s.tree.leaf.jobs[b].Locked() {
        LeafMoves(p, s, b);
      } else {
        assert T.Publishing(s.tree, b) by { LeafExists(p, s, b); }
        var w' := PublishMoves(p, s, b);
      }
    case Splitting(h, a) => SplitMoves(p, s, h, a);
    case Inserting(o) => var w' := OwedMoves(p, s, o);
  }

  lemma LeafExists(p: T.Setup, s: State, b: Addr)
    requires Inv(p, s) && b in s.tree.leaf.jobs
    ensures b in s.tree.leaf.leaves
  {
    hide Inv, T.Inv, L.Inv;
    Parts(p, s, 0);
    LeafPart(p, s.tree);
    P.JobShape(p.leaf, s.tree.leaf, b);
  }
}
