/** Runs of a CHIME tree with the steps they take: the store is what its operations wrote, every operation can go
    through in every reachable state, and every separator owed to the internal nodes can be inserted. */
module ChimeProgress {

  import opened Common
  import opened KeyOrder
  import opened Hopscotch
  import opened HopscotchRead
  import opened ChimeLeaf
  import opened ChimeOps
  import opened ChimeChain
  import N = ChimeInternal
  import V = ChimeInternalLevel
  import opened ChimeTree

  // ---------------------------------------------------------------- what was written

  ghost predicate LabeledRun(p: Setup, run: seq<State>, steps: seq<Step>) {
    && p.Valid() && |run| == |steps| + 1 && run[0] == InitState(p)
    && forall t :: 0 <= t < |steps| ==> Performs(p, run[t], steps[t], run[t + 1])
  }

  lemma LabeledIsRun(p: Setup, run: seq<State>, steps: seq<Step>)
    requires LabeledRun(p, run, steps)
    ensures Run(p, run)
  {
    hide Performs;
    forall t | 0 < t < |run| ensures Follows(p, run[t - 1], run[t]) {
      assert Performs(p, run[t - 1], steps[t - 1], run[t]);
    }
  }

  /** The values written by a sequence of steps, the last one of each key. */
  function Written(steps: seq<Step>): (m: map<Key, Value>) {
    if steps == [] then map[]
    else
      var m := Written(steps[..|steps| - 1]);
      match steps[|steps| - 1]
      case Leaf(call, _) => m[call.op.key := call.op.value]
      case Ask(_, _, _) => m
      case Publish(_, _, _) => m
      case Grow(_, _) => m
  }

  lemma StepWrites(p: Setup, s: State, step: Step)
    requires Inv(p, s) && Enabled(p, s, step)
    ensures ChimeTree.Next(p, s, step).store
            == if step.Leaf? then s.store[step.call.op.key := step.call.op.value] else s.store
  {
    hide Inv, Do, Says, ChainParts, Linked, Allowed;
    if step.Leaf? {
      LeafGoesThrough(p, s, step.call, step.a);
    }
  }

  /** In every run the store is what its inserts and updates wrote, over the pair every tree starts with. */
  lemma {:induction false} StoreIsWritten(p: Setup, run: seq<State>, steps: seq<Step>, t: nat)
    requires LabeledRun(p, run, steps) && t < |run|
    ensures run[t].store == map[p.keyMax - 1 := VALUE_NULL] + Written(steps[..t])
  {
    hide Inv, Enabled, ChimeTree.Next;
    if t == 0 {
      assert run[0].store == map[p.keyMax - 1 := VALUE_NULL];
    } else {
      StoreIsWritten(p, run, steps, t - 1);
      assert Performs(p, run[t - 1], steps[t - 1], run[t]);
      assert steps[..t][..t - 1] == steps[..t - 1] && steps[..t][t - 1] == steps[t - 1];
      LabeledIsRun(p, run, steps);
      RunInv(p, run, t - 1);
      StepWrites(p, run[t - 1], steps[t - 1]);
    }
  }

  /** A search that goes by any answer ever given answers with the value last written to its key, or misses a key
      never written. */
  lemma SearchAnswersWritten(p: Setup, run: seq<State>, steps: seq<Step>, t: nat, k: Key, a: Answer, i: nat,
                             r: ReadResult)
    requires LabeledRun(p, run, steps) && t < |run| && Asked(k, a) in run[t].said
    requires i < |run[t].chain| && run[t].chain[i].addr == a.leaf
    ensures ChainParts(p.P, run[t].chain) && Linked(run[t].chain, p.keyMax)
    ensures SearchAnswers(p.P, p.keyMax, run[t].chain, k, i, a.next, r) <==> r == Wanted(Written(steps[..t]), k)
  {
    hide Run, LabeledRun, SearchAnswers, ChainParts, Linked, Written;
    StoreIsWritten(p, run, steps, t);
    LabeledIsRun(p, run, steps);
    SearchCorrect(p, run, t, k, a, i, r);
  }

  // ---------------------------------------------------------------- operations can go through

  lemma Extends(p: Setup, run: seq<State>, step: Step) returns (run': seq<State>)
    requires Run(p, run) && Enabled(p, run[|run| - 1], step)
    ensures Run(p, run') && run' == run + [ChimeTree.Next(p, run[|run| - 1], step)]
  {
    hide Enabled, ChimeTree.Next;
    var s := run[|run| - 1];
    run' := run + [ChimeTree.Next(p, s, step)];
    assert Performs(p, s, step, ChimeTree.Next(p, s, step));
    assert Follows(p, s, ChimeTree.Next(p, s, step));
  }

  /** For every key the root pointer or the leftmost internal node has an answer. */
  lemma HasAnswer(p: Setup, s: State, k: Key) returns (a: Answer)
    requires Inv(p, s) && KEY_MIN <= k < p.keyMax
    ensures Says(p, s, 0, k, a)
  {
    hide ChainInv, Represents, V.LevelInv, V.Walk, Named, V.FlatLevel, N.FloorPair;
    if s.level == [] {
      a := Answer(0, NoSibling);
    } else {
      V.WalkIsFloor(p.span, s.level, 0, k);
      a := FloorAnswer(s.chain, V.FlatLevel(s.level), k);
    }
  }

  lemma FloorAnswer(chain: Chain, fs: seq<N.Separator>, k: Key) returns (a: Answer)
    requires NamesLeaves(chain, fs) && |fs| > 0 && fs[0].key <= k
    ensures IsAnswer(N.FloorPair(fs, k, N.NULL), a)
  {
    hide Named;
    var r := N.FloorPair(fs, k, N.NULL);
    var j := Above(fs, k, 0);
    assert fs[j - 1].value != N.NULL;
    a := Answer(r.child - 1, if r.next == N.NULL then NoSibling else At(r.next - 1));
  }

  lemma LeafAt(p: Setup, s: State, k: Key, a: Answer) returns (i: nat)
    requires Inv(p, s) && Guides(s.chain, k, a)
    ensures i < |s.chain| && s.chain[i].addr == a.leaf
  {
    hide ChainInv, Represents, LevelOver;
    var lo: Key :| lo <= k && Named(s.chain, lo, a.leaf);
    i :| 0 <= i < |s.chain| && s.chain[i].addr == a.leaf && s.chain[i].lo == lo;
  }

  /** An insert of an absent key or an update of a present one may be made with any answer of an inner node. */
  lemma OpAllowed(P: Params, keyMax: Key, chain: Chain, m: map<Key, Value>, call: Call)
    requires ChainInv(P, chain, keyMax) && Represents(chain, m) && (call.op.Insert? <==> call.op.key !in m)
    requires KEY_MIN <= call.op.key < keyMax && Enters(chain, call.op.key, call.start, call.expected)
    requires ChainParts(P, chain) && Harmless(P, chain, call.op.key, call.left)
    ensures Linked(chain, keyMax) && call.start < |chain| && Allowed(P, keyMax, chain, call)
  {
    hide NodeInv, Stored, Contents, InsertRoute, Visible, Harmless;
    InvStored(P, chain, keyMax);
    var k := call.op.key;
    if call.op.Insert? {
      InsertRouteFinds(P, keyMax, chain, k, call.start, call.expected);
      var r := InsertRoute(P, keyMax, chain, k, call.start, call.expected);
      KeysAt(chain[r].records, k);
    }
  }

  /** Every run goes on with any insert of an absent key and any update of a present one: an inner node answers,
      and with that answer the operation goes through and does to the store what it should. */
  lemma OpCompletes(p: Setup, run: seq<State>, op: Op) returns (run': seq<State>)
    requires Run(p, run) && KEY_MIN <= op.key < p.keyMax
    requires op.Insert? <==> op.key !in run[|run| - 1].store
    ensures run <= run' && |run'| == |run| + 2 && Run(p, run')
    ensures run'[|run'| - 1].store == run[|run| - 1].store[op.key := op.value]
  {
    hide Run, Inv, Do, Says;
    assert |run| > 0 && Inv(p, run[|run| - 1]) by { LastInv(p, run); }
    var s := run[|run| - 1];
    var a := HasAnswer(p, s, op.key);
    var run1 := Extends(p, run, Ask(0, op.key, a));
    var s1 := run1[|run1| - 1];
    assert Inv(p, s1) by { LastInv(p, run1); }
    var call := CallFor(p, s1, op, a);
    run' := Extends(p, run1, Leaf(call, a));
    LeafGoesThrough(p, s1, call, a);
  }

  lemma LastInv(p: Setup, run: seq<State>)
    requires Run(p, run)
    ensures |run| > 0 && Inv(p, run[|run| - 1])
  {
    RunInv(p, run, |run| - 1);
  }

  lemma CallFor(p: Setup, s: State, op: Op, a: Answer) returns (call: Call)
    requires Inv(p, s) && Asked(op.key, a) in s.said && (op.Insert? <==> op.key !in s.store)
    ensures call.op == op && Enabled(p, s, Leaf(call, a))
  {
    hide ChainInv, Represents, Guides, Enters, Allowed, ChainStored, LevelOver, Known, OwedInv;
    assert AskedInv(p, s, Asked(op.key, a));
    var i := LeafAt(p, s, op.key, a);
    InvStored(p.P, s.chain, p.keyMax);
    ChainReady(p.P, s.chain, p.keyMax);
    GuidesEnter(p.P, s.chain, p.keyMax, op.key, a, i);
    var left := RightWord(p.P, p.keyMax, s.chain, op.key);
    call := Call(op, i, a.next, left);
    OpAllowed(p.P, p.keyMax, s.chain, s.store, call);
  }

  // ---------------------------------------------------------------- separators can be inserted

  /** Some node of the level covers k. */
  lemma {:induction false} NodeFor(span: nat, l: V.Level, k: Key) returns (i: nat)
    requires V.LevelInv(span, l) && l[0].node.lowest <= k < V.Highest(l)
    ensures i < |l| && l[i].node.Covers(k)
    decreases |l|
  {
    if k < l[0].node.highest {
      i := 0;
    } else {
      V.TailInv(span, l);
      var j := NodeFor(span, l[1..], k);
      i := j + 1;
    }
  }

  lemma UnusedAddress(l: V.Level) returns (at: N.Addr)
    ensures V.Unused(l, at)
  {
    at := N.NULL + 1;
    for i := 0 to |l|
      invariant at > N.NULL && forall j :: 0 <= j < i ==> l[j].addr < at
    {
      at := if l[i].addr < at then at else l[i].addr + 1;
    }
  }

  /** Leaf addresses are dealt in order, so the first split of the root leaf made leaf 1. */
  lemma FirstSplit(p: Setup, s: State) returns (o: Owed)
    requires Inv(p, s) && s.level == [] && s.owed != {}
    ensures o in s.owed && o.addr == 1
  {
    hide Represents, NodeInv, V.LevelInv;
    var u :| u in s.owed;
    assert OwedInv(s, u);
    assert |s.chain| > 1;
    var i := AddressUsed(s.chain, 1);
    assert Known(s, i) && V.FlatLevel(s.level) == [];
    o := Owed(s.chain[i].lo, 1);
  }

  ghost function UpTo(n: nat): (ns: set<nat>)
    ensures |ns| == n && forall y: nat :: y in ns <==> y < n
  {
    if n == 0 then {} else UpTo(n - 1) + {n - 1}
  }

  /** Every address below the number of leaves is that of a leaf. */
  lemma AddressUsed(chain: Chain, x: nat) returns (i: nat)
    requires x < |chain| && (forall i :: 0 <= i < |chain| ==> chain[i].addr < |chain|)
    requires forall i, j :: 0 <= i < j < |chain| ==> chain[i].addr != chain[j].addr
    ensures i < |chain| && chain[i].addr == x
  {
    if forall j :: 0 <= j < |chain| ==> chain[j].addr != x {
      var used := set j | 0 <= j < |chain| :: chain[j].addr;
      AddressCount(chain, |chain|);
      assert used <= UpTo(|chain|) - {x};
      Smaller(used, UpTo(|chain|) - {x});
      assert false;
    }
    i :| 0 <= i < |chain| && chain[i].addr == x;
  }

  lemma {:induction false} AddressCount(chain: Chain, n: nat)
    requires n <= |chain| && forall i, j :: 0 <= i < j < |chain| ==> chain[i].addr != chain[j].addr
    ensures |set j | 0 <= j < n :: chain[j].addr| == n
  {
    if n > 0 {
      AddressCount(chain, n - 1);
      assert (set j | 0 <= j < n :: chain[j].addr) == (set j | 0 <= j < n - 1 :: chain[j].addr) + {chain[n - 1].addr};
    }
  }

  lemma {:induction false} Smaller(a: set<nat>, b: set<nat>)
    requires a <= b
    ensures |a| <= |b|
  {
    if a != {} {
      var x :| x in a;
      Smaller(a - {x}, b - {x});
    }
  }

  /** Every run goes on to one in which the internal nodes know every leaf. */
  lemma {:induction false} AllInserted(p: Setup, run: seq<State>) returns (run': seq<State>)
    requires Run(p, run)
    ensures run <= run' && Run(p, run') && run'[|run'| - 1].owed == {}
    ensures run'[|run'| - 1].chain == run[|run| - 1].chain
    decreases |run[|run| - 1].owed|
  {
    hide Run, Inv, Enabled;
    assert |run| > 0 && Inv(p, run[|run| - 1]) by { LastInv(p, run); }
    var s := run[|run| - 1];
    run' := run;
    if s.owed != {} {
      var step := CanInsert(p, s);
      var run1 := Extends(p, run, step);
      var s1 := run1[|run1| - 1];
      assert s1.owed == s.owed - {step.o} && s1.chain == s.chain;
      run' := AllInserted(p, run1);
    }
  }

  lemma CanInsert(p: Setup, s: State) returns (step: Step)
    requires Inv(p, s) && s.owed != {}
    ensures (step.Publish? || step.Grow?) && step.o in s.owed && Enabled(p, s, step)
  {
    hide ChainInv, Represents, V.LevelInv, NamesLeaves, Known;
    if s.level == [] {
      var o := FirstSplit(p, s);
      step := Grow(o, N.NULL + 1);
    } else {
      var o :| o in s.owed;
      assert OwedInv(s, o);
      InvStored(p.P, s.chain, p.keyMax);
      BelowTop(p.P, s.chain, p.keyMax, o.key, o.addr);
      var i := NodeFor(p.span, s.level, o.key);
      var at := UnusedAddress(s.level);
      NonEmpty(p.span, s.level, i);
      step := Publish(o, i, at);
    }
  }

  lemma NonEmpty(span: nat, l: V.Level, i: nat)
    requires V.LevelInv(span, l) && i < |l|
    ensures l[i].node.records != []
  {}
}
