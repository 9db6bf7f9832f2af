/** The leaf protocol never gets stuck: from every state of every run the writers at work can finish, and then any
    key can be written. */
module DMProgress {

  import opened Common
  import opened KeyOrder
  import opened DMLeaf
  import opened DMProtocol
  import opened DMProtocolRuns
  import opened DMSearch

  /** Sound states, each one step behind the one before. */
  ghost predicate Path(p: Setup, path: seq<State>) {
    && |path| > 0 && Inv(p, path[|path| - 1])
    && forall t :: 0 < t < |path| ==> Next(p, path[t - 1], path[t])
  }

  ghost function End(path: seq<State>): (s: State)
    requires path != []
  {
    path[|path| - 1]
  }

  ghost predicate Goes(p: Setup, path: seq<State>, path': seq<State>) {
    Path(p, path) && Path(p, path') && path <= path'
  }

  lemma Then(p: Setup, path: seq<State>, step: Step) returns (path': seq<State>)
    requires Path(p, path) && Enabled(p, End(path), step)
    ensures Goes(p, path, path') && End(path') == Do(p, End(path), step)
  {
    hide Inv, Enabled, Do;
    var s := End(path);
    StepKeeps(p, s, step);
    path' := path + [Do(p, s, step)];
    assert Performs(p, s, step, Do(p, s, step));
    assert Next(p, s, Do(p, s, step));
  }

  // ---------------------------------------------------------------- a writer at work can finish

  /** Only the job of a and what it writes may have changed. */
  ghost predicate OnlyJob(s: State, s': State, a: Addr) {
    s'.jobs.Keys == s.jobs.Keys && forall b :: b in s.jobs && b != a ==> s'.jobs[b] == s.jobs[b]
  }

  lemma JobShape(p: Setup, s: State, a: Addr)
    requires Inv(p, s) && a in s.jobs
    ensures JobAt(s, a)
    ensures s.jobs[a].Adding? ==> s.jobs[a].slot < |s.leaves[a].table.fp|
    ensures s.jobs[a].Resizing? ==> |s.jobs[a].halves.current.entries| == |s.leaves[a].entries|
  {
    hide StoreInv, ParentInv, IssuedInv, SiblingInv, OwnersInv, Contents, Halved;
    JobOf(p, s, a);
  }

  /** The entries of the resized leaf, from slot i on. */
  lemma WritesOut(p: Setup, path: seq<State>, a: Addr, i: nat) returns (path': seq<State>)
    requires Path(p, path) && a in End(path).jobs && End(path).jobs[a].Resizing? && a in End(path).leaves
    requires var es := End(path).jobs[a].halves.current.entries;
             i <= |es| == |End(path).leaves[a].entries| && End(path).leaves[a].entries[..i] == es[..i]
    ensures Goes(p, path, path') && End(path').jobs == End(path).jobs && End(path').store == End(path).store
    ensures a in End(path').leaves && End(path').leaves[a].entries == End(path).jobs[a].halves.current.entries
    decreases |End(path).leaves[a].entries| - i
  {
    hide Inv, Next;
    var s := End(path);
    var es := s.jobs[a].halves.current.entries;
    if i == |es| {
      path' := path;
      assert s.leaves[a].entries == s.leaves[a].entries[..i];
    } else {
      var path1 := Then(p, path, WriteEntry(a, i));
      assert End(path1).jobs == s.jobs;
      assert End(path1).leaves[a].entries[..i + 1] == s.leaves[a].entries[..i] + [es[i]];
      path' := WritesOut(p, path1, a, i + 1);
    }
  }

  /** Whoever writes a can finish, and with that its write is in the store. */
  lemma Finishes(p: Setup, path: seq<State>, a: Addr) returns (path': seq<State>)
    requires Path(p, path) && a in End(path).jobs
    ensures Goes(p, path, path') && a in End(path').jobs && End(path').jobs[a].Idle?
    ensures OnlyJob(End(path), End(path'), a)
    ensures var j := End(path).jobs[a];
            End(path').store == if j.Idle? then End(path).store else End(path).store[j.key := j.value]
  {
    hide Inv, Next;
    var s := End(path);
    JobShape(p, s, a);
    match s.jobs[a]
    case Idle => path' := path;
    case Adding(_, _, _, _) => path' := Then(p, path, AddTable(a));
    case Resizing(_, _, _, _, _) =>
      var path1 := WritesOut(p, path, a, 0);
      var path2 := Then(p, path1, WriteTable(a));
      path' := Then(p, path2, Publish(a));
    case Publishing(_, _, _, _, _) => path' := Then(p, path, Publish(a));
  }

  ghost predicate AllIdle(s: State) {
    forall a :: a in s.jobs ==> s.jobs[a].Idle?
  }

  ghost function Busy(s: State): (b: set<Addr>) {
    set a | a in s.jobs && !s.jobs[a].Idle?
  }

  /** All writers at work can finish. */
  lemma AllFinish(p: Setup, path: seq<State>) returns (path': seq<State>)
    requires Path(p, path)
    ensures Goes(p, path, path') && AllIdle(End(path'))
    decreases |Busy(End(path))|
  {
    hide Path, Inv;
    path' := path;
    assert path != [] by { PathEnd(p, path); }
    if Busy(End(path)) != {} {
      var a :| a in Busy(End(path));
      var path1 := Finishes(p, path, a);
      PathEnd(p, path1);
      assert Busy(End(path1)) == Busy(End(path)) - {a};
      path' := AllFinish(p, path1);
    } else {
      assert forall a :: a in End(path).jobs ==> a !in Busy(End(path));
    }
  }

  lemma PathEnd(p: Setup, path: seq<State>)
    requires Path(p, path)
    ensures path != [] && Inv(p, End(path))
  {}

  // ---------------------------------------------------------------- any key can be written

  lemma {:induction false} HasFloor<T>(level: map<Key, T>, k: Key) returns (m: Key)
    requires 0 in level
    ensures IsFloor(level, m, k)
    decreases k
  {
    if k in level {
      m := k;
    } else {
      m := HasFloor(level, k - 1);
    }
  }

  lemma NewAddress(used: set<Addr>) returns (a: Addr)
    ensures forall b :: b in used ==> b < a
  {
    a := 0;
    var rest := used;
    while rest != {}
      invariant rest <= used && forall b :: b in used && b !in rest ==> b < a
    {
      var b :| b in rest;
      a := if a > b then a else b + 1;
      rest := rest - {b};
    }
  }

  /** With nobody at work, the record of the parent level grants its leaf to a writer of k. */
  lemma Grants(p: Setup, s: State, k: Key) returns (rec: Rec)
    requires Inv(p, s) && k < p.top && AllIdle(s)
    ensures Granted(s, rec, k)
  {
    hide StoreInv, SiblingInv, OwnersInv, IssuedInv, Contents;
    var m := HasFloor(s.parent, k);
    FloorIsPath(p, s, m, k);
    rec := s.parent[m];
    JobOf(p, s, rec.addr);
  }

  /** A granted writer of k can update, add or resize. */
  lemma Starts(p: Setup, path: seq<State>, rec: Rec, k: Key, v: Value) returns (path': seq<State>)
    requires Path(p, path) && Granted(End(path), rec, k) && AllIdle(End(path))
    ensures Goes(p, path, path') && rec.addr in End(path').jobs
    ensures forall b :: b in End(path').jobs && b != rec.addr ==> End(path').jobs[b].Idle?
    ensures var j := End(path').jobs[rec.addr];
            if j.Idle? then k in End(path').store && End(path').store[k] == v else j.key == k && j.value == v
  {
    hide Inv, Next;
    var s := End(path);
    var l := s.leaves[rec.addr];
    if Accepting(p.h, l, k, 0) < |l.entries| {
      path' := Then(p, path, Update(rec, k, v));
    } else if FirstFp(l.table.fp, 0, 0) < |l.entries| {
      path' := Then(p, path, AddEntry(rec, k, v));
    } else {
      Refused(p, s, rec, k);
      var at := NewAddress(s.leaves.Keys + s.jobs.Keys);
      ResizeHalves(p.h, l, k, v, l.header.capacity, at);
      path' := Then(p, path, StartResize(rec, k, v, l.header.capacity, at));
    }
  }

  /** Every run goes on to one in which no writer is at work and k holds v. */
  lemma WritesComplete(p: Setup, root: Addr, capacity: nat, run: seq<State>, k: Key, v: Value)
    returns (run': seq<State>)
    requires Run(p, root, capacity, run) && k < p.top
    ensures run <= run' && Run(p, root, capacity, run')
    ensures AllIdle(End(run')) && k in End(run').store && End(run').store[k] == v
  {
    hide Inv, Next, Granted;
    RunInv(p, root, capacity, run, |run| - 1);
    var path1 := AllFinish(p, run);
    var rec := Grants(p, End(path1), k);
    var path2 := Starts(p, path1, rec, k, v);
    run' := Finishes(p, path2, rec.addr);
  }
}
