/** The DMTree leaf protocol: writers lock the fingerprint table of a leaf and write entries, table and
    parent records in a fixed order, one remote write a step, for any number of leaves and writers.
    What every reachable state satisfies. */
module DMProtocol {

  import opened Common
  import opened DMLeaf

  /** An inner record: a leaf and the version it had. Capacity and table follow from the address. */
  datatype Rec = Rec(addr: Addr, version: nat)

  datatype Range = Range(lo: Key, hi: Key) {
    predicate Has(k: Key) {
      lo <= k < hi
    }
  }

  /** What the writer of a leaf has written so far. before is the leaf as it was locked. The lock is
      part of the table, so writing the table releases it: a leaf in Publishing is unlocked. */
  datatype Job =
    | Idle
    | Adding(before: Leaf, slot: nat, key: Key, value: Value)
    | Resizing(before: Leaf, key: Key, value: Value, halves: Halves, at: Addr)
    | Publishing(before: Leaf, key: Key, value: Value, halves: Halves, at: Addr)
  {
    predicate Locked() {
      Adding? || Resizing?
    }

    predicate Halving() {
      Resizing? || Publishing?
    }
  }

  /** Remote memory, and two history variables: issued holds every record the parent level ever held,
      with the range of its leaf, and store is the map the tree stands for. */
  datatype State = State(
    leaves: map<Addr, Leaf>, jobs: map<Addr, Job>, parent: map<Key, Rec>,
    issued: map<Rec, Range>, store: map<Key, Value>)

  datatype Setup = Setup(h: Hash, top: Key)

  datatype Step =
    | Update(rec: Rec, k: Key, v: Value)                              // an entry is rewritten in place
    | AddEntry(rec: Rec, k: Key, v: Value)                            // a new entry is written
    | AddTable(a: Addr)                                               // and then its fingerprint
    | StartResize(rec: Rec, k: Key, v: Value, sibling: nat, at: Addr) // the sibling is written
    | WriteEntry(a: Addr, i: nat)                                     // the leaf, entry by entry
    | WriteTable(a: Addr)                                             // the table of the leaf
    | Publish(a: Addr)                                                // both records, at once

  predicate PathTo(s: State, rec: Rec, k: Key) {
    rec in s.issued && s.issued[rec].Has(k)
  }

  /** A writer that came by rec has locked the table and found the version it expects. */
  predicate Granted(s: State, rec: Rec, k: Key) {
    && PathTo(s, rec, k)
    && rec.addr in s.leaves && rec.addr in s.jobs
    && !s.jobs[rec.addr].Locked()
    && s.leaves[rec.addr].table.version == rec.version
    && |s.leaves[rec.addr].table.fp| == |s.leaves[rec.addr].entries|
  }

  predicate JobAt(s: State, a: Addr) {
    a in s.leaves && a in s.jobs
  }

  predicate Enabled(p: Setup, s: State, step: Step) {
    match step
    case Update(rec, k, v) =>
      Granted(s, rec, k) && Accepting(p.h, s.leaves[rec.addr], k, 0) < |s.leaves[rec.addr].entries|
    case AddEntry(rec, k, v) =>
      && Granted(s, rec, k)
      && var l := s.leaves[rec.addr];
      Accepting(p.h, l, k, 0) == |l.entries| && FirstFp(l.table.fp, 0, 0) < |l.entries|
    case AddTable(a) =>
      JobAt(s, a) && s.jobs[a].Adding? && s.jobs[a].slot < |s.leaves[a].table.fp|
    case StartResize(rec, k, v, sibling, at) =>
      && Granted(s, rec, k) && at !in s.leaves && at !in s.jobs
      && var l := s.leaves[rec.addr];
      && Accepting(p.h, l, k, 0) == |l.entries| && FirstFp(l.table.fp, 0, 0) == |l.entries|
      && |l.entries| == l.header.capacity > 0 && sibling >= l.header.capacity
      && Resize(p.h, l, k, v, sibling, at).Some?
    case WriteEntry(a, i) =>
      && JobAt(s, a) && s.jobs[a].Resizing?
      && i < |s.leaves[a].entries| && i < |s.jobs[a].halves.current.entries|
    case WriteTable(a) =>
      JobAt(s, a) && s.jobs[a].Resizing? && s.leaves[a].entries == s.jobs[a].halves.current.entries
    case Publish(a) =>
      JobAt(s, a) && s.jobs[a].Publishing?
  }

  /** The state after leaf a and its job are replaced. */
  function Touch(s: State, a: Addr, l: Leaf, j: Job, store: map<Key, Value>): State {
    State(s.leaves[a := l], s.jobs[a := j], s.parent, s.issued, store)
  }

  function RangeOf(l: Leaf): Range {
    Range(l.header.min, l.header.max)
  }

  function Do(p: Setup, s: State, step: Step): (r: State)
    requires Enabled(p, s, step)
  {
    match step
    case Update(rec, k, v) =>
      var l := s.leaves[rec.addr];
      var i := Accepting(p.h, l, k, 0);
      var e := EntryInsert(l.entries[i], k, v);
      Touch(s, rec.addr, l.(entries := l.entries[i := if e.Some? then e.value else l.entries[i]]),
            s.jobs[rec.addr], s.store[k := v])
    case AddEntry(rec, k, v) =>
      var l := s.leaves[rec.addr];
      var slot := FirstFp(l.table.fp, 0, 0);
      Touch(s, rec.addr, l.(entries := l.entries[slot := NewEntry(l.table.version, k, v)]),
            Adding(l, slot, k, v), s.store)
    case AddTable(a) =>
      var j, l := s.jobs[a], s.leaves[a];
      Touch(s, a, l.(table := l.table.(fp := l.table.fp[j.slot := Fingerprint(p.h, j.key)])),
            Idle, s.store[j.key := j.value])
    case StartResize(rec, k, v, sibling, at) =>
      var l := s.leaves[rec.addr];
      var halves := Resize(p.h, l, k, v, sibling, at).value;
      s.(leaves := s.leaves[at := halves.sibling],
         jobs := s.jobs[at := Idle][rec.addr := Resizing(l, k, v, halves, at)])
    case WriteEntry(a, i) =>
      var l, j := s.leaves[a], s.jobs[a];
      Touch(s, a, l.(entries := l.entries[i := j.halves.current.entries[i]]), j, s.store)
    case WriteTable(a) =>
      var j := s.jobs[a];
      Touch(s, a, j.halves.current, Publishing(j.before, j.key, j.value, j.halves, j.at), s.store)
    case Publish(a) =>
      Published(s, a, s.jobs[a])
  }

  /** inner_insert writes both records of a resize in one node write, the leaf's own first. */
  function Published(s: State, a: Addr, j: Job): State
    requires j.Publishing?
  {
    var cur, sib := j.halves.current, j.halves.sibling;
    var r, q := Rec(a, cur.header.version), Rec(j.at, 0);
    State(s.leaves, s.jobs[a := Idle], s.parent[cur.header.min := r][sib.header.min := q],
          s.issued[r := RangeOf(cur)][q := RangeOf(sib)], s.store[j.key := j.value])
  }

  /** init_root_node: one empty leaf that covers every key below top. */
  function InitLeaf(p: Setup, capacity: nat): Leaf {
    Leaf(Header(0, p.top, capacity, 0, None, 0), Table(0, Blank(capacity).fp), Blank(capacity).entries)
  }

  function InitState(p: Setup, root: Addr, capacity: nat): State {
    State(map[root := InitLeaf(p, capacity)], map[root := Idle], map[0 := Rec(root, 0)],
          map[Rec(root, 0) := Range(0, p.top)], map[])
  }

  // ---------------------------------------------------------------- the invariant

  /** The leaf a reader may rely on: as locked, until the parent records are written. */
  function Logical(s: State, a: Addr): Leaf
    requires JobAt(s, a)
  {
    if s.jobs[a].Idle? then s.leaves[a] else s.jobs[a].before
  }

  ghost predicate Takes(h: Hash, l: Leaf, k: Key) {
    LeafInv(h, l) && RangeOf(l).Has(k) && k !in Contents(l.entries)
  }

  /** What ResizeConserves says of the two halves. */
  ghost predicate Halved(h: Hash, l: Leaf, k: Key, v: Value, r: Halves, at: Addr) {
    && Takes(h, l, k) && LeafInv(h, r.current) && LeafInv(h, r.sibling)
    && Contents(r.current.entries) + Contents(r.sibling.entries) == Contents(l.entries)[k := v]
    && r.current.header.min == l.header.min && r.current.header.max == r.sibling.header.min
    && r.sibling.header.max == l.header.max && l.header.min <= r.current.header.max < l.header.max
    && r.current.header.version == l.header.version + 1 && r.sibling.header.version == 0
    && r.current.header.capacity == l.header.capacity
  }

  /** leaf is before with the entries of current written in some slots. */
  ghost predicate Mixed(leaf: Leaf, before: Leaf, current: Leaf) {
    && leaf.table == before.table && leaf.header == before.header
    && |leaf.entries| == |before.entries| == |current.entries|
    && forall i :: 0 <= i < |leaf.entries| ==>
         leaf.entries[i] == before.entries[i] || leaf.entries[i] == current.entries[i]
  }

  ghost predicate JobInv(h: Hash, leaf: Leaf, job: Job) {
    match job
    case Idle => LeafInv(h, leaf)
    case Adding(before, slot, k, v) =>
      && Takes(h, before, k) && slot < |before.entries| && before.table.fp[slot] == 0
      && leaf == before.(entries := before.entries[slot := NewEntry(before.table.version, k, v)])
    case Resizing(before, k, v, halves, at) =>
      Halved(h, before, k, v, halves, at) && Mixed(leaf, before, halves.current)
    case Publishing(before, k, v, halves, at) =>
      Halved(h, before, k, v, halves, at) && leaf == halves.current
  }

  ghost predicate Aligned(s: State) {
    s.jobs.Keys == s.leaves.Keys
  }

  ghost predicate LeavesInv(p: Setup, s: State)
    requires Aligned(s)
  {
    forall a :: a in s.leaves ==> JobInv(p.h, s.leaves[a], s.jobs[a])
  }

  ghost predicate Unnamed(s: State, at: Addr) {
    forall rec :: rec in s.issued ==> rec.addr != at
  }

  ghost predicate HiddenHalf(s: State, a: Addr)
    requires Aligned(s) && a in s.jobs && s.jobs[a].Halving()
  {
    var j := s.jobs[a];
    j.at in s.leaves && j.at != a && s.leaves[j.at] == j.halves.sibling && s.jobs[j.at].Idle? && Unnamed(s, j.at)
  }

  /** The sibling of an unfinished resize is untouched and nothing names it. */
  ghost predicate SiblingInv(s: State)
    requires Aligned(s)
  {
    && (forall a :: a in s.jobs && s.jobs[a].Halving() ==> HiddenHalf(s, a))
    && (forall a, b :: a in s.jobs && b in s.jobs && a != b && s.jobs[a].Halving() && s.jobs[b].Halving() ==>
      s.jobs[a].at != s.jobs[b].at)
  }

  /** Who writes a leaf came by a record that is still live. */
  ghost predicate OwnersInv(s: State) {
    forall a :: a in s.jobs && !s.jobs[a].Idle? ==> Rec(a, s.jobs[a].before.header.version) in s.issued
  }

  /** A published record that is still the one to use. */
  ghost predicate Live(s: State, rec: Rec)
    requires Aligned(s)
  {
    rec in s.issued && rec.addr in s.leaves && rec.version == Logical(s, rec.addr).header.version
  }

  ghost predicate IssuedAt(s: State, rec: Rec)
    requires Aligned(s) && rec in s.issued
  {
    && rec.addr in s.leaves && rec.version <= Logical(s, rec.addr).header.version
    && (Live(s, rec) ==>
      && s.issued[rec] == RangeOf(Logical(s, rec.addr))
      && (s.issued[rec].lo < s.issued[rec].hi ==> s.issued[rec].lo in s.parent && s.parent[s.issued[rec].lo] == rec))
  }

  ghost predicate IssuedInv(s: State)
    requires Aligned(s)
  {
    forall rec :: rec in s.issued ==> IssuedAt(s, rec)
  }

  ghost predicate ParentAt(p: Setup, s: State, m: Key)
    requires Aligned(s) && m in s.parent
  {
    && Live(s, s.parent[m])
    && var r := s.issued[s.parent[m]];
    && r.lo == m < r.hi <= p.top
    && (r.hi == p.top || r.hi in s.parent)
    && forall n :: n in s.parent ==> !(m < n < r.hi)
  }

  /** The records of the parent level are live and their ranges tile the keys below top. */
  ghost predicate ParentInv(p: Setup, s: State)
    requires Aligned(s)
  {
    0 in s.parent && forall m :: m in s.parent ==> ParentAt(p, s, m)
  }

  ghost predicate AgreeAt(m: map<Key, Value>, es: seq<Entry>, k: Key) {
    && KeysDistinct(es)
    && (k in m <==> k in Contents(es)) && (k in m ==> m[k] == Contents(es)[k])
  }

  ghost predicate StoreInv(s: State)
    requires Aligned(s)
  {
    forall rec, k :: Live(s, rec) && s.issued[rec].Has(k) ==> AgreeAt(s.store, Logical(s, rec.addr).entries, k)
  }

  ghost predicate Inv(p: Setup, s: State) {
    && Aligned(s) && LeavesInv(p, s) && SiblingInv(s) && OwnersInv(s)
    && IssuedInv(s) && ParentInv(p, s) && StoreInv(s)
  }

  lemma JobOf(p: Setup, s: State, a: Addr)
    requires Aligned(s) && LeavesInv(p, s) && a in s.leaves
    ensures JobInv(p.h, s.leaves[a], s.jobs[a])
  {}

  lemma IssuedOf(s: State, rec: Rec)
    requires Aligned(s) && IssuedInv(s) && rec in s.issued
    ensures IssuedAt(s, rec)
  {}

  lemma ParentOf(p: Setup, s: State, m: Key)
    requires Aligned(s) && ParentInv(p, s) && m in s.parent
    ensures ParentAt(p, s, m)
  {}

  lemma AgreeOf(s: State, rec: Rec, x: Key)
    requires Aligned(s) && StoreInv(s) && Live(s, rec) && s.issued[rec].Has(x)
    ensures AgreeAt(s.store, Logical(s, rec.addr).entries, x)
  {}

  lemma LogicalSound(p: Setup, s: State, a: Addr)
    requires Aligned(s) && LeavesInv(p, s) && a in s.leaves
    ensures LeafInv(p.h, Logical(s, a))
  {}

  lemma InitInv(p: Setup, root: Addr, capacity: nat)
    requires p.top > 0 && capacity > 0
    ensures Inv(p, InitState(p, root, capacity))
  {
    var s := InitState(p, root, capacity);
    assert LeafInv(p.h, s.leaves[root]);
  }

  // ---------------------------------------------------------------- frames

  /** Directory and headers are as before; leaves may be new. */
  ghost predicate SameDirectory(s: State, s': State) {
    && Aligned(s) && Aligned(s')
    && s'.parent == s.parent && s'.issued == s.issued
    && forall a :: a in s.leaves ==> a in s'.leaves && Logical(s', a).header == Logical(s, a).header
  }

  lemma DirectoryKept(p: Setup, s: State, s': State)
    requires SameDirectory(s, s') && IssuedInv(s) && ParentInv(p, s)
    ensures IssuedInv(s') && ParentInv(p, s')
    ensures forall rec :: Live(s', rec) <==> Live(s, rec)
  {
    forall rec
      ensures Live(s', rec) <==> Live(s, rec)
    {
      if rec in s.issued {
        IssuedOf(s, rec);
      }
    }
    forall rec | rec in s'.issued
      ensures IssuedAt(s', rec)
    {
      assert IssuedAt(s, rec);
    }
    forall m | m in s'.parent
      ensures ParentAt(p, s', m)
    {
      assert ParentAt(p, s, m);
    }
  }

  /** No key lies in the range of two live records. */
  lemma LiveUnique(p: Setup, s: State, rec: Rec, rec': Rec, k: Key)
    requires Aligned(s) && IssuedInv(s) && ParentInv(p, s)
    requires Live(s, rec) && Live(s, rec') && s.issued[rec].Has(k) && s.issued[rec'].Has(k)
    ensures rec == rec'
  {}

  lemma StoreKept(p: Setup, s: State, s': State)
    requires Inv(p, s) && SameDirectory(s, s') && s'.store == s.store
    requires forall a :: a in s.leaves ==> Logical(s', a) == Logical(s, a)
    ensures StoreInv(s')
  {}

  ghost predicate PutIn(es: seq<Entry>, es': seq<Entry>, k: Key, v: Value) {
    KeysDistinct(es) && KeysDistinct(es') && Contents(es') == Contents(es)[k := v]
  }

  lemma AgreePut(m: map<Key, Value>, es: seq<Entry>, es': seq<Entry>, k: Key, v: Value, x: Key)
    requires AgreeAt(m, es, x) && PutIn(es, es', k, v)
    ensures AgreeAt(m[k := v], es', x)
  {}

  lemma AgreeOther(m: map<Key, Value>, es: seq<Entry>, k: Key, v: Value, x: Key)
    requires AgreeAt(m, es, x) && x != k
    ensures AgreeAt(m[k := v], es, x)
  {}

  lemma StorePut(p: Setup, s: State, s': State, rec: Rec, k: Key, v: Value)
    requires Inv(p, s) && SameDirectory(s, s') && s'.store == s.store[k := v]
    requires Live(s, rec) && s.issued[rec].Has(k)
    requires forall b :: b in s.leaves && b != rec.addr ==> Logical(s', b) == Logical(s, b)
    requires PutIn(Logical(s, rec.addr).entries, Logical(s', rec.addr).entries, k, v)
    ensures StoreInv(s')
  {
    hide LeavesInv, AgreeAt, SiblingInv, IssuedInv, ParentInv, PutIn;
    DirectoryKept(p, s, s');
    forall r, x | Live(s', r) && s'.issued[r].Has(x)
      ensures AgreeAt(s'.store, Logical(s', r.addr).entries, x)
    {
      assert Live(s, r);
      if r.addr == rec.addr {
        AgreePut(s.store, Logical(s, r.addr).entries, Logical(s', r.addr).entries, k, v, x);
      } else {
        if x == k {
          LiveUnique(p, s, r, rec, k);
        }
        AgreeOther(s.store, Logical(s, r.addr).entries, k, v, x);
      }
    }
  }
}
