/** The leaves of a CHIME tree under the internal nodes of its bottom level. A leaf split owes the level a
    separator; until that is inserted, and in every stale copy of a node, the level answers without it. What it
    answered at any time still leads every operation to the leaf of its key. */
module ChimeTree {

  import opened Common
  import opened KeyOrder
  import opened Hopscotch
  import opened HopscotchRead
  import opened ChimeLeaf
  import opened ChimeOps
  import opened ChimeChain
  import N = ChimeInternal
  import V = ChimeInternalLevel

  /** span is the span of internal nodes. */
  datatype Setup = Setup(P: Params, span: nat, keyMax: Key) {
    ghost predicate Valid() {
      P.Valid() && span >= 3 && keyMax > KEY_MIN
    }
  }

  /** The sibling of a leaf split, which the level above does not know yet. */
  datatype Owed = Owed(key: Key, addr: nat)

  /** A leaf, and the sibling its caller expects it to have. */
  datatype Answer = Answer(leaf: nat, next: Sibling)

  datatype Asked = Asked(key: Key, answer: Answer)

  /** level is empty as long as the root pointer names the first leaf. store and said are history variables:
      the map the tree stands for, and all answers inner nodes ever gave. */
  datatype State = State(chain: Chain, level: V.Level, owed: set<Owed>, store: map<Key, Value>, said: set<Asked>)

  /** The address of a leaf, as a child pointer; NULL is no leaf. */
  function Child(addr: nat): (p: N.Addr)
    ensures p != N.NULL
  {
    addr + 1
  }

  predicate IsAnswer(r: N.Route, a: Answer) {
    && r.child == Child(a.leaf)
    && a.next == if r.next == N.NULL then NoSibling else At(r.next - 1)
  }

  /** What the root pointer or a search from node i of the level says about k. */
  ghost predicate Says(p: Setup, s: State, i: nat, k: Key, a: Answer) {
    if s.level == [] then a == Answer(0, NoSibling)
    else
      && V.LevelInv(p.span, s.level) && i < |s.level| && s.level[i].node.lowest <= k
      && IsAnswer(V.Walk(p.span, s.level, i, k), a)
  }

  datatype Step =
    | Ask(i: nat, k: Key, a: Answer)           // internal_node_search
    | Leaf(call: Call, a: Answer)              // leaf_node_insert or leaf_node_update
    | Publish(o: Owed, i: nat, at: N.Addr)     // internal_node_insert
    | Grow(o: Owed, at: N.Addr)                // the first internal node

  function SeparatorOf(o: Owed): N.Separator {
    Keyed(o.key, Child(o.addr))
  }

  ghost predicate Enabled(p: Setup, s: State, step: Step) {
    match step
    case Ask(i, k, a) => KEY_MIN <= k < p.keyMax && Says(p, s, i, k, a)
    case Leaf(call, a) =>
      && Asked(call.op.key, a) in s.said && Fits(p.P, call.left)
      && ChainParts(p.P, s.chain) && Linked(s.chain, p.keyMax)
      && call.start < |s.chain| && s.chain[call.start].addr == a.leaf && call.expected == a.next
      && Allowed(p.P, p.keyMax, s.chain, call)
    case Publish(o, i, at) =>
      && o in s.owed && i < |s.level| && V.Unused(s.level, at)
      && s.level[i].node.Covers(o.key) && s.level[i].node.records != []
    case Grow(o, at) => s.level == [] && o in s.owed && o.addr == 1 && at != N.NULL
  }

  /** What a leaf operation that split a leaf owes. */
  function NewLeaf(chain: Chain, chain': Chain): (os: set<Owed>) {
    var j := IndexOf(chain', |chain|, 0);
    if j < |chain'| then {Owed(chain'[j].lo, |chain|)} else {}
  }

  function FirstNode(p: Setup, o: Owed, at: N.Addr): V.Level {
    [V.Located(at, N.Inner(KEY_MIN, p.keyMax, N.NULL, Child(0), N.NULL, [SeparatorOf(o)]))]
  }

  ghost function Next(p: Setup, s: State, step: Step): (s': State)
    requires Enabled(p, s, step)
  {
    match step
    case Ask(_, k, a) => s.(said := s.said + {Asked(k, a)})
    case Leaf(call, _) =>
      (match Do(p.P, p.keyMax, s.chain, call)
       case None => s                          // a failing assert, which LeafGoesThrough rules out
       case Some(chain') =>
         s.(chain := chain', owed := s.owed + NewLeaf(s.chain, chain'), store := Put(s.store, call.op)))
    case Publish(o, i, at) =>
      s.(level := V.InsertAt(p.span, s.level, i, SeparatorOf(o), at), owed := s.owed - {o})
    case Grow(o, at) => s.(level := FirstNode(p, o, at), owed := s.owed - {o})
  }

  function InitState(p: Setup): State
    requires p.P.Valid() && p.keyMax > KEY_MIN
  {
    State([Root(p.P, p.keyMax)], [], {}, map[p.keyMax - 1 := VALUE_NULL], {})
  }

  // ---------------------------------------------------------------- names of leaves

  /** addr is a leaf with that least key. */
  ghost predicate Named(chain: Chain, key: Key, addr: nat) {
    exists i :: 0 <= i < |chain| && chain[i].addr == addr && chain[i].lo == key
  }

  lemma NamedOnce(P: Params, chain: Chain, keyMax: Key, key: Key, a: nat, b: nat)
    requires ChainStored(P, chain, keyMax) && Named(chain, key, a) && Named(chain, key, b)
    ensures a == b
  {
    hide Linked;
    var i :| 0 <= i < |chain| && chain[i].addr == a && chain[i].lo == key;
    var j :| 0 <= j < |chain| && chain[j].addr == b && chain[j].lo == key;
    if i < j { RangesOrdered(P, chain, keyMax, i, j); }
    if j < i { RangesOrdered(P, chain, keyMax, j, i); }
  }

  /** Leaves keep their names. */
  lemma NamedStays(chain: Chain, r: nat, ns: seq<Node>, key: Key, addr: nat)
    requires r < |chain| && TakesPlace(chain[r], |chain|, ns) && Named(chain, key, addr)
    ensures Named(Spliced(chain, r, ns), key, addr)
  {
    var i :| 0 <= i < |chain| && chain[i].addr == addr && chain[i].lo == key;
    var chain' := Spliced(chain, r, ns);
    if i < r {
      assert chain'[i] == chain[i];
    } else if i == r {
      assert chain'[r] == ns[0];
    } else {
      assert chain'[i + |ns| - 1] == chain[i];
    }
  }

  /** The answer names a leaf at or left of k, and a later one right of k unless it names none. */
  ghost predicate Guides(chain: Chain, k: Key, a: Answer) {
    && (exists lo: Key :: lo <= k && Named(chain, lo, a.leaf))
    && !a.next.RootTag?
    && (a.next.At? ==> exists hi: Key :: k < hi && Named(chain, hi, a.next.addr))
  }

  lemma GuidesStay(chain: Chain, r: nat, ns: seq<Node>, k: Key, a: Answer)
    requires r < |chain| && TakesPlace(chain[r], |chain|, ns) && Guides(chain, k, a)
    ensures Guides(Spliced(chain, r, ns), k, a)
  {
    hide TakesPlace, Named, Spliced;
    var lo: Key :| lo <= k && Named(chain, lo, a.leaf);
    NamedStays(chain, r, ns, lo, a.leaf);
    if a.next.At? {
      var hi: Key :| k < hi && Named(chain, hi, a.next.addr);
      NamedStays(chain, r, ns, hi, a.next.addr);
    }
  }

  /** Such an answer is what the operations on the chain take from inner nodes. */
  lemma GuidesEnter(P: Params, chain: Chain, keyMax: Key, k: Key, a: Answer, i: nat)
    requires ChainStored(P, chain, keyMax) && Guides(chain, k, a) && k < keyMax
    requires i < |chain| && chain[i].addr == a.leaf
    ensures Enters(chain, k, i, a.next)
  {
    hide Stored;
    var lo: Key :| lo <= k && Named(chain, lo, a.leaf);
    assert chain[i].lo == lo;
    if a.next.At? {
      var hi: Key :| k < hi && Named(chain, hi, a.next.addr);
      var j :| 0 <= j < |chain| && chain[j].addr == a.next.addr && chain[j].lo == hi;
      LaterLeaf(P, chain, keyMax, i, j, k);
      assert chain[j - 1].hi == chain[j].lo && chain[j - 1].sibling == At(chain[j].addr);
      assert Brackets(chain, k, i, a.next, j - 1);
    } else {
      assert Brackets(chain, k, i, a.next, |chain| - 1);
    }
  }

  lemma LaterLeaf(P: Params, chain: Chain, keyMax: Key, i: nat, j: nat, k: Key)
    requires ChainStored(P, chain, keyMax) && i < |chain| && j < |chain| && chain[i].lo <= k < chain[j].lo
    ensures i < j
  {
    hide Stored, Linked;
    if j < i {
      RangesOrdered(P, chain, keyMax, j, i);
      NodeRange(P, chain[j]);
    }
  }

  // ---------------------------------------------------------------- the invariant

  /** The leaf is a child of the level. */
  ghost predicate Listed(fs: seq<N.Separator>, addr: nat) {
    exists j :: 0 <= j < |fs| && fs[j].value == Child(addr)
  }

  /** Every child of the level is a leaf, under the least key of that leaf. */
  ghost predicate NamesLeaves(chain: Chain, fs: seq<N.Separator>) {
    forall j :: 0 <= j < |fs| ==> fs[j].value != N.NULL && Named(chain, fs[j].key, fs[j].value - 1)
  }

  ghost predicate LevelOver(p: Setup, s: State) {
    && (s.level != [] ==> V.LevelInv(p.span, s.level) && s.level[0].node.lowest == KEY_MIN
                          && V.Highest(s.level) == p.keyMax)
    && NamesLeaves(s.chain, V.FlatLevel(s.level))
  }

  ghost predicate OwedInv(s: State, o: Owed) {
    o.key > KEY_MIN && o.addr > 0 && Named(s.chain, o.key, o.addr) && !Listed(V.FlatLevel(s.level), o.addr)
  }

  /** A leaf is a child of the level, or owed to it, or the first leaf before there is a level. */
  ghost predicate Known(s: State, i: nat)
    requires i < |s.chain|
  {
    || Listed(V.FlatLevel(s.level), s.chain[i].addr)
    || Owed(s.chain[i].lo, s.chain[i].addr) in s.owed
    || (s.level == [] && s.chain[i].addr == 0)
  }

  ghost predicate AskedInv(p: Setup, s: State, q: Asked) {
    KEY_MIN <= q.key < p.keyMax && Guides(s.chain, q.key, q.answer)
  }

  ghost predicate Inv(p: Setup, s: State) {
    && p.Valid() && ChainInv(p.P, s.chain, p.keyMax) && Represents(s.chain, s.store)
    && LevelOver(p, s) && Named(s.chain, KEY_MIN, 0)
    && (forall o :: o in s.owed ==> OwedInv(s, o))
    && (forall q :: q in s.said ==> AskedInv(p, s, q))
    && (forall i :: 0 <= i < |s.chain| ==> Known(s, i))
  }

  lemma InitInv(p: Setup)
    requires p.Valid()
    ensures Inv(p, InitState(p))
  {
    hide ChainInv, Represents;
    RootInv(p.P, p.keyMax);
    var s := InitState(p);
    assert s.chain[0].addr == 0 && s.chain[0].lo == KEY_MIN;
    assert V.FlatLevel([]) == [];
  }

  // ---------------------------------------------------------------- answers

  /** Whatever node of the level a search starts at, at or left of k, its answer guides to the leaf of k. */
  lemma AnswerGuides(p: Setup, s: State, i: nat, k: Key, a: Answer)
    requires Inv(p, s) && KEY_MIN <= k < p.keyMax && Says(p, s, i, k, a)
    ensures Guides(s.chain, k, a)
  {
    hide ChainInv, Represents, V.LevelInv, V.Walk, Named, V.FlatLevel;
    if s.level != [] {
      V.WalkIsFloor(p.span, s.level, i, k);
      FloorGuides(s.chain, V.FlatLevel(s.level), k, a);
    }
  }

  lemma FloorGuides(chain: Chain, fs: seq<N.Separator>, k: Key, a: Answer)
    requires NamesLeaves(chain, fs) && |fs| > 0 && fs[0].key <= k && IsAnswer(N.FloorPair(fs, k, N.NULL), a)
    ensures Guides(chain, k, a)
  {
    hide Named;
    var j := Above(fs, k, 0);
    assert Named(chain, fs[j - 1].key, a.leaf);
    if j < |fs| {
      assert Named(chain, fs[j].key, a.next.addr);
    }
  }

  // ---------------------------------------------------------------- leaf operations

  lemma CallIsClean(p: Setup, s: State, call: Call, a: Answer)
    requires Inv(p, s) && Enabled(p, s, Leaf(call, a))
    ensures Clean(p.P, p.keyMax, s.chain, call)
  {
    hide ChainInv, Represents, Guides, Enters, Allowed, ChainStored, LevelOver;
    assert AskedInv(p, s, Asked(call.op.key, a));
    InvStored(p.P, s.chain, p.keyMax);
    GuidesEnter(p.P, s.chain, p.keyMax, call.op.key, a, call.start);
  }

  /** No assert of a leaf operation fails, whatever earlier answer of an inner node it goes by. */
  lemma LeafGoesThrough(p: Setup, s: State, call: Call, a: Answer)
    requires Inv(p, s) && Enabled(p, s, Leaf(call, a))
    ensures Do(p.P, p.keyMax, s.chain, call).Some?
  {
    hide ChainInv, Represents, Clean, LevelOver;
    CallIsClean(p, s, call, a);
    CallKeeps(p.P, p.keyMax, s.chain, s.store, call);
  }

  /** chain' is chain with one leaf replaced by one or two. */
  ghost predicate Grew(chain: Chain, chain': Chain, r: nat, ns: seq<Node>) {
    r < |chain| && TakesPlace(chain[r], |chain|, ns) && chain' == Spliced(chain, r, ns)
  }

  lemma NewLeafIs(P: Params, chain: Chain, chain': Chain, keyMax: Key, r: nat, ns: seq<Node>)
    requires Linked(chain, keyMax) && Linked(chain', keyMax) && Grew(chain, chain', r, ns)
    ensures NewLeaf(chain, chain') == if |ns| == 2 then {Owed(ns[1].lo, |chain|)} else {}
  {
    var j := IndexOf(chain', |chain|, 0);
    if |ns| == 2 {
      assert chain'[r + 1] == ns[1];
      assert j == r + 1;
    } else {
      assert |chain'| == |chain|;
    }
  }

  lemma LeafStep(p: Setup, s: State, call: Call, a: Answer)
    requires Inv(p, s) && Enabled(p, s, Leaf(call, a))
    ensures Inv(p, Next(p, s, Leaf(call, a)))
  {
    hide Represents, Clean, NodeInv, Linked, NamesLeaves, OwedInv, AskedInv, Known, Named, Do, V.FlatLevel, NewLeaf;
    CallIsClean(p, s, call, a);
    CallKeeps(p.P, p.keyMax, s.chain, s.store, call);
    var s' := Next(p, s, Leaf(call, a));
    var r, ns := CallSplices(p.P, p.keyMax, s.chain, s.store, call);
    NewLeafIs(p.P, s.chain, s'.chain, p.keyMax, r, ns);
    GrewKeeps(p, s, s', r, ns);
  }

  lemma GrewKeeps(p: Setup, s: State, s': State, r: nat, ns: seq<Node>)
    requires Inv(p, s) && Grew(s.chain, s'.chain, r, ns) && s'.level == s.level && s'.said == s.said
    requires s'.owed == s.owed + if |ns| == 2 then {Owed(ns[1].lo, |s.chain|)} else {}
    requires ChainInv(p.P, s'.chain, p.keyMax) && Represents(s'.chain, s'.store)
    ensures Inv(p, s')
  {
    hide Represents, ChainInv, Named, V.FlatLevel, V.LevelInv, TakesPlace, Guides;
    var fs := V.FlatLevel(s.level);
    NamedStays(s.chain, r, ns, KEY_MIN, 0);
    forall j | 0 <= j < |fs| ensures Named(s'.chain, fs[j].key, fs[j].value - 1) {
      NamedStays(s.chain, r, ns, fs[j].key, fs[j].value - 1);
    }
    forall o | o in s'.owed ensures OwedInv(s', o) {
      if o in s.owed {
        NamedStays(s.chain, r, ns, o.key, o.addr);
      } else {
        NewOwed(p, s, s', r, ns);
      }
    }
    forall q | q in s'.said ensures AskedInv(p, s', q) {
      assert AskedInv(p, s, q);
      GuidesStay(s.chain, r, ns, q.key, q.answer);
    }
    forall i | 0 <= i < |s'.chain| ensures Known(s', i) {
      KnownStays(s, s', r, ns, i);
    }
  }

  lemma NewOwed(p: Setup, s: State, s': State, r: nat, ns: seq<Node>)
    requires Inv(p, s) && Grew(s.chain, s'.chain, r, ns) && s'.level == s.level && |ns| == 2
    requires ChainInv(p.P, s'.chain, p.keyMax)
    ensures OwedInv(s', Owed(ns[1].lo, |s.chain|))
  {
    hide Represents, V.FlatLevel, V.LevelInv, NodeInv;
    var fs, n := V.FlatLevel(s.level), |s.chain|;
    assert s'.chain[r + 1] == ns[1];
    InvStored(p.P, s'.chain, p.keyMax);
    AboveLeast(p.P, s'.chain, p.keyMax, r + 1);
    forall j | 0 <= j < |fs| ensures fs[j].value != Child(n) {
      assert Named(s.chain, fs[j].key, fs[j].value - 1);
    }
  }

  lemma AboveLeast(P: Params, chain: Chain, keyMax: Key, i: nat)
    requires ChainStored(P, chain, keyMax) && 0 < i < |chain|
    ensures chain[i].lo > KEY_MIN
  {
    hide Stored;
    RangesOrdered(P, chain, keyMax, 0, i);
    NodeRange(P, chain[0]);
  }

  lemma KnownStays(s: State, s': State, r: nat, ns: seq<Node>, i: nat)
    requires Grew(s.chain, s'.chain, r, ns) && s'.level == s.level && i < |s'.chain|
    requires s'.owed == s.owed + if |ns| == 2 then {Owed(ns[1].lo, |s.chain|)} else {}
    requires forall j :: 0 <= j < |s.chain| ==> Known(s, j)
    ensures Known(s', i)
  {
    hide V.FlatLevel, Listed;
    if i < r {
      assert s'.chain[i] == s.chain[i] && Known(s, i);
    } else if i < r + |ns| {
      assert s'.chain[i] == ns[i - r] && Known(s, r);
    } else {
      assert s'.chain[i] == s.chain[i - |ns| + 1] && Known(s, i - |ns| + 1);
    }
  }

  // ---------------------------------------------------------------- separators

  /** The children of a node are children of its level. */
  lemma {:induction false} ChildOfLevel(l: V.Level, i: nat, j: nat) returns (x: nat)
    requires i < |l| && j < |N.Flat(l[i].node)|
    ensures x < |V.FlatLevel(l)| && V.FlatLevel(l)[x] == N.Flat(l[i].node)[j]
    decreases i
  {
    if i == 0 {
      x := j;
    } else {
      var y := ChildOfLevel(l[1..], i - 1, j);
      x := |N.Flat(l[0].node)| + y;
    }
  }

  /** The separator of a leaf split is new to the level, so the asserts of internal_node_insert hold: the node
      that covers it starts below it and has no entry with that key. */
  lemma PublishAsserts(p: Setup, s: State, o: Owed, i: nat, at: N.Addr)
    requires Inv(p, s) && Enabled(p, s, Publish(o, i, at))
    ensures V.Fits(s.level[i].node, SeparatorOf(o))
  {
    hide ChainInv, Represents, V.FlatLevel, V.LevelInv, Named, N.NodeInv;
    var n, fs := s.level[i].node, V.FlatLevel(s.level);
    assert OwedInv(s, o);
    InvStored(p.P, s.chain, p.keyMax);
    forall j | 0 <= j < |N.Flat(n)| ensures N.Flat(n)[j].key != o.key {
      var x := ChildOfLevel(s.level, i, j);
      if fs[x].key == o.key {
        NamedOnce(p.P, s.chain, p.keyMax, o.key, o.addr, fs[x].value - 1);
        assert false;
      }
    }
    assert N.Flat(n)[0].key == n.lowest;
    forall j | 0 <= j < |n.records| ensures n.records[j].key != o.key {
      assert N.Flat(n)[j + 1] == n.records[j];
    }
  }

  lemma ShiftHolds<T>(fs: seq<Keyed<T>>, x: Keyed<T>, y: Keyed<T>)
    ensures y in N.Shift(fs, x) <==> y in fs || y == x
  {
    var i := Above(fs, x.key, 0);
    assert fs == fs[..i] + fs[i..];
  }

  lemma InsertEnds(span: nat, l: V.Level, i: nat, x: N.Separator, at: N.Addr)
    requires i < |l| && l[i].node.records != []
    ensures var r := V.InsertAt(span, l, i, x, at);
            r != [] && r[0].node.lowest == l[0].node.lowest && V.Highest(r) == V.Highest(l)
  {
    hide N.Shift;
  }

  /** s' is s with the separator of o moved from owed to the level. */
  ghost predicate Moves(s: State, s': State, o: Owed) {
    && s'.chain == s.chain && s'.store == s.store && s'.said == s.said && o in s.owed && s'.owed == s.owed - {o}
    && (forall y :: y in V.FlatLevel(s'.level) <==>
          (y in V.FlatLevel(s.level) || y == SeparatorOf(o) || (s.level == [] && y == Keyed(KEY_MIN, Child(0)))))
  }

  lemma MovesKeeps(p: Setup, s: State, s': State, o: Owed)
    requires Inv(p, s) && Moves(s, s', o) && s'.level != [] && V.LevelInv(p.span, s'.level)
    requires s'.level[0].node.lowest == KEY_MIN && V.Highest(s'.level) == p.keyMax
    ensures Inv(p, s')
  {
    hide ChainInv, Represents, V.FlatLevel, V.LevelInv, Named, AskedInv;
    var fs, fs' := V.FlatLevel(s.level), V.FlatLevel(s'.level);
    assert OwedInv(s, o);
    forall j | 0 <= j < |fs'| ensures fs'[j].value != N.NULL && Named(s.chain, fs'[j].key, fs'[j].value - 1) {
      assert fs'[j] in fs';
    }
    forall u | u in s'.owed ensures OwedInv(s', u) {
      OtherOwed(p, s, s', o, u);
    }
    forall q | q in s'.said ensures AskedInv(p, s', q) {
      assert AskedInv(p, s, q);
      SameAsked(p, s, s', q);
    }
    forall i | 0 <= i < |s'.chain| ensures Known(s', i) {
      MovesKnown(s, s', o, i);
    }
  }

  lemma SameAsked(p: Setup, s: State, s': State, q: Asked)
    requires AskedInv(p, s, q) && s'.chain == s.chain
    ensures AskedInv(p, s', q)
  {}

  lemma OtherOwed(p: Setup, s: State, s': State, o: Owed, u: Owed)
    requires Inv(p, s) && Moves(s, s', o) && u in s'.owed
    ensures OwedInv(s', u)
  {
    hide ChainInv, Represents, V.FlatLevel, V.LevelInv, Named, LevelOver;
    var fs, fs' := V.FlatLevel(s.level), V.FlatLevel(s'.level);
    assert OwedInv(s, o) && OwedInv(s, u);
    if Listed(fs', u.addr) {
      var j :| 0 <= j < |fs'| && fs'[j].value == Child(u.addr);
      assert fs'[j] in fs';
      if fs'[j] == SeparatorOf(o) {
        SameName(p.P, s.chain, p.keyMax, o.key, u.key, u.addr);
      }
    }
  }

  lemma SameName(P: Params, chain: Chain, keyMax: Key, k: Key, k': Key, addr: nat)
    requires ChainInv(P, chain, keyMax) && Named(chain, k, addr) && Named(chain, k', addr)
    ensures k == k'
  {
    hide NodeInv;
  }

  lemma MovesKnown(s: State, s': State, o: Owed, i: nat)
    requires Moves(s, s', o) && i < |s.chain| && Known(s, i)
    ensures Known(s', i)
  {
    hide V.FlatLevel;
    var fs, fs', addr := V.FlatLevel(s.level), V.FlatLevel(s'.level), s.chain[i].addr;
    if Listed(fs, addr) {
      var j :| 0 <= j < |fs| && fs[j].value == Child(addr);
      assert fs[j] in fs';
    } else if o == Owed(s.chain[i].lo, addr) {
      assert SeparatorOf(o) in fs';
    } else if s.level == [] && addr == 0 {
      assert Keyed(KEY_MIN, Child(0)) in fs';
    }
  }

  lemma PublishStep(p: Setup, s: State, o: Owed, i: nat, at: N.Addr)
    requires Inv(p, s) && Enabled(p, s, Publish(o, i, at))
    ensures Inv(p, Next(p, s, Publish(o, i, at)))
  {
    hide ChainInv, Represents, V.FlatLevel, V.LevelInv, NamesLeaves, V.InsertAt, OwedInv, AskedInv, Known;
    PublishAsserts(p, s, o, i, at);
    var x, s' := SeparatorOf(o), Next(p, s, Publish(o, i, at));
    V.InsertKeepsInv(p.span, s.level, i, x, at);
    V.InsertIsShift(p.span, s.level, i, x, at);
    InsertEnds(p.span, s.level, i, x, at);
    forall y ensures y in V.FlatLevel(s'.level) <==> y in V.FlatLevel(s.level) || y == x {
      ShiftHolds(V.FlatLevel(s.level), x, y);
    }
    MovesKeeps(p, s, s', o);
  }

  lemma GrowStep(p: Setup, s: State, o: Owed, at: N.Addr)
    requires Inv(p, s) && Enabled(p, s, Grow(o, at))
    ensures Inv(p, Next(p, s, Grow(o, at)))
  {
    hide ChainInv, Represents, NamesLeaves, AskedInv, Known;
    assert OwedInv(s, o);
    var s' := Next(p, s, Grow(o, at));
    InvStored(p.P, s.chain, p.keyMax);
    BelowTop(p.P, s.chain, p.keyMax, o.key, o.addr);
    var n := s'.level[0].node;
    assert N.Flat(n) == [Keyed(KEY_MIN, Child(0)), SeparatorOf(o)];
    assert s'.level[1..] == [];
    assert V.FlatLevel(s'.level) == N.Flat(n);
    MovesKeeps(p, s, s', o);
  }

  lemma BelowTop(P: Params, chain: Chain, keyMax: Key, key: Key, addr: nat)
    requires ChainStored(P, chain, keyMax) && Named(chain, key, addr)
    ensures key < keyMax
  {
    hide Stored;
    var i :| 0 <= i < |chain| && chain[i].addr == addr && chain[i].lo == key;
    NodeRange(P, chain[i]);
    if i + 1 < |chain| {
      RangesOrdered(P, chain, keyMax, i, |chain| - 1);
      NodeRange(P, chain[|chain| - 1]);
    }
  }

  lemma StepKeeps(p: Setup, s: State, step: Step)
    requires Inv(p, s) && Enabled(p, s, step)
    ensures Inv(p, Next(p, s, step))
  {
    hide ChainInv, Represents, LevelOver, OwedInv, Known;
    match step
    case Ask(i, k, a) =>
      AnswerGuides(p, s, i, k, a);
      AskKeeps(p, s, k, a);
    case Leaf(call, a) => LeafStep(p, s, call, a);
    case Publish(o, i, at) => PublishStep(p, s, o, i, at);
    case Grow(o, at) => GrowStep(p, s, o, at);
  }

  lemma AskKeeps(p: Setup, s: State, k: Key, a: Answer)
    requires Inv(p, s) && KEY_MIN <= k < p.keyMax && Guides(s.chain, k, a)
    ensures Inv(p, s.(said := s.said + {Asked(k, a)}))
  {
    hide ChainInv, Represents, Guides, Named, V.FlatLevel, V.LevelInv;
    var s' := s.(said := s.said + {Asked(k, a)});
    forall o | o in s'.owed ensures OwedInv(s', o) {
      assert OwedInv(s, o);
    }
    forall q | q in s'.said ensures AskedInv(p, s', q) {
      if q in s.said {
        assert AskedInv(p, s, q);
      }
    }
    forall i | 0 <= i < |s'.chain| ensures Known(s', i) {
      assert Known(s, i);
    }
  }

  // ---------------------------------------------------------------- runs

  ghost predicate Performs(p: Setup, s: State, step: Step, s': State) {
    Enabled(p, s, step) && s' == Next(p, s, step)
  }

  ghost predicate Follows(p: Setup, s: State, s': State) {
    exists step :: Performs(p, s, step, s')
  }

  /** A run from the root leaf. */
  ghost predicate Run(p: Setup, run: seq<State>) {
    && p.Valid() && |run| > 0 && run[0] == InitState(p)
    && forall t :: 0 < t < |run| ==> Follows(p, run[t - 1], run[t])
  }

  lemma {:induction false} RunInv(p: Setup, run: seq<State>, t: nat)
    requires Run(p, run) && t < |run|
    ensures Inv(p, run[t])
  {
    hide Inv, Enabled, Next;
    if t == 0 {
      InitInv(p);
    } else {
      RunInv(p, run, t - 1);
      assert Follows(p, run[t - 1], run[t]);
      var step :| Performs(p, run[t - 1], step, run[t]);
      StepKeeps(p, run[t - 1], step);
    }
  }

  /** In every reachable state, a search that goes by any answer an inner node ever gave for its key returns
      what the store holds for that key, and nothing else. */
  lemma SearchCorrect(p: Setup, run: seq<State>, t: nat, k: Key, a: Answer, i: nat, r: ReadResult)
    requires Run(p, run) && t < |run| && Asked(k, a) in run[t].said
    requires i < |run[t].chain| && run[t].chain[i].addr == a.leaf
    ensures ChainParts(p.P, run[t].chain) && Linked(run[t].chain, p.keyMax)
    ensures SearchAnswers(p.P, p.keyMax, run[t].chain, k, i, a.next, r) <==> r == Wanted(run[t].store, k)
  {
    hide Run, ChainInv, Represents, LevelOver, OwedInv, Known, Guides, SearchAnswers, Enters;
    RunInv(p, run, t);
    var s := run[t];
    assert AskedInv(p, s, Asked(k, a));
    InvStored(p.P, s.chain, p.keyMax);
    GuidesEnter(p.P, s.chain, p.keyMax, k, a, i);
    SearchFinds(p.P, p.keyMax, s.chain, s.store, k, i, a.next, r);
    ChainReady(p.P, s.chain, p.keyMax);
  }

  // ---------------------------------------------------------------- everything published

  /** The children a level should have. */
  function Leaves(chain: Chain): (fs: seq<N.Separator>)
    ensures |fs| == |chain|
  {
    seq(|chain|, i requires 0 <= i < |chain| => Keyed(chain[i].lo, Child(chain[i].addr)))
  }

  /** Two ascending lists with the same elements are equal. */
  lemma {:induction false} SameAscending<T(!new)>(a: seq<Keyed<T>>, b: seq<Keyed<T>>)
    requires Ascending(a) && Ascending(b) && forall y :: y in a <==> y in b
    ensures a == b
    decreases |a|
  {
    assert |a| > 0 ==> a[0] in b;
    assert |b| > 0 ==> b[0] in a;
    if a != [] {
      var i :| 0 <= i < |b| && b[i] == a[0];
      var j :| 0 <= j < |a| && a[j] == b[0];
      assert i == 0 && j == 0;
      forall y ensures y in a[1..] <==> y in b[1..] {
        TailOf(a, y);
        TailOf(b, y);
      }
      SameAscending(a[1..], b[1..]);
      assert a == [a[0]] + a[1..] && b == [b[0]] + b[1..];
    }
  }

  lemma TailOf<T>(a: seq<Keyed<T>>, y: Keyed<T>)
    requires Ascending(a) && |a| > 0
    ensures y in a[1..] <==> y in a && y != a[0]
  {
    if y in a[1..] {
      var i :| 0 <= i < |a[1..]| && a[1..][i] == y;
      assert a[i + 1] == y;
    }
    if y in a && y != a[0] {
      var i :| 0 <= i < |a| && a[i] == y;
      assert a[1..][i - 1] == y;
    }
  }

  /** Once nothing is owed, the children of the level are exactly the leaves of the chain, in order. */
  lemma AllPublished(p: Setup, run: seq<State>, t: nat)
    requires Run(p, run) && t < |run| && run[t].owed == {} && run[t].level != []
    ensures V.FlatLevel(run[t].level) == Leaves(run[t].chain)
  {
    hide Run, Represents, V.FlatLevel, V.LevelInv, NodeInv, Linked;
    RunInv(p, run, t);
    var s := run[t];
    var fs, ls := V.FlatLevel(s.level), Leaves(s.chain);
    V.FlatLevelAscending(p.span, s.level);
    InvStored(p.P, s.chain, p.keyMax);
    LeavesAscending(p.P, s.chain, p.keyMax);
    forall y ensures y in fs <==> y in ls {
      if y in fs {
        var j :| 0 <= j < |fs| && fs[j] == y;
        var i :| 0 <= i < |s.chain| && s.chain[i].addr == y.value - 1 && s.chain[i].lo == y.key;
        assert ls[i] == y;
      }
      if y in ls {
        var i :| 0 <= i < |ls| && ls[i] == y;
        assert Known(s, i);
        ListedSame(p, s, i);
      }
    }
    SameAscending(fs, ls);
  }

  lemma ListedSame(p: Setup, s: State, i: nat)
    requires Inv(p, s) && i < |s.chain| && Listed(V.FlatLevel(s.level), s.chain[i].addr)
    ensures Leaves(s.chain)[i] in V.FlatLevel(s.level)
  {
    hide ChainInv, Represents, V.FlatLevel, V.LevelInv;
    var fs, addr := V.FlatLevel(s.level), s.chain[i].addr;
    var j :| 0 <= j < |fs| && fs[j].value == Child(addr);
    assert Named(s.chain, s.chain[i].lo, addr);
    SameName(p.P, s.chain, p.keyMax, fs[j].key, s.chain[i].lo, addr);
    assert fs[j] == Leaves(s.chain)[i];
  }

  lemma LeavesAscending(P: Params, chain: Chain, keyMax: Key)
    requires ChainStored(P, chain, keyMax)
    ensures Ascending(Leaves(chain))
  {
    hide Stored, Linked;
    forall i, j | 0 <= i < j < |chain| ensures chain[i].lo < chain[j].lo {
      RangesOrdered(P, chain, keyMax, i, j);
      NodeRange(P, chain[i]);
    }
  }
}
