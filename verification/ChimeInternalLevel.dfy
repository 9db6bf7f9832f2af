/** A level of CHIME internal nodes as a chain: what inserting separators does to it over any sequence
    of insertions and splits, and what searches with right-moves find in it. */
module ChimeInternalLevel {

  import opened Common
  import opened KeyOrder
  import opened ChimeInternal

  datatype Located = Located(addr: Addr, node: Inner)

  type Level = seq<Located>

  function Highest(l: Level): (k: Key)
    requires l != []
  {
    l[|l| - 1].node.highest
  }

  ghost predicate NodesInv(span: nat, l: Level) {
    forall i :: 0 <= i < |l| ==> NodeInv(l[i].node) && 0 < |l[i].node.records| <= span
  }

  /** n is followed by m: its right sibling, and the child after its last child. */
  predicate Before(n: Inner, m: Located) {
    n.highest == m.node.lowest && n.sibling == m.addr && n.siblingLeftmost == m.node.leftmost
  }

  ghost predicate Chained(l: Level) {
    && (forall i :: 0 <= i < |l| - 1 ==> Before(l[i].node, l[i + 1]))
    && (l != [] ==> l[|l| - 1].node.sibling == NULL && l[|l| - 1].node.siblingLeftmost == NULL)
  }

  ghost predicate Addressed(l: Level) {
    && (forall i :: 0 <= i < |l| ==> l[i].addr != NULL)
    && (forall i, j :: 0 <= i < j < |l| ==> l[i].addr != l[j].addr)
  }

  ghost predicate LevelInv(span: nat, l: Level) {
    span >= 3 && l != [] && NodesInv(span, l) && Chained(l) && Addressed(l)
  }

  /** at is newly allocated. */
  ghost predicate Unused(l: Level, at: Addr) {
    at != NULL && forall i :: 0 <= i < |l| ==> l[i].addr != at
  }

  /** All children of the level, in key order. */
  function FlatLevel(l: Level): (fs: seq<Separator>)
    ensures l != [] ==> |fs| > 0 && fs[0].key == l[0].node.lowest && fs[0].value == l[0].node.leftmost
  {
    if l == [] then [] else Flat(l[0].node) + FlatLevel(l[1..])
  }

  lemma TailInv(span: nat, l: Level)
    requires LevelInv(span, l) && |l| > 1
    ensures LevelInv(span, l[1..]) && Highest(l[1..]) == Highest(l) && Before(l[0].node, l[1])
    ensures NodeInv(l[0].node)
  {}

  lemma {:induction false} FlatLevelAscending(span: nat, l: Level)
    requires LevelInv(span, l)
    ensures Ascending(FlatLevel(l))
    ensures forall i :: 0 <= i < |FlatLevel(l)| ==> FlatLevel(l)[i].key < Highest(l)
  {
    var a := Flat(l[0].node);
    if |l| == 1 {
      assert FlatLevel(l[1..]) == [];
      assert FlatLevel(l) == a;
    } else {
      TailInv(span, l);
      FlatLevelAscending(span, l[1..]);
      JoinAscending(a, FlatLevel(l[1..]), l[0].node.highest, Highest(l));
    }
  }

  lemma JoinAscending<V>(a: seq<Keyed<V>>, b: seq<Keyed<V>>, mid: Key, top: Key)
    requires Ascending(a) && Ascending(b) && b != [] && b[0].key == mid
    requires forall i :: 0 <= i < |a| ==> a[i].key < mid
    requires forall i :: 0 <= i < |b| ==> b[i].key < top
    ensures Ascending(a + b) && forall i :: 0 <= i < |a + b| ==> (a + b)[i].key < top
  {}

  // ---------------------------------------------------------------- inserting a separator

  /** internal_node_insert once the node that covers x.key is found and locked. */
  function InsertAt(span: nat, l: Level, i: nat, x: Separator, at: Addr): (r: Level)
    requires i < |l| && (|l[i].node.records| < span || l[i].node.records != [])
  {
    var n := l[i].node;
    if |n.records| < span then l[i := l[i].(node := n.(records := Shift(n.records, x)))]
    else
      var p := Split(n, x, at);
      l[..i] + [Located(l[i].addr, p.node), Located(at, p.sibling)] + l[i + 1..]
  }

  /** The separator of a child that was split lies above the least key of its node and is new there. */
  ghost predicate Fits(n: Inner, x: Separator) {
    n.lowest < x.key < n.highest && !HasKey(n.records, x.key)
  }

  lemma ShiftNode(n: Inner, x: Separator)
    requires NodeInv(n) && Fits(n, x)
    ensures NodeInv(n.(records := Shift(n.records, x)))
  {
    ShiftFlat(n, x);
    KeyOfFlat(n, x.key);
    ShiftAscending(Flat(n), x);
    ShiftBelow(Flat(n), x, n.highest);
  }

  lemma InsertKeepsInv(span: nat, l: Level, i: nat, x: Separator, at: Addr)
    requires LevelInv(span, l) && i < |l| && Fits(l[i].node, x) && Unused(l, at)
    ensures LevelInv(span, InsertAt(span, l, i, x, at))
    ensures |InsertAt(span, l, i, x, at)| == |l| + if |l[i].node.records| == span then 1 else 0
  {
    var n := l[i].node;
    var r := InsertAt(span, l, i, x, at);
    if |n.records| < span {
      ShiftNode(n, x);
    } else {
      SplitInv(n, x, at);
      SplitHeads(n, x, at);
      SplitSizes(n, x, at);
      SpliceInv(span, l, i, Split(n, x, at), at, r);
    }
  }

  lemma SplitSizes(n: Inner, x: Separator, at: Addr)
    requires |n.records| >= 3
    ensures var p := Split(n, x, at);
            0 < |p.node.records| <= |n.records| && 0 < |p.sibling.records| <= |n.records|
  {}

  lemma SpliceInv(span: nat, l: Level, i: nat, p: Pieces, at: Addr, r: Level)
    requires LevelInv(span, l) && i < |l| && Unused(l, at)
    requires r == l[..i] + [Located(l[i].addr, p.node), Located(at, p.sibling)] + l[i + 1..]
    requires NodeInv(p.node) && NodeInv(p.sibling) && 0 < |p.node.records| <= span && 0 < |p.sibling.records| <= span
    requires Before(p.node, Located(at, p.sibling))
    requires p.node.lowest == l[i].node.lowest && p.node.leftmost == l[i].node.leftmost
    requires p.sibling.highest == l[i].node.highest && p.sibling.sibling == l[i].node.sibling
    requires p.sibling.siblingLeftmost == l[i].node.siblingLeftmost
    ensures LevelInv(span, r)
  {}

  /** Inserting changes the list of children by the new one only. */
  lemma {:induction false} InsertIsShift(span: nat, l: Level, i: nat, x: Separator, at: Addr)
    requires LevelInv(span, l) && i < |l| && Fits(l[i].node, x) && Unused(l, at)
    ensures FlatLevel(InsertAt(span, l, i, x, at)) == Shift(FlatLevel(l), x)
    decreases i
  {
    hide NodeInv, Split, Shift;
    FlatLevelAscending(span, l);
    var r := InsertAt(span, l, i, x, at);
    var a, b := Flat(l[0].node), FlatLevel(l[1..]);
    if i == 0 {
      InsertFirst(span, l, x, at);
      if |l| > 1 {
        TailInv(span, l);
        ShiftConcat(a, b, x);
      } else {
        assert b == [] && a + b == a;
      }
    } else {
      TailInv(span, l);
      InsertIsShift(span, l[1..], i - 1, x, at);
      assert r[0] == l[0];
      assert r[1..] == InsertAt(span, l[1..], i - 1, x, at);
      LowestRise(span, l[1..], i - 1);
      ShiftConcat(a, b, x);
    }
  }

  lemma InsertFirst(span: nat, l: Level, x: Separator, at: Addr)
    requires LevelInv(span, l) && Fits(l[0].node, x)
    ensures FlatLevel(InsertAt(span, l, 0, x, at)) == Shift(Flat(l[0].node), x) + FlatLevel(l[1..])
  {
    hide Split, Shift;
    var n := l[0].node;
    var r := InsertAt(span, l, 0, x, at);
    if |n.records| < span {
      ShiftFlat(n, x);
      assert r[1..] == l[1..];
    } else {
      SplitFlat(n, x, at);
      var p := Split(n, x, at);
      assert r[0].node == p.node && r[1..][0].node == p.sibling && r[1..][1..] == l[1..];
      assert FlatLevel(r) == Flat(p.node) + (Flat(p.sibling) + FlatLevel(l[1..]));
    }
  }

  lemma {:induction false} LowestRise(span: nat, l: Level, i: nat)
    requires LevelInv(span, l) && i < |l|
    ensures l[0].node.lowest <= l[i].node.lowest
  {
    if i > 0 {
      LowestRise(span, l, i - 1);
      assert Before(l[i - 1].node, l[i]);
      assert Flat(l[i - 1].node)[0].key < l[i - 1].node.highest;
    }
  }

  // ---------------------------------------------------------------- searching

  /** The node at an address, from index i on; |l| if there is none. */
  function IndexOf(l: Level, addr: Addr, i: nat): (r: nat)
    requires i <= |l|
    ensures i <= r <= |l| && (r < |l| ==> l[r].addr == addr)
    ensures forall j :: i <= j < r ==> l[j].addr != addr
    decreases |l| - i
  {
    if i == |l| || l[i].addr == addr then i else IndexOf(l, addr, i + 1)
  }

  lemma SiblingIsNext(span: nat, l: Level, i: nat)
    requires LevelInv(span, l) && i < |l|
    ensures IndexOf(l, l[i].node.sibling, 0) == i + 1
  {
    if i + 1 < |l| {
      assert Before(l[i].node, l[i + 1]);
    }
  }

  /** Nodes that end at or before q send the search to the sibling they name. */
  ghost function Walk(span: nat, l: Level, i: nat, q: Key): (r: Route)
    requires LevelInv(span, l) && i < |l|
    decreases |l| - i
  {
    if q < l[i].node.highest then Search(l[i].node, q)
    else
      SiblingIsNext(span, l, i);
      var j := IndexOf(l, l[i].node.sibling, 0);
      if j == |l| then Route(NULL, NULL) else Walk(span, l, j, q)
  }

  /** The same by position. */
  function WalkOn(l: Level, i: nat, q: Key): (r: Route)
    requires i < |l|
    decreases |l| - i
  {
    if q < l[i].node.highest || i + 1 == |l| then Search(l[i].node, q) else WalkOn(l, i + 1, q)
  }

  lemma {:induction false} WalkIsOn(span: nat, l: Level, i: nat, q: Key)
    requires LevelInv(span, l) && i < |l| && q < Highest(l)
    ensures Walk(span, l, i, q) == WalkOn(l, i, q)
    decreases |l| - i
  {
    hide NodesInv, Chained, Addressed, Search;
    SiblingIsNext(span, l, i);
    if q >= l[i].node.highest && i + 1 < |l| {
      WalkIsOn(span, l, i + 1, q);
    }
  }

  lemma {:induction false} WalkTail(l: Level, i: nat, q: Key)
    requires 0 < i < |l|
    ensures WalkOn(l, i, q) == WalkOn(l[1..], i - 1, q)
    decreases |l| - i
  {
    assert l[1..][i - 1] == l[i];
    if i + 1 < |l| {
      WalkTail(l, i + 1, q);
    }
  }

  lemma {:induction false} WalkOnIsFloor(span: nat, l: Level, i: nat, q: Key)
    requires LevelInv(span, l) && i < |l| && l[i].node.lowest <= q < Highest(l)
    ensures FlatLevel(l)[0].key <= q
    ensures WalkOn(l, i, q) == FloorPair(FlatLevel(l), q, NULL)
    decreases |l|, |l| - i
  {
    hide NodeInv, Search;
    FlatLevelAscending(span, l);
    LowestRise(span, l, i);
    var a, b := Flat(l[0].node), FlatLevel(l[1..]);
    if |l| == 1 {
      assert b == [] && FlatLevel(l) == a;
      SearchIsFloor(l[0].node, q);
    } else {
      TailInv(span, l);
      FloorConcat(a, b, q, NULL);
      if i > 0 {
        LowestRise(span, l[1..], i - 1);
        WalkTail(l, i, q);
        WalkOnIsFloor(span, l[1..], i - 1, q);
      } else if q < l[0].node.highest {
        SearchIsFloor(l[0].node, q);
      } else {
        WalkTail(l, 1, q);
        WalkOnIsFloor(span, l[1..], 0, q);
      }
    }
  }

  /** Wherever the search starts at or left of q, it answers as the whole list of children does: the
      child for q and the one that follows it in the level. */
  lemma WalkIsFloor(span: nat, l: Level, i: nat, q: Key)
    requires LevelInv(span, l) && i < |l| && l[i].node.lowest <= q < Highest(l)
    ensures FlatLevel(l)[0].key <= q
    ensures Walk(span, l, i, q) == FloorPair(FlatLevel(l), q, NULL)
  {
    hide LevelInv, Walk, WalkOn, FloorPair;
    WalkIsOn(span, l, i, q);
    WalkOnIsFloor(span, l, i, q);
  }

  // ---------------------------------------------------------------- runs

  ghost predicate Inserts(span: nat, l: Level, x: Separator, r: Level) {
    exists i: nat, at: Addr :: InsertsAt(span, l, i, x, at, r)
  }

  ghost predicate InsertsAt(span: nat, l: Level, i: nat, x: Separator, at: Addr, r: Level) {
    && i < |l| && Fits(l[i].node, x) && l[i].node.records != [] && Unused(l, at)
    && r == InsertAt(span, l, i, x, at)
  }

  ghost predicate Run(span: nat, run: seq<Level>, xs: seq<Separator>) {
    && |run| == |xs| + 1 && LevelInv(span, run[0])
    && forall t :: 0 <= t < |xs| ==> Inserts(span, run[t], xs[t], run[t + 1])
  }

  function Shifts(fs: seq<Separator>, xs: seq<Separator>): (r: seq<Separator>) {
    if xs == [] then fs else Shift(Shifts(fs, xs[..|xs| - 1]), xs[|xs| - 1])
  }

  lemma {:induction false} RunKeeps(span: nat, run: seq<Level>, xs: seq<Separator>, t: nat)
    requires Run(span, run, xs) && t <= |xs|
    ensures LevelInv(span, run[t]) && FlatLevel(run[t]) == Shifts(FlatLevel(run[0]), xs[..t])
  {
    hide LevelInv, InsertAt, FlatLevel, Shift, Fits;
    if t > 0 {
      RunKeeps(span, run, xs, t - 1);
      assert Inserts(span, run[t - 1], xs[t - 1], run[t]);
      var i: nat, at: Addr :| InsertsAt(span, run[t - 1], i, xs[t - 1], at, run[t]);
      InsertKeepsInv(span, run[t - 1], i, xs[t - 1], at);
      InsertIsShift(span, run[t - 1], i, xs[t - 1], at);
      assert xs[..t][..t - 1] == xs[..t - 1];
    }
  }

  /** After any sequence of insertions, with whatever splits they cause, every search finds the child
      and the next child that the list of all separators inserted so far gives. */
  lemma RunRoutes(span: nat, run: seq<Level>, xs: seq<Separator>, t: nat, i: nat, q: Key)
    requires Run(span, run, xs) && t <= |xs|
    requires i < |run[t]| && run[t][i].node.lowest <= q < Highest(run[t])
    ensures LevelInv(span, run[t])
    ensures var fs := Shifts(FlatLevel(run[0]), xs[..t]);
            |fs| > 0 && fs[0].key <= q && Walk(span, run[t], i, q) == FloorPair(fs, q, NULL)
  {
    hide LevelInv, Walk, Shifts, FloorPair;
    RunKeeps(span, run, xs, t);
    WalkIsFloor(span, run[t], i, q);
  }
}
