/** CHIME internal nodes: separators in key order around a leftmost child, each node naming its right
    sibling and that sibling's leftmost child. Splits change the children of a level, read as one list,
    by the new separator only. */
module ChimeInternal {

  import opened Common
  import opened KeyOrder

  type Addr = nat

  const NULL: Addr := 0

  type Separator = Keyed<Addr>

  /** records are the entries with a key, in front of the null entries. */
  datatype Inner = Inner(lowest: Key, highest: Key, sibling: Addr, leftmost: Addr, siblingLeftmost: Addr,
                         records: seq<Separator>) {
    predicate Covers(k: Key) {
      lowest <= k < highest
    }
  }

  /** A child and the child after it. */
  datatype Route = Route(child: Addr, next: Addr)

  // ---------------------------------------------------------------- the code

  /** internal_node_search in a node that covers q. In a node without records the loop stops at the
      first null entry and answers with the null pointer in front of it. */
  function Search(n: Inner, q: Key): (r: Route) {
    var rs := n.records;
    if rs == [] then Route(NULL, n.siblingLeftmost)
    else if q < rs[0].key then Route(n.leftmost, rs[0].value)
    else
      var i := Above(rs, q, 1);
      Route(rs[i - 1].value, if i == |rs| then n.siblingLeftmost else rs[i].value)
  }

  /** shift_and_insert */
  function Shift<V>(rs: seq<Keyed<V>>, x: Keyed<V>): (r: seq<Keyed<V>>)
    ensures |r| == |rs| + 1
  {
    Splice(rs, Above(rs, x.key, 0), x)
  }

  function Splice<V>(rs: seq<Keyed<V>>, i: nat, x: Keyed<V>): (r: seq<Keyed<V>>)
    requires i <= |rs|
    ensures |r| == |rs| + 1
  {
    rs[..i] + [x] + rs[i..]
  }

  datatype Pieces = Pieces(node: Inner, sibling: Inner)

  /** node_split_and_unlock of a full internal node. */
  function Split(n: Inner, x: Separator, at: Addr): (p: Pieces)
    requires n.records != []
  {
    var m := |n.records| / 2;
    var splitKey := n.records[m].key;
    var left := if x.key < splitKey then Shift(n.records[..m], x) else n.records[..m];
    var right := if x.key < splitKey then n.records[m + 1..] else Shift(n.records[m + 1..], x);
    Pieces(n.(highest := splitKey, sibling := at, siblingLeftmost := n.records[m].value, records := left),
           Inner(splitKey, n.highest, n.sibling, n.records[m].value, n.siblingLeftmost, right))
  }

  // ---------------------------------------------------------------- children as one list

  /** Every child of n with the least key it is for. */
  function Flat(n: Inner): (fs: seq<Separator>)
    ensures |fs| == |n.records| + 1
  {
    [Keyed(n.lowest, n.leftmost)] + n.records
  }

  /** The child for q in a list of children, and the next one; end follows the list. */
  function FloorPair(fs: seq<Separator>, q: Key, end: Addr): (r: Route)
    requires |fs| > 0 && fs[0].key <= q
  {
    var j := Above(fs, q, 0);
    Route(fs[j - 1].value, if j == |fs| then end else fs[j].value)
  }

  lemma {:induction false} AboveIs<V>(fs: seq<Keyed<V>>, k: Key, i: nat, j: nat)
    requires Ascending(fs) && i <= j <= |fs|
    requires (j < |fs| ==> fs[j].key > k) && (i < j ==> fs[j - 1].key <= k)
    ensures Above(fs, k, i) == j
  {}

  lemma AscendingParts<V>(a: seq<Keyed<V>>, b: seq<Keyed<V>>)
    requires Ascending(a + b)
    ensures Ascending(a) && Ascending(b)
  {
    assert forall i :: 0 <= i < |a| ==> (a + b)[i] == a[i];
    assert forall i :: 0 <= i < |b| ==> (a + b)[|a| + i] == b[i];
  }

  lemma AboveConcat<V>(a: seq<Keyed<V>>, b: seq<Keyed<V>>, k: Key)
    requires Ascending(a + b) && Ascending(a) && Ascending(b) && b != []
    ensures Above(a + b, k, 0) == if b[0].key <= k then |a| + Above(b, k, 0) else Above(a, k, 0)
  {
    var j := if b[0].key <= k then |a| + Above(b, k, 0) else Above(a, k, 0);
    AboveIs(a + b, k, 0, j);
  }

  lemma SpliceLeft<V>(a: seq<Keyed<V>>, b: seq<Keyed<V>>, i: nat, x: Keyed<V>)
    requires i <= |a|
    ensures Splice(a + b, i, x) == Splice(a, i, x) + b
  {}

  lemma SpliceRight<V>(a: seq<Keyed<V>>, b: seq<Keyed<V>>, i: nat, x: Keyed<V>)
    requires i <= |b|
    ensures Splice(a + b, |a| + i, x) == a + Splice(b, i, x)
  {}

  /** Inserting into a list of children is inserting into the part the key belongs to. */
  lemma ShiftConcat<V>(a: seq<Keyed<V>>, b: seq<Keyed<V>>, x: Keyed<V>)
    requires Ascending(a + b) && b != []
    ensures Shift(a + b, x) == if b[0].key <= x.key then a + Shift(b, x) else Shift(a, x) + b
  {
    hide Ascending, Splice, Above;
    AscendingParts(a, b);
    AboveConcat(a, b, x.key);
    if b[0].key <= x.key {
      SpliceRight(a, b, Above(b, x.key, 0), x);
    } else {
      SpliceLeft(a, b, Above(a, x.key, 0), x);
    }
  }

  lemma ShiftAscending<V>(fs: seq<Keyed<V>>, x: Keyed<V>)
    requires Ascending(fs) && !HasKey(fs, x.key)
    ensures Ascending(Shift(fs, x))
  {}

  lemma ShiftFlat(n: Inner, x: Separator)
    requires Ascending(Flat(n)) && n.lowest < x.key
    ensures Flat(n.(records := Shift(n.records, x))) == Shift(Flat(n), x)
  {
    hide Ascending, Splice;
    var first := [Keyed(n.lowest, n.leftmost)];
    var i := Above(n.records, x.key, 0);
    SpliceRight(first, n.records, i, x);
    assert Above(Flat(n), x.key, 0) == 1 + i by {
      AboveFlat(n, x.key);
    }
  }

  lemma AboveFlat(n: Inner, q: Key)
    requires Ascending(Flat(n)) && n.lowest <= q
    ensures Above(Flat(n), q, 0) == 1 + Above(n.records, q, 0)
  {
    var i := Above(n.records, q, 0);
    assert forall j :: 0 <= j < |n.records| ==> Flat(n)[j + 1] == n.records[j];
    AboveIs(Flat(n), q, 0, 1 + i);
  }

  // ---------------------------------------------------------------- one node

  ghost predicate NodeInv(n: Inner) {
    && Ascending(Flat(n))
    && forall i :: 0 <= i < |n.records| + 1 ==> Flat(n)[i].key < n.highest
  }

  /** The search finds the child whose range holds q and the child after it, in every node that has
      records and in no other. */
  lemma SearchIsFloor(n: Inner, q: Key)
    requires NodeInv(n) && n.Covers(q)
    ensures n.records != [] ==> Search(n, q) == FloorPair(Flat(n), q, n.siblingLeftmost)
    ensures n.records == [] ==>
              Search(n, q).child == NULL && FloorPair(Flat(n), q, n.siblingLeftmost).child == n.leftmost
  {
    hide Ascending;
    NodeAscending(n);
    AboveFlat(n, q);
  }

  lemma CutFlat(n: Inner, m: nat)
    requires m < |n.records|
    ensures Flat(n) == Flat(n.(records := n.records[..m])) + n.records[m..]
    ensures [n.records[m]] + n.records[m + 1..] == n.records[m..]
  {}

  /** The children of the two nodes of a split are, in order, those of the node and the new one. */
  lemma SplitFlat(n: Inner, x: Separator, at: Addr)
    requires NodeInv(n) && n.records != [] && n.lowest < x.key < n.highest && !HasKey(n.records, x.key)
    ensures var p := Split(n, x, at);
            Flat(p.node) + Flat(p.sibling) == Shift(Flat(n), x)
  {
    var m := |n.records| / 2;
    var p := Split(n, x, at);
    CutFlat(n, m);
    var left := n.(records := n.records[..m]);
    var right := p.sibling.(records := n.records[m + 1..]);
    var a, b := Flat(left), Flat(right);
    assert b == n.records[m..];
    AscendingParts(a, b);
    ShiftConcat(a, b, x);
    assert n.records[m].key != x.key;
    if x.key < n.records[m].key {
      ShiftFlat(left, x);
    } else {
      ShiftFlat(right, x);
    }
  }

  lemma FloorConcat(a: seq<Separator>, b: seq<Separator>, q: Key, end: Addr)
    requires Ascending(a + b) && a != [] && b != [] && a[0].key <= q
    ensures FloorPair(a + b, q, end) == if b[0].key <= q then FloorPair(b, q, end) else FloorPair(a, q, b[0].value)
  {
    AscendingParts(a, b);
    AboveConcat(a, b, q);
  }

  /** The node, then its right sibling. */
  function TwoHop(p: Pieces, q: Key): (r: Route) {
    if q < p.node.highest then Search(p.node, q) else Search(p.sibling, q)
  }

  /** What the node would answer with the new separator inserted and no split. */
  function Unsplit(n: Inner, x: Separator, q: Key): (r: Route)
    requires n.lowest < x.key && n.lowest <= q
  {
    FloorPair(Flat(n.(records := Shift(n.records, x))), q, n.siblingLeftmost)
  }

  lemma SplitInv(n: Inner, x: Separator, at: Addr)
    requires NodeInv(n) && n.records != [] && n.lowest < x.key < n.highest && !HasKey(n.records, x.key)
    ensures var p := Split(n, x, at);
            && NodeInv(p.node) && NodeInv(p.sibling)
            && n.lowest < p.node.highest < n.highest
            && Ascending(Flat(p.node) + Flat(p.sibling))
  {
    var p := Split(n, x, at);
    SplitFlat(n, x, at);
    KeyOfFlat(n, x.key);
    ShiftAscending(Flat(n), x);
    var m := |n.records| / 2;
    assert Flat(n)[m + 1] == n.records[m] && Flat(n)[0].key == n.lowest;
    var a, b := Flat(p.node), Flat(p.sibling);
    AscendingParts(a, b);
    ShiftBelow(Flat(n), x, n.highest);
    forall i | 0 <= i < |a|
      ensures a[i].key < p.node.highest
    {
      assert (a + b)[i] == a[i] && (a + b)[|a|] == b[0];
    }
    forall i | 0 <= i < |b|
      ensures b[i].key < n.highest
    {
      assert (a + b)[|a| + i] == b[i];
    }
  }

  lemma KeyOfFlat(n: Inner, k: Key)
    requires n.lowest != k && !HasKey(n.records, k)
    ensures !HasKey(Flat(n), k)
  {}

  lemma ShiftBelow<V>(fs: seq<Keyed<V>>, x: Keyed<V>, top: Key)
    requires x.key < top && forall i :: 0 <= i < |fs| ==> fs[i].key < top
    ensures forall i :: 0 <= i < |fs| + 1 ==> Shift(fs, x)[i].key < top
  {}

  ghost predicate BothRecorded(p: Pieces) {
    p.node.records != [] && p.sibling.records != []
  }

  /** When both nodes keep a record, every key goes where the unsplit node would send it. */
  lemma SplitRoutes(n: Inner, x: Separator, at: Addr, q: Key)
    requires NodeInv(n) && n.records != [] && n.lowest < x.key < n.highest && !HasKey(n.records, x.key)
    requires n.Covers(q) && BothRecorded(Split(n, x, at))
    ensures TwoHop(Split(n, x, at), q) == Unsplit(n, x, q)
  {
    hide Split, Search, Shift, NodeInv;
    var p := Split(n, x, at);
    SplitInv(n, x, at);
    SplitFlat(n, x, at);
    NodeAscending(n);
    ShiftFlat(n, x);
    SplitHeads(n, x, at);
    FloorConcat(Flat(p.node), Flat(p.sibling), q, n.siblingLeftmost);
    if q < p.node.highest {
      SearchIsFloor(p.node, q);
    } else {
      SearchIsFloor(p.sibling, q);
    }
  }

  lemma NodeAscending(n: Inner)
    requires NodeInv(n)
    ensures Ascending(Flat(n))
  {}

  /** A split cuts in the middle: half the records, rounded down, have keys below the new bound. */
  lemma SplitIsMiddle(n: Inner, x: Separator, at: Addr)
    requires Ascending(n.records) && n.records != []
    ensures var mid := Split(n, x, at).sibling.lowest;
            && HasKey(n.records, mid) && |KeysUnder(n.records, mid)| == |n.records| / 2
  {
    RankIs(n.records, |n.records| / 2);
  }

  /** sibling_leftmost_ptr of the node names the leftmost child of its new sibling, which inherits the
      links the node had. */
  lemma SplitHeads(n: Inner, x: Separator, at: Addr)
    requires n.records != []
    ensures var p := Split(n, x, at);
            && p.node.lowest == n.lowest && p.node.highest == p.sibling.lowest && p.sibling.highest == n.highest
            && p.node.leftmost == n.leftmost && p.node.siblingLeftmost == p.sibling.leftmost
            && p.node.sibling == at && p.sibling.sibling == n.sibling && p.sibling.siblingLeftmost == n.siblingLeftmost
  {}

  ghost predicate Children(n: Inner) {
    n.leftmost != NULL && forall i :: 0 <= i < |n.records| ==> n.records[i].value != NULL
  }

  /** A split keeps routing exactly when the span is at least three, or is two and the new separator
      lies above the split key; otherwise one of the nodes is left without a record, and a search that
      reaches it answers with the null pointer. */
  lemma SplitRoutesIff(n: Inner, x: Separator, at: Addr)
    requires NodeInv(n) && n.records != [] && n.lowest < x.key < n.highest && !HasKey(n.records, x.key)
    requires Children(n) && x.value != NULL
    ensures (forall q :: n.Covers(q) ==> TwoHop(Split(n, x, at), q) == Unsplit(n, x, q))
            <==> |n.records| >= 3 || (|n.records| == 2 && x.key > n.records[1].key)
  {
    var p := Split(n, x, at);
    if BothRecorded(p) {
      forall q | n.Covers(q)
        ensures TwoHop(p, q) == Unsplit(n, x, q)
      {
        SplitRoutes(n, x, at, q);
      }
    } else {
      var q := if p.node.records == [] then n.lowest else p.sibling.lowest;
      LostKey(n, x, at, q);
    }
  }

  lemma LostKey(n: Inner, x: Separator, at: Addr, q: Key)
    requires NodeInv(n) && n.records != [] && n.lowest < x.key < n.highest && !HasKey(n.records, x.key)
    requires Children(n) && x.value != NULL && !BothRecorded(Split(n, x, at))
    requires q == if Split(n, x, at).node.records == [] then n.lowest else Split(n, x, at).sibling.lowest
    ensures n.Covers(q) && TwoHop(Split(n, x, at), q).child == NULL && Unsplit(n, x, q).child != NULL
  {
    var p := Split(n, x, at);
    SplitInv(n, x, at);
    var fs := Flat(n.(records := Shift(n.records, x)));
    var j := Above(fs, q, 0);
    assert j - 1 > 0 ==> fs[j - 1] == Shift(n.records, x)[j - 2];
  }
}
