/** DMTree inner nodes: packed, sorted records that start at the least key of the node. Insertion,
    search and splitting of one node. */
module DMInner {

  import opened Common
  import opened KeyOrder

  type Addr = nat

  datatype Child = Child(addr: Addr, fpAddr: Addr, capacity: nat, version: nat)

  type Record = Keyed<Child>

  /** records are the valid slots, which come first. */
  datatype Node = Node(min: Key, max: Key, right: Option<Addr>, isRoot: bool, leafParent: bool, records: seq<Record>) {
    /** check_hdr */
    predicate Covers(k: Key) {
      min <= k < max
    }
  }

  ghost predicate KeysWithin(rs: seq<Record>, min: Key, max: Key) {
    forall i :: 0 <= i < |rs| ==> min <= rs[i].key < max
  }

  ghost predicate NodeInv(cap: nat, n: Node) {
    && 0 < |n.records| <= cap
    && Ascending(n.records)
    && n.records[0].key == n.min
    && KeysWithin(n.records, n.min, n.max)
  }

  // ---------------------------------------------------------------- insert

  function KeyIndex(rs: seq<Record>, k: Key, i: nat): (r: nat)
    requires i <= |rs|
    ensures i <= r <= |rs| && (r < |rs| ==> rs[r].key == k)
    ensures forall j :: i <= j < r ==> rs[j].key != k
    decreases |rs| - i
  {
    if i == |rs| || rs[i].key == k then i else KeyIndex(rs, k, i + 1)
  }

  /** InnerNode.insert: replaces the record of an equal key, else appends and sorts, unless full. */
  function Place(cap: nat, rs: seq<Record>, r: Record): (q: Option<seq<Record>>) {
    var i := KeyIndex(rs, r.key, 0);
    if i < |rs| then Some(rs[i := r])
    else if |rs| < cap then Some(SortPairs(rs + [r])) else None
  }

  /** q is rs with r put in the place of any record of its key. */
  ghost predicate Placed(rs: seq<Record>, r: Record, q: seq<Record>) {
    && r in q
    && (forall i :: 0 <= i < |rs| && rs[i].key != r.key ==> rs[i] in q)
    && (forall i :: 0 <= i < |q| ==> q[i] == r || (q[i] in rs && q[i].key != r.key))
  }

  lemma PlaceReplaces(rs: seq<Record>, r: Record, i: nat)
    requires Ascending(rs) && i < |rs| && rs[i].key == r.key
    ensures Ascending(rs[i := r]) && Placed(rs, r, rs[i := r])
  {
    var q := rs[i := r];
    assert q[i] == r;
    forall j | 0 <= j < |rs| && rs[j].key != r.key
      ensures rs[j] in q
    {
      assert q[j] == rs[j];
    }
  }

  lemma PlaceSorts(rs: seq<Record>, r: Record)
    requires Ascending(rs) && !HasKey(rs, r.key)
    ensures Ascending(SortPairs(rs + [r])) && Placed(rs, r, SortPairs(rs + [r]))
  {
    var t := rs + [r];
    assert Apart(t);
    SortPairsIs(t);
    var q := SortPairs(t);
    assert t[|rs|] in q;
    forall j | 0 <= j < |rs|
      ensures rs[j] in q
    {
      assert t[j] in q;
    }
    forall j | 0 <= j < |q|
      ensures q[j] == r || (q[j] in rs && q[j].key != r.key)
    {
      var i :| 0 <= i < |t| && t[i] == q[j];
    }
  }

  lemma PlaceIs(cap: nat, rs: seq<Record>, r: Record)
    requires Ascending(rs) && |rs| <= cap
    ensures var q := Place(cap, rs, r);
            && (q.None? <==> |rs| == cap && !HasKey(rs, r.key))
            && (q.Some? ==> Ascending(q.value) && |q.value| <= cap && Placed(rs, r, q.value))
  {
    var i := KeyIndex(rs, r.key, 0);
    if i < |rs| {
      PlaceReplaces(rs, r, i);
    } else {
      PlaceSorts(rs, r);
    }
  }

  lemma PlacedWithin(rs: seq<Record>, r: Record, q: seq<Record>, min: Key, max: Key)
    requires Placed(rs, r, q) && KeysWithin(rs, min, max) && min <= r.key < max
    ensures KeysWithin(q, min, max)
  {}

  lemma PlacedKeys(rs: seq<Record>, r: Record, q: seq<Record>, k: Key)
    requires Placed(rs, r, q)
    ensures HasKey(q, k) <==> k == r.key || HasKey(rs, k)
  {}

  lemma LeastFirst(q: seq<Record>, min: Key, max: Key)
    requires Ascending(q) && KeysWithin(q, min, max) && HasKey(q, min)
    ensures |q| > 0 && q[0].key == min
  {}

  /** Inserting a record whose key the node covers keeps the node packed, sorted and starting at its
      least key, and is refused exactly when the node is full and has no record of that key. */
  lemma PlaceKeeps(cap: nat, n: Node, r: Record)
    requires NodeInv(cap, n) && n.Covers(r.key)
    ensures var q := Place(cap, n.records, r);
            && (q.None? <==> |n.records| == cap && !HasKey(n.records, r.key))
            && (q.Some? ==> NodeInv(cap, n.(records := q.value)) && Placed(n.records, r, q.value))
  {
    hide Place, Placed, Ascending, KeysWithin;
    PlaceIs(cap, n.records, r);
    var q := Place(cap, n.records, r);
    if q.Some? {
      PlacedWithin(n.records, r, q.value, n.min, n.max);
      PlacedKeys(n.records, r, q.value, n.min);
      LeastFirst(q.value, n.min, n.max);
    }
  }

  // ---------------------------------------------------------------- search

  /** InnerNode.search on a node that covers k. */
  function Find(rs: seq<Record>, k: Key): (r: Record)
    requires |rs| > 0 && rs[0].key <= k
    ensures r in rs && r.key <= k
  {
    rs[Above(rs, k, 0) - 1]
  }

  lemma FindIsGreatest(rs: seq<Record>, k: Key, n: Key)
    requires Ascending(rs) && |rs| > 0 && rs[0].key <= k && HasKey(rs, n) && n <= k
    ensures n <= Find(rs, k).key
  {}

  // ---------------------------------------------------------------- split

  datatype Pieces = Pieces(origin: Node, sibling: Node)

  /** node_split of a full node, with r going to its side. None is a failing assert. */
  function SplitNode(cap: nat, n: Node, r: Record, at: Addr): (p: Option<Pieces>)
    requires cap / 2 < |n.records|
  {
    var half := cap / 2;
    var upper := n.records[half].key;
    var left := n.(records := n.records[..half], right := Some(at), max := upper, isRoot := false);
    var right := n.(records := n.records[half..], min := upper, isRoot := false);
    var a := if upper > r.key then Place(cap, left.records, r) else Some(left.records);
    var b := if upper < r.key then Place(cap, right.records, r) else Some(right.records);
    if a.None? || b.None? then None
    else Some(Pieces(left.(records := a.value), right.(records := b.value)))
  }

  /** What a split promises of its two nodes. */
  ghost predicate Parted(cap: nat, n: Node, p: Pieces, at: Addr) {
    && NodeInv(cap, p.origin) && NodeInv(cap, p.sibling)
    && p.origin.min == n.min && p.origin.max == p.sibling.min && p.sibling.max == n.max
    && p.origin.right == Some(at) && p.sibling.right == n.right
    && p.origin.leafParent == p.sibling.leafParent == n.leafParent
    && !p.origin.isRoot && !p.sibling.isRoot
  }

  lemma CutInv(cap: nat, n: Node, half: nat)
    requires NodeInv(cap, n) && 0 < half < |n.records|
    ensures var upper := n.records[half].key;
            && NodeInv(cap, n.(records := n.records[..half], max := upper))
            && NodeInv(cap, n.(records := n.records[half..], min := upper))
            && n.min < upper < n.max
  {}

  /** A full node is cut in the middle: half its records, rounded down, have keys below the new bound. */
  lemma SplitIsMiddle(cap: nat, n: Node, r: Record, at: Addr)
    requires Ascending(n.records) && |n.records| == cap > 0 && SplitNode(cap, n, r, at).Some?
    ensures var mid := SplitNode(cap, n, r, at).value.sibling.min;
            && HasKey(n.records, mid) && |KeysUnder(n.records, mid)| == cap / 2
  {
    hide Place;
    RankIs(n.records, cap / 2);
  }

  lemma NodeInvSame(cap: nat, n: Node, m: Node)
    requires NodeInv(cap, n) && m.records == n.records && m.min == n.min && m.max == n.max
    ensures NodeInv(cap, m)
  {}

  /** Splitting a full node around a new record: neither assert fails, both nodes are sound, and
      together they hold the old records and the new one. */
  lemma SplitKeeps(cap: nat, n: Node, r: Record, at: Addr)
    requires cap >= 2 && NodeInv(cap, n) && |n.records| == cap
    requires n.Covers(r.key) && !HasKey(n.records, r.key)
    ensures var p := SplitNode(cap, n, r, at);
            && p.Some? && Parted(cap, n, p.value, at)
            && Placed(n.records, r, p.value.origin.records + p.value.sibling.records)
  {
    hide NodeInv, Place, Placed;
    var half := cap / 2;
    CutInv(cap, n, half);
    var upper := n.records[half].key;
    assert upper != r.key by {
      assert !HasKey(n.records, r.key);
    }
    var left := n.(records := n.records[..half], right := Some(at), max := upper, isRoot := false);
    var right := n.(records := n.records[half..], min := upper, isRoot := false);
    NodeInvSame(cap, n.(records := n.records[..half], max := upper), left);
    NodeInvSame(cap, n.(records := n.records[half..], min := upper), right);
    if r.key < upper {
      PlaceKeeps(cap, left, r);
      assert !HasKey(left.records, r.key);
      PlacedLeft(n.records, half, r, Place(cap, left.records, r).value);
    } else {
      PlaceKeeps(cap, right, r);
      assert !HasKey(right.records, r.key);
      PlacedRight(n.records, half, r, Place(cap, right.records, r).value);
    }
  }

  lemma PlacedLeft(rs: seq<Record>, half: nat, r: Record, q: seq<Record>)
    requires half <= |rs| && Placed(rs[..half], r, q) && !HasKey(rs, r.key)
    ensures Placed(rs, r, q + rs[half..])
  {}

  lemma PlacedRight(rs: seq<Record>, half: nat, r: Record, q: seq<Record>)
    requires half <= |rs| && Placed(rs[half..], r, q) && !HasKey(rs, r.key)
    ensures Placed(rs, r, rs[..half] + q)
  {}
}
