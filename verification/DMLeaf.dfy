/** A DMTree leaf: unsorted entries beside a table of one-byte fingerprints, with a version that every
    part carries. What insertion and resizing keep. */
module DMLeaf {

  import opened Common
  import opened KeyOrder

  type Hash = Key -> nat
  type Addr = nat

  /** cal_key_fp: 0 marks an empty slot, so no key has it. */
  function Fingerprint(h: Hash, k: Key): (f: nat)
    ensures f != 0 && (h(k) != 0 ==> f == h(k))
  {
    if h(k) == 0 then 1 else h(k)
  }

  datatype Entry = Entry(valid: bool, version: nat, key: Key, value: Value)

  datatype Table = Table(version: nat, fp: seq<nat>)

  /** Keys of the leaf lie in [min, max); right names the next leaf. */
  datatype Header = Header(min: Key, max: Key, capacity: nat, version: nat, right: Option<Addr>, rightCapacity: nat)

  datatype Leaf = Leaf(header: Header, table: Table, entries: seq<Entry>)

  type Pair = Keyed<Value>

  // ---------------------------------------------------------------- the leaf invariant

  ghost predicate KeysDistinct(es: seq<Entry>) {
    forall i, j :: 0 <= i < j < |es| && es[i].valid && es[j].valid ==> es[i].key != es[j].key
  }

  ghost predicate Slots(h: Hash, fp: seq<nat>, es: seq<Entry>, version: nat) {
    && |fp| == |es|
    && KeysDistinct(es)
    && forall i :: 0 <= i < |es| ==>
      && es[i].version == version
      && (es[i].valid <==> fp[i] != 0)
      && (es[i].valid ==> fp[i] == Fingerprint(h, es[i].key))
  }

  ghost predicate InRange(es: seq<Entry>, min: Key, max: Key) {
    forall i :: 0 <= i < |es| && es[i].valid ==> min <= es[i].key < max
  }

  /** Fingerprints match entries, the versions of table, header and entries agree, and no key occurs
      twice or outside the range of the leaf. */
  ghost predicate LeafInv(h: Hash, l: Leaf) {
    && |l.entries| == l.header.capacity > 0
    && l.header.min <= l.header.max
    && l.table.version == l.header.version
    && Slots(h, l.table.fp, l.entries, l.header.version)
    && InRange(l.entries, l.header.min, l.header.max)
  }

  ghost function Contents(es: seq<Entry>): (m: map<Key, Value>)
    requires KeysDistinct(es)
  {
    map i | 0 <= i < |es| && es[i].valid :: es[i].key := es[i].value
  }

  /** Entry.search on slot i. */
  predicate EntryHas(es: seq<Entry>, i: nat, k: Key) {
    i < |es| && es[i].valid && es[i].key == k
  }

  lemma ContentsAt(es: seq<Entry>, i: nat, k: Key)
    requires KeysDistinct(es) && EntryHas(es, i, k)
    ensures k in Contents(es) && Contents(es)[k] == es[i].value
  {}

  lemma ContentsFrom(es: seq<Entry>, k: Key) returns (i: nat)
    requires KeysDistinct(es) && k in Contents(es)
    ensures EntryHas(es, i, k) && Contents(es)[k] == es[i].value
  {
    i :| 0 <= i < |es| && es[i].valid && es[i].key == k;
  }

  // ---------------------------------------------------------------- Entry and FPTable

  /** Entry.insert; None is the failure. */
  function EntryInsert(e: Entry, k: Key, v: Value): (r: Option<Entry>)
    ensures r.Some? <==> !e.valid || e.key == k
    ensures r.Some? ==> r.value.valid && r.value.key == k && r.value.value == v && r.value.version == e.version
  {
    if !e.valid then Some(e.(valid := true, key := k, value := v))
    else if e.key == k then Some(e.(value := v)) else None
  }

  /** The first slot at or after i whose fingerprint is f; |fp| if there is none. */
  function FirstFp(fp: seq<nat>, f: nat, i: nat): (r: nat)
    requires i <= |fp|
    ensures i <= r <= |fp|
    ensures forall j :: i <= j < r ==> fp[j] != f
    ensures r < |fp| ==> fp[r] == f
    decreases |fp| - i
  {
    if i == |fp| || fp[i] == f then i else FirstFp(fp, f, i + 1)
  }

  // ---------------------------------------------------------------- leaf_insert

  datatype Put = Stored(leaf: Leaf) | Full

  /** The loop over slots with a matching fingerprint: the first one whose entry accepts k. */
  function Accepting(h: Hash, l: Leaf, k: Key, i: nat): (r: nat)
    requires |l.table.fp| == |l.entries| && i <= |l.entries|
    ensures i <= r <= |l.entries|
    decreases |l.entries| - i
  {
    if i == |l.entries| then i
    else if l.table.fp[i] == Fingerprint(h, k) && EntryInsert(l.entries[i], k, 0).Some? then i
    else Accepting(h, l, k, i + 1)
  }

  function Insert(h: Hash, l: Leaf, k: Key, v: Value): (r: Put)
    requires |l.table.fp| == |l.entries|
  {
    var i := Accepting(h, l, k, 0);
    if i < |l.entries| then
      var e := EntryInsert(l.entries[i], k, v);
      if e.Some? then Stored(l.(entries := l.entries[i := e.value])) else Full
    else
      var s := FirstFp(l.table.fp, 0, 0);
      if s < |l.entries| then Stored(Added(h, l, s, k, v)) else Full
  }

  function NewEntry(version: nat, k: Key, v: Value): (e: Entry) {
    Entry(true, version, k, v)
  }

  function Added(h: Hash, l: Leaf, s: nat, k: Key, v: Value): (r: Leaf)
    requires s < |l.entries| == |l.table.fp|
  {
    l.(entries := l.entries[s := NewEntry(l.table.version, k, v)],
       table := l.table.(fp := l.table.fp[s := Fingerprint(h, k)]))
  }

  lemma {:induction false} AcceptingIs(h: Hash, l: Leaf, k: Key, i: nat)
    requires LeafInv(h, l) && i <= |l.entries|
    ensures var r := Accepting(h, l, k, i);
            && (r < |l.entries| ==> EntryHas(l.entries, r, k))
            && forall j :: i <= j < r ==> !EntryHas(l.entries, j, k)
    decreases |l.entries| - i
  {
    if i < |l.entries| {
      AcceptingIs(h, l, k, i + 1);
    }
  }

  /** Storing a valid entry in its own slot is a map update. */
  lemma PutSlot(es: seq<Entry>, s: nat, e: Entry)
    requires KeysDistinct(es) && s < |es| && e.valid
    requires !es[s].valid || es[s].key == e.key
    requires forall i :: 0 <= i < |es| && i != s && es[i].valid ==> es[i].key != e.key
    ensures KeysDistinct(es[s := e])
    ensures Contents(es[s := e]) == Contents(es)[e.key := e.value]
  {
    hide Contents;
    var es' := es[s := e];
    ContentsAt(es', s, e.key);
    forall x | x in Contents(es) && x != e.key
      ensures x in Contents(es') && Contents(es')[x] == Contents(es)[x]
    {
      var i := ContentsFrom(es, x);
      ContentsAt(es', i, x);
    }
    forall x | x in Contents(es') && x != e.key
      ensures x in Contents(es)
    {
      var i := ContentsFrom(es', x);
      ContentsAt(es, i, x);
    }
  }

  lemma AddedKeeps(h: Hash, l: Leaf, s: nat, k: Key, v: Value)
    requires LeafInv(h, l) && l.header.min <= k < l.header.max
    requires k !in Contents(l.entries)
    requires s < |l.entries| && l.table.fp[s] == 0
    ensures LeafInv(h, Added(h, l, s, k, v))
    ensures Contents(Added(h, l, s, k, v).entries) == Contents(l.entries)[k := v]
  {
    hide Contents;
    forall i | 0 <= i < |l.entries| && l.entries[i].valid
      ensures l.entries[i].key != k
    {
      if l.entries[i].key == k {
        ContentsAt(l.entries, i, k);
      }
    }
    PutSlot(l.entries, s, NewEntry(l.table.version, k, v));
  }

  lemma UpdateKeeps(h: Hash, l: Leaf, i: nat, k: Key, v: Value)
    requires LeafInv(h, l) && EntryHas(l.entries, i, k)
    ensures var es := l.entries[i := l.entries[i].(value := v)];
            LeafInv(h, l.(entries := es)) && Contents(es) == Contents(l.entries)[k := v]
  {
    hide Contents;
    PutSlot(l.entries, i, l.entries[i].(value := v));
  }

  /** Inserting into a leaf is a map update that keeps the invariant; it is refused exactly when the
      key is absent and no slot is empty. */
  lemma InsertKeeps(h: Hash, l: Leaf, k: Key, v: Value)
    requires LeafInv(h, l) && l.header.min <= k < l.header.max
    ensures var r := Insert(h, l, k, v);
            && (r.Full? <==> k !in Contents(l.entries) && forall i :: 0 <= i < |l.entries| ==> l.entries[i].valid)
            && (r.Stored? ==> LeafInv(h, r.leaf) && Contents(r.leaf.entries) == Contents(l.entries)[k := v]
                              && r.leaf.header == l.header)
  {
    hide Contents;
    AcceptingIs(h, l, k, 0);
    var i := Accepting(h, l, k, 0);
    if i < |l.entries| {
      UpdateKeeps(h, l, i, k, v);
      ContentsAt(l.entries, i, k);
    } else {
      if k in Contents(l.entries) {
        var j := ContentsFrom(l.entries, k);
        assert false;
      }
      var s := FirstFp(l.table.fp, 0, 0);
      if s < |l.entries| {
        AddedKeeps(h, l, s, k, v);
      }
    }
  }

  // ---------------------------------------------------------------- sorting the pairs of a leaf

  /** The pairs of the valid entries from slot i on, in slot order. */
  function Gather(es: seq<Entry>, i: nat): (ps: seq<Pair>)
    requires i <= |es|
    ensures |ps| <= |es| - i
    decreases |es| - i
  {
    if i == |es| then []
    else if es[i].valid then [Keyed(es[i].key, es[i].value)] + Gather(es, i + 1)
    else Gather(es, i + 1)
  }

  /** Some entry from slot i on holds p. */
  ghost predicate Storing(es: seq<Entry>, p: Pair, i: nat) {
    exists j :: i <= j < |es| && EntryIs(es, j, p)
  }

  predicate EntryIs(es: seq<Entry>, j: nat, p: Pair) {
    EntryHas(es, j, p.key) && es[j].value == p.value
  }

  lemma {:induction false} GatherFrom(es: seq<Entry>, i: nat, m: nat)
    requires i <= |es| && m < |Gather(es, i)|
    ensures Storing(es, Gather(es, i)[m], i)
    decreases |es| - i
  {
    if es[i].valid && m == 0 {
      assert EntryIs(es, i, Gather(es, i)[0]);
    } else {
      var m' := if es[i].valid then m - 1 else m;
      GatherFrom(es, i + 1, m');
    }
  }

  lemma {:induction false} GatherHas(es: seq<Entry>, i: nat, j: nat)
    requires i <= j < |es| && es[j].valid
    ensures Keyed(es[j].key, es[j].value) in Gather(es, i)
    decreases j - i
  {
    if i < j {
      GatherHas(es, i + 1, j);
    }
  }

  lemma {:induction false} GatherApart(es: seq<Entry>, i: nat)
    requires KeysDistinct(es) && i <= |es|
    ensures Apart(Gather(es, i))
    decreases |es| - i
  {
    if i < |es| {
      GatherApart(es, i + 1);
      var rest := Gather(es, i + 1);
      if es[i].valid {
        forall m | 0 <= m < |rest|
          ensures rest[m].key != es[i].key
        {
          GatherFrom(es, i + 1, m);
          var j :| i + 1 <= j < |es| && EntryIs(es, j, rest[m]);
        }
      }
    }
  }

  // ---------------------------------------------------------------- leaf_resize

  /** One side of a resize while it is filled. */
  datatype Side = Side(fp: seq<nat>, entries: seq<Entry>)

  /** add_version and, for a valid entry, clean. */
  function Cleaned(e: Entry): (r: Entry)
    ensures !r.valid && r.version == e.version + 1
  {
    if e.valid then Entry(false, e.version + 1, 0, e.value) else e.(version := e.version + 1)
  }

  const BLANK := Entry(false, 0, 0, 0)

  function CleanedAll(es: seq<Entry>): (r: seq<Entry>)
    ensures |r| == |es| && forall i :: 0 <= i < |es| ==> r[i] == Cleaned(es[i])
  {
    seq(|es|, i requires 0 <= i < |es| => Cleaned(es[i]))
  }

  function Blank(n: nat): (s: Side)
    ensures |s.fp| == |s.entries| == n
    ensures forall i :: 0 <= i < n ==> s.fp[i] == 0 && s.entries[i] == BLANK
  {
    Side(seq(n, _ => 0), seq(n, _ => BLANK))
  }

  /** One round of the loop that divides the pairs: a free fingerprint slot, then its entry. None is
      one of the two failing asserts. */
  function FillOne(h: Hash, s: Side, p: Pair): (r: Option<Side>)
    requires |s.fp| == |s.entries|
    ensures r.Some? ==> |r.value.fp| == |r.value.entries| == |s.entries|
  {
    var i := FirstFp(s.fp, 0, 0);
    if i == |s.fp| then None
    else
      var e := EntryInsert(s.entries[i], p.key, p.value);
      if e.None? then None
      else Some(Side(s.fp[i := Fingerprint(h, p.key)], s.entries[i := e.value]))
  }

  function Fill(h: Hash, s: Side, ps: seq<Pair>): (r: Option<Side>)
    requires |s.fp| == |s.entries|
    ensures r.Some? ==> |r.value.fp| == |r.value.entries| == |s.entries|
    decreases |ps|
  {
    if ps == [] then Some(s)
    else
      var t := Fill(h, s, ps[..|ps| - 1]);
      if t.None? then None else FillOne(h, t.value, ps[|ps| - 1])
  }

  /** adapt_capacity: when the inner cache is nearly used up, leaves double up to 128 entries. */
  function AdaptCapacity(cacheFull: bool, capacity: nat): (r: nat)
    ensures !cacheFull ==> r == capacity
    ensures 0 < capacity <= 128 && cacheFull ==> r == 128 || (r == capacity + capacity && r < 128)
    ensures 0 < capacity <= 128 ==> capacity <= r <= 128
  {
    if cacheFull then (if capacity * 2 < 128 then capacity * 2 else 128) else capacity
  }

  function SplitAt(capacity: nat, sibling: nat, n: nat): (split: nat) {
    if sibling > capacity then 0 else n / 2
  }

  function SortedPairs(l: Leaf, k: Key, v: Value): (ps: seq<Pair>)
    ensures 1 <= |ps| <= |l.entries| + 1
  {
    SortPairs([Keyed(k, v)] + Gather(l.entries, 0))
  }

  datatype Halves = Halves(current: Leaf, sibling: Leaf)

  function CurrentHeader(hd: Header, max: Key, addr: Addr, sibling: nat): (r: Header) {
    hd.(version := hd.version + 1, max := max, right := Some(addr), rightCapacity := sibling)
  }

  function SiblingHeader(hd: Header, min: Key, sibling: nat): (r: Header) {
    hd.(version := 0, capacity := sibling, min := min)
  }

  /** leaf_resize up to its writes. None is a failing assert. */
  function Resize(h: Hash, l: Leaf, k: Key, v: Value, sibling: nat, addr: Addr): (r: Option<Halves>)
    requires |l.entries| == l.header.capacity > 0
  {
    var ps := SortedPairs(l, k, v);
    var split := SplitAt(l.header.capacity, sibling, |ps|);
    var a := Fill(h, Side(Blank(l.header.capacity).fp, CleanedAll(l.entries)), ps[..split]);
    var b := Fill(h, Blank(sibling), ps[split..]);
    if a.None? || b.None? then None
    else
      var hd := CurrentHeader(l.header, ps[split].key, addr, sibling);
      Some(Halves(
        Leaf(hd, Table(hd.version, a.value.fp), a.value.entries),
        Leaf(SiblingHeader(l.header, hd.max, sibling), Table(0, b.value.fp), b.value.entries)))
  }

  // ---------------------------------------------------------------- filling a side never fails

  /** The first slots of a side hold ps in order, the others are empty. */
  ghost predicate Packed(h: Hash, s: Side, ps: seq<Pair>, version: nat) {
    && |s.fp| == |s.entries| >= |ps|
    && (forall i :: 0 <= i < |ps| ==>
      s.fp[i] == Fingerprint(h, ps[i].key) && s.entries[i] == Entry(true, version, ps[i].key, ps[i].value))
    && (forall i :: |ps| <= i < |s.fp| ==> s.fp[i] == 0 && !s.entries[i].valid && s.entries[i].version == version)
  }

  lemma FillOnePacked(h: Hash, s: Side, ps: seq<Pair>, version: nat, p: Pair)
    requires Packed(h, s, ps, version) && |ps| < |s.fp|
    ensures FillOne(h, s, p).Some? && Packed(h, FillOne(h, s, p).value, ps + [p], version)
  {
    var i := FirstFp(s.fp, 0, 0);
    assert s.fp[|ps|] == 0;
    assert i == |ps|;
  }

  lemma {:induction false} FillPacked(h: Hash, s: Side, ps: seq<Pair>, version: nat)
    requires Packed(h, s, [], version) && |ps| <= |s.fp|
    ensures Fill(h, s, ps).Some? && Packed(h, Fill(h, s, ps).value, ps, version)
    decreases |ps|
  {
    if ps != [] {
      var qs := ps[..|ps| - 1];
      FillPacked(h, s, qs, version);
      FillOnePacked(h, Fill(h, s, qs).value, qs, version, ps[|ps| - 1]);
      assert qs + [ps[|ps| - 1]] == ps;
    }
  }

  ghost predicate PairsIn(ps: seq<Pair>, min: Key, max: Key) {
    forall i :: 0 <= i < |ps| ==> min <= ps[i].key < max
  }

  /** m holds exactly the pairs of ps. */
  ghost predicate MapOf(ps: seq<Pair>, m: map<Key, Value>) {
    && (forall k :: k in m <==> HasKey(ps, k))
    && forall i :: 0 <= i < |ps| ==> ps[i].key in m && m[ps[i].key] == ps[i].value
  }

  lemma MapOfOnce(ps: seq<Pair>, m: map<Key, Value>, n: map<Key, Value>)
    requires MapOf(ps, m) && MapOf(ps, n)
    ensures m == n
  {}

  lemma MapOfSplit(ps: seq<Pair>, split: nat, a: map<Key, Value>, b: map<Key, Value>)
    requires Ascending(ps) && split <= |ps|
    requires MapOf(ps[..split], a) && MapOf(ps[split..], b)
    ensures MapOf(ps, a + b) && a.Keys !! b.Keys
  {
    forall i | 0 <= i < |ps|
      ensures if i < split then ps[i].key in a && a[ps[i].key] == ps[i].value
              else ps[i].key in b && b[ps[i].key] == ps[i].value
    {
      if i < split {
        assert ps[..split][i] == ps[i];
      } else {
        assert ps[split..][i - split] == ps[i];
      }
    }
    forall x | x in a
      ensures HasKey(ps, x) && x !in b
    {
      var j :| 0 <= j < split && ps[..split][j].key == x;
      assert ps[j].key == x;
      forall i | 0 <= i < |ps| - split
        ensures ps[split..][i].key != x
      {
        assert ps[split..][i] == ps[split + i];
      }
    }
    forall x | x in b
      ensures HasKey(ps, x)
    {
      var j :| 0 <= j < |ps| - split && ps[split..][j].key == x;
      assert ps[split + j].key == x;
    }
  }

  lemma PackedSlots(h: Hash, s: Side, ps: seq<Pair>, version: nat, min: Key, max: Key)
    requires Packed(h, s, ps, version) && Ascending(ps) && PairsIn(ps, min, max)
    ensures Slots(h, s.fp, s.entries, version) && InRange(s.entries, min, max)
    ensures MapOf(ps, Contents(s.entries))
  {
    hide Contents;
    forall i | 0 <= i < |ps|
      ensures ps[i].key in Contents(s.entries) && Contents(s.entries)[ps[i].key] == ps[i].value
    {
      ContentsAt(s.entries, i, ps[i].key);
    }
    forall k | k in Contents(s.entries)
      ensures HasKey(ps, k)
    {
      var i := ContentsFrom(s.entries, k);
      assert ps[i].key == k;
    }
  }

  // ---------------------------------------------------------------- a resize conserves the leaf

  lemma MapOfAmong(ps: seq<Pair>, qs: seq<Pair>, m: map<Key, Value>)
    requires MapOf(qs, m) && Among(ps, qs) && Among(qs, ps)
    ensures MapOf(ps, m)
  {}

  lemma PairsInAmong(ps: seq<Pair>, qs: seq<Pair>, min: Key, max: Key)
    requires PairsIn(qs, min, max) && Among(ps, qs)
    ensures PairsIn(ps, min, max)
  {}

  lemma GatheredAre(h: Hash, l: Leaf)
    requires LeafInv(h, l)
    ensures MapOf(Gather(l.entries, 0), Contents(l.entries))
    ensures PairsIn(Gather(l.entries, 0), l.header.min, l.header.max)
  {
    hide Contents, Gather;
    var g := Gather(l.entries, 0);
    forall i | 0 <= i < |g|
      ensures g[i].key in Contents(l.entries) && Contents(l.entries)[g[i].key] == g[i].value
      ensures l.header.min <= g[i].key < l.header.max
    {
      GatherFrom(l.entries, 0, i);
      var j :| 0 <= j < |l.entries| && EntryIs(l.entries, j, g[i]);
      ContentsAt(l.entries, j, g[i].key);
    }
    forall x | x in Contents(l.entries)
      ensures HasKey(g, x)
    {
      var j := ContentsFrom(l.entries, x);
      GatherHas(l.entries, 0, j);
    }
  }

  lemma MapOfCons(k: Key, v: Value, ps: seq<Pair>, m: map<Key, Value>)
    requires MapOf(ps, m) && k !in m
    ensures MapOf([Keyed(k, v)] + ps, m[k := v])
    ensures Apart(ps) ==> Apart([Keyed(k, v)] + ps)
  {
    var qs := [Keyed(k, v)] + ps;
    forall x | x in m[k := v]
      ensures HasKey(qs, x)
    {
      if x != k {
        var j :| 0 <= j < |ps| && ps[j].key == x;
        assert qs[j + 1].key == x;
      } else {
        assert qs[0].key == x;
      }
    }
  }

  /** The sorted pairs are the contents of the leaf and the new pair. */
  lemma SortedPairsAre(h: Hash, l: Leaf, k: Key, v: Value)
    requires LeafInv(h, l) && k !in Contents(l.entries)
    requires l.header.min <= k < l.header.max
    ensures var ps := SortedPairs(l, k, v);
            Ascending(ps) && PairsIn(ps, l.header.min, l.header.max) && MapOf(ps, Contents(l.entries)[k := v])
  {
    hide Contents, Ascending, Apart, MapOf, Among, Gather, SortPairs;
    var g := Gather(l.entries, 0);
    var qs := [Keyed(k, v)] + g;
    GatheredAre(h, l);
    GatherApart(l.entries, 0);
    MapOfCons(k, v, g, Contents(l.entries));
    SortPairsIs(qs);
    MapOfAmong(SortPairs(qs), qs, Contents(l.entries)[k := v]);
    PairsInAmong(SortPairs(qs), qs, l.header.min, l.header.max);
  }

  lemma Divided(h: Hash, l: Leaf, sibling: nat, addr: Addr, ps: seq<Pair>, split: nat, a: Side, b: Side)
    requires LeafInv(h, l) && sibling > 0
    requires Ascending(ps) && PairsIn(ps, l.header.min, l.header.max)
    requires split < |ps| && |a.fp| == l.header.capacity && |b.fp| == sibling
    requires Packed(h, a, ps[..split], l.header.version + 1) && Packed(h, b, ps[split..], 0)
    ensures var hd := CurrentHeader(l.header, ps[split].key, addr, sibling);
            && LeafInv(h, Leaf(hd, Table(hd.version, a.fp), a.entries))
            && LeafInv(h, Leaf(SiblingHeader(l.header, hd.max, sibling), Table(0, b.fp), b.entries))
    ensures MapOf(ps[..split], Contents(a.entries)) && MapOf(ps[split..], Contents(b.entries))
  {
    hide Contents, Packed, InRange, MapOf, KeysDistinct;
    var mid := ps[split].key;
    assert |a.fp| == |a.entries| && |b.fp| == |b.entries| by {
      PackedLength(h, a, ps[..split], l.header.version + 1);
      PackedLength(h, b, ps[split..], 0);
    }
    PackedSlots(h, a, ps[..split], l.header.version + 1, l.header.min, mid);
    PackedSlots(h, b, ps[split..], 0, mid, l.header.max);
  }

  lemma PackedLength(h: Hash, s: Side, ps: seq<Pair>, version: nat)
    requires Packed(h, s, ps, version)
    ensures |s.fp| == |s.entries|
  {}

  /** Whatever the capacity of the sibling, no slot is missing, both leaves are sound again, and they
      divide the old contents and the new pair at the new greatest key. */
  lemma ResizeConserves(h: Hash, l: Leaf, k: Key, v: Value, sibling: nat, addr: Addr)
    requires LeafInv(h, l) && l.header.min <= k < l.header.max
    requires k !in Contents(l.entries)
    requires sibling >= l.header.capacity
    ensures var r := Resize(h, l, k, v, sibling, addr);
            && r.Some?
            && var cur, sib := r.value.current, r.value.sibling;
            && LeafInv(h, cur) && LeafInv(h, sib)
            && Contents(cur.entries).Keys !! Contents(sib.entries).Keys
            && Contents(cur.entries) + Contents(sib.entries) == Contents(l.entries)[k := v]
            && cur.header.min == l.header.min && cur.header.max == sib.header.min && sib.header.max == l.header.max
            && cur.header.version == l.header.version + 1 && sib.header.version == 0
            && cur.header.capacity == l.header.capacity && sib.header.capacity == sibling
            && cur.header.right == Some(addr) && cur.header.rightCapacity == sibling
            && sib.header.right == l.header.right && sib.header.rightCapacity == l.header.rightCapacity
            && cur.header.max < l.header.max && |Contents(sib.entries)| > 0
  {
    hide LeafInv, SortedPairs, Contents, Ascending, PairsIn, Fill, KeysDistinct, MapOf, Packed;
    SortedPairsAre(h, l, k, v);
    LeafParts(h, l);
    var ps := SortedPairs(l, k, v);
    var split := SplitAt(l.header.capacity, sibling, |ps|);
    var a0, b0 := Side(Blank(l.header.capacity).fp, CleanedAll(l.entries)), Blank(sibling);
    NothingPacked(h, a0, l.header.version + 1);
    NothingPacked(h, b0, 0);
    FillPacked(h, a0, ps[..split], l.header.version + 1);
    FillPacked(h, b0, ps[split..], 0);
    var a, b := Fill(h, a0, ps[..split]).value, Fill(h, b0, ps[split..]).value;
    Divided(h, l, sibling, addr, ps, split, a, b);
    LeafParts(h, Resize(h, l, k, v, sibling, addr).value.current);
    LeafParts(h, Resize(h, l, k, v, sibling, addr).value.sibling);
    MapOfSplit(ps, split, Contents(a.entries), Contents(b.entries));
    MapOfOnce(ps, Contents(l.entries)[k := v], Contents(a.entries) + Contents(b.entries));
    MapOfFirst(ps[split..], Contents(b.entries));
    SplitBelow(ps, split, l.header.min, l.header.max);
  }

  lemma MapOfSize(ps: seq<Pair>, m: map<Key, Value>)
    requires Ascending(ps) && MapOf(ps, m)
    ensures |m| == |ps|
  {
    KeysCount(ps);
    assert m.Keys == KeysOf(ps);
  }

  lemma AscendingPrefix(ps: seq<Pair>, n: nat)
    requires Ascending(ps) && n <= |ps|
    ensures Ascending(ps[..n])
  {}

  /** A sibling of the same capacity takes half the pairs, rounded up; a larger one takes them all. */
  lemma ResizeBalanced(h: Hash, l: Leaf, k: Key, v: Value, sibling: nat, addr: Addr)
    requires LeafInv(h, l) && l.header.min <= k < l.header.max
    requires k !in Contents(l.entries)
    requires sibling >= l.header.capacity
    ensures var r := Resize(h, l, k, v, sibling, addr);
            && r.Some? && KeysDistinct(r.value.current.entries)
            && |Contents(r.value.current.entries)|
               == if sibling == l.header.capacity then (|Contents(l.entries)| + 1) / 2 else 0
  {
    hide LeafInv, SortedPairs, Contents, Ascending, PairsIn, Fill, KeysDistinct, MapOf, Packed;
    SortedPairsAre(h, l, k, v);
    LeafParts(h, l);
    var ps := SortedPairs(l, k, v);
    var split := SplitAt(l.header.capacity, sibling, |ps|);
    var a0, b0 := Side(Blank(l.header.capacity).fp, CleanedAll(l.entries)), Blank(sibling);
    NothingPacked(h, a0, l.header.version + 1);
    NothingPacked(h, b0, 0);
    FillPacked(h, a0, ps[..split], l.header.version + 1);
    FillPacked(h, b0, ps[split..], 0);
    var a, b := Fill(h, a0, ps[..split]).value, Fill(h, b0, ps[split..]).value;
    Divided(h, l, sibling, addr, ps, split, a, b);
    LeafParts(h, Resize(h, l, k, v, sibling, addr).value.current);
    AscendingPrefix(ps, split);
    MapOfSize(ps[..split], Contents(a.entries));
    MapOfSize(ps, Contents(l.entries)[k := v]);
    assert |Contents(l.entries)[k := v]| == |Contents(l.entries)| + 1;
  }

  lemma NothingPacked(h: Hash, s: Side, version: nat)
    requires |s.fp| == |s.entries|
    requires forall i :: 0 <= i < |s.fp| ==> s.fp[i] == 0 && !s.entries[i].valid && s.entries[i].version == version
    ensures Packed(h, s, [], version)
  {}

  lemma MapOfFirst(ps: seq<Pair>, m: map<Key, Value>)
    requires MapOf(ps, m) && ps != []
    ensures |m| > 0
  {
    assert ps[0].key in m;
  }

  lemma SplitBelow(ps: seq<Pair>, split: nat, min: Key, max: Key)
    requires PairsIn(ps, min, max) && split < |ps|
    ensures min <= ps[split].key < max
  {}

  lemma LeafParts(h: Hash, l: Leaf)
    requires LeafInv(h, l)
    ensures |l.entries| == |l.table.fp| == l.header.capacity > 0 && KeysDistinct(l.entries)
    ensures forall i :: 0 <= i < |l.entries| ==> l.entries[i].version == l.header.version
  {}
}
