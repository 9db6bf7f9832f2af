/** The hopscotch-hashed leaf of CHIME as a value: entries with per-home hop bitmaps, the path of
    hops that makes room for a key, and what every such path keeps. All sizes are parameters. */
module Hopscotch {

  import opened Common

  const KEY_NULL: Key := 0
  const VALUE_NULL: Value := 0

  /** span is leafSpanSize, neighbor is neighborSize and Home is get_hashed_leaf_entry_index, of
      which nothing is known but its range. */
  datatype Config = Config(span: nat, neighbor: nat, Home: Key -> nat) {
    ghost predicate Valid() {
      0 < neighbor <= span && forall k :: Home(k) < span
    }

    /** The array index behind a logical index, `(i + span) % span` in the source. */
    function Slot(i: int): (r: nat)
      requires Valid() && 0 <= i + span < 3 * span
      ensures r < span
    {
      if i < 0 then i + span else if i < span then i else i - span
    }

    /** Distance travelled from slot p forwards to slot i. */
    function Off(p: nat, i: nat): (z: nat)
      requires Valid() && p < span && i < span
      ensures z < span
    {
      if i >= p then i - p else i + span - p
    }
  }

  /** hop[z] is bit neighborSize - z - 1 of hop_bitmap. */
  datatype LeafEntry = LeafEntry(key: Key, value: Value, hop: seq<bool>)

  type Leaf = seq<LeafEntry>

  lemma MulBound(a: nat, d: int)
    ensures d >= 1 ==> a * d >= a
    ensures d <= -1 ==> a * d <= 0 - a
  {}

  lemma SlotIsModulo(c: Config, i: int)
    requires c.Valid() && 0 <= i + c.span < 3 * c.span
    ensures c.Slot(i) == (i + c.span) % c.span
  {
    var q := (i + c.span) / c.span;
    var r := (i + c.span) % c.span;
    assert i + c.span == c.span * q + r;
    var q' := if i < 0 then 0 else if i < c.span then 1 else 2;
    MulBound(c.span, q - q');
    assert c.span * (q - q') == c.span * q - c.span * q';
  }

  // ---------------------------------------------------------------- the leaf invariant

  ghost predicate Shape(c: Config, s: Leaf) {
    && c.Valid()
    && |s| == c.span
    && forall i :: 0 <= i < |s| ==> |s[i].hop| == c.neighbor
  }

  predicate HomedAt(c: Config, e: LeafEntry, p: nat) {
    e.key != KEY_NULL && c.Home(e.key) == p
  }

  ghost predicate BitsExact(c: Config, s: Leaf)
    requires Shape(c, s)
  {
    forall p, z :: 0 <= p < c.span && 0 <= z < c.neighbor ==>
      (s[p].hop[z] <==> HomedAt(c, s[c.Slot(p + z)], p))
  }

  ghost predicate NearHome(c: Config, s: Leaf)
    requires Shape(c, s)
  {
    forall i :: 0 <= i < c.span && s[i].key != KEY_NULL ==> c.Off(c.Home(s[i].key), i) < c.neighbor
  }

  ghost predicate Distinct(s: Leaf) {
    forall i, j :: 0 <= i < j < |s| && s[i].key != KEY_NULL ==> s[i].key != s[j].key
  }

  /** Bit z of home p is set exactly when slot p+z holds a key hashing to p, every key lies within
      the neighbourhood of its home, and no key occurs twice. */
  ghost predicate HopInv(c: Config, s: Leaf) {
    Shape(c, s) && BitsExact(c, s) && NearHome(c, s) && Distinct(s)
  }

  ghost predicate Has(s: Leaf, k: Key) {
    exists i :: 0 <= i < |s| && s[i].key == k
  }

  ghost function SlotOf(s: Leaf, k: Key): (i: nat)
    requires Has(s, k)
    ensures i < |s| && s[i].key == k
  {
    var i :| 0 <= i < |s| && s[i].key == k;
    i
  }

  ghost function Keys(s: Leaf): set<Key> {
    set i | 0 <= i < |s| && s[i].key != KEY_NULL :: s[i].key
  }

  /** The finite map a leaf stands for. */
  ghost function Contents(s: Leaf): map<Key, Value> {
    map k | k in Keys(s) :: s[SlotOf(s, k)].value
  }

  lemma ContentsAt(s: Leaf, i: nat)
    requires Distinct(s) && i < |s| && s[i].key != KEY_NULL
    ensures s[i].key in Contents(s) && Contents(s)[s[i].key] == s[i].value
  {}

  lemma KeysAt(s: Leaf, k: Key)
    ensures k in Keys(s) <==> k != KEY_NULL && Has(s, k)
    ensures k in Contents(s) <==> k != KEY_NULL && Has(s, k)
  {}

  /** Bits read by slot instead of by distance. */
  lemma BitAt(c: Config, s: Leaf, p: nat, i: nat)
    requires HopInv(c, s) && p < c.span && i < c.span && c.Off(p, i) < c.neighbor
    ensures s[p].hop[c.Off(p, i)] <==> HomedAt(c, s[i], p)
  {}

  // ---------------------------------------------------------------- one hop

  /** The logical index of the home of the key in logical slot i. */
  function LogicalHome(c: Config, s: Leaf, i: int): (h: int)
    requires c.Valid() && |s| == c.span && 0 <= i < 2 * c.span
  {
    i - c.Off(c.Home(s[c.Slot(i)].key), c.Slot(i))
  }

  /** The test of the innermost loop: the key at h, whose home bitmap has it at distance z, may move to j. */
  predicate Movable(c: Config, s: Leaf, h: int, j: int, z: int)
    requires c.Valid() && |s| == c.span
    requires c.neighbor <= j < 2 * c.span && h < j
  {
    && 0 <= z < c.neighbor
    && h - z + c.neighbor > j
    && z < |s[c.Slot(h - z)].hop|
    && s[c.Slot(h - z)].hop[z]
  }

  /** Scan z, z-1, ..., 0 for the home of the key at h; -1 when it may not move to j. */
  function HomeDistance(c: Config, s: Leaf, h: int, j: int, z: int): (r: int)
    requires c.Valid() && |s| == c.span
    requires c.neighbor <= j < 2 * c.span && h < j && -1 <= z < c.neighbor
    ensures -1 <= r <= z
    ensures r >= 0 ==> Movable(c, s, h, j, r)
    ensures forall y :: r < y <= z ==> !Movable(c, s, h, j, y)
    decreases z + 1
  {
    if z < 0 then -1
    else if Movable(c, s, h, j, z) then z
    else HomeDistance(c, s, h, j, z - 1)
  }

  datatype Hop = NoHop | Hop(from: int, dist: int)

  /** Scan the slots j - offset, ..., j - 1 for the farthest key that may move to j. */
  function FindHop(c: Config, s: Leaf, j: int, offset: nat): (r: Hop)
    requires c.Valid() && |s| == c.span
    requires c.neighbor <= j < 2 * c.span && offset < c.neighbor
    ensures r.Hop? ==> j - offset <= r.from < j && Movable(c, s, r.from, j, r.dist)
    ensures forall h, z :: j - offset <= h < (if r.Hop? then r.from else j) ==> !Movable(c, s, h, j, z)
    decreases offset
  {
    if offset == 0 then NoHop
    else
      var z := HomeDistance(c, s, j - offset, j, c.neighbor - 1);
      if z >= 0 then Hop(j - offset, z) else FindHop(c, s, j, offset - 1)
  }

  function PutKV(s: Leaf, i: nat, k: Key, v: Value): (r: Leaf)
    requires i < |s|
  {
    s[i := s[i].(key := k, value := v)]
  }

  function PutBit(s: Leaf, p: nat, z: nat, b: bool): (r: Leaf)
    requires p < |s| && z < |s[p].hop|
  {
    s[p := s[p].(hop := s[p].hop[z := b])]
  }

  /** Move the key at logical slot h, whose home is z slots back, to the hole j; h becomes the hole. */
  function Move(c: Config, s: Leaf, h: int, z: int, j: int): (r: Leaf)
    requires c.Valid() && |s| == c.span && (forall i :: 0 <= i < |s| ==> |s[i].hop| == c.neighbor)
    requires c.neighbor <= j < 2 * c.span && h < j && Movable(c, s, h, j, z)
    ensures |r| == c.span && forall i :: 0 <= i < |r| ==> |r[i].hop| == c.neighbor
  {
    var e := s[c.Slot(h)];
    var p := c.Slot(h - z);
    var s1 := PutKV(s, c.Slot(j), e.key, e.value);
    var s2 := PutBit(s1, p, z, false);
    var s3 := PutBit(s2, p, j - h + z, true);
    PutKV(s3, c.Slot(h), KEY_NULL, VALUE_NULL)
  }

  /** Store k in its own neighbourhood: slot j, at distance j - b from its home b. */
  function Place(c: Config, s: Leaf, b: nat, j: int, k: Key, v: Value): (r: Leaf)
    requires c.Valid() && |s| == c.span && (forall i :: 0 <= i < |s| ==> |s[i].hop| == c.neighbor)
    requires b < c.span && b <= j < b + c.neighbor
  {
    PutBit(PutKV(s, c.Slot(j), k, v), b, j - b, true)
  }

  /** A hole at j, within the window that starts at b. */
  ghost predicate HoleAt(c: Config, s: Leaf, b: nat, j: int) {
    HopInv(c, s) && b < c.span && b <= j < b + c.span && s[c.Slot(j)].key == KEY_NULL
  }

  lemma MovableIsHome(c: Config, s: Leaf, b: nat, h: int, j: int, z: int)
    requires HopInv(c, s) && b < c.span && b + c.neighbor <= j < b + c.span && j - c.neighbor < h < j
    requires Movable(c, s, h, j, z)
    ensures s[c.Slot(h)].key != KEY_NULL
    ensures c.Slot(h - z) == c.Home(s[c.Slot(h)].key) && LogicalHome(c, s, h) == h - z
    ensures b < h - z && j - c.neighbor < h - z
  {}

  lemma MovableHomes(c: Config, s: Leaf, b: nat, h: int, j: int)
    requires HopInv(c, s) && b < c.span && b + c.neighbor <= j < b + c.span && j - c.neighbor < h < j
    ensures forall z :: Movable(c, s, h, j, z) ==> h - z == LogicalHome(c, s, h) && b < h - z && j - c.neighbor < h - z
  {
    hide BitsExact, NearHome, Distinct, Movable, LogicalHome;
    forall z | Movable(c, s, h, j, z)
      ensures h - z == LogicalHome(c, s, h) && b < h - z && j - c.neighbor < h - z
    {
      MovableIsHome(c, s, b, h, j, z);
    }
  }

  /** The bitmap test of the insert and the hash test of the split-key chooser agree. */
  lemma MovableIff(c: Config, s: Leaf, b: nat, h: int, j: int)
    requires HopInv(c, s) && b < c.span && b + c.neighbor <= j < b + c.span && j - c.neighbor < h < j
    ensures (exists z :: Movable(c, s, h, j, z)) <==>
            s[c.Slot(h)].key != KEY_NULL && LogicalHome(c, s, h) + c.neighbor > j
    ensures forall z :: Movable(c, s, h, j, z) ==> h - z == LogicalHome(c, s, h) && b < h - z && j - c.neighbor < h - z
  {
    MovableHomes(c, s, b, h, j);
    if z :| Movable(c, s, h, j, z) {
      MovableIsHome(c, s, b, h, j, z);
    }
    if s[c.Slot(h)].key != KEY_NULL && LogicalHome(c, s, h) + c.neighbor > j {
      var p := c.Home(s[c.Slot(h)].key);
      var z := c.Off(p, c.Slot(h));
      BitAt(c, s, p, c.Slot(h));
      assert c.Slot(h - z) == p;
      assert Movable(c, s, h, j, z);
    }
  }

  // ---------------------------------------------------------------- what one hop keeps

  /** r is s with the key of slot h moved to the hole j, its home p keeping exact bits. */
  ghost predicate Moved(c: Config, s: Leaf, h: nat, j: nat, p: nat, y: nat, x: nat, r: Leaf) {
    && Shape(c, s) && Shape(c, r) && h < c.span && j < c.span && h != j && p < c.span
    && x < c.neighbor && y < c.neighbor && x != y
    && (forall i :: 0 <= i < c.span && i != h && i != j ==> r[i].key == s[i].key && r[i].value == s[i].value)
    && r[j].key == s[h].key && r[j].value == s[h].value && r[h].key == KEY_NULL
    && (forall q :: 0 <= q < c.span && q != p ==> r[q].hop == s[q].hop)
    && r[p].hop == s[p].hop[y := false][x := true]
  }

  lemma MoveEffect(c: Config, s: Leaf, b: nat, h: int, z: int, j: int)
    requires HoleAt(c, s, b, j) && b + c.neighbor <= j && j - c.neighbor < h < j
    requires Movable(c, s, h, j, z)
    ensures Moved(c, s, c.Slot(h), c.Slot(j), c.Slot(h - z), z, j - h + z, Move(c, s, h, z, j))
  {
  }

  lemma MovedBits(c: Config, s: Leaf, h: nat, j: nat, p: nat, y: nat, x: nat, r: Leaf)
    requires HopInv(c, s) && Moved(c, s, h, j, p, y, x, r)
    requires s[j].key == KEY_NULL && HomedAt(c, s[h], p) && c.Slot(p + y) == h && c.Slot(p + x) == j
    ensures BitsExact(c, r)
  {
    forall q, w | 0 <= q < c.span && 0 <= w < c.neighbor
      ensures r[q].hop[w] <==> HomedAt(c, r[c.Slot(q + w)], q)
    {
      assert s[q].hop[w] <==> HomedAt(c, s[c.Slot(q + w)], q);
    }
  }

  lemma MovedContents(c: Config, s: Leaf, h: nat, j: nat, p: nat, y: nat, x: nat, r: Leaf)
    requires Moved(c, s, h, j, p, y, x, r) && s[j].key == KEY_NULL && Distinct(s) && Distinct(r)
    ensures Contents(r) == Contents(s)
  {
    forall k ensures k in Contents(r) <==> k in Contents(s)
      ensures k in Contents(s) ==> Contents(r)[k] == Contents(s)[k]
    {
      KeysAt(r, k);
      KeysAt(s, k);
      if k != KEY_NULL && Has(s, k) {
        var i := SlotOf(s, k);
        ContentsAt(s, i);
        var i' := if i == h then j else i;
        assert r[i'].key == k;
        ContentsAt(r, i');
      }
      if k != KEY_NULL && Has(r, k) {
        var i := SlotOf(r, k);
        var i' := if i == j then h else i;
        assert s[i'].key == k;
      }
    }
  }

  lemma MovedKeeps(c: Config, s: Leaf, h: nat, j: nat, p: nat, y: nat, x: nat, r: Leaf)
    requires HopInv(c, s) && Moved(c, s, h, j, p, y, x, r)
    requires s[j].key == KEY_NULL && HomedAt(c, s[h], p) && c.Slot(p + y) == h && c.Slot(p + x) == j
    ensures HopInv(c, r) && Contents(r) == Contents(s)
  {
    MovedBits(c, s, h, j, p, y, x, r);
    assert c.Off(p, j) == x;
    assert Distinct(r);
    MovedContents(c, s, h, j, p, y, x, r);
  }

  lemma MoveKeeps(c: Config, s: Leaf, b: nat, h: int, z: int, j: int)
    requires HoleAt(c, s, b, j) && b + c.neighbor <= j && j - c.neighbor < h < j
    requires Movable(c, s, h, j, z)
    ensures HoleAt(c, Move(c, s, h, z, j), b, h)
    ensures Contents(Move(c, s, h, z, j)) == Contents(s)
  {
    hide BitsExact, NearHome, Distinct, Contents;
    MoveEffect(c, s, b, h, z, j);
    MovableIsHome(c, s, b, h, j, z);
    assert c.Slot(c.Slot(h - z) + z) == c.Slot(h) && c.Slot(c.Slot(h - z) + (j - h + z)) == c.Slot(j);
    MovedKeeps(c, s, c.Slot(h), c.Slot(j), c.Slot(h - z), z, j - h + z, Move(c, s, h, z, j));
  }

  /** r is s with k stored in the empty slot j, at distance x from its home p. */
  ghost predicate Placed(c: Config, s: Leaf, p: nat, j: nat, x: nat, k: Key, v: Value, r: Leaf) {
    && Shape(c, s) && Shape(c, r) && j < c.span && p < c.span && x < c.neighbor
    && (forall i :: 0 <= i < c.span && i != j ==> r[i].key == s[i].key && r[i].value == s[i].value)
    && r[j].key == k && r[j].value == v
    && (forall q :: 0 <= q < c.span && q != p ==> r[q].hop == s[q].hop)
    && r[p].hop == s[p].hop[x := true]
  }

  lemma PlacedBits(c: Config, s: Leaf, p: nat, j: nat, x: nat, k: Key, v: Value, r: Leaf)
    requires HopInv(c, s) && Placed(c, s, p, j, x, k, v, r)
    requires s[j].key == KEY_NULL && k != KEY_NULL && c.Home(k) == p && c.Slot(p + x) == j
    ensures BitsExact(c, r)
  {
    forall q, w | 0 <= q < c.span && 0 <= w < c.neighbor
      ensures r[q].hop[w] <==> HomedAt(c, r[c.Slot(q + w)], q)
    {
      assert s[q].hop[w] <==> HomedAt(c, s[c.Slot(q + w)], q);
    }
  }

  lemma PlacedContents(c: Config, s: Leaf, p: nat, j: nat, x: nat, k: Key, v: Value, r: Leaf)
    requires Placed(c, s, p, j, x, k, v, r) && s[j].key == KEY_NULL && k != KEY_NULL
    requires Distinct(s) && Distinct(r)
    ensures Contents(r) == Contents(s)[k := v]
  {
    forall y ensures y in Contents(r) <==> y in Contents(s)[k := v]
      ensures y in Contents(r) ==> Contents(r)[y] == Contents(s)[k := v][y]
    {
      KeysAt(r, y);
      KeysAt(s, y);
      if y == k {
        ContentsAt(r, j);
      } else {
        if y != KEY_NULL && Has(r, y) { ContentsAt(r, SlotOf(r, y)); ContentsAt(s, SlotOf(r, y)); }
        if y != KEY_NULL && Has(s, y) { assert r[SlotOf(s, y)].key == y; }
      }
    }
  }

  lemma PlacedKeeps(c: Config, s: Leaf, p: nat, j: nat, x: nat, k: Key, v: Value, r: Leaf)
    requires HopInv(c, s) && Placed(c, s, p, j, x, k, v, r)
    requires s[j].key == KEY_NULL && k != KEY_NULL && c.Home(k) == p && c.Slot(p + x) == j && !Has(s, k)
    ensures HopInv(c, r) && Contents(r) == Contents(s)[k := v]
  {
    PlacedBits(c, s, p, j, x, k, v, r);
    assert c.Off(p, j) == x;
    assert Distinct(r);
    PlacedContents(c, s, p, j, x, k, v, r);
  }

  lemma PlaceKeeps(c: Config, s: Leaf, b: nat, j: int, k: Key, v: Value)
    requires HoleAt(c, s, b, j) && j < b + c.neighbor
    requires k != KEY_NULL && c.Home(k) == b && !Has(s, k)
    ensures HopInv(c, Place(c, s, b, j, k, v))
    ensures Contents(Place(c, s, b, j, k, v)) == Contents(s)[k := v]
    ensures !s[b].hop[j - b]
  {
    assert c.Slot(b + (j - b)) == c.Slot(j);
    PlacedKeeps(c, s, b, c.Slot(j), j - b, k, v, Place(c, s, b, j, k, v));
  }

  // ---------------------------------------------------------------- the path of hops

  /** The insert from hole j: k goes to j if j is in its neighbourhood, otherwise the farthest
      movable key goes to j and the insert continues from where that key was. */
  function HopTo(c: Config, s: Leaf, b: nat, j: int, k: Key, v: Value): (r: Option<Leaf>)
    requires c.Valid() && |s| == c.span && (forall i :: 0 <= i < |s| ==> |s[i].hop| == c.neighbor)
    requires b < c.span && b <= j < b + c.span
    ensures r.Some? ==> |r.value| == c.span && forall i :: 0 <= i < c.span ==> |r.value[i].hop| == c.neighbor
    decreases j - b
  {
    if j < b + c.neighbor then Some(Place(c, s, b, j, k, v))
    else match FindHop(c, s, j, c.neighbor - 1)
      case NoHop => None
      case Hop(h, z) => HopTo(c, Move(c, s, h, z, j), b, h, k, v)
  }

  /** The array slots the insert rewrites, in the order `hopped_idxes` records them. */
  function HopPath(c: Config, s: Leaf, b: nat, j: int): (r: seq<nat>)
    requires c.Valid() && |s| == c.span && (forall i :: 0 <= i < |s| ==> |s[i].hop| == c.neighbor)
    requires b < c.span && b <= j < b + c.span
    ensures forall x :: 0 <= x < |r| ==> r[x] < c.span
    decreases j - b
  {
    [c.Slot(j)] +
    if j < b + c.neighbor then []
    else match FindHop(c, s, j, c.neighbor - 1)
      case NoHop => []
      case Hop(h, z) => HopPath(c, Move(c, s, h, z, j), b, h)
  }

  /** One unfolding of the path. */
  lemma HopUnfold(c: Config, s: Leaf, b: nat, j: int, k: Key, v: Value)
    requires Shape(c, s) && b < c.span && b <= j < b + c.span
    ensures j < b + c.neighbor ==>
              HopTo(c, s, b, j, k, v) == Some(Place(c, s, b, j, k, v)) && HopPath(c, s, b, j) == [c.Slot(j)]
    ensures j >= b + c.neighbor ==>
              match FindHop(c, s, j, c.neighbor - 1)
              case NoHop => HopTo(c, s, b, j, k, v) == None && HopPath(c, s, b, j) == [c.Slot(j)]
              case Hop(h, z) => HopTo(c, s, b, j, k, v) == HopTo(c, Move(c, s, h, z, j), b, h, k, v)
                                && HopPath(c, s, b, j) == [c.Slot(j)] + HopPath(c, Move(c, s, h, z, j), b, h)
  {
  }

  lemma {:induction false} HopToKeeps(c: Config, s: Leaf, b: nat, j: int, k: Key, v: Value)
    requires HoleAt(c, s, b, j) && k != KEY_NULL && c.Home(k) == b && !Has(s, k)
    requires HopTo(c, s, b, j, k, v).Some?
    ensures HopInv(c, HopTo(c, s, b, j, k, v).value)
    ensures Contents(HopTo(c, s, b, j, k, v).value) == Contents(s)[k := v]
    decreases j - b
  {
    if j < b + c.neighbor {
      PlaceKeeps(c, s, b, j, k, v);
    } else {
      var Hop(h, z) := FindHop(c, s, j, c.neighbor - 1);
      MoveKeeps(c, s, b, h, z, j);
      KeysAt(s, k);
      KeysAt(Move(c, s, h, z, j), k);
      HopToKeeps(c, Move(c, s, h, z, j), b, h, k, v);
    }
  }

  /** The first empty logical slot in [i, end); end when there is none. */
  function FirstEmpty(c: Config, s: Leaf, i: int, end: int): (e: int)
    requires c.Valid() && |s| == c.span && 0 <= i <= end <= 2 * c.span
    ensures i <= e <= end
    ensures e < end ==> s[c.Slot(e)].key == KEY_NULL
    ensures forall x :: i <= x < e ==> s[c.Slot(x)].key != KEY_NULL
    decreases end - i
  {
    if i == end || s[c.Slot(i)].key == KEY_NULL then i else FirstEmpty(c, s, i + 1, end)
  }

  /** hopscotch_insert_and_unlock on the entry_num entries read from the home of k on; None asks for a split. */
  function LeafInsert(c: Config, s: Leaf, k: Key, v: Value, entryNum: nat): (r: Option<Leaf>)
    requires c.Valid() && |s| == c.span && (forall i :: 0 <= i < |s| ==> |s[i].hop| == c.neighbor)
    requires entryNum <= c.span
    ensures r.Some? ==> |r.value| == c.span && forall i :: 0 <= i < c.span ==> |r.value[i].hop| == c.neighbor
  {
    var b := c.Home(k);
    var e := FirstEmpty(c, s, b, b + entryNum);
    if e == b + entryNum then None else HopTo(c, s, b, e, k, v)
  }

  /** Every successful insert of an absent key keeps the leaf exact and adds just that key. */
  lemma LeafInsertKeeps(c: Config, s: Leaf, k: Key, v: Value, entryNum: nat)
    requires HopInv(c, s) && entryNum <= c.span && k != KEY_NULL && !Has(s, k)
    requires LeafInsert(c, s, k, v, entryNum).Some?
    ensures HopInv(c, LeafInsert(c, s, k, v, entryNum).value)
    ensures Contents(LeafInsert(c, s, k, v, entryNum).value) == Contents(s)[k := v]
  {
    hide HopTo, BitsExact, NearHome, Distinct;
    var b := c.Home(k);
    HopToKeeps(c, s, b, FirstEmpty(c, s, b, b + entryNum), k, v);
  }
}
