/** Reads torn by one insert, byte by byte. An entry on the path of the insert carries a new version, so it is
    read as a whole. The home of a moved key may be off the path: then its two-byte bitmap changes without a
    new version, and where the two bytes lie in different cache lines a reader may see one of them from before
    and one from after the insert. */
module HopscotchTorn {

  import opened Common
  import opened Hopscotch
  import opened HopscotchPath
  import opened HopscotchRead

  /** hop_bitmap has 16 bits; distances below Cut are in its upper byte, the others in its lower byte. */
  function Cut(c: Config): (n: nat) {
    if c.neighbor > 8 then c.neighbor - 8 else 0
  }

  /** Each byte of ht is from hs or from hr. */
  ghost predicate BytesFrom(c: Config, hs: seq<bool>, hr: seq<bool>, ht: seq<bool>, upperOld: bool, lowerOld: bool) {
    && |hs| == |hr| == |ht| == c.neighbor
    && forall z :: 0 <= z < c.neighbor ==>
         ht[z] == if (if z < Cut(c) then upperOld else lowerOld) then hs[z] else hr[z]
  }

  ghost predicate TornBitmap(c: Config, hs: seq<bool>, hr: seq<bool>, ht: seq<bool>) {
    exists u, l :: BytesFrom(c, hs, hr, ht, u, l)
  }

  /** What a reader may see while an insert turns s into r. The entries in whole are read as a whole: they have
      a new version, or their bitmap lies in one line. */
  ghost predicate TornBytes(c: Config, s: Leaf, r: Leaf, whole: set<nat>, t: Leaf) {
    && Shape(c, s) && Shape(c, r) && Shape(c, t) && Torn(s, r, t)
    && (forall i :: 0 <= i < c.span ==> TornBitmap(c, s[i].hop, r[i].hop, t[i].hop))
    && (forall i :: 0 <= i < c.span && i in whole ==> t[i] == s[i] || t[i] == r[i])
  }

  /** Entries with another pair have a new version. */
  ghost predicate Versioned(s: Leaf, r: Leaf, whole: set<nat>) {
    |s| == |r| && forall i :: 0 <= i < |s| && !SamePair(s[i], r[i]) ==> i in whole
  }

  /** The bits of q before and after are in different bytes of the bitmap of its home, and that bitmap is not
      read as a whole. */
  ghost predicate SplitBits(c: Config, s: Leaf, r: Leaf, whole: set<nat>, q: Key)
    requires Shape(c, s) && Shape(c, r)
  {
    && Has(s, q) && Has(r, q) && c.Home(q) !in whole
    && (c.Off(c.Home(q), SlotOf(s, q)) < Cut(c)) != (c.Off(c.Home(q), SlotOf(r, q)) < Cut(c))
  }

  /** A torn read that answers "absent" for q. */
  ghost predicate Misses(c: Config, s: Leaf, r: Leaf, whole: set<nat>, t: Leaf, q: Key) {
    TornBytes(c, s, r, whole, t) && Answers(c, t, q, Absent)
  }

  /** A torn read that misses a present key has seen its two bits from different sides. */
  lemma MissNeedsSplit(c: Config, s: Leaf, k: Key, r: Leaf, whole: set<nat>, t: Leaf, q: Key)
    requires Inserted(c, s, k, r) && Misses(c, s, r, whole, t, q) && q != KEY_NULL && q != k && Has(s, q)
    ensures SplitBits(c, s, r, whole, q)
  {
    hide BitsExact, NearHome, Distinct, HomesIncrease, TornBitmap, SlotOf;
    var p, a := c.Home(q), SlotOf(s, q);
    assert Has(r, q);
    var a' := SlotOf(r, q);
    SlotNear(c, s, q);
    SlotNear(c, r, q);
    var z, z' := c.Off(p, a), c.Off(p, a');
    assert !HoldsKey(c, t, q, z) && !HoldsKey(c, t, q, z');
    assert SamePair(t[a], r[a]) && SamePair(t[a'], s[a']);
    MoverAlone(c, s, k, r, a, a');
    assert c.Slot(p + z) == a && c.Slot(p + z') == a';
    assert !t[p].hop[z] && !t[p].hop[z'];
    BitsApart(c, s[p].hop, r[p].hop, t[p].hop, z, z');
  }

  lemma BitsApart(c: Config, hs: seq<bool>, hr: seq<bool>, ht: seq<bool>, z: nat, z': nat)
    requires TornBitmap(c, hs, hr, ht) && |hs| == |hr| == |ht| == c.neighbor && z < c.neighbor && z' < c.neighbor
    requires hs[z] && hr[z'] && !ht[z] && !ht[z']
    ensures (z < Cut(c)) != (z' < Cut(c)) && ht != hs && ht != hr
  {
    var u, l :| BytesFrom(c, hs, hr, ht, u, l);
  }

  /** The bit of a present key is set. */
  lemma SlotNear(c: Config, s: Leaf, q: Key)
    requires HopInv(c, s) && Has(s, q) && q != KEY_NULL
    ensures c.Off(c.Home(q), SlotOf(s, q)) < c.neighbor && s[c.Home(q)].hop[c.Off(c.Home(q), SlotOf(s, q))]
  {
    hide BitsExact, Distinct;
    BitAt(c, s, c.Home(q), SlotOf(s, q));
  }

  /** Only the moved key changes bits of its home. */
  lemma OtherBits(c: Config, s: Leaf, k: Key, r: Leaf, a: nat, a': nat, y: nat)
    requires Inserted(c, s, k, r) && a < c.span && a' < c.span && a != a'
    requires s[a].key != KEY_NULL && r[a'].key == s[a].key && y < c.neighbor
    ensures var p := c.Home(s[a].key);
            y != c.Off(p, a) && y != c.Off(p, a') ==> (s[p].hop[y] <==> r[p].hop[y])
  {
    hide NearHome, HomesIncrease;
    var p := c.Home(s[a].key);
    var i := c.Slot(p + y);
    assert LeavesSlot(s, r, a);
    OneMover(c, s, r, c.Home(k), a, a);
    if i != a && i != a' {
      if HomedAt(c, s[i], p) && !HomedAt(c, r[i], p) {
        assert LeavesSlot(s, r, i);
        OneMover(c, s, r, c.Home(k), a, i);
        assert false;
      }
      if HomedAt(c, r[i], p) && !HomedAt(c, s[i], p) {
        var x := r[i].key;
        assert Has(r, x);
        var m := SlotOf(s, x);
        assert LeavesSlot(s, r, m);
        OneMover(c, s, r, c.Home(k), a, m);
        assert false;
      }
    }
  }

  /** The read that misses q: the slot q left is read late, all others early, and of the bitmap of its home the
      byte of the old bit is read late and the other early. */
  function MissingRead(c: Config, s: Leaf, r: Leaf, p: nat, a: nat, upperOld: bool): (t: Leaf)
    requires |s| == |r| == c.span && p < c.span && a < c.span && |s[p].hop| == |r[p].hop| == c.neighbor
  {
    var hop := seq(c.neighbor, z requires 0 <= z < c.neighbor =>
      if (if z < Cut(c) then upperOld else !upperOld) then s[p].hop[z] else r[p].hop[z]);
    s[a := r[a]][p := s[p].(hop := hop)]
  }

  lemma SplitMisses(c: Config, s: Leaf, k: Key, r: Leaf, whole: set<nat>, q: Key) returns (t: Leaf)
    requires Inserted(c, s, k, r) && Versioned(s, r, whole) && q != KEY_NULL && q != k
    requires SplitBits(c, s, r, whole, q)
    ensures Misses(c, s, r, whole, t, q)
  {
    hide BitsExact, NearHome, HomesIncrease, TornBytes, MissingRead, SlotOf;
    var p, a, a' := c.Home(q), SlotOf(s, q), SlotOf(r, q);
    assert a != a' && a in whole && p != a by {
      assert !SamePair(s[a], r[a]);
    }
    t := MissingRead(c, s, r, p, a, !(c.Off(p, a) < Cut(c)));
    MissingTorn(c, s, r, whole, p, a, !(c.Off(p, a) < Cut(c)));
    TornShape(c, s, r, whole, t);
    forall y | 0 <= y < c.neighbor ensures t[p].hop[y] <==> HomedAt(c, t[c.Slot(p + y)], p) {
      MissingBit(c, s, k, r, q, y);
    }
    MissingKey(c, s, r, q, !(c.Off(p, a) < Cut(c)));
  }

  lemma TornShape(c: Config, s: Leaf, r: Leaf, whole: set<nat>, t: Leaf)
    requires TornBytes(c, s, r, whole, t)
    ensures Shape(c, t)
  {}

  lemma MissingKey(c: Config, s: Leaf, r: Leaf, q: Key, upperOld: bool)
    requires Shape(c, s) && Shape(c, r) && Distinct(s) && Distinct(r) && q != KEY_NULL
    requires Has(s, q) && Has(r, q) && SlotOf(s, q) != SlotOf(r, q) && SlotOf(s, q) != c.Home(q)
    ensures var t := MissingRead(c, s, r, c.Home(q), SlotOf(s, q), upperOld);
            |t| == c.span && forall y :: !HoldsKey(c, t, q, y)
  {
    var p, a := c.Home(q), SlotOf(s, q);
    var t := MissingRead(c, s, r, p, a, upperOld);
    forall i | 0 <= i < c.span ensures t[i].key != q {
      assert t[i].key == if i == a then r[i].key else s[i].key;
    }
  }

  lemma MissingTorn(c: Config, s: Leaf, r: Leaf, whole: set<nat>, p: nat, a: nat, upperOld: bool)
    requires Shape(c, s) && Shape(c, r) && Versioned(s, r, whole) && p < c.span && a < c.span
    requires p !in whole && p != a
    ensures TornBytes(c, s, r, whole, MissingRead(c, s, r, p, a, upperOld))
  {
    var t := MissingRead(c, s, r, p, a, upperOld);
    forall i | 0 <= i < c.span ensures TornBitmap(c, s[i].hop, r[i].hop, t[i].hop) {
      if i == p {
        assert BytesFrom(c, s[i].hop, r[i].hop, t[i].hop, upperOld, !upperOld);
      } else {
        assert BytesFrom(c, s[i].hop, r[i].hop, t[i].hop, i != a, i != a);
      }
    }
  }

  lemma MissingBit(c: Config, s: Leaf, k: Key, r: Leaf, q: Key, y: nat)
    requires Inserted(c, s, k, r) && q != KEY_NULL && q != k && Has(s, q) && Has(r, q) && y < c.neighbor
    requires SlotOf(s, q) != SlotOf(r, q) && SlotOf(s, q) != c.Home(q)
    requires (c.Off(c.Home(q), SlotOf(s, q)) < Cut(c)) != (c.Off(c.Home(q), SlotOf(r, q)) < Cut(c))
    ensures var p, a := c.Home(q), SlotOf(s, q);
            var t := MissingRead(c, s, r, p, a, !(c.Off(p, a) < Cut(c)));
            t[p].hop[y] <==> HomedAt(c, t[c.Slot(p + y)], p)
  {
    hide HomesIncrease, NearHome, Distinct, BitsExact, MissingRead, SlotOf;
    var p, a, a' := c.Home(q), SlotOf(s, q), SlotOf(r, q);
    SlotNear(c, s, q);
    SlotNear(c, r, q);
    OtherBits(c, s, k, r, a, a', y);
    MoverAlone(c, s, k, r, a, a');
    var i := c.Slot(p + y);
    assert c.Off(p, i) == y;
    BitAt(c, s, p, i);
    BitAt(c, r, p, i);
    MissingBitAt(c, s, r, p, a, a', y);
  }

  lemma MissingBitAt(c: Config, s: Leaf, r: Leaf, p: nat, a: nat, a': nat, y: nat)
    requires Shape(c, s) && Shape(c, r) && p < c.span && a < c.span && a' < c.span && a != p && y < c.neighbor
    requires (c.Off(p, a) < Cut(c)) != (c.Off(p, a') < Cut(c))
    requires !HomedAt(c, r[a], p) && !HomedAt(c, s[a'], p)
    requires y != c.Off(p, a) && y != c.Off(p, a') ==> (s[p].hop[y] <==> r[p].hop[y])
    requires s[p].hop[y] <==> HomedAt(c, s[c.Slot(p + y)], p)
    requires r[p].hop[y] <==> HomedAt(c, r[c.Slot(p + y)], p)
    ensures var t := MissingRead(c, s, r, p, a, !(c.Off(p, a) < Cut(c)));
            t[p].hop[y] <==> HomedAt(c, t[c.Slot(p + y)], p)
  {}

  /** Some torn read of the bytes misses the present key q if and only if the bits of q before and after the
      insert lie in different bytes of its home's bitmap, and that bitmap is neither versioned nor in one line.
      With neighbourhoods of at most eight slots that cannot be. */
  lemma TornBytesIff(c: Config, s: Leaf, k: Key, v: Value, entryNum: nat, whole: set<nat>, q: Key)
    requires HopInv(c, s) && entryNum <= c.span && k != KEY_NULL && !Has(s, k) && q in Contents(s)
    requires LeafInsert(c, s, k, v, entryNum).Some?
    requires forall x :: x in HopPath(c, s, c.Home(k), FirstEmpty(c, s, c.Home(k), c.Home(k) + entryNum)) ==> x in whole
    ensures var r := LeafInsert(c, s, k, v, entryNum).value;
            && ((exists t :: Misses(c, s, r, whole, t, q)) <==>
                SplitBits(c, s, r, whole, q))
            && (c.neighbor <= 8 ==> !SplitBits(c, s, r, whole, q))
  {
    hide HopTo, HopPath, LeafInsert, BitsExact, NearHome, HomesIncrease, Misses, Contents;
    var r := LeafInsert(c, s, k, v, entryNum).value;
    InsertIsInserted(c, s, k, v, entryNum);
    KeysAt(s, q);
    PathVersioned(c, s, k, v, entryNum, whole);
    if t :| Misses(c, s, r, whole, t, q) {
      MissNeedsSplit(c, s, k, r, whole, t, q);
    }
    if SplitBits(c, s, r, whole, q) {
      var t := SplitMisses(c, s, k, r, whole, q);
    }
  }

  lemma PathVersioned(c: Config, s: Leaf, k: Key, v: Value, entryNum: nat, whole: set<nat>)
    requires HopInv(c, s) && entryNum <= c.span && LeafInsert(c, s, k, v, entryNum).Some?
    requires forall x :: x in HopPath(c, s, c.Home(k), FirstEmpty(c, s, c.Home(k), c.Home(k) + entryNum)) ==> x in whole
    ensures Versioned(s, LeafInsert(c, s, k, v, entryNum).value, whole)
  {
    hide HopTo, HopPath, BitsExact, NearHome, Distinct;
    HopPathCovers(c, s, c.Home(k), FirstEmpty(c, s, c.Home(k), c.Home(k) + entryNum), k, v);
  }

  // ---------------------------------------------------------------- a leaf where it happens

  /** Eleven slots, neighbourhoods of ten. Keys 1 and 2 are at home in slot 0, key 3 in slot 1, each key k from 4
      to 10 in slot k - 1, and all other keys in slot 0. */
  const WIDE: Config := Config(11, 10, (k: Key) => if 4 <= k <= 10 then k - 1 else if k == 3 then 1 else 0)

  function WideKey(i: nat): Key {
    if i < 10 then i + 1 else KEY_NULL
  }

  /** Slot i holds key i + 1; slot 10 is empty. */
  function WideLeaf(): (s: Leaf) {
    seq(11, i requires 0 <= i < 11 => LeafEntry(WideKey(i), VALUE_NULL, WideBits(i)))
  }

  function WideBits(p: nat): (h: seq<bool>) {
    seq(10, z requires 0 <= z < 10 =>
      var k := WideKey(if p + z < 11 then p + z else p + z - 11);
      k != KEY_NULL && WIDE.Home(k) == p)
  }

  lemma WideShape()
    ensures Shape(WIDE, WideLeaf())
    ensures forall i :: 0 <= i < 11 ==> WideLeaf()[i].key == WideKey(i) && WideLeaf()[i].hop == WideBits(i)
  {}

  lemma WideBitsExact()
    ensures Shape(WIDE, WideLeaf()) && BitsExact(WIDE, WideLeaf())
  {
    hide WideLeaf, WideBits;
    WideShape();
    forall p, z | 0 <= p < 11 && 0 <= z < 10
      ensures WideLeaf()[p].hop[z] <==> HomedAt(WIDE, WideLeaf()[WIDE.Slot(p + z)], p)
    {
      WideBit(p, z);
    }
  }

  lemma WideBit(p: nat, z: nat)
    requires p < 11 && z < 10
    ensures |WideBits(p)| == 10
    ensures var k := WideKey(if p + z < 11 then p + z else p + z - 11);
            WideBits(p)[z] <==> k != KEY_NULL && WIDE.Home(k) == p
  {}

  lemma WideNear()
    ensures Shape(WIDE, WideLeaf()) && NearHome(WIDE, WideLeaf()) && Distinct(WideLeaf())
    ensures !Has(WideLeaf(), 11) && Has(WideLeaf(), 3)
  {
    hide WideLeaf, WideBits;
    WideShape();
    assert WideLeaf()[2].key == 3;
  }

  lemma WideExact()
    ensures HopInv(WIDE, WideLeaf()) && !Has(WideLeaf(), 11) && 3 in Contents(WideLeaf())
  {
    hide WideLeaf, BitsExact, NearHome, Distinct, Contents, Has;
    WideBitsExact();
    WideNear();
    KeysAt(WideLeaf(), 3);
  }

  /** Key 11 goes to slot 2, whose key 3 moves to slot 10, nine slots from its home. */
  lemma WideInsert(v: Value)
    requires HopInv(WIDE, WideLeaf())
    ensures FirstEmpty(WIDE, WideLeaf(), 0, 11) == 10
    ensures FindHop(WIDE, WideLeaf(), 10, 9) == Hop(2, 1)
  {
    var c, s := WIDE, WideLeaf();
    assert forall i :: 0 <= i < 10 ==> s[c.Slot(i)].key != KEY_NULL;
    assert s[c.Slot(10)].key == KEY_NULL;
    var e := FirstEmpty(c, s, 0, 11);
    WideHop();
  }

  lemma WideHop()
    requires HopInv(WIDE, WideLeaf())
    ensures FindHop(WIDE, WideLeaf(), 10, 9) == Hop(2, 1)
  {
    var c, s := WIDE, WideLeaf();
    assert s[1].hop[1] && !s[1].hop[0];
    assert Movable(c, s, 2, 10, 1);
    assert forall z :: Movable(c, s, 2, 10, z) ==> z == 0 || z == 1;
    assert forall z :: !Movable(c, s, 1, 10, z);
    assert HomeDistance(c, s, 1, 10, 9) == -1;
    assert HomeDistance(c, s, 2, 10, 9) == 1;
    assert FindHop(c, s, 10, 8) == Hop(2, 1);
  }

  lemma WideSplit(r: Leaf)
    requires HopInv(WIDE, WideLeaf()) && HopInv(WIDE, r) && r[10].key == 3
    ensures SplitBits(WIDE, WideLeaf(), r, {10, 2}, 3)
  {
    hide BitsExact, NearHome;
    var s := WideLeaf();
    assert s[2].key == 3;
    assert SlotOf(s, 3) == 2 && SlotOf(r, 3) == 10;
  }

  lemma WideResult(v: Value)
    requires HopInv(WIDE, WideLeaf())
    ensures LeafInsert(WIDE, WideLeaf(), 11, v, 11).Some? && HopPath(WIDE, WideLeaf(), 0, 10) == [10, 2]
    ensures LeafInsert(WIDE, WideLeaf(), 11, v, 11).value[10].key == 3
  {
    hide FindHop, BitsExact, NearHome, Distinct, HopTo, HopPath, FirstEmpty, Move, WideLeaf, Place;
    var c, s := WIDE, WideLeaf();
    WideInsert(v);
    WideAt();
    MoveEffect(c, s, 0, 2, 1, 10);
    var m := Move(c, s, 2, 1, 10);
    HopUnfold(c, s, 0, 10, 11, v);
    HopUnfold(c, m, 0, 2, 11, v);
    PlaceElsewhere(c, m, 0, 2, 11, v, 10);
    assert m[10].key == s[2].key;
  }

  lemma PlaceElsewhere(c: Config, s: Leaf, b: nat, j: int, k: Key, v: Value, i: nat)
    requires Shape(c, s) && b < c.span && b <= j < b + c.neighbor && i < c.span && i != c.Slot(j)
    ensures |Place(c, s, b, j, k, v)| == c.span && Place(c, s, b, j, k, v)[i].key == s[i].key
  {}

  /** With the bitmap of slot 1 in two lines, a reader may miss key 3 while key 11 is inserted. */
  lemma WideMisses(v: Value) returns (t: Leaf)
    ensures HopInv(WIDE, WideLeaf()) && !Has(WideLeaf(), 11) && 3 in Contents(WideLeaf())
    ensures LeafInsert(WIDE, WideLeaf(), 11, v, 11).Some? && HopPath(WIDE, WideLeaf(), 0, 10) == [10, 2]
    ensures Misses(WIDE, WideLeaf(), LeafInsert(WIDE, WideLeaf(), 11, v, 11).value, {10, 2}, t, 3)
  {
    hide BitsExact, NearHome, Distinct, Contents, Misses, SplitBits, HopPath, FirstEmpty, LeafInsert, WideLeaf, Has;
    var c, s := WIDE, WideLeaf();
    WideExact();
    WideInsert(v);
    WideResult(v);
    var r := LeafInsert(c, s, 11, v, 11).value;
    LeafInsertKeeps(c, s, 11, v, 11);
    WideSplit(r);
    TornBytesIff(c, s, 11, v, 11, {10, 2}, 3);
    t :| Misses(c, s, r, {10, 2}, t, 3);
  }

  lemma WideAt()
    ensures |WideLeaf()| == 11 && WideLeaf()[2].key == 3 && WideLeaf()[10].key == KEY_NULL
  {}
}
