/** Readers and partial readers of a hopscotch leaf: the lock-free search with its bitmap re-check,
    and the insert that reads and writes only a window of the leaf. */
module HopscotchRead {

  import opened Common
  import opened Hopscotch
  import opened HopscotchPath

  // ---------------------------------------------------------------- the search and its re-check

  datatype ReadResult = Found(value: Value) | Absent | Retry

  predicate HoldsKey(c: Config, t: Leaf, k: Key, z: int)
    requires c.Valid() && |t| == c.span
  {
    0 <= z < c.neighbor && t[c.Slot(c.Home(k) + z)].key == k
  }

  /** The bitmap rebuilt from the keys of the neighbourhood is the one stored in the home entry. */
  ghost predicate BitmapMatches(c: Config, t: Leaf, p: nat)
    requires Shape(c, t) && p < c.span
  {
    forall z :: 0 <= z < c.neighbor ==> (t[p].hop[z] <==> HomedAt(c, t[c.Slot(p + z)], p))
  }

  /** What one pass over the neighbourhood of k may answer. */
  ghost predicate Answers(c: Config, t: Leaf, k: Key, r: ReadResult)
    requires Shape(c, t)
  {
    match r
    case Found(v) => exists z :: HoldsKey(c, t, k, z) && t[c.Slot(c.Home(k) + z)].value == v
    case Absent => (forall z :: !HoldsKey(c, t, k, z)) && BitmapMatches(c, t, c.Home(k))
    case Retry => (forall z :: !HoldsKey(c, t, k, z)) && !BitmapMatches(c, t, c.Home(k))
  }

  /** leaf_node_search on the neighbourhood it has read. */
  method ReadNeighborhood(c: Config, t: Leaf, k: Key) returns (r: ReadResult)
    requires Shape(c, t) && k != KEY_NULL
    ensures Answers(c, t, k, r)
  {
    var p := c.Home(k);
    var bitmap: seq<bool> := [];
    for i := 0 to c.neighbor
      invariant |bitmap| == i
      invariant forall z :: 0 <= z < i ==> (bitmap[z] <==> HomedAt(c, t[c.Slot(p + z)], p))
      invariant forall z :: 0 <= z < i ==> !HoldsKey(c, t, k, z)
    {
      var e := t[c.Slot(p + i)];
      bitmap := bitmap + [e.key != KEY_NULL && c.Home(e.key) == p];
      if e.key == k {
        assert HoldsKey(c, t, k, i);
        return Found(e.value);
      }
    }
    if bitmap != t[p].hop {
      return Retry;
    }
    return Absent;
  }

  /** On an undisturbed leaf one pass decides, and decides correctly. */
  lemma ReadExact(c: Config, s: Leaf, k: Key, r: ReadResult)
    requires HopInv(c, s) && k != KEY_NULL
    ensures Answers(c, s, k, r) <==> r == if k in Contents(s) then Found(Contents(s)[k]) else Absent
  {
    hide Contents, Distinct;
    KeysAt(s, k);
    if k in Contents(s) {
      var i := SlotOf(s, k);
      assert HoldsKey(c, s, k, c.Off(c.Home(k), i));
      ContentsAt(s, i);
    }
    if Answers(c, s, k, r) && r.Found? {
      var z :| HoldsKey(c, s, k, z) && s[c.Slot(c.Home(k) + z)].value == r.value;
      ContentsAt(s, c.Slot(c.Home(k) + z));
    }
  }

  // ---------------------------------------------------------------- reads torn by one insert

  predicate SamePair(e: LeafEntry, f: LeafEntry) {
    e.key == f.key && e.value == f.value
  }

  /** Every pair in t was read either before or after the insert that turned s into r. */
  ghost predicate Torn(s: Leaf, r: Leaf, t: Leaf) {
    |s| == |r| == |t| && forall i :: 0 <= i < |s| ==> SamePair(t[i], s[i]) || SamePair(t[i], r[i])
  }

  /** So was the bitmap of slot p, as a whole. */
  predicate WholeBitmap(s: Leaf, r: Leaf, t: Leaf, p: nat)
    requires p < |s| == |r| == |t|
  {
    t[p].hop == s[p].hop || t[p].hop == r[p].hop
  }

  ghost predicate LeavesSlot(s: Leaf, r: Leaf, a: nat) {
    a < |s| == |r| && s[a].key != KEY_NULL && r[a].key != s[a].key
  }

  lemma LogicalIndex(c: Config, s: Leaf, r: Leaf, b: nat, a: nat) returns (i: int)
    requires HopInv(c, s) && |r| == c.span && b < c.span && LeavesSlot(s, r, a) && HomesIncrease(c, s, r, b)
    ensures b <= i < b + c.span && c.Slot(i) == a && Changed(c, s, r, i)
    ensures b < LogicalHome(c, s, i) < b + c.span && c.Slot(LogicalHome(c, s, i)) == c.Home(s[a].key)
  {
    i := if a >= b then a else a + c.span;
    assert Changed(c, s, r, i);
  }

  /** Of the keys of one home at most one leaves its slot, and none does if the new key has that home. */
  lemma OneMover(c: Config, s: Leaf, r: Leaf, b: nat, a: nat, a': nat)
    requires HopInv(c, s) && |r| == c.span && b < c.span && HomesIncrease(c, s, r, b)
    requires LeavesSlot(s, r, a) && LeavesSlot(s, r, a') && c.Home(s[a].key) == c.Home(s[a'].key)
    ensures a == a' && c.Home(s[a].key) != b
  {
    var i := LogicalIndex(c, s, r, b, a);
    var i' := LogicalIndex(c, s, r, b, a');
    assert LogicalHome(c, s, i) == LogicalHome(c, s, i');
  }

  /** r is s after one insert of k. */
  ghost predicate Inserted(c: Config, s: Leaf, k: Key, r: Leaf) {
    && HopInv(c, s) && HopInv(c, r) && k != KEY_NULL && !Has(s, k)
    && HomesIncrease(c, s, r, c.Home(k))
    && (forall x :: x != k ==> (Has(r, x) && x != KEY_NULL <==> Has(s, x) && x != KEY_NULL))
  }

  /** The slot a mover leaves, or the slot it arrives in, shows no other key of its home. */
  lemma MoverAlone(c: Config, s: Leaf, k: Key, r: Leaf, a: nat, a': nat)
    requires Inserted(c, s, k, r) && a < c.span && a' < c.span && a != a'
    requires s[a].key != KEY_NULL && r[a'].key == s[a].key
    ensures !HomedAt(c, r[a], c.Home(s[a].key)) && !HomedAt(c, s[a'], c.Home(s[a].key))
  {
    assert LeavesSlot(s, r, a);
    OneMover(c, s, r, c.Home(k), a, a);
    if HomedAt(c, s[a'], c.Home(s[a].key)) {
      OneMover(c, s, r, c.Home(k), a, a');
    }
    if HomedAt(c, r[a], c.Home(s[a].key)) {
      var y := r[a].key;
      assert Has(r, y);
      var m := SlotOf(s, y);
      OneMover(c, s, r, c.Home(k), a, m);
    }
  }

  /** A torn read never misses a key that was there before the insert and is there after it. */
  lemma TornAbsent(c: Config, s: Leaf, k: Key, r: Leaf, t: Leaf, q: Key)
    requires Inserted(c, s, k, r) && Shape(c, t) && Torn(s, r, t) && q != KEY_NULL && q != k
    requires WholeBitmap(s, r, t, c.Home(q))
    requires Answers(c, t, q, Absent)
    ensures !Has(s, q)
  {
    hide BitsExact, Distinct, HomesIncrease;
    if Has(s, q) {
      var p := c.Home(q);
      var a := SlotOf(s, q);
      var a' := SlotOf(r, q);
      var z, z' := c.Off(p, a), c.Off(p, a');
      BitAt(c, s, p, a);
      BitAt(c, r, p, a');
      assert !HoldsKey(c, t, q, z) && !HoldsKey(c, t, q, z');
      assert SamePair(t[a], r[a]) && SamePair(t[a'], s[a']);
      MoverAlone(c, s, k, r, a, a');
      assert false;
    }
  }

  lemma InsertHomes(c: Config, s: Leaf, k: Key, v: Value, entryNum: nat)
    requires HopInv(c, s) && entryNum <= c.span && LeafInsert(c, s, k, v, entryNum).Some?
    ensures HomesIncrease(c, s, LeafInsert(c, s, k, v, entryNum).value, c.Home(k))
  {
    hide HopTo, HomesIncrease;
    HopToHomes(c, s, c.Home(k), FirstEmpty(c, s, c.Home(k), c.Home(k) + entryNum), k, v);
  }

  /** One insert moves at most one key of any home, and none of the home of the new key. */
  lemma OneMoverPerHome(c: Config, s: Leaf, k: Key, v: Value, entryNum: nat, a: nat, a': nat)
    requires HopInv(c, s) && entryNum <= c.span && LeafInsert(c, s, k, v, entryNum).Some?
    ensures var r := LeafInsert(c, s, k, v, entryNum).value;
            LeavesSlot(s, r, a) && LeavesSlot(s, r, a') && c.Home(s[a].key) == c.Home(s[a'].key) ==>
              a == a' && c.Home(s[a].key) != c.Home(k)
  {
    hide LeafInsert, HomesIncrease;
    var r := LeafInsert(c, s, k, v, entryNum).value;
    InsertHomes(c, s, k, v, entryNum);
    if LeavesSlot(s, r, a) && LeavesSlot(s, r, a') && c.Home(s[a].key) == c.Home(s[a'].key) {
      OneMover(c, s, r, c.Home(k), a, a');
    }
  }

  lemma InsertIsInserted(c: Config, s: Leaf, k: Key, v: Value, entryNum: nat)
    requires HopInv(c, s) && entryNum <= c.span && k != KEY_NULL && !Has(s, k)
    requires LeafInsert(c, s, k, v, entryNum).Some?
    ensures Inserted(c, s, k, LeafInsert(c, s, k, v, entryNum).value)
  {
    hide HopTo, LeafInsert, HomesIncrease;
    var r := LeafInsert(c, s, k, v, entryNum).value;
    LeafInsertKeeps(c, s, k, v, entryNum);
    InsertHomes(c, s, k, v, entryNum);
    forall x | x != k ensures Has(r, x) && x != KEY_NULL <==> Has(s, x) && x != KEY_NULL {
      KeysAt(s, x);
      KeysAt(r, x);
    }
  }

  /** The bitmap re-check is sound under tearing: whatever mixture of pairs from before and after one insert
      the reader saw, and whichever of the two bitmaps of the home, a value it returns is one the key had, and
      "absent" means the key was not in the leaf before the insert. */
  lemma TornReadSound(c: Config, s: Leaf, k: Key, v: Value, entryNum: nat, t: Leaf, q: Key, answer: ReadResult)
    requires HopInv(c, s) && entryNum <= c.span && k != KEY_NULL && !Has(s, k) && q != KEY_NULL
    requires LeafInsert(c, s, k, v, entryNum).Some?
    requires Shape(c, t) && Torn(s, LeafInsert(c, s, k, v, entryNum).value, t) && Answers(c, t, q, answer)
    requires WholeBitmap(s, LeafInsert(c, s, k, v, entryNum).value, t, c.Home(q))
    ensures answer.Found? ==> (q in Contents(s) && Contents(s)[q] == answer.value) || (q == k && answer.value == v)
    ensures answer.Absent? ==> q !in Contents(s)
  {
    hide HopTo, LeafInsert, BitsExact, NearHome, HomesIncrease, Answers;
    var r := LeafInsert(c, s, k, v, entryNum).value;
    InsertIsInserted(c, s, k, v, entryNum);
    LeafInsertKeeps(c, s, k, v, entryNum);
    KeysAt(s, q);
    if answer.Absent? && q != k {
      TornAbsent(c, s, k, r, t, q);
    }
    if answer.Found? {
      TornFound(c, s, r, t, q, answer.value);
    }
  }

  lemma TornFound(c: Config, s: Leaf, r: Leaf, t: Leaf, q: Key, v: Value)
    requires Shape(c, t) && |s| == c.span && Distinct(s) && Distinct(r) && Torn(s, r, t) && q != KEY_NULL
    requires Answers(c, t, q, Found(v))
    ensures (q in Contents(s) && Contents(s)[q] == v) || (q in Contents(r) && Contents(r)[q] == v)
  {
    var z :| HoldsKey(c, t, q, z) && t[c.Slot(c.Home(q) + z)].value == v;
    var i := c.Slot(c.Home(q) + z);
    if SamePair(t[i], s[i]) { ContentsAt(s, i); } else { ContentsAt(r, i); }
  }

  // ---------------------------------------------------------------- partial reads

  /** Write the window [b, e] of t over s. */
  function PatchWindow(c: Config, s: Leaf, t: Leaf, b: nat, e: int): (r: Leaf)
    requires c.Valid() && |s| == c.span == |t| && b < c.span && b <= e < b + c.span
  {
    seq(c.span, i requires 0 <= i < c.span => if c.Off(b, i) <= e - b then t[i] else s[i])
  }

  lemma FirstEmptyCongruent(c: Config, s: Leaf, t: Leaf, i: int, end: int, end': int)
    requires SameOn(c, s, t, i, end) && i <= end <= end' <= 2 * c.span
    requires FirstEmpty(c, t, i, end) < end
    ensures FirstEmpty(c, s, i, end') == FirstEmpty(c, t, i, end)
  {}

  /** Inserting an absent key on any buffer that agrees with the leaf on the window read, provided
      that window has a hole, decides like the insert on the whole leaf, and writing back only the
      window from the home of k to the hole gives the same leaf. */
  lemma PartialInsertRefinesFull(c: Config, s: Leaf, t: Leaf, k: Key, v: Value, entryNum: nat)
    requires Shape(c, s) && entryNum <= c.span && SameOn(c, s, t, c.Home(k), c.Home(k) + entryNum)
    requires FirstEmpty(c, t, c.Home(k), c.Home(k) + entryNum) < c.Home(k) + entryNum
    ensures LeafInsert(c, t, k, v, entryNum).Some? <==> LeafInsert(c, s, k, v, c.span).Some?
    ensures LeafInsert(c, t, k, v, entryNum).Some? ==>
              PatchWindow(c, s, LeafInsert(c, t, k, v, entryNum).value, c.Home(k),
                          FirstEmpty(c, t, c.Home(k), c.Home(k) + entryNum))
              == LeafInsert(c, s, k, v, c.span).value
    ensures var e := FirstEmpty(c, t, c.Home(k), c.Home(k) + entryNum);
            HopPath(c, t, c.Home(k), e) == HopPath(c, s, c.Home(k), e)
  {
    hide HopTo, HopPath, PatchWindow;
    var b := c.Home(k);
    var e := FirstEmpty(c, t, b, b + entryNum);
    FirstEmptyCongruent(c, s, t, b, b + entryNum, b + c.span);
    HopToCongruent(c, s, t, b, e, k, v);
    if HopTo(c, s, b, e, k, v).Some? {
      HopToFrame(c, s, b, e, k, v);
      WindowWritten(c, s, HopTo(c, t, b, e, k, v).value, HopTo(c, s, b, e, k, v).value, b, e);
    }
  }

  lemma WindowWritten(c: Config, s: Leaf, t: Leaf, r: Leaf, b: nat, e: int)
    requires b < c.span && b <= e < b + c.span
    requires SameOn(c, t, r, b, e + 1) && SameOn(c, s, r, e + 1, b + c.span)
    ensures PatchWindow(c, s, t, b, e) == r
  {
    forall i | 0 <= i < c.span ensures PatchWindow(c, s, t, b, e)[i] == r[i] {
      assert c.Slot(b + c.Off(b, i)) == i;
    }
  }
}
