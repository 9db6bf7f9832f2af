/** The leaf operations as the source runs them: loops that move entries and flip hop bits in place. */
module HopscotchOps {

  import opened Common
  import opened KeyOrder
  import opened Hopscotch
  import opened HopscotchPath
  import opened HopscotchSplit

  /** The innermost loop: how far back the home of the key at h is, if that key may move to j. */
  method ScanHomes(c: Config, records: array<LeafEntry>, h: int, j: int) returns (z: int)
    requires Shape(c, records[..]) && c.neighbor <= j < 2 * c.span && h < j
    ensures z == HomeDistance(c, records[..], h, j, c.neighbor - 1)
  {
    hide Movable;
    z := c.neighbor - 1;
    while z >= 0
      invariant -1 <= z < c.neighbor
      invariant HomeDistance(c, records[..], h, j, c.neighbor - 1) == HomeDistance(c, records[..], h, j, z)
    {
      if Movable(c, records[..], h, j, z) {
        break;
      }
      z := z - 1;
    }
  }

  /** The farthest slot before j whose key may move there. */
  method FindCandidate(c: Config, records: array<LeafEntry>, b: nat, j: int) returns (r: Hop)
    requires Shape(c, records[..]) && b < c.span && b + c.neighbor <= j < b + c.span
    ensures r == FindHop(c, records[..], j, c.neighbor - 1)
  {
    hide HomeDistance, Movable;
    var offset := c.neighbor - 1;
    while offset > 0
      invariant 0 <= offset < c.neighbor
      invariant FindHop(c, records[..], j, c.neighbor - 1) == FindHop(c, records[..], j, offset)
    {
      var z := ScanHomes(c, records, j - offset, j);
      if z >= 0 {
        return Hop(j - offset, z);
      }
      offset := offset - 1;
    }
    return NoHop;
  }

  /** a is t except for the stale key and value left in the hole i. */
  ghost predicate UpToHole(a: Leaf, t: Leaf, i: nat) {
    |a| == |t| && i < |t| && (forall m :: 0 <= m < |t| && m != i ==> a[m] == t[m]) && a[i].hop == t[i].hop
  }

  /** The buffer t shows the window [b, j] of the exact leaf x, whose slot j is empty. */
  ghost predicate Shows(c: Config, x: Leaf, t: Leaf, b: nat, j: int) {
    HoleAt(c, x, b, j) && SameOn(c, x, t, b, j + 1)
  }

  /** h => j: copy the entry into the hole and flip the two bits of its home. The buffer may be read in part:
      the window it shows of the leaf x is enough for both bit asserts. */
  method HopEntry(c: Config, records: array<LeafEntry>, ghost x: Leaf, ghost t: Leaf, b: nat, h: int, z: int, j: int)
    requires Shows(c, x, t, b, j) && b + c.neighbor <= j && j - c.neighbor < h < j && Movable(c, t, h, j, z)
    requires UpToHole(records[..], t, c.Slot(j))
    modifies records
    ensures UpToHole(records[..], Move(c, t, h, z, j), c.Slot(h))
  {
    hide BitsExact, NearHome, Distinct, Move;
    var i, p := c.Slot(j), c.Slot(h - z);
    ghost var a := records[..];
    HopBits(c, x, t, b, h, z, j);
    var e := records[c.Slot(h)];
    records[i] := records[i].(key := e.key, value := e.value);
    assert records[p].hop[z];                       // assert of unset_hop_bit
    records[p] := records[p].(hop := records[p].hop[z := false]);
    assert !records[p].hop[j - h + z];              // assert of set_hop_bit
    records[p] := records[p].(hop := records[p].hop[j - h + z := true]);
    HopStep(c, a, t, h, z, j, records[..]);
  }

  /** Store k in the hole j of its own neighbourhood. */
  method PlaceEntry(c: Config, records: array<LeafEntry>, ghost x: Leaf, ghost t: Leaf, b: nat, j: int,
                    k: Key, v: Value)
    requires Shows(c, x, t, b, j) && j < b + c.neighbor && UpToHole(records[..], t, c.Slot(j))
    modifies records
    ensures records[..] == Place(c, t, b, j, k, v)
  {
    hide BitsExact, NearHome, Distinct;
    var i := c.Slot(j);
    records[i] := records[i].(key := k, value := v);
    HoleBit(c, x, t, b, j);
    assert !records[b].hop[j - b];                  // assert of set_hop_bit
    records[b] := records[b].(hop := records[b].hop[j - b := true]);
  }

  /** Place k from hole e on, hopping keys out of the way, in a buffer that shows the window of a leaf x. */
  method HopLoop(c: Config, records: array<LeafEntry>, ghost x: Leaf, b: nat, e: int, k: Key, v: Value)
      returns (ok: bool, hopped: seq<nat>)
    requires Shows(c, x, records[..], b, e) && c.Home(k) == b
    modifies records
    ensures ok <==> HopTo(c, old(records[..]), b, e, k, v).Some?
    ensures ok ==> records[..] == HopTo(c, old(records[..]), b, e, k, v).value
    ensures hopped == HopPath(c, old(records[..]), b, e)
  {
    hide Move, Place, BitsExact, NearHome, Distinct, Movable, FindHop, HopTo, HopPath, Shows;
    var j := e;
    hopped := [];
    ghost var s := records[..];
    ghost var y, t := x, s;
    ShowsShape(c, y, t, b, j);
    while true
      invariant Shows(c, y, t, b, j) && Shape(c, y) && Shape(c, t) && b < c.span && b <= j < b + c.span
      invariant UpToHole(records[..], t, c.Slot(j))
      invariant HopTo(c, s, b, e, k, v) == HopTo(c, t, b, j, k, v)
      invariant HopPath(c, s, b, e) == hopped + HopPath(c, t, b, j)
      decreases j
    {
      HopUnfold(c, t, b, j, k, v);
      hopped := hopped + [c.Slot(j)];
      if j < b + c.neighbor {
        PlaceEntry(c, records, y, t, b, j, k, v);
        return true, hopped;
      }
      var step := FindCandidate(c, records, b, j);
      FindHopCongruent(c, records[..], t, b, j, c.neighbor - 1);
      if step.NoHop? {
        return false, hopped;
      }
      HopEntry(c, records, y, t, b, step.from, step.dist, j);
      ShowsMoved(c, y, t, b, step.from, step.dist, j);
      y, t := Move(c, y, step.from, step.dist, j), Move(c, t, step.from, step.dist, j);
      j := step.from;
    }
  }

  lemma ShowsShape(c: Config, x: Leaf, t: Leaf, b: nat, j: int)
    requires Shows(c, x, t, b, j)
    ensures Shape(c, x) && Shape(c, t) && b < c.span && b <= j < b + c.span
  {}

  /** What the buffer shows after a hop is what the leaf would be after it. */
  lemma ShowsMoved(c: Config, x: Leaf, t: Leaf, b: nat, h: int, z: int, j: int)
    requires Shows(c, x, t, b, j) && b + c.neighbor <= j && j - c.neighbor < h < j && Movable(c, t, h, j, z)
    ensures Movable(c, x, h, j, z) && b <= h && Shows(c, Move(c, x, h, z, j), Move(c, t, h, z, j), b, h)
  {
    hide Move, BitsExact, NearHome, Distinct;
    assert Movable(c, x, h, j, z);
    MovableIsHome(c, x, b, h, j, z);
    MoveKeeps(c, x, b, h, z, j);
    MoveCongruent(c, x, t, b, h, z, j);
  }

  lemma HoleBit(c: Config, x: Leaf, t: Leaf, b: nat, j: int)
    requires Shows(c, x, t, b, j) && j < b + c.neighbor
    ensures |t[b].hop| == c.neighbor && !t[b].hop[j - b]
  {
    assert x[c.Slot(b)] == t[c.Slot(b)];
  }

  /** Before a hop h => j, the moved key's bit for h is set and its bit for j is clear. */
  lemma HopBits(c: Config, x: Leaf, t: Leaf, b: nat, h: int, z: int, j: int)
    requires Shows(c, x, t, b, j) && b + c.neighbor <= j && j - c.neighbor < h < j && Movable(c, t, h, j, z)
    ensures j - h + z < c.neighbor && !t[c.Slot(h - z)].hop[j - h + z]
  {
    assert x[c.Slot(h - z)] == t[c.Slot(h - z)];
  }

  lemma HopStep(c: Config, a: Leaf, t: Leaf, h: int, z: int, j: int, a': Leaf)
    requires Shape(c, t) && c.neighbor <= j < 2 * c.span && j - c.neighbor < h < j && Movable(c, t, h, j, z)
    requires UpToHole(a, t, c.Slot(j)) && j - h + z < c.neighbor
    requires var p, y := c.Slot(h - z), j - h + z;
             a' == PutBit(PutBit(PutKV(a, c.Slot(j), a[c.Slot(h)].key, a[c.Slot(h)].value), p, z, false), p, y, true)
    ensures UpToHole(a', Move(c, t, h, z, j), c.Slot(h))
  {
  }

  /** The scan for the first empty slot. */
  method ScanEmpty(c: Config, records: array<LeafEntry>, b: nat, entryNum: nat) returns (e: int)
    requires Shape(c, records[..]) && b < c.span && entryNum <= c.span
    ensures e == FirstEmpty(c, records[..], b, b + entryNum)
  {
    e := b;
    while e < b + entryNum && records[c.Slot(e)].key != KEY_NULL
      invariant b <= e <= b + entryNum
      invariant FirstEmpty(c, records[..], b, b + entryNum) == FirstEmpty(c, records[..], e, b + entryNum)
    {
      e := e + 1;
    }
  }

  /** hopscotch_insert_and_unlock on a buffer of which entryNum entries of the leaf s were read: a false result
      asks for a split. The window it leaves in the buffer is that of an exact leaf with k added. */
  method Insert(c: Config, records: array<LeafEntry>, ghost s: Leaf, k: Key, v: Value, entryNum: nat)
      returns (ok: bool, hopped: seq<nat>, e: int)
    requires HopInv(c, s) && entryNum <= c.span && k != KEY_NULL
    requires SameOn(c, s, records[..], c.Home(k), c.Home(k) + entryNum)
    modifies records
    ensures e == FirstEmpty(c, old(records[..]), c.Home(k), c.Home(k) + entryNum)
    ensures ok <==> LeafInsert(c, old(records[..]), k, v, entryNum).Some?
    ensures ok ==> records[..] == LeafInsert(c, old(records[..]), k, v, entryNum).value
    ensures ok ==> hopped == HopPath(c, old(records[..]), c.Home(k), e)
    ensures ok <==> LeafInsert(c, s, k, v, entryNum).Some?
    ensures ok ==> SameOn(c, LeafInsert(c, s, k, v, entryNum).value, records[..], c.Home(k), e + 1)
    ensures ok && !Has(s, k) ==>
              var r := LeafInsert(c, s, k, v, entryNum).value;
              HopInv(c, r) && Contents(r) == Contents(s)[k := v]
  {
    hide HopTo, HopPath, FirstEmpty, BitsExact, NearHome, Distinct;
    var b := c.Home(k);
    e := ScanEmpty(c, records, b, entryNum);
    EmptyShown(c, s, records[..], b, entryNum);
    if e == b + entryNum {
      return false, [], e;
    }
    HopToCongruent(c, s, records[..], b, e, k, v);
    ok, hopped := HopLoop(c, records, s, b, e, k, v);
    if ok && !Has(s, k) {
      LeafInsertKeeps(c, s, k, v, entryNum);
    }
  }

  lemma EmptyShown(c: Config, s: Leaf, t: Leaf, b: nat, num: nat)
    requires HopInv(c, s) && b < c.span && num <= c.span && SameOn(c, s, t, b, b + num)
    ensures FirstEmpty(c, s, b, b + num) == FirstEmpty(c, t, b, b + num)
    ensures var e := FirstEmpty(c, t, b, b + num);
            e < b + num ==> Shows(c, s, t, b, e)
  {
    hide BitsExact, NearHome, Distinct;
  }

  /** hopscotch_insert_locally: its two asserts are the precondition that the key fits. */
  method InsertLocally(c: Config, records: array<LeafEntry>, k: Key, v: Value) returns (slot: nat)
    requires HopInv(c, records[..]) && k != KEY_NULL && LeafInsert(c, records[..], k, v, c.span).Some?
    modifies records
    ensures records[..] == LeafInsert(c, old(records[..]), k, v, c.span).value
    ensures slot < c.span && records[slot].key == k && records[slot].value == v
  {
    hide HopTo, HopPath, BitsExact, NearHome, Distinct;
    var b := c.Home(k);
    var e := ScanEmpty(c, records, b, c.span);
    assert e < b + c.span;                          // assert(j >= 0)
    var ok, hopped := HopLoop(c, records, records[..], b, e, k, v);
    assert ok;                                      // not the final assert(false)
    HopPathCovers(c, old(records[..]), b, e, k, v);
    slot := hopped[|hopped| - 1];
  }

  // ---------------------------------------------------------------- split

  method SimulateNext(c: Config, s: Leaf, j: int) returns (h: int)
    requires Shape(c, s) && c.neighbor <= j < 2 * c.span
    ensures h == SimNext(c, s, j, c.neighbor - 1)
  {
    var offset := c.neighbor - 1;
    while offset > 0 && SimHome(c, s, j - offset) + c.neighbor <= j
      invariant 0 <= offset < c.neighbor
      invariant SimNext(c, s, j, c.neighbor - 1) == SimNext(c, s, j, offset)
    {
      offset := offset - 1;
    }
    h := j - offset;
  }

  method SimulateHop(c: Config, s: Leaf, b: nat, e: int) returns (fits: bool)
    requires Shape(c, s) && b < c.span && b <= e < b + c.span
    ensures fits == SimFits(c, s, b, e)
  {
    hide SimNext;
    var j := e;
    while j >= b + c.neighbor
      invariant b <= j < b + c.span
      invariant SimFits(c, s, b, e) == SimFits(c, s, b, j)
      decreases j
    {
      var h := SimulateNext(c, s, j);
      if h == j {
        return false;
      }
      j := h;
    }
    return true;
  }

  /** hopscotch_get_split_key. */
  method GetSplitKey(c: Config, s: Leaf, k: Key) returns (sk: Key)
    requires Shape(c, s)
    ensures sk == SplitKey(c, s, k)
  {
    hide SimFits, SortKeys, CriticalKeys;
    var b := c.Home(k);
    var critical: seq<Key> := [];
    var e := b;
    while e < b + c.span && s[c.Slot(e)].key != KEY_NULL
      invariant b <= e <= b + c.span
      invariant CriticalKeys(c, s, b, b) == critical + CriticalKeys(c, s, b, e)
    {
      CriticalKeysStep(c, s, b, e);
      var fits := SimulateHop(c, s, b, e);
      if fits {
        critical := critical + [s[c.Slot(e)].key];
      }
      e := e + 1;
    }
    CriticalKeysStep(c, s, b, e);
    assert critical == CriticalKeys(c, s, b, b);
    var sorted := SortKeys(critical + [k]);
    sk := sorted[|sorted| / 2];
  }

  lemma CriticalKeysStep(c: Config, s: Leaf, b: nat, i: int)
    requires c.Valid() && |s| == c.span && b < c.span && b <= i <= b + c.span
    ensures CriticalKeys(c, s, b, i) ==
            if i == b + c.span || s[c.Slot(i)].key == KEY_NULL then []
            else (if SimFits(c, s, b, i) then [s[c.Slot(i)].key] else []) + CriticalKeys(c, s, b, i + 1)
  {
  }

  /** The key and value slot n shows, on either side, once it was dealt with. */
  function SplitKV(e: LeafEntry, low: bool): (r: (Key, Value)) {
    if low then (KEY_NULL, VALUE_NULL) else (e.key, e.value)
  }

  /** Dealing with slot n: its key leaves one side and appears on the other, with its hop bit. */
  function SplitSlot(c: Config, s: Leaf, r: Leaf, low: bool, n: nat): (r': Leaf)
    requires c.Valid() && |r| == c.span == |s| && (forall i :: 0 <= i < |r| ==> |r[i].hop| == c.neighbor)
    requires n < c.span && c.Off(c.Home(s[n].key), n) < c.neighbor
  {
    var p := c.Home(s[n].key);
    PutBit(PutKV(r, n, SplitKV(s[n], low).0, SplitKV(s[n], low).1), p, c.Off(p, n), !low)
  }

  lemma HalfStepBit(c: Config, s: Leaf, sk: Key, low: bool, n: nat, q: nat, z: nat)
    requires HopInv(c, s) && n < c.span && q < c.span && z < c.neighbor
    ensures var r, r' := HalfUpTo(c, s, sk, low, n), HalfUpTo(c, s, sk, low, n + 1);
            && r[q].hop[z] == (s[q].hop[z] && Moves(s, sk, n, c.Slot(q + z)) != low)
            && r'[q].hop[z] ==
               if Moves(s, sk, n + 1, n) && q == c.Home(s[n].key) && z == c.Off(q, n) then !low else r[q].hop[z]
  {
    assert s[q].hop[z] <==> HomedAt(c, s[c.Slot(q + z)], q);
    assert c.Slot(q + z) == n <==> z == c.Off(q, n);
  }

  lemma HalfStepHop(c: Config, s: Leaf, sk: Key, low: bool, n: nat, q: nat)
    requires HopInv(c, s) && n < c.span && q < c.span
    ensures var r, r' := HalfUpTo(c, s, sk, low, n), HalfUpTo(c, s, sk, low, n + 1);
            r'[q].hop == if Moves(s, sk, n + 1, n) && q == c.Home(s[n].key)
                         then r[q].hop[c.Off(q, n) := !low] else r[q].hop
  {
    hide HalfUpTo, BitsExact, Distinct;
    var r, r' := HalfUpTo(c, s, sk, low, n), HalfUpTo(c, s, sk, low, n + 1);
    var t := if Moves(s, sk, n + 1, n) && q == c.Home(s[n].key) then r[q].hop[c.Off(q, n) := !low] else r[q].hop;
    forall z | 0 <= z < c.neighbor ensures r'[q].hop[z] == t[z] {
      HalfStepBit(c, s, sk, low, n, q, z);
    }
  }

  lemma HalfStep(c: Config, s: Leaf, sk: Key, low: bool, n: nat)
    requires HopInv(c, s) && n < c.span
    ensures !Moves(s, sk, n + 1, n) ==> HalfUpTo(c, s, sk, low, n + 1) == HalfUpTo(c, s, sk, low, n)
    ensures Moves(s, sk, n + 1, n) ==>
              HalfUpTo(c, s, sk, low, n + 1) == SplitSlot(c, s, HalfUpTo(c, s, sk, low, n), low, n)
  {
    hide BitsExact, Distinct, HalfUpTo;
    var r, r' := HalfUpTo(c, s, sk, low, n), HalfUpTo(c, s, sk, low, n + 1);
    forall q | 0 <= q < c.span
      ensures !Moves(s, sk, n + 1, n) ==> r'[q] == r[q]
      ensures Moves(s, sk, n + 1, n) ==> r'[q] == SplitSlot(c, s, r, low, n)[q]
    {
      HalfStepHop(c, s, sk, low, n, q);
      HalfKV(c, s, sk, low, n, q);
      HalfKV(c, s, sk, low, n + 1, q);
    }
  }

  lemma HalfKV(c: Config, s: Leaf, sk: Key, low: bool, n: nat, q: nat)
    requires Shape(c, s) && q < c.span
    ensures var e := HalfUpTo(c, s, sk, low, n)[q];
            if Moves(s, sk, n, q) == low then e.key == KEY_NULL && e.value == VALUE_NULL
            else e.key == s[q].key && e.value == s[q].value
  {}

  lemma HalfStart(c: Config, s: Leaf, sk: Key)
    requires Shape(c, s)
    ensures HalfUpTo(c, s, sk, true, 0) == s
    ensures forall i :: 0 <= i < c.span ==>
              HalfUpTo(c, s, sk, false, 0)[i] == LeafEntry(KEY_NULL, VALUE_NULL, seq(c.neighbor, _ => false))
  {
    forall i | 0 <= i < c.span ensures HalfUpTo(c, s, sk, true, 0)[i] == s[i] {
      assert HalfUpTo(c, s, sk, true, 0)[i].hop == s[i].hop;
    }
    forall i | 0 <= i < c.span
      ensures HalfUpTo(c, s, sk, false, 0)[i].hop == seq(c.neighbor, _ => false)
    {
    }
  }

  /** The loop body of the split for an entry that moves to the sibling. */
  method SplitEntry(c: Config, records: array<LeafEntry>, sibling: array<LeafEntry>, ghost s: Leaf, sk: Key, i: nat)
    requires HopInv(c, s) && i < c.span && Moves(s, sk, i + 1, i) && records != sibling
    requires records[..] == HalfUpTo(c, s, sk, true, i) && sibling[..] == HalfUpTo(c, s, sk, false, i)
    modifies records, sibling
    ensures records[..] == HalfUpTo(c, s, sk, true, i + 1) && sibling[..] == HalfUpTo(c, s, sk, false, i + 1)
  {
    hide BitsExact, Distinct;
    HalfStep(c, s, sk, true, i);
    HalfStep(c, s, sk, false, i);
    var e := records[i];
    var p := c.Home(e.key);
    var z := c.Off(p, i);
    HalfStepBit(c, s, sk, true, i, p, z);
    HalfStepBit(c, s, sk, false, i, p, z);
    BitAt(c, s, p, i);
    sibling[i] := sibling[i].(key := e.key, value := e.value);
    records[i] := records[i].(key := KEY_NULL, value := VALUE_NULL);
    assert !sibling[p].hop[z] && records[p].hop[z];  // asserts of set_hop_bit and unset_hop_bit
    sibling[p] := sibling[p].(hop := sibling[p].hop[z := true]);
    records[p] := records[p].(hop := records[p].hop[z := false]);
  }

  /** The loop that moves the keys from the split key on, with their hop bits, to the sibling. */
  method Divide(c: Config, records: array<LeafEntry>, sk: Key) returns (sibling: array<LeafEntry>)
    requires HopInv(c, records[..])
    modifies records
    ensures fresh(sibling)
    ensures records[..] == Half(c, old(records[..]), sk, true) && sibling[..] == Half(c, old(records[..]), sk, false)
  {
    hide BitsExact, NearHome, Distinct, HalfUpTo;
    ghost var s := records[..];
    sibling := new LeafEntry[c.span](i => LeafEntry(KEY_NULL, VALUE_NULL, seq(c.neighbor, _ => false)));
    HalfStart(c, s, sk);
    assert sibling[..] == HalfUpTo(c, s, sk, false, 0);
    for i := 0 to c.span
      invariant records[..] == HalfUpTo(c, s, sk, true, i) && sibling[..] == HalfUpTo(c, s, sk, false, i)
    {
      UnsplitEntry(c, s, sk, i);
      if records[i].key != KEY_NULL && records[i].key >= sk {
        SplitEntry(c, records, sibling, s, sk, i);
      }
    }
  }

  /** The data part of hopscotch_split_and_unlock, called after an insert of k that failed. */
  method Split(c: Config, records: array<LeafEntry>, k: Key, v: Value) returns (sk: Key, sibling: array<LeafEntry>)
    requires HopInv(c, records[..]) && k != KEY_NULL && !Has(records[..], k)
    requires LeafInsert(c, records[..], k, v, c.span).None?
    modifies records
    ensures fresh(sibling) && sk == SplitKey(c, old(records[..]), k)
    ensures SplitLeaf(c, old(records[..]), k, v) == Some(Halves(records[..], sibling[..]))
    ensures HopInv(c, records[..]) && HopInv(c, sibling[..])
    ensures Contents(records[..]) + Contents(sibling[..]) == Contents(old(records[..]))[k := v]
  {
    hide BitsExact, NearHome, Distinct, LeafInsert, Half;
    ghost var s := records[..];
    sk := GetSplitKey(c, records[..], k);
    sibling := Divide(c, records, sk);
    SplitMakesRoom(c, s, k, v);
    SplitConserves(c, s, k, v);
    HalfContents(c, s, sk, k < sk);
    var slot: nat;
    if k < sk {
      slot := InsertLocally(c, records, k, v);
    } else {
      slot := InsertLocally(c, sibling, k, v);
    }
  }

  /** Slot i still shows its old key when its turn comes; if it stays, nothing changes. */
  lemma UnsplitEntry(c: Config, s: Leaf, sk: Key, i: nat)
    requires HopInv(c, s) && i < c.span
    ensures HalfUpTo(c, s, sk, true, i)[i].key == s[i].key
    ensures !Moves(s, sk, i + 1, i) ==>
              HalfUpTo(c, s, sk, true, i + 1) == HalfUpTo(c, s, sk, true, i) &&
              HalfUpTo(c, s, sk, false, i + 1) == HalfUpTo(c, s, sk, false, i)
  {
    HalfStep(c, s, sk, true, i);
    HalfStep(c, s, sk, false, i);
  }
}
