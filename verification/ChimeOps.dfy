/** What CHIME does to one leaf: the decision to turn right, leaf_node_insert and leaf_node_update. An insert
    looks for its key only in what it has read, so inserting a key the leaf already holds overwrites the
    entry exactly when that entry was read, and otherwise stores the key twice. An update does not read the
    lock word, yet in the last slot it writes one: whatever word its lock buffer was left with. */
module ChimeOps {

  import opened Common
  import opened Hopscotch
  import opened HopscotchPath
  import opened HopscotchRead
  import opened HopscotchSplit
  import opened VacancyLock
  import opened ChimeLeaf

  // ---------------------------------------------------------------- turning right

  /** sibling_ptr: the root tag counts as no sibling. */
  function Next(n: Node): (s: Sibling)
    ensures !s.RootTag?
  {
    if n.sibling.RootTag? then NoSibling else n.sibling
  }

  /** A key of at least k among the num entries from slot b on. */
  predicate LargerIn(c: Config, s: Leaf, b: nat, num: nat, k: Key)
    requires c.Valid() && |s| == c.span && b < c.span
  {
    exists i :: 0 <= i < c.span && c.Off(b, i) < num && s[i].key >= k
  }

  /** The split key of leaf_node_insert: beyond all keys in a root, faked if the window shows a larger key,
      and otherwise one above the key the lock word points at. */
  function TurnKey(P: Params, n: Node, k: Key, keyMax: Key): (sk: Key)
    requires P.Valid() && |n.records| == P.c.span && |n.bitmap| == P.g.bits && n.maxIdx < P.c.span
  {
    if n.sibling.RootTag? then keyMax
    else if LargerIn(P.c, n.records, P.c.Home(k), ReadSize(P, n, k), k) then k + 1
    else n.records[n.maxIdx].key + 1
  }

  /** expected is the sibling the caller's inner node names; the check is skipped if it is the right one. */
  predicate TurnsRight(P: Params, n: Node, k: Key, expected: Sibling, keyMax: Key)
    requires P.Valid() && |n.records| == P.c.span && |n.bitmap| == P.g.bits && n.maxIdx < P.c.span
  {
    expected != Next(n) && k >= TurnKey(P, n, k, keyMax)
  }

  /** From the window and one more entry the check finds out whether k lies beyond the range of the leaf. */
  lemma TurnsRightIff(P: Params, n: Node, k: Key, expected: Sibling, keyMax: Key)
    requires NodeInv(P, n) && k < keyMax && (n.sibling.RootTag? ==> n.hi == keyMax)
    requires expected != Next(n)
    ensures TurnsRight(P, n, k, expected, keyMax) <==> k >= n.hi
  {
    hide BitsExact, NearHome, Distinct, Sound, ReadSize;
  }

  // ---------------------------------------------------------------- leaf_node_insert

  /** Whether the check had to fetch the entry of the greatest key. */
  predicate FetchesMax(P: Params, n: Node, k: Key, expected: Sibling)
    requires P.Valid() && |n.records| == P.c.span && |n.bitmap| == P.g.bits
  {
    && expected != Next(n) && !n.sibling.RootTag?
    && !LargerIn(P.c, n.records, P.c.Home(k), ReadSize(P, n, k), k)
  }

  /** The buffer when the insert looks for its key: the window, and the entry of the greatest key if the
      check fetched it. */
  function Buffer(P: Params, n: Node, k: Key, expected: Sibling): (t: Leaf)
    requires P.Valid() && |n.records| == P.c.span && |n.bitmap| == P.g.bits && n.maxIdx < P.c.span
    ensures |t| == P.c.span
  {
    var t := ReadBuffer(P.c, n.records, P.c.Home(k), ReadSize(P, n, k));
    if FetchesMax(P, n, k, expected) then t[n.maxIdx := n.records[n.maxIdx]] else t
  }

  lemma BufferAgrees(P: Params, n: Node, k: Key, expected: Sibling)
    requires P.Valid() && Shape(P.c, n.records) && |n.bitmap| == P.g.bits && n.maxIdx < P.c.span
    ensures var t := Buffer(P, n, k, expected);
            Shape(P.c, t) && SameOn(P.c, n.records, t, P.c.Home(k), P.c.Home(k) + ReadSize(P, n, k))
  {
    hide ReadSize, FetchesMax;
  }

  /** The window is read, and beyond it the entry of the greatest key if the caller expects another sibling of
      a leaf that is no root, and no key of the window is as large as k. Nothing else is. */
  lemma BufferIs(P: Params, n: Node, k: Key, expected: Sibling, i: nat)
    requires P.Valid() && |n.records| == P.c.span && |n.bitmap| == P.g.bits && n.maxIdx < P.c.span && i < P.c.span
    ensures var b, num := P.c.Home(k), ReadSize(P, n, k);
            var fetched := expected != Next(n) && n.sibling != RootTag
                           && forall j :: 0 <= j < P.c.span && P.c.Off(b, j) < num ==> n.records[j].key < k;
            Buffer(P, n, k, expected)[i] ==
              if P.c.Off(b, i) < num || (i == n.maxIdx && fetched) then n.records[i] else Blank(P.c)
  {
    hide ReadSize;
  }

  /** The first slot from i on that holds k; |s| if there is none. */
  function FirstKey(s: Leaf, k: Key, i: nat): (r: nat)
    requires i <= |s|
    ensures i <= r <= |s| && (r < |s| ==> s[r].key == k)
    ensures forall j :: i <= j < r ==> s[j].key != k
    decreases |s| - i
  {
    if i == |s| || s[i].key == k then i else FirstKey(s, k, i + 1)
  }

  ghost predicate Ready(P: Params, n: Node) {
    P.Valid() && Shape(P.c, n.records) && |n.bitmap| == P.g.bits && n.maxIdx < P.c.span
  }

  /** The empty check of leaf_node_insert: the whole leaf was read, or the window has a hole. */
  predicate HasEmpty(c: Config, t: Leaf, b: nat, num: nat)
    requires c.Valid() && |t| == c.span && b < c.span && num <= c.span
  {
    num == c.span || FirstEmpty(c, t, b, b + num) < b + num
  }

  /** leaf_node_insert in a leaf it does not turn away from. None stands for a failing assert. */
  function InsertNode(P: Params, n: Node, k: Key, v: Value, addr: nat, expected: Sibling): (r: Option<seq<Node>>)
    requires Ready(P, n)
  {
    BufferAgrees(P, n, k, expected);
    var t := Buffer(P, n, k, expected);
    var i := FirstKey(t, k, 0);
    if !HasEmpty(P.c, t, P.c.Home(k), ReadSize(P, n, k)) then None
    else if i < |t| then Some([n.(records := PutKV(n.records, i, k, v))])
    else match InsertInto(P, n, t, ReadSize(P, n, k), k, v)
      case Some(n') => Some([n'])
      case None => SplitNode(P, n, k, v, addr)
  }

  /** The entry of a present key k is read before it is looked for: it lies in the window, or it is the
      greatest key and the check fetched it. */
  ghost predicate Visible(P: Params, n: Node, k: Key, expected: Sibling)
    requires Ready(P, n) && Has(n.records, k)
  {
    || P.c.Off(P.c.Home(k), SlotOf(n.records, k)) < ReadSize(P, n, k)
    || (SlotOf(n.records, k) == n.maxIdx && FetchesMax(P, n, k, expected))
  }

  lemma BufferShows(P: Params, n: Node, k: Key, expected: Sibling)
    requires Ready(P, n) && Distinct(n.records) && k != KEY_NULL
    ensures var t := Buffer(P, n, k, expected);
            && FirstKey(t, k, 0) < |t| <==> Has(n.records, k) && Visible(P, n, k, expected)
    ensures var t := Buffer(P, n, k, expected);
            FirstKey(t, k, 0) < |t| ==> FirstKey(t, k, 0) == SlotOf(n.records, k)
  {
    hide ReadSize, FetchesMax;
    var t := Buffer(P, n, k, expected);
    var i := FirstKey(t, k, 0);
    if i < |t| {
      assert n.records[i].key == k;
    }
    if Has(n.records, k) && Visible(P, n, k, expected) {
      assert t[SlotOf(n.records, k)].key == k;
    }
  }

  /** With a sound bitmap the empty check holds. */
  lemma WindowHasEmpty(P: Params, n: Node, k: Key, expected: Sibling)
    requires Ready(P, n) && Sound(P.g, n.bitmap, n.records)
    ensures HasEmpty(P.c, Buffer(P, n, k, expected), P.c.Home(k), ReadSize(P, n, k))
  {
    hide Sound, ReadSize, Buffer, FetchesMax;
    var b, num, t := P.c.Home(k), ReadSize(P, n, k), Buffer(P, n, k, expected);
    ReadSizeHasHole(P, n, k);
    BufferAgrees(P, n, k, expected);
    if num < P.c.span {
      FirstEmptyCongruent(P.c, t, n.records, b, b + num, b + num);
    }
  }

  // ---------------------------------------------------------------- overwriting an entry

  lemma UpdateLeafKeeps(c: Config, s: Leaf, i: nat, v: Value)
    requires HopInv(c, s) && i < |s| && s[i].key != KEY_NULL
    ensures HopInv(c, PutKV(s, i, s[i].key, v))
    ensures Contents(PutKV(s, i, s[i].key, v)) == Contents(s)[s[i].key := v]
  {
    var r := PutKV(s, i, s[i].key, v);
    assert forall j :: 0 <= j < |s| ==> r[j].key == s[j].key && r[j].hop == s[j].hop;
    assert BitsExact(c, r) && Distinct(r);
    UpdateContents(s, i, v, r);
  }

  lemma UpdateContents(s: Leaf, i: nat, v: Value, r: Leaf)
    requires Distinct(s) && Distinct(r) && i < |s| == |r| && s[i].key != KEY_NULL && r[i].value == v
    requires forall j :: 0 <= j < |s| ==> r[j].key == s[j].key && (j != i ==> r[j].value == s[j].value)
    ensures Contents(r) == Contents(s)[s[i].key := v]
  {
    hide Contents;
    var m := Contents(s)[s[i].key := v];
    ContentsAt(s, i);
    forall k ensures k in Contents(r) <==> k in m
      ensures k in m ==> Contents(r)[k] == m[k]
    {
      KeysAt(r, k);
      KeysAt(s, k);
      if k != KEY_NULL && Has(s, k) { var j := SlotOf(s, k); ContentsAt(r, j); ContentsAt(s, j); }
      if k != KEY_NULL && Has(r, k) { assert s[SlotOf(r, k)].key == k; }
    }
  }

  /** Overwriting the entry of a present key leaves the lock word right. */
  lemma OverwriteKeeps(P: Params, n: Node, i: nat, v: Value)
    requires NodeInv(P, n) && i < |n.records| && n.records[i].key != KEY_NULL
    ensures var n' := n.(records := PutKV(n.records, i, n.records[i].key, v));
            NodeInv(P, n') && Contents(n'.records) == Contents(n.records)[n.records[i].key := v]
  {
    var s, r := n.records, PutKV(n.records, i, n.records[i].key, v);
    UpdateLeafKeeps(P.c, s, i, v);
    forall b | 0 <= b < P.g.bits && !n.bitmap[b] ensures BucketHasHole(P.g, r, b) {
      var j :| 0 <= j < P.g.span && FindBucket(P.g, j) == b && s[j].key == KEY_NULL;
      assert r[j].key == KEY_NULL;
    }
  }

  // ---------------------------------------------------------------- a key outside the window

  lemma {:induction false} HopToHolds(c: Config, s: Leaf, b: nat, j: int, k: Key, v: Value) returns (i: int)
    requires Shape(c, s) && b < c.span && b <= j < b + c.span && HopTo(c, s, b, j, k, v).Some?
    ensures b <= i <= j && HopTo(c, s, b, j, k, v).value[c.Slot(i)].key == k
    decreases j - b
  {
    hide HopTo, Move, FindHop;
    HopUnfold(c, s, b, j, k, v);
    if j < b + c.neighbor {
      i := j;
    } else {
      var Hop(h, z) := FindHop(c, s, j, c.neighbor - 1);
      i := HopToHolds(c, Move(c, s, h, z, j), b, h, k, v);
    }
  }

  /** Outside the window the key ends up in two slots. */
  lemma StoredTwice(c: Config, s: Leaf, t: Leaf, k: Key, v: Value, num: nat)
    requires Shape(c, s) && Shape(c, t) && num <= c.span && Has(s, k) && k != KEY_NULL
    requires c.Off(c.Home(k), SlotOf(s, k)) >= num && LeafInsert(c, t, k, v, num).Some?
    ensures FirstEmpty(c, t, c.Home(k), c.Home(k) + num) < c.Home(k) + num
    ensures !Distinct(PatchWindow(c, s, LeafInsert(c, t, k, v, num).value, c.Home(k),
                                  FirstEmpty(c, t, c.Home(k), c.Home(k) + num)))
  {
    hide HopTo;
    var b := c.Home(k);
    var e := FirstEmpty(c, t, b, b + num);
    var i := HopToHolds(c, t, b, e, k, v);
    assert c.Off(b, c.Slot(i)) == i - b;
    var r := PatchWindow(c, s, LeafInsert(c, t, k, v, num).value, b, e);
    var j, j' := c.Slot(i), SlotOf(s, k);
    assert r[j].key == k && r[j'].key == k && j != j';
  }

  /** A window that misses a present key is shorter than the neighbourhood, so its hole is near home. */
  lemma PlacesAtOnce(P: Params, n: Node, t: Leaf, k: Key, v: Value)
    requires P.Valid() && HopInv(P.c, n.records) && Sound(P.g, n.bitmap, n.records) && Shape(P.c, t)
    requires SameOn(P.c, n.records, t, P.c.Home(k), P.c.Home(k) + ReadSize(P, n, k))
    requires k != KEY_NULL && Has(n.records, k)
    requires P.c.Off(P.c.Home(k), SlotOf(n.records, k)) >= ReadSize(P, n, k)
    ensures LeafInsert(P.c, t, k, v, ReadSize(P, n, k)).Some?
  {
    hide BitsExact, Distinct, BucketHasHole, ReadSize, Place;
    var b, num := P.c.Home(k), ReadSize(P, n, k);
    assert P.c.Off(b, SlotOf(n.records, k)) < P.c.neighbor;
    ReadSizeHasHole(P, n, k);
    FirstEmptyCongruent(P.c, t, n.records, b, b + num, b + num);
    HopUnfold(P.c, t, b, FirstEmpty(P.c, t, b, b + num), k, v);
  }

  /** Inserting a present key never fails, and it leaves an exact leaf with the new value if and only if the
      entry of that key was read. */
  lemma InsertExactIff(P: Params, n: Node, k: Key, v: Value, addr: nat, expected: Sibling)
    requires NodeInv(P, n) && k != KEY_NULL && Has(n.records, k)
    ensures Ready(P, n) && InsertNode(P, n, k, v, addr, expected).Some?
    ensures var ns := InsertNode(P, n, k, v, addr, expected).value;
            && |ns| == 1 && ns[0].lo == n.lo && ns[0].hi == n.hi && ns[0].addr == n.addr && ns[0].sibling == n.sibling
            && (Visible(P, n, k, expected) ==>
                  NodeInv(P, ns[0]) && Contents(ns[0].records) == Contents(n.records)[k := v])
            && (!Visible(P, n, k, expected) ==> !HopInv(P.c, ns[0].records))
  {
    hide BitsExact, NearHome, Distinct, BucketHasHole, LeafInsert, PatchWindow, Contents, ReadSize, Buffer, FetchesMax;
    hide Swept, NewMaxIdx, WindowHoles;
    var t := Buffer(P, n, k, expected);
    BufferShows(P, n, k, expected);
    BufferAgrees(P, n, k, expected);
    WindowHasEmpty(P, n, k, expected);
    if Visible(P, n, k, expected) {
      OverwriteKeeps(P, n, SlotOf(n.records, k), v);
    } else {
      PlacesAtOnce(P, n, t, k, v);
      StoredTwice(P.c, n.records, t, k, v, ReadSize(P, n, k));
    }
  }

  /** An absent key splits its leaf if and only if no legal hops bring the first hole, if there is one, into
      its neighbourhood. */
  lemma InsertSplitsIff(P: Params, n: Node, k: Key, v: Value, addr: nat, expected: Sibling)
    requires NodeInv(P, n) && k != KEY_NULL && !Has(n.records, k) && n.lo <= k < n.hi
    ensures Ready(P, n) && InsertNode(P, n, k, v, addr, expected).Some?
    ensures |InsertNode(P, n, k, v, addr, expected).value| == 1 <==>
            exists e :: P.c.Home(k) <= e < P.c.Home(k) + P.c.span && n.records[P.c.Slot(e)].key == KEY_NULL
                        && Occupied(P.c, n.records, P.c.Home(k), e) && Reaches(P.c, n.records, P.c.Home(k), e)
  {
    hide BitsExact, NearHome, Distinct, BucketHasHole, LeafInsert, SplitNode, Buffer, Reaches, ReadSize, Occupied;
    hide Contents, InsertInto;
    var t := Buffer(P, n, k, expected);
    BufferAgrees(P, n, k, expected);
    BufferShows(P, n, k, expected);
    WindowHasEmpty(P, n, k, expected);
    InsertIntoIsFull(P, n, t, k, v);
    InsertIff(P.c, n.records, k, v, P.c.span);
    if LeafInsert(P.c, n.records, k, v, P.c.span).None? {
      SplitNodeKeeps(P, n, k, v, addr);
    }
  }

  // ---------------------------------------------------------------- leaf_node_update

  /** The first distance from j on at which the neighbourhood of k holds k; N if there is none. */
  function NearDistance(c: Config, s: Leaf, k: Key, j: nat): (r: nat)
    requires c.Valid() && |s| == c.span && j <= c.neighbor
    ensures j <= r <= c.neighbor && (r < c.neighbor ==> HoldsKey(c, s, k, r))
    ensures forall x :: j <= x < r ==> !HoldsKey(c, s, k, x)
    decreases c.neighbor - j
  {
    if j == c.neighbor || HoldsKey(c, s, k, j) then j else NearDistance(c, s, k, j + 1)
  }

  /** The neighbourhood is all an update has to search. */
  lemma NearIffHas(c: Config, s: Leaf, k: Key)
    requires HopInv(c, s) && k != KEY_NULL
    ensures NearDistance(c, s, k, 0) < c.neighbor <==> Has(s, k)
    ensures Has(s, k) ==> c.Slot(c.Home(k) + NearDistance(c, s, k, 0)) == SlotOf(s, k)
  {
    hide BitsExact;
    if Has(s, k) {
      var i := SlotOf(s, k);
      assert HoldsKey(c, s, k, c.Off(c.Home(k), i));
    }
  }

  /** The first word of a lock buffer: what an earlier operation left there, or zero. */
  datatype Word = Word(bitmap: seq<bool>, maxIdx: nat)

  predicate Fits(P: Params, w: Word) {
    |w.bitmap| == P.g.bits && w.maxIdx < P.c.span
  }

  /** leaf_node_update of a key found in the neighbourhood. It takes the lock without reading the lock word.
      The entry of the last slot lies next to that word and is written together with it. */
  function UpdateNode(P: Params, n: Node, k: Key, v: Value, left: Word): (n': Node)
    requires Ready(P, n) && NearDistance(P.c, n.records, k, 0) < P.c.neighbor
  {
    var i := P.c.Slot(P.c.Home(k) + NearDistance(P.c, n.records, k, 0));
    var n' := n.(records := PutKV(n.records, i, k, v));
    if i == P.c.span - 1 then n'.(bitmap := left.bitmap, maxIdx := left.maxIdx) else n'
  }

  /** The leaf is exact and within its range; its lock word may be wrong. */
  ghost predicate Stored(P: Params, n: Node) {
    && Ready(P, n) && HopInv(P.c, n.records) && n.lo < n.hi
    && forall i :: 0 <= i < |n.records| && n.records[i].key != KEY_NULL ==> n.lo <= n.records[i].key < n.hi
  }

  lemma NodeStored(P: Params, n: Node)
    requires NodeInv(P, n)
    ensures Stored(P, n)
  {
    hide BitsExact, NearHome, Distinct, BucketHasHole;
  }

  /** Whatever word it writes, an update of a present key meets its assert, keeps the leaf exact and changes
      just that value. */
  lemma UpdateNodeStores(P: Params, n: Node, k: Key, v: Value, left: Word)
    requires Stored(P, n) && k != KEY_NULL && Has(n.records, k) && Fits(P, left)
    ensures NearDistance(P.c, n.records, k, 0) < P.c.neighbor
    ensures Stored(P, UpdateNode(P, n, k, v, left))
    ensures Contents(UpdateNode(P, n, k, v, left).records) == Contents(n.records)[k := v]
  {
    hide BitsExact, NearHome, Distinct, Contents;
    NearIffHas(P.c, n.records, k);
    UpdateLeafKeeps(P.c, n.records, SlotOf(n.records, k), v);
  }

  /** The key is not in the last slot, or the word left in the buffer is right for the leaf. */
  ghost predicate WordRight(P: Params, n: Node, k: Key, left: Word)
    requires P.Valid() && |n.records| == P.c.span && Has(n.records, k)
  {
    SlotOf(n.records, k) != P.c.span - 1 || (Sound(P.g, left.bitmap, n.records) && IsMaxIdx(n.records, left.maxIdx))
  }

  lemma SoundIffKeys(g: Buckets, bitmap: seq<bool>, s: Leaf, r: Leaf)
    requires g.Valid() && |s| == |r| == g.span && |bitmap| == g.bits
    requires forall i :: 0 <= i < |s| ==> r[i].key == s[i].key
    ensures Sound(g, bitmap, r) <==> Sound(g, bitmap, s)
  {
    hide FindBucket;
    forall b ensures BucketHasHole(g, r, b) <==> BucketHasHole(g, s, b) {
      if i :| 0 <= i < g.span && FindBucket(g, i) == b && s[i].key == KEY_NULL { assert r[i].key == KEY_NULL; }
      if i :| 0 <= i < g.span && FindBucket(g, i) == b && r[i].key == KEY_NULL { assert s[i].key == KEY_NULL; }
    }
  }

  /** A valid leaf with another lock word is valid exactly when that word is right. */
  lemma WordIff(P: Params, n: Node, n': Node, w: Word)
    requires NodeInv(P, n) && HopInv(P.c, n'.records) && n'.lo == n.lo && n'.hi == n.hi
    requires n'.bitmap == w.bitmap && n'.maxIdx == w.maxIdx && Fits(P, w)
    requires forall i :: 0 <= i < |n.records| ==> n'.records[i].key == n.records[i].key
    ensures NodeInv(P, n') <==> Sound(P.g, w.bitmap, n.records) && IsMaxIdx(n.records, w.maxIdx)
  {
    hide BitsExact, NearHome, Distinct, BucketHasHole, Sound;
    SoundIffKeys(P.g, w.bitmap, n.records, n'.records);
  }

  /** An update leaves a valid leaf, lock word included, if and only if the key is not in the last slot or
      the word left in the buffer is right. */
  lemma UpdateNodeKeepsIff(P: Params, n: Node, k: Key, v: Value, left: Word)
    requires NodeInv(P, n) && k != KEY_NULL && Has(n.records, k) && Fits(P, left)
    ensures NearDistance(P.c, n.records, k, 0) < P.c.neighbor
    ensures NodeInv(P, UpdateNode(P, n, k, v, left)) <==> WordRight(P, n, k, left)
  {
    hide BitsExact, NearHome, Distinct, Sound, Contents, IsMaxIdx;
    NodeStored(P, n);
    NearIffHas(P.c, n.records, k);
    var i := SlotOf(n.records, k);
    UpdateLeafKeeps(P.c, n.records, i, v);
    OverwriteKeeps(P, n, i, v);
    if i == P.c.span - 1 {
      WordIff(P, n, UpdateNode(P, n, k, v, left), left);
    }
  }

  // ---------------------------------------------------------------- the loops

  /** check_larger_key on [l, r). */
  method CheckLarger(s: Leaf, l: nat, r: nat, k: Key) returns (found: bool)
    requires l <= r <= |s|
    ensures found <==> exists i :: l <= i < r && s[i].key >= k
  {
    found := false;
    for i := l to r
      invariant !exists j :: l <= j < i && s[j].key >= k
    {
      if s[i].key >= k {
        return true;
      }
    }
  }

  /** The two ranges of a window that wraps. */
  method HasLargeKey(c: Config, s: Leaf, l: nat, num: nat, k: Key) returns (found: bool)
    requires c.Valid() && |s| == c.span && l < c.span && 0 < num <= c.span
    ensures found <==> LargerIn(c, s, l, num, k)
  {
    var r := c.Slot(l + num);
    if l < r {
      found := CheckLarger(s, l, r, k);
      assert forall i :: l <= i < r ==> c.Off(l, i) < num;
    } else {
      found := CheckLarger(s, 0, r, k);
      if !found {
        found := CheckLarger(s, l, c.span, k);
      }
      assert forall i :: 0 <= i < c.span ==> (c.Off(l, i) < num <==> i < r || l <= i);
    }
  }

  /** The search for an existing key in the buffer. */
  method FindKey(s: Leaf, k: Key) returns (i: nat)
    ensures i == FirstKey(s, k, 0)
  {
    i := 0;
    while i < |s| && s[i].key != k
      invariant 0 <= i <= |s|
      invariant FirstKey(s, k, 0) == FirstKey(s, k, i)
    {
      i := i + 1;
    }
  }

  /** The search of leaf_node_update; j == N turns right or fails. */
  method FindNear(c: Config, s: Leaf, k: Key) returns (j: nat)
    requires c.Valid() && |s| == c.span
    ensures j == NearDistance(c, s, k, 0)
  {
    j := 0;
    while j < c.neighbor && s[c.Slot(c.Home(k) + j)].key != k
      invariant 0 <= j <= c.neighbor
      invariant NearDistance(c, s, k, 0) == NearDistance(c, s, k, j)
    {
      j := j + 1;
    }
  }
}
