/** A CHIME leaf together with its lock word: the insert that reads only the window the vacancy bitmap
    points at, the upkeep of bitmap and greatest-key index, and the split with its metadata. */
module ChimeLeaf {

  import opened Common
  import opened Division
  import opened Hopscotch
  import opened HopscotchPath
  import opened HopscotchSplit
  import opened HopscotchRead
  import opened VacancyLock

  // ---------------------------------------------------------------- the greatest-key index

  /** What an insert does to the keys of a leaf, seen from the slots of its path. */
  ghost predicate Rewrote(s: Leaf, r: Leaf, k: Key, path: seq<nat>) {
    && |r| == |s| && Distinct(s) && Distinct(r) && k != KEY_NULL && !Has(s, k)
    && (forall x :: 0 <= x < |path| ==> path[x] < |s|)
    && (forall i :: 0 <= i < |s| && i !in path ==> r[i].key == s[i].key)
    && (exists x :: 0 <= x < |path| && r[path[x]].key == k)
    && (forall x :: x != KEY_NULL ==> (Has(r, x) <==> Has(s, x) || x == k))
  }

  lemma KeysBounded(s: Leaf, r: Leaf, k: Key, path: seq<nat>, m: nat, i: nat)
    requires Rewrote(s, r, k, path) && IsMaxIdx(s, m) && i < |r|
    ensures r[i].key <= s[m].key || r[i].key == k
  {
    hide Distinct;
    if r[i].key != KEY_NULL && r[i].key != k {
      assert Has(r, r[i].key);
      var j := SlotOf(s, r[i].key);
    }
  }

  /** A key of a hopped slot is still in a hopped slot. */
  lemma StaysInPath(s: Leaf, r: Leaf, k: Key, path: seq<nat>, m: nat) returns (x: nat)
    requires Rewrote(s, r, k, path) && m in path && s[m].key != KEY_NULL
    ensures x < |path| && r[path[x]].key == s[m].key
  {
    var M := s[m].key;
    assert Has(s, M) && Has(r, M);
    var i := SlotOf(r, M);
    assert i in path;
    x :| 0 <= x < |path| && path[x] == i;
  }

  /** The slot of the greatest key, looked for among the hopped slots only, is found exactly when the
      new key is not the greatest or the old greatest key sat in a hopped slot. */
  lemma MaxIndexKeptIff(s: Leaf, r: Leaf, k: Key, path: seq<nat>, m: nat)
    requires Rewrote(s, r, k, path) && IsMaxIdx(s, m)
    ensures IsMaxIdx(r, NewMaxIdx(r, path, m)) <==> k < s[m].key || m in path
  {
    hide Distinct;
    var M := s[m].key;
    var m' := NewMaxIdx(r, path, m);
    assert M != k by { assert Has(s, M); }
    var y :| 0 <= y < |path| && r[path[y]].key == k;
    forall i | 0 <= i < |r| ensures r[i].key <= M || r[i].key == k {
      KeysBounded(s, r, k, path, m, i);
    }
    if m in path {
      var x := StaysInPath(s, r, k, path, m);
      assert r[path[x]].key <= r[m'].key && r[path[y]].key <= r[m'].key;
    }
  }

  // ---------------------------------------------------------------- the leaf and its lock word

  datatype Params = Params(c: Config, g: Buckets) {
    ghost predicate Valid() {
      c.Valid() && g.Valid() && g.span == c.span
    }
  }

  /** RootTag is GlobalAddress::Widest, which marks the only leaf of a tree without inner nodes. */
  datatype Sibling = RootTag | NoSibling | At(addr: nat)

  /** lo and hi are the fence keys: the leaf answers for lo <= k < hi. */
  datatype Node = Node(addr: nat, records: Leaf, bitmap: seq<bool>, maxIdx: nat, lo: Key, hi: Key, sibling: Sibling)

  /** The leaf is exact, its bitmap sound, its greatest key indexed and one below its upper fence. */
  ghost predicate NodeInv(P: Params, n: Node) {
    && P.Valid() && HopInv(P.c, n.records) && Sound(P.g, n.bitmap, n.records) && IsMaxIdx(n.records, n.maxIdx)
    && n.hi == n.records[n.maxIdx].key + 1
    && forall i :: 0 <= i < |n.records| && n.records[i].key != KEY_NULL ==> n.lo <= n.records[i].key
  }

  function Blank(c: Config): (e: LeafEntry) {
    LeafEntry(KEY_NULL, VALUE_NULL, seq(c.neighbor, _ => false))
  }

  /** The zeroed buffer after the n entries from slot b on were read into it. */
  function ReadBuffer(c: Config, s: Leaf, b: nat, n: nat): (t: Leaf)
    requires c.Valid() && |s| == c.span && b < c.span
    ensures |t| == c.span
  {
    seq(c.span, i requires 0 <= i < c.span => if c.Off(b, i) < n then s[i] else Blank(c))
  }

  /** A read inside one group that would miss the group's metadata is extended to the next group. */
  function WithMetadata(c: Config, l: nat, n: nat): (n': nat)
    requires c.Valid() && l < c.span && 0 < n <= c.span
    ensures n <= n' <= c.span
  {
    if n < c.neighbor && l % c.neighbor != 0 && l / c.neighbor == (l + n - 1) / c.neighbor then
      GroupEnd(l, n, c.neighbor);
      (l + n - 1 + c.neighbor) / c.neighbor * c.neighbor + 1 - l
    else n
  }

  lemma GroupEnd(l: nat, n: nat, N: nat)
    requires 0 < n < N && l % N != 0 && l / N == (l + n - 1) / N
    ensures n <= (l + n - 1 + N) / N * N + 1 - l <= N
  {
    var q, x := l / N, l + n - 1;
    DivMul(l, N);
    DivMul(x, N);
    MulSteps(N, q, 1);
    DivIs(x + N, N, q + 1);
    assert (q + 1) * N == N * (q + 1);
  }

  /** Slot i of the window from l on opens a group, so a copy of the metadata lies in front of it. */
  ghost predicate Opens(c: Config, l: nat, n: nat, i: int) {
    c.Valid() && l < c.span && n <= c.span && l <= i < l + n && c.Slot(i) % c.neighbor == 0
  }

  /** The extended read always contains a copy of the metadata, also when it wraps. So does every read of a
      whole neighbourhood, which is not extended. */
  lemma ReadsMetadata(c: Config, l: nat, n: nat) returns (i: int)
    requires c.Valid() && l < c.span && 0 < n <= c.span
    ensures Opens(c, l, WithMetadata(c, l, n), i)
    ensures n >= c.neighbor ==> WithMetadata(c, l, n) == n
  {
    var N, q := c.neighbor, l / c.neighbor;
    DivMul(l, N);
    DivMul(l + n - 1, N);
    var m := if l % N == 0 then l else N * (q + 1);
    MulSteps(N, q, 1);
    assert m % N == 0 by {
      DivIs(m, N, if l % N == 0 then q else q + 1);
    }
    if l % N != 0 {
      NextGroupRead(c, l, n, m);
    }
    i := if m < c.span then m else c.span;
    assert 0 % N == 0;
  }

  lemma NextGroupRead(c: Config, l: nat, n: nat, m: nat)
    requires c.Valid() && l < c.span && 0 < n <= c.span && l % c.neighbor != 0
    requires m == c.neighbor * (l / c.neighbor + 1)
    ensures l < m < l + WithMetadata(c, l, n)
  {
    var N, q, x := c.neighbor, l / c.neighbor, l + n - 1;
    DivMul(l, N);
    DivMul(x, N);
    MulSteps(N, q, 1);
    if n < N && q == x / N {
      DivIs(x + N, N, q + 1);
      assert (q + 1) * N == N * (q + 1);
    } else if n < N {
      MulSteps(N, q, x / N);
      MulSteps(N, x / N, q);
    }
  }

  /** No read is longer than it has to be: it is extended only if it has no multiple of the neighbourhood size,
      and then just up to the first one. */
  lemma ReadsNoMore(c: Config, l: nat, n: nat)
    requires c.Valid() && l < c.span && 0 < n <= c.span
    ensures var n' := WithMetadata(c, l, n);
            && ((exists x :: l <= x < l + n && x % c.neighbor == 0) ==> n' == n)
            && ((forall x :: l <= x < l + n ==> x % c.neighbor != 0) ==>
                  (l + n' - 1) % c.neighbor == 0 && forall x :: l <= x < l + n' - 1 ==> x % c.neighbor != 0)
  {
    hide WithMetadata;
    WithMetadataIs(c, l, n);
    if l % c.neighbor != 0 {
      NextMultiple(l, c.neighbor);
    }
  }

  lemma NextMultiple(l: nat, N: nat)
    requires N > 0 && l % N != 0
    ensures var m := N * (l / N + 1);
            l < m && m % N == 0 && forall x :: l <= x < m ==> x % N != 0
  {
    var q := l / N;
    var m := N * (q + 1);
    DivMul(l, N);
    MulSteps(N, q, 1);
    DivIs(m, N, q + 1);
    forall x | l <= x < m ensures x % N != 0 {
      DivIs(x, N, q);
    }
  }

  lemma WithMetadataIs(c: Config, l: nat, n: nat)
    requires c.Valid() && l < c.span && 0 < n <= c.span
    ensures var m := c.neighbor * (l / c.neighbor + 1);
            WithMetadata(c, l, n) == if l % c.neighbor == 0 || m < l + n then n else m + 1 - l
  {
    var N, q := c.neighbor, l / c.neighbor;
    DivMul(l, N);
    MulSteps(N, q, 1);
    if N * (q + 1) < l + n {
      DivGe(l + n - 1, N, q + 1);
    } else {
      DivIs(l + n - 1, N, q);
      DivIs(l + n - 1 + N, N, q + 1);
      assert (q + 1) * N == N * (q + 1);
    }
  }

  /** The empty slots in [i, end), in order. */
  function Holes(s: Leaf, i: nat, end: nat): (r: seq<nat>)
    requires i <= end <= |s|
    ensures forall x :: 0 <= x < |r| ==> i <= r[x] < end && s[r[x]].key == KEY_NULL
    ensures forall y :: i <= y < end && s[y].key == KEY_NULL ==> y in r
    decreases end - i
  {
    if i == end then [] else (if s[i].key == KEY_NULL then [i] else []) + Holes(s, i + 1, end)
  }

  function WindowHoles(s: Leaf, l: nat, r: nat): (holes: seq<nat>)
    requires l < |s| && r < |s|
    ensures forall x :: 0 <= x < |holes| ==> holes[x] < |s| && s[holes[x]].key == KEY_NULL
    ensures forall x :: 0 <= x < |holes| ==> if l <= r then l <= holes[x] <= r else holes[x] <= r || l <= holes[x]
  {
    if l <= r then Holes(s, l, r + 1) else Holes(s, 0, r + 1) + Holes(s, l, |s|)
  }

  /** segment_write_and_unlock of the window [b, e] of the buffer r, with the lock word it stores. */
  function AfterInsert(P: Params, n: Node, r: Leaf, b: nat, e: int, path: seq<nat>): (n': Node)
    requires P.Valid() && |n.records| == P.c.span == |r| && |n.bitmap| == P.g.bits
    requires b < P.c.span && b <= e < b + P.c.span && forall x :: 0 <= x < |path| ==> path[x] < P.c.span
  {
    n.(records := PatchWindow(P.c, n.records, r, b, e),
       bitmap := Swept(P.g, n.bitmap, b, P.c.Slot(e), WindowHoles(r, b, P.c.Slot(e))),
       maxIdx := NewMaxIdx(r, path, n.maxIdx))
  }

  // ---------------------------------------------------------------- insert without split

  lemma InsertRewrote(c: Config, s: Leaf, k: Key, v: Value, e: int)
    requires HopInv(c, s) && k != KEY_NULL && !Has(s, k) && e == FirstEmpty(c, s, c.Home(k), c.Home(k) + c.span)
    requires LeafInsert(c, s, k, v, c.span).Some?
    ensures e < c.Home(k) + c.span
    ensures Rewrote(s, LeafInsert(c, s, k, v, c.span).value, k, HopPath(c, s, c.Home(k), e))
  {
    hide BitsExact, NearHome, HopTo, HopPath;
    var b := c.Home(k);
    var r := LeafInsert(c, s, k, v, c.span).value;
    LeafInsertKeeps(c, s, k, v, c.span);
    HopPathCovers(c, s, b, e, k, v);
    HopPathSlots(c, s, b, e);
    forall x | x != KEY_NULL ensures Has(r, x) <==> Has(s, x) || x == k {
      KeysAt(s, x);
      KeysAt(r, x);
    }
  }

  /** Only the hole that started the path stops being empty. */
  lemma InsertFillsHole(c: Config, s: Leaf, k: Key, v: Value, e: int)
    requires HopInv(c, s) && k != KEY_NULL && !Has(s, k) && e == FirstEmpty(c, s, c.Home(k), c.Home(k) + c.span)
    requires LeafInsert(c, s, k, v, c.span).Some?
    ensures e < c.Home(k) + c.span
    ensures var r := LeafInsert(c, s, k, v, c.span).value;
            && (forall i :: c.Home(k) <= i <= e ==> r[c.Slot(i)].key != KEY_NULL)
            && (forall i :: 0 <= i < c.span && i != c.Slot(e) && s[i].key == KEY_NULL ==> r[i].key == KEY_NULL)
  {
    hide BitsExact, NearHome, Distinct, HopTo;
    var b := c.Home(k);
    var r := LeafInsert(c, s, k, v, c.span).value;
    HopToFills(c, s, b, e, k, v);
    HopToFrame(c, s, b, e, k, v);
    forall i | 0 <= i < c.span && i != c.Slot(e) && s[i].key == KEY_NULL ensures r[i].key == KEY_NULL {
      var x := b + c.Off(b, i);
      assert c.Slot(x) == i;
      assert x > e;
    }
  }

  lemma {:induction false} GreatestOfCongruent(s: Leaf, t: Leaf, idxes: seq<nat>, bestKey: Key, best: nat)
    requires forall x :: 0 <= x < |idxes| ==> idxes[x] < |s| && idxes[x] < |t|
    requires forall x :: 0 <= x < |idxes| ==> s[idxes[x]].key == t[idxes[x]].key
    ensures GreatestOf(s, idxes, bestKey, best) == GreatestOf(t, idxes, bestKey, best)
    decreases |idxes|
  {
    if idxes != [] {
      GreatestOfCongruent(s, t, idxes[1..], s[idxes[0]].key, idxes[0]);
      GreatestOfCongruent(s, t, idxes[1..], bestKey, best);
    }
  }

  /** The node after the segment write, seen on the whole leaf. */
  lemma AfterInsertIs(P: Params, n: Node, r: Leaf, full: Leaf, b: nat, e: int, path: seq<nat>)
    requires P.Valid() && |n.records| == P.c.span == |r| == |full| && |n.bitmap| == P.g.bits
    requires b < P.c.span && b <= e < b + P.c.span
    requires forall x :: 0 <= x < |path| ==> path[x] < P.c.span && P.c.Off(b, path[x]) <= e - b
    requires PatchWindow(P.c, n.records, r, b, e) == full
    requires forall i :: b <= i <= e ==> full[P.c.Slot(i)].key != KEY_NULL
    ensures AfterInsert(P, n, r, b, e, path) ==
            n.(records := full, bitmap := Swept(P.g, n.bitmap, b, P.c.Slot(e), []),
               maxIdx := NewMaxIdx(full, path, n.maxIdx))
  {
    forall i | 0 <= i < P.c.span && P.c.Off(b, i) <= e - b ensures r[i] == full[i] && r[i].key != KEY_NULL {
      assert PatchWindow(P.c, n.records, r, b, e)[i] == r[i];
      assert P.c.Slot(b + P.c.Off(b, i)) == i;
    }
    NoWindowHoles(P.c, r, b, e);
    GreatestOfCongruent(r, full, path, KEY_NULL, n.maxIdx);
  }

  lemma {:induction false} NoHoles(s: Leaf, i: nat, end: nat)
    requires i <= end <= |s| && forall y :: i <= y < end ==> s[y].key != KEY_NULL
    ensures Holes(s, i, end) == []
    decreases end - i
  {
    if i < end { NoHoles(s, i + 1, end); }
  }

  lemma NoWindowHoles(c: Config, r: Leaf, b: nat, e: int)
    requires c.Valid() && |r| == c.span && b < c.span && b <= e < b + c.span
    requires forall i :: 0 <= i < c.span && c.Off(b, i) <= e - b ==> r[i].key != KEY_NULL
    ensures WindowHoles(r, b, c.Slot(e)) == []
  {
    var w := c.Slot(e);
    if b <= w {
      NoHoles(r, b, w + 1);
    } else {
      NoHoles(r, 0, w + 1);
      NoHoles(r, b, |r|);
    }
  }

  /** The number of entries an insert of k reads. */
  function ReadSize(P: Params, n: Node, k: Key): (num: nat)
    requires P.Valid() && |n.bitmap| == P.g.bits
    ensures 0 < num <= P.c.span
  {
    WithMetadata(P.c, P.c.Home(k), ReadNum(P.g, n.bitmap, P.c.Home(k), 0))
  }

  /** The window read is the whole leaf or contains a hole: the assert of leaf_node_insert. */
  lemma ReadSizeHasHole(P: Params, n: Node, k: Key)
    requires P.Valid() && Sound(P.g, n.bitmap, n.records)
    ensures var b, num := P.c.Home(k), ReadSize(P, n, k);
            num == P.c.span || FirstEmpty(P.c, n.records, b, b + num) < b + num
  {
    hide ReadNum, BitsExact, NearHome, Distinct, WithMetadata;
    var b := P.c.Home(k);
    var m := ReadNum(P.g, n.bitmap, b, 0);
    ReadHasHole(P.g, n.bitmap, n.records, b, 0);
    if m < P.c.span {
      var x :| b <= x < b + m && n.records[x].key == KEY_NULL;
      assert P.c.Slot(x) == x;
    }
  }

  /** hopscotch_insert_and_unlock on the buffer t, of which num entries were read; None asks for a split. */
  function InsertInto(P: Params, n: Node, t: Leaf, num: nat, k: Key, v: Value): (r: Option<Node>)
    requires P.Valid() && Shape(P.c, n.records) && Shape(P.c, t) && |n.bitmap| == P.g.bits && num <= P.c.span
  {
    var b := P.c.Home(k);
    match LeafInsert(P.c, t, k, v, num)
    case None => None
    case Some(r) =>
      var e := FirstEmpty(P.c, t, b, b + num);
      Some(AfterInsert(P, n, r, b, e, HopPath(P.c, t, b, e)))
  }

  /** The same on the whole leaf. */
  function FullInsert(P: Params, n: Node, k: Key, v: Value): (r: Option<Node>)
    requires P.Valid() && Shape(P.c, n.records) && |n.bitmap| == P.g.bits
  {
    var b := P.c.Home(k);
    match LeafInsert(P.c, n.records, k, v, P.c.span)
    case None => None
    case Some(r) =>
      var e := FirstEmpty(P.c, n.records, b, b + P.c.span);
      Some(n.(records := r,
              bitmap := Swept(P.g, n.bitmap, b, P.c.Slot(e), []),
              maxIdx := NewMaxIdx(r, HopPath(P.c, n.records, b, e), n.maxIdx)))
  }

  /** Inserting an absent key into any buffer that shows the window the bitmap points at, and writing the
      segment back, is the insert on the whole leaf, lock word included. */
  lemma InsertIntoIsFull(P: Params, n: Node, t: Leaf, k: Key, v: Value)
    requires P.Valid() && HopInv(P.c, n.records) && Sound(P.g, n.bitmap, n.records) && Shape(P.c, t)
    requires SameOn(P.c, n.records, t, P.c.Home(k), P.c.Home(k) + ReadSize(P, n, k))
    requires k != KEY_NULL && !Has(n.records, k)
    ensures InsertInto(P, n, t, ReadSize(P, n, k), k, v) == FullInsert(P, n, k, v)
  {
    hide LeafInsert, BitsExact, NearHome, Distinct, BucketHasHole, ReadSize, FirstEmpty, InsertInto, FullInsert, SameOn;
    var b, num := P.c.Home(k), ReadSize(P, n, k);
    ReadSizeHasHole(P, n, k);
    if FirstEmpty(P.c, n.records, b, b + num) < b + num {
      HoleInWindow(P, n, t, num, k, v);
    } else {
      NoHoleAtAll(P, n, t, k, v);
    }
  }

  lemma HoleInWindow(P: Params, n: Node, t: Leaf, num: nat, k: Key, v: Value)
    requires P.Valid() && HopInv(P.c, n.records) && |n.bitmap| == P.g.bits && Shape(P.c, t) && num <= P.c.span
    requires SameOn(P.c, n.records, t, P.c.Home(k), P.c.Home(k) + num) && k != KEY_NULL && !Has(n.records, k)
    requires FirstEmpty(P.c, n.records, P.c.Home(k), P.c.Home(k) + num) < P.c.Home(k) + num
    ensures InsertInto(P, n, t, num, k, v) == FullInsert(P, n, k, v)
  {
    hide LeafInsert, HopPath, BitsExact, NearHome, Distinct, AfterInsert, FirstEmpty, Swept, NewMaxIdx, PatchWindow;
    var b := P.c.Home(k);
    FirstEmptyCongruent(P.c, t, n.records, b, b + num, b + num);
    PartialInsertRefinesFull(P.c, n.records, t, k, v, num);
    if LeafInsert(P.c, n.records, k, v, P.c.span).Some? {
      WindowInsertIs(P, n, t, k, v, num);
    }
  }

  lemma NoHoleAtAll(P: Params, n: Node, t: Leaf, k: Key, v: Value)
    requires P.Valid() && Shape(P.c, n.records) && |n.bitmap| == P.g.bits && Shape(P.c, t)
    requires SameOn(P.c, n.records, t, P.c.Home(k), P.c.Home(k) + P.c.span)
    requires FirstEmpty(P.c, n.records, P.c.Home(k), P.c.Home(k) + P.c.span) == P.c.Home(k) + P.c.span
    ensures InsertInto(P, n, t, P.c.span, k, v) == FullInsert(P, n, k, v)
  {
    hide LeafInsert;
    NoHoleNoInsert(P.c, n.records, t, k, v);
  }

  lemma NoHoleNoInsert(c: Config, s: Leaf, t: Leaf, k: Key, v: Value)
    requires SameOn(c, s, t, c.Home(k), c.Home(k) + c.span)
    requires FirstEmpty(c, s, c.Home(k), c.Home(k) + c.span) == c.Home(k) + c.span
    ensures LeafInsert(c, s, k, v, c.span).None? && LeafInsert(c, t, k, v, c.span).None?
  {}

  lemma WindowInsertIs(P: Params, n: Node, t: Leaf, k: Key, v: Value, num: nat)
    requires P.Valid() && HopInv(P.c, n.records) && |n.bitmap| == P.g.bits && k != KEY_NULL && !Has(n.records, k)
    requires num <= P.c.span && Shape(P.c, t) && SameOn(P.c, n.records, t, P.c.Home(k), P.c.Home(k) + num)
    requires FirstEmpty(P.c, t, P.c.Home(k), P.c.Home(k) + num) < P.c.Home(k) + num
    requires LeafInsert(P.c, n.records, k, v, P.c.span).Some? && LeafInsert(P.c, t, k, v, num).Some?
    ensures var b, e := P.c.Home(k), FirstEmpty(P.c, t, P.c.Home(k), P.c.Home(k) + num);
            FullInsert(P, n, k, v) ==
            Some(AfterInsert(P, n, LeafInsert(P.c, t, k, v, num).value, b, e, HopPath(P.c, t, b, e)))
  {
    hide LeafInsert, HopPath, BitsExact, NearHome, Distinct, PatchWindow, AfterInsert, WindowHoles;
    hide NewMaxIdx, FirstEmpty, Swept, Has, SameOn;
    var b, e := P.c.Home(k), FirstEmpty(P.c, t, P.c.Home(k), P.c.Home(k) + num);
    var full := LeafInsert(P.c, n.records, k, v, P.c.span).value;
    FirstEmptyCongruent(P.c, n.records, t, b, b + num, b + P.c.span);
    PartialInsertRefinesFull(P.c, n.records, t, k, v, num);
    InsertFillsHole(P.c, n.records, k, v, e);
    HopPathSlots(P.c, n.records, b, e);
    AfterInsertIs(P, n, LeafInsert(P.c, t, k, v, num).value, full, b, e, HopPath(P.c, t, b, e));
  }

  lemma AbsentBelowMax(P: Params, n: Node, k: Key)
    requires NodeInv(P, n) && !Has(n.records, k) && k < n.hi
    ensures k < n.records[n.maxIdx].key
  {
  }

  /** An insert that needs no split keeps the node invariant and adds just k. */
  lemma FullInsertKeeps(P: Params, n: Node, k: Key, v: Value)
    requires NodeInv(P, n) && k != KEY_NULL && !Has(n.records, k) && n.lo <= k < n.hi
    requires FullInsert(P, n, k, v).Some?
    ensures NodeInv(P, FullInsert(P, n, k, v).value)
    ensures Contents(FullInsert(P, n, k, v).value.records) == Contents(n.records)[k := v]
  {
    hide HopPath, HopTo, BitsExact, NearHome, Distinct, Swept, NewMaxIdx, Contents;
    var b := P.c.Home(k);
    var e := FirstEmpty(P.c, n.records, b, b + P.c.span);
    var r := LeafInsert(P.c, n.records, k, v, P.c.span).value;
    LeafInsertKeeps(P.c, n.records, k, v, P.c.span);
    InsertFillsHole(P.c, n.records, k, v, e);
    SweepAfterInsert(P.g, n.bitmap, n.records, r, b, P.c.Slot(e));
    InsertRewrote(P.c, n.records, k, v, e);
    AbsentBelowMax(P, n, k);
    MaxIndexKeptIff(n.records, r, k, HopPath(P.c, n.records, b, e), n.maxIdx);
    SameMax(n.records, r, k, HopPath(P.c, n.records, b, e), n.maxIdx,
            NewMaxIdx(r, HopPath(P.c, n.records, b, e), n.maxIdx));
    forall i | 0 <= i < |r| && r[i].key != KEY_NULL ensures n.lo <= r[i].key {
      OldOrNew(n.records, r, k, HopPath(P.c, n.records, b, e), i);
    }
  }

  /** Such an insert sets the bits of the buckets between the home of k and the first hole e, and no others. */
  lemma InsertBits(P: Params, n: Node, k: Key, v: Value, e: int, x: nat)
    requires P.Valid() && Shape(P.c, n.records) && |n.bitmap| == P.g.bits && x < P.g.bits
    requires FullInsert(P, n, k, v).Some? && P.c.Home(k) <= e < P.c.Home(k) + P.c.span
    requires n.records[P.c.Slot(e)].key == KEY_NULL
    requires forall i :: P.c.Home(k) <= i < e ==> n.records[P.c.Slot(i)].key != KEY_NULL
    ensures var b, r := P.c.Home(k), P.c.Slot(e);
            var around := r < b && FindBucket(P.g, b) == FindBucket(P.g, r);
            FullInsert(P, n, k, v).value.bitmap[x] ==
              (n.bitmap[x] || if around then x == FindBucket(P.g, b) else Touched(P.g, b, r, x))
  {
    hide LeafInsert, HopPath, FindBucket, Touched, Swept;
    var b := P.c.Home(k);
    var e' := FirstEmpty(P.c, n.records, b, b + P.c.span);
    assert e' == e;
    SweptBits(P.g, n.bitmap, b, P.c.Slot(e), [], x);
  }

  lemma OldOrNew(s: Leaf, r: Leaf, k: Key, path: seq<nat>, i: nat)
    requires Rewrote(s, r, k, path) && i < |r| && r[i].key != KEY_NULL
    ensures r[i].key == k || exists j :: 0 <= j < |s| && s[j].key == r[i].key
  {
    hide Distinct;
    assert Has(r, r[i].key);
  }

  lemma SameMax(s: Leaf, r: Leaf, k: Key, path: seq<nat>, m: nat, m': nat)
    requires Rewrote(s, r, k, path) && IsMaxIdx(s, m) && IsMaxIdx(r, m') && k < s[m].key
    ensures r[m'].key == s[m].key
  {
    hide Distinct;
    KeysBounded(s, r, k, path, m, m');
    assert Has(s, s[m].key);
    var i := SlotOf(r, s[m].key);
  }

  // ---------------------------------------------------------------- split

  function Indices(n: nat): (r: seq<nat>) {
    seq(n, i requires 0 <= i < n => i)
  }

  /** get_max_key_idx over the whole leaf. */
  function GreatestIdx(s: Leaf): (m: nat) {
    GreatestOf(s, Indices(|s|), KEY_NULL, 0)
  }

  lemma GreatestIdxIsMax(s: Leaf)
    requires Contents(s) != map[]
    ensures IsMaxIdx(s, GreatestIdx(s))
  {
    var k :| k in Contents(s);
    KeysAt(s, k);
    var i := SlotOf(s, k);
    var idx := Indices(|s|);
    assert forall x :: 0 <= x < |s| ==> idx[x] == x;
    var m := GreatestIdx(s);
    assert s[idx[i]].key <= s[m].key;
    forall x | 0 <= x < |s| ensures s[x].key <= s[m].key {
      assert s[idx[x]].key <= KEY_NULL || s[idx[x]].key <= s[m].key;
    }
  }

  function SweptLeaf(P: Params, bitmap: seq<bool>, s: Leaf): (bitmap': seq<bool>)
    requires P.Valid() && |bitmap| == P.g.bits && |s| == P.c.span
  {
    Swept(P.g, bitmap, 0, P.c.span - 1, Holes(s, 0, |s|))
  }

  /** hopscotch_split_and_unlock with its metadata and lock words; None stands for its failing assert. */
  function SplitNode(P: Params, n: Node, k: Key, v: Value, addr: nat): (r: Option<seq<Node>>)
    requires P.Valid() && Shape(P.c, n.records) && |n.bitmap| == P.g.bits
  {
    match SplitLeaf(P.c, n.records, k, v)
    case None => None
    case Some(Halves(left, right)) =>
      var bound := (if GreatestIdx(left) < |left| then left[GreatestIdx(left)].key else KEY_NULL) + 1;
      var beyond := if n.sibling.RootTag? then NoSibling else n.sibling;
      Some([Node(n.addr, left, SweptLeaf(P, n.bitmap, left), GreatestIdx(left), n.lo, bound, At(addr)),
            Node(addr, right, SweptLeaf(P, seq(P.g.bits, _ => false), right), GreatestIdx(right), bound, n.hi, beyond)])
  }

  /** One side of the split satisfies the node invariant. */
  lemma SideInv(P: Params, addr: nat, s: Leaf, bitmap: seq<bool>, lo: Key, hi: Key, sibling: Sibling)
    requires P.Valid() && HopInv(P.c, s) && |bitmap| == P.g.bits && Contents(s) != map[]
    requires forall k :: k in Contents(s) ==> lo <= k < hi
    requires hi - 1 in Contents(s)
    ensures NodeInv(P, Node(addr, s, SweptLeaf(P, bitmap, s), GreatestIdx(s), lo, hi, sibling))
  {
    hide BitsExact, NearHome, Swept;
    SweepWholeLeaf(P.g, bitmap, s, Holes(s, 0, |s|));
    GreatestIdxIsMax(s);
    forall i | 0 <= i < |s| && s[i].key != KEY_NULL ensures lo <= s[i].key < hi {
      ContentsAt(s, i);
    }
    KeysAt(s, hi - 1);
    var i := SlotOf(s, hi - 1);
  }

  lemma SplitBounds(P: Params, n: Node, k: Key, sk: Key)
    requires NodeInv(P, n) && n.lo <= k < n.hi && (sk == k || sk in Keys(n.records))
    ensures sk < n.hi
    ensures forall x :: x in Contents(n.records) ==> n.lo <= x < n.hi
    ensures n.hi - 1 in Contents(n.records)
  {}

  /** The result of a split, related to the node it came from. */
  ghost predicate SplitsInto(P: Params, n: Node, k: Key, v: Value, addr: nat, l: Node, r: Node) {
    && NodeInv(P, l) && NodeInv(P, r)
    && l.lo == n.lo && l.hi == r.lo && r.hi == n.hi
    && l.addr == n.addr && r.addr == addr && l.sibling == At(addr)
    && r.sibling == (if n.sibling.RootTag? then NoSibling else n.sibling)
    && Contents(l.records) + Contents(r.records) == Contents(n.records)[k := v]
    && Contents(l.records).Keys !! Contents(r.records).Keys
  }

  /** After a split the bitmaps are exact: a bit is clear iff its bucket has a hole. */
  lemma SplitBits(P: Params, n: Node, k: Key, v: Value, addr: nat, i: nat, x: nat)
    requires P.Valid() && Shape(P.c, n.records) && |n.bitmap| == P.g.bits && SplitNode(P, n, k, v, addr).Some?
    requires i < 2 && x < P.g.bits
    ensures var ns := SplitNode(P, n, k, v, addr).value;
            && |ns| == 2 && |ns[i].bitmap| == P.g.bits && |ns[i].records| == P.g.span
            && (!ns[i].bitmap[x] <==> BucketHasHole(P.g, ns[i].records, x))
  {
    hide SplitKey, Half, LeafInsert, GreatestIdx, Swept, BucketHasHole;
    var Halves(left, right) := SplitLeaf(P.c, n.records, k, v).value;
    SweepWholeLeaf(P.g, n.bitmap, left, Holes(left, 0, |left|));
    SweepWholeLeaf(P.g, seq(P.g.bits, _ => false), right, Holes(right, 0, |right|));
  }

  /** A split never fails and yields two valid nodes with adjacent ranges whose contents are, together
      and without overlap, the old contents plus k. */
  lemma SplitNodeKeeps(P: Params, n: Node, k: Key, v: Value, addr: nat)
    requires NodeInv(P, n) && k != KEY_NULL && !Has(n.records, k) && n.lo <= k < n.hi
    requires LeafInsert(P.c, n.records, k, v, P.c.span).None?
    ensures SplitNode(P, n, k, v, addr).Some? && |SplitNode(P, n, k, v, addr).value| == 2
    ensures SplitsInto(P, n, k, v, addr, SplitNode(P, n, k, v, addr).value[0], SplitNode(P, n, k, v, addr).value[1])
  {
    hide BitsExact, NearHome, Distinct, SplitKey, SplitLeaf, LeafInsert, SweptLeaf, Contents;
    hide BucketHasHole, GreatestIdx, IsMaxIdx;
    var sk := SplitKey(P.c, n.records, k);
    SplitConserves(P.c, n.records, k, v);
    FailedInsertHome(P.c, n.records, k, v);
    var q := SplitKeyFreesSlot(P.c, n.records, k);
    SplitBounds(P, n, k, sk);
    var Halves(left, right) := SplitLeaf(P.c, n.records, k, v).value;
    SidesInv(P, n, k, v, sk, left, right, addr);
  }

  /** Two exact halves, divided at sk, make two valid nodes. */
  lemma SidesInv(P: Params, n: Node, k: Key, v: Value, sk: Key, left: Leaf, right: Leaf, addr: nat)
    requires P.Valid() && HopInv(P.c, left) && HopInv(P.c, right) && |n.bitmap| == P.g.bits
    requires n.lo <= k < n.hi && sk < n.hi
    requires Contents(left) != map[] && Contents(right) != map[]
    requires Contents(left) + Contents(right) == Contents(n.records)[k := v]
    requires forall x :: x in Contents(left) ==> x < sk
    requires forall x :: x in Contents(right) ==> x >= sk
    requires forall x :: x in Contents(n.records) ==> n.lo <= x < n.hi
    requires n.hi - 1 in Contents(n.records)
    ensures var m := GreatestIdx(left);
            && m < |left|
            && NodeInv(P, Node(n.addr, left, SweptLeaf(P, n.bitmap, left), m, n.lo, left[m].key + 1, At(addr)))
            && NodeInv(P, Node(addr, right, SweptLeaf(P, seq(P.g.bits, _ => false), right), GreatestIdx(right),
                               left[m].key + 1, n.hi, if n.sibling.RootTag? then NoSibling else n.sibling))
  {
    hide BitsExact, NearHome, Distinct, SweptLeaf, Contents, GreatestIdx, NodeInv;
    GreatestIdxIsMax(left);
    var m := GreatestIdx(left);
    ContentsAt(left, m);
    var bound := left[m].key + 1;
    LeftBelow(left, m);
    var both := Contents(n.records)[k := v];
    assert forall x :: x in Contents(left) ==> x in both;
    assert forall x :: x in Contents(right) ==> x in both;
    assert n.hi - 1 in Contents(right) by { assert n.hi - 1 in both; }
    SideInv(P, n.addr, left, n.bitmap, n.lo, bound, At(addr));
    SideInv(P, addr, right, seq(P.g.bits, _ => false), bound, n.hi,
            if n.sibling.RootTag? then NoSibling else n.sibling);
  }

  lemma LeftBelow(s: Leaf, m: nat)
    requires IsMaxIdx(s, m)
    ensures forall x :: x in Contents(s) ==> x < s[m].key + 1
  {}

  // ---------------------------------------------------------------- the lock word in place

  /** The loop over listed slots for the greatest key; with all slots it is get_max_key_idx. */
  method FindGreatest(s: Leaf, idxes: seq<nat>, best: nat) returns (m: nat)
    requires forall x :: 0 <= x < |idxes| ==> idxes[x] < |s|
    ensures m == GreatestOf(s, idxes, KEY_NULL, best)
  {
    var maxKey := KEY_NULL;
    m := best;
    for i := 0 to |idxes|
      invariant GreatestOf(s, idxes, KEY_NULL, best) == GreatestOf(s, idxes[i..], maxKey, m)
    {
      assert idxes[i..][1..] == idxes[i + 1..] && idxes[i..][0] == idxes[i];
      if s[idxes[i]].key > maxKey {
        maxKey, m := s[idxes[i]].key, idxes[i];
      }
    }
  }

  /** get_empty_idxes. */
  method CollectHoles(s: Leaf, l: nat, end: nat) returns (holes: seq<nat>)
    requires l <= end <= |s|
    ensures holes == Holes(s, l, end)
  {
    hide Holes;
    holes := [];
    for i := l to end
      invariant Holes(s, l, end) == holes + Holes(s, i, end)
    {
      HolesStep(s, i, end);
      if s[i].key == KEY_NULL {
        holes := holes + [i];
      }
    }
    assert Holes(s, end, end) == [] by { NoHoles(s, end, end); }
  }

  lemma HolesStep(s: Leaf, i: nat, end: nat)
    requires i < end <= |s|
    ensures Holes(s, i, end) == (if s[i].key == KEY_NULL then [i] else []) + Holes(s, i + 1, end)
  {}

  /** segment_write_and_unlock keeps the lock word up: its index from the hopped slots, its bitmap from the
      window. That every hole of the window lies in a swept bucket is the assert of update_vacancy. */
  method WriteLock(P: Params, w: LockWord, s: Leaf, l: nat, r: nat, hopped: seq<nat>)
    requires P.Valid() && w.Valid() && w.g == P.g && |s| == P.c.span && l < |s| && r < |s|
    requires forall x :: 0 <= x < |hopped| ==> hopped[x] < |s|
    requires var holes := WindowHoles(s, l, r);
             forall m :: 0 <= m < |holes| ==> InSweep(FindBucket(P.g, l), FindBucket(P.g, r), FindBucket(P.g, holes[m]))
    modifies w
    ensures w.Valid() && w.maxKeyIdx == NewMaxIdx(s, hopped, old(w.maxKeyIdx))
    ensures w.bitmap == Swept(P.g, old(w.bitmap), l, r, WindowHoles(s, l, r))
  {
    hide GreatestOf, FindBucket, Swept, Holes, InSweep;
    if w.maxKeyIdx in hopped {
      var m := FindGreatest(s, hopped, w.maxKeyIdx);
      w.UpdateMaxKeyIdx(m);
    }
    var holes;
    if l <= r {
      holes := CollectHoles(s, l, r + 1);
    } else {
      holes := CollectHoles(s, 0, r + 1);
      var rest := CollectHoles(s, l, |s|);
      holes := holes + rest;
    }
    assert holes == WindowHoles(s, l, r);
    w.UpdateVacancy(l, r, holes);
  }

  /** The lock word of either half of a split. */
  method SplitLock(P: Params, w: LockWord, s: Leaf)
    requires P.Valid() && w.Valid() && w.g == P.g && |s| == P.c.span
    modifies w
    ensures w.Valid() && w.maxKeyIdx == GreatestIdx(s) && w.bitmap == SweptLeaf(P, old(w.bitmap), s)
  {
    hide GreatestOf, FindBucket, Swept;
    var m := FindGreatest(s, Indices(|s|), 0);
    w.UpdateMaxKeyIdx(m);
    var holes := CollectHoles(s, 0, |s|);
    EndBuckets(P.g);
    forall x | 0 <= x < |holes| ensures FindBucket(P.g, holes[x]) < P.g.bits {
      FindIsFloor(P.g, 0, holes[x]);
    }
    w.UpdateVacancy(0, P.c.span - 1, holes);
  }
}
