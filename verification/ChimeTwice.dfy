/** The smallest tree in which an insert stores a key twice: three inserts from the root, each through an
    inner node that is up to date. */
module ChimeTwice {

  import opened Common
  import opened KeyOrder
  import opened Hopscotch
  import opened HopscotchRead
  import opened HopscotchSplit
  import opened VacancyLock
  import opened ChimeLeaf
  import opened ChimeOps
  import opened ChimeChain

  /** Two slots, both in the neighbourhood of slot 0, one bucket each. */
  const SMALL: Params := Params(Config(2, 2, (k: Key) => 0), Buckets(2, 2))

  /** Keys 1 to 5; the ghost key is 5. */
  const TOP: Key := 6

  /** A lock buffer that was never used. */
  const ZERO: Word := Word([false, false], 0)

  lemma SmallBuckets()
    ensures SMALL.Valid()
    ensures FindBucket(SMALL.g, 0) == 0 && FindBucket(SMALL.g, 1) == 1
    ensures First(SMALL.g, 0) == 0 && First(SMALL.g, 1) == 1 && First(SMALL.g, 2) == 2
  {
    BucketsInverse(SMALL.g, 0, 0);
    BucketsInverse(SMALL.g, 1, 1);
  }

  function Leaf2(k: Key, v: Value, a: bool, k': Key, v': Value, b: bool): Leaf {
    [LeafEntry(k, v, [a, b]), LeafEntry(k', v', [false, false])]
  }

  const ROOT: Node := Node(0, Leaf2(5, 0, true, 0, 0, false), [true, false], 0, 1, 6, RootTag)

  lemma RootIs()
    ensures SMALL.Valid() && Root(SMALL, TOP) == ROOT
  {
    SmallBuckets();
    RootLeaf(SMALL.c, 5);
    var s := Place(SMALL.c, EmptyLeaf(SMALL.c), 0, 0, 5, VALUE_NULL);
    assert s[0].hop == [true, false] && s[1].hop == [false, false];
    assert s == Leaf2(5, 0, true, 0, 0, false);
    assert Root(SMALL, TOP).bitmap == [true, false];
  }

  function FULL(v: Value): Node {
    Node(0, Leaf2(5, 0, true, 2, v, true), [true, true], 0, 1, 6, RootTag)
  }

  /** The root leaf has one free slot, which key 2 takes. */
  lemma FirstInsert(v: Value)
    ensures Ready(SMALL, ROOT) && InsertNode(SMALL, ROOT, 2, v, 1, NoSibling) == Some([FULL(v)])
  {
    SmallBuckets();
    var n := ROOT;
    assert ReadNum(SMALL.g, n.bitmap, 0, 1) == 2;
    assert ReadNum(SMALL.g, n.bitmap, 0, 0) == 2;
    assert ReadSize(SMALL, n, 2) == 2;
    var t := Buffer(SMALL, n, 2, NoSibling);
    assert t == n.records;
    assert FirstKey(t, 2, 1) == 2;
    assert FirstKey(t, 2, 0) == 2;
    assert FirstEmpty(SMALL.c, t, 1, 2) == 1;
    assert FirstEmpty(SMALL.c, t, 0, 2) == 1;
    var r := Place(SMALL.c, t, 0, 1, 2, v);
    assert LeafInsert(SMALL.c, t, 2, v, 2) == Some(r);
    assert r[0].hop == [true, true] && r[1].hop == [false, false];
    assert r == FULL(v).records;
    assert HopPath(SMALL.c, t, 0, 1) == [1];
    assert WindowHoles(r, 0, 1) == [] by { NoHoles(r, 0, 2); }
    assert Swept(SMALL.g, n.bitmap, 0, 1, []) == [true, true];
    assert PatchWindow(SMALL.c, n.records, r, 0, 1) == r;
  }

  function LEFT(v: Value): Node {
    Node(0, Leaf2(0, 0, false, 2, v, true), [false, true], 1, 1, 3, At(1))
  }

  function RIGHT(v: Value): Node {
    Node(1, Leaf2(5, 0, true, 3, v, true), [true, true], 0, 3, 6, NoSibling)
  }

  lemma SplitKeyIs(v: Value)
    ensures SplitKey(SMALL.c, FULL(v).records, 3) == 3
  {
    var s := FULL(v).records;
    assert SimFits(SMALL.c, s, 0, 0) && SimFits(SMALL.c, s, 0, 1);
    assert CriticalKeys(SMALL.c, s, 0, 2) == [];
    assert CriticalKeys(SMALL.c, s, 0, 1) == [2];
    assert CriticalKeys(SMALL.c, s, 0, 0) == [5, 2];
    assert CriticalKeys(SMALL.c, s, 0, 0) + [3] == [5, 2, 3];
    SortedThree();
  }

  lemma SortedThree()
    ensures SortKeys([5, 2, 3]) == [2, 3, 5]
  {
    hide SortKeys;
    var r := SortKeys([5, 2, 3]);
    SortKeysIs([5, 2, 3]);
    assert r[0] in r && r[1] in r && r[2] in r;
    assert r[0] < r[1] && r[1] < r[2];
  }

  lemma HalvesAre(v: Value, w: Value)
    ensures SplitLeaf(SMALL.c, FULL(v).records, 3, w) == Some(Halves(LEFT(v).records, RIGHT(w).records))
  {
    SplitKeyIs(v);
    var c, s := SMALL.c, FULL(v).records;
    var l, r := Half(c, s, 3, true), Half(c, s, 3, false);
    assert l[0].hop == [false, true] && l[1].hop == [false, false];
    assert l == LEFT(v).records;
    assert r[0].hop == [true, false] && r[1].hop == [false, false];
    assert r == Leaf2(5, 0, true, 0, 0, false);
    assert FirstEmpty(c, r, 1, 2) == 1;
    assert FirstEmpty(c, r, 0, 2) == 1;
    var t := Place(c, r, 0, 1, 3, w);
    assert t[0].hop == [true, true] && t[1].hop == [false, false];
    assert t == RIGHT(w).records;
    assert LeafInsert(c, r, 3, w, 2) == Some(t);
    assert c.span == 2;
  }

  lemma GreatestAre(v: Value, w: Value)
    ensures GreatestIdx(LEFT(v).records) == 1 && GreatestIdx(RIGHT(w).records) == 0
  {
    var l, r := LEFT(v).records, RIGHT(w).records;
    KeysAt(l, 2);
    KeysAt(r, 5);
    assert l[1].key == 2 && r[0].key == 5;
    GreatestIdxIsMax(l);
    GreatestIdxIsMax(r);
  }

  lemma BitmapsAre(v: Value, w: Value)
    ensures SMALL.Valid()
    ensures SweptLeaf(SMALL, [true, true], LEFT(v).records) == [false, true]
    ensures SweptLeaf(SMALL, seq(2, _ => false), RIGHT(w).records) == [true, true]
  {
    SmallBuckets();
    var l, r := LEFT(v).records, RIGHT(w).records;
    assert Holes(l, 2, 2) == [] && Holes(l, 1, 2) == [] && Holes(l, 0, 2) == [0];
    NoHoles(r, 0, 2);
    assert HasBucket(SMALL.g, [0], 0) by { assert FindBucket(SMALL.g, [0][0]) == 0; }
    assert !HasBucket(SMALL.g, [0], 1);
  }

  /** Key 3 finds the root full and splits it; the left leaf keeps key 2 and is left with a hole in front. */
  lemma SecondInsert(v: Value, w: Value)
    ensures Ready(SMALL, FULL(v)) && InsertNode(SMALL, FULL(v), 3, w, 1, NoSibling) == Some([LEFT(v), RIGHT(w)])
  {
    SmallBuckets();
    var n := FULL(v);
    assert ReadNum(SMALL.g, n.bitmap, 0, 2) == 2;
    assert ReadNum(SMALL.g, n.bitmap, 0, 1) == 2;
    assert ReadNum(SMALL.g, n.bitmap, 0, 0) == 2;
    assert ReadSize(SMALL, n, 3) == 2;
    var t := Buffer(SMALL, n, 3, NoSibling);
    assert t == n.records;
    assert FirstKey(t, 3, 2) == 2;
    assert FirstKey(t, 3, 1) == 2;
    assert FirstKey(t, 3, 0) == 2;
    assert FirstEmpty(SMALL.c, t, 2, 2) == 2;
    assert FirstEmpty(SMALL.c, t, 1, 2) == 2;
    assert FirstEmpty(SMALL.c, t, 0, 2) == 2;
    assert LeafInsert(SMALL.c, t, 3, w, 2) == None;
    hide SplitLeaf, GreatestIdx, SweptLeaf;
    HalvesAre(v, w);
    GreatestAre(v, w);
    BitmapsAre(v, w);
  }

  /** Key 2 again: the bitmap says that slot 0 is free, so only slot 0 is read, and key 2 goes there. */
  lemma ThirdInsert(v: Value, u: Value)
    ensures Ready(SMALL, LEFT(v)) && InsertNode(SMALL, LEFT(v), 2, u, 2, At(1)).Some?
    ensures var ns := InsertNode(SMALL, LEFT(v), 2, u, 2, At(1)).value;
            |ns| == 1 && |ns[0].records| == 2 && ns[0].records[0].key == 2 && ns[0].records[1].key == 2
  {
    SmallBuckets();
    var n := LEFT(v);
    assert ReadNum(SMALL.g, n.bitmap, 0, 0) == 1;
    assert ReadSize(SMALL, n, 2) == 1;
    var t := Buffer(SMALL, n, 2, At(1));
    assert t[0] == n.records[0] && t[1] == Blank(SMALL.c);
    assert FirstKey(t, 2, 2) == 2;
    assert FirstKey(t, 2, 1) == 2;
    assert FirstKey(t, 2, 0) == 2;
    assert FirstEmpty(SMALL.c, t, 0, 1) == 0;
    assert LeafInsert(SMALL.c, t, 2, u, 1) == Some(Place(SMALL.c, t, 0, 0, 2, u));
  }

  /** An insert whose caller expects the right sibling stays at the leaf it starts at. */
  lemma StaysAtStart(P: Params, keyMax: Key, chain: Chain, k: Key, v: Value, i: nat, left: Word)
    requires ChainParts(P, chain) && Linked(chain, keyMax) && i < |chain|
    ensures var ns := InsertNode(P, chain[i], k, v, |chain|, Next(chain[i]));
            Do(P, keyMax, chain, Call(Insert(k, v), i, Next(chain[i]), left))
            == if ns.None? then None else Some(Spliced(chain, i, ns.value))
  {
    hide InsertNode;
    Skips(P, chain[i], k, Next(chain[i]), keyMax);
  }

  lemma TwoInserts(v: Value, w: Value)
    ensures SMALL.Valid()
    ensures CleanRun(SMALL, TOP, [Root(SMALL, TOP)],
                     [Call(Insert(2, v), 0, NoSibling, ZERO), Call(Insert(3, w), 0, NoSibling, ZERO)],
                     [LEFT(v), RIGHT(w)])
  {
    hide InsertNode, NodeInv, Stored, Root, Represents, Clean, Do;
    RootIs();
    RootInv(SMALL, TOP);
    var m, n, chain := map[5 := VALUE_NULL], FULL(v), [LEFT(v), RIGHT(w)];
    var first, second := Call(Insert(2, v), 0, NoSibling, ZERO), Call(Insert(3, w), 0, NoSibling, ZERO);
    FreshClean(SMALL, TOP, [ROOT], m, Insert(2, v), ZERO);
    CallKeeps(SMALL, TOP, [ROOT], m, first);
    StaysAtStart(SMALL, TOP, [ROOT], 2, v, 0, ZERO);
    FirstInsert(v);
    assert Spliced([ROOT], 0, [n]) == [n];
    FreshClean(SMALL, TOP, [n], m[2 := v], Insert(3, w), ZERO);
    CallKeeps(SMALL, TOP, [n], m[2 := v], second);
    StaysAtStart(SMALL, TOP, [n], 3, w, 0, ZERO);
    SecondInsert(v, w);
    assert Spliced([n], 0, chain) == chain;
    InvStored(SMALL, chain, TOP);
    ChainReady(SMALL, chain, TOP);
    assert CleanRun(SMALL, TOP, chain, [], chain);
    assert [second][1..] == [] && [first, second][1..] == [second];
    assert CleanRun(SMALL, TOP, [n], [second], chain);
  }

  /** From the root, inserting 2, 3 and 2 again stores key 2 twice: the first two inserts are a clean run,
      and the third comes from an inner node that names the right leaf and the right sibling. */
  lemma StoresTwice(v: Value, w: Value, u: Value) returns (chain: Chain)
    ensures SMALL.Valid()
    ensures CleanRun(SMALL, TOP, [Root(SMALL, TOP)],
                     [Call(Insert(2, v), 0, NoSibling, ZERO), Call(Insert(3, w), 0, NoSibling, ZERO)],
                     chain)
    ensures ChainParts(SMALL, chain) && Linked(chain, TOP) && Enters(chain, 2, 0, At(1))
    ensures Do(SMALL, TOP, chain, Call(Insert(2, u), 0, At(1), ZERO)).Some?
    ensures var chain' := Do(SMALL, TOP, chain, Call(Insert(2, u), 0, At(1), ZERO)).value;
            && |chain'| == 2 && |chain'[0].records| == 2
            && chain'[0].records[0].key == 2 && chain'[0].records[1].key == 2
  {
    hide InsertNode, NodeInv, Stored, Root, CleanRun, Do;
    TwoInserts(v, w);
    chain := [LEFT(v), RIGHT(w)];
    RootInv(SMALL, TOP);
    RunKeeps(SMALL, TOP, [Root(SMALL, TOP)], map[5 := VALUE_NULL],
             [Call(Insert(2, v), 0, NoSibling, ZERO), Call(Insert(3, w), 0, NoSibling, ZERO)], chain);
    InvStored(SMALL, chain, TOP);
    ChainReady(SMALL, chain, TOP);
    assert Brackets(chain, 2, 0, At(1), 0);
    StaysAtStart(SMALL, TOP, chain, 2, u, 0, ZERO);
    ThirdInsert(v, u);
  }
}
