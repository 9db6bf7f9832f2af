/** The smallest tree that an update breaks. The updated key is in the last slot, so the unread word of the
    lock buffer replaces the lock word of the leaf; the bitmap then promises a hole that is not there, and the
    next insert fails its empty check. */
module ChimeStaleWord {

  import opened Common
  import opened Hopscotch
  import opened HopscotchRead
  import opened VacancyLock
  import opened ChimeLeaf
  import opened ChimeOps
  import opened ChimeChain
  import opened ChimeTwice

  /** The right leaf after its key 3 was updated out of an unused lock buffer. */
  function STALE(u: Value): Node {
    RIGHT(u).(bitmap := ZERO.bitmap, maxIdx := ZERO.maxIdx)
  }

  lemma UpdateThree(w: Value, u: Value)
    ensures Ready(SMALL, RIGHT(w)) && NearDistance(SMALL.c, RIGHT(w).records, 3, 0) < SMALL.c.neighbor
    ensures UpdateNode(SMALL, RIGHT(w), 3, u, ZERO) == STALE(u)
  {
    SmallBuckets();
    var n := RIGHT(w);
    assert HoldsKey(SMALL.c, n.records, 3, 1) && !HoldsKey(SMALL.c, n.records, 3, 0);
    assert NearDistance(SMALL.c, n.records, 3, 1) == 1;
    assert NearDistance(SMALL.c, n.records, 3, 0) == 1;
    assert PutKV(n.records, 1, 3, u) == STALE(u).records;
  }

  /** Slot 0 is read as the hole the bitmap promises, but it holds key 5. */
  lemma InsertFour(u: Value, x: Value)
    ensures Ready(SMALL, STALE(u)) && !Sound(SMALL.g, STALE(u).bitmap, STALE(u).records)
    ensures InsertNode(SMALL, STALE(u), 4, x, 2, NoSibling) == None
  {
    SmallBuckets();
    var n := STALE(u);
    assert !BucketHasHole(SMALL.g, n.records, 0);
    assert ReadNum(SMALL.g, n.bitmap, 0, 0) == 1;
    assert ReadSize(SMALL, n, 4) == 1;
    var t := Buffer(SMALL, n, 4, NoSibling);
    assert t[0] == n.records[0];
    assert FirstEmpty(SMALL.c, t, 1, 1) == 1;
    assert FirstEmpty(SMALL.c, t, 0, 1) == 1;
  }

  /** From the root, inserting 2 and 3 is a clean run; updating 3 out of an unused lock buffer goes through
      but leaves an unsound bitmap; inserting 4 then fails an assert. Both calls come from an inner node that
      names the right leaf and the right sibling. */
  lemma UpdateBreaksInsert(v: Value, w: Value, u: Value, x: Value) returns (chain: Chain, chain': Chain)
    ensures SMALL.Valid()
    ensures CleanRun(SMALL, TOP, [Root(SMALL, TOP)],
                     [Call(Insert(2, v), 0, NoSibling, ZERO), Call(Insert(3, w), 0, NoSibling, ZERO)],
                     chain)
    ensures UpdateRun(SMALL, TOP, chain, [Call(Update(3, u), 1, NoSibling, ZERO)], chain')
    ensures |chain'| == 2 && !Sound(SMALL.g, chain'[1].bitmap, chain'[1].records)
    ensures ChainParts(SMALL, chain') && Linked(chain', TOP)
    ensures Called(SMALL, TOP, chain', Call(Insert(4, x), 1, NoSibling, ZERO))
    ensures Do(SMALL, TOP, chain', Call(Insert(4, x), 1, NoSibling, ZERO)) == None
  {
    hide InsertNode, NodeInv, Stored, Root, CleanRun, UpdateNode, NearDistance;
    TwoInserts(v, w);
    chain, chain' := [LEFT(v), RIGHT(w)], [LEFT(v), STALE(u)];
    UpdateThree(w, u);
    InsertFour(u, x);
    Parts2(v, w, chain);
    Parts2(v, u, chain');
    var call := Call(Update(3, u), 1, NoSibling, ZERO);
    assert Brackets(chain, 3, 1, NoSibling, 1) && Brackets(chain', 4, 1, NoSibling, 1);
    assert Spliced(chain, 1, [STALE(u)]) == chain';
    assert [call][1..] == [];
    assert UpdateRun(SMALL, TOP, chain', [], chain');
    StaysAtStart(SMALL, TOP, chain', 4, x, 1, ZERO);
  }

  lemma Parts2(v: Value, w: Value, chain: Chain)
    requires chain == [LEFT(v), RIGHT(w)] || chain == [LEFT(v), STALE(w)]
    ensures ChainParts(SMALL, chain) && Linked(chain, TOP)
  {
    SmallBuckets();
  }
}
