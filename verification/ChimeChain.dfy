/** The chain of leaves of a CHIME tree over whole runs: from the root leaf with its ghost key, through
    sequences of inserts, updates and splits, entered through inner nodes however stale. */
module ChimeChain {

  import opened Common
  import opened Hopscotch
  import opened HopscotchRead
  import opened VacancyLock
  import opened ChimeLeaf
  import opened ChimeOps

  type Chain = seq<Node>

  const KEY_MIN: Key := 1

  /** Ranges are adjacent, sibling pointers follow the chain, addresses are distinct. */
  ghost predicate Linked(chain: Chain, keyMax: Key) {
    && |chain| > 0 && chain[0].lo == KEY_MIN && chain[|chain| - 1].hi == keyMax
    && (forall i :: 0 <= i < |chain| - 1 ==>
          chain[i].hi == chain[i + 1].lo && chain[i].sibling == At(chain[i + 1].addr))
    && chain[|chain| - 1].sibling == (if |chain| == 1 then RootTag else NoSibling)
    && (forall i :: 0 <= i < |chain| ==> chain[i].addr < |chain|)
    && (forall i, j :: 0 <= i < j < |chain| ==> chain[i].addr != chain[j].addr)
  }

  ghost predicate ChainInv(P: Params, chain: Chain, keyMax: Key) {
    Linked(chain, keyMax) && forall i :: 0 <= i < |chain| ==> NodeInv(P, chain[i])
  }

  /** The same without the lock words. */
  ghost predicate ChainStored(P: Params, chain: Chain, keyMax: Key) {
    Linked(chain, keyMax) && forall i :: 0 <= i < |chain| ==> Stored(P, chain[i])
  }

  lemma InvStored(P: Params, chain: Chain, keyMax: Key)
    requires ChainInv(P, chain, keyMax)
    ensures ChainStored(P, chain, keyMax)
  {
    hide NodeInv, Stored, Linked;
    forall i | 0 <= i < |chain| ensures Stored(P, chain[i]) {
      NodeStored(P, chain[i]);
    }
  }

  ghost predicate SomeHas(ns: seq<Node>, k: Key) {
    exists i :: 0 <= i < |ns| && k in Contents(ns[i].records)
  }

  /** The chain stands for the map m. */
  ghost predicate Represents(chain: Chain, m: map<Key, Value>) {
    && (forall i, k :: 0 <= i < |chain| && k in Contents(chain[i].records) ==>
          k in m && m[k] == Contents(chain[i].records)[k])
    && (forall k :: k in m ==> SomeHas(chain, k))
  }

  lemma {:induction false} RangesOrdered(P: Params, chain: Chain, keyMax: Key, i: nat, j: nat)
    requires ChainStored(P, chain, keyMax) && i < j < |chain|
    ensures chain[i].hi <= chain[j].lo
    decreases j
  {
    if j > i + 1 {
      RangesOrdered(P, chain, keyMax, i, j - 1);
      assert chain[j - 1].hi == chain[j].lo;
      NodeRange(P, chain[j - 1]);
    }
  }

  lemma NodeRange(P: Params, n: Node)
    requires Stored(P, n)
    ensures n.lo < n.hi && forall k :: k in Contents(n.records) ==> n.lo <= k < n.hi
  {}

  /** A key of the map is in the leaf its range leads to, and only there. */
  lemma OnlyThere(P: Params, chain: Chain, keyMax: Key, i: nat, j: nat, k: Key)
    requires ChainStored(P, chain, keyMax) && i < |chain| && j < |chain|
    requires chain[i].lo <= k < chain[i].hi && k in Contents(chain[j].records)
    ensures i == j
  {
    NodeRange(P, chain[j]);
    if i < j { RangesOrdered(P, chain, keyMax, i, j); }
    if j < i { RangesOrdered(P, chain, keyMax, j, i); }
  }

  // ---------------------------------------------------------------- one operation on one leaf

  /** ns takes the place of n: one node, or two with the second at addr. */
  ghost predicate TakesPlace(n: Node, addr: nat, ns: seq<Node>) {
    || (|ns| == 1 && ns[0].lo == n.lo && ns[0].hi == n.hi && ns[0].addr == n.addr && ns[0].sibling == n.sibling)
    || (|ns| == 2 && ns[0].lo == n.lo && ns[0].hi == ns[1].lo && ns[1].hi == n.hi && ns[0].addr == n.addr
        && ns[1].addr == addr && ns[0].sibling == At(addr)
        && ns[1].sibling == (if n.sibling.RootTag? then NoSibling else n.sibling))
  }

  /** The nodes ns hold the contents of n with k put to v. */
  ghost predicate Covers(ns: seq<Node>, n: Node, k: Key, v: Value) {
    && (forall i, x :: 0 <= i < |ns| && x in Contents(ns[i].records) ==>
          x in Contents(n.records)[k := v] && Contents(ns[i].records)[x] == Contents(n.records)[k := v][x])
    && SomeHas(ns, k) && (forall x :: x in Contents(n.records) ==> SomeHas(ns, x))
  }

  /** Replacing a leaf by nodes that hold its contents with k put to v puts k in the whole map. */
  lemma SpliceRepresents(P: Params, chain: Chain, keyMax: Key, m: map<Key, Value>, i: nat, ns: seq<Node>, k: Key,
                         v: Value)
    requires ChainStored(P, chain, keyMax) && Represents(chain, m) && i < |chain|
    requires chain[i].lo <= k < chain[i].hi && Covers(ns, chain[i], k, v)
    ensures Represents(chain[..i] + ns + chain[i + 1..], m[k := v])
  {
    hide Contents, ChainStored;
    var chain', m' := chain[..i] + ns + chain[i + 1..], m[k := v];
    forall j, x | 0 <= j < |chain'| && x in Contents(chain'[j].records)
      ensures x in m' && m'[x] == Contents(chain'[j].records)[x]
    {
      if i <= j < i + |ns| {
        assert chain'[j] == ns[j - i];
      } else {
        var j' := if j < i then j else j - |ns| + 1;
        assert chain'[j] == chain[j'];
        if x == k { OnlyThere(P, chain, keyMax, i, j', k); }
      }
    }
    forall x | x in m' ensures SomeHas(chain', x) {
      SpliceFinds(chain, m, i, ns, k, v, x);
    }
  }

  lemma SpliceFinds(chain: Chain, m: map<Key, Value>, i: nat, ns: seq<Node>, k: Key, v: Value, x: Key)
    requires Represents(chain, m) && i < |chain| && Covers(ns, chain[i], k, v) && (x in m || x == k)
    ensures SomeHas(chain[..i] + ns + chain[i + 1..], x)
  {
    hide Contents;
    var chain' := chain[..i] + ns + chain[i + 1..];
    if x == k || x in Contents(chain[i].records) {
      var a :| 0 <= a < |ns| && x in Contents(ns[a].records);
      assert chain'[i + a] == ns[a];
    } else {
      var j :| 0 <= j < |chain| && x in Contents(chain[j].records);
      var j' := if j < i then j else j + |ns| - 1;
      assert chain'[j'] == chain[j];
    }
  }

  /** chain' is chain with the node i replaced by l and r. */
  ghost predicate SplicedTwo(chain: Chain, i: nat, l: Node, r: Node, chain': Chain) {
    && i < |chain| && |chain'| == |chain| + 1 && chain'[i] == l && chain'[i + 1] == r
    && (forall j :: 0 <= j < i ==> chain'[j] == chain[j])
    && (forall j :: i + 1 < j < |chain'| ==> chain'[j] == chain[j - 1])
  }

  lemma TwoPointers(chain: Chain, keyMax: Key, i: nat, l: Node, r: Node, chain': Chain, j: nat)
    requires Linked(chain, keyMax) && SplicedTwo(chain, i, l, r, chain') && TakesPlace(chain[i], |chain|, [l, r])
    requires j < |chain'| - 1
    ensures chain'[j].hi == chain'[j + 1].lo && chain'[j].sibling == At(chain'[j + 1].addr)
  {}

  lemma TwoAddresses(chain: Chain, keyMax: Key, i: nat, l: Node, r: Node, chain': Chain, j: nat, j': nat)
    requires Linked(chain, keyMax) && SplicedTwo(chain, i, l, r, chain') && TakesPlace(chain[i], |chain|, [l, r])
    requires j < j' < |chain'|
    ensures chain'[j].addr < |chain'| && chain'[j'].addr < |chain'| && chain'[j].addr != chain'[j'].addr
  {}

  lemma SpliceTwoLinked(chain: Chain, keyMax: Key, i: nat, l: Node, r: Node, chain': Chain)
    requires Linked(chain, keyMax) && SplicedTwo(chain, i, l, r, chain') && TakesPlace(chain[i], |chain|, [l, r])
    ensures Linked(chain', keyMax)
  {
    hide TakesPlace, SplicedTwo;
    forall j | 0 <= j < |chain'| - 1
      ensures chain'[j].hi == chain'[j + 1].lo && chain'[j].sibling == At(chain'[j + 1].addr)
    {
      TwoPointers(chain, keyMax, i, l, r, chain', j);
    }
    forall j, j' | 0 <= j < j' < |chain'|
      ensures chain'[j].addr < |chain'| && chain'[j'].addr < |chain'| && chain'[j].addr != chain'[j'].addr
    {
      TwoAddresses(chain, keyMax, i, l, r, chain', j, j');
    }
    TwoEnds(chain, keyMax, i, l, r, chain');
  }

  lemma TwoEnds(chain: Chain, keyMax: Key, i: nat, l: Node, r: Node, chain': Chain)
    requires Linked(chain, keyMax) && SplicedTwo(chain, i, l, r, chain') && TakesPlace(chain[i], |chain|, [l, r])
    ensures |chain'| > 1 && chain'[0].lo == KEY_MIN && chain'[|chain'| - 1].hi == keyMax
    ensures chain'[|chain'| - 1].sibling == NoSibling && chain'[0].addr < |chain'|
    ensures chain'[|chain'| - 1].addr < |chain'|
  {
  }

  lemma SpliceLinked(chain: Chain, keyMax: Key, i: nat, ns: seq<Node>)
    requires Linked(chain, keyMax) && i < |chain| && TakesPlace(chain[i], |chain|, ns)
    ensures Linked(chain[..i] + ns + chain[i + 1..], keyMax)
  {
    var chain' := chain[..i] + ns + chain[i + 1..];
    if |ns| == 1 {
      assert chain' == chain[i := ns[0]];
    } else {
      assert ns == [ns[0], ns[1]];
      SpliceTwoLinked(chain, keyMax, i, ns[0], ns[1], chain');
    }
  }

  lemma CoversOne(n': Node, n: Node, k: Key, v: Value)
    requires Contents(n'.records) == Contents(n.records)[k := v]
    ensures Covers([n'], n, k, v)
  {
    hide Contents;
    var ns := [n'];
    assert ns[0] == n' && forall i :: 0 <= i < |ns| ==> ns[i] == n';
  }

  lemma CoversTwo(l: Node, r: Node, n: Node, k: Key, v: Value)
    requires Contents(l.records) + Contents(r.records) == Contents(n.records)[k := v]
    requires Contents(l.records).Keys !! Contents(r.records).Keys
    ensures Covers([l, r], n, k, v)
  {
    hide Contents;
    var m, ns := Contents(n.records)[k := v], [l, r];
    assert ns[0] == l && ns[1] == r;
    forall i, x | 0 <= i < |ns| && x in Contents(ns[i].records) ensures x in m && Contents(ns[i].records)[x] == m[x] {
      if i == 0 {
        assert x in Contents(l.records) && x !in Contents(r.records).Keys;
      } else {
        assert x in Contents(r.records);
      }
    }
    assert k in m;
    forall x | x in m ensures SomeHas(ns, x) {
      if x in Contents(l.records) { assert x in Contents(ns[0].records); } else { assert x in Contents(ns[1].records); }
    }
  }

  /** leaf_node_insert of an absent key: one valid leaf, or two after a split, with k added. */
  lemma InsertNodeKeeps(P: Params, n: Node, k: Key, v: Value, addr: nat, expected: Sibling)
    requires NodeInv(P, n) && n.lo <= k < n.hi && k != KEY_NULL && !Has(n.records, k)
    ensures Ready(P, n) && InsertNode(P, n, k, v, addr, expected).Some?
    ensures var ns := InsertNode(P, n, k, v, addr, expected).value;
            TakesPlace(n, addr, ns) && Covers(ns, n, k, v) && forall i :: 0 <= i < |ns| ==> NodeInv(P, ns[i])
  {
    hide Contents, BitsExact, NearHome, Distinct, BucketHasHole, LeafInsert, SplitNode, Buffer, Covers, Has;
    NodeReady(P, n);
    var t := Buffer(P, n, k, expected);
    BufferAgrees(P, n, k, expected);
    BufferShows(P, n, k, expected);
    WindowHasEmpty(P, n, k, expected);
    InsertIntoIsFull(P, n, t, k, v);
    if FullInsert(P, n, k, v).Some? {
      FullInsertKeeps(P, n, k, v);
      CoversOne(FullInsert(P, n, k, v).value, n, k, v);
    } else {
      SplitNodeKeeps(P, n, k, v, addr);
      var ns := SplitNode(P, n, k, v, addr).value;
      CoversTwo(ns[0], ns[1], n, k, v);
      assert ns == [ns[0], ns[1]];
    }
  }

  lemma NodeReady(P: Params, n: Node)
    requires NodeInv(P, n)
    ensures Ready(P, n)
  {}

  // ---------------------------------------------------------------- finding the leaf

  ghost predicate ChainParts(P: Params, chain: Chain) {
    |chain| > 0 && forall i :: 0 <= i < |chain| ==> Ready(P, chain[i])
  }

  lemma ChainReady(P: Params, chain: Chain, keyMax: Key)
    requires ChainStored(P, chain, keyMax)
    ensures ChainParts(P, chain) && Linked(chain, keyMax)
  {}

  /** The leaf at an address, from index i on; |chain| if there is none. */
  function IndexOf(chain: Chain, addr: nat, i: nat): (r: nat)
    requires i <= |chain|
    ensures i <= r <= |chain| && (r < |chain| ==> chain[r].addr == addr)
    ensures forall j :: i <= j < r ==> chain[j].addr != addr
    decreases |chain| - i
  {
    if i == |chain| || chain[i].addr == addr then i else IndexOf(chain, addr, i + 1)
  }

  function Follow(chain: Chain, s: Sibling): (r: nat)
    ensures r <= |chain|
  {
    if s.At? then IndexOf(chain, s.addr, 0) else |chain|
  }

  /** The sibling pointer of a leaf leads to the leaf that follows it. */
  lemma FollowNext(chain: Chain, keyMax: Key, i: nat)
    requires Linked(chain, keyMax) && i < |chain|
    ensures Follow(chain, Next(chain[i])) == i + 1
  {
    if i + 1 < |chain| {
      assert chain[i].sibling == At(chain[i + 1].addr);
    }
  }

  /** What an inner node may say: k is at or right of leaf i, and left of the sibling of a leaf from i on. An
      inner node that missed splits names an earlier leaf and a later sibling. */
  ghost predicate Brackets(chain: Chain, k: Key, i: nat, expected: Sibling, stop: nat) {
    i <= stop < |chain| && chain[i].lo <= k < chain[stop].hi && expected == Next(chain[stop])
  }

  ghost predicate Enters(chain: Chain, k: Key, i: nat, expected: Sibling) {
    i < |chain| && exists stop :: Brackets(chain, k, i, expected, stop)
  }

  /** Where leaf_node_insert ends up; |chain| if it runs off the chain. */
  function InsertRoute(P: Params, keyMax: Key, chain: Chain, k: Key, i: nat, expected: Sibling): (r: nat)
    requires ChainParts(P, chain) && Linked(chain, keyMax) && i < |chain|
    ensures i <= r <= |chain|
    decreases |chain| - i
  {
    if !TurnsRight(P, chain[i], k, expected, keyMax) then i
    else
      FollowNext(chain, keyMax, i);
      var j := Follow(chain, Next(chain[i]));
      if j == |chain| then j else InsertRoute(P, keyMax, chain, k, j, NoSibling)
  }

  /** Only the first leaf is checked against the caller's sibling. */
  function ExpectedAt(i: nat, expected: Sibling, r: nat): Sibling {
    if r == i then expected else NoSibling
  }

  lemma NextOnce(chain: Chain, keyMax: Key, i: nat, j: nat)
    requires Linked(chain, keyMax) && i < |chain| && j < |chain| && Next(chain[i]) == Next(chain[j])
    ensures i == j
  {
    FollowNext(chain, keyMax, i);
    FollowNext(chain, keyMax, j);
  }

  lemma {:induction false} InsertRouteFinds(P: Params, keyMax: Key, chain: Chain, k: Key, i: nat, expected: Sibling)
    requires ChainInv(P, chain, keyMax) && k < keyMax && Enters(chain, k, i, expected)
    ensures ChainParts(P, chain)
    ensures var r := InsertRoute(P, keyMax, chain, k, i, expected);
            r < |chain| && chain[r].lo <= k < chain[r].hi
    decreases |chain| - i
  {
    hide NodeInv, TurnsRight, Linked, Follow, Ready;
    InvStored(P, chain, keyMax);
    ChainReady(P, chain, keyMax);
    LinkedAt(chain, keyMax, i);
    var stop :| Brackets(chain, k, i, expected, stop);
    if expected == Next(chain[i]) {
      NextOnce(chain, keyMax, i, stop);
      Skips(P, chain[i], k, expected, keyMax);
    } else {
      TurnsRightIff(P, chain[i], k, expected, keyMax);
      if k >= chain[i].hi {
        FollowNext(chain, keyMax, i);
        assert i + 1 < |chain|;
        assert Brackets(chain, k, i + 1, NoSibling, |chain| - 1);
        InsertRouteFinds(P, keyMax, chain, k, i + 1, NoSibling);
      }
    }
  }

  lemma LinkedAt(chain: Chain, keyMax: Key, i: nat)
    requires Linked(chain, keyMax) && i < |chain|
    ensures chain[i].sibling.RootTag? ==> chain[i].hi == keyMax
    ensures if i + 1 < |chain| then chain[i].hi == chain[i + 1].lo else chain[i].hi == keyMax
    ensures chain[|chain| - 1].hi == keyMax && Next(chain[|chain| - 1]) == NoSibling
  {
    if i + 1 < |chain| {
      assert chain[i].sibling == At(chain[i + 1].addr);
    }
  }

  lemma Skips(P: Params, n: Node, k: Key, expected: Sibling, keyMax: Key)
    requires Ready(P, n) && expected == Next(n)
    ensures !TurnsRight(P, n, k, expected, keyMax)
  {}

  /** Where leaf_node_update ends up: it turns right as long as the key is not in the neighbourhood and the
      sibling is not the expected one; |chain| is its failing assert. */
  function UpdateRoute(P: Params, keyMax: Key, chain: Chain, k: Key, i: nat, expected: Sibling): (r: nat)
    requires ChainParts(P, chain) && Linked(chain, keyMax) && i < |chain|
    ensures r <= |chain|
    ensures r < |chain| ==> NearDistance(P.c, chain[r].records, k, 0) < P.c.neighbor
    decreases |chain| - i
  {
    if NearDistance(P.c, chain[i].records, k, 0) < P.c.neighbor then i
    else if expected == Next(chain[i]) then |chain|
    else
      FollowNext(chain, keyMax, i);
      var j := Follow(chain, Next(chain[i]));
      if j == |chain| then j else UpdateRoute(P, keyMax, chain, k, j, expected)
  }

  lemma NodeNear(P: Params, n: Node, k: Key)
    requires Stored(P, n) && k != KEY_NULL
    ensures NearDistance(P.c, n.records, k, 0) < P.c.neighbor <==> k in Contents(n.records)
    ensures k in Contents(n.records) ==> Has(n.records, k)
  {
    hide BitsExact, NearHome, Distinct, Sound, Contents;
    NearIffHas(P.c, n.records, k);
    KeysAt(n.records, k);
  }

  lemma {:induction false} UpdateRouteFinds(P: Params, keyMax: Key, chain: Chain, k: Key, i: nat, expected: Sibling,
                                            stop: nat)
    requires ChainStored(P, chain, keyMax) && k != KEY_NULL && i <= stop < |chain| && expected == Next(chain[stop])
    ensures ChainParts(P, chain)
    ensures var r := UpdateRoute(P, keyMax, chain, k, i, expected);
            && (r < |chain| ==> k in Contents(chain[r].records))
            && (r == |chain| ==> forall j :: i <= j <= stop ==> k !in Contents(chain[j].records))
    decreases |chain| - i
  {
    hide Stored, Contents, NearDistance;
    ChainReady(P, chain, keyMax);
    NodeNear(P, chain[i], k);
    if k !in Contents(chain[i].records) {
      if expected == Next(chain[i]) {
        NextOnce(chain, keyMax, i, stop);
      } else {
        FollowNext(chain, keyMax, i);
        UpdateRouteFinds(P, keyMax, chain, k, i + 1, expected, stop);
      }
    }
  }

  /** A key of the map lies in a leaf between the entry and the leaf whose sibling was expected. */
  lemma BetweenHolds(P: Params, keyMax: Key, chain: Chain, m: map<Key, Value>, k: Key, i: nat, expected: Sibling,
                     stop: nat)
      returns (j: nat)
    requires ChainStored(P, chain, keyMax) && Represents(chain, m) && k in m && Brackets(chain, k, i, expected, stop)
    ensures i <= j <= stop && k in Contents(chain[j].records) && Contents(chain[j].records)[k] == m[k]
    ensures chain[j].lo <= k < chain[j].hi
  {
    hide Stored, Contents;
    assert SomeHas(chain, k);
    j :| 0 <= j < |chain| && k in Contents(chain[j].records);
    NodeRange(P, chain[j]);
    if j < i { RangesOrdered(P, chain, keyMax, j, i); }
    if j > stop { RangesOrdered(P, chain, keyMax, stop, j); }
  }

  // ---------------------------------------------------------------- operations on the chain

  datatype Op = Insert(key: Key, value: Value) | Update(key: Key, value: Value)

  /** An operation with the leaf and the sibling its caller got from an inner node, and the word its lock
      buffer was left with. */
  datatype Call = Call(op: Op, start: nat, expected: Sibling, left: Word)

  function Spliced(chain: Chain, i: nat, ns: seq<Node>): (r: Chain)
    requires i < |chain|
  {
    chain[..i] + ns + chain[i + 1..]
  }

  /** leaf_node_insert and leaf_node_update with their right-moves. None stands for a failing assert. */
  function Do(P: Params, keyMax: Key, chain: Chain, call: Call): (r: Option<Chain>)
    requires ChainParts(P, chain) && Linked(chain, keyMax) && call.start < |chain|
  {
    match call.op
    case Insert(k, v) =>
      var i := InsertRoute(P, keyMax, chain, k, call.start, call.expected);
      if i == |chain| then None
      else (match InsertNode(P, chain[i], k, v, |chain|, ExpectedAt(call.start, call.expected, i))
        case None => None
        case Some(ns) => Some(Spliced(chain, i, ns)))
    case Update(k, v) =>
      var i := UpdateRoute(P, keyMax, chain, k, call.start, call.expected);
      if i == |chain| then None else Some(Spliced(chain, i, [UpdateNode(P, chain[i], k, v, call.left)]))
  }

  /** The leaf that inserts of k reach does not hold k, or shows it. */
  ghost predicate Seen(P: Params, keyMax: Key, chain: Chain, k: Key, i: nat, expected: Sibling)
    requires ChainParts(P, chain) && Linked(chain, keyMax) && i < |chain|
  {
    var r := InsertRoute(P, keyMax, chain, k, i, expected);
    r < |chain| && (Has(chain[r].records, k) ==> Visible(P, chain[r], k, ExpectedAt(i, expected, r)))
  }

  lemma ReplaceStores(P: Params, keyMax: Key, chain: Chain, m: map<Key, Value>, i: nat, ns: seq<Node>, k: Key, v: Value)
    requires ChainStored(P, chain, keyMax) && Represents(chain, m) && i < |chain| && chain[i].lo <= k < chain[i].hi
    requires TakesPlace(chain[i], |chain|, ns) && Covers(ns, chain[i], k, v)
    requires forall j :: 0 <= j < |ns| ==> Stored(P, ns[j])
    ensures ChainStored(P, Spliced(chain, i, ns), keyMax) && Represents(Spliced(chain, i, ns), m[k := v])
  {
    hide Stored, Represents, Covers, Linked, TakesPlace;
    SpliceLinked(chain, keyMax, i, ns);
    SpliceRepresents(P, chain, keyMax, m, i, ns, k, v);
  }

  lemma ReplaceKeeps(P: Params, keyMax: Key, chain: Chain, m: map<Key, Value>, i: nat, ns: seq<Node>, k: Key, v: Value)
    requires ChainInv(P, chain, keyMax) && Represents(chain, m) && i < |chain| && chain[i].lo <= k < chain[i].hi
    requires TakesPlace(chain[i], |chain|, ns) && Covers(ns, chain[i], k, v)
    requires forall j :: 0 <= j < |ns| ==> NodeInv(P, ns[j])
    ensures ChainInv(P, Spliced(chain, i, ns), keyMax) && Represents(Spliced(chain, i, ns), m[k := v])
  {
    hide NodeInv, Represents, Covers, Linked, TakesPlace, Stored;
    InvStored(P, chain, keyMax);
    SpliceLinked(chain, keyMax, i, ns);
    SpliceRepresents(P, chain, keyMax, m, i, ns, k, v);
  }

  /** n stands in for chain[i]. */
  ghost predicate SamePlace(n: Node, o: Node) {
    n.lo == o.lo && n.hi == o.hi && n.addr == o.addr && n.sibling == o.sibling
  }

  lemma ReplaceOne(P: Params, keyMax: Key, chain: Chain, m: map<Key, Value>, i: nat, n: Node, k: Key, v: Value)
    requires ChainStored(P, chain, keyMax) && Represents(chain, m) && i < |chain| && chain[i].lo <= k < chain[i].hi
    requires SamePlace(n, chain[i]) && Stored(P, n) && Contents(n.records) == Contents(chain[i].records)[k := v]
    ensures var chain' := Spliced(chain, i, [n]);
            && ChainStored(P, chain', keyMax) && Represents(chain', m[k := v])
            && (ChainInv(P, chain, keyMax) ==> (ChainInv(P, chain', keyMax) <==> NodeInv(P, n)))
  {
    hide NodeInv, Stored, Represents, Covers, Linked, Contents;
    CoversOne(n, chain[i], k, v);
    ReplaceStores(P, keyMax, chain, m, i, [n], k, v);
    var chain' := Spliced(chain, i, [n]);
    assert chain' == chain[i := n] && chain'[i] == n;
  }

  /** An insert never fails. It keeps every leaf valid and the chain contiguous and is a map update if and
      only if its key is absent or shown by what it reads; otherwise the leaf it writes is no longer exact. */
  lemma InsertCallIff(P: Params, keyMax: Key, chain: Chain, m: map<Key, Value>, k: Key, v: Value, i: nat,
                      expected: Sibling, left: Word)
    requires ChainInv(P, chain, keyMax) && Represents(chain, m)
    requires KEY_MIN <= k < keyMax && Enters(chain, k, i, expected)
    ensures ChainParts(P, chain) && Do(P, keyMax, chain, Call(Insert(k, v), i, expected, left)).Some?
    ensures var chain' := Do(P, keyMax, chain, Call(Insert(k, v), i, expected, left)).value;
            && (Seen(P, keyMax, chain, k, i, expected) ==> ChainInv(P, chain', keyMax) && Represents(chain', m[k := v]))
            && (!Seen(P, keyMax, chain, k, i, expected) ==>
                  exists j :: 0 <= j < |chain'| && !HopInv(P.c, chain'[j].records))
  {
    hide NodeInv, InsertNode, Represents, Covers, Linked, TakesPlace, Contents, Visible, HopInv, Stored;
    InvStored(P, chain, keyMax);
    ChainReady(P, chain, keyMax);
    InsertRouteFinds(P, keyMax, chain, k, i, expected);
    var r := InsertRoute(P, keyMax, chain, k, i, expected);
    var e := ExpectedAt(i, expected, r);
    if Has(chain[r].records, k) {
      InsertExactIff(P, chain[r], k, v, |chain|, e);
      var ns := InsertNode(P, chain[r], k, v, |chain|, e).value;
      assert ns == [ns[0]];
      if Visible(P, chain[r], k, e) {
        NodeStored(P, ns[0]);
        ReplaceOne(P, keyMax, chain, m, r, ns[0], k, v);
      } else {
        assert Spliced(chain, r, ns)[r] == ns[0];
      }
    } else {
      InsertNodeKeeps(P, chain[r], k, v, |chain|, e);
      ReplaceKeeps(P, keyMax, chain, m, r, InsertNode(P, chain[r], k, v, |chain|, e).value, k, v);
    }
  }

  /** An update fails its assert exactly when the key is absent, and otherwise is a map update, whatever is
      left in its lock buffer. The lock words stay right if and only if the key is not in the last slot of its
      leaf or the word left in the buffer is right for that leaf. */
  lemma UpdateCallIff(P: Params, keyMax: Key, chain: Chain, m: map<Key, Value>, k: Key, v: Value, i: nat,
                      expected: Sibling, left: Word)
    requires ChainStored(P, chain, keyMax) && Represents(chain, m) && Fits(P, left)
    requires KEY_MIN <= k < keyMax && Enters(chain, k, i, expected)
    ensures ChainParts(P, chain)
    ensures var chain' := Do(P, keyMax, chain, Call(Update(k, v), i, expected, left));
            && (chain'.Some? <==> k in m)
            && (chain'.Some? ==> ChainStored(P, chain'.value, keyMax) && Represents(chain'.value, m[k := v]))
            && (chain'.Some? && ChainInv(P, chain, keyMax) ==>
                  (ChainInv(P, chain'.value, keyMax) <==> Harmless(P, chain, k, left)))
  {
    hide NodeInv, Stored, UpdateNode, Linked, Contents, NearDistance, Harmless, Represents, ChainStored, ChainInv;
    ChainReady(P, chain, keyMax);
    var stop :| Brackets(chain, k, i, expected, stop);
    UpdateRouteFinds(P, keyMax, chain, k, i, expected, stop);
    var r := UpdateRoute(P, keyMax, chain, k, i, expected);
    if r < |chain| {
      InMap(chain, m, r, k);
      var j := BetweenHolds(P, keyMax, chain, m, k, i, expected, stop);
      OnlyThere(P, chain, keyMax, j, r, k);
      UpdateAt(P, keyMax, chain, m, r, k, v, left);
    } else if k in m {
      var j := BetweenHolds(P, keyMax, chain, m, k, i, expected, stop);
      assert false;
    }
  }

  lemma InMap(chain: Chain, m: map<Key, Value>, i: nat, k: Key)
    requires Represents(chain, m) && i < |chain| && k in Contents(chain[i].records)
    ensures k in m
  {}

  /** In the leaf that holds k, k is not in the last slot or the word left in the buffer is right. */
  ghost predicate Harmless(P: Params, chain: Chain, k: Key, left: Word)
    requires ChainParts(P, chain)
  {
    forall i :: 0 <= i < |chain| && Has(chain[i].records, k) ==> WordRight(P, chain[i], k, left)
  }

  lemma UpdateAt(P: Params, keyMax: Key, chain: Chain, m: map<Key, Value>, r: nat, k: Key, v: Value, left: Word)
    requires ChainStored(P, chain, keyMax) && Represents(chain, m) && Fits(P, left) && k != KEY_NULL
    requires r < |chain| && k in Contents(chain[r].records) && chain[r].lo <= k < chain[r].hi
    ensures ChainParts(P, chain) && NearDistance(P.c, chain[r].records, k, 0) < P.c.neighbor
    ensures var chain' := Spliced(chain, r, [UpdateNode(P, chain[r], k, v, left)]);
            && ChainStored(P, chain', keyMax) && Represents(chain', m[k := v])
            && (ChainInv(P, chain, keyMax) ==> (ChainInv(P, chain', keyMax) <==> Harmless(P, chain, k, left)))
  {
    hide NodeInv, Stored, UpdateNode, Linked, Contents, NearDistance, WordRight, Represents;
    ChainReady(P, chain, keyMax);
    NodeNear(P, chain[r], k);
    UpdateNodeStores(P, chain[r], k, v, left);
    UpdateNodeFrame(P, chain[r], k, v, left);
    ReplaceOne(P, keyMax, chain, m, r, UpdateNode(P, chain[r], k, v, left), k, v);
    forall i | 0 <= i < |chain| && Has(chain[i].records, k) ensures i == r {
      KeysAt(chain[i].records, k);
      OnlyThere(P, chain, keyMax, r, i, k);
    }
    if ChainInv(P, chain, keyMax) {
      UpdateNodeKeepsIff(P, chain[r], k, v, left);
    }
  }

  lemma UpdateNodeFrame(P: Params, n: Node, k: Key, v: Value, left: Word)
    requires Ready(P, n) && NearDistance(P.c, n.records, k, 0) < P.c.neighbor
    ensures SamePlace(UpdateNode(P, n, k, v, left), n)
  {}

  // ---------------------------------------------------------------- whole runs

  function Put(m: map<Key, Value>, op: Op): map<Key, Value> {
    m[op.key := op.value]
  }

  /** The map a run should produce. */
  function PutAll(m: map<Key, Value>, calls: seq<Call>): map<Key, Value>
    decreases |calls|
  {
    if calls == [] then m else PutAll(Put(m, calls[0].op), calls[1..])
  }

  /** The call comes from an inner node. */
  ghost predicate Called(P: Params, keyMax: Key, chain: Chain, call: Call) {
    KEY_MIN <= call.op.key < keyMax && Enters(chain, call.op.key, call.start, call.expected) && Fits(P, call.left)
  }

  /** An insert is of a key that is absent or shown. An update is of a key that is present, and not in the
      last slot unless the word left in the lock buffer is right. */
  ghost predicate Allowed(P: Params, keyMax: Key, chain: Chain, call: Call)
    requires ChainParts(P, chain) && Linked(chain, keyMax) && call.start < |chain|
  {
    match call.op
    case Insert(k, v) => Seen(P, keyMax, chain, k, call.start, call.expected)
    case Update(k, v) => SomeHas(chain, k) && Harmless(P, chain, k, call.left)
  }

  ghost predicate Clean(P: Params, keyMax: Key, chain: Chain, call: Call)
    requires ChainParts(P, chain) && Linked(chain, keyMax)
  {
    Called(P, keyMax, chain, call) && Allowed(P, keyMax, chain, call)
  }

  /** The calls go through one after the other, each clean in the chain it finds, and lead to chain'. */
  ghost predicate CleanRun(P: Params, keyMax: Key, chain: Chain, calls: seq<Call>, chain': Chain)
    decreases |calls|
  {
    && ChainParts(P, chain) && Linked(chain, keyMax)
    && if calls == [] then chain' == chain
       else
         && Clean(P, keyMax, chain, calls[0]) && Do(P, keyMax, chain, calls[0]).Some?
         && CleanRun(P, keyMax, Do(P, keyMax, chain, calls[0]).value, calls[1..], chain')
  }

  lemma CallKeeps(P: Params, keyMax: Key, chain: Chain, m: map<Key, Value>, call: Call)
    requires ChainInv(P, chain, keyMax) && Represents(chain, m)
    requires ChainParts(P, chain) && Clean(P, keyMax, chain, call)
    ensures Do(P, keyMax, chain, call).Some?
    ensures ChainInv(P, Do(P, keyMax, chain, call).value, keyMax)
    ensures Represents(Do(P, keyMax, chain, call).value, Put(m, call.op))
  {
    hide NodeInv, Stored, Do, Contents, Seen, Brackets, Harmless;
    InvStored(P, chain, keyMax);
    match call.op
    case Insert(k, v) =>
      InsertCallIff(P, keyMax, chain, m, k, v, call.start, call.expected, call.left);
    case Update(k, v) =>
      var j :| 0 <= j < |chain| && k in Contents(chain[j].records);
      UpdateCallIff(P, keyMax, chain, m, k, v, call.start, call.expected, call.left);
  }

  /** A clean call replaces one leaf by one or two. */
  lemma CallSplices(P: Params, keyMax: Key, chain: Chain, m: map<Key, Value>, call: Call)
      returns (r: nat, ns: seq<Node>)
    requires ChainInv(P, chain, keyMax) && Represents(chain, m)
    requires ChainParts(P, chain) && Clean(P, keyMax, chain, call)
    ensures r < |chain| && TakesPlace(chain[r], |chain|, ns)
    ensures Do(P, keyMax, chain, call) == Some(Spliced(chain, r, ns))
  {
    hide NodeInv, InsertNode, UpdateNode, Represents, Covers, Linked, Contents, Visible, HopInv, NearDistance;
    CallKeeps(P, keyMax, chain, m, call);
    var k, start, expected := call.op.key, call.start, call.expected;
    match call.op
    case Insert(_, v) =>
      InsertRouteFinds(P, keyMax, chain, k, start, expected);
      r := InsertRoute(P, keyMax, chain, k, start, expected);
      var e := ExpectedAt(start, expected, r);
      ns := InsertNode(P, chain[r], k, v, |chain|, e).value;
      if Has(chain[r].records, k) {
        InsertExactIff(P, chain[r], k, v, |chain|, e);
      } else {
        InsertNodeKeeps(P, chain[r], k, v, |chain|, e);
      }
    case Update(_, v) =>
      r := UpdateRoute(P, keyMax, chain, k, start, expected);
      ns := [UpdateNode(P, chain[r], k, v, call.left)];
      UpdateNodeFrame(P, chain[r], k, v, call.left);
  }

  /** Every run of clean calls keeps all leaves valid and stands for the map of its operations. */
  lemma {:induction false} RunKeeps(P: Params, keyMax: Key, chain: Chain, m: map<Key, Value>, calls: seq<Call>,
                                    chain': Chain)
    requires ChainInv(P, chain, keyMax) && Represents(chain, m) && CleanRun(P, keyMax, chain, calls, chain')
    ensures ChainInv(P, chain', keyMax) && Represents(chain', PutAll(m, calls))
    decreases |calls|
  {
    hide ChainInv, Represents, Do, Seen, Linked, ChainParts, SomeHas;
    if calls != [] {
      CallKeeps(P, keyMax, chain, m, calls[0]);
      RunKeeps(P, keyMax, Do(P, keyMax, chain, calls[0]).value, Put(m, calls[0].op), calls[1..], chain');
    }
  }

  /** Updates of present keys, whatever is left in the lock buffers, lead to chain'. */
  ghost predicate UpdateRun(P: Params, keyMax: Key, chain: Chain, calls: seq<Call>, chain': Chain)
    decreases |calls|
  {
    && ChainParts(P, chain) && Linked(chain, keyMax)
    && if calls == [] then chain' == chain
       else
         && Called(P, keyMax, chain, calls[0]) && calls[0].op.Update? && Do(P, keyMax, chain, calls[0]).Some?
         && UpdateRun(P, keyMax, Do(P, keyMax, chain, calls[0]).value, calls[1..], chain')
  }

  /** Contents survive every run of updates, lock words or not. */
  lemma {:induction false} UpdatesStore(P: Params, keyMax: Key, chain: Chain, m: map<Key, Value>, calls: seq<Call>,
                                        chain': Chain)
    requires ChainStored(P, chain, keyMax) && Represents(chain, m) && UpdateRun(P, keyMax, chain, calls, chain')
    ensures ChainStored(P, chain', keyMax) && Represents(chain', PutAll(m, calls))
    decreases |calls|
  {
    hide ChainStored, Represents, Do, Linked, ChainParts, Brackets;
    if calls != [] {
      var Call(op, start, expected, left) := calls[0];
      UpdateCallIff(P, keyMax, chain, m, op.key, op.value, start, expected, left);
      UpdatesStore(P, keyMax, Do(P, keyMax, chain, calls[0]).value, Put(m, op), calls[1..], chain');
    }
  }

  /** What a caller can tell without looking at a leaf: inserts are of new keys, updates of old ones. */
  predicate Fresh(m: map<Key, Value>, keyMax: Key, ops: seq<Op>)
    decreases |ops|
  {
    ops == [] || (KEY_MIN <= ops[0].key < keyMax && (ops[0].Insert? <==> ops[0].key !in m)
                  && Fresh(Put(m, ops[0]), keyMax, ops[1..]))
  }

  /** The calls are those operations, entered at the first leaf through an inner node that knows of no
      sibling. */
  ghost predicate FromLeft(calls: seq<Call>, ops: seq<Op>) {
    |calls| == |ops| && forall i :: 0 <= i < |ops| ==> calls[i] == Call(ops[i], 0, NoSibling, calls[i].left)
  }

  /** Such operations go through as a clean run, with the right words in the lock buffers of the updates. */
  lemma {:induction false} FreshRuns(P: Params, keyMax: Key, chain: Chain, m: map<Key, Value>, ops: seq<Op>)
      returns (calls: seq<Call>, chain': Chain)
    requires ChainInv(P, chain, keyMax) && Represents(chain, m) && Fresh(m, keyMax, ops)
    ensures FromLeft(calls, ops) && CleanRun(P, keyMax, chain, calls, chain')
    decreases |ops|
  {
    hide ChainInv, Do, Linked, Contents, NodeInv, Stored, Clean;
    InvStored(P, chain, keyMax);
    ChainReady(P, chain, keyMax);
    if ops == [] {
      calls, chain' := [], chain;
    } else {
      var left := RightWord(P, keyMax, chain, ops[0].key);
      var call := Call(ops[0], 0, NoSibling, left);
      FreshClean(P, keyMax, chain, m, ops[0], left);
      CallKeeps(P, keyMax, chain, m, call);
      var rest;
      rest, chain' := FreshRuns(P, keyMax, Do(P, keyMax, chain, call).value, Put(m, ops[0]), ops[1..]);
      calls := [call] + rest;
      assert calls[1..] == rest;
    }
  }

  /** The lock word of the leaf that holds k is right for it. */
  lemma RightWord(P: Params, keyMax: Key, chain: Chain, k: Key) returns (left: Word)
    requires ChainInv(P, chain, keyMax) && k != KEY_NULL
    ensures ChainParts(P, chain) && Fits(P, left) && Harmless(P, chain, k, left)
  {
    hide NodeInv, Stored, Contents, Linked;
    InvStored(P, chain, keyMax);
    ChainReady(P, chain, keyMax);
    var j := 0;
    if i :| 0 <= i < |chain| && Has(chain[i].records, k) {
      j := i;
    }
    left := Word(chain[j].bitmap, chain[j].maxIdx);
    OwnWord(P, chain[j]);
    forall i | 0 <= i < |chain| && Has(chain[i].records, k) ensures i == j {
      KeysAt(chain[i].records, k);
      KeysAt(chain[j].records, k);
      NodeRange(P, chain[j]);
      OnlyThere(P, chain, keyMax, j, i, k);
    }
  }

  lemma OwnWord(P: Params, n: Node)
    requires NodeInv(P, n)
    ensures Fits(P, Word(n.bitmap, n.maxIdx)) && Sound(P.g, n.bitmap, n.records) && IsMaxIdx(n.records, n.maxIdx)
  {}

  lemma FreshClean(P: Params, keyMax: Key, chain: Chain, m: map<Key, Value>, op: Op, left: Word)
    requires ChainInv(P, chain, keyMax) && Represents(chain, m) && KEY_MIN <= op.key < keyMax
    requires (op.Insert? <==> op.key !in m) && Fits(P, left)
    requires op.Update? && ChainParts(P, chain) ==> Harmless(P, chain, op.key, left)
    ensures ChainParts(P, chain) && Clean(P, keyMax, chain, Call(op, 0, NoSibling, left))
  {
    hide NodeInv, Stored, Contents, InsertRoute, Visible, Harmless;
    InvStored(P, chain, keyMax);
    ChainReady(P, chain, keyMax);
    var k := op.key;
    assert Brackets(chain, k, 0, NoSibling, |chain| - 1);
    if op.Insert? {
      InsertRouteFinds(P, keyMax, chain, k, 0, NoSibling);
      var r := InsertRoute(P, keyMax, chain, k, 0, NoSibling);
      KeysAt(chain[r].records, k);
    }
  }

  // ---------------------------------------------------------------- the first leaf

  /** The empty leaf. */
  function EmptyLeaf(c: Config): (s: Leaf) {
    seq(c.span, _ => Blank(c))
  }

  /** The root leaf holds the ghost key, the greatest key there can be. */
  function Root(P: Params, keyMax: Key): (n: Node)
    requires P.Valid() && keyMax > KEY_MIN
  {
    var ghostKey := keyMax - 1;
    var b := P.c.Home(ghostKey);
    var s := match LeafInsert(P.c, EmptyLeaf(P.c), ghostKey, VALUE_NULL, P.c.span)
             case Some(r) => r
             case None => EmptyLeaf(P.c);
    Node(0, s, Swept(P.g, seq(P.g.bits, _ => false), b, b, []), b, KEY_MIN, keyMax, RootTag)
  }

  lemma EmptyLeafInv(c: Config)
    requires c.Valid()
    ensures HopInv(c, EmptyLeaf(c)) && Contents(EmptyLeaf(c)) == map[]
    ensures forall k :: k != KEY_NULL ==> !Has(EmptyLeaf(c), k)
  {
  }

  lemma RootLeaf(c: Config, k: Key)
    requires c.Valid() && k != KEY_NULL
    ensures LeafInsert(c, EmptyLeaf(c), k, VALUE_NULL, c.span) ==
            Some(Place(c, EmptyLeaf(c), c.Home(k), c.Home(k), k, VALUE_NULL))
  {}

  lemma RootInv(P: Params, keyMax: Key)
    requires P.Valid() && keyMax > KEY_MIN
    ensures ChainInv(P, [Root(P, keyMax)], keyMax)
    ensures Represents([Root(P, keyMax)], map[keyMax - 1 := VALUE_NULL])
    ensures forall x :: 0 <= x < P.g.bits ==>
              (Root(P, keyMax).bitmap[x] <==> x == FindBucket(P.g, P.c.Home(keyMax - 1)))
  {
    hide LeafInsert, BitsExact, NearHome, Distinct, FindBucket;
    var k := keyMax - 1;
    var n := Root(P, keyMax);
    EmptyLeafInv(P.c);
    RootLeaf(P.c, k);
    LeafInsertKeeps(P.c, EmptyLeaf(P.c), k, VALUE_NULL, P.c.span);
    RootBitmap(P, n.records, P.c.Home(k));
    assert NodeInv(P, n);
  }

  lemma RootBitmap(P: Params, s: Leaf, b: nat)
    requires P.Valid() && |s| == P.c.span && b < P.c.span
    requires forall i :: 0 <= i < P.c.span && i != b ==> s[i].key == KEY_NULL
    ensures Sound(P.g, Swept(P.g, seq(P.g.bits, _ => false), b, b, []), s)
  {
    hide FindBucket, First, Last;
    forall x | 0 <= x < P.g.bits && x != FindBucket(P.g, b) ensures BucketHasHole(P.g, s, x) {
      BucketInhabited(P.g, x);
      BucketsInverse(P.g, First(P.g, x), x);
    }
  }

  // ---------------------------------------------------------------- searches

  /** leaf_node_search with its right-moves: it stops at a leaf that shows the key, and a leaf without it
      sends the search on until the expected sibling is met. A null value counts as none. */
  ghost predicate SearchAnswers(P: Params, keyMax: Key, chain: Chain, k: Key, i: nat, expected: Sibling, r: ReadResult)
    requires ChainParts(P, chain) && Linked(chain, keyMax) && i < |chain|
    decreases |chain| - i
  {
    exists a :: Answers(P.c, chain[i].records, k, a) && !a.Retry? &&
      if a.Found? then r == NonNull(a.value)
      else if expected == Next(chain[i]) then r == Absent
      else
        FollowNext(chain, keyMax, i);
        var j := Follow(chain, Next(chain[i]));
        j < |chain| && SearchAnswers(P, keyMax, chain, k, j, expected, r)
  }

  function NonNull(v: Value): (r: ReadResult) {
    if v == VALUE_NULL then Absent else Found(v)
  }

  /** The value of k in m; a null value is none. */
  function Wanted(m: map<Key, Value>, k: Key): (r: ReadResult) {
    if k in m then NonNull(m[k]) else Absent
  }

  ghost predicate HeldBetween(chain: Chain, k: Key, i: nat, stop: nat) {
    exists j :: i <= j <= stop < |chain| && k in Contents(chain[j].records)
  }

  lemma {:induction false} SearchWalk(P: Params, keyMax: Key, chain: Chain, m: map<Key, Value>, k: Key, i: nat,
                                      expected: Sibling, stop: nat, r: ReadResult)
    requires ChainStored(P, chain, keyMax) && Represents(chain, m) && k != KEY_NULL
    requires i <= stop < |chain| && expected == Next(chain[stop])
    requires k in m ==> HeldBetween(chain, k, i, stop)
    ensures ChainParts(P, chain)
    ensures SearchAnswers(P, keyMax, chain, k, i, expected, r) <==> r == Wanted(m, k)
    decreases |chain| - i
  {
    hide Stored, Contents, Answers, SomeHas, Linked, SearchAnswers;
    ChainReady(P, chain, keyMax);
    NodeExact(P, chain[i], k);
    FollowNext(chain, keyMax, i);
    var here := k in Contents(chain[i].records);
    SearchStep(P, keyMax, chain, k, i, expected, r, if here then Found(Contents(chain[i].records)[k]) else Absent);
    if expected == Next(chain[i]) {
      NextOnce(chain, keyMax, i, stop);
    } else if !here {
      if k in m {
        var j :| i <= j <= stop < |chain| && k in Contents(chain[j].records);
        assert i + 1 <= j;
      }
      SearchWalk(P, keyMax, chain, m, k, i + 1, expected, stop, r);
    }
  }

  /** One leaf of a search that can only answer a. */
  lemma SearchStep(P: Params, keyMax: Key, chain: Chain, k: Key, i: nat, expected: Sibling, r: ReadResult,
                   a: ReadResult)
    requires ChainParts(P, chain) && Linked(chain, keyMax) && i < |chain| && Follow(chain, Next(chain[i])) == i + 1
    requires !a.Retry? && forall b :: Answers(P.c, chain[i].records, k, b) <==> b == a
    ensures SearchAnswers(P, keyMax, chain, k, i, expected, r) <==>
              if a.Found? then r == NonNull(a.value)
              else if expected == Next(chain[i]) then r == Absent
              else i + 1 < |chain| && SearchAnswers(P, keyMax, chain, k, i + 1, expected, r)
  {
    hide Answers, Linked, Follow, Ready;
  }

  lemma NodeExact(P: Params, n: Node, k: Key)
    requires Stored(P, n) && k != KEY_NULL
    ensures Shape(P.c, n.records)
    ensures forall a :: Answers(P.c, n.records, k, a) <==>
              a == if k in Contents(n.records) then Found(Contents(n.records)[k]) else Absent
  {
    hide BitsExact, NearHome, Distinct, Contents, Answers;
    forall a
      ensures Answers(P.c, n.records, k, a) <==>
                a == if k in Contents(n.records) then Found(Contents(n.records)[k]) else Absent
    {
      ReadExact(P.c, n.records, k, a);
    }
  }

  /** In a chain that stands for m, be its lock words right or not, a search through any inner node, however
      stale, answers with the value of the key in m and with nothing else. */
  lemma SearchFinds(P: Params, keyMax: Key, chain: Chain, m: map<Key, Value>, k: Key, i: nat, expected: Sibling,
                    r: ReadResult)
    requires ChainStored(P, chain, keyMax) && Represents(chain, m)
    requires KEY_MIN <= k < keyMax && Enters(chain, k, i, expected)
    ensures ChainParts(P, chain)
    ensures SearchAnswers(P, keyMax, chain, k, i, expected, r) <==> r == Wanted(m, k)
  {
    hide Stored, Contents, ChainStored, SearchAnswers;
    var stop :| Brackets(chain, k, i, expected, stop);
    if k in m {
      var j := BetweenHolds(P, keyMax, chain, m, k, i, expected, stop);
      assert HeldBetween(chain, k, i, stop);
    }
    SearchWalk(P, keyMax, chain, m, k, i, expected, stop, r);
  }

  /** From root creation on, after any clean run and any updates behind it, whatever lock words those write,
      every search answers with the last value written to its key, or with absence. */
  lemma SearchAfterRun(P: Params, keyMax: Key, calls: seq<Call>, between: Chain, updates: seq<Call>, chain: Chain,
                       k: Key, i: nat, expected: Sibling, r: ReadResult)
    requires P.Valid() && keyMax > KEY_MIN && CleanRun(P, keyMax, [Root(P, keyMax)], calls, between)
    requires UpdateRun(P, keyMax, between, updates, chain)
    requires KEY_MIN <= k < keyMax && Enters(chain, k, i, expected)
    ensures ChainStored(P, chain, keyMax) && ChainParts(P, chain)
    ensures SearchAnswers(P, keyMax, chain, k, i, expected, r) <==>
              r == Wanted(PutAll(PutAll(map[keyMax - 1 := VALUE_NULL], calls), updates), k)
  {
    hide PutAll, CleanRun, UpdateRun, Root, NodeInv, Stored, SearchAnswers, Wanted, Enters;
    RootInv(P, keyMax);
    var m := map[keyMax - 1 := VALUE_NULL];
    RunKeeps(P, keyMax, [Root(P, keyMax)], m, calls, between);
    InvStored(P, between, keyMax);
    UpdatesStore(P, keyMax, between, PutAll(m, calls), updates, chain);
    SearchFinds(P, keyMax, chain, PutAll(PutAll(m, calls), updates), k, i, expected, r);
  }
}
