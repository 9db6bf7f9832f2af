/** The split of a full leaf: the key chosen to split at, the two halves, and the promise that the
    key that did not fit before fits afterwards, on whichever side it belongs. */
module HopscotchSplit {

  import opened Common
  import opened KeyOrder
  import opened Hopscotch
  import opened HopscotchPath

  // ---------------------------------------------------------------- simulated hops

  /** The home of the key in logical slot h, unwrapped by the source's two corner cases. */
  function SimHome(c: Config, s: Leaf, h: int): (p: int)
    requires c.Valid() && |s| == c.span && 0 <= h < 2 * c.span
  {
    var p := c.Home(s[c.Slot(h)].key);
    if h - p < 0 then p - c.span
    else if h - p >= c.neighbor then p + c.span
    else p
  }

  lemma SimHomeIsLogical(c: Config, s: Leaf, h: int)
    requires HopInv(c, s) && 0 <= h < 2 * c.span - 1 && s[c.Slot(h)].key != KEY_NULL
    ensures SimHome(c, s, h) == LogicalHome(c, s, h)
  {
  }

  /** The farthest slot whose key could move to j were j empty; j itself when there is none. */
  function SimNext(c: Config, s: Leaf, j: int, offset: nat): (h: int)
    requires c.Valid() && |s| == c.span && c.neighbor <= j < 2 * c.span && offset < c.neighbor
    ensures j - offset <= h <= j
    ensures h < j ==> SimHome(c, s, h) + c.neighbor > j
    ensures forall i :: j - offset <= i < h ==> SimHome(c, s, i) + c.neighbor <= j
    decreases offset
  {
    if offset == 0 then j
    else if SimHome(c, s, j - offset) + c.neighbor > j then j - offset
    else SimNext(c, s, j, offset - 1)
  }

  /** Hopping would succeed if slot j were empty, judged on the unchanged leaf. */
  predicate SimFits(c: Config, s: Leaf, b: nat, j: int)
    requires c.Valid() && |s| == c.span && b < c.span && b <= j < b + c.span
    decreases j - b
  {
    j < b + c.neighbor ||
    var h := SimNext(c, s, j, c.neighbor - 1);
    h < j && SimFits(c, s, b, h)
  }

  ghost predicate Occupied(c: Config, s: Leaf, lo: int, hi: int)
    requires c.Valid() && |s| == c.span && 0 <= lo && hi <= 2 * c.span
  {
    forall i :: lo <= i < hi ==> s[c.Slot(i)].key != KEY_NULL
  }

  lemma SimNextMonotone(c: Config, s: Leaf, i: int, j: int)
    requires c.Valid() && |s| == c.span && c.neighbor <= i <= j < 2 * c.span
    requires SimNext(c, s, j, c.neighbor - 1) < i
    ensures SimNext(c, s, i, c.neighbor - 1) <= SimNext(c, s, j, c.neighbor - 1)
  {
  }

  /** If hopping succeeds from slot j, it succeeds from every earlier slot. */
  lemma {:induction false} SimFitsDownward(c: Config, s: Leaf, b: nat, i: int, j: int)
    requires c.Valid() && |s| == c.span && b < c.span && b <= i <= j < b + c.span
    requires SimFits(c, s, b, j)
    ensures SimFits(c, s, b, i)
    decreases j - b, i - b
  {
    if i >= b + c.neighbor && i < j {
      var h := SimNext(c, s, j, c.neighbor - 1);
      if i <= h {
        SimFitsDownward(c, s, b, i, h);
      } else {
        SimNextMonotone(c, s, i, j);
        SimFitsDownward(c, s, b, SimNext(c, s, i, c.neighbor - 1), h);
      }
    }
  }

  ghost predicate SameKeys(c: Config, s: Leaf, t: Leaf, lo: int, hi: int) {
    && c.Valid() && |s| == c.span == |t| && 0 <= lo && hi <= 2 * c.span
    && forall i :: lo <= i < hi ==> s[c.Slot(i)].key == t[c.Slot(i)].key
  }

  lemma SimNextIsFindHop(c: Config, s: Leaf, t: Leaf, b: nat, j: int)
    requires HopInv(c, s) && HopInv(c, t) && b < c.span && b + c.neighbor <= j < b + c.span
    requires SameKeys(c, s, t, b, j) && Occupied(c, s, b, j)
    ensures var h := SimNext(c, s, j, c.neighbor - 1); var r := FindHop(c, t, j, c.neighbor - 1);
            r.Hop? == (h < j) && (r.Hop? ==> r.from == h)
  {
    forall i | j - c.neighbor < i < j
      ensures (exists z :: Movable(c, t, i, j, z)) <==> SimHome(c, s, i) + c.neighbor > j
    {
      assert s[c.Slot(i)].key == t[c.Slot(i)].key;
      MovableIff(c, t, b, i, j);
      SimHomeIsLogical(c, s, i);
    }
    var h := SimNext(c, s, j, c.neighbor - 1);
    var r := FindHop(c, t, j, c.neighbor - 1);
    if r.Hop? {
      assert Movable(c, t, r.from, j, r.dist);
      assert SimHome(c, s, r.from) + c.neighbor > j;
    }
    if h < j {
      var z :| Movable(c, t, h, j, z);
    }
  }

  /** The simulated path on the full leaf is the path taken on a leaf in which j really is a hole. */
  lemma {:induction false} SimIsReal(c: Config, s: Leaf, t: Leaf, b: nat, j: int, k: Key, v: Value)
    requires HopInv(c, s) && HoleAt(c, t, b, j) && SameKeys(c, s, t, b, j) && Occupied(c, s, b, j)
    ensures SimFits(c, s, b, j) <==> HopTo(c, t, b, j, k, v).Some?
    decreases j - b
  {
    if j >= b + c.neighbor {
      SimNextIsFindHop(c, s, t, b, j);
      match FindHop(c, t, j, c.neighbor - 1)
      case NoHop =>
      case Hop(h, z) =>
        MoveKeeps(c, t, b, h, z, j);
        MoveFrame(c, t, b, h, z, j);
        SimIsReal(c, s, Move(c, t, h, z, j), b, h, k, v);
    }
  }

  // ---------------------------------------------------------------- when hopping succeeds

  /** The key of slot h may move to slot j: j is behind it and still in the neighbourhood of its home. */
  ghost predicate MayHop(c: Config, s: Leaf, h: int, j: int)
    requires c.Valid() && |s| == c.span && 0 <= h < 2 * c.span
  {
    h < j < LogicalHome(c, s, h) + c.neighbor
  }

  /** The hole of slot js[0] can be brought, hop by hop over the slots js, into the neighbourhood of b. */
  ghost predicate LegalHops(c: Config, s: Leaf, b: nat, js: seq<int>)
    requires c.Valid() && |s| == c.span && b < c.span
  {
    && |js| > 0 && (forall i :: 0 <= i < |js| ==> b <= js[i] < b + c.span)
    && (forall i :: 0 < i < |js| ==> MayHop(c, s, js[i], js[i - 1]))
    && js[|js| - 1] < b + c.neighbor
  }

  lemma MayHopIs(c: Config, s: Leaf, b: nat, h: int, j: int)
    requires HopInv(c, s) && b < c.span && b <= h < j < b + c.span && Occupied(c, s, b, j)
    ensures MayHop(c, s, h, j) <==> j - c.neighbor < h && SimHome(c, s, h) + c.neighbor > j
  {
    SimHomeIsLogical(c, s, h);
  }

  lemma {:induction false} LegalFits(c: Config, s: Leaf, b: nat, js: seq<int>)
    requires HopInv(c, s) && b < c.span && LegalHops(c, s, b, js) && Occupied(c, s, b, js[0])
    ensures SimFits(c, s, b, js[0])
    decreases |js|
  {
    hide BitsExact, NearHome, Distinct, MayHop;
    if |js| > 1 && js[0] >= b + c.neighbor {
      assert MayHop(c, s, js[1], js[0]);
      assert js[1] < js[0] by { MayHopBack(c, s, js[1], js[0]); }
      forall i | 0 < i < |js[1..]| ensures MayHop(c, s, js[1..][i], js[1..][i - 1]) {
        assert MayHop(c, s, js[i + 1], js[i + 1 - 1]);
      }
      LegalFits(c, s, b, js[1..]);
      MayHopIs(c, s, b, js[1], js[0]);
      SimFitsDownward(c, s, b, SimNext(c, s, js[0], c.neighbor - 1), js[1]);
    }
  }

  lemma MayHopBack(c: Config, s: Leaf, h: int, j: int)
    requires c.Valid() && |s| == c.span && 0 <= h < 2 * c.span && MayHop(c, s, h, j)
    ensures h < j
  {}

  lemma {:induction false} FitsLegal(c: Config, s: Leaf, b: nat, j: int) returns (js: seq<int>)
    requires HopInv(c, s) && b < c.span && b <= j < b + c.span && Occupied(c, s, b, j) && SimFits(c, s, b, j)
    ensures LegalHops(c, s, b, js) && js[0] == j
    decreases j - b
  {
    hide BitsExact, NearHome, Distinct, MayHop;
    if j < b + c.neighbor {
      js := [j];
    } else {
      var h := SimNext(c, s, j, c.neighbor - 1);
      var rest := FitsLegal(c, s, b, h);
      MayHopIs(c, s, b, h, j);
      js := [j] + rest;
      forall i | 0 < i < |js| ensures MayHop(c, s, js[i], js[i - 1]) {
        if i > 1 {
          assert MayHop(c, s, rest[i - 1], rest[i - 1 - 1]);
        }
      }
    }
  }

  /** Some legal hops lead from the hole e into the neighbourhood of b. */
  ghost predicate Reaches(c: Config, s: Leaf, b: nat, e: int)
    requires c.Valid() && |s| == c.span && b < c.span
  {
    exists js :: LegalHops(c, s, b, js) && js[0] == e
  }

  /** An insert succeeds if and only if the window read has a hole and some legal hops, in whatever order they
      choose keys, bring the first hole into the neighbourhood: taking the farthest key first loses nothing. */
  lemma InsertIff(c: Config, s: Leaf, k: Key, v: Value, entryNum: nat)
    requires HopInv(c, s) && entryNum <= c.span
    ensures LeafInsert(c, s, k, v, entryNum).Some? <==>
            exists e :: c.Home(k) <= e < c.Home(k) + entryNum && s[c.Slot(e)].key == KEY_NULL
                        && Occupied(c, s, c.Home(k), e) && Reaches(c, s, c.Home(k), e)
  {
    hide BitsExact, NearHome, Distinct, HopTo, MayHop, SimFits;
    var b := c.Home(k);
    var e := FirstEmpty(c, s, b, b + entryNum);
    if e < b + entryNum {
      SimIsReal(c, s, s, b, e, k, v);
      if SimFits(c, s, b, e) {
        var js := FitsLegal(c, s, b, e);
      }
      if js :| LegalHops(c, s, b, js) && js[0] == e {
        LegalFits(c, s, b, js);
      }
    }
    forall e' | b <= e' < b + entryNum && s[c.Slot(e')].key == KEY_NULL && Occupied(c, s, b, e') ensures e' == e {
    }
  }

  // ---------------------------------------------------------------- the split key

  /** The keys, from slot i on, each of which would make room for a key of home b if it went away. */
  function CriticalKeys(c: Config, s: Leaf, b: nat, i: int): (r: seq<Key>)
    requires c.Valid() && |s| == c.span && b < c.span && b <= i <= b + c.span
    decreases b + c.span - i
  {
    if i == b + c.span || s[c.Slot(i)].key == KEY_NULL then []
    else (if SimFits(c, s, b, i) then [s[c.Slot(i)].key] else []) + CriticalKeys(c, s, b, i + 1)
  }

  function SplitKey(c: Config, s: Leaf, k: Key): (sk: Key)
    requires c.Valid() && |s| == c.span
  {
    var xs := SortKeys(CriticalKeys(c, s, c.Home(k), c.Home(k)) + [k]);
    xs[|xs| / 2]
  }

  /** x is the key of a critical slot at or after i. */
  ghost predicate IsCritical(c: Config, s: Leaf, b: nat, i: int, q: int, x: Key)
    requires c.Valid() && |s| == c.span && b < c.span && b <= i
  {
    && i <= q < b + c.span && s[c.Slot(q)].key == x && x != KEY_NULL && SimFits(c, s, b, q)
    && Occupied(c, s, i, q)
  }

  /** Every critical key is in the list. */
  lemma {:induction false} CriticalKeysListed(c: Config, s: Leaf, b: nat, i: int, q: int, x: Key)
    requires c.Valid() && |s| == c.span && b < c.span && b <= i <= b + c.span && IsCritical(c, s, b, i, q, x)
    ensures x in CriticalKeys(c, s, b, i)
    decreases b + c.span - i
  {
    hide SimFits;
    if i < q {
      assert s[c.Slot(i)].key != KEY_NULL;
      CriticalKeysListed(c, s, b, i + 1, q, x);
    }
  }

  lemma {:induction false} CriticalKeysAre(c: Config, s: Leaf, b: nat, i: int)
    requires c.Valid() && |s| == c.span && b < c.span && b <= i <= b + c.span && Distinct(s)
    ensures forall x :: x in CriticalKeys(c, s, b, i) ==> exists q :: IsCritical(c, s, b, i, q, x)
    ensures NoDup(CriticalKeys(c, s, b, i))
    decreases b + c.span - i
  {
    if i < b + c.span && s[c.Slot(i)].key != KEY_NULL {
      CriticalKeysAre(c, s, b, i + 1);
      var rest := CriticalKeys(c, s, b, i + 1);
      forall x | x in rest ensures x != s[c.Slot(i)].key && exists q :: IsCritical(c, s, b, i, q, x) {
        var q :| IsCritical(c, s, b, i + 1, q, x);
        assert IsCritical(c, s, b, i, q, x);
      }
      if SimFits(c, s, b, i) {
        assert IsCritical(c, s, b, i, i, s[c.Slot(i)].key);
        assert forall m :: 0 <= m < |rest| ==> rest[m] in rest;
      }
    }
  }

  ghost function Elements(xs: seq<Key>): (e: set<Key>) {
    set x | x in xs
  }

  ghost function Below(e: set<Key>, k: Key): (r: set<Key>) {
    set x | x in e && x < k
  }

  lemma {:induction false} ElementsOf(ys: seq<Key>)
    requires Increasing(ys)
    ensures |Elements(ys)| == |ys|
  {
    if ys != [] {
      var n := |ys| - 1;
      ElementsOf(ys[..n]);
      assert ys == ys[..n] + [ys[n]];
      assert Elements(ys) == Elements(ys[..n]) + {ys[n]};
    }
  }

  /** Of a duplicate-free list, the sorted list has exactly i keys below its key i. */
  lemma RankOf(xs: seq<Key>, i: nat)
    requires NoDup(xs) && i < |xs|
    ensures |SortKeys(xs)| == |xs| && SortKeys(xs)[i] in xs
    ensures |Elements(xs)| == |xs| && |Below(Elements(xs), SortKeys(xs)[i])| == i
  {
    hide SortKeys;
    SortKeysIs(xs);
    var ys := SortKeys(xs);
    assert ys[i] in ys;
    ElementsOf(ys);
    ElementsOf(ys[..i]);
    assert Elements(xs) == Elements(ys);
    forall x ensures x in Below(Elements(xs), ys[i]) <==> x in Elements(ys[..i]) {
      if x in ys && x < ys[i] {
        var j :| 0 <= j < |ys| && ys[j] == x;
        assert ys[..i][j] == x;
      }
      if x in ys[..i] {
        var j :| 0 <= j < i && ys[..i][j] == x;
        assert ys[j] == x && ys[j] in ys;
      }
    }
    assert Below(Elements(xs), ys[i]) == Elements(ys[..i]);
  }

  /** The keys the split key is chosen from: those that would make room for k, and k itself. */
  ghost function Candidates(c: Config, s: Leaf, k: Key): (xs: set<Key>)
    requires c.Valid() && |s| == c.span
  {
    (set q | c.Home(k) <= q < c.Home(k) + c.span && IsCritical(c, s, c.Home(k), c.Home(k), q, s[c.Slot(q)].key)
       :: s[c.Slot(q)].key) + {k}
  }

  lemma CandidatesListed(c: Config, s: Leaf, k: Key)
    requires c.Valid() && |s| == c.span && Distinct(s)
    ensures Candidates(c, s, k) == Elements(CriticalKeys(c, s, c.Home(k), c.Home(k)) + [k])
  {
    hide CriticalKeys, SimFits;
    var b := c.Home(k);
    var cs := CriticalKeys(c, s, b, b);
    CriticalKeysAre(c, s, b, b);
    forall x ensures x in Candidates(c, s, k) <==> x in cs + [k] {
      if x in Candidates(c, s, k) && x != k {
        var q :| b <= q < b + c.span && IsCritical(c, s, b, b, q, s[c.Slot(q)].key) && x == s[c.Slot(q)].key;
        CriticalKeysListed(c, s, b, b, q, x);
      }
      if x in cs {
        var q :| IsCritical(c, s, b, b, q, x);
      }
    }
  }

  /** The split key is the median of the candidates: half of them lie below it. */
  lemma SplitKeyIsMedian(c: Config, s: Leaf, k: Key)
    requires c.Valid() && |s| == c.span && Distinct(s) && !Has(s, k)
    ensures var xs, sk := Candidates(c, s, k), SplitKey(c, s, k);
            sk in xs && |Below(xs, sk)| == |xs| / 2
  {
    hide CriticalKeys, SortKeys, Candidates, SimFits;
    var b := c.Home(k);
    var cs := CriticalKeys(c, s, b, b);
    CriticalKeysAre(c, s, b, b);
    CandidatesListed(c, s, k);
    assert k !in cs;
    var xs := cs + [k];
    assert NoDup(xs) by { assert forall m :: 0 <= m < |cs| ==> cs[m] in cs; }
    SortKeysIs(xs);
    RankOf(xs, |xs| / 2);
  }

  /** The median of cs and k, and a key of cs on the other side of it than k. */
  lemma MedianSplits(cs: seq<Key>, k: Key) returns (x: Key)
    requires cs != [] && NoDup(cs) && k !in cs
    ensures var sk := SortKeys(cs + [k])[(|cs| + 1) / 2];
            x in cs && (k < sk <==> x >= sk) && (sk == k || sk in cs)
  {
    assert forall m :: 0 <= m < |cs| ==> cs[m] in cs;
    SortKeysIs(cs + [k]);
    var ys := SortKeys(cs + [k]);
    var sk := ys[|ys| / 2];
    assert sk in ys && ys[0] in ys && ys[0] < sk;
    x := if k < sk then sk else ys[0];
  }

  /** There are critical keys, and the chosen key always leaves, on the side k goes to, a freed slot from which
      hopping succeeds. */
  lemma SplitKeyFreesSlot(c: Config, s: Leaf, k: Key) returns (q: int)
    requires c.Valid() && |s| == c.span && Distinct(s)
    requires k != KEY_NULL && !Has(s, k) && s[c.Home(k)].key != KEY_NULL
    ensures CriticalKeys(c, s, c.Home(k), c.Home(k)) != []
    ensures c.Home(k) <= q < c.Home(k) + c.span && s[c.Slot(q)].key != KEY_NULL
    ensures Occupied(c, s, c.Home(k), q)
    ensures SimFits(c, s, c.Home(k), q)
    ensures k < SplitKey(c, s, k) <==> s[c.Slot(q)].key >= SplitKey(c, s, k)
    ensures SplitKey(c, s, k) == k || SplitKey(c, s, k) in Keys(s)
  {
    var b := c.Home(k);
    CriticalKeysAre(c, s, b, b);
    var cs := CriticalKeys(c, s, b, b);
    assert cs[0] == s[b].key;
    var x := MedianSplits(cs, k);
    q :| IsCritical(c, s, b, b, q, x);
    var sk := SplitKey(c, s, k);
    if sk != k {
      var q' :| IsCritical(c, s, b, b, q', sk);
    }
  }

  // ---------------------------------------------------------------- the two halves

  /** Among the first n slots, the keys from sk on move to the sibling. */
  predicate Moves(s: Leaf, sk: Key, n: nat, m: int)
    requires 0 <= m < |s|
  {
    m < n && s[m].key != KEY_NULL && s[m].key >= sk
  }

  /** The leaf that stays (low) or the sibling (!low) after the first n slots were dealt with; every
      key keeps its slot. */
  function HalfUpTo(c: Config, s: Leaf, sk: Key, low: bool, n: nat): (r: Leaf)
    requires c.Valid() && |s| == c.span && (forall i :: 0 <= i < |s| ==> |s[i].hop| == c.neighbor)
    ensures |r| == c.span && forall i :: 0 <= i < c.span ==> |r[i].hop| == c.neighbor
  {
    seq(c.span, i requires 0 <= i < c.span =>
      LeafEntry(if Moves(s, sk, n, i) == low then KEY_NULL else s[i].key,
                if Moves(s, sk, n, i) == low then VALUE_NULL else s[i].value,
                seq(c.neighbor, z requires 0 <= z < c.neighbor =>
                  s[i].hop[z] && Moves(s, sk, n, c.Slot(i + z)) != low)))
  }

  function Half(c: Config, s: Leaf, sk: Key, low: bool): (r: Leaf)
    requires c.Valid() && |s| == c.span && (forall i :: 0 <= i < |s| ==> |s[i].hop| == c.neighbor)
    ensures |r| == c.span && forall i :: 0 <= i < c.span ==> |r[i].hop| == c.neighbor
  {
    HalfUpTo(c, s, sk, low, c.span)
  }

  predicate Keeps(sk: Key, low: bool, k: Key) {
    k != KEY_NULL && (k < sk) == low
  }

  lemma HalfKeeps(c: Config, s: Leaf, sk: Key, low: bool)
    requires HopInv(c, s)
    ensures HopInv(c, Half(c, s, sk, low))
  {
    var r := Half(c, s, sk, low);
    forall p, z | 0 <= p < c.span && 0 <= z < c.neighbor
      ensures r[p].hop[z] <==> HomedAt(c, r[c.Slot(p + z)], p)
    {
      assert s[p].hop[z] <==> HomedAt(c, s[c.Slot(p + z)], p);
    }
  }

  /** r holds exactly the keys of s that belong to the half, each in its slot. */
  ghost predicate HalfOf(s: Leaf, sk: Key, low: bool, r: Leaf) {
    |r| == |s| && forall i :: 0 <= i < |s| ==>
      if Keeps(sk, low, s[i].key) then r[i].key == s[i].key && r[i].value == s[i].value else r[i].key == KEY_NULL
  }

  lemma HalfOfContents(s: Leaf, sk: Key, low: bool, r: Leaf)
    requires Distinct(s) && Distinct(r) && HalfOf(s, sk, low, r)
    ensures Contents(r) == map x | x in Contents(s) && Keeps(sk, low, x) :: Contents(s)[x]
  {}

  lemma HalfLacks(c: Config, s: Leaf, sk: Key, low: bool, k: Key)
    requires Shape(c, s) && k != KEY_NULL && !Has(s, k)
    ensures !Has(Half(c, s, sk, low), k)
  {
  }

  /** A leaf thinned out so that a slot where hopping would succeed is empty takes the key. */
  lemma ThinnedFits(c: Config, s: Leaf, t: Leaf, b: nat, q: int, k: Key, v: Value)
    requires HopInv(c, s) && HopInv(c, t) && b == c.Home(k) && b <= q < b + c.span && Occupied(c, s, b, q)
    requires forall i :: 0 <= i < c.span ==> t[i].key == s[i].key || t[i].key == KEY_NULL
    requires t[c.Slot(q)].key == KEY_NULL && SimFits(c, s, b, q)
    ensures LeafInsert(c, t, k, v, c.span).Some?
  {
    var e := FirstEmpty(c, t, b, b + c.span);
    assert e <= q && HoleAt(c, t, b, e);
    assert LeafInsert(c, t, k, v, c.span) == HopTo(c, t, b, e, k, v);
    assert SameKeys(c, s, t, b, e);
    SimFitsDownward(c, s, b, e, q);
    SimIsReal(c, s, t, b, e, k, v);
  }

  /** The split always makes room: on its own side, the key that did not fit now does. */
  lemma SplitMakesRoom(c: Config, s: Leaf, k: Key, v: Value)
    requires HopInv(c, s) && k != KEY_NULL && !Has(s, k) && LeafInsert(c, s, k, v, c.span).None?
    ensures LeafInsert(c, Half(c, s, SplitKey(c, s, k), k < SplitKey(c, s, k)), k, v, c.span).Some?
  {
    var sk := SplitKey(c, s, k);
    var q := SplitKeyFreesSlot(c, s, k);
    HalfKeeps(c, s, sk, k < sk);
    ThinnedFits(c, s, Half(c, s, sk, k < sk), c.Home(k), q, k, v);
  }

  // ---------------------------------------------------------------- the whole split

  datatype Halves = Halves(left: Leaf, right: Leaf)

  /** hopscotch_split_and_unlock up to the metadata; None stands for its failing assert. */
  function SplitLeaf(c: Config, s: Leaf, k: Key, v: Value): (r: Option<Halves>)
    requires c.Valid() && |s| == c.span && (forall i :: 0 <= i < |s| ==> |s[i].hop| == c.neighbor)
  {
    var sk := SplitKey(c, s, k);
    var left, right := Half(c, s, sk, true), Half(c, s, sk, false);
    match LeafInsert(c, if k < sk then left else right, k, v, c.span)
    case None => None
    case Some(t) => Some(if k < sk then Halves(t, right) else Halves(left, t))
  }

  /** The maps of the two halves of m at sk. */
  ghost function Cut(m: map<Key, Value>, sk: Key, low: bool): map<Key, Value> {
    map x | x in m && Keeps(sk, low, x) :: m[x]
  }

  lemma SplitLeafHalves(c: Config, s: Leaf, k: Key, v: Value)
    requires HopInv(c, s) && k != KEY_NULL && !Has(s, k) && LeafInsert(c, s, k, v, c.span).None?
    ensures SplitLeaf(c, s, k, v).Some?
    ensures var r := SplitLeaf(c, s, k, v).value; HopInv(c, r.left) && HopInv(c, r.right)
    ensures var r, sk := SplitLeaf(c, s, k, v).value, SplitKey(c, s, k);
            && Contents(r.left) == Cut(Contents(s)[k := v], sk, true)
            && Contents(r.right) == Cut(Contents(s)[k := v], sk, false)
  {
    var sk := SplitKey(c, s, k);
    SplitMakesRoom(c, s, k, v);
    SplitSide(c, s, sk, true, k, v);
    SplitSide(c, s, sk, false, k, v);
  }

  lemma CutUpdate(m: map<Key, Value>, k: Key, v: Value, sk: Key, low: bool)
    requires k !in m && k != KEY_NULL
    ensures Cut(m[k := v], sk, low) == if (k < sk) == low then Cut(m, sk, low)[k := v] else Cut(m, sk, low)
  {
  }

  lemma HalfContents(c: Config, s: Leaf, sk: Key, low: bool)
    requires HopInv(c, s)
    ensures HopInv(c, Half(c, s, sk, low)) && Contents(Half(c, s, sk, low)) == Cut(Contents(s), sk, low)
  {
    HalfKeeps(c, s, sk, low);
    HalfOfContents(s, sk, low, Half(c, s, sk, low));
  }

  /** One side of a split, with k added if it belongs there. */
  lemma SplitSide(c: Config, s: Leaf, sk: Key, low: bool, k: Key, v: Value)
    requires HopInv(c, s) && k != KEY_NULL && !Has(s, k)
    requires (k < sk) == low ==> LeafInsert(c, Half(c, s, sk, low), k, v, c.span).Some?
    ensures (k < sk) == low ==>
              var t := LeafInsert(c, Half(c, s, sk, low), k, v, c.span).value;
              HopInv(c, t) && Contents(t) == Cut(Contents(s)[k := v], sk, low)
    ensures (k < sk) != low ==>
              var t := Half(c, s, sk, low);
              HopInv(c, t) && Contents(t) == Cut(Contents(s)[k := v], sk, low)
  {
    HalfContents(c, s, sk, low);
    KeysAt(s, k);
    CutUpdate(Contents(s), k, v, sk, low);
    if (k < sk) == low {
      HalfLacks(c, s, sk, low, k);
      LeafInsertKeeps(c, Half(c, s, sk, low), k, v, c.span);
    }
  }

  lemma CutsPartition(m: map<Key, Value>, sk: Key)
    requires KEY_NULL !in m
    ensures Cut(m, sk, true) + Cut(m, sk, false) == m
    ensures Cut(m, sk, true).Keys !! Cut(m, sk, false).Keys
  {
  }

  lemma FailedInsertHome(c: Config, s: Leaf, k: Key, v: Value)
    requires Shape(c, s) && LeafInsert(c, s, k, v, c.span).None?
    ensures s[c.Home(k)].key != KEY_NULL
  {
  }

  lemma CutsInhabited(c: Config, s: Leaf, k: Key, v: Value)
    requires c.Valid() && |s| == c.span && Distinct(s)
    requires k != KEY_NULL && !Has(s, k) && s[c.Home(k)].key != KEY_NULL
    ensures Cut(Contents(s)[k := v], SplitKey(c, s, k), true) != map[]
    ensures Cut(Contents(s)[k := v], SplitKey(c, s, k), false) != map[]
  {
    var sk := SplitKey(c, s, k);
    var q := SplitKeyFreesSlot(c, s, k);
    ContentsAt(s, c.Slot(q));
    assert s[c.Slot(q)].key in Cut(Contents(s)[k := v], sk, !(k < sk));
    assert k in Cut(Contents(s)[k := v], sk, k < sk);
  }

  /** Splitting conserves: two exact leaves whose disjoint union is the old leaf plus k, neither of
      them empty, divided at the split key. */
  lemma SplitConserves(c: Config, s: Leaf, k: Key, v: Value)
    requires HopInv(c, s) && k != KEY_NULL && !Has(s, k) && LeafInsert(c, s, k, v, c.span).None?
    ensures SplitLeaf(c, s, k, v).Some?
    ensures var r := SplitLeaf(c, s, k, v).value;
            && HopInv(c, r.left) && HopInv(c, r.right)
            && Contents(r.left) + Contents(r.right) == Contents(s)[k := v]
            && Contents(r.left).Keys !! Contents(r.right).Keys
            && Contents(r.left) != map[] && Contents(r.right) != map[]
    ensures var r, sk := SplitLeaf(c, s, k, v).value, SplitKey(c, s, k);
            && (forall x :: x in Contents(r.left) ==> x < sk)
            && (forall x :: x in Contents(r.right) ==> x >= sk)
  {
    SplitLeafHalves(c, s, k, v);
    KeysAt(s, KEY_NULL);
    CutsPartition(Contents(s)[k := v], SplitKey(c, s, k));
    FailedInsertHome(c, s, k, v);
    CutsInhabited(c, s, k, v);
  }
}
