/** Pairs in key order, as std::sort with a comparison of keys leaves them. */
module KeyOrder {

  import opened Common

  datatype Keyed<V> = Keyed(key: Key, value: V)

  predicate HasKey<V>(ps: seq<Keyed<V>>, k: Key) {
    exists j :: 0 <= j < |ps| && ps[j].key == k
  }

  ghost predicate Ascending<V>(ps: seq<Keyed<V>>) {
    forall i, j :: 0 <= i < j < |ps| ==> ps[i].key < ps[j].key
  }

  ghost predicate Apart<V>(ps: seq<Keyed<V>>) {
    forall i, j :: 0 <= i < j < |ps| ==> ps[i].key != ps[j].key
  }

  /** m is the greatest key of the level at or below k. */
  ghost predicate IsFloor<T>(level: map<Key, T>, m: Key, k: Key) {
    m in level && m <= k && forall n :: n in level && n <= k ==> n <= m
  }

  /** The first index at or after i whose key is above k. */
  function Above<V>(rs: seq<Keyed<V>>, k: Key, i: nat): (r: nat)
    requires i <= |rs|
    ensures i <= r <= |rs|
    ensures forall j :: i <= j < r ==> rs[j].key <= k
    ensures r < |rs| ==> rs[r].key > k
    decreases |rs| - i
  {
    if i == |rs| || rs[i].key > k then i else Above(rs, k, i + 1)
  }

  ghost function KeysOf<V>(ps: seq<Keyed<V>>): (ks: set<Key>) {
    set i | 0 <= i < |ps| :: ps[i].key
  }

  ghost function KeysUnder<V>(ps: seq<Keyed<V>>, k: Key): (ks: set<Key>) {
    set x | x in KeysOf(ps) && x < k
  }

  lemma {:induction false} KeysCount<V>(ps: seq<Keyed<V>>)
    requires Ascending(ps)
    ensures |KeysOf(ps)| == |ps|
  {
    if ps != [] {
      var n := |ps| - 1;
      var qs := ps[..n];
      KeysCount(qs);
      assert forall i :: 0 <= i < n ==> qs[i] == ps[i];
      forall x ensures x in KeysOf(ps) <==> x in KeysOf(qs) + {ps[n].key} {
        if x in KeysOf(qs) {
          var i :| 0 <= i < n && qs[i].key == x;
          assert ps[i].key == x;
        }
      }
      assert KeysOf(ps) == KeysOf(qs) + {ps[n].key};
    }
  }

  /** In key order, m keys are under key m. */
  lemma RankIs<V>(ps: seq<Keyed<V>>, m: nat)
    requires Ascending(ps) && m < |ps|
    ensures |KeysUnder(ps, ps[m].key)| == m
  {
    var qs := ps[..m];
    assert forall i :: 0 <= i < m ==> qs[i] == ps[i];
    KeysCount(qs);
    forall x ensures x in KeysUnder(ps, ps[m].key) <==> x in KeysOf(qs) {
      if x in KeysOf(qs) {
        var i :| 0 <= i < m && qs[i].key == x;
        assert ps[i].key == x;
      }
    }
    assert KeysUnder(ps, ps[m].key) == KeysOf(qs);
  }

  function SortedInsert<V>(p: Keyed<V>, ps: seq<Keyed<V>>): (r: seq<Keyed<V>>)
    ensures |r| == |ps| + 1
  {
    if ps == [] || p.key < ps[0].key then [p] + ps else [ps[0]] + SortedInsert(p, ps[1..])
  }

  function SortPairs<V>(ps: seq<Keyed<V>>): (r: seq<Keyed<V>>)
    ensures |r| == |ps|
  {
    if ps == [] then [] else SortedInsert(ps[0], SortPairs(ps[1..]))
  }

  /** Every pair of ps is in qs. */
  ghost predicate Among<V>(ps: seq<Keyed<V>>, qs: seq<Keyed<V>>) {
    forall i :: 0 <= i < |ps| ==> ps[i] in qs
  }

  lemma AmongCons<V>(x: Keyed<V>, ps: seq<Keyed<V>>, qs: seq<Keyed<V>>, rs: seq<Keyed<V>>)
    requires Among(ps, [x] + qs) && Among(qs, rs)
    ensures Among(ps, [x] + rs)
  {}

  lemma AmongFirst<V>(x: Keyed<V>, ps: seq<Keyed<V>>, qs: seq<Keyed<V>>, rs: seq<Keyed<V>>)
    requires Among(ps, qs) && Among([x] + qs, rs)
    ensures Among([x] + ps, rs)
  {
    assert ([x] + qs)[0] == x;
    forall i | 0 <= i < |ps|
      ensures ps[i] in rs
    {
      var j :| 0 <= j < |qs| && qs[j] == ps[i];
      assert ([x] + qs)[j + 1] == ps[i];
    }
  }

  lemma AmongSwap<V>(x: Keyed<V>, y: Keyed<V>, ps: seq<Keyed<V>>, qs: seq<Keyed<V>>)
    requires Among(ps, [x] + qs)
    ensures Among([y] + ps, [x] + ([y] + qs))
  {}

  lemma AmongSwapBack<V>(x: Keyed<V>, y: Keyed<V>, ps: seq<Keyed<V>>, qs: seq<Keyed<V>>)
    requires Among([x] + qs, ps)
    ensures Among([x] + ([y] + qs), [y] + ps)
  {
    assert ([x] + qs)[0] == x;
    assert forall i :: 0 <= i < |qs| ==> ([x] + qs)[i + 1] == qs[i];
  }

  lemma {:induction false} SortedInsertAmong<V>(p: Keyed<V>, ps: seq<Keyed<V>>)
    ensures Among(SortedInsert(p, ps), [p] + ps) && Among([p] + ps, SortedInsert(p, ps))
  {
    if !(ps == [] || p.key < ps[0].key) {
      var y, qs := ps[0], ps[1..];
      hide Among;
      SortedInsertAmong(p, qs);
      AmongSwap(p, y, SortedInsert(p, qs), qs);
      AmongSwapBack(p, y, SortedInsert(p, qs), qs);
      assert [y] + qs == ps;
    }
  }

  lemma AscendingCons<V>(x: Keyed<V>, ps: seq<Keyed<V>>)
    requires Ascending(ps) && forall i :: 0 <= i < |ps| ==> x.key < ps[i].key
    ensures Ascending([x] + ps)
  {}

  lemma AllAbove<V>(y: Keyed<V>, p: Keyed<V>, qs: seq<Keyed<V>>, ts: seq<Keyed<V>>)
    requires Among(ts, [p] + qs) && y.key < p.key && forall j :: 0 <= j < |qs| ==> y.key < qs[j].key
    ensures forall j :: 0 <= j < |ts| ==> y.key < ts[j].key
  {
    forall j | 0 <= j < |ts|
      ensures y.key < ts[j].key
    {
      var i :| 0 <= i < |qs| + 1 && ([p] + qs)[i] == ts[j];
    }
  }

  lemma {:induction false} SortedInsertAscending<V>(p: Keyed<V>, ps: seq<Keyed<V>>)
    requires Ascending(ps) && !HasKey(ps, p.key)
    ensures Ascending(SortedInsert(p, ps))
  {
    if !(ps == [] || p.key < ps[0].key) {
      var y, qs := ps[0], ps[1..];
      assert y.key != p.key;
      assert forall j :: 0 <= j < |qs| ==> qs[j] == ps[j + 1];
      SortedInsertAscending(p, qs);
      SortedInsertAmong(p, qs);
      AllAbove(y, p, qs, SortedInsert(p, qs));
      AscendingCons(y, SortedInsert(p, qs));
    }
  }

  lemma {:induction false} SortPairsIs<V>(ps: seq<Keyed<V>>)
    requires Apart(ps)
    ensures Ascending(SortPairs(ps)) && Among(SortPairs(ps), ps) && Among(ps, SortPairs(ps))
  {
    if ps != [] {
      var x, t := ps[0], ps[1..];
      assert Apart(t) && forall j :: 0 <= j < |t| ==> t[j].key != x.key;
      SortPairsIs(t);
      var u := SortPairs(t);
      KeyAbsent(u, t, x.key);
      hide Among, Ascending, Apart;
      SortedInsertAscending(x, u);
      SortedInsertAmong(x, u);
      AmongCons(x, SortedInsert(x, u), u, t);
      AmongFirst(x, t, u, SortedInsert(x, u));
      assert [x] + t == ps;
    }
  }

  lemma KeyAbsent<V>(ps: seq<Keyed<V>>, qs: seq<Keyed<V>>, k: Key)
    requires Among(ps, qs) && forall j :: 0 <= j < |qs| ==> qs[j].key != k
    ensures !HasKey(ps, k)
  {}

  // ---------------------------------------------------------------- keys alone

  ghost predicate Increasing(xs: seq<Key>) {
    forall i, j :: 0 <= i < j < |xs| ==> xs[i] < xs[j]
  }

  ghost predicate NoDup(xs: seq<Key>) {
    forall i, j :: 0 <= i < j < |xs| ==> xs[i] != xs[j]
  }

  function Bare(xs: seq<Key>): (ps: seq<Keyed<()>>)
    ensures |ps| == |xs| && forall i :: 0 <= i < |xs| ==> ps[i] == Keyed(xs[i], ())
  {
    seq(|xs|, i requires 0 <= i < |xs| => Keyed(xs[i], ()))
  }

  function SortKeys(xs: seq<Key>): (r: seq<Key>)
    ensures |r| == |xs|
  {
    var ps := SortPairs(Bare(xs));
    seq(|ps|, i requires 0 <= i < |ps| => ps[i].key)
  }

  lemma SortKeysIs(xs: seq<Key>)
    requires NoDup(xs)
    ensures Increasing(SortKeys(xs)) && forall y :: y in SortKeys(xs) <==> y in xs
  {
    hide SortPairs;
    var ps, qs := Bare(xs), SortPairs(Bare(xs));
    SortPairsIs(ps);
    assert forall i :: 0 <= i < |xs| ==> SortKeys(xs)[i] == qs[i].key;
    KeysAmong(qs, ps, SortKeys(xs), xs);
    KeysAmong(ps, qs, xs, SortKeys(xs));
  }

  lemma KeysAmong<V>(ps: seq<Keyed<V>>, qs: seq<Keyed<V>>, xs: seq<Key>, ys: seq<Key>)
    requires Among(ps, qs) && |xs| == |ps| && |ys| == |qs|
    requires forall i :: 0 <= i < |ps| ==> xs[i] == ps[i].key
    requires forall i :: 0 <= i < |qs| ==> ys[i] == qs[i].key
    ensures forall y :: y in xs ==> y in ys
  {
    forall y | y in xs
      ensures y in ys
    {
      var i :| 0 <= i < |xs| && xs[i] == y;
      var j :| 0 <= j < |qs| && qs[j] == ps[i];
      assert ys[j] == y;
    }
  }
}
