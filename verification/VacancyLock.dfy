/** The vacancy-aware lock word of a leaf: one bit per bucket of slots and the index of the greatest
    key. A clear bit promises an empty slot in its bucket; inserters use it to read part of a leaf. */
module VacancyLock {

  import opened Common
  import opened Division
  import opened Hopscotch

  /** span slots are spread over bits buckets (vacancyMapBit). */
  datatype Buckets = Buckets(span: nat, bits: nat) {
    predicate Valid() {
      0 < bits <= span
    }
  }

  /** find_bucket: floor(idx / (span / bits)), on exact rationals. */
  function FindBucket(g: Buckets, idx: nat): (b: nat)
    requires g.Valid() && idx < g.span
    ensures b < g.bits
  {
    idx * g.bits / g.span % g.bits
  }

  /** The first slot of bucket b: b * span / bits rounded up. */
  function First(g: Buckets, b: nat): (idx: nat)
    requires g.Valid() && b <= g.bits
  {
    b * g.span / g.bits + if g.span * b % g.bits != 0 then 1 else 0
  }

  /** The last slot of bucket b, cut off at the end of the leaf. */
  function Last(g: Buckets, b: nat): (idx: int)
    requires g.Valid() && b < g.bits
  {
    var r := First(g, b + 1) - 1;
    if r >= g.span then g.span - 1 else r
  }

  // ---------------------------------------------------------------- buckets

  lemma FirstIsCeil(g: Buckets, b: nat, idx: nat)
    requires g.Valid() && b <= g.bits
    ensures First(g, b) <= idx <==> b * g.span <= idx * g.bits
  {
    var x, d := b * g.span, g.bits;
    assert g.span * b == x && idx * g.bits == d * idx;
    DivMul(x, d);
    assert x == d * (x / d) + x % d;
    MulSteps(d, idx, x / d);
    MulSteps(d, x / d, idx);
  }

  lemma FindIsFloor(g: Buckets, b: nat, idx: nat)
    requires g.Valid() && idx < g.span
    ensures FindBucket(g, idx) == idx * g.bits / g.span < g.bits
    ensures b <= FindBucket(g, idx) <==> b * g.span <= idx * g.bits
  {
    var x := idx * g.bits;
    assert x < g.span * g.bits by {
      MulSteps(g.bits, idx, g.span);
      assert x == g.bits * idx && g.span * g.bits == g.bits * g.span;
    }
    var q := x / g.span;
    DivGe(x, g.span, g.bits);
    DivGe(x, g.span, b);
    SmallRemainder(q, g.bits);
    assert b * g.span == g.span * b;
  }

  lemma SmallRemainder(x: nat, d: nat)
    requires x < d
    ensures x % d == x
  {
    DivIs(x, d, 0);
  }

  /** find_bucket and get_idx_range_in_bucket are inverse: every slot lies in exactly the bucket whose
      range covers it, every bucket has a slot, and the cut-off is never needed. */
  lemma BucketsInverse(g: Buckets, idx: nat, b: nat)
    requires g.Valid() && idx < g.span && b < g.bits
    ensures FindBucket(g, idx) == b <==> First(g, b) <= idx <= Last(g, b)
    ensures 0 <= First(g, b) <= Last(g, b) < g.span && Last(g, b) == First(g, b + 1) - 1
  {
    FindIsFloor(g, b, idx);
    FindIsFloor(g, b + 1, idx);
    FirstIsCeil(g, b, idx);
    FirstIsCeil(g, b + 1, idx);
    BucketInhabited(g, b);
  }

  lemma BucketInhabited(g: Buckets, b: nat)
    requires g.Valid() && b < g.bits
    ensures 0 <= First(g, b) < First(g, b + 1) <= g.span
  {
    hide First;
    var f := First(g, b);
    assert (b + 1) * g.span == b * g.span + g.span;
    FirstIsCeil(g, b + 1, f);
    assert f * g.bits < b * g.span + g.bits by {
      if f > 0 {
        FirstIsCeil(g, b, f - 1);
        assert (f - 1) * g.bits == f * g.bits - g.bits;
      } else {
        assert b * g.span >= 0;
      }
    }
    assert (b + 1) * g.span <= g.span * g.bits by {
      MulSteps(g.span, b + 1, g.bits);
      assert (b + 1) * g.span == g.span * (b + 1);
    }
    FirstIsCeil(g, b + 1, g.span);
  }

  lemma FirstBounds(g: Buckets, b: nat)
    requires g.Valid() && b <= g.bits
    ensures b * g.span <= g.bits * First(g, b) < b * g.span + g.bits
  {
    hide First;
    var f := First(g, b);
    FirstIsCeil(g, b, f);
    assert g.bits * f == f * g.bits;
    if f > 0 {
      FirstIsCeil(g, b, f - 1);
      assert (f - 1) * g.bits == f * g.bits - g.bits;
    }
  }

  lemma QuotientGap(d: nat, x: nat, s: nat, f: nat, f': nat, n: nat)
    requires d > 0 && x <= d * f < x + d && x + s <= d * f' < x + s + d && d * n <= s < d * n + d
    ensures n <= f' - f <= n + 1
  {
    MulSteps(d, f', f);
    MulSteps(d, f' - f, n);
    MulSteps(d, n, 1);
    MulSteps(d, n + 1, f' - f);
    MulSteps(d, n + 1, 1);
  }

  /** Buckets are of equal size, up to one slot. */
  lemma BucketsBalanced(g: Buckets, b: nat)
    requires g.Valid() && b < g.bits
    ensures g.span / g.bits <= Last(g, b) - First(g, b) + 1 <= g.span / g.bits + 1
  {
    hide First;
    BucketInhabited(g, b);
    FirstBounds(g, b);
    FirstBounds(g, b + 1);
    DivMul(g.span, g.bits);
    assert (b + 1) * g.span == b * g.span + g.span;
    QuotientGap(g.bits, b * g.span, g.span, First(g, b), First(g, b + 1), g.span / g.bits);
  }

  // ---------------------------------------------------------------- the bitmap

  ghost predicate BucketHasHole(g: Buckets, s: Leaf, b: nat)
    requires g.Valid() && |s| == g.span
  {
    exists i :: 0 <= i < g.span && FindBucket(g, i) == b && s[i].key == KEY_NULL
  }

  /** A clear bit promises an empty slot in its bucket. */
  ghost predicate Sound(g: Buckets, bitmap: seq<bool>, s: Leaf) {
    && g.Valid() && |bitmap| == g.bits && |s| == g.span
    && forall b :: 0 <= b < g.bits && !bitmap[b] ==> BucketHasHole(g, s, b)
  }

  /** The buckets from lb to rb, around the end of the bitmap if lb is beyond rb. */
  predicate InSweep(lb: nat, rb: nat, i: nat) {
    if lb <= rb then lb <= i <= rb else i <= rb || lb <= i
  }

  predicate HasBucket(g: Buckets, empties: seq<nat>, b: nat)
    requires g.Valid() && forall m :: 0 <= m < |empties| ==> empties[m] < g.span
  {
    exists m :: 0 <= m < |empties| && FindBucket(g, empties[m]) == b
  }

  /** The bitmap after update_vacancy(l, r, empties). */
  function Swept(g: Buckets, bitmap: seq<bool>, l: nat, r: nat, empties: seq<nat>): (bitmap': seq<bool>)
    requires g.Valid() && |bitmap| == g.bits && l < g.span && r < g.span
    requires forall m :: 0 <= m < |empties| ==> empties[m] < g.span
    ensures |bitmap'| == g.bits
  {
    seq(g.bits, b requires 0 <= b < g.bits =>
      !HasBucket(g, empties, b) && (InSweep(FindBucket(g, l), FindBucket(g, r), b) || bitmap[b]))
  }

  /** Slot i lies in the cyclic window from l to r. */
  predicate InWindow(l: nat, r: nat, i: nat) {
    if l <= r then l <= i <= r else i <= r || l <= i
  }

  /** Bucket b holds a slot of the window. */
  ghost predicate Touched(g: Buckets, l: nat, r: nat, b: nat)
    requires g.Valid()
  {
    exists i :: 0 <= i < g.span && InWindow(l, r, i) && FindBucket(g, i) == b
  }

  lemma FindMonotone(g: Buckets, i: nat, j: nat)
    requires g.Valid() && i <= j < g.span
    ensures FindBucket(g, i) <= FindBucket(g, j) < g.bits
  {
    FindIsFloor(g, FindBucket(g, i), i);
    FindIsFloor(g, FindBucket(g, i), j);
    assert i * g.bits <= j * g.bits;
  }

  /** The slots of a bucket between two slots of a window lie in that window. */
  lemma SweptIsTouched(g: Buckets, l: nat, r: nat, b: nat)
    requires g.Valid() && l < g.span && r < g.span && b < g.bits
    ensures !(r < l && FindBucket(g, l) == FindBucket(g, r)) ==>
              (InSweep(FindBucket(g, l), FindBucket(g, r), b) <==> Touched(g, l, r, b))
    ensures r < l && FindBucket(g, l) == FindBucket(g, r) ==>
              (InSweep(FindBucket(g, l), FindBucket(g, r), b) <==> b == FindBucket(g, l))
  {
    hide FindBucket, First, Last;
    if l <= r { FindMonotone(g, l, r); } else { FindMonotone(g, r, l); }
    if i :| 0 <= i < g.span && InWindow(l, r, i) && FindBucket(g, i) == b {
      if l <= i { FindMonotone(g, l, i); }
      if i <= r { FindMonotone(g, i, r); }
    }
    BucketInhabited(g, b);
    var i := First(g, b);
    BucketsInverse(g, i, b);
    if InSweep(FindBucket(g, l), FindBucket(g, r), b) {
      assert Touched(g, l, r, b) by {
        if b == FindBucket(g, l) {
          assert InWindow(l, r, l);
        } else if b == FindBucket(g, r) {
          assert InWindow(l, r, r);
        } else {
          if i < l { FindMonotone(g, i, l); } else { FindMonotone(g, l, i); }
          if i < r { FindMonotone(g, i, r); } else { FindMonotone(g, r, i); }
          assert InWindow(l, r, i);
        }
      }
    }
  }

  /** update_vacancy bucket by bucket: a bucket with a listed hole is cleared, another bucket of the window is
      set, and all others keep their bits. Only when a window goes around into the bucket it starts in is just
      that bucket set. */
  lemma SweptBits(g: Buckets, bitmap: seq<bool>, l: nat, r: nat, empties: seq<nat>, b: nat)
    requires g.Valid() && |bitmap| == g.bits && l < g.span && r < g.span && b < g.bits
    requires forall m :: 0 <= m < |empties| ==> empties[m] < g.span
    ensures var hole := exists m :: 0 <= m < |empties| && FindBucket(g, empties[m]) == b;
            var around := r < l && FindBucket(g, l) == FindBucket(g, r);
            var swept := if around then b == FindBucket(g, l) else Touched(g, l, r, b);
            Swept(g, bitmap, l, r, empties)[b] == if hole then false else if swept then true else bitmap[b]
  {
    hide FindBucket;
    SweptIsTouched(g, l, r, b);
  }

  /** A window whose only hole was filled: the sweep keeps the bitmap sound, wherever it wraps. */
  lemma SweepAfterInsert(g: Buckets, bitmap: seq<bool>, s: Leaf, s': Leaf, l: nat, r: nat)
    requires Sound(g, bitmap, s) && |s'| == g.span && l < g.span && r < g.span
    requires forall i :: 0 <= i < g.span && i != r && s[i].key == KEY_NULL ==> s'[i].key == KEY_NULL
    ensures Sound(g, Swept(g, bitmap, l, r, []), s')
  {}

  /** A sweep of the whole leaf with all its holes is exact: a bit is clear iff its bucket has a hole. */
  lemma SweepWholeLeaf(g: Buckets, bitmap: seq<bool>, s: Leaf, empties: seq<nat>)
    requires g.Valid() && |bitmap| == g.bits && |s| == g.span
    requires forall m :: 0 <= m < |empties| ==> empties[m] < g.span && s[empties[m]].key == KEY_NULL
    requires forall i :: 0 <= i < g.span && s[i].key == KEY_NULL ==> i in empties
    ensures Sound(g, Swept(g, bitmap, 0, g.span - 1, empties), s)
    ensures forall b :: 0 <= b < g.bits ==>
              (!Swept(g, bitmap, 0, g.span - 1, empties)[b] <==> BucketHasHole(g, s, b))
  {
    hide FindBucket;
    var bitmap' := Swept(g, bitmap, 0, g.span - 1, empties);
    EndBuckets(g);
    assert forall b :: 0 <= b < g.bits ==> (HasBucket(g, empties, b) <==> BucketHasHole(g, s, b));
  }

  lemma EndBuckets(g: Buckets)
    requires g.Valid()
    ensures FindBucket(g, 0) == 0 && FindBucket(g, g.span - 1) == g.bits - 1
  {
    BucketsInverse(g, 0, 0);
    BucketsInverse(g, g.span - 1, g.bits - 1);
    FirstIsCeil(g, g.bits, g.span - 1);
    assert First(g, 0) == 0;
    MulSteps(g.bits, g.span - 1, g.span);
  }

  // ---------------------------------------------------------------- how much to read

  /** The bucket i places after bucket b, around the end of the bitmap. */
  function Ahead(g: Buckets, b: nat, i: nat): (e: nat)
    requires g.Valid() && b < g.bits && i < g.bits
    ensures e < g.bits
  {
    if b + i < g.bits then b + i else b + i - g.bits
  }

  /** get_read_entry_num_from_bitmap, from the i-th candidate bucket on. */
  function ReadNum(g: Buckets, bitmap: seq<bool>, start: nat, i: nat): (n: nat)
    requires g.Valid() && |bitmap| == g.bits && start < g.span && i <= g.bits
    ensures 0 < n <= g.span
    decreases g.bits - i
  {
    if i == g.bits then g.span
    else
      var e := Ahead(g, FindBucket(g, start), i);
      if !bitmap[e] && start <= First(g, e) then
        BucketsInverse(g, start, e);
        Last(g, e) - start + 1
      else ReadNum(g, bitmap, start, i + 1)
  }

  /** With a sound bitmap the entries to read are the whole leaf or contain a hole. */
  lemma {:induction false} ReadHasHole(g: Buckets, bitmap: seq<bool>, s: Leaf, start: nat, i: nat)
    requires Sound(g, bitmap, s) && start < g.span && i <= g.bits
    ensures var n := ReadNum(g, bitmap, start, i);
            n == g.span || (start + n <= g.span && exists x :: start <= x < start + n && s[x].key == KEY_NULL)
    decreases g.bits - i
  {
    hide FindBucket, First, Last;
    if i < g.bits {
      var e := Ahead(g, FindBucket(g, start), i);
      if !bitmap[e] && start <= First(g, e) {
        var x :| 0 <= x < g.span && FindBucket(g, x) == e && s[x].key == KEY_NULL;
        BucketsInverse(g, x, e);
      } else {
        ReadHasHole(g, bitmap, s, start, i + 1);
      }
    }
  }

  /** A bucket whose bit is clear and all of whose slots are at or after start. */
  ghost predicate Usable(g: Buckets, bitmap: seq<bool>, start: nat, e: nat) {
    g.Valid() && |bitmap| == g.bits && e < g.bits && !bitmap[e] && start <= First(g, e)
  }

  lemma BucketOrder(g: Buckets, start: nat, e: nat, e': nat)
    requires g.Valid() && start < g.span && e < g.bits && e' < g.bits
    ensures start <= First(g, e) ==> FindBucket(g, start) <= e
    ensures e < e' ==> Last(g, e) < First(g, e') <= Last(g, e')
  {
    hide FindBucket;
    BucketsInverse(g, start, e);
    BucketsInverse(g, start, e');
    BucketsInverse(g, start, FindBucket(g, start));
    FirstMonotone(g, e, FindBucket(g, start));
    FirstMonotone(g, e, e');
  }

  lemma {:induction false} FirstMonotone(g: Buckets, b: nat, b': nat)
    requires g.Valid() && b <= g.bits && b' <= g.bits
    ensures b < b' ==> First(g, b + 1) <= First(g, b')
    decreases b'
  {
    if b + 1 < b' {
      FirstMonotone(g, b, b' - 1);
      BucketInhabited(g, b' - 1);
    }
  }

  lemma {:induction false} ReadNumFrom(g: Buckets, bitmap: seq<bool>, start: nat, i: nat)
    requires g.Valid() && |bitmap| == g.bits && start < g.span && i <= g.bits
    ensures var n, s := ReadNum(g, bitmap, start, i), FindBucket(g, start);
            && (forall e :: s + i <= e && Usable(g, bitmap, start, e) ==> n <= Last(g, e) - start + 1)
            && (n == g.span || exists e :: Usable(g, bitmap, start, e) && n == Last(g, e) - start + 1)
    decreases g.bits - i
  {
    hide FindBucket, First, Last;
    if i < g.bits {
      var s := FindBucket(g, start);
      var e := Ahead(g, s, i);
      BucketOrder(g, start, e, e);
      if Usable(g, bitmap, start, e) {
        forall e' | s + i <= e' && Usable(g, bitmap, start, e') ensures Last(g, e) <= Last(g, e') {
          BucketOrder(g, start, e, e');
        }
      } else {
        ReadNumFrom(g, bitmap, start, i + 1);
      }
    }
  }

  /** The read ends with the first usable bucket; without one it is the whole leaf. */
  lemma ReadNumIs(g: Buckets, bitmap: seq<bool>, start: nat)
    requires g.Valid() && |bitmap| == g.bits && start < g.span
    ensures var n := ReadNum(g, bitmap, start, 0);
            && (forall e :: Usable(g, bitmap, start, e) ==> n <= Last(g, e) - start + 1)
            && (n == g.span || exists e :: Usable(g, bitmap, start, e) && n == Last(g, e) - start + 1)
  {
    hide FindBucket, First, Last;
    ReadNumFrom(g, bitmap, start, 0);
    forall e | Usable(g, bitmap, start, e) ensures FindBucket(g, start) <= e {
      BucketOrder(g, start, e, e);
    }
  }

  // ---------------------------------------------------------------- the lock word

  class LockWord {
    const g: Buckets
    var bitmap: seq<bool>
    var maxKeyIdx: nat

    ghost predicate Valid()
      reads this
    {
      g.Valid() && |bitmap| == g.bits
    }

    constructor (g: Buckets, maxKeyIdx: nat)
      requires g.Valid()
      ensures Valid() && this.g == g && this.maxKeyIdx == maxKeyIdx && bitmap == seq(g.bits, _ => false)
    {
      this.g := g;
      this.maxKeyIdx := maxKeyIdx;
      bitmap := seq(g.bits, _ => false);
    }

    /** Set the bits lo, ..., hi. */
    method SetBits(lo: nat, hi: int)
      requires Valid() && lo <= hi + 1 <= g.bits
      modifies this`bitmap
      ensures Valid()
      ensures forall b :: 0 <= b < g.bits ==> bitmap[b] == (lo <= b <= hi || old(bitmap)[b])
    {
      for i := lo to hi + 1
        invariant |bitmap| == g.bits
        invariant forall b :: 0 <= b < g.bits ==> bitmap[b] == (lo <= b < i || old(bitmap)[b])
      {
        bitmap := bitmap[i := true];
      }
    }

    /** update_vacancy; its asserts say that every listed hole lies in a swept bucket. */
    method UpdateVacancy(l: nat, r: nat, empties: seq<nat>)
      requires Valid() && l < g.span && r < g.span
      requires forall m :: 0 <= m < |empties| ==> empties[m] < g.span
      requires forall m :: 0 <= m < |empties| ==>
                 InSweep(FindBucket(g, l), FindBucket(g, r), FindBucket(g, empties[m]))
      modifies this`bitmap
      ensures Valid() && bitmap == Swept(g, old(bitmap), l, r, empties)
    {
      hide FindBucket;
      var lb, rb := FindBucket(g, l), FindBucket(g, r);
      if lb <= rb {
        SetBits(lb, rb);
      } else {
        SetBits(0, rb);
        SetBits(lb, g.bits - 1);
      }
      ghost var swept := bitmap;
      for m := 0 to |empties|
        invariant |bitmap| == g.bits
        invariant forall b :: 0 <= b < g.bits ==> bitmap[b] == (!HasBucket(g, empties[..m], b) && swept[b])
      {
        assert empties[..m + 1] == empties[..m] + [empties[m]];
        bitmap := bitmap[FindBucket(g, empties[m]) := false];
      }
      assert empties[..|empties|] == empties;
    }

    method UpdateMaxKeyIdx(i: nat)
      modifies this`maxKeyIdx
      ensures maxKeyIdx == i && (old(Valid()) ==> Valid())
    {
      maxKeyIdx := i;
    }

    /** get_read_entry_num_from_bitmap. */
    method GetReadEntryNum(start: nat) returns (n: nat)
      requires Valid() && start < g.span
      ensures n == ReadNum(g, bitmap, start, 0)
    {
      hide FindBucket, First, Last;
      var s := FindBucket(g, start);
      for i := 0 to g.bits
        invariant ReadNum(g, bitmap, start, 0) == ReadNum(g, bitmap, start, i)
      {
        WrapIsModulo(s + i, g.bits);
        var e := (s + i) % g.bits;
        if !bitmap[e] && start <= First(g, e) {
          BucketsInverse(g, start, e);
          var num := (Last(g, e) + g.span - start + 1) % g.span;
          WrapIsModulo(Last(g, e) - start + 1 + g.span, g.span);
          return if num != 0 then num else g.span;
        }
      }
      return g.span;
    }
  }

  lemma WrapIsModulo(x: nat, d: nat)
    requires 0 < d && x <= 2 * d
    ensures x % d == if x < d then x else if x < 2 * d then x - d else 0
  {}

  // ---------------------------------------------------------------- the greatest key

  ghost predicate IsMaxIdx(s: Leaf, m: nat) {
    m < |s| && s[m].key != KEY_NULL && forall i :: 0 <= i < |s| ==> s[i].key <= s[m].key
  }

  /** The index of the greatest key among the listed slots; best when none exceeds bestKey. */
  function GreatestOf(s: Leaf, idxes: seq<nat>, bestKey: Key, best: nat): (m: nat)
    requires forall x :: 0 <= x < |idxes| ==> idxes[x] < |s|
    ensures m == best || m in idxes
    ensures m != best ==> s[m].key > bestKey
    ensures forall x :: 0 <= x < |idxes| ==>
              s[idxes[x]].key <= bestKey || (m < |s| && s[idxes[x]].key <= s[m].key)
    decreases |idxes|
  {
    if idxes == [] then best
    else if s[idxes[0]].key > bestKey then GreatestOf(s, idxes[1..], s[idxes[0]].key, idxes[0])
    else GreatestOf(s, idxes[1..], bestKey, best)
  }

  /** The index the writer of a segment stores: looked for only if the greatest key may have hopped,
      and then only among the hopped slots. */
  function NewMaxIdx(s: Leaf, hopped: seq<nat>, m: nat): (m': nat)
    requires forall x :: 0 <= x < |hopped| ==> hopped[x] < |s|
  {
    if m in hopped then GreatestOf(s, hopped, KEY_NULL, m) else m
  }
}
