/** Properties of whole hop paths: they stay inside the window between the home of the new key and
    the hole they start from, and they depend on that window only. */
module HopscotchPath {

  import opened Common
  import opened Hopscotch

  /** s and t agree on the logical slots lo, ..., hi - 1. */
  ghost predicate SameOn(c: Config, s: Leaf, t: Leaf, lo: int, hi: int) {
    && Shape(c, s) && Shape(c, t) && 0 <= lo && hi <= 2 * c.span
    && forall i :: lo <= i < hi ==> s[c.Slot(i)] == t[c.Slot(i)]
  }

  // ---------------------------------------------------------------- the window

  lemma MoveFrame(c: Config, s: Leaf, b: nat, h: int, z: int, j: int)
    requires Shape(c, s) && b < c.span && b + c.neighbor <= j < b + c.span && j - c.neighbor < h < j
    requires Movable(c, s, h, j, z)
    ensures b < h - z && SameOn(c, s, Move(c, s, h, z, j), j + 1, b + c.span)
    ensures forall i :: b <= i < h ==> Move(c, s, h, z, j)[c.Slot(i)].key == s[c.Slot(i)].key
    ensures forall i :: b <= i < b + c.span && i != h && i != j ==>
              Move(c, s, h, z, j)[c.Slot(i)].key == s[c.Slot(i)].key
    ensures Move(c, s, h, z, j)[c.Slot(j)].key == s[c.Slot(h)].key
  {
  }

  /** An insert from hole j touches nothing outside the window [b, j]. */
  lemma {:induction false} HopToFrame(c: Config, s: Leaf, b: nat, j: int, k: Key, v: Value)
    requires Shape(c, s) && b < c.span && b <= j < b + c.span
    requires HopTo(c, s, b, j, k, v).Some?
    ensures SameOn(c, s, HopTo(c, s, b, j, k, v).value, j + 1, b + c.span)
    decreases j - b
  {
    if j >= b + c.neighbor {
      var Hop(h, z) := FindHop(c, s, j, c.neighbor - 1);
      MoveFrame(c, s, b, h, z, j);
      HopToFrame(c, Move(c, s, h, z, j), b, h, k, v);
    }
  }

  ghost predicate SameBits(c: Config, s: Leaf, t: Leaf, lo: int, hi: int) {
    && Shape(c, s) && Shape(c, t) && 0 <= lo && hi <= 2 * c.span
    && forall i :: lo <= i < hi ==> s[c.Slot(i)].hop == t[c.Slot(i)].hop
  }

  lemma {:induction false} HomeDistanceCongruent(c: Config, s: Leaf, t: Leaf, b: nat, h: int, j: int, z: int)
    requires b < c.span && b + c.neighbor <= j < b + c.span && h < j && -1 <= z < c.neighbor
    requires SameBits(c, s, t, b, j + 1)
    ensures HomeDistance(c, s, h, j, z) == HomeDistance(c, t, h, j, z)
    decreases z + 1
  {
    if z >= 0 {
      HomeDistanceCongruent(c, s, t, b, h, j, z - 1);
    }
  }

  lemma {:induction false} FindHopCongruent(c: Config, s: Leaf, t: Leaf, b: nat, j: int, offset: nat)
    requires b < c.span && b + c.neighbor <= j < b + c.span && offset < c.neighbor
    requires SameBits(c, s, t, b, j + 1)
    ensures FindHop(c, s, j, offset) == FindHop(c, t, j, offset)
    decreases offset
  {
    if offset > 0 {
      HomeDistanceCongruent(c, s, t, b, j - offset, j, c.neighbor - 1);
      FindHopCongruent(c, s, t, b, j, offset - 1);
    }
  }

  lemma MoveCongruent(c: Config, s: Leaf, t: Leaf, b: nat, h: int, z: int, j: int)
    requires b < c.span && b + c.neighbor <= j < b + c.span && j - c.neighbor < h < j
    requires SameOn(c, s, t, b, j + 1)
    requires Movable(c, s, h, j, z) && Movable(c, t, h, j, z)
    ensures SameOn(c, Move(c, s, h, z, j), Move(c, t, h, z, j), b, j + 1)
  {
  }

  lemma PlaceCongruent(c: Config, s: Leaf, t: Leaf, b: nat, j: int, k: Key, v: Value)
    requires b < c.span && b <= j < b + c.neighbor && SameOn(c, s, t, b, j + 1)
    ensures SameOn(c, Place(c, s, b, j, k, v), Place(c, t, b, j, k, v), b, j + 1)
  {
  }

  lemma SameOnExtends(c: Config, s: Leaf, t: Leaf, s': Leaf, t': Leaf, b: nat, h: int, j: int)
    requires b < c.span && b <= h < j < b + c.span
    requires SameOn(c, s, t, b, j + 1) && SameOn(c, s', t', b, h + 1)
    requires SameOn(c, s, s', h + 1, b + c.span) && SameOn(c, t, t', h + 1, b + c.span)
    ensures SameOn(c, s', t', b, j + 1)
  {}

  /** Two leaves that agree on the window [b, j] give the same verdict, the same path and the same
      window after the insert. */
  lemma {:induction false} HopToCongruent(c: Config, s: Leaf, t: Leaf, b: nat, j: int, k: Key, v: Value)
    requires b < c.span && b <= j < b + c.span && SameOn(c, s, t, b, j + 1)
    ensures HopTo(c, s, b, j, k, v).Some? <==> HopTo(c, t, b, j, k, v).Some?
    ensures HopTo(c, s, b, j, k, v).Some? ==>
              SameOn(c, HopTo(c, s, b, j, k, v).value, HopTo(c, t, b, j, k, v).value, b, j + 1)
    ensures HopPath(c, s, b, j) == HopPath(c, t, b, j)
    decreases j - b
  {
    hide Move, Place, FindHop, Movable, HopTo, HopPath;
    HopUnfold(c, s, b, j, k, v);
    HopUnfold(c, t, b, j, k, v);
    if j < b + c.neighbor {
      PlaceCongruent(c, s, t, b, j, k, v);
    } else {
      FindHopCongruent(c, s, t, b, j, c.neighbor - 1);
      match FindHop(c, s, j, c.neighbor - 1)
      case NoHop =>
      case Hop(h, z) =>
        var s', t' := Move(c, s, h, z, j), Move(c, t, h, z, j);
        MoveCongruent(c, s, t, b, h, z, j);
        HopToCongruent(c, s', t', b, h, k, v);
        if HopTo(c, s', b, h, k, v).Some? {
          HopToFrame(c, s', b, h, k, v);
          HopToFrame(c, t', b, h, k, v);
          SameOnExtends(c, s', t', HopTo(c, s', b, h, k, v).value, HopTo(c, t', b, h, k, v).value, b, h, j);
        }
    }
  }

  // ---------------------------------------------------------------- one moved key per home

  /** Below the slot a hop starts from, every home is smaller than the home of the moved key. */
  lemma HomesBelow(c: Config, s: Leaf, b: nat, j: int, i: int)
    requires HopInv(c, s) && b < c.span && b + c.neighbor <= j < b + c.span
    requires FindHop(c, s, j, c.neighbor - 1).Hop? && b <= i < FindHop(c, s, j, c.neighbor - 1).from
    requires s[c.Slot(i)].key != KEY_NULL
    ensures LogicalHome(c, s, i) < LogicalHome(c, s, FindHop(c, s, j, c.neighbor - 1).from)
  {
    var Hop(h, z) := FindHop(c, s, j, c.neighbor - 1);
    MovableIsHome(c, s, b, h, j, z);
    if i > j - c.neighbor {
      MovableIff(c, s, b, i, j);
    }
  }

  predicate Changed(c: Config, s: Leaf, r: Leaf, i: int)
    requires c.Valid() && |s| == c.span == |r| && 0 <= i < 2 * c.span
  {
    s[c.Slot(i)].key != KEY_NULL && r[c.Slot(i)].key != s[c.Slot(i)].key
  }

  /** Along a path the homes of the moved keys strictly increase with the slot they leave, and all lie
      beyond the home of the new key: one insert moves at most one key per home. */
  ghost predicate HomesIncrease(c: Config, s: Leaf, r: Leaf, b: nat)
    requires c.Valid() && |s| == c.span == |r| && b < c.span
  {
    && (forall i :: b <= i < b + c.span && Changed(c, s, r, i) ==> b < LogicalHome(c, s, i))
    && (forall i, i' :: b <= i < i' < b + c.span && Changed(c, s, r, i) && Changed(c, s, r, i') ==>
          LogicalHome(c, s, i) < LogicalHome(c, s, i'))
  }

  lemma {:induction false} HopToHomes(c: Config, s: Leaf, b: nat, j: int, k: Key, v: Value)
    requires HoleAt(c, s, b, j) && HopTo(c, s, b, j, k, v).Some?
    ensures HomesIncrease(c, s, HopTo(c, s, b, j, k, v).value, b)
    decreases j - b
  {
    if j >= b + c.neighbor {
      var Hop(h, z) := FindHop(c, s, j, c.neighbor - 1);
      var t := Move(c, s, h, z, j);
      MovableIsHome(c, s, b, h, j, z);
      MoveKeeps(c, s, b, h, z, j);
      MoveFrame(c, s, b, h, z, j);
      HopToHomes(c, t, b, h, k, v);
      HopToFrame(c, t, b, h, k, v);
      forall i | b <= i < h && s[c.Slot(i)].key != KEY_NULL
        ensures LogicalHome(c, s, i) < LogicalHome(c, s, h)
      {
        HomesBelow(c, s, b, j, i);
      }
      HopStepHomes(c, s, t, HopTo(c, s, b, j, k, v).value, b, j, h);
    }
  }

  lemma HopStepHomes(c: Config, s: Leaf, t: Leaf, r: Leaf, b: nat, j: int, h: int)
    requires c.Valid() && |s| == c.span == |t| && b < c.span && b <= h < j < b + c.span
    requires s[c.Slot(j)].key == KEY_NULL && b < LogicalHome(c, s, h)
    requires forall i :: b <= i < h && s[c.Slot(i)].key != KEY_NULL ==>
               LogicalHome(c, s, i) < LogicalHome(c, s, h)
    requires forall i :: b <= i < b + c.span && i != h && i != j ==> t[c.Slot(i)].key == s[c.Slot(i)].key
    requires SameOn(c, t, r, h + 1, b + c.span) && HomesIncrease(c, t, r, b)
    ensures HomesIncrease(c, s, r, b)
  {
    forall i | b <= i < b + c.span && Changed(c, s, r, i)
      ensures i <= h && (i < h ==> Changed(c, t, r, i) && LogicalHome(c, s, i) == LogicalHome(c, t, i))
    {
    }
  }

  // ---------------------------------------------------------------- the slots of a path

  /** A path starts at its hole and lists slots of the window only. */
  lemma {:induction false} HopPathSlots(c: Config, s: Leaf, b: nat, j: int)
    requires HoleAt(c, s, b, j)
    ensures var p := HopPath(c, s, b, j);
            |p| > 0 && p[0] == c.Slot(j) &&
            forall x :: 0 <= x < |p| ==> p[x] < c.span && c.Off(b, p[x]) <= j - b
    decreases j - b
  {
    hide BitsExact, NearHome, Distinct, Move, FindHop, HopTo, HopPath;
    HopUnfold(c, s, b, j, 0, 0);
    if j >= b + c.neighbor && FindHop(c, s, j, c.neighbor - 1).Hop? {
      var Hop(h, z) := FindHop(c, s, j, c.neighbor - 1);
      MoveKeeps(c, s, b, h, z, j);
      HopPathSlots(c, Move(c, s, h, z, j), b, h);
    }
  }

  /** The hole only moves backwards, so no slot occurs twice on a path. */
  lemma {:induction false} HopPathDistinct(c: Config, s: Leaf, b: nat, j: int)
    requires HoleAt(c, s, b, j)
    ensures var p := HopPath(c, s, b, j); forall x, y :: 0 <= x < y < |p| ==> p[x] != p[y]
    decreases j - b
  {
    hide BitsExact, NearHome, Distinct, Move;
    if j >= b + c.neighbor {
      match FindHop(c, s, j, c.neighbor - 1)
      case NoHop =>
      case Hop(h, z) =>
        MoveKeeps(c, s, b, h, z, j);
        HopPathDistinct(c, Move(c, s, h, z, j), b, h);
        HopPathSlots(c, Move(c, s, h, z, j), b, h);
    }
  }

  /** The window of a finished path has no hole left. */
  lemma {:induction false} HopToFills(c: Config, s: Leaf, b: nat, j: int, k: Key, v: Value)
    requires HoleAt(c, s, b, j) && HopTo(c, s, b, j, k, v).Some? && k != KEY_NULL
    requires forall i :: b <= i < j ==> s[c.Slot(i)].key != KEY_NULL
    ensures forall i :: b <= i <= j ==> HopTo(c, s, b, j, k, v).value[c.Slot(i)].key != KEY_NULL
    decreases j - b
  {
    hide BitsExact, NearHome, Distinct, Move, FindHop, HopTo, Movable;
    HopUnfold(c, s, b, j, k, v);
    if j >= b + c.neighbor {
      var Hop(h, z) := FindHop(c, s, j, c.neighbor - 1);
      var t := Move(c, s, h, z, j);
      MoveKeeps(c, s, b, h, z, j);
      MoveFrame(c, s, b, h, z, j);
      HopToFills(c, t, b, h, k, v);
      HopToFrame(c, t, b, h, k, v);
    }
  }

  /** Every key that is not in a slot of the path stays where it was; the new key is in the last one. */
  lemma {:induction false} HopPathCovers(c: Config, s: Leaf, b: nat, j: int, k: Key, v: Value)
    requires HoleAt(c, s, b, j) && HopTo(c, s, b, j, k, v).Some?
    ensures var p, r := HopPath(c, s, b, j), HopTo(c, s, b, j, k, v).value;
            && (forall i :: 0 <= i < c.span && i !in p ==> r[i].key == s[i].key && r[i].value == s[i].value)
            && |p| > 0 && p[|p| - 1] < c.span && r[p[|p| - 1]].key == k && r[p[|p| - 1]].value == v
    decreases j - b
  {
    hide BitsExact, NearHome, Distinct, Move, FindHop, HopTo, HopPath, Movable;
    HopUnfold(c, s, b, j, k, v);
    if j < b + c.neighbor {
      assert Place(c, s, b, j, k, v)[c.Slot(j)].key == k;
    } else {
      var Hop(h, z) := FindHop(c, s, j, c.neighbor - 1);
      var t := Move(c, s, h, z, j);
      MoveKeeps(c, s, b, h, z, j);
      MoveEffect(c, s, b, h, z, j);
      HopPathSlots(c, t, b, h);
      HopPathCovers(c, t, b, h, k, v);
    }
  }

  /** Conversely, every slot of the path gets another key: the path is exactly the slots that change. */
  lemma {:induction false} HopPathChanges(c: Config, s: Leaf, b: nat, j: int, k: Key, v: Value, i: nat)
    requires HoleAt(c, s, b, j) && HopTo(c, s, b, j, k, v).Some? && c.Home(k) == b && k != KEY_NULL && !Has(s, k)
    requires i in HopPath(c, s, b, j)
    ensures i < c.span && HopTo(c, s, b, j, k, v).value[i].key != s[i].key
    decreases j - b
  {
    hide BitsExact, NearHome, Move, FindHop, HopTo, HopPath, Movable;
    HopUnfold(c, s, b, j, k, v);
    HopToKeeps(c, s, b, j, k, v);
    if j < b + c.neighbor {
      assert Place(c, s, b, j, k, v)[c.Slot(j)].key == k;
    } else {
      var Hop(h, z) := FindHop(c, s, j, c.neighbor - 1);
      var t, r := Move(c, s, h, z, j), HopTo(c, s, b, j, k, v).value;
      MoveKeeps(c, s, b, h, z, j);
      MoveEffect(c, s, b, h, z, j);
      MovableIsHome(c, s, b, h, j, z);
      StillAbsent(c, s, t, k);
      HopToFrame(c, t, b, h, k, v);
      assert r[c.Slot(j)].key == s[c.Slot(h)].key;
      if i != c.Slot(j) && i != c.Slot(h) {
        HopPathChanges(c, t, b, h, k, v, i);
      }
    }
  }

  lemma StillAbsent(c: Config, s: Leaf, t: Leaf, k: Key)
    requires Contents(t) == Contents(s) && k != KEY_NULL && !Has(s, k)
    ensures !Has(t, k)
  {
    hide Contents;
    KeysAt(s, k);
    KeysAt(t, k);
  }
}
