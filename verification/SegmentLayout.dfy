/** Segments of a versioned node: the raw range a run of entries occupies, how segments tile the
    encoded node, and why writing one encoded segment is exactly the right patch. */
module SegmentLayout {

  import opened VersionLayout

  // ---------------------------------------------------------------- line boundaries

  /** The first line boundary at or after a, counting from boundary i. */
  function NextFrom(f: Frame, i: nat, a: nat): (b: nat)
    requires f.Valid()
    ensures b >= a && b >= i && (i >= a ==> b == i)
    decreases a - i
  {
    if i >= a then i else NextFrom(f, i + f.block, a)
  }

  function NextLine(f: Frame, a: nat): (b: nat)
    requires f.Valid()
    ensures b >= a && b >= f.first
  {
    NextFrom(f, f.first, a)
  }

  lemma {:induction false} NextFromCompose(f: Frame, i: nat, a: nat, y: nat)
    requires f.Valid() && a <= y
    ensures NextFrom(f, NextFrom(f, i, a), y) == NextFrom(f, i, y)
    decreases a - i
  {
    if i < a { NextFromCompose(f, i + f.block, a, y); }
  }

  /** The number of version bytes before decoded offset x, counting from boundary i. */
  function LinesBefore(f: Frame, i: nat, x: nat): (n: nat)
    requires f.Valid()
    decreases x - i
  {
    if i >= x then 0 else 1 + LinesBefore(f, i + f.block, x)
  }

  /** The raw offset at which the encoding of decoded offset x starts. */
  function RawOffset(f: Frame, x: nat): (r: nat)
    requires f.Valid()
  {
    x + LinesBefore(f, f.first, x)
  }

  // ---------------------------------------------------------------- encoding a range

  function RangeBlocks(f: Frame, d: seq<Byte>, i: nat, z: nat): (r: seq<Byte>)
    requires f.Valid() && |d| == f.size && z <= f.size
    ensures |r| == if i >= z then 0 else z - i + LinesBefore(f, i, z)
    decreases z - i
  {
    if i >= z then []
    else [d[f.owner(i)]] + d[i..Min(i + f.block, z)] + RangeBlocks(f, d, i + f.block, z)
  }

  /** The raw bytes of the decoded range [a, z). */
  function EncodeRange(f: Frame, d: seq<Byte>, a: nat, z: nat): (r: seq<Byte>)
    requires f.Valid() && |d| == f.size && a <= z <= f.size
  {
    d[a..Min(NextLine(f, a), z)] + RangeBlocks(f, d, NextLine(f, a), z)
  }

  lemma Regroup(h: seq<Byte>, r: seq<Byte>, m: seq<Byte>, t: seq<Byte>)
    ensures h + (r + m + t) == (h + r) + m + t
    ensures h + (m + t) == h + [] + m + t == h + m + t
  {
  }

  lemma RangeBlocksStep(f: Frame, d: seq<Byte>, i: nat, z: nat)
    requires f.Valid() && |d| == f.size && z <= f.size
    ensures i >= z ==> RangeBlocks(f, d, i, z) == []
    ensures i < z ==>
              RangeBlocks(f, d, i, z) ==
              ([d[f.owner(i)]] + d[i..Min(i + f.block, z)]) + RangeBlocks(f, d, i + f.block, z)
  {
  }

  lemma {:induction false} RangeBlocksSplit(f: Frame, d: seq<Byte>, i: nat, y: nat, z: nat)
    requires f.Valid() && |d| == f.size && i <= y <= z <= f.size
    ensures var b := NextFrom(f, i, y);
            RangeBlocks(f, d, i, z) == RangeBlocks(f, d, i, y) + d[y..Min(b, z)] + RangeBlocks(f, d, b, z)
    decreases z - i
  {
    hide RangeBlocks;
    var e := i + f.block;
    RangeBlocksStep(f, d, i, y);
    RangeBlocksStep(f, d, i, z);
    if i == y {
      assert d[y..Min(i, z)] == [];
    } else if e <= y {
      var b := NextFrom(f, i, y);
      RangeBlocksSplit(f, d, e, y, z);
      Regroup([d[f.owner(i)]] + d[i..e], RangeBlocks(f, d, e, y), d[y..Min(b, z)], RangeBlocks(f, d, b, z));
    } else {
      assert d[i..Min(e, z)] == d[i..y] + d[y..Min(e, z)];
      RangeBlocksStep(f, d, e, y);
      Regroup([d[f.owner(i)]], d[i..y], d[y..Min(e, z)], RangeBlocks(f, d, e, z));
    }
  }

  /** Adjacent ranges tile: no gap, no overlap. */
  lemma EncodeRangeSplit(f: Frame, d: seq<Byte>, a: nat, y: nat, z: nat)
    requires f.Valid() && |d| == f.size && a <= y <= z <= f.size
    ensures EncodeRange(f, d, a, z) == EncodeRange(f, d, a, y) + EncodeRange(f, d, y, z)
  {
    hide RangeBlocks, NextLine, NextFrom;
    var b, b' := NextLine(f, a), NextLine(f, y);
    NextLineCompose(f, a, y);
    if b >= y {
      assert d[a..Min(b, z)] == d[a..y] + d[y..Min(b, z)];
      RangeBlocksStep(f, d, b, y);
      Regroup(d[a..y], [], d[y..Min(b, z)], RangeBlocks(f, d, b, z));
    } else {
      RangeBlocksSplit(f, d, b, y, z);
      Regroup(d[a..b], RangeBlocks(f, d, b, y), d[y..Min(b', z)], RangeBlocks(f, d, b', z));
    }
  }

  lemma NextLineCompose(f: Frame, a: nat, y: nat)
    requires f.Valid() && a <= y
    ensures NextFrom(f, NextLine(f, a), y) == NextLine(f, y)
    ensures NextLine(f, a) >= y ==> NextLine(f, y) == NextLine(f, a)
  {
    NextFromCompose(f, f.first, a, y);
  }

  // ---------------------------------------------------------------- segments

  /** Decoded offsets a and z are object boundaries. */
  ghost predicate Aligned(f: Frame, a: nat, z: nat) {
    && a <= z <= f.size
    && (forall x :: a <= x < z ==> a <= f.owner(x))
    && (forall x :: z <= x < f.size ==> z <= f.owner(x))
  }

  /** The bytes [a, z) of f as a frame of their own. */
  function Segment(f: Frame, a: nat, z: nat): (g: Frame)
    requires f.Valid() && a <= z
  {
    Frame(z - a, Min(NextLine(f, a), z) - a, f.block, j => if f.owner(a + j) >= a then f.owner(a + j) - a else 0)
  }

  lemma SegmentValid(f: Frame, a: nat, z: nat)
    requires f.Valid() && Aligned(f, a, z)
    ensures Segment(f, a, z).Valid()
    ensures f.Contiguous() ==> Segment(f, a, z).Contiguous()
  {}

  /** A segment of a node with one node version has that version. */
  lemma SegmentVersion(f: Frame, d: seq<Byte>, a: nat, z: nat, v: nat)
    requires f.Valid() && |d| == f.size && Aligned(f, a, z) && OneNodeVersion(f, d, v)
    ensures OneNodeVersion(Segment(f, a, z), d[a..z], v)
  {
    hide NodeVersion;
    var g := Segment(f, a, z);
    forall o | 0 <= o < g.size && g.owner(o) == o
      ensures NodeVersion(d[a..z][o]) == v
    {
      assert f.owner(a + o) == a + o;
    }
  }

  lemma SliceOfSlice(d: seq<Byte>, a: nat, z: nat, i: nat, e: nat)
    requires a <= i <= e <= z <= |d|
    ensures d[a..z][i - a..e - a] == d[i..e]
  {
    var s, t := d[a..z][i - a..e - a], d[i..e];
    forall x | 0 <= x < e - i ensures s[x] == t[x] {
      assert s[x] == d[a..z][i - a + x] == d[i + x];
    }
  }

  lemma {:induction false} SegmentBlocks(f: Frame, d: seq<Byte>, a: nat, z: nat, i: nat)
    requires f.Valid() && |d| == f.size && Aligned(f, a, z) && a <= i && Segment(f, a, z).Valid()
    ensures Blocks(Segment(f, a, z), d[a..z], i - a) == RangeBlocks(f, d, i, z)
    decreases z - i
  {
    hide Blocks, RangeBlocks;
    var g := Segment(f, a, z);
    BlocksStep(g, d[a..z], i - a);
    RangeBlocksStep(f, d, i, z);
    if i < z {
      SegmentBlocks(f, d, a, z, i + f.block);
      SliceOfSlice(d, a, z, i, Min(i + f.block, z));
      assert d[a..z][g.owner(i - a)] == d[f.owner(i)];
    }
  }

  /** Encoding a segment by itself gives the raw bytes of its range. */
  lemma SegmentEncode(f: Frame, d: seq<Byte>, a: nat, z: nat)
    requires f.Valid() && |d| == f.size && Aligned(f, a, z)
    ensures Segment(f, a, z).Valid() && Encode(Segment(f, a, z), d[a..z]) == EncodeRange(f, d, a, z)
  {
    hide RangeBlocks, Blocks;
    SegmentValid(f, a, z);
    var g := Segment(f, a, z);
    var b := Min(NextLine(f, a), z);
    assert d[a..z][..g.first] == d[a..b];
    SegmentBlocks(f, d, a, z, b);
    RangeBlocksStep(f, d, NextLine(f, a), z);
    RangeBlocksStep(f, d, b, z);
  }

  lemma {:induction false} BlocksAreRange(f: Frame, d: seq<Byte>, i: nat)
    requires f.Valid() && |d| == f.size
    ensures Blocks(f, d, i) == RangeBlocks(f, d, i, f.size)
    decreases f.size - i
  {
    if i < f.size { BlocksAreRange(f, d, i + f.block); }
  }

  lemma EncodeIsRange(f: Frame, d: seq<Byte>)
    requires f.Valid() && |d| == f.size
    ensures Encode(f, d) == EncodeRange(f, d, 0, f.size)
  {
    BlocksAreRange(f, d, f.first);
    assert NextLine(f, 0) == f.first;
  }

  /** The encoded node is the encodings of any three consecutive ranges in a row. */
  lemma Tiling(f: Frame, d: seq<Byte>, a: nat, z: nat)
    requires f.Valid() && |d| == f.size && a <= z <= f.size
    ensures Encode(f, d) == EncodeRange(f, d, 0, a) + EncodeRange(f, d, a, z) + EncodeRange(f, d, z, f.size)
    ensures |EncodeRange(f, d, 0, a)| == RawOffset(f, a)
    ensures |EncodeRange(f, d, a, z)| == RawOffset(f, z) - RawOffset(f, a)
  {
    hide EncodeRange;
    EncodeIsRange(f, d);
    EncodeRangeSplit(f, d, 0, z, f.size);
    EncodeRangeSplit(f, d, 0, a, z);
    RangeLength(f, d, a);
    RangeLength(f, d, z);
  }

  lemma RangeLength(f: Frame, d: seq<Byte>, x: nat)
    requires f.Valid() && |d| == f.size && x <= f.size
    ensures |EncodeRange(f, d, 0, x)| == RawOffset(f, x)
  {}

  lemma {:induction false} RangeBlocksSame(f: Frame, d: seq<Byte>, d': seq<Byte>, a: nat, i: nat, z: nat)
    requires f.Valid() && |d| == f.size == |d'| && a <= i && z <= f.size
    requires forall x :: a <= x < z ==> d[x] == d'[x] && a <= f.owner(x)
    ensures RangeBlocks(f, d, i, z) == RangeBlocks(f, d', i, z)
    decreases z - i
  {
    hide RangeBlocks;
    RangeBlocksStep(f, d, i, z);
    RangeBlocksStep(f, d', i, z);
    if i < z {
      RangeBlocksSame(f, d, d', a, i + f.block, z);
      assert d[i..Min(i + f.block, z)] == d'[i..Min(i + f.block, z)];
    }
  }

  lemma EncodeRangeSame(f: Frame, d: seq<Byte>, d': seq<Byte>, a: nat, z: nat)
    requires f.Valid() && |d| == f.size == |d'| && a <= z <= f.size
    requires forall x :: a <= x < z ==> d[x] == d'[x] && a <= f.owner(x)
    ensures EncodeRange(f, d, a, z) == EncodeRange(f, d', a, z)
  {
    RangeBlocksSame(f, d, d', a, NextLine(f, a), z);
    assert d[a..Min(NextLine(f, a), z)] == d'[a..Min(NextLine(f, a), z)];
  }

  /** raw with the bytes from offset r on replaced by w. */
  function Overwrite(raw: seq<Byte>, r: nat, w: seq<Byte>): (raw': seq<Byte>)
    requires r + |w| <= |raw|
  {
    raw[..r] + w + raw[r + |w|..]
  }

  /** Writing the encoded segment over its raw range is exactly re-encoding the updated node. */
  lemma SegmentWriteIsPatch(f: Frame, d: seq<Byte>, d': seq<Byte>, a: nat, z: nat)
    requires f.Valid() && |d| == f.size == |d'| && Aligned(f, a, z)
    requires forall x :: 0 <= x < f.size && !(a <= x < z) ==> d[x] == d'[x]
    ensures Segment(f, a, z).Valid()
    ensures var w := Encode(Segment(f, a, z), d'[a..z]);
            && |w| == RawOffset(f, z) - RawOffset(f, a)
            && RawOffset(f, a) + |w| <= |Encode(f, d)|
            && Overwrite(Encode(f, d), RawOffset(f, a), w) == Encode(f, d')
  {
    hide Encode, EncodeRange, RawOffset;
    Tiling(f, d, a, z);
    Tiling(f, d', a, z);
    SegmentEncode(f, d', a, z);
    EncodeRangeSame(f, d, d', 0, a);
    EncodeRangeSame(f, d, d', z, f.size);
  }

  /** Reading the raw range of a segment and decoding it gives the entries of that segment. */
  lemma SegmentReadIsSlice(f: Frame, d: seq<Byte>, a: nat, z: nat)
    requires f.Valid() && |d| == f.size && Aligned(f, a, z)
    ensures Segment(f, a, z).Valid() && RawOffset(f, a) <= RawOffset(f, z) <= |Encode(f, d)|
    ensures var g, raw := Segment(f, a, z), Encode(f, d)[RawOffset(f, a)..RawOffset(f, z)];
            |raw| == g.first + BlocksLen(g, g.first) && LinesPass(g, raw) && Decoded(g, raw) == d[a..z]
  {
    hide Encode, EncodeRange, RawOffset;
    Tiling(f, d, a, z);
    SegmentEncode(f, d, a, z);
    RoundTrip(Segment(f, a, z), d[a..z]);
  }

  /** The raw length of a segment frame. */
  lemma SegmentRawLength(f: Frame, a: nat, z: nat)
    requires f.Valid() && Aligned(f, a, z)
    ensures Segment(f, a, z).Valid()
    ensures RawOffset(f, z) - RawOffset(f, a) ==
            Segment(f, a, z).first + BlocksLen(Segment(f, a, z), Segment(f, a, z).first)
  {
    hide Encode, EncodeRange, RawOffset, BlocksLen;
    var d: seq<Byte> := seq(f.size, _ => 0);
    Tiling(f, d, a, z);
    SegmentEncode(f, d, a, z);
    RoundTrip(Segment(f, a, z), d[a..z]);
  }
}
