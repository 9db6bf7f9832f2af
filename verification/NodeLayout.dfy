/** The two concrete byte layouts of a node, flat (VersionManager) and grouped with replicated metadata
    (LeafVersionManager), as frames, together with the offset arithmetic of their segments. */
module NodeLayout {

  import opened Division
  import opened VersionLayout
  import opened SegmentLayout

  // ---------------------------------------------------------------- layouts

  /** meta is the size of the metadata in front of the first entry of a group, entry the size of an
      entry, group the number of entries per group, span the number of entries, line the cache line.
      A flat node is one group that holds all entries. */
  datatype Layout = Layout(meta: nat, entry: nat, group: nat, span: nat, line: nat) {
    predicate Valid() {
      0 < meta && 0 < entry && 0 < group && 0 < span && 1 < line
    }

    function GroupBytes(): (b: nat)
      ensures b >= meta
    {
      meta + group * entry
    }

    /** Metadata copies in front of the first i entries. */
    function Groups(i: nat): (n: nat)
      requires Valid()
    {
      Ceil(i, group)
    }

    /** The decoded offset of entry i, metadata in front of it included when it opens a group. */
    function Offset(i: nat): (x: nat)
      requires Valid()
    {
      meta * Groups(i) + entry * i
    }

    function Size(): (n: nat)
      requires Valid()
    {
      Offset(span)
    }

    /** The offset of the object that byte x lies in: the metadata of a group or an entry. */
    function Owner(x: nat): (o: nat)
      requires Valid()
      ensures o <= x
    {
      var b := FloorTo(x, GroupBytes());
      var r := x - b;
      if r < meta then b else b + meta + FloorTo(r - meta, entry)
    }

    function Framed(): (f: Frame)
      requires Valid()
    {
      Frame(Size(), Min(line, Size()), line - 1, x => Owner(x))
    }
  }

  lemma OwnerContiguous(l: Layout, x: nat, y: nat)
    requires l.Valid() && l.Owner(x) <= y <= x
    ensures l.Owner(y) == l.Owner(x)
  {
    hide FloorTo;
    var b := FloorTo(x, l.GroupBytes());
    FloorConvex(x, y, l.GroupBytes());
    if x - b >= l.meta {
      FloorConvex(x - b - l.meta, y - b - l.meta, l.entry);
    }
  }

  lemma FrameValid(l: Layout)
    requires l.Valid()
    ensures l.Framed().Valid() && l.Framed().Contiguous()
  {
    hide FloorTo;
    var f := l.Framed();
    forall x, y | 0 <= x < f.size && f.owner(x) <= y <= x ensures f.owner(y) == f.owner(x) {
      OwnerContiguous(l, x, y);
    }
  }

  lemma OwnerAt(l: Layout, b: nat, g: nat, r: nat)
    requires l.Valid() && b == l.GroupBytes() * g && r < l.GroupBytes()
    ensures l.Owner(b + r) == if r < l.meta then b else b + l.meta + FloorTo(r - l.meta, l.entry)
  {
    hide FloorTo;
    FloorIs(b + r, l.GroupBytes(), g);
  }

  /** Entry q of group g. */
  lemma EntryStart(l: Layout, g: nat, q: nat)
    requires l.Valid() && q < l.group
    ensures l.Owner(l.GroupBytes() * g) == l.GroupBytes() * g
    ensures l.Owner(l.GroupBytes() * g + l.meta + l.entry * q) == l.GroupBytes() * g + l.meta + l.entry * q
  {
    hide FloorTo;
    var e := l.entry * q;
    assert e + l.entry <= l.group * l.entry by {
      MulSteps(l.entry, q, l.group);
      assert l.entry * l.group == l.group * l.entry;
    }
    OwnerAt(l, l.GroupBytes() * g, g, 0);
    OwnerAt(l, l.GroupBytes() * g, g, l.meta + e);
    FloorIs(e, l.entry, q);
  }

  // ---------------------------------------------------------------- entry offsets

  /** The offset of entry i in the grouped structure, as the source takes it from the struct. */
  function StructOffset(l: Layout, i: nat): (x: nat)
    requires l.Valid()
  {
    if i % l.group != 0 then i / l.group * l.GroupBytes() + l.meta + i % l.group * l.entry
    else i / l.group * l.GroupBytes()
  }

  lemma StructOffsetIs(l: Layout, i: nat)
    requires l.Valid()
    ensures StructOffset(l, i) == l.Offset(i)
  {}

  lemma OffsetIsStart(l: Layout, i: nat)
    requires l.Valid()
    ensures l.Owner(l.Offset(i)) == l.Offset(i)
  {
    StructOffsetIs(l, i);
    EntryStart(l, i / l.group, i % l.group);
    assert i / l.group * l.GroupBytes() == l.GroupBytes() * (i / l.group);
    assert i % l.group * l.entry == l.entry * (i % l.group);
  }

  lemma CeilMonotone(x: nat, y: nat, d: nat)
    requires d > 0 && x <= y
    ensures Ceil(x, d) <= Ceil(y, d)
  {
    CeilBounds(x, d);
    CeilBounds(y, d);
    MulSteps(d, Ceil(y, d), Ceil(x, d));
  }

  lemma OffsetMonotone(l: Layout, i: nat, j: nat)
    requires l.Valid() && i <= j
    ensures l.Offset(i) <= l.Offset(j)
  {
    hide Ceil;
    CeilMonotone(i, j, l.group);
    MulSteps(l.meta, l.Groups(i), l.Groups(j));
    MulSteps(l.entry, i, j);
  }

  /** Object starts bound aligned ranges. */
  lemma StartsAlign(f: Frame, a: nat, z: nat)
    requires f.Valid() && f.Contiguous() && a <= z <= f.size
    requires (a < f.size ==> f.owner(a) == a) && (z < f.size ==> f.owner(z) == z)
    ensures Aligned(f, a, z)
  {
  }

  lemma OffsetsAlign(l: Layout, i: nat, j: nat)
    requires l.Valid() && i <= j <= l.span
    ensures l.Framed().Valid() && l.Framed().Contiguous() && Aligned(l.Framed(), l.Offset(i), l.Offset(j))
  {
    hide Ceil;
    FrameValid(l);
    OffsetIsStart(l, i);
    OffsetIsStart(l, j);
    OffsetMonotone(l, i, j);
    OffsetMonotone(l, j, l.span);
    StartsAlign(l.Framed(), l.Offset(i), l.Offset(j));
  }

  /** In the flat node all entries follow one metadata; the offset of entry i never includes it. */
  function FlatOffset(l: Layout, i: nat): (x: nat) {
    l.meta + l.entry * i
  }

  lemma FlatOffsetsAlign(l: Layout, i: nat, j: nat)
    requires l.Valid() && l.group == l.span && i <= j <= l.span
    ensures l.Framed().Valid() && l.Framed().Contiguous() && Aligned(l.Framed(), FlatOffset(l, i), FlatOffset(l, j))
  {
    hide Ceil;
    FrameValid(l);
    FlatSize(l);
    FlatStart(l, i);
    FlatStart(l, j);
    MulSteps(l.entry, i, j);
    MulSteps(l.entry, j, l.span);
    StartsAlign(l.Framed(), FlatOffset(l, i), FlatOffset(l, j));
  }

  lemma FlatSize(l: Layout)
    requires l.Valid() && l.group == l.span
    ensures l.Size() == FlatOffset(l, l.span)
  {}

  lemma FlatStart(l: Layout, i: nat)
    requires l.Valid() && l.group == l.span && i <= l.span
    ensures i < l.span ==> l.Owner(FlatOffset(l, i)) == FlatOffset(l, i)
  {
    if i < l.span {
      EntryStart(l, 0, i);
      assert l.GroupBytes() * 0 == 0;
    }
  }

  // ---------------------------------------------------------------- get_offset_info

  lemma {:induction false} LinesBeforeIs(f: Frame, i: nat, x: nat)
    requires f.Valid() && i <= x
    ensures LinesBefore(f, i, x) == Ceil(x - i, f.block)
    ensures NextFrom(f, i, x) == i + f.block * LinesBefore(f, i, x)
    decreases x - i
  {
    var n := LinesBefore(f, i, x);
    if i == x {
      CeilIs(0, f.block, 0);
    } else if i + f.block >= x {
      assert n == 1 && f.block * 1 == f.block;
      CeilIs(x - i, f.block, 1);
    } else {
      LinesBeforeIs(f, i + f.block, x);
      CeilBounds(x - i - f.block, f.block);
      MulSteps(f.block, n - 1, 1);
      CeilIs(x - i, f.block, n);
    }
  }

  datatype OffsetInfo = OffsetInfo(rawOffset: nat, rawLength: int, firstOffset: int)

  /** get_raw_distance: the raw length of a decoded distance beyond the first line. */
  function RawDistance(block: nat, len: int): (r: int)
    requires block > 0
  {
    if len <= 0 then len else len + Ceil(len, block)
  }

  /** get_offset_info for the decoded range [a, z). */
  function GetOffsetInfo(first: nat, block: nat, a: nat, z: nat): (r: OffsetInfo)
    requires block > 0 && a <= z
  {
    var len := RawDistance(block, z - first) - RawDistance(block, a - first);
    if a - first < 0 then OffsetInfo(a, len, Min(first - a, z - a))
    else
      var lines := Ceil(a - first, block);
      OffsetInfo(a + lines, len, Min(first + lines * block - a, z - a))
  }

  /** The computed offsets are the raw range of the segment and the distance to its first version. */
  lemma OffsetInfoIs(f: Frame, a: nat, z: nat)
    requires f.Valid() && a <= z <= f.size
    ensures var r := GetOffsetInfo(f.first, f.block, a, z);
            && r.rawOffset == RawOffset(f, a)
            && r.rawLength == RawOffset(f, z) - RawOffset(f, a)
            && r.firstOffset == Segment(f, a, z).first
  {
    hide Ceil;
    if a >= f.first { LinesBeforeIs(f, f.first, a); }
    if z >= f.first { LinesBeforeIs(f, f.first, z); }
    CeilIs(0, f.block, 0);
    assert a >= f.first ==> f.block * LinesBefore(f, f.first, a) == LinesBefore(f, f.first, a) * f.block;
  }

  /** A flat segment write is exactly the right patch, too. */
  lemma FlatSegmentWrite(l: Layout, d: seq<Byte>, d': seq<Byte>, start: nat, num: nat)
    requires l.Valid() && l.group == l.span && start + num <= l.span && |d| == l.Size() == |d'|
    requires forall x :: 0 <= x < l.Size() && !(FlatOffset(l, start) <= x < FlatOffset(l, start + num)) ==>
             d[x] == d'[x]
    ensures var f, a, z := l.Framed(), FlatOffset(l, start), FlatOffset(l, start + num);
            && f.Valid() && a <= z <= l.Size() && Segment(f, a, z).Valid()
    ensures var f, a, z := l.Framed(), FlatOffset(l, start), FlatOffset(l, start + num);
            var info, w := GetOffsetInfo(f.first, f.block, a, z), Encode(Segment(f, a, z), d'[a..z]);
            && info.rawLength == |w| && info.rawOffset + |w| <= |Encode(f, d)|
            && Overwrite(Encode(f, d), info.rawOffset, w) == Encode(f, d')
  {
    hide Encode, GetOffsetInfo, RawOffset, Overwrite, Ceil, FloorTo, Segment;
    var f, a, z := l.Framed(), FlatOffset(l, start), FlatOffset(l, start + num);
    FlatOffsetsAlign(l, start, start + num);
    OffsetInfoIs(f, a, z);
    SegmentWriteIsPatch(f, d, d', a, z);
  }

  // ---------------------------------------------------------------- where the bytes are

  /** Line q of the blocks from byte i on starts with data byte x, at raw offset at. */
  predicate LineAt(f: Frame, i: nat, q: nat, x: nat, at: nat) {
    x == i + f.block * q && at == (f.block + 1) * q
  }

  lemma LineStep(f: Frame, i: nat, q: nat, x: nat, at: nat)
    requires LineAt(f, i, q, x, at)
    ensures q == 0 ==> x == i && at == 0
    ensures q > 0 ==> i + f.block <= x && f.block + 1 <= at && LineAt(f, i + f.block, q - 1, x, at - (f.block + 1))
  {
    if q > 0 {
      MulSteps(f.block, q, 1);
      MulSteps(f.block + 1, q, 1);
    }
  }

  lemma {:induction false} BlocksAt(f: Frame, d: seq<Byte>, i: nat, q: nat, x: nat, at: nat, r: nat)
    requires f.Valid() && |d| == f.size && LineAt(f, i, q, x, at) && r < f.block && x + r < f.size
    ensures at + 1 + r < |Blocks(f, d, i)|
    ensures Blocks(f, d, i)[at] == d[f.owner(x)] && Blocks(f, d, i)[at + 1 + r] == d[x + r]
    decreases q
  {
    hide Blocks, LineAt;
    LineStep(f, i, q, x, at);
    BlocksStep(f, d, i);
    var head := [d[f.owner(i)]] + d[i..Min(i + f.block, f.size)];
    if q == 0 {
      assert Blocks(f, d, i)[0] == head[0] && Blocks(f, d, i)[1 + r] == head[1 + r];
    } else {
      BlocksAt(f, d, i + f.block, q - 1, x, at - (f.block + 1), r);
      assert |head| == f.block + 1;
    }
  }

  /** Every line behind the first holds the version of the object it starts in and then its data bytes; the
      first line has data bytes only. */
  lemma EncodedBytes(f: Frame, d: seq<Byte>, q: nat, x: nat, at: nat, r: nat)
    requires f.Valid() && |d| == f.size && LineAt(f, f.first, q, x, at)
    ensures r < f.first ==> r < |Encode(f, d)| && Encode(f, d)[r] == d[r]
    ensures r < f.block && x + r < f.size ==>
              && f.first + at + 1 + r < |Encode(f, d)|
              && Encode(f, d)[f.first + at] == d[f.owner(x)] && Encode(f, d)[f.first + at + 1 + r] == d[x + r]
  {
    hide Blocks, LineAt;
    if r < f.block && x + r < f.size {
      BlocksAt(f, d, f.first, q, x, at, r);
    }
  }
}
