/** Replicated leaf metadata: MetadataManager scatters one copy in front of every group of entries and
    gathers the entries back, for whole nodes and for segments that start anywhere in a group. */
module MetadataLayout {

  import opened Division
  import opened VersionLayout
  import opened SegmentLayout
  import opened NodeLayout

  // ---------------------------------------------------------------- offsets of a segment

  /** Bytes of entries before the first metadata copy of a segment of num entries from entry `start`. */
  function FirstMetadata(l: Layout, start: nat, num: nat): (n: nat)
    requires l.Valid()
  {
    Min((l.group - start % l.group) % l.group * l.entry, l.entry * num)
  }

  /** The length of the segment with its metadata copies. */
  function ScatteredLen(l: Layout, len: nat, fmo: nat): (n: nat)
    requires l.Valid() && fmo <= len
  {
    len + l.meta * Ceil(len - fmo, l.group * l.entry)
  }

  /** Entry `start` lies t entries before the start of group h. */
  ghost predicate BeforeGroup(l: Layout, start: nat, h: nat, t: nat) {
    l.Valid() && t < l.group && start + t == l.group * h
  }

  lemma NextGroup(l: Layout, start: nat) returns (h: nat, t: nat)
    requires l.Valid()
    ensures BeforeGroup(l, start, h, t) && h == l.Groups(start) && t == (l.group - start % l.group) % l.group
  {
    h, t := l.Groups(start), (l.group - start % l.group) % l.group;
    DivMul(start, l.group);
    var q := start % l.group;
    if q == 0 {
      DivIs(l.group, l.group, 1);
    } else {
      DivIs(l.group - q, l.group, 0);
      MulSteps(l.group, start / l.group, 1);
    }
  }

  lemma GroupsAfter(l: Layout, start: nat, num: nat, h: nat, t: nat)
    requires BeforeGroup(l, start, h, t)
    ensures num <= t ==> l.Groups(start + num) == h
    ensures num > t ==> l.Groups(start + num) == h + Ceil(num - t, l.group)
  {
    if num <= t {
      CeilIs(start + num, l.group, h);
    } else {
      var n := Ceil(num - t, l.group);
      CeilBounds(num - t, l.group);
      MulSteps(l.group, h, n);
      CeilIs(start + num, l.group, h + n);
    }
  }

  lemma CeilScale(x: nat, d: nat, e: nat)
    requires d > 0 && e > 0
    ensures d * e > 0 && Ceil(e * x, d * e) == Ceil(x, d)
  {
    var n := Ceil(x, d);
    CeilBounds(x, d);
    assert d * e > 0;
    assert d * e * n == e * (d * n);
    MulSteps(e, d * n - d, x);
    MulSteps(e, x, d * n);
    MulSteps(e, d * n, d);
    assert e * (d * n) - e * d < e * x <= e * (d * n);
    assert e * d == d * e;
    CeilIs(e * x, d * e, n);
  }

  lemma FirstMetadataIs(l: Layout, start: nat, num: nat, h: nat, t: nat)
    requires BeforeGroup(l, start, h, t) && t == (l.group - start % l.group) % l.group
    ensures FirstMetadata(l, start, num) == if num <= t then l.entry * num else l.entry * t
    ensures FirstMetadata(l, start, num) <= l.entry * num
  {
    MulSteps(l.entry, t, num);
    MulSteps(l.entry, num, t);
    assert t * l.entry == l.entry * t;
  }

  /** A segment has a copy of the metadata, which is what decode_segment_metadata reports, exactly when one
      of its entries opens a group. A segment that starts at entry 0 has one, and so has every segment of at
      least a group. */
  lemma HasCopyIff(l: Layout, start: nat, num: nat)
    requires l.Valid()
    ensures FirstMetadata(l, start, num) < l.entry * num <==> exists i :: start <= i < start + num && i % l.group == 0
    ensures num > 0 && (start == 0 || num >= l.group) ==> FirstMetadata(l, start, num) < l.entry * num
  {
    hide FirstMetadata;
    var h, t := NextGroup(l, start);
    FirstMetadataIs(l, start, num, h, t);
    MulSteps(l.entry, t, num);
    DivIs(start + t, l.group, h);
    if num > t {
      assert (start + t) % l.group == 0;
    }
    forall i | start <= i < start + t ensures i % l.group != 0 {
      assert h > 0 by { assert h == 0 ==> l.group * h == 0; }
      MulSteps(l.group, h, 1);
      DivIs(i, l.group, h - 1);
    }
    if start == 0 {
      DivIs(0, l.group, 0);
    }
  }

  /** The metadata manager's segment length is the version manager's decoded distance, for every start
      and count, whether or not the span is a multiple of the group. */
  lemma SegmentLengthsAgree(l: Layout, start: nat, num: nat)
    requires l.Valid()
    ensures FirstMetadata(l, start, num) <= l.entry * num
    ensures l.Offset(start + num) == l.Offset(start) + ScatteredLen(l, l.entry * num, FirstMetadata(l, start, num))
  {
    hide Ceil;
    var h, t := NextGroup(l, start);
    GroupsAfter(l, start, num, h, t);
    FirstMetadataIs(l, start, num, h, t);
    var y := if num <= t then 0 else num - t;
    CeilScale(y, l.group, l.entry);
    MulSteps(l.entry, num, t);
    MulSteps(l.entry, start, num);
    CeilIs(0, l.group, 0);
    MulSteps(l.meta, h, Ceil(y, l.group));
    assert l.entry * 0 == 0;
  }

  // ---------------------------------------------------------------- scatter and gather

  /** Offset of byte x of a scattered segment inside its group, and the number of copies up to it. */
  function InGroup(l: Layout, fmo: nat, x: nat): (r: nat)
    requires l.Valid() && fmo <= x
    ensures r < l.GroupBytes()
  {
    x - fmo - FloorTo(x - fmo, l.GroupBytes())
  }

  function Copies(l: Layout, fmo: nat, x: nat): (n: nat)
    requires l.Valid() && fmo <= x
  {
    (x - fmo) / l.GroupBytes() + 1
  }

  /** Byte x of the scattered form of the entry bytes e: a metadata byte or an entry byte. */
  function ScatteredByte(l: Layout, e: seq<Byte>, fmo: nat, meta: seq<Byte>, x: nat): (b: Byte)
    requires l.Valid() && |meta| == l.meta && fmo <= |e| && x < ScatteredLen(l, |e|, fmo)
  {
    if x < fmo then e[x]
    else if InGroup(l, fmo, x) < l.meta then meta[InGroup(l, fmo, x)]
    else
      EntryByteInRange(l, |e|, fmo, x);
      e[x - l.meta * Copies(l, fmo, x)]
  }

  lemma EntryByteInRange(l: Layout, len: nat, fmo: nat, x: nat)
    requires l.Valid() && fmo <= len && fmo <= x < ScatteredLen(l, len, fmo) && InGroup(l, fmo, x) >= l.meta
    ensures fmo <= x - l.meta * Copies(l, fmo, x) < len
    ensures x - l.meta * Copies(l, fmo, x) ==
            fmo + l.group * l.entry * ((x - fmo) / l.GroupBytes()) + InGroup(l, fmo, x) - l.meta
  {
    var G, P := l.GroupBytes(), l.group * l.entry;
    var y := x - fmo;
    var k, r := y / G, InGroup(l, fmo, x);
    assert y == G * k + r;
    assert G * k == l.meta * k + P * k by { assert G == l.meta + P; }
    MulSteps(l.meta, k, 1);
    var n := Ceil(len - fmo, P);
    assert P > 0;
    CeilBounds(len - fmo, P);
    if k >= n {
      MulSteps(l.meta, n, k + 1);
      MulSteps(P, n, k);
      assert false;
    }
    MulSteps(l.meta, k + 1, n);
    MulSteps(P, k + 1, n);
    MulSteps(P, k, 1);
  }

  /** encode_*_metadata. */
  function Scatter(l: Layout, e: seq<Byte>, fmo: nat, meta: seq<Byte>): (r: seq<Byte>)
    requires l.Valid() && |meta| == l.meta && fmo <= |e|
    ensures |r| == ScatteredLen(l, |e|, fmo)
  {
    seq(ScatteredLen(l, |e|, fmo), x requires 0 <= x < ScatteredLen(l, |e|, fmo) => ScatteredByte(l, e, fmo, meta, x))
  }

  /** Where entry byte p of a segment of len entry bytes lies in its scattered form. */
  function Spread(l: Layout, fmo: nat, p: nat): (x: nat)
    requires l.Valid()
  {
    if p < fmo then p else p + l.meta * ((p - fmo) / (l.group * l.entry) + 1)
  }

  /** A group with index k < Ceil(len - fmo, P) has entry bytes, and its offsets stay in range. */
  lemma GroupInRange(l: Layout, rest: nat, k: nat, q: nat)
    requires l.Valid() && q < l.group * l.entry && l.group * l.entry * k + q < rest
    ensures k + 1 <= Ceil(rest, l.group * l.entry)
    ensures l.meta * k + l.meta <= l.meta * Ceil(rest, l.group * l.entry)
    ensures l.GroupBytes() * k == l.meta * k + l.group * l.entry * k
  {
    var P := l.group * l.entry;
    var n := Ceil(rest, P);
    CeilBounds(rest, P);
    if n <= k {
      MulSteps(P, n, k);
      assert false;
    }
    MulSteps(l.meta, k + 1, n);
    MulSteps(l.meta, k, 1);
    assert l.GroupBytes() == l.meta + P;
  }

  lemma SpreadBack(l: Layout, len: nat, fmo: nat, p: nat)
    requires l.Valid() && fmo <= p < len
    ensures var x := Spread(l, fmo, p);
            && fmo <= x < ScatteredLen(l, len, fmo) && InGroup(l, fmo, x) >= l.meta
            && x - l.meta * Copies(l, fmo, x) == p
  {
    hide Ceil;
    var G, P := l.GroupBytes(), l.group * l.entry;
    assert P > 0;
    var k, q := (p - fmo) / P, (p - fmo) % P;
    DivMul(p - fmo, P);
    GroupInRange(l, len - fmo, k, q);
    assert l.meta * (k + 1) == l.meta * k + l.meta by { MulSteps(l.meta, k, 1); }
    DivIs(G * k + (l.meta + q), G, k);
  }

  /** The start of metadata copy k. */
  function CopyAt(l: Layout, fmo: nat, k: nat): (x: nat) {
    fmo + l.GroupBytes() * k
  }

  lemma CopyBytes(l: Layout, len: nat, fmo: nat, k: nat, y: nat)
    requires l.Valid() && fmo <= len && k < Ceil(len - fmo, l.group * l.entry) && y < l.meta
    ensures CopyAt(l, fmo, k) + y < ScatteredLen(l, len, fmo)
    ensures InGroup(l, fmo, CopyAt(l, fmo, k) + y) == y
  {
    var G, P := l.GroupBytes(), l.group * l.entry;
    assert P > 0;
    FloorIs(G * k + y, G, k);
    var n := Ceil(len - fmo, P);
    CeilBounds(len - fmo, P);
    assert G * k == l.meta * k + P * k by { assert G == l.meta + P; }
    MulSteps(l.meta, k, n);
    MulSteps(P, k + 1, n);
    MulSteps(P, k, 1);
  }

  /** decode_*_metadata: the entry bytes of a scattered segment. */
  function Gather(l: Layout, raw: seq<Byte>, len: nat, fmo: nat): (e: seq<Byte>)
    requires l.Valid() && fmo <= len && |raw| == ScatteredLen(l, len, fmo)
    ensures |e| == len
  {
    seq(len, p requires 0 <= p < len =>
      if p < fmo then raw[p] else (SpreadBack(l, len, fmo, p); raw[Spread(l, fmo, p)]))
  }

  /** Gathering undoes scattering. */
  lemma MetadataRoundTrip(l: Layout, e: seq<Byte>, fmo: nat, meta: seq<Byte>)
    requires l.Valid() && |meta| == l.meta && fmo <= |e|
    ensures Gather(l, Scatter(l, e, fmo, meta), |e|, fmo) == e
  {
    hide Ceil, FloorTo, InGroup, Copies;
    var out := Gather(l, Scatter(l, e, fmo, meta), |e|, fmo);
    forall p | 0 <= p < |e| ensures out[p] == e[p] {
      if p >= fmo { SpreadBack(l, |e|, fmo, p); }
    }
  }

  /** Every copy is the metadata that went in, so the gathering asserts hold and any copy will do. */
  lemma MetadataCopies(l: Layout, e: seq<Byte>, fmo: nat, meta: seq<Byte>, k: nat)
    requires l.Valid() && |meta| == l.meta && fmo <= |e| && k < Ceil(|e| - fmo, l.group * l.entry)
    ensures CopyAt(l, fmo, k) + l.meta <= |Scatter(l, e, fmo, meta)|
    ensures Scatter(l, e, fmo, meta)[CopyAt(l, fmo, k)..CopyAt(l, fmo, k) + l.meta] == meta
  {
    hide Ceil, FloorTo, InGroup, Copies;
    var raw, x := Scatter(l, e, fmo, meta), CopyAt(l, fmo, k);
    forall y | 0 <= y < l.meta ensures x + y < |raw| && raw[x + y] == meta[y] {
      CopyBytes(l, |e|, fmo, k, y);
    }
    CopyBytes(l, |e|, fmo, k, l.meta - 1);
  }

  // ---------------------------------------------------------------- segments of the scattered node

  lemma CopyShift(l: Layout, h: nat, y: nat)
    requires l.Valid()
    ensures FloorTo(l.GroupBytes() * h + y, l.GroupBytes()) == l.GroupBytes() * h + FloorTo(y, l.GroupBytes())
    ensures (l.GroupBytes() * h + y) / l.GroupBytes() == h + y / l.GroupBytes()
  {
    var G := l.GroupBytes();
    DivMul(y, G);
    MulSteps(G, h, y / G);
    DivIs(G * h + y, G, h + y / G);
  }

  /** The offset of an entry t entries before group h. */
  lemma OffsetBefore(l: Layout, start: nat, h: nat, t: nat)
    requires BeforeGroup(l, start, h, t)
    ensures l.Offset(start) + l.entry * t == l.GroupBytes() * h
    ensures l.entry * start + l.entry * t == l.group * l.entry * h
    ensures l.entry * t + l.entry <= l.group * l.entry
  {
    CeilIs(start, l.group, h);
    MulSteps(l.entry, start, t);
    assert l.entry * (l.group * h) == l.group * l.entry * h;
    assert l.GroupBytes() * h == l.meta * h + l.group * l.entry * h by {
      assert l.GroupBytes() == l.meta + l.group * l.entry;
    }
    MulSteps(l.entry, t, l.group);
    assert l.entry * l.group == l.group * l.entry;
  }

  /** Byte x of a scattered segment is byte Offset(start) + x of the scattered node. */
  lemma ScatterSliceByte(l: Layout, e: seq<Byte>, meta: seq<Byte>, start: nat, num: nat, x: nat)
    requires l.Valid() && |meta| == l.meta && |e| == l.entry * l.span && start + num <= l.span
    requires l.entry * start + l.entry * num <= |e|
    requires FirstMetadata(l, start, num) <= l.entry * num
    requires x < ScatteredLen(l, l.entry * num, FirstMetadata(l, start, num))
    requires l.Offset(start) + x < ScatteredLen(l, |e|, 0)
    ensures ScatteredByte(l, e[l.entry * start..l.entry * start + l.entry * num],
                          FirstMetadata(l, start, num), meta, x) ==
            ScatteredByte(l, e, 0, meta, l.Offset(start) + x)
  {
    hide Ceil, FloorTo, InGroup, Copies, FirstMetadata, ScatteredLen;
    var h, t := NextGroup(l, start);
    FirstMetadataIs(l, start, num, h, t);
    if x < FirstMetadata(l, start, num) {
      MulSteps(l.entry, num, t);
      InPartialGroup(l, start, h, t, x);
    } else {
      FullGroupsOnly(l, start, num, h, t, x);
      FullGroupShift(l, start, h, t, x);
      if InGroup(l, FirstMetadata(l, start, num), x) >= l.meta {
        EntryByteInRange(l, l.entry * num, FirstMetadata(l, start, num), x);
      }
    }
  }

  /** From the first copy on: whole groups, shifted by h of them. */
  lemma FullGroupShift(l: Layout, start: nat, h: nat, t: nat, x: nat)
    requires BeforeGroup(l, start, h, t) && l.entry * t <= x
    ensures var fmo, X := l.entry * t, l.Offset(start) + x;
            && InGroup(l, 0, X) == InGroup(l, fmo, x)
            && X - l.meta * Copies(l, 0, X) == l.entry * start + (x - l.meta * Copies(l, fmo, x))
  {
    hide Ceil, FloorTo;
    var fmo, G := l.entry * t, l.GroupBytes();
    OffsetBefore(l, start, h, t);
    CopyShift(l, h, x - fmo);
    MulSteps(l.meta, h, (x - fmo) / G + 1);
    assert G * h == l.meta * h + l.group * l.entry * h by { assert G == l.meta + l.group * l.entry; }
  }

  /** Before the first copy of a segment: the tail of group h - 1. */
  lemma InPartialGroup(l: Layout, start: nat, h: nat, t: nat, x: nat)
    requires BeforeGroup(l, start, h, t) && x < l.entry * t
    ensures InGroup(l, 0, l.Offset(start) + x) >= l.meta
    ensures l.Offset(start) + x - l.meta * Copies(l, 0, l.Offset(start) + x) == l.entry * start + x
  {
    hide Ceil, FloorTo;
    InTail(l, start, h, t, x);
    assert l.Offset(start) == l.meta * h + l.entry * start by { CeilIs(start, l.group, h); }
  }

  lemma InTail(l: Layout, start: nat, h: nat, t: nat, x: nat)
    requires BeforeGroup(l, start, h, t) && x < l.entry * t
    ensures h > 0 && FloorTo(l.Offset(start) + x, l.GroupBytes()) == l.GroupBytes() * h - l.GroupBytes()
    ensures (l.Offset(start) + x) / l.GroupBytes() == h - 1
    ensures l.Offset(start) + x - (l.GroupBytes() * h - l.GroupBytes()) >= l.meta
  {
    hide Ceil;
    OffsetBefore(l, start, h, t);
    var G := l.GroupBytes();
    assert t > 0 by { assert t == 0 ==> l.entry * t == 0; }
    assert h > 0 by { assert h == 0 ==> l.group * h == 0; }
    assert G * (h - 1) == G * h - G by { MulSteps(G, h, 1); }
    DivIs(l.Offset(start) + x, G, h - 1);
  }

  lemma FullGroupsOnly(l: Layout, start: nat, num: nat, h: nat, t: nat, x: nat)
    requires BeforeGroup(l, start, h, t) && t == (l.group - start % l.group) % l.group
    requires FirstMetadata(l, start, num) <= l.entry * num
    requires FirstMetadata(l, start, num) <= x < ScatteredLen(l, l.entry * num, FirstMetadata(l, start, num))
    ensures FirstMetadata(l, start, num) == l.entry * t
  {}

  /** The entry bytes of entries start, ..., start + num - 1. */
  function EntryBytes(l: Layout, e: seq<Byte>, start: nat, num: nat): (r: seq<Byte>)
    requires |e| == l.entry * l.span && start + num <= l.span
    ensures |r| == l.entry * num
  {
    EntryBounds(l, start, num);
    e[l.entry * start..l.entry * start + l.entry * num]
  }

  lemma EntryBounds(l: Layout, start: nat, num: nat)
    requires start + num <= l.span
    ensures l.entry * start + l.entry * num <= l.entry * l.span
  {}

  lemma NodeLen(l: Layout)
    requires l.Valid()
    ensures ScatteredLen(l, l.entry * l.span, 0) == l.Size()
  {
    CeilScale(l.span, l.group, l.entry);
  }

  /** Scattering a segment by itself gives its slice of the scattered node. */
  lemma ScatterSlice(l: Layout, e: seq<Byte>, meta: seq<Byte>, start: nat, num: nat)
    requires l.Valid() && |meta| == l.meta && |e| == l.entry * l.span && start + num <= l.span
    ensures FirstMetadata(l, start, num) <= l.entry * num && l.Offset(start) <= l.Offset(start + num) <= l.Size()
    ensures |Scatter(l, e, 0, meta)| == l.Size()
    ensures Scatter(l, EntryBytes(l, e, start, num), FirstMetadata(l, start, num), meta) ==
            Scatter(l, e, 0, meta)[l.Offset(start)..l.Offset(start + num)]
  {
    hide Ceil, FirstMetadata, ScatteredByte, ScatteredLen;
    NodeLen(l);
    EntryBounds(l, start, num);
    SegmentLengthsAgree(l, start, num);
    OffsetMonotone(l, start + num, l.span);
    var fmo := FirstMetadata(l, start, num);
    var seg := Scatter(l, EntryBytes(l, e, start, num), fmo, meta);
    var slice := Scatter(l, e, 0, meta)[l.Offset(start)..l.Offset(start + num)];
    forall x | 0 <= x < |seg| ensures seg[x] == slice[x] {
      ScatterSliceByte(l, e, meta, start, num, x);
    }
  }

  // ---------------------------------------------------------------- the two managers together

  /** A leaf on the wire: metadata scattered over the entries, versions woven in. */
  function EncodeLeaf(l: Layout, e: seq<Byte>, meta: seq<Byte>): (raw: seq<Byte>)
    requires l.Valid() && |meta| == l.meta && |e| == l.entry * l.span
  {
    FrameValid(l);
    NodeLen(l);
    Encode(l.Framed(), Scatter(l, e, 0, meta))
  }

  /** The bytes a segment write sends. */
  function EncodeLeafSegment(l: Layout, seg: seq<Byte>, meta: seq<Byte>, start: nat, num: nat): (raw: seq<Byte>)
    requires l.Valid() && |meta| == l.meta && |seg| == l.entry * num && start + num <= l.span
  {
    SegmentLengthsAgree(l, start, num);
    OffsetsAlign(l, start, start + num);
    SegmentValid(l.Framed(), l.Offset(start), l.Offset(start + num));
    Encode(Segment(l.Framed(), l.Offset(start), l.Offset(start + num)),
           Scatter(l, seg, FirstMetadata(l, start, num), meta))
  }

  /** Changing only the entries of the segment changes only its slice of the scattered node. */
  lemma ScatterOutside(l: Layout, e: seq<Byte>, e': seq<Byte>, meta: seq<Byte>, i: nat, j: nat)
    requires l.Valid() && |meta| == l.meta && |e| == l.entry * l.span == |e'| && i <= j <= l.span
    requires EntryBytes(l, e, i, j - i) == EntryBytes(l, e', i, j - i)
    ensures l.Offset(i) <= l.Offset(j) <= l.Size()
    ensures |Scatter(l, e, 0, meta)| == l.Size() == |Scatter(l, e', 0, meta)|
    ensures forall x :: l.Offset(i) <= x < l.Offset(j) ==> Scatter(l, e, 0, meta)[x] == Scatter(l, e', 0, meta)[x]
  {
    hide Ceil, FirstMetadata, ScatteredByte, ScatteredLen, EntryBytes;
    ScatterSlice(l, e, meta, i, j - i);
    ScatterSlice(l, e', meta, i, j - i);
    var s, s', a, z := Scatter(l, e, 0, meta), Scatter(l, e', 0, meta), l.Offset(i), l.Offset(j);
    assert s[a..z] == s'[a..z];
    forall x | a <= x < z ensures s[x] == s'[x] {
      assert s[a..z][x - a] == s'[a..z][x - a];
    }
  }

  /** The segment write is exactly the right patch: overwriting the raw range get_offset_info computes
      with the encoded segment gives the encoding of the leaf with those entries replaced. */
  lemma LeafSegmentWrite(l: Layout, e: seq<Byte>, e': seq<Byte>, meta: seq<Byte>, start: nat, num: nat)
    requires l.Valid() && |meta| == l.meta && |e| == l.entry * l.span == |e'| && start + num <= l.span
    requires EntryBytes(l, e, 0, start) == EntryBytes(l, e', 0, start)
    requires EntryBytes(l, e, start + num, l.span - start - num) == EntryBytes(l, e', start + num, l.span - start - num)
    ensures var f := l.Framed();
            var len := ScatteredLen(l, l.entry * num, FirstMetadata(l, start, num));
            var info := GetOffsetInfo(f.first, f.block, l.Offset(start), l.Offset(start) + len);
            var w := EncodeLeafSegment(l, EntryBytes(l, e', start, num), meta, start, num);
            && info.rawLength == |w|
            && info.rawOffset + |w| <= |EncodeLeaf(l, e, meta)|
            && Overwrite(EncodeLeaf(l, e, meta), info.rawOffset, w) == EncodeLeaf(l, e', meta)
  {
    hide Ceil, FirstMetadata, ScatteredLen, EntryBytes, Scatter, Encode, Segment, GetOffsetInfo, RawOffset, Overwrite;
    var f, a, z := l.Framed(), l.Offset(start), l.Offset(start + num);
    SegmentLengthsAgree(l, start, num);
    OffsetsAlign(l, start, start + num);
    OffsetInfoIs(f, a, z);
    ScatterOutside(l, e, e', meta, 0, start);
    ScatterOutside(l, e, e', meta, start + num, l.span);
    assert l.Offset(0) == 0 by { OffsetZero(l); }
    ScatterSlice(l, e', meta, start, num);
    SegmentWriteIsPatch(f, Scatter(l, e, 0, meta), Scatter(l, e', 0, meta), a, z);
  }

  lemma OffsetZero(l: Layout)
    requires l.Valid()
    ensures l.Offset(0) == 0
  {}

  datatype SegmentRead = Rejected | Entries(bytes: seq<Byte>, version: nat)

  /** The raw offset of entry i. */
  function RawStart(l: Layout, i: nat): (r: nat)
    requires l.Valid()
  {
    FrameValid(l);
    RawOffset(l.Framed(), l.Offset(i))
  }

  /** Entries start, ..., start + num - 1 as a frame of their own. */
  function SegmentFrame(l: Layout, start: nat, num: nat): (g: Frame)
    requires l.Valid() && start + num <= l.span
    ensures g.Valid() && g.Contiguous() && g.size == l.Offset(start + num) - l.Offset(start)
  {
    OffsetsAlign(l, start, start + num);
    SegmentValid(l.Framed(), l.Offset(start), l.Offset(start + num));
    Segment(l.Framed(), l.Offset(start), l.Offset(start + num))
  }

  lemma SegmentFrameLength(l: Layout, start: nat, num: nat)
    requires l.Valid() && start + num <= l.span
    ensures var g := SegmentFrame(l, start, num);
            g.first + BlocksLen(g, g.first) == RawStart(l, start + num) - RawStart(l, start)
  {
    hide Ceil;
    OffsetsAlign(l, start, start + num);
    SegmentRawLength(l.Framed(), l.Offset(start), l.Offset(start + num));
  }

  /** The entries behind the decoded bytes of a segment. */
  function SegmentEntries(l: Layout, d: seq<Byte>, start: nat, num: nat): (e: seq<Byte>)
    requires l.Valid() && start + num <= l.span && |d| == l.Offset(start + num) - l.Offset(start)
  {
    SegmentLengthsAgree(l, start, num);
    Gather(l, d, l.entry * num, FirstMetadata(l, start, num))
  }

  /** decode_segment_versions, with the check of every line and the joint check, and
      decode_segment_metadata, of the raw bytes of a segment. */
  ghost function DecodeLeafSegment(l: Layout, raw: seq<Byte>, start: nat, num: nat): (r: SegmentRead)
    requires l.Valid() && start + num <= l.span && num > 0 && |raw| == RawStart(l, start + num) - RawStart(l, start)
  {
    SegmentFrameLength(l, start, num);
    SegmentInhabited(l, start, num);
    var g := SegmentFrame(l, start, num);
    var d := Decoded(g, raw);
    var v := NodeVersion(d[0]);
    if LinesPass(g, raw) && OneNodeVersion(g, d, v) then Entries(SegmentEntries(l, d, start, num), v) else Rejected
  }

  lemma SegmentInhabited(l: Layout, start: nat, num: nat)
    requires l.Valid() && num > 0
    ensures l.Offset(start) < l.Offset(start + num)
  {
    hide Ceil;
    CeilMonotone(start, start + num, l.group);
    MulSteps(l.meta, l.Groups(start), l.Groups(start + num));
    MulSteps(l.entry, start, start + num);
  }

  /** Reading back the raw range of any segment of a written leaf passes all checks and gives the entries of
      that segment and the node version of the leaf. */
  lemma LeafSegmentRead(l: Layout, e: seq<Byte>, meta: seq<Byte>, start: nat, num: nat, v: nat)
    requires l.Valid() && |meta| == l.meta && |e| == l.entry * l.span && start + num <= l.span && num > 0
    requires |Scatter(l, e, 0, meta)| == l.Size() && OneNodeVersion(l.Framed(), Scatter(l, e, 0, meta), v)
    ensures RawStart(l, start) <= RawStart(l, start + num) <= |EncodeLeaf(l, e, meta)|
    ensures DecodeLeafSegment(l, EncodeLeaf(l, e, meta)[RawStart(l, start)..RawStart(l, start + num)], start, num) ==
            Entries(EntryBytes(l, e, start, num), v)
  {
    hide Ceil, FirstMetadata, ScatteredLen, EntryBytes, Scatter, Gather, Encode, Segment, RawOffset, LinesPass, Decoded;
    hide BlocksLen, OneNodeVersion, NodeVersion;
    var f, a, z := l.Framed(), l.Offset(start), l.Offset(start + num);
    SegmentLengthsAgree(l, start, num);
    OffsetsAlign(l, start, start + num);
    SegmentInhabited(l, start, num);
    ScatterSlice(l, e, meta, start, num);
    SegmentReadIsSlice(f, Scatter(l, e, 0, meta), a, z);
    SegmentVersion(f, Scatter(l, e, 0, meta), a, z, v);
    FirstVersion(SegmentFrame(l, start, num), Scatter(l, e, 0, meta)[a..z], v);
    MetadataRoundTrip(l, EntryBytes(l, e, start, num), FirstMetadata(l, start, num), meta);
  }

  lemma FirstVersion(g: Frame, d: seq<Byte>, v: nat)
    requires g.Valid() && |d| == g.size > 0 && OneNodeVersion(g, d, v)
    ensures NodeVersion(d[0]) == v
  {
    assert g.owner(0) == 0;
  }

  /** The raw bytes of a segment read while a whole-node write replaces d0 by d1. */
  function TornSegment(l: Layout, d0: seq<Byte>, d1: seq<Byte>, pick: nat -> bool,
                       start: nat, num: nat): (raw: seq<Byte>)
    requires l.Valid() && start + num <= l.span && |d0| == l.Size() == |d1|
    ensures |raw| == RawStart(l, start + num) - RawStart(l, start)
  {
    SegmentFrameLength(l, start, num);
    OffsetsAlign(l, start, start + num);
    TornRaw(SegmentFrame(l, start, num), d0[l.Offset(start)..l.Offset(start + num)],
            d1[l.Offset(start)..l.Offset(start + num)], pick)
  }

  /** The entries of a segment of the node d. */
  function NodeEntries(l: Layout, d: seq<Byte>, start: nat, num: nat): (e: seq<Byte>)
    requires l.Valid() && start + num <= l.span && |d| == l.Size()
  {
    OffsetsAlign(l, start, start + num);
    SegmentEntries(l, d[l.Offset(start)..l.Offset(start + num)], start, num)
  }

  /** A segment torn by a whole-node write that passes all checks is wholly from before or wholly from after
      it, and the node version it reports says from which. */
  lemma SegmentNotTorn(l: Layout, d0: seq<Byte>, d1: seq<Byte>, pick: nat -> bool,
                       start: nat, num: nat, w0: nat, w1: nat)
    requires l.Valid() && start + num <= l.span && num > 0 && |d0| == l.Size() == |d1| && w0 != w1
    requires OneNodeVersion(l.Framed(), d0, w0) && OneNodeVersion(l.Framed(), d1, w1)
    ensures var r := DecodeLeafSegment(l, TornSegment(l, d0, d1, pick, start, num), start, num);
            r.Entries? ==> (r.version == w0 || r.version == w1)
                           && r.bytes == NodeEntries(l, if r.version == w0 then d0 else d1, start, num)
  {
    hide Ceil, TornRaw, Decoded, LinesPass, Gather, OneNodeVersion, NodeVersion, Segment, BlocksLen, FirstMetadata;
    var f, a, z, g := l.Framed(), l.Offset(start), l.Offset(start + num), SegmentFrame(l, start, num);
    OffsetsAlign(l, start, start + num);
    SegmentInhabited(l, start, num);
    SegmentVersion(f, d0, a, z, w0);
    SegmentVersion(f, d1, a, z, w1);
    var raw := TornSegment(l, d0, d1, pick, start, num);
    var r := DecodeLeafSegment(l, raw, start, num);
    if r.Entries? {
      OneSide(g, d0[a..z], d1[a..z], pick, r.version, w0, w1);
    }
  }

  /** The two segments of a neighbourhood that wraps: if both pass and report the same node version, both are
      from before the write or both are from after it. */
  lemma WrappedNotTorn(l: Layout, d0: seq<Byte>, d1: seq<Byte>, pickR: nat -> bool, pickL: nat -> bool,
                       start: nat, rest: nat, w0: nat, w1: nat)
    requires l.Valid() && start < l.span && 0 < rest <= l.span && |d0| == l.Size() == |d1| && w0 != w1
    requires OneNodeVersion(l.Framed(), d0, w0) && OneNodeVersion(l.Framed(), d1, w1)
    ensures var r := DecodeLeafSegment(l, TornSegment(l, d0, d1, pickR, start, l.span - start), start, l.span - start);
            var s := DecodeLeafSegment(l, TornSegment(l, d0, d1, pickL, 0, rest), 0, rest);
            r.Entries? && s.Entries? && r.version == s.version ==>
              var d := if r.version == w0 then d0 else d1;
              r.bytes == NodeEntries(l, d, start, l.span - start) && s.bytes == NodeEntries(l, d, 0, rest)
  {
    hide DecodeLeafSegment, TornSegment, NodeEntries;
    SegmentNotTorn(l, d0, d1, pickR, start, l.span - start, w0, w1);
    SegmentNotTorn(l, d0, d1, pickL, 0, rest, w0, w1);
  }

  // ---------------------------------------------------------------- owners inside a segment

  /** The object of byte x of a scattered segment, found the way encode_segment_versions does: entries
      up to the first copy, then groups. */
  function SegmentOwner(l: Layout, fmo: nat, x: nat): (o: nat)
    requires l.Valid()
  {
    if x < fmo then FloorTo(x, l.entry) else fmo + l.Owner(x - fmo)
  }

  lemma FloorShift(d: nat, q: nat, x: nat)
    requires d > 0
    ensures FloorTo(d * q + x, d) == d * q + FloorTo(x, d)
  {
    DivMul(x, d);
    MulSteps(d, q, x / d);
    FloorIs(d * q + x, d, q + x / d);
  }

  lemma OwnerShift(l: Layout, h: nat, y: nat)
    requires l.Valid()
    ensures l.Owner(l.GroupBytes() * h + y) == l.GroupBytes() * h + l.Owner(y)
  {
    hide FloorTo;
    FloorShift(l.GroupBytes(), h, y);
  }

  /** The segment-relative rule names the same object as the rule for the whole node. */
  lemma SegmentOwnerIs(l: Layout, start: nat, num: nat, x: nat)
    requires l.Valid() && FirstMetadata(l, start, num) <= l.entry * num
    requires x < ScatteredLen(l, l.entry * num, FirstMetadata(l, start, num))
    ensures l.Owner(l.Offset(start) + x) == l.Offset(start) + SegmentOwner(l, FirstMetadata(l, start, num), x)
  {
    hide Ceil, FloorTo, FirstMetadata, ScatteredLen;
    var h, t := NextGroup(l, start);
    FirstMetadataIs(l, start, num, h, t);
    if x < FirstMetadata(l, start, num) {
      PartialGroupOwner(l, start, h, t, x);
    } else {
      FullGroupsOnly(l, start, num, h, t, x);
      FullGroupOwner(l, start, h, t, x);
    }
  }

  lemma FullGroupOwner(l: Layout, start: nat, h: nat, t: nat, x: nat)
    requires BeforeGroup(l, start, h, t) && l.entry * t <= x
    ensures l.Owner(l.Offset(start) + x) == l.Offset(start) + (l.entry * t + l.Owner(x - l.entry * t))
  {
    hide Ceil, FloorTo;
    OffsetBefore(l, start, h, t);
    OwnerShift(l, h, x - l.entry * t);
  }

  lemma PartialGroupOwner(l: Layout, start: nat, h: nat, t: nat, x: nat)
    requires BeforeGroup(l, start, h, t) && x < l.entry * t
    ensures l.Owner(l.Offset(start) + x) == l.Offset(start) + FloorTo(x, l.entry)
  {
    hide Ceil, FloorTo;
    OffsetBefore(l, start, h, t);
    InTail(l, start, h, t, x);
    MulSteps(l.entry, l.group, t);
    assert l.entry * l.group == l.group * l.entry;
    FloorShift(l.entry, l.group - t, x);
  }

  // ---------------------------------------------------------------- entries as objects

  /** The first byte, the version, of entry i. */
  function EntryAt(l: Layout, i: nat): (x: nat)
    requires l.Valid()
  {
    l.Offset(i) + if i % l.group == 0 then l.meta else 0
  }

  /** Entry i is an object of `entry` bytes. */
  lemma EntryExtent(l: Layout, i: nat, t: nat)
    requires l.Valid() && t < l.entry
    ensures l.Owner(EntryAt(l, i) + t) == EntryAt(l, i)
  {
    hide Ceil, FloorTo;
    var g, q, G := i / l.group, i % l.group, l.GroupBytes();
    DivMul(i, l.group);
    StructOffsetIs(l, i);
    assert i / l.group * G == G * g && q * l.entry == l.entry * q;
    assert EntryAt(l, i) == G * g + l.meta + l.entry * q by { assert q == 0 ==> l.entry * q == 0; }
    assert l.entry * q + l.entry <= l.entry * l.group by { MulSteps(l.entry, q, l.group); }
    assert l.entry * l.group == l.group * l.entry;
    FloorIs(G * g + (l.meta + l.entry * q + t), G, g);
    FloorIs(l.entry * q + t, l.entry, q);
  }

  lemma EntryEnds(l: Layout, i: nat)
    requires l.Valid()
    ensures EntryAt(l, i) + l.entry == l.Offset(i + 1)
  {
    hide Ceil;
    DivMul(i, l.group);
    var a, q := i / l.group, i % l.group;
    CeilIs(i, l.group, if q == 0 then a else a + 1);
    CeilIs(i + 1, l.group, a + 1);
    MulSteps(l.meta, a, a + 1);
    MulSteps(l.entry, i, i + 1);
  }

  /** A read torn between two states that fewer than sixteen rewrites of entry i lie between, once its lines
      pass, shows entry i wholly from the one or wholly from the other. */
  lemma EntryNotTorn(l: Layout, d0: seq<Byte>, d1: seq<Byte>, pick: nat -> bool, i: nat, n: nat)
    requires 0 < n < 16
    requires l.Valid() && |d0| == l.Size() == |d1| && i < l.span
    requires EntryAt(l, i) + l.entry <= l.Size()
    requires d1[EntryAt(l, i)] == BumpTimes(d0[EntryAt(l, i)], n)
    requires l.Framed().Valid() && LinesPass(l.Framed(), TornRaw(l.Framed(), d0, d1, pick))
    ensures var out := Decoded(l.Framed(), TornRaw(l.Framed(), d0, d1, pick));
            var x, z := EntryAt(l, i), EntryAt(l, i) + l.entry;
            out[x..z] == d0[x..z] || out[x..z] == d1[x..z]
  {
    hide TornRaw, Decoded, LinesPass, Ceil, FloorTo, EntryAt;
    var f, x := l.Framed(), EntryAt(l, i);
    FrameValid(l);
    BumpTimesIs(d0[x], n);
    var out := Decoded(f, TornRaw(f, d0, d1, pick));
    var d := Source(d0, d1, pick, LineOf(f, x));
    var got, want := out[x..x + l.entry], d[x..x + l.entry];
    forall t | 0 <= t < l.entry ensures got[t] == want[t] {
      EntryExtent(l, i, t);
      ObjectNotTorn(f, d0, d1, pick, x + t);
    }
  }

  /** An entry that a write changes in the two bytes of its bitmap only, at offset o and without a new version,
      is read with each of these bytes from before or after the write. If they lie in one line, both are from
      the same side. */
  lemma BitmapTorn(l: Layout, d0: seq<Byte>, d1: seq<Byte>, pick: nat -> bool, i: nat, o: nat)
    requires l.Valid() && |d0| == l.Size() == |d1| && i < l.span && o + 2 <= l.entry
    requires EntryAt(l, i) + l.entry <= l.Size() && l.Framed().Valid()
    requires forall y :: EntryAt(l, i) <= y < EntryAt(l, i) + l.entry && d0[y] != d1[y] ==>
               EntryAt(l, i) + o <= y < EntryAt(l, i) + o + 2
    ensures var out := Decoded(l.Framed(), TornRaw(l.Framed(), d0, d1, pick));
            var x, z, b := EntryAt(l, i), EntryAt(l, i) + l.entry, EntryAt(l, i) + o;
            && (forall y :: x <= y < z ==> out[y] == d0[y] || (b <= y < b + 2 && out[y] == d1[y]))
            && (LineOf(l.Framed(), b) == LineOf(l.Framed(), b + 1) ==> out[x..z] == d0[x..z] || out[x..z] == d1[x..z])
  {
    hide TornRaw, Decoded, Ceil, FloorTo, EntryAt, LineOf;
    var f, x := l.Framed(), EntryAt(l, i);
    var z, b := x + l.entry, x + o;
    var out := Decoded(f, TornRaw(f, d0, d1, pick));
    forall y | x <= y < z ensures out[y] == d0[y] || (b <= y < b + 2 && out[y] == d1[y]) {
      TornDecodes(f, d0, d1, pick, y);
    }
    if LineOf(f, b) == LineOf(f, b + 1) {
      FieldNotTorn(f, d0, d1, pick, b, b + 2);
      var d := Source(d0, d1, pick, LineOf(f, b));
      SameAround(out, d0, d, x, b, z);
    }
  }

  lemma SameAround(out: seq<Byte>, d0: seq<Byte>, d: seq<Byte>, x: nat, b: nat, z: nat)
    requires x <= b && b + 2 <= z <= |out| == |d0| == |d| && out[b..b + 2] == d[b..b + 2]
    requires forall y :: x <= y < z && !(b <= y < b + 2) ==> out[y] == d0[y] == d[y]
    ensures out[x..z] == d[x..z]
  {
    var m, w := out[b..b + 2], d[b..b + 2];
    assert out[b] == m[0] && d[b] == w[0] && out[b + 1] == m[1] && d[b + 1] == w[1];
  }
}
