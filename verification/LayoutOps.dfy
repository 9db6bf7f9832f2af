/** The encode and decode loops over byte buffers. */
module LayoutOps {

  import opened Division
  import opened VersionLayout
  import opened NodeLayout
  import opened MetadataLayout

  /** memcpy. */
  method Copy(src: array<Byte>, s: nat, dst: array<Byte>, d: nat, n: nat)
    requires src != dst && s + n <= src.Length && d + n <= dst.Length
    modifies dst
    ensures dst[..d] == old(dst[..d]) && dst[d..d + n] == src[s..s + n] && dst[d + n..] == old(dst[d + n..])
  {
    forall i | 0 <= i < n {
      dst[d + i] := src[s + i];
    }
  }

  /** One version byte and the block behind it. */
  method EncodeBlock(f: Frame, input: array<Byte>, output: array<Byte>, i: nat, j: nat)
    requires f.Valid() && input != output && input.Length == f.size && i < f.size
    requires j + 1 + (Min(i + f.block, f.size) - i) <= output.Length
    modifies output
    ensures output[..j] == old(output[..j])
    ensures output[j..j + 1 + (Min(i + f.block, f.size) - i)] ==
            [input[f.owner(i)]] + input[i..Min(i + f.block, f.size)]
  {
    output[j] := input[f.owner(i)];
    Copy(input, i, output, j + 1, Min(i + f.block, f.size) - i);
    var n := Min(i + f.block, f.size) - i;
    assert output[j] == output[..j + 1][j];
    assert output[j..j + 1 + n] == [output[j]] + output[j + 1..j + 1 + n];
  }

  /** The common loop of encode_node_versions, encode_entry_versions and encode_segment_versions. */
  method EncodeVersions(f: Frame, input: array<Byte>, output: array<Byte>) returns (n: nat)
    requires f.Valid() && input != output && input.Length == f.size
    requires f.first + BlocksLen(f, f.first) <= output.Length
    modifies output
    ensures n == f.first + BlocksLen(f, f.first) && output[..n] == Encode(f, input[..])
  {
    hide Blocks, BlocksLen;
    ghost var d := input[..];
    Copy(input, 0, output, 0, f.first);
    var i, j := f.first, f.first;
    assert output[..j] == d[..f.first];
    while i < f.size
      invariant 0 <= j && j + BlocksLen(f, i) == f.first + BlocksLen(f, f.first)
      invariant output[..j] + Blocks(f, d, i) == Encode(f, d)
      decreases f.size - i
    {
      var len := Min(i + f.block, f.size) - i;
      BlocksLenStep(f, i);
      ghost var before := output[..j];
      EncodeBlock(f, input, output, i, j);
      assert output[..j + 1 + len] == before + output[j..j + 1 + len];
      EncodeStep(f, d, i, before, output[j..j + 1 + len], Encode(f, d));
      i, j := i + f.block, j + 1 + len;
    }
    BlocksStep(f, d, i);
    assert BlocksLen(f, i) == 0 by { BlocksLenEnd(f, i); }
    n := j;
  }

  lemma EncodeStep(f: Frame, d: seq<Byte>, i: nat, before: seq<Byte>, written: seq<Byte>, all: seq<Byte>)
    requires f.Valid() && |d| == f.size && i < f.size && before + Blocks(f, d, i) == all
    requires written == [d[f.owner(i)]] + d[i..Min(i + f.block, f.size)]
    ensures (before + written) + Blocks(f, d, i + f.block) == all
  {}

  /** The common loop of the decode functions: strip the versions, checking every line. */
  method DecodeVersions(f: Frame, input: array<Byte>, output: array<Byte>) returns (ok: bool)
    requires f.Valid() && input != output && output.Length == f.size
    requires input.Length == f.first + BlocksLen(f, f.first)
    modifies output
    ensures ok <==> LinesPass(f, input[..])
    ensures ok ==> output[..] == Decoded(f, input[..])
  {
    hide Data, LinesMatch, BlocksLen, Decoded, LinesPass;
    ghost var raw, all := input[..], Decoded(f, input[..]);
    DecodeStart(f, raw);
    Copy(input, 0, output, 0, f.first);
    var i, j := f.first, f.first;
    assert output[..j] == raw[..f.first];
    while j < f.size
      invariant f.first <= j && f.first <= i && i + BlocksLen(f, j) == |raw|
      invariant output[..Min(j, f.size)] + Data(f, raw[i..], j) == all
      invariant LinesPass(f, raw) <==> LinesMatch(f, raw[i..], all, j)
      decreases f.size - j
    {
      var n := Min(j + f.block, f.size) - j;
      ghost var before := output[..j];
      BlocksLenStep(f, j);
      Copy(input, i + 1, output, j, n);
      assert output[..j + n] == before + raw[i + 1..i + 1 + n];
      DecodeStep(f, raw, i, j, before, output[..j + n], all);
      if input[i] != output[f.owner(j)] {
        return false;
      }
      i, j := i + 1 + n, j + f.block;
    }
    DataStep(f, raw[i..], j);
    LinesStep(f, raw[i..], all, j);
    assert output[..f.size] == output[..];
    return true;
  }

  lemma DecodeStart(f: Frame, raw: seq<Byte>)
    requires f.Valid() && |raw| == f.first + BlocksLen(f, f.first)
    ensures Decoded(f, raw) == raw[..f.first] + Data(f, raw[f.first..], f.first)
    ensures LinesPass(f, raw) <==> LinesMatch(f, raw[f.first..], Decoded(f, raw), f.first)
  {
    hide Data, LinesMatch;
  }

  /** Decoding one more block. */
  lemma DecodeStep(f: Frame, raw: seq<Byte>, i: nat, j: nat, before: seq<Byte>, after: seq<Byte>, all: seq<Byte>)
    requires f.Valid() && j < f.size && i <= |raw| && |raw| - i == BlocksLen(f, j) && |before| == j && |all| == f.size
    requires before + Data(f, raw[i..], j) == all
    requires var n := Min(j + f.block, f.size) - j; i + 1 + n <= |raw| && after == before + raw[i + 1..i + 1 + n]
    ensures var n := Min(j + f.block, f.size) - j;
            && |raw[i + 1 + n..]| == BlocksLen(f, j + f.block)
            && after + Data(f, raw[i + 1 + n..], j + f.block) == all
            && after[f.owner(j)] == all[f.owner(j)]
            && (LinesMatch(f, raw[i..], all, j) <==>
                raw[i] == after[f.owner(j)] && LinesMatch(f, raw[i + 1 + n..], all, j + f.block))
  {
    hide Data, LinesMatch;
    var n := Min(j + f.block, f.size) - j;
    DataStep(f, raw[i..], j);
    LinesStep(f, raw[i..], all, j);
    assert raw[i..][1..1 + n] == raw[i + 1..i + 1 + n];
    assert raw[i..][1 + n..] == raw[i + 1 + n..];
    var rest := Data(f, raw[i + 1 + n..], j + f.block);
    assert before + (raw[i + 1..i + 1 + n] + rest) == after + rest;
    assert all[..|after|] == after;
  }

  // ---------------------------------------------------------------- metadata

  /** Entry byte t of group k comes t bytes after copy k. */
  lemma SpreadInGroup(l: Layout, len: nat, fmo: nat, k: nat, t: nat)
    requires l.Valid() && fmo + l.group * l.entry * k + t < len && t < l.group * l.entry
    ensures Spread(l, fmo, fmo + l.group * l.entry * k + t) ==
            CopyAt(l, fmo, k) + l.meta + t < ScatteredLen(l, len, fmo)
  {
    hide Ceil, InGroup, Copies;
    var P := l.group * l.entry;
    SpreadBack(l, len, fmo, fmo + P * k + t);
    DivIs(P * k + t, P, k);
    GroupInRange(l, len - fmo, k, t);
    assert l.meta * (k + 1) == l.meta * k + l.meta by { MulSteps(l.meta, k, 1); }
  }

  lemma GroupPlaced(l: Layout, e: seq<Byte>, fmo: nat, meta: seq<Byte>, k: nat, t: nat)
    requires l.Valid() && |meta| == l.meta && fmo + l.group * l.entry * k + t < |e| && t < l.group * l.entry
    ensures var x := CopyAt(l, fmo, k) + l.meta + t;
            x < |Scatter(l, e, fmo, meta)| && Scatter(l, e, fmo, meta)[x] == e[fmo + l.group * l.entry * k + t]
  {
    hide Ceil, InGroup, Copies, Spread, CopyAt;
    SpreadInGroup(l, |e|, fmo, k, t);
    SpreadBack(l, |e|, fmo, fmo + l.group * l.entry * k + t);
  }

  /** Group k of a scattered segment: its copy of the metadata and its n entry bytes. */
  lemma GroupIs(l: Layout, e: seq<Byte>, fmo: nat, meta: seq<Byte>, k: nat, n: nat)
    requires l.Valid() && |meta| == l.meta && 0 < n <= l.group * l.entry && fmo + l.group * l.entry * k + n <= |e|
    ensures var i, x := fmo + l.group * l.entry * k, CopyAt(l, fmo, k);
            && x + l.meta + n <= |Scatter(l, e, fmo, meta)|
            && Scatter(l, e, fmo, meta)[x..x + l.meta + n] == meta + e[i..i + n]
  {
    hide Scatter, ScatteredLen, CopyAt, Ceil;
    var i, x, all := fmo + l.group * l.entry * k, CopyAt(l, fmo, k), Scatter(l, e, fmo, meta);
    GroupPlaced(l, e, fmo, meta, k, n - 1);
    GroupInRange(l, |e| - fmo, k, 0);
    MetadataCopies(l, e, fmo, meta, k);
    var got := all[x + l.meta..x + l.meta + n];
    forall t | 0 <= t < n ensures got[t] == e[i..i + n][t] {
      GroupPlaced(l, e, fmo, meta, k, t);
    }
    assert all[x..x + l.meta + n] == all[x..x + l.meta] + got;
  }

  /** One copy of the metadata and the entries behind it. */
  method ScatterGroup(l: Layout, input: array<Byte>, output: array<Byte>, fmo: nat, meta: array<Byte>,
                      i: nat, j: nat, ghost k: nat)
    requires l.Valid() && input != output && meta != output && meta.Length == l.meta
    requires fmo <= input.Length && output.Length == ScatteredLen(l, input.Length, fmo)
    requires i == fmo + l.group * l.entry * k < input.Length && j == CopyAt(l, fmo, k) <= output.Length
    requires output[..j] == Scatter(l, input[..], fmo, meta[..])[..j]
    modifies output
    ensures var n := Min(l.group * l.entry, input.Length - i);
            && j + l.meta + n <= output.Length
            && output[..j + l.meta + n] == Scatter(l, input[..], fmo, meta[..])[..j + l.meta + n]
  {
    hide Scatter, ScatteredLen, CopyAt, Ceil;
    var n := Min(l.group * l.entry, input.Length - i);
    ghost var all := Scatter(l, input[..], fmo, meta[..]);
    var x := j + l.meta;
    GroupIs(l, input[..], fmo, meta[..], k, n);
    Copy(meta, 0, output, j, l.meta);
    assert output[..x] == all[..j] + meta[..];
    Copy(input, i, output, x, n);
    assert output[..x + n] == all[..j] + meta[..] + input[i..i + n];
    assert all[..x + n] == all[..j] + all[j..x + n];
  }

  /** Bytes in front of the first copy are entry bytes; without a copy that is all. */
  lemma ScatterHead(l: Layout, e: seq<Byte>, fmo: nat, meta: seq<Byte>)
    requires l.Valid() && |meta| == l.meta && fmo <= |e|
    ensures fmo <= |Scatter(l, e, fmo, meta)| && Scatter(l, e, fmo, meta)[..fmo] == e[..fmo]
    ensures fmo == |e| ==> |Scatter(l, e, fmo, meta)| == fmo
    ensures CopyAt(l, fmo, 0) == fmo
  {}

  /** After group k comes copy k + 1, or the end. */
  lemma NextCopy(l: Layout, len: nat, fmo: nat, k: nat)
    requires l.Valid() && fmo + l.group * l.entry * k < len
    ensures l.group * l.entry * (k + 1) == l.group * l.entry * k + l.group * l.entry
    ensures CopyAt(l, fmo, k + 1) == CopyAt(l, fmo, k) + l.meta + l.group * l.entry
    ensures len <= fmo + l.group * l.entry * k + l.group * l.entry ==>
              CopyAt(l, fmo, k) + l.meta + (len - (fmo + l.group * l.entry * k)) == ScatteredLen(l, len, fmo)
  {
    var P := l.group * l.entry;
    MulSteps(P, k, 1);
    MulSteps(l.GroupBytes(), k, 1);
    GroupInRange(l, len - fmo, k, 0);
    if len <= fmo + P * k + P {
      CeilIs(len - fmo, P, k + 1);
      MulSteps(l.meta, k, 1);
    }
  }

  /** encode_segment_metadata; with fmo 0 also encode_node_metadata. */
  method ScatterMetadata(l: Layout, input: array<Byte>, output: array<Byte>, fmo: nat, meta: array<Byte>)
    requires l.Valid() && input != output && meta != output && meta.Length == l.meta
    requires fmo <= input.Length && output.Length == ScatteredLen(l, input.Length, fmo)
    modifies output
    ensures output[..] == Scatter(l, input[..], fmo, meta[..])
  {
    hide Scatter, ScatteredLen, CopyAt;
    ghost var all := Scatter(l, input[..], fmo, meta[..]);
    ScatterHead(l, input[..], fmo, meta[..]);
    Copy(input, 0, output, 0, fmo);
    var i, j := fmo, fmo;
    ghost var k := 0;
    assert output[..j] == all[..j];
    assert l.group * l.entry * k == 0;
    while i < input.Length
      invariant 0 <= k && i == fmo + l.group * l.entry * k
      invariant i < input.Length ==> j == CopyAt(l, fmo, k)
      invariant i >= input.Length ==> j == output.Length
      invariant 0 <= j <= output.Length && output[..j] == all[..j]
      decreases input.Length - i
    {
      var n := Min(l.group * l.entry, input.Length - i);
      NextCopy(l, input.Length, fmo, k);
      ScatterGroup(l, input, output, fmo, meta, i, j, k);
      i, j, k := i + l.group * l.entry, j + l.meta + n, k + 1;
    }
    assert output[..output.Length] == output[..];
  }

  /** The entries behind one copy. */
  method GatherGroup(l: Layout, input: array<Byte>, output: array<Byte>, fmo: nat, i: nat, j: nat, ghost k: nat)
    requires l.Valid() && input != output && fmo <= output.Length && input.Length == ScatteredLen(l, output.Length, fmo)
    requires i == fmo + l.group * l.entry * k < output.Length && j == CopyAt(l, fmo, k)
    requires output[..i] == Gather(l, input[..], output.Length, fmo)[..i]
    modifies output
    ensures var n := Min(l.group * l.entry, output.Length - i);
            output[..i + n] == Gather(l, input[..], output.Length, fmo)[..i + n]
  {
    hide Gather, ScatteredLen, CopyAt, Spread, Ceil;
    ghost var raw, len := input[..], output.Length;
    ghost var all := Gather(l, raw, len, fmo);
    var n := Min(l.group * l.entry, output.Length - i);
    SpreadInGroup(l, len, fmo, k, n - 1);
    Copy(input, j + l.meta, output, i, n);
    ghost var got, want := output[i..i + n], all[i..i + n];
    forall t | 0 <= t < n ensures got[t] == want[t] {
      SpreadInGroup(l, len, fmo, k, t);
      GatherAt(l, raw, len, fmo, i + t);
      assert got[t] == input[j + l.meta..j + l.meta + n][t];
    }
    assert output[..i + n] == output[..i] + got && all[..i + n] == all[..i] + want;
  }

  /** What decode_segment_metadata asserts: every copy in the buffer is the first one. */
  ghost predicate CopiesAgree(l: Layout, raw: seq<Byte>, len: nat, fmo: nat)
    requires l.Valid() && fmo <= len
  {
    forall k :: 0 <= k < Ceil(len - fmo, l.group * l.entry) ==>
                  && CopyAt(l, fmo, k) + l.meta <= |raw| && fmo + l.meta <= |raw|
                  && raw[CopyAt(l, fmo, k)..CopyAt(l, fmo, k) + l.meta] == raw[fmo..fmo + l.meta]
  }

  lemma CopyAgrees(l: Layout, raw: seq<Byte>, len: nat, fmo: nat, k: nat)
    requires l.Valid() && fmo + l.group * l.entry * k < len && CopiesAgree(l, raw, len, fmo)
    ensures CopyAt(l, fmo, k) + l.meta <= |raw| && fmo + l.meta <= |raw|
    ensures raw[CopyAt(l, fmo, k)..CopyAt(l, fmo, k) + l.meta] == raw[fmo..fmo + l.meta]
  {
    hide CopyAt, Ceil;
    GroupInRange(l, len - fmo, k, 0);
  }

  /** A scattered segment meets the assertion, and its first copy is the metadata. */
  lemma ScatteredAgrees(l: Layout, e: seq<Byte>, fmo: nat, meta: seq<Byte>)
    requires l.Valid() && |meta| == l.meta && fmo <= |e|
    ensures CopiesAgree(l, Scatter(l, e, fmo, meta), |e|, fmo)
    ensures fmo < |e| ==>
              fmo + l.meta <= |Scatter(l, e, fmo, meta)| && Scatter(l, e, fmo, meta)[fmo..fmo + l.meta] == meta
  {
    hide Scatter, CopyAt, Ceil;
    ScatterHead(l, e, fmo, meta);
    var n := Ceil(|e| - fmo, l.group * l.entry);
    forall k | 0 <= k < n
      ensures CopyAt(l, fmo, k) + l.meta <= |Scatter(l, e, fmo, meta)|
      ensures Scatter(l, e, fmo, meta)[CopyAt(l, fmo, k)..CopyAt(l, fmo, k) + l.meta] == meta
    {
      MetadataCopies(l, e, fmo, meta, k);
    }
    if n > 0 {
      MetadataCopies(l, e, fmo, meta, 0);
    }
    if fmo < |e| {
      assert l.group * l.entry * 0 == 0;
      GroupInRange(l, |e| - fmo, 0, 0);
    }
  }

  /** The loop of decode_segment_metadata, group by group. */
  method GatherGroups(l: Layout, input: array<Byte>, output: array<Byte>, fmo: nat)
    requires l.Valid() && input != output && fmo < output.Length
    requires input.Length == ScatteredLen(l, output.Length, fmo)
    requires output[..fmo] == Gather(l, input[..], output.Length, fmo)[..fmo] && CopyAt(l, fmo, 0) == fmo
    modifies output
    ensures output[..] == Gather(l, input[..], output.Length, fmo)
  {
    hide Gather, ScatteredLen, CopyAt, Ceil;
    ghost var all := Gather(l, input[..], output.Length, fmo);
    var i, j := fmo, fmo;
    ghost var k := 0;
    assert l.group * l.entry * k == 0;
    while j < output.Length
      invariant 0 <= k && j == fmo + l.group * l.entry * k
      invariant j < output.Length ==> i == CopyAt(l, fmo, k)
      invariant output[..Min(j, output.Length)] == all[..Min(j, output.Length)]
      decreases output.Length - j
    {
      NextCopy(l, output.Length, fmo, k);
      GatherGroup(l, input, output, fmo, j, i, k);
      i, j, k := i + l.meta + l.group * l.entry, j + l.group * l.entry, k + 1;
    }
    assert output[..output.Length] == output[..];
  }

  /** decode_segment_metadata; with fmo 0 also decode_node_metadata. Without a copy in the segment there is no
      metadata to return. */
  method GatherMetadata(l: Layout, input: array<Byte>, output: array<Byte>, fmo: nat)
    returns (found: bool, meta: seq<Byte>)
    requires l.Valid() && input != output && fmo <= output.Length
    requires input.Length == ScatteredLen(l, output.Length, fmo) && CopiesAgree(l, input[..], output.Length, fmo)
    modifies output
    ensures output[..] == Gather(l, input[..], output.Length, fmo)
    ensures found <==> fmo < output.Length
    ensures found ==> fmo + l.meta <= input.Length && meta == input[fmo..fmo + l.meta]
  {
    hide Gather, ScatteredLen, CopyAt, Ceil, CopiesAgree;
    ghost var all := Gather(l, input[..], output.Length, fmo);
    GatherHead(l, input[..], output.Length, fmo);
    Copy(input, 0, output, 0, fmo);
    assert output[..fmo] == all[..fmo];
    if fmo >= output.Length {
      assert output[..fmo] == output[..] && all[..fmo] == all;
      return false, [];
    }
    CopyAgrees(l, input[..], output.Length, fmo, 0);
    GatherGroups(l, input, output, fmo);
    return true, input[fmo..fmo + l.meta];
  }

  lemma GatherHead(l: Layout, raw: seq<Byte>, len: nat, fmo: nat)
    requires l.Valid() && fmo <= len && |raw| == ScatteredLen(l, len, fmo)
    ensures fmo <= |raw| && Gather(l, raw, len, fmo)[..fmo] == raw[..fmo] && CopyAt(l, fmo, 0) == fmo
  {}

  lemma GatherAt(l: Layout, raw: seq<Byte>, len: nat, fmo: nat, p: nat)
    requires l.Valid() && fmo <= p < len && |raw| == ScatteredLen(l, len, fmo)
    ensures Spread(l, fmo, p) < |raw| && Gather(l, raw, len, fmo)[p] == raw[Spread(l, fmo, p)]
  {
    SpreadBack(l, len, fmo, p);
  }

  // ---------------------------------------------------------------- versions

  /** Where a segment write finds the version of hopped entry idx: among the entries before the first
      copy, or in a group after it. */
  function VersionPos(l: Layout, start: nat, num: nat, idx: nat): (x: int)
    requires l.Valid() && start <= idx
  {
    var left := FirstMetadata(l, start, num) / l.entry;
    if idx - start < left then l.entry * (idx - start)
    else
      var i := idx - start - left;
      FirstMetadata(l, start, num) + i / l.group * l.GroupBytes() + l.meta + i % l.group * l.entry
  }

  lemma VersionPosIs(l: Layout, start: nat, num: nat, idx: nat)
    requires l.Valid() && start <= idx < start + num
    ensures l.Offset(start) + VersionPos(l, start, num, idx) == EntryAt(l, idx)
  {
    hide Ceil, FirstMetadata;
    var h, t := NextGroup(l, start);
    FirstMetadataIs(l, start, num, h, t);
    OffsetBefore(l, start, h, t);
    var left := if num <= t then num else t;
    DivIs(l.entry * left, l.entry, left);
    DivMul(idx, l.group);
    StructOffsetIs(l, idx);
    if idx - start < left {
      VersionInTail(l, start, h, t, idx);
    } else {
      VersionInGroup(l, start, h, t, idx);
    }
  }

  lemma VersionInTail(l: Layout, start: nat, h: nat, t: nat, idx: nat)
    requires BeforeGroup(l, start, h, t) && start <= idx < start + t
    ensures l.Offset(start) + l.entry * (idx - start) == EntryAt(l, idx)
  {
    hide Ceil;
    assert h > 0 by { assert h == 0 ==> l.group * h == 0; }
    MulSteps(l.group, h, 1);
    DivIs(idx, l.group, h - 1);
    CeilIs(start, l.group, h);
    CeilIs(idx, l.group, h);
    MulSteps(l.entry, idx, start);
  }

  lemma VersionInGroup(l: Layout, start: nat, h: nat, t: nat, idx: nat)
    requires BeforeGroup(l, start, h, t) && start + t <= idx
    ensures var i := idx - start - t;
            l.Offset(start) + (l.entry * t + i / l.group * l.GroupBytes() + l.meta + i % l.group * l.entry) ==
              EntryAt(l, idx)
  {
    hide Ceil;
    var i, G := idx - start - t, l.GroupBytes();
    OffsetBefore(l, start, h, t);
    DivMul(i, l.group);
    MulSteps(l.group, h, i / l.group);
    DivIs(idx, l.group, h + i / l.group);
    StructOffsetIs(l, idx);
    MulSteps(G, h, i / l.group);
    assert i / l.group * G == G * (i / l.group) && idx / l.group * G == G * (idx / l.group);
    assert idx % l.group == 0 ==> idx % l.group * l.entry == 0;
  }

  lemma EntryAtIncreases(l: Layout, i: nat, j: nat)
    requires l.Valid() && i < j
    ensures EntryAt(l, i) + l.entry <= l.Offset(j) <= EntryAt(l, j)
  {
    hide Ceil;
    EntryEnds(l, i);
    OffsetMonotone(l, i + 1, j);
  }

  ghost predicate HasVersion(l: Layout, start: nat, num: nat, hopped: seq<nat>, x: int)
    requires l.Valid()
  {
    exists m :: 0 <= m < |hopped| && start <= hopped[m] < start + num && x == EntryAt(l, hopped[m]) - l.Offset(start)
  }

  lemma VersionOfOne(l: Layout, start: nat, num: nat, hopped: seq<nat>, m: nat, x: int)
    requires l.Valid() && m < |hopped| && forall a, b :: 0 <= a < b < |hopped| ==> hopped[a] != hopped[b]
    ensures HasVersion(l, start, num, hopped[..m + 1], x) <==>
              HasVersion(l, start, num, hopped[..m], x) ||
              (start <= hopped[m] < start + num && x == EntryAt(l, hopped[m]) - l.Offset(start))
    ensures HasVersion(l, start, num, hopped[..m], x) ==> x != EntryAt(l, hopped[m]) - l.Offset(start)
  {
    hide EntryAt;
    if a :| 0 <= a < m && start <= hopped[a] < start + num && x == EntryAt(l, hopped[a]) - l.Offset(start) {
      assert hopped[..m][a] == hopped[a] == hopped[..m + 1][a];
      if hopped[a] < hopped[m] {
        EntryAtIncreases(l, hopped[a], hopped[m]);
      } else {
        EntryAtIncreases(l, hopped[m], hopped[a]);
      }
    }
    assert hopped[..m + 1][m] == hopped[m];
  }

  /** encode_segment_versions first increments the version of every hopped entry of the segment. */
  method BumpHopped(l: Layout, seg: array<Byte>, start: nat, num: nat, hopped: seq<nat>)
    requires l.Valid() && seg.Length == l.Offset(start + num) - l.Offset(start)
    requires forall a, b :: 0 <= a < b < |hopped| ==> hopped[a] != hopped[b]
    modifies seg
    ensures forall x :: 0 <= x < seg.Length ==>
              seg[x] == if HasVersion(l, start, num, hopped, x) then BumpEntry(old(seg[x])) else old(seg[x])
  {
    hide EntryAt, VersionPos, HasVersion, BumpEntry;
    HasNoVersion(l, start, num);
    for m := 0 to |hopped|
      invariant forall x :: 0 <= x < seg.Length ==>
                  seg[x] == if HasVersion(l, start, num, hopped[..m], x) then BumpEntry(old(seg[x])) else old(seg[x])
    {
      var idx := hopped[m];
      forall x | 0 <= x < seg.Length
        ensures HasVersion(l, start, num, hopped[..m + 1], x) <==>
                  HasVersion(l, start, num, hopped[..m], x) ||
                  (start <= idx < start + num && x == EntryAt(l, idx) - l.Offset(start))
        ensures HasVersion(l, start, num, hopped[..m], x) ==> x != EntryAt(l, idx) - l.Offset(start)
      {
        VersionOfOne(l, start, num, hopped, m, x);
      }
      if start <= idx < start + num {
        VersionPosIs(l, start, num, idx);
        VersionInSegment(l, start, num, idx);
        var x := VersionPos(l, start, num, idx);
        seg[x] := BumpEntry(seg[x]);
      }
    }
    assert hopped[..|hopped|] == hopped;
  }

  lemma HasNoVersion(l: Layout, start: nat, num: nat)
    requires l.Valid()
    ensures forall hopped: seq<nat>, x :: hopped == [] ==> !HasVersion(l, start, num, hopped, x)
  {
  }

  lemma VersionInSegment(l: Layout, start: nat, num: nat, idx: nat)
    requires l.Valid() && start <= idx < start + num
    ensures l.Offset(start) <= EntryAt(l, idx) < l.Offset(start + num)
  {
    hide Ceil;
    OffsetMonotone(l, start, idx);
    OffsetMonotone(l, idx + 1, start + num);
    EntryEnds(l, idx);
  }

  lemma QuotientSmall(x: nat, e: nat, n: nat)
    requires e > 0 && x < n * e
    ensures x / e < n
  {}

  lemma ObjectForm(l: Layout, o: nat) returns (g: nat, q: nat)
    requires l.Valid() && l.Owner(o) == o
    ensures q < l.group && (o == l.GroupBytes() * g + l.meta + l.entry * q || (q == 0 && o == l.GroupBytes() * g))
  {
    g := o / l.GroupBytes();
    var r := o - FloorTo(o, l.GroupBytes());
    q := 0;
    if r >= l.meta {
      q := (r - l.meta) / l.entry;
      QuotientSmall(r - l.meta, l.entry, l.group);
    }
  }

  /** Every object of the node is an entry or the metadata in front of a group. */
  lemma ObjectIs(l: Layout, o: nat) returns (i: nat)
    requires l.Valid() && o < l.Size() && l.Owner(o) == o
    ensures i < l.span && (o == EntryAt(l, i) || (i % l.group == 0 && o == l.Offset(i)))
  {
    hide Ceil, FloorTo;
    var g, q := ObjectForm(l, o);
    i := l.group * g + q;
    DivIs(i, l.group, g);
    StructOffsetIs(l, i);
    assert g * l.GroupBytes() == l.GroupBytes() * g && q * l.entry == l.entry * q && (q == 0 ==> l.entry * q == 0);
    if i >= l.span {
      OffsetMonotone(l, l.span, i);
      assert false;
    }
  }

  /** The joint check at the end of decode_node_versions. */
  method CheckNodeVersions(l: Layout, d: seq<Byte>) returns (ok: bool)
    requires l.Valid() && |d| == l.Size() > 0
    ensures ok <==> OneNodeVersion(l.Framed(), d, NodeVersion(d[0]))
  {
    hide EntryAt, Ceil, NodeVersion, FloorTo;
    ghost var v := NodeVersion(d[0]);
    for i := 0 to l.span
      invariant forall x :: 0 <= x < i ==> ObjectsCarry(l, d, v, x)
    {
      VersionInSegment(l, i, 1, i);
      OffsetMonotone(l, i + 1, l.span);
      EntryExtent(l, i, 0);
      OffsetIsStart(l, i);
      if i % l.group == 0 && NodeVersion(d[l.Offset(i)]) != NodeVersion(d[0]) {
        return false;
      }
      if NodeVersion(d[EntryAt(l, i)]) != NodeVersion(d[0]) {
        return false;
      }
    }
    forall o | 0 <= o < l.Size() && l.Owner(o) == o ensures NodeVersion(d[o]) == v {
      var i := ObjectIs(l, o);
      assert ObjectsCarry(l, d, v, i);
    }
    return true;
  }

  /** The objects of a segment are its entries and the copies in front of them. */
  lemma SegmentObject(l: Layout, start: nat, num: nat, o: nat) returns (i: nat)
    requires l.Valid() && start + num <= l.span && l.Offset(start) <= o < l.Offset(start + num) && l.Owner(o) == o
    ensures start <= i < start + num && (o == EntryAt(l, i) || (i % l.group == 0 && o == l.Offset(i)))
  {
    hide EntryAt, Ceil, FloorTo;
    OffsetMonotone(l, start + num, l.span);
    i := ObjectIs(l, o);
    VersionInSegment(l, i, 1, i);
    if i < start {
      EntryAtIncreases(l, i, start);
      assert false;
    }
    if i >= start + num {
      OffsetMonotone(l, start + num, i);
      assert false;
    }
  }

  /** The joint check at the end of decode_segment_versions. */
  method CheckSegmentVersions(l: Layout, d: seq<Byte>, start: nat, num: nat) returns (ok: bool)
    requires l.Valid() && start + num <= l.span && num > 0 && |d| == l.Offset(start + num) - l.Offset(start) > 0
    ensures ok <==> OneNodeVersion(SegmentFrame(l, start, num), d, NodeVersion(d[0]))
  {
    hide EntryAt, Ceil, NodeVersion, FloorTo;
    ghost var v, a := NodeVersion(d[0]), l.Offset(start);
    for i := start to start + num
      invariant forall x :: start <= x < i ==> SegmentCarries(l, d, start, v, x)
    {
      VersionInSegment(l, start, num, i);
      OffsetMonotone(l, start, i);
      OffsetMonotone(l, i, start + num);
      VersionInSegment(l, i, 1, i);
      EntryExtent(l, i, 0);
      OffsetIsStart(l, i);
      if i % l.group == 0 && NodeVersion(d[l.Offset(i) - l.Offset(start)]) != NodeVersion(d[0]) {
        return false;
      }
      if NodeVersion(d[EntryAt(l, i) - l.Offset(start)]) != NodeVersion(d[0]) {
        return false;
      }
    }
    var g := SegmentFrame(l, start, num);
    forall o | 0 <= o < g.size && g.owner(o) == o ensures NodeVersion(d[o]) == v {
      ObjectStart(l, start, num, o);
      var i := SegmentObject(l, start, num, a + o);
      assert SegmentCarries(l, d, start, v, i);
    }
    return true;
  }

  ghost predicate SegmentCarries(l: Layout, d: seq<Byte>, start: nat, v: nat, i: nat)
    requires l.Valid()
  {
    var a := l.Offset(start);
    && a <= EntryAt(l, i) < a + |d| && NodeVersion(d[EntryAt(l, i) - a]) == v
    && (i % l.group == 0 ==> a <= l.Offset(i) < a + |d| && NodeVersion(d[l.Offset(i) - a]) == v)
  }

  lemma ObjectStart(l: Layout, start: nat, num: nat, o: nat)
    requires l.Valid() && start + num <= l.span && o < SegmentFrame(l, start, num).size
    ensures SegmentFrame(l, start, num).owner(o) == o <==> l.Owner(l.Offset(start) + o) == l.Offset(start) + o
  {
    OffsetsAlign(l, start, start + num);
  }

  ghost predicate ObjectsCarry(l: Layout, d: seq<Byte>, v: nat, i: nat)
    requires l.Valid()
  {
    && EntryAt(l, i) < |d| && NodeVersion(d[EntryAt(l, i)]) == v
    && (i % l.group == 0 ==> l.Offset(i) < |d| && NodeVersion(d[l.Offset(i)]) == v)
  }
}
