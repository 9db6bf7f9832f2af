/** The versioned byte layout: a cache-line version byte in front of every block of data bytes. A frame
    describes any stretch of a node that is encoded on its own, be it the whole node or a segment. */
module VersionLayout {

  type Byte = b: int | 0 <= b < 256

  /** size data bytes; the first version byte comes after `first` of them, then one every `block`.
      owner(x) is the offset of the object (metadata or entry) that byte x belongs to; the object's
      own version is its first byte. */
  datatype Frame = Frame(size: nat, first: nat, block: nat, owner: nat -> nat) {
    ghost predicate Valid() {
      0 < block && first <= size && forall x :: 0 <= x < size ==> owner(x) <= x
    }

    /** Objects are contiguous. */
    ghost predicate Contiguous() {
      forall x, y :: 0 <= x < size && owner(x) <= y <= x ==> owner(y) == owner(x)
    }
  }

  function Min(x: int, y: int): int {
    if x < y then x else y
  }

  // ---------------------------------------------------------------- encode and decode

  /** The blocks from offset i on, each behind the version of the object its first byte belongs to. */
  function Blocks(f: Frame, d: seq<Byte>, i: nat): (r: seq<Byte>)
    requires f.Valid() && |d| == f.size
    decreases f.size - i
  {
    if i >= f.size then []
    else [d[f.owner(i)]] + d[i..Min(i + f.block, f.size)] + Blocks(f, d, i + f.block)
  }

  function Encode(f: Frame, d: seq<Byte>): (r: seq<Byte>)
    requires f.Valid() && |d| == f.size
  {
    d[..f.first] + Blocks(f, d, f.first)
  }

  /** The length of the blocks from offset i on. */
  function BlocksLen(f: Frame, i: nat): (n: nat)
    requires f.Valid()
    decreases f.size - i
  {
    if i >= f.size then 0 else 1 + (Min(i + f.block, f.size) - i) + BlocksLen(f, i + f.block)
  }

  /** The data bytes of the blocks. */
  function Data(f: Frame, raw: seq<Byte>, i: nat): (d: seq<Byte>)
    requires f.Valid() && |raw| == BlocksLen(f, i)
    ensures |d| == if i >= f.size then 0 else f.size - i
    decreases f.size - i
  {
    if i >= f.size then []
    else
      var n := Min(i + f.block, f.size) - i;
      raw[1..1 + n] + Data(f, raw[1 + n..], i + f.block)
  }

  function Decoded(f: Frame, raw: seq<Byte>): (d: seq<Byte>)
    requires f.Valid() && |raw| == f.first + BlocksLen(f, f.first)
    ensures |d| == f.size
  {
    raw[..f.first] + Data(f, raw[f.first..], f.first)
  }

  /** Every cache-line version equals the version of the object its line starts in. */
  predicate LinesMatch(f: Frame, raw: seq<Byte>, out: seq<Byte>, i: nat)
    requires f.Valid() && |out| == f.size && |raw| == BlocksLen(f, i)
    decreases f.size - i
  {
    i >= f.size ||
    var n := Min(i + f.block, f.size) - i;
    raw[0] == out[f.owner(i)] && LinesMatch(f, raw[1 + n..], out, i + f.block)
  }

  lemma BlocksStep(f: Frame, d: seq<Byte>, i: nat)
    requires f.Valid() && |d| == f.size
    ensures i >= f.size ==> Blocks(f, d, i) == []
    ensures i < f.size ==>
              Blocks(f, d, i) == ([d[f.owner(i)]] + d[i..Min(i + f.block, f.size)]) + Blocks(f, d, i + f.block)
  {
  }

  lemma BlocksLenEnd(f: Frame, i: nat)
    requires f.Valid() && i >= f.size
    ensures BlocksLen(f, i) == 0
  {
  }

  lemma BlocksLenStep(f: Frame, j: nat)
    requires f.Valid() && j < f.size
    ensures BlocksLen(f, j) == 1 + (Min(j + f.block, f.size) - j) + BlocksLen(f, j + f.block)
  {
  }

  lemma DataStep(f: Frame, raw: seq<Byte>, i: nat)
    requires f.Valid() && |raw| == BlocksLen(f, i)
    ensures i >= f.size ==> Data(f, raw, i) == []
    ensures i < f.size ==>
              var n := Min(i + f.block, f.size) - i;
              |raw| >= 1 + n && Data(f, raw, i) == raw[1..1 + n] + Data(f, raw[1 + n..], i + f.block)
  {
  }

  lemma LinesStep(f: Frame, raw: seq<Byte>, out: seq<Byte>, i: nat)
    requires f.Valid() && |out| == f.size && |raw| == BlocksLen(f, i)
    ensures i >= f.size ==> LinesMatch(f, raw, out, i)
    ensures i < f.size ==>
              var n := Min(i + f.block, f.size) - i;
              |raw| >= 1 + n &&
              (LinesMatch(f, raw, out, i) <==>
                raw[0] == out[f.owner(i)] && LinesMatch(f, raw[1 + n..], out, i + f.block))
  {
  }

  lemma {:induction false} BlocksRoundTrip(f: Frame, d: seq<Byte>, i: nat)
    requires f.Valid() && |d| == f.size
    ensures |Blocks(f, d, i)| == BlocksLen(f, i)
    ensures Data(f, Blocks(f, d, i), i) == if i < f.size then d[i..] else []
    ensures LinesMatch(f, Blocks(f, d, i), d, i)
    decreases f.size - i
  {
    hide Blocks, BlocksLen, Data, LinesMatch;
    BlocksStep(f, d, i);
    if i < f.size {
      BlocksRoundTrip(f, d, i + f.block);
      BlocksLenStep(f, i);
      var e := Min(i + f.block, f.size);
      var raw, rest := Blocks(f, d, i), Blocks(f, d, i + f.block);
      assert raw[0] == d[f.owner(i)] && raw[1..1 + (e - i)] == d[i..e] && raw[1 + (e - i)..] == rest;
      assert d[i..e] + d[e..] == d[i..];
    } else {
      BlocksLenEnd(f, i);
    }
    DataStep(f, Blocks(f, d, i), i);
    LinesStep(f, Blocks(f, d, i), d, i);
  }

  /** Decoding undoes encoding, and every line passes its check. */
  lemma RoundTrip(f: Frame, d: seq<Byte>)
    requires f.Valid() && |d| == f.size
    ensures |Encode(f, d)| == f.first + BlocksLen(f, f.first)
    ensures Decoded(f, Encode(f, d)) == d
    ensures LinesMatch(f, Encode(f, d)[f.first..], d, f.first)
  {
    hide Blocks, BlocksLen, Data, LinesMatch;
    BlocksRoundTrip(f, d, f.first);
    assert Encode(f, d)[f.first..] == Blocks(f, d, f.first);
    assert Encode(f, d)[..f.first] == d[..f.first];
  }

  // ---------------------------------------------------------------- torn reads

  /** pick says, for each cache line (by the offset of its first data byte), whether it was read
      before (d0) or after (d1) the write in flight. */
  function Source(d0: seq<Byte>, d1: seq<Byte>, pick: nat -> bool, line: nat): (d: seq<Byte>) {
    if pick(line) then d1 else d0
  }

  function TornBlocks(f: Frame, d0: seq<Byte>, d1: seq<Byte>, pick: nat -> bool, i: nat): (r: seq<Byte>)
    requires f.Valid() && |d0| == f.size == |d1|
    ensures |r| == BlocksLen(f, i)
    decreases f.size - i
  {
    if i >= f.size then []
    else
      var d := Source(d0, d1, pick, i);
      [d[f.owner(i)]] + d[i..Min(i + f.block, f.size)] + TornBlocks(f, d0, d1, pick, i + f.block)
  }

  /** A buffer whose lines each come from the encoding before or after the write. */
  function TornRaw(f: Frame, d0: seq<Byte>, d1: seq<Byte>, pick: nat -> bool): (r: seq<Byte>)
    requires f.Valid() && |d0| == f.size == |d1|
    ensures |r| == f.first + BlocksLen(f, f.first)
  {
    Source(d0, d1, pick, 0)[..f.first] + TornBlocks(f, d0, d1, pick, f.first)
  }

  /** The first data byte of the line of x, looking from line i on. */
  function LineFrom(f: Frame, i: nat, x: nat): (s: nat)
    requires f.Valid() && i <= x
    ensures i <= s <= x < s + f.block
    decreases x - i
  {
    if x < i + f.block then i else LineFrom(f, i + f.block, x)
  }

  function LineOf(f: Frame, x: nat): (s: nat)
    requires f.Valid()
    ensures s <= x
  {
    if x < f.first then 0 else LineFrom(f, f.first, x)
  }

  lemma {:induction false} LineFromConvex(f: Frame, i: nat, o: nat, x: nat)
    requires f.Valid() && i <= o <= x && LineFrom(f, i, x) <= o
    ensures LineFrom(f, i, o) == LineFrom(f, i, x)
    decreases x - i
  {
    if x >= i + f.block { LineFromConvex(f, i + f.block, o, x); }
  }

  lemma TornTail(f: Frame, d0: seq<Byte>, d1: seq<Byte>, pick: nat -> bool, i: nat)
    requires f.Valid() && |d0| == f.size == |d1| && i < f.size
    ensures var raw, n := TornBlocks(f, d0, d1, pick, i), Min(i + f.block, f.size) - i;
            && raw[0] == Source(d0, d1, pick, i)[f.owner(i)]
            && raw[1..1 + n] == Source(d0, d1, pick, i)[i..i + n]
            && raw[1 + n..] == TornBlocks(f, d0, d1, pick, i + f.block)
  {
  }

  lemma DataAt(f: Frame, raw: seq<Byte>, i: nat, x: nat)
    requires f.Valid() && |raw| == BlocksLen(f, i) && i <= x < f.size
    ensures x < i + f.block ==> Data(f, raw, i)[x - i] == raw[1 + (x - i)]
    ensures x >= i + f.block ==>
              Data(f, raw, i)[x - i] == Data(f, raw[1 + f.block..], i + f.block)[x - (i + f.block)]
  {
  }

  lemma {:induction false} TornData(f: Frame, d0: seq<Byte>, d1: seq<Byte>, pick: nat -> bool, i: nat, x: nat)
    requires f.Valid() && |d0| == f.size == |d1| && i <= x < f.size
    ensures Data(f, TornBlocks(f, d0, d1, pick, i), i)[x - i] == Source(d0, d1, pick, LineFrom(f, i, x))[x]
    decreases f.size - i
  {
    hide TornBlocks, Data;
    TornTail(f, d0, d1, pick, i);
    DataAt(f, TornBlocks(f, d0, d1, pick, i), i, x);
    if x >= i + f.block {
      TornData(f, d0, d1, pick, i + f.block, x);
    } else {
      var n := Min(i + f.block, f.size) - i;
      assert TornBlocks(f, d0, d1, pick, i)[1..1 + n][x - i] == Source(d0, d1, pick, i)[i..i + n][x - i];
    }
  }

  lemma {:induction false} TornHeader(f: Frame, d0: seq<Byte>, d1: seq<Byte>, pick: nat -> bool, out: seq<Byte>,
                                      i: nat, x: nat)
    requires f.Valid() && |d0| == f.size == |d1| == |out| && i <= x < f.size
    requires LinesMatch(f, TornBlocks(f, d0, d1, pick, i), out, i)
    ensures var s := LineFrom(f, i, x); Source(d0, d1, pick, s)[f.owner(s)] == out[f.owner(s)]
    decreases f.size - i
  {
    hide TornBlocks;
    TornTail(f, d0, d1, pick, i);
    if x >= i + f.block { TornHeader(f, d0, d1, pick, out, i + f.block, x); }
  }

  lemma TornDecodes(f: Frame, d0: seq<Byte>, d1: seq<Byte>, pick: nat -> bool, x: nat)
    requires f.Valid() && |d0| == f.size == |d1| && x < f.size
    ensures Decoded(f, TornRaw(f, d0, d1, pick))[x] == Source(d0, d1, pick, LineOf(f, x))[x]
  {
    var raw := TornRaw(f, d0, d1, pick);
    assert raw[f.first..] == TornBlocks(f, d0, d1, pick, f.first);
    if x >= f.first { TornData(f, d0, d1, pick, f.first, x); }
  }

  /** A field that lies in one line is read wholly from before or wholly from after the write, version or not. */
  lemma FieldNotTorn(f: Frame, d0: seq<Byte>, d1: seq<Byte>, pick: nat -> bool, x: nat, z: nat)
    requires f.Valid() && |d0| == f.size == |d1| && x < z <= f.size && LineOf(f, x) == LineOf(f, z - 1)
    ensures Decoded(f, TornRaw(f, d0, d1, pick))[x..z] == Source(d0, d1, pick, LineOf(f, x))[x..z]
  {
    hide TornRaw, Decoded;
    var got, want := Decoded(f, TornRaw(f, d0, d1, pick))[x..z], Source(d0, d1, pick, LineOf(f, x))[x..z];
    forall t | 0 <= t < z - x ensures got[t] == want[t] {
      TornDecodes(f, d0, d1, pick, x + t);
      if x + t >= f.first {
        LineFromConvex(f, f.first, x + t, z - 1);
      }
    }
  }

  /** decode_*_versions up to the joint node-version check. */
  predicate LinesPass(f: Frame, raw: seq<Byte>)
    requires f.Valid() && |raw| == f.first + BlocksLen(f, f.first)
  {
    LinesMatch(f, raw[f.first..], Decoded(f, raw), f.first)
  }

  /** An object whose version the write changed is read wholly from before or wholly from after it. */
  lemma ObjectNotTorn(f: Frame, d0: seq<Byte>, d1: seq<Byte>, pick: nat -> bool, x: nat)
    requires f.Valid() && f.Contiguous() && |d0| == f.size == |d1| && x < f.size
    requires LinesPass(f, TornRaw(f, d0, d1, pick)) && d0[f.owner(x)] != d1[f.owner(x)]
    ensures Decoded(f, TornRaw(f, d0, d1, pick))[x] == Source(d0, d1, pick, LineOf(f, f.owner(x)))[x]
  {
    var o, s := f.owner(x), LineOf(f, x);
    var raw := TornRaw(f, d0, d1, pick);
    var out := Decoded(f, raw);
    TornDecodes(f, d0, d1, pick, x);
    TornDecodes(f, d0, d1, pick, o);
    if s <= o {
      if o >= f.first { LineFromConvex(f, f.first, o, x); }
    } else {
      assert f.owner(s) == o;
      assert raw[f.first..] == TornBlocks(f, d0, d1, pick, f.first);
      TornHeader(f, d0, d1, pick, out, f.first, x);
    }
  }

  // ---------------------------------------------------------------- node and entry versions

  function NodeVersion(b: Byte): (v: nat)
    ensures v < 16
  {
    b % 16
  }

  function EntryVersion(b: Byte): (v: nat)
    ensures v < 16
  {
    b / 16
  }

  function PackVersion(node: nat, entry: nat): (b: Byte)
    requires node < 16 && entry < 16
    ensures NodeVersion(b) == node && EntryVersion(b) == entry
  {
    node + 16 * entry
  }

  /** The increment of a hopped or rewritten entry. */
  function BumpEntry(b: Byte): (r: Byte)
    ensures r != b && NodeVersion(r) == NodeVersion(b)
  {
    PackVersion(NodeVersion(b), (EntryVersion(b) + 1) % 16)
  }

  /** The version of an entry that was rewritten n times. */
  function BumpTimes(b: Byte, n: nat): (r: Byte) {
    if n == 0 then b else BumpEntry(BumpTimes(b, n - 1))
  }

  /** Every rewrite counts the entry version up by one, modulo sixteen, and leaves the node version alone; so
      fewer than sixteen rewrites never bring a version back. */
  lemma {:induction false} BumpTimesIs(b: Byte, n: nat)
    ensures EntryVersion(BumpTimes(b, n)) == (EntryVersion(b) + n) % 16
    ensures NodeVersion(BumpTimes(b, n)) == NodeVersion(b)
    ensures 0 < n < 16 ==> BumpTimes(b, n) != b
    ensures n == 16 ==> BumpTimes(b, n) == b
  {
    hide NodeVersion, EntryVersion;
    if n == 0 {
      SumModulo(EntryVersion(b), 0);
    } else {
      BumpTimesIs(b, n - 1);
      BumpIs(BumpTimes(b, n - 1));
      SumModulo(EntryVersion(b), n);
    }
    VersionsTell(b, BumpTimes(b, n));
  }

  lemma BumpIs(b: Byte)
    ensures EntryVersion(BumpEntry(b)) == (EntryVersion(b) + 1) % 16 && NodeVersion(BumpEntry(b)) == NodeVersion(b)
  {
    hide NodeVersion, EntryVersion;
  }

  lemma SumModulo(x: nat, n: nat)
    requires x < 16
    ensures n > 0 ==> ((x + (n - 1)) % 16 + 1) % 16 == (x + n) % 16
    ensures n == 0 || n == 16 ==> (x + n) % 16 == x
    ensures 0 < n < 16 ==> (x + n) % 16 != x
  {}

  lemma VersionsTell(a: Byte, b: Byte)
    ensures a == b <==> NodeVersion(a) == NodeVersion(b) && EntryVersion(a) == EntryVersion(b)
  {}

  /** encode_node_versions first gives every object the incremented node version. */
  function BumpNode(f: Frame, d: seq<Byte>): (r: seq<Byte>)
    requires f.Valid() && |d| == f.size > 0
    ensures |r| == f.size
  {
    seq(f.size, x requires 0 <= x < f.size =>
      if f.owner(x) == x then PackVersion((NodeVersion(d[0]) + 1) % 16, EntryVersion(d[x])) else d[x])
  }

  /** The joint check of decode_*_versions: all objects carry one node version. */
  ghost predicate OneNodeVersion(f: Frame, d: seq<Byte>, v: nat)
    requires |d| == f.size
  {
    forall o :: 0 <= o < f.size && f.owner(o) == o ==> NodeVersion(d[o]) == v
  }

  /** With different node versions before and after, the joint check fixes the source of every byte. */
  lemma ByteNotTorn(f: Frame, d0: seq<Byte>, d1: seq<Byte>, pick: nat -> bool, v: nat, w0: nat, w1: nat, x: nat)
    requires f.Valid() && f.Contiguous() && |d0| == f.size == |d1| && x < f.size && w0 != w1
    requires OneNodeVersion(f, d0, w0) && OneNodeVersion(f, d1, w1)
    requires LinesPass(f, TornRaw(f, d0, d1, pick)) && OneNodeVersion(f, Decoded(f, TornRaw(f, d0, d1, pick)), v)
    ensures Decoded(f, TornRaw(f, d0, d1, pick))[x] == (if v == w0 then d0 else d1)[x]
  {
    hide TornRaw, LinesPass, Decoded, NodeVersion;
    var o := f.owner(x);
    assert f.owner(o) == o;
    ObjectNotTorn(f, d0, d1, pick, x);
    ObjectNotTorn(f, d0, d1, pick, o);
  }

  lemma BumpNodeVersion(f: Frame, c: seq<Byte>)
    requires f.Valid() && |c| == f.size > 0
    ensures OneNodeVersion(f, BumpNode(f, c), (NodeVersion(c[0]) + 1) % 16)
    ensures NodeVersion(c[0]) != (NodeVersion(c[0]) + 1) % 16
  {
  }

  /** With different node versions before and after, a torn read that passes all checks is one of the two,
      and its node version tells which. */
  lemma OneSide(f: Frame, d0: seq<Byte>, d1: seq<Byte>, pick: nat -> bool, v: nat, w0: nat, w1: nat)
    requires f.Valid() && f.Contiguous() && |d0| == f.size == |d1| && w0 != w1
    requires OneNodeVersion(f, d0, w0) && OneNodeVersion(f, d1, w1)
    requires LinesPass(f, TornRaw(f, d0, d1, pick)) && OneNodeVersion(f, Decoded(f, TornRaw(f, d0, d1, pick)), v)
    ensures Decoded(f, TornRaw(f, d0, d1, pick)) == if v == w0 then d0 else d1
    ensures f.size > 0 ==> v == w0 || v == w1
  {
    hide TornRaw, LinesPass, Decoded, NodeVersion;
    var out, d := Decoded(f, TornRaw(f, d0, d1, pick)), if v == w0 then d0 else d1;
    forall x | 0 <= x < f.size ensures out[x] == d[x] {
      ByteNotTorn(f, d0, d1, pick, v, w0, w1, x);
    }
    if f.size > 0 {
      assert f.owner(0) == 0;
    }
  }

  /** A read torn by a whole-node write that passes all checks is the node before or the node after it. */
  lemma NodeNotTorn(f: Frame, d0: seq<Byte>, c: seq<Byte>, pick: nat -> bool, v: nat)
    requires f.Valid() && f.Contiguous() && |d0| == f.size == |c| && f.size > 0
    requires OneNodeVersion(f, d0, NodeVersion(c[0]))
    requires LinesPass(f, TornRaw(f, d0, BumpNode(f, c), pick))
    requires OneNodeVersion(f, Decoded(f, TornRaw(f, d0, BumpNode(f, c), pick)), v)
    ensures Decoded(f, TornRaw(f, d0, BumpNode(f, c), pick)) ==
            if v == NodeVersion(c[0]) then d0 else BumpNode(f, c)
  {
    hide TornRaw, LinesPass, Decoded, NodeVersion, BumpNode, OneNodeVersion;
    BumpNodeVersion(f, c);
    OneSide(f, d0, BumpNode(f, c), pick, v, NodeVersion(c[0]), (NodeVersion(c[0]) + 1) % 16);
  }

  // ---------------------------------------------------------------- whole nodes

  datatype NodeRead = Torn | Node(bytes: seq<Byte>)

  /** encode_node_versions: every object gets the next node version, then the lines get theirs. */
  function EncodeNode(f: Frame, d: seq<Byte>): (raw: seq<Byte>)
    requires f.Valid() && |d| == f.size > 0
  {
    Encode(f, BumpNode(f, d))
  }

  /** decode_node_versions: all lines and the joint check. */
  ghost function DecodeNode(f: Frame, raw: seq<Byte>): (r: NodeRead)
    requires f.Valid() && |raw| == f.first + BlocksLen(f, f.first) && f.size > 0
  {
    var d := Decoded(f, raw);
    if LinesPass(f, raw) && OneNodeVersion(f, d, NodeVersion(d[0])) then Node(d) else Torn
  }

  /** Decoding a written node gives it back, up to the node versions the write incremented. */
  lemma NodeRoundTrip(f: Frame, d: seq<Byte>)
    requires f.Valid() && |d| == f.size > 0
    ensures |EncodeNode(f, d)| == f.first + BlocksLen(f, f.first)
    ensures DecodeNode(f, EncodeNode(f, d)) == Node(BumpNode(f, d))
    ensures forall x :: 0 <= x < f.size ==>
              if f.owner(x) == x then
                && NodeVersion(BumpNode(f, d)[x]) == (NodeVersion(d[0]) + 1) % 16
                && EntryVersion(BumpNode(f, d)[x]) == EntryVersion(d[x])
              else BumpNode(f, d)[x] == d[x]
  {
    hide Encode, Decoded, LinesMatch, NodeVersion, EntryVersion;
    RoundTrip(f, BumpNode(f, d));
    BumpNodeVersion(f, d);
    assert f.owner(0) == 0;
  }
}
