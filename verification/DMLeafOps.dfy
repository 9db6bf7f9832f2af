/** The DMTree leaf as buffers changed in place, method by method, against the functions of DMLeaf. */
module DMLeafOps {

  import opened Common
  import opened KeyOrder
  import opened DMLeaf

  /** A fingerprint table of fixed capacity. */
  class FPTable {
    var version: nat
    const fp: array<nat>

    ghost function View(): Table
      reads this, fp
    {
      Table(version, fp[..])
    }

    constructor (capacity: nat, version: nat)
      ensures fresh(fp) && View() == Table(version, Blank(capacity).fp)
    {
      this.version := version;
      fp := new nat[capacity](_ => 0);
      new;
      assert fp[..] == Blank(capacity).fp;
    }

    /** The first slot holding f, if any: search, and with f = 0 the slot insert takes. */
    method Search(f: nat) returns (ok: bool, id: nat)
      ensures id == FirstFp(fp[..], f, 0)
      ensures ok <==> f in fp[..]
    {
      id := 0;
      while id < fp.Length && fp[id] != f
        invariant 0 <= id <= fp.Length
        invariant FirstFp(fp[..], f, 0) == FirstFp(fp[..], f, id)
      {
        id := id + 1;
      }
      ok := id < fp.Length;
    }

    method Insert(f: nat) returns (ok: bool, id: nat)
      modifies fp
      ensures id == FirstFp(old(fp[..]), 0, 0) && (ok <==> 0 in old(fp[..]))
      ensures fp[..] == if ok then old(fp[..])[id := f] else old(fp[..])
    {
      ok, id := Search(0);
      if ok {
        fp[id] := f;
      }
    }

    method EntryNum() returns (n: nat)
      ensures n == |set i | 0 <= i < fp.Length && fp[i] != 0|
    {
      n := 0;
      ghost var seen: set<int> := {};
      for i := 0 to fp.Length
        invariant seen == set j | 0 <= j < i && fp[j] != 0
        invariant n == |seen|
      {
        if fp[i] != 0 {
          n := n + 1;
          seen := seen + {i};
        }
      }
    }
  }

  /** Header and entries of a leaf node. */
  class LeafBuffer {
    var header: Header
    const entries: array<Entry>

    constructor (header: Header)
      ensures fresh(entries) && this.header == header && entries[..] == Blank(header.capacity).entries
    {
      this.header := header;
      entries := new Entry[header.capacity](_ => BLANK);
      new;
      assert entries[..] == Blank(header.capacity).entries;
    }
  }

  ghost function View(b: LeafBuffer, t: FPTable): Leaf
    reads b, b.entries, t, t.fp
  {
    Leaf(b.header, t.View(), b.entries[..])
  }

  ghost function SideOf(b: LeafBuffer, t: FPTable): Side
    reads b.entries, t.fp
  {
    Side(t.fp[..], b.entries[..])
  }

  /** leaf_insert on a leaf whose table is locked. */
  method LeafInsert(h: Hash, b: LeafBuffer, t: FPTable, k: Key, v: Value) returns (full: bool)
    requires b.entries.Length == t.fp.Length
    modifies b.entries, t.fp
    ensures var r := Insert(h, old(View(b, t)), k, v);
            if r.Full? then full && View(b, t) == old(View(b, t)) else !full && View(b, t) == r.leaf
  {
    ghost var l := View(b, t);
    var f := Fingerprint(h, k);
    var i := 0;
    while i < b.entries.Length
      invariant 0 <= i <= b.entries.Length
      invariant View(b, t) == l
      invariant Accepting(h, l, k, 0) == Accepting(h, l, k, i)
    {
      if t.fp[i] == f {
        var e := EntryInsert(b.entries[i], k, v);
        if e.Some? {
          b.entries[i] := e.value;
          return false;
        }
      }
      i := i + 1;
    }
    var ok, s := t.Search(0);
    if ok {
      b.entries[s] := NewEntry(t.version, k, v);
      t.fp[s] := f;
      return false;
    }
    full := true;
  }

  method InsertPair(h: Hash, b: LeafBuffer, t: FPTable, p: Pair)
    requires b.entries.Length == t.fp.Length
    requires FillOne(h, SideOf(b, t), p).Some?
    modifies b.entries, t.fp
    ensures SideOf(b, t) == FillOne(h, old(SideOf(b, t)), p).value
  {
    var ok, id := t.Insert(Fingerprint(h, p.key));
    b.entries[id] := EntryInsert(b.entries[id], p.key, p.value).value;
  }

  /** The first loop of leaf_resize: every entry is collected, cleaned and given the next version. */
  method Collect(b: LeafBuffer, first: Pair) returns (ps: seq<Pair>)
    modifies b.entries
    ensures ps == [first] + Gather(old(b.entries[..]), 0)
    ensures b.entries[..] == CleanedAll(old(b.entries[..]))
  {
    ps := [first];
    ghost var es := b.entries[..];
    for i := 0 to b.entries.Length
      invariant forall j :: i <= j < b.entries.Length ==> b.entries[j] == es[j]
      invariant forall j :: 0 <= j < i ==> b.entries[j] == Cleaned(es[j])
      invariant ps + Gather(es, i) == [first] + Gather(es, 0)
    {
      var e := b.entries[i];
      if e.valid {
        ps := ps + [Keyed(e.key, e.value)];
      }
      b.entries[i] := Cleaned(e);
    }
  }

  lemma {:induction false} FillPrefix(h: Hash, s: Side, ps: seq<Pair>, i: nat)
    requires |s.fp| == |s.entries| && i < |ps| && Fill(h, s, ps).Some?
    ensures Fill(h, s, ps[..i]).Some?
    ensures FillOne(h, Fill(h, s, ps[..i]).value, ps[i]) == Fill(h, s, ps[..i + 1])
    ensures Fill(h, s, ps[..i + 1]).Some?
    decreases |ps|
  {
    if i + 1 == |ps| {
      assert ps[..i + 1] == ps;
    } else {
      var qs := ps[..|ps| - 1];
      FillPrefix(h, s, qs, i);
      assert qs[..i] == ps[..i] && qs[..i + 1] == ps[..i + 1];
    }
  }

  /** The loop that hands the pairs to their side, which is empty and has room for them. */
  method FillSide(h: Hash, b: LeafBuffer, t: FPTable, ps: seq<Pair>, ghost version: nat)
    requires b.entries.Length == t.fp.Length >= |ps| && Packed(h, SideOf(b, t), [], version)
    modifies b.entries, t.fp
    ensures Fill(h, old(SideOf(b, t)), ps) == Some(SideOf(b, t))
    ensures Packed(h, SideOf(b, t), ps, version)
  {
    hide Packed, FillOne;
    ghost var s := SideOf(b, t);
    FillPacked(h, s, ps, version);
    for i := 0 to |ps|
      invariant Fill(h, s, ps[..i]) == Some(SideOf(b, t))
    {
      FillPrefix(h, s, ps, i);
      InsertPair(h, b, t, ps[i]);
    }
    assert ps[..|ps|] == ps;
  }

  lemma ResizeSucceeds(h: Hash, l: Leaf, k: Key, v: Value, sibling: nat, addr: Addr)
    requires LeafInv(h, l) && l.header.min <= k < l.header.max && k !in Contents(l.entries)
    requires sibling >= l.header.capacity
    ensures |l.entries| == l.header.capacity > 0 && Resize(h, l, k, v, sibling, addr).Some?
  {
    hide Contents, Resize;
    ResizeConserves(h, l, k, v, sibling, addr);
  }

  lemma SidesHaveRoom(h: Hash, l: Leaf, k: Key, v: Value, sibling: nat)
    requires LeafInv(h, l) && l.header.min <= k < l.header.max && k !in Contents(l.entries)
    requires sibling >= l.header.capacity
    ensures var n := |SortedPairs(l, k, v)|;
            var split := SplitAt(l.header.capacity, sibling, n);
            split <= l.header.capacity && split < n <= split + sibling
    ensures Packed(h, Side(Blank(l.header.capacity).fp, CleanedAll(l.entries)), [], l.header.version + 1)
    ensures Packed(h, Blank(sibling), [], 0)
  {
    hide Contents, Packed;
    LeafParts(h, l);
    NothingPacked(h, Side(Blank(l.header.capacity).fp, CleanedAll(l.entries)), l.header.version + 1);
    NothingPacked(h, Blank(sibling), 0);
  }

  /** leaf_resize up to its writes: the buffer becomes the current half, the sibling is new. The two
      sides share nothing, so the loop over all pairs is one loop per side here. */
  method LeafResize(h: Hash, b: LeafBuffer, ghost l: Leaf, k: Key, v: Value, sibling: nat, addr: Addr)
    returns (t: FPTable, sb: LeafBuffer, st: FPTable)
    requires b.header == l.header && b.entries[..] == l.entries
    requires LeafInv(h, l) && l.header.min <= k < l.header.max && k !in Contents(l.entries)
    requires sibling >= l.header.capacity
    modifies b, b.entries
    ensures fresh(t) && fresh(t.fp) && fresh(sb) && fresh(sb.entries) && fresh(st) && fresh(st.fp)
    ensures Resize(h, l, k, v, sibling, addr) == Some(Halves(View(b, t), View(sb, st)))
  {
    hide LeafInv, Contents, KeysDistinct, Fill, SortPairs, FirstFp;
    ResizeSucceeds(h, l, k, v, sibling, addr);
    var capacity := b.header.capacity;
    var ps := Collect(b, Keyed(k, v));
    ps := SortPairs(ps);
    var split := SplitAt(capacity, sibling, |ps|);
    assert ps == SortedPairs(l, k, v);
    var hd := CurrentHeader(b.header, ps[split].key, addr, sibling);
    t := new FPTable(capacity, hd.version);
    sb := new LeafBuffer(SiblingHeader(b.header, hd.max, sibling));
    st := new FPTable(sibling, 0);
    SidesHaveRoom(h, l, k, v, sibling);
    FillSide(h, b, t, ps[..split], l.header.version + 1);
    FillSide(h, sb, st, ps[split..], 0);
    b.header := hd;
  }
}
