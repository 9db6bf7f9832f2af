/** The DMTree inner node as an array of records changed in place, against the functions of DMInner. */
module DMInnerOps {

  import opened Common
  import opened KeyOrder
  import opened DMInner

  datatype Slot = Slot(valid: bool, record: Record)

  ghost predicate Packs(ss: seq<Slot>, rs: seq<Record>) {
    && |rs| <= |ss|
    && (forall i :: 0 <= i < |rs| ==> ss[i] == Slot(true, rs[i]))
    && (forall i :: |rs| <= i < |ss| ==> !ss[i].valid)
  }

  class InnerNode {
    var min: Key
    var max: Key
    var right: Option<Addr>
    var isRoot: bool
    const leafParent: bool
    const slots: array<Slot>

    /** This node stands for n. */
    ghost predicate Is(n: Node)
      reads this, slots
    {
      && Node(min, max, right, isRoot, leafParent, n.records) == n
      && Packs(slots[..], n.records)
    }

    constructor (cap: nat, min: Key, max: Key, right: Option<Addr>, isRoot: bool, leafParent: bool)
      ensures fresh(slots) && slots.Length == cap && Is(Node(min, max, right, isRoot, leafParent, []))
    {
      this.min, this.max, this.right, this.isRoot, this.leafParent := min, max, right, isRoot, leafParent;
      slots := new Slot[cap](_ => Slot(false, Keyed(0, Child(0, 0, 0, 0))));
    }

    /** The records of the valid slots are sorted; they come first, as nothing is ever deleted. */
    method SortNode(ghost rs: seq<Record>)
      requires Packs(slots[..], rs) && |rs| > 0
      modifies slots
      ensures Packs(slots[..], SortPairs(rs))
    {
      var count := 0;
      var found: seq<Record> := [];
      for i := 0 to slots.Length
        invariant count == (if i <= |rs| then i else |rs|)
        invariant found == rs[..count]
      {
        if slots[i].valid {
          count := count + 1;
          found := found + [slots[i].record];
        }
      }
      assert found == rs;
      if count != 1 {
        var sorted := SortPairs(found);
        for i := 0 to count
          invariant forall j :: 0 <= j < i ==> slots[j] == Slot(true, sorted[j])
          invariant forall j :: count <= j < slots.Length ==> !slots[j].valid
        {
          slots[i] := Slot(true, sorted[i]);
        }
      } else {
        assert SortPairs(rs) == [rs[0]];
      }
    }

    method Insert(ghost rs: seq<Record>, r: Record) returns (ok: bool)
      requires Packs(slots[..], rs)
      modifies slots
      ensures var q := Place(slots.Length, rs, r);
              ok == q.Some? && Packs(slots[..], if q.Some? then q.value else rs)
    {
      var i := 0;
      while i < slots.Length
        invariant 0 <= i <= |rs|
        invariant KeyIndex(rs, r.key, 0) == KeyIndex(rs, r.key, i)
        invariant slots[..] == old(slots[..])
      {
        if !slots[i].valid {
          slots[i] := Slot(true, r);
          SortNode(rs + [r]);
          return true;
        }
        if slots[i].record.key == r.key {
          slots[i] := Slot(true, r);
          return true;
        }
        i := i + 1;
      }
      ok := false;
    }

    /** Greatest record key at or below k, in a node whose least key is at or below k. */
    method Search(ghost rs: seq<Record>, k: Key) returns (r: Record)
      requires Packs(slots[..], rs) && |rs| > 0 && rs[0].key <= k
      ensures r == Find(rs, k)
    {
      var i := 0;
      while i < slots.Length && slots[i].valid && slots[i].record.key <= k
        invariant 0 <= i <= |rs|
        invariant Above(rs, k, 0) == Above(rs, k, i)
      {
        i := i + 1;
      }
      r := slots[i - 1].record;
    }

    /** split on the origin: the upper half leaves the node. */
    method SplitOff(ghost rs: seq<Record>) returns (moved: seq<Record>)
      requires Packs(slots[..], rs) && |rs| == slots.Length > 0
      modifies slots
      ensures Packs(slots[..], rs[..slots.Length / 2]) && moved == rs[slots.Length / 2..]
    {
      moved := [];
      var half := slots.Length / 2;
      for i := half to slots.Length
        invariant moved == rs[half..i]
        invariant forall j :: 0 <= j < half || i <= j < slots.Length ==> slots[j] == Slot(true, rs[j])
        invariant forall j :: half <= j < i ==> !slots[j].valid
      {
        moved := moved + [slots[i].record];
        slots[i] := slots[i].(valid := false);
      }
    }

    /** split on the sibling: an empty node takes the records that left the origin. */
    method TakeIn(moved: seq<Record>)
      requires Packs(slots[..], []) && |moved| <= slots.Length
      modifies slots
      ensures Packs(slots[..], moved)
    {
      for i := 0 to |moved|
        invariant forall j :: 0 <= j < i ==> slots[j] == Slot(true, moved[j])
        invariant forall j :: i <= j < slots.Length ==> !slots[j].valid
      {
        slots[i] := Slot(true, moved[i]);
      }
    }

    /** node_split of this full node. The asserts on insert hold. */
    method NodeSplit(ghost n: Node, r: Record, at: Addr) returns (sibling: InnerNode)
      requires Is(n) && slots.Length >= 2 && |n.records| == slots.Length
      requires NodeInv(slots.Length, n) && n.Covers(r.key) && !HasKey(n.records, r.key)
      modifies this, slots
      ensures fresh(sibling) && fresh(sibling.slots) && sibling.slots.Length == slots.Length
      ensures var p := SplitNode(slots.Length, n, r, at);
              p.Some? && Is(p.value.origin) && sibling.Is(p.value.sibling)
    {
      hide NodeInv, Place, Packs;
      PacksLength(slots[..], n.records);
      SplitKeeps(slots.Length, n, r, at);
      ghost var half := slots.Length / 2;
      var moved := SplitOff(n.records);
      var upper := moved[0].key;
      sibling := new InnerNode(slots.Length, upper, max, right, false, leafParent);
      right, max, isRoot := Some(at), upper, false;
      if upper > r.key {
        var ok := Insert(n.records[..half], r);
      }
      sibling.TakeIn(moved);
      if upper < r.key {
        var ok := sibling.Insert(moved, r);
      }
    }
  }

  lemma PacksLength(ss: seq<Slot>, rs: seq<Record>)
    requires Packs(ss, rs)
    ensures |rs| <= |ss|
  {}
}
