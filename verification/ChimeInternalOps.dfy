/** CHIME internal nodes as arrays changed in place, against the functions of ChimeInternal. */
module ChimeInternalOps {

  import opened Common
  import opened KeyOrder
  import opened ChimeInternal

  const KEY_NULL: Key := 0
  const NULL_ENTRY: Separator := Keyed(KEY_NULL, NULL)

  /** The array es holds rs and then null entries. */
  ghost predicate Packs(es: seq<Separator>, rs: seq<Separator>) {
    && |rs| <= |es|
    && es[..|rs|] == rs
    && (forall i :: 0 <= i < |rs| ==> rs[i].key != KEY_NULL)
    && (forall i :: |rs| <= i < |es| ==> es[i] == NULL_ENTRY)
  }

  method InsertIndex(a: array<Separator>, num: nat, k: Key) returns (i: nat)
    requires num <= a.Length
    ensures i == Above(a[..num], k, 0)
  {
    i := 0;
    while i < num && a[i].key <= k
      invariant 0 <= i <= num
      invariant Above(a[..num], k, 0) == Above(a[..num], k, i)
    {
      i := i + 1;
    }
  }

  method ShiftUp(a: array<Separator>, num: nat, i: nat)
    requires i <= num < a.Length
    modifies a
    ensures forall l :: 0 <= l < i || num < l < a.Length ==> a[l] == old(a[l])
    ensures forall l :: i < l <= num ==> a[l] == old(a[l - 1])
  {
    var j := num;
    while j > i
      invariant i <= j <= num
      invariant forall l :: 0 <= l < j || num < l < a.Length ==> a[l] == old(a[l])
      invariant forall l :: j < l <= num ==> a[l] == old(a[l - 1])
    {
      a[j] := a[j - 1];
      j := j - 1;
    }
  }

  /** shift_and_insert into the first num entries. */
  method ShiftInsert(a: array<Separator>, num: nat, x: Separator)
    requires num < a.Length
    modifies a
    ensures a[..num + 1] == Shift(old(a[..num]), x)
    ensures forall j :: num < j < a.Length ==> a[j] == old(a[j])
  {
    hide Above;
    ghost var rs := a[..num];
    var i := InsertIndex(a, num, x.key);
    ShiftUp(a, num, i);
    a[i] := x;
    ghost var r := Splice(rs, i, x);
    assert forall l :: 0 <= l < num + 1 ==> a[l] == r[l];
    assert a[..num + 1] == r;
  }

  class InternalNode {
    var lowest: Key
    var highest: Key
    var sibling: Addr
    var leftmost: Addr
    var siblingLeftmost: Addr
    const records: array<Separator>

    ghost predicate Is(n: Inner)
      reads this, records
    {
      && Inner(lowest, highest, sibling, leftmost, siblingLeftmost, n.records) == n
      && Packs(records[..], n.records)
    }

    constructor (span: nat, lowest: Key, highest: Key, sibling: Addr, leftmost: Addr, siblingLeftmost: Addr)
      ensures fresh(records) && records.Length == span
      ensures Is(Inner(lowest, highest, sibling, leftmost, siblingLeftmost, []))
    {
      this.lowest, this.highest, this.sibling := lowest, highest, sibling;
      this.leftmost, this.siblingLeftmost := leftmost, siblingLeftmost;
      records := new Separator[span](_ => NULL_ENTRY);
    }

    /** The part of internal_node_search that looks into the node. */
    method Find(ghost n: Inner, q: Key) returns (child: Addr, next: Addr)
      requires Is(n) && records.Length > 0
      ensures Route(child, next) == Search(n, q)
    {
      ghost var rs := n.records;
      if q < records[0].key {
        return leftmost, records[0].value;
      }
      var i := 1;
      while i < records.Length
        invariant 1 <= i <= records.Length
        invariant rs == [] ==> i == 1
        invariant rs != [] ==> i <= |rs| && Above(rs, q, 1) == Above(rs, q, i)
      {
        if q < records[i].key || records[i].key == KEY_NULL {
          return records[i - 1].value, if records[i].key == KEY_NULL then siblingLeftmost else records[i].value;
        }
        i := i + 1;
      }
      return records[records.Length - 1].value, siblingLeftmost;
    }

    /** internal_node_insert into a node that is not full. */
    method Insert(ghost n: Inner, x: Separator)
      requires Is(n) && |n.records| < records.Length && x.key != KEY_NULL
      modifies records
      ensures Is(n.(records := Shift(n.records, x)))
    {
      var i := 0;
      while records[i].key != KEY_NULL
        invariant 0 <= i <= |n.records|
        decreases records.Length - i
      {
        i := i + 1;
      }
      assert records[..i] == n.records;
      ShiftInsert(records, i, x);
      ghost var rs := Shift(n.records, x);
      assert forall j :: 0 <= j < |rs| ==> rs[j] == records[j];
    }

    /** node_split_and_unlock of this full node, up to its writes. */
    method SplitNode(ghost n: Inner, x: Separator, at: Addr) returns (right: InternalNode)
      requires Is(n) && |n.records| == records.Length > 0 && x.key != KEY_NULL
      modifies this, records
      ensures fresh(right) && fresh(right.records) && right.records.Length == records.Length
      ensures Is(Split(n, x, at).node) && right.Is(Split(n, x, at).sibling)
    {
      hide Packs, Shift;
      var span := records.Length;
      var m := span / 2;
      PacksFull(records[..], n.records);
      var splitKey := records[m].key;
      right := new InternalNode(span, splitKey, highest, sibling, records[m].value, siblingLeftmost);
      MoveUpper(n, m, right);
      highest, sibling, siblingLeftmost := splitKey, at, right.leftmost;
      ghost var left := n.(highest := splitKey, sibling := at, siblingLeftmost := n.records[m].value,
                           records := n.records[..m]);
      if x.key < splitKey {
        Insert(left, x);
      } else {
        right.Insert(Inner(splitKey, n.highest, n.sibling, n.records[m].value, n.siblingLeftmost,
                           n.records[m + 1..]), x);
      }
    }

    /** The loop that moves the records above m to the sibling, and the fill behind it. */
    method MoveUpper(ghost n: Inner, m: nat, right: InternalNode)
      requires Is(n) && m < |n.records| == records.Length == right.records.Length
      requires Packs(right.records[..], []) && right.records != records
      modifies records, right.records
      ensures Packs(records[..], n.records[..m]) && Packs(right.records[..], n.records[m + 1..])
    {
      for i := m + 1 to records.Length
        invariant forall j :: 0 <= j < i - m - 1 ==> right.records[j] == n.records[m + 1 + j]
        invariant forall j :: i - m - 1 <= j < right.records.Length ==> right.records[j] == NULL_ENTRY
        invariant records[..] == n.records
      {
        right.records[i - m - 1] := records[i];
      }
      for i := m to records.Length
        invariant forall j :: 0 <= j < m ==> records[j] == n.records[j]
        invariant forall j :: m <= j < i ==> records[j] == NULL_ENTRY
        invariant forall j :: i <= j < records.Length ==> records[j] == n.records[j]
        invariant Packs(right.records[..], n.records[m + 1..])
      {
        records[i] := NULL_ENTRY;
      }
    }
  }

  lemma PacksFull(es: seq<Separator>, rs: seq<Separator>)
    requires Packs(es, rs) && |rs| == |es|
    ensures es == rs
  {}
}
