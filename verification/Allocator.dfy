/** The two-level allocator: a memory node hands out chunks, every client bump-allocates from its chunk
    and recycles freed blocks. A step system over any number of clients. */
module Allocator {

  import opened Common
  import opened Division

  datatype Block = Block(addr: nat, size: nat)

  predicate Disjoint(a: Block, b: Block) {
    a.addr + a.size <= b.addr || b.addr + b.size <= a.addr
  }

  predicate Within(a: Block, b: Block) {
    b.addr <= a.addr && a.addr + a.size <= b.addr + b.size
  }

  /** ROUND_UP to a multiple of 2^n: adding 2^n - 1 and masking the low bits. */
  function RoundUp(x: nat, align: nat): (r: nat)
    requires align > 0
    ensures x <= r < x + align && r % align == 0
  {
    RoundUpIs(x, align);
    (x + align - 1) / align * align
  }

  lemma RoundUpIs(x: nat, align: nat)
    requires align > 0
    ensures var r := (x + align - 1) / align * align; x <= r < x + align && r % align == 0
  {}

  // ---------------------------------------------------------------- one client

  /** head is None before the first chunk; cur is where the next block goes. */
  datatype Local = Local(head: Option<nat>, cur: nat, freeList: seq<Block>)

  datatype Malloc = Malloc(local: Local, addr: nat, needChunk: bool, fromList: Option<nat>)

  /** The first free block of at least `size` bytes, from index i on. */
  function FirstFit(free: seq<Block>, size: nat, i: nat): (r: Option<nat>)
    requires i <= |free|
    ensures r.Some? ==> i <= r.value < |free| && free[r.value].size >= size
    ensures r.Some? ==> forall j :: i <= j < r.value ==> free[j].size < size
    ensures r.None? ==> forall j :: i <= j < |free| ==> free[j].size < size
    decreases |free| - i
  {
    if i == |free| then None else if free[i].size >= size then Some(i) else FirstFit(free, size, i + 1)
  }

  /** LocalAllocator::malloc: bump if the chunk has room, else the free list, else ask for a chunk. */
  function MallocLocal(l: Local, chunk: nat, size: nat, align: nat): (r: Malloc)
    requires align > 0
  {
    var cur := RoundUp(l.cur, align);
    if l.head.Some? && cur + size <= l.head.value + chunk then Malloc(l.(cur := cur + size), cur, false, None)
    else
      match FirstFit(l.freeList, size, 0)
      case Some(k) =>
        Malloc(l.(cur := cur, freeList := l.freeList[..k] + l.freeList[k + 1..]), l.freeList[k].addr, false, Some(k))
      case None => Malloc(l.(cur := cur), cur, true, None)
  }

  /** Some aligned place behind the blocks handed out lies in the chunk. */
  ghost predicate HasRoom(l: Local, chunk: nat, size: nat, align: nat)
    requires align > 0
  {
    l.head.Some? && exists a :: l.cur <= a && a % align == 0 && a + size <= l.head.value + chunk
  }

  ghost predicate HasFit(l: Local, size: nat) {
    exists b :: b in l.freeList && b.size >= size
  }

  /** a is the least multiple of align from x on. */
  ghost predicate LeastAligned(x: nat, align: nat, a: nat)
    requires align > 0
  {
    x <= a && a % align == 0 && forall y :: x <= y && y % align == 0 ==> a <= y
  }

  lemma MultiplesApart(x: nat, y: nat, align: nat)
    requires align > 0 && x % align == 0 && y % align == 0 && y < x + align
    ensures y <= x
  {
    DivMul(x, align);
    DivMul(y, align);
    MulSteps(align, x / align, y / align);
    MulSteps(align, y / align, x / align);
  }

  lemma RoundUpLeast(x: nat, align: nat)
    requires align > 0
    ensures LeastAligned(x, align, RoundUp(x, align))
  {
    var r := RoundUp(x, align);
    forall y | x <= y && y % align == 0
      ensures r <= y
    {
      MultiplesApart(y, r, align);
    }
  }

  /** malloc asks for a chunk exactly when neither the chunk has room nor a free block is large enough. With
      room it hands out the least aligned place and moves just behind the block; without, the first free block
      that is large enough, and that block alone leaves the list. */
  lemma MallocIs(l: Local, chunk: nat, size: nat, align: nat)
    requires align > 0
    ensures var r := MallocLocal(l, chunk, size, align);
            && r.local.head == l.head
            && (r.needChunk <==> !HasRoom(l, chunk, size, align) && !HasFit(l, size))
            && (HasRoom(l, chunk, size, align) ==>
                  LeastAligned(l.cur, align, r.addr) && r.local == l.(cur := r.addr + size))
            && (!HasRoom(l, chunk, size, align) && HasFit(l, size) ==>
                  exists k :: Recycled(l, r, size, k))
            && (r.needChunk ==> LeastAligned(l.cur, align, r.local.cur) && r.local.freeList == l.freeList)
  {
    RoundUpLeast(l.cur, align);
    var r := MallocLocal(l, chunk, size, align);
    var cur := RoundUp(l.cur, align);
    if l.head.Some? && cur + size <= l.head.value + chunk {
      assert HasRoom(l, chunk, size, align);
    } else {
      assert !HasRoom(l, chunk, size, align);
      if HasFit(l, size) {
        var k := FirstFit(l.freeList, size, 0).value;
        assert Recycled(l, r, size, k);
      }
    }
  }

  /** Free block k is the first of at least size bytes; it was handed out and left the list. */
  ghost predicate Recycled(l: Local, r: Malloc, size: nat, k: nat) {
    && k < |l.freeList| && l.freeList[k].size >= size && r.addr == l.freeList[k].addr
    && (forall j :: 0 <= j < k ==> l.freeList[j].size < size)
    && |r.local.freeList| == |l.freeList| - 1
    && (forall j :: 0 <= j < |r.local.freeList| ==> r.local.freeList[j] == l.freeList[if j < k then j else j + 1])
  }

  function SetChunk(l: Local, addr: nat): Local {
    l.(head := Some(addr), cur := addr)
  }

  function FreeLocal(l: Local, b: Block): Local {
    l.(freeList := l.freeList + [b])
  }

  /** The block fits into the chunk at base, rounding included. */
  predicate FitsChunk(base: nat, chunk: nat, size: nat, align: nat)
    requires align > 0
  {
    RoundUp(base, align) + size <= base + chunk
  }

  /** DSM::alloc right after a chunk was fetched: the retry stays inside the new chunk exactly when the
      block fits it. */
  lemma RetryFitsIff(l: Local, chunk: nat, base: nat, size: nat, align: nat)
    requires align > 0
    requires MallocLocal(l, chunk, size, align).needChunk
    ensures var r := MallocLocal(SetChunk(l, base), chunk, size, align);
            && r.addr == RoundUp(base, align)
            && (!r.needChunk <==> FitsChunk(base, chunk, size, align))
            && (Within(Block(r.addr, size), Block(base, chunk)) <==> FitsChunk(base, chunk, size, align))
  {
  }

  lemma AlignedStays(x: nat, align: nat)
    requires align > 0 && x % align == 0
    ensures RoundUp(x, align) == x
  {
    MultiplesApart(x, RoundUp(x, align), align);
  }

  // ---------------------------------------------------------------- the system

  /** Chunk k of the memory node lies at start + k * chunk; chunk 0 is reserved. */
  datatype Memory = Memory(start: nat, chunk: nat, chunks: nat) {
    function ChunkAt(k: nat): nat {
      start + k * chunk
    }
  }

  datatype Alloced = Alloced(local: Local, tail: nat, addr: nat)

  /** DSM::alloc: malloc, and if that asks for a chunk, fetch one and malloc again, whatever that says. None
      is running out of chunks. */
  function DsmAlloc(m: Memory, l: Local, tail: nat, size: nat, align: nat): (r: Option<Alloced>)
    requires align > 0
  {
    var a := MallocLocal(l, m.chunk, size, align);
    if !a.needChunk then Some(Alloced(a.local, tail, a.addr))
    else if tail >= m.chunks then None
    else
      var b := MallocLocal(SetChunk(a.local, m.ChunkAt(tail)), m.chunk, size, align);
      Some(Alloced(b.local, tail + 1, b.addr))
  }

  /** DSM::alloc fetches a chunk exactly when malloc has neither room nor a free block, fails exactly when there
      is none left, and goes on in the chunk it fetched. */
  lemma DsmAllocIs(m: Memory, l: Local, tail: nat, size: nat, align: nat)
    requires align > 0
    ensures var r := DsmAlloc(m, l, tail, size, align);
            var fetch := !HasRoom(l, m.chunk, size, align) && !HasFit(l, size);
            && (r.None? <==> fetch && tail >= m.chunks)
            && (r.Some? ==> r.value.tail == if fetch then tail + 1 else tail)
            && (r.Some? && !fetch ==> var a := MallocLocal(l, m.chunk, size, align);
                                      r.value.local == a.local && r.value.addr == a.addr)
            && (r.Some? && fetch ==>
                  && r.value.local.head == Some(m.ChunkAt(tail)) && r.value.local.freeList == l.freeList
                  && LeastAligned(m.ChunkAt(tail), align, r.value.addr))
  {
    hide HasRoom, HasFit, LeastAligned, Recycled, RoundUp;
    MallocIs(l, m.chunk, size, align);
    RoundUpLeast(m.ChunkAt(tail), align);
  }

  datatype System = System(tail: nat, clients: seq<Local>, live: seq<Block>)

  datatype Step =
    | Alloc(c: nat, size: nat, align: nat)  // DSM::alloc
    | Get(c: nat, size: nat, align: nat)    // malloc alone: hands out a block, or finds none
    | Fetch(c: nat)                         // alloc_chunck and set_chunck alone
    | Give(c: nat, i: nat)                  // free a live block

  ghost predicate Next(m: Memory, s: System, step: Step, s': System) {
    match step
    case Alloc(c, size, align) =>
      && c < |s.clients| && size > 0 && align > 0
      && var r := DsmAlloc(m, s.clients[c], s.tail, size, align);
         r.Some? && s' == System(r.value.tail, s.clients[c := r.value.local], s.live + [Block(r.value.addr, size)])
    case Get(c, size, align) =>
      && c < |s.clients| && size > 0 && align > 0
      && var r := MallocLocal(s.clients[c], m.chunk, size, align);
         s' == s.(clients := s.clients[c := r.local],
                  live := if r.needChunk then s.live else s.live + [Block(r.addr, size)])
    case Fetch(c) =>
      && c < |s.clients| && s.tail < m.chunks
      && s' == s.(tail := s.tail + 1, clients := s.clients[c := SetChunk(s.clients[c], m.ChunkAt(s.tail))])
    case Give(c, i) =>
      && c < |s.clients| && i < |s.live|
      && s' == s.(live := s.live[..i] + s.live[i + 1..], clients := s.clients[c := FreeLocal(s.clients[c], s.live[i])])
  }

  ghost predicate Init(m: Memory, s: System) {
    && s.tail == 1 && s.live == []
    && forall c :: 0 <= c < |s.clients| ==> s.clients[c] == Local(None, 0, [])
  }

  /** A piece of memory somebody may hand out or use. */
  datatype Piece = BumpOf(c: nat) | FreeOf(c: nat, i: nat) | LiveOf(i: nat)

  ghost predicate Holds(m: Memory, s: System, p: Piece, b: Block) {
    match p
    case BumpOf(c) =>
      && c < |s.clients| && s.clients[c].head.Some? && s.clients[c].cur < s.clients[c].head.value + m.chunk
      && b == Block(s.clients[c].cur, s.clients[c].head.value + m.chunk - s.clients[c].cur)
    case FreeOf(c, i) => c < |s.clients| && i < |s.clients[c].freeList| && b == s.clients[c].freeList[i]
    case LiveOf(i) => i < |s.live| && b == s.live[i]
  }

  /** All pieces lie in the chunks handed out so far, behind the reserved one, and none overlap. */
  ghost predicate Inv(m: Memory, s: System) {
    && 1 <= s.tail
    && (forall p, b :: Holds(m, s, p, b) ==> m.ChunkAt(1) <= b.addr && b.addr + b.size <= m.ChunkAt(s.tail))
    && (forall p, b, q, d :: Holds(m, s, p, b) && Holds(m, s, q, d) && p != q ==> Disjoint(b, d))
  }

  lemma InitInv(m: Memory, s: System)
    requires Init(m, s)
    ensures Inv(m, s)
  {
  }

  /** Every piece after the step lies in a piece from before it, and no two in the same one. */
  lemma ShrinkKeeps(m: Memory, s: System, s': System, origin: Piece -> Piece)
    requires Inv(m, s) && s'.tail == s.tail
    requires forall p, b :: Holds(m, s', p, b) ==> exists d :: Holds(m, s, origin(p), d) && Within(b, d)
    requires forall p, b, q, d :: Holds(m, s', p, b) && Holds(m, s', q, d) && p != q && origin(p) == origin(q) ==>
             Disjoint(b, d)
    ensures Inv(m, s')
  {}

  /** A block bumped off the chunk of client c. */
  lemma BumpKeeps(m: Memory, s: System, c: nat, size: nat, align: nat, s': System)
    requires Inv(m, s) && Next(m, s, Get(c, size, align), s')
    requires var r := MallocLocal(s.clients[c], m.chunk, size, align); !r.needChunk && r.fromList.None?
    ensures Inv(m, s')
  {
    var n := |s.live|;
    var origin := (p: Piece) => if p == LiveOf(n) then BumpOf(c) else p;
    forall p, b | Holds(m, s', p, b) ensures exists d :: Holds(m, s, origin(p), d) && Within(b, d) {
      if p == LiveOf(n) || p == BumpOf(c) {
        var l := s.clients[c];
        var d := Block(l.cur, l.head.value + m.chunk - l.cur);
        assert origin(p) == BumpOf(c) && Holds(m, s, BumpOf(c), d) && Within(b, d);
      } else {
        assert origin(p) == p && Holds(m, s, p, b);
      }
    }
    ShrinkKeeps(m, s, s', origin);
  }

  /** A block recycled from the free list of client c. */
  lemma RecycleKeeps(m: Memory, s: System, c: nat, size: nat, align: nat, k: nat, s': System)
    requires Inv(m, s) && Next(m, s, Get(c, size, align), s')
    requires var r := MallocLocal(s.clients[c], m.chunk, size, align); !r.needChunk && r.fromList == Some(k)
    ensures Inv(m, s')
  {
    var n := |s.live|;
    var origin := (p: Piece) =>
      if p == LiveOf(n) then FreeOf(c, k)
      else if p.FreeOf? && p.c == c && p.i >= k then FreeOf(c, p.i + 1) else p;
    forall p, b | Holds(m, s', p, b) ensures exists d :: Holds(m, s, origin(p), d) && Within(b, d) {
      if p == LiveOf(n) {
        var d := s.clients[c].freeList[k];
        assert origin(p) == FreeOf(c, k) && Holds(m, s, FreeOf(c, k), d) && Within(b, d);
      } else if p == BumpOf(c) {
        var l := s.clients[c];
        var d := Block(l.cur, l.head.value + m.chunk - l.cur);
        assert origin(p) == p && Holds(m, s, p, d) && Within(b, d);
      } else {
        assert Holds(m, s, origin(p), b);
      }
    }
    ShrinkKeeps(m, s, s', origin);
  }

  /** A malloc that found nothing may still have moved cur up to the alignment. */
  lemma MissKeeps(m: Memory, s: System, c: nat, size: nat, align: nat, s': System)
    requires Inv(m, s) && Next(m, s, Get(c, size, align), s')
    requires MallocLocal(s.clients[c], m.chunk, size, align).needChunk
    ensures Inv(m, s')
  {
    forall p, b | Holds(m, s', p, b) ensures exists d :: Holds(m, s, p, d) && Within(b, d) {
      if p == BumpOf(c) {
        var l := s.clients[c];
        assert Holds(m, s, p, Block(l.cur, l.head.value + m.chunk - l.cur));
      } else {
        assert Holds(m, s, p, b);
      }
    }
    ShrinkKeeps(m, s, s', p => p);
  }

  lemma GiveKeeps(m: Memory, s: System, c: nat, i: nat, s': System)
    requires Inv(m, s) && Next(m, s, Give(c, i), s')
    ensures Inv(m, s')
  {
    var n := |s.clients[c].freeList|;
    var origin := (p: Piece) =>
      if p == FreeOf(c, n) then LiveOf(i) else if p.LiveOf? && p.i >= i then LiveOf(p.i + 1) else p;
    forall p, b | Holds(m, s', p, b) ensures exists d :: Holds(m, s, origin(p), d) && Within(b, d) {
      assert Holds(m, s, origin(p), b);
    }
    ShrinkKeeps(m, s, s', origin);
  }

  lemma FetchKeeps(m: Memory, s: System, c: nat, s': System)
    requires Inv(m, s) && Next(m, s, Fetch(c), s')
    ensures Inv(m, s')
  {
    assert m.ChunkAt(s.tail + 1) == m.ChunkAt(s.tail) + m.chunk;
    assert m.ChunkAt(1) <= m.ChunkAt(s.tail) by { ChunkOrder(m, 1, s.tail); }
    forall p, b | Holds(m, s', p, b)
      ensures if p == BumpOf(c) then b == Block(m.ChunkAt(s.tail), m.chunk) else Holds(m, s, p, b)
    {
    }
  }

  lemma ChunkOrder(m: Memory, j: nat, k: nat)
    requires j <= k
    ensures m.ChunkAt(j) <= m.ChunkAt(k)
  {}

  /** A caller of DSM::alloc asks for a block that fits into every chunk, rounding included. */
  predicate Fits(m: Memory, step: Step) {
    step.Alloc? && step.align > 0 ==>
      forall k :: 1 <= k < m.chunks ==> FitsChunk(m.ChunkAt(k), m.chunk, step.size, step.align)
  }

  /** When chunks start at multiples of the alignment, blocks up to the size of a chunk fit. */
  lemma AlignedFits(m: Memory, c: nat, size: nat, align: nat)
    requires align > 0 && m.start % align == 0 && m.chunk % align == 0 && m.chunks > 1
    ensures Fits(m, Alloc(c, size, align)) <==> size <= m.chunk
  {
    hide RoundUp;
    forall k | 1 <= k < m.chunks ensures FitsChunk(m.ChunkAt(k), m.chunk, size, align) <==> size <= m.chunk {
      ChunkAligned(m, k, align);
      AlignedStays(m.ChunkAt(k), align);
    }
    if Fits(m, Alloc(c, size, align)) {
      assert FitsChunk(m.ChunkAt(1), m.chunk, size, align);
    }
  }

  lemma {:induction false} ChunkAligned(m: Memory, k: nat, align: nat)
    requires align > 0 && m.start % align == 0 && m.chunk % align == 0
    ensures m.ChunkAt(k) % align == 0
  {
    if k > 0 {
      ChunkAligned(m, k - 1, align);
      assert m.ChunkAt(k) == m.ChunkAt(k - 1) + m.chunk;
      SumAligned(m.ChunkAt(k - 1), m.chunk, align);
    }
  }

  lemma SumAligned(x: nat, y: nat, d: nat)
    requires d > 0 && x % d == 0 && y % d == 0
    ensures (x + y) % d == 0
  {
    var a, b := x / d, y / d;
    assert x == d * a && y == d * b && x + y == d * (a + b);
    DivIs(x + y, d, a + b);
  }

  /** An allocation that fits is a malloc, or a malloc, a fetch and a malloc that succeeds. */
  lemma AllocKeeps(m: Memory, s: System, c: nat, size: nat, align: nat, s': System)
    requires Inv(m, s) && Next(m, s, Alloc(c, size, align), s') && Fits(m, Alloc(c, size, align))
    ensures Inv(m, s')
  {
    hide Inv, MallocLocal;
    var l := s.clients[c];
    var a := MallocLocal(l, m.chunk, size, align);
    if !a.needChunk {
      GetKeeps(m, s, c, size, align, s');
    } else {
      var base := m.ChunkAt(s.tail);
      var s1 := s.(clients := s.clients[c := a.local]);
      var s2 := s1.(tail := s.tail + 1, clients := s1.clients[c := SetChunk(a.local, base)]);
      GetKeeps(m, s, c, size, align, s1);
      FetchKeeps(m, s1, c, s2);
      assert FitsChunk(base, m.chunk, size, align) by { TailOf(m, s); }
      MissAgain(l, m.chunk, size, align);
      RetryFitsIff(a.local, m.chunk, base, size, align);
      assert s'.clients == s2.clients[c := s'.clients[c]];
      GetKeeps(m, s2, c, size, align, s');
    }
  }

  lemma TailOf(m: Memory, s: System)
    requires Inv(m, s)
    ensures s.tail >= 1
  {}

  /** A malloc that asked for a chunk asks again. */
  lemma MissAgain(l: Local, chunk: nat, size: nat, align: nat)
    requires align > 0 && MallocLocal(l, chunk, size, align).needChunk
    ensures MallocLocal(MallocLocal(l, chunk, size, align).local, chunk, size, align).needChunk
  {
    AlignedStays(RoundUp(l.cur, align), align);
  }

  lemma GetKeeps(m: Memory, s: System, c: nat, size: nat, align: nat, s': System)
    requires Inv(m, s) && Next(m, s, Get(c, size, align), s')
    ensures Inv(m, s')
  {
    hide Inv;
    var r := MallocLocal(s.clients[c], m.chunk, size, align);
    if r.needChunk { MissKeeps(m, s, c, size, align, s'); }
    else if r.fromList.None? { BumpKeeps(m, s, c, size, align, s'); }
    else { RecycleKeeps(m, s, c, size, align, r.fromList.value, s'); }
  }

  lemma StepKeeps(m: Memory, s: System, step: Step, s': System)
    requires Inv(m, s) && Next(m, s, step, s') && Fits(m, step)
    ensures Inv(m, s')
  {
    hide Inv;
    match step
    case Alloc(c, size, align) => AllocKeeps(m, s, c, size, align, s');
    case Get(c, size, align) => GetKeeps(m, s, c, size, align, s');
    case Fetch(c) => FetchKeeps(m, s, c, s');
    case Give(c, i) => GiveKeeps(m, s, c, i, s');
  }

  ghost predicate IsRun(m: Memory, states: seq<System>, steps: seq<Step>) {
    && |states| == |steps| + 1 && Init(m, states[0])
    && forall i :: 0 <= i < |steps| ==> Next(m, states[i], steps[i], states[i + 1])
  }

  ghost predicate AllFit(m: Memory, steps: seq<Step>) {
    forall i :: 0 <= i < |steps| ==> Fits(m, steps[i])
  }

  lemma {:induction false} RunInv(m: Memory, states: seq<System>, steps: seq<Step>, i: nat)
    requires IsRun(m, states, steps) && AllFit(m, steps) && i < |states|
    ensures Inv(m, states[i])
    decreases i
  {
    hide Inv, Next, Init, Fits;
    if i == 0 {
      InitInv(m, states[0]);
    } else {
      RunInv(m, states, steps, i - 1);
      StepKeeps(m, states[i - 1], steps[i - 1], states[i]);
    }
  }

  /** Over any interleaving of clients that ask for blocks that fit into chunks, live blocks never overlap and none
      touches chunk 0. */
  lemma LiveBlocksDisjoint(m: Memory, states: seq<System>, steps: seq<Step>, i: nat, a: nat, b: nat)
    requires IsRun(m, states, steps) && AllFit(m, steps) && i < |states|
    requires a < |states[i].live| && b < |states[i].live| && a != b
    ensures Disjoint(states[i].live[a], states[i].live[b])
    ensures states[i].live[a].addr >= m.ChunkAt(1)
    ensures states[i].live[a].addr + states[i].live[a].size <= m.ChunkAt(states[i].tail)
  {
    hide Next, Init;
    RunInv(m, states, steps, i);
    assert Holds(m, states[i], LiveOf(a), states[i].live[a]);
    assert Holds(m, states[i], LiveOf(b), states[i].live[b]);
  }

  /** For every block that does not fit it fails: the retry hands out an address in the new chunk without
      taking it, so the client's next block lies inside the first. */
  lemma OversizedOverlaps(m: Memory, size: nat, small: nat, align: nat)
      returns (states: seq<System>, steps: seq<Step>)
    requires align > 0 && m.chunks > 1 && small > 0
    requires !FitsChunk(m.ChunkAt(1), m.chunk, size, align) && FitsChunk(m.ChunkAt(1), m.chunk, small, align)
    ensures IsRun(m, states, steps) && steps == [Alloc(0, size, align), Alloc(0, small, align)]
    ensures |states[2].live| == 2 && !Disjoint(states[2].live[0], states[2].live[1])
  {
    hide RoundUp;
    var base := m.ChunkAt(1);
    var addr := RoundUp(base, align);
    AlignedStays(addr, align);
    AlignedStays(0, align);
    var s0 := System(1, [Local(None, 0, [])], []);
    var s1 := System(2, [Local(Some(base), addr, [])], [Block(addr, size)]);
    var s2 := System(2, [Local(Some(base), addr + small, [])], [Block(addr, size), Block(addr, small)]);
    states, steps := [s0, s1, s2], [Alloc(0, size, align), Alloc(0, small, align)];
    assert DsmAlloc(m, s0.clients[0], 1, size, align) == Some(Alloced(s1.clients[0], 2, addr));
    assert DsmAlloc(m, s1.clients[0], 2, small, align) == Some(Alloced(s2.clients[0], 2, addr));
    assert Next(m, s0, steps[0], s1) && Next(m, s1, steps[1], s2);
  }

  /** A block that comes from the chunk rather than from the free list is aligned. */
  lemma BumpAligned(l: Local, chunk: nat, size: nat, align: nat)
    requires align > 0
    ensures var r := MallocLocal(l, chunk, size, align); !r.needChunk && r.fromList.None? ==> r.addr % align == 0
  {
  }

  // ---------------------------------------------------------------- the allocators as objects

  class LocalAllocator {
    var head: Option<nat>
    var cur: nat
    var freeList: seq<Block>

    function View(): Local
      reads this
    {
      Local(head, cur, freeList)
    }

    constructor ()
      ensures View() == Local(None, 0, [])
    {
      head, cur, freeList := None, 0, [];
    }

    method Malloc(chunk: nat, size: nat, align: nat) returns (addr: nat, needChunk: bool)
      requires align > 0
      modifies this`cur, this`freeList
      ensures var r := MallocLocal(old(View()), chunk, size, align);
              View() == r.local && addr == r.addr && needChunk == r.needChunk
    {
      cur := RoundUp(cur, align);
      addr := cur;
      if head.None? || cur + size > head.value + chunk {
        needChunk := true;
      } else {
        needChunk := false;
        cur := cur + size;
      }
      if needChunk {
        var i := 0;
        while i < |freeList|
          invariant 0 <= i <= |freeList|
          invariant FirstFit(freeList, size, 0) == FirstFit(freeList, size, i)
        {
          if freeList[i].size >= size {
            addr := freeList[i].addr;
            freeList := freeList[..i] + freeList[i + 1..];
            needChunk := false;
            break;
          }
          i := i + 1;
        }
      }
    }

    method TakeChunk(addr: nat)
      modifies this`head, this`cur
      ensures View() == SetChunk(old(View()), addr)
    {
      head, cur := Some(addr), addr;
    }

    /** free puts the block on the list: the step Give. */
    method Free(addr: nat, size: nat, ghost m: Memory, ghost s: System, ghost c: nat, ghost i: nat)
        returns (ghost s': System)
      requires c < |s.clients| && s.clients[c] == View() && i < |s.live| && s.live[i] == Block(addr, size)
      modifies this`freeList
      ensures Next(m, s, Give(c, i), s') && s'.clients[c] == View()
    {
      freeList := freeList + [Block(addr, size)];
      s' := s.(live := s.live[..i] + s.live[i + 1..], clients := s.clients[c := FreeLocal(s.clients[c], s.live[i])]);
    }
  }

  class GlobalAllocator {
    const m: Memory
    const bitmap: array<bool>
    var tail: nat

    ghost predicate Valid()
      reads this, bitmap
    {
      && bitmap.Length == m.chunks && 1 <= tail <= m.chunks
      && forall k :: tail <= k < m.chunks ==> !bitmap[k]
    }

    /** Chunk 0 is marked taken: its address stands for null. */
    constructor (m: Memory)
      requires m.chunks > 0
      ensures Valid() && fresh(bitmap) && this.m == m && tail == 1
    {
      this.m := m;
      bitmap := new bool[m.chunks](_ => false);
      tail := 1;
      new;
      bitmap[0] := true;
    }

    /** alloc_chunck; None is "shared memory space run out". The assert for a taken chunk cannot fail. */
    method AllocChunk() returns (r: Option<nat>)
      requires Valid()
      modifies this`tail, bitmap
      ensures Valid()
      ensures old(tail) < m.chunks ==> r == Some(m.ChunkAt(old(tail))) && tail == old(tail) + 1
      ensures old(tail) >= m.chunks ==> r == None && tail == old(tail)
    {
      if tail >= m.chunks {
        return None;
      }
      assert !bitmap[tail];
      bitmap[tail] := true;
      r := Some(m.ChunkAt(tail));
      tail := tail + 1;
    }

    /** free_chunk clears a bit but never moves the tail back: the chunk is not handed out again. */
    method FreeChunk(k: nat)
      requires Valid() && k < m.chunks
      modifies bitmap
      ensures Valid() && tail == old(tail) && bitmap[..] == old(bitmap[..])[k := false]
    {
      bitmap[k] := false;
    }
  }

  /** DSM::alloc on the two allocators. None is the assert of a memory that ran out. */
  method DsmAllocate(l: LocalAllocator, g: GlobalAllocator, size: nat, align: nat) returns (r: Option<nat>)
    requires g.Valid() && align > 0
    modifies l, g`tail, g.bitmap
    ensures g.Valid()
    ensures var a := DsmAlloc(g.m, old(l.View()), old(g.tail), size, align);
            && (r.Some? <==> a.Some?)
            && (r.Some? ==> r.value == a.value.addr && l.View() == a.value.local && g.tail == a.value.tail)
  {
    var addr, needChunk := l.Malloc(g.m.chunk, size, align);
    if needChunk {
      var chunk := g.AllocChunk();
      if chunk.None? {
        return None;
      }
      l.TakeChunk(chunk.value);
      addr, needChunk := l.Malloc(g.m.chunk, size, align);
    }
    r := Some(addr);
  }
}
