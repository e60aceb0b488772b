/** The first-fit allocator of Src/memory.c: headers in memory, linked both ways, over the blocks
    they describe. */
module KernelHeap {
  import opened BlockList
  import opened Ownership

  const HEADER_LEN: nat := 16

  /** Where `k_init_mem` puts the heap, and its size. */
  const ARENA: nat := 0x0010_0000
  const ARENA_SIZE: nat := 10 * 1024 * 1024

  datatype Header = Header(prev: nat, next: nat, length: nat, used: bool)

  type Memory = map<nat, Header>

  // ----- Headers that describe a list of blocks

  function PrevOf(bs: seq<Block>, i: nat): (a: nat)
    requires i < |bs|
  {
    if i > 0 then bs[i - 1].addr else NULL
  }

  ghost predicate ForwardAt(mem: Memory, bs: seq<Block>, i: nat)
    requires i < |bs|
  {
    bs[i].addr in mem &&
    var m := mem[bs[i].addr];
    m.next == NextOf(bs, i) && m.length == bs[i].length && m.used == bs[i].used
  }

  ghost predicate Forward(mem: Memory, bs: seq<Block>) {
    forall i :: 0 <= i < |bs| ==> ForwardAt(mem, bs, i)
  }

  ghost predicate BackAt(mem: Memory, bs: seq<Block>, i: nat)
    requires i < |bs|
  {
    bs[i].addr in mem && mem[bs[i].addr].prev == PrevOf(bs, i)
  }

  ghost predicate Backward(mem: Memory, bs: seq<Block>) {
    forall i :: 0 <= i < |bs| ==> BackAt(mem, bs, i)
  }

  // ----- The straight-line parts of `malloc` and `free` as functions of memory

  /** `malloc` once it has found a free block at `p` that holds `n` bytes. The program never sets the
      `prev` of the split block's successor; `repair` adds that one assignment. */
  function Take(mem: Memory, p: nat, n: nat, repair: bool): (r: Memory)
    requires p in mem
  {
    var b := mem[p];
    if n + HEADER_LEN <= b.length then
      var s := p + HEADER_LEN + n;
      var r := mem[s := Header(p, b.next, b.length - n - HEADER_LEN, false)]
                  [p := Header(b.prev, s, n, true)];
      if repair && b.next != NULL && b.next in r then r[b.next := r[b.next].(prev := s)] else r
    else
      mem[p := b.(used := true)]
  }

  function TakeBlocks(bs: seq<Block>, i: nat, n: nat): (r: seq<Block>)
    requires i < |bs|
  {
    if n + HEADER_LEN <= bs[i].length then SplitAt(bs, i, n, HEADER_LEN) else Mark(bs, i, true)
  }

  lemma TakeForward(mem: Memory, bs: seq<Block>, i: nat, n: nat, repair: bool, base: nat, limit: nat)
    requires Forward(mem, bs) && Tiled(bs, HEADER_LEN, base, limit) && base > 0
    requires i < |bs| && !bs[i].used && n <= bs[i].length
    ensures bs[i].addr in mem
    ensures Tiled(TakeBlocks(bs, i, n), HEADER_LEN, base, limit)
    ensures Forward(Take(mem, bs[i].addr, n, repair), TakeBlocks(bs, i, n))
  {
    assert ForwardAt(mem, bs, i);
    DistinctAddresses(bs, HEADER_LEN, base, limit);
    var r, m := TakeBlocks(bs, i, n), Take(mem, bs[i].addr, n, repair);
    if n + HEADER_LEN <= bs[i].length {
      SplitTiled(bs, i, n, HEADER_LEN, base, limit);
      forall k | 0 <= k < |r| ensures ForwardAt(m, r, k) {
        SplitApart(bs, i, n, HEADER_LEN, base, limit, k);
        if k + 1 < |r| {
          SplitApart(bs, i, n, HEADER_LEN, base, limit, k + 1);
        }
        assert ForwardAt(mem, bs, if k <= i then k else k - 1);
      }
    } else {
      MarkTiled(bs, i, true, HEADER_LEN, base, limit);
      forall k | 0 <= k < |r| ensures ForwardAt(m, r, k) {
        assert ForwardAt(mem, bs, k);
      }
    }
  }

  /** The back links survive exactly when the split, if there is one, has no successor to mend. */
  lemma TakeBackward(mem: Memory, bs: seq<Block>, i: nat, n: nat, repair: bool, base: nat, limit: nat)
    requires Forward(mem, bs) && Backward(mem, bs) && Tiled(bs, HEADER_LEN, base, limit) && base > 0
    requires i < |bs| && !bs[i].used && n <= bs[i].length
    ensures bs[i].addr in mem
    ensures Backward(Take(mem, bs[i].addr, n, repair), TakeBlocks(bs, i, n)) <==>
            repair || i + 1 == |bs| || bs[i].length < n + HEADER_LEN
  {
    assert ForwardAt(mem, bs, i) && BackAt(mem, bs, i);
    DistinctAddresses(bs, HEADER_LEN, base, limit);
    var r, m := TakeBlocks(bs, i, n), Take(mem, bs[i].addr, n, repair);
    if n + HEADER_LEN <= bs[i].length {
      if i + 1 < |bs| {
        SplitApart(bs, i, n, HEADER_LEN, base, limit, i + 2);
        assert ForwardAt(mem, bs, i + 1) && BackAt(mem, bs, i + 1);
        assert BackAt(m, r, i + 2) <==> repair;
      }
      forall k | 0 <= k < |r| && k != i + 2 ensures BackAt(m, r, k) {
        SplitApart(bs, i, n, HEADER_LEN, base, limit, k);
        if k > 0 {
          SplitApart(bs, i, n, HEADER_LEN, base, limit, k - 1);
        }
        assert BackAt(mem, bs, if k <= i then k else k - 1);
        if i + 1 < |bs| {
          assert r[k].addr != bs[i + 1].addr;
        }
      }
    } else {
      forall k | 0 <= k < |r| ensures BackAt(m, r, k) {
        assert BackAt(mem, bs, k);
      }
    }
  }

  /** The block at `p` absorbs the block at `e`. */
  function Join(mem: Memory, p: nat, e: nat): (r: Memory)
    requires p in mem && e in mem && (mem[e].next == NULL || mem[e].next in mem)
  {
    var r := mem[p := mem[p].(length := mem[p].length + HEADER_LEN + mem[e].length, next := mem[e].next)];
    if mem[e].next == NULL then r else r[mem[e].next := r[mem[e].next].(prev := p)]
  }

  lemma JoinLinked(mem: Memory, bs: seq<Block>, i: nat, base: nat, limit: nat)
    requires Forward(mem, bs) && Backward(mem, bs) && Tiled(bs, HEADER_LEN, base, limit) && base > 0
    requires i + 1 < |bs|
    ensures bs[i].addr in mem && bs[i + 1].addr in mem
    ensures mem[bs[i + 1].addr].next == NULL || mem[bs[i + 1].addr].next in mem
    ensures var m, r := Join(mem, bs[i].addr, bs[i + 1].addr), MergeAt(bs, i, HEADER_LEN);
            Forward(m, r) && Backward(m, r) && Tiled(r, HEADER_LEN, base, limit)
  {
    assert ForwardAt(mem, bs, i) && ForwardAt(mem, bs, i + 1);
    if i + 2 < |bs| {
      assert ForwardAt(mem, bs, i + 2);
    }
    var m, r := Join(mem, bs[i].addr, bs[i + 1].addr), MergeAt(bs, i, HEADER_LEN);
    MergeTiled(bs, i, HEADER_LEN, base, limit);
    DistinctAddresses(bs, HEADER_LEN, base, limit);
    forall k | 0 <= k < |r| ensures ForwardAt(m, r, k) && BackAt(m, r, k) {
      MergeApart(bs, i, HEADER_LEN, base, limit, k);
      var was := if k <= i then k else k + 1;
      assert ForwardAt(mem, bs, was) && BackAt(mem, bs, was);
    }
  }

  ghost predicate ClosedAt(mem: Memory, p: nat)
    requires p in mem
  {
    (mem[p].next == NULL || mem[p].next in mem) && (mem[p].prev == NULL || mem[p].prev in mem)
  }

  /** All links lead to headers. */
  ghost predicate Closed(mem: Memory) {
    forall p {:trigger ClosedAt(mem, p)} :: p in mem ==> ClosedAt(mem, p)
  }

  lemma JoinClosed(mem: Memory, p: nat, e: nat)
    requires Closed(mem) && p in mem && e in mem && ClosedAt(mem, e)
    ensures Closed(Join(mem, p, e)) && Join(mem, p, e).Keys == mem.Keys
  {
    var r := Join(mem, p, e);
    assert ClosedAt(mem, p);
    assert r.Keys == mem.Keys;
    forall q | q in r ensures ClosedAt(r, q) {
      assert ClosedAt(mem, q);
    }
  }

  lemma ChangeUseClosed(mem: Memory, e: nat, used: bool)
    requires Closed(mem) && e in mem
    ensures Closed(mem[e := mem[e].(used := used)])
  {
    var r := mem[e := mem[e].(used := used)];
    forall q | q in r ensures ClosedAt(r, q) {
      assert ClosedAt(mem, q);
    }
  }

  /** `free` of the block whose header is at `e`: the right neighbour is absorbed first. */
  function ReleaseRight(mem: Memory, e: nat): (r: Memory)
    requires Closed(mem) && e in mem
    ensures Closed(r) && r.Keys == mem.Keys
  {
    ChangeUseClosed(mem, e, false);
    var m := mem[e := mem[e].(used := false)];
    assert ClosedAt(m, e);
    if m[e].next != NULL && !m[m[e].next].used then
      assert ClosedAt(m, m[e].next);
      JoinClosed(m, e, m[e].next);
      Join(m, e, m[e].next)
    else m
  }

  function Release(mem: Memory, e: nat): (r: Memory)
    requires Closed(mem) && e in mem
    ensures Closed(r) && r.Keys == mem.Keys
  {
    var m := ReleaseRight(mem, e);
    assert ClosedAt(m, e);
    if m[e].prev != NULL && !m[m[e].prev].used then
      JoinClosed(m, m[e].prev, e);
      Join(m, m[e].prev, e)
    else m
  }

  function FreeRight(bs: seq<Block>, i: nat): (r: seq<Block>)
    requires i < |bs|
    ensures i < |r|
  {
    var b := Mark(bs, i, false);
    if i + 1 < |b| && !b[i + 1].used then MergeAt(b, i, HEADER_LEN) else b
  }

  function FreeBlocks(bs: seq<Block>, i: nat): (r: seq<Block>)
    requires i < |bs|
  {
    var b := FreeRight(bs, i);
    if i > 0 && !b[i - 1].used then MergeAt(b, i - 1, HEADER_LEN) else b
  }

  lemma MarkLinked(mem: Memory, bs: seq<Block>, i: nat, base: nat, limit: nat)
    requires Forward(mem, bs) && Backward(mem, bs) && Tiled(bs, HEADER_LEN, base, limit) && i < |bs|
    ensures bs[i].addr in mem
    ensures var m, r := mem[bs[i].addr := mem[bs[i].addr].(used := false)], Mark(bs, i, false);
            Forward(m, r) && Backward(m, r) && Tiled(r, HEADER_LEN, base, limit)
  {
    assert ForwardAt(mem, bs, i);
    MarkTiled(bs, i, false, HEADER_LEN, base, limit);
    DistinctAddresses(bs, HEADER_LEN, base, limit);
    var m, r := mem[bs[i].addr := mem[bs[i].addr].(used := false)], Mark(bs, i, false);
    forall k | 0 <= k < |r| ensures ForwardAt(m, r, k) && BackAt(m, r, k) {
      assert ForwardAt(mem, bs, k) && BackAt(mem, bs, k);
    }
  }

  lemma ReleaseRightLinked(mem: Memory, bs: seq<Block>, i: nat, base: nat, limit: nat)
    requires Forward(mem, bs) && Backward(mem, bs) && Tiled(bs, HEADER_LEN, base, limit) && base > 0
    requires Closed(mem) && i < |bs|
    ensures bs[i].addr in mem
    ensures var m, r := ReleaseRight(mem, bs[i].addr), FreeRight(bs, i);
            Forward(m, r) && Backward(m, r) && Tiled(r, HEADER_LEN, base, limit)
    ensures FreeRight(bs, i)[i].addr == bs[i].addr && FreeRight(bs, i)[..i] == bs[..i]
  {
    MarkLinked(mem, bs, i, base, limit);
    var m, r := mem[bs[i].addr := mem[bs[i].addr].(used := false)], Mark(bs, i, false);
    assert ForwardAt(m, r, i);
    if i + 1 < |bs| {
      assert ForwardAt(m, r, i + 1);
      Disjoint(r, HEADER_LEN, base, limit, i + 1, i);
      JoinLinked(m, r, i, base, limit);
    }
  }

  lemma ReleaseLinked(mem: Memory, bs: seq<Block>, i: nat, base: nat, limit: nat)
    requires Forward(mem, bs) && Backward(mem, bs) && Tiled(bs, HEADER_LEN, base, limit) && base > 0
    requires Closed(mem) && i < |bs|
    ensures bs[i].addr in mem
    ensures var m, r := Release(mem, bs[i].addr), FreeBlocks(bs, i);
            Forward(m, r) && Backward(m, r) && Tiled(r, HEADER_LEN, base, limit)
  {
    ReleaseRightLinked(mem, bs, i, base, limit);
    var m, r := ReleaseRight(mem, bs[i].addr), FreeRight(bs, i);
    assert ForwardAt(m, r, i) && BackAt(m, r, i);
    if i > 0 {
      assert ForwardAt(m, r, i - 1);
      Disjoint(r, HEADER_LEN, base, limit, i - 1, i);
      JoinLinked(m, r, i - 1, base, limit);
    }
  }

  /** Only the pair to the left of a freed block can still be free after the first merge. */
  lemma FreeRightPairs(bs: seq<Block>, i: nat)
    requires NoFreePair(bs) && i < |bs|
    ensures var r := FreeRight(bs, i); forall k :: 0 <= k < |r| - 1 && k != i - 1 ==> UsedPair(r, k)
  {
    var b, r := Mark(bs, i, false), FreeRight(bs, i);
    forall k | 0 <= k < |r| - 1 && k != i - 1 ensures UsedPair(r, k) {
      if k + 1 < i {
        assert UsedPair(bs, k);
      } else if |r| == |bs| {
        assert UsedPair(bs, k);
      } else {
        assert UsedPair(bs, k + 1);
      }
    }
  }

  lemma FreeKeepsPairs(bs: seq<Block>, i: nat)
    requires NoFreePair(bs) && i < |bs|
    ensures NoFreePair(FreeBlocks(bs, i))
  {
    FreeRightPairs(bs, i);
    var b, r := FreeRight(bs, i), FreeBlocks(bs, i);
    forall k | 0 <= k < |r| - 1 ensures UsedPair(r, k) {
      if |r| == |b| {
        if k != i - 1 {
          assert UsedPair(b, k);
        }
      } else {
        assert UsedPair(b, if k + 1 < i then k else k + 1);
      }
    }
  }

  lemma FreeLive(bs: seq<Block>, i: nat, base: nat, limit: nat)
    requires Tiled(bs, HEADER_LEN, base, limit) && i < |bs| && bs[i].used
    ensures Live(FreeBlocks(bs, i)) == Live(bs) - {bs[i]}
  {
    LiveFreed(bs, i, HEADER_LEN, base, limit);
    var b := Mark(bs, i, false);
    if i + 1 < |b| && !b[i + 1].used {
      LiveMerge(b, i, HEADER_LEN);
    }
    var c := FreeRight(bs, i);
    if i > 0 && !c[i - 1].used {
      LiveMerge(c, i - 1, HEADER_LEN);
    }
  }

  lemma TakeClosed(mem: Memory, p: nat, n: nat, repair: bool)
    requires Closed(mem) && p in mem
    ensures Closed(Take(mem, p, n, repair))
  {
    var r := Take(mem, p, n, repair);
    assert ClosedAt(mem, p);
    forall q | q in r ensures ClosedAt(r, q) {
      assert q in mem ==> ClosedAt(mem, q);
    }
  }

  // ----- First fit

  /** Rounding up to a multiple of four, in 32 bits. */
  function Rounded(size: nat): (n: nat) {
    if size % 4 != 0 then (size - size % 4 + 4) % WORD else size
  }

  predicate Fits(b: Block, n: nat) {
    !b.used && b.length >= n
  }

  /** The index of the first free block of at least `n` bytes, or the number of blocks. */
  function FirstFit(bs: seq<Block>, n: nat): (i: nat)
    ensures i <= |bs| && (i < |bs| ==> Fits(bs[i], n))
    ensures forall k :: 0 <= k < i ==> !Fits(bs[k], n)
    decreases |bs|
  {
    if bs == [] then 0
    else if Fits(bs[0], n) then 0
    else
      var i := FirstFit(bs[1..], n);
      assert forall k :: 1 <= k < 1 + i ==> bs[k] == bs[1..][k - 1];
      1 + i
  }

  lemma FirstFitIs(bs: seq<Block>, n: nat, i: nat)
    requires i <= |bs| && (i < |bs| ==> Fits(bs[i], n))
    requires forall k :: 0 <= k < i ==> !Fits(bs[k], n)
    ensures FirstFit(bs, n) == i
  {
  }

  // ----- Calls as functions of the blocks

  /** What a call is answered with. */
  function Answer(bs: seq<Block>, op: Op): (ptr: nat) {
    match op
    case Request(size) =>
      var i := FirstFit(bs, Rounded(size));
      if size == 0 || i == |bs| then NULL else bs[i].Payload(HEADER_LEN)
    case Return(_) => NULL
  }

  /** What `free` expects: null, or the pointer of a block in use. */
  predicate Legal(bs: seq<Block>, op: Op) {
    op.Return? ==> op.ptr == NULL || LiveIndex(bs, HEADER_LEN, op.ptr) < |bs|
  }

  /** The blocks after a call; one that is not legal has no meaning and counts as nothing. */
  function StepBlocks(bs: seq<Block>, op: Op): (r: seq<Block>) {
    match op
    case Request(size) =>
      var i := FirstFit(bs, Rounded(size));
      if size == 0 || i == |bs| then bs else TakeBlocks(bs, i, Rounded(size))
    case Return(ptr) =>
      if ptr == NULL || !Legal(bs, op) then bs else FreeBlocks(bs, LiveIndex(bs, HEADER_LEN, ptr))
  }

  /** `malloc` of a positive size returns null exactly when every block is in use or shorter than the
      size rounded up to a multiple of four. */
  lemma FailsExactly(bs: seq<Block>, size: nat, base: nat, limit: nat)
    requires Tiled(bs, HEADER_LEN, base, limit) && 0 < size < WORD
    ensures Answer(bs, Request(size)) == NULL <==>
            forall k :: 0 <= k < |bs| ==> bs[k].used || bs[k].length < (size + 3) / 4 * 4 % 0x1_0000_0000
  {
    assert Rounded(size) == (size + 3) / 4 * 4 % 0x1_0000_0000;
  }

  lemma RoundedUp(size: nat)
    requires size < WORD
    ensures if size <= 0xFFFF_FFFC then size <= Rounded(size) < size + 4 else Rounded(size) == 0
    ensures Rounded(size) % 4 == 0
  {
  }

  lemma TakeLive(bs: seq<Block>, i: nat, n: nat)
    requires i < |bs| && Fits(bs[i], n)
    ensures var length := if n + HEADER_LEN <= bs[i].length then n else bs[i].length;
            Live(TakeBlocks(bs, i, n)) == Live(bs) + {Block(bs[i].addr, length, true)}
  {
    if n + HEADER_LEN <= bs[i].length {
      LiveSplit(bs, i, n, HEADER_LEN);
    } else {
      LiveTaken(bs, i);
    }
  }

  /** The pointer that `malloc` answers owns the bytes asked for if and only if rounding them up did
      not wrap around. */
  lemma OwnsRequested(bs: seq<Block>, size: nat, base: nat, limit: nat)
    requires Tiled(bs, HEADER_LEN, base, limit) && size < WORD && Answer(bs, Request(size)) != NULL
    ensures OwnsOne(Live(StepBlocks(bs, Request(size))), HEADER_LEN, base, Answer(bs, Request(size)), size) <==>
            size <= 0xFFFF_FFFC
  {
    var n := Rounded(size);
    var i := FirstFit(bs, n);
    var taken := Block(bs[i].addr, if n + HEADER_LEN <= bs[i].length then n else bs[i].length, true);
    RoundedUp(size);
    TakeLive(bs, i, n);
    Disjoint(bs, HEADER_LEN, base, limit, i, i);
    forall b | b in Live(bs) ensures b.addr != bs[i].addr {
      DistinctAddresses(bs, HEADER_LEN, base, limit);
    }
    assert taken in Live(TakeBlocks(bs, i, n));
  }

  /** `malloc` splits no block that has a successor, or the successor's back link is mended. */
  predicate KeepsLinks(bs: seq<Block>, size: nat, repair: bool) {
    var i := FirstFit(bs, Rounded(size));
    repair || size == 0 || i >= |bs| - 1 || bs[i].length < Rounded(size) + HEADER_LEN
  }

  /** The heap `k_init_mem` sets up answers a request for 0xFFFFFFFD bytes with a block of none. */
  lemma WrapsAround()
    ensures var bs, op := [Block(ARENA, ARENA_SIZE - HEADER_LEN, false)], Request(0xFFFF_FFFD);
            && Answer(bs, op) == ARENA + HEADER_LEN
            && StepBlocks(bs, op) == [Block(ARENA, 0, true), Block(ARENA + HEADER_LEN, ARENA_SIZE - 2 * HEADER_LEN, false)]
  {
    var bs := [Block(ARENA, ARENA_SIZE - HEADER_LEN, false)];
    FirstFitIs(bs, 0, 0);
  }

  // ----- The heap object

  class Heap {
    var head: nat
    var mem: Memory
    ghost var blocks: seq<Block>
    ghost var base: nat
    ghost var limit: nat

    ghost predicate Unset()
      reads this
    {
      head == NULL && blocks == []
    }

    /** The `next` links and the headers describe `blocks`, which tile the arena. */
    ghost predicate Linked()
      reads this
    {
      && 0 < base < limit && limit - base < WORD
      && Closed(mem) && head == base
      && Forward(mem, blocks) && Tiled(blocks, HEADER_LEN, base, limit)
    }

    ghost predicate Valid()
      reads this
    {
      Linked() && Backward(mem, blocks) && NoFreePair(blocks)
    }

    constructor ()
      ensures Unset()
    {
      head, mem, blocks, base, limit := NULL, map[], [], 0, 0;
    }

    /** `k_init_mem`: does nothing a second time, or when not even a header fits. */
    method InitMem(arena: nat, size: nat)
      requires 0 < arena && size < WORD
      modifies this
      ensures if old(head) != NULL || size < HEADER_LEN then
                head == old(head) && mem == old(mem) && blocks == old(blocks) && base == old(base) && limit == old(limit)
              else
                Valid() && base == arena && limit == arena + size && blocks == [Block(arena, size - HEADER_LEN, false)]
    {
      if head != NULL || size < HEADER_LEN {
        return;
      }
      head := arena;
      mem := map[arena := Header(NULL, NULL, size - HEADER_LEN, false)];
      base, limit := arena, arena + size;
      blocks := [Block(arena, size - HEADER_LEN, false)];
    }

    /** `malloc`; with `repair` the successor of a split block gets its back link mended. */
    method Malloc(size: nat, repair: bool) returns (result: nat)
      requires (Unset() || Linked()) && size < WORD
      modifies this`mem, this`blocks
      ensures old(Linked()) ==> Linked()
      ensures old(Valid()) ==> (Valid() <==> KeepsLinks(old(blocks), size, repair))
      ensures result == Answer(old(blocks), Request(size)) && blocks == StepBlocks(old(blocks), Request(size))
      ensures result == NULL ==> mem == old(mem)
      ensures result != NULL ==>
                && result >= HEADER_LEN && result - HEADER_LEN in old(mem)
                && mem == Take(old(mem), result - HEADER_LEN, Rounded(size), repair)
      ensures result != NULL ==> (OwnsOne(Live(blocks), HEADER_LEN, base, result, size) <==> size <= 0xFFFF_FFFC)
    {
      if size == 0 {
        return NULL;
      }
      var n := size;
      if size % 4 != 0 {
        n := (size / 4 * 4 + 4) % WORD;
      }
      assert n == Rounded(size);
      var p := Search(n);
      if p == NULL {
        return NULL;
      }
      ghost var i := FirstFit(blocks, n);
      assert ForwardAt(mem, blocks, i);
      Disjoint(blocks, HEADER_LEN, base, limit, i, i);
      OwnsRequested(blocks, size, base, limit);
      TakeKeeps(mem, blocks, i, n, repair, base, limit);
      UseBlock(p, n, repair);
      blocks := TakeBlocks(blocks, i, n);
      return p + HEADER_LEN;
    }

    /** The search loop of `malloc`. */
    method Search(n: nat) returns (p: nat)
      requires Unset() || Linked()
      ensures var i := FirstFit(blocks, n); p == if i < |blocks| then blocks[i].addr else NULL
      ensures p != NULL <==> FirstFit(blocks, n) < |blocks|
    {
      p := head;
      ghost var i := 0;
      while p != NULL
        invariant 0 <= i <= |blocks| && (p == NULL <==> i == |blocks|)
        invariant i < |blocks| ==> p == blocks[i].addr && Linked()
        invariant forall k :: 0 <= k < i ==> !Fits(blocks[k], n)
        decreases |blocks| - i
      {
        assert ForwardAt(mem, blocks, i);
        if !mem[p].used && mem[p].length >= n {
          FirstFitIs(blocks, n, i);
          return;
        }
        p := mem[p].next;
        i := i + 1;
        if i < |blocks| {
          Disjoint(blocks, HEADER_LEN, base, limit, i, i);
        }
      }
      FirstFitIs(blocks, n, i);
    }

    /** `free`, with the right and then the left neighbour absorbed if they are free. What it does to
        the headers is stated for every heap; what that means, for one with intact links. */
    method Free(ptr: nat)
      requires Closed(mem) && (ptr == NULL || (ptr >= HEADER_LEN && ptr - HEADER_LEN in mem))
      modifies this`mem, this`blocks
      ensures Closed(mem) && mem == if ptr == NULL then old(mem) else Release(old(mem), ptr - HEADER_LEN)
      ensures old(Valid() && Legal(blocks, Return(ptr))) ==> Valid() && blocks == StepBlocks(old(blocks), Return(ptr))
    {
      if ptr == NULL {
        return;
      }
      var entry := ptr - HEADER_LEN;
      if Valid() && Legal(blocks, Return(ptr)) {
        ReleaseKeeps(mem, blocks, ptr, base, limit);
        blocks := StepBlocks(blocks, Return(ptr));
      }
      MergeEntry(entry);
    }

    /** The assignments of `free`. */
    method MergeEntry(entry: nat)
      requires Closed(mem) && entry in mem
      modifies this`mem
      ensures mem == Release(old(mem), entry)
    {
      ChangeUseClosed(mem, entry, false);
      mem := mem[entry := mem[entry].(used := false)];
      assert ClosedAt(mem, entry);
      var next := mem[entry].next;
      if next != NULL && !mem[next].used {
        assert ClosedAt(mem, next);
        Absorb(entry, next);
      }
      assert mem == ReleaseRight(old(mem), entry) && ClosedAt(mem, entry);
      var prev := mem[entry].prev;
      if prev != NULL && !mem[prev].used {
        Absorb(prev, entry);
      }
    }

    method Absorb(p: nat, e: nat)
      requires p in mem && e in mem && (mem[e].next == NULL || mem[e].next in mem)
      modifies this`mem
      ensures mem == Join(old(mem), p, e)
    {
      mem := mem[p := mem[p].(length := mem[p].length + (HEADER_LEN + mem[e].length))];
      mem := mem[p := mem[p].(next := mem[e].next)];
      if mem[p].next != NULL {
        mem := mem[mem[p].next := mem[mem[p].next].(prev := p)];
      }
    }

    /** The assignments of `malloc` to a block that fits. */
    method UseBlock(p: nat, n: nat, repair: bool)
      requires p in mem && n <= mem[p].length < WORD - HEADER_LEN
      modifies this`mem
      ensures mem == Take(old(mem), p, n, repair)
    {
      if (n + HEADER_LEN) % WORD <= mem[p].length {
        var split := p + HEADER_LEN + n;
        var next := mem[p].next;
        var length := mem[p].length - n - HEADER_LEN;
        mem := mem[split := Header(p, next, length, false)];
        mem := mem[p := mem[p].(next := split)];
        if repair && next != NULL && next in mem {
          mem := mem[next := mem[next].(prev := split)];
        }
        mem := mem[p := mem[p].(length := n)];
      }
      mem := mem[p := mem[p].(used := true)];
    }
  }

  lemma TakeBlocksKeepsPairs(bs: seq<Block>, i: nat, n: nat)
    requires NoFreePair(bs) && i < |bs| && !bs[i].used
    ensures NoFreePair(TakeBlocks(bs, i, n))
  {
    if n + HEADER_LEN <= bs[i].length {
      SplitKeepsPairs(bs, i, n, HEADER_LEN);
    } else {
      TakeKeepsPairs(bs, i);
    }
  }

  /** Everything that `malloc`'s assignments keep. */
  lemma TakeKeeps(mem: Memory, bs: seq<Block>, i: nat, n: nat, repair: bool, base: nat, limit: nat)
    requires Closed(mem) && Forward(mem, bs) && Tiled(bs, HEADER_LEN, base, limit) && base > 0
    requires i < |bs| && Fits(bs[i], n)
    ensures bs[i].addr in mem
    ensures var m, r := Take(mem, bs[i].addr, n, repair), TakeBlocks(bs, i, n);
            && Closed(m) && Forward(m, r) && Tiled(r, HEADER_LEN, base, limit)
            && (NoFreePair(bs) ==> NoFreePair(r))
            && (Backward(mem, bs) ==>
                  (Backward(m, r) <==> repair || i + 1 == |bs| || bs[i].length < n + HEADER_LEN))
  {
    TakeForward(mem, bs, i, n, repair, base, limit);
    TakeClosed(mem, bs[i].addr, n, repair);
    if Backward(mem, bs) {
      TakeBackward(mem, bs, i, n, repair, base, limit);
    }
    if NoFreePair(bs) {
      TakeBlocksKeepsPairs(bs, i, n);
    }
  }

  /** And everything that `free`'s assignments keep. */
  lemma ReleaseKeeps(mem: Memory, bs: seq<Block>, ptr: nat, base: nat, limit: nat)
    requires Closed(mem) && Forward(mem, bs) && Backward(mem, bs) && Tiled(bs, HEADER_LEN, base, limit) && base > 0
    requires NoFreePair(bs) && ptr != NULL && Legal(bs, Return(ptr))
    ensures ptr >= HEADER_LEN && ptr - HEADER_LEN in mem
    ensures var m, r := Release(mem, ptr - HEADER_LEN), StepBlocks(bs, Return(ptr));
            Forward(m, r) && Backward(m, r) && Tiled(r, HEADER_LEN, base, limit) && NoFreePair(r)
  {
    var i := LiveIndex(bs, HEADER_LEN, ptr);
    ReleaseLinked(mem, bs, i, base, limit);
    FreeKeepsPairs(bs, i);
  }

  // ----- Runs

  ghost predicate Sound(bs: seq<Block>, base: nat, limit: nat) {
    Tiled(bs, HEADER_LEN, base, limit) && NoFreePair(bs)
  }

  function RunBlocks(bs: seq<Block>, ops: seq<Op>): (r: seq<Block>)
    decreases |ops|
  {
    if ops == [] then bs else StepBlocks(RunBlocks(bs, ops[..|ops| - 1]), ops[|ops| - 1])
  }

  function Answers(bs: seq<Block>, ops: seq<Op>): (answers: seq<nat>)
    ensures |answers| == |ops|
    decreases |ops|
  {
    if ops == [] then []
    else
      var front := ops[..|ops| - 1];
      Answers(bs, front) + [Answer(RunBlocks(bs, front), ops[|ops| - 1])]
  }

  lemma AnswersFront(bs: seq<Block>, ops: seq<Op>)
    requires ops != []
    ensures var n := |ops| - 1;
            Answers(bs, ops)[..n] == Answers(bs, ops[..n]) && Answers(bs, ops)[n] == Answer(RunBlocks(bs, ops[..n]), ops[n])
  {
  }

  /** Every call of the run meets what the allocator expects at its time. */
  ghost predicate LegalRun(bs: seq<Block>, ops: seq<Op>)
    decreases |ops|
  {
    ops != [] ==> LegalRun(bs, ops[..|ops| - 1]) && Legal(RunBlocks(bs, ops[..|ops| - 1]), ops[|ops| - 1])
  }

  lemma StepKeeps(bs: seq<Block>, op: Op, base: nat, limit: nat)
    requires Sound(bs, base, limit)
    ensures Sound(StepBlocks(bs, op), base, limit)
  {
    match op
    case Request(size) =>
      var n := Rounded(size);
      var i := FirstFit(bs, n);
      if i < |bs| {
        TakeBlocksKeepsPairs(bs, i, n);
        if n + HEADER_LEN <= bs[i].length {
          SplitTiled(bs, i, n, HEADER_LEN, base, limit);
        } else {
          MarkTiled(bs, i, true, HEADER_LEN, base, limit);
        }
      }
    case Return(ptr) =>
      var i := LiveIndex(bs, HEADER_LEN, ptr);
      if i < |bs| {
        FreeKeeps(bs, i, base, limit);
      }
  }

  lemma FreeKeeps(bs: seq<Block>, i: nat, base: nat, limit: nat)
    requires Sound(bs, base, limit) && i < |bs|
    ensures Sound(FreeBlocks(bs, i), base, limit)
  {
    FreeKeepsPairs(bs, i);
    MarkTiled(bs, i, false, HEADER_LEN, base, limit);
    var b := Mark(bs, i, false);
    if i + 1 < |b| {
      MergeTiled(b, i, HEADER_LEN, base, limit);
    }
    var c := FreeRight(bs, i);
    if i > 0 {
      MergeTiled(c, i - 1, HEADER_LEN, base, limit);
    }
  }

  /** After any run the blocks tile the arena and no two neighbours are free. */
  lemma {:induction false} RunKeeps(bs: seq<Block>, ops: seq<Op>, base: nat, limit: nat)
    requires Sound(bs, base, limit)
    ensures Sound(RunBlocks(bs, ops), base, limit)
    decreases |ops|
  {
    if ops != [] {
      RunKeeps(bs, ops[..|ops| - 1], base, limit);
      StepKeeps(RunBlocks(bs, ops[..|ops| - 1]), ops[|ops| - 1], base, limit);
    }
  }

  // ----- Alignment

  ghost predicate AlignedAt(bs: seq<Block>, i: nat)
    requires i < |bs|
  {
    bs[i].addr % 4 == 0 && bs[i].length % 4 == 0
  }

  ghost predicate Aligned(bs: seq<Block>) {
    forall i :: 0 <= i < |bs| ==> AlignedAt(bs, i)
  }

  lemma TakeAligned(bs: seq<Block>, i: nat, n: nat)
    requires Aligned(bs) && i < |bs| && n % 4 == 0
    ensures Aligned(TakeBlocks(bs, i, n))
  {
    var r := TakeBlocks(bs, i, n);
    assert AlignedAt(bs, i);
    if n + HEADER_LEN <= bs[i].length {
      assert r[i] == Block(bs[i].addr, n, true);
      assert r[i + 1] == Block(bs[i].addr + HEADER_LEN + n, bs[i].length - n - HEADER_LEN, false);
      forall k | 0 <= k < |r| && k != i && k != i + 1 ensures AlignedAt(r, k) {
        assert AlignedAt(bs, if k < i then k else k - 1);
      }
      RestAligned(bs[i].addr, bs[i].length, n);
    } else {
      forall k | 0 <= k < |r| ensures AlignedAt(r, k) {
        assert AlignedAt(bs, k);
      }
    }
  }

  lemma RestAligned(addr: nat, length: nat, n: nat)
    requires addr % 4 == 0 && length % 4 == 0 && n % 4 == 0
    ensures (addr + HEADER_LEN + n) % 4 == 0 && (length - n - HEADER_LEN) % 4 == 0
  {
  }

  lemma MergeAligned(bs: seq<Block>, i: nat)
    requires Aligned(bs) && i + 1 < |bs|
    ensures Aligned(MergeAt(bs, i, HEADER_LEN))
  {
    var r := MergeAt(bs, i, HEADER_LEN);
    forall k | 0 <= k < |r| ensures AlignedAt(r, k) {
      assert AlignedAt(bs, k) && AlignedAt(bs, k + 1);
    }
  }

  lemma FreeAligned(bs: seq<Block>, i: nat)
    requires Aligned(bs) && i < |bs|
    ensures Aligned(FreeBlocks(bs, i))
  {
    var b := Mark(bs, i, false);
    forall k | 0 <= k < |b| ensures AlignedAt(b, k) {
      assert AlignedAt(bs, k);
    }
    if i + 1 < |b| {
      MergeAligned(b, i);
    }
    if i > 0 {
      MergeAligned(FreeRight(bs, i), i - 1);
    }
  }

  lemma StepAligned(bs: seq<Block>, op: Op)
    requires Aligned(bs) && (op.Request? ==> op.size < WORD)
    ensures Aligned(StepBlocks(bs, op)) && Answer(bs, op) % 4 == 0
  {
    match op
    case Request(size) =>
      var i := FirstFit(bs, Rounded(size));
      RoundedUp(size);
      if i < |bs| {
        assert AlignedAt(bs, i);
        TakeAligned(bs, i, Rounded(size));
      }
    case Return(ptr) =>
      if LiveIndex(bs, HEADER_LEN, ptr) < |bs| {
        FreeAligned(bs, LiveIndex(bs, HEADER_LEN, ptr));
      }
  }

  ghost predicate AlignedAnswers(answers: seq<nat>) {
    forall i :: 0 <= i < |answers| ==> answers[i] % 4 == 0
  }

  ghost predicate AllSizes(ops: seq<Op>) {
    forall i :: 0 <= i < |ops| && ops[i].Request? ==> ops[i].size < WORD
  }

  lemma {:induction false} BlocksAligned(bs: seq<Block>, ops: seq<Op>)
    requires Aligned(bs) && AllSizes(ops)
    ensures Aligned(RunBlocks(bs, ops))
    decreases |ops|
  {
    if ops != [] {
      BlocksAligned(bs, ops[..|ops| - 1]);
      StepAligned(RunBlocks(bs, ops[..|ops| - 1]), ops[|ops| - 1]);
    }
  }

  lemma {:induction false} AnswersAligned(bs: seq<Block>, ops: seq<Op>)
    requires Aligned(bs) && AllSizes(ops)
    ensures AlignedAnswers(Answers(bs, ops))
    decreases |ops|
  {
    if ops != [] {
      var n := |ops| - 1;
      AnswersAligned(bs, ops[..n]);
      BlocksAligned(bs, ops[..n]);
      StepAligned(RunBlocks(bs, ops[..n]), ops[n]);
      AnswersFront(bs, ops);
      LastAligned(Answers(bs, ops));
    }
  }

  lemma LastAligned(answers: seq<nat>)
    requires answers != [] && AlignedAnswers(answers[..|answers| - 1]) && answers[|answers| - 1] % 4 == 0
    ensures AlignedAnswers(answers)
  {
    assert forall i :: 0 <= i < |answers| - 1 ==> answers[i] == answers[..|answers| - 1][i];
  }

  /** On an arena of aligned base and size, every block and every answer of every run is aligned. */
  lemma RunAligned(base: nat, size: nat, ops: seq<Op>)
    requires base % 4 == 0 && size % 4 == 0 && size >= HEADER_LEN
    requires AllSizes(ops)
    ensures var bs := [Block(base, size - HEADER_LEN, false)];
            Aligned(RunBlocks(bs, ops)) && AlignedAnswers(Answers(bs, ops))
  {
    var bs := [Block(base, size - HEADER_LEN, false)];
    BlocksAligned(bs, ops);
    AnswersAligned(bs, ops);
  }

  lemma FirstOfFive()
    ensures var bs := [Block(ARENA, ARENA_SIZE - HEADER_LEN, false)];
            && Answer(bs, Request(5)) == 0x0010_0010
            && StepBlocks(bs, Request(5)) == [Block(ARENA, 8, true), Block(ARENA + 24, ARENA_SIZE - 40, false)]
  {
    FirstFitIs([Block(ARENA, ARENA_SIZE - HEADER_LEN, false)], 8, 0);
  }

  /** Five bytes and then four, on the heap that `k_init_mem` sets up. */
  lemma FiveThenFour()
    ensures var bs := [Block(ARENA, ARENA_SIZE - HEADER_LEN, false)];
            && Answer(bs, Request(5)) == 0x0010_0010
            && Answer(StepBlocks(bs, Request(5)), Request(4)) == 0x0010_0028
  {
    FirstOfFive();
    FirstFitIs([Block(ARENA, 8, true), Block(ARENA + 24, ARENA_SIZE - 40, false)], 4, 1);
  }

  /** The bytes set aside for what is outstanding: the sizes asked for, rounded up. */
  function Granted(owned: map<nat, nat>): (granted: map<nat, nat>) {
    map p | p in owned :: Rounded(owned[p])
  }

  lemma GrantedMore(owned: map<nat, nat>, p: nat, size: nat)
    ensures Granted(owned[p := size]) == Granted(owned)[p := Rounded(size)]
  {
  }

  lemma GrantedLess(owned: map<nat, nat>, p: nat)
    ensures Granted(owned - {p}) == Granted(owned) - {p}
  {
  }

  /** Taking a free block adds its bytes to what is owned. */
  lemma TakeOwns(bs: seq<Block>, i: nat, n: nat, owned: map<nat, nat>, base: nat, limit: nat)
    requires Tiled(bs, HEADER_LEN, base, limit) && Owns(Live(bs), HEADER_LEN, base, owned) && i < |bs| && Fits(bs[i], n)
    ensures Owns(Live(TakeBlocks(bs, i, n)), HEADER_LEN, base, owned[bs[i].Payload(HEADER_LEN) := n])
  {
    TakeLive(bs, i, n);
    var taken := Block(bs[i].addr, if n + HEADER_LEN <= bs[i].length then n else bs[i].length, true);
    assert taken.addr >= base && taken.length >= n by {
      Disjoint(bs, HEADER_LEN, base, limit, i, i);
    }
    OwnsMore(Live(bs), HEADER_LEN, base, owned, taken, n);
  }

  lemma RequestOwns(bs: seq<Block>, size: nat, owned: map<nat, nat>, base: nat, limit: nat)
    requires Sound(bs, base, limit) && Owns(Live(bs), HEADER_LEN, base, Granted(owned))
    ensures var p := Answer(bs, Request(size));
            && (p != NULL ==> p !in owned)
            && Owns(Live(StepBlocks(bs, Request(size))), HEADER_LEN, base, Granted(StepOwned(owned, Request(size), p)))
  {
    var i := FirstFit(bs, Rounded(size));
    if size != 0 && i < |bs| {
      FreeIsNobodys(bs, HEADER_LEN, base, Granted(owned), i, base, limit);
      TakeOwns(bs, i, Rounded(size), Granted(owned), base, limit);
      GrantedMore(owned, bs[i].Payload(HEADER_LEN), size);
    }
  }

  /** Returning an outstanding pointer is legal, and takes from the others nothing. */
  lemma ReturnOwns(bs: seq<Block>, ptr: nat, owned: map<nat, nat>, base: nat, limit: nat)
    requires Sound(bs, base, limit) && Owns(Live(bs), HEADER_LEN, base, Granted(owned))
    requires MayCall(owned, Return(ptr))
    ensures Legal(bs, Return(ptr))
    ensures Owns(Live(StepBlocks(bs, Return(ptr))), HEADER_LEN, base, Granted(owned - {ptr}))
  {
    NullNotOwned(Live(bs), HEADER_LEN, base, Granted(owned));
    GrantedLess(owned, ptr);
    if ptr != NULL {
      OwnedIsLive(bs, HEADER_LEN, base, Granted(owned), ptr, base, limit);
      FreeLive(bs, LiveIndex(bs, HEADER_LEN, ptr), base, limit);
    }
  }

  /** What the allocator promises its client after the calls `ops`. */
  ghost predicate Serves(bs: seq<Block>, ops: seq<Op>, base: nat, limit: nat) {
    var r, answers := RunBlocks(bs, ops), Answers(bs, ops);
    && LegalRun(bs, ops) && HandedOutOnce(ops, answers) && Sound(r, base, limit)
    && Owns(Live(r), HEADER_LEN, base, Granted(Outstanding(ops, answers)))
  }

  /** Safety over every run: a client that returns only what was answered and is outstanding never
      breaks what `free` expects, is never answered with a pointer still outstanding, and owns the
      rounded bytes of everything outstanding, wherever the other calls fall. */
  lemma {:induction false} ClientSafe(bs: seq<Block>, ops: seq<Op>, base: nat, limit: nat)
    requires Sound(bs, base, limit) && Live(bs) == {} && ClientLegal(ops, Answers(bs, ops))
    ensures Serves(bs, ops, base, limit)
    decreases |ops|
  {
    if ops == [] {
      assert Granted(map[]) == map[];
    } else {
      var n := |ops| - 1;
      var front, op := ops[..n], ops[n];
      AnswersFront(bs, ops);
      ClientSafe(bs, front, base, limit);
      var r, owned := RunBlocks(bs, front), Outstanding(front, Answers(bs, front));
      StepKeeps(r, op, base, limit);
      if op.Request? {
        RequestOwns(r, op.size, owned, base, limit);
      } else {
        ReturnOwns(r, op.ptr, owned, base, limit);
      }
    }
  }

  /** In particular the bytes asked for, for everything whose size did not wrap around. */
  lemma OwnsAsked(bs: seq<Block>, ops: seq<Op>, p: nat, base: nat, limit: nat)
    requires Sound(bs, base, limit) && Live(bs) == {} && ClientLegal(ops, Answers(bs, ops))
    requires p in Outstanding(ops, Answers(bs, ops)) && Outstanding(ops, Answers(bs, ops))[p] <= 0xFFFF_FFFC
    ensures OwnsOne(Live(RunBlocks(bs, ops)), HEADER_LEN, base, p, Outstanding(ops, Answers(bs, ops))[p])
  {
    ClientSafe(bs, ops, base, limit);
    var owned, live := Outstanding(ops, Answers(bs, ops)), Live(RunBlocks(bs, ops));
    RoundedUp(owned[p]);
    assert OwnsOne(live, HEADER_LEN, base, p, Granted(owned)[p]);
  }

  /** Full recovery: whenever everything has been returned, in whatever order and with whatever
      requests between, the one initial block is back. */
  lemma Recovers(bs: seq<Block>, ops: seq<Op>, base: nat, limit: nat)
    requires Sound(bs, base, limit) && Live(bs) == {} && ClientLegal(ops, Answers(bs, ops))
    requires Outstanding(ops, Answers(bs, ops)) == map[]
    ensures base + HEADER_LEN <= limit && RunBlocks(bs, ops) == [Block(base, limit - base - HEADER_LEN, false)] == bs
  {
    AllFree(bs, HEADER_LEN, base, limit);
    assert Serves(bs, ops, base, limit) by {
      ClientSafe(bs, ops, base, limit);
    }
    NothingOwned(RunBlocks(bs, ops), base, limit);
  }

  lemma NothingOwned(bs: seq<Block>, base: nat, limit: nat)
    requires Sound(bs, base, limit) && Owns(Live(bs), HEADER_LEN, base, Granted(map[]))
    ensures base + HEADER_LEN <= limit && bs == [Block(base, limit - base - HEADER_LEN, false)]
  {
    forall b | b in Live(bs) ensures b.addr >= base {
      var i :| 0 <= i < |bs| && bs[i] == b;
      Disjoint(bs, HEADER_LEN, base, limit, i, i);
    }
    assert Live(bs) == {};
    AllFree(bs, HEADER_LEN, base, limit);
  }

  function Returns(ptrs: seq<nat>): (ops: seq<Op>)
    ensures |ops| == |ptrs| && forall i :: 0 <= i < |ptrs| ==> ops[i] == Return(ptrs[i])
  {
    seq(|ptrs|, i requires 0 <= i < |ptrs| => Return(ptrs[i]))
  }

  ghost predicate Distinct(ptrs: seq<nat>) {
    forall i, j :: 0 <= i < j < |ptrs| ==> ptrs[i] != ptrs[j]
  }

  /** The pointers of the blocks in use. */
  ghost function LivePointers(bs: seq<Block>): (ptrs: set<nat>) {
    set b | b in Live(bs) :: b.Payload(HEADER_LEN)
  }

  lemma FreeOne(bs: seq<Block>, p: nat, base: nat, limit: nat)
    requires Sound(bs, base, limit) && p in LivePointers(bs)
    ensures Legal(bs, Return(p)) && Sound(StepBlocks(bs, Return(p)), base, limit)
    ensures Live(StepBlocks(bs, Return(p))) == set b | b in Live(bs) && b.Payload(HEADER_LEN) != p
  {
    var i := LiveIndex(bs, HEADER_LEN, p);
    StepKeeps(bs, Return(p), base, limit);
    FreeLive(bs, i, base, limit);
    forall b | b in Live(bs) && b.Payload(HEADER_LEN) == p ensures b == bs[i] {
      DistinctAddresses(bs, HEADER_LEN, base, limit);
    }
  }

  ghost predicate AllLive(ptrs: seq<nat>, bs: seq<Block>) {
    forall i :: 0 <= i < |ptrs| ==> ptrs[i] in LivePointers(bs)
  }

  /** What is left in use when the pointers `ptrs` have been freed. */
  ghost function Others(bs: seq<Block>, ptrs: seq<nat>): (live: set<Block>) {
    set b | b in Live(bs) && b.Payload(HEADER_LEN) !in ptrs
  }

  lemma OneFewer(bs: seq<Block>, front: seq<nat>, p: nat)
    ensures Others(bs, front + [p]) == set b | b in Others(bs, front) && b.Payload(HEADER_LEN) != p
  {
  }

  /** Freeing live pointers one after the other is legal and frees exactly them. */
  lemma {:induction false} FreeSome(bs: seq<Block>, ptrs: seq<nat>, base: nat, limit: nat)
    requires Sound(bs, base, limit) && Distinct(ptrs) && AllLive(ptrs, bs)
    ensures LegalRun(bs, Returns(ptrs)) && Sound(RunBlocks(bs, Returns(ptrs)), base, limit)
    ensures Live(RunBlocks(bs, Returns(ptrs))) == Others(bs, ptrs)
    decreases |ptrs|
  {
    if ptrs == [] {
      assert Others(bs, ptrs) == Live(bs);
    } else {
      var n := |ptrs| - 1;
      var front, p := ptrs[..n], ptrs[n];
      assert Returns(ptrs)[..n] == Returns(front) && ptrs == front + [p] && p !in front;
      FreeSome(bs, front, base, limit);
      var r := RunBlocks(bs, Returns(front));
      assert p in LivePointers(r);
      FreeOne(r, p, base, limit);
      OneFewer(bs, front, p);
    }
  }

  /** Freeing all live pointers, in any order, restores the initial block. */
  lemma FreeAll(bs: seq<Block>, ptrs: seq<nat>, base: nat, limit: nat)
    requires Sound(bs, base, limit) && Distinct(ptrs) && (set p | p in ptrs) == LivePointers(bs)
    ensures LegalRun(bs, Returns(ptrs))
    ensures base + HEADER_LEN <= limit && RunBlocks(bs, Returns(ptrs)) == [Block(base, limit - base - HEADER_LEN, false)]
  {
    assert forall p :: p in ptrs <==> p in LivePointers(bs);
    FreeSome(bs, ptrs, base, limit);
    assert Others(bs, ptrs) == {};
    AllFree(RunBlocks(bs, Returns(ptrs)), HEADER_LEN, base, limit);
  }

  /** One call on the headers in memory, with the back link repaired. */
  method Call(heap: Heap, op: Op) returns (answer: nat)
    requires heap.Valid() && Legal(heap.blocks, op) && (op.Request? ==> op.size < WORD)
    modifies heap`mem, heap`blocks
    ensures heap.Valid() && heap.blocks == StepBlocks(old(heap.blocks), op) && answer == Answer(old(heap.blocks), op)
  {
    match op {
      case Request(size) =>
        answer := heap.Malloc(size, true);
      case Return(ptr) =>
        if ptr != NULL {
          ghost var i := LiveIndex(heap.blocks, HEADER_LEN, ptr);
          assert ForwardAt(heap.mem, heap.blocks, i);
        }
        heap.Free(ptr);
        answer := NULL;
    }
  }

  /** The headers in memory follow the blocks through every client's run on a heap with nothing in
      use, and the client gets all that `Serves` promises. */
  method Serve(heap: Heap, ops: seq<Op>) returns (answers: seq<nat>)
    requires heap.Valid() && Live(heap.blocks) == {} && ClientLegal(ops, Answers(heap.blocks, ops))
    modifies heap`mem, heap`blocks
    ensures heap.Valid() && heap.blocks == RunBlocks(old(heap.blocks), ops)
    ensures answers == Answers(old(heap.blocks), ops) && Serves(old(heap.blocks), ops, heap.base, heap.limit)
    decreases |ops|
  {
    ghost var bs := heap.blocks;
    ClientSafe(bs, ops, heap.base, heap.limit);
    if ops == [] {
      return [];
    }
    var n := |ops| - 1;
    AnswersFront(bs, ops);
    var before := Serve(heap, ops[..n]);
    var answer := Call(heap, ops[n]);
    answers := before + [answer];
  }

  // ----- The program as written loses a live block

  /** `malloc` as written, when block `i` is known to be the first fit. */
  method TakeAt(heap: Heap, size: nat, ghost i: nat) returns (result: nat)
    requires heap.Linked() && 0 < size <= 32 && size % 4 == 0
    requires i < |heap.blocks| && Fits(heap.blocks[i], size) && forall k :: 0 <= k < i ==> !Fits(heap.blocks[k], size)
    modifies heap`mem, heap`blocks
    ensures heap.Linked() && result == old(heap.blocks)[i].Payload(HEADER_LEN)
    ensures heap.blocks == TakeBlocks(old(heap.blocks), i, size)
    ensures old(heap.blocks)[i].addr in old(heap.mem)
    ensures heap.mem == Take(old(heap.mem), old(heap.blocks)[i].addr, size, false)
    ensures old(heap.Valid()) && i + 1 == |old(heap.blocks)| ==> heap.Valid()
  {
    FirstFitIs(heap.blocks, size, i);
    result := heap.Malloc(size, false);
  }

  /** Three blocks of 32 bytes in the heap that `k_init_mem` sets up. */
  method ThreeBlocks(heap: Heap) returns (first: nat, second: nat, third: nat)
    requires heap.Unset()
    modifies heap
    ensures heap.Valid() && heap.base == ARENA && first == ARENA + 16 && second == ARENA + 64 && third == ARENA + 112
    ensures heap.blocks == [Block(ARENA, 32, true), Block(ARENA + 48, 32, true), Block(ARENA + 96, 32, true),
                            Block(ARENA + 144, ARENA_SIZE - 160, false)]
  {
    heap.InitMem(ARENA, ARENA_SIZE);
    first := TakeAt(heap, 32, 0);
    assert heap.blocks == [Block(ARENA, 32, true), Block(ARENA + 48, ARENA_SIZE - 64, false)];
    second := TakeAt(heap, 32, 1);
    assert heap.blocks == [Block(ARENA, 32, true), Block(ARENA + 48, 32, true), Block(ARENA + 96, ARENA_SIZE - 112, false)];
    third := TakeAt(heap, 32, 2);
  }

  ghost predicate At(mem: Memory, a: nat, h: Header) {
    a in mem && mem[a] == h
  }

  /** The headers after the second block was freed. */
  ghost predicate Hole(mem: Memory) {
    && At(mem, ARENA, Header(NULL, ARENA + 48, 32, true)) && At(mem, ARENA + 48, Header(ARENA, ARENA + 96, 32, false))
    && At(mem, ARENA + 96, Header(ARENA + 48, ARENA + 144, 32, true))
    && At(mem, ARENA + 144, Header(ARENA + 96, NULL, ARENA_SIZE - 160, false))
  }

  /** And after two blocks were put in its place. */
  ghost predicate Filled(mem: Memory) {
    && At(mem, ARENA, Header(NULL, ARENA + 48, 32, true)) && At(mem, ARENA + 48, Header(ARENA, ARENA + 68, 4, true))
    && At(mem, ARENA + 68, Header(ARENA + 48, ARENA + 96, 12, true))
    && At(mem, ARENA + 96, Header(ARENA + 48, ARENA + 144, 32, true))
    && At(mem, ARENA + 144, Header(ARENA + 96, NULL, ARENA_SIZE - 160, false))
  }

  lemma HoleHeaders(mem: Memory, bs: seq<Block>)
    requires Forward(mem, bs) && Backward(mem, bs)
    requires bs == [Block(ARENA, 32, true), Block(ARENA + 48, 32, false), Block(ARENA + 96, 32, true),
                    Block(ARENA + 144, ARENA_SIZE - 160, false)]
    ensures Hole(mem)
  {
    assert ForwardAt(mem, bs, 0) && BackAt(mem, bs, 0) && ForwardAt(mem, bs, 1) && BackAt(mem, bs, 1);
    assert ForwardAt(mem, bs, 2) && BackAt(mem, bs, 2) && ForwardAt(mem, bs, 3) && BackAt(mem, bs, 3);
  }

  lemma FillsHole(mem: Memory)
    requires Hole(mem)
    ensures var m := Take(mem, ARENA + 48, 4, false); ARENA + 68 in m && Filled(Take(m, ARENA + 68, 12, false))
  {
  }

  /** Four bytes into the hole the second block left, then the exact rest of the hole. */
  method FillHole(heap: Heap) returns (small: nat, exact: nat)
    requires heap.Valid()
    requires heap.blocks == [Block(ARENA, 32, true), Block(ARENA + 48, 32, false), Block(ARENA + 96, 32, true),
                             Block(ARENA + 144, ARENA_SIZE - 160, false)]
    modifies heap`mem, heap`blocks
    ensures Closed(heap.mem) && Filled(heap.mem) && small == ARENA + 64 && exact == ARENA + 84
  {
    HoleHeaders(heap.mem, heap.blocks);
    FillsHole(heap.mem);
    small := TakeAt(heap, 4, 1);
    assert heap.blocks == [Block(ARENA, 32, true), Block(ARENA + 48, 4, true), Block(ARENA + 68, 12, false),
                           Block(ARENA + 96, 32, true), Block(ARENA + 144, ARENA_SIZE - 160, false)];
    exact := TakeAt(heap, 12, 2);
  }

  /** Freeing the four bytes and the third block merges right past the block between them. */
  lemma MergesPast(mem: Memory)
    requires Closed(mem) && Filled(mem)
    ensures var m := Release(mem, ARENA + 48);
            && Closed(m) && ARENA + 96 in m
            && var r := Release(m, ARENA + 96);
               && At(r, ARENA, Header(NULL, ARENA + 48, 32, true))
               && At(r, ARENA + 48, Header(ARENA, NULL, ARENA_SIZE - 92, false))
               && At(r, ARENA + 68, Header(ARENA + 48, ARENA + 96, 12, true))
  {
    var m := Release(mem, ARENA + 48);
    assert m == mem[ARENA + 48 := Header(ARENA, ARENA + 68, 4, false)];
  }

  /** From the heap that `k_init_mem` sets up, the program as written can lose a block in use: it is
      no longer in the list and lies inside a free block. */
  method LosesLiveBlock(heap: Heap) returns (lost: nat)
    requires heap.Unset()
    modifies heap
    ensures {ARENA, ARENA + 48, lost - HEADER_LEN} <= heap.mem.Keys && heap.head == ARENA
    ensures heap.mem[ARENA].next == ARENA + 48 && heap.mem[ARENA + 48].next == NULL && !heap.mem[ARENA + 48].used
    ensures heap.mem[lost - HEADER_LEN].used
    ensures ARENA + 48 + HEADER_LEN < lost && lost + 12 <= ARENA + 48 + HEADER_LEN + heap.mem[ARENA + 48].length
  {
    var first, second, third := ThreeBlocks(heap);
    LiveIndexIs(heap.blocks, HEADER_LEN, 1, heap.base, heap.limit);
    assert ForwardAt(heap.mem, heap.blocks, 1);
    heap.Free(second);
    var small, exact := FillHole(heap);
    MergesPast(heap.mem);
    heap.Free(small);
    heap.Free(third);
    return exact;
  }
}
