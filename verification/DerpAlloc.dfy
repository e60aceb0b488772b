/** The DerpOS allocator: a singly linked node list that grows with `heapPointer` and merges free
    neighbours only when the next request arrives. */
module DerpAlloc {
  import opened BlockList
  import opened Ownership

  const HEADER_SIZE: nat := 9

  datatype Node = Node(size: nat, free: bool, next: nat)

  type Memory = map<nat, Node>

  ghost predicate NodeAt(mem: Memory, bs: seq<Block>, i: nat)
    requires i < |bs|
  {
    bs[i].addr in mem && mem[bs[i].addr] == Node(bs[i].length, !bs[i].used, NextOf(bs, i))
  }

  ghost predicate Linked(mem: Memory, bs: seq<Block>) {
    forall i :: 0 <= i < |bs| ==> NodeAt(mem, bs, i)
  }

  /** Merging a node with its successor rewrites the node alone. */
  lemma MergeLinked(mem: Memory, bs: seq<Block>, i: nat, base: nat, limit: nat)
    requires Linked(mem, bs) && Tiled(bs, HEADER_SIZE, base, limit) && i + 1 < |bs|
    ensures Linked(mem[bs[i].addr := Node(bs[i].length + HEADER_SIZE + bs[i + 1].length, !bs[i].used, NextOf(bs, i + 1))],
                   MergeAt(bs, i, HEADER_SIZE))
    ensures Tiled(MergeAt(bs, i, HEADER_SIZE), HEADER_SIZE, base, limit)
  {
    var r := MergeAt(bs, i, HEADER_SIZE);
    var m := mem[bs[i].addr := Node(bs[i].length + HEADER_SIZE + bs[i + 1].length, !bs[i].used, NextOf(bs, i + 1))];
    MergeTiled(bs, i, HEADER_SIZE, base, limit);
    forall k | 0 <= k < |r| ensures NodeAt(m, r, k) {
      MergeApart(bs, i, HEADER_SIZE, base, limit, k);
      assert NodeAt(mem, bs, if k <= i then k else k + 1);
    }
  }

  lemma SplitLinked(mem: Memory, bs: seq<Block>, i: nat, n: nat, base: nat, limit: nat)
    requires Linked(mem, bs) && Tiled(bs, HEADER_SIZE, base, limit) && i < |bs| && n + HEADER_SIZE <= bs[i].length
    ensures var s := bs[i].addr + HEADER_SIZE + n;
            Linked(mem[bs[i].addr := Node(n, false, s)][s := Node(bs[i].length - HEADER_SIZE - n, true, NextOf(bs, i))],
                   SplitAt(bs, i, n, HEADER_SIZE))
    ensures Tiled(SplitAt(bs, i, n, HEADER_SIZE), HEADER_SIZE, base, limit)
  {
    var r, s := SplitAt(bs, i, n, HEADER_SIZE), bs[i].addr + HEADER_SIZE + n;
    var m := mem[bs[i].addr := Node(n, false, s)][s := Node(bs[i].length - HEADER_SIZE - n, true, NextOf(bs, i))];
    SplitTiled(bs, i, n, HEADER_SIZE, base, limit);
    forall k | 0 <= k < |r| ensures NodeAt(m, r, k) {
      SplitApart(bs, i, n, HEADER_SIZE, base, limit, k);
      assert NodeAt(mem, bs, if k <= i then k else k - 1);
    }
  }

  lemma AppendLinked(mem: Memory, bs: seq<Block>, n: nat, base: nat, limit: nat)
    requires Linked(mem, bs) && Tiled(bs, HEADER_SIZE, base, limit)
    ensures var last := bs[|bs| - 1];
            last.addr in mem &&
            Linked(mem[limit := Node(n, false, NULL)][last.addr := mem[last.addr].(next := limit)], bs + [Block(limit, n, true)])
    ensures Tiled(bs + [Block(limit, n, true)], HEADER_SIZE, base, limit + HEADER_SIZE + n)
  {
    var r, last := bs + [Block(limit, n, true)], bs[|bs| - 1];
    assert NodeAt(mem, bs, |bs| - 1);
    DistinctAddresses(bs, HEADER_SIZE, base, limit);
    assert r[0] == bs[0];
    var m := mem[limit := Node(n, false, NULL)][last.addr := mem[last.addr].(next := limit)];
    var end := limit + HEADER_SIZE + n;
    forall k | 0 <= k < |r| ensures Abuts(r, k, HEADER_SIZE, end) {
      assert k < |bs| ==> Abuts(bs, k, HEADER_SIZE, limit);
    }
    forall k | 0 <= k < |r| ensures NodeAt(m, r, k) {
      if k < |bs| {
        assert NodeAt(mem, bs, k);
      }
      Disjoint(bs, HEADER_SIZE, base, limit, if k < |bs| then k else |bs| - 1, |bs| - 1);
    }
  }

  lemma FreeLinked(mem: Memory, bs: seq<Block>, i: nat, base: nat, limit: nat)
    requires Linked(mem, bs) && Tiled(bs, HEADER_SIZE, base, limit) && i < |bs|
    ensures bs[i].addr in mem && Linked(mem[bs[i].addr := mem[bs[i].addr].(free := true)], Mark(bs, i, false))
    ensures Tiled(Mark(bs, i, false), HEADER_SIZE, base, limit)
  {
    assert NodeAt(mem, bs, i);
    MarkTiled(bs, i, false, HEADER_SIZE, base, limit);
    DistinctAddresses(bs, HEADER_SIZE, base, limit);
    var m, r := mem[bs[i].addr := mem[bs[i].addr].(free := true)], Mark(bs, i, false);
    forall k | 0 <= k < |r| ensures NodeAt(m, r, k) {
      assert NodeAt(mem, bs, k);
    }
  }

  lemma LiveAppend(bs: seq<Block>, b: Block)
    requires b.used
    ensures Live(bs + [b]) == Live(bs) + {b}
  {
  }

  // ----- What a request finds

  /** A node that `malloc` splits: free, larger than the request, and larger than the request, a
      header and the smallest block together, which are added in 32 bits. */
  predicate Splits(b: Block, n: nat, min: nat) {
    !b.used && b.length > n && (HEADER_SIZE + min + n) % WORD < b.length
  }

  /** The same blocks in use over the same arena, with no two free neighbours left. */
  ghost predicate Coalesced(bs: seq<Block>, r: seq<Block>, base: nat, limit: nat) {
    && Tiled(r, HEADER_SIZE, base, limit) && NoFreePair(r) && Live(r) == Live(bs)
    && 0 < |r| <= |bs| && r[0] == bs[0]
  }

  /** The first node that `malloc` splits, or the number of nodes. */
  function FirstSplit(bs: seq<Block>, n: nat, min: nat): (i: nat)
    ensures i == |bs| || i < |bs| - 1
    ensures i < |bs| ==> Splits(bs[i], n, min)
    ensures forall k :: 0 <= k < i && k < |bs| - 1 ==> !Splits(bs[k], n, min)
    decreases |bs|
  {
    if |bs| <= 1 then |bs|
    else if Splits(bs[0], n, min) then 0
    else
      var i := FirstSplit(bs[1..], n, min);
      assert forall k :: 1 <= k < |bs| ==> bs[k] == bs[1..][k - 1];
      1 + i
  }

  lemma FirstSplitIs(bs: seq<Block>, n: nat, min: nat, i: nat)
    requires i < |bs| - 1 && Splits(bs[i], n, min)
    requires forall k :: 0 <= k < i ==> !Splits(bs[k], n, min)
    ensures FirstSplit(bs, n, min) == i
  {
  }

  function AtLeast(size: nat, min: nat): (n: nat) {
    if size <= min then min else size
  }

  /** A request of `n` bytes is served although it does not fit: the node to split has no room for
      the second header, or the sum compared with the `room` left has wrapped around. */
  predicate Overflows(bs: seq<Block>, n: nat, min: nat, room: int) {
    var i := FirstSplit(bs, n, min);
    if i < |bs| then bs[i].length < n + HEADER_SIZE else n + HEADER_SIZE >= WORD && n + HEADER_SIZE - WORD < room
  }

  predicate Refused(bs: seq<Block>, n: nat, min: nat, room: int) {
    FirstSplit(bs, n, min) == |bs| && (n + HEADER_SIZE) % WORD >= room
  }

  /** The pointer that a request of `n` bytes is answered with, on nodes that end at `limit`. */
  function ServedAnswer(bs: seq<Block>, n: nat, min: nat, limit: nat, room: int): (data: nat) {
    var i := FirstSplit(bs, n, min);
    if i < |bs| then bs[i].Payload(HEADER_SIZE)
    else if (n + HEADER_SIZE) % WORD < room then (limit + HEADER_SIZE) % WORD
    else NULL
  }

  /** And the nodes afterwards, if nothing has overflown. */
  function ServedBlocks(bs: seq<Block>, n: nat, min: nat, limit: nat, room: int): (r: seq<Block>)
    requires !Overflows(bs, n, min, room)
  {
    var i := FirstSplit(bs, n, min);
    if i < |bs| then SplitAt(bs, i, n, HEADER_SIZE)
    else if (n + HEADER_SIZE) % WORD < room then bs + [Block(limit, n, true)]
    else bs
  }

  /** No free node before the last is longer than `n`, and than `n` with a header and the smallest size
      in 32 bits. */
  ghost predicate NoneLonger(bs: seq<Block>, n: nat, min: nat) {
    forall k :: 0 <= k < |bs| - 1 ==>
      bs[k].used || bs[k].length <= n || bs[k].length <= (9 + min + n) % 0x1_0000_0000
  }

  lemma NoneSplits(bs: seq<Block>, n: nat, min: nat)
    ensures FirstSplit(bs, n, min) == |bs| <==> NoneLonger(bs, n, min)
  {
    var i := FirstSplit(bs, n, min);
    if i < |bs| {
      assert Splits(bs[i], n, min);
    } else {
      forall k | 0 <= k < |bs| - 1
        ensures bs[k].used || bs[k].length <= n || bs[k].length <= (9 + min + n) % 0x1_0000_0000
      {
        assert !Splits(bs[k], n, min);
      }
    }
  }

  /** `malloc` answers null exactly when no node can be split and the room left is not more than the
      request, at least the smallest size, and a header. An append is a node of just that size. */
  lemma RefusesExactly(bs: seq<Block>, size: nat, min: nat, limit: nat, room: nat)
    requires limit + room <= WORD && size < WORD && min < WORD
    requires !Overflows(bs, AtLeast(size, min), min, room)
    ensures var n := if size > min then size else min;
            var refused := NoneLonger(bs, n, min) && (n + 9) % 0x1_0000_0000 >= room;
            && (ServedAnswer(bs, AtLeast(size, min), min, limit, room) == 0 <==> refused)
            && (NoneLonger(bs, n, min) && !refused ==>
                  ServedBlocks(bs, AtLeast(size, min), min, limit, room) == bs + [Block(limit, n, true)])
  {
    NoneSplits(bs, AtLeast(size, min), min);
  }

  /** It takes a request within a header and a smallest block of 4 GB. */
  lemma SmallFits(bs: seq<Block>, n: nat, min: nat, room: int)
    requires HEADER_SIZE + min + n < WORD
    ensures !Overflows(bs, n, min, room)
  {
  }

  lemma WrapsOnce(p: nat, n: nat)
    requires p < WORD && n < WORD
    ensures ((p + HEADER_SIZE) % WORD + n) % WORD == (p + HEADER_SIZE + n) % WORD
    ensures p + HEADER_SIZE + n < WORD ==> (p + HEADER_SIZE + n) % WORD == p + HEADER_SIZE + n
  {
  }

  // ----- Lists that no blocks describe

  ghost predicate ChainAt(mem: Memory, r: seq<Block>, k: nat)
    requires k < |r|
  {
    && r[k].addr in mem && r[k].addr != NULL && mem[r[k].addr].size == r[k].length
    && (k + 1 < |r| ==> mem[r[k].addr].next == r[k + 1].addr)
  }

  /** The links lead along `r`, and perhaps on. */
  ghost predicate Chain(mem: Memory, r: seq<Block>) {
    forall k :: 0 <= k < |r| ==> ChainAt(mem, r, k)
  }

  ghost predicate Describes(bs: seq<Block>, mem: Memory, base: nat, limit: nat) {
    Linked(mem, bs) && Tiled(bs, HEADER_SIZE, base, limit)
  }

  ghost predicate Undescribed(mem: Memory, base: nat, limit: nat) {
    forall bs :: !Describes(bs, mem, base, limit)
  }

  lemma {:induction false} ChainIsInList(mem: Memory, r: seq<Block>, bs: seq<Block>, base: nat, limit: nat, k: nat)
    requires Chain(mem, r) && k < |r| && r[0].addr == base && Describes(bs, mem, base, limit)
    ensures k < |bs| && bs[k].addr == r[k].addr && bs[k].length == r[k].length
    decreases k
  {
    assert ChainAt(mem, r, k);
    if k > 0 {
      ChainIsInList(mem, r, bs, base, limit, k - 1);
      assert NodeAt(mem, bs, k - 1) && ChainAt(mem, r, k - 1);
    }
    assert NodeAt(mem, bs, k);
  }

  /** A list that leads to a node reaching past the end is not that of any blocks. */
  lemma LeadsOut(mem: Memory, r: seq<Block>, base: nat, limit: nat)
    requires Chain(mem, r) && |r| > 0 && r[0].addr == base && r[|r| - 1].End(HEADER_SIZE) > limit
    ensures Undescribed(mem, base, limit)
  {
    forall bs ensures !Describes(bs, mem, base, limit) {
      if Describes(bs, mem, base, limit) {
        ChainIsInList(mem, r, bs, base, limit, |r| - 1);
        UpperBound(bs, HEADER_SIZE, base, limit, |r| - 1);
        assert false;
      }
    }
  }

  lemma LinkedIsChain(mem: Memory, bs: seq<Block>, base: nat, limit: nat)
    requires Linked(mem, bs) && Tiled(bs, HEADER_SIZE, base, limit) && base > 0
    ensures Chain(mem, bs)
  {
    forall k | 0 <= k < |bs| ensures ChainAt(mem, bs, k) {
      assert NodeAt(mem, bs, k);
      Disjoint(bs, HEADER_SIZE, base, limit, k, k);
    }
  }

  /** A node whose size wraps around ends behind the heap. */
  lemma AppendLeadsOut(mem: Memory, bs: seq<Block>, n: nat, base: nat, limit: nat)
    requires Describes(bs, mem, base, limit) && 0 < base && limit < WORD && WORD - HEADER_SIZE <= n < WORD
    ensures var last := bs[|bs| - 1].addr;
            && last in mem
            && Undescribed(mem[limit := Node(n, false, NULL)][last := mem[last].(next := limit)], base, (limit + HEADER_SIZE + n) % WORD)
  {
    var last := bs[|bs| - 1].addr;
    AppendLinked(mem, bs, n, base, limit);
    var m := mem[limit := Node(n, false, NULL)][last := mem[last].(next := limit)];
    var r := bs + [Block(limit, n, true)];
    LinkedIsChain(m, r, base, limit + HEADER_SIZE + n);
    LeadsOut(m, r, base, (limit + HEADER_SIZE + n) % WORD);
  }

  /** A node split without room for the second header leads on to one that reaches past the end. */
  lemma SplitLeadsOut(mem: Memory, bs: seq<Block>, i: nat, n: nat, base: nat, limit: nat)
    requires Describes(bs, mem, base, limit) && 0 < base && limit <= WORD
    requires i < |bs| && n < bs[i].length < n + HEADER_SIZE
    ensures var p, s := bs[i].addr, bs[i].addr + HEADER_SIZE + n;
            var m := mem[p := Node(n, false, s)][s := Node((bs[i].length - HEADER_SIZE - n) % WORD, true, NextOf(bs, i))];
            Undescribed(m, base, limit)
  {
    var p, s := bs[i].addr, bs[i].addr + HEADER_SIZE + n;
    var rest := (bs[i].length - HEADER_SIZE - n) % WORD;
    var m := mem[p := Node(n, false, s)][s := Node(rest, true, NextOf(bs, i))];
    Disjoint(bs, HEADER_SIZE, base, limit, i, i);
    assert rest == bs[i].length - HEADER_SIZE - n + WORD;
    var r := bs[..i] + [Block(p, n, true), Block(s, rest, false)];
    forall k | 0 <= k < |r| ensures ChainAt(m, r, k) {
      if k < i {
        assert NodeAt(mem, bs, k);
        Disjoint(bs, HEADER_SIZE, base, limit, k, i);
      }
    }
    LeadsOut(m, r, base, limit);
  }

  datatype Error = NoError | OutOfMemory

  class Alloc {
    var headNode: nat
    var currentNode: nat
    var heapPointer: nat
    var heapBase: nat
    var maxHeapSize: nat
    var minMemSize: nat
    var error: Error
    var mem: Memory
    ghost var blocks: seq<Block>

    ghost predicate Valid()
      reads this
    {
      && 0 < heapBase && heapPointer <= heapBase + maxHeapSize <= WORD && headNode == heapBase
      && Linked(mem, blocks) && Tiled(blocks, HEADER_SIZE, heapBase, heapPointer)
      && blocks[0] == Block(heapBase, 0, true)
    }

    constructor ()
      ensures error == NoError
    {
      headNode, currentNode, heapPointer, heapBase := 0, 0, 0, 0;
      maxHeapSize, minMemSize, error := 0, 16, NoError;
      mem, blocks := map[], [];
    }

    /** `init_malloc`: heaps below 1024 bytes are refused before the first node is made. */
    method InitMalloc(heapStart: nat, heapSize: nat, minAllocSize: nat) returns (ok: bool)
      requires 0 < heapStart && heapStart + heapSize <= WORD
      modifies this
      ensures ok <==> heapSize >= 1024
      ensures heapBase == heapStart && maxHeapSize == heapSize && minMemSize == minAllocSize && error == old(error)
      ensures ok ==> Valid() && blocks == [Block(heapBase, 0, true)]
    {
      minMemSize := minAllocSize;
      heapPointer := heapStart;
      heapBase := heapStart;
      maxHeapSize := heapSize;
      if heapSize < 1024 {
        return false;
      }
      headNode := heapStart;
      mem := mem[headNode := Node(0, false, NULL)];
      heapPointer := heapPointer + HEADER_SIZE;
      blocks := [Block(heapStart, 0, true)];
      return true;
    }

    /** `removeNode`: walks from the head to the predecessor of `address`, which absorbs it. The
        shared cursor is left on that predecessor. */
    method RemoveNode(address: nat, ghost i: nat)
      requires Valid() && i + 1 < |blocks| && blocks[i + 1].addr == address
      modifies this`currentNode, this`mem, this`blocks
      ensures Linked(mem, blocks) && Tiled(blocks, HEADER_SIZE, heapBase, heapPointer)
      ensures blocks == MergeAt(old(blocks), i, HEADER_SIZE) && currentNode == blocks[i].addr
    {
      currentNode := headNode;
      ghost var k := 0;
      DistinctAddresses(blocks, HEADER_SIZE, heapBase, heapPointer);
      assert NodeAt(mem, blocks, 0);
      while mem[currentNode].next != address
        invariant mem == old(mem) && blocks == old(blocks)
        invariant 0 <= k <= i && currentNode == blocks[k].addr && currentNode in mem
        decreases i - k
      {
        assert NodeAt(mem, blocks, k) && NodeAt(mem, blocks, k + 1);
        currentNode := mem[currentNode].next;
        k := k + 1;
      }
      assert NodeAt(mem, blocks, k) && NodeAt(mem, blocks, i + 1);
      assert k == i;
      var temp := mem[currentNode].next;
      MergeLinked(mem, blocks, i, heapBase, heapPointer);
      ghost var merged := Node(blocks[i].length + HEADER_SIZE + blocks[i + 1].length, !blocks[i].used, NextOf(blocks, i + 1));
      mem := mem[currentNode := mem[currentNode].(next := mem[temp].next)];
      mem := mem[currentNode := mem[currentNode].(size := mem[currentNode].size + (mem[temp].size + HEADER_SIZE))];
      assert mem == old(mem)[currentNode := merged];
      blocks := MergeAt(blocks, i, HEADER_SIZE);
    }

    /** `cleanMemoryList`: one pass merges every run of free nodes, although each removal sends the
        shared cursor back through the list. */
    method CleanMemoryList()
      requires Valid()
      modifies this`currentNode, this`mem, this`blocks
      ensures Valid() && Coalesced(old(blocks), blocks, heapBase, heapPointer)
    {
      currentNode := headNode;
      ghost var c := 0;
      assert NodeAt(mem, blocks, 0);
      while mem[currentNode].next != NULL
        invariant Valid() && 0 <= c < |blocks| && currentNode == blocks[c].addr && currentNode in mem
        invariant Live(blocks) == Live(old(blocks)) && |blocks| <= |old(blocks)|
        invariant NodeAt(mem, blocks, c) && forall k :: 0 <= k < c ==> UsedPair(blocks, k)
        decreases |blocks|, |blocks| - c
      {
        assert NodeAt(mem, blocks, c);
        ghost var m, b, found := mem, blocks, c;
        while !mem[currentNode].free && mem[currentNode].next != NULL
          invariant mem == m && blocks == b
          invariant found <= c < |blocks| && currentNode == blocks[c].addr && NodeAt(mem, blocks, c)
          invariant forall k :: 0 <= k < c ==> UsedPair(blocks, k)
          decreases |blocks| - c
        {
          AtEnd(c);
          assert NodeAt(mem, blocks, c + 1);
          assert UsedPair(blocks, c);
          currentNode := mem[currentNode].next;
          c := c + 1;
        }
        if mem[currentNode].next != NULL {
          AtEnd(c);
          assert NodeAt(mem, blocks, c + 1);
          var temp := mem[currentNode].next;
          if mem[temp].free {
            ghost var before := blocks;
            LiveMerge(blocks, c, HEADER_SIZE);
            RemoveNode(temp, c);
            forall k | 0 <= k < c ensures UsedPair(blocks, k) {
              assert UsedPair(before, k);
            }
            assert NodeAt(mem, blocks, c);
          } else {
            assert UsedPair(blocks, c);
            currentNode := temp;
            c := c + 1;
          }
        } else {
          AtEnd(c);
          return;
        }
      }
      AtEnd(c);
    }

    /** A null link is that of the last node. */
    lemma AtEnd(c: nat)
      requires Valid() && c < |blocks| && NodeAt(mem, blocks, c)
      ensures mem[blocks[c].addr].next == NULL <==> c == |blocks| - 1
    {
      if c + 1 < |blocks| {
        Disjoint(blocks, HEADER_SIZE, heapBase, heapPointer, c + 1, c);
      }
    }

    /** The walk of `addNode` to the last node. */
    method FindLast()
      requires Valid()
      modifies this`currentNode
      ensures currentNode == blocks[|blocks| - 1].addr
    {
      currentNode := headNode;
      ghost var c := 0;
      assert NodeAt(mem, blocks, 0);
      while mem[currentNode].next != NULL
        invariant 0 <= c < |blocks| && currentNode == blocks[c].addr && NodeAt(mem, blocks, c)
        decreases |blocks| - c
      {
        AtEnd(c);
        assert NodeAt(mem, blocks, c + 1);
        currentNode := mem[currentNode].next;
        c := c + 1;
      }
      AtEnd(c);
    }

    /** `addNode` and `alloc_heap`: a node behind the last one, carved from the end of the heap, which
        moves in 32 bits. */
    method AddNode(n: nat) returns (data: nat)
      requires Valid() && n < WORD && (n + HEADER_SIZE) % WORD < heapBase + maxHeapSize - heapPointer
      modifies this`currentNode, this`mem, this`blocks, this`heapPointer
      ensures heapPointer == (old(heapPointer) + HEADER_SIZE + n) % WORD && data == (old(heapPointer) + HEADER_SIZE) % WORD
      ensures blocks == old(blocks) + [Block(old(heapPointer), n, true)]
      ensures if n + HEADER_SIZE < WORD then Valid() else Undescribed(mem, heapBase, heapPointer)
    {
      FindLast();
      AppendLinked(mem, blocks, n, heapBase, heapPointer);
      if n + HEADER_SIZE >= WORD {
        AppendLeadsOut(mem, blocks, n, heapBase, heapPointer);
      }
      ghost var m := mem;
      var node := heapPointer;
      Disjoint(blocks, HEADER_SIZE, heapBase, heapPointer, |blocks| - 1, |blocks| - 1);
      heapPointer := (heapPointer + HEADER_SIZE) % WORD;
      mem := mem[node := Node(n, false, NULL)];
      mem := mem[currentNode := mem[currentNode].(next := node)];
      assert mem == m[node := Node(n, false, NULL)][currentNode := m[currentNode].(next := node)];
      WrapsOnce(node, n);
      data := heapPointer;
      heapPointer := (heapPointer + n) % WORD;
      blocks := blocks + [Block(node, n, true)];
      assert blocks[0] == old(blocks)[0];
    }

    /** The last part of `malloc`: a new node if the room check, done in 32 bits, finds room. */
    method Extend(n: nat) returns (data: nat, sound: bool)
      requires Valid() && n < WORD
      modifies this`currentNode, this`mem, this`blocks, this`heapPointer, this`error
      ensures var room := heapBase + maxHeapSize - old(heapPointer);
              if (n + HEADER_SIZE) % WORD < room then
                && data == (old(heapPointer) + HEADER_SIZE) % WORD && error == old(error)
                && heapPointer == (old(heapPointer) + HEADER_SIZE + n) % WORD
                && blocks == old(blocks) + [Block(old(heapPointer), n, true)] && (sound <==> n + HEADER_SIZE < WORD)
              else
                data == NULL && error == OutOfMemory && heapPointer == old(heapPointer) && blocks == old(blocks) && sound
      ensures if sound then Valid() else Undescribed(mem, heapBase, heapPointer)
      ensures sound && heapPointer != old(heapPointer) ==> heapPointer == old(heapPointer) + 9 + n
    {
      if !((n + HEADER_SIZE) % WORD < heapBase + maxHeapSize - heapPointer) {
        error := OutOfMemory;
        return NULL, true;
      }
      WrapsOnce(heapPointer, n);
      data := AddNode(n);
      sound := n + HEADER_SIZE < WORD;
    }

    /** The middle part of `malloc`: the node under the cursor is split, with or without room for the
        second header. */
    method SplitFound(n: nat) returns (data: nat, sound: bool)
      requires Valid() && FirstSplit(blocks, n, minMemSize) < |blocks|
      requires currentNode == blocks[FirstSplit(blocks, n, minMemSize)].addr
      modifies this`currentNode, this`mem, this`blocks
      ensures var i := FirstSplit(old(blocks), n, minMemSize);
              && data == old(blocks)[i].Payload(HEADER_SIZE) && (sound <==> n + HEADER_SIZE <= old(blocks)[i].length)
              && (sound ==> blocks == SplitAt(old(blocks), i, n, HEADER_SIZE))
      ensures if sound then Valid() else Undescribed(mem, heapBase, heapPointer)
    {
      ghost var i := FirstSplit(blocks, n, minMemSize);
      assert NodeAt(mem, blocks, i);
      Disjoint(blocks, HEADER_SIZE, heapBase, heapPointer, i, i);
      sound := n + HEADER_SIZE <= mem[currentNode].size;
      if sound {
        SplitLinked(mem, blocks, i, n, heapBase, heapPointer);
        data := SplitNode(n);
        blocks := SplitAt(blocks, i, n, HEADER_SIZE);
        assert i > 0 ==> blocks[0] == old(blocks)[0];
      } else {
        ghost var m: Memory, s: nat := mem, currentNode + HEADER_SIZE + n;
        SplitLeadsOut(mem, blocks, i, n, heapBase, heapPointer);
        data := SplitNode(n);
        assert mem == m[blocks[i].addr := Node(n, false, s)]
                       [s := Node((blocks[i].length - HEADER_SIZE - n) % WORD, true, NextOf(blocks, i))];
      }
    }

    /** `malloc`. Every request is answered as the 32-bit arithmetic says; `sound` tells whether the
        nodes still describe the heap afterwards. */
    method Malloc(size: nat) returns (data: nat, sound: bool, ghost clean: seq<Block>)
      requires Valid() && size < WORD && minMemSize < WORD
      modifies this
      ensures heapBase == old(heapBase) && maxHeapSize == old(maxHeapSize) && minMemSize == old(minMemSize)
      ensures Coalesced(old(blocks), clean, heapBase, old(heapPointer))
      ensures sound <==> !Overflows(clean, AtLeast(size, minMemSize), minMemSize, heapBase + maxHeapSize - old(heapPointer))
      ensures if sound then Valid() else Undescribed(mem, heapBase, heapPointer)
      ensures sound && heapPointer != old(heapPointer) ==>
                heapPointer == old(heapPointer) + 9 + if size > minMemSize then size else minMemSize
      ensures var n, room := AtLeast(size, minMemSize), heapBase + maxHeapSize - old(heapPointer);
              && data == ServedAnswer(clean, n, minMemSize, old(heapPointer), room)
              && (sound ==> blocks == ServedBlocks(clean, n, minMemSize, old(heapPointer), room))
              && error == (if Refused(clean, n, minMemSize, room) then OutOfMemory else old(error))
              && heapPointer == if Refused(clean, n, minMemSize, room) || FirstSplit(clean, n, minMemSize) < |clean| then old(heapPointer)
                                else (old(heapPointer) + HEADER_SIZE + n) % WORD
    {
      CleanMemoryList();
      clean := blocks;
      var n := size;
      if n <= minMemSize {
        n := minMemSize;
      }
      var found := FindNode(n);
      if found {
        data, sound := SplitFound(n);
        return;
      }
      assert n == AtLeast(size, minMemSize);
      data, sound := Extend(n);
    }

    /** The search loop of `malloc`, which stops at the first node it can split. */
    method FindNode(n: nat) returns (found: bool)
      requires Valid()
      modifies this`currentNode
      ensures found <==> FirstSplit(blocks, n, minMemSize) < |blocks|
      ensures found ==> currentNode == blocks[FirstSplit(blocks, n, minMemSize)].addr
    {
      currentNode := headNode;
      ghost var c := 0;
      assert NodeAt(mem, blocks, 0);
      while mem[currentNode].next != NULL
        invariant Valid() && 0 <= c < |blocks| && currentNode == blocks[c].addr && NodeAt(mem, blocks, c)
        invariant forall k :: 0 <= k < c ==> !Splits(blocks[k], n, minMemSize)
        decreases |blocks| - c
      {
        AtEnd(c);
        if mem[currentNode].free {
          if mem[currentNode].size > n {
            if (HEADER_SIZE + minMemSize + n) % WORD < mem[currentNode].size {
              FirstSplitIs(blocks, n, minMemSize, c);
              return true;
            }
          }
        }
        assert NodeAt(mem, blocks, c + 1);
        currentNode := mem[currentNode].next;
        c := c + 1;
      }
      AtEnd(c);
      return false;
    }

    /** The assignments of `malloc` to the node under the cursor. */
    method SplitNode(n: nat) returns (data: nat)
      requires currentNode in mem && n < mem[currentNode].size && currentNode + HEADER_SIZE + n < WORD
      modifies this`mem, this`currentNode
      ensures var p, s := old(currentNode), old(currentNode) + HEADER_SIZE + n;
              && data == p + HEADER_SIZE && currentNode == s
              && mem == old(mem)[p := Node(n, false, s)]
                                [s := Node((old(mem)[p].size - HEADER_SIZE - n) % WORD, true, old(mem)[p].next)]
    {
      var oldSize := mem[currentNode].size;
      data := currentNode + HEADER_SIZE;
      mem := mem[currentNode := mem[currentNode].(size := n)];
      mem := mem[currentNode := mem[currentNode].(free := false)];
      var temp := mem[currentNode].next;
      mem := mem[currentNode := mem[currentNode].(next := currentNode + HEADER_SIZE + n)];
      currentNode := mem[currentNode].next;
      mem := mem[currentNode := Node((oldSize - HEADER_SIZE - n) % WORD, true, temp)];
    }

    /** `free` of a live block other than the head node, which was never handed out. */
    method Free(loc: nat)
      requires Valid() && 0 < LiveIndex(blocks, HEADER_SIZE, loc) < |blocks|
      modifies this`mem, this`blocks
      ensures Valid() && blocks == Mark(old(blocks), LiveIndex(old(blocks), HEADER_SIZE, loc), false)
    {
      ghost var i := LiveIndex(blocks, HEADER_SIZE, loc);
      FreeLinked(mem, blocks, i, heapBase, heapPointer);
      var temp := loc - HEADER_SIZE;
      mem := mem[temp := mem[temp].(free := true)];
      blocks := Mark(blocks, i, false);
    }
  }

  // ----- Runs. The head node, at the base, is never handed out.

  lemma OwnsSplit(bs: seq<Block>, i: nat, n: nat, owned: map<nat, nat>, size: nat, base: nat, limit: nat)
    requires Tiled(bs, HEADER_SIZE, base, limit) && Owns(Live(bs), HEADER_SIZE, base + 1, owned) && bs[0].used
    requires i < |bs| && !bs[i].used && n + HEADER_SIZE <= bs[i].length && size <= n
    ensures var p := bs[i].Payload(HEADER_SIZE);
            p !in owned && Owns(Live(SplitAt(bs, i, n, HEADER_SIZE)), HEADER_SIZE, base + 1, owned[p := size])
  {
    FreeIsNobodys(bs, HEADER_SIZE, base + 1, owned, i, base, limit);
    LiveSplit(bs, i, n, HEADER_SIZE);
    Disjoint(bs, HEADER_SIZE, base, limit, i, 0);
    OwnsMore(Live(bs), HEADER_SIZE, base + 1, owned, Block(bs[i].addr, n, true), size);
  }

  lemma OwnsAppended(bs: seq<Block>, n: nat, owned: map<nat, nat>, size: nat, base: nat, limit: nat)
    requires Tiled(bs, HEADER_SIZE, base, limit) && Owns(Live(bs), HEADER_SIZE, base + 1, owned) && size <= n
    ensures var b := Block(limit, n, true);
            && b.Payload(HEADER_SIZE) !in owned
            && Owns(Live(bs + [b]), HEADER_SIZE, base + 1, owned[b.Payload(HEADER_SIZE) := size])
  {
    var b := Block(limit, n, true);
    BehindIsNobodys(bs, HEADER_SIZE, base + 1, owned, base, limit);
    LiveAppend(bs, b);
    Disjoint(bs, HEADER_SIZE, base, limit, 0, 0);
    OwnsMore(Live(bs), HEADER_SIZE, base + 1, owned, b, size);
  }

  /** Whichever way a request is served, the bytes were nobody's. */
  lemma ServedOwns(bs: seq<Block>, n: nat, min: nat, owned: map<nat, nat>, size: nat, base: nat, limit: nat, room: nat)
    requires Tiled(bs, HEADER_SIZE, base, limit) && Owns(Live(bs), HEADER_SIZE, base + 1, owned) && bs[0].used
    requires size <= n < WORD && limit + room <= WORD && !Overflows(bs, n, min, room)
    ensures var p := ServedAnswer(bs, n, min, limit, room);
            && (p != NULL ==> p !in owned)
            && Owns(Live(ServedBlocks(bs, n, min, limit, room)), HEADER_SIZE, base + 1, StepOwned(owned, Request(size), p))
  {
    var i := FirstSplit(bs, n, min);
    if i < |bs| {
      OwnsSplit(bs, i, n, owned, size, base, limit);
    } else if (n + HEADER_SIZE) % WORD < room {
      assert n + HEADER_SIZE < WORD && (limit + HEADER_SIZE) % WORD == limit + HEADER_SIZE;
      OwnsAppended(bs, n, owned, size, base, limit);
    }
  }

  method MallocStep(a: Alloc, size: nat, ghost owned: map<nat, nat>) returns (data: nat, sound: bool)
    requires a.Valid() && size < WORD && a.minMemSize < WORD
    requires Owns(Live(a.blocks), HEADER_SIZE, a.heapBase + 1, owned)
    modifies a
    ensures a.heapBase == old(a.heapBase) && a.maxHeapSize == old(a.maxHeapSize) && a.minMemSize == old(a.minMemSize)
    ensures HEADER_SIZE + a.minMemSize + AtLeast(size, a.minMemSize) < WORD ==> sound
    ensures if sound then a.Valid() else Undescribed(a.mem, a.heapBase, a.heapPointer)
    ensures sound && data != NULL ==> data !in owned
    ensures sound ==> Owns(Live(a.blocks), HEADER_SIZE, a.heapBase + 1, StepOwned(owned, Request(size), data))
  {
    ghost var clean;
    ghost var before := a.heapPointer;
    data, sound, clean := a.Malloc(size);
    ghost var n := AtLeast(size, a.minMemSize);
    if sound {
      ServedOwns(clean, n, a.minMemSize, owned, size, a.heapBase, before, a.heapBase + a.maxHeapSize - before);
    }
  }

  method FreeStep(a: Alloc, p: nat, ghost owned: map<nat, nat>)
    requires a.Valid() && Owns(Live(a.blocks), HEADER_SIZE, a.heapBase + 1, owned) && p in owned
    modifies a`mem, a`blocks
    ensures a.Valid() && Owns(Live(a.blocks), HEADER_SIZE, a.heapBase + 1, owned - {p})
  {
    ghost var bs := a.blocks;
    ghost var i := LiveIndex(bs, HEADER_SIZE, p);
    OwnedIsLive(bs, HEADER_SIZE, a.heapBase + 1, owned, p, a.heapBase, a.heapPointer);
    LiveFreed(bs, i, HEADER_SIZE, a.heapBase, a.heapPointer);
    a.Free(p);
  }

  /** What the allocator promises its client after the calls `ops`. */
  ghost predicate Serves(a: Alloc, ops: seq<Op>, answers: seq<nat>)
    reads a
  {
    && |answers| == |ops| && a.Valid() && HandedOutOnce(ops, answers)
    && Owns(Live(a.blocks), HEADER_SIZE, a.heapBase + 1, Outstanding(ops, answers))
  }

  /** The next call of a run. */
  method Call(a: Alloc, ops: seq<Op>, i: nat, answers: seq<nat>, owned: map<nat, nat>) returns (data: nat, sound: bool)
    requires i < |ops| && Serves(a, ops[..i], answers) && a.minMemSize < WORD && owned == Outstanding(ops[..i], answers)
    requires ops[i].Request? ==> ops[i].size < WORD
    modifies a
    ensures a.heapBase == old(a.heapBase) && a.maxHeapSize == old(a.maxHeapSize) && a.minMemSize == old(a.minMemSize)
    ensures sound ==> Serves(a, ops[..i + 1], answers + [data])
    ensures sound ==> StepOwned(owned, ops[i], data) == Outstanding(ops[..i + 1], answers + [data])
    ensures !sound ==> ops[i].Request? && HEADER_SIZE + a.minMemSize + AtLeast(ops[i].size, a.minMemSize) >= WORD
    ensures !sound ==> Undescribed(a.mem, a.heapBase, a.heapPointer)
  {
    data, sound := NULL, true;
    match ops[i] {
      case Request(size) =>
        data, sound := MallocStep(a, size, owned);
      case Return(p) =>
        if p in owned {
          FreeStep(a, p, owned);
        } else {
          assert owned - {p} == owned;
        }
    }
    OneMoreAnswer(ops, i, answers, data);
  }

  /** Any sequence of requests and returns from a fresh heap: whatever is outstanding owns its bytes.
      The run ends early only at a request that wraps around. A return of what is not outstanding is
      the caller's error and is skipped. */
  method Run(heapStart: nat, heapSize: nat, min: nat, ops: seq<Op>) returns (a: Alloc, answers: seq<nat>, sound: bool)
    requires 0 < heapStart && heapStart + heapSize <= WORD && heapSize >= 1024 && min < WORD
    requires forall i :: 0 <= i < |ops| && ops[i].Request? ==> ops[i].size < WORD
    ensures a.heapBase == heapStart && a.maxHeapSize == heapSize
    ensures sound ==> Serves(a, ops, answers)
    ensures !sound ==> 0 < |answers| <= |ops| && ops[|answers| - 1].Request?
                       && HEADER_SIZE + min + AtLeast(ops[|answers| - 1].size, min) >= WORD
                       && Undescribed(a.mem, a.heapBase, a.heapPointer)
  {
    a := new Alloc();
    var ok := a.InitMalloc(heapStart, heapSize, min);
    var owned: map<nat, nat> := map[];
    answers := [];
    var i := 0;
    assert ops[..0] == [];
    while i < |ops|
      invariant 0 <= i <= |ops| && fresh(a)
      invariant a.heapBase == heapStart && a.maxHeapSize == heapSize && a.minMemSize == min
      invariant Serves(a, ops[..i], answers) && owned == Outstanding(ops[..i], answers)
    {
      var data;
      data, sound := Call(a, ops, i, answers, owned);
      answers := answers + [data];
      if !sound {
        return;
      }
      owned := StepOwned(owned, ops[i], data);
      i := i + 1;
    }
    assert ops[..i] == ops;
    return a, answers, true;
  }

  /** On a heap of 1024 bytes with a smallest size of 16, a request for 100 bytes is answered. */
  method FirstRequest(heapStart: nat) returns (a: Alloc, data: nat)
    requires 0 < heapStart && heapStart + 1024 <= WORD
    ensures a.Valid() && data == heapStart + 18 && a.heapPointer == heapStart + 118 && a.error == NoError
  {
    a := new Alloc();
    var ok := a.InitMalloc(heapStart, 1024, 16);
    assert Abuts(a.blocks, 0, HEADER_SIZE, a.heapPointer);
    var sound;
    ghost var clean;
    data, sound, clean := a.Malloc(100);
    assert |clean| == 1 && FirstSplit(clean, 100, 16) == 1;
  }

  /** On a heap of 1024 bytes a request for 0xFFFFFFFF bytes is answered, and the heap ends one byte
      before the bytes it handed out. */
  method RequestWraps(heapStart: nat, min: nat) returns (a: Alloc, data: nat)
    requires 0 < heapStart && heapStart + 1024 <= WORD && min < WORD
    ensures data == heapStart + 18 && a.heapPointer == heapStart + 17
    ensures Undescribed(a.mem, heapStart, a.heapPointer)
  {
    a := new Alloc();
    var ok := a.InitMalloc(heapStart, 1024, min);
    assert Abuts(a.blocks, 0, HEADER_SIZE, a.heapPointer);
    var sound;
    ghost var clean;
    data, sound, clean := a.Malloc(0xFFFF_FFFF);
    assert |clean| == 1 && FirstSplit(clean, 0xFFFF_FFFF, min) == 1;
  }
}
