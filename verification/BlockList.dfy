/** Blocks that tile an arena, each behind a header of `h` bytes: what both heap allocators maintain. */
module BlockList {

  const NULL: nat := 0
  const WORD: nat := 0x1_0000_0000

  datatype Block = Block(addr: nat, length: nat, used: bool) {
    function End(h: nat): nat {
      addr + h + length
    }

    function Payload(h: nat): nat {
      addr + h
    }
  }

  function NextStart(bs: seq<Block>, i: nat, limit: nat): (a: nat)
    requires i < |bs|
  {
    if i + 1 < |bs| then bs[i + 1].addr else limit
  }

  /** The address a link of block `i` to its successor holds. */
  function NextOf(bs: seq<Block>, i: nat): (a: nat)
    requires i < |bs|
  {
    NextStart(bs, i, NULL)
  }

  ghost predicate Abuts(bs: seq<Block>, i: nat, h: nat, limit: nat)
    requires i < |bs|
  {
    bs[i].End(h) == NextStart(bs, i, limit)
  }

  /** The blocks lie end to end from `base` to `limit`. */
  ghost predicate Tiled(bs: seq<Block>, h: nat, base: nat, limit: nat) {
    && |bs| > 0 && bs[0].addr == base
    && forall i :: 0 <= i < |bs| ==> Abuts(bs, i, h, limit)
  }

  lemma {:induction false} LowerBound(bs: seq<Block>, h: nat, base: nat, limit: nat, i: nat)
    requires Tiled(bs, h, base, limit) && i < |bs|
    ensures base <= bs[i].addr
  {
    if i > 0 {
      LowerBound(bs, h, base, limit, i - 1);
      assert Abuts(bs, i - 1, h, limit);
    }
  }

  lemma {:induction false} UpperBound(bs: seq<Block>, h: nat, base: nat, limit: nat, i: nat)
    requires Tiled(bs, h, base, limit) && i < |bs|
    ensures bs[i].End(h) <= limit
    decreases |bs| - i
  {
    assert Abuts(bs, i, h, limit);
    if i + 1 < |bs| {
      UpperBound(bs, h, base, limit, i + 1);
    }
  }

  lemma {:induction false} InOrder(bs: seq<Block>, h: nat, base: nat, limit: nat, i: nat, j: nat)
    requires Tiled(bs, h, base, limit) && i < j < |bs|
    ensures bs[i].End(h) <= bs[j].addr
    decreases j - i
  {
    assert Abuts(bs, i, h, limit);
    if i + 1 < j {
      InOrder(bs, h, base, limit, i + 1, j);
    }
  }

  /** All bytes of the blocks, headers included. */
  function Total(bs: seq<Block>, h: nat): (n: nat) {
    if bs == [] then 0 else Total(bs[..|bs| - 1], h) + h + bs[|bs| - 1].length
  }

  lemma {:induction false} TotalUpTo(bs: seq<Block>, h: nat, base: nat, limit: nat, i: nat)
    requires Tiled(bs, h, base, limit) && i < |bs|
    ensures base + Total(bs[..i + 1], h) == bs[i].End(h)
  {
    assert bs[..i + 1][..i] == bs[..i];
    if i > 0 {
      TotalUpTo(bs, h, base, limit, i - 1);
      assert Abuts(bs, i - 1, h, limit);
    }
  }

  /** Headers and payloads together are always the whole arena. */
  lemma TotalIsArena(bs: seq<Block>, h: nat, base: nat, limit: nat)
    requires Tiled(bs, h, base, limit)
    ensures base + Total(bs, h) == limit
  {
    TotalUpTo(bs, h, base, limit, |bs| - 1);
    assert bs[..|bs|] == bs && Abuts(bs, |bs| - 1, h, limit);
  }

  lemma DistinctAddresses(bs: seq<Block>, h: nat, base: nat, limit: nat)
    requires Tiled(bs, h, base, limit) && h > 0
    ensures forall i, j :: 0 <= i < |bs| && 0 <= j < |bs| && bs[i].addr == bs[j].addr ==> i == j
  {
    forall i, j | 0 <= i < j < |bs| ensures bs[i].addr < bs[j].addr {
      InOrder(bs, h, base, limit, i, j);
    }
  }

  /** No byte of one block, header or payload, belongs to another, and all lie in the arena. */
  lemma Disjoint(bs: seq<Block>, h: nat, base: nat, limit: nat, i: nat, j: nat)
    requires Tiled(bs, h, base, limit) && i < |bs| && j < |bs|
    ensures base <= bs[i].addr && bs[i].End(h) <= limit
    ensures i != j ==> bs[i].End(h) <= bs[j].addr || bs[j].End(h) <= bs[i].addr
  {
    LowerBound(bs, h, base, limit, i);
    UpperBound(bs, h, base, limit, i);
    if i < j {
      InOrder(bs, h, base, limit, i, j);
    } else if j < i {
      InOrder(bs, h, base, limit, j, i);
    }
  }

  // ----- Splitting, merging and marking

  function SplitAt(bs: seq<Block>, i: nat, n: nat, h: nat): (r: seq<Block>)
    requires i < |bs| && n + h <= bs[i].length
  {
    var b := bs[i];
    bs[..i] + [Block(b.addr, n, true), Block(b.addr + h + n, b.length - n - h, false)] + bs[i + 1..]
  }

  /** Block `i` swallows its right neighbour. */
  function MergeAt(bs: seq<Block>, i: nat, h: nat): (r: seq<Block>)
    requires i + 1 < |bs|
  {
    bs[..i] + [bs[i].(length := bs[i].length + h + bs[i + 1].length)] + bs[i + 2..]
  }

  function Mark(bs: seq<Block>, i: nat, used: bool): (r: seq<Block>)
    requires i < |bs|
  {
    bs[i := bs[i].(used := used)]
  }

  lemma SplitTiled(bs: seq<Block>, i: nat, n: nat, h: nat, base: nat, limit: nat)
    requires Tiled(bs, h, base, limit) && i < |bs| && n + h <= bs[i].length
    ensures Tiled(SplitAt(bs, i, n, h), h, base, limit)
  {
    var r := SplitAt(bs, i, n, h);
    forall k | 0 <= k < |r| ensures Abuts(r, k, h, limit) {
      var was := if k <= i then k else k - 1;
      assert Abuts(bs, was, h, limit);
    }
  }

  /** Where block `k` of a split list comes from, and that it shares no address with the two halves. */
  lemma SplitApart(bs: seq<Block>, i: nat, n: nat, h: nat, base: nat, limit: nat, k: nat)
    requires Tiled(bs, h, base, limit) && h > 0 && i < |bs| && n + h <= bs[i].length && k <= |bs|
    ensures var r, s := SplitAt(bs, i, n, h), bs[i].addr + h + n;
            && |r| == |bs| + 1 && r[i] == Block(bs[i].addr, n, true)
            && r[i + 1] == Block(s, bs[i].length - n - h, false)
            && (k < i ==> r[k] == bs[k]) && (k > i + 1 ==> r[k] == bs[k - 1])
            && (k != i ==> r[k].addr != bs[i].addr) && (k != i + 1 ==> r[k].addr != s) && r[k].addr >= base
  {
    SplitTiled(bs, i, n, h, base, limit);
    var r := SplitAt(bs, i, n, h);
    Disjoint(r, h, base, limit, k, i);
    Disjoint(r, h, base, limit, k, i + 1);
  }

  lemma MergeTiled(bs: seq<Block>, i: nat, h: nat, base: nat, limit: nat)
    requires Tiled(bs, h, base, limit) && i + 1 < |bs|
    ensures Tiled(MergeAt(bs, i, h), h, base, limit)
  {
    var r := MergeAt(bs, i, h);
    forall k | 0 <= k < |r| ensures Abuts(r, k, h, limit) {
      var was := if k < i then k else k + 1;
      assert Abuts(bs, was, h, limit) && Abuts(bs, i, h, limit);
    }
  }

  /** Where block `k` of a merged list comes from, and that it keeps clear of the merged pair. */
  lemma MergeApart(bs: seq<Block>, i: nat, h: nat, base: nat, limit: nat, k: nat)
    requires Tiled(bs, h, base, limit) && h > 0 && i + 1 < |bs| && k + 1 < |bs|
    ensures var r := MergeAt(bs, i, h);
            && |r| == |bs| - 1 && r[i] == bs[i].(length := bs[i].length + h + bs[i + 1].length)
            && (k < i ==> r[k] == bs[k]) && (k > i ==> r[k] == bs[k + 1])
            && (k != i ==> r[k].addr != bs[i].addr) && r[k].addr != bs[i + 1].addr && r[k].addr >= base
  {
    var was := if k <= i then k else k + 1;
    Disjoint(bs, h, base, limit, was, i);
    Disjoint(bs, h, base, limit, was, i + 1);
    Disjoint(bs, h, base, limit, i, i + 1);
  }

  lemma MarkTiled(bs: seq<Block>, i: nat, used: bool, h: nat, base: nat, limit: nat)
    requires Tiled(bs, h, base, limit) && i < |bs|
    ensures Tiled(Mark(bs, i, used), h, base, limit)
  {
    var r := Mark(bs, i, used);
    forall k | 0 <= k < |r| ensures Abuts(r, k, h, limit) {
      assert Abuts(bs, k, h, limit);
    }
  }

  // ----- Live blocks

  function Live(bs: seq<Block>): (s: set<Block>) {
    set b | b in bs && b.used
  }

  lemma LiveAt(bs: seq<Block>, i: nat)
    requires i < |bs| && bs[i].used
    ensures bs[i] in Live(bs)
  {
  }

  lemma LiveSplit(bs: seq<Block>, i: nat, n: nat, h: nat)
    requires i < |bs| && n + h <= bs[i].length && !bs[i].used
    ensures Live(SplitAt(bs, i, n, h)) == Live(bs) + {Block(bs[i].addr, n, true)}
  {
    var r := SplitAt(bs, i, n, h);
    assert bs == bs[..i] + [bs[i]] + bs[i + 1..];
  }

  lemma LiveMerge(bs: seq<Block>, i: nat, h: nat)
    requires i + 1 < |bs| && !bs[i].used && !bs[i + 1].used
    ensures Live(MergeAt(bs, i, h)) == Live(bs)
  {
    assert bs == bs[..i] + [bs[i], bs[i + 1]] + bs[i + 2..];
  }

  lemma LiveTaken(bs: seq<Block>, i: nat)
    requires i < |bs| && !bs[i].used
    ensures Live(Mark(bs, i, true)) == Live(bs) + {bs[i].(used := true)}
  {
    assert bs == bs[..i] + [bs[i]] + bs[i + 1..];
    assert Mark(bs, i, true) == bs[..i] + [bs[i].(used := true)] + bs[i + 1..];
  }

  lemma LiveFreed(bs: seq<Block>, i: nat, h: nat, base: nat, limit: nat)
    requires Tiled(bs, h, base, limit) && h > 0 && i < |bs| && bs[i].used
    ensures Live(Mark(bs, i, false)) == Live(bs) - {bs[i]}
  {
    assert bs[i] !in bs[..i] && bs[i] !in bs[i + 1..] by {
      DistinctAddresses(bs, h, base, limit);
    }
    assert bs == bs[..i] + [bs[i]] + bs[i + 1..];
    assert Mark(bs, i, false) == bs[..i] + [bs[i].(used := false)] + bs[i + 1..];
  }

  /** The index of the live block whose payload starts at `ptr`, or the number of blocks. */
  function LiveIndex(bs: seq<Block>, h: nat, ptr: nat): (i: nat)
    ensures i <= |bs| && (i < |bs| ==> bs[i].used && bs[i].Payload(h) == ptr)
    ensures i == |bs| ==> forall b :: b in Live(bs) ==> b.Payload(h) != ptr
    decreases |bs|
  {
    if bs == [] then 0
    else if bs[|bs| - 1].used && bs[|bs| - 1].Payload(h) == ptr then |bs| - 1
    else
      assert bs == bs[..|bs| - 1] + [bs[|bs| - 1]];
      var i := LiveIndex(bs[..|bs| - 1], h, ptr);
      if i == |bs| - 1 then |bs| else i
  }

  lemma LiveIndexIs(bs: seq<Block>, h: nat, i: nat, base: nat, limit: nat)
    requires Tiled(bs, h, base, limit) && h > 0 && i < |bs| && bs[i].used
    ensures LiveIndex(bs, h, bs[i].Payload(h)) == i
  {
    LiveAt(bs, i);
    DistinctAddresses(bs, h, base, limit);
  }

  ghost predicate UsedPair(bs: seq<Block>, i: nat)
    requires i + 1 < |bs|
  {
    bs[i].used || bs[i + 1].used
  }

  ghost predicate NoFreePair(bs: seq<Block>) {
    forall i :: 0 <= i < |bs| - 1 ==> UsedPair(bs, i)
  }

  lemma NoneLive(bs: seq<Block>, i: nat)
    requires Live(bs) == {} && i < |bs|
    ensures !bs[i].used
  {
    if bs[i].used {
      LiveAt(bs, i);
      assert false;
    }
  }

  lemma PairIsLive(bs: seq<Block>)
    requires |bs| > 1 && NoFreePair(bs)
    ensures Live(bs) != {}
  {
    assert UsedPair(bs, 0);
    LiveAt(bs, if bs[0].used then 0 else 1);
  }

  lemma SplitKeepsPairs(bs: seq<Block>, i: nat, n: nat, h: nat)
    requires NoFreePair(bs) && i < |bs| && n + h <= bs[i].length && !bs[i].used
    ensures NoFreePair(SplitAt(bs, i, n, h))
  {
    var r := SplitAt(bs, i, n, h);
    forall k | 0 <= k < |r| - 1 ensures UsedPair(r, k) {
      if k != i && k != i + 1 {
        assert UsedPair(bs, if k < i then k else k - 1);
      } else if k == i + 1 {
        assert UsedPair(bs, i);
      }
    }
  }

  lemma TakeKeepsPairs(bs: seq<Block>, i: nat)
    requires NoFreePair(bs) && i < |bs|
    ensures NoFreePair(Mark(bs, i, true))
  {
    forall k | 0 <= k < |bs| - 1 ensures UsedPair(Mark(bs, i, true), k) {
      assert UsedPair(bs, k);
    }
  }

  /** With no live block and no two free neighbours only the whole arena is left. */
  lemma AllFree(bs: seq<Block>, h: nat, base: nat, limit: nat)
    requires Tiled(bs, h, base, limit) && NoFreePair(bs) && Live(bs) == {}
    ensures base + h <= limit && bs == [Block(base, limit - base - h, false)]
  {
    if |bs| > 1 {
      PairIsLive(bs);
      assert false;
    }
    assert Abuts(bs, 0, h, limit);
    NoneLive(bs, 0);
  }

  // ----- Without free neighbours the live blocks determine all others

  /** A used block of one list is at the same address in the other. */
  lemma SharedLive(r: seq<Block>, s: seq<Block>, i: nat) returns (j: nat)
    requires Live(r) == Live(s) && i < |r| && r[i].used
    ensures j < |s| && s[j] == r[i]
  {
    LiveAt(r, i);
    assert r[i] in Live(s);
    j :| 0 <= j < |s| && s[j] == r[i];
  }

  /** If block `i` starts at the same address in both lists and is free, it does not end later in `s`. */
  lemma FreeEndsNoLater(r: seq<Block>, s: seq<Block>, i: nat, h: nat, base: nat, limit: nat)
    requires Tiled(r, h, base, limit) && Tiled(s, h, base, limit) && h > 0
    requires NoFreePair(r) && Live(r) == Live(s)
    requires i < |r| && i < |s| && r[i].addr == s[i].addr && !r[i].used
    ensures s[i].End(h) <= r[i].End(h)
  {
    assert Abuts(r, i, h, limit);
    if i + 1 < |r| {
      assert UsedPair(r, i);
      var j := SharedLive(r, s, i + 1);
      Disjoint(s, h, base, limit, i, j);
    } else {
      Disjoint(s, h, base, limit, i, i);
    }
  }

  lemma SameBlockAt(r: seq<Block>, s: seq<Block>, i: nat, h: nat, base: nat, limit: nat)
    requires Tiled(r, h, base, limit) && Tiled(s, h, base, limit) && h > 0
    requires NoFreePair(r) && NoFreePair(s) && Live(r) == Live(s)
    requires i < |r| && i < |s| && r[i].addr == s[i].addr
    ensures r[i] == s[i]
  {
    DistinctAddresses(r, h, base, limit);
    DistinctAddresses(s, h, base, limit);
    if r[i].used {
      var j := SharedLive(r, s, i);
    } else if s[i].used {
      var j := SharedLive(s, r, i);
    } else {
      FreeEndsNoLater(r, s, i, h, base, limit);
      FreeEndsNoLater(s, r, i, h, base, limit);
    }
  }

  lemma {:induction false} SamePrefix(r: seq<Block>, s: seq<Block>, n: nat, h: nat, base: nat, limit: nat)
    requires Tiled(r, h, base, limit) && Tiled(s, h, base, limit) && h > 0
    requires NoFreePair(r) && NoFreePair(s) && Live(r) == Live(s)
    requires n <= |r|
    ensures n <= |s| && r[..n] == s[..n]
    decreases n
  {
    if n > 0 {
      SamePrefix(r, s, n - 1, h, base, limit);
      Disjoint(r, h, base, limit, n - 1, n - 1);
      if n > 1 {
        assert Abuts(r, n - 2, h, limit) && Abuts(s, n - 2, h, limit);
        assert r[n - 2] == r[..n - 1][n - 2] == s[n - 2];
      }
      SameBlockAt(r, s, n - 1, h, base, limit);
    }
  }

  /** There is exactly one way to tile the arena around given live blocks without free neighbours. */
  lemma CoalescingUnique(r: seq<Block>, s: seq<Block>, h: nat, base: nat, limit: nat)
    requires Tiled(r, h, base, limit) && Tiled(s, h, base, limit) && h > 0
    requires NoFreePair(r) && NoFreePair(s) && Live(r) == Live(s)
    ensures r == s
  {
    SamePrefix(r, s, |r|, h, base, limit);
    SamePrefix(s, r, |s|, h, base, limit);
  }
}
