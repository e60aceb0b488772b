/** Heap allocators as their clients see them: requests answered with pointers, pointers returned. */
module Ownership {
  import opened BlockList

  datatype Op = Request(size: nat) | Return(ptr: nat)

  /** What is outstanding after one more call that was answered with `answer`. */
  function StepOwned(owned: map<nat, nat>, op: Op, answer: nat): (owned': map<nat, nat>) {
    match op
    case Request(size) => if answer == NULL then owned else owned[answer := size]
    case Return(p) => owned - {p}
  }

  /** The requests of a run not yet returned, by the pointer each was answered with. */
  ghost function Outstanding(ops: seq<Op>, answers: seq<nat>): (owned: map<nat, nat>)
    requires |ops| == |answers|
    decreases |ops|
  {
    if ops == [] then map[]
    else
      var n := |ops| - 1;
      StepOwned(Outstanding(ops[..n], answers[..n]), ops[n], answers[n])
  }

  /** A client may ask for any 32-bit size and return null or what it has not yet returned. */
  ghost predicate MayCall(owned: map<nat, nat>, op: Op) {
    match op
    case Request(size) => size < WORD
    case Return(p) => p == NULL || p in owned
  }

  ghost predicate ClientLegal(ops: seq<Op>, answers: seq<nat>)
    requires |ops| == |answers|
    decreases |ops|
  {
    ops != [] ==>
      var n := |ops| - 1;
      ClientLegal(ops[..n], answers[..n]) && MayCall(Outstanding(ops[..n], answers[..n]), ops[n])
  }

  /** No request is answered with a pointer that is still outstanding. */
  ghost predicate HandedOutOnce(ops: seq<Op>, answers: seq<nat>)
    requires |ops| == |answers|
    decreases |ops|
  {
    ops != [] ==>
      var n := |ops| - 1;
      && HandedOutOnce(ops[..n], answers[..n])
      && (ops[n].Request? && answers[n] != NULL ==> answers[n] !in Outstanding(ops[..n], answers[..n]))
  }

  lemma OneMoreAnswer(ops: seq<Op>, i: nat, answers: seq<nat>, data: nat)
    requires i < |ops| && |answers| == i
    ensures ops[..i + 1][i] == ops[i] && ops[..i + 1][..i] == ops[..i] && (answers + [data])[..i] == answers
  {
  }

  /** Pointer `p` starts a live block of at least `size` bytes, at or above address `low`. */
  ghost predicate OwnsOne(live: set<Block>, h: nat, low: nat, p: nat, size: nat) {
    exists b :: b in live && b.addr >= low && b.Payload(h) == p && b.length >= size
  }

  /** Every pointer in `owned` owns its bytes, and every live block from `low` on is somebody's. */
  ghost predicate Owns(live: set<Block>, h: nat, low: nat, owned: map<nat, nat>) {
    && (forall p :: p in owned ==> OwnsOne(live, h, low, p, owned[p]))
    && (forall b :: b in live && b.addr >= low ==> b.Payload(h) in owned)
  }

  /** What two pointers own is disjoint, from each other and from every header. */
  lemma OwnedDisjoint(bs: seq<Block>, h: nat, low: nat, owned: map<nat, nat>, p: nat, q: nat, i: nat, base: nat, limit: nat)
    requires Tiled(bs, h, base, limit) && Owns(Live(bs), h, low, owned)
    requires p in owned && q in owned && i < |bs|
    ensures p != q ==> p + owned[p] <= q - h || q + owned[q] <= p - h
    ensures p + owned[p] <= bs[i].addr || bs[i].addr + h <= p
    ensures base + h <= p && p + owned[p] <= limit
  {
    assert OwnsOne(Live(bs), h, low, p, owned[p]) && OwnsOne(Live(bs), h, low, q, owned[q]);
    var b :| b in Live(bs) && b.addr >= low && b.Payload(h) == p && b.length >= owned[p];
    var c :| c in Live(bs) && c.addr >= low && c.Payload(h) == q && c.length >= owned[q];
    var j :| 0 <= j < |bs| && bs[j] == b;
    var k :| 0 <= k < |bs| && bs[k] == c;
    Disjoint(bs, h, base, limit, j, k);
    Disjoint(bs, h, base, limit, j, i);
  }

  lemma OwnsMore(live: set<Block>, h: nat, low: nat, owned: map<nat, nat>, b: Block, size: nat)
    requires Owns(live, h, low, owned) && b.addr >= low && b.length >= size
    ensures Owns(live + {b}, h, low, owned[b.Payload(h) := size])
  {
    var live', owned' := live + {b}, owned[b.Payload(h) := size];
    forall p | p in owned' ensures OwnsOne(live', h, low, p, owned'[p]) {
      if p == b.Payload(h) {
        assert b in live';
      } else {
        assert OwnsOne(live, h, low, p, owned[p]);
        var c :| c in live && c.addr >= low && c.Payload(h) == p && c.length >= owned[p];
        assert c in live';
      }
    }
  }

  lemma OwnsLess(live: set<Block>, h: nat, low: nat, owned: map<nat, nat>, b: Block)
    requires Owns(live, h, low, owned)
    requires forall c :: c in live && c.addr == b.addr ==> c == b
    ensures Owns(live - {b}, h, low, owned - {b.Payload(h)})
  {
    var live', owned' := live - {b}, owned - {b.Payload(h)};
    forall p | p in owned' ensures OwnsOne(live', h, low, p, owned'[p]) {
      assert OwnsOne(live, h, low, p, owned[p]);
      var c :| c in live && c.addr >= low && c.Payload(h) == p && c.length >= owned[p];
      assert c in live';
    }
  }

  /** A free block is nobody's. */
  lemma FreeIsNobodys(bs: seq<Block>, h: nat, low: nat, owned: map<nat, nat>, i: nat, base: nat, limit: nat)
    requires Tiled(bs, h, base, limit) && h > 0 && Owns(Live(bs), h, low, owned) && i < |bs| && !bs[i].used
    ensures bs[i].Payload(h) !in owned
  {
    var p := bs[i].Payload(h);
    if p in owned {
      assert OwnsOne(Live(bs), h, low, p, owned[p]);
      var b :| b in Live(bs) && b.addr >= low && b.Payload(h) == p;
      var j :| 0 <= j < |bs| && bs[j] == b;
      DistinctAddresses(bs, h, base, limit);
      assert false;
    }
  }

  /** Neither is what lies behind the last block. */
  lemma BehindIsNobodys(bs: seq<Block>, h: nat, low: nat, owned: map<nat, nat>, base: nat, limit: nat)
    requires Tiled(bs, h, base, limit) && h > 0 && Owns(Live(bs), h, low, owned)
    ensures limit + h !in owned
  {
    if limit + h in owned {
      assert OwnsOne(Live(bs), h, low, limit + h, owned[limit + h]);
      var b :| b in Live(bs) && b.addr >= low && b.Payload(h) == limit + h;
      var j :| 0 <= j < |bs| && bs[j] == b;
      Disjoint(bs, h, base, limit, j, j);
      assert false;
    }
  }

  /** An owned pointer is that of a live block, which the allocator finds. */
  lemma OwnedIsLive(bs: seq<Block>, h: nat, low: nat, owned: map<nat, nat>, p: nat, base: nat, limit: nat)
    requires Tiled(bs, h, base, limit) && h > 0 && Owns(Live(bs), h, low, owned) && p in owned
    ensures LiveIndex(bs, h, p) < |bs| && bs[LiveIndex(bs, h, p)].addr >= low
    ensures Owns(Live(bs) - {bs[LiveIndex(bs, h, p)]}, h, low, owned - {p})
  {
    var i := LiveIndex(bs, h, p);
    assert OwnsOne(Live(bs), h, low, p, owned[p]);
    DistinctAddresses(bs, h, base, limit);
    OwnsLess(Live(bs), h, low, owned, bs[i]);
  }

  lemma NullNotOwned(live: set<Block>, h: nat, low: nat, owned: map<nat, nat>)
    requires h > 0 && Owns(live, h, low, owned)
    ensures NULL !in owned && owned - {NULL} == owned
  {
    assert NULL in owned ==> OwnsOne(live, h, low, NULL, owned[NULL]);
  }
}
