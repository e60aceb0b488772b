/** Whole runs of limine-deploy.c: any requests through the cache, then success or roll back. */
module Deployment {
  import opened Bytes
  import opened DeviceImage
  import opened BlockDevice

  /** The `device_read` and `device_write` calls of `main`; a failing one jumps to the clean-up. */
  datatype Request = ReadRequest(loc: nat, count: nat) | WriteRequest(loc: nat, data: seq<Byte>) {
    function Size(): nat {
      if ReadRequest? then count else |data|
    }

    ghost predicate EmptyWrite() {
      WriteRequest? && data == []
    }

    ghost predicate Served(size: nat, n: nat)
      requires size > 0
    {
      loc <= NO_BLOCK && Accessible(loc, Size(), size, n)
    }
  }

  ghost predicate AllServed(reqs: seq<Request>, size: nat, n: nat)
    requires size > 0
  {
    forall i :: 0 <= i < |reqs| ==> reqs[i].Served(size, n)
  }

  // ----- The flat byte array that the cache has to look like

  datatype Flat = Flat(image: seq<Byte>, outputs: seq<seq<Byte>>)

  ghost predicate Legal(r: Request, n: nat) {
    r.Size() == 0 || r.loc + r.Size() <= n
  }

  ghost predicate AllLegal(reqs: seq<Request>, n: nat) {
    forall i :: 0 <= i < |reqs| ==> Legal(reqs[i], n)
  }

  ghost function FlatStep(r: Request, f: Flat): (f': Flat)
    requires Legal(r, |f.image|)
    ensures |f'.image| == |f.image|
  {
    match r
    case ReadRequest(loc, count) =>
      f.(outputs := f.outputs + [if count == 0 then [] else f.image[loc..loc + count]])
    case WriteRequest(loc, data) =>
      f.(image := Splice(f.image, loc, data))
  }

  ghost function FlatRun(reqs: seq<Request>, image: seq<Byte>): (f: Flat)
    requires AllLegal(reqs, |image|)
    ensures |f.image| == |image|
    decreases |reqs|
  {
    if reqs == [] then Flat(image, [])
    else FlatStep(reqs[|reqs| - 1], FlatRun(reqs[..|reqs| - 1], image))
  }

  // ----- Runs

  ghost predicate NoneEmpty(j: seq<Entry>) {
    forall i :: 0 <= i < |j| ==> j[i].data != []
  }

  /** A device just initialised. */
  ghost predicate Ready(d: Device)
    reads d, d.cache, d.journal
  {
    d.Valid() && d.JournalValid() && d.Coherent() && !d.undeploying && !d.dirty && d.journalLen == 0
  }

  /** A deployment in progress that started from `origin`. */
  ghost predicate InProgress(d: Device, origin: seq<Byte>)
    reads d, d.cache, d.journal
  {
    && d.Valid() && d.JournalValid() && d.Coherent() && !d.undeploying
    && AllRecordable(d.Journal(), d.blockSize, |d.disk|)
    && Undoable(d.Journal(), d.disk, d.Logical(), origin)
  }

  /** A deployment that can no longer go on but still can be undone from the disk alone. */
  ghost predicate Broken(d: Device, origin: seq<Byte>)
    reads d, d.cache, d.journal
  {
    && d.Valid() && d.JournalValid()
    && AllRecordable(d.Journal(), d.blockSize, |d.disk|)
    && AllFit(d.Journal(), |d.disk|) && UndoAll(d.Journal(), d.disk) == origin
  }

  lemma StopsUndoable(d: Device, origin: seq<Byte>)
    requires InProgress(d, origin)
    ensures Broken(d, origin)
  {
    UndoableFromDisk(d.Journal(), d.disk, d.Logical(), origin);
  }

  method ReadStep(d: Device, loc: nat, count: nat, ghost origin: seq<Byte>) returns (ok: bool, buffer: seq<Byte>)
    requires InProgress(d, origin) && loc <= NO_BLOCK
    modifies d, d.cache
    ensures if ok then InProgress(d, origin) else Broken(d, origin)
    ensures |d.disk| == old(|d.disk|) && d.Valid() && d.JournalValid() && d.Journal() == old(d.Journal())
    ensures ok <==> Accessible(loc, count, d.blockSize, |d.disk|)
    ensures ok ==> Legal(ReadRequest(loc, count), |d.disk|) && d.Logical() == old(d.Logical())
    ensures ok ==> buffer == if count == 0 then [] else old(d.Logical())[loc..loc + count]
  {
    ghost var j, view := d.Journal(), d.Logical();
    ok, buffer := d.Read(loc, count);
    assert d.Journal() == j;
    if !ok {
      UndoForgetsCovered(j, d.disk, view);
    }
  }

  lemma LastEmpty(j: seq<Entry>, e: Entry)
    ensures NoneEmpty(j + [e]) <==> NoneEmpty(j) && e.data != []
  {
    assert forall i :: 0 <= i < |j| ==> j[i] == (j + [e])[i];
    assert (j + [e])[|j|] == e;
  }

  method WriteStep(d: Device, loc: nat, data: seq<Byte>, ghost origin: seq<Byte>) returns (ok: bool)
    requires InProgress(d, origin) && loc <= NO_BLOCK
    modifies d, d.cache, d.journal
    ensures if ok then InProgress(d, origin) else Broken(d, origin)
    ensures |d.disk| == old(|d.disk|)
    ensures ok <==> Accessible(loc, |data|, d.blockSize, |d.disk|) && old(d.journalLen) < UNDEPLOY_DATA_MAX
    ensures ok ==> Legal(WriteRequest(loc, data), |d.disk|) && d.Logical() == Splice(old(d.Logical()), loc, data)
    ensures ok ==> d.journalLen == old(d.journalLen) + 1
    ensures ok ==> (NoneEmpty(d.Journal()) <==> old(NoneEmpty(d.Journal())) && data != [])
  {
    ghost var j, disk, view := d.Journal(), d.disk, d.Logical();
    ghost var saved;
    ok, saved := d.Write(loc, data);
    if ok {
      RecordedWriteUndoable(j, disk, view, origin, saved, data, d.disk);
      LastEmpty(j, saved);
    } else {
      UndoForgetsCovered(j, d.disk, view);
    }
  }

  method ServeRead(d: Device, r: Request, outputs: seq<seq<Byte>>, ghost origin: seq<Byte>)
    returns (ok: bool, outputs': seq<seq<Byte>>)
    requires InProgress(d, origin) && r.ReadRequest? && r.loc <= NO_BLOCK
    modifies d, d.cache
    ensures if ok then InProgress(d, origin) else Broken(d, origin)
    ensures |d.disk| == old(|d.disk|) && d.Valid() && d.JournalValid() && d.Journal() == old(d.Journal())
    ensures ok <==> r.Served(d.blockSize, |d.disk|)
    ensures ok ==> Legal(r, |d.disk|) && Flat(d.Logical(), outputs') == FlatStep(r, Flat(old(d.Logical()), outputs))
  {
    ghost var view := d.Logical();
    var buffer;
    ok, buffer := ReadStep(d, r.loc, r.count, origin);
    outputs' := outputs + [buffer];
    assert ok ==> FlatStep(r, Flat(view, outputs)) == Flat(view, outputs');
  }

  method ServeWrite(d: Device, r: Request, outputs: seq<seq<Byte>>, ghost origin: seq<Byte>) returns (ok: bool)
    requires InProgress(d, origin) && r.WriteRequest? && r.loc <= NO_BLOCK
    modifies d, d.cache, d.journal
    ensures if ok then InProgress(d, origin) else Broken(d, origin)
    ensures |d.disk| == old(|d.disk|)
    ensures ok <==> r.Served(d.blockSize, |d.disk|) && old(d.journalLen) < UNDEPLOY_DATA_MAX
    ensures ok ==> Legal(r, |d.disk|) && Flat(d.Logical(), outputs) == FlatStep(r, Flat(old(d.Logical()), outputs))
    ensures ok ==> d.journalLen == old(d.journalLen) + 1
    ensures ok ==> (NoneEmpty(d.Journal()) <==> old(NoneEmpty(d.Journal())) && !r.EmptyWrite())
  {
    ok := WriteStep(d, r.loc, r.data, origin);
  }

  /** Serves one request; the view and the collected outputs move as the flat array does. */
  method ServeOne(d: Device, r: Request, outputs: seq<seq<Byte>>, ghost origin: seq<Byte>)
    returns (ok: bool, outputs': seq<seq<Byte>>)
    requires InProgress(d, origin) && r.loc <= NO_BLOCK
    modifies d, d.cache, d.journal
    ensures |d.disk| == old(|d.disk|)
    ensures if ok then InProgress(d, origin) else Broken(d, origin)
    ensures ok <==> r.Served(d.blockSize, |d.disk|) && (r.WriteRequest? ==> old(d.journalLen) < UNDEPLOY_DATA_MAX)
    ensures ok ==> d.journalLen == old(d.journalLen) + if r.WriteRequest? then 1 else 0
    ensures ok ==> (NoneEmpty(d.Journal()) <==> old(NoneEmpty(d.Journal())) && !r.EmptyWrite())
    ensures ok ==> Legal(r, |d.disk|) && Flat(d.Logical(), outputs') == FlatStep(r, Flat(old(d.Logical()), outputs))
  {
    if r.ReadRequest? {
      ok, outputs' := ServeRead(d, r, outputs, origin);
      return;
    }
    ok := ServeWrite(d, r, outputs, origin);
    return ok, outputs;
  }

  ghost function Writes(reqs: seq<Request>): (n: nat)
    decreases |reqs|
  {
    if reqs == [] then 0
    else Writes(reqs[..|reqs| - 1]) + if reqs[|reqs| - 1].WriteRequest? then 1 else 0
  }

  ghost predicate NoEmptyWrite(reqs: seq<Request>) {
    forall i :: 0 <= i < |reqs| ==> !reqs[i].EmptyWrite()
  }

  lemma {:induction false} WritesMonotone(reqs: seq<Request>, i: nat)
    requires i <= |reqs|
    ensures Writes(reqs[..i]) <= Writes(reqs)
    decreases |reqs|
  {
    if i < |reqs| {
      assert reqs[..|reqs| - 1][..i] == reqs[..i];
      WritesMonotone(reqs[..|reqs| - 1], i);
    } else {
      assert reqs[..i] == reqs;
    }
  }

  /** The requests `reqs` have been served since the view was `start` and the journal `j`. */
  ghost predicate ServedSoFar(d: Device, reqs: seq<Request>, outputs: seq<seq<Byte>>, start: seq<Byte>, j: seq<Entry>)
    reads d, d.cache, d.journal
  {
    && d.Valid() && d.JournalValid()
    && |d.disk| == |start| && AllServed(reqs, d.blockSize, |d.disk|)
    && d.journalLen == |j| + Writes(reqs) <= UNDEPLOY_DATA_MAX
    && (NoneEmpty(d.Journal()) <==> NoneEmpty(j) && NoEmptyWrite(reqs))
    && AllLegal(reqs, |start|) && FlatRun(reqs, start) == Flat(d.Logical(), outputs)
  }

  lemma ServedOneMore(reqs: seq<Request>, i: nat, size: nat, n: nat)
    requires i < |reqs| && size > 0
    ensures var before, after := reqs[..i], reqs[..i + 1];
            && (AllServed(after, size, n) <==> AllServed(before, size, n) && reqs[i].Served(size, n))
            && (NoEmptyWrite(after) <==> NoEmptyWrite(before) && !reqs[i].EmptyWrite())
            && (AllLegal(after, n) <==> AllLegal(before, n) && Legal(reqs[i], n))
            && after[..i] == before && after[i] == reqs[i]
  {
    var before, after := reqs[..i], reqs[..i + 1];
    assert after[..i] == before && after[i] == reqs[i];
    assert forall k :: 0 <= k < i ==> before[k] == after[k];
  }

  /** The next request of a run. */
  method ServeNext(d: Device, reqs: seq<Request>, i: nat, outputs: seq<seq<Byte>>, ghost start: seq<Byte>,
                   ghost j: seq<Entry>, ghost origin: seq<Byte>)
    returns (ok: bool, outputs': seq<seq<Byte>>)
    requires i < |reqs| && reqs[i].loc <= NO_BLOCK
    requires InProgress(d, origin) && ServedSoFar(d, reqs[..i], outputs, start, j)
    modifies d, d.cache, d.journal
    ensures |d.disk| == |start|
    ensures ok ==> InProgress(d, origin) && ServedSoFar(d, reqs[..i + 1], outputs', start, j)
    ensures !ok ==> Broken(d, origin) && !(AllServed(reqs, d.blockSize, |start|) && |j| + Writes(reqs) <= UNDEPLOY_DATA_MAX)
  {
    ServedOneMore(reqs, i, d.blockSize, |start|);
    WritesMonotone(reqs, i + 1);
    ok, outputs' := ServeOne(d, reqs[i], outputs, origin);
  }

  /** Serves requests until one fails. The cache behaves as the flat array, and whatever happens
      the journal still leads back to the image from before the first write. */
  method RunRequests(d: Device, reqs: seq<Request>, ghost origin: seq<Byte>)
    returns (ok: bool, outputs: seq<seq<Byte>>)
    requires InProgress(d, origin)
    requires forall i :: 0 <= i < |reqs| ==> reqs[i].loc <= NO_BLOCK
    modifies d, d.cache, d.journal
    ensures |d.disk| == old(|d.disk|)
    ensures ok <==> AllServed(reqs, d.blockSize, |d.disk|) && old(d.journalLen) + Writes(reqs) <= UNDEPLOY_DATA_MAX
    ensures ok ==> InProgress(d, origin) && ServedSoFar(d, reqs, outputs, old(d.Logical()), old(d.Journal()))
    ensures !ok ==> Broken(d, origin)
  {
    ghost var start, j := d.Logical(), d.Journal();
    outputs := [];
    ok := true;
    var i := 0;
    while i < |reqs|
      invariant 0 <= i <= |reqs| && ok
      invariant InProgress(d, origin) && ServedSoFar(d, reqs[..i], outputs, start, j)
    {
      ok, outputs := ServeNext(d, reqs, i, outputs, start, j, origin);
      if !ok {
        return;
      }
      i := i + 1;
    }
    assert reqs[..i] == reqs;
  }

  lemma ReverseNoneEmpty(j: seq<Entry>)
    ensures NoneEmpty(Reverse(j)) <==> NoneEmpty(j)
  {
    if NoneEmpty(Reverse(j)) {
      forall i | 0 <= i < |j| ensures j[i].data != [] {
        assert Reverse(j)[|j| - 1 - i] == j[i];
      }
    }
  }

  /** The clean-up after a failure: reverse the journal and undeploy. */
  method RollBack(d: Device, ghost origin: seq<Byte>)
    requires Broken(d, origin)
    modifies d, d.cache, d.journal
    ensures d.disk == origin && !d.dirty
  {
    ReplayReversedIsUndo(d.Journal(), d.disk);
    d.ReverseJournal();
    d.Undeploy();
  }

  /** The end of a deployment that succeeded: flush, and reverse the journal. */
  method Commit(d: Device, ghost origin: seq<Byte>)
    requires InProgress(d, origin)
    modifies d, d.journal
    ensures d.Valid() && d.JournalValid() && !d.dirty && d.disk == old(d.Logical())
    ensures AllRecordable(d.Journal(), d.blockSize, |d.disk|) && (NoneEmpty(d.Journal()) <==> old(NoneEmpty(d.Journal())))
    ensures AllFit(d.Journal(), |d.disk|) && Replay(d.Journal(), d.disk) == origin
  {
    ghost var j := d.Journal();
    var flushed := d.FlushCache();
    d.CleanView();
    assert d.Journal() == j;
    ReplayReversedIsUndo(j, d.disk);
    ReverseNoneEmpty(j);
    d.ReverseJournal();
  }

  /** `main` around its requests: after success the disk holds them all and the reversed journal
      leads back; after any failure the disk is byte for byte what it was. */
  method DeployOrRollBack(d: Device, reqs: seq<Request>) returns (ok: bool, outputs: seq<seq<Byte>>)
    requires Ready(d)
    requires forall i :: 0 <= i < |reqs| ==> reqs[i].loc <= NO_BLOCK
    modifies d, d.cache, d.journal
    ensures |d.disk| == old(|d.disk|) && !d.dirty
    ensures ok <==> AllServed(reqs, d.blockSize, |d.disk|) && Writes(reqs) <= 256
    ensures !ok ==> d.disk == old(d.disk)
    ensures ok ==> AllLegal(reqs, |d.disk|) && FlatRun(reqs, old(d.disk)) == Flat(d.disk, outputs)
    ensures ok ==> d.Valid() && d.JournalValid() && AllRecordable(d.Journal(), d.blockSize, |d.disk|)
    ensures ok ==> (NoneEmpty(d.Journal()) <==> NoEmptyWrite(reqs))
    ensures ok ==> AllFit(d.Journal(), |d.disk|) && Replay(d.Journal(), d.disk) == old(d.disk)
  {
    ghost var origin := d.disk;
    d.CleanView();
    ok, outputs := RunRequests(d, reqs, origin);
    if ok {
      Commit(d, origin);
    } else {
      RollBack(d, origin);
    }
  }
}
