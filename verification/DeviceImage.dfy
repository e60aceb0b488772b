/** Byte images of a device, the undo journal kept over them, and what undoing means.
    Nothing here knows about blocks or caches: these are the values that the
    methods of `BlockDevice` are specified against. */
module DeviceImage {

  import opened Bytes

  /** One journal record: the bytes that a write at `loc` was about to replace. */
  datatype Entry = Entry(loc: nat, data: seq<Byte>) {
    predicate Covers(k: int) {
      loc <= k < loc + |data|
    }

    predicate Fits(n: nat) {
      data == [] || loc + |data| <= n
    }
  }

  /** The image `d` with `data` written at `loc`; an empty write may lie anywhere. */
  function Splice(d: seq<Byte>, loc: nat, data: seq<Byte>): (r: seq<Byte>)
    requires data == [] || loc + |data| <= |d|
    ensures |r| == |d|
    ensures forall k :: 0 <= k < |r| ==> r[k] == if loc <= k < loc + |data| then data[k - loc] else d[k]
  {
    seq(|d|, k requires 0 <= k < |d| => if loc <= k < loc + |data| then data[k - loc] else d[k])
  }

  ghost predicate AllFit(j: seq<Entry>, n: nat) {
    forall i :: 0 <= i < |j| ==> j[i].Fits(n)
  }

  ghost predicate Covered(j: seq<Entry>, k: int) {
    exists i :: 0 <= i < |j| && j[i].Covers(k)
  }

  /** Undoing a journal: the newest record is put back first. */
  ghost function UndoAll(j: seq<Entry>, d: seq<Byte>): (r: seq<Byte>)
    requires AllFit(j, |d|)
    ensures |r| == |d|
    decreases |j|
  {
    if j == [] then d
    else
      var e := j[|j| - 1];
      UndoAll(j[..|j| - 1], Splice(d, e.loc, e.data))
  }

  /** Writing records back in the order in which they are stored, as `undeploy` does. */
  ghost function Replay(j: seq<Entry>, d: seq<Byte>): (r: seq<Byte>)
    requires AllFit(j, |d|)
    ensures |r| == |d|
    decreases |j|
  {
    if j == [] then d
    else
      var e := j[|j| - 1];
      var before := Replay(j[..|j| - 1], d);
      Splice(before, e.loc, e.data)
  }

  function Reverse<T>(s: seq<T>): (r: seq<T>)
    ensures |r| == |s|
    ensures forall i :: 0 <= i < |s| ==> r[i] == s[|s| - 1 - i]
  {
    seq(|s|, i requires 0 <= i < |s| => s[|s| - 1 - i])
  }

  /** The first record of a stored journal is the first one written. */
  lemma {:induction false} ReplayFromFront(j: seq<Entry>, d: seq<Byte>)
    requires j != [] && AllFit(j, |d|)
    ensures Replay(j, d) == Replay(j[1..], Splice(d, j[0].loc, j[0].data))
    decreases |j|
  {
    if |j| == 1 {
      assert Replay(j[..0], d) == d;
    } else {
      var front := j[..|j| - 1];
      ReplayFromFront(front, d);
      assert front[1..] == j[1..][..|j| - 2];
    }
  }

  lemma ReplayOneMore(j: seq<Entry>, i: nat, d: seq<Byte>)
    requires i < |j| && AllFit(j, |d|)
    ensures Replay(j[..i + 1], d) == Splice(Replay(j[..i], d), j[i].loc, j[i].data)
  {
    assert j[..i + 1][..i] == j[..i];
  }

  /** Replaying the reversed journal is undoing the journal. */
  lemma {:induction false} ReplayReversedIsUndo(j: seq<Entry>, d: seq<Byte>)
    requires AllFit(j, |d|)
    ensures AllFit(Reverse(j), |d|)
    ensures Replay(Reverse(j), d) == UndoAll(j, d)
    decreases |j|
  {
    if j != [] {
      var r := Reverse(j);
      ReplayFromFront(r, d);
      assert r[1..] == Reverse(j[..|j| - 1]);
      ReplayReversedIsUndo(j[..|j| - 1], Splice(d, r[0].loc, r[0].data));
    }
  }

  /** Undoing forgets every covered byte, so images that agree elsewhere undo to the same image. */
  lemma {:induction false} UndoForgetsCovered(j: seq<Entry>, d: seq<Byte>, d': seq<Byte>)
    requires |d| == |d'| && AllFit(j, |d|)
    requires forall k :: 0 <= k < |d| ==> d[k] == d'[k] || Covered(j, k)
    ensures UndoAll(j, d) == UndoAll(j, d')
    decreases |j|
  {
    if j == [] {
      forall k | 0 <= k < |d| ensures d[k] == d'[k] {
        assert !Covered(j, k);
      }
    } else {
      var e, front := j[|j| - 1], j[..|j| - 1];
      var s, s' := Splice(d, e.loc, e.data), Splice(d', e.loc, e.data);
      forall k | 0 <= k < |d| && s[k] != s'[k] ensures Covered(front, k) {
        var i :| 0 <= i < |j| && j[i].Covers(k);
        assert front[i].Covers(k);
      }
      UndoForgetsCovered(front, s, s');
    }
  }

  lemma SpliceExtends(d: seq<Byte>, loc: nat, data: seq<Byte>, i: nat, n: nat)
    requires i + n <= |data| && (i + n == 0 || loc + i + n <= |d|)
    ensures Splice(Splice(d, loc, data[..i]), loc + i, data[i..][..n]) == Splice(d, loc, data[..i + n])
  {
  }

  /** Writing into a block and then the block is writing the block and then into it. */
  lemma SpliceInside(d: seq<Byte>, start: nat, block: seq<Byte>, offset: nat, data: seq<Byte>)
    requires start + |block| <= |d| && offset + |data| <= |block|
    ensures Splice(d, start, Splice(block, offset, data)) == Splice(Splice(d, start, block), start + offset, data)
  {
  }

  /** Recording the replaced bytes makes one more write undoable. */
  lemma UndoRecordedWrite(j: seq<Entry>, d: seq<Byte>, e: Entry, data: seq<Byte>)
    requires AllFit(j, |d|) && |data| == |e.data| && e.Fits(|d|)
    requires e.data == [] || e.data == d[e.loc..e.loc + |e.data|]
    ensures AllFit(j + [e], |d|) && UndoAll(j + [e], Splice(d, e.loc, data)) == UndoAll(j, d)
  {
    assert Splice(Splice(d, e.loc, data), e.loc, e.data) == d;
    assert (j + [e])[..|j|] == j;
  }

  /** Outside `[loc, loc + count)` the disk `d` still holds old disk bytes or bytes of the old view. */
  ghost predicate OnlyInside(d: seq<Byte>, was: seq<Byte>, view: seq<Byte>, loc: nat, count: nat) {
    |d| == |was| == |view| &&
    forall k :: 0 <= k < |d| && !(loc <= k < loc + count) ==> d[k] == was[k] || d[k] == view[k]
  }

  /** The journal leads from the view back to `origin`, and unwritten cache contents
      differ from the disk only where the journal will write. */
  ghost predicate Undoable(j: seq<Entry>, disk: seq<Byte>, view: seq<Byte>, origin: seq<Byte>) {
    && |disk| == |view| && AllFit(j, |disk|)
    && UndoAll(j, view) == origin
    && forall k :: 0 <= k < |disk| ==> disk[k] == view[k] || Covered(j, k)
  }

  /** Losing the cache loses nothing that undoing needs. */
  lemma UndoableFromDisk(j: seq<Entry>, disk: seq<Byte>, view: seq<Byte>, origin: seq<Byte>)
    requires Undoable(j, disk, view, origin)
    ensures UndoAll(j, disk) == origin
  {
    UndoForgetsCovered(j, disk, view);
  }

  /** A journaled write keeps everything undoable, however much of it reached the disk. */
  lemma RecordedWriteUndoable(j: seq<Entry>, disk: seq<Byte>, view: seq<Byte>, origin: seq<Byte>,
                              e: Entry, data: seq<Byte>, disk': seq<Byte>)
    requires Undoable(j, disk, view, origin)
    requires |data| == |e.data| && e.Fits(|disk|)
    requires e.data == [] || e.data == view[e.loc..e.loc + |e.data|]
    requires OnlyInside(disk', disk, view, e.loc, |data|)
    ensures Undoable(j + [e], disk', Splice(view, e.loc, data), origin)
  {
    UndoRecordedWrite(j, view, e, data);
    var view' := Splice(view, e.loc, data);
    forall k | 0 <= k < |disk'| && disk'[k] != view'[k] ensures Covered(j + [e], k) {
      if e.Covers(k) {
        assert (j + [e])[|j|].Covers(k);
      } else {
        assert disk[k] != view[k];
        var i :| 0 <= i < |j| && j[i].Covers(k);
        assert (j + [e])[i].Covers(k);
      }
    }
  }
}
