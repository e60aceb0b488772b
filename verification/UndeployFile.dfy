/** The undeploy data file: how a journal is stored, loaded, and used by a later run. */
module UndeployFile {
  import opened Bytes
  import opened DeviceImage
  import opened BlockDevice
  import opened Deployment
  import opened LittleEndian

  // ----- The file format

  ghost predicate Storable(e: Entry) {
    e.loc <= NO_BLOCK && 0 < |e.data| <= NO_BLOCK
  }

  ghost predicate AllStorable(j: seq<Entry>) {
    forall i :: 0 <= i < |j| ==> Storable(j[i])
  }

  function EncodeEntry(e: Entry): (s: seq<Byte>)
    ensures |s| == 16 + |e.data|
  {
    Field(e.loc) + Field(|e.data|) + e.data
  }

  function EncodeEntries(j: seq<Entry>): (s: seq<Byte>)
    decreases |j|
  {
    if j == [] then [] else EncodeEntry(j[0]) + EncodeEntries(j[1..])
  }

  function EncodeJournal(j: seq<Entry>): (s: seq<Byte>) {
    Field(|j|) + EncodeEntries(j)
  }

  datatype One = One(entry: Entry, rest: seq<Byte>) | Short

  /** One record at the front of `s`; reading zero bytes counts as a failure. */
  ghost function ParseEntry(s: seq<Byte>): (r: One) {
    if |s| < 16 then Short
    else
      var count := DecodeLE(s[8..16]);
      if count == 0 || |s| - 16 < count then Short
      else One(Entry(DecodeLE(s[..8]), s[16..16 + count]), s[16 + count..])
  }

  datatype Loaded = Loaded(journal: seq<Entry>) | Truncated | Overrun

  ghost function Behind(front: seq<Entry>, r: Loaded): (r': Loaded) {
    if r.Loaded? then Loaded(front + r.journal) else r
  }

  /** What loading makes of the bytes `s` when `n` records are announced and `room` fit the table. */
  ghost function ParseEntries(s: seq<Byte>, n: nat, room: nat): (r: Loaded)
    decreases n
  {
    if n == 0 then Loaded([])
    else if room == 0 then Overrun
    else
      match ParseEntry(s)
      case Short => Truncated
      case One(e, rest) => Behind([e], ParseEntries(rest, n - 1, room - 1))
  }

  ghost function Parse(file: seq<Byte>): (r: Loaded) {
    if |file| < 8 then Truncated
    else ParseEntries(file[8..], DecodeLE(file[..8]), UNDEPLOY_DATA_MAX)
  }

  lemma EntryRoundTrip(e: Entry, tail: seq<Byte>)
    requires Storable(e)
    ensures ParseEntry(EncodeEntry(e) + tail) == One(e, tail)
  {
    var s := EncodeEntry(e) + tail;
    FieldExact(e.loc);
    FieldExact(|e.data|);
    assert s[..8] == Field(e.loc);
    assert s[8..16] == Field(|e.data|);
    assert s[16..16 + |e.data|] == e.data;
    assert s[16 + |e.data|..] == tail;
  }

  lemma EntrySound(s: seq<Byte>)
    requires ParseEntry(s).One?
    ensures Storable(ParseEntry(s).entry) && s == EncodeEntry(ParseEntry(s).entry) + ParseEntry(s).rest
  {
    FieldOnto(s[..8]);
    FieldOnto(s[8..16]);
    FourParts(s, |ParseEntry(s).entry.data|);
  }

  lemma FourParts(s: seq<Byte>, n: nat)
    requires 16 + n <= |s|
    ensures s == (s[..8] + s[8..16] + s[16..16 + n]) + s[16 + n..]
  {
  }

  lemma ConcatAssociates(a: seq<Byte>, b: seq<Byte>, c: seq<Byte>)
    ensures (a + b) + c == a + (b + c)
  {
  }

  lemma EmptyFront(r: Loaded)
    ensures Behind([], r) == r
  {
    assert r.Loaded? ==> [] + r.journal == r.journal;
  }

  /** One more record read moves it from the bytes to the records in hand. */
  lemma ParseStep(front: seq<Entry>, s: seq<Byte>, e: Entry, rest: seq<Byte>, n: nat, room: nat)
    requires ParseEntry(s) == One(e, rest) && n > 0 && room > 0
    ensures Behind(front, ParseEntries(s, n, room)) == Behind(front + [e], ParseEntries(rest, n - 1, room - 1))
  {
    var r := ParseEntries(rest, n - 1, room - 1);
    if r.Loaded? {
      assert front + ([e] + r.journal) == front + [e] + r.journal;
    }
  }

  lemma ParseFirst(e: Entry, tail: seq<Byte>, n: nat, room: nat)
    requires Storable(e) && n > 0 && room > 0
    ensures ParseEntries(EncodeEntry(e) + tail, n, room) == Behind([e], ParseEntries(tail, n - 1, room - 1))
  {
    EntryRoundTrip(e, tail);
  }

  /** Loading inverts storing, whatever follows the records. */
  lemma {:induction false} EntriesRoundTrip(j: seq<Entry>, rest: seq<Byte>, room: nat)
    requires AllStorable(j) && |j| <= room
    ensures ParseEntries(EncodeEntries(j) + rest, |j|, room) == Loaded(j)
    decreases |j|
  {
    if j != [] {
      EntriesRoundTrip(j[1..], rest, room - 1);
      ParseFirst(j[0], EncodeEntries(j[1..]) + rest, |j|, room);
      ConcatAssociates(EncodeEntry(j[0]), EncodeEntries(j[1..]), rest);
      assert [j[0]] + j[1..] == j;
    }
  }

  lemma {:induction false} EntriesSound(s: seq<Byte>, n: nat, room: nat)
    requires ParseEntries(s, n, room).Loaded?
    ensures var j := ParseEntries(s, n, room).journal;
            |j| == n <= room && AllStorable(j) && EncodeEntries(j) <= s
    decreases n
  {
    if n > 0 {
      EntrySound(s);
      var One(e, rest) := ParseEntry(s);
      EntriesSound(rest, n - 1, room - 1);
      var j := ParseEntries(s, n, room).journal;
      assert j[0] == e && j[1..] == ParseEntries(rest, n - 1, room - 1).journal;
    }
  }

  /** A file loads as `j` exactly when it starts with `j`'s encoding, every record is storable and
      the table has room. */
  lemma LoadsExactly(file: seq<Byte>, j: seq<Entry>)
    ensures Parse(file) == Loaded(j) <==> AllStorable(j) && |j| <= 256 && EncodeJournal(j) <= file
  {
    if AllStorable(j) && |j| <= UNDEPLOY_DATA_MAX && EncodeJournal(j) <= file {
      FieldExact(|j|);
      var rest := file[|EncodeJournal(j)|..];
      assert file[..8] == Field(|j|);
      assert file[8..] == EncodeEntries(j) + rest;
      EntriesRoundTrip(j, rest, UNDEPLOY_DATA_MAX);
    }
    if Parse(file) == Loaded(j) {
      EntriesSound(file[8..], DecodeLE(file[..8]), UNDEPLOY_DATA_MAX);
      FieldOnto(file[..8]);
      assert EncodeJournal(j) == file[..8] + EncodeEntries(j);
    }
  }

  lemma {:induction false} EncodeOneMore(j: seq<Entry>, i: nat)
    requires i < |j|
    ensures EncodeEntries(j[..i + 1]) == EncodeEntries(j[..i]) + EncodeEntry(j[i])
    decreases i
  {
    assert j[..i + 1][0] == j[0];
    assert j[..i + 1][1..] == j[1..][..i];
    if i > 0 {
      assert j[..i][1..] == j[1..][..i - 1];
      EncodeOneMore(j[1..], i - 1);
    } else {
      assert EncodeEntries(j[1..][..0]) == [];
    }
  }

  lemma StoredOneMore(j: seq<Entry>, i: nat)
    requires i < |j|
    ensures Field(|j|) + EncodeEntries(j[..i]) + EncodeEntry(j[i]) == Field(|j|) + EncodeEntries(j[..i + 1])
  {
    EncodeOneMore(j, i);
    ConcatAssociates(Field(|j|), EncodeEntries(j[..i]), EncodeEntry(j[i]));
  }

  // ----- Where things lie in the file

  /** Where record `i` starts. */
  function RecordAt(j: seq<Entry>, i: nat): (at: nat)
    requires i <= |j|
  {
    if i == 0 then 8 else RecordAt(j, i - 1) + 16 + |j[i - 1].data|
  }

  lemma {:induction false} RecordsBefore(j: seq<Entry>, i: nat)
    requires i <= |j|
    ensures |EncodeEntries(j[..i])| + 8 == RecordAt(j, i)
  {
    if i > 0 {
      RecordsBefore(j, i - 1);
      EncodeOneMore(j, i - 1);
    } else {
      assert j[..0] == [];
    }
  }

  lemma {:induction false} EncodePrefix(j: seq<Entry>, i: nat)
    requires i <= |j|
    ensures EncodeEntries(j[..i]) <= EncodeEntries(j)
    decreases |j| - i
  {
    if i < |j| {
      EncodeOneMore(j, i);
      EncodePrefix(j, i + 1);
    } else {
      assert j[..i] == j;
    }
  }

  /** At place `at` of the file lie the place and length of a record, as numbers of eight bytes, and
      then its bytes. */
  ghost predicate RecordReads(file: seq<Byte>, at: nat, e: Entry) {
    && at + 16 + |e.data| <= |file| && Le64(file, at) == e.loc && Le64(file, at + 8) == |e.data|
    && file[at + 16..at + 16 + |e.data|] == e.data
  }

  /** The file starts with the number of records, and each record lies behind the one before. */
  lemma FileLayout(j: seq<Entry>, i: nat)
    requires AllStorable(j) && i < |j| <= UNDEPLOY_DATA_MAX
    ensures |EncodeJournal(j)| >= 8 && Le64(EncodeJournal(j), 0) == |j|
    ensures RecordReads(EncodeJournal(j), RecordAt(j, i), j[i])
  {
    CountIn(j);
    RecordsBefore(j, i);
    RecordSlice(j, i);
    RecordIn(EncodeJournal(j), j[i], RecordAt(j, i));
  }

  lemma CountIn(j: seq<Entry>)
    requires |j| <= UNDEPLOY_DATA_MAX
    ensures |EncodeJournal(j)| >= 8 && Le64(EncodeJournal(j), 0) == |j|
  {
    assert EncodeJournal(j)[0..8] == Field(|j|);
    FieldReads(EncodeJournal(j), 0, |j|);
  }

  lemma RecordSlice(j: seq<Entry>, i: nat)
    requires i < |j|
    ensures var file, at := EncodeJournal(j), |EncodeEntries(j[..i])| + 8;
            at + 16 + |j[i].data| <= |file| && file[at..at + 16 + |j[i].data|] == EncodeEntry(j[i])
  {
    EncodeOneMore(j, i);
    EncodePrefix(j, i + 1);
    MiddlePart(Field(|j|), EncodeEntries(j), EncodeEntries(j[..i]), EncodeEntry(j[i]));
  }

  lemma MiddlePart(head: seq<Byte>, whole: seq<Byte>, front: seq<Byte>, part: seq<Byte>)
    requires front + part <= whole
    ensures var at := |head| + |front|;
            at + |part| <= |head + whole| && (head + whole)[at..at + |part|] == part
  {
    assert whole[|front|..|front| + |part|] == part;
  }

  lemma SliceOfSlice(s: seq<Byte>, a: nat, b: nat, i: nat, k: nat)
    requires a <= b <= |s| && i <= k <= b - a
    ensures s[a..b][i..k] == s[a + i..a + k]
  {
    var t := s[a..b];
    assert forall x :: i <= x < k ==> t[x] == s[a + x];
    forall x | 0 <= x < k - i ensures t[i..k][x] == s[a + i..a + k][x] {
      assert t[i..k][x] == t[i + x];
    }
  }

  lemma RecordIn(file: seq<Byte>, e: Entry, at: nat)
    requires Storable(e) && at + 16 + |e.data| <= |file| && file[at..at + 16 + |e.data|] == EncodeEntry(e)
    ensures RecordReads(file, at, e)
  {
    var w := file[at..at + 16 + |e.data|];
    assert w[0..8] == Field(e.loc) && w[8..16] == Field(|e.data|) && w[16..16 + |e.data|] == e.data;
    SliceOfSlice(file, at, at + 16 + |e.data|, 0, 8);
    SliceOfSlice(file, at, at + 16 + |e.data|, 8, 16);
    SliceOfSlice(file, at, at + 16 + |e.data|, 16, 16 + |e.data|);
    FieldReads(file, at, e.loc);
    FieldReads(file, at + 8, |e.data|);
  }

  // ----- `store_undeploy_data` and `load_undeploy_data`

  /** The three writes of one record. */
  method StoreRecord(file: seq<Byte>, e: Entry, ghost j: seq<Entry>, ghost i: nat) returns (file': seq<Byte>)
    requires i < |j| && e == j[i] && file == Field(|j|) + EncodeEntries(j[..i])
    ensures file' == Field(|j|) + EncodeEntries(j[..i + 1])
  {
    StoredOneMore(j, i);
    file' := file + (Field(e.loc) + Field(|e.data|) + e.data);
  }

  /** Writing zero bytes reports zero items written, which counts as a failure. */
  method Store(d: Device) returns (ok: bool, file: seq<Byte>)
    requires d.Valid() && d.JournalValid()
    ensures ok <==> NoneEmpty(d.Journal())
    ensures ok ==> file == EncodeJournal(d.Journal())
  {
    ghost var j := d.Journal();
    file := Field(d.journalLen);
    var i := 0;
    while i < d.journalLen
      invariant 0 <= i <= d.journalLen && forall k :: 0 <= k < i ==> j[k].data != []
      invariant file == Field(|j|) + EncodeEntries(j[..i])
    {
      var e := d.journal[i];
      if |e.data| == 0 {
        file := file + Field(e.loc) + Field(|e.data|);
        assert j[i].data == [];
        return false, file;
      }
      file := StoreRecord(file, e, j, i);
      i := i + 1;
    }
    assert j[..i] == j;
    return true, file;
  }

  datatype LoadStatus = LoadOk | LoadError | LoadOverrun

  method LoadEntry(file: seq<Byte>, pos: nat) returns (ok: bool, e: Entry, next: nat)
    requires pos <= |file|
    ensures pos <= next <= |file|
    ensures ParseEntry(file[pos..]) == if ok then One(e, file[next..]) else Short
  {
    var s := file[pos..];
    if |s| < 16 {
      return false, Entry(0, []), pos;
    }
    var loc, count := DecodeLE(s[..8]), DecodeLE(s[8..16]);
    if count == 0 || |s| - 16 < count {
      return false, Entry(0, []), pos;
    }
    assert file[pos + 16 + count..] == s[16 + count..];
    return true, Entry(loc, s[16..16 + count]), pos + 16 + count;
  }

  /** The record loop; `n` records are announced and `start` is where the first one begins. */
  method LoadEntries(d: Device, file: seq<Byte>, start: nat, n: nat) returns (status: LoadStatus)
    requires d.journal.Length == UNDEPLOY_DATA_MAX && start <= |file|
    modifies d.journal
    ensures var r := ParseEntries(file[start..], n, UNDEPLOY_DATA_MAX);
            && (status.LoadOk? <==> r.Loaded?) && (status.LoadError? <==> r.Truncated?)
            && (status.LoadOk? ==> n <= UNDEPLOY_DATA_MAX && d.journal[..n] == r.journal)
    ensures status.LoadOk? ==> AllStorable(d.journal[..n])
  {
    var pos, i := start, 0;
    ghost var target := ParseEntries(file[start..], n, UNDEPLOY_DATA_MAX);
    EmptyFront(target);
    while i < n
      invariant 0 <= i <= n && i <= UNDEPLOY_DATA_MAX && 0 <= pos <= |file|
      invariant target == Behind(d.journal[..i], ParseEntries(file[pos..], n - i, UNDEPLOY_DATA_MAX - i))
    {
      if i == UNDEPLOY_DATA_MAX {
        return LoadOverrun;
      }
      var ok, e, next := LoadEntry(file, pos);
      if !ok {
        return LoadError;
      }
      ghost var front := d.journal[..i];
      ParseStep(front, file[pos..], e, file[next..], n - i, UNDEPLOY_DATA_MAX - i);
      d.journal[i] := e;
      assert d.journal[..i + 1] == front + [e];
      pos, i := next, i + 1;
    }
    assert d.journal[..i] + [] == d.journal[..i];
    EntriesSound(file[start..], n, UNDEPLOY_DATA_MAX);
    return LoadOk;
  }

  /** The announced number of records is not checked against the table; running past its end is
      reported here as `LoadOverrun`. */
  method Load(d: Device, file: seq<Byte>) returns (status: LoadStatus)
    requires d.Valid() && d.journal.Length == UNDEPLOY_DATA_MAX
    modifies d`journalLen, d.journal
    ensures status.LoadOk? <==> Parse(file).Loaded?
    ensures status.LoadError? <==> Parse(file).Truncated?
    ensures status.LoadOk? ==> d.JournalValid() && d.Journal() == Parse(file).journal
  {
    if |file| < 8 {
      return LoadError;
    }
    d.journalLen := DecodeLE(file[..8]);
    status := LoadEntries(d, file, 8, d.journalLen);
    assert status.LoadOk? ==> forall k :: 0 <= k < d.journalLen ==> d.journal[k] == d.journal[..d.journalLen][k];
  }

  // ----- Two runs: one deploys and stores, a later one loads and undeploys

  lemma ReplayOfParsed(file: seq<Byte>, j: seq<Entry>)
    requires AllStorable(j) && |j| <= UNDEPLOY_DATA_MAX && file == EncodeJournal(j)
    ensures Parse(file) == Loaded(j)
  {
    LoadsExactly(file, j);
  }

  /** Deploy, store, and undeploy in a later run. The file can be written exactly when no write was
      empty, and then the later run puts the original device back. */
  method DeployThenUndeploy(image: seq<Byte>, size: nat, reqs: seq<Request>)
    returns (deployed: bool, stored: bool, final: seq<Byte>)
    requires 512 <= size <= |image| < 0x8000_0000_0000_0000
    requires forall i :: 0 <= i < |reqs| ==> reqs[i].loc <= NO_BLOCK
    ensures deployed <==> AllServed(reqs, size, |image|) && Writes(reqs) <= 256
    ensures deployed ==> AllLegal(reqs, |image|)
    ensures stored <==> deployed && NoEmptyWrite(reqs)
    ensures final == if deployed && !stored then FlatRun(reqs, image).image else image
  {
    var first := new Device(image, size);
    var outputs;
    deployed, outputs := DeployOrRollBack(first, reqs);
    final := first.disk;
    stored := false;
    if deployed {
      var file;
      stored, file := Store(first);
      if stored {
        ghost var j := first.Journal();
        ReplayOfParsed(file, j);
        var second := new Device(first.disk, size);
        var status := Load(second, file);
        second.Undeploy();
        final := second.disk;
      }
    }
  }
}
