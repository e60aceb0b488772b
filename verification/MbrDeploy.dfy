/** The MBR write sequence of limine-deploy.c and the device it leaves behind. */
module MbrDeploy {
  import opened Bytes
  import opened DeviceImage
  import opened BlockDevice
  import opened Deployment
  import opened LittleEndian

  const SECTOR: nat := 512
  const TIMESTAMP: nat := 218
  const HALVES: nat := 0x1a4
  const PARTITION_TABLE: nat := 440

  function Stage2Size(image: seq<Byte>): (n: nat)
    requires |image| >= SECTOR
  {
    |image| - SECTOR
  }

  function Sectors(n: nat): (sects: nat) {
    (n + 511) / 512
  }

  /** The untruncated sizes of the two halves of stage 2. */
  function FirstHalf(n: nat): (a: nat) {
    Sectors(n) / 2 * 512 + if Sectors(n) % 2 != 0 then 512 else 0
  }

  function SecondHalf(n: nat): (b: nat) {
    Sectors(n) / 2 * 512
  }

  /** `stage2_size_a` and `stage2_size_b` are 16 bits wide. */
  function Stored16(n: nat): (v: nat) {
    n % 0x1_0000
  }

  function Config(n: nat): (s: seq<Byte>)
    ensures |s| == 20
  {
    Half(Stored16(FirstHalf(n))) + Half(Stored16(SecondHalf(n))) +
    Field(SECTOR) + Field(SECTOR + Stored16(FirstHalf(n)))
  }

  /** Byte `k` of a finished deployment of `image` over the device `d`: partition table and timestamp
      stay, the halves are described at 0x1a4, and stage 2 follows the boot sector without a gap. */
  function DeployedByte(image: seq<Byte>, d: seq<Byte>, k: nat): (b: Byte)
    requires SECTOR <= |image| <= |d| && k < |d|
  {
    if TIMESTAMP <= k < TIMESTAMP + 6 || PARTITION_TABLE <= k < PARTITION_TABLE + 70 then d[k]
    else if HALVES <= k < HALVES + 20 then Config(Stage2Size(image))[k - HALVES]
    else if k < |image| then image[k]
    else d[k]
  }

  lemma HalvesFit(n: nat)
    requires n >= 512
    ensures Stored16(FirstHalf(n)) <= FirstHalf(n) <= n
    ensures FirstHalf(n) < 0x1_0000 ==> SecondHalf(n) < 0x1_0000
  {
  }

  /** The boot sector finds all of stage 2 exactly when the first half fits 16 bits. */
  lemma RecordedHalvesCoverStage2(n: nat)
    ensures Stored16(FirstHalf(n)) + Stored16(SecondHalf(n)) >= n <==> FirstHalf(n) < 0x1_0000
  {
  }

  /** A stage 2 of 130049 bytes is the shortest that loses its first half: its size is stored as 0. */
  lemma LosesFirstHalf()
    ensures Stored16(FirstHalf(130049)) == 0 && Stored16(SecondHalf(130049)) == 65024
    ensures forall n :: 0 <= n < 130049 ==> Stored16(FirstHalf(n)) == FirstHalf(n)
  {
  }

  function Deployed(image: seq<Byte>, d: seq<Byte>): (r: seq<Byte>)
    requires SECTOR <= |image| <= |d|
  {
    seq(|d|, k requires 0 <= k < |d| => DeployedByte(image, d, k))
  }

  /** Writing on where the last write ended is one longer write. */
  lemma WriteOn(d: seq<Byte>, loc: nat, p: seq<Byte>, q: seq<Byte>)
    requires loc + |p| + |q| <= |d|
    ensures Splice(Splice(d, loc, p), loc + |p|, q) == Splice(d, loc, p + q)
  {
  }

  /** The whole sequence of writes, as seen from its end. */
  lemma FinalImage(image: seq<Byte>, d: seq<Byte>)
    requires 1024 <= |image| <= |d|
    ensures var booted := Splice(d, 0, image);
            var configured := Splice(booted, HALVES, Config(Stage2Size(image)));
            var stamped := Splice(configured, TIMESTAMP, d[TIMESTAMP..TIMESTAMP + 6]);
            Splice(stamped, PARTITION_TABLE, d[PARTITION_TABLE..PARTITION_TABLE + 70]) == Deployed(image, d)
  {
  }

  // ----- What the boot sector then holds, at the places it looks

  /** The device `r` is `d` with `image` deployed: bytes 218-223 and 440-509 and all past the image are
      as before, the sizes and places of the halves, the longer one first, are numbers at 420, 422, 424
      and 432, and the rest is the image. */
  ghost predicate LaidOut(image: seq<Byte>, d: seq<Byte>, r: seq<Byte>) {
    && 1024 <= |image| <= |d| == |r|
    && (forall k :: 0 <= k < |d| && (218 <= k < 224 || 440 <= k < 510 || |image| <= k) ==> r[k] == d[k])
    && (forall k :: 0 <= k < |image| && !(218 <= k < 224) && !(420 <= k < 510) ==> r[k] == image[k])
    && var sectors := (|image| - 1) / 512;
       var a, b := (sectors + 1) / 2 * 512, sectors / 2 * 512;
       && Le16(r, 420) == a % 0x1_0000 && Le16(r, 422) == b % 0x1_0000
       && Le64(r, 424) == 512 && Le64(r, 432) == 512 + a % 0x1_0000
  }

  lemma ConfigAt(image: seq<Byte>, d: seq<Byte>)
    requires 1024 <= |image| <= |d|
    ensures var r, n := Deployed(image, d), Stage2Size(image);
            && r[420..422] == Half(Stored16(FirstHalf(n))) && r[422..424] == Half(Stored16(SecondHalf(n)))
            && r[424..432] == Field(512) && r[432..440] == Field(512 + Stored16(FirstHalf(n)))
  {
    var r, c := Deployed(image, d), Config(Stage2Size(image));
    assert r[420..440] == c;
    assert r[420..422] == c[..2] && r[422..424] == c[2..4] && r[424..432] == c[4..12] && r[432..440] == c[12..];
  }

  lemma HalvesAre(image: seq<Byte>)
    requires |image| >= 512
    ensures var sectors := (|image| - 1) / 512;
            FirstHalf(Stage2Size(image)) == (sectors + 1) / 2 * 512 && SecondHalf(Stage2Size(image)) == sectors / 2 * 512
  {
  }

  lemma DeployedIsLaidOut(image: seq<Byte>, d: seq<Byte>)
    requires 1024 <= |image| <= |d|
    ensures LaidOut(image, d, Deployed(image, d))
  {
    var r, n := Deployed(image, d), Stage2Size(image);
    ConfigAt(image, d);
    HalvesAre(image);
    HalfReads(r, 420, Stored16(FirstHalf(n)));
    HalfReads(r, 422, Stored16(SecondHalf(n)));
    FieldReads(r, 424, 512);
    FieldReads(r, 432, 512 + Stored16(FirstHalf(n)));
  }

  /** What the boot sector loads, following the sizes and places it finds, starts with all of stage 2,
      if the first half fits 16 bits and both ranges lie on the device. */
  lemma LoadsStage2(image: seq<Byte>, d: seq<Byte>, r: seq<Byte>)
    requires LaidOut(image, d, r) && ((|image| - 1) / 512 + 1) / 2 * 512 < 0x1_0000
    requires Le64(r, 424) + Le16(r, 420) <= |r| && Le64(r, 432) + Le16(r, 422) <= |r|
    ensures image[512..] <= r[Le64(r, 424)..Le64(r, 424) + Le16(r, 420)] + r[Le64(r, 432)..Le64(r, 432) + Le16(r, 422)]
  {
    var sectors := (|image| - 1) / 512;
    var a, b := (sectors + 1) / 2 * 512, sectors / 2 * 512;
    SizesCover(|image|);
    HalvesJoin(image, r, a, b);
  }

  lemma SizesCover(n: nat)
    requires n >= 512
    ensures var sectors := (n - 1) / 512;
            var a, b := (sectors + 1) / 2 * 512, sectors / 2 * 512;
            512 + a + b >= n && b <= a && (a < 0x1_0000 ==> a % 0x1_0000 == a && b % 0x1_0000 == b)
  {
  }

  lemma HalvesJoin(image: seq<Byte>, r: seq<Byte>, a: nat, b: nat)
    requires 512 <= |image| <= 512 + a + b <= |r|
    requires forall k :: 512 <= k < |image| ==> r[k] == image[k]
    ensures image[512..] <= r[512..512 + a] + r[512 + a..512 + a + b]
  {
    assert r[512..512 + a] + r[512 + a..512 + a + b] == r[512..512 + a + b];
    assert image[512..] == r[512..|image|];
  }

  lemma AccessibleWithin(loc: nat, count: nat, n: nat, size: nat, total: nat)
    requires size > 0 && loc + count <= n && Accessible(0, n, size, total)
    ensures Accessible(loc, count, size, total)
  {
    if count > 0 {
      BlocksInOrder(loc + count - 1, n - 1, size);
    }
  }

  /** A write within the first `n` bytes: it cannot fail while they are there, and if it reaches
      their end it shows that they are. */
  method WriteWithin(d: Device, loc: nat, data: seq<Byte>, n: nat, ghost origin: seq<Byte>) returns (ok: bool)
    requires InProgress(d, origin) && loc + |data| <= n <= NO_BLOCK
    modifies d, d.cache, d.journal
    ensures |d.disk| == old(|d.disk|)
    ensures if ok then InProgress(d, origin) else Broken(d, origin)
    ensures Accessible(0, n, d.blockSize, |d.disk|) && old(d.journalLen) < UNDEPLOY_DATA_MAX ==> ok
    ensures ok && data != [] && loc + |data| == n ==> Accessible(0, n, d.blockSize, |d.disk|)
    ensures ok ==> d.journalLen == old(d.journalLen) + 1
    ensures ok ==> (data == [] || loc + |data| <= |d.disk|) && d.Logical() == Splice(old(d.Logical()), loc, data)
  {
    if Accessible(0, n, d.blockSize, |d.disk|) {
      AccessibleWithin(loc, |data|, n, d.blockSize, |d.disk|);
    }
    ok := WriteStep(d, loc, data, origin);
  }

  /** Two writes, the second where the first ended. */
  method WritePair(d: Device, loc: nat, p: seq<Byte>, q: seq<Byte>, n: nat, ghost origin: seq<Byte>) returns (ok: bool)
    requires InProgress(d, origin) && p != [] && loc + |p| + |q| <= n <= NO_BLOCK
    modifies d, d.cache, d.journal
    ensures |d.disk| == old(|d.disk|)
    ensures if ok then InProgress(d, origin) else Broken(d, origin)
    ensures Accessible(0, n, d.blockSize, |d.disk|) && old(d.journalLen) + 2 <= UNDEPLOY_DATA_MAX ==> ok
    ensures ok && loc + |p| + |q| == n ==> Accessible(0, n, d.blockSize, |d.disk|)
    ensures ok ==> d.journalLen == old(d.journalLen) + 2
    ensures ok ==> loc + |p + q| <= |d.disk| && d.Logical() == Splice(old(d.Logical()), loc, p + q)
  {
    ghost var view := d.Logical();
    ok := WriteWithin(d, loc, p, n, origin);
    if ok {
      ok := WriteWithin(d, loc + |p|, q, n, origin);
      if ok {
        WriteOn(view, loc, p, q);
      }
    }
  }

  /** Boot sector and both halves of stage 2; `a` is the 16-bit size of the first half. */
  method WriteBoot(d: Device, image: seq<Byte>, a: nat, ghost origin: seq<Byte>) returns (ok: bool)
    requires InProgress(d, origin) && SECTOR < |image| <= NO_BLOCK && SECTOR + a <= |image|
    modifies d, d.cache, d.journal
    ensures |d.disk| == old(|d.disk|)
    ensures if ok then InProgress(d, origin) else Broken(d, origin)
    ensures ok <==> Accessible(0, |image|, d.blockSize, |d.disk|) && old(d.journalLen) + 3 <= UNDEPLOY_DATA_MAX
    ensures ok ==> d.journalLen == old(d.journalLen) + 3
    ensures ok ==> |image| <= |d.disk| && d.Logical() == Splice(old(d.Logical()), 0, image)
  {
    ghost var view := d.Logical();
    var p, q, r := image[..SECTOR], image[SECTOR..SECTOR + a], image[SECTOR + a..];
    ok := WritePair(d, 0, p, q, |image|, origin);
    if ok {
      ok := WriteWithin(d, SECTOR + a, r, |image|, origin);
      if ok {
        assert p + q + r == image;
        WriteOn(view, 0, p + q, r);
      }
    }
  }

  /** The sizes and places of the two halves, into the boot sector. */
  method WriteConfig(d: Device, image: seq<Byte>, a: nat, b: nat, ghost origin: seq<Byte>) returns (ok: bool)
    requires InProgress(d, origin) && 1024 <= |image| <= NO_BLOCK
    requires a == Stored16(FirstHalf(Stage2Size(image))) && b == Stored16(SecondHalf(Stage2Size(image)))
    requires |image| <= |d.disk| && Accessible(0, |image|, d.blockSize, |d.disk|)
    modifies d, d.cache, d.journal
    ensures |d.disk| == old(|d.disk|)
    ensures if ok then InProgress(d, origin) else Broken(d, origin)
    ensures ok <==> old(d.journalLen) + 4 <= UNDEPLOY_DATA_MAX
    ensures ok ==> d.journalLen == old(d.journalLen) + 4
    ensures ok ==> d.Logical() == Splice(old(d.Logical()), HALVES, Config(Stage2Size(image)))
  {
    ghost var view := d.Logical();
    var p, q, r, s := Half(a), Half(b), Field(SECTOR), Field(SECTOR + a);
    ok := WritePair(d, HALVES, p, q, |image|, origin);
    if ok {
      ok := WritePair(d, HALVES + 4, r, s, |image|, origin);
      if ok {
        WriteOn(view, HALVES, p + q, r + s);
        assert (p + q) + (r + s) == p + q + r + s;
      }
    }
  }

  /** Timestamp and partition table, put back over the new boot sector. */
  method WriteBack(d: Device, timestamp: seq<Byte>, table: seq<Byte>, n: nat, ghost origin: seq<Byte>) returns (ok: bool)
    requires InProgress(d, origin) && |timestamp| == 6 && |table| == 70 && SECTOR <= n <= NO_BLOCK
    requires n <= |d.disk| && Accessible(0, n, d.blockSize, |d.disk|)
    modifies d, d.cache, d.journal
    ensures |d.disk| == old(|d.disk|)
    ensures if ok then InProgress(d, origin) else Broken(d, origin)
    ensures ok <==> old(d.journalLen) + 2 <= UNDEPLOY_DATA_MAX
    ensures ok ==> d.Logical() == Splice(Splice(old(d.Logical()), TIMESTAMP, timestamp), PARTITION_TABLE, table)
  {
    ok := WriteWithin(d, TIMESTAMP, timestamp, n, origin);
    if ok {
      ok := WriteWithin(d, PARTITION_TABLE, table, n, origin);
    }
  }

  /** Timestamp and partition table as they are before the boot sector is overwritten. */
  method SaveFields(d: Device, n: nat, ghost origin: seq<Byte>) returns (ok: bool, timestamp: seq<Byte>, table: seq<Byte>)
    requires InProgress(d, origin) && SECTOR <= n <= NO_BLOCK
    modifies d, d.cache
    ensures |d.disk| == old(|d.disk|) && d.journalLen == old(d.journalLen)
    ensures if ok then InProgress(d, origin) else Broken(d, origin)
    ensures Accessible(0, n, d.blockSize, |d.disk|) ==> ok
    ensures ok ==> SECTOR - 2 <= |d.disk| && d.Logical() == old(d.Logical())
    ensures ok ==> timestamp == old(d.Logical())[TIMESTAMP..TIMESTAMP + 6] && table == old(d.Logical())[PARTITION_TABLE..PARTITION_TABLE + 70]
  {
    table := [];
    if Accessible(0, n, d.blockSize, |d.disk|) {
      AccessibleWithin(TIMESTAMP, 6, n, d.blockSize, |d.disk|);
      AccessibleWithin(PARTITION_TABLE, 70, n, d.blockSize, |d.disk|);
    }
    ok, timestamp := ReadStep(d, TIMESTAMP, 6, origin);
    if ok {
      ok, table := ReadStep(d, PARTITION_TABLE, 70, origin);
    }
  }

  /** The image and the description of its halves. */
  method WriteImage(d: Device, image: seq<Byte>, a: nat, b: nat, ghost origin: seq<Byte>) returns (ok: bool)
    requires InProgress(d, origin) && 1024 <= |image| <= NO_BLOCK
    requires a == Stored16(FirstHalf(Stage2Size(image))) && b == Stored16(SecondHalf(Stage2Size(image)))
    modifies d, d.cache, d.journal
    ensures |d.disk| == old(|d.disk|)
    ensures if ok then InProgress(d, origin) else Broken(d, origin)
    ensures ok <==> Accessible(0, |image|, d.blockSize, |d.disk|) && old(d.journalLen) + 7 <= UNDEPLOY_DATA_MAX
    ensures ok ==> d.journalLen == old(d.journalLen) + 7 && |image| <= |d.disk|
    ensures ok ==> d.Logical() == Splice(Splice(old(d.Logical()), 0, image), HALVES, Config(Stage2Size(image)))
  {
    HalvesFit(Stage2Size(image));
    ok := WriteBoot(d, image, a, origin);
    if ok {
      ok := WriteConfig(d, image, a, b, origin);
    }
  }

  /** All the writes, given the fields saved before. */
  method WriteFields(d: Device, image: seq<Byte>, timestamp: seq<Byte>, table: seq<Byte>, ghost origin: seq<Byte>)
    returns (ok: bool)
    requires InProgress(d, origin) && 1024 <= |image| <= NO_BLOCK && SECTOR - 2 <= |d.disk|
    requires timestamp == d.Logical()[TIMESTAMP..TIMESTAMP + 6] && table == d.Logical()[PARTITION_TABLE..PARTITION_TABLE + 70]
    modifies d, d.cache, d.journal
    ensures |d.disk| == old(|d.disk|)
    ensures if ok then InProgress(d, origin) else Broken(d, origin)
    ensures ok <==> Accessible(0, |image|, d.blockSize, |d.disk|) && old(d.journalLen) + 9 <= UNDEPLOY_DATA_MAX
    ensures ok ==> |image| <= |d.disk| && d.Logical() == Deployed(image, old(d.Logical()))
  {
    ghost var view := d.Logical();
    var n := |image| - 512;
    HalvesFit(n);
    var sects := (n + 511) / 512;
    var a := (sects / 2 * 512 + if sects % 2 != 0 then 512 else 0) % 0x1_0000;
    var b := sects / 2 * 512 % 0x1_0000;
    ok := WriteImage(d, image, a, b, origin);
    if !ok {
      return;
    }
    FinalImage(image, view);
    ok := WriteBack(d, timestamp, table, |image|, origin);
  }

  /** From the reads of timestamp and partition table to their writing back. */
  method WriteMbr(d: Device, image: seq<Byte>, ghost origin: seq<Byte>) returns (ok: bool)
    requires InProgress(d, origin) && 1024 <= |image| <= NO_BLOCK
    modifies d, d.cache, d.journal
    ensures |d.disk| == old(|d.disk|)
    ensures if ok then InProgress(d, origin) else Broken(d, origin)
    ensures ok <==> Accessible(0, |image|, d.blockSize, |d.disk|) && old(d.journalLen) + 9 <= UNDEPLOY_DATA_MAX
    ensures ok ==> |image| <= |d.disk| && d.Logical() == Deployed(image, old(d.Logical()))
  {
    var timestamp, table;
    ok, timestamp, table := SaveFields(d, |image|, origin);
    if ok {
      ok := WriteFields(d, image, timestamp, table, origin);
    }
  }

  /** The MBR branch of `main` with its final flush and its clean-up. It succeeds exactly when the
      image's blocks are on the device and nine more records fit; otherwise nothing has changed. */
  method DeployMbr(d: Device, image: seq<Byte>, ghost origin: seq<Byte>) returns (ok: bool)
    requires InProgress(d, origin) && 1024 <= |image| <= NO_BLOCK
    modifies d, d.cache, d.journal
    ensures |d.disk| == old(|d.disk|) && !d.dirty
    ensures ok <==> Accessible(0, |image|, d.blockSize, |d.disk|) && old(d.journalLen) + 9 <= UNDEPLOY_DATA_MAX
    ensures ok ==> |image| <= |d.disk| && d.disk == Deployed(image, old(d.Logical()))
    ensures ok ==> LaidOut(image, old(d.Logical()), d.disk)
    ensures !ok ==> d.disk == origin
  {
    ok := WriteMbr(d, image, origin);
    if ok {
      DeployedIsLaidOut(image, old(d.Logical()));
      var flushed := d.FlushCache();
      d.CleanView();
    } else {
      RollBack(d, origin);
    }
  }
}
