/** The one-block write-back cache of limine-deploy.c and the undo journal behind it. */
module BlockDevice {
  import opened Bytes
  import opened DeviceImage

  const NO_BLOCK: nat := 0xFFFF_FFFF_FFFF_FFFF
  const UNDEPLOY_DATA_MAX: nat := 256

  // Block arithmetic by repeated addition and subtraction: the lemmas tie it to the products and
  // remainders of the program, and the method proofs stay linear.

  ghost function BlockStart(block: nat, size: nat): (start: nat) {
    if block == 0 then 0 else BlockStart(block - 1, size) + size
  }

  ghost function OffsetIn(p: nat, size: nat): (offset: nat)
    requires size > 0
    ensures offset < size && offset <= p
  {
    if p < size then p else OffsetIn(p - size, size)
  }

  lemma {:induction false} BlockStartIsProduct(block: nat, size: nat)
    ensures BlockStart(block, size) == block * size
  {
    if block > 0 {
      BlockStartIsProduct(block - 1, size);
    }
  }

  lemma {:induction false} OffsetIsRemainder(p: nat, size: nat)
    requires size > 0
    ensures OffsetIn(p, size) == p % size
    ensures p / size <= p && BlockStart(p / size, size) + p % size == p
    ensures size >= 2 && p > 0 ==> p / size < p
  {
    if p >= size {
      OffsetIsRemainder(p - size, size);
      assert p / size == (p - size) / size + 1 && p % size == (p - size) % size by {
        DropOneBlock(p, size);
      }
    }
  }

  lemma DropOneBlock(p: nat, size: nat)
    requires 0 < size <= p
    ensures p / size == (p - size) / size + 1 && p % size == (p - size) % size
  {
    var q, r := (p - size) / size, (p - size) % size;
    assert p == (q + 1) * size + r;
    Quotient(p, size, q + 1, r);
  }

  lemma Quotient(p: nat, size: nat, q: nat, r: nat)
    requires size > 0 && p == q * size + r && r < size
    ensures p / size == q && p % size == r
  {
    var d := p / size - q;
    assert d * size == r - p % size;
    assert d >= 1 ==> d * size >= size;
    assert d <= -1 ==> d * size <= -1 * size;
  }

  /** The block that holds position `p` lies within an `n`-byte device. */
  ghost predicate BlockPresent(p: nat, size: nat, n: nat)
    requires size > 0
  {
    p - OffsetIn(p, size) + size <= n
  }

  /** Every block touched by `count` bytes at `loc` is present. */
  ghost predicate Accessible(loc: nat, count: nat, size: nat, n: nat)
    requires size > 0
  {
    count == 0 || BlockPresent(loc + count - 1, size, n)
  }

  /** Later positions lie in the same or in later blocks. */
  lemma {:induction false} BlocksInOrder(p: nat, q: nat, size: nat)
    requires size > 0 && p <= q
    ensures p - OffsetIn(p, size) <= q - OffsetIn(q, size)
    ensures q < p - OffsetIn(p, size) + size ==> p - OffsetIn(p, size) == q - OffsetIn(q, size)
    decreases p
  {
    if p >= size {
      BlocksInOrder(p - size, q - size, size);
    }
  }

  /** The block of position `p`, the place of `p` in it, and how many of `left` bytes fit there. */
  method Locate(p: nat, left: nat, size: nat) returns (block: nat, offset: nat, chunk: nat)
    requires size >= 2 && left > 0
    ensures BlockStart(block, size) + offset == p && offset == OffsetIn(p, size)
    ensures block <= p && (block == p ==> p == 0)
    ensures 0 < chunk <= left && offset + chunk <= size && (chunk == left || offset + chunk == size)
    ensures BlockStart(block, size) == p + chunk - 1 - OffsetIn(p + chunk - 1, size)
    ensures BlockStart(block, size) <= p + left - 1 - OffsetIn(p + left - 1, size)
  {
    OffsetIsRemainder(p, size);
    block, offset := p / size, p % size;
    chunk := left;
    if chunk > size - offset {
      chunk := size - offset;
    }
    BlocksInOrder(p, p + chunk - 1, size);
    BlocksInOrder(p, p + left - 1, size);
  }

  /** A record whose bytes lie on the device and can be written back. */
  ghost predicate Recordable(e: Entry, size: nat, n: nat)
    requires size > 0
  {
    e.Fits(n) && Accessible(e.loc, |e.data|, size, n)
  }

  ghost predicate AllRecordable(j: seq<Entry>, size: nat, n: nat)
    requires size > 0
  {
    forall i :: 0 <= i < |j| ==> Recordable(j[i], size, n)
  }

  /** A record that lies wholly past the last whole block of the device. */
  ghost predicate Past(e: Entry, size: nat, n: nat)
    requires size > 0
  {
    e.data != [] && !BlockPresent(e.loc, size, n)
  }

  /** No record straddles the end of the last whole block. */
  ghost predicate NoneStraddles(j: seq<Entry>, size: nat, n: nat)
    requires size > 0
  {
    forall i :: 0 <= i < |j| ==> Recordable(j[i], size, n) || Past(j[i], size, n)
  }

  /** What undoing with `e` can put back. */
  ghost function Writable(e: Entry, size: nat, n: nat): (w: Entry)
    requires size > 0
    ensures w.Fits(n) && (Recordable(e, size, n) ==> w == e)
  {
    if Recordable(e, size, n) then e else Entry(e.loc, [])
  }

  ghost function AllWritable(j: seq<Entry>, size: nat, n: nat): (w: seq<Entry>)
    requires size > 0
    ensures |w| == |j| && AllFit(w, n) && (AllRecordable(j, size, n) ==> w == j)
    ensures forall i :: 0 <= i < |j| ==> w[i] == Writable(j[i], size, n)
  {
    seq(|j|, i requires 0 <= i < |j| => Writable(j[i], size, n))
  }

  ghost predicate IsSlice(s: seq<Byte>, d: seq<Byte>, loc: nat) {
    s == [] || (loc + |s| <= |d| && s == d[loc..loc + |s|])
  }

  lemma SliceExtends(s: seq<Byte>, t: seq<Byte>, d: seq<Byte>, loc: nat)
    requires IsSlice(s, d, loc) && IsSlice(t, d, loc + |s|)
    ensures IsSlice(s + t, d, loc)
  {
    if s != [] && t != [] {
      assert d[loc..loc + |s| + |t|] == d[loc..loc + |s|] + d[loc + |s|..loc + |s| + |t|];
    } else {
      assert s + t == if s == [] then t else s;
    }
  }

  lemma FlushStaysInside(d: seq<Byte>, d': seq<Byte>, was: seq<Byte>, view: seq<Byte>, loc: nat, part: seq<Byte>, count: nat)
    requires OnlyInside(d, was, view, loc, count) && |part| <= count
    requires part == [] || loc + |part| <= |view|
    requires d' == d || d' == Splice(view, loc, part)
    ensures OnlyInside(d', was, view, loc, count)
  {
  }

  lemma RereadStaysInside(d: seq<Byte>, d': seq<Byte>, was: seq<Byte>, view: seq<Byte>, loc: nat, count: nat)
    requires (d == was || d == view) && OnlyInside(d', d, view, loc, count) && |was| == |view|
    ensures OnlyInside(d', was, view, loc, count)
  {
  }

  class Device {
    var disk: seq<Byte>
    const blockSize: nat
    const cache: array<Byte>
    var cachedBlock: nat
    var dirty: bool
    const journal: array<Entry>
    var journalLen: nat
    var undeploying: bool

    ghost predicate Valid()
      reads this, cache
    {
      && 512 <= blockSize == cache.Length
      && |disk| < 0x8000_0000_0000_0000
      && (cachedBlock != NO_BLOCK ==> BlockStart(cachedBlock, blockSize) + blockSize <= |disk|)
      && (dirty ==> cachedBlock != NO_BLOCK)
    }

    ghost predicate JournalValid()
      reads this, journal
    {
      && blockSize > 0
      && journal.Length == UNDEPLOY_DATA_MAX && journalLen <= UNDEPLOY_DATA_MAX
      && (forall i :: 0 <= i < journalLen ==> journal[i].loc <= NO_BLOCK)
    }

    /** A clean cached block is a copy of the disk. */
    ghost predicate Coherent()
      requires Valid()
      reads this, cache
    {
      !dirty && cachedBlock != NO_BLOCK ==>
        cache[..] == disk[BlockStart(cachedBlock, blockSize)..BlockStart(cachedBlock, blockSize) + blockSize]
    }

    /** What the program sees: the disk overlaid by the cached block. */
    ghost function Logical(): (d: seq<Byte>)
      requires Valid()
      reads this, cache
      ensures |d| == |disk|
    {
      if cachedBlock == NO_BLOCK then disk
      else Splice(disk, BlockStart(cachedBlock, blockSize), cache[..])
    }

    ghost function Journal(): (j: seq<Entry>)
      requires JournalValid()
      reads this, journal
    {
      journal[..journalLen]
    }

    /** `device_init` after a block size was accepted: the first block is loaded, clean. */
    constructor (image: seq<Byte>, size: nat)
      requires 512 <= size <= |image| < 0x8000_0000_0000_0000
      ensures Valid() && JournalValid() && Coherent() && !undeploying && !dirty
      ensures disk == Logical() == image && blockSize == size && Journal() == []
      ensures fresh(cache) && fresh(journal)
    {
      disk, blockSize := image, size;
      cachedBlock, dirty, undeploying := 0, false, false;
      journalLen := 0;
      journal := new Entry[UNDEPLOY_DATA_MAX](_ => Entry(0, []));
      cache := new Byte[size](i requires 0 <= i < size <= |image| => image[i]);
      new;
      assert cache[..] == disk[0..blockSize];
    }

    method FlushCache() returns (ok: bool)
      requires Valid()
      modifies this`disk, this`dirty
      ensures Valid() && ok && !dirty
      ensures disk == if old(dirty) then old(Logical()) else old(disk)
      ensures Logical() == old(Logical())
      ensures old(Coherent()) || old(dirty) ==> Coherent()
    {
      if !dirty {
        return true;
      }
      BlockStartIsProduct(cachedBlock, blockSize);
      disk := Splice(disk, cachedBlock * blockSize, cache[..]);
      dirty := false;
      return true;
    }

    /** `fread` of one block: a short read leaves the bytes it got in the cache. */
    method LoadCache(start: nat) returns (ok: bool)
      requires blockSize == cache.Length
      modifies cache
      ensures ok <==> start + blockSize <= |disk|
      ensures ok ==> cache[..] == disk[start..start + blockSize]
      ensures !ok ==> forall i :: 0 <= i < blockSize ==> cache[i] == if start + i < |disk| then disk[start + i] else old(cache[i])
    {
      ok := start + blockSize <= |disk|;
      var got := if ok then blockSize else if start < |disk| then |disk| - start else 0;
      forall i | 0 <= i < got {
        cache[i] := disk[start + i];
      }
    }

    /** A failed read leaves its bytes in the cache while `cachedBlock` keeps its old value, so a
        view is promised only from a coherent cache, and after a failure only the disk is. */
    method CacheBlock(block: nat) returns (ok: bool)
      requires Valid() && block < NO_BLOCK
      modifies this`disk, this`dirty, this`cachedBlock, cache
      ensures Valid() && |disk| == |old(disk)|
      ensures ok <==> BlockStart(block, blockSize) + blockSize <= |disk|
      ensures ok ==> cachedBlock == block
      ensures ok && old(Coherent()) ==> Coherent() && Logical() == old(Logical())
      ensures disk == old(disk) || (old(dirty) && disk == old(Logical()))
      ensures !ok ==> !dirty && disk == if old(dirty) then old(Logical()) else old(disk)
      ensures !ok ==> cachedBlock == old(cachedBlock)
      ensures !old(dirty) ==> !dirty && disk == old(disk)
    {
      if cachedBlock == block {
        return true;
      }
      if dirty {
        var flushed := FlushCache();
      }
      if Coherent() {
        CleanView();
      }
      ok := Reload(block);
    }

    method Reload(block: nat) returns (ok: bool)
      requires Valid() && !dirty && block < NO_BLOCK
      modifies this`cachedBlock, cache
      ensures Valid() && (ok <==> BlockStart(block, blockSize) + blockSize <= |disk|)
      ensures if ok then cachedBlock == block && Coherent() && Logical() == disk else cachedBlock == old(cachedBlock)
    {
      BlockStartIsProduct(block, blockSize);
      ok := LoadCache(block * blockSize);
      if ok {
        cachedBlock := block;
        CleanView();
      }
    }

    /** `memcpy` out of the cached block, at position `p` of the device. */
    method CopyOut(offset: nat, chunk: nat, ghost p: nat) returns (bytes: seq<Byte>)
      requires Valid() && offset + chunk <= blockSize
      requires cachedBlock != NO_BLOCK && p == BlockStart(cachedBlock, blockSize) + offset
      ensures |bytes| == chunk && IsSlice(bytes, Logical(), p)
    {
      bytes := cache[offset..offset + chunk];
      assert forall k :: 0 <= k < chunk ==> bytes[k] == Logical()[p + k];
    }

    lemma CleanView()
      requires Valid() && Coherent() && !dirty
      ensures Logical() == disk
    {
    }

    /** Loads the block of position `p`, and says how many of `left` bytes lie in it and where. */
    method SelectBlock(p: nat, left: nat) returns (ok: bool, offset: nat, chunk: nat)
      requires Valid() && p <= NO_BLOCK && left > 0
      modifies this`disk, this`dirty, this`cachedBlock, cache
      ensures Valid() && |disk| == |old(disk)| && 0 < chunk <= left && offset + chunk <= blockSize
      ensures ok ==> cachedBlock != NO_BLOCK && p == BlockStart(cachedBlock, blockSize) + offset
      ensures ok ==> BlockPresent(p + chunk - 1, blockSize, |disk|)
      ensures !ok ==> !BlockPresent(p + left - 1, blockSize, |disk|)
      ensures ok <==> BlockPresent(p, blockSize, |disk|)
      ensures !ok ==> !dirty && cachedBlock == old(cachedBlock) && (old(Coherent()) ==> disk == old(Logical()))
      ensures ok && old(Coherent()) ==> Coherent() && Logical() == old(Logical())
      ensures disk == old(disk) || disk == old(Logical())
      ensures !old(dirty) ==> !dirty && disk == old(disk)
    {
      var block;
      block, offset, chunk := Locate(p, left, blockSize);
      ok := CacheBlock(block);
    }

    /** One round of the read loop: as many of the `left` bytes as lie in the block of `p`. */
    method ReadChunk(p: nat, left: nat) returns (ok: bool, bytes: seq<Byte>)
      requires Valid() && p <= NO_BLOCK && left > 0
      modifies this`disk, this`dirty, this`cachedBlock, cache
      ensures Valid() && |disk| == |old(disk)|
      ensures ok ==> 0 < |bytes| <= left && BlockPresent(p + |bytes| - 1, blockSize, |disk|)
      ensures !ok ==> !BlockPresent(p + left - 1, blockSize, |disk|)
      ensures ok && old(Coherent()) ==> Coherent() && Logical() == old(Logical()) && IsSlice(bytes, Logical(), p)
      ensures if old(dirty) then disk == old(disk) || disk == old(Logical()) else !dirty && disk == old(disk)
    {
      var offset, chunk;
      ok, offset, chunk := SelectBlock(p, left);
      if !ok {
        return false, [];
      }
      bytes := CopyOut(offset, chunk, p);
    }

    /** `_device_read`. What it returns is promised unless an earlier failed read has spoilt the cache. */
    method Read(loc: nat, count: nat) returns (ok: bool, buffer: seq<Byte>)
      requires Valid() && loc <= NO_BLOCK
      modifies this`disk, this`dirty, this`cachedBlock, cache
      ensures Valid() && |disk| == |old(disk)|
      ensures ok <==> Accessible(loc, count, blockSize, |disk|)
      ensures ok ==> |buffer| == count
      ensures ok && old(Coherent()) ==> Coherent() && Logical() == old(Logical()) && IsSlice(buffer, old(Logical()), loc)
      ensures disk == old(disk) || disk == old(Logical())
    {
      buffer := [];
      var progress := 0;
      ghost var view := Logical();
      while progress < count
        invariant Valid() && |disk| == |old(disk)| && 0 <= progress == |buffer| <= count
        invariant Accessible(loc, progress, blockSize, |disk|)
        invariant old(Coherent()) ==> Coherent() && Logical() == view && IsSlice(buffer, view, loc)
        invariant if old(dirty) then disk == old(disk) || disk == view else !dirty && disk == old(disk)
      {
        var readable, bytes := ReadChunk(loc + progress, count - progress);
        if !readable {
          return false, buffer;
        }
        if old(Coherent()) {
          SliceExtends(buffer, bytes, view, loc);
        }
        buffer := buffer + bytes;
        progress := progress + |bytes|;
      }
      return true, buffer;
    }

    /** `memcpy` into the cached block, at position `p` of the device, marking it dirty. */
    method PokeCache(offset: nat, bytes: seq<Byte>, ghost p: nat)
      requires Valid() && cachedBlock != NO_BLOCK && p == BlockStart(cachedBlock, blockSize) + offset
      requires bytes != [] && offset + |bytes| <= blockSize
      modifies cache, this`dirty
      ensures Valid() && dirty && Coherent() && p + |bytes| <= |disk|
      ensures Logical() == Splice(old(Logical()), p, bytes)
    {
      ghost var before := cache[..];
      forall i | 0 <= i < |bytes| {
        cache[offset + i] := bytes[i];
      }
      assert cache[..] == Splice(before, offset, bytes);
      SpliceInside(disk, BlockStart(cachedBlock, blockSize), before, offset, bytes);
      dirty := true;
    }

    /** One round of the write loop: as many of the bytes as fit the block of position `p`. */
    method WriteChunk(p: nat, data: seq<Byte>) returns (ok: bool, chunk: nat)
      requires Valid() && p <= NO_BLOCK && data != []
      modifies this`disk, this`dirty, this`cachedBlock, cache
      ensures Valid() && |disk| == |old(disk)|
      ensures ok ==> 0 < chunk <= |data| && p + chunk <= |disk| && BlockPresent(p + chunk - 1, blockSize, |disk|)
      ensures ok ==> Coherent()
      ensures !ok ==> !BlockPresent(p + |data| - 1, blockSize, |disk|)
      ensures ok <==> BlockPresent(p, blockSize, |disk|)
      ensures !ok ==> !dirty && cachedBlock == old(cachedBlock) && (old(Coherent()) ==> disk == old(Logical()))
      ensures ok && old(Coherent()) ==> Logical() == Splice(old(Logical()), p, data[..chunk])
      ensures disk == old(disk) || disk == old(Logical())
    {
      var offset;
      ok, offset, chunk := SelectBlock(p, |data|);
      if !ok {
        return;
      }
      PokeCache(offset, data[..chunk], p);
    }

    method WriteBytes(loc: nat, data: seq<Byte>) returns (ok: bool)
      requires Valid() && loc <= NO_BLOCK
      modifies this`disk, this`dirty, this`cachedBlock, cache
      ensures Valid() && |disk| == |old(disk)|
      ensures ok <==> Accessible(loc, |data|, blockSize, |disk|)
      ensures ok ==> data == [] || loc + |data| <= |disk|
      ensures ok && old(Coherent()) ==> Coherent() && Logical() == Splice(old(Logical()), loc, data)
      ensures old(Coherent()) ==> OnlyInside(disk, old(disk), old(Logical()), loc, |data|)
      ensures data != [] && !BlockPresent(loc, blockSize, |disk|) ==>
                !ok && !dirty && cachedBlock == old(cachedBlock) && (old(Coherent()) ==> disk == old(Logical()))
    {
      var progress := 0;
      ghost var view := Logical();
      while progress < |data|
        invariant 0 <= progress <= |data| && Writing(loc, data, progress, old(Coherent()), old(disk), view)
        invariant progress > 0 ==> BlockPresent(loc, blockSize, |disk|)
        invariant progress == 0 ==> cachedBlock == old(cachedBlock)
      {
        var written, chunk := WriteNext(loc, data, progress, old(Coherent()), old(disk), view);
        if !written {
          return false;
        }
        progress := progress + chunk;
      }
      assert data[..progress] == data;
      return true;
    }

    /** The first `progress` bytes of a write are in the view; `was` and `view` are disk and view before. */
    ghost predicate Writing(loc: nat, data: seq<Byte>, progress: nat, coherent: bool, was: seq<Byte>, view: seq<Byte>)
      requires progress <= |data|
      reads this, cache
    {
      && Valid() && |disk| == |was| == |view| && (progress == 0 || loc + progress <= |disk|)
      && Accessible(loc, progress, blockSize, |disk|)
      && (coherent ==> Coherent() && Logical() == Splice(view, loc, data[..progress]))
      && (coherent ==> OnlyInside(disk, was, view, loc, |data|))
    }

    method WriteNext(loc: nat, data: seq<Byte>, progress: nat, ghost coherent: bool, ghost was: seq<Byte>, ghost view: seq<Byte>)
      returns (ok: bool, chunk: nat)
      requires progress < |data| && loc <= NO_BLOCK && Writing(loc, data, progress, coherent, was, view)
      modifies this`disk, this`dirty, this`cachedBlock, cache
      ensures Valid() && |disk| == |was|
      ensures ok ==> 0 < chunk <= |data| - progress && Writing(loc, data, progress + chunk, coherent, was, view)
      ensures ok ==> progress > 0 || BlockPresent(loc, blockSize, |disk|)
      ensures !ok ==> !Accessible(loc, |data|, blockSize, |disk|) && !dirty && cachedBlock == old(cachedBlock)
      ensures coherent ==> OnlyInside(disk, was, view, loc, |data|)
      ensures !ok && coherent && progress == 0 ==> disk == view
    {
      ghost var before := disk;
      ok, chunk := WriteChunk(loc + progress, data[progress..]);
      if coherent {
        FlushStaysInside(before, disk, was, view, loc, data[..progress], |data|);
      }
      if ok {
        SpliceExtends(view, loc, data, progress, chunk);
      }
    }

    /** Reads what a write is about to replace into the next free record. */
    method SaveOld(loc: nat, count: nat) returns (ok: bool, ghost saved: Entry)
      requires Valid() && JournalValid() && loc <= NO_BLOCK && journalLen < UNDEPLOY_DATA_MAX
      modifies this`disk, this`dirty, this`cachedBlock, cache, journal
      ensures Valid() && JournalValid() && |disk| == |old(disk)| && Journal() == old(Journal())
      ensures ok <==> Accessible(loc, count, blockSize, |disk|)
      ensures ok ==> journal[journalLen] == saved && saved.loc == loc && |saved.data| == count
      ensures ok && old(Coherent()) ==> Coherent() && Logical() == old(Logical()) && IsSlice(saved.data, old(Logical()), loc)
      ensures disk == old(disk) || disk == old(Logical())
    {
      var bytes;
      ok, bytes := Read(loc, count);
      saved := Entry(loc, bytes);
      if ok {
        journal[journalLen] := Entry(loc, bytes);
      }
    }

    /** `_device_write`: outside undeploy mode the replaced bytes are read first and recorded last,
        after every byte has been written. */
    method Write(loc: nat, data: seq<Byte>) returns (ok: bool, ghost saved: Entry)
      requires Valid() && JournalValid() && loc <= NO_BLOCK
      modifies this`disk, this`dirty, this`cachedBlock, this`journalLen, cache, journal
      ensures Valid() && JournalValid() && |disk| == |old(disk)|
      ensures ok <==> Accessible(loc, |data|, blockSize, |disk|) && (undeploying || old(journalLen) < UNDEPLOY_DATA_MAX)
      ensures ok ==> data == [] || loc + |data| <= |disk|
      ensures ok && old(Coherent()) ==> Coherent() && Logical() == Splice(old(Logical()), loc, data)
      ensures ok && !undeploying ==> Journal() == old(Journal()) + [saved]
      ensures ok && !undeploying ==> saved.loc == loc && |saved.data| == |data|
      ensures ok && !undeploying && old(Coherent()) ==> IsSlice(saved.data, old(Logical()), loc)
      ensures !ok || undeploying ==> Journal() == old(Journal())
      ensures old(Coherent()) ==> OnlyInside(disk, old(disk), old(Logical()), loc, |data|)
      ensures !ok && !undeploying ==> disk == old(disk) || disk == old(Logical())
      ensures undeploying && data != [] && !BlockPresent(loc, blockSize, |disk|) ==>
                !ok && !dirty && cachedBlock == old(cachedBlock) && (old(Coherent()) ==> disk == old(Logical()))
    {
      saved := Entry(loc, []);
      if undeploying {
        ok := WriteBytes(loc, data);
      } else if journalLen >= UNDEPLOY_DATA_MAX {
        ok := false;
      } else {
        ok, saved := WriteRecorded(loc, data);
      }
    }

    method WriteRecorded(loc: nat, data: seq<Byte>) returns (ok: bool, ghost saved: Entry)
      requires Valid() && JournalValid() && loc <= NO_BLOCK && journalLen < UNDEPLOY_DATA_MAX
      modifies this`disk, this`dirty, this`cachedBlock, this`journalLen, cache, journal
      ensures Valid() && JournalValid() && |disk| == |old(disk)|
      ensures ok <==> Accessible(loc, |data|, blockSize, |disk|)
      ensures ok ==> (data == [] || loc + |data| <= |disk|) && Journal() == old(Journal()) + [saved]
      ensures ok ==> saved.loc == loc && |saved.data| == |data|
      ensures ok && old(Coherent()) ==> Coherent() && Logical() == Splice(old(Logical()), loc, data)
      ensures ok && old(Coherent()) ==> IsSlice(saved.data, old(Logical()), loc)
      ensures old(Coherent()) ==> OnlyInside(disk, old(disk), old(Logical()), loc, |data|)
      ensures !ok ==> Journal() == old(Journal()) && (disk == old(disk) || disk == old(Logical()))
    {
      ok, saved := SaveOld(loc, |data|);
      if ok {
        ghost var before := disk;
        ok := WriteSaved(loc, data, saved);
        if old(Coherent()) {
          RereadStaysInside(before, disk, old(disk), old(Logical()), loc, |data|);
        }
      }
    }

    /** The write itself, after which the record saved for it counts. */
    method WriteSaved(loc: nat, data: seq<Byte>, ghost saved: Entry) returns (ok: bool)
      requires Valid() && JournalValid() && loc <= NO_BLOCK && journalLen < UNDEPLOY_DATA_MAX
      requires journal[journalLen] == saved && saved.loc == loc
      modifies this`disk, this`dirty, this`cachedBlock, this`journalLen, cache
      ensures Valid() && JournalValid() && |disk| == |old(disk)|
      ensures ok <==> Accessible(loc, |data|, blockSize, |disk|)
      ensures ok ==> data == [] || loc + |data| <= |disk|
      ensures Journal() == if ok then old(Journal()) + [saved] else old(Journal())
      ensures ok && old(Coherent()) ==> Coherent() && Logical() == Splice(old(Logical()), loc, data)
      ensures old(Coherent()) ==> OnlyInside(disk, old(disk), old(Logical()), loc, |data|)
    {
      ok := WriteBytes(loc, data);
      if ok {
        journalLen := journalLen + 1;
      }
    }

    /** `reverse_undeploy_data`: fills the second table back to front, then copies it over. */
    method ReverseJournal()
      requires JournalValid()
      modifies journal
      ensures JournalValid() && Journal() == Reverse(old(Journal()))
    {
      var rev := new Entry[UNDEPLOY_DATA_MAX](_ => Entry(0, []));
      var i := 0;
      while i < journalLen
        invariant 0 <= i <= journalLen && journal[..] == old(journal[..])
        invariant forall k :: journalLen - i <= k < journalLen ==> rev[k] == old(journal[journalLen - 1 - k])
      {
        rev[journalLen - 1 - i] := journal[i];
        i := i + 1;
      }
      forall k | 0 <= k < journalLen {
        journal[k] := rev[k];
      }
      assert Journal() == Reverse(old(Journal()));
    }

    /** `_device_write` of one record with the one retry of `undeploy` on a fresh cache. A record past the
        end of the device changes nothing, and thanks to the fresh cache spoils nothing. */
    method Restore(e: Entry) returns (ok: bool)
      requires Valid() && JournalValid() && undeploying && e.loc <= NO_BLOCK
      modifies this`disk, this`dirty, this`cachedBlock, this`journalLen, cache, journal
      ensures Valid() && JournalValid() && Journal() == old(Journal()) && |disk| == |old(disk)|
      ensures old(Coherent()) && Recordable(e, blockSize, |disk|) ==>
                ok && Coherent() && Logical() == Splice(old(Logical()), e.loc, e.data)
      ensures old(Coherent()) && Past(e, blockSize, |disk|) ==> !ok && Coherent() && Logical() == old(Logical())
    {
      ghost var saved, view := Entry(0, []), Logical();
      ok, saved := Write(e.loc, e.data);
      var retry := false;
      while !ok && !retry
        invariant Valid() && JournalValid() && Journal() == old(Journal()) && |disk| == |old(disk)|
        invariant old(Coherent()) && Recordable(e, blockSize, |disk|) ==>
                    ok && Coherent() && Logical() == Splice(view, e.loc, e.data)
        invariant old(Coherent()) && Past(e, blockSize, |disk|) ==> !ok && !dirty && disk == view
        invariant old(Coherent()) && Past(e, blockSize, |disk|) && retry ==> cachedBlock == NO_BLOCK
        decreases !retry
      {
        var flushed := FlushCache();
        dirty, cachedBlock := false, NO_BLOCK;
        retry := true;
        ok, saved := Write(e.loc, e.data);
      }
    }

    /** The first `i` records of `j` are back as far as they can be, unless some record straddles the end
        of the device. */
    ghost predicate Restored(j: seq<Entry>, i: nat, image: seq<Byte>)
      requires i <= |j|
      reads this, cache, journal
    {
      && Valid() && JournalValid() && Journal() == j && |disk| == |image|
      && (NoneStraddles(j, blockSize, |image|) ==>
            Coherent() && Logical() == Replay(AllWritable(j, blockSize, |image|)[..i], image))
    }

    method RestoreNext(i: nat, ghost j: seq<Entry>, ghost image: seq<Byte>)
      requires i < |j| && Restored(j, i, image) && undeploying
      modifies this`disk, this`dirty, this`cachedBlock, this`journalLen, cache, journal
      ensures Restored(j, i + 1, image)
    {
      assert journal[i] == j[i];
      ghost var w := AllWritable(j, blockSize, |image|);
      ReplayOneMore(w, i, image);
      assert NoneStraddles(j, blockSize, |image|) ==> Recordable(j[i], blockSize, |image|) || Past(j[i], blockSize, |image|);
      var ok := Restore(journal[i]);
    }

    /** The record loop of `undeploy`. */
    method RestoreAll()
      requires Valid() && JournalValid() && undeploying && Coherent()
      modifies this`disk, this`dirty, this`cachedBlock, this`journalLen, cache, journal
      ensures Valid() && JournalValid() && Journal() == old(Journal()) && |disk| == |old(disk)|
      ensures NoneStraddles(Journal(), blockSize, |disk|) ==>
                Coherent() && Logical() == Replay(AllWritable(Journal(), blockSize, |disk|), old(Logical()))
    {
      ghost var j, image := Journal(), Logical();
      var i := 0;
      while i < journalLen
        invariant 0 <= i <= |j| == journalLen && Restored(j, i, image)
      {
        RestoreNext(i, j, image);
        i := i + 1;
      }
      assert AllWritable(j, blockSize, |image|)[..i] == AllWritable(j, blockSize, |image|);
    }

    /** `undeploy`: drops the cache, writes every record back in stored order, and flushes. Records past
        the end of the device, as a foreign file may hold, do not keep the others from being restored. */
    method Undeploy()
      requires Valid() && JournalValid()
      modifies this, cache, journal
      ensures Valid() && JournalValid() && Journal() == old(Journal()) && undeploying
      ensures |disk| == |old(disk)|
      ensures NoneStraddles(Journal(), blockSize, |disk|) ==>
                disk == Replay(AllWritable(Journal(), blockSize, |disk|), old(disk)) && Coherent() && !dirty
      ensures AllRecordable(Journal(), blockSize, |disk|) ==>
                AllFit(Journal(), |disk|) && disk == Replay(Journal(), old(disk)) && Coherent() && !dirty
    {
      undeploying := true;
      dirty, cachedBlock := false, NO_BLOCK;
      RestoreAll();
      var flushed := FlushCache();
      if NoneStraddles(Journal(), blockSize, |disk|) {
        CleanView();
      }
    }
  }
}
