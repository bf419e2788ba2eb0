/** The cache of the object store (kernel/device/obj_cache.c) over a device that reads and writes
    whole objects.

    `cache` holds the buffers of the buffer cache by name and block; a buffer that is not in it has
    arbitrary data. Clean buffers may drop out of it between two calls. `disk` holds the objects that
    lookups on the device find. An object's inode is locked during a call.
 */
module ObjCache {

  import opened Blocks

  datatype Buf = Buf(valid: bool, dirty: bool, data: Block)

  type Cache = map<(string, nat), Buf>
  type Disk = map<string, seq<Byte>>

  /** Names are stored on the device in twenty bytes; buffers are found by the first nineteen. */
  function Key(name: string): (key: string)
    ensures key <= name && |key| <= 19 && (|name| <= 19 || |key| == 19)
    ensures |name| <= 19 ==> key == name
  {
    if |name| < 20 then name else name[..19]
  }

  /** No other object on the device has the buffers of `name`. */
  ghost predicate NoTwin(disk: Disk, name: string) {
    forall n :: n in disk && Key(n) == Key(name) ==> n == name
  }

  /** The device has put an object with a name of twenty characters where lookups do not find it. */
  predicate Hidden(name: string, lost: bool) { |name| == 20 && lost }

  /** Byte `k` of a row of buffers. */
  function Flat(bufs: seq<Buf>, k: nat): Byte
    requires k < 1024 * |bufs|
  {
    bufs[k / 1024].data[k % 1024]
  }

  /** Number of buffers for an object of size `n`. */
  function Bufs(n: nat): nat { (n + 1023) / 1024 }

  // ----- coherence

  /** Block `b` of the object, as far as the object reaches. */
  predicate Agrees(d: Block, obj: seq<Byte>, b: nat) {
    1024 * b < |obj| && forall i :: 0 <= i < 1024 && 1024 * b + i < |obj| ==> d[i] == obj[1024 * b + i]
  }

  /** There is an object with the buffers `key`. */
  ghost predicate Backed(disk: Disk, key: string) { exists n :: n in disk && Key(n) == key }

  /** `d` is block `b` of every object with the buffers `key`, and there is one. */
  ghost predicate LineOk(disk: Disk, key: string, b: nat, d: Block) {
    Backed(disk, key) && forall n :: n in disk && Key(n) == key ==> Agrees(d, disk[n], b)
  }

  /** What is valid in the cache is on the device. */
  ghost predicate Coherent(cache: Cache, disk: Disk) {
    forall k, b :: (k, b) in cache && cache[(k, b)].valid ==> LineOk(disk, k, b, cache[(k, b)].data)
  }

  function BufAt(cache: Cache, name: string, b: nat, junk: Block): Buf {
    if (Key(name), b) in cache then cache[(Key(name), b)] else Buf(false, false, junk)
  }

  /** The buffers of an object from block `start` on. */
  ghost predicate FromCache(cache: Cache, name: string, start: nat, bufs: seq<Buf>, junk: Block) {
    forall i :: 0 <= i < |bufs| ==> bufs[i] == BufAt(cache, name, start + i, junk)
  }

  predicate Has(cache: Cache, key: string, b: nat, buf: Buf) { (key, b) in cache && cache[(key, b)] == buf }

  /** After release the cache has the buffers, and elsewhere what it had. */
  ghost predicate Released(cache: Cache, cache': Cache, name: string, start: nat, bufs: seq<Buf>) {
    && (forall i :: 0 <= i < |bufs| ==> Has(cache', Key(name), start + i, bufs[i]))
    && (forall k, b :: k != Key(name) || b < start || b >= start + |bufs| ==>
          && ((k, b) in cache' <==> (k, b) in cache)
          && ((k, b) in cache ==> cache'[(k, b)] == cache[(k, b)]))
  }

  /** Every valid buffer of a row that starts at the first block is on the device. */
  ghost predicate RowOk(disk: Disk, key: string, bufs: seq<Buf>) {
    forall i :: 0 <= i < |bufs| && bufs[i].valid ==> LineOk(disk, key, i, bufs[i].data)
  }

  /** So is everything valid from block `from` on. */
  ghost predicate RestOk(cache: Cache, disk: Disk, key: string, from: nat) {
    forall b: nat :: from <= b && (key, b) in cache && cache[(key, b)].valid ==>
      LineOk(disk, key, b, cache[(key, b)].data)
  }

  /** Only the objects with the buffers `key` may differ. */
  ghost predicate SameElsewhere(disk: Disk, disk': Disk, key: string) {
    forall n :: Key(n) != key ==> (n in disk' <==> n in disk) && (n in disk ==> disk'[n] == disk[n])
  }

  lemma LineElsewhere(disk: Disk, disk': Disk, key: string, k: string, b: nat, d: Block)
    requires SameElsewhere(disk, disk', key) && k != key && LineOk(disk, k, b, d)
    ensures LineOk(disk', k, b, d)
  {
    var n :| n in disk && Key(n) == k;
    assert n in disk' && Key(n) == k;
  }

  /** A coherent cache stays coherent exactly when the buffers given back, and those of the same key
      that were not taken, are on the device. */
  lemma ReleasedExactly(cache: Cache, cache': Cache, disk: Disk, disk': Disk, name: string, bufs: seq<Buf>)
    requires Coherent(cache, disk) && Released(cache, cache', name, 0, bufs) && SameElsewhere(disk, disk', Key(name))
    ensures Coherent(cache', disk') <==> RowOk(disk', Key(name), bufs) && RestOk(cache, disk', Key(name), |bufs|)
  {
    var key := Key(name);
    if Coherent(cache', disk') {
      forall i | 0 <= i < |bufs| && bufs[i].valid ensures LineOk(disk', key, i, bufs[i].data) {
        assert Has(cache', key, 0 + i, bufs[i]);
      }
    }
    if RowOk(disk', key, bufs) && RestOk(cache, disk', key, |bufs|) {
      forall k, b | (k, b) in cache' && cache'[(k, b)].valid ensures LineOk(disk', k, b, cache'[(k, b)].data) {
        if k != key {
          assert (k, b) in cache;
          LineElsewhere(disk, disk', key, k, b, cache[(k, b)].data);
        } else if b < |bufs| {
          assert Has(cache', key, 0 + b, bufs[b]);
        }
      }
    }
  }

  // ----- rows of buffers

  /** The first bytes of a row of buffers are the object. */
  ghost predicate HoldsObject(bufs: seq<Buf>, obj: seq<Byte>) {
    Filled(bufs, obj, |obj|)
  }

  lemma HoldsAgrees(bufs: seq<Buf>, obj: seq<Byte>, b: nat)
    requires HoldsObject(bufs, obj) && b < |bufs| && 1024 * b < |obj|
    ensures Agrees(bufs[b].data, obj, b)
  {
    forall i | 0 <= i < 1024 && 1024 * b + i < |obj| ensures bufs[b].data[i] == obj[1024 * b + i] {
      assert Flat(bufs, 1024 * b + i) == obj[1024 * b + i];
    }
  }

  /** Block by block or byte by byte. */
  lemma RowAgrees(bufs: seq<Buf>, obj: seq<Byte>)
    requires bufs != []
    ensures (forall b :: 0 <= b < |bufs| ==> Agrees(bufs[b].data, obj, b)) <==>
            |bufs| <= Bufs(|obj|) && forall k :: 0 <= k < |obj| && k < 1024 * |bufs| ==> Flat(bufs, k) == obj[k]
  {
    if forall b :: 0 <= b < |bufs| ==> Agrees(bufs[b].data, obj, b) {
      assert Agrees(bufs[|bufs| - 1].data, obj, |bufs| - 1);
      forall k | 0 <= k < |obj| && k < 1024 * |bufs| ensures Flat(bufs, k) == obj[k] {
        AgreesFlat(bufs, obj, k);
      }
    }
    if |bufs| <= Bufs(|obj|) && forall k :: 0 <= k < |obj| && k < 1024 * |bufs| ==> Flat(bufs, k) == obj[k] {
      forall b | 0 <= b < |bufs| ensures Agrees(bufs[b].data, obj, b) { FlatAgrees(bufs, obj, b); }
    }
  }

  lemma FlatAgrees(bufs: seq<Buf>, obj: seq<Byte>, b: nat)
    requires b < |bufs| <= Bufs(|obj|) && forall k :: 0 <= k < |obj| && k < 1024 * |bufs| ==> Flat(bufs, k) == obj[k]
    ensures Agrees(bufs[b].data, obj, b)
  {
    forall i | 0 <= i < 1024 && 1024 * b + i < |obj| ensures bufs[b].data[i] == obj[1024 * b + i] {
      assert Flat(bufs, 1024 * b + i) == obj[1024 * b + i];
    }
  }

  lemma AgreesFlat(bufs: seq<Buf>, obj: seq<Byte>, k: nat)
    requires k < |obj| && k < 1024 * |bufs| && Agrees(bufs[k / 1024].data, obj, k / 1024)
    ensures Flat(bufs, k) == obj[k]
  {
    assert k == 1024 * (k / 1024) + k % 1024;
  }

  // ----- copying into and out of buffers

  /** `m` bytes of `data` copied to byte `offset` on, and no other byte changed. */
  ghost predicate Copied(bufs: seq<Buf>, bufs': seq<Buf>, data: seq<Byte>, offset: nat, m: nat) {
    && |bufs'| == |bufs| && m <= |data|
    && forall k :: 0 <= k < 1024 * |bufs| ==>
         Flat(bufs', k) == if offset <= k < offset + m then data[k - offset] else Flat(bufs, k)
  }

  function PutPiece(bufs: seq<Buf>, b: nat, o: nat, piece: seq<Byte>, dirty: bool): seq<Buf>
    requires b < |bufs| && o + |piece| <= 1024
  {
    bufs[b := Buf(true, dirty, Patch(bufs[b].data, o, piece))]
  }

  lemma CopyPiece(bufs: seq<Buf>, bufs1: seq<Buf>, data: seq<Byte>, offset: nat, m: nat, n: nat)
    requires Copied(bufs, bufs1, data, offset, m) && m + n <= |data|
    requires (offset + m) % 1024 + n <= 1024 && offset + m < 1024 * |bufs|
    ensures var bufs2 := PutPiece(bufs1, (offset + m) / 1024, (offset + m) % 1024, data[m..m + n], true);
      Copied(bufs, bufs2, data, offset, m + n)
  {
    var at := offset + m;
    var bufs2 := PutPiece(bufs1, at / 1024, at % 1024, data[m..m + n], true);
    forall k | 0 <= k < 1024 * |bufs|
      ensures Flat(bufs2, k) == if offset <= k < offset + (m + n) then data[k - offset] else Flat(bufs, k)
    {
      PieceByte(at, n, k);
      assert Flat(bufs1, k) == if offset <= k < offset + m then data[k - offset] else Flat(bufs, k);
      if k / 1024 == at / 1024 { PatchByte(bufs1[at / 1024].data, at % 1024, data[m..m + n], k % 1024); }
    }
  }

  lemma PatchByte(d: Block, o: nat, piece: seq<Byte>, i: nat)
    requires o + |piece| <= 1024 && i < 1024
    ensures Patch(d, o, piece)[i] == if o <= i < o + |piece| then piece[i - o] else d[i]
  {
  }

  lemma NextBytes(bufs: seq<Buf>, obj: seq<Byte>, b: nat, size: nat)
    requires b < |bufs| && size <= 1024 && Filled(bufs, obj, |obj|) && (|obj| == 1024 * b || size == 0)
    ensures var obj' := obj + bufs[b].data[..size]; Filled(bufs, obj', |obj'|)
  {
    var obj' := obj + bufs[b].data[..size];
    forall k | 0 <= k < |obj'| ensures Flat(bufs, k) == obj'[k] {
      if k < |obj| { assert Flat(bufs, k) == obj[k]; } else { SameBlock(|obj|, k - |obj|); }
    }
  }

  /** The first `n` bytes of the row are those of the object. */
  ghost predicate Filled(bufs: seq<Buf>, obj: seq<Byte>, n: nat) {
    n <= |obj| && n <= 1024 * |bufs| && forall k :: 0 <= k < n ==> Flat(bufs, k) == obj[k]
  }

  lemma FillBlock(bufs: seq<Buf>, obj: seq<Byte>, b: nat, copied: nat, size: nat, dirty: bool)
    requires b < |bufs| && Filled(bufs, obj, copied) && copied == (if 1024 * b <= |obj| then 1024 * b else |obj|)
    requires size == if |obj| - copied < 1024 then |obj| - copied else 1024
    ensures Filled(PutPiece(bufs, b, 0, obj[copied..copied + size], dirty), obj, copied + size)
  {
    var bufs' := PutPiece(bufs, b, 0, obj[copied..copied + size], dirty);
    forall k | 0 <= k < copied + size ensures Flat(bufs', k) == obj[k] {
      if k < copied {
        assert Flat(bufs, k) == obj[k];
        assert k / 1024 < b;
      } else {
        SameBlock(copied, k - copied);
        PatchByte(bufs[b].data, 0, obj[copied..copied + size], k % 1024);
      }
    }
  }

  /** Block `b` is one of those that writing `data` at `offset` touches. */
  predicate Touched(data: seq<Byte>, offset: nat, b: nat) {
    offset / 1024 <= b <= (offset + |data| - 1) / 1024
  }

  /** obj_cache_copy_to_bufs. */
  method CopyTo(bufs: seq<Buf>, data: seq<Byte>, offset: nat) returns (r: seq<Buf>)
    requires |data| > 0 && offset + |data| <= 1024 * |bufs|
    ensures Copied(bufs, r, data, offset, |data|)
    ensures forall b :: 0 <= b < |bufs| ==>
      r[b].valid == (bufs[b].valid || Touched(data, offset, b)) &&
        r[b].dirty == (bufs[b].dirty || Touched(data, offset, b))
  {
    var first, last := offset / 1024, (offset + |data| - 1) / 1024;
    var copied: nat, curr := 0, first;
    r := bufs;
    while curr <= last
      invariant first <= curr <= last + 1 && Copied(bufs, r, data, offset, copied)
      invariant copied == if curr == first then 0 else if curr <= last then 1024 * curr - offset else |data|
      invariant forall b :: 0 <= b < |bufs| ==>
        r[b].valid == (bufs[b].valid || first <= b < curr) && r[b].dirty == (bufs[b].dirty || first <= b < curr)
    {
      var o, size := BlockPart(|data|, offset, first, last, curr, copied);
      CopyPiece(bufs, r, data, offset, copied, size);
      r := PutPiece(r, curr, o, data[copied..copied + size], true);
      copied, curr := copied + size, curr + 1;
    }
  }

  /** The part of block `curr` that belongs to the range: where it starts and how long it is. */
  method BlockPart(n: nat, offset: nat, first: nat, last: nat, curr: nat, copied: nat) returns (o: nat, size: nat)
    requires n > 0 && first == offset / 1024 && last == (offset + n - 1) / 1024 && first <= curr <= last
    requires copied == if curr == first then 0 else 1024 * curr - offset
    ensures curr == (offset + copied) / 1024 && o == (offset + copied) % 1024 && o + size <= 1024
    ensures copied + size == if curr == last then n else 1024 * (curr + 1) - offset
  {
    o, size := 0, 1024;
    if curr == first {
      o := offset - offset / 1024 * 1024;
      size := 1024 - o;
    }
    if curr == last {
      size := if n - copied < 1024 then n - copied else 1024;
    }
  }

  /** obj_cache_copy_from_bufs. */
  method CopyFrom(bufs: seq<Buf>, n: nat, offset: nat) returns (dst: seq<Byte>)
    requires n > 0 && offset + n <= 1024 * |bufs|
    ensures |dst| == n && forall k :: 0 <= k < n ==> dst[k] == Flat(bufs, offset + k)
  {
    var first, last := offset / 1024, (offset + n - 1) / 1024;
    var curr: nat := first;
    dst := [];
    while curr <= last
      invariant first <= curr <= last + 1
      invariant |dst| == if curr == first then 0 else if curr <= last then 1024 * curr - offset else n
      invariant forall k :: 0 <= k < |dst| ==> dst[k] == Flat(bufs, offset + k)
    {
      var o, size := BlockPart(n, offset, first, last, curr, |dst|);
      var piece := bufs[curr].data[o..o + size];
      forall k | 0 <= k < size ensures piece[k] == Flat(bufs, offset + |dst| + k) { SameBlock(offset + |dst|, k); }
      dst, curr := dst + piece, curr + 1;
    }
  }

  // ----- what a failure leaves behind

  /** The cache has `data` as the first blocks of `name`. */
  ghost predicate Left(cache: Cache, name: string, data: seq<Byte>, dirty: bool) {
    forall b: nat :: b < Bufs(|data|) ==> LeftAt(cache, name, data, dirty, b)
  }

  predicate LeftAt(cache: Cache, name: string, data: seq<Byte>, dirty: bool, b: nat) {
    && (Key(name), b) in cache
    && var line := cache[(Key(name), b)];
       line.valid && line.dirty == dirty && Agrees(line.data, data, b)
  }

  lemma LeftBehind(cache: Cache, cache': Cache, name: string, data: seq<Byte>, bufs: seq<Buf>, dirty: bool)
    requires Released(cache, cache', name, 0, bufs) && HoldsObject(bufs, data) && |bufs| == Bufs(|data|)
    requires forall b :: 0 <= b < |bufs| ==> bufs[b].valid && bufs[b].dirty == dirty
    ensures Left(cache', name, data, dirty)
  {
    forall b: nat | b < |bufs| ensures LeftAt(cache', name, data, dirty, b) {
      assert Has(cache', Key(name), 0 + b, bufs[b]);
      HoldsAgrees(bufs, data, b);
    }
  }

  /** Byte `k` of the blocks that an add of `data` fills: beyond the data it is what the buffer had. */
  function Shown(cache: Cache, name: string, data: seq<Byte>, junk: Block, k: nat): Byte {
    if k < |data| then data[k] else BufAt(cache, name, k / 1024, junk).data[k % 1024]
  }

  /** These blocks are blocks of `obj`. */
  predicate StartsAs(cache: Cache, name: string, data: seq<Byte>, junk: Block, obj: seq<Byte>) {
    && Bufs(|data|) <= Bufs(|obj|)
    && forall k :: 0 <= k < |obj| && k < 1024 * Bufs(|data|) ==> Shown(cache, name, data, junk, k) == obj[k]
  }

  /** A failed add leaves nothing wrong: there was no data, or the objects that have the same buffers
      begin with it. */
  ghost predicate AddHarmless(cache: Cache, disk: Disk, name: string, data: seq<Byte>, junk: Block) {
    data == [] || (Backed(disk, Key(name)) &&
    forall n :: n in disk && Key(n) == Key(name) ==> StartsAs(cache, name, data, junk, disk[n]))
  }

  lemma RowStarts(cache: Cache, name: string, data: seq<Byte>, junk: Block, bufs0: seq<Buf>, bufs: seq<Buf>,
                  obj: seq<Byte>)
    requires data != [] && FromCache(cache, name, 0, bufs0, junk) && |bufs0| == Bufs(|data|)
    requires Copied(bufs0, bufs, data, 0, |data|)
    ensures (forall b :: 0 <= b < |bufs| ==> Agrees(bufs[b].data, obj, b)) <==> StartsAs(cache, name, data, junk, obj)
  {
    RowAgrees(bufs, obj);
    forall k | 0 <= k < 1024 * |bufs| ensures Flat(bufs, k) == Shown(cache, name, data, junk, k) {
      assert bufs0[k / 1024] == BufAt(cache, name, 0 + k / 1024, junk);
    }
  }

  /** After a failed add the cache is coherent exactly when that is so. */
  lemma FailedAddExactly(cache: Cache, cache': Cache, disk: Disk, name: string, data: seq<Byte>, junk: Block,
                         bufs0: seq<Buf>, bufs: seq<Buf>)
    requires Coherent(cache, disk) && Released(cache, cache', name, 0, bufs) && data != []
    requires FromCache(cache, name, 0, bufs0, junk) && |bufs0| == Bufs(|data|) && Copied(bufs0, bufs, data, 0, |data|)
    requires forall b :: 0 <= b < |bufs| ==> bufs[b].valid
    ensures Coherent(cache', disk) <==> AddHarmless(cache, disk, name, data, junk)
  {
    ReleasedExactly(cache, cache', disk, disk, name, bufs);
    RowOkExactly(disk, Key(name), bufs);
    forall n | n in disk && Key(n) == Key(name)
      ensures RowIs(bufs, disk[n]) <==> StartsAs(cache, name, data, junk, disk[n])
    {
      RowStarts(cache, name, data, junk, bufs0, bufs, disk[n]);
    }
  }

  ghost predicate RowIs(bufs: seq<Buf>, obj: seq<Byte>) {
    forall b :: 0 <= b < |bufs| ==> Agrees(bufs[b].data, obj, b)
  }

  lemma RowOkExactly(disk: Disk, key: string, bufs: seq<Buf>)
    requires bufs != [] && forall b :: 0 <= b < |bufs| ==> bufs[b].valid
    ensures RowOk(disk, key, bufs) <==>
            Backed(disk, key) && forall n :: n in disk && Key(n) == key ==> RowIs(bufs, disk[n])
  {
    if RowOk(disk, key, bufs) {
      assert LineOk(disk, key, 0, bufs[0].data);
      forall n, b | n in disk && Key(n) == key && 0 <= b < |bufs| ensures Agrees(bufs[b].data, disk[n], b) {
        assert LineOk(disk, key, b, bufs[b].data);
      }
    }
  }

  /** Writing `data` at `offset` needs no new block and changes no byte of `obj`. */
  predicate SameBytes(obj: seq<Byte>, data: seq<Byte>, offset: nat) {
    && Bufs(offset + |data|) <= Bufs(|obj|)
    && forall k :: offset <= k < offset + |data| && k < |obj| ==> data[k - offset] == obj[k]
  }

  /** A failed write leaves nothing wrong. Without an object there is nothing to read, so it stops
      before copying unless it covers everything. */
  predicate WriteHarmless(disk: Disk, name: string, data: seq<Byte>, offset: nat, prev: nat) {
    if name in disk then SameBytes(disk[name], data, offset) else offset > 0 || |data| < prev
  }

  lemma SplicedSame(bufs: seq<Buf>, obj: seq<Byte>, data: seq<Byte>, offset: nat)
    requires offset <= |obj| && data != [] && HoldsObject(bufs, Splice(obj, offset, data))
    requires |bufs| == Bufs(|Splice(obj, offset, data)|)
    ensures RowIs(bufs, obj) <==> SameBytes(obj, data, offset)
  {
    var obj' := Splice(obj, offset, data);
    RowAgrees(bufs, obj);
    forall k | 0 <= k < |obj| ensures Flat(bufs, k) == obj'[k] {}
    if RowIs(bufs, obj) {
      forall k | offset <= k < offset + |data| && k < |obj| ensures data[k - offset] == obj[k] {
        assert Flat(bufs, k) == obj[k] && Flat(bufs, k) == obj'[k];
      }
    }
  }

  /** After a failed write of an object on the device the cache is coherent exactly when the write
      would have changed nothing. */
  lemma FailedWriteExactly(cache: Cache, cache': Cache, disk: Disk, name: string, data: seq<Byte>, offset: nat,
                           bufs: seq<Buf>)
    requires Coherent(cache, disk) && NoTwin(disk, name) && Released(cache, cache', name, 0, bufs)
    requires name in disk && offset <= |disk[name]| && data != []
    requires HoldsObject(bufs, Splice(disk[name], offset, data)) && |bufs| == Bufs(|Splice(disk[name], offset, data)|)
    requires forall b :: 0 <= b < |bufs| ==> bufs[b].valid
    ensures Coherent(cache', disk) <==> SameBytes(disk[name], data, offset)
  {
    ReleasedExactly(cache, cache', disk, disk, name, bufs);
    RowOkExactly(disk, Key(name), bufs);
    SplicedSame(bufs, disk[name], data, offset);
    assert Backed(disk, Key(name));
  }

  /** Valid buffers of no object. */
  lemma UnbackedBreaks(cache: Cache, cache': Cache, disk: Disk, name: string, bufs: seq<Buf>, i: nat)
    requires NoTwin(disk, name) && name !in disk && Released(cache, cache', name, 0, bufs)
    requires i < |bufs| && bufs[i].valid
    ensures !Coherent(cache', disk)
  {
    assert Has(cache', Key(name), 0 + i, bufs[i]);
    assert !LineOk(disk, Key(name), i, bufs[i].data);
  }

  // ----- names that share buffers

  /** Every successful add of `name` to a device with the objects `disk` keeps the cache coherent. */
  ghost predicate AddKeeps(disk: Disk, name: string) {
    forall cache, cache', data, bufs :: AddedTo(cache, cache', disk, name, data, bufs) ==>
      Coherent(cache', disk[name := data])
  }

  ghost predicate AddedTo(cache: Cache, cache': Cache, disk: Disk, name: string, data: seq<Byte>, bufs: seq<Buf>) {
    Coherent(cache, disk) && Released(cache, cache', name, 0, bufs) && HoldsObject(bufs, data) && |bufs| == Bufs(|data|)
  }

  /** That is so exactly when no object on the device shares the buffers of `name`. */
  lemma SharedBuffersExactly(disk: Disk, name: string)
    requires name !in disk
    ensures AddKeeps(disk, name) <==> NoTwin(disk, name)
  {
    if NoTwin(disk, name) {
      forall cache, cache', data, bufs | AddedTo(cache, cache', disk, name, data, bufs)
        ensures Coherent(cache', disk[name := data])
      {
        WriteKeeps(cache, cache', disk, name, data, bufs);
      }
    } else {
      var n :| n in disk && Key(n) == Key(name) && n != name;
      TwinBreaks(disk, name, n);
    }
  }

  lemma TwinBreaks(disk: Disk, name: string, n: string)
    requires name !in disk && n in disk && Key(n) == Key(name) && n != name
    ensures !AddKeeps(disk, name)
  {
    var x: Byte := if disk[n] != [] && disk[n][0] == 0 then 1 else 0;
    var bufs := [Buf(true, false, seq(1024, _ => x))];
    var cache: Cache, cache': Cache := map[], map[(Key(name), 0) := bufs[0]];
    assert Flat(bufs, 0) == x;
    assert AddedTo(cache, cache', disk, name, [x], bufs);
    assert (Key(name), 0) in cache' && !Agrees(bufs[0].data, disk[n], 0);
    assert n in disk[name := [x]] && disk[name := [x]][n] == disk[n];
    assert !LineOk(disk[name := [x]], Key(name), 0, bufs[0].data);
  }

  /** With names of at most eighteen characters, or of at most nineteen everywhere, no two share. */
  lemma ShortNamesApart(disk: Disk, name: string)
    requires |name| <= 18 || (|name| <= 19 && forall n :: n in disk ==> |n| <= 19)
    ensures NoTwin(disk, name)
  {
  }

  // ----- the cache

  class ObjectCache {
    var cache: Cache
    var disk: Disk

    /** The device accepts no longer name. */
    ghost predicate Valid()
      reads this
    {
      forall n :: n in disk ==> |n| <= 20
    }

    constructor ()
      ensures Valid() && Coherent(cache, disk) && disk == map[]
    {
      cache, disk := map[], map[];
    }

    /** obj_cache_get_bufs; buffers that are not cached hold `junk`. */
    method GetBufs(name: string, start: nat, count: nat, junk: Block) returns (bufs: seq<Buf>)
      ensures |bufs| == count && FromCache(cache, name, start, bufs, junk)
    {
      bufs := [];
      for i := 0 to count
        invariant |bufs| == i && FromCache(cache, name, start, bufs, junk)
      {
        bufs := bufs + [BufAt(cache, name, start + i, junk)];
      }
    }

    /** obj_cache_release_bufs. */
    method Release(name: string, start: nat, bufs: seq<Buf>)
      modifies this`cache
      ensures Released(old(cache), cache, name, start, bufs)
    {
      for i := 0 to |bufs|
        invariant Released(old(cache), cache, name, start, bufs[..i])
      {
        cache := cache[(Key(name), start + i) := bufs[i]];
      }
      assert bufs[..|bufs|] == bufs;
    }

    /** get_object into buffers from the first block on. */
    method GetObject(name: string, bufs: seq<Buf>) returns (ok: bool, r: seq<Buf>)
      requires Valid()
      ensures ok <==> name in disk && |disk[name]| <= 1024 * |bufs|
      ensures !ok ==> r == bufs
      ensures ok ==> |r| == |bufs| && HoldsObject(r, disk[name]) && forall b :: 0 <= b < |r| ==> r[b].valid
    {
      r := bufs;
      if |name| > 20 { return false, r; }
      if name !in disk { return false, r; }
      var obj := disk[name];
      if |obj| > 1024 * |bufs| { return false, r; }
      var copied: nat := 0;
      for b := 0 to |bufs|
        invariant |r| == |bufs| && copied == (if 1024 * b <= |obj| then 1024 * b else |obj|)
        invariant Filled(r, obj, copied) && forall c :: 0 <= c < b ==> r[c].valid
      {
        var size := if |obj| - copied < 1024 then |obj| - copied else 1024;
        FillBlock(r, obj, b, copied, size, r[b].dirty);
        r := PutPiece(r, b, 0, obj[copied..copied + size], r[b].dirty);
        copied := copied + size;
      }
      ok := true;
    }

    /** copy_bufs_vector_to_disk: the object the buffers hold, which are then clean. */
    method ToDisk(bufs: seq<Buf>, n: nat) returns (obj: seq<Byte>, r: seq<Buf>)
      requires |bufs| == Bufs(n)
      ensures |obj| == n && HoldsObject(bufs, obj) && Cleaned(bufs, r)
    {
      obj, r := [], [];
      for b := 0 to |bufs|
        invariant |obj| == (if 1024 * b <= n then 1024 * b else n) && Filled(bufs, obj, |obj|)
        invariant Cleaned(bufs[..b], r)
      {
        var size := if n - |obj| < 1024 then n - |obj| else 1024;
        NextBytes(bufs, obj, b, size);
        obj, r := obj + bufs[b].data[..size], r + [bufs[b].(dirty := false)];
      }
      assert bufs[..|bufs|] == bufs;
    }

    /** validate_bufs: read the object if one of `n` buffers from `from` on is not valid. */
    method Validate(name: string, bufs: seq<Buf>, n: nat, from: nat) returns (ok: bool, r: seq<Buf>)
      requires Valid() && from + n <= |bufs| && (name in disk ==> |disk[name]| <= 1024 * |bufs|)
      ensures ok <==> name in disk || forall b :: from <= b < from + n ==> bufs[b].valid
      ensures name in disk ==> |r| == |bufs| && (ValidHold(bufs, disk[name]) ==> ValidHold(r, disk[name]))
      ensures name in disk ==> forall b :: 0 <= b < |bufs| && (bufs[b].valid || from <= b < from + n) ==> r[b].valid
      ensures name !in disk ==> r == bufs
    {
      var found := false;
      for i := 0 to n
        invariant !found <==> forall b :: from <= b < from + i ==> bufs[b].valid
      {
        if !bufs[from + i].valid { found := true; }
      }
      ok, r := true, bufs;
      if found { ok, r := GetObject(name, bufs); }
    }

    /** obj_cache_add; `fault` stands for a full device or table, `lost` for a place where the device
        does not find a name of twenty characters again. */
    method Add(name: string, data: seq<Byte>, junk: Block, fault: bool, lost: bool) returns (ok: bool)
      requires Valid()
      modifies this
      ensures Valid() && (ok <==> |name| <= 20 && name !in old(disk) && !fault)
      ensures disk == if ok && !Hidden(name, lost) then old(disk)[name := data] else old(disk)
      ensures Left(cache, name, data, !ok)
      ensures ok && Coherent(old(cache), old(disk)) && NoTwin(old(disk), name) ==>
        (Coherent(cache, disk) <==> !Hidden(name, lost) || data == [])
      ensures !ok && Coherent(old(cache), old(disk)) ==>
        (Coherent(cache, disk) <==> AddHarmless(old(cache), disk, name, data, junk))
    {
      var bufs: seq<Buf> := [];
      ghost var bufs0 := bufs;
      if |data| > 0 {
        bufs := GetBufs(name, 0, (|data| - 1) / 1024 + 1, junk);
        bufs0 := bufs;
        bufs := CopyTo(bufs, data, 0);
      }
      CopiedWhole(bufs, data);
      ok := |name| <= 20 && name !in disk && !fault;
      if ok {
        var obj, clean := ToDisk(bufs, |data|);
        SameObject(bufs, obj, data);
        CleanHolds(bufs, clean, data);
        bufs := clean;
        if !Hidden(name, lost) { disk := disk[name := obj]; }
      }
      if |data| > 0 { Release(name, 0, bufs); }
      assert Released(old(cache), cache, name, 0, bufs);
      LeftBehind(old(cache), cache, name, data, bufs, !ok);
      AddEnds(old(cache), cache, old(disk), disk, name, data, junk, ok, lost, bufs0, bufs);
    }

    /** obj_cache_write at an offset not past the end of the object, which has size `prev`. */
    method Write(name: string, data: seq<Byte>, offset: nat, prev: nat, junk: Block, fault: bool, lost: bool)
      returns (ok: bool)
      requires Valid() && |data| > 0 && offset <= prev && (name in disk ==> prev == |disk[name]|)
      modifies this
      ensures Valid() && (ok <==> name in old(disk) && !fault) && (!ok ==> disk == old(disk))
      ensures ok && Hidden(name, lost) ==> disk == old(disk) - {name}
      ensures ok && !Hidden(name, lost) && Coherent(old(cache), old(disk)) ==>
        disk == old(disk)[name := Splice(old(disk)[name], offset, data)]
      ensures Coherent(old(cache), old(disk)) && NoTwin(old(disk), name) ==>
        (Coherent(cache, disk) <==> if ok then !Hidden(name, lost) else WriteHarmless(disk, name, data, offset, prev))
    {
      ghost var cache0 := cache;
      var size := if offset + |data| >= prev then offset + |data| else prev;
      var bufs := GetBufs(name, 0, (size - 1) / 1024 + 1, junk);
      ghost var bufs0 := bufs;
      ghost var coherent, only := Coherent(cache, disk), NoTwin(disk, name);
      if coherent && name in disk { CachedHold(cache, disk, name, bufs, junk); }
      if coherent && only && name !in disk { NothingCached(cache, disk, name, bufs, junk); }
      assert coherent && only && name !in disk ==> !bufs[0].valid;
      var valid := true;
      if offset > 0 { valid, bufs := Validate(name, bufs, (offset - 1) / 1024 + 1, 0); }
      if valid && offset + |data| < prev {
        var first := (offset + |data|) / 1024;
        valid, bufs := Validate(name, bufs, (prev - 1) / 1024 - first + 1, first);
        assert coherent && only && name !in disk ==> !bufs[first].valid && !valid;
      }
      if !valid {
        Release(name, 0, bufs);
        if coherent { Unchanged(cache0, cache, disk, name, 0, bufs, junk); }
        return false;
      }
      ok := Rewrite(name, data, offset, prev, size, bufs, fault, lost);
    }

    /** obj_cache_write once the buffers it does not cover are valid. */
    method Rewrite(name: string, data: seq<Byte>, offset: nat, prev: nat, size: nat, bufs0: seq<Buf>, fault: bool,
                   lost: bool)
      returns (ok: bool)
      requires Valid() && |data| > 0 && offset <= prev
      requires size == (if offset + |data| >= prev then offset + |data| else prev) && |bufs0| == Bufs(size)
      requires name in disk ==> prev == |disk[name]| && RestValid(bufs0, prev, offset, |data|)
      requires name in disk && Coherent(cache, disk) ==> ValidHold(bufs0, disk[name])
      modifies this
      ensures Valid() && (ok <==> name in old(disk) && !fault) && (!ok ==> disk == old(disk))
      ensures ok && Hidden(name, lost) ==> disk == old(disk) - {name}
      ensures ok && !Hidden(name, lost) && Coherent(old(cache), old(disk)) ==>
        disk == old(disk)[name := Splice(old(disk)[name], offset, data)]
      ensures Coherent(old(cache), old(disk)) && NoTwin(old(disk), name) ==>
        (Coherent(cache, disk) <==>
         if ok then !Hidden(name, lost) else name in disk && SameBytes(disk[name], data, offset))
    {
      var bufs := CopyTo(bufs0, data, offset);
      ghost var written := bufs;
      ok := name in disk && !fault;
      if name in disk { AllCovered(bufs0, bufs, data, prev, offset); }
      if name in disk && Coherent(cache, disk) {
        Validated(bufs0, prev, offset, |data|);
        Spliced(bufs0, bufs, disk[name], data, offset);
      }
      if ok {
        var obj, clean := ToDisk(bufs, size);
        if Coherent(cache, disk) { SameObject(bufs, obj, Splice(disk[name], offset, data)); }
        CleanHolds(bufs, clean, obj);
        bufs := clean;
        disk := if Hidden(name, lost) then disk - {name} else disk[name := obj];
      }
      Release(name, 0, bufs);
      if Coherent(old(cache), old(disk)) && NoTwin(old(disk), name) {
        WriteEnds(old(cache), cache, old(disk), disk, name, data, offset, ok, lost, bufs);
      }
    }

    /** obj_cache_are_bufs_valid. */
    method AllValid(bufs: seq<Buf>) returns (ok: bool)
      ensures ok <==> forall b :: 0 <= b < |bufs| ==> bufs[b].valid
    {
      for i := 0 to |bufs|
        invariant forall b :: 0 <= b < i ==> bufs[b].valid
      {
        if !bufs[i].valid { return false; }
      }
      return true;
    }

    /** obj_cache_read of a slice of an object of size `size`, from the cache or from the device. */
    method Read(name: string, n: nat, offset: nat, size: nat, junk: Block) returns (ok: bool, dst: seq<Byte>)
      requires Valid() && n > 0 && offset + n <= size && (name in disk ==> size == |disk[name]|)
      modifies this`cache
      ensures ok <==> Hit(old(cache), name, offset, n) || name in disk
      ensures ok ==> |dst| == n
      ensures Hit(old(cache), name, offset, n) ==>
        forall k :: 0 <= k < n ==> dst[k] == CachedByte(old(cache), name, offset + k)
      ensures ok && !Hit(old(cache), name, offset, n) ==> dst == disk[name][offset..offset + n]
      ensures Coherent(old(cache), disk) && name in disk ==> dst == disk[name][offset..offset + n]
      ensures Coherent(old(cache), disk) && NoTwin(disk, name) ==> (ok <==> name in disk) && Coherent(cache, disk)
    {
      var start, end := offset / 1024, (offset + n - 1) / 1024;
      var bufs := GetBufs(name, start, end - start + 1, junk);
      var valid := AllValid(bufs);
      HitExactly(cache, name, offset, n, bufs, junk);
      if valid {
        dst := CopyFrom(bufs, n, offset - offset / 1024 * 1024);
        CachedBytes(cache, name, offset, n, bufs, junk, dst);
        Release(name, start, bufs);
        ok := true;
        if Coherent(old(cache), disk) {
          HitIsRight(old(cache), disk, name, offset, n, dst);
          Unchanged(old(cache), cache, disk, name, start, bufs, junk);
        }
      } else {
        Release(name, start, bufs);
        if Coherent(old(cache), disk) { Unchanged(old(cache), cache, disk, name, start, bufs, junk); }
        ok, dst := Reload(name, n, offset, size, junk);
      }
    }

    /** obj_cache_read when the data is not all in the cache. */
    method Reload(name: string, n: nat, offset: nat, size: nat, junk: Block) returns (ok: bool, dst: seq<Byte>)
      requires Valid() && n > 0 && offset + n <= size && (name in disk ==> size == |disk[name]|)
      modifies this`cache
      ensures ok <==> name in disk
      ensures ok ==> dst == disk[name][offset..offset + n]
      ensures Coherent(old(cache), disk) && NoTwin(disk, name) ==> Coherent(cache, disk)
    {
      var bufs := GetBufs(name, 0, (size - 1) / 1024 + 1, junk);
      ghost var bufs0 := bufs;
      ok, bufs := GetObject(name, bufs);
      dst := [];
      if ok {
        dst := CopyFrom(bufs, n, offset);
        forall k | 0 <= k < n ensures dst[k] == disk[name][offset + k] {
          assert Flat(bufs, offset + k) == disk[name][offset + k];
        }
      }
      Release(name, 0, bufs);
      if Coherent(old(cache), disk) && NoTwin(disk, name) {
        if ok {
          WriteKeeps(old(cache), cache, disk, name, disk[name], bufs);
          assert disk[name := disk[name]] == disk;
        } else {
          Unchanged(old(cache), cache, disk, name, 0, bufs0, junk);
        }
      }
    }

    /** obj_cache_delete of an object of size `size`. */
    method Delete(name: string, size: nat, junk: Block) returns (ok: bool)
      requires Valid() && (name in disk ==> size == |disk[name]|)
      modifies this
      ensures Valid() && (ok <==> name in old(disk)) && disk == old(disk) - {name}
      ensures Coherent(old(cache), old(disk)) ==> Coherent(cache, disk)
    {
      var bufs: seq<Buf> := [];
      if size > 0 {
        bufs := GetBufs(name, 0, (size - 1) / 1024 + 1, junk);
        bufs := Invalidate(bufs);
        Release(name, 0, bufs);
      }
      if Coherent(old(cache), disk) { DeleteKeeps(old(cache), cache, disk, name, bufs); }
      ok := |name| <= 20 && name in disk;
      if ok { disk := disk - {name}; }
    }

    /** obj_cache_invalidate_bufs. */
    method Invalidate(bufs: seq<Buf>) returns (r: seq<Buf>)
      ensures |r| == |bufs| && forall b :: 0 <= b < |r| ==> !r[b].valid
    {
      r := bufs;
      for i := 0 to |r|
        invariant |r| == |bufs| && forall b :: 0 <= b < i ==> !r[b].valid
      {
        r := r[i := r[i].(valid := false)];
      }
    }

    /** Buffers are recycled, or caching is switched off; a dirty buffer stays. */
    method Forget(keys: set<(string, nat)>)
      requires forall k :: k in keys && k in cache ==> !cache[k].dirty
      modifies this`cache
      ensures cache == old(cache) - keys && (Coherent(old(cache), disk) ==> Coherent(cache, disk))
    {
      cache := cache - keys;
    }
  }

  // ----- why the operations keep the cache coherent

  ghost predicate Cleaned(bufs: seq<Buf>, r: seq<Buf>) {
    |r| == |bufs| && forall b :: 0 <= b < |r| ==> r[b] == bufs[b].(dirty := false)
  }

  lemma CleanHolds(bufs: seq<Buf>, r: seq<Buf>, obj: seq<Byte>)
    requires Cleaned(bufs, r) && HoldsObject(bufs, obj)
    ensures HoldsObject(r, obj)
  {
    forall k | 0 <= k < |obj| ensures Flat(r, k) == obj[k] {
      assert Flat(bufs, k) == obj[k] && r[k / 1024].data == bufs[k / 1024].data;
    }
  }

  /** Bytes of the object in valid buffers are right. */
  ghost predicate ValidHold(bufs: seq<Buf>, obj: seq<Byte>) {
    forall k :: 0 <= k < |obj| && k < 1024 * |bufs| && bufs[k / 1024].valid ==> Flat(bufs, k) == obj[k]
  }

  lemma CachedHold(cache: Cache, disk: Disk, name: string, bufs: seq<Buf>, junk: Block)
    requires Coherent(cache, disk) && FromCache(cache, name, 0, bufs, junk) && name in disk
    ensures ValidHold(bufs, disk[name])
  {
    forall k | 0 <= k < |disk[name]| && k < 1024 * |bufs| && bufs[k / 1024].valid
      ensures Flat(bufs, k) == disk[name][k]
    {
      assert bufs[k / 1024] == BufAt(cache, name, 0 + k / 1024, junk);
      assert LineOk(disk, Key(name), k / 1024, bufs[k / 1024].data);
      AgreesFlat(bufs, disk[name], k);
    }
  }

  lemma NothingCached(cache: Cache, disk: Disk, name: string, bufs: seq<Buf>, junk: Block)
    requires Coherent(cache, disk) && FromCache(cache, name, 0, bufs, junk) && name !in disk && NoTwin(disk, name)
    ensures forall b :: 0 <= b < |bufs| ==> !bufs[b].valid
  {
    forall b | 0 <= b < |bufs| ensures !bufs[b].valid {
      assert bufs[b] == BufAt(cache, name, 0 + b, junk);
      assert !Backed(disk, Key(name));
    }
  }

  lemma CopiedWhole(bufs: seq<Buf>, data: seq<Byte>)
    requires |bufs| == Bufs(|data|) && forall k :: 0 <= k < |data| ==> Flat(bufs, k) == data[k]
    ensures HoldsObject(bufs, data)
  {
  }

  /** The blocks before and after the range of a write are valid, as far as the object goes. */
  predicate RestValid(bufs: seq<Buf>, prev: nat, offset: nat, n: nat) {
    && (offset > 0 ==> forall b :: 0 <= b < (offset - 1) / 1024 + 1 ==> b < |bufs| && bufs[b].valid)
    && (offset + n < prev ==>
          forall b :: (offset + n) / 1024 <= b <= (prev - 1) / 1024 ==> b < |bufs| && bufs[b].valid)
  }

  lemma Validated(bufs: seq<Buf>, prev: nat, offset: nat, n: nat)
    requires n > 0 && offset <= prev <= 1024 * |bufs| && RestValid(bufs, prev, offset, n)
    ensures forall k :: 0 <= k < prev && !(offset <= k < offset + n) ==> bufs[k / 1024].valid
  {
    forall k | 0 <= k < prev && !(offset <= k < offset + n) ensures bufs[k / 1024].valid {
      if k < offset {
        assert k / 1024 <= (offset - 1) / 1024;
      } else {
        assert (offset + n) / 1024 <= k / 1024 <= (prev - 1) / 1024;
      }
    }
  }

  /** The buffers of a write that need not be read are those it covers. */
  lemma Spliced(bufs: seq<Buf>, bufs': seq<Buf>, obj: seq<Byte>, data: seq<Byte>, offset: nat)
    requires offset <= |obj| && Copied(bufs, bufs', data, offset, |data|) && ValidHold(bufs, obj)
    requires offset + |data| <= 1024 * |bufs| && |obj| <= 1024 * |bufs|
    requires forall k :: 0 <= k < |obj| && !(offset <= k < offset + |data|) ==> bufs[k / 1024].valid
    ensures HoldsObject(bufs', Splice(obj, offset, data))
  {
    var obj' := Splice(obj, offset, data);
    forall k | 0 <= k < |obj'| ensures Flat(bufs', k) == obj'[k] {
      assert Flat(bufs', k) == if offset <= k < offset + |data| then data[k - offset] else Flat(bufs, k);
      assert k < |obj| && !(offset <= k < offset + |data|) ==> bufs[k / 1024].valid;
    }
  }

  /** After the copy every buffer is valid. */
  lemma AllCovered(bufs: seq<Buf>, bufs': seq<Buf>, data: seq<Byte>, prev: nat, offset: nat)
    requires |data| > 0 && offset <= prev && RestValid(bufs, prev, offset, |data|) && |bufs'| == |bufs|
    requires |bufs| == Bufs(if offset + |data| >= prev then offset + |data| else prev)
    requires forall b :: 0 <= b < |bufs| ==> bufs'[b].valid == (bufs[b].valid || Touched(data, offset, b))
    ensures forall b :: 0 <= b < |bufs'| ==> bufs'[b].valid
  {
    forall b | 0 <= b < |bufs'| ensures bufs'[b].valid {
      if b < offset / 1024 {
        assert b <= (offset - 1) / 1024;
      } else if !Touched(data, offset, b) {
        assert (offset + |data|) / 1024 <= b <= (prev - 1) / 1024;
      }
    }
  }

  /** The data of a read is all in the cache. */
  predicate Hit(cache: Cache, name: string, offset: nat, n: nat)
    requires n > 0
  {
    forall b :: offset / 1024 <= b <= (offset + n - 1) / 1024 ==> (Key(name), b) in cache && cache[(Key(name), b)].valid
  }

  function CachedByte(cache: Cache, name: string, k: nat): Byte
    requires (Key(name), k / 1024) in cache
  {
    cache[(Key(name), k / 1024)].data[k % 1024]
  }

  lemma HitExactly(cache: Cache, name: string, offset: nat, n: nat, bufs: seq<Buf>, junk: Block)
    requires n > 0 && FromCache(cache, name, offset / 1024, bufs, junk)
    requires |bufs| == (offset + n - 1) / 1024 - offset / 1024 + 1
    ensures Hit(cache, name, offset, n) <==> forall b :: 0 <= b < |bufs| ==> bufs[b].valid
  {
    var start := offset / 1024;
    if Hit(cache, name, offset, n) {
      forall b | 0 <= b < |bufs| ensures bufs[b].valid { assert (Key(name), start + b) in cache; }
    }
    if forall b :: 0 <= b < |bufs| ==> bufs[b].valid {
      forall b | start <= b <= (offset + n - 1) / 1024 ensures (Key(name), b) in cache && cache[(Key(name), b)].valid {
        assert bufs[b - start] == BufAt(cache, name, start + (b - start), junk);
      }
    }
  }

  /** The all-cached path of a read. */
  lemma CachedBytes(cache: Cache, name: string, offset: nat, n: nat, bufs: seq<Buf>, junk: Block, dst: seq<Byte>)
    requires n > 0 && FromCache(cache, name, offset / 1024, bufs, junk) && Hit(cache, name, offset, n)
    requires |bufs| == (offset + n - 1) / 1024 - offset / 1024 + 1 && |dst| == n
    requires forall k :: 0 <= k < n ==> dst[k] == Flat(bufs, offset - offset / 1024 * 1024 + k)
    ensures forall k :: 0 <= k < n ==> InHit(cache, name, offset, k, dst[k])
  {
    forall k | 0 <= k < n ensures InHit(cache, name, offset, k, dst[k]) {
      var start := offset / 1024;
      var f := offset - start * 1024 + k;
      assert (offset + k) / 1024 == start + f / 1024 && (offset + k) % 1024 == f % 1024;
      assert bufs[f / 1024] == BufAt(cache, name, start + f / 1024, junk);
    }
  }

  predicate InHit(cache: Cache, name: string, offset: nat, k: nat, x: Byte) {
    (Key(name), (offset + k) / 1024) in cache && x == CachedByte(cache, name, offset + k)
  }

  /** A read through a coherent cache returns the bytes of the object, and fails without one unless
      another object shares the buffers. */
  lemma HitIsRight(cache: Cache, disk: Disk, name: string, offset: nat, n: nat, dst: seq<Byte>)
    requires Coherent(cache, disk) && n > 0 && Hit(cache, name, offset, n) && |dst| == n
    requires forall k :: 0 <= k < n ==> InHit(cache, name, offset, k, dst[k])
    ensures name in disk && offset + n <= |disk[name]| ==> dst == disk[name][offset..offset + n]
    ensures NoTwin(disk, name) ==> name in disk
  {
    assert LineOk(disk, Key(name), offset / 1024, cache[(Key(name), offset / 1024)].data);
    if name in disk && offset + n <= |disk[name]| {
      forall k | 0 <= k < n ensures dst[k] == disk[name][offset + k] {
        var b := (offset + k) / 1024;
        assert InHit(cache, name, offset, k, dst[k]);
        assert LineOk(disk, Key(name), b, cache[(Key(name), b)].data);
        assert offset + k == 1024 * b + (offset + k) % 1024;
      }
    }
  }

  lemma Unchanged(cache: Cache, cache': Cache, disk: Disk, name: string, start: nat, bufs: seq<Buf>, junk: Block)
    requires Coherent(cache, disk) && FromCache(cache, name, start, bufs, junk) &&
      Released(cache, cache', name, start, bufs)
    ensures Coherent(cache', disk)
  {
    forall k, b | (k, b) in cache' && cache'[(k, b)].valid ensures LineOk(disk, k, b, cache'[(k, b)].data) {
      if k == Key(name) && start <= b < start + |bufs| {
        var i := b - start;
        assert Has(cache', Key(name), start + i, bufs[i]) && bufs[i] == BufAt(cache, name, start + i, junk);
      }
      assert (k, b) in cache && cache'[(k, b)] == cache[(k, b)];
    }
  }

  /** Deleting empties the buffers of the object, shared or not. */
  lemma DeleteKeeps(cache: Cache, cache': Cache, disk: Disk, name: string, bufs: seq<Buf>)
    requires Coherent(cache, disk) && Released(cache, cache', name, 0, bufs) &&
      (name in disk ==> |bufs| == Bufs(|disk[name]|))
    requires forall b :: 0 <= b < |bufs| ==> !bufs[b].valid
    ensures Coherent(cache', disk - {name})
  {
    var key, disk' := Key(name), disk - {name};
    ReleasedExactly(cache, cache', disk, disk', name, bufs);
    forall b: nat | |bufs| <= b && (key, b) in cache && cache[(key, b)].valid
      ensures LineOk(disk', key, b, cache[(key, b)].data)
    {
      assert LineOk(disk, key, b, cache[(key, b)].data);
      assert name !in disk;
      assert disk' == disk;
    }
  }

  lemma SameObject(bufs: seq<Buf>, a: seq<Byte>, b: seq<Byte>)
    requires |a| == |b| && HoldsObject(bufs, a) && HoldsObject(bufs, b)
    ensures a == b
  {
    forall k | 0 <= k < |a| ensures a[k] == b[k] { assert Flat(bufs, k) == a[k] && Flat(bufs, k) == b[k]; }
  }

  /** All buffers of an object written back that has its buffers to itself. */
  lemma WriteKeeps(cache: Cache, cache': Cache, disk: Disk, name: string, obj: seq<Byte>, bufs: seq<Buf>)
    requires Coherent(cache, disk) && NoTwin(disk, name) && Released(cache, cache', name, 0, bufs)
    requires HoldsObject(bufs, obj) && |bufs| == Bufs(|obj|) && (name in disk ==> |disk[name]| <= |obj|)
    ensures Coherent(cache', disk[name := obj])
  {
    var key, disk' := Key(name), disk[name := obj];
    ReleasedExactly(cache, cache', disk, disk', name, bufs);
    assert name in disk' && Key(name) == key;
    forall i | 0 <= i < |bufs| ensures LineOk(disk', key, i, bufs[i].data) { HoldsAgrees(bufs, obj, i); }
    forall b: nat | |bufs| <= b && (key, b) in cache && cache[(key, b)].valid
      ensures LineOk(disk', key, b, cache[(key, b)].data)
    {
      assert LineOk(disk, key, b, cache[(key, b)].data);
    }
  }

  lemma AddEnds(cache: Cache, cache': Cache, disk: Disk, disk': Disk, name: string, data: seq<Byte>, junk: Block,
                ok: bool, lost: bool, bufs0: seq<Buf>, bufs: seq<Buf>)
    requires Released(cache, cache', name, 0, bufs) && HoldsObject(bufs, data) && |bufs| == Bufs(|data|)
    requires (forall b :: 0 <= b < |bufs| ==> bufs[b].valid) && (ok ==> name !in disk)
    requires disk' == if ok && !Hidden(name, lost) then disk[name := data] else disk
    requires !ok && data != [] ==>
      FromCache(cache, name, 0, bufs0, junk) && |bufs0| == Bufs(|data|) && Copied(bufs0, bufs, data, 0, |data|)
    ensures ok && Coherent(cache, disk) && NoTwin(disk, name) ==>
      (Coherent(cache', disk') <==> !Hidden(name, lost) || data == [])
    ensures !ok && Coherent(cache, disk) ==> (Coherent(cache', disk') <==> AddHarmless(cache, disk, name, data, junk))
  {
    if Coherent(cache, disk) {
      if ok && NoTwin(disk, name) {
        if !Hidden(name, lost) {
          WriteKeeps(cache, cache', disk, name, data, bufs);
        } else if data != [] {
          UnbackedBreaks(cache, cache', disk, name, bufs, 0);
        } else {
          ReleasedExactly(cache, cache', disk, disk, name, bufs);
        }
      } else if !ok {
        if data != [] {
          FailedAddExactly(cache, cache', disk, name, data, junk, bufs0, bufs);
        } else {
          ReleasedExactly(cache, cache', disk, disk, name, bufs);
        }
      }
    }
  }

  lemma WriteEnds(cache: Cache, cache': Cache, disk: Disk, disk': Disk, name: string, data: seq<Byte>, offset: nat,
                  ok: bool, lost: bool, bufs: seq<Buf>)
    requires Coherent(cache, disk) && NoTwin(disk, name) && Released(cache, cache', name, 0, bufs)
    requires data != [] && offset / 1024 < |bufs| && bufs[offset / 1024].valid && (ok ==> name in disk)
    requires name in disk ==>
      && offset <= |disk[name]| && HoldsObject(bufs, Splice(disk[name], offset, data))
      && |bufs| == Bufs(|Splice(disk[name], offset, data)|) && forall b :: 0 <= b < |bufs| ==> bufs[b].valid
    requires disk' == if !ok then disk else if Hidden(name, lost) then disk - {name}
                      else disk[name := Splice(disk[name], offset, data)]
    ensures Coherent(cache', disk') <==>
            if ok then !Hidden(name, lost) else name in disk && SameBytes(disk[name], data, offset)
  {
    if name !in disk || (ok && Hidden(name, lost)) {
      UnbackedBreaks(cache, cache', disk', name, bufs, offset / 1024);
    } else if ok {
      WriteKeeps(cache, cache', disk, name, Splice(disk[name], offset, data), bufs);
    } else {
      FailedWriteExactly(cache, cache', disk, name, data, offset, bufs);
    }
  }

  // ----- runs that read the wrong bytes

  /** An object "a" with the byte 0; a second add of "a", with the byte 1, fails, and the next read
      returns 1. */
  method FailedAddIsRead(junk: Block) returns (again: bool, dst: seq<Byte>, onDevice: seq<Byte>)
    ensures !again && dst == [1] && onDevice == [0]
  {
    var c := new ObjectCache();
    var ok := c.Add("a", [0], junk, false, false);
    again := c.Add("a", [1], junk, false, false);
    assert LeftAt(c.cache, "a", [1], true, 0);
    ok, dst := c.Read("a", 1, 0, 1, junk);
    assert dst[0] == 1;
    onDevice := c.disk["a"];
  }

  /** Any two objects whose names have the first nineteen characters in common: a read of the first
      returns the byte of the second. */
  method TwinIsRead(a: string, b: string, junk: Block) returns (both: bool, dst: seq<Byte>, onDevice: seq<Byte>)
    requires a != b && |a| <= 20 && |b| <= 20 && Key(a) == Key(b)
    ensures both && dst == [1] && onDevice == [0]
  {
    var c := new ObjectCache();
    var first := c.Add(a, [0], junk, false, false);
    var second := c.Add(b, [1], junk, false, false);
    both := first && second;
    assert LeftAt(c.cache, b, [1], false, 0);
    var ok;
    ok, dst := c.Read(a, 1, 0, 1, junk);
    assert dst[0] == 1;
    onDevice := c.disk[a];
  }

  /** An add that the device refuses because the name is too long, and a read of the object whose
      buffers it took. */
  method OverlongNameIsRead(a: string, b: string, junk: Block)
    returns (second: bool, dst: seq<Byte>, onDevice: seq<Byte>)
    requires |a| <= 20 < |b| && Key(a) == Key(b)
    ensures !second && dst == [1] && onDevice == [0]
  {
    var c := new ObjectCache();
    var first := c.Add(a, [0], junk, false, false);
    second := c.Add(b, [1], junk, false, false);
    assert LeftAt(c.cache, b, [1], true, 0);
    var ok;
    ok, dst := c.Read(a, 1, 0, 1, junk);
    assert dst[0] == 1;
    onDevice := c.disk[a];
  }
}
