/** Files of the native file system (kernel/fs/native_fs.c): the block bitmap, the block
    addresses of inodes, and file content.

    Blocks are read and logged through the layers below; here `blocks` is the content every
    reader sees. Inodes are those that are not devices.
 */
module NativeFs {
  import opened Bits
  import opened Blocks
  import opened Wrappers

  const NDIRECT: nat := 12
  const NINDIRECT: nat := 256
  const MAXFILE: nat := 268

  /** Addresses an inode can lead to: 12 direct ones, the indirect block, its 256 entries. */
  const NREF: nat := 269

  /** `addrs[12]` is the indirect block; 0 means none. */
  datatype Inode = Inode(size: nat, addrs: seq<Word>)

  /** Blocks below `nmeta` hold boot, super, log, inode and bitmap blocks. */
  datatype Layout = Layout(size: nat, bmapstart: nat, nmeta: nat)

  datatype Fs = Fs(lay: Layout, blocks: seq<Block>, inodes: seq<Inode>)

  predicate Shape(f: Fs) {
    && 0 < f.lay.bmapstart && f.lay.bmapstart + f.lay.size / 8192 < f.lay.nmeta <= f.lay.size < 0x1_0000_0000
    && |f.blocks| == f.lay.size
    && (forall i :: 0 <= i < |f.inodes| ==> |f.inodes[i].addrs| == 13)
    && (forall i :: 0 <= i < |f.inodes| ==> f.inodes[i].addrs[12] < f.lay.size)
  }

  // ----- the bitmap

  function BitmapBlock(lay: Layout, b: nat): nat { lay.bmapstart + b / 8192 }
  function BitmapByte(b: nat): nat { b % 8192 / 8 }

  predicate Used(f: Fs, b: nat)
    requires Shape(f) && b < f.lay.size
  {
    Bit(f.blocks[BitmapBlock(f.lay, b)][BitmapByte(b)], b % 8)
  }

  function PutByte(f: Fs, b: nat, v: Byte): Fs
    requires Shape(f) && b < f.lay.size
  {
    var n := BitmapBlock(f.lay, b);
    f.(blocks := f.blocks[n := f.blocks[n][BitmapByte(b) := v]])
  }

  function BitmapValue(f: Fs, b: nat): Byte
    requires Shape(f) && b < f.lay.size
  {
    f.blocks[BitmapBlock(f.lay, b)][BitmapByte(b)]
  }

  /** `data[bi / 8] |= 1 << (bi % 8)` */
  function SetBit(f: Fs, b: nat): Fs
    requires Shape(f) && b < f.lay.size
  {
    ByteMasks(BitmapValue(f, b), b % 8);
    PutByte(f, b, Or(BitmapValue(f, b), Pow2(b % 8)))
  }

  /** `data[bi / 8] &= ~(1 << (bi % 8))` */
  function ClearBit(f: Fs, b: nat): Fs
    requires Shape(f) && b < f.lay.size
  {
    ByteMasks(BitmapValue(f, b), b % 8);
    PutByte(f, b, And(BitmapValue(f, b), 255 - Pow2(b % 8)))
  }

  lemma ByteMasks(v: Byte, i: nat)
    requires i < 8
    ensures Pow2(i) <= 128 && Or(v, Pow2(i)) < 256 && And(v, 255 - Pow2(i)) < 256
  {
    assert Pow2(8) == 256 && Pow2(7) == 128;
    Pow2Mono(i, 7);
    OrFits(v, Pow2(i), 8);
    AndFits(v, 255 - Pow2(i));
  }

  /** Complementing a byte flips its bits. */
  lemma {:induction false} BitComplement(x: nat, k: nat, i: nat)
    requires i < k && x < Pow2(k)
    ensures Bit(Pow2(k) - 1 - x, i) == !Bit(x, i)
  {
    var y := Pow2(k) - 1 - x;
    assert y % 2 == 1 - x % 2 && y / 2 == Pow2(k - 1) - 1 - x / 2;
    if i > 0 { BitComplement(x / 2, k - 1, i - 1); }
  }

  lemma SetByteBit(v: Byte, i: nat, j: nat)
    requires i < 8 && j < 8
    ensures Bit(Or(v, Pow2(i)), j) == (i == j || Bit(v, j))
  {
    BitOr(v, Pow2(i), j);
    BitPow2(i, j);
  }

  lemma ClearByteBit(v: Byte, i: nat, j: nat)
    requires i < 8 && j < 8
    ensures Pow2(i) <= 255 && Bit(And(v, 255 - Pow2(i)), j) == (i != j && Bit(v, j))
  {
    ByteMasks(v, i);
    assert Pow2(8) == 256;
    BitAnd(v, 255 - Pow2(i), j);
    BitComplement(Pow2(i), 8, j);
    BitPow2(i, j);
  }

  lemma Digits(b: nat)
    ensures b == 8192 * (b / 8192) + 8 * (b % 8192 / 8) + b % 8
  {
    var r := b % 8192;
    assert r % 8 == b % 8;
  }

  /** Two blocks share a bitmap byte and bit only if they are the same. */
  lemma SameBit(lay: Layout, b: nat, c: nat)
    ensures BitmapBlock(lay, b) == BitmapBlock(lay, c) && BitmapByte(b) == BitmapByte(c) && b % 8 == c % 8 ==> b == c
  {
    Digits(b);
    Digits(c);
  }

  lemma PutByteUsed(f: Fs, b: nat, v: Byte, c: nat)
    requires Shape(f) && b < f.lay.size && c < f.lay.size
    ensures Shape(PutByte(f, b, v))
    ensures Used(PutByte(f, b, v), c) ==
      if BitmapBlock(f.lay, b) == BitmapBlock(f.lay, c) && BitmapByte(b) == BitmapByte(c)
      then Bit(v, c % 8) else Used(f, c)
  {
  }

  lemma SetBitUsed(f: Fs, b: nat, c: nat)
    requires Shape(f) && b < f.lay.size && c < f.lay.size
    ensures Shape(SetBit(f, b)) && Used(SetBit(f, b), c) == (c == b || Used(f, c))
  {
    var v := BitmapValue(f, b);
    SameBit(f.lay, b, c);
    ByteMasks(v, b % 8);
    PutByteUsed(f, b, Or(v, Pow2(b % 8)), c);
    SetByteBit(v, b % 8, c % 8);
  }

  lemma ClearBitUsed(f: Fs, b: nat, c: nat)
    requires Shape(f) && b < f.lay.size && c < f.lay.size
    ensures Shape(ClearBit(f, b)) && Used(ClearBit(f, b), c) == (c != b && Used(f, c))
  {
    var v := BitmapValue(f, b);
    SameBit(f.lay, b, c);
    ByteMasks(v, b % 8);
    PutByteUsed(f, b, And(v, 255 - Pow2(b % 8)), c);
    ClearByteBit(v, b % 8, c % 8);
  }

  // ----- block ownership

  /** Address at position `p` of inode `i`: 0 to 11 direct, 12 the indirect block, 13 on its entries. */
  function Ref(f: Fs, i: nat, p: nat): Word
    requires Shape(f) && i < |f.inodes| && p < NREF
  {
    var ind := f.inodes[i].addrs[12];
    if p < 13 then f.inodes[i].addrs[p]
    else if ind == 0 then 0
    else GetWord(f.blocks[ind], p - 13)
  }

  /** Some position outside `ign` leads to block `b`. */
  ghost predicate Owned(f: Fs, ign: set<(nat, nat)>, b: nat)
    requires Shape(f)
  {
    exists i, p :: 0 <= i < |f.inodes| && 0 <= p < NREF && (i, p) !in ign && Ref(f, i, p) == b
  }

  ghost predicate RefsInRange(f: Fs)
    requires Shape(f)
  {
    forall i, p :: 0 <= i < |f.inodes| && 0 <= p < NREF ==>
      Ref(f, i, p) == 0 || f.lay.nmeta <= Ref(f, i, p) < f.lay.size
  }

  /** No block is reached from two positions. */
  ghost predicate RefsDistinct(f: Fs)
    requires Shape(f)
  {
    forall i, p, j, q :: 0 <= i < |f.inodes| && 0 <= p < NREF && 0 <= j < |f.inodes| && 0 <= q < NREF
      ==> (Ref(f, i, p) == Ref(f, j, q) && Ref(f, i, p) != 0 ==> i == j && p == q)
  }

  /** The set bits are the metadata, the owned blocks and those in `extra`, allocated but not
      stored yet; positions in `ign` are freed but not cleared yet. */
  ghost predicate InvX(f: Fs, extra: set<nat>, ign: set<(nat, nat)>) {
    && Shape(f)
    && RefsInRange(f)
    && RefsDistinct(f)
    && (forall b :: 0 <= b < f.lay.size ==> (Used(f, b) <==> b < f.lay.nmeta || b in extra || Owned(f, ign, b)))
    && (forall b :: b in extra ==> f.lay.nmeta <= b < f.lay.size && !Owned(f, {}, b))
  }

  /** Between calls: set bits are exactly metadata plus owned blocks. */
  ghost predicate Inv(f: Fs) { InvX(f, {}, {}) }

  ghost predicate SameRefs(f: Fs, g: Fs)
    requires Shape(f) && Shape(g)
  {
    |f.inodes| == |g.inodes| && forall i, p :: 0 <= i < |f.inodes| && 0 <= p < NREF ==> Ref(f, i, p) == Ref(g, i, p)
  }

  lemma OwnedSame(f: Fs, g: Fs, ign: set<(nat, nat)>, b: nat)
    requires Shape(f) && Shape(g) && SameRefs(f, g)
    ensures Owned(f, ign, b) == Owned(g, ign, b)
  {
    if Owned(f, ign, b) {
      var i, p :| 0 <= i < |f.inodes| && 0 <= p < NREF && (i, p) !in ign && Ref(f, i, p) == b;
      assert Ref(g, i, p) == b;
    }
    if Owned(g, ign, b) {
      var i, p :| 0 <= i < |g.inodes| && 0 <= p < NREF && (i, p) !in ign && Ref(g, i, p) == b;
      assert Ref(f, i, p) == b;
    }
  }

  /** Changing a block that is no indirect block leaves every address alone. */
  lemma RefsKept(f: Fs, g: Fs, n: nat)
    requires Shape(f) && RefsInRange(f) && n < f.lay.size
    requires forall i :: 0 <= i < |f.inodes| ==> f.inodes[i].addrs[12] != n
    requires g.lay == f.lay && g.inodes == f.inodes && |g.blocks| == |f.blocks|
    requires forall m :: 0 <= m < |f.blocks| && m != n ==> g.blocks[m] == f.blocks[m]
    ensures Shape(g) && SameRefs(f, g)
  {
  }

  lemma NotIndirect(f: Fs, n: nat)
    requires Shape(f) && RefsInRange(f) && (n < f.lay.nmeta || !Owned(f, {}, n)) && 0 < n
    ensures forall i :: 0 <= i < |f.inodes| ==> f.inodes[i].addrs[12] != n
  {
    forall i | 0 <= i < |f.inodes| ensures f.inodes[i].addrs[12] != n {
      assert Ref(f, i, 12) == f.inodes[i].addrs[12];
    }
  }

  /** balloc, given a clear bit: mark it, zero the block. */
  function Take(f: Fs, b: nat): Fs
    requires Shape(f) && b < f.lay.size
  {
    var g := SetBit(f, b);
    g.(blocks := g.blocks[b := ZeroBlock()])
  }

  lemma ClearIsFree(f: Fs, extra: set<nat>, b: nat)
    requires InvX(f, extra, {}) && b < f.lay.size && !Used(f, b)
    ensures f.lay.nmeta <= b && b !in extra && !Owned(f, {}, b)
  {
  }

  lemma BitmapIsMeta(f: Fs, b: nat)
    requires Shape(f) && b < f.lay.size
    ensures 0 < BitmapBlock(f.lay, b) < f.lay.nmeta
  {
    assert b / 8192 <= f.lay.size / 8192;
  }

  lemma TakeRefs(f: Fs, extra: set<nat>, b: nat)
    requires InvX(f, extra, {}) && b < f.lay.size && !Used(f, b)
    ensures Shape(Take(f, b)) && SameRefs(f, Take(f, b))
  {
    ClearIsFree(f, extra, b);
    BitmapIsMeta(f, b);
    var g, h := SetBit(f, b), Take(f, b);
    NotIndirect(f, BitmapBlock(f.lay, b));
    RefsKept(f, g, BitmapBlock(f.lay, b));
    NotIndirect(f, b);
    RefsKept(g, h, b);
  }

  lemma TakeUsed(f: Fs, b: nat, c: nat)
    requires Shape(f) && f.lay.nmeta <= b < f.lay.size && c < f.lay.size
    ensures Shape(Take(f, b)) && Used(Take(f, b), c) == (c == b || Used(f, c))
  {
    SetBitUsed(f, b, c);
    BitmapIsMeta(f, c);
  }

  /** balloc returns a block nobody owned, zeroed. */
  lemma TakeKeeps(f: Fs, extra: set<nat>, b: nat)
    requires InvX(f, extra, {}) && b < f.lay.size && !Used(f, b)
    ensures InvX(Take(f, b), extra + {b}, {}) && b !in extra && f.lay.nmeta <= b && !Owned(f, {}, b)
    ensures Take(f, b).blocks[b] == ZeroBlock() && SameRefs(f, Take(f, b))
  {
    var g := Take(f, b);
    ClearIsFree(f, extra, b);
    TakeRefs(f, extra, b);
    forall c | 0 <= c < f.lay.size ensures Used(g, c) <==> c < f.lay.nmeta || c in extra + {b} || Owned(g, {}, c) {
      TakeUsed(f, b, c);
      OwnedSame(f, g, {}, c);
    }
    forall c | c in extra + {b} ensures f.lay.nmeta <= c < f.lay.size && !Owned(g, {}, c) { OwnedSame(f, g, {}, c); }
  }

  // ----- storing an address

  /** `g` differs from `f` in the address at position `p` of inode `i` only. */
  ghost predicate OneRef(f: Fs, g: Fs, i: nat, p: nat, b: Word)
    requires Shape(f) && Shape(g) && i < |f.inodes| && p < NREF
  {
    && |g.inodes| == |f.inodes|
    && (forall j, q :: 0 <= j < |f.inodes| && 0 <= q < NREF ==>
          Ref(g, j, q) == if j == i && q == p then b else Ref(f, j, q))
  }

  ghost predicate SameBits(f: Fs, g: Fs)
    requires Shape(f) && Shape(g)
  {
    g.lay == f.lay && forall b :: 0 <= b < f.lay.size ==> Used(g, b) == Used(f, b)
  }

  lemma OwnedStore(f: Fs, g: Fs, i: nat, p: nat, b: nat, c: nat)
    requires Shape(f) && Shape(g) && i < |f.inodes| && p < NREF && b < 0x1_0000_0000 && OneRef(f, g, i, p, b) &&
      Ref(f, i, p) == 0
    requires c != 0
    ensures Owned(g, {}, c) == (c == b || Owned(f, {}, c))
  {
    if Owned(g, {}, c) {
      var j, q :| 0 <= j < |g.inodes| && 0 <= q < NREF && (j, q) !in {} && Ref(g, j, q) == c;
      if c != b { assert Ref(f, j, q) == c; }
    }
    if c == b { assert Ref(g, i, p) == c; }
    if Owned(f, {}, c) {
      var j, q :| 0 <= j < |f.inodes| && 0 <= q < NREF && (j, q) !in {} && Ref(f, j, q) == c;
      assert Ref(g, j, q) == c;
    }
  }

  /** An allocated block stored at an empty position becomes owned. */
  lemma StoreKeeps(f: Fs, g: Fs, extra: set<nat>, i: nat, p: nat, b: nat)
    requires InvX(f, extra, {}) && Shape(g) && i < |f.inodes| && p < NREF && b in extra && Ref(f, i, p) == 0
    requires b < 0x1_0000_0000 && OneRef(f, g, i, p, b) && SameBits(f, g)
    ensures InvX(g, extra - {b}, {})
  {
    forall c | 0 <= c < f.lay.size ensures Used(g, c) <==> c < f.lay.nmeta || c in extra - {b} || Owned(g, {}, c) {
      if c != 0 { OwnedStore(f, g, i, p, b, c); }
    }
    forall c | c in extra - {b} ensures f.lay.nmeta <= c < f.lay.size && !Owned(g, {}, c) {
      OwnedStore(f, g, i, p, b, c);
    }
    StoreDistinct(f, g, extra, i, p, b);
  }

  lemma StoreDistinct(f: Fs, g: Fs, extra: set<nat>, i: nat, p: nat, b: nat)
    requires InvX(f, extra, {}) && Shape(g) && i < |f.inodes| && p < NREF && b in extra && Ref(f, i, p) == 0
    requires b < 0x1_0000_0000 && OneRef(f, g, i, p, b) && g.lay == f.lay
    ensures RefsInRange(g) && RefsDistinct(g)
  {
    forall j, q | 0 <= j < |f.inodes| && 0 <= q < NREF ensures Ref(f, j, q) != b {
      assert !Owned(f, {}, b);
    }
  }

  /** `ip->addrs[p] = b` */
  function SetAddr(f: Fs, i: nat, p: nat, b: Word): Fs
    requires Shape(f) && i < |f.inodes| && p < 13
  {
    f.(inodes := f.inodes[i := f.inodes[i].(addrs := f.inodes[i].addrs[p := b])])
  }

  lemma SetAddrRefs(f: Fs, i: nat, p: nat, b: Word)
    requires Shape(f) && i < |f.inodes| && p < 13 && b < f.lay.size
    requires p == 12 ==> f.inodes[i].addrs[12] == 0 && f.blocks[b] == ZeroBlock()
    ensures Shape(SetAddr(f, i, p, b)) && OneRef(f, SetAddr(f, i, p, b), i, p, b) && SameBits(f, SetAddr(f, i, p, b))
  {
    var g := SetAddr(f, i, p, b);
    forall j, q | 0 <= j < |f.inodes| && 0 <= q < NREF
      ensures Ref(g, j, q) == if j == i && q == p then b else Ref(f, j, q)
    {
      if p == 12 && j == i && q >= 13 { ZeroWord(q - 13); }
    }
  }

  /** `a[e] = b` in the indirect block */
  function SetEntry(f: Fs, i: nat, e: nat, b: Word): Fs
    requires Shape(f) && i < |f.inodes| && e < NINDIRECT
  {
    var ind := f.inodes[i].addrs[12];
    f.(blocks := f.blocks[ind := SetWord(f.blocks[ind], e, b)])
  }

  lemma SetEntryRefs(f: Fs, extra: set<nat>, i: nat, e: nat, b: Word)
    requires InvX(f, extra, {}) && i < |f.inodes| && e < NINDIRECT && f.inodes[i].addrs[12] != 0
    ensures Shape(SetEntry(f, i, e, b)) && OneRef(f, SetEntry(f, i, e, b), i, 13 + e, b) &&
      SameBits(f, SetEntry(f, i, e, b))
  {
    var g, ind := SetEntry(f, i, e, b), f.inodes[i].addrs[12];
    assert Ref(f, i, 12) == ind;
    forall j, q | 0 <= j < |f.inodes| && 0 <= q < NREF
      ensures Ref(g, j, q) == if j == i && q == 13 + e then b else Ref(f, j, q)
    {
      if q >= 13 && f.inodes[j].addrs[12] != 0 {
        assert Ref(f, j, 12) == f.inodes[j].addrs[12];
        GetSetWord(f.blocks[ind], e, b, q - 13);
      }
    }
    forall c | 0 <= c < f.lay.size ensures Used(g, c) == Used(f, c) { BitmapIsMeta(f, c); }
  }

  // ----- freeing

  /** bfree finds the bit of an owned block set: "freeing free block" cannot happen. */
  lemma OwnedIsUsed(f: Fs, extra: set<nat>, ign: set<(nat, nat)>, i: nat, p: nat)
    requires InvX(f, extra, ign) && i < |f.inodes| && p < NREF && (i, p) !in ign && Ref(f, i, p) != 0
    ensures f.lay.nmeta <= Ref(f, i, p) < f.lay.size && Used(f, Ref(f, i, p))
  {
    assert Owned(f, ign, Ref(f, i, p));
  }

  lemma OwnedIgnoring(f: Fs, ign: set<(nat, nat)>, i: nat, p: nat, c: nat)
    requires Shape(f) && RefsDistinct(f) && i < |f.inodes| && p < NREF && (i, p) !in ign && c != 0
    ensures Owned(f, ign + {(i, p)}, c) == (Owned(f, ign, c) && c != Ref(f, i, p))
  {
    if Owned(f, ign, c) && c != Ref(f, i, p) {
      var j, q :| 0 <= j < |f.inodes| && 0 <= q < NREF && (j, q) !in ign && Ref(f, j, q) == c;
      assert (j, q) !in ign + {(i, p)};
    }
  }

  lemma ClearRefs(f: Fs, b: nat)
    requires Shape(f) && RefsInRange(f) && b < f.lay.size
    ensures Shape(ClearBit(f, b)) && SameRefs(f, ClearBit(f, b))
  {
    BitmapIsMeta(f, b);
    NotIndirect(f, BitmapBlock(f.lay, b));
    RefsKept(f, ClearBit(f, b), BitmapBlock(f.lay, b));
  }

  /** bfree of an owned block, its position not cleared yet. */
  lemma FreeKeeps(f: Fs, extra: set<nat>, ign: set<(nat, nat)>, i: nat, p: nat)
    requires InvX(f, extra, ign) && i < |f.inodes| && p < NREF && (i, p) !in ign && Ref(f, i, p) != 0
    ensures Ref(f, i, p) < f.lay.size && InvX(ClearBit(f, Ref(f, i, p)), extra, ign + {(i, p)})
    ensures SameRefs(f, ClearBit(f, Ref(f, i, p)))
  {
    var b := Ref(f, i, p);
    OwnedIsUsed(f, extra, ign, i, p);
    assert b !in extra by { assert (i, p) !in {}; assert Owned(f, {}, b); }
    var g := ClearBit(f, b);
    ClearRefs(f, b);
    forall c | 0 <= c < f.lay.size
      ensures Used(g, c) <==> c < f.lay.nmeta || c in extra || Owned(g, ign + {(i, p)}, c)
    {
      ClearBitUsed(f, b, c);
      OwnedSame(f, g, ign + {(i, p)}, c);
      if c != 0 { OwnedIgnoring(f, ign, i, p, c); }
    }
    forall c | c in extra ensures f.lay.nmeta <= c < f.lay.size && !Owned(g, {}, c) { OwnedSame(f, g, {}, c); }
  }

  /** An empty position may be ignored. */
  lemma IgnoreEmpty(f: Fs, extra: set<nat>, ign: set<(nat, nat)>, i: nat, p: nat)
    requires InvX(f, extra, ign) && i < |f.inodes| && p < NREF && Ref(f, i, p) == 0
    ensures InvX(f, extra, ign + {(i, p)})
  {
    forall c | 0 <= c < f.lay.size
      ensures Used(f, c) <==> c < f.lay.nmeta || c in extra || Owned(f, ign + {(i, p)}, c)
    {
      if c != 0 && Owned(f, ign, c) {
        var j, q :| 0 <= j < |f.inodes| && 0 <= q < NREF && (j, q) !in ign && Ref(f, j, q) == c;
        assert (j, q) !in ign + {(i, p)};
      }
    }
  }

  /** Clearing ignored positions ends the exception for them. */
  lemma ClearKeeps(f: Fs, g: Fs, extra: set<nat>, ign: set<(nat, nat)>)
    requires InvX(f, extra, ign) && Shape(g) && SameBits(f, g) && |g.inodes| == |f.inodes|
    requires forall j, q :: 0 <= j < |f.inodes| && 0 <= q < NREF ==>
      Ref(g, j, q) == if (j, q) in ign then 0 else Ref(f, j, q)
    ensures InvX(g, extra, {})
  {
    forall c | 0 < c < f.lay.size ensures Owned(g, {}, c) == Owned(f, ign, c) {
      if Owned(g, {}, c) {
        var j, q :| 0 <= j < |g.inodes| && 0 <= q < NREF && (j, q) !in {} && Ref(g, j, q) == c;
        assert (j, q) !in ign && Ref(f, j, q) == c;
      }
      if Owned(f, ign, c) {
        var j, q :| 0 <= j < |f.inodes| && 0 <= q < NREF && (j, q) !in ign && Ref(f, j, q) == c;
        assert Ref(g, j, q) == c;
      }
    }
    forall c | c in extra ensures !Owned(g, {}, c) { OwnedMore(f, ign, c); }
  }

  lemma OwnedMore(f: Fs, ign: set<(nat, nat)>, c: nat)
    requires Shape(f)
    ensures Owned(f, ign, c) ==> Owned(f, {}, c)
  {
    if Owned(f, ign, c) {
      var j, q :| 0 <= j < |f.inodes| && 0 <= q < NREF && (j, q) !in ign && Ref(f, j, q) == c;
      assert (j, q) !in {};
    }
  }

  // ----- file content

  /** Position of the address of file block `n`. */
  function Pos(n: nat): nat { if n < 12 then n else n + 1 }

  function DataBlock(f: Fs, i: nat, n: nat): Word
    requires Shape(f) && i < |f.inodes| && n < MAXFILE
  {
    Ref(f, i, Pos(n))
  }

  predicate Mapped(f: Fs, i: nat, n: nat)
    requires Shape(f) && i < |f.inodes| && n < MAXFILE
  {
    0 < DataBlock(f, i, n) < f.lay.size
  }

  function ByteAt(f: Fs, i: nat, k: nat): Byte
    requires Shape(f) && i < |f.inodes| && k < 268 * 1024 && Mapped(f, i, k / 1024)
  {
    f.blocks[DataBlock(f, i, k / 1024)][k % 1024]
  }

  /** Every byte below the size lies in a block. */
  predicate NoHoles(f: Fs, i: nat)
    requires Shape(f) && i < |f.inodes|
  {
    f.inodes[i].size <= 268 * 1024 && forall n :: 0 <= n < MAXFILE && n * 1024 < f.inodes[i].size ==> Mapped(f, i, n)
  }

  function Content(f: Fs, i: nat): (s: seq<Byte>)
    requires Shape(f) && i < |f.inodes| && NoHoles(f, i)
    ensures |s| == f.inodes[i].size
  {
    seq(f.inodes[i].size, k requires 0 <= k < f.inodes[i].size => ByteAt(f, i, k))
  }

  /** Every mapped file block keeps its address and its bytes. */
  ghost predicate DataKept(f: Fs, g: Fs)
    requires Shape(f) && Shape(g)
  {
    && g.lay == f.lay && |g.inodes| == |f.inodes|
    && (forall j, n :: 0 <= j < |f.inodes| && 0 <= n < MAXFILE && Mapped(f, j, n) ==>
          DataBlock(g, j, n) == DataBlock(f, j, n) && g.blocks[DataBlock(f, j, n)] == f.blocks[DataBlock(f, j, n)])
  }

  lemma TakeData(f: Fs, extra: set<nat>, b: nat)
    requires InvX(f, extra, {}) && b < f.lay.size && !Used(f, b)
    ensures Shape(Take(f, b)) && DataKept(f, Take(f, b))
  {
    TakeKeeps(f, extra, b);
    BitmapIsMeta(f, b);
    forall j, n | 0 <= j < |f.inodes| && 0 <= n < MAXFILE && Mapped(f, j, n)
      ensures Take(f, b).blocks[DataBlock(f, j, n)] == f.blocks[DataBlock(f, j, n)]
    {
      assert DataBlock(f, j, n) == Ref(f, j, Pos(n));
      assert (j, Pos(n)) !in {};
    }
  }

  lemma SetAddrData(f: Fs, i: nat, p: nat, b: Word)
    requires Shape(f) && i < |f.inodes| && p < 13 && b < f.lay.size && Ref(f, i, p) == 0
    requires p == 12 ==> f.blocks[b] == ZeroBlock()
    ensures Shape(SetAddr(f, i, p, b)) && DataKept(f, SetAddr(f, i, p, b))
  {
    SetAddrRefs(f, i, p, b);
  }

  lemma SetEntryData(f: Fs, extra: set<nat>, i: nat, e: nat, b: Word)
    requires InvX(f, extra, {}) && i < |f.inodes| && e < NINDIRECT && f.inodes[i].addrs[12] != 0 &&
      Ref(f, i, 13 + e) == 0
    ensures Shape(SetEntry(f, i, e, b)) && DataKept(f, SetEntry(f, i, e, b))
  {
    SetEntryRefs(f, extra, i, e, b);
    var ind := f.inodes[i].addrs[12];
    forall j, n | 0 <= j < |f.inodes| && 0 <= n < MAXFILE && Mapped(f, j, n)
      ensures DataBlock(f, j, n) != ind
    {
      assert DataBlock(f, j, n) == Ref(f, j, Pos(n)) && ind == Ref(f, i, 12);
    }
  }

  // ----- allocation for a file block

  /** The blocks balloc may return. */
  ghost function FreeSet(f: Fs): set<nat>
    requires Shape(f)
  {
    set b | 0 <= b < f.lay.size && !Used(f, b)
  }

  lemma TakeFree(f: Fs, b: nat)
    requires Shape(f) && f.lay.nmeta <= b < f.lay.size && !Used(f, b)
    ensures Shape(Take(f, b)) && |FreeSet(Take(f, b))| + 1 == |FreeSet(f)|
  {
    TakeUsed(f, b, b);
    forall c | 0 <= c < f.lay.size ensures Used(Take(f, b), c) == (c == b || Used(f, c)) { TakeUsed(f, b, c); }
    assert FreeSet(Take(f, b)) == FreeSet(f) - {b};
  }

  lemma SameFree(f: Fs, g: Fs)
    requires Shape(f) && Shape(g) && SameBits(f, g)
    ensures FreeSet(g) == FreeSet(f)
  {
  }

  lemma FullExactly(f: Fs)
    requires Shape(f)
    ensures Full(f) <==> |FreeSet(f)| == 0
  {
    if |FreeSet(f)| == 0 { forall b | 0 <= b < f.lay.size ensures Used(f, b) { assert b !in FreeSet(f); } }
    if Full(f) { assert FreeSet(f) == {}; }
  }

  /** Blocks that file block `n` of inode `i` takes: none if it has one, else itself and the block of
      indirect addresses if that is missing. */
  function Cost(f: Fs, i: nat, n: nat): nat
    requires Shape(f) && i < |f.inodes| && n < MAXFILE
  {
    if Mapped(f, i, n) then 0 else 1 + if n >= NDIRECT && f.inodes[i].addrs[12] == 0 then 1 else 0
  }

  /** The file block is there afterwards exactly if there were enough free blocks. */
  ghost predicate Paid(f: Fs, g: Fs, i: nat, n: nat, ok: bool) {
    && Shape(f) && Shape(g) && i < |f.inodes| == |g.inodes| && n < MAXFILE
    && (ok <==> Cost(f, i, n) <= |FreeSet(f)|)
    && (ok ==> Mapped(g, i, n) && |FreeSet(g)| + Cost(f, i, n) == |FreeSet(f)|)
    && (ok ==> (g.inodes[i].addrs[12] == 0 <==> f.inodes[i].addrs[12] == 0 && n < NDIRECT))
  }

  /** File block `n` of inode `i` may have got an address; no other file block changed. */
  ghost predicate Grown(f: Fs, g: Fs, i: nat, n: nat)
    requires Shape(f) && Shape(g) && i < |f.inodes|
  {
    && DataKept(f, g)
    && g.inodes[i].size == f.inodes[i].size
    && (forall j :: 0 <= j < |f.inodes| && j != i ==> g.inodes[j] == f.inodes[j])
    && (forall j, m :: 0 <= j < |f.inodes| && 0 <= m < MAXFILE && (j != i || m != n) ==>
          DataBlock(g, j, m) == DataBlock(f, j, m))
  }

  lemma GrownTwice(f: Fs, g: Fs, h: Fs, i: nat, n: nat)
    requires Shape(f) && Shape(g) && Shape(h) && i < |f.inodes| && n < MAXFILE && Grown(f, g, i, n) && Grown(g, h, i, n)
    ensures Grown(f, h, i, n)
  {
    forall j, m | 0 <= j < |f.inodes| && 0 <= m < MAXFILE && Mapped(f, j, m)
      ensures DataBlock(h, j, m) == DataBlock(f, j, m) && h.blocks[DataBlock(f, j, m)] == f.blocks[DataBlock(f, j, m)]
    {
      assert Mapped(g, j, m);
    }
  }

  ghost predicate GotIndirect(f: Fs, g: Fs, i: nat, n: nat, ok: bool) {
    && Shape(f) && Shape(g) && i < |f.inodes| == |g.inodes| && NDIRECT <= n < MAXFILE
    && (f.inodes[i].addrs[12] != 0 ==> ok && g == f)
    && (f.inodes[i].addrs[12] == 0 ==> (ok <==> 1 <= |FreeSet(f)|) && (ok ==> |FreeSet(g)| + 1 == |FreeSet(f)|))
    && (ok ==> g.inodes[i].addrs[12] != 0 && DataBlock(g, i, n) == DataBlock(f, i, n))
  }

  lemma PaidBoth(f: Fs, g: Fs, h: Fs, i: nat, n: nat, ok: bool)
    requires GotIndirect(f, g, i, n, true) && Paid(g, h, i, n, ok) && g.lay == f.lay
    ensures Paid(f, h, i, n, ok)
  {
    if f.inodes[i].addrs[12] == 0 { assert DataBlock(f, i, n) == 0; }
  }

  lemma AllocAddrFree(f: Fs, i: nat, p: nat, b: nat)
    requires Inv(f) && i < |f.inodes| && p < 13 && f.inodes[i].addrs[p] == 0 && b < f.lay.size && !Used(f, b)
    ensures var g := SetAddr(Take(f, b), i, p, b); Shape(g) && |FreeSet(g)| + 1 == |FreeSet(f)|
  {
    TakeKeeps(f, {}, b);
    TakeFree(f, b);
    SetAddrRefs(Take(f, b), i, p, b);
    SameFree(Take(f, b), SetAddr(Take(f, b), i, p, b));
  }

  lemma AllocEntryFree(f: Fs, i: nat, e: nat, b: nat)
    requires Inv(f) && i < |f.inodes| && e < NINDIRECT && f.inodes[i].addrs[12] != 0 && b < f.lay.size && !Used(f, b)
    ensures var g := SetEntry(Take(f, b), i, e, b); Shape(g) && |FreeSet(g)| + 1 == |FreeSet(f)|
  {
    TakeKeeps(f, {}, b);
    TakeFree(f, b);
    SetEntryRefs(Take(f, b), {} + {b}, i, e, b);
    SameFree(Take(f, b), SetEntry(Take(f, b), i, e, b));
  }

  /** `ip->addrs[p] = balloc()` */
  lemma AllocAddr(f: Fs, i: nat, p: nat, n: nat, b: nat)
    requires Inv(f) && i < |f.inodes| && p < 13 && n < MAXFILE && f.inodes[i].addrs[p] == 0 && b < f.lay.size &&
      !Used(f, b)
    requires p < 12 ==> p == n
    ensures var g := SetAddr(Take(f, b), i, p, b);
      && Inv(g) && Grown(f, g, i, n) && Ref(g, i, p) == b && b >= f.lay.nmeta
      && |FreeSet(g)| + 1 == |FreeSet(f)| && (p < 12 ==> g.inodes[i].addrs[12] == f.inodes[i].addrs[12])
      && (p == 12 && n >= 12 ==> DataBlock(g, i, n) == DataBlock(f, i, n))
  {
    var t := Take(f, b);
    var g := SetAddr(t, i, p, b);
    AllocAddrFree(f, i, p, b);
    TakeKeeps(f, {}, b);
    TakeData(f, {}, b);
    SetAddrRefs(t, i, p, b);
    SetAddrData(t, i, p, b);
    assert Ref(t, i, p) == 0;
    StoreKeeps(t, g, {} + {b}, i, p, b);
    assert {} + {b} - {b} == {};
    DataKeptTwice(f, t, g);
  }

  lemma DataKeptTwice(f: Fs, g: Fs, h: Fs)
    requires Shape(f) && Shape(g) && Shape(h) && DataKept(f, g) && DataKept(g, h)
    ensures DataKept(f, h)
  {
    forall j, m | 0 <= j < |f.inodes| && 0 <= m < MAXFILE && Mapped(f, j, m)
      ensures DataBlock(h, j, m) == DataBlock(f, j, m) && h.blocks[DataBlock(f, j, m)] == f.blocks[DataBlock(f, j, m)]
    {
      assert Mapped(g, j, m);
    }
  }

  /** `a[e] = balloc()` */
  lemma AllocEntry(f: Fs, i: nat, e: nat, b: nat)
    requires Inv(f) && i < |f.inodes| && e < NINDIRECT && f.inodes[i].addrs[12] != 0 && Ref(f, i, 13 + e) == 0
    requires b < f.lay.size && !Used(f, b)
    ensures var g := SetEntry(Take(f, b), i, e, b);
      && Inv(g) && Grown(f, g, i, 12 + e) && Ref(g, i, 13 + e) == b && b >= f.lay.nmeta
      && |FreeSet(g)| + 1 == |FreeSet(f)|
  {
    var t := Take(f, b);
    var g := SetEntry(t, i, e, b);
    AllocEntryFree(f, i, e, b);
    TakeKeeps(f, {}, b);
    TakeData(f, {}, b);
    SetEntryRefs(t, {} + {b}, i, e, b);
    SetEntryData(t, {} + {b}, i, e, b);
    assert Ref(t, i, 13 + e) == 0;
    StoreKeeps(t, g, {} + {b}, i, 13 + e, b);
    assert {} + {b} - {b} == {};
    DataKeptTwice(f, t, g);
  }

  function SetSize(f: Fs, i: nat, size: nat): Fs
    requires i < |f.inodes|
  {
    f.(inodes := f.inodes[i := f.inodes[i].(size := size)])
  }

  /** The size has no part in ownership. */
  lemma SetSizeKeeps(f: Fs, i: nat, size: nat)
    requires Inv(f) && i < |f.inodes|
    ensures var g := SetSize(f, i, size); Inv(g) && SameRefs(f, g) && OthersKept(f, g, i)
  {
    var g := SetSize(f, i, size);
    assert SameRefs(f, g);
    forall b | 0 <= b < f.lay.size ensures Used(g, b) == Used(f, b) && Owned(f, {}, b) == Owned(g, {}, b) {
      OwnedSame(f, g, {}, b);
    }
  }

  // ----- truncation

  /** Inodes other than `i` keep their record, their addresses and their bytes. */
  ghost predicate OthersKept(f: Fs, g: Fs, i: nat)
    requires Shape(f) && Shape(g)
  {
    && g.lay == f.lay && |g.inodes| == |f.inodes|
    && (forall j :: 0 <= j < |f.inodes| && j != i ==> g.inodes[j] == f.inodes[j])
    && (forall j, n :: 0 <= j < |f.inodes| && j != i && 0 <= n < MAXFILE ==> DataBlock(g, j, n) == DataBlock(f, j, n))
    && (forall j, n :: 0 <= j < |f.inodes| && j != i && 0 <= n < MAXFILE && Mapped(f, j, n) ==>
          g.blocks[DataBlock(f, j, n)] == f.blocks[DataBlock(f, j, n)])
  }

  lemma OthersKeptTwice(f: Fs, g: Fs, h: Fs, i: nat)
    requires Shape(f) && Shape(g) && Shape(h) && OthersKept(f, g, i) && OthersKept(g, h, i)
    ensures OthersKept(f, h, i)
  {
    forall j, n | 0 <= j < |f.inodes| && j != i && 0 <= n < MAXFILE && Mapped(f, j, n)
      ensures h.blocks[DataBlock(f, j, n)] == f.blocks[DataBlock(f, j, n)]
    {
      assert Mapped(g, j, n);
    }
  }

  lemma ClearBitOthers(f: Fs, b: nat, i: nat)
    requires Shape(f) && RefsInRange(f) && b < f.lay.size
    ensures Shape(ClearBit(f, b)) && OthersKept(f, ClearBit(f, b), i)
  {
    ClearRefs(f, b);
    BitmapIsMeta(f, b);
    forall j, n | 0 <= j < |f.inodes| && j != i && 0 <= n < MAXFILE && Mapped(f, j, n)
      ensures ClearBit(f, b).blocks[DataBlock(f, j, n)] == f.blocks[DataBlock(f, j, n)]
    {
      assert Ref(f, j, Pos(n)) == DataBlock(f, j, n);
    }
  }

  /** `bfree(ip->addrs[p]); ip->addrs[p] = 0` */
  lemma FreeAddr(f: Fs, i: nat, p: nat)
    requires Inv(f) && i < |f.inodes| && p < 12 && f.inodes[i].addrs[p] != 0
    ensures var b := f.inodes[i].addrs[p];
            b < f.lay.size && Used(f, b) &&
            var g := SetAddr(ClearBit(f, b), i, p, 0); Inv(g) && OthersKept(f, g, i)
  {
    var b := f.inodes[i].addrs[p];
    assert Ref(f, i, p) == b;
    OwnedIsUsed(f, {}, {}, i, p);
    FreeKeeps(f, {}, {}, i, p);
    ClearBitOthers(f, b, i);
    var c := ClearBit(f, b);
    var g := SetAddr(c, i, p, 0);
    SetAddrRefs(c, i, p, 0);
    ClearKeeps(c, g, {}, {} + {(i, p)});
  }

  /** Positions `lo` to `hi` of inode `i`. */
  ghost function Span(i: nat, lo: nat, hi: nat): (r: set<(nat, nat)>)
    ensures forall x :: x in r <==> x.0 == i && lo <= x.1 < hi
  {
    set q | lo <= q < hi :: (i, q)
  }

  lemma SpanGrows(i: nat, lo: nat, hi: nat)
    requires lo <= hi
    ensures Span(i, lo, hi) + {(i, hi)} == Span(i, lo, hi + 1)
  {
  }

  /** `if (a[e]) bfree(a[e])` */
  lemma FreeEntry(f: Fs, i: nat, e: nat)
    requires i < |f.inodes| && e < NINDIRECT && InvX(f, {}, Span(i, 13, 13 + e)) && f.inodes[i].addrs[12] != 0
    ensures var b := GetWord(f.blocks[f.inodes[i].addrs[12]], e);
            if b == 0 then InvX(f, {}, Span(i, 13, 13 + e + 1))
            else && b < f.lay.size && Used(f, b) && InvX(ClearBit(f, b), {}, Span(i, 13, 13 + e + 1))
                 && OthersKept(f, ClearBit(f, b), i)
                 && ClearBit(f, b).blocks[f.inodes[i].addrs[12]] == f.blocks[f.inodes[i].addrs[12]]
  {
    var ind := f.inodes[i].addrs[12];
    var b := GetWord(f.blocks[ind], e);
    assert Ref(f, i, 13 + e) == b && Ref(f, i, 12) == ind;
    SpanGrows(i, 13, 13 + e);
    if b == 0 {
      IgnoreEmpty(f, {}, Span(i, 13, 13 + e), i, 13 + e);
    } else {
      OwnedIsUsed(f, {}, Span(i, 13, 13 + e), i, 13 + e);
      FreeKeeps(f, {}, Span(i, 13, 13 + e), i, 13 + e);
      ClearBitOthers(f, b, i);
      BitmapIsMeta(f, b);
    }
  }

  /** `bfree(ip->addrs[NDIRECT]); ip->addrs[NDIRECT] = 0` once every entry is freed. */
  lemma FreeIndirect(f: Fs, i: nat)
    requires i < |f.inodes| && InvX(f, {}, Span(i, 13, 269)) && f.inodes[i].addrs[12] != 0
    ensures var b := f.inodes[i].addrs[12];
            b < f.lay.size && Used(f, b) &&
            var g := SetAddr(ClearBit(f, b), i, 12, 0); Inv(g) && OthersKept(f, g, i)
  {
    var b := f.inodes[i].addrs[12];
    var ign := Span(i, 13, 269) + {(i, 12)};
    assert Ref(f, i, 12) == b;
    OwnedIsUsed(f, {}, Span(i, 13, 269), i, 12);
    FreeKeeps(f, {}, Span(i, 13, 269), i, 12);
    ClearBitOthers(f, b, i);
    var c := ClearBit(f, b);
    var g := SetAddr(c, i, 12, 0);
    forall x | 0 <= x < f.lay.size ensures Used(g, x) == Used(c, x) {}
    forall j, q | 0 <= j < |c.inodes| && 0 <= q < NREF
      ensures Ref(g, j, q) == if (j, q) in ign then 0 else Ref(c, j, q)
    {}
    ClearKeeps(c, g, {}, ign);
  }

  // ----- reading and writing

  /** Bytes of one block are a slice of the content. */
  lemma ContentSlice(f: Fs, i: nat, off: nat, m: nat)
    requires Shape(f) && i < |f.inodes| && NoHoles(f, i) && off + m <= f.inodes[i].size && off % 1024 + m <= 1024 &&
      m > 0
    ensures off / 1024 < MAXFILE && Mapped(f, i, off / 1024)
    ensures f.blocks[DataBlock(f, i, off / 1024)][off % 1024..off % 1024 + m] == Content(f, i)[off..off + m]
  {
    var n := off / 1024;
    assert n * 1024 <= off;
    assert Mapped(f, i, n);
    var x, y := f.blocks[DataBlock(f, i, n)][off % 1024..off % 1024 + m], Content(f, i)[off..off + m];
    forall k | 0 <= k < m ensures x[k] == y[k] {
      SameBlock(off, k);
      assert y[k] == ByteAt(f, i, off + k);
    }
  }

  lemma SliceJoin(s: seq<Byte>, a: nat, b: nat, c: nat)
    requires a <= b <= c <= |s|
    ensures s[a..b] + s[b..c] == s[a..c]
  {
  }

  /** memmove into the buffer of file block `n`. */
  function PutData(f: Fs, i: nat, n: nat, b: Block): Fs
    requires Shape(f) && i < |f.inodes| && n < MAXFILE && Mapped(f, i, n)
  {
    f.(blocks := f.blocks[DataBlock(f, i, n) := b])
  }

  /** File data lives apart from bitmap, indirect blocks and other file data. */
  lemma PutDataKeeps(f: Fs, i: nat, n: nat, b: Block)
    requires Inv(f) && i < |f.inodes| && n < MAXFILE && Mapped(f, i, n)
    ensures var g := PutData(f, i, n, b); Inv(g) && SameRefs(f, g)
    ensures var g := PutData(f, i, n, b);
            forall j, m :: 0 <= j < |f.inodes| && 0 <= m < MAXFILE && Mapped(f, j, m) && (j != i || m != n) ==>
              g.blocks[DataBlock(f, j, m)] == f.blocks[DataBlock(f, j, m)]
  {
    var g, a := PutData(f, i, n, b), DataBlock(f, i, n);
    assert a == Ref(f, i, Pos(n));
    forall j | 0 <= j < |f.inodes| ensures f.inodes[j].addrs[12] != a { assert Ref(f, j, 12) == f.inodes[j].addrs[12]; }
    RefsKept(f, g, a);
    forall x | 0 <= x < f.lay.size ensures Used(g, x) == Used(f, x) && Owned(f, {}, x) == Owned(g, {}, x) {
      BitmapIsMeta(f, x);
      OwnedSame(f, g, {}, x);
    }
    forall j, m | 0 <= j < |f.inodes| && 0 <= m < MAXFILE && Mapped(f, j, m) && (j != i || m != n)
      ensures DataBlock(f, j, m) != a
    {
      assert DataBlock(f, j, m) == Ref(f, j, Pos(m));
    }
  }

  /** File blocks from `lo` up to `hi` without a block of their own. */
  function Missing(f: Fs, i: nat, lo: nat, hi: nat): nat
    requires Shape(f) && i < |f.inodes| && hi <= MAXFILE
  {
    if lo >= hi then 0 else Missing(f, i, lo, hi - 1) + if Mapped(f, i, hi - 1) then 0 else 1
  }

  /** Blocks that writing to these file blocks takes. */
  function Need(f: Fs, i: nat, lo: nat, hi: nat): nat
    requires Shape(f) && i < |f.inodes| && hi <= MAXFILE
  {
    if lo >= hi then 0 else Missing(f, i, lo, hi) + if hi > NDIRECT && f.inodes[i].addrs[12] == 0 then 1 else 0
  }

  /** The file block after the last byte of a range that starts in block `lo`. */
  function LastBlock(off: nat, n: nat): nat { if n == 0 then off / 1024 else (off + n - 1) / 1024 + 1 }

  /** The file blocks from `lo` up to `n` have been allocated since `f0`. */
  ghost predicate Tracks(f0: Fs, f: Fs, i: nat, lo: nat, n: nat) {
    && Shape(f0) && Shape(f) && i < |f0.inodes| == |f.inodes| && n <= MAXFILE
    && (forall m :: 0 <= m < MAXFILE ==> (Mapped(f, i, m) <==> Mapped(f0, i, m) || lo <= m < n))
    && (f.inodes[i].addrs[12] == 0 <==> f0.inodes[i].addrs[12] == 0 && !(lo < n && n > NDIRECT))
    && |FreeSet(f)| + Need(f0, i, lo, n) == |FreeSet(f0)|
  }

  lemma NeedStep(f0: Fs, f: Fs, i: nat, lo: nat, n: nat)
    requires Tracks(f0, f, i, lo, n) && lo <= n < MAXFILE
    ensures Need(f0, i, lo, n + 1) == Need(f0, i, lo, n) + Cost(f, i, n)
  {
    assert Mapped(f, i, n) <==> Mapped(f0, i, n);
    if n >= NDIRECT && f0.inodes[i].addrs[12] == 0 { assert DataBlock(f0, i, n) == 0; }
    assert Missing(f0, i, lo, lo) == 0;
  }

  lemma TracksStep(f0: Fs, f: Fs, g: Fs, i: nat, lo: nat, n: nat, ok: bool)
    requires Tracks(f0, f, i, lo, n) && lo <= n < MAXFILE && Paid(f, g, i, n, ok) && Grown(f, g, i, n)
    ensures ok ==> Tracks(f0, g, i, lo, n + 1)
    ensures !ok ==> |FreeSet(f0)| < Need(f0, i, lo, n + 1)
  {
    NeedStep(f0, f, i, lo, n);
    var n' := n + 1;
    forall m | 0 <= m < MAXFILE && ok ensures Mapped(g, i, m) <==> Mapped(f0, i, m) || lo <= m < n' {
      assert Mapped(f, i, m) <==> Mapped(f0, i, m) || lo <= m < n;
      if m != n { assert DataBlock(g, i, m) == DataBlock(f, i, m); }
    }
  }

  lemma {:induction false} MissingGrows(f: Fs, i: nat, lo: nat, n: nat, hi: nat)
    requires Shape(f) && i < |f.inodes| && n <= hi <= MAXFILE
    ensures Missing(f, i, lo, n) <= Missing(f, i, lo, hi)
  {
    if n < hi { MissingGrows(f, i, lo, n, hi - 1); }
  }

  lemma TracksStart(f: Fs, i: nat, lo: nat)
    requires Shape(f) && i < |f.inodes| && lo <= MAXFILE
    ensures Tracks(f, f, i, lo, lo)
  {
  }

  /** Bytes copied into a block change none of this. */
  lemma TracksPut(f0: Fs, f: Fs, i: nat, lo: nat, hi: nat, n: nat, b: Block)
    requires Tracks(f0, f, i, lo, hi) && Inv(f) && n < MAXFILE && Mapped(f, i, n)
    ensures Tracks(f0, PutData(f, i, n, b), i, lo, hi)
  {
    var g := PutData(f, i, n, b);
    PutDataKeeps(f, i, n, b);
    forall m | 0 <= m < MAXFILE ensures Mapped(g, i, m) <==> Mapped(f, i, m) {
      assert Ref(g, i, Pos(m)) == Ref(f, i, Pos(m));
    }
    PutDataBits(f, i, n, b);
    SameFree(f, g);
  }

  lemma PutDataBits(f: Fs, i: nat, n: nat, b: Block)
    requires Inv(f) && i < |f.inodes| && n < MAXFILE && Mapped(f, i, n)
    ensures Shape(PutData(f, i, n, b)) && SameBits(f, PutData(f, i, n, b))
  {
    var g, a := PutData(f, i, n, b), DataBlock(f, i, n);
    assert a == Ref(f, i, Pos(n)) && f.lay.nmeta <= a;
    forall x | 0 <= x < f.lay.size ensures Used(g, x) == Used(f, x) { BitmapIsMeta(f, x); }
  }

  /** Bytes `off` to `off + tot` of inode `i` hold `src`; every other byte is as in `f0`. */
  ghost predicate Wrote(f0: Fs, f: Fs, i: nat, off: nat, src: seq<Byte>, tot: nat)
    requires Shape(f0) && Shape(f) && i < |f0.inodes| && tot <= |src| && off + tot <= 268 * 1024
  {
    && OthersKept(f0, f, i) && f.inodes[i].size == f0.inodes[i].size
    && (forall k :: 0 <= k < 268 * 1024 && Mapped(f0, i, k / 1024) ==> Mapped(f, i, k / 1024))
    && (forall k :: off <= k < off + tot ==> Mapped(f, i, k / 1024))
    && (forall k {:trigger ByteAt(f, i, k)} :: off <= k < off + tot ==> ByteAt(f, i, k) == src[k - off])
    && (forall k {:trigger ByteAt(f, i, k)} ::
          0 <= k < 268 * 1024 && (k < off || off + tot <= k) && Mapped(f0, i, k / 1024) ==>
          ByteAt(f, i, k) == ByteAt(f0, i, k))
  }

  /** writei after `tot` bytes, with the file blocks up to `n` allocated. */
  ghost predicate Progress(f0: Fs, f: Fs, i: nat, off: nat, src: seq<Byte>, tot: nat, n: nat) {
    && tot <= |src| && off + tot <= 268 * 1024
    && exists lo: nat ::
         lo == off / 1024 && Tracks(f0, f, i, lo, n) && Inv(f) && Wrote(f0, f, i, off, src, tot)
  }

  lemma ProgressNow(f0: Fs, f: Fs, i: nat, off: nat, src: seq<Byte>, tot: nat, n: nat)
    requires Progress(f0, f, i, off, src, tot, n)
    ensures Tracks(f0, f, i, off / 1024, n) && Inv(f) && Wrote(f0, f, i, off, src, tot)
  {
  }

  lemma ProgressStart(f: Fs, i: nat, off: nat, src: seq<Byte>)
    requires Inv(f) && i < |f.inodes| && off <= 268 * 1024
    ensures Progress(f, f, i, off, src, 0, off / 1024)
  {
    TracksStart(f, i, off / 1024);
    WroteStart(f, i, off, src);
  }

  lemma ProgressGrown(f0: Fs, f: Fs, g: Fs, i: nat, off: nat, src: seq<Byte>, tot: nat, n: nat, ok: bool)
    requires Progress(f0, f, i, off, src, tot, n) && n < MAXFILE && off / 1024 <= n && Inv(g)
    requires Paid(f, g, i, n, ok) && Grown(f, g, i, n)
    ensures ok ==> Progress(f0, g, i, off, src, tot, n + 1)
    ensures !ok ==> Shape(f0) && i < |f0.inodes| == |g.inodes| && |FreeSet(f0)| < Need(f0, i, off / 1024, n + 1)
  {
    ProgressNow(f0, f, i, off, src, tot, n);
    TracksStep(f0, f, g, i, off / 1024, n, ok);
    if ok {
      WroteGrown(f0, f, g, i, off, src, tot, n);
      assert Tracks(f0, g, i, off / 1024, n + 1);
    }
  }

  lemma ProgressPut(f0: Fs, g: Fs, i: nat, off: nat, src: seq<Byte>, tot: nat, piece: seq<Byte>)
    requires |piece| > 0 && tot + |piece| <= |src| && off + tot + |piece| <= 268 * 1024
    requires piece == src[tot..tot + |piece|] && (off + tot) % 1024 + |piece| <= 1024 && (off + tot) / 1024 < MAXFILE
    requires Progress(f0, g, i, off, src, tot, (off + tot) / 1024 + 1) && Mapped(g, i, (off + tot) / 1024)
    ensures var n := (off + tot) / 1024;
      var h := PutData(g, i, n, Patch(g.blocks[DataBlock(g, i, n)], (off + tot) % 1024, piece));
      Progress(f0, h, i, off, src, tot + |piece|, n + 1)
  {
    var n := (off + tot) / 1024;
    var b := Patch(g.blocks[DataBlock(g, i, n)], (off + tot) % 1024, piece);
    ProgressNow(f0, g, i, off, src, tot, n + 1);
    WrotePiece(f0, g, i, off, src, tot, piece);
    TracksPut(f0, g, i, off / 1024, n + 1, n, b);
  }

  /** Allocating the next block changes no byte. */
  lemma WroteGrown(f0: Fs, f: Fs, g: Fs, i: nat, off: nat, src: seq<Byte>, tot: nat, n: nat)
    requires Shape(f0) && Shape(f) && Shape(g) && i < |f0.inodes| && tot <= |src| && off + tot <= 268 * 1024 &&
      n < MAXFILE
    requires Wrote(f0, f, i, off, src, tot) && Grown(f, g, i, n)
    ensures Wrote(f0, g, i, off, src, tot)
  {
    forall j, m | 0 <= j < |f0.inodes| && j != i && 0 <= m < MAXFILE && Mapped(f0, j, m)
      ensures g.blocks[DataBlock(f0, j, m)] == f0.blocks[DataBlock(f0, j, m)]
    {
      assert Mapped(f, j, m);
    }
    forall k | 0 <= k < 268 * 1024 && Mapped(f, i, k / 1024)
      ensures Mapped(g, i, k / 1024) && ByteAt(g, i, k) == ByteAt(f, i, k)
    {
    }
  }

  /** Copying the next piece into its block. */
  lemma WrotePiece(f0: Fs, g: Fs, i: nat, off: nat, src: seq<Byte>, tot: nat, piece: seq<Byte>)
    requires Shape(f0) && Inv(g) && i < |f0.inodes| && |piece| > 0
    requires tot + |piece| <= |src| && off + tot + |piece| <= 268 * 1024 && piece == src[tot..tot + |piece|]
    requires (off + tot) % 1024 + |piece| <= 1024
    requires Wrote(f0, g, i, off, src, tot) && Mapped(g, i, (off + tot) / 1024)
    ensures var n := (off + tot) / 1024;
            var h := PutData(g, i, n, Patch(g.blocks[DataBlock(g, i, n)], (off + tot) % 1024, piece));
            Inv(h) && Wrote(f0, h, i, off, src, tot + |piece|)
  {
    var n, o := (off + tot) / 1024, (off + tot) % 1024;
    var b := Patch(g.blocks[DataBlock(g, i, n)], o, piece);
    var h := PutData(g, i, n, b);
    PutDataKeeps(g, i, n, b);
    forall k | 0 <= k < 268 * 1024 && Mapped(g, i, k / 1024)
      ensures Mapped(h, i, k / 1024)
      ensures ByteAt(h, i, k) == if off + tot <= k < off + tot + |piece| then src[k - off] else ByteAt(g, i, k)
    {
      PieceByte(off + tot, |piece|, k);
    }
    forall k | off <= k < off + tot + |piece| ensures Mapped(g, i, k / 1024) {
      if k >= off + tot { PieceByte(off + tot, |piece|, k); }
    }
    PieceOthers(f0, g, h, i, n);
  }

  lemma PieceOthers(f0: Fs, g: Fs, h: Fs, i: nat, n: nat)
    requires Shape(f0) && Shape(g) && Shape(h) && i < |f0.inodes| && OthersKept(f0, g, i) && SameRefs(g, h)
    requires h.lay == g.lay && h.inodes == g.inodes && n < MAXFILE
    requires forall j, m :: 0 <= j < |g.inodes| && 0 <= m < MAXFILE && Mapped(g, j, m) && (j != i || m != n) ==>
              h.blocks[DataBlock(g, j, m)] == g.blocks[DataBlock(g, j, m)]
    ensures OthersKept(f0, h, i)
  {
    forall j, m | 0 <= j < |f0.inodes| && j != i && 0 <= m < MAXFILE && Mapped(f0, j, m)
      ensures h.blocks[DataBlock(f0, j, m)] == f0.blocks[DataBlock(f0, j, m)]
    {
      assert Mapped(g, j, m);
    }
  }

  lemma WroteStart(f: Fs, i: nat, off: nat, src: seq<Byte>)
    requires Shape(f) && i < |f.inodes| && off <= 268 * 1024
    ensures Wrote(f, f, i, off, src, 0)
  {
  }

  /** With the whole of `src` written and the size adjusted, the content is the splice. */
  lemma WroteAll(f0: Fs, f: Fs, i: nat, off: nat, src: seq<Byte>)
    requires Shape(f0) && Inv(f) && i < |f0.inodes| && NoHoles(f0, i) && off <= f0.inodes[i].size &&
      off + |src| <= 268 * 1024
    requires Wrote(f0, f, i, off, src, |src|)
    ensures var size := f0.inodes[i].size;
            var g := SetSize(f, i, if off + |src| > size then off + |src| else size);
            Inv(g) && NoHoles(g, i) && OthersKept(f0, g, i) && Content(g, i) == Splice(Content(f0, i), off, src)
  {
    var size := f0.inodes[i].size;
    var size' := if off + |src| > size then off + |src| else size;
    var g := SetSize(f, i, size');
    SetSizeKeeps(f, i, size');
    OthersKeptTwice(f0, f, g, i);
    forall k | 0 <= k < size' ensures Mapped(f, i, k / 1024) && Mapped(g, i, k / 1024) {
      BlockOf(k);
      if k < size { assert Mapped(f0, i, k / 1024); }
      assert Mapped(f, i, k / 1024);
      assert g.lay == f.lay && DataBlock(g, i, k / 1024) == DataBlock(f, i, k / 1024);
    }
    forall n | 0 <= n < MAXFILE && n * 1024 < size' ensures Mapped(g, i, n) {
      assert n * 1024 / 1024 == n;
    }
    SpliceBytes(f0, f, g, i, off, src, size');
  }

  lemma BlockOf(k: nat)
    requires k < 268 * 1024
    ensures k / 1024 < MAXFILE && k / 1024 * 1024 <= k
  {
  }

  lemma SpliceBytes(f0: Fs, f: Fs, g: Fs, i: nat, off: nat, src: seq<Byte>, size': nat)
    requires Shape(f0) && Shape(f) && Shape(g) && i < |f0.inodes| && NoHoles(f0, i) && off <= f0.inodes[i].size &&
      off + |src| <= 268 * 1024
    requires Wrote(f0, f, i, off, src, |src|) &&
      size' == (if off + |src| > f0.inodes[i].size then off + |src| else f0.inodes[i].size)
    requires g == SetSize(f, i, size') && NoHoles(g, i)
    ensures Content(g, i) == Splice(Content(f0, i), off, src)
  {
    var c, d := Content(g, i), Splice(Content(f0, i), off, src);
    forall k | 0 <= k < size' ensures c[k] == d[k] {
      BlockOf(k);
      assert Mapped(g, i, k / 1024);
      assert c[k] == ByteAt(g, i, k) == ByteAt(f, i, k);
      if k < off || off + |src| <= k {
        assert Mapped(f0, i, k / 1024);
        assert ByteAt(f0, i, k) == Content(f0, i)[k];
      }
    }
  }

  /** Files other than `i` read the same. */
  lemma OthersRead(f: Fs, g: Fs, i: nat, j: nat)
    requires Shape(f) && Shape(g) && OthersKept(f, g, i) && j < |f.inodes| && j != i && NoHoles(f, j)
    ensures NoHoles(g, j) && Content(g, j) == Content(f, j)
  {
    forall n | 0 <= n < MAXFILE && n * 1024 < g.inodes[j].size ensures Mapped(g, j, n) { assert Mapped(f, j, n); }
    forall k | 0 <= k < f.inodes[j].size ensures Content(g, j)[k] == Content(f, j)[k] {
      BlockOf(k);
      assert Mapped(f, j, k / 1024);
    }
  }

  // ----- the operations

  /** writei's return value -1, its panic, or the number of bytes. */
  datatype WriteResult = Failed | Panicked | Written(n: nat)

  lemma {:induction false} TestBit(x: nat, i: nat)
    ensures And(x, Pow2(i)) == if Bit(x, i) then Pow2(i) else 0
  {
    if x == 0 {
      BitZero(i);
    } else if i == 0 {
    } else {
      TestBit(x / 2, i - 1);
    }
  }

  /** Block `b` is the first of the bitmap that is clear. */
  ghost predicate FirstClear(f: Fs, b: nat)
    requires Shape(f)
  {
    b < f.lay.size && !Used(f, b) && forall c :: 0 <= c < b ==> Used(f, c)
  }

  ghost predicate Full(f: Fs)
    requires Shape(f)
  {
    forall b :: 0 <= b < f.lay.size ==> Used(f, b)
  }

  class FileSystem {
    const lay: Layout
    var blocks: seq<Block>
    var inodes: seq<Inode>

    constructor (f: Fs)
      ensures Value() == f
    {
      lay, blocks, inodes := f.lay, f.blocks, f.inodes;
    }

    ghost function Value(): Fs
      reads this
    {
      Fs(lay, blocks, inodes)
    }

    /** balloc's search; `lay.size` when no bit is clear. */
    method FindClear() returns (r: nat)
      requires Shape(Value())
      ensures r <= lay.size && (r < lay.size ==> FirstClear(Value(), r)) && (r == lay.size ==> Full(Value()))
    {
      var b := 0;
      while b < lay.size
        invariant b % 8192 == 0 && forall c :: 0 <= c < b && c < lay.size ==> Used(Value(), c)
      {
        var data := blocks[BitmapBlock(lay, b)];
        var bi := 0;
        while bi < 8192 && b + bi < lay.size
          invariant 0 <= bi <= 8192 && forall c :: 0 <= c < b + bi && c < lay.size ==> Used(Value(), c)
        {
          InBitmapBlock(b, bi);
          TestBit(data[bi / 8], bi % 8);
          if And(data[bi / 8], Pow2(bi % 8)) == 0 { return b + bi; }
          bi := bi + 1;
        }
        b := b + 8192;
      }
      r := lay.size;
    }

    /** balloc; no block left is its panic. */
    method Balloc(ghost extra: set<nat>) returns (r: Option<nat>)
      requires InvX(Value(), extra, {})
      modifies this`blocks
      ensures r.None? ==> Value() == old(Value()) && Full(Value())
      ensures r.Some? ==> FirstClear(old(Value()), r.value) && Value() == Take(old(Value()), r.value)
    {
      var b := FindClear();
      if b == lay.size { return None; }
      var n := BitmapBlock(lay, b);
      ByteMasks(BitmapValue(Value(), b), b % 8);
      blocks := blocks[n := blocks[n][BitmapByte(b) := Or(blocks[n][BitmapByte(b)], Pow2(b % 8))]];
      blocks := blocks[b := ZeroBlock()];
      r := Some(b);
    }

    /** bmap; its panics are a block number out of range and a full disk. */
    method Bmap(i: nat, bn: nat) returns (r: Option<Word>)
      requires Inv(Value()) && i < |inodes|
      modifies this`blocks, this`inodes
      ensures Inv(Value())
      ensures bn >= MAXFILE ==> r.None? && Value() == old(Value())
      ensures bn < MAXFILE ==> Grown(old(Value()), Value(), i, bn)
      ensures bn < MAXFILE && r.None? ==> Full(Value())
      ensures bn < MAXFILE ==> Paid(old(Value()), Value(), i, bn, r.Some?)
      ensures bn < MAXFILE && r.Some? ==> Mapped(Value(), i, bn) && DataBlock(Value(), i, bn) == r.value
      ensures bn < MAXFILE && Mapped(old(Value()), i, bn) ==> r.Some? && Value() == old(Value())
    {
      if bn < NDIRECT {
        assert Ref(Value(), i, bn) == inodes[i].addrs[bn];
        if inodes[i].addrs[bn] != 0 { return Some(inodes[i].addrs[bn]); }
        FullExactly(Value());
        r := BallocAddr(i, bn, bn);
      } else if bn < MAXFILE {
        r := BmapIndirect(i, bn);
      } else {
        r := None;
      }
    }

    /** Allocate a block for address `p` of inode `i`, on behalf of file block `n`. */
    method BallocAddr(i: nat, p: nat, ghost n: nat) returns (r: Option<Word>)
      requires Inv(Value()) && i < |inodes| && p < 13 && n < MAXFILE && inodes[i].addrs[p] == 0 && (p < 12 ==> p == n)
      modifies this`blocks, this`inodes
      ensures Inv(Value()) && Grown(old(Value()), Value(), i, n)
      ensures r.None? ==> Full(Value()) && Value() == old(Value())
      ensures r.Some? ==> Ref(Value(), i, p) == r.value && 0 < r.value < lay.size
      ensures r.Some? ==> |FreeSet(Value())| + 1 == |FreeSet(old(Value()))|
      ensures p < 12 ==> inodes[i].addrs[12] == old(inodes[i].addrs[12])
      ensures p == 12 && n >= 12 ==> DataBlock(Value(), i, n) == DataBlock(old(Value()), i, n)
    {
      ghost var f := Value();
      var a := Balloc({});
      if a.None? { return None; }
      AllocAddr(f, i, p, n, a.value);
      inodes := inodes[i := inodes[i].(addrs := inodes[i].addrs[p := a.value])];
      r := Some(a.value);
    }

    method BmapIndirect(i: nat, bn: nat) returns (r: Option<Word>)
      requires Inv(Value()) && i < |inodes| && NDIRECT <= bn < MAXFILE
      modifies this`blocks, this`inodes
      ensures Inv(Value()) && Grown(old(Value()), Value(), i, bn)
      ensures r.None? ==> Full(Value())
      ensures r.Some? ==> Mapped(Value(), i, bn) && DataBlock(Value(), i, bn) == r.value
      ensures Mapped(old(Value()), i, bn) ==> r.Some? && Value() == old(Value())
      ensures Paid(old(Value()), Value(), i, bn, r.Some?)
    {
      ghost var f0 := Value();
      var ok := NeedIndirect(i, bn);
      ghost var f1 := Value();
      if !ok { return None; }
      r := BmapEntry(i, bn - NDIRECT);
      GrownTwice(f0, f1, Value(), i, bn);
      PaidBoth(f0, f1, Value(), i, bn, r.Some?);
    }

    /** The block of indirect addresses, allocated if it is missing. */
    method NeedIndirect(i: nat, ghost bn: nat) returns (ok: bool)
      requires Inv(Value()) && i < |inodes| && NDIRECT <= bn < MAXFILE
      modifies this`blocks, this`inodes
      ensures Inv(Value()) && Grown(old(Value()), Value(), i, bn)
      ensures GotIndirect(old(Value()), Value(), i, bn, ok) && (!ok ==> Full(Value()))
    {
      ghost var f := Value();
      ok := true;
      if inodes[i].addrs[12] == 0 {
        FullExactly(f);
        var a := BallocAddr(i, 12, bn);
        ok := a.Some?;
        assert Ref(Value(), i, 12) == inodes[i].addrs[12];
      }
    }

    method BmapEntry(i: nat, e: nat) returns (r: Option<Word>)
      requires Inv(Value()) && i < |inodes| && e < NINDIRECT && inodes[i].addrs[12] != 0
      modifies this`blocks
      ensures Inv(Value()) && Grown(old(Value()), Value(), i, 12 + e)
      ensures r.None? ==> Full(Value())
      ensures r.Some? ==> Mapped(Value(), i, 12 + e) && DataBlock(Value(), i, 12 + e) == r.value
      ensures Mapped(old(Value()), i, 12 + e) ==> r.Some? && Value() == old(Value())
      ensures Paid(old(Value()), Value(), i, 12 + e, r.Some?)
    {
      ghost var f := Value();
      var ind := inodes[i].addrs[12];
      assert Ref(f, i, 12) == ind;
      var addr := GetWord(blocks[ind], e);
      assert Ref(f, i, 13 + e) == addr;
      if addr != 0 { return Some(addr); }
      FullExactly(f);
      var a := Balloc({});
      if a.None? { return None; }
      AllocEntry(f, i, e, a.value);
      blocks := blocks[ind := SetWord(blocks[ind], e, a.value)];
      r := Some(a.value);
    }

    /** bfree; a clear bit is its panic. */
    method Bfree(b: nat) returns (panic: bool)
      requires Shape(Value()) && b < lay.size
      modifies this`blocks
      ensures panic <==> !Used(old(Value()), b)
      ensures Value() == if panic then old(Value()) else ClearBit(old(Value()), b)
    {
      var n := BitmapBlock(lay, b);
      var v := blocks[n][BitmapByte(b)];
      TestBit(v, b % 8);
      ByteMasks(v, b % 8);
      if And(v, Pow2(b % 8)) == 0 { return true; }
      blocks := blocks[n := blocks[n][BitmapByte(b) := And(v, 255 - Pow2(b % 8))]];
      panic := false;
    }

    /** itrunc; none of its calls of bfree panics. */
    method Itrunc(i: nat)
      requires Inv(Value()) && i < |inodes|
      modifies this`blocks, this`inodes
      ensures Inv(Value()) && OthersKept(old(Value()), Value(), i)
      ensures inodes[i].size == 0 && forall p :: 0 <= p < NREF ==> Ref(Value(), i, p) == 0
    {
      FreeDirect(i);
      ghost var f1 := Value();
      if inodes[i].addrs[12] != 0 { FreeIndirectBlock(i); }
      OthersKeptTwice(old(Value()), f1, Value(), i);
      SetSizeKeeps(Value(), i, 0);
      OthersKeptTwice(old(Value()), Value(), SetSize(Value(), i, 0), i);
      inodes := inodes[i := inodes[i].(size := 0)];
    }

    /** itrunc's first loop. */
    method FreeDirect(i: nat)
      requires Inv(Value()) && i < |inodes|
      modifies this`blocks, this`inodes
      ensures Inv(Value()) && OthersKept(old(Value()), Value(), i)
      ensures inodes[i].addrs[12] == old(inodes[i].addrs[12]) && forall p :: 0 <= p < 12 ==> inodes[i].addrs[p] == 0
    {
      ghost var f0 := Value();
      var k := 0;
      while k < NDIRECT
        invariant 0 <= k <= NDIRECT && i < |inodes|
        invariant Inv(Value()) && OthersKept(f0, Value(), i)
        invariant inodes[i].addrs[12] == f0.inodes[i].addrs[12] && forall p :: 0 <= p < k ==> inodes[i].addrs[p] == 0
      {
        var b := inodes[i].addrs[k];
        if b != 0 {
          ghost var f1 := Value();
          FreeAddr(f1, i, k);
          var panic := Bfree(b);
          assert !panic;
          inodes := inodes[i := inodes[i].(addrs := inodes[i].addrs[k := 0])];
          OthersKeptTwice(f0, f1, Value(), i);
        }
        k := k + 1;
      }
    }

    /** itrunc's second loop and the indirect block itself. */
    method FreeIndirectBlock(i: nat)
      requires Inv(Value()) && i < |inodes| && inodes[i].addrs[12] != 0
      modifies this`blocks, this`inodes
      ensures Inv(Value()) && OthersKept(old(Value()), Value(), i)
      ensures inodes[i].addrs == old(inodes[i].addrs)[12 := 0]
    {
      ghost var f0 := Value();
      var ind := inodes[i].addrs[12];
      assert Ref(f0, i, 12) == ind;
      var a := blocks[ind];
      assert Span(i, 13, 13) == {};
      var e := 0;
      while e < NINDIRECT
        invariant 0 <= e <= NINDIRECT && inodes == f0.inodes
        invariant InvX(Value(), {}, Span(i, 13, 13 + e)) && OthersKept(f0, Value(), i) && blocks[ind] == a
      {
        ghost var f1 := Value();
        FreeEntry(f1, i, e);
        if GetWord(a, e) != 0 {
          var panic := Bfree(GetWord(a, e));
          assert !panic;
          OthersKeptTwice(f0, f1, Value(), i);
        }
        e := e + 1;
      }
      ghost var f2 := Value();
      FreeIndirect(f2, i);
      var panic := Bfree(ind);
      assert !panic;
      inodes := inodes[i := inodes[i].(addrs := inodes[i].addrs[12 := 0])];
      OthersKeptTwice(f0, f2, Value(), i);
    }

    /** readi on an inode without holes; none is the return value -1. */
    method Readi(i: nat, off: Word, n: Word) returns (r: Option<seq<Byte>>)
      requires Inv(Value()) && i < |inodes| && NoHoles(Value(), i)
      modifies this`blocks, this`inodes
      ensures Value() == old(Value())
      ensures r.None? <==> off > inodes[i].size || off + n >= 0x1_0000_0000
      ensures r.Some? ==>
        var size := inodes[i].size;
        r.value == Content(Value(), i)[off..if off + n <= size then off + n else size]
    {
      if off > inodes[i].size || off + n >= 0x1_0000_0000 { return None; }
      var end := if off + n > inodes[i].size then inodes[i].size else off + n;
      var dst := ReadLoop(i, off, end, Content(Value(), i));
      r := Some(dst);
    }

    method ReadLoop(i: nat, off0: nat, end: nat, ghost content: seq<Byte>) returns (dst: seq<Byte>)
      requires Inv(Value()) && i < |inodes| && NoHoles(Value(), i) && content == Content(Value(), i) &&
        off0 <= end <= |content|
      modifies this`blocks, this`inodes
      ensures Value() == old(Value()) && dst == content[off0..end]
    {
      ghost var f := Value();
      dst := [];
      var off := off0;
      while off < end
        invariant off0 <= off <= end && Value() == f && dst == content[off0..off]
      {
        var m := if end - off <= 1024 - off % 1024 then end - off else 1024 - off % 1024;
        var piece := ReadPiece(i, off, m);
        SliceJoin(content, off0, off, off + m);
        dst := dst + piece;
        off := off + m;
      }
    }

    /** One turn of readi's loop. */
    method ReadPiece(i: nat, off: nat, m: nat) returns (piece: seq<Byte>)
      requires Inv(Value()) && i < |inodes| && NoHoles(Value(), i)
      requires m > 0 && off + m <= inodes[i].size && off % 1024 + m <= 1024
      modifies this`blocks, this`inodes
      ensures Value() == old(Value()) && piece == Content(Value(), i)[off..off + m]
    {
      ContentSlice(Value(), i, off, m);
      var a := Bmap(i, off / 1024);
      piece := blocks[a.value][off % 1024..off % 1024 + m];
    }

    /** writei on an inode without holes. */
    method Writei(i: nat, src: seq<Byte>, off: Word) returns (r: WriteResult)
      requires Inv(Value()) && i < |inodes| && NoHoles(Value(), i) && |src| < 0x1_0000_0000
      modifies this`blocks, this`inodes
      ensures Inv(Value()) && |inodes| == old(|inodes|)
      ensures r.Failed? <==> off > old(inodes[i].size) || off + |src| > 268 * 1024
      ensures r.Failed? ==> Value() == old(Value())
      ensures r.Panicked? ==> Full(Value())
      ensures !r.Failed? ==>
        (r.Panicked? <==> |FreeSet(old(Value()))| < Need(old(Value()), i, off / 1024, LastBlock(off, |src|)))
      ensures r.Written? ==> r.n == |src| && NoHoles(Value(), i) && OthersKept(old(Value()), Value(), i)
      ensures r.Written? ==> Content(Value(), i) == Splice(Content(old(Value()), i), off, src)
    {
      ghost var f0 := Value();
      var n := |src|;
      if off > inodes[i].size || off + n >= 0x1_0000_0000 { return Failed; }
      if off + n > 268 * 1024 { return Failed; }
      var ok := WriteLoop(i, src, off);
      if !ok { return Panicked; }
      ProgressNow(f0, Value(), i, off, src, n, LastBlock(off, n));
      WroteAll(f0, Value(), i, off, src);
      if n > 0 && off + n > inodes[i].size {
        inodes := inodes[i := inodes[i].(size := off + n)];
      } else {
        assert Value() == SetSize(Value(), i, inodes[i].size);
      }
      r := Written(n);
    }

    method WriteLoop(i: nat, src: seq<Byte>, off0: nat) returns (ok: bool)
      requires Inv(Value()) && i < |inodes| && off0 + |src| <= 268 * 1024
      modifies this`blocks, this`inodes
      ensures ok ==> Progress(old(Value()), Value(), i, off0, src, |src|, LastBlock(off0, |src|))
      ensures !ok ==> Inv(Value()) && |inodes| == old(|inodes|) && Full(Value())
      ensures !ok ==> |FreeSet(old(Value()))| < Need(old(Value()), i, off0 / 1024, LastBlock(off0, |src|))
    {
      ghost var f0 := Value();
      ProgressStart(f0, i, off0, src);
      var tot, off, n := 0, off0, |src|;
      while tot < n
        invariant 0 <= tot <= n && off == off0 + tot
        invariant Progress(f0, Value(), i, off0, src, tot, LastBlock(off0, tot))
        invariant AtBlock(off0, tot, n)
      {
        var m := PieceSize(off, n - tot);
        NextBlock(off0, tot, m, n);
        ok := WritePiece(i, off, src[tot..tot + m], f0, off0, src, tot);
        if !ok { return; }
        tot, off := tot + m, off + m;
      }
      ok := true;
    }

    /** One turn of writei's loop; `false` is a panic in bmap. */
    method WritePiece(i: nat, off: nat, piece: seq<Byte>, ghost f0: Fs, ghost off0: nat, ghost src: seq<Byte>,
                      ghost tot: nat)
      returns (ok: bool)
      requires off == off0 + tot && NextPiece(off0, tot, |piece|, |src|) && piece == src[tot..tot + |piece|]
      requires Progress(f0, Value(), i, off0, src, tot, LastBlock(off0, tot))
      modifies this`blocks, this`inodes
      ensures ok ==> Progress(f0, Value(), i, off0, src, tot + |piece|, LastBlock(off0, tot + |piece|))
      ensures !ok ==> Inv(Value()) && Shape(f0) && i < |f0.inodes| == |inodes| && Full(Value())
      ensures !ok ==> |FreeSet(f0)| < Need(f0, i, off0 / 1024, LastBlock(off0, |src|))
    {
      var a := WriteBlock(i, off / 1024, f0, off0, src, tot);
      if a.None? {
        NeedMore(f0, i, off0, tot, |src|);
        return false;
      }
      ProgressPut(f0, Value(), i, off0, src, tot, piece);
      blocks := blocks[a.value := Patch(blocks[a.value], off % 1024, piece)];
      ok := true;
    }

    /** bmap for the next file block to write to. */
    method WriteBlock(i: nat, n: nat, ghost f0: Fs, ghost off0: nat, ghost src: seq<Byte>, ghost tot: nat)
      returns (a: Option<Word>)
      requires n < MAXFILE && off0 / 1024 <= n && Progress(f0, Value(), i, off0, src, tot, n)
      modifies this`blocks, this`inodes
      ensures a.Some? ==> Progress(f0, Value(), i, off0, src, tot, n + 1)
      ensures a.Some? ==> Inv(Value()) && i < |inodes| && Mapped(Value(), i, n) && DataBlock(Value(), i, n) == a.value
      ensures a.None? ==> Inv(Value()) && Shape(f0) && i < |f0.inodes| == |inodes| && Full(Value())
      ensures a.None? ==> |FreeSet(f0)| < Need(f0, i, off0 / 1024, n + 1)
    {
      ghost var f := Value();
      ProgressNow(f0, f, i, off0, src, tot, n);
      a := Bmap(i, n);
      ProgressGrown(f0, f, Value(), i, off0, src, tot, n, a.Some?);
    }
  }

  /** What writei copies in one turn, at offset `off` with `left` bytes to go. */
  function PieceSize(off: nat, left: nat): nat { if left <= 1024 - off % 1024 then left else 1024 - off % 1024 }

  /** Between two turns: at the start, at the end, or at the start of a file block. */
  predicate AtBlock(off: nat, tot: nat, n: nat) { tot == 0 || tot == n || (off + tot) % 1024 == 0 }

  /** The next piece lies in the file block after those written so far. */
  predicate NextPiece(off: nat, tot: nat, m: nat, n: nat) {
    && m > 0 && tot + m <= n && off + n <= 268 * 1024 && (off + tot) % 1024 + m <= 1024
    && LastBlock(off, tot) == (off + tot) / 1024 < MAXFILE && off / 1024 <= (off + tot) / 1024
    && LastBlock(off, tot + m) == (off + tot) / 1024 + 1
  }

  /** Each turn of writei's loop is about the next file block. */
  lemma NextBlock(off: nat, tot: nat, m: nat, n: nat)
    requires tot < n && AtBlock(off, tot, n) && off + n <= 268 * 1024 && m == PieceSize(off + tot, n - tot)
    ensures NextPiece(off, tot, m, n) && AtBlock(off, tot + m, n)
  {
  }

  lemma NeedMore(f: Fs, i: nat, off: nat, tot: nat, n: nat)
    requires Shape(f) && i < |f.inodes| && tot < n && off + n <= 268 * 1024 && (off + tot) / 1024 < MAXFILE
    ensures LastBlock(off, n) <= MAXFILE
    ensures Need(f, i, off / 1024, (off + tot) / 1024 + 1) <= Need(f, i, off / 1024, LastBlock(off, n))
  {
    assert (off + tot) / 1024 <= (off + n - 1) / 1024;
    MissingGrows(f, i, off / 1024, (off + tot) / 1024 + 1, LastBlock(off, n));
  }

  lemma InBitmapBlock(b: nat, bi: nat)
    requires b % 8192 == 0 && bi < 8192
    ensures (b + bi) / 8192 == b / 8192 && BitmapByte(b + bi) == bi / 8 && (b + bi) % 8 == bi % 8
  {
    var q := b / 8192;
    assert b == 8192 * q;
  }
}
