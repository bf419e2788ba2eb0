/** Disk blocks and the little-endian words stored in them (include/fsdefs.h). */
module Blocks {

  const BSIZE: nat := 1024

  /** Words in a block: `BSIZE / sizeof(uint)`. */
  const NWORDS: nat := 256

  type Byte = x: int | 0 <= x < 256
  type Word = x: int | 0 <= x < 0x1_0000_0000
  type Block = b: seq<Byte> | |b| == 1024 witness seq(1024, _ => 0)

  function ZeroBlock(): (b: Block)
    ensures forall i :: 0 <= i < BSIZE ==> b[i] == 0
  {
    seq(1024, _ => 0)
  }

  function GetWord(b: Block, i: nat): Word
    requires i < NWORDS
  {
    var b0: int, b1: int, b2: int, b3: int := b[4 * i], b[4 * i + 1], b[4 * i + 2], b[4 * i + 3];
    b0 + 0x100 * b1 + 0x1_0000 * b2 + 0x100_0000 * b3
  }

  function SetWord(b: Block, i: nat, w: Word): Block
    requires i < NWORDS
  {
    b[4 * i := w % 0x100][4 * i + 1 := w / 0x100 % 0x100]
     [4 * i + 2 := w / 0x1_0000 % 0x100][4 * i + 3 := w / 0x100_0000]
  }

  lemma GetSetWord(b: Block, i: nat, w: Word, j: nat)
    requires i < NWORDS && j < NWORDS
    ensures GetWord(SetWord(b, i, w), j) == if i == j then w else GetWord(b, j)
  {
    var c := SetWord(b, i, w);
    if i == j {
      BytesOfWord(w);
    } else {
      assert forall k :: 4 * j <= k < 4 * j + 4 ==> c[k] == b[k];
    }
  }

  lemma BytesOfWord(w: Word)
    ensures w % 0x100 + 0x100 * (w / 0x100 % 0x100) +
            0x1_0000 * (w / 0x1_0000 % 0x100) + 0x100_0000 * (w / 0x100_0000) == w
  {
  }

  lemma ZeroWord(i: nat)
    requires i < NWORDS
    ensures GetWord(ZeroBlock(), i) == 0
  {
  }

  // ----- bytes in blocks

  /** Overwrite the bytes of a block from offset `o` on. */
  function Patch(b: Block, o: nat, bytes: seq<Byte>): Block
    requires o + |bytes| <= 1024
  {
    b[..o] + bytes + b[o + |bytes|..]
  }

  /** `src` over the content `c` from `off` on. */
  function Splice(c: seq<Byte>, off: nat, src: seq<Byte>): seq<Byte>
    requires off <= |c|
  {
    c[..off] + src + (if off + |src| <= |c| then c[off + |src|..] else [])
  }

  lemma SameBlock(off: nat, k: nat)
    requires off % 1024 + k < 1024
    ensures (off + k) / 1024 == off / 1024 && (off + k) % 1024 == off % 1024 + k
  {
  }

  /** A byte of the piece is in the piece's block, at its place; a byte elsewhere in that block is not in the piece. */
  lemma PieceByte(at: nat, m: nat, k: nat)
    requires at % 1024 + m <= 1024
    ensures at <= k < at + m <==> k / 1024 == at / 1024 && at % 1024 <= k % 1024 < at % 1024 + m
    ensures at <= k < at + m ==> k % 1024 - at % 1024 == k - at
  {
  }
}
