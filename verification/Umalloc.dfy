/** The user-level allocator (user/lib/umalloc.c), after section 8.7 of Kernighan and Ritchie.

    Addresses and sizes count headers of eight bytes. Free blocks form a circular list in
    address order that starts at the static header `base`, below all heap memory.
 */
module Umalloc {

  import opened Wrappers

  type U32 = x: int | 0 <= x < 0x1_0000_0000

  datatype Header = Header(ptr: nat, size: nat)

  /** Address of the static header `base`; address 0 is the null pointer. */
  const BASE: nat := 1

  // ----- the free list

  /** The element after position `k` of the circular list. */
  function After(list: seq<nat>, k: nat): nat
    requires k < |list|
  {
    if k + 1 < |list| then list[k + 1] else list[0]
  }

  ghost predicate Sorted(list: seq<nat>) {
    forall i, j :: 0 <= i < j < |list| ==> list[i] < list[j]
  }

  /** Block `k` links to the next one and does not reach it; it may touch it when `k == x`. */
  ghost predicate NodeOk(list: seq<nat>, mem: map<nat, Header>, k: nat, x: int)
    requires k < |list|
  {
    && list[k] in mem
    && mem[list[k]].ptr == After(list, k)
    && (k > 0 ==> mem[list[k]].size > 0)
    && (k + 1 < |list| ==>
          if k == x then list[k] + mem[list[k]].size <= list[k + 1] else list[k] + mem[list[k]].size < list[k + 1])
  }

  /** Circular, in address order from `base`, and no block touches the next one, except perhaps
      the one at position `x`. */
  ghost predicate FreeListBut(list: seq<nat>, mem: map<nat, Header>, x: int) {
    && |list| > 0 && list[0] == BASE && BASE in mem && mem[BASE].size == 0
    && Sorted(list)
    && (forall k :: 0 <= k < |list| ==> NodeOk(list, mem, k, x))
  }

  ghost predicate FreeList(list: seq<nat>, mem: map<nat, Header>) { FreeListBut(list, mem, -1) }

  /** Where free puts a block: between neighbours, or after the last. */
  predicate Place(list: seq<nat>, k: nat, bp: nat) {
    k < |list| && list[k] < bp && (k + 1 < |list| ==> bp < list[k + 1])
  }

  /** A block in place between its neighbours, not joined with either. */
  lemma InsertKeeps(list: seq<nat>, mem: map<nat, Header>, k: nat, bp: nat)
    requires FreeList(list, mem) && Place(list, k, bp) && bp in mem && mem[bp].size > 0 && list[k] in mem
    requires list[k] + mem[list[k]].size <= bp && (k + 1 < |list| ==> bp + mem[bp].size < list[k + 1])
    ensures var mem' := mem[bp := mem[bp].(ptr := After(list, k))][list[k] := mem[list[k]].(ptr := bp)];
            FreeListBut(list[..k + 1] + [bp] + list[k + 1..], mem', k)
  {
    var list' := list[..k + 1] + [bp] + list[k + 1..];
    var mem' := mem[bp := mem[bp].(ptr := After(list, k))][list[k] := mem[list[k]].(ptr := bp)];
    SortedInsert(list, k, bp, k + 1);
    forall i | 0 <= i < |list'| ensures NodeOk(list', mem', i, k) {
      if i <= k {
        assert NodeOk(list, mem, i, -1) && list'[i] == list[i];
        assert i < k ==> list'[i + 1] == list[i + 1];
      } else if i > k + 1 {
        assert NodeOk(list, mem, i - 1, -1) && list'[i] == list[i - 1];
        assert i + 1 < |list'| ==> list'[i + 1] == list[i];
      }
    }
  }

  lemma SortedInsert(list: seq<nat>, k: nat, bp: nat, from: nat)
    requires Sorted(list) && Place(list, k, bp) && k < from <= |list|
    ensures Sorted(list[..k + 1] + [bp] + list[from..])
  {
    var list' := list[..k + 1] + [bp] + list[from..];
    forall i | 0 <= i < |list'|
      ensures list'[i] == if i <= k then list[i] else if i == k + 1 then bp else list[i - (k + 2) + from] {}
    forall i | 0 <= i < |list| ensures if i <= k then list[i] < bp else bp < list[i] {
      if k + 1 < i { assert list[k + 1] < list[i]; }
      if i < k { assert list[i] < list[k]; }
    }
  }

  /** A block joined with the free block after it. */
  lemma InsertJoinKeeps(list: seq<nat>, mem: map<nat, Header>, k: nat, bp: nat)
    requires FreeList(list, mem) && Place(list, k, bp) && bp in mem && mem[bp].size > 0 && k + 1 < |list| &&
      list[k] in mem
    requires list[k] + mem[list[k]].size <= bp && bp + mem[bp].size == list[k + 1]
    ensures list[k + 1] in mem
    ensures var q := list[k + 1];
            var mem' := mem[bp := Header(mem[q].ptr, mem[bp].size + mem[q].size)][list[k] := mem[list[k]].(ptr := bp)];
            FreeListBut(list[..k + 1] + [bp] + list[k + 2..], mem', k)
  {
    var q := list[k + 1];
    assert NodeOk(list, mem, k + 1, -1);
    var list' := list[..k + 1] + [bp] + list[k + 2..];
    var mem' := mem[bp := Header(mem[q].ptr, mem[bp].size + mem[q].size)][list[k] := mem[list[k]].(ptr := bp)];
    SortedInsert(list, k, bp, k + 2);
    forall i | 0 <= i < |list'| ensures NodeOk(list', mem', i, k) {
      assert i == k + 1 || list'[i] == list[i];
      if i + 1 < |list'| && i != k { assert list'[i + 1] == list[i + 1]; }
      if i != k + 1 { assert NodeOk(list, mem, i, -1); }
    }
  }

  /** Joining a block with the one before it, which touches it. */
  lemma JoinKeeps(list: seq<nat>, mem: map<nat, Header>, k: nat)
    requires FreeListBut(list, mem, k) && k + 1 < |list| && list[k] in mem && list[k] + mem[list[k]].size == list[k + 1]
    ensures list[k + 1] in mem
    ensures var p, b := list[k], list[k + 1];
            FreeList(list[..k + 1] + list[k + 2..], mem[p := Header(mem[b].ptr, mem[p].size + mem[b].size)])
  {
    var p, b := list[k], list[k + 1];
    assert NodeOk(list, mem, k, k) && NodeOk(list, mem, k + 1, k);
    var list', mem' := list[..k + 1] + list[k + 2..], mem[p := Header(mem[b].ptr, mem[p].size + mem[b].size)];
    assert k > 0;
    forall i | 0 <= i < |list'| ensures list'[i] == if i <= k then list[i] else list[i + 1] {}
    forall i | 0 <= i < |list'| ensures NodeOk(list', mem', i, -1) {
      if i < k {
        assert NodeOk(list, mem, i, k);
      } else if i > k {
        assert NodeOk(list, mem, i + 1, k);
      }
    }
  }

  /** Taking a block off the list. */
  lemma RemoveKeeps(list: seq<nat>, mem: map<nat, Header>, k: nat)
    requires FreeList(list, mem) && 0 < k < |list| && list[k - 1] in mem && list[k] in mem
    ensures FreeList(list[..k] + list[k + 1..], mem[list[k - 1] := mem[list[k - 1]].(ptr := mem[list[k]].ptr)])
  {
    var list', mem' := list[..k] + list[k + 1..], mem[list[k - 1] := mem[list[k - 1]].(ptr := mem[list[k]].ptr)];
    forall i | 0 <= i < |list'| ensures NodeOk(list', mem', i, -1) { RemoveNode(list, mem, k, i); }
    assert mem'[BASE].size == 0;
    assert Sorted(list') by {
      forall i | 0 <= i < |list'| ensures list'[i] == if i < k then list[i] else list[i + 1] {}
    }
  }

  lemma RemoveNode(list: seq<nat>, mem: map<nat, Header>, k: nat, i: nat)
    requires FreeList(list, mem) && 0 < k < |list| && list[k - 1] in mem && list[k] in mem && i + 1 < |list|
    ensures NodeOk(list[..k] + list[k + 1..], mem[list[k - 1] := mem[list[k - 1]].(ptr := mem[list[k]].ptr)], i, -1)
  {
    assert NodeOk(list, mem, k - 1, -1) && NodeOk(list, mem, k, -1);
    var j := if i < k then i else i + 1;
    assert NodeOk(list, mem, j, -1);
    SortedDistinct(list, j, k - 1);
  }

  /** Cutting the tail off a free block. */
  lemma ShrinkKeeps(list: seq<nat>, mem: map<nat, Header>, k: nat, n: nat, x: Header)
    requires FreeList(list, mem) && 0 < k < |list| && list[k] in mem && 0 < n < mem[list[k]].size
    ensures var c := list[k] + (mem[list[k]].size - n);
            c !in list && FreeList(list, mem[list[k] := mem[list[k]].(size := mem[list[k]].size - n)][c := x])
  {
    var p := list[k];
    var c := p + (mem[p].size - n);
    var mem' := mem[p := mem[p].(size := mem[p].size - n)][c := x];
    assert NodeOk(list, mem, k, -1);
    forall i | 0 <= i < |list| ensures list[i] != c {
      if i > k { assert k + 1 < i ==> list[k + 1] < list[i]; }
      if i < k { assert list[i] < list[k]; }
    }
    forall i | 0 <= i < |list| ensures NodeOk(list, mem', i, -1) { assert NodeOk(list, mem, i, -1); }
  }

  // ----- the heap

  /** `list` is the free list from `base` on; `live` the allocated blocks; `arena` the memory
      obtained from sbrk, all of it below `brk`. */
  datatype Heap = Heap(
    mem: map<nat, Header>, freep: nat, list: seq<nat>, live: map<nat, nat>, arena: set<nat>, brk: nat)

  /** Size of the block, free or allocated, at address `a`; 0 if there is none. */
  function Size(h: Heap, a: nat): nat {
    if a in h.live then h.live[a]
    else if a in h.list && a != BASE && a in h.mem then h.mem[a].size
    else 0
  }

  ghost predicate Covered(h: Heap, u: nat) {
    exists a: nat :: a <= u < a + Size(h, a)
  }

  /** Free and allocated blocks are disjoint and cover exactly the memory from sbrk. */
  ghost predicate Tiles(h: Heap) {
    && (forall a: nat, b: nat :: a < b && Size(h, a) > 0 && Size(h, b) > 0 ==> a + Size(h, a) <= b)
    && (forall u: nat :: u in h.arena <==> Covered(h, u))
  }

  /** Joining two adjacent blocks. */
  lemma JoinTiles(h: Heap, h': Heap, a: nat, b: nat)
    requires Tiles(h) && Size(h, a) > 0 && Size(h, b) > 0 && a + Size(h, a) == b && h'.arena == h.arena
    requires forall x: nat ::
      Size(h', x) == if x == a then Size(h, a) + Size(h, b) else if x == b then 0 else Size(h, x)
    ensures Tiles(h')
  {
    forall u: nat ensures Covered(h, u) == Covered(h', u) {
      if Covered(h, u) {
        var c: nat :| c <= u < c + Size(h, c);
        var c' := if c == b then a else c;
        assert c' <= u < c' + Size(h', c');
      }
      if Covered(h', u) {
        var c: nat :| c <= u < c + Size(h', c);
        var c' := if c == a && u >= b then b else c;
        assert c' <= u < c' + Size(h, c');
      }
    }
  }

  /** Cutting `n` units off the end of a block. */
  lemma SplitTiles(h: Heap, h': Heap, a: nat, n: nat)
    requires Tiles(h) && 0 < n < Size(h, a) && h'.arena == h.arena
    requires var c := a + (Size(h, a) - n);
             forall x: nat :: Size(h', x) == if x == a then Size(h, a) - n else if x == c then n else Size(h, x)
    ensures Tiles(h')
  {
    var c := a + (Size(h, a) - n);
    assert Size(h, c) == 0;
    forall x: nat, y: nat | x < y && Size(h', x) > 0 && Size(h', y) > 0 ensures x + Size(h', x) <= y {
      var x0, y0 := if x == c then a else x, if y == c then a else y;
      assert x0 < y0 ==> x0 + Size(h, x0) <= y0;
    }
    forall u: nat ensures Covered(h, u) == Covered(h', u) {
      if Covered(h, u) {
        var x: nat :| x <= u < x + Size(h, x);
        var x' := if x == a && u >= c then c else x;
        assert x' <= u < x' + Size(h', x');
      }
      if Covered(h', u) {
        var x: nat :| x <= u < x + Size(h', x);
        var x' := if x == c then a else x;
        assert x' <= u < x' + Size(h, x');
      }
    }
  }

  function Units(a: nat, n: nat): (r: set<nat>)
    ensures forall u: nat :: u in r <==> a <= u < a + n
  {
    if n == 0 then {} else Units(a, n - 1) + {a + n - 1}
  }

  /** New memory above everything. */
  lemma AddTiles(h: Heap, h': Heap, a: nat, n: nat)
    requires Tiles(h) && n > 0 && (forall u :: u in h.arena ==> u < a) && h'.arena == h.arena + Units(a, n)
    requires forall x: nat :: Size(h', x) == if x == a then n else Size(h, x)
    ensures Tiles(h')
  {
    forall x: nat | Size(h, x) > 0 ensures x + Size(h, x) <= a {
      var u := x + Size(h, x) - 1;
      assert x <= u < x + Size(h, x);
      assert Covered(h, u);
    }
    forall u: nat ensures u in h'.arena <==> Covered(h', u) {
      if Covered(h, u) {
        var x: nat :| x <= u < x + Size(h, x);
        assert x <= u < x + Size(h', x);
      }
      if a <= u < a + n { assert a <= u < a + Size(h', a); }
      if Covered(h', u) {
        var x: nat :| x <= u < x + Size(h', x);
        if x != a { assert x <= u < x + Size(h, x); assert Covered(h, u); }
      }
    }
  }

  lemma SameTiles(h: Heap, h': Heap)
    requires Tiles(h) && h'.arena == h.arena && forall x: nat :: Size(h', x) == Size(h, x)
    ensures Tiles(h')
  {
    forall u: nat ensures Covered(h, u) == Covered(h', u) {
      if Covered(h, u) { var x: nat :| x <= u < x + Size(h, x); assert x <= u < x + Size(h', x); }
      if Covered(h', u) { var x: nat :| x <= u < x + Size(h', x); assert x <= u < x + Size(h, x); }
    }
  }

  ghost predicate LiveOk(h: Heap) {
    forall a :: a in h.live ==> a in h.mem && h.mem[a].size == h.live[a] > 0 && a !in h.list
  }

  ghost predicate Ready(h: Heap) {
    && FreeList(h.list, h.mem)
    && h.freep in h.list
    && LiveOk(h)
    && Tiles(h)
    && (forall u :: u in h.arena ==> BASE < u < h.brk)
    && BASE < h.brk
  }

  /** Before the first malloc there is no list; from then on blocks tile the memory. */
  ghost predicate Inv(h: Heap) {
    if h.freep == 0 then h.list == [] && h.live == map[] && h.arena == {} && BASE < h.brk else Ready(h)
  }

  /** free between its two tests: the block is in place after the free block at position `k`,
      and joined with the one after it if they touch. */
  function Placed(h: Heap, k: nat, bp: nat): Heap
    requires k < |h.list| && h.list[k] in h.mem && bp in h.mem && h.mem[h.list[k]].ptr in h.mem
  {
    var p := h.list[k];
    var q, size := h.mem[p].ptr, h.mem[bp].size;
    var up := bp + size == q;
    var mem1 := if up then h.mem[bp := Header(h.mem[q].ptr, size + h.mem[q].size)] else h.mem[bp := Header(q, size)];
    var rest := if up && k + 2 <= |h.list| then h.list[k + 2..] else h.list[k + 1..];
    h.(mem := mem1[p := mem1[p].(ptr := bp)], freep := p, list := h.list[..k + 1] + [bp] + rest, live := h.live - {bp})
  }

  /** free's second test: join the blocks at positions `k` and `k + 1` if they touch. */
  function JoinLow(g: Heap, k: nat): Heap
    requires k + 1 < |g.list| && g.list[k] in g.mem && g.list[k + 1] in g.mem
  {
    var p, b := g.list[k], g.list[k + 1];
    if p + g.mem[p].size == b then
      g.(mem := g.mem[p := Header(g.mem[b].ptr, g.mem[p].size + g.mem[b].size)],
        list := g.list[..k + 1] + g.list[k + 2..])
    else g
  }

  /** free, once it found its place after the free block at position `k`. */
  function FreeAt(h: Heap, k: nat, bp: nat): Heap
    requires k < |h.list| && h.list[k] in h.mem && bp in h.mem && h.mem[h.list[k]].ptr in h.mem
  {
    JoinLow(Placed(h, k, bp), k)
  }

  lemma InHeap(h: Heap, a: nat)
    requires Ready(h) && Size(h, a) > 0
    ensures BASE < a < h.brk
  {
    assert a <= a < a + Size(h, a);
    assert Covered(h, a);
  }

  lemma ListedSize(h: Heap, k: nat)
    requires Ready(h) && k < |h.list|
    ensures NodeOk(h.list, h.mem, k, -1) && After(h.list, k) in h.mem
    ensures k > 0 ==> h.list[k] > BASE && Size(h, h.list[k]) == h.mem[h.list[k]].size > 0
  {
    assert NodeOk(h.list, h.mem, k, -1);
    if k > 0 { assert h.list[0] < h.list[k]; }
    if k + 1 < |h.list| { assert NodeOk(h.list, h.mem, k + 1, -1); }
  }

  /** The neighbours of a live block do not reach into it, nor it into them. */
  lemma NeighboursApart(h: Heap, k: nat, bp: nat)
    requires Ready(h) && bp in h.live && Place(h.list, k, bp)
    ensures BASE < bp && h.mem[bp].size > 0 && NodeOk(h.list, h.mem, k, -1) && After(h.list, k) in h.mem
    ensures h.list[k] + h.mem[h.list[k]].size <= bp
    ensures k + 1 < |h.list| ==> bp + h.mem[bp].size <= h.list[k + 1]
  {
    assert Size(h, bp) == h.live[bp];
    InHeap(h, bp);
    ListedSize(h, k);
    if k + 1 < |h.list| { ListedSize(h, k + 1); }
  }

  lemma PlacedList(h: Heap, k: nat, bp: nat)
    requires Ready(h) && bp in h.live && Place(h.list, k, bp)
    ensures NodeOk(h.list, h.mem, k, -1) && After(h.list, k) in h.mem
    ensures var h' := Placed(h, k, bp);
      FreeListBut(h'.list, h'.mem, k) && h'.list[k] == h.list[k] && h'.list[k + 1] == bp
  {
    NeighboursApart(h, k, bp);
    var q := After(h.list, k);
    if bp + h.mem[bp].size == q {
      InsertJoinKeeps(h.list, h.mem, k, bp);
    } else {
      InsertKeeps(h.list, h.mem, k, bp);
    }
  }

  lemma InsertedIn(list: seq<nat>, k: nat, bp: nat, from: nat, a: nat)
    requires k < from <= |list| && Sorted(list)
    ensures a in list[..k + 1] + [bp] + list[from..] <==>
      a == bp || (a in list && forall i :: k < i < from ==> a != list[i])
  {
    var list' := list[..k + 1] + [bp] + list[from..];
    if a in list && forall i :: k < i < from ==> a != list[i] {
      var i :| 0 <= i < |list| && list[i] == a;
      assert if i <= k then list'[i] == a else list'[i - from + k + 2] == a;
    }
    if a in list[..k + 1] { var i :| 0 <= i < k + 1 && list[i] == a; }
    if a in list[from..] { var i :| from <= i < |list| && list[i] == a; }
    assert bp == list'[k + 1];
  }

  lemma RemovedIn(list: seq<nat>, k: nat, a: nat)
    requires k < |list| && Sorted(list)
    ensures a in list[..k] + list[k + 1..] <==> a in list && a != list[k]
  {
    var list' := list[..k] + list[k + 1..];
    if a in list && a != list[k] {
      var i :| 0 <= i < |list| && list[i] == a;
      assert if i < k then list'[i] == a else list'[i - 1] == a;
    }
  }

  lemma PlacedTiles(h: Heap, k: nat, bp: nat)
    requires Ready(h) && bp in h.live && Place(h.list, k, bp)
    ensures NodeOk(h.list, h.mem, k, -1) && After(h.list, k) in h.mem
    ensures Tiles(Placed(h, k, bp))
  {
    NeighboursApart(h, k, bp);
    var q, g := After(h.list, k), Placed(h, k, bp);
    if bp + h.mem[bp].size == q {
      ListedSize(h, k + 1);
      forall a: nat
        ensures Size(g, a) == if a == bp then Size(h, bp) + Size(h, q) else if a == q then 0 else Size(h, a)
      {
        JoinedSize(h, k, bp, a);
      }
      JoinTiles(h, g, bp, q);
    } else {
      forall a: nat ensures Size(g, a) == Size(h, a) { PlainSize(h, k, bp, a); }
      SameTiles(h, g);
    }
  }

  /** Sizes after the block joined the one after it. */
  lemma JoinedSize(h: Heap, k: nat, bp: nat, a: nat)
    requires Sorted(h.list) && LiveOk(h) && bp in h.live && k + 1 < |h.list| && h.list[0] == BASE
    requires h.list[k] in h.mem && h.list[k + 1] in h.mem && h.mem[h.list[k]].ptr == h.list[k + 1] &&
      bp + h.mem[bp].size == h.list[k + 1]
    ensures Size(Placed(h, k, bp), a) ==
            if a == bp then Size(h, bp) + Size(h, h.list[k + 1]) else if a == h.list[k + 1] then 0 else Size(h, a)
  {
    InsertedIn(h.list, k, bp, k + 2, a);
    assert h.list[0] < h.list[k + 1] && h.list[k] in h.list && h.list[k + 1] in h.list;
  }

  lemma PlainSize(h: Heap, k: nat, bp: nat, a: nat)
    requires Sorted(h.list) && LiveOk(h) && bp in h.live && bp != BASE && k < |h.list|
    requires h.list[k] in h.mem && h.mem[h.list[k]].ptr in h.mem && bp + h.mem[bp].size != h.mem[h.list[k]].ptr
    ensures Size(Placed(h, k, bp), a) == Size(h, a)
  {
    InsertedIn(h.list, k, bp, k + 1, a);
    assert h.list[k] in h.list;
  }

  lemma PlacedLive(h: Heap, k: nat, bp: nat)
    requires Ready(h) && bp in h.live && Place(h.list, k, bp) && NodeOk(h.list, h.mem, k, -1) &&
      After(h.list, k) in h.mem
    ensures LiveOk(Placed(h, k, bp))
  {
    var g := Placed(h, k, bp);
    forall a | a in g.live ensures a in g.mem && g.mem[a].size == g.live[a] && a !in g.list {
      assert a in h.live && a !in h.list && a != bp;
    }
  }

  /** The second test keeps the list and the tiling. */
  lemma JoinLowKeeps(g: Heap, k: nat)
    requires FreeListBut(g.list, g.mem, k) && Tiles(g) && LiveOk(g) && k + 1 < |g.list| && g.list[k] in g.mem &&
      g.list[k + 1] in g.mem
    ensures var h' := JoinLow(g, k); FreeList(h'.list, h'.mem) && Tiles(h') && LiveOk(h') && g.list[k] in h'.list
  {
    if g.list[k] + g.mem[g.list[k]].size == g.list[k + 1] {
      JoinKeeps(g.list, g.mem, k);
      JoinLowTiles(g, k);
    } else {
      forall i | 0 <= i < |g.list| ensures NodeOk(g.list, g.mem, i, -1) { assert NodeOk(g.list, g.mem, i, k); }
    }
  }

  lemma JoinLowTiles(g: Heap, k: nat)
    requires FreeListBut(g.list, g.mem, k) && Tiles(g) && LiveOk(g) && k + 1 < |g.list| && g.list[k] in g.mem &&
      g.list[k + 1] in g.mem
    requires g.list[k] + g.mem[g.list[k]].size == g.list[k + 1]
    ensures var h' := JoinLow(g, k); Tiles(h') && LiveOk(h') && g.list[k] in h'.list
  {
    var p, b, h' := g.list[k], g.list[k + 1], JoinLow(g, k);
    assert NodeOk(g.list, g.mem, k, k) && NodeOk(g.list, g.mem, k + 1, k) && g.list[0] < b;
    assert h'.list[k] == p;
    forall a: nat ensures a in h'.list <==> a in g.list && a != b { RemovedIn(g.list, k + 1, a); }
    forall a: nat ensures Size(h', a) == if a == p then Size(g, p) + Size(g, b) else if a == b then 0 else Size(g, a) {}
    JoinTiles(g, h', p, b);
  }

  /** free keeps the heap well formed and gives up no memory. */
  lemma FreeKeepsInv(h: Heap, k: nat, bp: nat)
    requires Ready(h) && bp in h.live && Place(h.list, k, bp)
    ensures NodeOk(h.list, h.mem, k, -1) && After(h.list, k) in h.mem
    ensures Ready(FreeAt(h, k, bp))
  {
    PlacedList(h, k, bp);
    PlacedTiles(h, k, bp);
    PlacedLive(h, k, bp);
    JoinLowKeeps(Placed(h, k, bp), k);
  }

  /** free leaves a free block at least as large as the one it was given. */
  lemma FreeLeavesRoom(h: Heap, k: nat, bp: nat) returns (j: nat)
    requires Ready(h) && bp in h.live && Place(h.list, k, bp)
    requires NodeOk(h.list, h.mem, k, -1) && After(h.list, k) in h.mem
    ensures var h' := FreeAt(h, k, bp);
      j < |h'.list| && h'.list[j] in h'.mem && h'.mem[h'.list[j]].size >= h.mem[bp].size
  {
    var h' := FreeAt(h, k, bp);
    if h'.list[k] + Placed(h, k, bp).mem[h'.list[k]].size == bp {
      j := k;
    } else {
      j := k + 1;
      assert h'.list[k + 1] == bp;
    }
  }

  // ----- taking a block

  /** malloc takes `n` units from the free block at position `k`: all of it, or its tail. */
  function Carve(h: Heap, k: nat, n: nat): (r: (Heap, nat))
    requires 0 < k < |h.list| && h.list[k] in h.mem && h.list[k - 1] in h.mem && h.mem[h.list[k]].size >= n
  {
    var prev, p := h.list[k - 1], h.list[k];
    if h.mem[p].size == n then
      (h.(mem := h.mem[prev := h.mem[prev].(ptr := h.mem[p].ptr)], freep := prev,
          list := h.list[..k] + h.list[k + 1..], live := h.live[p := n]), p)
    else
      var c := p + (h.mem[p].size - n);
      (h.(mem := h.mem[p := h.mem[p].(size := h.mem[p].size - n)]
        [c := Header(if c in h.mem then h.mem[c].ptr else 0, n)],
          freep := prev, live := h.live[c := n]), c)
  }

  lemma CarveWhole(h: Heap, k: nat, n: nat)
    requires Ready(h) && 0 < k < |h.list| && h.list[k] in h.mem && h.list[k - 1] in h.mem &&
      h.mem[h.list[k]].size == n > 0
    ensures Ready(Carve(h, k, n).0) && h.list[k] !in h.live
  {
    var h' := Carve(h, k, n).0;
    ListedSize(h, k);
    RemoveKeeps(h.list, h.mem, k);
    assert h'.list[k - 1] == h'.freep;
    CarveWholeTiles(h, k, n);
  }

  lemma CarveWholeTiles(h: Heap, k: nat, n: nat)
    requires Tiles(h) && LiveOk(h) && Sorted(h.list) && 0 < k < |h.list| && h.list[0] == BASE
    requires h.list[k] in h.mem && h.list[k - 1] in h.mem && h.mem[h.list[k]].size == n > 0
    ensures Tiles(Carve(h, k, n).0) && LiveOk(Carve(h, k, n).0)
  {
    var (h', p) := Carve(h, k, n);
    assert h.list[k - 1] < p && h.list[0] < p;
    forall a: nat ensures a in h'.list <==> a in h.list && a != p { RemovedIn(h.list, k, a); }
    assert h.list[k - 1] in h.list;
    forall a: nat ensures Size(h', a) == Size(h, a) {}
    SameTiles(h, h');
  }

  lemma CarveTail(h: Heap, k: nat, n: nat)
    requires Ready(h) && 0 < k < |h.list| && h.list[k] in h.mem && h.list[k - 1] in h.mem &&
      h.mem[h.list[k]].size > n > 0
    ensures Ready(Carve(h, k, n).0) && Carve(h, k, n).1 !in h.live
  {
    var (h', c) := Carve(h, k, n);
    var p := h.list[k];
    ListedSize(h, k);
    ShrinkKeeps(h.list, h.mem, k, n, Header(if c in h.mem then h.mem[c].ptr else 0, n));
    assert Size(h, c) == 0;
    assert h.list[k - 1] == h'.freep;
    forall a: nat ensures Size(h', a) == if a == p then Size(h, p) - n else if a == c then n else Size(h, a) {}
    SplitTiles(h, h', p, n);
  }

  lemma CarveKeepsInv(h: Heap, k: nat, n: nat)
    requires Ready(h) && 0 < k < |h.list| && h.list[k] in h.mem && h.list[k - 1] in h.mem &&
      h.mem[h.list[k]].size >= n > 0
    ensures var (h', a) := Carve(h, k, n); Ready(h') && a !in h.live && h'.live == h.live[a := n] && h'.arena == h.arena
  {
    if h.mem[h.list[k]].size == n { CarveWhole(h, k, n); } else { CarveTail(h, k, n); }
  }

  // ----- more memory

  /** morecore up to its call of free: `n` units from sbrk at address `a`, as an allocated block. */
  function Extend(h: Heap, a: nat, n: nat): Heap {
    h.(mem := h.mem[a := Header(if a in h.mem then h.mem[a].ptr else 0, n)], live := h.live[a := n],
       arena := h.arena + Units(a, n), brk := a + n)
  }

  lemma ExtendKeepsInv(h: Heap, a: nat, n: nat)
    requires Ready(h) && h.brk <= a && n > 0
    ensures Ready(Extend(h, a, n)) && a !in h.live
  {
    var h' := Extend(h, a, n);
    assert a !in h.live by { if a in h.live { InHeap(h, a); } }
    assert a !in h.list by {
      if a in h.list { var k :| 0 <= k < |h.list| && h.list[k] == a; ListedSize(h, k); if k > 0 { InHeap(h, a); } }
    }
    assert Size(h, a) == 0;
    forall k | 0 <= k < |h.list| ensures NodeOk(h.list, h'.mem, k, -1) { assert NodeOk(h.list, h.mem, k, -1); }
    AddTiles(h, h', a, n);
  }

  // ----- requests

  /** Units for a request: a header and the bytes rounded up, in 32-bit arithmetic. */
  function NUnits(nbytes: U32): nat { (nbytes + 8 - 1) % 0x1_0000_0000 / 8 + 1 }

  /** Units morecore asks sbrk for. */
  function Chunk(nunits: nat): nat { if nunits < 4096 then 4096 else nunits }

  /** The request neither wraps nor turns sbrk's signed argument negative. */
  predicate RequestOk(nbytes: U32) {
    8 * (NUnits(nbytes) - 1) >= nbytes && 8 * Chunk(NUnits(nbytes)) < 0x8000_0000
  }

  /** Exactly the requests up to 2^31 - 16 bytes are served as meant. */
  lemma RequestLimit(nbytes: U32)
    ensures RequestOk(nbytes) <==> nbytes <= 0x7fff_fff0
  {
  }

  /** The largest request wraps to a block with no room at all. */
  lemma LargestRequestWraps()
    ensures NUnits(0xffff_ffff) == 1
  {
  }

  /** A listed block has at least `n` units. */
  ghost predicate HasRoom(h: Heap, n: nat) {
    exists k :: 0 <= k < |h.list| && h.list[k] in h.mem && h.mem[h.list[k]].size >= n
  }

  lemma ListedRoom(h: Heap, p: nat, n: nat)
    requires p in h.list && p in h.mem && h.mem[p].size >= n
    ensures HasRoom(h, n)
  {
    var k :| 0 <= k < |h.list| && h.list[k] == p;
  }

  // ----- walking the circular list

  /** Steps from position `i` to position `j` around a list of `n`. */
  function Dist(i: nat, j: nat, n: nat): nat
    requires i < n && j < n
  {
    if i <= j then j - i else j - i + n
  }

  function Wrap(i: nat, n: nat): nat { if i + 1 < n then i + 1 else 0 }

  /** Every block has its place in the list. */
  lemma {:induction false} PlaceExists(list: seq<nat>, bp: nat, m: nat) returns (t: nat)
    requires Sorted(list) && |list| > 0 && list[0] < bp && m < |list| && bp !in list
    requires m + 1 < |list| ==> bp < list[m + 1]
    ensures Place(list, t, bp)
  {
    t := m;
    if bp < list[m] { t := PlaceExists(list, bp, m - 1); }
  }

  class Allocator {
    var mem: map<nat, Header>
    var freep: nat
    var brk: nat
    ghost var list: seq<nat>
    ghost var live: map<nat, nat>
    ghost var arena: set<nat>

    /** A process whose memory ends at `top`, above `base`. */
    constructor (top: nat)
      requires BASE < top
      ensures Inv(Value()) && live == map[]
    {
      mem, freep, brk, list, live, arena := map[], 0, top, [], map[], {};
    }

    ghost function Value(): Heap
      reads this
    {
      Heap(mem, freep, list, live, arena, brk)
    }

    /** free's search for the place of `bp`. */
    method FindPlace(bp: nat) returns (p: nat, ghost k: nat)
      requires Ready(Value()) && BASE < bp && bp !in list
      ensures Place(list, k, bp) && p == list[k]
    {
      ghost var n := |list|;
      ghost var t := PlaceExists(list, bp, n - 1);
      k :| 0 <= k < n && list[k] == freep;
      p := freep;
      ListedSize(Value(), k);
      while !(bp > p && bp < mem[p].ptr) && !(p >= mem[p].ptr && (bp > p || bp < mem[p].ptr))
        invariant n == |list| && k < n && p == list[k] && NodeOk(list, mem, k, -1) && t < n && Place(list, t, bp)
        decreases Dist(k, t, n)
      {
        p := mem[p].ptr;
        k := Wrap(k, n);
        ListedSize(Value(), k);
      }
    }

    /** free of an allocated block, by the address after its header; 0 is the null pointer. */
    method Free(ap: nat)
      requires Inv(Value()) && (ap == 0 || ap - 1 in live)
      modifies this
      ensures Inv(Value()) && arena == old(arena) && brk == old(brk)
      ensures live == if ap == 0 then old(live) else old(live) - {ap - 1}
      ensures ap != 0 ==> freep < ap - 1 && forall x :: x in list ==> !(freep < x < ap - 1)
    {
      if ap == 0 { return; }
      ghost var _ := FreeBlock(ap - 1);
    }

    method FreeBlock(bp: nat) returns (ghost room: nat)
      requires Ready(Value()) && bp in live
      modifies this`mem, this`freep, this`list, this`live
      ensures Ready(Value()) && freep != 0 && live == old(live) - {bp}
      ensures freep < bp && forall x :: x in list ==> !(freep < x < bp)
      ensures room < |list| && list[room] in mem && mem[list[room]].size >= old(live[bp])
    {
      ghost var h := Value();
      assert Size(h, bp) > 0;
      InHeap(h, bp);
      var p;
      ghost var k;
      p, k := FindPlace(bp);
      ghost var h';
      h', room := FreeStep(h, k, bp);
      LinkIn(p, bp);
      freep := p;
      list, live := h'.list, h'.live;
    }

    /** free after its search: the pointer writes. */
    method LinkIn(p: nat, bp: nat)
      requires p in mem && bp in mem && mem[p].ptr in mem && p != bp
      modifies this`mem
      ensures mem == Linked(old(mem), p, bp)
    {
      var q := mem[p].ptr;
      if bp + mem[bp].size == q {
        mem := mem[bp := Header(mem[q].ptr, mem[bp].size + mem[q].size)];
      } else {
        mem := mem[bp := mem[bp].(ptr := q)];
      }
      if p + mem[p].size == bp {
        mem := mem[p := Header(mem[bp].ptr, mem[p].size + mem[bp].size)];
      } else {
        mem := mem[p := mem[p].(ptr := bp)];
      }
    }

    /** morecore; `sbrk` is what sbrk would return. */
    method Morecore(nu: nat, sbrk: Option<nat>) returns (ok: bool, ghost room: nat)
      requires Ready(Value()) && nu > 0 && (sbrk.Some? ==> sbrk.value >= brk)
      modifies this
      ensures ok <==> sbrk.Some?
      ensures Ready(Value()) && freep != 0 && live == old(live)
      ensures !ok ==> Value() == old(Value())
      ensures ok ==> arena == old(arena) + Units(sbrk.value, Chunk(nu)) && brk == sbrk.value + Chunk(nu)
      ensures ok ==> room < |list| && list[room] in mem && mem[list[room]].size >= nu
    {
      room := 0;
      if sbrk.None? { FreepNotNull(Value()); return false, room; }
      var hp, n := sbrk.value, if nu < 4096 then 4096 else nu;
      Grow(hp, n);
      room := FreeBlock(hp);
      AddedAndFreed(old(live), hp, n);
      ok := true;
    }

    /** `n` units from sbrk at `hp`, with their header written. */
    method Grow(hp: nat, n: nat)
      requires Ready(Value()) && n > 0 && hp >= brk
      modifies this`mem, this`brk, this`live, this`arena
      ensures Ready(Value()) && hp !in old(live) && live == old(live)[hp := n] && arena == old(arena) + Units(hp, n)
      ensures brk == hp + n
    {
      ExtendKeepsInv(Value(), hp, n);
      ghost var h := Extend(Value(), hp, n);
      mem := mem[hp := Header(if hp in mem then mem[hp].ptr else 0, n)];
      brk := hp + n;
      live, arena := h.live, h.arena;
      assert Value() == h;
    }

    /** malloc's loop, once round the circular list from the block after `freep`. */
    method Scan(nunits: nat) returns (found: bool, prevp: nat, p: nat)
      requires FreeList(list, mem) && freep in list
      ensures found ==>
        prevp in list && prevp in mem && mem[prevp].ptr == p && p in list && p in mem && mem[p].size >= nunits
      ensures !found ==> forall k :: 0 <= k < |list| ==> list[k] in mem && mem[list[k]].size < nunits
    {
      ghost var f: nat :| f < |list| && list[f] == freep;
      ghost var s, i: nat := Wrap(f, |list|), Wrap(f, |list|);
      FollowLink(list, mem, f);
      prevp, p := freep, mem[freep].ptr;
      while mem[p].size < nunits && p != freep
        invariant i < |list| && list[i] == p && p in mem
        invariant prevp in list && prevp in mem && mem[prevp].ptr == p
        invariant Small(list, mem, s, i, nunits)
        decreases Dist(i, f, |list|)
      {
        FollowLink(list, mem, i);
        SmallStep(list, mem, f, i, nunits);
        prevp, p := p, mem[p].ptr;
        i := Wrap(i, |list|);
      }
      found := mem[p].size >= nunits;
      if !found {
        SortedDistinct(list, i, f);
        SmallAll(list, mem, f, nunits);
      }
    }

    /** malloc: the address after the header of the new block, or 0. Its loop goes round the list
        at most twice, the second time over memory that morecore made large enough. */
    method Malloc(nbytes: U32, sbrk: Option<nat>) returns (r: nat)
      requires Inv(Value()) && RequestOk(nbytes) && (sbrk.Some? ==> sbrk.value >= brk)
      modifies this
      ensures Inv(Value()) && freep != 0
      ensures HasRoom(old(Value()), NUnits(nbytes)) ==> r != 0 && arena == old(arena) && brk == old(brk)
      ensures !HasRoom(old(Value()), NUnits(nbytes)) ==> (r == 0 <==> sbrk.None?)
      ensures r == 0 ==> live == old(live) && arena == old(arena) && brk == old(brk)
      ensures r != 0 ==>
        var p, n := r - 1, NUnits(nbytes);
        p !in old(live) && live == old(live)[p := n] && 8 * (n - 1) >= nbytes
      ensures r != 0 && !HasRoom(old(Value()), NUnits(nbytes)) ==>
        arena == old(arena) + Units(sbrk.value, Chunk(NUnits(nbytes))) && brk == sbrk.value + Chunk(NUnits(nbytes))
    {
      var nunits := NUnits(nbytes);
      if freep == 0 { Start(); }
      assert HasRoom(Value(), nunits) <==> HasRoom(old(Value()), nunits);
      var found, prevp, p := Scan(nunits);
      if found { ListedRoom(Value(), p, nunits); }
      if !found {
        var ok;
        ghost var room;
        ok, room := Morecore(nunits, sbrk);
        if !ok { return 0; }
        found, prevp, p := Scan(nunits);
        assert found;
      }
      r := Take(prevp, p, nunits);
    }

    /** malloc's first call: a list of `base` alone. */
    method Start()
      requires Inv(Value()) && freep == 0
      modifies this`mem, this`freep, this`list
      ensures Ready(Value()) && freep != 0 && list == [BASE] && BASE in mem && mem[BASE].size == 0
    {
      mem := mem[BASE := Header(BASE, 0)];
      freep := BASE;
      list := [BASE];
      assert forall u: nat :: !Covered(Value(), u);
    }

    /** malloc once it found a block: exact fit, or the tail of a larger one. */
    method Take(prevp: nat, p: nat, nunits: nat) returns (r: nat)
      requires Ready(Value()) && nunits > 0 && prevp in list && prevp in mem && mem[prevp].ptr == p
      requires p in list && p in mem && mem[p].size >= nunits
      modifies this`mem, this`freep, this`list, this`live
      ensures Ready(Value()) && freep != 0
      ensures r > 0 && r - 1 !in old(live) && live == old(live)[r - 1 := nunits]
    {
      ghost var h' := TakeStep(Value(), prevp, p, nunits);
      if mem[p].size == nunits {
        mem := mem[prevp := mem[prevp].(ptr := mem[p].ptr)];
        r := p + 1;
      } else {
        mem := mem[p := mem[p].(size := mem[p].size - nunits)];
        var c := p + mem[p].size;
        mem := mem[c := Header(if c in mem then mem[c].ptr else 0, nunits)];
        r := c + 1;
      }
      freep := prevp;
      list, live := h'.list, h'.live;
      assert Value() == h';
    }
  }

  lemma AddedAndFreed(live: map<nat, nat>, a: nat, n: nat)
    requires a !in live
    ensures live[a := n] - {a} == live
  {
  }

  /** What malloc's writes to the block it takes amount to. */
  lemma TakeStep(h: Heap, prevp: nat, p: nat, n: nat) returns (h': Heap)
    requires Ready(h) && n > 0 && prevp in h.list && prevp in h.mem && h.mem[prevp].ptr == p
    requires p in h.list && p in h.mem && h.mem[p].size >= n
    ensures Ready(h') && h'.freep != 0
    ensures
      var whole, c := h.mem[p].size == n, p + (h.mem[p].size - n);
      c !in h.live && p != prevp &&
      h' == Heap(if whole then h.mem[prevp := h.mem[prevp].(ptr := h.mem[p].ptr)]
                 else h.mem[p := h.mem[p].(size := h.mem[p].size - n)]
                   [c := Header(if c in h.mem then h.mem[c].ptr else 0, n)],
                 prevp, h'.list, h.live[c := n], h.arena, h.brk)
  {
    var k := Find(h, prevp, p);
    assert prevp < p;
    CarveKeepsInv(h, k, n);
    h' := Carve(h, k, n).0;
    FreepNotNull(h');
  }

  /** Every block from position `s` up to but not including `i`, going round, is smaller than `n`. */
  ghost predicate Small(list: seq<nat>, mem: map<nat, Header>, s: nat, i: nat, n: nat)
    requires s < |list| && i < |list|
  {
    forall k :: 0 <= k < |list| && Dist(s, k, |list|) < Dist(s, i, |list|) ==> list[k] in mem && mem[list[k]].size < n
  }

  lemma SmallStep(list: seq<nat>, mem: map<nat, Header>, f: nat, i: nat, n: nat)
    requires f < |list| && i < |list| && i != f && list[i] in mem && mem[list[i]].size < n
    requires Small(list, mem, Wrap(f, |list|), i, n)
    ensures Small(list, mem, Wrap(f, |list|), Wrap(i, |list|), n)
    ensures Dist(Wrap(i, |list|), f, |list|) < Dist(i, f, |list|)
  {
  }

  /** Once round, every block has been seen. */
  lemma SmallAll(list: seq<nat>, mem: map<nat, Header>, f: nat, n: nat)
    requires f < |list| && list[f] in mem && mem[list[f]].size < n && Small(list, mem, Wrap(f, |list|), f, n)
    ensures forall k :: 0 <= k < |list| ==> list[k] in mem && mem[list[k]].size < n
  {
    forall k | 0 <= k < |list| && k != f ensures Dist(Wrap(f, |list|), k, |list|) < Dist(Wrap(f, |list|), f, |list|) {}
  }

  /** Following the pointer of a listed block. */
  lemma FollowLink(list: seq<nat>, mem: map<nat, Header>, k: nat)
    requires FreeList(list, mem) && k < |list|
    ensures list[k] in mem && mem[list[k]].ptr == list[Wrap(k, |list|)] && mem[list[k]].ptr in mem
  {
    assert NodeOk(list, mem, k, -1);
    assert NodeOk(list, mem, Wrap(k, |list|), -1);
  }

  lemma SortedDistinct(list: seq<nat>, i: nat, f: nat)
    requires Sorted(list) && i < |list| && f < |list|
    ensures list[i] == list[f] ==> i == f
  {
  }

  /** Positions of a free block and the one before it. */
  lemma Find(h: Heap, prevp: nat, p: nat) returns (k: nat)
    requires Ready(h) && prevp in h.list && prevp in h.mem && h.mem[prevp].ptr == p && p in h.mem && h.mem[p].size > 0
    ensures 0 < k < |h.list| && h.list[k] == p && h.list[k - 1] == prevp
  {
    var j :| 0 <= j < |h.list| && h.list[j] == prevp;
    ListedSize(h, j);
    assert j + 1 < |h.list|;
    k := j + 1;
  }

  /** Between the free block before the place and the block itself there is none. */
  lemma PlaceStays(h: Heap, k: nat, bp: nat)
    requires Ready(h) && bp in h.live && Place(h.list, k, bp) && h.list[k] in h.mem && bp in h.mem
    requires h.mem[h.list[k]].ptr in h.mem
    ensures h.list[k] < bp && forall x :: x in FreeAt(h, k, bp).list ==> !(h.list[k] < x < bp)
  {
    var l := FreeAt(h, k, bp).list;
    forall x | x in l && x != bp ensures x in h.list {}
    forall x | x in h.list ensures !(h.list[k] < x < bp) { var j :| 0 <= j < |h.list| && h.list[j] == x; }
  }

  /** What free's pointer writes amount to. */
  lemma FreeStep(h: Heap, k: nat, bp: nat) returns (h': Heap, room: nat)
    requires Ready(h) && bp in h.live && Place(h.list, k, bp)
    ensures var p := h.list[k];
            p in h.mem && bp in h.mem && h.mem[p].ptr in h.mem && p != bp &&
            h' == Heap(Linked(h.mem, p, bp), p, h'.list, h.live - {bp}, h.arena, h.brk)
    ensures Ready(h') && h'.freep != 0
    ensures h'.freep < bp && forall x :: x in h'.list ==> !(h'.freep < x < bp)
    ensures room < |h'.list| && h'.list[room] in h'.mem && h'.mem[h'.list[room]].size >= h.live[bp]
  {
    FreeKeepsInv(h, k, bp);
    PlaceStays(h, k, bp);
    room := FreeLeavesRoom(h, k, bp);
    h' := FreeAt(h, k, bp);
    FreepNotNull(h');
    LinkedIsFree(h, k, bp);
  }

  lemma LinkedIsFree(h: Heap, k: nat, bp: nat)
    requires k < |h.list| && h.list[k] in h.mem && bp in h.mem && h.mem[h.list[k]].ptr in h.mem && h.list[k] != bp
    ensures FreeAt(h, k, bp).mem == Linked(h.mem, h.list[k], bp)
  {
  }

  lemma FreepNotNull(h: Heap)
    requires Ready(h)
    ensures h.freep != 0
  {
    var k :| 0 <= k < |h.list| && h.list[k] == h.freep;
    ListedSize(h, k);
  }

  /** Memory after free's pointer writes, the block going in after `p`. */
  function Linked(mem: map<nat, Header>, p: nat, bp: nat): map<nat, Header>
    requires p in mem && bp in mem && mem[p].ptr in mem
  {
    var q, size := mem[p].ptr, mem[bp].size;
    var mem1 := if bp + size == q then mem[bp := Header(mem[q].ptr, size + mem[q].size)]
      else mem[bp := Header(q, size)];
    if p + mem1[p].size == bp then mem1[p := Header(mem1[bp].ptr, mem1[p].size + mem1[bp].size)]
    else mem1[p := mem1[p].(ptr := bp)]
  }
}
