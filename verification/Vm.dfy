/** Physical page frames (kernel/kalloc.c) and the user part of one two-level page table
    (kernel/vm.c).

    Addresses are in bytes, frames are numbered. A page table takes up a frame, whose contents
    are its 1024 entries; access rights are not modelled.
 */
module Vm {

  import opened Wrappers

  /** What a frame holds: what kfree leaves, zeroes, or a page table. */
  datatype Fill = Junk | Zeroes | Entries(e: seq<Option<nat>>)

  /** `free`, `cnt` and `protect` are kmem's free list, page_cnt and page_protect; `root` is the
      frame of the page directory `dir`. */
  datatype State = State(free: seq<nat>, cnt: int, protect: int, fill: map<nat, Fill>, root: nat, dir: seq<Option<nat>>)

  /** What a page table owns a frame for: the directory, the table of a directory entry, a page
      below KERNBASE. */
  datatype Place = Directory | Table(i: nat) | Page(v: nat)

  predicate WellFormed(s: State) {
    && |s.dir| == 1024
    && (forall i :: 0 <= i < 1024 && s.dir[i].Some? ==> TableOk(s.fill, s.dir[i].value))
  }

  predicate TableOk(fill: map<nat, Fill>, t: nat) {
    t in fill && fill[t].Entries? && |fill[t].e| == 1024
  }

  /** The frame at page `v`. */
  function Entry(s: State, v: nat): Option<nat>
    requires WellFormed(s) && v < 0x10_0000
  {
    if s.dir[v / 1024].None? then None else s.fill[s.dir[v / 1024].value].e[v % 1024]
  }

  function Frame(s: State, p: Place): Option<nat>
    requires WellFormed(s)
  {
    match p
    case Directory => Some(s.root)
    case Table(i) => if i < 1024 then s.dir[i] else None
    case Page(v) => if v < 0x8_0000 then Entry(s, v) else None
  }

  predicate Distinct(l: seq<nat>) {
    forall i, j :: 0 <= i < j < |l| ==> l[i] != l[j]
  }

  ghost predicate Owned(s: State, f: nat)
    requires WellFormed(s)
  {
    exists p :: Frame(s, p) == Some(f)
  }

  /** The counters of kmem are right, and no frame is promised twice. */
  ghost predicate CountersOk(s: State) {
    Distinct(s.free) && s.cnt == |s.free| && s.protect <= s.cnt
  }

  /** Every frame of `all` is free, in the hands of a running call (`hand`), or owned by the
      page table at one place; only one of the three. */
  ghost predicate InvX(s: State, all: set<nat>, hand: set<nat>) {
    && WellFormed(s) && CountersOk(s) && hand <= all
    && (forall f :: f in s.free ==> f in all && f !in hand)
    && (forall p, f :: Frame(s, p) == Some(f) ==> f in all && f !in hand && f !in s.free)
    && (forall p, q, f :: Frame(s, p) == Some(f) && Frame(s, q) == Some(f) ==> p == q)
    && (forall f :: f in all ==> f in hand || f in s.free || Owned(s, f))
  }

  ghost predicate Inv(s: State, all: set<nat>) { InvX(s, all, {}) }

  // ----- kalloc and kfree

  function Kalloced(s: State): State
    requires s.free != []
  {
    s.(free := s.free[1..], cnt := s.cnt - 1)
  }

  /** kalloc's test: protected pages are not given out. */
  predicate CanAlloc(s: State) { s.cnt > s.protect && s.free != [] }

  lemma KallocKeeps(s: State, all: set<nat>, hand: set<nat>)
    requires InvX(s, all, hand) && CanAlloc(s)
    ensures InvX(Kalloced(s), all, hand + {s.free[0]}) && s.free[0] !in hand
  {
    var s', x := Kalloced(s), s.free[0];
    SameFrames(s, s');
    forall f | f in s.free ensures f == x || f in s'.free {
      var i :| 0 <= i < |s.free| && s.free[i] == f;
      assert i > 0 ==> s'.free[i - 1] == f;
    }
    assert x in s.free && x !in s'.free;
    forall f | f in all ensures f in hand + {x} || f in s'.free || Owned(s', f) {
      if Owned(s, f) { var p :| Frame(s, p) == Some(f); assert Frame(s', p) == Some(f); }
    }
  }

  lemma SameFrames(s: State, s': State)
    requires WellFormed(s) && s'.fill == s.fill && s'.root == s.root && s'.dir == s.dir
    ensures WellFormed(s') && forall p :: Frame(s', p) == Frame(s, p)
  {
  }

  function Kfreed(s: State, f: nat): State {
    s.(free := [f] + s.free, cnt := s.cnt + 1, fill := s.fill[f := Junk])
  }

  lemma KfreeKeeps(s: State, all: set<nat>, hand: set<nat>, x: nat)
    requires InvX(s, all, hand) && x in hand
    ensures InvX(Kfreed(s, x), all, hand - {x})
    ensures forall p :: Frame(Kfreed(s, x), p) == Frame(s, p)
  {
    var s' := Kfreed(s, x);
    NotTable(s, all, hand, x);
    FillFrame(s, s', x);
    assert s'.free[0] == x;
    forall f | f in s.free ensures f in s'.free {
      var i :| 0 <= i < |s.free| && s.free[i] == f;
      assert s'.free[i + 1] == f;
    }
    forall f | f in all ensures f in hand - {x} || f in s'.free || Owned(s', f) {
      if Owned(s, f) { var p :| Frame(s, p) == Some(f); assert Frame(s', p) == Some(f); }
    }
  }

  /** Writing to a frame that is no page table of ours changes no mapping. */
  lemma FillFrame(s: State, s': State, x: nat)
    requires WellFormed(s) && s'.root == s.root && s'.dir == s.dir
    requires forall i :: 0 <= i < 1024 ==> s.dir[i] != Some(x)
    requires forall f :: f in s.fill && f != x ==> f in s'.fill && s'.fill[f] == s.fill[f]
    ensures WellFormed(s') && forall p :: Frame(s', p) == Frame(s, p)
  {
    forall i | 0 <= i < 1024 && s'.dir[i].Some? ensures TableOk(s'.fill, s'.dir[i].value) {
      assert TableOk(s.fill, s.dir[i].value);
    }
    forall p ensures Frame(s', p) == Frame(s, p) {}
  }

  lemma NotTable(s: State, all: set<nat>, hand: set<nat>, x: nat)
    requires InvX(s, all, hand) && x in hand
    ensures forall i :: 0 <= i < 1024 ==> s.dir[i] != Some(x)
  {
    forall i | 0 <= i < 1024 ensures s.dir[i] != Some(x) { assert Frame(s, Table(i)) == s.dir[i]; }
  }

  /** memset of a frame in hand. */
  lemma MemsetKeeps(s: State, all: set<nat>, hand: set<nat>, x: nat, y: Fill)
    requires InvX(s, all, hand) && x in hand
    ensures var s' := s.(fill := s.fill[x := y]); InvX(s', all, hand) && forall p :: Frame(s', p) == Frame(s, p)
  {
    var s' := s.(fill := s.fill[x := y]);
    NotTable(s, all, hand, x);
    FillFrame(s, s', x);
    OwnedFrame(s, s');
  }

  lemma OwnedFrame(s: State, s': State)
    requires WellFormed(s) && WellFormed(s') && forall p :: Frame(s', p) == Frame(s, p)
    ensures forall f: nat :: Owned(s, f) <==> Owned(s', f)
  {
    forall f: nat ensures Owned(s, f) <==> Owned(s', f) {
      if Owned(s, f) { var p :| Frame(s, p) == Some(f); assert Frame(s', p) == Some(f); }
      if Owned(s', f) { var p :| Frame(s', p) == Some(f); assert Frame(s, p) == Some(f); }
    }
  }

  // ----- changing one place

  /** One place of the page table gets a frame that was in hand. */
  lemma PlaceKeeps(s: State, s': State, all: set<nat>, hand: set<nat>, p: Place, x: nat)
    requires InvX(s, all, hand) && x in hand && WellFormed(s') && Frame(s, p) == None
    requires s'.free == s.free && s'.cnt == s.cnt && s'.protect == s.protect
    requires forall q :: Frame(s', q) == if q == p then Some(x) else Frame(s, q)
    ensures InvX(s', all, hand - {x})
  {
    forall f | f in all ensures f in hand - {x} || f in s'.free || Owned(s', f) {
      if f == x {
        assert Frame(s', p) == Some(f);
      } else if Owned(s, f) {
        var q :| Frame(s, q) == Some(f);
        assert Frame(s', q) == Some(f);
      }
    }
  }

  /** One place of the page table gives its frame up. */
  lemma TakeKeeps(s: State, s': State, all: set<nat>, hand: set<nat>, p: Place, x: nat)
    requires InvX(s, all, hand) && WellFormed(s') && Frame(s, p) == Some(x)
    requires s'.free == s.free && s'.cnt == s.cnt && s'.protect == s.protect
    requires forall q :: Frame(s', q) == if q == p then None else Frame(s, q)
    ensures InvX(s', all, hand + {x})
  {
    forall f | f in all ensures f in hand + {x} || f in s'.free || Owned(s', f) {
      if f != x && Owned(s, f) {
        var q :| Frame(s, q) == Some(f);
        assert Frame(s', q) == Some(f);
      }
    }
  }

  function NoEntries(): (e: seq<Option<nat>>)
    ensures |e| == 1024 && forall i :: 0 <= i < 1024 ==> e[i] == None
  {
    seq(1024, i => None)
  }

  /** walkpgdir adds the zeroed table `x` to the directory. */
  lemma AddTable(s: State, all: set<nat>, hand: set<nat>, i: nat, x: nat)
    requires InvX(s, all, hand) && x in hand && x in s.fill && s.fill[x] == Entries(NoEntries()) && i < 1024 &&
      s.dir[i] == None
    ensures var s' := s.(dir := s.dir[i := Some(x)]);
      InvX(s', all, hand - {x}) && forall q :: Frame(s', q) == if q == Table(i) then Some(x) else Frame(s, q)
  {
    var s' := s.(dir := s.dir[i := Some(x)]);
    forall j | 0 <= j < 1024 && s'.dir[j].Some? ensures TableOk(s'.fill, s'.dir[j].value) {
      if j != i { assert TableOk(s.fill, s.dir[j].value); }
    }
    forall q ensures Frame(s', q) == if q == Table(i) then Some(x) else Frame(s, q) {}
    PlaceKeeps(s, s', all, hand, Table(i), x);
  }

  /** Writing entry `v`. */
  function WithEntry(s: State, v: nat, x: Option<nat>): State
    requires WellFormed(s) && v < 0x10_0000 && s.dir[v / 1024].Some?
  {
    var t := s.dir[v / 1024].value;
    s.(fill := s.fill[t := Entries(s.fill[t].e[v % 1024 := x])])
  }

  lemma WithEntryFrames(s: State, v: nat, x: Option<nat>)
    requires WellFormed(s) && v < 0x8_0000 && s.dir[v / 1024].Some?
    requires forall i :: 0 <= i < 1024 && s.dir[i] == s.dir[v / 1024] ==> i == v / 1024
    ensures WellFormed(WithEntry(s, v, x))
    ensures forall q :: Frame(WithEntry(s, v, x), q) == if q == Page(v) then x else Frame(s, q)
  {
    var s' := WithEntry(s, v, x);
    forall i | 0 <= i < 1024 && s'.dir[i].Some? ensures TableOk(s'.fill, s'.dir[i].value) {
      assert TableOk(s.fill, s.dir[i].value);
    }
    forall q ensures Frame(s', q) == if q == Page(v) then x else Frame(s, q) {
      if q.Page? && q.v < 0x8_0000 { OneEntry(s, v, x, q.v); }
    }
  }

  lemma OneEntry(s: State, v: nat, x: Option<nat>, w: nat)
    requires WellFormed(s) && v < 0x8_0000 && w < 0x8_0000 && s.dir[v / 1024].Some? && WellFormed(WithEntry(s, v, x))
    requires forall i :: 0 <= i < 1024 && s.dir[i] == s.dir[v / 1024] ==> i == v / 1024
    ensures Entry(WithEntry(s, v, x), w) == if w == v then x else Entry(s, w)
  {
    if w / 1024 == v / 1024 { assert w % 1024 == v % 1024 ==> w == v; }
  }

  lemma TablesApart(s: State, all: set<nat>, hand: set<nat>, i: nat, j: nat)
    requires InvX(s, all, hand) && i < 1024 && j < 1024 && s.dir[i].Some? && s.dir[i] == s.dir[j]
    ensures i == j
  {
    assert Frame(s, Table(i)) == s.dir[i] && Frame(s, Table(j)) == s.dir[i];
  }

  lemma MapKeeps(s: State, all: set<nat>, hand: set<nat>, v: nat, x: nat)
    requires InvX(s, all, hand) && x in hand && v < 0x8_0000 && s.dir[v / 1024].Some? && Entry(s, v) == None
    ensures var s' := WithEntry(s, v, Some(x));
      InvX(s', all, hand - {x}) && forall q :: Frame(s', q) == if q == Page(v) then Some(x) else Frame(s, q)
  {
    forall i | 0 <= i < 1024 && s.dir[i] == s.dir[v / 1024] ensures i == v / 1024 {
      TablesApart(s, all, hand, i, v / 1024);
    }
    WithEntryFrames(s, v, Some(x));
    assert Frame(s, Page(v)) == None;
    PlaceKeeps(s, WithEntry(s, v, Some(x)), all, hand, Page(v), x);
  }

  lemma UnmapKeeps(s: State, all: set<nat>, hand: set<nat>, v: nat)
    requires InvX(s, all, hand) && v < 0x8_0000 && s.dir[v / 1024].Some? && Entry(s, v).Some?
    ensures var s' := WithEntry(s, v, None);
      InvX(s', all, hand + {Entry(s, v).value}) &&
        forall q :: Frame(s', q) == if q == Page(v) then None else Frame(s, q)
  {
    forall i | 0 <= i < 1024 && s.dir[i] == s.dir[v / 1024] ensures i == v / 1024 {
      TablesApart(s, all, hand, i, v / 1024);
    }
    WithEntryFrames(s, v, None);
    assert Frame(s, Page(v)) == Entry(s, v);
    TakeKeeps(s, WithEntry(s, v, None), all, hand, Page(v), Entry(s, v).value);
  }

  // ----- reserved pages

  /** Right after a reserved page is given up (dec_protect_mem returned 0), kalloc fails only
      if there is no free page at all. */
  lemma ReservedPageIsThere(s: State)
    requires CountersOk(s)
    ensures CanAlloc(s.(protect := s.protect - 1)) <==> s.cnt > 0
    ensures s.protect > 0 ==> CanAlloc(s.(protect := s.protect - 1))
  {
    assert s.cnt > 0 <==> s.free != [];
  }

  /** increse_protect_counter never promises more pages than are free. */
  function Protected(s: State, n: nat): (r: State)
    ensures CountersOk(s) ==> CountersOk(r)
  {
    if n + s.protect <= s.cnt then s.(protect := s.protect + n) else s
  }

  lemma ProtectKeeps(s: State, s': State, all: set<nat>, hand: set<nat>)
    requires InvX(s, all, hand) && s' == s.(protect := s'.protect) && s'.protect <= s'.cnt
    ensures InvX(s', all, hand) && forall p :: Frame(s', p) == Frame(s, p)
  {
    SameFrames(s, s');
    OwnedFrame(s, s');
  }

  // ----- user pages

  /** PGROUNDUP(sz) / PGSIZE */
  function PagesUp(sz: nat): nat { (sz + 4095) / 4096 }

  /** User pages in `[from, to)` are unmapped and the others as in `s`. */
  ghost predicate UnmappedFrom(s: State, s': State, from: nat, to: nat) {
    && WellFormed(s) && WellFormed(s')
    && forall w: nat :: Frame(s', Page(w)) == if from <= w < to then None else Frame(s, Page(w))
  }

  /** User pages in `[from, to)` are mapped to zeroed frames and the others as in `s`. */
  ghost predicate Grown(s: State, s': State, from: nat, to: nat) {
    && WellFormed(s) && WellFormed(s')
    && (forall w: nat :: from <= w < to ==> ZeroPage(s', w))
    && (forall w: nat :: !(from <= w < to) ==> Frame(s', Page(w)) == Frame(s, Page(w)))
  }

  predicate ZeroPage(s: State, w: nat)
    requires WellFormed(s)
  {
    Frame(s, Page(w)).Some? && Frame(s, Page(w)).value in s.fill && s.fill[Frame(s, Page(w)).value] == Zeroes
  }

  /** Data frames, of mapped pages and in hand, keep their contents. */
  ghost predicate DataKept(s: State, s': State, hand: set<nat>)
    requires WellFormed(s)
  {
    forall f :: f in s.fill && (f in hand || exists w: nat :: Frame(s, Page(w)) == Some(f)) ==>
      f in s'.fill && s'.fill[f] == s.fill[f]
  }

  /** The tables below directory entry `i` given up. */
  function Cleared(s: State, i: nat): State {
    s.(dir := seq(|s.dir|, j requires 0 <= j < |s.dir| => if j < i then None else s.dir[j]))
  }

  // ----- freevm

  ghost predicate NoPages(s: State) {
    WellFormed(s) && forall w: nat :: Frame(s, Page(w)) == None
  }

  /** The tables from entry `i` on are still intact. */
  predicate TableFill(s: State, i: nat) {
    |s.dir| == 1024 && forall j :: i <= j < 1024 && s.dir[j].Some? ==> TableOk(s.fill, s.dir[j].value)
  }

  lemma UnmappedAll(s: State, s': State)
    requires UnmappedFrom(s, s', PagesUp(0), PagesUp(0x8000_0000))
    ensures NoPages(s')
  {
  }

  lemma StartClearing(s: State, all: set<nat>)
    requires Inv(s, all) && NoPages(s)
    ensures TableFill(s, 0) && InvX(Cleared(s, 0), all, {}) && NoPages(Cleared(s, 0))
  {
    assert Cleared(s, 0).dir == s.dir;
  }

  /** Giving up table `i`, whose pages are all unmapped. */
  lemma ClearTable(s: State, all: set<nat>, i: nat)
    requires i < 1024 && |s.dir| == 1024 && TableFill(s, i) && InvX(Cleared(s, i), all, {}) && NoPages(Cleared(s, i))
    ensures var s' := if s.dir[i].Some? then Kfreed(s, s.dir[i].value) else s;
      TableFill(s', i + 1) && InvX(Cleared(s', i + 1), all, {}) && NoPages(Cleared(s', i + 1))
  {
    var c, c' := Cleared(s, i), Cleared(s, i + 1);
    forall j | 0 <= j < 1024 && c'.dir[j].Some? ensures TableOk(c'.fill, c'.dir[j].value) {
      assert c.dir[j] == c'.dir[j];
    }
    assert c.dir[i] == s.dir[i];
    if s.dir[i].None? {
      assert c'.dir == c.dir;
    } else {
      var x := s.dir[i].value;
      assert Frame(c, Table(i)) == Some(x);
      forall q ensures Frame(c', q) == if q == Table(i) then None else Frame(c, q) {
        assert q.Page? ==> Frame(c, Page(q.v)) == None;
      }
      TakeKeeps(c, c', all, {}, Table(i), x);
      assert {} + {x} == {x} && {x} - {x} == {};
      KfreeKeeps(c', all, {x}, x);
      assert Cleared(Kfreed(s, x), i + 1) == Kfreed(c', x);
      forall j | i + 1 <= j < 1024 && s.dir[j].Some? ensures s.dir[j].value != x {
        assert c.dir[j] == s.dir[j];
        assert Frame(c, Table(j)) == c.dir[j];
      }
    }
  }

  lemma LastFrame(s: State, all: set<nat>)
    requires |s.dir| == 1024 && InvX(Cleared(s, 1024), all, {}) && NoPages(Cleared(s, 1024))
    ensures var s' := Kfreed(s, s.root);
      Distinct(s'.free) && s'.cnt == |s'.free| && s'.protect <= s'.cnt && forall f :: f in s'.free <==> f in all
  {
    var c, s' := Cleared(s, 1024), Kfreed(s, s.root);
    assert Frame(c, Directory) == Some(s.root);
    assert s'.free[0] == s.root;
    forall f | f in all ensures f in s'.free {
      if f in s.free {
        var i :| 0 <= i < |s.free| && s.free[i] == f;
        assert s'.free[i + 1] == f;
      } else {
        assert Owned(c, f);
        var p :| Frame(c, p) == Some(f);
        assert p == Directory;
      }
    }
  }

  lemma TableIsNoData(s: State, all: set<nat>, hand: set<nat>, i: nat)
    requires InvX(s, all, hand) && i < 1024 && s.dir[i].Some?
    ensures s.dir[i].value !in hand && forall w: nat :: Frame(s, Page(w)) != s.dir[i]
  {
    assert Frame(s, Table(i)) == s.dir[i];
  }

  /** How many pages from `from` up to `to` are mapped. */
  ghost function Mapped(s: State, from: nat, to: nat): nat
    requires WellFormed(s)
  {
    if from >= to then 0 else Mapped(s, from, to - 1) + if Frame(s, Page(to - 1)).Some? then 1 else 0
  }

  lemma {:induction false} MappedConcat(s: State, from: nat, mid: nat, to: nat)
    requires WellFormed(s) && from <= mid <= to
    ensures Mapped(s, from, to) == Mapped(s, from, mid) + Mapped(s, mid, to)
  {
    if mid < to { MappedConcat(s, from, mid, to - 1); }
  }

  lemma {:induction false} MappedSame(s: State, s': State, from: nat, to: nat)
    requires WellFormed(s) && WellFormed(s')
    requires forall w: nat :: from <= w < to ==> Frame(s', Page(w)) == Frame(s, Page(w))
    ensures Mapped(s', from, to) == Mapped(s, from, to)
  {
    if from < to { MappedSame(s, s', from, to - 1); }
  }

  lemma {:induction false} MappedNone(s: State, from: nat, to: nat)
    requires WellFormed(s) && forall w: nat :: from <= w < to ==> Frame(s, Page(w)) == None
    ensures Mapped(s, from, to) == 0
  {
    if from < to { MappedNone(s, from, to - 1); }
  }

  lemma {:induction false} MappedAll(s: State, from: nat, to: nat)
    requires WellFormed(s) && from <= to && forall w: nat :: from <= w < to ==> Frame(s, Page(w)).Some?
    ensures Mapped(s, from, to) == to - from
  {
    if from < to { MappedAll(s, from, to - 1); }
  }

  /** Of a range that has grown up to `v`, that part is mapped. */
  lemma GrownMapped(s: State, s0: State, from: nat, v: nat, to: nat)
    requires Grown(s, s0, from, v) && from <= v <= to
    requires forall w: nat :: from <= w < to ==> Frame(s, Page(w)) == None
    ensures Mapped(s0, from, to) == v - from
  {
    forall w: nat | from <= w < v ensures Frame(s0, Page(w)).Some? { assert ZeroPage(s0, w); }
    MappedAll(s0, from, v);
    MappedNone(s0, v, to);
    MappedConcat(s0, from, v, to);
  }

  /** deallocuvm after the pages up to `a`, and then those up to `b`. */
  lemma MappedStep(s: State, s0: State, from: nat, a: nat, b: nat)
    requires WellFormed(s) && UnmappedFrom(s, s0, from, a) && from <= a <= b
    ensures Mapped(s, from, b) == Mapped(s, from, a) + Mapped(s0, a, b)
  {
    MappedConcat(s, from, a, b);
    MappedSame(s, s0, a, b);
  }

  // ----- what growing takes

  function Min(a: int, b: int): int { if a <= b then a else b }

  function Max(a: int, b: int): int { if a >= b then a else b }

  /** Directory entries from `lo` up to `hi` that have no page table yet. */
  function Missing(dir: seq<Option<nat>>, lo: nat, hi: nat): nat
    requires hi <= |dir|
  {
    if lo >= hi then 0 else Missing(dir, lo, hi - 1) + if dir[hi - 1] == None then 1 else 0
  }

  /** Frames that growing from page `from` to page `to` takes: the pages, and the missing tables. */
  function Need(dir: seq<Option<nat>>, from: nat, to: nat): nat
    requires |dir| == 1024 && to <= 0x8_0000
  {
    if from >= to then 0 else to - from + Missing(dir, from / 1024, (to - 1) / 1024 + 1)
  }

  /** Frames that one more page takes. */
  function Cost(dir: seq<Option<nat>>, v: nat): nat
    requires |dir| == 1024 && v < 0x8_0000
  {
    1 + if dir[v / 1024] == None then 1 else 0
  }

  /** The tables of the pages from `from` up to `v` have been added. */
  ghost predicate TablesAdded(dir0: seq<Option<nat>>, dir: seq<Option<nat>>, from: nat, v: nat) {
    && |dir0| == |dir| == 1024
    && (forall i :: 0 <= i < 1024 ==>
          (dir[i] == None <==> dir0[i] == None && !(from < v && from / 1024 <= i <= (v - 1) / 1024)))
  }

  lemma NeedStep(dir0: seq<Option<nat>>, dir: seq<Option<nat>>, from: nat, v: nat)
    requires TablesAdded(dir0, dir, from, v) && from <= v < 0x8_0000
    ensures Need(dir0, from, v + 1) == Need(dir0, from, v) + Cost(dir, v)
  {
    if from < v && v % 1024 != 0 {
      assert (v - 1) / 1024 == v / 1024;
    } else if from < v {
      assert (v - 1) / 1024 + 1 == v / 1024;
    } else {
      assert Missing(dir0, v / 1024, v / 1024) == 0;
    }
  }

  lemma {:induction false} MissingGrows(dir: seq<Option<nat>>, lo: nat, mid: nat, hi: nat)
    requires mid <= hi <= |dir|
    ensures Missing(dir, lo, mid) <= Missing(dir, lo, hi)
  {
    if mid < hi { MissingGrows(dir, lo, mid, hi - 1); }
  }

  lemma NeedGrows(dir: seq<Option<nat>>, from: nat, v: nat, to: nat)
    requires |dir| == 1024 && from <= v <= to <= 0x8_0000
    ensures Need(dir, from, v) + (to - v) <= Need(dir, from, to)
  {
    if from < v {
      assert (v - 1) / 1024 <= (to - 1) / 1024;
      MissingGrows(dir, from / 1024, (v - 1) / 1024 + 1, (to - 1) / 1024 + 1);
    }
  }

  /** Growing from page `from` to page `to` leaves as many free frames as stay protected, when the
      group may give up `reserved` of them. */
  predicate Affordable(dir: seq<Option<nat>>, cnt: int, protect: int, reserved: nat, from: nat, to: nat)
    requires |dir| == 1024 && to <= 0x8_0000
  {
    from < to ==> cnt - Need(dir, from, to) >= Max(0, protect - Min(to - from, reserved))
  }

  /** One page is allocated exactly if its frames leave as many as are protected; then the table of
      the page is there, and the frames are gone. */
  ghost predicate Paid(s: State, s': State, v: nat, ok: bool) {
    && |s.dir| == |s'.dir| == 1024 && v < 0x8_0000
    && (ok <==> s.cnt - Cost(s.dir, v) >= Max(0, s'.protect))
    && (ok ==> s'.cnt == s.cnt - Cost(s.dir, v))
    && (ok ==> forall i :: 0 <= i < 1024 ==> (s'.dir[i] == None <==> s.dir[i] == None && i != v / 1024))
  }

  /** If page `v` cannot be paid for, neither can the whole range. */
  lemma TooMuch(dir: seq<Option<nat>>, cnt: int, protect: int, reserved: nat, from: nat, v: nat, to: nat)
    requires |dir| == 1024 && from <= v < to <= 0x8_0000
    requires cnt - Need(dir, from, v + 1) < Max(0, protect - Min(v + 1 - from, reserved))
    ensures !Affordable(dir, cnt, protect, reserved, from, to)
  {
    NeedGrows(dir, from, v + 1, to);
  }

  /** allocuvm after the pages up to `v`, `given` of them taken from the group's reservation. */
  ghost predicate Growing(s: State, s': State, from: nat, v: nat, given: nat, reserved: nat) {
    && from <= v <= 0x8_0000 && TablesAdded(s.dir, s'.dir, from, v) && s'.cnt == s.cnt - Need(s.dir, from, v)
    && s'.protect + given == s.protect && given == Min(v - from, reserved)
  }

  lemma GrowingStep(s: State, s0: State, s1: State, from: nat, v: nat, to: nat, given: nat, reserved: nat, ok: bool)
    requires Growing(s, s0, from, v, given, reserved) && v < to <= 0x8_0000 && Paid(s0, s1, v, ok)
    requires s1.protect == s0.protect - if given < reserved then 1 else 0
    ensures ok ==> Growing(s, s1, from, v + 1, given + if given < reserved then 1 else 0, reserved)
    ensures !ok ==> !Affordable(s.dir, s.cnt, s.protect, reserved, from, to)
  {
    NeedStep(s.dir, s0.dir, from, v);
    if !ok { TooMuch(s.dir, s.cnt, s.protect, reserved, from, v, to); }
  }

  lemma PageBelow(newsz: nat, oldsz: nat, v: nat)
    requires oldsz <= newsz
    ensures PagesUp(oldsz) <= PagesUp(newsz) && (4096 * v < newsz <==> v < PagesUp(newsz))
  {
  }

  /** What the loop of allocuvm keeps; the group's reservation has gone from `start` to `left`. */
  ghost predicate Midway(s: State, s': State, all: set<nat>, from: nat, v: nat, start: int, left: int, avail: nat) {
    exists given: nat ::
      Growing(s, s', from, v, given, avail) && left + given == start && Inv(s', all) && Grown(s, s', from, v)
  }

  lemma MidwayStart(s: State, all: set<nat>, from: nat, start: int, avail: nat)
    requires Inv(s, all) && from <= 0x8_0000
    ensures Midway(s, s, all, from, from, start, start, avail)
  {
    assert Growing(s, s, from, from, 0, avail);
  }

  lemma MidwayNow(s: State, s': State, all: set<nat>, from: nat, v: nat, start: int, left: int, avail: nat)
    requires Midway(s, s', all, from, v, start, left, avail)
    ensures start >= left && Growing(s, s', from, v, start - left, avail) && Inv(s', all) && Grown(s, s', from, v)
  {
  }

  /** The whole range once it has been paid for. */
  lemma MidwayEnd(s: State, s': State, all: set<nat>, from: nat, to: nat, start: int, left: int, avail: nat)
    requires Midway(s, s', all, from, to, start, left, avail)
    ensures Inv(s', all) && Grown(s, s', from, to) && s'.cnt == s.cnt - Need(s.dir, from, to)
    ensures s'.protect + start == s.protect + left && Affordable(s.dir, s.cnt, s.protect, avail, from, to)
  {
  }

  /** The range is free to map. */
  ghost predicate Unmapped(s: State, from: nat, to: nat) {
    WellFormed(s) && forall w: nat :: from <= w < to ==> Frame(s, Page(w)) == None
  }

  lemma RolledBack(s: State, s0: State, s1: State, from: nat, v: nat, to: nat)
    requires Grown(s, s0, from, v) && v <= to && UnmappedFrom(s0, s1, from, to)
    requires forall w: nat :: from <= w < to ==> Frame(s, Page(w)) == None
    ensures UnmappedFrom(s, s1, 0, 0)
  {
  }

  lemma GrownStep(s: State, s0: State, s1: State, from: nat, v: nat, x: nat)
    requires Grown(s, s0, from, v) && from <= v && WellFormed(s1) && DataKept(s0, s1, {x})
    requires forall w: nat :: Frame(s1, Page(w)) == if w == v then Some(x) else Frame(s0, Page(w))
    requires x in s0.fill && s0.fill[x] == Zeroes
    ensures Grown(s, s1, from, v + 1)
  {
    forall w: nat | from <= w < v + 1 ensures ZeroPage(s1, w) {
      if w != v { assert ZeroPage(s0, w); }
    }
  }

  /** The pages stay where they are and keep their contents. */
  lemma GrownKept(s: State, s0: State, s1: State, from: nat, v: nat)
    requires Grown(s, s0, from, v) && UnmappedFrom(s0, s1, 0, 0) && DataKept(s0, s1, {})
    ensures Grown(s, s1, from, v)
  {
    forall w: nat | from <= w < v ensures ZeroPage(s1, w) { assert ZeroPage(s0, w); }
  }

  lemma NoTable(s: State, i: nat)
    requires WellFormed(s) && i < 1024 && s.dir[i] == None
    ensures forall w: nat :: 1024 * i <= w < 1024 * (i + 1) ==> Frame(s, Page(w)) == None
  {
  }

  class PageTable {
    var free: seq<nat>
    var cnt: int
    var protect: int
    var fill: map<nat, Fill>
    var root: nat
    var dir: seq<Option<nat>>
    /** The control group: whether its memory controller protects pages, and how many. */
    var guarded: bool
    var reserved: nat

    ghost function Value(): State
      reads this
    {
      State(free, cnt, protect, fill, root, dir)
    }

    /** kalloc. */
    method Kalloc() returns (r: Option<nat>)
      modifies this`free, this`cnt
      ensures r.Some? <==> CanAlloc(old(Value()))
      ensures r.Some? ==> r.value == old(free[0]) && Value() == Kalloced(old(Value()))
      ensures r.None? ==> Value() == old(Value())
    {
      if cnt <= protect { return None; }
      if free == [] { return None; }
      r := Some(free[0]);
      free, cnt := free[1..], cnt - 1;
    }

    /** kfree. */
    method Kfree(f: nat)
      modifies this`free, this`cnt, this`fill
      ensures Value() == Kfreed(old(Value()), f)
    {
      fill := fill[f := Junk];
      free, cnt := [f] + free, cnt + 1;
    }

    /** walkpgdir with `alloc` set: the page table for page `v`. */
    method WalkAlloc(v: nat, ghost all: set<nat>, ghost hand: set<nat>) returns (ok: bool)
      requires InvX(Value(), all, hand) && v < 0x8_0000
      modifies this`free, this`cnt, this`fill, this`dir
      ensures InvX(Value(), all, hand) && UnmappedFrom(old(Value()), Value(), 0, 0)
      ensures ok ==> dir[v / 1024].Some?
      ensures ok <==> old(dir)[v / 1024].Some? || CanAlloc(old(Value()))
      ensures !ok ==> Value() == old(Value())
      ensures forall f :: f in old(fill) && f !in old(free) ==> f in fill && fill[f] == old(fill)[f]
      ensures forall i :: 0 <= i < 1024 && i != v / 1024 ==> dir[i] == old(dir)[i]
      ensures ok ==> cnt == old(cnt) - if old(dir)[v / 1024] == None then 1 else 0
    {
      if dir[v / 1024].Some? { return true; }
      ghost var s := Value();
      if CanAlloc(s) { KallocKeeps(s, all, hand); }
      var x := Kalloc();
      if x.None? { return false; }
      SameFrames(s, Value());
      MemsetKeeps(Value(), all, hand + {x.value}, x.value, Entries(NoEntries()));
      fill := fill[x.value := Entries(NoEntries())];
      AddTable(Value(), all, hand + {x.value}, v / 1024, x.value);
      dir := dir[v / 1024 := x];
      assert hand + {x.value} - {x.value} == hand;
      return true;
    }

    /** mappages for the one page `v`. */
    method MapPage(v: nat, x: nat, ghost all: set<nat>, ghost hand: set<nat>) returns (ok: bool)
      requires InvX(Value(), all, hand) && v < 0x8_0000 && x in hand && Entry(Value(), v) == None
      modifies this`free, this`cnt, this`fill, this`dir
      ensures ok <==> old(dir)[v / 1024].Some? || CanAlloc(old(Value()))
      ensures InvX(Value(), all, if ok then hand - {x} else hand)
      ensures forall w: nat :: Frame(Value(), Page(w)) == if ok && w == v then Some(x) else Frame(old(Value()), Page(w))
      ensures DataKept(old(Value()), Value(), hand)
      ensures cnt == old(cnt) - if ok && old(dir)[v / 1024] == None then 1 else 0
      ensures forall i :: 0 <= i < 1024 ==> (dir[i] == None <==> old(dir)[i] == None && !(ok && i == v / 1024))
    {
      ghost var s := Value();
      ok := WalkAlloc(v, all, hand);
      assert Frame(Value(), Page(v)) == Frame(s, Page(v));
      if ok {
        TableIsNoData(Value(), all, hand, v / 1024);
        MapKeeps(Value(), all, hand, v, x);
        fill := fill[dir[v / 1024].value := Entries(fill[dir[v / 1024].value].e[v % 1024 := Some(x)])];
      }
    }

    /** deallocuvm: give up the user pages between the two sizes. */
    method Dealloc(oldsz: nat, newsz: nat, ghost all: set<nat>, ghost hand: set<nat>) returns (r: nat)
      requires InvX(Value(), all, hand) && oldsz <= 0x8000_0000
      modifies this`free, this`cnt, this`fill
      ensures InvX(Value(), all, hand) && UnmappedFrom(old(Value()), Value(), PagesUp(newsz), PagesUp(oldsz))
      ensures cnt == old(cnt) + Mapped(old(Value()), PagesUp(newsz), PagesUp(oldsz))
      ensures r == if newsz >= oldsz then oldsz else newsz
    {
      if newsz >= oldsz { return oldsz; }
      var a := PagesUp(newsz) * 4096;
      ghost var s := Value();
      while a < oldsz
        invariant a % 4096 == 0 && PagesUp(newsz) * 4096 <= a
        invariant InvX(Value(), all, hand) && UnmappedFrom(s, Value(), PagesUp(newsz), a / 4096)
        invariant forall w: nat :: PagesUp(oldsz) <= w < a / 4096 ==> Frame(s, Page(w)) == None
        invariant cnt == s.cnt + Mapped(s, PagesUp(newsz), a / 4096)
      {
        ghost var s0, a0 := Value(), a;
        a := FreeOrSkip(a, all, hand);
        MappedStep(s, s0, PagesUp(newsz), a0 / 4096, a / 4096);
      }
      MappedConcat(s, PagesUp(newsz), PagesUp(oldsz), a / 4096);
      MappedNone(s, PagesUp(oldsz), a / 4096);
      return newsz;
    }

    /** deallocuvm at address `a`: free its page, or skip to the end of a missing page table. */
    method FreeOrSkip(a: nat, ghost all: set<nat>, ghost hand: set<nat>) returns (next: nat)
      requires InvX(Value(), all, hand) && a < 0x8000_0000 && a % 4096 == 0
      modifies this`free, this`cnt, this`fill
      ensures InvX(Value(), all, hand) && next > a && next % 4096 == 0
      ensures UnmappedFrom(old(Value()), Value(), a / 4096, next / 4096)
      ensures cnt == old(cnt) + Mapped(old(Value()), a / 4096, next / 4096)
      ensures next == a + 4096 || forall w: nat :: a / 4096 <= w < next / 4096 ==> Frame(old(Value()), Page(w)) == None
    {
      next := a;
      if dir[next / 0x40_0000].None? {
        NoTable(Value(), next / 0x40_0000);
        next := (next / 0x40_0000 + 1) * 0x40_0000 - 4096;
        MappedNone(Value(), a / 4096, (next + 4096) / 4096);
      } else {
        assert Mapped(Value(), a / 4096, a / 4096) == 0;
        FreePage(next / 4096, all, hand);
      }
      next := next + 4096;
    }

    /** deallocuvm at one page whose table is there. */
    method FreePage(v: nat, ghost all: set<nat>, ghost hand: set<nat>)
      requires InvX(Value(), all, hand) && v < 0x8_0000 && dir[v / 1024].Some?
      modifies this`free, this`cnt, this`fill
      ensures InvX(Value(), all, hand) && cnt == old(cnt) + if Frame(old(Value()), Page(v)).Some? then 1 else 0
      ensures forall w: nat :: Frame(Value(), Page(w)) == if w == v then None else Frame(old(Value()), Page(w))
    {
      var t := dir[v / 1024].value;
      var x := fill[t].e[v % 1024];
      assert Frame(Value(), Page(v)) == x;
      if x.Some? {
        ghost var s1 := WithEntry(Value(), v, None);
        UnmapKeeps(Value(), all, hand, v);
        TableIsNoData(Value(), all, hand, v / 1024);
        KfreeKeeps(s1, all, hand + {x.value}, x.value);
        Kfree(x.value);
        fill := fill[t := Entries(fill[t].e[v % 1024 := None])];
        assert Value() == Kfreed(s1, x.value) && hand + {x.value} - {x.value} == hand;
      }
    }

    /** dec_protect_mem. */
    method DecProtect() returns (given: bool)
      modifies this`protect, this`reserved
      ensures given <==> guarded && old(reserved) > 0
      ensures protect == old(protect) - (if given then 1 else 0) && reserved == old(reserved) - if given then 1 else 0
    {
      given := guarded && reserved > 0;
      if given { protect, reserved := protect - 1, reserved - 1; }
    }

    /** inc_protect_mem: the group's own count goes up even if the pages are not there. */
    method IncProtect(n: nat)
      modifies this`protect, this`reserved
      ensures Value() == Protected(old(Value()), n) && reserved == old(reserved) + n
    {
      if n + protect <= cnt { protect := protect + n; }
      reserved := reserved + n;
    }

    /** kalloc and memset to zero. */
    method AllocZeroed(ghost all: set<nat>) returns (r: Option<nat>)
      requires Inv(Value(), all)
      modifies this`free, this`cnt, this`fill
      ensures r.Some? <==> CanAlloc(old(Value()))
      ensures InvX(Value(), all, if r.Some? then {r.value} else {}) && UnmappedFrom(old(Value()), Value(), 0, 0)
      ensures r.Some? ==> r.value in fill && fill[r.value] == Zeroes
      ensures DataKept(old(Value()), Value(), {}) && cnt == old(cnt) - if r.Some? then 1 else 0
    {
      ghost var s := Value();
      if CanAlloc(s) { KallocKeeps(s, all, {}); }
      r := Kalloc();
      if r.Some? {
        SameFrames(s, Value());
        assert {} + {r.value} == {r.value};
        MemsetKeeps(Value(), all, {r.value}, r.value, Zeroes);
        fill := fill[r.value := Zeroes];
      }
    }

    /** allocuvm from size `oldsz` to `newsz`; None stands for the 0 it returns on error. */
    method Alloc(oldsz: nat, newsz: nat, ghost all: set<nat>) returns (r: Option<nat>)
      requires Inv(Value(), all)
      requires Unmapped(Value(), PagesUp(oldsz), PagesUp(newsz))
      modifies this`free, this`cnt, this`protect, this`fill, this`dir, this`reserved
      ensures Inv(Value(), all)
      ensures newsz >= 0x8000_0000 ==> r == None && Value() == old(Value())
      ensures newsz < 0x8000_0000 && newsz < oldsz ==> r == Some(oldsz) && Value() == old(Value())
      ensures oldsz <= newsz < 0x8000_0000 ==> r.None? || r == Some(newsz)
      ensures oldsz <= newsz < 0x8000_0000 ==>
        (r.Some? <==> Affordable(old(dir), old(cnt), old(protect), if guarded then old(reserved) else 0,
                                 PagesUp(oldsz), PagesUp(newsz)))
      ensures oldsz <= newsz < 0x8000_0000 && r.Some? ==>
        cnt == old(cnt) - Need(old(dir), PagesUp(oldsz), PagesUp(newsz))
      ensures r.None? ==>
        reserved == old(reserved) && protect == old(protect) && UnmappedFrom(old(Value()), Value(), 0, 0)
      ensures r.Some? ==> old(protect) - protect == old(reserved) - reserved
      ensures r.Some? ==> Grown(old(Value()), Value(), PagesUp(oldsz), PagesUp(newsz))
    {
      if newsz >= 0x8000_0000 { return None; }
      if newsz < oldsz { return Some(oldsz); }
      ghost var s, avail := Value(), if guarded then reserved else 0;
      MidwayStart(s, all, PagesUp(oldsz), reserved, avail);
      var ok := AllocPages(oldsz, newsz, s, avail, all);
      if !ok { return None; }
      MidwayEnd(s, Value(), all, PagesUp(oldsz), PagesUp(newsz), old(reserved), reserved, avail);
      r := Some(newsz);
    }

    /** allocuvm's loop over the pages of the range. */
    method AllocPages(oldsz: nat, newsz: nat, ghost s: State, ghost avail: nat, ghost all: set<nat>)
      returns (ok: bool)
      requires Midway(s, Value(), all, PagesUp(oldsz), PagesUp(oldsz), reserved, reserved, avail)
      requires oldsz <= newsz < 0x8000_0000
      requires Unmapped(s, PagesUp(oldsz), PagesUp(newsz)) && avail == if guarded then reserved else 0
      modifies this`free, this`cnt, this`protect, this`fill, this`dir, this`reserved
      ensures ok ==> Midway(s, Value(), all, PagesUp(oldsz), PagesUp(newsz), old(reserved), reserved, avail)
      ensures !ok ==> Inv(Value(), all) && UnmappedFrom(s, Value(), 0, 0)
      ensures !ok ==> protect == s.protect && reserved == old(reserved)
      ensures !ok ==> !Affordable(s.dir, s.cnt, s.protect, avail, PagesUp(oldsz), PagesUp(newsz))
    {
      var setCnt := 0;
      var a := PagesUp(oldsz) * 4096;
      ghost var v := PagesUp(oldsz);
      PageBelow(newsz, oldsz, v);
      while a < newsz
        invariant a == 4096 * v && PagesUp(oldsz) <= v <= PagesUp(newsz) && (a < newsz <==> v < PagesUp(newsz))
        invariant Midway(s, Value(), all, PagesUp(oldsz), v, old(reserved), reserved, avail)
        invariant reserved + setCnt == old(reserved)
      {
        assert a / 4096 == v;
        ok, setCnt := NextPage(a / 4096, newsz, oldsz, setCnt, s, avail, all);
        if !ok { return; }
        a, v := a + 4096, v + 1;
        PageBelow(newsz, oldsz, v);
      }
      ok := true;
    }

    /** One turn of that loop. */
    method NextPage(v: nat, newsz: nat, oldsz: nat, setCnt: nat, ghost s: State, ghost avail: nat, ghost all: set<nat>)
      returns (ok: bool, setCnt': nat)
      requires Midway(s, Value(), all, PagesUp(oldsz), v, reserved + setCnt, reserved, avail)
      requires PagesUp(oldsz) <= v < PagesUp(newsz) && newsz < 0x8000_0000
      requires Unmapped(s, PagesUp(oldsz), PagesUp(newsz)) && avail == if guarded then reserved + setCnt else 0
      modifies this`free, this`cnt, this`protect, this`fill, this`dir, this`reserved
      ensures ok ==> Midway(s, Value(), all, PagesUp(oldsz), v + 1, old(reserved) + setCnt, reserved, avail)
      ensures ok ==> reserved + setCnt' == old(reserved) + setCnt
      ensures !ok ==> Inv(Value(), all) && UnmappedFrom(s, Value(), 0, 0)
      ensures !ok ==> protect == s.protect && reserved == old(reserved) + setCnt
      ensures !ok ==> !Affordable(s.dir, s.cnt, s.protect, avail, PagesUp(oldsz), PagesUp(newsz))
    {
      ghost var s0 := Value();
      MidwayNow(s, s0, all, PagesUp(oldsz), v, reserved + setCnt, reserved, avail);
      var given;
      ok, given := AllocPage(v, newsz, oldsz, s, all);
      GrowingStep(s, s0, Value(), PagesUp(oldsz), v, PagesUp(newsz), setCnt, avail, ok);
      setCnt' := if given then setCnt + 1 else setCnt;
      if !ok { Refund(setCnt', all); }
    }

    /** inc_protect_mem when allocuvm gives up: the pages are there. */
    method Refund(n: nat, ghost all: set<nat>)
      requires Inv(Value(), all) && n + protect <= cnt
      modifies this`protect, this`reserved
      ensures Inv(Value(), all) && UnmappedFrom(old(Value()), Value(), 0, 0)
      ensures protect == old(protect) + n && reserved == old(reserved) + n
    {
      ghost var s := Value();
      IncProtect(n);
      ProtectKeeps(s, Value(), all, {});
    }

    /** allocuvm for page `v`; on failure everything above `oldsz` is unmapped again. */
    method AllocPage(v: nat, newsz: nat, oldsz: nat, ghost s: State, ghost all: set<nat>)
      returns (ok: bool, given: bool)
      requires Inv(Value(), all) && Grown(s, Value(), PagesUp(oldsz), v) && PagesUp(oldsz) <= v < PagesUp(newsz) &&
        newsz < 0x8000_0000
      requires forall w: nat :: PagesUp(oldsz) <= w < PagesUp(newsz) ==> Frame(s, Page(w)) == None
      modifies this`free, this`cnt, this`protect, this`fill, this`dir, this`reserved
      ensures Inv(Value(), all) && reserved + (if given then 1 else 0) == old(reserved)
      ensures protect + (if given then 1 else 0) == old(protect)
      ensures given <==> guarded && old(reserved) > 0
      ensures Paid(old(Value()), Value(), v, ok) && (!ok ==> cnt == old(cnt) + v - PagesUp(oldsz))
      ensures if ok then Grown(s, Value(), PagesUp(oldsz), v + 1) else UnmappedFrom(s, Value(), 0, 0)
    {
      ghost var s0 := Value();
      given := DecProtect();
      ProtectKeeps(s0, Value(), all, {});
      GrownKept(s, s0, Value(), PagesUp(oldsz), v);
      ok := FillPage(v, newsz, oldsz, s, all);
    }

    /** allocuvm for page `v` after the reservation. */
    method FillPage(v: nat, newsz: nat, oldsz: nat, ghost s: State, ghost all: set<nat>) returns (ok: bool)
      requires Inv(Value(), all) && Grown(s, Value(), PagesUp(oldsz), v) && PagesUp(oldsz) <= v < PagesUp(newsz) &&
        newsz < 0x8000_0000
      requires forall w: nat :: PagesUp(oldsz) <= w < PagesUp(newsz) ==> Frame(s, Page(w)) == None
      modifies this`free, this`cnt, this`fill, this`dir
      ensures Inv(Value(), all) && (!ok ==> cnt == old(cnt) + v - PagesUp(oldsz))
      ensures Paid(old(Value()), Value(), v, ok)
      ensures if ok then Grown(s, Value(), PagesUp(oldsz), v + 1) else UnmappedFrom(s, Value(), 0, 0)
    {
      ghost var s0 := Value();
      var mem := AllocZeroed(all);
      GrownKept(s, s0, Value(), PagesUp(oldsz), v);
      s0 := Value();
      if mem.None? {
        GrownMapped(s, s0, PagesUp(oldsz), v, PagesUp(newsz));
        var _ := Dealloc(newsz, oldsz, all, {});
        RolledBack(s, s0, Value(), PagesUp(oldsz), v, PagesUp(newsz));
        return false;
      }
      assert Frame(Value(), Page(v)) == None;
      ok := MapPage(v, mem.value, all, {mem.value});
      assert {mem.value} - {mem.value} == {};
      if ok {
        GrownStep(s, s0, Value(), PagesUp(oldsz), v, mem.value);
      } else {
        GrownMapped(s, s0, PagesUp(oldsz), v, PagesUp(newsz));
        MappedSame(s0, Value(), PagesUp(oldsz), PagesUp(newsz));
        GiveUp(newsz, oldsz, mem.value, all);
        RolledBack(s, s0, Value(), PagesUp(oldsz), v, PagesUp(newsz));
      }
    }

    /** allocuvm when a page cannot be mapped: unmap, and free the frame in hand. */
    method GiveUp(newsz: nat, oldsz: nat, x: nat, ghost all: set<nat>)
      requires InvX(Value(), all, {x}) && newsz < 0x8000_0000
      modifies this`free, this`cnt, this`fill
      ensures Inv(Value(), all) && UnmappedFrom(old(Value()), Value(), PagesUp(oldsz), PagesUp(newsz))
      ensures cnt == old(cnt) + Mapped(old(Value()), PagesUp(oldsz), PagesUp(newsz)) + 1
    {
      var _ := Dealloc(newsz, oldsz, all, {x});
      KfreeKeeps(Value(), all, {x}, x);
      Kfree(x);
      assert {x} - {x} == {};
    }

    /** freevm: every frame of the page table is free again, exactly once. */
    method FreeAll(ghost all: set<nat>)
      requires Inv(Value(), all)
      modifies this`free, this`cnt, this`fill
      ensures Distinct(free) && cnt == |free| && protect <= cnt
      ensures forall f :: f in free <==> f in all
    {
      ghost var s := Value();
      var _ := Dealloc(0x8000_0000, 0, all, {});
      UnmappedAll(s, Value());
      StartClearing(Value(), all);
      for i := 0 to 1024
        invariant |dir| == 1024 && TableFill(Value(), i)
        invariant InvX(Cleared(Value(), i), all, {}) && NoPages(Cleared(Value(), i))
      {
        ClearTable(Value(), all, i);
        if dir[i].Some? { Kfree(dir[i].value); }
      }
      LastFrame(Value(), all);
      Kfree(root);
    }
  }
  /** With no free page a group reserves one all the same, gives it up, and is refused. */
  method ReservedInVain(p: PageTable) returns (given: bool, r: Option<nat>)
    requires CountersOk(p.Value()) && p.guarded && p.reserved == 0 && p.cnt == 0 && p.protect == 0
    modifies p
    ensures given && r == None
  {
    p.IncProtect(1);
    given := p.DecProtect();
    r := p.Kalloc();
  }
}
