/** The redo log as the kernel runs it (kernel/fs/native_log.c): an in-memory header over the
    block cache. Its methods perform the device writes that NativeLog reasons about. */
module LogDriver {
  import opened Blocks
  import opened BufCache
  import opened Bio
  import opened NativeLog

  /** No buffer is held or half changed, and two more can be had. */
  ghost predicate Quiet(s: State) {
    && NoneTouched(s)
    && (forall j :: 0 <= j < |s.bufs| ==> !s.bufs[j].held)
    && Busy(s.bufs) + 2 <= NBUF
  }

  lemma QuietUnheld(s: State, k: Key)
    requires Quiet(s)
    ensures Unheld(s, k)
  {
  }

  /** The log area is written with bwrite only, so readers see what the device holds. */
  ghost predicate LogInStep(g: Geometry, disk: Store, view: Store) {
    forall k {:trigger At(disk, k)} {:trigger At(view, k)} :: g.InLog(k) ==> At(disk, k) == At(view, k)
  }

  lemma InStepUpdate(g: Geometry, disk: Store, view: Store, k: Key, v: Block)
    requires LogInStep(g, disk, view)
    ensures LogInStep(g, disk[k := v], view[k := v])
  {
    forall x | g.InLog(x) ensures At(disk[k := v], x) == At(view[k := v], x) {
      assert At(disk, x) == At(view, x);
    }
  }

  lemma SlotKept(g: Geometry, d: Store, lh: seq<Word>, t: nat)
    requires TxOk(g, lh) && t < |lh|
    ensures At(Apply(d, InstallWrites(g, d, lh)[..t]), g.Slot(t)) == At(d, g.Slot(t))
  {
    assert g.InLog(g.Slot(t));
    ApplyElsewhere(d, InstallWrites(g, d, lh)[..t], g.Slot(t));
  }

  /** Device, readers' view and trace after the writes `ws`. */
  ghost predicate Installed(t0: seq<Write>, d0: Store, v0: Store, ws: seq<Write>, trace: seq<Write>, disk: Store,
                            view: Store) {
    trace == t0 + ws && disk == Apply(d0, ws) && view == Apply(v0, ws)
  }

  lemma InstalledNext(t0: seq<Write>, d0: Store, v0: Store, ws: seq<Write>, k: nat, trace: seq<Write>, disk: Store,
                      view: Store)
    requires k < |ws| && Installed(t0, d0, v0, ws[..k], trace, disk, view)
    ensures Installed(t0, d0, v0, ws[..k + 1], trace + [ws[k]], disk[ws[k].key := ws[k].data],
      view[ws[k].key := ws[k].data])
  {
    ApplyNext(d0, ws, k);
    ApplyNext(v0, ws, k);
    assert ws[..k + 1] == ws[..k] + [ws[k]];
  }

  /** install_trans and the erasing write are what InstallAndErase says. */
  lemma InstallTrace(g: Geometry, d: Store, lh: seq<Word>, d1: Store)
    requires TxOk(g, lh) && g.size > 0 && d1 == Apply(d, InstallWrites(g, d, lh))
    ensures HeadWrite(g, d1, []) == HeadWrite(g, d, [])
    ensures var w := HeadWrite(g, d, []); d1[w.key := w.data] == Apply(d, InstallAndErase(g, d, lh))
  {
    var all := InstallAndErase(g, d, lh);
    ApplyElsewhere(d, InstallWrites(g, d, lh), g.K(g.start));
    assert all[..|lh| + 1] == all && all[..|lh|] == InstallWrites(g, d, lh);
    ApplyNext(d, all, |lh|);
  }

  /** Both halves of commit together are what CommitWrites says. */
  lemma CommitTrace(g: Geometry, d: Store, view: Store, lh: seq<Word>, t0: seq<Write>)
    requires TxOk(g, lh) && lh != []
    ensures var d2, ws := AfterHead(g, d, view, lh), LogWrites(g, view, lh);
            && Apply(d2, InstallAndErase(g, d2, lh)) == Apply(d, CommitWrites(g, d, view, lh))
            && t0 + ws + [HeadWrite(g, Apply(d, ws), lh)] + InstallAndErase(g, d2, lh) ==
               t0 + CommitWrites(g, d, view, lh)
  {
    var k, d2 := 2 * |lh| + 2, AfterHead(g, d, view, lh);
    CommitTail(g, d, view, lh, k);
    assert CommitWrites(g, d, view, lh)[..k] == CommitWrites(g, d, view, lh);
    assert InstallAndErase(g, d2, lh)[..|lh| + 1] == InstallAndErase(g, d2, lh);
  }

  /** Each log block holds what readers see of its home block. */
  lemma LogHoldsView(g: Geometry, d: Store, view: Store, lh: seq<Word>, t: nat)
    requires TxOk(g, lh) && t < |lh|
    ensures At(AfterHead(g, d, view, lh), g.Slot(t)) == At(view, g.K(lh[t]))
  {
    ApplyDistinct(d, LogWrites(g, view, lh), t);
  }

  /** So copying it home changes nothing for them. */
  lemma {:induction false} InstallShowsNothing(g: Geometry, d: Store, view: Store, x: Store, lh: seq<Word>, k: nat)
    requires TxOk(g, lh) && k <= |lh| && SameHome(g, x, view)
    ensures SameHome(g, Apply(x, InstallWrites(g, AfterHead(g, d, view, lh), lh)[..k]), view)
  {
    var ws := InstallWrites(g, AfterHead(g, d, view, lh), lh);
    if k > 0 {
      InstallShowsNothing(g, d, view, x, lh, k - 1);
      ApplyNext(x, ws, k - 1);
      LogHoldsView(g, d, view, lh, k - 1);
    } else {
      assert ws[..0] == [];
    }
  }

  lemma LogIsNotHome(g: Geometry, x: Store, y: Store, k: Key, b: Block)
    requires g.InLog(k) && SameHome(g, x, y)
    ensures SameHome(g, x[k := b], y)
  {
  }

  /** write_head's loop. */
  method EncodeHead(h: Block, lh: array<Word>, n: nat) returns (r: Block)
    requires n <= lh.Length == LOGSIZE
    ensures r == PutHead(h, lh[..n])
  {
    r := SetWord(h, 0, n);
    ghost var r0 := r;
    var i := 0;
    while i < n
      invariant 0 <= i <= n && r == PutEntries(r0, lh[..i])
    {
      assert lh[..i + 1][..i] == lh[..i];
      r := SetWord(r, i + 1, lh[i]);
      i := i + 1;
    }
  }

  /** read_head's loop. */
  method DecodeHead(h: Block, block: array<Word>)
    requires HeadCount(h) <= block.Length == LOGSIZE
    modifies block
    ensures block[..HeadCount(h)] == HeadBlocks(h)
  {
    var t := 0;
    while t < HeadCount(h)
      invariant 0 <= t <= HeadCount(h) && forall j :: 0 <= j < t ==> block[j] == GetWord(h, j + 1)
    {
      block[t] := GetWord(h, t + 1);
      t := t + 1;
    }
  }

  class Log {
    const g: Geometry
    const cache: Cache
    var n: nat               // log.lh.n
    var block: array<Word>   // log.lh.block
    var outstanding: nat
    var committing: bool
    ghost var trace: seq<Write>  // device writes of the log so far

    ghost predicate Valid()
      reads this, block, cache, cache.buf, cache.prev, cache.next
    {
      && g.dev != 0 && g.size > 0
      && block.Length == LOGSIZE && n <= LOGSIZE
      && (block as object) !in {cache.buf as object, cache.prev, cache.next}
      && TxOk(g, block[..n])
      && Idle(cache.Value(), cache.Linked())
    }

    ghost predicate Idle(s: State, linked: bool) {
      linked && Inv(s) && Quiet(s) && LogInStep(g, s.disk, s.view)
    }

    /** initlog up to the recovery, which `Recover` performs. */
    constructor (geometry: Geometry, c: Cache)
      requires geometry.dev != 0 && geometry.size > 0 && c.Valid() && Quiet(c.Value()) && c.disk == c.view
      ensures g == geometry && cache == c && fresh(block)
      ensures block.Length == LOGSIZE && n == 0 && outstanding == 0 && !committing && trace == []
    {
      g, cache := geometry, c;
      block := new Word[LOGSIZE](_ => 0);
      n, outstanding, committing, trace := 0, 0, false, [];
    }

    /** One copy through the cache. */
    method Copy(from: Key, to: Key)
      requires Valid() && from.dev != 0 && to.dev != 0 && from != to
      modifies this`trace, cache`disk, cache`view, cache`touched, cache`order, cache`leaving, cache`stamp, cache`clock
      modifies cache.buf, cache.prev, cache.next
      ensures Valid() && block[..] == old(block[..])
      ensures trace == old(trace) + [Write(to, At(old(cache.view), from))]
      ensures cache.disk == old(cache.disk)[to := At(old(cache.view), from)]
      ensures cache.view == old(cache.view)[to := At(old(cache.view), from)]
    {
      QuietUnheld(cache.Value(), from);
      QuietUnheld(cache.Value(), to);
      trace := trace + [Write(to, At(cache.view, from))];
      InStepUpdate(g, cache.disk, cache.view, to, At(cache.view, from));
      CopyBlock(cache, from, to);
    }

    /** write_log */
    method WriteLog()
      requires Valid()
      modifies this`trace, cache`disk, cache`view, cache`touched, cache`order, cache`leaving, cache`stamp, cache`clock
      modifies cache.buf, cache.prev, cache.next
      ensures Valid() && block[..] == old(block[..])
      ensures var ws := LogWrites(g, old(cache.view), block[..n]);
              trace == old(trace) + ws && cache.disk == Apply(old(cache.disk), ws)
      ensures SameHome(g, cache.view, old(cache.view))
    {
      ghost var d0, v0, lh, t0 := cache.disk, cache.view, block[..n], trace;
      ghost var ws := LogWrites(g, v0, lh);
      var tail := 0;
      while tail < n
        invariant 0 <= tail <= n && Valid() && block[..n] == lh
        invariant Installed(t0, d0, v0, ws[..tail], trace, cache.disk, cache.view)
        invariant SameHome(g, cache.view, v0)
      {
        assert block[tail] == lh[tail];
        InstalledNext(t0, d0, v0, ws, tail, trace, cache.disk, cache.view);
        LogIsNotHome(g, cache.view, v0, g.Slot(tail), At(cache.view, g.K(block[tail])));
        Copy(g.K(block[tail]), g.Slot(tail));
        tail := tail + 1;
      }
      assert ws[..n] == ws;
    }

    /** install_trans */
    method InstallTrans()
      requires Valid()
      modifies this`trace, cache`disk, cache`view, cache`touched, cache`order, cache`leaving, cache`stamp, cache`clock
      modifies cache.buf, cache.prev, cache.next
      ensures Valid() && block[..] == old(block[..])
      ensures var ws := InstallWrites(g, old(cache.disk), block[..n]);
              trace == old(trace) + ws && cache.disk == Apply(old(cache.disk), ws) &&
                cache.view == Apply(old(cache.view), ws)
    {
      ghost var d0, v0, lh, t0 := cache.disk, cache.view, block[..n], trace;
      ghost var ws := InstallWrites(g, d0, lh);
      var tail := 0;
      while tail < n
        invariant 0 <= tail <= n && Valid() && block[..n] == lh
        invariant Installed(t0, d0, v0, ws[..tail], trace, cache.disk, cache.view)
      {
        assert block[tail] == lh[tail];
        SlotKept(g, d0, lh, tail);
        assert g.InLog(g.Slot(tail));
        InstalledNext(t0, d0, v0, ws, tail, trace, cache.disk, cache.view);
        Copy(g.Slot(tail), g.K(block[tail]));
        tail := tail + 1;
      }
      assert ws[..n] == ws;
    }

    /** write_head */
    method WriteHead()
      requires Valid()
      modifies this`trace, cache`disk, cache`view, cache`touched, cache`order, cache`leaving, cache`stamp, cache`clock
      modifies cache.buf, cache.prev, cache.next
      ensures Valid() && block[..] == old(block[..])
      ensures var w := HeadWrite(g, old(cache.disk), block[..n]);
              trace == old(trace) + [w] &&
              cache.disk == old(cache.disk)[w.key := w.data] && cache.view == old(cache.view)[w.key := w.data]
    {
      var k := g.K(g.start);
      assert g.InLog(k);
      ghost var s0 := cache.Value();
      QuietUnheld(s0, k);
      var i := Bread(cache, k);
      var h := EncodeHead(cache.buf[i].data, block, n);
      InStepUpdate(g, s0.disk, s0.view, k, h);
      WriteBack(cache, s0, i, k, h);
      trace := trace + [Write(k, h)];
    }

    /** The first half of commit, up to the header write that commits. */
    method LogAndHead()
      requires Valid()
      modifies this`trace, cache`disk, cache`view, cache`touched, cache`order, cache`leaving, cache`stamp, cache`clock
      modifies cache.buf, cache.prev, cache.next
      ensures Valid() && block[..] == old(block[..])
      ensures var ws := LogWrites(g, old(cache.view), block[..n]);
              trace == old(trace) + ws + [HeadWrite(g, Apply(old(cache.disk), ws), block[..n])]
      ensures cache.disk == AfterHead(g, old(cache.disk), old(cache.view), block[..n])
      ensures SameHome(g, cache.view, old(cache.view))
    {
      WriteLog();
      WriteHead();
    }

    /** The second half of commit, and all of recover_from_log after read_head. */
    method InstallAndEraseTrans()
      requires Valid()
      modifies this`trace, this`n, cache`disk, cache`view, cache`touched, cache`order, cache`leaving, cache`stamp,
        cache`clock
      modifies cache.buf, cache.prev, cache.next
      ensures Valid() && n == 0
      ensures var ws := InstallAndErase(g, old(cache.disk), old(block[..n]));
              trace == old(trace) + ws && cache.disk == Apply(old(cache.disk), ws)
      ensures SameHome(g, cache.view, Apply(old(cache.view), InstallWrites(g, old(cache.disk), old(block[..n]))))
    {
      ghost var d0, lh := cache.disk, block[..n];
      InstallTrans();
      InstallTrace(g, d0, lh, cache.disk);
      n := 0;
      assert block[..n] == [];
      WriteHead();
    }

    /** commit */
    method Commit()
      requires Valid()
      modifies this`trace, this`n, cache`disk, cache`view, cache`touched, cache`order, cache`leaving, cache`stamp,
        cache`clock
      modifies cache.buf, cache.prev, cache.next
      ensures Valid() && n == 0
      ensures var ws := CommitWrites(g, old(cache.disk), old(cache.view), old(block[..n]));
              trace == old(trace) + ws && cache.disk == Apply(old(cache.disk), ws)
      ensures SameHome(g, cache.view, old(cache.view))
    {
      if n > 0 {
        ghost var d0, view0, lh := cache.disk, cache.view, block[..n];
        CommitTrace(g, cache.disk, cache.view, block[..n], trace);
        LogAndHead();
        InstallShowsNothing(g, d0, view0, cache.view, lh, n);
        assert InstallWrites(g, cache.disk, lh)[..n] == InstallWrites(g, cache.disk, lh);
        InstallAndEraseTrans();
      }
    }

    /** Read one block and let go of it. */
    method ReadBlock(k: Key) returns (b: Block)
      requires Valid() && k.dev != 0
      modifies cache`disk, cache`view, cache`touched, cache`order, cache`leaving, cache`stamp, cache`clock
      modifies cache.buf, cache.prev, cache.next
      ensures Valid() && cache.disk == old(cache.disk) && cache.view == old(cache.view)
      ensures b == At(cache.view, k)
    {
      ghost var s0 := cache.Value();
      QuietUnheld(s0, k);
      var i := Bread(cache, k);
      b := cache.buf[i].data;
      PutBack(cache, s0, i, k);
    }

    /** read_head */
    method ReadHead()
      requires Valid() && HeadCount(At(cache.disk, g.K(g.start))) <= LOGSIZE &&
        TxOk(g, HeadBlocks(At(cache.disk, g.K(g.start))))
      modifies this`n, block, cache`disk, cache`view, cache`touched, cache`order, cache`leaving, cache`stamp,
        cache`clock
      modifies cache.buf, cache.prev, cache.next
      ensures Valid() && cache.disk == old(cache.disk) && cache.view == old(cache.view)
      ensures block[..n] == HeadBlocks(At(cache.disk, g.K(g.start)))
    {
      assert g.InLog(g.K(g.start));
      var h := ReadBlock(g.K(g.start));
      DecodeHead(h, block);
      n := HeadCount(h);
    }

    /** recover_from_log */
    method Recover()
      requires Valid() && HeadCount(At(cache.disk, g.K(g.start))) <= LOGSIZE &&
        TxOk(g, HeadBlocks(At(cache.disk, g.K(g.start))))
      modifies this`trace, this`n, block, cache`disk, cache`view, cache`touched, cache`order, cache`leaving,
        cache`stamp, cache`clock
      modifies cache.buf, cache.prev, cache.next
      ensures Valid() && n == 0
      ensures trace == old(trace) + RecoveryWrites(g, old(cache.disk))
      ensures cache.disk == NativeLog.Recover(g, old(cache.disk), [])
    {
      ReadHead();
      InstallAndEraseTrans();
    }

    /** begin_op: one turn of its loop; `false` means it sleeps. */
    method BeginOp() returns (ok: bool)
      modifies this`outstanding
      ensures ok <==> !committing && n + (old(outstanding) + 1) * MAXOPBLOCKS <= LOGSIZE
      ensures outstanding == old(outstanding) + (if ok then 1 else 0)
    {
      if committing || n + (outstanding + 1) * MAXOPBLOCKS > LOGSIZE {
        ok := false;
      } else {
        outstanding := outstanding + 1;
        ok := true;
      }
    }

    /** log_write on a buffer of the logged device that the caller holds. */
    method LogWrite(i: nat) returns (panic: bool)
      requires cache.Valid() && Allowed(cache.Value(), LogStep(i))
      requires block.Length == LOGSIZE && n <= LOGSIZE && TxOk(g, block[..n])
      requires (block as object) !in {cache.buf as object, cache.prev, cache.next}
      requires cache.buf[i].key.dev == g.dev && !g.InLog(cache.buf[i].key) && cache.buf[i].key.id < 0x1_0000_0000
      modifies this`n, block, cache`view, cache`touched, cache.buf
      ensures panic <==> old(n) >= LOGSIZE || old(n) + 1 >= g.size || outstanding < 1
      ensures panic ==>
        n == old(n) && block[..n] == old(block[..n]) && cache.Valid() && cache.Value() == old(cache.Value())
      ensures !panic ==> n <= LOGSIZE && TxOk(g, block[..n])
      ensures !panic ==> cache.Valid() && cache.Value() == Next(old(cache.Value()), LogStep(i))
      ensures !panic ==>
        var b, lh := old(cache.buf[i].key.id), old(block[..n]);
        block[..n] == if b in lh then lh else lh + [b]
    {
      if n >= LOGSIZE || n + 1 >= g.size || outstanding < 1 { return true; }
      Record(cache.buf[i].key.id);
      cache.MarkDirty(i);
      panic := false;
    }

    /** log_write's loop: absorb a block already in the log, else append it. */
    method Record(b: Word)
      requires block.Length == LOGSIZE && n < LOGSIZE && n + 1 < g.size && TxOk(g, block[..n]) && !g.InLog(g.K(b))
      modifies this`n, block
      ensures n <= LOGSIZE && TxOk(g, block[..n])
      ensures block[..n] == if b in old(block[..n]) then old(block[..n]) else old(block[..n]) + [b]
    {
      var i := 0;
      while i < n && block[i] != b
        invariant 0 <= i <= n && b !in block[..i]
      {
        i := i + 1;
      }
      block[i] := b;
      if i == n { n := n + 1; }
    }

    /** end_op; it panics when a commit is running. */
    method EndOp()
      requires Valid() && outstanding > 0 && !committing
      modifies this`trace, this`n, this`outstanding, this`committing
      modifies cache`disk, cache`view, cache`touched, cache`order, cache`leaving, cache`stamp, cache`clock
      modifies cache.buf, cache.prev, cache.next
      ensures Valid() && !committing && outstanding == old(outstanding) - 1
      ensures SameHome(g, cache.view, old(cache.view))
      ensures outstanding > 0 ==> trace == old(trace) && cache.disk == old(cache.disk) && n == old(n)
      ensures outstanding == 0 ==>
        var ws := CommitWrites(g, old(cache.disk), old(cache.view), old(block[..n]));
        n == 0 && trace == old(trace) + ws && cache.disk == Apply(old(cache.disk), ws)
    {
      outstanding := outstanding - 1;
      if outstanding == 0 {
        committing := true;
        Commit();
        committing := false;
      }
    }
  }
}
