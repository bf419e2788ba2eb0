/** Reading and writing blocks through the cache (kernel/device/bio.c), and the block copy that
    the log is made of. */
module Bio {
  import opened Blocks
  import opened BufCache
  import opened Wrappers

  /** Buffers that cannot be recycled. */
  function Busy(bufs: seq<Buf>): nat {
    if bufs == [] then 0
    else Busy(bufs[..|bufs| - 1]) + (if Recyclable(bufs[|bufs| - 1]) then 0 else 1)
  }

  lemma {:induction false} BusyUpdate(bufs: seq<Buf>, i: nat, b: Buf)
    requires i < |bufs|
    ensures Busy(bufs[i := b]) == Busy(bufs) - (if Recyclable(bufs[i]) then 0 else 1) + (if Recyclable(b) then 0 else 1)
  {
    var n := |bufs| - 1;
    if i < n {
      BusyUpdate(bufs[..n], i, b);
      assert bufs[i := b][..n] == bufs[..n][i := b];
    } else {
      assert bufs[i := b][..n] == bufs[..n];
    }
  }

  lemma {:induction false} NotAllBusy(bufs: seq<Buf>) returns (i: nat)
    requires Busy(bufs) < |bufs|
    ensures i < |bufs| && Recyclable(bufs[i])
  {
    var n := |bufs| - 1;
    if Recyclable(bufs[n]) { i := n; } else { i := NotAllBusy(bufs[..n]); }
  }

  /** While some buffer is not busy, buf_cache_get does not panic. */
  lemma LookupSucceeds(s: State, k: Key)
    requires Shape(s) && Busy(s.bufs) < NBUF
    ensures Lookup(s, k, false).Some?
  {
    var i := NotAllBusy(s.bufs);
    assert i in s.order;
  }

  /** No process holds block `k`. */
  predicate Unheld(s: State, k: Key) {
    forall j :: 0 <= j < |s.bufs| && s.bufs[j].key == k ==> !s.bufs[j].held
  }

  predicate NoneTouched(s: State) { s.touched == {} }

  /** What bread leaves behind: buffer `i` holds block `k`, locked, with its latest content. */
  predicate Read(s: State, t: State, k: Key, i: nat) {
    && i < |s.bufs| == |t.bufs| == |t.leaving|
    && t.disk == s.disk && t.view == s.view && t.touched == s.touched && t.order == s.order && t.enabled == s.enabled
    && t.bufs == s.bufs[i := t.bufs[i]]
    && t.bufs[i].key == k && t.bufs[i].held && t.bufs[i].valid && t.bufs[i].data == At(s.view, k)
    && i !in t.touched && !s.bufs[i].held
    && (if s.bufs[i].key == k then t.bufs[i].refcnt == s.bufs[i].refcnt + 1 && t.bufs[i].dirty == s.bufs[i].dirty
        else Recyclable(s.bufs[i]) && t.bufs[i].refcnt == 1 && !t.bufs[i].dirty)
    && t.bufs[i].refcnt > t.leaving[i]
  }

  /** bread */
  method Bread(c: Cache, k: Key) returns (i: nat)
    requires c.Valid() && k.dev != 0 && Unheld(c.Value(), k) && Busy(c.Value().bufs) < NBUF
    modifies c`disk, c`view, c`touched, c.buf
    ensures c.Valid() && Read(old(c.Value()), c.Value(), k, i)
  {
    ghost var s := c.Value();
    LookupSucceeds(s, k);
    LockedRead(s, k);
    var r := c.Get(k, false);
    i := r.value;
    c.Lock(i);
    if !c.buf[i].valid { c.Transfer(i); }
  }

  /** Where looking `k` up, locking its buffer and filling it if need be leads. */
  lemma LockedRead(s: State, k: Key)
    requires Inv(s) && k.dev != 0 && Unheld(s, k) && Lookup(s, k, false).Some?
    ensures var (t, i) := Lookup(s, k, false).value;
            && Inv(t) && Allowed(t, LockStep(i))
            && var u := Next(t, LockStep(i));
               if u.bufs[i].valid then Read(s, u, k, i) else Inv(Sync(u, i)) && Read(s, Sync(u, i), k, i)
  {
    var (t, i) := Lookup(s, k, false).value;
    GetKeepsInv(s, k, false);
    LookupUnheld(s, k);
    var u := Next(t, LockStep(i));
    NextKeepsInv(t, LockStep(i));
    assert BufOk(u, i);
    if !u.bufs[i].valid {
      FillKeepsInv(u, i);
      assert BufOk(Sync(u, i), i);
    }
  }

  lemma LookupUnheld(s: State, k: Key)
    requires Inv(s) && Unheld(s, k) && Lookup(s, k, false).Some?
    ensures var (t, i) := Lookup(s, k, false).value;
            !t.bufs[i].held && !s.bufs[i].held && i !in s.touched && t.bufs[i].key == k && t.leaving == s.leaving &&
            t.bufs == s.bufs[i := t.bufs[i]] && (s.bufs[i].key != k ==> Recyclable(s.bufs[i]) && !t.bufs[i].valid)
  {
    var (t, i) := Lookup(s, k, false).value;
    assert BufOk(s, i);
  }

  /** Effect of releasing a buffer that was read for block `k` and possibly written since. */
  predicate Done(s: State, t: State, i: nat) {
    && i < |s.bufs| == |t.bufs|
    && t.disk == s.disk && t.view == s.view && t.touched == s.touched && t.enabled == s.enabled
    && t.bufs == s.bufs[i := t.bufs[i]]
    && t.bufs[i].key == s.bufs[i].key && !t.bufs[i].held && t.bufs[i].dirty == s.bufs[i].dirty
    && t.bufs[i].refcnt + 1 == s.bufs[i].refcnt
  }

  lemma ReleasedDone(s: State, i: nat)
    requires Inv(s) && Allowed(s, UnlockStep(i))
    ensures Done(s, Released(s, i), i)
  {
    assert BufOk(s, i);
  }

  lemma ReadFacts(s: State, t: State, k: Key, i: nat, other: Key)
    requires Shape(s) && Inv(t) && Read(s, t, k, i) && other != k && Unheld(s, other)
    ensures Unheld(t, other) && Busy(t.bufs) <= Busy(s.bufs) + 1
  {
    BusyUpdate(s.bufs, i, t.bufs[i]);
  }

  /** Effect of filling buffer `dst` with `data` and writing it. */
  predicate Written(s: State, t: State, dst: nat, data: Block) {
    && dst < |s.bufs| == |t.bufs|
    && t.bufs == s.bufs[dst := s.bufs[dst].(data := data, valid := true, dirty := false)]
    && t.disk == s.disk[s.bufs[dst].key := data] && t.view == s.view[s.bufs[dst].key := data]
    && t.touched == s.touched - {dst}
  }

  method FillAndWrite(c: Cache, dst: nat, data: Block)
    requires c.Valid() && Allowed(c.Value(), ModifyStep(dst, data))
    modifies c`disk, c`view, c`touched, c.buf
    ensures c.Valid() && Written(old(c.Value()), c.Value(), dst, data)
    ensures c.leaving == old(c.leaving)
  {
    c.Modify(dst, data);
    var _ := c.Write(dst);
  }

  method Release(c: Cache, i: nat)
    requires c.Valid() && Allowed(c.Value(), UnlockStep(i))
    modifies c`order, c`leaving, c`stamp, c`clock, c.buf, c.prev, c.next
    ensures c.Valid() && Done(old(c.Value()), c.Value(), i)
  {
    ReleasedDone(c.Value(), i);
    var _ := c.Release(i);
  }

  /** Net effect of read, read, write, release, release on the buffers. */
  lemma CopyEffect(s0: State, s1: State, s2: State, s3: State, s4: State, s5: State, src: nat, dst: nat, from: Key,
                   to: Key)
    requires from != to && Read(s0, s1, from, src) && Read(s1, s2, to, dst)
    requires Written(s2, s3, dst, At(s0.view, from)) && Done(s3, s4, src) && Done(s4, s5, dst)
    ensures forall j :: 0 <= j < |s0.bufs| ==> s5.bufs[j].held == s0.bufs[j].held
    ensures Busy(s5.bufs) <= Busy(s0.bufs)
  {
    assert src != dst;
    BusyUpdate(s0.bufs, src, s5.bufs[src]);
    BusyUpdate(s0.bufs[src := s5.bufs[src]], dst, s5.bufs[dst]);
    assert s5.bufs == s0.bufs[src := s5.bufs[src]][dst := s5.bufs[dst]];
  }

  /** Copy block `from` to block `to` on the device, both through the cache: the body of the
      loops of write_log and install_trans. */
  method CopyBlock(c: Cache, from: Key, to: Key)
    requires c.Valid() && from.dev != 0 && to.dev != 0 && from != to
    requires NoneTouched(c.Value()) && Unheld(c.Value(), from) && Unheld(c.Value(), to)
    requires Busy(c.Value().bufs) + 2 <= NBUF
    modifies c`disk, c`view, c`touched, c`order, c`leaving, c`stamp, c`clock, c.buf, c.prev, c.next
    ensures c.Valid() && NoneTouched(c.Value())
    ensures c.disk == old(c.disk)[to := At(old(c.view), from)]
    ensures c.view == old(c.view)[to := At(old(c.view), from)]
    ensures forall j :: 0 <= j < NBUF ==> c.buf[j].held == old(c.buf[j].held)
    ensures Busy(c.buf[..]) <= old(Busy(c.buf[..]))
  {
    ghost var s0 := c.Value();
    var src := Bread(c, from);
    ghost var s1 := c.Value();
    ReadFacts(s0, s1, from, src, to);
    var dst := Bread(c, to);
    ghost var s2 := c.Value();
    FillAndWrite(c, dst, c.buf[src].data);
    ghost var s3 := c.Value();
    Release(c, src);
    ghost var s4 := c.Value();
    Release(c, dst);
    CopyEffect(s0, s1, s2, s3, s4, c.Value(), src, dst, from, to);
  }

  /** Write `data` to the buffer that was read for block `k`, and release it. */
  method WriteBack(c: Cache, ghost s0: State, i: nat, k: Key, data: Block)
    requires c.Valid() && Read(s0, c.Value(), k, i)
    modifies c`disk, c`view, c`touched, c`order, c`leaving, c`stamp, c`clock, c.buf, c.prev, c.next
    ensures c.Valid() && c.touched == s0.touched
    ensures c.disk == s0.disk[k := data] && c.view == s0.view[k := data]
    ensures forall j :: 0 <= j < NBUF ==> c.buf[j].held == s0.bufs[j].held
    ensures Busy(c.buf[..]) <= Busy(s0.bufs)
  {
    ghost var s1 := c.Value();
    FillAndWrite(c, i, data);
    ghost var s2 := c.Value();
    Release(c, i);
    RewriteEffect(s0, s1, s2, c.Value(), i, k, data);
  }

  lemma RewriteEffect(s0: State, s1: State, s2: State, s3: State, i: nat, k: Key, data: Block)
    requires Read(s0, s1, k, i) && Written(s1, s2, i, data) && Done(s2, s3, i)
    ensures forall j :: 0 <= j < |s0.bufs| ==> s3.bufs[j].held == s0.bufs[j].held
    ensures Busy(s3.bufs) <= Busy(s0.bufs)
  {
    BusyUpdate(s0.bufs, i, s3.bufs[i]);
    assert s3.bufs == s0.bufs[i := s3.bufs[i]];
  }

  /** Release a buffer that was read for block `k` and not changed. */
  method PutBack(c: Cache, ghost s0: State, i: nat, k: Key)
    requires c.Valid() && Read(s0, c.Value(), k, i)
    modifies c`order, c`leaving, c`stamp, c`clock, c.buf, c.prev, c.next
    ensures c.Valid()
    ensures forall j :: 0 <= j < NBUF ==> c.buf[j].held == s0.bufs[j].held
    ensures Busy(c.buf[..]) <= Busy(s0.bufs)
  {
    ghost var s1 := c.Value();
    Release(c, i);
    BusyUpdate(s0.bufs, i, c.buf[i]);
    assert c.buf[..] == s0.bufs[i := c.buf[i]];
  }
}
