/** The block cache (kernel/device/buf_cache.c, kernel/device/bio.c).

    A fixed set of buffers on a doubly linked ring, most recently released first. Every
    section that the kernel runs under a lock is one step of `State`; the class below
    performs the same steps on linked buffers.
 */
module BufCache {
  import opened Blocks
  import opened Wrappers

  /** Number of buffers. */
  const NBUF: nat := 200

  /** A device and a block on it; device 0 is the null pointer of a buffer never used. */
  datatype Key = Key(dev: nat, id: nat)

  datatype Buf = Buf(
    key: Key,
    valid: bool,     // B_VALID
    dirty: bool,     // B_DIRTY
    noCache: bool,   // BUF_ALLOC_NO_CACHE
    refcnt: nat,
    held: bool,      // the sleep lock
    data: Block)

  type Store = map<Key, Block>

  function At(store: Store, k: Key): Block {
    if k in store then store[k] else ZeroBlock()
  }

  /** `order` lists the ring from `head.next` on. `disk` is the devices' content. The
      remaining fields record history: `view` the content last written or logged of each
      block, `touched` the buffers changed since, `leaving` the processes between dropping
      a buffer's lock and its reference, `stamp` when a buffer was last released. */
  datatype State = State(
    bufs: seq<Buf>, order: seq<nat>, enabled: bool, disk: Store,
    view: Store, touched: set<nat>, leaving: seq<nat>, stamp: seq<nat>, clock: nat)

  // ----- the steps

  /** First buffer along `order` that holds `k`. */
  function FindKey(bufs: seq<Buf>, order: seq<nat>, k: Key): (r: Option<nat>)
    requires forall p :: 0 <= p < |order| ==> order[p] < |bufs|
    ensures r.Some? ==> r.value in order && bufs[r.value].key == k
    ensures r.None? ==> forall i :: i in order ==> bufs[i].key != k
  {
    if order == [] then None
    else if bufs[order[0]].key == k then Some(order[0])
    else FindKey(bufs, order[1..], k)
  }

  predicate Recyclable(b: Buf) { b.refcnt == 0 && !b.dirty }

  /** Last buffer along `order` that may be recycled. */
  function FindFree(bufs: seq<Buf>, order: seq<nat>): (r: Option<nat>)
    requires forall p :: 0 <= p < |order| ==> order[p] < |bufs|
    ensures r.Some? ==> r.value in order && Recyclable(bufs[r.value])
    ensures r.None? ==> forall i :: i in order ==> !Recyclable(bufs[i])
  {
    if order == [] then None
    else
      var last := order[|order| - 1];
      if Recyclable(bufs[last]) then Some(last) else FindFree(bufs, order[..|order| - 1])
  }

  predicate Distinct(order: seq<nat>) {
    forall p, q :: 0 <= p < q < |order| ==> order[p] != order[q]
  }

  predicate Shape(s: State) {
    && |s.bufs| == |s.leaving| == |s.stamp| == |s.order| == NBUF
    && (forall p :: 0 <= p < NBUF ==> s.order[p] < NBUF)
    && Distinct(s.order)
    && (forall i :: 0 <= i < NBUF ==> i in s.order)
  }

  /** buf_cache_get: the buffer and its new reference; none is the "no buffers" panic. */
  function Lookup(s: State, k: Key, noCache: bool): (r: Option<(State, nat)>)
    requires Shape(s)
    ensures r.Some? ==> r.value.1 < NBUF
  {
    match FindKey(s.bufs, s.order, k)
    case Some(i) => Some((s.(bufs := s.bufs[i := s.bufs[i].(refcnt := s.bufs[i].refcnt + 1)]), i))
    case None =>
      match FindFree(s.bufs, s.order)
      case None => None
      case Some(i) =>
        var b := s.bufs[i].(key := k, valid := false, dirty := false, noCache := noCache, refcnt := 1);
        Some((s.(bufs := s.bufs[i := b]), i))
  }

  function Remove(order: seq<nat>, i: nat): (r: seq<nat>)
    requires i in order
    ensures |r| == |order| - 1
  {
    if order[0] == i then order[1..] else [order[0]] + Remove(order[1..], i)
  }

  /** buf_cache_release after the sleep lock is dropped. */
  function Deref(s: State, i: nat): State
    requires Shape(s) && i < NBUF && s.leaving[i] > 0 && s.bufs[i].refcnt > 0
  {
    var b := s.bufs[i].(refcnt := s.bufs[i].refcnt - 1);
    var t := s.(leaving := s.leaving[i := s.leaving[i] - 1]);
    if b.refcnt > 0 then t.(bufs := s.bufs[i := b])
    else
      var rest := Remove(s.order, i);
      t.(bufs := s.bufs[i := if !s.enabled && !b.dirty then b.(valid := false) else b],
         order := if s.enabled && !b.noCache then [i] + rest else rest + [i],
         stamp := s.stamp[i := s.clock + 1],
         clock := s.clock + 1)
  }

  function DropUnused(bufs: seq<Buf>): (r: seq<Buf>)
    ensures |r| == |bufs|
    ensures forall i :: 0 <= i < |r| ==> r[i] == if Recyclable(bufs[i]) then bufs[i].(valid := false) else bufs[i]
  {
    seq(|bufs|, i requires 0 <= i < |bufs| => if Recyclable(bufs[i]) then bufs[i].(valid := false) else bufs[i])
  }

  datatype Step =
    | GetStep(key: Key, noCache: bool)
    | LockStep(i: nat)               // acquiresleep
    | FillStep(i: nat)               // bread: brw on a buffer that is not valid
    | ModifyStep(i: nat, data: Block)
    | WriteStep(i: nat)              // bwrite
    | LogStep(i: nat)                // log_write marks the buffer dirty
    | UnlockStep(i: nat)             // buf_cache_release: releasesleep
    | DerefStep(i: nat)              // buf_cache_release: the rest
    | EnableStep
    | DisableStep

  /** What a caller must respect: it works on buffers it holds, of a device, and does not
      release one that it changed and neither wrote nor logged. */
  predicate Allowed(s: State, step: Step)
    requires Shape(s)
  {
    match step
    case GetStep(k, _) => k.dev != 0 && Lookup(s, k, false).Some?
    case LockStep(i) => i < NBUF && !s.bufs[i].held && s.bufs[i].refcnt > s.leaving[i]
    case FillStep(i) => i < NBUF && s.bufs[i].held && !s.bufs[i].valid
    case ModifyStep(i, _) => i < NBUF && s.bufs[i].held && s.bufs[i].valid
    case WriteStep(i) => i < NBUF && s.bufs[i].held
    case LogStep(i) => i < NBUF && s.bufs[i].held && s.bufs[i].valid
    case UnlockStep(i) => i < NBUF && s.bufs[i].held && i !in s.touched
    case DerefStep(i) => i < NBUF && s.leaving[i] > 0 && s.bufs[i].refcnt > 0
    case EnableStep => true
    case DisableStep => true
  }

  function Next(s: State, step: Step): State
    requires Shape(s) && Allowed(s, step)
  {
    match step
    case GetStep(k, nc) => (Lookup(s, k, nc).value).0
    case LockStep(i) => s.(bufs := s.bufs[i := s.bufs[i].(held := true)])
    case FillStep(i) => Sync(s, i)
    case ModifyStep(i, d) => s.(bufs := s.bufs[i := s.bufs[i].(data := d)], touched := s.touched + {i})
    case WriteStep(i) => Sync(s.(bufs := s.bufs[i := s.bufs[i].(dirty := true)]), i)
    case LogStep(i) =>
      s.(bufs := s.bufs[i := s.bufs[i].(dirty := true)],
         view := s.view[s.bufs[i].key := s.bufs[i].data],
         touched := s.touched - {i})
    case UnlockStep(i) =>
      s.(bufs := s.bufs[i := s.bufs[i].(held := false)], leaving := s.leaving[i := s.leaving[i] + 1])
    case DerefStep(i) => Deref(s, i)
    case EnableStep => s.(enabled := true)
    case DisableStep => if s.enabled then s.(bufs := DropUnused(s.bufs), enabled := false) else s
  }

  /** brw: a dirty buffer goes to the device, a clean one is read from it. */
  function Sync(s: State, i: nat): State
    requires Shape(s) && i < NBUF
  {
    var b := s.bufs[i];
    if b.dirty then
      s.(bufs := s.bufs[i := b.(valid := true, dirty := false)],
         disk := s.disk[b.key := b.data], view := s.view[b.key := b.data], touched := s.touched - {i})
    else
      s.(bufs := s.bufs[i := b.(valid := true, data := At(s.disk, b.key))])
  }

  // ----- the invariant

  predicate UniqueKeys(s: State) {
    forall i, j :: 0 <= i < j < |s.bufs| && s.bufs[i].key.dev != 0 ==> s.bufs[i].key != s.bufs[j].key
  }

  predicate BufOk(s: State, i: nat)
    requires Shape(s) && i < NBUF
  {
    var b := s.bufs[i];
    && s.leaving[i] + (if b.held then 1 else 0) <= b.refcnt
    && (b.dirty ==> b.valid)
    && (b.valid || b.refcnt > 0 ==> b.key.dev != 0)
    && (b.valid && i !in s.touched ==> b.data == At(s.view, b.key))
    && (i in s.touched ==> b.held && b.valid)
    && (b.valid && !b.dirty && i !in s.touched ==> b.data == At(s.disk, b.key))
  }

  /** A block whose device content is not the last one written is pinned in a dirty buffer. */
  predicate Pinned(s: State, k: Key) {
    exists i :: 0 <= i < |s.bufs| && s.bufs[i].key == k && s.bufs[i].dirty
  }

  ghost predicate Inv(s: State) {
    && Shape(s)
    && UniqueKeys(s)
    && (forall i :: 0 <= i < NBUF ==> BufOk(s, i))
    && (forall k {:trigger At(s.disk, k)} {:trigger Pinned(s, k)} :: At(s.disk, k) == At(s.view, k) || Pinned(s, k))
  }

  // ----- every step keeps it

  lemma {:induction false} RemoveContents(order: seq<nat>, i: nat)
    requires i in order && Distinct(order)
    ensures forall x :: x in Remove(order, i) <==> x in order && x != i
    ensures Distinct(Remove(order, i))
  {
    assert order == [order[0]] + order[1..];
    if order[0] != i {
      RemoveContents(order[1..], i);
      ConsDistinct(order[0], Remove(order[1..], i));
    }
  }

  lemma ConsDistinct(x: nat, r: seq<nat>)
    requires Distinct(r) && x !in r
    ensures Distinct([x] + r) && Distinct(r + [x])
  {
  }

  lemma DerefShape(s: State, i: nat)
    requires Shape(s) && i < NBUF && s.leaving[i] > 0 && s.bufs[i].refcnt > 0
    ensures Shape(Deref(s, i))
  {
    RemoveContents(s.order, i);
    var t, rest := Deref(s, i), Remove(s.order, i);
    ConsDistinct(i, rest);
    assert forall p :: 0 <= p < |rest| ==> rest[p] in s.order;
    forall j | 0 <= j < NBUF ensures j in t.order { assert j in s.order; }
  }

  lemma GetKeepsInv(s: State, k: Key, noCache: bool)
    requires Inv(s) && k.dev != 0 && Lookup(s, k, noCache).Some?
    ensures var (t, i) := Lookup(s, k, noCache).value;
            Inv(t) && t.bufs[i].key == k && t.bufs[i].refcnt > s.leaving[i] && t.disk == s.disk && t.view == s.view
  {
    var (t, i) := Lookup(s, k, noCache).value;
    assert BufOk(s, i);
    forall j | 0 <= j < NBUF ensures BufOk(t, j) { assert BufOk(s, j); }
    forall x ensures At(t.disk, x) == At(t.view, x) || Pinned(t, x) {
      assert At(s.disk, x) == At(s.view, x) || Pinned(s, x);
      if Pinned(s, x) {
        var j :| 0 <= j < |s.bufs| && s.bufs[j].key == x && s.bufs[j].dirty;
        assert t.bufs[j].key == x && t.bufs[j].dirty;
      }
    }
    forall j | 0 <= j < NBUF ensures FindKey(s.bufs, s.order, k).None? ==> s.bufs[j].key != k { assert j in s.order; }
  }

  lemma NextKeepsInv(s: State, step: Step)
    requires Inv(s) && Allowed(s, step)
    ensures Inv(Next(s, step))
  {
    var t := Next(s, step);
    match step
    case GetStep(k, nc) => GetKeepsInv(s, k, nc);
    case DerefStep(i) => DerefKeepsInv(s, i);
    case FillStep(i) => FillKeepsInv(s, i);
    case WriteStep(i) => WriteKeepsInv(s, i);
    case LogStep(i) => LogKeepsInv(s, i);
    case _ => SlotStepKeepsInv(s, step);
  }

  /** Pinning carries over when keys and dirty bits do. */
  lemma PinnedKept(s: State, t: State)
    requires |s.bufs| == |t.bufs|
    requires forall i :: 0 <= i < |s.bufs| ==> t.bufs[i].key == s.bufs[i].key && t.bufs[i].dirty == s.bufs[i].dirty
    ensures forall k :: Pinned(s, k) == Pinned(t, k)
  {
    forall k ensures Pinned(s, k) == Pinned(t, k) {
      if Pinned(s, k) { var i :| 0 <= i < |s.bufs| && s.bufs[i].key == k && s.bufs[i].dirty; assert t.bufs[i].dirty; }
      if Pinned(t, k) { var i :| 0 <= i < |t.bufs| && t.bufs[i].key == k && t.bufs[i].dirty; assert s.bufs[i].dirty; }
    }
  }

  lemma SlotStepKeepsInv(s: State, step: Step)
    requires Inv(s) && Allowed(s, step)
    requires step.LockStep? || step.ModifyStep? || step.UnlockStep? || step.EnableStep? || step.DisableStep?
    ensures Inv(Next(s, step))
  {
    var t := Next(s, step);
    PinnedKept(s, t);
    forall j | 0 <= j < NBUF ensures BufOk(t, j) { assert BufOk(s, j); }
  }

  lemma DerefKeepsInv(s: State, i: nat)
    requires Inv(s) && i < NBUF && s.leaving[i] > 0 && s.bufs[i].refcnt > 0
    ensures Inv(Deref(s, i))
  {
    var t := Deref(s, i);
    DerefShape(s, i);
    PinnedKept(s, t);
    forall j | 0 <= j < NBUF ensures BufOk(t, j) { assert BufOk(s, j); }
  }

  lemma FillKeepsInv(s: State, i: nat)
    requires Inv(s) && i < NBUF && s.bufs[i].held && !s.bufs[i].valid
    ensures Inv(Sync(s, i))
  {
    var t, k := Sync(s, i), s.bufs[i].key;
    assert BufOk(s, i);
    PinnedKept(s, t);
    assert At(s.disk, k) == At(s.view, k) by { assert !Pinned(s, k); }
    forall j | 0 <= j < NBUF ensures BufOk(t, j) { assert BufOk(s, j); }
  }

  lemma WriteKeepsInv(s: State, i: nat)
    requires Inv(s) && i < NBUF && s.bufs[i].held
    ensures Inv(Next(s, WriteStep(i)))
  {
    var t, k := Next(s, WriteStep(i)), s.bufs[i].key;
    assert BufOk(s, i);
    forall j | 0 <= j < NBUF ensures BufOk(t, j) {
      assert BufOk(s, j);
      if j != i && s.bufs[j].valid { assert s.bufs[j].key != k; }
    }
    OtherBlocksStayPinned(s, t, k);
  }

  lemma LogKeepsInv(s: State, i: nat)
    requires Inv(s) && i < NBUF && s.bufs[i].held && s.bufs[i].valid
    ensures Inv(Next(s, LogStep(i)))
  {
    var t, k := Next(s, LogStep(i)), s.bufs[i].key;
    assert BufOk(s, i);
    forall j | 0 <= j < NBUF ensures BufOk(t, j) {
      assert BufOk(s, j);
      if j != i && s.bufs[j].valid { assert s.bufs[j].key != k; }
    }
    assert t.bufs[i].dirty && t.bufs[i].key == k;
    assert Pinned(t, k);
    OtherBlocksStayPinned(s, t, k);
  }

  lemma OtherBlocksStayPinned(s: State, t: State, k: Key)
    requires Inv(s) && |t.bufs| == NBUF
    requires forall i :: 0 <= i < NBUF ==>
      t.bufs[i].key == s.bufs[i].key && (s.bufs[i].key != k ==> t.bufs[i].dirty == s.bufs[i].dirty)
    requires forall x :: x != k ==> At(t.disk, x) == At(s.disk, x) && At(t.view, x) == At(s.view, x)
    ensures forall x :: x != k ==> At(t.disk, x) == At(t.view, x) || Pinned(t, x)
  {
    forall x | x != k ensures At(t.disk, x) == At(t.view, x) || Pinned(t, x) {
      assert At(s.disk, x) == At(s.view, x) || Pinned(s, x);
      if Pinned(s, x) {
        var i :| 0 <= i < |s.bufs| && s.bufs[i].key == x && s.bufs[i].dirty;
        assert t.bufs[i].dirty;
      }
    }
  }

  // ----- whole runs

  /** A cache no buffer of which was used yet, over devices with any content. */
  predicate Initial(s: State) {
    && Shape(s)
    && s.view == s.disk && s.touched == {}
    && (forall i :: 0 <= i < NBUF ==>
          s.leaving[i] == 0 && s.bufs[i].key.dev == 0 && s.bufs[i].refcnt == 0 &&
          !s.bufs[i].valid && !s.bufs[i].dirty && !s.bufs[i].held)
  }

  /** Any interleaving of allowed steps. */
  predicate IsRun(states: seq<State>, steps: seq<Step>) {
    && |states| == |steps| + 1
    && Initial(states[0])
    && (forall n :: 0 <= n < |steps| ==>
          Shape(states[n]) && Allowed(states[n], steps[n]) && states[n + 1] == Next(states[n], steps[n]))
  }

  lemma {:induction false} RunKeepsInv(states: seq<State>, steps: seq<Step>)
    requires IsRun(states, steps)
    ensures Inv(states[|steps|])
  {
    var n := |steps|;
    if n == 0 {
      assert forall i :: 0 <= i < NBUF ==> BufOk(states[0], i);
    } else {
      RunKeepsInv(states[..n], steps[..n - 1]);
      NextKeepsInv(states[n - 1], steps[n - 1]);
    }
  }

  /** The content a run last wrote or logged for block `k`, else what its device held at the start. */
  function LastWritten(states: seq<State>, steps: seq<Step>, k: Key): Block
    requires |states| == |steps| + 1
    decreases |steps|
  {
    var n := |steps| - 1;
    if steps == [] then At(states[0].disk, k)
    else if (steps[n].WriteStep? || steps[n].LogStep?) && steps[n].i < |states[n].bufs| &&
      states[n].bufs[steps[n].i].key == k
    then states[n].bufs[steps[n].i].data
    else LastWritten(states[..n + 1], steps[..n], k)
  }

  lemma {:induction false} ViewIsLastWritten(states: seq<State>, steps: seq<Step>, k: Key)
    requires IsRun(states, steps)
    ensures At(states[|steps|].view, k) == LastWritten(states, steps, k)
  {
    var n := |steps| - 1;
    if steps != [] {
      ViewIsLastWritten(states[..n + 1], steps[..n], k);
      RunKeepsInv(states[..n + 1], steps[..n]);
      if steps[n].FillStep? { assert BufOk(states[n], steps[n].i); }
    }
  }

  /** Transparency: whatever the interleaving, and however caching was switched, a process that
      holds a buffer filled by `bread` sees the content last written or logged for its block. */
  lemma {:induction false} ReadsReturnLatest(states: seq<State>, steps: seq<Step>, i: nat)
    requires IsRun(states, steps) && i < NBUF
    requires Shape(states[|steps|])
    requires var s := states[|steps|]; s.bufs[i].valid && i !in s.touched
    ensures var b := states[|steps|].bufs[i]; b.data == LastWritten(states, steps, b.key)
  {
    RunKeepsInv(states, steps);
    assert BufOk(states[|steps|], i);
    ViewIsLastWritten(states, steps, states[|steps|].bufs[i].key);
  }

  /** No step takes a referenced or dirty buffer away from its block. */
  lemma PinnedNeverRecycled(s: State, step: Step, i: nat)
    requires Shape(s) && Allowed(s, step) && i < NBUF && !Recyclable(s.bufs[i])
    ensures Next(s, step).bufs[i].key == s.bufs[i].key
  {
  }

  // ----- caching off, and the hint not to cache

  /** With caching off, a buffer that nobody uses and that needs no write is not valid. */
  predicate Forgotten(s: State) {
    !s.enabled ==> forall i :: 0 <= i < |s.bufs| && Recyclable(s.bufs[i]) ==> !s.bufs[i].valid
  }

  lemma NextKeepsForgotten(s: State, step: Step)
    requires Inv(s) && Forgotten(s) && Allowed(s, step)
    ensures Forgotten(Next(s, step))
  {
    if step.FillStep? || step.WriteStep? || step.LogStep? || step.LockStep? || step.UnlockStep? || step.ModifyStep? {
      assert BufOk(s, step.i);
    }
  }

  lemma {:induction false} RunKeepsForgotten(states: seq<State>, steps: seq<Step>)
    requires IsRun(states, steps)
    ensures Forgotten(states[|steps|])
  {
    var n := |steps|;
    if n > 0 {
      RunKeepsForgotten(states[..n], steps[..n - 1]);
      RunKeepsInv(states[..n], steps[..n - 1]);
      NextKeepsForgotten(states[n - 1], steps[n - 1]);
    }
  }

  /** The step gives buffer `i` to another block. */
  predicate Recycles(s: State, step: Step, i: nat)
    requires Shape(s)
  {
    step.GetStep? && FindKey(s.bufs, s.order, step.key).None? && FindFree(s.bufs, s.order) == Some(i)
  }

  lemma NextKeepsHint(s: State, step: Step, i: nat)
    requires Shape(s) && Allowed(s, step) && i < NBUF
    ensures |Next(s, step).bufs| == NBUF
    ensures Next(s, step).bufs[i].noCache == if Recycles(s, step, i) then step.noCache else s.bufs[i].noCache
    ensures s.bufs[i].refcnt > 0 ==> !Recycles(s, step, i)
  {
    if step.GetStep? {
      GetSetsHint(s, step.key, step.noCache, i);
    } else if step.DisableStep? {
      assert Next(s, step).bufs[i].noCache == s.bufs[i].noCache;
    }
  }

  lemma GetSetsHint(s: State, k: Key, noCache: bool, i: nat)
    requires Shape(s) && Allowed(s, GetStep(k, noCache)) && i < NBUF
    ensures var t := Next(s, GetStep(k, noCache));
      && |t.bufs| == NBUF
      && t.bufs[i].noCache == if Recycles(s, GetStep(k, noCache), i) then noCache else s.bufs[i].noCache
  {
  }

  lemma RunStep(states: seq<State>, steps: seq<Step>, n: nat)
    requires IsRun(states, steps) && n < |steps|
    ensures Shape(states[n]) && Allowed(states[n], steps[n]) && states[n + 1] == Next(states[n], steps[n])
    ensures Shape(states[n + 1])
  {
    RunKeepsInv(states[..n + 2], steps[..n + 1]);
  }

  /** In every run the hint given when a buffer was recycled is kept while it is used. */
  lemma {:induction false} RunKeepsHint(states: seq<State>, steps: seq<Step>, m: nat, n: nat, i: nat)
    requires IsRun(states, steps) && m < n <= |steps| && i < NBUF && Recycles(states[m], steps[m], i)
    requires forall q :: m < q < n ==> Shape(states[q]) && states[q].bufs[i].refcnt > 0
    ensures Shape(states[n]) && states[n].bufs[i].noCache == steps[m].noCache
    decreases n
  {
    RunStep(states, steps, n - 1);
    NextKeepsHint(states[n - 1], steps[n - 1], i);
    if m < n - 1 { RunKeepsHint(states, steps, m, n - 1, i); }
  }

  /** Its last holder puts it at the end of the ring exactly if the hint was given or caching is off,
      and at the front otherwise. */
  lemma ReleasedByHint(states: seq<State>, steps: seq<Step>, m: nat, n: nat, i: nat)
    requires IsRun(states, steps) && m < n < |steps| && i < NBUF && Recycles(states[m], steps[m], i)
    requires forall q :: m < q <= n ==> Shape(states[q]) && states[q].bufs[i].refcnt > 0
    requires steps[n] == DerefStep(i) && states[n].bufs[i].refcnt == 1
    ensures Shape(states[n + 1])
    ensures states[n + 1].order[NBUF - 1] == i <==> steps[m].noCache || !states[n].enabled
    ensures states[n + 1].order[0] == i <==> !steps[m].noCache && states[n].enabled
  {
    RunKeepsHint(states, steps, m, n, i);
    var s, t := states[n], states[n + 1];
    DerefShape(s, i);
    assert t == Deref(s, i);
    RemoveGone(s.order, i);
  }

  lemma {:induction false} RemoveGone(order: seq<nat>, i: nat)
    requires i in order && Distinct(order)
    ensures i !in Remove(order, i)
  {
    if order[0] != i {
      RemoveGone(order[1..], i);
    } else {
      assert forall q :: 0 <= q < |order[1..]| ==> order[1..][q] == order[q + 1];
    }
  }

  // ----- replacement order

  predicate Caching(s: State) {
    s.enabled && forall i :: 0 <= i < |s.bufs| ==> !s.bufs[i].noCache
  }

  predicate CachingStep(step: Step) {
    !step.DisableStep? && (step.GetStep? ==> !step.noCache)
  }

  /** Unreferenced buffers stand on the ring in the order of their last release, latest first. */
  predicate ReleaseOrder(s: State)
    requires Shape(s)
  {
    && (forall i :: 0 <= i < NBUF ==> s.stamp[i] <= s.clock)
    && (forall p, q :: 0 <= p < q < NBUF && s.bufs[s.order[p]].refcnt == 0 && s.bufs[s.order[q]].refcnt == 0 ==>
          s.stamp[s.order[p]] > s.stamp[s.order[q]])
  }

  lemma {:induction false} RemoveKeepsOrder(order: seq<nat>, i: nat, p: nat, q: nat) returns (p': nat, q': nat)
    requires i in order && p < q < |order| - 1
    ensures p' < q' < |order| && order[p'] == Remove(order, i)[p] && order[q'] == Remove(order, i)[q]
  {
    if order[0] == i {
      p', q' := p + 1, q + 1;
    } else if p > 0 {
      p', q' := RemoveKeepsOrder(order[1..], i, p - 1, q - 1);
      p', q' := p' + 1, q' + 1;
    } else {
      p' := 0;
      q' := RemoveIndex(order[1..], i, q - 1);
      q' := q' + 1;
    }
  }

  lemma {:induction false} RemoveIndex(order: seq<nat>, i: nat, q: nat) returns (q': nat)
    requires i in order && q < |order| - 1
    ensures q' < |order| && order[q'] == Remove(order, i)[q]
  {
    if order[0] == i {
      q' := q + 1;
    } else if q == 0 {
      q' := 0;
    } else {
      q' := RemoveIndex(order[1..], i, q - 1);
      q' := q' + 1;
    }
  }

  /** A buffer moved to the front with the latest stamp. */
  lemma FrontKeepsReleaseOrder(s: State, t: State, i: nat)
    requires Shape(s) && ReleaseOrder(s) && Shape(t) && i < NBUF
    requires t.order == [i] + Remove(s.order, i)
    requires t.clock == s.clock + 1 && t.stamp == s.stamp[i := t.clock]
    requires forall j :: 0 <= j < NBUF && j != i ==> t.bufs[j].refcnt == s.bufs[j].refcnt
    ensures ReleaseOrder(t)
  {
    forall p, q | 0 <= p < q < NBUF && t.bufs[t.order[p]].refcnt == 0 && t.bufs[t.order[q]].refcnt == 0
      ensures t.stamp[t.order[p]] > t.stamp[t.order[q]]
    {
      FrontPair(s, t, i, p, q);
    }
  }

  lemma FrontPair(s: State, t: State, i: nat, p: nat, q: nat)
    requires Shape(s) && ReleaseOrder(s) && Shape(t) && i < NBUF && p < q < NBUF
    requires t.order == [i] + Remove(s.order, i)
    requires t.clock == s.clock + 1 && t.stamp == s.stamp[i := t.clock]
    requires forall j :: 0 <= j < NBUF && j != i ==> t.bufs[j].refcnt == s.bufs[j].refcnt
    requires t.bufs[t.order[p]].refcnt == 0 && t.bufs[t.order[q]].refcnt == 0
    ensures t.stamp[t.order[p]] > t.stamp[t.order[q]]
  {
    assert t.order[0] == i && t.order[0] != t.order[q];
    if p > 0 {
      assert t.order[0] != t.order[p];
      var p', q' := RemoveKeepsOrder(s.order, i, p - 1, q - 1);
    }
  }

  lemma SameRingKeepsReleaseOrder(s: State, t: State)
    requires Shape(s) && ReleaseOrder(s) && Shape(t)
    requires t.order == s.order && t.stamp == s.stamp && t.clock == s.clock
    requires forall j :: 0 <= j < NBUF && t.bufs[j].refcnt == 0 ==> s.bufs[j].refcnt == 0
    ensures ReleaseOrder(t)
  {
  }

  lemma GetKeepsReleaseOrder(s: State, k: Key)
    requires Shape(s) && Caching(s) && ReleaseOrder(s) && Allowed(s, GetStep(k, false))
    ensures var t := Next(s, GetStep(k, false)); Shape(t) && Caching(t) && ReleaseOrder(t)
  {
    var (t, i) := Lookup(s, k, false).value;
    SameRingKeepsReleaseOrder(s, t);
  }

  lemma DerefKeepsReleaseOrder(s: State, i: nat)
    requires Shape(s) && Caching(s) && ReleaseOrder(s) && Allowed(s, DerefStep(i))
    ensures var t := Deref(s, i); Shape(t) && Caching(t) && ReleaseOrder(t)
  {
    var t := Deref(s, i);
    DerefShape(s, i);
    if s.bufs[i].refcnt == 1 { FrontKeepsReleaseOrder(s, t, i); } else { SameRingKeepsReleaseOrder(s, t); }
  }

  lemma HolderKeepsReleaseOrder(s: State, step: Step)
    requires Shape(s) && Caching(s) && ReleaseOrder(s) && Allowed(s, step) && CachingStep(step)
    requires !step.GetStep? && !step.DerefStep?
    ensures var t := Next(s, step); Shape(t) && Caching(t) && ReleaseOrder(t)
  {
    SameRingKeepsReleaseOrder(s, Next(s, step));
  }

  lemma NextKeepsReleaseOrder(s: State, step: Step)
    requires Shape(s) && Caching(s) && ReleaseOrder(s) && Allowed(s, step) && CachingStep(step)
    ensures var t := Next(s, step); Shape(t) && Caching(t) && ReleaseOrder(t)
  {
    if step.GetStep? {
      GetKeepsReleaseOrder(s, step.key);
    } else if step.DerefStep? {
      DerefKeepsReleaseOrder(s, step.i);
    } else {
      HolderKeepsReleaseOrder(s, step);
    }
  }

  lemma {:induction false} RunKeepsReleaseOrder(states: seq<State>, steps: seq<Step>)
    requires IsRun(states, steps) && Caching(states[0]) && ReleaseOrder(states[0])
    requires forall n :: 0 <= n < |steps| ==> CachingStep(steps[n])
    ensures var t := states[|steps|]; Shape(t) && Caching(t) && ReleaseOrder(t)
  {
    var n := |steps|;
    if n > 0 {
      RunKeepsReleaseOrder(states[..n], steps[..n - 1]);
      NextKeepsReleaseOrder(states[n - 1], steps[n - 1]);
    }
  }

  /** The buffer that `Lookup` recycles was released before every other buffer it could have taken. */
  lemma RecyclesLeastRecentlyReleased(s: State, k: Key, j: nat)
    requires Shape(s) && ReleaseOrder(s) && FindKey(s.bufs, s.order, k).None?
    requires j < NBUF && Recyclable(s.bufs[j])
    ensures Lookup(s, k, false).Some?
    ensures var i := Lookup(s, k, false).value.1; Recyclable(s.bufs[i]) && (i != j ==> s.stamp[i] < s.stamp[j])
  {
    assert j in s.order;
    var p := LastFree(s.bufs, s.order);
    var q :| 0 <= q < NBUF && s.order[q] == j;
  }

  lemma {:induction false} LastFree(bufs: seq<Buf>, order: seq<nat>) returns (p: nat)
    requires forall q :: 0 <= q < |order| ==> order[q] < |bufs|
    requires FindFree(bufs, order).Some?
    ensures p < |order| && order[p] == FindFree(bufs, order).value
    ensures forall q :: p < q < |order| ==> !Recyclable(bufs[order[q]])
  {
    p := |order| - 1;
    if !Recyclable(bufs[order[p]]) { p := LastFree(bufs, order[..p]); }
  }

  /** Both halves of buf_cache_release, with nothing in between. */
  ghost function Released(s: State, i: nat): State
    requires Inv(s) && Allowed(s, UnlockStep(i))
  {
    assert BufOk(s, i);
    Next(Next(s, UnlockStep(i)), DerefStep(i))
  }

  // ----- the linked ring

  /** Node of the ring at position `p` of `order`; both ends are the list head, node `NBUF`. */
  function Node(order: seq<nat>, p: int): nat {
    if 0 <= p < |order| then order[p] else NBUF
  }

  /** `prev` and `next` link the head and the nodes of `order` into a ring. */
  predicate Ring(order: seq<nat>, prev: seq<nat>, next: seq<nat>) {
    && |prev| == |next| == NBUF + 1
    && Distinct(order)
    && (forall p :: 0 <= p < |order| ==> order[p] < NBUF)
    && (forall p :: -1 <= p < |order| ==>
          next[Node(order, p)] == Node(order, p + 1) && prev[Node(order, p + 1)] == Node(order, p))
  }

  lemma Unlink(order: seq<nat>, p: nat, prev: seq<nat>, next: seq<nat>)
    requires Ring(order, prev, next) && p < |order|
    ensures var i := order[p];
            prev[i] <= NBUF && next[i] <= NBUF &&
            Ring(order[..p] + order[p + 1..], prev[next[i] := prev[i]], next[prev[i] := next[i]])
  {
    var i, rest := order[p], order[..p] + order[p + 1..];
    assert i == Node(order, p);
    var before, after := Node(order, p - 1), Node(order, p + 1);
    assert prev[Node(order, p - 1 + 1)] == before && next[i] == after;
    var prev', next' := prev[after := before], next[before := after];
    forall q | -1 <= q < |rest|
      ensures next'[Node(rest, q)] == Node(rest, q + 1) && prev'[Node(rest, q + 1)] == Node(rest, q)
    {
      var q0 := if q < p then q else q + 1;
      assert Node(rest, q) == Node(order, q0);
      var q1 := if q + 1 < p then q + 1 else q + 2;
      assert Node(rest, q + 1) == Node(order, q1);
      assert next[Node(order, q0)] == Node(order, q0 + 1);
      assert prev[Node(order, q1 - 1 + 1)] == Node(order, q1 - 1);
    }
  }

  lemma LinkFirst(order: seq<nat>, i: nat, prev: seq<nat>, next: seq<nat>)
    requires Ring(order, prev, next) && i < NBUF && i !in order
    ensures var first := next[NBUF];
            first <= NBUF &&
            Ring([i] + order, prev[i := NBUF][first := i], next[i := first][NBUF := i])
  {
    var grown := [i] + order;
    ConsDistinct(i, order);
    var first := Node(order, 0);
    assert next[Node(order, -1)] == Node(order, -1 + 1);
    var prev', next' := prev[i := NBUF][first := i], next[i := first][NBUF := i];
    forall q | -1 <= q < |grown|
      ensures next'[Node(grown, q)] == Node(grown, q + 1) && prev'[Node(grown, q + 1)] == Node(grown, q)
    {
      assert q >= 1 ==> Node(grown, q) == Node(order, q - 1);
      assert q >= 0 ==> Node(grown, q + 1) == Node(order, q);
      if q >= 1 { assert next[Node(order, q - 1)] == Node(order, q - 1 + 1); }
    }
  }

  lemma LinkLast(order: seq<nat>, i: nat, prev: seq<nat>, next: seq<nat>)
    requires Ring(order, prev, next) && i < NBUF && i !in order
    ensures var last := prev[NBUF];
            last <= NBUF &&
            Ring(order + [i], prev[i := last][NBUF := i], next[i := NBUF][last := i])
  {
    var grown, n := order + [i], |order|;
    ConsDistinct(i, order);
    var last := Node(order, n - 1);
    assert prev[Node(order, n - 1 + 1)] == last;
    var prev', next' := prev[i := last][NBUF := i], next[i := NBUF][last := i];
    forall q | -1 <= q < |grown|
      ensures next'[Node(grown, q)] == Node(grown, q + 1) && prev'[Node(grown, q + 1)] == Node(grown, q)
    {
      assert q < n ==> Node(grown, q) == Node(order, q);
      assert q + 1 < n ==> Node(grown, q + 1) == Node(order, q + 1);
      if q + 1 < n { assert next[Node(order, q)] == Node(order, q + 1); }
    }
  }

  lemma {:induction false} RemoveAt(order: seq<nat>, p: nat)
    requires p < |order| && Distinct(order)
    ensures Remove(order, order[p]) == order[..p] + order[p + 1..]
  {
    if p > 0 {
      RemoveAt(order[1..], p - 1);
      assert order[1..][..p - 1] + order[1..][p..] == (order[..p] + order[p + 1..])[1..];
    }
  }

  lemma {:induction false} FindKeyAt(bufs: seq<Buf>, order: seq<nat>, k: Key, p: nat)
    requires forall q :: 0 <= q < |order| ==> order[q] < |bufs|
    requires p <= |order| && forall q :: 0 <= q < p ==> bufs[order[q]].key != k
    ensures p < |order| && bufs[order[p]].key == k ==> FindKey(bufs, order, k) == Some(order[p])
    ensures p == |order| ==> FindKey(bufs, order, k) == None
  {
    if p > 0 { FindKeyAt(bufs, order[1..], k, p - 1); }
  }

  lemma {:induction false} FindFreeAt(bufs: seq<Buf>, order: seq<nat>, p: int)
    requires forall q :: 0 <= q < |order| ==> order[q] < |bufs|
    requires -1 <= p < |order| && forall q :: p < q < |order| ==> !Recyclable(bufs[order[q]])
    ensures p >= 0 && Recyclable(bufs[order[p]]) ==> FindFree(bufs, order) == Some(order[p])
    ensures p == -1 ==> FindFree(bufs, order) == None
    decreases |order|
  {
    if p < |order| - 1 { FindFreeAt(bufs, order[..|order| - 1], p); }
  }

  function Unused(): Buf { Buf(Key(0, 0), false, false, false, 0, false, ZeroBlock()) }

  lemma UnusedInitial(s: State)
    requires Shape(s) && s.enabled && s.view == s.disk && s.touched == {} && s.clock == NBUF
    requires forall i :: 0 <= i < NBUF ==> s.bufs[i] == Unused() && s.leaving[i] == 0 && s.stamp[i] == i
    requires forall p :: 0 <= p < NBUF ==> s.order[p] == NBUF - 1 - p
    ensures Initial(s) && Caching(s) && ReleaseOrder(s)
  {
  }

  // ----- the cache itself

  class Cache {
    var buf: array<Buf>
    var prev: array<nat>   // ring links; index NBUF is the list head
    var next: array<nat>
    var enabled: bool
    var disk: Store        // the devices

    ghost var order: seq<nat>
    ghost var view: Store
    ghost var touched: set<nat>
    ghost var leaving: seq<nat>
    ghost var stamp: seq<nat>
    ghost var clock: nat

    ghost function Value(): State
      reads this, buf
    {
      State(buf[..], order, enabled, disk, view, touched, leaving, stamp, clock)
    }

    ghost predicate Linked()
      reads this, buf, prev, next
    {
      && prev != next
      && Shape(Value())
      && Ring(order, prev[..], next[..])
    }

    ghost predicate Valid()
      reads this, buf, prev, next
    {
      Linked() && Inv(Value())
    }

    /** buf_cache_init */
    constructor (devices: Store)
      ensures Valid() && Initial(Value()) && Caching(Value()) && ReleaseOrder(Value()) && disk == devices
      ensures fresh(buf) && fresh(prev) && fresh(next)
    {
      buf := new Buf[NBUF](_ => Unused());
      prev := new nat[NBUF + 1](_ => NBUF);
      next := new nat[NBUF + 1](_ => NBUF);
      enabled := true;
      disk := devices;
      order, view, touched, clock := [], devices, {}, NBUF;
      leaving, stamp := seq(NBUF, _ => 0), seq(NBUF, i => i);
      new;
      var b := 0;
      while b < NBUF
        invariant 0 <= b <= NBUF && |order| == b
        invariant prev != next && Ring(order, prev[..], next[..])
        invariant forall p :: 0 <= p < b ==> order[p] == b - 1 - p
        modifies this`order, prev, next
      {
        AttachFirst(b);
        b := b + 1;
      }
      forall i | 0 <= i < NBUF ensures i in order { assert order[NBUF - 1 - i] == i; }
      UnusedInitial(Value());
      RunKeepsInv([Value()], []);
    }

    /** buf_cache_get's first walk: is the block cached? The list head says no. */
    method FindCached(k: Key) returns (b: nat)
      requires Linked()
      ensures b == match FindKey(buf[..], order, k) case Some(i) => i case None => NBUF
    {
      ghost var p := 0;
      assert next[Node(order, -1)] == Node(order, -1 + 1);
      b := next[NBUF];
      while b != NBUF && buf[b].key != k
        invariant 0 <= p <= NBUF && b == Node(order, p)
        invariant forall q :: 0 <= q < p ==> buf[order[q]].key != k
        decreases NBUF - p
      {
        assert next[Node(order, p)] == Node(order, p + 1);
        b := next[b];
        p := p + 1;
      }
      FindKeyAt(buf[..], order, k, p);
    }

    /** buf_cache_get's second walk, from the tail: the head when no buffer may be recycled. */
    method FindRecyclable() returns (b: nat)
      requires Linked()
      ensures b == match FindFree(buf[..], order) case Some(i) => i case None => NBUF
    {
      ghost var p := NBUF - 1;
      assert prev[Node(order, NBUF - 1 + 1)] == Node(order, NBUF - 1);
      b := prev[NBUF];
      while b != NBUF && !(buf[b].refcnt == 0 && !buf[b].dirty)
        invariant -1 <= p < NBUF && b == Node(order, p)
        invariant forall q :: p < q < NBUF ==> !Recyclable(buf[order[q]])
        decreases p
      {
        assert prev[Node(order, p - 1 + 1)] == Node(order, p - 1);
        b := prev[b];
        p := p - 1;
      }
      FindFreeAt(buf[..], order, p);
    }

    /** buf_cache_get up to the sleep lock. */
    method Get(k: Key, noCache: bool) returns (r: Option<nat>)
      requires Valid() && k.dev != 0
      modifies buf
      ensures Valid()
      ensures r.None? ==> Lookup(old(Value()), k, noCache) == None && Value() == old(Value())
      ensures r.Some? ==> Lookup(old(Value()), k, noCache) == Some((Value(), r.value))
    {
      var b := FindCached(k);
      if b != NBUF {
        GetKeepsInv(Value(), k, noCache);
        buf[b] := buf[b].(refcnt := buf[b].refcnt + 1);
        return Some(b);
      }
      b := FindRecyclable();
      if b != NBUF {
        GetKeepsInv(Value(), k, noCache);
        buf[b] := buf[b].(key := k, valid := false, dirty := false, noCache := noCache, refcnt := 1);
        return Some(b);
      }
      r := None;
    }

    /** acquiresleep on a buffer obtained from `Get`. */
    method Lock(i: nat)
      requires Valid() && Allowed(Value(), LockStep(i))
      modifies buf
      ensures Valid() && Value() == Next(old(Value()), LockStep(i))
    {
      NextKeepsInv(Value(), LockStep(i));
      buf[i] := buf[i].(held := true);
    }

    /** brw */
    method Transfer(i: nat)
      requires Linked() && i < NBUF && Inv(Sync(Value(), i))
      modifies this`disk, this`view, this`touched, buf
      ensures Valid() && Value() == Sync(old(Value()), i)
    {
      var b := buf[i];
      if b.dirty {
        disk := disk[b.key := b.data];
        view := view[b.key := b.data];
        touched := touched - {i};
        buf[i] := b.(valid := true, dirty := false);
      } else {
        buf[i] := b.(valid := true, data := At(disk, b.key));
      }
    }

    /** bwrite; it panics on a buffer that is not held. */
    method Write(i: nat) returns (panic: bool)
      requires Valid() && i < NBUF
      modifies this`disk, this`view, this`touched, buf
      ensures Valid() && (panic <==> !old(Value()).bufs[i].held)
      ensures Value() == if panic then old(Value()) else Next(old(Value()), WriteStep(i))
    {
      if !buf[i].held { return true; }
      NextKeepsInv(Value(), WriteStep(i));
      buf[i] := buf[i].(dirty := true);
      Transfer(i);
      panic := false;
    }

    /** The part of log_write that concerns the buffer. */
    method MarkDirty(i: nat)
      requires Valid() && Allowed(Value(), LogStep(i))
      modifies this`view, this`touched, buf
      ensures Valid() && Value() == Next(old(Value()), LogStep(i))
    {
      NextKeepsInv(Value(), LogStep(i));
      view := view[buf[i].key := buf[i].data];
      touched := touched - {i};
      buf[i] := buf[i].(dirty := true);
    }

    /** A holder changes the content of its buffer. */
    method Modify(i: nat, data: Block)
      requires Valid() && Allowed(Value(), ModifyStep(i, data))
      modifies this`touched, buf
      ensures Valid() && Value() == Next(old(Value()), ModifyStep(i, data))
    {
      NextKeepsInv(Value(), ModifyStep(i, data));
      touched := touched + {i};
      buf[i] := buf[i].(data := data);
    }

    /** buf_cache_release; it panics on a buffer that is not held. A holder that changed the buffer
        has written or logged it. */
    method Release(i: nat) returns (panic: bool)
      requires Valid() && i < NBUF && i !in Value().touched
      modifies this`order, this`leaving, this`stamp, this`clock, buf, prev, next
      ensures Valid() && (panic <==> !old(Value()).bufs[i].held)
      ensures Value() == if panic then old(Value()) else Released(old(Value()), i)
    {
      if !buf[i].held { return true; }
      NextKeepsInv(Value(), UnlockStep(i));
      assert BufOk(Value(), i);
      buf[i] := buf[i].(held := false);
      leaving := leaving[i := leaving[i] + 1];
      DerefKeepsInv(Value(), i);
      Unreference(i);
      panic := false;
    }

    method Unreference(i: nat)
      requires Linked() && Allowed(Value(), DerefStep(i))
      modifies this`order, this`leaving, this`stamp, this`clock, buf, prev, next
      ensures Linked() && Value() == Deref(old(Value()), i)
    {
      ghost var s := Value();
      DerefShape(s, i);
      var b := buf[i].(refcnt := buf[i].refcnt - 1);
      leaving := leaving[i := leaving[i] - 1];
      if b.refcnt > 0 {
        buf[i] := b;
      } else {
        Park(i, b);
      }
      assert Value() == Deref(s, i);
    }

    /** The last reference to buffer `i` is gone: requeue it, or forget its content. */
    method Park(i: nat, b: Buf)
      requires buf.Length == |stamp| == NBUF && prev != next && Ring(order, prev[..], next[..]) && i in order
      modifies this`order, this`stamp, this`clock, buf, prev, next
      ensures buf[..] == old(buf[..])[i := if !enabled && !b.dirty then b.(valid := false) else b]
      ensures Ring(order, prev[..], next[..])
      ensures order == if enabled && !b.noCache then [i] + Remove(old(order), i) else Remove(old(order), i) + [i]
      ensures clock == old(clock) + 1 && stamp == old(stamp)[i := clock]
    {
      stamp := stamp[i := clock + 1];
      clock := clock + 1;
      buf[i] := if !enabled && !b.dirty then b.(valid := false) else b;
      Requeue(i, enabled && !b.noCache);
    }

    /** Take buffer `i` off the ring and put it back at the head or at the tail. */
    method Requeue(i: nat, first: bool)
      requires prev != next && Ring(order, prev[..], next[..]) && i in order
      modifies this`order, prev, next
      ensures Ring(order, prev[..], next[..])
      ensures order == if first then [i] + Remove(old(order), i) else Remove(old(order), i) + [i]
    {
      assert i < NBUF;
      Detach(i);
      if first { AttachFirst(i); } else { AttachLast(i); }
    }

    /** Take buffer `i` off the ring. */
    method Detach(i: nat)
      requires prev != next && Ring(order, prev[..], next[..]) && i in order
      modifies this`order, prev, next
      ensures Ring(order, prev[..], next[..]) && order == Remove(old(order), i) && i !in order
    {
      ghost var p :| 0 <= p < |order| && order[p] == i;
      ghost var pv: seq<nat>, nx: seq<nat> := prev[..], next[..];
      RemoveContents(order, i);
      RemoveAt(order, p);
      Unlink(order, p, pv, nx);
      order := Remove(order, i);
      var before, after := prev[i], next[i];
      prev[after] := before;
      next[before] := after;
      assert prev[..] == pv[after := before] && next[..] == nx[before := after];
    }

    /** Move to the head of the MRU list. */
    method AttachFirst(i: nat)
      requires prev != next && Ring(order, prev[..], next[..]) && i < NBUF && i !in order
      modifies this`order, prev, next
      ensures Ring(order, prev[..], next[..]) && order == [i] + old(order)
    {
      ghost var pv: seq<nat>, nx: seq<nat> := prev[..], next[..];
      LinkFirst(order, i, pv, nx);
      order := [i] + order;
      var first := next[NBUF];
      next[i] := first;
      prev[i] := NBUF;
      prev[first] := i;
      next[NBUF] := i;
      assert prev[..] == pv[i := NBUF][first := i] && next[..] == nx[i := first][NBUF := i];
    }

    /** Move to the tail of the MRU list. */
    method AttachLast(i: nat)
      requires prev != next && Ring(order, prev[..], next[..]) && i < NBUF && i !in order
      modifies this`order, prev, next
      ensures Ring(order, prev[..], next[..]) && order == old(order) + [i]
    {
      ghost var pv: seq<nat>, nx: seq<nat> := prev[..], next[..];
      LinkLast(order, i, pv, nx);
      order := order + [i];
      var last := prev[NBUF];
      prev[i] := last;
      next[i] := NBUF;
      next[last] := i;
      prev[NBUF] := i;
      assert prev[..] == pv[i := last][NBUF := i] && next[..] == nx[i := NBUF][last := i];
    }

    method EnableCache()
      requires Valid()
      modifies this`enabled
      ensures Valid() && Value() == Next(old(Value()), EnableStep) && enabled
    {
      NextKeepsInv(Value(), EnableStep);
      enabled := true;
    }

    method DisableCache()
      requires Valid()
      modifies this`enabled, buf
      ensures Valid() && Value() == Next(old(Value()), DisableStep) && !enabled
    {
      NextKeepsInv(Value(), DisableStep);
      if enabled {
        InvalidateUnused();
        enabled := false;
      }
    }

    method InvalidateUnused()
      requires Linked()
      modifies buf
      ensures buf[..] == DropUnused(old(buf[..]))
    {
      ghost var bufs := buf[..];
      ghost var p := 0;
      assert next[Node(order, -1)] == Node(order, -1 + 1);
      var b := next[NBUF];
      while b != NBUF
        invariant 0 <= p <= NBUF && b == Node(order, p)
        invariant forall q :: 0 <= q < p ==> buf[order[q]] == DropUnused(bufs)[order[q]]
        invariant forall q :: p <= q < NBUF ==> buf[order[q]] == bufs[order[q]]
        decreases NBUF - p
      {
        if buf[b].refcnt == 0 && !buf[b].dirty {
          buf[b] := buf[b].(valid := false);
        }
        assert next[Node(order, p)] == Node(order, p + 1);
        b := next[b];
        p := p + 1;
      }
      forall i | 0 <= i < NBUF ensures buf[i] == DropUnused(bufs)[i] { assert i in order; }
    }
  }
}
