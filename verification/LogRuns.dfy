/** Group commit (kernel/fs/native_log.c): every interleaving of file system calls.

    Calls open with begin_op, log blocks with log_write and close with end_op; the last one to
    close commits the blocks of all of them. The state keeps the history of logged blocks and
    how much of it recovery is to bring back.
 */
module LogRuns {
  import opened Blocks
  import opened BufCache
  import opened NativeLog

  /** An open call: its log_write calls so far, and whether one of them is past the unlocked
      guard and waiting for the log's lock. */
  datatype Op = Op(id: nat, writes: nat, pending: bool)

  /** One block logged by call `op`. */
  datatype Event = Event(op: nat, block: Word, data: Block)

  /** During commit: the device and the durable history when it began, and the writes done. */
  datatype Progress = Idle | Committing(base: Store, from: nat, done: nat)

  datatype Sys = Sys(
    disk: Store,
    view: Store,          // content of each block as readers see it through the cache
    lh: seq<Word>,        // log.lh
    ops: seq<Op>,         // log.outstanding is the length
    commit: Progress,     // log.committing, and how far commit got
    nextId: nat,
    history: seq<Event>,
    durable: nat,         // recovery restores history[..durable]
    panicked: bool)

  datatype Step =
    | Begin
    | Guard(i: nat)                            // log_write up to acquire(&log.lock)
    | Append(i: nat, block: Word, data: Block)  // log_write under the lock
    | End(i: nat)
    | DiskWrite                                 // the next block write of commit
    | Finish                                    // end_op after commit
    | Crash(stops: seq<nat>)                    // stop, and recover in the end

  function Outstanding(s: Sys): nat { |s.ops| }

  /** What the code and the caller allow; each call makes at most `limit` log_write calls. */
  predicate Enabled(g: Geometry, limit: nat, s: Sys, step: Step) {
    && !s.panicked
    && match step
       case Begin => s.commit.Idle? && |s.lh| + (Outstanding(s) + 1) * MAXOPBLOCKS <= LOGSIZE
       case Guard(i) => i < |s.ops| && !s.ops[i].pending && s.ops[i].writes < limit
       case Append(i, b, _) => i < |s.ops| && s.ops[i].pending && !g.InLog(g.K(b))
       case End(i) => i < |s.ops| && !s.ops[i].pending
       case DiskWrite => s.commit.Committing? && |s.lh| <= LOGSIZE &&
         s.commit.done < |CommitWrites(g, s.commit.base, s.view, s.lh)|
       case Finish => s.commit.Committing? && |s.lh| <= LOGSIZE &&
         s.commit.done == |CommitWrites(g, s.commit.base, s.view, s.lh)|
       case Crash(_) => true
  }

  ghost function Next(g: Geometry, limit: nat, s: Sys, step: Step): Sys
    requires Enabled(g, limit, s, step)
  {
    match step
    case Begin => s.(ops := s.ops + [Op(s.nextId, 0, false)], nextId := s.nextId + 1)
    case Guard(i) =>
      if |s.lh| >= LOGSIZE || |s.lh| + 1 >= g.size then s.(panicked := true)
      else s.(ops := s.ops[i := s.ops[i].(writes := s.ops[i].writes + 1, pending := true)])
    case Append(i, b, data) =>
      s.(lh := if b in s.lh then s.lh else s.lh + [b],
         ops := s.ops[i := s.ops[i].(pending := false)],
         view := s.view[g.K(b) := data],
         history := s.history + [Event(s.ops[i].id, b, data)])
    case End(i) =>
      var rest := s.ops[..i] + s.ops[i + 1..];
      s.(ops := rest, commit := if rest == [] then Committing(s.disk, s.durable, 0) else s.commit)
    case DiskWrite =>
      var k := s.commit.done;
      var w := CommitWrites(g, s.commit.base, s.view, s.lh)[k];
      s.(disk := s.disk[w.key := w.data],
         commit := s.commit.(done := k + 1),
         durable := if k == |s.lh| then |s.history| else s.durable)
    case Finish => s.(lh := [], commit := Idle, durable := |s.history|)
    case Crash(stops) =>
      var d := Recover(g, s.disk, stops);
      s.(disk := d, view := d, lh := [], ops := [], commit := Idle,
        history := s.history[..if s.durable <= |s.history| then s.durable else |s.history|])
  }

  // ----- the invariant

  /** Blocks a call may still add to the log. */
  function Unspent(op: Op): int { MAXOPBLOCKS - op.writes + (if op.pending then 1 else 0) }

  function TotalUnspent(ops: seq<Op>): int {
    if ops == [] then 0 else Unspent(ops[|ops| - 1]) + TotalUnspent(ops[..|ops| - 1])
  }

  /** The logged blocks written in order over `x`. */
  function Replay(g: Geometry, x: Store, h: seq<Event>): Store {
    if h == [] then x
    else Replay(g, x, h[..|h| - 1])[g.K(h[|h| - 1].block) := h[|h| - 1].data]
  }

  /** Reservation: the log has room for everything the open calls may still add. */
  predicate Reserved(limit: nat, s: Sys) {
    && (forall i :: 0 <= i < |s.ops| ==> s.ops[i].writes <= limit && (s.ops[i].pending ==> s.ops[i].writes > 0))
    && |s.lh| + TotalUnspent(s.ops) <= LOGSIZE
  }

  predicate LogBlocks(g: Geometry, s: Sys) {
    && (forall i, j :: 0 <= i < j < |s.lh| ==> s.lh[i] != s.lh[j])
    && (forall i :: 0 <= i < |s.lh| ==> !g.InLog(g.K(s.lh[i])))
    && (forall n :: s.durable <= n < |s.history| ==> s.history[n].block in s.lh)
    && (forall n :: 0 <= n < |s.history| ==> !g.InLog(g.K(s.history[n].block)))
  }

  /** Calls are identified, and no logged block of an open call is durable yet. */
  predicate OpsOk(s: Sys) {
    && s.durable <= |s.history|
    && (forall i :: 0 <= i < |s.ops| ==> s.ops[i].id < s.nextId)
    && (forall n :: 0 <= n < |s.history| ==> s.history[n].op < s.nextId)
    && (forall i, n :: 0 <= i < |s.ops| && 0 <= n < s.durable ==> s.history[n].op != s.ops[i].id)
    && (s.commit.Committing? ==> s.ops == [])
  }

  /** Each call's blocks are durable all together or not at all. */
  predicate Atomic(s: Sys) {
    forall m, n :: 0 <= m < s.durable <= n < |s.history| ==> s.history[m].op != s.history[n].op
  }

  /** The device agrees with the durable history, and readers with the whole of it. */
  ghost predicate Contents(g: Geometry, x: Store, s: Sys)
    requires s.durable <= |s.history|
  {
    && SameHome(g, s.view, Replay(g, x, s.history))
    && match s.commit
       case Idle => Clean(g, s.disk, Replay(g, x, s.history[..s.durable]))
       case Committing(base, from, done) =>
         && TxOk(g, s.lh)
         && done <= |CommitWrites(g, base, s.view, s.lh)|
         && s.disk == Apply(base, CommitWrites(g, base, s.view, s.lh)[..done])
         && (done > |s.lh| ==> s.durable == |s.history|)
         && from <= s.durable && (done <= |s.lh| ==> from == s.durable)
         && Clean(g, base, Replay(g, x, s.history[..from])) && Covered(s, from)
  }

  /** Everything logged after `n` is in this transaction. */
  predicate Covered(s: Sys, n: nat) {
    forall m :: n <= m < |s.history| ==> s.history[m].block in s.lh
  }

  ghost predicate Inv(g: Geometry, limit: nat, x: Store, s: Sys) {
    && Reserved(limit, s) && LogBlocks(g, s) && OpsOk(s) && Atomic(s) && Contents(g, x, s)
    && |s.lh| <= LOGSIZE && |s.lh| < g.size
  }

  /** Each call makes at most ten log_write calls, and the log area has room for all that may be
      reserved and the header; at most nine calls do without the room for the header. */
  predicate Roomy(g: Geometry, limit: nat) {
    limit <= MAXOPBLOCKS && LOGSIZE <= g.size && (limit == MAXOPBLOCKS ==> LOGSIZE < g.size)
  }

  // ----- every step keeps it

  lemma {:induction false} UnspentUpdate(ops: seq<Op>, i: nat, op: Op)
    requires i < |ops|
    ensures TotalUnspent(ops[i := op]) == TotalUnspent(ops) - Unspent(ops[i]) + Unspent(op)
  {
    var n := |ops| - 1;
    if i < n {
      UnspentUpdate(ops[..n], i, op);
      assert ops[i := op][..n] == ops[..n][i := op];
    } else {
      assert ops[i := op][..n] == ops[..n];
    }
  }

  lemma {:induction false} UnspentRemove(ops: seq<Op>, i: nat)
    requires i < |ops|
    ensures TotalUnspent(ops[..i] + ops[i + 1..]) == TotalUnspent(ops) - Unspent(ops[i])
  {
    var n := |ops| - 1;
    if i < n {
      UnspentRemove(ops[..n], i);
      var r := ops[..i] + ops[i + 1..];
      assert r[..|r| - 1] == ops[..n][..i] + ops[..n][i + 1..];
    } else {
      assert ops[..i] + ops[i + 1..] == ops[..n];
    }
  }

  /** Every open call holds part of the reservation, unless calls may use all of it. */
  lemma {:induction false} UnspentAtLeast(ops: seq<Op>, limit: nat)
    requires limit <= MAXOPBLOCKS && forall i :: 0 <= i < |ops| ==> ops[i].writes <= limit
    ensures TotalUnspent(ops) >= 0
  {
    if ops != [] { UnspentAtLeast(ops[..|ops| - 1], limit); }
  }

  lemma {:induction false} UnspentAtMost(ops: seq<Op>)
    requires forall i :: 0 <= i < |ops| ==> (ops[i].pending ==> ops[i].writes > 0)
    ensures TotalUnspent(ops) <= 10 * |ops|
  {
    if ops != [] { UnspentAtMost(ops[..|ops| - 1]); }
  }

  lemma BeginReserves(limit: nat, s: Sys, t: Sys, op: Op)
    requires Reserved(limit, s) && op.writes == 0 && !op.pending && t.ops == s.ops + [op] && t.lh == s.lh
    requires |s.lh| + (|s.ops| + 1) * 10 <= LOGSIZE
    ensures Reserved(limit, t)
  {
    assert t.ops[..|t.ops| - 1] == s.ops;
    UnspentAtMost(s.ops);
  }

  lemma ReservedKept(g: Geometry, limit: nat, s: Sys, step: Step)
    requires limit <= MAXOPBLOCKS && Reserved(limit, s) && Enabled(g, limit, s, step)
    ensures Reserved(limit, Next(g, limit, s, step))
  {
    var t := Next(g, limit, s, step);
    match step
    case Begin => BeginReserves(limit, s, t, Op(s.nextId, 0, false));
    case Guard(i) => UnspentUpdate(s.ops, i, s.ops[i].(writes := s.ops[i].writes + 1, pending := true));
    case Append(i, b, data) => UnspentUpdate(s.ops, i, s.ops[i].(pending := false));
    case End(i) => UnspentRemove(s.ops, i); EndReserves(limit, s, i);
    case _ =>
  }

  lemma EndReserves(limit: nat, s: Sys, i: nat)
    requires limit <= MAXOPBLOCKS && Reserved(limit, s) && i < |s.ops|
    ensures |s.lh| + TotalUnspent(s.ops[..i] + s.ops[i + 1..]) <= LOGSIZE
  {
    UnspentRemove(s.ops, i);
  }

  /** A call that may still log a block finds room in the log for it, and for one more with at
      most nine log_write calls per call. */
  lemma RoomLeft(s: Sys, limit: nat, i: nat)
    requires limit <= MAXOPBLOCKS && Reserved(limit, s) && i < |s.ops|
    requires s.ops[i].writes < limit || s.ops[i].pending
    ensures |s.lh| <= LOGSIZE - 1 && (limit < MAXOPBLOCKS ==> |s.lh| <= LOGSIZE - 2)
  {
    UnspentRemove(s.ops, i);
    UnspentAtLeast(s.ops[..i] + s.ops[i + 1..], limit);
  }

  lemma {:induction false} ReplayHome(g: Geometry, x: Store, h: seq<Event>, k: Key)
    requires forall n :: 0 <= n < |h| ==> g.K(h[n].block) != k
    ensures At(Replay(g, x, h), k) == At(x, k)
  {
    if h != [] { ReplayHome(g, x, h[..|h| - 1], k); }
  }

  lemma {:induction false} ReplayConcat(g: Geometry, x: Store, h: seq<Event>, l: seq<Event>)
    ensures Replay(g, x, h + l) == Replay(g, Replay(g, x, h), l)
  {
    if l == [] {
      assert h + l == h;
    } else {
      var n := |l| - 1;
      ReplayConcat(g, x, h, l[..n]);
      assert (h + l)[..|h + l| - 1] == h + l[..n];
    }
  }

  /** Readers and the durable content differ only on logged blocks. */
  lemma ViewDiffersOnLog(g: Geometry, x: Store, s: Sys, from: nat)
    requires from <= |s.history| && Covered(s, from) && SameHome(g, s.view, Replay(g, x, s.history))
    ensures OtherHome(g, Replay(g, x, s.history[..from]), s.view, s.lh)
  {
    var h, l := s.history[..from], s.history[from..];
    assert h + l == s.history;
    ReplayConcat(g, x, h, l);
    forall k | !g.InLog(k) && (k.dev == g.dev ==> k.id !in s.lh)
      ensures At(Replay(g, x, h), k) == At(s.view, k)
    {
      ReplayHome(g, Replay(g, x, h), l, k);
    }
  }

  /** The device always recovers to the durable history. */
  lemma DiskRecovers(g: Geometry, x: Store, s: Sys)
    requires s.durable <= |s.history| && Contents(g, x, s)
    ensures Recovers(g, s.disk, Replay(g, x, s.history[..s.durable]))
  {
    if s.commit.Committing? {
      var (base, from, done) := (s.commit.base, s.commit.from, s.commit.done);
      var x0 := Replay(g, x, s.history[..from]);
      ViewDiffersOnLog(g, x, s, from);
      CommitPrefix(g, base, x0, s.view, s.lh, done);
      if done > |s.lh| {
        assert s.history[..s.durable] == s.history;
        RecoversSame(g, s.disk, s.view, Replay(g, x, s.history));
      }
    }
  }

  lemma RecoversSame(g: Geometry, d: Store, x: Store, y: Store)
    requires Recovers(g, d, x) && SameHome(g, x, y)
    ensures Recovers(g, d, y)
  {
    if !Clean(g, d, x) {
      var lh :| Logged(g, d, x, lh);
      assert Logged(g, d, y, lh);
    }
  }

  lemma AppendLogBlocks(g: Geometry, s: Sys, t: Sys, e: Event)
    requires LogBlocks(g, s) && s.durable <= |s.history| && !g.InLog(g.K(e.block))
    requires t.lh == (if e.block in s.lh then s.lh else s.lh + [e.block]) && t.history == s.history + [e] &&
      t.durable == s.durable
    ensures LogBlocks(g, t)
  {
    forall n | t.durable <= n < |t.history| ensures t.history[n].block in t.lh {
      if n < |s.history| { assert s.history[n].block in s.lh; }
    }
  }

  lemma AppendContents(g: Geometry, x: Store, s: Sys, t: Sys, e: Event)
    requires s.durable <= |s.history| && Contents(g, x, s) && s.commit.Idle? && t.commit.Idle?
    requires t.disk == s.disk && t.view == s.view[g.K(e.block) := e.data] && t.history == s.history + [e] &&
      t.durable == s.durable
    ensures Contents(g, x, t)
  {
    assert t.history[..|t.history| - 1] == s.history;
    assert t.history[..t.durable] == s.history[..s.durable];
    forall k | !g.InLog(k) ensures At(t.view, k) == At(Replay(g, x, t.history), k) {
      assert At(s.view, k) == At(Replay(g, x, s.history), k);
    }
  }

  lemma AppendKeeps(g: Geometry, limit: nat, x: Store, s: Sys, i: nat, b: Word, data: Block)
    requires Roomy(g, limit) && Inv(g, limit, x, s) && Enabled(g, limit, s, Append(i, b, data))
    ensures Inv(g, limit, x, Next(g, limit, s, Append(i, b, data)))
  {
    var t, e := Next(g, limit, s, Append(i, b, data)), Event(s.ops[i].id, b, data);
    ReservedKept(g, limit, s, Append(i, b, data));
    RoomLeft(s, limit, i);
    AppendLogBlocks(g, s, t, e);
    AppendContents(g, x, s, t, e);
  }

  lemma EndContents(g: Geometry, x: Store, s: Sys, t: Sys)
    requires s.durable <= |s.history| && Contents(g, x, s) && s.commit.Idle? && LogBlocks(g, s) && |s.lh| <= LOGSIZE &&
      |s.lh| < g.size
    requires t.commit == Committing(s.disk, s.durable, 0)
    requires t.disk == s.disk && t.view == s.view && t.lh == s.lh && t.history == s.history && t.durable == s.durable
    ensures Contents(g, x, t)
  {
    assert CommitWrites(g, s.disk, t.view, t.lh)[..0] == [];
  }

  lemma EndOps(s: Sys, t: Sys, i: nat)
    requires OpsOk(s) && i < |s.ops| && t.ops == s.ops[..i] + s.ops[i + 1..]
    requires t.history == s.history && t.durable == s.durable && t.nextId == s.nextId
    requires t.commit == s.commit || t.ops == []
    ensures OpsOk(t)
  {
    forall j | 0 <= j < |t.ops| ensures t.ops[j] == s.ops[if j < i then j else j + 1] {}
  }

  lemma EndKeeps(g: Geometry, limit: nat, x: Store, s: Sys, i: nat)
    requires Roomy(g, limit) && Inv(g, limit, x, s) && Enabled(g, limit, s, End(i))
    ensures Inv(g, limit, x, Next(g, limit, s, End(i)))
  {
    var t := Next(g, limit, s, End(i));
    ReservedKept(g, limit, s, End(i));
    EndOps(s, t, i);
    if t.commit != s.commit { EndContents(g, x, s, t); }
  }

  lemma DiskWriteContents(g: Geometry, x: Store, s: Sys, t: Sys, ws: seq<Write>)
    requires s.durable <= |s.history| && s.commit.Committing? && Contents(g, x, s)
    requires ws == CommitWrites(g, s.commit.base, s.view, s.lh)
    requires s.commit.done < |ws| && t.commit == s.commit.(done := s.commit.done + 1)
    requires t.disk == Apply(s.commit.base, ws[..s.commit.done + 1])
    requires t.durable == if s.commit.done == |s.lh| then |s.history| else s.durable
    requires t.view == s.view && t.lh == s.lh && t.history == s.history
    ensures Contents(g, x, t)
  {
  }

  lemma DiskWriteOthers(g: Geometry, s: Sys, t: Sys)
    requires LogBlocks(g, s) && OpsOk(s) && Atomic(s) && s.commit.Committing?
    requires t.durable == s.durable || t.durable == |s.history|
    requires t.lh == s.lh && t.ops == s.ops && t.history == s.history && t.nextId == s.nextId
    ensures LogBlocks(g, t) && OpsOk(t) && Atomic(t)
  {
  }

  lemma DiskWriteStep(g: Geometry, limit: nat, s: Sys)
    requires Enabled(g, limit, s, DiskWrite)
    requires s.disk == Apply(s.commit.base, CommitWrites(g, s.commit.base, s.view, s.lh)[..s.commit.done])
    ensures Next(g, limit, s, DiskWrite).disk ==
            Apply(s.commit.base, CommitWrites(g, s.commit.base, s.view, s.lh)[..s.commit.done + 1])
  {
    ApplyNext(s.commit.base, CommitWrites(g, s.commit.base, s.view, s.lh), s.commit.done);
  }

  lemma DiskWriteKeeps(g: Geometry, limit: nat, x: Store, s: Sys)
    requires Roomy(g, limit) && Inv(g, limit, x, s) && Enabled(g, limit, s, DiskWrite)
    ensures Inv(g, limit, x, Next(g, limit, s, DiskWrite))
  {
    var t := Next(g, limit, s, DiskWrite);
    DiskWriteStep(g, limit, s);
    DiskWriteOthers(g, s, t);
    DiskWriteContents(g, x, s, t, CommitWrites(g, s.commit.base, s.view, s.lh));
    assert Reserved(limit, t);
  }

  lemma FinishKeeps(g: Geometry, limit: nat, x: Store, s: Sys)
    requires Roomy(g, limit) && Inv(g, limit, x, s) && Enabled(g, limit, s, Finish)
    ensures Inv(g, limit, x, Next(g, limit, s, Finish))
  {
    ReservedKept(g, limit, s, Finish);
    var t := Next(g, limit, s, Finish);
    var (base, from, done) := (s.commit.base, s.commit.from, s.commit.done);
    ViewDiffersOnLog(g, x, s, from);
    CommitPrefix(g, base, Replay(g, x, s.history[..from]), s.view, s.lh, done);
    assert t.history[..t.durable] == s.history;
  }

  lemma CrashKeeps(g: Geometry, limit: nat, x: Store, s: Sys, stops: seq<nat>)
    requires Roomy(g, limit) && Inv(g, limit, x, s) && Enabled(g, limit, s, Crash(stops))
    ensures Inv(g, limit, x, Next(g, limit, s, Crash(stops)))
  {
    var t := Next(g, limit, s, Crash(stops));
    DiskRecovers(g, x, s);
    RecoverReaches(g, s.disk, Replay(g, x, s.history[..s.durable]), stops);
    assert t.history[..t.durable] == t.history == s.history[..s.durable];
  }

  lemma OpenKeeps(g: Geometry, limit: nat, x: Store, s: Sys, step: Step)
    requires Roomy(g, limit) && Inv(g, limit, x, s) && Enabled(g, limit, s, step)
    requires step.Begin? || step.Guard?
    ensures Inv(g, limit, x, Next(g, limit, s, step)) && !Next(g, limit, s, step).panicked
  {
    var t := Next(g, limit, s, step);
    ReservedKept(g, limit, s, step);
    if step.Guard? { RoomLeft(s, limit, step.i); }
    assert Contents(g, x, t);
  }

  lemma NextKeepsInv(g: Geometry, limit: nat, x: Store, s: Sys, step: Step)
    requires Roomy(g, limit) && Inv(g, limit, x, s) && Enabled(g, limit, s, step)
    ensures Inv(g, limit, x, Next(g, limit, s, step)) && !Next(g, limit, s, step).panicked
  {
    match step
    case Begin => OpenKeeps(g, limit, x, s, step);
    case Guard(i) => OpenKeeps(g, limit, x, s, step);
    case Append(i, b, data) => AppendKeeps(g, limit, x, s, i, b, data);
    case End(i) => EndKeeps(g, limit, x, s, i);
    case DiskWrite => DiskWriteKeeps(g, limit, x, s);
    case Finish => FinishKeeps(g, limit, x, s);
    case Crash(stops) => CrashKeeps(g, limit, x, s, stops);
  }

  // ----- whole runs

  /** The system after initlog, over a device whose home blocks hold `x`. */
  ghost predicate Start(g: Geometry, x: Store, s: Sys) {
    && Clean(g, s.disk, x) && SameHome(g, s.view, x)
    && s.lh == [] && s.ops == [] && s.commit.Idle? && s.history == [] && s.durable == 0 && !s.panicked
  }

  ghost predicate IsRun(g: Geometry, limit: nat, x: Store, states: seq<Sys>, steps: seq<Step>) {
    && |states| == |steps| + 1
    && Start(g, x, states[0])
    && (forall n :: 0 <= n < |steps| ==>
          Enabled(g, limit, states[n], steps[n]) && states[n + 1] == Next(g, limit, states[n], steps[n]))
  }

  ghost predicate Reachable(g: Geometry, limit: nat, x: Store, s: Sys) {
    exists states, steps :: IsRun(g, limit, x, states, steps) && states[|steps|] == s
  }

  lemma ReachableNext(g: Geometry, limit: nat, x: Store, s: Sys, step: Step)
    requires Reachable(g, limit, x, s) && Enabled(g, limit, s, step)
    ensures Reachable(g, limit, x, Next(g, limit, s, step))
  {
    var states, steps :| IsRun(g, limit, x, states, steps) && states[|steps|] == s;
    var states', steps' := states + [Next(g, limit, s, step)], steps + [step];
    forall n | 0 <= n < |steps'|
      ensures Enabled(g, limit, states'[n], steps'[n]) && states'[n + 1] == Next(g, limit, states'[n], steps'[n])
    {
      if n < |steps| { assert states'[n] == states[n] && states'[n + 1] == states[n + 1] && steps'[n] == steps[n]; }
    }
    assert IsRun(g, limit, x, states', steps') && states'[|steps'|] == Next(g, limit, s, step);
  }

  lemma StartInv(g: Geometry, limit: nat, x: Store, s: Sys)
    requires Start(g, x, s) && g.size > 0
    ensures Inv(g, limit, x, s)
  {
    assert s.history[..s.durable] == [];
  }

  lemma {:induction false} RunKeepsInv(g: Geometry, limit: nat, x: Store, states: seq<Sys>, steps: seq<Step>)
    requires Roomy(g, limit) && IsRun(g, limit, x, states, steps)
    ensures Inv(g, limit, x, states[|steps|]) && !states[|steps|].panicked
  {
    var n := |steps|;
    if n == 0 {
      StartInv(g, limit, x, states[0]);
    } else {
      RunKeepsInv(g, limit, x, states[..n], steps[..n - 1]);
      NextKeepsInv(g, limit, x, states[n - 1], steps[n - 1]);
    }
  }

  /** Whatever calls interleaved and wherever the machine stopped, recovery brings back exactly a
      prefix of the logged blocks in order, and no call is split by the end of that prefix. */
  lemma RecoveryIsAtomic(g: Geometry, limit: nat, x: Store, s: Sys, stops: seq<nat>)
    requires Roomy(g, limit) && Reachable(g, limit, x, s)
    ensures s.durable <= |s.history|
    ensures Clean(g, Recover(g, s.disk, stops), Replay(g, x, s.history[..s.durable]))
    ensures forall m, n :: 0 <= m < s.durable <= n < |s.history| ==> s.history[m].op != s.history[n].op
    ensures forall i, n :: 0 <= i < |s.ops| && 0 <= n < s.durable ==> s.history[n].op != s.ops[i].id
  {
    var states, steps :| IsRun(g, limit, x, states, steps) && states[|steps|] == s;
    RunKeepsInv(g, limit, x, states, steps);
    DiskRecovers(g, x, s);
    RecoverReaches(g, s.disk, Replay(g, x, s.history[..s.durable]), stops);
  }

  /** What holds whatever the size of the log area: reservation, distinct log blocks, no call open
      during commit, and nothing left in the log once there is neither. */
  predicate Orderly(limit: nat, s: Sys) {
    && Reserved(limit, s)
    && (forall i, j :: 0 <= i < j < |s.lh| ==> s.lh[i] != s.lh[j])
    && (s.commit.Committing? ==> s.ops == [])
    && (s.ops == [] && s.commit.Idle? ==> s.lh == [])
  }

  lemma NextKeepsOrder(g: Geometry, limit: nat, s: Sys, step: Step)
    requires limit <= MAXOPBLOCKS && Orderly(limit, s) && Enabled(g, limit, s, step)
    ensures Orderly(limit, Next(g, limit, s, step))
  {
    ReservedKept(g, limit, s, step);
  }

  lemma {:induction false} RunKeepsOrder(g: Geometry, limit: nat, x: Store, states: seq<Sys>, steps: seq<Step>)
    requires limit <= MAXOPBLOCKS && IsRun(g, limit, x, states, steps)
    ensures Orderly(limit, states[|steps|])
  {
    var n := |steps|;
    if n > 0 {
      RunKeepsOrder(g, limit, x, states[..n], steps[..n - 1]);
      NextKeepsOrder(g, limit, states[n - 1], steps[n - 1]);
    }
  }

  /** With up to MAXOPBLOCKS log_write calls per call, over a log area of any size, the logged
      blocks and all that open calls may still log never exceed LOGSIZE, the blocks are distinct,
      commit runs with no call open, and the last call to close leaves nothing uncommitted. */
  lemma ReservationHolds(g: Geometry, limit: nat, x: Store, s: Sys)
    requires limit <= MAXOPBLOCKS && Reachable(g, limit, x, s)
    ensures |s.lh| + TotalUnspent(s.ops) <= LOGSIZE && TotalUnspent(s.ops) >= 0
    ensures forall i, j :: 0 <= i < j < |s.lh| ==> s.lh[i] != s.lh[j]
    ensures s.commit.Committing? ==> s.ops == []
    ensures s.ops == [] && s.commit.Idle? ==> s.lh == []
  {
    var states, steps :| IsRun(g, limit, x, states, steps) && states[|steps|] == s;
    RunKeepsOrder(g, limit, x, states, steps);
    UnspentAtLeast(s.ops, limit);
  }

  /** Durability: once no call is open and no commit runs, everything logged is on the device. */
  lemma QuietIsDurable(g: Geometry, limit: nat, x: Store, s: Sys)
    requires Roomy(g, limit) && Reachable(g, limit, x, s)
    requires s.ops == [] && s.commit.Idle?
    ensures s.lh == [] && s.durable == |s.history| && Clean(g, s.disk, Replay(g, x, s.history))
  {
    ReservationHolds(g, limit, x, s);
    var states, steps :| IsRun(g, limit, x, states, steps) && states[|steps|] == s;
    RunKeepsInv(g, limit, x, states, steps);
    assert s.durable == |s.history| by { assert LogBlocks(g, s); }
    assert s.history[..s.durable] == s.history;
  }

  /** No run gets stuck: a commit can go on to its end, an open call can log what it is about to or
      close, and with neither a call can begin. */
  lemma NeverStuck(g: Geometry, limit: nat, x: Store, s: Sys)
    requires Roomy(g, limit) && Reachable(g, limit, x, s)
    ensures s.commit.Committing? ==> Enabled(g, limit, s, DiskWrite) || Enabled(g, limit, s, Finish)
    ensures forall i: nat, b: Word, data: Block :: i < |s.ops| && s.ops[i].pending && !g.InLog(g.K(b)) ==>
      Enabled(g, limit, s, Append(i, b, data))
    ensures forall i: nat :: i < |s.ops| && !s.ops[i].pending ==> Enabled(g, limit, s, End(i))
    ensures s.ops == [] && s.commit.Idle? ==> Enabled(g, limit, s, Begin)
  {
    ReservationHolds(g, limit, x, s);
    var states, steps :| IsRun(g, limit, x, states, steps) && states[|steps|] == s;
    RunKeepsInv(g, limit, x, states, steps);
    if s.commit.Committing? { CommitProceeds(g, limit, x, s); }
  }

  lemma CommitProceeds(g: Geometry, limit: nat, x: Store, s: Sys)
    requires Inv(g, limit, x, s) && !s.panicked && s.commit.Committing?
    ensures Enabled(g, limit, s, DiskWrite) || Enabled(g, limit, s, Finish)
  {
    assert Contents(g, x, s);
  }

  /** Some run ends in the "too big a transaction" panic. */
  ghost predicate MayPanic(g: Geometry, limit: nat) {
    exists x, s :: Reachable(g, limit, x, s) && s.panicked
  }

  /** Some run logs more blocks than the log area has beside its header. */
  ghost predicate MayOverflow(g: Geometry, limit: nat) {
    exists x, s :: Reachable(g, limit, x, s) && !s.panicked && |s.lh| >= g.size
  }

  /** The panic and the overflow are reachable exactly when calls may use their whole reservation
      and the log area is as large as LOGSIZE, header included. */
  lemma PanicExactly(g: Geometry, limit: nat)
    requires limit <= MAXOPBLOCKS && LOGSIZE <= g.size
    ensures MayPanic(g, limit) <==> limit == MAXOPBLOCKS && g.size == LOGSIZE
    ensures MayOverflow(g, limit) <==> limit == MAXOPBLOCKS && g.size == LOGSIZE
  {
    if limit == MAXOPBLOCKS && g.size == LOGSIZE {
      var x, s := TenWritesPanic(g);
      x, s := TenWritesOverflow(g);
    } else {
      forall x, s | Reachable(g, limit, x, s) ensures !s.panicked && |s.lh| < g.size {
        var states, steps :| IsRun(g, limit, x, states, steps) && states[|steps|] == s;
        RunKeepsInv(g, limit, x, states, steps);
      }
    }
  }

  // ----- ten calls are too many

  /** Block `k` of those after the log area, or of the first ones where it is near the end. */
  function Outside(g: Geometry, k: nat): (b: Word)
    requires g.size == LOGSIZE && k < LOGSIZE
    ensures !g.InLog(g.K(b))
  {
    if g.start < 1000 then g.start + g.size + k else k
  }

  /** The log holds the first blocks outside. */
  predicate Packed(g: Geometry, s: Sys)
    requires g.size == LOGSIZE
  {
    |s.lh| <= LOGSIZE && forall i :: 0 <= i < |s.lh| ==> s.lh[i] == Outside(g, i)
  }

  /** Call `i` logs `m` fresh blocks. */
  lemma {:induction false} LogFresh(g: Geometry, x: Store, s: Sys, i: nat, m: nat) returns (t: Sys)
    requires Reachable(g, 10, x, s) && !s.panicked && g.size == LOGSIZE
    requires i < |s.ops| && !s.ops[i].pending && s.ops[i].writes + m <= 10
    requires Packed(g, s) && |s.lh| + m < LOGSIZE
    ensures Reachable(g, 10, x, t) && !t.panicked && Packed(g, t) && |t.lh| == |s.lh| + m
    ensures t.ops == s.ops[i := s.ops[i].(writes := s.ops[i].writes + m)] && t.commit == s.commit
    decreases m
  {
    t := s;
    if m > 0 {
      ReachableNext(g, 10, x, s, Guard(i));
      var s1 := Next(g, 10, s, Guard(i));
      t := AppendFresh(g, x, s1, i);
      t := LogFresh(g, x, t, i, m - 1);
    }
  }

  lemma AppendFresh(g: Geometry, x: Store, s: Sys, i: nat) returns (t: Sys)
    requires Reachable(g, 10, x, s) && !s.panicked && g.size == LOGSIZE
    requires i < |s.ops| && s.ops[i].pending && Packed(g, s) && |s.lh| < LOGSIZE
    ensures Reachable(g, 10, x, t) && !t.panicked && Packed(g, t) && |t.lh| == |s.lh| + 1
    ensures t.ops == s.ops[i := s.ops[i].(pending := false)] && t.commit == s.commit
  {
    var step := Append(i, Outside(g, |s.lh|), ZeroBlock());
    ReachableNext(g, 10, x, s, step);
    t := Next(g, 10, s, step);
  }

  lemma ThreeOpen(g: Geometry) returns (x: Store, s: Sys)
    ensures Reachable(g, 10, x, s) && !s.panicked && s.lh == [] && s.commit.Idle?
    ensures s.ops == [Op(0, 0, false), Op(1, 0, false), Op(2, 0, false)]
  {
    x := map[];
    var s0 := Sys(x, x, [], [], Idle, 0, [], 0, false);
    assert Start(g, x, s0) by { ZeroWord(0); }
    assert IsRun(g, 10, x, [s0], []);
    ReachableNext(g, 10, x, s0, Begin);
    var s1 := Next(g, 10, s0, Begin);
    ReachableNext(g, 10, x, s1, Begin);
    var s2 := Next(g, 10, s1, Begin);
    ReachableNext(g, 10, x, s2, Begin);
    s := Next(g, 10, s2, Begin);
  }

  /** Three open calls that have logged ten, nine and nine blocks. */
  lemma NearlyFull(g: Geometry) returns (x: Store, s: Sys)
    requires g.size == LOGSIZE
    ensures Reachable(g, 10, x, s) && !s.panicked && Packed(g, s) && |s.lh| == 28
    ensures s.ops == [Op(0, 10, false), Op(1, 9, false), Op(2, 9, false)]
  {
    x, s := ThreeOpen(g);
    s := LogFresh(g, x, s, 0, 10);
    s := LogFresh(g, x, s, 1, 9);
    s := LogFresh(g, x, s, 2, 9);
  }

  /** With ten log_write calls per call, as MAXOPBLOCKS admits, the panic is reachable. */
  lemma TenWritesPanic(g: Geometry) returns (x: Store, s: Sys)
    requires g.size == LOGSIZE
    ensures Reachable(g, 10, x, s) && s.panicked
  {
    x, s := NearlyFull(g);
    s := LogFresh(g, x, s, 1, 1);
    ReachableNext(g, 10, x, s, Guard(2));
    s := Next(g, 10, s, Guard(2));
  }

  /** ... and two calls past the unlocked guard together fill one block more than the device has. */
  lemma TenWritesOverflow(g: Geometry) returns (x: Store, s: Sys)
    requires g.size == LOGSIZE
    ensures Reachable(g, 10, x, s) && !s.panicked && |s.lh| >= g.size && !g.InLog(g.Slot(|s.lh| - 1))
  {
    x, s := NearlyFull(g);
    ReachableNext(g, 10, x, s, Guard(1));
    s := Next(g, 10, s, Guard(1));
    ReachableNext(g, 10, x, s, Guard(2));
    s := Next(g, 10, s, Guard(2));
    s := AppendFresh(g, x, s, 1);
    s := AppendFresh(g, x, s, 2);
  }
}
