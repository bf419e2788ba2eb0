/** The redo log of the native file system (kernel/fs/native_log.c): its on-disk protocol.

    A transaction is copied to the log, committed by one write of the header block, installed
    at its home locations and erased by another header write. Each block write is atomic; the
    machine may stop between any two of them, also while recovering.
 */
module NativeLog {
  import opened Blocks
  import opened BufCache

  const MAXOPBLOCKS: nat := 10
  const LOGSIZE: nat := 30

  /** log.dev, log.start, log.size */
  datatype Geometry = Geometry(dev: nat, start: nat, size: nat) {
    function K(b: nat): Key { Key(dev, b) }

    /** Log block `t`; the header is block `start`. */
    function Slot(t: nat): Key { Key(dev, start + 1 + t) }

    predicate InLog(k: Key) { k.dev == dev && start <= k.id < start + size }
  }

  datatype Write = Write(key: Key, data: Block)

  /** The device after the writes `ws`. */
  function Apply(d: Store, ws: seq<Write>): Store {
    if ws == [] then d
    else
      var w := ws[|ws| - 1];
      Apply(d, ws[..|ws| - 1])[w.key := w.data]
  }

  // ----- the header block: a count, then block numbers

  function PutEntries(h: Block, lh: seq<Word>): Block
    requires |lh| <= LOGSIZE
  {
    if lh == [] then h else SetWord(PutEntries(h, lh[..|lh| - 1]), |lh|, lh[|lh| - 1])
  }

  /** write_head: entries past the count keep what the block held. */
  function PutHead(h: Block, lh: seq<Word>): Block
    requires |lh| <= LOGSIZE
  {
    PutEntries(SetWord(h, 0, |lh|), lh)
  }

  function HeadCount(h: Block): Word { GetWord(h, 0) }

  /** read_head */
  function HeadBlocks(h: Block): (lh: seq<Word>)
    requires HeadCount(h) <= LOGSIZE
    ensures |lh| == HeadCount(h)
  {
    seq(HeadCount(h), i requires 0 <= i < HeadCount(h) => GetWord(h, i + 1))
  }

  lemma {:induction false} EntryAt(h: Block, lh: seq<Word>, i: nat)
    requires |lh| <= LOGSIZE && i <= LOGSIZE
    ensures GetWord(PutEntries(h, lh), i) == if 1 <= i <= |lh| then lh[i - 1] else GetWord(h, i)
  {
    if lh != [] {
      var n := |lh|;
      EntryAt(h, lh[..n - 1], i);
      GetSetWord(PutEntries(h, lh[..n - 1]), n, lh[n - 1], i);
    }
  }

  lemma HeadRoundTrip(h: Block, lh: seq<Word>)
    requires |lh| <= LOGSIZE
    ensures HeadCount(PutHead(h, lh)) == |lh| && HeadBlocks(PutHead(h, lh)) == lh
  {
    var h' := PutHead(h, lh);
    EntryAt(SetWord(h, 0, |lh|), lh, 0);
    GetSetWord(h, 0, |lh|, 0);
    forall i | 0 <= i < |lh| ensures GetWord(h', i + 1) == lh[i] {
      EntryAt(SetWord(h, 0, |lh|), lh, i + 1);
    }
  }

  // ----- what commit and recovery write

  /** Blocks a transaction may name: distinct, outside the log, no more than the log holds. */
  predicate TxOk(g: Geometry, lh: seq<Word>) {
    && |lh| <= LOGSIZE && |lh| < g.size
    && (forall i, j :: 0 <= i < j < |lh| ==> lh[i] != lh[j])
    && (forall i :: 0 <= i < |lh| ==> !g.InLog(g.K(lh[i])))
  }

  /** write_log: cached blocks to log blocks. */
  function LogWrites(g: Geometry, view: Store, lh: seq<Word>): (ws: seq<Write>)
    ensures |ws| == |lh|
  {
    seq(|lh|, t requires 0 <= t < |lh| => Write(g.Slot(t), At(view, g.K(lh[t]))))
  }

  /** install_trans: log blocks to home blocks. */
  function InstallWrites(g: Geometry, d: Store, lh: seq<Word>): (ws: seq<Write>)
    ensures |ws| == |lh|
  {
    seq(|lh|, t requires 0 <= t < |lh| => Write(g.K(lh[t]), At(d, g.Slot(t))))
  }

  function HeadWrite(g: Geometry, d: Store, lh: seq<Word>): Write
    requires |lh| <= LOGSIZE
  {
    Write(g.K(g.start), PutHead(At(d, g.K(g.start)), lh))
  }

  /** install_trans, then the header write that erases the transaction. */
  function InstallAndErase(g: Geometry, d: Store, lh: seq<Word>): (ws: seq<Write>)
    ensures |ws| == |lh| + 1
  {
    InstallWrites(g, d, lh) + [HeadWrite(g, d, [])]
  }

  /** The device when the header write of `commit` has been done. */
  function AfterHead(g: Geometry, d: Store, view: Store, lh: seq<Word>): Store
    requires |lh| <= LOGSIZE
  {
    var d1 := Apply(d, LogWrites(g, view, lh));
    var w := HeadWrite(g, d1, lh);
    d1[w.key := w.data]
  }

  /** commit */
  function CommitWrites(g: Geometry, d: Store, view: Store, lh: seq<Word>): (ws: seq<Write>)
    requires |lh| <= LOGSIZE
    ensures |ws| == if lh == [] then 0 else 2 * |lh| + 2
  {
    if lh == [] then []
    else
      var d1 := Apply(d, LogWrites(g, view, lh));
      LogWrites(g, view, lh) + [HeadWrite(g, d1, lh)] + InstallAndErase(g, AfterHead(g, d, view, lh), lh)
  }

  /** recover_from_log */
  function RecoveryWrites(g: Geometry, d: Store): (ws: seq<Write>)
    requires HeadCount(At(d, g.K(g.start))) <= LOGSIZE
  {
    InstallAndErase(g, d, HeadBlocks(At(d, g.K(g.start))))
  }

  // ----- the states a crash can leave

  ghost predicate SameHome(g: Geometry, d: Store, x: Store) {
    forall k {:trigger At(d, k)} {:trigger At(x, k)} :: !g.InLog(k) ==> At(d, k) == At(x, k)
  }

  /** The log is empty and the home blocks hold `x`. */
  ghost predicate Clean(g: Geometry, d: Store, x: Store) {
    HeadCount(At(d, g.K(g.start))) == 0 && SameHome(g, d, x)
  }

  /** The log holds a committed transaction; with it installed the home blocks hold `x`. */
  ghost predicate Logged(g: Geometry, d: Store, x: Store, lh: seq<Word>) {
    && lh != [] && TxOk(g, lh)
    && HeadCount(At(d, g.K(g.start))) == |lh| && HeadBlocks(At(d, g.K(g.start))) == lh
    && (forall t :: 0 <= t < |lh| ==> At(d, g.Slot(t)) == At(x, g.K(lh[t])))
    && OtherHome(g, d, x, lh)
  }

  ghost predicate OtherHome(g: Geometry, d: Store, x: Store, lh: seq<Word>) {
    forall k {:trigger At(d, k)} {:trigger At(x, k)} :: !g.InLog(k) && (k.dev == g.dev ==> k.id !in lh) ==>
      At(d, k) == At(x, k)
  }

  lemma {:induction false} ApplyElsewhere(d: Store, ws: seq<Write>, k: Key)
    requires forall i :: 0 <= i < |ws| ==> ws[i].key != k
    ensures At(Apply(d, ws), k) == At(d, k)
  {
    if ws != [] { ApplyElsewhere(d, ws[..|ws| - 1], k); }
  }

  lemma {:induction false} ApplyDistinct(d: Store, ws: seq<Write>, i: nat)
    requires i < |ws| && forall j :: i < j < |ws| ==> ws[j].key != ws[i].key
    ensures At(Apply(d, ws), ws[i].key) == ws[i].data
  {
    if i < |ws| - 1 { ApplyDistinct(d, ws[..|ws| - 1], i); }
  }

  lemma {:induction false} ApplyConcat(d: Store, ws: seq<Write>, vs: seq<Write>)
    ensures Apply(d, ws + vs) == Apply(Apply(d, ws), vs)
  {
    if vs == [] {
      assert ws + vs == ws;
    } else {
      var n := |vs| - 1;
      ApplyConcat(d, ws, vs[..n]);
      assert (ws + vs)[..|ws + vs| - 1] == ws + vs[..n];
    }
  }

  /** Any prefix of the log writes leaves header and home blocks alone. */
  lemma LogPrefix(g: Geometry, d: Store, view: Store, lh: seq<Word>, x: Store, k: nat)
    requires TxOk(g, lh) && Clean(g, d, x) && k <= |lh|
    ensures Clean(g, Apply(d, LogWrites(g, view, lh)[..k]), x)
  {
    var ws := LogWrites(g, view, lh)[..k];
    forall b | !g.InLog(b) || b == g.K(g.start) ensures At(Apply(d, ws), b) == At(d, b) {
      ApplyElsewhere(d, ws, b);
    }
  }

  /** The header write commits: the log then holds the transaction. */
  lemma HeadCommits(g: Geometry, d: Store, view: Store, lh: seq<Word>)
    requires TxOk(g, lh) && lh != [] && OtherHome(g, d, view, lh)
    ensures Logged(g, AfterHead(g, d, view, lh), view, lh)
  {
    var ws := LogWrites(g, view, lh);
    var d1, d2 := Apply(d, ws), AfterHead(g, d, view, lh);
    HeadRoundTrip(At(d1, g.K(g.start)), lh);
    forall t | 0 <= t < |lh| ensures At(d2, g.Slot(t)) == At(view, g.K(lh[t])) {
      ApplyDistinct(d, ws, t);
      assert ws[t] == Write(g.Slot(t), At(view, g.K(lh[t])));
    }
    forall b | !g.InLog(b) && (b.dev == g.dev ==> b.id !in lh) ensures At(d2, b) == At(view, b) {
      ApplyElsewhere(d, ws, b);
    }
  }

  /** Installing any prefix of a committed transaction keeps it committed. */
  lemma InstallPrefix(g: Geometry, d: Store, x: Store, lh: seq<Word>, k: nat)
    requires Logged(g, d, x, lh) && k <= |lh|
    ensures var d' := Apply(d, InstallWrites(g, d, lh)[..k]);
            Logged(g, d', x, lh) && forall t :: 0 <= t < k ==> At(d', g.K(lh[t])) == At(x, g.K(lh[t]))
  {
    var ws := InstallWrites(g, d, lh)[..k];
    var d' := Apply(d, ws);
    forall b | g.InLog(b) || (b.dev == g.dev ==> b.id !in lh) ensures At(d', b) == At(d, b) {
      ApplyElsewhere(d, ws, b);
    }
    forall t | 0 <= t < |lh| ensures At(d', g.Slot(t)) == At(d, g.Slot(t)) { assert g.InLog(g.Slot(t)); }
    forall t | 0 <= t < k ensures At(d', g.K(lh[t])) == At(x, g.K(lh[t])) {
      ApplyDistinct(d, ws, t);
      assert ws[t] == Write(g.K(lh[t]), At(d, g.Slot(t)));
    }
  }

  /** After the last install the header write erases the transaction. */
  lemma EraseFinishes(g: Geometry, d: Store, x: Store, lh: seq<Word>)
    requires Logged(g, d, x, lh)
    ensures Clean(g, Apply(d, InstallAndErase(g, d, lh)), x)
  {
    var ws := InstallWrites(g, d, lh);
    assert ws[..|lh|] == ws;
    InstallPrefix(g, d, x, lh, |lh|);
    var d1 := Apply(d, ws);
    var all := InstallAndErase(g, d, lh);
    assert all[..|all| - 1] == ws;
    HeadRoundTrip(At(d, g.K(g.start)), []);
    forall b | !g.InLog(b) ensures At(Apply(d, all), b) == At(x, b) {
      if b.dev == g.dev && b.id in lh {
        var t :| 0 <= t < |lh| && lh[t] == b.id;
        assert b == g.K(lh[t]);
      }
    }
  }

  /** Where each prefix of `InstallAndErase` leaves a committed transaction. */
  lemma InstallAndErasePrefix(g: Geometry, d: Store, x: Store, lh: seq<Word>, k: nat)
    requires Logged(g, d, x, lh) && k <= |lh| + 1
    ensures var d' := Apply(d, InstallAndErase(g, d, lh)[..k]); Logged(g, d', x, lh) || Clean(g, d', x)
    ensures k == |lh| + 1 ==> Clean(g, Apply(d, InstallAndErase(g, d, lh)[..k]), x)
  {
    var all := InstallAndErase(g, d, lh);
    if k <= |lh| {
      assert all[..k] == InstallWrites(g, d, lh)[..k];
      InstallPrefix(g, d, x, lh, k);
    } else {
      assert all[..k] == all;
      EraseFinishes(g, d, x, lh);
    }
  }

  // ----- recovery

  /** A state from which recovery yields `x`. */
  ghost predicate Recovers(g: Geometry, d: Store, x: Store) {
    Clean(g, d, x) || exists lh :: Logged(g, d, x, lh)
  }

  lemma CleanRecovery(g: Geometry, d: Store, x: Store, k: nat)
    requires g.size > 0 && Clean(g, d, x) && k <= |RecoveryWrites(g, d)|
    ensures Clean(g, Apply(d, RecoveryWrites(g, d)[..k]), x)
  {
    var ws := RecoveryWrites(g, d);
    assert HeadBlocks(At(d, g.K(g.start))) == [];
    assert ws == [HeadWrite(g, d, [])];
    if k == 1 {
      HeadRoundTrip(At(d, g.K(g.start)), []);
      assert ws[..k] == ws && ws[..0] == [];
    }
  }

  lemma RecoveryPrefix(g: Geometry, d: Store, x: Store, k: nat)
    requires g.size > 0 && Recovers(g, d, x)
    requires HeadCount(At(d, g.K(g.start))) <= LOGSIZE && k <= |RecoveryWrites(g, d)|
    ensures Recovers(g, Apply(d, RecoveryWrites(g, d)[..k]), x)
    ensures k == |RecoveryWrites(g, d)| ==> Clean(g, Apply(d, RecoveryWrites(g, d)[..k]), x)
  {
    if Clean(g, d, x) {
      CleanRecovery(g, d, x, k);
    } else {
      var lh :| Logged(g, d, x, lh);
      InstallAndErasePrefix(g, d, x, lh, k);
    }
  }

  /** Recovery started at `d`, stopped after the given number of writes each time, and finally
      run to its end. */
  ghost function Recover(g: Geometry, d: Store, crashes: seq<nat>): Store
    decreases |crashes|
  {
    if HeadCount(At(d, g.K(g.start))) > LOGSIZE then d
    else
      var ws := RecoveryWrites(g, d);
      if crashes == [] then Apply(d, ws)
      else Recover(g, Apply(d, ws[..if crashes[0] <= |ws| then crashes[0] else |ws|]), crashes[1..])
  }

  lemma {:induction false} RecoverReaches(g: Geometry, d: Store, x: Store, crashes: seq<nat>)
    requires g.size > 0 && Recovers(g, d, x)
    ensures Clean(g, Recover(g, d, crashes), x)
    decreases |crashes|
  {
    var ws := RecoveryWrites(g, d);
    if crashes == [] {
      RecoveryPrefix(g, d, x, |ws|);
      assert ws[..|ws|] == ws;
    } else {
      var k := if crashes[0] <= |ws| then crashes[0] else |ws|;
      RecoveryPrefix(g, d, x, k);
      RecoverReaches(g, Apply(d, ws[..k]), x, crashes[1..]);
    }
  }

  lemma ApplyNext(d: Store, ws: seq<Write>, k: nat)
    requires k < |ws|
    ensures Apply(d, ws[..k + 1]) == Apply(d, ws[..k])[ws[k].key := ws[k].data]
  {
    assert ws[..k + 1][..k] == ws[..k];
  }

  /** The writes of commit after the header write are those of recovery. */
  lemma CommitTail(g: Geometry, d: Store, view: Store, lh: seq<Word>, k: nat)
    requires |lh| <= LOGSIZE && lh != [] && |lh| < k <= |CommitWrites(g, d, view, lh)|
    ensures var d2 := AfterHead(g, d, view, lh);
            Apply(d, CommitWrites(g, d, view, lh)[..k]) == Apply(d2, InstallAndErase(g, d2, lh)[..k - |lh| - 1])
  {
    var n, logged, d2 := |lh|, LogWrites(g, view, lh), AfterHead(g, d, view, lh);
    var head := logged + [HeadWrite(g, Apply(d, logged), lh)];
    assert head[..n + 1] == head && head[..n] == logged;
    ApplyNext(d, head, n);
    var rest := InstallAndErase(g, d2, lh);
    assert CommitWrites(g, d, view, lh)[..k] == head + rest[..k - n - 1];
    ApplyConcat(d, head, rest[..k - n - 1]);
  }

  /** Where a crash after `k` writes of commit leaves the device. */
  lemma CommitPrefix(g: Geometry, d: Store, x: Store, view: Store, lh: seq<Word>, k: nat)
    requires TxOk(g, lh) && Clean(g, d, x) && OtherHome(g, x, view, lh)
    requires k <= |CommitWrites(g, d, view, lh)|
    ensures k <= |lh| ==> Clean(g, Apply(d, CommitWrites(g, d, view, lh)[..k]), x)
    ensures k > |lh| ==> Recovers(g, Apply(d, CommitWrites(g, d, view, lh)[..k]), view)
    ensures k == |CommitWrites(g, d, view, lh)| ==> Clean(g, Apply(d, CommitWrites(g, d, view, lh)[..k]), view)
  {
    if lh == [] { return; }
    if k <= |lh| {
      assert CommitWrites(g, d, view, lh)[..k] == LogWrites(g, view, lh)[..k];
      LogPrefix(g, d, view, lh, x, k);
    } else {
      assert OtherHome(g, d, view, lh);
      HeadCommits(g, d, view, lh);
      CommitTail(g, d, view, lh, k);
      InstallAndErasePrefix(g, AfterHead(g, d, view, lh), view, lh, k - |lh| - 1);
    }
  }

  /** Crash atomicity: stop commit after any number of writes, stop recovery any number of times;
      the home blocks end up all as before the transaction, or all as after it, and which of the
      two depends only on whether the header write was done. */
  lemma CrashAtomicity(g: Geometry, d: Store, view: Store, lh: seq<Word>, k: nat, crashes: seq<nat>)
    requires TxOk(g, lh) && HeadCount(At(d, g.K(g.start))) == 0 && OtherHome(g, d, view, lh)
    requires k <= |CommitWrites(g, d, view, lh)|
    ensures var r := Recover(g, Apply(d, CommitWrites(g, d, view, lh)[..k]), crashes);
            Clean(g, r, if k <= |lh| then d else view)
  {
    CommitPrefix(g, d, d, view, lh, k);
    RecoverReaches(g, Apply(d, CommitWrites(g, d, view, lh)[..k]), if k <= |lh| then d else view, crashes);
  }
}
