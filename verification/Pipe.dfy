/** Pipes (kernel/pipe.c:10-106): a ring of 512 bytes between two counters of 32 bits.

    One byte put in or taken out is a step, whoever does it; waking up is not modelled.
 */
module Pipe {

  import opened Blocks

  type U32 = x: int | 0 <= x < 0x1_0000_0000

  datatype State = State(data: seq<Byte>, nread: U32, nwrite: U32)

  predicate Full(s: State) { s.nwrite == (s.nread + 512) % 0x1_0000_0000 }
  predicate Empty(s: State) { s.nread == s.nwrite }

  function Put(s: State, b: Byte): State
    requires |s.data| == 512
  {
    s.(data := s.data[s.nwrite % 512 := b], nwrite := (s.nwrite + 1) % 0x1_0000_0000)
  }

  function First(s: State): Byte
    requires |s.data| == 512
  {
    s.data[s.nread % 512]
  }

  function Drop(s: State): State { s.(nread := (s.nread + 1) % 0x1_0000_0000) }

  /** After `w` was written and `r` read: what was read is what was written first, and the ring
      holds the rest. */
  ghost predicate Holds(s: State, w: seq<Byte>, r: seq<Byte>) {
    && |s.data| == 512 && r <= w && |w| - |r| <= 512
    && s.nread == |r| % 0x1_0000_0000 && s.nwrite == |w| % 0x1_0000_0000
    && (forall k :: |r| <= k < |w| ==> s.data[k % 512] == w[k])
  }

  /** The counters tell a full ring from an empty one, also after they wrapped around. */
  lemma CountersTell(s: State, w: seq<Byte>, r: seq<Byte>)
    requires Holds(s, w, r)
    ensures Full(s) <==> |w| - |r| == 512
    ensures Empty(s) <==> |w| == |r|
    ensures (s.nwrite - s.nread) % 0x1_0000_0000 == |w| - |r|
  {
    Wrapped(|w|, |r|, |w| - |r|);
  }

  lemma Wrapped(w: nat, r: nat, d: nat)
    requires w - r == d <= 512
    ensures (w % 0x1_0000_0000 - r % 0x1_0000_0000) % 0x1_0000_0000 == d
    ensures w % 0x1_0000_0000 == (r % 0x1_0000_0000 + 512) % 0x1_0000_0000 <==> d == 512
    ensures w % 0x1_0000_0000 == r % 0x1_0000_0000 <==> d == 0
  {
    var m := r % 0x1_0000_0000;
    assert w % 0x1_0000_0000 == (m + d) % 0x1_0000_0000;
  }

  lemma RingIndex(n: nat)
    ensures n % 0x1_0000_0000 % 512 == n % 512
  {
    assert n == n / 0x1_0000_0000 * 0x1_0000_0000 + n % 0x1_0000_0000;
  }

  lemma NextCount(n: nat)
    ensures (n % 0x1_0000_0000 + 1) % 0x1_0000_0000 == (n + 1) % 0x1_0000_0000
  {
  }

  lemma {:induction false} PutHolds(s: State, w: seq<Byte>, r: seq<Byte>, b: Byte)
    requires Holds(s, w, r) && !Full(s)
    ensures Holds(Put(s, b), w + [b], r)
  {
    CountersTell(s, w, r);
    RingIndex(|w|);
    NextCount(|w|);
    var s' := Put(s, b);
    assert s'.data == s.data[|w| % 512 := b];
    forall k | |r| <= k < |w| + 1 ensures s'.data[k % 512] == (w + [b])[k] {
      if k < |w| { Apart(k, |w|); }
    }
  }

  lemma Apart(k: nat, n: nat)
    requires k < n < k + 512
    ensures k % 512 != n % 512
  {
  }

  lemma DropHolds(s: State, w: seq<Byte>, r: seq<Byte>)
    requires Holds(s, w, r) && !Empty(s)
    ensures Holds(Drop(s), w, r + [First(s)])
  {
    CountersTell(s, w, r);
    RingIndex(|r|);
    NextCount(|r|);
    assert First(s) == w[|r|];
    assert r + [First(s)] == w[..|r| + 1];
  }

  // ----- all interleavings

  /** A byte written, or a byte read. */
  datatype Event = Wrote(b: Byte) | Got(b: Byte)

  ghost predicate Step(s: State, e: Event, s': State) {
    && |s.data| == 512
    && match e
       case Wrote(b) => !Full(s) && s' == Put(s, b)
       case Got(b) => !Empty(s) && b == First(s) && s' == Drop(s)
  }

  ghost predicate Run(s: seq<State>, es: seq<Event>) {
    |s| == |es| + 1 && forall k :: 0 <= k < |es| ==> Step(s[k], es[k], s[k + 1])
  }

  function Written(es: seq<Event>): seq<Byte> {
    if es == [] then [] else
      Written(es[..|es| - 1]) + if es[|es| - 1].Wrote? then [es[|es| - 1].b] else []
  }

  function Gotten(es: seq<Event>): seq<Byte> {
    if es == [] then [] else
      Gotten(es[..|es| - 1]) + if es[|es| - 1].Got? then [es[|es| - 1].b] else []
  }

  predicate Fresh(s: State) { |s.data| == 512 && s.nread == 0 && s.nwrite == 0 }

  /** Whatever readers and writers do, what comes out is what went in, in that order, and at
      most 512 bytes are on the way. */
  lemma {:induction false} FirstInFirstOut(s: seq<State>, es: seq<Event>)
    requires Run(s, es) && Fresh(s[0])
    ensures Holds(s[|es|], Written(es), Gotten(es))
    ensures Gotten(es) <= Written(es) && (s[|es|].nwrite - s[|es|].nread) % 0x1_0000_0000 <= 512
    decreases |es|
  {
    if es != [] {
      var n := |es| - 1;
      var s0, es0 := s[..n + 1], es[..n];
      forall k | 0 <= k < |es0| ensures Step(s0[k], es0[k], s0[k + 1]) { assert Step(s[k], es[k], s[k + 1]); }
      FirstInFirstOut(s0, es0);
      assert s0[n] == s[n] && Step(s[n], es[n], s[n + 1]);
      if es[n].Wrote? {
        PutHolds(s[n], Written(es0), Gotten(es0), es[n].b);
      } else {
        DropHolds(s[n], Written(es0), Gotten(es0));
      }
      assert Gotten(es) == Gotten(es0) + (if es[n].Got? then [es[n].b] else []);
      assert Written(es) == Written(es0) + (if es[n].Wrote? then [es[n].b] else []);
    }
    CountersTell(s[|es|], Written(es), Gotten(es));
  }

  // ----- the kernel's loops

  /** How pipewrite left the lock: done, given up, or asleep with bytes still to write. */
  datatype WriteResult = Done | GaveUp | Asleep

  class Buffer {
    const data: array<Byte>
    var nread: U32
    var nwrite: U32
    ghost var written: seq<Byte>
    ghost var gotten: seq<Byte>

    constructor ()
      ensures Valid() && fresh(data) && written == [] && gotten == []
    {
      data := new Byte[512](i => 0);
      nread, nwrite := 0, 0;
      written, gotten := [], [];
    }

    ghost function Value(): State
      reads this, data
    {
      State(data[..], nread, nwrite)
    }

    ghost predicate Valid()
      reads this, data
    {
      data.Length == 512 && Holds(Value(), written, gotten)
    }

    /** pipewrite from byte `from` on, until it is done or has to wait. `open` says whether a
        reader is left and the writer was not killed. */
    method Write(addr: seq<Byte>, from: nat, open: bool) returns (r: WriteResult, i: nat)
      requires Valid() && from <= |addr|
      modifies this, data
      ensures Valid() && gotten == old(gotten)
      ensures from <= i <= |addr| && written == old(written) + addr[from..i]
      ensures r.Done? <==> i == |addr|
      ensures !r.Done? ==> |written| - |gotten| == 512 && (r.GaveUp? <==> !open)
    {
      i := from;
      while i < |addr|
        invariant from <= i <= |addr| && Valid() && gotten == old(gotten)
        invariant written == old(written) + addr[from..i]
      {
        CountersTell(Value(), written, gotten);
        if nwrite == (nread + 512) % 0x1_0000_0000 {
          return (if open then Asleep else GaveUp), i;
        }
        PutHolds(Value(), written, gotten, addr[i]);
        data[nwrite % 512] := addr[i];
        nwrite := (nwrite + 1) % 0x1_0000_0000;
        written := written + [addr[i]];
        i := i + 1;
      }
      return Done, i;
    }

    /** piperead of at most `n` bytes, once it does not have to wait. */
    method Read(n: nat) returns (out: seq<Byte>)
      requires Valid()
      modifies this
      ensures Valid() && written == old(written) && gotten == old(gotten) + out
      ensures |out| == if n <= |written| - |old(gotten)| then n else |written| - |old(gotten)|
    {
      out := [];
      while |out| < n
        invariant |out| <= n && Valid() && written == old(written) && gotten == old(gotten) + out
      {
        CountersTell(Value(), written, gotten);
        if nread == nwrite { break; }
        DropHolds(Value(), written, gotten);
        var b := data[nread % 512];
        nread := (nread + 1) % 0x1_0000_0000;
        out := out + [b];
        gotten := gotten + [b];
      }
      CountersTell(Value(), written, gotten);
    }
  }
}
