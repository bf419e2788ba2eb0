/** Control groups (kernel/cgroup.c): a tree kept in a table of 64 slots, with counters for the
    groups and processes below each group, and controllers a child has only if its parent
    enables them.

    Paths are formatted; memory amounts are not modelled, so the two tests on them are
    parameters of Insert and Enable.
 */
module Cgroup {

  import opened Wrappers

  datatype Controller = Cpu | Pid | CpuSet | Mem

  datatype Group = Group(
    path: string,               // empty once deleted
    refs: nat,                  // open files
    procs: seq<Option<nat>>,
    count: int,                 // num_of_procs
    populated: bool,
    parent: Option<nat>,
    depth: nat,
    maxDesc: nat,
    maxDepth: nat,
    desc: int,                  // nr_descendants
    avail: set<Controller>,
    enabled: set<Controller>,
    maxProcs: int)

  type Groups = seq<Group>

  /** The table and the `cgroup` field of every process. */
  datatype Table = Table(g: Groups, at: map<nat, nat>)

  // ----- the tree

  /** Slot 0 is the root, whether or not it is mounted. */
  predicate Live(g: Groups, i: nat) {
    i < |g| && (i == 0 || g[i].path != "")
  }

  predicate ParentOk(g: Groups, i: nat) {
    && 0 < i < |g| && g[i].parent.Some? && Live(g, g[i].parent.value)
    && g[i].depth == g[g[i].parent.value].depth + 1
  }

  ghost predicate Tree(g: Groups) {
    && |g| == 64 && g[0].parent.None? && g[0].depth == 0
    && (forall i {:trigger ParentOk(g, i)} :: 0 < i < 64 && Live(g, i) ==> ParentOk(g, i))
  }

  /** Slot `i` and what `n` steps along the parent pointers reach. */
  ghost function Chain(g: Groups, i: nat, n: nat): set<nat>
    decreases n
  {
    {i} + if n == 0 || i >= |g| || g[i].parent.None? then {} else Chain(g, g[i].parent.value, n - 1)
  }

  /** A group and its ancestors. */
  ghost function Ancestors(g: Groups, i: nat): set<nat>
    requires i < |g|
  {
    Chain(g, i, g[i].depth)
  }

  lemma AncestorsStep(g: Groups, i: nat)
    requires Tree(g) && Live(g, i)
    ensures i == 0 ==> Ancestors(g, i) == {0}
    ensures i > 0 ==> ParentOk(g, i) && Ancestors(g, i) == {i} + Ancestors(g, g[i].parent.value)
  {
  }

  /** Ancestors are live and less deep, and the last one is the root. */
  lemma {:induction false} AncestorsLive(g: Groups, i: nat)
    requires Tree(g) && Live(g, i)
    ensures 0 in Ancestors(g, i) && i in Ancestors(g, i)
    ensures forall a :: a in Ancestors(g, i) ==>
      Live(g, a) && g[a].depth <= g[i].depth && (a != i ==> g[a].depth < g[i].depth)
    ensures |Ancestors(g, i)| == g[i].depth + 1
    decreases g[i].depth
  {
    AncestorsStep(g, i);
    if i > 0 { AncestorsLive(g, g[i].parent.value); }
  }

  ghost predicate SameTree(g: Groups, g': Groups) {
    && |g| == |g'|
    && (forall i :: 0 <= i < |g| && Live(g, i) ==> g'[i].parent == g[i].parent && g'[i].depth == g[i].depth)
  }

  lemma {:induction false} AncestorsFrame(g: Groups, g': Groups, i: nat)
    requires Tree(g) && Live(g, i) && SameTree(g, g')
    ensures Ancestors(g', i) == Ancestors(g, i)
    decreases g[i].depth
  {
    AncestorsStep(g, i);
    if i > 0 { AncestorsFrame(g, g', g[i].parent.value); }
  }

  // ----- the invariant

  /** The groups strictly below `c`. */
  ghost function Below(g: Groups, c: nat): set<nat> {
    set d | 0 <= d < |g| && d != c && Live(g, d) && c in Ancestors(g, d)
  }

  ghost predicate Member(t: Table, p: nat) {
    p in t.at && t.at[p] < |t.g| && Some(p) in t.g[t.at[p]].procs
  }

  /** The processes in `c` and in the groups below it. */
  ghost function Procs(t: Table, c: nat): set<nat> {
    set p | p in t.at && Member(t, p) && c in Ancestors(t.g, t.at[p])
  }

  ghost predicate DescOk(g: Groups) {
    forall c {:trigger Below(g, c)} :: 0 <= c < |g| && Live(g, c) ==> g[c].desc == |Below(g, c)|
  }

  ghost predicate CountOk(t: Table) {
    forall c {:trigger Procs(t, c)} :: 0 <= c < |t.g| && Live(t.g, c) ==>
      t.g[c].count == |Procs(t, c)| && t.g[c].populated == (t.g[c].count > 0)
  }

  /** A process sits in one slot of one group, the one it points to; a process in no group
      points to the root. */
  ghost predicate SlotOk(t: Table, i: nat, k: nat)
    requires i < |t.g| && k < |t.g[i].procs|
  {
    t.g[i].procs[k].Some? ==>
      && Live(t.g, i)
      && t.g[i].procs[k].value in t.at && t.at[t.g[i].procs[k].value] == i
      && (forall l :: 0 <= l < |t.g[i].procs| && t.g[i].procs[l] == t.g[i].procs[k] ==> l == k)
  }

  ghost predicate Placed(t: Table) {
    && (forall i :: 0 <= i < |t.g| ==> |t.g[i].procs| == 64)
    && (forall i, k :: 0 <= i < |t.g| && 0 <= k < 64 ==> SlotOk(t, i, k))
    && (forall p :: p in t.at ==> t.at[p] == 0 || Member(t, p))
  }

  /** A child has a controller available exactly if its parent enables it, and enables only
      what is available; the root's children always have the cpu set controller. */
  predicate ControlOk(g: Groups, i: nat) {
    && ParentOk(g, i)
    && g[i].enabled <= g[i].avail
    && var p := g[i].parent.value;
       forall c: Controller :: (c == CpuSet ==> p != 0) ==> (c in g[i].avail <==> c in g[p].enabled)
  }

  ghost predicate ControlsOk(g: Groups) {
    forall i {:trigger ControlOk(g, i)} :: 0 < i < |g| && Live(g, i) ==> ControlOk(g, i)
  }

  ghost predicate Inv(t: Table) {
    Tree(t.g) && DescOk(t.g) && Placed(t) && CountOk(t) && ControlsOk(t.g)
  }

  // ----- the operations on the table

  /** Walking up from a group, the number of groups below changes by `n` in each slot of `s`. */
  function AddDesc(g: Groups, s: set<nat>, n: int): (r: Groups)
    ensures |r| == |g|
  {
    seq(|g|, i requires 0 <= i < |g| => if i in s then g[i].(desc := g[i].desc + n) else g[i])
  }

  /** Likewise for the number of processes. */
  function AddProcs(g: Groups, s: set<nat>, n: int): (r: Groups)
    ensures |r| == |g|
  {
    seq(|g|, i requires 0 <= i < |g| =>
      if i in s then
        g[i].(count := g[i].count + n, populated := if n > 0 then true else g[i].populated && g[i].count + n != 0)
      else g[i])
  }

  /** cgroup_initialize for a child: `procs` is left as it was. */
  function Initialized(was: Group, up: nat, parent: Group, path: string): Group {
    Group(path, 0, was.procs, 0, false, Some(up), parent.depth + 1, 64, 64, 0,
          (parent.enabled - {CpuSet}) + (if up == 0 || CpuSet in parent.enabled then {CpuSet} else {}), {}, 64)
  }

  // the assignments to one slot that the operations are made of

  function WithDesc(g: Groups, i: nat, n: int): Groups
    requires i < |g|
  {
    g[i := g[i].(desc := g[i].desc + n)]
  }

  function WithCount(g: Groups, i: nat, n: int): Groups
    requires i < |g|
  {
    g[i := g[i].(count := g[i].count + n, populated := if n > 0 then true else g[i].populated && g[i].count + n != 0)]
  }

  function WithChild(g: Groups, up: nat, slot: nat, path: string): Groups
    requires up < |g| && slot < |g|
  {
    g[slot := Initialized(g[slot], up, g[up], path)]
  }

  function WithoutPath(g: Groups, i: nat): Groups
    requires i < |g|
  {
    g[i := g[i].(path := "")]
  }

  function WithProc(g: Groups, c: nat, k: nat, x: Option<nat>): Groups
    requires c < |g| && k < |g[c].procs|
  {
    g[c := g[c].(procs := g[c].procs[k := x])]
  }

  function WithControl(g: Groups, i: nat, c: Controller, on: bool): Groups
    requires i < |g|
  {
    g[i := g[i].(enabled := if on then g[i].enabled + {c} else g[i].enabled - {c})]
  }

  function WithOffer(g: Groups, i: nat, c: Controller, on: bool): Groups
    requires i < |g|
  {
    g[i := g[i].(avail := if on then g[i].avail + {c} else g[i].avail - {c})]
  }

  // what the operations do to the table

  ghost function Created(g: Groups, up: nat, slot: nat, path: string): Groups
    requires up < |g| && slot < |g|
  {
    AddDesc(WithChild(g, up, slot, path), Ancestors(g, up), 1)
  }

  ghost function Deleted(g: Groups, i: nat): Groups
    requires i < |g|
  {
    AddDesc(WithoutPath(g, i),
            if g[i].parent.Some? && g[i].parent.value < |g| then Ancestors(g, g[i].parent.value) else {}, -1)
  }

  ghost function Joined(t: Table, c: nat, k: nat, p: nat): Table
    requires c < |t.g| && k < |t.g[c].procs|
  {
    Table(AddProcs(WithProc(t.g, c, k, Some(p)), Ancestors(t.g, c), 1), t.at[p := c])
  }

  ghost function Left(t: Table, c: nat, k: nat, p: nat): Table
    requires c < |t.g| && k < |t.g[c].procs|
  {
    Table(AddProcs(WithProc(t.g, c, k, None), Ancestors(t.g, c), -1), t.at[p := 0])
  }

  function Enabled(g: Groups, i: nat, c: Controller): (r: Groups)
    ensures |r| == |g|
  {
    seq(|g|, j requires 0 <= j < |g| =>
      var h := if j == i then g[j].(enabled := g[j].enabled + {c}) else g[j];
      if j > 0 && g[j].parent == Some(i) then h.(avail := h.avail + {c}) else h)
  }

  function Disabled(g: Groups, i: nat, c: Controller): (r: Groups)
    ensures |r| == |g|
  {
    seq(|g|, j requires 0 <= j < |g| =>
      var h := if j == i then g[j].(enabled := g[j].enabled - {c}) else g[j];
      if j > 0 && g[j].parent == Some(i) then h.(avail := h.avail - {c}) else h)
  }

  // ----- every operation keeps the invariant

  /** `g'` is `g` with `h` in a free slot, except for descendant counts. */
  ghost predicate Added(g: Groups, g': Groups, slot: nat, h: Group) {
    && |g| == |g'| == 64
    && (forall i :: 0 <= i < 64 ==> g'[i] == (if i == slot then h else g[i]).(desc := g'[i].desc))
  }

  lemma CreateTree(g: Groups, g': Groups, up: nat, slot: nat, path: string)
    requires Tree(g) && ControlsOk(g) && Live(g, up) && 0 < slot < 64 && !Live(g, slot) && path != ""
    requires Added(g, g', slot, Initialized(g[slot], up, g[up], path))
    ensures Tree(g') && SameTree(g, g') && ControlsOk(g')
  {
    forall i | 0 < i < 64 && Live(g', i) ensures ControlOk(g', i) {
      if i != slot {
        assert ControlOk(g, i);
        assert g'[g[i].parent.value].enabled == g[g[i].parent.value].enabled;
      } else {
        assert g'[up].enabled == g[up].enabled;
      }
    }
  }

  lemma CreateBelow(g: Groups, g': Groups, up: nat, slot: nat, path: string, c: nat)
    requires Tree(g) && Live(g, up) && 0 < slot < 64 && !Live(g, slot) && path != "" && c < 64
    requires Added(g, g', slot, Initialized(g[slot], up, g[up], path)) && Tree(g') && SameTree(g, g')
    ensures Below(g', c) ==
            if c == slot then {} else if c in Ancestors(g, up) then Below(g, c) + {slot} else Below(g, c)
  {
    forall d: nat | Live(g, d) ensures Ancestors(g', d) == Ancestors(g, d) && slot !in Ancestors(g, d) {
      AncestorsFrame(g, g', d);
      AncestorsLive(g, d);
    }
    AncestorsStep(g', slot);
    assert Ancestors(g', slot) == {slot} + Ancestors(g, up);
    forall d
      ensures d in Below(g', c) <==>
        d in (if c == slot then {} else if c in Ancestors(g, up) then Below(g, c) + {slot} else Below(g, c))
    {
      if 0 <= d < 64 && d != slot { assert Live(g', d) <==> Live(g, d); }
    }
  }

  /** What leaves processes, their groups and the tree alone leaves the process counts right. */
  lemma ProcsFrame(t: Table, g': Groups)
    requires Tree(t.g) && Placed(t) && SameTree(t.g, g')
    requires forall i :: 0 <= i < |g'| ==> g'[i].procs == t.g[i].procs
    ensures forall c: nat :: Procs(Table(g', t.at), c) == Procs(t, c)
  {
    forall p | p in t.at && Member(t, p) ensures Ancestors(g', t.at[p]) == Ancestors(t.g, t.at[p]) {
      MemberLive(t, p);
      AncestorsFrame(t.g, g', t.at[p]);
    }
    forall c: nat ensures Procs(Table(g', t.at), c) == Procs(t, c) {
      forall p ensures p in Procs(Table(g', t.at), c) <==> p in Procs(t, c) {
        if p in t.at && t.at[p] < |g'| { assert Member(Table(g', t.at), p) <==> Member(t, p); }
      }
    }
  }

  lemma MemberLive(t: Table, p: nat)
    requires Placed(t) && Member(t, p)
    ensures Live(t.g, t.at[p])
  {
    var k :| 0 <= k < |t.g[t.at[p]].procs| && t.g[t.at[p]].procs[k] == Some(p);
    assert SlotOk(t, t.at[p], k);
  }

  /** Slots keep their processes; one that stops being live has none. */
  lemma PlacedFrame(t: Table, g': Groups)
    requires Placed(t) && |g'| == |t.g|
    requires forall i :: 0 <= i < |g'| ==> g'[i].procs == t.g[i].procs
    requires forall p :: p in t.at && Member(t, p) ==> Live(g', t.at[p])
    ensures Placed(Table(g', t.at))
  {
    var t' := Table(g', t.at);
    forall i, k | 0 <= i < |g'| && 0 <= k < 64 ensures SlotOk(t', i, k) {
      assert SlotOk(t, i, k);
      if g'[i].procs[k].Some? { assert Member(t, g'[i].procs[k].value); }
    }
    forall p | p in t'.at ensures t'.at[p] == 0 || Member(t', p) {
      if t.at[p] != 0 { assert Member(t, p); }
    }
  }

  lemma SlotProcs(t: Table, c: nat)
    requires Tree(t.g) && Placed(t) && c < |t.g| && !Live(t.g, c)
    ensures Procs(t, c) == {}
  {
    forall p | p in t.at && Member(t, p) ensures c !in Ancestors(t.g, t.at[p]) {
      MemberLive(t, p);
      AncestorsLive(t.g, t.at[p]);
    }
  }

  lemma CreateDesc(g: Groups, g': Groups, up: nat, slot: nat, path: string)
    requires Tree(g) && DescOk(g) && Live(g, up) && 0 < slot < 64 && !Live(g, slot) && path != ""
    requires Added(g, g', slot, Initialized(g[slot], up, g[up], path)) && Tree(g') && SameTree(g, g')
    requires forall c :: 0 <= c < 64 ==>
      g'[c].desc == (if c == slot then 0 else g[c].desc) + if c in Ancestors(g, up) then 1 else 0
    ensures DescOk(g')
  {
    AncestorsLive(g, up);
    forall c: nat | Live(g', c) ensures g'[c].desc == |Below(g', c)| {
      CreateBelow(g, g', up, slot, path, c);
      assert slot !in Below(g, c);
      if c != slot { assert Live(g, c); }
    }
  }

  lemma CreatedSlots(g: Groups, up: nat, slot: nat, path: string)
    requires |g| == 64 && up < 64 && slot < 64
    ensures var g' := Created(g, up, slot, path);
      && Added(g, g', slot, Initialized(g[slot], up, g[up], path))
      && forall c :: 0 <= c < 64 ==>
         g'[c].desc == (if c == slot then 0 else g[c].desc) + if c in Ancestors(g, up) then 1 else 0
  {
  }

  /** cgroup_create. */
  lemma CreateKeepsInv(t: Table, g': Groups, up: nat, slot: nat, path: string)
    requires Inv(t) && Live(t.g, up) && 0 < slot < 64 && !Live(t.g, slot) && path != ""
    requires g' == Created(t.g, up, slot, path)
    ensures Inv(Table(g', t.at))
  {
    CreatedSlots(t.g, up, slot, path);
    CreateTree(t.g, g', up, slot, path);
    CreateDesc(t.g, g', up, slot, path);
    CreateProcs(t, g', up, slot, path);
  }

  /** The new group is in place before its ancestors count it. */
  lemma CreateStep(t: Table, up: nat, slot: nat, path: string) returns (g1: Groups, g': Groups)
    requires Inv(t) && Live(t.g, up) && 0 < slot < 64 && !Live(t.g, slot) && path != ""
    ensures g1 == WithChild(t.g, up, slot, path)
    ensures Tree(g1) && Live(g1, up) && g' == AddDesc(g1, Ancestors(g1, up), 1)
    ensures g' == Created(t.g, up, slot, path) && Inv(Table(g', t.at))
  {
    g1 := WithChild(t.g, up, slot, path);
    CreateTree(t.g, g1, up, slot, path);
    AncestorsFrame(t.g, g1, up);
    g' := Created(t.g, up, slot, path);
    CreateKeepsInv(t, g', up, slot, path);
  }

  lemma CreateProcs(t: Table, g': Groups, up: nat, slot: nat, path: string)
    requires Tree(t.g) && Placed(t) && CountOk(t) && Live(t.g, up) && 0 < slot < 64 && !Live(t.g, slot) && path != ""
    requires Added(t.g, g', slot, Initialized(t.g[slot], up, t.g[up], path)) && SameTree(t.g, g')
    ensures Placed(Table(g', t.at)) && CountOk(Table(g', t.at))
  {
    forall p | p in t.at && Member(t, p) ensures Live(g', t.at[p]) { MemberLive(t, p); }
    PlacedFrame(t, g');
    ProcsFrame(t, g');
    SlotProcs(t, slot);
    forall c: nat | Live(g', c) ensures g'[c].count == |Procs(Table(g', t.at), c)| {
      if c != slot { assert Live(t.g, c); }
    }
  }

  /** `g'` is `g` without slot `i`, except for descendant counts. */
  ghost predicate Cut(g: Groups, g': Groups, i: nat) {
    && |g| == |g'| == 64
    && (forall j :: 0 <= j < 64 ==> g'[j] == g[j].(desc := g'[j].desc, path := if j == i then "" else g[j].path))
  }

  lemma DeleteTree(g: Groups, g': Groups, i: nat)
    requires Tree(g) && ControlsOk(g) && Live(g, i) && DescOk(g) && g[i].desc == 0 && Cut(g, g', i)
    ensures Tree(g') && SameTree(g', g) && ControlsOk(g')
  {
    forall j | 0 < j < 64 && Live(g', j) ensures ControlOk(g', j) {
      assert ControlOk(g, j);
      var p := g[j].parent.value;
      AncestorsStep(g, j);
      AncestorsLive(g, p);
      assert j !in Below(g, i);
      assert g'[p].enabled == g[p].enabled && g'[p].depth == g[p].depth;
    }
  }

  lemma DeleteBelow(g: Groups, g': Groups, i: nat, c: nat)
    requires Tree(g) && Live(g, i) && Cut(g, g', i) && Tree(g') && SameTree(g', g)
    ensures Below(g', c) == if i == 0 then Below(g, c) else Below(g, c) - {i}
  {
    forall d: nat | Live(g', d) ensures Ancestors(g', d) == Ancestors(g, d) { AncestorsFrame(g', g, d); }
    forall d ensures d in Below(g', c) <==> d in (if i == 0 then Below(g, c) else Below(g, c) - {i}) {
      if 0 <= d < 64 { assert Live(g', d) <==> Live(g, d) && (d != i || i == 0); }
    }
  }

  /** The ancestors of `i` lose one descendant. */
  ghost predicate Dropped(g: Groups, g': Groups, i: nat) {
    && |g| == |g'| == 64 && i < 64 && (i == 0 ==> g'[0].desc == g[0].desc)
    && (forall c :: 0 <= c < 64 && c != i ==>
          g'[c].desc == if i > 0 && c in Ancestors(g, i) then g[c].desc - 1 else g[c].desc)
  }

  lemma DeleteDesc(g: Groups, g': Groups, i: nat)
    requires Tree(g) && DescOk(g) && Live(g, i) && Cut(g, g', i) && Tree(g') && SameTree(g', g) && Dropped(g, g', i)
    ensures DescOk(g')
  {
    forall c: nat | Live(g', c) ensures g'[c].desc == |Below(g', c)| {
      DeleteBelow(g, g', i, c);
      assert Live(g, c);
      DeleteCount(g, g', i, c);
    }
  }

  lemma DeleteCount(g: Groups, g': Groups, i: nat, c: nat)
    requires Live(g, i) && Dropped(g, g', i) && c < 64 && (c != i || i == 0) && g[c].desc == |Below(g, c)|
    ensures g'[c].desc == |if i == 0 then Below(g, c) else Below(g, c) - {i}|
  {
    assert i > 0 && c in Ancestors(g, i) ==> i in Below(g, c);
    assert i > 0 && c !in Ancestors(g, i) ==> Below(g, c) - {i} == Below(g, c);
  }

  lemma DeleteProcs(t: Table, g': Groups, i: nat)
    requires Tree(t.g) && Placed(t) && CountOk(t) && Live(t.g, i) && (i == 0 || t.g[i].count == 0)
    requires Cut(t.g, g', i) && Tree(g') && SameTree(g', t.g)
    ensures Placed(Table(g', t.at)) && CountOk(Table(g', t.at))
  {
    var t' := Table(g', t.at);
    forall p | p in t.at && Member(t, p) ensures Live(g', t.at[p]) {
      MemberLive(t, p);
      AncestorsLive(t.g, t.at[p]);
      assert i > 0 ==> p !in Procs(t, i);
    }
    PlacedFrame(t, g');
    ProcsFrame(t', t.g);
    assert Table(t.g, t'.at) == t;
    forall c: nat | Live(g', c) ensures g'[c].count == |Procs(t', c)| { assert Live(t.g, c); }
  }

  lemma DeletedSlots(g: Groups, i: nat)
    requires Tree(g) && Live(g, i)
    ensures Cut(g, Deleted(g, i), i) && Dropped(g, Deleted(g, i), i)
  {
    AncestorsStep(g, i);
  }

  /** cgroup_delete of a group without descendants and processes, or of the unmounted root. */
  lemma DeleteKeepsInv(t: Table, g': Groups, i: nat)
    requires Inv(t) && Live(t.g, i) && t.g[i].desc == 0 && (i == 0 || t.g[i].count == 0) && g' == Deleted(t.g, i)
    ensures Inv(Table(g', t.at))
  {
    DeletedSlots(t.g, i);
    DeleteTree(t.g, g', i);
    DeleteDesc(t.g, g', i);
    DeleteProcs(t, g', i);
  }

  /** The path is gone before the ancestors stop counting the group. */
  lemma DeleteStep(t: Table, i: nat) returns (g1: Groups, g': Groups)
    requires Inv(t) && Live(t.g, i) && t.g[i].desc == 0 && (i == 0 || t.g[i].count == 0)
    ensures g1 == WithoutPath(t.g, i) && g1[i].parent == t.g[i].parent
    ensures Tree(g1) && (g1[i].parent.Some? ==> Live(g1, g1[i].parent.value))
    ensures g' == AddDesc(g1, if g1[i].parent.Some? then Ancestors(g1, g1[i].parent.value) else {}, -1)
    ensures g' == Deleted(t.g, i) && Inv(Table(g', t.at))
  {
    g1 := WithoutPath(t.g, i);
    g' := Deleted(t.g, i);
    UnnamedTree(t.g, i);
    DeleteKeepsInv(t, g', i);
  }

  lemma UnnamedTree(g: Groups, i: nat)
    requires Tree(g) && ControlsOk(g) && DescOk(g) && Live(g, i) && g[i].desc == 0
    ensures var g1 := WithoutPath(g, i);
      && Tree(g1) && (i == 0 ==> g[i].parent == None)
      && (i > 0 ==>
            && ParentOk(g, i) && Live(g1, g[i].parent.value)
            && Ancestors(g1, g[i].parent.value) == Ancestors(g, g[i].parent.value))
  {
    var g1 := WithoutPath(g, i);
    DeleteTree(g, g1, i);
    AncestorsStep(g, i);
    if i > 0 { AncestorsFrame(g1, g, g[i].parent.value); }
  }

  // ----- processes

  /** One process slot of `c` becomes `x`, and the counts of its ancestors change by `n`. */
  ghost predicate Recounted(t: Table, g': Groups, c: nat, k: nat, x: Option<nat>, n: int) {
    && |t.g| == |g'| == 64 && c < 64 && k < 64 == |t.g[c].procs|
    && (forall i :: 0 <= i < 64 ==>
          g'[i] == t.g[i].(procs := g'[i].procs, count := g'[i].count, populated := g'[i].populated))
    && (forall i :: 0 <= i < 64 ==> g'[i].procs == if i == c then t.g[i].procs[k := x] else t.g[i].procs)
    && (forall i :: 0 <= i < 64 ==>
          if i in Ancestors(t.g, c) then
            g'[i].count == t.g[i].count + n &&
            g'[i].populated == if n > 0 then true else t.g[i].populated && t.g[i].count + n != 0
          else g'[i].count == t.g[i].count && g'[i].populated == t.g[i].populated)
  }

  lemma JoinedSlots(t: Table, c: nat, k: nat, p: nat)
    requires |t.g| == 64 && c < 64 && k < 64 == |t.g[c].procs|
    ensures Recounted(t, Joined(t, c, k, p).g, c, k, Some(p), 1)
  {
  }

  lemma LeftSlots(t: Table, c: nat, k: nat, p: nat)
    requires |t.g| == 64 && c < 64 && k < 64 == |t.g[c].procs|
    ensures Recounted(t, Left(t, c, k, p).g, c, k, None, -1)
  {
  }

  /** Process `p` can enter slot `k` of `c`: the slot is free and `p` is in no group. */
  ghost predicate MayJoin(t: Table, c: nat, k: nat, p: nat) {
    |t.g| == 64 && Live(t.g, c) && k < 64 == |t.g[c].procs| && t.g[c].procs[k] == None && !Member(t, p)
  }

  lemma JoinMembers(t: Table, g': Groups, c: nat, k: nat, p: nat, q: nat)
    requires Placed(t) && MayJoin(t, c, k, p) && Recounted(t, g', c, k, Some(p), 1)
    ensures Member(Table(g', t.at[p := c]), q) <==> q == p || Member(t, q)
  {
    assert g'[c].procs[k] == Some(p);
    if q != p && q in t.at && t.at[q] == c && Some(q) in t.g[c].procs {
      var l :| 0 <= l < 64 && t.g[c].procs[l] == Some(q);
      assert g'[c].procs[l] == Some(q);
    }
  }

  lemma JoinPlaced(t: Table, g': Groups, c: nat, k: nat, p: nat)
    requires Placed(t) && MayJoin(t, c, k, p) && Recounted(t, g', c, k, Some(p), 1)
    ensures Placed(Table(g', t.at[p := c]))
  {
    var t' := Table(g', t.at[p := c]);
    forall q | q in t'.at ensures t'.at[q] == 0 || Member(t', q) { JoinMembers(t, g', c, k, p, q); }
    forall i, l | 0 <= i < 64 && 0 <= l < 64 ensures SlotOk(t', i, l) { JoinSlot(t, g', c, k, p, i, l); }
  }

  lemma JoinSlot(t: Table, g': Groups, c: nat, k: nat, p: nat, i: nat, l: nat)
    requires Placed(t) && MayJoin(t, c, k, p) && Recounted(t, g', c, k, Some(p), 1) && i < 64 && l < 64
    ensures SlotOk(Table(g', t.at[p := c]), i, l)
  {
    assert SlotOk(t, i, l);
    forall m | 0 <= m < 64 ensures t.g[i].procs[m] != Some(p) { assert SlotOk(t, i, m); }
  }

  lemma JoinProcs(t: Table, g': Groups, c: nat, k: nat, p: nat, a: nat)
    requires Tree(t.g) && Placed(t) && MayJoin(t, c, k, p) && Recounted(t, g', c, k, Some(p), 1)
    ensures Procs(Table(g', t.at[p := c]), a) == if a in Ancestors(t.g, c) then Procs(t, a) + {p} else Procs(t, a)
  {
    var t' := Table(g', t.at[p := c]);
    AncestorsFrame(t.g, g', c);
    forall q ensures q in Procs(t', a) <==> q in (if a in Ancestors(t.g, c) then Procs(t, a) + {p} else Procs(t, a)) {
      JoinMembers(t, g', c, k, p, q);
      if q != p && Member(t, q) {
        MemberLive(t, q);
        AncestorsFrame(t.g, g', t.at[q]);
      }
    }
  }

  lemma JoinCount(t: Table, g': Groups, c: nat, k: nat, p: nat, a: nat)
    requires Tree(t.g) && Placed(t) && MayJoin(t, c, k, p) && Recounted(t, g', c, k, Some(p), 1)
    requires a < 64 && t.g[a].count == |Procs(t, a)| && t.g[a].populated == (t.g[a].count > 0)
    ensures g'[a].count == |Procs(Table(g', t.at[p := c]), a)| && g'[a].populated == (g'[a].count > 0)
  {
    assert p !in Procs(t, a);
    JoinProcs(t, g', c, k, p, a);
  }

  lemma JoinCounts(t: Table, g': Groups, c: nat, k: nat, p: nat)
    requires Tree(t.g) && Placed(t) && CountOk(t) && MayJoin(t, c, k, p) && Recounted(t, g', c, k, Some(p), 1)
    ensures CountOk(Table(g', t.at[p := c]))
  {
    forall a: nat | Live(g', a)
      ensures g'[a].count == |Procs(Table(g', t.at[p := c]), a)| && g'[a].populated == (g'[a].count > 0)
    {
      assert Live(t.g, a);
      JoinCount(t, g', c, k, p, a);
    }
  }

  /** The last part of unsafe_cgroup_insert: a process that is in no group enters one. */
  lemma JoinKeepsInv(t: Table, t': Table, c: nat, k: nat, p: nat)
    requires Inv(t) && MayJoin(t, c, k, p) && t' == Joined(t, c, k, p)
    ensures Inv(t') && Member(t', p)
  {
    JoinedSlots(t, c, k, p);
    JoinPlaced(t, t'.g, c, k, p);
    JoinMembers(t, t'.g, c, k, p, p);
    JoinCounts(t, t'.g, c, k, p);
    CountersOnly(t.g, t'.g);
  }

  /** Changing only process slots and counts keeps tree, descendants and controllers. */
  lemma CountersOnly(g: Groups, g': Groups)
    requires Tree(g) && DescOk(g) && ControlsOk(g) && |g'| == 64
    requires forall i :: 0 <= i < 64 ==>
      g'[i] == g[i].(procs := g'[i].procs, count := g'[i].count, populated := g'[i].populated)
    ensures Tree(g') && DescOk(g') && ControlsOk(g')
  {
    forall i | 0 < i < 64 && Live(g', i) ensures ControlOk(g', i) { assert ControlOk(g, i); }
    forall c: nat | Live(g', c) ensures g'[c].desc == |Below(g', c)| { SameBelow(g, g', c); }
  }

  lemma SameBelow(g: Groups, g': Groups, c: nat)
    requires Tree(g) && SameTree(g, g') && (forall i :: 0 <= i < |g| ==> (Live(g, i) <==> Live(g', i)))
    ensures Below(g', c) == Below(g, c)
  {
    forall d: nat | Live(g, d) ensures Ancestors(g', d) == Ancestors(g, d) { AncestorsFrame(g, g', d); }
  }

  ghost predicate MayLeave(t: Table, c: nat, k: nat, p: nat) {
    |t.g| == 64 && Live(t.g, c) && k < 64 == |t.g[c].procs| && t.g[c].procs[k] == Some(p)
  }

  lemma LeaveMembers(t: Table, g': Groups, c: nat, k: nat, p: nat, q: nat)
    requires Placed(t) && MayLeave(t, c, k, p) && Recounted(t, g', c, k, None, -1)
    ensures Member(Table(g', t.at[p := 0]), q) <==> q != p && Member(t, q)
  {
    assert SlotOk(t, c, k);
    if q == p {
      forall l | 0 <= l < 64 ensures g'[0].procs[l] != Some(p) { assert SlotOk(t, 0, l); }
    } else if q in t.at && t.at[q] == c && Some(q) in t.g[c].procs {
      var l :| 0 <= l < 64 && t.g[c].procs[l] == Some(q);
      assert g'[c].procs[l] == Some(q);
    }
  }

  lemma LeavePlaced(t: Table, g': Groups, c: nat, k: nat, p: nat)
    requires Placed(t) && MayLeave(t, c, k, p) && Recounted(t, g', c, k, None, -1)
    ensures Placed(Table(g', t.at[p := 0]))
  {
    var t' := Table(g', t.at[p := 0]);
    forall q | q in t'.at ensures t'.at[q] == 0 || Member(t', q) { LeaveMembers(t, g', c, k, p, q); }
    forall i, l | 0 <= i < 64 && 0 <= l < 64 ensures SlotOk(t', i, l) {
      assert SlotOk(t, i, l);
      assert SlotOk(t, c, k);
    }
  }

  lemma LeaveProcs(t: Table, g': Groups, c: nat, k: nat, p: nat, a: nat)
    requires Tree(t.g) && Placed(t) && MayLeave(t, c, k, p) && Recounted(t, g', c, k, None, -1)
    ensures Procs(Table(g', t.at[p := 0]), a) == Procs(t, a) - {p}
  {
    var t' := Table(g', t.at[p := 0]);
    forall q ensures q in Procs(t', a) <==> q in Procs(t, a) - {p} {
      LeaveMembers(t, g', c, k, p, q);
      if q != p && Member(t, q) {
        MemberLive(t, q);
        AncestorsFrame(t.g, g', t.at[q]);
      }
    }
  }

  lemma LeaveCount(t: Table, g': Groups, c: nat, k: nat, p: nat, a: nat)
    requires Tree(t.g) && Placed(t) && MayLeave(t, c, k, p) && Recounted(t, g', c, k, None, -1)
    requires a < 64 && t.g[a].count == |Procs(t, a)| && t.g[a].populated == (t.g[a].count > 0)
    ensures g'[a].count == |Procs(Table(g', t.at[p := 0]), a)| && g'[a].populated == (g'[a].count > 0)
  {
    assert SlotOk(t, c, k);
    assert Member(t, p);
    assert p in Procs(t, a) <==> a in Ancestors(t.g, c);
    LeaveProcs(t, g', c, k, p, a);
  }

  lemma LeaveCounts(t: Table, g': Groups, c: nat, k: nat, p: nat)
    requires Tree(t.g) && Placed(t) && CountOk(t) && MayLeave(t, c, k, p) && Recounted(t, g', c, k, None, -1)
    ensures CountOk(Table(g', t.at[p := 0]))
  {
    forall a: nat | Live(g', a)
      ensures g'[a].count == |Procs(Table(g', t.at[p := 0]), a)| && g'[a].populated == (g'[a].count > 0)
    {
      assert Live(t.g, a);
      LeaveCount(t, g', c, k, p, a);
    }
  }

  /** unsafe_cgroup_erase of a process that is in the group. */
  lemma LeaveKeepsInv(t: Table, t': Table, c: nat, k: nat, p: nat)
    requires Inv(t) && MayLeave(t, c, k, p) && t' == Left(t, c, k, p)
    ensures Inv(t') && !Member(t', p)
  {
    LeftSlots(t, c, k, p);
    LeavePlaced(t, t'.g, c, k, p);
    LeaveMembers(t, t'.g, c, k, p, p);
    LeaveCounts(t, t'.g, c, k, p);
    CountersOnly(t.g, t'.g);
  }

  // ----- controllers

  lemma ControlsFrame(t: Table, g': Groups)
    requires Inv(t) && |g'| == 64 && ControlsOk(g')
    requires forall i :: 0 <= i < 64 ==> g'[i] == t.g[i].(avail := g'[i].avail, enabled := g'[i].enabled)
    ensures Inv(Table(g', t.at))
  {
    forall i | 0 < i < 64 && Live(g', i) ensures ParentOk(g', i) { assert ControlOk(g', i); }
    forall c: nat | Live(g', c) ensures g'[c].desc == |Below(g', c)| { SameBelow(t.g, g', c); }
    forall p | p in t.at && Member(t, p) ensures Live(g', t.at[p]) { MemberLive(t, p); }
    PlacedFrame(t, g');
    ProcsFrame(t, g');
  }

  lemma EnabledControls(g: Groups, i: nat, c: Controller)
    requires |g| == 64 && ControlsOk(g) && Live(g, i) && (i > 0 ==> c in g[i].avail)
    ensures ControlsOk(Enabled(g, i, c))
  {
    var g' := Enabled(g, i, c);
    forall j | 0 < j < 64 && Live(g', j) ensures ControlOk(g', j) {
      assert ControlOk(g, j);
      assert g'[g[j].parent.value].depth == g[g[j].parent.value].depth;
    }
  }

  /** The enable functions, where the controller is available. */
  lemma EnableKeepsInv(t: Table, g': Groups, i: nat, c: Controller)
    requires Inv(t) && Live(t.g, i) && (i > 0 ==> c in t.g[i].avail) && g' == Enabled(t.g, i, c)
    ensures Inv(Table(g', t.at))
  {
    EnabledControls(t.g, i, c);
    ControlsFrame(t, g');
  }

  /** Some slot points to `i` as its parent and has the controller enabled, deleted or not. */
  predicate ChildEnables(g: Groups, i: nat, c: Controller) {
    exists j :: 0 < j < |g| && g[j].parent == Some(i) && c in g[j].enabled
  }

  /** Deleting a group does not clear what it enabled: it still counts as a child. */
  lemma DeletedStillEnables(g: Groups, i: nat, up: nat, c: Controller)
    requires 0 < i < |g| && up < |g| && g[i].parent == Some(up) && c in g[i].enabled
    ensures ChildEnables(Deleted(g, i), up, c)
  {
    var g' := Deleted(g, i);
    assert g'[i].parent == Some(up) && c in g'[i].enabled;
  }

  lemma PopulatedExactly(t: Table, i: nat)
    requires CountOk(t) && Live(t.g, i)
    ensures t.g[i].populated <==> Procs(t, i) != {}
  {
  }

  lemma DisabledControls(g: Groups, i: nat, c: Controller)
    requires |g| == 64 && ControlsOk(g) && Live(g, i)
    requires !ChildEnables(g, i, c)
    ensures ControlsOk(Disabled(g, i, c))
  {
    var g' := Disabled(g, i, c);
    forall j | 0 < j < 64 && Live(g', j) ensures ControlOk(g', j) {
      assert ControlOk(g, j);
      assert g'[g[j].parent.value].depth == g[g[j].parent.value].depth;
    }
  }

  /** The disable functions, where no child has the controller enabled. */
  lemma DisableKeepsInv(t: Table, g': Groups, i: nat, c: Controller)
    requires Inv(t) && Live(t.g, i) && g' == Disabled(t.g, i, c)
    requires !ChildEnables(t.g, i, c)
    ensures Inv(Table(g', t.at))
  {
    DisabledControls(t.g, i, c);
    ControlsFrame(t, g');
  }

  /** Open files, limits and the mount point of the root do not matter to the invariant. */
  lemma TouchKeepsInv(t: Table, g': Groups)
    requires Inv(t) && |g'| == 64
    requires forall i :: 0 <= i < 64 ==>
      g'[i] == t.g[i].(refs := g'[i].refs, path := if i == 0 then g'[0].path else t.g[i].path,
                       maxDesc := g'[i].maxDesc, maxDepth := g'[i].maxDepth, maxProcs := g'[i].maxProcs)
    ensures Inv(Table(g', t.at))
  {
    forall i | 0 < i < 64 && Live(g', i) ensures ControlOk(g', i) { assert ControlOk(t.g, i); }
    forall c: nat | Live(g', c) ensures g'[c].desc == |Below(g', c)| { SameBelow(t.g, g', c); }
    forall p | p in t.at && Member(t, p) ensures Live(g', t.at[p]) { MemberLive(t, p); }
    PlacedFrame(t, g');
    ProcsFrame(t, g');
  }

  /** The controller offered to, or taken from, the children of `i` in the slots below `n`. */
  function Offered(g: Groups, i: nat, c: Controller, on: bool, n: nat): (r: Groups)
    ensures |r| == |g|
  {
    seq(|g|, j requires 0 <= j < |g| =>
      if 0 < j < n && g[j].parent == Some(i)
      then g[j].(avail := if on then g[j].avail + {c} else g[j].avail - {c})
      else g[j])
  }

  lemma OfferedStep(g: Groups, i: nat, c: Controller, on: bool, n: nat)
    requires 0 < n < |g|
    ensures var r := Offered(g, i, c, on, n);
      Offered(g, i, c, on, n + 1) == if r[n].parent == Some(i) then WithOffer(r, n, c, on) else r
  {
    var r, r' := Offered(g, i, c, on, n), Offered(g, i, c, on, n + 1);
    forall j | 0 <= j < |g| && j != n ensures r'[j] == r[j] {}
  }

  lemma OfferedEnabled(g: Groups, i: nat, c: Controller)
    requires i < |g| == 64
    ensures Offered(WithControl(g, i, c, true), i, c, true, 64) == Enabled(g, i, c)
  {
  }

  lemma OfferedDisabled(g: Groups, i: nat, c: Controller)
    requires i < |g| == 64
    ensures Offered(WithControl(g, i, c, false), i, c, false, 64) == Disabled(g, i, c)
  {
  }

  // ----- the limits of cgroup_create

  /** Some ancestor has its depth limit or its number of descendants reached. */
  predicate AtLimit(g: Groups, up: nat, a: nat)
    requires up < |g| && a < |g|
  {
    g[a].maxDepth <= g[up].depth - g[a].depth || g[a].maxDesc == g[a].desc
  }

  ghost predicate LimitHit(g: Groups, up: nat)
    requires up < |g|
  {
    exists a :: a in Ancestors(g, up) && a < |g| && AtLimit(g, up, a)
  }

  lemma {:induction false} SubsetSize(a: set<nat>, n: nat)
    requires forall x :: x in a ==> x < n
    ensures |a| <= n
  {
    if n > 0 {
      SubsetSize(a - {n - 1}, n - 1);
      if n - 1 !in a { assert a - {n - 1} == a; }
    } else {
      assert a == {};
    }
  }

  lemma BelowSize(g: Groups, a: nat)
    requires |g| == 64 && DescOk(g) && Live(g, a)
    ensures g[a].desc < 64
  {
    SubsetSize(Below(g, a) + {a}, 64);
  }

  /** With the default limits neither of them is ever reached: only a full table stops
      cgroup_create. */
  lemma DefaultLimitsSuffice(t: Table, up: nat)
    requires Inv(t) && Live(t.g, up)
    requires forall a :: a in Ancestors(t.g, up) && a < 64 ==> t.g[a].maxDepth == t.g[a].maxDesc == 64
    ensures !LimitHit(t.g, up)
  {
    AncestorsLive(t.g, up);
    SubsetSize(Ancestors(t.g, up), 64);
    forall a | a in Ancestors(t.g, up) && a < 64 ensures !AtLimit(t.g, up, a) { BelowSize(t.g, a); }
  }

  // ----- walking up

  /** A walk over the slots `todo` has passed `seen` and stands at `cur`. */
  ghost predicate Climbing(g: Groups, cur: Option<nat>, seen: set<nat>, todo: set<nat>) {
    if cur.None? then todo == seen
    else Live(g, cur.value) && todo == seen + Ancestors(g, cur.value) && seen !! Ancestors(g, cur.value)
  }

  lemma ClimbStep(g: Groups, cur: nat, seen: set<nat>, todo: set<nat>)
    requires Tree(g) && Climbing(g, Some(cur), seen, todo)
    ensures cur !in seen && Climbing(g, g[cur].parent, seen + {cur}, todo)
    ensures g[cur].parent.Some? ==> g[g[cur].parent.value].depth < g[cur].depth
  {
    AncestorsStep(g, cur);
    AncestorsLive(g, cur);
    if cur > 0 { AncestorsLive(g, g[cur].parent.value); }
  }

  lemma AddDescStep(g: Groups, s: set<nat>, n: int, x: nat)
    requires x < |g| && x !in s
    ensures AddDesc(g, s, n)[x].parent == g[x].parent
    ensures WithDesc(AddDesc(g, s, n), x, n) == AddDesc(g, s + {x}, n)
  {
    var r := WithDesc(AddDesc(g, s, n), x, n);
    forall i | 0 <= i < |g| ensures r[i] == AddDesc(g, s + {x}, n)[i] {}
  }

  lemma AddProcsStep(g: Groups, s: set<nat>, n: int, x: nat)
    requires x < |g| && x !in s
    ensures AddProcs(g, s, n)[x].parent == g[x].parent
    ensures WithCount(AddProcs(g, s, n), x, n) == AddProcs(g, s + {x}, n)
  {
    var r := WithCount(AddProcs(g, s, n), x, n);
    forall i | 0 <= i < |g| ensures r[i] == AddProcs(g, s + {x}, n)[i] {}
  }

  // ----- entering and leaving a group

  lemma LeaveStep(t: Table, c: nat, k: nat, p: nat) returns (g1: Groups, t': Table)
    requires Inv(t) && MayLeave(t, c, k, p)
    ensures g1 == WithProc(t.g, c, k, None)
    ensures Tree(g1) && Live(g1, c) && t' == Table(AddProcs(g1, Ancestors(g1, c), -1), t.at[p := 0])
    ensures t' == Left(t, c, k, p) && Inv(t') && !Member(t', p)
  {
    g1 := WithProc(t.g, c, k, None);
    CountersOnly(t.g, g1);
    AncestorsFrame(t.g, g1, c);
    t' := Left(t, c, k, p);
    LeaveKeepsInv(t, t', c, k, p);
  }

  lemma JoinStep(t: Table, c: nat, k: nat, p: nat) returns (g1: Groups, t': Table)
    requires Inv(t) && MayJoin(t, c, k, p)
    ensures g1 == WithProc(t.g, c, k, Some(p))
    ensures Tree(g1) && Live(g1, c) && t' == Table(AddProcs(g1, Ancestors(g1, c), 1), t.at[p := c])
    ensures t' == Joined(t, c, k, p) && Inv(t') && Member(t', p)
  {
    g1 := WithProc(t.g, c, k, Some(p));
    CountersOnly(t.g, g1);
    AncestorsFrame(t.g, g1, c);
    t' := Joined(t, c, k, p);
    JoinKeepsInv(t, t', c, k, p);
  }

  /** When unsafe_cgroup_insert succeeds. */
  predicate Admits(t: Table, c: nat, p: nat, memOk: bool, protectOk: bool)
    requires c < |t.g|
  {
    && (Pid in t.g[c].enabled ==> t.g[c].count + 1 <= t.g[c].maxProcs)
    && (Mem in t.g[c].enabled ==> memOk)
    && (Some(p) in t.g[c].procs || (None in t.g[c].procs && (p in t.at ==> protectOk)))
  }

  /** The tree and the other processes are as before. */
  ghost predicate SameOthers(t: Table, t': Table, p: nat) {
    && |t'.g| == |t.g|
    && (forall i :: 0 <= i < |t.g| ==>
          t'.g[i] == t.g[i].(procs := t'.g[i].procs, count := t'.g[i].count, populated := t'.g[i].populated))
    && (forall q :: q != p ==>
          (Member(t', q) <==> Member(t, q)) && (q in t'.at <==> q in t.at) && (q in t.at ==> t'.at[q] == t.at[q]))
  }

  lemma ThereIsMember(t: Table, c: nat, p: nat)
    requires Placed(t) && c < |t.g| && Some(p) in t.g[c].procs
    ensures p in t.at && t.at[p] == c && Member(t, p)
  {
    var k :| 0 <= k < |t.g[c].procs| && t.g[c].procs[k] == Some(p);
    assert SlotOk(t, c, k);
  }

  /** What unsafe_cgroup_erase does: nothing unless the process is in the group. */
  ghost predicate Erased(t: Table, t': Table, c: nat, p: nat)
    requires c < |t.g|
  {
    if Some(p) in t.g[c].procs then exists k :: MayLeave(t, c, k, p) && t' == Left(t, c, k, p) else t' == t
  }

  lemma ErasedStill(t: Table, t': Table, c: nat, k: nat, p: nat)
    requires |t.g| == 64 && Placed(t) && p in t.at && t.at[p] < 64 && Erased(t, t', t.at[p], p)
    requires Live(t.g, c) && k < 64 && t.g[c].procs[k] == None && Some(p) !in t.g[c].procs
    ensures MayJoin(t', c, k, p) && SameOthers(t, t', p)
  {
    var a := t.at[p];
    if Some(p) in t.g[a].procs {
      var l :| MayLeave(t, a, l, p) && t' == Left(t, a, l, p);
      LeftSlots(t, a, l, p);
      forall q ensures Member(t', q) <==> q != p && Member(t, q) { LeaveMembers(t, t'.g, a, l, p, q); }
    }
  }

  lemma JoinedOthers(t0: Table, t: Table, c: nat, k: nat, p: nat)
    requires Placed(t) && MayJoin(t, c, k, p) && SameOthers(t0, t, p)
    ensures SameOthers(t0, Joined(t, c, k, p), p)
  {
    var t' := Joined(t, c, k, p);
    JoinedSlots(t, c, k, p);
    forall q ensures Member(t', q) <==> q == p || Member(t, q) { JoinMembers(t, t'.g, c, k, p, q); }
  }

  // ----- what the operations do, slot by slot

  /** Slot `slot` has a child of `up` called `path`, in which there is nothing, nothing is enabled, and
      the limits are the default ones; elsewhere only numbers of descendants may differ. */
  ghost predicate NewChild(g: Groups, g': Groups, up: nat, slot: nat, path: string) {
    && |g'| == |g| && up < |g| && slot < |g|
    && Fresh(g[up], up, g[slot].procs, path, g'[slot])
    && (forall i :: 0 <= i < |g| && i != slot ==> g'[i] == g[i].(desc := g'[i].desc))
  }

  predicate Fresh(parent: Group, up: nat, procs: seq<Option<nat>>, path: string, h: Group) {
    && h.path == path && h.parent == Some(up) && h.depth == parent.depth + 1 && h.refs == 0
    && h.procs == procs && h.count == 0 && !h.populated && h.desc == 0
    && h.maxDesc == h.maxDepth == h.maxProcs == 64 && h.enabled == {}
    && (forall c: Controller :: c in h.avail <==> c in parent.enabled || (c == CpuSet && up == 0))
  }

  lemma CreatedChild(g: Groups, up: nat, slot: nat, path: string)
    requires Tree(g) && Live(g, up) && Free(g, slot)
    ensures NewChild(g, Created(g, up, slot, path), up, slot, path)
  {
    AncestorsLive(g, up);
  }

  lemma NoneNamed(g: Groups, path: string, n: nat)
    requires path != "" && n <= |g| && forall i: nat :: !First(g, path, i)
    ensures forall i :: 0 <= i < n ==> g[i].path != path
  {
    if n > 0 {
      NoneNamed(g, path, n - 1);
      assert !First(g, path, n - 1);
    }
  }

  /** A path that was not in use leads to the new group. */
  lemma OnlyNamed(g: Groups, g': Groups, up: nat, slot: nat, path: string)
    requires path != "" && NewChild(g, g', up, slot, path) && forall i: nat :: !First(g, path, i)
    ensures First(g', path, slot)
  {
    NoneNamed(g, path, |g|);
  }

  /** No group has more groups below it, or deeper ones, than it allows. */
  ghost predicate WithinLimits(g: Groups) {
    && (forall a: nat :: Live(g, a) ==> g[a].desc <= g[a].maxDesc)
    && (forall a: nat, i: nat :: Live(g, i) && a in Ancestors(g, i) && a < |g| ==>
          g[i].depth - g[a].depth <= g[a].maxDepth)
  }

  lemma CreatedAncestors(t: Table, g': Groups, up: nat, slot: nat, path: string)
    requires Inv(t) && Live(t.g, up) && Free(t.g, slot) && path != "" && g' == Created(t.g, up, slot, path)
    ensures Added(t.g, g', slot, Initialized(t.g[slot], up, t.g[up], path)) && Tree(g') && Live(g', slot)
    ensures Ancestors(g', slot) == {slot} + Ancestors(t.g, up) && slot !in Ancestors(t.g, up)
    ensures forall i: nat :: Live(t.g, i) ==> Ancestors(g', i) == Ancestors(t.g, i)
    ensures forall a :: a in Ancestors(t.g, up) ==> Live(t.g, a) && a < 64 && g'[a].desc == t.g[a].desc + 1
  {
    CreatedSlots(t.g, up, slot, path);
    CreateTree(t.g, g', up, slot, path);
    AncestorsLive(t.g, up);
    AncestorsFrame(t.g, g', up);
    AncestorsStep(g', slot);
    forall i: nat | Live(t.g, i) ensures Ancestors(g', i) == Ancestors(t.g, i) { AncestorsFrame(t.g, g', i); }
  }

  /** cgroup_create respects the limits of all ancestors, and refuses only what would not. */
  lemma LimitsExactly(t: Table, g': Groups, up: nat, slot: nat, path: string)
    requires Inv(t) && Live(t.g, up) && Free(t.g, slot) && path != "" && WithinLimits(t.g)
    requires g' == Created(t.g, up, slot, path)
    ensures WithinLimits(g') <==> !LimitHit(t.g, up)
  {
    CreatedAncestors(t, g', up, slot, path);
    if LimitHit(t.g, up) {
      var a :| a in Ancestors(t.g, up) && a < 64 && AtLimit(t.g, up, a);
      assert Live(g', a) && a in Ancestors(g', slot);
    } else {
      CreateKeepsLimits(t, g', up, slot, path);
    }
  }

  lemma CreateKeepsLimits(t: Table, g': Groups, up: nat, slot: nat, path: string)
    requires Inv(t) && Live(t.g, up) && Free(t.g, slot) && path != "" && WithinLimits(t.g) && !LimitHit(t.g, up)
    requires g' == Created(t.g, up, slot, path)
    ensures WithinLimits(g')
  {
    var g := t.g;
    CreatedSlots(g, up, slot, path);
    CreatedAncestors(t, g', up, slot, path);
    forall a: nat | Live(g', a) ensures g'[a].desc <= g'[a].maxDesc {
      if a != slot && a in Ancestors(g, up) { assert !AtLimit(g, up, a); }
    }
    forall a: nat, i: nat | Live(g', i) && a in Ancestors(g', i) && a < |g'|
      ensures g'[i].depth - g'[a].depth <= g'[a].maxDepth
    {
      if i != slot {
        AncestorsLive(g, i);
      } else if a != slot {
        assert !AtLimit(g, up, a);
      }
    }
  }

  /** The group has lost its path; elsewhere only numbers of descendants may differ. */
  ghost predicate Unnamed(g: Groups, g': Groups, i: nat) {
    && |g'| == |g| && i < |g| && g'[i].path == ""
    && (forall j :: 0 <= j < |g| ==> g'[j] == g[j].(path := g'[j].path, desc := g'[j].desc))
    && (forall j :: 0 <= j < |g| && j != i ==> g'[j].path == g[j].path)
  }

  lemma DeletedUnnamed(g: Groups, i: nat)
    requires i < |g|
    ensures Unnamed(g, Deleted(g, i), i)
  {
  }

  /** Only what group `i` enables, and what its children may, has changed, and only for `c`. */
  ghost predicate OnlyControls(g: Groups, g': Groups, i: nat, c: Controller) {
    && |g'| == |g|
    && (forall j :: 0 <= j < |g| ==> g'[j] == g[j].(enabled := g'[j].enabled, avail := g'[j].avail))
    && (forall j :: 0 <= j < |g| ==> g'[j].enabled - {c} == g[j].enabled - {c} && g'[j].avail - {c} == g[j].avail - {c})
    && (forall j :: 0 <= j < |g| && j != i ==> g'[j].enabled == g[j].enabled)
    && (forall j :: 0 <= j < |g| && (j == 0 || g[j].parent != Some(i)) ==> g'[j].avail == g[j].avail)
  }

  lemma LeftOthers(t: Table, c: nat, k: nat, p: nat)
    requires Inv(t) && MayLeave(t, c, k, p)
    ensures var t' := Left(t, c, k, p);
      SameOthers(t, t', p) && Some(p) !in t'.g[c].procs && p in t'.at && t'.at[p] == 0
  {
    var t' := Left(t, c, k, p);
    LeftSlots(t, c, k, p);
    forall q ensures Member(t', q) <==> q != p && Member(t, q) { LeaveMembers(t, t'.g, c, k, p, q); }
    assert SlotOk(t, c, k);
  }

  /** A group gains at most the process that moved. */
  lemma OneMore(t: Table, t': Table, c: nat, p: nat)
    requires Inv(t) && Inv(t') && SameOthers(t, t', p) && Live(t.g, c)
    ensures t'.g[c].count <= t.g[c].count + 1
  {
    forall q | q in Procs(t', c) && q != p ensures q in Procs(t, c) {
      MemberLive(t, q);
      AncestorsFrame(t.g, t'.g, t.at[q]);
    }
    assert Procs(t', c) <= Procs(t, c) + {p};
    SetSizes(Procs(t', c), Procs(t, c) + {p});
    assert |Procs(t, c) + {p}| <= |Procs(t, c)| + 1;
    assert Live(t'.g, c);
  }

  lemma {:induction false} SetSizes(a: set<nat>, b: set<nat>)
    requires a <= b
    ensures |a| <= |b|
  {
    if a != {} {
      var x :| x in a;
      SetSizes(a - {x}, b - {x});
    }
  }

  // ----- the table

  /** What unsafe_get_cgroup_by_path finds. */
  predicate First(g: Groups, path: string, i: nat) {
    i < |g| && path != "" && g[i].path == path && forall j :: 0 <= j < i ==> g[j].path != path
  }

  predicate Free(g: Groups, i: nat) {
    0 < i < |g| && g[i].path == "" && g[i].refs == 0
  }

  /** umount deletes only the root and unlink anything but the root; no group may be below, and
      no process in it unless it is the root. */
  ghost predicate MayDelete(t: Table, i: nat, kind: string) {
    && (kind == "umount" ==> i == 0) && (kind == "unlink" ==> i != 0)
    && Below(t.g, i) == {} && (i == 0 || Procs(t, i) == {})
  }

  /** cgroup_create's null pointer, its panics, or the new group. */
  datatype CreateResult = NoParent | Panicked | New(slot: nat)

  datatype DeleteResult = BadArgument | BadOperation | Success

  class Cgroups {
    var g: Groups
    var at: map<nat, nat>

    ghost function Value(): Table
      reads this
    {
      Table(g, at)
    }

    /** The zeroed table with its root initialized. */
    constructor ()
      ensures Inv(Value()) && at == map[]
    {
      var none := seq(64, i => None);
      var root := Group("", 0, none, 0, false, None, 0, 64, 64, 0, {Cpu, Pid, CpuSet, Mem}, {Cpu, Pid, Mem}, 64);
      g := [root] + seq(63, i => Group("", 0, none, 0, false, None, 0, 0, 0, 0, {}, {}, 0));
      at := map[];
      new;
      assert Below(g, 0) == {};
      assert Procs(Value(), 0) == {};
    }

    method Lookup(path: string) returns (r: Option<nat>)
      ensures r.Some? ==> First(g, path, r.value)
      ensures r.None? ==> path == "" || forall i :: 0 <= i < |g| ==> g[i].path != path
    {
      if path != "" {
        for i := 0 to |g|
          invariant forall j :: 0 <= j < i ==> g[j].path != path
        {
          if g[i].path == path { return Some(i); }
        }
      }
      return None;
    }

    /** cgroup_create's check of every ancestor. */
    method CheckLimits(up: nat) returns (ok: bool)
      requires Tree(g) && Live(g, up)
      ensures ok <==> !LimitHit(g, up)
    {
      var cur: Option<nat>, i := Some(up), 0;
      AncestorsLive(g, up);
      while cur.Some?
        invariant cur.Some? ==> Live(g, cur.value) && g[cur.value].depth + i == g[up].depth
        invariant cur.Some? ==> Ancestors(g, cur.value) <= Ancestors(g, up)
        invariant forall a :: a in Ancestors(g, up) && (cur.None? || a !in Ancestors(g, cur.value)) && a < |g| ==>
          !AtLimit(g, up, a)
        decreases if cur.Some? then g[cur.value].depth + 1 else 0
      {
        AncestorsLive(g, cur.value);
        if g[cur.value].maxDepth <= i || g[cur.value].maxDesc == g[cur.value].desc {
          assert AtLimit(g, up, cur.value);
          return false;
        }
        AncestorsStep(g, cur.value);
        cur, i := g[cur.value].parent, i + 1;
      }
      return true;
    }

    method FindFree() returns (r: Option<nat>)
      requires |g| == 64
      ensures r.Some? ==> Free(g, r.value) && forall j :: 1 <= j < r.value ==> !Free(g, j)
      ensures r.None? ==> forall j :: 1 <= j < 64 ==> !Free(g, j)
    {
      for i := 1 to 64
        invariant forall j :: 1 <= j < i ==> !Free(g, j)
      {
        if g[i].path == "" && g[i].refs == 0 { return Some(i); }
      }
      return None;
    }

    /** The loop that counts a new or a deleted group in every ancestor. */
    method CountGroup(from: Option<nat>, n: int)
      requires Tree(g) && (from.Some? ==> Live(g, from.value))
      modifies this`g
      ensures g == AddDesc(old(g), if from.Some? then Ancestors(old(g), from.value) else {}, n)
    {
      ghost var g0, todo := g, if from.Some? then Ancestors(g, from.value) else {};
      ghost var seen: set<nat> := {};
      var cur := from;
      while cur.Some?
        invariant Climbing(g0, cur, seen, todo) && g == AddDesc(g0, seen, n)
        decreases if cur.Some? then g0[cur.value].depth + 1 else 0
      {
        ClimbStep(g0, cur.value, seen, todo);
        AddDescStep(g0, seen, n, cur.value);
        var up := g[cur.value].parent;
        g := WithDesc(g, cur.value, n);
        seen := seen + {cur.value};
        cur := up;
      }
    }

    /** The loop that counts a process in a group and every ancestor. */
    method CountProc(from: nat, n: int)
      requires Tree(g) && Live(g, from)
      modifies this`g
      ensures g == AddProcs(old(g), Ancestors(old(g), from), n)
    {
      ghost var g0, todo := g, Ancestors(g, from);
      ghost var seen: set<nat> := {};
      var cur: Option<nat> := Some(from);
      while cur.Some?
        invariant Climbing(g0, cur, seen, todo) && g == AddProcs(g0, seen, n)
        decreases if cur.Some? then g0[cur.value].depth + 1 else 0
      {
        ClimbStep(g0, cur.value, seen, todo);
        AddProcsStep(g0, seen, n, cur.value);
        var up := g[cur.value].parent;
        g := WithCount(g, cur.value, n);
        seen := seen + {cur.value};
        cur := up;
      }
    }

    /** cgroup_create. */
    method Create(parentPath: string, path: string) returns (r: CreateResult)
      requires Inv(Value()) && path != ""
      modifies this`g
      ensures Inv(Value())
      ensures r.New? <==>
        exists up: nat :: First(old(g), parentPath, up) && !LimitHit(old(g), up) && exists s: nat :: Free(old(g), s)
      ensures r.NoParent? <==> forall up: nat :: !First(old(g), parentPath, up)
      ensures !r.New? ==> g == old(g)
      ensures r.New? ==> Free(old(g), r.slot) && forall j: nat :: j < r.slot ==> !Free(old(g), j)
      ensures r.New? ==> exists up: nat ::
        First(old(g), parentPath, up) && g == Created(old(g), up, r.slot, path) && NewChild(old(g), g, up, r.slot, path)
      ensures r.New? && (forall i: nat :: !First(old(g), path, i)) ==> First(g, path, r.slot)
      ensures WithinLimits(old(g)) ==> WithinLimits(g)
    {
      var up := Lookup(parentPath);
      if up.None? { return NoParent; }
      assert First(g, parentPath, up.value) && forall j: nat :: First(g, parentPath, j) ==> j == up.value;
      var ok := CheckLimits(up.value);
      if !ok { return Panicked; }
      var slot := FindFree();
      if slot.None? { return Panicked; }
      ghost var g1, g' := CreateStep(Value(), up.value, slot.value, path);
      ghost var g0 := g;
      AddChild(up.value, slot.value, path, g1);
      assert g == g';
      CreatedChild(g0, up.value, slot.value, path);
      if forall i: nat :: !First(g0, path, i) { OnlyNamed(g0, g, up.value, slot.value, path); }
      if WithinLimits(g0) { CreateKeepsLimits(Table(g0, at), g, up.value, slot.value, path); }
      return New(slot.value);
    }

    /** cgroup_initialize in slot `slot`, and the counting that follows. */
    method AddChild(up: nat, slot: nat, path: string, ghost g1: Groups)
      requires up < |g| && slot < |g| && g1 == WithChild(g, up, slot, path)
      requires Tree(g1) && Live(g1, up)
      modifies this`g
      ensures g == AddDesc(g1, Ancestors(g1, up), 1)
    {
      g := WithChild(g, up, slot, path);
      CountGroup(Some(up), 1);
    }

    /** cgroup_delete. */
    method Delete(path: string, kind: string) returns (r: DeleteResult)
      requires Inv(Value())
      modifies this`g
      ensures Inv(Value())
      ensures r.BadArgument? <==> forall i: nat :: !First(old(g), path, i)
      ensures !r.Success? ==> g == old(g)
      ensures r.Success? <==> exists i: nat :: First(old(g), path, i) && MayDelete(old(Value()), i, kind)
      ensures r.Success? ==> exists i: nat ::
        First(old(g), path, i) && g == Deleted(old(g), i) && Unnamed(old(g), g, i)
    {
      var found := Lookup(path);
      if found.None? { return BadArgument; }
      var i := found.value;
      assert First(g, path, i) && (forall j: nat :: First(g, path, j) ==> j == i) && Live(g, i);
      if kind == "umount" && i != 0 { return BadOperation; }
      if kind == "unlink" && i == 0 { return BadOperation; }
      if g[i].desc != 0 || (g[i].count != 0 && i != 0) { return BadOperation; }
      DeletedUnnamed(g, i);
      RemoveGroup(i);
      return Success;
    }

    method RemoveGroup(i: nat)
      requires Inv(Value()) && Live(g, i) && g[i].desc == 0 && (i == 0 || g[i].count == 0)
      modifies this`g
      ensures Inv(Value()) && g == Deleted(old(g), i)
    {
      ghost var t := Value();
      ghost var g1, g' := DeleteStep(t, i);
      g := WithoutPath(g, i);
      CountGroup(g[i].parent, -1);
    }

    /** Where a process is in a group. */
    method FindProc(c: nat, p: nat) returns (k: Option<nat>)
      requires c < |g|
      ensures k.Some? ==> k.value < |g[c].procs| && g[c].procs[k.value] == Some(p)
      ensures k.None? ==> Some(p) !in g[c].procs
    {
      for i := 0 to |g[c].procs|
        invariant forall j :: 0 <= j < i ==> g[c].procs[j] != Some(p)
      {
        if g[c].procs[i] == Some(p) { return Some(i); }
      }
      return None;
    }

    /** A process slot is written, and the group and its ancestors count it. */
    method SetProc(c: nat, k: nat, x: Option<nat>, n: int, ghost g1: Groups)
      requires c < |g| && k < |g[c].procs| && g1 == WithProc(g, c, k, x)
      requires Tree(g1) && Live(g1, c)
      modifies this`g
      ensures g == AddProcs(g1, Ancestors(g1, c), n)
    {
      g := WithProc(g, c, k, x);
      CountProc(c, n);
    }

    /** unsafe_cgroup_erase. */
    method Erase(c: nat, p: nat)
      requires Inv(Value()) && c < |g|
      modifies this
      ensures Inv(Value())
      ensures Erased(old(Value()), Value(), c, p)
      ensures Some(p) !in g[c].procs && SameOthers(old(Value()), Value(), p)
      ensures if Some(p) in old(g)[c].procs then p in at && at[p] == 0 else Value() == old(Value())
    {
      ghost var t := Value();
      var k := FindProc(c, p);
      if k.Some? {
        assert SlotOk(Value(), c, k.value);
        assert MayLeave(Value(), c, k.value, p);
        ghost var g1, t' := LeaveStep(Value(), c, k.value, p);
        at := at[p := 0];
        SetProc(c, k.value, None, -1, g1);
        assert Value() == t';
        LeftOthers(t, c, k.value, p);
      }
    }

    /** unsafe_cgroup_insert's search: the process itself, or the first free slot. */
    method FindSlot(c: nat, p: nat) returns (there: bool, free: Option<nat>)
      requires c < |g|
      ensures there <==> Some(p) in g[c].procs
      ensures !there && free.Some? ==> free.value < |g[c].procs| && g[c].procs[free.value] == None
      ensures !there && free.None? ==> None !in g[c].procs
    {
      free := None;
      for i := 0 to |g[c].procs|
        invariant forall j :: 0 <= j < i ==> g[c].procs[j] != Some(p)
        invariant free.Some? ==> free.value < |g[c].procs| && g[c].procs[free.value] == None
        invariant free.None? ==> forall j :: 0 <= j < i ==> g[c].procs[j] != None
      {
        if free.None? && g[c].procs[i] == None {
          free := Some(i);
        } else if g[c].procs[i] == Some(p) {
          return true, free;
        }
      }
      return false, free;
    }

    /** unsafe_cgroup_insert into a live group. `memOk` and `protectOk` are its tests on memory. */
    method Insert(c: nat, p: nat, memOk: bool, protectOk: bool) returns (ok: bool)
      requires Inv(Value()) && Live(g, c)
      modifies this
      ensures Inv(Value())
      ensures ok <==> Admits(old(Value()), c, p, memOk, protectOk)
      ensures ok ==> p in at && at[p] == c && Member(Value(), p)
      ensures ok && Pid in g[c].enabled ==> g[c].count <= g[c].maxProcs
      ensures !ok ==> Value() == old(Value())
      ensures SameOthers(old(Value()), Value(), p)
    {
      if Pid in g[c].enabled && g[c].count + 1 > g[c].maxProcs { return false; }
      if Mem in g[c].enabled && !memOk { return false; }
      var there, free := FindSlot(c, p);
      if there { ThereIsMember(Value(), c, p); return true; }
      if free.None? || (p in at && !protectOk) { return false; }
      ghost var t := Value();
      Move(c, free.value, p);
      OneMore(t, Value(), c, p);
      return true;
    }

    /** unsafe_cgroup_insert once nothing can fail any more. */
    method Move(c: nat, k: nat, p: nat)
      requires Inv(Value()) && Live(g, c) && k < 64 && g[c].procs[k] == None && Some(p) !in g[c].procs
      modifies this
      ensures Inv(Value()) && p in at && at[p] == c && Member(Value(), p)
      ensures SameOthers(old(Value()), Value(), p)
    {
      ghost var t := Value();
      if p in at {
        assert at[p] == 0 || Member(t, p);
        Erase(at[p], p);
        ErasedStill(t, Value(), c, k, p);
      }
      JoinedOthers(t, Value(), c, k, p);
      Join(c, k, p);
    }

    /** unsafe_cgroup_insert's last part. */
    method Join(c: nat, k: nat, p: nat)
      requires Inv(Value()) && MayJoin(Value(), c, k, p)
      modifies this
      ensures Inv(Value()) && Member(Value(), p) && Value() == Joined(old(Value()), c, k, p)
    {
      ghost var g1, t' := JoinStep(Value(), c, k, p);
      SetProc(c, k, Some(p), 1, g1);
      at := at[p := c];
      assert Value() == t';
    }

    /** The loop that makes a controller available, or not, in every child. */
    method SetAvailable(i: nat, c: Controller, on: bool)
      requires |g| == 64
      modifies this`g
      ensures g == Offered(old(g), i, c, on, 64)
    {
      for j := 1 to 64
        invariant g == Offered(old(g), i, c, on, j)
      {
        OfferedStep(old(g), i, c, on, j);
        if g[j].parent == Some(i) {
          g := WithOffer(g, j, c, on);
        }
      }
    }

    /** The enable functions; `reserveOk` is the memory controller's reservation of pages. */
    method Enable(i: nat, c: Controller, reserveOk: bool) returns (ok: bool)
      requires Inv(Value()) && Live(g, i)
      modifies this`g
      ensures Inv(Value())
      ensures ok <==> Procs(old(Value()), i) == {} && (c == Mem && c !in old(g)[i].enabled ==> reserveOk)
      ensures g == if ok && c !in old(g)[i].enabled && c in old(g)[i].avail then Enabled(old(g), i, c) else old(g)
      ensures ok && c in old(g)[i].avail ==> c in g[i].enabled
      ensures ok && c in old(g)[i].avail && c !in old(g)[i].enabled ==>
        forall j :: 0 < j < 64 && g[j].parent == Some(i) ==> c in g[j].avail
      ensures OnlyControls(old(g), g, i, c)
    {
      PopulatedExactly(Value(), i);
      if g[i].populated { return false; }
      if c in g[i].enabled { return true; }
      if c == Mem && !reserveOk { return false; }
      if c in g[i].avail {
        ghost var t := Value();
        Switch(i, c, true);
        EnableKeepsInv(t, g, i, c);
      }
      return true;
    }

    /** The disable functions. */
    method Disable(i: nat, c: Controller) returns (ok: bool)
      requires Inv(Value()) && Live(g, i)
      modifies this`g
      ensures Inv(Value())
      ensures ok <==> c !in old(g)[i].enabled || !ChildEnables(old(g), i, c)
      ensures g == if ok && c in old(g)[i].enabled then Disabled(old(g), i, c) else old(g)
      ensures ok ==> c !in g[i].enabled
      ensures ok && c in old(g)[i].enabled ==> forall j :: 0 < j < 64 && g[j].parent == Some(i) ==> c !in g[j].avail
      ensures OnlyControls(old(g), g, i, c)
    {
      if c !in g[i].enabled { return true; }
      var used := ChildUses(i, c);
      if used { return false; }
      ghost var t := Value();
      Switch(i, c, false);
      DisableKeepsInv(t, g, i, c);
      return true;
    }

    /** The controller is switched in the group, and its children follow. */
    method Switch(i: nat, c: Controller, on: bool)
      requires i < |g| == 64
      modifies this`g
      ensures g == if on then Enabled(old(g), i, c) else Disabled(old(g), i, c)
    {
      OfferedEnabled(g, i, c);
      OfferedDisabled(g, i, c);
      g := WithControl(g, i, c, on);
      SetAvailable(i, c, on);
    }

    /** The disable functions' check of the children. */
    method ChildUses(i: nat, c: Controller) returns (used: bool)
      requires |g| == 64
      ensures used <==> ChildEnables(g, i, c)
    {
      for j := 1 to 64
        invariant forall l :: 0 < l < j && g[l].parent == Some(i) ==> c !in g[l].enabled
      {
        if g[j].parent == Some(i) && c in g[j].enabled { return true; }
      }
      return false;
    }

    /** Opening and closing a file of a group: a deleted group keeps its slot while it is open. */
    method Open(i: nat) returns (ok: bool)
      requires Inv(Value()) && i < |g|
      modifies this`g
      ensures Inv(Value()) && (ok <==> old(g)[i].path != "")
      ensures g == if ok then old(g)[i := old(g)[i].(refs := old(g)[i].refs + 1)] else old(g)
    {
      if g[i].path == "" { return false; }
      ghost var t := Value();
      g := g[i := g[i].(refs := g[i].refs + 1)];
      TouchKeepsInv(t, g);
      return true;
    }

    method Close(i: nat)
      requires Inv(Value()) && i < |g| && g[i].refs > 0
      modifies this`g
      ensures Inv(Value()) && g == old(g)[i := old(g)[i].(refs := old(g)[i].refs - 1)]
    {
      ghost var t := Value();
      g := g[i := g[i].(refs := g[i].refs - 1)];
      TouchKeepsInv(t, g);
    }

    /** set_max_descendants_value and set_max_depth_value. */
    method SetLimits(i: nat, maxDesc: nat, maxDepth: nat)
      requires Inv(Value()) && i < |g|
      modifies this`g
      ensures Inv(Value()) && g == old(g)[i := old(g)[i].(maxDesc := maxDesc, maxDepth := maxDepth)]
    {
      ghost var t := Value();
      g := g[i := g[i].(maxDesc := maxDesc, maxDepth := maxDepth)];
      TouchKeepsInv(t, g);
    }

    /** set_max_procs; other limits than 0 to NPROC are ignored. */
    method SetMaxProcs(i: nat, limit: int) returns (changed: bool)
      requires Inv(Value()) && i < |g|
      modifies this`g
      ensures Inv(Value()) && (changed <==> 0 <= limit <= 64)
      ensures g == if changed then old(g)[i := old(g)[i].(maxProcs := limit)] else old(g)
    {
      changed := 0 <= limit <= 64;
      if changed {
        ghost var t := Value();
        g := g[i := g[i].(maxProcs := limit)];
        TouchKeepsInv(t, g);
      }
    }

    /** Mounting the file system names the root. */
    method Mount(path: string)
      requires Inv(Value())
      modifies this`g
      ensures Inv(Value()) && g == old(g)[0 := old(g)[0].(path := if path == "" then old(g)[0].path else path)]
    {
      var root := g[0].(path := if path == "" then g[0].path else path);
      ghost var t := Value();
      g := g[0 := root];
      TouchKeepsInv(t, g);
    }
  }
}
