/** The mount table (kernel/kmount.c) and the lists of active mounts of all mount namespaces.

    A slot of the table is in use when its reference count is not zero. Inodes, superblocks and
    devices are names; their own reference counts are not modelled.
 */
module Kmount {

  import opened Wrappers

  const NMOUNT: nat := 200

  datatype Slot = Slot(
    ref: int,
    parent: Option<nat>,
    mountpoint: Option<nat>,
    isbind: bool,
    source: Option<nat>,      // the bound inode or the superblock
    next: Option<nat>)

  type Slots = seq<Slot>

  /** `lists[n]` is the list of active mounts of namespace `n`; `held[x]` counts the references
      to mount `x` from outside: working directories, open files, calls in progress. */
  datatype State = State(slots: Slots, lists: seq<seq<nat>>, held: seq<nat>)

  // ----- the invariant

  /** How many mounts of a list have `x` as their parent. */
  ghost function Children(slots: Slots, l: seq<nat>, x: nat): nat {
    if l == [] then 0
    else (if l[0] < |slots| && slots[l[0]].parent == Some(x) then 1 else 0) + Children(slots, l[1..], x)
  }

  predicate Later(l: seq<nat>, k: nat, p: Option<nat>) {
    exists j :: k < j < |l| && p == Some(l[j])
  }

  /** Element `k` of a list links to the next one, and its parent is strictly later: the last
      one, and only that, is a root. */
  predicate LinkOk(slots: Slots, l: seq<nat>, k: nat)
    requires k < |l|
  {
    && l[k] < |slots|
    && slots[l[k]].next == (if k + 1 < |l| then Some(l[k + 1]) else None)
    && (if k + 1 == |l| then slots[l[k]].parent == None else Later(l, k, slots[l[k]].parent))
  }

  predicate Distinct(l: seq<nat>) {
    forall i, j :: 0 <= i < j < |l| ==> l[i] != l[j]
  }

  /** The references of a listed mount: one for being mounted, one from every child, and those
      held outside. */
  ghost predicate RefOk(slots: Slots, l: seq<nat>, held: seq<nat>, x: nat) {
    x < |slots| && x < |held| && slots[x].ref == 1 + Children(slots, l, x) + held[x]
  }

  ghost predicate ListOk(slots: Slots, l: seq<nat>, held: seq<nat>) {
    && Distinct(l)
    && (forall k :: 0 <= k < |l| ==> LinkOk(slots, l, k))
    && (forall x :: x in l ==> RefOk(slots, l, held, x))
  }

  ghost predicate Listed(lists: seq<seq<nat>>, x: nat) {
    exists n :: 0 <= n < |lists| && x in lists[n]
  }

  ghost predicate Disjoint(lists: seq<seq<nat>>) {
    forall m, n, x :: 0 <= m < n < |lists| && x in lists[m] ==> x !in lists[n]
  }

  /** A slot in no list is free, held by nobody, and links nowhere. */
  ghost predicate SlotOk(s: State, x: nat)
    requires x < |s.slots| && x < |s.held|
  {
    !Listed(s.lists, x) ==> s.slots[x].ref == 0 && s.slots[x].next == None && s.held[x] == 0
  }

  ghost predicate Inv(s: State) {
    && |s.slots| == |s.held| == NMOUNT
    && Disjoint(s.lists)
    && (forall n :: 0 <= n < |s.lists| ==> ListOk(s.slots, s.lists[n], s.held))
    && (forall x :: 0 <= x < NMOUNT ==> SlotOk(s, x))
  }

  // ----- counting children

  lemma {:induction false} ChildrenConcat(slots: Slots, a: seq<nat>, b: seq<nat>, x: nat)
    ensures Children(slots, a + b, x) == Children(slots, a, x) + Children(slots, b, x)
  {
    if a == [] {
      assert a + b == b;
    } else {
      assert (a + b)[1..] == a[1..] + b;
      ChildrenConcat(slots, a[1..], b, x);
    }
  }

  lemma {:induction false} ChildrenFrame(slots: Slots, slots': Slots, l: seq<nat>, x: nat)
    requires |slots| == |slots'| && forall i :: i in l && i < |slots| ==> slots'[i].parent == slots[i].parent
    ensures Children(slots', l, x) == Children(slots, l, x)
  {
    if l != [] {
      assert l[0] in l;
      assert forall i :: i in l[1..] ==> i in l;
      ChildrenFrame(slots, slots', l[1..], x);
    }
  }

  /** A list none of whose elements changes stays well formed. */
  lemma ListFrame(slots: Slots, slots': Slots, l: seq<nat>, held: seq<nat>, held': seq<nat>)
    requires ListOk(slots, l, held) && |slots'| == |slots| && |held'| == |held|
    requires forall x :: x in l ==> x < |slots| && slots'[x] == slots[x] && x < |held| && held'[x] == held[x]
    ensures ListOk(slots', l, held')
  {
    forall k | 0 <= k < |l| ensures LinkOk(slots', l, k) { assert LinkOk(slots, l, k) && l[k] in l; }
    forall x | x in l ensures RefOk(slots', l, held', x) {
      assert RefOk(slots, l, held, x);
      ChildrenFrame(slots, slots', l, x);
    }
  }

  // ----- mount

  /** A new mount at the front of list `n`. */
  ghost function Mounted(s: State, n: nat, i: nat, parent: nat, at: nat, isbind: bool, source: nat): State
    requires n < |s.lists| && i < |s.slots| && parent < |s.slots|
  {
    var l := s.lists[n];
    var slots1 := s.slots[parent := s.slots[parent].(ref := s.slots[parent].ref + 1)];
    var next := if l == [] then None else Some(l[0]);
    s.(slots := slots1[i := Slot(1, Some(parent), Some(at), isbind, Some(source), next)],
      lists := s.lists[n := [i] + l])
  }

  lemma MountList(slots: Slots, slots': Slots, l: seq<nat>, held: seq<nat>, i: nat, parent: nat)
    requires ListOk(slots, l, held) && i < |slots| == |slots'| && i < |held| && held[i] == 0 && i !in l &&
      parent in l && parent < |slots|
    requires forall x :: x in l ==>
      x < |slots| && slots'[x] == if x == parent then slots[x].(ref := slots[x].ref + 1) else slots[x]
    requires slots'[i].ref == 1 && slots'[i].parent == Some(parent) && slots'[i].next == Some(l[0])
    ensures ListOk(slots', [i] + l, held)
  {
    var l' := [i] + l;
    var p :| 0 <= p < |l| && l[p] == parent;
    forall k | 0 <= k < |l'| ensures LinkOk(slots', l', k) {
      if k == 0 {
        assert l'[p + 1] == parent;
      } else {
        assert LinkOk(slots, l, k - 1) && l[k - 1] in l;
        if k < |l| { MountLater(l, i, k - 1, slots[l[k - 1]].parent); }
      }
    }
    forall x | x in l' ensures RefOk(slots', l', held, x) {
      assert l' == [i] + l && l'[1..] == l;
      ChildrenFrame(slots, slots', l, x);
      if x in l { assert RefOk(slots, l, held, x); } else { NoChildren(slots, l, held, i); }
    }
  }

  lemma MountLater(l: seq<nat>, i: nat, k: nat, p: Option<nat>)
    requires Later(l, k, p)
    ensures Later([i] + l, k + 1, p)
  {
    var j :| k < j < |l| && p == Some(l[j]);
    assert ([i] + l)[j + 1] == l[j];
  }

  /** Only listed mounts have children in the list. */
  lemma NoChildren(slots: Slots, l: seq<nat>, held: seq<nat>, x: nat)
    requires ListOk(slots, l, held) && x !in l
    ensures Children(slots, l, x) == 0
  {
    forall k | 0 <= k < |l| ensures l[k] < |slots| && slots[l[k]].parent != Some(x) { assert LinkOk(slots, l, k); }
    NoneIsChild(slots, l, x);
  }

  lemma {:induction false} NoneIsChild(slots: Slots, l: seq<nat>, x: nat)
    requires forall k :: 0 <= k < |l| ==> l[k] < |slots| && slots[l[k]].parent != Some(x)
    ensures Children(slots, l, x) == 0
  {
    if l != [] { NoneIsChild(slots, l[1..], x); }
  }

  lemma {:induction false} ChildCounts(slots: Slots, l: seq<nat>, x: nat, k: nat)
    requires k < |l| && l[k] < |slots| && slots[l[k]].parent == Some(x)
    ensures Children(slots, l, x) > 0
  {
    if k > 0 { ChildCounts(slots, l[1..], x, k - 1); }
  }

  /** Giving namespace `n` another list, out of its own slots and free ones. */
  lemma ReplaceKeepsInv(s: State, s': State, n: nat)
    requires Inv(s) && n < |s.lists| == |s'.lists| && |s'.slots| == |s'.held| == NMOUNT
    requires forall m :: 0 <= m < |s.lists| && m != n ==> s'.lists[m] == s.lists[m]
    requires ListOk(s'.slots, s'.lists[n], s'.held)
    requires forall x :: x in s'.lists[n] && x !in s.lists[n] ==> !Listed(s.lists, x)
    requires forall x :: 0 <= x < NMOUNT && x !in s'.lists[n] ==>
      if x in s.lists[n] then s'.slots[x].ref == 0 && s'.slots[x].next == None && s'.held[x] == 0
      else s'.slots[x] == s.slots[x] && s'.held[x] == s.held[x]
    ensures Inv(s')
  {
    forall m, x | 0 <= m < |s.lists| && m != n && x in s.lists[m] ensures x !in s.lists[n] && x !in s'.lists[n] {
      assert Listed(s.lists, x);
    }
    forall m | 0 <= m < |s.lists| && m != n ensures ListOk(s'.slots, s.lists[m], s'.held) {
      forall x | x in s.lists[m] ensures x < NMOUNT { assert RefOk(s.slots, s.lists[m], s.held, x); }
      ListFrame(s.slots, s'.slots, s.lists[m], s.held, s'.held);
    }
    forall x: nat | x < NMOUNT ensures SlotOk(s', x) { ReplacedSlot(s, s', n, x); }
  }

  lemma ReplacedSlot(s: State, s': State, n: nat, x: nat)
    requires n < |s.lists| == |s'.lists| && |s.slots| == |s.held| == |s'.slots| == |s'.held| == NMOUNT && x < NMOUNT &&
      SlotOk(s, x)
    requires forall m :: 0 <= m < |s.lists| && m != n ==> s'.lists[m] == s.lists[m]
    requires x !in s'.lists[n] ==>
      if x in s.lists[n] then s'.slots[x].ref == 0 && s'.slots[x].next == None && s'.held[x] == 0
      else s'.slots[x] == s.slots[x] && s'.held[x] == s.held[x]
    ensures SlotOk(s', x)
  {
    if !Listed(s'.lists, x) && x !in s.lists[n] {
      forall m | 0 <= m < |s.lists| ensures x !in s.lists[m] { assert m != n ==> s'.lists[m] == s.lists[m]; }
    }
  }

  /** mount. */
  lemma MountKeepsInv(s: State, n: nat, i: nat, parent: nat, at: nat, isbind: bool, source: nat)
    requires Inv(s) && n < |s.lists| && i < NMOUNT && s.slots[i].ref == 0 && parent in s.lists[n]
    ensures parent < NMOUNT && Inv(Mounted(s, n, i, parent, at, isbind, source))
  {
    var l := s.lists[n];
    FreeNotListed(s, i);
    assert RefOk(s.slots, l, s.held, parent);
    var s' := Mounted(s, n, i, parent, at, isbind, source);
    forall x | x in l ensures x < NMOUNT { assert RefOk(s.slots, l, s.held, x); }
    MountList(s.slots, s'.slots, l, s.held, i, parent);
    ReplaceKeepsInv(s, s', n);
  }

  lemma FreeNotListed(s: State, i: nat)
    requires Inv(s) && i < NMOUNT && s.slots[i].ref == 0
    ensures !Listed(s.lists, i) && s.slots[i].next == None && s.held[i] == 0
  {
    forall n | 0 <= n < |s.lists| ensures i !in s.lists[n] {
      assert ListOk(s.slots, s.lists[n], s.held);
      assert i in s.lists[n] ==> RefOk(s.slots, s.lists[n], s.held, i);
    }
    assert SlotOk(s, i);
  }

  // ----- references from outside

  /** mntdup and mntput. */
  ghost function Held(s: State, x: nat, d: int): State
    requires x < |s.slots| && x < |s.held| && s.held[x] + d >= 0
  {
    s.(slots := s.slots[x := s.slots[x].(ref := s.slots[x].ref + d)], held := s.held[x := s.held[x] + d])
  }

  lemma HeldKeepsInv(s: State, x: nat, d: int)
    requires Inv(s) && x < NMOUNT && Listed(s.lists, x) && s.held[x] + d >= 0
    ensures Inv(Held(s, x, d))
  {
    var n :| 0 <= n < |s.lists| && x in s.lists[n];
    var s', l := Held(s, x, d), s.lists[n];
    forall k | 0 <= k < |l| ensures LinkOk(s'.slots, l, k) { assert LinkOk(s.slots, l, k); }
    forall y | y in l ensures RefOk(s'.slots, l, s'.held, y) {
      assert RefOk(s.slots, l, s.held, y);
      ChildrenFrame(s.slots, s'.slots, l, y);
    }
    ReplaceKeepsInv(s, s', n);
  }

  // ----- umount

  /** The mount at position `k` of list `n` is gone. */
  ghost function Unmounted(s: State, n: nat, k: nat): State
    requires n < |s.lists| && k < |s.lists[n]| && s.lists[n][k] < |s.slots| && s.lists[n][k] < |s.held|
  {
    var l := s.lists[n];
    var x := l[k];
    var slots1 :=
      if k > 0 && l[k - 1] < |s.slots| then s.slots[l[k - 1] := s.slots[l[k - 1]].(next := s.slots[x].next)]
      else s.slots;
    var p := s.slots[x].parent;
    var slots2 :=
      if p.Some? && p.value < |s.slots| then slots1[p.value := slots1[p.value].(ref := slots1[p.value].ref - 1)]
      else slots1;
    State(slots2[x := slots2[x].(source := None, mountpoint := None, ref := 0, next := None)],
          s.lists[n := l[..k] + l[k + 1..]], s.held[x := 0])
  }

  /** umount succeeds only on a mount that is not a root, has no children, and is held by the
      caller alone. */
  ghost predicate MayUnmount(s: State, n: nat, k: nat) {
    && n < |s.lists| && k + 1 < |s.lists[n]|
    && var x := s.lists[n][k];
       x < |s.held| && Children(s.slots, s.lists[n], x) == 0 && s.held[x] == 1
  }

  lemma Removed(l: seq<nat>, k: nat, x: nat)
    requires Distinct(l) && k < |l|
    ensures x in l[..k] + l[k + 1..] <==> x in l && x != l[k]
  {
    var l' := l[..k] + l[k + 1..];
    if x in l && x != l[k] {
      var i :| 0 <= i < |l| && l[i] == x;
      assert if i < k then l'[i] == x else l'[i - 1] == x;
    }
  }

  /** The other mounts keep their parents, and the one before skips the one that goes. */
  predicate Relinked(slots: Slots, slots': Slots, l: seq<nat>, k: nat) {
    && |slots| == |slots'| && k < |l| && l[k] < |slots|
    && forall j :: 0 <= j < |l| && j != k ==>
        && l[j] < |slots|
        && slots'[l[j]].parent == slots[l[j]].parent
        && slots'[l[j]].next == (if j + 1 == k then slots[l[k]].next else slots[l[j]].next)
  }

  lemma UnmountLinks(slots: Slots, slots': Slots, l: seq<nat>, k: nat, i: nat)
    requires Distinct(l) && k + 1 < |l| && i + 1 < |l| && Relinked(slots, slots', l, k) && Children(slots, l, l[k]) == 0
    requires LinkOk(slots, l, if i < k then i else i + 1) && LinkOk(slots, l, k)
    ensures LinkOk(slots', l[..k] + l[k + 1..], i)
  {
    var l' := l[..k] + l[k + 1..];
    var j := if i < k then i else i + 1;
    assert l'[i] == l[j] && (i + 2 < |l| ==> l'[i + 1] == if i + 1 < k then l[i + 1] else l[i + 2]);
    if j + 1 < |l| { UnmountParent(slots, l, k, j); }
  }

  lemma UnmountParent(slots: Slots, l: seq<nat>, k: nat, j: nat)
    requires k < |l| && j < |l| && j != k && l[j] < |slots| && Later(l, j, slots[l[j]].parent) &&
      Children(slots, l, l[k]) == 0
    ensures Later(l[..k] + l[k + 1..], if j < k then j else j - 1, slots[l[j]].parent)
  {
    var l' := l[..k] + l[k + 1..];
    var q :| j < q < |l| && slots[l[j]].parent == Some(l[q]);
    if q == k { ChildCounts(slots, l, l[k], j); }
    assert l'[if q < k then q else q - 1] == l[q];
  }

  lemma UnmountList(s: State, s': State, n: nat, k: nat)
    requires Inv(s) && MayUnmount(s, n, k) && s.lists[n][k] < NMOUNT && s' == Unmounted(s, n, k)
    ensures ListOk(s'.slots, s'.lists[n], s'.held)
  {
    var l := s.lists[n];
    var l' := l[..k] + l[k + 1..];
    UnmountSlots(s, s', n, k);
    forall i | 0 <= i < |l'| ensures LinkOk(s'.slots, l', i) {
      assert LinkOk(s.slots, l, if i < k then i else i + 1) && LinkOk(s.slots, l, k);
      UnmountLinks(s.slots, s'.slots, l, k, i);
    }
    forall y | y in l' ensures RefOk(s'.slots, l', s'.held, y) {
      Removed(l, k, y);
      assert RefOk(s.slots, l, s.held, y);
      UnmountChildren(s.slots, s'.slots, l, k, y);
    }
  }

  lemma UnmountSlots(s: State, s': State, n: nat, k: nat)
    requires |s.slots| == |s.held| == NMOUNT && n < |s.lists| && k < |s.lists[n]| && Distinct(s.lists[n])
    requires forall j :: 0 <= j < |s.lists[n]| ==> LinkOk(s.slots, s.lists[n], j)
    requires s.lists[n][k] < NMOUNT && s' == Unmounted(s, n, k)
    ensures Relinked(s.slots, s'.slots, s.lists[n], k) && |s'.held| == NMOUNT
    ensures forall y :: 0 <= y < NMOUNT && y != s.lists[n][k] ==>
      s'.slots[y].parent == s.slots[y].parent && s'.held[y] == s.held[y] &&
      s'.slots[y].ref == s.slots[y].ref - if s.slots[s.lists[n][k]].parent == Some(y) then 1 else 0
  {
    var l := s.lists[n];
    forall j | 0 <= j < |l| && j != k ensures l[j] != l[k] && l[j] < NMOUNT { assert LinkOk(s.slots, l, j); }
  }

  lemma UnmountChildren(slots: Slots, slots': Slots, l: seq<nat>, k: nat, y: nat)
    requires Relinked(slots, slots', l, k)
    ensures Children(slots', l[..k] + l[k + 1..], y) ==
            Children(slots, l, y) - if slots[l[k]].parent == Some(y) then 1 else 0
  {
    forall i | i in l[..k] + l[k + 1..] ensures i < |slots| && slots'[i].parent == slots[i].parent {
      var j :| 0 <= j < |l| && j != k && l[j] == i;
    }
    ChildrenFrame(slots, slots', l[..k] + l[k + 1..], y);
    ChildrenConcat(slots, l[..k], l[k + 1..], y);
    ChildrenConcat(slots, l[..k], l[k..], y);
    assert l == l[..k] + l[k..] && l[k..][1..] == l[k + 1..];
  }

  /** umount. */
  lemma UnmountKeepsInv(s: State, s': State, n: nat, k: nat)
    requires Inv(s) && MayUnmount(s, n, k) && s.lists[n][k] < NMOUNT && s' == Unmounted(s, n, k)
    ensures Inv(s')
  {
    var l := s.lists[n];
    assert LinkOk(s.slots, l, k);
    UnmountList(s, s', n, k);
    forall x | x in s'.lists[n] ensures x in l { Removed(l, k, x); }
    UnmountOthers(s, n, k);
    ReplaceKeepsInv(s, s', n);
  }

  lemma UnmountOthers(s: State, n: nat, k: nat)
    requires Inv(s) && MayUnmount(s, n, k) && s.lists[n][k] < NMOUNT
    ensures var s' := Unmounted(s, n, k);
      |s'.slots| == |s'.held| == NMOUNT &&
      forall x :: 0 <= x < NMOUNT && x !in s'.lists[n] ==>
        if x in s.lists[n] then s'.slots[x].ref == 0 && s'.slots[x].next == None && s'.held[x] == 0
        else s'.slots[x] == s.slots[x] && s'.held[x] == s.held[x]
  {
    var l, s' := s.lists[n], Unmounted(s, n, k);
    assert LinkOk(s.slots, l, k);
    forall x | 0 <= x < NMOUNT && x !in s'.lists[n] && x in l ensures x == l[k] { Removed(l, k, x); }
    assert k > 0 ==> l[k - 1] in l;
  }

  // ----- cloning a namespace

  ghost function Pos(l: seq<nat>, x: nat): (k: nat)
    requires x in l
    ensures k < |l| && l[k] == x
  {
    if l[0] == x then 0 else 1 + Pos(l[1..], x)
  }

  /** The copy of a parent pointer: the slot at the same position of the new list. */
  ghost function CopyOf(l: seq<nat>, copy: seq<nat>, p: Option<nat>): Option<nat>
    requires |copy| == |l|
  {
    if p.None? || p.value !in l then None else Some(copy[Pos(l, p.value)])
  }

  ghost predicate Fresh(slots: Slots, copy: seq<nat>) {
    Distinct(copy) && forall x :: x in copy ==> x < |slots| && slots[x].ref == 0
  }

  function NextOf(l: seq<nat>, k: nat): Option<nat> {
    if k + 1 < |l| then Some(l[k + 1]) else None
  }

  /** Entry `k` of the new list: the old one's contents, no parent yet, linked in the same order. */
  predicate CopiedAt(slots: Slots, slots': Slots, l: seq<nat>, copy: seq<nat>, k: nat)
    requires k < |copy| && k < |l|
  {
    && l[k] < |slots| && copy[k] < |slots'|
    && slots'[copy[k]] == Slot(1, None, slots[l[k]].mountpoint, slots[l[k]].isbind, slots[l[k]].source, NextOf(copy, k))
  }

  /** shallowcopyactivemounts after `|copy|` entries. */
  ghost predicate ShallowCopy(slots: Slots, slots': Slots, l: seq<nat>, copy: seq<nat>) {
    && |slots'| == |slots| && |copy| <= |l| && Fresh(slots, copy)
    && (forall x :: 0 <= x < |slots| && x !in copy ==> slots'[x] == slots[x])
    && (forall k :: 0 <= k < |copy| ==> CopiedAt(slots, slots', l, copy, k))
  }

  /** Entry `k` once `i` parents are fixed: its own by position, and the children counted in it. */
  ghost predicate FixedAt(slots: Slots, slots': Slots, l: seq<nat>, copy: seq<nat>, i: nat, k: nat)
    requires k < |l| == |copy| && i <= |l|
  {
    && l[k] < |slots| && copy[k] < |slots'|
    && slots'[copy[k]] ==
       Slot(1 + Children(slots, l[..i], l[k]), if k < i then CopyOf(l, copy, slots[l[k]].parent) else None,
            slots[l[k]].mountpoint, slots[l[k]].isbind, slots[l[k]].source, NextOf(copy, k))
  }

  /** The new list once `i` entries have their parents by position. */
  ghost predicate Fixed(slots: Slots, slots': Slots, l: seq<nat>, copy: seq<nat>, i: nat) {
    && |slots'| == |slots| && i <= |l| == |copy| && Fresh(slots, copy)
    && (forall x :: 0 <= x < |slots| && x !in copy ==> slots'[x] == slots[x])
    && (forall k :: 0 <= k < |l| ==> FixedAt(slots, slots', l, copy, i, k))
  }

  /** With all parents by position the new list is the old one renamed. */
  lemma CloneList(slots: Slots, slots': Slots, l: seq<nat>, copy: seq<nat>, held: seq<nat>)
    requires ListOk(slots, l, held) && Fixed(slots, slots', l, copy, |l|) && |held| == |slots|
    requires forall x :: x in copy ==> x < |held| && held[x] == 0
    ensures ListOk(slots', copy, held)
  {
    assert l[..|l|] == l;
    forall k | 0 <= k < |copy| ensures LinkOk(slots', copy, k) {
      assert LinkOk(slots, l, k) && FixedAt(slots, slots', l, copy, |l|, k);
      if k + 1 < |l| { CopyLater(l, copy, k, slots[l[k]].parent); }
    }
    forall x | x in copy ensures RefOk(slots', copy, held, x) {
      var k :| 0 <= k < |copy| && copy[k] == x;
      assert copy[0..] == copy && l[0..] == l;
      assert FixedAt(slots, slots', l, copy, |l|, k);
      CloneChildren(slots, slots', l, copy, held, k, 0);
    }
  }

  lemma CopyLater(l: seq<nat>, copy: seq<nat>, k: nat, p: Option<nat>)
    requires Distinct(l) && |copy| == |l| && Later(l, k, p)
    ensures Later(copy, k, CopyOf(l, copy, p))
  {
    var j :| k < j < |l| && p == Some(l[j]);
    assert Pos(l, l[j]) == j;
  }

  lemma {:induction false} CloneChildren(slots: Slots, slots': Slots, l: seq<nat>, copy: seq<nat>, held: seq<nat>,
                                         k: nat, i: nat)
    requires ListOk(slots, l, held) && Fixed(slots, slots', l, copy, |l|) && k < |l| && i <= |l|
    ensures Children(slots', copy[i..], copy[k]) == Children(slots, l[i..], l[k])
    decreases |l| - i
  {
    if i < |l| {
      assert copy[i..][1..] == copy[i + 1..] && l[i..][1..] == l[i + 1..] && l[i..][0] == l[i] &&
        copy[i..][0] == copy[i];
      CloneChildren(slots, slots', l, copy, held, k, i + 1);
      assert FixedAt(slots, slots', l, copy, |l|, i) && LinkOk(slots, l, i);
      CopiedParent(l, copy, slots[l[i]].parent, k);
    }
  }

  lemma CopiedParent(l: seq<nat>, copy: seq<nat>, p: Option<nat>, k: nat)
    requires |l| == |copy| && Distinct(l) && Distinct(copy) && k < |l| && (p.Some? ==> p.value in l)
    ensures CopyOf(l, copy, p) == Some(copy[k]) <==> p == Some(l[k])
  {
    if p.Some? {
      var j := Pos(l, p.value);
      assert Pos(l, l[k]) == k;
    }
  }

  /** A namespace that was empty gets the copy of another one's mounts, of which there are at
      most two: only then do all parents end up at their positions (`WalkStaysInside`). */
  lemma CloneKeepsInv(s: State, s': State, n: nat, m: nat, copy: seq<nat>)
    requires Inv(s) && n < |s.lists| && m < |s.lists| && s.lists[m] == [] && |s.lists[n]| <= 2
    requires Fixed(s.slots, s'.slots, s.lists[n], copy, |s.lists[n]|)
    requires s'.lists == s.lists[m := copy] && s'.held == s.held
    ensures Inv(s')
  {
    forall x | x in copy ensures x < NMOUNT && !Listed(s.lists, x) && s.held[x] == 0 { FreeNotListed(s, x); }
    assert ListOk(s.slots, s.lists[n], s.held);
    CloneList(s.slots, s'.slots, s.lists[n], copy, s.held);
    ReplaceKeepsInv(s, s', m);
  }

  // ----- where fixparents looks for a parent

  /** The parent that fixparents finds for entry `k`. Its walk over the old list starts at the
      head, but the one over the new list starts at the entry's own copy. */
  ghost function WalkedTo(slots: Slots, l: seq<nat>, copy: seq<nat>, k: nat): Option<nat>
    requires k < |l| && l[k] < |slots|
  {
    var p := slots[l[k]].parent;
    if p.None? || p.value !in l then None else At(copy, k + Pos(l, p.value))
  }

  /** The walk of entry `k`, if it has a parent, ends inside the new list. */
  ghost predicate StaysInside(slots: Slots, l: seq<nat>, copy: seq<nat>, k: nat)
    requires k < |l|
  {
    l[k] < |slots| && (slots[l[k]].parent == None || WalkedTo(slots, l, copy, k).Some?)
  }

  /** It ends at the slot at the position of the old parent. */
  ghost predicate FindsParent(slots: Slots, l: seq<nat>, copy: seq<nat>, k: nat)
    requires k < |l| == |copy|
  {
    l[k] < |slots| && WalkedTo(slots, l, copy, k) == CopyOf(l, copy, slots[l[k]].parent)
  }

  /** The parent found is the copy of the old one exactly for the first entry and for the root. */
  lemma WalkIsRight(slots: Slots, l: seq<nat>, copy: seq<nat>, k: nat)
    requires Distinct(l) && Distinct(copy) && |copy| == |l| && k < |l| && LinkOk(slots, l, k)
    ensures FindsParent(slots, l, copy, k) <==> k == 0 || k + 1 == |l|
  {
    if k + 1 < |l| {
      var j :| k < j < |l| && slots[l[k]].parent == Some(l[j]);
      assert Pos(l, l[j]) == j;
      assert k + j < |l| && k > 0 ==> copy[j] != copy[k + j];
    }
  }

  /** The last entry but one has the last as its parent, so from the third mount on its walk
      leaves the new list. */
  lemma LastWalkLeaves(slots: Slots, l: seq<nat>, copy: seq<nat>)
    requires Distinct(l) && |copy| == |l| >= 2 && LinkOk(slots, l, |l| - 2)
    ensures StaysInside(slots, l, copy, |l| - 2) <==> |l| == 2
  {
    var k := |l| - 2;
    var j :| k < j < |l| && slots[l[k]].parent == Some(l[j]);
    assert Pos(l, l[j]) == |l| - 1;
  }

  lemma WalkAt(slots: Slots, l: seq<nat>, copy: seq<nat>, k: nat)
    requires Distinct(l) && |copy| == |l| && k < |l| && LinkOk(slots, l, k)
    ensures |l| <= 2 ==> StaysInside(slots, l, copy, k)
    ensures |l| > 2 && k == |l| - 2 ==> !StaysInside(slots, l, copy, k)
  {
    if k + 2 == |l| { LastWalkLeaves(slots, l, copy); }
  }

  /** fixparents stays inside the new list, and finds every parent by position, exactly when
      there are at most two mounts. */
  lemma WalkStaysInside(slots: Slots, l: seq<nat>, copy: seq<nat>)
    requires Distinct(l) && Distinct(copy) && |copy| == |l| && forall k :: 0 <= k < |l| ==> LinkOk(slots, l, k)
    ensures (forall k :: 0 <= k < |l| ==> StaysInside(slots, l, copy, k)) <==> |l| <= 2
    ensures (forall k :: 0 <= k < |l| ==> FindsParent(slots, l, copy, k)) <==> |l| <= 2
  {
    forall k | 0 <= k < |l| && |l| <= 2 ensures StaysInside(slots, l, copy, k) && FindsParent(slots, l, copy, k) {
      assert LinkOk(slots, l, k);
      WalkIsRight(slots, l, copy, k);
    }
    if |l| > 2 {
      assert LinkOk(slots, l, |l| - 2);
      LastWalkLeaves(slots, l, copy);
      WalkIsRight(slots, l, copy, |l| - 2);
      assert !StaysInside(slots, l, copy, |l| - 2) && !FindsParent(slots, l, copy, |l| - 2);
    }
  }

  /** fixparents after `i` entries, wherever its walks ended: the new list is still linked in
      order, and nothing but its slots has changed. */
  ghost predicate Walked(slots: Slots, slots': Slots, l: seq<nat>, copy: seq<nat>, i: nat) {
    && |slots'| == |slots| && i <= |l| == |copy| && Fresh(slots, copy)
    && (forall x :: 0 <= x < |slots| && x !in copy ==> slots'[x] == slots[x])
    && Chained(slots', copy)
    && (forall k :: 0 <= k < |l| ==> WalkedAt(slots, slots', l, copy, i, k))
  }

  ghost predicate WalkedAt(slots: Slots, slots': Slots, l: seq<nat>, copy: seq<nat>, i: nat, k: nat)
    requires k < |l| == |copy|
  {
    && l[k] < |slots| && copy[k] < |slots'|
    && slots'[copy[k]].parent == (if k < i then WalkedTo(slots, l, copy, k) else None)
    && (k < i ==> StaysInside(slots, l, copy, k))
  }

  // ----- the steps of the two copying loops

  function At(l: seq<nat>, k: nat): Option<nat> {
    if k < |l| then Some(l[k]) else None
  }

  /** A new entry: everything of the old one but its links. */
  function Entry(e: Slot, into: Slot): Slot {
    Slot(1, None, e.mountpoint, e.isbind, e.source, into.next)
  }

  function LinkAfter(slots: Slots, prev: Option<nat>, x: nat): Slots {
    if prev.Some? && prev.value < |slots| then slots[prev.value := slots[prev.value].(next := Some(x))] else slots
  }

  /** Element `k` of a list in use. */
  predicate UsedLink(slots: Slots, l: seq<nat>, k: nat)
    requires k < |l|
  {
    LinkOk(slots, l, k) && slots[l[k]].ref > 0
  }

  ghost predicate FreeUnlinked(slots: Slots) {
    forall x :: 0 <= x < |slots| && slots[x].ref == 0 ==> slots[x].next == None
  }

  /** How many slots are free. */
  ghost function Unused(slots: Slots): nat {
    if slots == [] then 0 else (if slots[0].ref == 0 then 1 else 0) + Unused(slots[1..])
  }

  lemma {:induction false} UnusedUpdate(slots: Slots, x: nat, y: Slot)
    requires x < |slots|
    ensures Unused(slots[x := y]) + (if slots[x].ref == 0 then 1 else 0) ==
      Unused(slots) + (if y.ref == 0 then 1 else 0)
  {
    if x == 0 {
      assert slots[x := y][1..] == slots[1..];
    } else {
      assert slots[x := y][1..] == slots[1..][x - 1 := y];
      UnusedUpdate(slots[1..], x - 1, y);
    }
  }

  lemma {:induction false} NoneUnused(slots: Slots)
    requires forall x :: 0 <= x < |slots| ==> slots[x].ref != 0
    ensures Unused(slots) == 0
  {
    if slots != [] { NoneUnused(slots[1..]); }
  }

  lemma {:induction false} AllUnused(slots: Slots)
    requires forall x :: 0 <= x < |slots| ==> slots[x].ref == 0
    ensures Unused(slots) == |slots|
  {
    if slots != [] { AllUnused(slots[1..]); }
  }

  lemma MountTakesSlot(s: State, n: nat, i: nat, parent: nat, at: nat, isbind: bool, source: nat)
    requires n < |s.lists| && i < |s.slots| && parent < |s.slots| && s.slots[i].ref == 0 && s.slots[parent].ref > 0
    ensures Unused(Mounted(s, n, i, parent, at, isbind, source).slots) + 1 == Unused(s.slots)
  {
    var slots1 := s.slots[parent := s.slots[parent].(ref := s.slots[parent].ref + 1)];
    UnusedUpdate(s.slots, parent, slots1[parent]);
    UnusedUpdate(slots1, i, Mounted(s, n, i, parent, at, isbind, source).slots[i]);
  }

  /** A new entry takes one free slot. */
  lemma EntryTakesSlot(slots: Slots, prev: Option<nat>, x: nat, y: Slot)
    requires x < |slots| && slots[x].ref == 0 && y.ref == 1
    ensures Unused(LinkAfter(slots[x := y], prev, x)) + 1 == Unused(slots)
  {
    UnusedUpdate(slots, x, y);
    var slots1 := slots[x := y];
    if prev.Some? && prev.value < |slots| {
      UnusedUpdate(slots1, prev.value, slots1[prev.value].(next := Some(x)));
    }
  }

  lemma ShallowStep(slots: Slots, slots1: Slots, slots2: Slots, l: seq<nat>, copy: seq<nat>, x: nat)
    requires ShallowCopy(slots, slots1, l, copy) && |copy| < |l| && l[|copy|] < |slots| && slots[l[|copy|]].ref > 0
    requires FreeUnlinked(slots) && x < |slots| && slots1[x].ref == 0
    requires slots2 == LinkAfter(slots1[x := Entry(slots1[l[|copy|]], slots1[x])], LastOf(copy), x)
    ensures ShallowCopy(slots, slots2, l, copy + [x])
  {
    var n, copy' := |copy|, copy + [x];
    forall k | 0 <= k < n ensures copy[k] != x && copy[k] < |slots| {
      assert CopiedAt(slots, slots1, l, copy, k) && copy[k] in copy;
    }
    assert l[n] !in copy;
    forall k | 0 <= k <= n ensures CopiedAt(slots, slots2, l, copy', k) {
      assert k < n ==> CopiedAt(slots, slots1, l, copy, k);
    }
  }

  /** fixparents' two assignments: the new entry gets its parent, which counts it. */
  function FixEntry(slots: Slots, entry: nat, parent: nat): Slots
    requires entry < |slots| && parent < |slots|
  {
    var slots1 := slots[parent := slots[parent].(ref := slots[parent].ref + 1)];
    slots1[entry := slots1[entry].(parent := Some(parent))]
  }

  lemma FixStep(slots: Slots, slots1: Slots, l: seq<nat>, copy: seq<nat>, i: nat, j: nat)
    requires Fixed(slots, slots1, l, copy, i) && i < j < |l| && Distinct(l) && l[i] < |slots| &&
      slots[l[i]].parent == Some(l[j])
    ensures copy[i] in copy && copy[j] in copy && Fixed(slots, FixEntry(slots1, copy[i], copy[j]), l, copy, i + 1)
  {
    assert copy[i] in copy && copy[j] in copy;
    var n, slots2 := i + 1, FixEntry(slots1, copy[i], copy[j]);
    forall k | 0 <= k < |l| ensures FixedAt(slots, slots2, l, copy, n, k) {
      assert FixedAt(slots, slots1, l, copy, i, k);
      FixStepAt(slots, slots1, l, copy, i, j, k);
    }
  }

  lemma FixStepAt(slots: Slots, slots1: Slots, l: seq<nat>, copy: seq<nat>, i: nat, j: nat, k: nat)
    requires |copy| == |l| && i < j < |l| && Distinct(l) && Distinct(copy) && l[i] < |slots| &&
      slots[l[i]].parent == Some(l[j])
    requires copy[i] < |slots1| && copy[j] < |slots1| && k < |l| && FixedAt(slots, slots1, l, copy, i, k)
    ensures FixedAt(slots, FixEntry(slots1, copy[i], copy[j]), l, copy, i + 1, k)
  {
    ChildrenPrefix(slots, l, i, l[k]);
    assert Pos(l, l[j]) == j;
    assert copy[k] == copy[j] <==> k == j;
    assert l[k] == l[j] <==> k == j;
    assert copy[k] == copy[i] <==> k == i;
  }

  lemma FixRoot(slots: Slots, slots1: Slots, l: seq<nat>, copy: seq<nat>, i: nat)
    requires Fixed(slots, slots1, l, copy, i) && i < |l| && l[i] < |slots| && slots[l[i]].parent == None
    ensures Fixed(slots, slots1, l, copy, i + 1)
  {
    var n := i + 1;
    forall k | 0 <= k < |l| ensures FixedAt(slots, slots1, l, copy, n, k) {
      assert FixedAt(slots, slots1, l, copy, i, k);
      ChildrenPrefix(slots, l, i, l[k]);
    }
  }

  lemma ChildrenPrefix(slots: Slots, l: seq<nat>, i: nat, x: nat)
    requires i < |l|
    ensures Children(slots, l[..i + 1], x) ==
            Children(slots, l[..i], x) + if l[i] < |slots| && slots[l[i]].parent == Some(x) then 1 else 0
  {
    assert l[..i + 1] == l[..i] + [l[i]] && [l[i]][1..] == [];
    ChildrenConcat(slots, l[..i], [l[i]], x);
  }

  // ----- the table

  /** Some mount of the list is at mount point `at` of `parent`. */
  predicate Taken(slots: Slots, l: seq<nat>, parent: nat, at: nat) {
    exists x :: x in l && x < |slots| && slots[x].parent == Some(parent) && slots[x].mountpoint == Some(at)
  }

  /** The next pointers follow the list. */
  ghost predicate Chained(slots: Slots, l: seq<nat>) {
    forall k :: 0 <= k < |l| ==> ChainedAt(slots, l, k)
  }

  predicate ChainedAt(slots: Slots, l: seq<nat>, k: nat)
    requires k < |l|
  {
    l[k] < |slots| && slots[l[k]].next == NextOf(l, k)
  }

  lemma BothLists(slots: Slots, slots': Slots, l: seq<nat>, copy: seq<nat>, i: nat)
    requires Walked(slots, slots', l, copy, i) && forall k :: 0 <= k < |l| ==> UsedLink(slots, l, k)
    ensures Chained(slots', l)
    ensures i < |l| ==> l[i] < |slots| && slots'[l[i]] == slots[l[i]]
  {
    forall k | 0 <= k < |l| ensures ChainedAt(slots', l, k) && slots'[l[k]] == slots[l[k]] {
      assert UsedLink(slots, l, k) && l[k] !in copy;
    }
  }

  /** One entry: its parent is where the walk ended. */
  lemma WalkStep(slots: Slots, slots1: Slots, l: seq<nat>, copy: seq<nat>, i: nat, j: nat)
    requires Walked(slots, slots1, l, copy, i) && i < |l| && j < |l| && Distinct(l) && l[i] < |slots|
    requires slots[l[i]].parent == Some(l[j]) && i + j < |l|
    ensures copy[i] in copy && copy[i + j] in copy
    ensures Walked(slots, FixEntry(slots1, copy[i], copy[i + j]), l, copy, i + 1)
  {
    var n, q := i + 1, i + j;
    assert copy[i] in copy && copy[q] in copy;
    assert Pos(l, l[j]) == j;
    var slots2 := FixEntry(slots1, copy[i], copy[q]);
    forall k | 0 <= k < |copy| ensures ChainedAt(slots2, copy, k) { assert ChainedAt(slots1, copy, k); }
    forall k | 0 <= k < |l| ensures WalkedAt(slots, slots2, l, copy, n, k) {
      assert WalkedAt(slots, slots1, l, copy, i, k) && (copy[k] == copy[i] <==> k == i);
    }
  }

  lemma WalkRoot(slots: Slots, slots1: Slots, l: seq<nat>, copy: seq<nat>, i: nat)
    requires Walked(slots, slots1, l, copy, i) && i < |l| && l[i] < |slots| && slots[l[i]].parent == None
    ensures Walked(slots, slots1, l, copy, i + 1)
  {
    var n := i + 1;
    forall k | 0 <= k < |l| ensures WalkedAt(slots, slots1, l, copy, n, k) {
      assert WalkedAt(slots, slots1, l, copy, i, k);
    }
  }

  lemma FixStart(slots: Slots, slots': Slots, l: seq<nat>, copy: seq<nat>)
    requires ShallowCopy(slots, slots', l, copy) && |copy| == |l|
    ensures Fixed(slots, slots', l, copy, 0) && Walked(slots, slots', l, copy, 0)
  {
    forall k | 0 <= k < |l|
      ensures FixedAt(slots, slots', l, copy, 0, k) && WalkedAt(slots, slots', l, copy, 0, k) &&
        ChainedAt(slots', copy, k)
    {
      assert CopiedAt(slots, slots', l, copy, k);
    }
  }

  lemma CopyListed(s: State, lists: seq<seq<nat>>, m: nat, copy: seq<nat>, k: nat, x: nat)
    requires Inv(s) && m < |lists| && lists[m] == [] && s.lists == lists[m := copy] && k < |copy| && Listed(lists, x)
    ensures copy[k] < NMOUNT && Listed(s.lists, copy[k]) && Listed(s.lists, x) && copy[k] != x
  {
    var n :| 0 <= n < |lists| && x in lists[n];
    assert n != m && s.lists[n] == lists[n];
    assert s.lists[m] == copy && ListOk(s.slots, s.lists[m], s.held);
    assert LinkOk(s.slots, copy, k) && copy[k] in s.lists[m];
  }

  lemma ListLinks(s: State, n: nat)
    requires Inv(s) && n < |s.lists|
    ensures Distinct(s.lists[n]) && FreeUnlinked(s.slots) && Chained(s.slots, s.lists[n])
    ensures forall k :: 0 <= k < |s.lists[n]| ==> UsedLink(s.slots, s.lists[n], k)
  {
    var l := s.lists[n];
    forall k | 0 <= k < |l| ensures UsedLink(s.slots, l, k) && ChainedAt(s.slots, l, k) {
      assert LinkOk(s.slots, l, k) && RefOk(s.slots, l, s.held, l[k]);
    }
    forall x: nat | x < NMOUNT && s.slots[x].ref == 0 ensures s.slots[x].next == None { FreeNotListed(s, x); }
  }

  /** What mount does with the free slot `i`. */
  ghost predicate MountsIn(s: State, s': State, n: nat, i: nat, parent: nat, at: nat, isbind: bool, source: nat) {
    && n < |s.lists| && i < |s.slots| && parent < |s.slots| && s.slots[i].ref == 0
    && s' == Mounted(s, n, i, parent, at, isbind, source)
  }

  /** Outside slot `x` only counts and links may differ. */
  ghost predicate OnlyLinks(s: State, s': State, x: nat) {
    && |s'.slots| == |s.slots|
    && (forall y :: 0 <= y < |s.slots| && y != x ==>
          s'.slots[y] == s.slots[y].(ref := s'.slots[y].ref, next := s'.slots[y].next))
  }

  /** Slot `i` is the first mount of namespace `n`, at `at` of `parent`; there was none at that place. */
  ghost predicate NewMount(s: State, s': State, n: nat, i: nat, parent: nat, at: nat, isbind: bool, source: nat) {
    && n < |s.lists| && s'.lists == s.lists[n := [i] + s.lists[n]] && s'.held == s.held && i < |s.slots| == |s'.slots|
    && s'.slots[i].parent == Some(parent) && s'.slots[i].mountpoint == Some(at)
    && s'.slots[i].isbind == isbind && s'.slots[i].source == Some(source)
    && OnlyLinks(s, s', i) && !Taken(s.slots, s.lists[n], parent, at) && Taken(s'.slots, s'.lists[n], parent, at)
  }

  lemma MountedIsNew(s: State, n: nat, i: nat, parent: nat, at: nat, isbind: bool, source: nat)
    requires n < |s.lists| && i < |s.slots| && parent < |s.slots| && !Taken(s.slots, s.lists[n], parent, at)
    ensures NewMount(s, Mounted(s, n, i, parent, at, isbind, source), n, i, parent, at, isbind, source)
  {
    var s' := Mounted(s, n, i, parent, at, isbind, source);
    assert s'.lists[n][0] == i && i in s'.lists[n];
  }

  /** The mount at position `k` is in no list, its slot is free, and nobody holds it. */
  ghost predicate NoMount(s: State, s': State, n: nat, k: nat) {
    && n < |s.lists| && k < |s.lists[n]|
    && var x := s.lists[n][k];
       x < |s'.slots| && x < |s.held| && s'.slots[x].ref == 0 && s'.slots[x].source == None && OnlyLinks(s, s', x) &&
       s'.held == s.held[x := 0] && s'.lists == s.lists[n := s.lists[n][..k] + s.lists[n][k + 1..]]
  }

  lemma UnmountedIsGone(s: State, n: nat, k: nat)
    requires n < |s.lists| && k < |s.lists[n]| && s.lists[n][k] < |s.slots| && s.lists[n][k] < |s.held|
    ensures NoMount(s, Unmounted(s, n, k), n, k)
  {
  }

  /** A slot that mount gave up after filling it in. */
  function Stale(slot: Slot, parent: nat, at: nat, sb: nat): Slot {
    slot.(parent := Some(parent), mountpoint := Some(at), isbind := false, source := Some(sb))
  }

  /** Nothing but the contents of free slots differs. */
  ghost predicate SameUsed(s: State, s': State) {
    && |s'.slots| == |s.slots| && s'.lists == s.lists && s'.held == s.held
    && forall x :: 0 <= x < |s.slots| && s.slots[x].ref != 0 ==> s'.slots[x] == s.slots[x]
  }

  lemma StaleKeepsInv(s: State, i: nat, y: Slot)
    requires Inv(s) && i < NMOUNT && s.slots[i].ref == 0 && y.ref == 0 && y.next == s.slots[i].next
    ensures Inv(s.(slots := s.slots[i := y]))
  {
    var s' := s.(slots := s.slots[i := y]);
    FreeNotListed(s, i);
    forall n | 0 <= n < |s.lists| ensures ListOk(s'.slots, s.lists[n], s.held) {
      assert i !in s.lists[n];
      forall x | x in s.lists[n] ensures x < NMOUNT { assert RefOk(s.slots, s.lists[n], s.held, x); }
      ListFrame(s.slots, s'.slots, s.lists[n], s.held, s.held);
    }
    forall x: nat | x < NMOUNT ensures SlotOk(s', x) { assert SlotOk(s, x); }
  }

  /** umount's two tests are exactly its condition, given that the caller holds a reference. */
  lemma UnmountTest(s: State, n: nat, k: nat)
    requires Inv(s) && n < |s.lists| && k < |s.lists[n]| && s.lists[n][k] < NMOUNT && s.held[s.lists[n][k]] >= 1
    ensures var x := s.lists[n][k];
      && (s.slots[x].parent.Some? && s.slots[x].ref <= 2 <==> MayUnmount(s, n, k))
      && (forall j: nat :: j < |s.lists[n]| && s.lists[n][j] == x ==> j == k)
      && (s.slots[x].parent.Some? ==> s.slots[x].parent.value < NMOUNT)
  {
    var l := s.lists[n];
    assert ListOk(s.slots, l, s.held) && LinkOk(s.slots, l, k) && RefOk(s.slots, l, s.held, l[k]);
    if s.slots[l[k]].parent.Some? {
      var j :| k < j < |l| && s.slots[l[k]].parent == Some(l[j]);
      assert LinkOk(s.slots, l, j);
    }
  }

  lemma UnmountHead(s: State, n: nat, k: nat)
    requires Inv(s) && MayUnmount(s, n, k)
    ensures var l := s.lists[n];
      && l[k] < NMOUNT && s.slots[l[k]].parent.Some? && s.slots[l[k]].parent.value < NMOUNT &&
         (LastOf(l[..k]).Some? ==> LastOf(l[..k]).value < NMOUNT)
      && At(l[..k] + l[k + 1..], 0) == if k == 0 then s.slots[l[k]].next else At(l, 0)
  {
    var l := s.lists[n];
    assert LinkOk(s.slots, l, k);
    if k > 0 { assert LinkOk(s.slots, l, k - 1); }
    var j :| k < j < |l| && s.slots[l[k]].parent == Some(l[j]);
    assert LinkOk(s.slots, l, j);
  }

  /** How copying the list ends: the table is full (a panic), fixparents follows a pointer off
      the end of the new list, or success. */
  datatype Cloned = NoSlots | LeftTheList | Copied

  /** Some entry's walk leaves the new list; the entries before it have the parents their walks
      ended at. */
  ghost predicate WentAstray(slots: Slots, slots': Slots, l: seq<nat>, copy: seq<nat>) {
    exists i :: 0 <= i < |l| && Walked(slots, slots', l, copy, i) && !StaysInside(slots, l, copy, i)
  }

  /** The kernel's return value -1, its panic, or success. */
  datatype Result = Failed | Panicked | Done

  class Mounts {
    var slots: Slots
    var heads: seq<Option<nat>>
    ghost var lists: seq<seq<nat>>
    ghost var held: seq<nat>

    ghost function Value(): State
      reads this
    {
      State(slots, lists, held)
    }

    ghost predicate Valid()
      reads this
    {
      && Inv(Value()) && |heads| == |lists|
      && (forall n :: 0 <= n < |heads| ==> heads[n] == At(lists[n], 0))
    }

    /** mntinit: the initial root mount in namespace 0 of `count`. */
    constructor (count: nat, sb: nat)
      requires count > 0
      ensures Valid() && |lists| == count && lists[0] == [0] && (forall n :: 0 < n < count ==> lists[n] == [])
      ensures slots[0] == Slot(1, None, None, false, Some(sb), None) && Unused(slots) == NMOUNT - 1
    {
      var free := Slot(0, None, None, false, None, None);
      slots := [Slot(1, None, None, false, Some(sb), None)] + seq(199, i => free);
      heads := [Some(0)] + seq(count - 1, i => None);
      lists := [[0]] + seq(count - 1, i => []);
      held := seq(200, i => 0);
      new;
      assert Children(slots, [0], 0) == 0 by { assert [0][1..] == []; }
      assert LinkOk(slots, lists[0], 0);
      AllUnused(slots[1..]);
      forall x: nat | x < 200 ensures SlotOk(Value(), x) { assert x == 0 ==> 0 in lists[0]; }
    }

    /** allocmntlist's search. */
    method FindFree() returns (r: Option<nat>)
      ensures r.Some? ==> r.value < |slots| && slots[r.value].ref == 0
      ensures r.Some? ==> forall j :: 0 <= j < r.value ==> slots[j].ref != 0
      ensures r.None? ==> forall x :: 0 <= x < |slots| ==> slots[x].ref != 0
    {
      for i := 0 to |slots|
        invariant forall j :: 0 <= j < i ==> slots[j].ref != 0
      {
        if slots[i].ref == 0 { return Some(i); }
      }
      return None;
    }

    /** mount's search for a mount at the same point. */
    method IsMounted(n: nat, parent: nat, at: nat) returns (found: bool)
      requires n < |lists| && n < |heads| && heads[n] == At(lists[n], 0)
      requires forall k :: 0 <= k < |lists[n]| ==> LinkOk(slots, lists[n], k)
      ensures found <==> Taken(slots, lists[n], parent, at)
    {
      ghost var l, k := lists[n], 0;
      var cur := heads[n];
      while cur.Some?
        invariant k <= |l| && cur == At(l, k)
        invariant forall i :: 0 <= i < k && l[i] < |slots| ==>
          !(slots[l[i]].parent == Some(parent) && slots[l[i]].mountpoint == Some(at))
        decreases |l| - k
      {
        assert LinkOk(slots, l, k);
        if slots[cur.value].parent == Some(parent) && slots[cur.value].mountpoint == Some(at) { return true; }
        cur, k := slots[cur.value].next, k + 1;
      }
      return false;
    }

    /** getroot: follow the parents from the first mount. */
    method GetRoot(head: Option<nat>, ghost l: seq<nat>) returns (r: Option<nat>)
      requires head == At(l, 0) && forall k :: 0 <= k < |l| ==> LinkOk(slots, l, k)
      ensures r == if l == [] then None else Some(l[|l| - 1])
    {
      if head.None? { return None; }
      ghost var k := 0;
      var cur := head.value;
      assert LinkOk(slots, l, 0);
      while slots[cur].parent.Some?
        invariant 0 <= k < |l| && cur == l[k] && cur < |slots|
        decreases |l| - k
      {
        assert LinkOk(slots, l, k);
        ghost var j :| k < j < |l| && slots[cur].parent == Some(l[j]);
        assert LinkOk(slots, l, j);
        cur := slots[cur].parent.value;
        k := j;
      }
      assert LinkOk(slots, l, k);
      return Some(cur);
    }

    /** shallowcopyactivemounts. */
    method CopySlots(head: Option<nat>, cwd: Option<nat>, ghost l: seq<nat>)
      returns (ok: bool, newHead: Option<nat>, newCwd: Option<nat>, ghost copy: seq<nat>)
      requires head == At(l, 0) && Distinct(l) && FreeUnlinked(slots)
      requires forall k :: 0 <= k < |l| ==> UsedLink(slots, l, k)
      modifies this`slots
      ensures ShallowCopy(old(slots), slots, l, copy) && newHead == At(copy, 0)
      ensures ok ==> |copy| == |l| && newCwd == CopyOf(l, copy, cwd)
      ensures ok <==> |l| <= Unused(old(slots))
    {
      newHead, newCwd, copy := None, None, [];
      var entry, prev := head, None;
      while entry.Some?
        invariant ShallowCopy(old(slots), slots, l, copy) && entry == At(l, |copy|) && newHead == At(copy, 0)
        invariant prev == LastOf(copy) && newCwd == CwdCopy(l, copy, cwd) &&
          Unused(slots) + |copy| == Unused(old(slots))
        decreases |l| - |copy|
      {
        assert UsedLink(old(slots), l, |copy|);
        var x := FindFree();
        if x.None? {
          NoneUnused(slots);
          return false, newHead, newCwd, copy;
        }
        if newHead.None? { newHead := x; }
        CwdStep(l, copy, cwd, x.value);
        if cwd == entry { newCwd := x; }
        entry := CopyOne(entry.value, prev, x.value, old(slots), l, copy);
        prev := x;
        copy := copy + [x.value];
      }
      ok := true;
      assert l[..|copy|] == l;
    }

    /** One entry, in the free slot `x`. */
    method CopyOne(entry: nat, prev: Option<nat>, x: nat, ghost slots0: Slots, ghost l: seq<nat>, ghost copy: seq<nat>)
      returns (next: Option<nat>)
      requires ShallowCopy(slots0, slots, l, copy) && FreeUnlinked(slots0) && x < |slots| && slots[x].ref == 0
      requires |copy| < |l| && entry == l[|copy|] && LinkOk(slots0, l, |copy|) && slots0[entry].ref > 0 &&
        prev == LastOf(copy)
      modifies this`slots
      ensures ShallowCopy(slots0, slots, l, copy + [x]) && next == At(l, |copy| + 1)
      ensures Unused(slots) + 1 == Unused(old(slots))
    {
      EntryTakesSlot(slots, prev, x, Entry(slots[entry], slots[x]));
      ghost var slots1 := slots;
      slots := LinkAfter(slots[x := Entry(slots[entry], slots[x])], prev, x);
      ShallowStep(slots0, slots1, slots, l, copy, x);
      assert entry !in copy + [x];
      next := slots[entry].next;
    }

    /** fixparents' inner loop: from the head of the old list to `parent`, and as many steps from
        the new entry; None when that walk leaves the new list. */
    method FindCopy(head: Option<nat>, newEntry: nat, parent: nat, ghost l: seq<nat>, ghost copy: seq<nat>,
                    ghost i: nat)
      returns (r: Option<nat>, ghost j: nat)
      requires head == At(l, 0) && i < |copy| == |l| && newEntry == copy[i] && parent in l
      requires Chained(slots, l) && Chained(slots, copy)
      ensures j < |l| && l[j] == parent && r == At(copy, i + j)
    {
      j := 0;
      var finder, newFinder := head, Some(newEntry);
      while finder.Some? && finder.value != parent
        invariant j <= |l| && finder == At(l, j) && newFinder == At(copy, i + j)
        invariant forall k :: 0 <= k < j ==> l[k] != parent
        decreases |l| - j
      {
        if newFinder.None? { return None, Pos(l, parent); }
        assert ChainedAt(slots, l, j) && ChainedAt(slots, copy, i + j);
        finder, newFinder, j := slots[finder.value].next, slots[newFinder.value].next, j + 1;
      }
      assert finder.Some?;   // otherwise "invalid mount tree structure"
      r := newFinder;
    }

    /** fixparents; not ok when a walk leaves the new list. */
    method FixParents(head: Option<nat>, newHead: Option<nat>, ghost slots0: Slots, ghost l: seq<nat>,
                      ghost copy: seq<nat>)
      returns (ok: bool, ghost i: nat)
      requires head == At(l, 0) && newHead == At(copy, 0) && |copy| == |l| && Distinct(l)
      requires ShallowCopy(slots0, slots, l, copy) && forall k :: 0 <= k < |l| ==> UsedLink(slots0, l, k)
      modifies this`slots
      ensures ok <==> |l| <= 2
      ensures ok ==> Fixed(slots0, slots, l, copy, |l|)
      ensures Walked(slots0, slots, l, copy, i)
      ensures !ok ==> i < |l| && !StaysInside(slots0, l, copy, i)
    {
      FixStart(slots0, slots, l, copy);
      i := 0;
      var entry, newEntry := head, newHead;
      while entry.Some?
        invariant i <= |l| && entry == At(l, i) && newEntry == At(copy, i) && Walked(slots0, slots, l, copy, i)
        invariant if |l| <= 2 then Fixed(slots0, slots, l, copy, i) else i + 2 <= |l|
        decreases |l| - i
      {
        BothLists(slots0, slots, l, copy, i);
        assert UsedLink(slots0, l, i);
        ok := FixOne(head, entry.value, newEntry.value, slots0, l, copy, i);
        WalkAt(slots0, l, copy, i);
        if !ok { return; }
        BothLists(slots0, slots, l, copy, i + 1);
        assert ChainedAt(slots, l, i) && ChainedAt(slots, copy, i);
        i := i + 1;
        entry, newEntry := slots[entry.value].next, slots[newEntry.value].next;
      }
      ok := true;
    }

    /** fixparents for one entry. */
    method FixOne(head: Option<nat>, entry: nat, newEntry: nat,
                  ghost slots0: Slots, ghost l: seq<nat>, ghost copy: seq<nat>, ghost i: nat)
      returns (ok: bool)
      requires head == At(l, 0) && i < |l| == |copy| && Distinct(l) && entry == l[i] && newEntry == copy[i]
      requires Walked(slots0, slots, l, copy, i) && LinkOk(slots0, l, i) && Chained(slots, l)
      requires slots[entry].parent == slots0[entry].parent && (|l| <= 2 ==> Fixed(slots0, slots, l, copy, i))
      modifies this`slots
      ensures ok <==> StaysInside(slots0, l, copy, i)
      ensures if ok then Walked(slots0, slots, l, copy, i + 1) else slots == old(slots)
      ensures ok && |l| <= 2 ==> Fixed(slots0, slots, l, copy, i + 1)
    {
      var p := slots[entry].parent;
      if p.Some? {
        ghost var q :| i < q < |l| && p == Some(l[q]);
        var r;
        ghost var j;
        r, j := FindCopy(head, newEntry, p.value, l, copy, i);
        assert j == q && Pos(l, p.value) == j;
        if r.None? { return false; }   // leaves the new list
        WalkStep(slots0, slots, l, copy, i, j);
        if |l| <= 2 { FixStep(slots0, slots, l, copy, i, j); }
        slots := FixEntry(slots, newEntry, r.value);
      } else {
        WalkRoot(slots0, slots, l, copy, i);
        if |l| <= 2 { FixRoot(slots0, slots, l, copy, i); }
      }
      ok := true;
    }

    /** mount at `at` of `parent`, of a device with superblock `sb` or of a bound directory.
        `known` says that the type of the device is one the kernel can mount. */
    method Mount(n: nat, parent: nat, at: nat, target: Option<nat>, bind: Option<nat>, sb: nat, known: bool)
      returns (r: Result, ghost i: nat)
      requires Valid() && n < |lists| && parent in lists[n]
      modifies this
      ensures r.Panicked? <==> forall x :: 0 <= x < NMOUNT ==> old(slots)[x].ref != 0
      ensures r.Done? ==>
        target.Some? != bind.Some? && (target.Some? ==> known) && !Taken(old(slots), old(lists[n]), parent, at)
      ensures r.Failed? ==>
        target.Some? == bind.Some? || (target.Some? && !known) || Taken(old(slots), old(lists[n]), parent, at)
      ensures Valid() && (!r.Done? ==> SameUsed(old(Value()), Value()))
      ensures r.Done? ==>
        MountsIn(old(Value()), Value(), n, i, parent, at, bind.Some?, if bind.Some? then bind.value else sb)
      ensures r.Done? ==>
        NewMount(old(Value()), Value(), n, i, parent, at, bind.Some?, if bind.Some? then bind.value else sb)
    {
      i := 0;
      var free := FindFree();
      if free.None? { return Panicked, i; }
      var slot := free.value;
      i := slot;
      ghost var s := Value();
      FreeNotListed(s, i);
      ListLinks(s, n);
      if target.Some? == bind.Some? { return Failed, i; }
      var taken := IsMounted(n, parent, at);
      if taken { return Failed, i; }
      var source := if bind.Some? then bind.value else sb;
      if bind.None? && !known {
        StaleKeepsInv(s, i, Stale(slots[i], parent, at, sb));
        slots := slots[slot := Stale(slots[slot], parent, at, sb)];
        return Failed, i;
      }
      MountKeepsInv(s, n, i, parent, at, bind.Some?, source);
      MountedIsNew(s, n, i, parent, at, bind.Some?, source);
      AddMount(n, slot, parent, at, bind.Some?, source);
      return Done, i;
    }

    /** mount's assignments. */
    method AddMount(n: nat, i: nat, parent: nat, at: nat, isbind: bool, source: nat)
      requires n < |lists| == |heads| && i < |slots| && parent < |slots| && heads[n] == At(lists[n], 0)
      modifies this
      ensures Value() == Mounted(old(Value()), n, i, parent, at, isbind, source) && heads == old(heads)[n := Some(i)]
    {
      slots := slots[parent := slots[parent].(ref := slots[parent].ref + 1)];
      slots := slots[i := Slot(1, Some(parent), Some(at), isbind, Some(source), heads[n])];
      heads := heads[n := Some(i)];
      lists := lists[n := [i] + lists[n]];
    }

    /** umount's search: the mount's position and the mount before it. */
    method Locate(n: nat, x: nat) returns (found: bool, prev: Option<nat>, ghost k: nat)
      requires n < |lists| && n < |heads| && heads[n] == At(lists[n], 0) && Chained(slots, lists[n])
      ensures found <==> x in lists[n]
      ensures found ==> k < |lists[n]| && lists[n][k] == x && prev == LastOf(lists[n][..k])
    {
      var cur := heads[n];
      prev, k := None, 0;
      while cur.Some?
        invariant k <= |lists[n]| && cur == At(lists[n], k) && prev == LastOf(lists[n][..k]) && x !in lists[n][..k]
        decreases |lists[n]| - k
      {
        if cur.value == x { return true, prev, k; }
        assert ChainedAt(slots, lists[n], k);
        assert lists[n][..k + 1] == lists[n][..k] + [lists[n][k]];
        prev := cur;
        cur := slots[cur.value].next;
        k := k + 1;
      }
      found := false;
      assert lists[n][..k] == lists[n];
    }

    /** umount of a mount to which the caller holds a reference. */
    method Umount(n: nat, x: nat) returns (ok: bool, ghost k: nat)
      requires Valid() && n < |lists| && x < NMOUNT && held[x] >= 1
      modifies this
      ensures Valid()
      ensures ok ==> MayUnmount(old(Value()), n, k) && old(lists)[n][k] == x && Value() == Unmounted(old(Value()), n, k)
      ensures ok ==> NoMount(old(Value()), Value(), n, k)
      ensures !ok ==> Value() == old(Value())
      ensures !ok ==> forall j: nat :: j < |lists[n]| && lists[n][j] == x ==> !MayUnmount(Value(), n, j)
    {
      ghost var s := Value();
      ListLinks(s, n);
      var found, prev;
      found, prev, k := Locate(n, x);
      if !found { return false, k; }
      UnmountTest(s, n, k);
      if slots[x].parent.None? || slots[x].ref > 2 { return false, k; }
      UnmountedIsGone(s, n, k);
      Detach(n, k, x, prev);
      return true, k;
    }

    method Detach(n: nat, ghost k: nat, x: nat, prev: Option<nat>)
      requires Valid() && MayUnmount(Value(), n, k) && lists[n][k] == x && prev == LastOf(lists[n][..k])
      modifies this
      ensures Valid() && Value() == Unmounted(old(Value()), n, k)
    {
      ghost var s := Value();
      UnmountHead(s, n, k);
      Unlink(n, k, x, prev);
      UnmountKeepsInv(s, Value(), n, k);
    }

    /** umount's assignments. */
    method Unlink(n: nat, ghost k: nat, x: nat, prev: Option<nat>)
      requires |slots| == |held| == NMOUNT && n < |lists| == |heads| && k < |lists[n]| && lists[n][k] == x &&
        prev == LastOf(lists[n][..k])
      requires x < NMOUNT && slots[x].parent.Some? && slots[x].parent.value < NMOUNT &&
        (prev.Some? ==> prev.value < NMOUNT)
      modifies this
      ensures Value() == Unmounted(old(Value()), n, k)
      ensures heads == if k == 0 then old(heads)[n := old(slots)[x].next] else old(heads)
    {
      ghost var s := Value();
      var next, p := slots[x].next, slots[x].parent.value;
      if prev.None? {
        heads := heads[n := next];
      } else {
        slots := slots[prev.value := slots[prev.value].(next := next)];
      }
      slots := slots[p := slots[p].(ref := slots[p].ref - 1)];
      slots := slots[x := slots[x].(source := None, mountpoint := None, ref := 0, next := None)];
      lists, held := lists[n := lists[n][..k] + lists[n][k + 1..]], held[x := 0];
    }

    /** mntdup. */
    method Dup(x: nat)
      requires Valid() && x < NMOUNT && Listed(lists, x)
      modifies this`slots, this`held
      ensures Valid() && Value() == Held(old(Value()), x, 1)
    {
      ghost var s := Value();
      HeldKeepsInv(s, x, 1);
      slots := slots[x := slots[x].(ref := slots[x].ref + 1)];
      held := held[x := held[x] + 1];
    }

    /** mntput, of a reference that is held. */
    method Put(x: nat)
      requires Valid() && x < NMOUNT && Listed(lists, x) && held[x] > 0
      modifies this`slots, this`held
      ensures Valid() && Value() == Held(old(Value()), x, -1)
    {
      ghost var s := Value();
      HeldKeepsInv(s, x, -1);
      slots := slots[x := slots[x].(ref := slots[x].ref - 1)];
      held := held[x := held[x] - 1];
    }

    /** copymount_ns into the empty namespace `m`, for a process of namespace `n` whose working
        directory is in mount `cwd`. */
    method Clone(n: nat, m: nat, cwd: Option<nat>)
      returns (r: Cloned, newCwd: Option<nat>, root: Option<nat>, ghost copied: Slots, ghost copy: seq<nat>)
      requires Valid() && n < |lists| && m < |lists| && lists[m] == []
      requires cwd.Some? ==> cwd.value < NMOUNT && Listed(lists, cwd.value) && held[cwd.value] > 0
      modifies this
      ensures r.NoSlots? <==> Unused(old(slots)) < |old(lists[n])|
      ensures !r.NoSlots? ==> (r.Copied? <==> |old(lists[n])| <= 2)
      ensures r.Copied? ==> Valid() && Fixed(old(slots), copied, old(lists[n]), copy, |old(lists[n])|)
      ensures r.Copied? ==>
        Value() == Entered(State(copied, old(lists)[m := copy], old(held)), cwd, CopyOf(old(lists[n]), copy, cwd))
      ensures r.Copied? ==>
        newCwd == if CopyOf(old(lists[n]), copy, cwd).Some? then CopyOf(old(lists[n]), copy, cwd) else cwd
      ensures r.Copied? ==> root == LastOf(copy)
      ensures r.LeftTheList? ==> WentAstray(old(slots), slots, old(lists[n]), copy)
    {
      ghost var l := lists[n];
      var newHead;
      r, newHead, newCwd, copy := CopyList(n, m, cwd);
      copied := slots;
      if !r.Copied? { root := None; return; }
      if newCwd.Some? {
        CopyListed(Value(), old(lists), m, copy, Pos(l, cwd.value), cwd.value);
        Dup(newCwd.value);
        Put(cwd.value);
      } else {
        newCwd := cwd;
      }
      ListLinks(Value(), m);
      root := GetRoot(newHead, copy);
    }

    /** copyactivemounts up to the working directory. */
    method CopyList(n: nat, m: nat, cwd: Option<nat>)
      returns (r: Cloned, newHead: Option<nat>, newCwd: Option<nat>, ghost copy: seq<nat>)
      requires Valid() && n < |lists| && m < |lists| && lists[m] == []
      modifies this
      ensures r.NoSlots? <==> Unused(old(slots)) < |old(lists[n])|
      ensures !r.NoSlots? ==> (r.Copied? <==> |old(lists[n])| <= 2)
      ensures r.Copied? ==> Valid() && Fixed(old(slots), slots, old(lists[n]), copy, |old(lists[n])|)
      ensures r.Copied? ==> lists == old(lists)[m := copy] && held == old(held)
      ensures r.Copied? ==> newHead == At(copy, 0) && newCwd == CopyOf(old(lists[n]), copy, cwd)
      ensures r.LeftTheList? ==> WentAstray(old(slots), slots, old(lists[n]), copy)
    {
      ghost var s, l := Value(), lists[n];
      ListLinks(s, n);
      var ok;
      ok, newHead, newCwd, copy := CopySlots(heads[n], cwd, l);
      if !ok { return NoSlots, newHead, newCwd, copy; }
      ghost var i;
      ok, i := FixParents(heads[n], newHead, s.slots, l, copy);
      if !ok { return LeftTheList, newHead, newCwd, copy; }
      lists, heads := lists[m := copy], heads[m := newHead];
      CloneKeepsInv(s, Value(), n, m, copy);
      r := Copied;
    }
  }

  /** copyactivemounts' last part: the process moves from its old mount to the copy of it. */
  ghost function Entered(s: State, cwd: Option<nat>, newCwd: Option<nat>): State {
    if cwd.Some? && newCwd.Some? && cwd.value < |s.slots| && cwd.value < |s.held| &&
       newCwd.value < |s.slots| && newCwd.value < |s.held| && cwd != newCwd && s.held[cwd.value] > 0
    then Held(Held(s, newCwd.value, 1), cwd.value, -1) else s
  }

  /** The references of the clone: one for being mounted, one from every child, and the process
      in its working directory. */
  lemma CloneCounts(s: State, copied: Slots, l: seq<nat>, copy: seq<nat>, cwd: Option<nat>, k: nat)
    requires Fixed(s.slots, copied, l, copy, |l|) && Distinct(l) && k < |l| <= 2
    requires |s.held| == |s.slots| && (forall x :: x in l ==> x < |s.slots| && s.slots[x].ref > 0)
    requires cwd.Some? && cwd.value in l ==> s.held[cwd.value] > 0
    ensures var s' := Entered(s.(slots := copied), cwd, CopyOf(l, copy, cwd));
      copy[k] < |s'.slots| &&
        s'.slots[copy[k]].ref == 1 + Children(s.slots, l, l[k]) + if cwd == Some(l[k]) then 1 else 0
  {
    assert FixedAt(s.slots, copied, l, copy, |l|, k) && l[..|l|] == l && copy[k] in copy;
    if cwd.Some? && cwd.value in l {
      var j := Pos(l, cwd.value);
      assert FixedAt(s.slots, copied, l, copy, |l|, j) && copy[j] in copy && l[j] in l;
      assert cwd == Some(l[k]) <==> j == k;
      assert cwd.value !in copy;
    }
  }

  /** Two mounts on the root, then a clone of the namespace: the walk of the second entry
      leaves the new list. */
  method CloneOfThree() returns (r: Cloned)
    ensures r == LeftTheList
  {
    var t := new Mounts(2, 0);
    MountOnRoot(t, 5);
    MountOnRoot(t, 6);
    var cwd, root;
    ghost var slots, copy;
    r, cwd, root, slots, copy := t.Clone(0, 1, None);
  }

  /** A device on the root's inode `at`, where nothing is mounted yet. */
  method MountOnRoot(t: Mounts, at: nat)
    requires t.Valid() && |t.lists| > 0 && 0 in t.lists[0] && Unused(t.slots) > 0
    requires !Taken(t.slots, t.lists[0], 0, at)
    modifies t
    ensures t.Valid() && Unused(t.slots) + 1 == old(Unused(t.slots))
    ensures exists i :: t.lists == old(t.lists)[0 := [i] + old(t.lists)[0]]
    ensures forall at' :: at' != at && !old(Taken(t.slots, t.lists[0], 0, at')) ==> !Taken(t.slots, t.lists[0], 0, at')
  {
    if forall x :: 0 <= x < NMOUNT ==> t.slots[x].ref != 0 { NoneUnused(t.slots); }
    assert ListOk(t.slots, t.lists[0], t.held);
    var r;
    ghost var s, i := t.Value(), 0;
    r, i := t.Mount(0, 0, at, Some(at), None, 1, true);
    MountTakesSlot(s, 0, i, 0, at, false, 1);
  }

  function LastOf(copy: seq<nat>): Option<nat> {
    if copy == [] then None else Some(copy[|copy| - 1])
  }

  /** The copy of the working directory's mount, once it has been reached. */
  ghost function CwdCopy(l: seq<nat>, copy: seq<nat>, cwd: Option<nat>): Option<nat>
    requires |copy| <= |l|
  {
    if cwd.Some? && cwd.value in l[..|copy|] then Some(copy[Pos(l[..|copy|], cwd.value)]) else None
  }

  lemma CwdStep(l: seq<nat>, copy: seq<nat>, cwd: Option<nat>, x: nat)
    requires Distinct(l) && |copy| < |l|
    ensures CwdCopy(l, copy + [x], cwd) == if cwd == Some(l[|copy|]) then Some(x) else CwdCopy(l, copy, cwd)
  {
    var n := |copy|;
    assert l[..n + 1] == l[..n] + [l[n]];
    if cwd.Some? && cwd.value in l[..n] {
      var p, q := Pos(l[..n + 1], cwd.value), Pos(l[..n], cwd.value);
      assert l[p] == cwd.value == l[q];
    }
  }
}
