/** The object device (kernel/device/obj_disk.c): extents in a store of bytes, found through a
    table of entries. Entries 0 and 1 are the super block and the table itself.

    The limit between table and store does not move: growing the table and shrinking it are not
    modelled.
 */
module ObjDisk {

  import opened Blocks
  import opened Wrappers

  const SIZE: nat := 327680

  const NAME_LENGTH: nat := 20

  /** A C string, without the terminating NUL. */
  type Name = s: string | '\0' !in s

  datatype Entry = Entry(name: Name, off: nat, size: nat, occ: bool)

  /** `store` is where the store starts, `bytes` the storage. */
  datatype Disk = Disk(entries: seq<Entry>, store: nat, bytes: seq<Byte>)

  // ----- names

  /** Byte `i` at an entry's name: NUL after a short name, and behind the twenty bytes of the name
      the low byte of the offset, the field that follows. */
  function StoredByte(e: Entry, i: nat): char
    requires i <= NAME_LENGTH
  {
    if i < NAME_LENGTH then (if i < |e.name| then e.name[i] else '\0') else (e.off % 256) as char
  }

  function NameByte(name: Name, i: nat): char
    requires i <= |name|
  {
    if i < |name| then name[i] else '\0'
  }

  /** Lookups can find the entry: its name is shorter than the field, or the low byte of the offset
      acts as the terminating NUL. */
  predicate Visible(e: Entry) { |e.name| < NAME_LENGTH || e.off % 256 == 0 }

  /** obj_id_cmp says that the entry is called `name` exactly when it is, and is visible. */
  method IdCmp(e: Entry, name: Name) returns (same: bool)
    requires |e.name| <= NAME_LENGTH && |name| <= NAME_LENGTH
    ensures same <==> e.name == name && Visible(e)
  {
    var i := 0;
    while StoredByte(e, i) != '\0' && StoredByte(e, i) == NameByte(name, i) && i < NAME_LENGTH
      invariant i <= NAME_LENGTH && i <= |name| && i <= |e.name| && e.name[..i] == name[..i]
      decreases NAME_LENGTH - i
    {
      assert StoredByte(e, i) in e.name && NameByte(name, i) != '\0';
      i := i + 1;
    }
    same := StoredByte(e, i) == NameByte(name, i);
    if i < |e.name| { assert e.name[i] in e.name; }
    if i < |name| { assert name[i] in name; }
    if same { assert e.name == e.name[..i] && name == name[..i]; }
  }

  // ----- extents

  predicate Apart(a: nat, n: nat, b: nat, m: nat) { a + n <= b || b + m <= a }

  /** In the store; an empty extent is at the end of the device. */
  predicate Inside(store: nat, off: nat, size: nat) {
    store <= off && off + size <= SIZE && (size == 0 ==> off == SIZE)
  }

  /** Entry `i` holds an object. */
  predicate Occupied(d: Disk, i: nat) { 2 <= i < |d.entries| && d.entries[i].occ }

  ghost predicate TableOk(d: Disk) {
    && |d.bytes| == SIZE && d.store <= SIZE && |d.entries| >= 2 && Own(d.entries[0]) && Own(d.entries[1])
    && (forall i: nat :: Occupied(d, i) ==> Inside(d.store, d.entries[i].off, d.entries[i].size))
    && (forall i: nat, j: nat :: Occupied(d, i) && Occupied(d, j) && i != j ==>
          Apart(d.entries[i].off, d.entries[i].size, d.entries[j].off, d.entries[j].size))
    && (forall i :: 0 <= i < |d.entries| && d.entries[i].occ ==> |d.entries[i].name| <= NAME_LENGTH)
    && (forall i, j :: 0 <= i < j < |d.entries| && Seen(d, i) && Seen(d, j) ==> d.entries[i].name != d.entries[j].name)
  }

  /** The super block and the table have short names. */
  predicate Own(e: Entry) { e.occ && |e.name| < NAME_LENGTH }

  /** Entry `i` is in use and visible. */
  predicate Seen(d: Disk, i: nat)
    requires i < |d.entries|
  {
    d.entries[i].occ && Visible(d.entries[i])
  }

  /** An extent of size `n` can be put at `a`. */
  ghost predicate Fits(d: Disk, a: nat, n: nat) {
    && Inside(d.store, a, n)
    && (forall i: nat :: Occupied(d, i) ==> Apart(a, n, d.entries[i].off, d.entries[i].size))
  }

  // ----- sorting

  /** The entries with these indices come in the order of their offsets. */
  predicate SortedBy(d: Disk, a: seq<nat>) {
    (forall k :: 0 <= k < |a| ==> a[k] < |d.entries|) &&
    forall i, j :: 0 <= i < j < |a| ==> d.entries[a[i]].off <= d.entries[a[j]].off
  }

  method Swap(a: array<nat>, i: nat, j: nat)
    requires i < a.Length && j < a.Length
    modifies a
    ensures a[..] == old(a[..])[i := old(a[j])][j := old(a[i])]
    ensures multiset(a[..]) == old(multiset(a[..]))
  {
    a[i], a[j] := a[j], a[i];
  }

  predicate InTable(d: Disk, a: seq<nat>) { forall k :: 0 <= k < |a| ==> a[k] < |d.entries| }

  /** Nothing before position `k` has a larger offset than the entry at `k`. */
  predicate LargestAt(d: Disk, a: seq<nat>, k: nat)
    requires InTable(d, a) && k < |a|
  {
    forall i :: 0 <= i < k ==> d.entries[a[i]].off <= d.entries[a[k]].off
  }

  /** bubble_sort of an array of table indices. */
  method BubbleSort(d: Disk, a: array<nat>)
    requires InTable(d, a[..])
    modifies a
    ensures InTable(d, a[..]) && SortedBy(d, a[..]) && multiset(a[..]) == old(multiset(a[..]))
  {
    var n := a.Length;
    if n >= 2 {
      for i := 0 to n - 1
        invariant InTable(d, a[..]) && multiset(a[..]) == old(multiset(a[..]))
        invariant forall k :: n - i <= k < n ==> LargestAt(d, a[..], k)
      {
        Pass(d, a, n - i - 1);
      }
      forall k | 1 <= k < n ensures LargestAt(d, a[..], k) {}
    }
    ByLargest(d, a[..]);
  }

  /** One pass carries the largest entry to position `m`. */
  method Pass(d: Disk, a: array<nat>, m: nat)
    requires InTable(d, a[..]) && m < a.Length && forall k :: m < k < a.Length ==> LargestAt(d, a[..], k)
    modifies a
    ensures InTable(d, a[..]) && multiset(a[..]) == old(multiset(a[..]))
    ensures forall k :: m <= k < a.Length ==> LargestAt(d, a[..], k)
  {
    for j := 0 to m
      invariant InTable(d, a[..]) && multiset(a[..]) == old(multiset(a[..]))
      invariant LargestAt(d, a[..], j) && forall k :: m < k < a.Length ==> LargestAt(d, a[..], k)
    {
      ghost var s := a[..];
      if d.entries[a[j]].off > d.entries[a[j + 1]].off { Swap(a, j, j + 1); }
      PassStep(d, s, a[..], j, m);
    }
  }

  lemma PassStep(d: Disk, s: seq<nat>, s': seq<nat>, j: nat, m: nat)
    requires InTable(d, s) && j < m < |s| && LargestAt(d, s, j) && forall k :: m < k < |s| ==> LargestAt(d, s, k)
    requires s' == if d.entries[s[j]].off > d.entries[s[j + 1]].off then s[j := s[j + 1]][j + 1 := s[j]] else s
    ensures InTable(d, s') && LargestAt(d, s', j + 1) && forall k :: m < k < |s| ==> LargestAt(d, s', k)
  {
    forall k | m < k < |s| ensures LargestAt(d, s', k) { assert LargestAt(d, s, k); }
  }

  lemma ByLargest(d: Disk, s: seq<nat>)
    requires InTable(d, s) && forall k :: 1 <= k < |s| ==> LargestAt(d, s, k)
    ensures SortedBy(d, s)
  {
    forall i, j | 0 <= i < j < |s| ensures d.entries[s[i]].off <= d.entries[s[j]].off { assert LargestAt(d, s, j); }
  }

  // ----- gaps

  ghost predicate NoDup(s: seq<nat>) { forall x :: multiset(s)[x] <= 1 }

  lemma NoDupIndex(s: seq<nat>, i: nat, j: nat)
    requires NoDup(s) && i < j < |s|
    ensures s[i] != s[j]
  {
    var head, one: seq<nat>, tail := s[..j], [s[j]], s[j + 1..];
    assert s == head + one + tail;
    assert multiset(s) == multiset(head) + multiset(one) + multiset(tail);
    assert s[i] == head[i] && s[i] in multiset(head);
    assert multiset(s)[s[j]] <= 1;
  }

  /** The occupied entries, each once, in the order of their offsets. */
  ghost predicate Ordered(d: Disk, a: seq<nat>) {
    SortedBy(d, a) && NoDup(a) && (forall i: nat :: Occupied(d, i) <==> i in a)
  }

  function End(d: Disk, i: nat): nat
    requires i < |d.entries|
  {
    d.entries[i].off + d.entries[i].size
  }

  /** In that order an object ends before the next one starts: no gap is negative. */
  lemma OneAfterOther(d: Disk, a: seq<nat>, i: nat, j: nat)
    requires TableOk(d) && Ordered(d, a) && i < j < |a|
    ensures End(d, a[i]) <= d.entries[a[j]].off
  {
    NoDupIndex(a, i, j);
    assert a[i] in a && a[j] in a;
    assert Occupied(d, a[i]) && Occupied(d, a[j]);
  }

  /** The place to the left of position `t`, of size `n`. */
  lemma GapFits(d: Disk, a: seq<nat>, t: nat, x: nat, n: nat)
    requires TableOk(d) && Ordered(d, a) && t <= |a| && Inside(d.store, x, n)
    requires t > 0 ==> End(d, a[t - 1]) <= x
    requires t < |a| ==> x + n <= d.entries[a[t]].off
    ensures Fits(d, x, n)
  {
    forall i: nat | Occupied(d, i) ensures Apart(x, n, d.entries[i].off, d.entries[i].size) {
      assert i in a;
      var k :| 0 <= k < |a| && a[k] == i;
      if k < t {
        if k < t - 1 { OneAfterOther(d, a, k, t - 1); }
      } else if k > t {
        OneAfterOther(d, a, t, k);
      }
    }
  }

  /** No room at the right end, in a gap, or at the left end. */
  predicate NoGap(d: Disk, a: seq<nat>, n: nat)
    requires InTable(d, a) && a != []
  {
    && SIZE < End(d, a[|a| - 1]) + n
    && (forall t :: 0 < t < |a| ==> d.entries[a[t]].off < End(d, a[t - 1]) + n)
    && d.entries[a[0]].off < d.store + n
  }

  lemma EntryInside(d: Disk, a: seq<nat>, k: nat)
    requires TableOk(d) && Ordered(d, a) && k < |a|
    ensures Occupied(d, a[k]) && Inside(d.store, d.entries[a[k]].off, d.entries[a[k]].size)
  {
    assert a[k] in a;
  }

  /** The first entry that ends beyond `x`. */
  lemma Beyond(d: Disk, a: seq<nat>, x: nat) returns (t: nat)
    requires InTable(d, a)
    ensures t <= |a| && (t > 0 ==> End(d, a[t - 1]) <= x) && (t < |a| ==> End(d, a[t]) > x)
  {
    t := 0;
    while t < |a| && End(d, a[t]) <= x
      invariant t <= |a| && (t > 0 ==> End(d, a[t - 1]) <= x)
    {
      t := t + 1;
    }
  }

  /** If no gap is large enough, the object fits nowhere. */
  lemma NoGapNoFit(d: Disk, a: seq<nat>, n: nat, x: nat)
    requires TableOk(d) && Ordered(d, a) && a != [] && n > 0 && NoGap(d, a, n)
    ensures !Fits(d, x, n)
  {
    var t := Beyond(d, a, x);
    if t < |a| { EntryInside(d, a, t); }
  }

  // ----- finding room

  /** The table entries in use, in the order of the table. */
  method Gather(d: Disk) returns (list: seq<nat>)
    requires |d.entries| >= 2
    ensures InTable(d, list) && NoDup(list) && forall i: nat :: Occupied(d, i) <==> i in list
  {
    list := [];
    for i := 2 to |d.entries|
      invariant InTable(d, list) && NoDup(list) && forall k: nat :: Occupied(d, k) && k < i <==> k in list
    {
      if d.entries[i].occ {
        assert i !in list;
        var one: seq<nat> := [i];
        assert multiset(list + one) == multiset(list) + multiset(one);
        list := list + one;
      }
    }
  }

  /** find_empty_space, up to the point where it would move the start of the store. */
  method FindEmptySpace(d: Disk, n: nat) returns (r: Option<nat>)
    requires TableOk(d) && n <= SIZE && ((exists i: nat :: Occupied(d, i)) || SIZE - n >= d.store)
    ensures r.Some? ==> Fits(d, r.value, n)
    ensures r.None? ==> forall x: nat :: !Fits(d, x, n)
    ensures (forall i: nat :: !Occupied(d, i)) ==> r == Some(SIZE - n)
  {
    var list := Gather(d);
    if list == [] {
      assert forall i: nat :: !Occupied(d, i);
      return Some(SIZE - n);
    }
    var entries := new nat[|list|](i requires 0 <= i < |list| => list[i]);
    assert entries[..] == list;
    BubbleSort(d, entries);
    Permuted(d, list, entries[..]);
    r := PickGap(d, entries[..], n);
  }

  lemma Permuted(d: Disk, s: seq<nat>, t: seq<nat>)
    requires multiset(s) == multiset(t) && NoDup(s) && SortedBy(d, t) && forall i: nat :: Occupied(d, i) <==> i in s
    ensures Ordered(d, t) && |s| == |t|
  {
    forall i: nat ensures Occupied(d, i) <==> i in t {
      assert i in s <==> i in multiset(s);
      assert i in t <==> i in multiset(t);
    }
    assert |multiset(s)| == |multiset(t)|;
  }

  /** The search through the sorted entries, from the right. */
  method PickGap(d: Disk, a: seq<nat>, n: nat) returns (r: Option<nat>)
    requires TableOk(d) && Ordered(d, a) && a != [] && n <= SIZE
    ensures r.Some? ==> Fits(d, r.value, n)
    ensures r.None? ==> forall x: nat :: !Fits(d, x, n)
  {
    var last := a[|a| - 1];
    EntryInside(d, a, |a| - 1);
    if SIZE - d.entries[last].off - d.entries[last].size >= n {
      GapFits(d, a, |a|, SIZE - n, n);
      return Some(SIZE - n);
    }
    r := PickBetween(d, a, n);
    if r.Some? { return; }
    EntryInside(d, a, 0);
    if d.entries[a[0]].off - d.store >= n {
      GapFits(d, a, 0, d.entries[a[0]].off - n, n);
      return Some(d.entries[a[0]].off - n);
    }
    forall x: nat ensures !Fits(d, x, n) { NoGapNoFit(d, a, n, x); }
    return None;
  }

  lemma GapBetween(d: Disk, a: seq<nat>, i: nat, n: nat)
    requires TableOk(d) && Ordered(d, a) && 0 < i < |a| && n > 0
    ensures End(d, a[i - 1]) <= d.entries[a[i]].off
    ensures d.entries[a[i]].off - End(d, a[i - 1]) >= n ==> Fits(d, d.entries[a[i]].off - n, n)
  {
    OneAfterOther(d, a, i - 1, i);
    EntryInside(d, a, i);
    EntryInside(d, a, i - 1);
    if d.entries[a[i]].off - End(d, a[i - 1]) >= n { GapFits(d, a, i, d.entries[a[i]].off - n, n); }
  }

  /** The loop over the gaps between two objects. */
  method PickBetween(d: Disk, a: seq<nat>, n: nat) returns (r: Option<nat>)
    requires TableOk(d) && Ordered(d, a) && a != [] && n > 0
    ensures r.Some? ==> Fits(d, r.value, n)
    ensures r.None? ==> forall t :: 0 < t < |a| ==> d.entries[a[t]].off < End(d, a[t - 1]) + n
  {
    var i := |a| - 1;
    while i > 0
      invariant 0 <= i < |a| && forall t :: i < t < |a| ==> d.entries[a[t]].off < End(d, a[t - 1]) + n
    {
      GapBetween(d, a, i, n);
      if d.entries[a[i]].off - d.entries[a[i - 1]].off - d.entries[a[i - 1]].size >= n {
        return Some(d.entries[a[i]].off - n);
      }
      i := i - 1;
    }
    return None;
  }

  // ----- objects

  /** The bytes of the object in entry `i`. */
  function Bytes(d: Disk, i: nat): seq<Byte>
    requires i < |d.entries| && End(d, i) <= |d.bytes|
  {
    d.bytes[d.entries[i].off..End(d, i)]
  }

  /** Entry `k` takes object `data` at `x`. */
  function Placed(d: Disk, k: nat, name: Name, x: nat, data: seq<Byte>): Disk
    requires k < |d.entries| && x + |data| <= |d.bytes|
  {
    d.(entries := d.entries[k := Entry(name, x, |data|, true)], bytes := Splice(d.bytes, x, data))
  }

  /** The objects of `d`, except for the one in entry `k`, are also in `d'`, byte for byte. */
  ghost predicate OthersKept(d: Disk, d': Disk, k: nat) {
    && |d'.entries| == |d.entries| && d'.store == d.store && |d.bytes| == |d'.bytes| == SIZE
    && (forall i :: 0 <= i < 2 && i < |d.entries| ==> d'.entries[i] == d.entries[i])
    && (forall i: nat :: i != k ==> (Occupied(d', i) <==> Occupied(d, i)))
    && (forall i: nat :: i != k && Occupied(d, i) ==>
          d'.entries[i] == d.entries[i] && End(d, i) <= SIZE && Bytes(d', i) == Bytes(d, i))
  }

  /** Writing an object where it fits disturbs no other. */
  lemma PlaceKeeps(d: Disk, k: nat, name: Name, x: nat, data: seq<Byte>)
    requires TableOk(d) && 2 <= k < |d.entries| && !d.entries[k].occ && Fits(d, x, |data|)
    requires |name| <= NAME_LENGTH && forall i :: 0 <= i < |d.entries| && Seen(d, i) ==> d.entries[i].name != name
    ensures var d' := Placed(d, k, name, x, data);
      TableOk(d') && OthersKept(d, d', k) && Occupied(d', k) && d'.entries[k].name == name && Bytes(d', k) == data
  {
    var d' := Placed(d, k, name, x, data);
    forall i: nat ensures Occupied(d', i) <==> i == k || Occupied(d, i) {}
    forall i: nat | i != k && Occupied(d, i) ensures End(d, i) <= SIZE && Bytes(d', i) == Bytes(d, i) {
      assert Apart(x, |data|, d.entries[i].off, d.entries[i].size);
    }
  }

  /** Taking an entry out of use keeps the table. */
  lemma VacateKeeps(d: Disk, k: nat)
    requires TableOk(d) && Occupied(d, k)
    ensures var d' := d.(entries := d.entries[k := d.entries[k].(occ := false)]);
      TableOk(d') && OthersKept(d, d', k) && !Occupied(d', k)
  {
    var d' := d.(entries := d.entries[k := d.entries[k].(occ := false)]);
    forall i: nat ensures Occupied(d', i) <==> i != k && Occupied(d, i) {}
  }

  /** An object that does not grow is written where it is. */
  lemma ShrinkKeeps(d: Disk, k: nat, data: seq<Byte>)
    requires TableOk(d) && Occupied(d, k) && Visible(d.entries[k]) && 0 < |data| <= d.entries[k].size
    ensures var e := d.entries[k]; e.off + |data| <= |d.bytes| && var d' := Placed(d, k, e.name, e.off, data);
      TableOk(d') && OthersKept(d, d', k) && Occupied(d', k) && Bytes(d', k) == data
  {
    var e := d.entries[k];
    assert Inside(d.store, e.off, e.size);
    var d1 := d.(entries := d.entries[k := e.(occ := false)]);
    VacateKeeps(d, k);
    forall i: nat | Occupied(d1, i) ensures Apart(e.off, |data|, d1.entries[i].off, d1.entries[i].size) {
      assert Occupied(d, i) && Apart(e.off, e.size, d.entries[i].off, d.entries[i].size);
    }
    forall i | 0 <= i < |d1.entries| && Seen(d1, i) ensures d1.entries[i].name != e.name {
      assert i != k && Seen(d, i) && Seen(d, k);
    }
    PlaceKeeps(d1, k, e.name, e.off, data);
    assert Placed(d1, k, e.name, e.off, data) == Placed(d, k, e.name, e.off, data);
  }

  datatype Result = Ok | NameTooLong | Exists | NotExists | NoSpace | TableFull

  class Device {
    var d: Disk

    /** init_obj_device, with `slots` entries in the table and the two names of its own objects. */
    constructor (slots: nat, store: nat, superName: Name, tableName: Name)
      requires slots >= 2 && store <= SIZE && superName != tableName
      requires |superName| < NAME_LENGTH && |tableName| < NAME_LENGTH
      ensures TableOk(d) && (forall i: nat :: !Occupied(d, i)) && d.store == store && |d.entries| == slots
      ensures d.entries[0].name == superName && d.entries[1].name == tableName
    {
      var free := Entry("", 0, 0, false);
      var own := [Entry(superName, 0, 0, true), Entry(tableName, 0, 0, true)];
      d := Disk(own + seq(slots - 2, i => free), store, seq(327680, i => 0));
    }

    /** get_objects_table_index: the first visible entry of that name. */
    method Lookup(name: Name) returns (r: Option<nat>)
      requires TableOk(d) && |name| <= NAME_LENGTH
      ensures r.Some? ==> r.value < |d.entries| && Seen(d, r.value) && d.entries[r.value].name == name
      ensures r.None? ==> forall i :: 0 <= i < |d.entries| && Seen(d, i) ==> d.entries[i].name != name
    {
      for i := 0 to |d.entries|
        invariant forall j :: 0 <= j < i && Seen(d, j) ==> d.entries[j].name != name
      {
        if d.entries[i].occ {
          var same := IdCmp(d.entries[i], name);
          if same { return Some(i); }
        }
      }
      return None;
    }

    method FindVacant() returns (r: Option<nat>)
      ensures r.Some? ==> 2 <= r.value < |d.entries| && !d.entries[r.value].occ
      ensures r.Some? ==> forall i :: 2 <= i < r.value ==> d.entries[i].occ
      ensures r.None? ==> forall i :: 2 <= i < |d.entries| ==> d.entries[i].occ
    {
      var i := 2;
      while i < |d.entries|
        invariant 2 <= i && forall j :: 2 <= j < i && j < |d.entries| ==> d.entries[j].occ
      {
        if !d.entries[i].occ { return Some(i); }
        i := i + 1;
      }
      return None;
    }

    /** add_object; `k` is the new entry. Afterwards lookups find it, and nothing else of its name,
        exactly when it is visible. */
    method Add(name: Name, data: seq<Byte>) returns (r: Result, ghost k: nat)
      requires TableOk(d) && ((exists i: nat :: Occupied(d, i)) || d.store + |data| <= SIZE)
      modifies this
      ensures TableOk(d) && (!r.Ok? ==> d == old(d)) && !r.NotExists?
      ensures r.Ok? ==> OthersKept(old(d), d, k) && !Occupied(old(d), k) && Holds(d, k, name) && Bytes(d, k) == data
      ensures r.Ok? ==> forall i: nat :: Found(d, i, name) <==> i == k && Visible(d.entries[k])
      ensures r.Ok? && (forall i: nat :: !Occupied(old(d), i)) ==> d.entries[k].off == SIZE - |data|
      ensures r.NameTooLong? <==> |name| > NAME_LENGTH
      ensures r.Exists? <==>
        |name| <= NAME_LENGTH && |data| <= SIZE && (NotReserved(d, name) ==> exists i: nat :: Found(old(d), i, name))
      ensures r.NoSpace? ==> forall x: nat :: !Fits(d, x, |data|)
      ensures r.TableFull? ==> forall i :: 0 <= i < |d.entries| ==> d.entries[i].occ
    {
      k := 0;
      if |name| > NAME_LENGTH { return NameTooLong, k; }
      if SIZE < |data| { return NoSpace, k; }
      var found := Lookup(name);
      if found.Some? {
        if NotReserved(d, name) { assert Found(d, found.value, name); }
        return Exists, k;
      }
      assert Seen(d, 0) && Seen(d, 1);
      var vacant := FindVacant();
      if vacant.None? { return TableFull, k; }
      var x := FindEmptySpace(d, |data|);
      if x.None? { return NoSpace, k; }
      k := vacant.value;
      PlaceKeeps(d, k, name, x.value, data);
      d := Placed(d, vacant.value, name, x.value, data);
      return Ok, k;
    }

    /** write_object of an object that is not empty; `k` is its entry. */
    method Write(name: Name, data: seq<Byte>) returns (r: Result, ghost k: nat)
      requires TableOk(d) && |data| > 0 && NotReserved(d, name)
      requires (exists i: nat :: Occupied(d, i) && d.entries[i].name != name) || d.store + |data| <= SIZE
      modifies this
      ensures TableOk(d) && (!r.Ok? ==> d == old(d))
      ensures r.Ok? ==> Found(old(d), k, name) && OthersKept(old(d), d, k) && Holds(d, k, name) && Bytes(d, k) == data
      ensures r.Ok? ==> forall i: nat :: Found(d, i, name) <==> i == k && Visible(d.entries[k])
      ensures r.NameTooLong? <==> |name| > NAME_LENGTH
      ensures r.NotExists? ==> forall i: nat :: !Found(d, i, name)
      ensures r.NoSpace? ==> |data| > SIZE || (Found(d, k, name) && |data| > d.entries[k].size)
      ensures r.Ok? || r.NameTooLong? || r.NotExists? || r.NoSpace?
    {
      k := 0;
      if |name| > NAME_LENGTH { return NameTooLong, k; }
      if SIZE < |data| { return NoSpace, k; }
      var found := Lookup(name);
      if found.None? { return NotExists, k; }
      var i := found.value;
      k := i;
      if d.entries[i].size >= |data| {
        ShrinkKeeps(d, i, data);
        d := Placed(d, i, name, d.entries[i].off, data);
        return Ok, k;
      }
      r := Grow(i, name, data);
    }

    /** write_object of an object that grows: its entry is out of use while a place is looked for. */
    method Grow(k: nat, name: Name, data: seq<Byte>) returns (r: Result)
      requires TableOk(d) && |data| <= SIZE && Found(d, k, name)
      requires (exists i: nat :: i != k && Occupied(d, i)) || d.store + |data| <= SIZE
      modifies this
      ensures TableOk(d) && (!r.Ok? ==> d == old(d) && r.NoSpace?)
      ensures r.Ok? ==> OthersKept(old(d), d, k) && Holds(d, k, name) && Bytes(d, k) == data
    {
      ghost var d0 := d;
      VacateKeeps(d, k);
      d := d.(entries := d.entries[k := d.entries[k].(occ := false)]);
      assert (exists i: nat :: Occupied(d, i)) || d.store + |data| <= SIZE by {
        if i: nat :| i != k && Occupied(d0, i) { assert Occupied(d, i); }
      }
      var x := FindEmptySpace(d, |data|);
      if x.None? {
        d := d.(entries := d.entries[k := d.entries[k].(occ := true)]);
        assert d == d0;
        return NoSpace;
      }
      PlaceKeeps(d, k, name, x.value, data);
      d := Placed(d, k, name, x.value, data);
      return Ok;
    }

    /** get_object. */
    method Get(name: Name) returns (r: Result, data: seq<Byte>, ghost k: nat)
      requires TableOk(d) && NotReserved(d, name)
      ensures r.Ok? ==> Found(d, k, name) && End(d, k) <= SIZE && data == Bytes(d, k)
      ensures r.NameTooLong? <==> |name| > NAME_LENGTH
      ensures r.Ok? || r.NameTooLong? || (r.NotExists? && forall i: nat :: !Found(d, i, name))
    {
      k := 0;
      if |name| > NAME_LENGTH { return NameTooLong, [], k; }
      var found := Lookup(name);
      if found.None? { return NotExists, [], k; }
      var i := found.value;
      k := i;
      assert Occupied(d, i) && Inside(d.store, d.entries[i].off, d.entries[i].size);
      return Ok, d.bytes[d.entries[i].off..d.entries[i].off + d.entries[i].size], k;
    }

    /** delete_object. */
    method Delete(name: Name) returns (r: Result, ghost k: nat)
      requires TableOk(d) && NotReserved(d, name)
      modifies this
      ensures TableOk(d) && (!r.Ok? ==> d == old(d))
      ensures r.Ok? ==> Found(old(d), k, name) && OthersKept(old(d), d, k) && !Occupied(d, k)
      ensures r.Ok? ==> forall i: nat :: !Found(d, i, name)
      ensures r.NameTooLong? <==> |name| > NAME_LENGTH
      ensures r.Ok? || r.NameTooLong? || (r.NotExists? && forall i: nat :: !Found(d, i, name))
    {
      k := 0;
      if |name| > NAME_LENGTH { return NameTooLong, k; }
      var found := Lookup(name);
      if found.None? { return NotExists, k; }
      var i := found.value;
      k := i;
      VacateKeeps(d, i);
      d := d.(entries := d.entries[i := d.entries[i].(occ := false)]);
      return Ok, k;
    }
  }

  /** Entry `k` holds the object `name`. */
  predicate Holds(d: Disk, k: nat, name: Name) { Occupied(d, k) && d.entries[k].name == name }

  /** Lookups of `name` stop at entry `k`. */
  predicate Found(d: Disk, k: nat, name: Name) { Holds(d, k, name) && Visible(d.entries[k]) }

  /** An object is found exactly when its name is shorter than the field or its offset is a multiple
      of 256; then it is the only one found under that name. */
  lemma FoundExactly(d: Disk, k: nat, name: Name)
    requires TableOk(d) && Holds(d, k, name)
    ensures Found(d, k, name) <==> |name| <= 19 || d.entries[k].off % 256 == 0
    ensures Found(d, k, name) ==> forall i: nat :: Found(d, i, name) ==> i == k
    ensures |name| <= 19 ==> forall i: nat :: Holds(d, i, name) ==> i == k
  {
    forall i: nat | Found(d, i, name) && Found(d, k, name) ensures i == k {
      assert Seen(d, i) && Seen(d, k);
    }
  }

  /** `name` is not the super block or the table. */
  predicate NotReserved(d: Disk, name: Name) {
    |d.entries| >= 2 && d.entries[0].name != name && d.entries[1].name != name
  }

  /** An object of one byte with any name of twenty characters: it is stored, a lookup does not find
      it, and a second object is stored under the same name. */
  method LongNameLost(name: Name) returns (added: Result, got: Result, again: Result)
    requires |name| == NAME_LENGTH
    ensures added == Ok && got == NotExists && again == Ok
  {
    var device := new Device(4, 0, [1 as char], [2 as char]);
    ghost var k, j, data;
    ghost var d0 := device.d;
    assert Fits(d0, 0, 1) && !Occupied(d0, 2) && !d0.entries[2].occ && NotReserved(d0, name);
    added, k := device.Add(name, [1]);
    assert added == Ok;
    ghost var d1, i := device.d, if k == 2 then 3 else 2;
    assert Fits(d1, 0, 1) && !Occupied(d0, i) && !Occupied(d1, i) && !d1.entries[i].occ && NotReserved(d1, name);
    got, data, j := device.Get(name);
    again, j := device.Add(name, [2]);
  }
}
