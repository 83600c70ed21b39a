/** The clipboard table: an array with an empty slot at its end, kept without
    gaps by shifting, against a bounded map ordered by age; and the reference
    counts of the objects in it. */
module Clipboard {

  const TYPE_NONE := 0
  const TYPE_ALL := 0xffff_ffff

  /** How many entries the table has room for. */
  const CAPACITY := 32

  /** A counted object. outside is how many references others hold. */
  class Data {
    const kind: nat
    var refs: nat
    var alive: bool
    ghost var outside: nat

    constructor (k: nat)
      ensures kind == k && refs == 0 && alive && outside == 0
    {
      kind, refs, alive, outside := k, 0, true, 0;
    }

    method AddRef()
      requires alive
      modifies this
      ensures refs == old(refs) + 1 && alive && outside == old(outside)
    {
      refs := refs + 1;
    }

    method Release()
      requires alive
      modifies this
      ensures outside == old(outside)
      ensures if old(refs) > 1 then alive && refs == old(refs) - 1 else !alive
    {
      if refs > 1 {
        refs := refs - 1;
      } else {
        alive := false;
      }
    }
  }

  datatype Slot = Slot(kind: nat, data: Data?)

  const EMPTY := Slot(TYPE_NONE, null)

  // ----- a map ordered by age -----

  /** Entries of different types, the oldest first. */
  ghost predicate IsMap(e: seq<Slot>) {
    && |e| <= CAPACITY
    && (forall i :: 0 <= i < |e| ==> IsEntry(e[i]))
    && forall i, j :: 0 <= i < j < |e| ==> e[i].kind != e[j].kind
  }

  predicate IsEntry(s: Slot) {
    s.kind != TYPE_NONE && s.data != null && s.data.kind == s.kind
  }

  function Find(e: seq<Slot>, kind: nat): (i: nat)
    ensures i <= |e| && (i < |e| ==> e[i].kind == kind) && forall k :: 0 <= k < i ==> e[k].kind != kind
  {
    if e == [] || e[0].kind == kind then 0 else 1 + Find(e[1..], kind)
  }

  function Without(e: seq<Slot>, i: nat): seq<Slot>
    requires i < |e|
  {
    e[..i] + e[i + 1..]
  }

  /** Clear: one type, or all. */
  function Removed(e: seq<Slot>, kind: nat): seq<Slot> {
    if kind == TYPE_ALL then []
    else if Find(e, kind) < |e| then Without(e, Find(e, kind))
    else e
  }

  /** Set: the newest entry, in place of one of its type, or of the oldest if
      there is no room. */
  function Stored(e: seq<Slot>, s: Slot): seq<Slot> {
    Appended(Removed(e, s.kind), s)
  }

  function Appended(e: seq<Slot>, s: Slot): seq<Slot> {
    if |e| == CAPACITY then e[1..] + [s] else e + [s]
  }

  /** Whether the table takes a new entry without coming into disorder: its type
      must not be the mark of an empty slot, and if the oldest entry has to go,
      its type must not be the word for all types. */
  predicate Accepts(e: seq<Slot>, kind: nat) {
    kind != TYPE_NONE && (|e| == CAPACITY ==> e[0].kind != TYPE_ALL)
  }

  lemma WithoutIsMap(e: seq<Slot>, i: nat)
    requires IsMap(e) && i < |e|
    ensures IsMap(Without(e, i))
  {
  }

  lemma WithoutHas(e: seq<Slot>, i: nat, s: Slot)
    requires IsMap(e) && i < |e|
    ensures s in Without(e, i) <==> s in e && s.kind != e[i].kind
  {
    var rest := Without(e, i);
    if s in e && s.kind != e[i].kind {
      var k :| 0 <= k < |e| && e[k] == s;
      assert rest[if k < i then k else k - 1] == s;
    }
    if s in rest {
      var k :| 0 <= k < |rest| && rest[k] == s;
      assert e[if k < i then k else k + 1] == s;
    }
  }

  /** Removing a type removes its entry and nothing else, and keeps the order. */
  lemma RemovedKeepsOthers(e: seq<Slot>, kind: nat)
    requires IsMap(e)
    ensures IsMap(Removed(e, kind))
    ensures forall s :: s in Removed(e, kind) <==> s in e && s.kind != kind && kind != TYPE_ALL
    ensures |Removed(e, kind)| == if kind == TYPE_ALL then 0 else if Find(e, kind) < |e| then |e| - 1 else |e|
  {
    hide IsMap;
    var i := Find(e, kind);
    if kind == TYPE_ALL {
      EmptyIsMap();
    } else if i < |e| {
      WithoutIsMap(e, i);
      forall s
        ensures s in Removed(e, kind) <==> s in e && s.kind != kind
      {
        WithoutHas(e, i, s);
      }
    }
  }

  /** Entries that stay keep their order. */
  lemma RemovedKeepsOrder(e: seq<Slot>, kind: nat, i: nat, j: nat)
    requires IsMap(e) && i < j < |Removed(e, kind)|
    ensures Find(e, Removed(e, kind)[i].kind) < Find(e, Removed(e, kind)[j].kind) < |e|
  {
    hide IsMap, Removed, Find;
    var i', j' := PlaceBefore(e, kind, i), PlaceBefore(e, kind, j);
    FindsItself(e, i');
    FindsItself(e, j');
  }

  /** Where an entry was that is at place i after a type has been removed. */
  function PlaceBefore(e: seq<Slot>, kind: nat, i: nat): (k: nat)
    requires i < |Removed(e, kind)|
    ensures k < |e| && Removed(e, kind)[i] == e[k]
    ensures k == if i < Find(e, kind) then i else i + 1
  {
    if i < Find(e, kind) then i else i + 1
  }

  lemma FindsItself(e: seq<Slot>, i: nat)
    requires IsMap(e) && i < |e|
    ensures Find(e, e[i].kind) == i
  {
  }

  lemma EmptyIsMap()
    ensures IsMap([])
  {
  }

  /** Storing: the new entry is the newest, every entry of another type stays,
      except the oldest of a full table. */
  lemma StoredIsUpdate(e: seq<Slot>, s: Slot)
    requires IsMap(e) && IsEntry(s)
    ensures IsMap(Stored(e, s)) && Stored(e, s)[|Stored(e, s)| - 1] == s
    ensures forall t: Slot :: t.kind != s.kind ==>
      (t in Stored(e, s) <==> t in e && s.kind != TYPE_ALL && !(|Removed(e, s.kind)| == CAPACITY && t == e[0]))
  {
    RemovedKeepsOthers(e, s.kind);
    var rest := Removed(e, s.kind);
    if |rest| == CAPACITY {
      assert rest == e;
      forall t: Slot | t.kind != s.kind
        ensures t in Stored(e, s) <==> t in e && t != e[0]
      {
        if t in e && t != e[0] {
          var k :| 0 <= k < |e| && e[k] == t;
          assert Stored(e, s)[k - 1] == t;
        }
      }
    } else {
      assert Stored(e, s) == rest + [s];
    }
  }

  /** The entries in front of the new one keep their order too. */
  lemma StoredKeepsOrder(e: seq<Slot>, s: Slot, i: nat, j: nat)
    requires IsMap(e) && i < j < |Stored(e, s)| - 1
    ensures Find(e, Stored(e, s)[i].kind) < Find(e, Stored(e, s)[j].kind) < |e|
  {
    var rest := Removed(e, s.kind);
    var shift := if |rest| == CAPACITY then 1 else 0;
    assert Stored(e, s)[i] == rest[i + shift] && Stored(e, s)[j] == rest[j + shift];
    RemovedKeepsOrder(e, s.kind, i + shift, j + shift);
  }

  // ----- reference counts -----

  /** How many slots hold an object: its type is in the table at most once. */
  ghost function Holding(e: seq<Slot>, d: Data): nat {
    if exists i :: 0 <= i < |e| && e[i].data == d then 1 else 0
  }

  /** The count is right, and nothing refers to an object that is gone. */
  ghost predicate CountIsRight(d: Data, e: seq<Slot>)
    reads d
  {
    if d.alive then d.refs == d.outside + Holding(e, d) else d.outside + Holding(e, d) == 0
  }

  ghost predicate Counted(world: set<Data>, e: seq<Slot>)
    reads world
  {
    && (forall d :: d in world ==> CountIsRight(d, e))
    && (forall i :: 0 <= i < |e| ==> e[i].data in world)
  }

  lemma HoldingWithout(e: seq<Slot>, i: nat, d: Data)
    requires IsMap(e) && i < |e|
    ensures Holding(Without(e, i), d) == if e[i].data == d then 0 else Holding(e, d)
  {
    var rest := Without(e, i);
    if e[i].data == d {
      forall k | 0 <= k < |rest|
        ensures rest[k].data != d
      {
        assert rest[k] == e[if k < i then k else k + 1];
      }
    } else if Holding(e, d) == 1 {
      var k :| 0 <= k < |e| && e[k].data == d;
      assert rest[if k < i then k else k - 1] == e[k];
    } else {
      forall k | 0 <= k < |rest|
        ensures rest[k].data != d
      {
        assert rest[k] == e[if k < i then k else k + 1];
      }
    }
  }

  /** Releases the object of one entry. */
  method ReleaseEntry(ghost world: set<Data>, ghost e: seq<Slot>, ghost i: nat, d: Data)
    requires IsMap(e) && Counted(world, e) && i < |e| && e[i].data == d
    modifies d
    ensures Counted(world, Without(e, i)) && d.outside == old(d.outside)
  {
    assert CountIsRight(d, e) && Holding(e, d) == 1;
    forall o | o in world
      ensures Holding(Without(e, i), o) == if o == d then 0 else Holding(e, o)
    {
      HoldingWithout(e, i, o);
    }
    assert forall o :: o in world && o != d ==> CountIsRight(o, Without(e, i));
    d.Release();
  }

  // ----- the table -----

  function Padded(e: seq<Slot>): seq<Slot>
    requires |e| <= CAPACITY
  {
    e + seq(CAPACITY + 1 - |e|, _ => EMPTY)
  }

  class Table {
    const slots: array<Slot>
    ghost var entries: seq<Slot>

    constructor ()
      ensures Valid() && entries == [] && fresh(slots)
    {
      slots := new Slot[CAPACITY + 1](_ => EMPTY);
      entries := [];
      new;
      assert slots[..] == Padded([]);
    }

    /** The entries stand in front of the table, and the rest of it is empty. */
    ghost predicate Valid()
      reads this, slots
    {
      IsMap(entries) && slots[..] == Padded(entries)
    }

    /** Releases an entry and moves the ones behind it down. */
    method CloseGap(k: nat)
      requires Valid() && k < |entries|
      modifies this`entries, slots
      ensures Valid() && entries == Without(old(entries), k)
    {
      ghost var before := slots[..];
      assert before == Padded(entries);
      PaddedKinds(entries);
      var i := k + 1;
      while slots[i - 1].kind != TYPE_NONE
        invariant k + 1 <= i <= |entries| + 1 && entries == old(entries)
        invariant forall j {:trigger slots[j]} :: 0 <= j <= CAPACITY ==>
          slots[j] == if k <= j < i - 1 then before[j + 1] else before[j]
        decreases |entries| + 1 - i
      {
        assert Padded(entries)[i - 1].kind != TYPE_NONE;
        slots[i - 1] := slots[i];
        i := i + 1;
      }
      WithoutIsMap(entries, k);
      entries := Without(entries, k);
      assert Padded(entries) == slots[..];
    }

    /** Clear: the number of entries that go. */
    method Clear(kind: nat, ghost world: set<Data>) returns (count: nat)
      requires Valid() && Counted(world, entries)
      modifies this`entries, slots, world
      ensures Valid() && Counted(world, entries)
      ensures entries == Removed(old(entries), kind) && count == |old(entries)| - |entries|
      ensures forall d :: d in world ==> d.outside == old(d.outside)
      ensures forall d :: d in world && Holding(old(entries), d) == 0 ==>
        d.refs == old(d.refs) && d.alive == old(d.alive)
    {
      if kind == TYPE_ALL {
        count := ClearAll(world);
        return;
      }
      PaddedKinds(entries);
      count := 0;
      var i := 0;
      while slots[i].kind != TYPE_NONE
        invariant Valid() && Counted(world, entries) && entries == old(entries)
        invariant i <= |entries| && forall j :: 0 <= j < i ==> entries[j].kind != kind
        invariant forall d :: d in world ==> d.outside == old(d.outside)
        invariant forall d :: d in world ==> d.refs == old(d.refs) && d.alive == old(d.alive)
        decreases |entries| - i
      {
        if slots[i].kind == kind {
          FirstOfKind(entries, i, kind);
          var d := slots[i].data;
          ReleaseEntry(world, entries, i, d);
          count := count + 1;
          CloseGap(i);
          return;
        }
        i := i + 1;
      }
      NoneOfKind(entries, kind);
    }

    /** Clear for all types. */
    method ClearAll(ghost world: set<Data>) returns (count: nat)
      requires Valid() && Counted(world, entries)
      modifies this`entries, slots, world
      ensures Valid() && Counted(world, entries) && entries == [] && count == |old(entries)|
      ensures forall d :: d in world ==> d.outside == old(d.outside)
      ensures forall d :: d in world && Holding(old(entries), d) == 0 ==>
        d.refs == old(d.refs) && d.alive == old(d.alive)
    {
      hide IsMap, Holding, CountIsRight, Padded, Without;
      ghost var all, before := entries, slots[..];
      PaddedKinds(all);
      EmptyIsMap();
      count := 0;
      assert all[0..] == all;
      while slots[count].kind != TYPE_NONE
        invariant count <= |all| && entries == all && IsMap(all[count..]) && Counted(world, all[count..])
        invariant forall j {:trigger slots[j]} :: 0 <= j <= CAPACITY ==>
          slots[j] == if j < count then EMPTY else before[j]
        invariant forall d :: d in world ==> d.outside == old(d.outside)
        invariant forall d :: d in world && Holding(all, d) == 0 ==> d.refs == old(d.refs) && d.alive == old(d.alive)
        decreases |all| - count
      {
        slots[count] := slots[count].(kind := TYPE_NONE);
        var d := slots[count].data;
        RestOfMap(all, count);
        ReleaseEntry(world, all[count..], 0, d);
        slots[count] := slots[count].(data := null);
        count := count + 1;
      }
      entries := [];
      assert all[count..] == [];
      AllEmpty(slots[..]);
    }

    /** The first empty slot is behind the entries. */
    method FirstEmpty() returns (i: nat)
      requires Valid()
      ensures i == |entries| <= CAPACITY
    {
      hide IsMap, Padded, IsTable;
      PaddedKinds(entries);
      i := 0;
      while i < CAPACITY && slots[i].kind != TYPE_NONE
        invariant i <= |entries| && Valid()
      {
        i := i + 1;
      }
    }

    /** The second half of SetClipboardData: the object, whose type is not in the
        table any more, goes behind the entries. One of its outside references
        becomes that of the table. */
    method StoreNewest(d: Data, ghost world: set<Data>)
      requires Valid() && Counted(world, entries) && d in world && d.alive && d.outside > 0
      requires Find(entries, d.kind) == |entries|
      modifies this`entries, slots, world
      ensures if Accepts(old(entries), d.kind)
              then Valid() && Counted(world, entries) && entries == Appended(old(entries), Slot(d.kind, d))
              else !IsTable(slots[..])
      ensures Accepts(old(entries), d.kind) ==>
        forall o :: o in world ==> o.outside == old(o.outside) - (if o == d then 1 else 0)
    {
      hide IsMap, CountIsRight, Padded, IsTable;
      ghost var e, s := entries, Slot(d.kind, d);
      PaddedKinds(e);
      TypeIsNew(e, d);
      var i := FirstEmpty();
      if i == CAPACITY {
        RemovedOldest(e);
        var removed := Clear(slots[0].kind, world);
        i := i - 1;
      }
      PaddedKinds(entries);
      slots[i] := Slot(d.kind, d);
      if d.kind == TYPE_NONE {
        HoleIsNoTable(slots[..], i);
      } else if i > |entries| {
        GapIsNoTable(slots[..], i);
      } else {
        NewestIsMap(entries, s);
        SlotsPadded(slots[..], entries, s);
        TakeOver(world, entries, s, d);
        entries := entries + [s];
      }
    }

    /** What is left when the existing data is to be cleared first. */
    ghost function Start(clearExistingData: bool): seq<Slot>
      reads this
    {
      if clearExistingData then [] else entries
    }

    /** SetClipboardData. If existing data is cleared, the caller has to hold a
        reference to an object that is in the table, or the object would be gone. */
    method SetClipboardData(d: Data?, clearExistingData: bool, ghost world: set<Data>)
      requires Valid() && Counted(world, entries)
      requires d != null ==> d in world && d.alive
      requires d != null && clearExistingData ==> d.outside > 0 || Holding(entries, d) == 0
      modifies this`entries, slots, world
      ensures d == null ==> Valid() && Counted(world, entries) && entries == old(Start(clearExistingData))
      ensures d != null ==>
        if Accepts(Removed(old(Start(clearExistingData)), d.kind), d.kind)
        then Valid() && Counted(world, entries) && entries == Stored(old(Start(clearExistingData)), Slot(d.kind, d))
             && (forall o :: o in world ==> o.outside == old(o.outside))
        else !IsTable(slots[..])
    {
      hide IsMap, Padded, IsTable, Holding;
      if clearExistingData {
        var cleared := ClearAll(world);
      }
      if d != null {
        assert CountIsRight(d, entries);
        d.AddRef();
        d.outside := d.outside + 1;
        assert forall o :: o in world && o != d ==> CountIsRight(o, entries);
        ghost var start := entries;
        var removed := Clear(d.kind, world);
        RemovedType(start, d.kind);
        assert CountIsRight(d, entries);
        StoreNewest(d, world);
      }
    }

    /** GetClipboardData. A caller that asks for the object gets a reference. */
    method GetClipboardData(kind: nat, wanted: bool, ghost world: set<Data>) returns (found: bool, d: Data?)
      requires Valid() && Counted(world, entries)
      modifies world
      ensures Valid() && Counted(world, entries)
      ensures found <==> Find(entries, kind) < |entries|
      ensures d == if found && wanted then entries[Find(entries, kind)].data else null
      ensures forall o :: o in world ==> o.outside == old(o.outside) + if o == d then 1 else 0
    {
      hide IsMap, Padded, Holding;
      PaddedKinds(entries);
      var i := 0;
      while slots[i].kind != TYPE_NONE
        invariant Valid() && Counted(world, entries)
        invariant i <= |entries| && forall j :: 0 <= j < i ==> entries[j].kind != kind
        invariant forall o :: o in world ==> o.outside == old(o.outside)
        decreases |entries| - i
      {
        if slots[i].kind == kind {
          FirstOfKind(entries, i, kind);
          d := null;
          if wanted {
            RestOfMap(entries, i);
            d := slots[i].data;
            TakeReference(d, world, entries);
          }
          return true, d;
        }
        i := i + 1;
      }
      NoneOfKind(entries, kind);
      return false, null;
    }

    /** GetDataTypes: the types, the oldest first, as many as there is room for. */
    method GetDataTypes(types: array?<nat>, count: nat) returns (n: nat)
      requires Valid() && (types != null ==> count <= types.Length)
      modifies types
      ensures Valid() && n == if count < |entries| then count else |entries|
      ensures types != null ==> forall i :: 0 <= i < types.Length ==>
        types[i] == if i < n then entries[i].kind else old(types[i])
    {
      PaddedKinds(entries);
      n := 0;
      while n < count && slots[n].kind != TYPE_NONE
        invariant n <= |entries| && n <= count && Valid()
        invariant types != null ==> forall i :: 0 <= i < types.Length ==>
          types[i] == if i < n then entries[i].kind else old(types[i])
      {
        if types != null {
          types[n] := slots[n].kind;
        }
        n := n + 1;
      }
    }
  }

  /** Somebody outside takes a reference to an object. */
  method TakeReference(d: Data, ghost world: set<Data>, ghost e: seq<Slot>)
    requires Counted(world, e) && d in world && d.alive
    modifies d
    ensures Counted(world, e) && d.outside == old(d.outside) + 1 && d.alive
  {
    assert CountIsRight(d, e);
    d.AddRef();
    d.outside := d.outside + 1;
    assert forall o :: o in world && o != d ==> CountIsRight(o, e);
  }

  /** Somebody outside gives a reference back. The object goes exactly when this
      was the last reference and no slot holds it. */
  method DropReference(d: Data, ghost world: set<Data>, ghost e: seq<Slot>)
    requires Counted(world, e) && d in world && d.outside > 0
    modifies d
    ensures Counted(world, e) && d.outside == old(d.outside) - 1
    ensures d.alive <==> d.outside > 0 || Holding(e, d) == 1
  {
    assert CountIsRight(d, e);
    d.Release();
    d.outside := d.outside - 1;
    assert forall o :: o in world && o != d ==> CountIsRight(o, e);
  }

  lemma RemovedType(e: seq<Slot>, kind: nat)
    requires IsMap(e)
    ensures Find(Removed(e, kind), kind) == |Removed(e, kind)|
  {
    RemovedKeepsOthers(e, kind);
    var rest := Removed(e, kind);
    forall i | 0 <= i < |rest|
      ensures rest[i].kind != kind
    {
      assert rest[i] in rest;
    }
    NoneOfKind(rest, kind);
  }

  lemma TypeIsNew(e: seq<Slot>, d: Data)
    requires IsMap(e) && Find(e, d.kind) == |e|
    ensures forall i :: 0 <= i < |e| ==> e[i].kind != d.kind && e[i].data != d
  {
    forall i | 0 <= i < |e|
      ensures e[i].kind != d.kind && e[i].data != d
    {
      assert IsEntry(e[i]);
    }
  }

  lemma RemovedOldest(e: seq<Slot>)
    requires IsMap(e) && |e| > 0
    ensures Removed(e, e[0].kind) == if e[0].kind == TYPE_ALL then [] else e[1..]
  {
    FirstOfKind(e, 0, e[0].kind);
  }

  /** The entries of some map, and empty slots behind them. */
  ghost predicate IsTable(s: seq<Slot>) {
    exists n :: 0 <= n <= CAPACITY && EndsAt(s, n)
  }

  ghost predicate EndsAt(s: seq<Slot>, n: nat) {
    |s| == CAPACITY + 1 && n <= CAPACITY && IsMap(s[..n]) && forall j :: n <= j < |s| ==> s[j] == EMPTY
  }

  lemma HoleIsNoTable(s: seq<Slot>, i: nat)
    requires i < |s| && s[i].kind == TYPE_NONE && s[i].data != null
    ensures !IsTable(s)
  {
    forall n: nat | n <= CAPACITY
      ensures !EndsAt(s, n)
    {
      if i < n && n <= |s| {
        assert !IsEntry(s[..n][i]);
      }
    }
  }

  lemma GapIsNoTable(s: seq<Slot>, i: nat)
    requires 0 < i < |s| && s[0] == EMPTY && s[i].kind != TYPE_NONE
    ensures !IsTable(s)
  {
    forall n: nat | n <= CAPACITY
      ensures !EndsAt(s, n)
    {
      if 0 < n && n <= |s| {
        assert !IsEntry(s[..n][0]);
      }
    }
  }

  lemma NewestIsMap(e: seq<Slot>, s: Slot)
    requires IsMap(e) && |e| < CAPACITY && IsEntry(s) && forall i :: 0 <= i < |e| ==> e[i].kind != s.kind
    ensures IsMap(e + [s])
  {
  }

  lemma SlotsPadded(slots: seq<Slot>, e: seq<Slot>, s: Slot)
    requires |e| < CAPACITY && slots == Padded(e)[|e| := s]
    ensures slots == Padded(e + [s])
  {
  }

  /** A new entry turns an outside reference of its object into one of the table. */
  ghost method TakeOver(world: set<Data>, e: seq<Slot>, s: Slot, d: Data)
    requires Counted(world, e) && d in world && d.outside > 0 && s.data == d
    requires forall i :: 0 <= i < |e| ==> e[i].data != d
    modifies d`outside
    ensures Counted(world, e + [s]) && d.outside == old(d.outside) - 1
  {
    assert CountIsRight(d, e);
    assert (e + [s])[|e|].data == d;
    d.outside := d.outside - 1;
    forall o | o in world && o != d
      ensures CountIsRight(o, e + [s])
    {
      assert CountIsRight(o, e);
      if Holding(e, o) == 1 {
        var i :| 0 <= i < |e| && e[i].data == o;
        assert (e + [s])[i].data == o;
      }
    }
  }

  lemma RestOfMap(e: seq<Slot>, i: nat)
    requires i < |e| && IsMap(e)
    ensures IsMap(e[i..]) && IsMap(e[i + 1..]) && Without(e[i..], 0) == e[i + 1..]
    ensures e[i..][0] == e[i] && e[i].data != null && Holding(e, e[i].data) == 1
  {
    assert IsEntry(e[i]);
  }

  lemma AllEmpty(s: seq<Slot>)
    requires |s| == CAPACITY + 1 && forall j :: 0 <= j < |s| ==> s[j] == EMPTY
    ensures s == Padded([])
  {
  }

  lemma PaddedKinds(e: seq<Slot>)
    requires IsMap(e)
    ensures |e| <= CAPACITY && |Padded(e)| == CAPACITY + 1
    ensures forall j :: 0 <= j < |Padded(e)| ==> (Padded(e)[j].kind != TYPE_NONE <==> j < |e|)
    ensures forall j :: 0 <= j < |Padded(e)| ==> Padded(e)[j] == if j < |e| then e[j] else EMPTY
  {
  }

  lemma FirstOfKind(e: seq<Slot>, i: nat, kind: nat)
    requires i < |e| && e[i].kind == kind && forall j :: 0 <= j < i ==> e[j].kind != kind
    ensures Find(e, kind) == i
  {
  }

  lemma NoneOfKind(e: seq<Slot>, kind: nat)
    requires forall j :: 0 <= j < |e| ==> e[j].kind != kind
    ensures Find(e, kind) == |e|
  {
  }
}
