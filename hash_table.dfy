/**
 * The hash index each folder keeps its files in (utils/structures.py:35-167):
 * open addressing over a growable array, linear probing, no tombstones.
 * The array holds the slots; the ghost map `Contents` is what the table
 * stores and the ghost map `Pos` says where each key sits.
 */
module HashIndex {
  import opened Wrappers
  import opened HashSlots

  /** The capacity a folder's table starts with (utils/structures.py:42). */
  const DefaultCapacity: nat := 10

  /** What `_probe` reports: the key's slot, the empty slot where it would go, or a full ring. */
  datatype ProbeResult = Found(index: nat) | Vacant(index: nat) | Full

  class HashTable<V> {
    var capacity: nat
    var table: array<Option<Entry<V>>>
    var size: nat

    ghost var Contents: map<string, V>
    ghost var Pos: map<string, nat>
    ghost var Repr: set<object>

    /** The array matches the abstract map, key by key, and has at least one slot. */
    ghost predicate Sound()
      reads this, table
    {
      table.Length == capacity && capacity > 0 &&
      Indexed(table[..], Contents, Pos)
    }

    /**
     * The table invariant: sound, every key reachable from its home slot,
     * `size` counts the occupied slots, and the load factor is at most 0.7.
     */
    ghost predicate Valid()
      reads this, Repr
    {
      Repr == {this, table} &&
      Sound() &&
      Chained(table[..]) &&
      size == Count(table[..]) &&
      10 * size <= 7 * capacity
    }

    /** `HashTable(capacity)`: an empty table of `cap` slots. */
    constructor (cap: nat)
      requires cap > 0
      ensures Valid() && fresh(Repr)
      ensures capacity == cap && size == 0 && Contents == map[]
    {
      capacity := cap;
      table := new Option<Entry<V>>[cap](_ => None);
      size := 0;
      Contents := map[];
      Pos := map[];
      Repr := {this, table};
      new;
      assert forall p :: 0 <= p < cap ==> table[..][p] == None;
      CountEmpty(table[..]);
    }

    static lemma {:induction false} CountEmpty(t: Slots<V>)
      requires forall p :: 0 <= p < |t| ==> t[p] == None
      ensures Count(t) == 0
      decreases |t|
    {
      if t != [] {
        CountEmpty(t[..|t| - 1]);
      }
    }

    /**
     * `_probe`: walk forward (wrapping) from `index` until an empty slot or
     * `key`; report a full ring when the walk comes back to `index`.
     */
    method Probe(index: nat, key: string) returns (r: ProbeResult)
      requires table.Length == capacity && index < capacity
      ensures r.Found? ==> r.index < capacity && table[r.index].Some? && table[r.index].value.key == key
      ensures r.Vacant? ==> r.index < capacity && table[r.index] == None
      ensures !r.Full? ==> forall j :: 0 <= j < Dist(index, r.index, capacity) ==>
        table[Slot(index, j, capacity)].Some? && table[Slot(index, j, capacity)].value.key != key
      ensures r.Full? ==> forall p :: 0 <= p < capacity ==> table[p].Some? && table[p].value.key != key
    {
      var i := index;
      ghost var d: nat := 0;
      while table[i] != None
        invariant d < capacity && i == Slot(index, d, capacity)
        invariant forall j :: 0 <= j < d ==>
          table[Slot(index, j, capacity)].Some? && table[Slot(index, j, capacity)].value.key != key
        decreases capacity - d
      {
        if table[i].value.key == key {
          DistSlot(index, d, capacity);
          return Found(i);
        }
        SlotAdd(index, d, 1, capacity);
        i := Next(i, capacity);
        d := d + 1;
        if i == index {
          EverySlotProbed(table[..], index, key);
          return Full;
        }
      }
      DistSlot(index, d, capacity);
      return Vacant(i);
    }

    /**
     * The part of `insert` after the load-factor check: probe from the home
     * slot, then overwrite the key's value, or take the empty slot found, or
     * fail on a full ring.  The written slot is returned as ghost `q`.
     */
    method Place(key: string, value: V) returns (ok: bool, ghost q: nat)
      requires Sound()
      requires key in Pos ==> ChainOk(table[..], key, Pos[key])
      modifies this, table
      ensures Sound() && table == old(table) && capacity == old(capacity) && Repr == old(Repr)
      ensures ok ==> q < capacity && table[..] == old(table[..])[q := Some(Entry(key, value))]
      ensures ok ==> ChainOk(table[..], key, q)
      ensures ok ==> if key in old(Pos) then q == old(Pos)[key] else old(table[..])[q] == None
      ensures ok ==> Contents == old(Contents)[key := value] && Pos == old(Pos)[key := q]
      ensures ok ==> size == old(size) + (if key in old(Contents) then 0 else 1)
      ensures !ok ==> table[..] == old(table[..]) && Contents == old(Contents) && Pos == old(Pos) && size == old(size)
      ensures !ok ==> key !in old(Contents) && forall p :: 0 <= p < capacity ==> table[p].Some?
    {
      var h := Hash(key, capacity);
      var r := Probe(h, key);
      match r
      case Full =>
        ok, q := false, 0;
      case Found(i) =>
        ghost var before := table[..];
        IndexedStore(before, Contents, Pos, i, key, value);
        table[i] := Some(Entry(key, value));
        assert table[..] == before[i := Some(Entry(key, value))];
        FillKeepsChain(before, key, i, i, Some(Entry(key, value)));
        Contents, Pos := Contents[key := value], Pos[key := i];
        ok, q := true, i;
      case Vacant(i) =>
        ghost var before := table[..];
        if key in Pos {
          VacantMeansAbsentAt(before, key, i, Pos[key]);
        }
        IndexedStore(before, Contents, Pos, i, key, value);
        table[i] := Some(Entry(key, value));
        assert table[..] == before[i := Some(Entry(key, value))];
        FillKeepsChain(before, key, i, i, Some(Entry(key, value)));
        size, Contents, Pos := size + 1, Contents[key := value], Pos[key := i];
        ok, q := true, i;
    }

    /** Empty slot `c`, taking its entry out of the table and out of the map. */
    method Vacate(c: nat) returns (e: Entry<V>)
      requires Sound() && c < capacity && table[c].Some?
      modifies this, table
      ensures Sound() && table == old(table) && capacity == old(capacity) && Repr == old(Repr)
      ensures size == old(size)
      ensures e == old(table[c]).value && table[..] == old(table[..])[c := None]
      ensures e.key in old(Contents) && old(Contents)[e.key] == e.value
      ensures Contents == old(Contents) - {e.key} && Pos == old(Pos) - {e.key}
    {
      e := table[c].value;
      IndexedClear(table[..], Contents, Pos, c);
      table[c] := None;
      Contents := Contents - {e.key};
      Pos := Pos - {e.key};
    }

    static lemma VacantMeansAbsentAt(t: Slots<V>, k: string, i: nat, p: nat)
      requires 0 < |t| && i < |t| && p < |t|
      requires t[i] == None
      requires forall j :: 0 <= j < Dist(Hash(k, |t|), i, |t|) ==>
        t[Slot(Hash(k, |t|), j, |t|)].Some? && t[Slot(Hash(k, |t|), j, |t|)].value.key != k
      requires t[p].Some? && ChainOk(t, k, p)
      ensures t[p].value.key != k
    {
      SlotDist(Hash(k, |t|), p, |t|);
      SlotDist(Hash(k, |t|), i, |t|);
    }

    /**
     * `insert`: rehash first when one more entry would push the load factor
     * above 0.7, then place the pair.  An existing key keeps its slot and
     * gets the new value; a new key takes one more slot.
     */
    method Insert(key: string, value: V) returns (ok: bool)
      requires Valid()
      modifies Repr
      ensures Valid() && fresh(Repr - old(Repr))
      ensures ok
      ensures Contents == old(Contents)[key := value]
      ensures size == old(size) + (if key in old(Contents) then 0 else 1)
      ensures capacity == if 10 * (old(size) + 1) > 7 * old(capacity) then 2 * old(capacity) else old(capacity)
    {
      if 10 * (size + 1) > 7 * capacity {
        Rehash();
      }
      Add(key, value);
      ok := true;
    }

    /**
     * The part of `insert` after its load-factor test, on a table where the
     * test is known not to fire: the pair is placed and the table stays
     * chained.  A full table, the one case where `insert` answers False,
     * cannot occur below the 70% load factor.
     */
    method Add(key: string, value: V)
      requires Sound() && Chained(table[..]) && size == Count(table[..])
      requires 10 * (size + 1) <= 7 * capacity
      modifies this, table
      ensures Sound() && Chained(table[..]) && size == Count(table[..])
      ensures table == old(table) && capacity == old(capacity) && Repr == old(Repr)
      ensures Contents == old(Contents)[key := value]
      ensures size == old(size) + (if key in old(Contents) then 0 else 1)
    {
      ghost var before := table[..];
      ghost var q;
      var ok;
      ok, q := Place(key, value);
      if !ok {
        CountFull(table[..]);
        assert false;
      }
      FillKeepsChained(before, q, Some(Entry(key, value)));
      CountUpdate(before, q, Some(Entry(key, value)));
    }

    /** `search`: the stored value of `key`, or None. */
    method Search(key: string) returns (r: Option<V>)
      requires Valid()
      ensures r == if key in Contents then Some(Contents[key]) else None
    {
      var h := Hash(key, capacity);
      var p := Probe(h, key);
      if p.Found? {
        r := Some(table[p.index].value.value);
      } else {
        if p.Vacant? {
          VacantMeansAbsent(table[..], key, p.index);
        }
        r := None;
      }
    }

    /**
     * `_rehash`: double the capacity and re-insert every stored pair, in
     * array order, into a fresh array.  The map and the size are kept.
     */
    method Rehash()
      requires Valid()
      modifies this
      ensures Valid() && fresh(table)
      ensures capacity == 2 * old(capacity)
      ensures Contents == old(Contents) && size == old(size)
    {
      var oldTable := table;
      ghost var oldSeq := table[..];
      ghost var oldContents := Contents;
      ghost var oldPos := Pos;
      Reset(2 * capacity);
      assert oldSeq[..0] == [];
      var i := 0;
      while i < oldTable.Length
        invariant 0 <= i <= oldTable.Length == |oldSeq| && oldTable[..] == oldSeq
        invariant capacity == 2 * |oldSeq| && fresh(table) && Repr == {this, table}
        invariant Sound() && Chained(table[..])
        invariant size == Count(table[..]) && size == Count(oldSeq[..i])
        invariant Contents == Gathered(oldSeq[..i])
      {
        GatherStep(oldSeq, oldContents, oldPos, i);
        assert oldTable[i] == oldSeq[i];
        if oldTable[i] != None {
          var e := oldTable[i].value;
          // `insert`'s own load-factor test cannot fire while re-inserting.
          Add(e.key, e.value);
        }
        i := i + 1;
      }
      assert oldSeq[..i] == oldSeq;
      GatheredAll(oldSeq, oldContents, oldPos);
    }

    /** The start of `_rehash`: a fresh array of `cap` empty slots, nothing stored. */
    method Reset(cap: nat)
      requires cap > 0
      modifies this
      ensures capacity == cap && fresh(table) && Repr == {this, table}
      ensures Sound() && Chained(table[..]) && size == 0 && size == Count(table[..])
      ensures Contents == map[] && Pos == map[]
    {
      capacity := cap;
      table := new Option<Entry<V>>[cap](_ => None);
      size := 0;
      Contents := map[];
      Pos := map[];
      Repr := {this, table};
      assert forall p :: 0 <= p < cap ==> table[..][p] == None;
      CountEmpty(table[..]);
    }

    /**
     * One step of `delete`'s repair loop: the entry at slot `c` is taken
     * out (`size` drops by one) and inserted again, landing at slot `q`.
     */
    method Reinsert(c: nat) returns (ghost q: nat)
      requires Sound() && c < capacity && table[c].Some?
      requires size == Count(table[..]) + 1 && 10 * size <= 7 * capacity
      modifies this, table
      ensures Sound() && table == old(table) && capacity == old(capacity) && Repr == old(Repr)
      ensures q < capacity && old(table[..])[c := None][q] == None
      ensures table[..] == old(table[..])[c := None][q := old(table[c])]
      ensures ChainOk(table[..], old(table[c]).value.key, q)
      ensures Contents == old(Contents) && size == old(size) && size == Count(table[..]) + 1
    {
      ghost var t := table[..];
      var e := Vacate(c);
      size := size - 1;
      CountUpdate(t, c, None);
      // `insert`'s own load-factor test cannot fire during the repair.
      assert 10 * (size + 1) <= 7 * capacity;
      var ok;
      ok, q := Place(e.key, e.value);
      if !ok {
        CountFull(table[..]);
        assert false;
      }
      CountUpdate(t[c := None], q, Some(e));
      PutBack(old(Contents), e.key);
    }

    /** One step of the repair: the entry at distance `dc` from `f` is placed again. */
    method RepairAt(c: nat, f: nat, ghost dc: nat, ghost dE: nat) returns (c': nat)
      requires RepairLoop(f, c, dc, dE) && table[c].Some?
      modifies this, table
      ensures table == old(table) && capacity == old(capacity) && Repr == old(Repr)
      ensures Contents == old(Contents) && size == old(size)
      ensures RepairLoop(f, c', dc + 1, dE)
    {
      ghost var t := table[..];
      ghost var q := Reinsert(c);
      RepairStep(t, f, dc, dE, q);
      SlotAdd(f, dc, 1, capacity);
      c' := Next(c, capacity);
    }

    /** The state of the repair walk: slot `c`, `dc` steps after the emptied slot `f`. */
    ghost predicate RepairLoop(f: nat, c: nat, dc: nat, dE: nat)
      reads this, table
    {
      Sound() && f < capacity && Repairing(table[..], f, dc, dE) && c == Slot(f, dc, capacity) &&
      size == Count(table[..]) + 1 && 10 * size <= 7 * capacity
    }

    /**
     * The second half of `delete`: walk the cluster after the emptied slot
     * `f`, taking each entry out and inserting it again, up to the first
     * empty slot.  The map is unchanged and every key is reachable again.
     */
    method Repair(f: nat, ghost dE: nat)
      requires Sound() && f < capacity && Repairing(table[..], f, 1, dE)
      requires size == Count(table[..]) + 1 && 10 * size <= 7 * capacity
      modifies this, table
      ensures Sound() && Chained(table[..])
      ensures table == old(table) && capacity == old(capacity) && Repr == old(Repr)
      ensures Contents == old(Contents) && size == old(size) && size == Count(table[..]) + 1
    {
      var c := Next(f, capacity);
      ghost var dc: nat := 1;
      while table[c] != None
        invariant table == old(table) && capacity == old(capacity) && Repr == old(Repr)
        invariant Contents == old(Contents) && size == old(size)
        invariant RepairLoop(f, c, dc, dE)
        decreases dE - dc
      {
        c := RepairAt(c, f, dc, dE);
        dc := dc + 1;
      }
      RepairEnd(table[..], f, dc, dE);
    }

    /**
     * `delete`: empty the key's slot, then walk the rest of its cluster,
     * taking each entry out and inserting it again, up to the first empty
     * slot.  Returns the removed value, or None when the key is absent.
     */
    method Delete(key: string) returns (r: Option<V>)
      requires Valid()
      modifies this, table
      ensures Valid() && table == old(table) && Repr == old(Repr) && capacity == old(capacity)
      ensures r == if key in old(Contents) then Some(old(Contents)[key]) else None
      ensures Contents == old(Contents) - {key}
      ensures size == if key in old(Contents) then old(size) - 1 else old(size)
      ensures key !in old(Contents) ==> table[..] == old(table[..])
    {
      var h := Hash(key, capacity);
      var found := Probe(h, key);
      if !found.Found? {
        if found.Vacant? {
          VacantMeansAbsent(table[..], key, found.index);
        }
        return None;
      }
      var f := found.index;
      ghost var t0 := table[..];
      ghost var dE := DeleteStart(t0, Contents, Pos, f);
      var removed := Vacate(f);
      r := Some(removed.value);
      Repair(f, dE);
      size := size - 1;
    }

    /**
     * `get_all_files`: the stored values in array order, one per stored key;
     * `ks` names the key each value belongs to.
     */
    method GetAll() returns (vs: seq<V>, ghost ks: seq<string>)
      requires Valid()
      ensures vs == Values(table[..])
      ensures |vs| == size
      ensures forall v :: v in vs <==> exists k :: k in Contents && Contents[k] == v
      ensures |ks| == |vs| && (forall k :: k in Contents <==> k in ks)
      ensures forall a, b :: 0 <= a < b < |ks| ==> ks[a] != ks[b]
      ensures forall i :: 0 <= i < |vs| ==> ks[i] in Contents && vs[i] == Contents[ks[i]]
    {
      vs := [];
      var i := 0;
      while i < table.Length
        invariant 0 <= i <= table.Length
        invariant vs == Values(table[..i])
      {
        assert table[..i + 1][..i] == table[..i];
        if table[i] != None {
          vs := vs + [table[i].value.value];
        }
        i := i + 1;
      }
      assert table[..i] == table[..];
      ValuesCount(table[..]);
      forall v
        ensures v in vs <==> exists k :: k in Contents && Contents[k] == v
      {
        ValuesStored(table[..], Contents, Pos, v);
      }
      ks := Keys(table[..]);
      KeysValues(table[..], Contents, Pos);
    }
  }

  /** Removing a key and storing its value again gives back the map. */
  lemma PutBack<K, V>(m: map<K, V>, k: K)
    requires k in m
    ensures (m - {k})[k := m[k]] == m
  {
  }

  /** The values of the occupied slots, in slot order. */
  function Values<V>(t: Slots<V>): seq<V>
  {
    if t == [] then []
    else Values(t[..|t| - 1]) + (if t[|t| - 1].Some? then [t[|t| - 1].value.value] else [])
  }

  /** One value is read for every occupied slot. */
  lemma {:induction false} ValuesCount<V>(t: Slots<V>)
    ensures |Values(t)| == Count(t)
    decreases |t|
  {
    if t != [] {
      ValuesCount(t[..|t| - 1]);
    }
  }

  /** The values read from the first `i` slots are those of the entries stored there. */
  lemma {:induction false} ValuesPrefix<V>(t: Slots<V>, i: nat, v: V)
    requires i <= |t|
    ensures v in Values(t[..i]) <==> exists p :: 0 <= p < i && t[p].Some? && t[p].value.value == v
    decreases i
  {
    if i > 0 {
      ValuesPrefix(t, i - 1, v);
      assert t[..i][..i - 1] == t[..i - 1];
      if exists p :: 0 <= p < i && t[p].Some? && t[p].value.value == v {
        var p :| 0 <= p < i && t[p].Some? && t[p].value.value == v;
        if p < i - 1 {
          assert v in Values(t[..i - 1]);
        }
      }
    }
  }

  /** The values of an indexed table are exactly the values of its map. */
  lemma ValuesStored<V>(t: Slots<V>, contents: map<string, V>, pos: map<string, nat>, v: V)
    requires Indexed(t, contents, pos)
    ensures v in Values(t) <==> exists k :: k in contents && contents[k] == v
  {
    ValuesPrefix(t, |t|, v);
    assert t[..|t|] == t;
    if v in Values(t) {
      var p :| 0 <= p < |t| && t[p].Some? && t[p].value.value == v;
      var k := t[p].value.key;
      assert k in contents && contents[k] == v;
    }
    if exists k :: k in contents && contents[k] == v {
      var k :| k in contents && contents[k] == v;
      assert t[pos[k]].Some? && t[pos[k]].value.value == v;
    }
  }

  /** The keys of the occupied slots, in slot order. */
  ghost function Keys<V>(t: Slots<V>): seq<string>
  {
    if t == [] then []
    else Keys(t[..|t| - 1]) + (if t[|t| - 1].Some? then [t[|t| - 1].value.key] else [])
  }

  /**
   * Reading the first `i` slots of an indexed table meets each key stored
   * there once, paired with its value.
   */
  lemma {:induction false} KeysPrefix<V>(t: Slots<V>, contents: map<string, V>, pos: map<string, nat>, i: nat)
    requires Indexed(t, contents, pos) && i <= |t|
    ensures |Keys(t[..i])| == |Values(t[..i])|
    ensures forall k :: k in Keys(t[..i]) <==> k in pos && pos[k] < i
    ensures forall a, b :: 0 <= a < b < |Keys(t[..i])| ==> Keys(t[..i])[a] != Keys(t[..i])[b]
    ensures forall j :: 0 <= j < |Keys(t[..i])| ==>
              Keys(t[..i])[j] in contents && Values(t[..i])[j] == contents[Keys(t[..i])[j]]
    decreases i
  {
    if i > 0 {
      KeysPrefix(t, contents, pos, i - 1);
      assert t[..i][..i - 1] == t[..i - 1];
    }
  }

  /** The keys read from an indexed table are its map's keys, each once, beside their values. */
  lemma KeysValues<V>(t: Slots<V>, contents: map<string, V>, pos: map<string, nat>)
    requires Indexed(t, contents, pos)
    ensures |Keys(t)| == |Values(t)|
    ensures forall k :: k in contents <==> k in Keys(t)
    ensures forall a, b :: 0 <= a < b < |Keys(t)| ==> Keys(t)[a] != Keys(t)[b]
    ensures forall j :: 0 <= j < |Keys(t)| ==> Keys(t)[j] in contents && Values(t)[j] == contents[Keys(t)[j]]
  {
    KeysPrefix(t, contents, pos, |t|);
    assert t[..|t|] == t;
  }
}
