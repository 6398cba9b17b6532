/**
 * The slot layer of the file organizer's per-folder hash index: an
 * open-addressing table with linear probing and no tombstones
 * (utils/structures.py, class HashTable).  Everything here is about a
 * sequence of slots, the contents of the table's backing array; the class
 * in hash_table.dfy keeps its array equal to such a sequence.
 *
 * Positions on the ring of `n` slots are written without `%`: `Slot(h, j, n)`
 * is the slot `j` probing steps after `h`, and `Dist(a, b, n)` is the number
 * of steps from `a` forward to `b`.
 */
module HashSlots {
  import opened Wrappers

  /** One occupied slot: the key (a file name) and the value stored under it. */
  datatype Entry<V> = Entry(key: string, value: V)

  type Slots<V> = seq<Option<Entry<V>>>

  /** Sum of the character codes of `s` (utils/structures.py:53). */
  function CodeSum(s: string): nat
  {
    if s == [] then 0 else CodeSum(s[..|s| - 1]) + s[|s| - 1] as nat
  }

  /** The home slot of `key` in a table of `n` slots. */
  function Hash(key: string, n: nat): (h: nat)
    requires n > 0
    ensures h < n
  {
    CodeSum(key) % n
  }

  /** The slot reached from `h` after `j` linear-probing steps. */
  function Slot(h: nat, j: nat, n: nat): (p: nat)
    requires h < n && j <= n
    ensures p < n
  {
    if h + j < n then h + j else h + j - n
  }

  /** The number of probing steps from slot `a` forward to slot `b`. */
  function Dist(a: nat, b: nat, n: nat): (d: nat)
    requires a < n && b < n
    ensures d < n
  {
    if a <= b then b - a else b + n - a
  }

  /** One probing step, `(i + 1) % n`, as the source writes it. */
  function Next(i: nat, n: nat): (r: nat)
    requires i < n
    ensures r == Slot(i, 1, n)
  {
    (i + 1) % n
  }

  lemma SlotDist(a: nat, b: nat, n: nat)
    requires a < n && b < n
    ensures Slot(a, Dist(a, b, n), n) == b
  {
  }

  lemma DistSlot(a: nat, j: nat, n: nat)
    requires a < n && j < n
    ensures Dist(a, Slot(a, j, n), n) == j
  {
  }

  /** Walking `a` steps and then `b` more is walking `a + b` steps. */
  lemma SlotAdd(h: nat, a: nat, b: nat, n: nat)
    requires h < n && a + b <= n
    ensures Slot(Slot(h, a, n), b, n) == Slot(h, a + b, n)
  {
  }

  /** A slot `j0` steps along the way from `h` to `p` is `Dist(h, p) - j0` steps before `p`. */
  lemma DistSplit(h: nat, j0: nat, p: nat, n: nat)
    requires h < n && p < n && j0 <= Dist(h, p, n)
    ensures Dist(Slot(h, j0, n), p, n) == Dist(h, p, n) - j0
  {
  }

  /** Number of occupied slots. */
  function Count<V>(t: Slots<V>): (c: nat)
    ensures c <= |t|
  {
    if t == [] then 0 else Count(t[..|t| - 1]) + (if t[|t| - 1].Some? then 1 else 0)
  }

  /** Writing one slot changes the number of occupied slots by what it took away and put in. */
  lemma {:induction false} CountUpdate<V>(t: Slots<V>, p: nat, x: Option<Entry<V>>)
    requires p < |t|
    ensures Count(t[p := x]) + (if t[p].Some? then 1 else 0) == Count(t) + (if x.Some? then 1 else 0)
    decreases |t|
  {
    var u := t[p := x];
    var m := |t| - 1;
    assert u[..m] == if p < m then t[..m][p := x] else t[..m];
    if p < m {
      CountUpdate(t[..m], p, x);
    }
  }

  /** A table whose every slot is occupied counts all its slots. */
  lemma {:induction false} CountFull<V>(t: Slots<V>)
    requires forall p :: 0 <= p < |t| ==> t[p].Some?
    ensures Count(t) == |t|
    decreases |t|
  {
    if t != [] {
      CountFull(t[..|t| - 1]);
    }
  }

  /** A table with fewer occupied slots than slots has an empty slot. */
  lemma CountVacancy<V>(t: Slots<V>) returns (p: nat)
    requires Count(t) < |t|
    ensures p < |t| && t[p] == None
  {
    if forall q :: 0 <= q < |t| ==> t[q].Some? {
      CountFull(t);
      assert false;
    }
    var q :| 0 <= q < |t| && t[q] == None;
    p := q;
  }

  /**
   * A table filled to at most 70% has an empty slot, so a probe never comes
   * full circle and the full-table answer of `_probe` cannot occur.
   */
  lemma VacancyExists<V>(t: Slots<V>)
    requires 0 < |t| && 10 * Count(t) <= 7 * |t|
    ensures exists p :: 0 <= p < |t| && t[p] == None
  {
    var p := CountVacancy(t);
  }

  /** A table whose every slot but `f` is occupied has at least `|t| - 1` occupied slots. */
  lemma {:induction false} CountAllButOne<V>(t: Slots<V>, f: nat)
    requires f < |t|
    requires forall p :: 0 <= p < |t| && p != f ==> t[p].Some?
    ensures Count(t) + 1 >= |t|
    decreases |t|
  {
    var m := |t| - 1;
    if f == m {
      CountFull(t[..m]);
    } else {
      CountAllButOne(t[..m], f);
    }
  }

  /** Counting a prefix one slot longer adds that slot. */
  lemma CountPrefix<V>(t: Slots<V>, i: nat)
    requires i < |t|
    ensures Count(t[..i + 1]) == Count(t[..i]) + (if t[i].Some? then 1 else 0)
  {
    assert t[..i + 1][..i] == t[..i];
  }

  /** A prefix never counts more than the whole table. */
  lemma {:induction false} CountPrefixBound<V>(t: Slots<V>, i: nat)
    requires i <= |t|
    ensures Count(t[..i]) <= Count(t)
    decreases |t| - i
  {
    if i < |t| {
      CountPrefix(t, i);
      CountPrefixBound(t, i + 1);
    } else {
      assert t[..i] == t;
    }
  }

  /**
   * `k`, stored at `p`, is reachable: every slot probed from `k`'s home slot
   * before `p` is occupied, so a probe for `k` cannot stop early.
   */
  ghost predicate ChainOk<V>(t: Slots<V>, k: string, p: nat)
    requires 0 < |t|
  {
    p < |t| &&
    forall j :: 0 <= j < Dist(Hash(k, |t|), p, |t|) ==> t[Slot(Hash(k, |t|), j, |t|)].Some?
  }

  /** The chain invariant: every stored key is reachable from its home slot. */
  ghost predicate Chained<V>(t: Slots<V>)
    requires 0 < |t|
  {
    forall p :: 0 <= p < |t| && t[p].Some? ==> ChainOk(t, t[p].value.key, p)
  }

  /**
   * The slots hold exactly the map `contents`, each key `k` at `pos[k]`, and
   * no key twice.
   */
  ghost predicate Indexed<V>(t: Slots<V>, contents: map<string, V>, pos: map<string, nat>)
  {
    pos.Keys == contents.Keys &&
    (forall k :: k in pos ==> pos[k] < |t| && t[pos[k]] == Some(Entry(k, contents[k]))) &&
    (forall p :: 0 <= p < |t| && t[p].Some? ==> t[p].value.key in pos && pos[t[p].value.key] == p)
  }

  /** The map the slots of `t` hold, read in slot order. */
  function Gathered<V>(t: Slots<V>): map<string, V>
  {
    if t == [] then map[]
    else if t[|t| - 1].Some? then Gathered(t[..|t| - 1])[t[|t| - 1].value.key := t[|t| - 1].value.value]
    else Gathered(t[..|t| - 1])
  }

  /**
   * Reading the first `i` slots of an indexed table gathers exactly the
   * keys stored before slot `i`, with their values.
   */
  lemma {:induction false} GatheredIndexed<V>(t: Slots<V>, contents: map<string, V>, pos: map<string, nat>, i: nat)
    requires Indexed(t, contents, pos) && i <= |t|
    ensures forall k :: k in Gathered(t[..i]) <==> k in pos && pos[k] < i
    ensures forall k :: k in Gathered(t[..i]) ==> Gathered(t[..i])[k] == contents[k]
    decreases i
  {
    if i > 0 {
      GatheredIndexed(t, contents, pos, i - 1);
      assert t[..i][..i - 1] == t[..i - 1];
    }
  }

  /** An indexed table gathers its whole map. */
  lemma GatheredAll<V>(t: Slots<V>, contents: map<string, V>, pos: map<string, nat>)
    requires Indexed(t, contents, pos)
    ensures Gathered(t) == contents
  {
    GatheredIndexed(t, contents, pos, |t|);
    assert t[..|t|] == t;
  }

  /**
   * Reading one more slot of an indexed table: a stored key is new to the
   * map gathered so far, and both the map and the count grow by it.
   */
  lemma GatherStep<V>(t: Slots<V>, contents: map<string, V>, pos: map<string, nat>, i: nat)
    requires Indexed(t, contents, pos) && i < |t|
    ensures Count(t[..i + 1]) == Count(t[..i]) + (if t[i].Some? then 1 else 0) <= Count(t)
    ensures t[i].Some? ==> t[i].value.key !in Gathered(t[..i])
    ensures Gathered(t[..i + 1]) ==
      if t[i].Some? then Gathered(t[..i])[t[i].value.key := t[i].value.value] else Gathered(t[..i])
  {
    CountPrefix(t, i);
    CountPrefixBound(t, i + 1);
    assert t[..i + 1][..i] == t[..i];
    GatheredIndexed(t, contents, pos, i);
  }

  /** Filling a slot breaks no chain: chains only ask for slots to be occupied. */
  lemma FillKeepsChain<V>(t: Slots<V>, k: string, p: nat, q: nat, x: Option<Entry<V>>)
    requires 0 < |t| && q < |t| && x.Some?
    requires ChainOk(t, k, p)
    ensures ChainOk(t[q := x], k, p)
  {
  }

  /** Filling a slot with a reachable entry keeps the whole table chained. */
  lemma FillKeepsChained<V>(t: Slots<V>, q: nat, x: Option<Entry<V>>)
    requires 0 < |t| && q < |t| && x.Some?
    requires Chained(t)
    requires t[q].Some? ==> t[q].value.key == x.value.key
    requires ChainOk(t[q := x], x.value.key, q)
    ensures Chained(t[q := x])
  {
    var u := t[q := x];
    forall p | 0 <= p < |u| && u[p].Some?
      ensures ChainOk(u, u[p].value.key, p)
    {
      if p != q {
        FillKeepsChain(t, t[p].value.key, p, q, x);
      }
    }
  }

  /**
   * Emptying slot `c` keeps `k` (at `p`) reachable when an empty slot lies
   * `e` steps after `c` and `p` is not before it: a chain through `c` would
   * have to run through that empty slot.
   */
  lemma EmptyKeepsChain<V>(t: Slots<V>, k: string, p: nat, c: nat, e: nat)
    requires 0 < |t| && c < |t| && p < |t| && c != p
    requires t[p].Some? && ChainOk(t, k, p)
    requires 0 < e < |t| && t[Slot(c, e, |t|)] == None
    requires e <= Dist(c, p, |t|)
    ensures ChainOk(t[c := None], k, p)
  {
    var n := |t|;
    var h := Hash(k, n);
    forall j | 0 <= j < Dist(h, p, n)
      ensures t[c := None][Slot(h, j, n)].Some?
    {
      if Slot(h, j, n) == c {
        DistSplit(h, j, p, n);
        SlotAdd(h, j, e, n);
        SlotDist(h, p, n);
        assert false;
      }
    }
  }

  /**
   * A probe for `k` that met an empty slot `i` after passing only occupied
   * slots holding other keys proves `k` absent from a chained table.
   */
  lemma VacantMeansAbsent<V>(t: Slots<V>, k: string, i: nat)
    requires 0 < |t| && i < |t|
    requires t[i] == None
    requires forall j :: 0 <= j < Dist(Hash(k, |t|), i, |t|) ==>
      t[Slot(Hash(k, |t|), j, |t|)].Some? && t[Slot(Hash(k, |t|), j, |t|)].value.key != k
    requires Chained(t)
    ensures forall p :: 0 <= p < |t| && t[p].Some? ==> t[p].value.key != k
  {
    var n := |t|;
    var h := Hash(k, n);
    forall p | 0 <= p < n && t[p].Some?
      ensures t[p].value.key != k
    {
      SlotDist(h, p, n);
      SlotDist(h, i, n);
    }
  }

  /** Every slot is probed before some step lies `j` steps away from the start. */
  lemma EverySlotProbed<V>(t: Slots<V>, start: nat, k: string)
    requires start < |t|
    requires forall j :: 0 <= j < |t| ==> t[Slot(start, j, |t|)].Some? && t[Slot(start, j, |t|)].value.key != k
    ensures forall p :: 0 <= p < |t| ==> t[p].Some? && t[p].value.key != k
  {
    forall p | 0 <= p < |t|
      ensures t[p].Some? && t[p].value.key != k
    {
      SlotDist(start, p, |t|);
    }
  }

  /**
   * The first empty slot after a freshly emptied slot `f`, `dE` steps on,
   * exists and is not `f` itself when at least two slots are empty.
   */
  lemma FirstVacancy<V>(t: Slots<V>, f: nat) returns (dE: nat)
    requires f < |t| && t[f] == None
    requires Count(t) + 2 <= |t|
    ensures 1 <= dE < |t|
    ensures t[Slot(f, dE, |t|)] == None
    ensures forall d :: 1 <= d < dE ==> t[Slot(f, d, |t|)].Some?
  {
    var n := |t|;
    if forall p :: 0 <= p < n && p != f ==> t[p].Some? {
      CountAllButOne(t, f);
      assert false;
    }
    var p :| 0 <= p < n && p != f && t[p] == None;
    SlotDist(f, p, n);
    dE := 1;
    while t[Slot(f, dE, n)].Some?
      invariant 1 <= dE <= Dist(f, p, n)
      invariant forall d :: 1 <= d < dE ==> t[Slot(f, d, n)].Some?
      decreases Dist(f, p, n) - dE
    {
      dE := dE + 1;
    }
  }

  /**
   * `k` at `p` is reachable once the slots in the repaired region (fewer
   * than `dc` steps after `f`) are counted as passable.
   */
  ghost predicate ChainOkBut<V>(t: Slots<V>, k: string, p: nat, f: nat, dc: nat)
    requires 0 < |t| && f < |t|
  {
    p < |t| &&
    forall j :: 0 <= j < Dist(Hash(k, |t|), p, |t|) ==>
      t[Slot(Hash(k, |t|), j, |t|)].Some? || Dist(f, Slot(Hash(k, |t|), j, |t|), |t|) < dc
  }

  /**
   * The state of the cluster repair that follows a deletion at `f`: the
   * cursor is `dc` steps after `f`, the cluster ends at the empty slot `dE`
   * steps after `f`, every entry outside the pending part `[dc, dE)` is
   * reachable, and every pending entry is reachable except through the
   * region already repaired.
   */
  ghost predicate Repairing<V>(t: Slots<V>, f: nat, dc: nat, dE: nat)
    requires 0 < |t| && f < |t|
  {
    var n := |t|;
    1 <= dc <= dE < n &&
    t[Slot(f, dE, n)] == None &&
    (forall d :: dc <= d < dE ==> t[Slot(f, d, n)].Some?) &&
    (forall p :: 0 <= p < n && t[p].Some? && !(dc <= Dist(f, p, n) < dE) ==>
       ChainOk(t, t[p].value.key, p)) &&
    (forall p :: 0 <= p < n && t[p].Some? && dc <= Dist(f, p, n) < dE ==>
       ChainOkBut(t, t[p].value.key, p, f, dc))
  }

  /** Emptying the found slot `f` of a chained table starts a repair. */
  lemma RepairStart<V>(t: Slots<V>, f: nat, dE: nat)
    requires 0 < |t| && f < |t| && t[f].Some?
    requires Chained(t)
    requires 1 <= dE < |t|
    requires t[Slot(f, dE, |t|)] == None
    requires forall d :: 1 <= d < dE ==> t[Slot(f, d, |t|)].Some?
    ensures Repairing(t[f := None], f, 1, dE)
  {
    var n := |t|;
    var u := t[f := None];
    forall p | 0 <= p < n && u[p].Some? && !(1 <= Dist(f, p, n) < dE)
      ensures ChainOk(u, u[p].value.key, p)
    {
      DistSlot(f, dE, n);
      EmptyKeepsChain(t, t[p].value.key, p, f, dE);
    }
    forall p | 0 <= p < n && u[p].Some? && 1 <= Dist(f, p, n) < dE
      ensures ChainOkBut(u, u[p].value.key, p, f, 1)
    {
      var k := u[p].value.key;
      var h := Hash(k, n);
      forall j | 0 <= j < Dist(h, p, n)
        ensures u[Slot(h, j, n)].Some? || Dist(f, Slot(h, j, n), n) < 1
      {
        assert t[Slot(h, j, n)].Some?;
      }
    }
  }

  /** The slot a repair step refills is never the empty slot that ends the cluster. */
  lemma RefillNotEnd<V>(t: Slots<V>, f: nat, dc: nat, dE: nat, q: nat)
    requires 0 < |t| && f < |t| && q < |t|
    requires Repairing(t, f, dc, dE)
    requires t[Slot(f, dc, |t|)].Some?
    requires t[Slot(f, dc, |t|) := None][q] == None
    requires ChainOk(t[Slot(f, dc, |t|) := None][q := t[Slot(f, dc, |t|)]], t[Slot(f, dc, |t|)].value.key, q)
    ensures q != Slot(f, dE, |t|)
  {
    var n := |t|;
    var c := Slot(f, dc, n);
    var k := t[c].value.key;
    var h := Hash(k, n);
    var e := Slot(f, dE, n);
    assert dc < dE;
    DistSlot(f, dc, n);
    DistSlot(f, dE, n);
    SlotDist(h, c, n);
    SlotDist(h, e, n);
    assert ChainOkBut(t, k, c, f, dc);
  }

  /** A repair step keeps every entry outside the pending part reachable. */
  lemma RepairSettled<V>(t: Slots<V>, f: nat, dc: nat, dE: nat, q: nat, p: nat)
    requires 0 < |t| && f < |t| && q < |t| && p < |t|
    requires Repairing(t, f, dc, dE)
    requires t[Slot(f, dc, |t|)].Some?
    requires t[Slot(f, dc, |t|) := None][q] == None
    requires p != q && t[Slot(f, dc, |t|) := None][p].Some?
    requires !(dc + 1 <= Dist(f, p, |t|) < dE)
    ensures ChainOk(t[Slot(f, dc, |t|) := None][q := t[Slot(f, dc, |t|)]], t[p].value.key, p)
  {
    var n := |t|;
    var c := Slot(f, dc, n);
    var u := t[c := None];
    assert dc < dE;
    assert p != c;
    DistSlot(f, dc, n);
    DistSlot(f, dE, n);
    SlotDist(f, p, n);
    SlotAdd(f, dc, dE - dc, n);
    assert Dist(f, p, n) != dE;
    if Dist(f, p, n) > dE {
      DistSplit(f, dc, p, n);
    }
    assert ChainOk(t, t[p].value.key, p);
    EmptyKeepsChain(t, t[p].value.key, p, c, dE - dc);
    FillKeepsChain(u, t[p].value.key, p, q, t[c]);
  }

  /** A repair step keeps every pending entry reachable but through the repaired region. */
  lemma RepairPending<V>(t: Slots<V>, f: nat, dc: nat, dE: nat, q: nat, p: nat)
    requires 0 < |t| && f < |t| && q < |t| && p < |t|
    requires Repairing(t, f, dc, dE)
    requires t[Slot(f, dc, |t|)].Some?
    requires p != q && t[Slot(f, dc, |t|) := None][p].Some?
    requires dc + 1 <= Dist(f, p, |t|) < dE
    ensures ChainOkBut(t[Slot(f, dc, |t|) := None][q := t[Slot(f, dc, |t|)]], t[p].value.key, p, f, dc + 1)
  {
    var n := |t|;
    var c := Slot(f, dc, n);
    var w := t[c := None][q := t[c]];
    var kp := t[p].value.key;
    var hp := Hash(kp, n);
    DistSlot(f, dc, n);
    assert ChainOkBut(t, kp, p, f, dc);
    forall j | 0 <= j < Dist(hp, p, n)
      ensures w[Slot(hp, j, n)].Some? || Dist(f, Slot(hp, j, n), n) < dc + 1
    {
      assert t[Slot(hp, j, n)].Some? || Dist(f, Slot(hp, j, n), n) < dc;
    }
  }

  /**
   * One step of the repair: the entry at the cursor is taken out and put
   * back at the first empty slot `q` of its probe sequence.
   */
  lemma RepairStep<V>(t: Slots<V>, f: nat, dc: nat, dE: nat, q: nat)
    requires 0 < |t| && f < |t| && q < |t|
    requires Repairing(t, f, dc, dE)
    requires t[Slot(f, dc, |t|)].Some?
    requires t[Slot(f, dc, |t|) := None][q] == None
    requires ChainOk(t[Slot(f, dc, |t|) := None][q := t[Slot(f, dc, |t|)]], t[Slot(f, dc, |t|)].value.key, q)
    ensures Repairing(t[Slot(f, dc, |t|) := None][q := t[Slot(f, dc, |t|)]], f, dc + 1, dE)
  {
    var n := |t|;
    var c := Slot(f, dc, n);
    var w := t[c := None][q := t[c]];
    RefillNotEnd(t, f, dc, dE, q);
    forall p | 0 <= p < n && w[p].Some? && !(dc + 1 <= Dist(f, p, n) < dE)
      ensures ChainOk(w, w[p].value.key, p)
    {
      if p != q {
        RepairSettled(t, f, dc, dE, q, p);
      }
    }
    forall p | 0 <= p < n && w[p].Some? && dc + 1 <= Dist(f, p, n) < dE
      ensures ChainOkBut(w, w[p].value.key, p, f, dc + 1)
    {
      if p != q {
        RepairPending(t, f, dc, dE, q, p);
      }
    }
    assert forall d :: dc + 1 <= d < dE ==> w[Slot(f, d, n)].Some? by {
      forall d | dc + 1 <= d < dE
        ensures w[Slot(f, d, n)].Some?
      {
        DistSlot(f, d, n);
        DistSlot(f, dc, n);
      }
    }
  }

  /** When the cursor reaches an empty slot the repair is complete. */
  lemma RepairEnd<V>(t: Slots<V>, f: nat, dc: nat, dE: nat)
    requires 0 < |t| && f < |t|
    requires Repairing(t, f, dc, dE)
    requires t[Slot(f, dc, |t|)] == None
    ensures Chained(t)
  {
    assert dc == dE;
  }

  /**
   * Storing `k` at `q`, its own slot or an empty slot when `k` is new,
   * stores exactly `k` in the indexed map.
   */
  lemma IndexedStore<V>(t: Slots<V>, contents: map<string, V>, pos: map<string, nat>, q: nat, k: string, v: V)
    requires Indexed(t, contents, pos) && q < |t|
    requires if k in pos then q == pos[k] else t[q] == None
    ensures Indexed(t[q := Some(Entry(k, v))], contents[k := v], pos[k := q])
  {
  }

  /** Emptying the slot of a key removes exactly that key from the indexed map. */
  lemma IndexedClear<V>(t: Slots<V>, contents: map<string, V>, pos: map<string, nat>, c: nat)
    requires c < |t| && t[c].Some?
    requires Indexed(t, contents, pos)
    ensures t[c].value.key in contents && contents[t[c].value.key] == t[c].value.value
    ensures Indexed(t[c := None], contents - {t[c].value.key}, pos - {t[c].value.key})
  {
  }

  /**
   * Emptying the slot `f` of a chained, indexed table with at most 70% of
   * its slots occupied: the key leaves the map, one slot fewer is occupied,
   * and the cluster repair can start.
   */
  lemma DeleteStart<V>(t: Slots<V>, contents: map<string, V>, pos: map<string, nat>, f: nat)
    returns (dE: nat)
    requires 0 < |t| && f < |t| && t[f].Some?
    requires Indexed(t, contents, pos) && Chained(t)
    requires 10 * Count(t) <= 7 * |t|
    ensures t[f].value.key in contents && contents[t[f].value.key] == t[f].value.value
    ensures Indexed(t[f := None], contents - {t[f].value.key}, pos - {t[f].value.key})
    ensures Count(t[f := None]) + 1 == Count(t)
    ensures Repairing(t[f := None], f, 1, dE)
  {
    IndexedClear(t, contents, pos, f);
    CountUpdate(t, f, None);
    dE := FirstVacancy(t[f := None], f);
    RepairStart(t, f, dE);
  }
}
