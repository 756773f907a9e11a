/** Map<K, V> of include/map.h: parallel dense arrays of keys and values plus an open-addressed
    index table.  Keys are compared and hashed by their `content` (the bytes of the value, or of the
    string a key points to); `hash` is any function of that content.

    Every operation is specified by its effect on Model(), the finite map from key contents to
    values, and on the dense (iteration) order of the stored keys. */
module HashMap {
  import opened Prelude
  import opened Modular
  import opened Occupancy
  import opened ProbeSequence
  import opened OpenTable
  import opened FiniteMap

  class Map<K(0), C(==,!new), V(0)> {
    const content: K -> C
    const hash: C -> nat
    var keys: array<K>
    var vals: array<V>
    var count: nat
    var table: array<int>
    var used: nat

    ghost function Repr(): set<object>
      reads `keys, `vals, `table
    {
      {this, keys, vals, table}
    }

    ghost predicate Shape()
      reads `keys, `vals, `table, `count
    {
      && count <= keys.Length == vals.Length && keys.Length >= 4
      && keys as object != table && vals as object != table && keys as object != vals
    }

    ghost function DenseKeys(): seq<K>
      requires count <= keys.Length
      reads `keys, `count, keys
    {
      keys[..count]
    }

    ghost function DenseVals(): seq<V>
      requires count <= vals.Length
      reads `vals, `count, vals
    {
      vals[..count]
    }

    ghost function Ks(): seq<C>
      requires count <= keys.Length
      reads `keys, `count, keys
    {
      Contents(content, keys[..count])
    }

    /** The finite map this table stands for. */
    ghost function Model(): map<C, V>
      requires count <= keys.Length && count <= vals.Length
      reads `keys, `vals, `count, keys, vals
    {
      Assoc(Ks(), vals[..count])
    }

    ghost predicate Valid()
      reads this, keys, vals, table
    {
      && Shape()
      && Indexed(table[..], Ks(), hash, used)
    }

    constructor (initialCapacity: int, content: K -> C, hash: C -> nat)
      ensures Valid() && fresh(Repr())
      ensures Model() == map[] && DenseKeys() == []
      ensures this.content == content && this.hash == hash
    {
      var capacity := if initialCapacity > 4 then initialCapacity else 4;
      var cap := 16;
      FirstCapacitiesArePow2();
      while cap < capacity * 2
        invariant cap >= 16 && IsPow2(cap)
        decreases capacity * 2 - cap
      {
        DoubleIsPow2(cap);
        cap := cap * 2;
      }
      var t := new int[cap](_ => EMPTY);
      this.content, this.hash := content, hash;
      keys, vals := new K[capacity], new V[capacity];
      count, used, table := 0, 0, t;
      new;
      AllFree(table[..], EMPTY);
    }

    /** find_slot: the probe loop.  It needs one EMPTY slot, and looks at no more than table_cap
        slots.  It is also used while a rehash has entered only some of the keys. */
    method FindSlot(key: K) returns (slot: nat, ghost probes: nat)
      requires Shape() && Sound(table[..], Ks(), hash) && EMPTY in table[..]
      ensures Located(table[..], Ks(), hash, content(key), slot)
      ensures probes <= table.Length
    {
      var c := content(key);
      var h := hash(c);
      var cap := table.Length;
      ghost var t := table[..];
      ghost var free :| 0 <= free < cap && t[free] == EMPTY;
      ghost var bound := ProbeVisitsEverySlot(h, cap, free);
      var i := h % cap;
      var step := 1;
      var firstTomb := -1;
      ghost var tombAt: nat := 0;
      probes := 0;
      while true
        invariant step == probes + 1 && probes <= bound
        invariant i == Probe(h, probes, cap)
        invariant NoEmptyBefore(t, h, probes)
        invariant forall j: nat :: j < probes ==>
          var e := t[Probe(h, j, cap)]; e >= 0 ==> Ks()[e] != c
        invariant firstTomb < 0 ==> forall j: nat :: j < probes ==> t[Probe(h, j, cap)] >= 0
        invariant firstTomb >= 0 ==>
          && firstTomb < cap && t[firstTomb] == TOMB && Probe(h, tombAt, cap) == firstTomb
          && forall j: nat :: j < tombAt ==> t[Probe(h, j, cap)] >= 0
        decreases bound - probes
      {
        var idx := table[i];
        if idx == EMPTY {
          AbsentAtEmpty(t, Ks(), hash, c, probes);
          slot := if firstTomb >= 0 then firstTomb else i;
          probes := probes + 1;
          return;
        }
        if idx == TOMB {
          if firstTomb < 0 { firstTomb := i; tombAt := probes; }
        } else if content(keys[idx]) == c {
          slot := i;
          probes := probes + 1;
          return;
        }
        ProbeStep(h, probes, cap);
        i := (i + step) % cap;
        step := step + 1;
        probes := probes + 1;
      }
    }

    /** find_index: the dense index of the key, or a negative number when it is absent. */
    method FindIndex(key: K) returns (idx: int)
      requires Valid()
      ensures idx < count
      ensures idx >= 0 <==> content(key) in Model()
      ensures idx >= 0 ==> content(keys[idx]) == content(key) && vals[idx] == Model()[content(key)]
    {
      HasRoom(table[..], Ks(), hash, used);
      var slot, _ := FindSlot(key);
      idx := table[slot];
      LocatedMeans(table[..], Ks(), hash, used, content(key), slot);
      DenseModel(content(key));
      if idx >= 0 { DenseValue(idx); }
    }

    /** The dense arrays in terms of the map they stand for. */
    lemma DenseModel(c: C)
      requires Valid()
      ensures c in Model() <==> c in Ks()
    {
      AssocRepresents(Ks(), vals[..count]);
    }

    lemma DenseValue(i: nat)
      requires Valid() && i < count
      ensures Ks()[i] == content(keys[i]) && Ks()[i] in Model() && Model()[Ks()[i]] == vals[i]
    {
      AssocRepresents(Ks(), vals[..count]);
    }

    /** grow_table: double the table and rehash the live entries; tombstones evaporate. */
    method GrowTable()
      requires Valid()
      modifies `table, `used
      ensures Valid() && fresh(table)
      ensures table.Length == 2 * old(table.Length)
      ensures used <= old(used) && (used + 1) * 10 < table.Length * 7
      ensures forall s :: 0 <= s < table.Length ==> table[s] != TOMB
    {
      var oldTable := table;
      var oldCap := table.Length;
      ghost var o, usedBefore, ks := table[..], used, Ks();
      table := new int[oldCap * 2](_ => EMPTY);
      used := 0;
      RehashStart(table[..], o, ks, hash, usedBefore);
      var i := 0;
      while i < oldCap
        invariant i <= oldCap && fresh(table) && oldTable[..] == o && Shape()
        invariant Rehashing(table[..], o, i, ks, hash, used)
      {
        var idx := oldTable[i];
        if idx >= 0 {
          RehashRoom(table[..], o, i, ks, hash, used);
          var slot, _ := FindSlot(keys[idx]);
          RehashMove(table[..], o, i, ks, hash, used, slot);
          ghost var t := table[..];
          table[slot] := idx;
          used := used + 1;
          assert table[..] == t[slot := idx];
        } else {
          RehashSkip(table[..], o, i, ks, hash, used);
        }
        i := i + 1;
      }
      RehashEnd(table[..], o, ks, hash, usedBefore, used);
    }

    /** ensure_table: afterwards one more slot can be claimed below the 0.7 load factor. */
    method EnsureTable()
      requires Valid()
      modifies `table, `used
      ensures Valid() && (table == old(table) || fresh(table))
      ensures (used + 1) * 10 < table.Length * 7
    {
      if (used + 1) * 10 >= table.Length * 7 {
        GrowTable();
      }
    }

    /** Doubling of the dense arrays when they are full. */
    method GrowDense()
      requires Valid()
      modifies `keys, `vals
      ensures Valid() && count < keys.Length
      ensures (keys == old(keys) && vals == old(vals)) || (fresh(keys) && fresh(vals))
      ensures DenseKeys() == old(DenseKeys()) && DenseVals() == old(DenseVals())
    {
      ghost var t, dk, dv := table[..], DenseKeys(), DenseVals();
      if count == keys.Length {
        var nk, nv := new K[2 * count], new V[2 * count];
        forall i | 0 <= i < count { nk[i] := keys[i]; }
        forall i | 0 <= i < count { nv[i] := vals[i]; }
        keys, vals := nk, nv;
        assert DenseKeys() == dk && DenseVals() == dv && table[..] == t;
      }
    }

    /** The common start of Set, TryAdd and GetOrAdd: ensure_table, then one find_slot. */
    method Locate(key: K) returns (slot: nat)
      requires Valid()
      modifies `table, `used
      ensures Valid() && (table == old(table) || fresh(table))
      ensures (used + 1) * 10 < table.Length * 7
      ensures Located(table[..], Ks(), hash, content(key), slot)
      ensures table[slot] >= 0 <==> content(key) in Model()
      ensures table[slot] >= 0 ==>
        content(keys[table[slot]]) == content(key) && Model()[content(key)] == vals[table[slot]]
    {
      EnsureTable();
      HasRoom(table[..], Ks(), hash, used);
      ghost var probes;
      slot, probes := FindSlot(key);
      LocatedMeans(table[..], Ks(), hash, used, content(key), slot);
      DenseModel(content(key));
      if table[slot] >= 0 { DenseValue(table[slot]); }
    }

    /** insert_new_at: append an absent key to the dense arrays and enter it at the located slot. */
    method InsertNewAt(slot: nat, key: K, val: V)
      requires Valid() && (used + 1) * 10 < table.Length * 7
      requires Located(table[..], Ks(), hash, content(key), slot) && table[slot] < 0
      modifies Repr()
      ensures Valid() && fresh(Repr() - old(Repr()))
      ensures DenseKeys() == old(DenseKeys()) + [key]
      ensures DenseVals() == old(DenseVals()) + [val]
      ensures Model() == old(Model())[content(key) := val]
    {
      ghost var t, ks, dk, dv := table[..], Ks(), DenseKeys(), DenseVals();
      IndexedInsert(t, ks, hash, used, content(key), slot);
      AssocAppend(ks, dv, content(key), val);
      GrowDense();
      Append(slot, key, val);
      assert Ks() == ks + [content(key)];
    }

    /** The writes of an insertion. */
    method Append(slot: nat, key: K, val: V)
      requires Shape() && count < keys.Length && slot < table.Length && table[slot] < 0
      modifies `count, `used, keys, vals, table
      ensures count == old(count) + 1
      ensures DenseKeys() == old(DenseKeys()) + [key]
      ensures DenseVals() == old(DenseVals()) + [val]
      ensures table[..] == old(table[..])[slot := old(count)]
      ensures used == old(used) + if old(table[slot]) == EMPTY then 1 else 0
    {
      var idx := table[slot];
      var n := count;
      keys[n] := key;
      vals[n] := val;
      count := count + 1;
      table[slot] := n;
      if idx == EMPTY { used := used + 1; }
    }

    /** Overwriting the value of a stored key. */
    method Overwrite(idx: nat, val: V)
      requires Valid() && idx < count
      modifies vals
      ensures Valid()
      ensures Model() == old(Model())[Ks()[idx] := val]
    {
      ghost var dv := DenseVals();
      AssocUpdate(Ks(), dv, idx, val);
      vals[idx] := val;
      assert vals[..count] == dv[idx := val];
    }

    /** Set: insert or overwrite.  Returns true when the key is new. */
    method Set(key: K, val: V) returns (inserted: bool)
      requires Valid()
      modifies Repr()
      ensures Valid() && fresh(Repr() - old(Repr()))
      ensures inserted == (content(key) !in old(Model()))
      ensures Model() == old(Model())[content(key) := val]
      ensures DenseKeys() == if inserted then old(DenseKeys()) + [key] else old(DenseKeys())
    {
      var slot := Locate(key);
      var idx := table[slot];
      if idx >= 0 {
        Overwrite(idx, val);
        return false;
      }
      InsertNewAt(slot, key, val);
      return true;
    }

    /** TryAdd: insert only when absent. */
    method TryAdd(key: K, val: V) returns (inserted: bool)
      requires Valid()
      modifies Repr()
      ensures Valid() && fresh(Repr() - old(Repr()))
      ensures inserted == (content(key) !in old(Model()))
      ensures Model() == if inserted then old(Model())[content(key) := val] else old(Model())
      ensures DenseKeys() == if inserted then old(DenseKeys()) + [key] else old(DenseKeys())
    {
      var slot := Locate(key);
      if table[slot] >= 0 { return false; }
      InsertNewAt(slot, key, val);
      return true;
    }

    /** The single probe of GetOrAdd and GroupBy: the dense index of the key, inserted if absent. */
    method LocateOrInsert(key: K, fallback: V) returns (idx: nat)
      requires Valid()
      modifies Repr()
      ensures Valid() && fresh(Repr() - old(Repr()))
      ensures Model() == if content(key) in old(Model()) then old(Model())
                         else old(Model())[content(key) := fallback]
      ensures DenseKeys() == if content(key) in old(Model()) then old(DenseKeys())
                             else old(DenseKeys()) + [key]
      ensures idx < count && content(keys[idx]) == content(key)
      ensures content(key) in Model() && vals[idx] == Model()[content(key)]
    {
      var slot := Locate(key);
      if table[slot] >= 0 { return table[slot]; }
      InsertNewAt(slot, key, fallback);
      idx := count - 1;
      assert keys[idx] == DenseKeys()[idx] && vals[idx] == DenseVals()[idx];
    }

    /** GetOrAdd: the stored value, after inserting `fallback` when the key is absent. */
    method GetOrAdd(key: K, fallback: V) returns (v: V)
      requires Valid()
      modifies Repr()
      ensures Valid() && fresh(Repr() - old(Repr()))
      ensures Model() == if content(key) in old(Model()) then old(Model())
                         else old(Model())[content(key) := fallback]
      ensures DenseKeys() == if content(key) in old(Model()) then old(DenseKeys())
                             else old(DenseKeys()) + [key]
      ensures content(key) in Model() && v == Model()[content(key)]
    {
      var idx := LocateOrInsert(key, fallback);
      v := vals[idx];
    }

    /** Get: None stands for the KeyException it throws. */
    method Get(key: K) returns (r: Option<V>)
      requires Valid()
      ensures r == if content(key) in Model() then Some(Model()[content(key)]) else None
    {
      var idx := FindIndex(key);
      r := if idx >= 0 then Some(vals[idx]) else None;
    }

    method GetOr(key: K, fallback: V) returns (v: V)
      requires Valid()
      ensures v == if content(key) in Model() then Model()[content(key)] else fallback
    {
      var idx := FindIndex(key);
      v := if idx >= 0 then vals[idx] else fallback;
    }

    method Contains(key: K) returns (b: bool)
      requires Valid()
      ensures b == (content(key) in Model())
    {
      var idx := FindIndex(key);
      b := idx >= 0;
    }

    /** Remove's search for the slot of the entry that moves: it follows the moved key's own probe
        path and stops at the entry holding the dense index `last`. */
    method FindEntry(h: nat, last: nat) returns (slot: nat, ghost probes: nat)
      requires IsPow2(table.Length) && last in table[..]
      ensures slot < table.Length && table[slot] == last
      ensures probes <= table.Length
    {
      var cap := table.Length;
      ghost var home :| 0 <= home < cap && table[home] == last;
      ghost var bound := ProbeVisitsEverySlot(h, cap, home);
      slot := h % cap;
      var step := 1;
      probes := 0;
      while table[slot] != last
        invariant step == probes + 1 && probes <= bound
        invariant slot < cap && slot == Probe(h, probes, cap)
        decreases bound - probes
      {
        ProbeStep(h, probes, cap);
        slot := (slot + step) % cap;
        step := step + 1;
        probes := probes + 1;
      }
      probes := probes + 1;
    }

    /** Remove: the last entry moves into the freed dense position. */
    method Remove(key: K) returns (removed: bool)
      requires Valid()
      modifies `count, keys, vals, table
      ensures Valid()
      ensures removed == (content(key) in old(Model()))
      ensures Model() == old(Model()) - {content(key)}
      ensures !removed ==> DenseKeys() == old(DenseKeys())
      ensures removed ==> exists i :: 0 <= i < old(count) && old(Ks())[i] == content(key) &&
                                      DenseKeys() == SwapRemove(old(DenseKeys()), i)
    {
      HasRoom(table[..], Ks(), hash, used);
      var slot, _ := FindSlot(key);
      LocatedMeans(table[..], Ks(), hash, used, content(key), slot);
      DenseModel(content(key));
      if table[slot] < 0 { return false; }
      RemoveAt(slot);
      return true;
    }

    method RemoveAt(slot: nat)
      requires Valid() && slot < table.Length && table[slot] >= 0
      modifies `count, keys, vals, table
      ensures Valid()
      ensures Model() == old(Model()) - {old(Ks()[table[slot]])}
      ensures DenseKeys() == SwapRemove(old(DenseKeys()), old(table[slot]))
    {
      ghost var t, ks, dv := table[..], Ks(), DenseVals();
      var idx := table[slot];
      var last := count - 1;
      var moved := slot;
      if idx != last {
        EntryExists(t, ks, hash, used, last);
        ghost var probes;
        moved, probes := FindEntry(hash(content(keys[last])), last);
      }
      IndexedRemove(t, ks, hash, used, slot, moved);
      AssocSwapRemove(ks, dv, idx);
      SwapOut(slot, moved);
      assert Ks() == SwapRemove(ks, idx);
    }

    /** The writes of a removal.  (When the removed key is itself the last one, `moved` is `slot`.) */
    method SwapOut(slot: nat, moved: nat)
      requires Shape() && slot < table.Length && moved < table.Length
      requires 0 <= table[slot] < count && table[moved] == count - 1
      modifies `count, keys, vals, table
      ensures count == old(count) - 1
      ensures DenseKeys() == SwapRemove(old(DenseKeys()), old(table[slot]))
      ensures DenseVals() == SwapRemove(old(DenseVals()), old(table[slot]))
      ensures table[..] == old(table[..])[moved := old(table[slot])][slot := TOMB]
    {
      var idx, last := table[slot], count - 1;
      if idx != last {
        keys[idx] := keys[last];
        vals[idx] := vals[last];
        table[moved] := idx;
      }
      count := count - 1;
      table[slot] := TOMB;
    }

    /** Clear: empty the table in place. */
    method Clear()
      requires Valid()
      modifies `count, `used, table
      ensures Valid() && Model() == map[] && DenseKeys() == []
    {
      count, used := 0, 0;
      var i := 0;
      while i < table.Length
        invariant i <= table.Length
        invariant forall s :: 0 <= s < i ==> table[s] == EMPTY
        invariant Shape() && count == used == 0
      {
        table[i] := EMPTY;
        i := i + 1;
      }
      AllFree(table[..], EMPTY);
    }

    /** One operation of a client, with the reply it gets. */
    method Perform(op: Op<K, V>) returns (reply: Reply<V>)
      requires Valid()
      modifies Repr()
      ensures Valid() && fresh(Repr() - old(Repr()))
      ensures (Model(), reply) == Effect(content, old(Model()), op)
    {
      match op {
        case Set(k, v) => var b := Set(k, v); reply := Flag(b);
        case TryAdd(k, v) => var b := TryAdd(k, v); reply := Flag(b);
        case GetOrAdd(k, v) => var r := GetOrAdd(k, v); reply := Found(Some(r));
        case Get(k) => var r := Get(k); reply := Found(r);
        case Contains(k) => var b := Contains(k); reply := Flag(b);
        case Remove(k) => var b := Remove(k); reply := Flag(b);
        case Clear => Clear(); reply := Done;
      }
    }
  }

  datatype Op<K, V> =
    | Set(k: K, v: V) | TryAdd(k: K, v: V) | GetOrAdd(k: K, v: V)
    | Get(k: K) | Contains(k: K) | Remove(k: K) | Clear

  datatype Reply<V> = Flag(b: bool) | Found(v: Option<V>) | Done

  /** What an operation does to a mathematical finite map, and what it answers. */
  ghost function Effect<K, C, V>(content: K -> C, m: map<C, V>, op: Op<K, V>): (map<C, V>, Reply<V>) {
    match op
    case Set(k, v) => (m[content(k) := v], Flag(content(k) !in m))
    case TryAdd(k, v) => (if content(k) in m then m else m[content(k) := v], Flag(content(k) !in m))
    case GetOrAdd(k, v) =>
      if content(k) in m then (m, Found(Some(m[content(k)]))) else (m[content(k) := v], Found(Some(v)))
    case Get(k) => (m, Found(if content(k) in m then Some(m[content(k)]) else None))
    case Contains(k) => (m, Flag(content(k) in m))
    case Remove(k) => (m - {content(k)}, Flag(content(k) in m))
    case Clear => (map[], Done)
  }

  ghost function Effects<K, C, V>(content: K -> C, m: map<C, V>, ops: seq<Op<K, V>>): (map<C, V>, seq<Reply<V>>) {
    if ops == [] then (m, [])
    else
      var n := |ops| - 1;
      var (m1, replies) := Effects(content, m, ops[..n]);
      var (m2, reply) := Effect(content, m1, ops[n]);
      (m2, replies + [reply])
  }

  /** Every sequence of operations on a constructed map answers exactly what a mathematical finite
      map answers, through growth, tombstone reuse and swap-remove. */
  method Replay<K(0), C(==,!new), V(0)>(capacity: int, content: K -> C, hash: C -> nat, ops: seq<Op<K, V>>)
    returns (m: Map<K, C, V>, replies: seq<Reply<V>>)
    ensures m.Valid() && m.content == content
    ensures (m.Model(), replies) == Effects(content, map[], ops)
  {
    m := new Map(capacity, content, hash);
    replies := [];
    var i := 0;
    while i < |ops|
      invariant i <= |ops|
      invariant m.Valid() && fresh(m.Repr()) && m.content == content
      invariant (m.Model(), replies) == Effects(content, map[], ops[..i])
    {
      assert ops[..i + 1][..i] == ops[..i];
      var reply := m.Perform(ops[i]);
      replies := replies + [reply];
      i := i + 1;
    }
    assert ops[..|ops|] == ops;
  }

  /** The items whose key has content c, in list order. */
  function Bucket<T, K, C(==)>(items: seq<T>, keyOf: T -> K, content: K -> C, c: C): seq<T> {
    if items == [] then []
    else
      var n := |items| - 1;
      Bucket(items[..n], keyOf, content, c) + (if content(keyOf(items[n])) == c then [items[n]] else [])
  }

  ghost predicate Grouped<T, K, C(!new)>(m: map<C, seq<T>>, items: seq<T>, keyOf: T -> K, content: K -> C) {
    && (forall c :: c in m <==> Bucket(items, keyOf, content, c) != [])
    && (forall c :: c in m ==> m[c] == Bucket(items, keyOf, content, c))
  }

  /** The body of the GroupBy loop: one probe, an empty bucket when the key is new, then append. */
  method AddToBucket<T, K(0), C(==,!new)>(m: Map<K, C, seq<T>>, key: K, item: T)
    requires m.Valid()
    modifies m.Repr()
    ensures m.Valid() && fresh(m.Repr() - old(m.Repr()))
    ensures var c := m.content(key); var before := old(m.Model());
            m.Model() == before[c := (if c in before then before[c] else []) + [item]]
  {
    var didx := m.LocateOrInsert(key, []);
    m.Overwrite(didx, m.vals[didx] + [item]);
  }

  lemma GroupedStep<T, K, C(!new)>(m: map<C, seq<T>>, items: seq<T>, item: T, keyOf: T -> K, content: K -> C)
    requires Grouped(m, items, keyOf, content)
    ensures var c := content(keyOf(item));
            Grouped(m[c := (if c in m then m[c] else []) + [item]], items + [item], keyOf, content)
  {
    assert (items + [item])[..|items|] == items;
  }

  /** GroupBy: afterwards every bucket holds the items of its key in list order. */
  method GroupBy<T, K(0), C(==,!new)>(items: seq<T>, keyOf: T -> K, content: K -> C, hash: C -> nat)
    returns (m: Map<K, C, seq<T>>)
    ensures fresh(m) && m.Valid()
    ensures Grouped(m.Model(), items, keyOf, content)
  {
    m := new Map(4, content, hash);
    var i := 0;
    while i < |items|
      invariant i <= |items|
      invariant m.Valid() && fresh(m) && fresh(m.Repr()) && m.content == content
      invariant Grouped(m.Model(), items[..i], keyOf, content)
    {
      GroupedStep(m.Model(), items[..i], items[i], keyOf, content);
      assert items[..i + 1] == items[..i] + [items[i]];
      AddToBucket(m, keyOf(items[i]), items[i]);
      i := i + 1;
    }
    assert items[..|items|] == items;
  }
}
