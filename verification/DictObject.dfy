/** The pairs of an object node in include/dict.h, in their growing array. */
module DictObject {
  import opened Prelude
  import opened Json
  import opened JsonRoundTrip
  import opened JsonTree

  /** The value of a key, if it is there. */
  function Lookup(pairs: seq<Pair>, key: bytes): Option<Value> {
    var k := KeyIndex(pairs, key, 0);
    if k < |pairs| then Some(pairs[k].value) else None
  }

  function RemoveKey(pairs: seq<Pair>, key: bytes): seq<Pair> {
    var k := KeyIndex(pairs, key, 0);
    if k < |pairs| then pairs[..k] + pairs[k + 1..] else pairs
  }

  lemma {:induction false} IndexOf(pairs: seq<Pair>, key: bytes, i: nat, k: nat)
    requires i <= k < |pairs| && pairs[k].key == key && DistinctKeys(pairs)
    ensures KeyIndex(pairs, key, i) == k
    decreases k - i
  {
    if i < k { IndexOf(pairs, key, i + 1, k); }
  }

  /** A key's value, found anywhere. */
  lemma LookupIs(pairs: seq<Pair>, k: nat)
    requires DistinctKeys(pairs) && k < |pairs|
    ensures Lookup(pairs, pairs[k].key) == Some(pairs[k].value)
  {
    IndexOf(pairs, pairs[k].key, 0, k);
  }

  lemma LookupNone(pairs: seq<Pair>, key: bytes)
    requires forall k :: 0 <= k < |pairs| ==> pairs[k].key != key
    ensures Lookup(pairs, key) == None
  {
  }

  /** Setting a key changes its value and no other, and keeps the keys distinct. */
  lemma SetLookup(pairs: seq<Pair>, key: bytes, v: Value, other: bytes)
    requires DistinctKeys(pairs) && SetPair(pairs, key, v).Some?
    ensures var after := SetPair(pairs, key, v).value;
            DistinctKeys(after) && Lookup(after, other) == if other == key then Some(v) else Lookup(pairs, other)
  {
    var n, after := KeyIndex(pairs, key, 0), SetPair(pairs, key, v).value;
    assert DistinctKeys(after);
    if k :| 0 <= k < |after| && after[k].key == other {
      LookupIs(after, k);
      if other != key { LookupIs(pairs, k); }
    } else {
      LookupNone(after, other);
      assert after[if n < |pairs| then n else |pairs|].key == key;
      forall k | 0 <= k < |pairs| ensures pairs[k].key != other { assert after[k].key == pairs[k].key; }
      LookupNone(pairs, other);
    }
  }

  /** Removing a key removes it and no other, and keeps the rest in order. */
  lemma RemoveLookup(pairs: seq<Pair>, key: bytes, other: bytes)
    requires DistinctKeys(pairs)
    ensures var after := RemoveKey(pairs, key);
            DistinctKeys(after) && Lookup(after, other) == if other == key then None else Lookup(pairs, other)
  {
    var n, after := KeyIndex(pairs, key, 0), RemoveKey(pairs, key);
    forall k | 0 <= k < |after| ensures after[k] == pairs[if k < n then k else k + 1] { }
    if k :| 0 <= k < |after| && after[k].key == other {
      LookupIs(after, k);
      LookupIs(pairs, if k < n then k else k + 1);
    } else {
      LookupNone(after, other);
      forall k | 0 <= k < |pairs| && other != key ensures pairs[k].key != other {
        if k < n { assert after[k] == pairs[k]; }
        if k > n { assert after[k - 1] == pairs[k]; }
      }
      if other != key { LookupNone(pairs, other); }
    }
  }

  /** The pairs with another key, in order. */
  function Others(pairs: seq<Pair>, key: bytes): seq<Pair> {
    if pairs == [] then []
    else (if pairs[0].key == key then [] else [pairs[0]]) + Others(pairs[1..], key)
  }

  lemma {:induction false} NoneToRemove(pairs: seq<Pair>, key: bytes)
    requires forall k :: 0 <= k < |pairs| ==> pairs[k].key != key
    ensures Others(pairs, key) == pairs
  {
    if pairs != [] {
      NoneToRemove(pairs[1..], key);
      assert pairs == [pairs[0]] + pairs[1..];
    }
  }

  lemma {:induction false} OthersFrom(pairs: seq<Pair>, key: bytes, k: nat)
    requires k < |pairs| && pairs[k].key == key && forall j :: 0 <= j < |pairs| && j != k ==> pairs[j].key != key
    ensures Others(pairs, key) == pairs[..k] + pairs[k + 1..]
  {
    if k == 0 {
      NoneToRemove(pairs[1..], key);
    } else {
      OthersFrom(pairs[1..], key, k - 1);
      assert pairs[..k] == [pairs[0]] + pairs[1..][..k - 1] && pairs[1..][k..] == pairs[k + 1..];
    }
  }

  /** Removing a key leaves the other pairs, in their order. */
  lemma {:induction false} RemoveIsOthers(pairs: seq<Pair>, key: bytes)
    requires DistinctKeys(pairs)
    ensures RemoveKey(pairs, key) == Others(pairs, key)
  {
    var k := KeyIndex(pairs, key, 0);
    if k < |pairs| { OthersFrom(pairs, key, k); } else { NoneToRemove(pairs, key); }
  }

  class ObjectNode {
    var pairs: array<Pair>
    var count: nat

    ghost predicate Valid()
      reads this
    {
      count <= pairs.Length
    }

    ghost function Contents(): seq<Pair>
      requires Valid()
      reads this, pairs
    {
      pairs[..count]
    }

    /** dict_object_init. */
    constructor ()
      ensures Valid() && fresh(pairs) && Contents() == []
    {
      pairs := new Pair[4](_ => Pair([], Null));
      count := 0;
    }

    /** dict_object_ensure_capacity. */
    method EnsureCapacity(n: nat)
      requires Valid()
      modifies this`pairs
      ensures Valid() && Contents() == old(Contents()) && pairs.Length >= n
      ensures pairs == old(pairs) || fresh(pairs)
    {
      if n <= pairs.Length { return; }
      var cap := if pairs.Length * 2 < n then n else pairs.Length * 2;
      var from, len := pairs, count;
      ghost var before := pairs[..count];
      pairs := new Pair[cap](i reads from => if 0 <= i < len && i < from.Length then from[i] else Pair([], Null));
      assert pairs[..len] == before;
    }

    /** dict_object_find_key. */
    method FindKey(key: bytes) returns (i: nat)
      requires Valid()
      ensures i == KeyIndex(Contents(), key, 0)
    {
      i := 0;
      while i < count && pairs[i].key != key
        invariant i <= count && KeyIndex(Contents(), key, 0) == KeyIndex(Contents(), key, i)
      {
        i := i + 1;
      }
    }

    /** dict_object_set. */
    method Set(key: bytes, v: Value) returns (ok: bool)
      requires Valid()
      modifies this, pairs
      ensures Valid() && (pairs == old(pairs) || fresh(pairs))
      ensures match SetPair(old(Contents()), key, v)
              case None => !ok && Contents() == old(Contents())
              case Some(after) => ok && Contents() == after
    {
      if |key| == 0 || |key| >= MAX_KEY_LEN { return false; }
      ghost var before := Contents();
      var i := FindKey(key);
      if i < count {
        pairs[i] := Pair(pairs[i].key, v);
        assert Contents() == before[i := Pair(before[i].key, v)];
        return true;
      }
      EnsureCapacity(count + 1);
      pairs[count] := Pair(key, v);
      count := count + 1;
      assert Contents() == before + [Pair(key, v)];
      ok := true;
    }

    /** dict_object_get. */
    method Get(key: bytes) returns (r: Option<Value>)
      requires Valid()
      ensures r == Lookup(Contents(), key)
    {
      var i := FindKey(key);
      r := if i < count then Some(pairs[i].value) else None;
    }

    /** Move the pairs after n down by one. */
    method CloseGap(n: nat)
      requires Valid() && n < count
      modifies pairs
      ensures forall k :: 0 <= k < n ==> pairs[k] == old(pairs[k])
      ensures forall k :: n <= k < count - 1 ==> pairs[k] == old(pairs[k + 1])
    {
      var i := n;
      while i + 1 < count
        invariant n <= i < count
        invariant forall k :: n <= k < i ==> pairs[k] == old(pairs[k + 1])
        invariant forall k :: 0 <= k < pairs.Length && !(n <= k < i) ==> pairs[k] == old(pairs[k])
      {
        pairs[i] := pairs[i + 1];
        i := i + 1;
      }
    }

    /** dict_object_remove. */
    method Remove(key: bytes) returns (ok: bool)
      requires Valid()
      modifies this`count, pairs
      ensures Valid() && ok == Lookup(old(Contents()), key).Some? && Contents() == RemoveKey(old(Contents()), key)
    {
      ghost var before := Contents();
      var n := FindKey(key);
      if n == count { return false; }
      CloseGap(n);
      count := count - 1;
      assert Contents() == before[..n] + before[n + 1..];
      ok := true;
    }
  }
}
