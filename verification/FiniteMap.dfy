/** The finite map that two parallel dense arrays stand for. */
module FiniteMap {
  import opened OpenTable

  function Contents<K, C>(content: K -> C, ks: seq<K>): (r: seq<C>)
    ensures |r| == |ks|
    ensures forall i :: 0 <= i < |ks| ==> r[i] == content(ks[i])
  {
    seq(|ks|, i requires 0 <= i < |ks| => content(ks[i]))
  }

  ghost function Assoc<C, V>(ks: seq<C>, vs: seq<V>): (m: map<C, V>)
    requires |ks| == |vs|
  {
    if ks == [] then map[]
    else var n := |ks| - 1; Assoc(ks[..n], vs[..n])[ks[n] := vs[n]]
  }

  ghost predicate Represents<C(!new), V>(m: map<C, V>, ks: seq<C>, vs: seq<V>)
    requires |ks| == |vs|
  {
    && (forall c :: c in m <==> c in ks)
    && (forall i :: 0 <= i < |ks| ==> ks[i] in m && m[ks[i]] == vs[i])
  }

  lemma {:induction false} AssocRepresents<C(!new), V>(ks: seq<C>, vs: seq<V>)
    requires |ks| == |vs| && Distinct(ks)
    ensures Represents(Assoc(ks, vs), ks, vs)
  {
    if ks != [] {
      var n := |ks| - 1;
      DistinctPairs(ks);
      DistinctPairs(ks[..n]);
      AssocRepresents(ks[..n], vs[..n]);
      assert forall c :: c in ks <==> c in ks[..n] || c == ks[n];
      forall i | 0 <= i < n ensures ks[i] in Assoc(ks, vs) && Assoc(ks, vs)[ks[i]] == vs[i] {
        assert ks[..n][i] == ks[i] && vs[..n][i] == vs[i];
      }
    }
  }

  /** Distinct keys and their values determine the map, whatever the order. */
  lemma RepresentsIsUnique<C(!new), V>(m: map<C, V>, m': map<C, V>, ks: seq<C>, vs: seq<V>)
    requires |ks| == |vs| && Represents(m, ks, vs) && Represents(m', ks, vs)
    ensures m == m'
  {
    forall c | c in m ensures c in m' && m[c] == m'[c] {
      var j :| 0 <= j < |ks| && ks[j] == c;
    }
    assert forall c :: c in m' ==> c in ks && c in m;
  }

  lemma AssocAppend<C, V>(ks: seq<C>, vs: seq<V>, c: C, v: V)
    requires |ks| == |vs|
    ensures Assoc(ks + [c], vs + [v]) == Assoc(ks, vs)[c := v]
  {
    assert (ks + [c])[..|ks|] == ks && (vs + [v])[..|vs|] == vs;
  }

  lemma AssocUpdate<C(!new), V>(ks: seq<C>, vs: seq<V>, i: nat, v: V)
    requires |ks| == |vs| && Distinct(ks) && i < |ks|
    ensures Assoc(ks, vs[i := v]) == Assoc(ks, vs)[ks[i] := v]
  {
    AssocRepresents(ks, vs);
    AssocRepresents(ks, vs[i := v]);
    RepresentsIsUnique(Assoc(ks, vs[i := v]), Assoc(ks, vs)[ks[i] := v], ks, vs[i := v]);
  }

  lemma InSwapRemove<C(!new)>(ks: seq<C>, i: nat, c: C)
    requires Distinct(ks) && i < |ks|
    ensures c in SwapRemove(ks, i) <==> c in ks && c != ks[i]
  {
    var ks' := SwapRemove(ks, i);
    DistinctPairs(ks);
    if c in ks && c != ks[i] {
      var j :| 0 <= j < |ks| && ks[j] == c;
      assert ks'[if j == |ks| - 1 then i else j] == c;
    }
    if c in ks' {
      var j :| 0 <= j < |ks'| && ks'[j] == c;
      assert ks[if j == i then |ks| - 1 else j] == c;
    }
  }

  lemma AssocSwapRemove<C(!new), V>(ks: seq<C>, vs: seq<V>, i: nat)
    requires |ks| == |vs| && Distinct(ks) && i < |ks|
    ensures Distinct(SwapRemove(ks, i))
    ensures Assoc(SwapRemove(ks, i), SwapRemove(vs, i)) == Assoc(ks, vs) - {ks[i]}
  {
    var ks', vs', m := SwapRemove(ks, i), SwapRemove(vs, i), Assoc(ks, vs) - {ks[i]};
    DistinctPairs(ks);
    DistinctPairs(ks');
    AssocRepresents(ks, vs);
    AssocRepresents(ks', vs');
    forall c ensures c in m <==> c in ks' { InSwapRemove(ks, i, c); }
    RepresentsIsUnique(Assoc(ks', vs'), m, ks', vs');
  }
}
