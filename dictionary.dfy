/** Building a Dictionary by a run of Dictionary.Add calls, which throws an
    ArgumentException on the first key that is already present. */
module Dictionaries {
  import opened Common

  predicate Distinct<T(==)>(xs: seq<T>)
  {
    forall i, j :: 0 <= i < j < |xs| ==> xs[i] != xs[j]
  }

  function KeysOf<K, V>(pairs: seq<(K, V)>): (ks: seq<K>)
    ensures |ks| == |pairs|
    ensures forall i :: 0 <= i < |pairs| ==> ks[i] == pairs[i].0
  {
    seq(|pairs|, i requires 0 <= i < |pairs| => pairs[i].0)
  }

  /** Dictionary.Add of each pair in turn, starting from m. */
  function AddAll<K(==), V>(m: map<K, V>, pairs: seq<(K, V)>): Result<map<K, V>>
    decreases |pairs|
  {
    if pairs == [] then Success(m)
    else if pairs[0].0 in m then Failure(Argument(DuplicateKey))
    else AddAll(m[pairs[0].0 := pairs[0].1], pairs[1..])
  }

  /** One Dictionary.Add, then the rest. */
  lemma AddAllCons<K, V>(m: map<K, V>, p: (K, V), rest: seq<(K, V)>)
    ensures AddAll(m, [p] + rest) ==
      if p.0 in m then Failure(Argument(DuplicateKey)) else AddAll(m[p.0 := p.1], rest)
  {
    assert ([p] + rest)[0] == p && ([p] + rest)[1..] == rest;
  }

  /** Adding a + b is adding a, then (if that did not throw) adding b. */
  lemma {:induction false} AddAllAppend<K, V>(m: map<K, V>, a: seq<(K, V)>, b: seq<(K, V)>)
    ensures AddAll(m, a + b) ==
      match AddAll(m, a)
      case Failure(e) => Failure(e)
      case Success(m') => AddAll(m', b)
    decreases |a|
  {
    if a == [] {
      assert a + b == b;
    } else {
      assert (a + b)[0] == a[0];
      assert (a + b)[1..] == a[1..] + b;
      if a[0].0 !in m {
        AddAllAppend(m[a[0].0 := a[0].1], a[1..], b);
      }
    }
  }

  /** The run succeeds exactly when its keys are distinct and none is in m already. */
  lemma {:induction false} AddAllSucceeds<K, V>(m: map<K, V>, pairs: seq<(K, V)>)
    ensures AddAll(m, pairs).Success? <==>
      Distinct(KeysOf(pairs)) && forall i :: 0 <= i < |pairs| ==> pairs[i].0 !in m
    decreases |pairs|
  {
    if pairs != [] {
      var k0, v0, rest := pairs[0].0, pairs[0].1, pairs[1..];
      if k0 in m {
        assert !(forall i :: 0 <= i < |pairs| ==> pairs[i].0 !in m);
      } else {
        var m' := m[k0 := v0];
        AddAllSucceeds(m', rest);
        assert forall i :: 0 < i < |pairs| ==> pairs[i] == rest[i - 1];
        if Distinct(KeysOf(pairs)) && forall i :: 0 <= i < |pairs| ==> pairs[i].0 !in m {
          assert Distinct(KeysOf(rest));
          forall i | 0 <= i < |rest| ensures rest[i].0 !in m' {
            assert pairs[i + 1].0 != pairs[0].0;
          }
        }
        if AddAll(m', rest).Success? {
          forall i, j | 0 <= i < j < |pairs| ensures pairs[i].0 != pairs[j].0 {
            if i > 0 {
              assert KeysOf(rest)[i - 1] != KeysOf(rest)[j - 1];
            } else {
              assert rest[j - 1].0 !in m';
            }
          }
        }
      }
    }
  }

  /** A run that succeeds holds the keys of m and of the pairs, each pair's value
      under its key, and m's own values untouched. */
  lemma {:induction false} AddAllContents<K, V>(m: map<K, V>, pairs: seq<(K, V)>)
    requires AddAll(m, pairs).Success?
    ensures var r := AddAll(m, pairs).value;
      && r.Keys == m.Keys + (set k | k in KeysOf(pairs))
      && (forall k :: k in m ==> r[k] == m[k])
      && (forall i :: 0 <= i < |pairs| ==> r[pairs[i].0] == pairs[i].1)
    decreases |pairs|
  {
    if pairs != [] {
      var k0, v0, rest := pairs[0].0, pairs[0].1, pairs[1..];
      var m' := m[k0 := v0];
      AddAllContents(m', rest);
      var r := AddAll(m', rest).value;
      assert KeysOf(pairs) == [k0] + KeysOf(rest);
      forall i | 0 <= i < |pairs| ensures r[pairs[i].0] == pairs[i].1 {
        if i > 0 { assert pairs[i] == rest[i - 1]; }
      }
    }
  }
}
