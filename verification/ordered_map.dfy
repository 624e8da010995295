/** A plain insertion-ordered map: what a JSON object's table stands for. */
module OrderedMap {
  datatype Option<+T> = None | Some(value: T)

  predicate Has<K(==), V>(es: seq<(K, V)>, k: K) {
    exists i :: 0 <= i < |es| && es[i].0 == k
  }

  ghost predicate Unique<K, V>(es: seq<(K, V)>) {
    forall i, j :: 0 <= i < j < |es| ==> es[i].0 != es[j].0
  }

  function Get<K(==), V>(es: seq<(K, V)>, k: K): Option<V> {
    if es == [] then None
    else if es[0].0 == k then Some(es[0].1)
    else Get(es[1..], k)
  }

  function Remove<K(==), V>(es: seq<(K, V)>, k: K): seq<(K, V)> {
    if es == [] then []
    else if es[0].0 == k then Remove(es[1..], k)
    else [es[0]] + Remove(es[1..], k)
  }

  // A replaced key moves to the end.
  function Add<K(==), V>(es: seq<(K, V)>, k: K, v: V): seq<(K, V)> {
    Remove(es, k) + [(k, v)]
  }

  lemma {:induction false} RemoveAbsent<K, V>(es: seq<(K, V)>, k: K)
    requires !Has(es, k)
    ensures Remove(es, k) == es
  {
    if es != [] {
      assert forall i :: 0 <= i < |es[1..]| ==> es[1..][i] == es[i + 1];
      RemoveAbsent(es[1..], k);
    }
  }

  lemma {:induction false} RemoveAt<K, V>(es: seq<(K, V)>, i: nat)
    requires Unique(es) && i < |es|
    ensures Remove(es, es[i].0) == es[..i] + es[i + 1..]
  {
    if i == 0 {
      RemoveAbsent(es[1..], es[0].0);
    } else {
      RemoveAt(es[1..], i - 1);
      assert es[..i] + es[i + 1..] == [es[0]] + (es[1..][..i - 1] + es[1..][i..]);
    }
  }

  lemma {:induction false} HasSplit<K, V>(es: seq<(K, V)>, x: K)
    requires es != []
    ensures Has(es, x) <==> es[0].0 == x || Has(es[1..], x)
  {
    if Has(es, x) && es[0].0 != x {
      var i :| 0 <= i < |es| && es[i].0 == x;
      assert es[1..][i - 1].0 == x;
    }
    if Has(es[1..], x) {
      var i :| 0 <= i < |es[1..]| && es[1..][i].0 == x;
      assert es[i + 1].0 == x;
    }
  }

  lemma {:induction false} RemoveHas<K, V>(es: seq<(K, V)>, k: K, x: K)
    ensures Has(Remove(es, k), x) <==> x != k && Has(es, x)
  {
    if es != [] {
      RemoveHas(es[1..], k, x);
      HasSplit(es, x);
      if es[0].0 != k {
        HasSplit(Remove(es, k), x);
      }
    }
  }

  lemma {:induction false} RemoveGet<K, V>(es: seq<(K, V)>, k: K, x: K)
    requires x != k
    ensures Get(Remove(es, k), x) == Get(es, x)
  {
    if es != [] {
      RemoveGet(es[1..], k, x);
    }
  }

  lemma {:induction false} RemoveUnique<K, V>(es: seq<(K, V)>, k: K)
    requires Unique(es)
    ensures Unique(Remove(es, k))
  {
    if i :| 0 <= i < |es| && es[i].0 == k {
      RemoveAt(es, i);
    } else {
      RemoveAbsent(es, k);
    }
  }

  // The map laws of Add: k is bound to v and every other key keeps its binding.
  lemma {:induction false} AddIsUpdate<K, V>(es: seq<(K, V)>, k: K, v: V, x: K)
    ensures Get(Add(es, k, v), x) == if x == k then Some(v) else Get(es, x)
    ensures Unique(es) ==> Unique(Add(es, k, v))
  {
    GetAppend(Remove(es, k), k, v, x);
    RemoveHas(es, k, k);
    if x == k {
      GetAbsent(Remove(es, k), k);
    } else {
      RemoveGet(es, k, x);
    }
    if Unique(es) {
      RemoveUnique(es, k);
    }
  }

  lemma {:induction false} GetAppend<K, V>(es: seq<(K, V)>, k: K, v: V, x: K)
    ensures Get(es + [(k, v)], x) ==
            if Get(es, x) != None then Get(es, x) else if x == k then Some(v) else None
  {
    if es != [] {
      assert (es + [(k, v)])[1..] == es[1..] + [(k, v)];
      GetAppend(es[1..], k, v, x);
    }
  }

  lemma {:induction false} GetAbsent<K, V>(es: seq<(K, V)>, k: K)
    ensures Get(es, k) == None <==> !Has(es, k)
  {
    if es != [] {
      assert forall i :: 0 <= i < |es[1..]| ==> es[1..][i] == es[i + 1];
      GetAbsent(es[1..], k);
    }
  }

  lemma {:induction false} GetAt<K, V>(es: seq<(K, V)>, i: nat)
    requires Unique(es) && i < |es|
    ensures Get(es, es[i].0) == Some(es[i].1)
  {
    if i > 0 {
      GetAt(es[1..], i - 1);
    }
  }
}
