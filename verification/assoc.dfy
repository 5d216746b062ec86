/**
 An ordered association list: the model of a plain JavaScript object whose
 key order is observable through Object.keys and Object.values. Assigning an
 existing key keeps its position; assigning a new key appends it; deleting a
 key drops it, so a later re-assignment appends it again at the end.
 */
module Assoc {
  import opened Wrappers

  type Assoc<K, V> = seq<(K, V)>

  /** The keys, in insertion order (Object.keys). */
  function Keys<K(==,!new), V>(a: Assoc<K, V>): (ks: seq<K>)
    ensures |ks| == |a| && forall i :: 0 <= i < |a| ==> ks[i] == a[i].0
  {
    if |a| == 0 then [] else [a[0].0] + Keys(a[1..])
  }

  /** The values, in insertion order (Object.values). */
  function Values<K(==,!new), V>(a: Assoc<K, V>): (vs: seq<V>)
    ensures |vs| == |a| && forall i :: 0 <= i < |a| ==> vs[i] == a[i].1
  {
    if |a| == 0 then [] else [a[0].1] + Values(a[1..])
  }

  function KeySet<K(==,!new), V>(a: Assoc<K, V>): set<K>
  {
    if |a| == 0 then {} else {a[0].0} + KeySet(a[1..])
  }

  /** No key occurs twice: what every JavaScript object satisfies. */
  predicate Distinct<K(==,!new), V>(a: Assoc<K, V>)
  {
    forall i, j :: 0 <= i < j < |a| ==> a[i].0 != a[j].0
  }

  /** Property lookup; None models undefined. */
  function Get<K(==,!new), V>(a: Assoc<K, V>, k: K): (r: Option<V>)
    ensures r.Some? <==> k in KeySet(a)
    ensures Distinct(a) ==> forall i :: 0 <= i < |a| && a[i].0 == k ==> r == Some(a[i].1)
  {
    if |a| == 0 then None
    else if a[0].0 == k then Some(a[0].1)
    else Get(a[1..], k)
  }

  /** Property assignment `o[k] = v`: an existing key keeps its position,
      a new key is appended. */
  function Put<K(==,!new), V>(a: Assoc<K, V>, k: K, v: V): (r: Assoc<K, V>)
    ensures KeySet(r) == KeySet(a) + {k}
    ensures k in KeySet(a) ==> Keys(r) == Keys(a)
    ensures k !in KeySet(a) ==> r == a + [(k, v)]
  {
    if |a| == 0 then [(k, v)]
    else if a[0].0 == k then [(k, v)] + a[1..]
    else [a[0]] + Put(a[1..], k, v)
  }

  /** After `o[k] = v`, o[k] is v, every other key reads as before, and no
      key occurs twice. */
  lemma {:induction false} PutSpec<K(!new), V>(a: Assoc<K, V>, k: K, v: V)
    ensures Get(Put(a, k, v), k) == Some(v)
    ensures forall k' :: k' != k ==> Get(Put(a, k, v), k') == Get(a, k')
    ensures Distinct(a) ==> Distinct(Put(a, k, v))
    ensures forall i :: 0 <= i < |Put(a, k, v)| ==> Put(a, k, v)[i] == (k, v) || Put(a, k, v)[i] in a
  {
    if |a| > 0 {
      PutSpec(a[1..], k, v);
      DistinctCons(a);
      DistinctCons(Put(a, k, v));
      if a[0].0 != k {
        assert Put(a, k, v)[1..] == Put(a[1..], k, v);
      } else {
        assert Put(a, k, v)[1..] == a[1..];
      }
    }
  }

  /** Assigning a key that is present rewrites its entry where it stands. */
  lemma {:induction false} PutInPlace<K(!new), V>(a: Assoc<K, V>, k: K, v: V)
    ensures Distinct(a) ==> forall i :: 0 <= i < |a| && a[i].0 == k ==> Put(a, k, v) == a[i := (k, v)]
  {
    if |a| > 0 && Distinct(a) {
      DistinctCons(a);
      PutInPlace(a[1..], k, v);
      forall i | 0 <= i < |a| && a[i].0 == k
        ensures Put(a, k, v) == a[i := (k, v)]
      {
        if a[0].0 == k {
          assert i == 0;
        } else {
          assert a[1..][i - 1].0 == k;
          ConsUpdate(a, i, (k, v));
        }
      }
    }
  }

  /** Updating past the head of a list updates its tail. */
  lemma ConsUpdate<T>(a: seq<T>, i: nat, x: T)
    requires 0 < i < |a|
    ensures [a[0]] + a[1..][i - 1 := x] == a[i := x]
  {
  }

  /** A key that reads as a value has an entry holding that value. */
  lemma {:induction false} GetFound<K(!new), V>(a: Assoc<K, V>, k: K)
    ensures Get(a, k).Some? ==> (k, Get(a, k).value) in a
  {
    if |a| > 0 && a[0].0 != k {
      GetFound(a[1..], k);
    }
  }

  /** Property deletion `delete o[k]`. */
  function Remove<K(==,!new), V>(a: Assoc<K, V>, k: K): (r: Assoc<K, V>)
    ensures KeySet(r) == KeySet(a) - {k}
    ensures k !in KeySet(a) ==> r == a
  {
    if |a| == 0 then []
    else if a[0].0 == k then Remove(a[1..], k)
    else [a[0]] + Remove(a[1..], k)
  }

  /** After `delete o[k]`, o[k] is undefined, every other key reads as
      before, the remaining entries keep their order, and no key occurs twice. */
  lemma {:induction false} RemoveSpec<K(!new), V>(a: Assoc<K, V>, k: K)
    ensures Get(Remove(a, k), k) == None
    ensures forall k' :: k' != k ==> Get(Remove(a, k), k') == Get(a, k')
    ensures Distinct(a) ==> Distinct(Remove(a, k))
    ensures forall i :: 0 <= i < |Remove(a, k)| ==> Remove(a, k)[i] in a
  {
    if |a| > 0 {
      RemoveSpec(a[1..], k);
      DistinctCons(a);
      var r := Remove(a, k);
      if a[0].0 != k {
        DistinctCons(r);
        assert r[1..] == Remove(a[1..], k);
      }
    }
  }

  /** In a list without repeated keys, deleting a present key closes the
      gap it leaves: the entries before and after keep their order. */
  lemma {:induction false} RemoveInPlace<K(!new), V>(a: Assoc<K, V>, k: K)
    ensures Distinct(a) ==> forall i :: 0 <= i < |a| && a[i].0 == k ==> Remove(a, k) == a[..i] + a[i+1..]
  {
    if |a| > 0 && Distinct(a) {
      DistinctCons(a);
      RemoveInPlace(a[1..], k);
      KeySetHasAll(a[1..]);
      forall i | 0 <= i < |a| && a[i].0 == k
        ensures Remove(a, k) == a[..i] + a[i+1..]
      {
        if i == 0 {
          assert a[1..] == a[..0] + a[1..];
        } else {
          assert a[1..][i - 1].0 == k;
          assert a[..i] + a[i+1..] == [a[0]] + (a[1..][..i-1] + a[1..][i..]);
        }
      }
    }
  }

  /** A non-empty list is distinct exactly when its head key is new to its distinct tail. */
  lemma DistinctCons<K(!new), V>(a: Assoc<K, V>)
    requires |a| > 0
    ensures Distinct(a) <==> Distinct(a[1..]) && a[0].0 !in KeySet(a[1..])
  {
    KeySetHasAll(a[1..]);
    if Distinct(a[1..]) && a[0].0 !in KeySet(a[1..]) {
      forall i, j | 0 <= i < j < |a|
        ensures a[i].0 != a[j].0
      {
        if i > 0 {
          assert a[i].0 == a[1..][i - 1].0 && a[j].0 == a[1..][j - 1].0;
        } else {
          assert a[j].0 == a[1..][j - 1].0;
        }
      }
    }
    if Distinct(a) {
      forall i, j | 0 <= i < j < |a[1..]|
        ensures a[1..][i].0 != a[1..][j].0
      {
        assert a[1..][i] == a[i + 1] && a[1..][j] == a[j + 1];
      }
    }
  }

  lemma {:induction false} KeySetHasAll<K(!new), V>(a: Assoc<K, V>)
    ensures forall i :: 0 <= i < |a| ==> a[i].0 in KeySet(a)
    ensures forall k :: k in KeySet(a) ==> exists i :: 0 <= i < |a| && a[i].0 == k
  {
    if |a| > 0 {
      KeySetHasAll(a[1..]);
      forall k | k in KeySet(a)
        ensures exists i :: 0 <= i < |a| && a[i].0 == k
      {
        if k != a[0].0 {
          var i :| 0 <= i < |a[1..]| && a[1..][i].0 == k;
          assert a[i + 1].0 == k;
        }
      }
    }
  }
}
