/** The model of Rust's `HashMap` used throughout: an association list with
    unique keys. `Insert` keeps `HashMap::insert`'s meaning (a present key gets
    the new value, a new key is added); iteration order is list order, which the
    source leaves unspecified. */
module AssocList {
  import opened Wrappers

  type AList<K, V> = seq<(K, V)>

  ghost predicate DistinctKeys<K, V>(l: AList<K, V>)
  {
    forall i, j :: 0 <= i < j < |l| ==> l[i].0 != l[j].0
  }

  ghost predicate HasKey<K, V>(l: AList<K, V>, k: K)
  {
    exists i :: 0 <= i < |l| && l[i].0 == k
  }

  lemma HasKeyCons<K, V>(x: (K, V), t: AList<K, V>, k: K)
    ensures HasKey([x] + t, k) <==> x.0 == k || HasKey(t, k)
  {
    var l := [x] + t;
    if HasKey(l, k) && x.0 != k {
      var i :| 0 <= i < |l| && l[i].0 == k;
      assert t[i - 1].0 == k;
    }
    if HasKey(t, k) {
      var i :| 0 <= i < |t| && t[i].0 == k;
      assert l[i + 1].0 == k;
    }
    assert l[0] == x;
  }

  /** `HashMap::get`. */
  function Lookup<K(==, !new), V>(l: AList<K, V>, k: K): (r: Option<V>)
    ensures r.None? <==> !HasKey(l, k)
    ensures r.Some? ==> exists i :: 0 <= i < |l| && l[i] == (k, r.value)
  {
    if |l| == 0 then None
    else if l[0].0 == k then Some(l[0].1)
    else
      var r := Lookup(l[1..], k);
      assert l == [l[0]] + l[1..];
      HasKeyCons(l[0], l[1..], k);
      assert r.Some? ==> exists i :: 0 <= i < |l| && l[i] == (k, r.value) by {
        if r.Some? {
          var i :| 0 <= i < |l[1..]| && l[1..][i] == (k, r.value);
          assert l[i + 1] == (k, r.value);
        }
      }
      r
  }

  /** With unique keys the entry holding `k` is the one `Lookup` finds. */
  lemma {:induction false} LookupDistinct<K(!new), V>(l: AList<K, V>, i: nat)
    requires DistinctKeys(l)
    requires i < |l|
    ensures Lookup(l, l[i].0) == Some(l[i].1)
  {
    if i > 0 {
      assert l[0].0 != l[i].0;
      assert l[1..][i - 1] == l[i];
      LookupDistinct(l[1..], i - 1);
    }
  }

  /** `HashMap::insert`. */
  function Insert<K(==, !new), V>(l: AList<K, V>, k: K, v: V): (r: AList<K, V>)
    ensures Lookup(r, k) == Some(v)
    ensures forall k' :: k' != k ==> Lookup(r, k') == Lookup(l, k')
  {
    if |l| == 0 then [(k, v)]
    else if l[0].0 == k then
      var r := [(k, v)] + l[1..];
      assert r[1..] == l[1..];
      r
    else
      var r := [l[0]] + Insert(l[1..], k, v);
      assert r[1..] == Insert(l[1..], k, v);
      r
  }

  lemma DistinctTail<K, V>(l: AList<K, V>)
    requires DistinctKeys(l) && |l| > 0
    ensures DistinctKeys(l[1..]) && !HasKey(l[1..], l[0].0)
  {
    forall i, j | 0 <= i < j < |l[1..]| ensures l[1..][i].0 != l[1..][j].0 {
      assert l[1..][i] == l[i + 1] && l[1..][j] == l[j + 1];
    }
    forall i | 0 <= i < |l[1..]| ensures l[1..][i].0 != l[0].0 {
      assert l[1..][i] == l[i + 1];
    }
  }

  lemma DistinctCons<K, V>(x: (K, V), t: AList<K, V>)
    requires DistinctKeys(t) && !HasKey(t, x.0)
    ensures DistinctKeys([x] + t)
  {
    var r := [x] + t;
    forall i, j | 0 <= i < j < |r| ensures r[i].0 != r[j].0 {
      assert r[j] == t[j - 1];
      if i > 0 { assert r[i] == t[i - 1]; }
    }
  }

  /** Inserting keeps the keys unique. */
  lemma {:induction false} InsertDistinct<K(!new), V>(l: AList<K, V>, k: K, v: V)
    requires DistinctKeys(l)
    ensures DistinctKeys(Insert(l, k, v))
  {
    if |l| > 0 {
      DistinctTail(l);
      if l[0].0 == k {
        DistinctCons((k, v), l[1..]);
      } else {
        var t := Insert(l[1..], k, v);
        InsertDistinct(l[1..], k, v);
        assert Lookup(t, l[0].0) == Lookup(l[1..], l[0].0);
        DistinctCons(l[0], t);
      }
    }
  }

  /** A key not yet present is added at the end. */
  lemma {:induction false} InsertFresh<K(!new), V>(l: AList<K, V>, k: K, v: V)
    requires !HasKey(l, k)
    ensures Insert(l, k, v) == l + [(k, v)]
  {
    if |l| > 0 {
      assert l == [l[0]] + l[1..];
      HasKeyCons(l[0], l[1..], k);
      InsertFresh(l[1..], k, v);
    }
  }

  /** The value of the last pair holding key `k`: what a run of inserts leaves behind. */
  function LastValue<K(==, !new), V>(pairs: seq<(K, V)>, k: K): (r: Option<V>)
    ensures r.None? <==> !HasKey(pairs, k)
    ensures r.Some? ==> exists i :: 0 <= i < |pairs| && pairs[i] == (k, r.value) &&
                                    forall j :: i < j < |pairs| ==> pairs[j].0 != k
  {
    if |pairs| == 0 then None
    else if pairs[|pairs| - 1].0 == k then Some(pairs[|pairs| - 1].1)
    else
      var init := pairs[..|pairs| - 1];
      var r := LastValue(init, k);
      assert HasKey(pairs, k) <==> HasKey(init, k) by {
        if HasKey(pairs, k) {
          var i :| 0 <= i < |pairs| && pairs[i].0 == k;
          assert i < |pairs| - 1 && init[i].0 == k;
        }
        if HasKey(init, k) {
          var i :| 0 <= i < |init| && init[i].0 == k;
          assert pairs[i].0 == k;
        }
      }
      assert r.Some? ==> exists i :: 0 <= i < |pairs| && pairs[i] == (k, r.value) &&
                                     forall j :: i < j < |pairs| ==> pairs[j].0 != k by {
        if r.Some? {
          var i :| 0 <= i < |init| && init[i] == (k, r.value) &&
                   forall j :: i < j < |init| ==> init[j].0 != k;
          assert pairs[i] == (k, r.value);
          forall j | i < j < |pairs| ensures pairs[j].0 != k {
            if j < |pairs| - 1 { assert pairs[j] == init[j]; }
          }
        }
      }
      r
  }

  lemma LastValueSnoc<K(!new), V>(pairs: seq<(K, V)>, k: K, v: V, key: K)
    ensures LastValue(pairs + [(k, v)], key) == if k == key then Some(v) else LastValue(pairs, key)
  {
    assert (pairs + [(k, v)])[..|pairs|] == pairs;
  }

  /** A map filled by inserting `pairs` in order. */
  function FromSeq<K(==, !new), V>(pairs: seq<(K, V)>): AList<K, V>
  {
    if |pairs| == 0 then []
    else
      var last := pairs[|pairs| - 1];
      Insert(FromSeq(pairs[..|pairs| - 1]), last.0, last.1)
  }

  /** Filling a map pair by pair leaves each key with its last value, and the keys
      unique. */
  lemma {:induction false} FromSeqLookup<K(!new), V>(pairs: seq<(K, V)>)
    ensures DistinctKeys(FromSeq(pairs))
    ensures forall k :: Lookup(FromSeq(pairs), k) == LastValue(pairs, k)
  {
    if |pairs| > 0 {
      var init := pairs[..|pairs| - 1];
      var last := pairs[|pairs| - 1];
      FromSeqLookup(init);
      InsertDistinct(FromSeq(init), last.0, last.1);
    }
  }

  /** A key is in the filled map iff some pair holds it, and its value comes from such a
      pair. */
  lemma FromSeqFind<K(!new), V>(pairs: seq<(K, V)>, k: K)
    ensures DistinctKeys(FromSeq(pairs))
    ensures Lookup(FromSeq(pairs), k).Some? <==> HasKey(pairs, k)
    ensures Lookup(FromSeq(pairs), k).Some? ==>
      exists i :: 0 <= i < |pairs| && pairs[i] == (k, Lookup(FromSeq(pairs), k).value)
  {
    FromSeqLookup(pairs);
  }

  /** One more pair is one more insert. */
  lemma FromSeqSnoc<K(!new), V>(pairs: seq<(K, V)>, k: K, v: V)
    ensures FromSeq(pairs + [(k, v)]) == Insert(FromSeq(pairs), k, v)
  {
    assert (pairs + [(k, v)])[..|pairs|] == pairs;
  }

  /** When the keys are already distinct, inserting them one by one keeps them in place. */
  lemma {:induction false} FromSeqDistinct<K(!new), V>(pairs: seq<(K, V)>)
    requires DistinctKeys(pairs)
    ensures FromSeq(pairs) == pairs
  {
    if |pairs| > 0 {
      var init := pairs[..|pairs| - 1];
      var last := pairs[|pairs| - 1];
      assert DistinctKeys(init) by {
        forall i, j | 0 <= i < j < |init| ensures init[i].0 != init[j].0 {
          assert init[i] == pairs[i] && init[j] == pairs[j];
        }
      }
      FromSeqDistinct(init);
      assert !HasKey(init, last.0) by {
        forall i | 0 <= i < |init| ensures init[i].0 != last.0 {
          assert init[i] == pairs[i];
        }
      }
      InsertFresh(init, last.0, last.1);
      assert init + [last] == pairs;
    }
  }
}
