/** A plain JavaScript object used as a dictionary (`Record<string, V>`):
    string keys kept in insertion order, one value per key. `Object.entries`
    lists the pairs in that order. */
module JsRecord {
  import opened Wrappers

  type Record<V> = seq<(string, V)>

  /** `Object.keys(r)`. */
  function Keys<V>(r: Record<V>): (ks: seq<string>)
    ensures |ks| == |r|
  {
    seq(|r|, i requires 0 <= i < |r| => r[i].0)
  }

  lemma KeysCons<V>(r: Record<V>)
    requires r != []
    ensures Keys(r) == [r[0].0] + Keys(r[1..])
  {
  }

  /** No key appears twice: every record built by `Put` from `[]` has this shape. */
  predicate DistinctKeys<V>(r: Record<V>) {
    forall i, j :: 0 <= i < j < |r| ==> r[i].0 != r[j].0
  }

  /** `r[k]`, `None` standing for `undefined`. */
  function Get<V>(r: Record<V>, k: string): Option<V> {
    if r == [] then None
    else if r[0].0 == k then Some(r[0].1)
    else Get(r[1..], k)
  }

  /** `r[k] = v`: an existing key keeps its place and takes the new value,
      a new key goes to the end. */
  function Put<V>(r: Record<V>, k: string, v: V): Record<V> {
    if r == [] then [(k, v)]
    else if r[0].0 == k then [(k, v)] + r[1..]
    else [r[0]] + Put(r[1..], k, v)
  }

  /** `r[k]` is `undefined` exactly when `k` is not one of the keys. */
  lemma {:induction false} GetNone<V>(r: Record<V>, k: string)
    ensures Get(r, k).None? <==> k !in Keys(r)
  {
    if r != [] {
      KeysCons(r);
      GetNone(r[1..], k);
    }
  }

  /** A value `r[k]` finds is stored under `k`. */
  lemma {:induction false} GetFound<V>(r: Record<V>, k: string)
    requires Get(r, k).Some?
    ensures exists i :: 0 <= i < |r| && r[i] == (k, Get(r, k).value)
  {
    if r[0].0 != k {
      GetFound(r[1..], k);
      var i :| 0 <= i < |r[1..]| && r[1..][i] == (k, Get(r, k).value);
      assert r[i + 1] == (k, Get(r, k).value);
    }
  }

  /** After `r[k] = v`, `k` reads back `v` and every other key reads what it read before. */
  lemma {:induction false} GetPut<V>(r: Record<V>, k: string, v: V, x: string)
    ensures Get(Put(r, k, v), x) == if x == k then Some(v) else Get(r, x)
  {
    if r != [] && r[0].0 != k {
      GetPut(r[1..], k, v, x);
    }
  }

  /** `Object.keys` after `r[k] = v`: unchanged for a known key, `k` appended for a new one. */
  lemma {:induction false} PutKeys<V>(r: Record<V>, k: string, v: V)
    ensures Keys(Put(r, k, v)) == if k in Keys(r) then Keys(r) else Keys(r) + [k]
  {
    if r == [] {
      assert Keys(Put(r, k, v)) == [k];
    } else {
      KeysCons(r);
      KeysCons(Put(r, k, v));
      if r[0].0 != k {
        PutKeys(r[1..], k, v);
        assert Put(r, k, v)[1..] == Put(r[1..], k, v);
      } else {
        assert Put(r, k, v)[1..] == r[1..];
      }
    }
  }

  /** `Put` never introduces a second copy of a key. */
  lemma PutKeepsDistinct<V>(r: Record<V>, k: string, v: V)
    requires DistinctKeys(r)
    ensures DistinctKeys(Put(r, k, v))
  {
    var r' := Put(r, k, v);
    PutKeys(r, k, v);
    forall i, j | 0 <= i < j < |r'| ensures r'[i].0 != r'[j].0 {
      assert Keys(r')[i] == r'[i].0 && Keys(r')[j] == r'[j].0;
      assert Keys(r)[i] == r[i].0;
      if j < |r| {
        assert Keys(r)[j] == r[j].0;
      }
    }
  }

  /** In a record without repeated keys, the value stored at position `i` is what `Get` finds. */
  lemma {:induction false} GetAt<V>(r: Record<V>, i: nat)
    requires DistinctKeys(r) && i < |r|
    ensures Get(r, r[i].0) == Some(r[i].1)
  {
    if i > 0 {
      GetAt(r[1..], i - 1);
    }
  }

  /** Every entry after `r[k] = v` is either the new pair or one of the old entries. */
  lemma {:induction false} PutEntries<V>(r: Record<V>, k: string, v: V)
    ensures forall i :: 0 <= i < |Put(r, k, v)| ==> Put(r, k, v)[i] == (k, v) || Put(r, k, v)[i] in r
  {
    if r != [] && r[0].0 != k {
      PutEntries(r[1..], k, v);
      var rest := Put(r[1..], k, v);
      assert Put(r, k, v) == [r[0]] + rest;
      forall i | 0 < i < |Put(r, k, v)| ensures Put(r, k, v)[i] == (k, v) || Put(r, k, v)[i] in r {
        assert Put(r, k, v)[i] == rest[i - 1];
        if rest[i - 1] in r[1..] {
          var j :| 0 <= j < |r[1..]| && r[1..][j] == rest[i - 1];
          assert r[j + 1] == rest[i - 1];
        }
      }
    } else if r != [] {
      forall i | 0 < i < |Put(r, k, v)| ensures Put(r, k, v)[i] in r {
        assert Put(r, k, v)[i] == r[i];
      }
    }
  }
}
