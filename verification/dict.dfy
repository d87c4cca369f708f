/** A JavaScript object used as a dictionary: keys in first-insertion order,
    each key at most once, assignment overwriting in place. */
module Dict {
  import opened Wrappers

  type Dict<V> = seq<(string, V)>

  /** No key appears twice, as in a JavaScript object. */
  ghost predicate DistinctKeys<V>(d: Dict<V>)
  {
    forall i, j :: 0 <= i < j < |d| ==> d[i].0 != d[j].0
  }

  /** `Object.keys(d)` as a set. */
  function Keys<V>(d: Dict<V>): set<string>
  {
    set i | 0 <= i < |d| :: d[i].0
  }

  /** The keys of a dictionary with one more entry in front. */
  lemma KeysCons<V>(e: (string, V), d: Dict<V>)
    ensures Keys([e] + d) == {e.0} + Keys(d)
  {
    var r := [e] + d;
    forall k | k in Keys(r) ensures k in {e.0} + Keys(d) {
      var i :| 0 <= i < |r| && r[i].0 == k;
      if i > 0 { assert d[i - 1].0 == k; }
    }
    forall k | k in Keys(d) ensures k in Keys(r) {
      var i :| 0 <= i < |d| && d[i].0 == k;
      assert r[i + 1].0 == k;
    }
    assert r[0].0 == e.0;
  }

  /** `d[k]`, or `None` for `undefined`. */
  function Get<V>(d: Dict<V>, k: string): (r: Option<V>)
    ensures r.None? <==> k !in Keys(d)
  {
    if |d| == 0 then None
    else if d[0].0 == k then Some(d[0].1)
    else
      KeysCons(d[0], d[1..]);
      assert [d[0]] + d[1..] == d;
      Get(d[1..], k)
  }

  /** Looking a key up in a dictionary with one more entry in front. */
  lemma GetCons<V>(e: (string, V), d: Dict<V>, k: string)
    ensures Get([e] + d, k) == if e.0 == k then Some(e.1) else Get(d, k)
  {
    assert ([e] + d)[1..] == d;
  }

  /** One more entry in front keeps the keys distinct exactly when its key is new. */
  lemma DistinctCons<V>(e: (string, V), d: Dict<V>)
    ensures DistinctKeys([e] + d) <==> e.0 !in Keys(d) && DistinctKeys(d)
  {
    var r := [e] + d;
    if DistinctKeys(r) {
      forall i | 0 <= i < |d| ensures d[i].0 != e.0 {
        assert r[0] == e && r[i + 1] == d[i];
        assert r[0].0 != r[i + 1].0;
      }
      forall i, j | 0 <= i < j < |d| ensures d[i].0 != d[j].0 {
        assert r[i + 1] == d[i] && r[j + 1] == d[j];
      }
    }
    if e.0 !in Keys(d) && DistinctKeys(d) {
      forall i, j | 0 <= i < j < |r| ensures r[i].0 != r[j].0 {
        assert r[j] == d[j - 1];
        if i > 0 {
          assert r[i] == d[i - 1];
        } else {
          assert d[j - 1].0 in Keys(d);
        }
      }
    }
  }

  /** `d[k] = v`: overwrite the value of an existing key in place, or append a new key. */
  function Put<V>(d: Dict<V>, k: string, v: V): (r: Dict<V>)
    ensures Keys(r) == Keys(d) + {k}
    ensures Get(r, k) == Some(v)
    ensures forall k' :: k' != k ==> Get(r, k') == Get(d, k')
    ensures DistinctKeys(d) ==> DistinctKeys(r)
    ensures k in Keys(d) ==> |r| == |d|
  {
    if |d| == 0 then
      KeysCons((k, v), d);
      assert [(k, v)] + d == [(k, v)];
      [(k, v)]
    else
      var rest := d[1..];
      assert [d[0]] + rest == d;
      KeysCons(d[0], rest);
      if d[0].0 == k then
        var r := [(k, v)] + rest;
        PutHead(d[0], rest, v);
        r
      else
        var tail := Put(rest, k, v);
        PutTail(d[0], rest, tail, k, v);
        [d[0]] + tail
  }

  /** Overwriting the first entry. */
  lemma PutHead<V>(e: (string, V), d: Dict<V>, v: V)
    ensures Keys([(e.0, v)] + d) == Keys([e] + d)
    ensures Get([(e.0, v)] + d, e.0) == Some(v)
    ensures forall k' :: k' != e.0 ==> Get([(e.0, v)] + d, k') == Get([e] + d, k')
    ensures DistinctKeys([e] + d) ==> DistinctKeys([(e.0, v)] + d)
  {
    KeysCons(e, d);
    KeysCons((e.0, v), d);
    GetCons((e.0, v), d, e.0);
    forall k' | k' != e.0 ensures Get([(e.0, v)] + d, k') == Get([e] + d, k') {
      GetCons((e.0, v), d, k');
      GetCons(e, d, k');
    }
    DistinctCons(e, d);
    DistinctCons((e.0, v), d);
  }

  /** Putting behind a first entry with another key: the properties of the
      put on the tail, `rest`, carry over to the whole. */
  lemma PutTail<V>(e: (string, V), d: Dict<V>, rest: Dict<V>, k: string, v: V)
    requires e.0 != k
    requires Keys(rest) == Keys(d) + {k}
    requires Get(rest, k) == Some(v)
    requires forall k' :: k' != k ==> Get(rest, k') == Get(d, k')
    requires DistinctKeys(d) ==> DistinctKeys(rest)
    ensures Keys([e] + rest) == Keys([e] + d) + {k}
    ensures Get([e] + rest, k) == Some(v)
    ensures forall k' :: k' != k ==> Get([e] + rest, k') == Get([e] + d, k')
    ensures DistinctKeys([e] + d) ==> DistinctKeys([e] + rest)
  {
    KeysCons(e, d);
    KeysCons(e, rest);
    GetCons(e, rest, k);
    forall k' | k' != k ensures Get([e] + rest, k') == Get([e] + d, k') {
      GetCons(e, rest, k');
      GetCons(e, d, k');
    }
    DistinctCons(e, d);
    DistinctCons(e, rest);
  }

  /** The sum of the values of a dictionary of counts (`Object.values(d)` summed). */
  function SumValues(d: Dict<nat>): nat
  {
    if |d| == 0 then 0 else d[0].1 + SumValues(d[1..])
  }

  /** `if (!d[k]) d[k] = 0; d[k]++`. */
  function Increment(d: Dict<nat>, k: string): (r: Dict<nat>)
    ensures Keys(r) == Keys(d) + {k}
    ensures DistinctKeys(d) ==> DistinctKeys(r)
    ensures Get(r, k) == Some(if k in Keys(d) then Get(d, k).value + 1 else 1)
    ensures forall k' :: k' != k ==> Get(r, k') == Get(d, k')
  {
    var current := match Get(d, k) case Some(n) => n case None => 0;
    Put(d, k, current + 1)
  }

  /** Incrementing one count raises the total of all counts by exactly one. */
  lemma {:induction false} IncrementSum(d: Dict<nat>, k: string)
    ensures SumValues(Increment(d, k)) == SumValues(d) + 1
  {
    if |d| > 0 && d[0].0 != k {
      IncrementSum(d[1..], k);
      assert Increment(d, k)[1..] == Increment(d[1..], k);
    }
  }
}
