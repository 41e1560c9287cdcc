/**
 * Python dicts keyed by strings, as insertion-ordered association lists.
 * A Python dict never holds a key twice; DistinctKeys states that.
 */
module Dict {
  import opened Wrappers

  type Assoc<V> = seq<(string, V)>

  /** The set of keys of `ms`. */
  function Keys<V>(ms: Assoc<V>): (ks: set<string>)
    ensures forall i :: 0 <= i < |ms| ==> ms[i].0 in ks
  {
    if ms == [] then {} else {ms[0].0} + Keys(ms[1..])
  }

  /** A one-entry table has one key. */
  lemma KeysSingle<V>(key: string, v: V)
    ensures Keys([(key, v)]) == {key}
  {
    assert [(key, v)][1..] == [];
  }

  /** The keys of `ms` in insertion order, as `list(d)` lists them. */
  function KeySeq<V>(ms: Assoc<V>): (r: seq<string>)
    ensures |r| == |ms| && forall i :: 0 <= i < |ms| ==> r[i] == ms[i].0
  {
    if ms == [] then [] else [ms[0].0] + KeySeq(ms[1..])
  }

  lemma {:induction false} KeySeqAppend<V>(a: Assoc<V>, b: Assoc<V>)
    ensures KeySeq(a + b) == KeySeq(a) + KeySeq(b)
  {
    if a == [] {
      assert a + b == b;
    } else {
      assert (a + b)[1..] == a[1..] + b;
      KeySeqAppend(a[1..], b);
    }
  }

  /** The keys in order and the set of keys hold the same names. */
  lemma {:induction false} KeySeqKeys<V>(ms: Assoc<V>)
    ensures forall k :: k in KeySeq(ms) <==> k in Keys(ms)
  {
    if ms != [] {
      KeySeqKeys(ms[1..]);
    }
  }

  /** Every key occurs once. */
  predicate DistinctKeys<V>(ms: Assoc<V>) {
    forall i, j :: 0 <= i < j < |ms| ==> ms[i].0 != ms[j].0
  }

  /** A table whose keys in order are pairwise different has distinct keys. */
  lemma DistinctKeySeq<V>(ms: Assoc<V>, keys: seq<string>)
    requires keys == KeySeq(ms)
    requires forall i, j :: 0 <= i < j < |keys| ==> keys[i] != keys[j]
    ensures DistinctKeys(ms)
  { }

  /** `d.get(key)`: the value bound to `key`, None when absent. */
  function Get<V>(ms: Assoc<V>, key: string): (r: Option<V>)
    ensures r.Some? <==> key in Keys(ms)
    ensures r.Some? ==> (key, r.value) in ms
  {
    if ms == [] then None
    else if ms[0].0 == key then Some(ms[0].1)
    else Get(ms[1..], key)
  }

  /**
   * `d[key] = v`: an existing key keeps its position and takes the new value,
   * a new key is appended at the end.
   */
  function Put<V>(ms: Assoc<V>, key: string, v: V): (r: Assoc<V>)
    ensures Get(r, key) == Some(v)
    ensures forall k :: k != key ==> Get(r, k) == Get(ms, k)
    ensures Keys(r) == Keys(ms) + {key}
    ensures key in Keys(ms) ==> |r| == |ms|
    ensures key !in Keys(ms) ==> r == ms + [(key, v)]
  {
    if ms == [] then [(key, v)]
    else if ms[0].0 == key then [(key, v)] + ms[1..]
    else [ms[0]] + Put(ms[1..], key, v)
  }

  /** Assigning to a key the table does not hold appends the entry. */
  lemma PutNew<V>(ms: Assoc<V>, key: string, v: V)
    requires forall i :: 0 <= i < |ms| ==> ms[i].0 != key
    ensures Put(ms, key, v) == ms + [(key, v)]
  {
    NotInKeys(ms, key);
  }

  /** Assigning to the key of the first entry replaces its value in place. */
  lemma PutFirst<V>(ms: Assoc<V>, v: V)
    requires ms != []
    ensures Put(ms, ms[0].0, v) == [(ms[0].0, v)] + ms[1..]
  { }

  /** Assigning to the key of the second entry replaces its value in place. */
  lemma PutSecond<V>(ms: Assoc<V>, v: V)
    requires |ms| >= 2 && ms[0].0 != ms[1].0
    ensures Put(ms, ms[1].0, v) == [ms[0], (ms[1].0, v)] + ms[2..]
  {
    PutFirst(ms[1..], v);
    assert ms[1..][1..] == ms[2..];
  }

  /** Looking a key up in a dict finds the one entry that carries it. */
  lemma {:induction false} GetDistinct<V>(ms: Assoc<V>, i: nat)
    requires DistinctKeys(ms) && i < |ms|
    ensures Get(ms, ms[i].0) == Some(ms[i].1)
  {
    if i > 0 {
      assert ms[0].0 != ms[i].0;
      GetDistinct(ms[1..], i - 1);
    }
  }

  /** Assigning into a dict keeps it a dict. */
  lemma {:induction false} PutDistinct<V>(ms: Assoc<V>, key: string, v: V)
    requires DistinctKeys(ms)
    ensures DistinctKeys(Put(ms, key, v))
  {
    if ms != [] && ms[0].0 != key {
      PutDistinct(ms[1..], key, v);
      var r := Put(ms, key, v);
      forall j | 1 <= j < |r| ensures r[0].0 != r[j].0 {
        assert r[j].0 in Keys(r[1..]);
        assert Keys(r[1..]) == Keys(ms[1..]) + {key};
        if r[j].0 != key {
          var idx := KeysIndex(ms[1..], r[j].0);
          assert ms[idx + 1].0 == r[j].0;
        }
      }
    }
  }

  /** A key of `ms` sits at some index. */
  lemma {:induction false} KeysIndex<V>(ms: Assoc<V>, k: string) returns (i: nat)
    requires k in Keys(ms)
    ensures i < |ms| && ms[i].0 == k
  {
    if ms[0].0 == k {
      i := 0;
    } else {
      var j := KeysIndex(ms[1..], k);
      i := j + 1;
    }
  }

  /** The tail of a dict is a dict that does not hold the head's key. */
  lemma DistinctTail<V>(ms: Assoc<V>)
    requires DistinctKeys(ms) && ms != []
    ensures DistinctKeys(ms[1..]) && ms[0].0 !in Keys(ms[1..])
  {
    NotInKeys(ms[1..], ms[0].0);
  }

  /** A key that no entry carries is not a key. */
  lemma {:induction false} NotInKeys<V>(ms: Assoc<V>, k: string)
    requires forall i :: 0 <= i < |ms| ==> ms[i].0 != k
    ensures k !in Keys(ms)
  {
    if ms != [] {
      NotInKeys(ms[1..], k);
    }
  }

  /** Prepending a fresh key to a dict keeps it a dict. */
  lemma DistinctCons<V>(kv: (string, V), ms: Assoc<V>)
    requires DistinctKeys(ms) && kv.0 !in Keys(ms)
    ensures DistinctKeys([kv] + ms)
  {
    var r := [kv] + ms;
    forall j | 1 <= j < |r| ensures r[0].0 != r[j].0 {
      assert r[j] == ms[j - 1];
    }
  }

  /** Lookups in a concatenation: the first part wins. */
  lemma {:induction false} GetAppend<V>(a: Assoc<V>, b: Assoc<V>, key: string)
    ensures Keys(a + b) == Keys(a) + Keys(b)
    ensures Get(a + b, key) == if key in Keys(a) then Get(a, key) else Get(b, key)
  {
    if a == [] {
      assert a + b == b;
    } else {
      assert (a + b)[0] == a[0] && (a + b)[1..] == a[1..] + b;
      GetAppend(a[1..], b, key);
    }
  }

  /** Regrouping a concatenation of three association lists. */
  lemma AppendAssoc<V>(a: Assoc<V>, b: Assoc<V>, c: Assoc<V>)
    ensures a + b + c == a + (b + c)
  { }

  /** Appending two entries one at a time or together. */
  lemma AppendPair<V>(ms: Assoc<V>, x: (string, V), y: (string, V))
    ensures ms + [x] + [y] == ms + [x, y]
  { }

  /** Assigning two keys the table does not hold appends both entries, in order. */
  lemma PutTwoNew<V>(ms: Assoc<V>, k1: string, v1: V, k2: string, v2: V)
    requires k1 != k2
    requires forall i :: 0 <= i < |ms| ==> ms[i].0 != k1 && ms[i].0 != k2
    ensures Put(Put(ms, k1, v1), k2, v2) == ms + [(k1, v1), (k2, v2)]
  {
    PutNew(ms, k1, v1);
    var m1 := ms + [(k1, v1)];
    forall i | 0 <= i < |m1|
      ensures m1[i].0 != k2
    {
      if i < |ms| {
        assert m1[i] == ms[i];
      }
    }
    PutNew(m1, k2, v2);
    AppendPair(ms, (k1, v1), (k2, v2));
  }
}
