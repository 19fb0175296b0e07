/** A plain JavaScript object with string keys, as the scripts use one: its
    own properties in insertion order. Reading a property takes its value;
    assigning an existing property replaces the value where it stands, and
    assigning a new one appends it. Object spread followed by literal
    properties is a sequence of such assignments. */
module Records {
  import opened Wrappers

  /** Own properties in insertion order. */
  type Entries<V> = seq<(string, V)>

  /** No key occurs twice, as in any real object. */
  predicate Distinct<V>(r: Entries<V>) {
    forall i, j :: 0 <= i < j < |r| ==> r[i].0 != r[j].0
  }

  /** `Object.keys`. */
  function Keys<V>(r: Entries<V>): (ks: seq<string>)
    ensures |ks| == |r|
    ensures forall i :: 0 <= i < |r| ==> ks[i] == r[i].0
  {
    seq(|r|, i requires 0 <= i < |r| => r[i].0)
  }

  lemma KeysCons<V>(r: Entries<V>)
    requires |r| > 0
    ensures Keys(r) == [r[0].0] + Keys(r[1..])
  {
  }

  /** Reading a property: the value under the first entry with key `k`. */
  function Get<V>(r: Entries<V>, k: string): (v: Option<V>)
    ensures v.None? <==> k !in Keys(r)
  {
    if |r| == 0 then None
    else if r[0].0 == k then Some(r[0].1)
    else KeysCons(r); Get(r[1..], k)
  }

  /** A property read finds the entry with that key, and no earlier entry
      has it. */
  lemma {:induction false} GetAt<V>(r: Entries<V>, k: string) returns (i: nat)
    requires k in Keys(r)
    ensures i < |r| && r[i].0 == k && Get(r, k) == Some(r[i].1)
    ensures k !in Keys(r)[..i]
  {
    KeysCons(r);
    if r[0].0 == k {
      i := 0;
    } else {
      var j := GetAt(r[1..], k);
      i := j + 1;
      assert Keys(r)[..i] == [r[0].0] + Keys(r[1..])[..j];
    }
  }

  /** Assigning `r[k] = v`. */
  function Put<V>(r: Entries<V>, k: string, v: V): (r': Entries<V>)
    ensures k in Keys(r) ==> |r'| == |r|
    ensures k !in Keys(r) ==> r' == r + [(k, v)]
  {
    if |r| == 0 then [(k, v)]
    else if r[0].0 == k then [(k, v)] + r[1..]
    else KeysCons(r); [r[0]] + Put(r[1..], k, v)
  }

  /** The assignment is visible and every other property reads as before. */
  lemma {:induction false} PutGet<V>(r: Entries<V>, k: string, v: V)
    ensures Get(Put(r, k, v), k) == Some(v)
    ensures forall k' :: k' != k ==> Get(Put(r, k, v), k') == Get(r, k')
  {
    if |r| > 0 && r[0].0 != k {
      PutGet(r[1..], k, v);
      var r' := Put(r, k, v);
      assert r'[0] == r[0] && r'[1..] == Put(r[1..], k, v);
    }
  }

  /** The key order is unchanged, except that a new key goes last. */
  lemma {:induction false} PutKeys<V>(r: Entries<V>, k: string, v: V)
    ensures Keys(Put(r, k, v)) == if k in Keys(r) then Keys(r) else Keys(r) + [k]
  {
    var r' := Put(r, k, v);
    if |r| == 0 {
    } else if r[0].0 == k {
      KeysCons(r);
      KeysCons(r');
      assert r'[1..] == r[1..];
    } else {
      PutKeys(r[1..], k, v);
      KeysCons(r);
      KeysCons(r');
      assert r'[1..] == Put(r[1..], k, v);
    }
  }

  /** Keys stay distinct. */
  lemma PutDistinct<V>(r: Entries<V>, k: string, v: V)
    requires Distinct(r)
    ensures Distinct(Put(r, k, v))
  {
    var r' := Put(r, k, v);
    PutKeys(r, k, v);
    if k in Keys(r) {
      forall i, j | 0 <= i < j < |r'| ensures r'[i].0 != r'[j].0 {
        assert r'[i].0 == Keys(r')[i] == r[i].0;
        assert r'[j].0 == Keys(r')[j] == r[j].0;
      }
    } else {
      forall i, j | 0 <= i < j < |r'| ensures r'[i].0 != r'[j].0 {
        if j == |r| {
          assert r'[i].0 == Keys(r)[i];
        }
      }
    }
  }

  /** `Object.values`. */
  function Values<V>(r: Entries<V>): (vs: seq<V>)
    ensures |vs| == |r|
    ensures forall i :: 0 <= i < |r| ==> vs[i] == r[i].1
  {
    seq(|r|, i requires 0 <= i < |r| => r[i].1)
  }

  /** In an object with distinct keys, reading the key of entry `j` gives
      the value of entry `j`. */
  lemma GetDistinct<V>(r: Entries<V>, j: int)
    requires Distinct(r) && 0 <= j < |r|
    ensures Get(r, r[j].0) == Some(r[j].1)
  {
    assert Keys(r)[j] == r[j].0;
    var i := GetAt(r, r[j].0);
    SameKeySameEntry(r, i, j);
  }

  lemma SameKeySameEntry<V>(r: Entries<V>, i: int, j: int)
    requires Distinct(r) && 0 <= i < |r| && 0 <= j < |r| && r[i].0 == r[j].0
    ensures i == j
  {
  }
}
