/** A JavaScript object used as a dictionary from strings to strings (`Record<string, string>`):
    its own properties in insertion order, each key at most once. */
module Records {
  import opened Wrappers

  type Record = seq<(string, string)>

  /** The keys, in the order `for...in` visits them. */
  function Keys(r: Record): (ks: seq<string>)
    ensures |ks| == |r| && forall i :: 0 <= i < |r| ==> ks[i] == r[i].0
  {
    if r == [] then [] else [r[0].0] + Keys(r[1..])
  }

  predicate DistinctKeys(r: Record) {
    forall i, j :: 0 <= i < j < |r| ==> r[i].0 != r[j].0
  }

  /** `r[k]`, or `None` for `undefined`. */
  function Get(r: Record, k: string): (v: Option<string>)
    ensures v.Some? <==> k in Keys(r)
    ensures v.Some? ==> (k, v.value) in r
  {
    if r == [] then None else if r[0].0 == k then Some(r[0].1) else Get(r[1..], k)
  }

  /** With distinct keys, `Get` finds the value an entry holds. */
  lemma {:induction false} GetEntry(r: Record, i: nat)
    requires DistinctKeys(r) && i < |r|
    ensures Get(r, r[i].0) == Some(r[i].1)
  {
    if i > 0 {
      assert DistinctKeys(r[1..]);
      GetEntry(r[1..], i - 1);
    }
  }

  /** `{ ...r, [k]: v }` and `r[k] = v`: an existing key keeps its place and takes the new
      value; a new key goes last. */
  function Put(r: Record, k: string, v: string): (r': Record)
    ensures Keys(r') == if k in Keys(r) then Keys(r) else Keys(r) + [k]
  {
    if r == [] then [(k, v)]
    else if r[0].0 == k then [(k, v)] + r[1..]
    else [r[0]] + Put(r[1..], k, v)
  }

  lemma {:induction false} PutGetSame(r: Record, k: string, v: string)
    ensures Get(Put(r, k, v), k) == Some(v)
  {
    if r != [] && r[0].0 != k {
      PutGetSame(r[1..], k, v);
      assert Put(r, k, v)[1..] == Put(r[1..], k, v);
    }
  }

  lemma {:induction false} PutGetOther(r: Record, k: string, v: string, k': string)
    requires k' != k
    ensures Get(Put(r, k, v), k') == Get(r, k')
  {
    if r != [] && r[0].0 != k {
      PutGetOther(r[1..], k, v, k');
      assert Put(r, k, v)[1..] == Put(r[1..], k, v);
    }
  }

  /** After `Put`, the key reads the new value and every other key reads what it read before. */
  lemma PutGet(r: Record, k: string, v: string, k': string)
    ensures Get(Put(r, k, v), k) == Some(v)
    ensures k' != k ==> Get(Put(r, k, v), k') == Get(r, k')
  {
    PutGetSame(r, k, v);
    if k' != k {
      PutGetOther(r, k, v, k');
    }
  }

  /** A key not yet present is appended. */
  lemma {:induction false} PutNew(r: Record, k: string, v: string)
    requires forall i :: 0 <= i < |r| ==> r[i].0 != k
    ensures Put(r, k, v) == r + [(k, v)]
  {
    if r != [] {
      PutNew(r[1..], k, v);
      assert r == [r[0]] + r[1..];
    }
  }

  /** `Put` keeps the keys distinct. */
  lemma PutDistinct(r: Record, k: string, v: string)
    requires DistinctKeys(r)
    ensures DistinctKeys(Put(r, k, v))
  {
    var r' := Put(r, k, v);
    forall i, j | 0 <= i < j < |r'| ensures r'[i].0 != r'[j].0 {
      assert Keys(r')[i] == r'[i].0 && Keys(r')[j] == r'[j].0;
      if j < |r| {
        assert Keys(r)[i] == r[i].0 && Keys(r)[j] == r[j].0;
      } else {
        assert r'[j].0 == k && k !in Keys(r);
        assert Keys(r)[i] == r'[i].0;
      }
    }
  }
}
