/**
 * A JavaScript object used as a dictionary (`Record<string, V>`): its own
 * entries in insertion order, as `Object.entries` lists them, with keys
 * looked up by first match and updated the way an object spread
 * `{ ...m, [k]: v }` does.
 */
module Records {
  import opened Wrappers

  datatype Entry<V> = Entry(key: string, value: V)

  type Record<V> = seq<Entry<V>>

  /** `Object.keys(m)`. */
  function Keys<V>(m: Record<V>): seq<string> {
    seq(|m|, i requires 0 <= i < |m| => m[i].key)
  }

  predicate Distinct(ks: seq<string>) {
    forall i, j :: 0 <= i < j < |ks| ==> ks[i] != ks[j]
  }

  /** A JavaScript object never holds one key twice. */
  predicate WellFormed<V>(m: Record<V>) {
    Distinct(Keys(m))
  }

  /** `m[k]`, with `None` for `undefined`. */
  function Get<V>(m: Record<V>, k: string): (r: Option<V>)
    ensures r.Some? <==> k in Keys(m)
    ensures r.Some? ==> exists i :: 0 <= i < |m| && m[i] == Entry(k, r.value)
  {
    if m == [] then None
    else if m[0].key == k then
      assert Keys(m)[0] == k;
      Some(m[0].value)
    else
      assert Keys(m[1..]) == Keys(m)[1..];
      Get(m[1..], k)
  }

  /** `{ ...m, [k]: v }`: an existing key keeps its place, a new one is appended. */
  function Set<V>(m: Record<V>, k: string, v: V): (r: Record<V>)
    ensures k in Keys(m) ==> Keys(r) == Keys(m)
    ensures k !in Keys(m) ==> r == m + [Entry(k, v)]
  {
    if m == [] then [Entry(k, v)]
    else if m[0].key == k then
      assert Keys(m)[0] == k;
      assert Keys([Entry(k, v)] + m[1..]) == Keys(m);
      [Entry(k, v)] + m[1..]
    else
      assert [m[0]] + m[1..] == m;
      KeysCons(m[0], m[1..]);
      KeysCons(m[0], Set(m[1..], k, v));
      [m[0]] + Set(m[1..], k, v)
  }

  /** The keys of a record with one entry in front. */
  lemma KeysCons<V>(e: Entry<V>, m: Record<V>)
    ensures Keys([e] + m) == [e.key] + Keys(m)
  {
  }

  /** After `{ ...m, [k]: v }`, `k` holds `v`. */
  lemma {:induction false} GetSetSame<V>(m: Record<V>, k: string, v: V)
    ensures Get(Set(m, k, v), k) == Some(v)
  {
    if m != [] && m[0].key != k {
      GetSetSame(m[1..], k, v);
    }
  }

  /** After `{ ...m, [k]: v }`, every other key holds what it held before. */
  lemma {:induction false} GetSetOther<V>(m: Record<V>, k: string, v: V, j: string)
    requires j != k
    ensures Get(Set(m, k, v), j) == Get(m, j)
  {
    if m != [] && m[0].key != k {
      GetSetOther(m[1..], k, v, j);
    }
  }

  /** In a well-formed record, looking up an entry's key finds that entry. */
  lemma {:induction false} GetAt<V>(m: Record<V>, i: nat)
    requires WellFormed(m)
    requires i < |m|
    ensures Get(m, m[i].key) == Some(m[i].value)
  {
    if i > 0 {
      assert Keys(m)[0] != Keys(m)[i];
      assert Keys(m[1..]) == Keys(m)[1..];
      GetAt(m[1..], i - 1);
    }
  }

  /** Writing a key twice keeps only the second write. */
  lemma {:induction false} SetSet<V>(m: Record<V>, k: string, v: V, w: V)
    ensures Set(Set(m, k, v), k, w) == Set(m, k, w)
  {
    if m != [] && m[0].key != k {
      SetSet(m[1..], k, v, w);
    }
  }

  /** Writing back the value a key already has changes nothing. */
  lemma {:induction false} SetGet<V>(m: Record<V>, k: string, v: V)
    requires Get(m, k) == Some(v)
    ensures Set(m, k, v) == m
  {
    if m[0].key != k {
      SetGet(m[1..], k, v);
    }
  }

  /** An update never puts a key into the record twice. */
  lemma SetWellFormed<V>(m: Record<V>, k: string, v: V)
    requires WellFormed(m)
    ensures WellFormed(Set(m, k, v))
  {
    if k !in Keys(m) {
      assert Keys(Set(m, k, v)) == Keys(m) + [k];
    }
  }

  /** The keys of two records laid end to end. */
  lemma KeysAppend<V>(a: Record<V>, b: Record<V>)
    ensures Keys(a + b) == Keys(a) + Keys(b)
  {
  }
}
