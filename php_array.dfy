/**
 * An ordered PHP array with string keys, as the collectors use it:
 * `$a[$k] = $v` overwrites the value of an existing key in place and
 * appends a new key at the end.
 */
module PhpArray {
  import opened Wrappers

  type Entries<V> = seq<(string, V)>

  /** The keys, in array order. */
  function Keys<V>(e: Entries<V>): seq<string>
  {
    seq(|e|, i requires 0 <= i < |e| => e[i].0)
  }

  /** No key occurs twice (every PHP array satisfies this). */
  predicate DistinctKeys<V>(e: Entries<V>)
  {
    forall i, j :: 0 <= i < j < |e| ==> e[i].0 != e[j].0
  }

  /** `$e[$k]`: the value stored under `k`, if any. */
  function Get<V>(e: Entries<V>, k: string): (r: Option<V>)
    ensures r.Some? <==> k in Keys(e)
  {
    if e == [] then None
    else
      assert Keys(e) == [e[0].0] + Keys(e[1..]);
      if e[0].0 == k then Some(e[0].1)
      else Get(e[1..], k)
  }

  /** `$e[$k] = $v`. */
  function Assign<V>(e: Entries<V>, k: string, v: V): (r: Entries<V>)
    ensures k in Keys(e) ==> |r| == |e| && Keys(r) == Keys(e)
    ensures k in Keys(e) ==> forall i :: 0 <= i < |e| && e[i].0 != k ==> r[i] == e[i]
    ensures k !in Keys(e) ==> r == e + [(k, v)]
    ensures forall i :: 0 <= i < |r| ==> r[i] == (k, v) || r[i] in e
  {
    if k in Keys(e) then seq(|e|, i requires 0 <= i < |e| => if e[i].0 == k then (k, v) else e[i])
    else e + [(k, v)]
  }

  /** After `$e[$k] = $v`, reading `k` gives `v`. */
  lemma {:induction false} GetAssignSame<V>(e: Entries<V>, k: string, v: V)
    ensures Get(Assign(e, k, v), k) == Some(v)
  {
    var r := Assign(e, k, v);
    if k in Keys(e) {
      var i := FirstIndex(e, k);
      FirstIndexGet(r, k, i);
    } else {
      forall j | 0 <= j < |e| ensures r[j].0 != k { assert Keys(e)[j] == e[j].0; }
      FirstIndexGet(r, k, |e|);
    }
  }

  /** After `$e[$k] = $v`, every other key reads as before. */
  lemma {:induction false} GetAssignOther<V>(e: Entries<V>, k: string, v: V, k': string)
    requires k' != k
    ensures Get(Assign(e, k, v), k') == Get(e, k')
  {
    var r := Assign(e, k, v);
    if k' in Keys(e) {
      var i := FirstIndex(e, k');
      FirstIndexGet(e, k', i);
      assert r[i] == e[i];
      forall j | 0 <= j < i ensures r[j].0 != k' {
        assert r[j] == (k, v) || r[j] == e[j];
      }
      FirstIndexGet(r, k', i);
    } else {
      assert k' !in Keys(r) by {
        forall j | 0 <= j < |r| ensures r[j].0 != k' {
          if r[j] != (k, v) {
            var m :| 0 <= m < |e| && e[m] == r[j];
            assert Keys(e)[m] == e[m].0;
          }
        }
      }
    }
  }

  /** Assigning keeps the keys distinct. */
  lemma AssignDistinct<V>(e: Entries<V>, k: string, v: V)
    requires DistinctKeys(e)
    ensures DistinctKeys(Assign(e, k, v))
  {
    var r := Assign(e, k, v);
    if k !in Keys(e) {
      forall i | 0 <= i < |e| ensures e[i].0 != k { assert Keys(e)[i] == e[i].0; }
    } else {
      forall i, j | 0 <= i < j < |r| ensures r[i].0 != r[j].0 {
        assert Keys(r)[i] == Keys(e)[i] && Keys(r)[j] == Keys(e)[j];
      }
    }
  }

  /** The first index holding key `k`. */
  function FirstIndex<V>(e: Entries<V>, k: string): (i: nat)
    requires k in Keys(e)
    ensures i < |e| && e[i].0 == k && forall j :: 0 <= j < i ==> e[j].0 != k
  {
    if e[0].0 == k then 0
    else
      assert Keys(e) == [e[0].0] + Keys(e[1..]);
      1 + FirstIndex(e[1..], k)
  }

  lemma {:induction false} FirstIndexGet<V>(e: Entries<V>, k: string, i: nat)
    requires i < |e| && e[i].0 == k && forall j :: 0 <= j < i ==> e[j].0 != k
    ensures Get(e, k) == Some(e[i].1)
  {
    if i > 0 {
      FirstIndexGet(e[1..], k, i - 1);
    }
  }
}
