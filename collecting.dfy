/**
 * What a collecting visitor accumulates when the walker hands it a sequence of
 * nodes: each visit turns a node into a `(url, record)` pair and assigns it into
 * the ordered array; the first visit that throws stops the walk.
 */
module Collecting {
  import opened Wrappers
  import opened PhpArray
  import opened Repository

  /** The array after the walk, and whether every visit succeeded. */
  datatype Collected<V> = Collected(entries: Entries<V>, ok: bool)

  /** `step(a)` is the pair one visit of the node at `a` stores, or None when that visit throws. */
  type Step<V> = Address -> Option<(string, V)>

  function Collect<V>(step: Step<V>, acc: Entries<V>, items: seq<Address>): Collected<V>
    decreases |items|
  {
    if items == [] then Collected(acc, true)
    else match step(items[0])
      case None => Collected(acc, false)
      case Some(kv) => Collect(step, Assign(acc, kv.0, kv.1), items[1..])
  }

  /** The walk succeeds exactly when every visit does. */
  lemma {:induction false} CollectOk<V>(step: Step<V>, acc: Entries<V>, items: seq<Address>)
    ensures Collect(step, acc, items).ok <==> forall i :: 0 <= i < |items| ==> step(items[i]).Some?
    decreases |items|
  {
    if items != [] && step(items[0]).Some? {
      var kv := step(items[0]).value;
      CollectOk(step, Assign(acc, kv.0, kv.1), items[1..]);
      assert forall i :: 1 <= i < |items| ==> items[i] == items[1..][i - 1];
    }
  }

  /** One more visit at the end of the walk: how a visiting loop advances. */
  lemma {:induction false} CollectSnoc<V>(step: Step<V>, acc: Entries<V>, items: seq<Address>, x: Address)
    requires Collect(step, acc, items).ok
    ensures Collect(step, acc, items + [x]) ==
      match step(x)
      case None => Collected(Collect(step, acc, items).entries, false)
      case Some(kv) => Collected(Assign(Collect(step, acc, items).entries, kv.0, kv.1), true)
    decreases |items|
  {
    if items == [] {
      assert [x][1..] == [];
    } else {
      assert (items + [x])[1..] == items[1..] + [x];
      var kv := step(items[0]).value;
      CollectSnoc(step, Assign(acc, kv.0, kv.1), items[1..], x);
    }
  }

  /** Once a visit fails, the rest of the walk does not matter. */
  lemma {:induction false} CollectPrefixFails<V>(step: Step<V>, acc: Entries<V>, items: seq<Address>, n: nat)
    requires n <= |items| && !Collect(step, acc, items[..n]).ok
    ensures Collect(step, acc, items) == Collect(step, acc, items[..n])
    decreases n
  {
    if items != [] && n > 0 {
      assert items[..n][0] == items[0] && items[..n][1..] == items[1..][..n - 1];
      if step(items[0]).Some? {
        var kv := step(items[0]).value;
        CollectPrefixFails(step, Assign(acc, kv.0, kv.1), items[1..], n - 1);
      }
    }
  }

  /**
   * One step of a loop over `items`: when the first `k` visits led to
   * `before`, the visit of `items[k]` either extends the walk by its pair or,
   * failing, ends the whole walk with `before`.
   */
  lemma CollectAdvance<V>(step: Step<V>, acc: Entries<V>, items: seq<Address>, k: nat, before: Entries<V>)
    requires k < |items| && Collect(step, acc, items[..k]) == Collected(before, true)
    ensures step(items[k]).Some? ==>
      Collect(step, acc, items[..k + 1]) ==
        Collected(Assign(before, step(items[k]).value.0, step(items[k]).value.1), true)
    ensures step(items[k]).None? ==> Collect(step, acc, items) == Collected(before, false)
  {
    assert items[..k + 1] == items[..k] + [items[k]];
    CollectSnoc(step, acc, items[..k], items[k]);
    if step(items[k]).None? {
      CollectPrefixFails(step, acc, items, k + 1);
    }
  }

  /**
   * When every visit succeeds and the urls are pairwise distinct and new, the
   * array gains exactly one entry per visited node, in visit order.
   */
  lemma {:induction false} CollectDistinct<V>(step: Step<V>, acc: Entries<V>, items: seq<Address>)
    requires forall i :: 0 <= i < |items| ==> step(items[i]).Some?
    requires forall i :: 0 <= i < |items| ==> step(items[i]).value.0 !in Keys(acc)
    requires forall i, j :: 0 <= i < j < |items| ==> step(items[i]).value.0 != step(items[j]).value.0
    ensures Collect(step, acc, items) ==
      Collected(acc + seq(|items|, i requires 0 <= i < |items| => step(items[i]).value), true)
    decreases |items|
  {
    var tail := seq(|items|, i requires 0 <= i < |items| => step(items[i]).value);
    if items == [] {
      assert acc + tail == acc;
    } else {
      var kv := step(items[0]).value;
      var acc' := Assign(acc, kv.0, kv.1);
      assert acc' == acc + [kv];
      forall i | 0 <= i < |items[1..]| ensures step(items[1..][i]).value.0 !in Keys(acc') {
        assert items[1..][i] == items[i + 1];
        assert Keys(acc') == Keys(acc) + [kv.0];
      }
      CollectDistinct(step, acc', items[1..]);
      var tail' := seq(|items[1..]|, i requires 0 <= i < |items[1..]| => step(items[1..][i]).value);
      assert tail == [kv] + tail';
      assert acc' + tail' == acc + tail;
    }
  }

  /** Every entry of the result was in the initial array or was stored by the visit of some node. */
  lemma {:induction false} CollectOrigin<V>(step: Step<V>, acc: Entries<V>, items: seq<Address>, e: (string, V))
    requires e in Collect(step, acc, items).entries
    ensures e in acc || exists i :: 0 <= i < |items| && step(items[i]) == Some(e)
    decreases |items|
  {
    if items != [] && step(items[0]).Some? {
      var kv := step(items[0]).value;
      CollectOrigin(step, Assign(acc, kv.0, kv.1), items[1..], e);
      if e !in Assign(acc, kv.0, kv.1) {
        var i :| 0 <= i < |items[1..]| && step(items[1..][i]) == Some(e);
        assert items[1..][i] == items[i + 1];
      } else if e == kv {
        assert step(items[0]) == Some(e);
      }
    }
  }

  /** A walk keeps the keys of the array distinct. */
  lemma {:induction false} CollectDistinctKeys<V>(step: Step<V>, acc: Entries<V>, items: seq<Address>)
    requires DistinctKeys(acc)
    ensures DistinctKeys(Collect(step, acc, items).entries)
    decreases |items|
  {
    if items != [] && step(items[0]).Some? {
      var kv := step(items[0]).value;
      AssignDistinct(acc, kv.0, kv.1);
      CollectDistinctKeys(step, Assign(acc, kv.0, kv.1), items[1..]);
    }
  }
}
