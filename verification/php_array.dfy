/**
 The part of PHP's ordered array that `getVariantImages` relies on: an
 array is a sequence of (key, value) slots with distinct keys, assigning to
 an existing key overwrites that slot's value in place, assigning to a new
 key appends a slot, and `array_values` lists the values in slot order.
 */
module PhpArray {

  /** The keys of the slots, in slot order. */
  function KeysOf<K, V>(a: seq<(K, V)>): (ks: seq<K>)
    ensures |ks| == |a|
    ensures forall i :: 0 <= i < |a| ==> ks[i] == a[i].0
  {
    seq(|a|, i requires 0 <= i < |a| => a[i].0)
  }

  /** `array_values`: the values of the slots, in slot order. */
  function Values<K, V>(a: seq<(K, V)>): (vs: seq<V>)
    ensures |vs| == |a|
    ensures forall i :: 0 <= i < |a| ==> vs[i] == a[i].1
  {
    seq(|a|, i requires 0 <= i < |a| => a[i].1)
  }

  /** No key occupies two slots. */
  predicate DistinctKeys<K(==), V>(a: seq<(K, V)>) {
    forall i, j :: 0 <= i < j < |a| ==> a[i].0 != a[j].0
  }

  /** `$a[k] = v`: overwrite the slot holding `k` where it stands, or append a new slot. */
  function Assign<K(==), V>(a: seq<(K, V)>, k: K, v: V): (r: seq<(K, V)>)
    requires DistinctKeys(a)
    ensures DistinctKeys(r)
    ensures k in KeysOf(a) ==> |r| == |a|
    ensures k !in KeysOf(a) ==> r == a + [(k, v)]
    ensures forall i :: 0 <= i < |a| ==> r[i] == (if a[i].0 == k then (k, v) else a[i])
  {
    if k in KeysOf(a) then
      seq(|a|, i requires 0 <= i < |a| => if a[i].0 == k then (k, v) else a[i])
    else
      a + [(k, v)]
  }

  /** The distinct keys of `ks`, each where it first occurs. */
  function FirstOccurrences<K(==)>(ks: seq<K>): (d: seq<K>)
    ensures forall i :: 0 <= i < |d| ==> d[i] in ks
    ensures forall i :: 0 <= i < |ks| ==> ks[i] in d
    ensures forall i, j :: 0 <= i < j < |d| ==> d[i] != d[j]
  {
    if |ks| == 0 then []
    else
      var d := FirstOccurrences(ks[..|ks| - 1]);
      assert ks == ks[..|ks| - 1] + [ks[|ks| - 1]];
      if ks[|ks| - 1] in d then d else d + [ks[|ks| - 1]]
  }

  /**
   The order of the distinct keys is the order of their first occurrences:
   when `ks[i]` and `ks[j]` are first occurrences and `i < j`, `ks[i]`
   stands before `ks[j]`.
   */
  lemma {:induction false} FirstOccurrencesOrder<K>(ks: seq<K>, i: nat, j: nat)
    requires i < j < |ks|
    requires ks[i] !in ks[..i] && ks[j] !in ks[..j]
    ensures exists p, q :: 0 <= p < q < |FirstOccurrences(ks)| &&
              FirstOccurrences(ks)[p] == ks[i] && FirstOccurrences(ks)[q] == ks[j]
  {
    var n := |ks| - 1;
    var init := ks[..n];
    var d := FirstOccurrences(init);
    assert ks == init + [ks[n]];
    if j < n {
      assert init[i] == ks[i] && init[j] == ks[j];
      assert init[..i] == ks[..i] && init[..j] == ks[..j];
      FirstOccurrencesOrder(init, i, j);
      var p, q :| 0 <= p < q < |d| && d[p] == ks[i] && d[q] == ks[j];
      assert FirstOccurrences(ks)[p] == ks[i] && FirstOccurrences(ks)[q] == ks[j];
    } else {
      assert init == ks[..j];
      assert init[i] == ks[i];
      assert ks[i] in d;
      var p :| 0 <= p < |d| && d[p] == ks[i];
      assert ks[j] !in d;
      assert FirstOccurrences(ks) == d + [ks[j]];
      assert FirstOccurrences(ks)[p] == ks[i] && FirstOccurrences(ks)[|d|] == ks[j];
    }
  }

  /** The value of the last slot of `pairs` whose key is `k`. */
  function LastValue<K(==), V>(pairs: seq<(K, V)>, k: K): V
    requires k in KeysOf(pairs)
  {
    var last := pairs[|pairs| - 1];
    if last.0 == k then last.1
    else
      assert KeysOf(pairs) == KeysOf(pairs[..|pairs| - 1]) + [last.0];
      LastValue(pairs[..|pairs| - 1], k)
  }

  /** A sequence of assignments `$a[k] = v`, in order, starting from an empty array. */
  function AssignAll<K(==), V>(pairs: seq<(K, V)>): (r: seq<(K, V)>)
    ensures DistinctKeys(r)
    ensures |r| <= |pairs|
  {
    if |pairs| == 0 then []
    else
      var last := pairs[|pairs| - 1];
      Assign(AssignAll(pairs[..|pairs| - 1]), last.0, last.1)
  }

  /** Assigning moves no key: an existing key keeps its slot, a new key goes last. */
  lemma AssignKeys<K, V>(a: seq<(K, V)>, k: K, v: V)
    requires DistinctKeys(a)
    ensures KeysOf(Assign(a, k, v)) == if k in KeysOf(a) then KeysOf(a) else KeysOf(a) + [k]
  {
    var r := Assign(a, k, v);
    if k in KeysOf(a) {
      assert forall i :: 0 <= i < |a| ==> KeysOf(r)[i] == KeysOf(a)[i];
    } else {
      assert KeysOf(r) == KeysOf(a) + [k];
    }
  }

  /** After a run of assignments the keys sit in the order they were FIRST assigned. */
  lemma {:induction false} AssignAllKeys<K, V>(pairs: seq<(K, V)>)
    ensures KeysOf(AssignAll(pairs)) == FirstOccurrences(KeysOf(pairs))
  {
    if |pairs| > 0 {
      var init := pairs[..|pairs| - 1];
      var last := pairs[|pairs| - 1];
      var ks := KeysOf(pairs);
      AssignAllKeys(init);
      var prev := AssignAll(init);
      AssignKeys(prev, last.0, last.1);
      assert ks[..|ks| - 1] == KeysOf(init);
      assert ks[|ks| - 1] == last.0;
      var d := FirstOccurrences(KeysOf(init));
      assert KeysOf(prev) == d;
      assert FirstOccurrences(ks) == if last.0 in d then d else d + [last.0];
      assert AssignAll(pairs) == Assign(prev, last.0, last.1);
    }
  }

  /** Every slot of `r` holds a key assigned in `pairs`, with the value last assigned to it. */
  ghost predicate HoldsLastValues<K, V>(r: seq<(K, V)>, pairs: seq<(K, V)>) {
    forall i :: 0 <= i < |r| ==> r[i].0 in KeysOf(pairs) && r[i].1 == LastValue(pairs, r[i].0)
  }

  /** The last assignment to a key is the newest one if it names that key, and an older one otherwise. */
  lemma LastValueSnoc<K, V>(init: seq<(K, V)>, last: (K, V), k: K)
    requires k in KeysOf(init) || k == last.0
    ensures k in KeysOf(init + [last])
    ensures LastValue(init + [last], k) == if k == last.0 then last.1 else LastValue(init, k)
  {
    var pairs := init + [last];
    assert pairs[..|pairs| - 1] == init;
    assert KeysOf(pairs) == KeysOf(init) + [last.0];
  }

  /** One more assignment keeps every slot holding its key's last-assigned value. */
  lemma AssignHoldsLastValues<K, V>(prev: seq<(K, V)>, init: seq<(K, V)>, last: (K, V))
    requires DistinctKeys(prev) && HoldsLastValues(prev, init)
    ensures HoldsLastValues(Assign(prev, last.0, last.1), init + [last])
  {
    var r := Assign(prev, last.0, last.1);
    forall i | 0 <= i < |r|
      ensures r[i].0 in KeysOf(init + [last]) && r[i].1 == LastValue(init + [last], r[i].0)
    {
      if i < |prev| && prev[i].0 != last.0 {
        assert r[i] == prev[i];
        LastValueSnoc(init, last, prev[i].0);
      } else {
        assert r[i] == last;
        LastValueSnoc(init, last, last.0);
      }
    }
  }

  /** After a run of assignments each slot holds the value LAST assigned to its key. */
  lemma {:induction false} AssignAllValues<K, V>(pairs: seq<(K, V)>)
    ensures forall i :: 0 <= i < |AssignAll(pairs)| ==>
              AssignAll(pairs)[i].0 in KeysOf(pairs) &&
              AssignAll(pairs)[i].1 == LastValue(pairs, AssignAll(pairs)[i].0)
  {
    if |pairs| > 0 {
      var init := pairs[..|pairs| - 1];
      var last := pairs[|pairs| - 1];
      AssignAllValues(init);
      assert pairs == init + [last];
      AssignHoldsLastValues(AssignAll(init), init, last);
    }
  }

  /**
   The reference reading of `array_values` after a run of assignments: one
   value per distinct key, keys in first-assignment order, each with its
   last-assigned value.
   */
  function ValuesByFirstKey<K(==), V>(pairs: seq<(K, V)>): (vs: seq<V>)
  {
    var order := FirstOccurrences(KeysOf(pairs));
    seq(|order|, i requires 0 <= i < |order| => LastValue(pairs, order[i]))
  }

  /** `array_values` after a run of assignments agrees with the reference reading. */
  lemma AssignAllValuesByFirstKey<K, V>(pairs: seq<(K, V)>)
    ensures Values(AssignAll(pairs)) == ValuesByFirstKey(pairs)
  {
    AssignAllKeys(pairs);
    AssignAllValues(pairs);
    var r := AssignAll(pairs);
    var order := FirstOccurrences(KeysOf(pairs));
    assert |order| == |r|;
    forall i | 0 <= i < |r|
      ensures Values(r)[i] == ValuesByFirstKey(pairs)[i]
    {
      assert order[i] == KeysOf(r)[i] == r[i].0;
    }
  }
}
