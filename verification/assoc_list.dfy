/** Insertion-ordered key/value tables: the model of a JavaScript object used as a
    dictionary and of a Python `dict`. Assigning to a key that is already present
    replaces its value and keeps its position; a new key goes to the end. */
module AssocList {
  import opened Wrappers

  /** Keys are strings, as for JavaScript object properties and the dictionaries modelled here. */
  type AssocList<V> = seq<(string, V)>

  /** The keys in table order. */
  function Keys<V>(l: AssocList<V>): (ks: seq<string>)
    ensures |ks| == |l|
    ensures forall i :: 0 <= i < |l| ==> ks[i] == l[i].0
  {
    if |l| == 0 then [] else [l[0].0] + Keys(l[1..])
  }

  predicate Distinct<T(==)>(s: seq<T>)
  {
    forall i, j :: 0 <= i < j < |s| ==> s[i] != s[j]
  }

  /** `obj[k]`: the value stored under `k`, or `None` when `k` is absent. */
  function Get<V>(l: AssocList<V>, k: string): (r: Option<V>)
    ensures r.None? <==> k !in Keys(l)
  {
    if |l| == 0 then None
    else if l[0].0 == k then Some(l[0].1)
    else
      var r := Get(l[1..], k);
      assert Keys(l) == [l[0].0] + Keys(l[1..]);
      r
  }

  /** `obj[k] = v`. */
  function Assign<V>(l: AssocList<V>, k: string, v: V): (r: AssocList<V>)
    ensures |r| == |l| || |r| == |l| + 1
  {
    if |l| == 0 then [(k, v)]
    else if l[0].0 == k then [(k, v)] + l[1..]
    else [l[0]] + Assign(l[1..], k, v)
  }

  /** After `obj[k] = v`, `k` reads `v` and every other key reads what it read before. */
  lemma {:induction false} AssignGet<V>(l: AssocList<V>, k: string, v: V, k': string)
    ensures Get(Assign(l, k, v), k') == if k' == k then Some(v) else Get(l, k')
    decreases |l|
  {
    if |l| > 0 && l[0].0 != k {
      var r := Assign(l, k, v);
      assert r[0] == l[0] && r[1..] == Assign(l[1..], k, v);
      AssignGet(l[1..], k, v, k');
    } else if |l| > 0 {
      var r := Assign(l, k, v);
      assert r[1..] == l[1..];
    }
  }

  /** Assigning to a present key keeps every key in place; a new key is appended. */
  lemma {:induction false} AssignKeys<V>(l: AssocList<V>, k: string, v: V)
    ensures k in Keys(l) ==> Keys(Assign(l, k, v)) == Keys(l)
    ensures k !in Keys(l) ==> Keys(Assign(l, k, v)) == Keys(l) + [k]
    decreases |l|
  {
    if |l| > 0 {
      var r := Assign(l, k, v);
      assert Keys(l) == [l[0].0] + Keys(l[1..]);
      assert Keys(r) == [r[0].0] + Keys(r[1..]);
      if l[0].0 != k {
        assert r[1..] == Assign(l[1..], k, v);
        AssignKeys(l[1..], k, v);
      } else {
        assert r[1..] == l[1..];
      }
    }
  }

  /** The table obtained by assigning `pairs` one after the other to an empty table
      (the left fold of `Assign`). */
  function Build<V>(pairs: seq<(string, V)>): AssocList<V>
  {
    if |pairs| == 0 then [] else Assign(Build(pairs[..|pairs| - 1]), pairs[|pairs| - 1].0, pairs[|pairs| - 1].1)
  }

  /** Index `i` holds the last assignment to key `k` in `pairs`. */
  predicate IsLastFor<V>(pairs: seq<(string, V)>, k: string, i: int)
  {
    0 <= i < |pairs| && pairs[i].0 == k && forall j :: i < j < |pairs| ==> pairs[j].0 != k
  }

  /** The keys of `ks` in order of first appearance, without repetitions. */
  function FirstOccurrences(ks: seq<string>): (r: seq<string>)
  {
    if |ks| == 0 then []
    else
      var r := FirstOccurrences(ks[..|ks| - 1]);
      if ks[|ks| - 1] in r then r else r + [ks[|ks| - 1]]
  }

  lemma {:induction false} FirstOccurrencesMembers(ks: seq<string>)
    ensures forall k :: k in FirstOccurrences(ks) <==> k in ks
    ensures Distinct(FirstOccurrences(ks))
  {
    if |ks| > 0 {
      FirstOccurrencesMembers(ks[..|ks| - 1]);
      assert ks == ks[..|ks| - 1] + [ks[|ks| - 1]];
    }
  }

  /** A key reads nothing from a built table exactly when it was never assigned. */
  lemma {:induction false} BuildAbsent<V>(pairs: seq<(string, V)>, k: string)
    ensures Get(Build(pairs), k).None? <==> forall i :: 0 <= i < |pairs| ==> pairs[i].0 != k
  {
    if |pairs| > 0 {
      var n := |pairs| - 1;
      var init := pairs[..n];
      assert Build(pairs) == Assign(Build(init), pairs[n].0, pairs[n].1);
      BuildAbsent(init, k);
      AssignGet(Build(init), pairs[n].0, pairs[n].1, k);
      if pairs[n].0 != k {
        assert forall i :: 0 <= i < n ==> init[i] == pairs[i];
      }
    }
  }

  /** Building a table keeps the most recent value for every key: last write wins. */
  lemma {:induction false} BuildLastWriteWins<V>(pairs: seq<(string, V)>, k: string, i: int)
    requires IsLastFor(pairs, k, i)
    ensures Get(Build(pairs), k) == Some(pairs[i].1)
  {
    var n := |pairs| - 1;
    var init, kn, vn := pairs[..n], pairs[n].0, pairs[n].1;
    var before := Build(init);
    assert Build(pairs) == Assign(before, kn, vn);
    AssignGet(before, kn, vn, k);
    if i == n {
      assert kn == k;
    } else {
      assert kn != k;
      assert IsLastFor(init, k, i) by {
        assert forall j :: i < j < n ==> init[j] == pairs[j];
      }
      BuildLastWriteWins(init, k, i);
      assert init[i] == pairs[i];
    }
  }

  /** The keys of a built table are the assigned keys, each once, in order of first assignment. */
  lemma {:induction false} BuildKeys<V>(pairs: seq<(string, V)>)
    ensures Keys(Build(pairs)) == FirstOccurrences(Keys(pairs))
    ensures Distinct(Keys(Build(pairs)))
  {
    if |pairs| > 0 {
      var n := |pairs| - 1;
      var init := pairs[..n];
      BuildKeys(init);
      assert Keys(pairs)[..n] == Keys(init);
      AssignKeys(Build(init), pairs[n].0, pairs[n].1);
    }
    FirstOccurrencesMembers(Keys(pairs));
  }
}
