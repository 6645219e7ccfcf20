/** The `counts[key] = counts.get(key, 0) + 1` loop that several scripts use
    to summarise a table, stated as a function over the sequence of keys
    scanned, with the facts every such summary relies on: the keys are the
    values seen, each count is the number of occurrences, and the counts add
    up to the number of rows scanned. */
module Tally {

  /** One step of the loop: `counts[k] = counts.get(k, 0) + 1`. */
  function Bump<K>(counts: map<K, nat>, k: K): (r: map<K, nat>)
    ensures r.Keys == counts.Keys + {k}
    ensures r[k] == (if k in counts then counts[k] else 0) + 1
    ensures forall j :: j in counts && j != k ==> r[j] == counts[j]
  {
    counts[k := (if k in counts then counts[k] else 0) + 1]
  }

  /** The dictionary the loop holds after scanning `keys` in order. */
  ghost function Counts<K>(keys: seq<K>): map<K, nat>
    decreases |keys|
  {
    if keys == [] then map[] else Bump(Counts(keys[..|keys| - 1]), keys[|keys| - 1])
  }

  /** Scanning one more key bumps that key's count. */
  lemma CountsStep<K>(keys: seq<K>, i: nat)
    requires i < |keys|
    ensures Counts(keys[..i + 1]) == Bump(Counts(keys[..i]), keys[i])
  {
    assert keys[..i + 1][..i] == keys[..i];
  }

  /** Sum of the counts in a dictionary. */
  ghost function SumValues<K>(m: map<K, nat>): nat {
    SumOver(m, m.Keys)
  }

  /** Sum of the counts of the keys in `keys`. */
  ghost function SumOver<K>(m: map<K, nat>, keys: set<K>): nat
    requires keys <= m.Keys
    decreases keys
  {
    if keys == {} then 0
    else
      var k :| k in keys;
      m[k] + SumOver(m, keys - {k})
  }

  /** The sum may be taken by removing any key first. */
  lemma {:induction false} SumOverRemove<K>(m: map<K, nat>, keys: set<K>, k: K)
    requires keys <= m.Keys && k in keys
    ensures SumOver(m, keys) == m[k] + SumOver(m, keys - {k})
    decreases keys
  {
    var j :| j in keys && SumOver(m, keys) == m[j] + SumOver(m, keys - {j});
    if j != k {
      SumOverRemove(m, keys - {j}, k);
      SumOverRemove(m, keys - {k}, j);
      assert keys - {j} - {k} == keys - {k} - {j};
    }
  }

  /** The sum depends only on the counts of the keys summed over. */
  lemma {:induction false} SumOverAgree<K>(m1: map<K, nat>, m2: map<K, nat>, keys: set<K>)
    requires keys <= m1.Keys && keys <= m2.Keys
    requires forall k :: k in keys ==> m1[k] == m2[k]
    ensures SumOver(m1, keys) == SumOver(m2, keys)
    decreases keys
  {
    if keys != {} {
      var k :| k in keys && SumOver(m1, keys) == m1[k] + SumOver(m1, keys - {k});
      SumOverRemove(m2, keys, k);
      SumOverAgree(m1, m2, keys - {k});
    }
  }

  /** Each step of the loop adds exactly one to the total. */
  lemma SumValuesBump<K>(m: map<K, nat>, k: K)
    ensures SumValues(Bump(m, k)) == SumValues(m) + 1
  {
    var b := Bump(m, k);
    SumOverRemove(b, b.Keys, k);
    if k in m {
      SumOverRemove(m, m.Keys, k);
      assert b.Keys - {k} == m.Keys - {k};
    } else {
      assert b.Keys - {k} == m.Keys;
    }
    SumOverAgree(b, m, b.Keys - {k});
  }

  /** The counts add up to the number of rows scanned. */
  lemma {:induction false} CountsSum<K>(keys: seq<K>)
    ensures SumValues(Counts(keys)) == |keys|
    decreases |keys|
  {
    if keys != [] {
      CountsSum(keys[..|keys| - 1]);
      SumValuesBump(Counts(keys[..|keys| - 1]), keys[|keys| - 1]);
    }
  }

  /** The keys are exactly the values seen, and each count is the number of
      times its key was seen, so it is at least one. */
  lemma {:induction false} CountsAreOccurrences<K>(keys: seq<K>)
    ensures forall k :: k in Counts(keys) <==> k in keys
    ensures forall k :: k in Counts(keys) ==> Counts(keys)[k] == multiset(keys)[k] >= 1
    decreases |keys|
  {
    if keys != [] {
      var init, last := keys[..|keys| - 1], keys[|keys| - 1];
      CountsAreOccurrences(init);
      assert keys == init + [last];
      assert multiset(keys) == multiset(init) + multiset{last};
    }
  }
}
