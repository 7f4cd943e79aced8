/** Filling a Go map from a sequence of key/value pairs in order, the idiom
    `for ... { m[k] = v }`: every key of the pairs is present afterwards, the last pair of
    a key decides its value, and a key no pair names keeps the value it had. */
module Assoc {
  /** The keys the pairs name. */
  function Keys<K(==), V>(pairs: seq<(K, V)>): set<K> {
    set i | 0 <= i < |pairs| :: pairs[i].0
  }

  /** No later pair names the key of the pair at `i`. */
  predicate LastOfKey<K(==), V>(pairs: seq<(K, V)>, i: nat)
    requires i < |pairs|
  {
    forall j :: i < j < |pairs| ==> pairs[j].0 != pairs[i].0
  }

  lemma KeysCons<K, V>(pairs: seq<(K, V)>)
    requires |pairs| > 0
    ensures Keys(pairs) == {pairs[0].0} + Keys(pairs[1..])
  {
    forall k | k in Keys(pairs) ensures k in {pairs[0].0} + Keys(pairs[1..]) {
      var i :| 0 <= i < |pairs| && pairs[i].0 == k;
      if i > 0 { assert pairs[1..][i - 1] == pairs[i]; }
    }
    forall k | k in Keys(pairs[1..]) ensures k in Keys(pairs) {
      var i :| 0 <= i < |pairs[1..]| && pairs[1..][i].0 == k;
      assert pairs[i + 1].0 == k;
    }
  }

  /** The pairs assigned one after the other into `acc`. */
  function Assign<K(==), V>(pairs: seq<(K, V)>, acc: map<K, V>): (m: map<K, V>)
    ensures m.Keys == acc.Keys + Keys(pairs)
    decreases |pairs|
  {
    if |pairs| == 0 then acc
    else
      KeysCons(pairs);
      Assign(pairs[1..], acc[pairs[0].0 := pairs[0].1])
  }

  /** A key no pair names keeps the value it had. */
  lemma {:induction false} AssignKeeps<K, V>(pairs: seq<(K, V)>, acc: map<K, V>, k: K)
    requires k in acc && k !in Keys(pairs)
    ensures Assign(pairs, acc)[k] == acc[k]
    decreases |pairs|
  {
    if |pairs| > 0 {
      KeysCons(pairs);
      AssignKeeps(pairs[1..], acc[pairs[0].0 := pairs[0].1], k);
    }
  }

  /** The last pair of a key decides its value. */
  lemma {:induction false} AssignLastWins<K, V>(pairs: seq<(K, V)>, acc: map<K, V>, i: nat)
    requires i < |pairs| && LastOfKey(pairs, i)
    ensures Assign(pairs, acc)[pairs[i].0] == pairs[i].1
    decreases |pairs|
  {
    var next := acc[pairs[0].0 := pairs[0].1];
    KeysCons(pairs);
    if i == 0 {
      assert pairs[0].0 !in Keys(pairs[1..]);
      AssignKeeps(pairs[1..], next, pairs[0].0);
    } else {
      assert pairs[1..][i - 1] == pairs[i];
      assert LastOfKey(pairs[1..], i - 1) by {
        forall j | i - 1 < j < |pairs[1..]| ensures pairs[1..][j].0 != pairs[1..][i - 1].0 {
          assert pairs[1..][j] == pairs[j + 1];
        }
      }
      AssignLastWins(pairs[1..], next, i - 1);
    }
  }

  /** The map the pairs fill from empty. */
  function FromPairs<K(==), V>(pairs: seq<(K, V)>): (m: map<K, V>)
    ensures m.Keys == Keys(pairs)
  {
    Assign(pairs, map[])
  }

  /** Every key maps to the value of its last pair. */
  lemma FromPairsLastWins<K, V>(pairs: seq<(K, V)>, i: nat)
    requires i < |pairs| && LastOfKey(pairs, i)
    ensures pairs[i].0 in FromPairs(pairs)
    ensures FromPairs(pairs)[pairs[i].0] == pairs[i].1
  {
    AssignLastWins(pairs, map[], i);
  }

  lemma KeysAppend<K, V>(a: seq<(K, V)>, b: seq<(K, V)>)
    ensures Keys(a + b) == Keys(a) + Keys(b)
  {
    var ab := a + b;
    forall k | k in Keys(ab) ensures k in Keys(a) + Keys(b) {
      var i :| 0 <= i < |ab| && ab[i].0 == k;
      if i >= |a| { assert ab[i] == b[i - |a|]; }
    }
    forall k | k in Keys(a) ensures k in Keys(ab) {
      var i :| 0 <= i < |a| && a[i].0 == k;
      assert ab[i] == a[i];
    }
    forall k | k in Keys(b) ensures k in Keys(ab) {
      var i :| 0 <= i < |b| && b[i].0 == k;
      assert ab[|a| + i] == b[i];
    }
  }

  /** Pairs assigned after others win over them. */
  lemma FromPairsLaterWins<K, V>(a: seq<(K, V)>, b: seq<(K, V)>, i: nat)
    requires i < |b| && LastOfKey(b, i)
    ensures b[i].0 in FromPairs(a + b)
    ensures FromPairs(a + b)[b[i].0] == b[i].1
  {
    var ab := a + b;
    var n := |a|;
    assert ab[n + i] == b[i];
    forall j | n + i < j < |ab| ensures ab[j].0 != ab[n + i].0 {
      assert ab[j] == b[j - n];
    }
    FromPairsLastWins(ab, n + i);
  }

  /** Pairs assigned before others keep their value when no later pair names the key. */
  lemma FromPairsEarlierKept<K, V>(a: seq<(K, V)>, b: seq<(K, V)>, i: nat)
    requires i < |a| && LastOfKey(a, i) && a[i].0 !in Keys(b)
    ensures a[i].0 in FromPairs(a + b)
    ensures FromPairs(a + b)[a[i].0] == a[i].1
  {
    var ab := a + b;
    var n := |a|;
    assert ab[i] == a[i];
    forall j | i < j < |ab| ensures ab[j].0 != ab[i].0 {
      if j < n { assert ab[j] == a[j]; } else { assert ab[j] == b[j - n]; }
    }
    FromPairsLastWins(ab, i);
  }
}
