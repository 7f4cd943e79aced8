/** `SortManifests` (pkg/cluster/kube/manifests.go): manifests ordered by the rank of their
    kind in `KindOrder`, then by namespace, then by name. Go's `sort.Slice` is not stable, so
    what is promised is an ordered permutation, nothing about the order of equal keys. */
module ManifestOrder {
  import opened Wrappers
  import opened GoStrings
  import opened Manifests

  /** Where `kind` sits in `KindOrder`; every kind not listed gets `|KindOrder|`. */
  function Rank(kind: string): (r: nat)
    ensures r <= |KindOrder|
    ensures r < |KindOrder| ==> KindOrder[r] == kind
    ensures r == |KindOrder| <==> kind !in KindOrder
  {
    IndexIn(KindOrder, kind)
  }

  /** The first position of `x` in `list`, or `|list|`. */
  function IndexIn(list: seq<string>, x: string): (r: nat)
    ensures r <= |list|
    ensures r < |list| ==> list[r] == x && x !in list[..r]
    ensures r == |list| <==> x !in list
  {
    if |list| == 0 then 0
    else if list[0] == x then 0
    else
      var k := IndexIn(list[1..], x);
      assert k < |list| - 1 ==> list[1..][..k] == list[1..k + 1];
      assert list[..k + 1] == [list[0]] + list[1..k + 1];
      k + 1
  }

  /** The comparator's view of a manifest. */
  datatype SortKey = SortKey(rank: nat, namespace: string, name: string)

  /** The key the comparator computes: with an empty kind, the rank of unknown kinds and an
      empty namespace and name, whatever the metadata says; with no metadata, an empty
      namespace and name. */
  function KeyOf(m: Manifest): (k: SortKey)
    ensures k.rank == Rank(m.head.kind)
    ensures m.head.kind == "" || m.head.metadata.None? ==> k.namespace == "" && k.name == ""
    ensures m.head.kind != "" && m.head.metadata.Some? ==>
      k.namespace == m.head.metadata.value.namespace && k.name == m.head.metadata.value.name
  {
    if m.head.kind != "" then
      var r := Rank(m.head.kind);
      match m.head.metadata
      case Some(md) => SortKey(r, md.namespace, md.name)
      case None => SortKey(r, "", "")
    else
      assert "" !in KindOrder;
      SortKey(|KindOrder|, "", "")
  }

  /** Lexicographic order on (rank, namespace, name), with Go's string order. */
  predicate KeyLess(a: SortKey, b: SortKey) {
    || a.rank < b.rank
    || (a.rank == b.rank && Less(a.namespace, b.namespace))
    || (a.rank == b.rank && a.namespace == b.namespace && Less(a.name, b.name))
  }

  /** The `less` function handed to `sort.Slice`. */
  predicate Before(m1: Manifest, m2: Manifest) {
    KeyLess(KeyOf(m1), KeyOf(m2))
  }

  lemma KeyLessIrreflexive(a: SortKey)
    ensures !KeyLess(a, a)
  {
    LessIrreflexive(a.namespace);
    LessIrreflexive(a.name);
  }

  lemma KeyLessTransitive(a: SortKey, b: SortKey, c: SortKey)
    requires KeyLess(a, b) && KeyLess(b, c)
    ensures KeyLess(a, c)
  {
    if a.rank == b.rank == c.rank {
      if Less(a.namespace, b.namespace) && Less(b.namespace, c.namespace) {
        LessTransitive(a.namespace, b.namespace, c.namespace);
      } else if a.namespace == b.namespace == c.namespace {
        LessTransitive(a.name, b.name, c.name);
      }
    }
  }

  /** Distinct keys are always ordered one way or the other, so the comparator is a strict
      total order on keys and manifests with equal keys are the only ties. */
  lemma KeyLessTotal(a: SortKey, b: SortKey)
    requires a != b
    ensures KeyLess(a, b) || KeyLess(b, a)
  {
    if a.rank == b.rank {
      if a.namespace != b.namespace {
        LessTotal(a.namespace, b.namespace);
      } else {
        LessTotal(a.name, b.name);
      }
    }
  }

  /** No element is placed after one whose key it precedes. */
  predicate SortedBy(ms: seq<Manifest>, key: Manifest -> SortKey) {
    forall i, j :: 0 <= i < j < |ms| ==> !KeyLess(key(ms[j]), key(ms[i]))
  }

  predicate AdjacentSortedBy(ms: seq<Manifest>, key: Manifest -> SortKey) {
    forall i :: 0 <= i < |ms| - 1 ==> !KeyLess(key(ms[i + 1]), key(ms[i]))
  }

  /** The order `SortManifests` establishes: no manifest comes before one placed ahead of it. */
  predicate Sorted(ms: seq<Manifest>) {
    SortedBy(ms, KeyOf)
  }

  /** Neighbours in order means all pairs in order: `!KeyLess` is transitive. */
  lemma {:induction false} AdjacentSortedIsSorted(ms: seq<Manifest>, key: Manifest -> SortKey)
    requires AdjacentSortedBy(ms, key)
    ensures SortedBy(ms, key)
    decreases |ms|
  {
    if |ms| > 1 {
      var tail := ms[1..];
      assert AdjacentSortedBy(tail, key) by {
        forall i | 0 <= i < |tail| - 1 ensures !KeyLess(key(tail[i + 1]), key(tail[i])) {
          assert tail[i] == ms[i + 1] && tail[i + 1] == ms[i + 2];
        }
      }
      AdjacentSortedIsSorted(tail, key);
      forall i, j | 0 <= i < j < |ms| ensures !KeyLess(key(ms[j]), key(ms[i])) {
        if i > 0 {
          assert ms[i] == tail[i - 1] && ms[j] == tail[j - 1];
        } else if j > 1 {
          assert ms[j] == tail[j - 1] && ms[1] == tail[0];
          NotLessTransitive(key(ms[0]), key(ms[1]), key(ms[j]));
        }
      }
    }
  }

  lemma NotLessTransitive(a: SortKey, b: SortKey, c: SortKey)
    requires !KeyLess(b, a) && !KeyLess(c, b)
    ensures !KeyLess(c, a)
  {
    if KeyLess(c, a) && a != b {
      KeyLessTotal(a, b);
      KeyLessTransitive(c, a, b);
    }
  }

  lemma KeyLessAsymmetric(a: SortKey, b: SortKey)
    requires KeyLess(a, b)
    ensures !KeyLess(b, a)
  {
    if KeyLess(b, a) {
      KeyLessTransitive(a, b, a);
      KeyLessIrreflexive(a);
    }
  }

  /** Inserts `m` before the first element whose key does not precede its own. */
  function Insert(m: Manifest, ms: seq<Manifest>, key: Manifest -> SortKey): (r: seq<Manifest>)
    requires AdjacentSortedBy(ms, key)
    ensures AdjacentSortedBy(r, key)
    ensures multiset(r) == multiset(ms) + multiset{m}
    ensures |r| == |ms| + 1 && (r[0] == m || (|ms| > 0 && r[0] == ms[0]))
  {
    if |ms| == 0 then [m]
    else if !KeyLess(key(ms[0]), key(m)) then
      var r := [m] + ms;
      assert forall i :: 1 <= i < |r| - 1 ==> r[i] == ms[i - 1] && r[i + 1] == ms[i];
      r
    else
      var tail := ms[1..];
      assert AdjacentSortedBy(tail, key) by {
        forall i | 0 <= i < |tail| - 1 ensures !KeyLess(key(tail[i + 1]), key(tail[i])) {
          assert tail[i] == ms[i + 1] && tail[i + 1] == ms[i + 2];
        }
      }
      var rest := Insert(m, tail, key);
      var r := [ms[0]] + rest;
      assert ms == [ms[0]] + tail;
      assert !KeyLess(key(rest[0]), key(ms[0])) by {
        if rest[0] == m {
          KeyLessAsymmetric(key(ms[0]), key(m));
        }
      }
      assert forall i :: 1 <= i < |r| - 1 ==> r[i] == rest[i - 1] && r[i + 1] == rest[i];
      r
  }

  /** Insertion sort under `key`: a permutation of the input, in key order. */
  function SortBy(ms: seq<Manifest>, key: Manifest -> SortKey): (r: seq<Manifest>)
    ensures AdjacentSortedBy(r, key) && SortedBy(r, key)
    ensures multiset(r) == multiset(ms)
  {
    if |ms| == 0 then []
    else
      assert ms == [ms[0]] + ms[1..];
      var r := Insert(ms[0], SortBy(ms[1..], key), key);
      AdjacentSortedIsSorted(r, key);
      r
  }

  /** `SortManifests`: a permutation of the input in which no manifest comes before one
      placed ahead of it. An insertion sort stands for `sort.Slice`; which of several
      manifests with equal keys comes first is left open, as it is in the source. */
  function SortManifests(ms: seq<Manifest>): (r: seq<Manifest>)
    ensures Sorted(r)
    ensures multiset(r) == multiset(ms)
  {
    SortBy(ms, KeyOf)
  }

  /** In a sorted sequence the kinds appear in `KindOrder` order: a kind of lower rank never
      follows one of higher rank, and unknown kinds come last. */
  lemma SortedRanks(r: seq<Manifest>, i: nat, j: nat)
    requires Sorted(r) && i < j < |r|
    ensures Rank(r[i].head.kind) <= Rank(r[j].head.kind)
    ensures r[i].head.kind !in KindOrder ==> r[j].head.kind !in KindOrder
  {
    assert !KeyLess(KeyOf(r[j]), KeyOf(r[i]));
  }

  /** The rank of a kind listed in `KindOrder` at `k` and nowhere before. */
  lemma RankAt(kind: string, k: nat)
    requires k < |KindOrder| && KindOrder[k] == kind && kind !in KindOrder[..k]
    ensures Rank(kind) == k
  {
  }

  /** No kind is listed twice in `KindOrder`. */
  lemma KindOrderDistinct()
    ensures forall i, j :: 0 <= i < j < |KindOrder| ==> KindOrder[i] != KindOrder[j]
  {
  }

  /** `Rank` agrees with the source's `orderMap`, which maps the kind at position `k` to `k`
      (a later duplicate would win there; there are none), and `len(orderMap)` is
      `|KindOrder|`. */
  lemma RankIsPosition(k: nat)
    requires k < |KindOrder|
    ensures Rank(KindOrder[k]) == k
  {
    KindOrderDistinct();
    RankAt(KindOrder[k], k);
  }

  /** The ranks of the kinds the source's test fixture holds. */
  lemma ConfigMapRank(kind: string) requires kind == "ConfigMap" ensures Rank(kind) == 7 { RankAt(kind, 7); }
  lemma ServiceAccountRank(kind: string) requires kind == "ServiceAccount" ensures Rank(kind) == 12 { RankAt(kind, 12); }
  lemma ClusterRoleRank(kind: string) requires kind == "ClusterRole" ensures Rank(kind) == 14 { RankAt(kind, 14); }
  lemma ClusterRoleBindingRank(kind: string) requires kind == "ClusterRoleBinding" ensures Rank(kind) == 16 { RankAt(kind, 16); }

  /** The kinds in the source's test fixture, as the walk reads them (`dir/manifest2.yaml`
      before `manifest1.yaml`), come out of any sorted arrangement as ConfigMap,
      ServiceAccount, ClusterRole, ClusterRoleBinding. */
  lemma FixtureOrder(ms: seq<Manifest>, r: seq<Manifest>)
    requires |ms| == 4
    requires ms[0].head.kind == "ConfigMap" && ms[1].head.kind == "ClusterRole"
    requires ms[2].head.kind == "ServiceAccount" && ms[3].head.kind == "ClusterRoleBinding"
    requires Sorted(r) && multiset(r) == multiset(ms)
    ensures |r| == 4
    ensures [r[0].head.kind, r[1].head.kind, r[2].head.kind, r[3].head.kind]
         == ["ConfigMap", "ServiceAccount", "ClusterRole", "ClusterRoleBinding"]
  {
    ConfigMapRank(ms[0].head.kind);
    ServiceAccountRank(ms[2].head.kind);
    ClusterRoleRank(ms[1].head.kind);
    ClusterRoleBindingRank(ms[3].head.kind);
    OrderOfFour(ms, r, KeyOf);
    assert Rank(r[0].head.kind) == 7 && Rank(r[1].head.kind) == 12;
    assert Rank(r[2].head.kind) == 14 && Rank(r[3].head.kind) == 16;
  }

  /** Four manifests whose keys rise in the order 0, 2, 1, 3 are sorted that way. */
  lemma OrderOfFour(ms: seq<Manifest>, r: seq<Manifest>, key: Manifest -> SortKey)
    requires |ms| == 4
    requires KeyLess(key(ms[0]), key(ms[2])) && KeyLess(key(ms[2]), key(ms[1]))
    requires KeyLess(key(ms[1]), key(ms[3]))
    requires SortedBy(r, key) && multiset(r) == multiset(ms)
    ensures |r| == 4
    ensures key(r[0]) == key(ms[0]) && key(r[1]) == key(ms[2])
    ensures key(r[2]) == key(ms[1]) && key(r[3]) == key(ms[3])
  {
    var s := [ms[0], ms[2], ms[1], ms[3]];
    SwapMiddle(ms, s);
    RisingFour(s, key);
    SortedKeysUnique(r, s, key);
  }

  /** Exchanging the middle two of four elements keeps the multiset. */
  lemma SwapMiddle(ms: seq<Manifest>, s: seq<Manifest>)
    requires |ms| == 4 && s == [ms[0], ms[2], ms[1], ms[3]]
    ensures multiset(s) == multiset(ms)
  {
    assert ms == [ms[0], ms[1], ms[2], ms[3]];
  }

  /** Four elements whose neighbouring keys rise strictly are in key order. */
  lemma RisingFour(s: seq<Manifest>, key: Manifest -> SortKey)
    requires |s| == 4
    requires KeyLess(key(s[0]), key(s[1])) && KeyLess(key(s[1]), key(s[2]))
    requires KeyLess(key(s[2]), key(s[3]))
    ensures SortedBy(s, key)
  {
    KeyLessTransitive(key(s[0]), key(s[1]), key(s[2]));
    KeyLessTransitive(key(s[1]), key(s[2]), key(s[3]));
    KeyLessTransitive(key(s[0]), key(s[2]), key(s[3]));
    forall i, j | 0 <= i < j < 4 ensures !KeyLess(key(s[j]), key(s[i])) {
      KeyLessAsymmetric(key(s[i]), key(s[j]));
    }
  }

  /** When the kinds of a collection of manifests are listed in `KindOrder` and pairwise
      distinct, every sorted arrangement of it lists the kinds in `KindOrder` order. */
  lemma KindsDetermined(r: seq<Manifest>, s: seq<Manifest>)
    requires forall i, j :: 0 <= i < j < |s| ==> Rank(s[i].head.kind) < Rank(s[j].head.kind)
    requires forall i :: 0 <= i < |s| ==> s[i].head.kind in KindOrder
    requires Sorted(r) && multiset(r) == multiset(s)
    ensures |r| == |s| && forall i :: 0 <= i < |r| ==> r[i].head.kind == s[i].head.kind
  {
    assert Sorted(s);
    SortedKeysUnique(r, s, KeyOf);
    forall i | 0 <= i < |r| ensures r[i].head.kind == s[i].head.kind {
      assert Rank(r[i].head.kind) == Rank(s[i].head.kind);
    }
  }

  /** Two arrangements of the same manifests that are both in key order list the same keys
      in the same order: the result is determined up to the order of equal keys. */
  lemma {:induction false} SortedKeysUnique(a: seq<Manifest>, b: seq<Manifest>, key: Manifest -> SortKey)
    requires SortedBy(a, key) && SortedBy(b, key) && multiset(a) == multiset(b)
    ensures |a| == |b|
    ensures forall i :: 0 <= i < |a| ==> key(a[i]) == key(b[i])
    decreases |a|
  {
    assert |a| == |multiset(a)| == |multiset(b)| == |b|;
    if |a| > 0 {
      var p := FirstKeysEqual(a, b, key);
      var a', b' := a[1..], RemoveAt(b, p);
      assert a == [a[0]] + a';
      RemoveAtMultiset(b, p);
      RemoveAtSorted(b, p, key);
      SortedTail(a, key);
      SortedKeysUnique(a', b', key);
      forall i | 0 <= i < |a| ensures key(a[i]) == key(b[i]) {
        if i > 0 {
          assert key(a[i]) == key(b'[i - 1]);
          ShiftedKey(b, p, i, key);
        }
      }
    }
  }

  /** The first elements of two sorted arrangements of the same manifests share a key, and
      the first of `a` sits somewhere in `b` at a position `p` with that key. */
  lemma FirstKeysEqual(a: seq<Manifest>, b: seq<Manifest>, key: Manifest -> SortKey) returns (p: nat)
    requires |a| > 0 && SortedBy(a, key) && SortedBy(b, key) && multiset(a) == multiset(b)
    ensures p < |b| && b[p] == a[0] && key(a[0]) == key(b[0])
  {
    assert a[0] in multiset(b) && b[0] in multiset(a);
    p :| 0 <= p < |b| && b[p] == a[0];
    var q :| 0 <= q < |a| && a[q] == b[0];
    assert !KeyLess(key(b[p]), key(b[0])) by { KeyLessIrreflexive(key(b[0])); }
    assert !KeyLess(key(a[q]), key(a[0])) by { KeyLessIrreflexive(key(a[0])); }
    if key(a[0]) != key(b[0]) {
      KeyLessTotal(key(a[0]), key(b[0]));
    }
  }

  /** Removing position `p` from a sorted `b` whose first `p + 1` keys agree leaves, at each
      position `i - 1`, an element with the key `b[i]` has. */
  lemma ShiftedKey(b: seq<Manifest>, p: nat, i: nat, key: Manifest -> SortKey)
    requires SortedBy(b, key) && p < |b| && 0 < i < |b| && key(b[p]) == key(b[0])
    ensures key(RemoveAt(b, p)[i - 1]) == key(b[i])
  {
    if i <= p {
      SqueezedKey(b, 0, i - 1, p, key);
      SqueezedKey(b, 0, i, p, key);
    }
  }

  lemma SortedTail(s: seq<Manifest>, key: Manifest -> SortKey)
    requires |s| > 0 && SortedBy(s, key)
    ensures SortedBy(s[1..], key)
  {
    var t := s[1..];
    forall i, j | 0 <= i < j < |t| ensures !KeyLess(key(t[j]), key(t[i])) {
      assert t[i] == s[i + 1] && t[j] == s[j + 1];
    }
  }

  function RemoveAt(s: seq<Manifest>, p: nat): (r: seq<Manifest>)
    requires p < |s|
    ensures |r| == |s| - 1
    ensures forall i :: 0 <= i < |r| ==> r[i] == s[if i < p then i else i + 1]
  {
    s[..p] + s[p + 1..]
  }

  lemma RemoveAtMultiset(s: seq<Manifest>, p: nat)
    requires p < |s|
    ensures multiset(RemoveAt(s, p)) == multiset(s) - multiset{s[p]}
  {
    assert s == s[..p] + [s[p]] + s[p + 1..];
  }

  lemma RemoveAtSorted(s: seq<Manifest>, p: nat, key: Manifest -> SortKey)
    requires p < |s| && SortedBy(s, key)
    ensures SortedBy(RemoveAt(s, p), key)
  {
    var t := RemoveAt(s, p);
    forall i, j | 0 <= i < j < |t| ensures !KeyLess(key(t[j]), key(t[i])) {
      var i', j' := if i < p then i else i + 1, if j < p then j else j + 1;
      assert t[i] == s[i'] && t[j] == s[j'];
    }
  }

  /** In a sorted sequence, an element between two with the same key shares that key. */
  lemma SqueezedKey(s: seq<Manifest>, lo: nat, mid: nat, hi: nat, key: Manifest -> SortKey)
    requires SortedBy(s, key) && lo <= mid <= hi < |s| && key(s[lo]) == key(s[hi])
    ensures key(s[mid]) == key(s[lo])
  {
    var x, y := key(s[lo]), key(s[mid]);
    assert !KeyLess(y, x) by { KeyLessIrreflexive(x); }
    assert !KeyLess(x, y) by { KeyLessIrreflexive(x); }
    if x != y {
      KeyLessTotal(x, y);
    }
  }
}
