/** Keeping the first element for each key, in order. `removeDuplicates`
    (frontend/src/services/redditService.js:195-202, a `Set` of seen ids inside
    `filter`) and `[...new Set(posts.map(post => post.subreddit))]`
    (frontend/src/hooks/useRedditScan.js:107) both do this. */
module Unique {

  /** Some element of `s` has key `k`. */
  predicate HasKey<T, K(==,!new)>(s: seq<T>, key: T -> K, k: K)
  {
    exists i | 0 <= i < |s| :: key(s[i]) == k
  }

  ghost function Keys<T, K>(s: seq<T>, key: T -> K): set<K>
  {
    set i | 0 <= i < |s| :: key(s[i])
  }

  lemma KeysIff<T, K(!new)>(s: seq<T>, key: T -> K, k: K)
    ensures k in Keys(s, key) <==> HasKey(s, key, k)
  {
    if HasKey(s, key, k) {
      var i :| 0 <= i < |s| && key(s[i]) == k;
      assert key(s[i]) in Keys(s, key);
    }
  }

  /** The elements of `s` whose key has not appeared earlier, in order. */
  function KeepFirst<T, K(==,!new)>(s: seq<T>, key: T -> K): (r: seq<T>)
    ensures |r| <= |s|
  {
    if s == [] then []
    else
      var init, last := s[..|s| - 1], s[|s| - 1];
      KeepFirst(init, key) + if HasKey(init, key, key(last)) then [] else [last]
  }

  /** Where key `k` first appears in `s`. */
  function FirstIndex<T, K(==,!new)>(s: seq<T>, key: T -> K, k: K): (i: nat)
    requires HasKey(s, key, k)
    ensures i < |s| && key(s[i]) == k
    ensures forall m :: 0 <= m < i ==> key(s[m]) != k
  {
    if key(s[0]) == k then 0
    else
      assert HasKey(s[1..], key, k) by {
        var j :| 0 <= j < |s| && key(s[j]) == k;
        assert key(s[1..][j - 1]) == k;
      }
      1 + FirstIndex(s[1..], key, k)
  }

  lemma FirstIndexUnique<T, K(!new)>(s: seq<T>, key: T -> K, k: K, i: nat)
    requires i < |s| && key(s[i]) == k
    requires forall m :: 0 <= m < i ==> key(s[m]) != k
    ensures HasKey(s, key, k) && FirstIndex(s, key, k) == i
  {
    assert HasKey(s, key, k);
    var f := FirstIndex(s, key, k);
    assert !(f < i) && !(i < f);
  }

  lemma FirstIndexExtend<T, K(!new)>(s: seq<T>, key: T -> K, x: T, k: K)
    requires HasKey(s, key, k)
    ensures HasKey(s + [x], key, k) && FirstIndex(s + [x], key, k) == FirstIndex(s, key, k)
  {
    var f := FirstIndex(s, key, k);
    assert (s + [x])[f] == s[f];
    FirstIndexUnique(s + [x], key, k, f);
  }

  lemma HasKeyExtend<T, K(!new)>(s: seq<T>, key: T -> K, x: T, k: K)
    ensures HasKey(s + [x], key, k) <==> HasKey(s, key, k) || key(x) == k
  {
    if HasKey(s + [x], key, k) {
      var i :| 0 <= i < |s| + 1 && key((s + [x])[i]) == k;
      if i < |s| {
        assert key(s[i]) == k;
      }
    }
    if HasKey(s, key, k) {
      var i :| 0 <= i < |s| && key(s[i]) == k;
      assert key((s + [x])[i]) == k;
    }
    if key(x) == k {
      assert key((s + [x])[|s|]) == k;
    }
  }

  /** What `KeepFirst` keeps: distinct keys, every key of the input, each
      element the first one with its key, in the order the keys first appear. */
  ghost predicate KeepsFirsts<T, K(!new)>(s: seq<T>, key: T -> K, r: seq<T>)
  {
    && (forall i, j :: 0 <= i < j < |r| ==> key(r[i]) != key(r[j]))
    && (forall k :: HasKey(r, key, k) <==> HasKey(s, key, k))
    && (forall t :: 0 <= t < |r| ==> HasKey(s, key, key(r[t])) && r[t] == s[FirstIndex(s, key, key(r[t]))])
    && (forall t, u :: 0 <= t < u < |r| ==>
          FirstIndex(s, key, key(r[t])) < FirstIndex(s, key, key(r[u])))
  }

  lemma KeepFirstKeepsFirsts<T, K(!new)>(s: seq<T>, key: T -> K)
    ensures KeepsFirsts(s, key, KeepFirst(s, key))
  {
    var r := KeepFirst(s, key);
    forall i, j | 0 <= i < j < |r| ensures key(r[i]) != key(r[j]) {
      KeepFirstDistinct(s, key, i, j);
    }
    forall k ensures HasKey(r, key, k) <==> HasKey(s, key, k) {
      KeepFirstHasKey(s, key, k);
    }
    forall t | 0 <= t < |r| ensures HasKey(s, key, key(r[t])) && r[t] == s[FirstIndex(s, key, key(r[t]))] {
      KeepFirstFirst(s, key, t);
    }
    forall t, u | 0 <= t < u < |r|
      ensures FirstIndex(s, key, key(r[t])) < FirstIndex(s, key, key(r[u]))
    {
      KeepFirstOrder(s, key, t, u);
    }
  }

  /** How `KeepFirst` grows with one more element. */
  lemma KeepFirstLast<T, K(!new)>(s: seq<T>, key: T -> K)
    requires s != []
    ensures var init, last := s[..|s| - 1], s[|s| - 1];
      KeepFirst(s, key) ==
        KeepFirst(init, key) + if HasKey(init, key, key(last)) then [] else [last]
  {
  }

  /** The same keys appear before and after. */
  lemma {:induction false} KeepFirstHasKey<T, K(!new)>(s: seq<T>, key: T -> K, k: K)
    ensures HasKey(KeepFirst(s, key), key, k) <==> HasKey(s, key, k)
  {
    if s != [] {
      var init, last := s[..|s| - 1], s[|s| - 1];
      assert s == init + [last];
      var prev := KeepFirst(init, key);
      KeepFirstLast(s, key);
      KeepFirstHasKey(init, key, k);
      HasKeyExtend(init, key, last, k);
      if HasKey(init, key, key(last)) {
        assert KeepFirst(s, key) == prev;
        if key(last) == k {
          assert HasKey(init, key, k);
        }
      } else {
        assert KeepFirst(s, key) == prev + [last];
        HasKeyExtend(prev, key, last, k);
      }
    }
  }

  /** No key is kept twice. */
  lemma {:induction false} KeepFirstDistinct<T, K(!new)>(s: seq<T>, key: T -> K, i: nat, j: nat)
    requires i < j < |KeepFirst(s, key)|
    ensures key(KeepFirst(s, key)[i]) != key(KeepFirst(s, key)[j])
  {
    var init, last := s[..|s| - 1], s[|s| - 1];
    var prev := KeepFirst(init, key);
    KeepFirstLast(s, key);
    if j < |prev| {
      KeepFirstDistinct(init, key, i, j);
    } else {
      assert KeepFirst(s, key)[j] == last;
      assert KeepFirst(s, key)[i] == prev[i];
      KeepFirstHasKey(init, key, key(prev[i]));
      assert HasKey(prev, key, key(prev[i]));
    }
  }

  /** The last element, when kept, is the first of its key. */
  lemma FirstIndexOfLast<T, K(!new)>(s: seq<T>, key: T -> K)
    requires s != [] && !HasKey(s[..|s| - 1], key, key(s[|s| - 1]))
    ensures HasKey(s, key, key(s[|s| - 1])) && FirstIndex(s, key, key(s[|s| - 1])) == |s| - 1
  {
    var init := s[..|s| - 1];
    forall m | 0 <= m < |s| - 1 ensures key(s[m]) != key(s[|s| - 1]) {
      assert s[m] == init[m];
    }
    FirstIndexUnique(s, key, key(s[|s| - 1]), |s| - 1);
  }

  /** Every kept element is the first of its key. */
  lemma {:induction false} KeepFirstFirst<T, K(!new)>(s: seq<T>, key: T -> K, t: nat)
    requires t < |KeepFirst(s, key)|
    ensures var x := KeepFirst(s, key)[t];
      HasKey(s, key, key(x)) && x == s[FirstIndex(s, key, key(x))]
  {
    var init, last := s[..|s| - 1], s[|s| - 1];
    var prev := KeepFirst(init, key);
    KeepFirstLast(s, key);
    if t < |prev| {
      assert s == init + [last];
      assert KeepFirst(s, key)[t] == prev[t];
      KeepFirstFirst(init, key, t);
      FirstIndexExtend(init, key, last, key(prev[t]));
    } else {
      assert KeepFirst(s, key)[t] == last;
      FirstIndexOfLast(s, key);
    }
  }

  /** The kept elements keep the order in which their keys first appear. */
  lemma {:induction false} KeepFirstOrder<T, K(!new)>(s: seq<T>, key: T -> K, t: nat, u: nat)
    requires t < u < |KeepFirst(s, key)|
    ensures var r := KeepFirst(s, key);
      HasKey(s, key, key(r[t])) && HasKey(s, key, key(r[u])) &&
      FirstIndex(s, key, key(r[t])) < FirstIndex(s, key, key(r[u]))
  {
    var init, last := s[..|s| - 1], s[|s| - 1];
    var prev := KeepFirst(init, key);
    KeepFirstLast(s, key);
    assert s == init + [last];
    assert KeepFirst(s, key)[t] == prev[t];
    KeepFirstFirst(init, key, t);
    FirstIndexExtend(init, key, last, key(prev[t]));
    if u < |prev| {
      assert KeepFirst(s, key)[u] == prev[u];
      KeepFirstOrder(init, key, t, u);
      KeepFirstFirst(init, key, u);
      FirstIndexExtend(init, key, last, key(prev[u]));
    } else {
      assert KeepFirst(s, key)[u] == last;
      FirstIndexOfLast(s, key);
    }
  }

  lemma {:induction false} DistinctKeysCount<T, K(!new)>(r: seq<T>, key: T -> K)
    requires forall i, j :: 0 <= i < j < |r| ==> key(r[i]) != key(r[j])
    ensures |Keys(r, key)| == |r|
  {
    if r != [] {
      var init := r[..|r| - 1];
      DistinctKeysCount(init, key);
      assert Keys(r, key) == Keys(init, key) + {key(r[|r| - 1])};
      assert key(r[|r| - 1]) !in Keys(init, key);
    }
  }

  lemma KeysByHasKey<T, K(!new)>(a: seq<T>, b: seq<T>, key: T -> K)
    requires forall k :: HasKey(a, key, k) <==> HasKey(b, key, k)
    ensures Keys(a, key) == Keys(b, key)
  {
    forall k | k in Keys(a, key) ensures k in Keys(b, key) {
      assert HasKey(a, key, k);
    }
    forall k | k in Keys(b, key) ensures k in Keys(a, key) {
      assert HasKey(b, key, k);
    }
  }

  /** As many elements are kept as there are distinct keys. */
  lemma KeepFirstLength<T, K(!new)>(s: seq<T>, key: T -> K)
    ensures |KeepFirst(s, key)| == |Keys(s, key)|
  {
    var r := KeepFirst(s, key);
    KeepFirstKeepsFirsts(s, key);
    DistinctKeysCount(r, key);
    KeysByHasKey(r, s, key);
  }
}
