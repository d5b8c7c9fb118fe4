/** De-duplication and ranking of found posts (`removeDuplicates`,
    `calculateRelevance` and `sortByRelevance` in
    frontend/src/services/redditService.js). */
module Ranking {
  import opened Text
  import opened Seqs
  import opened Unique
  import opened Records

  function PostId(p: Post): string { p.id }

  // ---------------------------------------------------------------------------
  // removeDuplicates

  /** `removeDuplicates`: a set of seen ids filters the posts, so the first
      post with each id survives. */
  method RemoveDuplicates(posts: seq<Post>) returns (unique: seq<Post>)
    ensures unique == KeepFirst(posts, PostId)
  {
    var seen: set<string> := {};
    unique := [];
    for i := 0 to |posts|
      invariant seen == Keys(posts[..i], PostId)
      invariant unique == KeepFirst(posts[..i], PostId)
    {
      var post := posts[i];
      assert posts[..i + 1][..i] == posts[..i];
      KeysIff(posts[..i], PostId, post.id);
      if post.id !in seen {
        seen := seen + {post.id};
        unique := unique + [post];
      }
      assert Keys(posts[..i + 1], PostId) == Keys(posts[..i], PostId) + {post.id};
    }
    assert posts[..|posts|] == posts;
  }

  /** What `removeDuplicates` returns: pairwise-distinct ids, one post per id
      of the input (so as many posts as distinct ids), each the first post
      with its id, in input order. */
  lemma RemoveDuplicatesSpec(posts: seq<Post>)
    ensures var r := KeepFirst(posts, PostId);
      && (forall i, j :: 0 <= i < j < |r| ==> r[i].id != r[j].id)
      && (forall id :: HasKey(r, PostId, id) <==> HasKey(posts, PostId, id))
      && |r| == |Keys(posts, PostId)|
      && (forall t :: 0 <= t < |r| ==> r[t] == posts[FirstIndex(posts, PostId, r[t].id)])
      && (forall t, u :: 0 <= t < u < |r| ==>
            FirstIndex(posts, PostId, r[t].id) < FirstIndex(posts, PostId, r[u].id))
  {
    KeepFirstKeepsFirsts(posts, PostId);
    KeepFirstLength(posts, PostId);
  }

  // ---------------------------------------------------------------------------
  // calculateRelevance

  /** How many of `words` occur in `text`. */
  function CountOccurring(words: seq<string>, text: string): (n: nat)
    ensures n <= |words|
  {
    if words == [] then 0
    else CountOccurring(words[..|words| - 1], text) + if Contains(text, words[|words| - 1]) then 1 else 0
  }

  /** The relevance of a title to a product name: 10 when the whole name
      occurs in the title, plus 2 per word of the name (split on single
      spaces) that occurs in it, compared in lower case; at least 1. */
  function Relevance(title: string, productName: string): int
  {
    var titleLower, productLower := Lower(title), Lower(productName);
    var score := (if Contains(titleLower, productLower) then 10 else 0)
                 + 2 * CountOccurring(Split(productLower, ' '), titleLower);
    if score > 1 then score else 1
  }

  /** `calculateRelevance`: the score is accumulated word by word. */
  method CalculateRelevance(title: string, productName: string) returns (score: int)
    ensures score == Relevance(title, productName)
    ensures 1 <= score <= 10 + 2 * |Split(Lower(productName), ' ')|
  {
    var titleLower := Lower(title);
    var productLower := Lower(productName);
    var words := Split(productLower, ' ');
    score := 0;
    if Contains(titleLower, productLower) {
      score := score + 10;
    }
    for i := 0 to |words|
      invariant score == (if Contains(titleLower, productLower) then 10 else 0)
                         + 2 * CountOccurring(words[..i], titleLower)
    {
      assert words[..i + 1][..i] == words[..i];
      if Contains(titleLower, words[i]) {
        score := score + 2;
      }
    }
    assert words[..|words|] == words;
    score := if score > 1 then score else 1;
  }

  /** The comparison ignores letter case. */
  lemma RelevanceIgnoresCase(title: string, productName: string)
    ensures Relevance(Lower(title), Lower(productName)) == Relevance(title, productName)
  {
    LowerIdempotent(title);
    LowerIdempotent(productName);
  }

  lemma {:induction false} CountOccurringAll(words: seq<string>, text: string)
    requires forall k :: 0 <= k < |words| ==> Contains(text, words[k])
    ensures CountOccurring(words, text) == |words|
  {
    if words != [] {
      CountOccurringAll(words[..|words| - 1], text);
    }
  }

  /** When the title holds the whole name, every word of the name occurs in
      it as well, empty and repeated words included. */
  lemma RelevanceOfFullMatch(title: string, productName: string)
    requires Contains(Lower(title), Lower(productName))
    ensures Relevance(title, productName) == 10 + 2 * |Split(Lower(productName), ' ')|
  {
    var titleLower, productLower := Lower(title), Lower(productName);
    var words := Split(productLower, ' ');
    forall k | 0 <= k < |words| ensures Contains(titleLower, words[k]) {
      SplitPiecesOccur(productLower, ' ', k);
      ContainsTransitive(titleLower, productLower, words[k]);
    }
    CountOccurringAll(words, titleLower);
  }

  // ---------------------------------------------------------------------------
  // sortByRelevance

  /** `techCommunityBonus`. */
  const TechCommunityBonus: map<string, real> := map[
    "LinusTechTips" := 3.0,
    "MKBHD" := 3.0,
    "UnboxTherapy" := 2.0,
    "hardware" := 2.0,
    "BuyItForLife" := 2.0,
    "buildapc" := 2.0,
    "audiophile" := 2.0,
    "technology" := 1.5]

  /** `techCommunityBonus[subreddit] || 1`. */
  function CommunityBonus(subreddit: string): real
  {
    if subreddit in TechCommunityBonus then TechCommunityBonus[subreddit] else 1.0
  }

  /** The key the comparator sorts by: relevance times engagement times bonus. */
  function FinalScore(p: Post, productName: string): real
  {
    (Relevance(p.title, productName) as real)
    * ((p.score + p.numComments * 2) as real)
    * CommunityBonus(p.subreddit)
  }

  /** `posts.filter(post => post.num_comments > 0)`. */
  function Commented(posts: seq<Post>): (r: seq<Post>)
    ensures |r| <= |posts|
    ensures forall p :: p in r <==> p in posts && p.numComments > 0
  {
    if posts == [] then []
    else (if posts[0].numComments > 0 then [posts[0]] else []) + Commented(posts[1..])
  }

  /** The filter works post by post, so the kept posts stay in input order
      and keep their multiplicity; with the contract above (one post is kept
      exactly when it has comments) this pins the result down. */
  lemma {:induction false} CommentedAppend(a: seq<Post>, b: seq<Post>)
    ensures Commented(a + b) == Commented(a) + Commented(b)
  {
    if a == [] {
      assert a + b == b;
    } else {
      assert (a + b)[0] == a[0] && (a + b)[1..] == a[1..] + b;
      CommentedAppend(a[1..], b);
    }
  }

  /** The sort key of `sortByRelevance` for a given product name. */
  function RankKey(productName: string): Post -> real
  {
    p => FinalScore(p, productName)
  }

  /** Inserts `x` before the first element whose key is not higher, so that
      it stays ahead of the equal-keyed elements that followed it. */
  function Insert<T>(x: T, sorted: seq<T>, key: T -> real): (r: seq<T>)
    ensures multiset(r) == multiset(sorted) + multiset{x}
  {
    if sorted == [] || key(sorted[0]) <= key(x) then [x] + sorted
    else
      assert sorted == [sorted[0]] + sorted[1..];
      [sorted[0]] + Insert(x, sorted[1..], key)
  }

  /** A stable sort by descending key, as `Array.prototype.sort` with the
      comparator `bFinalScore - aFinalScore` (section 23.1.3.30 of ECMA-262,
      2023 edition, requires the sort to be stable). */
  function StableSort<T>(s: seq<T>, key: T -> real): (r: seq<T>)
  {
    if s == [] then [] else Insert(s[0], StableSort(s[1..], key), key)
  }

  /** `sortByRelevance`: drop posts without comments, sort, keep the top 20. */
  function SortByRelevance(posts: seq<Post>, productName: string): (r: seq<Post>)
    ensures |r| <= 20
  {
    Take(StableSort(Commented(posts), RankKey(productName)), 20)
  }

  ghost predicate NonIncreasing<T>(s: seq<T>, key: T -> real)
  {
    forall i, j :: 0 <= i < j < |s| ==> key(s[i]) >= key(s[j])
  }

  /** The elements of `s` whose key is exactly `v`, in order. */
  ghost function WithKey<T>(s: seq<T>, key: T -> real, v: real): seq<T>
  {
    if s == [] then []
    else (if key(s[0]) == v then [s[0]] else []) + WithKey(s[1..], key, v)
  }

  lemma {:induction false} WithKeyAppend<T>(a: seq<T>, b: seq<T>, key: T -> real, v: real)
    ensures WithKey(a + b, key, v) == WithKey(a, key, v) + WithKey(b, key, v)
  {
    if a != [] {
      assert (a + b)[0] == a[0];
      assert (a + b)[1..] == a[1..] + b;
      WithKeyAppend(a[1..], b, key, v);
    } else {
      assert a + b == b;
    }
  }

  ghost predicate AllAtMost<T>(s: seq<T>, key: T -> real, b: real)
  {
    forall i :: 0 <= i < |s| ==> key(s[i]) <= b
  }

  lemma {:induction false} InsertAtMost<T>(x: T, sorted: seq<T>, key: T -> real, b: real)
    requires AllAtMost(sorted, key, b) && key(x) <= b
    ensures AllAtMost(Insert(x, sorted, key), key, b)
  {
    if !(sorted == [] || key(sorted[0]) <= key(x)) {
      InsertAtMost(x, sorted[1..], key, b);
    }
  }

  /** Inserting into a sorted sequence keeps it sorted. */
  lemma {:induction false} InsertSorted<T>(x: T, sorted: seq<T>, key: T -> real)
    requires NonIncreasing(sorted, key)
    ensures NonIncreasing(Insert(x, sorted, key), key)
  {
    var r := Insert(x, sorted, key);
    if sorted == [] || key(sorted[0]) <= key(x) {
      assert AllAtMost(sorted, key, key(x)) by {
        if sorted != [] {
          assert forall i :: 0 < i < |sorted| ==> key(sorted[0]) >= key(sorted[i]);
        }
      }
      assert forall i :: 0 < i < |r| ==> r[i] == sorted[i - 1];
    } else {
      var rest := Insert(x, sorted[1..], key);
      InsertSorted(x, sorted[1..], key);
      assert AllAtMost(sorted[1..], key, key(sorted[0])) by {
        assert forall i :: 0 < i < |sorted| ==> key(sorted[0]) >= key(sorted[i]);
      }
      InsertAtMost(x, sorted[1..], key, key(sorted[0]));
      assert r == [sorted[0]] + rest;
      assert forall i :: 0 < i < |r| ==> r[i] == rest[i - 1];
    }
  }

  /** The inserted element goes ahead of every element of the same key. */
  lemma {:induction false} InsertWithKey<T>(x: T, sorted: seq<T>, key: T -> real, v: real)
    ensures WithKey(Insert(x, sorted, key), key, v) == WithKey([x], key, v) + WithKey(sorted, key, v)
  {
    if sorted == [] || key(sorted[0]) <= key(x) {
      assert Insert(x, sorted, key) == [x] + sorted;
      WithKeyAppend([x], sorted, key, v);
    } else {
      var y, tail := sorted[0], sorted[1..];
      var inserted := Insert(x, tail, key);
      InsertWithKey(x, tail, key, v);
      assert Insert(x, sorted, key) == [y] + inserted;
      HeadTail(sorted);
      InsertBehind(x, y, tail, inserted, key, v);
    }
  }

  /** Passing over an element of a greater key does not reorder the key's elements. */
  lemma InsertBehind<T>(x: T, y: T, tail: seq<T>, inserted: seq<T>, key: T -> real, v: real)
    requires key(x) < key(y)
    requires WithKey(inserted, key, v) == WithKey([x], key, v) + WithKey(tail, key, v)
    ensures WithKey([y] + inserted, key, v) == WithKey([x], key, v) + WithKey([y] + tail, key, v)
  {
    WithKeyCons(y, inserted, key, v);
    WithKeyCons(y, tail, key, v);
    WithKeyOne(x, key, v);
    if key(x) == v {
      assert WithKey([y] + inserted, key, v) == WithKey(inserted, key, v);
    } else {
      assert WithKey([x], key, v) == [];
    }
  }

  lemma WithKeyOne<T>(x: T, key: T -> real, v: real)
    ensures WithKey([x], key, v) == if key(x) == v then [x] else []
  {
    WithKeyCons(x, [], key, v);
    assert [x] + [] == [x];
  }

  lemma WithKeyCons<T>(y: T, s: seq<T>, key: T -> real, v: real)
    ensures WithKey([y] + s, key, v) == (if key(y) == v then [y] else []) + WithKey(s, key, v)
  {
    assert ([y] + s)[0] == y && ([y] + s)[1..] == s;
  }


  /** The stable sort orders by non-increasing key, permutes its input, and
      keeps the elements of each key in input order. */
  lemma {:induction false} StableSortSpec<T>(s: seq<T>, key: T -> real)
    ensures var r := StableSort(s, key);
      && NonIncreasing(r, key)
      && multiset(r) == multiset(s)
      && forall v :: WithKey(r, key, v) == WithKey(s, key, v)
  {
    if s != [] {
      var rest := StableSort(s[1..], key);
      StableSortSpec(s[1..], key);
      assert s == [s[0]] + s[1..];
      InsertSorted(s[0], rest, key);
      forall v ensures WithKey(StableSort(s, key), key, v) == WithKey(s, key, v) {
        InsertWithKey(s[0], rest, key, v);
        WithKeyAppend([s[0]], s[1..], key, v);
      }
    }
  }

  /** A prefix of a sorted sequence is sorted, holds the first elements of
      each key, and outranks everything after it. */
  lemma TakeSorted<T>(s: seq<T>, n: nat, key: T -> real)
    requires NonIncreasing(s, key)
    ensures var r := Take(s, n);
      && NonIncreasing(r, key)
      && (forall v :: WithKey(r, key, v) <= WithKey(s, key, v))
      && (forall i, j :: 0 <= i < |r| <= j < |s| ==> key(s[i]) >= key(s[j]))
  {
    var r := Take(s, n);
    assert s == r + s[|r|..];
    forall v ensures WithKey(r, key, v) <= WithKey(s, key, v) {
      WithKeyAppend(r, s[|r|..], key, v);
    }
  }

  /** The first `n` elements of the stable sort: as many as there are (at
      most `n`), all from the input, sorted, the first elements of each key in
      input order, and none left out above any kept. */
  lemma TopSorted<T>(s: seq<T>, n: nat, key: T -> real)
    ensures var r := Take(StableSort(s, key), n);
      && |r| == (if |s| < n then |s| else n)
      && (forall e :: e in r ==> e in s)
      && NonIncreasing(r, key)
      && (forall v :: WithKey(r, key, v) <= WithKey(s, key, v))
      && (forall x, y :: x in s && x !in r && y in r ==> key(y) >= key(x))
  {
    var sorted := StableSort(s, key);
    var r := Take(sorted, n);
    StableSortSpec(s, key);
    TakeSorted(sorted, n, key);
    forall e | e in r ensures e in s {
      assert e in multiset(sorted);
    }
    forall x, y | x in s && x !in r && y in r ensures key(y) >= key(x) {
      assert x in multiset(sorted);
      var k :| 0 <= k < |sorted| && sorted[k] == x;
      var j :| 0 <= j < |r| && r[j] == y;
      assert sorted[j] == y;
    }
  }

  /** What `sortByRelevance` returns: at most 20 posts, all with comments and
      from the input, in non-increasing score; the posts of each score are the
      first ones of that score in input order; and no post left out scores
      higher than one kept. */
  lemma SortByRelevanceSpec(posts: seq<Post>, productName: string)
    ensures var ranked, r, key := Commented(posts), SortByRelevance(posts, productName), RankKey(productName);
      && |r| == (if |ranked| < 20 then |ranked| else 20)
      && (forall p :: p in r ==> p in posts && p.numComments > 0)
      && NonIncreasing(r, key)
      && (forall v :: WithKey(r, key, v) <= WithKey(ranked, key, v))
      && (forall x, y :: x in ranked && x !in r && y in r ==> key(y) >= key(x))
  {
    TopSorted(Commented(posts), 20, RankKey(productName));
  }
}
