/** Choosing the posts whose comments the scan reads, and the community list
    of the statistics (frontend/src/hooks/useRedditScan.js:59-74 and 107).
    Posts are grouped by community in order of first appearance, at most two
    are taken from each group, and at most ten overall. */
module Selection {
  import opened Records
  import opened Seqs
  import opened Unique

  function SubredditOf(p: Post): string { p.subreddit }

  /** The posts of one community, in order. */
  function OfSubreddit(posts: seq<Post>, s: string): (r: seq<Post>)
    ensures |r| <= |posts|
  {
    if posts == [] then []
    else
      var last := posts[|posts| - 1];
      OfSubreddit(posts[..|posts| - 1], s) + if last.subreddit == s then [last] else []
  }

  /** A post is in its community's list exactly when it is one of the posts. */
  lemma {:induction false} OfSubredditMember(posts: seq<Post>, s: string, p: Post)
    ensures p in OfSubreddit(posts, s) <==> p in posts && p.subreddit == s
  {
    if posts != [] {
      var init, last := posts[..|posts| - 1], posts[|posts| - 1];
      assert posts == init + [last];
      OfSubredditMember(init, s, p);
    }
  }

  function Names(posts: seq<Post>): (r: seq<string>)
    ensures |r| == |posts| && forall k :: 0 <= k < |posts| ==> r[k] == posts[k].subreddit
  {
    if posts == [] then [] else Names(posts[..|posts| - 1]) + [posts[|posts| - 1].subreddit]
  }

  /** `[...new Set(posts.map(post => post.subreddit))]`: the communities in
      order of first appearance. */
  function DistinctSubreddits(posts: seq<Post>): seq<string>
  {
    Names(KeepFirst(posts, SubredditOf))
  }

  /** The community list holds each community of the posts exactly once, in
      order of first appearance. */
  lemma DistinctSubredditsSpec(posts: seq<Post>)
    ensures var r := DistinctSubreddits(posts);
      && (forall i, j :: 0 <= i < j < |r| ==> r[i] != r[j])
      && (forall s :: s in r <==> HasKey(posts, SubredditOf, s))
      && (forall t, u :: 0 <= t < u < |r| ==>
            FirstIndex(posts, SubredditOf, r[t]) < FirstIndex(posts, SubredditOf, r[u]))
  {
    var r := DistinctSubreddits(posts);
    forall i, j | 0 <= i < j < |r| ensures r[i] != r[j] {
      KeepFirstDistinct(posts, SubredditOf, i, j);
    }
    forall s ensures s in r <==> HasKey(posts, SubredditOf, s) {
      ListedIff(posts, s);
    }
    forall t, u | 0 <= t < u < |r|
      ensures HasKey(posts, SubredditOf, r[t]) && HasKey(posts, SubredditOf, r[u])
      ensures FirstIndex(posts, SubredditOf, r[t]) < FirstIndex(posts, SubredditOf, r[u])
    {
      KeepFirstOrder(posts, SubredditOf, t, u);
    }
  }

  /** A community is listed exactly when some post belongs to it. */
  lemma ListedIff(posts: seq<Post>, s: string)
    ensures s in DistinctSubreddits(posts) <==> HasKey(posts, SubredditOf, s)
  {
    var firsts := KeepFirst(posts, SubredditOf);
    KeepFirstHasKey(posts, SubredditOf, s);
    NamesHasKey(firsts, s);
  }

  lemma NamesHasKey(posts: seq<Post>, s: string)
    ensures s in Names(posts) <==> HasKey(posts, SubredditOf, s)
  {
    var r := Names(posts);
    if s in r {
      var i :| 0 <= i < |r| && r[i] == s;
      assert SubredditOf(posts[i]) == s;
    }
    if HasKey(posts, SubredditOf, s) {
      var i :| 0 <= i < |posts| && SubredditOf(posts[i]) == s;
      assert r[i] == s;
    }
  }

  /** Two posts from each community, communities in order of first appearance. */
  function PickFrom(posts: seq<Post>, names: seq<string>): seq<Post>
  {
    if names == [] then []
    else PickFrom(posts, names[..|names| - 1]) + Take(OfSubreddit(posts, names[|names| - 1]), 2)
  }

  lemma PickFromStep(posts: seq<Post>, names: seq<string>, j: nat)
    requires j < |names|
    ensures PickFrom(posts, names[..j + 1]) == PickFrom(posts, names[..j]) + Take(OfSubreddit(posts, names[j]), 2)
  {
    assert names[..j + 1][..j] == names[..j];
  }

  /** `selectedPosts`: up to two posts from every community. */
  function Selected(posts: seq<Post>): seq<Post>
  {
    PickFrom(posts, DistinctSubreddits(posts))
  }

  /** `topPosts`: the first ten of the selected posts. */
  function TopPosts(posts: seq<Post>): (r: seq<Post>)
    ensures |r| <= 10
  {
    Take(Selected(posts), 10)
  }

  /** The grouping pass: one group per community, filled in list order, and
      the communities in order of first appearance (the insertion order of
      the grouping object). */
  method GroupBySubreddit(posts: seq<Post>) returns (groups: map<string, seq<Post>>, order: seq<string>)
    ensures order == DistinctSubreddits(posts)
    ensures forall s :: s in groups <==> HasKey(posts, SubredditOf, s)
    ensures forall s :: s in groups ==> groups[s] == OfSubreddit(posts, s)
  {
    groups := map[];
    order := [];
    for i := 0 to |posts|
      invariant order == DistinctSubreddits(posts[..i])
      invariant forall s :: s in groups <==> HasKey(posts[..i], SubredditOf, s)
      invariant forall s :: s in groups ==> groups[s] == OfSubreddit(posts[..i], s)
    {
      var post := posts[i];
      assert posts[..i + 1] == posts[..i] + [post];
      GroupStep(posts[..i], post);
      if post.subreddit !in groups {
        order := order + [post.subreddit];
        groups := groups[post.subreddit := [post]];
      } else {
        groups := groups[post.subreddit := groups[post.subreddit] + [post]];
      }
    }
    assert posts[..|posts|] == posts;
  }

  /** How one more post changes the community list, the set of communities
      and the groups. */
  lemma GroupStep(seen: seq<Post>, post: Post)
    ensures DistinctSubreddits(seen + [post]) ==
      DistinctSubreddits(seen) + if HasKey(seen, SubredditOf, post.subreddit) then [] else [post.subreddit]
    ensures forall s :: HasKey(seen + [post], SubredditOf, s) <==> HasKey(seen, SubredditOf, s) || s == post.subreddit
    ensures !HasKey(seen, SubredditOf, post.subreddit) ==> OfSubreddit(seen, post.subreddit) == []
    ensures forall s ::
              OfSubreddit(seen + [post], s) == OfSubreddit(seen, s) + if post.subreddit == s then [post] else []
  {
    var all := seen + [post];
    assert all[..|all| - 1] == seen;
    forall s ensures HasKey(all, SubredditOf, s) <==> HasKey(seen, SubredditOf, s) || s == post.subreddit {
      HasKeyExtend(seen, SubredditOf, post, s);
    }
    DistinctStep(seen, post);
    if !HasKey(seen, SubredditOf, post.subreddit) {
      NoGroup(seen, post.subreddit);
    }
  }

  lemma DistinctStep(seen: seq<Post>, post: Post)
    ensures DistinctSubreddits(seen + [post]) ==
      DistinctSubreddits(seen) + if HasKey(seen, SubredditOf, post.subreddit) then [] else [post.subreddit]
  {
    var all := seen + [post];
    assert all[..|all| - 1] == seen;
    var firsts := KeepFirst(seen, SubredditOf);
    var added: seq<Post> := if HasKey(seen, SubredditOf, post.subreddit) then [] else [post];
    assert KeepFirst(all, SubredditOf) == firsts + added;
    NamesAppend(firsts, added);
  }

  /** A community no post belongs to has no posts. */
  lemma NoGroup(seen: seq<Post>, s: string)
    requires !HasKey(seen, SubredditOf, s)
    ensures OfSubreddit(seen, s) == []
  {
    var r := OfSubreddit(seen, s);
    if r != [] {
      OfSubredditMember(seen, s, r[0]);
    }
  }

  lemma NamesAppend(a: seq<Post>, b: seq<Post>)
    ensures Names(a + b) == Names(a) + Names(b)
  {
  }

  /** The selection of the scan: groups filled in one pass, then two posts
      taken from each group, then the first ten kept. */
  method SelectPosts(posts: seq<Post>) returns (top: seq<Post>)
    ensures top == TopPosts(posts)
  {
    var groups, order := GroupBySubreddit(posts);
    var selected: seq<Post> := [];
    for j := 0 to |order|
      invariant selected == PickFrom(posts, order[..j])
    {
      var name := order[j];
      PickFromStep(posts, order, j);
      ListedIff(posts, name);
      selected := selected + Take(groups[name], 2);
    }
    assert order[..|order|] == order;
    top := Take(selected, 10);
  }

  lemma {:induction false} OfSubredditAppend(a: seq<Post>, b: seq<Post>, s: string)
    ensures OfSubreddit(a + b, s) == OfSubreddit(a, s) + OfSubreddit(b, s)
  {
    if b == [] {
      assert a + b == a;
    } else {
      var init := b[..|b| - 1];
      assert (a + b)[..|a + b| - 1] == a + init;
      assert (a + b)[|a + b| - 1] == b[|b| - 1];
      OfSubredditAppend(a, init, s);
    }
  }

  lemma {:induction false} OfSubredditSame(posts: seq<Post>, s: string)
    requires forall k :: 0 <= k < |posts| ==> posts[k].subreddit == s
    ensures OfSubreddit(posts, s) == posts
  {
    if posts != [] {
      var init := posts[..|posts| - 1];
      assert forall k :: 0 <= k < |init| ==> init[k] == posts[k];
      OfSubredditSame(init, s);
    }
  }

  /** The posts taken from one community all belong to it. */
  lemma PickedSubreddit(posts: seq<Post>, name: string, k: nat)
    requires k < |Take(OfSubreddit(posts, name), 2)|
    ensures Take(OfSubreddit(posts, name), 2)[k].subreddit == name
  {
    var group := OfSubreddit(posts, name);
    assert Take(group, 2)[k] == group[k];
    OfSubredditMember(posts, name, group[k]);
  }

  /** Picking from distinct communities takes the first two posts of each
      picked community and nothing from the others. */
  lemma {:induction false} PickFromPerSubreddit(posts: seq<Post>, names: seq<string>, s: string)
    requires forall i, j :: 0 <= i < j < |names| ==> names[i] != names[j]
    ensures OfSubreddit(PickFrom(posts, names), s) ==
      if s in names then Take(OfSubreddit(posts, s), 2) else []
  {
    if names != [] {
      var init, last := names[..|names| - 1], names[|names| - 1];
      assert names == init + [last];
      PickFromPerSubreddit(posts, init, s);
      var picked := Take(OfSubreddit(posts, last), 2);
      OfSubredditAppend(PickFrom(posts, init), picked, s);
      PickedOne(posts, last, s);
    }
  }

  lemma PickedOne(posts: seq<Post>, name: string, s: string)
    ensures OfSubreddit(Take(OfSubreddit(posts, name), 2), s) ==
      if name == s then Take(OfSubreddit(posts, name), 2) else []
  {
    var picked := Take(OfSubreddit(posts, name), 2);
    forall k | 0 <= k < |picked| ensures picked[k].subreddit == name {
      PickedSubreddit(posts, name, k);
    }
    if name == s {
      OfSubredditSame(picked, s);
    } else {
      NoGroup(picked, s);
    }
  }

  /** The selection takes exactly the first two posts of every community. */
  lemma SelectedPerSubreddit(posts: seq<Post>, s: string)
    ensures OfSubreddit(Selected(posts), s) == Take(OfSubreddit(posts, s), 2)
  {
    var names := DistinctSubreddits(posts);
    DistinctSubredditsSpec(posts);
    PickFromPerSubreddit(posts, names, s);
    if s !in names {
      NoGroup(posts, s);
    }
  }

  /** Every selected post is one of the posts. */
  lemma SelectedFromPosts(posts: seq<Post>, p: Post)
    requires p in Selected(posts)
    ensures p in posts
  {
    var s := p.subreddit;
    SelectedPerSubreddit(posts, s);
    OfSubredditMember(Selected(posts), s, p);
    OfSubredditMember(posts, s, p);
  }

  /** The posts whose comments are read: at most ten, at most two from any
      community, each the first or second post of its community in the
      ranked list. */
  lemma TopPostsSpec(posts: seq<Post>, s: string)
    ensures var top := TopPosts(posts);
      && |top| <= 10
      && OfSubreddit(top, s) <= Take(OfSubreddit(posts, s), 2)
      && (forall p :: p in top ==> p in posts)
  {
    TopPerSubreddit(posts, s);
    forall p | p in TopPosts(posts) ensures p in posts {
      SelectedFromPosts(posts, p);
    }
  }

  lemma TopPerSubreddit(posts: seq<Post>, s: string)
    ensures OfSubreddit(TopPosts(posts), s) <= Take(OfSubreddit(posts, s), 2)
  {
    var selected := Selected(posts);
    var top := TopPosts(posts);
    SelectedPerSubreddit(posts, s);
    assert selected == top + selected[|top|..];
    OfSubredditAppend(top, selected[|top|..], s);
  }
}
