/** Searching the communities for a product (`searchSubreddit` and
    `searchProduct`, frontend/src/services/redditService.js:49-140). What a
    proxy answers is a parameter: one `Response` per proxy attempt. */
module Search {
  import opened Records
  import opened Outcomes
  import opened Unique
  import opened Names
  import opened Ranking
  import opened Comments

  const BaseUrl: string := "https://www.reddit.com"

  /** The communities searched, in order. */
  const Subreddits: seq<string> := [
    "BuyItForLife", "reviews", "gadgets", "technology", "headphones",
    "MechanicalKeyboards", "buildapc", "frugal", "ProductPorn", "LinusTechTips",
    "MKBHD", "UnboxTherapy", "hardware", "TechNewsToday", "TechReviews",
    "pcmasterrace", "Android", "apple", "GooglePixel", "samsung",
    "laptops", "monitors", "audiophile", "BudgetAudiophile"]

  /** How many communities are searched. */
  const SubredditCount: nat := 24

  lemma SubredditCountIs()
    ensures |Subreddits| == SubredditCount
  {
  }

  /** The `data` of one search hit as the listing delivers it. */
  datatype RawPost = RawPost(
    id: string,
    title: string,
    url: string,
    permalink: string,
    score: int,
    numComments: int,
    createdUtc: int,
    subreddit: string,
    author: string,
    selftext: string)

  /** A decoded search document: a listing with `data.children`, or anything
      else (missing `data` or `children`, or a child without `data`), which
      throws. */
  datatype SearchDoc = Listing(children: seq<RawPost>) | Invalid

  /** The post built from a hit: its permalink becomes an absolute link. */
  function ToPost(raw: RawPost): (p: Post)
    ensures p.id == raw.id && p.subreddit == raw.subreddit && p.numComments == raw.numComments
    ensures p.permalink == BaseUrl + raw.permalink
  {
    Post(raw.id, raw.title, raw.url, BaseUrl + raw.permalink, raw.score, raw.numComments,
         raw.createdUtc, raw.subreddit, raw.author, raw.selftext)
  }

  function ToPosts(raws: seq<RawPost>): (ps: seq<Post>)
    ensures |ps| == |raws| && forall k :: 0 <= k < |raws| ==> ps[k] == ToPost(raws[k])
  {
    if raws == [] then [] else [ToPost(raws[0])] + ToPosts(raws[1..])
  }

  /** The posts of the first proxy attempt that returns a valid listing. */
  function FirstListing(responses: seq<Response<SearchDoc>>): Option<seq<Post>>
  {
    if responses == [] then None
    else match responses[0]
      case Ok(Listing(children)) => Some(ToPosts(children))
      case _ => FirstListing(responses[1..])
  }

  /** What `searchSubreddit` resolves to: the first valid listing, or the
      error it throws once every proxy has failed. */
  function SearchOutcome(subreddit: string, responses: seq<Response<SearchDoc>>): Result<seq<Post>, string>
  {
    match FirstListing(responses)
    case Some(posts) => Success(posts)
    case None => Failure("All CORS proxies failed for r/" + subreddit)
  }

  predicate Settles(r: Response<SearchDoc>)
  {
    r.Ok? && r.body.Listing?
  }

  /** `searchSubreddit`: try the proxies in order; a response that is not
      ok, that throws or that is not a listing moves on to the next proxy. */
  method SearchSubreddit(subreddit: string, responses: seq<Response<SearchDoc>>)
    returns (result: Result<seq<Post>, string>, attempts: nat)
    requires |responses| == ProxyCount
    ensures result == SearchOutcome(subreddit, responses)
    ensures 1 <= attempts <= ProxyCount
    ensures forall k :: 0 <= k < attempts - 1 ==> !Settles(responses[k])
    ensures result.Success? <==> Settles(responses[attempts - 1])
    ensures result.Success? ==> result.value == ToPosts(responses[attempts - 1].body.children)
    ensures result.Failure? ==> attempts == ProxyCount
  {
    ProxyCountIs();
    var i := 0;
    while i < |CorsProxies|
      invariant 0 <= i <= |CorsProxies|
      invariant forall k :: 0 <= k < i ==> !Settles(responses[k])
      invariant FirstListing(responses) == FirstListing(responses[i..])
    {
      assert responses[i..][1..] == responses[i + 1..];
      attempts := i + 1;
      match responses[i] {
        case Ok(Listing(children)) =>
          var posts := ToPosts(children);
          return Success(posts), attempts;
        case _ =>
      }
      i := i + 1;
    }
    assert responses[i..] == [];
    attempts := |CorsProxies|;
    result := Failure("All CORS proxies failed for r/" + subreddit);
  }

  /** The search fails exactly when no proxy returns a valid listing. */
  lemma {:induction false} SearchFailsIffNoListing(subreddit: string, responses: seq<Response<SearchDoc>>)
    ensures SearchOutcome(subreddit, responses).Failure? <==>
      forall k :: 0 <= k < |responses| ==> !Settles(responses[k])
  {
    if responses != [] {
      SearchFailsIffNoListing(subreddit, responses[1..]);
      assert forall k :: 1 <= k < |responses| ==> responses[k] == responses[1..][k - 1];
    }
  }

  /** The posts every community contributes, in community order; a community
      whose search fails contributes none. */
  function Gathered(responses: seq<seq<Response<SearchDoc>>>): seq<Post>
  {
    if responses == [] then []
    else
      var last := match FirstListing(responses[|responses| - 1])
        case Some(posts) => posts
        case None => [];
      Gathered(responses[..|responses| - 1]) + last
  }

  /** What `searchProduct` resolves to, given what every proxy answers for
      every community. */
  function SearchResult(input: string, url: ParsedUrl, responses: seq<seq<Response<SearchDoc>>>): seq<Post>
  {
    SortByRelevance(KeepFirst(Gathered(responses), PostId), ExtractProductName(input, url))
  }

  /** `searchProduct`: search each community in turn, skip the ones that
      fail, then de-duplicate and rank. */
  method SearchProduct(input: string, url: ParsedUrl, responses: seq<seq<Response<SearchDoc>>>)
    returns (posts: seq<Post>)
    requires |responses| == SubredditCount
    requires forall i :: 0 <= i < |responses| ==> |responses[i]| == ProxyCount
    ensures posts == SearchResult(input, url, responses)
  {
    SubredditCountIs();
    var productName := ExtractProductName(input, url);
    var allPosts: seq<Post> := [];
    for i := 0 to |Subreddits|
      invariant allPosts == Gathered(responses[..i])
    {
      assert responses[..i + 1][..i] == responses[..i];
      var result, _ := SearchSubreddit(Subreddits[i], responses[i]);
      match result {
        case Success(found) =>
          allPosts := allPosts + found;
        case Failure(_) =>
      }
    }
    assert responses[..|Subreddits|] == responses;
    var uniquePosts := RemoveDuplicates(allPosts);
    posts := SortByRelevance(uniquePosts, productName);
  }

  /** `p` was built from a hit of a listing some proxy returned for some community. */
  ghost predicate FoundIn(responses: seq<seq<Response<SearchDoc>>>, p: Post)
  {
    exists i, k ::
      && 0 <= i < |responses| && 0 <= k < |responses[i]| && Settles(responses[i][k])
      && p in ToPosts(responses[i][k].body.children)
  }

  /** Every gathered post was built from a hit of a listing some proxy returned. */
  lemma {:induction false} GatheredFromListings(responses: seq<seq<Response<SearchDoc>>>, p: Post)
    requires p in Gathered(responses)
    ensures FoundIn(responses, p)
  {
    var n := |responses| - 1;
    var init := responses[..n];
    if p in Gathered(init) {
      GatheredFromListings(init, p);
      var i, k :| 0 <= i < |init| && 0 <= k < |init[i]| && Settles(init[i][k])
        && p in ToPosts(init[i][k].body.children);
      assert responses[i] == init[i];
    } else {
      FirstListingFrom(responses[n]);
      var k :| 0 <= k < |responses[n]| && Settles(responses[n][k])
        && FirstListing(responses[n]) == Some(ToPosts(responses[n][k].body.children));
    }
  }

  /** A community whose search succeeds contributes every post of its
      listing, whatever the other communities answer: a failing community
      does not stop the loop. */
  lemma {:induction false} ListingGathered(responses: seq<seq<Response<SearchDoc>>>, i: nat, p: Post)
    requires i < |responses| && FirstListing(responses[i]).Some?
    requires p in FirstListing(responses[i]).value
    ensures p in Gathered(responses)
  {
    var n := |responses| - 1;
    if i < n {
      assert responses[..n][i] == responses[i];
      ListingGathered(responses[..n], i, p);
    }
  }

  lemma {:induction false} FirstListingFrom(rs: seq<Response<SearchDoc>>)
    ensures FirstListing(rs).Some? ==>
      exists k :: 0 <= k < |rs| && Settles(rs[k]) && FirstListing(rs) == Some(ToPosts(rs[k].body.children))
  {
    if rs != [] && !Settles(rs[0]) {
      FirstListingFrom(rs[1..]);
      if FirstListing(rs).Some? {
        var k :| 0 <= k < |rs[1..]| && Settles(rs[1..][k])
          && FirstListing(rs[1..]) == Some(ToPosts(rs[1..][k].body.children));
        assert rs[k + 1] == rs[1..][k];
      }
    }
  }

  /** When every community's search fails, nothing is found. */
  lemma {:induction false} NothingGathered(responses: seq<seq<Response<SearchDoc>>>)
    requires forall i, k :: 0 <= i < |responses| && 0 <= k < |responses[i]| ==> !Settles(responses[i][k])
    ensures Gathered(responses) == []
  {
    if responses != [] {
      var n := |responses| - 1;
      SearchFailsIffNoListing("", responses[n]);
      NothingGathered(responses[..n]);
    }
  }

  /** What `searchProduct` resolves to: at most 20 posts, each with comments
      and built from a hit some community's listing returned; with no listing
      at all, nothing. */
  lemma SearchResultSpec(input: string, url: ParsedUrl, responses: seq<seq<Response<SearchDoc>>>)
    ensures var posts := SearchResult(input, url, responses);
      && |posts| <= 20
      && (forall p :: p in posts ==> p.numComments > 0 && FoundIn(responses, p))
      && ((forall i, k :: 0 <= i < |responses| && 0 <= k < |responses[i]| ==> !Settles(responses[i][k]))
            ==> posts == [])
  {
    var gathered := Gathered(responses);
    var unique := KeepFirst(gathered, PostId);
    var name := ExtractProductName(input, url);
    SortByRelevanceSpec(unique, name);
    KeepFirstKeepsFirsts(gathered, PostId);
    forall p | p in SearchResult(input, url, responses)
      ensures FoundIn(responses, p)
    {
      var t :| 0 <= t < |unique| && unique[t] == p;
      GatheredFromListings(responses, p);
    }
    if forall i, k :: 0 <= i < |responses| && 0 <= k < |responses[i]| ==> !Settles(responses[i][k]) {
      NothingGathered(responses);
      assert unique == [];
    }
  }
}
