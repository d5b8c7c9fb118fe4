/** What a scan of the hook (frontend/src/hooks/useRedditScan.js) produces:
    its result and its log, as functions of what the proxies answer, which
    are parameters as in `Search` and `Comments`. */
module Scan {
  import opened Records
  import opened Outcomes
  import opened Seqs
  import opened Names
  import opened Comments
  import opened Search
  import opened Selection
  import opened Unique

  datatype Status = Idle | Scanning | Complete | Error

  datatype LogKind = InfoLog | SuccessLog | WarningLog | ErrorLog

  /** What a log line reports; the emoji and wording of the messages are not
      modelled, only what they interpolate. */
  datatype LogEvent =
    | AnalyzingInput
    | ProductIdentified(name: string)
    | SearchingCommunities
    | FoundDiscussions(count: nat)
    | NoDiscussions
    | FetchingOpinions
    | ReadingCommunity(subreddit: string, position: nat, total: nat)
    | ProcessingFeedback
    | AnalysisComplete(comments: nat)
    | ScanFailed(message: string)

  datatype LogEntry = LogEntry(event: LogEvent, kind: LogKind)

  /** The statistics of a scan; the floating-point `avgScore` is left out. */
  datatype Stats = Stats(totalPosts: nat, totalComments: nat, subreddits: seq<string>)

  datatype ScanResult = ScanResult(productName: string, posts: seq<Post>, comments: seq<TaggedComment>, stats: Stats)

  /** The comments of one post, each tagged with the post's community and title. */
  function Tag(comments: seq<Comment>, post: Post): (r: seq<TaggedComment>)
    ensures |r| == |comments|
    ensures forall k :: 0 <= k < |r| ==>
              r[k].comment == comments[k] && r[k].subreddit == post.subreddit && r[k].postTitle == post.title
  {
    if comments == [] then []
    else [TaggedComment(comments[0], post.subreddit, post.title)] + Tag(comments[1..], post)
  }

  /** All comments fetched for the chosen posts, post by post; `answers[i]`
      is what the proxies answer for the `i`-th chosen post. */
  function Collected(top: seq<Post>, answers: seq<seq<Response<CommentDoc>>>): seq<TaggedComment>
    requires |top| <= |answers|
  {
    if top == [] then []
    else
      var n := |top| - 1;
      Collected(top[..n], answers) + Tag(FetchedComments(answers[n]), top[n])
  }

  lemma CollectedStep(top: seq<Post>, answers: seq<seq<Response<CommentDoc>>>, i: nat)
    requires i < |top| <= |answers|
    ensures Collected(top[..i + 1], answers) == Collected(top[..i], answers) + Tag(FetchedComments(answers[i]), top[i])
  {
    assert top[..i + 1][..i] == top[..i];
  }

  /** Proxy answers of the right shape: one list per community searched and
      one per post whose comments may be read, each with an answer per proxy. */
  predicate WellShaped(searchAnswers: seq<seq<Response<SearchDoc>>>, commentAnswers: seq<seq<Response<CommentDoc>>>)
  {
    && |searchAnswers| == SubredditCount
    && (forall i :: 0 <= i < |searchAnswers| ==> |searchAnswers[i]| == ProxyCount)
    && |commentAnswers| == 10
    && (forall i :: 0 <= i < |commentAnswers| ==> |commentAnswers[i]| == ProxyCount)
  }

  /** The results recorded once the search returned `posts`. */
  function ResultOf(productName: string, posts: seq<Post>, commentAnswers: seq<seq<Response<CommentDoc>>>): ScanResult
    requires |commentAnswers| == 10
  {
    if posts == [] then ScanResult(productName, [], [], Stats(0, 0, []))
    else
      var all := Collected(TopPosts(posts), commentAnswers);
      ScanResult(productName, posts, Take(all, 50), Stats(|posts|, |all|, DistinctSubreddits(posts)))
  }

  /** The results a scan that does not fail records. */
  function ScanOutcome(input: string, url: ParsedUrl, searchAnswers: seq<seq<Response<SearchDoc>>>,
                       commentAnswers: seq<seq<Response<CommentDoc>>>): ScanResult
    requires |commentAnswers| == 10
  {
    ResultOf(ExtractProductName(input, url), SearchResult(input, url, searchAnswers), commentAnswers)
  }

  /** What the log reads after the input is analysed and the search starts. */
  function Opening(productName: string): seq<LogEntry>
  {
    [LogEntry(AnalyzingInput, InfoLog)] + [LogEntry(ProductIdentified(productName), SuccessLog)]
    + [LogEntry(SearchingCommunities, InfoLog)]
  }

  /** One progress line per post read, numbered from one. */
  function ReadingLogs(top: seq<Post>, n: nat): (r: seq<LogEntry>)
    requires n <= |top|
    ensures |r| == n
    ensures forall k :: 0 <= k < n ==>
              r[k] == LogEntry(ReadingCommunity(top[k].subreddit, k + 1, |top|), InfoLog)
  {
    if n == 0 then []
    else ReadingLogs(top, n - 1) + [LogEntry(ReadingCommunity(top[n - 1].subreddit, n, |top|), InfoLog)]
  }

  /** What the log gains while the comments of the chosen posts are read. */
  function OpinionLogs(posts: seq<Post>, commentAnswers: seq<seq<Response<CommentDoc>>>): seq<LogEntry>
    requires |commentAnswers| == 10
  {
    var top := TopPosts(posts);
    [LogEntry(FetchingOpinions, InfoLog)]
    + ReadingLogs(top, |top|)
    + [LogEntry(ProcessingFeedback, InfoLog)]
    + [LogEntry(AnalysisComplete(|Collected(top, commentAnswers)|), SuccessLog)]
  }

  /** What the log gains once the search returned `posts`. */
  function FoundLogs(posts: seq<Post>, commentAnswers: seq<seq<Response<CommentDoc>>>): seq<LogEntry>
    requires |commentAnswers| == 10
  {
    [LogEntry(FoundDiscussions(|posts|), SuccessLog)]
    + (if posts == [] then [LogEntry(NoDiscussions, ErrorLog)] else OpinionLogs(posts, commentAnswers))
  }

  /** The log of a scan whose search returned `posts`. */
  function SearchLogs(productName: string, posts: seq<Post>, commentAnswers: seq<seq<Response<CommentDoc>>>): seq<LogEntry>
    requires |commentAnswers| == 10
  {
    Opening(productName) + FoundLogs(posts, commentAnswers)
  }

  /** The log a scan leaves behind. */
  function ScanLogs(input: string, url: ParsedUrl, searchAnswers: seq<seq<Response<SearchDoc>>>,
                    commentAnswers: seq<seq<Response<CommentDoc>>>, fault: Option<string>): seq<LogEntry>
    requires |commentAnswers| == 10
  {
    match fault
    case Some(message) => Opening(ExtractProductName(input, url)) + [LogEntry(ScanFailed(message), ErrorLog)]
    case None => SearchLogs(ExtractProductName(input, url), SearchResult(input, url, searchAnswers), commentAnswers)
  }

  /** A coherent result: the statistics count the posts and every fetched
      comment, list the communities of the posts once each, at most fifty
      comments are kept, and each is tagged with a post of the result. */
  ghost predicate WellFormed(r: ScanResult)
  {
    && r.stats.totalPosts == |r.posts|
    && |r.comments| == (if r.stats.totalComments < 50 then r.stats.totalComments else 50)
    && (forall i, j :: 0 <= i < j < |r.stats.subreddits| ==> r.stats.subreddits[i] != r.stats.subreddits[j])
    && (forall s :: s in r.stats.subreddits <==> HasKey(r.posts, SubredditOf, s))
    && (forall c :: c in r.comments ==>
          exists p :: p in r.posts && c.subreddit == p.subreddit && c.postTitle == p.title)
  }

  /** Every collected comment is tagged with one of the posts it was fetched for. */
  lemma {:induction false} CollectedTagged(top: seq<Post>, answers: seq<seq<Response<CommentDoc>>>)
    requires |top| <= |answers|
    ensures forall c :: c in Collected(top, answers) ==>
              exists p :: p in top && c.subreddit == p.subreddit && c.postTitle == p.title
  {
    if top != [] {
      var n := |top| - 1;
      CollectedTagged(top[..n], answers);
      forall c | c in Collected(top, answers)
        ensures exists p :: p in top && c.subreddit == p.subreddit && c.postTitle == p.title
      {
        if c in Collected(top[..n], answers) {
          var p :| p in top[..n] && c.subreddit == p.subreddit && c.postTitle == p.title;
          assert p in top;
        } else {
          assert top[n] in top;
        }
      }
    }
  }

  /** Whatever the search returns, the recorded result is coherent. */
  lemma ResultWellFormed(productName: string, posts: seq<Post>, commentAnswers: seq<seq<Response<CommentDoc>>>)
    requires |commentAnswers| == 10
    ensures WellFormed(ResultOf(productName, posts, commentAnswers))
    ensures var r := ResultOf(productName, posts, commentAnswers);
      posts == [] ==> r.posts == [] && r.comments == [] && r.stats.totalComments == 0
    ensures var r, all := ResultOf(productName, posts, commentAnswers), Collected(TopPosts(posts), commentAnswers);
      posts != [] ==> r.posts == posts && r.comments <= all && r.stats.totalComments == |all|
  {
    if posts != [] {
      var top := TopPosts(posts);
      var all := Collected(top, commentAnswers);
      var r := ResultOf(productName, posts, commentAnswers);
      DistinctSubredditsSpec(posts);
      CollectedTagged(top, commentAnswers);
      TopPostsSpec(posts, "");
      forall c | c in r.comments
        ensures exists p :: p in r.posts && c.subreddit == p.subreddit && c.postTitle == p.title
      {
        assert c in all;
        var p :| p in top && c.subreddit == p.subreddit && c.postTitle == p.title;
        assert p in posts;
      }
    }
  }

  /** A failed scan, spelled out. */
  lemma FailedPath(input: string, url: ParsedUrl, searchAnswers: seq<seq<Response<SearchDoc>>>,
                   commentAnswers: seq<seq<Response<CommentDoc>>>, productName: string, message: string)
    requires |commentAnswers| == 10 && productName == ExtractProductName(input, url)
    ensures ScanLogs(input, url, searchAnswers, commentAnswers, Some(message)) ==
      Opening(productName) + [LogEntry(ScanFailed(message), ErrorLog)]
  {
  }

  /** A scan whose search returned `posts`, spelled out. */
  lemma SearchedPath(input: string, url: ParsedUrl, searchAnswers: seq<seq<Response<SearchDoc>>>,
                     commentAnswers: seq<seq<Response<CommentDoc>>>, productName: string, posts: seq<Post>)
    requires |commentAnswers| == 10 && productName == ExtractProductName(input, url)
    requires posts == SearchResult(input, url, searchAnswers)
    ensures ScanOutcome(input, url, searchAnswers, commentAnswers) == ResultOf(productName, posts, commentAnswers)
    ensures ScanLogs(input, url, searchAnswers, commentAnswers, None) ==
      Opening(productName) + FoundLogs(posts, commentAnswers)
  {
  }

  lemma OpeningFromEmpty(productName: string)
    ensures [] + [LogEntry(AnalyzingInput, InfoLog)] + [LogEntry(ProductIdentified(productName), SuccessLog)]
      + [LogEntry(SearchingCommunities, InfoLog)] == Opening(productName)
  {
    assert [] + [LogEntry(AnalyzingInput, InfoLog)] == [LogEntry(AnalyzingInput, InfoLog)];
  }

  lemma AppendThree<T>(s: seq<T>, a: seq<T>, b: seq<T>)
    ensures s + a + b == s + (a + b)
  {
  }

  lemma AppendFour<T>(s: seq<T>, a: seq<T>, b: seq<T>, c: seq<T>, d: seq<T>)
    ensures s + a + b + c + d == s + (a + b + c + d)
  {
  }

  /** Idle with nothing recorded; scanning with no result or error yet;
      complete with a coherent result; failed with a message and no result. */
  ghost predicate Consistent(status: Status, logs: seq<LogEntry>, results: Option<ScanResult>, error: Option<string>)
  {
    && (status == Idle ==> logs == [] && results == None && error == None)
    && (status == Scanning ==> results == None && error == None)
    && (status == Complete ==> results.Some? && WellFormed(results.value) && error == None)
    && (status == Error ==> results == None && error.Some?)
  }

  /** A scan log that records no failure: its only error line says that
      nothing was found. */
  ghost predicate NoFailure(logs: seq<LogEntry>)
  {
    forall k :: 0 <= k < |logs| ==>
      (logs[k].kind == ErrorLog <==> logs[k].event == NoDiscussions) && !logs[k].event.ScanFailed?
  }

  lemma NoFailureAppend(a: seq<LogEntry>, b: seq<LogEntry>)
    requires NoFailure(a) && NoFailure(b)
    ensures NoFailure(a + b)
  {
    forall k | |a| <= k < |a + b|
      ensures (a + b)[k] == b[k - |a|]
    {
    }
  }

  /** A failed scan logs four lines: the three opening ones, naming the
      product, and then the failure, the only error line. */
  lemma FailedScanLog(input: string, url: ParsedUrl, searchAnswers: seq<seq<Response<SearchDoc>>>,
                      commentAnswers: seq<seq<Response<CommentDoc>>>, message: string)
    requires |commentAnswers| == 10
    ensures var logs := ScanLogs(input, url, searchAnswers, commentAnswers, Some(message));
      && |logs| == 4
      && logs[1] == LogEntry(ProductIdentified(ExtractProductName(input, url)), SuccessLog)
      && logs[3] == LogEntry(ScanFailed(message), ErrorLog)
      && forall k :: 0 <= k < 3 ==> logs[k].kind != ErrorLog
  {
    var name := ExtractProductName(input, url);
    FailedPath(input, url, searchAnswers, commentAnswers, name, message);
    OpeningThenFailure(name, message);
  }

  lemma OpeningThenFailure(name: string, message: string)
    ensures var logs := Opening(name) + [LogEntry(ScanFailed(message), ErrorLog)];
      && |logs| == 4
      && logs[1] == LogEntry(ProductIdentified(name), SuccessLog)
      && logs[3] == LogEntry(ScanFailed(message), ErrorLog)
      && forall k :: 0 <= k < 3 ==> logs[k].kind != ErrorLog
  {
  }

  /** A scan that does not fail logs no failure; it logs the opening lines,
      how many posts were found, and then either that nothing was found or
      one reading line per chosen post between two more lines and a closing
      one. */
  lemma CompletedScanLog(input: string, url: ParsedUrl, searchAnswers: seq<seq<Response<SearchDoc>>>,
                         commentAnswers: seq<seq<Response<CommentDoc>>>)
    requires |commentAnswers| == 10
    ensures var logs, posts := ScanLogs(input, url, searchAnswers, commentAnswers, None),
                               SearchResult(input, url, searchAnswers);
      && NoFailure(logs)
      && |logs| == (if posts == [] then 5 else 7 + |TopPosts(posts)|)
      && logs[3] == LogEntry(FoundDiscussions(|posts|), SuccessLog)
  {
    var name, posts := ExtractProductName(input, url), SearchResult(input, url, searchAnswers);
    SearchedPath(input, url, searchAnswers, commentAnswers, name, posts);
    OpeningThenFound(name, posts, commentAnswers);
  }

  lemma OpeningThenFound(name: string, posts: seq<Post>, commentAnswers: seq<seq<Response<CommentDoc>>>)
    requires |commentAnswers| == 10
    ensures var logs := Opening(name) + FoundLogs(posts, commentAnswers);
      && NoFailure(logs)
      && |logs| == (if posts == [] then 5 else 7 + |TopPosts(posts)|)
      && logs[3] == LogEntry(FoundDiscussions(|posts|), SuccessLog)
  {
    var opening := Opening(name);
    assert NoFailure(opening);
    var found := FoundLogs(posts, commentAnswers);
    FoundNoFailure(posts, commentAnswers);
    NoFailureAppend(opening, found);
    assert (opening + found)[3] == found[0];
  }

  lemma FoundNoFailure(posts: seq<Post>, commentAnswers: seq<seq<Response<CommentDoc>>>)
    requires |commentAnswers| == 10
    ensures var found := FoundLogs(posts, commentAnswers);
      && NoFailure(found)
      && |found| == (if posts == [] then 2 else 4 + |TopPosts(posts)|)
      && found[0] == LogEntry(FoundDiscussions(|posts|), SuccessLog)
  {
    var head := [LogEntry(FoundDiscussions(|posts|), SuccessLog)];
    assert NoFailure(head);
    if posts == [] {
      assert NoFailure([LogEntry(NoDiscussions, ErrorLog)]);
      NoFailureAppend(head, [LogEntry(NoDiscussions, ErrorLog)]);
    } else {
      var top := TopPosts(posts);
      var reading := ReadingLogs(top, |top|);
      assert NoFailure(reading);
      var first, last := [LogEntry(FetchingOpinions, InfoLog)],
        [LogEntry(ProcessingFeedback, InfoLog)] + [LogEntry(AnalysisComplete(|Collected(top, commentAnswers)|), SuccessLog)];
      assert NoFailure(first) && NoFailure(last);
      NoFailureAppend(first, reading);
      NoFailureAppend(first + reading, last);
      assert OpinionLogs(posts, commentAnswers) == first + reading + last;
      NoFailureAppend(head, first + reading + last);
    }
  }

  /** A search that finds nothing completes at once with an empty result
      and reads no comments. */
  lemma NothingFound(input: string, url: ParsedUrl, searchAnswers: seq<seq<Response<SearchDoc>>>,
                     commentAnswers: seq<seq<Response<CommentDoc>>>)
    requires |commentAnswers| == 10
    requires forall i, k :: 0 <= i < |searchAnswers| && 0 <= k < |searchAnswers[i]| ==> !Settles(searchAnswers[i][k])
    ensures var r := ScanOutcome(input, url, searchAnswers, commentAnswers);
      r.posts == [] && r.comments == [] && r.stats == Stats(0, 0, [])
    ensures |ScanLogs(input, url, searchAnswers, commentAnswers, None)| == 5
  {
    SearchResultSpec(input, url, searchAnswers);
  }
}
