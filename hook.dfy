/** The scan hook (frontend/src/hooks/useRedditScan.js) as an object: a
    status machine holding the log, the results and the error of the latest
    scan, whose steps are specified by the functions of `Scan`. */
module Hook {
  import opened Records
  import opened Outcomes
  import opened Seqs
  import opened Names
  import opened Comments
  import opened Search
  import opened Selection
  import opened Scan

  /** The state of the hook. */
  class Scanner {
    var status: Status
    var logs: seq<LogEntry>
    var results: Option<ScanResult>
    var error: Option<string>

    ghost predicate Valid()
      reads this
    {
      Consistent(status, logs, results, error)
    }

    constructor()
      ensures Valid()
      ensures status == Idle && logs == [] && results == None && error == None
    {
      status := Idle;
      logs := [];
      results := None;
      error := None;
    }

    /** `addLog`, called only while a scan runs: append one line; nothing
        else changes. */
    method AddLog(event: LogEvent, kind: LogKind)
      requires Valid() && status == Scanning
      modifies this
      ensures Valid()
      ensures logs == old(logs) + [LogEntry(event, kind)]
      ensures status == old(status) && results == old(results) && error == old(error)
    {
      logs := logs + [LogEntry(event, kind)];
    }

    /** `startScan`. `fault` stands for an exception escaping the search
        (`None` when there is none). */
    method StartScan(input: string, url: ParsedUrl, searchAnswers: seq<seq<Response<SearchDoc>>>,
                     commentAnswers: seq<seq<Response<CommentDoc>>>, fault: Option<string>)
      requires WellShaped(searchAnswers, commentAnswers)
      modifies this
      ensures Valid()
      ensures fault.Some? ==> status == Error && error == fault && results == None
      ensures fault.None? ==>
                status == Complete && error == None
                && results == Some(ScanOutcome(input, url, searchAnswers, commentAnswers))
      ensures logs == ScanLogs(input, url, searchAnswers, commentAnswers, fault)
    {
      Begin();
      AddLog(AnalyzingInput, InfoLog);
      var productName := ExtractProductName(input, url);
      AddLog(ProductIdentified(productName), SuccessLog);
      AddLog(SearchingCommunities, InfoLog);
      OpeningFromEmpty(productName);
      match fault {
        case Some(message) =>
          Fail(productName, message);
          FailedPath(input, url, searchAnswers, commentAnswers, productName, message);
        case None =>
          Search(input, url, searchAnswers, commentAnswers, productName);
      }
    }

    /** The start of `startScan`: scanning, with the log, the error and the
        results cleared, which is what the view shows while the scan runs. */
    method Begin()
      modifies this
      ensures Valid()
      ensures status == Scanning && logs == [] && results == None && error == None
    {
      status := Scanning;
      logs := [];
      error := None;
      results := None;
    }

    /** An exception escaped the search: log it, record the message and fail. */
    method Fail(productName: string, message: string)
      requires status == Scanning && logs == Opening(productName) && results == None && error == None
      modifies this
      ensures Valid()
      ensures status == Error && error == Some(message) && results == None
      ensures logs == Opening(productName) + [LogEntry(ScanFailed(message), ErrorLog)]
    {
      AddLog(ScanFailed(message), ErrorLog);
      error := Some(message);
      status := Error;
    }

    /** Search the communities, then conclude from what was found. */
    method Search(input: string, url: ParsedUrl, searchAnswers: seq<seq<Response<SearchDoc>>>,
                  commentAnswers: seq<seq<Response<CommentDoc>>>, productName: string)
      requires WellShaped(searchAnswers, commentAnswers) && productName == ExtractProductName(input, url)
      requires status == Scanning && logs == Opening(productName) && results == None && error == None
      modifies this
      ensures Valid()
      ensures status == Complete && error == None
      ensures results == Some(ScanOutcome(input, url, searchAnswers, commentAnswers))
      ensures logs == ScanLogs(input, url, searchAnswers, commentAnswers, None)
    {
      var posts := SearchProduct(input, url, searchAnswers);
      SearchedPath(input, url, searchAnswers, commentAnswers, productName, posts);
      Conclude(productName, posts, commentAnswers);
    }

    /** The rest of `startScan` once the search returned `posts`: an empty
        search completes at once, otherwise the opinions are read. */
    method Conclude(productName: string, posts: seq<Post>, commentAnswers: seq<seq<Response<CommentDoc>>>)
      requires |commentAnswers| == 10
      requires forall i :: 0 <= i < |commentAnswers| ==> |commentAnswers[i]| == ProxyCount
      requires status == Scanning && results == None && error == None
      modifies this
      ensures Valid()
      ensures status == Complete && error == None && results == Some(ResultOf(productName, posts, commentAnswers))
      ensures logs == old(logs) + FoundLogs(posts, commentAnswers)
    {
      ghost var start := logs;
      AddLog(FoundDiscussions(|posts|), SuccessLog);
      if |posts| == 0 {
        AddLog(NoDiscussions, ErrorLog);
        var empty := ScanResult(productName, [], [], Stats(0, 0, []));
        assert empty == ResultOf(productName, posts, commentAnswers);
        ResultWellFormed(productName, posts, commentAnswers);
        Finish(empty);
        AppendThree(start, [LogEntry(FoundDiscussions(|posts|), SuccessLog)], [LogEntry(NoDiscussions, ErrorLog)]);
        return;
      }

      var processed := ReadOpinions(productName, posts, commentAnswers);
      ResultWellFormed(productName, posts, commentAnswers);
      Finish(processed);
      AppendThree(start, [LogEntry(FoundDiscussions(|posts|), SuccessLog)], OpinionLogs(posts, commentAnswers));
    }

    /** Record a coherent result and complete; the log is left alone. */
    method Finish(processed: ScanResult)
      requires WellFormed(processed) && error == None
      modifies this
      ensures Valid()
      ensures status == Complete && results == Some(processed) && logs == old(logs) && error == old(error)
    {
      results := Some(processed);
      status := Complete;
    }

    /** The part of `startScan` after posts were found: choose the posts, read
        their comments, and build the result. */
    method ReadOpinions(productName: string, posts: seq<Post>, commentAnswers: seq<seq<Response<CommentDoc>>>)
      returns (processed: ScanResult)
      requires |commentAnswers| == 10
      requires forall i :: 0 <= i < |commentAnswers| ==> |commentAnswers[i]| == ProxyCount
      requires posts != []
      requires status == Scanning && results == None && error == None
      modifies this
      ensures processed == ResultOf(productName, posts, commentAnswers)
      ensures logs == old(logs) + OpinionLogs(posts, commentAnswers)
      ensures status == old(status) && results == old(results) && error == old(error)
    {
      ghost var start := logs;
      AddLog(FetchingOpinions, InfoLog);
      var top := SelectPosts(posts);
      var allComments := ReadComments(top, commentAnswers);
      AddLog(ProcessingFeedback, InfoLog);
      processed := ScanResult(productName, posts, Take(allComments, 50),
                              Stats(|posts|, |allComments|, DistinctSubreddits(posts)));
      AddLog(AnalysisComplete(|allComments|), SuccessLog);
      AppendFour(start, [LogEntry(FetchingOpinions, InfoLog)], ReadingLogs(top, |top|),
                 [LogEntry(ProcessingFeedback, InfoLog)], [LogEntry(AnalysisComplete(|allComments|), SuccessLog)]);
    }

    /** The comment-reading loop of `startScan`: one progress line and one
        fetch per chosen post; `getPostComments` never throws, so the warning
        branch is never taken. */
    method ReadComments(top: seq<Post>, commentAnswers: seq<seq<Response<CommentDoc>>>)
      returns (allComments: seq<TaggedComment>)
      requires |top| <= |commentAnswers|
      requires forall i :: 0 <= i < |commentAnswers| ==> |commentAnswers[i]| == ProxyCount
      requires status == Scanning && results == None && error == None
      modifies this
      ensures allComments == Collected(top, commentAnswers)
      ensures logs == old(logs) + ReadingLogs(top, |top|)
      ensures status == old(status) && results == old(results) && error == old(error)
    {
      allComments := [];
      for i := 0 to |top|
        invariant allComments == Collected(top[..i], commentAnswers)
        invariant logs == old(logs) + ReadingLogs(top, i)
        invariant status == old(status) && results == old(results) && error == old(error)
      {
        CollectedStep(top, commentAnswers, i);
        AddLog(ReadingCommunity(top[i].subreddit, i + 1, |top|), InfoLog);
        AppendThree(old(logs), ReadingLogs(top, i), [LogEntry(ReadingCommunity(top[i].subreddit, i + 1, |top|), InfoLog)]);
        var comments, _ := GetPostComments(commentAnswers[i]);
        allComments := allComments + Tag(comments, top[i]);
      }
      assert top[..|top|] == top;
    }

    /** `reset`: back to idle with nothing recorded. */
    method Reset()
      modifies this
      ensures Valid()
      ensures status == Idle && logs == [] && results == None && error == None
    {
      status := Idle;
      logs := [];
      results := None;
      error := None;
    }
  }
}
