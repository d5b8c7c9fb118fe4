# condour scan core in Dafny

This project models the scan pipeline of the condour front end. Given a product name or a product URL, it looks for opinions about the product in two dozen Reddit communities. It does this in three parts.

- **The Reddit service** (`frontend/src/services/redditService.js`).
  - The product name is extracted from the input. A bare phrase is trimmed; an Amazon `/<slug>/dp/<id>` URL gives its cleaned slug; any other URL gives its cleaned last path segment.
  - Each of the 24 communities is searched through a chain of three CORS proxies. A community whose search fails is skipped.
  - The hits are de-duplicated by post id. They are then ranked by title relevance × engagement × community bonus, and at most 20 posts that have comments are kept.
  - A post's comment tree is fetched through the same proxy chain and flattened in pre-order with a depth on each comment.
- **The scan hook** (`frontend/src/hooks/useRedditScan.js`).
  - It is a small state machine with a status (idle, scanning, complete, error), a log, the results and an error message.
  - A scan groups the posts by community and keeps at most two per community and ten overall. It reads their comments and tags each comment with its post. It keeps at most fifty comments and records the statistics.
- **The results view** (`frontend/src/components/RedditResults.jsx:13-50`).
  - Each post and comment gets a keyword sentiment verdict.
  - The verdicts are tallied and turned into rounded percentages.

The browser and the network are not modelled. What `new URL(...)` gives and what each proxy answers for each request are parameters: a `ParsedUrl` and one `Response` per proxy attempt. Downstream of those inputs the model follows the code, except where a line under "## Left out" says otherwise. The model's files are:

- `Outcomes` (`Option`, `Result`) and `Records` (`Post`, `Node`, `Comment`, `TaggedComment`) hold the data.
- `Text`: ASCII case, whitespace, `includes`, `trim`, `split`.
- `Seqs` (`Take`, i.e. `slice(0, n)`) and `Unique` (first-occurrence de-duplication by a key) are generic.
- `Names`: name extraction.
- `Ranking`: de-duplication, relevance, stable ranking.
- `Comments`: comment trees and their fetch.
- `Search`: community search.
- `Selection`: grouping and choosing posts.
- `Scan`: the result and log of a scan, as functions.
- `Hook`: the hook as the class `Scanner`.
- `Sentiment`: verdicts, tally, percentages.

The code is imperative in these places, and the model is too:
- the `for` and `forEach` loops (`RemoveDuplicates`, `CalculateRelevance`, `ExtractComments`, the proxy loops, `SearchProduct`, `GroupBySubreddit`, `SelectPosts`, `ReadComments`, `AnalyzeSentiment`, `TallySentiment`) are methods with loop invariants;
- the hook's state is a class whose methods update its fields.

Each method is proved against a function that specifies it. Properties of those functions are proved as lemmas; what the model does not promise is listed under "## Left out".

## Model

Source paths are under `frontend/src/`: `services/redditService.js`, `hooks/useRedditScan.js` and `components/RedditResults.jsx`.

| member | source | states |
|---|---|---|
| Text.Lower | frontend/src/services/redditService.js:237-238 | lower-casing keeps the length and maps every character through ASCII `toLowerCase` |
| Text.LowerIdempotent | frontend/src/services/redditService.js:237-238 | lower-casing an already lower-cased string changes nothing |
| Text.ContainsIff | frontend/src/services/redditService.js:244 | `includes` holds exactly when the needle occurs at some position |
| Text.ContainsTransitive | frontend/src/services/redditService.js:244-248 | if a contains b and b contains c, then a contains c |
| Text.Trim | frontend/src/services/redditService.js:45 | `trim` gives the slice of the input left when only whitespace is cut from both ends, and the result neither starts nor ends with whitespace |
| Text.TrimUntouched | frontend/src/services/redditService.js:45 | a string without surrounding whitespace is left as it is by `trim` |
| Text.SplitPiecesOccur | frontend/src/services/redditService.js:239 | every piece of `split(' ')` occurs in the split string |
| Text.SplitFirstIsPrefix | frontend/src/services/redditService.js:239 | the first piece of a split is a prefix of the string |
| Text.SplitAt | frontend/src/services/redditService.js:239 | splitting at one occurrence of the separator gives the pieces of the left side followed by those of the right side |
| Text.SplitNoSeparator | frontend/src/services/redditService.js:239 | a string without the separator splits into itself alone |
| Names.ReplaceChar | frontend/src/services/redditService.js:41-42 | a global one-character replace keeps the length and changes exactly the occurrences of that character |
| Names.KeepWordChars | frontend/src/services/redditService.js:43 | deleting `[^a-zA-Z0-9\s]` leaves only letters, digits and whitespace, all taken from the input, and leaves a string of such characters as it is |
| Names.KeepWordCharsAppend | frontend/src/services/redditService.js:43 | the deletion works piece by piece, so the kept characters stay in input order; with the row above this determines the result |
| Names.CollapseSpaces | frontend/src/services/redditService.js:44 | after collapsing `\s+` to one space, whitespace appears only as single spaces, never two in a row, and the first character is kept or becomes that space |
| Names.CollapseRun | frontend/src/services/redditService.js:44 | a run of whitespace becomes exactly one space |
| Names.CollapseAppend | frontend/src/services/redditService.js:44 | collapsing works piece by piece wherever the cut is not inside a run of whitespace, so non-space characters are kept in order and each run collapses on its own |
| Names.CleanProductName | frontend/src/services/redditService.js:39-46 | a cleaned name consists of letters, digits and single inner spaces, with no space at either end |
| Names.CleanFixesCleanNames | frontend/src/services/redditService.js:39-46 | cleaning a name that is already clean changes nothing |
| Names.CleanIdempotent | frontend/src/services/redditService.js:39-46 | cleaning twice gives the same as cleaning once |
| Names.CleanAfterSpacing | frontend/src/services/redditService.js:41-46 | when turning `-` and `_` into spaces already gives a clean name, that is the cleaned name |
| Names.SlugEndUnique | frontend/src/services/redditService.js:25 | a match of `/([^/]+)/dp/[A-Z0-9]{10}` starting at a given slash has only one possible end of its captured slug |
| Names.FindAmazonSlug | frontend/src/services/redditService.js:25 | the search finds the leftmost match of the product-page pattern, or reports that there is none |
| Names.SegmentsOfPiece | frontend/src/services/redditService.js:30 | a path without `/` is one segment, or none when it is empty |
| Names.SegmentsAt | frontend/src/services/redditService.js:30 | the segments on either side of a `/` follow one another, so the segments are the non-empty `/`-separated pieces of the path, in order |
| Names.ExtractProductName | frontend/src/services/redditService.js:15-37 | input with neither "http" nor "." is trimmed; a URL that does not parse gives the trimmed input; every result is the trimmed input or a clean name |
| Names.AmazonRule | frontend/src/services/redditService.js:23-27 | on an Amazon host, the result is the cleaned slug captured by the leftmost match of the product-page pattern |
| Names.PathRule | frontend/src/services/redditService.js:29-36 | without such a match: the cleaned last non-empty path segment, or the trimmed input when the path has none (the `undefined` segment throws inside the `try`) |
| Names.AmazonExample | frontend/src/services/redditService.js:15-37 | `https://amazon.com/sony-wh1000xm5/dp/B0CCZ1L489` yields the name "sony wh1000xm5" |
| Ranking.RemoveDuplicates | frontend/src/services/redditService.js:195-202 | the seen-set filter loop keeps the first post with each id, in order |
| Ranking.RemoveDuplicatesSpec | frontend/src/services/redditService.js:195-202 | the de-duplicated posts have pairwise distinct ids and exactly the ids of the input, one post per distinct id; each is the first post with its id, in the order of first occurrence |
| Unique.KeepFirstHasKey | frontend/src/services/redditService.js:195-202 | de-duplication loses no key and adds none |
| Unique.KeepFirstLength | frontend/src/services/redditService.js:195-202 | de-duplication keeps exactly as many elements as there are distinct keys |
| Ranking.CalculateRelevance | frontend/src/services/redditService.js:236-252 | the word-scoring loop gives the relevance, which is at least 1 and at most 10 + 2 per word of the product name |
| Ranking.RelevanceIgnoresCase | frontend/src/services/redditService.js:237-238 | relevance does not depend on letter case |
| Ranking.RelevanceOfFullMatch | frontend/src/services/redditService.js:243-249 | a title containing the whole product name gets the maximal relevance, 10 + 2 per word |
| Ranking.Commented | frontend/src/services/redditService.js:218 | exactly the posts with at least one comment are kept, and no more posts than were given |
| Ranking.CommentedAppend | frontend/src/services/redditService.js:218 | the filter works post by post, so kept posts stay in input order with their multiplicity |
| Ranking.StableSortSpec | frontend/src/services/redditService.js:219-232 | sorting by the comparator `bFinal - aFinal` gives a non-increasing permutation in which posts with equal final score keep their order |
| Ranking.TopSorted | frontend/src/services/redditService.js:219-233 | taking the first n of the sorted posts keeps min(n, count) posts from the input, in non-increasing order, none ranked below a post left out |
| Ranking.SortByRelevanceSpec | frontend/src/services/redditService.js:204-234 | the ranking keeps min(20, number of posts with comments) posts, all from the input with comments, by non-increasing final score, stable, with no dropped post scoring higher than a kept one |
| Comments.ToComment | frontend/src/services/redditService.js:175-182 | a kept child becomes a comment with its body and the current depth |
| Comments.ExtractComments | frontend/src/services/redditService.js:170-193 | the recursive loop emits the pre-order flattening of the kept comments and their replies |
| Comments.FlattenAppend | frontend/src/services/redditService.js:173-190 | flattening two lists of children is flattening each in turn |
| Comments.FlattenComments | frontend/src/services/redditService.js:174 | every emitted comment has a body that is neither empty nor `[deleted]`, at a depth at least the starting one |
| Comments.FlattenFromKept | frontend/src/services/redditService.js:173-188 | every emitted comment is made, at its own depth, from a child of kind `t1` with a body that is neither empty nor `[deleted]`, reached only through children that were themselves kept |
| Comments.SkippedSubtree | frontend/src/services/redditService.js:174-188 | a child that is not a `t1` thing with a real body contributes nothing: neither it nor any reply below it is emitted |
| Comments.FlattenSize | frontend/src/services/redditService.js:170-193 | no more comments are emitted than there are nodes in the tree |
| Comments.FlattenWellNested | frontend/src/services/redditService.js:170-193 | the emitted depths form a pre-order: the first comment is at the starting depth, none is above it, and each is at most one level deeper than the comment before it |
| Comments.FlattenTopLevel | frontend/src/services/redditService.js:173-182 | the comments at the starting depth are exactly the kept top-level children, in order |
| Comments.CommentAttempt | frontend/src/services/redditService.js:152-159 | an attempt settles exactly when the response is ok and the body can be read |
| Comments.GetPostComments | frontend/src/services/redditService.js:143-168 | proxies are tried in order until one settles: an array shorter than two gives no comments, a thread gives its flattening, and all three failing gives no comments |
| Comments.FetchedFromSomeThread | frontend/src/services/redditService.js:143-168 | fetched comments are none, or the flattening of a thread some proxy returned |
| Comments.NoProxySettles | frontend/src/services/redditService.js:166-167 | when no proxy settles, the result is empty |
| Search.ToPost | frontend/src/services/redditService.js:119-131 | a hit keeps its id, community and comment count, and its permalink becomes absolute under `https://www.reddit.com` |
| Search.ToPosts | frontend/src/services/redditService.js:119-131 | one post per hit, in listing order |
| Search.SearchSubreddit | frontend/src/services/redditService.js:96-140 | proxies are tried in order; the first valid listing gives its posts; the search fails only after all three proxies failed, with the community named in the error |
| Search.SearchFailsIffNoListing | frontend/src/services/redditService.js:100-139 | a community's search fails if and only if no proxy returns a valid listing |
| Search.SearchProduct | frontend/src/services/redditService.js:49-94 | the search loop skips the communities that fail, then de-duplicates and ranks what was gathered |
| Search.GatheredFromListings | frontend/src/services/redditService.js:80-90 | every gathered post comes from a hit in a listing some proxy returned |
| Search.ListingGathered | frontend/src/services/redditService.js:82-90 | every post of a community whose search succeeds is gathered, whatever the other communities answer: a failing community does not stop the loop |
| Search.NothingGathered | frontend/src/services/redditService.js:82-90 | when every community fails, nothing is gathered |
| Search.SearchResultSpec | frontend/src/services/redditService.js:49-94 | the search gives at most 20 posts, each with comments and from some returned listing, and none when no listing was returned |
| Selection.OfSubredditMember | frontend/src/hooks/useRedditScan.js:60-66 | a community's group holds exactly the posts of that community |
| Selection.DistinctSubredditsSpec | frontend/src/hooks/useRedditScan.js:107 | the communities of the posts are listed once each, exactly those present, in order of first appearance |
| Selection.ListedIff | frontend/src/hooks/useRedditScan.js:107 | a community is listed if and only if some post belongs to it |
| Selection.GroupBySubreddit | frontend/src/hooks/useRedditScan.js:60-66 | the grouping loop makes one group per community present, holding its posts in order, with the groups in order of first appearance |
| Selection.GroupStep | frontend/src/hooks/useRedditScan.js:61-66 | adding a post appends it to its community's group and opens the group the first time the community is seen |
| Selection.SelectPosts | frontend/src/hooks/useRedditScan.js:68-74 | the selection loop takes the first two posts of each group, in group order, and keeps the first ten |
| Selection.PickFromPerSubreddit | frontend/src/hooks/useRedditScan.js:70-72 | from distinct groups, a community contributes its first two posts if it is listed and none otherwise |
| Selection.SelectedPerSubreddit | frontend/src/hooks/useRedditScan.js:68-72 | each community contributes exactly its first two posts before the cap of ten |
| Selection.SelectedFromPosts | frontend/src/hooks/useRedditScan.js:68-72 | every selected post is one of the found posts |
| Selection.TopPerSubreddit | frontend/src/hooks/useRedditScan.js:74 | after the cap, a community's chosen posts are a prefix of its first two |
| Selection.TopPostsSpec | frontend/src/hooks/useRedditScan.js:68-74 | at most ten posts are chosen, all from the found posts, with at most the first two of any community |
| Scan.Tag | frontend/src/hooks/useRedditScan.js:83-87 | each comment of a post is kept and tagged with that post's community and title |
| Scan.CollectedTagged | frontend/src/hooks/useRedditScan.js:76-93 | every collected comment is tagged with the community and title of a chosen post |
| Scan.ReadingLogs | frontend/src/hooks/useRedditScan.js:78 | one informational progress line per post read, naming its community and its position, counted from one, out of the number of chosen posts |
| Scan.ResultWellFormed | frontend/src/hooks/useRedditScan.js:41-51 | a scan result counts its posts and all fetched comments, lists each community of the posts once, and keeps min(50, fetched) comments, each tagged with a post of the result; with posts found it keeps them, its comments are a prefix of all collected comments and its total is their uncapped count; with none found it is empty |
| Scan.FailedScanLog | frontend/src/hooks/useRedditScan.js:18-122 | a failed scan logs four lines: the three opening ones, naming the product, and then the failure, the only error line |
| Scan.CompletedScanLog | frontend/src/hooks/useRedditScan.js:24-111 | a scan without failure logs no failure, its only error line is the one saying nothing was found, its fourth line gives the number of posts found, and it has 5 lines or 7 plus one per chosen post |
| Scan.NothingFound | frontend/src/hooks/useRedditScan.js:41-51 | when no proxy returns a listing, the scan completes with no posts, no comments, zero statistics and a five-line log |
| Hook.Scanner.constructor | frontend/src/hooks/useRedditScan.js:5-8 | the hook starts idle with an empty log, no results and no error |
| Hook.Scanner.Begin | frontend/src/hooks/useRedditScan.js:19-22 | a scan starts by entering the scanning state with the log, the error and the results cleared |
| Hook.Scanner.AddLog | frontend/src/hooks/useRedditScan.js:10-16 | while a scan runs, one line is appended to the log; nothing else changes |
| Hook.Scanner.StartScan | frontend/src/hooks/useRedditScan.js:18-123 | a scan first enters the scanning state through `Begin`, then ends complete with the specified result and no error, or, when an exception escapes, in error with its message and no result; either way the log is the specified one and the state is consistent |
| Hook.Scanner.Fail | frontend/src/hooks/useRedditScan.js:117-122 | the failure is logged, the message recorded and the status set to error |
| Hook.Scanner.Search | frontend/src/hooks/useRedditScan.js:33-115 | searching and then concluding completes with the specified result and log |
| Hook.Scanner.Conclude | frontend/src/hooks/useRedditScan.js:38-115 | an empty search completes at once with the empty result; otherwise the opinions are read; the log gains exactly the specified lines |
| Hook.Scanner.Finish | frontend/src/hooks/useRedditScan.js:114-115 | a coherent result is recorded and the status becomes complete, with the log untouched |
| Hook.Scanner.ReadOpinions | frontend/src/hooks/useRedditScan.js:53-111 | choosing the posts, reading their comments and building the result gives the specified result and log lines, with the status, results and error untouched |
| Hook.Scanner.ReadComments | frontend/src/hooks/useRedditScan.js:76-93 | the reading loop collects every chosen post's tagged comments in order and logs one numbered line per post |
| Hook.Scanner.Reset | frontend/src/hooks/useRedditScan.js:125-130 | back to idle with an empty log, no results and no error |
| Sentiment.TokensOfJoin | frontend/src/components/RedditResults.jsx:17 | splitting single-space-joined words on `\s+` gives those words back |
| Sentiment.TokensAcrossRun | frontend/src/components/RedditResults.jsx:17 | `split(/\s+/)` treats any run of whitespace, of any length and mix of characters, as one separator, and gives an empty piece where the text starts or ends with whitespace |
| Sentiment.MatchesAnyIff | frontend/src/components/RedditResults.jsx:22-23 | a word matches a keyword list if and only if it contains one of the keywords |
| Sentiment.AnalyzeSentiment | frontend/src/components/RedditResults.jsx:13-29 | the counting loop labels a text positive if and only if more words match positive keywords than negative ones, negative in the opposite case, and neutral on a tie |
| Sentiment.CountsBounded | frontend/src/components/RedditResults.jsx:21-24 | neither count exceeds the number of words |
| Sentiment.SentimentIgnoresCase | frontend/src/components/RedditResults.jsx:17 | the verdict does not depend on letter case |
| Sentiment.SubstringMatches | frontend/src/components/RedditResults.jsx:21-24 | matching is by substring and each list is counted on its own: "whatever" counts as negative (it contains "hate"), "glove" as positive (it contains "love"), and "goodbad" on both sides, so on its own it is neutral |
| Sentiment.Items | frontend/src/components/RedditResults.jsx:39 | every post and comment is scored once: the posts first, then the comments, each in order |
| Sentiment.Bump | frontend/src/components/RedditResults.jsx:42 | the count of the verdict rises by one and the other two stay the same |
| Sentiment.TallySentiment | frontend/src/components/RedditResults.jsx:39-43 | the tally loop counts each verdict over the items, and the counts sum to the number of items |
| Sentiment.TallyTotal | frontend/src/components/RedditResults.jsx:39-45 | the three counts add up to the number of items |
| Sentiment.PercentRounds | frontend/src/components/RedditResults.jsx:47-49 | a percentage is `100 × count / total` rounded half up |
| Sentiment.PercentBounded | frontend/src/components/RedditResults.jsx:47-49 | a percentage lies between 0 and 100 |
| Sentiment.RoundedSharesSum | frontend/src/components/RedditResults.jsx:45-50 | the three rounded percentages add up to 99, 100 or 101 |
| Sentiment.PercentagesSpec | frontend/src/components/RedditResults.jsx:45-50 | each percentage is at most 100; with nothing tallied all three are 0 (the `|| 0` after a division by zero); otherwise they sum to between 99 and 101 |

## Left out

- The network is not modelled. This covers `fetch`, the `User-Agent` header, `encodeURIComponent` and the URLs built from it, and JSON decoding. What each proxy attempt yields is an input: `NotOk`, `Throws` or a decoded document.
- The two proxy loops are modelled with exactly three answers per call: `SearchSubreddit` and `GetPostComments` require one answer per proxy.
- `new URL(input)` is an input of `ExtractProductName`: `Unparsable` or the parsed hostname and pathname. URL parsing itself is not modelled.
- Timing is left out: the `delay`/`setTimeout` pauses and the `Date.now()` timestamps of log lines.
- Console output and log wording are left out: `console.warn`/`console.error`, and the emoji and wording of log messages. `LogEvent` keeps only what a message interpolates.
- Post fields are only partly modelled. `upvote_ratio` is not modelled, and `stats.avgScore` (a floating-point mean) is not computed.
- `FinalScore` is computed in exact rational arithmetic (`real`), not IEEE doubles. With large scores, the double products could round and tie where the exact values do not.
- Sentiment.PercentRounds: the percentages use exact round-half-up of `100 × count / total`. The source rounds a double, which can differ on a value within rounding error of a half.
- Text.Lower, Text.Trim, `split(/\s+/)` and `\s`: only the ASCII letters and whitespace characters are handled. Unicode case mapping and Unicode whitespace are not modelled.
- Ranking.CommunityBonus: the bonus is looked up among the eight listed communities only. The source's object lookup would also find inherited keys such as a community literally named `constructor`, which would then give a non-numeric bonus.
- `Object.values(postsBySubreddit)` lists the groups in order of first appearance. JavaScript puts integer-like keys first, so a community whose name is a number would be listed earlier there.
- The hook's inner `catch`, which warns when a post's comments cannot be fetched, is never reached in the model. This is because `getPostComments` never throws.
- Hook.Scanner.StartScan: an exception is not derived from the inputs. The outer `catch` is driven by an explicit `fault` parameter, which fails the scan right after the three opening log lines, where a throw from inside `searchProduct` lands. An example is `encodeURIComponent` (`redditService.js:51`, outside any `try`) rejecting a lone surrogate, which the model's characters cannot hold. A throw later in the scan, such as the grouping throw under `Selection.GroupBySubreddit` below, is not modelled.
- Hook.Scanner.StartScan: a scan is modelled as one uninterrupted run. The source's `startScan` is asynchronous and pauses about ten times, so `reset` or a second `startScan` can run during a pause. After a reset, the scan's later lines are appended to the cleared log and its final status replaces `idle`. Those interleavings are not modelled, and `Scan.Consistent` (for instance, an idle scanner has an empty log) holds only for uninterrupted runs.
- Selection.GroupBySubreddit: the source groups posts in a plain object. A community named after an inherited property (`constructor`, `toString`, `valueOf`, `__proto__`) therefore finds that property instead of an empty slot, and `.push` throws. The source's scan then fails with six log lines: the three opening ones, the found line, the fetching line and the failure. The model groups such a post like any other and the scan completes. The search is restricted to the listed communities, none of which has such a name.
- Scan.FailedScanLog: its four lines describe a failure during the search, the only failure the model has. The six-line failure of the grouping step in the line above is not modelled.
- Scan.WellShaped fixes the shape of the inputs: ten comment answers are supplied, one per post that can be read, and only as many as there are chosen posts are used.
- The sentiment of a post is scored on its title only, as the source does: posts have no `body`.
- `allText` (`RedditResults.jsx:32`) is computed and never used; it is not modelled.
- Names.AmazonExample states the example for the URL written as the site followed by the path, with `new URL` taken to give host `amazon.com` and that path.
- Sentiment.AnalyzeSentiment: the verdicts of concrete sentences such as "This is great and amazing" are not stated. Checking each word against 24 keywords by substring search on literal strings is beyond the solver budget with the whole model in scope. What is proved instead is the if-and-only-if of each verdict for every text, case independence, and the substring matches of `SubstringMatches`.
- `currentProxy` (`redditService.js:11`) is never read, and `formatDate` is never called by the core. Neither is modelled.
- Rendering (the JSX markup and the other components) is not part of this model, and neither is the demo hook `useFakeScan.js`.
