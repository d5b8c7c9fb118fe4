/** The records the scan pipeline passes around
    (frontend/src/services/redditService.js, frontend/src/hooks/useRedditScan.js). */
module Records {

  /** A discussion post as `searchSubreddit` builds it. `upvote_ratio` is a
      floating-point number the core never inspects and is left out. */
  datatype Post = Post(
    id: string,
    title: string,
    url: string,
    permalink: string,
    score: int,
    numComments: int,
    created: int,
    subreddit: string,
    author: string,
    selftext: string)

  /** One child of a comment listing. A missing `body` is the empty string and
      a missing or empty `replies` listing is the empty sequence. */
  datatype Node = Node(
    kind: string,
    id: string,
    author: string,
    body: string,
    score: int,
    created: int,
    replies: seq<Node>)

  /** A comment as `extractComments` emits it, annotated with its depth. */
  datatype Comment = Comment(
    id: string,
    author: string,
    body: string,
    score: int,
    created: int,
    depth: nat)

  /** A comment after the scan tags it with the post it was fetched for. */
  datatype TaggedComment = TaggedComment(comment: Comment, subreddit: string, postTitle: string)
}
