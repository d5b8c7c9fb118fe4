/** Comment threads: flattening a listing tree (`extractComments`) and
    fetching a post's thread through the proxies in turn (`getPostComments`),
    frontend/src/services/redditService.js:143-193. */
module Comments {
  import opened Records
  import opened Outcomes

  /** The proxies tried in order, each followed by the encoded target URL. */
  const CorsProxies: seq<string> := [
    "https://corsproxy.io/?",
    "https://cors-anywhere.herokuapp.com/",
    "https://api.allorigins.win/raw?url="]

  /** How many proxies there are; contracts use this count so that the
      strings themselves stay out of the way. */
  const ProxyCount: nat := 3

  lemma ProxyCountIs()
    ensures |CorsProxies| == ProxyCount
  {
  }

  // ---------------------------------------------------------------------------
  // extractComments

  /** A child that becomes a comment: a `t1` thing with a body that is neither
      empty (or missing) nor `[deleted]`. */
  predicate Kept(n: Node)
  {
    n.kind == "t1" && n.body != "" && n.body != "[deleted]"
  }

  function ToComment(n: Node, depth: nat): (c: Comment)
    ensures c.body == n.body && c.depth == depth
  {
    Comment(n.id, n.author, n.body, n.score, n.created, depth)
  }

  /** The flattened thread: each kept child in order, followed at once by its
      own replies one level deeper; a child that is not kept is dropped
      together with all of its replies. */
  function Flatten(nodes: seq<Node>, depth: nat): seq<Comment>
    decreases nodes
  {
    if nodes == [] then []
    else
      var n := nodes[0];
      (if Kept(n) then [ToComment(n, depth)] + Flatten(n.replies, depth + 1) else [])
      + Flatten(nodes[1..], depth)
  }

  /** `extractComments`: a loop over the children, recursing into the replies
      of each kept child. */
  method ExtractComments(nodes: seq<Node>, depth: nat) returns (comments: seq<Comment>)
    ensures comments == Flatten(nodes, depth)
    decreases nodes
  {
    comments := [];
    for i := 0 to |nodes|
      invariant comments == Flatten(nodes[..i], depth)
    {
      var n := nodes[i];
      FlattenAppend(nodes[..i], [n], depth);
      assert nodes[..i + 1] == nodes[..i] + [n];
      if Kept(n) {
        comments := comments + [ToComment(n, depth)];
        var replies := ExtractComments(n.replies, depth + 1);
        comments := comments + replies;
      }
    }
    assert nodes[..|nodes|] == nodes;
  }

  lemma {:induction false} FlattenAppend(a: seq<Node>, b: seq<Node>, depth: nat)
    ensures Flatten(a + b, depth) == Flatten(a, depth) + Flatten(b, depth)
    decreases a
  {
    if a == [] {
      assert a + b == b;
    } else {
      assert (a + b)[0] == a[0];
      assert (a + b)[1..] == a[1..] + b;
      FlattenAppend(a[1..], b, depth);
    }
  }

  /** How many nodes the tree holds, replies included. */
  function Size(nodes: seq<Node>): nat
    decreases nodes
  {
    if nodes == [] then 0 else 1 + Size(nodes[0].replies) + Size(nodes[1..])
  }

  /** No more comments than nodes. */
  lemma {:induction false} FlattenSize(nodes: seq<Node>, depth: nat)
    ensures |Flatten(nodes, depth)| <= Size(nodes)
    decreases nodes
  {
    if nodes != [] {
      FlattenSize(nodes[0].replies, depth + 1);
      FlattenSize(nodes[1..], depth);
    }
  }

  /** Every emitted comment has a real body and sits at least at the starting depth. */
  lemma {:induction false} FlattenComments(nodes: seq<Node>, depth: nat)
    ensures forall c :: c in Flatten(nodes, depth) ==>
      c.depth >= depth && c.body != "" && c.body != "[deleted]"
    decreases nodes
  {
    if nodes != [] {
      FlattenComments(nodes[0].replies, depth + 1);
      FlattenComments(nodes[1..], depth);
    }
  }

  /** `n` is a child of `nodes`, or a reply below one, reached through kept
      children only and sitting `d` levels down when `nodes` sit at `depth`. */
  ghost predicate KeptWithin(nodes: seq<Node>, n: Node, d: nat, depth: nat)
    decreases nodes
  {
    exists i :: 0 <= i < |nodes| && Kept(nodes[i])
      && ((nodes[i] == n && d == depth) || KeptWithin(nodes[i].replies, n, d, depth + 1))
  }

  /** `c` is made from a `t1` child with a real body, at the depth it sits,
      reached from `nodes` through kept children only. */
  ghost predicate MadeFromKept(nodes: seq<Node>, c: Comment, depth: nat)
  {
    exists n, d :: KeptWithin(nodes, n, d, depth) && c == ToComment(n, d)
      && n.kind == "t1" && n.body != "" && n.body != "[deleted]"
  }

  /** Every emitted comment is made from a `t1` child with a real body, at its
      own depth, and reached only through children that were themselves kept. */
  lemma {:induction false} FlattenFromKept(nodes: seq<Node>, depth: nat)
    ensures forall c :: c in Flatten(nodes, depth) ==> MadeFromKept(nodes, c, depth)
    decreases nodes
  {
    if nodes != [] {
      var n0 := nodes[0];
      FlattenFromKept(n0.replies, depth + 1);
      FlattenFromKept(nodes[1..], depth);
      forall c | c in Flatten(nodes, depth)
        ensures MadeFromKept(nodes, c, depth)
      {
        if Kept(n0) && c == ToComment(n0, depth) {
          assert KeptWithin(nodes, n0, depth, depth);
        } else if Kept(n0) && c in Flatten(n0.replies, depth + 1) {
          MadeFromReply(nodes, c, depth);
        } else {
          assert c in Flatten(nodes[1..], depth);
          MadeFromLater(nodes, c, depth);
        }
      }
    }
  }

  lemma MadeFromReply(nodes: seq<Node>, c: Comment, depth: nat)
    requires nodes != [] && Kept(nodes[0]) && MadeFromKept(nodes[0].replies, c, depth + 1)
    ensures MadeFromKept(nodes, c, depth)
  {
    var n, d :| KeptWithin(nodes[0].replies, n, d, depth + 1) && c == ToComment(n, d)
      && n.kind == "t1" && n.body != "" && n.body != "[deleted]";
    assert KeptWithin(nodes, n, d, depth);
  }

  lemma MadeFromLater(nodes: seq<Node>, c: Comment, depth: nat)
    requires nodes != [] && MadeFromKept(nodes[1..], c, depth)
    ensures MadeFromKept(nodes, c, depth)
  {
    var n, d :| KeptWithin(nodes[1..], n, d, depth) && c == ToComment(n, d)
      && n.kind == "t1" && n.body != "" && n.body != "[deleted]";
    var i :| 0 <= i < |nodes[1..]| && Kept(nodes[1..][i])
      && ((nodes[1..][i] == n && d == depth) || KeptWithin(nodes[1..][i].replies, n, d, depth + 1));
    assert nodes[1..][i] == nodes[i + 1];
    assert KeptWithin(nodes, n, d, depth);
  }

  /** A child that is not a `t1` thing with a real body contributes nothing:
      neither it nor any reply below it is emitted, whatever those are. */
  lemma SkippedSubtree(a: seq<Node>, n: Node, b: seq<Node>, depth: nat)
    requires n.kind != "t1" || n.body == "" || n.body == "[deleted]"
    ensures Flatten(a + [n] + b, depth) == Flatten(a + b, depth)
  {
    FlattenAppend(a + [n], b, depth);
    FlattenAppend(a, [n], depth);
    FlattenAppend(a, b, depth);
    assert Flatten([n], depth) == [] by {
      assert [n][1..] == [];
    }
  }

  /** A depth sequence a pre-order walk produces: it starts at `depth`, never
      shallower than it, and goes at most one level deeper from one comment to the next. */
  ghost predicate WellNested(cs: seq<Comment>, depth: nat)
  {
    && (cs != [] ==> cs[0].depth == depth)
    && (forall k :: 0 <= k < |cs| ==> cs[k].depth >= depth)
    && (forall k :: 0 < k < |cs| ==> cs[k].depth <= cs[k - 1].depth + 1)
  }

  lemma WellNestedAppend(a: seq<Comment>, b: seq<Comment>, depth: nat)
    requires WellNested(a, depth) && WellNested(b, depth)
    ensures WellNested(a + b, depth)
  {
    var ab := a + b;
    forall k | 0 < k < |ab| ensures ab[k].depth <= ab[k - 1].depth + 1 {
      if k < |a| {
        assert ab[k] == a[k] && ab[k - 1] == a[k - 1];
      } else if k == |a| {
        assert ab[k] == b[0] && ab[k - 1] == a[k - 1];
      } else {
        assert ab[k] == b[k - |a|] && ab[k - 1] == b[k - 1 - |a|];
      }
    }
  }

  lemma WellNestedCons(c: Comment, cs: seq<Comment>, depth: nat)
    requires c.depth == depth && WellNested(cs, depth + 1)
    ensures WellNested([c] + cs, depth)
  {
    var r := [c] + cs;
    assert forall k :: 0 < k < |r| ==> r[k] == cs[k - 1];
  }

  /** The depths of the flattened thread describe a tree. */
  lemma {:induction false} FlattenWellNested(nodes: seq<Node>, depth: nat)
    ensures WellNested(Flatten(nodes, depth), depth)
    decreases nodes
  {
    if nodes != [] {
      var n := nodes[0];
      FlattenWellNested(nodes[1..], depth);
      if Kept(n) {
        FlattenWellNested(n.replies, depth + 1);
        WellNestedCons(ToComment(n, depth), Flatten(n.replies, depth + 1), depth);
        WellNestedAppend([ToComment(n, depth)] + Flatten(n.replies, depth + 1),
          Flatten(nodes[1..], depth), depth);
      } else {
        assert Flatten(nodes, depth) == Flatten(nodes[1..], depth);
      }
    }
  }

  /** The comments at a given depth, in order. */
  function AtDepth(cs: seq<Comment>, depth: nat): (r: seq<Comment>)
    ensures forall c :: c in r <==> c in cs && c.depth == depth
  {
    if cs == [] then []
    else (if cs[0].depth == depth then [cs[0]] else []) + AtDepth(cs[1..], depth)
  }

  lemma {:induction false} AtDepthAppend(a: seq<Comment>, b: seq<Comment>, depth: nat)
    ensures AtDepth(a + b, depth) == AtDepth(a, depth) + AtDepth(b, depth)
  {
    if a == [] {
      assert a + b == b;
    } else {
      assert (a + b)[0] == a[0];
      assert (a + b)[1..] == a[1..] + b;
      AtDepthAppend(a[1..], b, depth);
    }
  }

  lemma NoneAtDepth(cs: seq<Comment>, depth: nat)
    requires forall c :: c in cs ==> c.depth > depth
    ensures AtDepth(cs, depth) == []
  {
  }

  /** The kept top-level children as comments at `depth`. */
  function TopLevel(nodes: seq<Node>, depth: nat): seq<Comment>
  {
    if nodes == [] then []
    else (if Kept(nodes[0]) then [ToComment(nodes[0], depth)] else []) + TopLevel(nodes[1..], depth)
  }

  /** The comments at the starting depth are exactly the kept top-level
      children, in listing order. */
  lemma {:induction false} FlattenTopLevel(nodes: seq<Node>, depth: nat)
    ensures AtDepth(Flatten(nodes, depth), depth) == TopLevel(nodes, depth)
    decreases nodes
  {
    if nodes != [] {
      var n := nodes[0];
      FlattenTopLevel(nodes[1..], depth);
      if Kept(n) {
        var c, deeper, rest := ToComment(n, depth), Flatten(n.replies, depth + 1), Flatten(nodes[1..], depth);
        assert Flatten(nodes, depth) == [c] + deeper + rest;
        FlattenComments(n.replies, depth + 1);
        NoneAtDepth(deeper, depth);
        AtDepthAppend([c] + deeper, rest, depth);
        AtDepthAppend([c], deeper, depth);
        assert AtDepth([c], depth) == [c] by {
          assert [c][1..] == [];
        }
      } else {
        assert Flatten(nodes, depth) == Flatten(nodes[1..], depth);
      }
    }
  }

  // ---------------------------------------------------------------------------
  // getPostComments

  /** What one proxy attempt yields: a response that is not ok, a failure
      while fetching or decoding, or a decoded body. */
  datatype Response<+T> = NotOk | Throws | Ok(body: T)

  /** A decoded comments document: an array of fewer than two listings, the
      usual pair whose second listing holds `children`, or anything else,
      whose access throws. */
  datatype CommentDoc = ShortArray | Thread(children: seq<Node>) | Malformed

  /** The outcome of one attempt: `None` means the loop moves on to the next proxy. */
  function CommentAttempt(r: Response<CommentDoc>): (o: Option<seq<Comment>>)
    ensures o.Some? <==> r.Ok? && !r.body.Malformed?
  {
    match r
    case Ok(ShortArray) => Some([])
    case Ok(Thread(children)) => Some(Flatten(children, 0))
    case _ => None
  }

  /** The comments `getPostComments` returns, given what each proxy answers in
      turn: those of the first attempt that settles, or none at all. */
  function FetchedComments(responses: seq<Response<CommentDoc>>): seq<Comment>
  {
    if responses == [] then []
    else match CommentAttempt(responses[0])
      case Some(cs) => cs
      case None => FetchedComments(responses[1..])
  }

  /** `getPostComments`: try the proxies in order and stop at the first that
      settles; `attempts` is how many proxies were asked. */
  method GetPostComments(responses: seq<Response<CommentDoc>>) returns (comments: seq<Comment>, attempts: nat)
    requires |responses| == ProxyCount
    ensures comments == FetchedComments(responses)
    ensures 1 <= attempts <= ProxyCount
    ensures forall k :: 0 <= k < attempts - 1 ==> CommentAttempt(responses[k]).None?
    ensures CommentAttempt(responses[attempts - 1]).Some? ==> comments == CommentAttempt(responses[attempts - 1]).value
    ensures CommentAttempt(responses[attempts - 1]).None? ==> attempts == ProxyCount && comments == []
  {
    ProxyCountIs();
    var i := 0;
    while i < |CorsProxies|
      invariant 0 <= i <= |CorsProxies|
      invariant forall k :: 0 <= k < i ==> CommentAttempt(responses[k]).None?
      invariant FetchedComments(responses) == FetchedComments(responses[i..])
    {
      assert responses[i..][1..] == responses[i + 1..];
      attempts := i + 1;
      match CommentAttempt(responses[i]) {
        case Some(cs) =>
          return cs, attempts;
        case None =>
      }
      i := i + 1;
    }
    attempts := |CorsProxies|;
    comments := [];
  }

  /** Whatever the proxies answer, the comments are the flattening of one
      listing they returned, or none. */
  lemma {:induction false} FetchedFromSomeThread(responses: seq<Response<CommentDoc>>)
    ensures var cs := FetchedComments(responses);
      cs == [] ||
      exists k ::
        && 0 <= k < |responses| && responses[k].Ok? && responses[k].body.Thread?
        && cs == Flatten(responses[k].body.children, 0)
  {
    if responses != [] && CommentAttempt(responses[0]).None? {
      FetchedFromSomeThread(responses[1..]);
      var cs := FetchedComments(responses);
      if cs != [] {
        var k :| 0 <= k < |responses[1..]| && responses[1..][k].Ok? && responses[1..][k].body.Thread?
          && cs == Flatten(responses[1..][k].body.children, 0);
        assert responses[k + 1] == responses[1..][k];
      }
    }
  }

  /** When no proxy settles, the post contributes no comments. */
  lemma {:induction false} NoProxySettles(responses: seq<Response<CommentDoc>>)
    requires forall k :: 0 <= k < |responses| ==> CommentAttempt(responses[k]).None?
    ensures FetchedComments(responses) == []
  {
    if responses != [] {
      assert CommentAttempt(responses[0]).None?;
      NoProxySettles(responses[1..]);
    }
  }
}
