/** Keyword sentiment of the results view: scoring one text
    (`analyzeSentiment`), tallying the labels of all posts and comments, and
    the rounded percentages (frontend/src/components/RedditResults.jsx:13-50). */
module Sentiment {
  import opened Text
  import opened Records
  import Seqs

  const PositiveWords: seq<string> := ["good", "great", "excellent", "amazing", "love", "perfect",
    "best", "awesome", "fantastic", "recommend", "solid", "quality"]

  const NegativeWords: seq<string> := ["bad", "terrible", "awful", "hate", "worst", "broken",
    "issues", "problems", "disappointing", "avoid", "cheap", "poor"]

  datatype Label = Positive | Negative | Neutral

  // ---------------------------------------------------------------------------
  // Tokens: `split(/\s+/)`

  /** Where the run of non-space characters starting at `i` ends. */
  function WordEnd(s: string, i: nat): (j: nat)
    requires i <= |s|
    ensures i <= j <= |s| && (j < |s| ==> IsSpace(s[j]))
    ensures forall k :: i <= k < j ==> !IsSpace(s[k])
    decreases |s| - i
  {
    if i == |s| || IsSpace(s[i]) then i else WordEnd(s, i + 1)
  }

  /** Where the run of spaces starting at `i` ends. */
  function SpaceEnd(s: string, i: nat): (j: nat)
    requires i <= |s|
    ensures i <= j <= |s| && (j < |s| ==> !IsSpace(s[j]))
    ensures forall k :: i <= k < j ==> IsSpace(s[k])
    decreases |s| - i
  {
    if i == |s| || !IsSpace(s[i]) then i else SpaceEnd(s, i + 1)
  }

  function TokensFrom(s: string, i: nat): (r: seq<string>)
    requires i <= |s|
    ensures |r| >= 1
    decreases |s| - i
  {
    var j := WordEnd(s, i);
    var word := s[i..j];
    if j == |s| then [word] else [word] + TokensFrom(s, SpaceEnd(s, j))
  }

  /** `s.split(/\s+/)`: the pieces between runs of whitespace, with an empty
      piece where the text starts or ends with whitespace. */
  function Tokens(s: string): (r: seq<string>)
    ensures |r| >= 1
  {
    TokensFrom(s, 0)
  }

  /** Words joined by single spaces. */
  function JoinWords(words: seq<string>): string
    requires |words| >= 1
  {
    if |words| == 1 then words[0] else words[0] + " " + JoinWords(words[1..])
  }

  predicate IsWord(w: string)
  {
    w != "" && forall k :: 0 <= k < |w| ==> !IsSpace(w[k])
  }

  /** Splitting words joined by single spaces gives the words back. */
  lemma TokensOfJoin(words: seq<string>)
    requires |words| >= 1 && forall k :: 0 <= k < |words| ==> IsWord(words[k])
    ensures Tokens(JoinWords(words)) == words
  {
    TokensFromJoin("", words);
    assert "" + JoinWords(words) == JoinWords(words);
  }

  /** The same, for joined words that follow any prefix. */
  lemma {:induction false} TokensFromJoin(p: string, words: seq<string>)
    requires |words| >= 1 && forall k :: 0 <= k < |words| ==> IsWord(words[k])
    ensures TokensFrom(p + JoinWords(words), |p|) == words
    decreases |words|
  {
    var w := words[0];
    var s := p + JoinWords(words);
    if |words| == 1 {
      assert s[|p|..] == w;
      TokensFromLast(s, |p|, w);
    } else {
      var rest := JoinWords(words[1..]);
      var p2 := p + w + " ";
      assert s == p2 + rest;
      JoinStartsWithWord(words[1..]);
      assert s[|p|..|p| + |w|] == w && s[|p| + |w|] == ' ' && s[|p2|] == rest[0];
      TokensFromStep(s, |p|, w, |p2|);
      TokensFromJoin(p2, words[1..]);
      assert words == [w] + words[1..];
    }
  }

  /** A word that runs to the end of the text is its last token. */
  lemma TokensFromLast(s: string, i: nat, w: string)
    requires IsWord(w) && i <= |s| && s[i..] == w
    ensures TokensFrom(s, i) == [w]
  {
    assert s[i..i + |w|] == w;
    WordEndAt(s, i, w);
  }

  /** A word followed by one space and then a non-space is the next token. */
  lemma TokensFromStep(s: string, i: nat, w: string, next: nat)
    requires next == i + |w| + 1 && next < |s|
    requires IsWord(w) && s[i..i + |w|] == w && s[i + |w|] == ' ' && !IsSpace(s[next])
    ensures TokensFrom(s, i) == [w] + TokensFrom(s, next)
  {
    WordEndAt(s, i, w);
    assert SpaceEnd(s, i + |w|) == next;
  }

  /** A word starting at `i` and followed by a space or the end runs to its last letter. */
  lemma WordEndAt(s: string, i: nat, w: string)
    requires IsWord(w) && i + |w| <= |s| && s[i..i + |w|] == w
    requires i + |w| < |s| ==> IsSpace(s[i + |w|])
    ensures WordEnd(s, i) == i + |w|
  {
  }

  lemma JoinStartsWithWord(words: seq<string>)
    requires |words| >= 1 && IsWord(words[0])
    ensures |JoinWords(words)| >= 1 && JoinWords(words)[0] == words[0][0]
  {
  }

  /** A run of whitespace between two pieces separates their tokens, whatever
      whitespace characters it holds and however long it is. With `a` or `b`
      empty this is the empty piece at the start or end of a text. */
  lemma TokensAcrossRun(a: string, w: string, b: string)
    requires a == [] || !IsSpace(a[|a| - 1])
    requires w != [] && AllSpace(w)
    requires b == [] || !IsSpace(b[0])
    ensures Tokens(a + w + b) == Tokens(a) + Tokens(b)
  {
    var s := a + w + b;
    RunPieces(a, w, b);
    TokensSplitAtRun(s, |a|, |a| + |w|);
  }

  /** The same on one text, with the run over `[n, m)`. */
  lemma TokensSplitAtRun(s: string, n: nat, m: nat)
    requires RunAt(s, n, m)
    ensures Tokens(s) == Tokens(s[..n]) + Tokens(s[m..])
  {
    TokensOfSuffix(s, m);
    TokensFromRun(s, n, m, 0);
  }

  /** Tokens from `m` on are the tokens of the suffix starting at `m`. */
  lemma TokensOfSuffix(s: string, m: nat)
    requires m <= |s|
    ensures TokensFrom(s, m) == Tokens(s[m..])
  {
    var p := s[..m];
    assert s == p + s[m..];
    TokensFromShift(p, s[m..], 0);
  }

  lemma RunPieces(a: string, w: string, b: string)
    requires a == [] || !IsSpace(a[|a| - 1])
    requires w != [] && AllSpace(w)
    requires b == [] || !IsSpace(b[0])
    ensures var s := a + w + b;
      RunAt(s, |a|, |a| + |w|) && s[..|a|] == a && s[|a| + |w|..] == b
  {
    var s := a + w + b;
    assert forall k :: |a| <= k < |a| + |w| ==> s[k] == w[k - |a|];
  }

  /** `[n, m)` is a whole run of whitespace in `s`. */
  predicate RunAt(s: string, n: nat, m: nat)
  {
    && n < m <= |s|
    && (forall k :: n <= k < m ==> IsSpace(s[k]))
    && (n == 0 || !IsSpace(s[n - 1]))
    && (m == |s| || !IsSpace(s[m]))
  }

  /** The tokens from `i` split at a whole run of whitespace over `[n, m)`. */
  lemma {:induction false} TokensFromRun(s: string, n: nat, m: nat, i: nat)
    requires RunAt(s, n, m) && i <= n
    ensures TokensFrom(s, i) == TokensFrom(s[..n], i) + TokensFrom(s, m)
    decreases n - i
  {
    var a := s[..n];
    WordEndCut(s, n, i);
    var j := WordEnd(a, i);
    if j < n {
      var k := RunStep(s, n, m, i);
      TokensFromRun(s, n, m, k);
      Seqs.AppendAssoc([a[i..j]], TokensFrom(a, k), TokensFrom(s, m));
    } else {
      RunEnd(s, n, m, i);
    }
  }

  /** A word of the prefix before the run is the next token of both. */
  lemma RunStep(s: string, n: nat, m: nat, i: nat) returns (k: nat)
    requires RunAt(s, n, m) && i <= n && WordEnd(s[..n], i) < n
    ensures var a := s[..n]; var j := WordEnd(a, i);
      i < k <= n
      && TokensFrom(a, i) == [a[i..j]] + TokensFrom(a, k)
      && TokensFrom(s, i) == [a[i..j]] + TokensFrom(s, k)
  {
    var a := s[..n];
    WordEndCut(s, n, i);
    var j := WordEnd(a, i);
    assert s[i..j] == a[i..j];
    SpaceEndCut(s, n, j);
    k := SpaceEnd(a, j);
  }

  /** The last word of the prefix ends at the run. */
  lemma RunEnd(s: string, n: nat, m: nat, i: nat)
    requires RunAt(s, n, m) && i <= n && WordEnd(s[..n], i) == n
    ensures TokensFrom(s, i) == TokensFrom(s[..n], i) + TokensFrom(s, m)
  {
    var a := s[..n];
    WordEndCut(s, n, i);
    assert s[i..n] == a[i..n];
    SpaceEndAt(s, n, m - n);
    assert TokensFrom(a, i) == [a[i..n]];
  }

  /** Tokens of a suffix do not depend on what precedes it. */
  lemma {:induction false} TokensFromShift(p: string, t: string, i: nat)
    requires i <= |t|
    ensures TokensFrom(p + t, |p| + i) == TokensFrom(t, i)
    decreases |t| - i
  {
    var j := WordEnd(t, i);
    if j < |t| {
      var k := ShiftStep(p, t, i);
      TokensFromShift(p, t, k);
    } else {
      ShiftEnd(p, t, i);
    }
  }

  /** A word of the suffix that a space follows is the next token, with or without the prefix. */
  lemma ShiftStep(p: string, t: string, i: nat) returns (k: nat)
    requires i <= |t| && WordEnd(t, i) < |t|
    ensures var j := WordEnd(t, i);
      i < k <= |t|
      && TokensFrom(t, i) == [t[i..j]] + TokensFrom(t, k)
      && TokensFrom(p + t, |p| + i) == [t[i..j]] + TokensFrom(p + t, |p| + k)
  {
    var s := p + t;
    WordEndShift(p, t, i);
    var j := WordEnd(t, i);
    assert s[|p| + i..|p| + j] == t[i..j];
    SpaceEndShift(p, t, j);
    k := SpaceEnd(t, j);
    assert WordEnd(s, |p| + i) == |p| + j < |s| && SpaceEnd(s, |p| + j) == |p| + k;
    assert TokensFrom(s, |p| + i) == [s[|p| + i..|p| + j]] + TokensFrom(s, |p| + k);
  }

  /** The last word of the suffix is its last token, with or without the prefix. */
  lemma ShiftEnd(p: string, t: string, i: nat)
    requires i <= |t| && WordEnd(t, i) == |t|
    ensures TokensFrom(p + t, |p| + i) == TokensFrom(t, i)
  {
    var s := p + t;
    WordEndShift(p, t, i);
    assert WordEnd(s, |p| + i) == |s| && s[|p| + i..|s|] == t[i..|t|];
    assert TokensFrom(s, |p| + i) == [s[|p| + i..|s|]];
    assert TokensFrom(t, i) == [t[i..|t|]];
  }

  lemma {:induction false} WordEndShift(p: string, t: string, i: nat)
    requires i <= |t|
    ensures WordEnd(p + t, |p| + i) == |p| + WordEnd(t, i)
    decreases |t| - i
  {
    if i < |t| {
      assert (p + t)[|p| + i] == t[i];
      if !IsSpace(t[i]) {
        WordEndShift(p, t, i + 1);
      }
    }
  }

  lemma {:induction false} SpaceEndShift(p: string, t: string, i: nat)
    requires i <= |t|
    ensures SpaceEnd(p + t, |p| + i) == |p| + SpaceEnd(t, i)
    decreases |t| - i
  {
    if i < |t| {
      assert (p + t)[|p| + i] == t[i];
      if IsSpace(t[i]) {
        SpaceEndShift(p, t, i + 1);
      }
    }
  }

  /** A word before a space at `n` ends where it ends in the prefix up to `n`. */
  lemma {:induction false} WordEndCut(s: string, n: nat, i: nat)
    requires i <= n < |s| && IsSpace(s[n])
    ensures WordEnd(s, i) == WordEnd(s[..n], i)
    decreases n - i
  {
    if i < n {
      assert s[..n][i] == s[i];
      if !IsSpace(s[i]) {
        WordEndCut(s, n, i + 1);
      }
    }
  }

  /** A run of spaces before a non-space at `n - 1` ends where it ends in the prefix up to `n`. */
  lemma {:induction false} SpaceEndCut(s: string, n: nat, i: nat)
    requires i < n <= |s| && !IsSpace(s[n - 1])
    ensures SpaceEnd(s, i) == SpaceEnd(s[..n], i)
    decreases n - i
  {
    assert s[..n][i] == s[i];
    if IsSpace(s[i]) {
      SpaceEndCut(s, n, i + 1);
    }
  }

  /** A run of `n` spaces at `i`, followed by a non-space or the end. */
  lemma {:induction false} SpaceEndAt(s: string, i: nat, n: nat)
    requires i + n <= |s| && forall k :: i <= k < i + n ==> IsSpace(s[k])
    requires i + n < |s| ==> !IsSpace(s[i + n])
    ensures SpaceEnd(s, i) == i + n
    decreases n
  {
    if n > 0 {
      SpaceEndAt(s, i + 1, n - 1);
    }
  }

  // ---------------------------------------------------------------------------
  // analyzeSentiment

  predicate MatchesFrom(word: string, keys: seq<string>, i: nat)
    decreases |keys| - i
  {
    i < |keys| && (Contains(word, keys[i]) || MatchesFrom(word, keys, i + 1))
  }

  /** `keys.some(key => word.includes(key))`. */
  predicate MatchesAny(word: string, keys: seq<string>)
  {
    MatchesFrom(word, keys, 0)
  }

  lemma {:induction false} MatchesFromIff(word: string, keys: seq<string>, i: nat)
    ensures MatchesFrom(word, keys, i) <==> exists k :: i <= k < |keys| && Contains(word, keys[k])
    decreases |keys| - i
  {
    if i < |keys| {
      MatchesFromIff(word, keys, i + 1);
    }
  }

  /** A word matches when it contains one of the keys. */
  lemma MatchesAnyIff(word: string, keys: seq<string>)
    ensures MatchesAny(word, keys) <==> exists k :: 0 <= k < |keys| && Contains(word, keys[k])
  {
    MatchesFromIff(word, keys, 0);
  }

  /** How many of the words match one of the keys; each word counts once. */
  function CountMatching(words: seq<string>, keys: seq<string>): (n: nat)
    ensures n <= |words|
  {
    if words == [] then 0
    else CountMatching(words[..|words| - 1], keys) + if MatchesAny(words[|words| - 1], keys) then 1 else 0
  }

  function PositiveCount(text: string): nat
  {
    CountMatching(Tokens(Lower(text)), PositiveWords)
  }

  function NegativeCount(text: string): nat
  {
    CountMatching(Tokens(Lower(text)), NegativeWords)
  }

  /** The verdict `analyzeSentiment` gives a text. */
  function SentimentOf(text: string): Label
  {
    var pos, neg := PositiveCount(text), NegativeCount(text);
    if pos > neg then Positive else if neg > pos then Negative else Neutral
  }

  /** `analyzeSentiment`: one pass over the tokens, counting matches. */
  method AnalyzeSentiment(text: string) returns (verdict: Label)
    ensures verdict == SentimentOf(text)
    ensures verdict == Positive <==> PositiveCount(text) > NegativeCount(text)
    ensures verdict == Negative <==> NegativeCount(text) > PositiveCount(text)
    ensures verdict == Neutral <==> PositiveCount(text) == NegativeCount(text)
  {
    var words := Tokens(Lower(text));
    var positiveCount, negativeCount := 0, 0;
    for i := 0 to |words|
      invariant positiveCount == CountMatching(words[..i], PositiveWords)
      invariant negativeCount == CountMatching(words[..i], NegativeWords)
    {
      assert words[..i + 1][..i] == words[..i];
      if MatchesAny(words[i], PositiveWords) {
        positiveCount := positiveCount + 1;
      }
      if MatchesAny(words[i], NegativeWords) {
        negativeCount := negativeCount + 1;
      }
    }
    assert words[..|words|] == words;
    if positiveCount > negativeCount {
      verdict := Positive;
    } else if negativeCount > positiveCount {
      verdict := Negative;
    } else {
      verdict := Neutral;
    }
  }

  /** Each token adds at most one to each count. */
  lemma CountsBounded(text: string)
    ensures PositiveCount(text) <= |Tokens(Lower(text))|
    ensures NegativeCount(text) <= |Tokens(Lower(text))|
  {
  }

  /** The verdict does not depend on letter case. */
  lemma SentimentIgnoresCase(text: string)
    ensures SentimentOf(Lower(text)) == SentimentOf(text)
  {
    LowerIdempotent(text);
  }

  /** Matching is by substring, so one word can count on both sides, or on a
      side its meaning does not suggest. */
  lemma SubstringMatches()
    ensures MatchesAny("whatever", NegativeWords)
    ensures MatchesAny("glove", PositiveWords)
    ensures MatchesAny("goodbad", PositiveWords) && MatchesAny("goodbad", NegativeWords)
    ensures SentimentOf("goodbad") == Neutral
  {
    assert Contains("whatever", "hate");
    assert Contains("glove", "love");
    BothSides();
  }

  /** "goodbad" adds one to each count, so on its own it is neutral. */
  lemma BothSides()
    ensures MatchesAny("goodbad", PositiveWords) && MatchesAny("goodbad", NegativeWords)
    ensures SentimentOf("goodbad") == Neutral
  {
    var w := "goodbad";
    assert Contains(w, "good") && Contains(w, "bad");
    assert Lower(w) == w by {
      assert forall i :: 0 <= i < |w| ==> Lower(w)[i] == w[i];
    }
    TokensOfJoin([w]);
    assert Tokens(w) == [w];
    assert CountMatching([w], PositiveWords) == 1;
    assert CountMatching([w], NegativeWords) == 1;
  }

  // ---------------------------------------------------------------------------
  // The tally over posts and comments

  /** What the view iterates over: the posts, then the comments. */
  datatype Item = PostItem(post: Post) | CommentItem(comment: TaggedComment)

  /** `item.title || item.body || ''`: a post has a title and no body, a
      tagged comment has a body and no title. */
  function ItemText(item: Item): string
  {
    match item
    case PostItem(p) => p.title
    case CommentItem(c) => c.comment.body
  }

  function Items(posts: seq<Post>, comments: seq<TaggedComment>): (r: seq<Item>)
    ensures |r| == |posts| + |comments|
    ensures forall k :: 0 <= k < |posts| ==> r[k] == PostItem(posts[k])
    ensures forall k :: 0 <= k < |comments| ==> r[|posts| + k] == CommentItem(comments[k])
  {
    if comments != [] then
      Items(posts, comments[..|comments| - 1]) + [CommentItem(comments[|comments| - 1])]
    else if posts != [] then
      Items(posts[..|posts| - 1], []) + [PostItem(posts[|posts| - 1])]
    else []
  }

  /** How many items get the given verdict. */
  function CountLabel(items: seq<Item>, verdict: Label): (n: nat)
    ensures n <= |items|
  {
    if items == [] then 0
    else CountLabel(items[..|items| - 1], verdict) + if SentimentOf(ItemText(items[|items| - 1])) == verdict then 1 else 0
  }

  datatype Tally = Tally(positive: nat, negative: nat, neutral: nat)

  /** `sentimentCounts[verdict]`. */
  function Count(counts: Tally, verdict: Label): nat
  {
    match verdict
    case Positive => counts.positive
    case Negative => counts.negative
    case Neutral => counts.neutral
  }

  /** `sentimentCounts[sentiment]++`: the count of that verdict rises by one
      and the other two stay. */
  function Bump(counts: Tally, verdict: Label): (r: Tally)
    ensures forall l :: Count(r, l) == Count(counts, l) + if l == verdict then 1 else 0
    ensures r.positive + r.negative + r.neutral == counts.positive + counts.negative + counts.neutral + 1
  {
    match verdict
    case Positive => counts.(positive := counts.positive + 1)
    case Negative => counts.(negative := counts.negative + 1)
    case Neutral => counts.(neutral := counts.neutral + 1)
  }

  /** The counts of every verdict over the items. */
  function TallyOf(items: seq<Item>): Tally
  {
    Tally(CountLabel(items, Positive), CountLabel(items, Negative), CountLabel(items, Neutral))
  }

  /** `sentimentCounts`: one increment per item, under the item's verdict. */
  method TallySentiment(items: seq<Item>) returns (counts: Tally)
    ensures counts == TallyOf(items)
    ensures counts.positive + counts.negative + counts.neutral == |items|
  {
    counts := Tally(0, 0, 0);
    for i := 0 to |items|
      invariant counts == TallyOf(items[..i])
      invariant counts.positive + counts.negative + counts.neutral == i
    {
      var verdict := AnalyzeSentiment(ItemText(items[i]));
      TallyStep(items, i);
      counts := Bump(counts, verdict);
    }
    assert items[..|items|] == items;
  }

  lemma TallyStep(items: seq<Item>, i: nat)
    requires i < |items|
    ensures TallyOf(items[..i + 1]) == Bump(TallyOf(items[..i]), SentimentOf(ItemText(items[i])))
  {
    assert items[..i + 1][..i] == items[..i];
  }

  /** Every item is counted under exactly one verdict. */
  lemma {:induction false} TallyTotal(items: seq<Item>)
    ensures CountLabel(items, Positive) + CountLabel(items, Negative) + CountLabel(items, Neutral) == |items|
  {
    if items != [] {
      TallyTotal(items[..|items| - 1]);
    }
  }

  // ---------------------------------------------------------------------------
  // sentimentPercentages

  /** `Math.round(count / total * 100) || 0` on exact numbers: round half up,
      and 0 when there is nothing to count. */
  function Percent(count: nat, total: nat): nat
  {
    if total == 0 then 0 else (200 * count + total) / (2 * total)
  }

  /** `Percent` is the nearest whole percentage, halves rounded up. */
  lemma PercentRounds(count: nat, total: nat)
    requires total > 0
    ensures var m := 2 * total;
      m * Percent(count, total) <= 200 * count + total < m * Percent(count, total) + m
  {
  }

  lemma MulMonotone(t: nat, a: int, b: int)
    requires a <= b
    ensures t * a <= t * b
  {
    assert t * b - t * a == t * (b - a);
  }

  /** A share of the total lies between 0 and 100. */
  lemma PercentBounded(count: nat, total: nat)
    requires count <= total
    ensures 0 <= Percent(count, total) <= 100
  {
    if total > 0 {
      var q := Percent(count, total);
      PercentRounds(count, total);
      if q > 100 {
        MulMonotone(2 * total, 101, q);
      }
    }
  }

  lemma Distribute(x: int, a: int, b: int, c: int)
    ensures x * (a + b + c) == x * a + x * b + x * c
  {
  }

  lemma SumBounds(m: nat, qa: nat, qb: nat, qc: nat, bound: int)
    requires m > 0
    requires m * qa + m * qb + m * qc <= bound < m * qa + m * qb + m * qc + 3 * m
    ensures m * (qa + qb + qc) <= bound < m * (qa + qb + qc) + 3 * m
  {
    Distribute(m, qa, qb, qc);
  }

  lemma SumNear100(m: nat, sum: nat, total: nat)
    requires m == 2 * total && total > 0
    requires m * sum <= 203 * total < m * sum + 3 * m
    ensures 99 <= sum <= 101
  {
    if sum > 101 {
      MulMonotone(m, 102, sum);
    }
    if sum < 99 {
      MulMonotone(m, sum, 98);
    }
  }

  datatype Shares = Shares(positive: nat, negative: nat, neutral: nat)

  function Percentages(counts: Tally): Shares
  {
    var total := counts.positive + counts.negative + counts.neutral;
    Shares(Percent(counts.positive, total), Percent(counts.negative, total), Percent(counts.neutral, total))
  }

  /** Separately rounded shares of one total add up to 99, 100 or 101. */
  lemma RoundedSharesSum(a: nat, b: nat, c: nat)
    requires a + b + c > 0
    ensures var total := a + b + c;
      99 <= Percent(a, total) + Percent(b, total) + Percent(c, total) <= 101
  {
    var total := a + b + c;
    var qa, qb, qc := Percent(a, total), Percent(b, total), Percent(c, total);
    PercentRounds(a, total);
    PercentRounds(b, total);
    PercentRounds(c, total);
    var m := 2 * total;
    SumBounds(m, qa, qb, qc, 203 * total);
    SumNear100(m, qa + qb + qc, total);
  }

  /** With nothing counted every share is 0; otherwise each share is at most
      100 and, because each is rounded separately, they add up to 99, 100 or 101. */
  lemma PercentagesSpec(counts: Tally)
    ensures var s := Percentages(counts);
      && s.positive <= 100 && s.negative <= 100 && s.neutral <= 100
      && (counts == Tally(0, 0, 0) ==> s == Shares(0, 0, 0))
      && (counts != Tally(0, 0, 0) ==> 99 <= s.positive + s.negative + s.neutral <= 101)
  {
    var total := counts.positive + counts.negative + counts.neutral;
    PercentBounded(counts.positive, total);
    PercentBounded(counts.negative, total);
    PercentBounded(counts.neutral, total);
    if total > 0 {
      RoundedSharesSum(counts.positive, counts.negative, counts.neutral);
    }
  }
}
