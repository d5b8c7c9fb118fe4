/** Product-name extraction (`extractProductName`, `cleanProductName` in
    frontend/src/services/redditService.js). The browser's `new URL(...)` is
    not modelled: its outcome is an input, either unparsable or the parsed
    hostname and pathname. */
module Names {
  import opened Text
  import opened Outcomes
  import opened Seqs

  datatype ParsedUrl = Unparsable | Parsed(hostname: string, pathname: string)

  /** The span `[begin, end)` of the captured group of a regular-expression match. */
  datatype Capture = Capture(begin: nat, end: nat)

  // ---------------------------------------------------------------------------
  // cleanProductName

  /** `s.replace(/from/g, to)` for a single character. */
  function ReplaceChar(s: string, from: char, to: char): (r: string)
    ensures |r| == |s|
    ensures forall i :: 0 <= i < |s| ==> r[i] == (if s[i] == from then to else s[i])
  {
    if s == [] then [] else [if s[0] == from then to else s[0]] + ReplaceChar(s[1..], from, to)
  }

  predicate IsWordChar(c: char) { IsAlnum(c) || IsSpace(c) }

  /** `s.replace(/[^a-zA-Z0-9\s]/g, '')`: the word and whitespace characters of
      `s`, in order. */
  function KeepWordChars(s: string): (r: string)
    ensures |r| <= |s|
    ensures forall i :: 0 <= i < |r| ==> IsWordChar(r[i])
    ensures (forall i :: 0 <= i < |s| ==> IsWordChar(s[i])) ==> r == s
    ensures forall i :: 0 <= i < |r| ==> r[i] in s
  {
    if s == [] then []
    else if IsWordChar(s[0]) then [s[0]] + KeepWordChars(s[1..])
    else KeepWordChars(s[1..])
  }

  /** Deleting characters works piece by piece, so the kept characters stay
      in their order; with the contract above (a lone non-word character
      leaves nothing, a lone word character stays) this pins the result down. */
  lemma {:induction false} KeepWordCharsAppend(a: string, b: string)
    ensures KeepWordChars(a + b) == KeepWordChars(a) + KeepWordChars(b)
  {
    if a == [] {
      assert a + b == b;
    } else {
      assert (a + b)[0] == a[0] && (a + b)[1..] == a[1..] + b;
      KeepWordCharsAppend(a[1..], b);
    }
  }

  /** `s.replace(/\s+/g, ' ')`: every maximal run of whitespace becomes one space. */
  function CollapseSpaces(s: string): (r: string)
    ensures |r| <= |s|
    ensures s != [] ==> r != [] && r[0] == (if IsSpace(s[0]) then ' ' else s[0])
    ensures forall i :: 0 <= i < |r| ==> r[i] == ' ' || !IsSpace(r[i])
    ensures (forall i :: 0 <= i < |s| ==> IsWordChar(s[i])) ==>
              forall i :: 0 <= i < |r| ==> IsAlnum(r[i]) || r[i] == ' '
    ensures forall i :: 0 <= i < |r| - 1 ==> !(r[i] == ' ' && r[i + 1] == ' ')
    decreases |s|
  {
    if s == [] then []
    else if IsSpace(s[0]) then [' '] + CollapseSpaces(TrimStart(s))
    else [s[0]] + CollapseSpaces(s[1..])
  }

  /** A run of whitespace becomes a single space. */
  lemma CollapseRun(w: string)
    requires w != [] && forall k :: 0 <= k < |w| ==> IsSpace(w[k])
    ensures CollapseSpaces(w) == " "
  {
    assert TrimStart(w) == [];
  }

  /** Cutting `a + b` between `a` and `b` does not split a run of whitespace. */
  predicate CutOutsideRun(a: string, b: string)
  {
    a == [] || b == [] || !IsSpace(a[|a| - 1]) || !IsSpace(b[0])
  }

  /** Collapsing works piece by piece wherever the cut does not fall inside a
      run of whitespace: non-space characters are kept in order and every
      run is collapsed on its own. */
  lemma {:induction false} CollapseAppend(a: string, b: string)
    requires CutOutsideRun(a, b)
    ensures CollapseSpaces(a + b) == CollapseSpaces(a) + CollapseSpaces(b)
    decreases |a|
  {
    if a == [] {
      assert a + b == b;
    } else if !IsSpace(a[0]) {
      CollapseKeepsChar(a, b);
      CollapseAppend(a[1..], b);
      AppendAssoc([a[0]], CollapseSpaces(a[1..]), CollapseSpaces(b));
    } else if AllSpace(a) {
      CollapseRunThen(a, b);
    } else {
      var t := TrimStart(a);
      CollapseSpaced(a, b, t);
      CollapseAppend(t, b);
      AppendAssoc([' '], CollapseSpaces(t), CollapseSpaces(b));
    }
  }

  lemma CollapseKeepsChar(a: string, b: string)
    requires a != [] && !IsSpace(a[0]) && CutOutsideRun(a, b)
    ensures CutOutsideRun(a[1..], b)
    ensures CollapseSpaces(a + b) == [a[0]] + CollapseSpaces(a[1..] + b)
    ensures CollapseSpaces(a) == [a[0]] + CollapseSpaces(a[1..])
  {
    var ab := a + b;
    assert ab[0] == a[0] && ab[1..] == a[1..] + b;
  }

  lemma CollapseRunThen(a: string, b: string)
    requires a != [] && AllSpace(a) && CutOutsideRun(a, b)
    ensures CollapseSpaces(a + b) == CollapseSpaces(a) + CollapseSpaces(b)
  {
    var ab := a + b;
    assert ab[0] == a[0];
    TrimStartAppend(a, b);
    CollapseRun(a);
  }

  lemma CollapseSpaced(a: string, b: string, t: string)
    requires a != [] && IsSpace(a[0]) && !AllSpace(a) && t == TrimStart(a) && CutOutsideRun(a, b)
    ensures |t| < |a| && CutOutsideRun(t, b)
    ensures CollapseSpaces(a + b) == [' '] + CollapseSpaces(t + b)
    ensures CollapseSpaces(a) == [' '] + CollapseSpaces(t)
  {
    TrimStartKeepsLast(a);
    var ab := a + b;
    assert ab[0] == a[0];
    TrimStartAppend(a, b);
  }

  /** A name as `cleanProductName` leaves it: ASCII letters, digits and single
      inner spaces only. */
  predicate IsCleanName(s: string)
  {
    && (forall i :: 0 <= i < |s| ==> IsAlnum(s[i]) || s[i] == ' ')
    && (s != [] ==> s[0] != ' ' && s[|s| - 1] != ' ')
    && (forall i :: 0 <= i < |s| - 1 ==> !(s[i] == ' ' && s[i + 1] == ' '))
  }

  /** `IsCleanName` checked position by position from `i`, so that it can be
      evaluated on literal strings. */
  predicate CleanFrom(s: string, i: nat)
    decreases |s| - i
  {
    i >= |s|
    || ((IsAlnum(s[i]) || s[i] == ' ')
        && (i + 1 < |s| ==> !(s[i] == ' ' && s[i + 1] == ' '))
        && CleanFrom(s, i + 1))
  }

  lemma {:induction false} CleanFromIff(s: string, i: nat)
    requires i <= |s|
    ensures CleanFrom(s, i) <==>
      && (forall k :: i <= k < |s| ==> IsAlnum(s[k]) || s[k] == ' ')
      && (forall k :: i <= k < |s| - 1 ==> !(s[k] == ' ' && s[k + 1] == ' '))
    decreases |s| - i
  {
    if i < |s| {
      CleanFromIff(s, i + 1);
    }
  }

  /** `cleanProductName`: hyphens and underscores become spaces, other
      punctuation is dropped, whitespace runs shrink to one space, and the
      ends are trimmed. */
  function CleanProductName(name: string): (r: string)
    ensures IsCleanName(r)
  {
    var spaced := ReplaceChar(ReplaceChar(name, '-', ' '), '_', ' ');
    var kept := KeepWordChars(spaced);
    var collapsed := CollapseSpaces(kept);
    TrimKeepsCleanShape(collapsed);
    Trim(collapsed)
  }

  /** Trimming a string of letters, digits and single spaces leaves a clean name. */
  lemma TrimKeepsCleanShape(s: string)
    requires forall i :: 0 <= i < |s| ==> IsAlnum(s[i]) || s[i] == ' '
    requires forall i :: 0 <= i < |s| - 1 ==> !(s[i] == ' ' && s[i + 1] == ' ')
    ensures IsCleanName(Trim(s))
  {
    var r := Trim(s);
    var a :| OccursAt(s, r, a);
    SliceKeepsShape(s, a, a + |r|);
  }

  /** A slice of a string of letters, digits and single spaces is one too. */
  lemma SliceKeepsShape(s: string, a: nat, b: nat)
    requires a <= b <= |s|
    requires forall i :: 0 <= i < |s| ==> IsAlnum(s[i]) || s[i] == ' '
    requires forall i :: 0 <= i < |s| - 1 ==> !(s[i] == ' ' && s[i + 1] == ' ')
    ensures forall i :: 0 <= i < b - a ==> IsAlnum(s[a..b][i]) || s[a..b][i] == ' '
    ensures forall i :: 0 <= i < b - a - 1 ==> !(s[a..b][i] == ' ' && s[a..b][i + 1] == ' ')
  {
    forall i | 0 <= i < b - a
      ensures IsAlnum(s[a..b][i]) || s[a..b][i] == ' '
    {
      assert s[a..b][i] == s[a + i];
    }
    forall i | 0 <= i < b - a - 1
      ensures !(s[a..b][i] == ' ' && s[a..b][i + 1] == ' ')
    {
      assert s[a..b][i] == s[a + i] && s[a..b][i + 1] == s[a + i + 1];
    }
  }

  lemma {:induction false} CollapseKeepsSingleSpaces(s: string)
    requires forall i :: 0 <= i < |s| ==> IsAlnum(s[i]) || s[i] == ' '
    requires forall i :: 0 <= i < |s| - 1 ==> !(s[i] == ' ' && s[i + 1] == ' ')
    ensures CollapseSpaces(s) == s
    decreases |s|
  {
    if s != [] {
      CollapseKeepsSingleSpaces(s[1..]);
      if IsSpace(s[0]) {
        assert s[1..] == [] || !IsSpace(s[1]);
        assert TrimStart(s) == s[1..];
      }
    }
  }

  /** When swapping hyphens and underscores for spaces already gives a clean
      name, that is the result. */
  lemma CleanAfterSpacing(s: string)
    requires IsCleanName(ReplaceChar(ReplaceChar(s, '-', ' '), '_', ' '))
    ensures CleanProductName(s) == ReplaceChar(ReplaceChar(s, '-', ' '), '_', ' ')
  {
    var spaced := ReplaceChar(ReplaceChar(s, '-', ' '), '_', ' ');
    CollapseKeepsSingleSpaces(spaced);
    TrimUntouched(spaced);
  }

  /** A clean name is left as it is. */
  lemma CleanFixesCleanNames(s: string)
    requires IsCleanName(s)
    ensures CleanProductName(s) == s
  {
    assert ReplaceChar(ReplaceChar(s, '-', ' '), '_', ' ') == s;
    CleanAfterSpacing(s);
  }

  /** Cleaning twice is cleaning once. */
  lemma CleanIdempotent(s: string)
    ensures CleanProductName(CleanProductName(s)) == CleanProductName(s)
  {
    CleanFixesCleanNames(CleanProductName(s));
  }

  // ---------------------------------------------------------------------------
  // The Amazon rule: /\/([^\/]+)\/dp\/[A-Z0-9]{10}/

  /** `/dp/` followed by ten characters of `[A-Z0-9]`, starting at `j`. */
  predicate DpIdAt(p: string, j: nat)
  {
    && j + 14 <= |p|
    && p[j] == '/' && p[j + 1] == 'd' && p[j + 2] == 'p' && p[j + 3] == '/'
    && forall k :: j + 4 <= k < j + 14 ==> IsUpper(p[k]) || IsDigit(p[k])
  }

  /** The pattern matches at `i` with its group `[^\/]+` spanning `(i, j)`. */
  predicate SlugMatchAt(p: string, i: nat, j: nat)
  {
    && i + 1 < j <= |p|
    && p[i] == '/'
    && (forall k :: i < k < j ==> p[k] != '/')
    && DpIdAt(p, j)
  }

  /** The group of a match at `i` can end only at the first slash after `i`. */
  lemma SlugEndUnique(p: string, i: nat, j1: nat, j2: nat)
    requires SlugMatchAt(p, i, j1) && SlugMatchAt(p, i, j2)
    ensures j1 == j2
  {
  }

  /** The first slash at or after `k`, or `|p|`. */
  function NextSlash(p: string, k: nat): (j: nat)
    requires k <= |p|
    ensures k <= j <= |p|
    ensures j < |p| ==> p[j] == '/'
    ensures forall m :: k <= m < j ==> p[m] != '/'
    decreases |p| - k
  {
    if k == |p| || p[k] == '/' then k else NextSlash(p, k + 1)
  }

  /** The leftmost match of the Amazon pattern in `p` starting no earlier than
      `from`, as the span of its group. */
  function FindAmazonSlug(p: string, from: nat): (r: Option<Capture>)
    requires from <= |p|
    ensures r.None? ==> forall i, j :: from <= i && SlugMatchAt(p, i, j) ==> false
    ensures r.Some? ==> from < r.value.begin && SlugMatchAt(p, r.value.begin - 1, r.value.end)
    ensures r.Some? ==> forall i, j :: from <= i < r.value.begin - 1 ==> !SlugMatchAt(p, i, j)
    decreases |p| - from
  {
    if from == |p| then None
    else if p[from] == '/' && NextSlash(p, from + 1) > from + 1 && DpIdAt(p, NextSlash(p, from + 1)) then
      Some(Capture(from + 1, NextSlash(p, from + 1)))
    else
      FindAmazonSlug(p, from + 1)
  }

  /** The non-empty pieces of `path.split('/')`, in order. */
  function Segments(path: string): (r: seq<string>)
    ensures forall k :: 0 <= k < |r| ==> r[k] != ""
  {
    NonEmpty(Split(path, '/'))
  }

  function NonEmpty(parts: seq<string>): (r: seq<string>)
    ensures forall k :: 0 <= k < |r| ==> r[k] != "" && r[k] in parts
    ensures forall s :: s in parts && s != "" ==> s in r
  {
    if parts == [] then []
    else if parts[0] == "" then NonEmpty(parts[1..])
    else [parts[0]] + NonEmpty(parts[1..])
  }

  lemma {:induction false} NonEmptyAppend(p: seq<string>, q: seq<string>)
    ensures NonEmpty(p + q) == NonEmpty(p) + NonEmpty(q)
  {
    if p == [] {
      assert p + q == q;
    } else {
      assert (p + q)[0] == p[0] && (p + q)[1..] == p[1..] + q;
      NonEmptyAppend(p[1..], q);
    }
  }

  /** A path without `/` is one segment, or none when it is empty. */
  lemma SegmentsOfPiece(piece: string)
    requires forall k :: 0 <= k < |piece| ==> piece[k] != '/'
    ensures Segments(piece) == if piece == "" then [] else [piece]
  {
    SplitNoSeparator(piece, '/');
    assert NonEmpty([piece]) == if piece == "" then [] else [piece] by {
      assert [piece][0] == piece && [piece][1..] == [];
    }
  }

  /** The segments on either side of a `/` follow one another: the segments
      are the non-empty `/`-separated pieces, in order. */
  lemma SegmentsAt(a: string, b: string)
    ensures Segments(a + "/" + b) == Segments(a) + Segments(b)
  {
    assert a + "/" + b == a + ['/'] + b;
    SplitAt(a, b, '/');
    NonEmptyAppend(Split(a, '/'), Split(b, '/'));
  }

  /** Either "http" or "." occurs in the input, so it is treated as a URL. */
  predicate LooksLikeUrl(input: string)
  {
    Contains(input, "http") || Contains(input, ".")
  }

  ghost predicate HasAmazonMatch(url: ParsedUrl)
  {
    url.Parsed? && Contains(url.hostname, "amazon")
    && exists i, j :: SlugMatchAt(url.pathname, i, j)
  }

  /** `extractProductName(input)` where `url` is what `new URL(input)` gives.
      A bare phrase is trimmed; an Amazon product URL gives the cleaned slug
      before its `/dp/<id>`; any other URL gives its cleaned last path segment;
      a URL that does not parse or has no path segment gives the trimmed input
      (the `undefined` segment throws inside the `try`). Whatever the branch,
      the result is the trimmed input or a clean name. */
  function ExtractProductName(input: string, url: ParsedUrl): (r: string)
    ensures !LooksLikeUrl(input) ==> r == Trim(input)
    ensures LooksLikeUrl(input) && url.Unparsable? ==> r == Trim(input)
    ensures r == Trim(input) || IsCleanName(r)
  {
    if !LooksLikeUrl(input) then Trim(input)
    else match url
      case Unparsable => Trim(input)
      case Parsed(host, path) =>
        var slug := if Contains(host, "amazon") then FindAmazonSlug(path, 0) else None;
        if slug.Some? then
          CleanProductName(path[slug.value.begin..slug.value.end])
        else
          var parts := Segments(path);
          if parts == [] then Trim(input) else CleanProductName(parts[|parts| - 1])
  }

  /** On an Amazon host, the leftmost match of the pattern decides: the result
      is its cleaned group. */
  lemma AmazonRule(input: string, host: string, path: string, i: nat, j: nat)
    requires LooksLikeUrl(input) && Contains(host, "amazon")
    requires SlugMatchAt(path, i, j)
    requires forall i', j' :: SlugMatchAt(path, i', j') ==> i <= i'
    ensures ExtractProductName(input, Parsed(host, path)) == CleanProductName(path[i + 1..j])
  {
    var c := FindAmazonSlug(path, 0);
    assert c.Some?;
    var b, e := c.value.begin, c.value.end;
    assert i <= b - 1;
    assert b - 1 <= i;
    SlugEndUnique(path, i, j, e);
    AmazonBranch(input, host, path);
  }

  lemma AmazonBranch(input: string, host: string, path: string)
    requires LooksLikeUrl(input) && Contains(host, "amazon") && FindAmazonSlug(path, 0).Some?
    ensures var c := FindAmazonSlug(path, 0).value;
      ExtractProductName(input, Parsed(host, path)) == CleanProductName(path[c.begin..c.end])
  {
  }

  /** Without an Amazon match, the cleaned last non-empty path segment is the
      result, or the trimmed input when the path has no such segment. */
  lemma PathRule(input: string, host: string, path: string)
    requires LooksLikeUrl(input)
    requires !Contains(host, "amazon") || forall i, j :: !SlugMatchAt(path, i, j)
    ensures var parts := Segments(path);
      ExtractProductName(input, Parsed(host, path))
      == if parts == [] then Trim(input) else CleanProductName(parts[|parts| - 1])
  {
    NoAmazonSlug(host, path);
  }

  lemma NoAmazonSlug(host: string, path: string)
    requires !Contains(host, "amazon") || forall i, j :: !SlugMatchAt(path, i, j)
    ensures (if Contains(host, "amazon") then FindAmazonSlug(path, 0) else None).None?
  {
    if Contains(host, "amazon") {
      var r := FindAmazonSlug(path, 0);
      if r.Some? {
        assert false;
      }
    }
  }

  /** The end-to-end example: an Amazon product link yields its cleaned slug. */
  lemma AmazonExample(input: string, path: string)
    requires input == "https://amazon.com" + path
    requires path == "/sony-wh1000xm5/dp/B0CCZ1L489"
    ensures ExtractProductName(input, Parsed("amazon.com", path)) == "sony wh1000xm5"
  {
    ExampleLooksLikeUrl(path);
    assert Contains("amazon.com", "amazon");
    ExampleMatch();
    AmazonRule(input, "amazon.com", path, 0, 15);
    ExampleSlug();
    ExampleClean(path[1..15]);
  }

  lemma ExampleClean(slug: string)
    requires slug == "sony-wh1000xm5"
    ensures CleanProductName(slug) == "sony wh1000xm5"
  {
    ExampleSpaced(slug);
    ExampleIsClean();
    CleanAfterSpacing(slug);
  }

  lemma ExampleSpaced(slug: string)
    requires slug == "sony-wh1000xm5"
    ensures ReplaceChar(ReplaceChar(slug, '-', ' '), '_', ' ') == "sony wh1000xm5"
  {
    assert SpacedFrom("sony-wh1000xm5", "sony wh1000xm5", 0);
    SpacedFromIff(slug, "sony wh1000xm5", 0);
  }

  /** `r[i..]` is `s[i..]` with dashes and underscores made spaces, checked
      position by position so that it can be evaluated on literal strings. */
  predicate SpacedFrom(s: string, r: string, i: nat)
    decreases |s| - i
  {
    if i >= |s| then |r| == |s|
    else i < |r| && r[i] == (if s[i] == '-' || s[i] == '_' then ' ' else s[i]) && SpacedFrom(s, r, i + 1)
  }

  lemma {:induction false} SpacedFromIff(s: string, r: string, i: nat)
    requires i <= |s| && SpacedFrom(s, r, i)
    ensures |r| == |s|
    ensures forall k :: i <= k < |s| ==> r[k] == (if s[k] == '-' || s[k] == '_' then ' ' else s[k])
    ensures i == 0 ==> ReplaceChar(ReplaceChar(s, '-', ' '), '_', ' ') == r
    decreases |s| - i
  {
    if i < |s| {
      SpacedFromIff(s, r, i + 1);
    }
  }

  lemma ExampleIsClean()
    ensures IsCleanName("sony wh1000xm5")
  {
    assert CleanFrom("sony wh1000xm5", 0);
    CleanFromIff("sony wh1000xm5", 0);
  }

  lemma ExampleLooksLikeUrl(path: string)
    ensures LooksLikeUrl("https://amazon.com" + path)
  {
    var input := "https://amazon.com" + path;
    var site := "https://amazon.com";
    assert site[0] == 'h' && site[1] == 't' && site[2] == 't' && site[3] == 'p';
    assert forall k :: 0 <= k < 4 ==> input[k] == site[k];
    PrefixAtIff(input, "http", 0, 0);
    assert ContainsFrom(input, "http", 0);
  }

  lemma ExampleMatch()
    ensures SlugMatchAt("/sony-wh1000xm5/dp/B0CCZ1L489", 0, 15)
  {
    var slug, id := "/sony-wh1000xm5", "/dp/B0CCZ1L489";
    assert "/sony-wh1000xm5/dp/B0CCZ1L489" == slug + id;
    assert forall k :: 0 < k < |slug| ==> slug[k] != '/';
    assert forall k :: 4 <= k < 14 ==> IsUpper(id[k]) || IsDigit(id[k]);
    MatchOfParts(slug, id);
  }

  /** A slash-led segment followed by a `/dp/<id>` matches over that segment. */
  lemma MatchOfParts(slug: string, id: string)
    requires |slug| >= 2 && slug[0] == '/'
    requires forall k :: 0 < k < |slug| ==> slug[k] != '/'
    requires DpIdAt(id, 0)
    ensures SlugMatchAt(slug + id, 0, |slug|)
  {
    var p, n := slug + id, |slug|;
    assert forall k :: 0 <= k < n ==> p[k] == slug[k];
    assert forall k :: 0 <= k < |id| ==> p[n + k] == id[k];
    assert p[n] == '/' && p[n + 1] == 'd' && p[n + 2] == 'p' && p[n + 3] == '/';
    forall k | n + 4 <= k < n + 14
      ensures IsUpper(p[k]) || IsDigit(p[k])
    {
      assert p[k] == id[k - n];
    }
  }

  lemma ExampleSlug()
    ensures "/sony-wh1000xm5/dp/B0CCZ1L489"[1..15] == "sony-wh1000xm5"
  {
    var slug, id := "/sony-wh1000xm5", "/dp/B0CCZ1L489";
    assert "/sony-wh1000xm5/dp/B0CCZ1L489" == slug + id;
    assert (slug + id)[1..15] == slug[1..15];
    assert PrefixAt("/sony-wh1000xm5", "sony-wh1000xm5", 1, 0);
    PrefixAtIff("/sony-wh1000xm5", "sony-wh1000xm5", 1, 0);
  }
}
