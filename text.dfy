/** ASCII stand-ins for the JavaScript string operations the core relies on:
    the `\s` class, `toLowerCase`, `includes`, `trim` and `split` with a
    one-character separator. Only the ASCII range is modelled. */
module Text {

  /** The ASCII members of JavaScript's `\s` class (also what `trim` removes). */
  predicate IsSpace(c: char)
  {
    c == ' ' || c == '\t' || c == '\n' || c == '\r' || c == '\U{0B}' || c == '\U{0C}'
  }

  predicate IsUpper(c: char) { 'A' <= c <= 'Z' }

  predicate IsDigit(c: char) { '0' <= c <= '9' }

  /** The class `[a-zA-Z0-9]`. */
  predicate IsAlnum(c: char) { IsUpper(c) || 'a' <= c <= 'z' || IsDigit(c) }

  /** `toLowerCase` on one ASCII character. */
  function LowerChar(c: char): (d: char)
    ensures !IsUpper(d)
    ensures IsAlnum(c) <==> IsAlnum(d)
    ensures IsSpace(c) <==> IsSpace(d)
  {
    if IsUpper(c) then (c as int + 32) as char else c
  }

  /** `toLowerCase` on an ASCII string. */
  function Lower(s: string): (r: string)
    ensures |r| == |s|
    ensures forall i :: 0 <= i < |s| ==> r[i] == LowerChar(s[i])
  {
    if s == [] then [] else [LowerChar(s[0])] + Lower(s[1..])
  }

  lemma LowerIdempotent(s: string)
    ensures Lower(Lower(s)) == Lower(s)
  {
    assert forall i :: 0 <= i < |s| ==> Lower(Lower(s))[i] == Lower(s)[i];
  }

  /** `s[i..i+|sub|] == sub`, compared character by character from offset `j`. */
  predicate PrefixAt(s: string, sub: string, i: nat, j: nat)
    requires i + |sub| <= |s| && j <= |sub|
    decreases |sub| - j
  {
    j == |sub| || (s[i + j] == sub[j] && PrefixAt(s, sub, i, j + 1))
  }

  predicate ContainsFrom(s: string, sub: string, i: nat)
    decreases |s| - i
  {
    i + |sub| <= |s| && (PrefixAt(s, sub, i, 0) || ContainsFrom(s, sub, i + 1))
  }

  /** `s.includes(sub)`. */
  predicate Contains(s: string, sub: string)
  {
    ContainsFrom(s, sub, 0)
  }

  /** `sub` occurs in `s` at offset `i`. */
  predicate OccursAt(s: string, sub: string, i: int)
  {
    0 <= i && i + |sub| <= |s| && s[i..i + |sub|] == sub
  }

  lemma {:induction false} PrefixAtIff(s: string, sub: string, i: nat, j: nat)
    requires i + |sub| <= |s| && j <= |sub|
    ensures PrefixAt(s, sub, i, j) <==> forall k :: j <= k < |sub| ==> s[i + k] == sub[k]
    decreases |sub| - j
  {
    if j < |sub| {
      PrefixAtIff(s, sub, i, j + 1);
    }
  }

  lemma {:induction false} ContainsFromIff(s: string, sub: string, i: nat)
    ensures ContainsFrom(s, sub, i) <==> exists k :: i <= k && OccursAt(s, sub, k)
    decreases |s| - i
  {
    if i + |sub| <= |s| {
      PrefixAtIff(s, sub, i, 0);
      assert PrefixAt(s, sub, i, 0) <==> OccursAt(s, sub, i) by {
        if PrefixAt(s, sub, i, 0) {
          assert s[i..i + |sub|] == sub;
        }
      }
      ContainsFromIff(s, sub, i + 1);
      if exists k :: i <= k && OccursAt(s, sub, k) {
        var k :| i <= k && OccursAt(s, sub, k);
        assert k == i || (i + 1 <= k && OccursAt(s, sub, k));
      }
    }
  }

  /** `Contains` agrees with the plain definition of substring occurrence. */
  lemma ContainsIff(s: string, sub: string)
    ensures Contains(s, sub) <==> exists k :: OccursAt(s, sub, k)
  {
    ContainsFromIff(s, sub, 0);
  }

  lemma ContainsAt(s: string, sub: string, k: int)
    requires OccursAt(s, sub, k)
    ensures Contains(s, sub)
  {
    ContainsIff(s, sub);
  }

  /** Containment is transitive. */
  lemma ContainsTransitive(a: string, b: string, c: string)
    requires Contains(a, b) && Contains(b, c)
    ensures Contains(a, c)
  {
    ContainsIff(a, b);
    ContainsIff(b, c);
    var i :| OccursAt(a, b, i);
    var j :| OccursAt(b, c, j);
    var ab := a[i..i + |b|];
    assert forall k :: 0 <= k < |b| ==> ab[k] == a[i + k];
    assert a[i + j..i + j + |c|] == b[j..j + |c|];
    ContainsAt(a, c, i + j);
  }

  /** Leading whitespace removed (`trimStart`). */
  function TrimStart(s: string): (r: string)
    ensures |r| <= |s| && r == s[|s| - |r|..]
    ensures forall k :: 0 <= k < |s| - |r| ==> IsSpace(s[k])
    ensures r == [] || !IsSpace(r[0])
  {
    if s != [] && IsSpace(s[0]) then TrimStart(s[1..]) else s
  }

  /** Nothing but whitespace. */
  predicate AllSpace(s: string)
  {
    forall k :: 0 <= k < |s| ==> IsSpace(s[k])
  }

  /** Leading whitespace of `a + b` is that of `a`, and then that of `b`
      when `a` is all whitespace. */
  lemma {:induction false} TrimStartAppend(a: string, b: string)
    ensures AllSpace(a) ==> TrimStart(a + b) == TrimStart(b)
    ensures !AllSpace(a) ==> TrimStart(a + b) == TrimStart(a) + b
  {
    if a == [] {
      assert a + b == b;
    } else if !IsSpace(a[0]) {
      assert (a + b)[0] == a[0];
    } else {
      var ab := a + b;
      assert ab[0] == a[0] && ab[1..] == a[1..] + b;
      assert AllSpace(a) <==> AllSpace(a[1..]) by {
        assert forall k :: 1 <= k < |a| ==> a[k] == a[1..][k - 1];
      }
      TrimStartAppend(a[1..], b);
    }
  }

  /** Trimming the front of a string that is not all whitespace keeps its last character. */
  lemma TrimStartKeepsLast(a: string)
    requires !AllSpace(a)
    ensures var t := TrimStart(a); t != [] && |t| <= |a| && t[|t| - 1] == a[|a| - 1]
  {
  }

  /** Trailing whitespace removed (`trimEnd`). */
  function TrimEnd(s: string): (r: string)
    ensures |r| <= |s| && r == s[..|r|]
    ensures forall k :: |r| <= k < |s| ==> IsSpace(s[k])
    ensures r == [] || !IsSpace(r[|r| - 1])
  {
    if s != [] && IsSpace(s[|s| - 1]) then TrimEnd(s[..|s| - 1]) else s
  }

  /** `trim`: the result is a slice of the input with no whitespace at either end,
      and only whitespace was cut off. */
  function Trim(s: string): (r: string)
    ensures exists a :: OccursAt(s, r, a) && TrimmedAround(s, a, a + |r|)
    ensures r == [] || (!IsSpace(r[0]) && !IsSpace(r[|r| - 1]))
  {
    var t := TrimStart(s);
    var r := TrimEnd(t);
    TrimPieces(s, t, r);
    r
  }

  /** A front cut of whitespace followed by a back cut of whitespace leaves a
      slice with only whitespace around it. */
  lemma TrimPieces(s: string, t: string, r: string)
    requires |t| <= |s| && t == s[|s| - |t|..] && forall k :: 0 <= k < |s| - |t| ==> IsSpace(s[k])
    requires |r| <= |t| && r == t[..|r|] && forall k :: |r| <= k < |t| ==> IsSpace(t[k])
    ensures OccursAt(s, r, |s| - |t|) && TrimmedAround(s, |s| - |t|, |s| - |t| + |r|)
  {
    var a := |s| - |t|;
    assert forall k :: a + |r| <= k < |s| ==> s[k] == t[k - a];
    assert s[a..a + |r|] == r;
  }

  /** Everything of `s` outside `[a, b)` is whitespace. */
  predicate TrimmedAround(s: string, a: nat, b: nat)
  {
    a <= b <= |s|
    && (forall k :: 0 <= k < a ==> IsSpace(s[k]))
    && (forall k :: b <= k < |s| ==> IsSpace(s[k]))
  }

  lemma TrimUntouched(s: string)
    requires s == [] || (!IsSpace(s[0]) && !IsSpace(s[|s| - 1]))
    ensures Trim(s) == s
  {
  }

  /** `s.split(c)` for a one-character separator: the pieces between
      separators, one more piece than there are separators. */
  function Split(s: string, c: char): (r: seq<string>)
    ensures |r| >= 1
  {
    if s == [] then [""]
    else
      var rest := Split(s[1..], c);
      if s[0] == c then [""] + rest else [[s[0]] + rest[0]] + rest[1..]
  }

  /** Every piece of a split is a substring of the split string. */
  lemma {:induction false} SplitPiecesOccur(s: string, c: char, k: nat)
    requires k < |Split(s, c)|
    ensures Contains(s, Split(s, c)[k])
  {
    var r := Split(s, c);
    if s == [] {
      ContainsAt(s, r[k], 0);
    } else {
      var rest := Split(s[1..], c);
      if s[0] == c {
        if k == 0 {
          ContainsAt(s, r[k], 0);
        } else {
          SplitPiecesOccur(s[1..], c, k - 1);
          ContainsAt(s, s[1..], 1);
          ContainsTransitive(s, s[1..], r[k]);
        }
      } else if k == 0 {
        SplitFirstIsPrefix(s[1..], c);
        assert r[0] == s[..1 + |rest[0]|];
        ContainsAt(s, r[0], 0);
      } else {
        SplitPiecesOccur(s[1..], c, k);
        ContainsAt(s, s[1..], 1);
        ContainsTransitive(s, s[1..], r[k]);
      }
    }
  }

  /** Splitting at one occurrence of the separator splits the two sides
      independently. */
  lemma {:induction false} SplitAt(a: string, b: string, c: char)
    ensures Split(a + [c] + b, c) == Split(a, c) + Split(b, c)
  {
    if a == [] {
      assert a + [c] + b == [c] + b;
    } else {
      assert (a + [c] + b)[1..] == a[1..] + [c] + b;
      SplitAt(a[1..], b, c);
    }
  }

  /** A string without the separator is a single piece. */
  lemma {:induction false} SplitNoSeparator(s: string, c: char)
    requires forall k :: 0 <= k < |s| ==> s[k] != c
    ensures Split(s, c) == [s]
  {
    if s != [] {
      SplitNoSeparator(s[1..], c);
      assert [s[0]] + s[1..] == s;
    }
  }

  lemma {:induction false} SplitFirstIsPrefix(s: string, c: char)
    ensures |Split(s, c)[0]| <= |s| && Split(s, c)[0] == s[..|Split(s, c)[0]|]
  {
    if s != [] {
      SplitFirstIsPrefix(s[1..], c);
    }
  }
}
