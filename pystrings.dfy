/**
  The few operations on Python `str` that the crossposter relies on, with
  Python's semantics: `str.split()` without arguments, `' '.join`, `str.strip()`,
  the `in` operator, `str.startswith` and `str.replace` (every non-overlapping
  occurrence, scanned left to right).
 */
module PyStrings {

  /** `c.isspace()`: the characters that `split()` and `strip()` treat as whitespace. */
  predicate IsSpace(c: char) {
    var n := c as int;
    n == 0x20 || 0x09 <= n <= 0x0D || 0x1C <= n <= 0x1F || n == 0x85 || n == 0xA0
    || n == 0x1680 || 0x2000 <= n <= 0x200A || n == 0x2028 || n == 0x2029
    || n == 0x202F || n == 0x205F || n == 0x3000
  }

  /** A word as `split()` produces it: non-empty and free of whitespace. */
  predicate IsWord(w: string) {
    w != [] && forall i :: 0 <= i < |w| ==> !IsSpace(w[i])
  }

  predicate AllWords(ws: seq<string>) {
    forall i :: 0 <= i < |ws| ==> IsWord(ws[i])
  }

  predicate StartsWith(s: string, prefix: string) {
    |prefix| <= |s| && s[..|prefix|] == prefix
  }

  /** Python's `sub in s`; the empty string is in every string. */
  predicate Contains(s: string, sub: string)
    decreases |s|
  {
    StartsWith(s, sub) || (s != [] && Contains(s[1..], sub))
  }

  /** `a` is `b` with some elements deleted, the rest in their order. */
  predicate Subsequence(a: seq<string>, b: seq<string>)
    decreases |b|
  {
    a == [] || (b != [] && ((a[0] == b[0] && Subsequence(a[1..], b[1..])) || Subsequence(a, b[1..])))
  }

  /** Empty or whitespace only. */
  predicate Blank(s: string) {
    forall i :: 0 <= i < |s| ==> IsSpace(s[i])
  }

  /** Length of the longest whitespace-free prefix of `s`. */
  function WordLength(s: string): (n: nat)
    ensures n <= |s|
    ensures forall i :: 0 <= i < n ==> !IsSpace(s[i])
    ensures n < |s| ==> IsSpace(s[n])
  {
    if s == [] || IsSpace(s[0]) then 0 else 1 + WordLength(s[1..])
  }

  /** `s.split()`: the maximal runs of non-whitespace characters, in order. */
  function Split(s: string): (ws: seq<string>)
    ensures AllWords(ws)
    ensures ws == [] <==> Blank(s)
    decreases |s|
  {
    if s == [] then []
    else if IsSpace(s[0]) then Split(s[1..])
    else
      var n := WordLength(s);
      [s[..n]] + Split(s[n..])
  }

  /** `' '.join(ws)`. */
  function JoinSpace(ws: seq<string>): string {
    if ws == [] then ""
    else if |ws| == 1 then ws[0]
    else ws[0] + " " + JoinSpace(ws[1..])
  }

  function LStrip(s: string): string {
    if s != [] && IsSpace(s[0]) then LStrip(s[1..]) else s
  }

  function RStrip(s: string): string {
    if s != [] && IsSpace(s[|s| - 1]) then RStrip(s[..|s| - 1]) else s
  }

  /** `s.strip()`. */
  function Strip(s: string): string {
    RStrip(LStrip(s))
  }

  /** `s.replace("", rep)`: `rep` before every character and at the end. */
  function Interleave(s: string, rep: string): string {
    if s == [] then rep else rep + [s[0]] + Interleave(s[1..], rep)
  }

  /** `s.replace(pat, rep)`. */
  function Replace(s: string, pat: string, rep: string): (r: string)
    ensures pat != [] && !Contains(s, pat) ==> r == s
    decreases |s|
  {
    if pat == [] then Interleave(s, rep)
    else if s == [] then []
    else if StartsWith(s, pat) then rep + Replace(s[|pat|..], pat, rep)
    else [s[0]] + Replace(s[1..], pat, rep)
  }

  /** `s.replace(c, "")` for a single character `c`. */
  function Without(s: string, c: char): (r: string)
    ensures forall i :: 0 <= i < |r| ==> r[i] != c
  {
    if s == [] then []
    else (if s[0] == c then [] else [s[0]]) + Without(s[1..], c)
  }

  // ---------------------------------------------------------------------------
  // Lemmas

  lemma {:induction false} ContainsAppendRight(s: string, t: string, sub: string)
    requires Contains(s, sub)
    ensures Contains(s + t, sub)
    decreases |s|
  {
    if StartsWith(s, sub) {
      assert (s + t)[..|sub|] == s[..|sub|];
    } else {
      assert (s + t)[1..] == s[1..] + t;
      ContainsAppendRight(s[1..], t, sub);
    }
  }

  lemma {:induction false} ContainsAppendLeft(s: string, t: string, sub: string)
    requires Contains(t, sub)
    ensures Contains(s + t, sub)
    decreases |s|
  {
    if s != [] {
      assert (s + t)[1..] == s[1..] + t;
      ContainsAppendLeft(s[1..], t, sub);
    } else {
      assert s + t == t;
    }
  }

  /** A non-empty pattern that occurs leaves its replacement in the result. */
  lemma {:induction false} ReplaceIntroduces(s: string, pat: string, rep: string)
    requires pat != [] && Contains(s, pat)
    ensures Contains(Replace(s, pat, rep), rep)
    decreases |s|
  {
    if StartsWith(s, pat) {
      assert StartsWith(rep + Replace(s[|pat|..], pat, rep), rep);
    } else {
      ReplaceIntroduces(s[1..], pat, rep);
      ContainsAppendLeft([s[0]], Replace(s[1..], pat, rep), rep);
    }
  }

  lemma {:induction false} WithoutAppend(a: string, b: string, c: char)
    ensures Without(a + b, c) == Without(a, c) + Without(b, c)
  {
    if a != [] {
      assert (a + b)[1..] == a[1..] + b;
      WithoutAppend(a[1..], b, c);
    } else {
      assert a + b == b;
    }
  }

  lemma {:induction false} WithoutIdempotent(s: string, c: char)
    ensures Without(Without(s, c), c) == Without(s, c)
    decreases |s|
  {
    if s != [] {
      WithoutIdempotent(s[1..], c);
      WithoutAppend(if s[0] == c then [] else [s[0]], Without(s[1..], c), c);
    }
  }

  lemma {:induction false} WithoutInterleave(s: string, rep: string, c: char)
    requires Without(rep, c) == []
    ensures Without(Interleave(s, rep), c) == Without(s, c)
  {
    if s != [] {
      WithoutAppend(rep + [s[0]], Interleave(s[1..], rep), c);
      WithoutAppend(rep, [s[0]], c);
      WithoutInterleave(s[1..], rep, c);
    }
  }

  /**
    Replacing a pattern by the same pattern with every `c` removed leaves the
    string unchanged once every `c` is removed from both: such a rewrite only
    deletes `c` characters.
   */
  lemma {:induction false} ReplaceByWithout(s: string, pat: string, c: char)
    ensures Without(Replace(s, pat, Without(pat, c)), c) == Without(s, c)
    decreases |s|
  {
    var rep := Without(pat, c);
    if pat == [] {
      WithoutInterleave(s, rep, c);
    } else if s == [] {
    } else if StartsWith(s, pat) {
      var rest := s[|pat|..];
      ReplaceByWithout(rest, pat, c);
      WithoutAppend(rep, Replace(rest, pat, rep), c);
      WithoutIdempotent(pat, c);
      assert s == pat + rest;
      WithoutAppend(pat, rest, c);
    } else {
      ReplaceByWithout(s[1..], pat, c);
      WithoutAppend([s[0]], Replace(s[1..], pat, rep), c);
      assert s == [s[0]] + s[1..];
      WithoutAppend([s[0]], s[1..], c);
    }
  }

  lemma {:induction false} SplitWord(w: string)
    requires IsWord(w)
    ensures Split(w) == [w]
  {
    WordLengthOfWord(w);
    assert !IsSpace(w[0]);
    assert w[..|w|] == w;
    assert w[|w|..] == [];
    assert Split(w) == [w[..|w|]] + Split(w[|w|..]);
  }

  lemma {:induction false} WordLengthOfWord(w: string)
    requires forall i :: 0 <= i < |w| ==> !IsSpace(w[i])
    ensures WordLength(w) == |w|
  {
    if w != [] {
      WordLengthOfWord(w[1..]);
    }
  }

  lemma {:induction false} WordLengthBeforeSpace(a: string, b: string)
    requires |b| > 0 && IsSpace(b[0])
    ensures WordLength(a + b) == WordLength(a) <= |a|
    decreases |a|
  {
    if a != [] && !IsSpace(a[0]) {
      assert (a + b)[1..] == a[1..] + b;
      WordLengthBeforeSpace(a[1..], b);
    } else if a == [] {
      assert a + b == b;
    }
  }

  /** Splitting at a whitespace character splits each side independently. */
  lemma {:induction false} SplitAtSpace(a: string, c: char, b: string)
    requires IsSpace(c)
    ensures Split(a + [c] + b) == Split(a) + Split(b)
    decreases |a|
  {
    var s := a + [c] + b;
    if a == [] {
      assert s[1..] == b;
    } else if IsSpace(a[0]) {
      assert s[1..] == a[1..] + [c] + b;
      SplitAtSpace(a[1..], c, b);
    } else {
      WordLengthBeforeSpace(a, [c] + b);
      assert s == a + ([c] + b);
      var n := WordLength(a);
      assert s[..n] == a[..n];
      assert s[n..] == a[n..] + [c] + b;
      SplitAtSpace(a[n..], c, b);
    }
  }

  /** `' '.join` and `split()` are inverse on sequences of words. */
  lemma {:induction false} SplitJoin(ws: seq<string>)
    requires AllWords(ws)
    ensures Split(JoinSpace(ws)) == ws
  {
    if ws == [] {
    } else if |ws| == 1 {
      SplitWord(ws[0]);
    } else {
      SplitAtSpace(ws[0], ' ', JoinSpace(ws[1..]));
      SplitWord(ws[0]);
      SplitJoin(ws[1..]);
      assert ws == [ws[0]] + ws[1..];
    }
  }

  lemma {:induction false} JoinFirstChar(ws: seq<string>)
    requires AllWords(ws) && ws != []
    ensures JoinSpace(ws) != [] && JoinSpace(ws)[0] == ws[0][0]
  {
  }

  lemma {:induction false} JoinLastChar(ws: seq<string>)
    requires AllWords(ws) && ws != []
    ensures JoinSpace(ws) != [] && JoinSpace(ws)[|JoinSpace(ws)| - 1] == ws[|ws| - 1][|ws[|ws| - 1]| - 1]
  {
    if |ws| > 1 {
      JoinLastChar(ws[1..]);
    }
  }

  /** A joined sequence of words has no whitespace to strip. */
  lemma {:induction false} StripJoin(ws: seq<string>)
    requires AllWords(ws)
    ensures Strip(JoinSpace(ws)) == JoinSpace(ws)
  {
    if ws != [] {
      JoinFirstChar(ws);
      JoinLastChar(ws);
    }
  }

  lemma {:induction false} LStripNoLead(s: string)
    ensures LStrip(s) == [] || !IsSpace(LStrip(s)[0])
    decreases |s|
  {
    if s != [] && IsSpace(s[0]) {
      LStripNoLead(s[1..]);
    }
  }

  lemma {:induction false} RStripNoTrail(s: string)
    ensures RStrip(s) == [] || !IsSpace(RStrip(s)[|RStrip(s)| - 1])
    decreases |s|
  {
    if s != [] && IsSpace(s[|s| - 1]) {
      RStripNoTrail(s[..|s| - 1]);
    }
  }

  lemma {:induction false} RStripKeepsLead(s: string)
    requires s == [] || !IsSpace(s[0])
    ensures RStrip(s) == [] || RStrip(s)[0] == s[0]
  {
    if s != [] && IsSpace(s[|s| - 1]) {
      RStripKeepsLead(s[..|s| - 1]);
    }
  }

  lemma {:induction false} StripIdempotent(s: string)
    ensures Strip(Strip(s)) == Strip(s)
  {
    var t := Strip(s);
    LStripNoLead(s);
    RStripKeepsLead(LStrip(s));
    RStripNoTrail(LStrip(s));
  }
}
