/**
 The small part of JavaScript's string and array semantics that the Twelf
 server relies on: out-of-range indexing (`undefined`), `startsWith`, `trim`,
 `split` on a one-character separator, `join` and `replaceAll` with a literal
 pattern. Strings are sequences of characters; UTF-16 surrogate pairs are not
 distinguished from single characters.
 */
module JsText {

  /** `Some(v)` for a value that is present, `None` for JavaScript's `undefined`. */
  datatype Option<+T> = None | Some(value: T)

  /** `xs[i]` in JavaScript: `undefined` outside the array, which no string equals. */
  function At<T>(xs: seq<T>, i: int): (r: Option<T>)
    ensures r.Some? <==> 0 <= i < |xs|
    ensures r.Some? ==> r.value == xs[i]
  {
    if 0 <= i < |xs| then Some(xs[i]) else None
  }

  /** `s.startsWith(prefix)`. */
  predicate StartsWith(s: string, prefix: string) {
    |prefix| <= |s| && s[..|prefix|] == prefix
  }

  /** `pat` occurs in `s` starting at index `i`. */
  predicate OccursAt(s: string, pat: string, i: int) {
    0 <= i && i + |pat| <= |s| && s[i..i + |pat|] == pat
  }

  /** `s.includes(pat)`. */
  predicate Contains(s: string, pat: string) {
    exists i | 0 <= i <= |s| - |pat| :: OccursAt(s, pat, i)
  }

  /** The characters `String.prototype.trim` removes: ECMAScript WhiteSpace
      (tab, vertical tab, form feed, space, no-break space, byte order mark and
      the Unicode space separators) and LineTerminator. */
  predicate IsWhitespace(c: char) {
    || c == '\t' || c == '\n' || c == '\U{B}' || c == '\U{C}' || c == '\r'
    || c == ' ' || c == '\U{A0}' || c == '\U{1680}'
    || ('\U{2000}' <= c <= '\U{200A}')
    || c == '\U{2028}' || c == '\U{2029}' || c == '\U{202F}' || c == '\U{205F}'
    || c == '\U{3000}' || c == '\U{FEFF}'
  }

  /** `s.trimStart()`: drops the longest all-whitespace prefix. */
  function TrimStart(s: string): (r: string)
    ensures |r| <= |s| && r == s[|s| - |r|..]
    ensures forall k {:trigger IsWhitespace(s[k])} :: 0 <= k < |s| - |r| ==> IsWhitespace(s[k])
    ensures r == [] || !IsWhitespace(r[0])
  {
    if |s| > 0 && IsWhitespace(s[0]) then TrimStart(s[1..]) else s
  }

  /** `s.trimEnd()`: drops the longest all-whitespace suffix. */
  function TrimEnd(s: string): (r: string)
    ensures |r| <= |s| && r == s[..|r|]
    ensures forall k {:trigger IsWhitespace(s[k])} :: |r| <= k < |s| ==> IsWhitespace(s[k])
    ensures r == [] || !IsWhitespace(r[|r| - 1])
  {
    if |s| > 0 && IsWhitespace(s[|s| - 1]) then TrimEnd(s[..|s| - 1]) else s
  }

  /** `s.trim()`: neither starts nor ends with whitespace, and a string that
      is already trimmed is returned unchanged. */
  function Trim(s: string): (r: string)
    ensures |r| <= |s|
    ensures r == [] || (!IsWhitespace(r[0]) && !IsWhitespace(r[|r| - 1]))
    ensures (s == [] || (!IsWhitespace(s[0]) && !IsWhitespace(s[|s| - 1]))) ==> r == s
  {
    var t := TrimStart(s);
    var r := TrimEnd(t);
    assert r == [] || r[0] == t[0];
    assert (s == [] || !IsWhitespace(s[0])) ==> t == s;
    r
  }

  /** `Trim` only cuts whitespace: its result is the slice of `s` starting at
      `i`, and everything before and after that slice is whitespace. */
  lemma TrimSlice(s: string) returns (i: nat)
    ensures i + |Trim(s)| <= |s| && Trim(s) == s[i..i + |Trim(s)|]
    ensures forall k :: 0 <= k < i ==> IsWhitespace(s[k])
    ensures forall k :: i + |Trim(s)| <= k < |s| ==> IsWhitespace(s[k])
  {
    var t := TrimStart(s);
    i := |s| - |t|;
    assert Trim(s) == t[..|Trim(s)|];
    assert t == s[i..];
    forall k | i + |Trim(s)| <= k < |s|
      ensures IsWhitespace(s[k])
    {
      assert s[k] == t[k - i];
    }
  }

  /** `Trim` is idempotent. */
  lemma TrimIdempotent(s: string)
    ensures Trim(Trim(s)) == Trim(s)
  {
  }

  /** A string that starts with a word followed by a space still starts with
      that word once trimmed, provided the word has no whitespace in it. */
  lemma TrimKeepsLeadingWord(s: string, word: string)
    requires StartsWith(s, word + " ")
    requires |word| > 0
    requires forall k :: 0 <= k < |word| ==> !IsWhitespace(word[k])
    ensures StartsWith(Trim(s), word)
  {
    assert s[0] == word[0];
    assert TrimStart(s) == s;
    var r := TrimEnd(s);
    assert s[|word| - 1] == word[|word| - 1];
    assert |r| >= |word|;
    assert r[..|word|] == s[..|word|];
  }

  /** `xs.join(sep)`; the empty array joins to the empty string, and a
      joined text starts with its first element followed, when there is a
      second one, by the separator. `JoinSplit` and `SplitJoin` relate it to
      `Split`. */
  function Join(xs: seq<string>, sep: string): (r: string)
    ensures |xs| == 0 ==> r == ""
    ensures |xs| > 0 ==> StartsWith(r, xs[0])
    ensures |xs| > 1 ==> StartsWith(r, xs[0] + sep)
  {
    if |xs| == 0 then ""
    else if |xs| == 1 then xs[0]
    else xs[0] + sep + Join(xs[1..], sep)
  }

  /** `s.split(c)` for a one-character separator: the maximal `c`-free pieces
      between the separators, always at least one of them. */
  function Split(s: string, c: char): (r: seq<string>)
    ensures |r| >= 1
    ensures forall k :: 0 <= k < |r| ==> c !in r[k]
  {
    if |s| == 0 then [""]
    else
      var rest := Split(s[1..], c);
      if s[0] == c then [""] + rest
      else [[s[0]] + rest[0]] + rest[1..]
  }

  /** Joining the pieces of a split with the separator gives back the string. */
  lemma {:induction false} JoinSplit(s: string, c: char)
    ensures Join(Split(s, c), [c]) == s
  {
    if |s| > 0 {
      var rest := Split(s[1..], c);
      JoinSplit(s[1..], c);
      if s[0] == c {
        assert Split(s, c) == [""] + rest;
        assert ([""] + rest)[1..] == rest;
      } else {
        var r := Split(s, c);
        assert r == [[s[0]] + rest[0]] + rest[1..];
        if |rest| == 1 {
          assert Join(rest, [c]) == rest[0];
        } else {
          assert Join(rest, [c]) == rest[0] + [c] + Join(rest[1..], [c]);
          assert r[1..] == rest[1..];
        }
      }
    }
  }

  /** A separator-free string is a single piece. */
  lemma {:induction false} SplitFree(a: string, c: char)
    requires c !in a
    ensures Split(a, c) == [a]
  {
    if |a| > 0 {
      SplitFree(a[1..], c);
      assert [a[0]] + a[1..] == a;
    }
  }

  /** Splitting stops at the first separator. */
  lemma {:induction false} SplitAtFirst(a: string, c: char, t: string)
    requires c !in a
    ensures Split(a + [c] + t, c) == [a] + Split(t, c)
  {
    var s := a + [c] + t;
    if |a| == 0 {
      assert s[1..] == t;
    } else {
      assert s[1..] == a[1..] + [c] + t;
      SplitAtFirst(a[1..], c, t);
      assert [a[0]] + a[1..] == a;
    }
  }

  /** Splitting the join of separator-free pieces gives back the pieces. */
  lemma {:induction false} SplitJoin(xs: seq<string>, c: char)
    requires |xs| >= 1
    requires forall k :: 0 <= k < |xs| ==> c !in xs[k]
    ensures Split(Join(xs, [c]), c) == xs
  {
    if |xs| == 1 {
      SplitFree(xs[0], c);
    } else {
      SplitJoin(xs[1..], c);
      SplitAtFirst(xs[0], c, Join(xs[1..], [c]));
      assert [xs[0]] + xs[1..] == xs;
    }
  }

  /** The first piece of a split is the text before the first separator. */
  lemma {:induction false} SplitFirstPiece(s: string, c: char)
    ensures var p := Split(s, c)[0];
      StartsWith(s, p) && (|p| == |s| || s[|p|] == c)
  {
    if |s| > 0 && s[0] != c {
      SplitFirstPiece(s[1..], c);
    }
  }

  /** `s.replaceAll(pat, rep)` with a literal pattern and a replacement that
      has no `$` patterns: occurrences are replaced left to right without
      overlapping; an empty pattern matches before every character and at the
      end. */
  function ReplaceAll(s: string, pat: string, rep: string): (r: string)
    ensures |rep| == |pat| ==> |r| == |s|
    decreases |s|
  {
    if |pat| == 0 then
      if |s| == 0 then rep else rep + [s[0]] + ReplaceAll(s[1..], pat, rep)
    else if StartsWith(s, pat) then rep + ReplaceAll(s[|pat|..], pat, rep)
    else if |s| == 0 then s
    else [s[0]] + ReplaceAll(s[1..], pat, rep)
  }

  /** A pattern that does not occur leaves the text unchanged. */
  lemma {:induction false} ReplaceAllAbsent(s: string, pat: string, rep: string)
    requires |pat| > 0
    requires !Contains(s, pat)
    ensures ReplaceAll(s, pat, rep) == s
  {
    assert !OccursAt(s, pat, 0);
    if |s| > 0 {
      forall i | OccursAt(s[1..], pat, i)
        ensures OccursAt(s, pat, i + 1)
      {
        OccursInTail(s, pat, i);
      }
      ReplaceAllSkip(s, pat, rep);
      ReplaceAllAbsent(s[1..], pat, rep);
      assert [s[0]] + s[1..] == s;
    }
  }

  /** Occurrences in a tail are the occurrences one position further on. */
  lemma OccursInTail(s: string, pat: string, i: nat)
    requires |s| > 0
    ensures OccursAt(s[1..], pat, i) <==> OccursAt(s, pat, i + 1)
  {
    if i + 1 + |pat| <= |s| {
      assert s[1..][i..i + |pat|] == s[i + 1..i + 1 + |pat|];
    }
  }

  /** Where the pattern does not start, the first character is kept. */
  lemma ReplaceAllSkip(s: string, pat: string, rep: string)
    requires |pat| > 0 && |s| > 0 && !OccursAt(s, pat, 0)
    ensures ReplaceAll(s, pat, rep) == [s[0]] + ReplaceAll(s[1..], pat, rep)
  {
    assert !StartsWith(s, pat);
  }

  /** Where the pattern starts, it is replaced. */
  lemma ReplaceAllMatch(pat: string, b: string, rep: string)
    requires |pat| > 0
    ensures ReplaceAll(pat + b, pat, rep) == rep + ReplaceAll(b, pat, rep)
  {
    var s := pat + b;
    assert s[..|pat|] == pat;
    assert s[|pat|..] == b;
  }

  /** The leftmost occurrence is the one replaced: text before it is kept,
      the occurrence becomes `rep`, and replacement continues after it. */
  lemma {:induction false} ReplaceAllLeftmost(a: string, pat: string, b: string, rep: string)
    requires |pat| > 0
    requires forall i :: 0 <= i < |a| ==> !OccursAt(a + pat + b, pat, i)
    ensures ReplaceAll(a + pat + b, pat, rep) == a + rep + ReplaceAll(b, pat, rep)
  {
    if |a| == 0 {
      assert a + pat + b == pat + b;
      ReplaceAllMatch(pat, b, rep);
    } else {
      LeftmostStep(a, pat, b, rep);
      ReplaceAllLeftmost(a[1..], pat, b, rep);
      Regroup(a, rep, ReplaceAll(b, pat, rep));
    }
  }

  /** Putting the first character back in front. */
  lemma Regroup(a: string, rep: string, y: string)
    requires |a| > 0
    ensures [a[0]] + (a[1..] + rep + y) == a + rep + y
  {
    assert [a[0]] + a[1..] == a;
  }

  /** One step of `ReplaceAllLeftmost`: before the leftmost occurrence the
      first character is kept, and the rest of the text still has its
      leftmost occurrence after `a[1..]`. */
  lemma LeftmostStep(a: string, pat: string, b: string, rep: string)
    requires |pat| > 0 && |a| > 0
    requires forall i :: 0 <= i < |a| ==> !OccursAt(a + pat + b, pat, i)
    ensures ReplaceAll(a + pat + b, pat, rep) == [a[0]] + ReplaceAll(a[1..] + pat + b, pat, rep)
    ensures forall i :: 0 <= i < |a[1..]| ==> !OccursAt(a[1..] + pat + b, pat, i)
  {
    var s := a + pat + b;
    var tail := a[1..] + pat + b;
    assert s[1..] == tail;
    assert !OccursAt(s, pat, 0);
    ReplaceAllSkip(s, pat, rep);
    forall i | 0 <= i < |a[1..]|
      ensures !OccursAt(tail, pat, i)
    {
      OccursInTail(s, pat, i);
    }
  }

  /** An occurrence of a pattern in `a + [c] + b` lies inside `a`, lies
      inside `b`, or covers the separator `c`. */
  lemma ContainsAcrossSeparator(a: string, c: char, b: string, pat: string)
    ensures Contains(a + [c] + b, pat) ==> Contains(a, pat) || Contains(b, pat) || c in pat
  {
    var s := a + [c] + b;
    if Contains(s, pat) {
      var i :| 0 <= i <= |s| - |pat| && OccursAt(s, pat, i);
      if i + |pat| <= |a| {
        assert s[i..i + |pat|] == a[i..i + |pat|];
        assert OccursAt(a, pat, i);
      } else if i > |a| {
        assert s[i..i + |pat|] == b[i - |a| - 1..i - |a| - 1 + |pat|];
        assert OccursAt(b, pat, i - |a| - 1);
      } else {
        assert pat[|a| - i] == s[|a|];
      }
    }
  }

  /** Joining with a one-character separator that the pattern does not
      contain creates no new occurrence of the pattern. */
  lemma {:induction false} JoinAbsent(xs: seq<string>, c: char, pat: string)
    requires |pat| > 0 && c !in pat
    requires forall k :: 0 <= k < |xs| ==> !Contains(xs[k], pat)
    ensures !Contains(Join(xs, [c]), pat)
  {
    if |xs| == 0 {
      assert !OccursAt("", pat, 0);
    } else if |xs| > 1 {
      JoinAbsent(xs[1..], c, pat);
      ContainsAcrossSeparator(xs[0], c, Join(xs[1..], [c]), pat);
    }
  }

  /** `a` and `b` agree on their common length: one is a prefix of the other. */
  predicate Aligns(a: string, b: string) {
    StartsWith(a, b) || StartsWith(b, a)
  }

  /** No occurrence of `q` can begin in kept text and run on into an
      inserted `rep`: no proper non-empty suffix of `q` aligns with `rep`. */
  predicate CannotStraddle(q: string, rep: string) {
    forall k :: 0 < k < |q| ==> !Aligns(q[k..], rep)
  }

  /** An occurrence in a suffix is an occurrence in the whole text. */
  lemma ContainsInSuffix(s: string, n: nat, q: string)
    requires n <= |s|
    ensures Contains(s[n..], q) ==> Contains(s, q)
  {
    if Contains(s[n..], q) {
      var i :| 0 <= i <= |s[n..]| - |q| && OccursAt(s[n..], q, i);
      assert s[n..][i..i + |q|] == s[i + n..i + n + |q|];
      assert OccursAt(s, q, i + n);
    }
  }

  /** If the replaced text starts with `w` and no suffix of `w` lines up
      with the replacement, no replacement happened inside that prefix, so
      the original text starts with `w` too. */
  lemma {:induction false} ReplaceAllPrefix(s: string, pat: string, rep: string, w: string)
    requires |pat| > 0
    requires forall k :: 0 <= k < |w| ==> !Aligns(w[k..], rep)
    requires StartsWith(ReplaceAll(s, pat, rep), w)
    ensures StartsWith(s, w)
    decreases |s|
  {
    if |w| > 0 {
      var r := ReplaceAll(s, pat, rep);
      assert w[0..] == w;
      if StartsWith(s, pat) {
        // `r` starts with `rep`, so `w` would align with it
      } else if |s| > 0 {
        var t := ReplaceAll(s[1..], pat, rep);
        assert r == [s[0]] + t;
        forall k | 0 <= k < |w[1..]|
          ensures !Aligns(w[1..][k..], rep)
        {
          assert w[1..][k..] == w[k + 1..];
        }
        assert t[..|w| - 1] == r[1..|w|];
        ReplaceAllPrefix(s[1..], pat, rep, w[1..]);
        assert s[..|w|] == [s[0]] + s[1..][..|w| - 1];
      }
    }
  }

  /** Nothing starting with a character missing from `rep` can occur at a
      position inside `rep`, so `rep + t` contains `q` only if `t` does. */
  lemma PrependFree(rep: string, t: string, q: string)
    requires |q| > 0 && q[0] !in rep && !Contains(t, q)
    ensures !Contains(rep + t, q)
  {
    var r := rep + t;
    forall i | 0 <= i <= |r| - |q|
      ensures !OccursAt(r, q, i)
    {
      if i < |rep| {
        assert r[i..i + |q|][0] == r[i] == rep[i] && rep[i] in rep;
      } else {
        var j := i - |rep|;
        assert r[|rep|..] == t;
        assert r[i..i + |q|] == r[|rep|..][j..j + |q|];
        assert OccursAt(r, q, i) ==> OccursAt(t, q, j);
      }
    }
  }

  /** `[c] + t` contains `q` only at its start or where `t` does. */
  lemma ConsFree(c: char, t: string, q: string)
    requires !Contains(t, q) && !StartsWith([c] + t, q)
    ensures !Contains([c] + t, q)
  {
    var r := [c] + t;
    forall i | 0 <= i <= |r| - |q|
      ensures !OccursAt(r, q, i)
    {
      if i > 0 {
        assert r[i..i + |q|] == t[i - 1..i - 1 + |q|];
        assert OccursAt(r, q, i) ==> OccursAt(t, q, i - 1);
      } else {
        assert r[..|q|] == r[0..|q|];
      }
    }
  }

  /** Where the first character is kept, a replaced text that starts with a
      `q` that cannot straddle `rep` comes from a text that started with `q`. */
  lemma KeptStart(s: string, pat: string, rep: string, q: string)
    requires |pat| > 0 && |s| > 0 && !StartsWith(s, pat) && |q| > 0
    requires CannotStraddle(q, rep)
    requires StartsWith(ReplaceAll(s, pat, rep), q)
    ensures StartsWith(s, q)
  {
    var r := ReplaceAll(s, pat, rep);
    var t := ReplaceAll(s[1..], pat, rep);
    assert r == [s[0]] + t;
    forall k | 0 <= k < |q[1..]|
      ensures !Aligns(q[1..][k..], rep)
    {
      assert q[1..][k..] == q[k + 1..];
    }
    assert q[0] == r[0];
    assert t[..|q| - 1] == r[1..|q|];
    ReplaceAllPrefix(s[1..], pat, rep, q[1..]);
    assert s[..|q|] == [s[0]] + s[1..][..|q| - 1];
  }

  /** Replacement creates no occurrence of `q` when `q` starts with a
      character the replacement lacks and cannot straddle it. With `q` the
      pattern itself: afterwards the pattern no longer occurs at all. With
      another `q` that did not occur: it still does not. */
  lemma {:induction false} ReplaceAllLeavesNo(s: string, pat: string, rep: string, q: string)
    requires |pat| > 0 && |q| > 0
    requires q[0] !in rep && CannotStraddle(q, rep)
    requires q == pat || !Contains(s, q)
    ensures !Contains(ReplaceAll(s, pat, rep), q)
    decreases |s|
  {
    if StartsWith(s, pat) {
      ContainsInSuffix(s, |pat|, q);
      ReplaceAllLeavesNo(s[|pat|..], pat, rep, q);
      PrependFree(rep, ReplaceAll(s[|pat|..], pat, rep), q);
    } else if |s| > 0 {
      ContainsInSuffix(s, 1, q);
      ReplaceAllLeavesNo(s[1..], pat, rep, q);
      if StartsWith(ReplaceAll(s, pat, rep), q) {
        KeptStart(s, pat, rep, q);
        assert OccursAt(s, q, 0);
      }
      ConsFree(s[0], ReplaceAll(s[1..], pat, rep), q);
    }
  }
}
