/**
 * The few Python `str` operations the core relies on, with CPython's
 * semantics over code points: `t in s`, `s.replace(pat, rep)`, `s.split()`,
 * `sep.join(words)` and `s.strip()`. A Dafny `char` is a Unicode scalar
 * value, which is what a Python `str` indexes and what `len` counts.
 */
module PyStr {

  /** `c.isspace()`: the characters that `split()` and `strip()` without arguments treat as whitespace. */
  predicate IsSpace(c: char) {
    || '\t' <= c <= '\r'
    || '\U{1C}' <= c <= ' '
    || c == '\U{85}' || c == '\U{A0}' || c == '\U{1680}'
    || '\U{2000}' <= c <= '\U{200A}'
    || c == '\U{2028}' || c == '\U{2029}' || c == '\U{202F}' || c == '\U{205F}' || c == '\U{3000}'
  }

  /** `t` occurs in `s` starting at index `i`. */
  ghost predicate OccursAt(s: string, t: string, i: int) {
    0 <= i <= |s| && t <= s[i..]
  }

  /** Python's `t in s` for strings: `t` is a substring of `s`. */
  predicate Contains(s: string, t: string) {
    exists i | 0 <= i <= |s| :: t <= s[i..]
  }

  lemma OccursAtContains(s: string, t: string, i: int)
    requires OccursAt(s, t, i)
    ensures Contains(s, t)
  {
  }

  /** A piece of a concatenation occurs where the concatenation places it. */
  lemma {:induction false} OccursInConcat(pre: string, t: string, post: string)
    ensures OccursAt(pre + t + post, t, |pre|)
  {
    assert (pre + t + post)[|pre|..] == t + post;
  }

  /** A string whose first character is absent from `s` does not occur in `s`. */
  lemma {:induction false} AbsentHeadNotContained(s: string, t: string)
    requires t != [] && t[0] !in s
    ensures !Contains(s, t)
  {
    forall i | 0 <= i <= |s|
      ensures !(t <= s[i..])
    {
      if i < |s| {
        assert s[i..][0] == s[i];
      }
    }
  }

  // ---------------------------------------------------------------------------
  // str.replace

  /**
   * `s.replace(pat, rep)`: every occurrence of `pat`, found left to right and
   * without overlap, is replaced by `rep`. (Every caller passes a non-empty `pat`.)
   */
  function Replace(s: string, pat: string, rep: string): string
    requires pat != []
    decreases |s|
  {
    if |s| < |pat| then s
    else if s[..|pat|] == pat then rep + Replace(s[|pat|..], pat, rep)
    else [s[0]] + Replace(s[1..], pat, rep)
  }

  /** Replacing never introduces a character that is in neither the text nor the replacement. */
  lemma {:induction false} ReplaceAddsNoChar(s: string, pat: string, rep: string, c: char)
    requires pat != []
    requires c !in s && c !in rep
    ensures c !in Replace(s, pat, rep)
    decreases |s|
  {
    if |s| < |pat| {
    } else if s[..|pat|] == pat {
      assert forall k | |pat| <= k < |s| :: s[|pat|..][k - |pat|] == s[k];
      ReplaceAddsNoChar(s[|pat|..], pat, rep, c);
    } else {
      assert forall k | 1 <= k < |s| :: s[1..][k - 1] == s[k];
      ReplaceAddsNoChar(s[1..], pat, rep, c);
    }
  }

  /** Replacing a single character by a text that does not contain it removes every occurrence. */
  lemma {:induction false} ReplaceRemovesChar(s: string, c: char, rep: string)
    requires c !in rep
    ensures c !in Replace(s, [c], rep)
    decreases |s|
  {
    if |s| >= 1 {
      ReplaceRemovesChar(s[1..], c, rep);
      if s[..1] != [c] {
        assert s[0] != c;
      }
    }
  }

  /** A pattern that does not occur leaves the text unchanged. */
  lemma {:induction false} ReplaceAbsent(s: string, pat: string, rep: string)
    requires pat != []
    requires !Contains(s, pat)
    ensures Replace(s, pat, rep) == s
    decreases |s|
  {
    if |s| >= |pat| {
      assert s[0..] == s;
      forall i | 0 <= i <= |s[1..]|
        ensures !(pat <= s[1..][i..])
      {
        assert s[1..][i..] == s[i + 1..];
      }
      ReplaceAbsent(s[1..], pat, rep);
      assert [s[0]] + s[1..] == s;
    }
  }

  /** Replacing a single character commutes with concatenation. */
  lemma {:induction false} ReplaceCharConcat(a: string, b: string, c: char, rep: string)
    ensures Replace(a + b, [c], rep) == Replace(a, [c], rep) + Replace(b, [c], rep)
    decreases |a|
  {
    if a == [] {
      assert a + b == b;
    } else {
      assert (a + b)[..1] == a[..1];
      assert (a + b)[1..] == a[1..] + b;
      ReplaceCharConcat(a[1..], b, c, rep);
    }
  }

  /**
   * When no match of `pat` starts inside `a` (reading on into the `pat`
   * after it), the first match in `a + pat + b` is the `pat` right after `a`.
   */
  lemma {:induction false} ReplaceFirstMatch(a: string, pat: string, b: string, rep: string)
    requires pat != []
    requires forall i | 0 <= i < |a| :: !OccursAt(a + pat, pat, i)
    ensures Replace(a + pat + b, pat, rep) == a + rep + Replace(b, pat, rep)
    decreases |a|
  {
    var s := a + pat + b;
    if a == [] {
      assert s == pat + b;
      assert s[..|pat|] == pat;
      assert s[|pat|..] == b;
    } else {
      assert !OccursAt(a + pat, pat, 0);
      assert s[..|pat|] == (a + pat)[0..][..|pat|];
      assert s[..|pat|] != pat;
      var a' := a[1..];
      forall i | 0 <= i < |a'|
        ensures !OccursAt(a' + pat, pat, i)
      {
        assert (a' + pat)[i..] == (a + pat)[i + 1..];
        assert !OccursAt(a + pat, pat, i + 1);
      }
      calc {
        Replace(s, pat, rep);
        [s[0]] + Replace(s[1..], pat, rep);
        { assert s[1..] == a' + pat + b; }
        [a[0]] + Replace(a' + pat + b, pat, rep);
        { ReplaceFirstMatch(a', pat, b, rep); }
        [a[0]] + (a' + rep + Replace(b, pat, rep));
        { assert [a[0]] + a' == a; }
        a + rep + Replace(b, pat, rep);
      }
    }
  }

  /** A one-character text is replaced exactly when it is the pattern character. */
  lemma ReplaceOneChar(x: char, c: char, rep: string)
    ensures Replace([x], [c], rep) == if x == c then rep else [x]
  {
    assert [x][..1] == [x] && [x][1..] == [];
  }

  /** Every character of a text that starts with `pat` belongs to `pat`. */
  lemma PrefixCharsInPattern(s: string, pat: string)
    requires |pat| <= |s| && s[..|pat|] == pat
    ensures forall i | 0 <= i < |pat| :: s[i] in pat
  {
    forall i | 0 <= i < |pat|
      ensures s[i] in pat
    {
      assert s[i] == s[..|pat|][i];
    }
  }

  /**
   * A character that is not in `pat` cannot be covered by a match, so the
   * replacement works on each side of it separately.
   */
  lemma {:induction false} ReplaceAtBarrier(x: string, c: char, y: string, pat: string, rep: string)
    requires pat != [] && c !in pat
    ensures Replace(x + [c] + y, pat, rep) == Replace(x, pat, rep) + [c] + Replace(y, pat, rep)
    decreases |x|, 1
  {
    var s := x + [c] + y;
    if |s| < |pat| {
      assert Replace(s, pat, rep) == s && Replace(x, pat, rep) == x && Replace(y, pat, rep) == y;
    } else if x == [] {
      assert s == [c] + y;
      assert s[..|pat|][0] == c && pat[0] in pat;
      assert s[1..] == y;
    } else if s[..|pat|] == pat {
      BarrierAfterMatch(x, c, y, pat, rep);
    } else {
      BarrierAfterMismatch(x, c, y, pat, rep);
    }
  }

  /** `ReplaceAtBarrier` when a match starts the text: it lies inside `x`. */
  lemma {:induction false} BarrierAfterMatch(x: string, c: char, y: string, pat: string, rep: string)
    requires pat != [] && c !in pat
    requires |x + [c] + y| >= |pat| && (x + [c] + y)[..|pat|] == pat
    ensures Replace(x + [c] + y, pat, rep) == Replace(x, pat, rep) + [c] + Replace(y, pat, rep)
    decreases |x|, 0
  {
    var s := x + [c] + y;
    assert s[|x|] == c;
    PrefixCharsInPattern(s, pat);
    assert |x| >= |pat|;
    var x' := x[|pat|..];
    assert x[..|pat|] == s[..|pat|];
    assert s[|pat|..] == x' + [c] + y;
    ReplaceAtBarrier(x', c, y, pat, rep);
  }

  /** `ReplaceAtBarrier` when no match starts the text: its first character is kept. */
  lemma {:induction false} BarrierAfterMismatch(x: string, c: char, y: string, pat: string, rep: string)
    requires pat != [] && c !in pat && x != []
    requires |x + [c] + y| >= |pat| && (x + [c] + y)[..|pat|] != pat
    ensures Replace(x + [c] + y, pat, rep) == Replace(x, pat, rep) + [c] + Replace(y, pat, rep)
    decreases |x|, 0
  {
    var s := x + [c] + y;
    var x' := x[1..];
    var rx, ry := Replace(x', pat, rep), Replace(y, pat, rep);
    assert s[0] == x[0] && s[1..] == x' + [c] + y;
    assert Replace(s, pat, rep) == [x[0]] + Replace(x' + [c] + y, pat, rep);
    ReplaceAtBarrier(x', c, y, pat, rep);
    if |x| >= |pat| {
      assert x[..|pat|] == s[..|pat|];
    } else {
      assert rx == x';
      assert [x[0]] + x' == x;
    }
    assert Replace(x, pat, rep) == [x[0]] + rx;
    ConcatRegroupFront([x[0]], rx, [c], ry);
  }

  /** A non-empty text none of whose characters is in `pat` is a barrier in the same way. */
  lemma {:induction false} ReplaceAroundBarrier(x: string, w: string, y: string, pat: string, rep: string)
    requires pat != [] && w != [] && forall i | 0 <= i < |w| :: w[i] !in pat
    ensures Replace(x + w + y, pat, rep) == Replace(x, pat, rep) + w + Replace(y, pat, rep)
    decreases |w|
  {
    var w' := w[1..];
    if w' == [] {
      assert w == [w[0]];
      ReplaceAtBarrier(x, w[0], y, pat, rep);
    } else {
      var x' := x + [w[0]];
      ConcatRegroup(x, w, y);
      ReplaceAroundBarrier(x', w', y, pat, rep);
      ReplaceAtBarrier(x, w[0], [], pat, rep);
      assert Replace([], pat, rep) == [];
      ConcatRegroupBack(Replace(x, pat, rep), w, Replace(y, pat, rep));
    }
  }

  /** Regroupings of concatenations, kept apart from the `Replace` proofs that use them. */
  lemma ConcatRegroup(x: string, w: string, y: string)
    requires w != []
    ensures x + w + y == x + [w[0]] + w[1..] + y && x + [w[0]] + [] == x + [w[0]]
  {
  }

  lemma ConcatRegroupFront(a: string, b: string, c: string, d: string)
    ensures a + (b + c + d) == a + b + c + d
  {
  }

  lemma ConcatRegroupBack(rx: string, w: string, ry: string)
    requires w != []
    ensures rx + [w[0]] + [] + w[1..] + ry == rx + w + ry
  {
  }

  // ---------------------------------------------------------------------------
  // str.split() and str.join

  /** A word of `split()`: non-empty and free of whitespace. */
  predicate IsWord(w: string) {
    |w| > 0 && forall k | 0 <= k < |w| :: !IsSpace(w[k])
  }

  /** The longest prefix of `s` that holds no whitespace. */
  function WordPrefix(s: string): (w: string)
    ensures w <= s
    ensures forall k | 0 <= k < |w| :: !IsSpace(w[k])
    ensures |w| == |s| || IsSpace(s[|w|])
  {
    if s == [] || IsSpace(s[0]) then [] else [s[0]] + WordPrefix(s[1..])
  }

  /** `s` with every whitespace character removed. */
  function Unspaced(s: string): string {
    if s == [] then []
    else if IsSpace(s[0]) then Unspaced(s[1..])
    else [s[0]] + Unspaced(s[1..])
  }

  /** The leading word of `s` is where its non-whitespace characters begin. */
  lemma {:induction false} UnspacedAfterWord(s: string)
    ensures Unspaced(s) == WordPrefix(s) + Unspaced(s[|WordPrefix(s)|..])
  {
    if s != [] && !IsSpace(s[0]) {
      var w' := WordPrefix(s[1..]);
      UnspacedAfterWord(s[1..]);
      assert s[1..][|w'|..] == s[|w'| + 1..];
    }
  }

  /**
   * `s.split()`: the maximal runs of non-whitespace characters, in order.
   * The words hold every non-whitespace character of `s`, in order, and
   * nothing else.
   */
  function Split(s: string): (words: seq<string>)
    ensures forall i | 0 <= i < |words| :: IsWord(words[i])
    ensures Join(words, "") == Unspaced(s)
    decreases |s|
  {
    if s == [] then []
    else if IsSpace(s[0]) then Split(s[1..])
    else
      var w := WordPrefix(s);
      var rest := Split(s[|w|..]);
      UnspacedAfterWord(s);
      JoinPrepend(w, rest);
      [w] + rest
  }

  /** `sep.join(words)`. */
  function Join(words: seq<string>, sep: string): string {
    if |words| == 0 then ""
    else if |words| == 1 then words[0]
    else words[0] + sep + Join(words[1..], sep)
  }

  /**
   * The whitespace normal form: no whitespace at either end, a plain space as
   * the only whitespace character, and never two spaces in a row.
   */
  predicate SingleSpaced(s: string) {
    && (|s| > 0 ==> !IsSpace(s[0]) && !IsSpace(s[|s| - 1]))
    && (forall k | 0 <= k < |s| :: IsSpace(s[k]) ==> s[k] == ' ')
    && (forall k | 0 <= k < |s| - 1 :: NoSpaceAfterSpace(s, k))
  }

  /** The space at `k`, if any, is not followed by another. */
  predicate NoSpaceAfterSpace(s: string, k: int)
    requires 0 <= k < |s| - 1
  {
    s[k] == ' ' ==> s[k + 1] != ' '
  }

  /** The words of `split()` joined by single spaces are in whitespace normal form. */
  lemma {:induction false} JoinWordsSingleSpaced(words: seq<string>)
    requires forall i | 0 <= i < |words| :: IsWord(words[i])
    ensures SingleSpaced(Join(words, " "))
    ensures |words| > 0 ==> |Join(words, " ")| > 0
  {
    if |words| > 1 {
      var w, t := words[0], Join(words[1..], " ");
      JoinWordsSingleSpaced(words[1..]);
      var r := w + " " + t;
      assert Join(words, " ") == r;
      assert forall k | 0 <= k < |w| :: r[k] == w[k];
      assert r[|w|] == ' ';
      assert forall k | |w| < k < |r| :: r[k] == t[k - |w| - 1];
      forall k | 0 <= k < |r| - 1
        ensures NoSpaceAfterSpace(r, k)
      {
        if k > |w| {
          assert NoSpaceAfterSpace(t, k - |w| - 1);
        }
      }
    }
  }

  /**
   * `' '.join(s.split())`: collapse every whitespace run to one space and
   * trim both ends. The words are kept, in order.
   */
  function CollapseWhitespace(s: string): (r: string)
    ensures SingleSpaced(r)
    ensures Split(r) == Split(s)
  {
    JoinWordsSingleSpaced(Split(s));
    SplitJoin(Split(s));
    Join(Split(s), " ")
  }

  /** What follows a space inside a normal-form text is again in normal form. */
  lemma SingleSpacedAfterSpace(s: string, n: nat)
    requires SingleSpaced(s) && n < |s| && s[n] == ' '
    ensures n + 1 < |s| && SingleSpaced(s[n + 1..])
  {
    assert n != |s| - 1;
    assert NoSpaceAfterSpace(s, n);
    var rest := s[n + 1..];
    assert forall k | 0 <= k < |rest| :: rest[k] == s[n + 1 + k];
    forall k | 0 <= k < |rest| - 1
      ensures NoSpaceAfterSpace(rest, k)
    {
      assert NoSpaceAfterSpace(s, n + 1 + k);
    }
  }

  lemma JoinCons(w: string, words: seq<string>, sep: string)
    requires |words| > 0
    ensures Join([w] + words, sep) == w + sep + Join(words, sep)
  {
    assert ([w] + words)[1..] == words;
  }

  /** Joining with nothing between: the first word, then the rest joined. */
  lemma JoinPrepend(w: string, words: seq<string>)
    ensures Join([w] + words, "") == w + Join(words, "")
  {
    if words != [] {
      JoinCons(w, words, "");
    }
  }

  /** A word followed by a space: the word is the leading word. */
  lemma {:induction false} WordBeforeSpace(w: string, t: string)
    requires IsWord(w)
    ensures WordPrefix(w + " " + t) == w
  {
    if |w| > 1 {
      var w' := w[1..];
      WordBeforeSpace(w', t);
      assert (w + " " + t)[1..] == w' + " " + t;
    } else {
      assert (w + " " + t)[1..] == " " + t;
    }
  }

  /** Words, joined by single spaces, split back into the same words. */
  lemma {:induction false} SplitJoin(words: seq<string>)
    requires forall i | 0 <= i < |words| :: IsWord(words[i])
    ensures Split(Join(words, " ")) == words
  {
    if |words| == 1 {
      var w := words[0];
      WordIsOwnPrefix(w);
      SplitWholeWord(w);
    } else if |words| > 1 {
      var w, t := words[0], Join(words[1..], " ");
      var s := w + " " + t;
      assert Join(words, " ") == s;
      WordBeforeSpace(w, t);
      SplitFirstWord(s);
      assert s[|w|..] == " " + t;
      assert (" " + t)[1..] == t;
      SplitJoin(words[1..]);
      assert words == [w] + words[1..];
    }
  }

  /** A word is its own leading word. */
  lemma {:induction false} WordIsOwnPrefix(w: string)
    requires IsWord(w)
    ensures WordPrefix(w) == w
  {
    if |w| > 1 {
      WordIsOwnPrefix(w[1..]);
    }
  }

  /** `split()` of a text that starts with a word: that word, then the split of what follows it. */
  lemma SplitFirstWord(s: string)
    requires |s| > 0 && !IsSpace(s[0])
    ensures Split(s) == [WordPrefix(s)] + Split(s[|WordPrefix(s)|..])
  {
  }

  /** A text that is one word splits into just that word. */
  lemma SplitWholeWord(s: string)
    requires |s| > 0 && !IsSpace(s[0]) && |WordPrefix(s)| == |s|
    ensures Split(s) == [s]
  {
    SplitFirstWord(s);
    var w := WordPrefix(s);
    assert w == s by {
      assert w <= s;
    }
    assert s[|w|..] == [];
  }

  /** A normal-form text with more than one word: the first word, one space, the rest. */
  lemma SplitAtFirstSpace(s: string)
    requires SingleSpaced(s) && |s| > 0 && |WordPrefix(s)| < |s|
    ensures var w := WordPrefix(s);
      && s == w + " " + s[|w| + 1..]
      && Split(s) == [w] + Split(s[|w| + 1..])
  {
    var w := WordPrefix(s);
    var n := |w|;
    SplitFirstWord(s);
    assert s[n] == ' ';
    var tail := s[n..];
    assert tail[0] == ' ' && tail[1..] == s[n + 1..];
    assert Split(tail) == Split(s[n + 1..]);
    assert w == s[..n];
    assert s == s[..n] + [' '] + s[n + 1..];
  }

  /** Text already in normal form is left as it is by the collapse. */
  lemma {:induction false} CollapseKeepsSingleSpaced(s: string)
    requires SingleSpaced(s)
    ensures Join(Split(s), " ") == s
    decreases |s|
  {
    if s != [] {
      var w := WordPrefix(s);
      if |w| == |s| {
        SplitWholeWord(s);
      } else {
        var rest := s[|w| + 1..];
        SplitAtFirstSpace(s);
        SingleSpacedAfterSpace(s, |w|);
        CollapseKeepsSingleSpaced(rest);
        assert rest != [] && !IsSpace(rest[0]);
        SplitFirstWord(rest);
        JoinCons(w, Split(rest), " ");
      }
    }
  }

  /** Collapsing whitespace twice is the same as collapsing it once. */
  lemma CollapseIdempotent(s: string)
    ensures CollapseWhitespace(CollapseWhitespace(s)) == CollapseWhitespace(s)
  {
    JoinWordsSingleSpaced(Split(s));
    CollapseKeepsSingleSpaced(Join(Split(s), " "));
  }

  // ---------------------------------------------------------------------------
  // str.strip()

  /** `s.lstrip()`. */
  function LStrip(s: string): string {
    if |s| > 0 && IsSpace(s[0]) then LStrip(s[1..]) else s
  }

  /** `s.rstrip()`. */
  function RStrip(s: string): string {
    if |s| > 0 && IsSpace(s[|s| - 1]) then RStrip(s[..|s| - 1]) else s
  }

  /** `s.strip()`. */
  function Strip(s: string): string {
    RStrip(LStrip(s))
  }

  predicate AllSpace(s: string) {
    forall k | 0 <= k < |s| :: IsSpace(s[k])
  }

  lemma {:induction false} LStripLeading(pad: string, t: string)
    requires AllSpace(pad) && |t| > 0 && !IsSpace(t[0])
    ensures LStrip(pad + t) == t
    decreases |pad|
  {
    if pad == [] {
      assert pad + t == t;
    } else {
      assert (pad + t)[1..] == pad[1..] + t;
      LStripLeading(pad[1..], t);
    }
  }

  lemma {:induction false} RStripTrailing(t: string, pad: string)
    requires AllSpace(pad) && |t| > 0 && !IsSpace(t[|t| - 1])
    ensures RStrip(t + pad) == t
    decreases |pad|
  {
    if pad == [] {
      assert t + pad == t;
    } else {
      assert (t + pad)[..|t + pad| - 1] == t + pad[..|pad| - 1];
      RStripTrailing(t, pad[..|pad| - 1]);
    }
  }

  /** `strip()` of a text padded by whitespace on both sides gives back the text, when it has no whitespace at its ends. */
  lemma StripPadded(before: string, body: string, after: string)
    requires AllSpace(before) && AllSpace(after)
    requires |body| > 0 && !IsSpace(body[0]) && !IsSpace(body[|body| - 1])
    ensures Strip(before + body + after) == body
  {
    assert before + body + after == before + (body + after);
    LStripLeading(before, body + after);
    RStripTrailing(body, after);
  }
}
