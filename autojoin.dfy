/**
  The CJK line-join preprocessor: the document's lines are joined with `\n`,
  every match of `([CJK])\n *([CJK])` is replaced by its two captured
  characters in one global left-to-right substitution, and the text is split
  on `\n` again.
*/
module Autojoin {
  import opened PyStr

  const Space: char := ' '

  // ---------------------------------------------------------------------------
  // The character class and the pattern
  // ---------------------------------------------------------------------------

  /**
    The class `[\u3000-\u30ff\u4e00-\u9fff]`: CJK symbols and punctuation,
    Hiragana, Katakana (one contiguous range) and the CJK Unified Ideographs.
  */
  predicate IsCjk(c: char) {
    ('\U{3000}' <= c <= '\U{30FF}') || ('\U{4E00}' <= c <= '\U{9FFF}')
  }

  /** Length of the run of U+0020 spaces that `s` starts with: the greedy ` *`. */
  function LeadingSpaces(s: string): (k: nat)
    ensures k <= |s|
    ensures forall i :: 0 <= i < k ==> s[i] == Space
    ensures k < |s| ==> s[k] != Space
  {
    if s != [] && s[0] == Space then 1 + LeadingSpaces(s[1..]) else 0
  }

  /** After its leading spaces, `s` has a CJK character: the ` *([CJK])` tail of the pattern. */
  predicate ContinuesWithCjk(s: string) {
    LeadingSpaces(s) < |s| && IsCjk(s[LeadingSpaces(s)])
  }

  /** The pattern can match starting at position `i` of `s`. */
  predicate MatchAt(s: string, i: nat) {
    i + 1 < |s| && IsCjk(s[i]) && s[i + 1] == Newline && ContinuesWithCjk(s[i + 2..])
  }

  /** End (exclusive) of the match at `i`: the CJK character, `\n`, the spaces, the CJK character. */
  function MatchEnd(s: string, i: nat): nat
    requires i + 2 <= |s|
  {
    i + 3 + LeadingSpaces(s[i + 2..])
  }

  /**
    The regular expression `([CJK])\n *([CJK])` read declaratively: `s[i..e]`
    is a CJK character, a `\n`, any number of spaces and a CJK character.
  */
  predicate PatternMatch(s: string, i: nat, e: nat) {
    && i + 3 <= e <= |s|
    && IsCjk(s[i])
    && s[i + 1] == Newline
    && (forall k :: i + 2 <= k < e - 1 ==> s[k] == Space)
    && IsCjk(s[e - 1])
  }

  /**
    A match of the pattern at `i` has exactly one possible end, the one the
    greedy space run gives: a space is never CJK, so the regular expression
    engine never needs to give spaces back.
  */
  lemma PatternMatchIsGreedy(s: string, i: nat, e: nat)
    requires PatternMatch(s, i, e)
    ensures MatchAt(s, i) && e == MatchEnd(s, i)
  {
    var t := s[i + 2..];
    var k := LeadingSpaces(t);
    assert !IsCjk(Space);
  }

  /** Both directions: `MatchAt` holds exactly when the regular expression matches at `i`. */
  lemma MatchAtIsPattern(s: string, i: nat)
    ensures MatchAt(s, i) <==> exists e :: PatternMatch(s, i, e)
  {
    if MatchAt(s, i) {
      var e := MatchEnd(s, i);
      assert forall k :: i + 2 <= k < e - 1 ==> s[k] == s[i + 2..][k - (i + 2)];
      assert PatternMatch(s, i, e);
    }
    if e :| PatternMatch(s, i, e) {
      PatternMatchIsGreedy(s, i, e);
    }
  }

  // ---------------------------------------------------------------------------
  // The substitution
  // ---------------------------------------------------------------------------

  /**
    `re.sub(pattern, r"\1\2", s)`: scan from the left; where the pattern
    matches, emit the two captured characters and resume right after the
    match, otherwise copy one character.  The right-hand CJK character belongs
    to the match, so it cannot open the next one.
  */
  function Rewrite(s: string): (r: string)
    ensures |r| <= |s|
    decreases |s|
  {
    if s == [] then []
    else if MatchAt(s, 0) then
      var e := MatchEnd(s, 0);
      [s[0], s[e - 1]] + Rewrite(s[e..])
    else [s[0]] + Rewrite(s[1..])
  }

  /** `CjkAutojoinPreprocessor.run`. */
  function Run(lines: seq<string>): (out: seq<string>)
    ensures |out| >= 1 && SingleLines(out)
  {
    Split(Rewrite(Join(lines)))
  }

  // ---------------------------------------------------------------------------
  // Nothing but terminators and spaces is removed
  // ---------------------------------------------------------------------------

  predicate IsBlank(c: char) {
    c == Newline || c == Space
  }

  /** `t` is `s` with some terminators and spaces deleted and every other character kept in order. */
  predicate Erasure(t: string, s: string)
    decreases |s|
  {
    if s == [] then t == []
    else
      || (IsBlank(s[0]) && Erasure(t, s[1..]))
      || (t != [] && t[0] == s[0] && Erasure(t[1..], s[1..]))
  }

  /** The characters of `s` that are neither terminators nor spaces, in order. */
  function NonBlank(s: string): string {
    if s == [] then []
    else (if IsBlank(s[0]) then [] else [s[0]]) + NonBlank(s[1..])
  }

  lemma {:induction false} ErasurePrefix(t: string, b: string, s: string)
    requires forall k :: 0 <= k < |b| ==> IsBlank(b[k])
    requires Erasure(t, s)
    ensures Erasure(t, b + s)
  {
    if b != [] {
      assert (b + s)[1..] == b[1..] + s;
      ErasurePrefix(t, b[1..], s);
    } else {
      assert b + s == s;
    }
  }

  /** The substitution only deletes terminators and spaces. */
  lemma {:induction false} RewriteIsErasure(s: string)
    ensures Erasure(Rewrite(s), s)
    decreases |s|
  {
    if s != [] {
      if MatchAt(s, 0) {
        var e := MatchEnd(s, 0);
        var r := Rewrite(s[e..]);
        RewriteIsErasure(s[e..]);
        assert Erasure([s[e - 1]] + r, s[e - 1..]) by {
          assert s[e - 1..][0] == s[e - 1] && s[e - 1..][1..] == s[e..];
          assert ([s[e - 1]] + r)[1..] == r;
        }
        var gap := s[1..e - 1];
        assert forall k :: 0 <= k < |gap| ==> IsBlank(gap[k]) by {
          forall k | 0 <= k < |gap| ensures IsBlank(gap[k]) {
            if k > 0 { assert gap[k] == s[2..][k - 1]; }
          }
        }
        ErasurePrefix([s[e - 1]] + r, gap, s[e - 1..]);
        assert gap + s[e - 1..] == s[1..];
        assert ([s[0], s[e - 1]] + r)[1..] == [s[e - 1]] + r;
      } else {
        RewriteIsErasure(s[1..]);
        assert ([s[0]] + Rewrite(s[1..]))[1..] == Rewrite(s[1..]);
      }
    }
  }

  lemma {:induction false} NonBlankConcat(a: string, b: string)
    ensures NonBlank(a + b) == NonBlank(a) + NonBlank(b)
  {
    if a != [] {
      assert (a + b)[0] == a[0] && (a + b)[1..] == a[1..] + b;
      NonBlankConcat(a[1..], b);
    } else {
      assert a + b == b;
    }
  }

  /** An erasure keeps every character other than terminators and spaces, in order. */
  lemma {:induction false} ErasureKeepsNonBlank(t: string, s: string)
    requires Erasure(t, s)
    ensures NonBlank(t) == NonBlank(s)
    decreases |s|
  {
    if s != [] {
      if IsBlank(s[0]) && Erasure(t, s[1..]) {
        ErasureKeepsNonBlank(t, s[1..]);
      } else {
        ErasureKeepsNonBlank(t[1..], s[1..]);
        NonBlankConcat([t[0]], t[1..]);
        assert [t[0]] + t[1..] == t;
      }
    }
  }

  /** The text of the document, apart from terminators and spaces, is unchanged. */
  lemma RewriteKeepsText(s: string)
    ensures NonBlank(Rewrite(s)) == NonBlank(s)
  {
    RewriteIsErasure(s);
    ErasureKeepsNonBlank(Rewrite(s), s);
  }

  // ---------------------------------------------------------------------------
  // Each join removes exactly one terminator
  // ---------------------------------------------------------------------------

  /** The number of matches the substitution replaces in `s`. */
  function Joins(s: string): nat
    decreases |s|
  {
    if s == [] then 0
    else if MatchAt(s, 0) then 1 + Joins(s[MatchEnd(s, 0)..])
    else Joins(s[1..])
  }

  /** A match spans its left character, one terminator, spaces and its right character. */
  lemma MatchNewlines(s: string)
    requires MatchAt(s, 0)
    ensures NewlineCount(s[..MatchEnd(s, 0)]) == 1
    ensures NewlineCount([s[0], s[MatchEnd(s, 0) - 1]]) == 0
  {
    var e := MatchEnd(s, 0);
    var m := s[..e];
    assert m == [s[0]] + ([Newline] + s[2..e]);
    assert Newline !in s[2..e] by {
      forall k | 0 <= k < e - 2 ensures s[2..e][k] != Newline {
        assert s[2..e][k] == s[2..][k];
      }
    }
    NewlineCountConcat([s[0]], [Newline] + s[2..e]);
    NewlineCountConcat([Newline], s[2..e]);
  }

  /** The output has one terminator fewer for every join. */
  lemma {:induction false} RewriteNewlines(s: string)
    ensures NewlineCount(Rewrite(s)) + Joins(s) == NewlineCount(s)
    decreases |s|
  {
    if s != [] {
      if MatchAt(s, 0) {
        var e := MatchEnd(s, 0);
        RewriteNewlines(s[e..]);
        MatchNewlines(s);
        NewlineCountConcat([s[0], s[e - 1]], Rewrite(s[e..]));
        NewlineCountConcat(s[..e], s[e..]);
        assert s[..e] + s[e..] == s;
      } else {
        RewriteNewlines(s[1..]);
        assert ([s[0]] + Rewrite(s[1..]))[1..] == Rewrite(s[1..]);
      }
    }
  }

  // ---------------------------------------------------------------------------
  // When the text is left alone
  // ---------------------------------------------------------------------------

  /** Somewhere in `s` the pattern matches. */
  predicate HasMatch(s: string) {
    exists i: nat :: i < |s| && MatchAt(s, i)
  }

  /** A match anywhere makes the output strictly shorter, even if the scan passes over it. */
  lemma {:induction false} MatchShortens(s: string, i: nat)
    requires i < |s| && MatchAt(s, i)
    ensures |Rewrite(s)| < |s|
    decreases i
  {
    if !MatchAt(s, 0) {
      assert s[1..][i + 1..] == s[i + 2..];
      assert MatchAt(s[1..], i - 1);
      MatchShortens(s[1..], i - 1);
    }
  }

  lemma {:induction false} NoMatchUnchanged(s: string)
    requires !HasMatch(s)
    ensures Rewrite(s) == s
    decreases |s|
  {
    if s != [] {
      assert !MatchAt(s, 0);
      forall i: nat | i < |s[1..]| ensures !MatchAt(s[1..], i) {
        if i + 2 <= |s[1..]| {
          assert s[1..][i + 2..] == s[i + 3..];
        }
        assert !MatchAt(s, i + 1);
      }
      NoMatchUnchanged(s[1..]);
      assert [s[0]] + s[1..] == s;
    }
  }

  /** The substitution leaves `s` as it is exactly when the pattern matches nowhere in it. */
  lemma RewriteFixpoint(s: string)
    ensures Rewrite(s) == s <==> !HasMatch(s)
  {
    if HasMatch(s) {
      var i: nat :| i < |s| && MatchAt(s, i);
      MatchShortens(s, i);
    } else {
      NoMatchUnchanged(s);
    }
  }

  /** Text without any CJK character is never changed. */
  lemma NoCjkUnchanged(s: string)
    requires forall i :: 0 <= i < |s| ==> !IsCjk(s[i])
    ensures Rewrite(s) == s
  {
    NoMatchUnchanged(s);
  }

  /** A single line (no terminator) is never changed. */
  lemma SingleLineUnchanged(s: string)
    requires Newline !in s
    ensures Rewrite(s) == s
  {
    NoMatchUnchanged(s);
  }

  // ---------------------------------------------------------------------------
  // Boundaries that stay
  // ---------------------------------------------------------------------------

  lemma {:induction false} LeadingSpacesConcat(x: string, y: string)
    ensures LeadingSpaces(x + y) == if LeadingSpaces(x) < |x| then LeadingSpaces(x) else |x| + LeadingSpaces(y)
  {
    if x != [] {
      assert (x + y)[0] == x[0] && (x + y)[1..] == x[1..] + y;
      LeadingSpacesConcat(x[1..], y);
    } else {
      assert x + y == y;
    }
  }

  lemma ContinuesWithCjkConcat(x: string, y: string)
    ensures ContinuesWithCjk(x + y) == if LeadingSpaces(x) < |x| then ContinuesWithCjk(x) else ContinuesWithCjk(y)
  {
    LeadingSpacesConcat(x, y);
    var k := LeadingSpaces(x);
    if k < |x| {
      assert (x + y)[k] == x[k];
    } else {
      assert (x + y)[|x| + LeadingSpaces(y)..] == y[LeadingSpaces(y)..];
    }
  }

  /** A text that is empty or starts with a terminator never continues with CJK. */
  lemma BreakStopsContinuation(t: string)
    requires t == [] || t[0] == Newline
    ensures !ContinuesWithCjk(t)
  {
  }

  /** A match at the front of `a` is still there, with the same end, whatever follows `a`. */
  lemma MatchExtends(a: string, u: string)
    requires MatchAt(a, 0)
    ensures MatchAt(a + u, 0) && MatchEnd(a + u, 0) == MatchEnd(a, 0)
  {
    var s := a + u;
    assert s[0] == a[0] && s[1] == a[1];
    assert s[2..] == a[2..] + u;
    LeadingSpacesConcat(a[2..], u);
    assert s[2 + LeadingSpaces(a[2..])] == a[2 + LeadingSpaces(a[2..])];
  }

  /** With at least two characters before a break, no match at the front of `a` appears after it. */
  lemma NoMatchExtends(a: string, b: string)
    requires |a| >= 2 && !MatchAt(a, 0)
    ensures !MatchAt(a + ([Newline] + b), 0)
  {
    var s := a + ([Newline] + b);
    assert s[0] == a[0] && s[1] == a[1];
    assert s[2..] == a[2..] + ([Newline] + b);
    ContinuesWithCjkConcat(a[2..], [Newline] + b);
    BreakStopsContinuation([Newline] + b);
  }

  /**
    A line break stays, and the text on either side of it is rewritten on its
    own, unless the character just before it is CJK and the text after it
    continues, past spaces, with a CJK character.  In particular a break is
    kept when it follows a non-CJK character, or when the next non-space
    character is not CJK: a Latin letter, a tab, or another break.
  */
  lemma {:induction false} HardBreak(a: string, b: string)
    requires !(|a| > 0 && IsCjk(a[|a| - 1]) && ContinuesWithCjk(b))
    ensures Rewrite(a + ([Newline] + b)) == Rewrite(a) + ([Newline] + Rewrite(b))
    decreases |a|, 1
  {
    var s := a + ([Newline] + b);
    if a == [] {
      assert s == [Newline] + b;
      RewriteCopy(s);
      assert s[1..] == b;
    } else if MatchAt(a, 0) {
      HardBreakAfterMatch(a, b);
    } else {
      HardBreakAfterCopy(a, b);
    }
  }

  /** A match at the front of `a` is rewritten the same way whatever follows `a`. */
  lemma RewriteMatchPrefix(a: string, u: string)
    requires MatchAt(a, 0)
    ensures Rewrite(a + u) == [a[0], a[MatchEnd(a, 0) - 1]] + Rewrite(a[MatchEnd(a, 0)..] + u)
  {
    var s := a + u;
    var e := MatchEnd(a, 0);
    MatchExtends(a, u);
    assert s[0] == a[0] && s[e - 1] == a[e - 1];
    assert s[e..] == a[e..] + u;
    RewriteMatch(s);
  }

  /** A character that opens no match is copied, whatever follows it. */
  lemma RewriteCopyPrefix(a: string, u: string)
    requires a != [] && !MatchAt(a + u, 0)
    ensures Rewrite(a + u) == [a[0]] + Rewrite(a[1..] + u)
  {
    var s := a + u;
    assert s[0] == a[0];
    assert s[1..] == a[1..] + u;
    RewriteCopy(s);
  }

  lemma {:induction false} HardBreakAfterMatch(a: string, b: string)
    requires !(|a| > 0 && IsCjk(a[|a| - 1]) && ContinuesWithCjk(b))
    requires MatchAt(a, 0)
    ensures Rewrite(a + ([Newline] + b)) == Rewrite(a) + ([Newline] + Rewrite(b))
    decreases |a|, 0
  {
    var e := MatchEnd(a, 0);
    RewriteMatchPrefix(a, [Newline] + b);
    HardBreak(a[e..], b);
    RewriteMatch(a);
    SeqAssoc([a[0], a[e - 1]], Rewrite(a[e..]), [Newline] + Rewrite(b));
  }

  lemma {:induction false} HardBreakAfterCopy(a: string, b: string)
    requires !(|a| > 0 && IsCjk(a[|a| - 1]) && ContinuesWithCjk(b))
    requires a != [] && !MatchAt(a, 0)
    ensures Rewrite(a + ([Newline] + b)) == Rewrite(a) + ([Newline] + Rewrite(b))
    decreases |a|, 0
  {
    CopyBeforeBreak(a, b);
    RewriteCopyPrefix(a, [Newline] + b);
    HardBreak(a[1..], b);
    RewriteCopy(a);
    SeqAssoc([a[0]], Rewrite(a[1..]), [Newline] + Rewrite(b));
  }

  /** A character that opens no match in `a` opens none once a break and more text follow `a`. */
  lemma CopyBeforeBreak(a: string, b: string)
    requires !(|a| > 0 && IsCjk(a[|a| - 1]) && ContinuesWithCjk(b))
    requires a != [] && !MatchAt(a, 0)
    ensures !MatchAt(a + ([Newline] + b), 0)
  {
    if |a| == 1 {
      var s := a + ([Newline] + b);
      assert s[0] == a[0] && s[1] == Newline && s[2..] == b;
    } else {
      NoMatchExtends(a, b);
    }
  }

  /**
    A blank line between two pieces of text (a paragraph break), even one
    holding only spaces, always survives: both of its terminators stay.
  */
  lemma ParagraphBreak(a: string, blank: string, b: string)
    requires forall k :: 0 <= k < |blank| ==> blank[k] == Space
    ensures Rewrite(a + ([Newline] + (blank + ([Newline] + b))))
         == Rewrite(a) + ([Newline] + (blank + ([Newline] + Rewrite(b))))
  {
    ContinuesWithCjkConcat(blank, [Newline] + b);
    BreakStopsContinuation([Newline] + b);
    HardBreak(a, blank + ([Newline] + b));
    HardBreak(blank, b);
    SingleLineUnchanged(blank);
  }

  // ---------------------------------------------------------------------------
  // A line-level reference for the whole pass
  // ---------------------------------------------------------------------------

  /** `y` without its leading spaces. */
  function Strip(y: string): (r: string)
    ensures r == [] || r[0] != Space
    ensures |r| <= |y| && y == y[..|y| - |r|] + r
  {
    y[LeadingSpaces(y)..]
  }

  /** The break between `cur` and `y` qualifies: a CJK character on each side, past the spaces. */
  predicate Joinable(cur: string, y: string) {
    |cur| > 0 && IsCjk(cur[|cur| - 1]) && ContinuesWithCjk(y)
  }

  /**
    The output lines from the one whose text so far is `cur` onwards, with
    `rest` the input lines still to come.  `free` says whether the last
    character of `cur` may still open a join: it may not when it was itself
    taken as the right side of the previous join.
  */
  function Glue(cur: string, free: bool, rest: seq<string>): (out: seq<string>)
    ensures 1 <= |out| <= |rest| + 1
    decreases |rest|
  {
    if rest == [] then [cur]
    else if free && Joinable(cur, rest[0]) then
      Glue(cur + Strip(rest[0]), |Strip(rest[0])| > 1, rest[1..])
    else [cur] + Glue(rest[0], true, rest[1..])
  }

  /** What the preprocessor does, stated line by line. */
  function Autojoin(lines: seq<string>): seq<string> {
    if lines == [] then [""] else Glue(lines[0], true, lines[1..])
  }

  /** The text after the first of `rest` lines, with its leading terminator. */
  function Tail(rest: seq<string>): (t: string)
    ensures t == [] || t[0] == Newline
  {
    if rest == [] then [] else [Newline] + Join(rest)
  }

  lemma JoinTail(lines: seq<string>)
    requires |lines| > 0
    ensures Join(lines) == lines[0] + Tail(lines[1..])
  {
    if |lines| == 1 {
      assert lines[0] + [] == lines[0];
    }
  }

  lemma GlueSingleLines(cur: string, free: bool, rest: seq<string>)
    requires Newline !in cur && SingleLines(rest)
    ensures SingleLines(Glue(cur, free, rest))
    decreases |rest|
  {
    if rest != [] {
      assert Newline !in rest[0] && SingleLines(rest[1..]);
      if free && Joinable(cur, rest[0]) {
        var y := rest[0];
        StripSingle(y);
        NoNewlineConcat(cur, Strip(y));
        GlueSingleLines(cur + Strip(y), |Strip(y)| > 1, rest[1..]);
      } else {
        GlueSingleLines(rest[0], true, rest[1..]);
      }
    }
  }

  /** Inside a single line nothing happens until its last character. */
  lemma {:induction false} FreshLine(y: string, t: string)
    requires Newline !in y && y != []
    ensures Rewrite(y + t) == y[..|y| - 1] + Rewrite([y[|y| - 1]] + t)
    decreases |y|
  {
    if |y| > 1 {
      var s := y + t;
      assert s[0] == y[0] && s[1] == y[1];
      assert !MatchAt(s, 0);
      assert s[1..] == y[1..] + t;
      FreshLine(y[1..], t);
      assert y[1..][..|y| - 2] == y[1..|y| - 1];
      assert [y[0]] + y[1..|y| - 1] == y[..|y| - 1];
    } else {
      assert y + t == [y[0]] + t;
    }
  }

  lemma JoinCons(x: string, ys: seq<string>)
    requires ys != []
    ensures Join([x] + ys) == x + ([Newline] + Join(ys))
  {
    assert ([x] + ys)[1..] == ys;
  }

  /**
    The text the scan produces from a point inside the line whose output so
    far is `cur`, with `t` still to be read after that line: when `free`, the
    last character of `cur` has not been read yet; otherwise it has.
  */
  function Pending(cur: string, free: bool, t: string): string {
    if free && cur != [] then cur[..|cur| - 1] + Rewrite([cur[|cur| - 1]] + t)
    else cur + Rewrite(t)
  }

  lemma PendingEnd(cur: string, free: bool)
    ensures Pending(cur, free, []) == cur
  {
    if free && cur != [] {
      assert [cur[|cur| - 1]] + [] == [cur[|cur| - 1]];
      assert cur[..|cur| - 1] + [cur[|cur| - 1]] == cur;
    } else {
      assert cur + [] == cur;
    }
  }

  /** A fresh line's text, and whatever follows it, is read as its output starting afresh. */
  lemma PendingFresh(y: string, t: string)
    requires Newline !in y
    ensures Pending(y, true, t) == Rewrite(y + t)
  {
    if y != [] {
      FreshLine(y, t);
    } else {
      assert y + t == t;
    }
  }

  lemma TailCons(rest: seq<string>)
    requires rest != []
    ensures Tail(rest) == [Newline] + (rest[0] + Tail(rest[1..]))
  {
    JoinTail(rest);
  }

  /** `y` followed by more text, rewritten, is the text of the lines `Glue` makes from a fresh `y`. */
  lemma {:induction false} GlueFresh(y: string, rest: seq<string>)
    requires Newline !in y && SingleLines(rest)
    ensures Rewrite(y + Tail(rest)) == Join(Glue(y, true, rest))
    decreases |rest|, 2
  {
    GlueCorrect(y, true, rest);
    PendingFresh(y, Tail(rest));
  }

  /**
    The scan and `Glue` agree: whatever the scan has already fixed, followed
    by the rewrite of what it still has to read, is the text of `Glue`'s lines.
  */
  lemma {:induction false} GlueCorrect(cur: string, free: bool, rest: seq<string>)
    requires Newline !in cur && SingleLines(rest)
    ensures Pending(cur, free, Tail(rest)) == Join(Glue(cur, free, rest))
    decreases |rest|, 1
  {
    if rest == [] {
      PendingEnd(cur, free);
    } else if free && Joinable(cur, rest[0]) {
      GlueJoinStep(cur, rest);
    } else {
      GlueBreakStep(cur, free, rest);
    }
  }

  /** The shape of the match at a qualifying break, without the scan. */
  lemma JoinMatchShape(c: char, y: string, t: string)
    requires IsCjk(c) && ContinuesWithCjk(y) && (t == [] || t[0] == Newline)
    ensures var r := [c] + ([Newline] + (y + t));
      && MatchAt(r, 0) && r[0] == c
      && MatchEnd(r, 0) == 3 + LeadingSpaces(y)
      && r[MatchEnd(r, 0) - 1] == y[LeadingSpaces(y)]
      && r[MatchEnd(r, 0)..] == y[LeadingSpaces(y) + 1..] + t
  {
    var r := [c] + ([Newline] + (y + t));
    var k := LeadingSpaces(y);
    DropTwo(c, Newline, y + t, 0);
    DropTwo(c, Newline, y + t, k + 1);
    DropConcat(y, t, k + 1);
    LeadingSpacesConcat(y, t);
    assert r[2 + k] == y[k];
  }

  /** The scan meets a qualifying break: the line goes on with the next line's text, its indentation dropped. */
  lemma JoinStepRewrite(c: char, y: string, t: string)
    requires IsCjk(c) && ContinuesWithCjk(y) && (t == [] || t[0] == Newline)
    ensures Rewrite([c] + ([Newline] + (y + t)))
         == [c, y[LeadingSpaces(y)]] + Rewrite(y[LeadingSpaces(y) + 1..] + t)
  {
    JoinMatchShape(c, y, t);
    RewriteMatch([c] + ([Newline] + (y + t)));
  }

  /** The join step, seen from the line being built. */
  lemma JoinStepPendingRewrite(cur: string, y: string, t: string)
    requires Joinable(cur, y) && (t == [] || t[0] == Newline)
    ensures Pending(cur, true, [Newline] + (y + t))
         == cur[..|cur| - 1] + ([cur[|cur| - 1], y[LeadingSpaces(y)]] + Rewrite(y[LeadingSpaces(y) + 1..] + t))
  {
    JoinStepRewrite(cur[|cur| - 1], y, t);
  }

  lemma StripSingle(y: string)
    requires Newline !in y
    ensures Newline !in Strip(y)
  {
    NoNewlineSuffix(y, LeadingSpaces(y));
  }

  lemma NoNewlineSuffix(y: string, k: nat)
    requires Newline !in y && k <= |y|
    ensures Newline !in y[k..]
  {
    forall i | 0 <= i < |y[k..]| ensures y[k..][i] != Newline {
      assert y[k..][i] == y[k + i];
    }
  }

  /** The first character of `Strip(y)` opens the join; the rest of it follows. */
  lemma StripParts(y: string)
    requires LeadingSpaces(y) < |y|
    ensures |Strip(y)| == |y| - LeadingSpaces(y)
    ensures Strip(y)[0] == y[LeadingSpaces(y)] && Strip(y)[1..] == y[LeadingSpaces(y) + 1..]
  {
  }

  /** The sequence bookkeeping of a join that leaves part `v[1..]` of the next line, for any rest `x` of the output. */
  lemma JoinedLineSplit(cur: string, v: string, x: string)
    requires cur != [] && |v| > 1
    ensures (cur + v)[|cur + v| - 1] == v[1..][|v[1..]| - 1]
    ensures cur[..|cur| - 1] + ([cur[|cur| - 1], v[0]] + (v[1..][..|v[1..]| - 1] + x)) == (cur + v)[..|cur + v| - 1] + x
  {
    var n, m := |cur|, |v|;
    assert v[1..][..m - 2] == v[1..m - 1];
    assert (cur + v)[..n + m - 1] == cur + v[..m - 1];
    assert v[..m - 1] == [v[0]] + v[1..m - 1];
    assert cur == cur[..n - 1] + [cur[n - 1]];
  }

  /** After a join that leaves more than one character of the next line, its last one is fresh. */
  lemma JoinLeavesFresh(cur: string, y: string, t: string)
    requires cur != [] && LeadingSpaces(y) + 1 < |y| && Newline !in y
    ensures cur[..|cur| - 1] + ([cur[|cur| - 1], y[LeadingSpaces(y)]] + Rewrite(y[LeadingSpaces(y) + 1..] + t))
         == Pending(cur + Strip(y), true, t)
  {
    var u := y[LeadingSpaces(y) + 1..];
    NoNewlineSuffix(y, LeadingSpaces(y) + 1);
    FreshLine(u, t);
    StripParts(y);
    JoinedLineSplit(cur, Strip(y), Rewrite([u[|u| - 1]] + t));
    PendingFreshUnfold(cur + Strip(y), t);
  }

  /** Sequence bookkeeping for a join that takes the last character of the next line. */
  lemma JoinedLineEnds(cur: string, y: string, k: nat, t: string, x: string)
    requires cur != [] && k + 1 == |y|
    ensures y[k + 1..] + t == t
    ensures cur[..|cur| - 1] + ([cur[|cur| - 1], y[k]] + x) == (cur + y[k..]) + x
  {
    assert y[k..] == [y[k]];
    assert cur == cur[..|cur| - 1] + [cur[|cur| - 1]];
  }

  /** After a join that takes the last character of the next line, the scan stands at its terminator. */
  lemma JoinLeavesNothing(cur: string, y: string, t: string)
    requires cur != [] && LeadingSpaces(y) + 1 == |y|
    ensures cur[..|cur| - 1] + ([cur[|cur| - 1], y[LeadingSpaces(y)]] + Rewrite(y[LeadingSpaces(y) + 1..] + t))
         == Pending(cur + Strip(y), false, t)
  {
    JoinedLineEnds(cur, y, LeadingSpaces(y), t, Rewrite(t));
  }

  lemma JoinStepPending(cur: string, y: string, t: string)
    requires Joinable(cur, y) && Newline !in y && (t == [] || t[0] == Newline)
    ensures Pending(cur, true, [Newline] + (y + t)) == Pending(cur + Strip(y), |Strip(y)| > 1, t)
  {
    var k := LeadingSpaces(y);
    if k + 1 < |y| {
      JoinStepPendingFresh(cur, y, t);
    } else {
      JoinStepPendingNothing(cur, y, t);
    }
  }

  lemma JoinStepPendingFresh(cur: string, y: string, t: string)
    requires Joinable(cur, y) && Newline !in y && (t == [] || t[0] == Newline)
    requires LeadingSpaces(y) + 1 < |y|
    ensures Pending(cur, true, [Newline] + (y + t)) == Pending(cur + Strip(y), true, t)
  {
    JoinStepPendingRewrite(cur, y, t);
    JoinLeavesFresh(cur, y, t);
  }

  lemma JoinStepPendingNothing(cur: string, y: string, t: string)
    requires Joinable(cur, y) && Newline !in y && (t == [] || t[0] == Newline)
    requires LeadingSpaces(y) + 1 == |y|
    ensures Pending(cur, true, [Newline] + (y + t)) == Pending(cur + Strip(y), false, t)
  {
    JoinStepPendingRewrite(cur, y, t);
    JoinLeavesNothing(cur, y, t);
  }

  lemma BreakStepPending(cur: string, free: bool, y: string, t: string)
    requires !(free && Joinable(cur, y)) && Newline !in y && (t == [] || t[0] == Newline)
    ensures Pending(cur, free, [Newline] + (y + t)) == cur + ([Newline] + Rewrite(y + t))
  {
    ContinuesWithCjkConcat(y, t);
    BreakStopsContinuation(t);
    if free && cur != [] {
      var c := cur[|cur| - 1];
      HardBreak([c], y + t);
      OneCharUnchanged(c);
      LastThen(cur, [Newline] + Rewrite(y + t));
    } else {
      HardBreak([], y + t);
      EmptyThen([Newline] + (y + t));
    }
  }

  lemma SingleLinesCons(rest: seq<string>)
    requires rest != [] && SingleLines(rest)
    ensures Newline !in rest[0] && SingleLines(rest[1..])
  {
    assert forall i :: 0 <= i < |rest[1..]| ==> rest[1..][i] == rest[i + 1];
  }

  lemma NoNewlineConcat(x: string, y: string)
    requires Newline !in x && Newline !in y
    ensures Newline !in x + y
  {
  }

  lemma {:induction false} GlueJoinStep(cur: string, rest: seq<string>)
    requires Newline !in cur && SingleLines(rest)
    requires rest != [] && Joinable(cur, rest[0])
    ensures Pending(cur, true, Tail(rest)) == Join(Glue(cur, true, rest))
    decreases |rest|, 0
  {
    var y := rest[0];
    SingleLinesCons(rest);
    TailCons(rest);
    JoinStepPending(cur, y, Tail(rest[1..]));
    GlueJoinUnfold(cur, rest);
    StripSingle(y);
    NoNewlineConcat(cur, Strip(y));
    GlueCorrect(cur + Strip(y), |Strip(y)| > 1, rest[1..]);
  }

  lemma {:induction false} GlueBreakStep(cur: string, free: bool, rest: seq<string>)
    requires Newline !in cur && SingleLines(rest)
    requires rest != [] && !(free && Joinable(cur, rest[0]))
    ensures Pending(cur, free, Tail(rest)) == Join(Glue(cur, free, rest))
    decreases |rest|, 0
  {
    var y := rest[0];
    SingleLinesCons(rest);
    TailCons(rest);
    BreakStepPending(cur, free, y, Tail(rest[1..]));
    GlueFresh(y, rest[1..]);
    GlueBreakUnfold(cur, free, rest);
    JoinCons(cur, Glue(y, true, rest[1..]));
  }

  /**
    The preprocessor, stated on lines: for input lines without terminators of
    their own, `Run` is `Autojoin`.
  */
  lemma RunIsAutojoin(lines: seq<string>)
    requires SingleLines(lines)
    ensures Run(lines) == Autojoin(lines)
  {
    if lines != [] {
      assert Newline !in lines[0] && SingleLines(lines[1..]);
      JoinTail(lines);
      GlueFresh(lines[0], lines[1..]);
      GlueSingleLines(lines[0], true, lines[1..]);
      SplitJoin(Glue(lines[0], true, lines[1..]));
    }
  }

  // ---------------------------------------------------------------------------
  // Unfolding steps: one step of a definition, or one fact about sequences,
  // stated on its own so that the proofs above stay small
  // ---------------------------------------------------------------------------

  lemma SeqAssoc(x: string, y: string, z: string)
    ensures x + (y + z) == (x + y) + z
  {
  }

  lemma EmptyThen(x: string)
    ensures [] + x == x
  {
  }

  lemma DropTwo(c: char, d: char, w: string, j: nat)
    requires j <= |w|
    ensures ([c] + ([d] + w))[j + 2..] == w[j..]
  {
  }

  lemma DropConcat(y: string, t: string, j: nat)
    requires j <= |y|
    ensures (y + t)[j..] == y[j..] + t
  {
  }

  lemma OneCharUnchanged(c: char)
    ensures Rewrite([c]) == [c]
  {
    assert [c][1..] == [];
  }

  lemma LastThen(cur: string, x: string)
    requires cur != []
    ensures cur[..|cur| - 1] + ([cur[|cur| - 1]] + x) == cur + x
  {
    assert cur == cur[..|cur| - 1] + [cur[|cur| - 1]];
  }

  lemma GlueJoinUnfold(cur: string, rest: seq<string>)
    requires rest != [] && Joinable(cur, rest[0])
    ensures Glue(cur, true, rest) == Glue(cur + Strip(rest[0]), |Strip(rest[0])| > 1, rest[1..])
  {
  }

  lemma GlueBreakUnfold(cur: string, free: bool, rest: seq<string>)
    requires rest != [] && !(free && Joinable(cur, rest[0]))
    ensures Glue(cur, free, rest) == [cur] + Glue(rest[0], true, rest[1..])
  {
  }

  /** One step of the scan where the pattern matches. */
  lemma RewriteMatch(s: string)
    requires MatchAt(s, 0)
    ensures Rewrite(s) == [s[0], s[MatchEnd(s, 0) - 1]] + Rewrite(s[MatchEnd(s, 0)..])
  {
  }

  /** One step of the scan where the pattern does not match. */
  lemma RewriteCopy(s: string)
    requires s != [] && !MatchAt(s, 0)
    ensures Rewrite(s) == [s[0]] + Rewrite(s[1..])
  {
  }

  lemma PendingFreshUnfold(cur: string, t: string)
    requires cur != []
    ensures Pending(cur, true, t) == cur[..|cur| - 1] + Rewrite([cur[|cur| - 1]] + t)
  {
  }
}
