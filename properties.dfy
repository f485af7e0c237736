/**
  What the preprocessor does to a document's lines, stated through the
  line-level reference `Autojoin`, and the document scenarios of the
  package's own tests that the substitution does satisfy.
*/
module AutojoinProperties {
  import opened PyStr
  import opened Autojoin

  /** An empty document comes back as one empty line, as `"".split("\n")` gives. */
  lemma RunEmpty()
    ensures Run([]) == [""]
  {
  }

  /**
    Lines are only ever merged: a non-empty input loses exactly one line per
    join the substitution makes, so the output never has more lines.
  */
  lemma RunLineCount(lines: seq<string>)
    requires |lines| > 0 && SingleLines(lines)
    ensures |Run(lines)| == |lines| - Joins(Join(lines))
    ensures |Run(lines)| <= |lines|
  {
    JoinNewlineCount(lines);
    RewriteNewlines(Join(lines));
  }

  /** Both directions: the lines come back unchanged exactly when the pattern matches nowhere. */
  lemma RunUnchangedIff(lines: seq<string>)
    requires |lines| > 0 && SingleLines(lines)
    ensures Run(lines) == lines <==> !HasMatch(Join(lines))
  {
    var text := Join(lines);
    RewriteFixpoint(text);
    if !HasMatch(text) {
      SplitJoin(lines);
    }
    if Run(lines) == lines {
      JoinSplit(Rewrite(text));
    }
  }

  lemma {:induction false} GlueKeepsBreaks(cur: string, free: bool, rest: seq<string>)
    requires forall i :: 0 <= i < |rest| ==> !ContinuesWithCjk(rest[i])
    ensures Glue(cur, free, rest) == [cur] + rest
    decreases |rest|
  {
    if rest != [] {
      GlueKeepsBreaks(rest[0], true, rest[1..]);
      assert [rest[0]] + rest[1..] == rest;
    }
  }

  /**
    Lines none of which (after the first) starts, past its indentation, with
    a CJK character are left alone; in particular a document without CJK
    text is unchanged.
  */
  lemma RunNoContinuation(lines: seq<string>)
    requires |lines| > 0 && SingleLines(lines)
    requires forall i :: 0 < i < |lines| ==> !ContinuesWithCjk(lines[i])
    ensures Run(lines) == lines
  {
    RunIsAutojoin(lines);
    GlueKeepsBreaks(lines[0], true, lines[1..]);
    assert [lines[0]] + lines[1..] == lines;
  }

  lemma RunNoCjk(lines: seq<string>)
    requires |lines| > 0 && SingleLines(lines)
    requires forall i, k :: 0 <= i < |lines| && 0 <= k < |lines[i]| ==> !IsCjk(lines[i][k])
    ensures Run(lines) == lines
  {
    forall i | 0 < i < |lines| ensures !ContinuesWithCjk(lines[i]) {
      if LeadingSpaces(lines[i]) < |lines[i]| {
        assert !IsCjk(lines[i][LeadingSpaces(lines[i])]);
      }
    }
    RunNoContinuation(lines);
  }

  /**
    Two lines: they are merged, the second one's leading spaces dropped,
    exactly when the first ends with a CJK character and the second, past its
    spaces, starts with one.
  */
  lemma RunTwoLines(x: string, y: string)
    requires Newline !in x && Newline !in y
    ensures Run([x, y]) == if Joinable(x, y) then [x + Strip(y)] else [x, y]
  {
    assert SingleLines([x, y]);
    RunIsAutojoin([x, y]);
    assert [x, y][0] == x && [x, y][1..] == [y];
    assert [y][0] == y && [y][1..] == [];
    if Joinable(x, y) {
      assert Glue(x, true, [y]) == Glue(x + Strip(y), |Strip(y)| > 1, []);
    } else {
      assert Glue(x, true, [y]) == [x] + Glue(y, true, []);
    }
  }

  /** A line holding one CJK character continues any line ending in one. */
  lemma CjkCharLine(c: char)
    requires IsCjk(c)
    ensures Strip([c]) == [c] && ContinuesWithCjk([c])
  {
    assert !IsCjk(Space);
    assert LeadingSpaces([c]) == 0;
  }

  /**
    A chain of one-character CJK lines is not rejoined in one pass: the
    middle character is consumed as the right side of the first join, so it
    cannot open the second.  A second pass finishes the chain.
  */
  lemma RunChainOfThree(x: char, y: char, z: char)
    requires IsCjk(x) && IsCjk(y) && IsCjk(z)
    ensures Run([[x], [y], [z]]) == [[x, y], [z]]
    ensures Run([[x, y], [z]]) == [[x, y, z]]
  {
    CjkCharLine(y);
    CjkCharLine(z);
    var lines := [[x], [y], [z]];
    assert SingleLines(lines);
    RunIsAutojoin(lines);
    var r1 := lines[1..];
    assert r1 == [[y], [z]];
    var r2 := r1[1..];
    assert r2 == [[z]] && r2[1..] == [];
    GlueJoinUnfold([x], r1);
    assert [x] + [y] == [x, y];
    GlueBreakUnfold([x, y], false, r2);
    RunTwoLines([x, y], [z]);
    assert [x, y] + [z] == [x, y, z];
  }

  /** Hence the pass is not idempotent. */
  lemma RunNotIdempotent()
    ensures exists lines :: Run(Run(lines)) != Run(lines)
  {
    var lines := [['あ'], ['い'], ['う']];
    RunChainOfThree('あ', 'い', 'う');
    assert Run(lines) == [['あ', 'い'], ['う']];
    assert Run(Run(lines)) == [['あ', 'い', 'う']];
    assert Run(Run(lines)) != Run(lines);
  }

  // ---------------------------------------------------------------------------
  // The character class and the package's scenarios
  // ---------------------------------------------------------------------------

  /**
    The class is the union of the four blocks it is meant to cover: CJK
    Symbols and Punctuation, Hiragana, Katakana and the CJK Unified Ideographs.
  */
  lemma CjkClassBlocks(c: char)
    ensures IsCjk(c) <==>
      || ('\U{3000}' <= c <= '\U{303F}')
      || ('\U{3040}' <= c <= '\U{309F}')
      || ('\U{30A0}' <= c <= '\U{30FF}')
      || ('\U{4E00}' <= c <= '\U{9FFF}')
  {
  }

  /** Japanese punctuation is in the class; full-width forms, spaces, tabs and terminators are not. */
  lemma CjkClassExamples()
    ensures IsCjk('　') && IsCjk('、') && IsCjk('。') && IsCjk('あ') && IsCjk('テ') && IsCjk('一')
    ensures !IsCjk('，') && !IsCjk('．') && !IsCjk(' ') && !IsCjk('\t') && !IsCjk('\n') && !IsCjk('a')
  {
  }

  /** Two unindented lines meeting at CJK characters are concatenated. */
  lemma RunTwoCjkLines(x: string, y: string)
    requires Newline !in x && Newline !in y
    requires x != [] && IsCjk(x[|x| - 1]) && y != [] && IsCjk(y[0])
    ensures Run([x, y]) == [x + y]
  {
    assert !IsCjk(Space);
    assert LeadingSpaces(y) == 0;
    RunTwoLines(x, y);
  }

  /** A break directly between two CJK characters disappears with nothing in its place. */
  lemma BasicJoin()
    ensures Run(["これは", "テストです。"]) == ["これはテストです。"]
  {
    RunTwoCjkLines("これは", "テストです。");
    assert "これは" + "テストです。" == "これはテストです。";
  }

  /** An empty line between two lines keeps all three, whatever the two hold. */
  lemma RunEmptyLineKept(a: string, c: string)
    requires Newline !in a && Newline !in c
    ensures Run([a, "", c]) == [a, "", c]
  {
    var lines := [a, "", c];
    assert SingleLines(lines);
    RunIsAutojoin(lines);
    var r1 := lines[1..];
    assert r1 == ["", c];
    var r2 := r1[1..];
    assert r2 == [c] && r2[1..] == [];
    GlueBreakUnfold(a, true, r1);
    GlueBreakUnfold("", true, r2);
  }

  /** A blank line between two CJK lines keeps all three lines. */
  lemma ParagraphKept()
    ensures Run(["これは", "", "テストです。"]) == ["これは", "", "テストです。"]
  {
    RunEmptyLineKept("これは", "テストです。");
  }

  /**
    Four lines of which only the third continues the second: the third is
    appended to the second, its indentation dropped.  The fourth is not
    joined, either because it does not continue the merged line or because
    the third line gave only the one character the join consumed.
  */
  lemma RunJoinsThirdLine(a: string, b: string, c: string, d: string)
    requires SingleLines([a, b, c, d])
    requires !Joinable(a, b) && Joinable(b, c) && !(|Strip(c)| > 1 && Joinable(b + Strip(c), d))
    ensures Run([a, b, c, d]) == [a, b + Strip(c), d]
  {
    var lines := [a, b, c, d];
    RunIsAutojoin(lines);
    var r1 := lines[1..];
    assert r1 == [b, c, d];
    var r2 := r1[1..];
    assert r2 == [c, d];
    var r3 := r2[1..];
    assert r3 == [d] && r3[1..] == [];
    GlueBreakUnfold(a, true, r1);
    GlueJoinUnfold(b, r2);
    GlueBreakUnfold(b + Strip(c), |Strip(c)| > 1, r3);
  }

  /** An indented continuation line is joined to the item before it, its indentation dropped. */
  lemma ListContinuation()
    ensures Run(["- あ", "- い", "  う", "- え"]) == ["- あ", "- いう", "- え"]
  {
    assert !IsCjk('-');
    assert LeadingSpaces("- い") == 0 && LeadingSpaces("- え") == 0;
    assert LeadingSpaces("  う") == 2 && Strip("  う") == "う";
    assert "- い" + "う" == "- いう";
    assert SingleLines(["- あ", "- い", "  う", "- え"]);
    RunJoinsThirdLine("- あ", "- い", "  う", "- え");
  }

  /**
    Punctuation of the class at the end of list items: only the indented
    continuation is joined.
  */
  lemma PunctuationList()
    ensures Run(["- あ、", "- い", "  う、", "- え"]) == ["- あ、", "- いう、", "- え"]
  {
    assert !IsCjk('-');
    assert LeadingSpaces("- い") == 0 && LeadingSpaces("- え") == 0;
    assert LeadingSpaces("  う、") == 2 && Strip("  う、") == "う、";
    assert "- い" + "う、" == "- いう、";
    assert SingleLines(["- あ、", "- い", "  う、", "- え"]);
    RunJoinsThirdLine("- あ、", "- い", "  う、", "- え");
  }

  /** The same list with the full-width comma, which is outside the class. */
  lemma FullWidthPunctuationList()
    ensures Run(["- あ，", "- い", "  う，", "- え"]) == ["- あ，", "- いう，", "- え"]
  {
    assert !IsCjk('-');
    assert LeadingSpaces("- い") == 0 && LeadingSpaces("- え") == 0;
    assert LeadingSpaces("  う，") == 2 && Strip("  う，") == "う，";
    assert "- い" + "う，" == "- いう，";
    assert SingleLines(["- あ，", "- い", "  う，", "- え"]);
    RunJoinsThirdLine("- あ，", "- い", "  う，", "- え");
  }

  /**
    The preprocessor runs before any block parsing, so it does not know
    about code fences: CJK lines inside a fence are joined like any others.
  */
  lemma FenceContentsJoined()
    ensures Run(["```", "あ", "い", "```"]) == ["```", "あい", "```"]
  {
    assert !IsCjk('`') && !IsCjk(Space);
    assert LeadingSpaces("あ") == 0 && LeadingSpaces("```") == 0;
    assert LeadingSpaces("い") == 0 && Strip("い") == "い";
    assert "あ" + "い" == "あい";
    assert SingleLines(["```", "あ", "い", "```"]);
    RunJoinsThirdLine("```", "あ", "い", "```");
  }

  /** Two lines whose break does not qualify are both kept as they are. */
  lemma RunBreakKept(x: string, y: string)
    requires Newline !in x && Newline !in y && !Joinable(x, y)
    ensures Run([x, y]) == [x, y]
  {
    RunTwoLines(x, y);
  }

  /** A CJK character before the break is not enough: a Latin letter after the spaces keeps it. */
  lemma PunctuationBeforeLatin()
    ensures Run(["これは、", "  abcです。"]) == ["これは、", "  abcです。"]
  {
    assert LeadingSpaces("  abcです。") == 2 && !IsCjk('a');
    RunBreakKept("これは、", "  abcです。");
  }

  /** A full-width comma is outside the class, so no join follows it. */
  lemma FullWidthCommaKept()
    ensures Run(["これは，", "です。"]) == ["これは，", "です。"]
  {
    assert !IsCjk('，');
    RunBreakKept("これは，", "です。");
  }

  /** Only U+0020 indentation is skipped: a tab keeps the break. */
  lemma TabIndentKept()
    ensures Run(["あ", "\tい"]) == ["あ", "\tい"]
  {
    assert LeadingSpaces("\tい") == 0 && !IsCjk('\t');
    RunBreakKept("あ", "\tい");
  }

  /** Lines without CJK text, such as `["a", "b"]`, are untouched. */
  lemma LatinKept()
    ensures Run(["a", "b"]) == ["a", "b"]
  {
    assert !IsCjk('a');
    RunBreakKept("a", "b");
  }
}
