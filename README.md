# CJK autojoin preprocessor, modelled in Dafny

`pymdownx-cjk-autojoin` is a Python-Markdown extension. It removes the line
break between two CJK characters, so that text wrapped in the middle of a
Japanese or Chinese sentence does not pick up a stray space when rendered.
All of its logic is in `CjkAutojoinPreprocessor.run`, which works in three
steps:

1. It joins the document's lines with `"\n"`.
2. It applies one global `re.sub` of `([CJK])\n *([CJK])` by `\1\2`. CJK is
   the class `[\u3000-\u30ff\u4e00-\u9fff]`.
3. It splits the result on `"\n"` again.

The model follows those steps with pure functions. There are three files:

- `pystr.dfy`, module `PyStr`: Python's `"\n".join` and `str.split("\n")`
  on `seq<char>`. It proves that `Join` undoes `Split` for every text, and
  that `Split` undoes `Join` for a non-empty list of lines without terminators.
  It also proves how many terminators a join produces.
- `autojoin.dfy`, module `Autojoin`: the character class, the pattern, and
  the substitution. The substitution `Rewrite` is a left-to-right scan with
  `re.sub`'s semantics: leftmost match first, no overlapping matches, and the
  scan resumes right after a match. `Run` is the whole preprocessor. This
  module also holds:
  - the proofs that `Rewrite` agrees with the regular expression read
    declaratively;
  - the proofs that `Rewrite` only deletes terminators and spaces, and which
    line breaks it keeps;
  - an independent line-by-line reference, `Autojoin`/`Glue`, and the theorem
    `RunIsAutojoin` that `Run` computes it.
- `properties.dfy`, module `AutojoinProperties`: what `Run` does to lists of
  lines. This covers line counts, when lines stay unchanged, the
  non-overlapping matches, and the document scenarios from the package's
  tests that the substitution satisfies.

The match consumes its right-hand CJK character. A chain of one-character
CJK lines is therefore not fully rejoined in one pass, and a second pass
changes the result again. `RunChainOfThree` proves this for
`["あ", "い", "う"]`, and `RunNotIdempotent` concludes that the pass is not
idempotent. Neither full rejoining of chains nor idempotence holds for the
code, and the model does not claim either.

## Model

| member | source | states |
|---|---|---|
| AutojoinProperties.CjkClassBlocks | src/pymdownx_cjk_autojoin/autojoin.py:9-16 | A character is in the class exactly when it lies in one of the four blocks: CJK Symbols and Punctuation, Hiragana, Katakana, or CJK Unified Ideographs |
| AutojoinProperties.CjkClassExamples | src/pymdownx_cjk_autojoin/autojoin.py:16 | U+3000, `、`, `。`, kana and ideographs are in the class; full-width `，` and `．`, space, tab, `\n` and Latin letters are not |
| Autojoin.IsCjk | src/pymdownx_cjk_autojoin/autojoin.py:16 | The class `[\u3000-\u30ff\u4e00-\u9fff]`: a character is CJK when its code point lies in U+3000..U+30FF or U+4E00..U+9FFF |
| Autojoin.MatchAt | src/pymdownx_cjk_autojoin/autojoin.py:27 | The scan's match test at i: a CJK character, then `\n`, then, past the greedy run of spaces, another CJK character |
| Autojoin.PatternMatch | src/pymdownx_cjk_autojoin/autojoin.py:27 | The regular expression read declaratively: `s[i..e]` is a CJK character, `\n`, any number of spaces and a CJK character |
| Autojoin.LeadingSpaces | src/pymdownx_cjk_autojoin/autojoin.py:27 | The greedy ` *` of the pattern: the length of the longest run of U+0020 that the text starts with |
| Autojoin.PatternMatchIsGreedy | src/pymdownx_cjk_autojoin/autojoin.py:27 | Any match of the regular expression at position i has exactly one end, the one the greedy space run gives, so no backtracking is needed |
| Autojoin.MatchAtIsPattern | src/pymdownx_cjk_autojoin/autojoin.py:27 | In both directions, the scan's match test at i holds exactly when the regular expression matches there with some end |
| Autojoin.Rewrite | src/pymdownx_cjk_autojoin/autojoin.py:26-30 | The substitution never makes the text longer |
| Autojoin.RewriteIsErasure | src/pymdownx_cjk_autojoin/autojoin.py:26-30 | The output is the input with some terminators and spaces deleted; every other character is kept, in order |
| Autojoin.RewriteKeepsText | src/pymdownx_cjk_autojoin/autojoin.py:26-30 | The characters other than terminators and spaces are the same before and after, in order |
| Autojoin.RewriteNewlines | src/pymdownx_cjk_autojoin/autojoin.py:26-30 | Every replaced match removes exactly one terminator: the output's terminator count plus the number of joins is the input's count |
| Autojoin.RewriteFixpoint | src/pymdownx_cjk_autojoin/autojoin.py:26-30 | The text is unchanged if and only if the pattern matches nowhere in it |
| Autojoin.NoCjkUnchanged | src/pymdownx_cjk_autojoin/autojoin.py:26-30 | Text without a CJK character is not changed |
| Autojoin.SingleLineUnchanged | src/pymdownx_cjk_autojoin/autojoin.py:27 | Text without a terminator is not changed |
| Autojoin.HardBreak | src/pymdownx_cjk_autojoin/autojoin.py:27 | A break stays, with each side rewritten on its own, unless the character before it is CJK and the text after it continues, past spaces, with a CJK character. So a non-CJK character before it, or a Latin letter, tab or further break after the spaces, keeps it |
| Autojoin.ParagraphBreak | src/pymdownx_cjk_autojoin/autojoin.py:27 | A blank line, even one holding only spaces, keeps both of its terminators whatever surrounds it |
| Autojoin.Run | src/pymdownx_cjk_autojoin/autojoin.py:20-33 | The preprocessor returns at least one line, and no returned line holds a terminator |
| Autojoin.Glue | src/pymdownx_cjk_autojoin/autojoin.py:26-30 | Line-level reference: from the current line onwards there are at least one and at most one-plus-remaining output lines |
| Autojoin.GlueCorrect | src/pymdownx_cjk_autojoin/autojoin.py:20-33 | At every point of the scan, the text already fixed followed by the rewrite of the rest equals the joined lines of the reference |
| Autojoin.Autojoin | src/pymdownx_cjk_autojoin/autojoin.py:20-33 | Line-level reference for the whole pass: no lines give `[""]`; otherwise the lines are glued from the first one on, with a fresh first line |
| Autojoin.RunIsAutojoin | src/pymdownx_cjk_autojoin/autojoin.py:20-33 | For lines without terminators of their own, the preprocessor's output is the reference's. A break between two lines goes exactly when the first ends in CJK, the second continues with CJK after its spaces, and the first's last character was not taken by the previous join. The spaces go with the break |
| PyStr.Join | src/pymdownx_cjk_autojoin/autojoin.py:21 | `"\n".join(lines)`: `""` for no lines, the line itself for one, otherwise the lines with one `\n` between neighbours |
| PyStr.Split | src/pymdownx_cjk_autojoin/autojoin.py:33 | `split("\n")` gives one more piece than there are terminators, none of them holding one |
| PyStr.JoinNewlineCount | src/pymdownx_cjk_autojoin/autojoin.py:21 | Joining n > 0 single lines puts exactly n - 1 terminators in the text |
| PyStr.JoinSplit | src/pymdownx_cjk_autojoin/autojoin.py:21-33 | Joining the pieces of a split gives the text back |
| PyStr.SplitJoin | src/pymdownx_cjk_autojoin/autojoin.py:21-33 | Splitting the join of non-empty single lines gives the lines back |
| PyStr.SplitPrefix | src/pymdownx_cjk_autojoin/autojoin.py:33 | A terminator-free prefix only extends the first piece of a split |
| AutojoinProperties.RunEmpty | src/pymdownx_cjk_autojoin/autojoin.py:21-33 | No lines come back as one empty line |
| AutojoinProperties.RunLineCount | src/pymdownx_cjk_autojoin/autojoin.py:21-33 | A non-empty input of single lines loses exactly one line per join, so the output has at most as many lines |
| AutojoinProperties.RunUnchangedIff | src/pymdownx_cjk_autojoin/autojoin.py:20-33 | In both directions, the lines come back unchanged exactly when the pattern matches nowhere in their join |
| AutojoinProperties.GlueKeepsBreaks | src/pymdownx_cjk_autojoin/autojoin.py:27 | When no remaining line continues with CJK after its spaces, the reference keeps every line as it is |
| AutojoinProperties.RunNoContinuation | src/pymdownx_cjk_autojoin/autojoin.py:20-33 | When no line after the first continues with CJK after its spaces, the lines are unchanged |
| AutojoinProperties.RunNoCjk | src/pymdownx_cjk_autojoin/autojoin.py:20-33 | Lines without CJK characters are unchanged |
| AutojoinProperties.RunTwoLines | src/pymdownx_cjk_autojoin/autojoin.py:26-30 | Two lines are merged, the second losing its leading spaces, exactly when the first ends in CJK and the second continues with CJK; otherwise both stay |
| AutojoinProperties.RunTwoCjkLines | src/pymdownx_cjk_autojoin/autojoin.py:26-30 | Two unindented lines meeting at CJK characters become their concatenation, with nothing inserted |
| AutojoinProperties.RunBreakKept | src/pymdownx_cjk_autojoin/autojoin.py:27 | Two lines whose break does not qualify both stay as they are |
| AutojoinProperties.RunEmptyLineKept | src/pymdownx_cjk_autojoin/autojoin.py:27 | An empty line between two lines keeps all three, whatever the two hold |
| AutojoinProperties.RunJoinsThirdLine | src/pymdownx_cjk_autojoin/autojoin.py:27 | When of four lines only the second and third meet at a qualifying break, the third is appended to the second without its indentation and the others stay. The fourth is not joined when the merged line does not continue into it, or when the third line gave only the one character its join consumed |
| AutojoinProperties.RunChainOfThree | src/pymdownx_cjk_autojoin/autojoin.py:26-30 | Three one-character CJK lines become two, since the middle character cannot open a second join; a second pass merges them into one |
| AutojoinProperties.RunNotIdempotent | src/pymdownx_cjk_autojoin/autojoin.py:26-30 | Some input is changed again by a second pass |
| AutojoinProperties.BasicJoin | tests/test_autojoin.py:19-22 | `これは` / `テストです。` become the single line `これはテストです。` |
| AutojoinProperties.ParagraphKept | tests/test_autojoin.py:25-28 | `これは` / empty / `テストです。` keep all three lines |
| AutojoinProperties.ListContinuation | tests/test_autojoin.py:31-42 | `- あ` / `- い` / `  う` / `- え` become `- あ` / `- いう` / `- え` |
| AutojoinProperties.PunctuationList | tests/test_autojoin.py:83-98 | With `、` ending the items, only the indented continuation is joined: `- あ、` / `- いう、` / `- え` |
| AutojoinProperties.FullWidthPunctuationList | tests/test_autojoin.py:83-98 | The same list with `，` gives `- あ，` / `- いう，` / `- え` |
| AutojoinProperties.PunctuationBeforeLatin | src/pymdownx_cjk_autojoin/autojoin.py:27 | `これは、` / `  abcです。` stay two lines: the character after the spaces is Latin |
| AutojoinProperties.FullWidthCommaKept | src/pymdownx_cjk_autojoin/autojoin.py:16 | `これは，` / `です。` stay two lines: `，` is outside the class |
| AutojoinProperties.TabIndentKept | src/pymdownx_cjk_autojoin/autojoin.py:27 | A tab is not skipped like a space: `あ` / tab + `い` stay two lines |
| AutojoinProperties.LatinKept | src/pymdownx_cjk_autojoin/autojoin.py:20-33 | `a` / `b` stay as they are |
| AutojoinProperties.FenceContentsJoined | src/pymdownx_cjk_autojoin/autojoin.py:20-33 | The preprocessor does not know about code fences: the lines `あ` and `い` inside a fence are joined like any others |

## Left out

- `CjkAutojoinExtension.extendMarkdown`, its priority 27 and `makeExtension`
  (src/pymdownx_cjk_autojoin/autojoin.py:36-45): these only register the
  preprocessor with Python-Markdown's registry. That registry and its
  ordering are not part of this model.
- Markdown-to-HTML conversion in the tests: block parsing, lists, fenced
  code and superfences belong to Python-Markdown and pymdownx. The model
  states the lines the preprocessor hands on, not the HTML made from them.
- tests/test_autojoin.py:45-53 load only this extension and expect the
  lines inside a fence to come out unjoined. The preprocessor as written
  joins them (`FenceContentsJoined`). The model follows the code.
  tests/test_autojoin.py:56-73 also load pymdownx.superfences. Whether this
  preprocessor sees the fence's lines there depends on how the host orders
  its preprocessors, which is not part of this model.
- tests/test_autojoin.py:76-80 expect `これは、` + `  abcです。` to be
  joined, and the same for `。`, `，` and `．`. The pattern joins none of them:
  `PunctuationBeforeLatin` and `FullWidthCommaKept` state what the code
  does. These tests import a module named `cjk_autojoin`, not this package.
- Python `str` values may hold lone surrogate code points, which Dafny's
  `char` excludes. None of them lies in the character class, so they would
  only ever be copied.
- `Run` is defined for any list of lines. The line-level results
  (`RunIsAutojoin` and everything built on it) assume that no input line
  holds a `\n` of its own. This is how Python-Markdown hands lines to a
  preprocessor.
