/**
  The two Python string operations the preprocessor wraps around its
  substitution: `"\n".join(lines)` and `text.split("\n")`.  Python strings
  are sequences of code points, modelled as `seq<char>`.
*/
module PyStr {

  const Newline: char := '\n'

  /** True when no line of `lines` contains a line terminator. */
  predicate SingleLines(lines: seq<string>) {
    forall i :: 0 <= i < |lines| ==> Newline !in lines[i]
  }

  /** Number of `\n` characters in `s`. */
  function NewlineCount(s: string): (n: nat)
    ensures n <= |s|
    ensures n == 0 <==> Newline !in s
  {
    if s == [] then 0
    else (if s[0] == Newline then 1 else 0) + NewlineCount(s[1..])
  }

  lemma {:induction false} NewlineCountConcat(a: string, b: string)
    ensures NewlineCount(a + b) == NewlineCount(a) + NewlineCount(b)
  {
    if a != [] {
      assert (a + b)[0] == a[0];
      assert (a + b)[1..] == a[1..] + b;
      NewlineCountConcat(a[1..], b);
    } else {
      assert a + b == b;
    }
  }

  /** `"\n".join(lines)`: the lines with one `\n` between neighbours, `""` for no lines. */
  function Join(lines: seq<string>): string
  {
    if |lines| == 0 then ""
    else if |lines| == 1 then lines[0]
    else lines[0] + ([Newline] + Join(lines[1..]))
  }

  /** Joining `n > 0` single lines puts exactly `n - 1` terminators in the text. */
  lemma {:induction false} JoinNewlineCount(lines: seq<string>)
    requires |lines| > 0 && SingleLines(lines)
    ensures NewlineCount(Join(lines)) == |lines| - 1
  {
    if |lines| > 1 {
      assert SingleLines(lines[1..]);
      JoinNewlineCount(lines[1..]);
      NewlineCountConcat(lines[0], [Newline] + Join(lines[1..]));
      NewlineCountConcat([Newline], Join(lines[1..]));
      assert NewlineCount([Newline]) == 1;
    }
  }

  /**
    `s.split("\n")`: the maximal `\n`-free pieces between terminators.  There
    is always one more piece than there are terminators, so `"".split("\n")`
    is `[""]`.
  */
  function Split(s: string): (lines: seq<string>)
    ensures |lines| == NewlineCount(s) + 1
    ensures SingleLines(lines)
  {
    if s == [] then [""]
    else
      var rest := Split(s[1..]);
      if s[0] == Newline then [""] + rest
      else [[s[0]] + rest[0]] + rest[1..]
  }

  /** Joining the pieces gives the text back. */
  lemma {:induction false} JoinSplit(s: string)
    ensures Join(Split(s)) == s
  {
    if s != [] {
      var rest := Split(s[1..]);
      JoinSplit(s[1..]);
      if s[0] == Newline {
        assert ([""] + rest)[1..] == rest;
      } else {
        var lines := [[s[0]] + rest[0]] + rest[1..];
        assert lines[1..] == rest[1..];
        if |rest| > 1 {
          assert Join(rest) == rest[0] + ([Newline] + Join(rest[1..]));
        }
      }
    }
  }

  /** Splitting after a `\n`-free prefix extends the first piece only. */
  lemma {:induction false} SplitPrefix(a: string, b: string)
    requires Newline !in a
    ensures Split(a + b) == [a + Split(b)[0]] + Split(b)[1..]
  {
    if a == [] {
      assert a + b == b && a + Split(b)[0] == Split(b)[0];
    } else {
      var sb := Split(b);
      SplitPrefix(a[1..], b);
      SplitCons(a[0], a[1..] + b);
      var rest := Split(a[1..] + b);
      assert rest[0] == a[1..] + sb[0] && rest[1..] == sb[1..];
      ConcatCons(a, b);
      ConcatCons(a, sb[0]);
    }
  }

  lemma ConcatCons(a: string, x: string)
    requires a != []
    ensures a + x == [a[0]] + (a[1..] + x)
  {
    assert a == [a[0]] + a[1..];
  }

  /** One step of `Split` on a text that does not start with a terminator. */
  lemma SplitCons(c: char, s: string)
    requires c != Newline
    ensures Split([c] + s) == [[c] + Split(s)[0]] + Split(s)[1..]
  {
    assert ([c] + s)[1..] == s;
  }

  /** A text without terminators is one piece. */
  lemma SplitSingle(a: string)
    requires Newline !in a
    ensures Split(a) == [a]
  {
    SplitPrefix(a, []);
    assert a + [] == a;
  }

  /** A leading terminator closes an empty first piece. */
  lemma SplitNewline(x: string)
    ensures Split([Newline] + x)[0] == ""
    ensures Split([Newline] + x)[1..] == Split(x)
  {
    assert ([Newline] + x)[1..] == x;
  }

  lemma ConsFirst(lines: seq<string>, rest: seq<string>)
    requires lines != [] && rest == lines[1..]
    ensures [lines[0] + ""] + rest == lines
  {
    assert lines[0] + "" == lines[0];
  }

  /** Splitting undoes joining whenever no line holds a terminator of its own. */
  lemma {:induction false} SplitJoin(lines: seq<string>)
    requires |lines| > 0 && SingleLines(lines)
    ensures Split(Join(lines)) == lines
  {
    if |lines| == 1 {
      SplitSingle(lines[0]);
    } else {
      var tail := Join(lines[1..]);
      assert SingleLines(lines[1..]);
      SplitJoin(lines[1..]);
      SplitPrefix(lines[0], [Newline] + tail);
      SplitNewline(tail);
      ConsFirst(lines, Split(tail));
    }
  }
}
