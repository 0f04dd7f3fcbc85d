/**
 * The text the random-string generator writes: a run of hexadecimal words,
 * each followed by a space, except that every twelfth word ends its line.
 */
module WordLayout {
  import opened ByteConverter
  import opened Counting

  const WordCount := 1000000
  const WordByteLength := 4
  const MaxLineLength := 100
  /** How many words share a line: the line budget over the digits of one word. */
  const WordsPerLine := MaxLineLength / (WordByteLength * 2)

  /** What follows word `i`: a line break after the last word of a line, otherwise a space. */
  function Separator(i: nat): (sep: string)
    ensures sep == "\n" || sep == " "
  {
    if i % WordsPerLine == WordsPerLine - 1 then "\n" else " "
  }

  /** The text written for `words`, word `i` followed by `Separator(i)`. */
  function Layout(words: seq<string>): string
  {
    if words == [] then ""
    else Layout(words[..|words| - 1]) + words[|words| - 1] + Separator(|words| - 1)
  }

  /** Words joined by single spaces, with nothing before the first or after the last. */
  function JoinSpaces(words: seq<string>): string
  {
    if words == [] then ""
    else if |words| == 1 then words[0]
    else JoinSpaces(words[..|words| - 1]) + " " + words[|words| - 1]
  }

  /**
   * The same text cut into lines: each complete line holds exactly
   * WordsPerLine words and ends with a line break; the words left over form
   * an unfinished last line that ends with a space.
   */
  function Lines(words: seq<string>): string
    decreases |words|
  {
    if |words| < WordsPerLine then
      (if words == [] then "" else JoinSpaces(words) + " ")
    else
      JoinSpaces(words[..WordsPerLine]) + "\n" + Lines(words[WordsPerLine..])
  }

  /** The line capacity is twelve words, and a full line of 8-digit words is 107 characters long. */
  lemma WordsPerLineValue()
    ensures WordsPerLine == 12
    ensures WordsPerLine * (2 * WordByteLength) + (WordsPerLine - 1) == 107
  {
  }

  /** Word `i` is followed by a line break exactly when it is the twelfth of its line. */
  lemma SeparatorRule(i: nat)
    ensures Separator(i) == "\n" <==> i % 12 == 11
    ensures Separator(i) == " " <==> i % 12 != 11
  {
    WordsPerLineValue();
  }

  /** The separator rule repeats every line. */
  lemma SeparatorPeriodic(m: nat, k: nat)
    requires m % WordsPerLine == 0
    ensures Separator(m + k) == Separator(k)
  {
    WordsPerLineValue();
    var q := m / 12;
    assert m == 12 * q;
    assert (m + k) % 12 == k % 12 by {
      assert m + k == 12 * q + k;
    }
  }

  /** Every word but the last of a line is followed by a space. */
  lemma WithinLineSeparator(i: nat)
    requires i < WordsPerLine - 1
    ensures Separator(i) == " "
  {
    WordsPerLineValue();
  }

  /** Whole lines are independent: after a multiple of twelve words, the layout starts afresh. */
  lemma {:induction false} LayoutAfterWholeLines(a: seq<string>, b: seq<string>)
    requires |a| % WordsPerLine == 0
    ensures Layout(a + b) == Layout(a) + Layout(b)
  {
    if b == [] {
      assert a + b == a;
    } else {
      var init, last := b[..|b| - 1], b[|b| - 1];
      var sep := Separator(|init|);
      assert Layout(a + b) == Layout(a + init) + last + sep by {
        assert (a + b)[..|a + b| - 1] == a + init;
        SeparatorPeriodic(|a|, |init|);
      }
      assert Layout(a) + Layout(b) == Layout(a + init) + last + sep by {
        var x, y := Layout(a), Layout(init);
        assert Layout(b) == y + last + sep;
        assert x + y + last + sep == x + (y + last + sep);
        LayoutAfterWholeLines(a, init);
      }
    }
  }

  /** Within one line, the words are joined by spaces and only the last separator can be a line break. */
  lemma {:induction false} LayoutWithinLine(words: seq<string>)
    requires 1 <= |words| <= WordsPerLine
    ensures Layout(words) == JoinSpaces(words) + Separator(|words| - 1)
  {
    var init, last := words[..|words| - 1], words[|words| - 1];
    if |words| == 1 {
      assert init == [];
    } else {
      LayoutWithinLine(init);
      WithinLineSeparator(|init| - 1);
    }
  }

  /** The layout is exactly the text cut into full lines of twelve words and a trailing unfinished line. */
  lemma {:induction false} LayoutIsLines(words: seq<string>)
    ensures Layout(words) == Lines(words)
    decreases |words|
  {
    WordsPerLineValue();
    if |words| < WordsPerLine {
      if words != [] {
        LayoutWithinLine(words);
      }
    } else {
      var line, rest := words[..WordsPerLine], words[WordsPerLine..];
      assert Layout(words) == Layout(line) + Layout(rest) by {
        assert words == line + rest;
        LayoutAfterWholeLines(line, rest);
      }
      assert Layout(line) == JoinSpaces(line) + "\n" by {
        LayoutWithinLine(line);
        SeparatorRule(|line| - 1);
      }
      assert Layout(rest) == Lines(rest) by {
        LayoutIsLines(rest);
      }
      assert Lines(words) == JoinSpaces(line) + "\n" + Lines(rest);
    }
  }

  /** A line of `n` words of `len` characters, joined by spaces, is `n * len + n - 1` characters long. */
  lemma {:induction false} JoinSpacesLength(words: seq<string>, len: nat)
    requires forall k :: 0 <= k < |words| ==> |words[k]| == len
    ensures |words| >= 1 ==> |JoinSpaces(words)| == |words| * len + |words| - 1
  {
    if |words| > 1 {
      JoinSpacesLength(words[..|words| - 1], len);
    }
  }

  /**
   * The line budget is not kept: a complete line of 8-digit words is 107
   * characters, not counting its line break.
   */
  lemma FullLineLength(line: seq<string>)
    requires |line| == WordsPerLine
    requires forall k :: 0 <= k < |line| ==> |line[k]| == 2 * WordByteLength
    ensures |JoinSpaces(line)| == 107 > MaxLineLength
  {
    JoinSpacesLength(line, 2 * WordByteLength);
  }

  /** No word contains a line break. */
  ghost predicate SingleLineWords(words: seq<string>)
  {
    forall k :: 0 <= k < |words| ==> '\n' !in words[k]
  }

  /** A separator holds a line break exactly when it is one. */
  lemma SeparatorBreaks(i: nat)
    ensures Count(Separator(i), '\n') == (if i % WordsPerLine == WordsPerLine - 1 then 1 else 0)
  {
    assert Separator(i)[..0] == [];
  }

  /** One more word adds a line break exactly when it completes a line. */
  lemma LinesCompleted(n: nat)
    ensures (n + 1) / WordsPerLine == n / WordsPerLine + (if n % WordsPerLine == WordsPerLine - 1 then 1 else 0)
  {
    var q, r := n / 12, n % 12;
    assert n == 12 * q + r;
    if r == 11 {
      assert n + 1 == 12 * (q + 1);
    } else {
      assert n + 1 == 12 * q + (r + 1);
    }
  }

  /** Writing one more word and its separator adds a line break exactly when the word completes a line. */
  lemma LineBreakStep(prefix: string, word: string, n: nat)
    requires Count(prefix, '\n') == n / WordsPerLine
    requires '\n' !in word
    ensures Count(prefix + word + Separator(n), '\n') == (n + 1) / WordsPerLine
  {
    CountConcat(prefix, word, '\n');
    CountConcat(prefix + word, Separator(n), '\n');
    SeparatorBreaks(n);
    LinesCompleted(n);
  }

  /** The text has one line break per complete line: `|words| / 12` of them. */
  lemma {:induction false} LineBreakCount(words: seq<string>)
    requires SingleLineWords(words)
    ensures Count(Layout(words), '\n') == |words| / WordsPerLine
  {
    if words != [] {
      var init := words[..|words| - 1];
      assert SingleLineWords(init) by {
        assert forall k :: 0 <= k < |init| ==> init[k] == words[k];
      }
      LineBreakCount(init);
      assert '\n' !in words[|init|];
      LineBreakStep(Layout(init), words[|init|], |init|);
      assert Layout(words) == Layout(init) + words[|init|] + Separator(|init|);
      assert |words| == |init| + 1;
    } else {
      assert Layout(words) == "";
      assert Count("", '\n') == 0;
      assert 0 / WordsPerLine == 0;
    }
  }

  /** The words of a run: the hexadecimal text of each draw of random bytes. */
  function Words(draws: seq<seq<byte>>): (words: seq<string>)
    ensures |words| == |draws|
    ensures forall k :: 0 <= k < |draws| ==> words[k] == HexOf(draws[k])
    ensures SingleLineWords(words)
  {
    if draws == [] then []
    else Words(draws[..|draws| - 1]) + [HexOf(draws[|draws| - 1])]
  }

  /**
   * The writing loop: encodes each draw with the table and writes the word,
   * with a line break after every twelfth word and a space after the others.
   */
  method WriteWords(lookup32: array<uint32>, draws: seq<seq<byte>>) returns (text: string)
    requires IsLookup32(lookup32[..])
    requires forall k :: 0 <= k < |draws| ==> |draws[k]| == WordByteLength
    ensures text == Layout(Words(draws))
  {
    text := "";
    for i := 0 to |draws|
      invariant text == Layout(Words(draws[..i]))
    {
      var word := ToHex(lookup32, draws[i]);
      if i % WordsPerLine == WordsPerLine - 1 {
        text := text + word + "\n";
      } else {
        text := text + word + " ";
      }
      assert draws[..i + 1][..i] == draws[..i];
    }
    assert draws[..|draws|] == draws;
  }

  /** A full run of a million words has 83333 line breaks and ends with a space. */
  lemma FullRun(draws: seq<seq<byte>>)
    requires |draws| == WordCount
    ensures var text := Layout(Words(draws));
            Count(text, '\n') == 83333 && text[|text| - 1] == ' '
  {
    var words := Words(draws);
    var n := |words| - 1;
    assert n == 12 * 83333 + 3 && |words| == 12 * 83333 + 4;
    assert Count(Layout(words), '\n') == 83333 by {
      LineBreakCount(words);
      WordsPerLineValue();
    }
    assert Separator(n) == " " by {
      SeparatorRule(n);
    }
    var text := Layout(words);
    assert text == Layout(words[..n]) + words[n] + " ";
  }

  /**
   * Words past the last complete line form an unfinished line: the text is
   * the complete lines, then the remaining words joined by spaces and a space.
   */
  lemma TrailingLine(words: seq<string>, whole: nat)
    requires whole % WordsPerLine == 0 && whole < |words| < whole + WordsPerLine
    ensures Layout(words) == Lines(words[..whole]) + JoinSpaces(words[whole..]) + " "
  {
    WordsPerLineValue();
    var complete, rest := words[..whole], words[whole..];
    assert Layout(words) == Layout(complete) + Layout(rest) by {
      assert words == complete + rest;
      LayoutAfterWholeLines(complete, rest);
    }
    assert Layout(complete) == Lines(complete) by {
      LayoutIsLines(complete);
    }
    assert 1 <= |rest| < WordsPerLine;
    assert Separator(|rest| - 1) == " " by {
      WithinLineSeparator(|rest| - 1);
    }
    assert Layout(rest) == JoinSpaces(rest) + " " by {
      LayoutWithinLine(rest);
    }
  }

  /**
   * The lines of a full run: 83333 complete lines of twelve words, then an
   * unfinished line of the four remaining words, joined by spaces and ending
   * with a space.
   */
  lemma FullRunLines(draws: seq<seq<byte>>)
    requires |draws| == WordCount
    ensures var words := Words(draws);
            Layout(words) == Lines(words[..12 * 83333]) + JoinSpaces(words[12 * 83333..]) + " "
            && |words[12 * 83333..]| == 4
  {
    WordsPerLineValue();
    TrailingLine(Words(draws), 12 * 83333);
  }
}
