/** The greedy line wrapper of snaps.py (get_display_lines). The font is
    abstracted to its width measure w: the wrapper only ever asks for the
    width of a single word and keeps the running sum of those widths. */
module Wrap {
  import opened Splitter

  // ---------------------------------------------------------------------
  // str.splitlines, on '\n' only

  /** The text cut at every '\n'; always at least one segment. */
  function Segments(t: string): (ls: seq<string>)
    ensures |ls| >= 1
  {
    if t == [] then [[]]
    else
      var rest := Segments(t[1..]);
      if t[0] == '\n' then [[]] + rest else [[t[0]] + rest[0]] + rest[1..]
  }

  /** text.splitlines(): no lines for empty text, and a final '\n' does not
      open a further empty line. */
  function SplitLines(text: string): seq<string>
  {
    if text == [] then []
    else if text[|text| - 1] == '\n' then Segments(text[..|text| - 1])
    else Segments(text)
  }

  /** '\n'.join(ls) */
  function JoinLines(ls: seq<string>): string
  {
    if ls == [] then []
    else if |ls| == 1 then ls[0]
    else ls[0] + "\n" + JoinLines(ls[1..])
  }

  predicate NoNewline(s: string)
  {
    forall i :: 0 <= i < |s| ==> s[i] != '\n'
  }

  lemma {:induction false} SegmentsRoundTrip(t: string)
    ensures JoinLines(Segments(t)) == t
  {
    if t != [] {
      var rest := Segments(t[1..]);
      SegmentsRoundTrip(t[1..]);
      assert t == [t[0]] + t[1..];
      if t[0] == '\n' {
        assert ([[]] + rest)[1..] == rest;
      } else {
        assert ([[t[0]] + rest[0]] + rest[1..])[1..] == rest[1..];
      }
    }
  }

  lemma {:induction false} SegmentsNoNewline(t: string)
    ensures forall k :: 0 <= k < |Segments(t)| ==> NoNewline(Segments(t)[k])
  {
    if t != [] {
      var rest := Segments(t[1..]);
      SegmentsNoNewline(t[1..]);
      if t[0] != '\n' {
        var ls := [[t[0]] + rest[0]] + rest[1..];
        forall k | 0 <= k < |ls| ensures NoNewline(ls[k]) {
          if k == 0 {
            assert NoNewline(rest[0]);
          } else {
            assert ls[k] == rest[k];
          }
        }
      }
    }
  }

  /** splitlines loses nothing but the separators: joining the lines with
      '\n' (and the final '\n', if any) gives back the text, and no line
      holds a '\n'. Empty text, and only empty text, gives no lines. */
  lemma SplitLinesRoundTrip(text: string)
    ensures SplitLines(text) == [] <==> text == []
    ensures text == JoinLines(SplitLines(text)) + (if text != [] && text[|text| - 1] == '\n' then "\n" else "")
    ensures forall k :: 0 <= k < |SplitLines(text)| ==> NoNewline(SplitLines(text)[k])
  {
    if text != [] {
      if text[|text| - 1] == '\n' {
        SegmentsRoundTrip(text[..|text| - 1]);
        SegmentsNoNewline(text[..|text| - 1]);
        assert text == text[..|text| - 1] + "\n";
      } else {
        SegmentsRoundTrip(text);
        SegmentsNoNewline(text);
      }
    }
  }

  // ---------------------------------------------------------------------
  // Greedy packing of words into groups

  /** Sum of the word widths of a group (the running x of the source). */
  function Width(w: string -> nat, g: seq<string>): nat
  {
    if g == [] then 0 else Width(w, g[..|g| - 1]) + w(g[|g| - 1])
  }

  lemma WidthAppend(w: string -> nat, g: seq<string>, word: string)
    ensures Width(w, g + [word]) == Width(w, g) + w(word)
  {
  }

  lemma {:induction false} WidthPrefix(w: string -> nat, g: seq<string>, n: nat)
    requires n <= |g|
    ensures Width(w, g[..n]) <= Width(w, g)
    decreases |g|
  {
    if n < |g| {
      assert g[..|g| - 1][..n] == g[..n];
      WidthPrefix(w, g[..|g| - 1], n);
    } else {
      assert g[..n] == g;
    }
  }

  /** The words of all groups, in order. */
  function Flatten(gs: seq<seq<string>>): seq<string>
  {
    if gs == [] then [] else gs[0] + Flatten(gs[1..])
  }

  /** The inner loop of get_display_lines, from the state in which the
      current line holds the words cur and x is the running width. Each group
      is the list of words of one output line. */
  function Pack(words: seq<string>, w: string -> nat, width: int, cur: seq<string>, x: int): seq<seq<string>>
    decreases |words|
  {
    if words == [] then [cur]
    else if x + w(words[0]) > width then [cur] + Pack(words[1..], w, width, [words[0]], w(words[0]))
    else Pack(words[1..], w, width, cur + [words[0]], x + w(words[0]))
  }

  /** The groups of words that get_display_lines makes of one input line. */
  function WrapGroups(words: seq<string>, w: string -> nat, width: int): seq<seq<string>>
  {
    Pack(words, w, width, [], 0)
  }

  /** What a group may hold. The first group of an input line was started
      empty, so it fits unless it is empty; any later group was started by a
      word that did not fit on the line before it, so it is non-empty and fits
      unless it is that one word alone. */
  predicate GroupFits(w: string -> nat, width: int, g: seq<string>, first: bool)
  {
    if first then g == [] || Width(w, g) <= width
    else g != [] && (|g| == 1 || Width(w, g) <= width)
  }

  /** Group h had to start a new line: g together with h's first word is
      too wide. */
  predicate Breaks(w: string -> nat, width: int, g: seq<string>, h: seq<string>)
  {
    h != [] && Width(w, g) + w(h[0]) > width
  }

  /** The greedy rule, independent of the loop: every group fits as above, and
      each group together with the first word of the next is too wide. */
  predicate Greedy(w: string -> nat, width: int, gs: seq<seq<string>>, first: bool)
  {
    && |gs| >= 1
    && GroupFits(w, width, gs[0], first)
    && (forall k :: 0 < k < |gs| ==> GroupFits(w, width, gs[k], false) && Breaks(w, width, gs[k - 1], gs[k]))
  }

  /** A greedy grouping stays greedy with a group in front that the first
      of its groups could not join. */
  lemma GreedyCons(w: string -> nat, width: int, g: seq<string>, gs: seq<seq<string>>, first: bool)
    requires GroupFits(w, width, g, first)
    requires Greedy(w, width, gs, false)
    requires Breaks(w, width, g, gs[0])
    ensures Greedy(w, width, [g] + gs, first)
  {
  }

  /** Without its first group, a greedy grouping is a greedy grouping of the
      remaining words. */
  lemma GreedyTail(w: string -> nat, width: int, gs: seq<seq<string>>, first: bool)
    requires Greedy(w, width, gs, first)
    requires |gs| > 1
    ensures Greedy(w, width, gs[1..], false)
  {
  }

  /** Packing keeps every word, in order, and the words already on the
      current line stay at the head of its group. */
  lemma {:induction false} PackKeepsWords(words: seq<string>, w: string -> nat, width: int, cur: seq<string>, x: int)
    ensures Flatten(Pack(words, w, width, cur, x)) == cur + words
    ensures |cur| <= |Pack(words, w, width, cur, x)[0]|
    ensures Pack(words, w, width, cur, x)[0][..|cur|] == cur
    decreases |words|
  {
    var gs := Pack(words, w, width, cur, x);
    if words == [] {
      assert Flatten(gs) == cur + Flatten([]);
      assert cur + words == cur;
    } else {
      var a := words[0];
      assert words == [a] + words[1..];
      if x + w(a) > width {
        var tail := Pack(words[1..], w, width, [a], w(a));
        PackKeepsWords(words[1..], w, width, [a], w(a));
        assert gs == [cur] + tail && gs[1..] == tail;
        FlattenCons(gs);
      } else {
        PackKeepsWords(words[1..], w, width, cur + [a], x + w(a));
        assert (cur + [a]) + words[1..] == cur + words;
        assert gs[0][..|cur| + 1][..|cur|] == gs[0][..|cur|];
      }
    }
  }

  /** From any state of the inner loop whose running width is the width of
      the current line, packing obeys the greedy rule. */
  lemma {:induction false} PackIsGreedy(words: seq<string>, w: string -> nat, width: int, cur: seq<string>, x: int, first: bool)
    requires x == Width(w, cur)
    requires GroupFits(w, width, cur, first)
    ensures Greedy(w, width, Pack(words, w, width, cur, x), first)
    decreases |words|
  {
    if words != [] {
      var a := words[0];
      if x + w(a) > width {
        WidthAppend(w, [], a);
        assert [] + [a] == [a];
        PackIsGreedy(words[1..], w, width, [a], w(a), false);
        var tail := Pack(words[1..], w, width, [a], w(a));
        PackKeepsWords(words[1..], w, width, [a], w(a));
        assert tail[0][0] == a;
        GreedyCons(w, width, cur, tail, first);
      } else {
        WidthAppend(w, cur, a);
        PackIsGreedy(words[1..], w, width, cur + [a], x + w(a), first);
      }
    }
  }

  /** WrapGroups packs by the greedy rule and keeps every word, in order. */
  lemma WrapGroupsIsGreedy(words: seq<string>, w: string -> nat, width: int)
    ensures Greedy(w, width, WrapGroups(words, w, width), true)
    ensures Flatten(WrapGroups(words, w, width)) == words
  {
    PackIsGreedy(words, w, width, [], 0, true);
    PackKeepsWords(words, w, width, [], 0);
  }

  lemma FlattenCons(gs: seq<seq<string>>)
    requires gs != []
    ensures Flatten(gs) == gs[0] + Flatten(gs[1..])
  {
  }

  /** If the first group of gs is shorter than the first group of hs, the
      greedy rule is broken by one of them. */
  lemma {:induction false} FirstGroupNotShorter(w: string -> nat, width: int, gs: seq<seq<string>>, hs: seq<seq<string>>, first: bool)
    requires Greedy(w, width, gs, first) && Greedy(w, width, hs, first)
    requires Flatten(gs) == Flatten(hs)
    ensures |gs[0]| >= |hs[0]|
  {
    var g, h := gs[0], hs[0];
    if |g| < |h| {
      FlattenCons(gs);
      FlattenCons(hs);
      var ws := Flatten(gs);
      assert ws[..|h|] == h;
      if |gs| == 1 {
        assert false;
      }
      FlattenCons(gs[1..]);
      assert gs[1..][0] == gs[1];
      var a := gs[1][0];
      assert ws[|g|] == a;
      assert h[..|g|] == g by {
        assert ws[..|g|] == g;
        assert h[..|g|] == ws[..|h|][..|g|];
      }
      assert h[..|g| + 1] == g + [a];
      assert Width(w, h) <= width;
      WidthPrefix(w, h, |g| + 1);
      WidthAppend(w, g, a);
      assert false;
    }
  }

  /** Conversely, the greedy rule pins the grouping down: groups of the words
      that obey it are exactly the ones WrapGroups makes. */
  lemma {:induction false} GreedyUnique(w: string -> nat, width: int, gs: seq<seq<string>>, hs: seq<seq<string>>, first: bool)
    requires Greedy(w, width, gs, first) && Greedy(w, width, hs, first)
    requires Flatten(gs) == Flatten(hs)
    ensures gs == hs
    decreases |gs|
  {
    FirstGroupNotShorter(w, width, gs, hs, first);
    FirstGroupNotShorter(w, width, hs, gs, first);
    FlattenCons(gs);
    FlattenCons(hs);
    var n := |gs[0]|;
    assert gs[0] == Flatten(gs)[..n] == hs[0];
    var gt, ht := gs[1..], hs[1..];
    assert Flatten(gt) == Flatten(ht);
    if |gs| == 1 || |hs| == 1 {
      if |gs| > 1 || |hs| > 1 {
        assert false;
      }
    } else {
      GreedyTail(w, width, gs, first);
      GreedyTail(w, width, hs, first);
      GreedyUnique(w, width, gt, ht, false);
      assert gs == [gs[0]] + gt && hs == [hs[0]] + ht;
    }
  }

  /** WrapGroups is the one grouping of the words that obeys the greedy rule. */
  lemma WrapGroupsCharacterized(words: seq<string>, w: string -> nat, width: int, gs: seq<seq<string>>)
    ensures (Greedy(w, width, gs, true) && Flatten(gs) == words) <==> gs == WrapGroups(words, w, width)
  {
    WrapGroupsIsGreedy(words, w, width);
    if Greedy(w, width, gs, true) && Flatten(gs) == words {
      GreedyUnique(w, width, gs, WrapGroups(words, w, width), true);
    }
  }

  /** A greedy line holds every word in full and fits the width, unless it
      is one word that alone is wider than the width, or it is the empty first
      line of an input line when the width is negative. */
  lemma WidthBound(words: seq<string>, w: string -> nat, width: int, k: nat)
    requires k < |WrapGroups(words, w, width)|
    ensures var g := WrapGroups(words, w, width)[k];
      || Width(w, g) <= width
      || (|g| == 1 && w(g[0]) > width)
      || (k == 0 && g == [] && width < 0)
  {
    WrapGroupsIsGreedy(words, w, width);
  }

  /** The empty first line: an input line opens with an empty output line
      exactly when its first word is already wider than the width; that word
      then starts the second line. */
  lemma OverlongFirstWord(words: seq<string>, w: string -> nat, width: int)
    ensures var gs := WrapGroups(words, w, width);
      (words != [] && w(words[0]) > width) <==> (|gs| >= 2 && gs[0] == [])
    ensures var gs := WrapGroups(words, w, width);
      |gs| >= 2 && gs[0] == [] ==> words != [] && gs[1] != [] && gs[1][0] == words[0]
  {
    var gs := WrapGroups(words, w, width);
    WrapGroupsIsGreedy(words, w, width);
    if |gs| >= 2 && gs[0] == [] {
      FlattenCons(gs);
      FlattenCons(gs[1..]);
      assert gs[1..][0] == gs[1];
      assert words[0] == gs[1][0];
      assert Breaks(w, width, gs[0], gs[1]);
    }
  }

  // ---------------------------------------------------------------------
  // From groups of words to output lines

  /** Each group joined into the text of its output line. */
  function JoinEach(gs: seq<seq<string>>): (ls: seq<string>)
  {
    seq(|gs|, k requires 0 <= k < |gs| => Concat(gs[k]))
  }

  lemma JoinEachAppend(gs: seq<seq<string>>, g: seq<string>)
    ensures JoinEach(gs + [g]) == JoinEach(gs) + [Concat(g)]
  {
  }

  lemma {:induction false} ConcatJoinEach(gs: seq<seq<string>>)
    ensures Concat(JoinEach(gs)) == Concat(Flatten(gs))
  {
    if gs != [] {
      assert JoinEach(gs) == [Concat(gs[0])] + JoinEach(gs[1..]);
      assert ([Concat(gs[0])] + JoinEach(gs[1..]))[1..] == JoinEach(gs[1..]);
      ConcatJoinEach(gs[1..]);
      ConcatSplit(gs[0], Flatten(gs[1..]));
    }
  }

  /** The output lines that get_display_lines makes of one input line. */
  function WrapLine(line: string, w: string -> nat, width: int): seq<string>
  {
    JoinEach(WrapGroups(Words(line), w, width))
  }

  /** Wrapping never splits a word and never drops a character: the output
      lines of an input line, joined, are that input line, spaces and all
      (trailing spaces stay on the lines), and there is at least one of them. */
  lemma WrapLineLossless(line: string, w: string -> nat, width: int)
    ensures |WrapLine(line, w, width)| >= 1
    ensures Concat(WrapLine(line, w, width)) == line
  {
    WordsIsSplit(line);
    WrapGroupsIsGreedy(Words(line), w, width);
    ConcatJoinEach(WrapGroups(Words(line), w, width));
  }

  /** get_display_lines as a function of the input lines: each one's output
      lines, in order. */
  function WrapAll(lines: seq<string>, w: string -> nat, width: int): seq<string>
  {
    if lines == [] then []
    else WrapAll(lines[..|lines| - 1], w, width) + WrapLine(lines[|lines| - 1], w, width)
  }

  function DisplayLines(text: string, w: string -> nat, width: int): seq<string>
  {
    WrapAll(SplitLines(text), w, width)
  }

  /** Over a whole text: every input line yields at least one output line,
      and the output lines joined are the input lines joined. */
  lemma {:induction false} WrapAllLossless(lines: seq<string>, w: string -> nat, width: int)
    ensures |WrapAll(lines, w, width)| >= |lines|
    ensures Concat(WrapAll(lines, w, width)) == Concat(lines)
    decreases |lines|
  {
    if lines != [] {
      var init, last := lines[..|lines| - 1], lines[|lines| - 1];
      WrapAllLossless(init, w, width);
      WrapLineLossless(last, w, width);
      ConcatSplit(WrapAll(init, w, width), WrapLine(last, w, width));
      assert lines == init + [last];
      ConcatSplit(init, [last]);
      assert Concat([last]) == last + Concat([]);
    }
  }

  /** get_display_lines(text, font, width), with the font's width of a string
      given as w: each input line is wrapped in turn. */
  method GetDisplayLines(text: string, w: string -> nat, width: int) returns (result: seq<string>)
    ensures result == DisplayLines(text, w, width)
  {
    result := [];
    var textLines := SplitLines(text);
    var i := 0;
    while i < |textLines|
      invariant 0 <= i <= |textLines|
      invariant result == WrapAll(textLines[..i], w, width)
    {
      var lines := WrapTextLine(textLines[i], w, width);
      result := result + lines;
      assert textLines[..i + 1][..i] == textLines[..i];
      i := i + 1;
    }
    assert textLines[..i] == textLines;
  }

  /** The body of the loop over text_lines in get_display_lines: split one
      input line into words and pack them, keeping the running width x. */
  method WrapTextLine(textLine: string, w: string -> nat, width: int) returns (lines: seq<string>)
    ensures lines == WrapLine(textLine, w, width)
  {
    var words := SplitLinesOnSpaces(textLine);
    lines := [];
    var x := 0;
    var line: string := [];
    ghost var cur: seq<string> := [];
    ghost var done: seq<seq<string>> := [];
    var j := 0;
    while j < |words|
      invariant 0 <= j <= |words|
      invariant done + Pack(words[j..], w, width, cur, x) == WrapGroups(words, w, width)
      invariant line == Concat(cur)
      invariant lines == JoinEach(done)
    {
      var word := words[j];
      var wordWidth := w(word);
      if x + wordWidth > width {
        // the line so far is emitted as it is, trailing space included
        BreakStep(words, j, w, width, cur, x, done);
        lines := lines + [line];
        done := done + [cur];
        line := word;
        cur := [word];
        x := wordWidth;
      } else {
        FitStep(words, j, w, width, cur, x, done);
        line := line + word;
        cur := cur + [word];
        x := x + wordWidth;
      }
      j := j + 1;
    }
    LastStep(words, w, width, cur, x, done);
    lines := lines + [line];
  }

  /** One pass of the inner loop when the next word does not fit: the
      current line is closed and the word opens the next one. */
  lemma BreakStep(words: seq<string>, j: nat, w: string -> nat, width: int, cur: seq<string>, x: int, done: seq<seq<string>>)
    requires j < |words| && x + w(words[j]) > width
    ensures (done + [cur]) + Pack(words[j + 1..], w, width, [words[j]], w(words[j])) == done + Pack(words[j..], w, width, cur, x)
    ensures Concat([words[j]]) == words[j]
    ensures JoinEach(done + [cur]) == JoinEach(done) + [Concat(cur)]
  {
    assert words[j..][1..] == words[j + 1..];
    assert Concat([words[j]]) == words[j] + Concat([]);
    JoinEachAppend(done, cur);
  }

  /** One pass of the inner loop when the next word fits: it joins the
      current line. */
  lemma FitStep(words: seq<string>, j: nat, w: string -> nat, width: int, cur: seq<string>, x: int, done: seq<seq<string>>)
    requires j < |words| && x + w(words[j]) <= width
    ensures done + Pack(words[j + 1..], w, width, cur + [words[j]], x + w(words[j])) == done + Pack(words[j..], w, width, cur, x)
    ensures Concat(cur + [words[j]]) == Concat(cur) + words[j]
  {
    assert words[j..][1..] == words[j + 1..];
    ConcatAppend(cur, words[j]);
  }

  /** After the last word the current line is closed. */
  lemma LastStep(words: seq<string>, w: string -> nat, width: int, cur: seq<string>, x: int, done: seq<seq<string>>)
    ensures done + Pack(words[|words|..], w, width, cur, x) == done + [cur]
    ensures JoinEach(done + [cur]) == JoinEach(done) + [Concat(cur)]
  {
    assert words[|words|..] == [];
    JoinEachAppend(done, cur);
  }

  // ---------------------------------------------------------------------
  // Rewrapping the output

  /** The groups of a run of tokens are runs of tokens. */
  lemma {:induction false} GroupsAreTokens(gs: seq<seq<string>>)
    requires Tokens(Flatten(gs))
    ensures forall k :: 0 <= k < |gs| ==> Tokens(gs[k])
  {
    if gs != [] {
      TokensSplit(gs[0], Flatten(gs[1..]));
      GroupsAreTokens(gs[1..]);
      forall k | 0 < k < |gs| ensures Tokens(gs[k]) {
        assert gs[k] == gs[1..][k - 1];
      }
    }
  }

  /** Every word of every group is one of the words. */
  lemma {:induction false} GroupWordsAreWords(gs: seq<seq<string>>, k: nat, i: nat)
    requires k < |gs| && i < |gs[k]|
    ensures gs[k][i] in Flatten(gs)
  {
    if k > 0 {
      GroupWordsAreWords(gs[1..], k - 1, i);
    }
  }

  /** A line made of a non-empty run of tokens that fits wraps to itself. */
  lemma RewrapFittingGroup(g: seq<string>, w: string -> nat, width: int)
    requires g != [] && Tokens(g) && Width(w, g) <= width
    ensures WrapLine(Concat(g), w, width) == [Concat(g)]
  {
    SplitIsWords(Concat(g), g);
    WrapGroupsIsGreedy(g, w, width);
    assert Flatten([g]) == g + Flatten([]);
    GreedyUnique(w, width, [g], WrapGroups(g, w, width), true);
  }

  lemma {:induction false} WrapAllFixed(ls: seq<string>, w: string -> nat, width: int)
    requires forall k :: 0 <= k < |ls| ==> WrapLine(ls[k], w, width) == [ls[k]]
    ensures WrapAll(ls, w, width) == ls
    decreases |ls|
  {
    if ls != [] {
      var init, last := ls[..|ls| - 1], ls[|ls| - 1];
      forall k | 0 <= k < |init|
        ensures WrapLine(init[k], w, width) == [init[k]]
      {
        assert init[k] == ls[k];
      }
      WrapAllFixed(init, w, width);
      assert WrapLine(last, w, width) == [last];
      assert init + [last] == ls;
    }
  }

  /** Rewrapping the output lines of an input line at the same width gives
      them back, as long as no word of the input line is wider than the
      width on its own (RewrapNotIdempotent shows that the condition is
      needed). */
  lemma RewrapFittingLine(line: string, w: string -> nat, width: int)
    requires forall i :: 0 <= i < |Words(line)| ==> w(Words(line)[i]) <= width
    ensures WrapAll(WrapLine(line, w, width), w, width) == WrapLine(line, w, width)
  {
    var words := Words(line);
    var gs := WrapGroups(words, w, width);
    WordsIsSplit(line);
    WrapGroupsIsGreedy(words, w, width);
    GroupsAreTokens(gs);
    OverlongFirstWord(words, w, width);
    forall k | 0 <= k < |gs|
      ensures WrapLine(JoinEach(gs)[k], w, width) == [JoinEach(gs)[k]]
    {
      assert GroupFits(w, width, gs[k], k == 0);
      if |gs[k]| == 1 {
        GroupWordsAreWords(gs, k, 0);
        assert Width(w, gs[k]) == w(gs[k][0]) by {
          assert gs[k][..0] == [];
        }
      }
      RewrapFittingGroup(gs[k], w, width);
    }
    WrapAllFixed(JoinEach(gs), w, width);
  }

  // ---------------------------------------------------------------------
  // Worked examples, with one character as one unit of width

  function CharCount(s: string): nat
  {
    |s|
  }

  /** Words that fit stay on one line. */
  lemma FitExample()
    ensures WrapLine("a bb ccc", CharCount, 8) == ["a bb ccc"]
  {
    SplitExamples();
    var ws: seq<string> := ["a ", "bb ", "ccc"];
    var none: seq<string> := [];
    assert Pack([], CharCount, 8, ws, 8) == [ws];
    assert ["a ", "bb "] + ["ccc"] == ws && ["ccc"][1..] == [];
    assert Pack(["ccc"], CharCount, 8, ["a ", "bb "], 5) == [ws];
    assert ["a "] + ["bb "] == ["a ", "bb "] && ["bb ", "ccc"][1..] == ["ccc"];
    assert Pack(["bb ", "ccc"], CharCount, 8, ["a "], 2) == [ws];
    assert none + ["a "] == ["a "] && ws[1..] == ["bb ", "ccc"];
    assert Pack(ws, CharCount, 8, [], 0) == [ws];
    assert Concat(ws) == "a bb ccc";
    assert JoinEach([ws]) == ["a bb ccc"];
  }

  /** A line that is full keeps its trailing space, and the next word opens
      a new line. */
  lemma BreakExample()
    ensures WrapLine("aaaa bbbb", CharCount, 5) == ["aaaa ", "bbbb"]
  {
    SplitExamples();
    var vs: seq<string> := ["aaaa ", "bbbb"];
    var none: seq<string> := [];
    assert ["bbbb"][1..] == [];
    assert Pack(["bbbb"], CharCount, 5, ["aaaa "], 5) == [["aaaa "], ["bbbb"]];
    assert none + ["aaaa "] == ["aaaa "] && vs[1..] == ["bbbb"];
    assert Pack(vs, CharCount, 5, [], 0) == [["aaaa "], ["bbbb"]];
    assert Concat(["aaaa "]) == "aaaa " + Concat([]);
    assert Concat(["bbbb"]) == "bbbb" + Concat([]);
    var hs: seq<seq<string>> := [["aaaa "], ["bbbb"]];
    assert JoinEach(hs)[0] == "aaaa " && JoinEach(hs)[1] == "bbbb";
    assert JoinEach(hs) == ["aaaa ", "bbbb"];
  }

  /** Wrapping its own output again is not the identity: an overlong word is
      preceded by an empty line, and that happens again on every rewrap. */
  lemma RewrapNotIdempotent()
    ensures WrapLine("aaaa", CharCount, 3) == ["", "aaaa"]
    ensures WrapAll(WrapLine("aaaa", CharCount, 3), CharCount, 3) == ["", "", "aaaa"]
  {
    assert FirstBreakFrom("aaaa", 1) == 4;
    assert Words("aaaa") == ["aaaa"];
    assert WrapGroups(["aaaa"], CharCount, 3) == [[], ["aaaa"]];
    assert Concat(["aaaa"]) == "aaaa" + Concat([]);
    var gs: seq<seq<string>> := [[], ["aaaa"]];
    assert JoinEach(gs)[0] == "" && JoinEach(gs)[1] == "aaaa";
    assert JoinEach(gs) == ["", "aaaa"];
    var once := WrapLine("aaaa", CharCount, 3);
    assert once == ["", "aaaa"];
    assert Words("") == [""];
    var empty: seq<string> := [];
    assert [""][1..] == [] && empty + [""] == [""];
    assert CharCount("") == 0;
    assert Pack([], CharCount, 3, [""], 0) == [[""]];
    assert WrapGroups([""], CharCount, 3) == [[""]];
    assert Concat([""]) == "" + Concat([]);
    assert WrapLine("", CharCount, 3) == [""];
    assert once[..1] == [""] && once[..1][..0] == [];
    assert WrapAll(once[..1], CharCount, 3) == [""];
  }
}
