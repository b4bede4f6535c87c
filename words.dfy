/** The word splitter of snaps.py (split_lines_on_spaces): one left-to-right
    scan that cuts a line into tokens, each a run of non-spaces followed by the
    spaces after it, so that joining the tokens gives the line back. */
module Splitter {

  /** ''.join(ts): the tokens glued together in order. */
  function Concat(ts: seq<string>): string
  {
    if ts == [] then [] else ts[0] + Concat(ts[1..])
  }

  lemma {:induction false} ConcatAppend(ts: seq<string>, t: string)
    ensures Concat(ts + [t]) == Concat(ts) + t
  {
    if ts == [] {
      assert [] + [t] == [t];
      assert [t][1..] == [];
    } else {
      assert (ts + [t])[1..] == ts[1..] + [t];
      ConcatAppend(ts[1..], t);
    }
  }

  lemma {:induction false} ConcatSplit(ts: seq<string>, us: seq<string>)
    ensures Concat(ts + us) == Concat(ts) + Concat(us)
  {
    if ts != [] {
      assert (ts + us)[1..] == ts[1..] + us;
      ConcatSplit(ts[1..], us);
    } else {
      assert ts + us == us;
    }
  }

  /** No non-space character comes after a space: the token is some
      non-spaces followed by some spaces. */
  predicate Shaped(tok: string)
  {
    forall i, j :: 0 <= i < j < |tok| && tok[i] == ' ' ==> tok[j] == ' '
  }

  predicate EndsWithSpace(tok: string)
  {
    |tok| > 0 && tok[|tok| - 1] == ' '
  }

  predicate StartsWithNonSpace(tok: string)
  {
    |tok| > 0 && tok[0] != ' '
  }

  /** What the splitter promises of its result ts on input text: at least one
      token, nothing lost or reordered, every token shaped, every token but
      the last ends in a space, every token but the first starts a word. */
  predicate IsSplit(text: string, ts: seq<string>)
  {
    && |ts| >= 1
    && Concat(ts) == text
    && Tokens(ts)
  }

  /** The shape of a run of consecutive tokens of a split. */
  predicate Tokens(ts: seq<string>)
  {
    && (forall k :: 0 <= k < |ts| ==> Shaped(ts[k]))
    && (forall k :: 0 <= k < |ts| - 1 ==> EndsWithSpace(ts[k]))
    && (forall k :: 0 < k < |ts| ==> StartsWithNonSpace(ts[k]))
  }

  /** A run of tokens grows by a shaped token that starts a word, when the
      run so far ends in a space. */
  lemma TokensAppend(ts: seq<string>, t: string)
    requires Tokens(ts) && Shaped(t)
    requires ts != [] ==> EndsWithSpace(ts[|ts| - 1]) && StartsWithNonSpace(t)
    ensures Tokens(ts + [t])
  {
  }

  /** Any two consecutive pieces of a run of tokens are runs of tokens. */
  lemma TokensSplit(a: seq<string>, b: seq<string>)
    requires Tokens(a + b)
    ensures Tokens(a) && Tokens(b)
  {
    forall k | 0 <= k < |a| ensures a[k] == (a + b)[k] { }
    forall k | 0 <= k < |b| ensures b[k] == (a + b)[|a| + k] { }
  }

  /** Position i starts a new word: a space just before, a non-space at i. */
  predicate BreakAt(t: string, i: int)
  {
    0 < i < |t| && t[i - 1] == ' ' && t[i] != ' '
  }

  /** The first word start at or after position i, or |t| when there is none. */
  function FirstBreakFrom(t: string, i: nat): (b: nat)
    requires i >= 1
    ensures b <= |t|
    ensures b < |t| ==> i <= b && BreakAt(t, b)
    ensures forall j :: i <= j < b ==> !BreakAt(t, j)
    decreases |t| - i
  {
    if i >= |t| then |t|
    else if BreakAt(t, i) then i
    else FirstBreakFrom(t, i + 1)
  }

  /** Reference definition of the split, independent of the scan: cut the
      text at its first word start and split the rest. */
  function Words(text: string): seq<string>
    decreases |text|
  {
    var b := FirstBreakFrom(text, 1);
    if b == |text| then [text] else [text[..b]] + Words(text[b..])
  }

  lemma {:induction false} SpacesContinue(t: string, i: int, j: int)
    requires forall k :: 0 < k < |t| ==> !BreakAt(t, k)
    requires 0 <= i <= j < |t| && t[i] == ' '
    ensures t[j] == ' '
    decreases j - i
  {
    if j > i {
      SpacesContinue(t, i, j - 1);
      assert !BreakAt(t, j);
    }
  }

  /** A string with no word start inside it is a single shaped token. */
  lemma NoBreakIsShaped(t: string)
    requires forall k :: 0 < k < |t| ==> !BreakAt(t, k)
    ensures Shaped(t)
  {
    forall i, j | 0 <= i < j < |t| && t[i] == ' '
      ensures t[j] == ' '
    {
      SpacesContinue(t, i, j);
    }
  }

  /** The reference split meets the splitter's promise. */
  lemma {:induction false} WordsIsSplit(text: string)
    ensures IsSplit(text, Words(text))
    ensures text != [] ==> |Words(text)[0]| > 0 && Words(text)[0][0] == text[0]
    decreases |text|
  {
    var b := FirstBreakFrom(text, 1);
    if b == |text| {
      NoBreakIsShaped(text);
      assert Concat([text]) == text + Concat([]);
    } else {
      var head, rest := text[..b], text[b..];
      assert forall k :: 0 < k < |head| ==> !BreakAt(head, k) by {
        forall k | 0 < k < |head| ensures !BreakAt(head, k) {
          assert !BreakAt(text, k);
        }
      }
      NoBreakIsShaped(head);
      WordsIsSplit(rest);
      var ts := [head] + Words(rest);
      assert ts[1..] == Words(rest);
      assert Concat(ts) == head + Concat(Words(rest));
      assert head + rest == text;
      assert EndsWithSpace(head) by { assert BreakAt(text, b); }
      assert StartsWithNonSpace(ts[1]) by { assert BreakAt(text, b); }
    }
  }

  /** Conversely, the promise pins the split down: any ts meeting it is the
      reference split. */
  lemma {:induction false} SplitIsWords(text: string, ts: seq<string>)
    requires IsSplit(text, ts)
    ensures ts == Words(text)
    decreases |ts|
  {
    var b := FirstBreakFrom(text, 1);
    if |ts| == 1 {
      assert ts[1..] == [];
      assert Concat(ts) == ts[0];
      assert ts == [text];
      if b < |text| {
        assert false;
      }
    } else {
      var head := ts[0];
      var rest := Concat(ts[1..]);
      assert text == head + rest;
      assert EndsWithSpace(head);
      assert StartsWithNonSpace(ts[1]);
      assert Concat(ts[1..]) == ts[1] + Concat(ts[2..]);
      assert BreakAt(text, |head|);
      forall j | 0 < j < |head|
        ensures !BreakAt(text, j)
      {
        assert Shaped(head);
      }
      assert b == |head|;
      assert text[..b] == head && text[b..] == rest;
      assert IsSplit(rest, ts[1..]) by {
        forall k | 0 <= k < |ts[1..]| ensures Shaped(ts[1..][k]) {
          assert ts[1..][k] == ts[k + 1];
        }
        forall k | 0 <= k < |ts[1..]| - 1 ensures EndsWithSpace(ts[1..][k]) {
          assert ts[1..][k] == ts[k + 1];
        }
        forall k | 0 < k < |ts[1..]| ensures StartsWithNonSpace(ts[1..][k]) {
          assert ts[1..][k] == ts[k + 1];
        }
      }
      SplitIsWords(rest, ts[1..]);
      assert ts == [head] + ts[1..];
    }
  }

  /** Extending a shaped token by a space, or a token still in its
      non-space part by anything, keeps it shaped. */
  lemma ShapedExtend(word: string, ch: char)
    requires Shaped(word)
    requires ch == ' ' || !EndsWithSpace(word)
    ensures Shaped(word + [ch])
  {
  }

  /** split_lines_on_spaces: the scan of snaps.py, with its flag got_space
      and the token under construction word. */
  method SplitLinesOnSpaces(text: string) returns (result: seq<string>)
    ensures IsSplit(text, result)
    ensures result == Words(text)
  {
    result := [];
    var gotSpace := false;
    var word: string := [];
    var i := 0;
    while i < |text|
      invariant 0 <= i <= |text|
      invariant Concat(result) + word == text[..i]
      invariant gotSpace == EndsWithSpace(word)
      invariant Shaped(word)
      invariant Tokens(result)
      invariant result != [] ==> EndsWithSpace(result[|result| - 1]) && StartsWithNonSpace(word)
    {
      var ch := text[i];
      assert text[..i + 1] == text[..i] + [ch];
      if ch == ' ' {
        ShapedExtend(word, ch);
        gotSpace := true;
        word := word + [ch];
      } else if gotSpace {
        // first character of the next word
        ConcatAppend(result, word);
        TokensAppend(result, word);
        result := result + [word];
        word := [ch];
        gotSpace := false;
      } else {
        ShapedExtend(word, ch);
        word := word + [ch];
      }
      i := i + 1;
    }
    assert text[..i] == text;
    ConcatAppend(result, word);
    TokensAppend(result, word);
    result := result + [word];
    SplitIsWords(text, result);
  }

  // ---------------------------------------------------------------------
  // Worked examples

  /** The splitter on the two example lines. */
  lemma SplitExamples()
    ensures Words("a bb ccc") == ["a ", "bb ", "ccc"]
    ensures Words("aaaa bbbb") == ["aaaa ", "bbbb"]
  {
    assert FirstBreakFrom("ccc", 1) == 3;
    assert FirstBreakFrom("bb ccc", 1) == 3;
    assert "bb ccc"[..3] == "bb " && "bb ccc"[3..] == "ccc";
    assert FirstBreakFrom("a bb ccc", 1) == 2;
    assert "a bb ccc"[..2] == "a " && "a bb ccc"[2..] == "bb ccc";
    assert FirstBreakFrom("bbbb", 1) == 4;
    assert FirstBreakFrom("aaaa bbbb", 1) == 5;
    assert "aaaa bbbb"[..5] == "aaaa " && "aaaa bbbb"[5..] == "bbbb";
  }
}
