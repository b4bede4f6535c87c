# Text handling of snaps.py, modelled in Dafny

`snaps.py` is a beginner's convenience layer over pygame. Almost all of it
calls the library. This project models the parts that hold logic of their
own, all of them sequential string operations:

- **The word splitter** `split_lines_on_spaces` (module `Splitter`, `words.dfy`).
  It scans a line once, left to right. It cuts the line into tokens, each a
  run of non-spaces followed by the spaces after it, so every token keeps
  its trailing spaces.
- **The greedy line wrapper** `get_display_lines` (module `Wrap`, `wrap.dfy`).
  It cuts the text into lines, splits each line into words and packs the
  words greedily. It keeps a running sum `x` of the words' widths and starts
  a new output line when `x` plus the next word's width exceeds `width`.
  The font enters only through `font.size(word)[0]`. Here it is a parameter
  `w: string -> nat`.
- **The line editor** in the event loop of `get_string` (module `LineEditor`,
  `editor.dfy`). Its state is the text typed so far (`result`) and the
  blinking cursor (`None` or `'*'`). A timer tick flips the cursor. Enter
  (`'\r'`) returns the text. Backspace (`'\x08'`) drops the last character
  if there is one. Any other key text is appended while the text is shorter
  than `max_line_length`.

Each routine is an imperative method with the source's own loop and local
state (`SplitLinesOnSpaces`, `GetDisplayLines`, `GetString`). Each method is
proved equal to a pure specification function. The source's promises are
proved as lemmas about those functions:

- The splitter's result is characterised by a predicate `IsSplit`, proved in
  both directions.
- The wrapper's grouping of words is characterised by a predicate `Greedy`,
  also in both directions.
- The line editor is shown to depend on the key texts alone.

Two behaviours of the code are kept as written:

- Output lines keep their trailing spaces. The comment at `snaps.py:204`
  says the trailing space is removed, but the code does not remove it.
- If the first word of an input line is already wider than `width`, an
  empty line `''` is emitted before it.

A consequence of the second point: wrapping the wrapper's own output again
is not the identity in general. `Wrap.RewrapNotIdempotent` gives an input
that shows it. `Wrap.RewrapFittingLine` proves that it is the identity when
no word is wider than the width.

The per-line body of `get_display_lines` (lines 198-213) is its own method,
`WrapTextLine`, called from the loop over the input lines. The loops and
their state are those of the source.

## Model

| member | source | states |
|---|---|---|
| `Splitter.SplitLinesOnSpaces` | snaps.py:162-187 | The scan returns at least one token. Joining the tokens gives back the input exactly. Each token is non-spaces followed by spaces. Every token but the last ends in a space, and every token but the first starts with a non-space. The result equals the reference split `Words`. |
| `Splitter.WordsIsSplit` | snaps.py:169-185 | The reference split (cut at each space followed by a non-space) has all the properties above. |
| `Splitter.SplitIsWords` | snaps.py:169-185 | Conversely, any list of tokens with those properties is the reference split. So the properties determine the result: the empty input gives `['']`, and no other split qualifies. |
| `Wrap.SplitLinesRoundTrip` | snaps.py:196 | `text.splitlines()` on `'\n'` loses only the separators. Joining the lines with `'\n'`, plus the final `'\n'` if there is one, gives the text back, and no line contains `'\n'`. Empty text gives no lines. |
| `Wrap.PackKeepsWords` | snaps.py:199-213 | From any state of the inner loop, every remaining word is kept, in order, after the words already on the current line. Those words stay at the head of the line's group. |
| `Wrap.PackIsGreedy` | snaps.py:199-211 | From any state of the inner loop whose `x` is the width sum of the current line, the packing follows the greedy rule. |
| `Wrap.WrapGroupsIsGreedy` | snaps.py:199-213 | The words of one input line, grouped into output lines, are exactly the words in order. The grouping obeys the greedy rule: each group plus the first word of the next group exceeds `width`, and each group fits within `width` with two exceptions. A later group may be a single word wider than `width` on its own. The first group may be empty, and then fits only when `width` is not negative. |
| `Wrap.GreedyUnique` | snaps.py:201-211 | Two groupings of the same words that both obey the greedy rule are equal. A break therefore happens exactly when the running sum plus the next word's width exceeds `width`. |
| `Wrap.WrapGroupsCharacterized` | snaps.py:199-213 | A grouping of the words obeys the greedy rule if and only if it is the grouping the wrapper makes. |
| `Wrap.WidthBound` | snaps.py:199-211 | Every output line's summed word width is at most `width`, with two exceptions. One is a line that is a single word wider than `width` on its own. The other is the empty first line when `width` is negative. |
| `Wrap.OverlongFirstWord` | snaps.py:203-208 | An input line's output opens with an empty line followed by more lines if and only if its first word alone is wider than `width`. That word then starts the second line. |
| `Wrap.WrapLineLossless` | snaps.py:197-213 | Each input line yields at least one output line. Its output lines joined give that input line back, spaces included, so no word is split and no character is dropped. |
| `Wrap.WrapAllLossless` | snaps.py:195-214 | Over a whole text, there are at least as many output lines as input lines. All output lines joined equal all input lines joined. |
| `Wrap.GetDisplayLines` | snaps.py:190-214 | The loop over `text_lines` computes `DisplayLines`: the output lines of each input line, in order. |
| `Wrap.WrapTextLine` | snaps.py:198-213 | The inner loop over one input line's words computes `WrapLine`: the greedy groups of the line's words, each group joined into one output line. |
| `Splitter.SplitExamples` | snaps.py:162-187 | `"a bb ccc"` splits into `["a ", "bb ", "ccc"]`, and `"aaaa bbbb"` into `["aaaa ", "bbbb"]`. |
| `Wrap.FitExample` | snaps.py:199-213 | With one width unit per character, `"a bb ccc"` at width 8 stays one line. |
| `Wrap.BreakExample` | snaps.py:199-213 | `"aaaa bbbb"` at width 5 becomes `["aaaa ", "bbbb"]`, and the first line keeps its trailing space. |
| `Wrap.RewrapNotIdempotent` | snaps.py:203-207 | `"aaaa"` at width 3 becomes `["", "aaaa"]`. Wrapping those two lines again gives `["", "", "aaaa"]`, so rewrapping is not the identity. |
| `Wrap.RewrapFittingLine` | snaps.py:197-213 | If no word of an input line is wider than `width` on its own, wrapping its output lines again at the same width gives them back unchanged. |
| `LineEditor.GetString` | snaps.py:401-428 | The event loop returns the text at the first Enter. It returns something if and only if an Enter arrives. With one-character keys, the text never grows beyond `max_line_length` (the loop invariant). |
| `LineEditor.RunIsEdit` | snaps.py:404-424 | The line returned depends only on the key texts. Timer ticks, the cursor, key events with no text and other events have no effect on it. |
| `LineEditor.RunEndsAtEnter` | snaps.py:415-416 | A line is returned exactly when an Enter key arrives. |
| `LineEditor.NothingAfterEnter` | snaps.py:415-416 | Events after the first Enter are never read. |
| `LineEditor.TickFlipsCursor` | snaps.py:404-408 | A tick leaves the text unchanged and flips the cursor between `None` and `'*'`. Two ticks restore the state. |
| `LineEditor.BackspaceRemovesLast` | snaps.py:417-419 | Backspace on empty text changes nothing. On non-empty text it removes exactly the last character. |
| `LineEditor.BackspaceUndoesKey` | snaps.py:417-424 | A one-character key admitted below the limit, followed by Backspace, gives back the text as it was. |
| `LineEditor.EditWithinLimit` | snaps.py:421-424 | With one-character keys, the text keeps `len(result) <= max_line_length` (or stays empty when the limit is not positive). |
| `LineEditor.RunWithinLimit` | snaps.py:401-424 | The line returned after any sequence of events with one-character keys is within that bound. |

## Left out

- pygame set-up, the window and its globals, images, clearing, sound, event draining and waiting for a key or the mouse (`snaps.py:16-160`, `315-371`). These are library calls and global window state.
- Glyph metrics: the font is only the width function `w`. A joined line's rendered width is not assumed to equal the sum of its words' widths, because the code only tracks that sum.
- `str.splitlines` is modelled on `'\n'` only. Python also splits on `'\r\n'`, `'\r'`, `'\v'`, `'\f'`, `'\x1c'`-`'\x1e'`, `'\x85'` and the Unicode line and paragraph separators.
- `render_message` and `display_message` (`snaps.py:217-313`): layout from surface sizes, float centring and the "Text too large" check. These depend on rendered heights.
- In `get_string`, the timer set-up, the blocking `pygame.event.wait` and the redraws (`snaps.py:397-402`, `409`, `420`, `424`, `427`). Events are given as a sequence. When the sequence runs out before an Enter, the model returns `None`, where the source would go on waiting.
- LineEditor.GetString: the length bound is proved only for key events carrying at most one character. With a longer key text, the source appends the whole text while `len(result) < max_line_length`, so it can exceed the limit. The model computes exactly that; only the bound is not claimed.
- The event type: `get_string` tests the literal `event.type == 2` (`snaps.py:410`), keydown in the pygame 1 numbering. `KeyDown` stands for that literal; under pygame 2, where KEYDOWN is 768, the source's branch would not fire, and the model does not capture that.
- The weather lookup (`snaps.py:433-476`), which needs the network and XML parsing.
- `set_color` and `set_random_color` (`snaps.py:339-346`). The first assigns a local variable and has no effect. The second uses randomness.
