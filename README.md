# TanoshiiEditor text buffer and editing window, in Dafny

This project models the core of TanoshiiEditor, a small terminal text editor
written in C++ on ncurses. The core has two parts.

- **The buffer** (`Buffer`). It owns the logical lines of the text (`lines`), a
  cache of wrapped display rows (`wrapped_lines`, each row a pair of source-line
  index and text) and a `buffer_modified` flag. It inserts, appends and removes
  lines in place, edits characters of one line, hands out lines by index,
  flattens itself to one string, and splits a string on a separator.
- **The text-editing window** (`TextEditWindow`). It keeps a cursor
  (`cursor_line`, `cursor_col`) and a scroll position (`top_line`) over the
  buffer, and updates them key by key. The repository defines this class
  twice and the two definitions cannot be linked together. So there are two
  classes here:
  - `TextEditWindow.TextEditWindowV1` models `src/TextEditWindow.cpp`. Its
    navigation has no bounds checks, it re-wraps after each edit, and it has
    the formulas that turn the cursor into a display row and column.
  - `Window.TextEditWindowV2` models the earlier definition in `src/Window.cpp`.
    Its navigation stays inside the buffer, and it never re-wraps.

Files:

- `buffer.dfy` is module `Buffers`: class `Buffer`, the sequence and string
  functions that specify it, and the lemmas about them.
- `text_edit_window.dfy` is module `TextEditWindow`: class `TextEditWindowV1`
  and the display-row function `WrappedRow` with its lemmas.
- `window.dfy` is module `Window`: class `TextEditWindowV2` and its invariant.
- `keys.dfy` is module `Keys`: the key datatype and the handler's `Outcome`.
- `sizet.dfy` is module `SizeT`: unsigned `std::size_t` subtraction.

How the C++ maps onto Dafny:

- Objects whose fields change become classes. Their fields are `seq`s and
  `nat`s. The window holds its buffer as a `const` field and names it in its
  `modifies` clauses.
- A store through the reference that the non-const `operator[]` returns is
  `Buffer.SetLine`. This covers `erase`, `append` and `insert` on
  `buffer[cursor_line]`: the new line is computed, then stored. Reads through
  `operator[]`, const or not, are reads of `lines[idx]`.
- Indexing `lines` out of range, or inserting through an iterator past a
  line's end, is undefined behaviour in C++. It becomes a `requires`.
  - `TextEditWindowV1.CanHandle` gives the condition for each key.
  - `TextEditWindowV2` needs only its invariant, plus the column bound for a
    typed character.
- `std::string::erase` throws `std::out_of_range` when its position is past the
  line's end, and the handlers do not catch it. That path is modelled: the
  handler returns `Outcome.OutOfRange` and nothing has changed.
- The cursor arithmetic is `std::size_t` arithmetic, so it wraps around modulo
  2^64. The subtractions (`cursor_col - 1`, `getWidth() - 2`, `getWidth() - 1`,
  `cursor_line--` at line 0) are written with `SizeT.Sub`. The additions
  (`cursor_col++`, `cursor_line++`, `+ getWidth()`, `cursor_col + 1` and the
  running total in `wrappedLine`) are written with `SizeT.Add`. For example, UP
  onto an empty line sets the column to 2^64 - 1, and a following DOWN adds the
  width to that and wraps to a small column again.
- Keys are `Left | Right | Up | Down | Enter | Backspace | Char(c)`. `Enter`
  stands for `KEY_ENTER` and `Backspace` for `KEY_BACKSPACE`. Every other code
  is `Char`. On macOS, `TextEditWindowV1` reads code 10 as `Enter` and code 127
  as `Backspace`. `TextEditWindowV2` has no such case: there, codes 10 and 127
  are `Char`.

Some facts about the C++ code that the model keeps:

- `removeLine` can empty the buffer.
- `buffer_modified` is never written after it is initialised to `false`.
- The repository has no `wrapLines` body, so no word-wrap rule is modelled.
- The cursor is stored in logical coordinates (line, column), not in wrapped
  display coordinates.
- BACKSPACE does not join lines. ENTER appends a line at the end of the buffer
  instead of splitting the current line.
- Out-of-range access is undefined behaviour, not an error value.

## Model

| member | source | states |
|---|---|---|
| `Buffers.Buffer.constructor` | src/Buffer.cpp:11-14 | a new buffer holds exactly one line, the empty one; the wrap cache is empty and `buffer_modified` is false |
| `Buffers.Buffer.InsertLine` | src/Buffer.cpp:16-19 | needs `pos <= size`; afterwards the lines are `InsertAt(old lines, pos, line)`, and the cache and flag are outside its frame |
| `Buffers.InsertAt` | src/Buffer.cpp:16-19 | inserting grows the sequence by one, puts the new line at `pos`, keeps the lines before `pos` and shifts the later ones up by one |
| `Buffers.Buffer.AppendLine` | src/Buffer.cpp:21-24 | the new lines are the old ones plus `line` at the end, which is also `InsertAt(old, size, line)` |
| `Buffers.AppendIsInsertAtEnd` | src/Buffer.cpp:16-24 | appending a line equals inserting it at position `size` |
| `Buffers.Buffer.RemoveLine` | src/Buffer.cpp:26-29 | needs `pos < size`; afterwards the lines are `RemoveAt(old lines, pos)`, and nothing keeps the buffer from becoming empty |
| `Buffers.RemoveAt` | src/Buffer.cpp:26-29 | removing shrinks the sequence by one, keeps the lines before `pos` and shifts the later ones down by one |
| `Buffers.RemoveUndoesInsert` | src/Buffer.cpp:16-29 | removing the line just inserted at `pos` restores the original sequence, for every `pos <= size` |
| `Buffers.InsertUndoesRemove` | src/Buffer.cpp:16-29 | reinserting the removed line at its position restores the original sequence |
| `Buffers.AppendThenRemoveLast` | src/Buffer.cpp:21-29 | `appendLine(s)` followed by `removeLine(size - 1)` restores the original sequence |
| `Buffers.Buffer.GetBufferSize` | src/Buffer.cpp:31-34 | returns the number of lines and changes nothing |
| `Buffers.Buffer.SetLine` | src/Buffer.cpp:36-39 | a store through `operator[](idx)`, with `idx < size`, sets line `idx` and leaves the count and every other line unchanged |
| `Buffers.Buffer.ToString` | src/Buffer.cpp:41-47 | the loop yields all lines concatenated in order with no separator, and its length is the sum of the line lengths |
| `Buffers.ConcatLength` | src/Buffer.cpp:41-47 | the flattened buffer is as long as the sum of its line lengths |
| `Buffers.ConcatAppend` | src/Buffer.cpp:41-47 | flattening two runs of lines gives the two flattened runs one after the other, so each line stays in its place and order |
| `Buffers.FreshConcat` | src/Buffer.cpp:41-47 | a fresh buffer, holding one empty line, flattens to `""` |
| `Buffers.Buffer.AddChAt` | include/Buffer.h:25-31 | line `line` gets `ch` inserted at `col`, and every other line is unchanged |
| `Buffers.InsertChar` | include/Buffer.h:25-31 | the edited line is one character longer, has `ch` at `col`, keeps its first `col` characters and shifts the rest right by one |
| `Buffers.Buffer.AppendCh` | include/Buffer.h:33-39 | `lines[line]` becomes the old line followed by `ch`; no other line changes |
| `Buffers.Buffer.WrapLines` | include/Buffer.h:101-106 | `lines` is outside its frame; afterwards no wrapped row is wider than `window_width`; for a positive width every row names an existing line, rows come in line order, and the rows of each line concatenate to that line |
| `Buffers.Buffer.GetWrappedLineCount` | include/Buffer.h:58-64 | returns the number of cached rows and changes neither the lines nor the cache |
| `Buffers.Buffer.GetWrappedLineTuple` | include/Buffer.h:65-80 | needs `idx` below the row count; returns row `idx` of the cache and changes nothing |
| `Buffers.FindFrom` | src/test/bufferTest.cpp:4-11 | finds the first occurrence of the separator at or after `from`: it occurs there and nowhere between; `None` means it occurs nowhere after `from` |
| `Buffers.Buffer.Split` | src/test/bufferTest.cpp:4-11 | splitting gives at least one piece; the pieces joined with the separator give back the input, and no piece contains the separator |
| `Buffers.SplitJoin` | src/test/bufferTest.cpp:4-11 | with a one-character separator, splitting undoes joining any pieces that do not contain it |
| `Buffers.SplitExample` | src/test/bufferTest.cpp:4-11 | `"Labore sit deserunt non nisi"` split on `" "` is `["Labore","sit","deserunt","non","nisi"]` |
| `Buffers.Erase` | src/TextEditWindow.cpp:87 | `erase(pos, n)` keeps the first `pos` characters and drops the next `n`, or everything after `pos` when fewer remain |
| `SizeT.Sub` | src/TextEditWindow.cpp:87 | `std::size_t` subtraction: the exact difference when it is not negative, otherwise 2^64 minus the shortfall |
| `SizeT.Add` | src/TextEditWindow.cpp:55 | `std::size_t` addition: the exact sum while it is below 2^64, otherwise the sum less 2^64, and always a `size_t` value |
| `SizeT.AddOfWrapped` | src/TextEditWindow.cpp:136-147 | adding two wrapped values with wrap-around gives the exact sum modulo 2^64, so a running total kept in a `size_t` is the true total modulo 2^64 |
| `TextEditWindow.TextEditWindowV1.constructor` | src/TextEditWindow.cpp:14-18 | the window starts on a fresh buffer with the cursor and the view at 0 |
| `TextEditWindow.TextEditWindowV1.InputHandler` | src/TextEditWindow.cpp:20-100 | LEFT decrements `col`, or goes to the end of the previous line, or stays at (0,0), and never touches the buffer. RIGHT advances `col` while `col+1 < len`, otherwise goes to `(line+1, 0)` unchecked. UP and DOWN follow the `size_t` arithmetic, with column and line wrapping modulo 2^64 on both subtraction and addition; from a `size_t` cursor over `size_t`-length lines the cursor stays a pair of `size_t` values. ENTER appends an empty line at the end, re-wraps and goes to `(line+1, 0)`. BACKSPACE on an empty line changes nothing at `col == 0`; otherwise it removes the line and decrements `col`. On a non-empty line it erases the character at `col-1` and keeps the cursor, or returns `OutOfRange` with nothing changed when `col-1` (mod 2^64) is past the end. A typed character first jumps to `(line+1, 1)` from column `width-1`, then is inserted at the cursor, the buffer is re-wrapped and `col` grows by exactly 1. `top_line` and the flag never change |
| `TextEditWindow.TextEditWindowV1.ScrollUp` | src/TextEditWindow.cpp:113-118 | re-wraps at `width - 2`, then decrements `top_line` unless it is 0 |
| `TextEditWindow.TextEditWindowV1.ScrollDown` | src/TextEditWindow.cpp:120-125 | re-wraps at `width - 2`, then increments `top_line` unless it equals the new row count |
| `TextEditWindow.TextEditWindowV1.WrappedLine` | src/TextEditWindow.cpp:136-147 | the loop returns Σ_{i<line}(len_i/(width-2)+1) + col/(width-2) + 1 modulo 2^64, as its `size_t` accumulator does; while that sum is below 2^64 it is returned exactly and is at least `line+1`; it needs `width != 2`, since the divisor is 0 otherwise |
| `TextEditWindow.RowsBeforeWrappedStep` | src/TextEditWindow.cpp:136-147 | adding one line's rows to the `size_t` total of the rows above it gives the rows up to and including that line, modulo 2^64 |
| `TextEditWindow.WrappedRowWrapped` | src/TextEditWindow.cpp:136-147 | adding the cursor's rows to the `size_t` total of the rows above gives the cursor's display row modulo 2^64 |
| `TextEditWindow.RowsBeforeAtLeast` | src/TextEditWindow.cpp:136-147 | every line above the cursor contributes at least one display row |
| `TextEditWindow.WrappedRowAtLeast` | src/TextEditWindow.cpp:136-147 | the display row of a cursor on line `line` is at least `line + 1` |
| `TextEditWindow.WrappedRowMonotoneInCol` | src/TextEditWindow.cpp:136-147 | the display row does not decrease as `col` grows within a line |
| `TextEditWindow.RowsBeforeMonotone` | src/TextEditWindow.cpp:136-147 | the rows before line `n` exceed the rows before line `m <= n` by at least `n - m` |
| `TextEditWindow.WrappedRowWithinLine` | src/TextEditWindow.cpp:136-147 | every position of a line, its end included, is on a row no later than the last row of that line |
| `TextEditWindow.RowsBeforeBelowRow` | src/TextEditWindow.cpp:136-147 | the cursor is shown below all the rows of the lines above it |
| `TextEditWindow.WrappedRowOrderedByLine` | src/TextEditWindow.cpp:136-147 | every position within an earlier line is on a strictly earlier display row than any position of a later line |
| `TextEditWindow.CellDeterminesColumn` | src/TextEditWindow.cpp:136-152 | within a line, the pair (display row, `col % (width-2) + 1`) determines the cursor column |
| `TextEditWindow.TextEditWindowV1.WrappedCol` | src/TextEditWindow.cpp:149-152 | `col % (width-2) + 1` lies in `[1, width-2]` for `width > 2`, and is `col + 1` while `col` is below the row width |
| `Window.TextEditWindowV2.constructor` | src/Window.cpp:171-175 | the window starts on a fresh buffer with the cursor and the view at 0, which satisfies its invariant |
| `Window.TextEditWindowV2.InputHandler` | src/Window.cpp:177-224 | keeps `cursor_line < size` and `top_line <= size`. LEFT is as in the later version and never touches the buffer. RIGHT advances `col` while `col+1 < len`, else goes to `(line+1, 0)` only if that line exists, else changes nothing. UP and DOWN move one line only within the buffer and keep `col`. ENTER appends `"\n"` to the current line, then an empty line at the end, and keeps the cursor. BACKSPACE truncates the current line to its first `col` characters and keeps the cursor, or returns `OutOfRange` with nothing changed when `col > len`. A typed character is inserted at `col`, only that line changes, and `col` grows by one |
| `Window.TextEditWindowV2.ScrollUp` | src/Window.cpp:235-237 | decrements `top_line` unless it is 0, keeping the invariant |
| `Window.TextEditWindowV2.ScrollDown` | src/Window.cpp:239-241 | increments `top_line` unless it equals the line count, so `top_line <= size` is preserved |

## Left out

- All ncurses drawing and window management is left out: `BaseWindow`, `updateDisplay`, `eraseTextContent`, `addstr` and `mvaddstr`, borders and panels. The debugging `addstr` calls in `src/Window.cpp` and the logger call at src/TextEditWindow.cpp:101 are left out too. They are terminal I/O and file I/O with no effect on the modelled state. The logger call evaluates `wrappedLine()` and `wrappedCol()` after every key, and both divide by `getWidth() - 2`. So in the C++ code every key press reaches undefined behaviour at width 2, while `TextEditWindowV1.InputHandler` also accepts width 2.
- The application loop, observers, `main`, the logger, the border constants and the stale `include/Window.h` and `include/StringManipulator.h` are not part of this model.
- `getWidth()` is the constant field `width` of the window. `updateDimension`, which would change it, belongs to the window management that is left out.
- `wrapLines` has no body in the repository. Its contract holds for any wrapping that meets it. The body of `Buffers.Buffer.WrapLines` cuts each line into fixed-width pieces only so that the method has a body. No word-boundary or greedy rule is modelled.
- `Buffers.Buffer.WrapLines`: for width 0 the contract promises only that no row is wider than 0. A non-empty line cannot be wrapped at that width, and the repository shows no behaviour for it.
- `Buffers.Buffer.AddChAt` requires `col <= len` for its line. Its body is not in the repository, so nothing says what it does past the end of a line.
- `Buffers.Buffer.Split` requires a non-empty separator. Its definition is not in the repository, and with an empty separator the left-to-right search would not advance.
- The mutable-reference form of `getWrappedLineTuple` is modelled only as a read. Nothing in the repository writes through that reference.
- The line lengths and the line count are unbounded `nat`s. The model does not bound them by 2^64, so a `cursor_col = size()` from LEFT is exact.
- `TextEditWindow.TextEditWindowV1.WrappedLine` and `TextEditWindow.TextEditWindowV1.WrappedCol` require `width != 2`, because the divisor `getWidth() - 2` is then 0, which is undefined behaviour.
- The int loop counter in `wrappedLine` is compared with the `size_t` cursor line. The model writes the loop as "sum the lines above, then add the cursor's line". The C++ loop returns from inside at `i == cursor_line`, which gives the same result.
- `chtype` is narrowed to `char` when it is inserted into a line. The model uses `char` throughout.
- `insertLine` and `removeLine` take `int` or `size_t` positions. A negative `int` is undefined behaviour, and positions are `nat` here.
- The cursor and `top_line` fields are declared in none of the repository's headers. They are taken to start at 0.
