/** The text-editing window as src/TextEditWindow.cpp defines it: a cursor over
    the buffer's logical lines, moved and edited key by key, with the buffer
    re-wrapped to the window's inner width after every edit. */
module TextEditWindow {
  import opened Buffers
  import opened Keys
  import SizeT

  // ---------------------------------------------------------------------------
  // Cursor to display-row translation (`wrappedLine`, `wrappedCol`)

  /** The display rows taken by the first `n` lines, when a row holds `d`
      characters and every line takes `len / d + 1` rows. */
  function RowsBefore(ls: seq<string>, n: nat, d: nat): nat
    requires n <= |ls| && d > 0
  {
    if n == 0 then 0 else RowsBefore(ls, n - 1, d) + |ls[n - 1]| / d + 1
  }

  /** The 1-based display row of the cursor at `(line, col)`. */
  function WrappedRow(ls: seq<string>, line: nat, col: nat, d: nat): nat
    requires line <= |ls| && d > 0
  {
    RowsBefore(ls, line, d) + col / d + 1
  }

  /** One more line added to a `std::size_t` running total of rows. */
  lemma RowsBeforeWrappedStep(ls: seq<string>, i: nat, d: nat, acc: nat)
    requires i < |ls| && d > 0
    requires acc == RowsBefore(ls, i, d) % SizeT.MODULUS
    ensures SizeT.Add(acc, SizeT.Add(|ls[i]| / d, 1)) == RowsBefore(ls, i + 1, d) % SizeT.MODULUS
  {
    SizeT.AddStep(RowsBefore(ls, i, d), |ls[i]| / d);
  }

  /** The cursor's own rows added to a `std::size_t` running total of the rows above. */
  lemma WrappedRowWrapped(ls: seq<string>, line: nat, col: nat, d: nat, acc: nat)
    requires line <= |ls| && d > 0
    requires acc == RowsBefore(ls, line, d) % SizeT.MODULUS
    ensures SizeT.Add(acc, SizeT.Add(col / d, 1)) == WrappedRow(ls, line, col, d) % SizeT.MODULUS
  {
    SizeT.AddStep(RowsBefore(ls, line, d), col / d);
  }

  /** Every line takes at least one row. */
  lemma {:induction false} RowsBeforeAtLeast(ls: seq<string>, n: nat, d: nat)
    requires n <= |ls| && d > 0
    ensures RowsBefore(ls, n, d) >= n
  {
    if n > 0 {
      RowsBeforeAtLeast(ls, n - 1, d);
    }
  }

  /** The cursor on line `line` is shown on row `line + 1` or below. */
  lemma WrappedRowAtLeast(ls: seq<string>, line: nat, col: nat, d: nat)
    requires line <= |ls| && d > 0
    ensures WrappedRow(ls, line, col, d) >= line + 1
  {
    RowsBeforeAtLeast(ls, line, d);
  }

  /** Moving right along a line never moves the cursor up a row. */
  lemma WrappedRowMonotoneInCol(ls: seq<string>, line: nat, c1: nat, c2: nat, d: nat)
    requires line <= |ls| && d > 0 && c1 <= c2
    ensures WrappedRow(ls, line, c1, d) <= WrappedRow(ls, line, c2, d)
  {
    DivMonotone(c1, c2, d);
  }

  lemma DivMonotone(a: nat, b: nat, d: nat)
    requires a <= b && d > 0
    ensures a / d <= b / d
  {
    var qa, qb := a / d, b / d;
    assert d * qa <= a;
    assert b < d * (qb + 1);
    if qb < qa {
      MulMonotone(d, qb + 1, qa);
      assert false;
    }
  }

  lemma {:induction false} MulMonotone(d: nat, x: nat, y: nat)
    requires x <= y
    ensures d * x <= d * y
    decreases y - x
  {
    if x < y {
      MulMonotone(d, x, y - 1);
      assert d * y == d * (y - 1) + d;
    }
  }

  /** Rows before a line grow with the line index. */
  lemma {:induction false} RowsBeforeMonotone(ls: seq<string>, m: nat, n: nat, d: nat)
    requires m <= n <= |ls| && d > 0
    ensures RowsBefore(ls, m, d) + (n - m) <= RowsBefore(ls, n, d)
    decreases n - m
  {
    if m < n {
      RowsBeforeMonotone(ls, m, n - 1, d);
    }
  }

  /** The last position of a line is still above the rows of the next line. */
  lemma WrappedRowWithinLine(ls: seq<string>, line: nat, col: nat, d: nat)
    requires line < |ls| && d > 0 && col <= |ls[line]|
    ensures WrappedRow(ls, line, col, d) <= RowsBefore(ls, line + 1, d)
  {
    DivMonotone(col, |ls[line]|, d);
  }

  /** Every position within an earlier line is on an earlier row than any
      position of a later line. */
  lemma WrappedRowOrderedByLine(ls: seq<string>, l1: nat, c1: nat, l2: nat, c2: nat, d: nat)
    requires l1 < l2 <= |ls| && d > 0 && c1 <= |ls[l1]|
    ensures WrappedRow(ls, l1, c1, d) < WrappedRow(ls, l2, c2, d)
  {
    WrappedRowWithinLine(ls, l1, c1, d);
    RowsBeforeMonotone(ls, l1 + 1, l2, d);
    RowsBeforeBelowRow(ls, l2, c2, d);
  }

  /** A cursor is shown below all the rows of the lines above it. */
  lemma RowsBeforeBelowRow(ls: seq<string>, line: nat, col: nat, d: nat)
    requires line <= |ls| && d > 0
    ensures RowsBefore(ls, line, d) < WrappedRow(ls, line, col, d)
  {
  }

  lemma ModFacts(c: nat, d: nat)
    requires d > 0
    ensures c % d < d
    ensures c < d ==> c % d == c
  {
  }

  /** Within one line, the display row and the column inside the row together
      identify the cursor column. */
  lemma CellDeterminesColumn(ls: seq<string>, line: nat, c1: nat, c2: nat, d: nat)
    requires line <= |ls| && d > 0
    requires WrappedRow(ls, line, c1, d) == WrappedRow(ls, line, c2, d)
    requires c1 % d + 1 == c2 % d + 1
    ensures c1 == c2
  {
  }

  // ---------------------------------------------------------------------------

  class TextEditWindowV1 {
    /** The lines being edited. */
    const buffer: Buffer
    /** The window's width, `getWidth()`. */
    const width: nat
    var cursorLine: nat
    var cursorCol: nat
    /** The first display row shown. */
    var topLine: nat

    /** The width the buffer is wrapped to: `getWidth() - 2` as a `std::size_t`. */
    function WrapWidth(): nat
    {
      SizeT.Sub(width, 2)
    }

    /** Where a typed character goes: at the cursor, or at column 1 of the next
        line when the cursor is in the window's last column. */
    function CharTarget(): (nat, nat)
      reads this
    {
      if cursorCol == SizeT.Sub(width, 1) then (SizeT.Add(cursorLine, 1), 1) else (cursorLine, cursorCol)
    }

    /** Every line's length is a `std::size_t` value. */
    ghost predicate LengthsInRange()
      reads this, buffer
    {
      forall i :: 0 <= i < |buffer.lines| ==> SizeT.InRange(|buffer.lines[i]|)
    }

    /** The window starts on a fresh buffer with the cursor and the view at the top. */
    constructor (width: nat)
      ensures this.width == width && fresh(buffer)
      ensures buffer.lines == [""] && buffer.wrappedLines == [] && !buffer.bufferModified
      ensures cursorLine == 0 && cursorCol == 0 && topLine == 0
    {
      this.width := width;
      buffer := new Buffer();
      cursorLine, cursorCol, topLine := 0, 0, 0;
    }

    /** The states in which `key` indexes no line past the end of the buffer
        (which the C++ code leaves undefined). */
    predicate CanHandle(key: Key)
      reads this, buffer
    {
      var n := |buffer.lines|;
      match key
      case Left => cursorCol == 0 && cursorLine != 0 ==> cursorLine - 1 < n
      case Right => cursorLine < n
      case Up => SizeT.Sub(cursorCol, width) < cursorLine || SizeT.Sub(cursorLine, 1) < n
      case Down => SizeT.Add(cursorLine, width) < n || SizeT.Add(cursorLine, 1) < n
      case Enter => true
      case Backspace => cursorLine < n
      case Char(_) => CharTarget().0 < n && CharTarget().1 <= |buffer.lines[CharTarget().0]|
    }

    /** One key press. */
    method InputHandler(key: Key) returns (outcome: Outcome)
      requires CanHandle(key)
      modifies this, buffer
      ensures topLine == old(topLine) && buffer.bufferModified == old(buffer.bufferModified)
      ensures outcome == OutOfRange ==> unchanged(this, buffer)
      // the cursor stays a pair of `std::size_t` values
      ensures old(SizeT.InRange(cursorLine) && SizeT.InRange(cursorCol) && LengthsInRange()) ==>
                SizeT.InRange(cursorLine) && SizeT.InRange(cursorCol)
      // LEFT: back one column, or to the end of the previous line
      ensures key.Left? ==>
        && outcome == Done && unchanged(buffer)
        && if old(cursorCol) != 0 then cursorLine == old(cursorLine) && cursorCol == old(cursorCol) - 1
           else if old(cursorLine) != 0 then
             cursorLine == old(cursorLine) - 1 && cursorCol == |buffer.lines[cursorLine]|
           else cursorLine == 0 && cursorCol == 0
      // RIGHT: forward one column, otherwise to the start of the next line, existing or not
      ensures key.Right? ==>
        && outcome == Done && unchanged(buffer)
        && if SizeT.Add(old(cursorCol), 1) < |old(buffer.lines[cursorLine])| then
             cursorLine == old(cursorLine) && cursorCol == SizeT.Add(old(cursorCol), 1)
           else cursorLine == SizeT.Add(old(cursorLine), 1) && cursorCol == 0
      // UP: back a window width within the column, otherwise to the last column of the line above
      ensures key.Up? ==>
        && outcome == Done && unchanged(buffer)
        && var back := SizeT.Sub(old(cursorCol), width);
           if back < old(cursorLine) then cursorLine == old(cursorLine) && cursorCol == back
           else
             && cursorLine == SizeT.Sub(old(cursorLine), 1)
             && cursorCol == SizeT.Sub(|buffer.lines[cursorLine]|, 1)
      // DOWN: on a window width within the column, otherwise to the last column of the next line
      ensures key.Down? ==>
        && outcome == Done && unchanged(buffer)
        && if SizeT.Add(old(cursorLine), width) < |buffer.lines| then
             cursorLine == old(cursorLine) && cursorCol == SizeT.Add(old(cursorCol), width)
           else
             && cursorLine == SizeT.Add(old(cursorLine), 1)
             && cursorCol == SizeT.Sub(|buffer.lines[cursorLine]|, 1)
      // ENTER: an empty line at the end of the buffer, cursor to the start of the next line
      ensures key.Enter? ==>
        && outcome == Done
        && buffer.lines == old(buffer.lines) + [""]
        && WrappedAt(buffer.wrappedLines, buffer.lines, WrapWidth())
        && cursorLine == SizeT.Add(old(cursorLine), 1) && cursorCol == 0
      // BACKSPACE
      ensures key.Backspace? ==>
        var l := old(buffer.lines[cursorLine]);
        var pos := SizeT.Sub(old(cursorCol), 1);
        if |l| == 0 && old(cursorCol) == 0 then
          && outcome == Done && buffer.lines == old(buffer.lines)
          && cursorLine == old(cursorLine) && cursorCol == old(cursorCol)
          && WrappedAt(buffer.wrappedLines, buffer.lines, WrapWidth())
        else if |l| == 0 then
          && outcome == Done && buffer.lines == RemoveAt(old(buffer.lines), old(cursorLine))
          && cursorLine == old(cursorLine) && cursorCol == old(cursorCol) - 1
          && WrappedAt(buffer.wrappedLines, buffer.lines, WrapWidth())
        else if pos > |l| then
          outcome == OutOfRange
        else
          && outcome == Done
          && buffer.lines == old(buffer.lines)[old(cursorLine) := Erase(l, pos, 1)]
          && cursorLine == old(cursorLine) && cursorCol == old(cursorCol)
          && WrappedAt(buffer.wrappedLines, buffer.lines, WrapWidth())
      // any other key: inserted as a character at CharTarget(), then one column on
      ensures key.Char? ==>
        var (line, col) := old(CharTarget());
        && outcome == Done
        && buffer.lines == old(buffer.lines)[line := InsertChar(old(buffer.lines)[line], col, key.c)]
        && cursorLine == line && cursorCol == SizeT.Add(col, 1)
        && WrappedAt(buffer.wrappedLines, buffer.lines, WrapWidth())
    {
      outcome := Done;
      match key
      case Left =>
        if cursorCol != 0 {
          cursorCol := cursorCol - 1;
        } else if cursorLine != 0 {
          cursorLine := cursorLine - 1;
          cursorCol := if |buffer.lines[cursorLine]| == 0 then 0 else |buffer.lines[cursorLine]|;
        }
      case Right =>
        if SizeT.Add(cursorCol, 1) < |buffer.lines[cursorLine]| {
          cursorCol := SizeT.Add(cursorCol, 1);
        } else {
          cursorLine := SizeT.Add(cursorLine, 1);
          cursorCol := 0;
        }
      case Up =>
        if SizeT.Sub(cursorCol, width) < cursorLine {
          cursorCol := SizeT.Sub(cursorCol, width);
        } else {
          if cursorLine == 0 {
            cursorCol := 0;
          }
          cursorLine := SizeT.Sub(cursorLine, 1);
          cursorCol := SizeT.Sub(|buffer.lines[cursorLine]|, 1);
        }
      case Down =>
        if SizeT.Add(cursorLine, width) < |buffer.lines| {
          cursorCol := SizeT.Add(cursorCol, width);
        } else {
          cursorLine := SizeT.Add(cursorLine, 1);
          cursorCol := SizeT.Sub(|buffer.lines[cursorLine]|, 1);
        }
      case Enter =>
        buffer.AppendLine("");
        buffer.WrapLines(WrapWidth());
        cursorLine := SizeT.Add(cursorLine, 1);
        cursorCol := 0;
      case Backspace =>
        if |buffer.lines[cursorLine]| == 0 {
          if cursorCol == 0 {
            buffer.WrapLines(WrapWidth());
            return;
          }
          cursorCol := cursorCol - 1;
          buffer.RemoveLine(cursorLine);
        } else {
          var l := buffer.lines[cursorLine];
          var pos := SizeT.Sub(cursorCol, 1);
          if pos > |l| {
            outcome := OutOfRange;
            return;
          }
          buffer.SetLine(cursorLine, Erase(l, pos, 1));
        }
        buffer.WrapLines(WrapWidth());
      case Char(c) =>
        if cursorCol == SizeT.Sub(width, 1) {
          cursorLine := SizeT.Add(cursorLine, 1);
          cursorCol := 1;
        }
        buffer.AddChAt(cursorLine, cursorCol, c);
        buffer.WrapLines(WrapWidth());
        cursorCol := SizeT.Add(cursorCol, 1);
    }

    /** Re-wraps the buffer, then moves the view up a row unless it is at the top. */
    method ScrollUp()
      modifies buffer`wrappedLines, this`topLine
      ensures WrappedAt(buffer.wrappedLines, buffer.lines, WrapWidth())
      ensures topLine == if old(topLine) != 0 then old(topLine) - 1 else 0
    {
      buffer.WrapLines(WrapWidth());
      if topLine != 0 {
        topLine := topLine - 1;
      }
    }

    /** Re-wraps the buffer, then moves the view down a row unless it already
        stands at the row count (a view past that row keeps moving). */
    method ScrollDown()
      modifies buffer`wrappedLines, this`topLine
      ensures WrappedAt(buffer.wrappedLines, buffer.lines, WrapWidth())
      ensures topLine == if old(topLine) != |buffer.wrappedLines| then old(topLine) + 1 else old(topLine)
    {
      buffer.WrapLines(WrapWidth());
      var count := buffer.GetWrappedLineCount();
      if topLine != count {
        topLine := topLine + 1;
      }
    }

    /** The cursor's 1-based display row: one row per `WrapWidth()` characters
        (plus one) for each line above it, then the rows up to the cursor. The
        total is accumulated in a `std::size_t`, so it is exact until it passes
        2^64 - 1 and wraps around from there. */
    method WrappedLine() returns (r: nat)
      requires WrapWidth() != 0
      requires cursorLine <= |buffer.lines|
      ensures r == WrappedRow(buffer.lines, cursorLine, cursorCol, WrapWidth()) % SizeT.MODULUS
      ensures WrappedRow(buffer.lines, cursorLine, cursorCol, WrapWidth()) < SizeT.MODULUS ==>
                r == WrappedRow(buffer.lines, cursorLine, cursorCol, WrapWidth()) && r >= cursorLine + 1
    {
      var d := WrapWidth();
      var ans := 0;
      var i := 0;
      while i < cursorLine
        invariant i <= cursorLine
        invariant ans == RowsBefore(buffer.lines, i, d) % SizeT.MODULUS
      {
        RowsBeforeWrappedStep(buffer.lines, i, d, ans);
        ans := SizeT.Add(ans, SizeT.Add(|buffer.lines[i]| / d, 1));
        i := i + 1;
      }
      WrappedRowWrapped(buffer.lines, cursorLine, cursorCol, d, ans);
      ans := SizeT.Add(ans, SizeT.Add(cursorCol / d, 1));
      WrappedRowAtLeast(buffer.lines, cursorLine, cursorCol, d);
      r := ans;
    }

    /** The cursor's 1-based column within its display row. */
    function WrappedCol(): (r: nat)
      reads this
      requires WrapWidth() != 0
      ensures 1 <= r <= WrapWidth()
      ensures width > 2 ==> r <= width - 2
      ensures cursorCol < WrapWidth() ==> r == cursorCol + 1
    {
      var d := WrapWidth();
      ModFacts(cursorCol, d);
      cursorCol % d + 1
    }
  }
}
