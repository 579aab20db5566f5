/** The editor's text buffer: an ordered sequence of logical lines, a cache of
    wrapped display rows derived from them, and a dirty flag. */
module Buffers {

  /** One wrapped display row: the index of the logical line it comes from and its text. */
  datatype CachedRow = CachedRow(source: nat, text: string)

  datatype Option<T> = None | Some(value: T)

  // ---------------------------------------------------------------------------
  // Line-sequence edits, as `std::vector::insert`, `push_back` and `erase` perform them

  /** `lines` with `x` inserted before index `pos`. */
  function InsertAt(s: seq<string>, pos: nat, x: string): (r: seq<string>)
    requires pos <= |s|
    ensures |r| == |s| + 1 && r[pos] == x
    ensures forall i :: 0 <= i < pos ==> r[i] == s[i]
    ensures forall i :: pos < i < |r| ==> r[i] == s[i - 1]
  {
    s[..pos] + [x] + s[pos..]
  }

  /** `lines` with the line at index `pos` taken out. */
  function RemoveAt(s: seq<string>, pos: nat): (r: seq<string>)
    requires pos < |s|
    ensures |r| == |s| - 1
    ensures forall i :: 0 <= i < pos ==> r[i] == s[i]
    ensures forall i :: pos <= i < |r| ==> r[i] == s[i + 1]
  {
    s[..pos] + s[pos + 1..]
  }

  /** Appending a line is inserting it at the end. */
  lemma AppendIsInsertAtEnd(s: seq<string>, x: string)
    ensures s + [x] == InsertAt(s, |s|, x)
  {
  }

  /** Removing the line just inserted restores the sequence. */
  lemma RemoveUndoesInsert(s: seq<string>, pos: nat, x: string)
    requires pos <= |s|
    ensures RemoveAt(InsertAt(s, pos, x), pos) == s
  {
  }

  /** Putting back the line just removed restores the sequence. */
  lemma InsertUndoesRemove(s: seq<string>, pos: nat)
    requires pos < |s|
    ensures InsertAt(RemoveAt(s, pos), pos, s[pos]) == s
  {
  }

  /** `appendLine(x)` followed by `removeLine(size - 1)` gives back the lines. */
  lemma AppendThenRemoveLast(s: seq<string>, x: string)
    ensures RemoveAt(s + [x], |s|) == s
  {
  }

  // ---------------------------------------------------------------------------
  // Character edits on one line

  /** `l` with `ch` inserted before column `col`. */
  function InsertChar(l: string, col: nat, ch: char): (r: string)
    requires col <= |l|
    ensures |r| == |l| + 1 && r[col] == ch
    ensures r[..col] == l[..col] && r[col + 1..] == l[col..]
  {
    l[..col] + [ch] + l[col..]
  }

  /** `l.erase(pos, n)` on a `std::string` (for `pos <= |l|`, where it does not throw):
      up to `n` characters go, fewer when the line ends first. */
  function Erase(l: string, pos: nat, n: nat): (r: string)
    requires pos <= |l|
    ensures |r| >= pos && r[..pos] == l[..pos]
    ensures pos + n <= |l| ==> |r| == |l| - n && r[pos..] == l[pos + n..]
    ensures pos + n > |l| ==> |r| == pos
  {
    if pos + n <= |l| then l[..pos] + l[pos + n..] else l[..pos]
  }

  // ---------------------------------------------------------------------------
  // Flattening the buffer to one string

  /** All lines run together in order, with no separator. */
  function Concat(ls: seq<string>): string
  {
    if ls == [] then "" else Concat(ls[..|ls| - 1]) + ls[|ls| - 1]
  }

  /** The sum of the line lengths. */
  function TotalLength(ls: seq<string>): nat
  {
    if ls == [] then 0 else TotalLength(ls[..|ls| - 1]) + |ls[|ls| - 1]|
  }

  lemma {:induction false} ConcatLength(ls: seq<string>)
    ensures |Concat(ls)| == TotalLength(ls)
  {
    if ls != [] {
      ConcatLength(ls[..|ls| - 1]);
    }
  }

  /** Flattening distributes over joining two runs of lines, so every line
      appears in the result in its own place. */
  lemma {:induction false} ConcatAppend(a: seq<string>, b: seq<string>)
    ensures Concat(a + b) == Concat(a) + Concat(b)
  {
    if b == [] {
      assert a + b == a;
    } else {
      var b' := b[..|b| - 1];
      assert (a + b)[..|a + b| - 1] == a + b';
      ConcatAppend(a, b');
    }
  }

  /** A fresh buffer flattens to the empty string. */
  lemma FreshConcat()
    ensures Concat([""]) == ""
  {
  }

  // ---------------------------------------------------------------------------
  // The wrapped-line cache

  /** True when every wrapped row is at most `w` characters wide. */
  predicate WithinWidth(ws: seq<CachedRow>, w: nat)
  {
    forall k :: 0 <= k < |ws| ==> |ws[k].text| <= w
  }

  /** The texts of the rows that come from logical line `i`, in order. */
  function TextOf(ws: seq<CachedRow>, i: nat): string
  {
    if ws == [] then "" else (if ws[0].source == i then ws[0].text else "") + TextOf(ws[1..], i)
  }

  /** `ws` is a wrapping of `ls`: every row names an existing line, rows come in
      line order, and the rows of each line spell out exactly that line. */
  predicate IsWrapOf(ws: seq<CachedRow>, ls: seq<string>)
  {
    && (forall k :: 0 <= k < |ws| ==> ws[k].source < |ls|)
    && (forall k :: 0 < k < |ws| ==> ws[k - 1].source <= ws[k].source)
    && (forall i :: 0 <= i < |ls| ==> TextOf(ws, i) == ls[i])
  }

  /** What `wrapLines(w)` leaves in the cache: rows at most `w` wide that, for a
      positive width, wrap the lines. */
  predicate WrappedAt(ws: seq<CachedRow>, ls: seq<string>, w: nat)
  {
    WithinWidth(ws, w) && (w > 0 ==> IsWrapOf(ws, ls))
  }

  lemma {:induction false} TextOfAppend(a: seq<CachedRow>, b: seq<CachedRow>, i: nat)
    ensures TextOf(a + b, i) == TextOf(a, i) + TextOf(b, i)
  {
    if a == [] {
      assert a + b == b;
    } else {
      assert (a + b)[1..] == a[1..] + b;
      TextOfAppend(a[1..], b, i);
    }
  }

  lemma {:induction false} TextOfAbsent(ws: seq<CachedRow>, i: nat)
    requires forall k :: 0 <= k < |ws| ==> ws[k].source != i
    ensures TextOf(ws, i) == ""
  {
    if ws != [] {
      TextOfAbsent(ws[1..], i);
    }
  }

  /** `l` cut into rows of `w` characters (the last one shorter), all tagged `i`.
      This is only one wrapping that meets the cache's contract. */
  function Chunks(i: nat, l: string, w: nat): (r: seq<CachedRow>)
    requires w > 0
    ensures |r| > 0 && WithinWidth(r, w)
    ensures forall k :: 0 <= k < |r| ==> r[k].source == i
    decreases |l|
  {
    if |l| <= w then [CachedRow(i, l)] else [CachedRow(i, l[..w])] + Chunks(i, l[w..], w)
  }

  lemma {:induction false} ChunksText(i: nat, l: string, w: nat)
    requires w > 0
    ensures TextOf(Chunks(i, l, w), i) == l
    decreases |l|
  {
    if |l| <= w {
    } else {
      var rest := Chunks(i, l[w..], w);
      assert Chunks(i, l, w)[1..] == rest;
      ChunksText(i, l[w..], w);
      assert l[..w] + l[w..] == l;
    }
  }

  // ---------------------------------------------------------------------------
  // Splitting a string on a separator

  /** `sep` occurs in `s` starting at index `j`. */
  predicate OccursAt(s: string, sep: string, j: nat)
  {
    j + |sep| <= |s| && s[j..j + |sep|] == sep
  }

  predicate Contains(s: string, sep: string)
  {
    exists j: nat :: j <= |s| && OccursAt(s, sep, j)
  }

  /** The first index at or after `from` where `sep` occurs in `s`, if any. */
  function FindFrom(s: string, sep: string, from: nat): (r: Option<nat>)
    ensures r.Some? ==> from <= r.value && OccursAt(s, sep, r.value)
    ensures r.Some? ==> forall j :: from <= j < r.value ==> !OccursAt(s, sep, j)
    ensures r.None? ==> forall j :: from <= j ==> !OccursAt(s, sep, j)
    decreases |s| - from
  {
    if from + |sep| > |s| then None
    else if s[from..from + |sep|] == sep then Some(from)
    else FindFrom(s, sep, from + 1)
  }

  /** The pieces joined back with `sep` between them. */
  function Join(ps: seq<string>, sep: string): string
  {
    if |ps| == 0 then "" else if |ps| == 1 then ps[0] else ps[0] + sep + Join(ps[1..], sep)
  }

  lemma PrefixBeforeFirst(s: string, sep: string, i: nat)
    requires |sep| > 0 && i <= |s|
    requires forall j :: 0 <= j < i ==> !OccursAt(s, sep, j)
    ensures !Contains(s[..i], sep)
  {
    forall j: nat | OccursAt(s[..i], sep, j) ensures false {
      assert s[..i][j..j + |sep|] == s[j..j + |sep|];
      assert OccursAt(s, sep, j);
    }
  }

  // ---------------------------------------------------------------------------

  class Buffer {
    /** The logical lines. */
    var lines: seq<string>
    /** The wrapped-line cache: one entry per display row. */
    var wrappedLines: seq<CachedRow>
    /** Declared with initial value false and written nowhere. */
    var bufferModified: bool

    /** A new buffer holds one empty line. */
    constructor ()
      ensures lines == [""] && wrappedLines == [] && !bufferModified
    {
      lines := [""];
      wrappedLines := [];
      bufferModified := false;
    }

    /** Inserts `line` so that it becomes line `pos`; later lines move up by one. */
    method InsertLine(line: string, pos: nat)
      requires pos <= |lines|
      modifies this`lines
      ensures lines == InsertAt(old(lines), pos, line)
    {
      lines := lines[..pos] + [line] + lines[pos..];
    }

    /** Inserts `ch` into line `line` before column `col`; no other line changes. */
    method AddChAt(line: nat, col: nat, ch: char)
      requires line < |lines| && col <= |lines[line]|
      modifies this`lines
      ensures lines == old(lines)[line := InsertChar(old(lines[line]), col, ch)]
    {
      lines := lines[line := lines[line][..col] + [ch] + lines[line][col..]];
    }

    /** Appends `ch` to the end of line `line`; no other line changes. */
    method AppendCh(line: nat, ch: char)
      requires line < |lines|
      modifies this`lines
      ensures lines == old(lines)[line := old(lines[line]) + [ch]]
    {
      lines := lines[line := lines[line] + [ch]];
    }

    /** Adds `line` after the last line. */
    method AppendLine(line: string)
      modifies this`lines
      ensures lines == old(lines) + [line]
      ensures lines == InsertAt(old(lines), |old(lines)|, line)
    {
      lines := lines + [line];
    }

    /** Takes out line `pos`; later lines move down by one. The buffer may become empty. */
    method RemoveLine(pos: nat)
      requires pos < |lines|
      modifies this`lines
      ensures lines == RemoveAt(old(lines), pos)
    {
      lines := lines[..pos] + lines[pos + 1..];
    }

    method GetBufferSize() returns (n: nat)
      ensures n == |lines|
    {
      n := |lines|;
    }

    /** A store through the reference the non-const `operator[]` returns:
        line `idx` becomes `s`, and it is the only line that changes. */
    method SetLine(idx: nat, s: string)
      requires idx < |lines|
      modifies this`lines
      ensures lines == old(lines)[idx := s]
      ensures |lines| == |old(lines)| && lines[idx] == s
      ensures forall i :: 0 <= i < |lines| && i != idx ==> lines[i] == old(lines[i])
    {
      lines := lines[idx := s];
    }

    /** `operator std::string`: every line written out in order. */
    method ToString() returns (s: string)
      ensures s == Concat(lines)
      ensures |s| == TotalLength(lines)
    {
      s := "";
      var i := 0;
      while i < |lines|
        invariant i <= |lines|
        invariant s == Concat(lines[..i])
      {
        assert lines[..i + 1][..i] == lines[..i];
        s := s + lines[i];
        i := i + 1;
      }
      assert lines[..i] == lines;
      ConcatLength(lines);
    }

    /** Rebuilds the cache for display width `w`: no row is wider than `w`, and for a
        positive `w` the rows wrap the lines. The lines themselves do not change. */
    method WrapLines(w: nat)
      modifies this`wrappedLines
      ensures WrappedAt(wrappedLines, lines, w)
    {
      if w == 0 {
        wrappedLines := [];
        return;
      }
      var ws: seq<CachedRow> := [];
      var i := 0;
      while i < |lines|
        invariant i <= |lines|
        invariant WithinWidth(ws, w)
        invariant forall k :: 0 <= k < |ws| ==> ws[k].source < i
        invariant forall k :: 0 < k < |ws| ==> ws[k - 1].source <= ws[k].source
        invariant forall j :: 0 <= j < i ==> TextOf(ws, j) == lines[j]
      {
        var c := Chunks(i, lines[i], w);
        forall j | 0 <= j <= i ensures TextOf(ws + c, j) == lines[j] {
          TextOfAppend(ws, c, j);
          if j == i {
            TextOfAbsent(ws, i);
            ChunksText(i, lines[i], w);
          } else {
            TextOfAbsent(c, j);
          }
        }
        ws := ws + c;
        i := i + 1;
      }
      wrappedLines := ws;
    }

    /** The number of rows in the cache, which it does not rebuild. */
    method GetWrappedLineCount() returns (n: nat)
      ensures n == |wrappedLines|
    {
      n := |wrappedLines|;
    }

    /** Row `idx` of the cache, which it does not rebuild. */
    method GetWrappedLineTuple(idx: nat) returns (t: CachedRow)
      requires idx < |wrappedLines|
      ensures t == wrappedLines[idx]
    {
      t := wrappedLines[idx];
    }

    /** `Buffer::split`: the pieces of `s` between occurrences of `sep`, scanning
        left to right. Joining them with `sep` gives `s` back, and no piece
        contains `sep`. */
    static function Split(s: string, sep: string): (r: seq<string>)
      requires |sep| > 0
      ensures |r| >= 1
      ensures Join(r, sep) == s
      ensures forall k :: 0 <= k < |r| ==> !Contains(r[k], sep)
      decreases |s|
    {
      match FindFrom(s, sep, 0)
      case None =>
        assert !Contains(s, sep);
        [s]
      case Some(i) =>
        PrefixBeforeFirst(s, sep, i);
        var rest := Split(s[i + |sep|..], sep);
        var r := [s[..i]] + rest;
        assert r[1..] == rest;
        assert s[..i] + sep + s[i + |sep|..] == s by {
          assert s[i..i + |sep|] == sep;
        }
        r
    }
  }

  /** With a one-character separator, the search stops at the first index `i`
      holding it, or finds nothing when `i` is the end of `s`. */
  lemma {:induction false} FindCharFrom(s: string, c: char, from: nat, i: nat)
    requires from <= i <= |s|
    requires forall k :: from <= k < i ==> s[k] != c
    requires i == |s| || s[i] == c
    ensures FindFrom(s, [c], from) == if i == |s| then None else Some(i)
    decreases i - from
  {
    if from < i {
      assert s[from..from + 1] == [s[from]];
      FindCharFrom(s, c, from + 1, i);
    } else if i < |s| {
      assert s[i..i + 1] == [c];
    }
  }

  /** With a one-character separator, splitting undoes joining pieces that do
      not contain the separator. */
  lemma {:induction false} SplitJoin(ps: seq<string>, c: char)
    requires |ps| >= 1
    requires forall k :: 0 <= k < |ps| ==> c !in ps[k]
    ensures Buffer.Split(Join(ps, [c]), [c]) == ps
  {
    var p := ps[0];
    if |ps| == 1 {
      FindCharFrom(p, c, 0, |p|);
    } else {
      var rest := Join(ps[1..], [c]);
      var s := p + [c] + rest;
      assert Join(ps, [c]) == s;
      FindCharFrom(s, c, 0, |p|);
      assert s[..|p|] == p && s[|p| + 1..] == rest;
      SplitJoin(ps[1..], c);
      assert ps == [p] + ps[1..];
    }
  }

  /** The one case the buffer test checks. */
  lemma SplitExample()
    ensures Buffer.Split("Labore sit deserunt non nisi", " ")
         == ["Labore", "sit", "deserunt", "non", "nisi"]
  {
    assert Join(["Labore", "sit", "deserunt", "non", "nisi"], " ")
        == "Labore sit deserunt non nisi";
    assert forall k :: 0 <= k < 5 ==> ' ' !in ["Labore", "sit", "deserunt", "non", "nisi"][k];
    SplitJoin(["Labore", "sit", "deserunt", "non", "nisi"], ' ');
  }
}
