/** The `MaxWidth` cell option of the plain (no escape sequences) build: it
    limits a cell's text to a number of code points, either by truncating it
    and appending a suffix or by hard-wrapping it into lines of that many
    code points. Text is a sequence of Unicode scalar values; width counts
    code points, not terminal columns. */
module Width {
  import opened Utf8
  import opened Grids
  import opened Arith

  datatype Option<T> = None | Some(value: T)

  /** What the option does with a cell that is too wide. */
  datatype Mode = Truncate(suffix: string) | Wrap

  /** A width limit together with the way it is enforced. */
  datatype MaxWidth = MaxWidth(width: nat, mode: Mode)
  {
    /** The text `change_cell` hands to the grid for a cell holding `content`,
        or None when it leaves the cell alone: a truncating option rewrites
        exactly the cells with more than `width` code points, a wrapping one
        exactly the cells in which it inserts at least one line break. */
    function Written(content: string): Option<string>
      requires mode.Wrap? ==> width > 0 || |content| < 2
    {
      match mode
      case Truncate(suffix) =>
        if |content| > width then Some(Strip(content, width) + suffix) else None
      case Wrap =>
        if width > 0 && |content| > width then Some(Split(content, width)) else None
    }

    /** The text of a cell holding `content` once the option has been applied. */
    function After(content: string): string
      requires mode.Wrap? ==> width > 0 || |content| < 2
    {
      match Written(content)
      case Some(text) => text
      case None => content
    }

    /** Applies the option to cell (row, column) of `grid`: the cell ends up
        holding `After` of its old text, and no other cell changes. As in
        tabled's `change_cell`, the decision to write is taken by comparing
        the byte lengths of the old and the new text (`WriteDecision`). */
    method ChangeCell(grid: Grid, row: nat, column: nat)
      requires row < grid.cells.Length0 && column < grid.cells.Length1
      requires mode.Wrap? ==> width > 0 || |grid.cells[row, column]| < 2
      modifies grid.cells
      ensures grid.cells[row, column] == After(old(grid.cells[row, column]))
      ensures forall i, j :: 0 <= i < grid.cells.Length0 && 0 <= j < grid.cells.Length1 && (i != row || j != column)
                ==> grid.cells[i, j] == old(grid.cells[i, j])
    {
      var content := grid.Content(row, column);
      match mode {
        case Truncate(filler) =>
          var stripped := Strip(content, width);
          StripShortensIff(content, width);
          if Utf8Len(stripped) < Utf8Len(content) {
            grid.Set(row, column, stripped + filler);
          }
        case Wrap =>
          var wrapped := Split(content, width);
          WrapChangesBytesIff(content, width);
          if Utf8Len(wrapped) != Utf8Len(content) {
            grid.Set(row, column, wrapped);
          }
      }
    }
  }

  /** `MaxWidth::truncating`: cut to `width` code points and append `suffix`. */
  function Truncating(width: nat, suffix: string): (m: MaxWidth)
    ensures m.width == width && m.mode == Truncate(suffix)
  {
    MaxWidth(width, Truncate(suffix))
  }

  /** `MaxWidth::wrapping`: break into lines of `width` code points. */
  function Wrapping(width: nat): (m: MaxWidth)
    ensures m.width == width && m.mode == Wrap
  {
    MaxWidth(width, Wrap)
  }

  function Min(a: nat, b: nat): nat
  {
    if a < b then a else b
  }

  // ---------------------------------------------------------------------------
  // Truncation

  /** The first `width` code points of `s` (`s.chars().take(width)`): the
      prefix of `s` of length min(width, |s|), all of `s` when it is short
      enough, nothing when the width is zero. */
  function Strip(s: string, width: nat): (r: string)
    ensures |r| == Min(width, |s|)
    ensures r == s[..|r|]
    ensures |s| <= width ==> r == s
    ensures width == 0 ==> r == []
  {
    if width == 0 || s == [] then []
    else [s[0]] + Strip(s[1..], width - 1)
  }

  /** Stripping drops bytes exactly when it drops code points: the stripped
      text is shorter in bytes than the original iff the original has more
      than `width` code points. */
  lemma StripShortensIff(s: string, width: nat)
    ensures Utf8Len(Strip(s, width)) < Utf8Len(s) <==> |s| > width
  {
    var p := Strip(s, width);
    assert s == p + s[|p|..];
    Utf8LenAppend(p, s[|p|..]);
  }

  /** Stripping a text whose first `width` code points are `p` gives back `p`:
      this is why truncating an already truncated cell writes the same text. */
  lemma StripOfPrefix(p: string, rest: string, width: nat)
    requires |p| == width
    ensures Strip(p + rest, width) == p
  {
    var r := Strip(p + rest, width);
    assert r == (p + rest)[..width];
  }

  // ---------------------------------------------------------------------------
  // Byte offsets

  /** Byte length of the first `width` code points of `s`
      (`s.chars().take(width).map(len_utf8).sum()`): the UTF-8 length of
      `Strip(s, width)`, never more than the whole text, all of it once the
      width covers the text, and between one and four bytes per code point
      taken. */
  function ToByteLength(s: string, width: nat): (n: nat)
    ensures n == Utf8Len(Strip(s, width))
    ensures n <= Utf8Len(s)
    ensures width >= |s| ==> n == Utf8Len(s)
    ensures Min(width, |s|) <= n <= 4 * Min(width, |s|)
  {
    if width == 0 || s == [] then 0
    else
      assert [s[0]] + Strip(s[1..], width - 1) == Strip(s, width);
      Utf8LenAppend([s[0]], Strip(s[1..], width - 1));
      LenUtf8(s[0]) + ToByteLength(s[1..], width - 1)
  }

  /** Taking more code points never takes fewer bytes. */
  lemma ToByteLengthMonotone(s: string, w1: nat, w2: nat)
    requires w1 <= w2
    ensures ToByteLength(s, w1) <= ToByteLength(s, w2)
  {
    var p1, p2 := Strip(s, w1), Strip(s, w2);
    assert p2 == p1 + p2[|p1|..];
    Utf8LenAppend(p1, p2[|p1|..]);
  }

  // ---------------------------------------------------------------------------
  // Wrapping

  /** Whether `split` puts a line break in front of the code point at index
      `i`: every index that is a non-zero multiple of the width. The modulo is
      only evaluated for i != 0, so a zero width is harmless at index 0. */
  predicate BreaksBefore(i: nat, width: nat)
    requires width > 0 || i == 0
  {
    i != 0 && i % width == 0
  }

  /** `split` over the code points of `s`, numbered from `i` on: each one is
      emitted, preceded by a line break where `BreaksBefore` says so. */
  function SplitFrom(s: string, width: nat, i: nat): string
    requires width > 0 || |s| == 0 || (i == 0 && |s| == 1)
  {
    if s == [] then []
    else (if BreaksBefore(i, width) then "\n" else "") + [s[0]] + SplitFrom(s[1..], width, i + 1)
  }

  /** `split(s, width)`: a line break in front of every code point whose index
      is a non-zero multiple of `width`. A zero width divides by zero as soon
      as there is a second code point, so it is admitted only for texts of at
      most one code point. */
  function Split(s: string, width: nat): string
    requires width > 0 || |s| < 2
  {
    SplitFrom(s, width, 0)
  }

  /** Reference definition of wrapping: the text cut into lines of `width`
      code points, the last one holding what remains (the whole text when it
      fits; a single empty line for the empty text). This is not the `color`
      build's `chunks`, which yields no line at all for the empty text. */
  function Lines(s: string, width: nat): (lines: seq<string>)
    requires width > 0
    ensures |lines| >= 1
    ensures forall k :: 0 <= k < |lines| - 1 ==> |lines[k]| == width
    ensures s != [] ==> 1 <= |lines[|lines| - 1]| <= width
    ensures Concat(lines) == s
    decreases |s|
  {
    if |s| <= width then [s]
    else
      var rest := Lines(s[width..], width);
      assert ([s[..width]] + rest)[1..] == rest;
      assert s == s[..width] + s[width..];
      [s[..width]] + rest
  }

  /** The lines laid end to end. */
  function Concat(lines: seq<string>): string
  {
    if lines == [] then [] else lines[0] + Concat(lines[1..])
  }

  /** The lines joined by single line breaks, none before the first or after
      the last (`join("\n")`). */
  function JoinLines(lines: seq<string>): string
  {
    if lines == [] then []
    else if |lines| == 1 then lines[0]
    else lines[0] + "\n" + JoinLines(lines[1..])
  }

  /** Number of occurrences of `c` in `s`. */
  function Occurrences(c: char, s: string): nat
  {
    if s == [] then 0 else (if s[0] == c then 1 else 0) + Occurrences(c, s[1..])
  }

  lemma {:induction false} OccurrencesAppend(c: char, a: string, b: string)
    ensures Occurrences(c, a + b) == Occurrences(c, a) + Occurrences(c, b)
  {
    if a == [] {
      assert a + b == b;
    } else {
      assert (a + b)[1..] == a[1..] + b;
      OccurrencesAppend(c, a[1..], b);
    }
  }

  lemma {:induction false} SplitFromAppend(a: string, b: string, width: nat, i: nat)
    requires width > 0
    ensures SplitFrom(a + b, width, i) == SplitFrom(a, width, i) + SplitFrom(b, width, i + |a|)
  {
    if a == [] {
      assert a + b == b;
    } else {
      assert (a + b)[1..] == a[1..] + b;
      SplitFromAppend(a[1..], b, width, i + 1);
    }
  }

  /** Break positions repeat with period `width` away from index 0. */
  lemma {:induction false} SplitFromShift(t: string, width: nat, i: nat)
    requires width > 0 && i > 0
    ensures SplitFrom(t, width, i + width) == SplitFrom(t, width, i)
  {
    if t != [] {
      DivStep(i, width);
      SplitFromShift(t[1..], width, i + 1);
    }
  }

  /** No break falls before any index of the first line. */
  lemma {:induction false} SplitFromFirstLine(t: string, width: nat, i: nat)
    requires width > 0 && i + |t| <= width
    ensures SplitFrom(t, width, i) == t
  {
    if t != [] {
      DivSmall(i, width);
      SplitFromFirstLine(t[1..], width, i + 1);
      assert [t[0]] + t[1..] == t;
    }
  }

  /** A text that fits within the width is not wrapped (nor is any text of at
      most one code point under width zero). */
  lemma SplitShort(s: string, width: nat)
    requires |s| <= width || (width == 0 && |s| < 2)
    ensures Split(s, width) == s
  {
    if width > 0 {
      SplitFromFirstLine(s, width, 0);
    } else if s != [] {
      assert SplitFrom(s[1..], width, 1) == [];
      assert SplitFrom(s, width, 0) == [s[0]] + SplitFrom(s[1..], width, 1);
    }
  }

  /** A text longer than the width wraps to its first line, a line break,
      and the wrapping of the rest. */
  lemma SplitUnfold(s: string, width: nat)
    requires 0 < width < |s|
    ensures Split(s, width) == s[..width] + "\n" + Split(s[width..], width)
  {
    var t := s[width..];
    assert s == s[..width] + t;
    SplitFromAppend(s[..width], t, width, 0);
    SplitFromFirstLine(s[..width], width, 0);
    assert BreaksBefore(width, width);
    SplitFromShift(t[1..], width, 1);
    assert SplitFrom(t, width, width) == "\n" + [t[0]] + SplitFrom(t[1..], width, 1);
    assert SplitFrom(t, width, 0) == [t[0]] + SplitFrom(t[1..], width, 1);
  }

  /** Wrapping is the text cut into `width`-sized lines joined by line breaks. */
  lemma {:induction false} SplitJoinsLines(s: string, width: nat)
    requires width > 0
    ensures Split(s, width) == JoinLines(Lines(s, width))
    decreases |s|
  {
    if |s| <= width {
      SplitShort(s, width);
    } else {
      SplitUnfold(s, width);
      SplitJoinsLines(s[width..], width);
      var rest := Lines(s[width..], width);
      assert ([s[..width]] + rest)[1..] == rest;
    }
  }

  /** Number of lines: one, plus one per `width` code points after the first. */
  lemma {:induction false} LinesCount(s: string, width: nat)
    requires width > 0 && s != []
    ensures |Lines(s, width)| == (|s| - 1) / width + 1
    decreases |s|
  {
    var x: nat := |s| - 1;
    if |s| > width {
      var tail := s[width..];
      var y: nat := |tail| - 1;
      LinesCount(tail, width);
      assert |Lines(s, width)| == 1 + |Lines(tail, width)|;
      assert |Lines(tail, width)| == y / width + 1;
      DivStep(y, width);
      assert y + width == x;
    } else {
      DivSmall(x, width);
    }
  }

  /** Wrapping a text of n > 0 code points inserts exactly (n - 1) / width
      line breaks: its length, its count of line breaks and its byte length
      each grow by that much. */
  lemma {:induction false} SplitInsertsBreaks(s: string, width: nat)
    requires width > 0 && s != []
    ensures |Split(s, width)| == |s| + (|s| - 1) / width
    ensures Occurrences('\n', Split(s, width)) == Occurrences('\n', s) + (|s| - 1) / width
    ensures Utf8Len(Split(s, width)) == Utf8Len(s) + (|s| - 1) / width
    decreases |s|
  {
    if |s| <= width {
      SplitShort(s, width);
      DivSmall(|s| - 1, width);
    } else {
      var head, tail := s[..width], s[width..];
      SplitUnfold(s, width);
      SplitInsertsBreaks(tail, width);
      var x := |s| - width - 1;
      DivStep(x, width);
      assert x + width == |s| - 1;
      assert s == head + tail;
      OccurrencesAppend('\n', head, tail);
      OccurrencesAppend('\n', head + "\n", Split(tail, width));
      OccurrencesAppend('\n', head, "\n");
      Utf8LenAppend(head, tail);
      Utf8LenAppend(head + "\n", Split(tail, width));
      Utf8LenAppend(head, "\n");
    }
  }

  /** Wrapping never adds a break before the first or after the last code
      point: the wrapped text starts and ends like the original. */
  lemma {:induction false} SplitKeepsEnds(s: string, width: nat)
    requires width > 0 && s != []
    ensures |Split(s, width)| >= |s|
    ensures Split(s, width)[0] == s[0]
    ensures Split(s, width)[|Split(s, width)| - 1] == s[|s| - 1]
    decreases |s|
  {
    if |s| <= width {
      SplitShort(s, width);
    } else {
      SplitUnfold(s, width);
      SplitKeepsEnds(s[width..], width);
    }
  }

  /** Wrapping leaves a text unchanged exactly when it fits within the width
      (or the width is zero), and likewise for its byte length: so comparing
      byte lengths detects exactly the wraps that inserted a break. */
  lemma {:induction false} WrapChangesBytesIff(s: string, width: nat)
    requires width > 0 || |s| < 2
    ensures Split(s, width) == s <==> width == 0 || |s| <= width
    ensures Utf8Len(Split(s, width)) != Utf8Len(s) <==> width > 0 && |s| > width
  {
    if width == 0 || |s| <= width {
      SplitShort(s, width);
    } else {
      var y: nat := |s| - 1 - width;
      SplitInsertsBreaks(s, width);
      DivStep(y, width);
      var breaks := (|s| - 1) / width;
      assert breaks == y / width + 1;
      assert |Split(s, width)| == |s| + breaks;
      assert Utf8Len(Split(s, width)) == Utf8Len(s) + breaks;
    }
  }

  // ---------------------------------------------------------------------------
  // The option applied to one cell

  /** A truncating option cuts exactly the cells longer than its width, to
      their first `width` code points followed by the suffix; shorter cells
      keep their text. */
  lemma TruncateAfter(m: MaxWidth, content: string)
    requires m.mode.Truncate?
    ensures |content| <= m.width ==> m.After(content) == content
    ensures |content| > m.width ==>
              m.After(content) == content[..m.width] + m.mode.suffix &&
              m.After(content)[..m.width] == content[..m.width] &&
              m.After(content)[m.width..] == m.mode.suffix
  {
  }

  /** Applying a truncating option a second time leaves the cell text as the
      first application left it. */
  lemma TruncateIdempotent(m: MaxWidth, content: string)
    requires m.mode.Truncate?
    ensures m.After(m.After(content)) == m.After(content)
  {
    if |content| > m.width {
      var p := Strip(content, m.width);
      StripOfPrefix(p, m.mode.suffix, m.width);
    }
  }

  /** The byte-length tests of `change_cell` decide exactly when `Written`
      has a text: a truncating option writes iff the stripped text is shorter
      in bytes than the cell, a wrapping one iff the wrapped text's byte
      length differs from the cell's. */
  lemma WriteDecision(m: MaxWidth, content: string)
    requires m.mode.Wrap? ==> m.width > 0 || |content| < 2
    ensures m.mode.Truncate? ==>
              (m.Written(content).Some? <==> Utf8Len(Strip(content, m.width)) < Utf8Len(content))
    ensures m.mode.Wrap? ==>
              (m.Written(content).Some? <==> Utf8Len(Split(content, m.width)) != Utf8Len(content))
  {
    StripShortensIff(content, m.width);
    if m.mode.Wrap? {
      WrapChangesBytesIff(content, m.width);
    }
  }

  /** A wrapping option leaves every cell holding its wrapped text. */
  lemma WrapAfter(m: MaxWidth, content: string)
    requires m.mode.Wrap? && (m.width > 0 || |content| < 2)
    ensures m.After(content) == Split(content, m.width)
  {
    WrapChangesBytesIff(content, m.width);
  }
}
