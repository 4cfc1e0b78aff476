/** Concrete scenarios of the `MaxWidth` option: the table of its doc comment
    and a few single-cell cases. */
module WidthExamples {
  import opened Width
  import opened Grids

  /** The doc-comment table: three one-column rows, every cell truncated to
      five code points with "..." appended. Applying the same option a second
      time leaves every cell as the first pass left it. */
  method TruncateDocTable() returns (first: seq<string>, second: seq<string>)
    ensures first == ["12345...", "qwert...", "[[[[[..."]
    ensures second == first
  {
    var grid := new Grid(3, 1);
    grid.Set(0, 0, "123456789");
    grid.Set(1, 0, "qwertyuiop[]");
    grid.Set(2, 0, "[[[[[[[[[[[[[[[[[");

    // The option applied to every cell of the table, one cell at a time.
    TruncateCell(grid, 0, "123456789", "12345...");
    TruncateCell(grid, 1, "qwertyuiop[]", "qwert...");
    TruncateCell(grid, 2, "[[[[[[[[[[[[[[[[[", "[[[[[...");
    first := [grid.cells[0, 0], grid.cells[1, 0], grid.cells[2, 0]];

    TruncateCell(grid, 0, "12345...", "12345...");
    TruncateCell(grid, 1, "qwert...", "qwert...");
    TruncateCell(grid, 2, "[[[[[...", "[[[[[...");
    second := [grid.cells[0, 0], grid.cells[1, 0], grid.cells[2, 0]];
  }

  /** Applies `MaxWidth::truncating(5, "...")` to cell (row, 0), which holds
      `content`, a text of more than five code points: the cell then holds
      its first five code points and "...", and no other cell changes. */
  method TruncateCell(grid: Grid, row: nat, content: string, expected: string)
    requires row < grid.cells.Length0 && 0 < grid.cells.Length1
    requires grid.cells[row, 0] == content
    requires |content| > 5 && expected == content[..5] + "..."
    modifies grid.cells
    ensures grid.cells[row, 0] == expected
    ensures forall i, j :: 0 <= i < grid.cells.Length0 && 0 <= j < grid.cells.Length1 && (i != row || j != 0)
              ==> grid.cells[i, j] == old(grid.cells[i, j])
  {
    var option := Truncating(5, "...");
    TruncateAfter(option, content);
    option.ChangeCell(grid, row, 0);
  }

  /** Truncating "Hello World!!!" to five code points gives "Hello..."; a
      text that already fits, "Hi", is left alone and gets no suffix. */
  lemma TruncateHello()
    ensures Truncating(5, "...").After("Hello World!!!") == "Hello..."
    ensures Truncating(5, "...").After("Hi") == "Hi"
  {
    TruncateAfter(Truncating(5, "..."), "Hello World!!!");
    TruncateAfter(Truncating(5, "..."), "Hi");
  }

  /** Wrapping "123456789" to five code points gives two lines. */
  lemma WrapDigits()
    ensures Wrapping(5).After("123456789") == "12345\n6789"
  {
    var s := "123456789";
    assert s[..5] == "12345" && s[5..] == "6789";
    WrapTwoLines(Wrapping(5), s);
  }

  /** A text longer than the width but at most twice as long wraps into two
      lines: the first `width` code points and the rest. */
  lemma WrapTwoLines(m: MaxWidth, s: string)
    requires m.mode.Wrap? && 0 < m.width < |s| <= 2 * m.width
    ensures m.After(s) == s[..m.width] + "\n" + s[m.width..]
  {
    WrapAfter(m, s);
    SplitUnfold(s, m.width);
    SplitShort(s[m.width..], m.width);
  }

  /** Wrapping is not idempotent: a line break already in the text counts as
      a code point, so wrapping "abc" to two code points and wrapping the
      result again inserts a second break. */
  lemma WrapNotIdempotent()
    ensures Wrapping(2).After(Wrapping(2).After("abc")) != Wrapping(2).After("abc")
  {
    var once := Split("abc", 2);
    WrapAfter(Wrapping(2), "abc");
    SplitInsertsBreaks("abc", 2);
    assert |once| == 4;
    WrapAfter(Wrapping(2), once);
    SplitInsertsBreaks(once, 2);
  }
}
