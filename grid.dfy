/** The cell store a width option works on: a rectangular grid of cell
    texts addressed by (row, column), offering only the two accessors the
    option uses, reading one cell's text and overwriting it. */
module Grids {

  class Grid {
    /** Row-major cell texts; `cells[row, column]` is the text of that cell. */
    const cells: array2<string>

    /** A grid of `rows` by `columns` cells, every one empty. */
    constructor (rows: nat, columns: nat)
      ensures cells.Length0 == rows && cells.Length1 == columns
      ensures fresh(cells)
      ensures forall i, j :: 0 <= i < rows && 0 <= j < columns ==> cells[i, j] == ""
    {
      cells := new string[rows, columns]((i, j) => "");
    }

    /** The text of cell (row, column); indexing outside the grid is an error. */
    function Content(row: nat, column: nat): (text: string)
      requires row < cells.Length0 && column < cells.Length1
      reads cells
      ensures text == cells[row, column]
    {
      cells[row, column]
    }

    /** Overwrites the text of cell (row, column) and of no other cell. */
    method Set(row: nat, column: nat, text: string)
      requires row < cells.Length0 && column < cells.Length1
      modifies cells
      ensures cells[row, column] == text
      ensures forall i, j :: 0 <= i < cells.Length0 && 0 <= j < cells.Length1 && (i != row || j != column)
                ==> cells[i, j] == old(cells[i, j])
    {
      cells[row, column] := text;
    }
  }
}
