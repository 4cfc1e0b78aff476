# MaxWidth: width-limiting cell option of a table renderer

This project models, in Dafny, the `MaxWidth` cell option of the `tabled`
table-rendering library (`src/width.rs`), in its plain build, the one without
the `color` feature. The option limits a cell's text to `width` code points in
one of two ways:

- **truncating** (`MaxWidth::truncating(width, suffix)`): keep the first
  `width` code points and append the suffix;
- **wrapping** (`MaxWidth::wrapping(width)`): put a line break in front of
  every code point whose index is a non-zero multiple of `width`.

`change_cell` reads one cell of the grid, computes the new text, and writes
it back only when the byte length shows that something changed.

Text is `string` (a sequence of Unicode scalar values). Width counts code
points, not terminal columns. Byte lengths are those of UTF-8, which is how
Rust stores a `String`.

Files and modules:

- `utf8.dfy` (`Utf8`): `len_utf8` of a code point and the byte length of a text.
- `grid.dfy` (`Grids`): the grid the option works on. It is a class over an
  `array2<string>` with the two accessors the option uses: read a cell's text
  and overwrite one cell.
- `arith.dfy` (`Arith`): facts about division by a positive width, proved
  from linear steps.
- `width.dfy` (`Width`): the option (`MaxWidth`, `Mode`, the constructors),
  `strip`, `split`, `to_byte_length`, `change_cell`, and the lemmas about them.
  - `Written` is the text `change_cell` hands to the grid, or `None` when it
    does not write.
  - `After` is the cell's text afterwards.
  - `Lines`/`JoinLines`/`Concat` are an independent reference definition of
    wrapping: fixed-size lines joined by line breaks. `Lines` is not the
    `color` build's `chunks`; for the empty text it gives one empty line.
- `width_examples.dfy` (`WidthExamples`): the table from the doc comment and
  a few single-cell cases.

Behaviour of the code worth knowing:

- **Wrapping to width 0.** In the plain build, `split` computes `i % width`
  for every index `i != 0` (src/width.rs:99), so a zero width divides by zero
  as soon as the text has a second code point. Only the `color` build returns
  the text unchanged for width 0 (src/width.rs:111-112). `Split` and
  `ChangeCell` therefore admit width 0 only for texts of at most one code
  point, and then the text is left unchanged.
- **When a write happens.** `change_cell` compares byte lengths: `<` for
  truncation, `!=` for wrapping (src/width.rs:60, 70). `ChangeCell` uses
  exactly those comparisons. `WriteDecision` proves that they fire exactly
  when `Written` has a text, that is, when the text has more than `width`
  code points (and, for wrapping, the width is non-zero). So in the plain
  build no needed write is ever skipped.
- **Truncation idempotence.** Truncation is idempotent on the cell text for
  every input and every suffix, the empty one included (`TruncateIdempotent`).
- **Wrapping is not idempotent.** A line break already in the text counts as an
  ordinary code point (`WrapNotIdempotent`).

## Model

| member | source | states |
|---|---|---|
| `Utf8.LenUtf8` | src/width.rs:121 | a code point takes 1 to 4 bytes in UTF-8: exactly 1 iff it is ASCII, exactly 4 iff it is above U+FFFF |
| `Utf8.Utf8Len` | src/width.rs:60 | a `String`'s byte length lies between its code-point count and four times that |
| `Utf8.Utf8LenAppend` | src/width.rs:61 | the byte length of a concatenation is the sum of the byte lengths |
| `Grids.Grid.Set` | src/width.rs:62-65 | overwriting a cell sets its text and leaves every other cell unchanged |
| `Width.Truncating` | src/width.rs:37-42 | the truncating option stores the width and the suffix unchanged |
| `Width.Wrapping` | src/width.rs:46-51 | the wrapping option stores the width unchanged and selects wrapping |
| `Width.MaxWidth.ChangeCell` | src/width.rs:55-78 | after the call the cell holds `After` of its old text and no other cell changes. The decision is taken by the Rust code's byte-length comparisons, which are proved to fire exactly when a cut or a break happens |
| `Width.Strip` | src/width.rs:81-85 | the result is the prefix of the text of length min(width, length); it is the whole text when the text fits and empty at width 0 |
| `Width.StripShortensIff` | src/width.rs:59-60 | the stripped text is shorter in bytes than the original iff the original has more than `width` code points |
| `Width.StripOfPrefix` | src/width.rs:59-61 | stripping `p ++ rest` to as many code points as `p` has gives back `p` |
| `Width.ToByteLength` | src/width.rs:120-122 | equals the byte length of the first min(width, length) code points; at most the whole text's byte length and equal to it once width >= length; between 1 and 4 bytes per code point taken |
| `Width.ToByteLengthMonotone` | src/width.rs:120-122 | taking more code points never gives fewer bytes |
| `Width.Lines` | src/width.rs:93-108 | reference wrapping. There is at least one line. Every line but the last has exactly `width` code points. For a non-empty text the last has 1..`width`. The lines laid end to end give back the text |
| `Width.SplitFromShift` | src/width.rs:99 | break positions repeat with period `width` away from index 0 |
| `Width.SplitFromFirstLine` | src/width.rs:99 | no break is inserted before indices 0..width-1 |
| `Width.SplitShort` | src/width.rs:96-107 | a text of at most `width` code points is not changed by `split`, and neither is a text of at most one code point at width 0 |
| `Width.SplitUnfold` | src/width.rs:96-107 | a longer text splits into its first `width` code points, a line break, and the split of the rest |
| `Width.SplitJoinsLines` | src/width.rs:93-108 | `split` equals the text cut into `width`-sized lines (`Lines`) joined by single line breaks. With `Lines`' contract, removing the inserted breaks gives back the text |
| `Width.LinesCount` | src/width.rs:99 | a non-empty text of n code points wraps into (n-1)/width + 1 lines |
| `Width.SplitInsertsBreaks` | src/width.rs:99-105 | wrapping n > 0 code points adds exactly (n-1)/width to the length, to the number of line breaks and to the byte length |
| `Width.SplitKeepsEnds` | src/width.rs:99 | the wrapped text starts and ends with the original's first and last code points: no leading or trailing break is inserted |
| `Width.WrapChangesBytesIff` | src/width.rs:69-70 | `split` leaves the text unchanged iff width is 0 or the text fits. Its byte length differs from the original's iff width > 0 and the text is longer than width |
| `Width.TruncateAfter` | src/width.rs:58-67 | truncation leaves a fitting cell unchanged. Otherwise the cell becomes its first `width` code points followed by exactly the suffix |
| `Width.TruncateIdempotent` | src/width.rs:58-67 | applying a truncating option twice leaves the same text as applying it once |
| `Width.WriteDecision` | src/width.rs:58-76 | `change_cell`'s byte-length tests (`<` for truncation, `!=` for wrapping) hold exactly when `Written` gives a text to write |
| `Width.WrapAfter` | src/width.rs:68-76 | after a wrapping option a cell holds `split` of its old text |
| `WidthExamples.TruncateDocTable` | src/width.rs:11-19 | the doc-comment table truncated with width 5 and "..." holds "12345...", "qwert...", "[[[[[..."; a second pass leaves it unchanged |
| `WidthExamples.TruncateCell` | src/width.rs:55-67 | truncating a cell of more than five code points to 5 with "..." writes its first five code points and "..."; other cells are untouched |
| `WidthExamples.TruncateHello` | src/width.rs:58-67 | "Hello World!!!" truncates to "Hello..."; "Hi" is left as it is, without the suffix |
| `WidthExamples.WrapDigits` | src/width.rs:93-108 | "123456789" wrapped to 5 is "12345\n6789" |
| `WidthExamples.WrapTwoLines` | src/width.rs:96-107 | a text longer than the width but at most twice as long wraps to its first `width` code points, one line break, and the rest |
| `WidthExamples.WrapNotIdempotent` | src/width.rs:99 | wrapping "abc" to 2 and wrapping the result again gives a different text |

## Left out

- The `color` build's `strip`, `split` and `chunks` (src/width.rs:86-90, 109-116, 124-138): they delegate to the `ansi_str` crate (`ansi_cut`, `ansi_split_at`), which is not part of this model. `to_byte_length`, which only that build compiles, is modelled because it depends on nothing else.
- The `papergrid` types `Grid`, `Entity` and `Settings`: `Grids.Grid` stands in for them. It offers only a read of one cell's text and an overwrite of one cell. Entity addressing and settings other than text are not modelled.
- Applying an option to a row, a column or the whole table (`Modify`, address resolution): not part of `src/width.rs`. The doc-table example applies the option cell by cell.
- Percentage widening (`Width::increase(Percent(..))`) and the `Width::truncate(..).suffix` / `Width::wrap` builders used in examples/table_width.rs: their code is not part of this model. The example's printing is I/O.
- Display width of wide (East Asian) characters, rendering, borders and alignment: the option counts code points only.
- `usize` limits: widths, indices and byte sums are unbounded naturals. The Rust code cannot overflow them for texts that fit in memory.
- The panic of `split` at width 0 is not modelled as a value: `Split` and `ChangeCell` require width > 0 or a text of at most one code point, which is exactly the set of inputs on which the Rust code does not divide by zero.
