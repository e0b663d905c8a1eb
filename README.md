# Oligonucleotide alignment layout, modelled in Dafny

The oligoDashboard tool draws a table of nucleotide rows as an alignment chart.
Each oligonucleotide (`compound_id`) gets its own horizontal row of markers,
one marker per nucleotide `position`. This project models the layout computation
of `oligoAlign` that comes before the chart encoding. It has three parts:

- **Row assignment.** Each distinct `compound_id` gets the vertical coordinate
  `i*1.2 + 0.5`, where `i` is its index in the enumeration of distinct
  identifiers. This is the registry dictionary. Its size is `maxHeight`.
- **Scale computation.** `maxWidth = max(position) - min(position)`.
  The canvas is `maxWidth*25 + 20` pixels wide and
  `maxHeight*25 + 10*maxHeight` pixels high.
- **Layout join.** The registry becomes a two-column table
  (`compound_id`, `y_coord`). The input is right-joined with it on
  `compound_id`, so every row gains its compound's `y_coord`.

Files:

- `table.dfy` (module `Table`): the input row, the set of identifiers, what it
  means to enumerate them, the per-compound selection used by the join, and one
  concrete enumeration (order of first appearance).
- `oligo_align.dfy` (module `OligoAlign`): the registry, the span and canvas
  arithmetic, the right join, and `Align`, the whole layout step.

Modelling choices:

- The distinct-value extraction does not fix an order. The enumeration is
  therefore a parameter `ids` of `Align`. It must satisfy `IsEnumeration`: no
  duplicates, and exactly the identifiers of the table. `FirstAppearance` is one
  such enumeration, so the precondition can be met for every table.
- Coordinates are exact rationals (`real`). Pixel sizes are integers.
- The right join produces a null-filled row for a registry key that no input row
  carries (`Unmatched`). `RightJoinPreservesRows` proves this never happens
  here.
- On an empty table the source fails at the span computation, because the
  maximum and minimum of an empty column are both null and cannot be
  subtracted. The source does not special-case an empty table; `Align`
  follows it and fails, returning `Failure(EmptyTable)` in exactly that case.

## Model

| member | source | states |
|---|---|---|
| `Table.FirstAppearance` | src/oligo_align.py:10 | the identifiers in order of first appearance form a valid enumeration: no duplicates, and exactly the table's `compound_id` values |
| `Table.EnumerationLength` | src/oligo_align.py:10-11 | any enumeration has exactly as many entries as there are distinct `compound_id` values |
| `Table.Select` | src/oligo_align.py:25 | the rows a registry key matches in the join are all the input rows with that `compound_id`, and only those |
| `Table.SelectExcludePartition` | src/oligo_align.py:25 | splitting the table into one compound's rows and all other rows neither loses nor duplicates a row (multiset equality) |
| `OligoAlign.YCoord` | src/oligo_align.py:10 | the coordinate of enumeration index `i` is at least 0.5, equals 0.5 only for the first index, and lies in the band `[0.5 + 1.2*i, 0.5 + 1.2*(i+1))` of its own index, so different indices never share a coordinate; `RegistryAt` and `RegistrySpacing` tie it to the registry |
| `OligoAlign.Registry` | src/oligo_align.py:10 | the registry's keys are exactly the enumerated identifiers |
| `OligoAlign.RegistryAt` | src/oligo_align.py:10 | the identifier at enumeration index `i` maps to `i*1.2 + 0.5` (first 0.5, second 1.7, and so on) |
| `OligoAlign.RegistrySize` | src/oligo_align.py:10-11 | the registry has one entry per enumerated identifier, so `maxHeight` is the number of distinct ids |
| `OligoAlign.RegistrySpacing` | src/oligo_align.py:10 | coordinates increase strictly with the enumeration index; consecutive ones differ by exactly 1.2; distinct ids never share a coordinate |
| `OligoAlign.RegistryTable` | src/oligo_align.py:20-23 | the two-column registry table has one entry per id, in enumeration order; entry `i` carries the coordinate of index `i`, which is the dictionary's value for that key |
| `OligoAlign.MaxPosition` | src/oligo_align.py:9 | the result is the position of some row, and no row has a larger position |
| `OligoAlign.MinPosition` | src/oligo_align.py:9 | the result is the position of some row, and no row has a smaller position |
| `OligoAlign.MaxWidth` | src/oligo_align.py:9 | the span is non-negative; it bounds the difference of any two positions and equals the difference of some pair; it is 0 exactly when all rows share one position |
| `OligoAlign.ChartWidth` | src/oligo_align.py:5-16 | for a non-negative span the width is at least 20; it exceeds 20 by a whole number of 25-pixel markers; it is exactly 20 iff the span is 0; `ChartWidthBounds` applies it to the table's span |
| `OligoAlign.ChartHeight` | src/oligo_align.py:14-17 | `maxHeight*25 + 10*maxHeight` is `35*maxHeight`, never negative, and 0 exactly when there are no compounds; `ChartHeightPerCompound` ties `maxHeight` to the distinct ids |
| `OligoAlign.ChartWidthBounds` | src/oligo_align.py:5-16 | the canvas width is at least 20; it exceeds 20 by a whole number of 25-pixel markers; it is exactly 20 when there is only one distinct position |
| `OligoAlign.ChartHeightPerCompound` | src/oligo_align.py:11-17 | the canvas height is 35 pixels (marker diameter 25 plus padding 10) per distinct `compound_id`, so it is never negative |
| `OligoAlign.JoinEntry` | src/oligo_align.py:25 | one registry entry yields at least one row, all with its key and coordinate; the input rows it carries are exactly that compound's rows; it yields a single null-filled row exactly when no input row has that key, and otherwise only matched rows, one per input row of that compound |
| `OligoAlign.RightJoin` | src/oligo_align.py:25 | the right join has at least one row per registry entry, and every output row carries the key and coordinate of some entry; `RightJoinKeepsEntries` and `RightJoinPreservesRows` state the rest |
| `OligoAlign.RightJoinKeepsEntries` | src/oligo_align.py:25 | a right join keeps every registry entry: each key appears in the output with its coordinate, whether or not an input row matches it |
| `OligoAlign.RightJoinPreservesRows` | src/oligo_align.py:25 | with unique keys that are exactly the table's ids, the join yields no null row; its input rows are the input table as a multiset; each row carries the entry of its own compound |
| `OligoAlign.JoinWithRegistry` | src/oligo_align.py:20-25 | joined with the registry, the output has as many rows as the input, every original field unchanged (multiset of rows), and each `y_coord` equals the registry value of its `compound_id`, which is `i*1.2 + 0.5` for its index `i` |
| `OligoAlign.Align` | src/oligo_align.py:4-25 | fails exactly on an empty table; otherwise the width is `(max - min)*25 + 20`, the height is 35 per distinct id, and the data holds every input row once, each at its compound's coordinate |
| `OligoAlign.AlignSizeIndependentOfOrder` | src/oligo_align.py:9-17 | the canvas size and the set of plotted rows are the same for every enumeration order of the distinct ids |
| `OligoAlign.TwoCompoundExample` | src/oligo_align.py:4-25 | three rows of `seq1`, `seq1`, `seq2`, enumerated as `seq1`, `seq2`, give coordinates 0.5, 0.5, 1.7 and a 45 by 70 canvas |

## Left out

- Chart encoding (src/oligo_align.py:27-65) is not modelled. It builds a declarative chart from two layers. The circle layer has size 500, a black stroke of width 2, colour by `base` from the `pastel1` scheme, and a dash pattern by `linker`. The text layer shows `base` in bold, font size 12. The chart has a white background and no view stroke. Colours and dash patterns are assigned by the charting library, whose code is not part of this model.
- The `align` argument is fixed to the `position` column, which is the only value app.py:73 passes. The text layer hard-codes `position` in any case (src/oligo_align.py:53).
- Floating point: coordinates are exact rationals, so rounding in `i*1.2 + 0.5` is not modelled.
- Integer widths: positions are Int64 values in the data frame and any integer in the model. The column maximum and minimum are read out as Python integers (src/oligo_align.py:9), so the span and canvas arithmetic is unbounded in both.
- Null cells: no column holds nulls in the model. Null-skipping in the column maximum and minimum is not modelled. A null `compound_id` would be one of the distinct values (src/oligo_align.py:10), but the right join (src/oligo_align.py:25) does not match null keys, so the rows with a null `compound_id` would be dropped and one null-filled row would appear in their place. Row preservation (`RightJoinPreservesRows`, `JoinWithRegistry`, `Align`) therefore holds only for input without null identifiers.
- Order of the enumeration: the distinct-value extraction has no fixed order, so the order is an input. `FirstAppearance` is one admissible order, not a claim about the library's order.
- Order of the joined rows: the library does not guarantee the row order of a join. `RightJoin` lists the rows registry entry by registry entry, and each entry's rows in table order. The headline contracts (`RightJoinPreservesRows`, `JoinWithRegistry`, `Align`, `AlignSizeIndependentOfOrder`) speak only of multisets and per-row facts. `JoinEntry`, `RightJoinExclude` and the worked examples `ExampleJoin` and `TwoCompoundExample` fix the model's own order, which the library need not produce.
- app.py as a whole is not modelled: page setup, widgets, file upload and CSV reading, error display, and the "Sequences Aligned" metric. The required-column check (app.py:63-64) is assumed: `Row` always has all six columns.
- Extra input columns: `Row` has exactly the six required columns. Columns beyond these are accepted by app.py but are dropped by the model. That includes a column already named `y_coord`, which would clash with the joined coordinate column (src/oligo_align.py:25).
