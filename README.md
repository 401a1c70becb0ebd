# Sudoku solver: cells and constraint groups

This project models the data model of a small Python Sudoku solver (`solver.py`).
Its two parts are:

- a **cell**, with a value, a row and column position, three back-references to the groups
  that own it (its row, its column and its 3×3 square) and a set of candidate values;
- a **block**, a named group of cells. Building one records the name and the list of cells.
  It then walks the list and points one back-reference of each cell at the new block. The
  part of the name before the first underscore picks which one: `row`, `col` or `square`.

Module `Names` models the name dispatch. `Split` is Python's `str.split('_')` and `Join` is
`'_'.join` of a non-empty list; the round trips between them are proved. `KindOf` gives the kind a name selects,
stated by the shape of the name: `"row"` alone or followed by `_…`, and likewise for `col`
and `square`.

Module `Solver` models the objects. `Cell` and `Block` are classes whose constructors set
the fields. `Block`'s constructor rewires its cells in a loop, with `modifies` on exactly
the listed cells. The three back-references of a cell form the value `Links`, and
`Wired(links, kind, b)` says how one block changes them. The constructor's postcondition
ties every listed cell's new links to `Wired` of its old links. Lemmas about `Wired` give
the consequences: wiring twice is wiring once, the last block of a kind wins, and blocks of
different kinds commute. `BuildTwo` applies these to two blocks built one after the other.

## Model

| member | source | states |
|---|---|---|
| Names.Split | solver.py:20 | `name.split('_')`: at least one piece, no piece holds an underscore, and there is one more piece than the string has underscores |
| Names.JoinSplit | solver.py:20 | joining the pieces of a split with `_` gives back the original name |
| Names.SplitJoin | solver.py:20 | splitting a `_`-join of underscore-free pieces gives back exactly those pieces |
| Names.HeadIs | solver.py:20 | `name.split('_')[0] == p` holds exactly when p has no underscore and the name is p or starts with p followed by `_` |
| Names.KindOf | solver.py:20-25 | the name selects a row group iff it is `row` or starts with `row_`; a column iff `col` / `col_…`; a square iff `square` / `square_…`; no kind otherwise |
| Names.GroupNameKind | solver.py:20-25 | names `row_<i>`, `col_<i>`, `square_<i>` select their kind whatever the index |
| Solver.Cell.constructor | solver.py:5-12 | a new cell holds exactly the given value, row and column, has no row, column or square group, and an empty candidate set |
| Solver.Block.constructor | solver.py:16-25 | the block keeps the name and the list of cells as given, in order; each listed cell's links become `Wired` of its old links (only the link of the name's kind changes, and nothing changes for an unrecognised prefix); value, position and candidates of each cell are unchanged; only listed cells may be modified |
| Solver.WiredTwice | solver.py:19-25 | a cell listed twice in one block ends as if listed once |
| Solver.WiredLastWins | solver.py:19-25 | of two blocks of the same kind over one cell, the cell keeps the one wired last (for every kind; two blocks of no kind both leave it as it was) |
| Solver.WiredCommute | solver.py:19-25 | blocks of different kinds (or of no kind) change different links, so the order in which they are built does not matter to a cell |
| Solver.BuildTwo | solver.py:16-25 | after building two blocks in turn, each cell's links are its old links wired by the first block it is listed in and then the second; when both have the same kind (or both none), every cell of the second list ends as if only the second block had been built; a cell in only one list is wired by that one alone |

## Left out

- `solve` (solver.py:28-29) only opens a `<name>.txt` file; file I/O is not modelled.
- The `numpy` import (solver.py:1) is unused by the modelled code.
- Candidate propagation, pointing reduction, naked-subset elimination, snapshots and backtracking are not in `solver.py`, so they are not modelled.
- No code in `solver.py` builds the 81 cells and 27 blocks of a board, so no claim is made that the groups cover the board three times over. `BuildTwo` states only what follows when two blocks are built over given lists, disjoint or not.
- Python leaves the types of `v`, `row`, `col` and the members of `potential_v` open; the model uses `int`. The name must be a string, since `split` is called on it.
- Python evaluates `self.name.split('_')[0]` up to three times per listed cell, once for each `if`/`elif` test reached. The model does the same, but evaluation has no cost or effect in Dafny, so only the outcome is modelled.
- Solver.Block.constructor: Python keeps a reference to the caller's list in `cells`, so later changes to that list show through the block, and the loop accepts any iterable; the model keeps the contents as a sequence value.
