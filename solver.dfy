/** The cell and constraint-group objects of the Sudoku solver.
    A cell knows its value, its position and the three groups (row, column,
    square) it belongs to; building a group wires each of its cells back to it. */
module Solver {
  import opened Names

  /** The three back-references of a cell, as one value. */
  datatype Links = Links(row: Block?, col: Block?, square: Block?)

  /** The links of a cell after a group of the given kind is wired into it:
      the link of that kind now names b, the other two are as they were; a
      group of no known kind changes nothing. */
  function Wired(links: Links, kind: Option<Kind>, b: Block): Links
  {
    match kind
    case None => links
    case Some(Row) => links.(row := b)
    case Some(Col) => links.(col := b)
    case Some(Square) => links.(square := b)
  }

  /** Wiring the same group in twice is wiring it in once. */
  lemma WiredTwice(links: Links, kind: Option<Kind>, b: Block)
    ensures Wired(Wired(links, kind, b), kind, b) == Wired(links, kind, b)
  {
  }

  /** Of two groups of one kind, the one wired in last is the one the cell keeps. */
  lemma WiredLastWins(links: Links, kind: Option<Kind>, b1: Block, b2: Block)
    ensures Wired(Wired(links, kind, b1), kind, b2) == Wired(links, kind, b2)
  {
  }

  /** Groups of different kinds touch different links, so their order does not matter. */
  lemma WiredCommute(links: Links, k1: Option<Kind>, b1: Block, k2: Option<Kind>, b2: Block)
    requires k1 != k2 || k1 == None
    ensures Wired(Wired(links, k1, b1), k2, b2) == Wired(Wired(links, k2, b2), k1, b1)
  {
  }

  /** One cell of the board. */
  class Cell {
    var v: int
    var row: int
    var col: int
    var blockRow: Block?
    var blockCol: Block?
    var blockSquare: Block?
    var potentialV: set<int>

    /** The group back-references of this cell. */
    function BackRefs(): Links
      reads this
    {
      Links(blockRow, blockCol, blockSquare)
    }

    /** A new cell holds the given value and position, belongs to no group yet
        and has no candidates. */
    constructor (v: int, row: int, col: int)
      ensures this.v == v && this.row == row && this.col == col
      ensures blockRow == null && blockCol == null && blockSquare == null
      ensures potentialV == {}
    {
      this.v := v;
      this.row := row;
      this.col := col;
      blockRow := null;
      blockCol := null;
      blockSquare := null;
      potentialV := {};
    }
  }

  /** A named group of cells: a row, a column or a square, by its name. */
  class Block {
    var name: string
    var cells: seq<Cell>

    /** Builds the group and points the back-reference of each listed cell that
        matches the kind of the name at it. Only those links change: the other
        links and the value, position and candidates of every cell stay as they
        were, and no cell outside the list is touched. */
    constructor (name: string, cells: seq<Cell>)
      modifies set c | c in cells
      ensures this.name == name && this.cells == cells
      ensures forall c :: c in cells ==> c.BackRefs() == Wired(old(c.BackRefs()), KindOf(name), this)
      ensures forall c :: c in cells ==>
        c.v == old(c.v) && c.row == old(c.row) && c.col == old(c.col) && c.potentialV == old(c.potentialV)
    {
      this.name := name;
      this.cells := cells;
      new;
      var i := 0;
      while i < |this.cells|
        invariant this.name == name && this.cells == cells
        invariant 0 <= i <= |cells|
        invariant forall c :: c in cells[..i] ==> c.BackRefs() == Wired(old(c.BackRefs()), KindOf(name), this)
        invariant forall c :: c in cells && c !in cells[..i] ==> c.BackRefs() == old(c.BackRefs())
        invariant forall c :: c in cells ==>
          c.v == old(c.v) && c.row == old(c.row) && c.col == old(c.col) && c.potentialV == old(c.potentialV)
      {
        var c := this.cells[i];
        if Split(this.name)[0] == "row" {
          c.blockRow := this;
        } else if Split(this.name)[0] == "col" {
          c.blockCol := this;
        } else if Split(this.name)[0] == "square" {
          c.blockSquare := this;
        }
        WiredTwice(old(c.BackRefs()), KindOf(name), this);
        assert cells[..i + 1] == cells[..i] + [c];
        i := i + 1;
      }
      assert cells[..i] == cells;
    }
  }

  /** Two groups built one after the other: every cell ends with the links of
      the first construction followed by the second, so a cell listed in both
      groups of one kind points at the group built last, and a cell listed in
      only one of them is wired to that one alone. */
  method BuildTwo(name1: string, cells1: seq<Cell>, name2: string, cells2: seq<Cell>)
    returns (b1: Block, b2: Block)
    modifies set c | c in cells1 + cells2
    ensures fresh(b1) && fresh(b2)
    ensures b1.name == name1 && b1.cells == cells1 && b2.name == name2 && b2.cells == cells2
    ensures forall c :: c in cells1 + cells2 ==>
      c.BackRefs() == Wired(Wired(old(c.BackRefs()), if c in cells1 then KindOf(name1) else None, b1),
                         if c in cells2 then KindOf(name2) else None, b2)
    ensures KindOf(name1) == KindOf(name2) ==>
      forall c :: c in cells2 ==> c.BackRefs() == Wired(old(c.BackRefs()), KindOf(name2), b2)
  {
    b1 := new Block(name1, cells1);
    b2 := new Block(name2, cells2);
    forall c | c in cells2 && KindOf(name1) == KindOf(name2)
      ensures Wired(Wired(old(c.BackRefs()), if c in cells1 then KindOf(name1) else None, b1), KindOf(name2), b2)
           == Wired(old(c.BackRefs()), KindOf(name2), b2)
    {
      if c in cells1 {
        WiredLastWins(old(c.BackRefs()), KindOf(name2), b1, b2);
      }
    }
  }
}
