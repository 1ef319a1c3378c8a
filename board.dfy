/** The parts of the match-3 board that the shuffle power-up reads and writes:
    grid coordinates, gems that know where they are, cells that may hold a gem,
    and the board's coordinate-to-cell map. */
module Board {

  /** A grid coordinate (Unity's Vector3Int); z is a layer marker the board does not use. */
  datatype Coord = Coord(x: int, y: int, z: int)

  /** A gem on the board. Only its grid position matters to the shuffle. */
  class Gem {
    var currentIndex: Coord

    constructor (at: Coord)
      ensures currentIndex == at
    {
      currentIndex := at;
    }

    /** Records the gem's new grid position (its animation and world-space
        placement are not part of this model). */
    method MoveTo(target: Coord)
      modifies this
      ensures currentIndex == target
    {
      currentIndex := target;
    }
  }

  /** One slot of the grid: at most one gem, and whether that gem may be moved.
      `at` is proof bookkeeping only: the coordinate the board files the cell
      under, fixed when the cell is made. */
  class BoardCell {
    var containingGem: Gem?
    var canBeMoved: bool
    ghost const at: Coord

    constructor (gem: Gem?, movable: bool, ghost position: Coord)
      ensures containingGem == gem && canBeMoved == movable && at == position
    {
      containingGem := gem;
      canBeMoved := movable;
      at := position;
    }
  }

  class Board {
    var cellContent: map<Coord, BoardCell>

    constructor (cells: map<Coord, BoardCell>)
      ensures cellContent == cells
    {
      cellContent := cells;
    }

    /** Every coordinate has a cell object of its own: each cell is filed
        under the one coordinate it records, so two coordinates never share
        a cell. */
    ghost predicate OneCellPerCoord()
      reads this
    {
      forall p :: p in cellContent ==> cellContent[p].at == p
    }

    /** Which gem, if any, each coordinate's cell holds. */
    ghost function Occupancy(): (m: map<Coord, Gem?>)
      reads this, cellContent.Values
      ensures m.Keys == cellContent.Keys
    {
      map p | p in cellContent :: cellContent[p].containingGem
    }

    /** Whether each coordinate's cell lets its gem be moved. */
    ghost function Movability(): (m: map<Coord, bool>)
      reads this, cellContent.Values
      ensures m.Keys == cellContent.Keys
    {
      map p | p in cellContent :: cellContent[p].canBeMoved
    }

    /** The gems the cells refer to. */
    ghost function Occupants(): (gems: set<Gem>)
      reads this, cellContent.Values
      ensures forall p :: p in cellContent && cellContent[p].containingGem != null ==> cellContent[p].containingGem in gems
    {
      set p | p in cellContent && cellContent[p].containingGem != null :: cellContent[p].containingGem as Gem
    }

    /** Every gem held by a cell records that cell's coordinate as its own. */
    ghost predicate GemsKnowTheirCell()
      reads this, cellContent.Values, Occupants()
    {
      forall p :: p in cellContent && cellContent[p].containingGem != null ==> cellContent[p].containingGem.currentIndex == p
    }

    /** The board's consistency: one cell per coordinate, and cell and gem agree
        on where the gem is. */
    ghost predicate Valid()
      reads this, cellContent.Values, Occupants()
    {
      OneCellPerCoord() && GemsKnowTheirCell()
    }

    /** The write `cellContent[p].containingGem := g`: the cell at p now
        holds g and every other cell keeps its gem. */
    method SetContainingGem(p: Coord, g: Gem?)
      requires p in cellContent && OneCellPerCoord()
      modifies cellContent[p]
      ensures cellContent == old(cellContent)
      ensures Occupancy() == old(Occupancy())[p := g]
      ensures Movability() == old(Movability())
    {
      cellContent[p].containingGem := g;
      assert forall q :: q in cellContent && q != p ==> cellContent[q] != cellContent[p];
    }

    /** A coordinate whose cell holds a gem that may be moved. */
    ghost predicate Eligible(p: Coord)
      reads this, cellContent.Values
    {
      p in cellContent && cellContent[p].containingGem != null && cellContent[p].canBeMoved
    }

    ghost function EligiblePositions(): (ps: set<Coord>)
      reads this, cellContent.Values
      ensures forall p :: p in ps <==> Eligible(p)
    {
      set p | p in cellContent && Eligible(p)
    }
  }
}
