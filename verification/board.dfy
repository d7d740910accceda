/** The board: every cell of the N×N×N lattice holds an optional colour.
    Also the palette, the initial fully occupied board, and sums over the
    cells in scan order (the number of occupied cells, in particular). */
module Grid {
  import opened Wrappers
  import opened Geometry
  import opened Tags

  /** The ten entries of the game's colour enumeration. Only equality of
      colours matters to the engine. */
  datatype Colour = Red | Blue | Yellow | Green | Orange | Magenta | Purple | Lime | Violet | Sky

  datatype Board = Board(size: nat, cells: map<Coord, Option<Colour>>)
  {
    /** Exactly the cells of the `size`-cube are present. */
    ghost predicate Valid()
    {
      size > 0 && forall c :: c in cells <==> InBounds(size, c)
    }
  }

  /** The occupant of cell `c`. */
  function At(b: Board, c: Coord): Option<Colour>
    requires b.Valid() && InBounds(b.size, c)
  {
    b.cells[c]
  }

  /** The board with cell `c` set to `v` and every other cell unchanged. */
  function SetCell(b: Board, c: Coord, v: Option<Colour>): (r: Board)
    requires b.Valid() && InBounds(b.size, c)
    ensures r.Valid() && r.size == b.size
    ensures At(r, c) == v
    ensures forall d :: InBounds(b.size, d) && d != c ==> At(r, d) == At(b, d)
  {
    Board(b.size, b.cells[c := v])
  }

  // ---------------------------------------------------------------------
  // Sums over the cells in scan order
  // ---------------------------------------------------------------------

  /** Sum of `w` over the cells at or after `c` in scan order. */
  function Total(b: Board, w: (Coord, Option<Colour>) -> nat, c: Coord): nat
    requires b.Valid() && ScanPos(b.size, c)
    decreases b.size - c.x, b.size - c.y, b.size - c.z
  {
    if c == End(b.size) then 0 else w(c, At(b, c)) + Total(b, w, Next(b.size, c))
  }

  /** Setting one cell changes a sum that includes it by the difference of
      the two weights, and leaves a sum that does not include it alone. */
  lemma {:induction false} TotalUpdate(b: Board, w: (Coord, Option<Colour>) -> nat, d: Coord, v: Option<Colour>, c: Coord)
    requires b.Valid() && InBounds(b.size, d) && ScanPos(b.size, c)
    decreases b.size - c.x, b.size - c.y, b.size - c.z
    ensures Total(SetCell(b, d, v), w, c)
         == Total(b, w, c) + (if !Before(d, c) then w(d, v) - w(d, At(b, d)) else 0)
  {
    if c != End(b.size) {
      TotalUpdate(b, w, d, v, Next(b.size, c));
      NextIsSuccessor(b.size, c, d);
    }
  }

  function CountWeight(c: Coord, v: Option<Colour>): nat
  {
    if v.Some? then 1 else 0
  }

  /** Number of occupied cells. */
  function Occupied(b: Board): nat
    requires b.Valid()
  {
    Total(b, CountWeight, Origin)
  }

  /** Setting one cell changes the number of occupied cells only by what
      that cell held before and holds after. */
  lemma OccupiedAfterSet(b: Board, c: Coord, v: Option<Colour>)
    requires b.Valid() && InBounds(b.size, c)
    ensures Occupied(SetCell(b, c, v)) == Occupied(b) - CountWeight(c, At(b, c)) + CountWeight(c, v)
  {
    TotalUpdate(b, CountWeight, c, v, Origin);
  }

  /** The count over the cells at or after `c` is at most their number, is
      zero exactly when they are all empty and is their number exactly when
      they are all occupied. */
  lemma {:induction false} CountBounds(b: Board, c: Coord)
    requires b.Valid() && ScanPos(b.size, c)
    decreases b.size - c.x, b.size - c.y, b.size - c.z
    ensures Total(b, CountWeight, c) <= |Scan(b.size, c)|
    ensures Total(b, CountWeight, c) == 0 <==>
              forall d :: InBounds(b.size, d) && !Before(d, c) ==> At(b, d).None?
    ensures Total(b, CountWeight, c) == |Scan(b.size, c)| <==>
              forall d :: InBounds(b.size, d) && !Before(d, c) ==> At(b, d).Some?
  {
    if c != End(b.size) {
      CountBounds(b, Next(b.size, c));
      forall d | InBounds(b.size, d)
        ensures !Before(d, c) <==> d == c || !Before(d, Next(b.size, c))
      {
        NextIsSuccessor(b.size, c, d);
      }
    }
  }

  /** At most `n³` cells are occupied; none exactly when every cell is
      empty, and `n³` exactly when every cell is occupied. */
  lemma OccupiedExtremes(b: Board)
    requires b.Valid()
    ensures Occupied(b) <= Cube(b.size)
    ensures Occupied(b) == 0 <==> forall c :: InBounds(b.size, c) ==> At(b, c).None?
    ensures Occupied(b) == Cube(b.size) <==> forall c :: InBounds(b.size, c) ==> At(b, c).Some?
  {
    CountBounds(b, Origin);
    ProductOrder(b.size);
  }

  // ---------------------------------------------------------------------
  // The initial board
  // ---------------------------------------------------------------------

  /** The board the game sets up: the cell with tag `i` (the `i`-th cell of
      the enumeration) gets colour `colours[picks[i]]`. The colour subset
      and the picks stand for the random choices, which the model takes as
      inputs. Every cell is occupied, with one of the chosen colours. */
  function SetupSpheres(n: nat, colours: seq<Colour>, picks: seq<nat>): (b: Board)
    requires n > 0 && |colours| == n && |picks| == Cube(n)
    requires forall i :: 0 <= i < |picks| ==> picks[i] < n
    ensures b.Valid() && b.size == n
    ensures forall i :: 0 <= i < Cube(n) ==> At(b, Product(n)[i]) == Some(colours[picks[i]])
    ensures forall c :: InBounds(n, c) ==> At(b, c).Some? && At(b, c).value in colours
    ensures Occupied(b) == Cube(n)
  {
    ProductOrder(n);
    ProductCoversOnce(n);
    var product := Product(n);
    assert forall c :: c in product ==> 0 <= Tag(n, c) < Cube(n) by {
      forall c | c in product
        ensures 0 <= Tag(n, c) < Cube(n)
      {
        TagInRange(n, c);
      }
    }
    var b := Board(n, map c | c in product :: Some(colours[picks[Tag(n, c)]]));
    OccupiedExtremes(b);
    b
  }
}
