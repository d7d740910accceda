/** Geometry of the N×N×N lattice: cell coordinates, the order in which the
    game scans cells, the evenly spaced sphere positions and their distance
    to the centre, and the axis neighbours of a cell. */
module Geometry {
  import Arith

  datatype Coord = Coord(x: int, y: int, z: int)

  predicate InBounds(n: nat, c: Coord)
  {
    0 <= c.x < n && 0 <= c.y < n && 0 <= c.z < n
  }

  // ---------------------------------------------------------------------
  // Scan order: the three-fold Cartesian product of 0..n-1
  // ---------------------------------------------------------------------

  /** The first cell of the scan. */
  const Origin := Coord(0, 0, 0)

  /** The position just past the last cell of the scan. */
  function End(n: nat): Coord
  {
    Coord(n, 0, 0)
  }

  /** A place a scan can be at: some cell, or past the last one. */
  predicate ScanPos(n: nat, c: Coord)
  {
    InBounds(n, c) || c == End(n)
  }

  /** The cell after `c`, the last coordinate running fastest. */
  function Next(n: nat, c: Coord): (r: Coord)
    requires InBounds(n, c)
    ensures ScanPos(n, r) && Before(c, r)
  {
    if c.z + 1 < n then Coord(c.x, c.y, c.z + 1)
    else if c.y + 1 < n then Coord(c.x, c.y + 1, 0)
    else Coord(c.x + 1, 0, 0)
  }

  /** `c` comes strictly before `d` in the scan (lexicographic order). */
  predicate Before(c: Coord, d: Coord)
  {
    c.x < d.x || (c.x == d.x && (c.y < d.y || (c.y == d.y && c.z < d.z)))
  }

  /** `Next` skips nothing: the cells at or after `c` are `c` itself and the
      cells at or after `Next(n, c)`. */
  lemma NextIsSuccessor(n: nat, c: Coord, d: Coord)
    requires InBounds(n, c) && InBounds(n, d)
    ensures !Before(d, c) <==> d == c || !Before(d, Next(n, c))
  {
  }

  /** The cells visited by a scan that starts at `c`. */
  function Scan(n: nat, c: Coord): (s: seq<Coord>)
    requires ScanPos(n, c)
    decreases n - c.x, n - c.y, n - c.z
    ensures forall d :: d in s <==> InBounds(n, d) && !Before(d, c)
  {
    if c == End(n) then []
    else
      var rest := Scan(n, Next(n, c));
      forall d | InBounds(n, d)
        ensures !Before(d, c) <==> d == c || !Before(d, Next(n, c))
      {
        NextIsSuccessor(n, c, d);
      }
      [c] + rest
  }

  // ---------------------------------------------------------------------
  // Positions and distance to the centre
  // ---------------------------------------------------------------------

  /** The first sphere position along an axis. */
  function Start(n: nat): int
  {
    if n % 2 == 0 then n / 2 * -2 + 1 else n / 2 * -2
  }

  /** The sphere position of index `i` along an axis. */
  function Pos(n: nat, i: int): int
  {
    Start(n) + i * 2
  }

  /** Sphere positions along one axis: evenly spaced by two and symmetric
      about the origin. */
  function Pts(n: nat): (pts: seq<int>)
    ensures |pts| == n
    ensures forall i :: 0 <= i < n ==> pts[i] == 2 * i - (n - 1)
    ensures forall i :: 0 <= i < n ==> pts[n - 1 - i] == -pts[i]
  {
    seq(n, i => Pos(n, i))
  }

  function Abs(i: int): nat
  {
    if i < 0 then -i else i
  }

  function Square(i: int): nat
  {
    Arith.Mul(Abs(i), Abs(i))
  }

  /** Squared Euclidean distance from the origin of the sphere in cell `c`:
      the sum of the squares of its three coordinates. The square root is
      monotone, so it orders cells, and picks minima, exactly as the
      distance itself does. */
  function Dist2(n: nat, c: Coord): (r: nat)
    ensures InBounds(n, c) ==>
              var p := Pts(n); r == p[c.x] * p[c.x] + p[c.y] * p[c.y] + p[c.z] * p[c.z]
  {
    SquareProduct(Pos(n, c.x));
    SquareProduct(Pos(n, c.y));
    SquareProduct(Pos(n, c.z));
    Square(Pos(n, c.x)) + Square(Pos(n, c.y)) + Square(Pos(n, c.z))
  }

  lemma SquareProduct(i: int)
    ensures Square(i) == i * i
  {
    Arith.MulProduct(Abs(i), Abs(i));
  }

  // ---------------------------------------------------------------------
  // Axis directions and neighbours
  // ---------------------------------------------------------------------

  datatype Direction = PlusX | MinusX | PlusY | MinusY | PlusZ | MinusZ

  /** The cell `k` steps from `c` in direction `d`. */
  function Shift(c: Coord, d: Direction, k: int): Coord
  {
    match d
    case PlusX => Coord(c.x + k, c.y, c.z)
    case MinusX => Coord(c.x - k, c.y, c.z)
    case PlusY => Coord(c.x, c.y + k, c.z)
    case MinusY => Coord(c.x, c.y - k, c.z)
    case PlusZ => Coord(c.x, c.y, c.z + k)
    case MinusZ => Coord(c.x, c.y, c.z - k)
  }

  /** `d` differs from `c` by one on exactly one axis. */
  predicate Adjacent(c: Coord, d: Coord)
  {
    Abs(d.x - c.x) + Abs(d.y - c.y) + Abs(d.z - c.z) == 1
  }

  /** Position of the neighbour `d` of `c` in the order
      +x, −x, +y, −y, +z, −z (6 for a cell that is not adjacent). */
  function Rank(c: Coord, d: Coord): nat
  {
    if d == Shift(c, PlusX, 1) then 0
    else if d == Shift(c, MinusX, 1) then 1
    else if d == Shift(c, PlusY, 1) then 2
    else if d == Shift(c, MinusY, 1) then 3
    else if d == Shift(c, PlusZ, 1) then 4
    else if d == Shift(c, MinusZ, 1) then 5
    else 6
  }

  /** The six axis neighbours of `c`, in bounds or not, in the fixed order. */
  function Candidates(c: Coord): seq<Coord>
  {
    [Shift(c, PlusX, 1), Shift(c, MinusX, 1), Shift(c, PlusY, 1),
     Shift(c, MinusY, 1), Shift(c, PlusZ, 1), Shift(c, MinusZ, 1)]
  }

  predicate RankSorted(c: Coord, s: seq<Coord>)
  {
    forall i, j :: 0 <= i < j < |s| ==> Rank(c, s[i]) < Rank(c, s[j])
  }

  /** The in-bounds members of `s`, order kept. */
  function KeepInBounds(n: nat, c: Coord, s: seq<Coord>): (r: seq<Coord>)
    requires RankSorted(c, s)
    ensures |r| <= |s|
    ensures forall d :: d in r <==> d in s && InBounds(n, d)
    ensures RankSorted(c, r)
  {
    if s == [] then []
    else
      var rest := KeepInBounds(n, c, s[1..]);
      assert forall d :: d in rest ==> Rank(c, s[0]) < Rank(c, d) by {
        forall d | d in rest
          ensures Rank(c, s[0]) < Rank(c, d)
        {
          var j :| 0 <= j < |s[1..]| && s[1..][j] == d;
          assert s[j + 1] == d;
        }
      }
      if InBounds(n, s[0]) then [s[0]] + rest else rest
  }

  /** The in-bounds axis neighbours of `c`, in the order +x, −x, +y, −y, +z, −z:
      at most six, each adjacent to `c`, and every adjacent in-bounds cell
      among them. */
  function Neighbors(n: nat, c: Coord): (r: seq<Coord>)
    ensures |r| <= 6
    ensures forall d :: d in r <==> InBounds(n, d) && Adjacent(c, d)
    ensures RankSorted(c, r)
    ensures forall i :: 0 <= i < |r| ==> Rank(c, r[i]) < 6
  {
    var cs := Candidates(c);
    assert forall k :: 0 <= k < 6 ==> Rank(c, cs[k]) == k;
    var r := KeepInBounds(n, c, cs);
    assert forall i :: 0 <= i < |r| ==> r[i] in cs;
    r
  }
}
