/** Which clicks delete anything, and which spheres a deleting click removes.

    The group removed is the clicked cell plus, in each of the six axis
    directions, the longest straight run of consecutive cells holding the
    clicked cell's colour. It is not the connected same-colour component:
    see `MonochromeGroup`. */
module Matching {
  import opened Wrappers
  import opened Geometry
  import opened Tags
  import opened Grid

  /** `d` is an in-bounds axis neighbour of `c` with the same occupant. */
  predicate SameNeighbour(b: Board, c: Coord, d: Coord)
    requires b.Valid() && InBounds(b.size, c)
  {
    InBounds(b.size, d) && Adjacent(c, d) && At(b, d) == At(b, c)
  }

  /** Some cell of `ns` holds the occupant of `c`; the cells are tried in
      order and the first match answers. */
  function AnySame(b: Board, c: Coord, ns: seq<Coord>): (r: bool)
    requires b.Valid() && InBounds(b.size, c)
    requires forall d :: d in ns ==> InBounds(b.size, d)
    ensures r <==> exists d :: d in ns && At(b, d) == At(b, c)
  {
    if ns == [] then false
    else if At(b, ns[0]) == At(b, c) then true
    else
      assert forall d :: d in ns ==> d == ns[0] || d in ns[1..];
      AnySame(b, c, ns[1..])
  }

  /** A cell is deletable exactly when some in-bounds axis neighbour holds
      the same occupant as it does. */
  function IsDeletable(b: Board, c: Coord): (r: bool)
    requires b.Valid() && InBounds(b.size, c)
    ensures r <==> exists d :: SameNeighbour(b, c, d)
  {
    var ns := Neighbors(b.size, c);
    var r := AnySame(b, c, ns);
    assert r ==> exists d :: SameNeighbour(b, c, d) by {
      if r {
        var d :| d in ns && At(b, d) == At(b, c);
        assert SameNeighbour(b, c, d);
      }
    }
    assert (exists d :: SameNeighbour(b, c, d)) ==> r by {
      if exists d :: SameNeighbour(b, c, d) {
        var d :| SameNeighbour(b, c, d);
        assert d in ns;
      }
    }
    r
  }

  // ---------------------------------------------------------------------
  // Straight runs
  // ---------------------------------------------------------------------

  /** The cells 1..k steps from `c` along `dir` are all in bounds and all
      hold `colour`. */
  predicate RunReaches(b: Board, c: Coord, dir: Direction, k: nat, colour: Option<Colour>)
    requires b.Valid()
  {
    forall j :: 1 <= j <= k ==> InBounds(b.size, Shift(c, dir, j)) && At(b, Shift(c, dir, j)) == colour
  }

  /** Number of in-bounds cells from `c` to the border along `dir`, `c`
      included. */
  function Reach(n: nat, c: Coord, dir: Direction): nat
    requires InBounds(n, c)
  {
    match dir
    case PlusX => n - c.x
    case MinusX => c.x + 1
    case PlusY => n - c.y
    case MinusY => c.y + 1
    case PlusZ => n - c.z
    case MinusZ => c.z + 1
  }

  lemma ShiftStep(c: Coord, dir: Direction, j: int)
    ensures Shift(Shift(c, dir, 1), dir, j) == Shift(c, dir, j + 1)
  {
  }

  /** The maximal run of consecutive cells holding `colour` that starts next
      to `c` and goes along `dir`. */
  function Run(b: Board, c: Coord, dir: Direction, colour: Option<Colour>): (r: seq<Coord>)
    requires b.Valid() && InBounds(b.size, c)
    decreases Reach(b.size, c, dir)
    ensures forall k :: 0 <= k < |r| ==> r[k] == Shift(c, dir, k + 1)
    ensures RunReaches(b, c, dir, |r|, colour)
    ensures var e := Shift(c, dir, |r| + 1); !InBounds(b.size, e) || At(b, e) != colour
  {
    var next := Shift(c, dir, 1);
    if !InBounds(b.size, next) || At(b, next) != colour then []
    else
      var rest := Run(b, next, dir, colour);
      var r := [next] + rest;
      forall k | 0 <= k < |r|
        ensures r[k] == Shift(c, dir, k + 1)
      {
        if k > 0 {
          assert r[k] == rest[k - 1];
          ShiftStep(c, dir, k);
        }
      }
      forall j | 1 <= j <= |r|
        ensures InBounds(b.size, Shift(c, dir, j)) && At(b, Shift(c, dir, j)) == colour
      {
        assert Shift(c, dir, j) == r[j - 1];
      }
      ShiftStep(c, dir, |r|);
      r
  }

  /** A cell `k >= 1` steps from `c` belongs to the run along `dir` exactly
      when every cell up to it holds the run's colour. */
  lemma RunMembership(b: Board, c: Coord, dir: Direction, colour: Option<Colour>, k: int)
    requires b.Valid() && InBounds(b.size, c) && 1 <= k
    ensures Shift(c, dir, k) in Run(b, c, dir, colour) <==> RunReaches(b, c, dir, k, colour)
  {
    var r := Run(b, c, dir, colour);
    var e := Shift(c, dir, k);
    if k <= |r| {
      assert r[k - 1] == e;
      assert RunReaches(b, c, dir, k, colour) by {
        forall j | 1 <= j <= k
          ensures InBounds(b.size, Shift(c, dir, j)) && At(b, Shift(c, dir, j)) == colour
        {
          assert j <= |r|;
        }
      }
    } else {
      var j := |r| + 1;
      assert 1 <= j <= k;
      assert !RunReaches(b, c, dir, k, colour);
      forall i | 0 <= i < |r|
        ensures r[i] != e
      {
        ShiftInjective(c, dir, i + 1, k);
      }
    }
  }

  /** Different step counts along one direction reach different cells. */
  lemma ShiftInjective(c: Coord, dir: Direction, j: int, k: int)
    ensures Shift(c, dir, j) == Shift(c, dir, k) <==> j == k
  {
  }

  /** `e` lies on the open half-line from `c` along `dir`. */
  predicate OnRay(c: Coord, dir: Direction, e: Coord)
  {
    match dir
    case PlusX => e.y == c.y && e.z == c.z && e.x > c.x
    case MinusX => e.y == c.y && e.z == c.z && e.x < c.x
    case PlusY => e.x == c.x && e.z == c.z && e.y > c.y
    case MinusY => e.x == c.x && e.z == c.z && e.y < c.y
    case PlusZ => e.x == c.x && e.y == c.y && e.z > c.z
    case MinusZ => e.x == c.x && e.y == c.y && e.z < c.z
  }

  predicate Distinct<T(==)>(s: seq<T>)
  {
    forall i, j :: 0 <= i < j < |s| ==> s[i] != s[j]
  }

  lemma DistinctAppend<T>(a: seq<T>, b: seq<T>)
    requires Distinct(a) && Distinct(b)
    requires forall e :: e in a ==> e !in b
    ensures Distinct(a + b)
  {
    forall i, j | 0 <= i < j < |a + b|
      ensures (a + b)[i] != (a + b)[j]
    {
      if i < |a| && j >= |a| {
        assert (a + b)[i] in a;
        assert (a + b)[j] == b[j - |a|];
      }
    }
  }

  /** The six directions in the order the runs are collected. */
  const Directions: seq<Direction> := [PlusX, MinusX, PlusY, MinusY, PlusZ, MinusZ]

  lemma DirectionsDistinct()
    ensures Distinct(Directions)
  {
  }

  /** The runs along each direction of `ds`, one after the other. */
  function Runs(b: Board, c: Coord, colour: Option<Colour>, ds: seq<Direction>): (r: seq<Coord>)
    requires b.Valid() && InBounds(b.size, c)
    requires Distinct(ds)
    ensures Distinct(r)
    ensures forall e :: e in r ==> InBounds(b.size, e) && At(b, e) == colour
    ensures forall e :: e in r ==> exists i :: 0 <= i < |ds| && OnRay(c, ds[i], e)
    ensures forall i, k :: 0 <= i < |ds| && 1 <= k ==>
              (Shift(c, ds[i], k) in r <==> RunReaches(b, c, ds[i], k, colour))
  {
    if ds == [] then []
    else
      var run := Run(b, c, ds[0], colour);
      var rest := Runs(b, c, colour, ds[1..]);
      assert Distinct(run) by {
        forall i, j | 0 <= i < j < |run|
          ensures run[i] != run[j]
        {
          assert run[i] == Shift(c, ds[0], i + 1) && run[j] == Shift(c, ds[0], j + 1);
        }
      }
      assert forall e :: e in run ==> OnRay(c, ds[0], e) by {
        forall e | e in run
          ensures OnRay(c, ds[0], e)
        {
          var i :| 0 <= i < |run| && run[i] == e;
        }
      }
      assert forall e :: e in rest ==> !OnRay(c, ds[0], e) by {
        forall e | e in rest
          ensures !OnRay(c, ds[0], e)
        {
          var i :| 0 <= i < |ds[1..]| && OnRay(c, ds[1..][i], e);
          assert ds[i + 1] != ds[0];
          RaysDisjoint(c, ds[0], ds[i + 1], e);
        }
      }
      DistinctAppend(run, rest);
      var r := run + rest;
      assert forall e :: e in run ==> InBounds(b.size, e) && At(b, e) == colour by {
        forall e | e in run
          ensures InBounds(b.size, e) && At(b, e) == colour
        {
          var i :| 0 <= i < |run| && run[i] == e;
          assert 1 <= i + 1 <= |run|;
        }
      }
      forall i, k | 0 <= i < |ds| && 1 <= k
        ensures Shift(c, ds[i], k) in r <==> RunReaches(b, c, ds[i], k, colour)
      {
        var e := Shift(c, ds[i], k);
        assert OnRay(c, ds[i], e);
        if i == 0 {
          RunMembership(b, c, ds[0], colour, k);
        } else {
          assert ds[1..][i - 1] == ds[i];
          assert ds[i] != ds[0];
          RaysDisjoint(c, ds[0], ds[i], e);
        }
      }
      forall e | e in r
        ensures exists i :: 0 <= i < |ds| && OnRay(c, ds[i], e)
      {
        if e in rest {
          var i :| 0 <= i < |ds[1..]| && OnRay(c, ds[1..][i], e);
          assert OnRay(c, ds[i + 1], e);
        } else {
          assert OnRay(c, ds[0], e);
        }
      }
      r
  }

  /** Half-lines in different directions share no cell. */
  lemma RaysDisjoint(c: Coord, d1: Direction, d2: Direction, e: Coord)
    requires d1 != d2
    ensures !(OnRay(c, d1, e) && OnRay(c, d2, e))
  {
  }

  /** Every neighbour is one step along some direction. */
  lemma AdjacentIsStep(c: Coord, d: Coord)
    requires Adjacent(c, d)
    ensures exists i :: 0 <= i < |Directions| && d == Shift(c, Directions[i], 1)
  {
    if d.x == c.x + 1 { assert d == Shift(c, Directions[0], 1); }
    else if d.x == c.x - 1 { assert d == Shift(c, Directions[1], 1); }
    else if d.y == c.y + 1 { assert d == Shift(c, Directions[2], 1); }
    else if d.y == c.y - 1 { assert d == Shift(c, Directions[3], 1); }
    else if d.z == c.z + 1 { assert d == Shift(c, Directions[4], 1); }
    else { assert d == Shift(c, Directions[5], 1); }
  }

  // ---------------------------------------------------------------------
  // The group removed by a click
  // ---------------------------------------------------------------------

  /** The spheres removed by clicking `c`: nothing when `c` is not
      deletable; otherwise `c` first and then the six runs of its colour
      along +x, −x, +y, −y, +z, −z. The group is a list of distinct cells, of
      which there are at least two, all holding `c`'s occupant, and a cell
      `k` steps from `c` along a direction belongs to it exactly when all
      cells up to it hold that occupant. */
  function FindSameColors(b: Board, c: Coord): (r: seq<Coord>)
    requires b.Valid() && InBounds(b.size, c)
    ensures r == [] <==> !IsDeletable(b, c)
    ensures r != [] ==> r[0] == c && |r| >= 2
    ensures Distinct(r)
    ensures forall e :: e in r ==> InBounds(b.size, e) && At(b, e) == At(b, c)
    ensures r != [] ==> forall e :: e in r ==> e == c || exists dir, k :: 1 <= k && e == Shift(c, dir, k)
    ensures r != [] ==> forall dir, k :: 1 <= k ==>
              (Shift(c, dir, k) in r <==> RunReaches(b, c, dir, k, At(b, c)))
  {
    if !IsDeletable(b, c) then []
    else
      GroupShape(b, c);
      GroupMembership(b, c);
      GroupSize(b, c);
      Group(b, c)
  }

  /** `c` followed by its six runs. */
  function Group(b: Board, c: Coord): seq<Coord>
    requires b.Valid() && InBounds(b.size, c)
  {
    DirectionsDistinct();
    [c] + Runs(b, c, At(b, c), Directions)
  }

  /** The group lists distinct cells, all holding `c`'s occupant, each `c`
      itself or on a half-line from `c`. */
  lemma GroupShape(b: Board, c: Coord)
    requires b.Valid() && InBounds(b.size, c)
    ensures Group(b, c)[0] == c
    ensures Distinct(Group(b, c))
    ensures forall e :: e in Group(b, c) ==> InBounds(b.size, e) && At(b, e) == At(b, c)
    ensures forall e :: e in Group(b, c) ==> e == c || exists dir, k :: 1 <= k && e == Shift(c, dir, k)
  {
    DirectionsDistinct();
    var runs := Runs(b, c, At(b, c), Directions);
    forall e | e in runs
      ensures e != c && exists dir, k :: 1 <= k && e == Shift(c, dir, k)
    {
      var j :| 0 <= j < |Directions| && OnRay(c, Directions[j], e);
      OnRayIsShift(c, Directions[j], e);
    }
    DistinctAppend([c], runs);
  }

  /** A cell `k >= 1` steps from `c` is in the group exactly when all cells
      up to it hold `c`'s occupant. */
  lemma GroupMembership(b: Board, c: Coord)
    requires b.Valid() && InBounds(b.size, c)
    ensures forall dir, k :: 1 <= k ==>
              (Shift(c, dir, k) in Group(b, c) <==> RunReaches(b, c, dir, k, At(b, c)))
  {
    DirectionsDistinct();
    var runs := Runs(b, c, At(b, c), Directions);
    forall dir, k | 1 <= k
      ensures Shift(c, dir, k) in Group(b, c) <==> RunReaches(b, c, dir, k, At(b, c))
    {
      var j := DirectionIndex(dir);
      assert OnRay(c, dir, Shift(c, dir, k));
      assert Shift(c, Directions[j], k) in runs <==> RunReaches(b, c, Directions[j], k, At(b, c));
    }
  }

  /** A deletable cell's group holds at least one more cell. */
  lemma GroupSize(b: Board, c: Coord)
    requires b.Valid() && InBounds(b.size, c) && IsDeletable(b, c)
    ensures |Group(b, c)| >= 2
  {
    DirectionsDistinct();
    var runs := Runs(b, c, At(b, c), Directions);
    var d :| SameNeighbour(b, c, d);
    AdjacentIsStep(c, d);
    var i :| 0 <= i < |Directions| && d == Shift(c, Directions[i], 1);
    assert RunReaches(b, c, Directions[i], 1, At(b, c));
    assert d in runs;
  }

  function DirectionIndex(dir: Direction): (i: nat)
    ensures i < |Directions| && Directions[i] == dir
  {
    match dir
    case PlusX => 0
    case MinusX => 1
    case PlusY => 2
    case MinusY => 3
    case PlusZ => 4
    case MinusZ => 5
  }

  lemma OnRayIsShift(c: Coord, dir: Direction, e: Coord)
    requires OnRay(c, dir, e)
    ensures exists k :: 1 <= k && e == Shift(c, dir, k)
  {
    match dir
    case PlusX => assert e == Shift(c, dir, e.x - c.x);
    case MinusX => assert e == Shift(c, dir, c.x - e.x);
    case PlusY => assert e == Shift(c, dir, e.y - c.y);
    case MinusY => assert e == Shift(c, dir, c.y - e.y);
    case PlusZ => assert e == Shift(c, dir, e.z - c.z);
    case MinusZ => assert e == Shift(c, dir, c.z - e.z);
  }

  // ---------------------------------------------------------------------
  // Game-over test
  // ---------------------------------------------------------------------

  /** An occupied cell that a click would delete. */
  predicate Playable(b: Board, c: Coord)
    requires b.Valid()
  {
    InBounds(b.size, c) && At(b, c).Some? && IsDeletable(b, c)
  }

  /** Scan of the cells at or after `c`, stopping at the first playable
      one. */
  function CanContinueFrom(b: Board, c: Coord): (r: bool)
    requires b.Valid() && ScanPos(b.size, c)
    decreases b.size - c.x, b.size - c.y, b.size - c.z
    ensures r <==> exists d :: Playable(b, d) && !Before(d, c)
  {
    if c == End(b.size) then false
    else if Playable(b, c) then true
    else
      forall d | InBounds(b.size, d)
        ensures !Before(d, c) <==> d == c || !Before(d, Next(b.size, c))
      {
        NextIsSuccessor(b.size, c, d);
      }
      CanContinueFrom(b, Next(b.size, c))
  }

  /** The game can go on exactly when some occupied cell has an in-bounds
      axis neighbour of the same colour. */
  function CanContinue(b: Board): (r: bool)
    requires b.Valid()
    ensures r <==> exists c, d :: InBounds(b.size, c) && At(b, c).Some? && SameNeighbour(b, c, d)
  {
    var r := CanContinueFrom(b, Origin);
    assert r ==> exists c, d :: InBounds(b.size, c) && At(b, c).Some? && SameNeighbour(b, c, d) by {
      if r {
        var c :| Playable(b, c) && !Before(c, Origin);
        var d :| SameNeighbour(b, c, d);
      }
    }
    assert (exists c, d :: InBounds(b.size, c) && At(b, c).Some? && SameNeighbour(b, c, d)) ==> r by {
      if exists c, d :: InBounds(b.size, c) && At(b, c).Some? && SameNeighbour(b, c, d) {
        var c, d :| InBounds(b.size, c) && At(b, c).Some? && SameNeighbour(b, c, d);
        assert Playable(b, c) && !Before(c, Origin);
      }
    }
    r
  }

  // ---------------------------------------------------------------------
  // The group is not the connected component
  // ---------------------------------------------------------------------

  /** On a full board of one colour every run goes to the border. */
  lemma {:induction false} MonochromeRun(b: Board, c: Coord, dir: Direction, colour: Colour)
    requires b.Valid() && InBounds(b.size, c)
    requires forall e :: InBounds(b.size, e) ==> At(b, e) == Some(colour)
    decreases Reach(b.size, c, dir)
    ensures |Run(b, c, dir, Some(colour))| == Reach(b.size, c, dir) - 1
  {
    var next := Shift(c, dir, 1);
    if InBounds(b.size, next) {
      MonochromeRun(b, next, dir, colour);
    }
  }

  /** On a full board of one colour with side `n >= 2`, every cell is
      deletable, and clicking it removes exactly `3n - 2` spheres: fewer than
      the `n³` same-coloured spheres connected to it. */
  lemma MonochromeGroup(b: Board, c: Coord, colour: Colour)
    requires b.Valid() && b.size >= 2 && InBounds(b.size, c)
    requires forall e :: InBounds(b.size, e) ==> At(b, e) == Some(colour)
    ensures |FindSameColors(b, c)| == 3 * b.size - 2 < Cube(b.size)
  {
    var n := b.size;
    MonochromeDeletable(b, c, colour);
    var r := FindSameColors(b, c);
    assert r == Group(b, c);
    DirectionsDistinct();
    MonochromeRunsLength(b, c, colour, Directions);
    ReachSumAxes(n, c);
    assert |r| == 3 * n - 2;
    CubeExceedsGroup(n);
  }

  /** On a full board of one colour with side `n >= 2`, every cell has a
      same-coloured neighbour. */
  lemma MonochromeDeletable(b: Board, c: Coord, colour: Colour)
    requires b.Valid() && b.size >= 2 && InBounds(b.size, c)
    requires forall e :: InBounds(b.size, e) ==> At(b, e) == Some(colour)
    ensures IsDeletable(b, c)
  {
    if c.x + 1 < b.size {
      assert SameNeighbour(b, c, Shift(c, PlusX, 1));
    } else {
      assert SameNeighbour(b, c, Shift(c, MinusX, 1));
    }
  }

  /** Along the three axes, the cells other than `c` number `3(n - 1)`. */
  lemma ReachSumAxes(n: nat, c: Coord)
    requires InBounds(n, c)
    ensures ReachSum(n, c, Directions) == 3 * n - 3
  {
    assert ReachSum(n, c, [MinusZ]) == c.z;
    assert ReachSum(n, c, [PlusZ, MinusZ]) == n - 1;
    assert ReachSum(n, c, [MinusY, PlusZ, MinusZ]) == n - 1 + c.y;
    assert ReachSum(n, c, [PlusY, MinusY, PlusZ, MinusZ]) == 2 * n - 2;
    assert ReachSum(n, c, [MinusX, PlusY, MinusY, PlusZ, MinusZ]) == 2 * n - 2 + c.x;
  }

  lemma CubeExceedsGroup(n: nat)
    requires n >= 2
    ensures 3 * n - 2 < Cube(n)
  {
    CubeProduct(n);
    Arith.MulMonotone(2, n, n);
    Arith.MulMonotone(4, n * n, n);
  }

  lemma {:induction false} MonochromeRunsLength(b: Board, c: Coord, colour: Colour, ds: seq<Direction>)
    requires b.Valid() && InBounds(b.size, c) && Distinct(ds)
    requires forall e :: InBounds(b.size, e) ==> At(b, e) == Some(colour)
    ensures |Runs(b, c, Some(colour), ds)| == ReachSum(b.size, c, ds)
  {
    if ds != [] {
      MonochromeRun(b, c, ds[0], colour);
      assert Distinct(ds[1..]);
      MonochromeRunsLength(b, c, colour, ds[1..]);
    }
  }

  function ReachSum(n: nat, c: Coord, ds: seq<Direction>): int
    requires InBounds(n, c)
  {
    if ds == [] then 0 else Reach(n, c, ds[0]) - 1 + ReachSum(n, c, ds[1..])
  }
}
