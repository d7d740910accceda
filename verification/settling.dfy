/** Gravity towards the centre: after a deletion, every sphere that has an
    empty axis neighbour strictly closer to the centre of the cube moves into
    the closest such neighbour, one sphere at a time, until no sphere can
    move. */
module Settling {
  import opened Wrappers
  import opened Geometry
  import opened Grid

  // ---------------------------------------------------------------------
  // Empty neighbours and the closest of them
  // ---------------------------------------------------------------------

  /** The empty members of `s`, order kept. */
  function KeepEmpty(b: Board, c: Coord, s: seq<Coord>): (r: seq<Coord>)
    requires b.Valid()
    requires forall d :: d in s ==> InBounds(b.size, d)
    requires RankSorted(c, s)
    ensures forall d :: d in r <==> d in s && At(b, d).None?
    ensures RankSorted(c, r)
  {
    if s == [] then []
    else
      var rest := KeepEmpty(b, c, s[1..]);
      assert forall d :: d in rest ==> Rank(c, s[0]) < Rank(c, d) by {
        forall d | d in rest
          ensures Rank(c, s[0]) < Rank(c, d)
        {
          var j :| 0 <= j < |s[1..]| && s[1..][j] == d;
          assert s[j + 1] == d;
        }
      }
      if At(b, s[0]).None? then [s[0]] + rest else rest
  }

  /** The empty in-bounds axis neighbours of `c`, in the order
      +x, −x, +y, −y, +z, −z. */
  function EmptyCells(b: Board, c: Coord): (r: seq<Coord>)
    requires b.Valid()
    ensures forall d :: d in r <==> InBounds(b.size, d) && Adjacent(c, d) && At(b, d).None?
    ensures RankSorted(c, r)
  {
    KeepEmpty(b, c, Neighbors(b.size, c))
  }

  /** Index of the least key; among equal least keys, the first. This is
      the element a minimum by key picks: a later element replaces the
      current best only when its key is strictly smaller. */
  function ArgMin(keys: seq<nat>): (i: nat)
    requires keys != []
    ensures i < |keys|
    ensures forall j :: 0 <= j < |keys| ==> keys[i] <= keys[j]
    ensures forall j :: 0 <= j < i ==> keys[i] < keys[j]
  {
    ArgMinFrom(keys, 0, 1)
  }

  /** The scan behind `ArgMin`, with `best` the answer for `keys[..k]`. */
  function ArgMinFrom(keys: seq<nat>, best: nat, k: nat): (i: nat)
    requires best < k <= |keys|
    requires forall j :: 0 <= j < k ==> keys[best] <= keys[j]
    requires forall j :: 0 <= j < best ==> keys[best] < keys[j]
    decreases |keys| - k
    ensures i < |keys|
    ensures forall j :: 0 <= j < |keys| ==> keys[i] <= keys[j]
    ensures forall j :: 0 <= j < i ==> keys[i] < keys[j]
  {
    if k == |keys| then best
    else if keys[k] < keys[best] then ArgMinFrom(keys, k, k + 1)
    else ArgMinFrom(keys, best, k + 1)
  }

  /** The squared distances of the cells of `s`, in order. */
  function Distances(n: nat, s: seq<Coord>): seq<nat>
  {
    seq(|s|, k requires 0 <= k < |s| => Dist2(n, s[k]))
  }

  /** Index of the cell of `s` closest to the centre, the first among
      equally close ones. */
  function Closest(n: nat, s: seq<Coord>): (i: nat)
    requires s != []
    ensures i < |s|
    ensures forall j :: 0 <= j < |s| ==> Dist2(n, s[i]) <= Dist2(n, s[j])
    ensures forall j :: 0 <= j < i ==> Dist2(n, s[i]) < Dist2(n, s[j])
  {
    var ds := Distances(n, s);
    var i := ArgMin(ds);
    assert forall j :: 0 <= j < |s| ==> ds[j] == Dist2(n, s[j]);
    i
  }

  /** `d` is an empty axis neighbour of `c` strictly closer to the centre. */
  predicate CloserEmpty(b: Board, c: Coord, d: Coord)
    requires b.Valid()
  {
    InBounds(b.size, d) && Adjacent(c, d) && At(b, d).None? && Dist2(b.size, d) < Dist2(b.size, c)
  }

  /** Where the sphere in `c` moves to, if anywhere: the empty neighbour
      closest to the centre (the first in the order +x, −x, +y, −y, +z, −z
      among equally close ones), provided it is strictly closer than `c`.
      There is none exactly when `c` is empty or no empty neighbour is
      closer. */
  function Destination(b: Board, c: Coord): (r: Option<Coord>)
    requires b.Valid() && InBounds(b.size, c)
    ensures r.Some? ==> At(b, c).Some? && CloserEmpty(b, c, r.value)
    ensures r.Some? ==> forall d :: InBounds(b.size, d) && Adjacent(c, d) && At(b, d).None? ==>
              Dist2(b.size, r.value) <= Dist2(b.size, d) &&
              (Dist2(b.size, d) == Dist2(b.size, r.value) ==> Rank(c, r.value) <= Rank(c, d))
    ensures r.None? <==> At(b, c).None? || forall d :: !CloserEmpty(b, c, d)
  {
    if At(b, c).None? then None
    else
      var es := EmptyCells(b, c);
      if es == [] then
        CloserIsEmptyCell(b, c);
        None
      else
        var e := es[Closest(b.size, es)];
        ClosestEmpty(b, c);
        assert e in es;
        if Dist2(b.size, e) < Dist2(b.size, c) then
          assert CloserEmpty(b, c, e);
          Some(e)
        else
          NotCloserNoCloser(b, c, e);
          None
  }

  /** Every empty neighbour closer than `c` is among its empty cells. */
  lemma CloserIsEmptyCell(b: Board, c: Coord)
    requires b.Valid() && InBounds(b.size, c)
    ensures forall d :: CloserEmpty(b, c, d) ==> d in EmptyCells(b, c)
  {
  }

  /** When the closest empty neighbour is not closer than `c`, none is. */
  lemma NotCloserNoCloser(b: Board, c: Coord, e: Coord)
    requires b.Valid() && InBounds(b.size, c)
    requires forall d :: InBounds(b.size, d) && Adjacent(c, d) && At(b, d).None? ==> Dist2(b.size, e) <= Dist2(b.size, d)
    requires Dist2(b.size, e) >= Dist2(b.size, c)
    ensures forall d :: !CloserEmpty(b, c, d)
  {
  }

  /** The closest empty neighbour of `c` is no farther than any other
      empty neighbour, and comes first in neighbour order among equally
      close ones. */
  lemma ClosestEmpty(b: Board, c: Coord)
    requires b.Valid() && InBounds(b.size, c)
    ensures var es := EmptyCells(b, c);
      es != [] ==>
        var e := es[Closest(b.size, es)];
        forall d :: InBounds(b.size, d) && Adjacent(c, d) && At(b, d).None? ==>
          Dist2(b.size, e) <= Dist2(b.size, d) &&
          (Dist2(b.size, d) == Dist2(b.size, e) ==> Rank(c, e) <= Rank(c, d))
  {
    var es := EmptyCells(b, c);
    if es != [] {
      ClosestFirst(b.size, c, es);
    }
  }

  /** In a list sorted by neighbour order, the closest cell is no farther
      than any member and comes first among equally close ones. */
  lemma ClosestFirst(n: nat, c: Coord, s: seq<Coord>)
    requires s != [] && RankSorted(c, s)
    ensures var e := s[Closest(n, s)];
      forall d :: d in s ==>
        Dist2(n, e) <= Dist2(n, d) && (Dist2(n, d) == Dist2(n, e) ==> Rank(c, e) <= Rank(c, d))
  {
    var i := Closest(n, s);
    var e := s[i];
    forall d | d in s
      ensures Dist2(n, e) <= Dist2(n, d)
      ensures Dist2(n, d) == Dist2(n, e) ==> Rank(c, e) <= Rank(c, d)
    {
      var j :| 0 <= j < |s| && s[j] == d;
      if j < i {
        assert Rank(c, d) < Rank(c, e);
      }
    }
  }

  /** No sphere has an empty axis neighbour strictly closer to the centre. */
  ghost predicate Settled(b: Board)
    requires b.Valid()
  {
    forall c, d :: InBounds(b.size, c) && At(b, c).Some? ==> !CloserEmpty(b, c, d)
  }

  // ---------------------------------------------------------------------
  // One step
  // ---------------------------------------------------------------------

  /** The sphere in `source` moves to `target`. */
  datatype Step = Step(source: Coord, target: Coord)

  /** `s` is the move the sphere in its source cell makes. */
  predicate Legal(b: Board, s: Step)
    requires b.Valid()
  {
    InBounds(b.size, s.source) && Destination(b, s.source) == Some(s.target)
  }

  /** `s` is legal and no cell earlier in scan order has a move. */
  ghost predicate Earliest(b: Board, s: Step)
    requires b.Valid()
  {
    Legal(b, s) && forall d :: InBounds(b.size, d) && Before(d, s.source) ==> Destination(b, d).None?
  }

  /** Weight of a cell in the potential: its squared distance to the centre
      when occupied. */
  function PotentialWeight(n: nat): (Coord, Option<Colour>) -> nat
  {
    (c: Coord, v: Option<Colour>) => if v.Some? then Dist2(n, c) else 0
  }

  /** Sum of the squared distances to the centre of all spheres. */
  function Potential(b: Board): nat
    requires b.Valid()
  {
    Total(b, PotentialWeight(b.size), Origin)
  }

  function ColourWeight(k: Colour): (Coord, Option<Colour>) -> nat
  {
    (c: Coord, v: Option<Colour>) => if v == Some(k) then 1 else 0
  }

  /** Number of spheres of colour `k`. */
  function ColourCount(b: Board, k: Colour): nat
    requires b.Valid()
  {
    Total(b, ColourWeight(k), Origin)
  }

  /** Every cell is at or after the origin in scan order. */
  lemma AfterOrigin(n: nat, d: Coord)
    requires InBounds(n, d)
    ensures !Before(d, Origin)
  {
  }

  /** Sphere `s.source` goes to `s.target`: the target gets its colour, the
      source becomes empty, every other cell is unchanged, the number of
      spheres of each colour is kept, and the potential goes down by the
      drop in squared distance. */
  function Apply(b: Board, s: Step): (r: Board)
    requires b.Valid() && InBounds(b.size, s.source) && InBounds(b.size, s.target)
    requires s.source != s.target
    requires At(b, s.source).Some? && At(b, s.target).None?
    ensures r.Valid() && r.size == b.size
    ensures At(r, s.target) == At(b, s.source) && At(r, s.source).None?
    ensures forall d :: InBounds(b.size, d) && d != s.source && d != s.target ==> At(r, d) == At(b, d)
    ensures forall k :: ColourCount(r, k) == ColourCount(b, k)
    ensures Occupied(r) == Occupied(b)
    ensures Potential(r) == Potential(b) - Dist2(b.size, s.source) + Dist2(b.size, s.target)
  {
    var mid := SetCell(b, s.target, At(b, s.source));
    var r := SetCell(mid, s.source, None);
    AfterOrigin(b.size, s.source);
    AfterOrigin(b.size, s.target);
    forall k
      ensures ColourCount(r, k) == ColourCount(b, k)
    {
      TotalUpdate(b, ColourWeight(k), s.target, At(b, s.source), Origin);
      TotalUpdate(mid, ColourWeight(k), s.source, None, Origin);
    }
    OccupiedAfterSet(b, s.target, At(b, s.source));
    OccupiedAfterSet(mid, s.source, None);
    TotalUpdate(b, PotentialWeight(b.size), s.target, At(b, s.source), Origin);
    TotalUpdate(mid, PotentialWeight(b.size), s.source, None, Origin);
    r
  }

  // ---------------------------------------------------------------------
  // Settling the whole board
  // ---------------------------------------------------------------------

  /** The first cell at or after `c` in scan order whose sphere moves, with
      its destination. */
  function FirstStepFrom(b: Board, c: Coord): (r: Option<Step>)
    requires b.Valid() && ScanPos(b.size, c)
    decreases b.size - c.x, b.size - c.y, b.size - c.z
    ensures r.Some? ==> Legal(b, r.value) && !Before(r.value.source, c)
    ensures r.Some? ==> forall d :: InBounds(b.size, d) && !Before(d, c) && Before(d, r.value.source) ==>
              Destination(b, d).None?
    ensures r.None? <==> forall d :: InBounds(b.size, d) && !Before(d, c) ==> Destination(b, d).None?
  {
    if c == End(b.size) then None
    else
      forall d | InBounds(b.size, d)
        ensures !Before(d, c) <==> d == c || !Before(d, Next(b.size, c))
      {
        NextIsSuccessor(b.size, c, d);
      }
      match Destination(b, c)
      case Some(t) => Some(Step(c, t))
      case None => FirstStepFrom(b, Next(b.size, c))
  }

  /** The scan finds the earliest move of the board, and finds none exactly
      when the board is settled. */
  lemma FirstStepIsEarliest(b: Board)
    requires b.Valid()
    ensures FirstStepFrom(b, Origin).Some? ==> Earliest(b, FirstStepFrom(b, Origin).value)
    ensures FirstStepFrom(b, Origin).None? <==> Settled(b)
  {
    var r := FirstStepFrom(b, Origin);
    forall d | InBounds(b.size, d)
      ensures !Before(d, Origin)
    {
      AfterOrigin(b.size, d);
    }
    if r.None? {
      forall c, d | InBounds(b.size, c) && At(b, c).Some?
        ensures !CloserEmpty(b, c, d)
      {
        assert Destination(b, c).None?;
      }
    } else {
      var c := r.value.source;
      assert !Settled(b) by {
        var d := Destination(b, c).value;
        assert CloserEmpty(b, c, d);
      }
    }
  }

  /** `steps` takes `b` to `last`, each step the earliest move of the board
      it is made on. */
  ghost predicate Replays(b: Board, steps: seq<Step>, last: Board)
    requires b.Valid()
    decreases |steps|
  {
    if steps == [] then last == b
    else
      Earliest(b, steps[0]) && Replays(Apply(b, steps[0]), steps[1..], last)
  }

  /** The outcome of settling: the moves made, in order, and the final
      board. */
  datatype Settlement = Settlement(steps: seq<Step>, board: Board)

  /** Moves spheres one at a time, always the first movable sphere in scan
      order, rescanning from the start after each move, until none can
      move. The final board is settled, holds as many spheres of each
      colour as `b`, and is reached from `b` by the recorded moves; no move
      is made exactly when `b` is already settled. Settling terminates
      because every move lowers the potential. */
  function SetDestinations(b: Board): (r: Settlement)
    requires b.Valid()
    decreases Potential(b)
    ensures r.board.Valid() && r.board.size == b.size
    ensures Settled(r.board)
    ensures forall k :: ColourCount(r.board, k) == ColourCount(b, k)
    ensures Occupied(r.board) == Occupied(b)
    ensures Replays(b, r.steps, r.board)
    ensures r.steps == [] <==> Settled(b)
    ensures r.steps == [] ==> r.board == b
  {
    FirstStepIsEarliest(b);
    match FirstStepFrom(b, Origin)
    case None => Settlement([], b)
    case Some(s) =>
      var rest := SetDestinations(Apply(b, s));
      var r := Settlement([s] + rest.steps, rest.board);
      assert r.steps[1..] == rest.steps;
      r
  }
}
