/** The game's state machine: the status the frame update steps through,
    the score board, clicks, the frame update and the restart. Animation
    progress, the picking ray and the random set-up are inputs. */
module Game {
  import opened Wrappers
  import opened Geometry
  import opened Tags
  import opened Grid
  import opened Matching
  import opened Settling

  /** Phases of the game. A deleting click carries the group whose spheres
      are still disappearing; a restart carries the board the new round
      starts with. */
  datatype Status = Play | Clicked | Delete(group: seq<Coord>) | Move | GameOver | Restart(upcoming: Board)

  /** Score of the last deletion and the total of the round. */
  datatype ScoreBoard = ScoreBoard(score: nat, total: nat)

  datatype GameState = GameState(status: Status, board: Board, scoreboard: ScoreBoard, moving: bool)

  /** Side of the cube in the first round. */
  const InitialSize: nat := 4

  /** Shows `n` as the latest score: zero starts a new round with total
      zero, anything else adds to the total. */
  function Display(sb: ScoreBoard, n: nat): (r: ScoreBoard)
    ensures r.score == n
    ensures n == 0 ==> r.total == 0
    ensures n > 0 ==> r.total - sb.total == n
  {
    var total := if n == 0 then 0 else sb.total;
    ScoreBoard(n, total + n)
  }

  /** The board of a new round: side `n`, each cell one of the `n` colours
      drawn for the round. */
  function NewBoard(n: nat, colours: seq<Colour>, picks: seq<nat>): (b: Board)
    requires n > 0 && |colours| == n && |picks| == Cube(n)
    requires forall i :: 0 <= i < |picks| ==> picks[i] < n
    ensures b.Valid() && b.size == n && Occupied(b) == Cube(n)
    ensures forall i :: 0 <= i < Cube(n) ==> At(b, Product(n)[i]) == Some(colours[picks[i]])
    ensures Settled(b)
  {
    var b := SetupSpheres(n, colours, picks);
    assert Settled(b) by {
      forall c, d | InBounds(b.size, c) && At(b, c).Some?
        ensures !CloserEmpty(b, c, d)
      {
      }
    }
    b
  }

  /** The game as it opens: a full board of side four, nothing scored, ready
      for a click. */
  function NewGame(colours: seq<Colour>, picks: seq<nat>): (g: GameState)
    requires |colours| == InitialSize && |picks| == Cube(InitialSize)
    requires forall i :: 0 <= i < |picks| ==> picks[i] < InitialSize
    ensures g.status == Play && g.board == NewBoard(InitialSize, colours, picks)
    ensures g.scoreboard == ScoreBoard(0, 0) && !g.moving
    ensures Consistent(g)
  {
    GameState(Play, NewBoard(InitialSize, colours, picks), Display(ScoreBoard(0, 0), 0), false)
  }

  // ---------------------------------------------------------------------
  // Removing a group
  // ---------------------------------------------------------------------

  /** The board with the cells of `group` emptied. */
  function Clear(b: Board, group: seq<Coord>): (r: Board)
    requires b.Valid() && forall e :: e in group ==> InBounds(b.size, e)
    decreases |group|
    ensures r.Valid() && r.size == b.size
    ensures forall d :: InBounds(b.size, d) ==> At(r, d) == if d in group then None else At(b, d)
  {
    if group == [] then b
    else
      assert forall e :: e in group ==> e == group[0] || e in group[1..];
      Clear(SetCell(b, group[0], None), group[1..])
  }

  /** Emptying `k` distinct occupied cells leaves `k` fewer spheres. */
  lemma {:induction false} ClearCount(b: Board, group: seq<Coord>)
    requires b.Valid() && Distinct(group)
    requires forall e :: e in group ==> InBounds(b.size, e) && At(b, e).Some?
    decreases |group|
    ensures Occupied(Clear(b, group)) == Occupied(b) - |group|
  {
    if group != [] {
      var b1 := SetCell(b, group[0], None);
      OccupiedAfterSet(b, group[0], None);
      var rest := group[1..];
      assert Distinct(rest);
      forall e | e in rest
        ensures InBounds(b.size, e) && At(b1, e).Some?
      {
        var j :| 0 <= j < |rest| && rest[j] == e;
        assert group[j + 1] == e && group[0] != e;
      }
      ClearCount(b1, rest);
      assert forall e :: e in group ==> e == group[0] || e in rest;
    }
  }

  // ---------------------------------------------------------------------
  // The state machine
  // ---------------------------------------------------------------------

  /** The state holds a board and whatever its status refers to is on it. */
  ghost predicate WellFormed(g: GameState)
  {
    g.board.Valid() &&
    match g.status
    case Delete(group) => forall e :: e in group ==> InBounds(g.board.size, e)
    case Restart(upcoming) => upcoming.Valid()
    case _ => true
  }

  /** What holds of every state the game reaches. The spheres deleted in
      the round, counted by the total, and the spheres left add up to the
      cube, except that a group still disappearing is counted already. The
      board is settled whenever the player may click, and once the moves
      are under way. The game is over only when no click would delete
      anything. */
  ghost predicate Consistent(g: GameState)
  {
    WellFormed(g) &&
    var n := g.board.size;
    var total := g.scoreboard.total;
    match g.status
    case Play => !g.moving && Settled(g.board) && total + Occupied(g.board) == Cube(n)
    case Clicked => !g.moving && Settled(g.board) && total + Occupied(g.board) == Cube(n)
    case Delete(group) =>
      !g.moving && group != [] && Distinct(group) &&
      (forall e :: e in group ==> At(g.board, e).Some?) &&
      total + Occupied(g.board) == Cube(n) + |group|
    case Move => (g.moving ==> Settled(g.board)) && total + Occupied(g.board) == Cube(n)
    case GameOver =>
      !g.moving && Settled(g.board) && !CanContinue(g.board) && total + Occupied(g.board) == Cube(n)
    case Restart(upcoming) =>
      !g.moving && Occupied(upcoming) == Cube(upcoming.size) && Settled(upcoming) && 3 <= upcoming.size <= 6
  }

  /** `t` is the tag of a sphere on the board: only spheres can be hit by
      the picking ray, and each reports the tag of the cell it is in. */
  predicate Picked(b: Board, t: nat)
    requires b.Valid()
  {
    t < Cube(b.size) && InBounds(b.size, Components(b.size, t)) && At(b, Components(b.size, t)).Some?
  }

  /** A click. It counts only while the game waits for one and the ray hits
      a sphere, reported by its tag. The clicked cell's group is found; if
      it is empty the sphere just shakes, otherwise its size is scored and
      the group starts to disappear. */
  function Click(g: GameState, pick: Option<nat>): (r: GameState)
    requires WellFormed(g)
    requires g.status == Play && pick.Some? ==>
               Picked(g.board, pick.value)
    ensures WellFormed(r) && r.board == g.board && r.moving == g.moving
    ensures g.status != Play || pick.None? ==> r == g
    ensures g.status == Play && pick.Some? ==>
              var c := Components(g.board.size, pick.value);
              InBounds(g.board.size, c) && Tag(g.board.size, c) == pick.value &&
              (r.status == Clicked <==> !IsDeletable(g.board, c)) &&
              (r.status == Clicked ==> r.scoreboard == g.scoreboard) &&
              (r.status != Clicked ==>
                 var group := FindSameColors(g.board, c);
                 r.status == Delete(group) && |group| >= 2 &&
                 r.scoreboard.score == |group| && r.scoreboard.total == g.scoreboard.total + |group|)
  {
    if g.status != Play || pick.None? then g
    else
      var n := g.board.size;
      ComponentsRoundTrip(n, pick.value);
      var c := Components(n, pick.value);
      var group := FindSameColors(g.board, c);
      if group == [] then g.(status := Clicked)
      else g.(status := Delete(group), scoreboard := Display(g.scoreboard, |group|))
  }

  /** One frame. `done` says whether the running animation (the shake, the
      disappearing group, the moving spheres, the restart sequence) has
      finished. A finished shake returns to play; a finished disappearance
      empties the group's cells and starts the moves. In the move phase,
      when no spheres are moving, the board is settled: if anything moved,
      the spheres are now moving; if nothing did, play resumes when some
      click can delete, and the game is over otherwise. A finished restart
      shows the new board with the score reset. */
  function Update(g: GameState, done: bool): (r: GameState)
    requires WellFormed(g)
    ensures WellFormed(r)
    ensures g.status in {Play, GameOver} ==> r == g
    ensures !done && !g.status.Move? ==> r == g
    ensures g.status == Clicked && done ==> r == g.(status := Play)
    ensures g.status.Delete? && done ==>
              r == g.(status := Move, board := Clear(g.board, g.status.group))
    ensures g.status == Move && !g.moving ==>
              var s := SetDestinations(g.board);
              r.board == s.board && r.scoreboard == g.scoreboard &&
              (r.moving <==> !Settled(g.board)) &&
              (!r.moving ==> (r.status == Play <==> CanContinue(g.board)) && r.status in {Play, GameOver}) &&
              (r.moving ==> r.status == Move)
    ensures g.status == Move && g.moving ==> r == g.(moving := !done)
    ensures g.status.Restart? && done ==>
              r == GameState(Play, g.status.upcoming, ScoreBoard(0, 0), false)
  {
    match g.status
    case Play => g
    case GameOver => g
    case Clicked => if done then g.(status := Play) else g
    case Delete(group) =>
      if done then g.(status := Move, board := Clear(g.board, group)) else g
    case Move =>
      if g.moving then g.(moving := !done)
      else
        var s := SetDestinations(g.board);
        if s.steps != [] then g.(board := s.board, moving := true)
        else if CanContinue(g.board) then g.(status := Play)
        else g.(status := GameOver)
    case Restart(upcoming) =>
      if done then GameState(Play, upcoming, Display(g.scoreboard, 0), false) else g
  }

  /** The restart button of the game-over screen, with the side chosen
      there (3 to 6) and the random draws for the new board: the remaining
      spheres disappear and the new round is prepared. */
  function RestartGame(g: GameState, size: nat, colours: seq<Colour>, picks: seq<nat>): (r: GameState)
    requires WellFormed(g) && g.status == GameOver
    requires 3 <= size <= 6 && |colours| == size && |picks| == Cube(size)
    requires forall i :: 0 <= i < |picks| ==> picks[i] < size
    ensures WellFormed(r) && r.status.Restart? && r.board == g.board && r.scoreboard == g.scoreboard
    ensures r.moving == g.moving
    ensures var f := r.status.upcoming;
              f.size == size && Occupied(f) == Cube(size) &&
              forall i :: 0 <= i < Cube(size) ==> At(f, Product(size)[i]) == Some(colours[picks[i]])
  {
    g.(status := Restart(NewBoard(size, colours, picks)))
  }

  /** The message of the game-over screen: won when the total equals the
      number of cells. While deleted and remaining spheres make up the cube,
      as they do at game over, that is exactly when the board is empty. */
  function Won(g: GameState): (r: bool)
    requires g.board.Valid()
    ensures g.scoreboard.total + Occupied(g.board) == Cube(g.board.size) ==>
              (r <==> forall c :: InBounds(g.board.size, c) ==> At(g.board, c).None?)
  {
    OccupiedExtremes(g.board);
    g.scoreboard.total == Cube(g.board.size)
  }

  /** The phase changes of the game: a click leaves play for a shake or a
      deletion, the restart button leaves game over for a restart, and the
      frame update returns from a shake to play, goes from a deletion to the
      moves, from the moves to play or game over, and from a restart to
      play. */
  predicate Transition(from: Status, to: Status)
  {
    match from
    case Play => to == Clicked || to.Delete?
    case Clicked => to == Play
    case Delete(_) => to == Move
    case Move => to == Play || to == GameOver
    case GameOver => to.Restart?
    case Restart(_) => to == Play
  }

  // ---------------------------------------------------------------------
  // Only the listed phase changes happen
  // ---------------------------------------------------------------------

  /** A click, a frame and the restart button each keep the status or make
      one of the phase changes of `Transition`. */
  lemma StatusTransitions(g: GameState, pick: Option<nat>, done: bool,
                          size: nat, colours: seq<Colour>, picks: seq<nat>)
    requires WellFormed(g)
    requires g.status == Play && pick.Some? ==> Picked(g.board, pick.value)
    ensures var r := Click(g, pick); r.status == g.status || Transition(g.status, r.status)
    ensures var r := Update(g, done); r.status == g.status || Transition(g.status, r.status)
    ensures g.status == GameOver && 3 <= size <= 6 && |colours| == size && |picks| == Cube(size) &&
            (forall i :: 0 <= i < |picks| ==> picks[i] < size) ==>
              Transition(g.status, RestartGame(g, size, colours, picks).status)
  {
  }

  // ---------------------------------------------------------------------
  // The invariant is kept
  // ---------------------------------------------------------------------

  lemma ClickKeepsConsistent(g: GameState, pick: Option<nat>)
    requires Consistent(g)
    requires g.status == Play && pick.Some? ==>
               Picked(g.board, pick.value)
    ensures Consistent(Click(g, pick))
  {
    if g.status == Play && pick.Some? {
      var n := g.board.size;
      ComponentsRoundTrip(n, pick.value);
      var c := Components(n, pick.value);
      var group := FindSameColors(g.board, c);
      if group != [] {
        assert forall e :: e in group ==> At(g.board, e).Some?;
      }
    }
  }

  lemma UpdateKeepsConsistent(g: GameState, done: bool)
    requires Consistent(g)
    ensures Consistent(Update(g, done))
  {
    match g.status
    case Delete(group) =>
      if done {
        ClearCount(g.board, group);
        var b := Clear(g.board, group);
      }
    case Restart(upcoming) =>
    case Move =>
    case _ =>
  }

  lemma RestartKeepsConsistent(g: GameState, size: nat, colours: seq<Colour>, picks: seq<nat>)
    requires Consistent(g) && g.status == GameOver
    requires 3 <= size <= 6 && |colours| == size && |picks| == Cube(size)
    requires forall i :: 0 <= i < |picks| ==> picks[i] < size
    ensures Consistent(RestartGame(g, size, colours, picks))
  {
  }
}
