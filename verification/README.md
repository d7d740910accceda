# CubicSameGame puzzle engine in Dafny

A model of the engine of CubicSameGame, a three-dimensional SameGame. Spheres
fill the cells of an N×N×N lattice, each one of N colours drawn for the round.
Clicking a sphere that has a same-coloured axis neighbour deletes a group of
spheres and scores its size. The remaining spheres then drift towards the
centre of the cube, one cell at a time. The round is over when no click can
delete anything, and it is won when every sphere has been deleted.

The modules follow the `Game` class of `cubic_same_game.py`:

- `Geometry`: cell coordinates, the scan order of `itertools.product`, the
  sphere positions, the squared distance to the centre, and the axis
  neighbours in the order +x, −x, +y, −y, +z, −z.
- `Tags`: the integer tag each sphere gets at set-up, and its decoding back
  into coordinates (`get_components`).
- `Grid`: the board as a map from cells to an optional colour, the set-up of
  a full board, and the number of occupied cells.
- `Matching`: `is_deletable`, the straight runs of `_find`, the group of
  `find_same_colors`, and `can_continue`.
- `Settling`: `empty_cells`, the closest empty neighbour, and the repeated
  single moves of `set_destinations`.
- `Game`: the status machine of `click`, `delete`, `update` and
  `restart_game`, the score board, and the game-over message.
- `Arith` and `Wrappers`: integer facts for the tag arithmetic, and `Option`.

The group deleted by a click is what `find_same_colors` collects: the clicked
sphere, then in each of the six directions the unbroken straight run of its
colour. That is not the connected same-colour component. On a one-colour board
of side n ≥ 2 a click removes 3n − 2 spheres, not n³
(`Matching.MonochromeGroup`). `is_deletable` compares the two cells' colour
entries (cubic_same_game.py:353), so two empty cells count as equal; the model
does the same (`Matching.IsDeletable`). Clicks only reach occupied cells.

The sphere distance is the Euclidean norm of the sphere's position. The
model uses the squared norm of the integer set-up position. The square root
is monotone, so comparisons and minima come out the same.

## Model

| member | source | states |
|---|---|---|
| Geometry.Pts | cubic_same_game.py:229-230 | the N positions along an axis are 2i − (N−1): spaced by two and symmetric about the centre, for odd and even N |
| Geometry.Dist2 | cubic_same_game.py:101-103 | the distance measure of an in-bounds cell is the sum of the squares of its sphere's three coordinates, taken from the axis positions |
| Geometry.Scan | cubic_same_game.py:237 | the cells visited from a cell onwards are exactly the in-bounds cells not before it in lexicographic order |
| Geometry.Neighbors | cubic_same_game.py:345-349 | at most six neighbours, exactly the in-bounds cells one step away on one axis, in the order +x, −x, +y, −y, +z, −z |
| Tags.Components | cubic_same_game.py:256-260 | a tag decodes to its quotient by N², then the tag's quotient by N taken modulo N, then the tag modulo N |
| Tags.TagRoundTrip | cubic_same_game.py:256-260 | decoding the tag of an in-bounds cell gives the cell back, and the tag lies in [0, N³) |
| Tags.ComponentsRoundTrip | cubic_same_game.py:256-260 | every tag in [0, N³) decodes to an in-bounds cell whose tag it is |
| Tags.ProductOrder | cubic_same_game.py:237-241 | the enumeration lists N³ cells, and the i-th cell is the one whose tag is i |
| Tags.ProductCoversOnce | cubic_same_game.py:237-241 | the enumeration lists every in-bounds cell, and no cell twice |
| Grid.SetCell | cubic_same_game.py:121-124 | setting a cell changes that cell only |
| Grid.OccupiedAfterSet | cubic_same_game.py:121-124 | setting a cell changes the sphere count only by what that cell held before and after |
| Grid.OccupiedExtremes | cubic_same_game.py:390 | the sphere count is at most N³; it is 0 exactly when every cell is empty and N³ exactly when every cell is occupied |
| Grid.SetupSpheres | cubic_same_game.py:228-241 | the cell with tag i holds colour `colours[picks[i]]`; every cell holds one of the round's colours; N³ spheres |
| Matching.AnySame | cubic_same_game.py:351-355 | the scan of neighbours answers true exactly when some neighbour has the same colour entry |
| Matching.IsDeletable | cubic_same_game.py:351-355 | true exactly when some in-bounds axis neighbour has the same colour entry as the cell |
| Matching.Run | cubic_same_game.py:324-332 | the run is the cells 1, 2, … steps along the direction, all in bounds with the colour, and the cell after it is off the board or differs |
| Matching.RunMembership | cubic_same_game.py:324-332 | the cell k steps away is in the run exactly when all cells 1..k hold the colour |
| Matching.Runs | cubic_same_game.py:337-343 | the six runs together list distinct cells of the colour, and the cell k steps along a direction is among them exactly when all cells up to it hold the colour |
| Matching.FindSameColors | cubic_same_game.py:334-343 | empty exactly when the cell is not deletable; otherwise the clicked cell first, at least two distinct cells, all of its colour, and a cell k steps along an axis is in it exactly when all cells up to it hold that colour |
| Matching.GroupMembership | cubic_same_game.py:334-343 | a cell k ≥ 1 steps along a direction is in the group exactly when all cells up to it hold the clicked colour |
| Matching.GroupSize | cubic_same_game.py:334-336 | the group of a deletable cell holds at least two cells |
| Matching.MonochromeGroup | cubic_same_game.py:324-343 | on a one-colour board of side N ≥ 2 a click deletes exactly 3N − 2 spheres, fewer than the N³ connected ones |
| Matching.CanContinueFrom | cubic_same_game.py:409-414 | the scan from a cell onwards finds a playable cell exactly when one exists at or after it |
| Matching.CanContinue | cubic_same_game.py:409-414 | true exactly when some occupied cell has an in-bounds axis neighbour of the same colour |
| Settling.KeepEmpty | cubic_same_game.py:376-379 | keeps exactly the empty cells of the list, in order |
| Settling.EmptyCells | cubic_same_game.py:376-379 | exactly the empty in-bounds axis neighbours, in neighbour order |
| Settling.ArgMin | cubic_same_game.py:369 | the chosen index has the least key, and every earlier index a strictly greater key: the first minimum |
| Settling.ArgMinFrom | cubic_same_game.py:369 | a later element replaces the current best only when its key is strictly smaller, so the first of the least keys wins |
| Settling.Closest | cubic_same_game.py:369 | the chosen cell is no farther from the centre than any other, and strictly closer than every one listed before it |
| Settling.ClosestEmpty | cubic_same_game.py:368-370 | the chosen empty neighbour is no farther from the centre than any other empty neighbour, and comes first in neighbour order among equally close ones |
| Settling.Destination | cubic_same_game.py:367-370 | a sphere moves only into an empty neighbour strictly closer to the centre, the closest and first among ties; it stays exactly when its cell is empty or no empty neighbour is closer |
| Settling.Apply | cubic_same_game.py:132-137 | the target gets the sphere's colour and the source is emptied; nothing else changes; the count of each colour is kept; the potential drops by the distance gained |
| Settling.FirstStepFrom | cubic_same_game.py:366-371 | the scan from a cell finds the earliest cell at or after it whose sphere moves, and none exactly when no such cell exists |
| Settling.FirstStepIsEarliest | cubic_same_game.py:365-374 | the scan from the start finds the earliest move of the board, and none exactly when the board is settled |
| Settling.SetDestinations | cubic_same_game.py:365-374 | the final board is settled and holds as many spheres of each colour; it is reached by the recorded moves, each the earliest of its board; no move exactly when the board was settled, and then the board is unchanged |
| Game.Display | cubic_same_game.py:161-166 | a zero score starts a new total at zero; any other score adds to the total |
| Game.NewBoard | cubic_same_game.py:228-241 | a new round's board gives the cell with tag i the drawn colour `colours[picks[i]]`, holds N³ spheres and is settled |
| Game.NewGame | cubic_same_game.py:171-195 | the game opens in play on the new board of side 4 built from the colour draws, with score and total zero and nothing moving, and the invariant holds |
| Game.Clear | cubic_same_game.py:121-130 | the group's cells are emptied and every other cell is unchanged |
| Game.ClearCount | cubic_same_game.py:262-275 | emptying k distinct occupied cells leaves k fewer spheres |
| Game.Click | cubic_same_game.py:243-275 | a click outside play or off the spheres changes nothing; otherwise the tag decodes to the clicked cell, the sphere only shakes exactly when the cell is not deletable, and a deletion scores exactly the group's size, at least 2, added to the total |
| Game.Update | cubic_same_game.py:277-322 | shake done returns to play; disappearance done empties the group and enters the move phase with nothing else changed, so the moves are computed on the next frame; moves start exactly when the board is not settled; otherwise play resumes exactly when a click can delete and the game is over otherwise; restart done shows the new board with a zero total |
| Game.RestartGame | cubic_same_game.py:394-407 | the restart prepares a full board of the chosen side with the drawn colours, and the status becomes restart; board, score and moving flag are kept |
| Game.ClickKeepsConsistent | cubic_same_game.py:262-275 | a click keeps the invariant: deleted plus remaining spheres make N³, the board is settled when a click is possible, and the game is over only when no click deletes |
| Game.UpdateKeepsConsistent | cubic_same_game.py:277-322 | every frame keeps the invariant |
| Game.RestartKeepsConsistent | cubic_same_game.py:381-407 | the restart keeps the invariant |
| Game.Won | cubic_same_game.py:387-392 | while deleted and remaining spheres make up the cube, as at game over, the "You Won!" message shows exactly when the board is empty |
| Game.StatusTransitions | cubic_same_game.py:40-47 | of the six phases, a click, a frame or the restart button either keeps the phase or makes one of the listed changes: play to shake or deletion, shake to play, deletion to moves, moves to play or game over, game over to restart, restart to play |

## Left out

- Rendering, lights, the moon and sun effects, the window and the on-screen texts are not modelled. The sun effect for groups of four or more is purely visual.
- Rotation of the cube with the arrow keys is not modelled. It turns every sphere about the centre, which keeps distances. In floating point, though, it may break ties between equally distant cells differently from the model's exact ties.
- Animation timing is the `done` input of `Game.Update`, which says whether the running sequence has finished.
- Picking is the `pick` input of `Game.Click`: the tag of the sphere the ray hit, or none. Only sphere models can be hit, and a moved sphere reports the tag of its new cell. So `Game.Click` requires a hit to name an occupied cell.
- The random choices are inputs: the colour sample of `Colors.select` and the per-cell colour indices of `setup_spheres`.
- Game.RestartGame: requires game-over status, because its button is only on screen then. A second press during the restart sequence is not modelled.
- The new board is drawn when the restart starts rather than when its sequence ends. `_initialize` only runs at the end, and nothing reads the new board earlier.
- Python recursion depth limits on the recursive generators `_find` and `set_destinations` are not modelled.
- The animation flags `destination` and `move_model` are not modelled. They decide which spheres are animated, not where spheres end up.
