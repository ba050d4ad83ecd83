# LaFortuna Frog: a verified model of the game-state engine

`frog.c` is a Frogger clone for an AVR board with an LCD. Underneath the
display and timer plumbing it is a small, sequential state machine. It works
over fixed-size arrays and 8-bit and 16-bit integers:

- `roadLanes` holds 11 lanes of 3 vehicles, each `{prevPos, pos}` as bytes;
- `mainFrog` is `{hiTrack, track, prevTrack, x, prevX}`;
- `goalReached` has 5 slots;
- `lives` is a byte, `score` is 16 bits, and `enableCollision` is a flag.

The model has four modules.

- `FrogConfig` (`frog_config.dfy`) holds the layout constants, the constant
  lane tables, the initial road grid and the value types. `Byte` and `Word`
  are `uint8_t` and `uint16_t`. `ToByte` and `ToWord` are the truncating
  stores C performs.
- `Vehicles` (`frog_vehicles.dfy`) holds the vehicle motion of
  `updateVehicles`. It also holds the dirty rectangles that one pass of the
  vehicle loop of `drawVehicles` paints, with their meaning on screen.
  `Paint` gives the colour a column ends up with.
- `Session` (`frog_session.dfy`) holds the whole state as a value `World`,
  one function per handler or handler phase, the invariant `Inv`, and the
  lemmas.
- `Game` (`frog_game.dfy`) holds the class `GameState`, whose fields are the
  globals of the source. `roadLanes` is an `array2` and `goalReached` an
  `array`. Every handler is a method that updates them in place. Each method
  that models a whole C function or handler phase is proved to keep
  `Valid()` and to leave the object in the state that its `Session` function
  computes from the old state (`Abs() == XW(old(Abs()))`). The drawing
  helpers under `DrawVehicles` state instead what they do to the array slots
  and the canvas.

`fill_rectangle` is modelled as appending a `Fill(left, right, top, bottom,
colour)` to the log `canvas`. Rectangle coordinates are the promoted `int`
values the source computes. The colour constants are an opaque enumeration.

Code and plain reading differ in a few places. The model follows the code:

- `resetFrog` ends with `drawFrog()` and `drawVehicles()`. So a death, and
  every goal capture, also commits `prevX`, `prevTrack` and every vehicle's
  `prevPos`. They do not stay untouched. `DeathW` and `ResetFrogW` state the
  resulting frog `Frog(14, 14, 14, 126, 126)`.
- `goalReached` has a four-value initialiser (frog.c:43). Its fifth slot is
  zero, like the others.
- The up button on track 3 never moves the frog up. It only runs the goal
  loop. That loop does not stop after a capture, so the reset column 126 can
  take goal 2 in the same tick.
- The constructor is the initialised globals with `mainFrog = defaultFrog`
  from `main` (frog.c:361), because no handler runs before that assignment.

## Model

| member | source | states |
|---|---|---|
| Vehicles.Advance | frog.c:207-211 | the leading edge moves to `(pos + roadLaneSpeed[lane]) mod 256` through the byte-converted speed (-2 read as 254); `prevPos` is unchanged |
| Vehicles.UpdatedLanes | frog.c:205-213 | every vehicle of every lane is advanced by its own lane's speed, and the grid keeps its shape |
| Vehicles.UpdatedLanesNPos | frog.c:205-213 | after `n` updates a vehicle's `pos` is `(pos + n·speed) mod 256` and its `prevPos` is untouched |
| Vehicles.StillLaneNeverMoves | frog.c:62 | a vehicle in a lane of speed 0 (lane 5) is unchanged after any number of updates |
| Vehicles.DrawVehicle | frog.c:97-149 | one pass of the vehicle loop leaves `prevPos == pos` and `pos` unchanged on every branch, and paints at most three rectangles |
| Vehicles.RightMoveFills | frog.c:100-121 | a right mover paints two move rectangles exactly when `pos > prevPos`: `[prevPos, pos]` in the lane colour, then `[prevPos-size, pos-size]` in the track colour. It paints none on a wrap. A tail `[z, y]` follows exactly when `pos < size` and `y < 240`, in the track colour |
| Vehicles.LeftMoveFills | frog.c:123-146 | a left mover paints the two move rectangles exactly when `(pos-size) mod 256 < (prevPos-size) mod 256`: `[pos-size, prevPos-size]` in the lane colour, then `[pos, prevPos]` in the track colour. The tail condition is the same, but the tail is in the lane colour |
| Vehicles.DrawnLanes | frog.c:90-155 | after the draw every vehicle of the grid has `prevPos == pos` and keeps its `pos` |
| Vehicles.RightMoveRepaintsBody | frog.c:106-112 | painting a right mover's rectangles over its old body `(prevPos-size, prevPos]` leaves exactly the new body `(pos-size, pos]` in the lane colour whenever it advanced without wrapping, however far (several updates between two draws included) |
| Vehicles.LeftMoveRepaintsBody | frog.c:131-137 | the same for a left mover clear of column 0 and its body `[pos-size, pos)`, for any advance without wrapping |
| Vehicles.WrapTailExample | frog.c:114-121 | `pos=5, prevPos=250, size=20` gives `y=241` and `z=229`, so no tail is painted |
| Vehicles.StillVehicleDrawsNothing | frog.c:63 | a committed vehicle of the zero-length lane paints nothing |
| Vehicles.StillRowDrawsNothing | frog.c:97-152 | a zero-length lane of committed vehicles paints nothing in the whole vehicle loop |
| Session.InitialWorld | frog.c:43-80 | the initial globals with the default frog satisfy the invariant |
| Session.DrawFrogW | frog.c:158-175 | `drawFrog` commits `prevTrack = track` and `prevX = x`, and moves nothing. It paints two rectangles if the frog moved (the sprite at `(x, track)` in the frog colour, then the vacated place `(prevX, prevTrack)` in `colours[prevTrack-1]`), one if it did not move and collisions are off (the sprite in lime green), and none otherwise. Lanes, goal flags, lives, score and the switch are kept |
| Session.DrawFrogPixels | frog.c:158-175 | on screen after `drawFrog`: every pixel of a moved frog's new place is the frog colour, the rest of its old place the track background; a frog that stayed put with collisions off is lime green; every other pixel keeps its colour |
| Session.FrogRectsDisjoint | frog.c:159-167 | the vacated rectangle painted in the background never overlaps the new frog sprite |
| Session.DrawVehiclesW | frog.c:90-155 | `drawVehicles` commits every vehicle, only appends to the screen, keeps the frog, goal flags, lives, score and switch, and keeps the invariant |
| Session.GoalsFillsMarkers | frog.c:192-202 | `drawGoals` paints a frog marker in slot `i` exactly when `goalReached[i]` is set |
| Session.DrawGoalsW | frog.c:192-202 | `drawGoals` only paints |
| Session.DrawRoadsW | frog.c:178-189 | `drawRoads` only paints, appending in order: band `x` for every track `x` (rows `22x+12` to `22(x+1)+12`, `colours[x]`, full width), then exactly the rectangles of `drawGoals`, then the border above the goal row in `colours[goalTrack]` as the last rectangle |
| Session.TrackBands | frog.c:180-183 | the band loop paints one rectangle per track, band `x` at place `x` |
| Session.TrackBandsTile | frog.c:180-183 | consecutive bands meet, so the bands cover rows 12 to 320 without gaps |
| Session.RefreshW | frog.c:269-275 | the display interrupt commits the frog and every vehicle in place, only appends to the screen, changes nothing else, and keeps the invariant |
| Session.ResetFrogW | frog.c:239-245 | `resetFrog` leaves the frog at `Frog(14, 14, 14, 126, 126)`, commits every vehicle, only appends to the screen, and keeps lives, score, goal flags and the switch |
| Session.ResetFrogDraws | frog.c:239-245 | `resetFrog` is the three field stores followed by `drawFrog`, then `drawVehicles` |
| Session.DeathW | frog.c:233-237 | `deathHandler` takes exactly one life as a byte (0 wraps to 255) and resets the frog. It keeps score, goal flags and the collision switch, and commits every vehicle at its current position |
| Session.Hits | frog.c:219-225 | the three overlap tests hold exactly when `x-12` or `x` lies strictly inside `(pos-len, pos)` |
| Session.HitsIsOverlap | frog.c:219-225 | independently of the three tests: for a vehicle longer than the frog they hold exactly when the open spans `(x-12, x)` and `(pos-len, pos)` overlap, and a length-0 vehicle never hits |
| Session.LanesLongerThanFrog | frog.c:63 | every vehicle length in the table other than 0 exceeds the frog's 12 pixels, so the overlap reading applies to every moving lane |
| Session.FirstTestImpliesThird | frog.c:220-224 | the first overlap test implies the third |
| Session.HitsExamples | frog.c:219-225 | `x=100, len=20`: `pos=95` hits and `pos=60` misses |
| Session.CollideW | frog.c:215-231 | a life is lost exactly when collisions are on, `3 <= track < 14` and some vehicle of the frog's lane overlaps it; then the result is `deathHandler`'s (one life, however many vehicles overlap), otherwise nothing changes. The invariant is kept |
| Session.CollideKeepsPositions | frog.c:215-237 | a collision, deadly or not, moves no vehicle |
| Session.HorizontalStaysOnLattice | frog.c:283-288 | the left and right moves keep `x` in {16, 38, …, 236} |
| Session.GoalColumn | frog.c:293 | on that lattice, goal `i`'s open window `(p-10, p+10)` contains exactly the column `38 + 44i` |
| Session.Capture | frog.c:293-299 | a capture sets flag `i`, adds 100 mod 65536, resets the frog, and keeps lives, the switch and the invariant |
| Session.CaptureSteps | frog.c:294-297 | a capture is the flag store, `drawGoals`, `resetFrog`, then `score += 100`, in that order |
| Session.GoalStep | frog.c:293-299 | one goal-loop pass keeps the invariant, the lives and the switch |
| Session.GoalsLoop | frog.c:292-300 | the goal loop keeps the invariant, the lives and the switch |
| Session.GoalsLoopTally | frog.c:292-300 | the goal loop acts on flags, column and score as the loop over just those three does |
| Session.TallyKeepsFlags | frog.c:292-300 | the goal loop never clears a flag and leaves the slots it has passed alone |
| Session.TallyScore | frog.c:293-297 | the goal loop adds exactly 100 per slot it newly sets (mod 65536); reached slots are skipped and score nothing |
| Session.GoalsLoopFrog | frog.c:292-300 | a goal loop that sets no flag changes nothing; one that sets a flag leaves the frog at its start |
| Session.GoalsLoopPositions | frog.c:292-300 | the goal loop moves no vehicle |
| Session.DoubleCapture | frog.c:292-300 | a capture of goal 0 or 1 with goal 2 free also captures goal 2 in the same pass, for 200 points |
| Session.MoveUpW | frog.c:289-310 | the up move keeps the invariant, the lives and the switch |
| Session.MoveUpTally | frog.c:289-301 | on track 3 the up move changes flags, column and score exactly as the goal loop does |
| Session.MoveUpScoring | frog.c:302-309 | below track 3 the up move goes one track up. It adds 10 exactly when the new track is below `hiTrack`, and `hiTrack` becomes the smaller of the two |
| Session.MoveUpGoalScore | frog.c:291-300 | on track 3 the up move adds exactly 100 per goal slot it sets |
| Session.MoveUpKeeps | frog.c:289-310 | the up move never clears a goal flag and moves no vehicle. Without a capture, `hiTrack` does not grow |
| Session.UpdateW | frog.c:205-213 | `updateVehicles` changes nothing but the grid and keeps the invariant |
| Session.HorizontalW | frog.c:283-288 | the left and right buttons change only the frog and keep the invariant |
| Session.UpW | frog.c:289-310 | the up button keeps the invariant, the lives and the switch |
| Session.DownW | frog.c:311-313 | the down button changes only the frog and keeps `track` ≤ 14 |
| Session.TickW | frog.c:278-316 | the timer handler keeps the invariant: `track` in [3, 14], `x` on the lattice, and the still lane committed |
| Session.FrogPhasesKeepPositions | frog.c:279-313 | the button phases of a tick move no vehicle |
| Session.Ticks | frog.c:278-316 | after a tick per button snapshot, every leading edge is its start moved `n` byte additions of its lane's speed (`Drift`), whatever the buttons, and the invariant holds |
| Session.DriftClosed | frog.c:207-211 | `n` byte additions of `s` are `(p + n·s) mod 256`; with `Ticks`, the position after `n` ticks is `(pos + n·speed) mod 256` |
| Session.TickAdvancesAll | frog.c:278-316 | `TickAdvances` for all slots at once |
| Session.TickAdvances | frog.c:278-316 | over one tick every vehicle's leading edge advances by exactly its lane's speed, mod 256, deaths and captures included |
| Session.TickLives | frog.c:278-316 | over one tick the centre button flips the switch and at most one life is lost |
| Session.TickKeepsGoals | frog.c:278-316 | no tick clears a goal flag |
| Session.TickHiTrack | frog.c:289-316 | without a death or a capture, a tick never makes `hiTrack` larger |
| Session.RestartW | frog.c:361 | the restart puts back the default frog and touches nothing else, including the goal flags |
| Game.GameState.constructor | frog.c:43-80 | the object starts as the initial world |
| Game.GameState.UpdateVehicles | frog.c:205-213 | the nested loop advances every slot of the array in place, as `UpdateW` |
| Game.GameState.DrawVehicleAt | frog.c:98-149 | one pass of the vehicle loop on the array, as `DrawVehicle` |
| Game.GameState.DrawRightMover | frog.c:100-122 | the right-mover branch, as `DrawVehicle` |
| Game.GameState.DrawLeftMover | frog.c:123-149 | the left-mover branch, as `DrawVehicle` |
| Game.GameState.DrawTail | frog.c:114-121 | the wrap-tail step appends `TailFills` |
| Game.GameState.DrawLane | frog.c:97-152 | the vehicle loop of one lane commits that lane and paints its rectangles in order |
| Game.GameState.DrawVehicles | frog.c:90-155 | `drawVehicles` on the array, as `DrawVehiclesW` |
| Game.GameState.DrawFrog | frog.c:158-175 | `drawFrog`, as `DrawFrogW` |
| Game.GameState.DrawGoals | frog.c:192-202 | `drawGoals`, as `DrawGoalsW` |
| Game.GameState.DrawRoads | frog.c:178-189 | `drawRoads`, as `DrawRoadsW` |
| Game.GameState.Refresh | frog.c:269-275 | the display interrupt, as `RefreshW` |
| Game.GameState.ResetFrog | frog.c:239-245 | `resetFrog`, as `ResetFrogW` |
| Game.GameState.DeathHandler | frog.c:233-237 | `deathHandler`, as `DeathW` |
| Game.GameState.Collision | frog.c:215-231 | `collision` with its `break`, as `CollideW` |
| Game.GameState.CaptureGoal | frog.c:293-299 | one capture in place, as `Capture` |
| Game.GameState.GoalLoop | frog.c:291-301 | the goal loop in place, as `GoalsLoop` |
| Game.GameState.ToggleCollision | frog.c:279-282 | the centre button flips `enableCollision` |
| Game.GameState.MoveHorizontal | frog.c:283-288 | the left and right buttons, as `HorizontalW` |
| Game.GameState.MoveUp | frog.c:289-310 | the up button, as `UpW` |
| Game.GameState.MoveDown | frog.c:311-313 | the down button, as `DownW` |
| Game.GameState.Tick | frog.c:278-316 | the timer handler in place, as `TickW` |
| Game.GameState.Restart | frog.c:361-362 | `mainFrog = defaultFrog; drawRoads()`, as `DrawRoadsW(RestartW(...))` |

Members without a contract of their own are covered by the rows that state
what they compute:

- `Session.FrogFills` (frog.c:159-174) and `Session.Committed` (frog.c:166-167) by `DrawFrogW` and `DrawFrogPixels`;
- `Vehicles.TailFills` (frog.c:114-121, 139-146) by `RightMoveFills` and `LeftMoveFills`;
- `Vehicles.RowFills` and `Vehicles.LanesFills` (frog.c:92-154) by `DrawVehiclesW`, `Game.GameState.DrawLane` and `Game.GameState.DrawVehicles`;
- `Session.GoalFills`, `Session.GoalMarker` and `Session.GoalsFills` (frog.c:193-201) by `GoalsFillsMarkers` and `DrawRoadsW`;
- `Session.TrackBand` and `Session.TrackFills` (frog.c:180-183) by `TrackBands` and `DrawRoadsW`;
- `Session.StartFrog` (frog.c:240-242) by `ResetFrogW` and `ResetFrogDraws`;
- `Session.MoveLeft` and `Session.MoveRight` (frog.c:283-288) by `HorizontalW` and `HorizontalStaysOnLattice`;
- `Session.MoveDown` (frog.c:311-313) by `DownW`;
- `Session.ToggleW` (frog.c:279-282) by `TickLives`;
- `Session.FrogPhases` (frog.c:279-313) by `FrogPhasesKeepPositions` and `TickW`;
- `Session.Drift` by `DriftClosed`.

## Left out

- `drawStats`, `putText` and the frames-per-second counter (frog.c:247-267, 274, 318-326) are not modelled. They only print text through `sprintf` and `display_string_xy`. The too-small `buffer[4]` once `score > 999` is not modelled either.
- `fill_rectangle`, `display_string_xy` and the `rectangle` field types of `lcd.h` are not modelled. `lcd.h` is not part of this model. A call is the `Fill` appended to `canvas`, with `int` coordinates.
- `display.width` lives in the display library, so it is the parameter `width` of `DrawRoads` and `Restart`.
- The colour values of `svgrgb565.h` are not modelled. Colours are opaque enumeration constants.
- Interrupt scheduling is not modelled: `volatile`, `sei`/`cli`, and the interleaving of the display, timer and stats interrupts with each other and with `main`. Each handler is one atomic method call.
- `main` (frog.c:328-373) is not modelled: clock, timer and LCD set-up, the busy-waits on `lives` and `center_pressed()`, and the `lives = 3` inside the game-over wait, which depends on button timing. Only the restart step `mainFrog = defaultFrog; drawRoads()` is modelled, as `Restart`.
- The buttons of `switches.h` are not modelled. Their state is the five boolean parameters of `Tick`.
- `collided` (frog.c:84) is never read by the core and is left out.
- Session.DoubleCapture: stated on the loop over flags, column and score. `Session.MoveUpTally` ties the up move to that loop.
