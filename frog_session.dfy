/** The whole game state as a value, and one function per handler or phase of
    a handler of frog.c. `canvas` is the sequence of `fill_rectangle` calls made
    so far; every drawing routine appends to it. */
module Session {
  import opened FrogConfig
  import opened Vehicles

  datatype World = World(
    roadLanes: seq<seq<Vehicle>>,
    mainFrog: Frog,
    goalReached: seq<bool>,
    lives: Byte,
    score: Word,
    enableCollision: bool,
    canvas: seq<Fill>)

  /** The columns the frog can occupy: 16, 38, ..., 236. */
  predicate OnLattice(x: int)
  {
    16 <= x <= ScreenWidth - 4 && (x - 16) % FrogStepX == 0
  }

  /** What holds between handler calls. */
  predicate Inv(w: World)
  {
    && IsGrid(w.roadLanes)
    && |w.goalReached| == NumOfGoals
    && RoadOffset <= w.mainFrog.track <= NumTracks
    && RoadOffset <= w.mainFrog.prevTrack <= NumTracks
    && RoadOffset <= w.mainFrog.hiTrack <= NumTracks
    && OnLattice(w.mainFrog.x) && OnLattice(w.mainFrog.prevX)
    && forall l, v :: 0 <= l < NumRoadLanes && 0 <= v < MaxVehiclesPerLane && RoadLaneSpeed[l] == 0 ==>
         w.roadLanes[l][v].prevPos == w.roadLanes[l][v].pos
  }

  /** The state once the globals are initialised and `main` has placed the frog. */
  function InitialWorld(): (w: World)
    ensures Inv(w)
  {
    World(InitialLanes, DefaultFrog, [false, false, false, false, false], 3, 0, true, [])
  }

  /** `after` is `before` with more rectangles painted after the old ones. */
  predicate Extends(before: seq<Fill>, after: seq<Fill>)
  {
    |before| <= |after| && after[..|before|] == before
  }

  // ---------------------------------------------------------------- drawing

  /** Screen row of the top edge of the frog sprite on a track. */
  function FrogTop(track: int): int { track * TrackWidth - 5 }

  /** The rectangle of the frog sprite whose right edge is column `x`. */
  function FrogRect(x: int, track: int, c: Colour): Fill
  {
    Fill(x - FrogSize, x, FrogTop(track), FrogTop(track) + 12, c)
  }

  /** The rectangles `drawFrog` paints for frog `f`: the sprite and the vacated
      place in its track's background when it moved since the last draw, the
      sprite alone while collisions are off, otherwise nothing. */
  function FrogFills(f: Frog, enableCollision: bool): seq<Fill>
    requires 1 <= f.prevTrack <= NumTracks
  {
    if f.prevTrack != f.track || f.prevX != f.x then
      [FrogRect(f.x, f.track, FrogColour), FrogRect(f.prevX, f.prevTrack, Colours[f.prevTrack - 1])]
    else if !enableCollision then [FrogRect(f.x, f.track, LimeGreen)]
    else []
  }

  /** The frog once its current place is recorded as drawn. */
  function Committed(f: Frog): Frog
  {
    f.(prevTrack := f.track, prevX := f.x)
  }

  /** `drawFrog`. */
  function DrawFrogW(w: World): (r: World)
    requires 1 <= w.mainFrog.prevTrack <= NumTracks
    ensures r.mainFrog.prevTrack == r.mainFrog.track == w.mainFrog.track
    ensures r.mainFrog.prevX == r.mainFrog.x == w.mainFrog.x
    ensures r.mainFrog.hiTrack == w.mainFrog.hiTrack
    ensures Extends(w.canvas, r.canvas)
    ensures r.(mainFrog := w.mainFrog, canvas := w.canvas) == w
    ensures |r.canvas| - |w.canvas| ==
      if w.mainFrog.prevTrack != w.mainFrog.track || w.mainFrog.prevX != w.mainFrog.x then 2
      else if w.enableCollision then 0 else 1
    ensures var f := w.mainFrog; var n := |w.canvas|;
      f.prevTrack != f.track || f.prevX != f.x ==>
        r.canvas[n] == FrogRect(f.x, f.track, FrogColour)
        && r.canvas[n + 1] == FrogRect(f.prevX, f.prevTrack, Colours[f.prevTrack - 1])
    ensures var f := w.mainFrog;
      f.prevTrack == f.track && f.prevX == f.x && !w.enableCollision ==>
        r.canvas[|w.canvas|] == FrogRect(f.x, f.track, LimeGreen)
  {
    w.(mainFrog := Committed(w.mainFrog), canvas := w.canvas + FrogFills(w.mainFrog, w.enableCollision))
  }

  /** Two frog rectangles at lattice columns and valid tracks are disjoint unless
      they are the same place, so painting the vacated one in the background
      never covers the sprite just painted. */
  lemma FrogRectsDisjoint(w: World)
    requires Inv(w)
    requires w.mainFrog.prevTrack != w.mainFrog.track || w.mainFrog.prevX != w.mainFrog.x
    ensures var f := w.mainFrog;
      var n, o := FrogRect(f.x, f.track, FrogColour), FrogRect(f.prevX, f.prevTrack, Colours[f.prevTrack - 1]);
      n.right < o.left || o.right < n.left || n.bottom < o.top || o.bottom < n.top
  {
    var f := w.mainFrog;
    if f.x != f.prevX {
      LatticeGapEither(f.x, f.prevX);
    }
  }

  /** Rectangle `f` contains pixel (p, q). */
  predicate Covers(f: Fill, p: int, q: int)
  {
    f.left <= p <= f.right && f.top <= q <= f.bottom
  }

  /** Colour of pixel (p, q) once `fills` are painted in order over `under`. */
  function PixelColour(fills: seq<Fill>, p: int, q: int, under: Colour): Colour
  {
    if fills == [] then under
    else
      var f := fills[|fills| - 1];
      if Covers(f, p, q) then f.colour else PixelColour(fills[..|fills| - 1], p, q, under)
  }

  /** Painting one more rectangle: it wins on the pixels it covers. */
  lemma PixelColourLast(a: seq<Fill>, f: Fill, p: int, q: int, under: Colour)
    ensures PixelColour(a + [f], p, q, under) ==
      if Covers(f, p, q) then f.colour else PixelColour(a, p, q, under)
  {
    assert (a + [f])[..|a|] == a;
  }

  /** What `drawFrog` leaves on screen. A frog that moved shows its sprite in
      the frog colour on every pixel of its new place, and the track background
      on the rest of its old place; a frog that did not move while collisions
      are off shows its sprite in lime green; every other pixel keeps its colour. */
  lemma {:induction false} DrawFrogPixels(w: World, p: int, q: int, under: Colour)
    requires Inv(w)
    ensures var r, f := DrawFrogW(w), w.mainFrog;
      var sprite := FrogRect(f.x, f.track, FrogColour);
      var vacated := FrogRect(f.prevX, f.prevTrack, Colours[f.prevTrack - 1]);
      var moved := f.prevTrack != f.track || f.prevX != f.x;
      var before, after := PixelColour(w.canvas, p, q, under), PixelColour(r.canvas, p, q, under);
      && (moved && Covers(sprite, p, q) ==> after == FrogColour)
      && (moved && Covers(vacated, p, q) && !Covers(sprite, p, q) ==> after == Colours[f.prevTrack - 1])
      && (!moved && !w.enableCollision && Covers(sprite, p, q) ==> after == LimeGreen)
      && (!Covers(sprite, p, q) && (!moved || !Covers(vacated, p, q)) ==> after == before)
  {
    var f := w.mainFrog;
    var sprite := FrogRect(f.x, f.track, FrogColour);
    var vacated := FrogRect(f.prevX, f.prevTrack, Colours[f.prevTrack - 1]);
    if f.prevTrack != f.track || f.prevX != f.x {
      FrogRectsDisjoint(w);
      assert DrawFrogW(w).canvas == w.canvas + [sprite] + [vacated];
      PixelColourLast(w.canvas + [sprite], vacated, p, q, under);
      PixelColourLast(w.canvas, sprite, p, q, under);
    } else if !w.enableCollision {
      PixelColourLast(w.canvas, FrogRect(f.x, f.track, LimeGreen), p, q, under);
    } else {
      assert DrawFrogW(w).canvas == w.canvas;
    }
  }

  /** Distinct lattice columns are at least one step apart. */
  lemma LatticeGap(a: int, b: int)
    requires OnLattice(a) && OnLattice(b) && a < b
    ensures a + FrogStepX <= b
  {
    var i, j := (a - 16) / FrogStepX, (b - 16) / FrogStepX;
    assert a == 16 + FrogStepX * i;
    assert b == 16 + FrogStepX * j;
  }

  lemma LatticeGapEither(a: int, b: int)
    requires OnLattice(a) && OnLattice(b) && a != b
    ensures a + FrogStepX <= b || b + FrogStepX <= a
  {
    if a < b { LatticeGap(a, b); } else { LatticeGap(b, a); }
  }

  /** `drawVehicles`. */
  function DrawVehiclesW(w: World): (r: World)
    requires IsGrid(w.roadLanes)
    ensures IsGrid(r.roadLanes)
    ensures forall l, v :: 0 <= l < NumRoadLanes && 0 <= v < MaxVehiclesPerLane ==>
              r.roadLanes[l][v] == Vehicle(w.roadLanes[l][v].pos, w.roadLanes[l][v].pos)
    ensures Extends(w.canvas, r.canvas)
    ensures r.(roadLanes := w.roadLanes, canvas := w.canvas) == w
    ensures Inv(w) ==> Inv(r)
  {
    w.(roadLanes := DrawnLanes(w.roadLanes),
       canvas := w.canvas + LanesFills(w.roadLanes, |w.roadLanes|))
  }

  /** The two rectangles of one goal slot: the slot, and the frog marker if reached. */
  function GoalFills(i: nat, reached: bool): seq<Fill>
    requires i < NumOfGoals
  {
    var gp := GoalPositions[i];
    [Fill(gp - UnitLength / 2, gp + UnitLength / 2,
          GoalTrack * TrackWidth + OffsetPx, (GoalTrack + 1) * TrackWidth + OffsetPx, GoalBGColour)]
    + if reached then [GoalMarker(i)] else []
  }

  /** The frog marker painted in a reached goal slot. */
  function GoalMarker(i: nat): Fill
    requires i < NumOfGoals
  {
    var marker := (GoalTrack + 1) * TrackWidth - 5;
    Fill(GoalPositions[i] - FrogSize / 2, GoalPositions[i] + FrogSize / 2, marker, marker + 12, FrogColour)
  }

  /** Rectangles of the first `n` goal slots, in loop order. */
  function GoalsFills(reached: seq<bool>, n: nat): seq<Fill>
    requires n <= |reached| && n <= NumOfGoals
  {
    if n == 0 then [] else GoalsFills(reached, n - 1) + GoalFills(n - 1, reached[n - 1])
  }

  /** Exactly the reached goal slots get a frog marker. */
  lemma {:induction false} GoalsFillsMarkers(reached: seq<bool>, n: nat, i: nat)
    requires n <= |reached| && n <= NumOfGoals && i < NumOfGoals
    ensures GoalMarker(i) in GoalsFills(reached, n) <==> i < n && reached[i]
  {
    if n > 0 {
      GoalsFillsMarkers(reached, n - 1, i);
      assert GoalMarker(i) in GoalFills(n - 1, reached[n - 1]) <==> i == n - 1 && reached[i];
    }
  }

  /** `drawGoals`. */
  function DrawGoalsW(w: World): (r: World)
    requires |w.goalReached| == NumOfGoals
    ensures r.(canvas := w.canvas) == w
    ensures Extends(w.canvas, r.canvas)
  {
    w.(canvas := w.canvas + GoalsFills(w.goalReached, |w.goalReached|))
  }

  /** The background band of track `x`, `width` wide. */
  function TrackBand(width: int, x: nat): Fill
    requires x < NumTracks
  {
    Fill(0, width, x * TrackWidth + OffsetPx, (x + 1) * TrackWidth + OffsetPx, Colours[x])
  }

  /** The background bands of the first `n` tracks, `width` wide. */
  function TrackFills(width: int, n: nat): seq<Fill>
    requires n <= NumTracks
  {
    if n == 0 then [] else TrackFills(width, n - 1) + [TrackBand(width, n - 1)]
  }

  /** Consecutive bands meet: together they cover rows 12 to 320 without gaps. */
  lemma TrackBandsTile(width: int, x: nat)
    requires x + 1 < NumTracks
    ensures TrackBand(width, x).bottom == TrackBand(width, x + 1).top
    ensures TrackBand(width, 0).top == OffsetPx
    ensures TrackBand(width, NumTracks - 1).bottom == NumTracks * TrackWidth + OffsetPx == 320
  {
  }

  /** `drawRoads` on a display `width` columns wide: every track band, the goal
      slots, then the border above the goal row. */
  function DrawRoadsW(w: World, width: int): (r: World)
    requires |w.goalReached| == NumOfGoals
    ensures r.(canvas := w.canvas) == w
    ensures |r.canvas| == |w.canvas| + NumTracks + |GoalsFills(w.goalReached, NumOfGoals)| + 1
    ensures Extends(w.canvas, r.canvas)
    ensures forall x :: 0 <= x < NumTracks ==> r.canvas[|w.canvas| + x] == TrackBand(width, x)
    ensures r.canvas[|w.canvas| + NumTracks .. |r.canvas| - 1] == GoalsFills(w.goalReached, NumOfGoals)
    ensures r.canvas[|r.canvas| - 1] == Fill(0, width, (GoalTrack - 1) * TrackWidth + OffsetPx + 20,
                                             GoalTrack * TrackWidth + OffsetPx, Colours[GoalTrack])
  {
    var border := Fill(0, width, (GoalTrack - 1) * TrackWidth + OffsetPx + 20,
                       GoalTrack * TrackWidth + OffsetPx, Colours[GoalTrack]);
    var bands, goals := TrackFills(width, NumTracks), GoalsFills(w.goalReached, NumOfGoals);
    TrackBands(width, NumTracks);
    var c := w.canvas + bands + goals + [border];
    assert c[|w.canvas| + NumTracks .. |c| - 1] == goals;
    w.(canvas := c)
  }

  /** The band loop paints one rectangle per track, band `x` in place `x`. */
  lemma {:induction false} TrackBands(width: int, n: nat)
    requires n <= NumTracks
    ensures |TrackFills(width, n)| == n
    ensures forall x :: 0 <= x < n ==> TrackFills(width, n)[x] == TrackBand(width, x)
  {
    if n > 0 { TrackBands(width, n - 1); }
  }

  /** Display vertical-blank interrupt handler: `drawVehicles` then `drawFrog`. */
  function RefreshW(w: World): (r: World)
    requires Inv(w)
    ensures Inv(r)
    ensures r.mainFrog == Committed(w.mainFrog)
    ensures r.(mainFrog := w.mainFrog, roadLanes := w.roadLanes, canvas := w.canvas) == w
    ensures Extends(w.canvas, r.canvas)
    ensures forall l, v :: 0 <= l < NumRoadLanes && 0 <= v < MaxVehiclesPerLane ==>
              r.roadLanes[l][v] == Vehicle(w.roadLanes[l][v].pos, w.roadLanes[l][v].pos)
  {
    DrawFrogW(DrawVehiclesW(w))
  }

  // ------------------------------------------------------------ death/reset

  /** The frog as `resetFrog` leaves it before drawing: start column and
      track, and a fresh best track. */
  function StartFrog(f: Frog): Frog
  {
    f.(x := DefaultFrog.x, track := DefaultFrog.track, hiTrack := DefaultFrog.hiTrack)
  }

  /** `resetFrog`: the start place, then `drawFrog` and `drawVehicles`, which
      commit the drawn frog and every drawn vehicle position. */
  function ResetFrogW(w: World): (r: World)
    requires IsGrid(w.roadLanes) && 1 <= w.mainFrog.prevTrack <= NumTracks
    ensures IsGrid(r.roadLanes) && Extends(w.canvas, r.canvas)
    ensures r.mainFrog == Frog(NumTracks, NumTracks, NumTracks, 126, 126)
    ensures forall l, v :: 0 <= l < NumRoadLanes && 0 <= v < MaxVehiclesPerLane ==>
              r.roadLanes[l][v] == Vehicle(w.roadLanes[l][v].pos, w.roadLanes[l][v].pos)
    ensures r.(mainFrog := w.mainFrog, roadLanes := w.roadLanes, canvas := w.canvas) == w
  {
    var f := StartFrog(w.mainFrog);
    w.(mainFrog := Committed(f), roadLanes := DrawnLanes(w.roadLanes),
       canvas := w.canvas + FrogFills(f, w.enableCollision) + LanesFills(w.roadLanes, |w.roadLanes|))
  }

  /** `resetFrog` is the start place followed by the two draws of the source. */
  lemma ResetFrogDraws(w: World)
    requires IsGrid(w.roadLanes) && 1 <= w.mainFrog.prevTrack <= NumTracks
    ensures ResetFrogW(w) == DrawVehiclesW(DrawFrogW(w.(mainFrog := StartFrog(w.mainFrog))))
  {
  }

  /** `deathHandler`: one life fewer, as a byte (0 wraps to 255), and a reset
      frog; score, goals and the collision switch are kept. */
  function DeathW(w: World): (r: World)
    requires Inv(w)
    ensures Inv(r)
    ensures r.lives == if w.lives == 0 then 255 else w.lives - 1
    ensures r.mainFrog == Frog(NumTracks, NumTracks, NumTracks, 126, 126)
    ensures r.score == w.score && r.goalReached == w.goalReached
    ensures r.enableCollision == w.enableCollision
    ensures forall l, v :: 0 <= l < NumRoadLanes && 0 <= v < MaxVehiclesPerLane ==>
              r.roadLanes[l][v] == Vehicle(w.roadLanes[l][v].pos, w.roadLanes[l][v].pos)
  {
    ResetFrogW(w.(lives := ToByte(w.lives - 1)))
  }

  // -------------------------------------------------------------- collision

  /** The three overlap tests of `collision`, on promoted `int` values, for a
      frog whose right edge is `x` and a vehicle whose leading edge is `pos`. */
  function Hits(x: int, pos: int, len: int): (r: bool)
    ensures r <==> (pos - len < x - FrogSize < pos) || (pos - len < x < pos)
  {
    || (x < pos && x - FrogSize > pos - len)
    || (x - FrogSize < pos && x - FrogSize > pos - len)
    || (x > pos - len && x < pos)
  }

  /** Of the three tests the first implies the third. */
  lemma FirstTestImpliesThird(x: int, pos: int, len: int)
    requires x < pos && x - FrogSize > pos - len
    ensures x > pos - len && x < pos
  {
  }

  /** For every vehicle longer than the frog the tests are plain overlap of
      the open spans `(x - 12, x)` and `(pos - len, pos)`, and a vehicle of
      length 0 never hits. */
  lemma HitsIsOverlap(x: int, pos: int, len: int)
    ensures len > FrogSize ==> (Hits(x, pos, len) <==> x - FrogSize < pos && pos - len < x)
    ensures !Hits(x, pos, 0)
  {
  }

  /** Every lane's vehicle is longer than the frog, except the still lane's. */
  lemma LanesLongerThanFrog(lane: nat)
    requires lane < NumRoadLanes && VehicleLength[lane] != 0
    ensures VehicleLength[lane] > FrogSize
  {
  }

  lemma HitsExamples()
    ensures Hits(100, 95, 20)
    ensures !Hits(100, 60, 20)
  {
  }

  /** Some vehicle of lane `lane` overlaps a frog at column `x`. */
  predicate AnyHit(g: seq<seq<Vehicle>>, lane: nat, x: int)
    requires IsGrid(g) && lane < NumRoadLanes
  {
    exists ve :: 0 <= ve < MaxVehiclesPerLane && Hits(x, g[lane][ve].pos, VehicleLength[lane])
  }

  /** `collision`: a death exactly when collisions are on, the frog is on a
      road track, and some vehicle of that track's lane overlaps it; one death
      however many vehicles overlap. */
  function CollideW(w: World): (r: World)
    requires Inv(w)
    ensures Inv(r)
    ensures r.lives == w.lives || r.lives == ToByte(w.lives - 1)
    ensures r.lives != w.lives <==>
      w.enableCollision && RoadOffset <= w.mainFrog.track < NumTracks
      && AnyHit(w.roadLanes, w.mainFrog.track - RoadOffset, w.mainFrog.x)
    ensures r.lives != w.lives ==> r == DeathW(w)
    ensures r.lives == w.lives ==> r == w
  {
    if w.enableCollision && RoadOffset <= w.mainFrog.track < NumTracks
       && AnyHit(w.roadLanes, w.mainFrog.track - RoadOffset, w.mainFrog.x)
    then DeathW(w) else w
  }

  // --------------------------------------------------------------- movement

  /** Left button: one step left, only while more than a step from the edge. */
  function MoveLeft(f: Frog, pressed: bool): Frog
  {
    if pressed && f.x > FrogStepX then f.(x := ToByte(f.x - FrogStepX)) else f
  }

  /** Right button: one step right, only while more than a step from the edge. */
  function MoveRight(f: Frog, pressed: bool): Frog
  {
    if pressed && f.x < ScreenWidth - FrogStepX then f.(x := ToByte(f.x + FrogStepX)) else f
  }

  /** Down button: one track down, not past the last track. */
  function MoveDown(f: Frog, pressed: bool): Frog
  {
    if pressed && f.track < NumTracks then f.(track := ToByte(f.track + 1)) else f
  }

  /** One lattice step left or right from a lattice column, inside the
      screen, is a lattice column. */
  lemma LatticeStep(x: int, d: int)
    requires OnLattice(x) && (d == FrogStepX || d == -FrogStepX) && 16 <= x + d <= ScreenWidth - 4
    ensures OnLattice(x + d)
  {
    var k := (x - 16) / FrogStepX;
    assert x - 16 == FrogStepX * k;
    assert x + d - 16 == FrogStepX * (k + d / FrogStepX);
  }

  /** Horizontal moves keep the frog on the lattice of reachable columns. */
  lemma HorizontalStaysOnLattice(f: Frog, left: bool, right: bool)
    requires OnLattice(f.x)
    ensures OnLattice(MoveRight(MoveLeft(f, left), right).x)
  {
    var g := MoveLeft(f, left);
    if left && f.x > FrogStepX {
      LatticeGap(16, f.x);
      LatticeStep(f.x, -FrogStepX);
    }
    if right && g.x < ScreenWidth - FrogStepX {
      LatticeGap(g.x, 236);
      LatticeStep(g.x, FrogStepX);
    }
  }

  /** Goal `i`'s open window `(p - 10, p + 10)` contains column `x`. */
  predicate InGoalWindow(i: nat, x: int)
    requires i < NumOfGoals
  {
    GoalPositions[i] - UnitLength / 2 < x < GoalPositions[i] + UnitLength / 2
  }

  /** Each goal window holds exactly one reachable column, `38 + 44 i`. */
  lemma GoalColumn(i: nat, x: int)
    requires i < NumOfGoals && OnLattice(x)
    ensures InGoalWindow(i, x) <==> x == 38 + 2 * FrogStepX * i
  {
    var k := (x - 16) / FrogStepX;
    assert x == 16 + FrogStepX * k;
  }

  /** Capture of goal `i`: set its flag, `drawGoals`, `resetFrog`, add 100. */
  function Capture(w: World, i: nat): (r: World)
    requires Inv(w) && i < NumOfGoals
    ensures r.goalReached == w.goalReached[i := true]
    ensures r.score == ToWord(w.score + ScoreGoal)
    ensures r.mainFrog == Frog(NumTracks, NumTracks, NumTracks, 126, 126)
    ensures r.lives == w.lives && r.enableCollision == w.enableCollision
    ensures Inv(r)
  {
    var g := w.goalReached[i := true];
    var f := StartFrog(w.mainFrog);
    World(DrawnLanes(w.roadLanes), Committed(f), g, w.lives, ToWord(w.score + ScoreGoal), w.enableCollision,
          w.canvas + GoalsFills(g, |g|) + FrogFills(f, w.enableCollision) + LanesFills(w.roadLanes, |w.roadLanes|))
  }

  /** A capture is the flag, `drawGoals`, `resetFrog` and the score, in the
      order of the source. */
  lemma CaptureSteps(w: World, i: nat)
    requires Inv(w) && i < NumOfGoals
    ensures var w1 := DrawGoalsW(w.(goalReached := w.goalReached[i := true]));
      var w2 := ResetFrogW(w1);
      Capture(w, i) == w2.(score := ToWord(w2.score + ScoreGoal))
  {
  }

  /** Number of slots below `n` that are set in `after` but were not in `before`. */
  function NewlyReached(before: seq<bool>, after: seq<bool>, n: nat): nat
    requires n <= |before| && n <= |after|
  {
    if n == 0 then 0
    else NewlyReached(before, after, n - 1) + if !before[n - 1] && after[n - 1] then 1 else 0
  }

  lemma {:induction false} NewlyReachedNone(s: seq<bool>, n: nat)
    requires n <= |s|
    ensures NewlyReached(s, s, n) == 0
  {
    if n > 0 { NewlyReachedNone(s, n - 1); }
  }

  /** Setting an unset slot `i` before comparing adds nothing for slot `i`. */
  lemma {:induction false} NewlyReachedSet(before: seq<bool>, after: seq<bool>, i: nat, n: nat)
    requires |before| == |after| && n <= |before| && i < |before|
    requires !before[i] && after[i]
    ensures NewlyReached(before, after, n) ==
            NewlyReached(before[i := true], after, n) + if i < n then 1 else 0
  {
    if n > 0 { NewlyReachedSet(before, after, i, n - 1); }
  }

  /** One pass of the goal loop's body for slot `i`: capture it if it is free
      and the frog is in its window, otherwise nothing. */
  function GoalStep(w: World, i: nat): (r: World)
    requires Inv(w) && i < NumOfGoals
    ensures Inv(r) && r.lives == w.lives && r.enableCollision == w.enableCollision
  {
    if !w.goalReached[i] && InGoalWindow(i, w.mainFrog.x) then Capture(w, i) else w
  }

  /** The goal loop of the up move from slot `i` on. It does not stop after a
      capture: the reset column 126 can capture slot 2 in the same pass. */
  function GoalsLoop(w: World, i: nat): (r: World)
    requires Inv(w) && i <= NumOfGoals
    ensures Inv(r)
    ensures r.lives == w.lives && r.enableCollision == w.enableCollision
    decreases NumOfGoals - i
  {
    if i == NumOfGoals then w else GoalsLoop(GoalStep(w, i), i + 1)
  }

  /** The part of the state the goal loop reads and writes besides the
      screen and the lanes: the flags, the frog's column and the score. */
  datatype Tally = Tally(goals: seq<bool>, x: int, score: Word)

  function TallyOf(w: World): Tally
  {
    Tally(w.goalReached, w.mainFrog.x, w.score)
  }

  /** The goal loop's body on a tally: a capture sets the flag, sends the frog
      back to the start column and adds 100. */
  function TallyStep(t: Tally, i: nat): Tally
    requires |t.goals| == NumOfGoals && i < NumOfGoals
  {
    if !t.goals[i] && InGoalWindow(i, t.x)
    then Tally(t.goals[i := true], DefaultFrog.x, ToWord(t.score + ScoreGoal))
    else t
  }

  function TallyLoop(t: Tally, i: nat): (r: Tally)
    requires |t.goals| == NumOfGoals && i <= NumOfGoals
    ensures |r.goals| == NumOfGoals
    decreases NumOfGoals - i
  {
    if i == NumOfGoals then t else TallyLoop(TallyStep(t, i), i + 1)
  }

  /** The goal loop acts on the flags, the column and the score as the tally does. */
  lemma {:induction false} GoalsLoopTally(w: World, i: nat)
    requires Inv(w) && i <= NumOfGoals
    ensures TallyOf(GoalsLoop(w, i)) == TallyLoop(TallyOf(w), i)
    decreases NumOfGoals - i
  {
    if i < NumOfGoals {
      var c := GoalStep(w, i);
      assert TallyOf(c) == TallyStep(TallyOf(w), i);
      GoalsLoopTally(c, i + 1);
    }
  }

  /** The goal loop never clears a flag and leaves the slots before `i` alone. */
  lemma {:induction false} TallyKeepsFlags(t: Tally, i: nat)
    requires |t.goals| == NumOfGoals && i <= NumOfGoals
    ensures forall j :: 0 <= j < NumOfGoals && (t.goals[j] || j < i) ==>
              TallyLoop(t, i).goals[j] == t.goals[j]
    decreases NumOfGoals - i
  {
    if i < NumOfGoals {
      TallyKeepsFlags(TallyStep(t, i), i + 1);
    }
  }

  /** Every slot the goal loop sets is worth exactly 100 points; slots already
      reached are skipped and score nothing. */
  lemma {:induction false} TallyScore(t: Tally, i: nat)
    requires |t.goals| == NumOfGoals && i <= NumOfGoals
    ensures var r := TallyLoop(t, i);
      r.score == ToWord(t.score + ScoreGoal * NewlyReached(t.goals, r.goals, NumOfGoals))
    decreases NumOfGoals - i
  {
    if i == NumOfGoals {
      NewlyReachedNone(t.goals, NumOfGoals);
    } else {
      var c := TallyStep(t, i);
      var r := TallyLoop(c, i + 1);
      TallyScore(c, i + 1);
      if c != t {
        TallyKeepsFlags(c, i + 1);
        CaptureScore(t, c, r, i);
      }
    }
  }

  /** A capture of slot `i` followed by a loop that scores 100 per slot it
      sets scores 100 per slot set over both. */
  lemma CaptureScore(t: Tally, c: Tally, r: Tally, i: nat)
    requires |t.goals| == NumOfGoals && i < NumOfGoals && !t.goals[i]
    requires c.goals == t.goals[i := true] && c.score == ToWord(t.score + ScoreGoal)
    requires |r.goals| == NumOfGoals && r.goals[i]
    requires r.score == ToWord(c.score + ScoreGoal * NewlyReached(c.goals, r.goals, NumOfGoals))
    ensures r.score == ToWord(t.score + ScoreGoal * NewlyReached(t.goals, r.goals, NumOfGoals))
  {
    var n := NewlyReached(c.goals, r.goals, NumOfGoals);
    NewlyReachedSet(t.goals, r.goals, i, NumOfGoals);
    WordAddLeft(t.score + ScoreGoal, ScoreGoal * n);
  }

  /** A goal loop that sets no flag changes nothing; one that sets a flag
      leaves the frog reset to its start. */
  lemma {:induction false} GoalsLoopFrog(w: World, i: nat)
    requires Inv(w) && i <= NumOfGoals
    ensures var r := GoalsLoop(w, i);
      && (r.goalReached == w.goalReached ==> r == w)
      && (r.goalReached != w.goalReached ==> r.mainFrog == Frog(NumTracks, NumTracks, NumTracks, 126, 126))
    decreases NumOfGoals - i
  {
    if i < NumOfGoals {
      var c := GoalStep(w, i);
      var r := GoalsLoop(c, i + 1);
      assert GoalsLoop(w, i) == r;
      GoalsLoopFrog(c, i + 1);
      if c != w {
        GoalsLoopTally(c, i + 1);
        TallyKeepsFlags(TallyOf(c), i + 1);
        assert r.goalReached[i] != w.goalReached[i];
      }
    }
  }

  /** The goal loop moves no vehicle. */
  lemma {:induction false} GoalsLoopPositions(w: World, i: nat)
    requires Inv(w) && i <= NumOfGoals
    ensures forall l, v :: 0 <= l < NumRoadLanes && 0 <= v < MaxVehiclesPerLane ==>
              GoalsLoop(w, i).roadLanes[l][v].pos == w.roadLanes[l][v].pos
    decreases NumOfGoals - i
  {
    if i < NumOfGoals {
      GoalsLoopPositions(GoalStep(w, i), i + 1);
    }
  }

  /** Up button on the track below the goal row, on the tally: capturing
      goal 0 or 1 resets the frog to column 126, which then also captures a
      free goal 2 in the same pass, for 200 points in all. */
  lemma DoubleCapture(t: Tally, i: nat)
    requires |t.goals| == NumOfGoals && i < 2 && InGoalWindow(i, t.x)
    requires !t.goals[i] && !t.goals[2]
    ensures var r := TallyLoop(t, 0);
      r.goals[i] && r.goals[2] && r.score == ToWord(t.score + 2 * ScoreGoal)
  {
    var t1 := TallyStep(t, i);
    var t2 := TallyStep(t1, 2);
    if i == 0 {
      assert TallyLoop(t, 0) == TallyLoop(t1, 1) == TallyLoop(t1, 2);
    } else {
      assert TallyLoop(t, 0) == TallyLoop(t, 1) == TallyLoop(t1, 2);
    }
    assert TallyLoop(t1, 2) == TallyLoop(t2, 3) == t2;
    WordAddLeft(t.score + ScoreGoal, ScoreGoal);
  }

  function Min(a: int, b: int): int { if a <= b then a else b }

  /** Up button: one track up below the goal row, the goal loop on the track
      just below it. */
  function MoveUpW(w: World): (r: World)
    requires Inv(w)
    ensures Inv(r)
    ensures r.lives == w.lives && r.enableCollision == w.enableCollision
  {
    var f := w.mainFrog;
    if f.track > 2 then
      if f.track == GoalTrack + 2 then GoalsLoop(w, 0)
      else
        var t := ToByte(f.track - 1);
        if t < f.hiTrack then
          w.(mainFrog := f.(track := t, hiTrack := t), score := ToWord(w.score + ScoreMovement))
        else w.(mainFrog := f.(track := t))
    else w
  }

  /** On the track just below the goal row the up move is the goal loop. */
  lemma MoveUpAtGoalRow(w: World)
    requires Inv(w) && w.mainFrog.track == GoalTrack + 2
    ensures MoveUpW(w) == GoalsLoop(w, 0)
  {
  }

  /** On the track just below the goal row the up move acts on the flags,
      the column and the score as the tally loop does. */
  lemma MoveUpTally(w: World)
    requires Inv(w) && w.mainFrog.track == GoalTrack + 2
    ensures var r, t := MoveUpW(w), TallyLoop(TallyOf(w), 0);
      r.goalReached == t.goals && r.mainFrog.x == t.x && r.score == t.score
  {
    MoveUpAtGoalRow(w);
    GoalsLoopTally(w, 0);
  }

  /** Below the goal row the up move goes one track up and scores 10 points
      exactly when the new track beats the best track of this life, which then
      becomes the new best. */
  lemma MoveUpScoring(w: World)
    requires Inv(w) && w.mainFrog.track > GoalTrack + 2
    ensures var r := MoveUpW(w);
      && r.goalReached == w.goalReached
      && r.mainFrog.track == w.mainFrog.track - 1
      && r.mainFrog.hiTrack == Min(w.mainFrog.hiTrack, r.mainFrog.track)
      && r.score == (if r.mainFrog.track < w.mainFrog.hiTrack then ToWord(w.score + ScoreMovement) else w.score)
  {
  }

  /** On the track below the goal row the up move scores exactly 100 per goal
      slot it sets, and sets only slots that were free. */
  lemma MoveUpGoalScore(w: World)
    requires Inv(w) && w.mainFrog.track == GoalTrack + 2
    ensures var r := MoveUpW(w);
      r.score == ToWord(w.score + ScoreGoal * NewlyReached(w.goalReached, r.goalReached, NumOfGoals))
  {
    MoveUpTally(w);
    TallyScore(TallyOf(w), 0);
  }

  /** The up move never clears a goal flag nor moves a vehicle, and the best
      track can only improve unless a goal capture reset the frog. */
  lemma MoveUpKeeps(w: World)
    requires Inv(w)
    ensures var r := MoveUpW(w);
      && (forall j :: 0 <= j < NumOfGoals && w.goalReached[j] ==> r.goalReached[j])
      && (r.goalReached == w.goalReached ==> r.mainFrog.hiTrack <= w.mainFrog.hiTrack)
      && (forall l, v :: 0 <= l < NumRoadLanes && 0 <= v < MaxVehiclesPerLane ==>
            r.roadLanes[l][v].pos == w.roadLanes[l][v].pos)
  {
    if w.mainFrog.track == GoalTrack + 2 {
      GoalsLoopTally(w, 0);
      TallyKeepsFlags(TallyOf(w), 0);
      GoalsLoopFrog(w, 0);
      GoalsLoopPositions(w, 0);
    }
  }

  /** `updateVehicles`: the invariant survives because the zero-speed lane stays put. */
  function UpdateW(w: World): (r: World)
    requires Inv(w)
    ensures Inv(r) && r.(roadLanes := w.roadLanes) == w
  {
    var r := w.(roadLanes := UpdatedLanes(w.roadLanes));
    assert forall l, v :: 0 <= l < NumRoadLanes && 0 <= v < MaxVehiclesPerLane ==>
      r.roadLanes[l][v] == Advance(l, w.roadLanes[l][v]);
    r
  }

  // ------------------------------------------------------------------- tick

  /** Centre button: flip the collision switch. */
  function ToggleW(w: World, center: bool): World
  {
    if center then w.(enableCollision := !w.enableCollision) else w
  }

  /** Left then right button. */
  function HorizontalW(w: World, left: bool, right: bool): (r: World)
    requires Inv(w)
    ensures Inv(r) && r.(mainFrog := w.mainFrog) == w
  {
    HorizontalStaysOnLattice(w.mainFrog, left, right);
    w.(mainFrog := MoveRight(MoveLeft(w.mainFrog, left), right))
  }

  /** Up button. */
  function UpW(w: World, up: bool): (r: World)
    requires Inv(w)
    ensures Inv(r) && r.lives == w.lives && r.enableCollision == w.enableCollision
  {
    if up then MoveUpW(w) else w
  }

  /** Down button. */
  function DownW(w: World, down: bool): (r: World)
    requires Inv(w)
    ensures Inv(r) && r.(mainFrog := w.mainFrog) == w
  {
    w.(mainFrog := MoveDown(w.mainFrog, down))
  }

  /** The movement timer interrupt handler: collision toggle, left, right, up
      (with goal capture), down, vehicle update, then collision. */
  function TickW(w: World, center: bool, left: bool, right: bool, up: bool, down: bool): (r: World)
    requires Inv(w)
    ensures Inv(r)
  {
    CollideW(UpdateW(FrogPhases(w, center, left, right, up, down)))
  }

  /** A tick advances every vehicle by exactly one update of its lane: the
      frog moves and a death's redraw never change a leading edge. */
  lemma {:induction false} TickAdvances(w: World, center: bool, left: bool, right: bool, up: bool, down: bool,
                                        l: nat, v: nat)
    requires Inv(w) && l < NumRoadLanes && v < MaxVehiclesPerLane
    ensures TickW(w, center, left, right, up, down).roadLanes[l][v].pos
            == (w.roadLanes[l][v].pos + RoadLaneSpeed[l]) % 0x100
  {
    var w4 := FrogPhases(w, center, left, right, up, down);
    FrogPhasesKeepPositions(w, center, left, right, up, down);
    var w5 := UpdateW(w4);
    assert w5.roadLanes == UpdatedLanes(w4.roadLanes);
    CollideKeepsPositions(w5);
  }

  /** One snapshot of the five buttons, as the timer handler reads them. */
  datatype Buttons = Buttons(center: bool, left: bool, right: bool, up: bool, down: bool)

  /** The world after one timer tick per snapshot in `bs`, in order. Every
      leading edge has then drifted `|bs|` steps of its lane's speed, whatever
      buttons were pressed. */
  function Ticks(w: World, bs: seq<Buttons>): (r: World)
    requires Inv(w)
    ensures Inv(r)
    ensures forall l, v :: 0 <= l < NumRoadLanes && 0 <= v < MaxVehiclesPerLane ==>
              r.roadLanes[l][v].pos == Drift(w.roadLanes[l][v].pos, RoadLaneSpeed[l], |bs|)
    decreases |bs|
  {
    if bs == [] then w
    else
      var b := bs[0];
      var w1 := TickW(w, b.center, b.left, b.right, b.up, b.down);
      TickAdvancesAll(w, b.center, b.left, b.right, b.up, b.down);
      Ticks(w1, bs[1..])
  }

  /** A byte position after `n` steps of `s`, one byte addition at a time. */
  function Drift(p: int, s: int, n: nat): int
    decreases n
  {
    if n == 0 then p else Drift((p + s) % 0x100, s, n - 1)
  }

  /** `n` byte additions of `s` are one addition of `n` times `s`; with the
      contract of `Ticks`, a leading edge after `n` ticks is its start plus `n`
      times its lane's speed, mod 256. */
  lemma {:induction false} DriftClosed(p: int, s: int, n: nat)
    requires 0 <= p < 0x100
    ensures Drift(p, s, n) == (p + n * s) % 0x100
    decreases n
  {
    if n > 0 {
      DriftClosed((p + s) % 0x100, s, n - 1);
      ByteAddLeft(p + s, (n - 1) * s);
      assert p + s + (n - 1) * s == p + n * s;
    }
  }

  /** The button phases of a tick, before the vehicles move. */
  function FrogPhases(w: World, center: bool, left: bool, right: bool, up: bool, down: bool): (r: World)
    requires Inv(w)
    ensures Inv(r)
  {
    DownW(UpW(HorizontalW(ToggleW(w, center), left, right), up), down)
  }

  /** Grids `a` and `b` have the same leading edges. */
  predicate SamePositions(a: seq<seq<Vehicle>>, b: seq<seq<Vehicle>>)
    requires IsGrid(a) && IsGrid(b)
  {
    forall l, v :: 0 <= l < NumRoadLanes && 0 <= v < MaxVehiclesPerLane ==> a[l][v].pos == b[l][v].pos
  }

  /** No button moves a vehicle. */
  lemma FrogPhasesKeepPositions(w: World, center: bool, left: bool, right: bool, up: bool, down: bool)
    requires Inv(w)
    ensures SamePositions(w.roadLanes, FrogPhases(w, center, left, right, up, down).roadLanes)
  {
    var w2 := HorizontalW(ToggleW(w, center), left, right);
    if up { MoveUpKeeps(w2); }
  }

  /** A collision, deadly or not, moves no vehicle. */
  lemma CollideKeepsPositions(w: World)
    requires Inv(w)
    ensures SamePositions(w.roadLanes, CollideW(w).roadLanes)
  {
  }

  /** `TickAdvances` for every slot at once. */
  lemma TickAdvancesAll(w: World, center: bool, left: bool, right: bool, up: bool, down: bool)
    requires Inv(w)
    ensures var r := TickW(w, center, left, right, up, down);
      forall l, v :: 0 <= l < NumRoadLanes && 0 <= v < MaxVehiclesPerLane ==>
        r.roadLanes[l][v].pos == (w.roadLanes[l][v].pos + RoadLaneSpeed[l]) % 0x100
  {
    forall l, v | 0 <= l < NumRoadLanes && 0 <= v < MaxVehiclesPerLane {
      TickAdvances(w, center, left, right, up, down, l, v);
    }
  }

  /** Over one tick the centre button flips the collision switch and at most
      one life is lost. */
  lemma TickLives(w: World, center: bool, left: bool, right: bool, up: bool, down: bool)
    requires Inv(w)
    ensures var r := TickW(w, center, left, right, up, down);
      && r.enableCollision == (w.enableCollision != center)
      && (r.lives == w.lives || r.lives == ToByte(w.lives - 1))
  {
  }

  /** No tick clears a goal flag. */
  lemma TickKeepsGoals(w: World, center: bool, left: bool, right: bool, up: bool, down: bool)
    requires Inv(w)
    ensures var r := TickW(w, center, left, right, up, down);
      forall j :: 0 <= j < NumOfGoals && w.goalReached[j] ==> r.goalReached[j]
  {
    var w2 := HorizontalW(ToggleW(w, center), left, right);
    if up { MoveUpKeeps(w2); }
  }

  /** Without a death or a goal capture in a tick, the best track of this life
      does not get worse. */
  lemma TickHiTrack(w: World, center: bool, left: bool, right: bool, up: bool, down: bool)
    requires Inv(w)
    ensures var r := TickW(w, center, left, right, up, down);
      r.lives == w.lives && r.goalReached == w.goalReached ==> r.mainFrog.hiTrack <= w.mainFrog.hiTrack
  {
    var w2 := HorizontalW(ToggleW(w, center), left, right);
    var w3 := UpW(w2, up);
    var w5 := UpdateW(DownW(w3, down));
    if up { MoveUpKeeps(w2); }
    var r := CollideW(w5);
    if r != w5 {
      assert r.lives != w5.lives;
    }
  }

  /** The restart of `main`'s outer loop: the frog goes back to its default
      record; lives, score and goal flags are not touched. */
  function RestartW(w: World): (r: World)
    requires Inv(w)
    ensures Inv(r)
    ensures r.mainFrog == DefaultFrog && r.(mainFrog := w.mainFrog) == w
  {
    w.(mainFrog := DefaultFrog)
  }
}
