/** The game state of frog.c as one object whose handlers update it in place.
    Each method that models a whole C function or handler phase is proved
    against the function of the same handler in `Session`: it leaves the
    object in the abstract state that function computes from the old one, and
    keeps `Valid()`. The drawing helpers under `DrawVehicles` state instead
    what they do to the array slots and the canvas. */
module Game {
  import opened FrogConfig
  import opened Vehicles
  import opened Session

  class GameState {
    /** `roadLanes[lane][ve]`: 11 lanes of 3 vehicles. */
    const roadLanes: array2<Vehicle>
    const goalReached: array<bool>
    var mainFrog: Frog
    var lives: Byte
    var score: Word
    var enableCollision: bool
    /** Every `fill_rectangle` call made so far, oldest first. */
    var canvas: seq<Fill>

    /** Row `l` of the road grid as a value. */
    function Row(l: nat): (r: seq<Vehicle>)
      reads roadLanes
      requires l < roadLanes.Length0
      ensures |r| == roadLanes.Length1
      ensures forall v :: 0 <= v < roadLanes.Length1 ==> r[v] == roadLanes[l, v]
    {
      seq(roadLanes.Length1, v reads roadLanes requires 0 <= v < roadLanes.Length1 => roadLanes[l, v])
    }

    /** The road grid as a value. */
    function Lanes(): (g: seq<seq<Vehicle>>)
      reads roadLanes
      ensures |g| == roadLanes.Length0
      ensures forall l :: 0 <= l < roadLanes.Length0 ==> g[l] == Row(l)
    {
      seq(roadLanes.Length0, l reads roadLanes requires 0 <= l < roadLanes.Length0 => Row(l))
    }

    /** The whole state as a value. */
    function Abs(): World
      reads this, roadLanes, goalReached
    {
      World(Lanes(), mainFrog, goalReached[..], lives, score, enableCollision, canvas)
    }

    ghost predicate Valid()
      reads this, roadLanes, goalReached
    {
      && roadLanes.Length0 == NumRoadLanes && roadLanes.Length1 == MaxVehiclesPerLane
      && goalReached.Length == NumOfGoals
      && Inv(Abs())
    }

    /** The initialised globals, with the frog placed by `main`. */
    constructor ()
      ensures Valid() && Abs() == InitialWorld()
    {
      roadLanes := new Vehicle[NumRoadLanes, MaxVehiclesPerLane]((l, v) requires 0 <= l < NumRoadLanes && 0 <= v < MaxVehiclesPerLane => InitialLanes[l][v]);
      goalReached := new bool[NumOfGoals](_ => false);
      mainFrog := DefaultFrog;
      lives := 3;
      score := 0;
      enableCollision := true;
      canvas := [];
      new;
      GridEquality(Lanes(), InitialLanes);
      assert goalReached[..] == [false, false, false, false, false];
    }

    /** `updateVehicles`: each vehicle's leading edge advances by the lane
        speed read as a byte, in place. */
    method UpdateVehicles()
      requires Valid()
      modifies roadLanes
      ensures Valid() && Abs() == UpdateW(old(Abs()))
    {
      ghost var g := Lanes();
      for lane := 0 to NumRoadLanes
        invariant forall l, v :: 0 <= l < NumRoadLanes && 0 <= v < MaxVehiclesPerLane ==>
                    roadLanes[l, v] == if l < lane then Advance(l, g[l][v]) else g[l][v]
      {
        var speed := SpeedByte(lane);
        for ve := 0 to MaxVehiclesPerLane
          invariant forall l, v :: 0 <= l < NumRoadLanes && 0 <= v < MaxVehiclesPerLane ==>
                      roadLanes[l, v] == if l < lane || (l == lane && v < ve) then Advance(l, g[l][v]) else g[l][v]
        {
          var vex := roadLanes[lane, ve];
          roadLanes[lane, ve] := vex.(pos := ToByte(vex.pos + speed));
        }
      }
      GridEquality(Lanes(), UpdatedLanes(g));
    }

    /** The body of the vehicle loop of `drawVehicles` for `roadLanes[lane][ve]`,
        on a grid drawn up to that vehicle that otherwise still holds `g`. */
    method DrawVehicleAt(lane: nat, ve: nat, ghost g: seq<seq<Vehicle>>)
      requires lane < NumRoadLanes == roadLanes.Length0 && ve < MaxVehiclesPerLane == roadLanes.Length1 && IsGrid(g)
      requires forall l, v :: 0 <= l < NumRoadLanes && 0 <= v < MaxVehiclesPerLane ==>
                 roadLanes[l, v] == if l < lane || (l == lane && v < ve) then Vehicle(g[l][v].pos, g[l][v].pos) else g[l][v]
      modifies this`canvas, roadLanes
      ensures canvas == old(canvas) + DrawVehicle(lane, g[lane][ve]).fills
      ensures forall l, v :: 0 <= l < NumRoadLanes && 0 <= v < MaxVehiclesPerLane ==>
                roadLanes[l, v] == if l < lane || (l == lane && v <= ve) then Vehicle(g[l][v].pos, g[l][v].pos) else g[l][v]
    {
      if RoadLaneSpeed[lane] > 0 {
        DrawRightMover(lane, ve);
      } else {
        DrawLeftMover(lane, ve);
      }
    }

    /** The right-mover branch: repaint the advance unless the vehicle wrapped,
        then the wrap tail in the background colour. */
    method DrawRightMover(lane: nat, ve: nat)
      requires lane < NumRoadLanes == roadLanes.Length0 && ve < MaxVehiclesPerLane == roadLanes.Length1
      requires RoadLaneSpeed[lane] > 0
      modifies this`canvas, roadLanes
      ensures var d := DrawVehicle(lane, old(roadLanes[lane, ve]));
        roadLanes[lane, ve] == d.vehicle && canvas == old(canvas) + d.fills
      ensures forall l, v :: 0 <= l < NumRoadLanes && 0 <= v < MaxVehiclesPerLane && (l, v) != (lane, ve) ==>
                roadLanes[l, v] == old(roadLanes[l, v])
    {
      var top := LaneTop(lane);
      var size := VehicleLength[lane];
      var bg := Colours[RoadOffset + lane - 1];
      var vex := roadLanes[lane, ve];
      ghost var moved: seq<Fill> := [];
      if vex.pos < vex.prevPos {
        roadLanes[lane, ve] := vex.(prevPos := vex.pos);
      } else if vex.pos > vex.prevPos {
        var rects := [Fill(vex.prevPos, vex.pos, top, top + LaneBottomOffset, LaneColours[lane]),
                      Fill(vex.prevPos - size, vex.pos - size, top, top + LaneBottomOffset, bg)];
        canvas := canvas + rects;
        moved := rects;
        roadLanes[lane, ve] := vex.(prevPos := vex.pos);
      }
      DrawTail(lane, vex, bg, old(canvas), moved);
    }

    /** The left-mover branch: the same comparisons on the byte left edges,
        and the wrap tail in the lane colour. */
    method DrawLeftMover(lane: nat, ve: nat)
      requires lane < NumRoadLanes == roadLanes.Length0 && ve < MaxVehiclesPerLane == roadLanes.Length1
      requires RoadLaneSpeed[lane] <= 0
      modifies this`canvas, roadLanes
      ensures var d := DrawVehicle(lane, old(roadLanes[lane, ve]));
        roadLanes[lane, ve] == d.vehicle && canvas == old(canvas) + d.fills
      ensures forall l, v :: 0 <= l < NumRoadLanes && 0 <= v < MaxVehiclesPerLane && (l, v) != (lane, ve) ==>
                roadLanes[l, v] == old(roadLanes[l, v])
    {
      var top := LaneTop(lane);
      var size := VehicleLength[lane];
      var bg := Colours[RoadOffset + lane - 1];
      var vex := roadLanes[lane, ve];
      var leftPos := ToByte(vex.pos - size);
      var leftPrevPos := ToByte(vex.prevPos - size);
      ghost var moved: seq<Fill> := [];
      if leftPos > leftPrevPos {
        roadLanes[lane, ve] := vex.(prevPos := vex.pos);
      } else if leftPos < leftPrevPos {
        var rects := [Fill(vex.pos - size, vex.prevPos - size, top, top + LaneBottomOffset, LaneColours[lane]),
                      Fill(vex.pos, vex.prevPos, top, top + LaneBottomOffset, bg)];
        canvas := canvas + rects;
        moved := rects;
        roadLanes[lane, ve] := vex.(prevPos := vex.pos);
      }
      DrawTail(lane, vex, LaneColours[lane], old(canvas), moved);
    }

    /** The wrap-tail step of `drawVehicles` for vehicle `vex` as read before
        the draw, painted in colour `c` after the `moved` rectangles that
        followed `before`. */
    method DrawTail(lane: nat, vex: Vehicle, c: Colour, ghost before: seq<Fill>, ghost moved: seq<Fill>)
      requires lane < NumRoadLanes && canvas == before + moved
      modifies this`canvas
      ensures canvas == before + (moved + TailFills(lane, vex, c))
    {
      var top := LaneTop(lane);
      var size := VehicleLength[lane];
      if vex.pos < size {
        var y := ToByte(255 - (size - vex.pos) + 1);
        var z := ToByte(255 - (size - vex.prevPos));
        if y < ScreenWidth {
          canvas := canvas + [Fill(z, y, top, top + LaneBottomOffset, c)];
        }
      }
    }

    /** The vehicle loop of `drawVehicles` for one lane, on a grid whose
        lanes above `lane` are drawn and the rest still hold `g`. */
    method DrawLane(lane: nat, ghost g: seq<seq<Vehicle>>)
      requires lane < NumRoadLanes == roadLanes.Length0 && MaxVehiclesPerLane == roadLanes.Length1 && IsGrid(g)
      requires forall l, v :: 0 <= l < NumRoadLanes && 0 <= v < MaxVehiclesPerLane ==>
                 roadLanes[l, v] == if l < lane then Vehicle(g[l][v].pos, g[l][v].pos) else g[l][v]
      modifies this`canvas, roadLanes
      ensures canvas == old(canvas) + RowFills(lane, g[lane], |g[lane]|)
      ensures forall l, v :: 0 <= l < NumRoadLanes && 0 <= v < MaxVehiclesPerLane ==>
                roadLanes[l, v] == if l <= lane then Vehicle(g[l][v].pos, g[l][v].pos) else g[l][v]
    {
      ghost var c := canvas;
      for ve := 0 to MaxVehiclesPerLane
        invariant canvas == c + RowFills(lane, g[lane], ve)
        invariant forall l, v :: 0 <= l < NumRoadLanes && 0 <= v < MaxVehiclesPerLane ==>
                    roadLanes[l, v] == if l < lane || (l == lane && v < ve) then Vehicle(g[l][v].pos, g[l][v].pos) else g[l][v]
      {
        DrawVehicleAt(lane, ve, g);
        RowFillsStep(c, lane, g[lane], ve);
      }
    }

    /** `drawVehicles`: every lane, every vehicle, in order. */
    method DrawVehicles()
      requires Valid()
      modifies this`canvas, roadLanes
      ensures Valid() && Abs() == DrawVehiclesW(old(Abs()))
    {
      ghost var w := Abs();
      ghost var g := w.roadLanes;
      for lane := 0 to NumRoadLanes
        invariant canvas == w.canvas + LanesFills(g, lane)
        invariant forall l, v :: 0 <= l < NumRoadLanes && 0 <= v < MaxVehiclesPerLane ==>
                    roadLanes[l, v] == if l < lane then Vehicle(g[l][v].pos, g[l][v].pos) else g[l][v]
      {
        DrawLane(lane, g);
        LanesFillsStep(w.canvas, g, lane);
      }
      GridEquality(Lanes(), DrawnLanes(g));
      assert Abs() == DrawVehiclesW(w);
    }

    /** `drawFrog`. */
    method DrawFrog()
      requires Valid()
      modifies this`canvas, this`mainFrog
      ensures Valid() && Abs() == DrawFrogW(old(Abs()))
    {
      ghost var w := Abs();
      if mainFrog.prevTrack != mainFrog.track || mainFrog.prevX != mainFrog.x {
        var currentLane := mainFrog.track * TrackWidth - 5;
        var previousLane := mainFrog.prevTrack * TrackWidth - 5;
        canvas := canvas + [Fill(mainFrog.x - FrogSize, mainFrog.x, currentLane, currentLane + 12, FrogColour),
                            Fill(mainFrog.prevX - FrogSize, mainFrog.prevX, previousLane, previousLane + 12,
                                 Colours[mainFrog.prevTrack - 1])];
        mainFrog := mainFrog.(prevTrack := mainFrog.track);
        mainFrog := mainFrog.(prevX := mainFrog.x);
      } else if !enableCollision {
        var currentLane := mainFrog.track * TrackWidth - 5;
        canvas := canvas + [Fill(mainFrog.x - FrogSize, mainFrog.x, currentLane, currentLane + 12, LimeGreen)];
      }
      assert Abs() == DrawFrogW(w);
    }

    /** `drawGoals`: each slot, then its marker when reached. */
    method DrawGoals()
      requires Valid()
      modifies this`canvas
      ensures Valid() && Abs() == DrawGoalsW(old(Abs()))
    {
      for x := 0 to NumOfGoals
        invariant canvas == old(canvas) + GoalsFills(goalReached[..], x)
      {
        var gp := GoalPositions[x];
        canvas := canvas + [Fill(gp - UnitLength / 2, gp + UnitLength / 2, GoalTrack * TrackWidth + OffsetPx,
                                 (GoalTrack + 1) * TrackWidth + OffsetPx, GoalBGColour)];
        if goalReached[x] {
          var currentLane := (GoalTrack + 1) * TrackWidth - 5;
          canvas := canvas + [Fill(gp - FrogSize / 2, gp + FrogSize / 2, currentLane, currentLane + 12, FrogColour)];
        }
      }
    }

    /** `drawRoads` on a display `width` columns wide. */
    method DrawRoads(width: int)
      requires Valid()
      modifies this`canvas
      ensures Valid() && Abs() == DrawRoadsW(old(Abs()), width)
    {
      for x := 0 to NumTracks
        invariant canvas == old(canvas) + TrackFills(width, x)
      {
        canvas := canvas + [Fill(0, width, x * TrackWidth + OffsetPx, (x + 1) * TrackWidth + OffsetPx, Colours[x])];
      }
      DrawGoals();
      canvas := canvas + [Fill(0, width, (GoalTrack - 1) * TrackWidth + OffsetPx + 20,
                               GoalTrack * TrackWidth + OffsetPx, Colours[GoalTrack])];
    }

    /** The vertical-blank handler: `drawVehicles` then `drawFrog`. */
    method Refresh()
      requires Valid()
      modifies this, roadLanes
      ensures Valid() && Abs() == RefreshW(old(Abs()))
    {
      DrawVehicles();
      DrawFrog();
    }

    /** `resetFrog`. */
    method ResetFrog()
      requires Valid()
      modifies this, roadLanes
      ensures Valid() && Abs() == ResetFrogW(old(Abs()))
    {
      ghost var w := Abs();
      mainFrog := mainFrog.(x := DefaultFrog.x);
      mainFrog := mainFrog.(track := DefaultFrog.track);
      mainFrog := mainFrog.(hiTrack := DefaultFrog.hiTrack);
      assert Abs() == w.(mainFrog := StartFrog(w.mainFrog));
      DrawFrog();
      DrawVehicles();
      ResetFrogDraws(w);
    }

    /** `deathHandler`: `lives -= 1` on a byte, then `resetFrog`. */
    method DeathHandler()
      requires Valid()
      modifies this, roadLanes
      ensures Valid() && Abs() == DeathW(old(Abs()))
    {
      lives := ToByte(lives - 1);
      ResetFrog();
    }

    /** `collision`: the vehicles of the frog's lane in order; the first that
        overlaps the frog kills it and ends the loop. */
    method Collision()
      requires Valid()
      modifies this, roadLanes
      ensures Valid() && Abs() == CollideW(old(Abs()))
    {
      if enableCollision && RoadOffset <= mainFrog.track && mainFrog.track < NumTracks {
        ghost var w := Abs();
        var lane := mainFrog.track - RoadOffset;
        for ve := 0 to MaxVehiclesPerLane
          invariant Abs() == w
          invariant forall k :: 0 <= k < ve ==> !Hits(w.mainFrog.x, w.roadLanes[lane][k].pos, VehicleLength[lane])
        {
          var vex := roadLanes[lane, ve];
          if Hits(mainFrog.x, vex.pos, VehicleLength[lane]) {
            assert AnyHit(w.roadLanes, lane, w.mainFrog.x) by {
              assert Hits(w.mainFrog.x, w.roadLanes[lane][ve].pos, VehicleLength[lane]);
            }
            DeathHandler();
            assert Abs() == CollideW(w);
            return;
          }
        }
        assert Abs() == CollideW(w);
      }
    }

    /** A capture of goal `x` inside the goal loop: set the flag, `drawGoals`,
        `resetFrog`, then add 100 to the score. */
    method CaptureGoal(x: nat)
      requires Valid() && x < NumOfGoals
      modifies this, roadLanes, goalReached
      ensures Valid() && Abs() == Capture(old(Abs()), x)
    {
      ghost var w := Abs();
      goalReached[x] := true;
      assert Abs() == w.(goalReached := w.goalReached[x := true]);
      DrawGoals();
      ResetFrog();
      score := ToWord(score + ScoreGoal);
      CaptureSteps(w, x);
      assert Abs() == Capture(w, x);
    }

    /** The up button on the track below the goal row: the goal loop, which
        goes on over the remaining slots after a capture. */
    method GoalLoop()
      requires Valid() && mainFrog.track == GoalTrack + 2
      modifies this, roadLanes, goalReached
      ensures Valid() && Abs() == GoalsLoop(old(Abs()), 0)
    {
      for x := 0 to NumOfGoals
        invariant Valid() && GoalsLoop(Abs(), x) == GoalsLoop(old(Abs()), 0)
      {
        ghost var w := Abs();
        if !goalReached[x] && GoalPositions[x] - UnitLength / 2 < mainFrog.x
           && GoalPositions[x] + UnitLength / 2 > mainFrog.x {
          CaptureGoal(x);
        }
        assert Abs() == GoalStep(w, x);
      }
    }

    /** The centre button flips the collision switch. */
    method ToggleCollision(center: bool)
      requires Valid()
      modifies this`enableCollision
      ensures Valid() && Abs() == ToggleW(old(Abs()), center)
    {
      if center {
        enableCollision := !enableCollision;
      }
    }

    /** The left button, then the right button. */
    method MoveHorizontal(left: bool, right: bool)
      requires Valid()
      modifies this`mainFrog
      ensures Valid() && Abs() == HorizontalW(old(Abs()), left, right)
    {
      ghost var w := Abs();
      if left && mainFrog.x > FrogStepX {
        mainFrog := mainFrog.(x := ToByte(mainFrog.x - FrogStepX));
      }
      if right && mainFrog.x < ScreenWidth - FrogStepX {
        mainFrog := mainFrog.(x := ToByte(mainFrog.x + FrogStepX));
      }
      assert Abs() == w.(mainFrog := MoveRight(MoveLeft(w.mainFrog, left), right));
      assert Abs() == HorizontalW(w, left, right);
    }

    /** The up button: the goal loop just below the goal row, otherwise one
        track up with 10 points for a new best track. */
    method MoveUp(up: bool)
      requires Valid()
      modifies this, roadLanes, goalReached
      ensures Valid() && Abs() == UpW(old(Abs()), up)
    {
      if up && mainFrog.track > 2 {
        if mainFrog.track == GoalTrack + 2 {
          GoalLoop();
        } else {
          mainFrog := mainFrog.(track := ToByte(mainFrog.track - 1));
          if mainFrog.track < mainFrog.hiTrack {
            score := ToWord(score + ScoreMovement);
            mainFrog := mainFrog.(hiTrack := mainFrog.track);
          }
        }
      }
    }

    /** The down button. */
    method MoveDown(down: bool)
      requires Valid()
      modifies this`mainFrog
      ensures Valid() && Abs() == DownW(old(Abs()), down)
    {
      if down && mainFrog.track < NumTracks {
        mainFrog := mainFrog.(track := ToByte(mainFrog.track + 1));
      }
    }

    /** The movement timer handler for one snapshot of the five buttons. */
    method Tick(center: bool, left: bool, right: bool, up: bool, down: bool)
      requires Valid()
      modifies this, roadLanes, goalReached
      ensures Valid() && Abs() == TickW(old(Abs()), center, left, right, up, down)
    {
      ToggleCollision(center);
      MoveHorizontal(left, right);
      MoveUp(up);
      MoveDown(down);
      UpdateVehicles();
      Collision();
    }

    /** The restart of `main`'s outer loop: the frog back to its default
        record, then `drawRoads`. */
    method Restart(width: int)
      requires Valid()
      modifies this
      ensures Valid() && Abs() == DrawRoadsW(RestartW(old(Abs())), width)
    {
      mainFrog := DefaultFrog;
      DrawRoads(width);
    }
  }
}
