/** Vehicle motion (`updateVehicles`) and the dirty rectangles of one vehicle
    draw (`drawVehicles`), as functions of the road grid. */
module Vehicles {
  import opened FrogConfig

  /** `uint8_t speed = roadLaneSpeed[lane]`: the signed speed read as a byte. */
  function SpeedByte(lane: nat): Byte
    requires lane < NumRoadLanes
  {
    ToByte(RoadLaneSpeed[lane])
  }

  /** One tick of one vehicle: only the leading edge moves, by the lane's
      signed speed, wrapping around modulo 256. */
  function Advance(lane: nat, v: Vehicle): (r: Vehicle)
    requires lane < NumRoadLanes
    ensures r.prevPos == v.prevPos
    ensures r.pos == (v.pos + RoadLaneSpeed[lane]) % 0x100
  {
    ByteAddLeft(RoadLaneSpeed[lane], v.pos);
    v.(pos := ToByte(v.pos + SpeedByte(lane)))
  }

  /** The road grid after `updateVehicles`. */
  function UpdatedLanes(g: seq<seq<Vehicle>>): (r: seq<seq<Vehicle>>)
    requires IsGrid(g)
    ensures IsGrid(r)
    ensures forall l, v :: 0 <= l < NumRoadLanes && 0 <= v < MaxVehiclesPerLane ==>
              r[l][v] == Advance(l, g[l][v])
  {
    seq(NumRoadLanes, l requires 0 <= l < NumRoadLanes =>
      seq(MaxVehiclesPerLane, v requires 0 <= v < MaxVehiclesPerLane => Advance(l, g[l][v])))
  }

  /** The grid after `n` consecutive updates. */
  function UpdatedLanesN(g: seq<seq<Vehicle>>, n: nat): (r: seq<seq<Vehicle>>)
    requires IsGrid(g)
    ensures IsGrid(r)
  {
    if n == 0 then g else UpdatedLanes(UpdatedLanesN(g, n - 1))
  }

  /** After `n` ticks a vehicle's leading edge is its start plus `n` times the
      signed lane speed, modulo 256; the last drawn position is untouched. */
  lemma {:induction false} UpdatedLanesNPos(g: seq<seq<Vehicle>>, n: nat, l: nat, v: nat)
    requires IsGrid(g) && l < NumRoadLanes && v < MaxVehiclesPerLane
    ensures UpdatedLanesN(g, n)[l][v].prevPos == g[l][v].prevPos
    ensures UpdatedLanesN(g, n)[l][v].pos == (g[l][v].pos + n * RoadLaneSpeed[l]) % 0x100
  {
    if n > 0 {
      UpdatedLanesNPos(g, n - 1, l, v);
      var a := g[l][v].pos + (n - 1) * RoadLaneSpeed[l];
      ByteAddLeft(a, RoadLaneSpeed[l]);
      assert a + RoadLaneSpeed[l] == g[l][v].pos + n * RoadLaneSpeed[l];
    }
  }

  /** A lane whose speed is zero never moves, however many ticks pass. */
  lemma StillLaneNeverMoves(g: seq<seq<Vehicle>>, n: nat, l: nat, v: nat)
    requires IsGrid(g) && l < NumRoadLanes && v < MaxVehiclesPerLane
    requires RoadLaneSpeed[l] == 0
    ensures UpdatedLanesN(g, n)[l][v] == g[l][v]
  {
    UpdatedLanesNPos(g, n, l, v);
  }

  /** Screen row of the top edge of a road lane's vehicles. */
  function LaneTop(lane: nat): int
  {
    (RoadOffset + lane - 1) * TrackWidth + OffsetPx + LaneTopOffset
  }

  /** A vehicle after one draw, and the rectangles painted for it. */
  datatype Drawn = Drawn(vehicle: Vehicle, fills: seq<Fill>)

  /** Start column of the wrap tail: `255 - (size - pos) + 1` as a byte. */
  function TailEnd(size: int, pos: int): Byte { ToByte(255 - (size - pos) + 1) }

  /** End column of the previous wrap tail: `255 - (size - prevPos)` as a byte. */
  function TailStart(size: int, prevPos: int): Byte { ToByte(255 - (size - prevPos)) }

  /** The wrap-tail rectangle, painted only while the leading edge is closer
      to column 0 than the vehicle is long and its end column is on screen. */
  function TailFills(lane: nat, v: Vehicle, c: Colour): seq<Fill>
    requires lane < NumRoadLanes
  {
    var size := VehicleLength[lane];
    var top := LaneTop(lane);
    if v.pos < size && TailEnd(size, v.pos) < ScreenWidth then
      [Fill(TailStart(size, v.prevPos), TailEnd(size, v.pos), top, top + LaneBottomOffset, c)]
    else []
  }

  /** The body of the vehicle loop of `drawVehicles` for one vehicle. */
  function DrawVehicle(lane: nat, v: Vehicle): (d: Drawn)
    requires lane < NumRoadLanes
    ensures d.vehicle == Vehicle(v.pos, v.pos)
    ensures |d.fills| <= 3
  {
    var size := VehicleLength[lane];
    var top := LaneTop(lane);
    var bottom := top + LaneBottomOffset;
    var fg := LaneColours[lane];
    var bg := Colours[RoadOffset + lane - 1];
    if RoadLaneSpeed[lane] > 0 then
      var moved :=
        if v.pos < v.prevPos then Drawn(v.(prevPos := v.pos), [])
        else if v.pos > v.prevPos then
          Drawn(v.(prevPos := v.pos),
                [Fill(v.prevPos, v.pos, top, bottom, fg),
                 Fill(v.prevPos - size, v.pos - size, top, bottom, bg)])
        else Drawn(v, []);
      Drawn(moved.vehicle, moved.fills + TailFills(lane, v, bg))
    else
      var leftPos := ToByte(v.pos - size);
      var leftPrevPos := ToByte(v.prevPos - size);
      var moved :=
        if leftPos > leftPrevPos then Drawn(v.(prevPos := v.pos), [])
        else if leftPos < leftPrevPos then
          Drawn(v.(prevPos := v.pos),
                [Fill(v.pos - size, v.prevPos - size, top, bottom, fg),
                 Fill(v.pos, v.prevPos, top, bottom, bg)])
        else Drawn(v, []);
      Drawn(moved.vehicle, moved.fills + TailFills(lane, v, fg))
  }

  /** The rectangles of a right mover: two move rectangles exactly when it
      advanced (none on a wrap or when it stood still), the advance in the
      lane colour and then the vacated stretch one length behind in the
      background colour; then one tail rectangle exactly when the leading edge
      is nearer column 0 than the length and the tail's end column is on
      screen, from the pre-draw tail start to the new tail end, in the
      background colour. */
  lemma RightMoveFills(lane: nat, v: Vehicle)
    requires lane < NumRoadLanes && RoadLaneSpeed[lane] > 0
    ensures var d, size := DrawVehicle(lane, v), VehicleLength[lane];
      var fg, bg := LaneColours[lane], Colours[RoadOffset + lane - 1];
      var forward := v.pos > v.prevPos;
      var tail := v.pos < size && TailEnd(size, v.pos) < ScreenWidth;
      && |d.fills| == (if forward then 2 else 0) + (if tail then 1 else 0)
      && (forward ==>
            && d.fills[0].left == v.prevPos && d.fills[0].right == v.pos && d.fills[0].colour == fg
            && d.fills[1].left == v.prevPos - size && d.fills[1].right == v.pos - size && d.fills[1].colour == bg)
      && (tail ==> var f := d.fills[|d.fills| - 1];
            f.left == TailStart(size, v.prevPos) && f.right == TailEnd(size, v.pos) && f.colour == bg)
  {
    var bg := Colours[RoadOffset + lane - 1];
    var t := TailFills(lane, v, bg);
    assert |t| <= 1;
  }

  /** The rectangles of a left mover: the same as for a right mover with the
      comparisons made on the left edges `pos - size` and `prevPos - size`
      read as bytes, the advance now at the left end, and the tail painted in
      the lane colour. */
  lemma LeftMoveFills(lane: nat, v: Vehicle)
    requires lane < NumRoadLanes && RoadLaneSpeed[lane] <= 0
    ensures var d, size := DrawVehicle(lane, v), VehicleLength[lane];
      var fg, bg := LaneColours[lane], Colours[RoadOffset + lane - 1];
      var forward := ToByte(v.pos - size) < ToByte(v.prevPos - size);
      var tail := v.pos < size && TailEnd(size, v.pos) < ScreenWidth;
      && |d.fills| == (if forward then 2 else 0) + (if tail then 1 else 0)
      && (forward ==>
            && d.fills[0].left == v.pos - size && d.fills[0].right == v.prevPos - size && d.fills[0].colour == fg
            && d.fills[1].left == v.pos && d.fills[1].right == v.prevPos && d.fills[1].colour == bg)
      && (tail ==> var f := d.fills[|d.fills| - 1];
            f.left == TailStart(size, v.prevPos) && f.right == TailEnd(size, v.pos) && f.colour == fg)
  {
    var fg := LaneColours[lane];
    var t := TailFills(lane, v, fg);
    assert |t| <= 1;
  }

  /** The grid after `drawVehicles`: every vehicle's last drawn position is committed. */
  function DrawnLanes(g: seq<seq<Vehicle>>): (r: seq<seq<Vehicle>>)
    requires IsGrid(g)
    ensures IsGrid(r)
    ensures forall l, v :: 0 <= l < NumRoadLanes && 0 <= v < MaxVehiclesPerLane ==>
              r[l][v] == Vehicle(g[l][v].pos, g[l][v].pos)
  {
    seq(NumRoadLanes, l requires 0 <= l < NumRoadLanes =>
      seq(MaxVehiclesPerLane, v requires 0 <= v < MaxVehiclesPerLane => DrawVehicle(l, g[l][v]).vehicle))
  }

  /** Rectangles painted for the first `k` vehicles of one lane, in loop order. */
  function RowFills(lane: nat, row: seq<Vehicle>, k: nat): seq<Fill>
    requires lane < NumRoadLanes && k <= |row|
  {
    if k == 0 then [] else RowFills(lane, row, k - 1) + DrawVehicle(lane, row[k - 1]).fills
  }

  /** Rectangles painted for the first `n` lanes, in loop order. */
  function LanesFills(g: seq<seq<Vehicle>>, n: nat): seq<Fill>
    requires IsGrid(g) && n <= NumRoadLanes
  {
    if n == 0 then [] else LanesFills(g, n - 1) + RowFills(n - 1, g[n - 1], |g[n - 1]|)
  }

  /** One more vehicle of the loop appends that vehicle's rectangles to what
      was painted before. */
  lemma RowFillsStep(c: seq<Fill>, lane: nat, row: seq<Vehicle>, k: nat)
    requires lane < NumRoadLanes && k < |row|
    ensures c + RowFills(lane, row, k + 1) == c + RowFills(lane, row, k) + DrawVehicle(lane, row[k]).fills
  {
  }

  /** One more lane of the loop appends that lane's rectangles to what was
      painted before. */
  lemma LanesFillsStep(c: seq<Fill>, g: seq<seq<Vehicle>>, n: nat)
    requires IsGrid(g) && n < NumRoadLanes
    ensures c + LanesFills(g, n + 1) == c + LanesFills(g, n) + RowFills(n, g[n], |g[n]|)
  {
  }

  /** The colour column `p` of a lane ends up with after `fills` are painted in
      order over a column of colour `under` (a fill covers `left..right` inclusive). */
  function Paint(fills: seq<Fill>, p: int, under: Colour): Colour
  {
    if fills == [] then under
    else
      var f := fills[|fills| - 1];
      if f.left <= p <= f.right then f.colour else Paint(fills[..|fills| - 1], p, under)
  }

  /** Painting two rectangles: the later one wins where they overlap. */
  lemma PaintTwo(f0: Fill, f1: Fill, p: int, under: Colour)
    ensures Paint([f0, f1], p, under) ==
      if f1.left <= p <= f1.right then f1.colour
      else if f0.left <= p <= f0.right then f0.colour
      else under
  {
    assert [f0][..0] == [];
    assert Paint([f0], p, under) == if f0.left <= p <= f0.right then f0.colour else under;
    assert [f0, f1][..1] == [f0];
  }

  /** Colour of column `p` of a lane when one vehicle occupies `lo < p <= hi`. */
  function RightBody(p: int, lo: int, hi: int, fg: Colour, bg: Colour): Colour
  {
    if lo < p <= hi then fg else bg
  }

  /** Colour of column `p` of a lane when one vehicle occupies `lo <= p < hi`. */
  function LeftBody(p: int, lo: int, hi: int, fg: Colour, bg: Colour): Colour
  {
    if lo <= p < hi then fg else bg
  }

  /** A right mover that advanced without wrapping: painting its
      rectangles over its old body `(prevPos - size, prevPos]` leaves exactly
      its new body `(pos - size, pos]` in the lane colour, every other column of
      the lane in the background colour. */
  lemma {:induction false} RightMoveRepaintsBody(lane: nat, v: Vehicle, p: int)
    requires lane < NumRoadLanes && RoadLaneSpeed[lane] > 0
    requires v.prevPos < v.pos
    ensures var size, fg, bg := VehicleLength[lane], LaneColours[lane], Colours[RoadOffset + lane - 1];
      Paint(DrawVehicle(lane, v).fills, p, RightBody(p, v.prevPos - size, v.prevPos, fg, bg))
        == RightBody(p, v.pos - size, v.pos, fg, bg)
  {
    var size, fg, bg := VehicleLength[lane], LaneColours[lane], Colours[RoadOffset + lane - 1];
    var top := LaneTop(lane);
    var move := [Fill(v.prevPos, v.pos, top, top + LaneBottomOffset, fg),
                 Fill(v.prevPos - size, v.pos - size, top, top + LaneBottomOffset, bg)];
    var tail := TailFills(lane, v, bg);
    assert DrawVehicle(lane, v).fills == move + tail;
    var under := RightBody(p, v.prevPos - size, v.prevPos, fg, bg);
    PaintTwo(move[0], move[1], p, under);
    if tail != [] {
      assert (move + tail)[..2] == move;
      assert tail[0].left >= 0x100 - 2 * UnitLength - 1;
    } else {
      assert move + tail == move;
    }
  }

  /** A left mover clear of column 0 that advanced without wrapping:
      painting its rectangles over its old body `[prevPos - size, prevPos)`
      leaves exactly its new body `[pos - size, pos)` in the lane colour. */
  lemma {:induction false} LeftMoveRepaintsBody(lane: nat, v: Vehicle, p: int)
    requires lane < NumRoadLanes && RoadLaneSpeed[lane] <= 0
    requires VehicleLength[lane] <= v.pos < v.prevPos
    ensures var size, fg, bg := VehicleLength[lane], LaneColours[lane], Colours[RoadOffset + lane - 1];
      Paint(DrawVehicle(lane, v).fills, p, LeftBody(p, v.prevPos - size, v.prevPos, fg, bg))
        == LeftBody(p, v.pos - size, v.pos, fg, bg)
  {
    var size, fg, bg := VehicleLength[lane], LaneColours[lane], Colours[RoadOffset + lane - 1];
    var top := LaneTop(lane);
    var move := [Fill(v.pos - size, v.prevPos - size, top, top + LaneBottomOffset, fg),
                 Fill(v.pos, v.prevPos, top, top + LaneBottomOffset, bg)];
    assert DrawVehicle(lane, v).fills == move + [];
    assert move + [] == move;
    PaintTwo(move[0], move[1], p, LeftBody(p, v.prevPos - size, v.prevPos, fg, bg));
  }

  /** The wrap tail uses the pre-draw `prevPos`; near column 0 its end column
      can fall off screen, and then nothing is painted for it. */
  lemma WrapTailExample()
    ensures TailEnd(20, 5) == 241 && TailStart(20, 250) == 229
    ensures TailFills(2, Vehicle(250, 5), Black) == []
  {
  }

  /** A vehicle of the zero-length, zero-speed lane paints nothing as long as
      its last drawn and current positions agree. */
  lemma StillVehicleDrawsNothing(lane: nat, v: Vehicle)
    requires lane < NumRoadLanes && VehicleLength[lane] == 0
    requires v.prevPos == v.pos
    ensures DrawVehicle(lane, v).fills == []
  {
  }

  /** A lane whose vehicles are all committed and have zero length paints nothing. */
  lemma {:induction false} StillRowDrawsNothing(lane: nat, row: seq<Vehicle>, k: nat)
    requires lane < NumRoadLanes && VehicleLength[lane] == 0 && k <= |row|
    requires forall v :: 0 <= v < |row| ==> row[v].prevPos == row[v].pos
    ensures RowFills(lane, row, k) == []
  {
    if k > 0 {
      StillRowDrawsNothing(lane, row, k - 1);
      StillVehicleDrawsNothing(lane, row[k - 1]);
    }
  }
}
