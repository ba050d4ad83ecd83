/** Layout constants, the constant lane tables and the value types of the game
    (frog.c:9-84). Integer widths of the C program are explicit: `Byte` is
    `uint8_t`, `Word` is `uint16_t`, and `ToByte`/`ToWord` are the truncating
    conversions C applies when an `int` result is stored into them. */
module FrogConfig {

  type Byte = x: int | 0 <= x < 0x100
  type Word = x: int | 0 <= x < 0x1_0000

  /** Conversion of an `int` to `uint8_t`: reduction modulo 256. */
  function ToByte(n: int): Byte { n % 0x100 }

  /** Conversion of an `int` to `uint16_t`: reduction modulo 65536. */
  function ToWord(n: int): Word { n % 0x1_0000 }

  /** Truncating a summand to a byte first does not change a byte sum. */
  lemma ByteAddLeft(a: int, s: int)
    ensures ToByte(ToByte(a) + s) == ToByte(a + s)
  {
    var q := a / 0x100;
    assert a == 0x100 * q + a % 0x100;
    assert a + s == (a % 0x100 + s) + 0x100 * q;
  }

  /** Truncating a summand to a word first does not change a word sum. */
  lemma WordAddLeft(a: int, s: int)
    ensures ToWord(ToWord(a) + s) == ToWord(a + s)
  {
    var q := a / 0x1_0000;
    assert a == 0x1_0000 * q + a % 0x1_0000;
    assert a + s == (a % 0x1_0000 + s) + 0x1_0000 * q;
  }

  const ScreenWidth := 240
  const TrackWidth := 22
  const NumTracks := 14
  const GoalTrack := 1
  const NumOfGoals := 5
  const UnitLength := 20
  const OffsetPx := 12
  const RoadOffset := 3
  const NumRoadLanes := 11
  const MaxVehiclesPerLane := 3
  const FrogSize := 12
  const FrogStepX := 22
  const ScoreMovement := 10
  const ScoreGoal := 100
  const LaneTopOffset := 5
  const LaneBottomOffset := 12

  /** The RGB565 constants of the display library, kept opaque. */
  datatype Colour =
    | Black | ForestGreen | DarkBlue | DarkViolet | DarkGreen | LimeGreen
    | BurlyWood | Red | Gold | GreenYellow | PaleTurquoise | Crimson | Lavender

  const FrogColour := LimeGreen
  const GoalBGColour := DarkGreen

  /** Background colour of each track, top to bottom. */
  const Colours: seq<Colour> :=
    [Black, ForestGreen, DarkBlue, DarkBlue, DarkBlue, DarkBlue, DarkBlue,
     DarkViolet, Black, Black, Black, Black, Black, DarkViolet]

  /** Centre column of each goal slot. */
  const GoalPositions: seq<Byte> := [32, 76, 120, 164, 208]

  /** Signed speed of each road lane in pixels per tick (`int8_t`). */
  const RoadLaneSpeed: seq<int> := [1, -2, 3, 1, -2, 0, -1, 3, -2, 2, 1]

  const VehicleLength: seq<Byte> :=
    [2 * UnitLength, 2 * UnitLength, UnitLength, UnitLength, UnitLength, 0,
     2 * UnitLength, 2 * UnitLength, UnitLength, UnitLength, UnitLength]

  const LaneColours: seq<Colour> :=
    [BurlyWood, Red, BurlyWood, BurlyWood, Red, Black, Gold, GreenYellow,
     PaleTurquoise, Crimson, Lavender]

  /** A vehicle's leading edge now and at the last draw. */
  datatype Vehicle = Vehicle(prevPos: Byte, pos: Byte)

  /** The player: best track this life, current and last drawn track and column. */
  datatype Frog = Frog(hiTrack: Byte, track: Byte, prevTrack: Byte, x: Byte, prevX: Byte)

  const DefaultFrog := Frog(14, 14, 13, 120 + FrogSize / 2, 120 + FrogSize / 2)

  /** One call of `fill_rectangle`: a rectangle and the colour it is filled with.
      Coordinates are the promoted `int` values the source computes. */
  datatype Fill = Fill(left: int, right: int, top: int, bottom: int, colour: Colour)

  function InitialRow(first: Byte, second: Byte, third: Byte): seq<Vehicle>
  {
    [Vehicle(first, first), Vehicle(second, second), Vehicle(third, third)]
  }

  /** The initialiser of `roadLanes`. */
  const InitialLanes: seq<seq<Vehicle>> :=
    [InitialRow(40, 90, 150), InitialRow(40, 90, 150), InitialRow(10, 90, 160),
     InitialRow(40, 90, 150), InitialRow(40, 90, 150), InitialRow(40, 90, 150),
     InitialRow(40, 90, 150), InitialRow(10, 90, 160), InitialRow(40, 90, 150),
     InitialRow(40, 90, 150), InitialRow(40, 90, 150)]

  /** Row `lane` of the road grid has one entry per vehicle slot. */
  predicate IsGrid(g: seq<seq<Vehicle>>)
  {
    |g| == NumRoadLanes && forall l :: 0 <= l < |g| ==> |g[l]| == MaxVehiclesPerLane
  }

  /** Two grids with the same vehicle in every slot are equal. */
  lemma GridEquality(a: seq<seq<Vehicle>>, b: seq<seq<Vehicle>>)
    requires IsGrid(a) && IsGrid(b)
    requires forall l, v :: 0 <= l < NumRoadLanes && 0 <= v < MaxVehiclesPerLane ==> a[l][v] == b[l][v]
    ensures a == b
  {
    assert forall l | 0 <= l < NumRoadLanes :: a[l] == b[l];
  }
}
