/** The output side of the telemetry handler in src/main.cpp: splitting the
    solver's flat result into the predicted trajectory, and copying the
    vehicle-local reference points for display. */
module Telemetry {

  /** The solver's result is `[steering, throttle, x_0 .. x_(N-1), y_0 .. y_(N-1)]`
      with `N = (|solution| - 2) / 2`; the loop pushes `solution[i + 2]` onto
      the x list and `solution[i + 2 + N]` onto the y list. A trailing odd
      element is ignored. */
  method SplitTrajectory(solution: seq<real>) returns (mpcX: seq<real>, mpcY: seq<real>)
    requires |solution| >= 2
    ensures |mpcX| == |mpcY| == (|solution| - 2) / 2
    ensures forall i :: 0 <= i < |mpcX| ==> mpcX[i] == solution[i + 2] && mpcY[i] == solution[i + 2 + |mpcX|]
    ensures solution[..2] + mpcX + mpcY == solution[..2 + 2 * |mpcX|]
    ensures |solution| - (2 + 2 * |mpcX|) == |solution| % 2
  {
    var n := (|solution| - 2) / 2;
    mpcX, mpcY := [], [];
    var i := 0;
    while i < n
      invariant 0 <= i <= n
      invariant mpcX == solution[2..2 + i]
      invariant mpcY == solution[2 + n..2 + n + i]
    {
      mpcX := mpcX + [solution[i + 2]];
      mpcY := mpcY + [solution[i + 2 + n]];
      i := i + 1;
    }
    assert solution[..2] + solution[2..2 + n] + solution[2 + n..2 + 2 * n] == solution[..2 + 2 * n];
  }

  /** The solver's side of the interface: a command followed by the x block
      and the y block of a trajectory. */
  function PackSolution(steering: real, throttle: real, xs: seq<real>, ys: seq<real>): (s: seq<real>)
    requires |xs| == |ys|
    ensures |s| == 2 + 2 * |xs|
  {
    [steering, throttle] + xs + ys
  }

  /** Splitting undoes packing: the handler recovers exactly the trajectory
      the solver laid out. */
  method SplitPackedSolution(steering: real, throttle: real, xs: seq<real>, ys: seq<real>)
    returns (mpcX: seq<real>, mpcY: seq<real>)
    requires |xs| == |ys|
    ensures mpcX == xs && mpcY == ys
  {
    var s := PackSolution(steering, throttle, xs, ys);
    mpcX, mpcY := SplitTrajectory(s);
    assert s[2..2 + |xs|] == xs && s[2 + |xs|..] == ys;
  }

  /** The reference line sent for display: the vehicle-local waypoints, copied
      one by one in order; the loop runs over the x list and reads the y list
      at the same indices. */
  method CopyReferenceLine(ptsX: seq<real>, ptsY: seq<real>) returns (nextX: seq<real>, nextY: seq<real>)
    requires |ptsX| <= |ptsY|
    ensures |nextX| == |nextY| == |ptsX|
    ensures forall i :: 0 <= i < |ptsX| ==> nextX[i] == ptsX[i] && nextY[i] == ptsY[i]
    ensures |ptsX| == |ptsY| ==> nextX == ptsX && nextY == ptsY
  {
    nextX, nextY := [], [];
    var i := 0;
    while i < |ptsX|
      invariant 0 <= i <= |ptsX|
      invariant nextX == ptsX[..i] && nextY == ptsY[..i]
    {
      nextX := nextX + [ptsX[i]];
      nextY := nextY + [ptsY[i]];
      i := i + 1;
    }
    assert ptsX[..|ptsX|] == ptsX;
  }
}
