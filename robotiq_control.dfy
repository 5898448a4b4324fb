/**
 * Gripper-state classification and state-change reporting of
 * simulation_project/scripts/robotiq_control.py.
 *
 * A read of the two active joints of the ROBOTIQ 85 gripper through the
 * simulator's remote API is a `JointRead`: the two joint positions in
 * radians, or a failure (any exception raised by the remote calls).
 * Polling loops are driven by the wall clock in the source; here they run
 * over the sequence of polls made before the deadline.
 */
module GripperMonitor {
  import opened Support

  /** The state strings "OPEN", "CLOSED", "MOVING" and "ERROR". */
  datatype GripperState = Open | Closed | Moving | ReadError

  /** The positions read from LactiveJoint and RactiveJoint, or a failed read. */
  datatype JointRead = Positions(left: real, right: real) | ReadFailed

  /** How close a joint must be to its target, exclusive. */
  const Tolerance: real := 0.01

  /** The open positions of the left and right active joints. */
  const OpenLeft: real := 0.794
  const OpenRight: real := 0.803

  predicate NearClosed(left: real, right: real) {
    Abs(left) < Tolerance && Abs(right) < Tolerance
  }

  predicate NearOpen(left: real, right: real) {
    Abs(left - OpenLeft) < Tolerance && Abs(right - OpenRight) < Tolerance
  }

  /** The if/elif chain of `get_gripper_state`: CLOSED is tried first, then OPEN; anything else is MOVING. */
  function Classify(left: real, right: real): (s: GripperState)
    ensures s == Closed <==> NearClosed(left, right)
    ensures s == Open <==> !NearClosed(left, right) && NearOpen(left, right)
    ensures s == Moving <==> !NearClosed(left, right) && !NearOpen(left, right)
  {
    if NearClosed(left, right) then Closed
    else if NearOpen(left, right) then Open
    else Moving
  }

  /**
   * `get_gripper_state`: the state with the positions read, unchanged;
   * ("ERROR", 0.0, 0.0) when the read fails.
   */
  function GetGripperState(read: JointRead): (r: (GripperState, real, real))
    ensures read.Positions? ==> r == (Classify(read.left, read.right), read.left, read.right)
    ensures read.ReadFailed? ==> r == (ReadError, 0.0, 0.0)
  {
    match read
    case Positions(left, right) => (Classify(left, right), left, right)
    case ReadFailed => (ReadError, 0.0, 0.0)
  }

  /** A successful read is never ERROR; a failed one always is. */
  lemma ErrorOnlyOnFailure(read: JointRead)
    ensures GetGripperState(read).0 == ReadError <==> read.ReadFailed?
  {
  }

  /** The CLOSED and OPEN regions do not overlap. */
  lemma {:induction false} ClosedAndOpenDisjoint(left: real, right: real)
    ensures !(NearClosed(left, right) && NearOpen(left, right))
  {
    if Abs(left) < Tolerance {
      assert left < 0.01;
      assert Abs(left - OpenLeft) > Tolerance;
    }
  }

  /** The same classification with the OPEN test made first. */
  function ClassifyOpenFirst(left: real, right: real): GripperState {
    if NearOpen(left, right) then Open
    else if NearClosed(left, right) then Closed
    else Moving
  }

  /** Because the regions are disjoint, the order of the two tests cannot change the state. */
  lemma TestOrderIrrelevant(left: real, right: real)
    ensures Classify(left, right) == ClassifyOpenFirst(left, right)
  {
    ClosedAndOpenDisjoint(left, right);
  }

  /** The tolerance is strict: a joint exactly 0.01 rad from its target is not at it. */
  lemma StrictTolerance(right: real)
    ensures Classify(0.01, right) != Closed && Classify(-0.01, right) != Closed
    ensures Classify(OpenLeft + 0.01, right) != Open && Classify(OpenLeft - 0.01, right) != Open
  {
  }

  /** The nominal positions classify as CLOSED and OPEN. */
  lemma NominalPositions()
    ensures Classify(0.0, 0.0) == Closed && Classify(OpenLeft, OpenRight) == Open
  {
  }

  /** One line of the monitor: the state and the two positions (the time stamp is left out). */
  type Line = (GripperState, real, real)

  /**
   * The lines `monitor_gripper_continuously` prints for `polls`: a read is
   * reported when it is the first or its state differs from the state of
   * the read before it.
   */
  function Reported(polls: seq<JointRead>): seq<Line>
    decreases |polls|
  {
    if |polls| == 0 then []
    else
      var last := GetGripperState(polls[|polls| - 1]);
      var changed := |polls| == 1 || last.0 != GetGripperState(polls[|polls| - 2]).0;
      Reported(polls[..|polls| - 1]) + (if changed then [last] else [])
  }

  /** `monitor_gripper_continuously` over the polls made before the deadline. */
  method MonitorGripperContinuously(polls: seq<JointRead>) returns (printed: seq<Line>)
    ensures printed == Reported(polls)
  {
    printed := [];
    var lastState: Option<GripperState> := None;
    for i := 0 to |polls|
      invariant printed == Reported(polls[..i])
      invariant i == 0 ==> lastState == None
      invariant i > 0 ==> lastState == Some(GetGripperState(polls[i - 1]).0)
    {
      assert polls[..i + 1][..i] == polls[..i];
      var line := GetGripperState(polls[i]);
      if lastState != Some(line.0) {
        printed := printed + [line];
        lastState := Some(line.0);
      }
    }
    assert polls[..|polls|] == polls;
  }

  /** The first read is always reported, and the last line carries the state of the last read. */
  lemma {:induction false} ReportedEnds(polls: seq<JointRead>)
    requires |polls| > 0
    ensures var lines := Reported(polls);
      && |lines| > 0
      && lines[0] == GetGripperState(polls[0])
      && lines[|lines| - 1].0 == GetGripperState(polls[|polls| - 1]).0
    decreases |polls|
  {
    if |polls| > 1 {
      var init := polls[..|polls| - 1];
      ReportedEnds(init);
      assert init[0] == polls[0] && init[|init| - 1] == polls[|polls| - 2];
    }
  }

  /** Consecutive printed lines always show different states. */
  lemma {:induction false} ReportedStatesChange(polls: seq<JointRead>)
    ensures var lines := Reported(polls);
      forall j :: 0 <= j < |lines| - 1 ==> lines[j].0 != lines[j + 1].0
    decreases |polls|
  {
    if |polls| > 1 {
      var init := polls[..|polls| - 1];
      ReportedStatesChange(init);
      ReportedEnds(init);
      assert init[|init| - 1] == polls[|polls| - 2];
    }
  }

  /** No more lines than polls. */
  lemma {:induction false} ReportedNoLonger(polls: seq<JointRead>)
    ensures |Reported(polls)| <= |polls|
    decreases |polls|
  {
    if |polls| > 0 {
      ReportedNoLonger(polls[..|polls| - 1]);
    }
  }

  /** A gripper that keeps one state is reported once. */
  lemma {:induction false} SteadyStateReportedOnce(polls: seq<JointRead>)
    requires |polls| > 0
    requires forall i :: 0 <= i < |polls| ==> GetGripperState(polls[i]).0 == GetGripperState(polls[0]).0
    ensures Reported(polls) == [GetGripperState(polls[0])]
    decreases |polls|
  {
    if |polls| > 1 {
      var init := polls[..|polls| - 1];
      assert init[0] == polls[0];
      SteadyStateReportedOnce(init);
    }
  }

  /** Whether some read before the deadline shows `target`. */
  predicate Reaches(polls: seq<JointRead>, target: GripperState) {
    exists i :: 0 <= i < |polls| && GetGripperState(polls[i]).0 == target
  }

  /**
   * `wait_for_gripper_state`: poll until the target state is seen (True)
   * or the polls before the deadline run out (False).
   */
  method WaitForGripperState(polls: seq<JointRead>, target: GripperState) returns (reached: bool)
    ensures reached <==> Reaches(polls, target)
  {
    var i := 0;
    while i < |polls|
      invariant 0 <= i <= |polls|
      invariant forall k :: 0 <= k < i ==> GetGripperState(polls[k]).0 != target
    {
      var state := GetGripperState(polls[i]).0;
      if state == target {
        return true;
      }
      i := i + 1;
    }
    return false;
  }
}
