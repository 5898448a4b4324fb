/**
 * Rule-based grasp planning and straight-line trajectory generation of
 * simulation_project/planning/grasp_planner.py.
 *
 * A detected object is reduced to the two dictionary keys the planner reads.
 * The `modern_robotics` library is taken to be absent, so trajectories come
 * from the linear fallbacks. The arctangent, sine and cosine behind the
 * cylinder grasp are supplied by the caller (Support.Elementary).
 */
module GraspPlanning {
  import opened Support
  import opened Matrices
  import SE3

  /** `GraspPose`. */
  datatype GraspPose = GraspPose(
    position: Point3,
    orientation: Point3,
    approach: Point3,
    confidence: real,
    gripperWidth: real)

  /**
   * The keys of a detected-object dictionary that grasp planning reads.
   * `labelName` is None when the key is missing; `position3d` is None when the
   * key is missing or holds None.
   */
  datatype ObjectInfo = ObjectInfo(labelName: Option<string>, position3d: Option<Point3>)

  /** The two configuration entries the planner reads; None when missing. */
  datatype PlannerConfig = PlannerConfig(approachDistance: Option<real>, graspMethod: Option<string>)

  /** `GraspPlanner` after construction. */
  datatype GraspPlanner = GraspPlanner(approachDistance: real, graspMethod: string)

  /** `GraspPlanner.__init__`: 0.1 m approach distance and the 'rule_based' method by default. */
  function NewGraspPlanner(config: PlannerConfig): (planner: GraspPlanner)
    ensures config.approachDistance.None? ==> planner.approachDistance == 0.1
    ensures config.approachDistance.Some? ==> planner.approachDistance == config.approachDistance.value
    ensures config.graspMethod.None? ==> planner.graspMethod == "rule_based"
    ensures config.graspMethod.Some? ==> planner.graspMethod == config.graspMethod.value
  {
    GraspPlanner(
      if config.approachDistance.Some? then config.approachDistance.value else 0.1,
      if config.graspMethod.Some? then config.graspMethod.value else "rule_based")
  }

  lemma DefaultPlanner()
    ensures NewGraspPlanner(PlannerConfig(None, None)) == GraspPlanner(0.1, "rule_based")
  {
  }

  /** The shape names `_extract_shape` tries, in order. */
  const ShapeNames: seq<string> := ["cube", "cylinder", "sphere", "box"]

  /** The index of the first of `names` that occurs in `s`, or |names| when none does. */
  function FirstMatch(s: string, names: seq<string>): (k: nat)
    ensures k <= |names|
    ensures k < |names| ==> Contains(s, names[k])
    ensures forall j :: 0 <= j < k ==> !Contains(s, names[j])
  {
    if |names| == 0 then 0
    else if Contains(s, names[0]) then 0
    else 1 + FirstMatch(s, names[1..])
  }

  /**
   * `_extract_shape`: the first of 'cube', 'cylinder', 'sphere', 'box' that
   * occurs in the lower-cased label, or 'unknown'.
   */
  function ExtractShape(name: string): (shape: string)
    ensures shape == "unknown" <==> forall j :: 0 <= j < |ShapeNames| ==> !Contains(Lower(name), ShapeNames[j])
    ensures shape != "unknown" ==>
      exists k :: 0 <= k < |ShapeNames| && shape == ShapeNames[k] && Contains(Lower(name), ShapeNames[k])
        && forall j :: 0 <= j < k ==> !Contains(Lower(name), ShapeNames[j])
  {
    var k := FirstMatch(Lower(name), ShapeNames);
    if k < |ShapeNames| then ShapeNames[k] else "unknown"
  }

  /**
   * The loop of `_extract_shape`: try each shape name in turn and return the
   * first one found in the lower-cased label, or 'unknown' after the last.
   */
  method ExtractShapeLoop(name: string) returns (shape: string)
    ensures shape == ExtractShape(name)
  {
    var labelLower := Lower(name);
    for i := 0 to |ShapeNames|
      invariant forall j :: 0 <= j < i ==> !Contains(labelLower, ShapeNames[j])
    {
      if Contains(labelLower, ShapeNames[i]) {
        FirstMatchIsFirst(labelLower, ShapeNames, i);
        return ShapeNames[i];
      }
    }
    FirstMatchIsFirst(labelLower, ShapeNames, |ShapeNames|);
    return "unknown";
  }

  /** FirstMatch is the only index at which a name occurs after none before it has. */
  lemma FirstMatchIsFirst(s: string, names: seq<string>, i: nat)
    requires i <= |names|
    requires i < |names| ==> Contains(s, names[i])
    requires forall j :: 0 <= j < i ==> !Contains(s, names[j])
    ensures FirstMatch(s, names) == i
  {
    var k := FirstMatch(s, names);
    if k < i || i < k {
      assert false;
    }
  }

  /** The substring tests `_rule_based_grasp` makes, evaluated on each shape name. */
  lemma CubeAndBoxTests()
    ensures Contains("cube", "cube") && Contains("box", "box")
  {
    ContainsItself("cube");
    ContainsItself("box");
  }

  lemma CylinderTests()
    ensures !Contains("cylinder", "cube") && !Contains("cylinder", "box") && Contains("cylinder", "cylinder")
  {
    ContainsItself("cylinder");
    NotContained("cylinder", "cube");
    NotContained("cylinder", "box");
  }

  lemma SphereTests()
    ensures !Contains("sphere", "cube") && !Contains("sphere", "box")
    ensures !Contains("sphere", "cylinder") && Contains("sphere", "sphere")
  {
    ContainsItself("sphere");
    NotContained("sphere", "cube");
    NotContained("sphere", "box");
    NotContained("sphere", "cylinder");
  }

  lemma UnknownTests()
    ensures !Contains("unknown", "cube") && !Contains("unknown", "box")
    ensures !Contains("unknown", "cylinder") && !Contains("unknown", "sphere")
  {
    NotContained("unknown", "cube");
    NotContained("unknown", "box");
    NotContained("unknown", "cylinder");
    NotContained("unknown", "sphere");
  }

  /** The shape-dependent part of a grasp. */
  datatype GraspRule = GraspRule(orientation: Point3, approach: Point3, gripperWidth: real, confidence: real)

  /** Roll 0, pitch pi, yaw 0: the gripper pointing down. */
  const TopDown: Point3 := Point3(0.0, Pi, 0.0)

  /** The approach direction (0, 0, -1): from above. */
  const FromAbove: Point3 := Point3(0.0, 0.0, -1.0)

  /** The orientation, approach, width and confidence branches of `_rule_based_grasp`. */
  function RuleFor(shape: string, x: real, y: real, f: Elementary): GraspRule {
    if Contains(shape, "cube") || Contains(shape, "box") then
      GraspRule(TopDown, FromAbove, 0.04, 0.85)
    else if Contains(shape, "cylinder") then
      var yaw := f.atan2(y, x);
      GraspRule(Point3(Pi / 2.0, 0.0, yaw), Point3(-f.cos(yaw), -f.sin(yaw), 0.0), 0.05, 0.80)
    else if Contains(shape, "sphere") then
      GraspRule(TopDown, FromAbove, 0.06, 0.75)
    else
      GraspRule(TopDown, FromAbove, 0.05, 0.60)
  }

  /** The label `_rule_based_grasp` reads: 'unknown' when the key is missing. */
  function LabelOf(obj: ObjectInfo): string {
    if obj.labelName.Some? then obj.labelName.value else "unknown"
  }

  /**
   * `_rule_based_grasp`: no grasp without a 3-D position; otherwise a grasp
   * 2 cm above the object's centre with the parameters of its shape.
   */
  function RuleBasedGrasp(obj: ObjectInfo, f: Elementary): (g: Option<GraspPose>)
    ensures g.None? <==> obj.position3d.None?
    ensures g.Some? ==>
      var p := obj.position3d.value;
      g.value.position == Point3(p.x, p.y, p.z + 0.02)
    ensures g.Some? ==> 0.0 <= g.value.confidence <= 1.0 && 0.0 < g.value.gripperWidth
  {
    match obj.position3d
    case None => None
    case Some(pos) =>
      var rule := RuleFor(ExtractShape(LabelOf(obj)), pos.x, pos.y, f);
      Some(GraspPose(Point3(pos.x, pos.y, pos.z + 0.02), rule.orientation, rule.approach,
                     rule.confidence, rule.gripperWidth))
  }

  /** The rule for each shape name `_extract_shape` can return. */
  lemma RuleForCubeOrBox(shape: string, x: real, y: real, f: Elementary)
    requires shape == "cube" || shape == "box"
    ensures RuleFor(shape, x, y, f) == GraspRule(TopDown, FromAbove, 0.04, 0.85)
  {
    CubeAndBoxTests();
  }

  lemma RuleForCylinder(shape: string, x: real, y: real, f: Elementary)
    requires shape == "cylinder"
    ensures var yaw := f.atan2(y, x);
      RuleFor(shape, x, y, f) == GraspRule(Point3(Pi / 2.0, 0.0, yaw), Point3(-f.cos(yaw), -f.sin(yaw), 0.0), 0.05, 0.80)
  {
    CylinderTests();
  }

  lemma RuleForSphere(shape: string, x: real, y: real, f: Elementary)
    requires shape == "sphere"
    ensures RuleFor(shape, x, y, f) == GraspRule(TopDown, FromAbove, 0.06, 0.75)
  {
    SphereTests();
  }

  lemma RuleForUnknown(shape: string, x: real, y: real, f: Elementary)
    requires shape == "unknown"
    ensures RuleFor(shape, x, y, f) == GraspRule(TopDown, FromAbove, 0.05, 0.60)
  {
    UnknownTests();
  }

  /** A cube or box is grasped top-down, 4 cm wide, with confidence 0.85. */
  lemma GraspCubeOrBox(obj: ObjectInfo, f: Elementary)
    requires obj.position3d.Some?
    requires ExtractShape(LabelOf(obj)) == "cube" || ExtractShape(LabelOf(obj)) == "box"
    ensures var g := RuleBasedGrasp(obj, f).value;
      g.orientation == TopDown && g.approach == FromAbove && g.gripperWidth == 0.04 && g.confidence == 0.85
  {
    var p := obj.position3d.value;
    RuleForCubeOrBox(ExtractShape(LabelOf(obj)), p.x, p.y, f);
  }

  /**
   * A cylinder is grasped from the side: roll pi/2, pitch 0, yaw towards the
   * object, approaching along (-cos yaw, -sin yaw, 0), 5 cm wide, with
   * confidence 0.80.
   */
  lemma GraspCylinder(obj: ObjectInfo, f: Elementary)
    requires obj.position3d.Some?
    requires ExtractShape(LabelOf(obj)) == "cylinder"
    ensures var p, g := obj.position3d.value, RuleBasedGrasp(obj, f).value;
      var yaw := f.atan2(p.y, p.x);
      && g.orientation == Point3(Pi / 2.0, 0.0, yaw) && g.approach == Point3(-f.cos(yaw), -f.sin(yaw), 0.0)
      && g.gripperWidth == 0.05 && g.confidence == 0.80
  {
    var p := obj.position3d.value;
    RuleForCylinder(ExtractShape(LabelOf(obj)), p.x, p.y, f);
  }

  /** A sphere is grasped top-down, 6 cm wide, with confidence 0.75. */
  lemma GraspSphere(obj: ObjectInfo, f: Elementary)
    requires obj.position3d.Some?
    requires ExtractShape(LabelOf(obj)) == "sphere"
    ensures var g := RuleBasedGrasp(obj, f).value;
      g.orientation == TopDown && g.approach == FromAbove && g.gripperWidth == 0.06 && g.confidence == 0.75
  {
    var p := obj.position3d.value;
    RuleForSphere(ExtractShape(LabelOf(obj)), p.x, p.y, f);
  }

  /** An object of unknown shape is grasped top-down, 5 cm wide, with confidence 0.60. */
  lemma GraspUnknown(obj: ObjectInfo, f: Elementary)
    requires obj.position3d.Some?
    requires ExtractShape(LabelOf(obj)) == "unknown"
    ensures var g := RuleBasedGrasp(obj, f).value;
      g.orientation == TopDown && g.approach == FromAbove && g.gripperWidth == 0.05 && g.confidence == 0.60
  {
    var p := obj.position3d.value;
    RuleForUnknown(ExtractShape(LabelOf(obj)), p.x, p.y, f);
  }

  /** `_dexnet_grasp`: a placeholder that falls back to the rule-based grasp. */
  function DexnetGrasp(obj: ObjectInfo, f: Elementary): (g: Option<GraspPose>)
    ensures g == RuleBasedGrasp(obj, f)
  {
    RuleBasedGrasp(obj, f)
  }

  /**
   * `plan_grasp`: dispatch on the configured method; 'dexnet' gives the same
   * grasp as 'rule_based', and any other method is a ValueError.
   */
  function PlanGrasp(planner: GraspPlanner, obj: ObjectInfo, f: Elementary): (r: Result<Option<GraspPose>>)
    ensures planner.graspMethod == "rule_based" || planner.graspMethod == "dexnet" ==> r == Ok(RuleBasedGrasp(obj, f))
    ensures planner.graspMethod != "rule_based" && planner.graspMethod != "dexnet" ==>
      r == Err(ValueError("Unknown grasp method: " + planner.graspMethod))
  {
    if planner.graspMethod == "rule_based" then Ok(RuleBasedGrasp(obj, f))
    else if planner.graspMethod == "dexnet" then Ok(DexnetGrasp(obj, f))
    else Err(ValueError("Unknown grasp method: " + planner.graspMethod))
  }

  /**
   * `compute_pre_grasp_pose`: the grasp position moved back by the approach
   * distance along the approach vector, so that moving forward again by
   * that distance reaches the grasp position.
   */
  function ComputePreGrasp(planner: GraspPlanner, grasp: GraspPose): (pre: Point3)
    ensures pre.x + grasp.approach.x * planner.approachDistance == grasp.position.x
    ensures pre.y + grasp.approach.y * planner.approachDistance == grasp.position.y
    ensures pre.z + grasp.approach.z * planner.approachDistance == grasp.position.z
  {
    var d := planner.approachDistance;
    Point3(grasp.position.x - grasp.approach.x * d,
           grasp.position.y - grasp.approach.y * d,
           grasp.position.z - grasp.approach.z * d)
  }

  /** Approaching from above, the pre-grasp point is straight above the grasp. */
  lemma PreGraspFromAbove(planner: GraspPlanner, grasp: GraspPose)
    requires grasp.approach == FromAbove
    ensures var p := grasp.position;
      ComputePreGrasp(planner, grasp) == Point3(p.x, p.y, p.z + planner.approachDistance)
  {
  }

  /**
   * With the default configuration, a top-down grasp's pre-grasp point is
   * 12 cm above the object's centre: 2 cm grasp offset plus 10 cm approach.
   */
  lemma DefaultPreGraspHeight(obj: ObjectInfo, f: Elementary)
    requires obj.position3d.Some?
    requires ExtractShape(LabelOf(obj)) != "cylinder"
    ensures var p, planner := obj.position3d.value, NewGraspPlanner(PlannerConfig(None, None));
      ComputePreGrasp(planner, RuleBasedGrasp(obj, f).value) == Point3(p.x, p.y, p.z + 0.12)
  {
    var shape := ExtractShape(LabelOf(obj));
    if shape == "cube" || shape == "box" {
      GraspCubeOrBox(obj, f);
    } else if shape == "sphere" {
      GraspSphere(obj, f);
    } else {
      assert shape == "unknown";
      GraspUnknown(obj, f);
    }
    PreGraspFromAbove(NewGraspPlanner(PlannerConfig(None, None)), RuleBasedGrasp(obj, f).value);
  }

  /** `start + alpha * (end - start)` on vectors of equal length. */
  function Lerp(a: Vector, b: Vector, alpha: real): (v: Vector)
    requires |a| == |b|
    ensures |v| == |a|
    ensures forall k :: 0 <= k < |a| ==> v[k] == a[k] + alpha * (b[k] - a[k])
  {
    seq(|a|, k requires 0 <= k < |a| => a[k] + alpha * (b[k] - a[k]))
  }

  /** Interpolation starts at `a` and ends at `b`. */
  lemma LerpEndpoints(a: Vector, b: Vector)
    requires |a| == |b|
    ensures Lerp(a, b, 0.0) == a && Lerp(a, b, 1.0) == b
  {
    assert forall k :: 0 <= k < |a| ==> Lerp(a, b, 1.0)[k] == b[k];
  }

  /** For alpha in [0, 1] every component lies between the endpoints' components. */
  lemma LerpBetween(a: Vector, b: Vector, alpha: real, k: nat)
    requires |a| == |b| && 0.0 <= alpha <= 1.0 && k < |a|
    ensures a[k] <= b[k] ==> a[k] <= Lerp(a, b, alpha)[k] <= b[k]
    ensures b[k] <= a[k] ==> b[k] <= Lerp(a, b, alpha)[k] <= a[k]
  {
    var d := b[k] - a[k];
    assert Lerp(a, b, alpha)[k] == a[k] + alpha * d;
    ScaledBetween(alpha, d);
  }

  /** A fraction alpha in [0, 1] of d lies between 0 and d. */
  lemma ScaledBetween(alpha: real, d: real)
    requires 0.0 <= alpha <= 1.0
    ensures 0.0 <= d ==> 0.0 <= alpha * d <= d
    ensures d <= 0.0 ==> d <= alpha * d <= 0.0
  {
    assert (1.0 - alpha) * d == d - alpha * d;
    if 0.0 <= d {
      assert 0.0 <= (1.0 - alpha) * d;
    } else {
      assert (1.0 - alpha) * d <= 0.0;
    }
  }

  /** The fraction i / N is 0 at the first step and 1 at the last. */
  lemma StepFractionEnds(n: int)
    requires n > 0
    ensures 0 as real / n as real == 0.0 && n as real / n as real == 1.0
  {
  }

  /** `int(duration / timestep)`: the number of steps of a trajectory. */
  function StepCount(duration: real, timestep: real): int
    requires timestep != 0.0
  {
    Trunc(duration / timestep)
  }

  /**
   * What `_linear_trajectory` returns: a zero time step, or zero steps (the
   * division i / N with N = 0), is a ZeroDivisionError; a negative step
   * count gives no points; otherwise N + 1 evenly spaced points.
   */
  function LinearPath(start: Vector, end: Vector, duration: real, timestep: real): Result<seq<Vector>>
    requires |start| == |end|
  {
    if timestep == 0.0 then Err(ZeroDivisionError)
    else
      var n := StepCount(duration, timestep);
      if n < 0 then Ok([])
      else if n == 0 then Err(ZeroDivisionError)
      else Ok(seq(n + 1, i requires 0 <= i <= n => Lerp(start, end, i as real / n as real)))
  }

  /** `_linear_trajectory`. */
  method LinearTrajectory(start: Vector, end: Vector, duration: real, timestep: real)
    returns (r: Result<seq<Vector>>)
    requires |start| == |end|
    ensures r == LinearPath(start, end, duration, timestep)
  {
    if timestep == 0.0 {
      return Err(ZeroDivisionError);
    }
    var n := Trunc(duration / timestep);
    var trajectory: seq<Vector> := [];
    var i := 0;
    while i < n + 1
      invariant 0 <= i && (0 <= n ==> i <= n + 1)
      invariant 0 < i ==> 0 < n
      invariant |trajectory| == i
      invariant forall k :: 0 <= k < i ==> trajectory[k] == Lerp(start, end, k as real / n as real)
    {
      if n == 0 {
        return Err(ZeroDivisionError);
      }
      var alpha := i as real / n as real;
      trajectory := trajectory + [Lerp(start, end, alpha)];
      i := i + 1;
    }
    if n > 0 {
      var path := LinearPath(start, end, duration, timestep).value;
      assert |path| == |trajectory| && forall k :: 0 <= k < |path| ==> path[k] == trajectory[k];
      assert path == trajectory;
    } else {
      assert n < 0 && trajectory == [];
      assert LinearPath(start, end, duration, timestep) == Ok([]);
    }
    return Ok(trajectory);
  }

  /**
   * `generate_joint_trajectory` without `modern_robotics`: the linear
   * trajectory, with the 0.01 s default time step.
   */
  method GenerateJointTrajectory(start: Vector, end: Vector, duration: real, timestep: real := 0.01)
    returns (r: Result<seq<Vector>>)
    requires |start| == |end|
    ensures r == LinearPath(start, end, duration, timestep)
  {
    r := LinearTrajectory(start, end, duration, timestep);
  }

  /** The linear path's errors, its length and its points. */
  lemma LinearPathShape(start: Vector, end: Vector, duration: real, timestep: real)
    requires |start| == |end|
    ensures LinearPath(start, end, duration, timestep).Err? <==>
      timestep == 0.0 || StepCount(duration, timestep) == 0
    ensures LinearPath(start, end, duration, timestep).Err? ==>
      LinearPath(start, end, duration, timestep).error == ZeroDivisionError
    ensures timestep != 0.0 && StepCount(duration, timestep) != 0 ==>
      var n, points := StepCount(duration, timestep), LinearPath(start, end, duration, timestep).value;
      && |points| == (if n < 0 then 0 else n + 1)
      && forall i :: 0 <= i < |points| ==> points[i] == Lerp(start, end, i as real / n as real)
  {
  }

  /** A non-empty linear path starts exactly at `start` and ends exactly at `end`. */
  lemma LinearPathEndpoints(start: Vector, end: Vector, duration: real, timestep: real)
    requires |start| == |end|
    requires LinearPath(start, end, duration, timestep).Ok?
    requires |LinearPath(start, end, duration, timestep).value| > 0
    ensures var points := LinearPath(start, end, duration, timestep).value;
      points[0] == start && points[|points| - 1] == end
  {
    var n := StepCount(duration, timestep);
    var points := LinearPath(start, end, duration, timestep).value;
    assert timestep != 0.0 && n > 0;
    StepFractionEnds(n);
    LerpEndpoints(start, end);
    assert points[0] == Lerp(start, end, 0.0);
    assert points[|points| - 1] == points[n] == Lerp(start, end, 1.0);
  }

  /** Every component of every point of a linear path lies between its endpoints' components. */
  lemma LinearPathBetween(start: Vector, end: Vector, duration: real, timestep: real, i: nat, k: nat)
    requires |start| == |end| && k < |start|
    requires LinearPath(start, end, duration, timestep).Ok?
    requires i < |LinearPath(start, end, duration, timestep).value|
    ensures var p := LinearPath(start, end, duration, timestep).value[i];
      && (start[k] <= end[k] ==> start[k] <= p[k] <= end[k])
      && (end[k] <= start[k] ==> end[k] <= p[k] <= start[k])
  {
    var n := StepCount(duration, timestep);
    var alpha := i as real / n as real;
    assert 0.0 <= alpha <= 1.0;
    LerpBetween(start, end, alpha, k);
  }

  /**
   * One pose of `_simple_cartesian_trajectory`: the start's rotation block
   * while alpha < 0.5 and the end's after, the interpolated translation,
   * and the bottom row of the identity.
   */
  function CartesianPose(start: Matrix, end: Matrix, alpha: real): (pose: Matrix)
    requires IsMatrix(start, 4, 4) && IsMatrix(end, 4, 4)
  {
    var rot := if alpha < 0.5 then SE3.Rotation(start) else SE3.Rotation(end);
    SE3.FromRT(rot, Lerp(SE3.Translation(start), SE3.Translation(end), alpha))
  }

  /** What `_simple_cartesian_trajectory` returns, with the same errors and length as the linear path. */
  function CartesianPath(start: Matrix, end: Matrix, duration: real, timestep: real): Result<seq<Matrix>>
    requires IsMatrix(start, 4, 4) && IsMatrix(end, 4, 4)
  {
    if timestep == 0.0 then Err(ZeroDivisionError)
    else
      var n := StepCount(duration, timestep);
      if n < 0 then Ok([])
      else if n == 0 then Err(ZeroDivisionError)
      else Ok(seq(n + 1, i requires 0 <= i <= n => CartesianPose(start, end, i as real / n as real)))
  }

  /** `_simple_cartesian_trajectory`. */
  method SimpleCartesianTrajectory(start: Matrix, end: Matrix, duration: real, timestep: real)
    returns (r: Result<seq<Matrix>>)
    requires IsMatrix(start, 4, 4) && IsMatrix(end, 4, 4)
    ensures r == CartesianPath(start, end, duration, timestep)
  {
    if timestep == 0.0 {
      return Err(ZeroDivisionError);
    }
    var n := Trunc(duration / timestep);
    var trajectory: seq<Matrix> := [];
    var i := 0;
    while i < n + 1
      invariant 0 <= i && (0 <= n ==> i <= n + 1)
      invariant 0 < i ==> 0 < n
      invariant |trajectory| == i
      invariant forall k :: 0 <= k < i ==> trajectory[k] == CartesianPose(start, end, k as real / n as real)
    {
      if n == 0 {
        return Err(ZeroDivisionError);
      }
      var alpha := i as real / n as real;
      var pos := Lerp(SE3.Translation(start), SE3.Translation(end), alpha);
      var rot := if alpha < 0.5 then SE3.Rotation(start) else SE3.Rotation(end);
      var pose := SE3.FromRT(rot, pos);
      trajectory := trajectory + [pose];
      i := i + 1;
    }
    if n > 0 {
      var path := CartesianPath(start, end, duration, timestep).value;
      assert |path| == |trajectory| && forall k :: 0 <= k < |path| ==> path[k] == trajectory[k];
      assert path == trajectory;
    } else {
      assert n < 0 && trajectory == [];
      assert CartesianPath(start, end, duration, timestep) == Ok([]);
    }
    return Ok(trajectory);
  }

  /**
   * Every pose of a Cartesian path is homogeneous, carries the interpolated
   * translation, and the start's rotation while i / N < 0.5, the end's after.
   */
  lemma CartesianPathPoses(start: Matrix, end: Matrix, duration: real, timestep: real, i: nat)
    requires IsMatrix(start, 4, 4) && IsMatrix(end, 4, 4)
    requires CartesianPath(start, end, duration, timestep).Ok?
    requires i < |CartesianPath(start, end, duration, timestep).value|
    ensures var n, pose := StepCount(duration, timestep), CartesianPath(start, end, duration, timestep).value[i];
      var alpha := i as real / n as real;
      && |CartesianPath(start, end, duration, timestep).value| == n + 1
      && SE3.IsHomogeneous(pose)
      && SE3.Translation(pose) == Lerp(SE3.Translation(start), SE3.Translation(end), alpha)
      && SE3.Rotation(pose) == (if alpha < 0.5 then SE3.Rotation(start) else SE3.Rotation(end))
  {
  }

  /** A non-empty Cartesian path has N > 0 steps and its i-th pose is taken at alpha = i / N. */
  lemma CartesianPathAt(start: Matrix, end: Matrix, duration: real, timestep: real, i: nat)
    requires IsMatrix(start, 4, 4) && IsMatrix(end, 4, 4)
    requires CartesianPath(start, end, duration, timestep).Ok?
    requires i < |CartesianPath(start, end, duration, timestep).value|
    ensures timestep != 0.0 && StepCount(duration, timestep) > 0
    ensures var n := StepCount(duration, timestep);
      && |CartesianPath(start, end, duration, timestep).value| == n + 1
      && CartesianPath(start, end, duration, timestep).value[i] == CartesianPose(start, end, i as real / n as real)
  {
  }

  /** A non-empty Cartesian path runs from the pose at alpha 0 to the pose at alpha 1. */
  lemma CartesianPathEnds(start: Matrix, end: Matrix, duration: real, timestep: real)
    requires IsMatrix(start, 4, 4) && IsMatrix(end, 4, 4)
    requires CartesianPath(start, end, duration, timestep).Ok?
    requires |CartesianPath(start, end, duration, timestep).value| > 0
    ensures var poses := CartesianPath(start, end, duration, timestep).value;
      poses[0] == CartesianPose(start, end, 0.0) && poses[|poses| - 1] == CartesianPose(start, end, 1.0)
  {
    var poses := CartesianPath(start, end, duration, timestep).value;
    var n := StepCount(duration, timestep);
    CartesianPathAt(start, end, duration, timestep, 0);
    CartesianPathAt(start, end, duration, timestep, n);
    StepFractionEnds(n);
  }

  /** At alpha 0 the pose is the start transform, at alpha 1 the end transform. */
  lemma CartesianPoseEndpoints(start: Matrix, end: Matrix)
    requires SE3.IsHomogeneous(start) && SE3.IsHomogeneous(end)
    ensures CartesianPose(start, end, 0.0) == start && CartesianPose(start, end, 1.0) == end
  {
    LerpEndpoints(SE3.Translation(start), SE3.Translation(end));
    SE3.FromRTOfParts(start);
    SE3.FromRTOfParts(end);
  }

  /** Between two homogeneous transforms, a non-empty Cartesian path starts at one and ends at the other. */
  lemma CartesianPathEndpoints(start: Matrix, end: Matrix, duration: real, timestep: real)
    requires SE3.IsHomogeneous(start) && SE3.IsHomogeneous(end)
    requires CartesianPath(start, end, duration, timestep).Ok?
    requires |CartesianPath(start, end, duration, timestep).value| > 0
    ensures var poses := CartesianPath(start, end, duration, timestep).value;
      poses[0] == start && poses[|poses| - 1] == end
  {
    CartesianPathEnds(start, end, duration, timestep);
    CartesianPoseEndpoints(start, end);
  }
}
