# Verified model of the modern-robotics rule code

This project models the parts of the modern-robotics repository that do real
computation, and proves their properties. The rest of the repository is
simulator or remote-API I/O, OpenCV image processing, an LLM retrieval
chatbot (`rag_chatbot.py` and its GPU and test variants), plotting
experiments such as `arm_extension_experiment.py`, or code that raises
`NotImplementedError`. The modelled parts are:

- **SO(3)/SE(3) algebra** (`so3.dfy`, `se3.dfy`): `hat`, `vee`, the branches
  of Rodrigues' `exp` that need no trigonometry, `from_RT`, the closed-form
  `invert` and the 6x6 `adjoint`. Matrices are sequences of rows of exact
  reals (`matrices.dfy`).
- **Grasp planning** (`grasp_planner.dfy`):
  - the label-to-shape lookup, the shape-to-grasp table and the method dispatch;
  - the pre-grasp offset;
  - the linear joint and Cartesian trajectories used when `modern_robotics`
    is not installed.
- **Vision post-processing** (`object_detector.dfy`): `process_frame`
  dispatch, the `_classify_shape` threshold ladder, pinhole back-projection
  with a default depth, and the workspace filter.
- **Tooling scripts**:
  - every-N-th and evenly spaced key-frame selection in `extract_frames.py`
    (`extract_frames.dfy`);
  - the ROBOTIQ 85 gripper state classifier, its change-only monitor and the
    wait loop (`robotiq_control.dfy`);
  - per-colour disappearance and shrink flagging against a baseline frame
    (`analyze_frames.dfy`);
  - alias mapping, sampling and the per-object stability verdict of the
    object monitor (`monitor_objects.dfy`).

`support.dfy` holds the shared building blocks: the `Option` and `Result`
types, the `ValueError` and `ZeroDivisionError` exceptions, Python's `int()`
on a float, `in` and `lower()` on strings, and the elementary functions.

Modelling choices:

- **Elementary functions.** sin, cos, sqrt and atan2 come from numpy. Here
  they are a parameter (`Support.Elementary`). A lemma that needs a fact
  about them, such as `sin(0) = 0`, states it as a precondition.
- **Remote API and OpenCV.** Their answers become inputs:
  - a joint read (`GripperMonitor.JointRead`);
  - the sequence of polls made before a deadline;
  - a video's properties (`FrameExtraction.Video`);
  - measured colour areas (`FrameAnalysis.Areas`);
  - alias lookups and a position sensor (`ObjectMonitor`).
- **Loops stay loops.** Each `for` or `while` loop of the modelled code is a
  method with its loop, proved equal to a specification function. The
  properties are proved about that function. Examples:
  - the loop in `_extract_shape` is `GraspPlanning.ExtractShapeLoop`;
  - the summary loop of `monitor_objects` is `ObjectMonitor.SummaryOf`.
  Python generator expressions (`sum`, `next`, `min`, `max` over a
  generator) are expressions, not loop statements. They become recursive
  functions. Loops that only print, wait for the simulator or call OpenCV
  are left out with the code around them.
- **Code over docstrings.** Where a docstring and the code differ, the model
  follows the code. For example, `get_gripper_state` also returns an "ERROR"
  state, which its docstring omits.

## Model

| member | source | states |
|---|---|---|
| Support.Trunc | simulation_project/planning/grasp_planner.py:248 | `int()` of a float truncates toward zero: floor for non-negative values, ceiling for negative ones |
| Support.Contains | simulation_project/planning/grasp_planner.py:155 | `pattern in s` holds exactly when `pattern` occurs in `s` at some start index |
| Support.Lower | simulation_project/planning/grasp_planner.py:153 | `lower()` keeps the length, maps each ASCII capital to its small letter and leaves every other character alone |
| SO3.Hat | src/robotics/math/so3.py:14-23 | hat(w) is skew-symmetric with a zero diagonal, and holds w's x, y, z at (2,1), (0,2), (1,0) |
| SO3.Vee | src/robotics/math/so3.py:26-28 | vee of a 3x3 matrix is a 3-vector; VeeHat and HatVee make it the inverse of hat |
| SO3.HatTransposeIsNegation | src/robotics/math/so3.py:14-23 | the transpose of hat(w) is -hat(w) |
| SO3.VeeHat | src/robotics/math/so3.py:22-28 | vee(hat(w)) = w for every 3-vector w |
| SO3.HatVee | src/robotics/math/so3.py:26-28 | hat(vee(M)) = M for every skew-symmetric M |
| SO3.VeeReadsThreeEntries | src/robotics/math/so3.py:26-28 | vee depends only on entries (2,1), (0,2) and (1,0) |
| SO3.HatIsCross | src/robotics/math/so3.py:22-23 | hat(w) v = w x v for every v |
| SO3.HatScale | src/robotics/math/so3.py:22-23 | a hat(u) = hat(a u) |
| SO3.HatAdd | src/robotics/math/so3.py:22-23 | hat(u) + hat(v) = hat(u + v) |
| SO3.HatLinear | src/robotics/math/so3.py:22-23 | hat(a u + b v) = a hat(u) + b hat(v) |
| SO3.Exp | src/robotics/math/so3.py:31-47 | exp returns a 3x3 matrix; its two trig-free branches are the two lemmas below |
| SO3.ExpZeroAxis | src/robotics/math/so3.py:40-43 | a zero axis gives the identity for every angle |
| SO3.ExpZeroAngle | src/robotics/math/so3.py:40-47 | angle 0 gives the identity for every axis, given sin 0 = 0 and cos 0 = 1 |
| SE3.Rotation | src/robotics/math/se3.py:20 | `T[:3, :3]` is the 3x3 top-left block |
| SE3.Translation | src/robotics/math/se3.py:21 | `T[:3, 3]` is the top three entries of the last column |
| SE3.FromRT | src/robotics/math/se3.py:10-15 | from_RT(R, p) has bottom row [0,0,0,1], rotation block R and translation p |
| SE3.FromRTOfParts | src/robotics/math/se3.py:10-15 | every homogeneous T is from_RT of its own rotation and translation |
| SE3.Invert | src/robotics/math/se3.py:18-25 | invert(T) has bottom row [0,0,0,1], rotation block R^T and translation -(R^T p) |
| SE3.InvertIsFromRT | src/robotics/math/se3.py:18-25 | invert(T) = from_RT(R^T, -(R^T @ p)) |
| SE3.InvertReadsTopRows | src/robotics/math/se3.py:20-25 | invert reads only the top three rows of T |
| SE3.InvertIsLeftInverse | src/robotics/math/se3.py:18-25 | if T is homogeneous and R^T R = I, then invert(T) @ T = I |
| SE3.InvertIsRightInverse | tests/test_math_smoke.py:12-18 | if T is homogeneous and R R^T = I, then T @ invert(T) = I |
| SE3.InvertInvolutive | src/robotics/math/se3.py:20-25 | invert(invert(T)) = T for homogeneous T with R R^T = I |
| SE3.InvertTranslation | tests/test_math_smoke.py:13-17 | invert(from_RT(I, p)) = from_RT(I, -p) |
| SE3.Adjoint | src/robotics/math/se3.py:28-37 | adjoint(T) is 6x6; AdjointBlocks gives its layout |
| SE3.AdjointBlocks | src/robotics/math/se3.py:31-37 | R in the top-left and bottom-right blocks, zeros at top right, hat(p) @ R at bottom left |
| SE3.AdjointOfRotation | src/robotics/math/se3.py:31-37 | with zero translation the adjoint is diag(R, R) |
| SE3.AdjointOfIdentity | tests/test_math_smoke.py:21-24 | adjoint(I4) = I6 |
| GraspPlanning.NewGraspPlanner | simulation_project/planning/grasp_planner.py:41-46 | the approach distance is the configured `control.approach_distance`, or 0.1 when absent; the method is the configured `ml.grasp_planning.method`, or 'rule_based' when absent |
| GraspPlanning.DefaultPlanner | simulation_project/planning/grasp_planner.py:41-46 | with an empty configuration: approach distance 0.1 and method 'rule_based' |
| GraspPlanning.FirstMatch | simulation_project/planning/grasp_planner.py:154-156 | the result is the first name that occurs in the string: it occurs, and no earlier name does |
| GraspPlanning.ExtractShape | simulation_project/planning/grasp_planner.py:151-157 | 'unknown' exactly when no shape name occurs in the lower-cased label; otherwise the first of cube, cylinder, sphere, box that occurs |
| GraspPlanning.ExtractShapeLoop | simulation_project/planning/grasp_planner.py:151-157 | the loop over the shape names returns exactly ExtractShape: the first name that occurs in the lower-cased label, else 'unknown' |
| GraspPlanning.RuleBasedGrasp | simulation_project/planning/grasp_planner.py:66-135 | None exactly when the position is missing; otherwise position (x, y, z + 0.02), confidence in [0, 1], positive width |
| GraspPlanning.GraspCubeOrBox | simulation_project/planning/grasp_planner.py:88-95 | cube or box: orientation (0, pi, 0), approach (0, 0, -1), width 0.04, confidence 0.85 |
| GraspPlanning.GraspCylinder | simulation_project/planning/grasp_planner.py:97-104 | cylinder: roll pi/2, pitch 0, yaw atan2(y, x), approach (-cos yaw, -sin yaw, 0), width 0.05, confidence 0.80 |
| GraspPlanning.GraspSphere | simulation_project/planning/grasp_planner.py:106-113 | sphere: orientation (0, pi, 0), approach (0, 0, -1), width 0.06, confidence 0.75 |
| GraspPlanning.GraspUnknown | simulation_project/planning/grasp_planner.py:115-122 | any other shape: orientation (0, pi, 0), approach (0, 0, -1), width 0.05, confidence 0.60 |
| GraspPlanning.DexnetGrasp | simulation_project/planning/grasp_planner.py:137-149 | the DexNet placeholder returns exactly the rule-based grasp for the same object |
| GraspPlanning.PlanGrasp | simulation_project/planning/grasp_planner.py:59-64 | 'rule_based' and 'dexnet' both give the rule-based grasp; any other method is ValueError("Unknown grasp method: ...") |
| GraspPlanning.ComputePreGrasp | simulation_project/planning/grasp_planner.py:169-177 | moving from the pre-grasp point by approach_distance along the approach vector reaches the grasp position |
| GraspPlanning.PreGraspFromAbove | simulation_project/planning/grasp_planner.py:169-177 | with approach (0, 0, -1), the pre-grasp point is d straight above the grasp |
| GraspPlanning.DefaultPreGraspHeight | simulation_project/planning/grasp_planner.py:125-131 | with the default planner, every non-cylinder grasp's pre-grasp point is 0.12 above the object centre |
| GraspPlanning.LerpEndpoints | simulation_project/planning/grasp_planner.py:256 | interpolation at alpha 0 is start and at alpha 1 is end |
| GraspPlanning.LerpBetween | simulation_project/planning/grasp_planner.py:256 | for alpha in [0, 1] each component lies between the endpoints' components |
| GraspPlanning.LinearTrajectory | simulation_project/planning/grasp_planner.py:234-259 | the loop returns exactly LinearPath (see LinearPathShape) |
| GraspPlanning.GenerateJointTrajectory | simulation_project/planning/grasp_planner.py:212-215 | without modern_robotics, the joint trajectory is the linear one, with default time step 0.01 |
| GraspPlanning.LinearPathShape | simulation_project/planning/grasp_planner.py:248-259 | ZeroDivisionError exactly when the time step is 0 or N = int(duration / timestep) is 0; otherwise N + 1 points (none for N < 0), point i = start + (i/N)(end - start) |
| GraspPlanning.LinearPathEndpoints | simulation_project/planning/grasp_planner.py:254-257 | a non-empty path starts exactly at start and ends exactly at end |
| GraspPlanning.LinearPathBetween | simulation_project/planning/grasp_planner.py:254-257 | every component of every point lies between the endpoints' components |
| GraspPlanning.SimpleCartesianTrajectory | simulation_project/planning/grasp_planner.py:296-331 | the loop returns exactly CartesianPath |
| GraspPlanning.CartesianPathPoses | simulation_project/planning/grasp_planner.py:310-329 | N + 1 poses; each has bottom row [0,0,0,1], the interpolated translation, and the start's rotation while i/N < 0.5, the end's after |
| GraspPlanning.CartesianPathAt | simulation_project/planning/grasp_planner.py:310-314 | a non-empty path has a non-zero time step and N > 0, and pose i is taken at alpha = i/N |
| GraspPlanning.CartesianPathEnds | simulation_project/planning/grasp_planner.py:313-329 | the first pose is taken at alpha 0 and the last at alpha 1 |
| GraspPlanning.CartesianPoseEndpoints | simulation_project/planning/grasp_planner.py:317-327 | for homogeneous start and end, the pose at alpha 0 is start and the pose at alpha 1 is end |
| GraspPlanning.CartesianPathEndpoints | simulation_project/planning/grasp_planner.py:310-331 | between homogeneous transforms, a non-empty path starts at start and ends at end |
| ObjectDetection.NewVisionProcessor | simulation_project/vision/object_detector.py:37 | the detection method is the configured model, or 'color_based' by default |
| ObjectDetection.YoloDetection | simulation_project/vision/object_detector.py:240-242 | the YOLO placeholder detects nothing |
| ObjectDetection.ProcessFrame | simulation_project/vision/object_detector.py:74-79 | 'color_based' gives the colour detections, 'yolo' gives none, any other method is ValueError("Unknown detection method: ...") |
| ObjectDetection.DefaultProcessorIsColorBased | simulation_project/vision/object_detector.py:37 | the default processor returns the colour detections |
| ObjectDetection.Circularity | simulation_project/vision/object_detector.py:181-182 | the circularity times the squared perimeter is 4 pi area: the quotient is undone by multiplying back |
| ObjectDetection.ClassifyShape | simulation_project/vision/object_detector.py:178-197 | iff characterisation of each result: sphere above 0.85 circularity; cylinder in (0.7, 0.85]; cube at most 0.7 with 3-6 sides; unknown for zero perimeter or otherwise |
| ObjectDetection.Estimate3DPosition | simulation_project/vision/object_detector.py:211-226 | z is the depth at the pixel when it is inside the map, 1.0 otherwise; x * 500 = (px - cols/2) * z and y * 500 = (py - rows/2) * z |
| ObjectDetection.ZeroDepthAtOrigin | simulation_project/vision/object_detector.py:211-226 | a zero depth reading at an in-map pixel puts the point at the camera origin (0, 0, 0) |
| ObjectDetection.ProjectEstimate | simulation_project/vision/object_detector.py:217-226 | projecting the estimated point back through the same pinhole (f = 500, centre at cols/2, rows/2) gives the original pixel |
| ObjectDetection.CentrePixel | simulation_project/vision/object_detector.py:219-224 | the centre pixel maps to x = y = 0 |
| ObjectDetection.FilterByWorkspace | simulation_project/vision/object_detector.py:284-309 | the loop returns exactly Filtered (the in-box objects, in order) |
| ObjectDetection.FilteredMembers | simulation_project/vision/object_detector.py:298-307 | an object is kept exactly when it is an input with a 3-D position inside the inclusive box |
| ObjectDetection.FilteredHavePositions | simulation_project/vision/object_detector.py:299-300 | no kept object lacks a 3-D position |
| ObjectDetection.FilteredIsSubsequence | simulation_project/vision/object_detector.py:296-309 | the result is a subsequence of the input (order kept) and no longer than it |
| ObjectDetection.FilteredAppend | simulation_project/vision/object_detector.py:298-307 | filtering a concatenation filters each part |
| ObjectDetection.FilteredIdempotent | simulation_project/vision/object_detector.py:296-309 | filtering the result again changes nothing |
| FrameExtraction.ExtractFrames | simulation_project/scripts/extract_frames.py:11-88 | the loop returns exactly ExtractedFrames: [] for a missing or unopened file, ZeroDivisionError for interval 0 or fps 0 once a frame is read, else the saved frames |
| FrameExtraction.SavedAmongShape | simulation_project/scripts/extract_frames.py:58-80 | ceil(frames read / N) frames are saved; the j-th is numbered j, is frame j N and is stamped j N / fps |
| FrameExtraction.SavedIffMultiple | simulation_project/scripts/extract_frames.py:68-76 | a frame k among those read is saved exactly when N divides k |
| FrameExtraction.KeyFrameIndices | simulation_project/scripts/extract_frames.py:123-126 | the index list has min(num, total) entries (0 for a negative count) |
| FrameExtraction.KeyFrameIndexAt | simulation_project/scripts/extract_frames.py:126 | when num < total, index i is the integer quotient i * total / num |
| FrameExtraction.KeyFrameIndicesIncreasing | simulation_project/scripts/extract_frames.py:123-126 | the indices start at 0, strictly increase and lie in [0, total) |
| FrameExtraction.ExtractKeyFrames | simulation_project/scripts/extract_frames.py:91-151 | the loop returns exactly ExtractedKeyFrames: each readable index, numbered by position, stamped index / fps or 0 |
| FrameExtraction.KeyFramesAllRead | simulation_project/scripts/extract_frames.py:132-144 | when every index is readable, one key frame is saved per index, in order |
| FrameExtraction.KeyFramesOfFullVideo | simulation_project/scripts/extract_frames.py:119-144 | for a fully decodable video: min(num, total) key frames, first at index 0, strictly increasing indices below total, numbered 0, 1, ... |
| FrameExtraction.MissingVideo | simulation_project/scripts/extract_frames.py:25-27 | a missing file gives no frames in either mode |
| GripperMonitor.Classify | simulation_project/scripts/robotiq_control.py:43-50 | CLOSED iff both joints within 0.01 of 0; OPEN iff not CLOSED and within 0.01 of 0.794 and 0.803; MOVING otherwise |
| GripperMonitor.GetGripperState | simulation_project/scripts/robotiq_control.py:32-56 | a successful read returns its state and the positions unchanged; a failed read returns ("ERROR", 0.0, 0.0) |
| GripperMonitor.ErrorOnlyOnFailure | simulation_project/scripts/robotiq_control.py:52-56 | the state is ERROR exactly when the read failed |
| GripperMonitor.ClosedAndOpenDisjoint | simulation_project/scripts/robotiq_control.py:45-48 | no positions are both near closed and near open |
| GripperMonitor.TestOrderIrrelevant | simulation_project/scripts/robotiq_control.py:45-50 | testing OPEN before CLOSED gives the same state |
| GripperMonitor.StrictTolerance | simulation_project/scripts/robotiq_control.py:45-47 | a joint exactly 0.01 from its target is not at it |
| GripperMonitor.NominalPositions | simulation_project/scripts/robotiq_control.py:8-10 | (0, 0) is CLOSED and (0.794, 0.803) is OPEN |
| GripperMonitor.MonitorGripperContinuously | simulation_project/scripts/robotiq_control.py:97-109 | the loop prints exactly Reported(polls) |
| GripperMonitor.ReportedEnds | simulation_project/scripts/robotiq_control.py:98-107 | the first read is always printed, and the last line shows the last read's state |
| GripperMonitor.ReportedStatesChange | simulation_project/scripts/robotiq_control.py:104-107 | consecutive printed lines have different states |
| GripperMonitor.ReportedNoLonger | simulation_project/scripts/robotiq_control.py:100-107 | at most one line per poll |
| GripperMonitor.SteadyStateReportedOnce | simulation_project/scripts/robotiq_control.py:104-107 | a gripper that stays in one state is printed once |
| GripperMonitor.WaitForGripperState | simulation_project/scripts/robotiq_control.py:59-83 | returns True exactly when some poll before the deadline shows the target state |
| FrameAnalysis.FlagFor | simulation_project/scripts/analyze_frames.py:74-79 | "gone" iff baseline > 0 and area 0; "shrunk" iff baseline > 0 and 0 < area < 0.25 baseline; nothing for a zero baseline |
| FrameAnalysis.FlagFrame | simulation_project/scripts/analyze_frames.py:73-79 | the inner loop's flags and gone-colours are exactly FlagsOver and GoneAmong |
| FrameAnalysis.Summarize | simulation_project/scripts/analyze_frames.py:54-94 | the loop returns exactly Summarized: nothing for no images, else baseline, reports and disappearing colours |
| FrameAnalysis.AllColors | simulation_project/scripts/analyze_frames.py:19-23 | the three colours are all listed |
| FrameAnalysis.NoImagesNoSummary | simulation_project/scripts/analyze_frames.py:55-57 | an empty image list produces no comparisons |
| FrameAnalysis.FlagsOverShape | simulation_project/scripts/analyze_frames.py:74-79 | a flag is present exactly for a listed colour with that flag; distinct colours give distinct flag colours |
| FrameAnalysis.FrameFlags | simulation_project/scripts/analyze_frames.py:73-83 | at most one flag per colour, each of the kind FlagFor gives, and "stable" exactly when no colour is flagged |
| FrameAnalysis.ReportsAgainstBaseline | simulation_project/scripts/analyze_frames.py:70-79 | one report per later frame, each computed against the baseline alone |
| FrameAnalysis.DisappearedExactly | simulation_project/scripts/analyze_frames.py:66-77 | a colour has disappeared exactly when some later frame has area 0 where the baseline's is positive |
| FrameAnalysis.DisappearedGrows | simulation_project/scripts/analyze_frames.py:77 | the set only grows as frames are added |
| ObjectMonitor.BuildAliasMap | simulation_project/scripts/monitor_objects.py:31-40 | the loop returns exactly AliasMapOf(lookups) |
| ObjectMonitor.AliasMapExact | simulation_project/scripts/monitor_objects.py:31-40 | the keys are exactly the non-empty aliases returned, each mapped to the handle of the last lookup returning it |
| ObjectMonitor.TrackedAliases | simulation_project/scripts/monitor_objects.py:57 | an alias is tracked exactly when it was returned and starts with "object_", with its alias-map handle |
| ObjectMonitor.SampleCount | simulation_project/scripts/monitor_objects.py:66 | the count is int(duration * rate) for a non-negative product, 0 below 1 |
| ObjectMonitor.SampleHistory | simulation_project/scripts/monitor_objects.py:67-76 | every tracked alias, and no other, gets the sensor's reads of its handle for each sample index, None for a failed read |
| ObjectMonitor.SamplesShape | simulation_project/scripts/monitor_objects.py:66-76 | each object gets exactly int(duration * rate) samples, sample i being read i |
| ObjectMonitor.ValidZs | simulation_project/scripts/monitor_objects.py:80-88 | the valid z values and the None count add up to the number of samples |
| ObjectMonitor.Min | simulation_project/scripts/monitor_objects.py:88 | `min` returns an element no greater than any other |
| ObjectMonitor.Max | simulation_project/scripts/monitor_objects.py:94 | `max` returns an element no smaller than any other |
| ObjectMonitor.ValidEnds | simulation_project/scripts/monitor_objects.py:84-85 | the first and last valid samples exist exactly when some sample is valid, with the first and last valid z |
| ObjectMonitor.VerdictOf | simulation_project/scripts/monitor_objects.py:79-96 | a dropped verdict carries a minimum z below -0.01, a drift verdict a dz below -0.02, a stable verdict a z range [min, max] with min at least -0.01 |
| ObjectMonitor.VerdictCases | simulation_project/scripts/monitor_objects.py:80-96 | invalid exactly when no sample is valid; else dropped if min z < -0.01, else drift if dz < -0.02, else stable over [min z, max z] |
| ObjectMonitor.IntermittentUnreachable | simulation_project/scripts/monitor_objects.py:84-96 | the intermittent verdict is never given |
| ObjectMonitor.SummaryOf | simulation_project/scripts/monitor_objects.py:79-96 | the summary loop gives every sampled object, and no other, the verdict VerdictOf of its history |
| ObjectMonitor.NoSamplesAllInvalid | simulation_project/scripts/monitor_objects.py:80-83 | with zero samples an object is reported invalid |
| ObjectMonitor.MonitorObjects | simulation_project/scripts/monitor_objects.py:43-96 | returns exactly Monitored: nothing when no alias is tracked, ZeroDivisionError for rate 0, else one verdict per tracked alias |

## Left out

- The kinematics, dynamics, motion-planning and control modules raise
  `NotImplementedError` everywhere, so they have nothing to model.
- `is_rotation` in so3.py tests a determinant with floating-point
  tolerances. Floats are not modelled.
- SO3.Exp: the general Rodrigues branch keeps sin, cos and sqrt abstract, so
  only the zero-axis and zero-angle cases are proved.
- GraspPlanning.GraspCylinder: the yaw and approach are stated through the
  supplied atan2, cos and sin. No trigonometric identity is proved about them.
- The `modern_robotics` branches of `generate_joint_trajectory` and
  `generate_cartesian_trajectory` are foreign library calls. Only the
  fallbacks used when the library is missing are modelled.
- GraspPlanning.LinearTrajectory requires start and end of equal length.
  numpy broadcasting of unequal lengths is not modelled.
- The OpenCV pipeline is not modelled:
  - `_color_based_detection`, `draw_detections` and `test_vision_processor`
    in object_detector.py;
  - `load_images` and `detect_colors` in analyze_frames.py;
  - image writing in extract_frames.py.
  Their results are inputs to the model.
- GraspPlanning.LabelOf reads a label as a string or a missing key. In the
  source, a `label` key that is present but holds None (or any non-string)
  makes `label.lower()` raise AttributeError. The model has no such value.
- ObjectDetection.ClassifyShape takes the contour's perimeter, area and
  side count as inputs, since `arcLength` and `approxPolyDP` are OpenCV.
- ObjectDetection.ProcessFrame receives the colour pipeline's detections
  as an argument.
- ObjectDetection.FilterByWorkspace takes the six bounds as fields of a
  datatype. A bounds dict missing a key (a KeyError) is not modelled.
- FrameExtraction.ExtractFrames and FrameExtraction.ExtractKeyFrames assume
  a capture whose reads succeed for exactly the first `decodable` frames,
  and whose seek to any of those succeeds. Printing, output directories and
  file names are left out. Each saved frame keeps the number, index and time
  its file name is formed from.
- FrameExtraction.SavedAmongShape and FrameExtraction.SavedIffMultiple are
  stated only for a positive interval. With a negative interval the source
  saves the same frames (Python's `%` is zero exactly on multiples); this is
  not proved.
- GripperMonitor.MonitorGripperContinuously and
  GripperMonitor.WaitForGripperState run over the sequence of polls made
  before the deadline. The clock, the 50 ms sleep and the printed time stamp
  are left out.
- FrameAnalysis.Summarize returns what `summarize` prints as values; the
  text formatting and the sorted colour listing are left out. The source
  assigns a `previous` variable that it never reads; the model omits it.
- `get_all_object_handles` and `connect_from_config` are remote-API and
  YAML I/O, as is starting the simulation. The handle list enters the model
  only through the alias lookups made for it, so a failing `getObjects`
  gives an empty lookup list.
- ObjectMonitor.MonitorObjects uses only the default pattern `^object_`,
  modelled as a prefix test. Other regular expressions are not modelled.
  The `ValueError` that `time.sleep` raises for a negative interval (a
  negative rate with a negative duration) is not modelled.
- Python dict insertion order is not modelled: alias maps, the history and
  the summary are maps. The printed order of the summary lines is therefore
  not captured.
- Support.Lower lower-cases ASCII only. Python's full Unicode case mapping
  is not modelled.
- All arithmetic is exact real arithmetic: floating-point rounding, NaN and
  infinities are not modelled.
