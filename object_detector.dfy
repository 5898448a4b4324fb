/**
 * The post-processing rules of simulation_project/vision/object_detector.py:
 * detection-method dispatch, the shape-classification ladder, pinhole
 * back-projection from a depth map, and workspace filtering.
 *
 * The OpenCV pipeline (colour masks, contours, moments) is outside the
 * model: its outputs (a contour's perimeter, area and polygon side count,
 * and the colour-based detections) are parameters.
 */
module ObjectDetection {
  import opened Support
  import opened Matrices

  /** `DetectedObject`, without the OpenCV contour. */
  datatype DetectedObject = DetectedObject(
    labelName: string,
    color: (int, int, int),
    position2d: (int, int),
    position3d: Option<Point3>,
    boundingBox: Option<(int, int, int, int)>,
    area: real,
    confidence: real)

  /** `VisionProcessor` after construction: only the detection method is read by the modelled rules. */
  datatype VisionProcessor = VisionProcessor(detectionMethod: string)

  /** `VisionProcessor.__init__`: the configured `ml.object_detection.model`, 'color_based' by default. */
  function NewVisionProcessor(model: Option<string>): (vp: VisionProcessor)
    ensures model.None? ==> vp.detectionMethod == "color_based"
    ensures model.Some? ==> vp.detectionMethod == model.value
  {
    VisionProcessor(if model.Some? then model.value else "color_based")
  }

  /** `_yolo_detection`: a placeholder that detects nothing. */
  function YoloDetection(): (r: seq<DetectedObject>)
    ensures |r| == 0
  {
    []
  }

  /**
   * `process_frame`: 'color_based' gives the colour pipeline's detections
   * (supplied here as `colorDetections`), 'yolo' gives no detections, and
   * any other method is a ValueError.
   */
  function ProcessFrame(vp: VisionProcessor, colorDetections: seq<DetectedObject>): (r: Result<seq<DetectedObject>>)
    ensures vp.detectionMethod == "color_based" ==> r == Ok(colorDetections)
    ensures vp.detectionMethod == "yolo" ==> r == Ok([])
    ensures vp.detectionMethod != "color_based" && vp.detectionMethod != "yolo" ==>
      r == Err(ValueError("Unknown detection method: " + vp.detectionMethod))
  {
    if vp.detectionMethod == "color_based" then Ok(colorDetections)
    else if vp.detectionMethod == "yolo" then Ok(YoloDetection())
    else Err(ValueError("Unknown detection method: " + vp.detectionMethod))
  }

  /** With the default configuration a frame yields exactly the colour pipeline's detections. */
  lemma DefaultProcessorIsColorBased(colorDetections: seq<DetectedObject>)
    ensures ProcessFrame(NewVisionProcessor(None), colorDetections) == Ok(colorDetections)
  {
  }

  /** The `shape_params` thresholds of the classifier. */
  const SphereCircularity: real := 0.85
  const CylinderCircularity: real := 0.7

  /**
   * 4 pi area / perimeter^2: 1 for a circle, smaller for other outlines.
   * Multiplying back by the squared perimeter recovers 4 pi area.
   */
  function Circularity(perimeter: real, area: real): (c: real)
    requires perimeter != 0.0
    ensures c * (perimeter * perimeter) == 4.0 * Pi * area
  {
    4.0 * Pi * area / (perimeter * perimeter)
  }

  /**
   * The decision ladder of `_classify_shape` on a contour's perimeter,
   * area and approximated polygon side count: a zero perimeter is
   * 'unknown'; the sphere threshold is tried before the cylinder one; a
   * polygon of 3 to 6 sides is a cube; anything else is 'unknown'.
   */
  function ClassifyShape(perimeter: real, area: real, numSides: nat): (shape: string)
    ensures shape == "sphere" <==> perimeter != 0.0 && Circularity(perimeter, area) > SphereCircularity
    ensures shape == "cylinder" <==>
      perimeter != 0.0 && CylinderCircularity < Circularity(perimeter, area) <= SphereCircularity
    ensures shape == "cube" <==>
      perimeter != 0.0 && Circularity(perimeter, area) <= CylinderCircularity && 3 <= numSides <= 6
    ensures shape == "unknown" <==>
      perimeter == 0.0 || (Circularity(perimeter, area) <= CylinderCircularity && !(3 <= numSides <= 6))
  {
    if perimeter == 0.0 then "unknown"
    else
      var circularity := Circularity(perimeter, area);
      if circularity > SphereCircularity then "sphere"
      else if circularity > CylinderCircularity then "cylinder"
      else if 3 <= numSides <= 6 then "cube"
      else "unknown"
  }

  /** The assumed focal length of the pinhole camera, in pixels. */
  const FocalLength: real := 500.0

  /**
   * `_estimate_3d_position` on a depth map of `|depth|` rows and `cols`
   * columns: the depth at the pixel, or 1.0 when the pixel lies outside the
   * map, back-projected through a pinhole camera centred on the map.
   */
  function Estimate3DPosition(px: int, py: int, depth: Matrix, cols: nat): (p: Point3)
    requires IsMatrix(depth, |depth|, cols)
    ensures 0 <= py < |depth| && 0 <= px < cols ==> p.z == depth[py][px]
    ensures !(0 <= py < |depth| && 0 <= px < cols) ==> p.z == 1.0
    ensures p.x * FocalLength == (px as real - cols as real / 2.0) * p.z
    ensures p.y * FocalLength == (py as real - |depth| as real / 2.0) * p.z
  {
    var z := if 0 <= py < |depth| && 0 <= px < cols then depth[py][px] else 1.0;
    var cx := cols as real / 2.0;
    var cy := |depth| as real / 2.0;
    Point3((px as real - cx) * z / FocalLength, (py as real - cy) * z / FocalLength, z)
  }

  /** The pinhole projection of a point at non-zero depth onto the image of a map with the given shape. */
  function Project(p: Point3, rows: nat, cols: nat): (pixel: (real, real))
    requires p.z != 0.0
  {
    (p.x * FocalLength / p.z + cols as real / 2.0, p.y * FocalLength / p.z + rows as real / 2.0)
  }

  /** Projecting an estimated position back onto the image gives the pixel it came from. */
  lemma ProjectEstimate(px: int, py: int, depth: Matrix, cols: nat)
    requires IsMatrix(depth, |depth|, cols)
    requires Estimate3DPosition(px, py, depth, cols).z != 0.0
    ensures Project(Estimate3DPosition(px, py, depth, cols), |depth|, cols) == (px as real, py as real)
  {
    var p := Estimate3DPosition(px, py, depth, cols);
    var dx, dy := px as real - cols as real / 2.0, py as real - |depth| as real / 2.0;
    assert p.x == dx * p.z / FocalLength && p.y == dy * p.z / FocalLength;
    CancelDepth(dx, p.z);
    CancelDepth(dy, p.z);
    assert p.x * FocalLength / p.z == dx && p.y * FocalLength / p.z == dy;
    assert Project(p, |depth|, cols) == (dx + cols as real / 2.0, dy + |depth| as real / 2.0);
  }

  /** Scaling by z / f and then by f / z gives back the offset. */
  lemma CancelDepth(d: real, z: real)
    requires z != 0.0
    ensures d * z / FocalLength * FocalLength / z == d
  {
    assert d * z / FocalLength * FocalLength == d * z;
  }

  /** A zero depth reading at the pixel puts the object at the camera origin. */
  lemma ZeroDepthAtOrigin(px: int, py: int, depth: Matrix, cols: nat)
    requires IsMatrix(depth, |depth|, cols)
    requires 0 <= py < |depth| && 0 <= px < cols && depth[py][px] == 0.0
    ensures Estimate3DPosition(px, py, depth, cols) == Point3(0.0, 0.0, 0.0)
  {
  }

  /** The pixel at the centre of the map lies on the optical axis. */
  lemma CentrePixel(px: int, py: int, depth: Matrix, cols: nat)
    requires IsMatrix(depth, |depth|, cols)
    requires 2 * px == cols && 2 * py == |depth|
    ensures var p := Estimate3DPosition(px, py, depth, cols); p.x == 0.0 && p.y == 0.0
  {
    assert px as real - cols as real / 2.0 == 0.0;
    assert py as real - |depth| as real / 2.0 == 0.0;
  }

  /** The workspace box of `filter_by_workspace`. */
  datatype WorkspaceBounds = WorkspaceBounds(
    xMin: real, xMax: real, yMin: real, yMax: real, zMin: real, zMax: real)

  /** An object with a 3-D position inside the box, bounds included. */
  predicate InWorkspace(obj: DetectedObject, b: WorkspaceBounds) {
    obj.position3d.Some? &&
    var p := obj.position3d.value;
    b.xMin <= p.x <= b.xMax && b.yMin <= p.y <= b.yMax && b.zMin <= p.z <= b.zMax
  }

  /** The objects of `ds` inside the box, in their original order. */
  function Filtered(ds: seq<DetectedObject>, b: WorkspaceBounds): seq<DetectedObject>
    decreases |ds|
  {
    if |ds| == 0 then []
    else
      var last := ds[|ds| - 1];
      Filtered(ds[..|ds| - 1], b) + (if InWorkspace(last, b) then [last] else [])
  }

  /** `filter_by_workspace`: keep, in order, the detections whose 3-D position lies in the box. */
  method FilterByWorkspace(detections: seq<DetectedObject>, b: WorkspaceBounds)
    returns (filtered: seq<DetectedObject>)
    ensures filtered == Filtered(detections, b)
  {
    filtered := [];
    for i := 0 to |detections|
      invariant filtered == Filtered(detections[..i], b)
    {
      var obj := detections[i];
      assert detections[..i + 1][..i] == detections[..i];
      if obj.position3d.None? {
        continue;
      }
      var p := obj.position3d.value;
      if b.xMin <= p.x <= b.xMax && b.yMin <= p.y <= b.yMax && b.zMin <= p.z <= b.zMax {
        filtered := filtered + [obj];
      }
    }
    assert detections[..|detections|] == detections;
  }

  /** An object is kept exactly when it is one of the inputs and lies in the box. */
  lemma {:induction false} FilteredMembers(ds: seq<DetectedObject>, b: WorkspaceBounds)
    ensures forall o :: o in Filtered(ds, b) <==> o in ds && InWorkspace(o, b)
    decreases |ds|
  {
    if |ds| > 0 {
      FilteredMembers(ds[..|ds| - 1], b);
      assert ds == ds[..|ds| - 1] + [ds[|ds| - 1]];
    }
  }

  /** No kept object lacks a 3-D position. */
  lemma FilteredHavePositions(ds: seq<DetectedObject>, b: WorkspaceBounds)
    ensures forall o :: o in Filtered(ds, b) ==> o.position3d.Some?
  {
    FilteredMembers(ds, b);
  }

  /**
   * `a` can be obtained from `s` by deleting elements: the order of what
   * remains is the order in `s`.
   */
  predicate IsSubsequence<T(==)>(a: seq<T>, s: seq<T>)
    decreases |s|
  {
    |a| == 0 ||
    (|s| > 0 &&
     ((a[|a| - 1] == s[|s| - 1] && IsSubsequence(a[..|a| - 1], s[..|s| - 1]))
      || IsSubsequence(a, s[..|s| - 1])))
  }

  lemma {:induction false} SubsequenceNoLonger<T>(a: seq<T>, s: seq<T>)
    requires IsSubsequence(a, s)
    ensures |a| <= |s|
    decreases |s|
  {
    if |a| > 0 {
      if a[|a| - 1] == s[|s| - 1] && IsSubsequence(a[..|a| - 1], s[..|s| - 1]) {
        SubsequenceNoLonger(a[..|a| - 1], s[..|s| - 1]);
      } else {
        SubsequenceNoLonger(a, s[..|s| - 1]);
      }
    }
  }

  /** The filtered list keeps the input order and is no longer than the input. */
  lemma {:induction false} FilteredIsSubsequence(ds: seq<DetectedObject>, b: WorkspaceBounds)
    ensures IsSubsequence(Filtered(ds, b), ds)
    ensures |Filtered(ds, b)| <= |ds|
    decreases |ds|
  {
    if |ds| > 0 {
      var init, last := ds[..|ds| - 1], ds[|ds| - 1];
      FilteredIsSubsequence(init, b);
      var f := Filtered(ds, b);
      if InWorkspace(last, b) {
        assert f == Filtered(init, b) + [last];
        assert f[..|f| - 1] == Filtered(init, b);
      } else {
        assert f == Filtered(init, b);
        assert ds[..|ds| - 1] == init;
      }
    }
    SubsequenceNoLonger(Filtered(ds, b), ds);
  }

  /** Filtering a concatenation filters each part. */
  lemma {:induction false} FilteredAppend(a: seq<DetectedObject>, c: seq<DetectedObject>, b: WorkspaceBounds)
    ensures Filtered(a + c, b) == Filtered(a, b) + Filtered(c, b)
    decreases |c|
  {
    if |c| == 0 {
      assert a + c == a;
    } else {
      var init, last := c[..|c| - 1], c[|c| - 1];
      FilteredAppend(a, init, b);
      assert (a + c)[..|a + c| - 1] == a + init;
    }
  }

  /** Filtering again with the same box changes nothing. */
  lemma {:induction false} FilteredIdempotent(ds: seq<DetectedObject>, b: WorkspaceBounds)
    ensures Filtered(Filtered(ds, b), b) == Filtered(ds, b)
    decreases |ds|
  {
    if |ds| > 0 {
      var init, last := ds[..|ds| - 1], ds[|ds| - 1];
      var keep := if InWorkspace(last, b) then [last] else [];
      FilteredIdempotent(init, b);
      FilteredAppend(Filtered(init, b), keep, b);
      if InWorkspace(last, b) {
        assert Filtered(keep, b) == Filtered([], b) + [last];
      }
    }
  }
}
