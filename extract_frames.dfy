/**
 * Frame selection in simulation_project/scripts/extract_frames.py: saving
 * every N-th frame of a video, and choosing evenly spaced key frames.
 *
 * The video is reduced to what the selection reads: whether the file
 * exists and opens, how many frames can be decoded one after another, the
 * frame count and frame rate the container reports. Writing the JPEG files
 * and the console output are left out; a saved frame is recorded by its
 * number, its index in the video and its time stamp, from which the script
 * forms the file name.
 */
module FrameExtraction {
  import opened Support

  /**
   * A video as `cv2.VideoCapture` sees it. `decodable` frames can be read
   * in sequence (and a seek to any of them succeeds); `reportedTotal` is
   * `int(CAP_PROP_FRAME_COUNT)` and `fps` is `CAP_PROP_FPS`.
   */
  datatype Video = Video(fileExists: bool, opens: bool, decodable: nat, reportedTotal: int, fps: real)

  /** One image written by `extract_frames`: the n-th saved, frame index k, at k / fps seconds. */
  datatype SavedFrame = SavedFrame(number: nat, frameIndex: nat, time: real)

  /** One image written by `extract_key_frames`: key frame number, frame index and time stamp. */
  datatype KeyFrame = KeyFrame(number: nat, frameIndex: int, time: real)

  /** The frames `extract_frames` saves among the first k it reads, numbered in order. */
  function SavedAmong(k: nat, interval: int, fps: real): seq<SavedFrame>
    requires interval != 0 && fps != 0.0
  {
    if k == 0 then []
    else
      var earlier := SavedAmong(k - 1, interval, fps);
      if (k - 1) % interval == 0 then earlier + [SavedFrame(|earlier|, k - 1, (k - 1) as real / fps)]
      else earlier
  }

  /**
   * What `extract_frames` returns: nothing when the file is missing or does
   * not open; otherwise, once a frame has been read, a zero interval (the
   * modulo) or a zero frame rate (the time stamp of frame 0) is a
   * ZeroDivisionError; otherwise the saved frames.
   */
  function ExtractedFrames(video: Video, interval: int): Result<seq<SavedFrame>> {
    if !video.fileExists || !video.opens || video.decodable == 0 then Ok([])
    else if interval == 0 || video.fps == 0.0 then Err(ZeroDivisionError)
    else Ok(SavedAmong(video.decodable, interval, video.fps))
  }

  /** `extract_frames`, 30 frames apart by default. */
  method ExtractFrames(video: Video, frameInterval: int := 30) returns (r: Result<seq<SavedFrame>>)
    ensures r == ExtractedFrames(video, frameInterval)
  {
    if !video.fileExists {
      return Ok([]);
    }
    if !video.opens {
      return Ok([]);
    }
    var savedFrames: seq<SavedFrame> := [];
    var frameCount := 0;
    var extractedCount := 0;
    while frameCount < video.decodable
      invariant 0 <= frameCount <= video.decodable
      invariant frameCount > 0 ==> frameInterval != 0 && video.fps != 0.0
      invariant frameCount > 0 ==> savedFrames == SavedAmong(frameCount, frameInterval, video.fps)
      invariant frameCount == 0 ==> savedFrames == []
      invariant extractedCount == |savedFrames|
    {
      if frameInterval == 0 {
        return Err(ZeroDivisionError);
      }
      if frameCount % frameInterval == 0 {
        if video.fps == 0.0 {
          return Err(ZeroDivisionError);
        }
        savedFrames := savedFrames + [SavedFrame(extractedCount, frameCount, frameCount as real / video.fps)];
        extractedCount := extractedCount + 1;
      }
      frameCount := frameCount + 1;
    }
    return Ok(savedFrames);
  }

  /** ceil(k / n) for n > 0: how many of 0, 1, ..., k - 1 are multiples of n. */
  function CeilDiv(k: nat, n: nat): nat
    requires n > 0
  {
    (k + n - 1) / n
  }

  lemma MulNonNegative(a: int, b: int)
    requires a >= 0 && b >= 0
    ensures a * b >= 0
  {
  }

  lemma MulMonotone(a: int, b: int, c: int)
    requires a >= b && c >= 0
    ensures a * c >= b * c
  {
    assert a * c - b * c == (a - b) * c;
    MulNonNegative(a - b, c);
  }

  /** Euclidean division has one quotient and one remainder. */
  lemma DivUnique(a: int, n: int, q: int, r: int)
    requires n > 0 && 0 <= r < n && a == q * n + r
    ensures a / n == q && a % n == r
  {
    var q2, r2 := a / n, a % n;
    assert a == q2 * n + r2;
    if q > q2 {
      MulMonotone(q, q2 + 1, n);
    } else if q < q2 {
      MulMonotone(q2, q + 1, n);
    }
  }

  /** a >= m * n implies a / n >= m (for n > 0). */
  lemma DivAtLeast(a: int, n: int, m: int)
    requires n > 0 && a >= m * n
    ensures a / n >= m
  {
    var q := a / n;
    assert a == q * n + a % n;
    if q < m {
      MulMonotone(m - 1, q, n);
    }
  }

  /** How CeilDiv grows from k - 1 to k, and that it counts exactly the multiples below k. */
  lemma CeilDivStep(k: nat, n: nat)
    requires n > 0 && k > 0
    ensures (k - 1) % n == 0 ==> CeilDiv(k, n) == CeilDiv(k - 1, n) + 1 && CeilDiv(k - 1, n) * n == k - 1
    ensures (k - 1) % n != 0 ==> CeilDiv(k, n) == CeilDiv(k - 1, n)
  {
    var q, r := (k - 1) / n, (k - 1) % n;
    var qn := q * n;
    assert k - 1 == qn + r;
    assert (q + 1) * n == qn + n;
    if r == 0 {
      DivUnique(qn + (n - 1), n, q, n - 1);
      DivUnique(qn + n, n, q + 1, 0);
    } else {
      DivUnique(qn + n + (r - 1), n, q + 1, r - 1);
      DivUnique(qn + n + r, n, q + 1, r);
    }
  }

  /**
   * With a positive interval N, the frames saved among the first k are
   * ceil(k / N) in number, the j-th is numbered j, is frame j * N and is
   * stamped (j * N) / fps.
   */
  lemma {:induction false} SavedAmongShape(k: nat, interval: nat, fps: real)
    requires interval > 0 && fps != 0.0
    ensures var s := SavedAmong(k, interval, fps);
      && |s| == CeilDiv(k, interval)
      && forall j :: 0 <= j < |s| ==>
           s[j] == SavedFrame(j, j * interval, (j * interval) as real / fps)
  {
    if k > 0 {
      SavedAmongShape(k - 1, interval, fps);
      CeilDivStep(k, interval);
    }
  }

  /** Frame k of the first `count` read is saved exactly when N divides k. */
  lemma SavedIffMultiple(count: nat, interval: nat, fps: real, k: nat)
    requires interval > 0 && fps != 0.0 && k < count
    ensures (exists j :: 0 <= j < |SavedAmong(count, interval, fps)| && SavedAmong(count, interval, fps)[j].frameIndex == k)
        <==> k % interval == 0
  {
    var s := SavedAmong(count, interval, fps);
    SavedAmongShape(count, interval, fps);
    if k % interval == 0 {
      var q := k / interval;
      MultipleIsCounted(count, interval, k);
      assert s[q].frameIndex == k;
    } else {
      forall j | 0 <= j < |s| ensures s[j].frameIndex != k {
        if s[j].frameIndex == k {
          MultipleOf(j, interval, k);
        }
      }
    }
  }

  /** A multiple k = q * N below `count` is the q-th of the ceil(count / N) multiples. */
  lemma MultipleIsCounted(count: nat, interval: nat, k: nat)
    requires interval > 0 && k < count && k % interval == 0
    ensures k / interval < CeilDiv(count, interval) && (k / interval) * interval == k
  {
    var q := k / interval;
    assert k == q * interval;
    assert (q + 1) * interval == k + interval;
    DivAtLeast(count + interval - 1, interval, q + 1);
  }

  /** j * N is a multiple of N. */
  lemma MultipleOf(j: int, interval: int, k: int)
    requires interval > 0 && k == j * interval
    ensures k % interval == 0
  {
    DivUnique(k, interval, j, 0);
  }

  /** The frame indices `extract_key_frames` seeks to. */
  function KeyFrameIndices(numFrames: int, totalFrames: int): (r: seq<int>)
    ensures numFrames >= totalFrames ==> |r| == (if totalFrames < 0 then 0 else totalFrames)
    ensures numFrames < totalFrames ==> |r| == (if numFrames < 0 then 0 else numFrames)
  {
    if numFrames >= totalFrames then
      seq(if totalFrames < 0 then 0 else totalFrames, i => i)
    else
      seq(if numFrames < 0 then 0 else numFrames, i requires 0 <= i < numFrames => Trunc((i * totalFrames) as real / numFrames as real))
  }

  /** For a >= 0 and n > 0, `int(a / n)` on floats is the integer quotient. */
  lemma TruncQuotient(a: int, n: int)
    requires a >= 0 && n > 0
    ensures Trunc(a as real / n as real) == a / n
  {
    var q, rem := a / n, a % n;
    assert a == q * n + rem;
    var x := a as real / n as real;
    assert x == q as real + rem as real / n as real;
    assert 0.0 <= rem as real / n as real < 1.0;
  }

  /** Index i of the evenly spaced case is the integer quotient i * total / num. */
  lemma KeyFrameIndexAt(numFrames: int, totalFrames: int, i: int)
    requires 0 < numFrames < totalFrames && 0 <= i < numFrames
    ensures KeyFrameIndices(numFrames, totalFrames)[i] == (i * totalFrames) / numFrames
  {
    assert i * totalFrames >= 0;
    TruncQuotient(i * totalFrames, numFrames);
  }

  /**
   * The key-frame indices start at 0 when there are any, increase strictly
   * and all lie in [0, total).
   */
  lemma KeyFrameIndicesIncreasing(numFrames: int, totalFrames: int)
    ensures var r := KeyFrameIndices(numFrames, totalFrames);
      && (|r| > 0 ==> r[0] == 0)
      && (forall i, j :: 0 <= i < j < |r| ==> r[i] < r[j])
      && (forall i :: 0 <= i < |r| ==> 0 <= r[i] < totalFrames)
  {
    var r := KeyFrameIndices(numFrames, totalFrames);
    if numFrames < totalFrames && 0 < numFrames {
      var n, t := numFrames, totalFrames;
      KeyFrameIndexAt(n, t, 0);
      forall i, j | 0 <= i < j < |r| ensures r[i] < r[j] {
        KeyFrameIndexAt(n, t, i);
        KeyFrameIndexAt(n, t, j);
        IndexStep(n, t, i, j);
      }
      forall i | 0 <= i < |r| ensures 0 <= r[i] < t {
        KeyFrameIndexAt(n, t, i);
        IndexBound(n, t, i);
      }
    }
  }

  /** With total > num, quotients of i * total / num for i < j differ by at least one. */
  lemma IndexStep(n: int, t: int, i: int, j: int)
    requires 0 < n < t && 0 <= i < j
    ensures (i * t) / n < (j * t) / n
  {
    MulMonotone(j, i + 1, t);
    var q := (i * t) / n;
    assert i * t == q * n + (i * t) % n;
    DivAtLeast(j * t, n, q + 1);
  }

  /** For 0 <= i < n, i * t / n lies in [0, t). */
  lemma IndexBound(n: int, t: int, i: int)
    requires 0 < n < t && 0 <= i < n
    ensures 0 <= (i * t) / n < t
  {
    MulNonNegative(i, t);
    MulMonotone(n, i + 1, t);
    var q := (i * t) / n;
    assert i * t == q * n + (i * t) % n;
    if q >= t {
      MulMonotone(q, t, n);
    }
  }

  /**
   * The key frames saved for `indices`: each index whose seek and read
   * succeed, numbered by its position in `indices`, stamped index / fps
   * when the frame rate is positive and 0 otherwise.
   */
  function KeyFramesRead(indices: seq<int>, from: nat, decodable: nat, fps: real): seq<KeyFrame>
    requires from <= |indices|
    decreases |indices| - from
  {
    if from == |indices| then []
    else
      var idx := indices[from];
      var rest := KeyFramesRead(indices, from + 1, decodable, fps);
      if 0 <= idx < decodable then [KeyFrame(from, idx, if fps > 0.0 then idx as real / fps else 0.0)] + rest
      else rest
  }

  /** What `extract_key_frames` returns. */
  function ExtractedKeyFrames(video: Video, numFrames: int): seq<KeyFrame> {
    if !video.fileExists || !video.opens then []
    else KeyFramesRead(KeyFrameIndices(numFrames, video.reportedTotal), 0, video.decodable, video.fps)
  }

  /** `extract_key_frames`, 10 frames by default. */
  method ExtractKeyFrames(video: Video, numFrames: int := 10) returns (savedFrames: seq<KeyFrame>)
    ensures savedFrames == ExtractedKeyFrames(video, numFrames)
  {
    if !video.fileExists {
      return [];
    }
    if !video.opens {
      return [];
    }
    var frameIndices := KeyFrameIndices(numFrames, video.reportedTotal);
    savedFrames := [];
    for idx := 0 to |frameIndices|
      invariant savedFrames + KeyFramesRead(frameIndices, idx, video.decodable, video.fps)
             == KeyFramesRead(frameIndices, 0, video.decodable, video.fps)
    {
      var frameIdx := frameIndices[idx];
      if 0 <= frameIdx < video.decodable {
        var timestamp := if video.fps > 0.0 then frameIdx as real / video.fps else 0.0;
        savedFrames := savedFrames + [KeyFrame(idx, frameIdx, timestamp)];
      }
    }
  }

  /**
   * When every reported frame decodes, one key frame is saved per index,
   * numbered in order and carrying that index.
   */
  lemma {:induction false} KeyFramesAllRead(indices: seq<int>, from: nat, decodable: nat, fps: real)
    requires from <= |indices|
    requires forall i :: from <= i < |indices| ==> 0 <= indices[i] < decodable
    ensures var s := KeyFramesRead(indices, from, decodable, fps);
      && |s| == |indices| - from
      && forall i :: 0 <= i < |s| ==> s[i].number == from + i && s[i].frameIndex == indices[from + i]
    decreases |indices| - from
  {
    if from < |indices| {
      KeyFramesAllRead(indices, from + 1, decodable, fps);
    }
  }

  /**
   * For a video whose reported frames all decode, `extract_key_frames`
   * saves min(num, total) frames at strictly increasing indices below the
   * total, the first at index 0.
   */
  lemma KeyFramesOfFullVideo(video: Video, numFrames: int)
    requires video.fileExists && video.opens && 0 <= video.reportedTotal <= video.decodable
    ensures var s, t := ExtractedKeyFrames(video, numFrames), video.reportedTotal;
      && |s| == (if numFrames >= t then t else if numFrames < 0 then 0 else numFrames)
      && (|s| > 0 ==> s[0].frameIndex == 0)
      && (forall i, j :: 0 <= i < j < |s| ==> s[i].frameIndex < s[j].frameIndex)
      && (forall i :: 0 <= i < |s| ==> s[i].number == i && 0 <= s[i].frameIndex < t)
  {
    var indices := KeyFrameIndices(numFrames, video.reportedTotal);
    KeyFrameIndicesIncreasing(numFrames, video.reportedTotal);
    KeyFramesAllRead(indices, 0, video.decodable, video.fps);
  }

  /** A missing video gives no frames in either mode, whatever else holds. */
  lemma MissingVideo(video: Video, interval: int, numFrames: int)
    requires !video.fileExists
    ensures ExtractedFrames(video, interval) == Ok([])
    ensures ExtractedKeyFrames(video, numFrames) == []
  {
  }
}
