/**
 * The per-frame flagging of `summarize` in
 * simulation_project/scripts/analyze_frames.py: each key frame after the
 * first is compared colour by colour with the first (the baseline), a
 * colour whose area fell to zero is "gone" and one that fell below a
 * quarter of its baseline area has shrunk.
 *
 * Loading the images and measuring the colour areas with OpenCV
 * (`load_images`, `detect_colors`) are outside the model: each image comes
 * with its measured areas. The console output is modelled as the values it
 * prints.
 */
module FrameAnalysis {
  import opened Support

  /** The colours of `COLOR_THRESHOLDS`, in their order. */
  datatype Color = Red | Green | Blue

  const Colors: seq<Color> := [Red, Green, Blue]

  /** The pixel area `detect_colors` measures for each colour. */
  datatype Areas = Areas(red: nat, green: nat, blue: nat)

  function Area(a: Areas, c: Color): nat {
    match c
    case Red => a.red
    case Green => a.green
    case Blue => a.blue
  }

  /** A key frame: its file name and its measured areas. */
  datatype Image = Image(name: string, areas: Areas)

  /** "<colour> gone" or "<colour> ↓area". */
  datatype FlagKind = Gone | Shrunk

  datatype Flag = Flag(color: Color, kind: FlagKind)

  /** The printed line of one frame: its areas and its flags ("stable" when there are none). */
  datatype FrameReport = FrameReport(name: string, areas: Areas, flags: seq<Flag>)

  /** Everything `summarize` prints for a non-empty image list. */
  datatype Summary = Summary(baselineName: string, baseline: Areas, frames: seq<FrameReport>, disappearing: set<Color>)

  /**
   * The flag of one colour: only a colour present in the baseline can be
   * flagged; it is gone at area 0, and has shrunk below a quarter of its
   * baseline area otherwise.
   */
  function FlagFor(base: nat, area: nat): (k: Option<FlagKind>)
    ensures k == Some(Gone) <==> base > 0 && area == 0
    ensures k == Some(Shrunk) <==> base > 0 && 0 < area && (area as real) < (base as real) * 0.25
    ensures base == 0 ==> k == None
  {
    if base > 0 && area == 0 then Some(Gone)
    else if base > 0 && (area as real) < (base as real) * 0.25 then Some(Shrunk)
    else None
  }

  /** The flags of the colours `cs` for a frame with `areas` against `baseline`, in the order of `cs`. */
  function FlagsOver(cs: seq<Color>, baseline: Areas, areas: Areas): seq<Flag>
    decreases |cs|
  {
    if |cs| == 0 then []
    else
      var c := cs[|cs| - 1];
      var k := FlagFor(Area(baseline, c), Area(areas, c));
      FlagsOver(cs[..|cs| - 1], baseline, areas) + (if k.Some? then [Flag(c, k.value)] else [])
  }

  /** The colours among `cs` that are gone in a frame with `areas`. */
  function GoneAmong(cs: seq<Color>, baseline: Areas, areas: Areas): set<Color> {
    set c | c in cs && FlagFor(Area(baseline, c), Area(areas, c)) == Some(Gone)
  }

  /** The colours gone in some frame of `frames`. */
  function Disappeared(baseline: Areas, frames: seq<Image>): set<Color>
    decreases |frames|
  {
    if |frames| == 0 then {}
    else Disappeared(baseline, frames[..|frames| - 1]) + GoneAmong(Colors, baseline, frames[|frames| - 1].areas)
  }

  /** The report of each frame, each against the baseline alone. */
  function Reports(baseline: Areas, frames: seq<Image>): seq<FrameReport>
    decreases |frames|
  {
    if |frames| == 0 then []
    else
      var f := frames[|frames| - 1];
      Reports(baseline, frames[..|frames| - 1]) + [FrameReport(f.name, f.areas, FlagsOver(Colors, baseline, f.areas))]
  }

  /** What `summarize` prints: nothing to compare for no images, otherwise the baseline and the later frames' reports. */
  function Summarized(images: seq<Image>): Option<Summary> {
    if |images| == 0 then None
    else
      var baseline := images[0].areas;
      Some(Summary(images[0].name, baseline, Reports(baseline, images[1..]), Disappeared(baseline, images[1..])))
  }

  /** The flags of one frame, computed by the inner loop of `summarize`, with the colours it finds gone. */
  method FlagFrame(baseline: Areas, areas: Areas) returns (flags: seq<Flag>, gone: set<Color>)
    ensures flags == FlagsOver(Colors, baseline, areas)
    ensures gone == GoneAmong(Colors, baseline, areas)
  {
    flags := [];
    gone := {};
    for k := 0 to |Colors|
      invariant flags == FlagsOver(Colors[..k], baseline, areas)
      invariant gone == GoneAmong(Colors[..k], baseline, areas)
    {
      var c := Colors[k];
      var a := Area(areas, c);
      var base := Area(baseline, c);
      assert Colors[..k + 1][..k] == Colors[..k];
      assert Colors[..k + 1] == Colors[..k] + [c];
      if base > 0 && a == 0 {
        flags := flags + [Flag(c, Gone)];
        gone := gone + {c};
      } else if base > 0 && (a as real) < (base as real) * 0.25 {
        flags := flags + [Flag(c, Shrunk)];
      }
    }
    assert Colors[..|Colors|] == Colors;
  }

  /** `summarize`. */
  method Summarize(images: seq<Image>) returns (r: Option<Summary>)
    ensures r == Summarized(images)
  {
    if |images| == 0 {
      return None;
    }
    var baseline := images[0].areas;
    var disappearingColors: set<Color> := {};
    var reports: seq<FrameReport> := [];
    var later := images[1..];
    for i := 0 to |later|
      invariant reports == Reports(baseline, later[..i])
      invariant disappearingColors == Disappeared(baseline, later[..i])
    {
      var img := later[i];
      assert later[..i + 1][..i] == later[..i];
      var flags, gone := FlagFrame(baseline, img.areas);
      disappearingColors := disappearingColors + gone;
      reports := reports + [FrameReport(img.name, img.areas, flags)];
    }
    assert later[..|later|] == later;
    return Some(Summary(images[0].name, baseline, reports, disappearingColors));
  }

  /** `Colors` lists every colour. */
  lemma AllColors()
    ensures forall c: Color :: c in Colors
  {
    forall c: Color ensures c in Colors {
      assert c == Red || c == Green || c == Blue;
    }
  }

  /** An empty image list produces no comparisons. */
  lemma NoImagesNoSummary()
    ensures Summarized([]) == None
  {
  }

  /** Each colour is flagged at most once in a frame, and only when it has a flag. */
  lemma {:induction false} FlagsOverShape(cs: seq<Color>, baseline: Areas, areas: Areas)
    ensures var flags := FlagsOver(cs, baseline, areas);
      forall f :: f in flags <==>
        f.color in cs && FlagFor(Area(baseline, f.color), Area(areas, f.color)) == Some(f.kind)
    ensures var flags := FlagsOver(cs, baseline, areas);
      (forall i, j :: 0 <= i < j < |cs| ==> cs[i] != cs[j]) ==>
        forall i, j :: 0 <= i < j < |flags| ==> flags[i].color != flags[j].color
    decreases |cs|
  {
    if |cs| > 0 {
      var init := cs[..|cs| - 1];
      FlagsOverShape(init, baseline, areas);
      assert cs == init + [cs[|cs| - 1]];
    }
  }

  /**
   * In every frame report: a colour is flagged at most once, a colour is
   * flagged with exactly the kind `FlagFor` gives, and the frame is
   * "stable" (no flags) exactly when no colour is flagged.
   */
  lemma FrameFlags(baseline: Areas, areas: Areas)
    ensures var flags := FlagsOver(Colors, baseline, areas);
      && (forall i, j :: 0 <= i < j < |flags| ==> flags[i].color != flags[j].color)
      && (forall f :: f in flags <==> FlagFor(Area(baseline, f.color), Area(areas, f.color)) == Some(f.kind))
      && (|flags| == 0 <==> forall c :: FlagFor(Area(baseline, c), Area(areas, c)).None?)
  {
    FlagsOverShape(Colors, baseline, areas);
    var flags := FlagsOver(Colors, baseline, areas);
    AllColors();
    if |flags| == 0 {
      forall c ensures FlagFor(Area(baseline, c), Area(areas, c)).None? {
        var k := FlagFor(Area(baseline, c), Area(areas, c));
        if k.Some? {
          assert false;
        }
      }
    } else {
      var f := flags[0];
      assert f in flags;
    }
  }

  /**
   * Every frame is compared with the baseline and never with the frame
   * before it: the report of frame i depends only on the baseline and frame i.
   */
  lemma {:induction false} ReportsAgainstBaseline(baseline: Areas, frames: seq<Image>)
    ensures var r := Reports(baseline, frames);
      && |r| == |frames|
      && forall i :: 0 <= i < |frames| ==>
           r[i] == FrameReport(frames[i].name, frames[i].areas, FlagsOver(Colors, baseline, frames[i].areas))
    decreases |frames|
  {
    if |frames| > 0 {
      ReportsAgainstBaseline(baseline, frames[..|frames| - 1]);
    }
  }

  /** `disappearing_colors` is exactly the set of colours flagged gone in some frame after the baseline. */
  lemma {:induction false} DisappearedExactly(baseline: Areas, frames: seq<Image>)
    ensures forall c :: c in Disappeared(baseline, frames) <==>
      exists i :: 0 <= i < |frames| && Area(baseline, c) > 0 && Area(frames[i].areas, c) == 0
    decreases |frames|
  {
    if |frames| > 0 {
      var init := frames[..|frames| - 1];
      DisappearedExactly(baseline, init);
      forall c ensures c in Disappeared(baseline, frames) <==>
        exists i :: 0 <= i < |frames| && Area(baseline, c) > 0 && Area(frames[i].areas, c) == 0
      {
        AllColors();
        if c in Disappeared(baseline, init) {
          var i :| 0 <= i < |init| && Area(baseline, c) > 0 && Area(init[i].areas, c) == 0;
          assert frames[i] == init[i];
        }
        if exists i :: 0 <= i < |frames| && Area(baseline, c) > 0 && Area(frames[i].areas, c) == 0 {
          var i :| 0 <= i < |frames| && Area(baseline, c) > 0 && Area(frames[i].areas, c) == 0;
          if i < |init| {
            assert init[i] == frames[i];
          }
        }
      }
    }
  }

  /** The set only grows as frames are added. */
  lemma DisappearedGrows(baseline: Areas, frames: seq<Image>, more: seq<Image>)
    ensures Disappeared(baseline, frames) <= Disappeared(baseline, frames + more)
  {
    DisappearedExactly(baseline, frames);
    DisappearedExactly(baseline, frames + more);
    forall c | c in Disappeared(baseline, frames) ensures c in Disappeared(baseline, frames + more) {
      var i :| 0 <= i < |frames| && Area(baseline, c) > 0 && Area(frames[i].areas, c) == 0;
      assert (frames + more)[i] == frames[i];
    }
  }
}
