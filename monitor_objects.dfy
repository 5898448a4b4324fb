/**
 * The object-stability monitor of simulation_project/scripts/monitor_objects.py:
 * build the alias-to-handle map, keep the aliases that start with
 * "object_", sample each tracked object's world position a fixed number of
 * times, and give each object a verdict from its samples.
 *
 * The remote API is replaced by its answers: the alias lookup made for
 * each scene handle (None when the call raises), and a `sensor` giving the
 * position read at each sample for each handle (None when the read raises).
 * Connecting, starting the simulation and sleeping are left out.
 */
module ObjectMonitor {
  import opened Support

  /** One `sim.getObjectAlias(h)` call: the handle and the alias returned, or None if the call raised. */
  datatype Lookup = Lookup(handle: int, alias: Option<string>)

  /** The alias map after the lookups `lookups`, in order: empty aliases and failed lookups are skipped. */
  function AliasMapOf(lookups: seq<Lookup>): map<string, int>
    decreases |lookups|
  {
    if |lookups| == 0 then map[]
    else
      var last := lookups[|lookups| - 1];
      var m := AliasMapOf(lookups[..|lookups| - 1]);
      if last.alias.Some? && last.alias.value != "" then m[last.alias.value := last.handle] else m
  }

  /** `build_alias_map`. */
  method BuildAliasMap(lookups: seq<Lookup>) returns (aliasMap: map<string, int>)
    ensures aliasMap == AliasMapOf(lookups)
  {
    aliasMap := map[];
    for i := 0 to |lookups|
      invariant aliasMap == AliasMapOf(lookups[..i])
    {
      assert lookups[..i + 1][..i] == lookups[..i];
      var lookup := lookups[i];
      if lookup.alias.None? {
        continue;
      }
      var alias := lookup.alias.value;
      if alias != "" {
        aliasMap := aliasMap[alias := lookup.handle];
      }
    }
    assert lookups[..|lookups|] == lookups;
  }

  /** Some lookup returned alias `a`. */
  predicate Returned(lookups: seq<Lookup>, a: string) {
    exists i :: 0 <= i < |lookups| && lookups[i].alias == Some(a)
  }

  /**
   * The map holds exactly the non-empty aliases some lookup returned, each
   * mapped to the handle of the last lookup that returned it.
   */
  lemma {:induction false} AliasMapExact(lookups: seq<Lookup>)
    ensures forall a :: a in AliasMapOf(lookups) <==> a != "" && Returned(lookups, a)
    ensures forall a :: a in AliasMapOf(lookups) ==>
      exists i :: 0 <= i < |lookups| && lookups[i].alias == Some(a)
        && AliasMapOf(lookups)[a] == lookups[i].handle
        && forall j :: i < j < |lookups| ==> lookups[j].alias != Some(a)
    decreases |lookups|
  {
    if |lookups| > 0 {
      var n := |lookups| - 1;
      var init := lookups[..n];
      AliasMapExact(init);
      var m := AliasMapOf(lookups);
      forall a ensures a in m <==> a != "" && Returned(lookups, a) {
        if Returned(lookups, a) && a != "" {
          var i :| 0 <= i < |lookups| && lookups[i].alias == Some(a);
          if i < n {
            assert init[i] == lookups[i];
          }
        }
        if a in AliasMapOf(init) {
          var i :| 0 <= i < |init| && init[i].alias == Some(a);
          assert lookups[i] == init[i];
        }
      }
      forall a | a in m
        ensures exists i ::
          && 0 <= i < |lookups| && lookups[i].alias == Some(a)
          && m[a] == lookups[i].handle
          && forall j :: i < j < |lookups| ==> lookups[j].alias != Some(a)
      {
        if lookups[n].alias == Some(a) && a != "" {
          assert m[a] == lookups[n].handle;
        } else {
          var i :| 0 <= i < |init| && init[i].alias == Some(a)
            && AliasMapOf(init)[a] == init[i].handle
            && forall j :: i < j < |init| ==> init[j].alias != Some(a);
          assert lookups[i] == init[i];
          forall j | i < j < |lookups| ensures lookups[j].alias != Some(a) {
            if j < n {
              assert lookups[j] == init[j];
            }
          }
        }
      }
    }
  }

  /** The prefix matched by the default pattern `^object_`. */
  const TrackedPrefix: string := "object_"

  /** `tracked`: the entries of the alias map whose alias matches the default pattern. */
  function Tracked(aliasMap: map<string, int>): map<string, int> {
    map a | a in aliasMap && IsPrefix(TrackedPrefix, a) :: aliasMap[a]
  }

  /**
   * An alias is tracked exactly when some lookup returned it and it starts
   * with "object_"; it is tracked with the handle the alias map holds.
   */
  lemma TrackedAliases(lookups: seq<Lookup>)
    ensures var m := AliasMapOf(lookups);
      forall a :: a in Tracked(m) <==> IsPrefix(TrackedPrefix, a) && Returned(lookups, a)
    ensures var m := AliasMapOf(lookups);
      forall a :: a in Tracked(m) ==> a in m && Tracked(m)[a] == m[a]
  {
    AliasMapExact(lookups);
  }

  /** `int(duration_sec * sample_hz)`; a negative count runs no samples. */
  function SampleCount(durationSec: real, sampleHz: real): (n: nat)
    ensures durationSec * sampleHz >= 0.0 ==> n as real <= durationSec * sampleHz < n as real + 1.0
    ensures durationSec * sampleHz < 1.0 ==> n == 0
  {
    var samples := Trunc(durationSec * sampleHz);
    if samples < 0 then 0 else samples
  }

  /** The history of the object with handle h after k samples: each read, None when it failed. */
  function Samples(sensor: (nat, int) -> Option<Point3>, h: int, k: nat): seq<Option<Point3>> {
    seq(k, i requires 0 <= i < k => sensor(i, h))
  }

  /** The sampling loops of `monitor_objects`: `samples` rounds, each reading every tracked object once. */
  method SampleHistory(tracked: map<string, int>, samples: nat, sensor: (nat, int) -> Option<Point3>)
    returns (history: map<string, seq<Option<Point3>>>)
    ensures history.Keys == tracked.Keys
    ensures forall a :: a in history ==> history[a] == Samples(sensor, tracked[a], samples)
  {
    history := map a | a in tracked :: [];
    for i := 0 to samples
      invariant history.Keys == tracked.Keys
      invariant forall a :: a in history ==> history[a] == Samples(sensor, tracked[a], i)
    {
      var remaining := tracked.Keys;
      while remaining != {}
        invariant remaining <= tracked.Keys && history.Keys == tracked.Keys
        invariant forall a :: a in history && a in remaining ==> history[a] == Samples(sensor, tracked[a], i)
        invariant forall a :: a in history && a !in remaining ==> history[a] == Samples(sensor, tracked[a], i + 1)
        decreases remaining
      {
        var alias :| alias in remaining;
        var pos := sensor(i, tracked[alias]);
        assert Samples(sensor, tracked[alias], i) + [pos] == Samples(sensor, tracked[alias], i + 1);
        history := history[alias := history[alias] + [pos]];
        remaining := remaining - {alias};
      }
    }
  }

  /** `sum(p is None for p in positions)`. */
  function NoneCount(ps: seq<Option<Point3>>): nat
    decreases |ps|
  {
    if |ps| == 0 then 0 else (if ps[0].None? then 1 else 0) + NoneCount(ps[1..])
  }

  /** The first sample that is not None, as `next(...)` finds it. */
  function FirstValid(ps: seq<Option<Point3>>): Option<Point3>
    decreases |ps|
  {
    if |ps| == 0 then None else if ps[0].Some? then ps[0] else FirstValid(ps[1..])
  }

  /** The last sample that is not None, searching from the end. */
  function LastValid(ps: seq<Option<Point3>>): Option<Point3>
    decreases |ps|
  {
    if |ps| == 0 then None
    else if ps[|ps| - 1].Some? then ps[|ps| - 1]
    else LastValid(ps[..|ps| - 1])
  }

  /** The z of every valid sample, in order. */
  function ValidZs(ps: seq<Option<Point3>>): (zs: seq<real>)
    ensures |zs| + NoneCount(ps) == |ps|
    decreases |ps|
  {
    if |ps| == 0 then [] else (if ps[0].Some? then [ps[0].value.z] else []) + ValidZs(ps[1..])
  }

  /** The smallest entry of a non-empty sequence: `min(...)`. */
  function Min(s: seq<real>): (m: real)
    requires |s| > 0
    ensures m in s && forall x :: x in s ==> m <= x
  {
    if |s| == 1 then s[0]
    else
      var rest := Min(s[1..]);
      assert forall x :: x in s ==> x == s[0] || x in s[1..];
      if s[0] <= rest then s[0] else rest
  }

  /** The largest entry of a non-empty sequence: `max(...)`. */
  function Max(s: seq<real>): (m: real)
    requires |s| > 0
    ensures m in s && forall x :: x in s ==> x <= m
  {
    if |s| == 1 then s[0]
    else
      var rest := Max(s[1..]);
      assert forall x :: x in s ==> x == s[0] || x in s[1..];
      if s[0] >= rest then s[0] else rest
  }

  /** The summary line of one object. */
  datatype Verdict =
    | Invalid
    | Dropped(minZ: real)
    | Drift(dz: real)
    | Stable(minZ: real, maxZ: real)
    | Intermittent

  /** The first and last valid samples exist exactly when some sample is valid. */
  lemma {:induction false} ValidEnds(ps: seq<Option<Point3>>)
    ensures FirstValid(ps).Some? <==> |ValidZs(ps)| > 0
    ensures LastValid(ps).Some? <==> |ValidZs(ps)| > 0
    ensures FirstValid(ps).Some? ==> FirstValid(ps).value.z == ValidZs(ps)[0]
    ensures LastValid(ps).Some? ==> LastValid(ps).value.z == ValidZs(ps)[|ValidZs(ps)| - 1]
    decreases |ps|
  {
    if |ps| > 0 {
      ValidEnds(ps[1..]);
      LastValidZ(ps);
    }
  }

  lemma {:induction false} LastValidZ(ps: seq<Option<Point3>>)
    ensures LastValid(ps).Some? <==> |ValidZs(ps)| > 0
    ensures LastValid(ps).Some? ==> LastValid(ps).value.z == ValidZs(ps)[|ValidZs(ps)| - 1]
    decreases |ps|
  {
    if |ps| > 0 {
      var init := ps[..|ps| - 1];
      LastValidZ(init);
      ValidZsSnoc(init, ps[|ps| - 1]);
      assert ps == init + [ps[|ps| - 1]];
    }
  }

  /** Valid z values of a sequence extended by one sample. */
  lemma {:induction false} ValidZsSnoc(ps: seq<Option<Point3>>, p: Option<Point3>)
    ensures ValidZs(ps + [p]) == ValidZs(ps) + (if p.Some? then [p.value.z] else [])
    decreases |ps|
  {
    if |ps| == 0 {
      assert ps + [p] == [p];
    } else {
      assert (ps + [p])[1..] == ps[1..] + [p];
      ValidZsSnoc(ps[1..], p);
    }
  }

  /** The verdict `monitor_objects` prints for an object with samples `ps`. */
  function VerdictOf(ps: seq<Option<Point3>>): (v: Verdict)
    ensures v.Dropped? ==> v.minZ < -0.01
    ensures v.Drift? ==> v.dz < -0.02
    ensures v.Stable? ==> -0.01 <= v.minZ <= v.maxZ
  {
    if NoneCount(ps) == |ps| then Invalid
    else
      var first, last := FirstValid(ps), LastValid(ps);
      if first.Some? && last.Some? then
        var dz := last.value.z - first.value.z;
        var zs := ValidZs(ps);
        var minZ := Min(zs);
        if minZ < -0.01 then Dropped(minZ)
        else if dz < -0.02 then Drift(dz)
        else Stable(minZ, Max(zs))
      else Intermittent
  }

  /**
   * The verdict by cases: invalid exactly when no sample is valid (so also
   * with no samples at all); dropped when the lowest valid z is below
   * -0.01; else drift when the last valid z is more than 0.02 below the
   * first; else stable over the range of valid z values. The intermittent
   * branch is never taken.
   */
  lemma VerdictCases(ps: seq<Option<Point3>>)
    ensures var v, zs := VerdictOf(ps), ValidZs(ps);
      && (v == Invalid <==> |zs| == 0)
      && v != Intermittent
      && (|zs| > 0 ==>
            var minZ, dz := Min(zs), zs[|zs| - 1] - zs[0];
            && (minZ < -0.01 ==> v == Dropped(minZ))
            && (minZ >= -0.01 && dz < -0.02 ==> v == Drift(dz))
            && (minZ >= -0.01 && dz >= -0.02 ==>
                  v.Stable? && v.minZ == minZ && v.maxZ == Max(zs)
                  && forall z :: z in zs ==> v.minZ <= z <= v.maxZ))
  {
    ValidEnds(ps);
  }

  /** The intermittent branch is unreachable: a valid sample makes both a first and a last valid sample. */
  lemma IntermittentUnreachable(ps: seq<Option<Point3>>)
    ensures VerdictOf(ps) != Intermittent
  {
    ValidEnds(ps);
  }

  /** The summary loop of `monitor_objects`: one verdict for each object of the history. */
  method SummaryOf(history: map<string, seq<Option<Point3>>>) returns (summary: map<string, Verdict>)
    ensures summary.Keys == history.Keys
    ensures forall a :: a in summary ==> summary[a] == VerdictOf(history[a])
  {
    summary := map[];
    var remaining := history.Keys;
    while remaining != {}
      invariant remaining <= history.Keys
      invariant summary.Keys == history.Keys - remaining
      invariant forall a :: a in summary ==> summary[a] == VerdictOf(history[a])
      decreases remaining
    {
      var alias :| alias in remaining;
      summary := summary[alias := VerdictOf(history[alias])];
      remaining := remaining - {alias};
    }
  }

  /** The whole summary: None when nothing is tracked (the early return), a ZeroDivisionError for a zero rate, else one verdict per tracked alias. */
  function Monitored(lookups: seq<Lookup>, durationSec: real, sampleHz: real,
                     sensor: (nat, int) -> Option<Point3>): Result<Option<map<string, Verdict>>>
  {
    var tracked := Tracked(AliasMapOf(lookups));
    if tracked == map[] then Ok(None)
    else if sampleHz == 0.0 then Err(ZeroDivisionError)
    else
      var k := SampleCount(durationSec, sampleHz);
      Ok(Some(map a | a in tracked :: VerdictOf(Samples(sensor, tracked[a], k))))
  }

  /** `monitor_objects` with the default pattern, 5 s at 10 Hz by default. */
  method MonitorObjects(lookups: seq<Lookup>, sensor: (nat, int) -> Option<Point3>,
                        durationSec: real := 5.0, sampleHz: real := 10.0)
    returns (r: Result<Option<map<string, Verdict>>>)
    ensures r == Monitored(lookups, durationSec, sampleHz, sensor)
  {
    var aliasMap := BuildAliasMap(lookups);
    var tracked := Tracked(aliasMap);
    if tracked == map[] {
      return Ok(None);
    }
    if sampleHz == 0.0 {
      return Err(ZeroDivisionError);
    }
    var samples := SampleCount(durationSec, sampleHz);
    var history := SampleHistory(tracked, samples, sensor);
    var summary := SummaryOf(history);
    var expected := map a | a in tracked :: VerdictOf(Samples(sensor, tracked[a], samples));
    assert summary.Keys == expected.Keys;
    assert forall a :: a in summary ==> summary[a] == expected[a];
    assert summary == expected;
    assert Monitored(lookups, durationSec, sampleHz, sensor) == Ok(Some(expected));
    return Ok(Some(summary));
  }

  /** With zero samples every tracked object is reported invalid. */
  lemma NoSamplesAllInvalid(sensor: (nat, int) -> Option<Point3>, h: int)
    ensures VerdictOf(Samples(sensor, h, 0)) == Invalid
  {
  }

  /** Each tracked object gets exactly int(duration * rate) samples, a failed read recorded as None. */
  lemma SamplesShape(sensor: (nat, int) -> Option<Point3>, h: int, durationSec: real, sampleHz: real)
    requires durationSec * sampleHz >= 0.0
    ensures var k := SampleCount(durationSec, sampleHz); var s := Samples(sensor, h, k);
      && |s| == Trunc(durationSec * sampleHz)
      && forall i :: 0 <= i < |s| ==> s[i] == sensor(i, h)
  {
  }
}
