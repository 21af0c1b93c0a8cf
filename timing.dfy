/** `offset_to_time` of `src/chart.rs`: from a rhythmic offset to seconds,
    under piecewise-constant tempos and stops. */
module Timing {
  import opened Arrows
  import opened Gimmick

  /** Rhythmic units in one beat (a quarter note). */
  const BEAT_UNIT: int := NOTE_UNIT / 4

  predicate NonZeroTempos(bpms: seq<Bpm>)
  {
    forall i :: 0 <= i < |bpms| ==> bpms[i].bpm != 0.0
  }

  predicate PositiveTempos(bpms: seq<Bpm>)
  {
    forall i :: 0 <= i < |bpms| ==> bpms[i].bpm > 0.0
  }

  predicate TemposSorted(bpms: seq<Bpm>)
  {
    forall i, j :: 0 <= i < j < |bpms| ==> bpms[i].offset <= bpms[j].offset
  }

  predicate StopsSorted(stops: seq<Stop>)
  {
    forall i, j :: 0 <= i < j < |stops| ==> stops[i].offset <= stops[j].offset
  }

  predicate NonNegativeStops(stops: seq<Stop>)
  {
    forall i :: 0 <= i < |stops| ==> stops[i].time >= 0.0
  }

  /** Seconds taken to go from offset `from` to offset `to` at tempo `bpm`. */
  function Elapsed(from: int, to: int, bpm: real): real
    requires bpm != 0.0
  {
    60.0 / bpm * ((to - from) as real / BEAT_UNIT as real)
  }

  /** State of the tempo loop once it stops: seconds so far and the offset reached. */
  datatype Walk = Walk(time: real, done: int)

  /** The tempo loop of `offset_to_time` run from index `i`, having reached
      offset `done` at tempo `prev`: each breakpoint before `offset` closes a
      segment at the previous tempo; the first breakpoint at or past
      `offset` closes the last, partial, segment and ends the loop. */
  function TempoWalk(offset: int, bpms: seq<Bpm>, i: nat, done: int, prev: real): Walk
    requires i <= |bpms| && NonZeroTempos(bpms) && prev != 0.0
    decreases |bpms| - i
  {
    if i == |bpms| then Walk(0.0, done)
    else if bpms[i].offset >= offset then Walk(Elapsed(done, offset, prev), done)
    else
      var rest := TempoWalk(offset, bpms, i + 1, bpms[i].offset, bpms[i].bpm);
      Walk(Elapsed(done, bpms[i].offset, prev) + rest.time, rest.done)
  }

  /** Seconds of tempo alone: the loop, then the extrapolation at the last
      tempo when `offset` lies past the last breakpoint. */
  function TempoTime(offset: int, bpms: seq<Bpm>): real
    requires |bpms| > 0 && NonZeroTempos(bpms)
  {
    var walk := TempoWalk(offset, bpms, 0, 0, bpms[0].bpm);
    var last := bpms[|bpms| - 1];
    walk.time + (if last.offset < offset then Elapsed(walk.done, offset, last.bpm) else 0.0)
  }

  /** The stop loop: adds stops in list order until the first one at or
      past `offset`. */
  function StopWalk(offset: int, stops: seq<Stop>): real
  {
    if |stops| == 0 || stops[0].offset >= offset then 0.0
    else stops[0].time + StopWalk(offset, stops[1..])
  }

  /** The value of `offset_to_time(offset, bpms, stops)`. */
  function TimeOf(offset: int, bpms: seq<Bpm>, stops: seq<Stop>): real
    requires |bpms| > 0 && NonZeroTempos(bpms)
  {
    TempoTime(offset, bpms) + StopWalk(offset, stops)
  }

  /** `offset_to_time`: the tempo loop, the extrapolation past the last
      breakpoint, then the stop loop. */
  method OffsetToTime(offset: int, bpms: seq<Bpm>, stops: seq<Stop>) returns (time: real)
    requires |bpms| > 0 && NonZeroTempos(bpms)
    ensures time == TimeOf(offset, bpms, stops)
  {
    var done;
    time, done := WalkTempos(offset, bpms);
    var last := bpms[|bpms| - 1];
    if last.offset < offset {
      var elapsed := (offset - done) as real / BEAT_UNIT as real;
      time := time + 60.0 / last.bpm * elapsed;
    }
    var stopped := AddStops(offset, stops);
    time := time + stopped;
  }

  /** The tempo loop of `offset_to_time`. */
  method WalkTempos(offset: int, bpms: seq<Bpm>) returns (time: real, done: int)
    requires |bpms| > 0 && NonZeroTempos(bpms)
    ensures Walk(time, done) == TempoWalk(offset, bpms, 0, 0, bpms[0].bpm)
  {
    ghost var walk := TempoWalk(offset, bpms, 0, 0, bpms[0].bpm);
    time := 0.0;
    done := 0;
    var prev := bpms[0];
    var i := 0;
    while i < |bpms|
      invariant 0 <= i <= |bpms|
      invariant prev.bpm != 0.0
      invariant time + TempoWalk(offset, bpms, i, done, prev.bpm).time == walk.time
      invariant TempoWalk(offset, bpms, i, done, prev.bpm).done == walk.done
    {
      var bpm := bpms[i];
      if bpm.offset >= offset {
        var elapsed := (offset - done) as real / BEAT_UNIT as real;
        assert TempoWalk(offset, bpms, i, done, prev.bpm) == Walk(Elapsed(done, offset, prev.bpm), done);
        time := time + 60.0 / prev.bpm * elapsed;
        break;
      }
      var elapsed := (bpm.offset - done) as real / BEAT_UNIT as real;
      ghost var rest := TempoWalk(offset, bpms, i + 1, bpm.offset, bpm.bpm);
      assert TempoWalk(offset, bpms, i, done, prev.bpm) == Walk(Elapsed(done, bpm.offset, prev.bpm) + rest.time, rest.done);
      time := time + 60.0 / prev.bpm * elapsed;
      done := bpm.offset;
      prev := bpm;
      i := i + 1;
    }
  }

  /** The stop loop of `offset_to_time`. */
  method AddStops(offset: int, stops: seq<Stop>) returns (total: real)
    ensures total == StopWalk(offset, stops)
  {
    total := 0.0;
    var j := 0;
    while j < |stops|
      invariant 0 <= j <= |stops|
      invariant total + StopWalk(offset, stops[j..]) == StopWalk(offset, stops)
    {
      var stop := stops[j];
      if stop.offset >= offset {
        break;
      }
      total := total + stop.time;
      j := j + 1;
    }
  }

  /** Reference definition of the tempo part on a sorted tempo list: the
      segments between consecutive breakpoints, each at the tempo that opens
      it, the segment holding `offset` cut at `offset`, the last tempo
      running on indefinitely. */
  function SegmentTime(offset: int, bpms: seq<Bpm>, i: nat, done: int, prev: real): real
    requires i <= |bpms| && NonZeroTempos(bpms) && prev != 0.0
    decreases |bpms| - i
  {
    if i == |bpms| || bpms[i].offset >= offset then Elapsed(done, offset, prev)
    else Elapsed(done, bpms[i].offset, prev) + SegmentTime(offset, bpms, i + 1, bpms[i].offset, bpms[i].bpm)
  }

  lemma {:induction false} WalkIsSegments(offset: int, bpms: seq<Bpm>, i: nat, done: int, prev: real)
    requires |bpms| > 0 && i <= |bpms| && NonZeroTempos(bpms) && TemposSorted(bpms) && prev != 0.0
    requires i > 0 ==> prev == bpms[i - 1].bpm && bpms[i - 1].offset < offset
    ensures var walk := TempoWalk(offset, bpms, i, done, prev);
            var last := bpms[|bpms| - 1];
            walk.time + (if last.offset < offset then Elapsed(walk.done, offset, last.bpm) else 0.0)
              == SegmentTime(offset, bpms, i, done, prev)
    decreases |bpms| - i
  {
    if i < |bpms| && bpms[i].offset < offset {
      WalkIsSegments(offset, bpms, i + 1, bpms[i].offset, bpms[i].bpm);
    } else if i < |bpms| {
      assert bpms[i].offset <= bpms[|bpms| - 1].offset;
    }
  }

  /** On a sorted tempo list, the loop of `offset_to_time` computes the
      segment-by-segment integral of the tempo. */
  lemma TempoTimeIsSegments(offset: int, bpms: seq<Bpm>)
    requires |bpms| > 0 && NonZeroTempos(bpms) && TemposSorted(bpms)
    ensures TempoTime(offset, bpms) == SegmentTime(offset, bpms, 0, 0, bpms[0].bpm)
  {
    WalkIsSegments(offset, bpms, 0, 0, bpms[0].bpm);
  }

  /** Between breakpoint k and the next one, time advances at tempo k. */
  lemma {:induction false} SegmentSplit(offset: int, bpms: seq<Bpm>, i: nat, done: int, prev: real, k: nat)
    requires NonZeroTempos(bpms) && TemposSorted(bpms) && prev != 0.0
    requires i <= k < |bpms| && bpms[k].offset <= offset
    requires k + 1 < |bpms| ==> offset <= bpms[k + 1].offset
    ensures SegmentTime(offset, bpms, i, done, prev)
      == SegmentTime(bpms[k].offset, bpms, i, done, prev) + Elapsed(bpms[k].offset, offset, bpms[k].bpm)
    decreases k - i
  {
    var at := bpms[k].offset;
    if offset != at && i < k {
      SegmentSplit(offset, bpms, i + 1, bpms[i].offset, bpms[i].bpm, k);
      if bpms[i].offset >= at {
        assert bpms[i + 1].offset >= bpms[i].offset;
        assert SegmentTime(at, bpms, i + 1, bpms[i].offset, bpms[i].bpm) == Elapsed(at, at, bpms[i].bpm);
      }
    }
  }

  /** Past the last tempo breakpoint, the remaining offset is converted at
      the last tempo. */
  lemma LastTempoExtrapolates(offset: int, bpms: seq<Bpm>)
    requires |bpms| > 0 && NonZeroTempos(bpms) && TemposSorted(bpms)
    requires bpms[|bpms| - 1].offset <= offset
    ensures var last := bpms[|bpms| - 1];
            TempoTime(offset, bpms) == TempoTime(last.offset, bpms) + Elapsed(last.offset, offset, last.bpm)
  {
    var last := bpms[|bpms| - 1];
    TempoTimeIsSegments(offset, bpms);
    TempoTimeIsSegments(last.offset, bpms);
    SegmentSplit(offset, bpms, 0, 0, bpms[0].bpm, |bpms| - 1);
  }

  lemma ElapsedMonotone(from: int, to1: int, to2: int, bpm: real)
    requires bpm > 0.0 && to1 <= to2
    ensures Elapsed(from, to1, bpm) <= Elapsed(from, to2, bpm)
  {
    var rate := 60.0 / bpm;
    assert rate > 0.0;
    var x := (to1 - from) as real / BEAT_UNIT as real;
    var y := (to2 - from) as real / BEAT_UNIT as real;
    assert x <= y;
    assert rate * y - rate * x == rate * (y - x);
    assert rate * (y - x) >= 0.0;
  }

  lemma {:induction false} SegmentNonNegative(offset: int, bpms: seq<Bpm>, i: nat, done: int, prev: real)
    requires i <= |bpms| && PositiveTempos(bpms) && TemposSorted(bpms) && prev > 0.0
    requires done <= offset && (i < |bpms| ==> done <= bpms[i].offset)
    ensures SegmentTime(offset, bpms, i, done, prev) >= 0.0
    decreases |bpms| - i
  {
    ElapsedMonotone(done, done, offset, prev);
    if i < |bpms| && bpms[i].offset < offset {
      ElapsedMonotone(done, done, bpms[i].offset, prev);
      SegmentNonNegative(offset, bpms, i + 1, bpms[i].offset, bpms[i].bpm);
    }
  }

  lemma {:induction false} SegmentMonotone(o1: int, o2: int, bpms: seq<Bpm>, i: nat, done: int, prev: real)
    requires i <= |bpms| && PositiveTempos(bpms) && TemposSorted(bpms) && prev > 0.0
    requires o1 <= o2
    ensures SegmentTime(o1, bpms, i, done, prev) <= SegmentTime(o2, bpms, i, done, prev)
    decreases |bpms| - i
  {
    if i == |bpms| || bpms[i].offset >= o2 {
      ElapsedMonotone(done, o1, o2, prev);
    } else if bpms[i].offset < o1 {
      SegmentMonotone(o1, o2, bpms, i + 1, bpms[i].offset, bpms[i].bpm);
    } else {
      ElapsedMonotone(done, o1, bpms[i].offset, prev);
      SegmentNonNegative(o2, bpms, i + 1, bpms[i].offset, bpms[i].bpm);
    }
  }

  /** Reference definition of the stop part: every stop strictly before
      `offset`, each in full, whatever the order of the list. */
  function StopsBefore(offset: int, stops: seq<Stop>): real
  {
    if |stops| == 0 then 0.0
    else (if stops[0].offset < offset then stops[0].time else 0.0) + StopsBefore(offset, stops[1..])
  }

  lemma {:induction false} NoStopsBefore(offset: int, stops: seq<Stop>)
    requires forall i :: 0 <= i < |stops| ==> stops[i].offset >= offset
    ensures StopsBefore(offset, stops) == 0.0
  {
    if |stops| > 0 {
      NoStopsBefore(offset, stops[1..]);
    }
  }

  /** On a sorted stop list, the stop loop of `offset_to_time` (which breaks
      at the first stop at or past `offset`) adds exactly the stops strictly
      before `offset`. */
  lemma {:induction false} StopWalkIsStopsBefore(offset: int, stops: seq<Stop>)
    requires StopsSorted(stops)
    ensures StopWalk(offset, stops) == StopsBefore(offset, stops)
  {
    if |stops| > 0 {
      if stops[0].offset >= offset {
        NoStopsBefore(offset, stops[1..]);
      } else {
        StopWalkIsStopsBefore(offset, stops[1..]);
      }
    }
  }

  /** A stop at (or after) the target offset, appended to any stop list,
      adds nothing to the time of that offset. */
  lemma {:induction false} StopAtTargetIgnored(offset: int, bpms: seq<Bpm>, stops: seq<Stop>, t: real)
    requires |bpms| > 0 && NonZeroTempos(bpms)
    ensures TimeOf(offset, bpms, stops + [Stop(offset, t)]) == TimeOf(offset, bpms, stops)
  {
    StopWalkAppendLate(offset, stops, Stop(offset, t));
  }

  lemma {:induction false} StopWalkAppendLate(offset: int, stops: seq<Stop>, late: Stop)
    requires late.offset >= offset
    ensures StopWalk(offset, stops + [late]) == StopWalk(offset, stops)
  {
    if |stops| > 0 {
      assert (stops + [late])[1..] == stops[1..] + [late];
      StopWalkAppendLate(offset, stops[1..], late);
    }
  }

  lemma {:induction false} StopsBeforeMonotone(o1: int, o2: int, stops: seq<Stop>)
    requires o1 <= o2 && NonNegativeStops(stops)
    ensures StopsBefore(o1, stops) <= StopsBefore(o2, stops)
  {
    if |stops| > 0 {
      StopsBeforeMonotone(o1, o2, stops[1..]);
    }
  }

  /** With stops sorted, `offset_to_time` is the tempo integral plus every
      stop strictly before the offset. */
  lemma TimeOfSortedStops(offset: int, bpms: seq<Bpm>, stops: seq<Stop>)
    requires |bpms| > 0 && NonZeroTempos(bpms) && StopsSorted(stops)
    ensures TimeOf(offset, bpms, stops) == TempoTime(offset, bpms) + StopsBefore(offset, stops)
  {
    StopWalkIsStopsBefore(offset, stops);
  }

  /** `offset_to_time` never goes backwards, given positive tempos, both
      lists sorted by offset and non-negative stop times. */
  lemma OffsetToTimeMonotone(o1: int, o2: int, bpms: seq<Bpm>, stops: seq<Stop>)
    requires |bpms| > 0 && PositiveTempos(bpms) && TemposSorted(bpms)
    requires StopsSorted(stops) && NonNegativeStops(stops)
    requires o1 <= o2
    ensures TimeOf(o1, bpms, stops) <= TimeOf(o2, bpms, stops)
  {
    TempoTimeIsSegments(o1, bpms);
    TempoTimeIsSegments(o2, bpms);
    SegmentMonotone(o1, o2, bpms, 0, 0, bpms[0].bpm);
    TimeOfSortedStops(o1, bpms, stops);
    TimeOfSortedStops(o2, bpms, stops);
    StopsBeforeMonotone(o1, o2, stops);
  }

  /** One tempo from offset 0 and no stops: time is proportional to offset,
      60/bpm seconds per beat. */
  lemma SingleTempoTime(offset: int, bpm: real)
    requires bpm != 0.0
    ensures TimeOf(offset, [Bpm(0, bpm)], []) == 60.0 / bpm * (offset as real / BEAT_UNIT as real)
  {
    var bpms := [Bpm(0, bpm)];
    if offset <= 0 {
      assert TempoWalk(offset, bpms, 0, 0, bpm) == Walk(Elapsed(0, offset, bpm), 0);
    } else {
      assert TempoWalk(offset, bpms, 1, 0, bpm) == Walk(0.0, 0);
      assert TempoWalk(offset, bpms, 0, 0, bpm) == Walk(Elapsed(0, 0, bpm) + 0.0, 0);
    }
  }

  lemma SingleTempoOneBeat(bpm: real)
    requires bpm != 0.0
    ensures TimeOf(0, [Bpm(0, bpm)], []) == 0.0
    ensures TimeOf(BEAT_UNIT, [Bpm(0, bpm)], []) == 60.0 / bpm
  {
    SingleTempoTime(0, bpm);
    SingleTempoTime(BEAT_UNIT, bpm);
  }

  /** Offset 0 is at time 0 when the first tempo starts there and no stop
      lies before it. */
  lemma TimeAtZero(bpms: seq<Bpm>, stops: seq<Stop>)
    requires |bpms| > 0 && NonZeroTempos(bpms) && bpms[0].offset == 0
    requires forall i :: 0 <= i < |stops| ==> stops[i].offset >= 0
    ensures TimeOf(0, bpms, stops) == 0.0
  {
  }
}
