/** The groove-radar scores of `src/groove_radar.rs`: note density per
    tempo section, the average tempo, and the three piecewise-linear
    remaps; freeze and chaos are not computed by the source and are 0.

    Seconds, tempos and scores are reals; `as i32` is modelled by
    `AsI32`. `Division::is_jump` and `Division::is_shock` are not part of
    this model: they are the parameters `isJump` and `isShock`. */
module Radar {
  import opened Arrows
  import opened Gimmick
  import opened Timing

  datatype GrooveRadar = GrooveRadar(stream: int, voltage: int, air: int, freeze: int, chaos: int)

  predicate OffsetsNonDecreasing(notes: seq<Division>)
  {
    forall i, j :: 0 <= i < j < |notes| ==> notes[i].offset <= notes[j].offset
  }

  // ---------------------------------------------------------------------
  // Note density

  /** What `count_subsequent_notes(notes, offset)` counts: divisions after
      `offset` in list order, stopping after the first one a whole measure
      or more past it. */
  function SubsequentNotes(notes: seq<Division>, offset: int): nat
  {
    if |notes| == 0 then 0
    else if notes[0].offset <= offset then SubsequentNotes(notes[1..], offset)
    else if notes[0].offset >= offset + NOTE_UNIT then 1
    else 1 + SubsequentNotes(notes[1..], offset)
  }

  /** `count_subsequent_notes`. */
  method CountSubsequentNotes(notes: seq<Division>, offset: int) returns (count: nat)
    ensures count == SubsequentNotes(notes, offset)
  {
    count := 0;
    var i := 0;
    while i < |notes|
      invariant 0 <= i <= |notes|
      invariant count + SubsequentNotes(notes[i..], offset) == SubsequentNotes(notes, offset)
    {
      var division := notes[i];
      assert notes[i..][1..] == notes[i + 1..];
      i := i + 1;
      if division.offset <= offset {
        continue;
      }
      count := count + 1;
      if division.offset >= offset + NOTE_UNIT {
        break;
      }
    }
  }

  /** Number of divisions after `offset`. */
  function CountAfter(notes: seq<Division>, offset: int): nat
  {
    if |notes| == 0 then 0
    else (if notes[0].offset > offset then 1 else 0) + CountAfter(notes[1..], offset)
  }

  /** Number of divisions strictly between `lo` and `hi`. */
  function CountBetween(notes: seq<Division>, lo: int, hi: int): nat
  {
    if |notes| == 0 then 0
    else (if lo < notes[0].offset < hi then 1 else 0) + CountBetween(notes[1..], lo, hi)
  }

  predicate AnyAtOrBeyond(notes: seq<Division>, bound: int)
  {
    exists i :: 0 <= i < |notes| && notes[i].offset >= bound
  }

  /** Only divisions after `offset` are counted, and the count is 0 exactly
      when there are none. */
  lemma {:induction false} SubsequentAtMostAfter(notes: seq<Division>, offset: int)
    ensures SubsequentNotes(notes, offset) <= CountAfter(notes, offset)
    ensures SubsequentNotes(notes, offset) == 0 <==> CountAfter(notes, offset) == 0
  {
    if |notes| > 0 {
      SubsequentAtMostAfter(notes[1..], offset);
    }
  }

  lemma {:induction false} NoneBetweenPastBound(notes: seq<Division>, lo: int, hi: int)
    requires forall i :: 0 <= i < |notes| ==> notes[i].offset >= hi
    ensures CountBetween(notes, lo, hi) == 0
  {
    if |notes| > 0 {
      NoneBetweenPastBound(notes[1..], lo, hi);
    }
  }

  /** On offset-sorted divisions, `count_subsequent_notes` counts every
      division within the measure after `offset`, plus the first one at or
      beyond a measure past it when there is one. */
  lemma {:induction false} SubsequentOnSorted(notes: seq<Division>, offset: int)
    requires OffsetsNonDecreasing(notes)
    ensures SubsequentNotes(notes, offset)
      == CountBetween(notes, offset, offset + NOTE_UNIT) + (if AnyAtOrBeyond(notes, offset + NOTE_UNIT) then 1 else 0)
  {
    if |notes| > 0 {
      var bound := offset + NOTE_UNIT;
      assert forall i :: 0 <= i < |notes| - 1 ==> notes[1..][i] == notes[i + 1];
      if notes[0].offset >= bound {
        NoneBetweenPastBound(notes[1..], offset, bound);
        assert AnyAtOrBeyond(notes, bound);
      } else {
        SubsequentOnSorted(notes[1..], offset);
        assert AnyAtOrBeyond(notes, bound) <==> AnyAtOrBeyond(notes[1..], bound);
      }
    }
  }

  /** A division never counts itself: fewer divisions lie after one of the
      list's own offsets than the list holds. */
  lemma {:induction false} CountAfterOwnOffset(notes: seq<Division>, j: nat)
    requires j < |notes|
    ensures CountAfter(notes, notes[j].offset) < |notes|
  {
    if j == 0 {
      CountAfterAtMost(notes[1..], notes[0].offset);
    } else {
      CountAfterOwnOffset(notes[1..], j - 1);
    }
  }

  lemma {:induction false} CountAfterAtMost(notes: seq<Division>, offset: int)
    ensures CountAfter(notes, offset) <= |notes|
  {
    if |notes| > 0 {
      CountAfterAtMost(notes[1..], offset);
    }
  }

  // ---------------------------------------------------------------------
  // Tempo sections

  /** The divisions with `lo <= offset < hi`, in their original order. */
  function SectionOf(notes: seq<Division>, lo: int, hi: int): (r: seq<Division>)
    ensures |r| <= |notes|
    ensures forall d :: d in r <==> d in notes && lo <= d.offset < hi
  {
    if |notes| == 0 then []
    else
      var rest := SectionOf(notes[..|notes| - 1], lo, hi);
      var last := notes[|notes| - 1];
      assert notes == notes[..|notes| - 1] + [last];
      if lo <= last.offset < hi then rest + [last] else rest
  }

  /** The indices of the divisions with `lo <= offset < hi`, ascending. */
  function WindowIndices(notes: seq<Division>, lo: int, hi: int): (r: seq<nat>)
    ensures |r| <= |notes|
    ensures forall k :: 0 <= k < |r| ==> r[k] < |notes| && lo <= notes[r[k]].offset < hi
    ensures forall k, l :: 0 <= k < l < |r| ==> r[k] < r[l]
    ensures forall j :: 0 <= j < |notes| && lo <= notes[j].offset < hi ==> j in r
  {
    if |notes| == 0 then []
    else
      var rest := WindowIndices(notes[..|notes| - 1], lo, hi);
      assert forall j :: 0 <= j < |notes| - 1 ==> notes[..|notes| - 1][j] == notes[j];
      if lo <= notes[|notes| - 1].offset < hi then rest + [|notes| - 1] else rest
  }

  /** A section is the list itself taken at the ascending indices of the
      divisions in range: original order and repetitions are kept. */
  lemma {:induction false} SectionOfIndices(notes: seq<Division>, lo: int, hi: int)
    ensures var r := SectionOf(notes, lo, hi);
            var idx := WindowIndices(notes, lo, hi);
            |r| == |idx| && forall k :: 0 <= k < |r| ==> r[k] == notes[idx[k]]
  {
    if |notes| > 0 {
      var n := |notes| - 1;
      var front := notes[..n];
      SectionOfIndices(front, lo, hi);
      var r, idx := SectionOf(front, lo, hi), WindowIndices(front, lo, hi);
      forall k | 0 <= k < |r|
        ensures r[k] == notes[idx[k]]
      {
        assert front[idx[k]] == notes[idx[k]];
      }
      if lo <= notes[n].offset < hi {
        assert SectionOf(notes, lo, hi) == r + [notes[n]];
        assert WindowIndices(notes, lo, hi) == idx + [n];
      } else {
        assert SectionOf(notes, lo, hi) == r;
        assert WindowIndices(notes, lo, hi) == idx;
      }
    }
  }

  /** The upper boundary of section `k`: the next tempo's offset, or the
      last division's offset for the last section. */
  function SectionEnd(notes: seq<Division>, bpms: seq<Bpm>, k: nat): int
    requires |notes| > 0 && k < |bpms|
  {
    if k + 1 < |bpms| then bpms[k + 1].offset else notes[|notes| - 1].offset
  }

  /** `create_bpm_section_list`: one section per tempo, section k holding the
      divisions from tempo k's offset up to (not including) the next
      boundary. */
  function CreateBpmSectionList(notes: seq<Division>, bpms: seq<Bpm>): (sections: seq<seq<Division>>)
    requires |notes| > 0
    ensures |sections| == |bpms|
    ensures forall k, d :: 0 <= k < |bpms| ==>
      (d in sections[k] <==> d in notes && bpms[k].offset <= d.offset < SectionEnd(notes, bpms, k))
  {
    var partitions := seq(|bpms|, i requires 0 <= i < |bpms| => bpms[i].offset) + [notes[|notes| - 1].offset];
    assert forall k :: 0 <= k < |bpms| ==>
      partitions[k] == bpms[k].offset && partitions[k + 1] == SectionEnd(notes, bpms, k);
    seq(|bpms|, k requires 0 <= k < |bpms| => SectionOf(notes, partitions[k], partitions[k + 1]))
  }

  /** When no tempo starts after the last division, every sectioned division
      lies strictly before the last division's offset: a division at that
      offset belongs to no section. */
  lemma LastOffsetInNoSection(notes: seq<Division>, bpms: seq<Bpm>)
    requires |notes| > 0
    requires forall i :: 0 <= i < |bpms| ==> bpms[i].offset <= notes[|notes| - 1].offset
    ensures var sections := CreateBpmSectionList(notes, bpms);
            forall k, d :: 0 <= k < |sections| && d in sections[k] ==> d.offset < notes[|notes| - 1].offset
  {
  }

  /** Section k is `notes` taken at the ascending indices of the divisions
      from tempo k's offset up to its boundary: in original order, with
      repetitions kept. */
  lemma BpmSectionIndices(notes: seq<Division>, bpms: seq<Bpm>, k: nat)
    requires |notes| > 0 && k < |bpms|
    ensures var section := CreateBpmSectionList(notes, bpms)[k];
            var idx := WindowIndices(notes, bpms[k].offset, SectionEnd(notes, bpms, k));
            |section| == |idx| && forall i :: 0 <= i < |section| ==> section[i] == notes[idx[i]]
  {
    SectionOfIndices(notes, bpms[k].offset, SectionEnd(notes, bpms, k));
  }

  /** The largest `count_subsequent_notes(section, d.offset)` over the
      divisions `ds`. */
  function MaxSubsequent(ds: seq<Division>, section: seq<Division>): (r: nat)
    requires |ds| > 0
    ensures exists i :: 0 <= i < |ds| && r == SubsequentNotes(section, ds[i].offset)
    ensures forall i :: 0 <= i < |ds| ==> SubsequentNotes(section, ds[i].offset) <= r
  {
    if |ds| == 1 then SubsequentNotes(section, ds[0].offset)
    else
      var first := SubsequentNotes(section, ds[0].offset);
      var rest := MaxSubsequent(ds[1..], section);
      assert forall i :: 1 <= i < |ds| ==> ds[i] == ds[1..][i - 1];
      if first >= rest then first else rest
  }

  /** `calc_max_notes_in_bpm_section`: 0 for an empty section, otherwise the
      largest count of subsequent notes from one of its own divisions, which
      is less than its size. */
  function CalcMaxNotesInBpmSection(section: seq<Division>): (r: nat)
    ensures |section| == 0 ==> r == 0
    ensures |section| > 0 ==>
      && r < |section|
      && (exists i :: 0 <= i < |section| && r == SubsequentNotes(section, section[i].offset))
      && forall i :: 0 <= i < |section| ==> SubsequentNotes(section, section[i].offset) <= r
  {
    if |section| == 0 then 0
    else
      var r := MaxSubsequent(section, section);
      var i :| 0 <= i < |section| && r == SubsequentNotes(section, section[i].offset);
      SubsequentAtMostAfter(section, section[i].offset);
      CountAfterOwnOffset(section, i);
      r
  }

  /** The largest section density among `sections`. */
  function MaxSectionDensity(sections: seq<seq<Division>>): (r: nat)
    requires |sections| > 0
    ensures exists k :: 0 <= k < |sections| && r == CalcMaxNotesInBpmSection(sections[k])
    ensures forall k :: 0 <= k < |sections| ==> CalcMaxNotesInBpmSection(sections[k]) <= r
  {
    if |sections| == 1 then CalcMaxNotesInBpmSection(sections[0])
    else
      var first := CalcMaxNotesInBpmSection(sections[0]);
      var rest := MaxSectionDensity(sections[1..]);
      assert forall k :: 1 <= k < |sections| ==> sections[k] == sections[1..][k - 1];
      if first >= rest then first else rest
  }

  /** `calc_max_note_density`: the densest tempo section's density, which is
      always less than the number of divisions. */
  function CalcMaxNoteDensity(notes: seq<Division>, bpms: seq<Bpm>): (r: nat)
    requires |notes| > 0 && |bpms| > 0
    ensures r < |notes|
    ensures var sections := CreateBpmSectionList(notes, bpms);
            && (exists k :: 0 <= k < |bpms| && r == CalcMaxNotesInBpmSection(sections[k]))
            && forall k :: 0 <= k < |bpms| ==> CalcMaxNotesInBpmSection(sections[k]) <= r
  {
    var sections := CreateBpmSectionList(notes, bpms);
    var r := MaxSectionDensity(sections);
    var k :| 0 <= k < |sections| && r == CalcMaxNotesInBpmSection(sections[k]);
    assert |sections[k]| <= |notes|;
    r
  }

  // ---------------------------------------------------------------------
  // Conversion to i32

  const I32_MIN: int := -0x8000_0000
  const I32_MAX: int := 0x7fff_ffff

  /** Rounding toward zero. */
  function TruncateTowardZero(x: real): (r: int)
    ensures x >= 0.0 ==> 0 <= r && r as real <= x < r as real + 1.0
    ensures x < 0.0 ==> r <= 0 && r as real - 1.0 < x <= r as real
  {
    if x >= 0.0 then x.Floor else -((-x).Floor)
  }

  /** `x as i32` for a real `x`: truncation toward zero, saturating at the
      i32 bounds. */
  function AsI32(x: real): (r: int)
    ensures I32_MIN <= r <= I32_MAX
  {
    var t := TruncateTowardZero(x);
    if t < I32_MIN then I32_MIN else if t > I32_MAX then I32_MAX else t
  }

  lemma AsI32Monotone(x: real, y: real)
    requires x <= y
    ensures AsI32(x) <= AsI32(y)
  {
  }

  /** For a positive whole threshold, the converted score reaches it exactly
      when the real score does. */
  lemma AsI32AtLeast(x: real, c: int)
    requires 0 < c <= I32_MAX
    ensures AsI32(x) >= c <==> x >= c as real
  {
  }

  /** The converted score is never negative for a non-negative real score. */
  lemma AsI32NonNegative(x: real)
    requires x >= 0.0
    ensures AsI32(x) >= 0
  {
  }

  // ---------------------------------------------------------------------
  // Stream

  /** The stream remap: two linear pieces meeting at 300 notes per minute. */
  function StreamRemap(npm: real): real
  {
    if npm < 300.0 then npm / 3.0 else (npm - 139.0) * 100.0 / 161.0
  }

  /** Both pieces of the stream remap give 100 at 300; it is non-decreasing,
      below 100 exactly below the breakpoint, and never negative on a
      non-negative rate. */
  lemma StreamRemapShape(x: real, y: real)
    ensures 300.0 / 3.0 == StreamRemap(300.0) == 100.0
    ensures x <= y ==> StreamRemap(x) <= StreamRemap(y)
    ensures StreamRemap(x) < 100.0 <==> x < 300.0
    ensures x >= 0.0 ==> StreamRemap(x) >= 0.0
  {
  }

  /** Divisions per minute between the first and the last division. */
  function NotesPerMinute(notes: seq<Division>): real
    requires |notes| > 0 && notes[|notes| - 1].time - notes[0].time > 0.0
  {
    (|notes| as real / (notes[|notes| - 1].time - notes[0].time)) * 60.0
  }

  /** `calc_stream`: at least 100 exactly when the chart has 300 or more
      divisions per minute. */
  function CalcStream(notes: seq<Division>): (r: int)
    requires |notes| > 0 && notes[|notes| - 1].time - notes[0].time > 0.0
    ensures r >= 0
    ensures r >= 100 <==> NotesPerMinute(notes) >= 300.0
  {
    var npm := NotesPerMinute(notes);
    StreamRemapShape(npm, npm);
    AsI32AtLeast(StreamRemap(npm), 100);
    AsI32(StreamRemap(npm))
  }

  // ---------------------------------------------------------------------
  // Average tempo and voltage

  /** The window boundaries of `calc_average_bpm`: each tempo's offset, then
      `endOffset` (the offset of the tempo-0 marker it appends). */
  function Boundary(bpms: seq<Bpm>, endOffset: int, k: nat): int
    requires k <= |bpms|
  {
    if k < |bpms| then bpms[k].offset else endOffset
  }

  /** The times `offset_to_time` gives the window boundaries. */
  function BoundaryTimes(endOffset: int, bpms: seq<Bpm>, stops: seq<Stop>): seq<real>
    requires NonZeroTempos(bpms)
  {
    seq(|bpms| + 1, k requires 0 <= k <= |bpms| =>
      if |bpms| > 0 then TimeOf(Boundary(bpms, endOffset, k), bpms, stops) else 0.0)
  }

  /** What one window adds to `num_beats`: the seconds from `start` to
      `stop` times the window's tempo. */
  function Weight(start: real, stop: real, bpm: real): real
  {
    (stop - start) * bpm
  }

  /** The sum `calc_average_bpm` accumulates over its first `n` windows. */
  function WeightedBeats(times: seq<real>, bpms: seq<Bpm>, n: nat): real
    requires n <= |bpms| && |times| == |bpms| + 1
  {
    if n == 0 then 0.0
    else WeightedBeats(times, bpms, n - 1) + Weight(times[n - 1], times[n], bpms[n - 1].bpm)
  }

  /** The value of `calc_average_bpm(notes, bpms, stops)`. */
  function AverageBpm(notes: seq<Division>, bpms: seq<Bpm>, stops: seq<Stop>): real
    requires |notes| > 0 && NonZeroTempos(bpms) && notes[|notes| - 1].time != 0.0
  {
    var times := BoundaryTimes(notes[|notes| - 1].offset, bpms, stops);
    WeightedBeats(times, bpms, |bpms|) / notes[|notes| - 1].time
  }

  /** `calc_average_bpm`. */
  method CalcAverageBpm(notes: seq<Division>, bpms: seq<Bpm>, stops: seq<Stop>) returns (average: real)
    requires |notes| > 0 && NonZeroTempos(bpms) && notes[|notes| - 1].time != 0.0
    ensures average == AverageBpm(notes, bpms, stops)
  {
    var musicLength := notes[|notes| - 1].time;
    var end := Bpm(notes[|notes| - 1].offset, 0.0);
    var bpmsWithEnd := bpms + [end];
    ghost var times := BoundaryTimes(end.offset, bpms, stops);
    var numBeats := 0.0;
    var i := 0;
    while i + 1 < |bpmsWithEnd|
      invariant 0 <= i <= |bpms|
      invariant numBeats == WeightedBeats(times, bpms, i)
    {
      var current, next := bpmsWithEnd[i], bpmsWithEnd[i + 1];
      assert current.offset == Boundary(bpms, end.offset, i) && current.bpm == bpms[i].bpm;
      assert next.offset == Boundary(bpms, end.offset, i + 1);
      var start := OffsetToTime(current.offset, bpms, stops);
      var stop := OffsetToTime(next.offset, bpms, stops);
      assert start == times[i] && stop == times[i + 1];
      numBeats := numBeats + Weight(start, stop, current.bpm);
      i := i + 1;
    }
    average := numBeats / musicLength;
  }

  /** With one tempo from offset 0, no stops, and the last division timed by
      `offset_to_time`, the average tempo is that tempo. */
  lemma AverageBpmSingleTempo(notes: seq<Division>, bpm: real)
    requires |notes| > 0 && bpm != 0.0
    requires notes[|notes| - 1].time == TimeOf(notes[|notes| - 1].offset, [Bpm(0, bpm)], [])
    requires notes[|notes| - 1].time > 0.0
    ensures AverageBpm(notes, [Bpm(0, bpm)], []) == bpm
  {
    var bpms := [Bpm(0, bpm)];
    var length := notes[|notes| - 1].time;
    var times := BoundaryTimes(notes[|notes| - 1].offset, bpms, []);
    SingleTempoOneBeat(bpm);
    assert times[0] == 0.0 && times[1] == length;
    assert WeightedBeats(times, bpms, 1) == length * bpm;
  }

  /** Window k (counted from 1) weighs 60 times the beats it spans. */
  predicate WindowIsBeats(times: seq<real>, bpms: seq<Bpm>, endOffset: int, k: nat)
    requires 0 < k <= |bpms| && |times| == |bpms| + 1
  {
    Weight(times[k - 1], times[k], bpms[k - 1].bpm)
      == 60.0 * ((Boundary(bpms, endOffset, k) - bpms[k - 1].offset) as real / BEAT_UNIT as real)
  }

  /** When each window weighs 60 times the beats it spans, the first n
      windows weigh 60 times the beats from the first tempo to boundary n. */
  lemma {:induction false} WeightedBeatsTelescope(times: seq<real>, bpms: seq<Bpm>, endOffset: int, n: nat)
    requires 0 < n <= |bpms| && |times| == |bpms| + 1
    requires forall k :: 0 < k <= |bpms| ==> WindowIsBeats(times, bpms, endOffset, k)
    ensures WeightedBeats(times, bpms, n)
      == 60.0 * ((Boundary(bpms, endOffset, n) - bpms[0].offset) as real / BEAT_UNIT as real)
  {
    assert WindowIsBeats(times, bpms, endOffset, n);
    if n > 1 {
      WeightedBeatsTelescope(times, bpms, endOffset, n - 1);
      var a := (bpms[n - 1].offset - bpms[0].offset) as real / BEAT_UNIT as real;
      var b := (Boundary(bpms, endOffset, n) - bpms[n - 1].offset) as real / BEAT_UNIT as real;
      assert a + b == (Boundary(bpms, endOffset, n) - bpms[0].offset) as real / BEAT_UNIT as real;
    }
  }

  /** Without stops, on a sorted tempo list with no tempo after `endOffset`,
      window k weighs 60 times the beats it spans. */
  lemma WindowCountsBeats(endOffset: int, bpms: seq<Bpm>, k: nat)
    requires 0 < k <= |bpms| && NonZeroTempos(bpms) && TemposSorted(bpms)
    requires forall j :: 0 <= j < |bpms| ==> bpms[j].offset <= endOffset
    ensures WindowIsBeats(BoundaryTimes(endOffset, bpms, []), bpms, endOffset, k)
  {
    var times := BoundaryTimes(endOffset, bpms, []);
    var from, to := bpms[k - 1].offset, Boundary(bpms, endOffset, k);
    assert Boundary(bpms, endOffset, k - 1) == from;
    WindowTime(to, bpms, k - 1);
    var seconds := times[k] - times[k - 1];
    assert seconds == Elapsed(from, to, bpms[k - 1].bpm);
    ElapsedTimesTempo(from, to, bpms[k - 1].bpm);
  }

  /** Without stops, on a sorted tempo list starting at offset 0 that has
      no tempo after the last division, `calc_average_bpm` is the number of
      beats up to the last division per minute of its time. */
  lemma AverageBpmIsBeatRate(notes: seq<Division>, bpms: seq<Bpm>)
    requires |notes| > 0 && |bpms| > 0 && NonZeroTempos(bpms) && TemposSorted(bpms)
    requires bpms[0].offset == 0 && notes[|notes| - 1].time != 0.0
    requires forall k :: 0 <= k < |bpms| ==> bpms[k].offset <= notes[|notes| - 1].offset
    ensures AverageBpm(notes, bpms, [])
      == 60.0 * (notes[|notes| - 1].offset as real / BEAT_UNIT as real) / notes[|notes| - 1].time
  {
    var endOffset := notes[|notes| - 1].offset;
    var times := BoundaryTimes(endOffset, bpms, []);
    forall k | 0 < k <= |bpms|
      ensures WindowIsBeats(times, bpms, endOffset, k)
    {
      WindowCountsBeats(endOffset, bpms, k);
    }
    WeightedBeatsTelescope(times, bpms, endOffset, |bpms|);
  }

  /** Without stops, the seconds from tempo i's offset to a later offset
      within its window are those at tempo i. */
  lemma WindowTime(next: int, bpms: seq<Bpm>, i: nat)
    requires i < |bpms| && NonZeroTempos(bpms) && TemposSorted(bpms)
    requires bpms[i].offset <= next && (i + 1 < |bpms| ==> next <= bpms[i + 1].offset)
    ensures TimeOf(next, bpms, []) - TimeOf(bpms[i].offset, bpms, [])
      == Elapsed(bpms[i].offset, next, bpms[i].bpm)
  {
    TempoTimeIsSegments(next, bpms);
    TempoTimeIsSegments(bpms[i].offset, bpms);
    SegmentSplit(next, bpms, 0, 0, bpms[0].bpm, i);
  }

  /** Seconds at a tempo times that tempo is 60 times the beats covered. */
  lemma ElapsedTimesTempo(from: int, to: int, bpm: real)
    requires bpm != 0.0
    ensures Elapsed(from, to, bpm) * bpm == 60.0 * ((to - from) as real / BEAT_UNIT as real)
  {
    var beats := (to - from) as real / BEAT_UNIT as real;
    assert 60.0 / bpm * beats * bpm == 60.0 / bpm * bpm * beats;
  }

  /** The voltage remap: two linear pieces meeting at 600. */
  function VoltageRemap(x: real): real
  {
    if x < 600.0 then x / 6.0 else (x + 594.0) * 100.0 / 1194.0
  }

  /** Both pieces of the voltage remap give 100 at 600; it is
      non-decreasing and below 100 exactly below the breakpoint. */
  lemma VoltageRemapShape(x: real, y: real)
    ensures 600.0 / 6.0 == VoltageRemap(600.0) == 100.0
    ensures x <= y ==> VoltageRemap(x) <= VoltageRemap(y)
    ensures VoltageRemap(x) < 100.0 <==> x < 600.0
  {
  }

  /** Peak density scaled by the average tempo: `max_density_per_min`. */
  function MaxDensityPerMinute(notes: seq<Division>, bpms: seq<Bpm>, stops: seq<Stop>): real
    requires |notes| > 0 && |bpms| > 0 && NonZeroTempos(bpms) && notes[|notes| - 1].time != 0.0
  {
    CalcMaxNoteDensity(notes, bpms) as real * AverageBpm(notes, bpms, stops) / 4.0
  }

  /** `calc_voltage`: at least 100 exactly when the peak density per minute
      reaches 600. */
  function CalcVoltage(notes: seq<Division>, bpms: seq<Bpm>, stops: seq<Stop>): (r: int)
    requires |notes| > 0 && |bpms| > 0 && NonZeroTempos(bpms) && notes[|notes| - 1].time != 0.0
    ensures r >= 100 <==> MaxDensityPerMinute(notes, bpms, stops) >= 600.0
  {
    var x := MaxDensityPerMinute(notes, bpms, stops);
    VoltageRemapShape(x, x);
    AsI32AtLeast(VoltageRemap(x), 100);
    AsI32(VoltageRemap(x))
  }

  // ---------------------------------------------------------------------
  // Air

  /** Number of divisions satisfying `p`. */
  function CountWhere(notes: seq<Division>, p: Division -> bool): (n: nat)
    ensures n <= |notes|
  {
    if |notes| == 0 then 0 else (if p(notes[0]) then 1 else 0) + CountWhere(notes[1..], p)
  }

  /** The air remap: two linear pieces meeting at 55. */
  function AirRemap(x: real): real
  {
    if x < 55.0 then x * 20.0 / 11.0 else (x - 1.0) * 50.0 / 27.0
  }

  /** Both pieces of the air remap give 100 at 55; it is non-decreasing,
      below 100 exactly below the breakpoint, and never negative on a
      non-negative rate. */
  lemma AirRemapShape(x: real, y: real)
    ensures 55.0 * 20.0 / 11.0 == AirRemap(55.0) == 100.0
    ensures x <= y ==> AirRemap(x) <= AirRemap(y)
    ensures AirRemap(x) < 100.0 <==> x < 55.0
    ensures x >= 0.0 ==> AirRemap(x) >= 0.0
  {
  }

  /** Jumps plus shocks per minute of playing time. */
  function JumpsPerMinute(notes: seq<Division>, isJump: Division -> bool, isShock: Division -> bool): real
    requires |notes| > 0 && notes[|notes| - 1].time > 0.0
  {
    ((CountWhere(notes, isJump) + CountWhere(notes, isShock)) as real / notes[|notes| - 1].time) * 60.0
  }

  /** `calc_air`: never negative, and at least 100 exactly when jumps and
      shocks reach 55 per minute. */
  function CalcAir(notes: seq<Division>, isJump: Division -> bool, isShock: Division -> bool): (r: int)
    requires |notes| > 0 && notes[|notes| - 1].time > 0.0
    ensures r >= 0
    ensures r >= 100 <==> JumpsPerMinute(notes, isJump, isShock) >= 55.0
  {
    var x := JumpsPerMinute(notes, isJump, isShock);
    AirRemapShape(x, x);
    AsI32AtLeast(AirRemap(x), 100);
    AsI32(AirRemap(x))
  }

  // ---------------------------------------------------------------------
  // Freeze, chaos and the radar

  /** `calc_freeze`: not computed by the source; always 0. */
  function CalcFreeze(notes: seq<Division>): (r: int)
    ensures r == 0
  {
    0
  }

  /** `calc_chaos`: not computed by the source; always 0. */
  function CalcChaos(notes: seq<Division>): (r: int)
    ensures r == 0
  {
    0
  }

  /** `get_groove_radar`: the five scores, freeze and chaos always 0. */
  function GetGrooveRadar(notes: seq<Division>, bpms: seq<Bpm>, stops: seq<Stop>,
                          isJump: Division -> bool, isShock: Division -> bool): (r: GrooveRadar)
    requires |notes| > 0 && |bpms| > 0 && NonZeroTempos(bpms)
    requires notes[|notes| - 1].time - notes[0].time > 0.0 && notes[|notes| - 1].time > 0.0
    ensures r.freeze == 0 && r.chaos == 0
    ensures r.stream >= 0 && r.air >= 0
    ensures r.stream == CalcStream(notes)
    ensures r.voltage == CalcVoltage(notes, bpms, stops)
    ensures r.air == CalcAir(notes, isJump, isShock)
  {
    GrooveRadar(
      CalcStream(notes),
      CalcVoltage(notes, bpms, stops),
      CalcAir(notes, isJump, isShock),
      CalcFreeze(notes),
      CalcChaos(notes))
  }
}
