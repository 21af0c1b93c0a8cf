/** `str_to_notes` of `src/chart.rs`: measures laid end to end, hold ends
    folded into their holds, and every kept division timestamped.

    `bar_to_divisions` and `find_freeze_end` are not part of this model:
    they are the parameters `barToDivisions` and `findFreezeEnd`, about which
    nothing is assumed. */
module Timeline {
  import opened Wrappers
  import opened Strings
  import opened Arrows
  import opened Gimmick
  import opened Timing

  /** `bar_to_divisions(rows, offset)`: the divisions of one measure. */
  type BarDecoder = (seq<string>, int) -> seq<Division>

  /** `find_freeze_end(notes, offset, direction)`: where a hold ends. */
  type FreezeEndFinder = (seq<Division>, int, Direction) -> int

  /** The `assert_ne!` of `str_to_notes`: a decoded division had no arrows. */
  datatype TimelineError = EmptyDivision

  /** The non-empty strings of `parts`, in order. */
  function NonEmpty(parts: seq<string>): (r: seq<string>)
    ensures |r| <= |parts|
    ensures forall line :: line in r <==> line in parts && |line| > 0
  {
    if |parts| == 0 then []
    else
      var rest := NonEmpty(parts[..|parts| - 1]);
      var last := parts[|parts| - 1];
      assert forall i :: 0 <= i < |parts| - 1 ==> parts[..|parts| - 1][i] == parts[i];
      if |last| > 0 then rest + [last] else rest
  }

  /** The indices of the non-empty strings of `parts`, ascending. */
  function NonEmptyIndices(parts: seq<string>): (r: seq<nat>)
    ensures |r| <= |parts|
    ensures forall k :: 0 <= k < |r| ==> r[k] < |parts|
    ensures forall j: int :: j in r <==> 0 <= j < |parts| && |parts[j]| > 0
    ensures forall k, l :: 0 <= k < l < |r| ==> r[k] < r[l]
  {
    if |parts| == 0 then []
    else
      var rest := NonEmptyIndices(parts[..|parts| - 1]);
      assert forall j :: 0 <= j < |parts| - 1 ==> parts[..|parts| - 1][j] == parts[j];
      if |parts[|parts| - 1]| > 0 then rest + [|parts| - 1] else rest
  }

  /** The kept lines are `parts` taken at the ascending indices of its
      non-empty strings: original order and repetitions are kept. */
  lemma {:induction false} NonEmptyInOrder(parts: seq<string>)
    ensures var r := NonEmpty(parts);
            var idx := NonEmptyIndices(parts);
            |r| == |idx| && forall k :: 0 <= k < |r| ==> r[k] == parts[idx[k]]
  {
    if |parts| > 0 {
      var n := |parts| - 1;
      var front := parts[..n];
      NonEmptyInOrder(front);
      var r, idx := NonEmpty(front), NonEmptyIndices(front);
      forall k | 0 <= k < |r|
        ensures r[k] == parts[idx[k]]
      {
        assert front[idx[k]] == parts[idx[k]];
      }
      if |parts[n]| > 0 {
        assert NonEmpty(parts) == r + [parts[n]];
        assert NonEmptyIndices(parts) == idx + [n];
      } else {
        assert NonEmpty(parts) == r;
        assert NonEmptyIndices(parts) == idx;
      }
    }
  }

  /** The grid rows of one measure: its lines, empty ones dropped. */
  function MeasureRows(bar: string): (rows: seq<string>)
    ensures forall i :: 0 <= i < |rows| ==> |rows[i]| > 0 && '\n' !in rows[i]
  {
    SplitPieces(bar, '\n');
    NonEmpty(Split(bar, '\n'))
  }

  /** The divisions of all measures of `bars`, concatenated in measure
      order, measure k decoded from offset k * NOTE_UNIT. */
  function Decoded(bars: seq<string>, barToDivisions: BarDecoder): seq<Division>
  {
    if |bars| == 0 then []
    else
      Decoded(bars[..|bars| - 1], barToDivisions)
        + barToDivisions(MeasureRows(bars[|bars| - 1]), (|bars| - 1) * NOTE_UNIT)
  }

  /** The clock `str_to_notes` times divisions and hold ends by. */
  type Clock = int -> real

  /** `offset_to_time` with the chart's tempos and stops, as a clock. */
  function ClockOf(bpms: seq<Bpm>, stops: seq<Stop>): Clock
    requires |bpms| > 0 && NonZeroTempos(bpms)
  {
    offset => TimeOf(offset, bpms, stops)
  }

  /** A non-FreezeEnd arrow or a hold arrow, with its end offset and end time. */
  function ResolveArrow(a: Arrow, notes: seq<Division>, offset: int, findFreezeEnd: FreezeEndFinder,
                        clock: Clock): Arrow
  {
    var end := if a.arrowType == Freeze then findFreezeEnd(notes, offset, a.direction) else 0;
    Arrow(a.direction, a.arrowType, end, clock(end))
  }

  /** The inner loop of `str_to_notes` over one division's arrows. */
  function ResolveArrows(arrows: seq<Arrow>, notes: seq<Division>, offset: int,
                         findFreezeEnd: FreezeEndFinder, clock: Clock): seq<Arrow>
  {
    if |arrows| == 0 then []
    else
      var rest := ResolveArrows(arrows[..|arrows| - 1], notes, offset, findFreezeEnd, clock);
      var a := arrows[|arrows| - 1];
      if a.arrowType != FreezeEnd then rest + [ResolveArrow(a, notes, offset, findFreezeEnd, clock)]
      else rest
  }

  /** The outer loop of `str_to_notes`: a division is pushed, with its time,
      when one of its resolved arrows is not a FreezeEnd. */
  function ResolveDivisions(ds: seq<Division>, notes: seq<Division>, findFreezeEnd: FreezeEndFinder,
                            clock: Clock): seq<Division>
  {
    if |ds| == 0 then []
    else
      var rest := ResolveDivisions(ds[..|ds| - 1], notes, findFreezeEnd, clock);
      var div := ResolveDivision(ds[|ds| - 1], notes, findFreezeEnd, clock);
      if AnyNotFreezeEnd(div.arrows) then rest + [div] else rest
  }

  /** A division with its arrows resolved and its time set from its offset. */
  function ResolveDivision(d: Division, notes: seq<Division>, findFreezeEnd: FreezeEndFinder,
                           clock: Clock): Division
  {
    Division(ResolveArrows(d.arrows, notes, d.offset, findFreezeEnd, clock),
             d.color, d.offset, clock(d.offset))
  }

  /** `arrows.iter().any(|x| x.arrow_type != ArrowType::FreezeEnd)`. */
  predicate AnyNotFreezeEnd(arrows: seq<Arrow>)
  {
    exists k :: 0 <= k < |arrows| && arrows[k].arrowType != FreezeEnd
  }

  /** What `str_to_notes(bars, bpms, stops)` returns. */
  function StrToNotesSpec(bars: seq<string>, bpms: seq<Bpm>, stops: seq<Stop>,
                          barToDivisions: BarDecoder, findFreezeEnd: FreezeEndFinder)
    : Result<seq<Division>, TimelineError>
    requires |bpms| > 0 && NonZeroTempos(bpms)
  {
    var notes := Decoded(bars, barToDivisions);
    if exists i :: 0 <= i < |notes| && |notes[i].arrows| == 0 then Err(EmptyDivision)
    else Ok(ResolveDivisions(notes, notes, findFreezeEnd, ClockOf(bpms, stops)))
  }

  /** The first loop of `str_to_notes`: each measure decoded from its
      starting offset and appended. */
  method LayMeasures(bars: seq<string>, barToDivisions: BarDecoder) returns (notes: seq<Division>)
    ensures notes == Decoded(bars, barToDivisions)
  {
    notes := [];
    var offset := 0;
    var m := 0;
    while m < |bars|
      invariant 0 <= m <= |bars|
      invariant offset == m * NOTE_UNIT
      invariant notes == Decoded(bars[..m], barToDivisions)
    {
      var divisions := barToDivisions(MeasureRows(bars[m]), offset);
      assert bars[..m + 1][..m] == bars[..m];
      notes := notes + divisions;
      offset := offset + NOTE_UNIT;
      m := m + 1;
    }
    assert bars[..|bars|] == bars;
  }

  /** `str_to_notes`. */
  method StrToNotes(bars: seq<string>, bpms: seq<Bpm>, stops: seq<Stop>,
                    barToDivisions: BarDecoder, findFreezeEnd: FreezeEndFinder)
    returns (r: Result<seq<Division>, TimelineError>)
    requires |bpms| > 0 && NonZeroTempos(bpms)
    ensures r == StrToNotesSpec(bars, bpms, stops, barToDivisions, findFreezeEnd)
  {
    var notes := LayMeasures(bars, barToDivisions);
    AllNonEmptyIff(notes);
    r := ResolveTimeline(notes, bpms, stops, findFreezeEnd);
  }

  /** The second loop of `str_to_notes`: fails on the first division without
      arrows; otherwise resolves every division, keeping those with a
      surviving arrow, timestamped. */
  method ResolveTimeline(notes: seq<Division>, bpms: seq<Bpm>, stops: seq<Stop>, findFreezeEnd: FreezeEndFinder)
    returns (r: Result<seq<Division>, TimelineError>)
    requires |bpms| > 0 && NonZeroTempos(bpms)
    ensures r == if AllNonEmpty(notes) then Ok(ResolveDivisions(notes, notes, findFreezeEnd, ClockOf(bpms, stops)))
                 else Err(EmptyDivision)
  {
    ghost var clock := ClockOf(bpms, stops);
    var notesWithFreezeEnd: seq<Division> := [];
    var i := 0;
    while i < |notes|
      invariant 0 <= i <= |notes|
      invariant AllNonEmpty(notes[..i])
      invariant notesWithFreezeEnd == ResolveDivisions(notes[..i], notes, findFreezeEnd, clock)
    {
      var div := notes[i];
      assert notes[..i + 1][..i] == notes[..i];
      if |div.arrows| == 0 {
        AllNonEmptyExtends(notes, i);
        return Err(EmptyDivision);
      }
      var kept := ResolveOne(div, notes, bpms, stops, findFreezeEnd);
      ResolveDivisionsStep(notes, i, notes, findFreezeEnd, clock);
      notesWithFreezeEnd := notesWithFreezeEnd + kept;
      i := i + 1;
    }
    assert notes[..|notes|] == notes;
    return Ok(notesWithFreezeEnd);
  }

  /** Every division has an arrow, checked front to back. */
  predicate AllNonEmpty(ds: seq<Division>)
  {
    |ds| == 0 || (AllNonEmpty(ds[..|ds| - 1]) && |ds[|ds| - 1].arrows| > 0)
  }

  lemma {:induction false} AllNonEmptyIff(ds: seq<Division>)
    ensures AllNonEmpty(ds) <==> forall j :: 0 <= j < |ds| ==> |ds[j].arrows| > 0
  {
    if |ds| > 0 {
      AllNonEmptyIff(ds[..|ds| - 1]);
      assert forall j :: 0 <= j < |ds| - 1 ==> ds[..|ds| - 1][j] == ds[j];
    }
  }

  /** A division without arrows makes every longer prefix fail the check. */
  lemma {:induction false} AllNonEmptyExtends(ds: seq<Division>, i: nat)
    requires i < |ds| && |ds[i].arrows| == 0
    ensures !AllNonEmpty(ds)
  {
    AllNonEmptyIff(ds);
  }

  /** The body of the second loop of `str_to_notes`: the division, resolved
      and timestamped, when one of its arrows survives; nothing otherwise. */
  method ResolveOne(div: Division, notes: seq<Division>, bpms: seq<Bpm>, stops: seq<Stop>,
                    findFreezeEnd: FreezeEndFinder)
    returns (kept: seq<Division>)
    requires |bpms| > 0 && NonZeroTempos(bpms)
    ensures var resolved := ResolveDivision(div, notes, findFreezeEnd, ClockOf(bpms, stops));
            kept == if AnyNotFreezeEnd(resolved.arrows) then [resolved] else []
  {
    var arrows := ResolveDivisionArrows(div, notes, bpms, stops, findFreezeEnd);
    kept := [];
    if AnyNotFreezeEnd(arrows) {
      var time := OffsetToTime(div.offset, bpms, stops);
      kept := [Division(arrows, div.color, div.offset, time)];
    }
  }

  /** The inner loop of `str_to_notes`: a division's arrows without its
      FreezeEnds, each hold given its end offset and every arrow its end
      time. */
  method ResolveDivisionArrows(div: Division, notes: seq<Division>, bpms: seq<Bpm>, stops: seq<Stop>,
                               findFreezeEnd: FreezeEndFinder)
    returns (arrows: seq<Arrow>)
    requires |bpms| > 0 && NonZeroTempos(bpms)
    ensures arrows == ResolveArrows(div.arrows, notes, div.offset, findFreezeEnd, ClockOf(bpms, stops))
  {
    ghost var clock := ClockOf(bpms, stops);
    arrows := [];
    var k := 0;
    while k < |div.arrows|
      invariant 0 <= k <= |div.arrows|
      invariant arrows == ResolveArrows(div.arrows[..k], notes, div.offset, findFreezeEnd, clock)
    {
      var arrow := div.arrows[k];
      var end := 0;
      if arrow.arrowType == Freeze {
        end := findFreezeEnd(notes, div.offset, arrow.direction);
      }
      ResolveArrowsStep(div.arrows, k, notes, div.offset, findFreezeEnd, clock);
      if arrow.arrowType != FreezeEnd {
        var endTime := OffsetToTime(end, bpms, stops);
        arrows := arrows + [Arrow(arrow.direction, arrow.arrowType, end, endTime)];
      }
      k := k + 1;
    }
    assert div.arrows[..k] == div.arrows;
  }

  /** Resolving one more arrow of a division. */
  lemma ResolveArrowsStep(arrows: seq<Arrow>, k: nat, notes: seq<Division>, offset: int,
                          findFreezeEnd: FreezeEndFinder, clock: Clock)
    requires k < |arrows|
    ensures var before := ResolveArrows(arrows[..k], notes, offset, findFreezeEnd, clock);
            ResolveArrows(arrows[..k + 1], notes, offset, findFreezeEnd, clock)
              == if arrows[k].arrowType != FreezeEnd
                 then before + [ResolveArrow(arrows[k], notes, offset, findFreezeEnd, clock)]
                 else before
  {
    assert arrows[..k + 1][..k] == arrows[..k];
  }

  /** Resolving one more division. */
  lemma ResolveDivisionsStep(ds: seq<Division>, i: nat, notes: seq<Division>,
                             findFreezeEnd: FreezeEndFinder, clock: Clock)
    requires i < |ds|
    ensures var before := ResolveDivisions(ds[..i], notes, findFreezeEnd, clock);
            var div := ResolveDivision(ds[i], notes, findFreezeEnd, clock);
            ResolveDivisions(ds[..i + 1], notes, findFreezeEnd, clock)
              == if AnyNotFreezeEnd(div.arrows) then before + [div] else before
  {
    assert ds[..i + 1][..i] == ds[..i];
  }

  /** The arrows of a division that survive FreezeEnd removal, in order. */
  function Survivors(arrows: seq<Arrow>): (r: seq<Arrow>)
    ensures |r| <= |arrows|
    ensures forall a :: a in r <==> a in arrows && a.arrowType != FreezeEnd
  {
    if |arrows| == 0 then []
    else
      var rest := Survivors(arrows[..|arrows| - 1]);
      var a := arrows[|arrows| - 1];
      assert forall j :: 0 <= j < |arrows| - 1 ==> arrows[..|arrows| - 1][j] == arrows[j];
      if a.arrowType != FreezeEnd then rest + [a] else rest
  }

  /** The positions of the arrows that are not FreezeEnds, ascending. */
  function SurvivorIndices(arrows: seq<Arrow>): (r: seq<nat>)
    ensures |r| <= |arrows|
    ensures forall k :: 0 <= k < |r| ==> r[k] < |arrows|
    ensures forall j: int :: j in r <==> 0 <= j < |arrows| && arrows[j].arrowType != FreezeEnd
    ensures forall k, l :: 0 <= k < l < |r| ==> r[k] < r[l]
  {
    if |arrows| == 0 then []
    else
      var rest := SurvivorIndices(arrows[..|arrows| - 1]);
      assert forall j :: 0 <= j < |arrows| - 1 ==> arrows[..|arrows| - 1][j] == arrows[j];
      if arrows[|arrows| - 1].arrowType != FreezeEnd then rest + [|arrows| - 1] else rest
  }

  /** The survivors are `arrows` taken at the ascending positions of its
      non-FreezeEnd arrows: the surviving arrows keep their relative order. */
  lemma {:induction false} SurvivorsInOrder(arrows: seq<Arrow>)
    ensures var r := Survivors(arrows);
            var idx := SurvivorIndices(arrows);
            |r| == |idx| && forall k :: 0 <= k < |r| ==> r[k] == arrows[idx[k]]
  {
    if |arrows| > 0 {
      var n := |arrows| - 1;
      var front := arrows[..n];
      SurvivorsInOrder(front);
      var r, idx := Survivors(front), SurvivorIndices(front);
      forall k | 0 <= k < |r|
        ensures r[k] == arrows[idx[k]]
      {
        assert front[idx[k]] == arrows[idx[k]];
      }
      if arrows[n].arrowType != FreezeEnd {
        assert Survivors(arrows) == r + [arrows[n]];
        assert SurvivorIndices(arrows) == idx + [n];
      } else {
        assert Survivors(arrows) == r;
        assert SurvivorIndices(arrows) == idx;
      }
    }
  }

  /** Resolving a division's arrows keeps exactly the non-FreezeEnd ones, in
      their order, each given its end offset and end time. */
  lemma {:induction false} ResolveArrowsShape(arrows: seq<Arrow>, notes: seq<Division>, offset: int,
                                              findFreezeEnd: FreezeEndFinder, clock: Clock)
    ensures var out := ResolveArrows(arrows, notes, offset, findFreezeEnd, clock);
            var kept := Survivors(arrows);
            && |out| == |kept|
            && forall k :: 0 <= k < |out| ==> out[k] == ResolveArrow(kept[k], notes, offset, findFreezeEnd, clock)
  {
    if |arrows| > 0 {
      ResolveArrowsShape(arrows[..|arrows| - 1], notes, offset, findFreezeEnd, clock);
    }
  }

  /** A division is kept when some arrow of it is not a FreezeEnd. */
  predicate HasSurvivor(d: Division)
  {
    AnyNotFreezeEnd(d.arrows)
  }

  /** The indices of the divisions of `ds` that are kept, ascending. */
  function KeptIndices(ds: seq<Division>): (r: seq<nat>)
    ensures |r| <= |ds|
    ensures forall k :: 0 <= k < |r| ==> r[k] < |ds| && HasSurvivor(ds[r[k]])
    ensures forall k, l :: 0 <= k < l < |r| ==> r[k] < r[l]
    ensures forall j :: 0 <= j < |ds| && HasSurvivor(ds[j]) ==> j in r
  {
    if |ds| == 0 then []
    else
      var rest := KeptIndices(ds[..|ds| - 1]);
      assert forall j :: 0 <= j < |ds| - 1 ==> ds[..|ds| - 1][j] == ds[j];
      if HasSurvivor(ds[|ds| - 1]) then rest + [|ds| - 1] else rest
  }

  /** Whether a resolved division is non-empty is decided by its arrows
      before resolution. */
  lemma ResolvedNonEmptyIff(d: Division, notes: seq<Division>, findFreezeEnd: FreezeEndFinder,
                            clock: Clock)
    ensures AnyNotFreezeEnd(ResolveArrows(d.arrows, notes, d.offset, findFreezeEnd, clock)) <==> HasSurvivor(d)
  {
    var out := ResolveArrows(d.arrows, notes, d.offset, findFreezeEnd, clock);
    ResolveArrowsShape(d.arrows, notes, d.offset, findFreezeEnd, clock);
    var kept := Survivors(d.arrows);
    if HasSurvivor(d) {
      var j :| 0 <= j < |d.arrows| && d.arrows[j].arrowType != FreezeEnd;
      assert d.arrows[j] in kept;
      assert out[0].arrowType == kept[0].arrowType;
    }
  }

  /** Resolution keeps one division per index of `KeptIndices`. */
  lemma {:induction false} ResolveDivisionsCount(ds: seq<Division>, notes: seq<Division>, findFreezeEnd: FreezeEndFinder,
                                                 clock: Clock)
    ensures |ResolveDivisions(ds, notes, findFreezeEnd, clock)| == |KeptIndices(ds)|
  {
    if |ds| > 0 {
      ResolveDivisionsCount(ds[..|ds| - 1], notes, findFreezeEnd, clock);
      ResolvedNonEmptyIff(ds[|ds| - 1], notes, findFreezeEnd, clock);
    }
  }

  /** The divisions resolution keeps are exactly those with a surviving
      arrow, in input order, with offset and colour unchanged, their arrows
      resolved and their time set from their offset. */
  lemma {:induction false} ResolveDivisionsShape(ds: seq<Division>, notes: seq<Division>, findFreezeEnd: FreezeEndFinder,
                                                 clock: Clock)
    ensures var out := ResolveDivisions(ds, notes, findFreezeEnd, clock);
            var idx := KeptIndices(ds);
            && |out| == |idx|
            && forall k :: 0 <= k < |out| ==> out[k] == ResolveDivision(ds[idx[k]], notes, findFreezeEnd, clock)
  {
    ResolveDivisionsCount(ds, notes, findFreezeEnd, clock);
    if |ds| > 0 {
      var front := ds[..|ds| - 1];
      ResolveDivisionsShape(front, notes, findFreezeEnd, clock);
      ResolvedNonEmptyIff(ds[|ds| - 1], notes, findFreezeEnd, clock);
      var idx := KeptIndices(front);
      var rest := ResolveDivisions(front, notes, findFreezeEnd, clock);
      var d := ds[|ds| - 1];
      var out := ResolveDivisions(ds, notes, findFreezeEnd, clock);
      var all := KeptIndices(ds);
      if HasSurvivor(d) {
        assert all == idx + [|ds| - 1];
        assert out == rest + [ResolveDivision(d, notes, findFreezeEnd, clock)];
      } else {
        assert all == idx && out == rest;
      }
      forall k | 0 <= k < |out|
        ensures out[k] == ResolveDivision(ds[all[k]], notes, findFreezeEnd, clock)
      {
        if k < |idx| {
          assert out[k] == rest[k] && all[k] == idx[k] && ds[idx[k]] == front[idx[k]];
        }
      }
    }
  }

  /** What resolution produces is made of: divisions with arrows, each
      timed by the clock at its offset, no FreezeEnd, a hold ending where
      `find_freeze_end` says (searched in `notes` from the hold's own
      offset), every other arrow ending at 0, and every end time the clock
      at the end offset. */
  lemma ResolvedArrows(ds: seq<Division>, notes: seq<Division>, findFreezeEnd: FreezeEndFinder, clock: Clock)
    ensures var out := ResolveDivisions(ds, notes, findFreezeEnd, clock);
            && |out| <= |ds|
            && forall k :: 0 <= k < |out| ==>
                 && |out[k].arrows| > 0
                 && out[k].time == clock(out[k].offset)
                 && forall j :: 0 <= j < |out[k].arrows| ==>
                      var a := out[k].arrows[j];
                      && a.arrowType != FreezeEnd
                      && a.end == (if a.arrowType == Freeze then findFreezeEnd(notes, out[k].offset, a.direction) else 0)
                      && a.endTime == clock(a.end)
  {
    var out := ResolveDivisions(ds, notes, findFreezeEnd, clock);
    ResolveDivisionsShape(ds, notes, findFreezeEnd, clock);
    var idx := KeptIndices(ds);
    forall k | 0 <= k < |out|
      ensures |out[k].arrows| > 0
      ensures forall j :: 0 <= j < |out[k].arrows| ==>
                var a := out[k].arrows[j];
                && a.arrowType != FreezeEnd
                && a.end == (if a.arrowType == Freeze then findFreezeEnd(notes, out[k].offset, a.direction) else 0)
                && a.endTime == clock(a.end)
    {
      var d := ds[idx[k]];
      ResolveArrowsShape(d.arrows, notes, d.offset, findFreezeEnd, clock);
      ResolvedNonEmptyIff(d, notes, findFreezeEnd, clock);
      var kept := Survivors(d.arrows);
      forall j | 0 <= j < |kept|
        ensures kept[j].arrowType != FreezeEnd
      {
        assert kept[j] in kept;
      }
    }
  }

  /** What the timeline `str_to_notes` returns is made of: no FreezeEnd
      remains; a hold ends where `find_freeze_end` says, searched in the
      whole decoded chart from the hold's own offset; every other arrow ends
      at 0; every end time and division time is `offset_to_time` of the
      matching offset; and it fails exactly when a decoded division has no
      arrows. */
  lemma StrToNotesArrows(bars: seq<string>, bpms: seq<Bpm>, stops: seq<Stop>,
                         barToDivisions: BarDecoder, findFreezeEnd: FreezeEndFinder)
    requires |bpms| > 0 && NonZeroTempos(bpms)
    ensures var notes := Decoded(bars, barToDivisions);
            var failed := exists i :: 0 <= i < |notes| && |notes[i].arrows| == 0;
            StrToNotesSpec(bars, bpms, stops, barToDivisions, findFreezeEnd).Err? <==> failed
    ensures var notes := Decoded(bars, barToDivisions);
            var r := StrToNotesSpec(bars, bpms, stops, barToDivisions, findFreezeEnd);
            r.Ok? ==>
              && |r.value| <= |notes|
              && forall k :: 0 <= k < |r.value| ==>
                   && |r.value[k].arrows| > 0
                   && r.value[k].time == TimeOf(r.value[k].offset, bpms, stops)
                   && forall j :: 0 <= j < |r.value[k].arrows| ==>
                        var a := r.value[k].arrows[j];
                        && a.arrowType != FreezeEnd
                        && a.end == (if a.arrowType == Freeze then findFreezeEnd(notes, r.value[k].offset, a.direction) else 0)
                        && a.endTime == TimeOf(a.end, bpms, stops)
  {
    var notes := Decoded(bars, barToDivisions);
    ResolvedArrows(notes, notes, findFreezeEnd, ClockOf(bpms, stops));
  }

  /** The divisions resolution keeps are those of `ds` with a surviving
      arrow, in order, with offset and colour unchanged and arrows in their
      original relative order. */
  lemma ResolvedKeeps(ds: seq<Division>, notes: seq<Division>, findFreezeEnd: FreezeEndFinder, clock: Clock)
    ensures var out := ResolveDivisions(ds, notes, findFreezeEnd, clock);
            var idx := KeptIndices(ds);
            && |out| == |idx|
            && (forall j :: 0 <= j < |ds| ==> (HasSurvivor(ds[j]) <==> j in idx))
            && (forall k, l :: 0 <= k < l < |idx| ==> idx[k] < idx[l])
            && forall k :: 0 <= k < |out| ==>
                 && idx[k] < |ds|
                 && out[k].offset == ds[idx[k]].offset
                 && out[k].color == ds[idx[k]].color
                 && |out[k].arrows| == |Survivors(ds[idx[k]].arrows)|
                 && forall j :: 0 <= j < |out[k].arrows| ==>
                      out[k].arrows[j].direction == Survivors(ds[idx[k]].arrows)[j].direction
                      && out[k].arrows[j].arrowType == Survivors(ds[idx[k]].arrows)[j].arrowType
  {
    var out := ResolveDivisions(ds, notes, findFreezeEnd, clock);
    ResolveDivisionsShape(ds, notes, findFreezeEnd, clock);
    var idx := KeptIndices(ds);
    forall k | 0 <= k < |out|
      ensures |out[k].arrows| == |Survivors(ds[idx[k]].arrows)|
      ensures forall j :: 0 <= j < |out[k].arrows| ==>
                out[k].arrows[j].direction == Survivors(ds[idx[k]].arrows)[j].direction
                && out[k].arrows[j].arrowType == Survivors(ds[idx[k]].arrows)[j].arrowType
    {
      var d := ds[idx[k]];
      ResolveArrowsShape(d.arrows, notes, d.offset, findFreezeEnd, clock);
    }
  }

  /** The divisions `str_to_notes` keeps are the decoded divisions with a
      surviving arrow, in their decoded order, with offset and colour
      unchanged and arrows in their original relative order. */
  lemma StrToNotesKeeps(bars: seq<string>, bpms: seq<Bpm>, stops: seq<Stop>,
                        barToDivisions: BarDecoder, findFreezeEnd: FreezeEndFinder, out: seq<Division>)
    requires |bpms| > 0 && NonZeroTempos(bpms)
    requires StrToNotesSpec(bars, bpms, stops, barToDivisions, findFreezeEnd) == Ok(out)
    ensures var notes := Decoded(bars, barToDivisions);
            var idx := KeptIndices(notes);
            && |out| == |idx|
            && (forall j :: 0 <= j < |notes| ==> (HasSurvivor(notes[j]) <==> j in idx))
            && (forall k, l :: 0 <= k < l < |idx| ==> idx[k] < idx[l])
            && forall k :: 0 <= k < |out| ==>
                 && idx[k] < |notes|
                 && out[k].offset == notes[idx[k]].offset
                 && out[k].color == notes[idx[k]].color
                 && |out[k].arrows| == |Survivors(notes[idx[k]].arrows)|
                 && forall j :: 0 <= j < |out[k].arrows| ==>
                      out[k].arrows[j].direction == Survivors(notes[idx[k]].arrows)[j].direction
                      && out[k].arrows[j].arrowType == Survivors(notes[idx[k]].arrows)[j].arrowType
  {
    var notes := Decoded(bars, barToDivisions);
    ResolvedKeeps(notes, notes, findFreezeEnd, ClockOf(bpms, stops));
  }

  /** Offsets strictly increase along a division list. */
  predicate OffsetsIncreasing(ds: seq<Division>)
  {
    forall i, j :: 0 <= i < j < |ds| ==> ds[i].offset < ds[j].offset
  }

  /** The decoder keeps each measure's divisions inside the measure, in
      increasing offset order. */
  ghost predicate DecodesWithinMeasure(barToDivisions: BarDecoder)
  {
    forall rows: seq<string>, start: int ::
      var ds := barToDivisions(rows, start);
      OffsetsIncreasing(ds) && forall j :: 0 <= j < |ds| ==> start <= ds[j].offset < start + NOTE_UNIT
  }

  /** Laying measures end to end at multiples of NOTE_UNIT gives an
      offset-ordered timeline, provided the decoder keeps each measure's
      divisions inside that measure and in order. */
  lemma {:induction false} DecodedIncreasing(bars: seq<string>, barToDivisions: BarDecoder)
    requires DecodesWithinMeasure(barToDivisions)
    ensures var ds := Decoded(bars, barToDivisions);
            && OffsetsIncreasing(ds)
            && forall j :: 0 <= j < |ds| ==> 0 <= ds[j].offset < |bars| * NOTE_UNIT
  {
    if |bars| > 0 {
      var front := bars[..|bars| - 1];
      DecodedIncreasing(front, barToDivisions);
      var start := (|bars| - 1) * NOTE_UNIT;
      var measure := barToDivisions(MeasureRows(bars[|bars| - 1]), start);
      assert OffsetsIncreasing(measure)
        && forall j :: 0 <= j < |measure| ==> start <= measure[j].offset < start + NOTE_UNIT;
      assert Decoded(bars, barToDivisions) == Decoded(front, barToDivisions) + measure;
      AppendMeasure(Decoded(front, barToDivisions), measure, start);
    }
  }

  /** A measure laid after an ordered timeline that ends before the
      measure's start keeps the timeline ordered. */
  lemma AppendMeasure(before: seq<Division>, measure: seq<Division>, start: nat)
    requires OffsetsIncreasing(before) && forall j :: 0 <= j < |before| ==> 0 <= before[j].offset < start
    requires OffsetsIncreasing(measure)
    requires forall j :: 0 <= j < |measure| ==> start <= measure[j].offset < start + NOTE_UNIT
    ensures var ds := before + measure;
            && OffsetsIncreasing(ds)
            && forall j :: 0 <= j < |ds| ==> 0 <= ds[j].offset < start + NOTE_UNIT
  {
    var ds := before + measure;
    forall j | 0 <= j < |ds|
      ensures 0 <= ds[j].offset < start + NOTE_UNIT
    {
      if j < |before| {
        assert ds[j] == before[j];
      } else {
        assert ds[j] == measure[j - |before|];
      }
    }
    forall i, j | 0 <= i < j < |ds|
      ensures ds[i].offset < ds[j].offset
    {
      if j < |before| {
        assert ds[i] == before[i] && ds[j] == before[j];
      } else if i < |before| {
        assert ds[i] == before[i] && ds[j] == measure[j - |before|];
      } else {
        assert ds[i] == measure[i - |before|] && ds[j] == measure[j - |before|];
      }
    }
  }

  /** Dropping divisions keeps an offset-ordered timeline ordered. */
  lemma ResolvedIncreasing(ds: seq<Division>, notes: seq<Division>, findFreezeEnd: FreezeEndFinder,
                           clock: Clock)
    requires OffsetsIncreasing(ds)
    ensures OffsetsIncreasing(ResolveDivisions(ds, notes, findFreezeEnd, clock))
  {
    ResolveDivisionsShape(ds, notes, findFreezeEnd, clock);
  }

  /** With a decoder that keeps each measure's divisions inside the measure
      and in order, `str_to_notes` returns divisions in strictly increasing
      offset order, all within the chart's measures; with positive sorted
      tempos and sorted non-negative stops their times never decrease. */
  lemma StrToNotesOrdered(bars: seq<string>, bpms: seq<Bpm>, stops: seq<Stop>,
                          barToDivisions: BarDecoder, findFreezeEnd: FreezeEndFinder, out: seq<Division>)
    requires |bpms| > 0 && NonZeroTempos(bpms) && DecodesWithinMeasure(barToDivisions)
    requires StrToNotesSpec(bars, bpms, stops, barToDivisions, findFreezeEnd) == Ok(out)
    ensures OffsetsIncreasing(out)
    ensures forall k :: 0 <= k < |out| ==> 0 <= out[k].offset < |bars| * NOTE_UNIT
    ensures PositiveTempos(bpms) && TemposSorted(bpms) && StopsSorted(stops) && NonNegativeStops(stops) ==>
              forall k, l :: 0 <= k < l < |out| ==> out[k].time <= out[l].time
  {
    var notes := Decoded(bars, barToDivisions);
    DecodedIncreasing(bars, barToDivisions);
    ResolvedIncreasing(notes, notes, findFreezeEnd, ClockOf(bpms, stops));
    ResolvedKeeps(notes, notes, findFreezeEnd, ClockOf(bpms, stops));
    ResolvedArrows(notes, notes, findFreezeEnd, ClockOf(bpms, stops));
    if PositiveTempos(bpms) && TemposSorted(bpms) && StopsSorted(stops) && NonNegativeStops(stops) {
      forall k, l | 0 <= k < l < |out|
        ensures out[k].time <= out[l].time
      {
        OffsetToTimeMonotone(out[k].offset, out[l].offset, bpms, stops);
      }
    }
  }
}
