/** The step-code decoder of `src/arrow.rs`: lanes, arrow kinds, and the
    decoding of one 4-column grid row into its arrows. */
module Arrows {
  import opened Wrappers
  import opened Strings

  /** Rhythmic units in one measure; a beat (quarter note) is a quarter of it. */
  const NOTE_UNIT: int := 192

  datatype Direction = Up | Down | Left | Right

  datatype ArrowType = None | Normal | Freeze | FreezeEnd | Mine

  /** The panics of the decoder, as values. */
  datatype ArrowError =
    | InvalidDirection
    | NotArrowType(code: string)
    | NotFourLength(row: string)

  /** The grid column of each lane: Left, Down, Up, Right. */
  function DirectionIndex(d: Direction): nat
  {
    match d
    case Left => 0
    case Down => 1
    case Up => 2
    case Right => 3
  }

  /** `int_to_direction`: the lane of grid column `i`; any other index
      is an error. */
  function IntToDirection(i: int): (r: Result<Direction, ArrowError>)
    ensures r.Ok? <==> 0 <= i < 4
    ensures r.Ok? ==> DirectionIndex(r.value) == i
    ensures r.Err? ==> r.error == InvalidDirection
  {
    match i
    case 0 => Ok(Left)
    case 1 => Ok(Down)
    case 2 => Ok(Up)
    case 3 => Ok(Right)
    case _ => Err(InvalidDirection)
  }

  lemma DirectionRoundTrip(d: Direction)
    ensures IntToDirection(DirectionIndex(d)) == Ok(d)
  {
  }

  /** The one-character step code of each arrow kind. */
  function ArrowTypeCode(t: ArrowType): char
  {
    match t
    case None => '0'
    case Normal => '1'
    case Freeze => '2'
    case FreezeEnd => '3'
    case Mine => 'M'
  }

  predicate IsArrowCode(c: char)
  {
    c in "0123M"
  }

  /** `ArrowType::from_str`: accepts exactly the five one-character codes. */
  function ArrowTypeFromStr(s: string): (r: Result<ArrowType, ArrowError>)
    ensures r.Ok? <==> |s| == 1 && IsArrowCode(s[0])
    ensures r.Ok? ==> s == [ArrowTypeCode(r.value)]
    ensures r.Err? ==> r.error == NotArrowType(s)
  {
    if s == "0" then Ok(None)
    else if s == "1" then Ok(Normal)
    else if s == "2" then Ok(Freeze)
    else if s == "3" then Ok(FreezeEnd)
    else if s == "M" then Ok(Mine)
    else Err(NotArrowType(s))
  }

  lemma ArrowTypeRoundTrip(t: ArrowType)
    ensures ArrowTypeFromStr([ArrowTypeCode(t)]) == Ok(t)
  {
  }

  datatype Arrow = Arrow(direction: Direction, arrowType: ArrowType, end: int, endTime: real)
  {
    /** `Arrow::is_freeze_end`: this arrow ends a hold in lane `d`. */
    predicate IsFreezeEnd(d: Direction)
    {
      arrowType == FreezeEnd && direction == d
    }
  }

  /** An arrow ends a hold in some lane exactly when it is a FreezeEnd,
      and then only in its own lane. */
  lemma FreezeEndLane(a: Arrow, d: Direction)
    ensures a.IsFreezeEnd(d) ==> d == a.direction
    ensures a.arrowType == FreezeEnd <==> a.IsFreezeEnd(a.direction)
  {
  }

  /** Subdivision colour of a division. How it is derived from the offset is
      not part of this model. */
  datatype Color = Red | Blue | Yellow | Green

  /** One rhythmic instant: its arrows, colour, offset and time in seconds. */
  datatype Division = Division(arrows: seq<Arrow>, color: Color, offset: int, time: real)

  /** The arrows of the first `n` columns of row `s`, stopping at the
      leftmost column whose code is not in the table. */
  function DecodeColumns(s: string, n: nat): Result<seq<Arrow>, ArrowError>
    requires n <= |s| <= 4
  {
    if n == 0 then Ok([])
    else
      match DecodeColumns(s, n - 1)
      case Err(e) => Err(e)
      case Ok(arrows) =>
        match ArrowTypeFromStr([s[n - 1]])
        case Err(e) => Err(e)
        case Ok(t) =>
          Ok(if t == None then arrows
             else arrows + [Arrow(IntToDirection(n - 1).value, t, 0, 0.0)])
  }

  /** What `make_arrows` yields for row `s`: the length check is on UTF-8
      bytes, the decoding is per character. */
  function DecodeRow(s: string): Result<seq<Arrow>, ArrowError>
  {
    if Utf8Length(s) != 4 then Err(NotFourLength(s)) else DecodeColumns(s, |s|)
  }

  /** Once a column fails to decode, every longer prefix fails the same way. */
  lemma {:induction false} DecodeColumnsErrSticks(s: string, m: nat, n: nat)
    requires m <= n <= |s| <= 4
    requires DecodeColumns(s, m).Err?
    ensures DecodeColumns(s, n) == DecodeColumns(s, m)
    decreases n - m
  {
    if m < n {
      DecodeColumnsErrSticks(s, m, n - 1);
    }
  }

  /** `make_arrows`: one arrow per non-'0' column, left to right. */
  method MakeArrows(s: string) returns (r: Result<seq<Arrow>, ArrowError>)
    ensures r == DecodeRow(s)
  {
    var arrows: seq<Arrow> := [];
    if Utf8Length(s) != 4 {
      return Err(NotFourLength(s));
    }
    var i := 0;
    while i < |s|
      invariant 0 <= i <= |s|
      invariant DecodeColumns(s, i) == Ok(arrows)
    {
      var parsed := ArrowTypeFromStr([s[i]]);
      if parsed.Err? {
        DecodeColumnsErrSticks(s, i + 1, |s|);
        return Err(parsed.error);
      }
      var arrowType := parsed.value;
      if arrowType != None {
        arrows := arrows + [Arrow(IntToDirection(i).value, arrowType, 0, 0.0)];
      }
      i := i + 1;
    }
    return Ok(arrows);
  }

  /** Number of columns among the first `n` of `s` that hold an arrow. */
  function NonBlankColumns(s: string, n: nat): nat
    requires n <= |s|
  {
    if n == 0 then 0 else NonBlankColumns(s, n - 1) + (if s[n - 1] != '0' then 1 else 0)
  }

  /** The arrows of a decoded prefix: exactly one per non-'0' column, in
      column order, each in its column's lane with its column's kind, never
      None, with no hold end yet. */
  lemma {:induction false} DecodeColumnsShape(s: string, n: nat, arrows: seq<Arrow>)
    requires n <= |s| <= 4
    requires DecodeColumns(s, n) == Ok(arrows)
    ensures forall c :: 0 <= c < n ==> IsArrowCode(s[c])
    ensures |arrows| == NonBlankColumns(s, n)
    ensures forall k :: 0 <= k < |arrows| ==>
      && arrows[k].arrowType != None
      && arrows[k].end == 0
      && arrows[k].endTime == 0.0
      && DirectionIndex(arrows[k].direction) < n
      && s[DirectionIndex(arrows[k].direction)] == ArrowTypeCode(arrows[k].arrowType)
    ensures forall k, l :: 0 <= k < l < |arrows| ==>
      DirectionIndex(arrows[k].direction) < DirectionIndex(arrows[l].direction)
    ensures forall c :: 0 <= c < n && s[c] != '0' ==>
      exists k :: 0 <= k < |arrows| && DirectionIndex(arrows[k].direction) == c
  {
    if n > 0 {
      var prev := DecodeColumns(s, n - 1);
      if prev.Err? {
        assert false;
      }
      var t := ArrowTypeFromStr([s[n - 1]]);
      if t.Err? {
        assert false;
      }
      DecodeColumnsShape(s, n - 1, prev.value);
      if t.value != None {
        var a := Arrow(IntToDirection(n - 1).value, t.value, 0, 0.0);
        assert arrows == prev.value + [a];
        assert DirectionIndex(a.direction) == n - 1;
        forall c | 0 <= c < n && s[c] != '0'
          ensures exists k :: 0 <= k < |arrows| && DirectionIndex(arrows[k].direction) == c
        {
          if c == n - 1 {
            assert arrows[|arrows| - 1] == a;
          } else {
            var k :| 0 <= k < |prev.value| && DirectionIndex(prev.value[k].direction) == c;
            assert arrows[k] == prev.value[k];
          }
        }
      } else {
        assert arrows == prev.value;
      }
    }
  }

  /** `make_arrows` succeeds exactly on rows of four step codes. */
  lemma MakeArrowsOkIff(s: string)
    ensures DecodeRow(s).Ok? <==> |s| == 4 && forall c :: 0 <= c < 4 ==> IsArrowCode(s[c])
  {
    if DecodeRow(s).Ok? {
      DecodeColumnsShape(s, |s|, DecodeRow(s).value);
      assert forall c :: 0 <= c < |s| ==> s[c] < '\U{80}';
    } else if |s| == 4 && forall c :: 0 <= c < 4 ==> IsArrowCode(s[c]) {
      assert forall c :: 0 <= c < |s| ==> s[c] < '\U{80}';
      DecodeColumnsAllCodes(s, 4);
    }
  }

  lemma {:induction false} DecodeColumnsAllCodes(s: string, n: nat)
    requires n <= |s| <= 4
    requires forall c :: 0 <= c < n ==> IsArrowCode(s[c])
    ensures DecodeColumns(s, n).Ok?
  {
    if n > 0 {
      DecodeColumnsAllCodes(s, n - 1);
    }
  }

  /** The arrows `make_arrows` returns: at most four, one per non-'0' column
      in column order (so in pairwise distinct lanes), none of kind None,
      all with `end = 0` and `end_time = 0.0`. */
  lemma MakeArrowsShape(s: string, arrows: seq<Arrow>)
    requires DecodeRow(s) == Ok(arrows)
    ensures |s| == 4 && |arrows| == NonBlankColumns(s, 4) <= 4
    ensures forall k :: 0 <= k < |arrows| ==>
      && arrows[k].arrowType != None
      && arrows[k].end == 0
      && arrows[k].endTime == 0.0
      && s[DirectionIndex(arrows[k].direction)] == ArrowTypeCode(arrows[k].arrowType)
    ensures forall k, l :: 0 <= k < l < |arrows| ==>
      DirectionIndex(arrows[k].direction) < DirectionIndex(arrows[l].direction)
    ensures forall k, l :: 0 <= k < l < |arrows| ==> arrows[k].direction != arrows[l].direction
    ensures forall c :: 0 <= c < 4 && s[c] != '0' ==>
      exists k :: 0 <= k < |arrows| && DirectionIndex(arrows[k].direction) == c
  {
    MakeArrowsOkIff(s);
    DecodeColumnsShape(s, 4, arrows);
    NonBlankAtMost(s, 4);
  }

  lemma {:induction false} NonBlankAtMost(s: string, n: nat)
    requires n <= |s|
    ensures NonBlankColumns(s, n) <= n
  {
    if n > 0 {
      NonBlankAtMost(s, n - 1);
    }
  }

  /** The regression case of the source: "0012" is an Up tap and a Right hold. */
  lemma MakeArrowsRegression()
    ensures DecodeRow("0012") == Ok([Arrow(Up, Normal, 0, 0.0), Arrow(Right, Freeze, 0, 0.0)])
  {
    var s := "0012";
    assert Utf8Length(s) == 4;
    assert DecodeColumns(s, 1) == Ok([]);
    assert DecodeColumns(s, 2) == Ok([]);
    assert [s[2]] == "1" && ArrowTypeFromStr("1") == Ok(Normal);
    assert IntToDirection(2) == Ok(Up);
    assert DecodeColumns(s, 3) == Ok([] + [Arrow(Up, Normal, 0, 0.0)]);
    assert [s[3]] == "2" && ArrowTypeFromStr("2") == Ok(Freeze);
    assert IntToDirection(3) == Ok(Right);
    var three := DecodeColumns(s, 3);
    assert three.Ok? && three.value == [Arrow(Up, Normal, 0, 0.0)];
    assert DecodeColumns(s, 4) == Ok(three.value + [Arrow(IntToDirection(3).value, Freeze, 0, 0.0)]);
    assert [Arrow(Up, Normal, 0, 0.0)] + [Arrow(Right, Freeze, 0, 0.0)]
        == [Arrow(Up, Normal, 0, 0.0), Arrow(Right, Freeze, 0, 0.0)];
    assert DecodeRow(s) == DecodeColumns(s, 4);
  }
}
