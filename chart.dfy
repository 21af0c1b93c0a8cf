/** The pure helpers of `src/chart.rs` besides the timeline: the
    chart-type and difficulty lookups and `parse_chart_props`, the
    `;`/`:` property splitter of one chart's text. */
module Chart {
  import opened Wrappers
  import opened Strings

  datatype ChartType = DanceSingle | DanceDouble

  datatype Difficulty = Beginner | Easy | Medium | Hard | Challenge | Edit

  /** The `Err` of both lookups: the name is not supported. */
  datatype ChartError = NotSupported(name: string)

  function ChartTypeName(t: ChartType): string
  {
    match t
    case DanceSingle => "dance-single"
    case DanceDouble => "dance-double"
  }

  /** `ChartType::from_str`: accepts exactly the two step-type names. */
  function ChartTypeFromStr(s: string): (r: Result<ChartType, ChartError>)
    ensures r.Ok? ==> ChartTypeName(r.value) == s
    ensures r.Err? ==> r.error == NotSupported(s) && forall t: ChartType :: ChartTypeName(t) != s
  {
    if s == "dance-single" then Ok(DanceSingle)
    else if s == "dance-double" then Ok(DanceDouble)
    else Err(NotSupported(s))
  }

  lemma ChartTypeRoundTrip(t: ChartType)
    ensures ChartTypeFromStr(ChartTypeName(t)) == Ok(t)
  {
  }

  function DifficultyName(d: Difficulty): string
  {
    match d
    case Beginner => "Beginner"
    case Easy => "Easy"
    case Medium => "Medium"
    case Hard => "Hard"
    case Challenge => "Challenge"
    case Edit => "Edit"
  }

  /** `Difficulty::from_str`: accepts exactly the six tier names,
      case-sensitively. */
  function DifficultyFromStr(s: string): (r: Result<Difficulty, ChartError>)
    ensures r.Ok? ==> DifficultyName(r.value) == s
    ensures r.Err? ==> r.error == NotSupported(s) && forall d: Difficulty :: DifficultyName(d) != s
  {
    if s == "Beginner" then Ok(Beginner)
    else if s == "Easy" then Ok(Easy)
    else if s == "Medium" then Ok(Medium)
    else if s == "Hard" then Ok(Hard)
    else if s == "Challenge" then Ok(Challenge)
    else if s == "Edit" then Ok(Edit)
    else Err(NotSupported(s))
  }

  lemma DifficultyRoundTrip(d: Difficulty)
    ensures DifficultyFromStr(DifficultyName(d)) == Ok(d)
  {
  }

  /** The properties of one chart and its (last) NOTES value. */
  datatype ChartProps = ChartProps(props: map<string, string>, noteStrings: string)

  /** One `;`-separated statement, read as a key and a value or skipped. */
  datatype Statement = Skipped | Property(key: string, value: string)

  /** A statement is split on ':' after trimming; fewer than two parts is
      skipped; the key loses its surrounding '#'; the value is the remaining
      parts re-joined with ':'. */
  function ParseStatement(statement: string): Statement
  {
    var parts := Split(Trim(statement), ':');
    if |parts| < 2 then Skipped
    else Property(TrimMatches(parts[0], '#'), Join(parts[1..], ":"))
  }

  /** The map and NOTES value after reading the parsed statements in order:
      NOTES sets the NOTES value, any other key is inserted into the map. */
  function Collect(statements: seq<Statement>): ChartProps
  {
    if |statements| == 0 then ChartProps(map[], "")
    else Apply(Collect(statements[..|statements| - 1]), statements[|statements| - 1])
  }

  /** Reading one more statement. */
  function Apply(acc: ChartProps, statement: Statement): ChartProps
  {
    match statement
    case Skipped => acc
    case Property(key, value) =>
      if key == "NOTES" then acc.(noteStrings := value)
      else acc.(props := acc.props[key := value])
  }

  function ParseAll(statements: seq<string>): seq<Statement>
  {
    seq(|statements|, i requires 0 <= i < |statements| => ParseStatement(statements[i]))
  }

  /** `parse_chart_props`. */
  method ParseChartProps(chartString: string) returns (r: ChartProps)
    ensures r == Collect(ParseAll(Split(chartString, ';')))
  {
    var props: map<string, string> := map[];
    var noteStrings := "";
    var statements := Split(chartString, ';');
    ghost var parsed := ParseAll(statements);
    var i := 0;
    while i < |statements|
      invariant 0 <= i <= |statements|
      invariant ChartProps(props, noteStrings) == Collect(parsed[..i])
    {
      var statement := statements[i];
      ghost var before := ChartProps(props, noteStrings);
      assert parsed[..i + 1][..i] == parsed[..i];
      assert Collect(parsed[..i + 1]) == Apply(before, ParseStatement(statement));
      i := i + 1;
      var parts := Split(Trim(statement), ':');
      if |parts| < 2 {
        continue;
      }
      var key := TrimMatches(parts[0], '#');
      var value := Join(parts[1..], ":");
      assert ParseStatement(statement) == Property(key, value);
      if key == "NOTES" {
        noteStrings := value;
      } else {
        props := props[key := value];
      }
    }
    assert parsed[..i] == parsed;
    return ChartProps(props, noteStrings);
  }

  /** A statement is skipped exactly when its trimmed text has no ':'. */
  lemma StatementSkippedIff(statement: string)
    ensures ParseStatement(statement).Skipped? <==> ':' !in Trim(statement)
  {
    SplitPieces(Trim(statement), ':');
  }

  /** The key ends at the first ':'; every later ':' belongs to the value. */
  lemma StatementKeepsColons(statement: string, head: string, value: string)
    requires ':' !in head
    requires Trim(statement) == head + ":" + value
    ensures ParseStatement(statement) == Property(TrimMatches(head, '#'), value)
  {
    SplitAfterHead(head, ':', value);
    var parts := Split(Trim(statement), ':');
    assert parts[1..] == Split(value, ':');
    JoinSplit(value, ':');
  }

  predicate DefinesKey(statement: Statement, key: string)
  {
    statement.Property? && statement.key == key
  }

  /** A key is in the map exactly when some statement defines it and it is
      not NOTES. */
  lemma {:induction false} PropsKeys(statements: seq<Statement>, key: string)
    ensures key in Collect(statements).props
      <==> key != "NOTES" && exists j :: 0 <= j < |statements| && DefinesKey(statements[j], key)
  {
    if |statements| > 0 {
      var front := statements[..|statements| - 1];
      PropsKeys(front, key);
      assert forall j :: 0 <= j < |front| ==> statements[j] == front[j];
      if exists j :: 0 <= j < |statements| && DefinesKey(statements[j], key) {
        var j :| 0 <= j < |statements| && DefinesKey(statements[j], key);
        if j < |front| {
          assert DefinesKey(front[j], key);
        }
      }
    }
  }

  /** The map holds, for every key but NOTES, the value of the last
      statement that defines it. */
  lemma {:induction false} PropsLastWins(statements: seq<Statement>, j: nat, key: string, value: string)
    requires j < |statements| && key != "NOTES"
    requires statements[j] == Property(key, value)
    requires forall l :: j < l < |statements| ==> !DefinesKey(statements[l], key)
    ensures key in Collect(statements).props && Collect(statements).props[key] == value
  {
    var front := statements[..|statements| - 1];
    if j < |statements| - 1 {
      assert forall l :: j < l < |front| ==> front[l] == statements[l];
      PropsLastWins(front, j, key, value);
    }
  }

  /** The NOTES value is that of the last NOTES statement. */
  lemma {:induction false} NotesLastWins(statements: seq<Statement>, j: nat, value: string)
    requires j < |statements|
    requires statements[j] == Property("NOTES", value)
    requires forall l :: j < l < |statements| ==> !DefinesKey(statements[l], "NOTES")
    ensures Collect(statements).noteStrings == value
  {
    var front := statements[..|statements| - 1];
    if j < |statements| - 1 {
      assert forall l :: j < l < |front| ==> front[l] == statements[l];
      NotesLastWins(front, j, value);
    }
  }

  /** Without a NOTES statement the NOTES value stays empty. */
  lemma {:induction false} NotesAbsent(statements: seq<Statement>)
    requires forall l :: 0 <= l < |statements| ==> !DefinesKey(statements[l], "NOTES")
    ensures Collect(statements).noteStrings == ""
  {
    if |statements| > 0 {
      var front := statements[..|statements| - 1];
      assert forall l :: 0 <= l < |front| ==> front[l] == statements[l];
      NotesAbsent(front);
    }
  }
}
