/** tool.py: the single-axis annotator. Every row of one file becomes a
    record; a record without a level gets one from the history of texts seen
    before (keyed by the normalised text) or from a typed answer 1-7, and 0
    stops the run. */
module Tool {

  import opened Tables
  import opened Prompts
  import opened Normalize

  /** The value under a record's `level` key. */
  datatype Level =
    | NoLevel                 // the file has no `level` column
    | FileLevel(text: string) // the cell as read, possibly empty
    | Chosen(choice: nat)     // `int(inp)` of a typed answer
    | RecordOf(index: nat)    // the record `todo[index]` itself, taken from the history

  /** Python truthiness of `tweet.get('level')`. */
  predicate Filled(l: Level)
  {
    match l
    case NoLevel => false
    case FileLevel(text) => text != ""
    case Chosen(choice) => choice != 0
    case RecordOf(_) => true
  }

  /** A value of `self.history`: a level cell copied while loading, or the
      record itself, stored after a typed answer. */
  datatype HistEntry = FileEntry(text: string) | RecordRef(index: nat)

  /** Python truthiness of `self.history.get(key)`: an empty string is false,
      a record never is. */
  predicate Truthy(h: HistEntry)
  {
    match h
    case FileEntry(text) => text != ""
    case RecordRef(_) => true
  }

  /** `tweet['level'] = hist`: the history value becomes the level as it is. */
  function AsLevel(h: HistEntry): (l: Level)
    ensures Truthy(h) ==> Filled(l)
  {
    match h
    case FileEntry(text) => FileLevel(text)
    case RecordRef(index) => RecordOf(index)
  }

  /** One record of `self.todo`: the row's other columns, its `stripped` key
      and its `level`. */
  datatype Tweet = Tweet(row: Row, stripped: string, level: Level)

  /** The record `__init__` makes of a row (which has a `text` column). */
  function FromRow(row: Row): Tweet
    requires "text" in row
  {
    Tweet(row - {"level", "stripped"}, Normalize.Normalize(row["text"]), if "level" in row then FileLevel(row["level"]) else NoLevel)
  }

  /** A row that carries a non-empty level: the rows line 34 remembers. */
  predicate Levelled(row: Row)
  {
    "level" in row && row["level"] != ""
  }

  /** What `__init__` builds: every record, and the history of levels. */
  datatype Loaded = Loaded(todo: seq<Tweet>, history: map<string, HistEntry>)

  /** One pass of the loading loop: the row's level is remembered under its
      key unless the key already has a true history value; the record is
      appended either way. */
  function Remember(l: Loaded, row: Row): Loaded
    requires "text" in row
  {
    var key := Normalize.Normalize(row["text"]);
    var history :=
      if Levelled(row) && !(key in l.history && Truthy(l.history[key])) then l.history[key := FileEntry(row["level"])]
      else l.history;
    Loaded(l.todo + [FromRow(row)], history)
  }

  /** The state after the rows so far, or the index of the row without a
      `text` column whose `line['text']` raised. */
  function Seed(rows: seq<Row>): Result<Loaded, nat>
  {
    if rows == [] then Ok(Loaded([], map[]))
    else
      match Seed(rows[..|rows| - 1])
      case Err(i) => Err(i)
      case Ok(l) =>
        var row := rows[|rows| - 1];
        if "text" in row then Ok(Remember(l, row)) else Err(|rows| - 1)
  }

  /** The loading loop of `__init__`. */
  method ReadRows(rows: seq<Row>) returns (r: Result<Loaded, nat>)
    ensures r == Seed(rows)
  {
    var todo: seq<Tweet> := [];
    var history: map<string, HistEntry> := map[];
    for i := 0 to |rows|
      invariant Seed(rows[..i]) == Ok(Loaded(todo, history))
    {
      var line := rows[i];
      assert rows[..i + 1][..i] == rows[..i];
      if "text" !in line {
        SeedErrorSticks(rows[..i + 1], rows);
        return Err(i);
      }
      var stripped := Normalize.Normalize(line["text"]);
      if Lookup(line, "level").Some? && line["level"] != "" && !(stripped in history && Truthy(history[stripped])) {
        history := history[stripped := FileEntry(line["level"])];
      }
      todo := todo + [FromRow(line)];
    }
    assert rows[..|rows|] == rows;
    return Ok(Loaded(todo, history));
  }

  /** Once a row has aborted the load, later rows change nothing. */
  lemma {:induction false} SeedErrorSticks(rows: seq<Row>, all: seq<Row>)
    requires rows <= all && Seed(rows).Err?
    ensures Seed(all) == Seed(rows)
    decreases |all|
  {
    if |all| > |rows| {
      assert rows <= all[..|all| - 1];
      SeedErrorSticks(rows, all[..|all| - 1]);
    } else {
      assert all == rows;
    }
  }

  /** Row i is the first row with a level whose text has key `key`. */
  ghost predicate FirstLevelled(rows: seq<Row>, key: string, i: int)
  {
    0 <= i < |rows| && "text" in rows[i] && Levelled(rows[i]) && Normalize.Normalize(rows[i]["text"]) == key
    && forall j :: 0 <= j < i && "text" in rows[j] && Levelled(rows[j]) ==> Normalize.Normalize(rows[j]["text"]) != key
  }

  /** Every row has a `text` column. */
  ghost predicate HasTexts(rows: seq<Row>)
  {
    forall i :: 0 <= i < |rows| ==> "text" in rows[i]
  }

  /** After loading, `todo` holds one record per row, in file order. */
  lemma {:induction false} SeedRecords(rows: seq<Row>)
    requires HasTexts(rows)
    ensures Seed(rows).Ok?
    ensures |Seed(rows).value.todo| == |rows|
    ensures forall i :: 0 <= i < |rows| ==> Seed(rows).value.todo[i] == FromRow(rows[i])
  {
    if rows != [] {
      var init := rows[..|rows| - 1];
      assert forall k :: 0 <= k < |init| ==> init[k] == rows[k];
      SeedRecords(init);
    }
  }

  /** After loading, the history has exactly the keys of the rows with a
      level, each mapped to the level of the first such row. */
  lemma {:induction false} SeedHistory(rows: seq<Row>)
    requires HasTexts(rows) && Seed(rows).Ok?
    ensures forall key :: key in Seed(rows).value.history ==>
      exists i :: FirstLevelled(rows, key, i) && Seed(rows).value.history[key] == FileEntry(rows[i]["level"])
    ensures forall i :: 0 <= i < |rows| && Levelled(rows[i]) ==> Normalize.Normalize(rows[i]["text"]) in Seed(rows).value.history
  {
    if rows != [] {
      var init, row := rows[..|rows| - 1], rows[|rows| - 1];
      assert forall k :: 0 <= k < |init| ==> init[k] == rows[k];
      SeedHistory(init);
      var l0, l := Seed(init).value, Seed(rows).value;
      assert l == Remember(l0, row);
      var key := Normalize.Normalize(row["text"]);
      forall k | k in l.history
        ensures exists i :: FirstLevelled(rows, k, i) && l.history[k] == FileEntry(rows[i]["level"])
      {
        if k in l0.history {
          var i :| FirstLevelled(init, k, i) && l0.history[k] == FileEntry(init[i]["level"]);
          assert FirstLevelled(rows, k, i);
          assert Truthy(l0.history[k]);
        } else {
          assert k == key;
          assert FirstLevelled(rows, k, |rows| - 1);
        }
      }
    }
  }

  /** Both halves of what loading builds. */
  lemma SeedContents(rows: seq<Row>)
    requires HasTexts(rows)
    ensures Seed(rows).Ok?
    ensures |Seed(rows).value.todo| == |rows|
    ensures forall i :: 0 <= i < |rows| ==> Seed(rows).value.todo[i] == FromRow(rows[i])
    ensures forall key :: key in Seed(rows).value.history ==>
      exists i :: FirstLevelled(rows, key, i) && Seed(rows).value.history[key] == FileEntry(rows[i]["level"])
    ensures forall i :: 0 <= i < |rows| && Levelled(rows[i]) ==> Normalize.Normalize(rows[i]["text"]) in Seed(rows).value.history
  {
    SeedRecords(rows);
    SeedHistory(rows);
  }

  /** The load fails exactly when a row lacks `text`, at the first such row. */
  lemma {:induction false} SeedFails(rows: seq<Row>)
    ensures Seed(rows).Ok? <==> HasTexts(rows)
    ensures Seed(rows).Err? ==>
      var i := Seed(rows).error; 0 <= i < |rows| && "text" !in rows[i] && HasTexts(rows[..i])
  {
    if rows != [] {
      var init := rows[..|rows| - 1];
      SeedFails(init);
      assert forall k :: 0 <= k < |init| ==> init[k] == rows[k];
      if Seed(init).Err? {
        var i := Seed(init).error;
        assert init[..i] == rows[..i];
      } else if "text" !in rows[|rows| - 1] {
        assert rows[..|rows| - 1] == init;
      }
    }
  }

  /** A later duplicate feeds an earlier record: the history is built over the
      whole file before any record is looked at. */
  lemma LaterRowFeedsEarlier(text: string, level: string)
    requires level != ""
    ensures var rows := [map["text" := text], map["text" := text, "level" := level]];
      Seed(rows).Ok? && Normalize.Normalize(text) in Seed(rows).value.history &&
      Seed(rows).value.history[Normalize.Normalize(text)] == FileEntry(level) &&
      Seed(rows).value.todo[0].level == NoLevel
  {
    var rows := [map["text" := text], map["text" := text, "level" := level]];
    assert rows[..1][..0] == [];
    assert rows[..1] == [rows[0]];
    var l0 := Loaded([], map[]);
    assert Seed(rows[..1][..0]) == Ok(l0);
    var l1 := Remember(l0, rows[0]);
    assert Seed(rows[..1]) == Ok(l1);
    assert l1.history == map[];
    assert rows[..|rows| - 1] == rows[..1];
    assert Seed(rows) == Ok(Remember(l1, rows[1]));
  }

  // ---------------------------------------------------------------------
  // annotate_tweet and main

  predicate IsDigit(c: char)
  {
    '0' <= c <= '9'
  }

  /** `int(inp)` of a string of ASCII digits. */
  function DigitsValue(s: string): nat
    requires forall k :: 0 <= k < |s| ==> IsDigit(s[k])
  {
    if s == [] then 0
    else
      assert IsDigit(s[|s| - 1]);
      DigitsValue(s[..|s| - 1]) * 10 + (s[|s| - 1] as int - '0' as int)
  }

  /** An answer the prompt keeps: `inp.isdigit()` (a non-empty run of
      digits) and `int(inp) <= 7`. */
  predicate LevelAnswer(inp: string)
  {
    |inp| > 0 && (forall k :: 0 <= k < |inp| ==> IsDigit(inp[k])) && DigitsValue(inp) <= 7
  }

  /** The level prompt's acceptance test, as a value the prompt loop uses. */
  function LevelAnswers(): string -> bool
  {
    inp => LevelAnswer(inp)
  }

  /** How one `annotate_tweet` call ends. */
  datatype Step =
    | Next(pos: nat) // the record is done; the next answer to read
    | Stop           // the answer was 0: `save()` and exit
    | Fault          // `input()` ran out: the handler in `main` saves and exits

  datatype ToolState = ToolState(todo: seq<Tweet>, history: map<string, HistEntry>)

  datatype StepResult = StepResult(state: ToolState, step: Step)

  /** `annotate_tweet(index, tweet)` on `todo[index]`. */
  function Annotated(s: ToolState, index: nat, answers: seq<string>, pos: nat): (r: StepResult)
    requires index < |s.todo| && pos <= |answers|
    ensures |r.state.todo| == |s.todo|
    ensures r.step.Next? ==> pos <= r.step.pos <= |answers|
  {
    var t := s.todo[index];
    if Filled(t.level) then StepResult(s, Next(pos))
    else if t.stripped in s.history && Truthy(s.history[t.stripped]) then
      StepResult(s.(todo := s.todo[index := t.(level := AsLevel(s.history[t.stripped]))]), Next(pos))
    else
      match FirstAccepted(answers, pos, LevelAnswers())
      case None => StepResult(s, Fault)
      case Some(k) =>
        var choice := DigitsValue(answers[k]);
        if choice == 0 then StepResult(s, Stop)
        else StepResult(ToolState(s.todo[index := t.(level := Chosen(choice))], s.history[t.stripped := RecordRef(index)]), Next(k + 1))
  }

  /** How a run of `main` ends: every record visited (then saved), a 0 typed,
      or the answers exhausted. */
  datatype Ending = Done | Stopped | Faulted

  datatype RunResult = RunResult(state: ToolState, ending: Ending)

  /** `main` from record i on. */
  function RunFrom(s: ToolState, i: nat, answers: seq<string>, pos: nat): RunResult
    requires pos <= |answers|
    decreases |s.todo| - i
  {
    if i >= |s.todo| then RunResult(s, Done)
    else
      var r := Annotated(s, i, answers, pos);
      match r.step
      case Next(p) => RunFrom(r.state, i + 1, answers, p)
      case Stop => RunResult(r.state, Stopped)
      case Fault => RunResult(r.state, Faulted)
  }

  // ---------------------------------------------------------------------
  // Properties of annotate_tweet and main

  /** A record that already has a level is left alone, and so is the history. */
  lemma AlreadyFilled(s: ToolState, index: nat, answers: seq<string>, pos: nat)
    requires index < |s.todo| && pos <= |answers|
    requires Filled(s.todo[index].level)
    ensures Annotated(s, index, answers, pos) == StepResult(s, Next(pos))
  {
  }

  /** A record whose key has a true history value takes that value as its
      level, without reading any answer; the history is unchanged. */
  lemma SeenBefore(s: ToolState, index: nat, answers: seq<string>, pos: nat)
    requires index < |s.todo| && pos <= |answers|
    requires !Filled(s.todo[index].level)
    requires s.todo[index].stripped in s.history && Truthy(s.history[s.todo[index].stripped])
    ensures var r := Annotated(s, index, answers, pos);
      && r.step == Next(pos)
      && r.state.history == s.history
      && r.state.todo == s.todo[index := s.todo[index].(level := AsLevel(s.history[s.todo[index].stripped]))]
  {
  }

  /** Otherwise the answers are read: rejected ones are skipped with no
      change; when none is accepted the call faults, on 0 it stops with no
      change, and on 1-7 the record gets that level and the history stores the
      record itself under its key. */
  lemma Typed(s: ToolState, index: nat, answers: seq<string>, pos: nat)
    requires index < |s.todo| && pos <= |answers|
    requires !Filled(s.todo[index].level)
    requires !(s.todo[index].stripped in s.history && Truthy(s.history[s.todo[index].stripped]))
    ensures var r := Annotated(s, index, answers, pos);
      && (r.step == Fault <==> forall k :: pos <= k < |answers| ==> !LevelAnswer(answers[k]))
      && (r.step.Fault? || r.step.Stop? ==> r.state == s)
      && (r.step.Stop? <==> exists k ::
            && pos <= k < |answers|
            && LevelAnswer(answers[k]) && DigitsValue(answers[k]) == 0
            && (forall j :: pos <= j < k ==> !LevelAnswer(answers[j])))
      && (r.step.Next? ==> pos < r.step.pos)
      && (r.step.Next? ==>
        var k := r.step.pos - 1;
        var t := s.todo[index];
        && LevelAnswer(answers[k]) && 1 <= DigitsValue(answers[k]) <= 7
        && (forall j :: pos <= j < k ==> !LevelAnswer(answers[j]))
        && r.state.todo == s.todo[index := t.(level := Chosen(DigitsValue(answers[k])))]
        && r.state.history == s.history[t.stripped := RecordRef(index)])
  {
    var r := FirstAccepted(answers, pos, LevelAnswers());
    assert forall k :: pos <= k < |answers| ==> LevelAnswers()(answers[k]) == LevelAnswer(answers[k]);
  }

  /** `annotate_tweet` touches only its own record, and there only the level,
      and at most the one history key of that record; a call that goes on
      leaves the record with a level. */
  lemma AnnotatedFrame(s: ToolState, index: nat, answers: seq<string>, pos: nat)
    requires index < |s.todo| && pos <= |answers|
    ensures var r := Annotated(s, index, answers, pos);
      && (forall j :: 0 <= j < |s.todo| && j != index ==> r.state.todo[j] == s.todo[j])
      && r.state.todo[index].row == s.todo[index].row
      && r.state.todo[index].stripped == s.todo[index].stripped
      && r.state.history.Keys <= s.history.Keys + {s.todo[index].stripped}
      && (forall key :: key in s.history && key != s.todo[index].stripped ==> r.state.history[key] == s.history[key])
      && (r.step.Next? ==> Filled(r.state.todo[index].level))
  {
  }

  /** A run of `main` from record i keeps the number of records and does not
      touch the records before i; a run that ends Done leaves every record
      from i on with a level. */
  lemma {:induction false} RunFills(s: ToolState, i: nat, answers: seq<string>, pos: nat)
    requires pos <= |answers|
    ensures |RunFrom(s, i, answers, pos).state.todo| == |s.todo|
    ensures forall j :: 0 <= j < i && j < |s.todo| ==> RunFrom(s, i, answers, pos).state.todo[j] == s.todo[j]
    ensures RunFrom(s, i, answers, pos).ending == Done ==>
      forall j :: i <= j < |s.todo| ==> Filled(RunFrom(s, i, answers, pos).state.todo[j].level)
    decreases |s.todo| - i
  {
    if i < |s.todo| {
      var r := Annotated(s, i, answers, pos);
      AnnotatedFrame(s, i, answers, pos);
      if r.step.Next? {
        RunFills(r.state, i + 1, answers, r.step.pos);
      }
    }
  }

  /** The history keeps the record, not the level (the comment on the lookup
      says otherwise): a duplicate of a record given level 5 gets the record
      itself as its level. */
  lemma DuplicateGetsRecord(row: Row)
    requires "text" in row && "level" !in row
    ensures var s := ToolState([FromRow(row), FromRow(row)], map[]);
      var r := RunFrom(s, 0, ["5"], 0);
      r.ending == Done && |r.state.todo| == 2 && r.state.todo[0].level == Chosen(5) && r.state.todo[1].level == RecordOf(0)
  {
    var s := ToolState([FromRow(row), FromRow(row)], map[]);
    assert LevelAnswer("5") && DigitsValue("5") == 5 by {
      assert "5"[..0] == [];
    }
    assert FirstAccepted(["5"], 0, LevelAnswers()) == Some(0);
    var r0 := Annotated(s, 0, ["5"], 0);
    assert r0.step == Next(1);
    assert r0.state.todo[0].level == Chosen(5);
    var r1 := Annotated(r0.state, 1, ["5"], 1);
    assert r1.state.todo[1].level == RecordOf(0);
    assert r1.state.todo[0] == r0.state.todo[0];
    assert RunFrom(s, 0, ["5"], 0) == RunFrom(r0.state, 1, ["5"], 1);
    assert RunFrom(r0.state, 1, ["5"], 1) == RunFrom(r1.state, 2, ["5"], 1);
  }

  /** The state of `Tool` between its steps. */
  class AnnotationTool {
    var todo: seq<Tweet>
    var history: map<string, HistEntry>

    /** `__init__`, given what the loading loop built. */
    constructor (loaded: Loaded)
      ensures todo == loaded.todo && history == loaded.history
    {
      todo := loaded.todo;
      history := loaded.history;
    }

    function State(): ToolState
      reads this
    {
      ToolState(todo, history)
    }

    /** `annotate_tweet(index, todo[index])`. */
    method AnnotateTweet(index: nat, answers: seq<string>, pos: nat) returns (step: Step)
      requires index < |todo| && pos <= |answers|
      modifies this
      ensures StepResult(State(), step) == Annotated(old(State()), index, answers, pos)
    {
      var tweet := todo[index];
      if Filled(tweet.level) {
        return Next(pos);
      }
      var key := tweet.stripped;
      if key in history && Truthy(history[key]) {
        todo := todo[index := tweet.(level := AsLevel(history[key]))];
        return Next(pos);
      }
      var k := Ask(answers, pos, LevelAnswers());
      if k.None? {
        return Fault;
      }
      var choice := DigitsValue(answers[k.value]);
      if choice == 0 {
        return Stop;
      }
      todo := todo[index := tweet.(level := Chosen(choice))];
      history := history[key := RecordRef(index)];
      return Next(k.value + 1);
    }

    /** `main`: `annotate_tweet` on every record in order until a 0 or the end
        of the answers stops it. */
    method Run(answers: seq<string>) returns (ending: Ending)
      modifies this
      ensures RunResult(State(), ending) == RunFrom(old(State()), 0, answers, 0)
    {
      var pos: nat := 0;
      var index := 0;
      while index < |todo|
        invariant pos <= |answers|
        invariant RunFrom(old(State()), 0, answers, 0) == RunFrom(State(), index, answers, pos)
        decreases |todo| - index
      {
        var step := AnnotateTweet(index, answers, pos);
        match step
        case Stop => return Stopped;
        case Fault => return Faulted;
        case Next(p) =>
          pos := p;
          index := index + 1;
      }
      return Done;
    }
  }
}
