/** compare.py: the vote-reconciliation tool. Rows of several annotators'
    files are grouped by item id, each axis is decided by `choose`, and the
    items left at "?" are adjudicated from typed answers. */
module Compare {

  import opened Tables
  import opened Consensus
  import opened Prompts

  /** `CompareTool.EXPLICITNESS`: answer code to explicitness label. */
  const EXPLICITNESS_CODES: map<char, string> := map['e' := "EXPLICIT", 'i' := "IMPLICIT", 'n' := "NOT"]

  /** `CompareTool.TARGET`: answer code to target label. */
  const TARGET_CODES: map<char, string> := map['i' := "INDIVIDUAL", 'g' := "GROUP", 'o' := "OTHER", 'n' := "NOT"]

  // ---------------------------------------------------------------------
  // load_annotations

  /** What `load_annotations` builds: `tweets` (each item's first row without
      its two vote columns) and `annotations` (each item's votes), both dicts
      whose keys are in `order`, the order in which ids were first seen. */
  datatype Store = Store(order: seq<string>, tweets: map<string, Row>, annotations: map<string, seq<Annotation>>)

  ghost predicate Distinct(xs: seq<string>)
  {
    forall a, b :: 0 <= a < b < |xs| ==> xs[a] != xs[b]
  }

  /** Both dicts have exactly the ids of `order` as keys, and each id has at
      least one vote. */
  ghost predicate StoreValid(s: Store)
  {
    && Distinct(s.order)
    && (forall id :: id in s.tweets <==> id in s.order)
    && (forall id :: id in s.annotations <==> id in s.order)
    && (forall id :: id in s.annotations ==> |s.annotations[id]| > 0)
  }

  /** The first of the columns `load_annotations` reads that a row lacks, in
      the order it reads them (`row['id']`, `row['explicitness']`,
      `row['target']`); a missing one raises `KeyError`. */
  function MissingColumn(row: Row): Option<string>
  {
    if "id" !in row then Some("id")
    else if "explicitness" !in row then Some("explicitness")
    else if "target" !in row then Some("target")
    else None
  }

  ghost predicate Complete(rows: seq<Row>)
  {
    forall i :: 0 <= i < |rows| ==> MissingColumn(rows[i]).None?
  }

  /** One pass of the inner loop: append the row's vote to its id's list, and
      store the row itself, less its votes, when the id is new. */
  function AddRow(s: Store, row: Row): Store
    requires MissingColumn(row).None?
  {
    var id := row["id"];
    var vote := Annotation(row["explicitness"], row["target"]);
    var votes := if id in s.annotations then s.annotations[id] else [];
    if id in s.tweets then s.(annotations := s.annotations[id := votes + [vote]])
    else Store(s.order + [id], s.tweets[id := row - {"explicitness", "target"}], s.annotations[id := votes + [vote]])
  }

  /** The state after the rows so far, or the missing column that aborted. */
  function Load(rows: seq<Row>): Result<Store, string>
  {
    if rows == [] then Ok(Store([], map[], map[]))
    else
      match Load(rows[..|rows| - 1])
      case Err(column) => Err(column)
      case Ok(s) =>
        var row := rows[|rows| - 1];
        match MissingColumn(row)
        case Some(column) => Err(column)
        case None => Ok(AddRow(s, row))
  }

  /** The rows of all files, file after file. */
  function Flatten(files: seq<seq<Row>>): seq<Row>
  {
    if files == [] then [] else Flatten(files[..|files| - 1]) + files[|files| - 1]
  }

  lemma {:induction false} FlattenAppend(a: seq<seq<Row>>, b: seq<seq<Row>>)
    ensures Flatten(a + b) == Flatten(a) + Flatten(b)
    decreases |b|
  {
    if b == [] {
      assert a + b == a;
    } else {
      var b' := b[..|b| - 1];
      assert (a + b)[..|a + b| - 1] == a + b';
      FlattenAppend(a, b');
    }
  }

  /** The rows read before row j of file i are a prefix of all rows. */
  lemma FlattenPrefix(files: seq<seq<Row>>, i: nat, j: nat)
    requires i < |files| && j <= |files[i]|
    ensures Flatten(files[..i]) + files[i][..j] <= Flatten(files)
  {
    assert files == files[..i] + ([files[i]] + files[i + 1..]);
    FlattenAppend(files[..i], [files[i]] + files[i + 1..]);
    FlattenAppend([files[i]], files[i + 1..]);
    assert Flatten([files[i]]) == files[i] by {
      assert [files[i]][..0] == [];
    }
    assert files[i] == files[i][..j] + files[i][j..];
  }

  /** Once a row aborts the load, reading more rows changes nothing. */
  lemma {:induction false} LoadErrorSticks(rows: seq<Row>, all: seq<Row>)
    requires rows <= all && Load(rows).Err?
    ensures Load(all) == Load(rows)
    decreases |all|
  {
    if |all| > |rows| {
      assert rows <= all[..|all| - 1];
      LoadErrorSticks(rows, all[..|all| - 1]);
    } else {
      assert all == rows;
    }
  }

  /** Reading row j of file i adds that row to the rows read so far. */
  lemma LoadRowStep(files: seq<seq<Row>>, i: nat, j: nat)
    requires i < |files| && j < |files[i]|
    ensures var before := Flatten(files[..i]) + files[i][..j];
      && Flatten(files[..i]) + files[i][..j + 1] == before + [files[i][j]]
      && (Load(before).Ok? && MissingColumn(files[i][j]).None? ==>
        Load(before + [files[i][j]]) == Ok(AddRow(Load(before).value, files[i][j])))
  {
    var before := Flatten(files[..i]) + files[i][..j];
    assert files[i][..j + 1] == files[i][..j] + [files[i][j]];
    assert (before + [files[i][j]])[..|before|] == before;
  }

  /** Reading file i after the files before it: no rows at first, and all of
      them at the end. */
  lemma LoadFileStep(files: seq<seq<Row>>, i: nat)
    requires i < |files|
    ensures Flatten(files[..i]) + files[i][..0] == Flatten(files[..i])
    ensures Flatten(files[..i]) + files[i][..|files[i]|] == Flatten(files[..i + 1])
  {
    assert files[i][..|files[i]|] == files[i];
    assert files[..i + 1][..i] == files[..i];
  }

  /** Nested loops over the files and their rows, filling the two dicts. */
  method LoadAnnotations(files: seq<seq<Row>>) returns (r: Result<Store, string>)
    ensures r == Load(Flatten(files))
  {
    var order: seq<string> := [];
    var tweets: map<string, Row> := map[];
    var annotations: map<string, seq<Annotation>> := map[];
    for i := 0 to |files|
      invariant Load(Flatten(files[..i])) == Ok(Store(order, tweets, annotations))
    {
      LoadFileStep(files, i);
      for j := 0 to |files[i]|
        invariant Load(Flatten(files[..i]) + files[i][..j]) == Ok(Store(order, tweets, annotations))
      {
        var row := files[i][j];
        LoadRowStep(files, i, j);
        if MissingColumn(row).Some? {
          FlattenPrefix(files, i, j + 1);
          LoadErrorSticks(Flatten(files[..i]) + files[i][..j + 1], Flatten(files));
          return Err(MissingColumn(row).value);
        }
        AddRowFields(Store(order, tweets, annotations), row);
        var id := row["id"];
        var votes := if id in annotations then annotations[id] else [];
        annotations := annotations[id := votes + [Annotation(row["explicitness"], row["target"])]];
        if id !in tweets {
          order := order + [id];
          tweets := tweets[id := row - {"explicitness", "target"}];
        }
      }
    }
    assert files[..|files|] == files;
    return Ok(Store(order, tweets, annotations));
  }

  /** `AddRow` field by field, as the loop body of `load_annotations` updates them. */
  lemma AddRowFields(s: Store, row: Row)
    requires MissingColumn(row).None?
    ensures var id := row["id"];
      var votes := if id in s.annotations then s.annotations[id] else [];
      var s' := AddRow(s, row);
      && s'.annotations == s.annotations[id := votes + [Annotation(row["explicitness"], row["target"])]]
      && s'.order == (if id in s.tweets then s.order else s.order + [id])
      && s'.tweets == (if id in s.tweets then s.tweets else s.tweets[id := row - {"explicitness", "target"}])
  {
  }

  /** The load succeeds exactly when every row has the three columns; when it
      fails, the error names the missing column of the first row that lacks one. */
  lemma {:induction false} LoadFails(rows: seq<Row>)
    ensures Load(rows).Ok? <==> Complete(rows)
    ensures Load(rows).Err? ==>
      exists i :: 0 <= i < |rows| && Complete(rows[..i]) && MissingColumn(rows[i]) == Some(Load(rows).error)
  {
    if rows != [] {
      var init := rows[..|rows| - 1];
      LoadFails(init);
      assert forall i :: 0 <= i < |init| ==> init[i] == rows[i];
      if Load(init).Err? {
        var i :| 0 <= i < |init| && Complete(init[..i]) && MissingColumn(init[i]) == Some(Load(init).error);
        assert init[..i] == rows[..i];
      } else if MissingColumn(rows[|rows| - 1]).Some? {
        assert rows[..|rows| - 1] == init;
      }
    }
  }

  /** The votes of the rows carrying `id`, in row order. */
  function VotesOf(rows: seq<Row>, id: string): seq<Annotation>
    requires Complete(rows)
  {
    if rows == [] then []
    else
      var last := rows[|rows| - 1];
      VotesOf(rows[..|rows| - 1], id) + (if last["id"] == id then [Annotation(last["explicitness"], last["target"])] else [])
  }

  lemma {:induction false} VotesOfAbsent(rows: seq<Row>, id: string)
    requires Complete(rows)
    requires forall i :: 0 <= i < |rows| ==> rows[i]["id"] != id
    ensures VotesOf(rows, id) == []
  {
    if rows != [] {
      VotesOfAbsent(rows[..|rows| - 1], id);
    }
  }

  /** Row i is the first row carrying `id`. */
  ghost predicate FirstWithId(rows: seq<Row>, id: string, i: int)
    requires Complete(rows)
  {
    0 <= i < |rows| && rows[i]["id"] == id && forall j :: 0 <= j < i ==> rows[j]["id"] != id
  }

  /** `order` lists ids by the position of their first row. */
  ghost predicate InFirstSeenOrder(rows: seq<Row>, order: seq<string>)
    requires Complete(rows)
  {
    forall a, b, i, j ::
      0 <= a < b < |order| && FirstWithId(rows, order[a], i) && FirstWithId(rows, order[b], j) ==> i < j
  }

  lemma FirstWithIdInit(rows: seq<Row>, id: string, i: int)
    requires Complete(rows) && |rows| > 0
    requires exists k :: 0 <= k < |rows| - 1 && rows[k]["id"] == id
    ensures Complete(rows[..|rows| - 1])
    ensures FirstWithId(rows, id, i) <==> FirstWithId(rows[..|rows| - 1], id, i)
  {
    var init := rows[..|rows| - 1];
    assert forall k :: 0 <= k < |init| ==> init[k] == rows[k];
    if FirstWithId(rows, id, i) {
      var k :| 0 <= k < |rows| - 1 && rows[k]["id"] == id;
      assert i <= k;
    }
  }

  /** The store built from the rows of `init` and then `row`. */
  lemma LoadLast(rows: seq<Row>)
    requires Complete(rows) && rows != []
    ensures Complete(rows[..|rows| - 1])
    ensures forall k :: 0 <= k < |rows| - 1 ==> rows[..|rows| - 1][k] == rows[k]
    ensures Load(rows[..|rows| - 1]).Ok? ==> Load(rows) == Ok(AddRow(Load(rows[..|rows| - 1]).value, rows[|rows| - 1]))
  {
  }

  /** A non-empty sequence is its front followed by its last element. */
  lemma LastSplit(rows: seq<Row>)
    requires rows != []
    ensures rows == rows[..|rows| - 1] + [rows[|rows| - 1]]
  {
  }

  /** A complete load succeeds with a well-formed store whose ids are exactly
      those of the rows. */
  lemma {:induction false} LoadShape(rows: seq<Row>)
    requires Complete(rows)
    ensures Load(rows).Ok?
    ensures StoreValid(Load(rows).value)
    ensures forall id :: id in Load(rows).value.order <==> exists i :: 0 <= i < |rows| && rows[i]["id"] == id
  {
    if rows != [] {
      LoadLast(rows);
      var init, row := rows[..|rows| - 1], rows[|rows| - 1];
      LoadShape(init);
      var s0 := Load(init).value;
      AddRowValid(s0, row);
      LastSplit(rows);
      IdsExtend(rows, init, row, s0.order, AddRow(s0, row).order);
    }
  }

  /** One added row keeps the store well formed, and either leaves `order`
      alone or appends the row's new id. */
  lemma AddRowValid(s: Store, row: Row)
    requires StoreValid(s) && MissingColumn(row).None?
    ensures StoreValid(AddRow(s, row))
    ensures || (AddRow(s, row).order == s.order && row["id"] in s.order)
            || (AddRow(s, row).order == s.order + [row["id"]] && row["id"] !in s.order)
  {
  }

  /** Appending the last row's id, when it is new, lists exactly the ids of
      all the rows. */
  lemma IdsExtend(rows: seq<Row>, init: seq<Row>, row: Row, o0: seq<string>, o: seq<string>)
    requires Complete(rows) && Complete(init) && MissingColumn(row).None? && rows == init + [row]
    requires forall x :: x in o0 <==> exists i :: 0 <= i < |init| && init[i]["id"] == x
    requires (o == o0 && row["id"] in o0) || o == o0 + [row["id"]]
    ensures forall x :: x in o <==> exists i :: 0 <= i < |rows| && rows[i]["id"] == x
  {
    forall x
      ensures x in o <==> exists i :: 0 <= i < |rows| && rows[i]["id"] == x
    {
      if x in o0 {
        var i :| 0 <= i < |init| && init[i]["id"] == x;
        assert rows[i] == init[i];
        if o != o0 {
          assert x in o0 + [row["id"]];
        }
      } else if x == row["id"] {
        assert rows[|rows| - 1] == row;
        assert o[|o0|] == x;
      } else {
        assert x !in o;
        forall i | 0 <= i < |rows|
          ensures rows[i]["id"] != x
        {
          if i < |init| {
            assert rows[i] == init[i];
          }
        }
      }
    }
  }

  /** Each id's votes are those of its rows, in file-then-row order. */
  lemma {:induction false} LoadVotes(rows: seq<Row>)
    requires Complete(rows)
    ensures Load(rows).Ok? ==>
      forall id :: id in Load(rows).value.annotations ==> Load(rows).value.annotations[id] == VotesOf(rows, id)
  {
    if rows != [] {
      LoadLast(rows);
      var init, row := rows[..|rows| - 1], rows[|rows| - 1];
      LoadVotes(init);
      LoadShape(init);
      var s0, s := Load(init).value, Load(rows).value;
      forall x | x in s.annotations
        ensures s.annotations[x] == VotesOf(rows, x)
      {
        if x == row["id"] && x !in s0.annotations {
          VotesOfAbsent(init, x);
        }
      }
    }
  }

  /** Each stored item is the first row with its id, less the two vote columns. */
  lemma {:induction false} LoadFirstRows(rows: seq<Row>)
    requires Complete(rows)
    ensures Load(rows).Ok? ==>
      forall id :: id in Load(rows).value.tweets ==>
        exists i :: FirstWithId(rows, id, i) && Load(rows).value.tweets[id] == rows[i] - {"explicitness", "target"}
  {
    if rows != [] {
      LoadLast(rows);
      var init, row := rows[..|rows| - 1], rows[|rows| - 1];
      LoadFirstRows(init);
      LoadShape(init);
      var s0, s := Load(init).value, Load(rows).value;
      var id := row["id"];
      forall x | x in s.tweets
        ensures exists i :: FirstWithId(rows, x, i) && s.tweets[x] == rows[i] - {"explicitness", "target"}
      {
        if x in s0.tweets {
          var i :| FirstWithId(init, x, i) && s0.tweets[x] == init[i] - {"explicitness", "target"};
          assert init[i]["id"] == x;
          FirstWithIdInit(rows, x, i);
        } else {
          assert x == id;
          assert forall k :: 0 <= k < |init| ==> init[k]["id"] != id;
          assert FirstWithId(rows, id, |rows| - 1);
        }
      }
    }
  }

  /** The ids are listed in the order of their first rows. */
  lemma {:induction false} LoadOrder(rows: seq<Row>)
    requires Complete(rows)
    ensures Load(rows).Ok? ==> InFirstSeenOrder(rows, Load(rows).value.order)
  {
    if rows != [] {
      LoadLast(rows);
      var init, row := rows[..|rows| - 1], rows[|rows| - 1];
      LoadOrder(init);
      LoadShape(init);
      var s0 := Load(init).value;
      OrderExtends(rows, s0.order, AddRow(s0, row).order);
    }
  }

  /** Appending the last row's id when it is new keeps the first-seen order. */
  lemma OrderExtends(rows: seq<Row>, o0: seq<string>, o: seq<string>)
    requires Complete(rows) && rows != [] && Complete(rows[..|rows| - 1])
    requires InFirstSeenOrder(rows[..|rows| - 1], o0)
    requires forall x :: x in o0 <==> exists i :: 0 <= i < |rows| - 1 && rows[i]["id"] == x
    requires o == o0 || (o == o0 + [rows[|rows| - 1]["id"]] && rows[|rows| - 1]["id"] !in o0)
    ensures InFirstSeenOrder(rows, o)
  {
    var id := rows[|rows| - 1]["id"];
    forall a, b, i, j | 0 <= a < b < |o| && FirstWithId(rows, o[a], i) && FirstWithId(rows, o[b], j)
      ensures i < j
    {
      assert o[a] in o0;
      var k :| 0 <= k < |rows| - 1 && rows[k]["id"] == o[a];
      FirstWithIdInit(rows, o[a], i);
      if b < |o0| {
        assert o[b] == o0[b] && o0[b] in o0;
        var m :| 0 <= m < |rows| - 1 && rows[m]["id"] == o[b];
        FirstWithIdInit(rows, o[b], j);
      } else {
        assert o[b] == id && id !in o0;
        assert j == |rows| - 1;
      }
    }
  }

  /** What `load_annotations` returns, stated row by row: the ids are those
      of the rows, in first-seen order and each once; an id's votes are those
      of its rows in file-then-row order; its stored row is its first row
      without the two vote columns. */
  lemma LoadContents(rows: seq<Row>)
    requires Complete(rows)
    ensures Load(rows).Ok?
    ensures StoreValid(Load(rows).value)
    ensures forall id :: id in Load(rows).value.order <==> exists i :: 0 <= i < |rows| && rows[i]["id"] == id
    ensures forall id :: id in Load(rows).value.annotations ==> Load(rows).value.annotations[id] == VotesOf(rows, id)
    ensures forall id :: id in Load(rows).value.tweets ==>
      exists i :: FirstWithId(rows, id, i) && Load(rows).value.tweets[id] == rows[i] - {"explicitness", "target"}
    ensures InFirstSeenOrder(rows, Load(rows).value.order)
  {
    LoadShape(rows);
    LoadVotes(rows);
    LoadFirstRows(rows);
    LoadOrder(rows);
  }

  // ---------------------------------------------------------------------
  // start, count_todo and annotate on the loaded items

  /** An item that still needs a decision on one of its axes. */
  predicate IsTodo(t: Row)
  {
    Lookup(t, "explicitness") == Some("?") || Lookup(t, "target") == Some("?")
  }

  ghost function TodoIds(tweets: map<string, Row>): set<string>
  {
    set id | id in tweets && IsTodo(tweets[id])
  }

  /** An item after `start`: both axes set to what `choose` says of its votes. */
  function Resolved(t: Row, votes: seq<Annotation>): Row
    requires |votes| > 0
  {
    t["explicitness" := Decide(Labels(votes, Explicitness)).Verdict()]["target" := Decide(Labels(votes, Target)).Verdict()]
  }

  /** The items after `start` has resolved the items `ids`, in that order. */
  function ResolveAll(tweets: map<string, Row>, ids: seq<string>, annotations: map<string, seq<Annotation>>): (r: map<string, Row>)
    requires forall id :: id in ids ==> id in tweets && id in annotations && |annotations[id]| > 0
    ensures r.Keys == tweets.Keys
    decreases |ids|
  {
    if ids == [] then tweets
    else
      var last := ids[|ids| - 1];
      var before := ResolveAll(tweets, ids[..|ids| - 1], annotations);
      before[last := Resolved(before[last], annotations[last])]
  }

  /** `start` keeps the set of items, resolves each listed item from its own
      votes exactly once, and leaves the other items alone. */
  lemma {:induction false} ResolveAllEffect(tweets: map<string, Row>, ids: seq<string>, annotations: map<string, seq<Annotation>>)
    requires Distinct(ids)
    requires forall id :: id in ids ==> id in tweets && id in annotations && |annotations[id]| > 0
    ensures forall id :: id in tweets ==>
      ResolveAll(tweets, ids, annotations)[id] == if id in ids then Resolved(tweets[id], annotations[id]) else tweets[id]
    decreases |ids|
  {
    if ids != [] {
      var init, last := ids[..|ids| - 1], ids[|ids| - 1];
      assert Distinct(init);
      ResolveAllEffect(tweets, init, annotations);
      assert last !in init;
      forall id | id in ids
        ensures id == last || id in init
      {
        var k :| 0 <= k < |ids| && ids[k] == id;
        if k < |ids| - 1 {
          assert init[k] == id;
        }
      }
    }
  }

  /** After `start` the store is still well formed: same ids, same votes, same
      set of items. */
  lemma StartKeepsStore(s: Store)
    requires StoreValid(s)
    ensures StoreValid(s.(tweets := ResolveAll(s.tweets, s.order, s.annotations)))
  {
  }

  /** The statistics after `start` has chosen, item after item, explicitness
      and then target. */
  function StartStats(stats: map<string, nat>, ids: seq<string>, annotations: map<string, seq<Annotation>>): map<string, nat>
    requires forall id :: id in ids ==> id in annotations && |annotations[id]| > 0
    decreases |ids|
  {
    if ids == [] then stats
    else ItemStats(StartStats(stats, ids[..|ids| - 1], annotations), annotations[ids[|ids| - 1]])
  }

  /** The statistics after both axes of one item have been chosen. */
  function ItemStats(stats: map<string, nat>, votes: seq<Annotation>): map<string, nat>
    requires |votes| > 0
  {
    Record(Record(stats, Explicitness, Decide(Labels(votes, Explicitness))), Target, Decide(Labels(votes, Target)))
  }

  /** One item of `start`, as the two folds see it. */
  lemma StartStep(stats: map<string, nat>, tweets: map<string, Row>, ids: seq<string>, i: nat, annotations: map<string, seq<Annotation>>)
    requires i < |ids|
    requires forall id :: id in ids ==> id in tweets && id in annotations && |annotations[id]| > 0
    ensures ids[i] in ResolveAll(tweets, ids[..i], annotations)
    ensures StartStats(stats, ids[..i + 1], annotations) == ItemStats(StartStats(stats, ids[..i], annotations), annotations[ids[i]])
    ensures ResolveAll(tweets, ids[..i + 1], annotations) ==
      var before := ResolveAll(tweets, ids[..i], annotations);
      before[ids[i] := Resolved(before[ids[i]], annotations[ids[i]])]
  {
    assert ids[..i + 1][..i] == ids[..i];
  }

  /** The sum behind `count_todo`. */
  function TodoIn(ids: seq<string>, tweets: map<string, Row>): nat
    requires forall id :: id in ids ==> id in tweets
  {
    if ids == [] then 0 else (if IsTodo(tweets[ids[0]]) then 1 else 0) + TodoIn(ids[1..], tweets)
  }

  lemma {:induction false} TodoInCounts(ids: seq<string>, tweets: map<string, Row>)
    requires Distinct(ids) && forall id :: id in ids ==> id in tweets
    ensures TodoIn(ids, tweets) == |set id | id in ids && id in tweets && IsTodo(tweets[id])|
  {
    if ids != [] {
      var rest := ids[1..];
      assert Distinct(rest);
      TodoInCounts(rest, tweets);
      var all := set id | id in ids && id in tweets && IsTodo(tweets[id]);
      var later := set id | id in rest && id in tweets && IsTodo(tweets[id]);
      assert ids[0] !in later;
      if IsTodo(tweets[ids[0]]) {
        assert all == later + {ids[0]};
      } else {
        assert all == later;
      }
    }
  }

  /** The lowercased first character of `answer + ' '`. */
  function Code(answer: string): char
  {
    var c := (answer + " ")[0];
    if 'A' <= c <= 'Z' then (c as int + 32) as char else c
  }

  /** An answer is accepted exactly when its code is a key of the table. */
  function CodeIn(table: map<char, string>): string -> bool
  {
    answer => Code(answer) in table
  }

  /** One `while True` prompt: the label of the first accepted answer from
      `pos` and the position after it, or None when the answers run out. */
  function ReadCode(answers: seq<string>, pos: nat, table: map<char, string>): (r: Option<(string, nat)>)
    requires pos <= |answers|
    ensures r.None? <==> forall k :: pos <= k < |answers| ==> Code(answers[k]) !in table
    ensures r.Some? ==>
      && pos < r.value.1 <= |answers|
      && Code(answers[r.value.1 - 1]) in table
      && r.value.0 == table[Code(answers[r.value.1 - 1])]
      && forall k :: pos <= k < r.value.1 - 1 ==> Code(answers[k]) !in table
  {
    match FirstAccepted(answers, pos, CodeIn(table))
    case None => None
    case Some(k) => Some((table[Code(answers[k])], k + 1))
  }

  /** One item of `annotate`: an item with no "?" is left alone; one already
      at explicitness NOT gets an empty target without a prompt; otherwise the
      explicitness prompt runs and, unless the answer is NOT, the target
      prompt. None: the answers ran out. */
  function Adjudicate(t: Row, answers: seq<string>, pos: nat): (r: Option<(Row, nat)>)
    requires pos <= |answers|
    ensures r.Some? ==> pos <= r.value.1 <= |answers|
    ensures !IsTodo(t) ==> r == Some((t, pos))
    ensures IsTodo(t) && Lookup(t, "explicitness") == Some("NOT") ==> r == Some((t["target" := ""], pos))
  {
    if !IsTodo(t) then Some((t, pos))
    else if Lookup(t, "explicitness") == Some("NOT") then
      assert t["target" := ""]["explicitness" := "NOT"] == t["target" := ""];
      Some((t["target" := ""]["explicitness" := "NOT"], pos))
    else
      match ReadCode(answers, pos, EXPLICITNESS_CODES)
      case None => None
      case Some((e, p)) =>
        if e == "NOT" then Some((t["target" := ""]["explicitness" := e], p))
        else
          match ReadCode(answers, p, TARGET_CODES)
          case None => None
          case Some((g, q)) => Some((t["target" := g]["explicitness" := e], q))
  }

  /** An adjudicated item has no "?" left; its explicitness is a label of the
      explicitness table and its target one of the target table, or empty
      exactly when explicitness is NOT. */
  lemma AdjudicateSettles(t: Row, answers: seq<string>, pos: nat)
    requires pos <= |answers|
    requires IsTodo(t) && Adjudicate(t, answers, pos).Some?
    ensures var t' := Adjudicate(t, answers, pos).value.0;
      && "explicitness" in t' && "target" in t'
      && !IsTodo(t')
      && t'["explicitness"] in {"EXPLICIT", "IMPLICIT", "NOT"}
      && (t'["target"] == "" <==> t'["explicitness"] == "NOT")
      && (t'["target"] == "" || t'["target"] in {"INDIVIDUAL", "GROUP", "OTHER", "NOT"})
  {
    CodeLabels();
    if Lookup(t, "explicitness") != Some("NOT") {
      var (e, p) := ReadCode(answers, pos, EXPLICITNESS_CODES).value;
      assert e in {"EXPLICIT", "IMPLICIT", "NOT"};
      if e != "NOT" {
        var (g, q) := ReadCode(answers, p, TARGET_CODES).value;
        assert g in {"INDIVIDUAL", "GROUP", "OTHER", "NOT"};
        assert Adjudicate(t, answers, pos).value.0 == t["target" := g]["explicitness" := e];
      }
    }
  }

  /** The answer at k is the first from `pos` whose code `table` knows. */
  predicate FirstCodeAt(answers: seq<string>, pos: nat, k: nat, table: map<char, string>)
  {
    && pos <= k < |answers|
    && Code(answers[k]) in table
    && forall j :: pos <= j < k ==> Code(answers[j]) !in table
  }

  /** The prompt stops at the first known code and writes its label. */
  lemma FirstCodeRead(answers: seq<string>, pos: nat, k: nat, table: map<char, string>)
    requires FirstCodeAt(answers, pos, k, table)
    ensures var r := ReadCode(answers, pos, table);
      r.Some? && r.value.0 == table[Code(answers[k])] && r.value.1 == k + 1
  {
    var r := ReadCode(answers, pos, table);
    assert r.Some?;
    var q := r.value.1 - 1;
    assert !(q < k) && !(k < q);
  }

  /** An item to adjudicate whose explicitness is not yet NOT, where the
      first answer with an explicitness code, at k, means NOT: the item gets
      an empty target and explicitness NOT, and no target prompt is asked. */
  lemma AdjudicateAnswerNot(t: Row, answers: seq<string>, pos: nat, k: nat)
    requires pos <= |answers|
    requires IsTodo(t) && Lookup(t, "explicitness") != Some("NOT")
    requires FirstCodeAt(answers, pos, k, EXPLICITNESS_CODES) && EXPLICITNESS_CODES[Code(answers[k])] == "NOT"
    ensures var r := Adjudicate(t, answers, pos);
      && r.Some?
      && r.value.0 == t["target" := ""]["explicitness" := "NOT"]
      && r.value.1 == k + 1
  {
    FirstCodeRead(answers, pos, k, EXPLICITNESS_CODES);
  }

  /** As above, but the explicitness answer at k is not NOT: the first answer
      after it with a target code, at m, gives the target, and the item gets
      both labels from the code tables. */
  lemma AdjudicateAnswersBoth(t: Row, answers: seq<string>, pos: nat, k: nat, m: nat)
    requires pos <= |answers|
    requires IsTodo(t) && Lookup(t, "explicitness") != Some("NOT")
    requires FirstCodeAt(answers, pos, k, EXPLICITNESS_CODES) && EXPLICITNESS_CODES[Code(answers[k])] != "NOT"
    requires FirstCodeAt(answers, k + 1, m, TARGET_CODES)
    ensures var r := Adjudicate(t, answers, pos);
      && r.Some?
      && r.value.0 == t["target" := TARGET_CODES[Code(answers[m])]]["explicitness" := EXPLICITNESS_CODES[Code(answers[k])]]
      && r.value.1 == m + 1
  {
    FirstCodeRead(answers, pos, k, EXPLICITNESS_CODES);
    FirstCodeRead(answers, k + 1, m, TARGET_CODES);
  }

  /** An item to adjudicate whose explicitness is not yet NOT runs out of
      answers exactly when no answer has an explicitness code, or the first
      one is not NOT and no later answer has a target code. */
  lemma AdjudicateRunsOut(t: Row, answers: seq<string>, pos: nat)
    requires pos <= |answers|
    requires IsTodo(t) && Lookup(t, "explicitness") != Some("NOT")
    ensures Adjudicate(t, answers, pos).None? <==>
      || (forall k :: pos <= k < |answers| ==> Code(answers[k]) !in EXPLICITNESS_CODES)
      || (exists k: nat ::
            && FirstCodeAt(answers, pos, k, EXPLICITNESS_CODES)
            && EXPLICITNESS_CODES[Code(answers[k])] != "NOT"
            && (forall m :: k + 1 <= m < |answers| ==> Code(answers[m]) !in TARGET_CODES))
  {
    var e := ReadCode(answers, pos, EXPLICITNESS_CODES);
    if e.Some? {
      var k: nat := e.value.1 - 1;
      assert FirstCodeAt(answers, pos, k, EXPLICITNESS_CODES);
      forall k': nat | FirstCodeAt(answers, pos, k', EXPLICITNESS_CODES)
        ensures k' == k
      {
        FirstCodeRead(answers, pos, k', EXPLICITNESS_CODES);
      }
    }
  }

  /** The answers `e` then `g` settle an item at EXPLICIT and GROUP. */
  lemma ExplicitGroup(t: Row)
    requires IsTodo(t) && Lookup(t, "explicitness") != Some("NOT")
    ensures Adjudicate(t, ["e", "g"], 0) == Some((t["target" := "GROUP"]["explicitness" := "EXPLICIT"], 2))
  {
    var answers := ["e", "g"];
    assert Code(answers[0]) == 'e' && Code(answers[1]) == 'g';
    assert FirstCodeAt(answers, 0, 0, EXPLICITNESS_CODES);
    assert FirstCodeAt(answers, 1, 1, TARGET_CODES);
    AdjudicateAnswersBoth(t, answers, 0, 0, 1);
  }

  /** Adjudication only writes the two vote columns: the item gains exactly
      those and keeps every other column. */
  lemma AdjudicateKeepsColumns(t: Row, answers: seq<string>, pos: nat)
    requires pos <= |answers|
    requires Adjudicate(t, answers, pos).Some?
    ensures var t' := Adjudicate(t, answers, pos).value.0;
      && (IsTodo(t) ==> t'.Keys == t.Keys + {"explicitness", "target"})
      && (forall k :: k in t && k != "explicitness" && k != "target" ==> t'[k] == t[k])
  {
    if IsTodo(t) && Lookup(t, "explicitness") != Some("NOT") {
      var (e, p) := ReadCode(answers, pos, EXPLICITNESS_CODES).value;
      if e != "NOT" {
        var (g, q) := ReadCode(answers, p, TARGET_CODES).value;
        assert Adjudicate(t, answers, pos).value.0 == t["target" := g]["explicitness" := e];
      }
    }
  }

  /** The labels of the two answer tables: none is "?" or empty. */
  lemma CodeLabels()
    ensures forall c :: c in EXPLICITNESS_CODES ==> EXPLICITNESS_CODES[c] in {"EXPLICIT", "IMPLICIT", "NOT"}
    ensures forall c :: c in TARGET_CODES ==> TARGET_CODES[c] in {"INDIVIDUAL", "GROUP", "OTHER", "NOT"}
    ensures "?" !in {"EXPLICIT", "IMPLICIT", "NOT", "INDIVIDUAL", "GROUP", "OTHER", ""}
    ensures "" !in {"EXPLICIT", "IMPLICIT", "NOT", "INDIVIDUAL", "GROUP", "OTHER"}
  {
  }

  /** One `while True` prompt of `annotate`: ask until an answer's code is in
      the table, then return its label. */
  method AskCode(answers: seq<string>, pos: nat, table: map<char, string>) returns (r: Option<(string, nat)>)
    requires pos <= |answers|
    ensures r == ReadCode(answers, pos, table)
  {
    var k := Ask(answers, pos, CodeIn(table));
    if k.None? {
      return None;
    }
    return Some((table[Code(answers[k.value])], k.value + 1));
  }

  /** The body of `annotate`'s loop for one item, prompts included. */
  method AdjudicateItem(tweet: Row, answers: seq<string>, pos: nat) returns (r: Option<(Row, nat)>)
    requires pos <= |answers|
    ensures r == Adjudicate(tweet, answers, pos)
  {
    var explicitness := Lookup(tweet, "explicitness");
    var target := Lookup(tweet, "target");
    if !(explicitness == Some("?") || target == Some("?")) {
      return Some((tweet, pos));
    }
    if explicitness == Some("NOT") {
      return Some((tweet["target" := ""]["explicitness" := "NOT"], pos));
    }
    var e := AskCode(answers, pos, EXPLICITNESS_CODES);
    if e.None? {
      return None;
    }
    var explicit, next := e.value.0, e.value.1;
    if explicit == "NOT" {
      return Some((tweet["target" := ""]["explicitness" := explicit], next));
    }
    var g := AskCode(answers, next, TARGET_CODES);
    if g.None? {
      return None;
    }
    return Some((tweet["target" := g.value.0]["explicitness" := explicit], g.value.1));
  }

  /** How a run of `annotate` ends: with every item visited; with the answers
      exhausted (the `EOFError` of `input()`); or at an item to adjudicate that
      has no `text` column, whose `print(tweet['text'])` raises `KeyError`
      before any prompt. */
  datatype Ending = Finished | OutOfInput | NoText

  /** The items after a run of `annotate` (those visited before it stopped
      updated) and how it ended. */
  datatype Adjudication = Adjudication(tweets: map<string, Row>, ending: Ending)

  /** `annotate` over the items `ids`, in that order. */
  function AnnotateAll(ids: seq<string>, tweets: map<string, Row>, answers: seq<string>, pos: nat): Adjudication
    requires pos <= |answers|
    requires forall id :: id in ids ==> id in tweets
    decreases |ids|
  {
    if ids == [] then Adjudication(tweets, Finished)
    else if IsTodo(tweets[ids[0]]) && "text" !in tweets[ids[0]] then Adjudication(tweets, NoText)
    else
      match Adjudicate(tweets[ids[0]], answers, pos)
      case None => Adjudication(tweets, OutOfInput)
      case Some((t, p)) => AnnotateAll(ids[1..], tweets[ids[0] := t], answers, p)
  }

  /** `annotate` keeps the set of items, leaves every settled item and every
      unlisted item as it was, and when it finishes no listed item has a "?"
      left. */
  lemma {:induction false} AnnotateAllEffect(ids: seq<string>, tweets: map<string, Row>, answers: seq<string>, pos: nat)
    requires pos <= |answers|
    requires forall id :: id in ids ==> id in tweets
    ensures AnnotateAll(ids, tweets, answers, pos).tweets.Keys == tweets.Keys
    ensures forall id :: id in tweets && (!IsTodo(tweets[id]) || id !in ids) ==>
      AnnotateAll(ids, tweets, answers, pos).tweets[id] == tweets[id]
    ensures AnnotateAll(ids, tweets, answers, pos).ending == Finished ==>
      forall id :: id in ids ==> !IsTodo(AnnotateAll(ids, tweets, answers, pos).tweets[id])
    decreases |ids|
  {
    if ids != [] && !(IsTodo(tweets[ids[0]]) && "text" !in tweets[ids[0]]) {
      match Adjudicate(tweets[ids[0]], answers, pos)
      case None =>
      case Some((t, p)) =>
        var next := tweets[ids[0] := t];
        AnnotateAllEffect(ids[1..], next, answers, p);
        if IsTodo(tweets[ids[0]]) {
          AdjudicateSettles(tweets[ids[0]], answers, pos);
        }
        assert !IsTodo(next[ids[0]]);
        forall id | id in ids
          ensures id == ids[0] || id in ids[1..]
        {
        }
    }
  }

  /** Every item ends either as it was or settled: an item still holding a
      "?" after a run, such as one after the item where the run stopped, was
      left as it was. */
  lemma {:induction false} AnnotateSettlesOrKeeps(ids: seq<string>, tweets: map<string, Row>, answers: seq<string>, pos: nat)
    requires pos <= |answers|
    requires forall id :: id in ids ==> id in tweets
    ensures AnnotateAll(ids, tweets, answers, pos).tweets.Keys == tweets.Keys
    ensures forall id :: id in tweets ==>
      var after := AnnotateAll(ids, tweets, answers, pos).tweets[id];
      after == tweets[id] || !IsTodo(after)
    decreases |ids|
  {
    AnnotateAllEffect(ids, tweets, answers, pos);
    if ids != [] && !(IsTodo(tweets[ids[0]]) && "text" !in tweets[ids[0]]) {
      match Adjudicate(tweets[ids[0]], answers, pos)
      case None =>
      case Some((t, p)) =>
        var next := tweets[ids[0] := t];
        AnnotateSettlesOrKeeps(ids[1..], next, answers, p);
        if IsTodo(tweets[ids[0]]) {
          AdjudicateSettles(tweets[ids[0]], answers, pos);
        }
    }
  }

  /** One item of `annotate`, as `AnnotateAll` sees it. */
  lemma AnnotateStep(ids: seq<string>, i: nat, tweets: map<string, Row>, answers: seq<string>, pos: nat)
    requires i < |ids| && pos <= |answers|
    requires forall id :: id in ids ==> id in tweets
    ensures AnnotateAll(ids[i..], tweets, answers, pos) ==
      if IsTodo(tweets[ids[i]]) && "text" !in tweets[ids[i]] then Adjudication(tweets, NoText)
      else match Adjudicate(tweets[ids[i]], answers, pos)
      case None => Adjudication(tweets, OutOfInput)
      case Some((t, p)) => AnnotateAll(ids[i + 1..], tweets[ids[i] := t], answers, p)
  {
    assert ids[i..][0] == ids[i] && ids[i..][1..] == ids[i + 1..];
  }

  /** An item with explicitness "?" and no `text` column stops `annotate`
      before any answer is read, with nothing changed. */
  lemma NoTextStops(t: Row, answers: seq<string>)
    requires Lookup(t, "explicitness") == Some("?") && "text" !in t
    ensures AnnotateAll(["1"], map["1" := t], answers, 0) == Adjudication(map["1" := t], NoText)
  {
  }

  /** A finished `annotate` on a well-formed store leaves it well formed and
      leaves `count_todo` nothing to count. */
  lemma AnnotateSettlesAll(s: Store, answers: seq<string>)
    requires StoreValid(s)
    ensures AnnotateAll(s.order, s.tweets, answers, 0).ending == Finished ==>
      var done := AnnotateAll(s.order, s.tweets, answers, 0).tweets;
      StoreValid(s.(tweets := done)) && TodoIds(done) == {}
  {
    AnnotateAllEffect(s.order, s.tweets, answers, 0);
    var done := AnnotateAll(s.order, s.tweets, answers, 0).tweets;
    if AnnotateAll(s.order, s.tweets, answers, 0).ending == Finished {
      assert TodoIds(done) == {};
    }
  }

  /** The columns `export` writes, in order; other columns are ignored. */
  const EXPORT_FIELDS: seq<string> := ["id", "text", "user", "source", "user.description", "split", "explicitness", "target"]

  /** The state `CompareTool` keeps between its steps. */
  class CompareTool {
    var order: seq<string>
    var tweets: map<string, Row>
    var annotations: map<string, seq<Annotation>>
    var stats: map<string, nat>

    ghost predicate Valid()
      reads this`order, this`tweets, this`annotations
    {
      StoreValid(Store(order, tweets, annotations))
    }

    /** What `start` needs of the state. */
    ghost predicate Ready()
      reads this`order, this`tweets, this`annotations
    {
      forall id :: id in order ==> id in tweets && id in annotations && |annotations[id]| > 0
    }

    /** What `annotate` needs of the state. */
    ghost predicate Listed()
      reads this`order, this`tweets
    {
      forall id :: id in order ==> id in tweets
    }

    lemma ValidReady()
      requires Valid()
      ensures Ready() && Listed()
    {
    }

    /** `__init__`, given what `load_annotations` returned; the statistics
        start empty. */
    constructor (loaded: Store)
      requires StoreValid(loaded)
      ensures Valid()
      ensures order == loaded.order && tweets == loaded.tweets && annotations == loaded.annotations
      ensures stats == map[]
    {
      order := loaded.order;
      tweets := loaded.tweets;
      annotations := loaded.annotations;
      stats := map[];
    }

    /** `choose(annotation, goal)`: decide one axis and bump its two counters. */
    method Choose(annotation: seq<Annotation>, axis: Axis) returns (result: string)
      requires |annotation| > 0
      modifies this`stats
      ensures result == Decide(Labels(annotation, axis)).Verdict()
      ensures stats == Record(old(stats), axis, Decide(Labels(annotation, axis)))
    {
      var d := Decide(Labels(annotation, axis));
      var kind := KindKey(axis, d);
      var labelled := LabelKey(axis, d);
      stats := stats[kind := StatValue(stats, kind) + 1];
      stats := stats[labelled := StatValue(stats, labelled) + 1];
      result := d.Verdict();
    }

    /** `start`: every item's two axes become what `choose` makes of its own
        votes, explicitness first, item after item; the statistics gain the
        counts of those choices. Needs only that each listed id has an item
        and votes, which `Valid` implies (`ValidReady`). */
    method Start()
      requires Ready()
      modifies this`tweets, this`stats
      ensures tweets == ResolveAll(old(tweets), old(order), old(annotations))
      ensures stats == StartStats(old(stats), old(order), old(annotations))
    {
      var ids, votesOf := order, annotations;
      for i := 0 to |ids|
        invariant tweets == ResolveAll(old(tweets), ids[..i], votesOf)
        invariant stats == StartStats(old(stats), ids[..i], votesOf)
      {
        var id := ids[i];
        var votes := votesOf[id];
        StartStep(old(stats), old(tweets), ids, i, votesOf);
        var current := tweets;
        var tweet := current[id];
        var explicitness := Choose(votes, Explicitness);
        var target := Choose(votes, Target);
        tweets := current[id := tweet["explicitness" := explicitness]["target" := target]];
      }
      assert ids[..|ids|] == ids;
    }

    /** `count_todo`: the number of items with "?" on either axis. */
    function CountTodo(): (n: nat)
      reads this
      requires Valid()
      ensures n == |TodoIds(tweets)|
    {
      TodoInCounts(order, tweets);
      assert (set id | id in order && id in tweets && IsTodo(tweets[id])) == TodoIds(tweets);
      TodoIn(order, tweets)
    }

    /** `annotate`: every item with a "?" is adjudicated from the answers in
        turn; the ending says whether the run finished, the answers ran out or
        an item had no text to show. On a full run no "?" is left. */
    method Annotate(answers: seq<string>) returns (ending: Ending)
      requires Listed()
      modifies this`tweets
      ensures AnnotateAll(old(order), old(tweets), answers, 0) == Adjudication(tweets, ending)
    {
      var ids := order;
      ghost var start := tweets;
      var pos: nat := 0;
      for i := 0 to |ids|
        invariant pos <= |answers|
        invariant tweets.Keys == start.Keys
        invariant AnnotateAll(ids, start, answers, 0) == AnnotateAll(ids[i..], tweets, answers, pos)
      {
        var current := tweets;
        AnnotateStep(ids, i, current, answers, pos);
        if IsTodo(current[ids[i]]) && "text" !in current[ids[i]] {
          return NoText;
        }
        var r := AdjudicateItem(current[ids[i]], answers, pos);
        if r.None? {
          return OutOfInput;
        }
        tweets := current[ids[i] := r.value.0];
        pos := r.value.1;
      }
      return Finished;
    }

    /** The rows `export` writes (after its header), one per item in order,
        each with the eight export columns and nothing else. */
    function ExportRows(): (rows: seq<seq<string>>)
      reads this
      requires Valid()
      ensures |rows| == |order|
      ensures forall i, k :: 0 <= i < |order| && 0 <= k < |EXPORT_FIELDS| ==>
        |rows[i]| == |EXPORT_FIELDS| && rows[i][k] == Cell(tweets[order[i]], EXPORT_FIELDS[k])
    {
      seq(|order|, i requires 0 <= i < |order| && order[i] in tweets reads this => Project(EXPORT_FIELDS, tweets[order[i]]))
    }
  }
}
