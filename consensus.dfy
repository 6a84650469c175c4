/** The decision part of `CompareTool.choose` (compare.py): one axis of an
    item's votes is tallied the way `Counter(...).most_common(2)` orders it, the
    hard-coded thresholds 4 and 3 decide, and two counters are bumped. */
module Consensus {

  import opened Tables

  /** The two annotation axes. `Name` is the column name; it also prefixes
      every statistics key of that axis. */
  datatype Axis = Explicitness | Target {
    function Name(): string
    {
      match this
      case Explicitness => "explicitness"
      case Target => "target"
    }
  }

  /** One annotator's vote on one item: the two fields `load_annotations` keeps. */
  datatype Annotation = Annotation(explicitness: string, target: string) {
    function Get(axis: Axis): string
    {
      match axis
      case Explicitness => explicitness
      case Target => target
    }
  }

  /** `[a[goal] for a in annotation]`. */
  function Labels(votes: seq<Annotation>, axis: Axis): seq<string>
  {
    seq(|votes|, i requires 0 <= i < |votes| => votes[i].Get(axis))
  }

  /** `Counter(labels)[x]`. */
  function Count(s: seq<string>, x: string): nat
  {
    multiset(s)[x]
  }

  /** No label outside `avoid` at a position below n is more frequent than x. */
  ghost predicate MaximalUpTo(s: seq<string>, n: nat, avoid: set<string>, x: string)
    requires n <= |s|
  {
    forall j :: 0 <= j < n && s[j] !in avoid ==> Count(s, s[j]) <= Count(s, x)
  }

  /** Every label outside `avoid` seen before position p is strictly less
      frequent than the one at p. */
  ghost predicate FirstAt(s: seq<string>, avoid: set<string>, p: nat)
    requires p < |s|
  {
    forall j :: 0 <= j < p && s[j] !in avoid ==> Count(s, s[j]) < Count(s, s[p])
  }

  /** Position p holds the label `most_common` lists first among the labels
      outside `avoid`: none is more frequent, and ties go to first appearance. */
  ghost predicate IsFirstMost(s: seq<string>, avoid: set<string>, p: int)
  {
    0 <= p < |s| && s[p] !in avoid && MaximalUpTo(s, |s|, avoid, s[p]) && FirstAt(s, avoid, p)
  }

  /** The label `most_common` puts first among the labels outside `avoid`,
      looking at the positions below n (counts are over the whole of s). A
      later label replaces the current one only with a strictly greater count,
      so equal counts keep the label that appeared first. Its contract is
      `LeaderSpec`. */
  function Leader(s: seq<string>, n: nat, avoid: set<string>): Option<string>
    requires n <= |s|
    decreases n
  {
    if n == 0 then None
    else
      var r := Leader(s, n - 1, avoid);
      var x := s[n - 1];
      if x in avoid then r
      else if r.None? || Count(s, x) > Count(s, r.value) then Some(x)
      else r
  }

  /** Leader finds nothing only when every position below n is avoided, and
      otherwise a position holding a label no other is more frequent than,
      with every label before it strictly less frequent. */
  lemma {:induction false} LeaderSpec(s: seq<string>, n: nat, avoid: set<string>)
    requires n <= |s|
    ensures Leader(s, n, avoid).None? <==> forall j :: 0 <= j < n ==> s[j] in avoid
    ensures Leader(s, n, avoid).Some? ==>
      exists p :: 0 <= p < n && s[p] == Leader(s, n, avoid).value && s[p] !in avoid &&
        MaximalUpTo(s, n, avoid, s[p]) && FirstAt(s, avoid, p)
    decreases n
  {
    if n > 0 {
      LeaderSpec(s, n - 1, avoid);
      var r := Leader(s, n - 1, avoid);
      var x := s[n - 1];
      if x !in avoid {
        if r.None? {
          assert MaximalUpTo(s, n, avoid, x);
          assert FirstAt(s, avoid, n - 1);
        } else if Count(s, x) > Count(s, r.value) {
          var p :| 0 <= p < n - 1 && s[p] == r.value && s[p] !in avoid &&
            MaximalUpTo(s, n - 1, avoid, s[p]) && FirstAt(s, avoid, p);
          assert MaximalUpTo(s, n, avoid, x);
          assert FirstAt(s, avoid, n - 1);
        } else {
          var p :| 0 <= p < n - 1 && s[p] == r.value && s[p] !in avoid &&
            MaximalUpTo(s, n - 1, avoid, s[p]) && FirstAt(s, avoid, p);
          assert MaximalUpTo(s, n, avoid, s[p]);
        }
      } else if r.Some? {
        var p :| 0 <= p < n - 1 && s[p] == r.value && s[p] !in avoid &&
          MaximalUpTo(s, n - 1, avoid, s[p]) && FirstAt(s, avoid, p);
        assert MaximalUpTo(s, n, avoid, s[p]);
      }
    }
  }

  /** Only one position can be the first most common one. */
  lemma FirstMostUnique(s: seq<string>, avoid: set<string>, p: int, q: int)
    requires IsFirstMost(s, avoid, p) && IsFirstMost(s, avoid, q)
    ensures p == q
  {
  }

  /** Leader over the whole vote list is exactly the first most common label. */
  lemma LeaderIsFirstMost(s: seq<string>, avoid: set<string>, p: int)
    requires IsFirstMost(s, avoid, p)
    ensures Leader(s, |s|, avoid) == Some(s[p])
  {
    LeaderSpec(s, |s|, avoid);
    var r := Leader(s, |s|, avoid);
    assert r.Some?;
    var q :| 0 <= q < |s| && s[q] == r.value && s[q] !in avoid &&
      MaximalUpTo(s, |s|, avoid, s[q]) && FirstAt(s, avoid, q);
    FirstMostUnique(s, avoid, p, q);
  }

  /** How `choose` classified one axis of one item. */
  datatype Decision =
    | Agree(top: string)                    // top count is 4
    | Majority3(top: string)                // top count is 3
    | Split(top: string, second: string)    // neither, and the runner-up count is 2
    | Majority2(top: string)                // anything else
  {
    /** What `choose` returns: the label for agree and 3-majority, "?" otherwise. */
    function Verdict(): string
    {
      if Agree? || Majority3? then top else "?"
    }
  }

  /** `c[-1]` of `c = most_common(2)`: the runner-up, or the top label itself
      when the votes hold no other label. */
  function RunnerUp(s: seq<string>, top: string): (r: string)
    ensures (forall j :: 0 <= j < |s| ==> s[j] == top) ==> r == top
    ensures (exists j :: 0 <= j < |s| && s[j] != top) ==>
      r != top && exists p :: IsFirstMost(s, {top}, p) && s[p] == r
  {
    LeaderSpec(s, |s|, {top});
    match Leader(s, |s|, {top})
    case None => top
    case Some(y) => y
  }

  /** The classification `choose` makes for one axis of one item's votes.
      Its contract is `DecideSpec`. */
  function Decide(s: seq<string>): Decision
    requires |s| > 0
  {
    assert s[0] !in {};
    LeaderSpec(s, |s|, {});
    var top := Leader(s, |s|, {}).value;
    var cnt := Count(s, top);
    if cnt == 4 then Agree(top)
    else if cnt == 3 then Majority3(top)
    else
      var second := RunnerUp(s, top);
      if Count(s, second) == 2 then Split(top, second) else Majority2(top)
  }

  /** `choose` leads with the first most common label; the decision is
      "agree" exactly at 4 votes for it, "3majority" exactly at 3, and
      otherwise "split" exactly when the runner-up has 2 votes. */
  lemma DecideSpec(s: seq<string>)
    requires |s| > 0
    ensures exists p :: IsFirstMost(s, {}, p) && s[p] == Decide(s).top
    ensures Decide(s).Agree? <==> Count(s, Decide(s).top) == 4
    ensures Decide(s).Majority3? <==> Count(s, Decide(s).top) == 3
    ensures Decide(s).Split? <==>
      Count(s, Decide(s).top) != 4 && Count(s, Decide(s).top) != 3 && Count(s, RunnerUp(s, Decide(s).top)) == 2
    ensures Decide(s).Split? ==> Decide(s).second == RunnerUp(s, Decide(s).top)
  {
    assert s[0] !in {};
    LeaderSpec(s, |s|, {});
    var top := Leader(s, |s|, {}).value;
    var p :| 0 <= p < |s| && s[p] == top && s[p] !in {} && MaximalUpTo(s, |s|, {}, s[p]) && FirstAt(s, {}, p);
    assert IsFirstMost(s, {}, p);
  }

  /** `choose` returns the most common label (ties to first appearance) when
      it has exactly 4 or exactly 3 votes, and "?" in every other case. */
  lemma {:induction false} VerdictIsMostCommon(s: seq<string>, p: int)
    requires IsFirstMost(s, {}, p)
    ensures Decide(s).Verdict() == if Count(s, s[p]) == 4 || Count(s, s[p]) == 3 then s[p] else "?"
  {
    DecideSpec(s);
    var d := Decide(s);
    var q :| IsFirstMost(s, {}, q) && s[q] == d.top;
    FirstMostUnique(s, {}, p, q);
  }

  /** The result of `choose` is "?" or one of the votes. */
  lemma VerdictIsVoteOrQuestion(s: seq<string>)
    requires |s| > 0
    ensures Decide(s).Verdict() == "?" || Decide(s).Verdict() in s
  {
    DecideSpec(s);
    var d := Decide(s);
    var q :| IsFirstMost(s, {}, q) && s[q] == d.top;
  }

  /** The statistics counter for the kind of decision: `{goal}-agree`,
      `{goal}-3majority`, `{goal}-split` or `{goal}-2majority`. */
  function KindKey(axis: Axis, d: Decision): string
  {
    axis.Name() +
    match d
    case Agree(_) => "-agree"
    case Majority3(_) => "-3majority"
    case Split(_, _) => "-split"
    case Majority2(_) => "-2majority"
  }

  /** Its label-suffixed companion; a split names both labels as `most_common`
      ordered them, `{first}+{second}`, with no sorting. */
  function LabelKey(axis: Axis, d: Decision): string
  {
    KindKey(axis, d) + "-" + (if d.Split? then d.top + "+" + d.second else d.top)
  }

  /** A counter of the `defaultdict(int)`: 0 until first bumped. */
  function StatValue(stats: map<string, nat>, key: string): nat
  {
    if key in stats then stats[key] else 0
  }

  /** The two `self.stats[...] += 1` of one `choose` call: both keys go up by
      exactly one and no other counter moves. */
  function Record(stats: map<string, nat>, axis: Axis, d: Decision): (r: map<string, nat>)
    ensures r.Keys == stats.Keys + {KindKey(axis, d), LabelKey(axis, d)}
    ensures forall key :: (StatValue(r, key) == StatValue(stats, key) +
      (if key == KindKey(axis, d) || key == LabelKey(axis, d) then 1 else 0))
  {
    var kind := KindKey(axis, d);
    var labelled := LabelKey(axis, d);
    assert |labelled| > |kind|;
    var bumped := stats[kind := StatValue(stats, kind) + 1];
    bumped[labelled := StatValue(bumped, labelled) + 1]
  }

  /** A 2+2 split keys its counter by the labels in order of appearance, not
      sorted: [a,b,b,a] gives `{goal}-split-a+b`, so [B,A,A,B] gives `B+A`. */
  lemma {:induction false} SplitFollowsAppearance(axis: Axis, a: string, b: string)
    requires a != b
    ensures Decide([a, b, b, a]) == Split(a, b)
  {
    var s := [a, b, b, a];
    assert Count(s, a) == 2 && Count(s, b) == 2 by {
      assert multiset(s) == multiset{a, a, b, b};
    }
    assert Leader(s, |s|, {}) == Some(a) by {
      LeaderIsFirstMost(s, {}, 0);
    }
    assert RunnerUp(s, a) == b by {
      assert IsFirstMost(s, {a}, 1);
      LeaderIsFirstMost(s, {a}, 1);
    }
  }

  /** The split counter's companion key written out: `{goal}-split-{first}+{second}`. */
  lemma SplitKeyText(axis: Axis, a: string, b: string)
    ensures LabelKey(axis, Split(a, b)) == axis.Name() + "-split-" + a + "+" + b
  {
    assert "-split" + "-" == "-split-";
  }

  /** Four equal votes agree. */
  lemma {:induction false} FourAgree(a: string)
    ensures Decide([a, a, a, a]) == Agree(a) && Decide([a, a, a, a]).Verdict() == a
  {
    var s := [a, a, a, a];
    assert Count(s, a) == 4 by {
      assert multiset(s) == multiset{a, a, a, a};
    }
    assert Leader(s, |s|, {}) == Some(a) by {
      LeaderIsFirstMost(s, {}, 0);
    }
  }

  /** Three of four votes are a 3-majority. */
  lemma {:induction false} ThreeOfFour(a: string, b: string)
    requires a != b
    ensures Decide([b, a, a, a]) == Majority3(a) && Decide([b, a, a, a]).Verdict() == a
  {
    var t := [b, a, a, a];
    assert Count(t, a) == 3 && Count(t, b) == 1 by {
      assert multiset(t) == multiset{a, a, a, b};
    }
    assert Leader(t, |t|, {}) == Some(a) by {
      LeaderIsFirstMost(t, {}, 1);
    }
  }

  /** 2 vs 1 vs 1 is a "2majority" and goes to adjudication like a split. */
  lemma {:induction false} TwoOneOne(a: string, b: string, c: string)
    requires a != b && b != c && a != c
    ensures Decide([b, a, c, a]) == Majority2(a) && Decide([b, a, c, a]).Verdict() == "?"
  {
    var s := [b, a, c, a];
    assert Count(s, a) == 2 && Count(s, b) == 1 && Count(s, c) == 1 by {
      assert multiset(s) == multiset{a, a, b, c};
    }
    assert Leader(s, |s|, {}) == Some(a) by {
      LeaderIsFirstMost(s, {}, 1);
    }
    assert RunnerUp(s, a) == b by {
      assert IsFirstMost(s, {a}, 0);
      LeaderIsFirstMost(s, {a}, 0);
    }
  }

  /** The thresholds are exact counts, not lower bounds: five equal votes are
      neither "agree" nor "3majority", and two equal votes with nothing else
      count as a split of the label with itself. */
  lemma {:induction false} ThresholdsAreExact(a: string)
    ensures Decide([a, a, a, a, a]) == Majority2(a)
    ensures Decide([a, a]) == Split(a, a)
  {
    var s := [a, a, a, a, a];
    assert Count(s, a) == 5 by {
      assert multiset(s) == multiset{a, a, a, a, a};
    }
    assert Leader(s, |s|, {}) == Some(a) by {
      LeaderIsFirstMost(s, {}, 0);
    }
    var t := [a, a];
    assert Count(t, a) == 2 by {
      assert multiset(t) == multiset{a, a};
    }
    assert Leader(t, |t|, {}) == Some(a) by {
      LeaderIsFirstMost(t, {}, 0);
    }
  }
}
