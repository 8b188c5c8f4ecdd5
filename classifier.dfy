/**
 * `process_abstract` (abstract_processing.py lines 62-127): for one record, every
 * keyword group is asked `run_times` times, each run with its own retries, and the
 * runs are reduced by the consistency vote into the group's result column.
 */
module RecordClassifier {
  import opened Wrappers
  import opened Text
  import opened Settings
  import opened ResponseExtractor
  import opened QueryRunner
  import opened ConsistencyVoter

  /** What the endpoint does for the record: the attempts of run `r` of keyword group `j`. */
  type RecordFeed = (nat, nat) -> AttemptFeed

  /** Lines 58-60 and 123: the result column of keyword group `j` (0-based),
      `Keyword_Group_{j + 1}_Response`. */
  function ColumnKey(j: nat): string {
    "Keyword_Group_" + NatToString(j + 1) + "_Response"
  }

  /** Distinct groups write distinct columns. */
  lemma ColumnKeyInjective(a: nat, b: nat)
    requires ColumnKey(a) == ColumnKey(b)
    ensures a == b
  {
    var p := "Keyword_Group_";
    var da, db := NatToString(a + 1), NatToString(b + 1);
    assert |da| == |db|;
    assert ColumnKey(a)[|p|..|p| + |da|] == da;
    assert ColumnKey(b)[|p|..|p| + |db|] == db;
    NatToStringInjective(a + 1, b + 1);
  }

  /** The results of the first `n` runs of group `j`, in order (lines 73-118). */
  function Runs(feed: RecordFeed, j: nat, n: nat, maxRetries: int): (rs: seq<Answer>)
    ensures |rs| == n
  {
    if n == 0 then [] else Runs(feed, j, n - 1, maxRetries) + [RunAnswer(feed(j, n - 1), maxRetries)]
  }

  /** Run `r` of group `j` asks the endpoint afresh, with its own attempts. */
  lemma {:induction false} RunsSpec(feed: RecordFeed, j: nat, n: nat, maxRetries: int)
    ensures forall r :: 0 <= r < n ==> Runs(feed, j, n, maxRetries)[r] == RunAnswer(feed(j, r), maxRetries)
  {
    if n > 0 {
      RunsSpec(feed, j, n - 1, maxRetries);
    }
  }

  /** The verdict of group `j`: the vote over its `runTimes` runs. */
  function GroupVerdict(feed: RecordFeed, j: nat, runTimes: int, maxRetries: int): Verdict
    requires runTimes >= 1
  {
    Vote(Runs(feed, j, runTimes, maxRetries))
  }

  /** The result map of the first `groups` keyword groups, built in group order. */
  function Classification(feed: RecordFeed, groups: nat, runTimes: int, maxRetries: int)
    : map<string, Verdict>
    requires groups == 0 || runTimes >= 1
  {
    if groups == 0 then map[]
    else Classification(feed, groups - 1, runTimes, maxRetries)[ColumnKey(groups - 1) := GroupVerdict(feed, groups - 1, runTimes, maxRetries)]
  }

  /** The result map has exactly one key per keyword group, and under it that group's
      verdict: no later group overwrites an earlier one. */
  lemma ClassificationSpec(feed: RecordFeed, groups: nat, runTimes: int, maxRetries: int)
    requires groups == 0 || runTimes >= 1
    ensures Classification(feed, groups, runTimes, maxRetries).Keys == set j | 0 <= j < groups :: ColumnKey(j)
    ensures forall j :: 0 <= j < groups ==>
              Classification(feed, groups, runTimes, maxRetries)[ColumnKey(j)] == GroupVerdict(feed, j, runTimes, maxRetries)
  {
    ClassificationKeys(feed, groups, runTimes, maxRetries);
    ClassificationValues(feed, groups, runTimes, maxRetries);
  }

  /** The keys of the result map are the columns of the groups. */
  lemma {:induction false} ClassificationKeys(feed: RecordFeed, groups: nat, runTimes: int, maxRetries: int)
    requires groups == 0 || runTimes >= 1
    ensures Classification(feed, groups, runTimes, maxRetries).Keys == set j | 0 <= j < groups :: ColumnKey(j)
  {
    if groups > 0 {
      var n := groups - 1;
      ClassificationKeys(feed, n, runTimes, maxRetries);
      ColumnKeysStep(n);
    }
  }

  /** Under the column of each group is that group's verdict. */
  lemma ClassificationValues(feed: RecordFeed, groups: nat, runTimes: int, maxRetries: int)
    requires groups == 0 || runTimes >= 1
    ensures forall j :: 0 <= j < groups ==>
              ColumnKey(j) in Classification(feed, groups, runTimes, maxRetries)
              && Classification(feed, groups, runTimes, maxRetries)[ColumnKey(j)] == GroupVerdict(feed, j, runTimes, maxRetries)
  {
    forall j | 0 <= j < groups
      ensures ColumnKey(j) in Classification(feed, groups, runTimes, maxRetries)
              && Classification(feed, groups, runTimes, maxRetries)[ColumnKey(j)] == GroupVerdict(feed, j, runTimes, maxRetries)
    {
      ClassificationAt(feed, groups, runTimes, maxRetries, j);
    }
  }

  /** Under the column of group `j` is that group's verdict, whatever groups follow it. */
  lemma {:induction false} ClassificationAt(feed: RecordFeed, groups: nat, runTimes: int, maxRetries: int, j: nat)
    requires runTimes >= 1 && j < groups
    ensures ColumnKey(j) in Classification(feed, groups, runTimes, maxRetries)
    ensures Classification(feed, groups, runTimes, maxRetries)[ColumnKey(j)] == GroupVerdict(feed, j, runTimes, maxRetries)
  {
    if j < groups - 1 {
      ClassificationAt(feed, groups - 1, runTimes, maxRetries, j);
      ClassificationKeepsEarlier(feed, groups, runTimes, maxRetries, j);
    }
  }

  /** Adding group `groups - 1` leaves the entry of an earlier group as it was. */
  lemma ClassificationKeepsEarlier(feed: RecordFeed, groups: nat, runTimes: int, maxRetries: int, j: nat)
    requires runTimes >= 1 && j < groups - 1
    requires ColumnKey(j) in Classification(feed, groups - 1, runTimes, maxRetries)
    ensures ColumnKey(j) in Classification(feed, groups, runTimes, maxRetries)
    ensures Classification(feed, groups, runTimes, maxRetries)[ColumnKey(j)]
            == Classification(feed, groups - 1, runTimes, maxRetries)[ColumnKey(j)]
  {
    if ColumnKey(j) == ColumnKey(groups - 1) {
      ColumnKeyInjective(j, groups - 1);
    }
  }

  /** The columns of `n + 1` groups are those of `n` groups and one more. */
  lemma ColumnKeysStep(n: nat)
    ensures (set j | 0 <= j < n + 1 :: ColumnKey(j)) == (set j | 0 <= j < n :: ColumnKey(j)) + {ColumnKey(n)}
  {
    var more := set j | 0 <= j < n + 1 :: ColumnKey(j);
    var fewer := set j | 0 <= j < n :: ColumnKey(j);
    forall key | key in more ensures key in fewer + {ColumnKey(n)} {
      var j :| 0 <= j < n + 1 && key == ColumnKey(j);
      if j < n {
        assert key in fewer;
      }
    }
    forall key | key in fewer ensures key in more {
      var j :| 0 <= j < n && key == ColumnKey(j);
    }
  }

  /** Lines 62-127 as the script runs them: returns the record's own index and one result
      per keyword group, under that group's column key. */
  method ProcessAbstract(i: nat, cfg: Config, feed: RecordFeed) returns (index: nat, results: map<string, Verdict>)
    requires |cfg.groups| == 0 || cfg.runTimes >= 1
    ensures index == i
    ensures results == Classification(feed, |cfg.groups|, cfg.runTimes, cfg.maxRetries)
  {
    results := map[];
    for j := 0 to |cfg.groups|
      invariant results == Classification(feed, j, cfg.runTimes, cfg.maxRetries)
    {
      var consistentResponses: seq<Answer> := [];
      var run: nat := 0;
      while run < cfg.runTimes
        invariant run <= cfg.runTimes
        invariant consistentResponses == Runs(feed, j, run, cfg.maxRetries)
      {
        var finalResponse, _ := RunQuery(feed(j, run), cfg.maxRetries);
        consistentResponses := consistentResponses + [finalResponse];
        run := run + 1;
      }
      assert consistentResponses == Runs(feed, j, cfg.runTimes, cfg.maxRetries);
      results := results[ColumnKey(j) := Vote(consistentResponses)];
    }
    index := i;
  }

  /** Two keyword groups, three runs, and an endpoint that always says "Y" for the first
      group and alternates "Y", "N" for the second: the verdicts are Yes and Uncertain. */
  lemma AlternatingEndpoint(feed: RecordFeed)
    requires forall j: nat, r: nat, a: nat :: feed(j, r)(a) == OneLetterReply(j == 0 || r % 2 == 0)
    ensures Classification(feed, 2, 3, 1) == map[ColumnKey(0) := Yes, ColumnKey(1) := Uncertain]
  {
    forall j: nat, r: nat ensures RunAnswer(feed(j, r), 1) == (if j == 0 || r % 2 == 0 then Y else N) {
      OneLetterReplyAnswer(j == 0 || r % 2 == 0);
    }
    RunsSpec(feed, 0, 3, 1);
    RunsSpec(feed, 1, 3, 1);
    var g0 := Runs(feed, 0, 3, 1);
    var g1 := Runs(feed, 1, 3, 1);
    assert g0 == [Y, Y, Y];
    assert g1[1] == N && g1[0] == Y;
    assert GroupVerdict(feed, 0, 3, 1) == Yes;
    assert GroupVerdict(feed, 1, 3, 1) == Uncertain;
    if ColumnKey(0) == ColumnKey(1) {
      ColumnKeyInjective(0, 1);
    }
    assert Classification(feed, 1, 3, 1) == map[ColumnKey(0) := Yes];
  }

  /** A 200 response whose body is the one fragment "Y" (when `yes`) or "N". */
  function OneLetterReply(yes: bool): Attempt {
    Response(200, [Line("data: x", Delta(Some(if yes then "Y" else "N")))])
  }

  lemma OneLetterReplyAnswer(yes: bool)
    ensures AttemptAnswer(OneLetterReply(yes)) == if yes then Y else N
  {
    var c := if yes then "Y" else "N";
    assert FirstAlpha(c) == Some(c[0]);
    assert StreamAnswer([Line("data: x", Delta(Some(c)))]) == LineAnswer(Line("data: x", Delta(Some(c))));
  }
}
