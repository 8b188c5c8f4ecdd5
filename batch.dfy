/**
 * The completion loop (abstract_processing.py lines 129-149): the unprocessed rows are
 * submitted in index order, their results are written back in completion order, and
 * the spreadsheet is saved on a fixed cadence and once more at the end if needed.
 */
module BatchScheduler {
  import opened Wrappers
  import opened Text
  import opened Settings
  import opened ConsistencyVoter
  import opened RecordClassifier

  /** One row of the spreadsheet as the loop sees it: the `Processed` flag and the result
      columns, keyed by column name. */
  datatype Row = Row(processed: bool, responses: map<string, Verdict>)

  /** What the endpoint does for each record, by row index. */
  type BatchFeed = nat -> RecordFeed

  /** Line 129: `save_interval`. */
  const SaveInterval: nat := 12

  /** Lines 133-134: the indices of the rows not yet processed, in index order. */
  function Unprocessed(rows: seq<Row>): (r: seq<nat>)
    ensures forall i :: i in r <==> 0 <= i < |rows| && !rows[i].processed
    ensures forall a, b :: 0 <= a < b < |r| ==> r[a] < r[b]
  {
    if rows == [] then []
    else
      var last := |rows| - 1;
      var front := Unprocessed(rows[..last]);
      assert forall i :: 0 <= i < last ==> rows[..last][i] == rows[i];
      assert forall k :: 0 <= k < |front| ==> front[k] < last by {
        forall k | 0 <= k < |front| ensures front[k] < last {
          assert front[k] in front;
        }
      }
      front + (if rows[last].processed then [] else [last])
  }

  /** Lines 138-140: the row with the record's results written into their columns and
      the `Processed` flag set. */
  function Completed(row: Row, results: map<string, Verdict>): Row {
    Row(true, row.responses + results)
  }

  /** A completed row is processed; each result column holds the record's result, and
      every other column keeps its old value. */
  lemma CompletedSpec(row: Row, results: map<string, Verdict>)
    ensures Completed(row, results).processed
    ensures Completed(row, results).responses.Keys == row.responses.Keys + results.Keys
    ensures forall key :: key in results ==> Completed(row, results).responses[key] == results[key]
    ensures forall key :: key in row.responses && key !in results ==>
              Completed(row, results).responses[key] == row.responses[key]
  {
  }

  /** The length of `batch_results` after `n` completions: the first completion saves,
      and so does every twelfth one after it. */
  function BatchSize(n: nat): nat {
    if n == 0 then 0 else (n - 1) % SaveInterval
  }

  /** The saves made inside the loop during the first `n` completions (line 143). */
  function InLoopSaves(n: nat): nat {
    if n == 0 then 0 else InLoopSaves(n - 1) + (if (n - 1) % SaveInterval == 0 then 1 else 0)
  }

  /** All saves of a loop over `n` completions: those inside the loop, and one more at the
      end when `batch_results` is not empty (line 148). */
  function SaveCount(n: nat): nat {
    InLoopSaves(n) + (if BatchSize(n) > 0 then 1 else 0)
  }

  /** The loop saves after the 1st, 13th, 25th, ... completion: one save per started
      block of twelve. */
  lemma {:induction false} InLoopSavesBlocks(n: nat)
    ensures InLoopSaves(n) == (n + SaveInterval - 1) / SaveInterval
  {
    if n > 0 {
      InLoopSavesBlocks(n - 1);
    }
  }

  /** Some save happens exactly when something completed, and the number of saves is the
      number of started blocks of twelve plus the final save. */
  lemma SaveCountSpec(n: nat)
    ensures SaveCount(n) == (n + SaveInterval - 1) / SaveInterval
                            + (if n > 0 && (n - 1) % SaveInterval != 0 then 1 else 0)
    ensures SaveCount(n) > 0 <==> n > 0
  {
    InLoopSavesBlocks(n);
  }

  /** Thirty completions save three times in the loop and once at the end; none save nothing. */
  lemma SampleCadence()
    ensures InLoopSaves(30) == 3 && BatchSize(30) == 5 && SaveCount(30) == 4
    ensures SaveCount(0) == 0
  {
    InLoopSavesBlocks(30);
  }

  /** A permutation of the unprocessed indices holds each unprocessed index once and
      nothing else. */
  lemma PermutationOfUnprocessed(order: seq<nat>, rows: seq<Row>)
    requires multiset(order) == multiset(Unprocessed(rows))
    ensures forall i :: i in order <==> 0 <= i < |rows| && !rows[i].processed
    ensures forall k :: 0 <= k < |order| ==> order[k] < |rows| && !rows[order[k]].processed
    ensures forall a, b :: 0 <= a < b < |order| ==> order[a] != order[b]
  {
    SameElements(order, Unprocessed(rows));
    forall k | 0 <= k < |order| ensures order[k] < |rows| && !rows[order[k]].processed {
      assert order[k] in order;
    }
    PermutationDistinct(order, Unprocessed(rows));
  }

  /** Sequences with the same multiset have the same elements. */
  lemma SameElements(s: seq<nat>, t: seq<nat>)
    requires multiset(s) == multiset(t)
    ensures forall i :: i in s <==> i in t
  {
    forall i ensures i in s <==> i in t {
      assert i in s <==> i in multiset(s);
      assert i in t <==> i in multiset(t);
    }
  }

  /** A permutation of a strictly increasing sequence repeats no element. */
  lemma PermutationDistinct(s: seq<nat>, t: seq<nat>)
    requires multiset(s) == multiset(t)
    requires forall a, b :: 0 <= a < b < |t| ==> t[a] < t[b]
    ensures forall a, b :: 0 <= a < b < |s| ==> s[a] != s[b]
  {
    forall a, b | 0 <= a < b < |s| ensures s[a] != s[b] {
      if s[a] == s[b] {
        CountedTwice(s, a, b);
        IncreasingCountedOnce(t, s[a]);
      }
    }
  }

  /** An element at two positions occurs at least twice. */
  lemma CountedTwice(s: seq<nat>, a: int, b: int)
    requires 0 <= a < b < |s| && s[a] == s[b]
    ensures multiset(s)[s[a]] >= 2
  {
    assert s == s[..b] + [s[b]] + s[b + 1..];
    assert s[a] in s[..b];
    assert multiset(s) == multiset(s[..b]) + multiset{s[b]} + multiset(s[b + 1..]);
  }

  /** In a strictly increasing sequence every value occurs at most once. */
  lemma {:induction false} IncreasingCountedOnce(s: seq<nat>, x: nat)
    requires forall a, b :: 0 <= a < b < |s| ==> s[a] < s[b]
    ensures multiset(s)[x] <= 1
  {
    if s != [] {
      IncreasingCountedOnce(s[1..], x);
      assert s == [s[0]] + s[1..];
      if s[0] == x {
        assert x !in s[1..];
      }
    }
  }

  /** A second pass over a table whose rows are all processed submits nothing and saves
      nothing. */
  lemma SecondPassIdle(rows: seq<Row>, order: seq<nat>)
    requires forall i :: 0 <= i < |rows| ==> rows[i].processed
    requires multiset(order) == multiset(Unprocessed(rows))
    ensures order == [] && SaveCount(|order|) == 0
  {
    NoneLeft(rows);
    assert |order| == |multiset(order)| == 0;
  }

  /** A table whose rows are all processed has nothing to submit. */
  lemma {:induction false} NoneLeft(rows: seq<Row>)
    requires forall i :: 0 <= i < |rows| ==> rows[i].processed
    ensures Unprocessed(rows) == []
  {
    if rows != [] {
      NoneLeft(rows[..|rows| - 1]);
    }
  }

  /** The table once the records in `done` have been written back: each of their rows is
      processed and holds the record's results, every other row is as it was. */
  ghost function WrittenBack(rows: seq<Row>, done: seq<nat>, cfg: Config, feed: BatchFeed): (r: seq<Row>)
    requires done == [] || |cfg.groups| == 0 || cfg.runTimes >= 1
    ensures |r| == |rows|
  {
    seq(|rows|, j requires 0 <= j < |rows| =>
      if j in done then Completed(rows[j], Classification(feed(j), |cfg.groups|, cfg.runTimes, cfg.maxRetries))
      else rows[j])
  }

  /** Writing back the `count`-th completion extends the written-back prefix of `order`
      by one row, and touches no other row. */
  lemma OneWrittenBack(rows: seq<Row>, order: seq<nat>, count: nat, cfg: Config, feed: BatchFeed)
    requires count < |order| && order[count] < |rows|
    requires |cfg.groups| == 0 || cfg.runTimes >= 1
    requires forall a, b :: 0 <= a < b < |order| ==> order[a] != order[b]
    ensures WrittenBack(rows, order[..count + 1], cfg, feed)
         == WrittenBack(rows, order[..count], cfg, feed)[order[count] :=
              Completed(WrittenBack(rows, order[..count], cfg, feed)[order[count]],
                        Classification(feed(order[count]), |cfg.groups|, cfg.runTimes, cfg.maxRetries))]
  {
    var i := order[count];
    assert i !in order[..count] by {
      forall k | 0 <= k < count ensures order[k] != i {
      }
    }
    assert order[..count + 1] == order[..count] + [i];
    var before := WrittenBack(rows, order[..count], cfg, feed);
    var after := WrittenBack(rows, order[..count + 1], cfg, feed);
    forall j | 0 <= j < |rows|
      ensures after[j] == before[i := Completed(before[i], Classification(feed(i), |cfg.groups|, cfg.runTimes, cfg.maxRetries))][j]
    {
      if j != i {
        assert j in order[..count + 1] <==> j in order[..count];
      }
    }
  }

  /** Once every completion is written back, the rows that were unprocessed hold their
      record's results and are processed, the others are as they were, and nothing is
      left to submit. */
  lemma AllWrittenBack(rows: seq<Row>, order: seq<nat>, cfg: Config, feed: BatchFeed)
    requires multiset(order) == multiset(Unprocessed(rows))
    requires order == [] || |cfg.groups| == 0 || cfg.runTimes >= 1
    ensures forall i :: 0 <= i < |rows| ==>
              WrittenBack(rows, order, cfg, feed)[i]
                == if rows[i].processed then rows[i]
                   else Completed(rows[i], Classification(feed(i), |cfg.groups|, cfg.runTimes, cfg.maxRetries))
    ensures Unprocessed(WrittenBack(rows, order, cfg, feed)) == []
  {
    PermutationOfUnprocessed(order, rows);
    WrittenBackRows(rows, order, cfg, feed);
  }

  /** Writing back exactly the unprocessed rows completes each of them and only them. */
  lemma WrittenBackRows(rows: seq<Row>, order: seq<nat>, cfg: Config, feed: BatchFeed)
    requires order == [] || |cfg.groups| == 0 || cfg.runTimes >= 1
    requires forall i :: i in order <==> 0 <= i < |rows| && !rows[i].processed
    ensures forall i :: 0 <= i < |rows| ==>
              WrittenBack(rows, order, cfg, feed)[i]
                == if rows[i].processed then rows[i]
                   else Completed(rows[i], Classification(feed(i), |cfg.groups|, cfg.runTimes, cfg.maxRetries))
    ensures Unprocessed(WrittenBack(rows, order, cfg, feed)) == []
  {
    var after := WrittenBack(rows, order, cfg, feed);
    forall i | 0 <= i < |rows|
      ensures after[i] == if rows[i].processed then rows[i]
                          else Completed(rows[i], Classification(feed(i), |cfg.groups|, cfg.runTimes, cfg.maxRetries))
    {
      assert i in order <==> !rows[i].processed;
    }
    NoneLeft(after);
  }

  /** The spreadsheet and the loop's own state: `table` is `df`, `batch` is
      `batch_results`, `saved` is the file as last written and `saves` counts the writes. */
  class Workbook {
    const table: array<Row>
    var batch: seq<nat>
    var saved: seq<Row>
    var saves: nat

    /** The loop's invariant: fewer than `SaveInterval` completions wait to be saved, and
        every row not among them is on file as it is in memory. */
    ghost predicate Valid()
      reads this, table
    {
      |saved| == table.Length
      && |batch| < SaveInterval
      && (forall k :: 0 <= k < |batch| ==> batch[k] < table.Length)
      && (forall i :: 0 <= i < table.Length && i !in batch ==> saved[i] == table[i])
    }

    /** Line 38: the table as read from the file. */
    constructor Load(file: seq<Row>)
      ensures Valid() && fresh(table)
      ensures table[..] == file && saved == file && batch == [] && saves == 0
    {
      table := new Row[|file|](i requires 0 <= i < |file| => file[i]);
      saved := file;
      batch := [];
      saves := 0;
    }

    /** Lines 137-146: one completion, the `count`-th (0-based). Writes the record's results,
        marks its row processed, and saves when `count` is a multiple of `SaveInterval`. */
    method Complete(count: nat, i: nat, results: map<string, Verdict>)
      requires Valid() && i < table.Length && |batch| == BatchSize(count)
      modifies this, table
      ensures Valid() && |batch| == BatchSize(count + 1)
      ensures table[..] == old(table[..])[i := Completed(old(table[i]), results)]
      ensures saves == old(saves) + (if count % SaveInterval == 0 then 1 else 0)
      ensures count % SaveInterval == 0 ==> batch == [] && saved == table[..]
      ensures count % SaveInterval != 0 ==> batch == old(batch) + [i] && saved == old(saved)
    {
      table[i] := Completed(table[i], results);
      batch := batch + [i];
      if count % SaveInterval == 0 {
        saved := table[..];
        saves := saves + 1;
        batch := [];
      }
    }

    /** Lines 136-146: the completions in `order`, one after the other. Each record's
        results are written back to its row, and a save happens after the 1st, 13th, 25th,
        ... completion. */
    method CompleteAll(cfg: Config, order: seq<nat>, feed: BatchFeed, ghost rows: seq<Row>)
      requires Valid() && batch == [] && table[..] == rows
      requires forall k :: 0 <= k < |order| ==> order[k] < table.Length
      requires forall a, b :: 0 <= a < b < |order| ==> order[a] != order[b]
      requires order == [] || |cfg.groups| == 0 || cfg.runTimes >= 1
      modifies this, table
      ensures Valid() && |batch| == BatchSize(|order|)
      ensures table[..] == WrittenBack(rows, order, cfg, feed)
      ensures saves == old(saves) + InLoopSaves(|order|)
    {
      for count := 0 to |order|
        invariant Valid() && |batch| == BatchSize(count)
        invariant saves == old(saves) + InLoopSaves(count)
        invariant table[..] == WrittenBack(rows, order[..count], cfg, feed)
      {
        var i, results := ProcessAbstract(order[count], cfg, feed(order[count]));
        OneWrittenBack(rows, order, count, cfg, feed);
        Complete(count, i, results);
      }
      assert order[..|order|] == order;
    }

    /** Lines 132-149, with the pool's completion order given as `order`, a permutation of
        the submitted indices. Every unprocessed row ends up processed with its record's
        results, every other row is untouched, and everything is on file at the end. */
    method Run(cfg: Config, order: seq<nat>, feed: BatchFeed)
      requires Valid() && batch == []
      requires multiset(order) == multiset(Unprocessed(table[..]))
      requires order == [] || |cfg.groups| == 0 || cfg.runTimes >= 1
      modifies this, table
      ensures Valid() && |batch| == BatchSize(|order|)
      ensures table[..] == WrittenBack(old(table[..]), order, cfg, feed)
      ensures saves == old(saves) + SaveCount(|order|)
      ensures saved == table[..]
    {
      ghost var rows := table[..];
      PermutationOfUnprocessed(order, rows);
      CompleteAll(cfg, order, feed, rows);
      if batch != [] {
        saved := table[..];
        saves := saves + 1;
      } else {
        assert forall j :: 0 <= j < table.Length ==> saved[j] == table[j];
        assert saved == table[..];
      }
    }
  }

  /** Restarting from the file after a run finds nothing to do: no record is submitted,
      nothing is written and the table is what the first run left. */
  method RestartAfterRun(w: Workbook, cfg: Config, order: seq<nat>, feed: BatchFeed) returns (again: Workbook)
    requires w.Valid() && w.batch == []
    requires multiset(order) == multiset(Unprocessed(w.table[..]))
    requires order == [] || |cfg.groups| == 0 || cfg.runTimes >= 1
    modifies w, w.table
    ensures Unprocessed(w.saved) == []
    ensures again.saves == 0 && again.table[..] == w.table[..] && again.saved == w.saved
  {
    ghost var rows := w.table[..];
    w.Run(cfg, order, feed);
    AllWrittenBack(rows, order, cfg, feed);
    again := new Workbook.Load(w.saved);
    ghost var first := again.table[..];
    again.Run(cfg, [], feed);
    assert WrittenBack(first, [], cfg, feed) == first;
  }

  /** The whole script from line 53 on: a keyword-group count that differs from the
      example-answer count raises before any completion is written or saved; otherwise
      the completion loop runs. */
  method ProcessFile(w: Workbook, keywordsList: string, exampleAnswer: string, runTimes: int, maxRetries: int,
                     order: seq<nat>, feed: BatchFeed)
    returns (outcome: Result<Config, ConfigError>)
    requires w.Valid() && w.batch == []
    requires multiset(order) == multiset(Unprocessed(w.table[..]))
    requires order == [] || runTimes >= 1 || Occurrences(keywordsList, ';') != Occurrences(exampleAnswer, ',')
    modifies w, w.table
    ensures outcome == ParseConfig(keywordsList, exampleAnswer, runTimes, maxRetries)
    ensures outcome.Err? ==> w.table[..] == old(w.table[..]) && w.saved == old(w.saved) && w.saves == old(w.saves)
    ensures outcome.Ok? ==> w.table[..] == WrittenBack(old(w.table[..]), order, outcome.value, feed)
    ensures outcome.Ok? ==> Unprocessed(w.table[..]) == [] && w.saved == w.table[..]
                            && w.saves == old(w.saves) + SaveCount(|order|)
  {
    outcome := ParseConfig(keywordsList, exampleAnswer, runTimes, maxRetries);
    if outcome.Ok? {
      ghost var rows := w.table[..];
      w.Run(outcome.value, order, feed);
      AllWrittenBack(rows, order, outcome.value, feed);
    }
  }
}
