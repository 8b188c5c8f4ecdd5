/**
 * The consistency vote over the repeated runs of one question
 * (abstract_processing.py lines 122-125).
 */
module ConsistencyVoter {
  import opened ResponseExtractor

  /** A keyword group's verdict as written into its result column: 'Y', 'N' or 'Uncertain'. */
  datatype Verdict = Yes | No | Uncertain

  /** Line 122: the runs agree when every one is 'Y' or every one is 'N'; the verdict is
      then that letter (`consistent_responses[0]`), and 'Uncertain' otherwise. The script
      indexes `[0]` after `all(...)`, so it needs at least one run. */
  function Vote(responses: seq<Answer>): (v: Verdict)
    requires |responses| >= 1
    ensures v == Yes <==> forall k :: 0 <= k < |responses| ==> responses[k] == Y
    ensures v == No <==> forall k :: 0 <= k < |responses| ==> responses[k] == N
  {
    if (forall k :: 0 <= k < |responses| ==> responses[k] == Y)
       || (forall k :: 0 <= k < |responses| ==> responses[k] == N)
    then (if responses[0] == Y then Yes else No)
    else Uncertain
  }

  /** The vote is 'Uncertain' exactly when some run was 'N/A' or the runs disagree; in
      particular a question every run of which came back 'N/A' is 'Uncertain'. */
  lemma VoteUncertain(responses: seq<Answer>)
    requires |responses| >= 1
    ensures Vote(responses) == Uncertain <==>
              (exists k :: 0 <= k < |responses| && responses[k] == NA)
              || (exists a, b :: 0 <= a < |responses| && 0 <= b < |responses| && responses[a] == Y && responses[b] == N)
  {
    if Vote(responses) == Uncertain {
      var a :| 0 <= a < |responses| && responses[a] != Y;
      var b :| 0 <= b < |responses| && responses[b] != N;
      if responses[a] == N && responses[b] == Y {
        assert responses[b] == Y && responses[a] == N;
      }
    }
  }

  /** The vote depends only on how many runs gave each answer, not on their order. */
  lemma VoteIgnoresOrder(responses: seq<Answer>, reordered: seq<Answer>)
    requires |responses| >= 1
    requires multiset(responses) == multiset(reordered)
    ensures |reordered| >= 1 && Vote(reordered) == Vote(responses)
  {
    assert |reordered| == |multiset(reordered)| == |responses|;
    AllAreCount(responses, Y);
    AllAreCount(reordered, Y);
    AllAreCount(responses, N);
    AllAreCount(reordered, N);
  }

  /** Every element is `x` exactly when `x` occurs as often as the sequence is long. */
  lemma {:induction false} AllAreCount(s: seq<Answer>, x: Answer)
    ensures (forall k :: 0 <= k < |s| ==> s[k] == x) <==> multiset(s)[x] == |s|
  {
    if s != [] {
      AllAreCount(s[1..], x);
      assert s == [s[0]] + s[1..];
      assert multiset(s) == multiset{s[0]} + multiset(s[1..]);
      assert multiset(s[1..])[x] <= |s[1..]| by {
        assert multiset(s[1..])[x] <= |multiset(s[1..])|;
      }
      if forall k :: 1 <= k < |s| ==> s[k] == x {
        assert forall k :: 0 <= k < |s[1..]| ==> s[1..][k] == x;
      } else {
        var k :| 1 <= k < |s| && s[k] != x;
        assert s[1..][k - 1] != x;
      }
    }
  }

  /** Four sample votes over three runs: unanimous 'Y', unanimous 'N', a mixture, and
      three runs that all came back 'N/A'. */
  lemma SampleVotes()
    ensures Vote([Y, Y, Y]) == Yes
    ensures Vote([N, N, N]) == No
    ensures Vote([Y, N, Y]) == Uncertain
    ensures Vote([NA, NA, NA]) == Uncertain
  {
    assert [Y, N, Y][1] == N;
    assert [NA, NA, NA][0] == NA;
  }
}
