/** How `CanonicalCandidatePool` answers, and the thresholds it answers by. */
module PoolAnswers {
  import opened Dictionaries
  import opened Quorum
  import opened WeightedMedian
  import opened CandidatePool
  import Merkle

  // ----- answers

  /** A call answers with rows exactly if its key is frozen afterwards, and then with what
      is frozen. */
  lemma AnswerIsFrozen(cfg: Config, st: State, op: Op)
    ensures var (r, after) := AddStep(cfg, st, op.stakes, op.failure, op.key, op.signer, op.scores);
            && (r.Canonical? <==> op.key in after.frozen)
            && (r.Canonical? ==> r.frozen == after.frozen[op.key])
  {}

  /** The answer that step `i` of a run gets. */
  function AnswerAt(cfg: Config, ops: seq<Op>, i: nat): Outcome
    requires i < |ops|
  {
    var op := ops[i];
    AddStep(cfg, Run(cfg, ops[..i]).st, op.stakes, op.failure, op.key, op.signer, op.scores).0
  }

  lemma RunPrefix(cfg: Config, ops: seq<Op>, i: nat)
    requires i < |ops|
    ensures Run(cfg, ops[..i + 1]) == Step(cfg, Run(cfg, ops[..i]), ops[i])
  {
    assert ops[..i + 1][..i] == ops[..i];
  }

  lemma FrozenAfter(cfg: Config, ops: seq<Op>, i: nat)
    requires i < |ops| && AnswerAt(cfg, ops, i).Canonical?
    ensures var st := Run(cfg, ops[..i + 1]).st;
            ops[i].key in st.frozen && AnswerAt(cfg, ops, i) == Canonical(st.frozen[ops[i].key])
  {
    AnswerIsFrozen(cfg, Run(cfg, ops[..i]).st, ops[i]);
    RunPrefix(cfg, ops, i);
  }

  /** In every run, once a call for a key has answered with rows, every later call for it
      answers with the same root and rows. */
  lemma AnswersAgree(cfg: Config, ops: seq<Op>, i: nat, j: nat)
    requires i < j < |ops| && ops[i].key == ops[j].key && AnswerAt(cfg, ops, i).Canonical?
    ensures AnswerAt(cfg, ops, j) == AnswerAt(cfg, ops, i)
  {
    FrozenAfter(cfg, ops, i);
    assert ops[..j] == ops[..i + 1] + ops[i + 1..j];
    FrozenAnswersAlike(cfg, ops[..i + 1], ops[i + 1..j], ops[j]);
  }

  /** Which call gets which of the other answers. */
  lemma RefusalsExactly(cfg: Config, st: State, op: Op)
    requires op.key !in st.frozen
    ensures var r := AddStep(cfg, st, op.stakes, op.failure, op.key, op.signer, op.scores).0;
            var stake := op.stakes.of(op.key.1, op.signer);
            var inRange := forall i :: 0 <= i < |op.scores| ==> 0 <= op.scores[i].score <= 1_000_000;
            && (r == Rejected(NoStake) <==> !op.failure.AtSigner? && stake == 0)
            && (r == Rejected(ScoreOutOfRange) <==> !op.failure.AtSigner? && stake > 0 && !inRange)
            && (r == Rejected(EmptyCandidate) <==> !op.failure.AtSigner? && stake > 0 && op.scores == [])
            && (r == LookupRaised <==>
                || op.failure.AtSigner?
                || (op.failure.AtQuorum? && stake > 0 && inRange && op.scores != []))
  {
    NormalizeExact(op.scores, 0);
    EmptyExactly(op.scores);
  }

  lemma EmptyExactly(scores: seq<Submission>)
    ensures Normalize(scores) == Some(map[]) <==> scores == []
  {
    if scores != [] {
      NormalizeExact(scores, scores[|scores| - 1].miner);
      assert LastAbout(scores, |scores| - 1, scores[|scores| - 1].miner);
    }
  }

  // ----- thresholds

  /** What a quorum takes of a positive total is the least integer that is at least the
      given share; a total of zero takes one. */
  lemma RequiredIsCeiling(total: nat, bps: nat, x: nat)
    ensures total > 0 ==> (x >= Required(total, bps) <==> 10000 * x >= total * bps)
    ensures total == 0 ==> (x >= Required(total, bps) <==> x >= 1)
  {
    NeedIsCeiling(total, bps, x);
  }

  /** Without a share of its own the pool asks for 50.01 percent, a majority. */
  lemma DefaultIsMajority(hashing: Merkle.Hashing, total: nat, x: nat)
    requires total > 0
    ensures var bps := Config(hashing).minQuorumBps;
            && (x >= Required(total, bps) <==> 10000 * x >= 5001 * total)
            && 2 * Required(total, bps) > total
  {
    RequiredIsCeiling(total, 5001, x);
    MajorityNeed(total, 5001);
  }

  // ----- what is counted

  predicate Counts(contributors: Contributors, stakes: Stakes, brain: nat, miner: nat, i: nat) {
    i < |contributors| && miner in contributors[i].1 && stakes.of(brain, contributors[i].0) > 0
  }

  function ReportOf(contributors: Contributors, stakes: Stakes, brain: nat, miner: nat, i: nat): Report
    requires Counts(contributors, stakes, brain, miner, i)
  {
    (contributors[i].1[miner], stakes.of(brain, contributors[i].0))
  }

  ghost predicate ReportsAre(contributors: Contributors, stakes: Stakes, brain: nat, miner: nat, start: nat,
                             from: seq<nat>, reports: seq<Report>)
  {
    && |from| == |reports|
    && (forall i: nat :: i in from <==> start <= i && Counts(contributors, stakes, brain, miner, i))
    && (forall k, l :: 0 <= k < l < |from| ==> from[k] < from[l])
    && (forall k :: 0 <= k < |from| ==>
          Counts(contributors, stakes, brain, miner, from[k])
          && reports[k] == ReportOf(contributors, stakes, brain, miner, from[k]))
  }

  lemma OneMoreReport(contributors: Contributors, stakes: Stakes, brain: nat, miner: nat, start: nat,
                      from: seq<nat>, reports: seq<Report>)
    requires start < |contributors| && ReportsAre(contributors, stakes, brain, miner, start + 1, from, reports)
    ensures Counts(contributors, stakes, brain, miner, start) ==>
              ReportsAre(contributors, stakes, brain, miner, start, [start] + from,
                         [ReportOf(contributors, stakes, brain, miner, start)] + reports)
    ensures !Counts(contributors, stakes, brain, miner, start) ==>
              ReportsAre(contributors, stakes, brain, miner, start, from, reports)
  {
    if Counts(contributors, stakes, brain, miner, start) {
      var more := [start] + from;
      forall k, l | 0 <= k < l < |more|
        ensures more[k] < more[l]
      {
        assert more[l] == from[l - 1] && from[l - 1] in from;
      }
    }
  }

  lemma {:induction false} ReportsFrom(contributors: Contributors, stakes: Stakes, brain: nat, miner: nat, start: nat)
      returns (from: seq<nat>)
    requires start <= |contributors|
    ensures ReportsAre(contributors, stakes, brain, miner, start, from,
                       Reports(contributors[start..], stakes, brain, miner))
    decreases |contributors| - start
  {
    from := [];
    if start < |contributors| {
      var rest := ReportsFrom(contributors, stakes, brain, miner, start + 1);
      assert contributors[start..][1..] == contributors[start + 1..];
      OneMoreReport(contributors, stakes, brain, miner, start, rest,
                    Reports(contributors[start + 1..], stakes, brain, miner));
      from := if Counts(contributors, stakes, brain, miner, start) then [start] + rest else rest;
    }
  }

  /** A miner's reports come one each from the contributors that score it and have stake,
      in their order, each with its score and its stake. */
  lemma ReportsExactly(contributors: Contributors, stakes: Stakes, brain: nat, miner: nat) returns (from: seq<nat>)
    ensures ReportsAre(contributors, stakes, brain, miner, 0, from, Reports(contributors, stakes, brain, miner))
  {
    assert contributors[0..] == contributors;
    from := ReportsFrom(contributors, stakes, brain, miner, 0);
  }

  /** In every run, a frozen root is the Merkle root over the frozen rows in their order. */
  lemma FrozenRootIsOfRows(cfg: Config, ops: seq<Op>, key: Key, leaves: seq<Merkle.ScoreLeaf>)
    requires key in Run(cfg, ops).st.frozen
    requires var rows := Run(cfg, ops).st.frozen[key].rows;
             && |leaves| == |rows|
             && forall i :: 0 <= i < |rows| ==> leaves[i] == Merkle.ScoreLeaf(key.1, rows[i].miner, rows[i].score)
    ensures Run(cfg, ops).st.frozen[key].root == Merkle.RootOf(cfg.hashing, leaves)
  {
    EveryFreezeIsJustified(cfg, ops);
    assert Recorded(Run(cfg, ops), key);
    assert Leaves(key.1, Run(cfg, ops).st.frozen[key].rows) == leaves;
  }
}
