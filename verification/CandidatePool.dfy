/** `CanonicalCandidatePool` of validator/src/basedai_validator/aggregator.py: score
    maps of single validators are combined, once their submitters represent a
    quorum, into one frozen list of rows and its Merkle root. */
module CandidatePool {
  import opened Sorting
  import opened Dictionaries
  import opened Quorum
  import opened WeightedMedian
  import Merkle

  type Key = (nat, nat)

  /** The score each miner got from one validator. */
  type Candidate = map<nat, nat>

  type Contributors = Dict<Address, Candidate>

  /** A score as a validator submits it, not yet checked. */
  datatype Submission = Submission(miner: nat, score: int)

  datatype Row = Row(miner: nat, score: nat)

  datatype Frozen = Frozen(root: Merkle.Digest, rows: seq<Row>)

  datatype Config = Config(hashing: Merkle.Hashing, minQuorumBps: nat := MIN_QUORUM_BPS)

  datatype State = State(candidates: map<Key, Contributors>, frozen: map<Key, Frozen>)

  datatype Error = NoStake | ScoreOutOfRange | EmptyCandidate | NoCoverage

  datatype Outcome = Canonical(frozen: Frozen) | Waiting | Rejected(error: Error) | LookupRaised

  /** Which stake lookup of a call raises, if any: the first one, of the signer's own
      stake, or one of those that follow once the candidate is recorded. */
  datatype Failure = Never | AtSigner | AtQuorum

  const MAX_SCORE := 1_000_000

  // ----- one candidate

  /** Later rows for a miner override earlier ones; `None` if any score is out of range. */
  function Normalize(scores: seq<Submission>): Option<Candidate> {
    if scores == [] then Some(map[])
    else
      var before, row := Normalize(scores[..|scores| - 1]), scores[|scores| - 1];
      if before.None? || row.score < 0 || row.score > MAX_SCORE then None
      else Some(before.value[row.miner := row.score])
  }

  method NormalizeScores(scores: seq<Submission>) returns (r: Option<Candidate>)
    ensures r == Normalize(scores)
  {
    var normalized: Candidate := map[];
    for i := 0 to |scores|
      invariant Normalize(scores[..i]) == Some(normalized)
    {
      assert scores[..i + 1][..i] == scores[..i];
      var row := scores[i];
      if row.score < 0 || row.score > MAX_SCORE {
        StaysOutOfRange(scores, i + 1);
        return None;
      }
      normalized := normalized[row.miner := row.score];
    }
    assert scores[..|scores|] == scores;
    return Some(normalized);
  }

  lemma {:induction false} StaysOutOfRange(scores: seq<Submission>, i: nat)
    requires i <= |scores| && Normalize(scores[..i]) == None
    ensures Normalize(scores) == None
    decreases |scores| - i
  {
    if i == |scores| {
      assert scores[..i] == scores;
    } else {
      assert scores[..i + 1][..i] == scores[..i];
      StaysOutOfRange(scores, i + 1);
    }
  }

  /** Row `i` is the last one about the miner. */
  ghost predicate LastAbout(scores: seq<Submission>, i: nat, miner: nat) {
    i < |scores| && scores[i].miner == miner && forall j :: i < j < |scores| ==> scores[j].miner != miner
  }

  /** A candidate is usable exactly if every score is in range, and it then holds each
      miner's last score. */
  lemma {:induction false} NormalizeExact(scores: seq<Submission>, miner: nat)
    ensures Normalize(scores).Some? <==> forall i :: 0 <= i < |scores| ==> 0 <= scores[i].score <= 1_000_000
    ensures Normalize(scores).Some? ==>
              (miner in Normalize(scores).value <==> exists i: nat :: LastAbout(scores, i, miner))
    ensures Normalize(scores).Some? ==>
              forall i: nat :: LastAbout(scores, i, miner) ==> Normalize(scores).value[miner] == scores[i].score
  {
    if scores != [] {
      var before, last := scores[..|scores| - 1], scores[|scores| - 1];
      NormalizeExact(before, miner);
      LastAboutSnoc(scores, miner);
    }
  }

  lemma LastAboutSnoc(scores: seq<Submission>, miner: nat)
    requires scores != []
    ensures var n := |scores| - 1;
            forall i: nat :: i < n ==>
              (LastAbout(scores, i, miner) <==> LastAbout(scores[..n], i, miner) && scores[n].miner != miner)
    ensures LastAbout(scores, |scores| - 1, miner) <==> scores[|scores| - 1].miner == miner
  {}

  // ----- the canonical rows

  /** The reports on `miner` of all contributors that have stake. */
  function Reports(contributors: Contributors, stakes: Stakes, brain: nat, miner: nat): seq<Report> {
    if contributors == [] then []
    else
      var (signer, candidate) := contributors[0];
      var rest := Reports(contributors[1..], stakes, brain, miner);
      if miner in candidate && stakes.of(brain, signer) > 0
      then [(candidate[miner], stakes.of(brain, signer))] + rest
      else rest
  }

  lemma {:induction false} ReportsArePositive(contributors: Contributors, stakes: Stakes, brain: nat, miner: nat)
    ensures forall x :: x in Reports(contributors, stakes, brain, miner) ==> x.1 > 0
  {
    if contributors != [] {
      ReportsArePositive(contributors[1..], stakes, brain, miner);
    }
  }

  function Miners(contributors: Contributors): set<nat> {
    if contributors == [] then {} else contributors[0].1.Keys + Miners(contributors[1..])
  }

  lemma {:induction false} MinersExact(contributors: Contributors, m: nat)
    ensures m in Miners(contributors) <==> exists c :: c in contributors && m in c.1
  {
    if contributors != [] {
      assert contributors == [contributors[0]] + contributors[1..];
      MinersExact(contributors[1..], m);
    }
  }

  predicate Least(x: nat, s: set<nat>) {
    x in s && forall y :: y in s ==> x <= y
  }

  lemma {:induction false} LeastExists(s: set<nat>) returns (x: nat)
    requires s != {}
    ensures Least(x, s)
    decreases |s|
  {
    var y :| y in s;
    var rest := s - {y};
    assert forall z :: z in s <==> z == y || z in rest;
    x := y;
    if rest != {} {
      var least := LeastExists(rest);
      x := if least < y then least else y;
    }
  }

  /** Python's `sorted` of a set. */
  function Ascending(s: set<nat>): seq<nat> {
    if s == {} then []
    else
      assert exists x :: Least(x, s) by { var x := LeastExists(s); }
      var x :| Least(x, s);
      [x] + Ascending(s - {x})
  }

  lemma {:induction false} AscendingExact(s: set<nat>)
    ensures forall x :: x in Ascending(s) <==> x in s
    ensures forall i, j :: 0 <= i < j < |Ascending(s)| ==> Ascending(s)[i] < Ascending(s)[j]
  {
    if s != {} {
      var x := LeastExists(s);
      assert Ascending(s) == [x] + Ascending(s - {x});
      AscendingExact(s - {x});
      forall j | 0 <= j < |Ascending(s - {x})|
        ensures x < Ascending(s - {x})[j]
      {
        assert Ascending(s - {x})[j] in s - {x};
      }
    }
  }

  /** A miner's row, unless its reports are not backed by enough stake. */
  function RowOf(contributors: Contributors, stakes: Stakes, brain: nat, need: nat, miner: nat): seq<Row> {
    var weighted := Sort(ReportAtMost, Reports(contributors, stakes, brain, miner));
    if weighted == [] || Weight(weighted) < need then [] else [Row(miner, Median(weighted))]
  }

  function RowsOf(contributors: Contributors, stakes: Stakes, brain: nat, need: nat, miners: seq<nat>): seq<Row> {
    if miners == [] then []
    else RowsOf(contributors, stakes, brain, need, miners[..|miners| - 1])
         + RowOf(contributors, stakes, brain, need, miners[|miners| - 1])
  }

  function CanonicalRows(contributors: Contributors, stakes: Stakes, brain: nat, need: nat): seq<Row> {
    RowsOf(contributors, stakes, brain, need, Ascending(Miners(contributors)))
  }

  method ComputeRows(contributors: Contributors, stakes: Stakes, brain: nat, need: nat) returns (rows: seq<Row>)
    ensures rows == CanonicalRows(contributors, stakes, brain, need)
  {
    var miners := Ascending(Miners(contributors));
    rows := [];
    for i := 0 to |miners|
      invariant rows == RowsOf(contributors, stakes, brain, need, miners[..i])
    {
      assert miners[..i + 1][..i] == miners[..i];
      var weighted := Sort(ReportAtMost, Reports(contributors, stakes, brain, miners[i]));
      var weight := Weight(weighted);
      if weighted == [] || weight < need {
        continue;
      }
      var median := ComputeMedian(weighted);
      rows := rows + [Row(miners[i], median)];
    }
    assert miners[..|miners|] == miners;
  }

  // ----- adding a candidate

  function Required(total: nat, bps: nat): nat {
    if total != 0 then Need(total, bps) else 1
  }

  function ContributorsOf(st: State, key: Key): Contributors {
    if key in st.candidates then st.candidates[key] else []
  }

  function Leaves(brain: nat, rows: seq<Row>): (r: seq<Merkle.ScoreLeaf>)
    ensures |r| == |rows|
  {
    seq<Merkle.ScoreLeaf>(|rows|, i requires 0 <= i < |rows| => Merkle.ScoreLeaf(brain, rows[i].miner, rows[i].score))
  }

  function Publish(cfg: Config, brain: nat, rows: seq<Row>): Frozen {
    Frozen(Merkle.RootOf(cfg.hashing, Leaves(brain, rows)), rows)
  }

  /** The effect of `add` once the candidate has been recorded and if no lookup raises. */
  function Conclude(cfg: Config, st: State, stakes: Stakes, key: Key): (Outcome, State) {
    var contributors, brain := ContributorsOf(st, key), key.1;
    var need := Required(stakes.total(brain), cfg.minQuorumBps);
    if Backing(stakes, brain, Keys(contributors)) < need then (Waiting, st)
    else
      var rows := CanonicalRows(contributors, stakes, brain, need);
      if rows == [] then (Rejected(NoCoverage), st)
      else
        var frozen := Publish(cfg, brain, rows);
        (Canonical(frozen), st.(frozen := st.frozen[key := frozen]))
  }

  function Enter(st: State, key: Key, signer: Address, candidate: Candidate): State {
    st.(candidates := st.candidates[key := Put(ContributorsOf(st, key), signer, candidate)])
  }

  function AddStep(cfg: Config, st: State, stakes: Stakes, failure: Failure, key: Key, signer: Address,
                   scores: seq<Submission>)
    : (Outcome, State)
  {
    if key in st.frozen then (Canonical(st.frozen[key]), st)
    else if failure.AtSigner? then (LookupRaised, st)
    else if stakes.of(key.1, signer) <= 0 then (Rejected(NoStake), st)
    else
      var candidate := Normalize(scores);
      if candidate.None? then (Rejected(ScoreOutOfRange), st)
      else if candidate.value == map[] then (Rejected(EmptyCandidate), st)
      else if failure.AtQuorum? then (LookupRaised, Enter(st, key, signer, candidate.value))
      else Conclude(cfg, Enter(st, key, signer, candidate.value), stakes, key)
  }

  class CanonicalCandidatePool {
    const cfg: Config
    var candidates: map<Key, Contributors>
    var frozen: map<Key, Frozen>

    ghost function Abs(): State
      reads this
    {
      State(candidates, frozen)
    }

    constructor (cfg: Config)
      ensures this.cfg == cfg && Abs() == State(map[], map[])
    {
      this.cfg := cfg;
      candidates, frozen := map[], map[];
    }

    /** A candidate stays recorded although the call is rejected if it brings the total to
        a quorum without giving any miner enough coverage, and also if a stake lookup raises
        after the first. */
    method Add(stakes: Stakes, failure: Failure, epoch: nat, brain: nat, signer: Address, scores: seq<Submission>)
      returns (r: Outcome)
      modifies this
      ensures (r, Abs()) == AddStep(cfg, old(Abs()), stakes, failure, (epoch, brain), signer, scores)
    {
      var key := (epoch, brain);
      if key in frozen {
        return Canonical(frozen[key]);
      }
      if failure.AtSigner? {
        return LookupRaised;
      }
      if stakes.of(brain, signer) <= 0 {
        return Rejected(NoStake);
      }
      var normalized := NormalizeScores(scores);
      if normalized.None? {
        return Rejected(ScoreOutOfRange);
      }
      if normalized.value == map[] {
        return Rejected(EmptyCandidate);
      }
      var contributors := Put(if key in candidates then candidates[key] else [], signer, normalized.value);
      candidates := candidates[key := contributors];
      r := FreezeIfQuorate(stakes, failure.AtQuorum?, key);
    }

    /** The second half of `add`, from the quorum test on. */
    method FreezeIfQuorate(stakes: Stakes, lookupRaises: bool, key: Key) returns (r: Outcome)
      requires key in candidates
      modifies this
      ensures (r, Abs()) == if lookupRaises then (LookupRaised, old(Abs())) else Conclude(cfg, old(Abs()), stakes, key)
    {
      if lookupRaises {
        return LookupRaised;
      }
      var contributors, brain := candidates[key], key.1;
      var total := stakes.total(brain);
      var need := if total != 0 then (total * cfg.minQuorumBps + 9999) / 10000 else 1;
      if Backing(stakes, brain, Keys(contributors)) < need {
        return Waiting;
      }
      var rows := ComputeRows(contributors, stakes, brain, need);
      if rows == [] {
        return Rejected(NoCoverage);
      }
      var root, _ := Merkle.BuildMerkleRoot(cfg.hashing, Leaves(brain, rows));
      frozen := frozen[key := Frozen(root, rows)];
      return Canonical(frozen[key]);
    }
  }

  // ----- what the canonical rows are

  ghost predicate MinersAscend(rows: seq<Row>) {
    forall i, j :: 0 <= i < j < |rows| ==> rows[i].miner < rows[j].miner
  }

  lemma {:induction false} RowsOfContents(contributors: Contributors, stakes: Stakes, brain: nat, need: nat,
                                          miners: seq<nat>)
    requires forall i, j :: 0 <= i < j < |miners| ==> miners[i] < miners[j]
    ensures MinersAscend(RowsOf(contributors, stakes, brain, need, miners))
    ensures forall row :: row in RowsOf(contributors, stakes, brain, need, miners) <==>
              row.miner in miners && RowOf(contributors, stakes, brain, need, row.miner) == [row]
  {
    if miners != [] {
      var before, last := miners[..|miners| - 1], miners[|miners| - 1];
      assert miners == before + [last];
      RowsOfContents(contributors, stakes, brain, need, before);
      var rows := RowsOf(contributors, stakes, brain, need, before);
      forall i | 0 <= i < |rows|
        ensures rows[i].miner < last
      {
        assert rows[i] in rows;
      }
      AscendSnoc(rows, RowOf(contributors, stakes, brain, need, last), last);
    }
  }

  lemma AscendSnoc(rows: seq<Row>, more: seq<Row>, miner: nat)
    requires MinersAscend(rows) && |more| <= 1
    requires forall i :: 0 <= i < |rows| ==> rows[i].miner < miner
    requires forall i :: 0 <= i < |more| ==> more[i].miner == miner
    ensures MinersAscend(rows + more)
  {}

  /** The score of a miner's row: the least integer that minimises the weighted
      deviations from the reports. */
  lemma RowOfExact(contributors: Contributors, stakes: Stakes, brain: nat, need: nat, miner: nat, score: nat)
    ensures RowOf(contributors, stakes, brain, need, miner) == [Row(miner, score)]
            <==>
            && Covered(contributors, stakes, brain, need, miner)
            && LeastMinimiser(Reports(contributors, stakes, brain, miner), score)
  {
    var reports := Reports(contributors, stakes, brain, miner);
    SortRearranges(ReportAtMost, reports);
    if reports != [] {
      ReportsArePositive(contributors, stakes, brain, miner);
      SortedMedian(reports);
      MedianMinimisesCost(reports, Median(Sort(ReportAtMost, reports)));
    }
  }

  lemma CoveredHasRow(contributors: Contributors, stakes: Stakes, brain: nat, need: nat, miner: nat)
      returns (score: nat)
    requires Covered(contributors, stakes, brain, need, miner)
    ensures RowOf(contributors, stakes, brain, need, miner) == [Row(miner, score)]
    ensures IsMedian(Reports(contributors, stakes, brain, miner), score)
  {
    var reports := Reports(contributors, stakes, brain, miner);
    ReportsArePositive(contributors, stakes, brain, miner);
    SortedMedian(reports);
    score := Median(Sort(ReportAtMost, reports));
  }

  /** The reports on the miner carry at least the required stake. */
  ghost predicate Covered(contributors: Contributors, stakes: Stakes, brain: nat, need: nat, miner: nat) {
    && Reports(contributors, stakes, brain, miner) != []
    && Weight(Reports(contributors, stakes, brain, miner)) >= need
  }

  /** A score is canonical for a miner exactly when the reports on that miner carry
      at least the required stake and the score is the least integer that minimises
      the stake-weighted sum of absolute deviations from them. */
  lemma CanonicalRowsExact(contributors: Contributors, stakes: Stakes, brain: nat, need: nat, row: Row)
    ensures row in CanonicalRows(contributors, stakes, brain, need)
            <==>
            && Covered(contributors, stakes, brain, need, row.miner)
            && LeastMinimiser(Reports(contributors, stakes, brain, row.miner), row.score)
  {
    AscendingExact(Miners(contributors));
    RowsOfContents(contributors, stakes, brain, need, Ascending(Miners(contributors)));
    RowOfExact(contributors, stakes, brain, need, row.miner, row.score);
    if Covered(contributors, stakes, brain, need, row.miner) {
      ReportedMiner(contributors, stakes, brain, row.miner);
    }
  }

  lemma {:induction false} ReportedMiner(contributors: Contributors, stakes: Stakes, brain: nat, miner: nat)
    requires Reports(contributors, stakes, brain, miner) != []
    ensures miner in Miners(contributors)
  {
    if miner !in contributors[0].1 {
      ReportedMiner(contributors[1..], stakes, brain, miner);
    }
  }

  lemma {:induction false} ReportsWithinBacking(contributors: Contributors, stakes: Stakes, brain: nat, miner: nat)
    ensures Weight(Reports(contributors, stakes, brain, miner)) <= Backing(stakes, brain, Keys(contributors))
  {
    if contributors != [] {
      ReportsWithinBacking(contributors[1..], stakes, brain, miner);
      ReportsCons(contributors, stakes, brain, miner, 0);
      assert Keys(contributors)[1..] == Keys(contributors[1..]);
    }
  }

  lemma RowsExactlyIfCovered(contributors: Contributors, stakes: Stakes, brain: nat, need: nat)
    ensures CanonicalRows(contributors, stakes, brain, need) != []
            <==> exists miner :: Covered(contributors, stakes, brain, need, miner)
  {
    var rows := CanonicalRows(contributors, stakes, brain, need);
    if rows != [] {
      assert rows[0] in rows;
      CanonicalRowsExact(contributors, stakes, brain, need, rows[0]);
      assert Covered(contributors, stakes, brain, need, rows[0].miner);
    }
    if miner :| Covered(contributors, stakes, brain, need, miner) {
      var score := CoveredHasRow(contributors, stakes, brain, need, miner);
      RowOfExact(contributors, stakes, brain, need, miner, score);
      CanonicalRowsExact(contributors, stakes, brain, need, Row(miner, score));
    }
  }

  /** After a candidate is recorded, the key is frozen exactly if the reports on some
      miner reach the required stake; failing that, the call waits below the quorum and
      is rejected at or above it. */
  lemma FreezesExactlyOnCoverage(cfg: Config, st: State, stakes: Stakes, key: Key)
    ensures var contributors, need := ContributorsOf(st, key), Required(stakes.total(key.1), cfg.minQuorumBps);
            var covered := exists miner :: Covered(contributors, stakes, key.1, need, miner);
            && (Conclude(cfg, st, stakes, key).0.Canonical? <==> covered)
            && (Conclude(cfg, st, stakes, key).0.Waiting? <==> Backing(stakes, key.1, Keys(contributors)) < need)
            && (Conclude(cfg, st, stakes, key).0.Rejected?
                <==> !covered && Backing(stakes, key.1, Keys(contributors)) >= need)
  {
    var contributors, need := ContributorsOf(st, key), Required(stakes.total(key.1), cfg.minQuorumBps);
    RowsExactlyIfCovered(contributors, stakes, key.1, need);
    if miner :| Covered(contributors, stakes, key.1, need, miner) {
      ReportsWithinBacking(contributors, stakes, key.1, miner);
    }
  }

  // ----- independence of the order in which the candidates came in

  lemma {:induction false} ReportsConcat(a: Contributors, b: Contributors, stakes: Stakes, brain: nat, miner: nat)
    ensures Reports(a + b, stakes, brain, miner) == Reports(a, stakes, brain, miner) + Reports(b, stakes, brain, miner)
  {
    if a == [] {
      assert a + b == b;
    } else {
      assert (a + b)[1..] == a[1..] + b;
      ReportsConcat(a[1..], b, stakes, brain, miner);
    }
  }

  lemma {:induction false} ReportsByMultiset(a: Contributors, b: Contributors, stakes: Stakes, brain: nat, miner: nat)
    requires multiset(a) == multiset(b)
    ensures multiset(Reports(a, stakes, brain, miner)) == multiset(Reports(b, stakes, brain, miner))
  {
    SameElements(a, b);
    if a != [] {
      var front, back := MatchHead(a, b);
      ReportsConcat(front, [a[0]] + back, stakes, brain, miner);
      ReportsConcat([a[0]], back, stakes, brain, miner);
      ReportsConcat(front, back, stakes, brain, miner);
      ReportsConcat([a[0]], a[1..], stakes, brain, miner);
      assert a == [a[0]] + a[1..];
      ReportsByMultiset(a[1..], front + back, stakes, brain, miner);
    }
  }

  /** The rows are a function of the candidates as a collection, not of their order. */
  lemma RowsIgnoreOrder(a: Contributors, b: Contributors, stakes: Stakes, brain: nat, need: nat)
    requires multiset(a) == multiset(b)
    ensures CanonicalRows(a, stakes, brain, need) == CanonicalRows(b, stakes, brain, need)
  {
    SameElements(a, b);
    forall m
      ensures m in Miners(a) <==> m in Miners(b)
    {
      MinersExact(a, m);
      MinersExact(b, m);
    }
    assert Miners(a) == Miners(b);
    RowsOfIgnoreOrder(a, b, stakes, brain, need, Ascending(Miners(a)));
  }

  lemma {:induction false} RowsOfIgnoreOrder(a: Contributors, b: Contributors, stakes: Stakes, brain: nat,
          need: nat, miners: seq<nat>)
    requires multiset(a) == multiset(b)
    ensures RowsOf(a, stakes, brain, need, miners) == RowsOf(b, stakes, brain, need, miners)
  {
    if miners != [] {
      RowsOfIgnoreOrder(a, b, stakes, brain, need, miners[..|miners| - 1]);
      var miner := miners[|miners| - 1];
      ReportOrder();
      ReportsByMultiset(a, b, stakes, brain, miner);
      SortByMultiset(ReportAtMost, Reports(a, stakes, brain, miner), Reports(b, stakes, brain, miner));
    }
  }

  // ----- resistance to faulty signers

  /** A contributor outside `faulty` whose positive stake backs a score for `miner`. */
  ghost predicate HonestReport(contributors: Contributors, stakes: Stakes, brain: nat, faulty: seq<Address>, miner: nat,
                               c: (Address, Candidate)) {
    c in contributors && c.0 !in faulty && stakes.of(brain, c.0) > 0 && miner in c.1
  }

  lemma CommonCons(contributors: Contributors, stakes: Stakes, brain: nat, faulty: seq<Address>)
    requires contributors != []
    ensures Backing(stakes, brain, Common(Keys(contributors), faulty))
         == Backing(stakes, brain, Common(Keys(contributors[1..]), faulty))
            + if contributors[0].0 in faulty then stakes.of(brain, contributors[0].0) else 0
  {
    var first, rest := contributors[0], contributors[1..];
    assert contributors == [first] + rest;
    KeysCons(first, rest);
    assert Keys(contributors)[1..] == Keys(rest);
    var common := Common(Keys(rest), faulty);
    assert ([first.0] + common)[1..] == common;
  }

  lemma ReportsCons(contributors: Contributors, stakes: Stakes, brain: nat, miner: nat, x: int)
    requires contributors != []
    ensures var (signer, candidate) := contributors[0];
            var stake := if miner in candidate then stakes.of(brain, signer) else 0;
            var all := Reports(contributors, stakes, brain, miner);
            var rest := Reports(contributors[1..], stakes, brain, miner);
            && Weight(all) == Weight(rest) + stake
            && UpTo(all, x) == UpTo(rest, x) + if miner in candidate && candidate[miner] <= x then stake else 0
  {
    var (signer, candidate) := contributors[0];
    var rest := Reports(contributors[1..], stakes, brain, miner);
    if miner in candidate && stakes.of(brain, signer) > 0 {
      var r := (candidate[miner], stakes.of(brain, signer));
      assert Reports(contributors, stakes, brain, miner) == [r] + rest;
      ConcatWeights([r], rest, x);
    }
  }

  /** If every honest score exceeds `x`, only faulty stake lies at or below `x`. */
  lemma {:induction false} FaultyAtMost(contributors: Contributors, stakes: Stakes, brain: nat,
          faulty: seq<Address>, miner: nat, x: int)
    requires forall c :: HonestReport(contributors, stakes, brain, faulty, miner, c) ==> c.1[miner] > x
    ensures UpTo(Reports(contributors, stakes, brain, miner), x)
            <= Backing(stakes, brain, Common(Keys(contributors), faulty))
  {
    if contributors != [] {
      HonestReportCons(contributors, stakes, brain, faulty, miner);
      FaultyAtMost(contributors[1..], stakes, brain, faulty, miner, x);
      CommonCons(contributors, stakes, brain, faulty);
      ReportsCons(contributors, stakes, brain, miner, x);
    }
  }

  /** If no honest score exceeds `x`, only faulty stake lies above `x`. */
  lemma {:induction false} FaultyAbove(contributors: Contributors, stakes: Stakes, brain: nat,
          faulty: seq<Address>, miner: nat, x: int)
    requires forall c :: HonestReport(contributors, stakes, brain, faulty, miner, c) ==> c.1[miner] <= x
    ensures Weight(Reports(contributors, stakes, brain, miner)) - UpTo(Reports(contributors, stakes, brain, miner), x)
            <= Backing(stakes, brain, Common(Keys(contributors), faulty))
  {
    if contributors != [] {
      HonestReportCons(contributors, stakes, brain, faulty, miner);
      FaultyAbove(contributors[1..], stakes, brain, faulty, miner, x);
      CommonCons(contributors, stakes, brain, faulty);
      ReportsCons(contributors, stakes, brain, miner, x);
    }
  }

  lemma HonestReportCons(contributors: Contributors, stakes: Stakes, brain: nat, faulty: seq<Address>, miner: nat)
    requires contributors != []
    ensures forall c :: HonestReport(contributors[1..], stakes, brain, faulty, miner, c) ==>
                          HonestReport(contributors, stakes, brain, faulty, miner, c)
    ensures contributors[0].0 !in faulty && stakes.of(brain, contributors[0].0) > 0 && miner in contributors[0].1 ==>
              HonestReport(contributors, stakes, brain, faulty, miner, contributors[0])
  {}

  lemma HonestReportBelow(contributors: Contributors, stakes: Stakes, brain: nat, faulty: seq<Address>,
          miner: nat, m: int)
      returns (c: (Address, Candidate))
    requires UniqueKeys(contributors) && Distinct(faulty)
    requires IsMedian(Reports(contributors, stakes, brain, miner), m)
    requires 2 * Backing(stakes, brain, faulty) < Weight(Reports(contributors, stakes, brain, miner))
    ensures HonestReport(contributors, stakes, brain, faulty, miner, c) && c.1[miner] <= m
  {
    CommonBacking(stakes, brain, Keys(contributors), faulty);
    if forall c :: HonestReport(contributors, stakes, brain, faulty, miner, c) ==> c.1[miner] > m {
      FaultyAtMost(contributors, stakes, brain, faulty, miner, m);
    }
    c :| HonestReport(contributors, stakes, brain, faulty, miner, c) && c.1[miner] <= m;
  }

  lemma HonestReportAbove(contributors: Contributors, stakes: Stakes, brain: nat, faulty: seq<Address>,
          miner: nat, m: int)
      returns (c: (Address, Candidate))
    requires UniqueKeys(contributors) && Distinct(faulty)
    requires IsMedian(Reports(contributors, stakes, brain, miner), m)
    requires 2 * Backing(stakes, brain, faulty) < Weight(Reports(contributors, stakes, brain, miner))
    ensures HonestReport(contributors, stakes, brain, faulty, miner, c) && c.1[miner] >= m
  {
    CommonBacking(stakes, brain, Keys(contributors), faulty);
    if forall c :: HonestReport(contributors, stakes, brain, faulty, miner, c) ==> c.1[miner] <= m - 1 {
      FaultyAbove(contributors, stakes, brain, faulty, miner, m - 1);
    }
    c :| HonestReport(contributors, stakes, brain, faulty, miner, c) && c.1[miner] > m - 1;
  }

  /** The score lies between two scores that honest signers reported for the miner. */
  ghost predicate WithinHonestRange(contributors: Contributors, stakes: Stakes, brain: nat,
          faulty: seq<Address>, row: Row) {
    exists lo, hi ::
      && HonestReport(contributors, stakes, brain, faulty, row.miner, lo)
      && HonestReport(contributors, stakes, brain, faulty, row.miner, hi)
      && lo.1[row.miner] <= row.score <= hi.1[row.miner]
  }

  /** As long as twice the stake of all faulty signers is below the required stake,
      they cannot move a canonical score out of the honest range. */
  lemma FaultyMinorityCannotMoveScore(contributors: Contributors, stakes: Stakes, brain: nat, need: nat,
          faulty: seq<Address>, row: Row)
    requires UniqueKeys(contributors) && Distinct(faulty)
    requires 2 * Backing(stakes, brain, faulty) < need
    requires row in CanonicalRows(contributors, stakes, brain, need)
    ensures WithinHonestRange(contributors, stakes, brain, faulty, row)
  {
    CanonicalRowsExact(contributors, stakes, brain, need, row);
    var score := CoveredHasRow(contributors, stakes, brain, need, row.miner);
    MedianMinimisesCost(Reports(contributors, stakes, brain, row.miner), score);
    var lo := HonestReportBelow(contributors, stakes, brain, faulty, row.miner, row.score);
    var hi := HonestReportAbove(contributors, stakes, brain, faulty, row.miner, row.score);
  }

  // ----- runs

  datatype Op = Op(stakes: Stakes, failure: Failure, key: Key, signer: Address, scores: seq<Submission>)

  /** The moment at which a key's rows were fixed, with the candidates and stakes used. */
  datatype Freeze = Freeze(key: Key, contributors: Contributors, stakes: Stakes, frozen: Frozen)

  datatype Trace = Trace(st: State, freezes: seq<Freeze>)

  function Step(cfg: Config, t: Trace, op: Op): Trace {
    var after := AddStep(cfg, t.st, op.stakes, op.failure, op.key, op.signer, op.scores).1;
    Trace(after,
          t.freezes + if op.key in after.frozen && op.key !in t.st.frozen
                      then [Freeze(op.key, ContributorsOf(after, op.key), op.stakes, after.frozen[op.key])] else [])
  }

  function Run(cfg: Config, ops: seq<Op>): Trace {
    if ops == [] then Trace(State(map[], map[]), [])
    else Step(cfg, Run(cfg, ops[..|ops| - 1]), ops[|ops| - 1])
  }

  /** What is frozen before is frozen alike afterwards. */
  ghost predicate KeepsFrozen(before: State, after: State, key: Key) {
    key in before.frozen ==> key in after.frozen && after.frozen[key] == before.frozen[key]
  }

  lemma KeepsFrozenTransitive(a: State, b: State, c: State, key: Key)
    requires KeepsFrozen(a, b, key) && KeepsFrozen(b, c, key)
    ensures KeepsFrozen(a, c, key)
  {}

  lemma FrozenByStep(cfg: Config, t: Trace, op: Op, key: Key)
    ensures KeepsFrozen(t.st, Step(cfg, t, op).st, key)
    ensures key in t.st.frozen && op.key == key ==>
              AddStep(cfg, t.st, op.stakes, op.failure, op.key, op.signer, op.scores)
              == (Canonical(t.st.frozen[key]), t.st)
  {}

  lemma FrozenByOneMore(cfg: Config, ops: seq<Op>, op: Op, key: Key)
    ensures KeepsFrozen(Run(cfg, ops).st, Run(cfg, ops + [op]).st, key)
  {
    assert (ops + [op])[..|ops|] == ops;
    FrozenByStep(cfg, Run(cfg, ops), op, key);
  }

  /** Once a key is frozen, every continuation of the run keeps its root and rows. */
  lemma {:induction false} FrozenForever(cfg: Config, ops: seq<Op>, more: seq<Op>, key: Key)
    ensures KeepsFrozen(Run(cfg, ops).st, Run(cfg, ops + more).st, key)
  {
    if more == [] {
      assert ops + more == ops;
    } else {
      var shorter, last := more[..|more| - 1], more[|more| - 1];
      FrozenForever(cfg, ops, shorter, key);
      assert ops + more == ops + shorter + [last];
      FrozenByOneMore(cfg, ops + shorter, last, key);
      KeepsFrozenTransitive(Run(cfg, ops).st, Run(cfg, ops + shorter).st, Run(cfg, ops + more).st, key);
    }
  }

  /** A later candidate for a frozen key gets the frozen rows back and changes nothing. */
  lemma FrozenAnswersAlike(cfg: Config, ops: seq<Op>, more: seq<Op>, op: Op)
    requires op.key in Run(cfg, ops).st.frozen
    ensures AddStep(cfg, Run(cfg, ops + more).st, op.stakes, op.failure, op.key, op.signer, op.scores)
         == (Canonical(Run(cfg, ops).st.frozen[op.key]), Run(cfg, ops + more).st)
  {
    FrozenForever(cfg, ops, more, op.key);
    FrozenByStep(cfg, Run(cfg, ops + more), op, op.key);
  }

  ghost predicate ValidState(st: State) {
    forall key :: key in st.candidates ==> UniqueKeys(st.candidates[key])
  }

  /** A freeze happened on a quorum of distinct contributors, and froze exactly
      their canonical rows and the root of those rows. */
  ghost predicate Justified(cfg: Config, f: Freeze) {
    var need := Required(f.stakes.total(f.key.1), cfg.minQuorumBps);
    && UniqueKeys(f.contributors)
    && Backing(f.stakes, f.key.1, Keys(f.contributors)) >= need
    && f.frozen.rows == CanonicalRows(f.contributors, f.stakes, f.key.1, need) != []
    && f.frozen == Publish(cfg, f.key.1, f.frozen.rows)
  }

  lemma StepKeepsValid(cfg: Config, t: Trace, op: Op)
    requires ValidState(t.st)
    ensures ValidState(Step(cfg, t, op).st)
  {
    StepCandidates(cfg, t, op);
    if Accepted(t.st, op) {
      PutUnique(ContributorsOf(t.st, op.key), op.signer, Normalize(op.scores).value);
    }
  }

  lemma StepConcludes(cfg: Config, t: Trace, op: Op)
    requires ValidState(t.st)
    ensures var u := Step(cfg, t, op).st;
            || u.frozen == t.st.frozen
            || (op.key !in t.st.frozen && op.key in u.frozen && u.frozen == t.st.frozen[op.key := u.frozen[op.key]]
                && Justified(cfg, Freeze(op.key, ContributorsOf(u, op.key), op.stakes, u.frozen[op.key])))
  {
    if Accepted(t.st, op) {
      var entered := Enter(t.st, op.key, op.signer, Normalize(op.scores).value);
      PutUnique(ContributorsOf(t.st, op.key), op.signer, Normalize(op.scores).value);
      assert UniqueKeys(ContributorsOf(entered, op.key));
      ConcludeFreezes(cfg, entered, op.stakes, op.key);
    }
  }

  lemma ConcludeFreezes(cfg: Config, st: State, stakes: Stakes, key: Key)
    requires UniqueKeys(ContributorsOf(st, key))
    ensures var u := Conclude(cfg, st, stakes, key).1;
            && u.candidates == st.candidates
            && (u.frozen == st.frozen
                || (key in u.frozen && u.frozen == st.frozen[key := u.frozen[key]]
                    && Justified(cfg, Freeze(key, ContributorsOf(st, key), stakes, u.frozen[key]))))
  {}

  /** A step freezes nothing, or one new key with justification. */
  lemma StepFreezes(cfg: Config, t: Trace, op: Op) returns (f: Option<Freeze>)
    requires ValidState(t.st)
    ensures ValidState(Step(cfg, t, op).st)
    ensures f.None? ==> Step(cfg, t, op).freezes == t.freezes && Step(cfg, t, op).st.frozen == t.st.frozen
    ensures f.Some? ==>
              && Justified(cfg, f.value) && f.value.key !in t.st.frozen
              && Step(cfg, t, op).freezes == t.freezes + [f.value]
              && Step(cfg, t, op).st.frozen == t.st.frozen[f.value.key := f.value.frozen]
  {
    StepKeepsValid(cfg, t, op);
    var u := Step(cfg, t, op);
    StepConcludes(cfg, t, op);
    f := None;
    if op.key in u.st.frozen && op.key !in t.st.frozen {
      f := Some(Freeze(op.key, ContributorsOf(u.st, op.key), op.stakes, u.st.frozen[op.key]));
    }
  }

  /** What is frozen is what the recorded freezes say. */
  ghost predicate Recorded(t: Trace, key: Key) {
    key in t.st.frozen ==> exists f :: f in t.freezes && f.key == key && f.frozen == t.st.frozen[key]
  }

  /** Everything frozen in any run was frozen by a recorded freeze, on a quorum. */
  lemma {:induction false} EveryFreezeIsJustified(cfg: Config, ops: seq<Op>)
    ensures ValidState(Run(cfg, ops).st)
    ensures forall f :: f in Run(cfg, ops).freezes ==> Justified(cfg, f)
    ensures forall key :: Recorded(Run(cfg, ops), key)
  {
    if ops != [] {
      var before, op := ops[..|ops| - 1], ops[|ops| - 1];
      EveryFreezeIsJustified(cfg, before);
      var t, u := Run(cfg, before), Run(cfg, ops);
      var g := StepFreezes(cfg, t, op);
      if g.Some? {
        RecordedBySnoc(t, u, g.value);
      } else {
        forall key
          ensures Recorded(u, key)
        {
          assert Recorded(t, key);
        }
      }
    }
  }

  lemma RecordedBySnoc(t: Trace, u: Trace, g: Freeze)
    requires forall key :: Recorded(t, key)
    requires u.freezes == t.freezes + [g] && u.st.frozen == t.st.frozen[g.key := g.frozen]
    ensures forall key :: Recorded(u, key)
  {
    assert g in u.freezes;
    forall key
      ensures Recorded(u, key)
    {
      assert Recorded(t, key);
      if key in t.st.frozen {
        var f :| f in t.freezes && f.key == key && f.frozen == t.st.frozen[key];
        assert f in u.freezes;
      }
    }
  }

  // ----- whose scores are counted

  /** The candidate is recorded: its key is not frozen, the lookup of its signer's stake
      returns some, and it has at least one score and none out of range. */
  predicate Accepted(st: State, op: Op) {
    && op.key !in st.frozen && !op.failure.AtSigner? && op.stakes.of(op.key.1, op.signer) > 0
    && Normalize(op.scores).Some? && Normalize(op.scores).value != map[]
  }

  /** The candidate a signer last got accepted for a key. */
  function LastAccepted(cfg: Config, ops: seq<Op>, key: Key, signer: Address): Option<Candidate> {
    if ops == [] then None
    else
      var before, op := ops[..|ops| - 1], ops[|ops| - 1];
      if op.key == key && op.signer == signer && Accepted(Run(cfg, before).st, op) then Normalize(op.scores)
      else LastAccepted(cfg, before, key, signer)
  }

  lemma StepCandidates(cfg: Config, t: Trace, op: Op)
    ensures Step(cfg, t, op).st.candidates
         == if Accepted(t.st, op) then Enter(t.st, op.key, op.signer, Normalize(op.scores).value).candidates
            else t.st.candidates
  {}

  /** What the pool holds for a key is each signer's last accepted candidate, and
      nothing else. */
  lemma {:induction false} ContributorsExact(cfg: Config, ops: seq<Op>, key: Key, signer: Address)
    ensures Lookup(ContributorsOf(Run(cfg, ops).st, key), signer) == LastAccepted(cfg, ops, key, signer)
  {
    if ops != [] {
      var before, op := ops[..|ops| - 1], ops[|ops| - 1];
      ContributorsExact(cfg, before, key, signer);
      StepCandidates(cfg, Run(cfg, before), op);
      if Accepted(Run(cfg, before).st, op) {
        LookupPut(ContributorsOf(Run(cfg, before).st, op.key), op.signer, Normalize(op.scores).value, signer);
      }
    }
  }

  /** A step freezes its key exactly if it records its candidate, no lookup raises and the
      reports on some miner then reach the required stake. */
  lemma StepFreezesExactly(cfg: Config, t: Trace, op: Op)
    ensures var u, need := Step(cfg, t, op).st, Required(op.stakes.total(op.key.1), cfg.minQuorumBps);
            op.key !in t.st.frozen && op.key in u.frozen
            <==>
            && Accepted(t.st, op) && op.failure.Never?
            && exists miner :: Covered(ContributorsOf(u, op.key), op.stakes, op.key.1, need, miner)
  {
    StepCandidates(cfg, t, op);
    if Accepted(t.st, op) {
      FreezesExactlyOnCoverage(cfg, Enter(t.st, op.key, op.signer, Normalize(op.scores).value), op.stakes, op.key);
    }
  }

  lemma FirstIsRecorded(cfg: Config, stakes: Stakes, key: Key, a: Address)
    requires stakes.of(key.1, a) > 0
    ensures Run(cfg, [Op(stakes, AtQuorum, key, a, [Submission(1, 500)])]).st
         == State(map[key := [(a, map[1 := 500])]], map[])
  {
    var first := Op(stakes, AtQuorum, key, a, [Submission(1, 500)]);
    var ca: Candidate := map[1 := 500];
    assert [first][..0] == [] && [Submission(1, 500)][..0] == [];
    assert Normalize([Submission(1, 500)]) == Some(ca);
    assert ca != map[] by { assert 1 in ca; }
    assert Enter(State(map[], map[]), key, a, ca).candidates == map[key := [(a, ca)]];
    assert Run(cfg, []).st == State(map[], map[]);
  }

  lemma SecondFreezes(cfg: Config, t: Trace, stakes: Stakes, key: Key, a: Address)
    requires cfg.minQuorumBps <= 10000 && stakes.of(key.1, a) == stakes.total(key.1) > 0
    requires t.st == State(map[key := [(a, map[1 := 500])]], map[])
    ensures Covered(ContributorsOf(t.st, key), stakes, key.1, Required(stakes.total(key.1), cfg.minQuorumBps), 1)
    ensures key in Step(cfg, t, Op(stakes, Never, key, a, [Submission(1, 500)])).st.frozen
  {
    var op := Op(stakes, Never, key, a, [Submission(1, 500)]);
    var ca: Candidate := map[1 := 500];
    assert [Submission(1, 500)][..0] == [];
    assert Normalize([Submission(1, 500)]) == Some(ca);
    assert ca != map[] by { assert 1 in ca; }
    SoleReport(stakes, key.1, a, ca, 1);
    FullStakeMeetsNeed(stakes.total(key.1), cfg.minQuorumBps);
    assert Put([(a, ca)], a, ca) == [(a, ca)];
    StepCandidates(cfg, t, op);
    assert ContributorsOf(t.st, key) == [(a, ca)] == ContributorsOf(Step(cfg, t, op).st, key);
    assert Accepted(t.st, op);
    assert Covered([(a, ca)], stakes, key.1, Required(stakes.total(key.1), cfg.minQuorumBps), 1);
    StepFreezesExactly(cfg, t, op);
    assert op.key in Step(cfg, t, op).st.frozen;
  }

  /** One signer with the whole stake scores one miner, and a lookup raises after the
      candidate is recorded: the key is covered and not frozen, until the candidate is
      submitted again. */
  lemma RaisedLookupLeavesCovered(cfg: Config, stakes: Stakes, key: Key, a: Address)
    requires cfg.minQuorumBps <= 10000 && stakes.of(key.1, a) == stakes.total(key.1) > 0
    ensures var first, again := Op(stakes, AtQuorum, key, a, [Submission(1, 500)]),
                                Op(stakes, Never, key, a, [Submission(1, 500)]);
            var st := Run(cfg, [first]).st;
            && Covered(ContributorsOf(st, key), stakes, key.1, Required(stakes.total(key.1), cfg.minQuorumBps), 1)
            && key !in st.frozen && key in Run(cfg, [first, again]).st.frozen
  {
    var first, again := Op(stakes, AtQuorum, key, a, [Submission(1, 500)]),
                        Op(stakes, Never, key, a, [Submission(1, 500)]);
    FirstIsRecorded(cfg, stakes, key, a);
    SecondFreezes(cfg, Run(cfg, [first]), stakes, key, a);
    assert [first, again][..1] == [first];
  }

  lemma SoleReport(stakes: Stakes, brain: nat, a: Address, candidate: Candidate, miner: nat)
    requires miner in candidate && stakes.of(brain, a) > 0
    ensures Reports([(a, candidate)], stakes, brain, miner) == [(candidate[miner], stakes.of(brain, a))]
    ensures Weight(Reports([(a, candidate)], stakes, brain, miner)) == stakes.of(brain, a)
  {
    var reports := [(candidate[miner] as int, stakes.of(brain, a))];
    assert [(a, candidate)][1..] == [] && Reports([], stakes, brain, miner) == [];
    assert reports[1..] == [] && Weight(reports) == stakes.of(brain, a);
  }

  lemma NobodyCovered(a: Address, b: Address, ca: Candidate, cb: Candidate, stakes: Stakes, brain: nat)
    requires stakes.of(brain, a) == stakes.of(brain, b) == 3 && ca.Keys !! cb.Keys
    ensures var contributors := [(a, ca), (b, cb)];
            && Backing(stakes, brain, Keys(contributors)) == 6
            && forall miner :: !Covered(contributors, stakes, brain, 6, miner)
  {
    var contributors := [(a, ca), (b, cb)];
    assert contributors[1..] == [(b, cb)] && [(b, cb)][1..] == [];
    assert Keys(contributors) == [a, b] == [a] + [b];
    BackingConcat(stakes, brain, [a], [b]);
    BackingOfOne(stakes, brain, a);
    BackingOfOne(stakes, brain, b);
    forall miner
      ensures !Covered(contributors, stakes, brain, 6, miner)
    {
      var reports := Reports(contributors, stakes, brain, miner);
      assert Reports([], stakes, brain, miner) == [];
      assert Reports([(b, cb)], stakes, brain, miner) == if miner in cb then [(cb[miner], 3)] else [];
      assert reports == if miner in ca then [(ca[miner], 3)] else Reports([(b, cb)], stakes, brain, miner);
      assert reports != [] ==> reports[1..] == [] && Weight(reports) == 3;
    }
  }

  lemma SecondIsRejected(cfg: Config, st: State, stakes: Stakes, key: Key, a: Address, b: Address)
    requires cfg.minQuorumBps == 5001 && stakes.total(key.1) == 10
    requires a != b && stakes.of(key.1, a) == stakes.of(key.1, b) == 3
    requires st == State(map[key := [(a, map[1 := 500])]], map[])
    ensures AddStep(cfg, st, stakes, Never, key, b, [Submission(2, 500)])
         == (Rejected(NoCoverage), State(map[key := [(a, map[1 := 500]), (b, map[2 := 500])]], map[]))
  {
    var ca, cb: Candidate := map[1 := 500], map[2 := 500];
    assert [Submission(2, 500)][..0] == [];
    assert Normalize([Submission(2, 500)]) == Some(cb);
    assert cb != map[] by { assert 2 in cb; }
    assert [(a, ca)][1..] == [];
    assert Put([(a, ca)], b, cb) == [(a, ca), (b, cb)];
    assert Enter(st, key, b, cb).candidates == map[key := [(a, ca), (b, cb)]];
    NobodyCovered(a, b, ca, cb, stakes, key.1);
    FreezesExactlyOnCoverage(cfg, Enter(st, key, b, cb), stakes, key);
  }

  lemma FirstWaits(cfg: Config, stakes: Stakes, key: Key, a: Address)
    requires cfg.minQuorumBps == 5001 && stakes.total(key.1) == 10 && stakes.of(key.1, a) == 3
    ensures AddStep(cfg, State(map[], map[]), stakes, Never, key, a, [Submission(1, 500)])
         == (Waiting, State(map[key := [(a, map[1 := 500])]], map[]))
  {
    var ca: Candidate := map[1 := 500];
    assert [Submission(1, 500)][..0] == [];
    assert Normalize([Submission(1, 500)]) == Some(ca);
    assert ca != map[] by { assert 1 in ca; }
    assert Put([], a, ca) == [(a, ca)] && Keys([(a, ca)]) == [a];
    assert Enter(State(map[], map[]), key, a, ca).candidates == map[key := [(a, ca)]];
    BackingOfOne(stakes, key.1, a);
  }

  /** Two signers with three tenths of the stake each score different miners.  The second
      completes the quorum, is told that no miner is covered, and stays recorded. */
  lemma RejectedCandidateStays(cfg: Config, stakes: Stakes, key: Key, a: Address, b: Address)
    requires cfg.minQuorumBps == 5001 && stakes.total(key.1) == 10
    requires a != b && stakes.of(key.1, a) == stakes.of(key.1, b) == 3
    ensures var first := Op(stakes, Never, key, a, [Submission(1, 500)]);
            var second := Op(stakes, Never, key, b, [Submission(2, 500)]);
            && AddStep(cfg, Run(cfg, [first]).st, stakes, Never, key, b, second.scores).0 == Rejected(NoCoverage)
            && Lookup(ContributorsOf(Run(cfg, [first, second]).st, key), b) == Some(map[2 := 500])
  {
    var first := Op(stakes, Never, key, a, [Submission(1, 500)]);
    var second := Op(stakes, Never, key, b, [Submission(2, 500)]);
    assert [first, second][..1] == [first] && [first][..0] == [];
    FirstWaits(cfg, stakes, key, a);
    assert Run(cfg, [first]).st == AddStep(cfg, Run(cfg, []).st, stakes, Never, key, a, first.scores).1;
    SecondIsRejected(cfg, Run(cfg, [first]).st, stakes, key, a, b);
    LookupPut([(a, map[1 := 500])], b, map[2 := 500], b);
  }

  /** The candidates recorded for a freeze are those the pool holds ever after. */
  lemma {:induction false} FrozenContributors(cfg: Config, ops: seq<Op>, f: Freeze)
    requires f in Run(cfg, ops).freezes
    ensures f.key in Run(cfg, ops).st.frozen
    ensures f.contributors == ContributorsOf(Run(cfg, ops).st, f.key)
  {
    var before, op := ops[..|ops| - 1], ops[|ops| - 1];
    var t := Run(cfg, before);
    if f in t.freezes {
      FrozenContributors(cfg, before, f);
      KeepsContributors(cfg, t, op, f.key);
      FrozenByStep(cfg, t, op, f.key);
    }
  }

  lemma KeepsContributors(cfg: Config, t: Trace, op: Op, key: Key)
    requires key in t.st.frozen
    ensures ContributorsOf(Step(cfg, t, op).st, key) == ContributorsOf(t.st, key)
  {}

  /** Any row has a proof against the root over its rows, with as many siblings as
      the tree has halvings. */
  lemma RowIsProvable(h: Merkle.Hashing, brain: nat, rows: seq<Row>, i: nat) returns (proof: seq<Merkle.Digest>)
    requires i < |rows|
    ensures Merkle.Fold(h, h.leaf(Merkle.ScoreLeaf(brain, rows[i].miner, rows[i].score)), proof)
         == Merkle.RootOf(h, Leaves(brain, rows))
    ensures |proof| == Merkle.Halvings(|rows|)
  {
    var leaves := Leaves(brain, rows);
    var hashes, sorted := Merkle.LeafHashes(h, leaves), Merkle.SortedHashes(h, leaves);
    SortRearranges(AtMost, hashes);
    assert hashes[i] in hashes;
    var idx :| 0 <= idx < |sorted| && sorted[idx] == hashes[i];
    Merkle.Completeness(h, sorted, idx);
    proof := Merkle.Siblings(h, sorted, idx);
  }

  /** In every run, the rows of a frozen key strictly ascend by miner and each one
      can be proved against the published root. */
  lemma FrozenRowsAreProvable(cfg: Config, ops: seq<Op>, key: Key, i: nat) returns (proof: seq<Merkle.Digest>)
    requires key in Run(cfg, ops).st.frozen
    requires i < |Run(cfg, ops).st.frozen[key].rows|
    ensures var f := Run(cfg, ops).st.frozen[key];
            var leaf := cfg.hashing.leaf(Merkle.ScoreLeaf(key.1, f.rows[i].miner, f.rows[i].score));
            && Merkle.Fold(cfg.hashing, leaf, proof) == f.root
            && |proof| == Merkle.Halvings(|f.rows|)
            && MinersAscend(f.rows)
  {
    EveryFreezeIsJustified(cfg, ops);
    assert Recorded(Run(cfg, ops), key);
    var e :| e in Run(cfg, ops).freezes && e.key == key && e.frozen == Run(cfg, ops).st.frozen[key];
    assert Justified(cfg, e);
    proof := RowIsProvable(cfg.hashing, key.1, e.frozen.rows, i);
    AscendingExact(Miners(e.contributors));
    RowsOfContents(e.contributors, e.stakes, key.1, Required(e.stakes.total(key.1), cfg.minQuorumBps),
                   Ascending(Miners(e.contributors)));
  }

  /** In every run, a frozen score lies in the honest range whenever twice the faulty
      stake at that moment was below the required stake. */
  lemma FrozenScoresAreHonest(cfg: Config, ops: seq<Op>, f: Freeze, faulty: seq<Address>, row: Row)
    requires f in Run(cfg, ops).freezes && row in f.frozen.rows && Distinct(faulty)
    requires 2 * Backing(f.stakes, f.key.1, faulty) < Required(f.stakes.total(f.key.1), cfg.minQuorumBps)
    ensures WithinHonestRange(f.contributors, f.stakes, f.key.1, faulty, row)
  {
    EveryFreezeIsJustified(cfg, ops);
    var need := Required(f.stakes.total(f.key.1), cfg.minQuorumBps);
    FaultyMinorityCannotMoveScore(f.contributors, f.stakes, f.key.1, need, faulty, row);
  }
}
