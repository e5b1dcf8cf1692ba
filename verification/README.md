# A verified model of the BasedAI gateway and validator core

This project models, in Dafny, the parts of BasedAI whose correctness is a matter of
logic rather than of plumbing, and proves what they are for.

* **The reorg-safe membership poller** (`Chain`, `Poller`, `PartialScans`, `Membership`,
  `GatewayRuns`, `PollDepth`, `Listings`, `GatewayExamples`). The poller keeps a local event log and block hashes,
  rewinds over reorganisations and rescans only a suffix. Over every run of polls, polls
  that raise at any point, announcements, score updates and restarts, the state is shown
  to be that of a far simpler machine. A completed poll leaves what a scan of the whole
  canonical chain would find unless an earlier poll raised between truncating the log and
  replacing it, and the condition under which it still does then is exact. What is held is
  always confirmed, and a miner is listed with its last announcement, exactly while that is
  fresh.
* **The quorum aggregator** (`Quorum`, `RootText`, `Aggregator`, `Filings`, `Accountability`).
  Signatures are collected per text of a root and the best-backed text is submitted.
  Submissions are shown to be sound, to happen exactly when some text has a quorum and the
  best one can be read, and to end with the first one that returns. If nobody signs two
  roots of an epoch and brain, one root at most ever has a quorum, and two that do show who
  signed both.
* **The canonical score pool** (`WeightedMedian`, `CandidatePool`, `PoolAnswers`). The canonical score is
  shown to be the least integer that minimises the stake-weighted absolute deviations, to
  stay within the honest range under a faulty minority, and to stay frozen.
* **The sorted-pair Merkle tree** (`Merkle`): completeness, soundness, and what a root
  binds.
* **The rate limiter** (`RateLimiter`): its sharp bound over sliding intervals.
* **The Solidity pre-check** (`Stripper`, `Lexer`, `BracketCheck`): the comment stripper
  against a one-character-at-a-time automaton, and the bracket check against the
  inductively defined bracket language.

`Sorting` and `Dictionaries` hold what the others need about Python's `sorted` and about
dictionaries whose insertion order matters.

Objects whose methods update their fields are classes, and each method is tied to a
function of its old state; what is promised is proved about those functions, and about
runs, which are folds of them. The outside world enters as parameters: the hash
functions, signature recovery (of the signature's whole text), the stake lookups in force at a call, the outcome of a
submission or a poll, the chain as a node shows it during a poll, the clock.

Hypotheses are kept to what can be true of real hashes. The Merkle theorems assume the
absence of collisions only among the finitely many inputs hashed for the trees and proofs
they speak of. The poller's theorems assume that among the chains polled in a run equal
block hashes at equal heights mean equal chains up to there.

Where the code does not do what its own text says, the model follows the code and says
exactly when the two agree:

* `strip_strings_and_comments` says it preserves newlines. It drops one that follows a
  backslash inside a string literal, and one that ends the text inside a comment that is
  never closed (`BracketCheck.LinesKeptExactly`, `BracketCheck.EscapedBreakIsLost`,
  `BracketCheck.OpenCommentLosesBreak`). It lengthens the text exactly when the last block
  comment is never closed (`Lexer.LengthExact`). `check_balance` counts lines in the stripped text, so the line it
  reports is the file's line exactly if no line break was dropped before it
  (`BracketCheck.ErrorsNameTheirLines`).
* A poll that raises at a log query has already truncated the event log but not the hashes
  or the next block, and the poll loop (`gateway/src/basedai_gateway/cli.py:66-73`) polls
  again with the same object. The next completed poll rescans from its own rewind point
  only. It is a full scan exactly if it rewinds at least as far as every aborted poll
  before it, or the chain has no membership event in the blocks in between
  (`GatewayRuns.AbortedPollsLoseExactly`). Otherwise events stay missing until a later poll
  rewinds below their blocks (`PartialScans.PollOfView`), and meanwhile a registered miner
  may not be a member or a deregistered one may still be
  (`GatewayExamples.AbortedPollLosesEvents`). Up to the next completed poll a restart undoes
  the damage (`GatewayRuns.RestartUndoesAborts`).
* A root is submitted as the text after its first two characters, whatever these are. With
  `0x` or two blanks in front the root itself is submitted, without anything in front the
  root without its first byte (`RootText.SubmittedExactly`,
  `Aggregator.UnprefixedRootIsTruncated`), and with one blank in front every attempt raises
  before the submission (`Aggregator.AskewRootIsNeverSubmitted`). Every root has texts of all
  three kinds (`RootText.EveryStartOccurs`), and all of them are accepted.
* Signatures are filed by the text of a root and checked against its bytes, and white space
  between bytes is skipped. So one root can be on file under many texts, which are counted
  apart, and may have a quorum on its bytes and not be submitted: a text has a quorum exactly
  if the stake of all the root's signers exceeds the quorum by that of those who did not sign
  this text (`Accountability.QuorumInFormExact`, `Accountability.SubmitsExactlyOnRoots`,
  `Accountability.FormsAreCountedApart`, `Accountability.BlankMakesAnotherForm`).
* A candidate is signed with the digest that commitments carry
  (`validator/src/basedai_validator/service.py:52-53`), and a validator signs its own
  candidate root and then the canonical one
  (`validator/src/basedai_validator/runtime.py:238-265`). A candidate's signature is therefore
  a valid filing, and those shown to have signed two roots may have done no more than that
  (`Accountability.CandidateSignatureCounts`).
* A signature accepted with an upper-case `0X` in front is filed with `0x` before that. If the
  library reads no second prefix it does not recover as it is filed
  (`Aggregator.FiledSignatureRecovers`).
* A rebuild replays old deregistrations over the announced endpoints, so a miner that left
  and came back loses its endpoint at every completed poll
  (`GatewayRuns.EndpointSurvivesPoll`, `GatewayRuns.RejoinedMinerIsNotListed`,
  `GatewayExamples.ReturnedMinerDropsOut`).
* The rate limiter's initial entry acts as a window nobody opened, so a clock that starts
  below the window length allows one request more than otherwise
  (`RateLimiter.EarlyClockReachesTwiceTheLimit`).
* A candidate that completes a quorum without giving any miner enough coverage is rejected
  and yet stays recorded (`CandidatePool.FreezesExactlyOnCoverage`,
  `CandidatePool.ContributorsExact`, `CandidatePool.RejectedCandidateStays`). So does one at
  which a stake lookup raises after the first, and its key may then be covered and not frozen
  (`CandidatePool.StepFreezesExactly`, `CandidatePool.RaisedLookupLeavesCovered`).

## Model

| member | source | states |
|---|---|---|
| Merkle.NextLayer | validator/src/basedai_validator/merkle.py:44-49 | the inner loop turns a layer of even length into the layer of its sorted-pair hashes |
| Merkle.BuildMerkleRoot | validator/src/basedai_validator/merkle.py:30-51 | the outer loop with its odd-layer duplication computes the tree root over the sorted leaf hashes, and 32 zero bytes for no leaves |
| Merkle.BuildProof | validator/src/basedai_validator/merkle.py:54-79 | raises exactly when the target's hash is not a leaf hash; otherwise a verifier that hashes the lesser digest of each pair first folds the siblings from the target to the published root, and there are as many as the tree has halvings |
| Merkle.CollectSiblings | validator/src/basedai_validator/merkle.py:62-79 | the loop that halves the index collects the sibling at every level |
| Merkle.HalvingsIsCeilLog2 | validator/src/basedai_validator/merkle.py:65-77 | the number of halvings is the ceiling of the binary logarithm of the number of leaves |
| Merkle.Completeness | validator/src/basedai_validator/merkle.py:54-79 | at every position of every layer, that verifier folds the collected siblings to the root |
| Merkle.FoldVisitsLayer | validator/src/basedai_validator/merkle.py:41-49 | a fold of any length that ends in the root passes through a digest of the bottom layer |
| Merkle.Soundness | validator/src/basedai_validator/merkle.py:30-51 | any proof of any length that folds to the root starts at a leaf hash of the tree, despite odd-layer duplication |
| Merkle.RootBindsLeafSet | validator/src/basedai_validator/merkle.py:38-51 | two trees with equal roots have the same set of leaf hashes, whatever their sizes |
| Merkle.RootBindsScores | validator/src/basedai_validator/merkle.py:24-51 | equal roots mean the same scores for the same miners |
| Merkle.RootIgnoresOrder | validator/src/basedai_validator/merkle.py:38-39 | any rearrangement of the leaves has the same root |
| Merkle.RootIdentifiesDistinctLeaves | validator/src/basedai_validator/merkle.py:38-51 | for lists without repetitions, equal roots exactly when one list rearranges the other |
| Merkle.OddRootForgetsRepetition | validator/src/basedai_validator/merkle.py:42-43 | repetitions are not bound: an odd layer has the root of that layer with its last digest written twice |
| Merkle.NodeIsHashPair | validator/src/basedai_validator/merkle.py:47-48 | builder and verifier hash a pair alike, the lesser digest first |
| Merkle.LeafHashesAscend | validator/src/basedai_validator/merkle.py:38 | the leaf hashes are those of the leaves, in ascending order |
| Merkle.SmallRoots | validator/src/basedai_validator/merkle.py:35-51 | the roots of no leaf, of one, and of two, where the lesser hash goes first |
| Quorum.NeedIsCeiling | validator/src/basedai_validator/aggregator.py:81-83 | the required stake is the least integer that is at least the given share of the total |
| Quorum.Intersection | validator/src/basedai_validator/aggregator.py:73-84 | two majority quorums share signers with joint stake of at least 2 * need - total, which is positive |
| Filings.DefaultIsMajority | validator/src/basedai_validator/aggregator.py:26-27 | without a share of its own the aggregator asks for 50.01 percent of the stake, rounded up, a majority |
| RootText.SubmittedExactly | validator/src/basedai_validator/aggregator.py:108 | what is submitted for a root text that was accepted, decided by its first two characters: the root, the root without its first byte, or an exception |
| RootText.NormalizedKeepsBytes | validator/src/basedai_validator/aggregator.py:32-35 | a root that can be read, text or bytes, is read alike from the text it is filed under |
| RootText.HexRoundTrip | validator/src/basedai_validator/aggregator.py:33-34 | the hexadecimal text of a root given as bytes parses back to it |
| RootText.EveryStartOccurs | validator/src/basedai_validator/commitment.py:33-38 | every root has accepted texts of all three kinds |
| RootText.FiledAlikeExactly | validator/src/basedai_validator/aggregator.py:32-35 | two roots are filed under one text exactly if they are written alike up to the case of letters, and that text has no capital letter |
| RootText.RawIsFiledAsWritten | validator/src/basedai_validator/aggregator.py:33-35 | a root given as bytes is filed under its hexadecimal text with the prefix, which has no capital letter |
| RootText.ParsesExactly | validator/src/basedai_validator/commitment.py:35 | a text parses exactly if it consists of pairs of hexadecimal digits in either case and white space between them |
| RootText.ReadExactly | validator/src/basedai_validator/commitment.py:33-38 | a root is read exactly if what follows the prefix parses to 32 bytes |
| Aggregator.CommitmentAggregator.AddCommitment | validator/src/basedai_validator/aggregator.py:61-71 | raises if the root does not parse to 32 bytes or the signature does not recover; stores a signature only if it recovers to the claimed signer, under the normalised text of the root, and changes nothing otherwise |
| Aggregator.FiledExactlyIfSigned | validator/src/basedai_validator/aggregator.py:61-71 | in every run, a signer is on file for a root text exactly if some submission carried a signature of that text recovering to it |
| Aggregator.ReachableIsValid | validator/src/basedai_validator/aggregator.py:61-71 | in every run, every signature on file is one that recovered to its signer for its own epoch, brain and root, with the prefix put in front if it had none |
| Aggregator.FiledSignatureRecovers | validator/src/basedai_validator/aggregator.py:68-70 | with a library that reads one prefix, a signature on file recovers as it is filed exactly if it was not given with an upper-case prefix |
| Filings.AddAnswers | validator/src/basedai_validator/aggregator.py:61-71 | a submission raises, is refused for another signer, or is stored, each exactly when the recovered signer says so; only the last changes anything |
| Filings.FiledIsLast | validator/src/basedai_validator/aggregator.py:67-70 | in every run, what is on file for a signer is the last signature accepted from it, with the prefix in front |
| Filings.KeysInOrder | validator/src/basedai_validator/aggregator.py:67-70 | in every run, the texts are on file in the order of their first accepted signature |
| Filings.CaseIsDropped | validator/src/basedai_validator/aggregator.py:35 | in every run, the signers on file for a text are exactly those of whom a signature was accepted for a root written like it up to the case of letters |
| Filings.CasesAreCountedTogether | validator/src/basedai_validator/aggregator.py:67-109 | two signers of one root in two letter cases are counted together and submitted together |
| Aggregator.FirstMaxIsGreatest | validator/src/basedai_validator/aggregator.py:92-97 | the root chosen has the greatest backing |
| Aggregator.FirstMaxIsFirst | validator/src/basedai_validator/aggregator.py:97 | among equally backed roots the one filed first is chosen |
| Filings.BestIsFirstFiled | validator/src/basedai_validator/aggregator.py:92-97 | the text tried is the best-backed one of its pair, and among equally backed ones the one filed first |
| Aggregator.SortedSignersExact | validator/src/basedai_validator/aggregator.py:86-90 | the assembled signers strictly ascend, carry the whole backing of the root text, and the signature beside each is the one on file for it |
| Aggregator.CommitmentAggregator.TryPropose | validator/src/basedai_validator/aggregator.py:99-112 | makes at most one submission, none if the text after two characters does not parse, marks the pair only if it returns, and leaves the state alone if anything raises |
| Aggregator.RootToSubmitExact | validator/src/basedai_validator/aggregator.py:99-106 | there is a text to submit exactly when the pair is unproposed and some text has a quorum, although only the best is looked at |
| Aggregator.ProposeExactlyOnQuorum | validator/src/basedai_validator/aggregator.py:99-109 | an unproposed pair is submitted exactly when some text has a quorum and the best one does not start with a blank and a digit; if it does, the call raises and changes nothing |
| Aggregator.ProposeTriesBest | validator/src/basedai_validator/aggregator.py:104-109 | what is submitted is the best-backed root with all its signers in order |
| Filings.ProposeAnswers | validator/src/basedai_validator/aggregator.py:99-112 | the transaction handed back is the one the submission returned; only such a call marks its pair |
| Filings.CallHasAllSigners | validator/src/basedai_validator/aggregator.py:86-90 | a submission names exactly the signers on file for its text |
| Aggregator.ProposeIsSound | validator/src/basedai_validator/aggregator.py:104-109 | a submission from a valid state is sound |
| Aggregator.EveryCallIsSound | validator/src/basedai_validator/aggregator.py:99-109 | in every run, every submission has nonempty strictly ascending signers, aligned signatures that were accepted from them, at least the rounded-up quorum of stake, and the signed root's bytes exactly if its text starts with the prefix or two blanks |
| Aggregator.ProposedExactlyReturned | validator/src/basedai_validator/aggregator.py:101-110 | in every run, exactly the pairs of submissions that returned are marked as proposed |
| Aggregator.ReturnedCallIsLast | validator/src/basedai_validator/aggregator.py:101-110 | in every run, no submission for a pair follows one that returned |
| Aggregator.UnprefixedRootIsTruncated | validator/src/basedai_validator/aggregator.py:108 | a run that submits a root whose text starts with its digits without its first byte |
| Aggregator.AskewRootIsNeverSubmitted | validator/src/basedai_validator/aggregator.py:108 | in every run of attempts after one signature with the whole stake, a root whose text starts with a blank and a digit is never submitted |
| Accountability.RootSignersExact | validator/src/basedai_validator/aggregator.py:61-71 | in every run, the signers on file for a root, over all its texts, are exactly those of whom a submission carried a signature of its bytes |
| Accountability.TwoQuorumsShareSigners | validator/src/basedai_validator/aggregator.py:73-84 | two different roots of one pair that have a majority quorum, at any two moments of a run, exhibit signers of both with at least 2 * need - total stake |
| Accountability.OneQuorumWithoutDoubleSigning | validator/src/basedai_validator/aggregator.py:73-84 | if nobody signs two roots of a pair, one root at most has a quorum at any moment of a run under given stakes |
| Accountability.SubmissionsAgree | validator/src/basedai_validator/aggregator.py:99-112 | if nobody signs two roots of a pair, all submissions of a run for it under given stakes, failed ones included, are of one root |
| Accountability.CandidateSignatureCounts | validator/src/basedai_validator/runtime.py:238-265 | the signature of a validator's candidate root is accepted as a commitment, so that with its commitment to the canonical root it has signed two |
| Accountability.TextQuorumIsRootQuorum | validator/src/basedai_validator/aggregator.py:77-84 | a quorum of one text is a quorum on the root's bytes |
| Accountability.QuorumInFormExact | validator/src/basedai_validator/aggregator.py:70-84 | a text of a root has a quorum exactly if the joint stake of all the root's signers exceeds the quorum by that of those who did not sign this text |
| Accountability.SubmitsExactlyOnRoots | validator/src/basedai_validator/aggregator.py:92-109 | a submission is made exactly if the pair is unproposed, some filed text of some root has such a quorum, and the best-backed text does not start with a blank and a digit |
| Accountability.FormsAreCountedApart | validator/src/basedai_validator/aggregator.py:67-75 | a run in which the whole stake signed one root, half in each of two texts of it, and nothing is submitted |
| Accountability.BlankMakesAnotherForm | validator/src/basedai_validator/commitment.py:33-38 | every root has two texts with the prefix that are filed apart |
| WeightedMedian.ComputeMedian | validator/src/basedai_validator/aggregator.py:207-213 | the loop with its early exit returns the first score at which half of the weight is reached |
| WeightedMedian.FirstHalfIsMedian | validator/src/basedai_validator/aggregator.py:207-213 | on ascending reports the loop always stops early, so the fallback never decides, and it stops with less than half of the weight below and at least half at or below |
| WeightedMedian.MedianCorrect | validator/src/basedai_validator/aggregator.py:199-213 | the score picked is a reported score and a weighted median |
| WeightedMedian.SortedMedian | validator/src/basedai_validator/aggregator.py:199-213 | sorting first gives the median of the reports in whatever order they came |
| WeightedMedian.MedianMinimisesCost | validator/src/basedai_validator/aggregator.py:199-213 | the median is exactly the least integer that minimises the stake-weighted sum of absolute deviations |
| CandidatePool.NormalizeScores | validator/src/basedai_validator/aggregator.py:179-185 | the loop builds the candidate map, or stops at the first score out of range |
| CandidatePool.NormalizeExact | validator/src/basedai_validator/aggregator.py:179-185 | usable exactly if every score is in range; each miner's last score counts |
| CandidatePool.ComputeRows | validator/src/basedai_validator/aggregator.py:196-214 | the loop over the sorted miners collects their rows |
| CandidatePool.CanonicalRowsExact | validator/src/basedai_validator/aggregator.py:196-214 | a score is canonical exactly when the reports on the miner carry the required stake and it is the least minimiser of the weighted deviations |
| CandidatePool.RowsIgnoreOrder | validator/src/basedai_validator/aggregator.py:196-203 | the rows do not depend on the order in which candidates were inserted |
| CandidatePool.FaultyMinorityCannotMoveScore | validator/src/basedai_validator/aggregator.py:190-214 | if twice the faulty stake is below the required stake, every canonical score lies between two honest reports on that miner |
| CandidatePool.CanonicalCandidatePool.Add | validator/src/basedai_validator/aggregator.py:173-220 | checks in the order of the source, each error before any change but the last two, a missing coverage and a raising lookup after the first, which leave the candidate recorded |
| CandidatePool.CanonicalCandidatePool.FreezeIfQuorate | validator/src/basedai_validator/aggregator.py:190-220 | waits below the quorum, rejects without coverage, else freezes the rows with their Merkle root; changes nothing if a lookup raises |
| PoolAnswers.AnswerIsFrozen | validator/src/basedai_validator/aggregator.py:173-220 | a call answers with rows exactly if its key is frozen afterwards, and then with what is frozen |
| PoolAnswers.AnswersAgree | validator/src/basedai_validator/aggregator.py:175-220 | in every run, once a call for a key has answered with rows, every later one answers with the same root and rows |
| PoolAnswers.RefusalsExactly | validator/src/basedai_validator/aggregator.py:177-187 | which call is refused for want of stake, for a score outside 0 to 1000000 or for an empty candidate, and which raises |
| PoolAnswers.RequiredIsCeiling | validator/src/basedai_validator/aggregator.py:192 | the stake required of a positive total is the least integer at or above the share, and one of a total of zero |
| PoolAnswers.DefaultIsMajority | validator/src/basedai_validator/aggregator.py:27 | without a share of its own the pool asks for 50.01 percent, a majority |
| PoolAnswers.ReportsExactly | validator/src/basedai_validator/aggregator.py:199-203 | a miner's reports come one each from the contributors that score it and have stake, with their score and stake |
| PoolAnswers.FrozenRootIsOfRows | validator/src/basedai_validator/aggregator.py:217-218 | in every run, a frozen root is the Merkle root over the frozen rows in their order |
| CandidatePool.FreezesExactlyOnCoverage | validator/src/basedai_validator/aggregator.py:190-220 | freezing happens exactly when the reports on some miner reach the required stake |
| CandidatePool.FrozenForever | validator/src/basedai_validator/aggregator.py:173-223 | once frozen, the root and rows of a key are the same in every continuation of the run |
| CandidatePool.FrozenAnswersAlike | validator/src/basedai_validator/aggregator.py:175-176 | every later submission for a frozen key gets the frozen answer and changes nothing |
| CandidatePool.EveryFreezeIsJustified | validator/src/basedai_validator/aggregator.py:190-220 | in every run, whatever is frozen was frozen on a quorum of distinct signers, from their canonical rows |
| CandidatePool.ContributorsExact | validator/src/basedai_validator/aggregator.py:177-188 | in every run, the pool holds each signer's last accepted candidate for a key and nothing else |
| CandidatePool.RejectedCandidateStays | validator/src/basedai_validator/aggregator.py:188-215 | a run in which a submission completes the quorum, is rejected for want of coverage and stays recorded |
| CandidatePool.StepFreezesExactly | validator/src/basedai_validator/aggregator.py:173-220 | a submission freezes its key exactly if its candidate is recorded, no lookup raises and the reports on some miner then reach the required stake |
| CandidatePool.RaisedLookupLeavesCovered | validator/src/basedai_validator/aggregator.py:188-193 | a run in which a raising lookup leaves a key covered and unfrozen until the candidate is submitted again |
| CandidatePool.FrozenContributors | validator/src/basedai_validator/aggregator.py:175-188 | the candidates a key was frozen from are the ones held for it ever after |
| CandidatePool.FrozenRowsAreProvable | validator/src/basedai_validator/aggregator.py:196-218 | in every run, a frozen key's rows strictly ascend by miner and each has an inclusion proof folding to the published root |
| CandidatePool.FrozenScoresAreHonest | validator/src/basedai_validator/aggregator.py:190-218 | in every run, frozen scores lie within the honest range if the faulty stake was small enough when they were frozen |
| Membership.MemberIndex.ReplaceMembership | gateway/src/basedai_gateway/indexer.py:26-31 | rebuilds the member sets from the events and replays them over the endpoints it keeps |
| Membership.MemberIndex.ApplyEvent | gateway/src/basedai_gateway/indexer.py:33-43 | the effect of one event, a deregistration also dropping the endpoint |
| Membership.MemberIndex.Announce | gateway/src/basedai_gateway/indexer.py:53-56 | records the endpoint and nothing else |
| Membership.MemberIndex.SetScore | gateway/src/basedai_gateway/indexer.py:58-61 | updates the score of an announced endpoint only |
| Membership.MemberIndex.Miners | gateway/src/basedai_gateway/indexer.py:63-75 | lists exactly the registered addresses with a fresh endpoint, each once, by nonincreasing score |
| Membership.MembershipExact | gateway/src/basedai_gateway/indexer.py:26-49 | after a rebuild an address is a member exactly when its last register or deregister event is a registration |
| Membership.EndpointSurvives | gateway/src/basedai_gateway/indexer.py:26-39 | a rebuild keeps an endpoint exactly when the events hold no deregistration of that miner |
| Chain.MergedScansAreCanonical | gateway/src/basedai_gateway/server.py:294-306 | the four per-name scans, sorted by block and log index, are the chain's own order of membership events |
| Chain.TruncatedScan | gateway/src/basedai_gateway/server.py:293 | dropping the events from a block on leaves the scan up to that block |
| Poller.ChainPoller.constructor | gateway/src/basedai_gateway/server.py:243-265 | resumes from the stored cursor, or starts fresh, and rebuilds membership from it |
| Poller.ChainPoller.FindRewindPoint | gateway/src/basedai_gateway/server.py:277-287 | the loop walks back over recorded hashes that are no longer canonical |
| Poller.CollectHashes | gateway/src/basedai_gateway/server.py:288-291 | the hashes of the rescanned blocks |
| Poller.CollectEvents | gateway/src/basedai_gateway/server.py:294-305 | the scans of all four event names, one after the other |
| Poller.ChainPoller.PollOnce | gateway/src/basedai_gateway/server.py:267-315 | changes nothing if no new block is deep enough or a block query raises; truncates only the event log if a log query raises; otherwise updates cursor and index, and the store unless the save raises |
| Poller.ChainPoller.ScanAgain | gateway/src/basedai_gateway/server.py:275-311 | the part between the early return and the save, with its order of writes: the truncation comes before the log queries |
| Poller.ChainPoller.Install | gateway/src/basedai_gateway/server.py:306-311 | what is written after the last query: sorted events, rebuilt membership, hashes, next block |
| Poller.RewindExact | gateway/src/basedai_gateway/server.py:277-287 | the rewind point is the lower of the overlap and the first recorded height whose hash is no longer canonical |
| Poller.RewindIsSafe | gateway/src/basedai_gateway/server.py:277-293 | what is kept below the rewind point is what a full scan finds there: no orphaned block, none missing |
| Poller.PollIsFullScan | gateway/src/basedai_gateway/server.py:267-311 | a completed poll leaves the cursor of a full scan of the present chain, however deep the reorganisation |
| Poller.PollCounts | gateway/src/basedai_gateway/server.py:315 | the number returned is the number of membership events from the rewind point on |
| PollDepth.PollAnswers | gateway/src/basedai_gateway/server.py:272-315 | a poll raises exactly where a query or a save it gets to does, and otherwise returns the number of membership events from its rewind point to the confirmed head |
| PollDepth.ScanExactly | gateway/src/basedai_gateway/server.py:294-310 | a scan holds exactly the membership events logged in its blocks, by block and log index, and exactly its blocks' hashes |
| PollDepth.CompletedPollDepth | gateway/src/basedai_gateway/server.py:272-315 | after any run, a poll writes exactly if its chain is longer than next block plus confirmations and its block queries do not raise; a completed one ends at that depth, and everything held is confirmed |
| PollDepth.DefaultDepth | gateway/src/basedai_gateway/server.py:249-251 | by default a first poll leaves the newest two blocks alone, and the next one starts twelve blocks lower |
| Poller.CursorStore.SaveState | gateway/src/basedai_gateway/server.py:357-364 | the last saved state is the one loaded next; a save that raises leaves the one before |
| PartialScans.PollOfView | gateway/src/basedai_gateway/server.py:267-311 | a completed poll from a scan with blocks missing leaves the scan of the present chain with those of them missing that lie below its rewind point |
| PartialScans.AbortOfView | gateway/src/basedai_gateway/server.py:293-297 | a poll that raises at its log queries leaves the scan it found with all blocks from its rewind point on missing as well |
| PartialScans.LossExact | gateway/src/basedai_gateway/server.py:288-311 | a poll from such a scan ends in a full scan exactly if no membership event of the chain lies in a missing block below its rewind point |
| GatewayRuns.RunMatchesViews | gateway/src/basedai_gateway/server.py:261-315 | in every run, memory, store and member sets hold scans of the chains a machine remembers that only stores which chains were last scanned and which blocks went missing |
| GatewayRuns.CompletedPollIsCanonical | gateway/src/basedai_gateway/server.py:267-315 | after any run, a completed poll has the next block and hashes of a full scan of its chain, and is one exactly if no event of the chain lies in a missing block that it leaves alone |
| GatewayRuns.AbortedPollsLoseExactly | gateway/src/basedai_gateway/server.py:293-305 | if the last completed poll was a full scan, the next one is exactly if it rewinds at least as far as every aborted poll since, or the chain has no membership event in between |
| GatewayRuns.PollsWithoutAbortsAreFullScans | gateway/src/basedai_gateway/server.py:267-315 | after any run without a raising log query, a completed poll is a full scan, through reorganisations of any depth, failed saves and restarts |
| GatewayRuns.MembershipIsCanonical | gateway/src/basedai_gateway/server.py:293-308 | in every run, an address is a member exactly when the last word on it in the events last scanned is a registration |
| GatewayRuns.ListingIsSafe | gateway/src/basedai_gateway/indexer.py:63-75 | in every run, only addresses with a registration on the chain of the last completed poll are listed, and none that it deregistered since if that poll lost nothing |
| Listings.EndpointExactly | gateway/src/basedai_gateway/indexer.py:37-61 | after any run a miner has an endpoint exactly if it has announced one that neither a restart nor a completed poll with its deregistration has cleared since |
| Listings.RecordIsKept | gateway/src/basedai_gateway/indexer.py:53-61 | that record holds the url and time of the miner's last announcement, and the score of that or of the last update since |
| Listings.ListedExactly | gateway/src/basedai_gateway/indexer.py:63-75 | a member with an endpoint is listed exactly while its last announcement is no older than the time-to-live, with that announcement's url and the last score |
| GatewayRuns.RestartIsTransparent | gateway/src/basedai_gateway/server.py:261-265 | a restart when the store would load what is in memory changes neither cursor nor membership, now or in any continuation |
| GatewayRuns.SavesKeepUp | gateway/src/basedai_gateway/server.py:261-315 | the store would load what is in memory after every run whose polls succeed or raise before they write |
| GatewayRuns.RestartUndoesAborts | gateway/src/basedai_gateway/server.py:261-265 | in every run without a failed save, a restart returns to the last completed poll and undoes the aborts since |
| GatewayRuns.HistoriesConverge | gateway/src/basedai_gateway/server.py:261-315 | histories with whatever losses agree on next block and hashes once both complete a poll of one chain, and on cursor and members if neither loses events |
| GatewayRuns.EndpointSurvivesPoll | gateway/src/basedai_gateway/server.py:308 | a completed poll keeps an endpoint exactly when the events it ends with hold no deregistration of that miner |
| GatewayRuns.RejoinedMinerIsNotListed | gateway/src/basedai_gateway/indexer.py:37-39 | a miner that left and came back is a member but is not listed after a completed poll |
| GatewayExamples.AbortedPollLosesEvents | gateway/src/basedai_gateway/cli.py:66-73 | a run with one aborted poll after which a registered miner is no member and a deregistered one is |
| GatewayExamples.ReturnedMinerDropsOut | gateway/src/basedai_gateway/indexer.py:26-39 | a run in which a listed miner that had left and come back drops out of the listing at the next poll |
| RateLimiter.Limiter.Handle | gateway/src/basedai_gateway/server.py:111-121 | decides and updates the entry of the requesting client only |
| RateLimiter.ClientsAreIsolated | gateway/src/basedai_gateway/server.py:108-120 | a client's entry depends on its own requests only |
| RateLimiter.RateBound | gateway/src/basedai_gateway/server.py:107-121 | in every run, an interval as long as the window holds at most 2 * limit accepted requests of a client, and one less if the clock starts at or after the window length |
| RateLimiter.CounterIsExact | gateway/src/basedai_gateway/server.py:114-120 | the counter is the number of requests accepted since the window started |
| RateLimiter.RefusedExactlyWhenFull | gateway/src/basedai_gateway/server.py:115-120 | a request is refused exactly when the window is open and the limit has been accepted since it started |
| RateLimiter.WindowStarts | gateway/src/basedai_gateway/server.py:114-116 | the window starts with the request that found the one before it run out, or at zero as long as there is none |
| RateLimiter.DefaultRateBound | gateway/src/basedai_gateway/server.py:99-121 | with the default limits at most 480 requests of a client get through in any 60 units of time, 479 if the clock starts at 60 or later |
| RateLimiter.BoundIsReached | gateway/src/basedai_gateway/server.py:107-121 | for every limit and every window of at least two units, a run that reaches 2 * limit - 1 |
| RateLimiter.EarlyClockReachesTwiceTheLimit | gateway/src/basedai_gateway/server.py:108 | with an early clock a run reaches 2 * limit |
| Stripper.StripStringsAndComments | scripts/check_solidity.py:57-96 | the nested loops compute the text described by one recursive function |
| Stripper.SkipLineComment | scripts/check_solidity.py:65-69 | blanks up to, not including, the line break |
| Stripper.SkipBlockComment | scripts/check_solidity.py:70-78 | blanks through the closing delimiter, or past the end if there is none |
| Stripper.SkipString | scripts/check_solidity.py:79-92 | blanks through the closing quote, stepping over escaped characters |
| Stripper.StripIsIdempotent | scripts/check_solidity.py:57-96 | the result contains no quote and no comment start, and stripping it again changes nothing |
| Lexer.StripIsScan | scripts/check_solidity.py:57-96 | the loops render what a one-character-at-a-time automaton renders, but for the end of a text that leaves a comment open |
| Lexer.LengthExact | scripts/check_solidity.py:57-96 | the length is kept exactly when every block comment is closed; otherwise it grows by one, or by two if the open comment is empty |
| Lexer.CodeKeepsItsPlace | scripts/check_solidity.py:57-96 | code characters stay at their index, all others become spaces or line breaks, in every text |
| BracketCheck.CheckBalance | scripts/check_solidity.py:29-54 | the loops report the errors of a stack run over the stripped text |
| BracketCheck.CheckCharacter | scripts/check_solidity.py:40-51 | one character's effect on the stack, and its error if it has one |
| BracketCheck.ReportUnclosed | scripts/check_solidity.py:52-53 | one error for each opener left, from the bottom of the stack |
| BracketCheck.AcceptsExactlyBalanced | scripts/check_solidity.py:33-53 | a stack run succeeds exactly on the words of the inductively defined bracket language |
| BracketCheck.SilentExactlyWhenBalanced | scripts/check_solidity.py:29-54 | no error is reported exactly when the brackets of the code, outside strings and comments, form a balanced word |
| BracketCheck.ErrorsNameTheirLines | scripts/check_solidity.py:36-53 | an error is reported exactly for a closer of the file's code at which the stack run fails, naming the opener it pops, or for an opener left at the end, each with its line in the file less the escaped line breaks before it |
| BracketCheck.ErrorsInOrder | scripts/check_solidity.py:36-54 | there is one error for each such closer, in the order of the file, then one for each opener left, from the bottom of the stack, and no other |
| BracketCheck.LinesShiftExactly | scripts/check_solidity.py:79-92 | a character's line in the stripped text is its line in the file, less the escaped line breaks before it |
| BracketCheck.LinesKeptExactly | scripts/check_solidity.py:57-96 | stripping keeps the number of lines exactly when no literal escapes a line break and none ends the text in an open comment |
| BracketCheck.EscapedBreakIsLost | scripts/check_solidity.py:84-86 | a text that loses its line break |
| BracketCheck.OpenCommentLosesBreak | scripts/check_solidity.py:70-78 | a text that loses the line break it ends with |

## Left out

- HTTP routes, request parsing, the proxy, the URL guard, the command line, configuration and peer-to-peer parts: input and output. The announce route's checks only refuse announcements; the model lets any announcement through, which makes its theorems more general.
- Keccak, ABI encoding and signature recovery: parameters, with no assumption except where a theorem states one.
- A chain that changes while a single poll runs: the node answers all queries of one poll about one chain, or raises.
- The JSON file behind the cursor store, unreadable files, and the older `load` and `save` of a bare block number: the store is a field that holds the last saved state. Block keys are numbers rather than decimal strings.
- Text forms: an address is a number, and lower-casing is that of ASCII letters, since a text with other letters does not parse and is never filed. Scores in the index are real numbers rather than floats.
- Stake lookups that change while a single call runs: each call sees one view of them; different calls may see different views. A lookup that raises in the commitment aggregator, where nothing has been written by then.
- `CanonicalCandidatePool.get`: a dictionary lookup.
- `CommitmentAggregator.from_chain` and the completed-epoch gate of the aggregator service: wiring, and a guard that only refuses.
- Validator scoring, receipts, the batcher, pricing and the clients: floating point, or formulas that agree by inspection; the settlement contracts themselves are not part of this model.
- The file path in bracket errors, import and pragma checks, and the allocation check: text patterns without state.
- Membership.MemberIndex.Miners: ties may come out in any order, because the source iterates over a set.
