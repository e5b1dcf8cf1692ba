/** Concrete runs in which the gateway's index is not what its chain says, or does not
    list what it knows. */
module GatewayExamples {
  import opened Dictionaries
  import opened Membership
  import opened Chain
  import opened Poller
  import opened PartialScans
  import opened GatewayRuns

  const CFG := Config(0, 0, 1)

  const REGISTERED := Log(MinerRegistered, 1, 7)
  const LEFT := Log(MinerDeregistered, 1, 7)
  const NEWCOMER := Log(MinerRegistered, 1, 8)

  // ----- an aborted poll

  const ORIGINAL: Blocks := [Block(10, [REGISTERED]), Block(11, [LEFT, NEWCOMER]), Block(12, [])]
  const FORK: Blocks := [Block(10, [REGISTERED]), Block(21, []), Block(22, []), Block(23, [])]
  const LONGER: Blocks := ORIGINAL + [Block(13, [])]

  /** The original chain is polled, a poll of a fork raises at its log queries, and the
      original chain, one block longer, is polled again. */
  const ABORTED_RUN: seq<Op> :=
    [PollChain(ORIGINAL, Succeeds), PollChain(FORK, LogQueryFails), PollChain(LONGER, Succeeds)]

  lemma OriginalCommits()
    ensures Committed(ORIGINAL, LONGER) && Committed(LONGER, ORIGINAL)
  {
    assert ORIGINAL[..1] == LONGER[..1] && ORIGINAL[..2] == LONGER[..2] && ORIGINAL[..3] == LONGER[..3];
  }

  lemma ForkCommits(chain: Blocks)
    requires chain == ORIGINAL || chain == LONGER
    ensures Committed(chain, FORK) && Committed(FORK, chain)
  {
    assert chain[..1] == FORK[..1];
  }

  lemma ChainsCommit()
    ensures AllCommitted(ABORTED_RUN)
  {
    OriginalCommits();
    ForkCommits(ORIGINAL);
    ForkCommits(LONGER);
    assert forall p :: p in ABORTED_RUN && p.PollChain? ==> p.chain in {ORIGINAL, FORK, LONGER};
  }

  lemma {:induction false} AllRelevant(events: seq<Event>)
    requires forall i :: 0 <= i < |events| ==> events[i].kind != Unrelated
    ensures Relevant(events) == events
  {
    if events != [] {
      AllRelevant(events[..|events| - 1]);
    }
  }

  const LONGER_SCAN: seq<Event> :=
    [Event(MinerRegistered, 1, 7, 0, 0), Event(MinerDeregistered, 1, 7, 1, 0), Event(MinerRegistered, 1, 8, 1, 1)]

  lemma LongerScan()
    ensures Canonical(LONGER, 0, 4) == LONGER_SCAN
  {
    assert AllLogs(LONGER, 0, 1) == LONGER_SCAN[..1];
    assert BlockLogs(LONGER[1].logs, 1) == LONGER_SCAN[1..];
    assert AllLogs(LONGER, 0, 2) == LONGER_SCAN[..1] + LONGER_SCAN[1..] == LONGER_SCAN;
    assert BlockLogs(LONGER[2].logs, 2) == [] == BlockLogs(LONGER[3].logs, 3);
    assert AllLogs(LONGER, 0, 3) == LONGER_SCAN + [] == LONGER_SCAN;
    assert AllLogs(LONGER, 0, 4) == AllLogs(LONGER, 0, 3) + [] == LONGER_SCAN;
    AllRelevant(LONGER_SCAN);
  }

  lemma ScannedWords()
    ensures !LastWord(LONGER_SCAN, MinerRegistered, MinerDeregistered, 1, 7)
    ensures LastWord(LONGER_SCAN, MinerRegistered, MinerDeregistered, 1, 8)
  {
    assert Concerns(LONGER_SCAN[1], MinerDeregistered, 1, 7);
    assert Stands(LONGER_SCAN, 2, MinerRegistered, MinerDeregistered, 1, 8);
  }

  lemma HeldWords()
    ensures LastWord(Present(LONGER_SCAN, {1}), MinerRegistered, MinerDeregistered, 1, 7)
    ensures !LastWord(Present(LONGER_SCAN, {1}), MinerRegistered, MinerDeregistered, 1, 8)
  {
    assert LONGER_SCAN == [] + [LONGER_SCAN[0]] + [LONGER_SCAN[1]] + [LONGER_SCAN[2]];
    PresentSnoc([], LONGER_SCAN[0], {1});
    PresentSnoc([] + [LONGER_SCAN[0]], LONGER_SCAN[1], {1});
    PresentSnoc([] + [LONGER_SCAN[0]] + [LONGER_SCAN[1]], LONGER_SCAN[2], {1});
    assert Present(LONGER_SCAN, {1}) == [LONGER_SCAN[0]];
    assert Stands([LONGER_SCAN[0]], 0, MinerRegistered, MinerDeregistered, 1, 7);
  }

  lemma RewoundTo(chain: Blocks, from: nat)
    requires (chain == FORK && from == 1) || (chain == LONGER && from == 2)
    ensures RewindPoint(CFG, ScanOf(CFG, Some(ORIGINAL)), chain) == from
  {
    var cur := ScanOf(CFG, Some(ORIGINAL));
    ProbeStops(cur.hashes, chain, 1, from - 1);
  }

  /** The aborted poll rewinds to block 1, the next poll to block 2 only. */
  lemma AbortedViews()
    ensures ViewsOf(CFG, ABORTED_RUN).shown == View(Some(LONGER), {1})
  {
    var ops := ABORTED_RUN;
    var first := View(Some(ORIGINAL), {});
    ViewsSnoc(CFG, [], ops[0]);
    assert [] + [ops[0]] == [ops[0]];
    assert PolledView(CFG, View(None, {}), ORIGINAL).missing == {};
    assert ViewsOf(CFG, [ops[0]]).memory == first;
    ViewsSnoc(CFG, [ops[0]], ops[1]);
    RewoundTo(FORK, 1);
    assert ViewsOf(CFG, [ops[0]] + [ops[1]]).memory == AbortedView(CFG, first, FORK);
    assert AbortedView(CFG, first, FORK).missing == {1, 2};
    ViewsSnoc(CFG, [ops[0]] + [ops[1]], ops[2]);
    RewoundTo(LONGER, 2);
    assert PolledView(CFG, View(Some(ORIGINAL), {1, 2}), LONGER).missing == {1};
    assert [ops[0]] + [ops[1]] + [ops[2]] == ops;
  }

  lemma AbortedEvents()
    ensures ShownEvents(CFG, ABORTED_RUN) == Present(LONGER_SCAN, {1})
  {
    AbortedViews();
    LongerScan();
  }

  /** The next poll completes, and yet miner 8 is not a member although its registration
      is on the chain, and miner 7 is one although the chain has deregistered it: the poll
      starts above block 1. */
  lemma AbortedPollLosesEvents()
    ensures AllCommitted(ABORTED_RUN) && ValidView(CFG, Some(LONGER))
    ensures var members := MembersOf(Run(CFG, ABORTED_RUN).index.miners, 1);
            7 in members && 8 !in members
    ensures var events := ScanOf(CFG, Some(LONGER)).events;
            && !LastWord(events, MinerRegistered, MinerDeregistered, 1, 7)
            && LastWord(events, MinerRegistered, MinerDeregistered, 1, 8)
  {
    ChainsCommit();
    AbortedEvents();
    LongerScan();
    ScannedWords();
    HeldWords();
    MembershipIsCanonical(CFG, ABORTED_RUN, 1, 7);
    MembershipIsCanonical(CFG, ABORTED_RUN, 1, 8);
  }

  // ----- a miner that left and came back

  const RETURNED: Blocks := [Block(30, [REGISTERED, LEFT, REGISTERED])]
  const ANNOUNCED_RUN: seq<Op> := [PollChain(RETURNED, Succeeds), AnnounceEndpoint(1, 7, "https://miner", 0, 1.0)]

  const RETURNED_SCAN: seq<Event> :=
    [Event(MinerRegistered, 1, 7, 0, 0), Event(MinerDeregistered, 1, 7, 0, 1), Event(MinerRegistered, 1, 7, 0, 2)]

  lemma ReturnedScan()
    ensures Canonical(RETURNED, 0, 1) == RETURNED_SCAN
    ensures Canonical(RETURNED + [Block(31, [])], 0, 2) == RETURNED_SCAN
    ensures LastWord(RETURNED_SCAN, MinerRegistered, MinerDeregistered, 1, 7)
    ensures EverDeregistered(RETURNED_SCAN, 1, 7)
  {
    var longer := RETURNED + [Block(31, [])];
    assert AllLogs(RETURNED, 0, 1) == RETURNED_SCAN;
    assert AllLogs(longer, 0, 1) == RETURNED_SCAN;
    assert AllLogs(longer, 0, 2) == RETURNED_SCAN + [] == RETURNED_SCAN;
    AllRelevant(RETURNED_SCAN);
    assert Stands(RETURNED_SCAN, 2, MinerRegistered, MinerDeregistered, 1, 7);
    assert RETURNED_SCAN[1] in RETURNED_SCAN && Concerns(RETURNED_SCAN[1], MinerDeregistered, 1, 7);
  }

  const NEXT_POLL := PollChain(RETURNED + [Block(31, [])], Succeeds)

  lemma ReturnedCommit()
    ensures AllCommitted(ANNOUNCED_RUN + [NEXT_POLL]) && AllCommitted([ANNOUNCED_RUN[0]])
  {
    var longer := NEXT_POLL.chain;
    assert longer[..1] == RETURNED[..1];
    assert Committed(RETURNED, longer) && Committed(longer, RETURNED);
    assert forall p :: p in ANNOUNCED_RUN + [NEXT_POLL] && p.PollChain? ==> p.chain in {RETURNED, longer};
  }

  /** What the two polls leave are full scans. */
  lemma ReturnedCursors()
    ensures Run(CFG, [ANNOUNCED_RUN[0]]).cursor == FullScan(RETURNED, 0, 1)
    ensures Run(CFG, ANNOUNCED_RUN).cursor == FullScan(RETURNED, 0, 1)
    ensures Run(CFG, ANNOUNCED_RUN + [NEXT_POLL]).cursor == FullScan(NEXT_POLL.chain, 0, 2)
  {
    ReturnedCommit();
    assert [] + [ANNOUNCED_RUN[0]] == [ANNOUNCED_RUN[0]];
    PollsWithoutAbortsAreFullScans(CFG, [], ANNOUNCED_RUN[0]);
    RunSnoc(CFG, [ANNOUNCED_RUN[0]], ANNOUNCED_RUN[1]);
    assert [ANNOUNCED_RUN[0]] + [ANNOUNCED_RUN[1]] == ANNOUNCED_RUN;
    PollsWithoutAbortsAreFullScans(CFG, ANNOUNCED_RUN, NEXT_POLL);
  }

  lemma ReturnedMinerIsListed()
    ensures Listable(Run(CFG, ANNOUNCED_RUN).index, 600, 1, Some(1), 7)
  {
    var poll := ANNOUNCED_RUN[0];
    ReturnedScan();
    ReturnedCursors();
    assert [] + [poll] == [poll];
    MembersAfterPoll(CFG, [], poll);
    MembershipExact(EmptyIndex(), RETURNED_SCAN, 1, 7);
    RunSnoc(CFG, [poll], ANNOUNCED_RUN[1]);
    assert [poll] + [ANNOUNCED_RUN[1]] == ANNOUNCED_RUN;
  }

  /** A miner that registered, left and came back is listed once it announces.  The next
      poll, of one more empty block, takes it off the list and leaves it a member. */
  lemma ReturnedMinerDropsOut()
    ensures Listable(Run(CFG, ANNOUNCED_RUN).index, 600, 1, Some(1), 7)
    ensures var ix := Run(CFG, ANNOUNCED_RUN + [NEXT_POLL]).index;
            7 in MembersOf(ix.miners, 1) && !Listable(ix, 600, 1, Some(1), 7)
  {
    ReturnedScan();
    ReturnedMinerIsListed();
    ReturnedCommit();
    ReturnedCursors();
    CompletedPollIsCanonical(CFG, ANNOUNCED_RUN, NEXT_POLL);
    RejoinedMinerIsNotListed(CFG, ANNOUNCED_RUN, NEXT_POLL, 600, 1, Some(1), 7);
  }
}
