/** Whole runs of the gateway's index: polls over a chain that may be replaced at any
    depth between polls, polls that raise at any point, announcements, score updates
    and restarts.  A run is followed by a far simpler machine that only remembers which
    chain was the last one scanned and which of its blocks went missing. */
module GatewayRuns {
  import opened Dictionaries
  import opened Membership
  import opened Chain
  import opened Poller
  import opened PartialScans

  datatype System = System(cursor: Cursor, index: Index, saved: Option<Cursor>)

  /** A poll that raises is tried again later by the same poller, whatever it has changed
      in memory.  A restart loses everything but the store. */
  datatype Op =
    | PollChain(chain: Blocks, outcome: Outcome)
    | AnnounceEndpoint(brain: nat, address: Address, url: string, ts: int, score: real)
    | UpdateScore(brain: nat, address: Address, score: real)
    | Restart

  function Loaded(cfg: Config, saved: Option<Cursor>): Cursor {
    if saved.Some? then saved.value else Fresh(cfg)
  }

  predicate Completes(cfg: Config, cur: Cursor, op: Op) {
    op.PollChain? && Advances(cfg, cur, op.chain) && Finishes(op.outcome)
  }

  function Step(cfg: Config, s: System, op: Op): System {
    match op
    case PollChain(chain, outcome) =>
      var cur := AfterPoll(cfg, s.cursor, chain, outcome);
      if !Completes(cfg, s.cursor, op) then s.(cursor := cur)
      else System(cur, Replace(s.index, cur.events), if outcome.Succeeds? then Some(cur) else s.saved)
    case AnnounceEndpoint(brain, address, url, ts, score) =>
      s.(index := Announced(s.index, brain, address, url, ts, score))
    case UpdateScore(brain, address, score) => s.(index := Scored(s.index, brain, address, score))
    case Restart =>
      var cur := Loaded(cfg, s.saved);
      System(cur, Replace(EmptyIndex(), cur.events), s.saved)
  }

  function Run(cfg: Config, ops: seq<Op>): System {
    if ops == [] then System(Fresh(cfg), EmptyIndex(), None)
    else Step(cfg, Run(cfg, ops[..|ops| - 1]), ops[|ops| - 1])
  }

  lemma RunSnoc(cfg: Config, ops: seq<Op>, op: Op)
    ensures Run(cfg, ops + [op]) == Step(cfg, Run(cfg, ops), op)
  {}

  // ----- the simple machine

  /** What memory and store hold, and what the member sets were last rebuilt from. */
  datatype Views = Views(memory: View, disk: View, shown: View)

  predicate AllValid(cfg: Config, v: Views) {
    ValidView(cfg, v.memory.chain) && ValidView(cfg, v.disk.chain) && ValidView(cfg, v.shown.chain)
  }

  function Track(cfg: Config, v: Views, op: Op): (w: Views)
    requires AllValid(cfg, v)
    ensures AllValid(cfg, w)
  {
    match op
    case PollChain(chain, outcome) =>
      if Head(cfg, chain) < NextOf(cfg, v.memory.chain) || outcome.BlockQueryFails? then v
      else if outcome.LogQueryFails? then v.(memory := AbortedView(cfg, v.memory, chain))
      else
        var polled := PolledView(cfg, v.memory, chain);
        Views(polled, if outcome.Succeeds? then polled else v.disk, polled)
    case Restart => Views(v.disk, v.disk, v.disk)
    case _ => v
  }

  function ViewsOf(cfg: Config, ops: seq<Op>): (v: Views)
    ensures AllValid(cfg, v)
  {
    if ops == [] then Views(View(None, {}), View(None, {}), View(None, {}))
    else Track(cfg, ViewsOf(cfg, ops[..|ops| - 1]), ops[|ops| - 1])
  }

  lemma ViewsSnoc(cfg: Config, ops: seq<Op>, op: Op)
    ensures ViewsOf(cfg, ops + [op]) == Track(cfg, ViewsOf(cfg, ops), op)
  {
    assert (ops + [op])[..|ops|] == ops;
  }

  // ----- refinement

  /** All chains that are polled in the run have committing block hashes. */
  ghost predicate AllCommitted(ops: seq<Op>) {
    forall p, q :: p in ops && q in ops && p.PollChain? && q.PollChain? ==> Committed(p.chain, q.chain)
  }

  ghost predicate Polled(ops: seq<Op>, view: Option<Blocks>) {
    view.Some? ==> exists op :: op in ops && op.PollChain? && op.chain == view.value
  }

  predicate MembersFollow(ix: Index, events: seq<Event>) {
    && ix.miners == Replace(EmptyIndex(), events).miners
    && ix.validators == Replace(EmptyIndex(), events).validators
  }

  predicate Matches(cfg: Config, s: System, v: Views)
    requires AllValid(cfg, v)
  {
    && s.cursor == CursorOf(cfg, v.memory)
    && s.saved == (if v.disk.chain.None? then None else Some(CursorOf(cfg, v.disk)))
    && MembersFollow(s.index, CursorOf(cfg, v.shown).events)
  }

  lemma PollMatches(cfg: Config, s: System, v: Views, op: Op)
    requires AllValid(cfg, v) && Matches(cfg, s, v)
    requires Completes(cfg, s.cursor, op)
    requires v.memory.chain.Some? ==> Committed(v.memory.chain.value, op.chain)
    ensures Matches(cfg, Step(cfg, s, op), Track(cfg, v, op))
  {
    PollOfView(cfg, v.memory, op.chain);
    MembersFromEventsOnly(s.index, EmptyIndex(), Poll(cfg, s.cursor, op.chain).0.events);
  }

  lemma AbortMatches(cfg: Config, s: System, v: Views, op: Op)
    requires AllValid(cfg, v) && Matches(cfg, s, v)
    requires op.PollChain? && op.outcome.LogQueryFails? && Advances(cfg, s.cursor, op.chain)
    ensures Matches(cfg, Step(cfg, s, op), Track(cfg, v, op))
  {
    AbortOfView(cfg, v.memory, op.chain);
  }

  lemma StepMatches(cfg: Config, s: System, v: Views, op: Op)
    requires AllValid(cfg, v) && Matches(cfg, s, v)
    requires op.PollChain? && v.memory.chain.Some? ==> Committed(v.memory.chain.value, op.chain)
    ensures Matches(cfg, Step(cfg, s, op), Track(cfg, v, op))
  {
    if Completes(cfg, s.cursor, op) {
      PollMatches(cfg, s, v, op);
    } else if op.PollChain? && op.outcome.LogQueryFails? && Advances(cfg, s.cursor, op.chain) {
      AbortMatches(cfg, s, v, op);
    }
  }

  lemma {:induction false} ViewsArePolled(cfg: Config, ops: seq<Op>)
    ensures Polled(ops, ViewsOf(cfg, ops).memory.chain) && Polled(ops, ViewsOf(cfg, ops).disk.chain)
    ensures Polled(ops, ViewsOf(cfg, ops).shown.chain)
  {
    if ops != [] {
      var before, op := ops[..|ops| - 1], ops[|ops| - 1];
      assert ops == before + [op] && op in ops;
      assert forall p :: p in before ==> p in ops;
      ViewsArePolled(cfg, before);
    }
  }

  /** Whatever the run did, memory, store and member sets hold what the simple machine
      says: scans of the chains it remembers, without the blocks it has missing. */
  lemma {:induction false} RunMatchesViews(cfg: Config, ops: seq<Op>)
    requires AllCommitted(ops)
    ensures Matches(cfg, Run(cfg, ops), ViewsOf(cfg, ops))
  {
    if ops != [] {
      var before, op := ops[..|ops| - 1], ops[|ops| - 1];
      assert ops == before + [op] && op in ops;
      assert forall p :: p in before ==> p in ops;
      RunMatchesViews(cfg, before);
      ViewsArePolled(cfg, before);
      StepMatches(cfg, Run(cfg, before), ViewsOf(cfg, before), op);
    }
  }

  lemma PrefixCommitted(ops: seq<Op>, op: Op)
    requires AllCommitted(ops + [op])
    ensures AllCommitted(ops)
  {
    assert forall p :: p in ops ==> p in ops + [op];
  }

  /** What a poll meets in memory is a view whose chain commits together with its own. */
  lemma BeforePoll(cfg: Config, ops: seq<Op>, op: Op)
    requires op.PollChain? && AllCommitted(ops + [op])
    ensures Matches(cfg, Run(cfg, ops), ViewsOf(cfg, ops))
    ensures var view := ViewsOf(cfg, ops).memory.chain; view.Some? ==> Committed(view.value, op.chain)
  {
    PrefixCommitted(ops, op);
    RunMatchesViews(cfg, ops);
    ViewsArePolled(cfg, ops);
    assert op in ops + [op] && forall p :: p in ops ==> p in ops + [op];
  }

  // ----- completed polls

  /** After any run, a poll that gets through its queries records the next block and the
      hashes of a full scan of its chain, and is one exactly when no membership event of
      the chain lies in a block that an earlier abort dropped and the poll leaves alone. */
  lemma CompletedPollIsCanonical(cfg: Config, ops: seq<Op>, op: Op)
    requires AllCommitted(ops + [op]) && Completes(cfg, Run(cfg, ops).cursor, op)
    ensures Matches(cfg, Run(cfg, ops), ViewsOf(cfg, ops)) && Head(cfg, op.chain) >= cfg.startBlock
    ensures ViewsOf(cfg, ops + [op]).memory == PolledView(cfg, ViewsOf(cfg, ops).memory, op.chain)
    ensures var after, full := Run(cfg, ops + [op]).cursor, ScanOf(cfg, Some(op.chain));
            && after == CursorOf(cfg, ViewsOf(cfg, ops + [op]).memory)
            && after.nextBlock == full.nextBlock && after.hashes == full.hashes
            && (after == full <==> LosesNothing(cfg, ViewsOf(cfg, ops).memory, op.chain))
  {
    BeforePoll(cfg, ops, op);
    PollOfView(cfg, ViewsOf(cfg, ops).memory, op.chain);
    LossExact(cfg, ViewsOf(cfg, ops).memory, op.chain);
    RunSnoc(cfg, ops, op);
    ViewsSnoc(cfg, ops, op);
  }

  /** The lowest rewind point among the polls that raised at their log queries since the
      last completed poll or restart; the next block if there was none. */
  function LowestAbort(cfg: Config, ops: seq<Op>): nat {
    if ops == [] then cfg.startBlock
    else
      var before, op := ops[..|ops| - 1], ops[|ops| - 1];
      var cur := Run(cfg, before).cursor;
      if op.Restart? || Completes(cfg, cur, op) then Run(cfg, ops).cursor.nextBlock
      else if op.PollChain? && op.outcome.LogQueryFails? && Advances(cfg, cur, op.chain) then
        var from := RewindPoint(cfg, cur, op.chain);
        var lowest := LowestAbort(cfg, before);
        if from < lowest then from else lowest
      else LowestAbort(cfg, before)
  }

  /** The aborts since the last completed poll have cost the blocks from the lowest of
      their rewind points on. */
  ghost predicate AbortsCost(cfg: Config, v: Views, f: nat)
    requires AllValid(cfg, v)
  {
    && v.memory.chain == v.shown.chain
    && Lowest(cfg) <= f <= ScanOf(cfg, v.memory.chain).nextBlock
    && v.memory.missing == v.shown.missing + Span(f, ScanOf(cfg, v.memory.chain).nextBlock)
  }

  lemma FreshCosts(cfg: Config, v: Views)
    requires AllValid(cfg, v) && v.memory == v.shown
    ensures AbortsCost(cfg, v, ScanOf(cfg, v.memory.chain).nextBlock)
  {}

  lemma AbortCosts(cfg: Config, v: Views, chain: Blocks, f: nat)
    requires AllValid(cfg, v) && AbortsCost(cfg, v, f)
    requires Advances(cfg, CursorOf(cfg, v.memory), chain)
    ensures var from := RewindOf(cfg, v.memory, chain);
            AbortsCost(cfg, v.(memory := AbortedView(cfg, v.memory, chain)), if from < f then from else f)
  {
    RewindAboveLowest(cfg, v.memory, chain);
  }

  lemma {:induction false} AbortsCostExactly(cfg: Config, ops: seq<Op>)
    requires AllCommitted(ops)
    ensures AbortsCost(cfg, ViewsOf(cfg, ops), LowestAbort(cfg, ops))
  {
    RunMatchesViews(cfg, ops);
    if ops == [] {
      FreshCosts(cfg, ViewsOf(cfg, ops));
    } else {
      var before, op := ops[..|ops| - 1], ops[|ops| - 1];
      assert ops == before + [op];
      PrefixCommitted(before, op);
      AbortsCostExactly(cfg, before);
      RunMatchesViews(cfg, before);
      var cur, v := Run(cfg, before).cursor, ViewsOf(cfg, before);
      if op.Restart? || Completes(cfg, cur, op) {
        FreshCosts(cfg, ViewsOf(cfg, ops));
      } else if op.PollChain? && op.outcome.LogQueryFails? && Advances(cfg, cur, op.chain) {
        SameRewind(cfg, v.memory, op.chain);
        AbortCosts(cfg, v, op.chain, LowestAbort(cfg, before));
      }
    }
  }

  /** If the last completed poll was a full scan, the next one is exactly when it rewinds
      at least as far as every aborted poll in between, or its chain has no membership
      event from the lowest block they dropped up to where it does rewind to. */
  lemma AbortedPollsLoseExactly(cfg: Config, ops: seq<Op>, op: Op)
    requires AllCommitted(ops + [op]) && Completes(cfg, Run(cfg, ops).cursor, op)
    requires CursorOf(cfg, ViewsOf(cfg, ops).shown) == ScanOf(cfg, ViewsOf(cfg, ops).shown.chain)
    ensures Head(cfg, op.chain) >= cfg.startBlock
    ensures var f, g := LowestAbort(cfg, ops), RewindPoint(cfg, Run(cfg, ops).cursor, op.chain);
            Run(cfg, ops + [op]).cursor == ScanOf(cfg, Some(op.chain)) <==> g <= f || Canonical(op.chain, f, g) == []
  {
    var v := ViewsOf(cfg, ops);
    CompletedPollIsCanonical(cfg, ops, op);
    BeforePoll(cfg, ops, op);
    PrefixCommitted(ops, op);
    AbortsCostExactly(cfg, ops);
    SameRewind(cfg, v.memory, op.chain);
    LossAfterAborts(cfg, v.memory, op.chain, v.shown.missing, LowestAbort(cfg, ops));
  }

  predicate NothingMissing(v: Views) {
    v.memory.missing == {} && v.disk.missing == {} && v.shown.missing == {}
  }

  lemma {:induction false} NothingMissingWithoutAborts(cfg: Config, ops: seq<Op>)
    requires forall op :: op in ops && op.PollChain? ==> !op.outcome.LogQueryFails?
    ensures NothingMissing(ViewsOf(cfg, ops))
  {
    if ops != [] {
      var before, op := ops[..|ops| - 1], ops[|ops| - 1];
      assert ops == before + [op] && op in ops;
      NothingMissingWithoutAborts(cfg, before);
    }
  }

  /** Without such aborts every completed poll is a full scan, through reorganisations of
      any depth, failed saves, polls that raise before they write, and restarts. */
  lemma PollsWithoutAbortsAreFullScans(cfg: Config, ops: seq<Op>, op: Op)
    requires AllCommitted(ops + [op]) && Completes(cfg, Run(cfg, ops).cursor, op)
    requires forall p :: p in ops && p.PollChain? ==> !p.outcome.LogQueryFails?
    ensures Head(cfg, op.chain) >= cfg.startBlock
    ensures Run(cfg, ops + [op]).cursor == ScanOf(cfg, Some(op.chain))
  {
    CompletedPollIsCanonical(cfg, ops, op);
    NothingMissingWithoutAborts(cfg, ops);
  }

  // ----- membership

  /** What the member sets were last rebuilt from. */
  function ShownEvents(cfg: Config, ops: seq<Op>): seq<Event> {
    CursorOf(cfg, ViewsOf(cfg, ops).shown).events
  }

  /** At any time an address is a member exactly when the events last scanned register it
      and do not deregister it afterwards. */
  lemma MembershipIsCanonical(cfg: Config, ops: seq<Op>, brain: nat, address: Address)
    requires AllCommitted(ops)
    ensures address in MembersOf(Run(cfg, ops).index.miners, brain)
            <==> LastWord(ShownEvents(cfg, ops), MinerRegistered, MinerDeregistered, brain, address)
    ensures address in MembersOf(Run(cfg, ops).index.validators, brain)
            <==> LastWord(ShownEvents(cfg, ops), ValidatorRegistered, ValidatorDeregistered, brain, address)
  {
    RunMatchesViews(cfg, ops);
    MembershipExact(EmptyIndex(), ShownEvents(cfg, ops), brain, address);
  }

  /** After any run the listing shows nobody whose registration is not on the chain of the
      last completed poll; an orphaned one is not shown.  If that poll lost nothing, nobody
      is shown whom that chain has deregistered since. */
  lemma ListingIsSafe(cfg: Config, ops: seq<Op>, ttl: int, brain: nat, now: Option<int>, address: Address)
    requires AllCommitted(ops)
    requires Listable(Run(cfg, ops).index, ttl, brain, now, address)
    ensures ViewsOf(cfg, ops).shown.chain.Some?
    ensures var full := ScanOf(cfg, ViewsOf(cfg, ops).shown.chain);
            && (exists e :: e in full.events && Concerns(e, MinerRegistered, brain, address))
            && (CursorOf(cfg, ViewsOf(cfg, ops).shown) == full ==>
                  LastWord(full.events, MinerRegistered, MinerDeregistered, brain, address))
  {
    var events := ShownEvents(cfg, ops);
    MembershipIsCanonical(cfg, ops, brain, address);
    var i: nat :| Stands(events, i, MinerRegistered, MinerDeregistered, brain, address);
    var v := ViewsOf(cfg, ops).shown;
    PresentMembers(ScanOf(cfg, v.chain).events, v.missing);
    assert events[i] in events;
  }

  // ----- restarts

  /** Equal in everything that later polls and membership queries can see. */
  ghost predicate Agree(s: System, t: System) {
    && s.cursor == t.cursor && s.saved == t.saved
    && s.index.miners == t.index.miners && s.index.validators == t.index.validators
  }

  lemma StepAgrees(cfg: Config, s: System, t: System, op: Op)
    requires Agree(s, t)
    ensures Agree(Step(cfg, s, op), Step(cfg, t, op))
  {
    if op.PollChain? {
      MembersFromEventsOnly(s.index, t.index, AfterPoll(cfg, s.cursor, op.chain, op.outcome).events);
    }
  }

  /** The store is never ahead of memory; when it is not behind, the member sets were
      last rebuilt from what is stored. */
  ghost predicate StoreTrails(cfg: Config, s: System) {
    var stored := Loaded(cfg, s.saved);
    && stored.nextBlock <= s.cursor.nextBlock
    && (stored.nextBlock == s.cursor.nextBlock ==> MembersFollow(s.index, stored.events))
  }

  lemma StepTrails(cfg: Config, s: System, op: Op)
    requires StoreTrails(cfg, s)
    ensures StoreTrails(cfg, Step(cfg, s, op))
  {
    if Completes(cfg, s.cursor, op) {
      MembersFromEventsOnly(s.index, EmptyIndex(), Poll(cfg, s.cursor, op.chain).0.events);
    }
  }

  lemma {:induction false} StoreAlwaysTrails(cfg: Config, ops: seq<Op>)
    ensures StoreTrails(cfg, Run(cfg, ops))
  {
    if ops != [] {
      StoreAlwaysTrails(cfg, ops[..|ops| - 1]);
      StepTrails(cfg, Run(cfg, ops[..|ops| - 1]), ops[|ops| - 1]);
    }
  }

  /** A restart when the store would load what is in memory cannot be told from no restart
      at all, except by the announced endpoints; no hypothesis on the chains is needed. */
  lemma {:induction false} RestartIsTransparent(cfg: Config, ops: seq<Op>, more: seq<Op>)
    requires Loaded(cfg, Run(cfg, ops).saved) == Run(cfg, ops).cursor
    ensures Agree(Run(cfg, ops + [Restart] + more), Run(cfg, ops + more))
  {
    if more == [] {
      RunSnoc(cfg, ops, Restart);
      StoreAlwaysTrails(cfg, ops);
      assert ops + [Restart] + more == ops + [Restart] && ops + more == ops;
    } else {
      var shorter, last := more[..|more| - 1], more[|more| - 1];
      RestartIsTransparent(cfg, ops, shorter);
      assert ops + [Restart] + more == ops + [Restart] + shorter + [last];
      assert ops + more == ops + shorter + [last];
      RunSnoc(cfg, ops + [Restart] + shorter, last);
      RunSnoc(cfg, ops + shorter, last);
      StepAgrees(cfg, Run(cfg, ops + [Restart] + shorter), Run(cfg, ops + shorter), last);
    }
  }

  /** While no poll has raised after its first write, the store would load what is in
      memory: every restart is then transparent, one before the first save included. */
  lemma {:induction false} SavesKeepUp(cfg: Config, ops: seq<Op>)
    requires forall op :: op in ops && op.PollChain? ==> op.outcome.Succeeds? || op.outcome.BlockQueryFails?
    ensures Loaded(cfg, Run(cfg, ops).saved) == Run(cfg, ops).cursor
  {
    if ops != [] {
      var before, op := ops[..|ops| - 1], ops[|ops| - 1];
      assert ops == before + [op] && op in ops;
      SavesKeepUp(cfg, before);
    }
  }

  lemma {:induction false} StoreHoldsShown(cfg: Config, ops: seq<Op>)
    requires forall op :: op in ops && op.PollChain? ==> !op.outcome.SaveFails?
    ensures ViewsOf(cfg, ops).disk == ViewsOf(cfg, ops).shown
  {
    if ops != [] {
      var before, op := ops[..|ops| - 1], ops[|ops| - 1];
      assert ops == before + [op] && op in ops;
      StoreHoldsShown(cfg, before);
    }
  }

  /** While no save has failed, a restart returns to the last completed poll and so makes
      up for every abort since. */
  lemma RestartUndoesAborts(cfg: Config, ops: seq<Op>)
    requires AllCommitted(ops)
    requires forall op :: op in ops && op.PollChain? ==> !op.outcome.SaveFails?
    ensures Run(cfg, ops + [Restart]).cursor == CursorOf(cfg, ViewsOf(cfg, ops).shown)
  {
    StoreHoldsShown(cfg, ops);
    RunMatchesViews(cfg, ops);
    RunSnoc(cfg, ops, Restart);
  }

  // ----- two histories

  /** Two histories, with whatever losses, agree on the next block and the hashes once both
      complete a poll of one chain, and on all membership if neither poll loses events. */
  lemma HistoriesConverge(cfg: Config, a: seq<Op>, b: seq<Op>, opA: Op, opB: Op)
    requires AllCommitted(a + [opA]) && Completes(cfg, Run(cfg, a).cursor, opA)
    requires AllCommitted(b + [opB]) && Completes(cfg, Run(cfg, b).cursor, opB)
    requires opA.chain == opB.chain
    ensures Matches(cfg, Run(cfg, a), ViewsOf(cfg, a)) && Matches(cfg, Run(cfg, b), ViewsOf(cfg, b))
    ensures var s, t := Run(cfg, a + [opA]), Run(cfg, b + [opB]);
            && s.cursor.nextBlock == t.cursor.nextBlock && s.cursor.hashes == t.cursor.hashes
            && (LosesNothing(cfg, ViewsOf(cfg, a).memory, opA.chain)
                && LosesNothing(cfg, ViewsOf(cfg, b).memory, opB.chain) ==>
                  && s.cursor == t.cursor
                  && s.index.miners == t.index.miners && s.index.validators == t.index.validators)
  {
    CompletedPollIsCanonical(cfg, a, opA);
    CompletedPollIsCanonical(cfg, b, opB);
    MembersAfterPoll(cfg, a, opA);
    MembersAfterPoll(cfg, b, opB);
  }

  lemma MembersAfterPoll(cfg: Config, ops: seq<Op>, op: Op)
    requires Completes(cfg, Run(cfg, ops).cursor, op)
    ensures MembersFollow(Run(cfg, ops + [op]).index, Run(cfg, ops + [op]).cursor.events)
  {
    RunSnoc(cfg, ops, op);
    MembersFromEventsOnly(Run(cfg, ops).index, EmptyIndex(), Run(cfg, ops + [op]).cursor.events);
  }

  // ----- endpoints

  /** A completed poll keeps an announced endpoint exactly when the events it ends with
      hold no deregistration of that miner, however long ago. */
  lemma EndpointSurvivesPoll(cfg: Config, ops: seq<Op>, op: Op, brain: nat, address: Address)
    requires AllCommitted(ops + [op]) && Completes(cfg, Run(cfg, ops).cursor, op)
    ensures (brain, address) in Run(cfg, ops + [op]).index.endpoints
            <==> (brain, address) in Run(cfg, ops).index.endpoints
                 && !EverDeregistered(CursorOf(cfg, ViewsOf(cfg, ops + [op]).memory).events, brain, address)
  {
    CompletedPollIsCanonical(cfg, ops, op);
    RunSnoc(cfg, ops, op);
    EndpointSurvives(Run(cfg, ops).index, Run(cfg, ops + [op]).cursor.events, brain, address);
  }

  /** So a miner that left and came back vanishes from the listing at every completed
      poll, although it is a member, until it announces again. */
  lemma RejoinedMinerIsNotListed(cfg: Config, ops: seq<Op>, op: Op,
                                 ttl: int, brain: nat, now: Option<int>, address: Address)
    requires AllCommitted(ops + [op]) && Completes(cfg, Run(cfg, ops).cursor, op)
    requires EverDeregistered(CursorOf(cfg, ViewsOf(cfg, ops + [op]).memory).events, brain, address)
    requires LastWord(CursorOf(cfg, ViewsOf(cfg, ops + [op]).memory).events,
                      MinerRegistered, MinerDeregistered, brain, address)
    ensures var ix := Run(cfg, ops + [op]).index;
            address in MembersOf(ix.miners, brain) && !Listable(ix, ttl, brain, now, address)
  {
    EndpointSurvivesPoll(cfg, ops, op, brain, address);
    CompletedPollIsCanonical(cfg, ops, op);
    MembersAfterPoll(cfg, ops, op);
    MembershipExact(EmptyIndex(), Run(cfg, ops + [op]).cursor.events, brain, address);
  }
}
