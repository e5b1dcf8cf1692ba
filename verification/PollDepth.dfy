/** What polls hold, written out in terms of the chain's blocks and of the depth at which
    a block counts as confirmed. */
module PollDepth {
  import opened Sorting
  import opened Dictionaries
  import opened Membership
  import opened Chain
  import opened Poller
  import opened GatewayRuns

  // ----- full scans

  /** The event is that of a log of the chain which is a membership event. */
  predicate LoggedOn(chain: Blocks, e: Event) {
    && e.block < |chain| && e.logIndex < |chain[e.block].logs| && e.kind != Unrelated
    && chain[e.block].logs[e.logIndex] == Log(e.kind, e.brain, e.address)
  }

  lemma {:induction false} AllLogsExactly(chain: Blocks, lo: nat, hi: nat, e: Event)
    requires lo <= hi <= |chain|
    ensures e in AllLogs(chain, lo, hi)
            <==> lo <= e.block < hi && e.logIndex < |chain[e.block].logs|
                 && chain[e.block].logs[e.logIndex] == Log(e.kind, e.brain, e.address)
  {
    if lo < hi {
      AllLogsExactly(chain, lo, hi - 1, e);
      BlockLogsExactly(chain[hi - 1].logs, hi - 1, e);
    }
  }

  lemma BlockLogsExactly(logs: seq<Log>, block: nat, e: Event)
    ensures e in BlockLogs(logs, block)
            <==> e.block == block && e.logIndex < |logs| && logs[e.logIndex] == Log(e.kind, e.brain, e.address)
  {
    if e.block == block && e.logIndex < |logs| && logs[e.logIndex] == Log(e.kind, e.brain, e.address) {
      assert BlockLogs(logs, block)[e.logIndex] == e;
    }
  }

  /** A scan holds exactly the membership events logged in its blocks, by block and log
      index, and exactly its blocks' hashes. */
  lemma ScanExactly(chain: Blocks, lo: nat, next: nat)
    requires lo <= next <= |chain|
    ensures forall e :: e in FullScan(chain, lo, next).events <==> LoggedOn(chain, e) && lo <= e.block < next
    ensures var events := FullScan(chain, lo, next).events;
            forall i, j :: 0 <= i < j < |events| ==>
              || events[i].block < events[j].block
              || (events[i].block == events[j].block && events[i].logIndex < events[j].logIndex)
    ensures forall b :: b in FullScan(chain, lo, next).hashes <==> lo <= b < next
    ensures forall b :: lo <= b < next ==> FullScan(chain, lo, next).hashes[b] == chain[b].hash
  {
    AllLogsOrdered(chain, lo, next);
    RelevantOrdered(AllLogs(chain, lo, next));
    forall e
      ensures e in Canonical(chain, lo, next) <==> LoggedOn(chain, e) && lo <= e.block < next
    {
      AllLogsExactly(chain, lo, next, e);
    }
    var events := Canonical(chain, lo, next);
    forall i, j | 0 <= i < j < |events|
      ensures events[i].block < events[j].block
              || (events[i].block == events[j].block && events[i].logIndex < events[j].logIndex)
    {
      assert EventAtMost(events[i], events[j]) && !EventAtMost(events[j], events[i]);
    }
  }

  // ----- the depth of what is held

  /** Nothing is held from the next block on. */
  ghost predicate HeldBelow(cur: Cursor) {
    && (forall e :: e in cur.events ==> e.block < cur.nextBlock)
    && (forall b :: b in cur.hashes ==> b < cur.nextBlock)
  }

  lemma PollHoldsBelow(cfg: Config, cur: Cursor, chain: Blocks)
    requires |chain| > cur.nextBlock + cfg.confirmations
    ensures Poll(cfg, cur, chain).0.nextBlock + cfg.confirmations == |chain|
    ensures HeldBelow(Poll(cfg, cur, chain).0)
  {
    var from, next := RewindPoint(cfg, cur, chain), |chain| - cfg.confirmations;
    MergedScansAreCanonical(chain, from, next);
    CanonicalBlocks(chain, from, next);
    BeforeMembers(cur.events, from);
    var found := Canonical(chain, from, next);
    assert forall e :: e in found ==> exists i :: 0 <= i < |found| && found[i] == e;
    assert Poll(cfg, cur, chain).0.events == Before(cur.events, from) + found;
  }

  lemma AbortHoldsBelow(cfg: Config, cur: Cursor, chain: Blocks)
    requires |chain| > cur.nextBlock + cfg.confirmations && HeldBelow(cur)
    ensures HeldBelow(Truncated(cfg, cur, chain))
  {
    BeforeMembers(cur.events, RewindPoint(cfg, cur, chain));
  }

  /** What a poll writes is decided by how deep the chain is and by where it raises. */
  lemma StepOfPoll(cfg: Config, s: System, op: Op)
    requires op.PollChain?
    ensures var u, deep := Step(cfg, s, op), |op.chain| > s.cursor.nextBlock + cfg.confirmations;
            && (!deep || op.outcome.BlockQueryFails? ==> u == s)
            && (deep && op.outcome.LogQueryFails? ==>
                  u == s.(cursor := s.cursor.(events := Before(s.cursor.events, RewindPoint(cfg, s.cursor, op.chain)))))
            && (deep && (op.outcome.Succeeds? || op.outcome.SaveFails?) ==>
                  && u.cursor == Poll(cfg, s.cursor, op.chain).0
                  && u.cursor.nextBlock + cfg.confirmations == |op.chain|
                  && u.saved == if op.outcome.Succeeds? then Some(u.cursor) else s.saved)
  {}

  lemma {:induction false} AlwaysHeldBelow(cfg: Config, ops: seq<Op>)
    ensures HeldBelow(Run(cfg, ops).cursor)
    ensures Run(cfg, ops).saved.Some? ==> HeldBelow(Run(cfg, ops).saved.value)
  {
    if ops != [] {
      var s, op := Run(cfg, ops[..|ops| - 1]), ops[|ops| - 1];
      AlwaysHeldBelow(cfg, ops[..|ops| - 1]);
      if op.PollChain? {
        StepOfPoll(cfg, s, op);
        if |op.chain| > s.cursor.nextBlock + cfg.confirmations {
          PollHoldsBelow(cfg, s.cursor, op.chain);
          AbortHoldsBelow(cfg, s.cursor, op.chain);
        }
      }
    }
  }

  /** After any run, a poll writes exactly if its chain has a new block that is deep enough
      and its block queries do not raise.  If it gets through its log queries too, it ends
      at the confirmation depth: the next block is the first one that is not confirmed, and
      everything held is confirmed. */
  lemma CompletedPollDepth(cfg: Config, ops: seq<Op>, op: Op)
    requires op.PollChain?
    ensures var s, u := Run(cfg, ops), Run(cfg, ops + [op]);
            var deep := |op.chain| > s.cursor.nextBlock + cfg.confirmations;
            && (!deep || op.outcome.BlockQueryFails? ==> u == s)
            && (deep && op.outcome.LogQueryFails? ==>
                  u == s.(cursor := s.cursor.(events := Before(s.cursor.events, RewindPoint(cfg, s.cursor, op.chain)))))
            && (deep && (op.outcome.Succeeds? || op.outcome.SaveFails?) ==>
                  && u.cursor.nextBlock + cfg.confirmations == |op.chain|
                  && (forall e :: e in u.cursor.events ==> e.block + cfg.confirmations < |op.chain|)
                  && (forall b :: b in u.cursor.hashes ==> b + cfg.confirmations < |op.chain|)
                  && u.saved == if op.outcome.Succeeds? then Some(u.cursor) else s.saved)
  {
    RunSnoc(cfg, ops, op);
    StepOfPoll(cfg, Run(cfg, ops), op);
    AlwaysHeldBelow(cfg, ops + [op]);
  }

  /** Before anything is polled the start block is next and nothing is held. */
  lemma FreshStart(cfg: Config)
    ensures Run(cfg, []).cursor.nextBlock == cfg.startBlock
    ensures Run(cfg, []).cursor.events == [] && Run(cfg, []).cursor.hashes == map[]
  {}

  /** With the default configuration a first poll leaves the newest two blocks alone, and
      the next one starts twelve blocks below where it left off if nothing was reorganised. */
  lemma DefaultDepth(chain: Blocks, longer: Blocks)
    requires 2 < |chain| < |longer| && chain <= longer
    ensures var cur := Run(Config(), [PollChain(chain, Succeeds)]).cursor;
            && cur.nextBlock == |chain| - 2
            && RewindPoint(Config(), cur, longer) == if |chain| < 14 then 0 else |chain| - 14
  {
    var cfg, op := Config(), PollChain(chain, Succeeds);
    assert [] + [op] == [op];
    FreshStart(cfg);
    CompletedPollDepth(cfg, [], op);
    PollsWithoutAbortsAreFullScans(cfg, [], op);
    var cur := Run(cfg, [op]).cursor;
    forall i | 0 <= i < |chain| && chain[i].hash == longer[i].hash
      ensures chain[..i + 1] == longer[..i + 1]
    {}
    assert FirstDivergence(chain, longer, 0, cur.nextBlock, cur.nextBlock);
    RewindExact(cfg, cur, chain, longer, 0, cur.nextBlock);
  }

  // ----- answers

  /** A poll raises exactly where a query or a save it gets to does; otherwise it answers
      with the number of membership events from its rewind point to the confirmed head. */
  lemma PollAnswers(cfg: Config, cur: Cursor, chain: Blocks, outcome: Outcome, stored: bool)
    ensures var r, deep := ResultOf(cfg, cur, chain, outcome, stored), |chain| > cur.nextBlock + cfg.confirmations;
            && (r == Raised <==> || outcome.BlockQueryFails?
                                 || (deep && (outcome.LogQueryFails? || (outcome.SaveFails? && stored))))
            && (r.Applied? ==>
                  r.count == if !deep then 0
                             else |Canonical(chain, RewindPoint(cfg, cur, chain), |chain| - cfg.confirmations)|)
  {
    if |chain| > cur.nextBlock + cfg.confirmations {
      PollCounts(cfg, cur, chain);
    }
  }
}
