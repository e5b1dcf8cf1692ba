/** Which endpoint the gateway has on record for a miner after any run, and when it lists
    the miner with it. */
module Listings {
  import opened Dictionaries
  import opened Membership
  import opened Chain
  import opened Poller
  import opened GatewayRuns

  predicate Announces(op: Op, brain: nat, address: Address) {
    op.AnnounceEndpoint? && op.brain == brain && op.address == address
  }

  predicate Rescores(op: Op, brain: nat, address: Address) {
    op.UpdateScore? && op.brain == brain && op.address == address
  }

  /** The step clears the miner's endpoint: a restart clears all of them, and a completed
      poll those of all miners it holds a deregistration of. */
  ghost predicate Clears(cfg: Config, s: System, op: Op, brain: nat, address: Address) {
    || op.Restart?
    || (op.PollChain? && |op.chain| > s.cursor.nextBlock + cfg.confirmations
        && (op.outcome.Succeeds? || op.outcome.SaveFails?)
        && EverDeregistered(Step(cfg, s, op).cursor.events, brain, address))
  }

  /** Step `i` is the miner's last announcement and nothing has cleared it since. */
  ghost predicate LastAnnounced(cfg: Config, ops: seq<Op>, i: nat, brain: nat, address: Address) {
    && i < |ops| && Announces(ops[i], brain, address)
    && forall j :: i < j < |ops| ==>
         !Announces(ops[j], brain, address) && !Clears(cfg, Run(cfg, ops[..j]), ops[j], brain, address)
  }

  /** Step `k` is that announcement or the last score update since. */
  ghost predicate LastScored(ops: seq<Op>, i: nat, k: nat, brain: nat, address: Address) {
    && i <= k < |ops| && (k == i || Rescores(ops[k], brain, address))
    && forall j :: k < j < |ops| ==> !Rescores(ops[j], brain, address)
  }

  ghost predicate OnRecord(cfg: Config, ops: seq<Op>, i: nat, k: nat, brain: nat, address: Address) {
    LastAnnounced(cfg, ops, i, brain, address) && LastScored(ops, i, k, brain, address)
  }

  // ----- one step

  lemma LastAnnouncedSnoc(cfg: Config, ops: seq<Op>, op: Op, i: nat, brain: nat, address: Address)
    ensures LastAnnounced(cfg, ops + [op], i, brain, address)
            <==> if i == |ops| then Announces(op, brain, address)
                 else LastAnnounced(cfg, ops, i, brain, address) && !Announces(op, brain, address)
                      && !Clears(cfg, Run(cfg, ops), op, brain, address)
  {
    var all := ops + [op];
    assert all[|ops|] == op && all[..|ops|] == ops;
    forall j | 0 <= j < |ops|
      ensures all[j] == ops[j] && all[..j] == ops[..j]
    {}
  }

  lemma LastScoredSnoc(ops: seq<Op>, op: Op, i: nat, k: nat, brain: nat, address: Address)
    ensures LastScored(ops + [op], i, k, brain, address)
            <==> if k == |ops| then i <= k && (k == i || Rescores(op, brain, address))
                 else LastScored(ops, i, k, brain, address) && !Rescores(op, brain, address)
  {
    var all := ops + [op];
    assert all[|ops|] == op;
    forall j | 0 <= j < |ops|
      ensures all[j] == ops[j]
    {}
  }

  /** What one step does to the endpoint of one miner. */
  lemma StepOfEndpoint(cfg: Config, s: System, op: Op, brain: nat, address: Address)
    ensures var had, has := s.index.endpoints, Step(cfg, s, op).index.endpoints;
            var at := (brain, address);
            && (at in has <==> Announces(op, brain, address) || (at in had && !Clears(cfg, s, op, brain, address)))
            && (at in has ==> has[at] == if Announces(op, brain, address) then Endpoint(op.url, op.score, op.ts)
                                         else if Rescores(op, brain, address) then had[at].(score := op.score)
                                         else had[at])
  {
    if op.PollChain? {
      EndpointSurvives(s.index, Step(cfg, s, op).cursor.events, brain, address);
    } else if op.Restart? {
      EndpointSurvives(EmptyIndex(), Step(cfg, s, op).cursor.events, brain, address);
    }
  }

  // ----- runs

  /** The record holds the url and time of the miner's last announcement and the score of
      that announcement or of the last update since. */
  lemma {:induction false} RecordIsKept(cfg: Config, ops: seq<Op>, i: nat, k: nat, brain: nat, address: Address)
    requires OnRecord(cfg, ops, i, k, brain, address)
    ensures ops[i].AnnounceEndpoint? && (ops[k].AnnounceEndpoint? || ops[k].UpdateScore?)
    ensures (brain, address) in Run(cfg, ops).index.endpoints
    ensures Run(cfg, ops).index.endpoints[(brain, address)] == Endpoint(ops[i].url, ops[k].score, ops[i].ts)
  {
    var n := |ops| - 1;
    var before, op := ops[..n], ops[n];
    assert ops == before + [op];
    StepOfEndpoint(cfg, Run(cfg, before), op, brain, address);
    LastAnnouncedSnoc(cfg, before, op, i, brain, address);
    LastScoredSnoc(before, op, i, k, brain, address);
    if i < n {
      if k < n {
        RecordIsKept(cfg, before, i, k, brain, address);
      } else {
        var last := ScoredBefore(before, i, brain, address);
        RecordIsKept(cfg, before, i, last, brain, address);
      }
    }
  }

  lemma {:induction false} ScoredBefore(ops: seq<Op>, i: nat, brain: nat, address: Address) returns (k: nat)
    requires i < |ops|
    ensures LastScored(ops, i, k, brain, address)
  {
    var n := |ops| - 1;
    assert ops == ops[..n] + [ops[n]];
    if i == n || Rescores(ops[n], brain, address) {
      k := n;
    } else {
      k := ScoredBefore(ops[..n], i, brain, address);
      LastScoredSnoc(ops[..n], ops[n], i, k, brain, address);
    }
  }

  lemma {:induction false} KeptIsOnRecord(cfg: Config, ops: seq<Op>, brain: nat, address: Address)
      returns (i: nat, k: nat)
    requires (brain, address) in Run(cfg, ops).index.endpoints
    ensures OnRecord(cfg, ops, i, k, brain, address)
  {
    var n := |ops| - 1;
    var before, op := ops[..n], ops[n];
    assert ops == before + [op];
    StepOfEndpoint(cfg, Run(cfg, before), op, brain, address);
    if Announces(op, brain, address) {
      i, k := n, n;
    } else {
      i, k := KeptIsOnRecord(cfg, before, brain, address);
      LastAnnouncedSnoc(cfg, before, op, i, brain, address);
      k := ScoredBefore(ops, i, brain, address);
    }
  }

  /** After any run a miner has an endpoint on record exactly if it has announced one that
      nothing has cleared since. */
  lemma EndpointExactly(cfg: Config, ops: seq<Op>, brain: nat, address: Address)
    ensures (brain, address) in Run(cfg, ops).index.endpoints
            <==> exists i: nat, k: nat :: OnRecord(cfg, ops, i, k, brain, address)
  {
    if (brain, address) in Run(cfg, ops).index.endpoints {
      var i, k := KeptIsOnRecord(cfg, ops, brain, address);
    }
    if i: nat, k: nat :| OnRecord(cfg, ops, i, k, brain, address) {
      RecordIsKept(cfg, ops, i, k, brain, address);
    }
  }

  /** A member with an endpoint on record is listed exactly while its last announcement is
      no older than the time-to-live, or if ages do not matter; the entry shows the url of
      that announcement, and its score or that of the last update since. */
  lemma ListedExactly(cfg: Config, ops: seq<Op>, ttl: int, brain: nat, now: Option<int>, address: Address,
                      i: nat, k: nat)
    requires OnRecord(cfg, ops, i, k, brain, address)
    ensures ops[i].AnnounceEndpoint? && (ops[k].AnnounceEndpoint? || ops[k].UpdateScore?)
    ensures var ix := Run(cfg, ops).index;
            && (Listable(ix, ttl, brain, now, address)
                <==> address in MembersOf(ix.miners, brain)
                     && (now.None? || ttl == 0 || now.value - ops[i].ts <= ttl))
            && (brain, address) in ix.endpoints
            && EntryOf(ix, brain, address) == Entry(address, ops[i].url, ops[k].score)
  {
    RecordIsKept(cfg, ops, i, k, brain, address);
  }
}
