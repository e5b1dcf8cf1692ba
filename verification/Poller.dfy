/** `ChainPoller` and `CursorStore` of gateway/src/basedai_gateway/server.py: an
    incremental scan that rewinds over reorganisations, and the proof that from a full
    scan of one chain a completed poll gets to a full scan of the next. */
module Poller {
  import opened Sorting
  import opened Dictionaries
  import opened Membership
  import opened Chain

  datatype Config = Config(startBlock: nat := 0, confirmations: nat := 2, reorgBuffer: nat := 12)

  /** What the poller remembers between polls and persists. */
  datatype Cursor = Cursor(nextBlock: nat, events: seq<Event>, hashes: map<nat, Hash>)

  function Fresh(cfg: Config): Cursor {
    Cursor(cfg.startBlock, [], map[])
  }

  /** The newest block that is deep enough to be scanned; negative if there is none. */
  function Head(cfg: Config, chain: Blocks): int {
    |chain| - 1 - cfg.confirmations
  }

  /** There are new blocks to scan; otherwise a poll returns early. */
  predicate Advances(cfg: Config, cur: Cursor, chain: Blocks) {
    Head(cfg, chain) >= cur.nextBlock
  }

  function Max0(x: int): nat {
    if x < 0 then 0 else x
  }

  /** Walks down from `p` over recorded hashes that are no longer canonical. */
  function Probe(hashes: map<nat, Hash>, chain: Blocks, p: int): (q: int)
    requires -1 <= p < |chain|
    ensures -1 <= q <= p
    decreases p + 1
  {
    if p >= 0 && p in hashes && chain[p].hash != hashes[p] then Probe(hashes, chain, p - 1) else p
  }

  /** The first block to be scanned again. */
  function RewindPoint(cfg: Config, cur: Cursor, chain: Blocks): (from: nat)
    requires cur.nextBlock <= |chain|
    ensures from <= cur.nextBlock
  {
    Probe(cur.hashes, chain, Max0(cur.nextBlock - cfg.reorgBuffer) - 1) + 1
  }

  function HashesBelow(hashes: map<nat, Hash>, from: nat): map<nat, Hash> {
    map b | b in hashes && b < from :: hashes[b]
  }

  /** The cursor after blocks `from` to `next - 1` have been scanned again. */
  function Rebuilt(cur: Cursor, chain: Blocks, from: nat, next: nat): Cursor
    requires from <= next <= |chain|
  {
    Cursor(next,
           Before(cur.events, from) + Sort(EventAtMost, Scans(chain, from, next, EVENT_KINDS)),
           HashesBelow(cur.hashes, from) + HashesOf(chain, from, next))
  }

  /** The cursor after a poll, and the number of events it applied. */
  function Poll(cfg: Config, cur: Cursor, chain: Blocks): (Cursor, nat) {
    if !Advances(cfg, cur, chain) then (cur, 0)
    else
      var from, next := RewindPoint(cfg, cur, chain), Head(cfg, chain) + 1;
      (Rebuilt(cur, chain, from, next), |Scans(chain, from, next, EVENT_KINDS)|)
  }

  /** What happens to a poll.  Its queries for blocks come first and its queries for
      logs after the event list has been truncated; the save comes last. */
  datatype Outcome = Succeeds | BlockQueryFails | LogQueryFails | SaveFails

  /** The poll gets through its queries. */
  predicate Finishes(outcome: Outcome) {
    outcome.Succeeds? || outcome.SaveFails?
  }

  datatype PollResult = Applied(count: nat) | Raised

  /** A poll whose log query raises leaves the events truncated, and the hashes and the
      next block as they were. */
  function Truncated(cfg: Config, cur: Cursor, chain: Blocks): Cursor
    requires cur.nextBlock <= |chain|
  {
    cur.(events := Before(cur.events, RewindPoint(cfg, cur, chain)))
  }

  function AfterPoll(cfg: Config, cur: Cursor, chain: Blocks, outcome: Outcome): Cursor {
    if !Advances(cfg, cur, chain) || outcome.BlockQueryFails? then cur
    else if outcome.LogQueryFails? then Truncated(cfg, cur, chain)
    else Poll(cfg, cur, chain).0
  }

  function ResultOf(cfg: Config, cur: Cursor, chain: Blocks, outcome: Outcome, stored: bool): PollResult {
    if outcome.BlockQueryFails? then Raised
    else if !Advances(cfg, cur, chain) then Applied(0)
    else if outcome.LogQueryFails? || (outcome.SaveFails? && stored) then Raised
    else Applied(Poll(cfg, cur, chain).1)
  }

  // ----- the classes

  class CursorStore {
    var saved: Option<Cursor>

    constructor ()
      ensures saved == None
    {
      saved := None;
    }

    /** The file is replaced in one step, so a save that raises leaves the old state. */
    method SaveState(cur: Cursor, raises: bool) returns (raised: bool)
      modifies this
      ensures raised == raises
      ensures saved == if raised then old(saved) else Some(cur)
    {
      if raises {
        return true;
      }
      saved := Some(cur);
      return false;
    }
  }

  class ChainPoller {
    const cfg: Config
    const index: MemberIndex
    const store: CursorStore?
    var nextBlock: nat
    var events: seq<Event>
    var hashes: map<nat, Hash>

    function Cur(): Cursor
      reads this
    {
      Cursor(nextBlock, events, hashes)
    }

    constructor (cfg: Config, index: MemberIndex, store: CursorStore?)
      modifies index
      ensures this.cfg == cfg && this.index == index && this.store == store
      ensures Cur() == if store != null && store.saved.Some? then store.saved.value else Fresh(cfg)
      ensures index.Abs() == Replace(old(index.Abs()), Cur().events)
    {
      this.cfg, this.index, this.store := cfg, index, store;
      var cur := if store != null && store.saved.Some? then store.saved.value else Fresh(cfg);
      nextBlock, events, hashes := cur.nextBlock, cur.events, cur.hashes;
      new;
      index.ReplaceMembership(events);
    }

    /** A query for a block that raises does so before anything is written. */
    method PollOnce(chain: Blocks, outcome: Outcome) returns (r: PollResult)
      modifies this, index, store
      ensures Cur() == AfterPoll(cfg, old(Cur()), chain, outcome)
      ensures index.Abs()
           == if Advances(cfg, old(Cur()), chain) && Finishes(outcome)
              then Replace(old(index.Abs()), Cur().events) else old(index.Abs())
      ensures store != null ==>
                store.saved == if Advances(cfg, old(Cur()), chain) && outcome.Succeeds?
                               then Some(Cur()) else old(store.saved)
      ensures r == ResultOf(cfg, old(Cur()), chain, outcome, store != null)
    {
      var head := |chain| - 1 - cfg.confirmations;
      if outcome.BlockQueryFails? {
        return Raised;
      }
      if head < nextBlock {
        return Applied(0);
      }
      r := ScanAgain(chain, outcome.LogQueryFails?);
      if r.Applied? && store != null {
        var raised := store.SaveState(Cursor(nextBlock, events, hashes), outcome.SaveFails?);
        if raised {
          return Raised;
        }
      }
    }

    /** A poll up to its save.  The events are truncated before the logs are queried. */
    method ScanAgain(chain: Blocks, logQueryFails: bool) returns (r: PollResult)
      requires Advances(cfg, Cur(), chain)
      modifies this, index
      ensures Cur() == if logQueryFails then Truncated(cfg, old(Cur()), chain) else Poll(cfg, old(Cur()), chain).0
      ensures index.Abs() == if logQueryFails then old(index.Abs()) else Replace(old(index.Abs()), Cur().events)
      ensures r == if logQueryFails then Raised else Applied(Poll(cfg, old(Cur()), chain).1)
    {
      var next := |chain| - cfg.confirmations;
      var from := FindRewindPoint(chain);
      var canonicalHashes := CollectHashes(chain, from, next);
      events := Before(events, from);
      if logQueryFails {
        return Raised;
      }
      var found := CollectEvents(chain, from, next);
      r := Install(chain, from, next, found, canonicalHashes);
    }

    /** What a poll writes between its last query and its save. */
    method Install(chain: Blocks, from: nat, next: nat, found: seq<Event>, canonicalHashes: map<nat, Hash>)
      returns (r: PollResult)
      requires from <= next <= |chain|
      requires found == Scans(chain, from, next, EVENT_KINDS) && canonicalHashes == HashesOf(chain, from, next)
      modifies this, index
      ensures Cur() == Cursor(next, old(events) + Sort(EventAtMost, found),
                              HashesBelow(old(hashes), from) + canonicalHashes)
      ensures index.Abs() == Replace(old(index.Abs()), Cur().events)
      ensures r == Applied(|found|)
    {
      SortRearranges(EventAtMost, found);
      var sorted := Sort(EventAtMost, found);
      events := events + sorted;
      index.ReplaceMembership(events);
      hashes := HashesBelow(hashes, from) + canonicalHashes;
      nextBlock := next;
      r := Applied(|sorted|);
    }

    method FindRewindPoint(chain: Blocks) returns (from: nat)
      requires nextBlock <= |chain|
      ensures from == RewindPoint(cfg, Cur(), chain)
    {
      from := Max0(nextBlock - cfg.reorgBuffer);
      var probe: int := from - 1;
      while probe >= 0 && probe in hashes
        invariant -1 <= probe < from
        invariant Probe(hashes, chain, probe) == Probe(hashes, chain, from - 1)
        decreases probe + 1
      {
        if chain[probe].hash == hashes[probe] {
          break;
        }
        probe := probe - 1;
      }
      if probe < from - 1 {
        from := probe + 1;
      }
    }
  }

  method CollectHashes(chain: Blocks, from: nat, next: nat) returns (hashes: map<nat, Hash>)
    requires from <= next <= |chain|
    ensures hashes == HashesOf(chain, from, next)
  {
    hashes := map[];
    for n: nat := from to next
      invariant hashes == HashesOf(chain, from, n)
    {
      hashes := hashes[n := chain[n].hash];
    }
  }

  method CollectEvents(chain: Blocks, from: nat, next: nat) returns (found: seq<Event>)
    requires from <= next <= |chain|
    ensures found == Scans(chain, from, next, EVENT_KINDS)
  {
    found := [];
    var kinds := EVENT_KINDS;
    for i := 0 to |kinds|
      invariant found == Scans(chain, from, next, kinds[..i])
    {
      assert kinds[..i + 1][..i] == kinds[..i];
      found := found + GetLogs(chain, from, next, kinds[i]);
    }
    assert kinds[..|kinds|] == EVENT_KINDS;
  }

  // ----- the full scan

  /** The lowest block the poller ever scans. */
  function Lowest(cfg: Config): nat {
    Max0(cfg.startBlock - cfg.reorgBuffer)
  }

  function FullScan(chain: Blocks, lo: nat, next: nat): Cursor
    requires lo <= next <= |chain|
  {
    Cursor(next, Canonical(chain, lo, next), HashesOf(chain, lo, next))
  }

  /** `view` is the chain as of the last completed poll, if there was one. */
  predicate ValidView(cfg: Config, view: Option<Blocks>) {
    view.Some? ==> Head(cfg, view.value) >= cfg.startBlock
  }

  function ScanOf(cfg: Config, view: Option<Blocks>): Cursor
    requires view.Some? ==> Head(cfg, view.value) >= cfg.startBlock
  {
    match view
    case None => Fresh(cfg)
    case Some(chain) => FullScan(chain, Lowest(cfg), Head(cfg, chain) + 1)
  }

  // ----- how far a poll rewinds

  /** `d` is the first height from `lo` on, below `next`, at which the hash stored from
      `prev` is no longer canonical; it is `next` if there is none. */
  ghost predicate FirstDivergence(prev: Blocks, chain: Blocks, lo: nat, next: nat, d: nat) {
    && lo <= d <= next <= |prev| && next <= |chain|
    && (forall h :: lo <= h < d ==> prev[h].hash == chain[h].hash)
    && (d < next ==> prev[d].hash != chain[d].hash)
  }

  lemma {:induction false} DivergenceExists(prev: Blocks, chain: Blocks, lo: nat, next: nat, k: nat) returns (d: nat)
    requires lo <= k <= next <= |prev| && next <= |chain|
    requires forall h :: lo <= h < k ==> prev[h].hash == chain[h].hash
    ensures FirstDivergence(prev, chain, lo, next, d)
    decreases next - k
  {
    if k < next && prev[k].hash == chain[k].hash {
      d := DivergenceExists(prev, chain, lo, next, k + 1);
    } else {
      d := k;
    }
  }

  lemma {:induction false} ProbeStops(hashes: map<nat, Hash>, chain: Blocks, p: int, q: int)
    requires -1 <= q <= p < |chain|
    requires forall h: nat :: q < h <= p ==> h in hashes && hashes[h] != chain[h].hash
    requires q >= 0 && q in hashes ==> hashes[q] == chain[q].hash
    ensures Probe(hashes, chain, p) == q
    decreases p + 1
  {
    if q < p {
      ProbeStops(hashes, chain, p - 1, q);
    }
  }

  /** Hashes commit to ancestors, so a stale one is followed by stale ones only. */
  lemma StaleAbove(prev: Blocks, chain: Blocks, d: nat, h: nat)
    requires Committed(prev, chain)
    requires d <= h < |prev| && h < |chain|
    requires prev[d].hash != chain[d].hash
    ensures prev[h].hash != chain[h].hash
  {}

  lemma ProbeExact(prev: Blocks, chain: Blocks, lo: nat, next: nat, overlap: nat, d: nat)
    requires Committed(prev, chain) && FirstDivergence(prev, chain, lo, next, d)
    requires lo <= overlap <= next
    ensures Probe(HashesOf(prev, lo, next), chain, overlap as int - 1) + 1 == if d < overlap then d else overlap
  {
    var stop := if d < overlap then d else overlap;
    forall h: nat | stop <= h < overlap
      ensures prev[h].hash != chain[h].hash
    {
      StaleAbove(prev, chain, d, h);
    }
    ProbeStops(HashesOf(prev, lo, next), chain, overlap as int - 1, stop as int - 1);
  }

  /** The rewind reaches exactly to the overlap or to the divergence, whichever is lower,
      if the recorded hashes are those of `prev` from a block at or below the overlap on. */
  lemma RewindExact(cfg: Config, cur: Cursor, prev: Blocks, chain: Blocks, lo: nat, d: nat)
    requires Committed(prev, chain) && FirstDivergence(prev, chain, lo, cur.nextBlock, d)
    requires cur.hashes == HashesOf(prev, lo, cur.nextBlock)
    requires lo <= cur.nextBlock - cfg.reorgBuffer || lo == 0
    ensures var overlap := if cur.nextBlock < cfg.reorgBuffer then 0 else cur.nextBlock - cfg.reorgBuffer;
            RewindPoint(cfg, cur, chain) == if d < overlap then d else overlap
  {
    ProbeExact(prev, chain, lo, cur.nextBlock, Max0(cur.nextBlock - cfg.reorgBuffer), d);
  }

  /** Below the divergence the two chains have scanned alike. */
  lemma CommonScan(cfg: Config, prev: Blocks, chain: Blocks, d: nat, from: nat)
    requires ValidView(cfg, Some(prev)) && Committed(prev, chain)
    requires Advances(cfg, ScanOf(cfg, Some(prev)), chain)
    requires FirstDivergence(prev, chain, Lowest(cfg), Head(cfg, prev) + 1, d)
    requires Lowest(cfg) <= from <= d
    ensures Canonical(prev, Lowest(cfg), from) == Canonical(chain, Lowest(cfg), from)
    ensures HashesOf(prev, Lowest(cfg), from) == HashesOf(chain, Lowest(cfg), from)
  {
    var lo := Lowest(cfg);
    if lo < from {
      assert prev[from - 1].hash == chain[from - 1].hash;
      assert prev[..from - 1 + 1] == chain[..from - 1 + 1];
      ScanOfPrefix(prev, chain, lo, from);
    }
  }

  lemma HashesSplit(chain: Blocks, lo: nat, mid: nat, hi: nat)
    requires lo <= mid <= hi <= |chain|
    ensures HashesBelow(HashesOf(chain, lo, hi), mid) == HashesOf(chain, lo, mid)
    ensures HashesOf(chain, lo, hi) == HashesOf(chain, lo, mid) + HashesOf(chain, mid, hi)
  {}

  /** What a cursor keeps below `from` is what a full scan finds there. */
  ghost predicate KeepsCanonical(cur: Cursor, chain: Blocks, lo: nat, from: nat)
    requires from <= |chain|
  {
    && lo <= from
    && Before(cur.events, from) == Canonical(chain, lo, from)
    && HashesBelow(cur.hashes, from) == HashesOf(chain, lo, from)
  }

  lemma RebuiltIsFullScan(cur: Cursor, chain: Blocks, lo: nat, from: nat, next: nat)
    requires from <= next <= |chain| && KeepsCanonical(cur, chain, lo, from)
    ensures Rebuilt(cur, chain, from, next) == FullScan(chain, lo, next)
  {
    CanonicalSplit(chain, lo, from, next);
    MergedScansAreCanonical(chain, from, next);
    HashesSplit(chain, lo, from, next);
  }

  lemma KeptAfterReorg(cfg: Config, prev: Blocks, chain: Blocks, d: nat, from: nat)
    requires ValidView(cfg, Some(prev)) && Committed(prev, chain)
    requires Advances(cfg, ScanOf(cfg, Some(prev)), chain)
    requires FirstDivergence(prev, chain, Lowest(cfg), Head(cfg, prev) + 1, d)
    requires Lowest(cfg) <= from <= d
    ensures KeepsCanonical(ScanOf(cfg, Some(prev)), chain, Lowest(cfg), from)
  {
    CommonScan(cfg, prev, chain, d, from);
    TruncatedScan(prev, Lowest(cfg), from, Head(cfg, prev) + 1);
    HashesSplit(prev, Lowest(cfg), from, Head(cfg, prev) + 1);
  }

  /** Below the rewind point nothing that is kept is stale, and nothing is missing. */
  lemma RewindIsSafe(cfg: Config, view: Option<Blocks>, chain: Blocks)
    requires ValidView(cfg, view)
    requires view.Some? ==> Committed(view.value, chain)
    requires Advances(cfg, ScanOf(cfg, view), chain)
    ensures KeepsCanonical(ScanOf(cfg, view), chain, Lowest(cfg), RewindPoint(cfg, ScanOf(cfg, view), chain))
  {
    var cur := ScanOf(cfg, view);
    if view.Some? {
      var d := DivergenceExists(view.value, chain, Lowest(cfg), Head(cfg, view.value) + 1, Lowest(cfg));
      RewindExact(cfg, cur, view.value, chain, Lowest(cfg), d);
      KeptAfterReorg(cfg, view.value, chain, d, RewindPoint(cfg, cur, chain));
    }
  }

  lemma PollIsRebuilt(cfg: Config, cur: Cursor, chain: Blocks, after: Cursor)
    requires Advances(cfg, cur, chain)
    requires after == Rebuilt(cur, chain, RewindPoint(cfg, cur, chain), Head(cfg, chain) + 1)
    ensures Poll(cfg, cur, chain).0 == after
  {}

  lemma RebuiltAfterRewind(cfg: Config, view: Option<Blocks>, chain: Blocks)
    requires ValidView(cfg, view)
    requires view.Some? ==> Committed(view.value, chain)
    requires Advances(cfg, ScanOf(cfg, view), chain)
    ensures Head(cfg, chain) >= cfg.startBlock
    ensures Rebuilt(ScanOf(cfg, view), chain, RewindPoint(cfg, ScanOf(cfg, view), chain), Head(cfg, chain) + 1)
         == ScanOf(cfg, Some(chain))
  {
    var from := RewindPoint(cfg, ScanOf(cfg, view), chain);
    RewindIsSafe(cfg, view, chain);
    RebuiltIsFullScan(ScanOf(cfg, view), chain, Lowest(cfg), from, Head(cfg, chain) + 1);
  }

  /** A completed poll leaves what a full scan of the present chain would find,
      however deep the reorganisation since the last one. */
  lemma PollIsFullScan(cfg: Config, view: Option<Blocks>, chain: Blocks)
    requires ValidView(cfg, view)
    requires view.Some? ==> Committed(view.value, chain)
    requires Advances(cfg, ScanOf(cfg, view), chain)
    ensures Head(cfg, chain) >= cfg.startBlock
    ensures Poll(cfg, ScanOf(cfg, view), chain).0 == ScanOf(cfg, Some(chain))
  {
    RebuiltAfterRewind(cfg, view, chain);
    PollIsRebuilt(cfg, ScanOf(cfg, view), chain, ScanOf(cfg, Some(chain)));
  }

  /** The number a completed poll returns is the number of membership events from
      its rewind point on. */
  lemma PollCounts(cfg: Config, cur: Cursor, chain: Blocks)
    requires Advances(cfg, cur, chain)
    ensures Poll(cfg, cur, chain).1 == |Canonical(chain, RewindPoint(cfg, cur, chain), Head(cfg, chain) + 1)|
  {
    ScanCount(chain, RewindPoint(cfg, cur, chain), Head(cfg, chain) + 1);
  }

  lemma ScanCount(chain: Blocks, lo: nat, hi: nat)
    requires lo <= hi <= |chain|
    ensures |Scans(chain, lo, hi, EVENT_KINDS)| == |Canonical(chain, lo, hi)|
  {
    MergedScansAreCanonical(chain, lo, hi);
    SortRearranges(EventAtMost, Scans(chain, lo, hi, EVENT_KINDS));
  }
}
