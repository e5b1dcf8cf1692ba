/** Cursors that hold a scan of a chain with the events of some blocks missing.  A poll
    that raises while it queries logs leaves such a cursor behind; here is what polls
    make of it afterwards. */
module PartialScans {
  import opened Dictionaries
  import opened Membership
  import opened Chain
  import opened Poller

  /** The chain as of the last completed poll, if there was one, and the blocks whose
      events are not held. */
  datatype View = View(chain: Option<Blocks>, missing: set<nat>)

  function NextOf(cfg: Config, view: Option<Blocks>): int {
    match view
    case None => cfg.startBlock
    case Some(chain) => Head(cfg, chain) + 1
  }

  function CursorOf(cfg: Config, v: View): Cursor
    requires ValidView(cfg, v.chain)
  {
    Lacking(ScanOf(cfg, v.chain), v.missing)
  }

  function Lacking(cur: Cursor, missing: set<nat>): Cursor {
    cur.(events := Present(cur.events, missing))
  }

  lemma LackingNothing(cur: Cursor, missing: set<nat>)
    ensures Lacking(cur, missing) == cur <==> forall e :: e in cur.events ==> e.block !in missing
  {
    PresentIsAll(cur.events, missing);
  }

  function RewindOf(cfg: Config, v: View, chain: Blocks): nat
    requires ValidView(cfg, v.chain) && Advances(cfg, CursorOf(cfg, v), chain)
  {
    RewindPoint(cfg, ScanOf(cfg, v.chain), chain)
  }

  /** After a completed poll only blocks below its rewind point can be missing. */
  function PolledView(cfg: Config, v: View, chain: Blocks): View
    requires ValidView(cfg, v.chain) && Advances(cfg, CursorOf(cfg, v), chain)
  {
    View(Some(chain), Below(v.missing, RewindOf(cfg, v, chain)))
  }

  /** A poll that raises at its log queries loses all blocks from its rewind point on. */
  function AbortedView(cfg: Config, v: View, chain: Blocks): View
    requires ValidView(cfg, v.chain) && Advances(cfg, CursorOf(cfg, v), chain)
  {
    View(v.chain, v.missing + Span(RewindOf(cfg, v, chain), ScanOf(cfg, v.chain).nextBlock))
  }

  lemma ScanBlocks(cfg: Config, view: Option<Blocks>)
    requires ValidView(cfg, view)
    ensures forall i :: 0 <= i < |ScanOf(cfg, view).events| ==>
              Lowest(cfg) <= ScanOf(cfg, view).events[i].block < ScanOf(cfg, view).nextBlock
  {
    if view.Some? {
      CanonicalBlocks(view.value, Lowest(cfg), Head(cfg, view.value) + 1);
    }
  }

  lemma TruncatedLacking(cur: Cursor, missing: set<nat>, from: nat)
    requires forall i :: 0 <= i < |cur.events| ==> cur.events[i].block < cur.nextBlock
    ensures Lacking(cur, missing).(events := Before(Present(cur.events, missing), from))
         == Lacking(cur, missing + Span(from, cur.nextBlock))
  {
    TruncatedPresent(cur.events, missing, from, cur.nextBlock);
  }

  lemma SameRewind(cfg: Config, v: View, chain: Blocks)
    requires ValidView(cfg, v.chain) && Advances(cfg, CursorOf(cfg, v), chain)
    ensures RewindPoint(cfg, CursorOf(cfg, v), chain) == RewindOf(cfg, v, chain)
  {}

  lemma TruncatedAt(cfg: Config, cur: Cursor, missing: set<nat>, chain: Blocks, from: nat)
    requires forall i :: 0 <= i < |cur.events| ==> cur.events[i].block < cur.nextBlock
    requires cur.nextBlock <= |chain| && RewindPoint(cfg, Lacking(cur, missing), chain) == from
    ensures Truncated(cfg, Lacking(cur, missing), chain) == Lacking(cur, missing + Span(from, cur.nextBlock))
  {
    TruncatedLacking(cur, missing, from);
  }

  /** What a poll leaves that raises at its log queries. */
  lemma AbortOfView(cfg: Config, v: View, chain: Blocks)
    requires ValidView(cfg, v.chain) && Advances(cfg, CursorOf(cfg, v), chain)
    ensures Truncated(cfg, CursorOf(cfg, v), chain) == CursorOf(cfg, AbortedView(cfg, v, chain))
  {
    ScanBlocks(cfg, v.chain);
    SameRewind(cfg, v, chain);
    TruncatedAt(cfg, ScanOf(cfg, v.chain), v.missing, chain, RewindOf(cfg, v, chain));
  }

  /** Scanning again from `from` on makes up for the blocks missing from there on. */
  lemma RebuiltLacking(cur: Cursor, missing: set<nat>, chain: Blocks, lo: nat, from: nat, next: nat)
    requires from <= next <= |chain| && KeepsCanonical(cur, chain, lo, from)
    ensures Rebuilt(Lacking(cur, missing), chain, from, next)
         == Lacking(FullScan(chain, lo, next), Below(missing, from))
  {
    BeforeCommutes(cur.events, missing, from);
    MergedScansAreCanonical(chain, from, next);
    JoinedPresent(chain, lo, from, next, missing);
    HashesSplit(chain, lo, from, next);
  }

  lemma RebuiltView(cfg: Config, v: View, chain: Blocks)
    requires ValidView(cfg, v.chain) && Advances(cfg, CursorOf(cfg, v), chain)
    requires v.chain.Some? ==> Committed(v.chain.value, chain)
    ensures Head(cfg, chain) >= cfg.startBlock
    ensures Rebuilt(CursorOf(cfg, v), chain, RewindOf(cfg, v, chain), Head(cfg, chain) + 1)
         == CursorOf(cfg, PolledView(cfg, v, chain))
  {
    RewindIsSafe(cfg, v.chain, chain);
    RebuiltLacking(ScanOf(cfg, v.chain), v.missing, chain, Lowest(cfg), RewindOf(cfg, v, chain), Head(cfg, chain) + 1);
  }

  /** What a completed poll leaves, whatever blocks were missing before. */
  lemma PollOfView(cfg: Config, v: View, chain: Blocks)
    requires ValidView(cfg, v.chain) && Advances(cfg, CursorOf(cfg, v), chain)
    requires v.chain.Some? ==> Committed(v.chain.value, chain)
    ensures Head(cfg, chain) >= cfg.startBlock
    ensures Poll(cfg, CursorOf(cfg, v), chain).0 == CursorOf(cfg, PolledView(cfg, v, chain))
  {
    SameRewind(cfg, v, chain);
    RebuiltView(cfg, v, chain);
    PollIsRebuilt(cfg, CursorOf(cfg, v), chain, CursorOf(cfg, PolledView(cfg, v, chain)));
  }

  /** No membership event of the chain lies in a block that is missing and not scanned
      again. */
  ghost predicate LosesNothing(cfg: Config, v: View, chain: Blocks)
    requires ValidView(cfg, v.chain) && Advances(cfg, CursorOf(cfg, v), chain)
  {
    Head(cfg, chain) >= cfg.startBlock
    && forall e :: e in ScanOf(cfg, Some(chain)).events ==> e.block !in Below(v.missing, RewindOf(cfg, v, chain))
  }

  lemma LossExact(cfg: Config, v: View, chain: Blocks)
    requires ValidView(cfg, v.chain) && Advances(cfg, CursorOf(cfg, v), chain)
    requires Head(cfg, chain) >= cfg.startBlock
    ensures CursorOf(cfg, PolledView(cfg, v, chain)) == ScanOf(cfg, Some(chain)) <==> LosesNothing(cfg, v, chain)
  {
    LackingNothing(ScanOf(cfg, Some(chain)), Below(v.missing, RewindOf(cfg, v, chain)));
  }

  // ----- aborted polls that were lost track of from some height on

  lemma {:induction false} ProbeFloor(hashes: map<nat, Hash>, chain: Blocks, p: int, lo: nat)
    requires lo as int - 1 <= p < |chain|
    requires forall h :: h in hashes ==> lo <= h
    ensures Probe(hashes, chain, p) >= lo as int - 1
    decreases p + 1
  {
    if p >= 0 && p in hashes && chain[p].hash != hashes[p] {
      ProbeFloor(hashes, chain, p - 1, lo);
    }
  }

  lemma RewindAboveLowest(cfg: Config, v: View, chain: Blocks)
    requires ValidView(cfg, v.chain) && Advances(cfg, CursorOf(cfg, v), chain)
    ensures Lowest(cfg) <= RewindOf(cfg, v, chain) <= ScanOf(cfg, v.chain).nextBlock
  {
    var cur := ScanOf(cfg, v.chain);
    ProbeFloor(cur.hashes, chain, Max0(cur.nextBlock - cfg.reorgBuffer) as int - 1, Lowest(cfg));
  }

  lemma LossFrom(chain: Blocks, lo: nat, f: nat, g: nat, hi: nat, next: nat)
    requires lo <= f && g <= next && g <= hi <= |chain| && lo <= hi
    ensures (forall e :: e in Canonical(chain, lo, hi) ==> e.block !in Below(Span(f, next), g))
            <==> g <= f || Canonical(chain, f, g) == []
  {
    if f < g {
      SubScan(chain, lo, f, g, hi);
      if Canonical(chain, f, g) != [] {
        var e := Canonical(chain, f, g)[0];
        assert e in Canonical(chain, f, g);
        assert e in Canonical(chain, lo, hi) && e.block in Below(Span(f, next), g);
      } else {
        forall e | e in Canonical(chain, lo, hi)
          ensures e.block !in Below(Span(f, next), g)
        {
          assert e !in Canonical(chain, f, g);
        }
      }
    }
  }

  /** Whatever a chain has below `from` is held by a cursor that keeps what a full scan
      finds there. */
  lemma KeptWasHeld(cur: Cursor, chain: Blocks, lo: nat, from: nat, hi: nat)
    requires from <= hi <= |chain| && KeepsCanonical(cur, chain, lo, from)
    ensures forall e :: e in Canonical(chain, lo, hi) && e.block < from ==> e in cur.events
  {
    SubScan(chain, lo, lo, from, hi);
    CanonicalBlocks(chain, lo, hi);
    BeforeMembers(cur.events, from);
  }

  lemma KeptWasScanned(cfg: Config, v: View, chain: Blocks)
    requires ValidView(cfg, v.chain) && Advances(cfg, CursorOf(cfg, v), chain)
    requires v.chain.Some? ==> Committed(v.chain.value, chain)
    requires Head(cfg, chain) >= cfg.startBlock
    ensures forall e :: e in ScanOf(cfg, Some(chain)).events && e.block < RewindOf(cfg, v, chain) ==>
              e in ScanOf(cfg, v.chain).events
  {
    RewindIsSafe(cfg, v.chain, chain);
    KeptWasHeld(ScanOf(cfg, v.chain), chain, Lowest(cfg), RewindOf(cfg, v, chain), Head(cfg, chain) + 1);
  }

  lemma LossBesides(chain: Blocks, lo: nat, f: nat, g: nat, hi: nat, next: nat, older: set<nat>)
    requires lo <= f && g <= next && g <= hi <= |chain| && lo <= hi
    requires forall e :: e in Canonical(chain, lo, hi) && e.block < g ==> e.block !in older
    ensures (forall e :: e in Canonical(chain, lo, hi) ==> e.block !in Below(older + Span(f, next), g))
            <==> g <= f || Canonical(chain, f, g) == []
  {
    LossFrom(chain, lo, f, g, hi, next);
    forall e | e in Canonical(chain, lo, hi)
      ensures e.block in Below(older + Span(f, next), g) <==> e.block in Below(Span(f, next), g)
    {}
  }

  lemma OlderLossesStayHarmless(cfg: Config, v: View, chain: Blocks, older: set<nat>)
    requires ValidView(cfg, v.chain) && Advances(cfg, CursorOf(cfg, v), chain)
    requires v.chain.Some? ==> Committed(v.chain.value, chain)
    requires Lacking(ScanOf(cfg, v.chain), older) == ScanOf(cfg, v.chain)
    ensures Head(cfg, chain) >= cfg.startBlock
    ensures forall e :: e in ScanOf(cfg, Some(chain)).events && e.block < RewindOf(cfg, v, chain) ==> e.block !in older
  {
    KeptWasScanned(cfg, v, chain);
    LackingNothing(ScanOf(cfg, v.chain), older);
  }

  /** If the blocks missing besides those from `f` on held no event when they were
      scanned, nothing is lost exactly when the poll rewinds to `f` or below, or the
      chain has no membership event from `f` up to where it does rewind to. */
  lemma LossAfterAborts(cfg: Config, v: View, chain: Blocks, older: set<nat>, f: nat)
    requires ValidView(cfg, v.chain) && Advances(cfg, CursorOf(cfg, v), chain)
    requires v.chain.Some? ==> Committed(v.chain.value, chain)
    requires Lowest(cfg) <= f && v.missing == older + Span(f, ScanOf(cfg, v.chain).nextBlock)
    requires Lacking(ScanOf(cfg, v.chain), older) == ScanOf(cfg, v.chain)
    ensures Head(cfg, chain) >= cfg.startBlock && RewindOf(cfg, v, chain) <= |chain|
    ensures LosesNothing(cfg, v, chain)
            <==> RewindOf(cfg, v, chain) <= f || Canonical(chain, f, RewindOf(cfg, v, chain)) == []
  {
    RewindAboveLowest(cfg, v, chain);
    OlderLossesStayHarmless(cfg, v, chain, older);
    LossBesides(chain, Lowest(cfg), f, RewindOf(cfg, v, chain), Head(cfg, chain) + 1,
                ScanOf(cfg, v.chain).nextBlock, older);
  }

  lemma SubScan(chain: Blocks, lo: nat, f: nat, g: nat, hi: nat)
    requires lo <= f <= g <= hi <= |chain|
    ensures forall e :: e in Canonical(chain, f, g) <==> e in Canonical(chain, lo, hi) && f <= e.block < g
  {
    AllLogsSplit(chain, lo, f, hi);
    AllLogsSplit(chain, f, g, hi);
    AllLogsOrdered(chain, lo, f);
    AllLogsOrdered(chain, f, g);
    AllLogsOrdered(chain, g, hi);
    RelevantMembers(AllLogs(chain, f, g));
    RelevantMembers(AllLogs(chain, lo, hi));
  }
}
