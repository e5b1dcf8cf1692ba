/** What the gateway's poller sees of a chain, and the full scan that its
    incremental polling has to agree with. */
module Chain {
  import opened Sorting
  import opened Membership

  type Hash = nat

  /** A log's index is its position among all logs of its block; those that are not
      membership events of the registry are `Unrelated`. */
  datatype Log = Log(kind: Kind, brain: nat, address: Address)

  datatype Block = Block(hash: Hash, logs: seq<Log>)

  /** Block `n` is element `n`. */
  type Blocks = seq<Block>

  /** A block hash commits to the block and to all its ancestors. */
  ghost predicate Committed(a: Blocks, b: Blocks) {
    forall i :: 0 <= i < |a| && i < |b| && a[i].hash == b[i].hash ==> a[..i + 1] == b[..i + 1]
  }

  // ----- logs in chain order

  function BlockLogs(logs: seq<Log>, block: nat): seq<Event> {
    seq<Event>(|logs|, i requires 0 <= i < |logs| => Event(logs[i].kind, logs[i].brain, logs[i].address, block, i))
  }

  function AllLogs(chain: Blocks, lo: nat, hi: nat): seq<Event>
    requires lo <= hi <= |chain|
  {
    if lo == hi then [] else AllLogs(chain, lo, hi - 1) + BlockLogs(chain[hi - 1].logs, hi - 1)
  }

  function Relevant(events: seq<Event>): seq<Event> {
    if events == [] then []
    else
      var e := events[|events| - 1];
      Relevant(events[..|events| - 1]) + if e.kind != Unrelated then [e] else []
  }

  /** The membership events of blocks `lo` to `hi - 1`, in (block, log index) order. */
  function Canonical(chain: Blocks, lo: nat, hi: nat): seq<Event>
    requires lo <= hi <= |chain|
  {
    Relevant(AllLogs(chain, lo, hi))
  }

  function HashesOf(chain: Blocks, lo: nat, hi: nat): map<nat, Hash>
    requires lo <= hi <= |chain|
  {
    map b: nat | lo <= b < hi :: chain[b].hash
  }

  function Select(events: seq<Event>, kind: Kind): seq<Event> {
    if events == [] then []
    else
      var e := events[|events| - 1];
      Select(events[..|events| - 1], kind) + if e.kind == kind then [e] else []
  }

  /** The node's answer to a log query for one event name. */
  function GetLogs(chain: Blocks, lo: nat, hi: nat, kind: Kind): seq<Event>
    requires lo <= hi <= |chain|
  {
    Select(AllLogs(chain, lo, hi), kind)
  }

  const EVENT_KINDS: seq<Kind> := [MinerRegistered, MinerDeregistered, ValidatorRegistered, ValidatorDeregistered]

  /** The answers for several event names, one after the other. */
  function Scans(chain: Blocks, lo: nat, hi: nat, kinds: seq<Kind>): seq<Event>
    requires lo <= hi <= |chain|
  {
    if kinds == [] then []
    else Scans(chain, lo, hi, kinds[..|kinds| - 1]) + GetLogs(chain, lo, hi, kinds[|kinds| - 1])
  }

  function EventAtMost(a: Event, b: Event): bool {
    a.block < b.block || (a.block == b.block && a.logIndex <= b.logIndex)
  }

  function Before(events: seq<Event>, block: nat): seq<Event> {
    if events == [] then []
    else
      var e := events[|events| - 1];
      var rest := Before(events[..|events| - 1], block);
      if e.block < block then rest + [e] else rest
  }

  // ----- merging the four scans

  lemma {:induction false} AllLogsOrdered(chain: Blocks, lo: nat, hi: nat)
    requires lo <= hi <= |chain|
    ensures StrictlyOrdered(EventAtMost, AllLogs(chain, lo, hi))
    ensures forall e :: e in AllLogs(chain, lo, hi) ==> lo <= e.block < hi
  {
    if lo < hi {
      AllLogsOrdered(chain, lo, hi - 1);
      var before, last := AllLogs(chain, lo, hi - 1), BlockLogs(chain[hi - 1].logs, hi - 1);
      forall i, j | 0 <= i < j < |before + last|
        ensures EventAtMost((before + last)[i], (before + last)[j])
        ensures !EventAtMost((before + last)[j], (before + last)[i])
      {
        if i < |before| <= j {
          assert before[i] in before;
          assert (before + last)[j] == last[j - |before|];
        } else if j < |before| {
          assert (before + last)[i] == before[i] && (before + last)[j] == before[j];
        } else {
          assert (before + last)[i] == last[i - |before|] && (before + last)[j] == last[j - |before|];
        }
      }
    }
  }

  lemma {:induction false} RelevantMembers(events: seq<Event>)
    ensures forall e :: e in Relevant(events) <==> e in events && e.kind != Unrelated
  {
    if events != [] {
      var before, last := events[..|events| - 1], events[|events| - 1];
      assert events == before + [last];
      RelevantMembers(before);
    }
  }

  lemma {:induction false} RelevantOrdered(events: seq<Event>)
    requires StrictlyOrdered(EventAtMost, events)
    ensures StrictlyOrdered(EventAtMost, Relevant(events))
    ensures forall e :: e in Relevant(events) <==> e in events && e.kind != Unrelated
  {
    RelevantMembers(events);
    if events != [] {
      var before, last := events[..|events| - 1], events[|events| - 1];
      RelevantOrdered(before);
      forall i | 0 <= i < |Relevant(before)|
        ensures EventAtMost(Relevant(before)[i], last) && !EventAtMost(last, Relevant(before)[i])
      {
        PrecedesLast(events, Relevant(before)[i]);
      }
    }
  }

  lemma PrecedesLast(events: seq<Event>, e: Event)
    requires StrictlyOrdered(EventAtMost, events)
    requires events != [] && e in events[..|events| - 1]
    ensures EventAtMost(e, events[|events| - 1]) && !EventAtMost(events[|events| - 1], e)
  {}

  lemma {:induction false} FourKindsAreAll(events: seq<Event>)
    ensures multiset(Relevant(events))
         == multiset(Select(events, MinerRegistered)) + multiset(Select(events, MinerDeregistered))
            + multiset(Select(events, ValidatorRegistered)) + multiset(Select(events, ValidatorDeregistered))
  {
    if events != [] {
      FourKindsAreAll(events[..|events| - 1]);
    }
  }

  lemma ScansOfAllKinds(chain: Blocks, lo: nat, hi: nat)
    requires lo <= hi <= |chain|
    ensures Scans(chain, lo, hi, EVENT_KINDS)
         == GetLogs(chain, lo, hi, MinerRegistered) + GetLogs(chain, lo, hi, MinerDeregistered)
            + GetLogs(chain, lo, hi, ValidatorRegistered) + GetLogs(chain, lo, hi, ValidatorDeregistered)
  {
    var k := EVENT_KINDS;
    assert k[..3] == [MinerRegistered, MinerDeregistered, ValidatorRegistered];
    assert k[..3][..2] == [MinerRegistered, MinerDeregistered];
    assert k[..3][..2][..1] == [MinerRegistered];
    assert k[..3][..2][..1][..0] == [];
    assert Scans(chain, lo, hi, k[..3][..2][..1]) == GetLogs(chain, lo, hi, MinerRegistered);
    assert Scans(chain, lo, hi, k[..3][..2])
        == Scans(chain, lo, hi, k[..3][..2][..1]) + GetLogs(chain, lo, hi, MinerDeregistered);
    assert Scans(chain, lo, hi, k[..3])
        == Scans(chain, lo, hi, k[..3][..2]) + GetLogs(chain, lo, hi, ValidatorRegistered);
    assert Scans(chain, lo, hi, k) == Scans(chain, lo, hi, k[..3]) + GetLogs(chain, lo, hi, ValidatorDeregistered);
  }

  lemma EventOrder()
    ensures TotalPreorder(EventAtMost)
  {}

  /** Sorting the four per-name scans by (block, log index) reproduces the chain's own
      order of membership events. */
  lemma MergedScansAreCanonical(chain: Blocks, lo: nat, hi: nat)
    requires lo <= hi <= |chain|
    ensures Sort(EventAtMost, Scans(chain, lo, hi, EVENT_KINDS)) == Canonical(chain, lo, hi)
  {
    var scans := Scans(chain, lo, hi, EVENT_KINDS);
    EventOrder();
    SortOrdered(EventAtMost, scans);
    AllLogsOrdered(chain, lo, hi);
    RelevantOrdered(AllLogs(chain, lo, hi));
    FourKindsAreAll(AllLogs(chain, lo, hi));
    ScansOfAllKinds(chain, lo, hi);
    OrderedIsUnique(EventAtMost, Sort(EventAtMost, scans), Canonical(chain, lo, hi));
  }

  // ----- scanning in two parts

  lemma {:induction false} AllLogsSplit(chain: Blocks, lo: nat, mid: nat, hi: nat)
    requires lo <= mid <= hi <= |chain|
    ensures AllLogs(chain, lo, hi) == AllLogs(chain, lo, mid) + AllLogs(chain, mid, hi)
  {
    if mid < hi {
      AllLogsSplit(chain, lo, mid, hi - 1);
    }
  }

  lemma {:induction false} RelevantConcat(a: seq<Event>, b: seq<Event>)
    ensures Relevant(a + b) == Relevant(a) + Relevant(b)
  {
    if b == [] {
      assert a + b == a;
    } else {
      assert (a + b)[..|a + b| - 1] == a + b[..|b| - 1];
      RelevantConcat(a, b[..|b| - 1]);
    }
  }

  lemma CanonicalSplit(chain: Blocks, lo: nat, mid: nat, hi: nat)
    requires lo <= mid <= hi <= |chain|
    ensures Canonical(chain, lo, hi) == Canonical(chain, lo, mid) + Canonical(chain, mid, hi)
  {
    AllLogsSplit(chain, lo, mid, hi);
    RelevantConcat(AllLogs(chain, lo, mid), AllLogs(chain, mid, hi));
  }

  lemma {:induction false} BeforeMembers(events: seq<Event>, block: nat)
    ensures forall e :: e in Before(events, block) <==> e in events && e.block < block
  {
    if events != [] {
      var before, last := events[..|events| - 1], events[|events| - 1];
      assert events == before + [last];
      BeforeMembers(before, block);
    }
  }

  lemma {:induction false} BeforeAll(a: seq<Event>, block: nat)
    requires forall i :: 0 <= i < |a| ==> a[i].block < block
    ensures Before(a, block) == a
  {
    if a != [] {
      BeforeAll(a[..|a| - 1], block);
      assert a == a[..|a| - 1] + [a[|a| - 1]];
    }
  }

  lemma {:induction false} BeforeConcat(a: seq<Event>, b: seq<Event>, block: nat)
    requires forall i :: 0 <= i < |a| ==> a[i].block < block
    requires forall i :: 0 <= i < |b| ==> b[i].block >= block
    ensures Before(a + b, block) == a
  {
    if b == [] {
      BeforeAll(a, block);
      assert a + b == a;
    } else {
      var all := a + b;
      assert all[..|all| - 1] == a + b[..|b| - 1];
      BeforeConcat(a, b[..|b| - 1], block);
    }
  }

  /** Truncating a scan at a block leaves the scan up to that block. */
  lemma TruncatedScan(chain: Blocks, lo: nat, mid: nat, hi: nat)
    requires lo <= mid <= hi <= |chain|
    ensures Before(Canonical(chain, lo, hi), mid) == Canonical(chain, lo, mid)
  {
    CanonicalSplit(chain, lo, mid, hi);
    AllLogsOrdered(chain, lo, mid);
    AllLogsOrdered(chain, mid, hi);
    RelevantOrdered(AllLogs(chain, lo, mid));
    RelevantOrdered(AllLogs(chain, mid, hi));
    BeforeConcat(Canonical(chain, lo, mid), Canonical(chain, mid, hi), mid);
  }

  lemma {:induction false} ScanOfPrefix(a: Blocks, b: Blocks, lo: nat, hi: nat)
    requires lo <= hi <= |a| && hi <= |b| && a[..hi] == b[..hi]
    ensures AllLogs(a, lo, hi) == AllLogs(b, lo, hi)
  {
    if lo < hi {
      assert a[..hi][hi - 1] == b[..hi][hi - 1];
      assert a[..hi - 1] == a[..hi][..hi - 1] && b[..hi - 1] == b[..hi][..hi - 1];
      ScanOfPrefix(a, b, lo, hi - 1);
    }
  }

  // ----- scans with blocks missing

  /** The events outside the missing blocks. */
  function Present(events: seq<Event>, missing: set<nat>): seq<Event> {
    if events == [] then []
    else
      var e := events[|events| - 1];
      var rest := Present(events[..|events| - 1], missing);
      if e.block !in missing then rest + [e] else rest
  }

  lemma {:induction false} PresentConcat(a: seq<Event>, b: seq<Event>, missing: set<nat>)
    ensures Present(a + b, missing) == Present(a, missing) + Present(b, missing)
  {
    if b == [] {
      assert a + b == a;
    } else {
      assert (a + b)[..|a + b| - 1] == a + b[..|b| - 1];
      PresentConcat(a, b[..|b| - 1], missing);
    }
  }

  /** Only the blocks of the events matter. */
  lemma {:induction false} PresentAlike(events: seq<Event>, m: set<nat>, n: set<nat>)
    requires forall i :: 0 <= i < |events| ==> (events[i].block in m <==> events[i].block in n)
    ensures Present(events, m) == Present(events, n)
  {
    if events != [] {
      PresentAlike(events[..|events| - 1], m, n);
    }
  }

  lemma {:induction false} PresentMembers(events: seq<Event>, missing: set<nat>)
    ensures forall e :: e in Present(events, missing) <==> e in events && e.block !in missing
  {
    if events != [] {
      var before, last := events[..|events| - 1], events[|events| - 1];
      assert events == before + [last];
      PresentMembers(before, missing);
    }
  }

  /** Nothing is dropped exactly when no event lies in a missing block. */
  lemma {:induction false} PresentIsAll(events: seq<Event>, missing: set<nat>)
    ensures |Present(events, missing)| <= |events|
    ensures Present(events, missing) == events <==> forall e :: e in events ==> e.block !in missing
  {
    if events != [] {
      var before, last := events[..|events| - 1], events[|events| - 1];
      assert events == before + [last];
      PresentIsAll(before, missing);
      if last.block in missing {
        assert last in events;
      } else if Present(events, missing) == events {
        assert Present(before, missing) == events[..|events| - 1];
      }
    }
  }

  lemma BeforeSnoc(events: seq<Event>, e: Event, block: nat)
    ensures Before(events + [e], block)
         == if e.block < block then Before(events, block) + [e] else Before(events, block)
  {
    assert (events + [e])[..|events|] == events;
  }

  lemma PresentSnoc(events: seq<Event>, e: Event, missing: set<nat>)
    ensures Present(events + [e], missing)
         == if e.block !in missing then Present(events, missing) + [e] else Present(events, missing)
  {
    assert (events + [e])[..|events|] == events;
  }

  lemma {:induction false} BeforeCommutes(events: seq<Event>, missing: set<nat>, block: nat)
    ensures Before(Present(events, missing), block) == Present(Before(events, block), missing)
  {
    if events != [] {
      var before, last := events[..|events| - 1], events[|events| - 1];
      BeforeCommutes(before, missing, block);
      BeforeSnoc(Present(before, missing), last, block);
      PresentSnoc(Before(before, block), last, missing);
    }
  }

  /** The blocks from `lo` to `hi - 1`. */
  function Span(lo: nat, hi: nat): (r: set<nat>)
    ensures forall b :: b in r <==> lo <= b < hi
  {
    if lo < hi then Span(lo, hi - 1) + {hi - 1} else {}
  }

  /** Truncating drops the blocks from `block` on, besides those already missing. */
  lemma {:induction false} TruncatedPresent(events: seq<Event>, missing: set<nat>, block: nat, next: nat)
    requires forall i :: 0 <= i < |events| ==> events[i].block < next
    ensures Before(Present(events, missing), block) == Present(events, missing + Span(block, next))
  {
    if events != [] {
      var before, last := events[..|events| - 1], events[|events| - 1];
      TruncatedPresent(before, missing, block, next);
      BeforeSnoc(Present(before, missing), last, block);
    }
  }

  lemma CanonicalBlocks(chain: Blocks, lo: nat, hi: nat)
    requires lo <= hi <= |chain|
    ensures forall i :: 0 <= i < |Canonical(chain, lo, hi)| ==> lo <= Canonical(chain, lo, hi)[i].block < hi
  {
    AllLogsOrdered(chain, lo, hi);
    RelevantMembers(AllLogs(chain, lo, hi));
    forall i | 0 <= i < |Canonical(chain, lo, hi)|
      ensures lo <= Canonical(chain, lo, hi)[i].block < hi
    {
      assert Canonical(chain, lo, hi)[i] in AllLogs(chain, lo, hi);
    }
  }

  /** The events in `lo` to `mid - 1` lack the missing blocks, those from `mid` on lack
      none: together they lack the missing blocks below `mid`. */
  lemma JoinedPresent(chain: Blocks, lo: nat, mid: nat, hi: nat, missing: set<nat>)
    requires lo <= mid <= hi <= |chain|
    ensures Present(Canonical(chain, lo, mid), missing) + Canonical(chain, mid, hi)
         == Present(Canonical(chain, lo, hi), Below(missing, mid))
  {
    var front, back := Canonical(chain, lo, mid), Canonical(chain, mid, hi);
    CanonicalSplit(chain, lo, mid, hi);
    CanonicalBlocks(chain, lo, mid);
    CanonicalBlocks(chain, mid, hi);
    PresentConcat(front, back, Below(missing, mid));
    PresentAlike(front, missing, Below(missing, mid));
    PresentAlike(back, {}, Below(missing, mid));
    PresentIsAll(back, {});
  }

  function Below(missing: set<nat>, block: nat): set<nat> {
    set b | b in missing && b < block
  }
}
