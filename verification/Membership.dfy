/** `MemberIndex` of gateway/src/basedai_gateway/indexer.py: per-brain member sets
    replayed from registry events, joined with announced endpoints. */
module Membership {
  import opened Sorting
  import opened Dictionaries

  /** A lower-cased address. */
  type Address = nat

  datatype Kind =
    | MinerRegistered | MinerDeregistered | ValidatorRegistered | ValidatorDeregistered
    | Unrelated

  datatype Event = Event(kind: Kind, brain: nat, address: Address, block: nat, logIndex: nat)

  datatype Endpoint = Endpoint(url: string, score: real, ts: int)

  datatype Index = Index(miners: map<nat, set<Address>>, validators: map<nat, set<Address>>,
                         endpoints: map<(nat, Address), Endpoint>)

  datatype Entry = Entry(address: Address, url: string, score: real)

  function EmptyIndex(): Index {
    Index(map[], map[], map[])
  }

  function MembersOf(sets: map<nat, set<Address>>, brain: nat): set<Address> {
    if brain in sets then sets[brain] else {}
  }

  function Apply(ix: Index, kind: Kind, brain: nat, address: Address): Index {
    match kind
    case MinerRegistered => ix.(miners := ix.miners[brain := MembersOf(ix.miners, brain) + {address}])
    case MinerDeregistered =>
      ix.(miners := ix.miners[brain := MembersOf(ix.miners, brain) - {address}],
          endpoints := ix.endpoints - {(brain, address)})
    case ValidatorRegistered => ix.(validators := ix.validators[brain := MembersOf(ix.validators, brain) + {address}])
    case ValidatorDeregistered => ix.(validators := ix.validators[brain := MembersOf(ix.validators, brain) - {address}])
    case Unrelated => ix
  }

  function Replay(ix: Index, events: seq<Event>): Index {
    if events == [] then ix
    else
      var e := events[|events| - 1];
      Apply(Replay(ix, events[..|events| - 1]), e.kind, e.brain, e.address)
  }

  /** The member sets are rebuilt from nothing; the endpoints are kept and replayed over. */
  function Replace(ix: Index, events: seq<Event>): Index {
    Replay(ix.(miners := map[], validators := map[]), events)
  }

  function Announced(ix: Index, brain: nat, address: Address, url: string, ts: int, score: real): Index {
    ix.(endpoints := ix.endpoints[(brain, address) := Endpoint(url, score, ts)])
  }

  function Scored(ix: Index, brain: nat, address: Address, score: real): Index {
    if (brain, address) in ix.endpoints
    then ix.(endpoints := ix.endpoints[(brain, address) := ix.endpoints[(brain, address)].(score := score)])
    else ix
  }

  /** Registered, announced, and not stale; a time-to-live of zero switches the age
      test off, as does asking without a time. */
  predicate Listable(ix: Index, ttl: int, brain: nat, now: Option<int>, address: Address) {
    && address in MembersOf(ix.miners, brain)
    && (brain, address) in ix.endpoints
    && !(now.Some? && ttl != 0 && now.value - ix.endpoints[(brain, address)].ts > ttl)
  }

  function EntryOf(ix: Index, brain: nat, address: Address): Entry
    requires (brain, address) in ix.endpoints
  {
    var ep := ix.endpoints[(brain, address)];
    Entry(address, ep.url, ep.score)
  }

  function ScoreAtLeast(a: Entry, b: Entry): bool {
    a.score >= b.score
  }

  class MemberIndex {
    var miners: map<nat, set<Address>>
    var validators: map<nat, set<Address>>
    var endpoints: map<(nat, Address), Endpoint>
    const ttl: int

    function Abs(): Index
      reads this
    {
      Index(miners, validators, endpoints)
    }

    constructor (ttl: int := 600)
      ensures this.ttl == ttl && Abs() == EmptyIndex()
    {
      this.ttl := ttl;
      miners, validators, endpoints := map[], map[], map[];
    }

    method ReplaceMembership(events: seq<Event>)
      modifies this
      ensures Abs() == Replace(old(Abs()), events)
    {
      miners, validators := map[], map[];
      ghost var start := Abs();
      for i := 0 to |events|
        invariant Abs() == Replay(start, events[..i])
      {
        assert events[..i + 1][..i] == events[..i];
        ApplyEvent(events[i].kind, events[i].brain, events[i].address);
      }
      assert events[..|events|] == events;
    }

    method ApplyEvent(kind: Kind, brain: nat, address: Address)
      modifies this
      ensures Abs() == Apply(old(Abs()), kind, brain, address)
    {
      match kind {
        case MinerRegistered =>
          miners := miners[brain := MembersOf(miners, brain) + {address}];
        case MinerDeregistered =>
          miners := miners[brain := MembersOf(miners, brain) - {address}];
          endpoints := endpoints - {(brain, address)};
        case ValidatorRegistered =>
          validators := validators[brain := MembersOf(validators, brain) + {address}];
        case ValidatorDeregistered =>
          validators := validators[brain := MembersOf(validators, brain) - {address}];
        case Unrelated =>
      }
    }

    method Announce(brain: nat, address: Address, url: string, ts: int, score: real)
      modifies this
      ensures Abs() == Announced(old(Abs()), brain, address, url, ts, score)
    {
      endpoints := endpoints[(brain, address) := Endpoint(url, score, ts)];
    }

    method SetScore(brain: nat, address: Address, score: real)
      modifies this
      ensures Abs() == Scored(old(Abs()), brain, address, score)
    {
      if (brain, address) in endpoints {
        endpoints := endpoints[(brain, address) := endpoints[(brain, address)].(score := score)];
      }
    }

    /** The set of members is visited in no particular order, so ties may come out
        in any order; everything else about the listing is determined. */
    method Miners(brain: nat, now: Option<int>) returns (out: seq<Entry>)
      ensures forall e :: e in out <==>
                Listable(Abs(), ttl, brain, now, e.address) && e == EntryOf(Abs(), brain, e.address)
      ensures forall i, j :: 0 <= i < j < |out| ==> out[i].address != out[j].address
      ensures forall i, j :: 0 <= i < j < |out| ==> out[i].score >= out[j].score
    {
      var rest := MembersOf(miners, brain);
      ghost var all := rest;
      var found: seq<Entry> := [];
      while rest != {}
        invariant rest <= all
        invariant forall e :: e in found <==>
                    && e.address in all - rest && Listable(Abs(), ttl, brain, now, e.address)
                    && e == EntryOf(Abs(), brain, e.address)
        invariant Distinct(found)
        decreases rest
      {
        var address :| address in rest;
        rest := rest - {address};
        if (brain, address) !in endpoints {
          continue;
        }
        var ep := endpoints[(brain, address)];
        if now.Some? && ttl != 0 && now.value - ep.ts > ttl {
          continue;
        }
        found := found + [Entry(address, ep.url, ep.score)];
      }
      out := Sort(ScoreAtLeast, found);
      SortOrdered(ScoreAtLeast, found);
      SortRearranges(ScoreAtLeast, found);
      ListedOnce(out, found);
      forall i, j | 0 <= i < j < |out|
        ensures out[i].score >= out[j].score
      {
        assert ScoreAtLeast(out[i], out[j]);
      }
      forall i, j | 0 <= i < j < |out|
        ensures out[i].address != out[j].address
      {
        assert out[i] in found && out[j] in found;
      }
    }
  }

  lemma ListedOnce<T>(out: seq<T>, found: seq<T>)
    requires multiset(out) == multiset(found) && Distinct(found)
    ensures Distinct(out)
  {
    forall i, j | 0 <= i < j < |out|
      ensures out[i] != out[j]
    {
      if out[i] == out[j] {
        RepeatedCount(out, i, j);
        DistinctCount(found, out[i]);
        assert false;
      }
    }
  }

  // ----- membership is the last word

  predicate Concerns(e: Event, kind: Kind, brain: nat, address: Address) {
    e.kind == kind && e.brain == brain && e.address == address
  }

  /** Event `i` is of `kind` and no later one is of kind `undo`. */
  ghost predicate Stands(events: seq<Event>, i: nat, kind: Kind, undo: Kind, brain: nat, address: Address) {
    i < |events| && Concerns(events[i], kind, brain, address)
    && forall j :: i < j < |events| ==> !Concerns(events[j], undo, brain, address)
  }

  /** Some event of `kind` about the member is not followed by one of `undo`. */
  ghost predicate LastWord(events: seq<Event>, kind: Kind, undo: Kind, brain: nat, address: Address) {
    exists i :: Stands(events, i, kind, undo, brain, address)
  }

  lemma StandsSnoc(events: seq<Event>, e: Event, i: nat, kind: Kind, undo: Kind, brain: nat, address: Address)
    requires i < |events|
    ensures Stands(events + [e], i, kind, undo, brain, address)
            <==> Stands(events, i, kind, undo, brain, address) && !Concerns(e, undo, brain, address)
  {
    var all := events + [e];
    assert forall j :: 0 <= j < |events| ==> all[j] == events[j];
    assert all[|events|] == e;
  }

  lemma LastWordSnoc(events: seq<Event>, e: Event, kind: Kind, undo: Kind, brain: nat, address: Address)
    requires kind != undo
    ensures LastWord(events + [e], kind, undo, brain, address)
            <==> Concerns(e, kind, brain, address)
                 || (LastWord(events, kind, undo, brain, address) && !Concerns(e, undo, brain, address))
  {
    var all := events + [e];
    if LastWord(all, kind, undo, brain, address) {
      var i: nat :| Stands(all, i, kind, undo, brain, address);
      if i < |events| {
        StandsSnoc(events, e, i, kind, undo, brain, address);
      }
    }
    if LastWord(events, kind, undo, brain, address) {
      var i: nat :| Stands(events, i, kind, undo, brain, address);
      StandsSnoc(events, e, i, kind, undo, brain, address);
    }
    if Concerns(e, kind, brain, address) {
      assert Stands(all, |events|, kind, undo, brain, address);
    }
  }

  /** After a rebuild an address is a member exactly when its last register or
      deregister event is a registration. */
  lemma {:induction false} MembershipExact(ix: Index, events: seq<Event>, brain: nat, address: Address)
    ensures address in MembersOf(Replace(ix, events).miners, brain)
            <==> LastWord(events, MinerRegistered, MinerDeregistered, brain, address)
    ensures address in MembersOf(Replace(ix, events).validators, brain)
            <==> LastWord(events, ValidatorRegistered, ValidatorDeregistered, brain, address)
  {
    if events != [] {
      var before, e := events[..|events| - 1], events[|events| - 1];
      assert events == before + [e];
      MembershipExact(ix, before, brain, address);
      LastWordSnoc(before, e, MinerRegistered, MinerDeregistered, brain, address);
      LastWordSnoc(before, e, ValidatorRegistered, ValidatorDeregistered, brain, address);
    }
  }

  /** The rebuilt member sets do not depend on what the index held before. */
  lemma {:induction false} MembersFromEventsOnly(a: Index, b: Index, events: seq<Event>)
    ensures Replace(a, events).miners == Replace(b, events).miners
    ensures Replace(a, events).validators == Replace(b, events).validators
  {
    if events != [] {
      MembersFromEventsOnly(a, b, events[..|events| - 1]);
    }
  }

  ghost predicate EverDeregistered(events: seq<Event>, brain: nat, address: Address) {
    exists e :: e in events && Concerns(e, MinerDeregistered, brain, address)
  }

  /** A rebuild keeps an endpoint exactly when the events hold no deregistration of
      that miner at all, not even one that a later registration made obsolete. */
  lemma {:induction false} EndpointSurvives(ix: Index, events: seq<Event>, brain: nat, address: Address)
    ensures (brain, address) in Replace(ix, events).endpoints
            <==> (brain, address) in ix.endpoints && !EverDeregistered(events, brain, address)
    ensures (brain, address) in Replace(ix, events).endpoints ==>
              Replace(ix, events).endpoints[(brain, address)] == ix.endpoints[(brain, address)]
  {
    if events != [] {
      var before, e := events[..|events| - 1], events[|events| - 1];
      assert events == before + [e];
      EndpointSurvives(ix, before, brain, address);
      assert EverDeregistered(events, brain, address)
             <==> EverDeregistered(before, brain, address) || Concerns(e, MinerDeregistered, brain, address) by {
        assert forall x :: x in events <==> x in before || x == e;
        assert e in events;
      }
      assert Replace(ix, events) == Apply(Replace(ix, before), e.kind, e.brain, e.address);
    }
  }
}
