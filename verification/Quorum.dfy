/** Stake-weighted quorums as both aggregators of
    validator/src/basedai_validator/aggregator.py compute them. */
module Quorum {
  import opened Sorting

  type Address = nat

  /** Strictly more than one half, in basis points. */
  const MIN_QUORUM_BPS: nat := 5001

  /** The two injected lookups, held fixed for the length of one call. */
  datatype Stakes = Stakes(of: (nat, Address) -> nat, total: nat -> nat)

  function Backing(stakes: Stakes, brain: nat, signers: seq<Address>): nat {
    if signers == [] then 0 else stakes.of(brain, signers[0]) + Backing(stakes, brain, signers[1..])
  }

  /** The share of `total` given by `bps`, rounded up. */
  function Need(total: nat, bps: nat): nat {
    (total * bps + 9999) / 10000
  }

  lemma NeedIsCeiling(total: nat, bps: nat, x: nat)
    ensures x >= Need(total, bps) <==> 10000 * x >= total * bps
  {}

  /** The total counts every address at least once. */
  ghost predicate TotalCovers(stakes: Stakes, brain: nat) {
    forall s: seq<Address> :: Distinct(s) ==> Backing(stakes, brain, s) <= stakes.total(brain)
  }

  function Common(a: seq<Address>, b: seq<Address>): (r: seq<Address>)
    ensures forall x :: x in r <==> x in a && x in b
  {
    if a == [] then []
    else if a[0] in b then [a[0]] + Common(a[1..], b)
    else Common(a[1..], b)
  }

  function Without(a: seq<Address>, b: seq<Address>): (r: seq<Address>)
    ensures forall x :: x in r <==> x in a && x !in b
  {
    if a == [] then []
    else if a[0] in b then Without(a[1..], b)
    else [a[0]] + Without(a[1..], b)
  }

  lemma {:induction false} BackingConcat(stakes: Stakes, brain: nat, a: seq<Address>, b: seq<Address>)
    ensures Backing(stakes, brain, a + b) == Backing(stakes, brain, a) + Backing(stakes, brain, b)
  {
    if a == [] {
      assert a + b == b;
    } else {
      assert (a + b)[1..] == a[1..] + b;
      BackingConcat(stakes, brain, a[1..], b);
    }
  }

  lemma BackingOfOne(stakes: Stakes, brain: nat, a: Address)
    ensures Backing(stakes, brain, [a]) == stakes.of(brain, a)
  {
    assert [a][1..] == [] && Backing(stakes, brain, []) == 0;
  }

  lemma {:induction false} BackingSplit(stakes: Stakes, brain: nat, a: seq<Address>, b: seq<Address>)
    ensures Backing(stakes, brain, a) == Backing(stakes, brain, Common(a, b)) + Backing(stakes, brain, Without(a, b))
  {
    if a != [] {
      BackingSplit(stakes, brain, a[1..], b);
      if a[0] in b {
        assert Common(a, b)[1..] == Common(a[1..], b);
      } else {
        assert Without(a, b)[1..] == Without(a[1..], b);
      }
    }
  }

  lemma {:induction false} FilterDistinct(a: seq<Address>, b: seq<Address>)
    requires Distinct(a)
    ensures Distinct(Common(a, b)) && Distinct(Without(a, b))
  {
    if a != [] {
      FilterDistinct(a[1..], b);
      assert a == [a[0]] + a[1..];
      DistinctCons(a[0], a[1..]);
      DistinctCons(a[0], Common(a[1..], b));
      DistinctCons(a[0], Without(a[1..], b));
    }
  }

  lemma {:induction false} BackingByMultiset(stakes: Stakes, brain: nat, a: seq<Address>, b: seq<Address>)
    requires multiset(a) == multiset(b)
    ensures Backing(stakes, brain, a) == Backing(stakes, brain, b)
  {
    SameElements(a, b);
    if a != [] {
      var front, back := MatchHead(a, b);
      BackingConcat(stakes, brain, front, [a[0]] + back);
      BackingConcat(stakes, brain, front, back);
      assert ([a[0]] + back)[1..] == back;
      BackingByMultiset(stakes, brain, a[1..], front + back);
    }
  }

  lemma CommonBacking(stakes: Stakes, brain: nat, a: seq<Address>, b: seq<Address>)
    requires Distinct(a) && Distinct(b)
    ensures Backing(stakes, brain, Common(a, b)) == Backing(stakes, brain, Common(b, a))
    ensures Backing(stakes, brain, Common(a, b)) <= Backing(stakes, brain, b)
  {
    var x, y := Common(a, b), Common(b, a);
    FilterDistinct(a, b);
    FilterDistinct(b, a);
    forall d
      ensures multiset(x)[d] == multiset(y)[d]
    {
      DistinctCount(x, d);
      DistinctCount(y, d);
      assert d in x <==> d in y;
    }
    BackingByMultiset(stakes, brain, x, y);
    BackingSplit(stakes, brain, b, a);
  }

  /** Two quorums above one half of the total have signers in common whose joint
      stake is at least `2 * need - total`, which is positive. */
  lemma Intersection(stakes: Stakes, brain: nat, bps: nat, a: seq<Address>, b: seq<Address>)
    requires bps > 5000 && stakes.total(brain) > 0 && TotalCovers(stakes, brain)
    requires Distinct(a) && Distinct(b)
    requires Backing(stakes, brain, a) >= Need(stakes.total(brain), bps)
    requires Backing(stakes, brain, b) >= Need(stakes.total(brain), bps)
    ensures Backing(stakes, brain, Common(a, b)) >= 2 * Need(stakes.total(brain), bps) - stakes.total(brain) > 0
  {
    var rest := Without(a, b);
    FilterDistinct(a, b);
    BackingSplit(stakes, brain, a, b);
    BackingConcat(stakes, brain, rest, b);
    DistinctConcat(rest, b);
    MajorityNeed(stakes.total(brain), bps);
  }

  lemma FullStakeMeetsNeed(total: nat, bps: nat)
    requires bps <= 10000
    ensures total >= Need(total, bps)
  {}

  lemma MajorityNeed(total: nat, bps: nat)
    requires bps > 5000 && total > 0
    ensures 2 * Need(total, bps) > total
  {}
}
