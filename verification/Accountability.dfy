/** What quorums of `CommitmentAggregator` prove about their signers.  Signatures are
    filed by the text of a root but recovered from its bytes, so one root may be on
    file under several texts. */
module Accountability {
  import opened Sorting
  import opened Dictionaries
  import opened Quorum
  import opened RootText
  import opened Aggregator

  type Root = seq<Byte>

  /** An accepted submission of a signature of a root, given in whatever form. */
  ghost predicate SignsBytes(cfg: Config, op: Op, epoch: nat, brain: nat, root: Root, signer: Address) {
    && op.Add? && op.epoch == epoch && op.brain == brain && op.signer == signer
    && AsRootBytes(op.root) == Some(root)
    && RecoveredSigner(cfg, epoch, brain, op.root, op.signature) == Some(signer)
  }

  ghost predicate HasSigned(cfg: Config, ops: seq<Op>, epoch: nat, brain: nat, root: Root, signer: Address) {
    exists op :: op in ops && SignsBytes(cfg, op, epoch, brain, root, signer)
  }

  ghost predicate HasSignedTwo(cfg: Config, ops: seq<Op>, epoch: nat, brain: nat, signer: Address) {
    exists x, y :: && x != y && HasSigned(cfg, ops, epoch, brain, x, signer)
                   && HasSigned(cfg, ops, epoch, brain, y, signer)
  }

  // ----- the signers of a root over all its texts

  predicate TextOf(text: string, root: Root) {
    AsRootBytes(Text(text)) == Some(root)
  }

  /** Those of the texts that stand for the root. */
  function Matching(texts: seq<string>, root: Root): (r: seq<string>)
    ensures forall t :: t in r <==> t in texts && TextOf(t, root)
  {
    if texts == [] then []
    else if TextOf(texts[0], root) then [texts[0]] + Matching(texts[1..], root)
    else Matching(texts[1..], root)
  }

  function Forms(st: State, epoch: nat, brain: nat, root: Root): seq<string> {
    Matching(RootsOf(Keys(st.pending), epoch, brain), root)
  }

  function FormSigners(st: State, epoch: nat, brain: nat, text: string): seq<Address> {
    Keys(SignersOf(st, Key(epoch, brain, text)))
  }

  /** All who signed some of the texts, each once. */
  function JointSigners(st: State, epoch: nat, brain: nat, texts: seq<string>): (r: seq<Address>)
    ensures forall a :: a in r <==> exists t :: t in texts && a in FormSigners(st, epoch, brain, t)
  {
    if texts == [] then []
    else
      var rest, first := JointSigners(st, epoch, brain, texts[1..]), FormSigners(st, epoch, brain, texts[0]);
      assert texts == [texts[0]] + texts[1..];
      rest + Without(first, rest)
  }

  function RootSigners(st: State, epoch: nat, brain: nat, root: Root): seq<Address> {
    JointSigners(st, epoch, brain, Forms(st, epoch, brain, root))
  }

  predicate RootQuorum(cfg: Config, st: State, stakes: Stakes, epoch: nat, brain: nat, root: Root) {
    var total := stakes.total(brain);
    total != 0 && Backing(stakes, brain, RootSigners(st, epoch, brain, root)) >= Need(total, cfg.minQuorumBps)
  }

  lemma FormSignersDistinct(cfg: Config, st: State, epoch: nat, brain: nat, text: string)
    requires Valid(cfg, st)
    ensures Distinct(FormSigners(st, epoch, brain, text))
  {}

  lemma {:induction false} JointSignersDistinct(cfg: Config, st: State, epoch: nat, brain: nat, texts: seq<string>)
    requires Valid(cfg, st)
    ensures Distinct(JointSigners(st, epoch, brain, texts))
  {
    if texts != [] {
      var rest, first := JointSigners(st, epoch, brain, texts[1..]), FormSigners(st, epoch, brain, texts[0]);
      JointSignersDistinct(cfg, st, epoch, brain, texts[1..]);
      FormSignersDistinct(cfg, st, epoch, brain, texts[0]);
      FilterDistinct(first, rest);
      DistinctConcat(rest, Without(first, rest));
    }
  }

  lemma SignedUnderText(cfg: Config, op: Op, epoch: nat, brain: nat, root: Root, signer: Address)
    ensures SignsBytes(cfg, op, epoch, brain, root, signer)
            <==> op.Add? && TextOf(Normalized(op.root), root)
                 && Signs(cfg, op, Key(epoch, brain, Normalized(op.root)), signer)
  {
    if op.Add? && AsRootBytes(op.root).Some? {
      NormalizedKeepsBytes(op.root);
    }
  }

  /** In every run the signers of a root, over all its texts, are exactly those of whom
      some submission carried a signature of its bytes. */
  lemma RootSignersExact(cfg: Config, ops: seq<Op>, epoch: nat, brain: nat, root: Root, signer: Address)
    ensures signer in RootSigners(Run(cfg, ops).st, epoch, brain, root)
            <==> HasSigned(cfg, ops, epoch, brain, root, signer)
  {
    var st := Run(cfg, ops).st;
    if signer in RootSigners(st, epoch, brain, root) {
      var t :| t in Forms(st, epoch, brain, root) && signer in FormSigners(st, epoch, brain, t);
      FiledExactlyIfSigned(cfg, ops, Key(epoch, brain, t), signer);
      var op :| op in ops && Signs(cfg, op, Key(epoch, brain, t), signer);
      SignedUnderText(cfg, op, epoch, brain, root, signer);
    }
    if op :| op in ops && SignsBytes(cfg, op, epoch, brain, root, signer) {
      var t := Normalized(op.root);
      SignedUnderText(cfg, op, epoch, brain, root, signer);
      FiledExactlyIfSigned(cfg, ops, Key(epoch, brain, t), signer);
      assert signer in FormSigners(st, epoch, brain, t);
      assert t in Forms(st, epoch, brain, root);
    }
  }

  // ----- at most one quorum

  lemma SignedStays(cfg: Config, ops: seq<Op>, more: seq<Op>, epoch: nat, brain: nat, root: Root, signer: Address)
    requires HasSigned(cfg, ops, epoch, brain, root, signer)
    ensures HasSigned(cfg, ops + more, epoch, brain, root, signer)
  {
    var op :| op in ops && SignsBytes(cfg, op, epoch, brain, root, signer);
    assert op in ops + more;
  }

  lemma RootSignersDistinct(cfg: Config, ops: seq<Op>, epoch: nat, brain: nat, root: Root)
    ensures Distinct(RootSigners(Run(cfg, ops).st, epoch, brain, root))
  {
    ReachableIsValid(cfg, ops);
    JointSignersDistinct(cfg, Run(cfg, ops).st, epoch, brain, Forms(Run(cfg, ops).st, epoch, brain, root));
  }

  /** Two different roots of one (epoch, brain) that have a majority quorum, at whatever
      two moments of a run, were both signed by signers whose joint stake is at least
      `2 * need - total`. */
  lemma TwoQuorumsShareSigners(cfg: Config, ops: seq<Op>, more: seq<Op>, stakes: Stakes, epoch: nat, brain: nat,
                               x: Root, y: Root)
      returns (both: seq<Address>)
    requires cfg.minQuorumBps > 5000 && TotalCovers(stakes, brain) && x != y
    requires RootQuorum(cfg, Run(cfg, ops).st, stakes, epoch, brain, x)
    requires RootQuorum(cfg, Run(cfg, ops + more).st, stakes, epoch, brain, y)
    ensures Distinct(both)
    ensures Backing(stakes, brain, both) >= 2 * Need(stakes.total(brain), cfg.minQuorumBps) - stakes.total(brain) > 0
    ensures forall a :: a in both ==> HasSignedTwo(cfg, ops + more, epoch, brain, a)
  {
    var s, t := RootSigners(Run(cfg, ops).st, epoch, brain, x), RootSigners(Run(cfg, ops + more).st, epoch, brain, y);
    RootSignersDistinct(cfg, ops, epoch, brain, x);
    RootSignersDistinct(cfg, ops + more, epoch, brain, y);
    Intersection(stakes, brain, cfg.minQuorumBps, s, t);
    FilterDistinct(s, t);
    both := Common(s, t);
    forall a | a in both
      ensures HasSignedTwo(cfg, ops + more, epoch, brain, a)
    {
      RootSignersExact(cfg, ops, epoch, brain, x, a);
      RootSignersExact(cfg, ops + more, epoch, brain, y, a);
      SignedStays(cfg, ops, more, epoch, brain, x, a);
    }
  }

  lemma SomeDoubleSigner(cfg: Config, ops: seq<Op>, more: seq<Op>, stakes: Stakes, epoch: nat, brain: nat,
                         x: Root, y: Root)
      returns (a: Address)
    requires cfg.minQuorumBps > 5000 && TotalCovers(stakes, brain) && x != y
    requires RootQuorum(cfg, Run(cfg, ops).st, stakes, epoch, brain, x)
    requires RootQuorum(cfg, Run(cfg, ops + more).st, stakes, epoch, brain, y)
    ensures HasSignedTwo(cfg, ops + more, epoch, brain, a)
  {
    var both := TwoQuorumsShareSigners(cfg, ops, more, stakes, epoch, brain, x, y);
    a := both[0];
  }

  /** If nobody signs two roots of an (epoch, brain), one root at most ever has a quorum
      under the given stakes. */
  lemma OneQuorumWithoutDoubleSigning(cfg: Config, ops: seq<Op>, more: seq<Op>, stakes: Stakes, epoch: nat, brain: nat,
                                      x: Root, y: Root)
    requires cfg.minQuorumBps > 5000 && TotalCovers(stakes, brain)
    requires RootQuorum(cfg, Run(cfg, ops).st, stakes, epoch, brain, x)
    requires RootQuorum(cfg, Run(cfg, ops + more).st, stakes, epoch, brain, y)
    requires forall a :: !HasSignedTwo(cfg, ops + more, epoch, brain, a)
    ensures x == y
  {
    if x != y {
      var a := SomeDoubleSigner(cfg, ops, more, stakes, epoch, brain, x, y);
    }
  }

  ghost predicate SignersSigned(cfg: Config, ops: seq<Op>, c: Call) {
    && AsRootBytes(Text(c.root)).Some?
    && forall a :: a in c.signers ==> HasSigned(cfg, ops, c.epoch, c.brain, AsRootBytes(Text(c.root)).value, a)
  }

  lemma ProposedSignersSigned(cfg: Config, ops: seq<Op>, op: Op)
    requires op.Propose?
    requires ProposeStep(cfg, Run(cfg, ops).st, op.stakes, op.epoch, op.brain, op.outcome).2.Some?
    ensures var st := Run(cfg, ops).st;
            SignersSigned(cfg, ops, ProposeStep(cfg, st, op.stakes, op.epoch, op.brain, op.outcome).2.value)
  {
    var st := Run(cfg, ops).st;
    var c := ProposeStep(cfg, st, op.stakes, op.epoch, op.brain, op.outcome).2.value;
    ProposeTriesBest(cfg, st, op.stakes, op.epoch, op.brain, op.outcome);
    ReachableIsValid(cfg, ops);
    FiledRootIsReadable(cfg, st, Key(c.epoch, c.brain, c.root));
    var root := AsRootBytes(Text(c.root)).value;
    assert c.root in Forms(st, c.epoch, c.brain, root);
    forall a | a in c.signers
      ensures HasSigned(cfg, ops, c.epoch, c.brain, root, a)
    {
      assert a in FormSigners(st, c.epoch, c.brain, c.root);
      RootSignersExact(cfg, ops, c.epoch, c.brain, root, a);
    }
  }

  lemma CallStaysSigned(cfg: Config, ops: seq<Op>, op: Op, c: Call)
    requires SignersSigned(cfg, ops, c)
    ensures SignersSigned(cfg, ops + [op], c)
  {
    forall a | a in c.signers
      ensures HasSigned(cfg, ops + [op], c.epoch, c.brain, AsRootBytes(Text(c.root)).value, a)
    {
      SignedStays(cfg, ops, [op], c.epoch, c.brain, AsRootBytes(Text(c.root)).value, a);
    }
  }

  lemma {:induction false} CallsAreSigned(cfg: Config, ops: seq<Op>)
    ensures forall c :: c in Run(cfg, ops).calls ==> SignersSigned(cfg, ops, c)
  {
    if ops != [] {
      var before, op := ops[..|ops| - 1], ops[|ops| - 1];
      assert ops == before + [op];
      CallsAreSigned(cfg, before);
      forall c | c in Run(cfg, ops).calls
        ensures SignersSigned(cfg, ops, c)
      {
        if c !in Run(cfg, before).calls {
          ProposedSignersSigned(cfg, before, op);
        }
        CallStaysSigned(cfg, before, op, c);
      }
    }
  }

  lemma CallsShareSigner(cfg: Config, c: Call, d: Call) returns (a: Address)
    requires cfg.minQuorumBps > 5000 && SoundCall(cfg, c) && SoundCall(cfg, d)
    requires c.brain == d.brain && c.stakes == d.stakes && TotalCovers(c.stakes, c.brain)
    ensures a in c.signers && a in d.signers
  {
    Intersection(c.stakes, c.brain, cfg.minQuorumBps, c.signers, d.signers);
    a := Common(c.signers, d.signers)[0];
  }

  lemma SignedOne(cfg: Config, ops: seq<Op>, epoch: nat, brain: nat, x: Root, y: Root, signer: Address)
    requires HasSigned(cfg, ops, epoch, brain, x, signer) && HasSigned(cfg, ops, epoch, brain, y, signer)
    requires !HasSignedTwo(cfg, ops, epoch, brain, signer)
    ensures x == y
  {}

  lemma CallSigner(cfg: Config, ops: seq<Op>, c: Call, a: Address)
    requires c in Run(cfg, ops).calls && a in c.signers
    ensures AsRootBytes(Text(c.root)).Some?
    ensures HasSigned(cfg, ops, c.epoch, c.brain, AsRootBytes(Text(c.root)).value, a)
  {
    CallsAreSigned(cfg, ops);
    assert SignersSigned(cfg, ops, c);
  }

  /** If nobody signs two roots of an (epoch, brain), all submissions of a run for it under
      the same stakes, those that raise included, are of one root. */
  lemma SubmissionsAgree(cfg: Config, ops: seq<Op>, c: Call, d: Call)
    requires cfg.minQuorumBps > 5000 && c in Run(cfg, ops).calls && d in Run(cfg, ops).calls
    requires c.epoch == d.epoch && c.brain == d.brain && c.stakes == d.stakes && TotalCovers(c.stakes, c.brain)
    requires forall a :: !HasSignedTwo(cfg, ops, c.epoch, c.brain, a)
    ensures AsRootBytes(Text(c.root)).Some? && AsRootBytes(Text(c.root)) == AsRootBytes(Text(d.root))
  {
    EveryCallIsSound(cfg, ops);
    var a := CallsShareSigner(cfg, c, d);
    CallSigner(cfg, ops, c, a);
    CallSigner(cfg, ops, d, a);
    SignedOne(cfg, ops, c.epoch, c.brain, AsRootBytes(Text(c.root)).value, AsRootBytes(Text(d.root)).value, a);
  }

  // ----- who signs two roots

  /** A validator submits its own candidate root with a signature of the very digest that
      commitments carry.  Filed as a commitment that signature is accepted, so a validator
      that then signs another root, the canonical one, has signed two. */
  lemma CandidateSignatureCounts(cfg: Config, epoch: nat, brain: nat, signer: Address,
                                 candidate: Root, sigA: string, canonical: Root, sigB: string)
    requires candidate != canonical && |candidate| == |canonical| == 32
    requires cfg.recover(epoch, brain, candidate, sigA) == Some(signer)
    requires cfg.recover(epoch, brain, canonical, sigB) == Some(signer)
    ensures var a, b := Add(epoch, brain, Text("0x" + ToHex(candidate)), signer, sigA),
                        Add(epoch, brain, Text("0x" + ToHex(canonical)), signer, sigB);
            && AddStep(cfg, Initial(), epoch, brain, a.root, signer, sigA).0.Stored?
            && HasSignedTwo(cfg, [a, b], epoch, brain, signer)
  {
    var a, b := Add(epoch, brain, Text("0x" + ToHex(candidate)), signer, sigA),
                Add(epoch, brain, Text("0x" + ToHex(canonical)), signer, sigB);
    WrittenRoot(candidate);
    WrittenRoot(canonical);
    assert a in [a, b] && SignsBytes(cfg, a, epoch, brain, candidate, signer);
    assert b in [a, b] && SignsBytes(cfg, b, epoch, brain, canonical, signer);
    assert HasSigned(cfg, [a, b], epoch, brain, candidate, signer);
    assert HasSigned(cfg, [a, b], epoch, brain, canonical, signer);
  }

  lemma WrittenRoot(root: Root)
    requires |root| == 32
    ensures TextOf("0x" + ToHex(root), root)
  {
    HexRoundTrip(root);
    PrefixedIsRead(ToHex(root), root);
  }

  // ----- one root under several texts

  /** The signers of a root's texts are counted apart: the joint stake has to exceed the
      quorum by what did not sign this text. */
  predicate QuorumInForm(cfg: Config, st: State, stakes: Stakes, epoch: nat, brain: nat, text: string, root: Root) {
    var all, total := RootSigners(st, epoch, brain, root), stakes.total(brain);
    && total != 0
    && Backing(stakes, brain, all)
       >= Need(total, cfg.minQuorumBps) + Backing(stakes, brain, Without(all, FormSigners(st, epoch, brain, text)))
  }

  lemma PartBacking(stakes: Stakes, brain: nat, all: seq<Address>, part: seq<Address>)
    requires Distinct(all) && Distinct(part) && forall a :: a in part ==> a in all
    ensures Backing(stakes, brain, all) == Backing(stakes, brain, part) + Backing(stakes, brain, Without(all, part))
  {
    BackingSplit(stakes, brain, all, part);
    CommonBacking(stakes, brain, all, part);
    BackingSplit(stakes, brain, part, all);
    NothingWithout(part, all);
  }

  lemma NothingWithout(a: seq<Address>, b: seq<Address>)
    requires forall x :: x in a ==> x in b
    ensures Without(a, b) == []
  {
    if Without(a, b) != [] {
      assert Without(a, b)[0] in Without(a, b);
    }
  }

  lemma FormIsPart(st: State, epoch: nat, brain: nat, text: string, root: Root)
    requires TextOf(text, root)
    ensures forall a :: a in FormSigners(st, epoch, brain, text) ==> a in RootSigners(st, epoch, brain, root)
  {
    if FormSigners(st, epoch, brain, text) != [] {
      assert text in Forms(st, epoch, brain, root);
    }
  }

  lemma FormBacking(cfg: Config, st: State, stakes: Stakes, epoch: nat, brain: nat, text: string, root: Root)
    requires Valid(cfg, st) && TextOf(text, root)
    ensures var all, form := RootSigners(st, epoch, brain, root), FormSigners(st, epoch, brain, text);
            Backing(stakes, brain, all) == Backing(stakes, brain, form) + Backing(stakes, brain, Without(all, form))
  {
    FormSignersDistinct(cfg, st, epoch, brain, text);
    JointSignersDistinct(cfg, st, epoch, brain, Forms(st, epoch, brain, root));
    FormIsPart(st, epoch, brain, text, root);
    PartBacking(stakes, brain, RootSigners(st, epoch, brain, root), FormSigners(st, epoch, brain, text));
  }

  /** A text of a root has a quorum exactly if the joint stake of all the root's signers
      exceeds the quorum by that of those who did not sign this text. */
  lemma QuorumInFormExact(cfg: Config, st: State, stakes: Stakes, epoch: nat, brain: nat, text: string, root: Root)
    requires Valid(cfg, st) && TextOf(text, root)
    ensures QuorumMet(cfg, st, stakes, Key(epoch, brain, text))
            <==> QuorumInForm(cfg, st, stakes, epoch, brain, text, root)
  {
    FormBacking(cfg, st, stakes, epoch, brain, text, root);
  }

  /** What quorates as a text quorates as a root. */
  lemma TextQuorumIsRootQuorum(cfg: Config, st: State, stakes: Stakes, epoch: nat, brain: nat, text: string, root: Root)
    requires Valid(cfg, st) && TextOf(text, root) && QuorumMet(cfg, st, stakes, Key(epoch, brain, text))
    ensures RootQuorum(cfg, st, stakes, epoch, brain, root)
  {
    FormBacking(cfg, st, stakes, epoch, brain, text, root);
  }

  ghost predicate SomeFormQuorates(cfg: Config, st: State, stakes: Stakes, epoch: nat, brain: nat) {
    exists text, root :: text in Forms(st, epoch, brain, root)
                         && QuorumInForm(cfg, st, stakes, epoch, brain, text, root)
  }

  lemma SomeQuorumIsInForm(cfg: Config, st: State, stakes: Stakes, epoch: nat, brain: nat)
    requires Valid(cfg, st)
    ensures SomeQuorum(cfg, st, stakes, epoch, brain) <==> SomeFormQuorates(cfg, st, stakes, epoch, brain)
  {
    if t :| Key(epoch, brain, t) in Keys(st.pending) && QuorumMet(cfg, st, stakes, Key(epoch, brain, t)) {
      FiledRootIsReadable(cfg, st, Key(epoch, brain, t));
      var root := AsRootBytes(Text(t)).value;
      QuorumInFormExact(cfg, st, stakes, epoch, brain, t, root);
      assert t in Forms(st, epoch, brain, root);
    }
    if text, root :| text in Forms(st, epoch, brain, root) && QuorumInForm(cfg, st, stakes, epoch, brain, text, root) {
      QuorumInFormExact(cfg, st, stakes, epoch, brain, text, root);
      assert Key(epoch, brain, text) in Keys(st.pending);
    }
  }

  /** A submission is made exactly if the pair is unproposed, some filed text of some root
      has the stake of all that root's signers exceed the quorum by that of those who did
      not sign this text, and the best-backed text does not start with a blank and a digit.
      So a quorum on a root's bytes is enough if all its signers used one text that starts
      otherwise, and in general only with that surplus. */
  lemma SubmitsExactlyOnRoots(cfg: Config, st: State, stakes: Stakes, epoch: nat, brain: nat, outcome: Option<string>)
    requires Valid(cfg, st)
    ensures var due := (epoch, brain) !in st.proposed && SomeFormQuorates(cfg, st, stakes, epoch, brain);
            && (due ==> BestRoot(st, stakes, epoch, brain).Some?)
            && (ProposeStep(cfg, st, stakes, epoch, brain, outcome).2.Some?
                <==> due && !StartsAskew(BestRoot(st, stakes, epoch, brain).value))
  {
    SomeQuorumIsInForm(cfg, st, stakes, epoch, brain);
    ProposeExactlyOnQuorum(cfg, st, stakes, epoch, brain, outcome);
  }

  /** Two signers of half the stake each sign one root, given as two texts. */
  predicate HalfEach(cfg: Config, first: Op, second: Op, root: Root, stakes: Stakes) {
    && first.Add? && second.Add? && first.epoch == second.epoch && first.brain == second.brain
    && first.signer != second.signer && Normalized(first.root) != Normalized(second.root)
    && AsRootBytes(first.root) == AsRootBytes(second.root) == Some(root)
    && RecoveredSigner(cfg, first.epoch, first.brain, first.root, first.signature) == Some(first.signer)
    && RecoveredSigner(cfg, second.epoch, second.brain, second.root, second.signature) == Some(second.signer)
    && 2 * stakes.of(first.brain, first.signer) == 2 * stakes.of(first.brain, second.signer)
       == stakes.total(first.brain) > 0
  }

  ghost predicate HoldsTwoForms(st: State, epoch: nat, brain: nat, x: string, a: Address, y: string, b: Address) {
    && st.proposed == {} && Keys(st.pending) == [Key(epoch, brain, x), Key(epoch, brain, y)]
    && FormSigners(st, epoch, brain, x) == [a] && FormSigners(st, epoch, brain, y) == [b]
  }

  lemma SecondForm(st: State, epoch: nat, brain: nat, x: string, a: Address, sigA: string, y: string, b: Address,
                   sigB: string)
    requires st == State([(Key(epoch, brain, x), [(a, sigA)])], {}) && x != y
    ensures var key := Key(epoch, brain, y);
            HoldsTwoForms(st.(pending := Put(st.pending, key, Put(SignersOf(st, key), b, sigB))),
                          epoch, brain, x, a, y, b)
  {
    var key, filed := Key(epoch, brain, y), [(b, sigB)];
    assert Keys(st.pending) == [Key(epoch, brain, x)] && SignersOf(st, key) == [];
    assert Put<Address, string>([], b, sigB) == filed && st.pending[1..] == [];
    assert Put(st.pending, key, filed) == [st.pending[0]] + [(key, filed)];
    LookupPut(st.pending, key, filed, Key(epoch, brain, x));
    LookupPut(st.pending, key, filed, key);
  }

  lemma TwoFormsFiled(cfg: Config, first: Op, second: Op, root: Root, stakes: Stakes)
    requires HalfEach(cfg, first, second, root, stakes)
    ensures HoldsTwoForms(Run(cfg, [first, second]).st, first.epoch, first.brain,
                          Normalized(first.root), first.signer, Normalized(second.root), second.signer)
    ensures Run(cfg, [first, second]).calls == []
  {
    assert [first, second][..1] == [first];
    OneSignature(cfg, first);
    SecondForm(Run(cfg, [first]).st, first.epoch, first.brain, Normalized(first.root), first.signer,
               WithPrefix(first.signature), Normalized(second.root), second.signer, WithPrefix(second.signature));
  }

  lemma HalfMissesQuorum(cfg: Config, st: State, stakes: Stakes, key: Key, a: Address)
    requires Keys(SignersOf(st, key)) == [a] && 5000 < cfg.minQuorumBps
    requires 2 * stakes.of(key.brain, a) == stakes.total(key.brain) > 0
    ensures !QuorumMet(cfg, st, stakes, key)
  {
    BackingOfOne(stakes, key.brain, a);
    MajorityNeed(stakes.total(key.brain), cfg.minQuorumBps);
  }

  lemma HalvesMissQuorum(cfg: Config, st: State, stakes: Stakes, epoch: nat, brain: nat,
                         x: string, a: Address, y: string, b: Address)
    requires HoldsTwoForms(st, epoch, brain, x, a, y, b) && x != y && 5000 < cfg.minQuorumBps
    requires 2 * stakes.of(brain, a) == 2 * stakes.of(brain, b) == stakes.total(brain) > 0
    ensures RootToSubmit(cfg, st, stakes, epoch, brain).None?
  {
    HalfMissesQuorum(cfg, st, stakes, Key(epoch, brain, x), a);
    HalfMissesQuorum(cfg, st, stakes, Key(epoch, brain, y), b);
    assert forall t :: Key(epoch, brain, t) in Keys(st.pending) ==> t == x || t == y;
    RootToSubmitExact(cfg, st, stakes, epoch, brain);
  }

  lemma HalvesMakeWhole(cfg: Config, st: State, stakes: Stakes, epoch: nat, brain: nat, root: Root,
                        x: string, a: Address, y: string, b: Address)
    requires Valid(cfg, st) && HoldsTwoForms(st, epoch, brain, x, a, y, b) && a != b
    requires TextOf(x, root) && TextOf(y, root) && cfg.minQuorumBps <= 10000
    requires 2 * stakes.of(brain, a) == 2 * stakes.of(brain, b) == stakes.total(brain) > 0
    ensures RootQuorum(cfg, st, stakes, epoch, brain, root)
  {
    var all := RootSigners(st, epoch, brain, root);
    FormIsPart(st, epoch, brain, x, root);
    FormIsPart(st, epoch, brain, y, root);
    JointSignersDistinct(cfg, st, epoch, brain, Forms(st, epoch, brain, root));
    assert a in [a, b] && [a, b][0] == a && [a, b][1] == b;
    PartBacking(stakes, brain, all, [a, b]);
    assert [a, b] == [a] + [b];
    BackingOfOne(stakes, brain, a);
    BackingOfOne(stakes, brain, b);
    BackingConcat(stakes, brain, [a], [b]);
    FullStakeMeetsNeed(stakes.total(brain), cfg.minQuorumBps);
  }

  lemma NothingToSubmit(cfg: Config, ops: seq<Op>, op: Op)
    requires op.Propose? && RootToSubmit(cfg, Run(cfg, ops).st, op.stakes, op.epoch, op.brain).None?
    ensures Run(cfg, ops + [op]).calls == Run(cfg, ops).calls
  {
    RunSnoc(cfg, ops, op);
  }

  lemma HalvesQuorate(cfg: Config, first: Op, second: Op, root: Root, stakes: Stakes)
    requires cfg.minQuorumBps <= 10000 && HalfEach(cfg, first, second, root, stakes)
    ensures RootQuorum(cfg, Run(cfg, [first, second]).st, stakes, first.epoch, first.brain, root)
  {
    var st := Run(cfg, [first, second]).st;
    TwoFormsFiled(cfg, first, second, root, stakes);
    ReachableIsValid(cfg, [first, second]);
    NormalizedKeepsBytes(first.root);
    NormalizedKeepsBytes(second.root);
    HalvesMakeWhole(cfg, st, stakes, first.epoch, first.brain, root, Normalized(first.root), first.signer,
                    Normalized(second.root), second.signer);
  }

  lemma HalvesAreNotSubmitted(cfg: Config, first: Op, second: Op, root: Root, stakes: Stakes)
    requires 5000 < cfg.minQuorumBps && HalfEach(cfg, first, second, root, stakes)
    ensures RootToSubmit(cfg, Run(cfg, [first, second]).st, stakes, first.epoch, first.brain).None?
  {
    TwoFormsFiled(cfg, first, second, root, stakes);
    HalvesMissQuorum(cfg, Run(cfg, [first, second]).st, stakes, first.epoch, first.brain,
                     Normalized(first.root), first.signer, Normalized(second.root), second.signer);
  }

  /** The root has the whole stake behind it, and nothing is submitted. */
  lemma FormsAreCountedApart(cfg: Config, first: Op, second: Op, root: Root, stakes: Stakes, tx: string)
    requires 5000 < cfg.minQuorumBps <= 10000 && HalfEach(cfg, first, second, root, stakes)
    ensures RootQuorum(cfg, Run(cfg, [first, second]).st, stakes, first.epoch, first.brain, root)
    ensures Run(cfg, [first, second] + [Propose(stakes, first.epoch, first.brain, Some(tx))]).calls == []
  {
    HalvesQuorate(cfg, first, second, root, stakes);
    HalvesAreNotSubmitted(cfg, first, second, root, stakes);
    TwoFormsFiled(cfg, first, second, root, stakes);
    NothingToSubmit(cfg, [first, second], Propose(stakes, first.epoch, first.brain, Some(tx)));
  }

  lemma BlankAfterPair(pair: string, rest: string)
    requires |pair| == 2 && DigitOf(pair[0]).Some? && DigitOf(pair[1]).Some?
    ensures FromHex(pair + " " + rest) == FromHex(pair + rest)
  {
    assert (pair + " " + rest)[2..] == " " + rest && (pair + rest)[2..] == rest;
    assert (" " + rest)[1..] == rest && IsSpace(' ');
    assert !IsSpace(pair[0]);
  }

  lemma SpacedIsRoot(root: Root)
    requires |root| == 32 && |ToHex(root)| > 2
    ensures TextOf("0x" + ToHex(root)[..2] + " " + ToHex(root)[2..], root)
  {
    var digits := ToHex(root);
    var spaced := digits[..2] + " " + digits[2..];
    DigitsFirst(root);
    BlankAfterPair(digits[..2], digits[2..]);
    assert digits[..2] + digits[2..] == digits;
    HexRoundTrip(root);
    PrefixedIsRead(spaced, root);
    assert "0x" + spaced == "0x" + digits[..2] + " " + digits[2..];
  }

  lemma PrefixedIsRead(digits: string, root: Root)
    requires FromHex(digits) == Some(root) && |root| == 32
    ensures TextOf("0x" + digits, root)
  {
    assert ("0x" + digits)[2..] == digits && HasPrefix("0x" + digits);
  }

  /** Such texts exist for every root, with the prefix on both: a blank after the first
      byte makes another text of it. */
  lemma BlankMakesAnotherForm(root: Root)
    requires |root| == 32
    ensures var digits := ToHex(root);
            && |digits| > 2
            && TextOf("0x" + digits, root) && TextOf("0x" + digits[..2] + " " + digits[2..], root)
            && Lower("0x" + digits) != Lower("0x" + digits[..2] + " " + digits[2..])
  {
    var digits := ToHex(root);
    DigitsFirst(root);
    WrittenRoot(root);
    SpacedIsRoot(root);
    var text := "0x" + digits[..2] + " " + digits[2..];
    assert |Lower(text)| == |text| == |Lower("0x" + digits)| + 1;
  }
}
