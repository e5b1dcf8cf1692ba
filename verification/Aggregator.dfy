/** `CommitmentAggregator` of validator/src/basedai_validator/aggregator.py:
    signatures are collected per (epoch, brain, root) and the best-backed root is
    submitted once it has a quorum. */
module Aggregator {
  import opened Sorting
  import opened Dictionaries
  import opened Quorum
  import opened RootText

  /** Signatures are filed by the normalised text of the root.  Several texts can stand
      for one root; they are different keys. */
  datatype Key = Key(epoch: nat, brain: nat, root: string)

  /** `recover` is the recovery of a signer from the digest of (epoch, brain, root
      bytes) and the text of a signature, for one chain id and one registry address;
      `None` is an exception raised by the library. */
  datatype Config = Config(recover: (nat, nat, seq<Byte>, string) -> Option<Address>,
                           minQuorumBps: nat := MIN_QUORUM_BPS)

  datatype State = State(pending: Dict<Key, Dict<Address, string>>, proposed: set<(nat, nat)>)

  datatype AddResult = Stored | SignerMismatch | Raised

  datatype ProposeResult = NotProposed | RootUnreadable | Submitted(tx: string) | SubmissionFailed

  /** One invocation of the injected submission callable, with the stake lookups
      in force at that moment and whether it returned. */
  datatype Call = Call(epoch: nat, brain: nat, root: string, rootBytes: seq<Byte>,
                       signers: seq<Address>, signatures: seq<string>,
                       stakes: Stakes, returned: bool)

  // ----- queries

  function SignersOf(st: State, key: Key): Dict<Address, string> {
    match Lookup(st.pending, key)
    case Some(d) => d
    case None => []
  }

  function BackingStake(st: State, stakes: Stakes, key: Key): nat {
    Backing(stakes, key.brain, Keys(SignersOf(st, key)))
  }

  predicate QuorumMet(cfg: Config, st: State, stakes: Stakes, key: Key) {
    var total := stakes.total(key.brain);
    total != 0 && BackingStake(st, stakes, key) >= Need(total, cfg.minQuorumBps)
  }

  function RootsOf(keys: seq<Key>, epoch: nat, brain: nat): (r: seq<string>)
    ensures forall root :: root in r <==> Key(epoch, brain, root) in keys
  {
    if keys == [] then []
    else
      var rest := RootsOf(keys[1..], epoch, brain);
      if keys[0].epoch == epoch && keys[0].brain == brain then [keys[0].root] + rest else rest
  }

  /** Python's `max` with a key. */
  function FirstMax<T>(key: T -> nat, s: seq<T>): T
    requires s != []
  {
    var last := s[|s| - 1];
    if |s| == 1 then last
    else
      var best := FirstMax(key, s[..|s| - 1]);
      if key(last) > key(best) then last else best
  }

  lemma {:induction false} FirstMaxIsGreatest<T>(key: T -> nat, s: seq<T>, x: T)
    requires x in s
    ensures FirstMax(key, s) in s && key(x) <= key(FirstMax(key, s))
  {
    var before, last := s[..|s| - 1], s[|s| - 1];
    assert s == before + [last];
    if before != [] {
      FirstMaxIsGreatest(key, before, if x in before then x else before[0]);
    }
  }

  /** Among equals the one that comes first is taken. */
  lemma {:induction false} FirstMaxIsFirst<T>(key: T -> nat, s: seq<T>) returns (k: nat)
    requires s != []
    ensures k < |s| && s[k] == FirstMax(key, s)
    ensures forall j :: 0 <= j < k ==> key(s[j]) < key(s[k])
  {
    var before, last := s[..|s| - 1], |s| - 1;
    k := last;
    if before != [] {
      if key(s[last]) <= key(FirstMax(key, before)) {
        k := FirstMaxIsFirst(key, before);
      } else {
        forall j | 0 <= j < last
          ensures key(s[j]) < key(s[last])
        {
          FirstMaxIsGreatest(key, before, before[j]);
        }
      }
    }
  }

  /** The backing of each root of one (epoch, brain). */
  function BackingOf(st: State, stakes: Stakes, epoch: nat, brain: nat): string -> nat {
    root => BackingStake(st, stakes, Key(epoch, brain, root))
  }

  function BestRoot(st: State, stakes: Stakes, epoch: nat, brain: nat): Option<string> {
    var roots := RootsOf(Keys(st.pending), epoch, brain);
    if roots == [] then None else Some(FirstMax(BackingOf(st, stakes, epoch, brain), roots))
  }

  function Signatures(d: Dict<Address, string>, signers: seq<Address>): (r: seq<string>)
    requires forall a :: a in signers ==> a in Keys(d)
    ensures |r| == |signers|
    ensures forall i :: 0 <= i < |r| ==> Lookup(d, signers[i]) == Some(r[i])
  {
    if signers == [] then [] else [Lookup(d, signers[0]).value] + Signatures(d, signers[1..])
  }

  function SortedSigners(d: Dict<Address, string>): (r: seq<Address>)
    ensures forall a :: a in r ==> a in Keys(d)
  {
    SortRearranges(AtMost, Keys(d));
    Sort(AtMost, Keys(d))
  }

  // ----- the two operations as state transitions

  /** The signer of a signature of a root; `None` if the root or the signature raises. */
  function RecoveredSigner(cfg: Config, epoch: nat, brain: nat, root: RootInput, signature: string): Option<Address> {
    var bytes := AsRootBytes(root);
    if bytes.None? then None else cfg.recover(epoch, brain, bytes.value, signature)
  }

  function AddStep(cfg: Config, st: State, epoch: nat, brain: nat, root: RootInput, signer: Address, signature: string)
    : (AddResult, State)
  {
    var recovered := RecoveredSigner(cfg, epoch, brain, root, signature);
    if recovered.None? then (Raised, st)
    else if recovered.value != signer then (SignerMismatch, st)
    else
      var key := Key(epoch, brain, Normalized(root));
      var signers := Put(SignersOf(st, key), signer, WithPrefix(signature));
      (Stored, st.(pending := Put(st.pending, key, signers)))
  }

  /** The root to submit for a pair not yet proposed: the best one, if it has a quorum. */
  function RootToSubmit(cfg: Config, st: State, stakes: Stakes, epoch: nat, brain: nat): Option<string> {
    if (epoch, brain) in st.proposed then None
    else
      var best := BestRoot(st, stakes, epoch, brain);
      if best.None? || !QuorumMet(cfg, st, stakes, Key(epoch, brain, best.value)) then None else best
  }

  /** `outcome` is what the submission callable does if it is invoked: `Some(tx)`
      if it returns, `None` if it raises.  Reading the bytes to submit can raise before. */
  function SubmitStep(st: State, stakes: Stakes, key: Key, outcome: Option<string>)
    : (ProposeResult, State, Option<Call>)
  {
    var d := SignersOf(st, key);
    var signers, rootBytes := SortedSigners(d), SubmittedBytes(key.root);
    if rootBytes.None? then (RootUnreadable, st, None)
    else
      var call := Call(key.epoch, key.brain, key.root, rootBytes.value, signers, Signatures(d, signers), stakes,
                       outcome.Some?);
      if outcome.None? then (SubmissionFailed, st, Some(call))
      else (Submitted(outcome.value), st.(proposed := st.proposed + {(key.epoch, key.brain)}), Some(call))
  }

  function ProposeStep(cfg: Config, st: State, stakes: Stakes, epoch: nat, brain: nat, outcome: Option<string>)
    : (ProposeResult, State, Option<Call>)
  {
    match RootToSubmit(cfg, st, stakes, epoch, brain)
    case None => (NotProposed, st, None)
    case Some(root) => SubmitStep(st, stakes, Key(epoch, brain, root), outcome)
  }

  class CommitmentAggregator {
    const cfg: Config
    var pending: Dict<Key, Dict<Address, string>>
    var proposed: set<(nat, nat)>
    ghost var calls: seq<Call>

    ghost function Abs(): State
      reads this
    {
      State(pending, proposed)
    }

    constructor (cfg: Config)
      ensures this.cfg == cfg
      ensures Abs() == Initial() && calls == []
    {
      this.cfg := cfg;
      pending, proposed, calls := [], {}, [];
    }

    method AddCommitment(epoch: nat, brain: nat, root: RootInput, signer: Address, signature: string)
      returns (r: AddResult)
      modifies this
      ensures (r, Abs()) == AddStep(cfg, old(Abs()), epoch, brain, root, signer, signature)
      ensures calls == old(calls)
    {
      var bytes := AsRootBytes(root);
      if bytes.None? {
        return Raised;
      }
      var recovered := cfg.recover(epoch, brain, bytes.value, signature);
      if recovered.None? {
        return Raised;
      }
      if recovered.value != signer {
        return SignerMismatch;
      }
      var key := Key(epoch, brain, Normalized(root));
      var entry := Lookup(pending, key);
      var signers := if entry.Some? then entry.value else [];
      pending := Put(pending, key, Put(signers, signer, WithPrefix(signature)));
      return Stored;
    }

    method TryPropose(stakes: Stakes, epoch: nat, brain: nat, outcome: Option<string>)
      returns (r: ProposeResult)
      modifies this
      ensures var (result, after, call) := ProposeStep(cfg, old(Abs()), stakes, epoch, brain, outcome);
              && r == result && Abs() == after
              && calls == old(calls) + if call.Some? then [call.value] else []
    {
      if (epoch, brain) in proposed {
        return NotProposed;
      }
      var st := State(pending, proposed);
      var best := BestRoot(st, stakes, epoch, brain);
      if best.None? || !QuorumMet(cfg, st, stakes, Key(epoch, brain, best.value)) {
        return NotProposed;
      }
      var d := SignersOf(st, Key(epoch, brain, best.value));
      var signers := SortedSigners(d);
      var signatures := Signatures(d, signers);
      var rootBytes := SubmittedBytes(best.value);
      if rootBytes.None? {
        return RootUnreadable;
      }
      calls := calls + [Call(epoch, brain, best.value, rootBytes.value, signers, signatures, stakes, outcome.Some?)];
      if outcome.None? {
        return SubmissionFailed;
      }
      proposed := proposed + {(epoch, brain)};
      return Submitted(outcome.value);
    }
  }

  // ----- runs

  datatype Op =
    | Add(epoch: nat, brain: nat, root: RootInput, signer: Address, signature: string)
    | Propose(stakes: Stakes, epoch: nat, brain: nat, outcome: Option<string>)

  datatype Trace = Trace(st: State, calls: seq<Call>)

  function Initial(): State {
    State([], {})
  }

  function Step(cfg: Config, t: Trace, op: Op): Trace {
    match op
    case Add(epoch, brain, root, signer, signature) =>
      Trace(AddStep(cfg, t.st, epoch, brain, root, signer, signature).1, t.calls)
    case Propose(stakes, epoch, brain, outcome) =>
      var (_, after, call) := ProposeStep(cfg, t.st, stakes, epoch, brain, outcome);
      Trace(after, t.calls + if call.Some? then [call.value] else [])
  }

  function Run(cfg: Config, ops: seq<Op>): Trace {
    if ops == [] then Trace(Initial(), [])
    else Step(cfg, Run(cfg, ops[..|ops| - 1]), ops[|ops| - 1])
  }

  lemma RunSnoc(cfg: Config, ops: seq<Op>, op: Op)
    ensures Run(cfg, ops + [op]) == Step(cfg, Run(cfg, ops), op)
  {
    assert (ops + [op])[..|ops|] == ops;
  }

  /** Every signature filed under (epoch, brain, root) is one that was accepted, and no
      root is filed without a signer. */
  ghost predicate Authentic(cfg: Config, key: Key, d: Dict<Address, string>) {
    && d != [] && UniqueKeys(d) && AsRootBytes(Text(key.root)).Some?
    && forall a :: a in Keys(d) ==> Vouched(cfg, key, a, Lookup(d, a).value)
  }

  ghost predicate Recovers(cfg: Config, key: Key, signer: Address, signature: string) {
    RecoveredSigner(cfg, key.epoch, key.brain, Text(key.root), signature) == Some(signer)
  }

  /** The text is that of a signature that recovered to its signer, or such a text with
      the prefix put in front of it. */
  ghost predicate Vouched(cfg: Config, key: Key, signer: Address, filed: string) {
    && HasPrefix(filed)
    && (Recovers(cfg, key, signer, filed) || (!HasPrefix(filed[2..]) && Recovers(cfg, key, signer, filed[2..])))
  }

  ghost predicate Valid(cfg: Config, st: State) {
    && UniqueKeys(st.pending)
    && forall key :: key in Keys(st.pending) ==> Authentic(cfg, key, Lookup(st.pending, key).value)
  }

  lemma AcceptedIsVouched(cfg: Config, epoch: nat, brain: nat, root: RootInput, signer: Address, signature: string)
    requires RecoveredSigner(cfg, epoch, brain, root, signature) == Some(signer)
    ensures AsRootBytes(Text(Normalized(root))) == AsRootBytes(root)
    ensures Recovers(cfg, Key(epoch, brain, Normalized(root)), signer, signature)
    ensures Vouched(cfg, Key(epoch, brain, Normalized(root)), signer, WithPrefix(signature))
  {
    NormalizedKeepsBytes(root);
    assert ("0x" + signature)[2..] == signature;
  }

  lemma AddKeepsValid(cfg: Config, st: State, epoch: nat, brain: nat, root: RootInput, signer: Address,
                      signature: string)
    requires Valid(cfg, st)
    ensures Valid(cfg, AddStep(cfg, st, epoch, brain, root, signer, signature).1)
  {
    var (r, after) := AddStep(cfg, st, epoch, brain, root, signer, signature);
    if r.Stored? {
      var key := Key(epoch, brain, Normalized(root));
      AcceptedIsVouched(cfg, epoch, brain, root, signer, signature);
      FilingKeepsValid(cfg, st, key, signer, WithPrefix(signature));
    }
  }

  lemma FilingKeepsValid(cfg: Config, st: State, key: Key, signer: Address, text: string)
    requires Valid(cfg, st) && AsRootBytes(Text(key.root)).Some? && Vouched(cfg, key, signer, text)
    ensures Valid(cfg, st.(pending := Put(st.pending, key, Put(SignersOf(st, key), signer, text))))
  {
    var filed, updated := SignersOf(st, key), Put(SignersOf(st, key), signer, text);
    assert filed != [] ==> Authentic(cfg, key, filed);
    PutUnique(filed, signer, text);
    forall a | a in Keys(updated)
      ensures Vouched(cfg, key, a, Lookup(updated, a).value)
    {
      PutKeys(filed, signer, text, a);
      LookupPut(filed, signer, text, a);
    }
    assert Authentic(cfg, key, updated);
    PutUnique(st.pending, key, updated);
    forall k | k in Keys(Put(st.pending, key, updated))
      ensures Authentic(cfg, k, Lookup(Put(st.pending, key, updated), k).value)
    {
      PutKeys(st.pending, key, updated, k);
      LookupPut(st.pending, key, updated, k);
    }
  }

  lemma ProposeKeepsFile(cfg: Config, st: State, stakes: Stakes, epoch: nat, brain: nat, outcome: Option<string>)
    ensures ProposeStep(cfg, st, stakes, epoch, brain, outcome).1.pending == st.pending
  {}

  lemma StepKeepsValid(cfg: Config, t: Trace, op: Op)
    requires Valid(cfg, t.st)
    ensures Valid(cfg, Step(cfg, t, op).st)
  {
    if op.Add? {
      AddKeepsValid(cfg, t.st, op.epoch, op.brain, op.root, op.signer, op.signature);
    } else {
      ProposeKeepsFile(cfg, t.st, op.stakes, op.epoch, op.brain, op.outcome);
    }
  }

  lemma {:induction false} ReachableIsValid(cfg: Config, ops: seq<Op>)
    ensures Valid(cfg, Run(cfg, ops).st)
  {
    if ops != [] {
      ReachableIsValid(cfg, ops[..|ops| - 1]);
      StepKeepsValid(cfg, Run(cfg, ops[..|ops| - 1]), ops[|ops| - 1]);
    }
  }

  /** A library that reads a signature's digits alike with and without the prefix, and
      reads no second prefix. */
  ghost predicate ReadsHex(cfg: Config) {
    forall epoch, brain, bytes, s :: !HasPrefix(s) ==>
      cfg.recover(epoch, brain, bytes, "0x" + s)
      == if HasUpperPrefix(s) then None else cfg.recover(epoch, brain, bytes, s)
  }

  predicate HasUpperPrefix(s: string) {
    |s| >= 2 && s[..2] == "0X"
  }

  /** With such a library a signature on file recovers as it is filed, unless it was
      accepted with an upper-case prefix: another one has then been put in front. */
  lemma FiledSignatureRecovers(cfg: Config, key: Key, signer: Address, filed: string)
    requires ReadsHex(cfg) && Vouched(cfg, key, signer, filed)
    ensures Recovers(cfg, key, signer, filed) <==> !HasUpperPrefix(filed[2..])
  {
    assert filed == "0x" + filed[2..];
  }

  /** An accepted submission of a signature by `signer` under `key`. */
  ghost predicate Signs(cfg: Config, op: Op, key: Key, signer: Address) {
    && op.Add? && Key(op.epoch, op.brain, Normalized(op.root)) == key && op.signer == signer
    && RecoveredSigner(cfg, op.epoch, op.brain, op.root, op.signature) == Some(signer)
  }

  /** A signer is on file for a root text exactly if some submission of the run carried a
      signature of that root recovering to the signer it claimed. */
  lemma {:induction false} FiledExactlyIfSigned(cfg: Config, ops: seq<Op>, key: Key, signer: Address)
    ensures signer in Keys(SignersOf(Run(cfg, ops).st, key)) <==> exists op :: op in ops && Signs(cfg, op, key, signer)
  {
    if ops != [] {
      var before, op := ops[..|ops| - 1], ops[|ops| - 1];
      assert ops == before + [op];
      FiledExactlyIfSigned(cfg, before, key, signer);
      assert (exists o :: o in ops && Signs(cfg, o, key, signer))
             <==> (exists o :: o in before && Signs(cfg, o, key, signer)) || Signs(cfg, op, key, signer) by {
        assert op in ops && forall o :: o in ops <==> o in before || o == op;
      }
      StepFiles(cfg, Run(cfg, before), op, key, signer);
    }
  }

  lemma StepFiles(cfg: Config, t: Trace, op: Op, key: Key, signer: Address)
    ensures signer in Keys(SignersOf(Step(cfg, t, op).st, key))
            <==> signer in Keys(SignersOf(t.st, key)) || Signs(cfg, op, key, signer)
  {
    if op.Add? && AddStep(cfg, t.st, op.epoch, op.brain, op.root, op.signer, op.signature).0.Stored? {
      var filed := Key(op.epoch, op.brain, Normalized(op.root));
      var text := WithPrefix(op.signature);
      LookupPut(t.st.pending, filed, Put(SignersOf(t.st, filed), op.signer, text), key);
      PutKeys(SignersOf(t.st, filed), op.signer, text, signer);
    }
  }

  /** What a well-formed submission looks like to the contract. */
  ghost predicate SoundCall(cfg: Config, c: Call) {
    var total := c.stakes.total(c.brain);
    && c.signers != [] && |c.signatures| == |c.signers|
    && (forall i, j :: 0 <= i < j < |c.signers| ==> c.signers[i] < c.signers[j])
    && (forall i :: 0 <= i < |c.signers| ==>
          Vouched(cfg, Key(c.epoch, c.brain, c.root), c.signers[i], c.signatures[i]))
    && total > 0 && Backing(c.stakes, c.brain, c.signers) >= Need(total, cfg.minQuorumBps)
    && SoundRoot(c.root, c.rootBytes)
  }

  /** The bytes submitted are the root that was signed exactly if its text starts with the
      prefix or with two blanks; otherwise its first byte is missing. */
  ghost predicate SoundRoot(text: string, rootBytes: seq<Byte>) {
    var root := AsRootBytes(Text(text));
    && root.Some? && !StartsAskew(text)
    && rootBytes == if StartsWhole(text) then root.value else root.value[1..]
  }

  /** There is a root to submit exactly for an unproposed pair with some root that has
      a quorum, although only the best-backed root is tried. */
  lemma RootToSubmitExact(cfg: Config, st: State, stakes: Stakes, epoch: nat, brain: nat)
    ensures RootToSubmit(cfg, st, stakes, epoch, brain).Some?
            <==>
            (epoch, brain) !in st.proposed && SomeQuorum(cfg, st, stakes, epoch, brain)
  {
    var roots := RootsOf(Keys(st.pending), epoch, brain);
    assert forall root :: root in roots <==> Key(epoch, brain, root) in Keys(st.pending);
    if roots != [] {
      FirstMaxIsGreatest(BackingOf(st, stakes, epoch, brain), roots, roots[0]);
    }
    if root :| Key(epoch, brain, root) in Keys(st.pending) && QuorumMet(cfg, st, stakes, Key(epoch, brain, root)) {
      FirstMaxIsGreatest(BackingOf(st, stakes, epoch, brain), roots, root);
    }
  }

  ghost predicate SomeQuorum(cfg: Config, st: State, stakes: Stakes, epoch: nat, brain: nat) {
    exists root :: Key(epoch, brain, root) in Keys(st.pending) && QuorumMet(cfg, st, stakes, Key(epoch, brain, root))
  }

  lemma BestIsFiled(st: State, stakes: Stakes, epoch: nat, brain: nat)
    requires BestRoot(st, stakes, epoch, brain).Some?
    ensures Key(epoch, brain, BestRoot(st, stakes, epoch, brain).value) in Keys(st.pending)
  {
    var roots := RootsOf(Keys(st.pending), epoch, brain);
    FirstMaxIsGreatest(BackingOf(st, stakes, epoch, brain), roots, roots[0]);
  }

  lemma FiledRootIsReadable(cfg: Config, st: State, key: Key)
    requires Valid(cfg, st) && key in Keys(st.pending)
    ensures AsRootBytes(Text(key.root)).Some?
  {
    assert Authentic(cfg, key, SignersOf(st, key));
  }

  lemma SubmitsExactlyReadable(st: State, stakes: Stakes, key: Key, outcome: Option<string>)
    requires AsRootBytes(Text(key.root)).Some?
    ensures var (result, after, call) := SubmitStep(st, stakes, key, outcome);
            && (call.Some? <==> !StartsAskew(key.root))
            && (result.RootUnreadable? <==> StartsAskew(key.root))
            && (result.RootUnreadable? ==> after == st)
            && (call.Some? ==> SoundRoot(key.root, call.value.rootBytes))
  {
    SubmittedExactly(key.root);
  }

  /** An unproposed pair is submitted exactly if some root has a quorum and the text of the
      best-backed one does not start with a blank and a digit.  If it does, the call raises
      before the submission, and changes nothing, for as long as that text stays the best. */
  lemma ProposeExactlyOnQuorum(cfg: Config, st: State, stakes: Stakes, epoch: nat, brain: nat, outcome: Option<string>)
    requires Valid(cfg, st)
    ensures var (result, after, call) := ProposeStep(cfg, st, stakes, epoch, brain, outcome);
            var best := BestRoot(st, stakes, epoch, brain);
            var due := (epoch, brain) !in st.proposed && SomeQuorum(cfg, st, stakes, epoch, brain);
            && (due ==> best.Some?)
            && (call.Some? <==> due && !StartsAskew(best.value))
            && (result.RootUnreadable? <==> due && StartsAskew(best.value))
            && (result.RootUnreadable? ==> after == st)
  {
    RootToSubmitExact(cfg, st, stakes, epoch, brain);
    if RootToSubmit(cfg, st, stakes, epoch, brain).Some? {
      BestIsFiled(st, stakes, epoch, brain);
      var key := Key(epoch, brain, BestRoot(st, stakes, epoch, brain).value);
      FiledRootIsReadable(cfg, st, key);
      SubmitsExactlyReadable(st, stakes, key, outcome);
    }
  }

  /** The call names the best-backed root and all signers on file for it, in order. */
  lemma ProposeTriesBest(cfg: Config, st: State, stakes: Stakes, epoch: nat, brain: nat, outcome: Option<string>)
    requires ProposeStep(cfg, st, stakes, epoch, brain, outcome).2.Some?
    ensures var call := ProposeStep(cfg, st, stakes, epoch, brain, outcome).2.value;
            var key := Key(epoch, brain, call.root);
            && call.epoch == epoch && call.brain == brain && call.stakes == stakes
            && key in Keys(st.pending) && QuorumMet(cfg, st, stakes, key)
            && call.signers == SortedSigners(SignersOf(st, key))
            && call.signatures == Signatures(SignersOf(st, key), call.signers)
            && SubmittedBytes(call.root) == Some(call.rootBytes)
            && forall root :: Key(epoch, brain, root) in Keys(st.pending) ==>
                 BackingStake(st, stakes, Key(epoch, brain, root)) <= BackingStake(st, stakes, key)
  {
    var roots := RootsOf(Keys(st.pending), epoch, brain);
    var best := FirstMax(BackingOf(st, stakes, epoch, brain), roots);
    FirstMaxIsGreatest(BackingOf(st, stakes, epoch, brain), roots, roots[0]);
    forall root | Key(epoch, brain, root) in Keys(st.pending)
      ensures BackingStake(st, stakes, Key(epoch, brain, root)) <= BackingStake(st, stakes, Key(epoch, brain, best))
    {
      FirstMaxIsGreatest(BackingOf(st, stakes, epoch, brain), roots, root);
    }
  }

  lemma SortedSignersExact(cfg: Config, st: State, stakes: Stakes, key: Key)
    requires Valid(cfg, st) && key in Keys(st.pending)
    ensures var d := SignersOf(st, key);
            var signers := SortedSigners(d);
            && signers != []
            && (forall i, j :: 0 <= i < j < |signers| ==> signers[i] < signers[j])
            && (forall i :: 0 <= i < |signers| ==> Vouched(cfg, key, signers[i], Signatures(d, signers)[i]))
            && Backing(stakes, key.brain, signers) == BackingStake(st, stakes, key)
  {
    var d := SignersOf(st, key);
    assert Authentic(cfg, key, d);
    SortDistinct(Keys(d));
    SortRearranges(AtMost, Keys(d));
    BackingByMultiset(stakes, key.brain, SortedSigners(d), Keys(d));
    assert |SortedSigners(d)| == |Keys(d)| == |d|;
  }

  lemma ProposeIsSound(cfg: Config, st: State, stakes: Stakes, epoch: nat, brain: nat, outcome: Option<string>)
    requires Valid(cfg, st)
    requires ProposeStep(cfg, st, stakes, epoch, brain, outcome).2.Some?
    ensures SoundCall(cfg, ProposeStep(cfg, st, stakes, epoch, brain, outcome).2.value)
  {
    ProposeTriesBest(cfg, st, stakes, epoch, brain, outcome);
    var call := ProposeStep(cfg, st, stakes, epoch, brain, outcome).2.value;
    var key := Key(epoch, brain, call.root);
    SortedSignersExact(cfg, st, stakes, key);
    FiledRootIsReadable(cfg, st, key);
    SubmitsExactlyReadable(st, stakes, key, outcome);
  }

  lemma {:induction false} EveryCallIsSound(cfg: Config, ops: seq<Op>)
    ensures forall c :: c in Run(cfg, ops).calls ==> SoundCall(cfg, c)
  {
    if ops != [] {
      var before, op := ops[..|ops| - 1], ops[|ops| - 1];
      EveryCallIsSound(cfg, before);
      ReachableIsValid(cfg, before);
      var st := Run(cfg, before).st;
      if op.Propose? && ProposeStep(cfg, st, op.stakes, op.epoch, op.brain, op.outcome).2.Some? {
        ProposeIsSound(cfg, st, op.stakes, op.epoch, op.brain, op.outcome);
      }
    }
  }

  /** One signer with the whole stake signs a root given as this text. */
  predicate SoleSigner(cfg: Config, op: Op, stakes: Stakes) {
    && op.Add? && cfg.minQuorumBps <= 10000 && stakes.of(op.brain, op.signer) == stakes.total(op.brain) > 0
    && RecoveredSigner(cfg, op.epoch, op.brain, op.root, op.signature) == Some(op.signer)
  }

  lemma OneSignature(cfg: Config, op: Op)
    requires op.Add? && RecoveredSigner(cfg, op.epoch, op.brain, op.root, op.signature) == Some(op.signer)
    ensures var key := Key(op.epoch, op.brain, Normalized(op.root));
            Run(cfg, [op]).st == State([(key, [(op.signer, WithPrefix(op.signature))])], {})
    ensures Run(cfg, [op]).calls == []
  {
    assert [op][..0] == [];
  }

  lemma SoleSignerQuorates(cfg: Config, op: Op, stakes: Stakes)
    requires SoleSigner(cfg, op, stakes)
    ensures RootToSubmit(cfg, Run(cfg, [op]).st, stakes, op.epoch, op.brain) == Some(Normalized(op.root))
  {
    var key := Key(op.epoch, op.brain, Normalized(op.root));
    var st := Run(cfg, [op]).st;
    OneSignature(cfg, op);
    assert Keys(st.pending) == [key] && Keys(SignersOf(st, key)) == [op.signer];
    BackingOfOne(stakes, op.brain, op.signer);
    FullStakeMeetsNeed(stakes.total(op.brain), cfg.minQuorumBps);
    assert SomeQuorum(cfg, st, stakes, op.epoch, op.brain);
    RootToSubmitExact(cfg, st, stakes, op.epoch, op.brain);
    BestIsFiled(st, stakes, op.epoch, op.brain);
  }

  /** A root whose text starts with its digits is submitted without its first byte. */
  lemma UnprefixedRootIsTruncated(cfg: Config, op: Op, stakes: Stakes, tx: string)
    requires SoleSigner(cfg, op, stakes) && !StartsWhole(Normalized(op.root)) && !StartsAskew(Normalized(op.root))
    ensures var ops := [op, Propose(stakes, op.epoch, op.brain, Some(tx))];
            exists c :: c in Run(cfg, ops).calls && c.returned && c.rootBytes == AsRootBytes(op.root).value[1..]
  {
    var ops := [op, Propose(stakes, op.epoch, op.brain, Some(tx))];
    assert ops[..1] == [op];
    OneSignature(cfg, op);
    SoleSignerQuorates(cfg, op, stakes);
    NormalizedKeepsBytes(op.root);
    SubmittedExactly(Normalized(op.root));
    var c := ProposeStep(cfg, Run(cfg, [op]).st, stakes, op.epoch, op.brain, Some(tx)).2.value;
    assert c in Run(cfg, ops).calls;
  }

  lemma AskewRootRaises(cfg: Config, op: Op, attempt: Op)
    requires attempt.Propose? && attempt.epoch == op.epoch && attempt.brain == op.brain
    requires SoleSigner(cfg, op, attempt.stakes) && StartsAskew(Normalized(op.root))
    ensures ProposeStep(cfg, Run(cfg, [op]).st, attempt.stakes, attempt.epoch, attempt.brain, attempt.outcome)
         == (RootUnreadable, Run(cfg, [op]).st, None)
  {
    SoleSignerQuorates(cfg, op, attempt.stakes);
    NormalizedKeepsBytes(op.root);
    SubmittedExactly(Normalized(op.root));
  }

  /** A root whose text starts with a blank and then its digits is never submitted, with
      the whole stake behind it: every attempt raises, as often as it is made. */
  lemma {:induction false} AskewRootIsNeverSubmitted(cfg: Config, op: Op, attempts: seq<Op>)
    requires op.Add? && RecoveredSigner(cfg, op.epoch, op.brain, op.root, op.signature) == Some(op.signer)
    requires StartsAskew(Normalized(op.root))
    requires forall a :: a in attempts ==>
               a.Propose? && a.epoch == op.epoch && a.brain == op.brain && SoleSigner(cfg, op, a.stakes)
    ensures Run(cfg, [op] + attempts).calls == []
    ensures Run(cfg, [op] + attempts).st == Run(cfg, [op]).st
  {
    OneSignature(cfg, op);
    if attempts == [] {
      assert [op] + attempts == [op];
    } else {
      var before, last := attempts[..|attempts| - 1], attempts[|attempts| - 1];
      assert [op] + attempts == [op] + before + [last];
      assert ([op] + before + [last])[..|before| + 1] == [op] + before;
      AskewRootIsNeverSubmitted(cfg, op, before);
      AskewRootRaises(cfg, op, last);
    }
  }

  ghost predicate ReturnedFor(calls: seq<Call>, epoch: nat, brain: nat) {
    exists c :: c in calls && c.returned && c.epoch == epoch && c.brain == brain
  }

  ghost predicate MarksReturned(t: Trace, epoch: nat, brain: nat) {
    (epoch, brain) in t.st.proposed <==> ReturnedFor(t.calls, epoch, brain)
  }

  lemma SubmitMarks(st: State, stakes: Stakes, key: Key, outcome: Option<string>)
    ensures var (_, after, call) := SubmitStep(st, stakes, key, outcome);
            && (call.Some? ==> call.value.epoch == key.epoch && call.value.brain == key.brain)
            && after.proposed == if call.Some? && call.value.returned then st.proposed + {(key.epoch, key.brain)}
                                 else st.proposed
  {}

  lemma ProposeMarks(cfg: Config, t: Trace, op: Op, epoch: nat, brain: nat)
    requires op.Propose? && MarksReturned(t, epoch, brain)
    ensures MarksReturned(Step(cfg, t, op), epoch, brain)
  {
    var root := RootToSubmit(cfg, t.st, op.stakes, op.epoch, op.brain);
    if root.Some? {
      var key := Key(op.epoch, op.brain, root.value);
      var call := SubmitStep(t.st, op.stakes, key, op.outcome).2;
      SubmitMarks(t.st, op.stakes, key, op.outcome);
      if call.Some? {
        ReturnedForSnoc(t.calls, call.value, epoch, brain);
      }
    }
  }

  lemma StepMarks(cfg: Config, t: Trace, op: Op, epoch: nat, brain: nat)
    requires MarksReturned(t, epoch, brain)
    ensures MarksReturned(Step(cfg, t, op), epoch, brain)
  {
    if op.Propose? {
      ProposeMarks(cfg, t, op, epoch, brain);
    }
  }

  /** Exactly the pairs of calls that returned are marked as proposed. */
  lemma {:induction false} ProposedExactlyReturned(cfg: Config, ops: seq<Op>, epoch: nat, brain: nat)
    ensures MarksReturned(Run(cfg, ops), epoch, brain)
  {
    if ops != [] {
      ProposedExactlyReturned(cfg, ops[..|ops| - 1], epoch, brain);
      StepMarks(cfg, Run(cfg, ops[..|ops| - 1]), ops[|ops| - 1], epoch, brain);
    }
  }

  /** A step adds one call at most, and only for a pair that is not marked. */
  lemma StepCalls(cfg: Config, t: Trace, op: Op)
    ensures var calls := Step(cfg, t, op).calls;
            && t.calls <= calls && |calls| <= |t.calls| + 1
            && (|calls| > |t.calls| ==> (calls[|t.calls|].epoch, calls[|t.calls|].brain) !in t.st.proposed)
  {}

  /** A call that returned is the last one ever made for its pair. */
  lemma {:induction false} ReturnedCallIsLast(cfg: Config, ops: seq<Op>, i: nat, j: nat)
    requires i < j < |Run(cfg, ops).calls| && Run(cfg, ops).calls[i].returned
    ensures Run(cfg, ops).calls[i].epoch != Run(cfg, ops).calls[j].epoch
            || Run(cfg, ops).calls[i].brain != Run(cfg, ops).calls[j].brain
  {
    var before := ops[..|ops| - 1];
    var t, u := Run(cfg, before), Run(cfg, ops);
    StepCalls(cfg, t, ops[|ops| - 1]);
    if j < |t.calls| {
      ReturnedCallIsLast(cfg, before, i, j);
    } else {
      assert t.calls[i] == u.calls[i] && t.calls[i] in t.calls;
      ProposedExactlyReturned(cfg, before, u.calls[i].epoch, u.calls[i].brain);
    }
  }

  lemma ReturnedForSnoc(calls: seq<Call>, call: Call, epoch: nat, brain: nat)
    ensures ReturnedFor(calls + [call], epoch, brain)
            <==> ReturnedFor(calls, epoch, brain) || (call.returned && call.epoch == epoch && call.brain == brain)
  {}
}
