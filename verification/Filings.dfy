/** What `CommitmentAggregator` keeps on file, in which order, and how its calls are
    answered. */
module Filings {
  import opened Sorting
  import opened Dictionaries
  import opened Quorum
  import opened RootText
  import opened Aggregator

  // ----- answers

  /** A submission raises, is refused for another signer, or is stored; only then does
      anything change. */
  lemma AddAnswers(cfg: Config, st: State, epoch: nat, brain: nat, root: RootInput, signer: Address, signature: string)
    ensures var (r, after) := AddStep(cfg, st, epoch, brain, root, signer, signature);
            var bytes := AsRootBytes(root);
            var recovered := if bytes.Some? then cfg.recover(epoch, brain, bytes.value, signature) else None;
            && (r.Raised? <==> recovered.None?)
            && (r.SignerMismatch? <==> recovered.Some? && recovered.value != signer)
            && (r.Stored? <==> recovered == Some(signer))
            && (!r.Stored? ==> after == st) && after.proposed == st.proposed
  {}

  /** The transaction handed back is the one the submission returned, and only such a call
      marks its pair. */
  lemma ProposeAnswers(cfg: Config, st: State, stakes: Stakes, epoch: nat, brain: nat, outcome: Option<string>)
    ensures var (r, after, call) := ProposeStep(cfg, st, stakes, epoch, brain, outcome);
            && (forall tx :: r == Submitted(tx) <==> call.Some? && outcome == Some(tx))
            && (r.SubmissionFailed? <==> call.Some? && outcome.None?)
            && (call.Some? ==> (call.value.returned <==> outcome.Some?))
            && after.pending == st.pending
            && after.proposed == if r.Submitted? then st.proposed + {(epoch, brain)} else st.proposed
  {
    var root := RootToSubmit(cfg, st, stakes, epoch, brain);
    if root.Some? {
      SubmitMarks(st, stakes, Key(epoch, brain, root.value), outcome);
    }
  }

  // ----- the signature on file

  /** The signature that `signer` last had accepted under `key`. */
  ghost function LastSignature(cfg: Config, ops: seq<Op>, key: Key, signer: Address): Option<string> {
    if ops == [] then None
    else if Signs(cfg, ops[|ops| - 1], key, signer) then Some(ops[|ops| - 1].signature)
    else LastSignature(cfg, ops[..|ops| - 1], key, signer)
  }

  ghost predicate IsAccepted(cfg: Config, op: Op) {
    op.Add? && RecoveredSigner(cfg, op.epoch, op.brain, op.root, op.signature) == Some(op.signer)
  }

  function KeyOf(op: Op): Key
    requires op.Add?
  {
    Key(op.epoch, op.brain, Normalized(op.root))
  }

  /** Only an accepted submission changes what is on file. */
  lemma StepFile(cfg: Config, t: Trace, op: Op)
    ensures Step(cfg, t, op).st.pending
         == if IsAccepted(cfg, op)
            then Put(t.st.pending, KeyOf(op), Put(SignersOf(t.st, KeyOf(op)), op.signer, WithPrefix(op.signature)))
            else t.st.pending
  {
    if op.Propose? {
      ProposeAnswers(cfg, t.st, op.stakes, op.epoch, op.brain, op.outcome);
    } else {
      AddAnswers(cfg, t.st, op.epoch, op.brain, op.root, op.signer, op.signature);
    }
  }

  lemma SignersOfPut(st: State, after: State, filed: Key, signers: Dict<Address, string>, key: Key)
    requires after.pending == Put(st.pending, filed, signers)
    ensures SignersOf(after, key) == if filed == key then signers else SignersOf(st, key)
  {
    LookupPut(st.pending, filed, signers, key);
  }

  lemma PutKeepsLast(signers: Dict<Address, string>, author: Address, signature: string, signer: Address)
    ensures Lookup(Put(signers, author, WithPrefix(signature)), signer)
         == if author == signer then Some(if "0x" <= signature then signature else "0x" + signature)
            else Lookup(signers, signer)
  {
    LookupPut(signers, author, WithPrefix(signature), signer);
  }

  lemma StepKeepsLast(cfg: Config, t: Trace, op: Op, key: Key, signer: Address)
    ensures Lookup(SignersOf(Step(cfg, t, op).st, key), signer)
         == if Signs(cfg, op, key, signer) then Some(if "0x" <= op.signature then op.signature else "0x" + op.signature)
            else Lookup(SignersOf(t.st, key), signer)
  {
    StepFile(cfg, t, op);
    if IsAccepted(cfg, op) {
      var signers := SignersOf(t.st, KeyOf(op));
      SignersOfPut(t.st, Step(cfg, t, op).st, KeyOf(op), Put(signers, op.signer, WithPrefix(op.signature)), key);
      PutKeepsLast(signers, op.signer, op.signature, signer);
    }
  }

  /** In every run, what is on file for a signer is the last signature accepted from it,
      with the prefix put in front if it had none. */
  lemma {:induction false} FiledIsLast(cfg: Config, ops: seq<Op>, key: Key, signer: Address)
    ensures var last := LastSignature(cfg, ops, key, signer);
            Lookup(SignersOf(Run(cfg, ops).st, key), signer)
            == if last.None? then None else Some(if "0x" <= last.value then last.value else "0x" + last.value)
  {
    if ops != [] {
      FiledIsLast(cfg, ops[..|ops| - 1], key, signer);
      StepKeepsLast(cfg, Run(cfg, ops[..|ops| - 1]), ops[|ops| - 1], key, signer);
    }
  }

  // ----- the order of the file

  /** The keys with an accepted signature, in the order of the first one. */
  ghost function FirstFilings(cfg: Config, ops: seq<Op>): seq<Key> {
    if ops == [] then []
    else
      var before, op := FirstFilings(cfg, ops[..|ops| - 1]), ops[|ops| - 1];
      if IsAccepted(cfg, op) && KeyOf(op) !in before then before + [KeyOf(op)] else before
  }

  lemma {:induction false} KeysInOrder(cfg: Config, ops: seq<Op>)
    ensures Keys(Run(cfg, ops).st.pending) == FirstFilings(cfg, ops)
  {
    if ops != [] {
      var before, op := ops[..|ops| - 1], ops[|ops| - 1];
      var st := Run(cfg, before).st;
      KeysInOrder(cfg, before);
      StepFile(cfg, Run(cfg, before), op);
      if IsAccepted(cfg, op) {
        KeysPut(st.pending, KeyOf(op), Put(SignersOf(st, KeyOf(op)), op.signer, WithPrefix(op.signature)));
      }
    }
  }

  lemma {:induction false} RootsConcat(a: seq<Key>, b: seq<Key>, epoch: nat, brain: nat)
    ensures RootsOf(a + b, epoch, brain) == RootsOf(a, epoch, brain) + RootsOf(b, epoch, brain)
  {
    if a == [] {
      assert a + b == b;
    } else {
      assert (a + b)[1..] == a[1..] + b;
      RootsConcat(a[1..], b, epoch, brain);
    }
  }

  predicate FirstAt(keys: seq<Key>, k: nat, a: Key, b: Key) {
    k < |keys| && keys[k] == b && a in keys[..k] && b !in keys[..k]
  }

  /** Key `a` is on file before the first place of `b`. */
  ghost predicate FiledBefore(keys: seq<Key>, a: Key, b: Key) {
    exists k: nat :: FirstAt(keys, k, a, b)
  }

  lemma EarlierRoot(front: seq<string>, back: seq<string>, i: nat, root: string)
    requires i < |front + back| && (front + back)[i] !in front && root in front
    ensures exists j :: 0 <= j < i && (front + back)[j] == root
  {
    var j :| 0 <= j < |front| && front[j] == root;
    assert (front + back)[j] == root;
  }

  lemma EarlierIsLess(backing: string -> nat, front: seq<string>, back: seq<string>, root: string)
    requires root in front && FirstMax(backing, front + back) !in front
    ensures backing(root) < backing(FirstMax(backing, front + back))
  {
    var i := FirstMaxIsFirst(backing, front + back);
    EarlierRoot(front, back, i, root);
  }

  lemma EarlierKeyIsLess(backing: string -> nat, front: seq<Key>, back: seq<Key>, epoch: nat, brain: nat,
                         root: string, best: string)
    requires Key(epoch, brain, root) in front && Key(epoch, brain, best) !in front
    requires RootsOf(front + back, epoch, brain) != [] && best == FirstMax(backing, RootsOf(front + back, epoch, brain))
    ensures backing(root) < backing(best)
  {
    RootsConcat(front, back, epoch, brain);
    EarlierIsLess(backing, RootsOf(front, epoch, brain), RootsOf(back, epoch, brain), root);
  }

  lemma FiledBeforeIsLess(backing: string -> nat, keys: seq<Key>, epoch: nat, brain: nat, root: string, best: string)
    requires RootsOf(keys, epoch, brain) != [] && best == FirstMax(backing, RootsOf(keys, epoch, brain))
    requires FiledBefore(keys, Key(epoch, brain, root), Key(epoch, brain, best))
    ensures backing(root) < backing(best)
  {
    var k: nat :| FirstAt(keys, k, Key(epoch, brain, root), Key(epoch, brain, best));
    assert keys == keys[..k] + keys[k..];
    EarlierKeyIsLess(backing, keys[..k], keys[k..], epoch, brain, root, best);
  }

  /** The text tried is the best-backed one of its pair, and among equally backed ones the
      one that was filed first. */
  lemma BestIsFirstFiled(st: State, stakes: Stakes, epoch: nat, brain: nat, root: string)
    requires Key(epoch, brain, root) in Keys(st.pending)
    ensures BestRoot(st, stakes, epoch, brain).Some?
    ensures var best := Key(epoch, brain, BestRoot(st, stakes, epoch, brain).value);
            && best in Keys(st.pending)
            && BackingStake(st, stakes, Key(epoch, brain, root)) <= BackingStake(st, stakes, best)
            && (FiledBefore(Keys(st.pending), Key(epoch, brain, root), best) ==>
                  BackingStake(st, stakes, Key(epoch, brain, root)) < BackingStake(st, stakes, best))
  {
    var keys, backing := Keys(st.pending), BackingOf(st, stakes, epoch, brain);
    assert root in RootsOf(keys, epoch, brain);
    BestIsFiled(st, stakes, epoch, brain);
    FirstMaxIsGreatest(backing, RootsOf(keys, epoch, brain), root);
    var best := FirstMax(backing, RootsOf(keys, epoch, brain));
    if FiledBefore(keys, Key(epoch, brain, root), Key(epoch, brain, best)) {
      FiledBeforeIsLess(backing, keys, epoch, brain, root, best);
    }
  }

  // ----- letter case

  /** An accepted signature of a root written like `text`, up to the case of letters. */
  ghost predicate SignsWritten(cfg: Config, op: Op, epoch: nat, brain: nat, text: string, signer: Address) {
    && op.Add? && op.epoch == epoch && op.brain == brain && op.signer == signer
    && SameTexts(Written(op.root), text)
    && RecoveredSigner(cfg, epoch, brain, op.root, op.signature) == Some(signer)
  }

  /** In every run, the signers on file under the text of a root are exactly those of whom
      a signature was accepted for a root written like it up to the case of letters. */
  lemma CaseIsDropped(cfg: Config, ops: seq<Op>, epoch: nat, brain: nat, text: string, signer: Address)
    ensures signer in Keys(SignersOf(Run(cfg, ops).st, Key(epoch, brain, Normalized(Text(text)))))
            <==> exists op :: op in ops && SignsWritten(cfg, op, epoch, brain, text, signer)
  {
    var key := Key(epoch, brain, Normalized(Text(text)));
    FiledExactlyIfSigned(cfg, ops, key, signer);
    forall op: Op
      ensures Signs(cfg, op, key, signer) <==> SignsWritten(cfg, op, epoch, brain, text, signer)
    {
      if op.Add? {
        FiledAlikeExactly(op.root, Text(text));
      }
    }
  }

  /** Two signers sign one root, written alike up to the case of letters. */
  predicate TwoCases(cfg: Config, first: Op, second: Op) {
    && first.Add? && second.Add? && first.epoch == second.epoch && first.brain == second.brain
    && first.signer != second.signer && SameTexts(Written(first.root), Written(second.root))
    && RecoveredSigner(cfg, first.epoch, first.brain, first.root, first.signature) == Some(first.signer)
    && RecoveredSigner(cfg, second.epoch, second.brain, second.root, second.signature) == Some(second.signer)
  }

  lemma TwoCasesFiled(cfg: Config, first: Op, second: Op)
    requires TwoCases(cfg, first, second)
    ensures KeyOf(second) == KeyOf(first)
    ensures var st := Run(cfg, [first, second]).st;
            && Keys(st.pending) == [KeyOf(first)] && st.proposed == {}
            && Keys(SignersOf(st, KeyOf(first))) == [first.signer, second.signer]
  {
    var key, t := KeyOf(first), Run(cfg, [first]);
    assert [first, second][..1] == [first];
    FiledAlikeExactly(first.root, second.root);
    OneSignature(cfg, first);
    StepFile(cfg, t, second);
    var signers := SignersOf(t.st, key);
    assert Keys(signers) == [first.signer] && Keys(t.st.pending) == [key];
    KeysPut(signers, second.signer, WithPrefix(second.signature));
    KeysPut(t.st.pending, key, Put(signers, second.signer, WithPrefix(second.signature)));
    LookupPut(t.st.pending, key, Put(signers, second.signer, WithPrefix(second.signature)), key);
    AddAnswers(cfg, t.st, second.epoch, second.brain, second.root, second.signer, second.signature);
  }

  /** Their stakes are counted together: if they reach the quorum jointly, the next attempt
      submits the root with both signers. */
  lemma CasesAreCountedTogether(cfg: Config, first: Op, second: Op, stakes: Stakes, outcome: Option<string>)
    requires TwoCases(cfg, first, second) && !StartsAskew(Normalized(first.root))
    requires var total := stakes.total(first.brain);
             && total > 0
             && stakes.of(first.brain, first.signer) + stakes.of(first.brain, second.signer)
                >= Need(total, cfg.minQuorumBps)
    ensures var call := ProposeStep(cfg, Run(cfg, [first, second]).st, stakes, first.epoch, first.brain, outcome).2;
            call.Some? && forall a :: a in call.value.signers <==> a == first.signer || a == second.signer
  {
    var st, key := Run(cfg, [first, second]).st, KeyOf(first);
    TwoCasesFiled(cfg, first, second);
    JointlyQuorate(cfg, st, stakes, key, first.signer, second.signer);
    ReachableIsValid(cfg, [first, second]);
    SoleKeyIsSubmitted(cfg, st, stakes, key, outcome);
  }

  lemma SoleKeyIsSubmitted(cfg: Config, st: State, stakes: Stakes, key: Key, outcome: Option<string>)
    requires Valid(cfg, st) && Keys(st.pending) == [key] && st.proposed == {} && !StartsAskew(key.root)
    requires SomeQuorum(cfg, st, stakes, key.epoch, key.brain)
    ensures var call := ProposeStep(cfg, st, stakes, key.epoch, key.brain, outcome).2;
            call.Some? && forall a :: a in call.value.signers <==> a in Keys(SignersOf(st, key))
  {
    ProposeExactlyOnQuorum(cfg, st, stakes, key.epoch, key.brain, outcome);
    BestIsFiled(st, stakes, key.epoch, key.brain);
    CallHasAllSigners(cfg, st, stakes, key.epoch, key.brain, outcome);
  }

  /** A submission names exactly the signers on file for its text. */
  lemma CallHasAllSigners(cfg: Config, st: State, stakes: Stakes, epoch: nat, brain: nat, outcome: Option<string>)
    requires ProposeStep(cfg, st, stakes, epoch, brain, outcome).2.Some?
    ensures var call := ProposeStep(cfg, st, stakes, epoch, brain, outcome).2.value;
            && Key(epoch, brain, call.root) in Keys(st.pending)
            && multiset(call.signers) == multiset(Keys(SignersOf(st, Key(epoch, brain, call.root))))
            && forall a :: a in call.signers <==> a in Keys(SignersOf(st, Key(epoch, brain, call.root)))
  {
    var call := ProposeStep(cfg, st, stakes, epoch, brain, outcome).2.value;
    ProposeTriesBest(cfg, st, stakes, epoch, brain, outcome);
    SortRearranges(AtMost, Keys(SignersOf(st, Key(epoch, brain, call.root))));
  }

  lemma JointlyQuorate(cfg: Config, st: State, stakes: Stakes, key: Key, a: Address, b: Address)
    requires Keys(SignersOf(st, key)) == [a, b] && key in Keys(st.pending) && stakes.total(key.brain) > 0
    requires stakes.of(key.brain, a) + stakes.of(key.brain, b) >= Need(stakes.total(key.brain), cfg.minQuorumBps)
    ensures SomeQuorum(cfg, st, stakes, key.epoch, key.brain)
  {
    BackingConcat(stakes, key.brain, [a], [b]);
    BackingOfOne(stakes, key.brain, a);
    BackingOfOne(stakes, key.brain, b);
    assert [a] + [b] == [a, b];
    assert key == Key(key.epoch, key.brain, key.root) && QuorumMet(cfg, st, stakes, key);
  }

  /** Without a share of its own the aggregator asks for 50.01 percent, a majority. */
  lemma DefaultIsMajority(recover: (nat, nat, seq<Byte>, string) -> Option<Address>, total: nat, x: nat)
    requires total > 0
    ensures var bps := Config(recover).minQuorumBps;
            && (x >= Need(total, bps) <==> 10000 * x >= 5001 * total)
            && 2 * Need(total, bps) > total
  {
    NeedIsCeiling(total, 5001, x);
    MajorityNeed(total, 5001);
  }
}
