/**
  The vote counters of the consensus state (crates/governance/src/consensus.rs) and how many repeated
  votes the agreement they give survives.
 */
module Consensus {
  import opened Arithmetic

  datatype Kind = Prepare | PreCommit | Commit | ViewChange | NewView

  datatype Message = Message(kind: Kind, sender: nat, view: nat, payload: seq<int>)

  function QuorumSize(validators: nat): nat {
    validators * 2 / 3 + 1
  }

  function MaxByzantine(validators: nat): nat {
    if validators == 0 then 0 else (validators - 1) / 3
  }

  // How many messages of a kind there are.
  function Count(round: seq<Message>, k: Kind): nat {
    if round == [] then 0
    else Count(round[..|round| - 1], k) + (if round[|round| - 1].kind == k then 1 else 0)
  }

  predicate PreparedBy(validators: nat, round: seq<Message>) {
    Count(round, Prepare) >= QuorumSize(validators)
  }

  predicate CommittedBy(validators: nat, round: seq<Message>) {
    PreparedBy(validators, round) && Count(round, PreCommit) >= QuorumSize(validators)
  }

  // The messages since the last reset.
  function Round(log: seq<Message>): seq<Message> {
    if log == [] then []
    else
      var m := log[|log| - 1];
      if m.kind == ViewChange || m.kind == NewView then [] else Round(log[..|log| - 1]) + [m]
  }

  lemma RoundSnoc(log: seq<Message>, m: Message)
    ensures Round(log + [m]) == if m.kind == ViewChange || m.kind == NewView then [] else Round(log) + [m]
  {
    assert (log + [m])[..|log + [m]| - 1] == log;
  }

  lemma CountSnoc(round: seq<Message>, m: Message, k: Kind)
    ensures Count(round + [m], k) == Count(round, k) + (if m.kind == k then 1 else 0)
    ensures Count([], k) == 0
  {
    assert (round + [m])[..|round + [m]| - 1] == round;
  }

  /** Votes are counted by their kind and since the last view change, however that began. */
  lemma RoundSpelledOut(log: seq<Message>, m: Message, k: Kind)
    ensures Count(Round(log + [m]), k) ==
      if m.kind == ViewChange || m.kind == NewView then 0 else Count(Round(log), k) + if m.kind == k then 1 else 0
    ensures Count(Round([]), k) == 0
  {
    RoundSnoc(log, m);
    CountSnoc(Round(log), m, k);
  }

  class ConsensusState {
    var currentView: nat
    var prepared: bool
    var committed: bool
    const validatorCount: nat
    var prepareCount: nat
    var precommitCount: nat
    var commitCount: nat
    ghost var log: seq<Message>

    constructor (validatorCount: nat)
      ensures this.validatorCount == validatorCount && log == [] && currentView == 0
      ensures Valid()
    {
      this.validatorCount := validatorCount;
      currentView := 0;
      prepared, committed := false, false;
      prepareCount, precommitCount, commitCount := 0, 0, 0;
      log := [];
    }

    // The counters and flags are determined by the messages since the last reset, as a bag.
    ghost predicate Valid()
      reads this
    {
      && prepareCount == Count(Round(log), Prepare)
      && precommitCount == Count(Round(log), PreCommit)
      && commitCount == Count(Round(log), Commit)
      && prepared == PreparedBy(validatorCount, Round(log))
      && committed == CommittedBy(validatorCount, Round(log))
    }

    method OnMessage(m: Message)
      requires Valid()
      modifies this
      ensures Valid() && log == old(log) + [m]
      ensures currentView == old(currentView) + if m.kind == ViewChange then 1 else 0
      ensures m.kind == ViewChange || m.kind == NewView ==>
        !prepared && !committed && prepareCount == precommitCount == commitCount == 0
      ensures m.kind == Prepare ==>
        prepareCount == old(prepareCount) + 1 && precommitCount == old(precommitCount) && commitCount == old(commitCount)
      ensures m.kind == PreCommit ==>
        prepareCount == old(prepareCount) && precommitCount == old(precommitCount) + 1 && commitCount == old(commitCount)
      ensures m.kind == Commit ==>
        prepareCount == old(prepareCount) && precommitCount == old(precommitCount) && commitCount == old(commitCount) + 1
      ensures prepareCount == Count(Round(log), Prepare) && precommitCount == Count(Round(log), PreCommit)
        && commitCount == Count(Round(log), Commit)
      ensures prepared <==> prepareCount >= validatorCount * 2 / 3 + 1
      ensures committed <==> prepared && precommitCount >= validatorCount * 2 / 3 + 1
      ensures m.kind != ViewChange && m.kind != NewView ==>
        (old(prepared) ==> prepared) && (old(committed) ==> committed)
    {
      hide Count, Round;
      RoundSnoc(log, m);
      CountSnoc(Round(log), m, Prepare);
      CountSnoc(Round(log), m, PreCommit);
      CountSnoc(Round(log), m, Commit);
      log := log + [m];
      match m.kind {
        case Prepare => prepareCount := prepareCount + 1;
        case PreCommit => precommitCount := precommitCount + 1;
        case Commit => commitCount := commitCount + 1;
        case ViewChange =>
          currentView := currentView + 1;
          ResetRound();
        case NewView => ResetRound();
      }
      CheckPhase();
    }

    method CheckPhase()
      modifies this`prepared, this`committed
      ensures prepared == (old(prepared) || prepareCount >= QuorumSize(validatorCount))
      ensures committed == (old(committed) || (precommitCount >= QuorumSize(validatorCount) && prepared))
    {
      var quorum := QuorumSize(validatorCount);
      if prepareCount >= quorum && !prepared {
        prepared := true;
      }
      if precommitCount >= quorum && prepared {
        committed := true;
      }
    }

    method ResetRound()
      modifies this`prepared, this`committed, this`prepareCount, this`precommitCount, this`commitCount
      ensures !prepared && !committed && prepareCount == precommitCount == commitCount == 0
    {
      prepared := false;
      committed := false;
      prepareCount := 0;
      precommitCount := 0;
      commitCount := 0;
    }
  }

  // ----- Order does not matter -----

  // The messages of a kind.
  ghost function OfKind(round: seq<Message>, k: Kind): (r: seq<Message>)
    ensures |r| == Count(round, k)
  {
    if round == [] then []
    else OfKind(round[..|round| - 1], k) + (if round[|round| - 1].kind == k then [round[|round| - 1]] else [])
  }

  lemma {:induction false} OfKindBag(round: seq<Message>, k: Kind, m: Message)
    ensures multiset(OfKind(round, k))[m] == if m.kind == k then multiset(round)[m] else 0
  {
    if round != [] {
      OfKindBag(round[..|round| - 1], k, m);
      assert round == round[..|round| - 1] + [round[|round| - 1]];
    }
  }

  lemma CountOfBag(a: seq<Message>, b: seq<Message>, k: Kind)
    requires multiset(a) == multiset(b)
    ensures Count(a, k) == Count(b, k)
  {
    var s, t := multiset(OfKind(a, k)), multiset(OfKind(b, k));
    forall m
      ensures s[m] == t[m]
    {
      OfKindBag(a, k, m);
      OfKindBag(b, k, m);
    }
    assert s == t && |s| == |OfKind(a, k)| && |t| == |OfKind(b, k)|;
  }

  /** Phases do not depend on the order in which a round's messages arrive. */
  lemma PhasesIgnoreOrder(validators: nat, a: seq<Message>, b: seq<Message>)
    requires multiset(a) == multiset(b)
    ensures PreparedBy(validators, a) == PreparedBy(validators, b)
    ensures CommittedBy(validators, a) == CommittedBy(validators, b)
  {
    CountOfBag(a, b, Prepare);
    CountOfBag(a, b, PreCommit);
  }

  // ----- Quorums -----

  ghost function Validators(n: nat): (s: set<nat>)
    ensures |s| == n && forall v: nat :: v in s <==> v < n
  {
    if n == 0 then {} else Validators(n - 1) + {n - 1}
  }

  // In numbers.
  lemma QuorumsInNumbers(f: nat)
    ensures QuorumSize(3 * f + 1) == 2 * f + 1 && MaxByzantine(3 * f + 1) == f
    ensures QuorumSize(0) == 1 && MaxByzantine(0) == 0
  {
  }

  /** Any two quorums share more validators than can be Byzantine. */
  lemma QuorumsOverlap(n: nat, a: set<nat>, b: set<nat>)
    requires a <= Validators(n) && b <= Validators(n)
    requires |a| >= QuorumSize(n) && |b| >= QuorumSize(n)
    ensures |a * b| > MaxByzantine(n)
  {
    assert a + b <= Validators(n);
    assert Validators(n) == (a + b) + (Validators(n) - (a + b));
    assert |a + b| + |a * b| == |a| + |b|;
  }

  // Who sent the messages of a kind.
  ghost function Senders(round: seq<Message>, k: Kind): set<nat> {
    if round == [] then {}
    else if round[|round| - 1].kind == k then Senders(round[..|round| - 1], k) + {round[|round| - 1].sender}
    else Senders(round[..|round| - 1], k)
  }

  lemma {:induction false} SenderIndex(round: seq<Message>, k: Kind, s: nat) returns (i: nat)
    requires s in Senders(round, k)
    ensures i < |round| && round[i].kind == k && round[i].sender == s
  {
    var last := round[|round| - 1];
    if last.kind == k && last.sender == s {
      i := |round| - 1;
    } else {
      i := SenderIndex(round[..|round| - 1], k, s);
    }
  }

  // Each sender is counted at most once for a kind.
  ghost predicate CountedOnce(round: seq<Message>, k: Kind) {
    forall i, j :: 0 <= i < j < |round| && round[i].kind == k && round[j].kind == k ==> round[i].sender != round[j].sender
  }

  lemma {:induction false} CountSenders(round: seq<Message>, k: Kind)
    requires CountedOnce(round, k)
    ensures |Senders(round, k)| == Count(round, k)
  {
    if round != [] {
      hide CountedOnce;
      var front, m := round[..|round| - 1], round[|round| - 1];
      if m.kind == k {
        LastSenderIsNew(round, k);
      }
      FrontCountedOnce(round, k);
      CountSenders(front, k);
    }
  }

  /** Only then are there as many senders as messages. */
  lemma {:induction false} CountedOnceExactly(round: seq<Message>, k: Kind)
    ensures CountedOnce(round, k) <==> |Senders(round, k)| == Count(round, k)
  {
    if CountedOnce(round, k) {
      CountSenders(round, k);
    } else {
      FewerSenders(round, k);
    }
  }

  lemma {:induction false} FewerSenders(round: seq<Message>, k: Kind)
    requires !CountedOnce(round, k)
    ensures |Senders(round, k)| < Count(round, k)
  {
    var front, m := round[..|round| - 1], round[|round| - 1];
    SendersAtMost(front, k);
    var i, j :| 0 <= i < j < |round| && round[i].kind == k && round[j].kind == k && round[i].sender == round[j].sender;
    if j == |front| {
      HasSender(front, k, i);
    } else {
      assert front[i] == round[i] && front[j] == round[j];
      FewerSenders(front, k);
    }
  }

  lemma {:induction false} HasSender(round: seq<Message>, k: Kind, i: nat)
    requires i < |round| && round[i].kind == k
    ensures round[i].sender in Senders(round, k)
  {
    if i < |round| - 1 {
      HasSender(round[..|round| - 1], k, i);
    }
  }

  lemma FrontCountedOnce(round: seq<Message>, k: Kind)
    requires CountedOnce(round, k) && round != []
    ensures CountedOnce(round[..|round| - 1], k)
  {
  }

  lemma LastSenderIsNew(round: seq<Message>, k: Kind)
    requires CountedOnce(round, k) && round != [] && round[|round| - 1].kind == k
    ensures round[|round| - 1].sender !in Senders(round[..|round| - 1], k)
  {
    var front, m := round[..|round| - 1], round[|round| - 1];
    if m.sender in Senders(front, k) {
      var i := SenderIndex(front, k, m.sender);
    }
  }

  // Every pre-commitment of the round is by one of the validators, for one view and payload.
  ghost predicate VotesFor(n: nat, round: seq<Message>, view: nat, payload: seq<int>) {
    forall i :: 0 <= i < |round| && round[i].kind == PreCommit ==>
      round[i].sender < n && round[i].view == view && round[i].payload == payload
  }

  // Outside byzantine, no validator pre-commits two payloads in one view.
  ghost predicate Honest(byzantine: set<nat>, a: seq<Message>, b: seq<Message>) {
    forall i, j ::
      (&& 0 <= i < |a| && 0 <= j < |b| && a[i].kind == PreCommit && b[j].kind == PreCommit
       && a[i].sender == b[j].sender && a[i].sender !in byzantine && a[i].view == b[j].view)
      ==> a[i].payload == b[j].payload
  }

  // Two replicas are committed in one view, to p and to q.
  ghost predicate BothCommit(n: nat, byzantine: set<nat>, a: seq<Message>, b: seq<Message>, view: nat, p: seq<int>, q: seq<int>) {
    && |byzantine| <= MaxByzantine(n) && Honest(byzantine, a, b)
    && VotesFor(n, a, view, p) && VotesFor(n, b, view, q)
    && CommittedBy(n, a) && CommittedBy(n, b)
  }

  // Pre-commitments counted beyond the first of each validator.
  ghost function Repeats(round: seq<Message>): (d: nat) {
    SendersAtMost(round, PreCommit);
    Count(round, PreCommit) - |Senders(round, PreCommit)|
  }

  lemma {:induction false} SendersAtMost(round: seq<Message>, k: Kind)
    ensures |Senders(round, k)| <= Count(round, k)
  {
    if round != [] {
      SendersAtMost(round[..|round| - 1], k);
    }
  }

  // By how much two quorums overlap beyond what is needed.
  function Slack(n: nat): nat {
    (n - 1) % 3
  }

  lemma SendersAreValidators(n: nat, round: seq<Message>, view: nat, payload: seq<int>)
    requires VotesFor(n, round, view, payload)
    ensures Senders(round, PreCommit) <= Validators(n)
  {
    forall s | s in Senders(round, PreCommit)
      ensures s in Validators(n)
    {
      var i := SenderIndex(round, PreCommit, s);
    }
  }

  lemma Overlap(n: nat, a: set<nat>, b: set<nat>)
    requires a <= Validators(n) && b <= Validators(n)
    ensures |a| + |b| <= n + |a * b|
    ensures n == 1 && a != {} && b != {} ==> |a * b| == 1
  {
    SubsetSize(a + b, Validators(n));
    assert |a + b| + |a * b| == |a| + |b|;
    if n == 1 && a != {} && b != {} {
      assert 0 in a && 0 in b;
      assert a * b == {0} == Validators(1);
    }
  }

  /** Two replicas committed in one view hold the same payload, with up to MaxByzantine validators
      voting both ways and up to Slack repeated pre-commitments between them; a sole validator may
      repeat itself at will. */
  lemma AgreementWithRepeats(n: nat, byzantine: set<nat>, a: seq<Message>, b: seq<Message>, view: nat, p: seq<int>, q: seq<int>)
    requires BothCommit(n, byzantine, a, b, view, p, q)
    requires n <= 1 || Repeats(a) + Repeats(b) <= Slack(n)
    ensures p == q
  {
    hide Count, Senders, Validators;
    var sa, sb := Senders(a, PreCommit), Senders(b, PreCommit);
    SendersAreValidators(n, a, view, p);
    SendersAreValidators(n, b, view, q);
    SomeSender(a);
    SomeSender(b);
    Overlap(n, sa, sb);
    assert |sa * sb| > MaxByzantine(n) by {
      hide Honest, VotesFor;
      if n == 0 {
        NoValidators();
      }
    }
    if sa * sb <= byzantine {
      SubsetSize(sa * sb, byzantine);
    }
    var v :| v in sa * sb && v !in byzantine;
    var i := SenderIndex(a, PreCommit, v);
    var j := SenderIndex(b, PreCommit, v);
  }

  lemma NoValidators()
    ensures Validators(0) == {}
  {
  }

  lemma {:induction false} SomeSender(round: seq<Message>)
    ensures Count(round, PreCommit) > 0 ==> Senders(round, PreCommit) != {}
  {
    if round != [] {
      SomeSender(round[..|round| - 1]);
    }
  }

  /** Agreement: two replicas that are committed in one view, counting each validator once, are
      committed to the same payload, with up to MaxByzantine validators voting both ways. */
  lemma Agreement(n: nat, byzantine: set<nat>, a: seq<Message>, b: seq<Message>, view: nat, p: seq<int>, q: seq<int>)
    requires BothCommit(n, byzantine, a, b, view, p, q)
    requires CountedOnce(a, PreCommit) && CountedOnce(b, PreCommit)
    ensures p == q
  {
    CountSenders(a, PreCommit);
    CountSenders(b, PreCommit);
    AgreementWithRepeats(n, byzantine, a, b, view, p, q);
  }

  // ----- How many repeated votes break agreement -----

  // A Prepare and a PreCommit by each of the senders, in the first view.
  ghost function Votes(senders: seq<nat>, payload: seq<int>): seq<Message> {
    if senders == [] then []
    else
      var last := senders[|senders| - 1];
      Votes(senders[..|senders| - 1], payload) + [Message(Prepare, last, 0, payload)] + [Message(PreCommit, last, 0, payload)]
  }

  lemma VotesSnoc(senders: seq<nat>, payload: seq<int>, k: Kind)
    requires senders != [] && (k == Prepare || k == PreCommit)
    ensures var front, last := senders[..|senders| - 1], senders[|senders| - 1];
      && Count(Votes(senders, payload), k) == Count(Votes(front, payload), k) + 1
      && Senders(Votes(senders, payload), k) == Senders(Votes(front, payload), k) + {last}
  {
    var v, last := Votes(senders[..|senders| - 1], payload), senders[|senders| - 1];
    var x, y := Message(Prepare, last, 0, payload), Message(PreCommit, last, 0, payload);
    assert (v + [x] + [y])[..|v + [x] + [y]| - 1] == v + [x];
    assert (v + [x])[..|v + [x]| - 1] == v;
  }

  lemma {:induction false} VotesCount(senders: seq<nat>, payload: seq<int>, k: Kind)
    requires k == Prepare || k == PreCommit
    ensures Count(Votes(senders, payload), k) == |senders|
    ensures forall v :: v in Senders(Votes(senders, payload), k) <==> v in senders
  {
    if senders != [] {
      var front, last := senders[..|senders| - 1], senders[|senders| - 1];
      VotesCount(front, payload, k);
      VotesSnoc(senders, payload, k);
      assert senders == front + [last];
      hide Count, Senders, Votes;
    }
  }

  lemma {:induction false} VotesAre(senders: seq<nat>, payload: seq<int>)
    ensures forall m :: m in Votes(senders, payload) ==> m.sender in senders && m.view == 0 && m.payload == payload
  {
    if senders != [] {
      VotesAre(senders[..|senders| - 1], payload);
    }
  }

  // The validators from on, m of them, the first repeated until there are q.
  ghost function Padded(from: nat, m: nat, q: nat): (s: seq<nat>)
    ensures |s| == q
  {
    seq(q, i => if i < m then from + i else from)
  }

  ghost function Range(from: nat, m: nat): (s: set<nat>)
    ensures |s| == m && forall v: nat :: v in s <==> from <= v < from + m
  {
    if m == 0 then {} else Range(from, m - 1) + {from + m - 1}
  }

  lemma {:induction false} PaddedHas(from: nat, m: nat, q: nat)
    requires 0 < m <= q
    ensures forall v: nat :: v in Padded(from, m, q) <==> from <= v < from + m
  {
    var senders := Padded(from, m, q);
    forall v: nat | from <= v < from + m
      ensures v in senders
    {
      assert senders[v - from] == v;
    }
  }

  // The round in which these validators commit a payload.
  lemma PaddedCommits(n: nat, from: nat, m: nat, payload: seq<int>)
    requires 0 < m <= QuorumSize(n) && from + m <= n
    ensures var round := Votes(Padded(from, m, QuorumSize(n)), payload);
      && CommittedBy(n, round) && VotesFor(n, round, 0, payload)
      && Repeats(round) == QuorumSize(n) - m
      && forall i :: 0 <= i < |round| ==> from <= round[i].sender < from + m && round[i].payload == payload
  {
    hide Votes, Senders, Count, QuorumSize, Range;
    var q := QuorumSize(n);
    var senders := Padded(from, m, q);
    var round := Votes(senders, payload);
    PaddedHas(from, m, q);
    hide Padded;
    assert CommittedBy(n, round) && Repeats(round) == q - m by {
      VotesCount(senders, payload, Prepare);
      VotesCount(senders, payload, PreCommit);
      assert Senders(round, PreCommit) == Range(from, m);
    }
    VotesAre(senders, payload);
    forall i | 0 <= i < |round|
      ensures from <= round[i].sender < from + m && round[i].payload == payload && round[i].view == 0
    {
      assert round[i] in round;
    }
  }

  // The first q - 1 validators and the last k, for a quorum of q, have f in common.
  lemma TwoQuorums(n: nat) returns (q: nat, f: nat, k: nat)
    requires n >= 2
    ensures q == QuorumSize(n) && f == MaxByzantine(n) && n - k + f == q - 1
    ensures 0 < k <= q && 0 < q - 1 && k <= n && q - 1 <= n && 1 + (q - k) == Slack(n) + 1
  {
    q, f := QuorumSize(n), MaxByzantine(n);
    k := n + f + 1 - q;
  }

  /** One repeated pre-commitment more than Slack, and two validators or more, commit two replicas to
      different payloads: the counters count messages, not validators. */
  lemma RepeatedVotesBreakAgreement(n: nat)
    requires n >= 2
    ensures exists byzantine, a, b ::
      BothCommit(n, byzantine, a, b, 0, [1], [2]) && Repeats(a) + Repeats(b) == Slack(n) + 1
  {
    hide Votes, Padded, Repeats, CommittedBy, VotesFor;
    var q, f, k := TwoQuorums(n);
    var a, b := Votes(Padded(0, q - 1, q), [1]), Votes(Padded(n - k, k, q), [2]);
    PaddedCommits(n, 0, q - 1, [1]);
    PaddedCommits(n, n - k, k, [2]);
    hide QuorumSize, MaxByzantine, Slack;
    var byzantine := Range(n - k, f);
    assert Honest(byzantine, a, b);
    assert BothCommit(n, byzantine, a, b, 0, [1], [2]);
  }

  ghost predicate AlwaysAgree(n: nat, repeats: nat) {
    forall byzantine, a, b, view, p, q ::
      BothCommit(n, byzantine, a, b, view, p, q) && Repeats(a) + Repeats(b) <= repeats ==> p == q
  }

  /** Exactly: commitments agree, whatever the rounds, if and only if there is at most one validator
      or the repeated pre-commitments of the two rounds are at most (n - 1) % 3. */
  lemma AgreementExact(n: nat, repeats: nat)
    ensures AlwaysAgree(n, repeats) <==> n <= 1 || repeats <= Slack(n)
  {
    hide BothCommit, Repeats;
    if n <= 1 || repeats <= Slack(n) {
      forall byzantine, a, b, view, p, q | BothCommit(n, byzantine, a, b, view, p, q) && Repeats(a) + Repeats(b) <= repeats
        ensures p == q
      {
        AgreementWithRepeats(n, byzantine, a, b, view, p, q);
      }
    } else {
      RepeatedVotesBreakAgreement(n);
      var byzantine, a, b :|
        BothCommit(n, byzantine, a, b, 0, [1], [2]) && Repeats(a) + Repeats(b) == Slack(n) + 1;
    }
  }
}
