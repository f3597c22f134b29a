/**
  The hash-chained audit trail (crates/governance/src/audit_trail.rs).  Texts are byte sequences, an
  action is its printed form, and the hash function and the ids and times of events are parameters.
 */
module AuditTrail {
  import opened Bytes

  type Text = seq<byte>

  type HashFunction = Text -> Text

  const GENESIS: Text := [103, 101, 110, 101, 115, 105, 115]  // "genesis"
  const HASH_LENGTH := 64

  datatype Event = Event(
    id: nat, sequence: nat, action: Text, actor: Text, target: Text, details: Text, timestamp: Text,
    previousHash: Text, hash: Text)

  datatype Verdict = Intact | TamperDetected(id: nat) | LastHashMismatch

  predicate HexDigit(b: byte) {
    48 <= b <= 57 || 97 <= b <= 102
  }

  // Always 64 lower-case hexadecimal digits.
  ghost predicate HexHash(h: HashFunction) {
    forall s :: |h(s)| == HASH_LENGTH && forall i :: 0 <= i < HASH_LENGTH ==> HexDigit(h(s)[i])
  }

  lemma HexHashSpelledOut(h: HashFunction, s: Text, i: nat)
    requires HexHash(h) && i < 64
    ensures |h(s)| == 64
    ensures h(s)[i] in {48, 49, 50, 51, 52, 53, 54, 55, 56, 57} || h(s)[i] in {97, 98, 99, 100, 101, 102}
  {
  }

  lemma HexHashExists()
    ensures exists h :: HexHash(h)
  {
    var zeros: Text := seq(HASH_LENGTH, _ => 48);
    assert HexHash(_ => zeros);
  }

  // What is hashed: neither the id nor the target nor the details are.
  function Hashed(e: Event): Text {
    Encode(e.sequence, 8) + e.action + e.actor + e.timestamp + e.previousHash
  }

  function ComputeHash(h: HashFunction, e: Event): Text {
    h(Hashed(e))
  }

  // The verdict on a chain that must start from previous and end in last.
  function Verify(h: HashFunction, events: seq<Event>, previous: Text, last: Text): Verdict {
    if events == [] then (if previous != last then LastHashMismatch else Intact)
    else
      var e := events[0];
      if e.previousHash != previous || ComputeHash(h, e) != e.hash then TamperDetected(e.id)
      else Verify(h, events[1..], e.hash, last)
  }

  // The same from the back: the chain links up and carries its own hashes.
  ghost predicate Chained(h: HashFunction, events: seq<Event>, last: Text) {
    if events == [] then last == GENESIS
    else
      var e := events[|events| - 1];
      e.hash == last && ComputeHash(h, e) == e.hash && Chained(h, events[..|events| - 1], e.previousHash)
  }

  // Event i carries its own hash and that of the event before it.
  ghost predicate Sound(h: HashFunction, events: seq<Event>, previous: Text, i: nat)
    requires i < |events|
  {
    && events[i].previousHash == (if i == 0 then previous else events[i - 1].hash)
    && events[i].hash == h(Hashed(events[i]))
  }

  /** The verdict names the first unsound event; without one, it compares the hash at the end. */
  lemma {:induction false} VerdictExact(h: HashFunction, events: seq<Event>, previous: Text, last: Text, k: nat)
    requires k <= |events| && forall i :: 0 <= i < k ==> Sound(h, events, previous, i)
    requires k == |events| || !Sound(h, events, previous, k)
    ensures Verify(h, events, previous, last) ==
      if k < |events| then TamperDetected(events[k].id)
      else if last == (if events == [] then previous else events[|events| - 1].hash) then Intact
      else LastHashMismatch
  {
    hide Hashed;
    if events != [] {
      var e, rest := events[0], events[1..];
      assert Sound(h, events, previous, 0) <==> e.previousHash == previous && ComputeHash(h, e) == e.hash;
      if k > 0 {
        forall i | 0 <= i < |rest|
          ensures Sound(h, rest, e.hash, i) <==> Sound(h, events, previous, i + 1)
        {
          SoundTail(h, events, previous, i);
        }
        hide Sound;
        VerdictExact(h, rest, e.hash, last, k - 1);
      }
    }
  }

  lemma SoundTail(h: HashFunction, events: seq<Event>, previous: Text, i: nat)
    requires i + 1 < |events|
    ensures Sound(h, events[1..], events[0].hash, i) <==> Sound(h, events, previous, i + 1)
  {
    hide Hashed;
  }

  /** The sequence number is hashed as eight bytes, least significant first, and the event before the
      first one counts as having the hash "genesis". */
  lemma HashedSpelledOut(e: Event)
    ensures e.sequence == 259 && e.previousHash == GENESIS ==>
      Hashed(e) == [3, 1, 0, 0, 0, 0, 0, 0] + e.action + e.actor + e.timestamp + [103, 101, 110, 101, 115, 105, 115]
  {
    assert Encode(259, 8) == [3, 1, 0, 0, 0, 0, 0, 0];
  }

  lemma {:induction false} VerifySnoc(h: HashFunction, events: seq<Event>, e: Event, previous: Text, last: Text)
    ensures Verify(h, events + [e], previous, last) == Intact <==>
      Verify(h, events, previous, e.previousHash) == Intact && ComputeHash(h, e) == e.hash && e.hash == last
  {
    if events == [] {
      assert ([] + [e])[1..] == [];
      assert [] + [e] == [e];
    } else {
      VerifySnoc(h, events[1..], e, events[0].hash, last);
      assert (events + [e])[1..] == events[1..] + [e];
    }
  }

  lemma {:induction false} VerifiedIsChained(h: HashFunction, events: seq<Event>, last: Text)
    ensures Verify(h, events, GENESIS, last) == Intact <==> Chained(h, events, last)
  {
    if events != [] {
      var front, e := events[..|events| - 1], events[|events| - 1];
      assert events == front + [e];
      VerifiedIsChained(h, front, e.previousHash);
      VerifySnoc(h, front, e, GENESIS, last);
    }
  }

  // The hash a chain ends in: the genesis mark when it is empty, 64 hexadecimal digits otherwise.
  lemma ChainedEnd(h: HashFunction, events: seq<Event>, last: Text)
    requires HexHash(h) && Chained(h, events, last)
    ensures if events == [] then last == GENESIS else |last| == HASH_LENGTH && HexDigit(last[HASH_LENGTH - 1])
  {
  }

  // Two ends of chains that are suffixes of one text are equal.
  lemma SuffixesAgree(x: Text, p: Text, y: Text, q: Text)
    requires x + p == y + q
    requires p == GENESIS || (|p| == HASH_LENGTH && HexDigit(p[HASH_LENGTH - 1]))
    requires q == GENESIS || (|q| == HASH_LENGTH && HexDigit(q[HASH_LENGTH - 1]))
    ensures p == q
  {
    var t := x + p;
    assert t[|t| - 1] == p[|p| - 1] && t[|t| - 1] == q[|q| - 1];
    assert |p| == |q|;
    assert p == t[|t| - |p|..] && q == t[|t| - |q|..];
  }

  ghost predicate SameRecord(d: Event, e: Event) {
    && Hashed(d) == Hashed(e) && d.hash == e.hash
    && d.previousHash == e.previousHash && d.sequence % TWO_64 == e.sequence % TWO_64
  }

  ghost predicate SameHistory(a: seq<Event>, b: seq<Event>) {
    |a| == |b| && forall i :: 0 <= i < |a| ==> SameRecord(a[i], b[i])
  }

  // Walking both trails back from their ends meets two events with different hashed bytes and one hash.
  ghost predicate Collide(h: HashFunction, a: seq<Event>, b: seq<Event>) {
    a != [] && b != [] && (Clash(h, a[|a| - 1], b[|b| - 1]) || Collide(h, a[..|a| - 1], b[..|b| - 1]))
  }

  ghost predicate Clash(h: HashFunction, d: Event, e: Event) {
    Hashed(d) != Hashed(e) && ComputeHash(h, d) == ComputeHash(h, e)
  }

  /** The last hash commits to the whole history: two intact trails with the same last hash have
      the same length and, event by event, the same hashed bytes and hashes, if and only if their
      events do not exhibit a collision of the hash function. */
  lemma {:induction false} LastHashCommits(h: HashFunction, a: seq<Event>, b: seq<Event>, last: Text)
    requires HexHash(h)
    requires Verify(h, a, GENESIS, last) == Intact && Verify(h, b, GENESIS, last) == Intact
    ensures SameHistory(a, b) <==> !Collide(h, a, b)
  {
    VerifiedIsChained(h, a, last);
    VerifiedIsChained(h, b, last);
    hide Collide, Chained, Verify, SameHistory;
    if SameHistory(a, b) {
      SameNeverCollide(h, a, b);
    } else if !Collide(h, a, b) {
      ChainedCommits(h, a, b, last);
    }
  }

  lemma {:induction false} SameNeverCollide(h: HashFunction, a: seq<Event>, b: seq<Event>)
    requires SameHistory(a, b)
    ensures !Collide(h, a, b)
  {
    hide Hashed;
    if a != [] {
      assert SameRecord(a[|a| - 1], b[|b| - 1]);
      FrontsSame(a, b);
      SameNeverCollide(h, a[..|a| - 1], b[..|b| - 1]);
    }
  }

  lemma FrontsSame(a: seq<Event>, b: seq<Event>)
    requires SameHistory(a, b) && a != []
    ensures SameHistory(a[..|a| - 1], b[..|b| - 1])
  {
    hide SameRecord;
  }

  /** So a hash function without collisions among the bytes that two trails hash commits to them. */
  lemma CollisionFreeCommits(h: HashFunction, used: iset<Text>, a: seq<Event>, b: seq<Event>, last: Text)
    requires HexHash(h) && forall s, t :: s in used && t in used && h(s) == h(t) ==> s == t
    requires forall e :: e in a || e in b ==> Hashed(e) in used
    requires Verify(h, a, GENESIS, last) == Intact && Verify(h, b, GENESIS, last) == Intact
    ensures SameHistory(a, b)
  {
    hide Verify, HexHash, SameHistory, Hashed;
    LastHashCommits(h, a, b, last);
    CollideInside(h, used, a, b);
  }

  lemma {:induction false} CollideInside(h: HashFunction, used: iset<Text>, a: seq<Event>, b: seq<Event>)
    requires forall e :: e in a || e in b ==> Hashed(e) in used
    requires forall s, t :: s in used && t in used && h(s) == h(t) ==> s == t
    ensures !Collide(h, a, b)
  {
    hide Hashed;
    if a != [] && b != [] {
      assert a[|a| - 1] in a && b[|b| - 1] in b;
      CollideInside(h, used, a[..|a| - 1], b[..|b| - 1]);
    }
  }

  lemma {:induction false} ChainedCommits(h: HashFunction, a: seq<Event>, b: seq<Event>, last: Text)
    requires HexHash(h) && Chained(h, a, last) && Chained(h, b, last) && !Collide(h, a, b)
    ensures SameHistory(a, b)
  {
    hide SameRecord, Hashed, HexHash, HexDigit, Clash;
    ChainedEnd(h, a, last);
    ChainedEnd(h, b, last);
    if a != [] && b != [] {
      var front, front' := a[..|a| - 1], b[..|b| - 1];
      LastRecordsAgree(h, a, b, last);
      ChainedCommits(h, front, front', a[|a| - 1].previousHash);
      forall i | 0 <= i < |a|
        ensures SameRecord(a[i], b[i])
      {
        assert i < |front| ==> a[i] == front[i] && b[i] == front'[i];
      }
    }
  }

  lemma LastRecordsAgree(h: HashFunction, a: seq<Event>, b: seq<Event>, last: Text)
    requires HexHash(h) && Chained(h, a, last) && Chained(h, b, last) && a != [] && b != [] && !Collide(h, a, b)
    ensures SameRecord(a[|a| - 1], b[|b| - 1]) && a[|a| - 1].previousHash == b[|b| - 1].previousHash
  {
    hide Encode;
    var d, e := a[|a| - 1], b[|b| - 1];
    assert Hashed(d) == Hashed(e);
    ChainedEnd(h, a[..|a| - 1], d.previousHash);
    ChainedEnd(h, b[..|b| - 1], e.previousHash);
    SuffixesAgree(Encode(d.sequence, 8) + d.action + d.actor + d.timestamp, d.previousHash,
                  Encode(e.sequence, 8) + e.action + e.actor + e.timestamp, e.previousHash);
    SameSequence(d, e);
  }

  lemma SequenceFirst(e: Event)
    ensures |Hashed(e)| >= 8 && Hashed(e)[..8] == Encode(e.sequence, 8)
  {
    hide Encode;
    assert Hashed(e) == Encode(e.sequence, 8) + (e.action + e.actor + e.timestamp + e.previousHash);
  }

  lemma SameSequence(d: Event, e: Event)
    requires Hashed(d) == Hashed(e)
    ensures d.sequence % TWO_64 == e.sequence % TWO_64
  {
    hide Encode, Decode, Hashed;
    SequenceFirst(d);
    SequenceFirst(e);
    DecodeEncode(d.sequence, 8);
    DecodeEncode(e.sequence, 8);
    WordSizes();
  }

  /** The commitment stops at the hashed bytes: the target and details can change without any trace. */
  lemma CommitmentLimits(h: HashFunction, e: Event, target: Text, details: Text)
    ensures Hashed(e.(target := target, details := details)) == Hashed(e)
    ensures ComputeHash(h, e.(target := target, details := details)) == ComputeHash(h, e)
  {
  }

  class AuditTrail {
    const hash: HashFunction
    var events: seq<Event>
    var lastHash: Text
    var eventCount: nat

    constructor (hash: HashFunction)
      ensures this.hash == hash && events == [] && eventCount == 0 && Valid()
      ensures lastHash == [103, 101, 110, 101, 115, 105, 115]
    {
      this.hash := hash;
      events := [];
      lastHash := GENESIS;
      eventCount := 0;
    }

    ghost predicate Valid()
      reads this
    {
      && Verify(hash, events, GENESIS, lastHash) == Intact
      && eventCount == |events|
      && forall i :: 0 <= i < |events| ==> events[i].sequence == i + 1
    }

    /** Every run of appends leaves a trail that verifies, numbered from 1. */
    method Append(action: Text, actor: Text, details: Text, id: nat, timestamp: Text)
      requires Valid()
      modifies this`events, this`lastHash, this`eventCount
      ensures Valid() && |events| == |old(events)| + 1 && events[..|old(events)|] == old(events)
      ensures Verify(hash, events, GENESIS, lastHash) == Intact && eventCount == |events|
      ensures forall i :: 0 <= i < |events| ==> events[i].sequence == i + 1
      ensures var e := events[|events| - 1];
        && e.id == id && e.action == action && e.actor == actor && e.details == details && e.timestamp == timestamp
        && e.sequence == old(eventCount) + 1 && e.previousHash == old(lastHash) && lastHash == e.hash == ComputeHash(hash, e)
    {
      var sequence := eventCount + 1;
      var event := Event(id, sequence, action, actor, [], details, timestamp, lastHash, []);
      event := event.(hash := ComputeHash(hash, event));
      VerifySnoc(hash, events, event, GENESIS, event.hash);
      lastHash := event.hash;
      events := events + [event];
      eventCount := sequence;
    }

    method VerifyIntegrity() returns (v: Verdict)
      ensures v == Verify(hash, events, GENESIS, lastHash)
    {
      var previous := GENESIS;
      for i := 0 to |events|
        invariant Verify(hash, events, GENESIS, lastHash) == Verify(hash, events[i..], previous, lastHash)
      {
        var event := events[i];
        assert events[i..][1..] == events[i + 1..];
        if event.previousHash != previous {
          return TamperDetected(event.id);
        }
        if ComputeHash(hash, event) != event.hash {
          return TamperDetected(event.id);
        }
        previous := event.hash;
      }
      if previous != lastHash {
        return LastHashMismatch;
      }
      return Intact;
    }
  }
}
