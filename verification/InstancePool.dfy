/**
  The pool of module instances (crates/wasm-runtime/src/instance_pool.rs).  Each critical section of
  the source is one method, so an interleaving of threads is a sequence of method calls; acquire
  consists of TryReuse and, on a miss, RecordMiss and Insert, with other calls in between.
  Instances are identified by their ids, and creating one is left to the caller of Insert.
 */
module InstancePool {
  import opened Arithmetic
  import opened Wrappers

  type Id = string

  datatype Entry = Entry(moduleName: string, lastUsed: int, inUse: bool)

  datatype Stats = Stats(created: nat, destroyed: nat, reused: nat, hits: nat, misses: nat)

  function IdsInUse(entries: map<Id, Entry>): set<Id> {
    set id | id in entries && entries[id].inUse
  }

  function IdleIds(entries: map<Id, Entry>): set<Id> {
    set id | id in entries && !entries[id].inUse
  }

  ghost predicate LeastRecentIdle(victim: Id, entries: map<Id, Entry>) {
    victim in IdleIds(entries) && forall id :: id in IdleIds(entries) ==> entries[victim].lastUsed <= entries[id].lastUsed
  }

  /** Every entry is either in use or idle, as its flag says. */
  lemma UseSpelledOut(entries: map<Id, Entry>, id: Id, e: Entry)
    requires id !in entries
    ensures IdsInUse(map[]) == IdleIds(map[]) == {}
    ensures IdsInUse(entries[id := e]) == IdsInUse(entries) + if e.inUse then {id} else {}
    ensures IdleIds(entries[id := e]) == IdleIds(entries) + if e.inUse then {} else {id}
  {
    var after := entries[id := e];
    assert forall i :: i in after <==> i == id || i in entries;
    assert forall i :: i in entries ==> after[i] == entries[i];
  }

  /** Whatever was used before a victim is in use. */
  lemma VictimSpelledOut(entries: map<Id, Entry>, victim: Id)
    ensures LeastRecentIdle(victim, entries) <==>
      && victim in entries && !entries[victim].inUse
      && forall id :: id in entries && entries[id].lastUsed < entries[victim].lastUsed ==> entries[id].inUse
  {
    assert forall id :: id in entries ==> (id in IdleIds(entries) <==> !entries[id].inUse);
  }

  lemma UseSplitsIds(entries: map<Id, Entry>)
    ensures |entries| == |IdsInUse(entries)| + |IdleIds(entries)|
    ensures IdsInUse(entries) !! IdleIds(entries)
  {
    assert entries.Keys == IdsInUse(entries) + IdleIds(entries);
  }

  lemma {:induction false} LeastRecentExists(ids: set<Id>, entries: map<Id, Entry>)
    requires ids != {} && ids <= entries.Keys
    ensures exists victim :: victim in ids && forall id :: id in ids ==> entries[victim].lastUsed <= entries[id].lastUsed
    decreases ids
  {
    var id :| id in ids;
    if ids != {id} {
      LeastRecentExists(ids - {id}, entries);
      var v :| v in ids - {id} && forall i :: i in ids - {id} ==> entries[v].lastUsed <= entries[i].lastUsed;
      var w := if entries[v].lastUsed <= entries[id].lastUsed then v else id;
      assert w in ids && forall i :: i in ids ==> entries[w].lastUsed <= entries[i].lastUsed;
    }
  }

  ghost predicate OldestFirst(ids: seq<Id>, entries: map<Id, Entry>) {
    && (forall i :: 0 <= i < |ids| ==> ids[i] in entries)
    && (forall i, j :: 0 <= i < j < |ids| ==> ids[i] != ids[j] && entries[ids[i]].lastUsed <= entries[ids[j]].lastUsed)
  }

  function Elements(ids: seq<Id>): set<Id> {
    set id | id in ids
  }

  lemma ResizeEffect(before: map<Id, Entry>, after: map<Id, Entry>, ids: seq<Id>, n: nat)
    requires n <= |ids| && OldestFirst(ids, before) && forall id :: id in ids <==> id in IdleIds(before)
    requires after == before - Elements(ids[..n])
    ensures IdsInUse(after) == IdsInUse(before)
    ensures forall gone, kept :: gone in before && gone !in after && kept in IdleIds(after) ==>
      before[gone].lastUsed <= after[kept].lastUsed
  {
    forall id | id in IdsInUse(before)
      ensures id in IdsInUse(after)
    {
      assert id !in ids;
    }
    assert forall id :: id in IdsInUse(after) ==> id in IdsInUse(before);
    forall gone, kept | gone in before && gone !in after && kept in IdleIds(after)
      ensures before[gone].lastUsed <= after[kept].lastUsed
    {
      assert gone in ids[..n];
      var i :| 0 <= i < n && ids[i] == gone;
      assert kept in ids && kept !in ids[..n];
      var j :| 0 <= j < |ids| && ids[j] == kept;
      assert forall k :: 0 <= k < n ==> ids[..n][k] == ids[k];
    }
  }

  lemma NoneDropped(entries: map<Id, Entry>, ids: seq<Id>)
    ensures entries == entries - Elements(ids[..0])
  {
  }

  lemma DropOne(before: map<Id, Entry>, entries: map<Id, Entry>, ids: seq<Id>, k: nat)
    requires k < |ids| && OldestFirst(ids, before) && entries == before - Elements(ids[..k])
    ensures entries - {ids[k]} == before - Elements(ids[..k + 1])
    ensures |entries - {ids[k]}| == |entries| - 1
  {
    var id, rest := ids[k], entries - {ids[k]};
    assert id in entries by {
      assert id !in ids[..k];
    }
    hide OldestFirst;
    assert rest == before - Elements(ids[..k + 1]) by {
      assert ids[..k + 1] == ids[..k] + [id];
    }
    SizeAfterRemoving(entries, id);
  }

  class Pool {
    var entries: map<Id, Entry>
    var maxSize: nat
    var stats: Stats
    const idleTimeout: nat

    constructor (maxSize: nat, idleTimeout: nat)
      ensures entries == map[] && this.maxSize == maxSize && this.idleTimeout == idleTimeout && Counted()
    {
      entries := map[];
      this.maxSize := maxSize;
      this.idleTimeout := idleTimeout;
      stats := Stats(0, 0, 0, 0, 0);
    }

    // The counters account for every entry ever inserted.
    ghost predicate Counted()
      reads this
    {
      stats.created == stats.destroyed + |entries| && stats.hits == stats.reused
    }

    // ----- acquire -----

    method TryReuse(moduleName: string, now: int) returns (r: Option<Id>)
      requires Counted()
      modifies this`entries, this`stats
      ensures Counted()
      ensures r.Some? ==>
        && r.value in IdleIds(old(entries)) && old(entries)[r.value].moduleName == moduleName
        && entries == old(entries)[r.value := Entry(moduleName, now, true)]
        && stats == old(stats).(hits := old(stats).hits + 1, reused := old(stats).reused + 1)
        && IdsInUse(entries) == IdsInUse(old(entries)) + {r.value} && r.value !in IdsInUse(old(entries))
      ensures r.None? ==>
        && entries == old(entries) && stats == old(stats)
        && forall id :: id in IdleIds(entries) ==> entries[id].moduleName != moduleName
    {
      var fitting := set id | id in entries && entries[id].moduleName == moduleName && !entries[id].inUse;
      if fitting == {} {
        assert forall id :: id in IdleIds(entries) && entries[id].moduleName == moduleName ==> id in fitting;
        return None;
      }
      var id :| id in fitting;
      ghost var before := entries;
      entries := entries[id := entries[id].(inUse := true, lastUsed := now)];
      assert entries.Keys == before.Keys;
      stats := stats.(hits := stats.hits + 1, reused := stats.reused + 1);
      return Some(id);
    }

    method RecordMiss()
      requires Counted()
      modifies this`stats
      ensures Counted() && stats == old(stats).(misses := old(stats).misses + 1)
    {
      stats := stats.(misses := stats.misses + 1);
    }

    /** Ids are fresh.  A full pool gives up its least recently used idle instance, or refuses. */
    method Insert(id: Id, moduleName: string, now: int) returns (ok: bool)
      requires Counted() && id !in entries
      modifies this`entries, this`stats
      ensures Counted()
      ensures ok <==> |old(entries)| < maxSize || IdleIds(old(entries)) != {}
      ensures !ok ==> entries == old(entries) && stats == old(stats)
      ensures ok && |old(entries)| < maxSize ==>
        && entries == old(entries)[id := Entry(moduleName, now, true)]
        && stats == old(stats).(created := old(stats).created + 1)
      ensures ok && |old(entries)| >= maxSize ==>
        && (exists victim ::
              LeastRecentIdle(victim, old(entries))
              && entries == (old(entries) - {victim})[id := Entry(moduleName, now, true)])
        && stats == old(stats).(created := old(stats).created + 1, destroyed := old(stats).destroyed + 1)
      ensures |entries| <= |old(entries)| || |entries| <= maxSize
      ensures ok ==> IdsInUse(entries) == IdsInUse(old(entries)) + {id} && id !in IdsInUse(old(entries))
    {
      if |entries| >= maxSize {
        var evicted := EvictLeastRecent();
        if !evicted {
          return false;
        }
      }
      ghost var rest := entries;
      entries := entries[id := Entry(moduleName, now, true)];
      assert entries.Keys == rest.Keys + {id};
      stats := stats.(created := stats.created + 1);
      return true;
    }

    // Makes room in a full pool.
    method EvictLeastRecent() returns (ok: bool)
      requires Counted()
      modifies this`entries, this`stats
      ensures Counted()
      ensures ok <==> IdleIds(old(entries)) != {}
      ensures !ok ==> entries == old(entries) && stats == old(stats)
      ensures ok ==>
        && (exists victim :: LeastRecentIdle(victim, old(entries)) && entries == old(entries) - {victim})
        && stats == old(stats).(destroyed := old(stats).destroyed + 1)
        && IdsInUse(entries) == IdsInUse(old(entries)) && |entries| == |old(entries)| - 1
    {
      var idle := IdleIds(entries);
      if idle == {} {
        return false;
      }
      LeastRecentExists(idle, entries);
      var victim :| victim in idle && forall i :: i in idle ==> entries[victim].lastUsed <= entries[i].lastUsed;
      assert LeastRecentIdle(victim, entries);
      ghost var before := entries;
      entries := entries - {victim};
      assert before.Keys == entries.Keys + {victim};
      stats := stats.(destroyed := stats.destroyed + 1);
      return true;
    }

    // ----- The other operations -----

    method Release(id: Id, now: int) returns (ok: bool)
      requires Counted()
      modifies this`entries
      ensures Counted()
      ensures ok <==> id in old(entries)
      ensures entries == if ok then old(entries)[id := old(entries)[id].(inUse := false, lastUsed := now)] else old(entries)
      ensures IdsInUse(entries) == IdsInUse(old(entries)) - {id}
    {
      ok := id in entries;
      if ok {
        ghost var before := entries;
        entries := entries[id := entries[id].(inUse := false, lastUsed := now)];
        assert entries.Keys == before.Keys;
      }
    }

    method Destroy(id: Id) returns (ok: bool)
      requires Counted()
      modifies this`entries, this`stats
      ensures Counted()
      ensures ok <==> id in old(entries)
      ensures entries == old(entries) - {id}
      ensures IdsInUse(entries) == IdsInUse(old(entries)) - {id}
      ensures stats == if ok then old(stats).(destroyed := old(stats).destroyed + 1) else old(stats)
    {
      ok := id in entries;
      if ok {
        ghost var before := entries;
        entries := entries - {id};
        assert before.Keys == entries.Keys + {id};
        stats := stats.(destroyed := stats.destroyed + 1);
      }
    }

    method EvictIdle(now: int) returns (evicted: nat)
      requires Counted()
      modifies this`entries, this`stats
      ensures Counted()
      ensures entries == map id | id in old(entries)
        && !(!old(entries)[id].inUse && now - old(entries)[id].lastUsed > idleTimeout) :: old(entries)[id]
      ensures evicted == |old(entries)| - |entries|
      ensures IdsInUse(entries) == IdsInUse(old(entries))
      ensures stats == old(stats).(destroyed := old(stats).destroyed + evicted)
    {
      var gone := set id | id in entries && !entries[id].inUse && now - entries[id].lastUsed > idleTimeout;
      ghost var before := entries;
      entries := entries - gone;
      assert before.Keys == entries.Keys + gone;
      evicted := |gone|;
      stats := stats.(destroyed := stats.destroyed + evicted);
    }

    /** Shrinking drops idle instances, least recently used first, until new_max or only the ones
        in use are left. */
    method Resize(newMax: nat) returns (removed: nat)
      requires Counted()
      modifies this`entries, this`stats, this`maxSize
      ensures Counted() && maxSize == newMax
      ensures newMax >= |old(entries)| ==> removed == 0 && entries == old(entries) && stats == old(stats)
      ensures newMax < |old(entries)| ==>
        var used := |IdsInUse(old(entries))|;
        |entries| == if used > newMax then used else newMax
      ensures removed == |old(entries)| - |entries|
      ensures stats == old(stats).(destroyed := old(stats).destroyed + removed)
      ensures forall id :: id in entries ==> id in old(entries) && entries[id] == old(entries)[id]
      ensures IdsInUse(entries) == IdsInUse(old(entries))
      ensures forall gone, kept :: gone in old(entries) && gone !in entries && kept in IdleIds(entries) ==>
        old(entries)[gone].lastUsed <= entries[kept].lastUsed
    {
      if newMax >= |entries| {
        maxSize := newMax;
        return 0;
      }
      var toRemove := SortedIdle();
      UseSplitsIds(entries);
      var removeCount := |entries| - newMax;
      removed := DropFirst(toRemove, removeCount);
      maxSize := newMax;
      stats := stats.(destroyed := stats.destroyed + removed);
      ResizeEffect(old(entries), entries, toRemove, removed);
    }

    // The loop of resize: drops the first count ids, or all of them.
    method DropFirst(ids: seq<Id>, count: nat) returns (removed: nat)
      requires OldestFirst(ids, entries)
      modifies this`entries
      ensures removed <= |ids| && removed == (if |ids| < count then |ids| else count)
      ensures entries == old(entries) - Elements(ids[..removed]) && |entries| == |old(entries)| - removed
    {
      hide Elements, OldestFirst;
      removed := 0;
      NoneDropped(entries, ids);
      while removed < |ids| && removed < count
        invariant removed <= |ids| && removed <= count
        invariant entries == old(entries) - Elements(ids[..removed])
        invariant |entries| == |old(entries)| - removed
      {
        var id := ids[removed];
        DropOne(old(entries), entries, ids, removed);
        entries := entries - {id};
        removed := removed + 1;
      }
    }

    // The idle ids, least recently used first.
    method SortedIdle() returns (ids: seq<Id>)
      ensures |ids| == |IdleIds(entries)|
      ensures forall id :: id in ids <==> id in IdleIds(entries)
      ensures OldestFirst(ids, entries)
      ensures forall i, j :: 0 <= i < j < |ids| ==> ids[i] != ids[j] && entries[ids[i]].lastUsed <= entries[ids[j]].lastUsed
    {
      ids := [];
      var rest := IdleIds(entries);
      while rest != {}
        invariant rest <= IdleIds(entries)
        invariant |ids| + |rest| == |IdleIds(entries)|
        invariant forall id :: id in ids <==> id in IdleIds(entries) - rest
        invariant OldestFirst(ids, entries)
        invariant forall i, id :: 0 <= i < |ids| && id in rest ==> entries[ids[i]].lastUsed <= entries[id].lastUsed
        decreases rest
      {
        LeastRecentExists(rest, entries);
        var v :| v in rest && forall id :: id in rest ==> entries[v].lastUsed <= entries[id].lastUsed;
        assert v !in ids;
        ids := ids + [v];
        rest := rest - {v};
      }
    }

    method GetStats() returns (s: Stats, active: nat, idle: nat)
      requires Counted()
      ensures s == stats && active == |IdsInUse(entries)| && idle == |IdleIds(entries)|
      ensures s.created - s.destroyed == active + idle
    {
      UseSplitsIds(entries);
      s, active, idle := stats, |IdsInUse(entries)|, |IdleIds(entries)|;
    }
  }

  // ----- Clients -----

  // held has a pair (client, id) for every handle a client has not given back.  Every instance in
  // use has exactly one holder, and only instances in use have holders.
  ghost predicate Exclusive(entries: map<Id, Entry>, held: set<(nat, Id)>) {
    && (forall c, id :: (c, id) in held ==> id in IdsInUse(entries))
    && (forall id :: id in IdsInUse(entries) ==> exists c :: (c, id) in held)
    && (forall c, d, id :: (c, id) in held && (d, id) in held ==> c == d)
  }

  /** An instance in use is held by one client, and one that is held is in the pool and in use. */
  lemma HoldersAlone(entries: map<Id, Entry>, held: set<(nat, Id)>, c: nat, d: nat, id: Id)
    requires Exclusive(entries, held)
    ensures (c, id) in held ==> id in entries && entries[id].inUse && ((d, id) in held ==> c == d)
    ensures id in entries && entries[id].inUse ==> exists holder :: (holder, id) in held
  {
    assert id in entries && entries[id].inUse ==> id in IdsInUse(entries);
  }

  datatype Step =
    | Reusing(client: nat, moduleName: string)
    | Missing
    | Inserting(client: nat, id: Id, moduleName: string)
    | Releasing(client: nat, id: Id)
    | Destroying(client: nat, id: Id)
    | Evicting
    | Resizing(newMax: nat)

  // The pool, who holds what, and which ids were ever issued.
  datatype State = State(entries: map<Id, Entry>, maxSize: nat, stats: Stats, held: set<(nat, Id)>, issued: set<Id>)

  ghost function Current(pool: Pool, held: set<(nat, Id)>, issued: set<Id>): State
    reads pool
  {
    State(pool.entries, pool.maxSize, pool.stats, held, issued)
  }

  ghost predicate Consistent(s: State) {
    && s.stats.created == s.stats.destroyed + |s.entries| && s.stats.hits == s.stats.reused
    && Exclusive(s.entries, s.held) && s.entries.Keys <= s.issued
  }

  // What each critical section does, as a relation between states.
  ghost predicate Next(step: Step, now: int, idleTimeout: nat, s: State, t: State) {
    match step
    case Reusing(c, m) => Reuses(s, t, c, m, now)
    case Missing => t == s.(stats := s.stats.(misses := s.stats.misses + 1))
    case Inserting(c, id, m) => if id in s.issued then t == s else Inserts(s, t, c, id, m, now)
    case Releasing(c, id) => if (c, id) !in s.held then t == s else Releases(s, t, c, id, now)
    case Destroying(c, id) => if (c, id) !in s.held then t == s else Destroys(s, t, c, id)
    case Evicting =>
      t == s.(entries := t.entries, stats := t.stats)
      && Evicts(s.entries, t.entries, s.stats, t.stats, idleTimeout, now)
    case Resizing(newMax) =>
      t == s.(entries := t.entries, stats := t.stats, maxSize := newMax)
      && Resizes(s.entries, t.entries, s.stats, t.stats, newMax)
  }

  ghost predicate Reuses(s: State, t: State, c: nat, m: string, now: int) {
    || (exists id ::
          && id in IdleIds(s.entries) && s.entries[id].moduleName == m
          && t == s.(entries := s.entries[id := Entry(m, now, true)], held := s.held + {(c, id)},
                     stats := s.stats.(hits := s.stats.hits + 1, reused := s.stats.reused + 1)))
    || (t == s && forall id :: id in IdleIds(s.entries) ==> s.entries[id].moduleName != m)
  }

  ghost predicate Inserts(s: State, t: State, c: nat, id: Id, m: string, now: int) {
    if |s.entries| < s.maxSize then
      t == s.(entries := s.entries[id := Entry(m, now, true)], held := s.held + {(c, id)}, issued := s.issued + {id},
              stats := s.stats.(created := s.stats.created + 1))
    else if IdleIds(s.entries) == {} then t == s.(issued := s.issued + {id})
    else exists victim :: LeastRecentIdle(victim, s.entries) && Replaces(s, t, c, id, m, now, victim)
  }

  ghost predicate Replaces(s: State, t: State, c: nat, id: Id, m: string, now: int, victim: Id) {
    t == s.(entries := (s.entries - {victim})[id := Entry(m, now, true)],
            held := s.held + {(c, id)}, issued := s.issued + {id},
            stats := s.stats.(created := s.stats.created + 1, destroyed := s.stats.destroyed + 1))
  }

  ghost predicate Releases(s: State, t: State, c: nat, id: Id, now: int) {
    && id in s.entries
    && t == s.(entries := s.entries[id := s.entries[id].(inUse := false, lastUsed := now)], held := s.held - {(c, id)})
  }

  ghost predicate Destroys(s: State, t: State, c: nat, id: Id) {
    && id in s.entries
    && t == s.(entries := s.entries - {id}, held := s.held - {(c, id)},
               stats := s.stats.(destroyed := s.stats.destroyed + 1))
  }

  ghost predicate Evicts(before: map<Id, Entry>, after: map<Id, Entry>, p: Stats, q: Stats, idleTimeout: nat, now: int) {
    && after == (map id | id in before && !(!before[id].inUse && now - before[id].lastUsed > idleTimeout) :: before[id])
    && q == p.(destroyed := q.destroyed) && q.destroyed == p.destroyed + |before| - |after|
  }

  ghost predicate Resizes(before: map<Id, Entry>, after: map<Id, Entry>, p: Stats, q: Stats, newMax: nat) {
    && q == p.(destroyed := q.destroyed) && q.destroyed == p.destroyed + |before| - |after|
    && |after| == (if newMax >= |before| then |before| else if |IdsInUse(before)| > newMax then |IdsInUse(before)| else newMax)
    && (forall id :: id in after ==> id in before && after[id] == before[id])
    && IdsInUse(after) == IdsInUse(before)
    && forall gone, kept :: gone in before && gone !in after && kept in IdleIds(after) ==>
         before[gone].lastUsed <= after[kept].lastUsed
  }

  /** An instance in use leaves the pool only when its holder destroys it. */
  lemma OnlyDestroyRemovesUsed(step: Step, now: int, idleTimeout: nat, s: State, t: State, id: Id)
    requires Consistent(s) && Next(step, now, idleTimeout, s, t)
    requires id in IdsInUse(s.entries) && id !in t.entries
    ensures step.Destroying? && step.id == id && (step.client, id) in s.held
  {
    hide Exclusive;
  }

  // The counters tell how many instances came and went.
  ghost predicate Tallied(s: State, t: State) {
    && t.stats.created == s.stats.created + |t.entries.Keys - s.entries.Keys|
    && t.stats.destroyed == s.stats.destroyed + |s.entries.Keys - t.entries.Keys|
  }

  lemma TallyKeys(s: State, t: State, came: set<Id>, went: set<Id>)
    requires t.entries.Keys == (s.entries.Keys - went) + came && went <= s.entries.Keys && came !! s.entries.Keys
    ensures Tallied(s, t) <==>
      t.stats.created == s.stats.created + |came| && t.stats.destroyed == s.stats.destroyed + |went|
  {
    assert t.entries.Keys - s.entries.Keys == came && s.entries.Keys - t.entries.Keys == went;
  }

  lemma ReuseTallied(s: State, t: State, c: nat, m: string, now: int)
    requires Reuses(s, t, c, m, now)
    ensures Tallied(s, t) && t.stats.misses == s.stats.misses && t.maxSize == s.maxSize
  {
    hide Tallied;
    assert t.entries.Keys == s.entries.Keys;
    TallyKeys(s, t, {}, {});
  }

  lemma DestroyTallied(s: State, t: State, c: nat, id: Id)
    requires Destroys(s, t, c, id)
    ensures Tallied(s, t)
  {
    hide Tallied;
    TallyKeys(s, t, {}, {id});
  }

  lemma ReleaseTallied(s: State, t: State, c: nat, id: Id, now: int)
    requires Releases(s, t, c, id, now)
    ensures Tallied(s, t)
  {
    hide Tallied;
    assert t.entries.Keys == s.entries.Keys;
    TallyKeys(s, t, {}, {});
  }

  lemma InsertTallied(s: State, t: State, c: nat, id: Id, m: string, now: int)
    requires Inserts(s, t, c, id, m, now) && id !in s.entries
    ensures Tallied(s, t) && t.stats.misses == s.stats.misses && t.maxSize == s.maxSize
  {
    hide Tallied, LeastRecentIdle, IdleIds, Replaces;
    if |s.entries| < s.maxSize {
      AddTallied(s, t, id, Entry(m, now, true));
    } else if IdleIds(s.entries) == {} {
      TallyKeys(s, t, {}, {});
    } else {
      var victim :| LeastRecentIdle(victim, s.entries) && Replaces(s, t, c, id, m, now, victim);
      hide Inserts;
      VictimSpelledOut(s.entries, victim);
      ReplaceTallied(s, t, c, id, m, now, victim);
    }
  }

  lemma AddTallied(s: State, t: State, id: Id, e: Entry)
    requires id !in s.entries && t.entries == s.entries[id := e]
    requires t.stats == s.stats.(created := s.stats.created + 1)
    ensures Tallied(s, t)
  {
    hide Tallied;
    assert t.entries.Keys == s.entries.Keys + {id};
    TallyKeys(s, t, {id}, {});
  }

  lemma ReplaceTallied(s: State, t: State, c: nat, id: Id, m: string, now: int, victim: Id)
    requires Replaces(s, t, c, id, m, now, victim) && id !in s.entries && victim in s.entries
    ensures Tallied(s, t) && t.stats.misses == s.stats.misses && t.maxSize == s.maxSize
  {
    hide Tallied;
    TallyKeys(s, t, {id}, {victim});
  }

  lemma ShrinkTallied(s: State, t: State)
    requires t.entries.Keys <= s.entries.Keys && t.stats.created == s.stats.created
    requires t.stats.destroyed == s.stats.destroyed + |s.entries| - |t.entries|
    ensures Tallied(s, t)
  {
    hide Tallied;
    var went := s.entries.Keys - t.entries.Keys;
    assert s.entries.Keys == t.entries.Keys + went;
    assert |s.entries| == |s.entries.Keys| && |t.entries| == |t.entries.Keys|;
    TallyKeys(s, t, {}, went);
  }

  /** Over all transitions, the counters tell how many instances came, went and were asked for in vain. */
  lemma CountersFollow(step: Step, now: int, idleTimeout: nat, s: State, t: State)
    requires Consistent(s) && Next(step, now, idleTimeout, s, t)
    ensures t.stats.created == s.stats.created + |t.entries.Keys - s.entries.Keys|
    ensures t.stats.destroyed == s.stats.destroyed + |s.entries.Keys - t.entries.Keys|
    ensures t.stats.misses == s.stats.misses + if step.Missing? then 1 else 0
    ensures t.maxSize == if step.Resizing? then step.newMax else s.maxSize
  {
    hide Exclusive, IdsInUse, IdleIds, Inserts, Reuses;
    if t == s {
      TallyKeys(s, t, {}, {});
    }
    match step {
      case Reusing(c, m) => ReuseTallied(s, t, c, m, now);
      case Missing => TallyKeys(s, t, {}, {});
      case Inserting(c, id, m) =>
        if id !in s.issued {
          InsertTallied(s, t, c, id, m, now);
        }
      case Releasing(c, id) =>
        if (c, id) in s.held {
          ReleaseTallied(s, t, c, id, now);
        }
      case Destroying(c, id) =>
        if (c, id) in s.held {
          DestroyTallied(s, t, c, id);
        }
      case Evicting => ShrinkTallied(s, t);
      case Resizing(newMax) => ShrinkTallied(s, t);
    }
  }

  /** A smaller maximum is met, or as far as the instances in use allow. */
  lemma ResizeReaches(now: int, idleTimeout: nat, s: State, t: State, newMax: nat)
    requires Next(Resizing(newMax), now, idleTimeout, s, t)
    ensures var used := |IdsInUse(s.entries)|;
      |t.entries| == if |s.entries| <= newMax then |s.entries| else if used < newMax then newMax else used
  {
    hide IdsInUse, IdleIds;
  }

  lemma InsertBounded(s: State, t: State, c: nat, id: Id, m: string, now: int)
    requires Inserts(s, t, c, id, m, now) && id !in s.entries
    ensures |t.entries| <= |s.entries| || |t.entries| <= s.maxSize
  {
    if |s.entries| < s.maxSize {
      hide IdleIds;
      SizeAfterAdding(s.entries, id, Entry(m, now, true));
    } else if IdleIds(s.entries) != {} {
      var victim :| LeastRecentIdle(victim, s.entries) && Replaces(s, t, c, id, m, now, victim);
      assert victim in s.entries;
      hide LeastRecentIdle, IdleIds;
      SizeAfterRemoving(s.entries, victim);
      SizeAfterAdding(s.entries - {victim}, id, Entry(m, now, true));
    }
  }

  lemma SizeAfterAdding(entries: map<Id, Entry>, id: Id, e: Entry)
    requires id !in entries
    ensures |entries[id := e]| == |entries| + 1
  {
    assert entries[id := e].Keys == entries.Keys + {id};
  }

  lemma SizeAfterRemoving(entries: map<Id, Entry>, id: Id)
    requires id in entries
    ensures |entries - {id}| == |entries| - 1
  {
    assert entries.Keys == (entries - {id}).Keys + {id};
  }

  lemma OthersInsertNothing(step: Step, now: int, idleTimeout: nat, s: State, t: State)
    requires Next(step, now, idleTimeout, s, t) && !step.Inserting?
    ensures t.entries.Keys <= s.entries.Keys
  {
    hide IdsInUse;
  }

  /** No step takes the pool past the larger of its size and its maximum. */
  lemma SizeBounded(step: Step, now: int, idleTimeout: nat, s: State, t: State)
    requires Consistent(s) && Next(step, now, idleTimeout, s, t)
    ensures |t.entries| <= |s.entries| || |t.entries| <= s.maxSize
  {
    hide Exclusive, Inserts, Reuses, Releases, Destroys, Evicts, Resizes;
    if step.Inserting? {
      if step.id !in s.issued {
        InsertBounded(s, t, step.client, step.id, step.moduleName, now);
      }
    } else {
      OthersInsertNothing(step, now, idleTimeout, s, t);
      SubsetSize(t.entries.Keys, s.entries.Keys);
    }
  }

  /** Every interleaving of the critical sections, by clients that release and destroy only what
      they hold and insert under fresh ids: each step does what its section is specified to do, and
      in every state on the way the counters are exact and the holders unique. */
  method Run(pool: Pool, steps: seq<(Step, int)>) returns (held: set<(nat, Id)>, ghost trace: seq<State>)
    requires pool.Counted() && IdsInUse(pool.entries) == {}
    modifies pool
    ensures |trace| == |steps| + 1 && trace[0] == State(old(pool.entries), old(pool.maxSize), old(pool.stats), {}, old(pool.entries).Keys)
    ensures trace[|steps|] == State(pool.entries, pool.maxSize, pool.stats, held, trace[|steps|].issued)
    ensures forall i :: 0 <= i < |steps| ==> Next(steps[i].0, steps[i].1, pool.idleTimeout, trace[i], trace[i + 1])
    ensures forall i :: 0 <= i <= |steps| ==> Consistent(trace[i])
    ensures |IdsInUse(pool.entries)| == |held|
  {
    held := {};
    var issued := pool.entries.Keys;
    trace := [Current(pool, held, issued)];
    assert Consistent(trace[0]);
    hide Next, Consistent;
    for i := 0 to |steps|
      invariant |trace| == i + 1 && trace[i] == Current(pool, held, issued)
      invariant trace[0] == State(old(pool.entries), old(pool.maxSize), old(pool.stats), {}, old(pool.entries).Keys)
      invariant forall k :: 0 <= k <= i ==> Consistent(trace[k])
      invariant forall k :: 0 <= k < i ==> Next(steps[k].0, steps[k].1, pool.idleTimeout, trace[k], trace[k + 1])
    {
      held, issued := Apply(pool, steps[i].0, steps[i].1, held, issued);
      trace := trace + [Current(pool, held, issued)];
    }
    HoldersMatch(trace[|steps|]);
  }

  lemma HoldersMatch(s: State)
    requires Consistent(s)
    ensures |IdsInUse(s.entries)| == |s.held|
  {
    HoldersCount(s.entries, s.held);
  }

  // One critical section; a client's own handles and the ids already issued decide whether it
  // takes the step.
  method Apply(pool: Pool, step: Step, now: int, before: set<(nat, Id)>, issuedBefore: set<Id>)
    returns (held: set<(nat, Id)>, issued: set<Id>)
    requires Consistent(Current(pool, before, issuedBefore))
    modifies pool
    ensures Consistent(Current(pool, held, issued))
    ensures Next(step, now, pool.idleTimeout, old(Current(pool, before, issuedBefore)), Current(pool, held, issued))
  {
    hide Consistent, Reuses, Inserts, Releases, Destroys, Evicts, Resizes;
    held, issued := before, issuedBefore;
    match step {
      case Reusing(c, m) => held := Reuse(pool, c, m, now, before, issuedBefore);
      case Missing => Miss(pool, before, issuedBefore);
      case Inserting(c, id, m) =>
        if id !in issued {
          held := Add(pool, c, id, m, now, before, issuedBefore);
          issued := issued + {id};
        }
      case Releasing(c, id) =>
        if (c, id) in held {
          held := GiveBack(pool, c, id, now, before, issuedBefore);
        }
      case Destroying(c, id) =>
        if (c, id) in held {
          held := GiveUp(pool, c, id, before, issuedBefore);
        }
      case Evicting => Expire(pool, now, before, issuedBefore);
      case Resizing(newMax) => Shrink(pool, newMax, before, issuedBefore);
    }
  }

  method Reuse(pool: Pool, c: nat, m: string, now: int, before: set<(nat, Id)>, ghost issued: set<Id>)
    returns (held: set<(nat, Id)>)
    requires Consistent(Current(pool, before, issued))
    modifies pool
    ensures Consistent(Current(pool, held, issued))
    ensures Reuses(old(Current(pool, before, issued)), Current(pool, held, issued), c, m, now)
  {
    hide Exclusive, IdsInUse, IdleIds;
    held := before;
    var r := pool.TryReuse(m, now);
    if r.Some? {
      held := held + {(c, r.value)};
      StartUse(old(pool.entries), pool.entries, before, c, r.value);
    }
  }

  method Miss(pool: Pool, ghost held: set<(nat, Id)>, ghost issued: set<Id>)
    requires Consistent(Current(pool, held, issued))
    modifies pool
    ensures Consistent(Current(pool, held, issued))
    ensures var s := old(Current(pool, held, issued));
      Current(pool, held, issued) == s.(stats := s.stats.(misses := s.stats.misses + 1))
  {
    hide Exclusive;
    pool.RecordMiss();
  }

  method Add(pool: Pool, c: nat, id: Id, m: string, now: int, before: set<(nat, Id)>, ghost issued: set<Id>)
    returns (held: set<(nat, Id)>)
    requires Consistent(Current(pool, before, issued)) && id !in issued
    modifies pool
    ensures Consistent(Current(pool, held, issued + {id}))
    ensures Inserts(old(Current(pool, before, issued)), Current(pool, held, issued + {id}), c, id, m, now)
  {
    hide Exclusive, IdsInUse, IdleIds, LeastRecentIdle;
    held := before;
    var ok := pool.Insert(id, m, now);
    if ok {
      held := held + {(c, id)};
      StartUse(old(pool.entries), pool.entries, before, c, id);
    }
  }

  method GiveBack(pool: Pool, c: nat, id: Id, now: int, before: set<(nat, Id)>, ghost issued: set<Id>)
    returns (held: set<(nat, Id)>)
    requires Consistent(Current(pool, before, issued)) && (c, id) in before
    modifies pool
    ensures Consistent(Current(pool, held, issued))
    ensures Releases(old(Current(pool, before, issued)), Current(pool, held, issued), c, id, now)
  {
    hide Exclusive, IdsInUse;
    HolderPresent(pool.entries, before, c, id);
    var ok := pool.Release(id, now);
    held := before - {(c, id)};
    EndUse(old(pool.entries), pool.entries, before, c, id);
  }

  method GiveUp(pool: Pool, c: nat, id: Id, before: set<(nat, Id)>, ghost issued: set<Id>)
    returns (held: set<(nat, Id)>)
    requires Consistent(Current(pool, before, issued)) && (c, id) in before
    modifies pool
    ensures Consistent(Current(pool, held, issued))
    ensures Destroys(old(Current(pool, before, issued)), Current(pool, held, issued), c, id)
  {
    hide Exclusive, IdsInUse;
    HolderPresent(pool.entries, before, c, id);
    var ok := pool.Destroy(id);
    held := before - {(c, id)};
    EndUse(old(pool.entries), pool.entries, before, c, id);
  }

  method Expire(pool: Pool, now: int, ghost held: set<(nat, Id)>, ghost issued: set<Id>)
    requires Consistent(Current(pool, held, issued))
    modifies pool
    ensures Consistent(Current(pool, held, issued))
    ensures var s, t := old(Current(pool, held, issued)), Current(pool, held, issued);
      t == s.(entries := t.entries, stats := t.stats)
      && Evicts(s.entries, t.entries, s.stats, t.stats, pool.idleTimeout, now)
  {
    hide Exclusive, IdsInUse;
    var n := pool.EvictIdle(now);
    SameUse(old(pool.entries), pool.entries, held);
  }

  method Shrink(pool: Pool, newMax: nat, ghost held: set<(nat, Id)>, ghost issued: set<Id>)
    requires Consistent(Current(pool, held, issued))
    modifies pool
    ensures Consistent(Current(pool, held, issued))
    ensures var s, t := old(Current(pool, held, issued)), Current(pool, held, issued);
      t == s.(entries := t.entries, stats := t.stats, maxSize := newMax)
      && Resizes(s.entries, t.entries, s.stats, t.stats, newMax)
  {
    hide Exclusive, IdsInUse, IdleIds;
    var n := pool.Resize(newMax);
    SameUse(old(pool.entries), pool.entries, held);
  }

  lemma HolderPresent(entries: map<Id, Entry>, held: set<(nat, Id)>, c: nat, id: Id)
    requires Exclusive(entries, held) && (c, id) in held
    ensures id in entries
  {
  }

  lemma SameUse(before: map<Id, Entry>, after: map<Id, Entry>, held: set<(nat, Id)>)
    requires Exclusive(before, held) && IdsInUse(after) == IdsInUse(before)
    ensures Exclusive(after, held)
  {
  }

  lemma StartUse(before: map<Id, Entry>, after: map<Id, Entry>, held: set<(nat, Id)>, c: nat, id: Id)
    requires Exclusive(before, held) && id !in IdsInUse(before)
    requires IdsInUse(after) == IdsInUse(before) + {id}
    ensures Exclusive(after, held + {(c, id)})
  {
    forall i | i in IdsInUse(after)
      ensures exists d :: (d, i) in held + {(c, id)}
    {
      if i == id {
        assert (c, id) in held + {(c, id)};
      } else {
        var d :| (d, i) in held;
        assert (d, i) in held + {(c, id)};
      }
    }
  }

  lemma EndUse(before: map<Id, Entry>, after: map<Id, Entry>, held: set<(nat, Id)>, c: nat, id: Id)
    requires Exclusive(before, held) && (c, id) in held
    requires IdsInUse(after) == IdsInUse(before) - {id}
    ensures Exclusive(after, held - {(c, id)})
  {
    forall i | i in IdsInUse(after)
      ensures exists d :: (d, i) in held - {(c, id)}
    {
      var d :| (d, i) in held;
      assert (d, i) in held - {(c, id)};
    }
  }

  lemma {:induction false} HoldersCount(entries: map<Id, Entry>, held: set<(nat, Id)>)
    requires Exclusive(entries, held)
    ensures |IdsInUse(entries)| == |held|
  {
    CountByImage(held, IdsInUse(entries));
  }

  lemma {:induction false} CountByImage(held: set<(nat, Id)>, ids: set<Id>)
    requires forall c, id :: (c, id) in held ==> id in ids
    requires forall id :: id in ids ==> exists c :: (c, id) in held
    requires forall c, d, id :: (c, id) in held && (d, id) in held ==> c == d
    ensures |ids| == |held|
    decreases ids
  {
    if ids == {} {
      forall p | p in held
        ensures p.1 in ids
      {
        assert (p.0, p.1) in held;
      }
      assert held == {};
    } else {
      var id :| id in ids;
      var c :| (c, id) in held;
      forall i | i in ids - {id} ensures exists d :: (d, i) in held - {(c, id)} {
        var d :| (d, i) in held;
      }
      CountByImage(held - {(c, id)}, ids - {id});
    }
  }

  /** The discipline is needed: releasing an instance keeps holders exclusive exactly when the
      caller holds it or it was not in use. */
  lemma ReleaseNeedsHolder(entries: map<Id, Entry>, held: set<(nat, Id)>, c: nat, id: Id, now: int)
    requires Exclusive(entries, held) && id in entries
    ensures Exclusive(entries[id := entries[id].(inUse := false, lastUsed := now)], held - {(c, id)})
      <==> (c, id) in held || !entries[id].inUse
  {
    var after := entries[id := entries[id].(inUse := false, lastUsed := now)];
    if entries[id].inUse {
      assert IdsInUse(after) == IdsInUse(entries) - {id} && id in IdsInUse(entries);
      if (c, id) in held {
        EndUse(entries, after, held, c, id);
      } else {
        var d :| (d, id) in held;
        assert (d, id) in held - {(c, id)};
      }
    } else {
      assert IdsInUse(after) == IdsInUse(entries) && id !in IdsInUse(entries);
      assert held - {(c, id)} == held;
    }
  }
}
