/**
  The in-memory module cache with a recency list (crates/wasm-runtime/src/modules.rs).  Each
  operation runs as one step; compiling is a parameter and each call is given its time.
 */
module ModuleCache {
  import opened Arithmetic
  import opened Bytes
  import opened Wrappers

  datatype Error = TooLarge | CompileFailed

  datatype Compiled<M> = Compiled(mod: M, compiledAt: int)

  // ----- Recency lists -----

  function Without(s: seq<string>, x: string): (r: seq<string>)
    ensures forall y :: y in r <==> y in s && y != x
  {
    if s == [] then [] else Without(s[..|s| - 1], x) + (if s[|s| - 1] == x then [] else [s[|s| - 1]])
  }

  function Restrict(s: seq<string>, keys: set<string>): (r: seq<string>)
    ensures forall y :: y in r <==> y in s && y in keys
  {
    if s == [] then [] else Restrict(s[..|s| - 1], keys) + (if s[|s| - 1] in keys then [s[|s| - 1]] else [])
  }

  // The names of a history of uses, each once, in the order of their last use.
  ghost function LastUses(history: seq<string>): (r: seq<string>)
    ensures forall y :: y in r <==> y in history
  {
    if history == [] then []
    else
      var n := history[|history| - 1];
      assert history == history[..|history| - 1] + [n];
      Without(LastUses(history[..|history| - 1]), n) + [n]
  }

  // The position of the last use of a name.
  ghost function LastIndex(history: seq<string>, n: string): (i: nat)
    requires n in history
    ensures i < |history| && history[i] == n && forall j :: i < j < |history| ==> history[j] != n
  {
    if history[|history| - 1] == n then |history| - 1
    else
      assert history == history[..|history| - 1] + [history[|history| - 1]];
      LastIndex(history[..|history| - 1], n)
  }

  ghost predicate NoDuplicates(s: seq<string>) {
    forall i, j :: 0 <= i < j < |s| ==> s[i] != s[j]
  }

  lemma {:induction false} WithoutAbsent(s: seq<string>, x: string)
    requires x !in s
    ensures Without(s, x) == s
  {
    if s != [] {
      assert s == s[..|s| - 1] + [s[|s| - 1]];
      WithoutAbsent(s[..|s| - 1], x);
    }
  }

  lemma {:induction false} WithoutIsRestrict(s: seq<string>, x: string, keys: set<string>)
    ensures Without(Restrict(s, keys), x) == Restrict(s, keys - {x})
  {
    if s != [] {
      var front, last := s[..|s| - 1], s[|s| - 1];
      WithoutIsRestrict(front, x, keys);
      if last in keys {
        WithoutSnoc(Restrict(front, keys), last, x);
      } else {
        assert Restrict(front, keys) + [] == Restrict(front, keys);
      }
    }
  }

  lemma {:induction false} RestrictWithout(s: seq<string>, x: string, keys: set<string>)
    ensures Restrict(Without(s, x), keys) == Restrict(s, keys - {x})
  {
    if s != [] {
      var front, last := s[..|s| - 1], s[|s| - 1];
      RestrictWithout(front, x, keys);
      if last != x {
        RestrictSnoc(Without(front, x), last, keys);
      } else {
        assert Without(front, x) + [] == Without(front, x);
      }
    }
  }

  lemma WithoutSnoc(s: seq<string>, y: string, x: string)
    ensures Without(s + [y], x) == Without(s, x) + (if y == x then [] else [y])
  {
    assert (s + [y])[..|s + [y]| - 1] == s;
  }

  lemma RestrictSnoc(s: seq<string>, x: string, keys: set<string>)
    ensures Restrict(s + [x], keys) == Restrict(s, keys) + (if x in keys then [x] else [])
  {
    assert (s + [x])[..|s + [x]| - 1] == s;
  }

  lemma SnocDistinct(s: seq<string>, x: string)
    requires NoDuplicates(s)
    ensures NoDuplicates(s + [x]) <==> x !in s
  {
    if x in s {
      var i :| 0 <= i < |s| && s[i] == x;
      assert (s + [x])[i] == (s + [x])[|s|];
    }
  }

  lemma {:induction false} WithoutKeepsDistinct(s: seq<string>, x: string)
    requires NoDuplicates(s)
    ensures NoDuplicates(Without(s, x))
  {
    if s != [] {
      assert s == s[..|s| - 1] + [s[|s| - 1]];
      WithoutKeepsDistinct(s[..|s| - 1], x);
      SnocDistinct(s[..|s| - 1], s[|s| - 1]);
      SnocDistinct(Without(s[..|s| - 1], x), s[|s| - 1]);
    }
  }

  lemma {:induction false} RestrictKeepsDistinct(s: seq<string>, keys: set<string>)
    requires NoDuplicates(s)
    ensures NoDuplicates(Restrict(s, keys))
  {
    if s != [] {
      assert s == s[..|s| - 1] + [s[|s| - 1]];
      RestrictKeepsDistinct(s[..|s| - 1], keys);
      SnocDistinct(s[..|s| - 1], s[|s| - 1]);
      SnocDistinct(Restrict(s[..|s| - 1], keys), s[|s| - 1]);
    }
  }

  // Positions in s increase with the last use.
  ghost predicate ByLastUse(s: seq<string>, history: seq<string>) {
    && (forall n :: n in s ==> n in history)
    && forall i, j :: 0 <= i < j < |s| ==> LastIndex(history, s[i]) < LastIndex(history, s[j])
  }

  lemma SnocByLastUse(front: seq<string>, part: seq<string>, last: string, history: seq<string>)
    requires ByLastUse(front + [last], history) && ByLastUse(part, history)
    requires forall n :: n in part ==> n in front
    ensures ByLastUse(part + [last], history)
  {
    var s := front + [last];
    forall i | 0 <= i < |part|
      ensures LastIndex(history, part[i]) < LastIndex(history, last)
    {
      assert part[i] in front;
      var j :| 0 <= j < |front| && front[j] == part[i];
      assert s[j] == part[i] && s[|front|] == last;
    }
  }

  lemma {:induction false} WithoutByLastUse(s: seq<string>, x: string, history: seq<string>)
    requires ByLastUse(s, history)
    ensures ByLastUse(Without(s, x), history)
  {
    if s != [] {
      assert s == s[..|s| - 1] + [s[|s| - 1]];
      WithoutByLastUse(s[..|s| - 1], x, history);
      SnocByLastUse(s[..|s| - 1], Without(s[..|s| - 1], x), s[|s| - 1], history);
    }
  }

  lemma {:induction false} RestrictByLastUse(s: seq<string>, keys: set<string>, history: seq<string>)
    requires ByLastUse(s, history)
    ensures ByLastUse(Restrict(s, keys), history)
  {
    if s != [] {
      assert s == s[..|s| - 1] + [s[|s| - 1]];
      RestrictByLastUse(s[..|s| - 1], keys, history);
      SnocByLastUse(s[..|s| - 1], Restrict(s[..|s| - 1], keys), s[|s| - 1], history);
    }
  }

  /** LastUses lists the names of a history without repetition and ordered by their last use. */
  lemma {:induction false} LastUsesOrdered(history: seq<string>)
    ensures ByLastUse(LastUses(history), history) && NoDuplicates(LastUses(history))
  {
    if history != [] {
      var front, n := history[..|history| - 1], history[|history| - 1];
      assert history == front + [n];
      LastUsesOrdered(front);
      var r := Without(LastUses(front), n);
      WithoutByLastUse(LastUses(front), n, front);
      WithoutKeepsDistinct(LastUses(front), n);
      assert LastUses(history) == r + [n];
      forall i | 0 <= i < |r|
        ensures LastIndex(history, r[i]) == LastIndex(front, r[i])
      {
        assert r[i] in r;
      }
    }
  }

  // ----- The cache -----

  // The list mentions exactly the modules.
  ghost predicate Listed(order: seq<string>, keys: set<string>) {
    forall n :: n in order <==> n in keys
  }

  // The list is the order of last use of the modules present.
  ghost predicate Recent(order: seq<string>, keys: set<string>, history: seq<string>) {
    order == Restrict(LastUses(history), keys) && forall n :: n in keys ==> n in history
  }

  // The last mention of each module in the list is in the order of last use.
  ghost predicate Recalled(order: seq<string>, keys: set<string>, history: seq<string>) {
    LastUses(order) == Restrict(LastUses(history), keys) && forall n :: n in keys ==> n in history
  }

  class ModuleCache<M> {
    const capacity: nat
    const compile: seq<byte> -> Option<M>
    var modules: map<string, Compiled<M>>
    var accessOrder: seq<string>
    ghost var history: seq<string>  // every load and successful get, in order

    constructor (capacity: nat, compile: seq<byte> -> Option<M>)
      ensures this.capacity == capacity && this.compile == compile
      ensures modules == map[] && accessOrder == [] && history == []
      ensures Valid() && Recency()
    {
      this.capacity := capacity;
      this.compile := compile;
      modules := map[];
      accessOrder := [];
      history := [];
    }

    // There are never more modules than the capacity, or one, and whatever was loaded again, the
    // last mentions in the list are in the order of last use.
    ghost predicate Valid()
      reads this
    {
      && Listed(accessOrder, modules.Keys) && |modules| <= Limit(capacity)
      && Recalled(accessOrder, modules.Keys, history)
    }

    ghost predicate Recency()
      reads this
    {
      Recent(accessOrder, modules.Keys, history)
    }

    /** Loading a module that is absent evicts, in a full cache, the one used longest ago, and keeps
        the list the order of last use.  Loading one that is present lists it twice, unless it is
        the oldest of a full cache. */
    method Load(name: string, wasm: seq<byte>, maxModuleSize: Option<nat>, now: int) returns (r: Result<M, Error>)
      requires Valid()
      modifies this`modules, this`accessOrder, this`history
      ensures Valid()
      ensures r.Success? <==> (maxModuleSize.None? || |wasm| <= maxModuleSize.value) && compile(wasm).Some?
      ensures r.Failure? ==> modules == old(modules) && accessOrder == old(accessOrder) && history == old(history)
      ensures |modules| <= if capacity == 0 then 1 else capacity
      ensures r.Success? ==> r.value == compile(wasm).value && history == old(history) + [name]
      ensures r.Success? ==>
        modules == (old(modules) - Victim(capacity, old(modules).Keys, old(accessOrder)))[name := Compiled(r.value, now)]
      ensures r.Success? ==> accessOrder == Kept(capacity, old(modules).Keys, old(accessOrder)) + [name]
      ensures r.Success? ==>
        (Recency() <==>
         && NoDuplicates(Kept(capacity, old(modules).Keys, old(accessOrder)))
         && (name !in old(modules) || name in Victim(capacity, old(modules).Keys, old(accessOrder))))
      ensures r.Success? && old(Recency()) ==>
        (Recency() <==> name !in old(modules) || name in Victim(capacity, old(modules).Keys, old(accessOrder)))
      ensures r.Success? && old(NoDuplicates(accessOrder)) ==>
        (NoDuplicates(accessOrder) <==>
         name !in old(modules) || name in Victim(capacity, old(modules).Keys, old(accessOrder)))
    {
      if maxModuleSize.Some? && |wasm| > maxModuleSize.value {
        return Failure(TooLarge);
      }
      var m := compile(wasm);
      if m.None? {
        return Failure(CompileFailed);
      }
      Store(name, Compiled(m.value, now));
      return Success(m.value);
    }

    // The step of load that holds both locks.
    method Store(name: string, compiled: Compiled<M>)
      requires Valid()
      modifies this`modules, this`accessOrder, this`history
      ensures Valid() && history == old(history) + [name]
      ensures modules == (old(modules) - Victim(capacity, old(modules).Keys, old(accessOrder)))[name := compiled]
      ensures accessOrder == Kept(capacity, old(modules).Keys, old(accessOrder)) + [name]
      ensures Recency() <==>
        && NoDuplicates(Kept(capacity, old(modules).Keys, old(accessOrder)))
        && (name !in old(modules) || name in Victim(capacity, old(modules).Keys, old(accessOrder)))
      ensures old(Recency()) ==>
        (Recency() <==> name !in old(modules) || name in Victim(capacity, old(modules).Keys, old(accessOrder)))
      ensures old(NoDuplicates(accessOrder)) ==>
        (NoDuplicates(accessOrder) <==>
         name !in old(modules) || name in Victim(capacity, old(modules).Keys, old(accessOrder)))
    {
      hide Restrict, Without, NoDuplicates, Listed, Recent, Recalled;
      ghost var order, keys, victim := accessOrder, modules.Keys, Victim(capacity, modules.Keys, accessOrder);
      StoreFits(capacity, order, keys, name);
      MakeRoom();
      PushEffect(capacity, order, keys, history, name);
      accessOrder := accessOrder + [name];
      modules := modules[name := compiled];
      history := history + [name];
      assert modules.Keys == (keys - victim) + {name};
    }

    method MakeRoom()
      modifies this`modules, this`accessOrder
      ensures
        var victim := Victim(capacity, old(modules).Keys, old(accessOrder));
        modules == old(modules) - victim && accessOrder == Kept(capacity, old(modules).Keys, old(accessOrder))
    {
      hide Without;
      assert |modules| == |modules.Keys|;
      assert modules - {} == modules;
      if |modules| >= capacity {
        if accessOrder != [] {
          var oldest := accessOrder[0];
          modules := modules - {oldest};
          accessOrder := Without(accessOrder, oldest);
        }
      }
    }

    method Get(name: string) returns (r: Option<M>)
      requires Valid()
      modifies this`accessOrder, this`history
      ensures Valid()
      ensures r == if name in modules then Some(modules[name].mod) else None
      ensures name in modules ==>
        history == old(history) + [name] && accessOrder == Without(old(accessOrder), name) + [name]
      ensures name !in modules ==> history == old(history) && accessOrder == old(accessOrder)
      ensures old(Recency()) ==> Recency()
      ensures old(NoDuplicates(accessOrder)) ==> NoDuplicates(accessOrder)
    {
      hide Restrict, Without, NoDuplicates, Listed, Recent, Recalled;
      if name !in modules {
        return None;
      }
      UseEffect(accessOrder, modules.Keys, history, name);
      accessOrder := Without(accessOrder, name);
      accessOrder := accessOrder + [name];
      history := history + [name];
      return Some(modules[name].mod);
    }

    method Remove(name: string) returns (removed: bool)
      requires Valid()
      modifies this`modules, this`accessOrder
      ensures Valid()
      ensures removed <==> name in old(modules)
      ensures modules == old(modules) - {name} && accessOrder == Without(old(accessOrder), name)
      ensures old(Recency()) ==> Recency()
      ensures old(NoDuplicates(accessOrder)) ==> NoDuplicates(accessOrder)
    {
      hide Restrict, Without, NoDuplicates, Listed, Recent, Recalled;
      RemoveEffect(accessOrder, modules.Keys, history, name);
      accessOrder := Without(accessOrder, name);
      removed := name in modules;
      modules := modules - {name};
      assert modules.Keys == old(modules).Keys - {name};
    }

    method EvictExpired(ttl: int, now: int) returns (evicted: nat)
      requires Valid()
      modifies this`modules, this`accessOrder
      ensures Valid()
      ensures modules == map n | n in old(modules) && !(old(modules)[n].compiledAt < now - ttl) :: old(modules)[n]
      ensures accessOrder == Restrict(old(accessOrder), modules.Keys)
      ensures evicted == |old(modules)| - |modules|
      ensures old(Recency()) ==> Recency()
      ensures old(NoDuplicates(accessOrder)) ==> NoDuplicates(accessOrder)
    {
      hide Restrict, Without, NoDuplicates, Listed, Recent, Recalled;
      var cutoff := now - ttl;
      var before := |modules|;
      var expired := set n | n in modules && modules[n].compiledAt < cutoff;
      RestrictAll(accessOrder, modules.Keys);
      var rest := expired;
      while rest != {}
        invariant modules.Keys <= old(modules).Keys && Valid()
        invariant forall n :: n in modules <==> n in old(modules) && (n in rest || n !in expired)
        invariant forall n :: n in modules ==> modules[n] == old(modules)[n]
        invariant accessOrder == Restrict(old(accessOrder), modules.Keys)
        invariant old(Recency()) ==> Recency()
        invariant old(NoDuplicates(accessOrder)) ==> NoDuplicates(accessOrder)
        decreases rest
      {
        var key :| key in rest;
        WithoutIsRestrict(old(accessOrder), key, modules.Keys);
        RemoveEffect(accessOrder, modules.Keys, history, key);
        ghost var present := modules.Keys;
        modules := modules - {key};
        assert modules.Keys == present - {key};
        accessOrder := Without(accessOrder, key);
        rest := rest - {key};
      }
      SubsetSize(modules.Keys, old(modules).Keys);
      evicted := before - |modules|;
    }

    lemma TellsVictims(n: string)
      requires Valid() && modules.Keys != {}
      ensures accessOrder != [] && LastUses(accessOrder) != []
      ensures LeastRecent(n, modules.Keys, history) <==> n == LastUses(accessOrder)[0]
    {
      VictimExact(accessOrder, modules.Keys, history, n);
    }

    method Clear()
      modifies this`modules, this`accessOrder
      ensures modules == map[] && accessOrder == [] && Valid() && Recency()
    {
      modules := map[];
      accessOrder := [];
      NothingRestricted(LastUses(history));
    }
  }

  function Limit(capacity: nat): nat {
    if capacity == 0 then 1 else capacity
  }

  // What a load evicts: in a full cache, the head of the list.
  ghost function Victim(capacity: nat, keys: set<string>, order: seq<string>): set<string> {
    if |keys| >= capacity && order != [] then {order[0]} else {}
  }

  // The list after that.
  ghost function Kept(capacity: nat, keys: set<string>, order: seq<string>): seq<string> {
    if Victim(capacity, keys, order) == {} then order else Without(order, order[0])
  }

  // ----- Last mentions -----

  lemma WithoutStep(s: seq<string>, x: string)
    requires s != []
    ensures var front, last := s[..|s| - 1], s[|s| - 1];
      Without(s, x) == if last == x then Without(front, x) else Without(front, x) + [last]
  {
    assert Without(s[..|s| - 1], x) + [] == Without(s[..|s| - 1], x);
  }

  lemma {:induction false} WithoutTwice(s: seq<string>, x: string, y: string)
    ensures Without(Without(s, x), y) == Without(Without(s, y), x)
    ensures Without(Without(s, x), x) == Without(s, x)
  {
    WithoutAbsent(Without(s, x), x);
    if s != [] {
      var front, last := s[..|s| - 1], s[|s| - 1];
      WithoutTwice(front, x, y);
      WithoutStep(s, x);
      WithoutStep(s, y);
      WithoutSnoc(Without(front, x), last, y);
      WithoutSnoc(Without(front, y), last, x);
      hide Without;
    }
  }

  lemma LastUsesSnoc(s: seq<string>, x: string)
    ensures LastUses(s + [x]) == Without(LastUses(s), x) + [x]
  {
    assert (s + [x])[..|s + [x]| - 1] == s;
  }

  lemma {:induction false} LastUsesWithout(s: seq<string>, x: string)
    ensures LastUses(Without(s, x)) == Without(LastUses(s), x)
  {
    if s != [] {
      var front, last := s[..|s| - 1], s[|s| - 1];
      LastUsesWithout(front, x);
      WithoutTwice(LastUses(front), x, last);
      WithoutSnoc(Without(LastUses(front), last), last, x);
      if last == x {
        assert Without(front, x) + [] == Without(front, x);
        assert Without(Without(LastUses(front), x), x) + [] == Without(Without(LastUses(front), x), x);
      } else {
        LastUsesSnoc(Without(front, x), last);
      }
    }
  }

  lemma {:induction false} DistinctIsLastUses(s: seq<string>)
    ensures NoDuplicates(s) <==> LastUses(s) == s
  {
    LastUsesOrdered(s);
    if s != [] && NoDuplicates(s) {
      var front, last := s[..|s| - 1], s[|s| - 1];
      assert s == front + [last];
      DistinctIsLastUses(front);
      WithoutAbsent(front, last);
    }
  }

  // The list is the order of last use exactly when it mentions nothing twice.
  lemma RecentIsDistinct(order: seq<string>, keys: set<string>, history: seq<string>)
    requires Recalled(order, keys, history)
    ensures Recent(order, keys, history) <==> NoDuplicates(order)
  {
    DistinctIsLastUses(order);
  }

  // ----- What the operations do to the list -----

  lemma PushEffect(capacity: nat, order: seq<string>, keys: set<string>, history: seq<string>, name: string)
    requires Listed(order, keys) && Recalled(order, keys, history)
    ensures var kept, victim := Kept(capacity, keys, order), Victim(capacity, keys, order);
      var list, left := kept + [name], (keys - victim) + {name};
      && Listed(list, left) && Recalled(list, left, history + [name])
      && (NoDuplicates(list) <==> NoDuplicates(kept) && (name !in keys || name in victim))
      && (Recent(list, left, history + [name]) <==> NoDuplicates(list))
      && (NoDuplicates(order) ==> NoDuplicates(kept))
      && (Recent(order, keys, history) ==> NoDuplicates(order))
  {
    hide Recent, NoDuplicates, Without, Restrict, Recalled;
    var kept, victim := Kept(capacity, keys, order), Victim(capacity, keys, order);
    if NoDuplicates(order) && order != [] {
      WithoutKeepsDistinct(order, order[0]);
    }
    SnocDistinctExactly(kept, name);
    RecentIsDistinct(order, keys, history);
    KeptRecalled(capacity, order, keys, history);
    PushRecalled(kept, keys - victim, history, name);
    RecentIsDistinct(kept + [name], (keys - victim) + {name}, history + [name]);
  }

  lemma SnocDistinctExactly(s: seq<string>, x: string)
    ensures NoDuplicates(s + [x]) <==> NoDuplicates(s) && x !in s
  {
    if NoDuplicates(s) {
      SnocDistinct(s, x);
    } else {
      var i, j :| 0 <= i < j < |s| && s[i] == s[j];
      assert (s + [x])[i] == (s + [x])[j];
    }
  }

  lemma KeptRecalled(capacity: nat, order: seq<string>, keys: set<string>, history: seq<string>)
    requires Recalled(order, keys, history)
    ensures Recalled(Kept(capacity, keys, order), keys - Victim(capacity, keys, order), history)
  {
    hide LastUses, Without, Restrict;
    if Victim(capacity, keys, order) == {} {
      assert keys - {} == keys;
    } else {
      LastUsesWithout(order, order[0]);
      WithoutIsRestrict(LastUses(history), order[0], keys);
    }
  }

  // Pushing a name that is absent, or present, in the list.
  lemma PushRecalled(order: seq<string>, keys: set<string>, history: seq<string>, name: string)
    requires Recalled(order, keys, history)
    ensures Recalled(order + [name], keys + {name}, history + [name])
  {
    hide LastUses, Without, Restrict;
    LastUsesSnoc(order, name);
    UseKeepsRecency(history, keys + {name}, name);
    WithoutIsRestrict(LastUses(history), name, keys + {name});
    WithoutIsRestrict(LastUses(history), name, keys);
    assert (keys + {name}) - {name} == keys - {name};
  }

  lemma StoreFits(capacity: nat, order: seq<string>, keys: set<string>, name: string)
    requires Listed(order, keys) && |keys| <= Limit(capacity)
    ensures Victim(capacity, keys, order) <= keys
    ensures |(keys - Victim(capacity, keys, order)) + {name}| <= Limit(capacity)
  {
    var victim := Victim(capacity, keys, order);
    if order == [] {
      assert keys == {};
      assert |(keys - victim) + {name}| == 1;
    } else {
      assert order[0] in order;
      assert keys == (keys - victim) + victim;
      assert |(keys - victim) + {name}| <= |keys - victim| + 1;
    }
  }

  lemma UseEffect(order: seq<string>, keys: set<string>, history: seq<string>, name: string)
    requires Listed(order, keys) && Recalled(order, keys, history) && name in keys
    ensures Listed(Without(order, name) + [name], keys) && Recalled(Without(order, name) + [name], keys, history + [name])
    ensures Recent(order, keys, history) ==> Recent(Without(order, name) + [name], keys, history + [name])
    ensures NoDuplicates(order) ==> NoDuplicates(Without(order, name) + [name])
  {
    hide Recent, NoDuplicates, Without, Recalled;
    var list := Without(order, name);
    RemoveEffect(order, keys, history, name);
    PushRecalled(list, keys - {name}, history, name);
    assert (keys - {name}) + {name} == keys;
    SnocDistinctExactly(list, name);
    RecentIsDistinct(order, keys, history);
    RecentIsDistinct(list + [name], keys, history + [name]);
  }

  lemma RemoveEffect(order: seq<string>, keys: set<string>, history: seq<string>, name: string)
    requires Listed(order, keys) && Recalled(order, keys, history)
    ensures Listed(Without(order, name), keys - {name}) && |keys - {name}| <= |keys|
    ensures Recalled(Without(order, name), keys - {name}, history)
    ensures Recent(order, keys, history) ==> Recent(Without(order, name), keys - {name}, history)
    ensures NoDuplicates(order) ==> NoDuplicates(Without(order, name))
  {
    hide Recent, NoDuplicates, Restrict;
    if NoDuplicates(order) {
      WithoutKeepsDistinct(order, name);
    }
    LastUsesWithout(order, name);
    WithoutIsRestrict(LastUses(history), name, keys);
    SubsetSize(keys - {name}, keys);
    hide Without, LastUses;
    RecentIsDistinct(order, keys, history);
    RecentIsDistinct(Without(order, name), keys - {name}, history);
  }

  lemma UseKeepsRecency(history: seq<string>, keys: set<string>, name: string)
    requires name in keys
    ensures Restrict(LastUses(history + [name]), keys) == Without(Restrict(LastUses(history), keys), name) + [name]
  {
    assert (history + [name])[..|history + [name]| - 1] == history;
    RestrictSnoc(Without(LastUses(history), name), name, keys);
    WithoutIsRestrict(LastUses(history), name, keys);
    RestrictWithout(LastUses(history), name, keys);
  }

  lemma {:induction false} RestrictAll(s: seq<string>, keys: set<string>)
    requires Listed(s, keys)
    ensures Restrict(s, keys) == s
  {
    RestrictMembers(s, keys);
  }

  lemma {:induction false} RestrictMembers(s: seq<string>, keys: set<string>)
    requires forall x :: x in s ==> x in keys
    ensures Restrict(s, keys) == s
  {
    if s != [] {
      assert s == s[..|s| - 1] + [s[|s| - 1]];
      RestrictMembers(s[..|s| - 1], keys);
    }
  }

  lemma {:induction false} NothingRestricted(s: seq<string>)
    ensures Restrict(s, {}) == []
  {
    if s != [] {
      NothingRestricted(s[..|s| - 1]);
    }
  }

  // ----- Whether the right module is evicted -----

  // No module present was last used before n.
  ghost predicate LeastRecent(n: string, keys: set<string>, history: seq<string>) {
    n in keys && forall m :: m in keys ==> m in history && n in history && LastIndex(history, n) <= LastIndex(history, m)
  }

  lemma HeadIsFirstUsed(order: seq<string>, history: seq<string>, n: string)
    requires ByLastUse(order, history) && n in order
    ensures order[0] in history && n in history
    ensures LastIndex(history, order[0]) <= LastIndex(history, n)
    ensures LastIndex(history, order[0]) == LastIndex(history, n) ==> n == order[0]
  {
    hide LastIndex;
    var i :| 0 <= i < |order| && order[i] == n;
    assert order[0] in order;
  }

  /** In every state, the least recently used module is the one whose last mention in the list comes
      first; the head of the list, which a full cache evicts, is that one if and only if the list
      says so itself. */
  lemma VictimExact(order: seq<string>, keys: set<string>, history: seq<string>, n: string)
    requires Listed(order, keys) && Recalled(order, keys, history) && keys != {}
    ensures order != [] && LastUses(order) != []
    ensures LeastRecent(n, keys, history) <==> n == LastUses(order)[0]
    ensures LeastRecent(order[0], keys, history) <==> order[0] == LastUses(order)[0]
  {
    hide LastUses, Restrict, LastIndex;
    var k :| k in keys;
    assert k in order;
    var list := LastUses(order);
    assert k in list;
    LastUsesOrdered(history);
    RestrictByLastUse(LastUses(history), keys, history);
    forall m | m in keys
      ensures m in history && list[0] in history && LastIndex(history, list[0]) <= LastIndex(history, m)
      ensures LastIndex(history, list[0]) == LastIndex(history, m) ==> m == list[0]
    {
      assert m in list;
      HeadIsFirstUsed(list, history, m);
    }
    assert list[0] in list;
  }

  /** In a cache whose list is the order of last use, the head of the list is the least recently used. */
  lemma VictimIsLeastRecentlyUsed<M>(cache: ModuleCache<M>, n: string)
    requires cache.Valid() && cache.Recency() && n in cache.modules
    ensures cache.accessOrder != [] && cache.accessOrder[0] in cache.history && n in cache.history
    ensures LastIndex(cache.history, cache.accessOrder[0]) <= LastIndex(cache.history, n)
    ensures NoDuplicates(cache.accessOrder)
  {
    var order, keys, history := cache.accessOrder, cache.modules.Keys, cache.history;
    RecentIsDistinct(order, keys, history);
    DistinctIsLastUses(order);
    VictimExact(order, keys, history, n);
    hide LastUses, Restrict, LastIndex, NoDuplicates;
    assert LeastRecent(order[0], keys, history);
  }

  // After loading a, b, a again and c, with room for all of them.
  lemma Reloaded(a: string, b: string, c: string)
    requires a != b && b != c && a != c
    ensures LastUses([a, b, a, c]) == [b, a, c]
  {
    assert LastUses([]) == [];
    hide *;
    ThreeNames(a, b, c);
    OneMoreUse([], a, [], []);
    OneMoreUse([a], b, [a], [a]);
    WithoutFirst(a, b);
    OneMoreUse([a, b], a, [a, b], [b]);
    ReloadedTail(a, b, c);
    OneMoreUse([a, b, a], c, [b, a], [b, a]);
  }

  lemma ReloadedTail(a: string, b: string, c: string)
    ensures [b] + [a] == [b, a] && [b, a] + [c] == [b, a, c]
  {
  }

  lemma OneMoreUse(s: seq<string>, x: string, uses: seq<string>, rest: seq<string>)
    requires LastUses(s) == uses && (rest == Without(uses, x) || (rest == uses && x !in uses))
    ensures LastUses(s + [x]) == rest + [x]
  {
    LastUsesSnoc(s, x);
    if x !in uses {
      WithoutAbsent(uses, x);
    }
  }

  lemma WithoutFirst(a: string, b: string)
    requires a != b
    ensures Without([a, b], a) == [b]
  {
    WithoutSnoc([], a, a);
    WithoutSnoc([a], b, a);
    WithoutAbsent([], a);
    hide Without;
    assert [] + [a] == [a] && [a] + [b] == [a, b];
  }

  /** Below the capacity nothing is evicted; from it on, the head of the list, in all its mentions. */
  lemma Room(capacity: nat, keys: set<string>, order: seq<string>)
    ensures |keys| < capacity || order == [] ==> Victim(capacity, keys, order) == {} && Kept(capacity, keys, order) == order
    ensures |keys| >= capacity && order != [] ==>
      Victim(capacity, keys, order) == {order[0]} && Kept(capacity, keys, order) == Without(order, order[0])
  {
  }

  // Loading into a cache with room.
  method LoadWithRoom<M>(cache: ModuleCache<M>, name: string, wasm: seq<byte>, ghost keys: set<string>, ghost list: seq<string>)
    requires cache.Valid() && cache.compile(wasm).Some? && |keys| < cache.capacity
    requires cache.modules.Keys == keys && cache.accessOrder == cache.history == list
    modifies cache
    ensures cache.Valid() && cache.modules.Keys == keys + {name} && cache.accessOrder == cache.history == list + [name]
  {
    Room(cache.capacity, keys, list);
    hide *;
    var r := cache.Load(name, wasm, None, 0);
  }

  // Loading a, b, a again and c into room for three.
  method LoadAgain<M>(compile: seq<byte> -> Option<M>, wasm: seq<byte>, a: string, b: string, c: string)
    returns (cache: ModuleCache<M>)
    requires compile(wasm).Some? && a != b && a != c && b != c
    ensures fresh(cache) && cache.Valid() && cache.capacity == 3 && cache.compile == compile
    ensures cache.modules.Keys == {a, b, c} && cache.accessOrder == cache.history == [a, b, a, c]
  {
    ThreeNames(a, b, c);
    hide *;
    cache := new ModuleCache(3, compile);
    LoadWithRoom(cache, a, wasm, {}, []);
    LoadWithRoom(cache, b, wasm, {a}, [a]);
    LoadWithRoom(cache, a, wasm, {a, b}, [a, b]);
    LoadWithRoom(cache, c, wasm, {a, b}, [a, b, a]);
  }

  lemma ThreeNames(a: string, b: string, c: string)
    requires a != b && a != c && b != c
    ensures {} + {a} == {a} && {a} + {b} == {a, b} && {a, b} + {a} == {a, b} && {a, b} + {c} == {a, b, c}
    ensures [] + [a] == [a] && [a] + [b] == [a, b] && [a, b] + [a] == [a, b, a] && [a, b, a] + [c] == [a, b, a, c]
    ensures |{a}| == 1 && |{a, b}| == 2 && |{a, b, c}| == 3
  {
  }

  /** It need not be: after loading a, b, a again and c into room for three, loading d evicts a,
      though b was used before it. */
  method ReloadMisleads<M>(compile: seq<byte> -> Option<M>, wasm: seq<byte>, a: string, b: string, c: string, d: string)
    returns (cache: ModuleCache<M>)
    requires compile(wasm).Some? && a != b && a != c && a != d && b != c && b != d && c != d
    ensures fresh(cache) && cache.Valid() && cache.modules.Keys == {b, c, d} && cache.history == [a, b, a, c, d]
    ensures LeastRecent(b, {a, b, c}, [a, b, a, c]) && !LeastRecent(a, {a, b, c}, [a, b, a, c])
  {
    hide *;
    cache := LoadAgain(compile, wasm, a, b, c);
    WrongHead(cache, a, b, c);
    Room(3, {a, b, c}, [a, b, a, c]);
    ThreeNames(a, b, c);
    var r := cache.Load(d, wasm, None, 0);
    assert cache.modules.Keys == ({a, b, c} - {a}) + {d};
  }

  lemma WrongHead<M>(cache: ModuleCache<M>, a: string, b: string, c: string)
    requires cache.Valid() && a != b && a != c && b != c
    requires cache.modules.Keys == {a, b, c} && cache.accessOrder == cache.history == [a, b, a, c]
    ensures LeastRecent(b, {a, b, c}, [a, b, a, c]) && !LeastRecent(a, {a, b, c}, [a, b, a, c])
  {
    hide *;
    Reloaded(a, b, c);
    assert a in cache.modules.Keys;
    cache.TellsVictims(b);
    cache.TellsVictims(a);
  }
}
