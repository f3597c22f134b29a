/**
  The two-level compilation cache (crates/wasm-runtime/src/cache.rs): compiled modules in memory
  and, behind a 40-byte header, in files whose names identify several module names at once.

  The compiler, the hash and the serializer are parameters, file operations may fail, and every
  call takes the time at which it runs.  Calls do not overlap.
 */
module CompilationCache {
  import opened Bytes
  import opened Wrappers

  const MAGIC: seq<byte> := [75, 89, 67, 67, 65, 67, 72, 69]  // "KYCCACHE"
  const HASH_SIZE := 32
  const HEADER_SIZE := 40
  const VERSION := 1

  datatype Error = CompileFailed | SerializeFailed | DeserializeFailed

  datatype Toolchain<!M> = Toolchain(
    compile: seq<byte> -> Option<M>,
    serialize: M -> Option<seq<byte>>,
    deserialize: seq<byte> -> Option<M>,
    hash: seq<byte> -> seq<byte>)

  // What the cache relies on: hashes of 32 bytes, and modules that survive serialization.
  ghost predicate Dependable<M(!new)>(t: Toolchain<M>) {
    && (forall a :: |t.hash(a)| == HASH_SIZE)
    && (forall m :: t.serialize(m).Some? ==> t.deserialize(t.serialize(m).value) == Some(m))
  }

  // No two of the byte strings that are known collide.
  ghost predicate CollisionFree(hash: seq<byte> -> seq<byte>, known: iset<seq<byte>>) {
    forall a, b :: a in known && b in known && hash(a) == hash(b) ==> a == b
  }

  /** There are such toolchains, with all 32-byte strings free of collisions. */
  lemma DependableExists()
    ensures exists t: Toolchain<seq<byte>> :: Dependable(t) && CollisionFree(t.hash, iset w: seq<byte> | |w| == HASH_SIZE)
  {
    var zeros: seq<byte> := seq(HASH_SIZE, _ => 0);
    var t: Toolchain<seq<byte>> := Toolchain(w => Some(w), m => Some(m), d => Some(d), w => if |w| == HASH_SIZE then w else zeros);
    assert Dependable(t) && CollisionFree(t.hash, iset w: seq<byte> | |w| == HASH_SIZE);
  }

  /** Compilation without any cache. */
  function Plain<M>(t: Toolchain<M>, wasm: seq<byte>): Result<M, Error> {
    match t.compile(wasm)
    case None => Failure(CompileFailed)
    case Some(m) => if t.serialize(m).None? then Failure(SerializeFailed) else Success(m)
  }

  datatype Meta = Meta(name: string, hash: seq<byte>, expiresAt: int)

  datatype Cached<M> = Cached(mod: M, meta: Meta, lastUsed: int)

  // Which of the file operations of a call succeed.
  datatype Io = Io(read: bool, write: bool, remove: bool, saveIndex: bool)

  // ----- Files -----

  function SafeName(name: string): (s: string)
    ensures |s| == |name|
  {
    seq(|name|, i requires 0 <= i < |name| => if name[i] == '/' || name[i] == '\\' then '_' else name[i])
  }

  function DiskPath(name: string): string {
    SafeName(name) + ".wasmc"
  }

  function FileContents(hash: seq<byte>, payload: seq<byte>): seq<byte> {
    MAGIC + hash + payload
  }

  // Unreadable: the hash would be sliced out of range.
  datatype Header = TooShort | BadMagic | Unreadable | Header(hash: seq<byte>, payload: seq<byte>)

  function ParseFile(data: seq<byte>): Header {
    if |data| < 16 then TooShort
    else if data[..8] != MAGIC then BadMagic
    else if |data| < HEADER_SIZE then Unreadable
    else Header(data[8..HEADER_SIZE], data[HEADER_SIZE..])
  }

  /** Every file the cache writes parses back into what was written, and a file trips the slice
      exactly when it has the magic number and between 16 and 39 bytes. */
  lemma FileRoundTrip(hash: seq<byte>, payload: seq<byte>, data: seq<byte>)
    requires |hash| == 32
    ensures ParseFile(FileContents(hash, payload)) == Header(hash, payload)
    ensures ParseFile(data).Header? ==> data == FileContents(ParseFile(data).hash, ParseFile(data).payload)
    ensures ParseFile(data).Unreadable? <==> 16 <= |data| < 40 && [75, 89, 67, 67, 65, 67, 72, 69] <= data
    ensures FileContents(hash, payload) == [75, 89, 67, 67, 65, 67, 72, 69] + hash + payload
  {
    assert FileContents(hash, payload)[..8] == MAGIC;
    assert FileContents(hash, payload)[8..HEADER_SIZE] == hash;
    if ParseFile(data).Header? {
      assert data == data[..8] + data[8..HEADER_SIZE] + data[HEADER_SIZE..];
    }
  }

  /** Different names can share one file. */
  lemma NamesShareFiles()
    ensures DiskPath("a/b") == DiskPath("a_b") == DiskPath("a\\b") == "a_b.wasmc"
  {
    assert SafeName("a/b") == SafeName("a_b") == SafeName("a\\b") == "a_b";
  }

  // Compiling wasm, serializing the result and recording its hash gives this content.
  ghost predicate WrittenFor<M>(t: Toolchain<M>, wasm: seq<byte>, data: seq<byte>) {
    Plain(t, wasm).Success? && data == FileContents(t.hash(wasm), t.serialize(Plain(t, wasm).value).value)
  }

  ghost predicate GoodFile<M>(t: Toolchain<M>, known: iset<seq<byte>>, data: seq<byte>) {
    exists wasm :: wasm in known && WrittenFor(t, wasm, data)
  }

  // The module is what plain compilation gives for known bytes with the hash.
  ghost predicate ModuleFor<M>(t: Toolchain<M>, known: iset<seq<byte>>, m: M, hash: seq<byte>) {
    exists wasm :: wasm in known && t.hash(wasm) == hash && Plain(t, wasm) == Success(m)
  }

  lemma GoodFileParses<M(!new)>(t: Toolchain<M>, known: iset<seq<byte>>, data: seq<byte>)
    requires Dependable(t) && GoodFile(t, known, data)
    ensures ParseFile(data).Header?
    ensures t.deserialize(ParseFile(data).payload).Some?
    ensures ModuleFor(t, known, t.deserialize(ParseFile(data).payload).value, ParseFile(data).hash)
  {
    var w :| w in known && WrittenFor(t, w, data);
    FileRoundTrip(t.hash(w), t.serialize(Plain(t, w).value).value, data);
  }

  // r is the outcome of plain compilation of wasm, or of known bytes with the same hash that compile.
  ghost predicate Answers<M>(t: Toolchain<M>, known: iset<seq<byte>>, wasm: seq<byte>, r: Result<M, Error>) {
    r == Plain(t, wasm) || (r.Success? && ModuleFor(t, known, r.value, t.hash(wasm)))
  }

  /** Without a collision among the known bytes, that is the outcome of plain compilation. */
  lemma AnswersExactly<M>(t: Toolchain<M>, known: iset<seq<byte>>, wasm: seq<byte>, r: Result<M, Error>)
    requires CollisionFree(t.hash, known) && wasm in known && Answers(t, known, wasm, r)
    ensures r == Plain(t, wasm)
  {
  }

  // ----- The cache directory -----

  class Disk {
    var files: map<string, seq<byte>>
    var index: Option<(int, seq<Meta>)>

    constructor ()
      ensures files == map[] && index == None
    {
      files := map[];
      index := None;
    }
  }

  ghost predicate GoodFiles<M>(t: Toolchain<M>, known: iset<seq<byte>>, files: map<string, seq<byte>>) {
    forall p :: p in files ==> GoodFile(t, known, files[p])
  }

  // ----- Index helpers -----

  function Without(entries: seq<Meta>, name: string): (r: seq<Meta>)
    ensures forall e :: e in r <==> e in entries && e.name != name
    ensures |r| <= |entries|
  {
    if entries == [] then []
    else if entries[0].name == name then Without(entries[1..], name)
    else [entries[0]] + Without(entries[1..], name)
  }

  function Unexpired(entries: seq<Meta>, now: int): (r: seq<Meta>)
    ensures forall e :: e in r <==> e in entries && now <= e.expiresAt
    ensures |r| <= |entries|
  {
    if entries == [] then []
    else if Expired(entries[0], now) then Unexpired(entries[1..], now)
    else [entries[0]] + Unexpired(entries[1..], now)
  }

  predicate Expired(meta: Meta, now: int) {
    now > meta.expiresAt
  }

  function Find(entries: seq<Meta>, name: string): (r: Option<Meta>)
    ensures r.Some? ==> r.value in entries && r.value.name == name
    ensures r.None? ==> forall e :: e in entries ==> e.name != name
  {
    if entries == [] then None
    else if entries[0].name == name then Some(entries[0])
    else Find(entries[1..], name)
  }

  // A hit: an unexpired entry with the hash.
  predicate Usable<M>(memory: map<string, Cached<M>>, name: string, hash: seq<byte>, now: int) {
    name in memory && memory[name].meta.hash == hash && !Expired(memory[name].meta, now)
  }

  // Nothing is put in memory or on disk but under the name, and no other file goes.
  ghost predicate OnlyTouched<M>(name: string, memory: map<string, Cached<M>>, files: map<string, seq<byte>>,
                                 memory': map<string, Cached<M>>, files': map<string, seq<byte>>) {
    && (forall n :: n in memory' && n != name ==> n in memory && memory'[n] == memory[n])
    && (forall p :: p != DiskPath(name) ==> (p in files' <==> p in files) && (p in files' ==> files'[p] == files[p]))
  }

  lemma NothingTouched<M>(name: string, memory: map<string, Cached<M>>, files: map<string, seq<byte>>)
    ensures OnlyTouched(name, memory, files, memory, files)
  {
  }

  lemma OthersUntouched<M>(name: string, memory: map<string, Cached<M>>, files: map<string, seq<byte>>,
                           memory': map<string, Cached<M>>, files': map<string, seq<byte>>, other: string, path: string)
    requires OnlyTouched(name, memory, files, memory', files')
    ensures other != name && other in memory' ==> other in memory && memory'[other] == memory[other]
    ensures path != DiskPath(name) ==>
      (path !in files && path !in files') || (path in files && path in files' && files'[path] == files[path])
  {
    hide DiskPath;
  }

  lemma FileTouched<M>(name: string, memory: map<string, Cached<M>>, files: map<string, seq<byte>>, files': map<string, seq<byte>>)
    requires DiskPath(name) in files' && files' == files[DiskPath(name) := files'[DiskPath(name)]]
    ensures OnlyTouched(name, memory, files, memory, files')
  {
    hide DiskPath;
  }

  lemma TouchedTwice<M>(name: string, memory: map<string, Cached<M>>, files: map<string, seq<byte>>,
                        memory': map<string, Cached<M>>, files': map<string, seq<byte>>,
                        memory'': map<string, Cached<M>>, files'': map<string, seq<byte>>)
    requires OnlyTouched(name, memory, files, memory', files') && OnlyTouched(name, memory', files', memory'', files'')
    ensures OnlyTouched(name, memory, files, memory'', files'')
  {
    hide DiskPath;
  }

  // ----- The cache -----

  class Cache<M(!new)> {
    const disk: Disk
    const tools: Toolchain<M>
    const capacity: nat
    const ttl: nat
    var memory: map<string, Cached<M>>
    var entries: seq<Meta>

    // The bytes looked up so far, here or in the runs that left the files.
    ghost var known: iset<seq<byte>>

    // Whatever is in memory is what plain compilation of known bytes with its hash gives, and every
    // file was written for known bytes.
    ghost predicate Valid()
      reads this, disk
    {
      && Dependable(tools)
      && GoodFiles(tools, known, disk.files)
      && forall n :: n in memory ==> ModuleFor(tools, known, memory[n].mod, memory[n].meta.hash)
    }

    // A restart: memory is empty, the directory is what the previous run left.
    constructor (disk: Disk, tools: Toolchain<M>, capacity: nat, ttl: nat, now: int, ghost known: iset<seq<byte>>)
      requires Dependable(tools) && GoodFiles(tools, known, disk.files)
      ensures Valid() && this.disk == disk && this.tools == tools && this.capacity == capacity && this.ttl == ttl
      ensures memory == map[] && this.known == known
      ensures entries ==
        if disk.index.Some? && disk.index.value.0 == 1 then Unexpired(disk.index.value.1, now) else []
    {
      this.disk := disk;
      this.tools := tools;
      this.capacity := capacity;
      this.ttl := ttl;
      this.known := known;
      memory := map[];
      entries := [];
      new;
      LoadIndex(now);
    }

    method LoadIndex(now: int)
      modifies this`entries
      ensures entries ==
        if disk.index.Some? && disk.index.value.0 == 1 then Unexpired(disk.index.value.1, now) else old(entries)
    {
      if disk.index.None? || disk.index.value.0 != VERSION {
        return;
      }
      entries := Unexpired(disk.index.value.1, now);
    }

    /** Whatever ran before, the outcome is that of plain compilation, unless bytes looked up before
        have the same hash; then it may be the module compiled from those. */
    method GetOrCompile(name: string, wasm: seq<byte>, forceRecompile: bool, now: int, io: Io)
      returns (r: Result<M, Error>)
      requires Valid()
      modifies this`memory, this`entries, this`known, disk
      ensures Valid() && known == old(known) + iset{wasm}
      ensures Answers(tools, old(known), wasm, r)
      ensures CollisionFree(tools.hash, known) ==> r == Plain(tools, wasm)
      ensures forceRecompile ==> r == Plain(tools, wasm)
      ensures !forceRecompile && Usable(old(memory), name, tools.hash(wasm), now) ==> r == Success(old(memory)[name].mod)
      ensures r.Success? ==> Usable(memory, name, tools.hash(wasm), now) && memory[name].mod == r.value
      ensures OnlyTouched(name, old(memory), old(disk.files), memory, disk.files)
    {
      hide *;
      Learn(wasm);
      var hash := tools.hash(wasm);
      NothingTouched(name, memory, disk.files);
      if !forceRecompile {
        var fromMemory := GetFromMemory(name, hash, now);
        if fromMemory.Some? {
          Settled(wasm, old(known), fromMemory.value);
          return Success(fromMemory.value);
        }
        ghost var m, f := memory, disk.files;
        var fromDisk := GetFromDisk(name, hash, now, io);
        TouchedTwice(name, old(memory), old(disk.files), m, f, memory, disk.files);
        if fromDisk.Some? {
          Settled(wasm, old(known), fromDisk.value.value);
          return fromDisk.value;
        }
      }
      ghost var m, f := memory, disk.files;
      r := CompileAndCache(name, wasm, hash, now, io);
      TouchedTwice(name, old(memory), old(disk.files), m, f, memory, disk.files);
      PlainAnswers(wasm, old(known));
    }

    lemma KeepsGoodFiles()
      requires Valid()
      ensures Dependable(tools) && GoodFiles(tools, known, disk.files)
    {
    }

    // The bytes of a lookup become known.
    ghost method Learn(wasm: seq<byte>)
      requires Valid()
      modifies this`known
      ensures Valid() && known == old(known) + iset{wasm}
    {
      known := known + iset{wasm};
    }

    lemma PlainAnswers(wasm: seq<byte>, before: iset<seq<byte>>)
      ensures Answers(tools, before, wasm, Plain(tools, wasm))
    {
    }

    lemma Settled(wasm: seq<byte>, before: iset<seq<byte>>, m: M)
      requires known == before + iset{wasm} && ModuleFor(tools, known, m, tools.hash(wasm))
      ensures Answers(tools, before, wasm, Success(m))
      ensures CollisionFree(tools.hash, known) ==> Plain(tools, wasm) == Success(m)
    {
    }

    method GetFromMemory(name: string, hash: seq<byte>, now: int) returns (r: Option<M>)
      requires Valid()
      modifies this`memory
      ensures Valid()
      ensures r.Some? ==> ModuleFor(tools, known, r.value, hash)
      ensures r.Some? <==>
        name in old(memory) && old(memory)[name].meta.hash == hash && now <= old(memory)[name].meta.expiresAt
      ensures r.Some? <==> Usable(old(memory), name, hash, now)
      ensures r.Some? ==> r.value == old(memory)[name].mod && memory == old(memory)[name := old(memory)[name].(lastUsed := now)]
      ensures r.Some? ==> Usable(memory, name, hash, now)
      ensures r.None? ==> memory == old(memory) - {name}
      ensures OnlyTouched(name, old(memory), disk.files, memory, disk.files)
    {
      if name in memory {
        var entry := memory[name];
        if entry.meta.hash == hash && !Expired(entry.meta, now) {
          memory := memory[name := entry.(lastUsed := now)];
          return Some(entry.mod);
        }
        memory := memory - {name};
      }
      return None;
    }

    /** None: nothing usable on disk.  A file is only trusted when its own header has the hash. */
    method GetFromDisk(name: string, hash: seq<byte>, now: int, io: Io) returns (r: Option<Result<M, Error>>)
      requires Valid()
      modifies this`memory, disk`files
      ensures Valid()
      ensures r.Some? ==> r.value.Success? && ModuleFor(tools, known, r.value.value, hash)
      ensures r.Some? ==> memory == old(memory)[name := Cached(r.value.value, Meta(name, hash, now + ttl), now)]
      ensures r.Some? ==> Usable(memory, name, hash, now)
      ensures r.None? ==> memory == old(memory)
      ensures OnlyTouched(name, old(memory), old(disk.files), memory, disk.files)
      ensures disk.files ==
        if io.remove && Find(entries, name).Some?
           && (Find(entries, name).value.hash != hash || now > Find(entries, name).value.expiresAt)
        then old(disk.files) - {DiskPath(name)} else old(disk.files)
      ensures r.Some? <==>
        && DiskPath(name) in old(disk.files) && io.read
        && Find(entries, name).Some? && Find(entries, name).value.hash == hash && now <= Find(entries, name).value.expiresAt
        && ParseFile(old(disk.files)[DiskPath(name)]).Header?
        && ParseFile(old(disk.files)[DiskPath(name)]).hash == hash
    {
      var path := DiskPath(name);
      if path !in disk.files {
        return None;
      }
      var meta := Find(entries, name);
      if meta.None? {
        return None;
      }
      if meta.value.hash != hash || Expired(meta.value, now) {
        if io.remove {
          disk.files := disk.files - {path};
        }
        return None;
      }
      if !io.read {
        return None;
      }
      var data := disk.files[path];
      GoodFileParses(tools, known, data);
      if |data| < 16 || data[..8] != MAGIC {
        return None;
      }
      if data[8..HEADER_SIZE] != hash {
        return None;
      }
      var m := tools.deserialize(data[HEADER_SIZE..]);
      if m.None? {
        return Some(Failure(DeserializeFailed));
      }
      memory := memory[name := Cached(m.value, Meta(name, hash, now + ttl), now)];
      return Some(Success(m.value));
    }

    method CompileAndCache(name: string, wasm: seq<byte>, hash: seq<byte>, now: int, io: Io)
      returns (r: Result<M, Error>)
      requires Valid() && hash == tools.hash(wasm) && wasm in known
      modifies this`memory, this`entries, disk
      ensures Valid()
      ensures r == Plain(tools, wasm)
      ensures r.Success? ==> Usable(memory, name, hash, now) && memory[name].mod == r.value
      ensures OnlyTouched(name, old(memory), old(disk.files), memory, disk.files)
      ensures r.Failure? ==>
        && memory == old(memory) && entries == old(entries)
        && disk.files == old(disk.files) && disk.index == old(disk.index)
      ensures r.Success? ==>
        var meta := Meta(name, hash, now + ttl);
        && entries == Without(old(entries), name) + [meta]
        && disk.files == (if io.write
             then old(disk.files)[DiskPath(name) := FileContents(hash, tools.serialize(r.value).value)]
             else old(disk.files))
        && disk.index == (if io.saveIndex then Some((1, entries)) else old(disk.index))
        && Inserted(capacity, old(memory), memory, name, Cached(r.value, meta, now))
    {
      hide Inserted, GoodFiles, DiskPath, FileContents, Without, ModuleFor, OnlyTouched, Dependable;
      NothingTouched(name, memory, disk.files);
      var compiled := tools.compile(wasm);
      if compiled.None? {
        return Failure(CompileFailed);
      }
      var m := compiled.value;
      var serialized := tools.serialize(m);
      if serialized.None? {
        return Failure(SerializeFailed);
      }
      var meta := Meta(name, hash, now + ttl);
      CompiledIsModule(m, wasm);
      InsertInMemory(name, Cached(m, meta, now));
      entries := Without(entries, name) + [meta];
      if io.write {
        ghost var files := disk.files;
        WriteDiskCache(name, serialized.value, hash, wasm);
        FileTouched(name, memory, files, disk.files);
        TouchedTwice(name, old(memory), old(disk.files), memory, files, memory, disk.files);
      }
      if io.saveIndex {
        disk.index := Some((VERSION, entries));
      }
      return Success(m);
    }

    lemma CompiledIsModule(m: M, wasm: seq<byte>)
      requires tools.compile(wasm) == Some(m) && tools.serialize(m).Some? && wasm in known
      ensures Plain(tools, wasm) == Success(m)
      ensures ModuleFor(tools, known, m, tools.hash(wasm))
    {
    }

    method InsertInMemory(name: string, entry: Cached<M>)
      requires Valid() && ModuleFor(tools, known, entry.mod, entry.meta.hash)
      modifies this`memory
      ensures Valid() && Inserted(capacity, old(memory), memory, name, entry)
      ensures name in memory && memory[name] == entry
      ensures OnlyTouched(name, old(memory), disk.files, memory, disk.files)
    {
      hide ModuleFor, GoodFiles, Dependable, DiskPath;
      if |memory| >= capacity && |memory| > 0 {
        OldestExists(memory);
        var victim :| victim in memory && forall n :: n in memory ==> memory[victim].lastUsed <= memory[n].lastUsed;
        assert IsOldest(victim, memory);
        memory := memory - {victim};
      }
      memory := memory[name := entry];
    }

    method WriteDiskCache(name: string, serialized: seq<byte>, hash: seq<byte>, ghost wasm: seq<byte>)
      requires GoodFiles(tools, known, disk.files) && wasm in known && WrittenFor(tools, wasm, FileContents(hash, serialized))
      modifies disk`files
      ensures disk.files == old(disk.files)[DiskPath(name) := FileContents(hash, serialized)]
      ensures GoodFiles(tools, known, disk.files)
    {
      var buf := MAGIC;
      buf := buf + hash;
      buf := buf + serialized;
      disk.files := disk.files[DiskPath(name) := buf];
    }

    method EvictExpired(now: int) returns (count: nat)
      requires Valid()
      modifies this`memory, this`entries
      ensures Valid()
      ensures memory == map n | n in old(memory) && now <= old(memory)[n].meta.expiresAt :: old(memory)[n]
      ensures entries == Unexpired(old(entries), now)
      ensures count == |old(memory)| - |memory| + |old(entries)| - |entries|
    {
      hide ModuleFor, GoodFiles, Dependable;
      var expired := set n | n in memory && Expired(memory[n].meta, now);
      count := |expired|;
      ghost var before := memory;
      memory := memory - expired;
      assert memory.Keys == before.Keys - expired;
      var n := |entries|;
      entries := Unexpired(entries, now);
      count := count + n - |entries|;
    }

    method Invalidate(name: string, io: Io) returns (removed: bool)
      requires Valid()
      modifies this`memory, this`entries, disk`files
      ensures Valid()
      ensures memory == old(memory) - {name} && entries == Without(old(entries), name)
      ensures disk.files == if io.remove then old(disk.files) - {DiskPath(name)} else old(disk.files)
      ensures removed <==> name in old(memory) || |entries| < |old(entries)|
    {
      hide ModuleFor, Dependable, GoodFile;
      removed := name in memory;
      memory := memory - {name};
      var before := |entries|;
      entries := Without(entries, name);
      removed := removed || |entries| < before;
      if DiskPath(name) in disk.files && io.remove {
        disk.files := disk.files - {DiskPath(name)};
      }
    }

    method Clear(io: Io)
      requires Valid()
      modifies this`memory, this`entries, disk
      ensures Valid() && memory == map[] && entries == []
      ensures disk.files == if io.remove then map[] else old(disk.files)
      ensures disk.index == if io.remove then None else old(disk.index)
    {
      memory := map[];
      entries := [];
      if io.remove {
        disk.files := map[];
        disk.index := None;
      }
    }
  }

  // A full memory cache gives up the entry used longest ago.
  ghost predicate Inserted<M>(capacity: nat, before: map<string, Cached<M>>, after: map<string, Cached<M>>,
                              name: string, entry: Cached<M>) {
    if |before| >= capacity && |before| > 0
      then exists victim :: IsOldest(victim, before) && after == (before - {victim})[name := entry]
      else after == before[name := entry]
  }

  ghost predicate IsOldest<M>(victim: string, memory: map<string, Cached<M>>) {
    victim in memory && forall n :: n in memory ==> memory[victim].lastUsed <= memory[n].lastUsed
  }

  lemma {:induction false} OldestExists<M>(memory: map<string, Cached<M>>)
    requires |memory| > 0
    ensures exists victim :: IsOldest(victim, memory)
    decreases |memory|
  {
    var n :| n in memory;
    var rest := memory - {n};
    if |rest| == 0 {
      assert memory.Keys == rest.Keys + {n} == {n};
      assert IsOldest(n, memory);
    } else {
      OldestExists(rest);
      var v :| IsOldest(v, rest);
      assert memory.Keys == rest.Keys + {n};
      assert IsOldest(if memory[v].lastUsed <= memory[n].lastUsed then v else n, memory);
    }
  }

  // ----- Runs -----

  datatype Call =
    | Lookup(name: string, wasm: seq<byte>, forceRecompile: bool)
    | InvalidateName(name: string)
    | Evict
    | ClearAll
    | Restart

  // Everything looked up in the first n calls, and what was known before them.
  ghost function KnownAfter(known: iset<seq<byte>>, calls: seq<(Call, int, Io)>, n: nat): iset<seq<byte>>
    requires n <= |calls|
  {
    known + iset i | 0 <= i < n && calls[i].0.Lookup? :: calls[i].0.wasm
  }

  // Every lookup so far, and nothing else, has an outcome that answers it.
  ghost predicate AllAnswered<M>(tools: Toolchain<M>, known: iset<seq<byte>>, calls: seq<(Call, int, Io)>,
                                 outcomes: seq<Option<Result<M, Error>>>)
    requires |outcomes| <= |calls|
  {
    forall i :: 0 <= i < |outcomes| ==>
      && (outcomes[i].Some? <==> calls[i].0.Lookup?)
      && (outcomes[i].Some? ==> Answers(tools, KnownAfter(known, calls, i), calls[i].0.wasm, outcomes[i].value))
  }

  /** In every run of lookups, forced recompilations, invalidations, expiries, clears and restarts
      over one directory, each lookup has the outcome of plain compilation of its bytes, or of
      bytes looked up before with the same hash; so, without a collision among the bytes that the
      run and the files in the directory are about, exactly that of plain compilation. */
  method Run<M(!new)>(disk: Disk, tools: Toolchain<M>, capacity: nat, ttl: nat, calls: seq<(Call, int, Io)>,
                      ghost known: iset<seq<byte>>)
    returns (outcomes: seq<Option<Result<M, Error>>>)
    requires Dependable(tools) && GoodFiles(tools, known, disk.files)
    modifies disk
    ensures |outcomes| == |calls| && GoodFiles(tools, KnownAfter(known, calls, |calls|), disk.files)
    ensures AllAnswered(tools, known, calls, outcomes)
    ensures CollisionFree(tools.hash, KnownAfter(known, calls, |calls|)) ==>
      forall i :: 0 <= i < |calls| && calls[i].0.Lookup? ==>
        outcomes[i].Some? && outcomes[i].value == Plain(tools, calls[i].0.wasm)
  {
    var cache := new Cache(disk, tools, capacity, ttl, 0, known);
    outcomes := [];
    assert KnownAfter(known, calls, 0) == known && AllAnswered(tools, known, calls, outcomes);
    hide *;
    for i := 0 to |calls|
      invariant fresh(cache) && cache.Valid() && cache.disk == disk && cache.tools == tools && |outcomes| == i
      invariant cache.known == KnownAfter(known, calls, i)
      invariant AllAnswered(tools, known, calls, outcomes)
    {
      KnownStep(known, calls, i);
      var outcome;
      cache, outcome := Perform(cache, calls[i].0, calls[i].1, calls[i].2);
      OneMoreAnswered(tools, known, calls, outcomes, outcome);
      outcomes := outcomes + [outcome];
    }
    cache.KeepsGoodFiles();
    if CollisionFree(tools.hash, KnownAfter(known, calls, |calls|)) {
      AllSettled(tools, known, calls, outcomes);
    }
  }

  lemma OneMoreAnswered<M>(tools: Toolchain<M>, known: iset<seq<byte>>, calls: seq<(Call, int, Io)>,
                           outcomes: seq<Option<Result<M, Error>>>, outcome: Option<Result<M, Error>>)
    requires |outcomes| < |calls| && AllAnswered(tools, known, calls, outcomes)
    requires outcome.Some? <==> calls[|outcomes|].0.Lookup?
    requires outcome.Some? ==> Answers(tools, KnownAfter(known, calls, |outcomes|), calls[|outcomes|].0.wasm, outcome.value)
    ensures AllAnswered(tools, known, calls, outcomes + [outcome])
  {
    hide Answers, KnownAfter;
  }

  // One call; a restart makes a new cache over the directory.
  method Perform<M(!new)>(cache: Cache<M>, call: Call, now: int, io: Io)
    returns (next: Cache<M>, outcome: Option<Result<M, Error>>)
    requires cache.Valid()
    modifies cache, cache.disk
    ensures (next == cache || fresh(next)) && next.Valid() && next.disk == cache.disk && next.tools == cache.tools
    ensures next.known == if call.Lookup? then old(cache.known) + iset{call.wasm} else old(cache.known)
    ensures outcome.Some? <==> call.Lookup?
    ensures call.Lookup? ==> Answers(cache.tools, old(cache.known), call.wasm, outcome.value)
  {
    hide *;
    next, outcome := cache, None;
    match call {
      case Lookup(name, wasm, force) =>
        var r := cache.GetOrCompile(name, wasm, force, now, io);
        outcome := Some(r);
      case InvalidateName(name) =>
        var removed := cache.Invalidate(name, io);
      case Evict =>
        var count := cache.EvictExpired(now);
      case ClearAll =>
        cache.Clear(io);
      case Restart =>
        cache.KeepsGoodFiles();
        next := new Cache(cache.disk, cache.tools, cache.capacity, cache.ttl, now, cache.known);
    }
  }

  lemma KnownStep(known: iset<seq<byte>>, calls: seq<(Call, int, Io)>, i: nat)
    requires i < |calls|
    ensures KnownAfter(known, calls, i + 1) ==
      if calls[i].0.Lookup? then KnownAfter(known, calls, i) + iset{calls[i].0.wasm} else KnownAfter(known, calls, i)
  {
  }

  lemma AllSettled<M>(tools: Toolchain<M>, known: iset<seq<byte>>, calls: seq<(Call, int, Io)>,
                      outcomes: seq<Option<Result<M, Error>>>)
    requires |outcomes| == |calls| && AllAnswered(tools, known, calls, outcomes)
    requires CollisionFree(tools.hash, KnownAfter(known, calls, |calls|))
    ensures forall i :: 0 <= i < |calls| && calls[i].0.Lookup? ==>
      outcomes[i].Some? && outcomes[i].value == Plain(tools, calls[i].0.wasm)
  {
    var all := KnownAfter(known, calls, |calls|);
    forall i | 0 <= i < |calls| && calls[i].0.Lookup?
      ensures outcomes[i].Some? && outcomes[i].value == Plain(tools, calls[i].0.wasm)
    {
      var wasm, before := calls[i].0.wasm, KnownAfter(known, calls, i);
      assert before <= all && wasm in all;
      hide KnownAfter, CollisionFree;
      MoreKnown(tools, before, all, wasm, outcomes[i].value);
      AnswersExactly(tools, all, wasm, outcomes[i].value);
    }
  }

  lemma MoreKnown<M>(t: Toolchain<M>, before: iset<seq<byte>>, known: iset<seq<byte>>, wasm: seq<byte>, r: Result<M, Error>)
    requires before <= known && Answers(t, before, wasm, r)
    ensures Answers(t, known, wasm, r)
  {
  }

  /** A collision does show: from an empty directory, two lookups of one name answer the second with
      the module of the first exactly when the hashes are equal and the first compiles. */
  method LookupTwice<M(!new)>(disk: Disk, tools: Toolchain<M>, capacity: nat, ttl: nat, name: string,
                              a: seq<byte>, b: seq<byte>, now: int, io: Io)
    returns (first: Result<M, Error>, second: Result<M, Error>)
    requires Dependable(tools) && disk.files == map[]
    modifies disk
    ensures first == Plain(tools, a)
    ensures second == if tools.hash(a) == tools.hash(b) && Plain(tools, a).Success? then Plain(tools, a) else Plain(tools, b)
  {
    var cache := new Cache(disk, tools, capacity, ttl, now, iset{});
    first := cache.GetOrCompile(name, a, false, now, io);
    second := cache.GetOrCompile(name, b, false, now, io);
  }

  // ----- How long an entry lasts, and what there is room for -----

  /** A module compiled at one time is answered from memory up to and including the time to live
      later, and not any more after that. */
  method HitsUntilExpiry<M(!new)>(cache: Cache<M>, name: string, wasm: seq<byte>, now: int, later: int, io: Io)
    returns (r: Result<M, Error>, again: Option<M>)
    requires cache.Valid() && wasm in cache.known
    modifies cache, cache.disk
    ensures r == Plain(cache.tools, wasm)
    ensures r.Success? ==> (again == if later <= now + cache.ttl then Some(r.value) else None)
  {
    var hash := cache.tools.hash(wasm);
    r := cache.CompileAndCache(name, wasm, hash, now, io);
    assert r.Success? ==> cache.memory[name] == Cached(r.value, Meta(name, hash, now + cache.ttl), now);
    again := cache.GetFromMemory(name, hash, later);
  }

  /** Memory holds at most its capacity, or one module, and nothing goes while there is room. */
  lemma InsertedFits<M>(capacity: nat, before: map<string, Cached<M>>, after: map<string, Cached<M>>,
                        name: string, entry: Cached<M>)
    requires Inserted(capacity, before, after, name, entry)
    ensures |before| <= capacity || |before| <= 1 ==> |after| <= capacity || |after| <= 1
    ensures |before| < capacity ==> after == before[name := entry]
    ensures |before| >= capacity && |before| > 0 ==> exists victim ::
      && victim in before && (forall n :: n in before ==> before[victim].lastUsed <= before[n].lastUsed)
      && after == (before - {victim})[name := entry]
  {
    if |before| >= capacity && |before| > 0 {
      var victim :| IsOldest(victim, before) && after == (before - {victim})[name := entry];
      assert before.Keys == (before - {victim}).Keys + {victim};
      assert after.Keys == (before - {victim}).Keys + {name};
    } else {
      assert after.Keys == before.Keys + {name};
    }
  }

  /** Slashes of either kind become underscores in a file name, and nothing else changes. */
  lemma SafeNames(name: string, i: nat)
    requires i < |name|
    ensures SafeName(name)[i] == if name[i] == '/' || name[i] == '\\' then '_' else name[i]
    ensures DiskPath(name) == SafeName(name) + ".wasmc"
  {
  }

  /** Dropping a name, or what has expired, keeps the order of the rest; the first entry of a name counts. */
  lemma IndexSpelledOut(e: Meta, rest: seq<Meta>, name: string, now: int)
    ensures Without([e] + rest, name) == (if e.name == name then [] else [e]) + Without(rest, name)
    ensures Unexpired([e] + rest, now) == (if now > e.expiresAt then [] else [e]) + Unexpired(rest, now)
    ensures Find([e] + rest, name) == if e.name == name then Some(e) else Find(rest, name)
    ensures Without([], name) == Unexpired([], now) == [] && Find([], name) == None
  {
    assert ([e] + rest)[1..] == rest;
    assert [] + Without(rest, name) == Without(rest, name) && [] + Unexpired(rest, now) == Unexpired(rest, now);
  }
}
