# Verified models of the KYC vault's algorithms

Models, in Dafny, of the parts of the repository that compute something: threshold secret sharing,
the quantum circuit optimizer, the linear-memory serializer of the component adapter, the caches, the
instance pool and the policy engine of the Wasm runtime, the consensus counters, weighted quorums and
audit trail of the governance layer, and the classical algorithms of the quantum crate.  Code that
updates state in place is a class whose methods change the same fields, or an array; each loop is a
loop.  Specification functions say what the methods compute and lemmas prove what that is good for.

Modules, one per file:

- `Interpolation` proves Lagrange interpolation at 0 over the integers modulo any number, and over the
  integers; `SecretSharing` (residues modulo 251) and `Mpc` (exact integers) both rest on it.
  `Secrecy` says when shares below the threshold say nothing about the secret.
- `CircuitOptimizer` treats the optimizer as a compiler: it preserves meaning under every lawful
  interpretation of the gates, and decides equality of circuits under the two laws it uses.
  `CircuitTolerance` says exactly what the tolerance of its last pass would do outside the pipeline;
  the pass is private and runs only there, so no such circuit reaches it.
- `WitSerializer` proves a read-back theorem with framing for pointer-linked values in linear memory.
- `CompilationCache`, `InstancePool`, `ModuleCache` and `PolicyEngine` prove safety over whole runs.
- `Consensus`, `Authority`, `AuditTrail` and `AuditFields` prove quorum intersection, agreement and commitment.
- `SurfaceCode`, `Grover`, `ShorsAlgorithm` and `KeyDistribution` prove the arithmetic of the quantum crate.
- `Arithmetic`, `Bytes` and `Wrappers` are shared.

Constants and definitions that contracts mention are stated once more by lemmas in literal terms, most of
them named `...SpelledOut` or `...Exactly`, so that changing one of them breaks a lemma.

`dafny verify dfyconfig.toml` checks everything.

## Where the code departs from its description

The models follow the code.  These departures are stated as lemmas or contracts:

- `combine` in secret_sharing.rs searches the inverse of a truncated remainder, which is negative for
  some point of every combination, so the search leaves 1 there, which is right only for -250.  The
  recovery its unit test expects, from shares 1, 2 and 3, holds only when the second share is all
  zeros (`SecretSharing.FirstThreeExact`, `SecretSharing.OwnTestFails`); `SecretSharing.AsWrittenExact`
  says for which points recovery holds, and `SecretSharing.RoundTrip` is about denominators reduced to
  residues first (the parameter `normalised`).  Secret bytes above 250 come back reduced modulo 251 in
  any case.
- With a total of 251 or more, share 251 is the secret modulo 251, in the clear (`Secrecy.ShareAtModulus`).
- The surface code's stabilizers leave no logical qubit (`SurfaceCode.StabilizersIndependent`).
- The Grover constructor computes two iterations for four entries, which is one too many: the search then
  returns the last index whatever is marked (`Grover.FourEntries`).
- The default policy rules are not sorted by priority until a rule is added (`PolicyEngine.DefaultsDenyUntilSorted`),
  and adding or removing rules leaves cached decisions in place (`PolicyEngine.FirstAddStalesDefaults`,
  `PolicyEngine.AddingCanStale`, `PolicyEngine.RemovingCanStale`).
- The consensus counters count messages, not validators; `Consensus.AgreementExact` says how many
  repeated votes they tolerate.
- `rotate` in authority.rs removes the old node before the new one may be refused (`Authority.AuthoritySet.Rotate`).
- Loading a module name that is present pushes it a second time on the recency list, so that a later load
  may not evict the least recently used module (`ModuleCache.VictimExact`, `ModuleCache.ReloadMisleads`).
- The audit hash leaves out target and details (`AuditTrail.CommitmentLimits`).
- `readString` stops after 1024 bytes, which `writeString` does not, and drops a byte order mark in front
  (`WitSerializer.AsReadWhole`).
- Some of the source would not compile as it stands and is modelled as meant: `#` comments in
  circuit_optimizer.rs, and the merged rotation there, which is moved into a match and used after that
  breaks out of the loop; the assignment to `max_size` through a shared reference in instance_pool.rs;
  and the comparison of actions in policy.rs, which lack equality.

## Model

| member | source | states |
|---|---|---|
| `Interpolation.Interpolate` | crates/crypto-pqc/src/secret_sharing.rs:52-82 | the theorem both sharing schemes rest on: over the integers modulo any m (m = 0: the integers themselves), weights that satisfy den * w = num at pairwise separated nodes sum every polynomial of that degree to its value at 0 |
| `Interpolation.RootsBound` | crates/crypto-pqc/src/secret_sharing.rs:52-82 | a polynomial with at least as many separated roots as coefficients has every value 0 modulo m, also when the modulus is not prime |
| `SecretSharing.Split` | crates/crypto-pqc/src/secret_sharing.rs:6-43 | fails exactly for a threshold below 2 or above the total; otherwise share i is the point i followed by the 32 polynomial values, in order |
| `SecretSharing.ShareByte` | crates/crypto-pqc/src/secret_sharing.rs:26-34 | the incremental power-and-sum loop, reduced at every step, yields the polynomial value modulo 251 after the final shift |
| `SecretSharing.ShareSpelledOut` | crates/crypto-pqc/src/secret_sharing.rs:21-40 | for threshold 3, byte j of the share at x is secret[j] + a[j] * x + b[j] * x^2 modulo 251, behind the byte x |
| `SecretSharing.RemTruncates` | crates/crypto-pqc/src/secret_sharing.rs:52-82 | the remainder keeps the sign of the dividend |
| `SecretSharing.Combine` | crates/crypto-pqc/src/secret_sharing.rs:45-85 | fails exactly with fewer shares than the threshold; otherwise the loops compute the Lagrange combination of the first threshold shares, with the inverse the search finds |
| `SecretSharing.NodeProducts` | crates/crypto-pqc/src/secret_sharing.rs:59-68 | reducing with the truncated remainder after every factor equals reducing the whole numerator and denominator once, sign included |
| `SecretSharing.SearchExact` | crates/crypto-pqc/src/secret_sharing.rs:70-76 | the brute-force search yields the inverse of a reduced nonzero denominator if and only if that is positive or is -250; for every negative denominator it leaves 1 |
| `SecretSharing.InverseSearch` | crates/crypto-pqc/src/secret_sharing.rs:70-76 | the loop with its break returns the first inverse below 251, or 1 |
| `SecretSharing.RoundTrip` | crates/crypto-pqc/src/secret_sharing.rs:6-85 | with residues normalised, any threshold shares of one split at points distinct modulo 251, in any order, combine to every secret byte modulo 251; to the secret itself if and only if all its bytes are at most 250 |
| `SecretSharing.RoundTripOfSplit` | crates/crypto-pqc/src/secret_sharing.rs:6-85 | the same for any selection, in any order, of shares from the list split returns, at points distinct modulo 251 (so any selection among up to 251 shares) |
| `SecretSharing.AsWrittenExact` | crates/crypto-pqc/src/secret_sharing.rs:45-85 | as written, combine recovers every polynomial from a list of points if and only if each reduced denominator is positive or -250, or its numerator is 0 modulo 251 |
| `SecretSharing.SomeWeightMissed` | crates/crypto-pqc/src/secret_sharing.rs:59-76 | from two points on, the second largest always has a negative reduced denominator, for which the search as written finds nothing and leaves 1, which is right only for -250 |
| `SecretSharing.FirstThreeExact` | crates/crypto-pqc/src/secret_sharing.rs:92-100 | as written, with threshold 3, shares 1, 2 and 3, which the unit test combines, give the secret plus six times the second share modulo 251; so the secret if and only if its bytes are at most 250 and the second share is all zeros |
| `SecretSharing.OwnTestFails` | crates/crypto-pqc/src/secret_sharing.rs:92-100 | the secret of the unit test, with zero coefficients, comes back with every byte off by one |
| `Secrecy.SecrecyExact` | crates/crypto-pqc/src/secret_sharing.rs:14-35 | one share fewer than the threshold, at points distinct modulo 251, fits every secret byte whatever its values, if and only if no point is a multiple of 251 |
| `Secrecy.SharesHide` | crates/crypto-pqc/src/secret_sharing.rs:14-35 | any such shares of a split, at points not multiples of 251, are also those of every other secret under other coefficients |
| `Secrecy.ShareAtModulus` | crates/crypto-pqc/src/secret_sharing.rs:21-40 | the share at 251, dealt when the total is 251 or more, is the secret modulo 251 in the clear |
| `SecretSharing.SearchExamples` | crates/crypto-pqc/src/secret_sharing.rs:92-100 | the points 1, 2, 3 of the repository's own test do not meet that condition; 1, 11, 36 do |
| `Mpc.QuantumMPC.EvaluatePolynomial` | crates/quantum/src/mpc.rs:80-90 | the running-power loop is polynomial evaluation |
| `Mpc.QuantumMPC.CreateShares` | crates/quantum/src/mpc.rs:93-117 | refuses exactly an empty participant list; otherwise participant i gets the polynomial at i + 1 with the secret as constant term |
| `Mpc.QuantumMPC.ReconstructSecret` | crates/quantum/src/mpc.rs:141-169 | fails exactly below the threshold; otherwise sums the individually cast Lagrange terms of the first threshold shares, whatever their abscissas |
| `Mpc.QuantumMPC.BasisAtZero` | crates/quantum/src/mpc.rs:152-162 | the loop of floating-point quotients computes the Lagrange weight at 0 |
| `Mpc.WeightExact` | crates/quantum/src/mpc.rs:152-162 | for an abscissa that occurs once, the product of quotients is one quotient of integer products with a nonzero denominator |
| `Mpc.WeightKind` | crates/quantum/src/mpc.rs:152-162 | it is finite if and only if the abscissa occurs once; otherwise undefined exactly when another abscissa is zero, and infinite if none is |
| `Mpc.TwinTerm` | crates/quantum/src/mpc.rs:163-165 | a share whose abscissa occurs twice contributes 0 or an extreme 64-bit integer, and 0 exactly when its value or another abscissa is zero |
| `Mpc.TwinSign` | crates/quantum/src/mpc.rs:152-165 | with two equal abscissas x and value y the contribution is 0 if either is 0, the largest 64-bit integer if their signs differ, and the smallest if they agree |
| `Mpc.QuotientsSpelledOut` | crates/quantum/src/mpc.rs:152-162 | division by zero is infinite with the sign of the dividend, or undefined for zero |
| `Mpc.ProductsSpelledOut` | crates/quantum/src/mpc.rs:152-165 | infinite factors multiply by their signs, and with zero give an undefined product |
| `Mpc.CastsSpelledOut` | crates/quantum/src/mpc.rs:163-165 | casts truncate towards zero, infinities to the extreme 64-bit integers, undefined numbers to 0 |
| `Mpc.ChooseFactorial` | crates/quantum/src/mpc.rs:152-162 | binomial coefficients from Pascal's rule times the factorials give the factorial |
| `Mpc.WeightsAreBinomial` | crates/quantum/src/mpc.rs:152-162 | the Lagrange weights of the points 1..t at 0 are the integers (-1)^i * C(t, i + 1), i from 0, for every t |
| `Mpc.TermExact` | crates/quantum/src/mpc.rs:163-165 | so every term is an integer before the cast and truncation loses nothing |
| `Mpc.RoundTrip` | crates/quantum/src/mpc.rs:64-169 | the first t shares of any polynomial with t coefficients reconstruct its constant term, for every t >= 1 |
| `CircuitOptimizer.QuantumCircuit.AddGate` | crates/quantum/src/circuit_optimizer.rs:78-88 | accepts exactly gates whose targets all exist, appends them, and keeps all targets in range |
| `CircuitOptimizer.QuantumCircuit.AddMeasurement` | crates/quantum/src/circuit_optimizer.rs:90-96 | accepts exactly existing qubits |
| `CircuitOptimizer.TargetsInRange` | crates/quantum/src/circuit_optimizer.rs:78-88 | in range means below the number of qubits, for each target of each gate |
| `CircuitOptimizer.Optimizer.Optimize` | crates/quantum/src/circuit_optimizer.rs:220-226 | a new circuit with the same qubits and measurements whose gates are those of the specification at each level |
| `CircuitOptimizer.Optimizer.MergeRotations` | crates/quantum/src/circuit_optimizer.rs:273-320 | the nested loops with a look-ahead index equal one left-to-right fold that fuses into the end of the buffer |
| `CircuitOptimizer.Optimizer.RemoveRedundantGates` | crates/quantum/src/circuit_optimizer.rs:322-379 | the look-ahead loop equals a structural recursion dropping adjacent pairs |
| `CircuitOptimizer.BasicReduces` | crates/quantum/src/circuit_optimizer.rs:228-255 | cancellation leaves no adjacent equal self-inverse pair, cascades included |
| `CircuitOptimizer.BasicInPieces` | crates/quantum/src/circuit_optimizer.rs:228-255 | cancelling a prefix first changes nothing: Basic(a + b) = Basic(Basic(a) + b) |
| `CircuitOptimizer.MergeNormalises` | crates/quantum/src/circuit_optimizer.rs:273-320 | merging brings no cancelling pair back and leaves no adjacent same-axis rotations on equal targets |
| `CircuitOptimizer.PipelineNormalises` | crates/quantum/src/circuit_optimizer.rs:257-271 | inside the pipeline remove_redundant_gates is the identity, so its 1e-10 tolerance never acts, and the result is in normal form |
| `CircuitOptimizer.OptimizePreservesMeaning` | crates/quantum/src/circuit_optimizer.rs:220-379 | at every level, for every circuit and every interpretation in which the listed gates are self-inverse and same-axis rotations add, the optimized circuit denotes the same state transformer |
| `CircuitOptimizer.OptimizeIdempotent` | crates/quantum/src/circuit_optimizer.rs:220-379 | optimizing twice is optimizing once |
| `CircuitOptimizer.OptimizeShrinks` | crates/quantum/src/circuit_optimizer.rs:220-379 | the gate count never grows and targets stay in range |
| `CircuitOptimizer.FreeLawful` | crates/quantum/src/circuit_optimizer.rs:220-320 | a non-trivial interpretation satisfying both laws: normal forms that gates extend |
| `CircuitOptimizer.FreeDenotesNormalForm` | crates/quantum/src/circuit_optimizer.rs:257-271 | in it a circuit denotes its own optimized gate list |
| `CircuitOptimizer.AggressiveDecidesEquality` | crates/quantum/src/circuit_optimizer.rs:257-271 | equal optimized circuits are equal under every lawful interpretation and different ones differ under some: the pipeline is sound and complete for the two laws |
| `CircuitOptimizer.CancelsExactly` | crates/quantum/src/circuit_optimizer.rs:228-255 | two gates cancel if and only if they are equal, on equal targets, and one of PauliX, PauliY, PauliZ, Hadamard, CX, CY, CZ, listed by name |
| `CircuitOptimizer.MergesExactly` | crates/quantum/src/circuit_optimizer.rs:273-320 | two gates merge if and only if both are Rx, both Ry or both Rz on equal targets, and then the angles are added |
| `CircuitOptimizer.DropsExactly` | crates/quantum/src/circuit_optimizer.rs:322-379 | the last pass drops two gates if and only if they act on equal targets and both are Hadamard, or rotations about one axis whose angles add up to strictly between -1e-10 and 1e-10 |
| `CircuitOptimizer.LevelsDiffer` | crates/quantum/src/circuit_optimizer.rs:220-271 | off changes nothing, basic only cancels, aggressive also merges |
| `CircuitOptimizer.LawsSpelledOut` | crates/quantum/src/circuit_optimizer.rs:228-320 | the interpretations meant by lawful are those in which each of the seven gates, listed by name, applied twice does nothing, and rotations about one axis on equal targets compose to the rotation by the sum |
| `CircuitOptimizer.PhasesStay` | crates/quantum/src/circuit_optimizer.rs:236-247 | in a lawful interpretation that adds up phases, two equal nonzero Phase gates differ from none, and no level drops them |
| `CircuitTolerance.NothingLostKeepsMeaning` | crates/quantum/src/circuit_optimizer.rs:322-379 | the last pass alone preserves meaning, where zero rotations do nothing, when every rotation pair it drops sums to exactly zero |
| `CircuitTolerance.TotalLost` | crates/quantum/src/circuit_optimizer.rs:322-379 | about every axis, the total rotation before the pass is the total after it plus the sums of the pairs dropped |
| `CircuitTolerance.LossShows` | crates/quantum/src/circuit_optimizer.rs:322-379 | when those sums do not add up to zero about some axis, a concrete interpretation, adding up angles, sees the difference from every state |
| `CircuitTolerance.ToleranceExact` | crates/quantum/src/circuit_optimizer.rs:322-379 | the last pass alone preserves the meaning of a circuit under every lawful interpretation with identity zero rotations if and only if a computable normal form of the circuit is unchanged by the pass |
| `CircuitTolerance.LossExact` | crates/quantum/src/circuit_optimizer.rs:322-379 | that is so when no dropped pair has a nonzero sum, not so when exactly one has, and not so when the sums about some axis do not add up to zero |
| `CircuitTolerance.SettlingLawful` | crates/quantum/src/circuit_optimizer.rs:322-379 | the interpretation by those normal forms obeys the two laws and the identity of zero rotations |
| `CircuitTolerance.ToleranceAloneIsUnsound` | crates/quantum/src/circuit_optimizer.rs:322-379 | two rotations by half the tolerance and by zero are dropped, which changes the meaning; two such losses can make up for each other |
| `WitSerializer.AndNotMask` | wasi/component-adapter.ts:43-45 | clearing the bits of 2^k - 1 is subtracting the remainder modulo 2^k |
| `WitSerializer.AlignToExact` | wasi/component-adapter.ts:43-45 | with 32-bit bitwise arithmetic, for every pointer and every power of two up to 2^30, alignTo rounds up to the next multiple as long as the sum stays below 2^31, and is not below its argument if and only if it does |
| `WitSerializer.WitSerializer.Allocate` | wasi/component-adapter.ts:68-74 | hands out the aligned pointer and, for powers of two, keeps all blocks since the last freeAll aligned, in order and disjoint, while below 2^31 |
| `WitSerializer.WitSerializer.BlocksApart` | wasi/component-adapter.ts:68-74 | the blocks handed out are aligned, at 65536 or above, below the allocation pointer, and pairwise disjoint in the order of allocation |
| `WitSerializer.WitSerializer.FreeAll` | wasi/component-adapter.ts:76-79 | back to an empty heap at 65536 |
| `WitSerializer.WitSerializer.WriteWord` | wasi/component-adapter.ts:96-106 | writes the little-endian bytes and nothing else, or throws without effect exactly when out of range |
| `WitSerializer.WitSerializer.WriteBool` | wasi/component-adapter.ts:108-110 | one byte, silently nothing outside the memory |
| `WitSerializer.WitSerializer.WriteString` | wasi/component-adapter.ts:81-88 | throws without effect exactly when the bytes do not fit; otherwise writes them, and a NUL if there is room, and no other byte; in a large enough memory at the old allocation pointer |
| `WitSerializer.WitSerializer.ReadString` | wasi/component-adapter.ts:112-120 | the bytes up to the first NUL or the end of the memory, 1024 at most, without a byte order mark in front; nothing past the end |
| `WitSerializer.SerializeWitValue` | wasi/component-adapter.ts:352-391 | in a large enough memory, any nested value is stored between the old and the new allocation pointer with all other bytes unchanged and all blocks aligned and disjoint, and following the pointers with the readers recovers it |
| `WitSerializer.SerializeList` | wasi/component-adapter.ts:373-387 | the pointer array, header and items of a list, with every slot pointing at its stored item |
| `WitSerializer.StoredReadsBack` | wasi/component-adapter.ts:112-140 | whatever is stored in the sense of the layout is recovered by the readers, to any nesting depth |
| `WitSerializer.AsReadWhole` | wasi/component-adapter.ts:81-140 | a value comes back unchanged if and only if its strings have no NUL, at most 1024 bytes and no byte order mark in front, and its numbers are in range |
| `WitSerializer.StoredFrame` | wasi/component-adapter.ts:352-391 | a stored value depends only on the bytes of its range |
| `WitSerializer.EarlierValuesSurvive` | wasi/component-adapter.ts:352-391 | values serialized earlier still read back the same after any change above them |
| `WitSerializer.ReadsUpTo1024` | wasi/component-adapter.ts:112-120 | what is read of a NUL-terminated string without a byte order mark in front is the string up to 1024 bytes, and otherwise its first 1024 bytes |
| `WitSerializer.MarkIsDropped` | wasi/component-adapter.ts:112-120 | the byte order mark EF BB BF in front is dropped, though it counts among the bytes read |
| `WitSerializer.ReadersSpelledOut` | wasi/component-adapter.ts:122-140 | words are least significant byte first and signed ones in two's complement; a word or boolean outside the memory is not read |
| `WitSerializer.PairSpelledOut` | wasi/component-adapter.ts:373-387 | a list is a word for where its slots are, a word for how many, and in each slot the pointer to an item |
| `WitSerializer.SizesSpelledOut` | wasi/component-adapter.ts:352-391 | the allocation pointer after a value of each handled kind, from an odd address, in numbers |
| `WitSerializer.KindsHandled` | wasi/component-adapter.ts:352-391 | handled are string, u32, s32, u64, bool and lists of handled kinds, no others |
| `Bytes.EncodeAt` | wasi/component-adapter.ts:96-106 | byte i of a word is its value divided by 256^i, modulo 256 |
| `CompilationCache.FileRoundTrip` | crates/wasm-runtime/src/cache.rs:165-193 | a file of magic, 32-byte hash and payload parses back into these and into nothing else; the slice runs out of range exactly for a file with the magic and 16 to 39 bytes, which the cache never writes |
| `CompilationCache.NamesShareFiles` | crates/wasm-runtime/src/cache.rs:304-307 | different names can share one file |
| `CompilationCache.Cache.GetOrCompile` | crates/wasm-runtime/src/cache.rs:97-116 | in every valid state, whatever file operations fail, the outcome is that of plain compilation, or the module that plain compilation gives for bytes looked up before with the same hash; exactly plain compilation when no known bytes collide or when recompilation is forced; nothing is put in memory or on disk but under the name |
| `CompilationCache.DependableExists` | crates/wasm-runtime/src/cache.rs:97-116 | the assumptions on the toolchain can be met, with all 32-byte strings free of collisions |
| `CompilationCache.AnswersExactly` | crates/wasm-runtime/src/cache.rs:97-116 | without a collision among the known bytes such an outcome is that of plain compilation |
| `CompilationCache.Cache.GetFromMemory` | crates/wasm-runtime/src/cache.rs:118-134 | a hit exactly for an unexpired entry with the right hash, then the module of known bytes with that hash; otherwise the entry is dropped |
| `CompilationCache.Cache.GetFromDisk` | crates/wasm-runtime/src/cache.rs:136-213 | a hit exactly when the index entry is current and the file carries the hash in its own header, then the module of known bytes with that hash, and never a deserialization error; never out of range |
| `CompilationCache.Cache.CompileAndCache` | crates/wasm-runtime/src/cache.rs:215-282 | plain compilation, with the exact new memory, index, file and victim; a failure changes nothing |
| `CompilationCache.Cache.EvictExpired` | crates/wasm-runtime/src/cache.rs:347-373 | keeps exactly the unexpired entries and counts the dropped ones |
| `CompilationCache.Cache.Invalidate` | crates/wasm-runtime/src/cache.rs:375-392 | drops the name from memory, index and disk, and reports whether anything was there |
| `CompilationCache.Cache.Clear` | crates/wasm-runtime/src/cache.rs:394-405 | empty afterwards |
| `CompilationCache.Cache.constructor` | crates/wasm-runtime/src/cache.rs:67-84 | a restart over a directory left by earlier runs starts valid |
| `CompilationCache.Run` | crates/wasm-runtime/src/cache.rs:97-405 | in every run of lookups, forced recompilations, invalidations, expiries, clears and restarts over one directory, every lookup returns plain compilation of its bytes or of bytes looked up before with the same hash; so exactly plain compilation when the bytes of the run and of the files it starts from do not collide |
| `CompilationCache.LookupTwice` | crates/wasm-runtime/src/cache.rs:97-134 | a collision does show: from an empty directory, a second lookup of a name returns the module of the first exactly when the hashes are equal and the first compiles, and plain compilation otherwise |
| `CompilationCache.HitsUntilExpiry` | crates/wasm-runtime/src/cache.rs:118-134 | after a compilation at one time, a lookup of the same bytes with the entry in memory hits if and only if no more than the time to live has passed |
| `CompilationCache.InsertedFits` | crates/wasm-runtime/src/cache.rs:248-262 | memory holds at most its capacity, or one module; nothing goes while there is room, and otherwise the one least recently used |
| `CompilationCache.SafeNames` | crates/wasm-runtime/src/cache.rs:304-307 | slashes of either kind become underscores in a file name and nothing else changes |
| `CompilationCache.IndexSpelledOut` | crates/wasm-runtime/src/cache.rs:347-392 | dropping a name, or what has expired, keeps the other index entries in order; expired means past the time of expiry |
| `CompilationCache.OthersUntouched` | crates/wasm-runtime/src/cache.rs:97-116 | a lookup adds or alters no entry and no file but those of its name, and removes no other file |
| `InstancePool.Pool.TryReuse` | crates/wasm-runtime/src/instance_pool.rs:107-132 | takes an idle instance of the module if there is one, and counts a hit and a reuse |
| `InstancePool.Pool.Insert` | crates/wasm-runtime/src/instance_pool.rs:142-179 | refuses exactly when full with nothing idle; never takes the pool past its maximum; when full gives up the least recently used idle entry and nothing in use |
| `InstancePool.Pool.Release` | crates/wasm-runtime/src/instance_pool.rs:213-224 | only ends the use of that instance |
| `InstancePool.Pool.Destroy` | crates/wasm-runtime/src/instance_pool.rs:226-236 | only removes that instance, counted |
| `InstancePool.Pool.EvictIdle` | crates/wasm-runtime/src/instance_pool.rs:238-259 | removes exactly the idle instances over the timeout, counted |
| `InstancePool.Pool.Resize` | crates/wasm-runtime/src/instance_pool.rs:261-289 | shrinking leaves max(in use, new maximum) entries, all of those in use among them, and every idle one dropped was used no later than any idle one kept |
| `InstancePool.Pool.SortedIdle` | crates/wasm-runtime/src/instance_pool.rs:268-274 | the idle ids, each once, least recently used first |
| `InstancePool.Pool.GetStats` | crates/wasm-runtime/src/instance_pool.rs:291-297 | created minus destroyed is active plus idle |
| `InstancePool.Apply` | crates/wasm-runtime/src/instance_pool.rs:101-289 | each critical section, taken by a client, is exactly its transition, and keeps exact counters and one holder per instance in use |
| `InstancePool.Run` | crates/wasm-runtime/src/instance_pool.rs:101-289 | in every state of every interleaving of critical sections, by clients that release and destroy only what they hold, created minus destroyed is the number of entries, hits are reuses, and each instance in use has one holder; consecutive states are related by the transition of the step |
| `InstancePool.OnlyDestroyRemovesUsed` | crates/wasm-runtime/src/instance_pool.rs:101-289 | over all transitions, an instance in use leaves the pool only when its holder destroys it |
| `InstancePool.SizeBounded` | crates/wasm-runtime/src/instance_pool.rs:101-289 | no transition takes the pool past the larger of its size and its maximum |
| `InstancePool.CountersFollow` | crates/wasm-runtime/src/instance_pool.rs:101-289 | over all transitions, created and destroyed grow by the number of instances that came and went, misses by the number of missed lookups, and only resizing sets the maximum |
| `InstancePool.ResizeReaches` | crates/wasm-runtime/src/instance_pool.rs:261-289 | resizing reaches a smaller maximum, or as far as the instances in use allow |
| `InstancePool.HoldersCount` | crates/wasm-runtime/src/instance_pool.rs:101-224 | one holder each means as many in use as handles |
| `InstancePool.ReleaseNeedsHolder` | crates/wasm-runtime/src/instance_pool.rs:213-224 | releasing keeps holders exclusive if and only if the client holds the instance or it was idle |
| `InstancePool.UseSpelledOut` | crates/wasm-runtime/src/instance_pool.rs:107-297 | an entry counts as in use or idle as its flag says |
| `InstancePool.VictimSpelledOut` | crates/wasm-runtime/src/instance_pool.rs:144-151 | the entry given up is idle and everything used before it is in use |
| `InstancePool.HoldersAlone` | crates/wasm-runtime/src/instance_pool.rs:101-224 | one holder per instance in use, and only those have one |
| `ModuleCache.LastUsesOrdered` | crates/wasm-runtime/src/modules.rs:91-126 | the reference: a history's names, each once, ordered by their last use |
| `ModuleCache.ModuleCache.Load` | crates/wasm-runtime/src/modules.rs:45-114 | refuses exactly oversized or uncompilable modules; a full cache evicts the head of the list; size stays within max(capacity, 1), the list names exactly the modules, and whatever is loaded again the last mentions in it are in the order of last use; the whole list is that order afterwards if and only if what eviction left mentions nothing twice and the name was absent or evicted |
| `ModuleCache.ModuleCache.Get` | crates/wasm-runtime/src/modules.rs:116-126 | the module or nothing; the last mentions stay in the order of last use |
| `ModuleCache.ModuleCache.Remove` | crates/wasm-runtime/src/modules.rs:136-141 | reports and removes; the last mentions stay in the order of last use |
| `ModuleCache.ModuleCache.EvictExpired` | crates/wasm-runtime/src/modules.rs:164-179 | keeps exactly the unexpired modules, in their order, and counts the rest |
| `ModuleCache.ModuleCache.Clear` | crates/wasm-runtime/src/modules.rs:159-162 | empty afterwards |
| `ModuleCache.PushEffect` | crates/wasm-runtime/src/modules.rs:94-103 | eviction and push keep the last mentions in the order of last use from every such list, and make the whole list that order exactly when it is left without duplicates |
| `ModuleCache.VictimExact` | crates/wasm-runtime/src/modules.rs:94-100 | in every state, the least recently used module is the one whose last mention in the list comes first; the head, which a full cache evicts, is that one if and only if it is the head of the list of last mentions |
| `ModuleCache.VictimIsLeastRecentlyUsed` | crates/wasm-runtime/src/modules.rs:94-100 | so it is whenever the list mentions nothing twice |
| `ModuleCache.ReloadMisleads` | crates/wasm-runtime/src/modules.rs:91-126 | it need not be: after loading a, b, a again and c into room for three, loading d evicts a, though b was used before it |
| `ModuleCache.Room` | crates/wasm-runtime/src/modules.rs:94-100 | nothing is evicted below the capacity; from it on, the head of the list, with all its mentions |
| `PolicyEngine.EvaluateConditions` | crates/wasm-runtime/src/policy.rs:333-378 | the loop accepts exactly when every condition's attribute is present and passes |
| `PolicyEngine.PolicyEngine.Match` | crates/wasm-runtime/src/policy.rs:214-231 | the loop over the rules finds the first that applies |
| `PolicyEngine.PolicyEngine.AddRule` | crates/wasm-runtime/src/policy.rs:169-172 | afterwards every request is decided by the applicable rule of highest priority, the earliest on a tie |
| `PolicyEngine.PolicyEngine.RemoveRule` | crates/wasm-runtime/src/policy.rs:174-178 | removes exactly the rules with the id, and keeps that |
| `PolicyEngine.PolicyEngine.Evaluate` | crates/wasm-runtime/src/policy.rs:181-282 | a cached answer has the effect of an uncached evaluation as long as the live entries of the cache are current, evaluating keeps them so, and allowed + denied + audited stays the total |
| `PolicyEngine.PolicyEngine.ClearCache` | crates/wasm-runtime/src/policy.rs:393-396 | an empty cache, whose answers are current at every time |
| `PolicyEngine.FirstMatchIsBest` | crates/wasm-runtime/src/policy.rs:169-235 | first match in the sorted list is the highest-priority applicable rule, stable on ties |
| `PolicyEngine.BestIsHighest` | crates/wasm-runtime/src/policy.rs:212-235 | that rule applies, was added, and no applicable rule has a higher priority |
| `PolicyEngine.RetainSorted` | crates/wasm-runtime/src/policy.rs:169-178 | removing commutes with sorting, so adds and removes may interleave |
| `PolicyEngine.OrderOfAddingIsIrrelevant` | crates/wasm-runtime/src/policy.rs:169-235 | the same rules with distinct priorities, added in any order, decide every request alike |
| `PolicyEngine.FreshLater` | crates/wasm-runtime/src/policy.rs:189-210 | a cache whose answers are current stays so as time passes, because entries only expire |
| `PolicyEngine.AddingKeepsFresh` | crates/wasm-runtime/src/policy.rs:169-172 | from every list of rules, sorted or not: after adding a rule without clearing, the answers from the cache are current if and only if each of them has the effect of the rule, where it overrides, and of the list sorted without it elsewhere |
| `PolicyEngine.AddingToSortedKeepsFresh` | crates/wasm-runtime/src/policy.rs:169-172 | in a sorted list current answers stay so if and only if the rule overrides none of them with another effect |
| `PolicyEngine.FirstAddStalesDefaults` | crates/wasm-runtime/src/policy.rs:93-172 | in the built-in list they need not, even if the rule does not apply: the first added rule turns the cached denial of instantiating credential-verify stale, because sorting alone allows it |
| `PolicyEngine.AddingCanStale` | crates/wasm-runtime/src/policy.rs:169-210 | which can fail for every request: a cached permission is still answered when the rules deny |
| `PolicyEngine.FirstMatchRetain` | crates/wasm-runtime/src/policy.rs:174-178 | after a removal the next applicable rule with another id decides |
| `PolicyEngine.RemovingKeepsFresh` | crates/wasm-runtime/src/policy.rs:174-178 | removing rules without clearing keeps the answers current if and only if every decision of theirs still answered is also, with the same effect, that of the next rule that applies |
| `PolicyEngine.RemovingCanStale` | crates/wasm-runtime/src/policy.rs:174-210 | which can fail for every request: a cached permission is still answered when no rule applies any more |
| `PolicyEngine.Run` | crates/wasm-runtime/src/policy.rs:169-282 | in every run of evaluations, adds, removes and clears at nondecreasing times, every evaluation with a clear since the last change of rules has the effect of an uncached evaluation of the rules then in force |
| `PolicyEngine.DirtyExactly` | crates/wasm-runtime/src/policy.rs:169-178 | without a clear since the last change means that some added or removed rule has no clear behind it |
| `PolicyEngine.DefaultsDenyUntilSorted` | crates/wasm-runtime/src/policy.rs:93-162 | the built-in list is not sorted: until add_rule runs its denial, listed first, decides every request; sorted, it decides only those no other default rule covers |
| `PolicyEngine.KindsMatch` | crates/wasm-runtime/src/policy.rs:318-331 | only Custom("*") matches actions of another kind, and it matches all; every action matches itself |
| `PolicyEngine.WildcardsMatch` | crates/wasm-runtime/src/policy.rs:318-331 | in network access, file access, exports and host functions "*" matches everything and any other text only itself; custom actions and capabilities match equals |
| `PolicyEngine.ImportsMatch` | crates/wasm-runtime/src/policy.rs:318-331 | the two halves of an import match independently |
| `PolicyEngine.ModulesMatch` | crates/wasm-runtime/src/policy.rs:212-220 | a rule without a module name, or with "*", is about every module, any other about its own |
| `PolicyEngine.ConditionsDecide` | crates/wasm-runtime/src/policy.rs:333-378 | equality, inequality and the other operators; a missing attribute fails |
| `PolicyEngine.ConditionsConcat` | crates/wasm-runtime/src/policy.rs:333-378 | a list of conditions holds if and only if its parts do |
| `PolicyEngine.CountersRaised` | crates/wasm-runtime/src/policy.rs:236-282 | each effect raises its own counter and the total |
| `PolicyEngine.PairsSorted` | crates/wasm-runtime/src/policy.rs:169-172 | the higher priority comes first and a tie keeps the order of arrival |
| `PolicyEngine.RetainSpelledOut` | crates/wasm-runtime/src/policy.rs:174-178 | removal drops the rules with the id and keeps the others in order |
| `PolicyEngine.LiveForAMinute` | crates/wasm-runtime/src/policy.rs:189-194 | a decision is answered from the cache for less than 60 seconds |
| `PolicyEngine.DefaultTop` | crates/wasm-runtime/src/policy.rs:93-162 | which built-in rule decides each request once the list is sorted |
| `PolicyEngine.DefaultsAuditNetwork` | crates/wasm-runtime/src/policy.rs:130-138 | sorted, the built-in rules answer Audit to network access by every module to every target |
| `PolicyEngine.DefaultsAllow` | crates/wasm-runtime/src/policy.rs:93-162 | sorted, they allow exactly the three known modules to be instantiated and deny everything else |
| `PolicyEngine.AddedToDefaults` | crates/wasm-runtime/src/policy.rs:93-172 | another applicable rule takes over from them if and only if its priority is above 100 where a module is allowed, 50 for network access, 90 for the path that is denied, 0 elsewhere |
| `Consensus.ConsensusState.OnMessage` | crates/governance/src/consensus.rs:113-128 | in every reachable state the counters and flags are those of the messages since the last reset: prepared if and only if prepares reach the quorum, committed if and only if prepares and pre-commits do; within a round flags only rise |
| `Consensus.ConsensusState.CheckPhase` | crates/governance/src/consensus.rs:130-138 | raises the flags the counters allow and lowers none |
| `Consensus.ConsensusState.ResetRound` | crates/governance/src/consensus.rs:140-146 | no votes and no flags |
| `Consensus.RoundSpelledOut` | crates/governance/src/consensus.rs:113-146 | a message counts for its own kind, and either kind of view message starts from zero |
| `Consensus.PhasesIgnoreOrder` | crates/governance/src/consensus.rs:113-138 | phases depend on the messages of a round as a bag, not on their order |
| `Consensus.QuorumsOverlap` | crates/governance/src/consensus.rs:109-156 | any two quorums share more validators than may be Byzantine |
| `Consensus.Agreement` | crates/governance/src/consensus.rs:109-156 | two replicas committed in one view that count each validator once are committed to the same payload, with up to max_byzantine validators voting both ways |
| `Consensus.AgreementWithRepeats` | crates/governance/src/consensus.rs:109-156 | they still are when up to (n - 1) mod 3 pre-commitments in the two rounds together are repeats, and with a sole validator however many |
| `Consensus.RepeatedVotesBreakAgreement` | crates/governance/src/consensus.rs:113-138 | for every n from 2 on, one repeat more commits two replicas to different payloads with no more than max_byzantine validators voting both ways: the counters count messages, not validators |
| `Consensus.AgreementExact` | crates/governance/src/consensus.rs:109-156 | so all commitments in a view agree if and only if n is at most 1 or the repeats are at most (n - 1) mod 3; none at all may repeat among four validators |
| `Consensus.CountedOnceExactly` | crates/governance/src/consensus.rs:113-138 | there are as many senders as messages of a kind if and only if none is counted twice |
| `Consensus.QuorumsInNumbers` | crates/governance/src/consensus.rs:109-157 | among 3 f + 1 validators the quorum is 2 f + 1 and f may be Byzantine |
| `Authority.AuthoritySet.Register` | crates/governance/src/authority.rs:102-112 | which error, or the node at the end; DIDs stay distinct |
| `Authority.AuthoritySet.Remove` | crates/governance/src/authority.rs:114-129 | which error, or the first node with the id gone; never below the minimum |
| `Authority.AuthoritySet.Rotate` | crates/governance/src/authority.rs:131-136 | all outcomes: a new DID that is still registered fails after the old node is gone; the epoch grows exactly on success |
| `Authority.AuthoritySet.SumWeights` | crates/governance/src/authority.rs:145-151 | the loop over the nodes adds up exactly the weights of the active ones |
| `Authority.AuthoritySet.IsQuorumReached` | crates/governance/src/authority.rs:157-163 | reached if and only if the total is not zero and the signed weight is more than two thirds of it; the integer division loses nothing |
| `Authority.SignedWeights` | crates/governance/src/authority.rs:145-151 | inclusion and exclusion for the weights of two signer sets, within the total |
| `Authority.QuorumsShareAThird` | crates/governance/src/authority.rs:153-163 | two signer sets that both reach the quorum share more than a third of the total weight |
| `Authority.ActiveNodesSign` | crates/governance/src/authority.rs:138-151 | the total weight is exactly what is signed when all active nodes sign |
| `Authority.ActiveNodesSuffice` | crates/governance/src/authority.rs:145-163 | so all active nodes together reach the quorum if and only if there is any weight |
| `Authority.OneNode` | crates/governance/src/authority.rs:145-151 | a node anywhere adds its weight if it is active, to what is signed if it also signs, and nothing otherwise |
| `Authority.InactiveWeightIsIrrelevant` | crates/governance/src/authority.rs:145-163 | changing the weight of a node that is not active changes no answer about the quorum |
| `Authority.RemovalTakesTheFirst` | crates/governance/src/authority.rs:114-129 | removal drops the first node with the id and keeps all others in order |
| `Authority.DistinctSnoc` | crates/governance/src/authority.rs:102-112 | a node may join the distinct ones if and only if none of them has its DID |
| `AuditTrail.AuditTrail.Append` | crates/governance/src/audit_trail.rs:104-117 | extends the trail by one event linked to the last; the trail verifies after every run of appends, with sequence numbers counting from 1 |
| `AuditTrail.AuditTrail.VerifyIntegrity` | crates/governance/src/audit_trail.rs:119-137 | the loop gives the verdict of the specification, including which event is blamed |
| `AuditTrail.VerdictExact` | crates/governance/src/audit_trail.rs:119-137 | the verdict blames the first event whose predecessor hash or own hash is wrong; without one it compares the last hash, which decides between intact and mismatch |
| `AuditTrail.HashedSpelledOut` | crates/governance/src/audit_trail.rs:60-68 | the hashed bytes: the sequence number in eight bytes, least significant first, action, actor, time, previous hash, which is "genesis" for the first event |
| `AuditTrail.HexHashSpelledOut` | crates/governance/src/audit_trail.rs:60-68 | hashes are 64 characters from 0-9 and a-f |
| `AuditTrail.VerifiedIsChained` | crates/governance/src/audit_trail.rs:119-137 | verification from the front is chaining from the back |
| `AuditTrail.LastHashCommits` | crates/governance/src/audit_trail.rs:60-68 | two verified trails with the same last hash have the same length and, event by event, the same hashed bytes, hash and predecessor, if and only if no two of their events, counted from the ends, are a collision of the hash |
| `AuditTrail.CollisionFreeCommits` | crates/governance/src/audit_trail.rs:60-68 | so they have whenever the hash has no collision among the bytes the two trails hash |
| `AuditFields.LastHashCommitsToFields` | crates/governance/src/audit_trail.rs:17-68 | two verified trails with the same last hash and no collision also have the same action, actor and time event by event, though the hashed fields have no separators |
| `AuditFields.ActionsPrefixFree` | crates/governance/src/audit_trail.rs:17-33 | no debug form of an action is the beginning of another one, provided that holds of the debug forms of JSON values |
| `AuditFields.PayloadSpelledOut` | crates/governance/src/audit_trail.rs:17-33 | the debug form behind the name, byte by byte |
| `AuditFields.PrintedStartsWithName` | crates/governance/src/audit_trail.rs:17-33 | the name comes first, in ASCII |
| `AuditFields.ActionsSpelledOut` | crates/governance/src/audit_trail.rs:17-33 | which payloads are admitted: escaped texts, identifiers of 36 characters, keys with a value |
| `AuditFields.TimesSuffixFree` | crates/governance/src/audit_trail.rs:65 | no printed time is the end of another one |
| `AuditFields.TimesSpelledOut` | crates/governance/src/audit_trail.rs:65 | an example of a time, and the ten digits |
| `AuditFields.FieldsAgree` | crates/governance/src/audit_trail.rs:60-68 | so hashed bytes and previous hash determine action, actor and time |
| `AuditTrail.HexHashExists` | crates/governance/src/audit_trail.rs:60-68 | the assumption on the format of hashes can be met |
| `AuditTrail.CommitmentLimits` | crates/governance/src/audit_trail.rs:60-68 | the commitment stops there: the hash covers neither target nor details |
| `SurfaceCode.StabilizeCircuit` | crates/quantum/src/error_correction.rs:250-293 | the loops that write vectors by index build exactly the crosses clipped to the grid, X on even cells, then Z on odd ones |
| `SurfaceCode.CrossVector` | crates/quantum/src/error_correction.rs:258-266 | index arithmetic on the flat vector is a cross in the grid, nothing wrapped around an edge |
| `SurfaceCode.CrossesOverlap` | crates/quantum/src/error_correction.rs:250-293 | an X and a Z stabilizer anticommute on exactly the two centres when adjacent and nowhere otherwise |
| `SurfaceCode.StabilizersCommute` | crates/quantum/src/error_correction.rs:250-293 | for every distance, any two stabilizers commute and clash on 0 or 2 qubits |
| `SurfaceCode.OneStabilizerPerCell` | crates/quantum/src/error_correction.rs:250-293 | exactly distance squared stabilizers, one centred on each cell |
| `SurfaceCode.CrossAt` | crates/quantum/src/error_correction.rs:258-266 | a stabilizer acts on exactly the cells at most one step along a row or column from its centre |
| `SurfaceCode.StabilizersInOrder` | crates/quantum/src/error_correction.rs:250-293 | all X stabilizers before all Z stabilizers, each in the row-by-row order of their centres |
| `SurfaceCode.StabilizersIndependent` | crates/quantum/src/error_correction.rs:250-293 | for every distance no product of some of them is the identity, so with as many commuting stabilizers as qubits no logical qubit is left |
| `Grover.Search` | crates/quantum/src/algorithms.rs:19-42 | the array loops keep all marked amplitudes equal and all unmarked ones equal, following a two-number recurrence; the result is the last index of largest magnitude |
| `Grover.ApplyIteration` | crates/quantum/src/algorithms.rs:24-35 | oracle and diffusion, in place, are one step of that recurrence |
| `Grover.ProbabilityConserved` | crates/quantum/src/algorithms.rs:24-35 | for every oracle, size and iteration count the squared amplitudes keep the sum 1 |
| `Grover.FindsMarkedExactly` | crates/quantum/src/algorithms.rs:37-42 | the result is marked if and only if something is and everything is, or the marked magnitude is larger, or they tie and the last index is marked |
| `Grover.FourEntries` | crates/quantum/src/algorithms.rs:14-42 | over four entries the constructor computes two iterations, after which the search returns the last index whatever the oracle marks, so a marked one if and only if the last is; one iteration finds a single mark for sure |
| `ShorsAlgorithm.Factorize` | crates/quantum/src/algorithms.rs:49-65 | the product of the result is n, the first factor is the least divisor from 2 on and prime; there is no result if and only if n is 1 or an odd prime |
| `ShorsAlgorithm.NoFactorAtAll` | crates/quantum/src/algorithms.rs:57-62 | no divisor up to the square root means no proper divisor at all |
| `ShorsAlgorithm.PrimeExactly` | crates/quantum/src/algorithms.rs:49-65 | prime are exactly the numbers from 2 on that are no product of two such numbers |
| `KeyDistribution.SampleIndices` | crates/quantum/src/key_distribution.rs:118-126 | the stepped loop yields exactly the wanted number of positions, increasing and in range |
| `KeyDistribution.EstimateErrorRate` | crates/quantum/src/key_distribution.rs:100-144 | the errors among the sampled positions as a share of the sample, or the eavesdropping error above the security parameter |
| `KeyDistribution.DifferencesCounted` | crates/quantum/src/key_distribution.rs:131-137 | errors are counted as positions where the keys differ |
| `KeyDistribution.RoundedNearest` | crates/quantum/src/key_distribution.rs:118-119 | rounding gives the nearest whole number, the upper of two, and 0 for negative numbers |
| `KeyDistribution.SampleSizeNearest` | crates/quantum/src/key_distribution.rs:118-119 | the sample is the rounded fraction of the key, but at least one bit and at most all |
| `KeyDistribution.ExpectedErrorsBelow` | crates/quantum/src/key_distribution.rs:168 | the expected errors are the largest whole number within the rate |
| `KeyDistribution.ReconcileKeys` | crates/quantum/src/key_distribution.rs:147-181 | the first errors, up to the expected number, are corrected and nothing else is; max(0, mismatches - expected) differences from Alice's key remain |
| `KeyDistribution.AmplifyPrivacy` | crates/quantum/src/key_distribution.rs:184-206 | exactly the computed number of evenly spaced bits, for every entropy between 0 and 1; none exactly when that number is 0, by which the source divides |
| `KeyDistribution.KeyToBytes` | crates/quantum/src/key_distribution.rs:464-487 | the shifting loop packs eight bits a byte, most significant first, and fills up the last byte |
| `KeyDistribution.PackEight` | crates/quantum/src/key_distribution.rs:464-487 | eight bits make a byte in which the first weighs 128 and the last 1 |
| `KeyDistribution.BytesToKey` | crates/quantum/src/key_distribution.rs:490-501 | the nested loops unpack |
| `KeyDistribution.UnpackPack` | crates/quantum/src/key_distribution.rs:464-501 | unpacking a packed key gives the key filled up with zero bits to whole bytes |
| `KeyDistribution.PackUnpack` | crates/quantum/src/key_distribution.rs:464-501 | packing unpacked bytes gives the bytes back |

## Left out

Weaker than the source, or in another form:

- Mpc.QuantumMPC.ReconstructSecret: floating-point numbers do not round or overflow, and sums of integers are unbounded, where 64-bit ones can overflow; the round trip covers the first shares only, since weights of other selections can be fractions.
- Mpc.QuantumMPC.CreateShares: the random coefficients are a parameter, and a threshold of 0, for which the source underflows, is excluded.
- SecretSharing.Split: the random coefficients are a parameter, one list of 32 bytes for each power.
- SecretSharing.Combine: shares shorter than 33 bytes, on which the source panics, are excluded.
- SecretSharing.RoundTrip: about denominators reduced to residues first, which the source does not do (for the source as written see `SecretSharing.AsWrittenExact` and `SecretSharing.FirstThreeExact`); needs points distinct modulo 251.
- SecretSharing.RoundTripOfSplit: the same; among more than 251 shares there are points equal modulo 251, and selections with two of them are not covered.
- CircuitOptimizer.OptimizePreservesMeaning: angles are real numbers, so that adding them does not round; the two laws on the interpretation are assumptions, and matrices are not modelled.
- WitSerializer.SerializeWitValue: promises nothing beyond a memory large enough and pointers below 2^31, where a boolean outside the memory is silently lost; memory does not grow; text is its UTF-8 bytes after encoding, which has already replaced lone surrogates by U+FFFD; for kinds the switch does not handle it returns 0 as the source does and no read-back is promised.
- WitSerializer.WitSerializer.ReadString: bytes that are not UTF-8 are kept, where decoding replaces them by U+FFFD; so a character cut at byte 1024 is not modelled.
- WitSerializer.AsReadWhole: about the same bytes, so it does not see those replacements: strings with lone surrogates do not come back, and one cut within a final U+FFFD does.
- WitSerializer.WitSerializer.Allocate: for alignments that are not powers of two only the pointer arithmetic is stated; the source uses 1, 4 and 8.
- CompilationCache.Cache.GetOrCompile: assumes 32-byte hashes and that deserializing undoes serializing; file operations succeed or fail as a whole; nothing else writes to the directory.
- InstancePool.Pool.Insert: instance ids are fresh, as random identifiers are taken to be.
- InstancePool.Run: creating the instance itself is the caller's; it happens between the critical sections.
- ModuleCache.ModuleCache.Clear: one step, where the source takes its two locks one after the other.
- PolicyEngine.EvaluateConditions: substring, pattern, number and list comparisons are a parameter; the cache key is the request itself rather than its formatting.
- Consensus.Agreement: senders, views and payloads are those of the messages counted; the source's counters do not look at them.
- Authority.QuorumsShareAThird: weights are unbounded, where the source's 64-bit sums can overflow.
- AuditTrail.LastHashCommits: assumes hashes of 64 hexadecimal digits; action and timestamp are their formatted bytes.
- AuditFields.LastHashCommitsToFields: assumes that debug forms of JSON values are not beginnings of one another, and years from 0 to 9999; of the debug form of strings only its escaping of quotes and backslashes is modelled.
- Secrecy.SecrecyExact: says which secrets are possible, not how likely; random bytes are not uniform modulo 251.
- Grover.Search: real arithmetic; the starting amplitude and the number of iterations are parameters.
- Grover.FourEntries: pi is any number between 3 and 4, and the square root an exact one.
- ShorsAlgorithm.Factorize: an exact square root, where the source's floating-point one rounds for large numbers.
- KeyDistribution.AmplifyPrivacy: the binary entropy, a logarithm, is a parameter; real arithmetic.
- KeyDistribution.EstimateErrorRate: real arithmetic, and no infinite or undefined fractions.

Not modelled:

- Decomposition rules, transpilation and hardware mapping of circuits: they reuse one target list for every sub-gate, so there is no meaning to preserve.
- `secure_addition`, `secure_multiplication` and set intersection in mpc.rs, and share verification: demonstrations that do not compute through shares.
- Bit-flip, phase-flip, Shor and Steane codes: finite or placeholders; the surface code's syndrome is random.
- Locks and lock re-entry in cache.rs (`save_index` locks again inside `compile_and_cache`), `warm`, sizes and hit statistics of the compilation cache.
- The decision cache's effect on average times, logging, and the convenience wrappers around `evaluate`.
- Filters and export of the audit trail; validator statistics, view timeouts and block hashing of the consensus.
- The number-theoretic transform and the other lattice code under lib/pqc: its transform indexes out of range, and the rest are constants.
- Sealing, attestation, key encapsulation and authenticated encryption: wrappers around foreign cryptography.
- Machine learning, data pipelines, API servers, dashboards, SDKs and network clients: input and output.
- Reputation, jurisdictions, trust frameworks, upgrades and status lists: they would only add easy members.
