/**
  Post-processing of quantum-distributed keys (crates/quantum/src/key_distribution.rs): sampling,
  reconciliation, compression, and the packing of key bits into bytes.
 */
module KeyDistribution {
  import opened Arithmetic
  import opened Bytes
  import opened Wrappers

  type Key = seq<bool>

  datatype Error = ProtocolError | EavesdroppingDetected

  // Positions at which two keys of one length differ.
  function Differences(a: Key, b: Key): (n: nat)
    requires |a| == |b|
    ensures n <= |a|
  {
    if a == [] then 0
    else Differences(a[..|a| - 1], b[..|b| - 1]) + (if a[|a| - 1] != b[|b| - 1] then 1 else 0)
  }

  /** As many as there are such positions. */
  lemma {:induction false} DifferencesCounted(a: Key, b: Key)
    requires |a| == |b|
    ensures Differences(a, b) == |set i | 0 <= i < |a| && a[i] != b[i]|
  {
    if a != [] {
      var n := |a| - 1;
      DifferencesCounted(a[..n], b[..n]);
      var front, all := set i | 0 <= i < n && a[..n][i] != b[..n][i], set i | 0 <= i < |a| && a[i] != b[i];
      assert all == front + if a[n] != b[n] then {n} else {};
    }
  }

  lemma DifferencesStep(a: Key, b: Key, i: nat)
    requires i < |a| == |b|
    ensures Differences(a[..i + 1], b[..i + 1]) == Differences(a[..i], b[..i]) + (if a[i] != b[i] then 1 else 0)
  {
    assert a[..i + 1][..i] == a[..i] && b[..i + 1][..i] == b[..i];
  }

  // ----- Sampling -----

  // Every (|key| / n)-th entry, n of them.
  function Sampled<T>(s: seq<T>, n: nat): (r: seq<T>)
    requires 1 <= n <= |s|
    ensures |r| == n
  {
    seq(n, k requires 0 <= k < n => StepInRange(|s|, n, k); s[k * (|s| / n)])
  }

  lemma StepInRange(len: nat, n: nat, k: nat)
    requires k < n <= len
    ensures 0 <= k * (len / n) < len && len / n >= 1
  {
    Quotient(len, n);
    StepsIncrease(len / n, k, n);
  }

  lemma Quotient(len: nat, n: nat)
    requires 1 <= n <= len
    ensures n * (len / n) <= len && len / n >= 1
  {
  }

  lemma StepsIncrease(step: nat, k: nat, l: nat)
    requires step >= 1 && k < l
    ensures k * step < l * step
  {
    assert (l - k) * step >= 1;
  }

  /** The stepped loop over 0..len: n positions in range, in increasing order and so distinct. */
  method SampleIndices(len: nat, n: nat) returns (indices: seq<nat>)
    requires 1 <= n <= len
    ensures |indices| == n
    ensures forall k :: 0 <= k < n ==> indices[k] == k * (len / n) && indices[k] < len
    ensures forall k, l :: 0 <= k < l < n ==> indices[k] < indices[l]
  {
    var step := len / n;
    StepInRange(len, n, 0);
    indices := [];
    var i := 0;
    while i < len
      invariant |indices| <= n && i == |indices| * step
      invariant forall k :: 0 <= k < |indices| ==> indices[k] == k * step && indices[k] < len
      decreases len - i
    {
      if |indices| >= n {
        break;
      }
      indices := indices + [i];
      i := i + step;
    }
    if |indices| < n {
      StepInRange(len, n, |indices|);
    }
    forall k, l | 0 <= k < l < n
      ensures indices[k] < indices[l]
    {
      StepsIncrease(step, k, l);
    }
  }

  // Rounding half up, negative numbers to zero.
  function Rounded(x: real): nat {
    if x <= 0.0 then 0 else (x + 0.5).Floor
  }

  /** The nearest whole number, the upper one of two. */
  lemma RoundedNearest(x: real)
    ensures x <= 0.0 ==> Rounded(x) == 0
    ensures x > 0.0 ==> Rounded(x) as real - 0.5 <= x < Rounded(x) as real + 0.5
  {
  }

  function SampleSize(len: nat, fraction: real): (n: nat)
    requires len > 0
    ensures 1 <= n <= len
  {
    var size := Rounded(len as real * fraction);
    var capped := if size < len then size else len;
    if capped > 1 then capped else 1
  }

  /** The fraction of the key, rounded, but at least one bit and at most all of them. */
  lemma SampleSizeNearest(len: nat, fraction: real)
    requires len > 0
    ensures var x := len as real * fraction; var n := SampleSize(len, fraction);
      && (x < 1.5 ==> n == 1)
      && (x >= len as real - 0.5 ==> n == len)
      && (1.0 <= x <= len as real ==> n as real - 0.5 <= x < n as real + 0.5)
  {
    RoundedNearest(len as real * fraction);
  }

  /** The share of sampled positions in error, unless that is above the security parameter. */
  method EstimateErrorRate(alice: Key, bob: Key, fraction: real, securityParameter: real) returns (r: Result<real, Error>)
    ensures r == Failure(ProtocolError) <==> |alice| != |bob| || |alice| == 0
    ensures |alice| == |bob| > 0 ==>
      var n := SampleSize(|alice|, fraction);
      var rate := Differences(Sampled(alice, n), Sampled(bob, n)) as real / n as real;
      r == if rate > securityParameter then Failure(EavesdroppingDetected) else Success(rate)
  {
    if |alice| != |bob| {
      return Failure(ProtocolError);
    }
    if |alice| == 0 {
      return Failure(ProtocolError);
    }
    var n := SampleSize(|alice|, fraction);
    var indices := SampleIndices(|alice|, n);
    ghost var a, b := Sampled(alice, n), Sampled(bob, n);
    var errors := 0;
    for k := 0 to n
      invariant errors == Differences(a[..k], b[..k])
    {
      DifferencesStep(a, b, k);
      if alice[indices[k]] != bob[indices[k]] {
        errors := errors + 1;
      }
    }
    assert a[..n] == a && b[..n] == b;
    var rate := errors as real / n as real;
    if rate > securityParameter {
      return Failure(EavesdroppingDetected);
    }
    return Success(rate);
  }

  // ----- Reconciliation -----

  // Bob's errors before position i.
  ghost function ErrorsBefore(alice: Key, bob: Key, i: nat): nat
    requires |alice| == |bob| && i <= |bob|
  {
    Differences(bob[..i], alice[..i])
  }

  // Bob's key with his first n errors corrected.
  ghost predicate Corrected(r: Key, alice: Key, bob: Key, n: nat)
    requires |r| <= |alice| == |bob|
  {
    forall i :: 0 <= i < |r| ==> r[i] == if ErrorsBefore(alice, bob, i) < n then alice[i] else bob[i]
  }

  lemma ErrorsStep(alice: Key, bob: Key, i: nat)
    requires i < |alice| == |bob|
    ensures ErrorsBefore(alice, bob, 0) == 0
    ensures ErrorsBefore(alice, bob, i + 1) == ErrorsBefore(alice, bob, i) + (if bob[i] != alice[i] then 1 else 0)
  {
    DifferencesStep(bob, alice, i);
  }

  lemma CorrectedSnoc(r: Key, bit: bool, alice: Key, bob: Key, n: nat)
    requires |r| < |alice| == |bob| && Corrected(r, alice, bob, n)
    requires bit == if ErrorsBefore(alice, bob, |r|) < n then alice[|r|] else bob[|r|]
    ensures Corrected(r + [bit], alice, bob, n)
  {
  }

  lemma {:induction false} RemainingErrors(r: Key, alice: Key, bob: Key, n: nat, k: nat)
    requires |r| == |alice| == |bob| && Corrected(r, alice, bob, n) && k <= |r|
    ensures var d := ErrorsBefore(alice, bob, k); ErrorsBefore(alice, r, k) == if d > n then d - n else 0
  {
    if k > 0 {
      RemainingErrors(r, alice, bob, n, k - 1);
      ErrorsStep(alice, r, k - 1);
      ErrorsStep(alice, bob, k - 1);
      hide ErrorsBefore;
    }
  }

  lemma RemainingDifferences(r: Key, alice: Key, bob: Key, n: nat)
    requires |r| == |alice| == |bob| && Corrected(r, alice, bob, n)
    ensures var d := Differences(bob, alice); Differences(r, alice) == if d > n then d - n else 0
  {
    RemainingErrors(r, alice, bob, n, |r|);
    assert r[..|r|] == r && alice[..|r|] == alice && bob[..|r|] == bob;
  }

  // Rounding down, negative numbers to zero.
  function ExpectedErrors(len: nat, errorRate: real): nat {
    if errorRate <= 0.0 then 0 else (len as real * errorRate).Floor
  }

  /** The largest whole number of errors within the rate. */
  lemma ExpectedErrorsBelow(len: nat, errorRate: real)
    ensures errorRate <= 0.0 ==> ExpectedErrors(len, errorRate) == 0
    ensures errorRate > 0.0 ==>
      ExpectedErrors(len, errorRate) as real <= len as real * errorRate < ExpectedErrors(len, errorRate) as real + 1.0
  {
  }

  /** Only errors are changed, the first ones first, and as many are left as there are beyond the
      number expected. */
  method ReconcileKeys(alice: Key, bob: Key, errorRate: real) returns (r: Result<Key, Error>)
    ensures r.Failure? <==> |alice| != |bob|
    ensures r.Success? ==>
      var expected, mismatches := ExpectedErrors(|bob|, errorRate), Differences(bob, alice);
      && |r.value| == |bob| && Corrected(r.value, alice, bob, expected)
      && Differences(r.value, alice) == if mismatches > expected then mismatches - expected else 0
  {
    if |alice| != |bob| {
      return Failure(ProtocolError);
    }
    var expected := ExpectedErrors(|bob|, errorRate);
    assert ErrorsBefore(alice, bob, 0) == 0 && Corrected([], alice, bob, expected);
    hide *;
    var found := 0;
    var corrected, reconciled := bob, [];
    for i := 0 to |bob|
      invariant |corrected| == |bob| && |reconciled| == i
      invariant forall k :: i <= k < |bob| ==> corrected[k] == bob[k]
      invariant found <= expected && found <= ErrorsBefore(alice, bob, i)
      invariant found == expected || found == ErrorsBefore(alice, bob, i)
      invariant Corrected(reconciled, alice, bob, expected)
    {
      ErrorsStep(alice, bob, i);
      if found < expected && bob[i] != alice[i] {
        corrected := corrected[i := alice[i]];
        found := found + 1;
      }
      var bit := corrected[i];
      CorrectedSnoc(reconciled, bit, alice, bob, expected);
      reconciled := reconciled + [bit];
    }
    RemainingDifferences(reconciled, alice, bob, expected);
    return Success(reconciled);
  }

  // ----- Compression -----

  /** Exactly finalLength bits of the key, evenly spaced; a final length of zero divides by zero. */
  method AmplifyPrivacy(key: Key, entropy: real) returns (r: Option<Key>)
    requires 0.0 <= entropy <= 1.0
    ensures r.None? <==> Rounded(|key| as real * (1.0 - entropy)) == 0
    ensures r.Some? ==>
      var n := Rounded(|key| as real * (1.0 - entropy));
      1 <= n <= |key| && r.value == Sampled(key, n)
  {
    var finalLength := Rounded(|key| as real * (1.0 - entropy));
    if finalLength == 0 {
      return None;
    }
    assert |key| as real * (1.0 - entropy) <= |key| as real;
    var indices := SampleIndices(|key|, finalLength);
    var amplified := [];
    for k := 0 to finalLength
      invariant |amplified| == k && forall j :: 0 <= j < k ==> amplified[j] == key[indices[j]]
    {
      amplified := amplified + [key[indices[k]]];
    }
    return Some(amplified);
  }

  // ----- Packing -----

  // The number a sequence of bits spells, most significant first.
  function Value(bits: Key): (v: nat)
    ensures v < Pow2(|bits|)
  {
    if bits == [] then 0 else 2 * Value(bits[..|bits| - 1]) + (if bits[|bits| - 1] then 1 else 0)
  }

  // The low n bits of a number, most significant first.
  function Bits(v: nat, n: nat): (bits: Key)
    ensures |bits| == n
  {
    seq(n, i requires 0 <= i < n => (v / Pow2(n - 1 - i)) % 2 == 1)
  }

  lemma HalfOf(v: nat, b: nat, p: nat)
    requires b < 2 && p > 0
    ensures (2 * v + b) / (2 * p) == v / p
  {
    var q, r := v / p, v % p;
    assert v == q * p + r && 2 * v + b == q * (2 * p) + (2 * r + b);
    UniqueRemainder(2 * v + b, 2 * p, q, 2 * r + b);
  }

  lemma {:induction false} BitsSnoc(v: nat, b: nat, n: nat)
    requires b < 2
    ensures Bits(2 * v + b, n + 1) == Bits(v, n) + [b == 1]
  {
    var bits := Bits(2 * v + b, n + 1);
    assert bits[n] == ((2 * v + b) / Pow2(0) % 2 == 1);
    forall i | 0 <= i < n
      ensures bits[i] == Bits(v, n)[i]
    {
      HalfOf(v, b, Pow2(n - 1 - i));
      assert Pow2(n - i) == 2 * Pow2(n - 1 - i);
    }
  }

  lemma {:induction false} BitsOfValue(bits: Key)
    ensures Bits(Value(bits), |bits|) == bits
  {
    if bits != [] {
      var front, last := bits[..|bits| - 1], bits[|bits| - 1];
      BitsOfValue(front);
      BitsSnoc(Value(front), if last then 1 else 0, |front|);
    }
  }

  lemma {:induction false} ValueOfBits(v: nat, n: nat)
    requires v < Pow2(n)
    ensures Value(Bits(v, n)) == v
  {
    if n > 0 {
      ValueOfBits(v / 2, n - 1);
      BitsSnoc(v / 2, v % 2, n - 1);
      assert Bits(v, n)[..n - 1] == Bits(v / 2, n - 1);
    }
  }

  lemma DoubledProduct(v: nat, p: nat)
    ensures v * (2 * p) == 2 * (v * p)
  {
  }

  function Zeros(n: nat): (bits: Key)
    ensures |bits| == n
  {
    seq(n, _ => false)
  }

  lemma {:induction false} ValueShifted(bits: Key, n: nat)
    ensures Value(bits + Zeros(n)) == Value(bits) * Pow2(n)
  {
    if n == 0 {
      assert bits + Zeros(0) == bits;
    } else {
      ValueShifted(bits, n - 1);
      var all := bits + Zeros(n);
      assert all[..|all| - 1] == bits + Zeros(n - 1);
      assert Value(all) == 2 * Value(bits + Zeros(n - 1));
      DoubledProduct(Value(bits), Pow2(n - 1));
      hide Value, Zeros;
    }
  }

  // A key packed into bytes, the last one filled up with zero bits.
  function Pack(key: Key): (bytes: seq<byte>) {
    if key == [] then []
    else if |key| < 8 then [PackByte(key + Zeros(8 - |key|))]
    else [PackByte(key[..8])] + Pack(key[8..])
  }

  function PackByte(bits: Key): byte
    requires |bits| == 8
  {
    assert Pow2(8) == 256;
    Value(bits)
  }

  function One(b: bool): nat {
    if b then 1 else 0
  }

  /** The first bit of eight weighs most. */
  lemma PackEight(a: bool, b: bool, c: bool, d: bool, e: bool, f: bool, g: bool, h: bool)
    ensures Pack([a, b, c, d, e, f, g, h])
      == [128 * One(a) + 64 * One(b) + 32 * One(c) + 16 * One(d) + 8 * One(e) + 4 * One(f) + 2 * One(g) + One(h)]
  {
    var bits := [a, b, c, d, e, f, g, h];
    ValueFour([], a, b, c, d);
    ValueFour([a, b, c, d], e, f, g, h);
    EmptyKey();
    assert [] + [a, b, c, d] == [a, b, c, d] && [a, b, c, d] + [e, f, g, h] == bits;
    hide Value;
    PackOne(bits);
  }

  lemma PackOne(bits: Key)
    requires |bits| == 8
    ensures Pack(bits) == [Value(bits)]
  {
    hide Value;
    assert bits[..8] == bits && bits[8..] == [];
  }

  lemma ValueFour(p: Key, a: bool, b: bool, c: bool, d: bool)
    ensures Value(p + [a, b, c, d]) == 16 * Value(p) + 8 * One(a) + 4 * One(b) + 2 * One(c) + One(d)
  {
    ValuePush(p, a);
    ValuePush(p + [a], b);
    ValuePush(p + [a] + [b], c);
    ValuePush(p + [a] + [b] + [c], d);
    hide Value, One;
    assert p + [a] + [b] + [c] + [d] == p + [a, b, c, d];
  }

  lemma ValuePush(p: Key, b: bool)
    ensures Value(p + [b]) == 2 * Value(p) + One(b)
  {
    assert (p + [b])[..|p|] == p;
  }

  function Unpack(bytes: seq<byte>): (key: Key)
    ensures |key| == 8 * |bytes|
  {
    if bytes == [] then [] else Bits(bytes[0], 8) + Unpack(bytes[1..])
  }

  // Filled up with zero bits to a whole number of bytes.
  function Padded(key: Key): Key {
    key + Zeros(Missing(|key|))
  }

  function Missing(n: nat): (m: nat)
    ensures m < 8 && (n + m) % 8 == 0
  {
    if n % 8 == 0 then 0 else 8 - n % 8
  }

  lemma UnpackByte(bits: Key)
    requires |bits| == 8
    ensures Bits(PackByte(bits), 8) == bits
  {
    hide Value, Bits;
    BitsOfValue(bits);
  }

  lemma PackShort(key: Key)
    requires 0 < |key| < 8
    ensures Pack(key) == [PackByte(key + Zeros(8 - |key|))]
  {
    hide Zeros, PackByte;
  }

  lemma PaddedShort(key: Key)
    requires 0 < |key| < 8
    ensures Padded(key) == key + Zeros(8 - |key|)
  {
    hide Zeros;
  }

  lemma UnpackShort(key: Key)
    requires 0 < |key| < 8
    ensures Unpack(Pack(key)) == Padded(key)
  {
    hide *;
    PackShort(key);
    PaddedShort(key);
    var all := key + Zeros(8 - |key|);
    UnpackByte(all);
    UnpackOne(PackByte(all));
  }

  lemma UnpackOne(b: byte)
    ensures Unpack([b]) == Bits(b, 8)
  {
    hide Bits;
    assert [b][1..] == [] && Unpack([]) == [];
  }

  lemma UnpackWhole(key: Key)
    requires |key| >= 8
    ensures Unpack(Pack(key)) == key[..8] + Unpack(Pack(key[8..]))
  {
    hide Bits, PackByte, Zeros;
    UnpackByte(key[..8]);
    var bytes := Pack(key);
    assert bytes[1..] == Pack(key[8..]);
  }

  lemma PaddedWhole(key: Key)
    requires |key| >= 8
    ensures Padded(key) == key[..8] + Padded(key[8..])
  {
    hide Zeros;
    assert Missing(|key|) == Missing(|key| - 8);
    hide Missing;
    assert key == key[..8] + key[8..];
  }

  /** Unpacking a packed key gives the key, filled up with zero bits to whole bytes. */
  lemma {:induction false} UnpackPack(key: Key)
    ensures Unpack(Pack(key)) == Padded(key)
    decreases |key|
  {
    if key == [] {
    } else if |key| < 8 {
      UnpackShort(key);
    } else {
      hide Pack, Unpack, Padded;
      UnpackWhole(key);
      UnpackPack(key[8..]);
      PaddedWhole(key);
    }
  }

  /** Packing unpacked bytes gives the bytes back. */
  lemma {:induction false} PackUnpack(bytes: seq<byte>)
    ensures Pack(Unpack(bytes)) == bytes
  {
    if bytes != [] {
      PackUnpack(bytes[1..]);
      assert Pow2(8) == 256;
      ValueOfBits(bytes[0], 8);
      var key := Unpack(bytes);
      assert key[..8] == Bits(bytes[0], 8) && key[8..] == Unpack(bytes[1..]);
    }
  }

  lemma {:induction false} PackAppend(a: Key, b: Key)
    requires |a| % 8 == 0
    ensures Pack(a + b) == Pack(a) + Pack(b)
    decreases |a|
  {
    if a == [] {
      assert a + b == b;
    } else {
      PackAppend(a[8..], b);
      assert (a + b)[..8] == a[..8] && (a + b)[8..] == a[8..] + b;
      assert Pack(a) == [PackByte(a[..8])] + Pack(a[8..]);
      assert Pack(a + b) == [PackByte(a[..8])] + Pack(a[8..] + b);
      hide Pack;
    }
  }

  lemma PackWhole(key: Key, done: nat)
    requires done % 8 == 0 && done + 8 <= |key|
    ensures Value(key[done..done + 8]) < 256
    ensures Pack(key[..done + 8]) == Pack(key[..done]) + [Value(key[done..done + 8])]
  {
    hide Value;
    assert Pow2(8) == 256;
    var bits := key[done..done + 8];
    PackAppend(key[..done], bits);
    assert key[..done + 8] == key[..done] + bits;
    assert bits[..8] == bits && bits[8..] == [];
  }

  lemma PackRest(key: Key, done: nat)
    requires done % 8 == 0 && 0 < |key| - done < 8
    ensures Pack(key) == Pack(key[..done]) + [PackByte(key[done..] + Zeros(8 - (|key| - done)))]
  {
    hide PackByte, Zeros;
    PackAppend(key[..done], key[done..]);
    assert key == key[..done] + key[done..];
  }

  lemma ValueSnoc(key: Key, from: nat, to: nat)
    requires from <= to < |key|
    ensures Value(key[from..to + 1]) == 2 * Value(key[from..to]) + (if key[to] then 1 else 0)
  {
    assert key[from..to + 1][..to - from] == key[from..to];
  }

  lemma EmptyKey()
    ensures Value([]) == 0 && Pack([]) == []
  {
  }

  lemma ShortValue(bits: Key)
    requires |bits| < 8
    ensures Value(bits) < 128
  {
    hide Value;
    PowersIncrease(|bits|, 7);
    assert Pow2(7) == 128;
  }

  lemma PowersIncrease(m: nat, n: nat)
    ensures m <= n ==> Pow2(m) <= Pow2(n)
  {
  }

  lemma ShiftOne(v: nat)
    requires v < 128
    ensures ShiftLeft(v, 1) == 2 * v
  {
    assert Pow2(1) == 2;
  }

  lemma ShiftRest(bits: Key)
    requires |bits| < 8
    ensures ShiftLeft(Value(bits), 8 - |bits|) == PackByte(bits + Zeros(8 - |bits|))
  {
    hide Value, Zeros, Pow2;
    var all := bits + Zeros(8 - |bits|);
    assert PackByte(all) == Value(all) < 256;
    ValueShifted(bits, 8 - |bits|);
  }

  method KeyToBytes(key: Key) returns (bytes: seq<byte>)
    ensures bytes == Pack(key)
  {
    hide Value, Pack, Zeros, PackByte, ShiftLeft, Pow2;
    bytes := [];
    var currentByte, bitCount: nat := 0, 0;
    EmptyKey();
    assert key[0..0] == [] && key[..0] == [];
    for i := 0 to |key|
      invariant bitCount < 8 && bitCount <= i && (i - bitCount) % 8 == 0
      invariant currentByte == Value(key[i - bitCount..i])
      invariant bytes == Pack(key[..i - bitCount])
    {
      ShortValue(key[i - bitCount..i]);
      ShiftOne(currentByte);
      ValueSnoc(key, i - bitCount, i);
      currentByte := ShiftLeft(currentByte, 1) + if key[i] then 1 else 0;
      bitCount := bitCount + 1;
      if bitCount == 8 {
        PackWhole(key, i - 7);
        assert key[i + 1..i + 1] == [];
        bytes := bytes + [currentByte];
        currentByte := 0;
        bitCount := 0;
      }
    }
    assert key[..|key|] == key;
    if bitCount > 0 {
      ShiftRest(key[|key| - bitCount..]);
      PackRest(key, |key| - bitCount);
      currentByte := ShiftLeft(currentByte, 8 - bitCount);
      bytes := bytes + [currentByte];
    }
  }

  // A shift of an eight-bit number.
  function ShiftLeft(v: nat, n: nat): byte {
    v * Pow2(n) % 256
  }

  method BytesToKey(bytes: seq<byte>) returns (key: Key)
    ensures key == Unpack(bytes)
  {
    key := [];
    for k := 0 to |bytes|
      invariant key == Unpack(bytes[..k])
    {
      ghost var before := key;
      for i := 0 to 8
        invariant key == before + Bits(bytes[k], 8)[..i]
      {
        key := key + [(bytes[k] / Pow2(7 - i)) % 2 == 1];
      }
      UnpackSnoc(bytes[..k], bytes[k]);
      assert bytes[..k + 1] == bytes[..k] + [bytes[k]];
    }
    assert bytes[..|bytes|] == bytes;
  }

  lemma {:induction false} UnpackSnoc(bytes: seq<byte>, b: byte)
    ensures Unpack(bytes + [b]) == Unpack(bytes) + Bits(b, 8)
  {
    if bytes == [] {
      assert Unpack([]) == [];
    } else {
      UnpackSnoc(bytes[1..], b);
      assert (bytes + [b])[1..] == bytes[1..] + [b];
    }
  }
}
