/**
  The bump allocator and recursive serializer of the component adapter (wasi/component-adapter.ts).
  A JavaScript string is modelled by its UTF-8 bytes, and the memory does not grow.
 */
module WitSerializer {
  import opened Arithmetic
  import opened Bytes
  import opened Wrappers

  const HEAP_BASE := 65536
  const STRING_LIMIT := 1024
  const TWO_31 := 0x8000_0000

  datatype WitType =
    | String | U8 | U32 | U64 | S32 | S64 | Float32 | Float64 | Bool
    | List(element: WitType)
    | Tuple(elements: seq<WitType>)
    | Optional(inner: WitType)
    | Outcome(okType: Option<WitType>, errType: Option<WitType>)
    | Record(fields: seq<(string, WitType)>)
    | Enum(variants: seq<string>)
    | Handle

  datatype Value = Text(bytes: seq<byte>) | Number(n: int) | Flag(b: bool) | Items(items: seq<Value>)

  // A write or read outside the memory throws.
  datatype Pointer = Pointer(ptr: int) | RangeError

  datatype Block = Block(ptr: int, size: nat, alignment: int)

  // ----- Alignment, as 32-bit integer arithmetic -----

  // Bitwise x & ~m.
  function AndNot(x: nat, m: nat): nat {
    if x == 0 then 0
    else 2 * AndNot(x / 2, m / 2) + (if x % 2 == 1 && m % 2 == 0 then 1 else 0)
  }

  function Signed32(x: int): int {
    var u := x % TWO_32;
    if u >= TWO_31 then u - TWO_32 else u
  }

  function AlignTo(value: int, alignment: int): int {
    Signed32(AndNot((value + alignment - 1) % TWO_32, (alignment - 1) % TWO_32))
  }

  function RoundUp(p: int, a: int): int
    requires a > 0
  {
    p + a - 1 - (p + a - 1) % a
  }

  lemma {:induction false} AndNotMask(x: nat, k: nat)
    ensures AndNot(x, Pow2(k) - 1) == x - x % Pow2(k)
    decreases x
  {
    if k == 0 {
      NoMask(x);
    } else if x == 0 {
    } else {
      var p := Pow2(k - 1);
      AndNotMask(x / 2, k - 1);
      assert (2 * p - 1) / 2 == p - 1;
      HalveRemainder(x, p);
    }
  }

  lemma {:induction false} NoMask(x: nat)
    ensures AndNot(x, 0) == x
  {
    if x != 0 {
      NoMask(x / 2);
    }
  }

  lemma HalveRemainder(x: int, p: int)
    requires x >= 0 && p > 0
    ensures x % (2 * p) == 2 * ((x / 2) % p) + x % 2
  {
    var q, r := (x / 2) / p, (x / 2) % p;
    var s := 2 * r + x % 2;
    assert x / 2 == q * p + r;
    assert x == q * (2 * p) + s;
    UniqueRemainder(x, 2 * p, q, s);
  }

  lemma RoundUpBounds(p: int, a: int)
    requires a > 0
    ensures p <= RoundUp(p, a) < p + a && RoundUp(p, a) % a == 0
  {
    var x := p + a - 1;
    assert x == (x / a) * a + x % a;
    UniqueRemainder(RoundUp(p, a), a, x / a, 0);
  }

  /** Aligning to a power of two rounds up to the next multiple exactly while the sum stays below
      2^31; from there on 32-bit arithmetic makes the result negative. */
  lemma AlignToExact(value: int, k: nat)
    requires 0 <= value && k <= 30
    ensures Pow2(k) < 0x8000_0000
    ensures value + Pow2(k) - 1 < 0x8000_0000 ==> AlignTo(value, Pow2(k)) == RoundUp(value, Pow2(k))
    ensures AlignTo(value, Pow2(k)) >= value <==> value + Pow2(k) - 1 < 0x8000_0000
  {
    SmallPower(k);
    AlignedBelowHalf(value, Pow2(k));
    hide AlignTo, Signed32, Pow2;
    if value + Pow2(k) - 1 < TWO_32 {
      AlignToUnwrapped(value, k);
    }
  }

  lemma AlignToUnwrapped(value: int, k: nat)
    requires 0 <= value && k <= 30 && Pow2(k) < TWO_31 && value + Pow2(k) - 1 < TWO_32
    ensures value + Pow2(k) - 1 < TWO_31 ==> AlignTo(value, Pow2(k)) == RoundUp(value, Pow2(k))
    ensures AlignTo(value, Pow2(k)) >= value <==> value + Pow2(k) - 1 < TWO_31
  {
    hide AlignTo, Signed32, Pow2;
    AlignToMasked(value, k);
    RoundUpBounds(value, Pow2(k));
    HighMultiple(value + Pow2(k) - 1, k);
    SignedMultiple(value, value + Pow2(k) - 1, Pow2(k));
  }

  // Bitwise results are signed 32-bit numbers.
  lemma AlignedBelowHalf(value: int, alignment: int)
    ensures AlignTo(value, alignment) < TWO_31
  {
    hide AndNot;
  }

  lemma SmallPower(k: nat)
    requires k <= 30
    ensures Pow2(k) <= Pow2(30) == 0x4000_0000
  {
    PowersGrow(k, 30);
    assert Pow2(10) == 1024;
    Pow2Sum(10, 10);
    Pow2Sum(20, 10);
  }

  lemma {:induction false} PowersGrow(j: nat, k: nat)
    requires j <= k
    ensures Pow2(j) <= Pow2(k)
  {
    if j < k {
      PowersGrow(j, k - 1);
    }
  }

  lemma AlignToMasked(value: int, k: nat)
    requires 0 <= value && Pow2(k) < TWO_31 && value + Pow2(k) - 1 < TWO_32
    ensures AlignTo(value, Pow2(k)) == Signed32(RoundUp(value, Pow2(k)))
  {
    hide AndNot, Signed32, Pow2;
    AndNotMask(value + Pow2(k) - 1, k);
    Unwrapped(value + Pow2(k) - 1);
    Unwrapped(Pow2(k) - 1);
  }

  lemma Unwrapped(x: int)
    ensures 0 <= x < TWO_32 ==> x % TWO_32 == x
  {
  }

  lemma SignedMultiple(value: int, x: int, a: int)
    requires 0 <= value < TWO_32 && 0 < a < TWO_31 && x == value + a - 1 < TWO_32
    requires value <= x - x % a && (x >= TWO_31 ==> x - x % a >= TWO_31)
    ensures x < TWO_31 ==> Signed32(x - x % a) == RoundUp(value, a)
    ensures Signed32(x - x % a) >= value <==> x < TWO_31
  {
  }

  // A power of two up to 2^30 divides 2^31, so clearing low bits keeps bit 31.
  lemma HighMultiple(x: int, k: nat)
    requires 0 <= x && k <= 30
    ensures x >= TWO_31 ==> x - x % Pow2(k) >= TWO_31
  {
    var a, b := Pow2(k), Pow2(31 - k);
    Pow2Sum(k, 31 - k);
    assert Pow2(31) == TWO_31 by {
      assert Pow2(8) == 256;
      Pow2Sum(8, 8);
      Pow2Sum(16, 8);
      Pow2Sum(24, 7);
      assert Pow2(7) == 128;
    }
    MultipleAbove(x, a, b);
  }

  lemma MultipleAbove(x: int, a: int, b: int)
    requires a > 0
    ensures x >= a * b ==> x - x % a >= a * b
  {
    var q, r := x / a, x % a;
    assert x == a * q + r;
    if q < b {
      Monotone(a, q + 1, b);
      assert a * (q + 1) == a * q + a;
    } else {
      Monotone(a, b, q);
    }
  }

  lemma Monotone(a: int, b: int, c: int)
    requires a > 0 && b <= c
    ensures a * b <= a * c
  {
    assert a * (c - b) >= 0;
  }

  lemma {:induction false} Pow2Sum(j: nat, k: nat)
    ensures Pow2(j) * Pow2(k) == Pow2(j + k)
  {
    if j != 0 {
      Pow2Sum(j - 1, k);
      assert (2 * Pow2(j - 1)) * Pow2(k) == 2 * (Pow2(j - 1) * Pow2(k));
    }
  }

  // ----- Words -----

  function Word(mem: seq<byte>, p: int): int
    requires 0 <= p && p + 4 <= |mem|
  {
    Decode(mem[p..p + 4])
  }

  // Item i of the pointer array at dataPtr.
  function Slot(mem: seq<byte>, dataPtr: int, i: nat): int
    requires 0 <= dataPtr && dataPtr + 4 * (i + 1) <= |mem|
  {
    Word(mem, dataPtr + 4 * i)
  }

  // ----- What the readers see -----

  // The bytes before the first NUL, at most n of them.
  function UpToNul(bs: seq<byte>, n: nat): (s: seq<byte>)
    ensures |s| <= n && |s| <= |bs| && s == bs[..|s|]
  {
    if n == 0 || bs == [] || bs[0] == 0 then [] else [bs[0]] + UpToNul(bs[1..], n - 1)
  }

  // The UTF-8 byte order mark, which decoding drops from the front.
  const MARK: seq<byte> := [0xEF, 0xBB, 0xBF]

  function Decoded(bs: seq<byte>): (s: seq<byte>)
    ensures s == bs <==> !(MARK <= bs)
  {
    if MARK <= bs then bs[3..] else bs
  }

  // What readString sees at ptr.
  function StringAt(mem: seq<byte>, ptr: nat): seq<byte> {
    Decoded(UpToNul(From(mem, ptr), STRING_LIMIT))
  }

  function ReadBack(mem: seq<byte>, ptr: int, t: WitType): Option<Value>
    decreases t, 0
  {
    match t
    case String => if ptr < 0 then None else Some(Text(StringAt(mem, ptr)))
    case U32 => if ptr < 0 || ptr + 4 > |mem| then None else Some(Number(Word(mem, ptr)))
    case S32 => if ptr < 0 || ptr + 4 > |mem| then None else Some(Number(Signed32(Word(mem, ptr))))
    case U64 => if ptr < 0 || ptr + 8 > |mem| then None else Some(Number(Decode(mem[ptr..ptr + 8])))
    case Bool => if ptr < 0 || ptr >= |mem| then None else Some(Flag(mem[ptr] != 0))
    case List(e) =>
      if ptr < 0 || ptr + 8 > |mem| then None
      else (
        match ReadItems(mem, Word(mem, ptr), Word(mem, ptr + 4), e)
        case None => None
        case Some(vs) => Some(Items(vs)))
    case _ => None
  }

  function ReadItems(mem: seq<byte>, dataPtr: int, n: nat, e: WitType): (r: Option<seq<Value>>)
    ensures r.Some? ==> |r.value| == n
    decreases e, 1, n
  {
    if n == 0 then Some([])
    else
      match ReadItems(mem, dataPtr, n - 1, e)
      case None => None
      case Some(vs) =>
        if dataPtr < 0 || dataPtr + 4 * n > |mem| then None
        else
          match ReadBack(mem, Slot(mem, dataPtr, n - 1), e)
          case None => None
          case Some(v) => Some(vs + [v])
  }

  predicate Supported(t: WitType) {
    match t
    case String | U32 | S32 | U64 | Bool => true
    case List(e) => Supported(e)
    case _ => false
  }

  ghost predicate HasType(v: Value, t: WitType)
    decreases t
  {
    match t
    case String => v.Text?
    case U32 | S32 | U64 => v.Number?
    case Bool => v.Flag?
    case List(e) => v.Items? && forall i :: 0 <= i < |v.items| ==> HasType(v.items[i], e)
    case _ => true
  }

  // The value that comes back for v.
  ghost function AsRead(v: Value, t: WitType): Value
    requires HasType(v, t)
    decreases t, 0
  {
    match t
    case String => Text(Decoded(UpToNul(v.bytes, STRING_LIMIT)))
    case U32 => Number(v.n % TWO_32)
    case S32 => Number(Signed32(v.n))
    case U64 => Number(v.n % TWO_64)
    case List(e) => Items(AsReadItems(v.items, e, |v.items|))
    case _ => v
  }

  ghost function AsReadItems(vs: seq<Value>, e: WitType, n: nat): (r: seq<Value>)
    requires n <= |vs| && forall i :: 0 <= i < |vs| ==> HasType(vs[i], e)
    ensures |r| == n && forall i :: 0 <= i < n ==> r[i] == AsRead(vs[i], e)
    decreases e, 1, n
  {
    if n == 0 then [] else AsReadItems(vs, e, n - 1) + [AsRead(vs[n - 1], e)]
  }

  // Values that survive: strings of at most 1024 bytes without NUL and without a byte order mark in
  // front, numbers within range.
  ghost predicate Readable(v: Value, t: WitType)
    requires HasType(v, t)
    decreases t
  {
    match t
    case String =>
      |v.bytes| <= STRING_LIMIT && !(MARK <= v.bytes) && forall i :: 0 <= i < |v.bytes| ==> v.bytes[i] != 0
    case U32 => 0 <= v.n < TWO_32
    case S32 => -TWO_31 <= v.n < TWO_31
    case U64 => 0 <= v.n < TWO_64
    case List(e) => forall i :: 0 <= i < |v.items| ==> Readable(v.items[i], e)
    case _ => true
  }

  lemma {:induction false} UpToNulWhole(bs: seq<byte>, n: nat)
    ensures UpToNul(bs, n) == bs <==> |bs| <= n && forall i :: 0 <= i < |bs| ==> bs[i] != 0
  {
    if n != 0 && bs != [] && bs[0] != 0 {
      UpToNulWhole(bs[1..], n - 1);
      assert bs == [bs[0]] + bs[1..];
      if forall i :: 0 <= i < |bs[1..]| ==> bs[1..][i] != 0 {
        assert forall i :: 0 < i < |bs| ==> bs[i] == bs[1..][i - 1];
      }
      assert forall i :: 0 <= i < |bs[1..]| ==> bs[1..][i] == bs[i + 1];
    }
  }

  /** A value is read back unchanged exactly when it is readable. */
  lemma {:induction false} AsReadWhole(v: Value, t: WitType)
    requires HasType(v, t)
    ensures AsRead(v, t) == v <==> Readable(v, t)
    decreases t
  {
    match t
    case String =>
      var s := UpToNul(v.bytes, STRING_LIMIT);
      UpToNulWhole(v.bytes, STRING_LIMIT);
      assert |Decoded(s)| == |v.bytes| ==> s == v.bytes;
    case List(e) =>
      forall i | 0 <= i < |v.items|
        ensures AsRead(v.items[i], e) == v.items[i] <==> Readable(v.items[i], e)
      {
        AsReadWhole(v.items[i], e);
      }
      if AsRead(v, t) == v {
        forall i | 0 <= i < |v.items| ensures Readable(v.items[i], e) {
          assert AsRead(v, t).items[i] == v.items[i];
        }
      }
    case _ =>
  }

  lemma UpToNulStep(m: seq<byte>, len: nat, n: nat)
    requires len < |m| && len < n && m[len] != 0
    requires UpToNul(m, n) == m[..len] + UpToNul(m[len..], n - len)
    ensures UpToNul(m, n) == m[..len + 1] + UpToNul(m[len + 1..], n - len - 1)
  {
    assert m[len..][1..] == m[len + 1..];
    assert m[..len + 1] == m[..len] + [m[len]];
  }

  // ----- Values in memory -----

  // v of type t is stored at ptr, using only bytes in lo..hi.
  ghost predicate Stored(mem: seq<byte>, lo: int, hi: int, ptr: int, t: WitType, v: Value)
    requires 0 <= lo <= hi <= |mem| && HasType(v, t)
    decreases t, 0
  {
    match t
    case String =>
      lo <= ptr && ptr + |v.bytes| + 1 <= hi && mem[ptr..ptr + |v.bytes|] == v.bytes && mem[ptr + |v.bytes|] == 0
    case U32 | S32 => lo <= ptr && ptr + 4 <= hi && ptr % 4 == 0 && mem[ptr..ptr + 4] == Encode(v.n, 4)
    case U64 => lo <= ptr && ptr + 8 <= hi && ptr % 8 == 0 && mem[ptr..ptr + 8] == Encode(v.n, 8)
    case Bool => lo <= ptr < hi && mem[ptr] == if v.b then 1 else 0
    case List(e) =>
      && lo <= ptr && ptr + 8 <= hi && ptr % 4 == 0
      && Word(mem, ptr + 4) == |v.items|
      && ItemsStored(mem, lo, hi, Word(mem, ptr), e, v.items, |v.items|)
    case _ => ptr == 0
  }

  ghost predicate ItemsStored(mem: seq<byte>, lo: int, hi: int, dataPtr: int, e: WitType, vs: seq<Value>, n: nat)
    requires 0 <= lo <= hi <= |mem| && n <= |vs| && forall i :: 0 <= i < |vs| ==> HasType(vs[i], e)
    decreases e, 1
  {
    && lo <= dataPtr && dataPtr + 4 * |vs| <= hi && dataPtr % 4 == 0
    && forall i :: 0 <= i < n ==> Stored(mem, lo, hi, Slot(mem, dataPtr, i), e, vs[i])
  }

  // ----- Frames -----

  lemma SliceAgrees(m: seq<byte>, m': seq<byte>, lo: int, hi: int, p: int, q: int)
    requires 0 <= lo <= p <= q <= hi <= |m| == |m'| && m[lo..hi] == m'[lo..hi]
    ensures m[p..q] == m'[p..q]
    ensures p < q ==> m[p] == m'[p]
  {
    forall k | lo <= k < hi
      ensures m[k] == m'[k]
    {
      assert m[k] == m[lo..hi][k - lo] && m'[k] == m'[lo..hi][k - lo];
    }
    assert p < q ==> m[p] == m[p..q][0] && m'[p] == m'[p..q][0];
  }

  /** A stored value depends only on the bytes of its range, and stays stored in a wider one. */
  lemma {:induction false} StoredFrame(m: seq<byte>, m': seq<byte>, lo: int, hi: int, lo': int, hi': int, ptr: int, t: WitType, v: Value)
    requires 0 <= lo' <= lo <= hi <= hi' <= |m| == |m'| && HasType(v, t)
    requires m[lo..hi] == m'[lo..hi] && Stored(m, lo, hi, ptr, t, v)
    ensures Stored(m', lo', hi', ptr, t, v)
    decreases t, 0
  {
    match t
    case String =>
      SliceAgrees(m, m', lo, hi, ptr, ptr + |v.bytes|);
      SliceAgrees(m, m', lo, hi, ptr + |v.bytes|, ptr + |v.bytes| + 1);
    case U32 | S32 => SliceAgrees(m, m', lo, hi, ptr, ptr + 4);
    case U64 => SliceAgrees(m, m', lo, hi, ptr, ptr + 8);
    case Bool => SliceAgrees(m, m', lo, hi, ptr, ptr + 1);
    case List(e) =>
      SliceAgrees(m, m', lo, hi, ptr, ptr + 4);
      SliceAgrees(m, m', lo, hi, ptr + 4, ptr + 8);
      ItemsFrame(m, m', lo, hi, lo', hi', Word(m, ptr), e, v.items, |v.items|);
    case _ =>
  }

  lemma {:induction false} ItemsFrame(m: seq<byte>, m': seq<byte>, lo: int, hi: int, lo': int, hi': int, dataPtr: int, e: WitType, vs: seq<Value>, n: nat)
    requires 0 <= lo' <= lo <= hi <= hi' <= |m| == |m'| && n <= |vs|
    requires forall i :: 0 <= i < |vs| ==> HasType(vs[i], e)
    requires m[lo..hi] == m'[lo..hi] && ItemsStored(m, lo, hi, dataPtr, e, vs, n)
    ensures ItemsStored(m', lo', hi', dataPtr, e, vs, n)
    decreases e, 1
  {
    forall i | 0 <= i < n
      ensures Stored(m', lo', hi', Slot(m', dataPtr, i), e, vs[i])
    {
      SliceAgrees(m, m', lo, hi, dataPtr + 4 * i, dataPtr + 4 * i + 4);
      StoredFrame(m, m', lo, hi, lo', hi', Slot(m, dataPtr, i), e, vs[i]);
    }
  }

  // ----- Reading back -----

  lemma {:induction false} UpToNulStored(mem: seq<byte>, s: seq<byte>, n: nat)
    requires |s| < |mem| && mem[..|s|] == s && mem[|s|] == 0
    ensures UpToNul(mem, n) == UpToNul(s, n)
  {
    if n != 0 && s != [] && s[0] != 0 {
      assert mem[0] == mem[..|s|][0];
      assert mem[1..][..|s| - 1] == mem[..|s|][1..];
      UpToNulStored(mem[1..], s[1..], n - 1);
    } else if s != [] {
      assert mem[0] == mem[..|s|][0];
    }
  }

  lemma SignedResidue(n: int)
    ensures Signed32(n % TWO_32) == Signed32(n)
  {
  }

  /** Following the pointers of a stored value with the readers recovers it. */
  lemma {:induction false} StoredReadsBack(mem: seq<byte>, lo: int, hi: int, ptr: int, t: WitType, v: Value)
    requires 0 <= lo <= hi <= |mem| && HasType(v, t) && Supported(t)
    requires Stored(mem, lo, hi, ptr, t, v)
    ensures ReadBack(mem, ptr, t) == Some(AsRead(v, t))
    decreases t, 0
  {
    WordSizes();
    match t
    case String =>
      assert mem[ptr..][..|v.bytes|] == mem[ptr..ptr + |v.bytes|];
      UpToNulStored(mem[ptr..], v.bytes, STRING_LIMIT);
    case U32 => DecodeEncode(v.n, 4);
    case S32 =>
      DecodeEncode(v.n, 4);
      SignedResidue(v.n);
    case U64 => DecodeEncode(v.n, 8);
    case Bool =>
    case List(e) =>
      ItemsReadBack(mem, lo, hi, Word(mem, ptr), e, v.items, |v.items|);
  }

  lemma {:induction false} ItemsReadBack(mem: seq<byte>, lo: int, hi: int, dataPtr: int, e: WitType, vs: seq<Value>, n: nat)
    requires 0 <= lo <= hi <= |mem| && n <= |vs| && Supported(e)
    requires forall i :: 0 <= i < |vs| ==> HasType(vs[i], e)
    requires ItemsStored(mem, lo, hi, dataPtr, e, vs, n)
    ensures ReadItems(mem, dataPtr, n, e) == Some(AsReadItems(vs, e, n))
    decreases e, 1, n
  {
    hide Stored, ReadBack, AsRead, Word;
    if n != 0 {
      ItemsReadBack(mem, lo, hi, dataPtr, e, vs, n - 1);
      StoredReadsBack(mem, lo, hi, Slot(mem, dataPtr, n - 1), e, vs[n - 1]);
      AppendItem(mem, dataPtr, n, e, AsReadItems(vs, e, n - 1), AsRead(vs[n - 1], e));
    }
  }

  lemma AppendItem(mem: seq<byte>, dataPtr: int, n: nat, e: WitType, front: seq<Value>, last: Value)
    requires n > 0 && 0 <= dataPtr && dataPtr + 4 * n <= |mem|
    requires ReadItems(mem, dataPtr, n - 1, e) == Some(front)
    requires ReadBack(mem, Slot(mem, dataPtr, n - 1), e) == Some(last)
    ensures ReadItems(mem, dataPtr, n, e) == Some(front + [last])
  {
  }

  // ----- Layout -----

  // The allocation pointer after serializing v from p on.
  ghost function End(v: Value, t: WitType, p: int): (r: int)
    requires HasType(v, t)
    ensures r >= p
    decreases t, 0
  {
    RoundUpBounds(p, 4);
    RoundUpBounds(p, 8);
    match t
    case String => p + |v.bytes| + 1
    case U32 | S32 => RoundUp(p, 4) + 4
    case U64 => RoundUp(p, 8) + 8
    case Bool => p + 1
    case List(e) => EndItems(v.items, e, RoundUp(p, 4) + 4 * |v.items| + 8)
    case _ => p
  }

  ghost function EndItems(vs: seq<Value>, e: WitType, p: int): (r: int)
    requires forall i :: 0 <= i < |vs| ==> HasType(vs[i], e)
    ensures r >= p
    decreases e, 1, |vs|
  {
    if vs == [] then p else EndItems(vs[1..], e, End(vs[0], e, p))
  }

  // ----- The serializer -----

  // m' is m with bs written at p.
  ghost predicate Spliced(m: seq<byte>, m': seq<byte>, p: int, bs: seq<byte>)
    requires 0 <= p && p + |bs| <= |m|
  {
    m' == m[..p] + bs + m[p + |bs|..]
  }

  class WitSerializer {
    const memory: array<byte>
    var allocPtr: int
    var allocs: seq<int>
    ghost var blocks: seq<Block>

    constructor (memory: array<byte>)
      ensures this.memory == memory && allocPtr == 65536 && allocs == [] && blocks == []
      ensures WellAllocated()
    {
      this.memory := memory;
      allocPtr := HEAP_BASE;
      allocs := [];
      blocks := [];
    }

    // The blocks handed out since the last freeAll are aligned, in order and disjoint.
    ghost predicate WellAllocated()
      reads this
    {
      && HEAP_BASE <= allocPtr
      && |allocs| == |blocks|
      && (forall i :: 0 <= i < |blocks| ==>
            && allocs[i] == blocks[i].ptr && blocks[i].alignment > 0 && blocks[i].ptr % blocks[i].alignment == 0
            && HEAP_BASE <= blocks[i].ptr && blocks[i].ptr + blocks[i].size <= allocPtr)
      && (forall i, j :: 0 <= i < j < |blocks| ==> blocks[i].ptr + blocks[i].size <= blocks[j].ptr)
    }

    /** Blocks are aligned, in the heap, in the order of allocation, and do not overlap. */
    lemma BlocksApart(i: nat, j: nat)
      requires WellAllocated() && i < |blocks| && j < |blocks|
      ensures |allocs| == |blocks| && allocs[i] == blocks[i].ptr
      ensures blocks[i].alignment > 0 && blocks[i].ptr % blocks[i].alignment == 0
      ensures 65536 <= blocks[i].ptr && blocks[i].ptr + blocks[i].size <= allocPtr
      ensures i < j ==> blocks[i].ptr + blocks[i].size <= blocks[j].ptr
    {
    }

    method Allocate(size: nat, ghost k: nat, alignment: int) returns (ptr: int)
      modifies this`allocPtr, this`allocs, this`blocks
      ensures ptr == AlignTo(old(allocPtr), alignment) && allocPtr == ptr + size
      ensures allocs == old(allocs) + [ptr] && blocks == old(blocks) + [Block(ptr, size, alignment)]
      ensures k <= 30 && alignment == Pow2(k) && 0 <= old(allocPtr) && old(allocPtr) + alignment - 1 < TWO_31 ==>
        ptr == RoundUp(old(allocPtr), alignment)
      ensures k <= 30 && alignment == Pow2(k) && old(WellAllocated()) && old(allocPtr) + alignment - 1 < TWO_31 ==>
        WellAllocated()
    {
      if k <= 30 && alignment == Pow2(k) && 0 <= allocPtr && allocPtr + alignment - 1 < TWO_31 {
        AlignToExact(allocPtr, k);
        RoundUpBounds(allocPtr, alignment);
      }
      allocPtr := AlignTo(allocPtr, alignment);
      ptr := allocPtr;
      allocPtr := allocPtr + size;
      allocs := allocs + [ptr];
      blocks := blocks + [Block(ptr, size, alignment)];
    }

    method FreeAll()
      modifies this`allocPtr, this`allocs, this`blocks
      ensures allocPtr == 65536 && allocs == [] && blocks == [] && WellAllocated()
    {
      allocs := [];
      blocks := [];
      allocPtr := HEAP_BASE;
    }

    // Writes a word when it fits, as DataView does.
    method WriteWord(val: int, size: nat, ptr: int) returns (ok: bool)
      requires size > 0
      modifies memory
      ensures ok <==> 0 <= ptr && ptr + size <= memory.Length
      ensures !ok ==> memory[..] == old(memory[..])
      ensures ok ==> Spliced(old(memory[..]), memory[..], ptr, Encode(val, size))
    {
      ok := 0 <= ptr && ptr + size <= memory.Length;
      if ok {
        var bs := Encode(val, size);
        forall i | 0 <= i < size {
          memory[ptr + i] := bs[i];
        }
        SplicedByIndex(old(memory[..]), memory[..], ptr, bs);
      }
    }

    method WriteBool(val: bool, ptr: int)
      modifies memory
      ensures memory[..] == if 0 <= ptr < memory.Length then old(memory[..])[ptr := if val then 1 else 0] else old(memory[..])
    {
      if 0 <= ptr < memory.Length {
        memory[ptr] := if val then 1 else 0;
      }
    }

    method WriteString(bytes: seq<byte>) returns (o: Pointer)
      modifies this`allocPtr, this`allocs, this`blocks, memory
      ensures Fits(End(Text(bytes), String, old(allocPtr))) && old(WellAllocated()) ==>
        && o == Pointer(old(allocPtr)) && allocPtr == End(Text(bytes), String, old(allocPtr)) && WellAllocated()
        && old(blocks) <= blocks
        && Spliced(old(memory[..]), memory[..], old(allocPtr), bytes + [0])
      ensures var ptr := AlignTo(old(allocPtr), 1);
        && allocPtr == ptr + |bytes| + 1 && allocs == old(allocs) + [ptr]
        && (o == if 0 <= ptr && ptr + |bytes| <= memory.Length then Pointer(ptr) else RangeError)
        && (o.RangeError? ==> memory[..] == old(memory[..]))
        && (o.Pointer? ==>
              Spliced(old(memory[..]), memory[..], ptr, if ptr + |bytes| < memory.Length then bytes + [0] else bytes))
    {
      var ptr := Allocate(|bytes| + 1, 0, 1);
      if ptr < 0 || ptr + |bytes| > memory.Length {
        return RangeError;
      }
      forall i | 0 <= i < |bytes| {
        memory[ptr + i] := bytes[i];
      }
      if ptr + |bytes| < memory.Length {
        memory[ptr + |bytes|] := 0;
        SplicedByIndex(old(memory[..]), memory[..], ptr, bytes + [0]);
      } else {
        SplicedByIndex(old(memory[..]), memory[..], ptr, bytes);
      }
      return Pointer(ptr);
    }

    // Memory is large enough for an allocation pointer of e, with room to align it.
    ghost predicate Fits(e: int) {
      e <= memory.Length && e + 8 <= TWO_31
    }

    // Past the end of the memory there is no NUL, and a slice takes what there is.
    method ReadString(ptr: nat) returns (s: seq<byte>)
      ensures s == StringAt(memory[..], ptr)
    {
      hide UpToNul, Decoded;
      var end := ptr + STRING_LIMIT;
      var len := 0;
      ghost var m := From(memory[..], ptr);
      ScanStart(m);
      while ptr + len < end && (ptr + len >= memory.Length || memory[ptr + len] != 0)
        invariant 0 <= len <= STRING_LIMIT && Scanned(m, len)
      {
        ScanStep(m, len);
        len := len + 1;
      }
      ScanEnd(m, len);
      SliceFrom(memory[..], ptr, len);
      var first, last := Least(ptr, memory.Length), Least(ptr + len, memory.Length);
      assert memory[first..last] == memory[..][first..last];
      s := Decoded(memory[first..last]);
    }
  }

  function From(mem: seq<byte>, ptr: nat): seq<byte> {
    if ptr > |mem| then [] else mem[ptr..]
  }

  // The first len bytes, or all of them, have no NUL.
  ghost predicate Scanned(m: seq<byte>, len: nat) {
    len <= STRING_LIMIT &&
    if len <= |m| then UpToNul(m, STRING_LIMIT) == m[..len] + UpToNul(m[len..], STRING_LIMIT - len)
    else UpToNul(m, STRING_LIMIT) == m
  }

  lemma ScanStart(m: seq<byte>)
    ensures Scanned(m, 0)
  {
  }

  lemma ScanStep(m: seq<byte>, len: nat)
    requires Scanned(m, len) && len < STRING_LIMIT && (len < |m| ==> m[len] != 0)
    ensures Scanned(m, len + 1)
  {
    if len < |m| {
      UpToNulStep(m, len, STRING_LIMIT);
    }
  }

  lemma ScanEnd(m: seq<byte>, len: nat)
    requires Scanned(m, len) && (len == STRING_LIMIT || (len < |m| && m[len] == 0))
    ensures UpToNul(m, STRING_LIMIT) == m[..Least(len, |m|)]
  {
  }

  function Least(a: int, b: int): int {
    if a <= b then a else b
  }

  lemma SliceFrom(mem: seq<byte>, ptr: nat, len: nat)
    ensures mem[Least(ptr, |mem|)..Least(ptr + len, |mem|)] == From(mem, ptr)[..Least(len, |From(mem, ptr)|)]
  {
  }

  // ----- Serializing -----

  lemma SplicedByIndex(m: seq<byte>, m': seq<byte>, p: int, bs: seq<byte>)
    requires 0 <= p && p + |bs| <= |m| == |m'|
    requires forall i :: 0 <= i < |m| && !(p <= i < p + |bs|) ==> m'[i] == m[i]
    requires forall i :: 0 <= i < |bs| ==> m'[p + i] == bs[i]
    ensures Spliced(m, m', p, bs)
  {
    forall i | 0 <= i < |m|
      ensures m'[i] == (m[..p] + bs + m[p + |bs|..])[i]
    {
      if p <= i < p + |bs| {
        assert m'[p + (i - p)] == bs[i - p];
      }
    }
  }

  lemma SplicedInside(m: seq<byte>, m': seq<byte>, p: int, bs: seq<byte>)
    requires 0 <= p && p + |bs| <= |m| && Spliced(m, m', p, bs)
    ensures |m'| == |m| && m'[p..p + |bs|] == bs
  {
  }

  lemma SplicedOutside(m: seq<byte>, m': seq<byte>, p: int, bs: seq<byte>, lo: int, hi: int)
    requires 0 <= p && p + |bs| <= |m| && Spliced(m, m', p, bs)
    requires 0 <= lo <= hi <= |m| && (hi <= p || p + |bs| <= lo)
    ensures |m'| == |m| && m'[lo..hi] == m[lo..hi]
  {
  }

  lemma WordRoundTrip(mem: seq<byte>, p: int, n: int)
    requires 0 <= p && p + 4 <= |mem| && mem[p..p + 4] == Encode(n, 4) && 0 <= n < TWO_32
    ensures Word(mem, p) == n
  {
    DecodeEncode(n, 4);
    WordSizes();
  }

  lemma StoredPointer(mem: seq<byte>, lo: int, hi: int, ptr: int, t: WitType, v: Value)
    requires 0 <= lo <= hi <= |mem| && HasType(v, t) && hi < TWO_31
    requires Stored(mem, lo, hi, ptr, t, v)
    ensures 0 <= ptr < TWO_31
  {
  }

  // The first n items are stored in start..hi and their slots point at them.
  ghost predicate FirstItems(mem: seq<byte>, start: int, hi: int, dataPtr: int, e: WitType, vs: seq<Value>, n: nat)
    requires 0 <= start <= hi <= |mem| && n <= |vs| && forall i :: 0 <= i < |vs| ==> HasType(vs[i], e)
    requires 0 <= dataPtr && dataPtr + 4 * |vs| <= |mem|
  {
    forall k :: 0 <= k < n ==> Stored(mem, start, hi, Slot(mem, dataPtr, k), e, vs[k])
  }

  // A list in the making: m is the memory before, mem now; the header stands, items from n on are
  // still to come, and the allocation pointer is cur.
  ghost predicate ListShape(m: seq<byte>, mem: seq<byte>, p: int, cur: int, dataPtr: int, e: WitType, vs: seq<Value>, n: nat, end: int)
    requires n <= |vs| && forall i :: 0 <= i < |vs| ==> HasType(vs[i], e)
  {
    var ptr := dataPtr + 4 * |vs|;
    && |mem| == |m| && 0 <= p <= dataPtr && dataPtr % 4 == 0 && ptr + 8 <= cur <= end <= |m| && end + 8 <= TWO_31
    && EndItems(vs[n..], e, cur) == end
    && mem[ptr..ptr + 4] == Encode(dataPtr, 4) && mem[ptr + 4..ptr + 8] == Encode(|vs|, 4)
    && mem[..p] == m[..p] && mem[cur..] == m[cur..]
  }

  lemma ListHeader(m: seq<byte>, m1: seq<byte>, m2: seq<byte>, p: int, dataPtr: int, e: WitType, vs: seq<Value>, end: int)
    requires forall i :: 0 <= i < |vs| ==> HasType(vs[i], e)
    requires 0 <= p <= dataPtr && dataPtr % 4 == 0 && end <= |m| && end + 8 <= TWO_31
    requires end == EndItems(vs, e, dataPtr + 4 * |vs| + 8) && |m1| == |m|
    requires Spliced(m, m1, dataPtr + 4 * |vs|, Encode(dataPtr, 4))
    requires Spliced(m1, m2, dataPtr + 4 * |vs| + 4, Encode(|vs|, 4))
    ensures ListShape(m, m2, p, dataPtr + 4 * |vs| + 8, dataPtr, e, vs, 0, end)
    ensures FirstItems(m2, dataPtr + 4 * |vs| + 8, dataPtr + 4 * |vs| + 8, dataPtr, e, vs, 0)
  {
    hide Spliced, EndItems, Stored, Encode;
    var ptr := dataPtr + 4 * |vs|;
    SplicedInside(m, m1, ptr, Encode(dataPtr, 4));
    SplicedInside(m1, m2, ptr + 4, Encode(|vs|, 4));
    SplicedOutside(m1, m2, ptr + 4, Encode(|vs|, 4), ptr, ptr + 4);
    SplicedOutside(m1, m2, ptr + 4, Encode(|vs|, 4), 0, p);
    SplicedOutside(m, m1, ptr, Encode(dataPtr, 4), 0, p);
    SplicedOutside(m1, m2, ptr + 4, Encode(|vs|, 4), ptr + 8, |m|);
    SplicedOutside(m, m1, ptr, Encode(dataPtr, 4), ptr + 8, |m|);
    assert vs[0..] == vs;
    assert m2[..p] == m2[0..p] && m[..p] == m[0..p];
    assert m2[ptr + 8..] == m2[ptr + 8..|m|] && m[ptr + 8..] == m[ptr + 8..|m|];
  }

  // Item n: m1 has it behind the others, m2 also has its slot written.
  lemma ListItemShape(m: seq<byte>, m0: seq<byte>, m1: seq<byte>, m2: seq<byte>, p: int, cur: int, cur': int,
                      dataPtr: int, e: WitType, vs: seq<Value>, n: nat, end: int, ptr: int)
    requires n < |vs| && forall i :: 0 <= i < |vs| ==> HasType(vs[i], e)
    requires ListShape(m, m0, p, cur, dataPtr, e, vs, n, end)
    requires cur' == End(vs[n], e, cur) <= |m1| == |m|
    requires m1[..cur] == m0[..cur] && m1[cur'..] == m0[cur'..]
    requires Spliced(m1, m2, dataPtr + 4 * n, Encode(ptr, 4))
    ensures ListShape(m, m2, p, cur', dataPtr, e, vs, n + 1, end)
  {
    hide Encode, Spliced;
    var slot, header := dataPtr + 4 * n, dataPtr + 4 * |vs|;
    assert vs[n..][0] == vs[n] && vs[n..][1..] == vs[n + 1..];
    OldSlice(m0, m1, m2, cur, slot, ptr, header, header + 4);
    OldSlice(m0, m1, m2, cur, slot, ptr, header + 4, header + 8);
    ListItemFrame(m, m0, m1, m2, p, cur, cur', slot, ptr);
  }

  lemma NextItem(m0: seq<byte>, m1: seq<byte>, m2: seq<byte>, start: int, cur: int, cur': int,
                 dataPtr: int, e: WitType, vs: seq<Value>, n: nat, ptr: int)
    requires |m0| == |m1| && 0 <= dataPtr && dataPtr + 4 * |vs| <= start <= cur <= cur' <= |m0| && cur' < TWO_31
    requires n < |vs| && forall i :: 0 <= i < |vs| ==> HasType(vs[i], e)
    requires FirstItems(m0, start, cur, dataPtr, e, vs, n)
    requires m1[..cur] == m0[..cur] && Stored(m1, cur, cur', ptr, e, vs[n])
    requires Spliced(m1, m2, dataPtr + 4 * n, Encode(ptr, 4))
    ensures |m2| == |m0| && FirstItems(m2, start, cur', dataPtr, e, vs, n + 1)
  {
    hide Stored, Word, Spliced;
    KeepItems(m0, m1, m2, start, cur, cur', dataPtr, e, vs, n, ptr);
    NewItem(m1, m2, start, cur, cur', dataPtr, e, vs[n], n, ptr);
  }

  lemma ItemFits(m: seq<byte>, m0: seq<byte>, p: int, cur: int, dataPtr: int, e: WitType, vs: seq<Value>, n: nat, end: int)
    requires n < |vs| && forall i :: 0 <= i < |vs| ==> HasType(vs[i], e)
    requires ListShape(m, m0, p, cur, dataPtr, e, vs, n, end)
    ensures 0 <= dataPtr && dataPtr + 4 * n + 4 <= |m0| == |m| && 0 <= dataPtr + 4 * |vs| + 8 <= cur
    ensures End(vs[n], e, cur) <= end <= |m0| && end + 8 <= TWO_31
  {
    assert vs[n..][0] == vs[n];
  }

  lemma ItemAdded(m: seq<byte>, m0: seq<byte>, m1: seq<byte>, m2: seq<byte>, p: int, cur: int, cur': int,
                  dataPtr: int, e: WitType, vs: seq<Value>, n: nat, end: int, ptr: int)
    requires n < |vs| && forall i :: 0 <= i < |vs| ==> HasType(vs[i], e)
    requires ListShape(m, m0, p, cur, dataPtr, e, vs, n, end)
    requires FirstItems(m0, dataPtr + 4 * |vs| + 8, cur, dataPtr, e, vs, n)
    requires 0 <= cur <= cur' == End(vs[n], e, cur) <= |m1| == |m0|
    requires m1[..cur] == m0[..cur] && m1[cur'..] == m0[cur'..] && Stored(m1, cur, cur', ptr, e, vs[n])
    requires Spliced(m1, m2, dataPtr + 4 * n, Encode(ptr, 4))
    ensures ListShape(m, m2, p, cur', dataPtr, e, vs, n + 1, end)
    ensures FirstItems(m2, dataPtr + 4 * |vs| + 8, cur', dataPtr, e, vs, n + 1)
  {
    hide Stored, Word, FirstItems, Spliced, ListShape;
    ItemFits(m, m0, p, cur, dataPtr, e, vs, n, end);
    ListItemShape(m, m0, m1, m2, p, cur, cur', dataPtr, e, vs, n, end, ptr);
    NextItem(m0, m1, m2, dataPtr + 4 * |vs| + 8, cur, cur', dataPtr, e, vs, n, ptr);
  }

  // Bytes below cur and outside the slot are as they were.
  lemma OldSlice(m0: seq<byte>, m1: seq<byte>, m2: seq<byte>, cur: int, slot: int, ptr: int, lo: int, hi: int)
    requires |m0| == |m1| && 0 <= slot && slot + 4 <= cur <= |m0| && m1[..cur] == m0[..cur]
    requires Spliced(m1, m2, slot, Encode(ptr, 4))
    requires 0 <= lo <= hi <= cur && (hi <= slot || slot + 4 <= lo)
    ensures |m2| == |m0| && m2[lo..hi] == m0[lo..hi]
  {
    SplicedOutside(m1, m2, slot, Encode(ptr, 4), lo, hi);
    SliceAgrees(m0, m1, 0, cur, lo, hi);
  }

  lemma ListItemFrame(m: seq<byte>, m0: seq<byte>, m1: seq<byte>, m2: seq<byte>, p: int, cur: int, cur': int, slot: int, ptr: int)
    requires |m| == |m0| == |m1| && 0 <= p <= slot && slot + 4 <= cur <= cur' <= |m|
    requires m0[..p] == m[..p] && m0[cur..] == m[cur..]
    requires m1[..cur] == m0[..cur] && m1[cur'..] == m0[cur'..]
    requires Spliced(m1, m2, slot, Encode(ptr, 4))
    ensures |m2| == |m| && m2[..p] == m[..p] && m2[cur'..] == m[cur'..]
  {
    OldSlice(m0, m1, m2, cur, slot, ptr, 0, p);
    SplicedOutside(m1, m2, slot, Encode(ptr, 4), cur', |m|);
    SliceAgrees(m0, m, cur, |m|, cur', |m|);
    assert m2[..p] == m2[0..p] && m0[..p] == m0[0..p];
    assert m2[cur'..] == m2[cur'..|m|] && m1[cur'..] == m1[cur'..|m|] && m0[cur'..] == m0[cur'..|m|];
  }

  lemma KeepItems(m0: seq<byte>, m1: seq<byte>, m2: seq<byte>, start: int, cur: int, hi: int,
                  dataPtr: int, e: WitType, vs: seq<Value>, n: nat, ptr: int)
    requires |m0| == |m1| && 0 <= dataPtr && dataPtr + 4 * |vs| <= start <= cur <= hi <= |m0| && n < |vs|
    requires forall i :: 0 <= i < |vs| ==> HasType(vs[i], e)
    requires FirstItems(m0, start, cur, dataPtr, e, vs, n)
    requires m1[..cur] == m0[..cur] && Spliced(m1, m2, dataPtr + 4 * n, Encode(ptr, 4))
    ensures |m2| == |m0| && FirstItems(m2, start, hi, dataPtr, e, vs, n)
  {
    OldSlice(m0, m1, m2, cur, dataPtr + 4 * n, ptr, start, cur);
    forall k | 0 <= k < n
      ensures Stored(m2, start, hi, Slot(m2, dataPtr, k), e, vs[k])
    {
      OldSlice(m0, m1, m2, cur, dataPtr + 4 * n, ptr, dataPtr + 4 * k, dataPtr + 4 * k + 4);
      KeepItem(m0, m2, start, cur, hi, dataPtr, e, vs[k], k);
    }
  }

  lemma NewItem(m1: seq<byte>, m2: seq<byte>, start: int, cur: int, hi: int, dataPtr: int, e: WitType, v: Value, n: nat, ptr: int)
    requires 0 <= dataPtr && dataPtr + 4 * n + 4 <= start <= cur <= hi <= |m1| && hi < TWO_31 && HasType(v, e)
    requires Stored(m1, cur, hi, ptr, e, v) && Spliced(m1, m2, dataPtr + 4 * n, Encode(ptr, 4))
    ensures |m2| == |m1| && Stored(m2, start, hi, Slot(m2, dataPtr, n), e, v)
  {
    hide Stored, Spliced, Word;
    SplicedInside(m1, m2, dataPtr + 4 * n, Encode(ptr, 4));
    SplicedOutside(m1, m2, dataPtr + 4 * n, Encode(ptr, 4), cur, hi);
    StoredPointer(m1, cur, hi, ptr, e, v);
    WordRoundTrip(m2, dataPtr + 4 * n, ptr);
    assert Slot(m2, dataPtr, n) == ptr;
    StoredFrame(m1, m2, cur, hi, start, hi, ptr, e, v);
  }

  lemma KeepItem(m0: seq<byte>, m2: seq<byte>, start: int, cur: int, hi: int, dataPtr: int, e: WitType, v: Value, k: nat)
    requires |m0| == |m2| && 0 <= dataPtr && dataPtr + 4 * k + 4 <= start <= cur <= hi <= |m0| && HasType(v, e)
    requires Stored(m0, start, cur, Slot(m0, dataPtr, k), e, v)
    requires m2[dataPtr + 4 * k..dataPtr + 4 * k + 4] == m0[dataPtr + 4 * k..dataPtr + 4 * k + 4]
    requires m2[start..cur] == m0[start..cur]
    ensures Stored(m2, start, hi, Slot(m2, dataPtr, k), e, v)
  {
    assert Slot(m2, dataPtr, k) == Slot(m0, dataPtr, k);
    StoredFrame(m0, m2, start, cur, start, hi, Slot(m0, dataPtr, k), e, v);
  }

  // The list header and its items, together, are the stored list.
  lemma ListStored(m: seq<byte>, mem: seq<byte>, p: int, cur: int, dataPtr: int, e: WitType, vs: seq<Value>, end: int)
    requires forall i :: 0 <= i < |vs| ==> HasType(vs[i], e)
    requires ListShape(m, mem, p, cur, dataPtr, e, vs, |vs|, end)
    requires FirstItems(mem, dataPtr + 4 * |vs| + 8, cur, dataPtr, e, vs, |vs|)
    ensures cur == end && |mem| == |m| && 0 <= p <= cur <= |mem| && mem[..p] == m[..p] && mem[cur..] == m[cur..]
    ensures Stored(mem, p, cur, dataPtr + 4 * |vs|, List(e), Items(vs))
  {
    hide Stored, ItemsStored, FirstItems, Word, Encode;
    var ptr := dataPtr + 4 * |vs|;
    assert vs[|vs|..] == [];
    WordRoundTrip(mem, ptr, dataPtr);
    WordRoundTrip(mem, ptr + 4, |vs|);
    WidenItems(mem, ptr + 8, cur, p, dataPtr, e, vs);
    assert ptr % 4 == 0;
    ListIntro(mem, p, cur, ptr, e, vs);
  }

  lemma ListIntro(mem: seq<byte>, lo: int, hi: int, ptr: int, e: WitType, vs: seq<Value>)
    requires 0 <= lo <= ptr && ptr + 8 <= hi <= |mem| && ptr % 4 == 0
    requires forall i :: 0 <= i < |vs| ==> HasType(vs[i], e)
    requires Word(mem, ptr + 4) == |vs| && ItemsStored(mem, lo, hi, Word(mem, ptr), e, vs, |vs|)
    ensures Stored(mem, lo, hi, ptr, List(e), Items(vs))
  {
    hide ItemsStored, Word;
  }

  lemma WidenItems(mem: seq<byte>, start: int, hi: int, lo: int, dataPtr: int, e: WitType, vs: seq<Value>)
    requires 0 <= lo <= dataPtr && dataPtr + 4 * |vs| <= start <= hi <= |mem| && dataPtr % 4 == 0
    requires forall i :: 0 <= i < |vs| ==> HasType(vs[i], e)
    requires FirstItems(mem, start, hi, dataPtr, e, vs, |vs|)
    ensures ItemsStored(mem, lo, hi, dataPtr, e, vs, |vs|)
  {
    hide Stored, Word;
    forall k | 0 <= k < |vs|
      ensures Stored(mem, lo, hi, Slot(mem, dataPtr, k), e, vs[k])
    {
      StoredFrame(mem, mem, start, hi, lo, hi, Slot(mem, dataPtr, k), e, vs[k]);
    }
  }

  lemma StringStored(m: seq<byte>, m': seq<byte>, p: int, bytes: seq<byte>)
    requires 0 <= p && p + |bytes| + 1 <= |m| && Spliced(m, m', p, bytes + [0])
    ensures |m'| == |m| && m'[..p] == m[..p] && m'[p + |bytes| + 1..] == m[p + |bytes| + 1..]
    ensures Stored(m', p, p + |bytes| + 1, p, String, Text(bytes))
  {
  }

  /** Values serialized earlier still read back after any change at or above the bytes they use. */
  lemma EarlierValuesSurvive(m: seq<byte>, m': seq<byte>, lo: int, hi: int, cut: int, ptr: int, t: WitType, v: Value)
    requires 0 <= lo <= hi <= cut <= |m| == |m'| && m'[..cut] == m[..cut]
    requires HasType(v, t) && Supported(t) && Stored(m, lo, hi, ptr, t, v)
    ensures Stored(m', lo, hi, ptr, t, v)
    ensures ReadBack(m', ptr, t) == Some(AsRead(v, t)) == ReadBack(m, ptr, t)
  {
    hide Stored, ReadBack, AsRead;
    SliceAgrees(m, m', 0, cut, lo, hi);
    StoredFrame(m, m', lo, hi, lo, hi, ptr, t, v);
    StoredReadsBack(m, lo, hi, ptr, t, v);
    StoredReadsBack(m', lo, hi, ptr, t, v);
  }

  // What serializing v from allocation pointer p must leave behind.
  twostate predicate Serialized(s: WitSerializer, v: Value, t: WitType, p: int, o: Pointer)
    requires HasType(v, t)
    reads s, s.memory
  {
    && o.Pointer? && s.allocPtr == End(v, t, p) && s.WellAllocated() && old(s.blocks) <= s.blocks
    && 0 <= p <= s.allocPtr <= s.memory.Length
    && s.memory[..p] == old(s.memory[..p])
    && s.memory[s.allocPtr..] == old(s.memory[..])[s.allocPtr..]
    && Stored(s.memory[..], p, s.allocPtr, o.ptr, t, v)
  }

  /** In a memory large enough, serializing stores the value in the bytes between the old and the
      new allocation pointer, changes no other byte, and keeps the blocks disjoint and aligned. */
  method SerializeWitValue(v: Value, t: WitType, s: WitSerializer) returns (o: Pointer)
    requires HasType(v, t)
    modifies s`allocPtr, s`allocs, s`blocks, s.memory
    ensures old(s.WellAllocated()) && s.Fits(End(v, t, old(s.allocPtr))) ==> Serialized(s, v, t, old(s.allocPtr), o)
    ensures old(s.WellAllocated()) && s.Fits(End(v, t, old(s.allocPtr))) && Supported(t) ==>
      ReadBack(s.memory[..], o.ptr, t) == Some(AsRead(v, t))
    decreases t, 4
  {
    o := SerializeKind(v, t, s);
    if old(s.WellAllocated()) && s.Fits(End(v, t, old(s.allocPtr))) && Supported(t) {
      StoredReadsBack(s.memory[..], old(s.allocPtr), s.allocPtr, o.ptr, t, v);
    }
  }

  // The switch over the kinds of types.
  method SerializeKind(v: Value, t: WitType, s: WitSerializer) returns (o: Pointer)
    requires HasType(v, t)
    modifies s`allocPtr, s`allocs, s`blocks, s.memory
    ensures old(s.WellAllocated()) && s.Fits(End(v, t, old(s.allocPtr))) ==> Serialized(s, v, t, old(s.allocPtr), o)
    decreases t, 3
  {
    ghost var p, m := s.allocPtr, s.memory[..];
    match t {
      case String =>
        o := s.WriteString(v.bytes);
        if old(s.WellAllocated()) && s.Fits(End(v, t, p)) {
          StringStored(m, s.memory[..], p, v.bytes);
        }
      case U32 => o := SerializeWord(v, t, 4, 2, s);
      case S32 => o := SerializeWord(v, t, 4, 2, s);
      case U64 => o := SerializeWord(v, t, 8, 3, s);
      case Bool =>
        var ptr := s.Allocate(1, 0, 1);
        s.WriteBool(v.b, ptr);
        o := Pointer(ptr);
      case List(e) => o := SerializeList(v.items, e, s);
      case _ => o := Pointer(0);
    }
  }

  method SerializeWord(v: Value, t: WitType, size: nat, ghost k: nat, s: WitSerializer) returns (o: Pointer)
    requires HasType(v, t) && (size, k) == if t.U64? then (8, 3) else (4, 2)
    requires t.U32? || t.S32? || t.U64?
    modifies s`allocPtr, s`allocs, s`blocks, s.memory
    ensures old(s.WellAllocated()) && s.Fits(End(v, t, old(s.allocPtr))) ==> Serialized(s, v, t, old(s.allocPtr), o)
  {
    ghost var p, m := s.allocPtr, s.memory[..];
    var ptr := s.Allocate(size, k, size);
    var ok := s.WriteWord(v.n, size, ptr);
    if !ok {
      return RangeError;
    }
    o := Pointer(ptr);
    if old(s.WellAllocated()) && s.Fits(End(v, t, p)) {
      RoundUpBounds(p, size);
      SplicedInside(m, s.memory[..], ptr, Encode(v.n, size));
      SplicedOutside(m, s.memory[..], ptr, Encode(v.n, size), 0, p);
      assert s.memory[..p] == s.memory[..][0..p] && m[..p] == m[0..p];
    }
  }

  method SerializeList(vs: seq<Value>, e: WitType, s: WitSerializer) returns (o: Pointer)
    requires forall i :: 0 <= i < |vs| ==> HasType(vs[i], e)
    modifies s`allocPtr, s`allocs, s`blocks, s.memory
    ensures old(s.WellAllocated()) && s.Fits(End(Items(vs), List(e), old(s.allocPtr))) ==>
      Serialized(s, Items(vs), List(e), old(s.allocPtr), o)
    decreases e, 6
  {
    hide Stored, Word, FirstItems, ListShape;
    ghost var p, m, end := s.allocPtr, s.memory[..], End(Items(vs), List(e), s.allocPtr);
    ghost var good := s.WellAllocated() && s.Fits(end);
    var ok, dataPtr, ptr := StartList(vs, e, s);
    if !ok {
      return RangeError;
    }
    for i := 0 to |vs|
      invariant good ==> s.WellAllocated() && old(s.blocks) <= s.blocks
      invariant good ==> ptr == dataPtr + 4 * |vs| && 0 <= dataPtr && ptr + 8 <= s.allocPtr <= s.memory.Length
      invariant good ==> ListShape(m, s.memory[..], p, s.allocPtr, dataPtr, e, vs, i, end)
      invariant good ==> FirstItems(s.memory[..], ptr + 8, s.allocPtr, dataPtr, e, vs, i)
    {
      ok := AddItem(vs, e, i, dataPtr, s, good, m, p, end);
      if !ok {
        return RangeError;
      }
    }
    if good {
      ListStored(m, s.memory[..], p, s.allocPtr, dataPtr, e, vs, end);
    }
    o := Pointer(ptr);
  }

  // The pointer to the slots, and the length behind it.
  method WriteFrame(dataPtr: int, n: nat, ptr: int, s: WitSerializer) returns (ok: bool, ghost between: seq<byte>)
    modifies s.memory
    ensures ok <==> 0 <= ptr && ptr + 8 <= s.memory.Length
    ensures ok ==>
      && |between| == s.memory.Length
      && Spliced(old(s.memory[..]), between, ptr, Encode(dataPtr, 4))
      && Spliced(between, s.memory[..], ptr + 4, Encode(n, 4))
  {
    ok := s.WriteWord(dataPtr, 4, ptr);
    between := s.memory[..];
    if !ok {
      return;
    }
    ok := s.WriteWord(n, 4, ptr + 4);
  }

  // Allocates the pointer array and the header and writes the header.
  method StartList(vs: seq<Value>, e: WitType, s: WitSerializer) returns (ok: bool, dataPtr: int, ptr: int)
    requires forall i :: 0 <= i < |vs| ==> HasType(vs[i], e)
    modifies s`allocPtr, s`allocs, s`blocks, s.memory
    ensures old(s.WellAllocated()) && s.Fits(End(Items(vs), List(e), old(s.allocPtr))) ==>
      && ok && s.WellAllocated() && old(s.blocks) <= s.blocks
      && ptr == dataPtr + 4 * |vs| && 0 <= dataPtr && ptr + 8 <= s.allocPtr <= s.memory.Length
      && ListShape(old(s.memory[..]), s.memory[..], old(s.allocPtr), s.allocPtr, dataPtr, e, vs, 0,
                   End(Items(vs), List(e), old(s.allocPtr)))
      && FirstItems(s.memory[..], ptr + 8, s.allocPtr, dataPtr, e, vs, 0)
  {
    hide Stored, Word, FirstItems, ListShape, Spliced, RoundUp, AlignTo, EndItems;
    ghost var p, m, end := s.allocPtr, s.memory[..], End(Items(vs), List(e), s.allocPtr);
    ghost var good := s.WellAllocated() && s.Fits(end);
    assert Pow2(2) == 4 && (good ==> p >= HEAP_BASE);
    hide HasType, Pow2, Encode, WitSerializer.WellAllocated;
    RoundUpBounds(p, 4);
    dataPtr := s.Allocate(|vs| * 4, 2, 4);
    if good {
      AlignedAfter(dataPtr, |vs|);
      assert end == EndItems(vs, e, dataPtr + 4 * |vs| + 8) && end <= |m| && end + 8 <= TWO_31;
    }
    hide End;
    ptr := s.Allocate(8, 2, 4);
    assert good ==> ptr == dataPtr + 4 * |vs| && s.allocPtr == ptr + 8 <= end && s.WellAllocated();
    ghost var m1;
    ok, m1 := WriteFrame(dataPtr, |vs|, ptr, s);
    if ok && good {
      ListHeader(m, m1, s.memory[..], p, dataPtr, e, vs, end);
    }
  }

  lemma AlignedAfter(p: int, n: nat)
    requires p % 4 == 0
    ensures RoundUp(p + 4 * n, 4) == p + 4 * n
  {
  }

  // The loop body: serializes item i and writes its pointer into its slot.
  method AddItem(vs: seq<Value>, e: WitType, i: nat, dataPtr: int, s: WitSerializer,
                 ghost good: bool, ghost m: seq<byte>, ghost p: int, ghost end: int)
    returns (ok: bool)
    requires i < |vs| && forall i :: 0 <= i < |vs| ==> HasType(vs[i], e)
    requires good ==> s.WellAllocated() && ListShape(m, s.memory[..], p, s.allocPtr, dataPtr, e, vs, i, end)
    requires good ==> FirstItems(s.memory[..], dataPtr + 4 * |vs| + 8, s.allocPtr, dataPtr, e, vs, i)
    modifies s`allocPtr, s`allocs, s`blocks, s.memory
    ensures good ==> ok && s.WellAllocated() && old(s.blocks) <= s.blocks
    ensures good ==> old(s.allocPtr) <= s.allocPtr <= s.memory.Length
    ensures good ==> ListShape(m, s.memory[..], p, s.allocPtr, dataPtr, e, vs, i + 1, end)
    ensures good ==> FirstItems(s.memory[..], dataPtr + 4 * |vs| + 8, s.allocPtr, dataPtr, e, vs, i + 1)
    decreases e, 5
  {
    hide Stored, Word, FirstItems, ListShape;
    ghost var m0, cur := s.memory[..], s.allocPtr;
    if good {
      ItemFits(m, m0, p, cur, dataPtr, e, vs, i, end);
    }
    var elem := SerializeWitValue(vs[i], e, s);
    if elem.RangeError? {
      return false;
    }
    ghost var m1 := s.memory[..];
    ok := s.WriteWord(elem.ptr, 4, dataPtr + i * 4);
    if ok && good {
      ItemAdded(m, m0, m1, s.memory[..], p, cur, s.allocPtr, dataPtr, e, vs, i, end, elem.ptr);
    }
  }

  // ----- Byte by byte -----

  lemma {:induction false} UpToNulTerminated(s: seq<byte>, n: nat)
    requires forall i :: 0 <= i < |s| ==> s[i] != 0
    ensures UpToNul(s + [0], n) == if |s| <= n then s else s[..n]
  {
    if n != 0 && s != [] {
      UpToNulTerminated(s[1..], n - 1);
      assert (s + [0])[1..] == s[1..] + [0];
      assert s == [s[0]] + s[1..];
    }
  }

  /** A string in memory is read whole up to 1024 bytes, and else its first 1024. */
  lemma ReadsUpTo1024(s: seq<byte>)
    requires forall i :: 0 <= i < |s| ==> s[i] != 0
    requires !([0xEF, 0xBB, 0xBF] <= s)
    ensures StringAt(s + [0], 0) == if |s| <= 1024 then s else s[..1024]
  {
    UpToNulTerminated(s, 1024);
    assert From(s + [0], 0) == s + [0];
  }

  /** A byte order mark in front is not part of what is read, but of the 1024 bytes. */
  lemma MarkIsDropped(s: seq<byte>)
    requires (forall i :: 0 <= i < |s| ==> s[i] != 0) && |s| <= 1021
    ensures StringAt([0xEF, 0xBB, 0xBF] + s + [0], 0) == s
  {
    var t := [0xEF, 0xBB, 0xBF] + s;
    UpToNulTerminated(t, 1024);
    assert From(t + [0], 0) == t + [0];
  }

  /** Words are read with their least significant byte first, signed ones in two's complement. */
  lemma ReadersSpelledOut(a: byte, b: byte, c: byte, d: byte)
    ensures ReadBack([a, b, c, d], 0, U32) == Some(Number(a + 0x100 * b + 0x1_0000 * c + 0x100_0000 * d))
    ensures ReadBack([a, b, c, d], 0, S32)
      == Some(Number(a + 0x100 * b + 0x1_0000 * c + 0x100_0000 * d - if d < 128 then 0 else 0x1_0000_0000))
    ensures ReadBack([a, b, c, d, 0, 0, 0, 1], 0, U64)
      == Some(Number(a + 0x100 * b + 0x1_0000 * c + 0x100_0000 * d + 0x100_0000_0000_0000))
    ensures ReadBack([a], 0, Bool) == Some(Flag(a != 0))
    ensures ReadBack([a, b, c], 0, U32) == ReadBack([a, b, c], 0, S32) == ReadBack([], 0, Bool) == None
  {
    hide Decode;
    DecodeFour(a, b, c, d, []);
    DecodeFour(0, 0, 0, 1, []);
    DecodeFour(a, b, c, d, [0, 0, 0, 1]);
    assert [a, b, c, d][0..4] == [a, b, c, d] + [];
    assert [a, b, c, d, 0, 0, 0, 1][0..8] == [a, b, c, d] + [0, 0, 0, 1];
    assert [0, 0, 0, 1] == [0, 0, 0, 1] + [];
  }

  /** A list is found through two words, first where its slots are and then how many, and each slot
      is a word that says where an item is. */
  lemma PairSpelledOut(mem: seq<byte>, p: nat, slots: nat, x: nat, y: nat)
    requires p + 8 <= |mem| && slots + 8 <= |mem| && x < |mem| && y < |mem|
    requires Word(mem, p) == slots && Word(mem, p + 4) == 2
    requires Word(mem, slots) == x && Word(mem, slots + 4) == y
    ensures ReadBack(mem, p, List(Bool)) == Some(Items([Flag(mem[x] != 0), Flag(mem[y] != 0)]))
  {
    hide Word;
    ReadOneMore(mem, slots, 0, Bool, [], Flag(mem[x] != 0));
    ReadOneMore(mem, slots, 1, Bool, [] + [Flag(mem[x] != 0)], Flag(mem[y] != 0));
    hide ReadItems;
    assert [] + [Flag(mem[x] != 0)] + [Flag(mem[y] != 0)] == [Flag(mem[x] != 0), Flag(mem[y] != 0)];
  }

  lemma ReadOneMore(mem: seq<byte>, slots: nat, n: nat, e: WitType, vs: seq<Value>, v: Value)
    requires slots + 4 * (n + 1) <= |mem|
    requires ReadItems(mem, slots, n, e) == Some(vs) && ReadBack(mem, Word(mem, slots + 4 * n), e) == Some(v)
    ensures ReadItems(mem, slots, n + 1, e) == Some(vs + [v])
  {
    hide Word;
  }

  lemma DecodeCons(a: byte, rest: seq<byte>)
    ensures Decode([a] + rest) == a + 0x100 * Decode(rest)
  {
    assert ([a] + rest)[1..] == rest;
  }

  lemma DecodeFour(a: byte, b: byte, c: byte, d: byte, rest: seq<byte>)
    ensures Decode([a, b, c, d] + rest) == a + 0x100 * b + 0x1_0000 * c + 0x100_0000 * d + 0x1_0000_0000 * Decode(rest)
    ensures Decode([]) == 0
  {
    DecodeCons(d, rest);
    DecodeCons(c, [d] + rest);
    DecodeCons(b, [c] + ([d] + rest));
    DecodeCons(a, [b] + ([c] + ([d] + rest)));
    assert [a, b, c, d] + rest == [a] + ([b] + ([c] + ([d] + rest)));
  }

  /** How much memory values take from an allocation pointer on: strings their bytes and a NUL, words
      their size from the next multiple of it, booleans a byte. */
  lemma SizesSpelledOut(bytes: seq<byte>, n: int, b: bool)
    ensures End(Text(bytes), String, 65537) == 65538 + |bytes|
    ensures End(Number(n), U32, 65537) == End(Number(n), S32, 65537) == 65544
    ensures End(Number(n), U64, 65537) == 65552
    ensures End(Flag(b), Bool, 65537) == 65538
    ensures End(Items([Number(n), Number(n)]), List(U32), 65537) == 65564
    ensures End(Items([Flag(b), Flag(b)]), List(Bool), 65537) == 65558
  {
    var flags, numbers := [Flag(b), Flag(b)], [Number(n), Number(n)];
    assert flags[1..] == [Flag(b)] && flags[1..][1..] == [];
    assert numbers[1..] == [Number(n)] && numbers[1..][1..] == [];
    assert EndItems(flags[1..][1..], Bool, 65558) == 65558;
    assert EndItems(flags[1..], Bool, 65557) == 65558;
    assert EndItems(numbers[1..][1..], U32, 65564) == 65564;
    assert EndItems(numbers[1..], U32, 65560) == 65564;
  }

  /** The kinds that are handled. */
  lemma KindsHandled(t: WitType)
    ensures Supported(String) && Supported(U32) && Supported(S32) && Supported(U64) && Supported(Bool)
    ensures Supported(List(t)) <==> Supported(t)
    ensures t in {U8, S64, Float32, Float64, Handle} || t.Tuple? || t.Optional? || t.Outcome? || t.Record? || t.Enum? ==>
      !Supported(t)
  {
  }
}
