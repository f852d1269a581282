/** Walking an odd stride around a ring whose length is a power of two. */
module RingWalk {

  /** `usize::is_power_of_two`. */
  predicate IsPowerOfTwo(n: nat) {
    n == 1 || (n > 1 && n % 2 == 0 && IsPowerOfTwo(n / 2))
  }

  /** The ring position reached from `start` after `t` strides. */
  function Position(len: nat, start: int, stride: int, t: int): (p: nat)
    requires len > 0
    ensures p < len
  {
    (start + t * stride) % len
  }

  /** The positions at times `0..len`, in the order in which the walk meets them. */
  ghost function Positions(len: nat, start: int, stride: int): (ps: seq<nat>)
    requires len > 0
    ensures |ps| == len
  {
    seq(len, t requires 0 <= t => Position(len, start, stride, t))
  }

  /** The members of `ps` that lie in the inclusive range `lo..=hi`, in order. */
  ghost function Within(ps: seq<nat>, lo: nat, hi: nat): (r: seq<nat>)
  {
    if ps == [] then []
    else (if lo <= ps[0] <= hi then [ps[0]] else []) + Within(ps[1..], lo, hi)
  }

  /** The active positions that the walk visits in one turn of the ring, in order. */
  ghost function Cycle(len: nat, start: nat, end: nat, stride: int): seq<nat>
    requires len > 0
  {
    Within(Positions(len, start, stride), start, end)
  }

  ghost predicate Distinct<T>(s: seq<T>) {
    forall i, j :: 0 <= i < j < |s| ==> s[i] != s[j]
  }

  function Reverse<T>(s: seq<T>): (r: seq<T>)
    ensures |r| == |s|
    ensures forall i :: 0 <= i < |s| ==> r[i] == s[|s| - 1 - i]
  {
    if s == [] then [] else Reverse(s[1..]) + [s[0]]
  }

  // ---------------------------------------------------------------- modular arithmetic

  lemma MulAssociates(x: int, y: int, z: int)
    ensures (x * y) * z == x * (y * z)
  {
  }

  lemma MulDistributes(x: int, y: int, z: int)
    ensures (x + y) * z == x * z + y * z
  {
  }

  /** A quotient and an in-range remainder determine `%`. */
  lemma ModUnique(x: int, m: int, q: int, r: int)
    requires m > 0 && 0 <= r < m && x == q * m + r
    ensures x % m == r
  {
    var d := q - x / m;
    assert (d >= 1 ==> d * m >= m) && (d <= -1 ==> d * m <= -m);
    assert d * m == x % m - r by {
      assert x == m * (x / m) + x % m;
      assert d * m == q * m - (x / m) * m;
    }
  }

  lemma ModAdd(x: int, y: int, m: int)
    requires m > 0
    ensures (x % m + y) % m == (x + y) % m
  {
    var z := x % m + y;
    assert x + y == m * (x / m) + m * (z / m) + z % m;
    assert m * (x / m) + m * (z / m) == (x / m + z / m) * m;
    ModUnique(x + y, m, x / m + z / m, z % m);
  }

  /** Equal remainders mean a difference that the modulus divides. */
  lemma ModEqual(x: int, y: int, m: int)
    requires m > 0 && x % m == y % m
    ensures (x - y) % m == 0
  {
    assert x - y == m * (x / m) - m * (y / m);
    assert m * (x / m) - m * (y / m) == (x / m - y / m) * m;
    ModUnique(x - y, m, x / m - y / m, 0);
  }

  /** One stride further round the ring. */
  lemma StrideOnce(len: nat, start: int, stride: int, t: int)
    requires len > 0
    ensures (Position(len, start, stride, t) + stride) % len == Position(len, start, stride, t + 1)
  {
    ModAdd(start + t * stride, stride, len);
    assert start + t * stride + stride == start + (t + 1) * stride;
  }

  /** Walking `u` strides from a position already on the walk stays on the walk. */
  lemma StrideFrom(len: nat, start: int, stride: int, t: int, u: int)
    requires len > 0
    ensures Position(len, Position(len, start, stride, t), stride, u) == Position(len, start, stride, t + u)
  {
    ModAdd(start + t * stride, u * stride, len);
    assert start + t * stride + u * stride == start + (t + u) * stride;
  }

  /** An odd factor never hides a power of two. */
  lemma {:induction false} OddCancels(n: nat, s: int, d: int)
    requires IsPowerOfTwo(n) && s % 2 == 1 && (d * s) % n == 0
    ensures d % n == 0
  {
    if n > 1 {
      var q, m, h := (d * s) / n, n / 2, s / 2;
      MulAssociates(2, m, q);
      assert d * s == 2 * (m * q);
      MulDistributes(2 * h, 1, d);
      MulAssociates(2, h, d);
      assert s * d == 2 * (h * d) + d;
      var e := m * q - h * d;
      assert d == 2 * e;
      MulAssociates(2, e, s);
      ModUnique(e * s, m, q, 0);
      OddCancels(m, s, e);
      MulAssociates(2, m, e / m);
      ModUnique(d, n, e / m, 0);
    }
  }

  // ---------------------------------------------------------------- the walk is a bijection

  lemma PositionsDiffer(len: nat, start: int, stride: int, i: nat, j: nat)
    requires IsPowerOfTwo(len) && stride % 2 == 1 && i < j < len
    ensures Position(len, start, stride, i) != Position(len, start, stride, j)
  {
    if Position(len, start, stride, i) == Position(len, start, stride, j) {
      ModEqual(start + j * stride, start + i * stride, len);
      MulDistributes(j - i, i, stride);
      OddCancels(len, stride, j - i);
      ModUnique(j - i, len, 0, j - i);
      assert false;
    }
  }

  /** The positions of one turn are pairwise different. */
  lemma PositionsDistinct(len: nat, start: int, stride: int)
    requires IsPowerOfTwo(len) && stride % 2 == 1
    ensures Distinct(Positions(len, start, stride))
  {
    var ps := Positions(len, start, stride);
    forall i, j | 0 <= i < j < len
      ensures ps[i] != ps[j]
    {
      PositionsDiffer(len, start, stride, i, j);
    }
  }

  ghost function Elements<T(!new)>(s: seq<T>): (r: set<T>)
    ensures forall x :: x in r <==> x in s
  {
    set x | x in s
  }

  lemma {:induction false} DistinctCardinality<T(!new)>(s: seq<T>)
    requires Distinct(s)
    ensures |Elements(s)| == |s|
  {
    if s != [] {
      var n := |s| - 1;
      DistinctCardinality(s[..n]);
      assert s == s[..n] + [s[n]];
      assert Elements(s) == Elements(s[..n]) + {s[n]};
    }
  }

  ghost function Interval(lo: nat, hi: nat): (r: set<nat>)
    requires lo <= hi
    ensures forall x :: x in r <==> lo <= x < hi
    ensures |r| == hi - lo
    decreases hi - lo
  {
    if lo == hi then {} else {lo} + Interval(lo + 1, hi)
  }

  /** Pigeonhole: `n` different numbers below `n` are all of them. */
  lemma DistinctCoversAll(s: seq<nat>, n: nat)
    requires |s| == n && Distinct(s) && forall x :: x in s ==> x < n
    ensures forall x: nat :: x < n ==> x in s
  {
    var members := Elements(s);
    DistinctCardinality(s);
    SubsetOfEqualSize(members, Interval(0, n));
    forall x: nat | x < n
      ensures x in s
    {
      assert x in Interval(0, n);
      assert x in members;
    }
  }

  lemma SubsetOfEqualSize<T>(a: set<T>, b: set<T>)
    requires a <= b && |a| == |b|
    ensures a == b
  {
    assert |b - a| + |a| == |b| by {
      assert b == (b - a) + a;
    }
  }

  // ---------------------------------------------------------------- filtering

  lemma {:induction false} WithinConcat(a: seq<nat>, b: seq<nat>, lo: nat, hi: nat)
    ensures Within(a + b, lo, hi) == Within(a, lo, hi) + Within(b, lo, hi)
  {
    if a == [] {
      assert a + b == b;
    } else {
      assert (a + b)[1..] == a[1..] + b;
      WithinConcat(a[1..], b, lo, hi);
    }
  }

  lemma WithinOne(p: nat, lo: nat, hi: nat)
    ensures Within([p], lo, hi) == if lo <= p <= hi then [p] else []
  {
  }

  lemma {:induction false} WithinMember(ps: seq<nat>, lo: nat, hi: nat, x: nat)
    ensures x in Within(ps, lo, hi) <==> x in ps && lo <= x <= hi
  {
    if ps != [] {
      WithinMember(ps[1..], lo, hi, x);
    }
  }

  lemma {:induction false} WithinDistinct(ps: seq<nat>, lo: nat, hi: nat)
    requires Distinct(ps)
    ensures Distinct(Within(ps, lo, hi))
  {
    if ps != [] {
      WithinDistinct(ps[1..], lo, hi);
      WithinMember(ps[1..], lo, hi, ps[0]);
    }
  }

  lemma {:induction false} WithinNone(ps: seq<nat>, lo: nat, hi: nat)
    requires forall i :: 0 <= i < |ps| ==> !(lo <= ps[i] <= hi)
    ensures Within(ps, lo, hi) == []
  {
    if ps != [] {
      WithinNone(ps[1..], lo, hi);
    }
  }

  lemma {:induction false} WithinReverse(ps: seq<nat>, lo: nat, hi: nat)
    ensures Within(Reverse(ps), lo, hi) == Reverse(Within(ps, lo, hi))
  {
    if ps != [] {
      WithinConcat(Reverse(ps[1..]), [ps[0]], lo, hi);
      WithinReverse(ps[1..], lo, hi);
      assert Within([ps[0]], lo, hi) == if lo <= ps[0] <= hi then [ps[0]] else [];
      if lo <= ps[0] <= hi {
        assert Within(ps, lo, hi)[1..] == Within(ps[1..], lo, hi);
      } else {
        assert Within(ps, lo, hi) == Within(ps[1..], lo, hi);
      }
    }
  }

  // ---------------------------------------------------------------- the cycle

  /**
   Single cycle: the walk starts at `start` and meets every active position exactly once in
   one turn of the ring.
   */
  lemma SingleCycle(len: nat, start: nat, end: nat, stride: int)
    requires IsPowerOfTwo(len) && stride % 2 == 1 && start <= end < len
    ensures var c := Cycle(len, start, end, stride);
      && |c| == end - start + 1
      && c[0] == start
      && Distinct(c)
      && (forall p :: p in c <==> start <= p <= end)
  {
    var c := Cycle(len, start, end, stride);
    PositionsDistinct(len, start, stride);
    CycleMembers(len, start, end, stride);
    WithinDistinct(Positions(len, start, stride), start, end);
    hide Cycle, Distinct, IsPowerOfTwo, Positions;
    RangeCardinality(c, start, end);
    CycleStarts(len, start, end, stride);
  }

  lemma CycleMembers(len: nat, start: nat, end: nat, stride: int)
    requires len > 0 && end < len && Distinct(Positions(len, start, stride))
    ensures forall p :: p in Cycle(len, start, end, stride) <==> start <= p <= end
  {
    var ps := Positions(len, start, stride);
    DistinctCoversAll(ps, len);
    hide Distinct;
    forall p: nat
      ensures p in Cycle(len, start, end, stride) <==> start <= p <= end
    {
      WithinMember(ps, start, end, p);
    }
  }

  /** Distinct members that are exactly the range `lo..=hi` number as many as the range. */
  lemma RangeCardinality(c: seq<nat>, lo: nat, hi: nat)
    requires Distinct(c) && lo <= hi && forall p :: p in c <==> lo <= p <= hi
    ensures |c| == hi - lo + 1
  {
    DistinctCardinality(c);
    hide Distinct;
    assert Elements(c) == Interval(lo, hi + 1);
  }

  lemma CycleStarts(len: nat, start: nat, end: nat, stride: int)
    requires start <= end < len
    ensures Cycle(len, start, end, stride) != [] && Cycle(len, start, end, stride)[0] == start
  {
    ModUnique(start, len, 0, start);
    assert Positions(len, start, stride)[0] == start;
  }

  /** A place of the opposite walk is one of this walk, counted from the end of the turn. */
  lemma OppositePlace(len: nat, start: int, stride: int, t: int)
    requires len > 0
    ensures (start + t * -stride) % len == (start + (len - t) * stride) % len
  {
    var x := start + t * -stride;
    var y := start + (len - t) * stride;
    assert y == x + len * stride by {
      assert (len - t) * stride == len * stride - t * stride;
      assert t * -stride == -(t * stride);
    }
    assert y == (x / len + stride) * len + x % len by {
      assert x == len * (x / len) + x % len;
      assert (x / len + stride) * len == len * (x / len) + len * stride;
    }
    ModUnique(y, len, x / len + stride, x % len);
  }

  lemma OppositePositions(len: nat, start: nat, stride: int)
    requires start < len
    ensures Positions(len, start, stride)[0] == start == Positions(len, start, -stride)[0]
    ensures Positions(len, start, -stride)[1..] == Reverse(Positions(len, start, stride)[1..])
  {
    ModUnique(start, len, 0, start);
    hide Reverse;
    var ps, qs := Positions(len, start, stride), Positions(len, start, -stride);
    forall t | 1 <= t < len
      ensures qs[t] == ps[len - t]
    {
      OppositePlace(len, start, stride, t);
    }
    hide Positions;
  }

  lemma FirstWithin(ps: seq<nat>, lo: nat, hi: nat)
    requires ps != [] && lo <= ps[0] <= hi
    ensures Within(ps, lo, hi) == [ps[0]] + Within(ps[1..], lo, hi)
  {
  }

  /** Walking the opposite stride meets the same positions backwards after the first. */
  lemma OppositeCycle(len: nat, start: nat, end: nat, stride: int)
    requires len > 0 && start <= end < len
    ensures Cycle(len, start, end, stride) != [] && Cycle(len, start, end, stride)[0] == start
    ensures Cycle(len, start, end, -stride) == [start] + Reverse(Cycle(len, start, end, stride)[1..])
  {
    hide Positions, Within, Reverse;
    var ps, qs := Positions(len, start, stride), Positions(len, start, -stride);
    OppositePositions(len, start, stride);
    WithinReverse(ps[1..], start, end);
    FirstWithin(ps, start, end);
    FirstWithin(qs, start, end);
    assert Cycle(len, start, end, stride)[1..] == Within(ps[1..], start, end);
  }
}

/** The bounded in-place sector permutation (`page_permutation.rs`). */
module PagePermutation {
  import opened Wrappers
  import opened Bytes
  import opened RingWalk

  const SECTOR_LEN := 512

  type I32 = k: int | -0x8000_0000 <= k < 0x8000_0000

  datatype PermutationError =
    | NonPowerOfTwoLength(len: nat)
    | InvalidSectorLength(len: nat)
    | InvalidActiveRange(len: nat, start: nat, tail: nat)
    | NoActiveCycle(len: nat, start: nat, tail: nat)

  // ---------------------------------------------------------------- key schedule

  function Magnitude(key: I32): nat {
    var k: int := key;
    if k < 0 then -k else k
  }

  /** `x | 1`. */
  function SetLowBit(x: nat): (r: nat)
    ensures r % 2 == 1 && x <= r <= x + 1
  {
    if x % 2 == 1 then x else x + 1
  }

  function Low8(key: I32): Byte {
    Magnitude(key) % 256
  }

  function Increment(key: I32): (r: Byte)
    ensures r % 2 == 1
  {
    SetLowBit((Magnitude(key) / 256) % 256)
  }

  /** A `u16` reinterpreted as an `i16`. */
  function AsI16(x: int): int
    requires 0 <= x < 0x1_0000
  {
    if x < 0x8000 then x else x - 0x1_0000
  }

  function WrappingNegI16(x: int): int
    requires -0x8000 <= x < 0x8000
  {
    if x == -0x8000 then x else -x
  }

  function Stride(key: I32): (r: int)
    ensures r % 2 == 1
  {
    var rawStride := SetLowBit((Magnitude(key) / 0x1_0000 + Low8(key)) % 0x1_0000);
    if key < 0 then WrappingNegI16(AsI16(rawStride)) else AsI16(rawStride)
  }

  function MakeOdd(x: nat): nat {
    if x % 2 == 1 then x else x + 1
  }

  /** The signed stride of a key whose magnitude is `low + 256*mid + 65536*high`. */
  function SignedStride(negative: bool, low: nat, high: nat): int {
    var n := MakeOdd(high + low);
    var s := if n < 0x8000 then n else n - 0x1_0000;
    if negative then -s else s
  }

  /** The seed of the first write, for an active range that leaves `places - 1` bytes out. */
  function SignedSeed(negative: bool, low: nat, increment: nat, places: nat): int {
    if negative then increment * places - low else low
  }

  /** The key schedule of every key, by the bytes of its magnitude. */
  lemma KeySchedule(key: I32, low: nat, mid: nat, high: nat)
    requires low < 256 && mid < 256 && (key == low + 256 * mid + 65536 * high || key == -(low + 256 * mid + 65536 * high))
    ensures Low8(key) == low
    ensures Increment(key) == MakeOdd(mid)
    ensures Stride(key) == SignedStride(key < 0, low, high)
  {
    MagnitudeBytes(key, low, mid, high);
    IncrementByBytes(key, mid);
    StrideByBytes(key, low, high);
    hide Low8, Magnitude, MakeOdd, Stride, Increment, SignedStride;
  }

  lemma IncrementByBytes(key: I32, mid: nat)
    requires Magnitude(key) / 256 % 256 == mid
    ensures Increment(key) == MakeOdd(mid)
  {
    hide Magnitude;
  }

  lemma StrideByBytes(key: I32, low: nat, high: nat)
    requires Magnitude(key) % 256 == low && Magnitude(key) / 0x1_0000 == high <= 0x8000
    ensures Low8(key) == low && Stride(key) == SignedStride(key < 0, low, high)
  {
    hide Magnitude;
    assert (high + low) % 0x1_0000 == high + low;
  }

  lemma MagnitudeBytes(key: I32, low: nat, mid: nat, high: nat)
    requires low < 256 && mid < 256 && (key == low + 256 * mid + 65536 * high || key == -(low + 256 * mid + 65536 * high))
    ensures Magnitude(key) % 256 == low && Magnitude(key) / 256 % 256 == mid && Magnitude(key) / 0x1_0000 == high <= 0x8000
  {
    var k: int := Magnitude(key);
    assert k == low + 256 * mid + 65536 * high;
    assert k / 256 == mid + 256 * high;
  }

  /** How many increments the negative seed starts with. */
  function SeedFactor(len: nat, boundary: nat): Byte {
    if len < 256 then
      var base := if boundary == 0 then 0 else Wrap(boundary);
      WrappingAdd(WrappingAdd(base, 1), Wrap(len))
    else
      Wrap(boundary + 1)
  }

  /** The seed of the distinct negative-key branch. */
  function NegativeSeed(len: nat, start: nat, tail: nat, increment: Byte, low8: Byte): Byte {
    WrappingSub(WrappingMul(increment, SeedFactor(len, start + tail)), low8)
  }

  function InitialSeed(len: nat, start: nat, tail: nat, key: I32): Byte {
    if key < 0 then NegativeSeed(len, start, tail, Increment(key), Low8(key)) else Low8(key)
  }

  function ValidateBounds(len: nat, start: nat, tail: nat): Option<PermutationError> {
    if len == 0 || !IsPowerOfTwo(len) then Some(NonPowerOfTwoLength(len))
    else if start >= len || tail >= len || start + tail >= len then Some(InvalidActiveRange(len, start, tail))
    else None
  }

  // ---------------------------------------------------------------- specification

  /** The running seed used by the `j`-th write. */
  function SeedAt(seed: int, increment: int, j: nat): Byte {
    if j == 0 then Wrap(seed) else Wrap(SeedAt(seed, increment, j - 1) + increment)
  }

  lemma {:induction false} SeedClosedForm(seed: int, increment: int, j: nat)
    ensures SeedAt(seed, increment, j) == Wrap(seed + j * increment)
  {
    hide Wrap;
    if j > 0 {
      SeedClosedForm(seed, increment, j - 1);
      WrapAdd(seed + (j - 1) * increment, increment);
      assert (j - 1) * increment + increment == j * increment by {
        MulDistributes(j - 1, 1, increment);
      }
    }
  }

  /** The index after `j` on a cycle of `n` members. */
  function Following(n: nat, j: nat): (r: nat)
    requires j < n
    ensures r < n
  {
    if j + 1 < n then j + 1 else 0
  }

  /** What the `j`-th write stores: the original byte one place further round, plus the running seed. */
  function Shifted(before: seq<Byte>, cycle: seq<nat>, seed: int, increment: int, j: nat): Byte
    requires j < |cycle| && cycle[Following(|cycle|, j)] < |before|
  {
    WrappingAdd(before[cycle[Following(|cycle|, j)]], SeedAt(seed, increment, j))
  }

  /**
   `after` is `before` with every byte of `cycle` replaced by the original byte one place
   further round the cycle, plus a running seed; everything else is untouched.
   */
  ghost predicate ShiftedAlong(before: seq<Byte>, after: seq<Byte>, cycle: seq<nat>, seed: int, increment: int)
  {
    && |after| == |before|
    && (forall j :: 0 <= j < |cycle| ==> cycle[j] < |before|)
    && (forall j: nat {:trigger Shifted(before, cycle, seed, increment, j)} :: j < |cycle| ==>
          after[cycle[j]] == Shifted(before, cycle, seed, increment, j))
    && (forall p: nat :: p < |before| && p !in cycle ==> after[p] == before[p])
  }

  /** What a call with key `key` does to a buffer whose bounds were accepted. */
  ghost predicate Permuted(before: seq<Byte>, after: seq<Byte>, start: nat, tail: nat, key: I32)
    requires ValidateBounds(|before|, start, tail).None?
  {
    var len := |before|;
    if key == 0 then after == before
    else ShiftedAlong(before, after, Cycle(len, start, len - 1 - tail, Stride(key)),
                      InitialSeed(len, start, tail, key), Increment(key))
  }

  // ---------------------------------------------------------------- operations

  /**
   The first active position after `current` on the walk. `strides` counts the strides taken;
   the error is returned exactly when a whole turn meets no active position.
   */
  method NextInActiveRange(current: nat, stride: int, len: nat, start: nat, end: nat)
    returns (r: Result<nat, PermutationError>, ghost strides: nat)
    requires current < len && end < len
    ensures r.Ok? ==>
      && 1 <= strides <= len
      && r.value == Position(len, current, stride, strides)
      && start <= r.value <= end
      && forall u :: 1 <= u < strides ==> !(start <= Position(len, current, stride, u) <= end)
    ensures r.Err? ==>
      && r.error == NoActiveCycle(len, start, len - 1 - end)
      && forall u :: 1 <= u <= len ==> !(start <= Position(len, current, stride, u) <= end)
  {
    var candidate := (current + stride) % len;
    strides := 1;
    ModUnique(current, len, 0, current);
    StrideOnce(len, current, stride, 0);
    for i := 0 to len
      invariant strides == i + 1
      invariant candidate == Position(len, current, stride, strides)
      invariant forall u :: 1 <= u < strides ==> !(start <= Position(len, current, stride, u) <= end)
    {
      if start <= candidate <= end {
        return Ok(candidate), strides;
      }
      StrideOnce(len, current, stride, strides);
      candidate := (candidate + stride) % len;
      strides := strides + 1;
    }
    return Err(NoActiveCycle(len, start, len - 1 - end)), strides;
  }

  /** No position met at the times `from..to` is active. */
  ghost predicate InactiveDuring(len: nat, start: nat, end: nat, stride: int, from: int, to: int)
    requires len > 0
  {
    forall m :: from <= m < to ==> !(start <= Position(len, start, stride, m) <= end)
  }

  /** A search that began at time `t` of the walk, told in the walk's own time. */
  lemma SearchInWalkTime(len: nat, start: nat, end: nat, stride: int, t: nat, strides: nat)
    requires start <= end < len
    requires var here := Position(len, start, stride, t);
      forall u :: 1 <= u < strides ==> !(start <= Position(len, here, stride, u) <= end)
    ensures InactiveDuring(len, start, end, stride, t + 1, t + strides)
    ensures Position(len, Position(len, start, stride, t), stride, strides) == Position(len, start, stride, t + strides)
  {
    StrideFrom(len, start, stride, t, strides);
    forall m | t + 1 <= m < t + strides
      ensures !(start <= Position(len, start, stride, m) <= end)
    {
      StrideFrom(len, start, stride, t, m - t);
    }
  }

  /** At time `t` the walk stands on the `j`-th member of its cycle, having met exactly the members before it. */
  ghost predicate OnCycle(len: nat, start: nat, end: nat, stride: int, cycle: seq<nat>, j: nat, t: nat) {
    && start <= end < len && t < len && j < |cycle|
    && cycle == Cycle(len, start, end, stride)
    && cycle[j] == Position(len, start, stride, t)
    && Within(Positions(len, start, stride)[..t + 1], start, end) == cycle[..j + 1]
  }

  lemma CycleBegins(len: nat, start: nat, end: nat, stride: int)
    requires start <= end < len
    requires Cycle(len, start, end, stride) != [] && Cycle(len, start, end, stride)[0] == start
    ensures OnCycle(len, start, end, stride, Cycle(len, start, end, stride), 0, 0)
  {
    ModUnique(start, len, 0, start);
    assert Positions(len, start, stride)[..1] == [start];
  }

  /**
   One step of the outer loop on the specification side: the first active position after the
   `j`-th member of the cycle is the `j+1`-st, or `start` again after the last.
   */
  lemma NextOnCycle(len: nat, start: nat, end: nat, stride: int, cycle: seq<nat>, j: nat, t: nat, strides: nat)
    requires OnCycle(len, start, end, stride, cycle, j, t) && 1 <= strides <= len
    requires start <= Position(len, start, stride, t + strides) <= end
    requires InactiveDuring(len, start, end, stride, t + 1, t + strides)
    ensures j + 1 < |cycle| ==>
      && Position(len, start, stride, t + strides) == cycle[j + 1]
      && OnCycle(len, start, end, stride, cycle, j + 1, t + strides)
    ensures j + 1 == |cycle| ==> Position(len, start, stride, t + strides) == start
  {
    hide Position, Within;
    var ps := Positions(len, start, stride);
    TurnReturns(len, start, stride);
    assert start <= Position(len, start, stride, len) <= end;
    assert t + strides <= len;
    var gap := ps[t + 1..t + strides];
    WithinNone(gap, start, end);
    WithinConcat(ps[..t + 1], gap, start, end);
    if t + strides < len {
      var upTo := ps[..t + strides + 1];
      assert upTo == ps[..t + 1] + gap + [ps[t + strides]];
      WithinConcat(ps[..t + 1] + gap, [ps[t + strides]], start, end);
      WithinOne(ps[t + strides], start, end);
      assert Within(upTo, start, end) == cycle[..j + 1] + [ps[t + strides]];
      assert ps == upTo + ps[t + strides + 1..];
      WithinConcat(upTo, ps[t + strides + 1..], start, end);
    } else {
      assert ps == ps[..t + 1] + gap;
    }
  }

  /** The same step, for a search told relative to the position it began from. */
  lemma AdvanceOnCycle(len: nat, start: nat, end: nat, stride: int, cycle: seq<nat>, j: nat, t: nat, strides: nat)
    requires OnCycle(len, start, end, stride, cycle, j, t) && 1 <= strides <= len
    requires Distinct(cycle) && cycle[0] == start
    requires start <= Position(len, cycle[j], stride, strides) <= end
    requires forall u :: 1 <= u < strides ==> !(start <= Position(len, cycle[j], stride, u) <= end)
    ensures var next := Position(len, cycle[j], stride, strides);
      if next == start then j + 1 == |cycle|
      else j + 1 < |cycle| && next == cycle[j + 1] && OnCycle(len, start, end, stride, cycle, j + 1, t + strides)
  {
    SearchInWalkTime(len, start, end, stride, t, strides);
    NextOnCycle(len, start, end, stride, cycle, j, t, strides);
  }

  /** A whole turn of the ring returns to where it began. */
  lemma TurnReturns(len: nat, start: nat, stride: int)
    requires start < len
    ensures Position(len, start, stride, len) == start
  {
    assert start + len * stride == stride * len + start;
    ModUnique(start + len * stride, len, stride, start);
  }

  /** Applies the permutation in place; the only failure of an accepted range would be a lost cycle, and there is none. */
  method PermutePowerOfTwoInPlace(bytes: array<Byte>, start: nat, tail: nat, key: I32)
    returns (r: Result<(), PermutationError>)
    modifies bytes
    ensures r == (match ValidateBounds(bytes.Length, start, tail) case None => Ok(()) case Some(e) => Err(e))
    ensures r.Err? ==> bytes[..] == old(bytes[..])
    ensures r.Ok? ==> Permuted(old(bytes[..]), bytes[..], start, tail, key)
  {
    var len := bytes.Length;
    var invalid := ValidateBounds(len, start, tail);
    if invalid.Some? {
      return Err(invalid.value);
    }
    if key == 0 {
      return Ok(());
    }
    var increment := Increment(key);
    var stride := Stride(key);
    var seed := InitialSeed(len, start, tail, key);
    RotateCycle(bytes, start, len - 1 - tail, stride, seed, increment);
    return Ok(());
  }

  /** The search from a member of the cycle finds the next one; `NoActiveCycle` is never reported. */
  method NextMember(len: nat, start: nat, end: nat, stride: int, current: nat, ghost cycle: seq<nat>, ghost j: nat, ghost t: nat)
    returns (next: nat, ghost time: nat)
    requires OnCycle(len, start, end, stride, cycle, j, t) && Distinct(cycle) && cycle[0] == start
    requires j < |cycle| && start <= current == cycle[j] <= end
    ensures if next == start then j + 1 == |cycle|
      else j + 1 < |cycle| && next == cycle[j + 1] && OnCycle(len, start, end, stride, cycle, j + 1, time)
  {
    var found, strides := NextInActiveRange(current, stride, len, start, end);
    TurnReturns(len, current, stride);
    hide Position, Cycle, Distinct;
    assert start <= Position(len, current, stride, len) <= end;
    assert found.Ok?;
    AdvanceOnCycle(len, start, end, stride, cycle, j, t, strides);
    next, time := found.value, t + strides;
  }

  /** The loop of the primitive: one saved byte, a running seed, and a walk that overwrites as it goes. */
  method RotateCycle(bytes: array<Byte>, start: nat, end: nat, stride: int, seed0: Byte, increment: Byte)
    requires IsPowerOfTwo(bytes.Length) && stride % 2 == 1 && start <= end < bytes.Length
    modifies bytes
    ensures ShiftedAlong(old(bytes[..]), bytes[..], Cycle(bytes.Length, start, end, stride), seed0, increment)
  {
    var len := bytes.Length;
    var seed := seed0;
    var first := bytes[start];
    var current := start;

    ghost var before := bytes[..];
    ghost var cycle := Cycle(len, start, end, stride);
    ghost var j, t := 0, 0;
    SingleCycle(len, start, end, stride);
    CycleBegins(len, start, end, stride);
    NothingWritten(before, cycle, seed0, increment);
    assert SeedAt(seed0, increment, 0) == seed0;
    hide *;
    while true
      invariant OnCycle(len, start, end, stride, cycle, j, t)
      invariant j < |cycle| && current == cycle[j] && current in cycle
      invariant seed == SeedAt(seed0, increment, j)
      invariant WrittenUpTo(before, bytes[..], cycle, seed0, increment, j)
      decreases |cycle| - j
    {
      var next, time := NextMember(len, start, end, stride, current, cycle, j, t);
      ghost var now := bytes[..];
      if next == start {
        bytes[current] := WrappingAdd(first, seed);
        assert bytes[..] == now[cycle[j] := WrappingAdd(before[cycle[0]], seed)];
        LastWrite(before, now, cycle, seed0, increment, j);
        return;
      }
      OneWrite(before, now, cycle, seed0, increment, j);
      bytes[current] := WrappingAdd(bytes[next], seed);
      assert bytes[..] == now[cycle[j] := WrappingAdd(now[cycle[j + 1]], seed)];
      seed := WrappingAdd(seed, increment);
      current := next;
      j, t := j + 1, time;
    }
  }

  /** The first `j` members of the cycle hold their results and every other byte is still original. */
  ghost predicate WrittenUpTo(before: seq<Byte>, now: seq<Byte>, cycle: seq<nat>, seed: int, increment: int, j: nat)
    requires j < |cycle|
  {
    && |now| == |before|
    && (forall i :: 0 <= i < |cycle| ==> cycle[i] < |before|)
    && (forall i: nat {:trigger Shifted(before, cycle, seed, increment, i)} :: i < j ==>
          now[cycle[i]] == Shifted(before, cycle, seed, increment, i))
    && (forall i :: j <= i < |cycle| ==> now[cycle[i]] == before[cycle[i]])
    && (forall p: nat :: p < |before| && p !in cycle ==> now[p] == before[p])
  }

  lemma NothingWritten(before: seq<Byte>, cycle: seq<nat>, seed: int, increment: int)
    requires cycle != [] && forall p :: p in cycle ==> p < |before|
    ensures WrittenUpTo(before, before, cycle, seed, increment, 0)
  {
    assert forall i :: 0 <= i < |cycle| ==> cycle[i] in cycle;
  }

  lemma SeedStep(seed: int, increment: int, j: nat)
    ensures SeedAt(seed, increment, j + 1) == WrappingAdd(SeedAt(seed, increment, j), increment)
  {
  }

  lemma OneWrite(before: seq<Byte>, now: seq<Byte>, cycle: seq<nat>, seed: int, increment: int, j: nat)
    requires Distinct(cycle) && j + 1 < |cycle| && WrittenUpTo(before, now, cycle, seed, increment, j)
    ensures WrittenUpTo(before, now[cycle[j] := WrappingAdd(now[cycle[j + 1]], SeedAt(seed, increment, j))],
                        cycle, seed, increment, j + 1)
    ensures SeedAt(seed, increment, j + 1) == WrappingAdd(SeedAt(seed, increment, j), increment)
  {
    SeedStep(seed, increment, j);
    hide SeedAt, Wrap;
    var value := WrappingAdd(now[cycle[j + 1]], SeedAt(seed, increment, j));
    assert value == Shifted(before, cycle, seed, increment, j);
    hide Shifted;
    forall i: nat | i < |cycle| && i != j
      ensures cycle[i] != cycle[j]
    {
    }
  }

  lemma LastWrite(before: seq<Byte>, now: seq<Byte>, cycle: seq<nat>, seed: int, increment: int, j: nat)
    requires Distinct(cycle) && j + 1 == |cycle| && WrittenUpTo(before, now, cycle, seed, increment, j)
    ensures ShiftedAlong(before, now[cycle[j] := WrappingAdd(before[cycle[0]], SeedAt(seed, increment, j))],
                         cycle, seed, increment)
  {
  }

  /**
   A walk from `start` with a stride, a seed and an increment: the byte at `start` becomes the one a stride
   further plus the seed, and when every byte is active the `t`-th byte of the walk becomes the next one
   plus the seed and `t` increments.
   */
  ghost predicate MovedBy(
      before: seq<Byte>, after: seq<Byte>, start: nat, tail: nat, stride: int, seed: int, increment: int)
    requires |before| == |after| == 512 && start + tail < 512
  {
    && (start <= (start + stride) % 512 <= 511 - tail ==> after[start] == (before[(start + stride) % 512] + seed) % 256)
    && (start == tail == 0 ==> forall t :: 0 <= t < 512 ==>
          after[t * stride % 512] == (before[(t + 1) * stride % 512] + seed + t * increment) % 256)
  }

  /** The effect of a nonzero key on a sector, told by the bytes of its magnitude. */
  ghost predicate SectorMoved(before: seq<Byte>, after: seq<Byte>, start: nat, tail: nat, key: int)
    requires |before| == |after| == 512 && start + tail < 512
  {
    var k := if key < 0 then -key else key;
    var low, mid, high := k % 256, k / 256 % 256, k / 65536;
    MovedBy(before, after, start, tail, SignedStride(key < 0, low, high),
            SignedSeed(key < 0, low, MakeOdd(mid), start + tail + 1), MakeOdd(mid))
  }

  /** The 512-byte wrapper used by the recovered callers. */
  method PermuteSectorInPlace(sector: array<Byte>, start: nat, tail: nat, key: I32)
    returns (r: Result<(), PermutationError>)
    modifies sector
    ensures sector.Length != 512 ==> r == Err(InvalidSectorLength(sector.Length))
    ensures sector.Length == 512 ==>
      (r.Ok? <==> start + tail < 512) && (r.Err? ==> r.error == InvalidActiveRange(512, start, tail))
    ensures r.Err? ==> sector[..] == old(sector[..])
    ensures r.Ok? ==> Permuted(old(sector[..]), sector[..], start, tail, key)
    ensures r.Ok? && key == 0 ==> sector[..] == old(sector[..])
    ensures r.Ok? && key != 0 ==> SectorMoved(old(sector[..]), sector[..], start, tail, key)
  {
    if sector.Length != SECTOR_LEN {
      return Err(InvalidSectorLength(sector.Length));
    }
    SectorLengthIsPowerOfTwo();
    r := PermutePowerOfTwoInPlace(sector, start, tail, key);
    if r.Ok? && key != 0 {
      SectorMovesByKey(old(sector[..]), sector[..], start, tail, key);
    }
  }

  /** The permutation in the terms of the key's bytes. */
  lemma SectorMovesByKey(before: seq<Byte>, after: seq<Byte>, start: nat, tail: nat, key: I32)
    requires |before| == |after| == 512 && IsPowerOfTwo(512) && start + tail < 512 && key != 0
    requires Permuted(before, after, start, tail, key)
    ensures SectorMoved(before, after, start, tail, key)
  {
    var k: int := Magnitude(key);
    var low, mid, high := k % 256, k / 256 % 256, k / 65536;
    BytesOfMagnitude(k);
    KeySchedule(key, low, mid, high);
    hide Stride, Increment, Low8, MakeOdd, SignedStride, Cycle, ShiftedAlong, IsPowerOfTwo, InitialSeed, MovedBy, Wrap, SignedSeed;
    var increment := MakeOdd(mid);
    var seed := SignedSeed(key < 0, low, increment, start + tail + 1);
    SeedByKey(start, tail, key, low, increment, seed);
    WalkMoved(before, after, start, tail, SignedStride(key < 0, low, high), Wrap(seed), seed, increment);
  }

  lemma SeedByKey(start: nat, tail: nat, key: I32, low: nat, increment: nat, seed: int)
    requires start + tail < 512 && Low8(key) == low && Increment(key) == increment
    requires seed == SignedSeed(key < 0, low, increment, start + tail + 1)
    ensures InitialSeed(512, start, tail, key) == Wrap(seed)
  {
    hide Low8, Increment, NegativeSeed, Wrap;
    if key < 0 {
      NegativeSeedAt(512, start, tail, increment, low, start + tail + 1);
    } else {
      WrapOfByte(low);
    }
  }

  lemma WalkMoved(
      before: seq<Byte>, after: seq<Byte>, start: nat, tail: nat, stride: int, wrapped: Byte, seed: int, increment: int)
    requires |before| == |after| == 512 && IsPowerOfTwo(512) && start + tail < 512 && stride % 2 == 1 && wrapped == Wrap(seed)
    requires ShiftedAlong(before, after, Cycle(512, start, 511 - tail, stride), wrapped, increment)
    ensures MovedBy(before, after, start, tail, stride, seed, increment)
  {
    hide Cycle, ShiftedAlong, IsPowerOfTwo;
    if start <= (start + stride) % 512 <= 511 - tail {
      SecondOnCycle(512, start, 511 - tail, stride);
      PlaceMoved(before, after, Cycle(512, start, 511 - tail, stride), wrapped, seed, increment, 0, start, (start + stride) % 512);
    }
    if start == tail == 0 {
      forall t | 0 <= t < 512
        ensures after[t * stride % 512] == (before[(t + 1) * stride % 512] + seed + t * increment) % 256
      {
        RingByteMoved(before, after, stride, wrapped, seed, increment, t);
      }
    }
  }

  lemma RingByteMoved(
      before: seq<Byte>, after: seq<Byte>, stride: int, wrapped: Byte, seed: int, increment: int, t: nat)
    requires |before| == |after| == 512 && t < 512 && wrapped == Wrap(seed)
    requires ShiftedAlong(before, after, Cycle(512, 0, 511, stride), wrapped, increment)
    ensures after[t * stride % 512] == (before[(t + 1) * stride % 512] + seed + t * increment) % 256
  {
    hide Cycle, ShiftedAlong, Following, Wrap;
    WholeRingCycle(512, stride);
    var place, next := t * stride % 512, (t + 1) * stride % 512;
    PlaceMoved(before, after, Cycle(512, 0, 511, stride), wrapped, seed, increment, t, place, next);
  }

  lemma PlaceMoved(
      before: seq<Byte>, after: seq<Byte>, cycle: seq<nat>, wrapped: Byte, seed: int, increment: int, j: nat, place: nat, next: nat)
    requires ShiftedAlong(before, after, cycle, wrapped, increment) && j < |cycle| && wrapped == Wrap(seed)
    requires cycle[j] == place && cycle[Following(|cycle|, j)] == next
    ensures place < |after| && next < |before| && after[place] == (before[next] + seed + j * increment) % 256
  {
    hide ShiftedAlong, Following;
    ByteMoved(before, after, cycle, wrapped, seed, increment, j);
  }

  lemma BytesOfMagnitude(k: int)
    requires 0 <= k
    ensures k == k % 256 + 256 * (k / 256 % 256) + 65536 * (k / 65536)
  {
    assert k == 256 * (k / 256) + k % 256 && k / 256 == 256 * (k / 65536) + k / 256 % 256;
  }

  lemma ByteMoved(
      before: seq<Byte>, after: seq<Byte>, cycle: seq<nat>, wrapped: Byte, seed: int, increment: int, j: nat)
    requires ShiftedAlong(before, after, cycle, wrapped, increment) && j < |cycle| && wrapped == Wrap(seed)
    ensures cycle[j] < |after| && cycle[Following(|cycle|, j)] < |before| == |after|
    ensures after[cycle[j]] == Wrap(before[cycle[Following(|cycle|, j)]] + seed + j * increment)
  {
    ShiftedAt(before, after, cycle, wrapped, increment, j);
    SeedClosedForm(wrapped, increment, j);
    hide *;
    ThreeTerms(before[cycle[Following(|cycle|, j)]], seed, j * increment);
  }

  lemma ThreeTerms(b: int, seed: int, x: int)
    ensures Wrap(b + Wrap(Wrap(seed) + x)) == Wrap(b + seed + x)
  {
    hide Wrap;
    WrapAdd(seed, x);
    WrapAdd(seed + x, b);
  }

  /** When the first stride stays active, it is the first step of the cycle. */
  lemma SecondOnCycle(len: nat, start: nat, end: nat, stride: int)
    requires IsPowerOfTwo(len) && stride % 2 == 1 && start <= end < len && len > 1
    requires start <= (start + stride) % len <= end
    ensures var c := Cycle(len, start, end, stride);
      |c| > 1 && c[0] == start && c[1] == (start + stride) % len
  {
    var ps := Positions(len, start, stride);
    ModUnique(start, len, 0, start);
    assert ps[0] == start && ps[1] == (start + stride) % len;
    assert ps == [ps[0]] + ([ps[1]] + ps[2..]);
    WithinConcat([ps[0]], [ps[1]] + ps[2..], start, end);
    WithinConcat([ps[1]], ps[2..], start, end);
    WithinOne(ps[0], start, end);
    WithinOne(ps[1], start, end);
  }

  /** With every position active, the cycle is the walk itself, and returns to 0. */
  lemma WholeRingCycle(len: nat, stride: int)
    requires len > 0
    ensures var c := Cycle(len, 0, len - 1, stride);
      && |c| == len
      && forall t :: 0 <= t < len ==> c[t] == t * stride % len && c[Following(len, t)] == (t + 1) * stride % len
  {
    var ps := Positions(len, 0, stride);
    WithinAll(ps, 0, len - 1);
    forall t | 0 <= t < len
      ensures ps[t] == t * stride % len && ps[Following(len, t)] == (t + 1) * stride % len
    {
      if t + 1 == len {
        TurnReturns(len, 0, stride);
        assert 0 + len * stride == (t + 1) * stride;
        ModUnique(0, len, 0, 0);
      }
    }
  }

  lemma {:induction false} WithinAll(ps: seq<nat>, lo: nat, hi: nat)
    requires forall i :: 0 <= i < |ps| ==> lo <= ps[i] <= hi
    ensures Within(ps, lo, hi) == ps
  {
    if ps != [] {
      WithinAll(ps[1..], lo, hi);
    }
  }

  /** `is_power_of_two` accepts exactly the powers of two. */
  lemma {:induction false} PowersOfTwo(n: nat)
    ensures IsPowerOfTwo(n) <==> exists k: nat :: n == Power2(k)
  {
    assert Power2(0) == 1;
    if n == 1 {
      assert n == Power2(0);
    } else if n > 1 {
      PowersOfTwo(n / 2);
      if IsPowerOfTwo(n) {
        var k: nat :| n / 2 == Power2(k);
        assert n == Power2(k + 1);
      } else if k: nat :| n == Power2(k) {
        HalfOfPower(n, k);
      }
    }
  }

  lemma HalfOfPower(n: nat, k: nat)
    requires n > 1 && n == Power2(k)
    ensures n % 2 == 0 && exists j: nat :: n / 2 == Power2(j)
  {
    assert k > 0 && n / 2 == Power2(k - 1);
  }

  /** Which arguments are refused, and with which error: the length first, then the range. */
  lemma BoundsExactly(len: nat, start: nat, tail: nat)
    ensures ValidateBounds(len, start, tail) ==
      if !(exists k: nat :: len == Power2(k)) then Some(NonPowerOfTwoLength(len))
      else if start + tail >= len then Some(InvalidActiveRange(len, start, tail))
      else None
  {
    PowersOfTwo(len);
    hide IsPowerOfTwo, Power2;
    assert !IsPowerOfTwo(0) by {
      PowersOfTwo(0);
    }
  }

  lemma SectorLengthIsPowerOfTwo()
    ensures IsPowerOfTwo(SECTOR_LEN)
  {
    assert IsPowerOfTwo(8);
    assert IsPowerOfTwo(64);
  }

  // ---------------------------------------------------------------- key inversion

  /** On the cycle walked backwards, the member after `back[j]` is the one that precedes it forwards. */
  lemma BackwardNeighbours(cycle: seq<nat>, back: seq<nat>, j: nat)
    requires cycle != [] && back == [cycle[0]] + Reverse(cycle[1..]) && j < |cycle|
    ensures |back| == |cycle|
    ensures var i := |cycle| - 1 - j;
      && back[Following(|cycle|, j)] == cycle[i]
      && back[j] == cycle[Following(|cycle|, i)]
  {
  }

  lemma SeedsAdd(b: int, seed: int, seedBack: int, increment: int, i: nat, j: nat, n: nat)
    requires i + j == n
    ensures Wrap(Wrap(b + SeedAt(seed, increment, i)) + SeedAt(seedBack, increment, j)) == Wrap(b + seed + seedBack + n * increment)
  {
    SeedClosedForm(seed, increment, i);
    SeedClosedForm(seedBack, increment, j);
    hide SeedAt, Wrap;
    assert n * increment == i * increment + j * increment by {
      MulDistributes(i, j, increment);
    }
    WrapsAdd(b, seed + i * increment, seedBack + j * increment);
  }

  lemma WrapsAdd(b: int, x: int, y: int)
    ensures Wrap(Wrap(b + Wrap(x)) + Wrap(y)) == Wrap(b + x + y)
  {
    hide Wrap;
    WrapAdd(x, b);
    WrapAdd(b + x, Wrap(y));
    WrapAdd(y, b + x);
  }

  /** Two walks in opposite directions, one after the other, shift every active byte by one constant. */
  lemma ShiftThereAndBack(
      before: seq<Byte>, mid: seq<Byte>, after: seq<Byte>, cycle: seq<nat>, back: seq<nat>,
      seed: int, seedBack: int, increment: int, j: nat, steps: nat)
    requires |cycle| == steps + 1 && back == [cycle[0]] + Reverse(cycle[1..])
    requires ShiftedAlong(before, mid, cycle, seed, increment)
    requires ShiftedAlong(mid, after, back, seedBack, increment)
    requires j < |cycle|
    ensures after[back[j]] == Wrap(before[back[j]] + seed + seedBack + steps * increment)
  {
    hide *;
    BackwardNeighbours(cycle, back, j);
    var i := steps - j;
    ShiftedAt(before, mid, cycle, seed, increment, i);
    ShiftedAt(mid, after, back, seedBack, increment, j);
    SeedsAdd(before[back[j]], seed, seedBack, increment, i, j, steps);
  }

  lemma ShiftedAt(before: seq<Byte>, after: seq<Byte>, cycle: seq<nat>, seed: int, increment: int, j: nat)
    requires ShiftedAlong(before, after, cycle, seed, increment) && j < |cycle|
    ensures cycle[j] < |after| && cycle[Following(|cycle|, j)] < |before| == |after|
    ensures after[cycle[j]] == Wrap(before[cycle[Following(|cycle|, j)]] + SeedAt(seed, increment, j))
  {
    assert after[cycle[j]] == Shifted(before, cycle, seed, increment, j);
  }

  lemma SeedFactorValue(len: nat, boundary: nat)
    ensures SeedFactor(len, boundary) == Wrap(if len < 256 then boundary + 1 + len else boundary + 1)
  {
    WrapOfByte(0);
    hide Wrap;
    ThreeWraps(boundary, len);
  }

  lemma ThreeWraps(boundary: int, len: int)
    ensures Wrap(Wrap(Wrap(boundary) + 1) + Wrap(len)) == Wrap(boundary + 1 + len)
  {
    hide Wrap;
    WrapAdd(boundary, 1);
    WrapAdd(boundary + 1, Wrap(len));
    WrapAdd(len, boundary + 1);
  }

  lemma NegativeSeedValue(len: nat, start: nat, tail: nat, increment: Byte, low8: Byte)
    ensures var total := if len < 256 then start + tail + 1 + len else start + tail + 1;
      NegativeSeed(len, start, tail, increment, low8) == Wrap(increment * total - low8)
  {
    hide Wrap, SeedFactor;
    var total := if len < 256 then start + tail + 1 + len else start + tail + 1;
    SeedFactorValue(len, start + tail);
    WrapMul(increment, total);
    LessLow(increment * total, low8);
  }

  lemma LessLow(x: int, low: int)
    ensures Wrap(Wrap(x) - low) == Wrap(x - low)
  {
    WrapAdd(x, -low);
    hide Wrap;
  }

  lemma SeedSum(increment: int, low8: int, total: int, active: int, all: int)
    requires total + active == all
    ensures Wrap(low8 + Wrap(increment * total - low8) + active * increment) == Wrap(all * increment)
  {
    hide Wrap;
    MulDistributes(total, active, increment);
    SumOfSeeds(low8, increment * total, active * increment);
  }

  lemma SumOfSeeds(low: int, x: int, y: int)
    ensures Wrap(low + Wrap(x - low) + y) == Wrap(x + y)
  {
    WrapAdd(x - low, low + y);
    hide Wrap;
  }

  /**
   The seeds of opposite keys and the increments of the `span` members after the first add up to `2*len`
   increments, or `len` of them from 256 on.
   */
  lemma OppositeSeeds(len: nat, start: nat, tail: nat, key: I32, span: nat, turns: nat)
    requires 0 < key && start + tail + span + 1 == len
    requires turns == if len < 256 then 2 * len else len
    ensures Increment(-key) == Increment(key) && Low8(-key) == Low8(key) && Stride(-key) == -Stride(key)
    ensures Wrap(InitialSeed(len, start, tail, key) + InitialSeed(len, start, tail, -key) + span * Increment(key))
         == Wrap(turns * Increment(key))
  {
    OppositeKeyParts(key);
    hide Increment, Low8, Stride, Wrap, NegativeSeed;
    var total := if len < 256 then start + tail + 1 + len else start + tail + 1;
    NegativeSeedAt(len, start, tail, Increment(key), Low8(key), total);
    SeedSum(Increment(key), Low8(key), total, span, turns);
  }

  lemma NegativeSeedAt(len: nat, start: nat, tail: nat, increment: Byte, low8: Byte, total: nat)
    requires total == if len < 256 then start + tail + 1 + len else start + tail + 1
    ensures NegativeSeed(len, start, tail, increment, low8) == Wrap(increment * total - low8)
  {
    NegativeSeedValue(len, start, tail, increment, low8);
    hide Wrap, NegativeSeed;
  }

  lemma OppositeKeyParts(key: I32)
    requires 0 < key
    ensures Increment(-key) == Increment(key) && Low8(-key) == Low8(key) && Stride(-key) == -Stride(key)
  {
    hide SetLowBit;
  }

  /** The constant by which a key followed by its opposite displaces an active byte. */
  function Displacement(len: nat, key: I32): Byte {
    Wrap(2 * len * Increment(key))
  }

  /** `after` is `before` with `displacement` added to every byte at `lo..=hi`. */
  ghost predicate Displaced(before: seq<Byte>, after: seq<Byte>, lo: nat, hi: nat, displacement: Byte) {
    && |after| == |before|
    && forall p :: 0 <= p < |before| ==>
         after[p] == if lo <= p <= hi then Wrap(before[p] + displacement) else before[p]
  }

  lemma {:induction false} PowerOfTwoParts(len: nat)
    requires IsPowerOfTwo(len)
    ensures len >= 256 ==> len % 256 == 0
    ensures len < 256 ==> len in {1, 2, 4, 8, 16, 32, 64, 128}
  {
    if len > 1 {
      PowerOfTwoParts(len / 2);
    }
  }

  /** An odd multiple of `x` vanishes as a byte exactly when `x` does. */
  lemma OddMultiple(x: int, increment: int)
    requires increment % 2 == 1
    ensures Wrap(x * increment) == 0 <==> Wrap(x) == 0
  {
    if Wrap(x * increment) == 0 {
      assert IsPowerOfTwo(32) && IsPowerOfTwo(256);
      OddCancels(256, increment, x);
    } else {
      WrapMul(increment, x);
      assert Wrap(x) != 0 by {
        assert increment * x == x * increment;
      }
    }
  }

  lemma TwiceIsWholeByte(len: nat)
    requires len >= 256 ==> len % 256 == 0
    requires len < 256 ==> len in {1, 2, 4, 8, 16, 32, 64, 128}
    ensures Wrap(2 * len) == 0 <==> len >= 128
  {
  }

  /** From 128 bytes on nothing is displaced, and below that everything is. */
  lemma DisplacementIsZero(len: nat, increment: int)
    requires IsPowerOfTwo(len) && increment % 2 == 1
    ensures Wrap(2 * len * increment) == 0 <==> len >= 128
    ensures len >= 256 ==> Wrap(len * increment) == 0
  {
    PowerOfTwoParts(len);
    TwiceIsWholeByte(len);
    OddMultiple(2 * len, increment);
    if len >= 256 {
      OddMultiple(len, increment);
    }
  }

  /** The seeds and the length of the cycle add up to the displacement, whichever of the two keys came first. */
  lemma SeedsGiveDisplacement(len: nat, start: nat, tail: nat, key: I32, span: nat)
    requires IsPowerOfTwo(len) && start + tail + span + 1 == len && key != 0 && key != -0x8000_0000
    ensures Increment(-key) == Increment(key) && Stride(-key) == -Stride(key)
    ensures Wrap(InitialSeed(len, start, tail, key) + InitialSeed(len, start, tail, -key) + span * Increment(key))
         == Displacement(len, key)
  {
    hide Increment, Stride, InitialSeed, Low8, Wrap, IsPowerOfTwo;
    var turns := if len < 256 then 2 * len else len;
    OppositeSeeds(len, start, tail, if key > 0 then key else -key, span, turns);
    WholeTurns(len, Increment(key), turns);
  }

  lemma WholeTurns(len: nat, increment: int, turns: nat)
    requires IsPowerOfTwo(len) && increment % 2 == 1 && turns == if len < 256 then 2 * len else len
    ensures Wrap(turns * increment) == Wrap(2 * len * increment)
  {
    DisplacementIsZero(len, increment);
    hide Wrap, IsPowerOfTwo;
  }

  /** Opposite walks over the whole range `lo..=hi` displace exactly that range. */
  lemma RangeDisplaced(
      before: seq<Byte>, mid: seq<Byte>, after: seq<Byte>, cycle: seq<nat>, back: seq<nat>, lo: nat, hi: nat,
      seed: int, seedBack: int, increment: int, steps: nat, displacement: Byte)
    requires |cycle| == steps + 1 && back == [cycle[0]] + Reverse(cycle[1..])
    requires ShiftedAlong(before, mid, cycle, seed, increment)
    requires ShiftedAlong(mid, after, back, seedBack, increment)
    requires forall p :: p in cycle <==> lo <= p <= hi
    requires forall p :: p in back <==> lo <= p <= hi
    requires Wrap(seed + seedBack + steps * increment) == displacement
    ensures Displaced(before, after, lo, hi, displacement)
  {
    assert forall p: nat :: p < |before| && p !in back ==> mid[p] == before[p];
    forall p: nat | p < |before| && lo <= p <= hi
      ensures after[p] == Wrap(before[p] + displacement)
    {
      assert p in back;
      var j :| 0 <= j < |back| && back[j] == p;
      ShiftThereAndBack(before, mid, after, cycle, back, seed, seedBack, increment, j, steps);
      WrapAdd(seed + seedBack + steps * increment, before[p]);
      hide Wrap, ShiftedAlong;
    }
    hide Wrap, Shifted;
  }

  lemma DisplacedEquals(before: seq<Byte>, after: seq<Byte>, lo: nat, hi: nat, displacement: Byte)
    requires lo <= hi < |before| && Displaced(before, after, lo, hi, displacement)
    ensures after == before <==> displacement == 0
  {
    assert after[lo] == before[lo] <==> displacement == 0;
  }

  /** Opposite walks over the same range displace it by their two seeds and one increment per remaining member. */
  lemma OppositeWalks(
      before: seq<Byte>, mid: seq<Byte>, after: seq<Byte>, start: nat, end: nat, stride: int,
      seed: int, seedBack: int, increment: int, span: nat, displacement: Byte)
    requires IsPowerOfTwo(|before|) && stride % 2 == 1 && start + span == end < |before|
    requires ShiftedAlong(before, mid, Cycle(|before|, start, end, stride), seed, increment)
    requires ShiftedAlong(mid, after, Cycle(|before|, start, end, -stride), seedBack, increment)
    requires Wrap(seed + seedBack + span * increment) == displacement
    ensures Displaced(before, after, start, end, displacement)
  {
    hide Cycle, ShiftedAlong, Displaced, IsPowerOfTwo, Distinct, Wrap;
    var cycle, back := Cycle(|before|, start, end, stride), Cycle(|before|, start, end, -stride);
    SingleCycle(|before|, start, end, stride);
    SingleCycle(|before|, start, end, -stride);
    OppositeCycle(|before|, start, end, stride);
    RangeDisplaced(before, mid, after, cycle, back, start, end, seed, seedBack, increment, span, displacement);
  }

  lemma NonzeroKeyDisplaces(before: seq<Byte>, mid: seq<Byte>, after: seq<Byte>, start: nat, tail: nat, key: I32)
    requires key != 0 && key != -0x8000_0000
    requires ValidateBounds(|before|, start, tail).None?
    requires Permuted(before, mid, start, tail, key)
    requires |mid| == |before| && Permuted(mid, after, start, tail, -key)
    ensures Displaced(before, after, start, |before| - 1 - tail, Displacement(|before|, key))
  {
    hide Increment, Stride, InitialSeed, Displacement, Cycle, ShiftedAlong;
    var len := |before|;
    var end := len - 1 - tail;
    var span: nat := end - start;
    SeedsGiveDisplacement(len, start, tail, key, span);
    OppositeWalks(before, mid, after, start, end, Stride(key),
      InitialSeed(len, start, tail, key), InitialSeed(len, start, tail, -key), Increment(key), span, Displacement(len, key));
  }

  /**
   Key inversion: a key and then its opposite, in either order, add the same constant to every
   active byte and touch nothing else. The constant is `2 * len * increment` modulo 256, so the
   bytes come back exactly when the buffer has at least 128 of them or the key is zero.
   */
  lemma KeyInversion(before: seq<Byte>, mid: seq<Byte>, after: seq<Byte>, start: nat, tail: nat, key: I32)
    requires key != -0x8000_0000
    requires ValidateBounds(|before|, start, tail).None?
    requires Permuted(before, mid, start, tail, key)
    requires |mid| == |before| && Permuted(mid, after, start, tail, -key)
    ensures Displaced(before, after, start, |before| - 1 - tail, if key == 0 then 0 else Displacement(|before|, key))
    ensures after == before <==> key == 0 || |before| >= 128
  {
    if key != 0 {
      NonzeroKeyDisplaces(before, mid, after, start, tail, key);
      DisplacementIsZero(|before|, Increment(key));
      DisplacedEquals(before, after, start, |before| - 1 - tail, Displacement(|before|, key));
    }
  }
}
