/** How often a byte occurs in a sequence, and the most frequent one. */
module ByteCounts {
  import opened Bytes

  function Count(s: seq<Byte>, v: Byte): (n: nat)
    ensures n <= |s|
  {
    if s == [] then 0 else Count(s[..|s| - 1], v) + (if s[|s| - 1] == v then 1 else 0)
  }

  lemma {:induction false} CountIsMultiplicity(s: seq<Byte>, v: Byte)
    ensures Count(s, v) == multiset(s)[v]
  {
    if s != [] {
      CountIsMultiplicity(s[..|s| - 1], v);
      assert s == s[..|s| - 1] + [s[|s| - 1]];
    }
  }

  lemma CountAppend(s: seq<Byte>, x: Byte, v: Byte)
    ensures Count(s + [x], v) == Count(s, v) + (if x == v then 1 else 0)
  {
    assert (s + [x])[..|s|] == s;
  }

  lemma CountsOfNone()
    ensures forall v: Byte :: Count([], v) == 0
  {
  }

  /** The counts of a prefix, one byte further. */
  lemma CountsOfNext(s: seq<Byte>, i: nat)
    requires i < |s|
    ensures forall v: Byte :: Count(s[..i + 1], v) == Count(s[..i], v) + (if s[i] == v then 1 else 0)
  {
    assert s[..i + 1] == s[..i] + [s[i]];
    forall v: Byte
      ensures Count(s[..i + 1], v) == Count(s[..i], v) + (if s[i] == v then 1 else 0)
    {
      CountAppend(s[..i], s[i], v);
    }
  }

  lemma {:induction false} CountAll(s: seq<Byte>, v: Byte)
    ensures Count(s, v) == |s| <==> forall i :: 0 <= i < |s| ==> s[i] == v
  {
    if s != [] {
      var n := |s| - 1;
      CountAll(s[..n], v);
      assert (forall i :: 0 <= i < |s| ==> s[i] == v) <==> s[n] == v && forall i :: 0 <= i < n ==> s[..n][i] == v;
    }
  }

  /** Two different bytes share the places of a sequence. */
  lemma {:induction false} CountsExclude(s: seq<Byte>, v: Byte, w: Byte)
    requires v != w
    ensures Count(s, v) + Count(s, w) <= |s|
  {
    if s != [] {
      CountsExclude(s[..|s| - 1], v, w);
    }
  }

  lemma ShiftedEqual(x: Byte, v: Byte, e: int)
    ensures Wrap(x - e) == v <==> x == Wrap(v + e)
  {
  }

  /** Subtracting a constant from every byte moves every count by that constant. */
  lemma {:induction false} CountShift(s: seq<Byte>, t: seq<Byte>, e: int, v: Byte)
    requires |t| == |s| && forall i :: 0 <= i < |s| ==> t[i] == Wrap(s[i] - e)
    ensures Count(t, v) == Count(s, Wrap(v + e))
  {
    if s != [] {
      var n := |s| - 1;
      CountShift(s[..n], t[..n], e, v);
      ShiftedEqual(s[n], v, e);
    }
  }

  /** The largest number of occurrences of a byte below `n`. */
  function PeakBelow(s: seq<Byte>, n: nat): nat
    requires n <= 256
  {
    if n == 0 then 0
    else if Count(s, n - 1) > PeakBelow(s, n - 1) then Count(s, n - 1) else PeakBelow(s, n - 1)
  }

  function Peak(s: seq<Byte>): nat {
    PeakBelow(s, 256)
  }

  lemma {:induction false} PeakBelowBounds(s: seq<Byte>, n: nat, v: Byte)
    requires v < n <= 256
    ensures Count(s, v) <= PeakBelow(s, n)
  {
    if v < n - 1 {
      PeakBelowBounds(s, n - 1, v);
    }
  }

  lemma {:induction false} PeakBelowAttained(s: seq<Byte>, n: nat) returns (v: Byte)
    requires n <= 256
    ensures n == 0 ==> PeakBelow(s, n) == 0
    ensures n > 0 ==> v < n && Count(s, v) == PeakBelow(s, n)
  {
    v := 0;
    if n > 1 {
      v := PeakBelowAttained(s, n - 1);
      if Count(s, n - 1) > PeakBelow(s, n - 1) {
        v := n - 1;
      }
    }
  }

  /** The peak is the count of some byte, and no byte occurs more often. */
  lemma PeakIsMaximum(s: seq<Byte>) returns (v: Byte)
    ensures Count(s, v) == Peak(s)
    ensures forall w: Byte :: Count(s, w) <= Peak(s)
  {
    v := PeakBelowAttained(s, 256);
    forall w: Byte
      ensures Count(s, w) <= Peak(s)
    {
      PeakBelowBounds(s, 256, w);
    }
  }

  /** A most frequent byte, the largest of them: what `max_by_key` returns on a histogram. */
  ghost predicate IsLastMode(s: seq<Byte>, v: Byte) {
    forall w: Byte :: Count(s, w) <= Count(s, v) && (w > v ==> Count(s, w) < Count(s, v))
  }

  /** `Some` most frequent byte of a sequence that repeats only one byte is that byte. */
  lemma ConstantLastMode(s: seq<Byte>, c: Byte, v: Byte)
    requires s != [] && (forall i :: 0 <= i < |s| ==> s[i] == c) && IsLastMode(s, v)
    ensures v == c
  {
    CountAll(s, c);
    assert Count(s, c) <= Count(s, v);
    if v != c {
      CountsExclude(s, c, v);
    }
  }
}

/** Recovery of the additive keystream that obfuscates page bodies (`ap.rs`). */
module ApStream {
  import opened Wrappers
  import opened Bytes
  import opened ByteCounts

  const PAGE_SIZE := 4096
  const SECTOR_SIZE := 512
  const SECTORS_PER_PAGE := 8
  const TRAILER_START := 0xFF0

  /** `'@'`, `'C'`, `'H'` and `'M'` pages. */
  const PURE_AP_TYPES: set<Byte> := {0x40, 0x43, 0x48, 0x4D}

  // ---------------------------------------------------------------- stream arithmetic

  /** The calibration bias of a page: four for every two pages within its block of sixteen. */
  function Bias(pn: nat): nat {
    pn % 16 / 2 * 4
  }

  function ApBase(pn: nat, si: nat, bv: Byte): Byte {
    WrappingSub(WrappingAdd(WrappingAdd(bv, Wrap(pn)), Wrap(si)), Bias(pn))
  }

  /** The base without its calibration byte. */
  function ScoreOffset(pn: nat, si: nat): Byte {
    WrappingSub(WrappingAdd(Wrap(pn), Wrap(si)), Bias(pn))
  }

  /** The keystream byte at index `i` of a sector. */
  function Fill(base: Byte, step: Byte, i: nat): Byte {
    WrappingAdd(base, WrappingMul(Wrap(i), step))
  }

  /** One stored byte with its keystream byte removed. */
  function Strip(stored: Byte, base: Byte, step: Byte, i: nat): Byte {
    WrappingSub(WrappingSub(stored, base), WrappingMul(Wrap(i), step))
  }

  function Plain(sec: seq<Byte>, base: Byte, step: Byte): (p: seq<Byte>)
    ensures |p| == |sec|
  {
    seq(|sec|, i requires 0 <= i < |sec| => Strip(sec[i], base, step, i))
  }

  lemma StripIsSubtraction(stored: Byte, base: Byte, step: Byte, i: nat)
    ensures Strip(stored, base, step, i) == Wrap(stored - base - i * step)
  {
    WrapMul(step, i);
    assert Wrap(i) * step == step * Wrap(i) && step * i == i * step;
    SubtractWrapped(stored, base, Wrap(i) * step, i * step);
  }

  lemma SubtractWrapped(stored: int, base: int, k: int, exact: int)
    requires Wrap(k) == Wrap(exact)
    ensures Wrap(Wrap(stored - base) - Wrap(k)) == Wrap(stored - base - exact)
  {
  }

  lemma AddThenStrip(base: int, k: int, plain: Byte)
    ensures Wrap(Wrap(Wrap(Wrap(base + k) + plain) - base) - k) == plain
  {
    WrapAdd(base + k, plain);
    WrapAdd(base + k + plain, -base);
    WrapAdd(k + plain, -k);
    assert Wrap(plain) == plain;
    hide Wrap;
  }

  lemma SubtractThenAdd(base: int, k: int, stored: Byte)
    ensures Wrap(Wrap(base + k) + Wrap(Wrap(stored - base) - k)) == stored
  {
    hide Wrap;
    WrapAdd(stored - base, -k);
    WrapAdd(base + k, Wrap(stored - base - k));
    WrapAdd(stored - base - k, base + k);
    WrapOfByte(stored);
  }

  /** Removing the keystream undoes adding it. */
  lemma StripUndoesFill(base: Byte, step: Byte, i: nat, plain: Byte)
    ensures Strip(WrappingAdd(Fill(base, step, i), plain), base, step, i) == plain
  {
    hide WrappingMul, Wrap;
    AddThenStrip(base, WrappingMul(Wrap(i), step), plain);
  }

  /** Adding the keystream undoes removing it. */
  lemma FillUndoesStrip(stored: Byte, base: Byte, step: Byte, i: nat)
    ensures WrappingAdd(Fill(base, step, i), Strip(stored, base, step, i)) == stored
  {
    hide WrappingMul, Wrap;
    SubtractThenAdd(base, WrappingMul(Wrap(i), step), stored);
  }

  // ---------------------------------------------------------------- a wrong step

  /** Positions before `n` at which `a` holds `v` and `b` holds `w`. */
  ghost function CountBoth(a: seq<Byte>, b: seq<Byte>, v: Byte, w: Byte, n: nat): nat
    requires n <= |a| == |b|
  {
    if n == 0 then 0
    else CountBoth(a, b, v, w, n - 1) + (if a[n - 1] == v && b[n - 1] == w then 1 else 0)
  }

  lemma {:induction false} CountsOverlap(a: seq<Byte>, b: seq<Byte>, v: Byte, w: Byte, n: nat)
    requires n <= |a| == |b|
    ensures Count(a[..n], v) + Count(b[..n], w) <= n + CountBoth(a, b, v, w, n)
  {
    if n > 0 {
      CountsOverlap(a, b, v, w, n - 1);
      assert a[..n][..n - 1] == a[..n - 1] && b[..n][..n - 1] == b[..n - 1];
    }
  }

  lemma {:induction false} NoAdjacentBoth(a: seq<Byte>, b: seq<Byte>, v: Byte, w: Byte, n: nat)
    requires n <= |a| == |b|
    requires forall i :: 0 <= i < |a| - 1 ==> !(a[i] == v && b[i] == w && a[i + 1] == v && b[i + 1] == w)
    ensures CountBoth(a, b, v, w, n) <= (n + 1) / 2
  {
    if n > 1 {
      NoAdjacentBoth(a, b, v, w, n - 2);
      assert !(a[n - 2] == v && b[n - 2] == w && a[n - 2 + 1] == v && b[n - 2 + 1] == w);
    }
  }

  /** A nonzero step error moves two neighbouring plaintext bytes apart. */
  lemma NeighboursDisagree(s0: Byte, s1: Byte, base: Byte, step: Byte, wrong: Byte, i: nat)
    requires step != wrong
    requires Strip(s0, base, step, i) == Strip(s1, base, step, i + 1)
    ensures Strip(s0, base, wrong, i) != Strip(s1, base, wrong, i + 1)
  {
    var x := StripPair(s0, s1, base, step, i);
    var y := StripPair(s0, s1, base, wrong, i);
    hide Strip;
    var b0, b1: int := s0 - base, s1 - base;
    NoTwoSteps(b0, b1, x, y, step, wrong);
  }

  /** Two neighbouring bytes stripped, for some multiple of the step. */
  lemma StripPair(s0: Byte, s1: Byte, base: Byte, step: Byte, i: nat) returns (k: int)
    ensures Strip(s0, base, step, i) == Wrap(s0 - base - k) && Strip(s1, base, step, i + 1) == Wrap(s1 - base - (k + step))
  {
    hide Strip, Wrap;
    k := i * step;
    OneMoreStep(i, step);
    StripAt(s0, base, step, i, k);
    StripAt(s1, base, step, i + 1, k + step);
  }

  lemma OneMoreStep(i: int, step: int)
    ensures (i + 1) * step == i * step + step
  {
  }

  lemma StripAt(stored: Byte, base: Byte, step: Byte, i: nat, k: int)
    requires k == i * step
    ensures Strip(stored, base, step, i) == Wrap(stored - base - k)
  {
    StripIsSubtraction(stored, base, step, i);
    hide Strip, Wrap;
  }

  lemma NoTwoSteps(b0: int, b1: int, x: int, y: int, step: Byte, wrong: Byte)
    requires step != wrong && Wrap(b0 - x) == Wrap(b1 - (x + step))
    ensures Wrap(b0 - y) != Wrap(b1 - (y + wrong))
  {
  }

  /**
   Under a wrong step, a byte can explain at most half of the places where the right step shows
   one constant byte, so the two counts together stay below one and a half sectors.
   */
  lemma WrongStepExplainsHalf(sec: seq<Byte>, base: Byte, step: Byte, wrong: Byte, v: Byte, w: Byte)
    requires step != wrong
    ensures Count(Plain(sec, base, step), v) + Count(Plain(sec, base, wrong), w) <= |sec| + (|sec| + 1) / 2
  {
    hide Strip;
    var a, b := Plain(sec, base, step), Plain(sec, base, wrong);
    forall i | 0 <= i < |sec| - 1
      ensures !(a[i] == v && b[i] == w && a[i + 1] == v && b[i + 1] == w)
    {
      if a[i] == v && a[i + 1] == v {
        NeighboursDisagree(sec[i], sec[i + 1], base, step, wrong, i);
      }
    }
    CountsOverlap(a, b, v, w, |sec|);
    NoAdjacentBoth(a, b, v, w, |sec|);
    assert a[..|sec|] == a && b[..|sec|] == b;
  }

  /** `v` fills so much of the sector, decoded with `step`, that no other step can compete. */
  ghost predicate Dominates(sec: seq<Byte>, base: Byte, step: Byte, v: Byte) {
    2 * Count(Plain(sec, base, step), v) > |sec| + (|sec| + 1) / 2
  }

  /** A dominant byte beats every other byte under its step and every byte under every other step. */
  lemma DominantBeatsAll(sec: seq<Byte>, base: Byte, step: Byte, v: Byte, other: Byte, w: Byte)
    requires Dominates(sec, base, step, v) && (other != step || w != v)
    ensures Count(Plain(sec, base, other), w) < Count(Plain(sec, base, step), v)
  {
    if other != step {
      WrongStepExplainsHalf(sec, base, step, other, v, w);
    } else {
      CountsExclude(Plain(sec, base, step), v, w);
    }
  }

  lemma DominantPeak(sec: seq<Byte>, base: Byte, step: Byte, v: Byte, other: Byte)
    requires Dominates(sec, base, step, v)
    ensures Peak(Plain(sec, base, step)) == Count(Plain(sec, base, step), v)
    ensures other != step ==> Peak(Plain(sec, base, other)) < Peak(Plain(sec, base, step))
  {
    var w := PeakIsMaximum(Plain(sec, base, other));
    var u := PeakIsMaximum(Plain(sec, base, step));
    if u != v {
      DominantBeatsAll(sec, base, step, v, step, u);
    }
    if other != step {
      DominantBeatsAll(sec, base, step, v, other, w);
    }
  }

  // ---------------------------------------------------------------- step search

  /** What the step search reports about one sector. */
  datatype SectorEvidence = SectorEvidence(
    sectorIndex: nat, chosenStep: Byte, bestPeak: nat, runnerUpPeak: nat, bestPeakTied: bool,
    zeroPlaintextCount: nat, zeroPlaintextFraction: Option<real>, plaintextPeakFraction: Option<real>, sectorByteCount: nat)

  /** A fraction of a sector as an exact ratio; an empty sector has none. */
  function Fraction(count: nat, len: nat): Option<real> {
    if len == 0 then None else Some(count as real / len as real)
  }

  /** The plaintext-histogram peak that a candidate step produces. */
  function StepPeak(sec: seq<Byte>, base: Byte, step: Byte): nat {
    Peak(Plain(sec, base, step))
  }

  /**
   The report is exact: the least step with the largest peak, the largest peak of all the other
   steps, a tie flag that compares the two, and the zero count under the chosen step.
   */
  ghost predicate ExactEvidence(sec: seq<Byte>, base: Byte, si: nat, e: SectorEvidence) {
    && e.sectorIndex == si
    && e.sectorByteCount == |sec|
    && e.bestPeak == StepPeak(sec, base, e.chosenStep)
    && (forall s: Byte :: StepPeak(sec, base, s) <= e.bestPeak)
    && (forall s: Byte :: s < e.chosenStep ==> StepPeak(sec, base, s) < e.bestPeak)
    && (forall s: Byte :: s != e.chosenStep ==> StepPeak(sec, base, s) <= e.runnerUpPeak)
    && (exists s: Byte :: s != e.chosenStep && StepPeak(sec, base, s) == e.runnerUpPeak)
    && (e.bestPeakTied <==> e.runnerUpPeak == e.bestPeak)
    && e.zeroPlaintextCount == Count(Plain(sec, base, e.chosenStep), 0)
    && (if |sec| == 0 then e.zeroPlaintextFraction == e.plaintextPeakFraction == None
        else
          && e.zeroPlaintextFraction == Some(e.zeroPlaintextCount as real / |sec| as real)
          && e.plaintextPeakFraction == Some(e.bestPeak as real / |sec| as real))
  }

  /** Exactness leaves no freedom: one sector and base have one report. */
  lemma EvidenceUnique(sec: seq<Byte>, base: Byte, si: nat, e: SectorEvidence, f: SectorEvidence)
    requires ExactEvidence(sec, base, si, e) && ExactEvidence(sec, base, si, f)
    ensures e == f
  {
    hide StepPeak;
    assert StepPeak(sec, base, f.chosenStep) <= e.bestPeak && StepPeak(sec, base, e.chosenStep) <= f.bestPeak;
    assert e.chosenStep == f.chosenStep;
    var s: Byte :| s != e.chosenStep && StepPeak(sec, base, s) == e.runnerUpPeak;
    var t: Byte :| t != f.chosenStep && StepPeak(sec, base, t) == f.runnerUpPeak;
    assert StepPeak(sec, base, s) <= f.runnerUpPeak && StepPeak(sec, base, t) <= e.runnerUpPeak;
  }

  /** The histogram filled by every search of this file: how often each plaintext byte occurs. */
  method PlaintextHistogram(sec: seq<Byte>, base: Byte, step: Byte) returns (hist: array<nat>)
    ensures fresh(hist) && hist.Length == 256
    ensures forall v: Byte :: hist[v] == Count(Plain(sec, base, step), v)
  {
    hide Count, Strip;
    CountsOfNone();
    hist := new nat[256](_ => 0);
    ghost var plain := Plain(sec, base, step);
    for i := 0 to |sec|
      invariant forall v: Byte :: hist[v] == Count(plain[..i], v)
    {
      var p := Strip(sec[i], base, step, i);
      CountsOfNext(plain, i);
      hist[p] := hist[p] + 1;
    }
    assert plain[..|sec|] == plain;
  }

  method LargestEntry(hist: array<nat>, ghost s: seq<Byte>) returns (peak: nat)
    requires hist.Length == 256 && forall v: Byte :: hist[v] == Count(s, v)
    ensures peak == Peak(s)
  {
    peak := 0;
    for n := 0 to 256
      invariant peak == PeakBelow(s, n)
    {
      assert hist[n] == Count(s, n);
      if hist[n] > peak {
        peak := hist[n];
      }
    }
  }

  /** The index of the largest entry, the last among equals (`max_by_key`). */
  method LastLargest(entries: array<nat>) returns (v: Byte)
    requires entries.Length == 256
    ensures forall w: Byte :: entries[w] <= entries[v] && (w > v ==> entries[w] < entries[v])
  {
    v := 0;
    for n := 1 to 256
      invariant v < n
      invariant forall w: Byte :: w < n ==> entries[w] <= entries[v] && (w > v ==> entries[w] < entries[v])
    {
      if entries[n] >= entries[v] {
        v := n;
      }
    }
  }

  method LastLargestIndex(hist: array<nat>, ghost s: seq<Byte>) returns (v: Byte)
    requires hist.Length == 256 && forall w: Byte :: hist[w] == Count(s, w)
    ensures IsLastMode(s, v)
  {
    hide Count;
    v := LastLargest(hist);
  }

  method RecoverStepConfidence(sec: seq<Byte>, base: Byte, si: nat) returns (e: SectorEvidence)
    ensures ExactEvidence(sec, base, si, e)
  {
    hide Plain, Peak;
    var bestStep: Byte := 0;
    var bestCount, runnerUpCount := 0, 0;
    var bestPeakTied := false;
    for step := 0 to 256
      invariant step == 0 ==> bestCount == runnerUpCount == 0 && bestStep == 0
      invariant step > 0 ==> bestStep < step && bestCount == StepPeak(sec, base, bestStep)
      invariant forall s: Byte :: s < step ==> StepPeak(sec, base, s) <= bestCount
      invariant forall s: Byte :: s < bestStep ==> StepPeak(sec, base, s) < bestCount
      invariant forall s: Byte :: s < step && s != bestStep ==> StepPeak(sec, base, s) <= runnerUpCount
      invariant step == 1 ==> runnerUpCount == 0
      invariant step >= 2 ==> exists s: Byte :: s < step && s != bestStep && StepPeak(sec, base, s) == runnerUpCount
      invariant step > 0 ==> (bestPeakTied <==> runnerUpCount == bestCount)
    {
      var hist := PlaintextHistogram(sec, base, step);
      var peak := LargestEntry(hist, Plain(sec, base, step));
      assert peak == StepPeak(sec, base, step);
      if peak > bestCount {
        runnerUpCount := bestCount;
        bestCount := peak;
        bestStep := step;
        bestPeakTied := false;
      } else {
        runnerUpCount := if peak > runnerUpCount then peak else runnerUpCount;
        if peak == bestCount {
          bestPeakTied := true;
        }
      }
    }
    var chosen := PlaintextHistogram(sec, base, bestStep);
    e := SectorEvidence(si, bestStep, bestCount, runnerUpCount, bestPeakTied, chosen[0],
                        Fraction(chosen[0], |sec|), Fraction(bestCount, |sec|), |sec|);
  }

  /** A dominant byte is enough for the search to find the step that shows it, without a tie. */
  lemma DominantStepChosen(sec: seq<Byte>, base: Byte, step: Byte, v: Byte, si: nat, e: SectorEvidence)
    requires Dominates(sec, base, step, v) && ExactEvidence(sec, base, si, e)
    ensures e.chosenStep == step && !e.bestPeakTied && e.bestPeak == Count(Plain(sec, base, step), v)
  {
    hide Plain, Peak, Dominates;
    DominantPeak(sec, base, step, v, e.chosenStep);
    var s: Byte :| s != e.chosenStep && StepPeak(sec, base, s) == e.runnerUpPeak;
    DominantPeak(sec, base, step, v, s);
    assert StepPeak(sec, base, step) <= e.bestPeak;
  }
}
