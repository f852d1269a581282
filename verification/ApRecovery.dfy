/** What the AP recovery of `ap.rs` guarantees, although it is a search that the code itself calls a heuristic. */
module ApRecovery {
  import opened Wrappers
  import opened Bytes
  import opened ByteCounts
  import opened ApStream
  import opened ApModel

  // ---------------------------------------------------------------- pure sectors

  /** A pure sector is constant under its own step. */
  lemma PureIsConstant(sec: seq<Byte>, from: Byte, base: Byte, step: Byte)
    requires IsPure(sec, from, step)
    ensures Count(Plain(sec, base, step), Wrap(from - base)) == |sec|
  {
    hide Strip, Fill;
    forall i | 0 <= i < |sec|
      ensures Plain(sec, base, step)[i] == Wrap(from - base)
    {
      StripOfFill(from, base, step, i);
    }
    CountAll(Plain(sec, base, step), Wrap(from - base));
  }

  /** A sector dominated by zero plaintext can be pure only with its true base and step. */
  lemma PureMustBeTrue(sec: seq<Byte>, base: Byte, step: Byte, otherBase: Byte, otherStep: Byte)
    requires sec != [] && Dominates(sec, base, step, 0) && IsPure(sec, otherBase, otherStep)
    ensures otherStep == step && otherBase == base
  {
    hide Dominates, Plain, IsPure;
    PureIsConstant(sec, otherBase, base, otherStep);
    if otherStep != step || Wrap(otherBase - base) != 0 {
      DominantBeatsAll(sec, base, step, 0, otherStep, Wrap(otherBase - base));
    }
  }

  // ---------------------------------------------------------------- a page that is mostly zero

  /** More than three quarters of the bytes of every sector are zero. */
  ghost predicate MostlyZero(plain: seq<Byte>)
    requires |plain| >= PAGE_SIZE
  {
    forall si :: 0 <= si < SECTORS_PER_PAGE ==> 4 * Count(Sector(plain, si), 0) > 3 * |Sector(plain, si)|
  }

  lemma ZeroDominates(plain: seq<Byte>, pn: nat, bv: Byte, steps: seq<Byte>, si: nat)
    requires |plain| == PAGE_SIZE && |steps| == SECTORS_PER_PAGE && MostlyZero(plain) && si < SECTORS_PER_PAGE
    ensures Dominates(Sector(Obfuscate(plain, pn, bv, steps), si), ApBase(pn, si, bv), steps[si], 0)
  {
    hide Plain, ApBase, Obfuscate, Count;
    SectorDecodes(plain, pn, bv, steps, si);
    assert 4 * Count(Sector(plain, si), 0) > 3 * |Sector(plain, si)|;
  }

  lemma {:induction false} SomeSectorVotes(page: seq<Byte>, pn: nat, b: Byte, n: nat) returns (si: nat)
    requires |page| >= PAGE_SIZE && n <= SECTORS_PER_PAGE && VotesFor(page, pn, b, n) > 0
    ensures si < n && VoteOf(page, pn, si) == Some(b)
  {
    hide VoteOf;
    si := n - 1;
    if VoteOf(page, pn, n - 1) != Some(b) {
      si := SomeSectorVotes(page, pn, b, n - 1);
    }
  }

  /** On such a page every vote is for the true calibration byte. */
  lemma VoteIsTrue(plain: seq<Byte>, pn: nat, bv: Byte, steps: seq<Byte>, si: nat, b: Byte)
    requires |plain| == PAGE_SIZE && |steps| == SECTORS_PER_PAGE && MostlyZero(plain) && si < SECTORS_PER_PAGE
    requires VoteOf(Obfuscate(plain, pn, bv, steps), pn, si) == Some(b)
    ensures b == bv
  {
    var page := Obfuscate(plain, pn, bv, steps);
    hide Obfuscate, MostlyZero, Dominates, IsPure, BvOfBase, ApBase, Sector, VoteOf;
    VotesExactlyWhenPure(page, pn, si, b);
    var base: Byte, step: Byte :| IsPure(Sector(page, si), base, step) && b == BvOfBase(pn, si, base);
    ZeroDominates(plain, pn, bv, steps, si);
    PureMustBeTrue(Sector(page, si), ApBase(pn, si, bv), steps[si], base, step);
    BvOfApBase(pn, si, bv, base);
  }

  /** So the direct learner cannot be wrong, however it chooses among equal votes. */
  lemma LearnedIsTrue(plain: seq<Byte>, pn: nat, bv: Byte, steps: seq<Byte>, ptype: Byte, r: Option<Byte>)
    requires |plain| == PAGE_SIZE && |steps| == SECTORS_PER_PAGE && MostlyZero(plain)
    requires Learned(Obfuscate(plain, pn, bv, steps), pn, ptype, r)
    ensures r == None || r == Some(bv)
  {
    hide Obfuscate, MostlyZero, VotesFor;
    if r.Some? {
      var page := Obfuscate(plain, pn, bv, steps);
      assert exists b: Byte :: VotesFor(page, pn, b, SECTORS_PER_PAGE) != 0;
      var si := SomeSectorVotes(page, pn, r.value, SECTORS_PER_PAGE);
      VoteIsTrue(plain, pn, bv, steps, si, r.value);
    }
  }

  // ---------------------------------------------------------------- the brute-force score

  /** Moving the base by `e` moves every stripped byte by `-e`. */
  lemma StripShift(stored: Byte, base: int, e: int, step: Byte, i: nat)
    ensures Strip(stored, Wrap(base + e), step, i) == Wrap(Strip(stored, Wrap(base), step, i) - e)
  {
    hide Wrap;
    ShiftLinear(stored, base, e, WrappingMul(Wrap(i), step));
  }

  lemma ShiftLinear(stored: int, base: int, e: int, k: int)
    ensures Wrap(Wrap(stored - Wrap(base + e)) - k) == Wrap(Wrap(Wrap(stored - Wrap(base)) - k) - e)
  {
    hide Wrap;
    WrapMinus(stored, base + e);
    WrapAdd(stored - base - e, -k);
    WrapMinus(stored, base);
    WrapAdd(stored - base, -k);
    WrapAdd(stored - base - k, -e);
  }

  lemma PlainShift(sec: seq<Byte>, base: int, e: int, step: Byte, v: Byte)
    ensures Count(Plain(sec, Wrap(base + e), step), v) == Count(Plain(sec, Wrap(base), step), Wrap(v + e))
  {
    hide Strip;
    var s, t := Plain(sec, Wrap(base), step), Plain(sec, Wrap(base + e), step);
    forall i | 0 <= i < |sec|
      ensures t[i] == Wrap(s[i] - e)
    {
      StripShift(sec[i], base, e, step, i);
    }
    CountShift(s, t, e, v);
  }

  lemma {:induction false} BestMatchBounds(sec: seq<Byte>, offset: Byte, b: Byte, n: nat, step: Byte)
    requires step < n <= 256
    ensures Count(Plain(sec, offset, step), b) <= BestMatchBelow(sec, offset, b, n)
  {
    if step < n - 1 {
      BestMatchBounds(sec, offset, b, n - 1, step);
    }
  }

  lemma {:induction false} BestMatchBelowAll(sec: seq<Byte>, offset: Byte, b: Byte, n: nat, bound: nat)
    requires n <= 256 && 0 < bound && forall s: Byte :: Count(Plain(sec, offset, s), b) < bound
    ensures BestMatchBelow(sec, offset, b, n) < bound
  {
    hide Plain, Count;
    if n > 0 {
      BestMatchBelowAll(sec, offset, b, n - 1, bound);
      var s: Byte := n - 1;
      assert Count(Plain(sec, offset, s), b) < bound;
    }
  }

  /** The error of a calibration byte: zero for the true one only. */
  lemma ErrorOf(b: Byte, bv: Byte, error: Byte)
    ensures Wrap(b - bv) == error <==> b == Wrap(error + bv)
    ensures Wrap(b - bv) == 0 <==> b == bv
  {
  }

  /** A sector dominated by zero scores the true calibration byte strictly above every other. */
  lemma SectorPrefersTrueBv(sec: seq<Byte>, offset: Byte, bv: Byte, step: Byte, b: Byte)
    requires Dominates(sec, Wrap(offset + bv), step, 0) && b != bv
    ensures BestMatch(sec, offset, b) < BestMatch(sec, offset, bv)
  {
    hide Plain, Count, Dominates, BestMatchBelow, Wrap;
    var base := Wrap(offset + bv);
    WrapOfByte(offset);
    WrapOfByte(bv);
    PlainShift(sec, offset, bv, step, 0);
    BestMatchBounds(sec, offset, bv, 256, step);
    var bound := Count(Plain(sec, base, step), 0);
    forall s: Byte
      ensures Count(Plain(sec, offset, s), b) < bound
    {
      var w := Wrap(b - bv);
      ErrorOf(b, bv, w);
      PlainShift(sec, offset, bv, s, w);
      DominantBeatsAll(sec, base, step, 0, s, w);
    }
    BestMatchBelowAll(sec, offset, b, 256, bound);
  }

  lemma {:induction false} ScorePrefersTrueBv(plain: seq<Byte>, pn: nat, bv: Byte, steps: seq<Byte>, b: Byte, n: nat)
    requires |plain| == PAGE_SIZE && |steps| == SECTORS_PER_PAGE && MostlyZero(plain) && n <= 7 && b != bv
    ensures var page := Obfuscate(plain, pn, bv, steps);
      if n == 0 then Score(page, pn, b, n) == Score(page, pn, bv, n) else Score(page, pn, b, n) < Score(page, pn, bv, n)
  {
    if n > 0 {
      var page := Obfuscate(plain, pn, bv, steps);
      hide Obfuscate, MostlyZero, Dominates, ApBase, ScoreOffset, BestMatch, Sector;
      ScorePrefersTrueBv(plain, pn, bv, steps, b, n - 1);
      ZeroDominates(plain, pn, bv, steps, n - 1);
      ApBaseValue(pn, n - 1, bv);
      SectorPrefersTrueBv(Sector(page, n - 1), ScoreOffset(pn, n - 1), bv, steps[n - 1], b);
    }
  }

  // ---------------------------------------------------------------- main results

  /**
   End-to-end recovery. A stored page whose every sector is more than three quarters zero comes
   back byte for byte with its trailer untouched, and the report names the true calibration byte
   and steps without a tie, whichever of the two ways the calibration byte was found.
   */
  lemma EndToEndRecovery(
      plain: seq<Byte>, pn: nat, bv: Byte, steps: seq<Byte>, raw: seq<Byte>, store: seq<seq<Byte>>, fallback: Byte,
      out: seq<Byte>, evidence: PageEvidence)
    requires |plain| == PAGE_SIZE && |steps| == SECTORS_PER_PAGE && MostlyZero(plain)
    requires raw == Obfuscate(plain, pn, bv, steps)
    requires pn < |store| && store[pn] == raw && forall p :: 0 <= p < |store| ==> |store[p]| == PAGE_SIZE
    requires CalibrationByte(raw, pn, store, fallback, evidence.bv)
    requires PageRecovered(raw, pn, evidence.bv, out, evidence)
    ensures evidence.bv == bv
    ensures out == plain
    ensures forall si :: 0 <= si < SECTORS_PER_PAGE ==> evidence.sectors[si].chosenStep == steps[si]
    ensures evidence.tiedSectorCount == 0
  {
    CalibrationIsTrue(plain, pn, bv, steps, store, fallback, evidence.bv);
    RecoveryWithTrueBv(plain, pn, bv, steps, out, evidence);
  }

  lemma CalibrationIsTrue(
      plain: seq<Byte>, pn: nat, bv: Byte, steps: seq<Byte>, store: seq<seq<Byte>>, fallback: Byte, found: Byte)
    requires |plain| == PAGE_SIZE && |steps| == SECTORS_PER_PAGE && MostlyZero(plain)
    requires pn < |store| && store[pn] == Obfuscate(plain, pn, bv, steps)
    requires forall p :: 0 <= p < |store| ==> |store[p]| == PAGE_SIZE
    requires CalibrationByte(store[pn], pn, store, fallback, found)
    ensures found == bv
  {
    hide Obfuscate, Learned, Score;
    var ptype := store[pn][TRAILER_START + 2];
    if Learned(store[pn], pn, ptype, Some(found)) {
      LearnedIsTrue(plain, pn, bv, steps, ptype, Some(found));
    } else {
      assert Score(store[pn], pn, bv, 7) <= Score(store[pn], pn, found, 7);
      if found != bv {
        ScorePrefersTrueBv(plain, pn, bv, steps, found, 7);
      }
    }
  }

  lemma RecoveryWithTrueBv(
      plain: seq<Byte>, pn: nat, bv: Byte, steps: seq<Byte>, out: seq<Byte>, evidence: PageEvidence)
    requires |plain| == PAGE_SIZE && |steps| == SECTORS_PER_PAGE && MostlyZero(plain)
    requires PageRecovered(Obfuscate(plain, pn, bv, steps), pn, bv, out, evidence)
    ensures out == plain
    ensures forall si :: 0 <= si < SECTORS_PER_PAGE ==> evidence.sectors[si].chosenStep == steps[si]
    ensures evidence.tiedSectorCount == 0
  {
    var page := Obfuscate(plain, pn, bv, steps);
    TrailerIsPlain(plain, pn, bv, steps);
    hide Obfuscate, ApBase, Plain, MostlyZero, Dominates, ExactEvidence, TiedCount, TiedSectors, Sector;
    forall si | 0 <= si < SECTORS_PER_PAGE
      ensures evidence.sectors[si].chosenStep == steps[si] && !evidence.sectors[si].bestPeakTied
      ensures Sector(out, si) == Sector(plain, si)
    {
      assert SectorRecovered(page, pn, bv, out, si, evidence.sectors[si]);
      ZeroDominates(plain, pn, bv, steps, si);
      DominantStepChosen(Sector(page, si), ApBase(pn, si, bv), steps[si], 0, si, evidence.sectors[si]);
      SectorDecodes(plain, pn, bv, steps, si);
    }
    EqualBySectors(out, plain);
  }

  lemma EqualBySectors(a: seq<Byte>, b: seq<Byte>)
    requires |a| == |b| == PAGE_SIZE
    requires forall si :: 0 <= si < SECTORS_PER_PAGE ==> Sector(a, si) == Sector(b, si)
    requires a[TRAILER_START..] == b[TRAILER_START..]
    ensures a == b
  {
    forall i | 0 <= i < PAGE_SIZE
      ensures a[i] == b[i]
    {
      if i < TRAILER_START {
        var si := i / SECTOR_SIZE;
        assert a[i] == Sector(a, si)[i - si * SECTOR_SIZE] && b[i] == Sector(b, si)[i - si * SECTOR_SIZE];
      } else {
        assert a[i] == a[TRAILER_START..][i - TRAILER_START] && b[i] == b[TRAILER_START..][i - TRAILER_START];
      }
    }
  }

  // ---------------------------------------------------------------- what recovery keeps on any page

  /** Adding the keystream that the report names to the output gives the stored page back, whatever was recovered. */
  lemma RefillRestoresRaw(raw: seq<Byte>, pn: nat, bv: Byte, out: seq<Byte>, evidence: PageEvidence)
    requires |raw| >= PAGE_SIZE && PageRecovered(raw, pn, bv, out, evidence)
    ensures Obfuscate(out, pn, bv, seq(SECTORS_PER_PAGE, si requires 0 <= si < SECTORS_PER_PAGE =>
                                         evidence.sectors[si].chosenStep)) == raw[..PAGE_SIZE]
  {
    hide Fill, Strip, ApBase, ExactEvidence, Keyed, BaseAt, WrappingAdd;
    var steps := seq(SECTORS_PER_PAGE, si requires 0 <= si < SECTORS_PER_PAGE => evidence.sectors[si].chosenStep);
    forall i | 0 <= i < TRAILER_START
      ensures Keyed(BaseAt(pn, i / 512, bv), steps[i / 512], i % 512, out[i]) == raw[i]
    {
      var si, k := i / 512, i % 512;
      assert SectorRecovered(raw, pn, bv, out, si, evidence.sectors[si]);
      assert out[i] == Sector(out, si)[k] && raw[i] == Sector(raw, si)[k];
      KeyedByFill(pn, si, bv, steps[si], k, out[i]);
      FillUndoesStrip(raw[i], ApBase(pn, si, bv), steps[si], k);
    }
    forall i | TRAILER_START <= i < PAGE_SIZE
      ensures out[i] == raw[i]
    {
      assert out[TRAILER_START..][i - TRAILER_START] == raw[TRAILER_START..PAGE_SIZE][i - TRAILER_START];
    }
  }

  /** Moving the base moves no peak. */
  lemma PeakShift(sec: seq<Byte>, base: int, e: int, step: Byte)
    ensures StepPeak(sec, Wrap(base + e), step) == StepPeak(sec, Wrap(base), step)
  {
    hide Plain, Peak, Wrap;
    var p, q := Plain(sec, Wrap(base), step), Plain(sec, Wrap(base + e), step);
    var v := PeakIsMaximum(p);
    var w := PeakIsMaximum(q);
    PlainShift(sec, base, e, step, w);
    PlainShift(sec, base, e, step, Wrap(v - e));
    WrapAdd(v - e, e);
    assert Wrap(v) == v by {
      WrapOfByte(v);
    }
  }

  /** The same evidence apart from the zero count, which alone depends on where zero lies. */
  ghost predicate SameSearch(e: SectorEvidence, f: SectorEvidence) {
    e.(zeroPlaintextCount := 0, zeroPlaintextFraction := None) == f.(zeroPlaintextCount := 0, zeroPlaintextFraction := None)
  }

  /** A report with the zero count that another base gives. */
  function Rebased(sec: seq<Byte>, base: Byte, f: SectorEvidence): SectorEvidence {
    var zeros := Count(Plain(sec, base, f.chosenStep), 0);
    f.(zeroPlaintextCount := zeros, zeroPlaintextFraction := Fraction(zeros, |sec|))
  }

  /** Exactness depends on the base only through the peaks and the zero count. */
  lemma EvidenceMoves(sec: seq<Byte>, base: Byte, moved: Byte, si: nat, f: SectorEvidence)
    requires ExactEvidence(sec, moved, si, f)
    requires forall s: Byte :: StepPeak(sec, moved, s) == StepPeak(sec, base, s)
    ensures ExactEvidence(sec, base, si, Rebased(sec, base, f))
  {
    hide StepPeak, Count, Plain;
    var s: Byte :| s != f.chosenStep && StepPeak(sec, moved, s) == f.runnerUpPeak;
    assert StepPeak(sec, base, s) == f.runnerUpPeak;
  }

  lemma EvidenceShift(sec: seq<Byte>, base: int, delta: int, si: nat, e: SectorEvidence, f: SectorEvidence)
    requires ExactEvidence(sec, Wrap(base), si, e) && ExactEvidence(sec, Wrap(base + delta), si, f)
    ensures SameSearch(e, f)
  {
    hide StepPeak, Count, Plain, Wrap, ExactEvidence;
    forall s: Byte
      ensures StepPeak(sec, Wrap(base + delta), s) == StepPeak(sec, Wrap(base), s)
    {
      PeakShift(sec, base, delta, s);
    }
    EvidenceMoves(sec, Wrap(base), Wrap(base + delta), si, f);
    EvidenceUnique(sec, Wrap(base), si, e, Rebased(sec, Wrap(base), f));
  }

  /**
   Calibration shift: decoding with the calibration byte off by `delta` changes no chosen step, peak
   or tie, moves every body byte by `-delta`, and leaves the trailer alone.
   */
  lemma CalibrationShift(
      raw: seq<Byte>, pn: nat, bv: Byte, delta: int,
      out: seq<Byte>, evidence: PageEvidence, shifted: seq<Byte>, shiftedEvidence: PageEvidence)
    requires |raw| >= PAGE_SIZE
    requires PageRecovered(raw, pn, bv, out, evidence)
    requires PageRecovered(raw, pn, Wrap(bv + delta), shifted, shiftedEvidence)
    ensures forall si :: 0 <= si < SECTORS_PER_PAGE ==> SameSearch(evidence.sectors[si], shiftedEvidence.sectors[si])
    ensures evidence.tiedSectorCount == shiftedEvidence.tiedSectorCount
    ensures forall i :: 0 <= i < TRAILER_START ==> shifted[i] == Wrap(out[i] - delta)
    ensures shifted[TRAILER_START..] == out[TRAILER_START..]
  {
    hide Plain, ApBase, ExactEvidence, ScoreOffset, Wrap, SameSearch, TiedCount;
    forall si | 0 <= si < SECTORS_PER_PAGE
      ensures SameSearch(evidence.sectors[si], shiftedEvidence.sectors[si])
      ensures forall k :: 0 <= k < |Sector(out, si)| ==> Sector(shifted, si)[k] == Wrap(Sector(out, si)[k] - delta)
    {
      SectorShift(raw, pn, bv, delta, out, evidence.sectors[si], shifted, shiftedEvidence.sectors[si], si);
    }
    SameTies(evidence.sectors, shiftedEvidence.sectors);
    forall i | 0 <= i < TRAILER_START
      ensures shifted[i] == Wrap(out[i] - delta)
    {
      var si, k := i / SECTOR_SIZE, i % SECTOR_SIZE;
      assert out[i] == Sector(out, si)[k] && shifted[i] == Sector(shifted, si)[k];
    }
  }

  lemma SectorShift(
      raw: seq<Byte>, pn: nat, bv: Byte, delta: int,
      out: seq<Byte>, e: SectorEvidence, shifted: seq<Byte>, f: SectorEvidence, si: nat)
    requires |raw| >= PAGE_SIZE && |out| == |shifted| == PAGE_SIZE && si < SECTORS_PER_PAGE
    requires SectorRecovered(raw, pn, bv, out, si, e)
    requires SectorRecovered(raw, pn, Wrap(bv + delta), shifted, si, f)
    ensures SameSearch(e, f)
    ensures forall k :: 0 <= k < |Sector(out, si)| ==> Sector(shifted, si)[k] == Wrap(Sector(out, si)[k] - delta)
  {
    hide Strip, ApBase, ExactEvidence, ScoreOffset, Wrap;
    var base := bv + ScoreOffset(pn, si);
    ApBaseValue(pn, si, bv);
    ApBaseValue(pn, si, Wrap(bv + delta));
    WrapAdd(bv + delta, ScoreOffset(pn, si));
    assert ApBase(pn, si, Wrap(bv + delta)) == Wrap(base + delta);
    EvidenceShift(Sector(raw, si), base, delta, si, e, f);
    forall k | 0 <= k < |Sector(out, si)|
      ensures Sector(shifted, si)[k] == Wrap(Sector(out, si)[k] - delta)
    {
      StripShift(Sector(raw, si)[k], base, delta, e.chosenStep, k);
    }
  }

  lemma {:induction false} SameTies(a: seq<SectorEvidence>, b: seq<SectorEvidence>)
    requires |a| == |b| && forall i :: 0 <= i < |a| ==> SameSearch(a[i], b[i])
    ensures TiedCount(a) == TiedCount(b)
  {
    if a != [] {
      var n := |a| - 1;
      assert SameSearch(a[n], b[n]);
      SameTies(a[..n], b[..n]);
    }
  }

  // ---------------------------------------------------------------- three quarters is sharp

  /** `m` groups of the four bytes `a`, `b`, `c`, `d`. */
  function Groups(m: nat, a: Byte, b: Byte, c: Byte, d: Byte): (s: seq<Byte>)
    ensures |s| == 4 * m
  {
    if m == 0 then [] else Groups(m - 1, a, b, c, d) + [a, b, c, d]
  }

  lemma {:induction false} GroupAt(m: nat, a: Byte, b: Byte, c: Byte, d: Byte, i: nat)
    requires i < 4 * m
    ensures Groups(m, a, b, c, d)[i] == (if i % 4 == 0 then a else if i % 4 == 1 then b else if i % 4 == 2 then c else d)
  {
    if i < 4 * (m - 1) {
      GroupAt(m - 1, a, b, c, d, i);
    }
  }

  function Occurrences(a: Byte, b: Byte, c: Byte, d: Byte, v: Byte): nat {
    (if a == v then 1 else 0) + (if b == v then 1 else 0) + (if c == v then 1 else 0) + (if d == v then 1 else 0)
  }

  lemma GroupCount(rest: seq<Byte>, a: Byte, b: Byte, c: Byte, d: Byte, v: Byte)
    ensures Count(rest + [a, b, c, d], v) == Count(rest, v) + Occurrences(a, b, c, d, v)
  {
    hide Count;
    CountAppend(rest, a, v);
    CountAppend(rest + [a], b, v);
    CountAppend(rest + [a] + [b], c, v);
    CountAppend(rest + [a] + [b] + [c], d, v);
    assert rest + [a] + [b] + [c] + [d] == rest + [a, b, c, d];
  }

  lemma {:induction false} GroupsCount(m: nat, a: Byte, b: Byte, c: Byte, d: Byte, v: Byte)
    requires Occurrences(a, b, c, d, v) == 3
    ensures Count(Groups(m, a, b, c, d), v) == 3 * m
  {
    hide Occurrences;
    if m > 0 {
      GroupsCount(m - 1, a, b, c, d, v);
      GroupCount(Groups(m - 1, a, b, c, d), a, b, c, d, v);
      hide Count;
    } else {
      assert Groups(0, a, b, c, d) == [];
    }
  }

  lemma ThreePerGroup(m: nat)
    ensures Count(Groups(m, 0, 0, 0, 128), 0) == 3 * m && Count(Groups(m, 0, 128, 0, 0), 0) == 3 * m
  {
    GroupsCount(m, 0, 0, 0, 128, 0);
    GroupsCount(m, 0, 128, 0, 0, 0);
  }

  /** Step 0 sees the same bytes as the true step 128, shifted within every group. */
  lemma WrongStepSeesGroups(m: nat, base: Byte, sec: seq<Byte>)
    requires Plain(sec, base, 128) == Groups(m, 0, 0, 0, 128)
    ensures Plain(sec, base, 0) == Groups(m, 0, 128, 0, 0)
  {
    assert |sec| == |Plain(sec, base, 128)|;
    hide Strip, Groups, Wrap;
    forall i | 0 <= i < |sec|
      ensures Plain(sec, base, 0)[i] == Groups(m, 0, 128, 0, 0)[i]
    {
      HalfTurn(sec[i], base, i);
      assert Plain(sec, base, 128)[i] == Groups(m, 0, 0, 0, 128)[i];
      GroupAt(m, 0, 0, 0, 128, i);
      GroupAt(m, 0, 128, 0, 0, i);
      TurnedByte(i % 4);
    }
  }

  lemma TurnedByte(k: nat)
    requires k < 4
    ensures Wrap((if k == 3 then 128 else 0) + 128 * k) == if k == 1 then 128 else 0
  {
  }

  /**
   The bound cannot be lowered: a sector whose plaintext is exactly three quarters zero can hide its
   step, because step 0 then explains as many bytes as the true step 128 and is tried first.
   */
  lemma ThreeQuartersIsNotEnough(m: nat, base: Byte, sec: seq<Byte>, si: nat, e: SectorEvidence)
    requires Plain(sec, base, 128) == Groups(m, 0, 0, 0, 128)
    requires ExactEvidence(sec, base, si, e)
    ensures 4 * Count(Plain(sec, base, 128), 0) == 3 * |sec|
    ensures e.chosenStep != 128
  {
    ThreePerGroup(m);
    WrongStepSeesGroups(m, base, sec);
    hide Plain, Count, Groups, Peak;
    assert |sec| == |Plain(sec, base, 128)|;
    PeakAtMost(Plain(sec, base, 128), 3 * m);
    PeakAtLeast(Plain(sec, base, 0), 0);
    assert StepPeak(sec, base, 128) <= StepPeak(sec, base, 0);
  }

  /** When zeros fill at least half, no other byte can occur more often. */
  lemma PeakAtMost(s: seq<Byte>, zeros: nat)
    requires Count(s, 0) == zeros && |s| <= 2 * zeros
    ensures Peak(s) <= zeros
  {
    var v := PeakIsMaximum(s);
    if v != 0 {
      CountsExclude(s, 0, v);
    }
  }

  lemma PeakAtLeast(s: seq<Byte>, v: Byte)
    ensures Count(s, v) <= Peak(s)
  {
    var w := PeakIsMaximum(s);
  }

  lemma HalfTurn(stored: Byte, base: Byte, i: nat)
    ensures Strip(stored, base, 0, i) == Wrap(Strip(stored, base, 128, i) + 128 * (i % 4))
  {
    StripIsSubtraction(stored, base, 0, i);
    StripIsSubtraction(stored, base, 128, i);
    hide Strip, Wrap;
    var x: int := stored - base;
    var q, k := i / 4, i % 4;
    WrapAdd(x - i * 128, 128 * k);
    WrapMultiple(-(2 * q), x);
    assert x - i * 128 + 128 * k == 256 * -(2 * q) + x;
  }
}
