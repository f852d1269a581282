/** Exactly when the AP recovery of `ap.rs` succeeds, told by the plaintext alone. */
module ApExactness {
  import opened Wrappers
  import opened Bytes
  import opened ByteCounts
  import opened ApStream
  import opened ApModel
  import opened ApRecovery

  // ---------------------------------------------------------------- a step error, seen in the plaintext

  /** What decoding shows when its step is too large by `error`: `plain[i] - i * error`. */
  function Drifted(plain: seq<Byte>, error: Byte): (seen: seq<Byte>)
    ensures |seen| == |plain|
  {
    Plain(plain, 0, error)
  }

  lemma DriftedByte(plain: seq<Byte>, error: Byte, i: nat)
    requires i < |plain|
    ensures Drifted(plain, error)[i] == Wrap(plain[i] - i * error)
  {
    StripIsSubtraction(plain[i], 0, error, i);
    hide Strip;
  }

  lemma StripTwice(stored: Byte, base: Byte, step: Byte, other: Byte, i: nat)
    ensures Strip(stored, base, other, i) == Strip(Strip(stored, base, step, i), 0, WrappingSub(other, step), i)
  {
    StripIsSubtraction(stored, base, other, i);
    StripIsSubtraction(stored, base, step, i);
    StripIsSubtraction(Strip(stored, base, step, i), 0, WrappingSub(other, step), i);
    hide Strip, Wrap;
    SubtractError(stored - base, step, other, i);
  }

  lemma SubtractError(x: int, step: int, other: int, i: int)
    ensures Wrap(x - i * other) == Wrap(Wrap(x - i * step) - 0 - i * Wrap(other - step))
  {
    hide Wrap;
    var y := x - i * step;
    WrapMul(i, other - step);
    WrapAdd(y, -(i * Wrap(other - step)));
    WrapMinus(y, i * Wrap(other - step));
    WrapMinus(y, i * (other - step));
    Distribute(i, step, other);
  }

  lemma Distribute(i: int, step: int, other: int)
    ensures i * (other - step) == i * other - i * step
  {
  }

  /** Decoding with another step shows the decoded sector drifted by the difference. */
  lemma WrongStepDrifts(sec: seq<Byte>, base: Byte, step: Byte, other: Byte)
    ensures Plain(sec, base, other) == Drifted(Plain(sec, base, step), WrappingSub(other, step))
  {
    hide Strip;
    forall i | 0 <= i < |sec|
      ensures Plain(sec, base, other)[i] == Drifted(Plain(sec, base, step), WrappingSub(other, step))[i]
    {
      StripTwice(sec[i], base, step, other, i);
    }
  }

  /** Every step error lowers the peak of the plaintext, or keeps it when the wrong step would be tried later. */
  ghost predicate StepShows(plain: seq<Byte>, step: Byte) {
    forall other: Byte :: other != step ==>
      if other < step then Peak(Drifted(plain, WrappingSub(other, step))) < Peak(plain)
      else Peak(Drifted(plain, WrappingSub(other, step))) <= Peak(plain)
  }

  /** The true step is chosen exactly when the plaintext shows it. */
  lemma StepChosenExactly(sec: seq<Byte>, base: Byte, step: Byte, si: nat, e: SectorEvidence)
    requires ExactEvidence(sec, base, si, e)
    ensures e.chosenStep == step <==> StepShows(Plain(sec, base, step), step)
  {
    hide Plain, Peak, WrappingSub, Drifted;
    var plain := Plain(sec, base, step);
    forall other: Byte
      ensures StepPeak(sec, base, other) == Peak(Drifted(plain, WrappingSub(other, step)))
    {
      WrongStepDrifts(sec, base, step, other);
    }
    ChoiceByPeaks(sec, base, step, si, e);
  }

  /** The search chooses the first of the largest peaks. */
  lemma ChoiceByPeaks(sec: seq<Byte>, base: Byte, step: Byte, si: nat, e: SectorEvidence)
    requires ExactEvidence(sec, base, si, e)
    ensures e.chosenStep == step <==>
      forall other: Byte :: other != step ==>
        if other < step then StepPeak(sec, base, other) < StepPeak(sec, base, step)
        else StepPeak(sec, base, other) <= StepPeak(sec, base, step)
  {
    hide StepPeak, Plain, Count;
    if e.chosenStep != step {
      var chosen := e.chosenStep;
      assert StepPeak(sec, base, step) <= StepPeak(sec, base, chosen);
      assert step < chosen ==> StepPeak(sec, base, step) < StepPeak(sec, base, chosen);
    }
  }

  // ---------------------------------------------------------------- a page that is decoded with a given calibration byte

  /** Two keystreams that agree on the first two bytes of a sector are the same. */
  lemma StreamsDiffer(s0: Byte, s1: Byte, base: Byte, step: Byte, otherBase: Byte, otherStep: Byte)
    requires Strip(s0, base, step, 0) == Strip(s0, otherBase, otherStep, 0)
    requires Strip(s1, base, step, 1) == Strip(s1, otherBase, otherStep, 1)
    ensures base == otherBase && step == otherStep
  {
    FirstStrips(s0, base, step);
    FirstStrips(s0, otherBase, otherStep);
    FirstStrips(s1, base, step);
    FirstStrips(s1, otherBase, otherStep);
    hide Strip, Wrap;
    SameSubtrahend(s0, base, otherBase);
    var x: int := s1;
    SameSubtrahend(x - base, step, otherStep);
  }

  lemma FirstStrips(stored: Byte, base: Byte, step: Byte)
    ensures Strip(stored, base, step, 0) == Wrap(stored - base)
    ensures Strip(stored, base, step, 1) == Wrap(stored - base - step)
  {
    StripIsSubtraction(stored, base, step, 0);
    StripIsSubtraction(stored, base, step, 1);
    hide Strip, Wrap;
  }

  lemma SameSubtrahend(x: int, a: Byte, b: Byte)
    ensures Wrap(x - a) == Wrap(x - b) ==> a == b
  {
  }

  /** A sector decodes to its plaintext exactly with its own base and step. */
  lemma SectorDecodesExactly(plain: seq<Byte>, pn: nat, bv: Byte, steps: seq<Byte>, si: nat, base: Byte, step: Byte)
    requires |plain| == PAGE_SIZE && |steps| == SECTORS_PER_PAGE && si < SECTORS_PER_PAGE
    ensures Plain(Sector(Obfuscate(plain, pn, bv, steps), si), base, step) == Sector(plain, si)
       <==> base == ApBase(pn, si, bv) && step == steps[si]
  {
    hide Obfuscate, ApBase, Strip;
    var sec := Sector(Obfuscate(plain, pn, bv, steps), si);
    SectorDecodes(plain, pn, bv, steps, si);
    if Plain(sec, base, step) == Sector(plain, si) {
      var own := Plain(sec, ApBase(pn, si, bv), steps[si]);
      assert own[0] == Plain(sec, base, step)[0] && own[1] == Plain(sec, base, step)[1];
      StreamsDiffer(sec[0], sec[1], ApBase(pn, si, bv), steps[si], base, step);
    }
  }

  /**
   Exact recovery. On any plaintext the output is the plaintext if and only if the page was decoded with the
   true calibration byte and every sector with its true step.
   */
  lemma RecoveredExactly(
      plain: seq<Byte>, pn: nat, bv: Byte, steps: seq<Byte>, found: Byte, out: seq<Byte>, evidence: PageEvidence)
    requires |plain| == PAGE_SIZE && |steps| == SECTORS_PER_PAGE
    requires PageRecovered(Obfuscate(plain, pn, bv, steps), pn, found, out, evidence)
    ensures out == plain <==>
      found == bv && forall si :: 0 <= si < SECTORS_PER_PAGE ==> evidence.sectors[si].chosenStep == steps[si]
  {
    var page := Obfuscate(plain, pn, bv, steps);
    TrailerIsPlain(plain, pn, bv, steps);
    hide Obfuscate, ApBase, Plain, ExactEvidence, Sector, BvOfBase, TiedCount, TiedSectors;
    forall si | 0 <= si < SECTORS_PER_PAGE
      ensures Sector(out, si) == Sector(plain, si) <==> found == bv && evidence.sectors[si].chosenStep == steps[si]
    {
      assert SectorRecovered(page, pn, found, out, si, evidence.sectors[si]);
      SectorDecodesExactly(plain, pn, bv, steps, si, ApBase(pn, si, found), evidence.sectors[si].chosenStep);
      BvOfApBase(pn, si, bv, ApBase(pn, si, found));
      BvOfApBase(pn, si, found, ApBase(pn, si, found));
    }
    if found == bv && forall si :: 0 <= si < SECTORS_PER_PAGE ==> evidence.sectors[si].chosenStep == steps[si] {
      EqualBySectors(out, plain);
    }
  }

  /** With the true calibration byte, a sector's step is found exactly when its plaintext shows it. */
  lemma SectorStepExactly(
      plain: seq<Byte>, pn: nat, bv: Byte, steps: seq<Byte>, out: seq<Byte>, evidence: PageEvidence, si: nat)
    requires |plain| == PAGE_SIZE && |steps| == SECTORS_PER_PAGE && si < SECTORS_PER_PAGE
    requires PageRecovered(Obfuscate(plain, pn, bv, steps), pn, bv, out, evidence)
    ensures evidence.sectors[si].chosenStep == steps[si] <==> StepShows(Sector(plain, si), steps[si])
  {
    hide Obfuscate, ApBase, Plain, ExactEvidence, Sector, StepShows;
    var page := Obfuscate(plain, pn, bv, steps);
    assert SectorRecovered(page, pn, bv, out, si, evidence.sectors[si]);
    SectorDecodes(plain, pn, bv, steps, si);
    StepChosenExactly(Sector(page, si), ApBase(pn, si, bv), steps[si], si, evidence.sectors[si]);
  }

  // ---------------------------------------------------------------- the calibration byte, told by the plaintext

  /** A bare keystream byte, stripped with another stream, is the bare difference of the two. */
  lemma FillStripped(base: Byte, step: Byte, otherBase: Byte, otherStep: Byte, i: nat)
    ensures Strip(Fill(otherBase, otherStep, i), base, step, i) == Fill(WrappingSub(otherBase, base), WrappingSub(otherStep, step), i)
  {
    FillValue(otherBase, otherStep, i);
    FillValue(WrappingSub(otherBase, base), WrappingSub(otherStep, step), i);
    StripIsSubtraction(Fill(otherBase, otherStep, i), base, step, i);
    hide Strip, Fill, Wrap;
    DifferenceOfFills(base, step, otherBase, otherStep, i);
  }

  lemma DifferenceOfFills(base: int, step: int, otherBase: int, otherStep: int, i: int)
    ensures Wrap(Wrap(otherBase + i * otherStep) - base - i * step) == Wrap(Wrap(otherBase - base) + i * Wrap(otherStep - step))
  {
    hide Wrap;
    WrapAdd(otherBase + i * otherStep, -base - i * step);
    WrapMul(i, otherStep - step);
    WrapAdd(otherBase - base, i * Wrap(otherStep - step));
    WrapAdd(i * Wrap(otherStep - step), otherBase - base);
    WrapAdd(i * (otherStep - step), otherBase - base);
    Distribute(i, step, otherStep);
  }

  lemma StripInjective(a: Byte, b: Byte, base: Byte, step: Byte, i: nat)
    ensures Strip(a, base, step, i) == Strip(b, base, step, i) <==> a == b
  {
    hide Strip, Fill;
    FillUndoesStrip(a, base, step, i);
    FillUndoesStrip(b, base, step, i);
  }

  /** A sector is one progression exactly when its plaintext is one. */
  lemma PurityOfPlain(sec: seq<Byte>, base: Byte, step: Byte, otherBase: Byte, otherStep: Byte)
    ensures IsPure(sec, otherBase, otherStep)
       <==> IsPure(Plain(sec, base, step), WrappingSub(otherBase, base), WrappingSub(otherStep, step))
  {
    hide Strip, Fill, WrappingSub;
    forall i | 0 <= i < |sec|
      ensures sec[i] == Fill(otherBase, otherStep, i)
         <==> Plain(sec, base, step)[i] == Fill(WrappingSub(otherBase, base), WrappingSub(otherStep, step), i)
    {
      FillStripped(base, step, otherBase, otherStep, i);
      StripInjective(sec[i], Fill(otherBase, otherStep, i), base, step, i);
    }
  }

  /** The calibration error that a plaintext sector votes for: its first byte, when it is one progression. */
  ghost function PlainVote(sec: seq<Byte>): Option<Byte>
    requires |sec| > 1
  {
    if IsPure(sec, sec[0], WrappingSub(sec[1], sec[0])) then Some(sec[0]) else None
  }

  lemma PlainVoteExactly(sec: seq<Byte>, error: Byte)
    requires |sec| > 1
    ensures PlainVote(sec) == Some(error) <==> exists step: Byte :: IsPure(sec, error, step)
  {
    hide IsPure;
    forall step: Byte | IsPure(sec, error, step)
      ensures error == sec[0] && step == WrappingSub(sec[1], sec[0])
    {
      PureForm(sec, error, step);
    }
  }

  /** A sector's vote is off by what its plaintext says. */
  lemma VoteByPlain(plain: seq<Byte>, pn: nat, bv: Byte, steps: seq<Byte>, si: nat, b: Byte)
    requires |plain| == PAGE_SIZE && |steps| == SECTORS_PER_PAGE && si < SECTORS_PER_PAGE
    ensures VoteOf(Obfuscate(plain, pn, bv, steps), pn, si) == Some(b)
       <==> PlainVote(Sector(plain, si)) == Some(WrappingSub(b, bv))
  {
    var page := Obfuscate(plain, pn, bv, steps);
    var sec, base, step := Sector(page, si), ApBase(pn, si, bv), steps[si];
    hide Obfuscate, ApBase, IsPure, Sector, VoteOf, PlainVote, BvOfBase;
    SectorDecodes(plain, pn, bv, steps, si);
    VotesExactlyWhenPure(page, pn, si, b);
    PlainVoteExactly(Sector(plain, si), WrappingSub(b, bv));
    var voted := ApBase(pn, si, b);
    forall otherBase: Byte
      ensures b == BvOfBase(pn, si, otherBase) <==> otherBase == voted
    {
      BvOfApBase(pn, si, b, otherBase);
    }
    BaseError(pn, si, bv, b);
    if otherStep: Byte :| IsPure(sec, voted, otherStep) {
      PurityOfPlain(sec, base, step, voted, otherStep);
    }
    if error: Byte :| IsPure(Sector(plain, si), WrappingSub(b, bv), error) {
      var otherStep := WrappingAdd(error, step);
      PurityOfPlain(sec, base, step, voted, otherStep);
      assert WrappingSub(otherStep, step) == error by {
        SumLess(error, step);
      }
      assert IsPure(sec, voted, otherStep);
    }
  }

  lemma SumLess(x: Byte, y: Byte)
    ensures WrappingSub(WrappingAdd(x, y), y) == x
  {
    AddThenSubtract(x, y);
  }

  lemma BaseError(pn: nat, si: nat, bv: Byte, b: Byte)
    ensures WrappingSub(ApBase(pn, si, b), ApBase(pn, si, bv)) == WrappingSub(b, bv)
  {
    hide ApBase, ScoreOffset;
    ApBaseValue(pn, si, bv);
    ApBaseValue(pn, si, b);
    CommonOffset(b, bv, ScoreOffset(pn, si));
  }

  lemma CommonOffset(x: int, y: int, k: int)
    ensures Wrap(Wrap(x + k) - Wrap(y + k)) == Wrap(x - y)
  {
    hide Wrap;
    WrapMinus(x + k, y + k);
    var z: int := Wrap(y + k);
    WrapAdd(x + k, -z);
  }

  /** How many of the first `n` plaintext sectors vote for a calibration error. */
  ghost function PlainVotesFor(plain: seq<Byte>, error: Byte, n: nat): nat
    requires |plain| == PAGE_SIZE && n <= SECTORS_PER_PAGE
  {
    if n == 0 then 0
    else PlainVotesFor(plain, error, n - 1) + (if PlainVote(Sector(plain, n - 1)) == Some(error) then 1 else 0)
  }

  lemma {:induction false} VotesByPlain(plain: seq<Byte>, pn: nat, bv: Byte, steps: seq<Byte>, b: Byte, n: nat)
    requires |plain| == PAGE_SIZE && |steps| == SECTORS_PER_PAGE && n <= SECTORS_PER_PAGE
    ensures VotesFor(Obfuscate(plain, pn, bv, steps), pn, b, n) == PlainVotesFor(plain, WrappingSub(b, bv), n)
  {
    hide Obfuscate, VoteOf, PlainVote, WrappingSub, Sector;
    if n > 0 {
      VotesByPlain(plain, pn, bv, steps, b, n - 1);
      VoteByPlain(plain, pn, bv, steps, n - 1, b);
    }
  }

  /** The calibration error that the direct learner may find, by the plaintext. */
  ghost predicate PlainLearned(plain: seq<Byte>, ptype: Byte, error: Option<Byte>)
    requires |plain| == PAGE_SIZE
  {
    if ptype as char !in {'@', 'C', 'H', 'M'} then error == None
    else
      && (error == None <==> forall v: Byte :: PlainVotesFor(plain, v, SECTORS_PER_PAGE) == 0)
      && (error.Some? ==> forall v: Byte ::
            PlainVotesFor(plain, v, SECTORS_PER_PAGE) <= PlainVotesFor(plain, error.value, SECTORS_PER_PAGE))
  }

  lemma ErrorAdded(b: Byte, bv: Byte, error: Byte)
    ensures WrappingSub(b, bv) == error <==> b == WrappingAdd(bv, error)
  {
    ErrorOf(b, bv, error);
    hide Wrap;
  }

  lemma LearnedByPlain(plain: seq<Byte>, pn: nat, bv: Byte, steps: seq<Byte>, ptype: Byte, r: Option<Byte>)
    requires |plain| == PAGE_SIZE && |steps| == SECTORS_PER_PAGE
    ensures Learned(Obfuscate(plain, pn, bv, steps), pn, ptype, r)
       <==> PlainLearned(plain, ptype, if r.Some? then Some(WrappingSub(r.value, bv)) else None)
  {
    hide Obfuscate, VotesFor, PlainVotesFor, WrappingSub, WrappingAdd;
    var page := Obfuscate(plain, pn, bv, steps);
    forall b: Byte
      ensures VotesFor(page, pn, b, SECTORS_PER_PAGE) == PlainVotesFor(plain, WrappingSub(b, bv), SECTORS_PER_PAGE)
    {
      VotesByPlain(plain, pn, bv, steps, b, SECTORS_PER_PAGE);
    }
    forall v: Byte
      ensures PlainVotesFor(plain, v, SECTORS_PER_PAGE) == VotesFor(page, pn, WrappingAdd(bv, v), SECTORS_PER_PAGE)
    {
      ErrorAdded(WrappingAdd(bv, v), bv, v);
    }
  }

  // ---------------------------------------------------------------- the brute-force score, told by the plaintext

  lemma MatchByPlain(sec: seq<Byte>, offset: Byte, bv: Byte, step: Byte, s: Byte, b: Byte)
    ensures Count(Plain(sec, offset, s), b)
         == Count(Plain(Plain(sec, Wrap(offset + bv), step), 0, WrappingSub(s, step)), WrappingSub(b, bv))
  {
    hide Plain, Count, Wrap;
    var w := WrappingSub(b, bv);
    PlainShift(sec, offset, bv, s, w);
    ErrorOf(b, bv, w);
    WrapOfByte(offset);
    WrongStepDrifts(sec, Wrap(offset + bv), step, s);
  }

  /** The best count of a calibration byte is the best count of its error in the drifted plaintext. */
  lemma BestMatchByPlain(sec: seq<Byte>, offset: Byte, bv: Byte, step: Byte, b: Byte)
    ensures BestMatch(sec, offset, b) == BestMatch(Plain(sec, Wrap(offset + bv), step), 0, WrappingSub(b, bv))
  {
    hide Plain, Count, WrappingSub, WrappingAdd, Wrap;
    var plain, v := Plain(sec, Wrap(offset + bv), step), WrappingSub(b, bv);
    forall s: Byte
      ensures Count(Plain(sec, offset, s), b) < BestMatch(plain, 0, v) + 1
    {
      MatchByPlain(sec, offset, bv, step, s, b);
      BestMatchBounds(plain, 0, v, 256, WrappingSub(s, step));
    }
    BestMatchBelowAll(sec, offset, b, 256, BestMatch(plain, 0, v) + 1);
    forall error: Byte
      ensures Count(Plain(plain, 0, error), v) < BestMatch(sec, offset, b) + 1
    {
      var s := WrappingAdd(step, error);
      ErrorAdded(s, step, error);
      MatchByPlain(sec, offset, bv, step, s, b);
      BestMatchBounds(sec, offset, b, 256, s);
    }
    BestMatchBelowAll(plain, 0, v, 256, BestMatch(sec, offset, b) + 1);
  }

  /** The score of a calibration error: for each scored sector, its best count under any step error. */
  function PlainScore(plain: seq<Byte>, error: Byte, n: nat): nat
    requires |plain| == PAGE_SIZE && n <= 7
  {
    if n == 0 then 0 else PlainScore(plain, error, n - 1) + BestMatch(Sector(plain, n - 1), 0, error)
  }

  lemma SectorMatchByPlain(plain: seq<Byte>, pn: nat, bv: Byte, steps: seq<Byte>, si: nat, b: Byte)
    requires |plain| == PAGE_SIZE && |steps| == SECTORS_PER_PAGE && si < SECTORS_PER_PAGE
    ensures BestMatch(Sector(Obfuscate(plain, pn, bv, steps), si), ScoreOffset(pn, si), b)
         == BestMatch(Sector(plain, si), 0, WrappingSub(b, bv))
  {
    SectorDecodes(plain, pn, bv, steps, si);
    OffsetBase(pn, si, bv);
    BestMatchByPlain(Sector(Obfuscate(plain, pn, bv, steps), si), ScoreOffset(pn, si), bv, steps[si], b);
    hide Obfuscate, ApBase, ScoreOffset, BestMatch, Sector, WrappingSub, Wrap, Plain;
  }

  lemma {:induction false} ScoreByPlain(plain: seq<Byte>, pn: nat, bv: Byte, steps: seq<Byte>, b: Byte, n: nat)
    requires |plain| == PAGE_SIZE && |steps| == SECTORS_PER_PAGE && n <= 7
    ensures Score(Obfuscate(plain, pn, bv, steps), pn, b, n) == PlainScore(plain, WrappingSub(b, bv), n)
  {
    hide Obfuscate, BestMatch, Sector, ScoreOffset, WrappingSub;
    if n > 0 {
      ScoreByPlain(plain, pn, bv, steps, b, n - 1);
      SectorMatchByPlain(plain, pn, bv, steps, n - 1, b);
    }
  }

  lemma OffsetBase(pn: nat, si: nat, bv: Byte)
    ensures ApBase(pn, si, bv) == Wrap(ScoreOffset(pn, si) + bv)
  {
    ApBaseValue(pn, si, bv);
    hide ApBase, ScoreOffset;
    assert bv + ScoreOffset(pn, si) == ScoreOffset(pn, si) + bv;
  }

  /** The calibration error with the best score; among equals the one whose calibration byte is the largest. */
  ghost predicate PlainBestScore(plain: seq<Byte>, bv: Byte, error: Byte)
    requires |plain| == PAGE_SIZE
  {
    forall c: Byte ::
      && PlainScore(plain, WrappingSub(c, bv), 7) <= PlainScore(plain, error, 7)
      && (c > WrappingAdd(bv, error) ==> PlainScore(plain, WrappingSub(c, bv), 7) < PlainScore(plain, error, 7))
  }

  lemma BestScoreByPlain(plain: seq<Byte>, pn: nat, bv: Byte, steps: seq<Byte>, found: Byte)
    requires |plain| == PAGE_SIZE && |steps| == SECTORS_PER_PAGE
    ensures IsBestScore(Obfuscate(plain, pn, bv, steps), pn, found) <==> PlainBestScore(plain, bv, WrappingSub(found, bv))
  {
    hide Obfuscate, Score, PlainScore, WrappingSub, WrappingAdd;
    ErrorAdded(found, bv, WrappingSub(found, bv));
    forall c: Byte
      ensures Score(Obfuscate(plain, pn, bv, steps), pn, c, 7) == PlainScore(plain, WrappingSub(c, bv), 7)
    {
      ScoreByPlain(plain, pn, bv, steps, c, 7);
    }
  }

  /** The calibration errors that recovery may make on a plaintext page. */
  ghost predicate PlainCalibration(plain: seq<Byte>, bv: Byte, error: Byte)
    requires |plain| == PAGE_SIZE
  {
    var ptype := plain[TRAILER_START + 2];
    || PlainLearned(plain, ptype, Some(error))
    || (PlainLearned(plain, ptype, None) && PlainBestScore(plain, bv, error))
  }

  /**
   Exact calibration. Which calibration bytes the recovery of a stored page may report is told by the plaintext:
   an error is possible if and only if the plaintext's own sectors vote for it, or none votes and it has the best score.
   */
  lemma CalibrationExactly(
      plain: seq<Byte>, pn: nat, bv: Byte, steps: seq<Byte>, store: seq<seq<Byte>>, fallback: Byte, found: Byte)
    requires |plain| == PAGE_SIZE && |steps| == SECTORS_PER_PAGE
    requires pn < |store| && store[pn] == Obfuscate(plain, pn, bv, steps)
    requires forall p :: 0 <= p < |store| ==> |store[p]| == PAGE_SIZE
    ensures CalibrationByte(store[pn], pn, store, fallback, found) <==> PlainCalibration(plain, bv, WrappingSub(found, bv))
  {
    var ptype := plain[TRAILER_START + 2];
    assert store[pn][TRAILER_START + 2] == ptype;
    hide Obfuscate, Learned, PlainLearned, IsBestScore, PlainBestScore, WrappingSub;
    LearnedByPlain(plain, pn, bv, steps, ptype, Some(found));
    LearnedByPlain(plain, pn, bv, steps, ptype, None);
    BestScoreByPlain(plain, pn, bv, steps, found);
  }

  /**
   The exact end-to-end theorem. For any plaintext and any run of the recovery on its stored page, the output is
   the plaintext if and only if the calibration byte found is the true one and every sector's plaintext shows its
   step; and the calibration byte found is one that the plaintext admits.
   */
  lemma EndToEndExactly(
      plain: seq<Byte>, pn: nat, bv: Byte, steps: seq<Byte>, raw: seq<Byte>, store: seq<seq<Byte>>, fallback: Byte,
      out: seq<Byte>, evidence: PageEvidence)
    requires |plain| == PAGE_SIZE && |steps| == SECTORS_PER_PAGE
    requires raw == Obfuscate(plain, pn, bv, steps)
    requires pn < |store| && store[pn] == raw && forall p :: 0 <= p < |store| ==> |store[p]| == PAGE_SIZE
    requires CalibrationByte(raw, pn, store, fallback, evidence.bv)
    requires PageRecovered(raw, pn, evidence.bv, out, evidence)
    ensures out == plain <==>
      evidence.bv == bv && forall si :: 0 <= si < SECTORS_PER_PAGE ==> StepShows(Sector(plain, si), steps[si])
    ensures PlainCalibration(plain, bv, WrappingSub(evidence.bv, bv))
  {
    hide Obfuscate, StepShows, PageRecovered, CalibrationByte, PlainCalibration;
    CalibrationExactly(plain, pn, bv, steps, store, fallback, evidence.bv);
    RecoveredParts(raw, pn, evidence.bv, out, evidence);
    RecoveredExactly(plain, pn, bv, steps, evidence.bv, out, evidence);
    if evidence.bv == bv {
      forall si | 0 <= si < SECTORS_PER_PAGE
        ensures evidence.sectors[si].chosenStep == steps[si] <==> StepShows(Sector(plain, si), steps[si])
      {
        SectorStepExactly(plain, pn, bv, steps, out, evidence, si);
      }
    }
  }

  lemma RecoveredParts(raw: seq<Byte>, pn: nat, bv: Byte, out: seq<Byte>, evidence: PageEvidence)
    requires |raw| >= PAGE_SIZE && PageRecovered(raw, pn, bv, out, evidence)
    ensures |out| == PAGE_SIZE && |evidence.sectors| == SECTORS_PER_PAGE
  {
  }

  // ---------------------------------------------------------------- three quarters is sharp

  /** A page whose sectors are exactly three quarters zero: 0, 0, 0, 128 over and over. */
  function ThreeQuartersPage(): (plain: seq<Byte>)
    ensures |plain| == PAGE_SIZE
  {
    seq(PAGE_SIZE, i => if i % 4 == 3 then 128 else 0)
  }

  lemma ThreeQuartersSector(si: nat)
    requires si < SECTORS_PER_PAGE
    ensures Sector(ThreeQuartersPage(), si) == Groups(if si == 7 then 124 else 128, 0, 0, 0, 128)
  {
    hide Groups;
    var m := if si == 7 then 124 else 128;
    forall i | 0 <= i < 4 * m
      ensures Sector(ThreeQuartersPage(), si)[i] == Groups(m, 0, 0, 0, 128)[i]
    {
      GroupAt(m, 0, 0, 0, 128, i);
      FourthOfSector(si, i);
    }
  }

  lemma FourthOfSector(si: nat, i: nat)
    ensures (si * SECTOR_SIZE + i) % 4 == i % 4
  {
  }

  /**
   The bound of three quarters is met by a failing page: every sector of this plaintext is exactly three
   quarters zero, and stored with step 128 no run of the recovery gives it back, with any calibration byte.
   */
  lemma ThreeQuartersPageIsLost(pn: nat, bv: Byte, found: Byte, out: seq<Byte>, evidence: PageEvidence)
    requires PageRecovered(Obfuscate(ThreeQuartersPage(), pn, bv, seq(SECTORS_PER_PAGE, si => 128)), pn, found, out, evidence)
    ensures forall si :: 0 <= si < SECTORS_PER_PAGE ==>
      4 * Count(Sector(ThreeQuartersPage(), si), 0) == 3 * |Sector(ThreeQuartersPage(), si)|
    ensures out != ThreeQuartersPage()
  {
    var plain, steps: seq<Byte> := ThreeQuartersPage(), seq(SECTORS_PER_PAGE, si => 128);
    hide Obfuscate, ThreeQuartersPage, PageRecovered, Count, Groups;
    forall si | 0 <= si < SECTORS_PER_PAGE
      ensures 4 * Count(Sector(plain, si), 0) == 3 * |Sector(plain, si)|
    {
      ThreeQuartersSector(si);
      ThreePerGroup(if si == 7 then 124 else 128);
    }
    RecoveredParts(Obfuscate(plain, pn, bv, steps), pn, found, out, evidence);
    RecoveredExactly(plain, pn, bv, steps, found, out, evidence);
    if out == plain {
      FirstSectorIsLost(pn, bv, steps, out, evidence);
    }
  }

  lemma FirstSectorIsLost(pn: nat, bv: Byte, steps: seq<Byte>, out: seq<Byte>, evidence: PageEvidence)
    requires |steps| == SECTORS_PER_PAGE && steps[0] == 128
    requires PageRecovered(Obfuscate(ThreeQuartersPage(), pn, bv, steps), pn, bv, out, evidence)
    ensures evidence.sectors[0].chosenStep != 128
  {
    hide Obfuscate, ThreeQuartersPage, Plain, ExactEvidence, ApBase, Groups, Sector;
    var page := Obfuscate(ThreeQuartersPage(), pn, bv, steps);
    assert SectorRecovered(page, pn, bv, out, 0, evidence.sectors[0]);
    SectorDecodes(ThreeQuartersPage(), pn, bv, steps, 0);
    ThreeQuartersSector(0);
    ThreeQuartersIsNotEnough(128, ApBase(pn, 0, bv), Sector(page, 0), 0, evidence.sectors[0]);
  }

  /** The step search itself, for every base and length: a sector of that plaintext exists, and its step is not chosen. */
  lemma ThreeQuartersIsLost(m: nat, base: Byte, si: nat) returns (sec: seq<Byte>)
    ensures |sec| == 4 * m && Plain(sec, base, 128) == Groups(m, 0, 0, 0, 128)
    ensures 4 * Count(Plain(sec, base, 128), 0) == 3 * |sec|
    ensures forall e :: ExactEvidence(sec, base, si, e) ==> e.chosenStep != 128
  {
    hide Fill, Groups, ExactEvidence, Strip, Count;
    sec := seq(4 * m, i requires 0 <= i < 4 * m => WrappingAdd(Fill(base, 128, i), Groups(m, 0, 0, 0, 128)[i]));
    forall i | 0 <= i < 4 * m
      ensures Plain(sec, base, 128)[i] == Groups(m, 0, 0, 0, 128)[i]
    {
      StripUndoesFill(base, 128, i, Groups(m, 0, 0, 0, 128)[i]);
    }
    ThreePerGroup(m);
    forall e | ExactEvidence(sec, base, si, e)
      ensures e.chosenStep != 128
    {
      ThreeQuartersIsNotEnough(m, base, sec, si, e);
    }
  }
}
