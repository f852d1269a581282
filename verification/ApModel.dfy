/** Per-page calibration and deobfuscation (`ApModel` in `ap.rs`). */
module ApModel {
  import opened Wrappers
  import opened Bytes
  import opened ByteCounts
  import opened ApStream

  // ---------------------------------------------------------------- pages and sectors

  function SectorEnd(si: nat): nat
    requires si < SECTORS_PER_PAGE
  {
    if si + 1 == SECTORS_PER_PAGE then TRAILER_START else (si + 1) * SECTOR_SIZE
  }

  /** The obfuscated bytes of one sector; the last sector stops at the trailer. */
  function Sector(page: seq<Byte>, si: nat): (s: seq<Byte>)
    requires |page| >= PAGE_SIZE && si < SECTORS_PER_PAGE
    ensures |s| == if si == 7 then 496 else 512
  {
    page[si * SECTOR_SIZE..SectorEnd(si)]
  }

  /**
   The base of a sector, by recurrence: the calibration byte at the first sector of page 0, one more from sector
   to sector, and from page to page one more, three less or twenty-nine more, by the place in a block of sixteen.
   */
  function BaseAt(pn: nat, si: nat, bv: Byte): Byte
    decreases pn, si
  {
    if si > 0 then (BaseAt(pn, si - 1, bv) + 1) % 256
    else if pn == 0 then bv
    else if (pn - 1) % 2 == 0 then (BaseAt(pn - 1, 0, bv) + 1) % 256
    else if (pn - 1) % 16 == 15 then (BaseAt(pn - 1, 0, bv) + 29) % 256
    else (BaseAt(pn - 1, 0, bv) - 3) % 256
  }

  lemma ApBaseSum(pn: nat, si: nat, bv: Byte)
    ensures ApBase(pn, si, bv) == Wrap(bv + pn + si - Bias(pn))
  {
    hide Wrap, Bias;
    SumOfFour(bv, pn, si, Bias(pn));
  }

  lemma SumOfFour(bv: int, pn: int, si: int, bias: int)
    ensures Wrap(Wrap(Wrap(bv + Wrap(pn)) + Wrap(si)) - bias) == Wrap(bv + pn + si - bias)
  {
    hide Wrap;
    WrapAdd(pn, bv);
    WrapAdd(bv + pn, Wrap(si));
    WrapAdd(si, bv + pn);
    WrapAdd(bv + pn + si, -bias);
  }

  lemma BiasStep(pn: nat)
    ensures Bias(0) == 0
    ensures Bias(pn + 1) == Bias(pn) + (if pn % 2 == 0 then 0 else if pn % 16 == 15 then -28 else 4)
  {
    var q, p := pn / 16, pn % 16;
    PlaceAfter(pn, q, p);
    BiasOfPlace(p);
  }

  lemma PlaceAfter(pn: nat, q: nat, p: nat)
    requires pn == 16 * q + p && p < 16
    ensures pn % 16 == p && pn % 2 == p % 2 && (pn + 1) % 16 == if p == 15 then 0 else p + 1
  {
    PlaceInBlock(pn, q, p);
    if p == 15 {
      PlaceInBlock(pn + 1, q + 1, 0);
    } else {
      PlaceInBlock(pn + 1, q, p + 1);
    }
    ParityOfSum(pn, 8 * q, p);
  }

  lemma PlaceInBlock(x: nat, q: nat, p: nat)
    requires x == 16 * q + p && p < 16
    ensures x % 16 == p
  {
  }

  lemma ParityOfSum(x: nat, h: nat, p: nat)
    requires x == 2 * h + p
    ensures x % 2 == p % 2
  {
  }

  lemma BiasOfPlace(p: nat)
    requires p < 16
    ensures p < 15 ==> (p + 1) / 2 * 4 == p / 2 * 4 + (if p % 2 == 0 then 0 else 4)
    ensures p == 15 ==> p / 2 * 4 == 28 && p % 2 == 1
  {
  }

  /** The base formula is that recurrence. */
  lemma {:induction false} BaseByRecurrence(pn: nat, si: nat, bv: Byte)
    ensures ApBase(pn, si, bv) == BaseAt(pn, si, bv)
    decreases pn, si
  {
    hide ApBase, Bias;
    if si > 0 {
      BaseByRecurrence(pn, si - 1, bv);
      NextSector(pn, si - 1, bv);
    } else if pn > 0 {
      BaseByRecurrence(pn - 1, 0, bv);
      NextPage(pn - 1, bv);
    } else {
      FirstBase(bv);
    }
  }

  lemma FirstBase(bv: Byte)
    ensures ApBase(0, 0, bv) == bv
  {
    ApBaseSum(0, 0, bv);
    BiasStep(0);
    WrapOfByte(bv);
    hide ApBase, Bias;
  }

  lemma NextSector(pn: nat, si: nat, bv: Byte)
    ensures ApBase(pn, si + 1, bv) == Wrap(ApBase(pn, si, bv) + 1)
  {
    hide *;
    ApBaseSum(pn, si, bv);
    ApBaseSum(pn, si + 1, bv);
    WrapAdd(bv + pn + si - Bias(pn), 1);
  }

  lemma NextPage(pn: nat, bv: Byte)
    ensures ApBase(pn + 1, 0, bv)
         == Wrap(ApBase(pn, 0, bv) + (if pn % 2 == 0 then 1 else if pn % 16 == 15 then 29 else -3))
  {
    hide *;
    ApBaseSum(pn, 0, bv);
    ApBaseSum(pn + 1, 0, bv);
    BiasStep(pn);
    WrapAdd(bv + pn - Bias(pn), 1 + Bias(pn) - Bias(pn + 1));
  }

  /** A plaintext byte with the keystream of a base and step added at place `k` of its sector. */
  function Keyed(base: Byte, step: Byte, k: nat, plain: Byte): Byte {
    (base + k * step + plain) % 256
  }

  /** A full page with its keystream added: what the page store holds for `plain`. The last sixteen bytes are stored plain. */
  function Obfuscate(plain: seq<Byte>, pn: nat, bv: Byte, steps: seq<Byte>): (stored: seq<Byte>)
    requires |plain| == PAGE_SIZE && |steps| == SECTORS_PER_PAGE
    ensures |stored| == PAGE_SIZE
  {
    seq(4096, i requires 0 <= i < 4096 =>
      if i < 4080 then Keyed(BaseAt(pn, i / 512, bv), steps[i / 512], i % 512, plain[i]) else plain[i])
  }

  lemma TrailerIsPlain(plain: seq<Byte>, pn: nat, bv: Byte, steps: seq<Byte>)
    requires |plain| == PAGE_SIZE && |steps| == SECTORS_PER_PAGE
    ensures Obfuscate(plain, pn, bv, steps)[TRAILER_START..PAGE_SIZE] == plain[TRAILER_START..]
  {
    hide Keyed, BaseAt;
  }

  lemma KeyedByFill(pn: nat, si: nat, bv: Byte, step: Byte, k: nat, plain: Byte)
    ensures Keyed(BaseAt(pn, si, bv), step, k, plain) == WrappingAdd(Fill(ApBase(pn, si, bv), step, k), plain)
  {
    BaseByRecurrence(pn, si, bv);
    FillValue(ApBase(pn, si, bv), step, k);
    hide Fill, ApBase, BaseAt;
    AddPlain(ApBase(pn, si, bv), k * step, plain);
  }

  lemma AddPlain(base: int, x: int, plain: int)
    ensures (base + x + plain) % 256 == Wrap(Wrap(base + x) + plain)
  {
    WrapAdd(base + x, plain);
  }

  lemma PlaceInSector(si: nat, i: nat)
    requires i < 512
    ensures (si * 512 + i) / 512 == si && (si * 512 + i) % 512 == i
  {
  }

  /** Decoding an obfuscated sector with its own base and step gives the plaintext sector back. */
  lemma SectorDecodes(plain: seq<Byte>, pn: nat, bv: Byte, steps: seq<Byte>, si: nat)
    requires |plain| == PAGE_SIZE && |steps| == SECTORS_PER_PAGE && si < SECTORS_PER_PAGE
    ensures Plain(Sector(Obfuscate(plain, pn, bv, steps), si), ApBase(pn, si, bv), steps[si]) == Sector(plain, si)
  {
    hide Fill, Strip, ApBase, Obfuscate, Sector;
    var sec := Sector(Obfuscate(plain, pn, bv, steps), si);
    var base := ApBase(pn, si, bv);
    forall i | 0 <= i < |sec|
      ensures Strip(sec[i], base, steps[si], i) == Sector(plain, si)[i]
    {
      StoredByte(plain, pn, bv, steps, si, i);
      StripUndoesFill(base, steps[si], i, Sector(plain, si)[i]);
    }
  }

  lemma StoredByte(plain: seq<Byte>, pn: nat, bv: Byte, steps: seq<Byte>, si: nat, i: nat)
    requires |plain| == PAGE_SIZE && |steps| == SECTORS_PER_PAGE && si < SECTORS_PER_PAGE && i < |Sector(plain, si)|
    ensures Sector(Obfuscate(plain, pn, bv, steps), si)[i]
         == WrappingAdd(Fill(ApBase(pn, si, bv), steps[si], i), Sector(plain, si)[i])
  {
    hide Fill, ApBase, WrappingAdd, Keyed, BaseAt;
    PlaceInSector(si, i);
    KeyedByFill(pn, si, bv, steps[si], i, Sector(plain, si)[i]);
    var at := si * 512 + i;
    assert Sector(plain, si)[i] == plain[at];
    assert Sector(Obfuscate(plain, pn, bv, steps), si)[i] == Obfuscate(plain, pn, bv, steps)[at];
  }

  // ---------------------------------------------------------------- scoring calibration bytes

  /** The best count of `b` over the first `n` candidate steps. */
  function BestMatchBelow(sec: seq<Byte>, offset: Byte, b: Byte, n: nat): nat
    requires n <= 256
  {
    if n == 0 then 0
    else
      var rest := BestMatchBelow(sec, offset, b, n - 1);
      var h := Count(Plain(sec, offset, n - 1), b);
      if h > rest then h else rest
  }

  /** What one sector contributes to the score of calibration byte `b`. */
  function BestMatch(sec: seq<Byte>, offset: Byte, b: Byte): nat {
    BestMatchBelow(sec, offset, b, 256)
  }

  /** The score of calibration byte `b` after the first `n` sectors. */
  function Score(page: seq<Byte>, pn: nat, b: Byte, n: nat): nat
    requires |page| >= PAGE_SIZE && n <= 7
  {
    if n == 0 then 0
    else Score(page, pn, b, n - 1) + BestMatch(Sector(page, n - 1), ScoreOffset(pn, n - 1), b)
  }

  /** For every calibration byte, its best count over all candidate steps of one sector. */
  method BestMatches(sec: seq<Byte>, offset: Byte) returns (stepBvMax: array<nat>)
    ensures fresh(stepBvMax) && stepBvMax.Length == 256
    ensures forall b: Byte :: stepBvMax[b] == BestMatch(sec, offset, b)
  {
    hide Plain, Count;
    stepBvMax := new nat[256](_ => 0);
    for step := 0 to 256
      invariant forall b: Byte :: stepBvMax[b] == BestMatchBelow(sec, offset, b, step)
    {
      var hist := PlaintextHistogram(sec, offset, step);
      for b := 0 to 256
        invariant forall c: Byte :: hist[c] == Count(Plain(sec, offset, step), c)
        invariant forall c: Byte :: c < b ==> stepBvMax[c] == BestMatchBelow(sec, offset, c, step + 1)
        invariant forall c: Byte :: b <= c ==> stepBvMax[c] == BestMatchBelow(sec, offset, c, step)
      {
        if hist[b] > stepBvMax[b] {
          stepBvMax[b] := hist[b];
        }
      }
    }
  }

  /** Adds the scores of one page; the last sector, which overlaps the trailer, is skipped. */
  method ScoreBvCandidates(page: seq<Byte>, pn: nat, bvScore: array<nat>)
    requires |page| >= PAGE_SIZE && bvScore.Length == 256
    modifies bvScore
    ensures forall b: Byte :: bvScore[b] == old(bvScore[b]) + Score(page, pn, b, 7)
  {
    hide BestMatch, Sector, ScoreOffset;
    for si := 0 to 7
      invariant forall b: Byte :: bvScore[b] == old(bvScore[b]) + Score(page, pn, b, si)
    {
      var stepBvMax := BestMatches(Sector(page, si), ScoreOffset(pn, si));
      for b := 0 to 256
        invariant forall c: Byte :: stepBvMax[c] == BestMatch(Sector(page, si), ScoreOffset(pn, si), c)
        invariant forall c: Byte :: c < b ==> bvScore[c] == old(bvScore[c]) + Score(page, pn, c, si + 1)
        invariant forall c: Byte :: b <= c ==> bvScore[c] == old(bvScore[c]) + Score(page, pn, c, si)
      {
        bvScore[b] := bvScore[b] + stepBvMax[b];
      }
    }
  }

  /** The calibration byte with the greatest score, the largest of them. */
  ghost predicate IsBestScore(page: seq<Byte>, pn: nat, b: Byte)
    requires |page| >= PAGE_SIZE
  {
    forall c: Byte :: Score(page, pn, c, 7) <= Score(page, pn, b, 7)
                   && (c > b ==> Score(page, pn, c, 7) < Score(page, pn, b, 7))
  }

  /** The scores of one page, added to none. */
  method ScoresOf(page: seq<Byte>, pn: nat) returns (bvScore: array<nat>)
    requires |page| >= PAGE_SIZE
    ensures fresh(bvScore) && bvScore.Length == 256
    ensures forall b: Byte :: bvScore[b] == Score(page, pn, b, 7)
  {
    hide Score;
    bvScore := new nat[256](_ => 0);
    ScoreBvCandidates(page, pn, bvScore);
  }

  lemma BestOfScores(page: seq<Byte>, pn: nat, scores: array<nat>, bv: Byte)
    requires |page| >= PAGE_SIZE && scores.Length == 256
    requires forall b: Byte :: scores[b] == Score(page, pn, b, 7)
    requires forall w: Byte :: scores[w] <= scores[bv] && (w > bv ==> scores[w] < scores[bv])
    ensures IsBestScore(page, pn, bv)
  {
    hide Score;
    forall c: Byte
      ensures Score(page, pn, c, 7) <= Score(page, pn, bv, 7) && (c > bv ==> Score(page, pn, c, 7) < Score(page, pn, bv, 7))
    {
      assert scores[c] == Score(page, pn, c, 7) && scores[bv] == Score(page, pn, bv, 7);
    }
  }

  /** Brute-force recovery for one page; `fallback` is the model's `bv0` for a page outside the store. */
  method RecoverBvForPage(store: seq<seq<Byte>>, pn: nat, fallback: Byte) returns (bv: Byte)
    requires forall p :: 0 <= p < |store| ==> |store[p]| == PAGE_SIZE
    ensures if pn < |store| then IsBestScore(store[pn], pn, bv) else bv == fallback
  {
    if pn >= |store| {
      return fallback;
    }
    hide Score, IsBestScore;
    var bvScore := ScoresOf(store[pn], pn);
    bv := LastLargest(bvScore);
    BestOfScores(store[pn], pn, bvScore, bv);
  }

  // ---------------------------------------------------------------- learning from a pure page

  function Differences(sec: seq<Byte>): seq<Byte> {
    if |sec| == 0 then [] else seq(|sec| - 1, i requires 0 <= i < |sec| - 1 => WrappingSub(sec[i + 1], sec[i]))
  }

  /** The most frequent difference of neighbouring bytes. */
  method DominantStep(sec: seq<Byte>) returns (step: Byte)
    ensures IsLastMode(Differences(sec), step)
  {
    hide WrappingSub, IsLastMode, Count;
    CountsOfNone();
    var hist := new nat[256](_ => 0);
    ghost var d := Differences(sec);
    var i := 0;
    while i + 1 < |sec|
      invariant 0 <= i <= |d|
      invariant forall v: Byte :: hist[v] == Count(d[..i], v)
    {
      var diff := WrappingSub(sec[i + 1], sec[i]);
      CountsOfNext(d, i);
      hist[diff] := hist[diff] + 1;
      i := i + 1;
    }
    assert d[..i] == d;
    step := LastLargestIndex(hist, d);
  }

  /** The base that matches the most bytes for a given step. */
  method RecoverBase(sec: seq<Byte>, step: Byte) returns (base: Byte)
    ensures IsLastMode(Plain(sec, 0, step), base)
  {
    var hist := PlaintextHistogram(sec, 0, step);
    base := LastLargestIndex(hist, Plain(sec, 0, step));
  }

  /** How many of the first `n` bytes are exactly the keystream. */
  function Hits(sec: seq<Byte>, base: Byte, step: Byte, n: nat): (h: nat)
    requires n <= |sec|
    ensures h <= n
  {
    if n == 0 then 0 else Hits(sec, base, step, n - 1) + (if sec[n - 1] == Fill(base, step, n - 1) then 1 else 0)
  }

  /** Every byte of the sector is the bare keystream. */
  ghost predicate IsPure(sec: seq<Byte>, base: Byte, step: Byte) {
    forall i :: 0 <= i < |sec| ==> sec[i] == Fill(base, step, i)
  }

  lemma {:induction false} FullPurity(sec: seq<Byte>, base: Byte, step: Byte, n: nat)
    requires n <= |sec|
    ensures Hits(sec, base, step, n) == n <==> forall i :: 0 <= i < n ==> sec[i] == Fill(base, step, i)
  {
    hide Fill;
    if n > 0 {
      FullPurity(sec, base, step, n - 1);
    }
  }

  /** The base formula solved for the calibration byte. */
  function BvOfBase(pn: nat, si: nat, base: Byte): Byte {
    WrappingAdd(WrappingSub(WrappingSub(base, Wrap(pn)), Wrap(si)), Bias(pn))
  }

  lemma ApBaseValue(pn: nat, si: nat, bv: Byte)
    ensures ApBase(pn, si, bv) == Wrap(bv + ScoreOffset(pn, si))
  {
    hide Wrap;
    OffsetLast(bv, Wrap(pn), Wrap(si), Bias(pn));
  }

  lemma OffsetLast(bv: int, p: int, s: int, k: int)
    ensures Wrap(Wrap(Wrap(bv + p) + s) - k) == Wrap(bv + Wrap(Wrap(p + s) - k))
  {
    hide Wrap;
    WrapAdd(bv + p, s);
    WrapAdd(bv + p + s, -k);
    WrapAdd(p + s, -k);
    WrapAdd(p + s - k, bv);
  }

  lemma BvOfBaseValue(pn: nat, si: nat, base: Byte)
    ensures BvOfBase(pn, si, base) == Wrap(base - ScoreOffset(pn, si))
  {
    hide Wrap;
    OffsetFirst(base, Wrap(pn), Wrap(si), Bias(pn));
  }

  lemma OffsetFirst(base: int, p: int, s: int, k: int)
    ensures Wrap(Wrap(Wrap(base - p) - s) + k) == Wrap(base - Wrap(Wrap(p + s) - k))
  {
    hide Wrap;
    WrapAdd(base - p, -s);
    WrapAdd(base - p - s, k);
    WrapAdd(p + s, -k);
    WrapMinus(base, p + s - k);
  }

  /** Solving the base formula for the calibration byte inverts it. */
  lemma BvOfApBase(pn: nat, si: nat, bv: Byte, base: Byte)
    ensures BvOfBase(pn, si, base) == bv <==> base == ApBase(pn, si, bv)
  {
    hide BvOfBase, ApBase, ScoreOffset;
    ApBaseValue(pn, si, bv);
    BvOfBaseValue(pn, si, base);
    SolveForAddend(base, bv, ScoreOffset(pn, si));
  }

  lemma SolveForAddend(sum: Byte, x: Byte, y: Byte)
    ensures Wrap(sum - y) == x <==> sum == Wrap(x + y)
  {
  }

  /** A keystream byte stripped with another base leaves the difference of the bases. */
  lemma StripOfFill(from: Byte, base: Byte, step: Byte, i: nat)
    ensures Strip(Fill(from, step, i), base, step, i) == Wrap(from - base)
  {
    hide Wrap, WrappingMul;
    FillThenStrip(from, base, WrappingMul(Wrap(i), step));
  }

  lemma FillThenStrip(from: int, base: int, k: int)
    ensures Wrap(Wrap(Wrap(from + k) - base) - k) == Wrap(from - base)
  {
    hide Wrap;
    WrapAdd(from + k, -base);
    WrapAdd(from + k - base, -k);
  }

  lemma FillValue(base: Byte, step: Byte, i: nat)
    ensures Fill(base, step, i) == Wrap(base + i * step)
  {
    WrapMul(step, i);
    assert Wrap(i) * step == step * Wrap(i) && step * i == i * step;
    AddWrapped(base, Wrap(i) * step, i * step);
  }

  lemma AddWrapped(base: int, k: int, exact: int)
    requires Wrap(k) == Wrap(exact)
    ensures Wrap(base + Wrap(k)) == Wrap(base + exact)
  {
    WrapAdd(exact, base);
    hide Wrap;
  }

  /** Two neighbouring keystream bytes, for some multiple of the step. */
  lemma FillPair(base: Byte, step: Byte, i: nat) returns (k: int)
    ensures Fill(base, step, i) == Wrap(base + k) && Fill(base, step, i + 1) == Wrap(base + k + step)
  {
    hide Fill, Wrap;
    k := i * step;
    OneMoreStep(i, step);
    FillAt(base, step, i, k);
    FillAt(base, step, i + 1, k + step);
  }

  lemma FillAt(base: Byte, step: Byte, i: nat, k: int)
    requires k == i * step
    ensures Fill(base, step, i) == Wrap(base + k)
  {
    FillValue(base, step, i);
    hide Fill, Wrap;
  }

  lemma FillStep(base: Byte, step: Byte, i: nat)
    ensures WrappingSub(Fill(base, step, i + 1), Fill(base, step, i)) == step
  {
    var k := FillPair(base, step, i);
    hide Fill;
    DifferenceOfWraps(base + k, step);
  }

  lemma DifferenceOfWraps(x: int, step: Byte)
    ensures Wrap(Wrap(x + step) - Wrap(x)) == step
  {
    WrapMinus(Wrap(x + step), x);
    WrapAdd(x + step, -x);
    WrapOfByte(step);
    hide Wrap;
  }

  /** The two histogram modes cannot miss a perfect progression. */
  lemma ModesFindProgression(sec: seq<Byte>, base: Byte, step: Byte, foundBase: Byte, foundStep: Byte)
    requires |sec| > 1 && IsPure(sec, base, step)
    requires IsLastMode(Differences(sec), foundStep) && IsLastMode(Plain(sec, 0, foundStep), foundBase)
    ensures foundStep == step && foundBase == base
  {
    hide Fill, Strip, IsLastMode;
    forall i | 0 <= i < |sec| - 1
      ensures Differences(sec)[i] == step
    {
      FillStep(base, step, i);
    }
    ConstantLastMode(Differences(sec), step, foundStep);
    forall i | 0 <= i < |sec|
      ensures Plain(sec, 0, step)[i] == base
    {
      StripOfFill(base, 0, step, i);
    }
    ConstantLastMode(Plain(sec, 0, step), base, foundBase);
  }

  /** A progression of at least two bytes shows its own base and step. */
  lemma PureForm(sec: seq<Byte>, base: Byte, step: Byte)
    requires |sec| > 1 && IsPure(sec, base, step)
    ensures base == sec[0] && step == WrappingSub(sec[1], sec[0])
  {
    assert sec[0] == Fill(base, step, 0) && sec[1] == Fill(base, step, 0 + 1);
    FirstFill(base, step);
    FillStep(base, step, 0);
    hide Fill, Wrap;
  }

  lemma FirstFill(base: Byte, step: Byte)
    ensures Fill(base, step, 0) == base
  {
    FillValue(base, step, 0);
    WrapOfByte(base);
    hide Fill, Wrap;
  }

  /** The calibration byte that one sector votes for: that of its base, when the whole sector is one progression. */
  ghost function VoteOf(page: seq<Byte>, pn: nat, si: nat): Option<Byte>
    requires |page| >= PAGE_SIZE && si < SECTORS_PER_PAGE
  {
    var sec := Sector(page, si);
    if IsPure(sec, sec[0], WrappingSub(sec[1], sec[0])) then Some(BvOfBase(pn, si, sec[0])) else None
  }

  /** A sector votes exactly when some base and step explain all of it, and then for the calibration byte of that base. */
  lemma VotesExactlyWhenPure(page: seq<Byte>, pn: nat, si: nat, b: Byte)
    requires |page| >= PAGE_SIZE && si < SECTORS_PER_PAGE
    ensures VoteOf(page, pn, si) == Some(b)
       <==> exists base: Byte, step: Byte :: IsPure(Sector(page, si), base, step) && b == BvOfBase(pn, si, base)
  {
    hide IsPure, BvOfBase;
    var sec := Sector(page, si);
    forall base: Byte, step: Byte | IsPure(sec, base, step)
      ensures base == sec[0] && step == WrappingSub(sec[1], sec[0])
    {
      PureForm(sec, base, step);
    }
  }

  /** The vote is found by two histogram modes and a purity test. */
  method SectorVote(page: seq<Byte>, pn: nat, si: nat) returns (vote: Option<Byte>)
    requires |page| >= PAGE_SIZE && si < SECTORS_PER_PAGE
    ensures vote == VoteOf(page, pn, si)
  {
    hide IsLastMode, Plain, Differences, Fill, BvOfBase, Hits;
    var sec := Sector(page, si);
    var step := DominantStep(sec);
    var base := RecoverBase(sec, step);
    FullPurity(sec, base, step, |sec|);
    if Hits(sec, base, step, |sec|) < |sec| {
      vote := None;
      if IsPure(sec, sec[0], WrappingSub(sec[1], sec[0])) {
        ModesFindProgression(sec, sec[0], WrappingSub(sec[1], sec[0]), base, step);
      }
    } else {
      vote := Some(BvOfBase(pn, si, base));
      PureForm(sec, base, step);
    }
  }

  /** How many of the first `n` sectors vote for `b`. */
  ghost function VotesFor(page: seq<Byte>, pn: nat, b: Byte, n: nat): nat
    requires |page| >= PAGE_SIZE && n <= SECTORS_PER_PAGE
  {
    if n == 0 then 0 else VotesFor(page, pn, b, n - 1) + (if VoteOf(page, pn, n - 1) == Some(b) then 1 else 0)
  }

  /** `r` has the most votes of the eight sectors, if there are any and the page type admits them. */
  ghost predicate Learned(page: seq<Byte>, pn: nat, ptype: Byte, r: Option<Byte>)
    requires |page| >= PAGE_SIZE
  {
    if ptype as char !in {'@', 'C', 'H', 'M'} then r == None
    else
      && (r == None <==> forall b: Byte :: VotesFor(page, pn, b, SECTORS_PER_PAGE) == 0)
      && (r.Some? ==> forall b: Byte ::
            VotesFor(page, pn, b, SECTORS_PER_PAGE) <= VotesFor(page, pn, r.value, SECTORS_PER_PAGE))
  }

  /** Among equally voted candidates the hash map's order decides, so any of them may be returned. */
  method MostVoted(votes: map<Byte, nat>) returns (r: Option<Byte>)
    ensures r == None <==> votes == map[]
    ensures r.Some? ==> r.value in votes && forall b :: b in votes ==> votes[b] <= votes[r.value]
  {
    if votes == map[] {
      return None;
    }
    GreatestExists(votes, votes.Keys);
    var b :| b in votes && forall c :: c in votes ==> votes[c] <= votes[b];
    return Some(b);
  }

  lemma {:induction false} GreatestExists(votes: map<Byte, nat>, keys: set<Byte>)
    requires keys <= votes.Keys && keys != {}
    ensures exists b :: b in keys && forall c :: c in keys ==> votes[c] <= votes[b]
    decreases |keys|
  {
    var k :| k in keys;
    if keys == {k} {
      assert forall c :: c in keys ==> votes[c] <= votes[k];
    } else {
      GreatestExists(votes, keys - {k});
      var b :| b in keys - {k} && forall c :: c in keys - {k} ==> votes[c] <= votes[b];
      var best := if votes[k] > votes[b] then k else b;
      assert best in keys && forall c :: c in keys ==> votes[c] <= votes[best];
    }
  }

  method LearnBvForPage(page: seq<Byte>, pn: nat, ptype: Byte) returns (r: Option<Byte>)
    requires |page| >= PAGE_SIZE
    ensures Learned(page, pn, ptype, r)
  {
    hide VoteOf;
    if ptype !in PURE_AP_TYPES {
      return None;
    }
    var votes: map<Byte, nat> := map[];
    for si := 0 to SECTORS_PER_PAGE
      invariant forall b: Byte :: VotesFor(page, pn, b, si) == if b in votes then votes[b] else 0
      invariant forall b :: b in votes ==> votes[b] > 0
    {
      var vote := SectorVote(page, pn, si);
      if vote.Some? {
        var seen := if vote.value in votes then votes[vote.value] else 0;
        votes := votes[vote.value := seen + 1];
      }
    }
    r := MostVoted(votes);
    if r == None {
      assert forall b: Byte :: VotesFor(page, pn, b, SECTORS_PER_PAGE) == 0;
    } else {
      assert VotesFor(page, pn, r.value, SECTORS_PER_PAGE) > 0;
    }
  }

  // ---------------------------------------------------------------- deobfuscating a page

  datatype PageEvidence = PageEvidence(pageNumber: nat, bv: Byte, sectors: seq<SectorEvidence>, tiedSectorCount: nat)

  ghost function TiedSectors(sectors: seq<SectorEvidence>): set<nat> {
    set i: nat | i < |sectors| && sectors[i].bestPeakTied
  }

  function TiedCount(sectors: seq<SectorEvidence>): (n: nat)
    ensures n == |TiedSectors(sectors)| <= |sectors|
    ensures n == 0 <==> forall i :: 0 <= i < |sectors| ==> !sectors[i].bestPeakTied
  {
    if sectors == [] then 0
    else
      assert sectors == sectors[..|sectors| - 1] + [sectors[|sectors| - 1]];
      assert TiedSectors(sectors)
          == TiedSectors(sectors[..|sectors| - 1]) + (if sectors[|sectors| - 1].bestPeakTied then {|sectors| - 1} else {});
      TiedCount(sectors[..|sectors| - 1]) + (if sectors[|sectors| - 1].bestPeakTied then 1 else 0)
  }

  /** One sector of the output is the input sector stripped with the reported step. */
  ghost predicate SectorRecovered(raw: seq<Byte>, pn: nat, bv: Byte, out: seq<Byte>, si: nat, e: SectorEvidence)
    requires |raw| >= PAGE_SIZE && |out| == PAGE_SIZE && si < SECTORS_PER_PAGE
  {
    && ExactEvidence(Sector(raw, si), ApBase(pn, si, bv), si, e)
    && Sector(out, si) == Plain(Sector(raw, si), ApBase(pn, si, bv), e.chosenStep)
  }

  /** What deobfuscating one page with a given calibration byte returns. */
  ghost predicate PageRecovered(raw: seq<Byte>, pn: nat, bv: Byte, out: seq<Byte>, evidence: PageEvidence)
    requires |raw| >= PAGE_SIZE
  {
    && |out| == PAGE_SIZE
    && evidence.pageNumber == pn && evidence.bv == bv
    && |evidence.sectors| == SECTORS_PER_PAGE
    && (forall si :: 0 <= si < SECTORS_PER_PAGE ==> SectorRecovered(raw, pn, bv, out, si, evidence.sectors[si]))
    && out[TRAILER_START..] == raw[TRAILER_START..PAGE_SIZE]
    && evidence.tiedSectorCount == TiedCount(evidence.sectors)
  }

  /** Writes the stripped sector into its place in the output. */
  method ApplyStream(sec: seq<Byte>, base: Byte, step: Byte, out: array<Byte>, off: nat)
    requires off + |sec| <= out.Length
    modifies out
    ensures out[off..off + |sec|] == Plain(sec, base, step)
    ensures out[..off] == old(out[..off]) && out[off + |sec|..] == old(out[off + |sec|..])
  {
    for i := 0 to |sec|
      invariant forall k :: 0 <= k < i ==> out[off + k] == Strip(sec[k], base, step, k)
      invariant out[..off] == old(out[..off]) && out[off + |sec|..] == old(out[off + |sec|..])
    {
      out[off + i] := Strip(sec[i], base, step, i);
    }
  }

  lemma SameSector(a: seq<Byte>, b: seq<Byte>, si: nat, n: nat)
    requires |a| == |b| >= PAGE_SIZE && si < SECTORS_PER_PAGE && SectorEnd(si) <= n <= |a|
    requires a[..n] == b[..n]
    ensures Sector(a, si) == Sector(b, si)
  {
    assert Sector(a, si) == a[..n][si * SECTOR_SIZE..SectorEnd(si)];
    assert Sector(b, si) == b[..n][si * SECTOR_SIZE..SectorEnd(si)];
  }

  lemma SectorPlace(page: seq<Byte>, si: nat)
    requires |page| >= PAGE_SIZE && si < SECTORS_PER_PAGE
    ensures si * SECTOR_SIZE + |Sector(page, si)| <= |page|
    ensures Sector(page, si) == page[si * SECTOR_SIZE..si * SECTOR_SIZE + |Sector(page, si)|]
  {
  }

  method DeobfuscateWithBvAndConfidence(raw: seq<Byte>, pn: nat, bv: Byte)
    returns (out: array<Byte>, evidence: PageEvidence)
    requires |raw| >= PAGE_SIZE
    ensures fresh(out) && PageRecovered(raw, pn, bv, out[..], evidence)
  {
    hide Plain, ExactEvidence, ApBase, TiedCount, TiedSectors, Sector;
    out := new Byte[PAGE_SIZE](_ => 0);
    var sectors: seq<SectorEvidence> := [];
    for si := 0 to SECTORS_PER_PAGE
      invariant |sectors| == si
      invariant forall k :: 0 <= k < si ==> SectorRecovered(raw, pn, bv, out[..], k, sectors[k])
    {
      var sec, base := Sector(raw, si), ApBase(pn, si, bv);
      var e := RecoverStepConfidence(sec, base, si);
      ghost var before := out[..];
      ApplyStream(sec, base, e.chosenStep, out, si * SECTOR_SIZE);
      SectorPlace(raw, si);
      SectorPlace(out[..], si);
      forall k | 0 <= k < si
        ensures Sector(out[..], k) == Sector(before, k)
      {
        SameSector(out[..], before, k, si * SECTOR_SIZE);
      }
      sectors := sectors + [e];
    }
    ghost var before := out[..];
    for i := TRAILER_START to PAGE_SIZE
      invariant out[..TRAILER_START] == before[..TRAILER_START]
      invariant forall k :: TRAILER_START <= k < i ==> out[k] == raw[k]
    {
      out[i] := raw[i];
    }
    forall k | 0 <= k < SECTORS_PER_PAGE
      ensures Sector(out[..], k) == Sector(before, k)
    {
      SameSector(out[..], before, k, TRAILER_START);
    }
    evidence := PageEvidence(pn, bv, sectors, TiedCount(sectors));
  }

  /**
   The calibration byte that a page is decoded with: learned from the page itself when that
   succeeds, and otherwise the best score of the stored page.
   */
  ghost predicate CalibrationByte(raw: seq<Byte>, pn: nat, store: seq<seq<Byte>>, fallback: Byte, bv: Byte)
    requires |raw| >= PAGE_SIZE
    requires forall p :: 0 <= p < |store| ==> |store[p]| == PAGE_SIZE
  {
    || Learned(raw, pn, raw[TRAILER_START + 2], Some(bv))
    || (Learned(raw, pn, raw[TRAILER_START + 2], None)
        && if pn < |store| then IsBestScore(store[pn], pn, bv) else bv == fallback)
  }

  method DeobfuscateWithStoreAndConfidence(raw: seq<Byte>, pn: nat, store: seq<seq<Byte>>, fallback: Byte)
    returns (out: array<Byte>, evidence: PageEvidence)
    requires |raw| >= PAGE_SIZE
    requires forall p :: 0 <= p < |store| ==> |store[p]| == PAGE_SIZE
    ensures CalibrationByte(raw, pn, store, fallback, evidence.bv)
    ensures fresh(out) && PageRecovered(raw, pn, evidence.bv, out[..], evidence)
  {
    hide Learned, IsBestScore, PageRecovered;
    var direct := LearnBvForPage(raw, pn, raw[TRAILER_START + 2]);
    var bv: Byte;
    if direct.Some? {
      bv := direct.value;
    } else {
      bv := RecoverBvForPage(store, pn, fallback);
    }
    out, evidence := DeobfuscateWithBvAndConfidence(raw, pn, bv);
    assert evidence.bv == bv by {
      RecoveredBv(raw, pn, bv, out[..], evidence);
    }
  }

  lemma RecoveredBv(raw: seq<Byte>, pn: nat, bv: Byte, out: seq<Byte>, evidence: PageEvidence)
    requires |raw| >= PAGE_SIZE && PageRecovered(raw, pn, bv, out, evidence)
    ensures evidence.bv == bv
  {
  }
}
