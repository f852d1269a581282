/** The slot-directory scan and the row slicing of a page (`slotted.rs`). */
module Slotted {
  import opened Wrappers
  import opened Bytes

  const PAGE_SIZE := 4096
  const TRAILER_START := 0xFF0
  const SEARCH_LIMIT := 0x300
  const SLOT_OFFSET_MIN := 0x20
  const MIN_LIVE_SLOTS := 8

  type U16 = x: int | 0 <= x < 0x1_0000

  datatype SlotDirectory = SlotDirectory(
    scanStart: nat, arrayStart: nat, end: nat, slots: seq<U16>, leadingZero: bool, bigEndian: bool)

  function ReadU16(plain: seq<Byte>, pos: nat, bigEndian: bool): U16
    requires pos + 1 < |plain|
  {
    if bigEndian then U16Le(plain[pos + 1], plain[pos]) else U16Le(plain[pos], plain[pos + 1])
  }

  predicate IsSlotOffset(value: U16) {
    SLOT_OFFSET_MIN <= value < TRAILER_START
  }

  function LiveCount(slots: seq<U16>): (n: nat)
    ensures n <= |slots|
  {
    if slots == [] then 0 else LiveCount(slots[..|slots| - 1]) + (if slots[|slots| - 1] != 0 then 1 else 0)
  }

  /** The least live slot. */
  function MinOffset(slots: seq<U16>): (r: Option<U16>)
    ensures r == None <==> forall i :: 0 <= i < |slots| ==> slots[i] == 0
    ensures r.Some? ==> r.value != 0 && r.value in slots && forall i :: 0 <= i < |slots| && slots[i] != 0 ==> r.value <= slots[i]
  {
    if slots == [] then None
    else
      var last := slots[|slots| - 1];
      var rest := MinOffset(slots[..|slots| - 1]);
      assert forall i :: 0 <= i < |slots| - 1 ==> slots[..|slots| - 1][i] == slots[i];
      if last != 0 && (rest == None || last < rest.value) then Some(last) else rest
  }

  lemma {:induction false} LiveCountZero(slots: seq<U16>)
    ensures LiveCount(slots) == 0 <==> MinOffset(slots) == None
  {
    if slots != [] {
      LiveCountZero(slots[..|slots| - 1]);
    }
  }

  // ---------------------------------------------------------------- runs of slot words

  /** The live slots strictly descend and lie where rows can lie, and the first slot is live. */
  ghost predicate WellFormedSlots(slots: seq<U16>) {
    && (slots != [] ==> slots[0] != 0)
    && (forall i :: 0 <= i < |slots| && slots[i] != 0 ==> IsSlotOffset(slots[i]))
    && (forall i, j :: 0 <= i < j < |slots| && slots[i] != 0 && slots[j] != 0 ==> slots[i] > slots[j])
  }

  /** `slots` are the words that start at `at`, inside the search limit, and could be a directory. */
  ghost predicate IsRun(plain: seq<Byte>, bigEndian: bool, at: nat, slots: seq<U16>)
    requires |plain| >= SEARCH_LIMIT
  {
    && (slots != [] ==> at + 2 * |slots| <= SEARCH_LIMIT)
    && (forall i :: 0 <= i < |slots| ==> slots[i] == ReadU16(plain, at + 2 * i, bigEndian))
    && WellFormedSlots(slots)
  }

  ghost predicate IsLongestRun(plain: seq<Byte>, bigEndian: bool, at: nat, slots: seq<U16>)
    requires |plain| >= SEARCH_LIMIT
  {
    IsRun(plain, bigEndian, at, slots) && forall other :: IsRun(plain, bigEndian, at, other) ==> |other| <= |slots|
  }

  predicate HasLeadingZero(plain: seq<Byte>, start: nat, bigEndian: bool)
    requires |plain| >= SEARCH_LIMIT
  {
    start + 3 < SEARCH_LIMIT && ReadU16(plain, start, bigEndian) == 0 && IsSlotOffset(ReadU16(plain, start + 2, bigEndian))
  }

  /**
   `d` is the directory that a scan from `start` accepts: the longest run from there, after a leading
   zero word if one precedes it, with enough live slots and ending at or before its lowest row.
   */
  ghost predicate IsCandidate(plain: seq<Byte>, start: nat, bigEndian: bool, d: SlotDirectory)
    requires |plain| >= SEARCH_LIMIT
  {
    && d.scanStart == start && d.bigEndian == bigEndian
    && d.leadingZero == HasLeadingZero(plain, start, bigEndian)
    && d.arrayStart == (if d.leadingZero then start + 2 else start)
    && d.end == d.arrayStart + 2 * |d.slots|
    && IsLongestRun(plain, bigEndian, d.arrayStart, d.slots)
    && LiveCount(d.slots) >= MIN_LIVE_SLOTS
    && MinOffset(d.slots).Some? && d.end <= MinOffset(d.slots).value
  }

  lemma RunsAgree(plain: seq<Byte>, bigEndian: bool, at: nat, a: seq<U16>, b: seq<U16>)
    requires |plain| >= SEARCH_LIMIT && IsRun(plain, bigEndian, at, a) && IsRun(plain, bigEndian, at, b)
    requires |a| == |b|
    ensures a == b
  {
  }

  /** A start and byte order admit at most one directory. */
  lemma CandidateUnique(plain: seq<Byte>, start: nat, bigEndian: bool, d: SlotDirectory, e: SlotDirectory)
    requires |plain| >= SEARCH_LIMIT
    requires IsCandidate(plain, start, bigEndian, d) && IsCandidate(plain, start, bigEndian, e)
    ensures d == e
  {
    hide IsRun, LiveCount, MinOffset, HasLeadingZero;
    assert |d.slots| <= |e.slots| && |e.slots| <= |d.slots|;
    RunsAgree(plain, bigEndian, d.arrayStart, d.slots, e.slots);
  }

  /** A run that its next word does not extend is the longest. */
  lemma StuckRunIsLongest(plain: seq<Byte>, bigEndian: bool, at: nat, slots: seq<U16>)
    requires |plain| >= SEARCH_LIMIT && IsRun(plain, bigEndian, at, slots)
    requires var pos := at + 2 * |slots|;
      pos + 1 < SEARCH_LIMIT ==> !WellFormedSlots(slots + [ReadU16(plain, pos, bigEndian)])
    ensures IsLongestRun(plain, bigEndian, at, slots)
  {
    forall other | IsRun(plain, bigEndian, at, other)
      ensures |other| <= |slots|
    {
      if |other| > |slots| {
        LongerRunExtends(plain, bigEndian, at, slots, other);
      }
    }
  }

  lemma LongerRunExtends(plain: seq<Byte>, bigEndian: bool, at: nat, slots: seq<U16>, other: seq<U16>)
    requires |plain| >= SEARCH_LIMIT && IsRun(plain, bigEndian, at, slots) && IsRun(plain, bigEndian, at, other)
    requires |other| > |slots|
    ensures at + 2 * |slots| + 1 < SEARCH_LIMIT
    ensures WellFormedSlots(slots + [ReadU16(plain, at + 2 * |slots|, bigEndian)])
  {
    var n := |slots|;
    assert other[n] == ReadU16(plain, at + 2 * n, bigEndian);
    assert other[..n + 1] == slots + [other[n]];
    WellFormedPrefix(other, n + 1);
  }

  lemma WellFormedPrefix(slots: seq<U16>, n: nat)
    requires WellFormedSlots(slots) && n <= |slots|
    ensures WellFormedSlots(slots[..n])
  {
  }

  /** The greedy scan from one start. */
  method ScanFrom(plain: seq<Byte>, start: nat, bigEndian: bool) returns (r: Option<SlotDirectory>)
    requires |plain| >= SEARCH_LIMIT
    ensures r.Some? ==> IsCandidate(plain, start, bigEndian, r.value)
    ensures r.None? ==> forall d :: !IsCandidate(plain, start, bigEndian, d)
  {
    hide LiveCount, MinOffset, ReadU16, IsRun, WellFormedSlots, IsLongestRun;
    EmptyRun(plain, bigEndian, start);
    EmptyRun(plain, bigEndian, start + 2);
    var pos := start;
    var leadingZero := false;
    var slots: seq<U16> := [];
    var prev: int := 0x10000;
    if pos + 3 < SEARCH_LIMIT && ReadU16(plain, pos, bigEndian) == 0 && IsSlotOffset(ReadU16(plain, pos + 2, bigEndian)) {
      leadingZero := true;
      pos := pos + 2;
    }
    var arrayStart := pos;
    var seenLive := false;
    while pos + 1 < SEARCH_LIMIT
      invariant pos == arrayStart + 2 * |slots|
      invariant IsRun(plain, bigEndian, arrayStart, slots)
      invariant seenLive <==> slots != []
      invariant forall i :: 0 <= i < |slots| && slots[i] != 0 ==> prev <= slots[i]
      invariant if seenLive then prev in slots && prev != 0 else prev == 0x10000
    {
      var value := ReadU16(plain, pos, bigEndian);
      if value == 0 && seenLive {
        ExtendRun(plain, bigEndian, arrayStart, slots, 0, prev);
        slots := slots + [0];
        pos := pos + 2;
        continue;
      }
      if IsSlotOffset(value) && value < prev {
        ExtendRun(plain, bigEndian, arrayStart, slots, value, prev);
        slots := slots + [value];
        prev := value;
        seenLive := true;
        pos := pos + 2;
        continue;
      }
      assert !WellFormedSlots(slots + [value]) by {
        NotExtendable(slots, value, prev);
      }
      break;
    }
    StuckRunIsLongest(plain, bigEndian, arrayStart, slots);
    if LiveCount(slots) < MIN_LIVE_SLOTS {
      NoCandidate(plain, start, bigEndian, arrayStart, slots);
      return None;
    }
    LiveCountZero(slots);
    var minOffset := MinOffset(slots);
    if pos > minOffset.value {
      NoCandidate(plain, start, bigEndian, arrayStart, slots);
      return None;
    }
    return Some(SlotDirectory(start, arrayStart, pos, slots, leadingZero, bigEndian));
  }

  lemma EmptyRun(plain: seq<Byte>, bigEndian: bool, at: nat)
    requires |plain| >= SEARCH_LIMIT
    ensures IsRun(plain, bigEndian, at, [])
  {
  }

  lemma ExtendRun(plain: seq<Byte>, bigEndian: bool, at: nat, slots: seq<U16>, value: U16, prev: int)
    requires |plain| >= SEARCH_LIMIT && IsRun(plain, bigEndian, at, slots)
    requires at + 2 * |slots| + 1 < SEARCH_LIMIT && value == ReadU16(plain, at + 2 * |slots|, bigEndian)
    requires (value == 0 && slots != []) || (IsSlotOffset(value) && value < prev)
    requires forall i :: 0 <= i < |slots| && slots[i] != 0 ==> prev <= slots[i]
    ensures IsRun(plain, bigEndian, at, slots + [value])
  {
    hide ReadU16;
    var longer := slots + [value];
    assert longer[|slots|] == value;
    assert forall i :: 0 <= i < |slots| ==> longer[i] == slots[i];
  }

  lemma NotExtendable(slots: seq<U16>, value: U16, prev: int)
    requires !(value == 0 && slots != []) && !(IsSlotOffset(value) && value < prev)
    requires if slots != [] then prev in slots && prev != 0 else prev == 0x10000
    ensures !WellFormedSlots(slots + [value])
  {
    var longer := slots + [value];
    assert longer[|slots|] == value;
    if slots != [] {
      var i :| 0 <= i < |slots| && slots[i] == prev;
      assert longer[i] == prev;
    } else {
      assert longer[0] == value;
    }
  }

  /** When the longest run from a start is not acceptable, the start has no candidate. */
  lemma NoCandidate(plain: seq<Byte>, start: nat, bigEndian: bool, arrayStart: nat, slots: seq<U16>)
    requires |plain| >= SEARCH_LIMIT
    requires arrayStart == if HasLeadingZero(plain, start, bigEndian) then start + 2 else start
    requires IsLongestRun(plain, bigEndian, arrayStart, slots)
    requires LiveCount(slots) < MIN_LIVE_SLOTS
          || (MinOffset(slots).Some? && arrayStart + 2 * |slots| > MinOffset(slots).value)
    ensures forall d :: !IsCandidate(plain, start, bigEndian, d)
  {
    hide IsRun, LiveCount, MinOffset, HasLeadingZero;
    forall d | IsCandidate(plain, start, bigEndian, d)
      ensures d.slots == slots
    {
      assert |d.slots| <= |slots| && |slots| <= |d.slots|;
      RunsAgree(plain, bigEndian, arrayStart, d.slots, slots);
    }
  }

  // ---------------------------------------------------------------- the best directory

  predicate Better(a: SlotDirectory, b: SlotDirectory) {
    LiveCount(a.slots) > LiveCount(b.slots) || (LiveCount(a.slots) == LiveCount(b.slots) && |a.slots| > |b.slots|)
  }

  /** The order in which starts and byte orders are tried. */
  function TrialOf(d: SlotDirectory): nat {
    2 * d.scanStart + (if d.bigEndian then 1 else 0)
  }

  /** `d` is accepted by some trial before `trials`. */
  ghost predicate FoundBefore(plain: seq<Byte>, trials: nat, d: SlotDirectory)
    requires |plain| >= SEARCH_LIMIT
  {
    TrialOf(d) < trials && IsCandidate(plain, d.scanStart, d.bigEndian, d)
  }

  /** The best of all directories found before `trials`, and the earliest among equals. */
  ghost predicate IsBest(plain: seq<Byte>, trials: nat, best: Option<SlotDirectory>)
    requires |plain| >= SEARCH_LIMIT
  {
    if best.None? then forall d :: !FoundBefore(plain, trials, d)
    else
      && FoundBefore(plain, trials, best.value)
      && forall d :: FoundBefore(plain, trials, d) ==>
           !Better(d, best.value) && (Better(best.value, d) || TrialOf(best.value) <= TrialOf(d))
  }

  /** The search over every start and both byte orders finds the preferred directory of the page. */
  method FindSlotDirectory(plain: seq<Byte>) returns (best: Option<SlotDirectory>)
    requires |plain| >= SEARCH_LIMIT
    ensures BestDirectory(plain, best)
  {
    hide IsCandidate, LiveCount, BestDirectory;
    best := None;
    for start := 0 to SEARCH_LIMIT
      invariant IsBest(plain, 2 * start, best)
    {
      for order := 0 to 2
        invariant IsBest(plain, 2 * start + order, best)
      {
        var cand := ScanFrom(plain, start, order == 1);
        OneMoreTrial(plain, start, order == 1, 2 * start + order, 2 * start + order + 1, cand, best);
        if cand.Some? && (best.None? || Better(cand.value, best.value)) {
          best := cand;
        }
      }
    }
    BestExactly(plain, best);
  }

  lemma OneMoreTrial(
      plain: seq<Byte>, start: nat, bigEndian: bool, trial: nat, next: nat,
      cand: Option<SlotDirectory>, best: Option<SlotDirectory>)
    requires |plain| >= SEARCH_LIMIT && IsBest(plain, trial, best)
    requires trial == 2 * start + (if bigEndian then 1 else 0) && next == trial + 1
    requires cand.Some? ==> IsCandidate(plain, start, bigEndian, cand.value)
    requires cand.None? ==> forall d :: !IsCandidate(plain, start, bigEndian, d)
    ensures IsBest(plain, next, if cand.Some? && (best.None? || Better(cand.value, best.value)) then cand else best)
  {
    FoundByTrial(plain, start, bigEndian, trial, next, cand);
    EarlierTrial(plain, trial, best);
    hide FoundBefore, TrialOf, Better, IsCandidate;
    if cand.None? {
      NoNewDirectory(plain, trial, next, best);
    } else if best.Some? && !Better(cand.value, best.value) {
      WorseDirectory(plain, trial, next, cand.value, best.value);
    } else {
      BetterDirectory(plain, trial, next, cand.value, best);
    }
  }

  lemma EarlierTrial(plain: seq<Byte>, trials: nat, best: Option<SlotDirectory>)
    requires |plain| >= SEARCH_LIMIT && IsBest(plain, trials, best)
    ensures best.Some? ==> TrialOf(best.value) < trials
  {
    hide IsCandidate;
  }

  lemma NoNewDirectory(plain: seq<Byte>, trial: nat, next: nat, best: Option<SlotDirectory>)
    requires |plain| >= SEARCH_LIMIT && IsBest(plain, trial, best)
    requires forall d :: FoundBefore(plain, next, d) <==> FoundBefore(plain, trial, d)
    ensures IsBest(plain, next, best)
  {
    hide FoundBefore, TrialOf, Better;
  }

  lemma WorseDirectory(plain: seq<Byte>, trial: nat, next: nat, cand: SlotDirectory, best: SlotDirectory)
    requires |plain| >= SEARCH_LIMIT && IsBest(plain, trial, Some(best)) && !Better(cand, best)
    requires forall d :: FoundBefore(plain, next, d) <==> FoundBefore(plain, trial, d) || d == cand
    requires TrialOf(best) < TrialOf(cand)
    ensures IsBest(plain, next, Some(best))
  {
    hide FoundBefore, TrialOf, Better;
  }

  lemma BetterDirectory(plain: seq<Byte>, trial: nat, next: nat, cand: SlotDirectory, best: Option<SlotDirectory>)
    requires |plain| >= SEARCH_LIMIT && IsBest(plain, trial, best) && (best.Some? ==> Better(cand, best.value))
    requires forall d :: FoundBefore(plain, next, d) <==> FoundBefore(plain, trial, d) || d == cand
    ensures IsBest(plain, next, Some(cand))
  {
    hide FoundBefore, TrialOf, Better;
    NotBetterThanItself(cand);
    forall d | FoundBefore(plain, trial, d)
      ensures Better(cand, d) && !Better(d, cand)
    {
      BetterThanBest(cand, best.value, d);
    }
  }

  lemma FoundByTrial(
      plain: seq<Byte>, start: nat, bigEndian: bool, trial: nat, next: nat, cand: Option<SlotDirectory>)
    requires |plain| >= SEARCH_LIMIT && trial == 2 * start + (if bigEndian then 1 else 0) && next == trial + 1
    requires cand.Some? ==> IsCandidate(plain, start, bigEndian, cand.value)
    requires cand.None? ==> forall d :: !IsCandidate(plain, start, bigEndian, d)
    ensures forall d :: FoundBefore(plain, next, d) <==> FoundBefore(plain, trial, d) || (cand.Some? && d == cand.value)
    ensures cand.Some? ==> TrialOf(cand.value) == trial
  {
    assert cand.Some? ==> FoundBefore(plain, next, cand.value) && TrialOf(cand.value) == trial;
    hide IsCandidate;
    forall d | FoundBefore(plain, next, d)
      ensures FoundBefore(plain, trial, d) || (cand.Some? && d == cand.value)
    {
      if TrialOf(d) == trial {
        assert d.scanStart == start && d.bigEndian == bigEndian;
        if cand.Some? {
          CandidateUnique(plain, start, bigEndian, d, cand.value);
        }
      }
    }
  }

  lemma BetterThanBest(a: SlotDirectory, b: SlotDirectory, d: SlotDirectory)
    ensures Better(a, b) && !Better(d, b) ==> Better(a, d) && !Better(d, a)
  {
  }

  lemma NotBetterThanItself(a: SlotDirectory)
    ensures !Better(a, a)
  {
  }

  // ---------------------------------------------------------------- directories by the bytes of the page

  ghost function LivePlaces(slots: seq<U16>): set<nat> {
    set i: nat | i < |slots| && slots[i] != 0
  }

  lemma {:induction false} LiveCountIsExact(slots: seq<U16>)
    ensures LiveCount(slots) == |LivePlaces(slots)|
  {
    if slots != [] {
      var n := |slots| - 1;
      LiveCountIsExact(slots[..n]);
      assert LivePlaces(slots) == LivePlaces(slots[..n]) + (if slots[n] != 0 then {n} else {});
    }
  }

  /** Two bytes of the page are this word, high byte first or last. */
  ghost predicate StoresWord(plain: seq<Byte>, pos: nat, word: int, highFirst: bool) {
    && pos + 1 < |plain|
    && plain[if highFirst then pos else pos + 1] == word / 256
    && plain[if highFirst then pos + 1 else pos] == word % 256
  }

  lemma WordExactly(plain: seq<Byte>, pos: nat, word: U16, highFirst: bool)
    requires pos + 1 < |plain|
    ensures ReadU16(plain, pos, highFirst) == word <==> StoresWord(plain, pos, word, highFirst)
  {
  }

  /** A word that goes on with a directory: a deleted slot, or an offset below all live ones. */
  ghost predicate GoesOn(slots: seq<U16>, word: U16) {
    word == 0 || (32 <= word < 4080 && forall i :: 0 <= i < |slots| && slots[i] != 0 ==> word < slots[i])
  }

  /** The bytes from `end` on are inside the search and do not go on with a directory. */
  ghost predicate StopsAt(plain: seq<Byte>, slots: seq<U16>, end: nat, highFirst: bool) {
    end + 1 < 768 ==> forall word: U16 :: GoesOn(slots, word) ==> !StoresWord(plain, end, word, highFirst)
  }

  /** The words at a place: the first one live, the live ones strictly descending in `32..4080`. */
  ghost predicate StoredSlots(plain: seq<Byte>, at: nat, slots: seq<U16>, highFirst: bool) {
    && slots != [] && slots[0] != 0 && at + 2 * |slots| <= 768
    && (forall i: nat :: i < |slots| ==> StoresWord(plain, at + 2 * i, slots[i], highFirst))
    && (forall i :: 0 <= i < |slots| && slots[i] != 0 ==> 32 <= slots[i] < 4080)
    && (forall i, j :: 0 <= i < j < |slots| && slots[i] != 0 && slots[j] != 0 ==> slots[i] > slots[j])
  }

  /**
   A directory by the bytes of the page: at least eight live slots, all words inside the first 768 bytes and not
   beyond the lowest row. Zero words are deleted slots, one more zero word may stand in front, and the next word
   does not go on with it.
   */
  ghost predicate StoredDirectory(plain: seq<Byte>, d: SlotDirectory) {
    && |plain| >= 768 && StoredSlots(plain, d.arrayStart, d.slots, d.bigEndian)
    && d.arrayStart == (if d.leadingZero then d.scanStart + 2 else d.scanStart)
    && (d.leadingZero ==> plain[d.scanStart] == 0 && plain[d.scanStart + 1] == 0)
    && d.end == d.arrayStart + 2 * |d.slots| && StopsAt(plain, d.slots, d.end, d.bigEndian)
    && |LivePlaces(d.slots)| >= 8
    && (forall i :: 0 <= i < |d.slots| && d.slots[i] != 0 ==> d.end <= d.slots[i])
  }

  lemma GoesOnExactly(slots: seq<U16>, word: U16)
    requires WellFormedSlots(slots) && slots != []
    ensures WellFormedSlots(slots + [word]) <==> GoesOn(slots, word)
  {
    var longer := slots + [word];
    assert longer[|slots|] == word && forall i :: 0 <= i < |slots| ==> longer[i] == slots[i];
  }

  /** A run is the longest exactly when the search ends there or the next word does not go on with it. */
  lemma LongestExactly(plain: seq<Byte>, highFirst: bool, at: nat, slots: seq<U16>)
    requires |plain| >= SEARCH_LIMIT && IsRun(plain, highFirst, at, slots) && slots != []
    ensures IsLongestRun(plain, highFirst, at, slots) <==> StopsAt(plain, slots, at + 2 * |slots|, highFirst)
  {
    var end := at + 2 * |slots|;
    if end + 1 < 768 {
      var next := ReadU16(plain, end, highFirst);
      GoesOnExactly(slots, next);
      forall word: U16
        ensures StoresWord(plain, end, word, highFirst) <==> word == next
      {
        WordExactly(plain, end, word, highFirst);
      }
      if WellFormedSlots(slots + [next]) {
        LongerRun(plain, highFirst, at, slots);
      } else {
        StuckRunIsLongest(plain, highFirst, at, slots);
      }
    } else {
      StuckRunIsLongest(plain, highFirst, at, slots);
    }
  }

  lemma LongerRun(plain: seq<Byte>, highFirst: bool, at: nat, slots: seq<U16>)
    requires |plain| >= SEARCH_LIMIT && IsRun(plain, highFirst, at, slots) && at + 2 * |slots| + 1 < SEARCH_LIMIT
    requires WellFormedSlots(slots + [ReadU16(plain, at + 2 * |slots|, highFirst)])
    ensures !IsLongestRun(plain, highFirst, at, slots)
  {
    hide ReadU16, WellFormedSlots;
    var longer := slots + [ReadU16(plain, at + 2 * |slots|, highFirst)];
    assert IsRun(plain, highFirst, at, longer);
  }

  lemma RunExactly(plain: seq<Byte>, highFirst: bool, at: nat, slots: seq<U16>)
    requires |plain| >= SEARCH_LIMIT && slots != []
    ensures IsRun(plain, highFirst, at, slots) <==> StoredSlots(plain, at, slots, highFirst)
  {
    if at + 2 * |slots| <= SEARCH_LIMIT {
      forall i: nat | i < |slots|
        ensures ReadU16(plain, at + 2 * i, highFirst) == slots[i] <==> StoresWord(plain, at + 2 * i, slots[i], highFirst)
      {
        WordExactly(plain, at + 2 * i, slots[i], highFirst);
      }
      hide StoresWord, ReadU16;
      if StoredSlots(plain, at, slots, highFirst) {
        assert IsRun(plain, highFirst, at, slots);
      }
    }
  }

  /** One zero word in front of the slots. */
  lemma ZeroInFront(plain: seq<Byte>, start: nat, at: nat, slots: seq<U16>, highFirst: bool, zero: bool)
    requires |plain| >= SEARCH_LIMIT && StoredSlots(plain, at, slots, highFirst) && at == if zero then start + 2 else start
    ensures zero == HasLeadingZero(plain, start, highFirst)
       <==> (zero ==> plain[start] == 0 && plain[start + 1] == 0)
  {
    FirstSlot(plain, at, slots, highFirst);
    ZeroWord(plain, start, highFirst);
    hide StoredSlots, ReadU16, IsSlotOffset;
  }

  lemma FirstSlot(plain: seq<Byte>, at: nat, slots: seq<U16>, highFirst: bool)
    requires |plain| >= SEARCH_LIMIT && StoredSlots(plain, at, slots, highFirst)
    ensures at + 2 <= SEARCH_LIMIT && ReadU16(plain, at, highFirst) == slots[0] != 0 && IsSlotOffset(slots[0])
  {
    hide StoresWord, ReadU16;
    WordExactly(plain, at, slots[0], highFirst);
    assert StoresWord(plain, at + 2 * 0, slots[0], highFirst);
  }

  lemma ZeroWord(plain: seq<Byte>, pos: nat, highFirst: bool)
    ensures pos + 1 < |plain| ==> (ReadU16(plain, pos, highFirst) == 0 <==> plain[pos] == 0 && plain[pos + 1] == 0)
  {
  }

  lemma AboveLowest(slots: seq<U16>, end: nat)
    requires MinOffset(slots).Some?
    ensures end <= MinOffset(slots).value <==> forall i :: 0 <= i < |slots| && slots[i] != 0 ==> end <= slots[i]
  {
    var low := MinOffset(slots).value;
    var k :| 0 <= k < |slots| && slots[k] == low;
  }

  /** What a scan accepts is exactly what the page stores. */
  lemma CandidateExactly(plain: seq<Byte>, d: SlotDirectory)
    requires |plain| >= SEARCH_LIMIT
    ensures IsCandidate(plain, d.scanStart, d.bigEndian, d) <==> StoredDirectory(plain, d)
  {
    LiveCountIsExact(d.slots);
    LiveCountZero(d.slots);
    hide MinOffset, LiveCount, IsRun, StoredSlots, HasLeadingZero, StopsAt, LivePlaces, IsLongestRun;
    if d.slots != [] {
      RunExactly(plain, d.bigEndian, d.arrayStart, d.slots);
      LongestIsRun(plain, d.bigEndian, d.arrayStart, d.slots);
      if IsRun(plain, d.bigEndian, d.arrayStart, d.slots) {
        LongestExactly(plain, d.bigEndian, d.arrayStart, d.slots);
        if d.arrayStart == if d.leadingZero then d.scanStart + 2 else d.scanStart {
          ZeroInFront(plain, d.scanStart, d.arrayStart, d.slots, d.bigEndian, d.leadingZero);
        }
      }
      if MinOffset(d.slots).Some? {
        AboveLowest(d.slots, d.end);
      }
    } else {
      NoSlots(plain, d);
    }
  }

  lemma NoSlots(plain: seq<Byte>, d: SlotDirectory)
    requires |plain| >= SEARCH_LIMIT && d.slots == []
    ensures !StoredDirectory(plain, d) && !IsCandidate(plain, d.scanStart, d.bigEndian, d)
  {
  }

  lemma LongestIsRun(plain: seq<Byte>, highFirst: bool, at: nat, slots: seq<U16>)
    requires |plain| >= SEARCH_LIMIT
    ensures IsLongestRun(plain, highFirst, at, slots) ==> IsRun(plain, highFirst, at, slots)
  {
  }

  /** More live slots first, then more words, then the earlier start, and little-endian before big-endian. */
  ghost predicate Preferred(d: SlotDirectory, e: SlotDirectory) {
    var live, other := |LivePlaces(d.slots)|, |LivePlaces(e.slots)|;
    || live > other
    || (live == other && |d.slots| > |e.slots|)
    || (live == other && |d.slots| == |e.slots| && d.scanStart < e.scanStart)
    || (live == other && |d.slots| == |e.slots| && d.scanStart == e.scanStart && !d.bigEndian && e.bigEndian)
  }

  /** The preferred one of all directories that the page stores. */
  ghost predicate BestDirectory(plain: seq<Byte>, best: Option<SlotDirectory>) {
    match best
    case None => forall d :: !StoredDirectory(plain, d)
    case Some(b) => StoredDirectory(plain, b) && forall d :: StoredDirectory(plain, d) && d != b ==> Preferred(b, d)
  }

  lemma FoundExactly(plain: seq<Byte>, d: SlotDirectory)
    requires |plain| >= SEARCH_LIMIT
    ensures FoundBefore(plain, 2 * SEARCH_LIMIT, d) <==> StoredDirectory(plain, d)
  {
    CandidateExactly(plain, d);
    assert StoredDirectory(plain, d) ==> d.scanStart < 768;
    hide IsCandidate, StoredDirectory;
  }

  lemma PreferredExactly(plain: seq<Byte>, b: SlotDirectory, d: SlotDirectory)
    requires |plain| >= SEARCH_LIMIT && FoundBefore(plain, 2 * SEARCH_LIMIT, b) && FoundBefore(plain, 2 * SEARCH_LIMIT, d)
    ensures !Better(d, b) && (Better(b, d) || TrialOf(b) <= TrialOf(d)) <==> d == b || Preferred(b, d)
  {
    LiveCountIsExact(b.slots);
    LiveCountIsExact(d.slots);
    if TrialOf(b) == TrialOf(d) {
      assert b.scanStart == d.scanStart && b.bigEndian == d.bigEndian;
      CandidateUnique(plain, b.scanStart, b.bigEndian, b, d);
    }
    hide IsCandidate, LiveCount, LivePlaces;
  }

  /** The best of the trials is the preferred directory of the page. */
  lemma BestExactly(plain: seq<Byte>, best: Option<SlotDirectory>)
    requires |plain| >= SEARCH_LIMIT
    ensures IsBest(plain, 2 * SEARCH_LIMIT, best) <==> BestDirectory(plain, best)
  {
    hide FoundBefore, StoredDirectory, Preferred, Better, TrialOf;
    forall d: SlotDirectory
      ensures FoundBefore(plain, 2 * SEARCH_LIMIT, d) <==> StoredDirectory(plain, d)
    {
      FoundExactly(plain, d);
    }
    if best.Some? && FoundBefore(plain, 2 * SEARCH_LIMIT, best.value) {
      forall d | FoundBefore(plain, 2 * SEARCH_LIMIT, d)
        ensures !Better(d, best.value) && (Better(best.value, d) || TrialOf(best.value) <= TrialOf(d))
           <==> d == best.value || Preferred(best.value, d)
      {
        PreferredExactly(plain, best.value, d);
      }
    }
  }

  // ---------------------------------------------------------------- row boundaries

  /** The least live offset above `off`. */
  function LeastAbove(slots: seq<U16>, off: U16): (r: Option<U16>)
    ensures r.None? ==> forall i :: 0 <= i < |slots| ==> slots[i] <= off
    ensures r.Some? ==> r.value in slots && r.value > off && forall i :: 0 <= i < |slots| && slots[i] > off ==> r.value <= slots[i]
  {
    if slots == [] then None
    else
      var last := slots[|slots| - 1];
      var rest := LeastAbove(slots[..|slots| - 1], off);
      assert forall i :: 0 <= i < |slots| - 1 ==> slots[..|slots| - 1][i] == slots[i];
      if last > off && (rest == None || last < rest.value) then Some(last) else rest
  }

  /** Where a row that starts at `off` ends: at the next higher live offset, or at the trailer. */
  function RowEnd(slots: seq<U16>, off: U16): nat {
    match LeastAbove(slots, off)
    case Some(next) => next
    case None => TRAILER_START
  }

  /** A live slot has a row unless that row would be empty or reach into the trailer. */
  predicate HasRow(slots: seq<U16>, off: U16) {
    off != 0 && off < RowEnd(slots, off) <= TRAILER_START
  }

  datatype RowSlot = RowSlot(slotIndex: nat, offset: U16, bytes: seq<Byte>)

  /** The rows of the first `n` slots, in slot order and with their own indices. */
  function RowsOf(slots: seq<U16>, page: seq<Byte>, n: nat): seq<RowSlot>
    requires |page| >= PAGE_SIZE && n <= |slots|
  {
    if n == 0 then []
    else RowsOf(slots, page, n - 1) + RowOfSlot(slots, page, n - 1)
  }

  function RowOfSlot(slots: seq<U16>, page: seq<Byte>, i: nat): seq<RowSlot>
    requires |page| >= PAGE_SIZE && i < |slots|
  {
    if HasRow(slots, slots[i]) then [RowSlot(i, slots[i], page[slots[i]..RowEnd(slots, slots[i])])] else []
  }

  // ---------------------------------------------------------------- the library's slicer

  predicate Ascending(s: seq<U16>) {
    forall i, j :: 0 <= i < j < |s| ==> s[i] <= s[j]
  }

  function Insert(s: seq<U16>, x: U16): (r: seq<U16>)
    requires Ascending(s)
    ensures Ascending(r) && multiset(r) == multiset(s) + multiset{x}
    decreases |s|, 1
  {
    if s == [] || s[|s| - 1] <= x then s + [x]
    else
      var r := Insert(s[..|s| - 1], x) + [s[|s| - 1]];
      InsertKeepsOrder(s, x);
      r
  }

  lemma InFront(s: seq<U16>, y: U16, x: U16)
    requires Ascending(s) && s != [] && x < s[|s| - 1]
    requires y in multiset(s[..|s| - 1]) + multiset{x}
    ensures y <= s[|s| - 1]
  {
  }

  lemma InsertKeepsOrder(s: seq<U16>, x: U16)
    requires Ascending(s) && s != [] && x < s[|s| - 1]
    ensures var front := Insert(s[..|s| - 1], x);
      Ascending(front + [s[|s| - 1]]) && multiset(front + [s[|s| - 1]]) == multiset(s) + multiset{x}
    decreases |s|, 0
  {
    var last := s[|s| - 1];
    var front := Insert(s[..|s| - 1], x);
    assert s == s[..|s| - 1] + [last];
    hide Insert;
    forall y | y in front
      ensures y <= last
    {
      assert y in multiset(front);
      InFront(s, y, x);
    }
    LastInOrder(front, last);
  }

  lemma LastInOrder(front: seq<U16>, last: U16)
    requires Ascending(front) && forall y :: y in front ==> y <= last
    ensures Ascending(front + [last]) && multiset(front + [last]) == multiset(front) + multiset{last}
  {
    forall i | 0 <= i < |front|
      ensures front[i] <= last
    {
      assert front[i] in front;
    }
  }

  /** `sort_unstable`. */
  function SortAscending(s: seq<U16>): (r: seq<U16>)
    ensures Ascending(r) && multiset(r) == multiset(s)
  {
    if s == [] then []
    else
      assert s == s[..|s| - 1] + [s[|s| - 1]];
      Insert(SortAscending(s[..|s| - 1]), s[|s| - 1])
  }

  function LiveSlots(slots: seq<U16>): (live: seq<U16>)
    ensures |live| == LiveCount(slots)
    ensures forall x :: x in live <==> x in slots && x != 0
  {
    if slots == [] then []
    else
      assert slots == slots[..|slots| - 1] + [slots[|slots| - 1]];
      LiveSlots(slots[..|slots| - 1]) + (if slots[|slots| - 1] != 0 then [slots[|slots| - 1]] else [])
  }

  datatype Bound = Bound(offset: U16, start: nat, end: nat)

  /** `live` lists the live offsets in address order. */
  ghost predicate AddressOrder(slots: seq<U16>, live: seq<U16>) {
    Ascending(live) && forall x :: x in live <==> x in slots && x != 0
  }

  lemma SortedLive(slots: seq<U16>)
    ensures AddressOrder(slots, SortAscending(LiveSlots(slots)))
  {
    var live, sorted := LiveSlots(slots), SortAscending(LiveSlots(slots));
    assert forall x :: x in sorted <==> x in multiset(sorted);
    assert forall x :: x in live <==> x in multiset(live);
  }

  /** In address order, the entry after the last copy of an offset is the end of its row. */
  lemma NextInAddressOrder(slots: seq<U16>, live: seq<U16>, i: nat)
    requires AddressOrder(slots, live) && i < |live|
    ensures i + 1 < |live| && live[i] < live[i + 1] ==> LeastAbove(slots, live[i]) == Some(live[i + 1])
    ensures i + 1 == |live| ==> LeastAbove(slots, live[i]) == None
  {
    var above := LeastAbove(slots, live[i]);
    if above.Some? {
      assert above.value in live;
      var j :| 0 <= j < |live| && live[j] == above.value;
      assert j > i;
    }
    if i + 1 < |live| && live[i] < live[i + 1] {
      assert live[i + 1] in slots;
    }
  }

  predicate IsLastCopy(live: seq<U16>, i: nat)
    requires i < |live|
  {
    i + 1 < |live| ==> live[i] < live[i + 1]
  }

  /** `bounds` holds a bound for the offsets among the first `n` in address order that have a row, and no other. */
  ghost predicate BoundsOf(slots: seq<U16>, live: seq<U16>, n: nat, bounds: seq<Bound>)
    requires n <= |live|
  {
    && (forall k :: 0 <= k < |bounds| ==>
          HasRow(slots, bounds[k].offset) && bounds[k].start == bounds[k].offset && bounds[k].end == RowEnd(slots, bounds[k].offset))
    && (forall i: nat :: i < n && IsLastCopy(live, i) && HasRow(slots, live[i]) ==>
          Bound(live[i], live[i], RowEnd(slots, live[i])) in bounds)
  }

  method FindBound(bounds: seq<Bound>, off: U16) returns (r: Option<Bound>)
    ensures r.Some? ==> r.value in bounds && r.value.offset == off
    ensures r.None? ==> forall b :: b in bounds ==> b.offset != off
  {
    for k := 0 to |bounds|
      invariant forall j :: 0 <= j < k ==> bounds[j].offset != off
    {
      if bounds[k].offset == off {
        return Some(bounds[k]);
      }
    }
    return None;
  }

  /** The last copy of an offset in address order. */
  lemma {:induction false} LastCopy(live: seq<U16>, i: nat) returns (j: nat)
    requires Ascending(live) && i < |live|
    ensures j < |live| && live[j] == live[i] && IsLastCopy(live, j)
    decreases |live| - i
  {
    j := i;
    if i + 1 < |live| && live[i] == live[i + 1] {
      j := LastCopy(live, i + 1);
    }
  }

  /** A live offset has a bound exactly when it has a row, even when the directory repeats it. */
  lemma BoundsAreComplete(slots: seq<U16>, live: seq<U16>, bounds: seq<Bound>, off: U16)
    requires AddressOrder(slots, live) && BoundsOf(slots, live, |live|, bounds) && off in slots && off != 0
    ensures HasRow(slots, off) <==> exists b :: b in bounds && b.offset == off
  {
    if HasRow(slots, off) {
      assert off in live;
      var i :| 0 <= i < |live| && live[i] == off;
      var j := LastCopy(live, i);
      assert live[j] == off && HasRow(slots, live[j]);
      assert Bound(live[j], live[j], RowEnd(slots, live[j])) in bounds;
    }
  }

  /** The first loop of the slicer: the bounds of all rows, in address order. */
  method CollectBounds(slots: seq<U16>, live: seq<U16>) returns (bounds: seq<Bound>)
    requires AddressOrder(slots, live)
    ensures BoundsOf(slots, live, |live|, bounds)
  {
    hide HasRow, AddressOrder;
    bounds := [];
    for i := 0 to |live|
      invariant BoundsOf(slots, live, i, bounds)
    {
      var start: nat := live[i];
      var end: nat := if i + 1 < |live| then live[i + 1] else TRAILER_START;
      BoundNeeded(slots, live, i, end);
      if start < end && end <= TRAILER_START {
        AddBound(slots, live, i, bounds, end);
        bounds := bounds + [Bound(live[i], start, end)];
      }
    }
  }

  lemma DeletedHasNoRow(slots: seq<U16>, page: seq<Byte>, i: nat)
    requires |page| >= PAGE_SIZE && i < |slots| && slots[i] == 0
    ensures RowOfSlot(slots, page, i) == []
  {
    hide RowEnd;
  }

  /** The row of a live slot, by the bound found for its offset. */
  lemma RowByBound(slots: seq<U16>, live: seq<U16>, bounds: seq<Bound>, page: seq<Byte>, i: nat, bound: Option<Bound>)
    requires AddressOrder(slots, live) && BoundsOf(slots, live, |live|, bounds) && |page| >= PAGE_SIZE
    requires i < |slots| && slots[i] != 0
    requires bound.Some? ==> bound.value in bounds && bound.value.offset == slots[i]
    requires bound.None? ==> forall b :: b in bounds ==> b.offset != slots[i]
    ensures bound.None? ==> RowOfSlot(slots, page, i) == []
    ensures bound.Some? ==>
      && bound.value.start <= bound.value.end <= |page|
      && RowOfSlot(slots, page, i) == [RowSlot(i, slots[i], page[bound.value.start..bound.value.end])]
  {
    hide RowEnd, AddressOrder;
    BoundsAreComplete(slots, live, bounds, slots[i]);
  }

  /** Bounds in address order, rows in slot order. */
  method RowSlots(directory: Option<SlotDirectory>, page: seq<Byte>) returns (rows: seq<RowSlot>)
    requires |page| >= PAGE_SIZE
    ensures rows == match directory case None => [] case Some(d) => RowsOf(d.slots, page, |d.slots|)
  {
    if directory.None? {
      return [];
    }
    hide *;
    var slots := directory.value.slots;
    var live := SortAscending(LiveSlots(slots));
    SortedLive(slots);
    var bounds := CollectBounds(slots, live);
    rows := [];
    for index := 0 to |slots|
      invariant rows == RowsOf(slots, page, index)
    {
      NextRows(slots, page, index);
      if slots[index] != 0 {
        var bound := FindBound(bounds, slots[index]);
        RowByBound(slots, live, bounds, page, index, bound);
        if bound.Some? {
          rows := rows + [RowSlot(index, slots[index], page[bound.value.start..bound.value.end])];
        }
      } else {
        DeletedHasNoRow(slots, page, index);
      }
    }
  }

  lemma NextRows(slots: seq<U16>, page: seq<Byte>, i: nat)
    requires |page| >= PAGE_SIZE && i < |slots|
    ensures RowsOf(slots, page, 0) == []
    ensures RowsOf(slots, page, i + 1) == RowsOf(slots, page, i) + RowOfSlot(slots, page, i)
    ensures RowOfSlot(slots, page, i) == [] ==> RowsOf(slots, page, i + 1) == RowsOf(slots, page, i)
  {
    hide RowOfSlot;
  }

  /** An entry that gets no bound is a repeated copy or has no row. */
  lemma BoundNeeded(slots: seq<U16>, live: seq<U16>, i: nat, end: nat)
    requires AddressOrder(slots, live) && i < |live|
    requires end == if i + 1 < |live| then live[i + 1] else TRAILER_START
    ensures !(live[i] < end <= TRAILER_START) ==> !(IsLastCopy(live, i) && HasRow(slots, live[i]))
  {
    NextInAddressOrder(slots, live, i);
  }

  lemma AddBound(slots: seq<U16>, live: seq<U16>, i: nat, bounds: seq<Bound>, end: nat)
    requires AddressOrder(slots, live) && i < |live| && BoundsOf(slots, live, i, bounds)
    requires end == if i + 1 < |live| then live[i + 1] else TRAILER_START
    requires live[i] < end <= TRAILER_START
    ensures BoundsOf(slots, live, i + 1, bounds + [Bound(live[i], live[i], end)])
  {
    NextInAddressOrder(slots, live, i);
    assert live[i] in live;
    hide LeastAbove;
    assert RowEnd(slots, live[i]) == end;
  }
}
