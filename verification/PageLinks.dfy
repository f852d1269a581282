/** Page-link blocks and the bounded walk along them (`page_links.rs`). */
module PageLinks {
  import opened Wrappers
  import opened Bytes

  const F32_ONE: seq<Byte> := [0x00, 0x00, 0x80, 0x3f]
  const LINK_MARKER: seq<Byte> := [0xd5, 0x0b]
  const BLOCK_MIN_LEN := 34

  datatype PageLinkTarget = Absent | InRange(page: int) | Invalid(raw: int)

  datatype PageLinkMetadata = PageLinkMetadata(offset: nat, linkFlag: Byte, target: PageLinkTarget)

  // ---------------------------------------------------------------- finding a block

  /** The fixed bytes of a block that names its own page. */
  predicate IsBlock(block: seq<Byte>, page: int)
    requires |block| >= BLOCK_MIN_LEN
  {
    && U32Le(block[0], block[1], block[2], block[3]) == page
    && block[4] == 0 && block[5] == 0
    && block[8..12] == F32_ONE
    && block[24..26] == LINK_MARKER
    && block[27..30] == [0, 0, 0]
  }

  predicate BlockAt(plain: seq<Byte>, offset: nat, page: int) {
    offset + BLOCK_MIN_LEN <= |plain| && IsBlock(plain[offset..offset + BLOCK_MIN_LEN], page)
  }

  function TargetOf(linkFlag: Byte, rawTarget: int, page: int, pageCount: int): PageLinkTarget {
    if linkFlag != 1 then Absent
    else if rawTarget == 0 || rawTarget >= pageCount || rawTarget == page then Invalid(rawTarget)
    else InRange(rawTarget)
  }

  function MetadataAt(plain: seq<Byte>, offset: nat, page: int, pageCount: int): PageLinkMetadata
    requires offset + BLOCK_MIN_LEN <= |plain|
  {
    var rawTarget := U32Le(plain[offset + 30], plain[offset + 31], plain[offset + 32], plain[offset + 33]);
    PageLinkMetadata(offset, plain[offset + 26], TargetOf(plain[offset + 26], rawTarget, page, pageCount))
  }

  /** The arguments for which a scan happens at all. */
  predicate Scannable(plain: seq<Byte>, page: int, pageCount: int) {
    0 <= page < pageCount && |plain| >= BLOCK_MIN_LEN && page < 0x1_0000_0000
  }

  /** The first block at or after `from`. */
  function FirstBlock(plain: seq<Byte>, page: int, pageCount: int, from: nat): (r: Option<PageLinkMetadata>)
    ensures r.Some? ==>
      && from <= r.value.offset && BlockAt(plain, r.value.offset, page)
      && r.value == MetadataAt(plain, r.value.offset, page, pageCount)
      && forall o :: from <= o < r.value.offset ==> !BlockAt(plain, o, page)
    ensures r.None? ==> forall o :: from <= o ==> !BlockAt(plain, o, page)
    decreases |plain| - from
  {
    if from + BLOCK_MIN_LEN > |plain| then None
    else if BlockAt(plain, from, page) then Some(MetadataAt(plain, from, page, pageCount))
    else FirstBlock(plain, page, pageCount, from + 1)
  }

  function FindMetadata(plain: seq<Byte>, page: int, pageCount: int): Option<PageLinkMetadata> {
    if Scannable(plain, page, pageCount) then FirstBlock(plain, page, pageCount, 0) else None
  }

  /**
   The scan returns the block with the least offset, and nothing exactly when no offset holds one or
   the page number is out of range.
   */
  method FindPageLinkMetadata(plain: seq<Byte>, page: nat, pageCount: nat) returns (r: Option<PageLinkMetadata>)
    ensures r == FindMetadata(plain, page, pageCount)
    ensures r.Some? ==>
      && Scannable(plain, page, pageCount) && BlockAt(plain, r.value.offset, page)
      && r.value == MetadataAt(plain, r.value.offset, page, pageCount)
      && forall o :: 0 <= o < r.value.offset ==> !BlockAt(plain, o, page)
    ensures r.None? <==> !Scannable(plain, page, pageCount) || forall o: nat :: !BlockAt(plain, o, page)
  {
    if pageCount == 0 || page >= pageCount || |plain| < BLOCK_MIN_LEN || page >= 0x1_0000_0000 {
      return None;
    }
    var scanEnd := |plain| - BLOCK_MIN_LEN;
    for offset := 0 to scanEnd + 1
      invariant FirstBlock(plain, page, pageCount, 0) == FirstBlock(plain, page, pageCount, offset)
      invariant forall o :: 0 <= o < offset ==> !BlockAt(plain, o, page)
    {
      var block := plain[offset..offset + BLOCK_MIN_LEN];
      if U32Le(block[0], block[1], block[2], block[3]) != page || block[4] != 0 || block[5] != 0
         || block[8..12] != F32_ONE || block[24..26] != LINK_MARKER || block[27..30] != [0, 0, 0] {
        continue;
      }
      return Some(MetadataAt(plain, offset, page, pageCount));
    }
    return None;
  }

  // ---------------------------------------------------------------- walking

  datatype WalkStop = MissingMetadata | NoLink | InvalidTarget(raw: int) | Cycle(page: int) | LimitReached

  datatype PageLinkWalk = PageLinkWalk(pages: seq<int>, stop: WalkStop)

  type LookupFn = int -> Option<PageLinkMetadata>

  /** The validated link that leaves a page, if there is one. */
  function LinkFrom(lookup: LookupFn, page: int): Option<int> {
    if lookup(page).Some? && lookup(page).value.target.InRange? then Some(lookup(page).value.target.page) else None
  }

  /** Distinct pages from `start`, each the validated link of the one before. */
  ghost predicate LinkedPages(start: int, lookup: LookupFn, pages: seq<int>) {
    && (pages != [] ==> pages[0] == start)
    && (forall i :: 0 < i < |pages| ==> LinkFrom(lookup, pages[i - 1]) == Some(pages[i]))
    && (forall i, j :: 0 <= i < j < |pages| ==> pages[i] != pages[j])
  }

  /** Where the walk would go after `pages`. */
  function NextPage(start: int, lookup: LookupFn, pages: seq<int>): Option<int> {
    if pages == [] then Some(start) else LinkFrom(lookup, pages[|pages| - 1])
  }

  /** `walk` follows links as far as the limit and its stop reason allow, and the reason is the true one. */
  ghost predicate IsWalk(start: int, maxPages: nat, lookup: LookupFn, walk: PageLinkWalk) {
    var pages := walk.pages;
    var next := NextPage(start, lookup, pages);
    && LinkedPages(start, lookup, pages) && |pages| <= maxPages
    && match walk.stop
       case LimitReached => |pages| == maxPages && next.Some?
       case Cycle(p) => |pages| < maxPages && next == Some(p) && p in pages
       case MissingMetadata => pages != [] && lookup(pages[|pages| - 1]) == None
       case NoLink => pages != [] && lookup(pages[|pages| - 1]).Some? && lookup(pages[|pages| - 1]).value.target == Absent
       case InvalidTarget(raw) =>
         pages != [] && lookup(pages[|pages| - 1]).Some? && lookup(pages[|pages| - 1]).value.target == Invalid(raw)
  }

  method WalkPageLinks(start: int, maxPages: nat, lookup: LookupFn) returns (walk: PageLinkWalk)
    ensures IsWalk(start, maxPages, lookup, walk)
  {
    var pages: seq<int> := [];
    var current := start;
    while |pages| < maxPages
      invariant LinkedPages(start, lookup, pages) && |pages| <= maxPages
      invariant NextPage(start, lookup, pages) == Some(current)
    {
      if current in pages {
        return PageLinkWalk(pages, Cycle(current));
      }
      pages := pages + [current];
      var metadata := lookup(current);
      if metadata == None {
        return PageLinkWalk(pages, MissingMetadata);
      }
      match metadata.value.target {
        case Absent => return PageLinkWalk(pages, NoLink);
        case Invalid(raw) => return PageLinkWalk(pages, InvalidTarget(raw));
        case InRange(next) => current := next;
      }
    }
    return PageLinkWalk(pages, LimitReached);
  }

  // ---------------------------------------------------------------- main results

  /** Two lists of linked pages from one start agree as far as both go. */
  lemma {:induction false} LinkedPagesAgree(start: int, lookup: LookupFn, a: seq<int>, b: seq<int>, n: nat)
    requires LinkedPages(start, lookup, a) && LinkedPages(start, lookup, b) && n <= |a| && n <= |b|
    ensures a[..n] == b[..n]
  {
    if n > 1 {
      LinkedPagesAgree(start, lookup, a, b, n - 1);
      assert a[n - 2] == a[..n - 1][n - 2] == b[..n - 1][n - 2] == b[n - 2];
      assert a[..n] == a[..n - 1] + [a[n - 1]] && b[..n] == b[..n - 1] + [b[n - 1]];
    } else if n == 1 {
      assert a[..1] == [start] == b[..1];
    }
  }

  /** Linked pages that go on beyond `pages` go on to a page that `pages` leads to and does not contain. */
  lemma NextBeyond(start: int, lookup: LookupFn, pages: seq<int>, longer: seq<int>)
    requires LinkedPages(start, lookup, pages) && LinkedPages(start, lookup, longer) && |pages| < |longer|
    ensures NextPage(start, lookup, pages) == Some(longer[|pages|]) && longer[|pages|] !in pages
  {
    var n := |pages|;
    LinkedPagesAgree(start, lookup, pages, longer, n);
    assert longer[..n] == pages[..n] == pages;
    forall i | 0 <= i < n
      ensures pages[i] == longer[i]
    {
      assert longer[i] == longer[..n][i];
    }
  }

  /** A walk that stopped before its limit has no page to go to that it has not seen. */
  lemma StoppedWalkIsMaximal(start: int, maxPages: nat, lookup: LookupFn, walk: PageLinkWalk, longer: seq<int>)
    requires IsWalk(start, maxPages, lookup, walk) && walk.stop != LimitReached
    requires LinkedPages(start, lookup, longer)
    ensures |longer| <= |walk.pages|
  {
    if |walk.pages| < |longer| {
      NextBeyond(start, lookup, walk.pages, longer);
    }
  }

  /** Raising the limit only extends a walk, and one that stopped by itself does not change at all. */
  lemma SmallerLimitIsPrefix(start: int, small: nat, large: nat, lookup: LookupFn, a: PageLinkWalk, b: PageLinkWalk)
    requires small <= large && IsWalk(start, small, lookup, a) && IsWalk(start, large, lookup, b)
    ensures |a.pages| <= |b.pages| && b.pages[..|a.pages|] == a.pages
    ensures a.stop != LimitReached ==> a == b
    ensures a.stop == LimitReached ==> |a.pages| == small
  {
    if a.stop == LimitReached {
      if |b.pages| < small {
        StoppedWalkIsMaximal(start, large, lookup, b, a.pages);
      }
    } else {
      StoppedWalkIsMaximal(start, small, lookup, a, b.pages);
      if |b.pages| < |a.pages| {
        StoppedWalkIsMaximal(start, large, lookup, b, a.pages);
      }
    }
    LinkedPagesAgree(start, lookup, a.pages, b.pages, |a.pages|);
    assert a.pages[..|a.pages|] == a.pages;
    if a.stop != LimitReached {
      assert b.pages[..|b.pages|] == b.pages;
      SameStop(start, small, large, lookup, a, b);
    }
  }

  lemma SameStop(start: int, small: nat, large: nat, lookup: LookupFn, a: PageLinkWalk, b: PageLinkWalk)
    requires small <= large && IsWalk(start, small, lookup, a) && IsWalk(start, large, lookup, b)
    requires a.pages == b.pages && a.stop != LimitReached
    ensures a.stop == b.stop
  {
  }

  /** Every link that the lookup reports stays inside a store of `pageCount` pages and leads to neither page 0 nor its own page. */
  ghost predicate ValidatedLookup(lookup: LookupFn, pageCount: nat) {
    forall page :: LinkFrom(lookup, page).Some? ==>
      0 < LinkFrom(lookup, page).value < pageCount && LinkFrom(lookup, page).value != page
  }

  ghost function PagesBelow(n: nat): (s: set<int>)
    ensures |s| == n && forall p :: p in s <==> 0 <= p < n
  {
    if n == 0 then {} else PagesBelow(n - 1) + {n - 1}
  }

  lemma {:induction false} DistinctFits(pages: seq<int>, s: set<int>)
    requires forall i, j :: 0 <= i < j < |pages| ==> pages[i] != pages[j]
    requires forall i :: 0 <= i < |pages| ==> pages[i] in s
    ensures |pages| <= |s|
  {
    if pages != [] {
      DistinctFits(pages[1..], s - {pages[0]});
    }
  }

  /** The limits that can be what stops a walk over `pageCount` pages. */
  predicate LimitCanStop(pageCount: nat, maxPages: nat) {
    maxPages == 0 || maxPages < pageCount || (maxPages == pageCount && pageCount >= 3)
  }

  /**
   Pigeonhole: with links validated for a store of `pageCount` pages, a walk visits the start and at
   most the pages `1..pageCount`, so a limit above `pageCount` is never what stops it.
   */
  lemma LimitAboveCountNeverReached(start: int, maxPages: nat, lookup: LookupFn, pageCount: nat, walk: PageLinkWalk)
    requires ValidatedLookup(lookup, pageCount) && IsWalk(start, maxPages, lookup, walk)
    ensures |walk.pages| <= if pageCount == 0 then 1 else pageCount
    ensures walk.stop == LimitReached ==> LimitCanStop(pageCount, maxPages)
  {
    var pages := walk.pages;
    if pages != [] {
      var others := pages[1..];
      forall i | 0 <= i < |others|
        ensures others[i] in PagesBelow(pageCount) - {0}
      {
        assert LinkFrom(lookup, pages[i]) == Some(pages[i + 1]);
      }
      DistinctFits(others, PagesBelow(pageCount) - {0});
    }
  }

  /** Where the chain of `n` pages leads: through all of them in order, and from the last one back to page 1. */
  function ChainNext(n: nat, page: int): Option<int> {
    if 0 <= page < n - 1 then Some(page + 1)
    else if page == n - 1 && n >= 3 then Some(1)
    else None
  }

  /** A lookup that follows the chain is walked in order until the limit. */
  lemma ChainIsWalked(n: nat, maxPages: nat, lookup: LookupFn)
    requires LimitCanStop(n, maxPages) && forall page :: 0 <= page < n ==> LinkFrom(lookup, page) == ChainNext(n, page)
    ensures IsWalk(0, maxPages, lookup, PageLinkWalk(seq(maxPages, i => i), LimitReached))
  {
  }

  function ChainLookup(n: nat): LookupFn {
    page => match ChainNext(n, page)
      case Some(next) => Some(PageLinkMetadata(0, 1, InRange(next)))
      case None => None
  }

  /**
   Exactly which limits can stop a walk, for every page count: there is a validated lookup whose walk ends
   with the limit if and only if the limit is zero, below the page count, or equal to one of at least three.
   */
  lemma LimitStopsExactly(pageCount: nat, maxPages: nat)
    ensures LimitCanStop(pageCount, maxPages) <==>
      exists lookup: LookupFn, start: int, pages: seq<int> ::
        ValidatedLookup(lookup, pageCount) && IsWalk(start, maxPages, lookup, PageLinkWalk(pages, LimitReached))
  {
    hide IsWalk, LimitCanStop, ValidatedLookup;
    if LimitCanStop(pageCount, maxPages) {
      ChainIsWalked(pageCount, maxPages, ChainLookup(pageCount));
      assert ValidatedLookup(ChainLookup(pageCount), pageCount) by {
        ChainIsValidated(pageCount);
      }
    } else {
      forall lookup: LookupFn, start: int, pages: seq<int> |
          ValidatedLookup(lookup, pageCount) && IsWalk(start, maxPages, lookup, PageLinkWalk(pages, LimitReached))
        ensures false
      {
        LimitAboveCountNeverReached(start, maxPages, lookup, pageCount, PageLinkWalk(pages, LimitReached));
      }
    }
  }

  lemma ChainIsValidated(n: nat)
    ensures ValidatedLookup(ChainLookup(n), n)
  {
  }

  // ---------------------------------------------------------------- walks over a store

  /** Looking blocks up in the plaintext pages of a store. */
  function StoreLookup(store: seq<seq<Byte>>): LookupFn {
    page => if 0 <= page < |store| then FindMetadata(store[page], page, |store|) else None
  }

  /** Blocks found in a store are validated for it: in range, not page 0, and never a page's own number. */
  lemma StoreLookupIsValidated(store: seq<seq<Byte>>)
    ensures ValidatedLookup(StoreLookup(store), |store|)
  {
  }

  /** A walk over a store ends for a reason of its own unless the limit is one of those that can stop it. */
  lemma StoreWalkEnds(store: seq<seq<Byte>>, start: int, maxPages: nat, walk: PageLinkWalk)
    requires IsWalk(start, maxPages, StoreLookup(store), walk)
    ensures walk.stop == LimitReached ==> LimitCanStop(|store|, maxPages)
    ensures forall i :: 0 < i < |walk.pages| ==> 0 < walk.pages[i] < |store|
  {
    StoreLookupIsValidated(store);
    LimitAboveCountNeverReached(start, maxPages, StoreLookup(store), |store|, walk);
    forall i | 0 < i < |walk.pages|
      ensures 0 < walk.pages[i] < |store|
    {
      assert LinkFrom(StoreLookup(store), walk.pages[i - 1]) == Some(walk.pages[i]);
    }
  }

  /** The thirty-four bytes of a block of `page`, with two gaps that mean nothing. */
  function LinkBlock(page: int, flag: Byte, target: int, gap: seq<Byte>, middle: seq<Byte>): (block: seq<Byte>)
    requires 0 <= page < 0x1_0000_0000 && 0 <= target < 0x1_0000_0000 && |gap| == 2 && |middle| == 12
    ensures |block| == 34
  {
    U32ToLe(page) + [0, 0] + gap + [0, 0, 0x80, 0x3f] + middle + [0xd5, 0x0b] + [flag] + [0, 0, 0] + U32ToLe(target)
  }

  /** Whatever is a block has these bytes, and the metadata is read from its flag and target. */
  lemma BlockIsWritten(plain: seq<Byte>, offset: nat, page: int, pageCount: int)
    returns (flag: Byte, target: int, gap: seq<Byte>, middle: seq<Byte>)
    requires 0 <= page < 0x1_0000_0000 && BlockAt(plain, offset, page)
    ensures 0 <= target < 0x1_0000_0000 && |gap| == 2 && |middle| == 12 && offset + 34 <= |plain|
    ensures plain[offset..offset + 34] == LinkBlock(page, flag, target, gap, middle)
    ensures MetadataAt(plain, offset, page, pageCount) == PageLinkMetadata(offset, flag, TargetOf(flag, target, page, pageCount))
  {
    var block := plain[offset..offset + 34];
    flag, gap, middle := block[26], block[6..8], block[12..24];
    target := U32Le(block[30], block[31], block[32], block[33]);
    WordBytes(block[0], block[1], block[2], block[3]);
    WordBytes(block[30], block[31], block[32], block[33]);
    assert block[4] == 0 && block[5] == 0 && block[8..12] == [0, 0, 0x80, 0x3f];
    assert block[24..26] == [0xd5, 0x0b] && block[27..30] == [0, 0, 0];
    BlockParts(block, page, target);
  }

  lemma BlockParts(block: seq<Byte>, page: int, target: int)
    requires |block| == 34 && 0 <= page < 0x1_0000_0000 && 0 <= target < 0x1_0000_0000
    requires [block[0], block[1], block[2], block[3]] == U32ToLe(page) && block[4] == 0 && block[5] == 0
    requires block[8..12] == [0, 0, 0x80, 0x3f] && block[24..26] == [0xd5, 0x0b] && block[27..30] == [0, 0, 0]
    requires [block[30], block[31], block[32], block[33]] == U32ToLe(target)
    ensures block == LinkBlock(page, block[26], target, block[6..8], block[12..24])
  {
    hide U32ToLe;
    assert block[0..4] == U32ToLe(page) && block[30..34] == U32ToLe(target);
    assert block == block[0..4] + [0, 0] + block[6..8] + block[8..12] + block[12..24] + block[24..26] + [block[26]]
                    + block[27..30] + block[30..34];
  }

  lemma WordBytes(b0: Byte, b1: Byte, b2: Byte, b3: Byte)
    ensures U32ToLe(U32Le(b0, b1, b2, b3)) == [b0, b1, b2, b3]
  {
    var x := U32Le(b0, b1, b2, b3);
    var r := U32ToLe(x);
    var lo, hi := b0 + 256 * b1 as int, b2 + 256 * b3 as int;
    assert x == lo + 0x1_0000 * hi;
    assert U32Le(r[0], r[1], r[2], r[3]) == (r[0] + 256 * r[1] as int) + 0x1_0000 * (r[2] + 256 * r[3] as int);
    hide *;
    DigitsUnique(0x1_0000, lo, hi, r[0] + 256 * r[1] as int, r[2] + 256 * r[3] as int);
    DigitsUnique(256, b0, b1, r[0], r[1]);
    DigitsUnique(256, b2, b3, r[2], r[3]);
  }

  lemma DigitsUnique(base: int, lo: int, hi: int, otherLo: int, otherHi: int)
    requires base in {256, 0x1_0000} && 0 <= lo < base && 0 <= otherLo < base
    requires lo + base * hi == otherLo + base * otherHi
    ensures lo == otherLo && hi == otherHi
  {
    if base == 256 {
      assert lo + 256 * hi == otherLo + 256 * otherHi;
    } else {
      assert lo + 0x1_0000 * hi == otherLo + 0x1_0000 * otherHi;
    }
  }

  /** What a flag and a target mean, by cases: only flag 1 links, and only to another page of the store but page 0. */
  lemma TargetExactly(flag: Byte, target: int, page: int, pageCount: int)
    requires 0 <= target
    ensures flag == 1 && 0 < target < pageCount && target != page ==> TargetOf(flag, target, page, pageCount) == InRange(target)
    ensures flag == 1 && !(0 < target < pageCount && target != page) ==> TargetOf(flag, target, page, pageCount) == Invalid(target)
    ensures flag != 1 ==> TargetOf(flag, target, page, pageCount) == Absent
  {
  }

  /** A written block is found at its place, with its flag, and with its target by the cases above. */
  lemma BlockReadsBack(
      page: int, flag: Byte, target: int, gap: seq<Byte>, middle: seq<Byte>, following: seq<Byte>, pageCount: int)
    requires 0 <= page < pageCount && page < 0x1_0000_0000 && 0 <= target < 0x1_0000_0000 && |gap| == 2 && |middle| == 12
    ensures var found := FindMetadata(LinkBlock(page, flag, target, gap, middle) + following, page, pageCount);
      found == Some(PageLinkMetadata(0, flag,
        if flag != 1 then Absent
        else if 0 < target < pageCount && target != page then InRange(target)
        else Invalid(target)))
  {
    var block := LinkBlock(page, flag, target, gap, middle);
    var plain := block + following;
    hide U32ToLe, U32Le;
    assert block[..4] == U32ToLe(page) && block[30..34] == U32ToLe(target);
    assert block[0] == U32ToLe(page)[0] && block[1] == U32ToLe(page)[1];
    assert block[30] == U32ToLe(target)[0] && block[31] == U32ToLe(target)[1];
    assert block[8..12] == F32_ONE && block[24..26] == LINK_MARKER && block[27..30] == [0, 0, 0];
    assert plain[0..BLOCK_MIN_LEN] == block;
  }

  /** A store of `n` pages that link to one another in order, and from the last one back to page 1. */
  function ChainStore(n: nat): (store: seq<seq<Byte>>)
    requires n <= 0x1_0000_0000
    ensures |store| == n
  {
    seq(n, p requires 0 <= p < n =>
      LinkBlock(p, 1, if p + 1 < n then p + 1 else 1, [0, 0], [0, 0, 0, 0, 0, 0, 0, 0, 0, 0, 0, 0]))
  }

  /** Every limit that can stop a walk does stop one over the bytes of some store. */
  lemma StoreLimitReached(n: nat, maxPages: nat)
    requires n <= 0x1_0000_0000 && LimitCanStop(n, maxPages)
    ensures IsWalk(0, maxPages, StoreLookup(ChainStore(n)), PageLinkWalk(seq(maxPages, i => i), LimitReached))
  {
    hide LinkBlock, FindMetadata, IsWalk, LimitCanStop;
    forall page | 0 <= page < n
      ensures LinkFrom(StoreLookup(ChainStore(n)), page) == ChainNext(n, page)
    {
      var next := if page + 1 < n then page + 1 else 1;
      var block := LinkBlock(page, 1, next, [0, 0], [0, 0, 0, 0, 0, 0, 0, 0, 0, 0, 0, 0]);
      BlockReadsBack(page, 1, next, [0, 0], [0, 0, 0, 0, 0, 0, 0, 0, 0, 0, 0, 0], [], n);
      assert block + [] == block;
    }
    ChainIsWalked(n, maxPages, StoreLookup(ChainStore(n)));
  }
}
