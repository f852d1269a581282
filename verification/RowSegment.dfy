/** Physical row segments and the bounded continuation-chain walk (`row_segment.rs`). */
module RowSegment {
  import opened Wrappers
  import opened Bytes

  const ROW_SEGMENT_HEADER_LEN := 3
  const CONTINUED_ROW_SEGMENT_HEADER_LEN := 9

  datatype ContinuationTarget = ContinuationTarget(resolverKey: int, recordId: int)

  datatype Segment = Segment(declaredLen: nat, flags: Byte, nextTarget: Option<ContinuationTarget>, bytes: seq<Byte>) {
    function HeaderLen(): nat {
      if nextTarget.Some? then CONTINUED_ROW_SEGMENT_HEADER_LEN else ROW_SEGMENT_HEADER_LEN
    }

    function Payload(): seq<Byte>
      requires HeaderLen() <= |bytes|
    {
      bytes[HeaderLen()..]
    }
  }

  datatype SegmentError =
    | MissingHeader(available: nat)
    | InvalidLength(declared: nat, headerLen: nat, available: nat)

  // ---------------------------------------------------------------- one segment

  /** The flag bit 0x04. */
  predicate IsContinued(flags: Byte) {
    flags / 4 % 2 == 1
  }

  function HeaderLenFor(flags: Byte): nat {
    if IsContinued(flags) then CONTINUED_ROW_SEGMENT_HEADER_LEN else ROW_SEGMENT_HEADER_LEN
  }

  function TargetFromLe(bytes: seq<Byte>): ContinuationTarget
    requires |bytes| == 6
  {
    ContinuationTarget(U32Le(bytes[0], bytes[1], bytes[2], bytes[3]), U16Le(bytes[4], bytes[5]))
  }

  function ParseRowSegment(input: seq<Byte>): (r: Result<Segment, SegmentError>)
    ensures r.Ok? ==> r.value.HeaderLen() <= r.value.declaredLen == |r.value.bytes| <= |input|
  {
    if |input| < ROW_SEGMENT_HEADER_LEN then Err(MissingHeader(|input|))
    else
      var declaredLen := U16Le(input[0], input[1]);
      var flags := input[2];
      var headerLen := HeaderLenFor(flags);
      if declaredLen < headerLen || declaredLen > |input| then
        Err(InvalidLength(declaredLen, headerLen, |input|))
      else
        var nextTarget := if IsContinued(flags) then Some(TargetFromLe(input[3..9])) else None;
        Ok(Segment(declaredLen, flags, nextTarget, input[..declaredLen]))
  }

  /** The bytes of a segment with the given flags, continuation field and payload. */
  function EncodeSegment(flags: Byte, continuation: seq<Byte>, payload: seq<Byte>): seq<Byte>
    requires HeaderLenFor(flags) + |payload| < 0x1_0000
  {
    U16ToLe(HeaderLenFor(flags) + |payload|) + [flags] + continuation + payload
  }

  /** A well-formed segment followed by anything parses to its own flags, target and payload. */
  lemma ParseReadsEncoded(flags: Byte, continuation: seq<Byte>, payload: seq<Byte>, following: seq<Byte>)
    requires |continuation| == HeaderLenFor(flags) - ROW_SEGMENT_HEADER_LEN
    requires HeaderLenFor(flags) + |payload| < 0x1_0000
    ensures var r := ParseRowSegment(EncodeSegment(flags, continuation, payload) + following);
      && r.Ok?
      && r.value.flags == flags
      && r.value.nextTarget == (if IsContinued(flags) then Some(TargetFromLe(continuation)) else None)
      && r.value.Payload() == payload
      && r.value.bytes == EncodeSegment(flags, continuation, payload)
  {
    var bytes := EncodeSegment(flags, continuation, payload);
    var input := bytes + following;
    assert input[0] == bytes[0] && input[1] == bytes[1] && input[2] == flags;
    assert |bytes| == HeaderLenFor(flags) + |payload|;
    assert input[..|bytes|] == bytes;
    assert bytes[HeaderLenFor(flags)..] == payload;
    if IsContinued(flags) {
      assert input[3..9] == continuation;
    }
  }

  /** Whatever parses is such a segment: the parser accepts nothing else. */
  lemma ParsedIsEncoded(input: seq<Byte>) returns (continuation: seq<Byte>)
    requires ParseRowSegment(input).Ok?
    ensures var s := ParseRowSegment(input).value;
      && |continuation| == HeaderLenFor(s.flags) - ROW_SEGMENT_HEADER_LEN
      && HeaderLenFor(s.flags) + |s.Payload()| < 0x1_0000
      && s.bytes == EncodeSegment(s.flags, continuation, s.Payload())
      && input == s.bytes + input[s.declaredLen..]
  {
    var s := ParseRowSegment(input).value;
    var h := HeaderLenFor(s.flags);
    continuation := s.bytes[3..h];
    LengthBytes(input[0], input[1], s.declaredLen);
    assert s.HeaderLen() == h && s.bytes == input[..s.declaredLen] && s.flags == input[2];
    hide TargetFromLe, ParseRowSegment, U16Le, U16ToLe, IsContinued;
    assert s.bytes == [input[0], input[1]] + [s.flags] + continuation + s.Payload();
  }

  lemma LengthBytes(lo: Byte, hi: Byte, x: int)
    requires x == U16Le(lo, hi)
    ensures U16ToLe(x) == [lo, hi]
  {
  }

  // ---------------------------------------------------------------- written segments, byte by byte

  /** A segment that goes on at a target: a nine-byte header, whose flags have the bit of weight four, and the payload. */
  function ContinuedBytes(flags: Byte, target: ContinuationTarget, payload: seq<Byte>): seq<Byte>
    requires 9 + |payload| < 0x1_0000 && 0 <= target.resolverKey < 0x1_0000_0000 && 0 <= target.recordId < 0x1_0000
  {
    U16ToLe(9 + |payload|) + [flags] + U32ToLe(target.resolverKey) + U16ToLe(target.recordId) + payload
  }

  /** A segment that ends its chain: a three-byte header and the payload. */
  function FinalBytes(flags: Byte, payload: seq<Byte>): seq<Byte>
    requires 3 + |payload| < 0x1_0000
  {
    U16ToLe(3 + |payload|) + [flags] + payload
  }

  lemma FlagBit(flags: int, high: int, bit: int, low: int)
    requires flags == 8 * high + 4 * bit + low && 0 <= high && 0 <= bit < 2 && 0 <= low < 4
    ensures flags / 4 % 2 == bit
  {
    assert flags / 4 == 2 * high + bit;
  }

  /** A continued segment reads back, whatever its other flags and whatever follows it. */
  lemma ContinuedReadsBack(
      flags: Byte, high: nat, low: nat, target: ContinuationTarget, payload: seq<Byte>, following: seq<Byte>)
    requires flags == 8 * high + 4 + low && low < 4
    requires 9 + |payload| < 0x1_0000 && 0 <= target.resolverKey < 0x1_0000_0000 && 0 <= target.recordId < 0x1_0000
    ensures var bytes := ContinuedBytes(flags, target, payload);
      var r := ParseRowSegment(bytes + following);
      r == Ok(Segment(9 + |payload|, flags, Some(target), bytes)) && r.value.Payload() == payload
  {
    FlagBit(flags, high, 1, low);
    var continuation := U32ToLe(target.resolverKey) + U16ToLe(target.recordId);
    var bytes := ContinuedBytes(flags, target, payload);
    assert bytes == EncodeSegment(flags, continuation, payload);
    assert TargetFromLe(continuation) == target;
    hide U16ToLe, U32ToLe, U16Le, U32Le, TargetFromLe, EncodeSegment;
    ParseReadsEncoded(flags, continuation, payload, following);
  }

  /** So does a final segment. */
  lemma FinalReadsBack(flags: Byte, high: nat, low: nat, payload: seq<Byte>, following: seq<Byte>)
    requires flags == 8 * high + low && low < 4 && 3 + |payload| < 0x1_0000
    ensures var bytes := FinalBytes(flags, payload);
      var r := ParseRowSegment(bytes + following);
      r == Ok(Segment(3 + |payload|, flags, None, bytes)) && r.value.Payload() == payload
  {
    FlagBit(flags, high, 0, low);
    assert FinalBytes(flags, payload) == EncodeSegment(flags, [], payload);
    hide U16ToLe, U16Le, TargetFromLe, EncodeSegment;
    ParseReadsEncoded(flags, [], payload, following);
  }

  /** Exactly what is refused, and how: a short header, or a declared length outside the header and the input. */
  lemma RefusedExactly(input: seq<Byte>, high: nat, bit: nat, low: nat)
    requires |input| >= 3 ==> input[2] == 8 * high + 4 * bit + low && bit < 2 && low < 4
    ensures |input| < 3 ==> ParseRowSegment(input) == Err(MissingHeader(|input|))
    ensures |input| >= 3 ==>
      var lo: int, hi: int := input[0], input[1];
      var declared := lo + 256 * hi;
      var header := if bit == 1 then 9 else 3;
      && (ParseRowSegment(input).Err? <==> declared < header || declared > |input|)
      && (ParseRowSegment(input).Err? ==> ParseRowSegment(input) == Err(InvalidLength(declared, header, |input|)))
  {
    hide TargetFromLe;
    if |input| >= 3 {
      FlagBit(input[2], high, bit, low);
    }
  }

  // ---------------------------------------------------------------- chains

  datatype ChainLimits = ChainLimits(maxSegments: nat, maxTotalPayloadBytes: nat)

  datatype ChainSegment = ChainSegment(target: ContinuationTarget, flags: Byte, declaredLen: nat, payload: seq<Byte>)

  datatype Chain = Chain(segments: seq<ChainSegment>, totalPayloadBytes: nat)

  datatype ChainError<+E> =
    | InvalidSegment(target: ContinuationTarget, segmentIndex: nat, source: SegmentError)
    | TrailingBytes(target: ContinuationTarget, segmentIndex: nat, declaredLen: nat, available: nat)
    | Resolver(target: ContinuationTarget, cause: E)
    | SegmentLimit(maxSegments: nat, attemptedSegments: nat)
    | PayloadLimit(maxTotalPayloadBytes: nat, attemptedTotalPayloadBytes: nat)
    | Cycle(target: ContinuationTarget)

  /** One step of a chain: a target and the bytes that stand there. */
  datatype Hop = Hop(target: ContinuationTarget, bytes: seq<Byte>) {
    /** The bytes are one segment and nothing more. */
    predicate Exact() {
      ParseRowSegment(bytes).Ok? && ParseRowSegment(bytes).value.declaredLen == |bytes|
    }

    function Next(): Option<ContinuationTarget>
      requires Exact()
    {
      ParseRowSegment(bytes).value.nextTarget
    }

    function Payload(): seq<Byte>
      requires Exact()
    {
      ParseRowSegment(bytes).value.Payload()
    }

    function AsSegment(): ChainSegment
      requires Exact()
    {
      ChainSegment(target, ParseRowSegment(bytes).value.flags, |bytes|, Payload())
    }
  }

  type ResolverFn<!E> = ContinuationTarget -> Result<seq<Byte>, E>

  function Targets(path: seq<Hop>): (ts: seq<ContinuationTarget>)
    ensures |ts| == |path| && forall i :: 0 <= i < |path| ==> ts[i] == path[i].target
  {
    seq(|path|, i requires 0 <= i < |path| => path[i].target)
  }

  predicate AllExact(path: seq<Hop>) {
    forall i :: 0 <= i < |path| ==> path[i].Exact()
  }

  function PayloadSum(path: seq<Hop>): nat
    requires AllExact(path)
  {
    if path == [] then 0 else PayloadSum(path[..|path| - 1]) + |path[|path| - 1].Payload()|
  }

  function Segments(path: seq<Hop>): (ss: seq<ChainSegment>)
    requires AllExact(path)
    ensures |ss| == |path|
  {
    seq(|path|, i requires 0 <= i < |path| => path[i].AsSegment())
  }

  /** `hop` is what the path leads to: the initial segment, or the resolved continuation of the last one. */
  ghost predicate LeadsTo<E(!new)>(initial: Hop, resolve: ResolverFn<E>, path: seq<Hop>, hop: Hop)
    requires AllExact(path)
  {
    if path == [] then hop == initial
    else path[|path| - 1].Next() == Some(hop.target) && resolve(hop.target) == Ok(hop.bytes)
  }

  /** Every hop of the path is an exact segment reached by following the one before, and no target repeats. */
  ghost predicate Walked<E(!new)>(initial: Hop, resolve: ResolverFn<E>, path: seq<Hop>): (walked: bool)
    ensures walked ==> AllExact(path)
  {
    && AllExact(path)
    && (forall i {:trigger LeadsTo(initial, resolve, path[..i], path[i])} ::
          0 <= i < |path| ==> LeadsTo(initial, resolve, path[..i], path[i]))
    && (forall i, j :: 0 <= i < j < |path| ==> path[i].target != path[j].target)
  }

  /** A finite continuation chain from the initial segment to one without a continuation. */
  ghost predicate IsCompleteChain<E(!new)>(initial: Hop, resolve: ResolverFn<E>, path: seq<Hop>) {
    Walked(initial, resolve, path) && path != [] && path[|path| - 1].Next() == None
  }

  predicate WithinLimits(path: seq<Hop>, limits: ChainLimits)
    requires AllExact(path)
  {
    |path| <= limits.maxSegments && PayloadSum(path) <= limits.maxTotalPayloadBytes
  }

  /** The walk goes on after `path`: there is room, and the next target, if `path` has one to give, is new. */
  predicate GoesOn(limits: ChainLimits, path: seq<Hop>)
    requires AllExact(path)
  {
    && |path| < limits.maxSegments
    && (path != [] ==> path[|path| - 1].Next().Some? && path[|path| - 1].Next().value !in Targets(path))
  }

  /** Why a walk that has taken `path` stops with `error`. */
  ghost predicate FailsAfter<E(!new)>(
      initial: Hop, resolve: ResolverFn<E>, limits: ChainLimits, path: seq<Hop>, error: ChainError<E>)
    requires AllExact(path)
  {
    match error
    case Cycle(t) => path != [] && path[|path| - 1].Next() == Some(t) && t in Targets(path)
    case SegmentLimit(m, n) =>
      && m == limits.maxSegments == |path| && n == |path| + 1
      && (path != [] ==> path[|path| - 1].Next().Some? && path[|path| - 1].Next().value !in Targets(path))
    case Resolver(t, cause) =>
      GoesOn(limits, path) && path != [] && path[|path| - 1].Next() == Some(t) && resolve(t) == Err(cause)
    case InvalidSegment(t, i, source) =>
      GoesOn(limits, path) && i == |path| && exists bytes ::
        LeadsTo(initial, resolve, path, Hop(t, bytes)) && ParseRowSegment(bytes) == Err(source)
    case TrailingBytes(t, i, declared, available) =>
      GoesOn(limits, path) && i == |path| && exists bytes ::
        && LeadsTo(initial, resolve, path, Hop(t, bytes)) && |bytes| == available
        && ParseRowSegment(bytes).Ok? && ParseRowSegment(bytes).value.declaredLen == declared < available
    case PayloadLimit(m, n) =>
      GoesOn(limits, path) && m == limits.maxTotalPayloadBytes < n && exists hop: Hop ::
        LeadsTo(initial, resolve, path, hop) && hop.Exact() && n == PayloadSum(path) + |hop.Payload()|
  }

  /** The reason fits one hop only: after a given path there is at most one way to fail. */
  lemma ReasonUnique<E(!new)>(
      initial: Hop, resolve: ResolverFn<E>, limits: ChainLimits, path: seq<Hop>, a: ChainError<E>, b: ChainError<E>)
    requires AllExact(path)
    requires FailsAfter(initial, resolve, limits, path, a) && FailsAfter(initial, resolve, limits, path, b)
    ensures a == b
  {
    hide ParseRowSegment, Targets;
  }

  /** The targets that a walk has asked the resolver for when it ends. */
  ghost function Asked<E(!new)>(path: seq<Hop>, r: Result<Chain, ChainError<E>>): seq<ContinuationTarget>
    requires AllExact(path)
  {
    if path == [] then []
    else
      var taken := Targets(path)[1..];
      if r.Ok? || r.error.Cycle? || r.error.SegmentLimit? || path[|path| - 1].Next() == None then taken
      else taken + [path[|path| - 1].Next().value]
  }

  lemma PayloadSumAppend(path: seq<Hop>, hop: Hop)
    requires AllExact(path) && hop.Exact()
    ensures AllExact(path + [hop]) && PayloadSum(path + [hop]) == PayloadSum(path) + |hop.Payload()|
  {
    assert (path + [hop])[..|path|] == path;
  }

  lemma {:induction false} PayloadSumPrefix(path: seq<Hop>, n: nat)
    requires AllExact(path) && n <= |path|
    ensures PayloadSum(path[..n]) <= PayloadSum(path)
  {
    if n < |path| {
      var shorter := path[..|path| - 1];
      PayloadSumPrefix(shorter, n);
      assert shorter[..n] == path[..n];
    } else {
      assert path[..n] == path;
    }
  }

  /** Following continuations is deterministic: two walks agree as far as both go. */
  lemma {:induction false} WalksAgree<E(!new)>(initial: Hop, resolve: ResolverFn<E>, a: seq<Hop>, b: seq<Hop>, n: nat)
    requires Walked(initial, resolve, a) && Walked(initial, resolve, b) && n <= |a| && n <= |b|
    ensures a[..n] == b[..n]
  {
    if n > 0 {
      hide ParseRowSegment, Walked;
      WalksAgree(initial, resolve, a, b, n - 1);
      WalkedStep(initial, resolve, a, n - 1);
      WalkedStep(initial, resolve, b, n - 1);
      SameHop(initial, resolve, a[..n - 1], a[n - 1], b[n - 1]);
      assert a[..n] == a[..n - 1] + [a[n - 1]] && b[..n] == b[..n - 1] + [b[n - 1]];
    }
  }

  lemma WalkedStep<E(!new)>(initial: Hop, resolve: ResolverFn<E>, path: seq<Hop>, n: nat)
    requires Walked(initial, resolve, path) && n < |path|
    ensures AllExact(path[..n]) && LeadsTo(initial, resolve, path[..n], path[n]) && path[n].Exact()
    ensures path[n].target !in Targets(path[..n])
    ensures n > 0 ==> path[..n][|path[..n]| - 1].Next() == Some(path[n].target)
  {
    hide ParseRowSegment;
  }

  lemma SameHop<E(!new)>(initial: Hop, resolve: ResolverFn<E>, path: seq<Hop>, a: Hop, b: Hop)
    requires AllExact(path) && LeadsTo(initial, resolve, path, a) && LeadsTo(initial, resolve, path, b)
    ensures a == b
  {
  }

  /** A walk is a prefix of every complete chain. */
  lemma WalkIsPrefix<E(!new)>(initial: Hop, resolve: ResolverFn<E>, path: seq<Hop>, chain: seq<Hop>)
    requires Walked(initial, resolve, path) && IsCompleteChain(initial, resolve, chain)
    ensures |path| <= |chain| && path == chain[..|path|]
  {
    hide ParseRowSegment, Walked;
    if |path| > |chain| {
      WalksAgree(initial, resolve, path, chain, |chain|);
      WalkedStep(initial, resolve, path, |chain|);
      assert false;
    }
    WalksAgree(initial, resolve, path, chain, |path|);
    assert path[..|path|] == path;
  }

  /** A hop that would go on within the limits contradicts every reason to stop. */
  lemma FailureStopsHop<E(!new)>(
      initial: Hop, resolve: ResolverFn<E>, limits: ChainLimits, path: seq<Hop>, error: ChainError<E>, hop: Hop)
    requires AllExact(path) && FailsAfter(initial, resolve, limits, path, error)
    requires LeadsTo(initial, resolve, path, hop) && hop.Exact() && hop.target !in Targets(path)
    requires |path| < limits.maxSegments
    ensures PayloadSum(path) + |hop.Payload()| > limits.maxTotalPayloadBytes
  {
    hide ParseRowSegment, Targets, PayloadSum;
  }

  /** A walk within the limits that fails goes no further: no longer walk stays within them. */
  lemma FailedWalkIsMaximal<E(!new)>(
      initial: Hop, resolve: ResolverFn<E>, limits: ChainLimits, path: seq<Hop>, error: ChainError<E>, longer: seq<Hop>)
    requires Walked(initial, resolve, path) && FailsAfter(initial, resolve, limits, path, error)
    requires Walked(initial, resolve, longer) && WithinLimits(longer, limits)
    ensures |longer| <= |path|
  {
    if |longer| > |path| {
      hide ParseRowSegment, Walked, FailsAfter, LeadsTo, Targets, PayloadSum;
      var n := |path|;
      WalksAgree(initial, resolve, path, longer, n);
      assert path[..n] == path;
      WalkedStep(initial, resolve, longer, n);
      OneMoreFits(limits, path, longer);
      FailureStopsHop(initial, resolve, limits, path, error, longer[n]);
    }
  }

  /** A longer path within the limits leaves room for its next hop. */
  lemma OneMoreFits(limits: ChainLimits, path: seq<Hop>, longer: seq<Hop>)
    requires AllExact(longer) && AllExact(path) && |path| < |longer| && longer[..|path|] == path
    requires WithinLimits(longer, limits)
    ensures |path| < limits.maxSegments && PayloadSum(path) + |longer[|path|].Payload()| <= limits.maxTotalPayloadBytes
  {
    var n := |path|;
    PayloadSumPrefix(longer, n + 1);
    assert longer[..n + 1] == path + [longer[n]];
    PayloadSumAppend(path, longer[n]);
    hide PayloadSum, ParseRowSegment;
  }

  /** The failure of the walk is determined: the path taken, and the reason. */
  lemma FailureUnique<E(!new)>(
      initial: Hop, resolve: ResolverFn<E>, limits: ChainLimits, a: seq<Hop>, d: ChainError<E>, b: seq<Hop>, e: ChainError<E>)
    requires Walked(initial, resolve, a) && WithinLimits(a, limits) && FailsAfter(initial, resolve, limits, a, d)
    requires Walked(initial, resolve, b) && WithinLimits(b, limits) && FailsAfter(initial, resolve, limits, b, e)
    ensures a == b && d == e
  {
    hide ParseRowSegment, Walked, FailsAfter, WithinLimits;
    FailedWalkIsMaximal(initial, resolve, limits, a, d, b);
    FailedWalkIsMaximal(initial, resolve, limits, b, e, a);
    WalksAgree(initial, resolve, a, b, |a|);
    assert a[..|a|] == a && b[..|b|] == b;
    ReasonUnique(initial, resolve, limits, a, d, e);
  }

  /** A complete chain is unique. */
  lemma CompleteChainUnique<E(!new)>(initial: Hop, resolve: ResolverFn<E>, a: seq<Hop>, b: seq<Hop>)
    requires IsCompleteChain(initial, resolve, a) && IsCompleteChain(initial, resolve, b)
    ensures a == b
  {
    WalkIsPrefix(initial, resolve, a, b);
    WalkIsPrefix(initial, resolve, b, a);
    assert b[..|a|] == b;
  }

  /** A walk that stops with an error rules out every complete chain within the limits. */
  lemma FailureRulesOutChains<E(!new)>(
      initial: Hop, resolve: ResolverFn<E>, limits: ChainLimits, path: seq<Hop>, error: ChainError<E>, chain: seq<Hop>)
    requires Walked(initial, resolve, path) && FailsAfter(initial, resolve, limits, path, error)
    requires IsCompleteChain(initial, resolve, chain)
    ensures !WithinLimits(chain, limits)
  {
    hide ParseRowSegment, Walked, FailsAfter;
    WalkIsPrefix(initial, resolve, path, chain);
    if WithinLimits(chain, limits) {
      FailedWalkIsMaximal(initial, resolve, limits, path, error, chain);
      assert path == chain;
      LastHasNext(initial, resolve, limits, path, error);
      assert false;
    }
  }

  /** No failure follows a path that is already complete. */
  lemma LastHasNext<E(!new)>(
      initial: Hop, resolve: ResolverFn<E>, limits: ChainLimits, path: seq<Hop>, error: ChainError<E>)
    requires AllExact(path) && path != [] && FailsAfter(initial, resolve, limits, path, error)
    ensures path[|path| - 1].Next().Some?
  {
    hide ParseRowSegment, Targets;
  }

  /** The chain whose hops carry the given payloads at the given targets. */
  function WrittenChain(targets: seq<ContinuationTarget>, flags: seq<Byte>, payloads: seq<seq<Byte>>): (path: seq<Hop>)
    requires |targets| == |flags| == |payloads| && (forall i :: 0 <= i < |payloads| ==> 9 + |payloads[i]| < 0x1_0000)
    requires forall i :: 0 <= i < |targets| ==> 0 <= targets[i].resolverKey < 0x1_0000_0000 && 0 <= targets[i].recordId < 0x1_0000
    ensures |path| == |targets|
  {
    seq(|targets|, i requires 0 <= i < |targets| => Hop(targets[i],
      if i + 1 < |targets| then ContinuedBytes(flags[i], targets[i + 1], payloads[i]) else FinalBytes(flags[i], payloads[i])))
  }

  /**
   A written chain is the chain that the walk is about. When the resolver holds its later segments, every flag
   byte has the bit of weight four except the last, and the targets differ, following continuations gives
   exactly the written targets and payloads.
   */
  lemma WrittenChainIsComplete<E(!new)>(
      targets: seq<ContinuationTarget>, flags: seq<Byte>, high: seq<nat>, low: seq<nat>, payloads: seq<seq<Byte>>,
      resolve: ResolverFn<E>)
    requires 0 < |targets| == |flags| == |payloads| == |high| == |low|
    requires forall i :: 0 <= i < |payloads| ==> 9 + |payloads[i]| < 0x1_0000
    requires forall i :: 0 <= i < |targets| ==> 0 <= targets[i].resolverKey < 0x1_0000_0000 && 0 <= targets[i].recordId < 0x1_0000
    requires forall i :: 0 <= i < |flags| ==>
      low[i] < 4 && flags[i] == 8 * high[i] + (if i + 1 < |flags| then 4 else 0) + low[i]
    requires forall i, j :: 0 <= i < j < |targets| ==> targets[i] != targets[j]
    requires forall i :: 0 < i < |targets| ==> resolve(targets[i]) == Ok(WrittenChain(targets, flags, payloads)[i].bytes)
    ensures var path := WrittenChain(targets, flags, payloads);
      && IsCompleteChain(path[0], resolve, path)
      && forall i :: 0 <= i < |path| ==>
           path[i].Payload() == payloads[i] && path[i].AsSegment() == ChainSegment(targets[i], flags[i], |path[i].bytes|, payloads[i])
  {
    hide *;
    var path := WrittenChain(targets, flags, payloads);
    forall i | 0 <= i < |path|
      ensures path[i].target == targets[i] && path[i].Exact() && path[i].Payload() == payloads[i]
      ensures path[i].Next() == if i + 1 < |path| then Some(targets[i + 1]) else None
      ensures path[i].AsSegment() == ChainSegment(targets[i], flags[i], |path[i].bytes|, payloads[i])
    {
      WrittenHop(targets, flags, payloads, i, high[i], low[i]);
    }
    AllHopsExact(path);
    var last := |path| - 1;
    WrittenHop(targets, flags, payloads, last, high[last], low[last]);
    HopsMakeChain(path, resolve);
  }

  lemma AllHopsExact(path: seq<Hop>)
    requires forall i :: 0 <= i < |path| ==> path[i].Exact()
    ensures AllExact(path)
  {
  }

  /** Hops that name one another in turn, each found by the resolver, are a complete chain. */
  lemma HopsMakeChain<E(!new)>(path: seq<Hop>, resolve: ResolverFn<E>)
    requires path != [] && AllExact(path) && path[|path| - 1].Next() == None
    requires forall i :: 0 < i < |path| ==> path[i - 1].Next() == Some(path[i].target) && resolve(path[i].target) == Ok(path[i].bytes)
    requires forall i, j :: 0 <= i < j < |path| ==> path[i].target != path[j].target
    ensures IsCompleteChain(path[0], resolve, path)
  {
    hide ParseRowSegment;
    forall i | 0 <= i < |path|
      ensures LeadsTo(path[0], resolve, path[..i], path[i])
    {
      if i > 0 {
        assert path[..i][i - 1] == path[i - 1];
      }
    }
  }

  lemma WrittenHop(targets: seq<ContinuationTarget>, flags: seq<Byte>, payloads: seq<seq<Byte>>, i: nat, high: nat, low: nat)
    requires i < |targets| == |flags| == |payloads| && (forall k :: 0 <= k < |payloads| ==> 9 + |payloads[k]| < 0x1_0000)
    requires forall k :: 0 <= k < |targets| ==> 0 <= targets[k].resolverKey < 0x1_0000_0000 && 0 <= targets[k].recordId < 0x1_0000
    requires low < 4 && flags[i] == 8 * high + (if i + 1 < |flags| then 4 else 0) + low
    ensures var hop := WrittenChain(targets, flags, payloads)[i];
      && hop.target == targets[i] && hop.Exact() && hop.Payload() == payloads[i]
      && hop.Next() == (if i + 1 < |targets| then Some(targets[i + 1]) else None)
      && hop.AsSegment() == ChainSegment(targets[i], flags[i], |hop.bytes|, payloads[i])
  {
    var hop := WrittenChain(targets, flags, payloads)[i];
    assert hop.bytes + [] == hop.bytes;
    if i + 1 < |targets| {
      ContinuedReadsBack(flags[i], high, low, targets[i + 1], payloads[i], []);
    } else {
      FinalReadsBack(flags[i], high, low, payloads[i], []);
    }
    hide ParseRowSegment;
  }

  /**
   The bounded walk. It succeeds exactly when following continuations from the initial segment gives
   a complete chain within both limits, and returns that chain. When it fails, `path` is how far it got
   and the error is the one reason that fits it. `calls` lists the targets handed to the resolver, in order.
   */
  method WalkRowSegmentChain<E(!new)>(
      initialTarget: ContinuationTarget, initialBytes: seq<Byte>, limits: ChainLimits, resolve: ResolverFn<E>)
    returns (r: Result<Chain, ChainError<E>>, path: seq<Hop>, calls: seq<ContinuationTarget>)
    ensures Walked(Hop(initialTarget, initialBytes), resolve, path) && WithinLimits(path, limits)
    ensures r.Ok? ==>
      && IsCompleteChain(Hop(initialTarget, initialBytes), resolve, path)
      && r.value == Chain(Segments(path), PayloadSum(path))
    ensures r.Err? ==>
      && FailsAfter(Hop(initialTarget, initialBytes), resolve, limits, path, r.error)
      && forall chain :: IsCompleteChain(Hop(initialTarget, initialBytes), resolve, chain) ==> !WithinLimits(chain, limits)
    ensures calls == Asked(path, r)
  {
    hide ParseRowSegment, PayloadSum, Segments, Walked, Targets, FailsAfter, LeadsTo, GoesOn, Seen, AllExact, Asked, Pending;
    ghost var initial := Hop(initialTarget, initialBytes);
    EmptyWalk(initial, resolve, limits);
    FirstSeen(initialTarget);
    NothingPending(initialTarget);
    var visited := {initialTarget};
    var segments: seq<ChainSegment> := [];
    var totalPayloadBytes: nat := 0;
    var target, bytes := initialTarget, initialBytes;
    path, calls := [], [];
    while true
      invariant Walked(initial, resolve, path) && WithinLimits(path, limits)
      invariant segments == Segments(path) && totalPayloadBytes == PayloadSum(path)
      invariant LeadsTo(initial, resolve, path, Hop(target, bytes))
      invariant target !in Targets(path)
      invariant Seen(visited, path, target)
      invariant |path| < limits.maxSegments ==> GoesOn(limits, path)
      invariant Pending(path, target, calls) && (path == [] || |path| < limits.maxSegments)
      decreases limits.maxSegments - |path|
    {
      var hop := Hop(target, bytes);
      var segmentIndex := |segments|;
      if segmentIndex >= limits.maxSegments {
        r := Err(SegmentLimit(limits.maxSegments, segmentIndex + 1));
        NoRoom<E>(initial, resolve, limits, path);
        PendingAsked(path, target, calls, r.error);
        RuleOutChains(initial, resolve, limits, path, r.error);
        return;
      }
      var parsed := ParseRowSegment(bytes);
      if parsed.Err? {
        r := Err(InvalidSegment(target, segmentIndex, parsed.error));
        PendingAsked(path, target, calls, r.error);
        HopFails(initial, resolve, limits, path, hop);
        RuleOutChains(initial, resolve, limits, path, r.error);
        return;
      }
      var segment := parsed.value;
      if segment.declaredLen != |bytes| {
        r := Err(TrailingBytes(target, segmentIndex, segment.declaredLen, |bytes|));
        PendingAsked(path, target, calls, r.error);
        HopFails(initial, resolve, limits, path, hop);
        RuleOutChains(initial, resolve, limits, path, r.error);
        return;
      }
      var payload := segment.Payload();
      if |payload| > limits.maxTotalPayloadBytes - totalPayloadBytes {
        r := Err(PayloadLimit(limits.maxTotalPayloadBytes, totalPayloadBytes + |payload|));
        PendingAsked(path, target, calls, r.error);
        HopFails(initial, resolve, limits, path, hop);
        RuleOutChains(initial, resolve, limits, path, r.error);
        return;
      }
      totalPayloadBytes := totalPayloadBytes + |payload|;
      segments := segments + [ChainSegment(target, segment.flags, segment.declaredLen, payload)];
      TakeHop(initial, resolve, path, hop);
      SeenSoFar(visited, path, hop, segment.nextTarget);
      PendingTaken(path, hop, calls);
      path := path + [hop];
      if segment.nextTarget == None {
        r := Ok(Chain(segments, totalPayloadBytes));
        TakenAsked(path, calls, r);
        return;
      }
      var nextTarget := segment.nextTarget.value;
      NextFails(initial, resolve, limits, path, nextTarget);
      if nextTarget in visited {
        r := Err(Cycle(nextTarget));
        TakenAsked(path, calls, r);
        RuleOutChains(initial, resolve, limits, path, r.error);
        return;
      }
      visited := visited + {nextTarget};
      if |segments| >= limits.maxSegments {
        r := Err(SegmentLimit(limits.maxSegments, |segments| + 1));
        TakenAsked(path, calls, r);
        RuleOutChains(initial, resolve, limits, path, r.error);
        return;
      }
      PendingNext(path, nextTarget, calls);
      calls := calls + [nextTarget];
      var resolved := resolve(nextTarget);
      if resolved.Err? {
        r := Err(Resolver(nextTarget, resolved.error));
        PendingAsked(path, nextTarget, calls, r.error);
        RuleOutChains(initial, resolve, limits, path, r.error);
        return;
      }
      target, bytes := nextTarget, resolved.value;
    }
  }

  /** The targets of the hops taken, and the one to take next. */
  ghost predicate Seen(visited: set<ContinuationTarget>, path: seq<Hop>, target: ContinuationTarget) {
    forall t :: t in visited <==> t in Targets(path) || t == target
  }

  /** The targets asked for so far, when `target` has been asked for and its bytes are not yet taken. */
  ghost predicate Pending(path: seq<Hop>, target: ContinuationTarget, calls: seq<ContinuationTarget>)
    requires AllExact(path)
  {
    if path == [] then calls == []
    else path[|path| - 1].Next() == Some(target) && calls == Targets(path)[1..] + [target]
  }

  lemma NothingPending(target: ContinuationTarget)
    ensures AllExact([]) && Pending([], target, [])
  {
  }

  lemma PendingAsked<E(!new)>(
      path: seq<Hop>, target: ContinuationTarget, calls: seq<ContinuationTarget>, error: ChainError<E>)
    requires AllExact(path) && Pending(path, target, calls) && (path == [] || !(error.Cycle? || error.SegmentLimit?))
    ensures calls == Asked(path, Err(error))
  {
  }

  lemma PendingTaken(path: seq<Hop>, hop: Hop, calls: seq<ContinuationTarget>)
    requires AllExact(path) && Pending(path, hop.target, calls) && Targets(path + [hop]) == Targets(path) + [hop.target]
    ensures calls == Targets(path + [hop])[1..]
  {
    hide Targets;
  }

  lemma TakenAsked<E(!new)>(path: seq<Hop>, calls: seq<ContinuationTarget>, r: Result<Chain, ChainError<E>>)
    requires AllExact(path) && path != [] && calls == Targets(path)[1..] && (r.Ok? || r.error.Cycle? || r.error.SegmentLimit?)
    ensures calls == Asked(path, r)
  {
  }

  lemma PendingNext(path: seq<Hop>, next: ContinuationTarget, calls: seq<ContinuationTarget>)
    requires AllExact(path) && path != [] && path[|path| - 1].Next() == Some(next) && calls == Targets(path)[1..]
    ensures Pending(path, next, calls + [next])
  {
  }

  lemma FirstSeen(target: ContinuationTarget)
    ensures Seen({target}, [], target)
  {
  }

  lemma SeenSoFar(visited: set<ContinuationTarget>, path: seq<Hop>, hop: Hop, next: Option<ContinuationTarget>)
    requires Seen(visited, path, hop.target) && Targets(path + [hop]) == Targets(path) + [hop.target]
    ensures next.Some? ==>
      && (next.value in visited <==> next.value in Targets(path + [hop]))
      && Seen(visited + {next.value}, path + [hop], next.value)
  {
    hide Targets;
  }

  /** The reasons that lie in the bytes that the walk has come to. */
  lemma HopFails<E(!new)>(initial: Hop, resolve: ResolverFn<E>, limits: ChainLimits, path: seq<Hop>, hop: Hop)
    requires AllExact(path) && LeadsTo(initial, resolve, path, hop) && GoesOn(limits, path)
    ensures var parsed := ParseRowSegment(hop.bytes);
      && (parsed.Err? ==> FailsAfter(initial, resolve, limits, path, InvalidSegment(hop.target, |path|, parsed.error)))
      && (parsed.Ok? && parsed.value.declaredLen != |hop.bytes| ==>
            FailsAfter(initial, resolve, limits, path,
                       TrailingBytes(hop.target, |path|, parsed.value.declaredLen, |hop.bytes|)))
      && (hop.Exact() && PayloadSum(path) + |hop.Payload()| > limits.maxTotalPayloadBytes ==>
            FailsAfter(initial, resolve, limits, path,
                       PayloadLimit(limits.maxTotalPayloadBytes, PayloadSum(path) + |hop.Payload()|)))
  {
    hide LeadsTo, GoesOn, ParseRowSegment, PayloadSum;
    assert LeadsTo(initial, resolve, path, Hop(hop.target, hop.bytes));
  }

  /** The reasons that lie in the continuation of the last hop taken. */
  lemma NextFails<E(!new)>(
      initial: Hop, resolve: ResolverFn<E>, limits: ChainLimits, path: seq<Hop>, next: ContinuationTarget)
    requires AllExact(path) && path != [] && |path| <= limits.maxSegments && path[|path| - 1].Next() == Some(next)
    ensures next in Targets(path) ==> FailsAfter(initial, resolve, limits, path, Cycle(next))
    ensures next !in Targets(path) && |path| >= limits.maxSegments ==>
      FailsAfter(initial, resolve, limits, path, SegmentLimit(limits.maxSegments, |path| + 1))
    ensures next !in Targets(path) && |path| < limits.maxSegments ==>
      && GoesOn(limits, path)
      && (resolve(next).Err? ==> FailsAfter(initial, resolve, limits, path, Resolver(next, resolve(next).error)))
      && (resolve(next).Ok? ==> LeadsTo(initial, resolve, path, Hop(next, resolve(next).value)))
  {
    hide ParseRowSegment, Targets;
  }

  lemma NoRoom<E(!new)>(initial: Hop, resolve: ResolverFn<E>, limits: ChainLimits, path: seq<Hop>)
    requires path == [] && limits.maxSegments == 0
    ensures FailsAfter(initial, resolve, limits, path, SegmentLimit(0, 1))
  {
  }

  lemma EmptyWalk<E(!new)>(initial: Hop, resolve: ResolverFn<E>, limits: ChainLimits)
    ensures Walked(initial, resolve, []) && PayloadSum([]) == 0 && LeadsTo(initial, resolve, [], initial)
    ensures 0 < limits.maxSegments ==> GoesOn(limits, [])
  {
  }

  /** Appending the hop that a walk leads to extends the walk. */
  lemma TakeHop<E(!new)>(initial: Hop, resolve: ResolverFn<E>, path: seq<Hop>, hop: Hop)
    requires Walked(initial, resolve, path) && hop.Exact()
    requires LeadsTo(initial, resolve, path, hop) && hop.target !in Targets(path)
    ensures var longer := path + [hop];
      && Walked(initial, resolve, longer)
      && PayloadSum(longer) == PayloadSum(path) + |hop.Payload()|
      && Segments(longer) == Segments(path) + [hop.AsSegment()]
      && Targets(longer) == Targets(path) + [hop.target]
  {
    PayloadSumAppend(path, hop);
    hide ParseRowSegment, PayloadSum;
    WalkedAppend(initial, resolve, path, hop);
    hide Walked, LeadsTo;
    var longer := path + [hop];
    assert Targets(longer) == Targets(path) + [hop.target];
    assert Segments(longer) == Segments(path) + [hop.AsSegment()];
  }

  lemma WalkedAppend<E(!new)>(initial: Hop, resolve: ResolverFn<E>, path: seq<Hop>, hop: Hop)
    requires Walked(initial, resolve, path) && hop.Exact()
    requires LeadsTo(initial, resolve, path, hop) && hop.target !in Targets(path)
    ensures Walked(initial, resolve, path + [hop])
  {
    hide ParseRowSegment;
    var longer := path + [hop];
    assert AllExact(longer);
    forall i | 0 <= i < |longer|
      ensures LeadsTo(initial, resolve, longer[..i], longer[i])
    {
      if i < |path| {
        assert longer[..i] == path[..i];
      } else {
        assert longer[..i] == path;
      }
    }
    hide LeadsTo;
    forall i, j | 0 <= i < j < |longer|
      ensures longer[i].target != longer[j].target
    {
      if j == |path| {
        assert longer[i].target == Targets(path)[i];
      }
    }
  }

  lemma RuleOutChains<E(!new)>(
      initial: Hop, resolve: ResolverFn<E>, limits: ChainLimits, path: seq<Hop>, error: ChainError<E>)
    requires Walked(initial, resolve, path) && FailsAfter(initial, resolve, limits, path, error)
    ensures forall chain :: IsCompleteChain(initial, resolve, chain) ==> !WithinLimits(chain, limits)
  {
    forall chain | IsCompleteChain(initial, resolve, chain)
      ensures !WithinLimits(chain, limits)
    {
      FailureRulesOutChains(initial, resolve, limits, path, error, chain);
    }
  }
}
