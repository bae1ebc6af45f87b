/**
  src/segment.c as a system of single loads and stores under sequential consistency: any number of
  writers claim places by compare-and-swap and fill them, while any number of readers look on
  without a lock. Claims stop with the first claim of an end marker.
*/
module SegmentSteps {
  import opened Prot
  import opened SegmentLayout

  /**
    A claimed frame and how many of its stores are done: the bytes of the payload, then cleared
    flags, version, padding, checksum, size, the flags that publish the frame, and its index entry.
  */
  datatype Claim = Claim(owner: nat, at: nat, payload: Payload, done: nat) {
    function Total(): nat {
      |payload| + 7
    }

    predicate Complete() {
      done == Total()
    }

    predicate Published() {
      |payload| + 5 < done
    }
  }

  datatype Writer =
    | Idle
    | Probing(payload: Payload, data: nat)    // has loaded the write offset, to look for an end marker
    | Ready(payload: Payload)                 // found none
    | Loaded(payload: Payload, curr: Position)
    | Storing(claim: nat)
    | Ending(done: nat)                       // stores of the end marker

  datatype Outcome = Got(at: nat, length: int) | Nothing | Invalid

  datatype Reader =
    | Starting(relative: nat)
    | HasBoundary(relative: nat, boundary: nat)
    | InRange(relative: nat, boundary: nat)
    | HasEntry(relative: nat, at: nat)
    | SawReady(relative: nat, at: nat)
    | Returned(relative: nat, outcome: Outcome)

  datatype State = State(buffer: seq<byte>, index: seq<nat>, w: Position, claims: seq<Claim>, eos: bool,
                         writers: map<nat, Writer>, readers: map<nat, Reader>)

  datatype Event =
    | Probe(t: nat, payload: Payload)
    | ReadMark(t: nat)
    | Load(t: nat)
    | TryClaim(t: nat)
    | Store(t: nat)
    | Begin(r: nat, relative: nat)
    | Read(r: nat)

  function Payloads(claims: seq<Claim>): (frames: seq<Payload>)
    ensures |frames| == |claims|
    ensures forall i | 0 <= i < |claims| :: frames[i] == claims[i].payload
  {
    seq(|claims|, i requires 0 <= i < |claims| => claims[i].payload)
  }

  function WriterOf(s: State, t: nat): Writer {
    if t in s.writers then s.writers[t] else Idle
  }

  predicate HasRoom(size: nat, data: nat, n: nat) {
    data <= size && HEADER_SIZE + (HEADER_SIZE + n) <= size - data
  }

  // The stores of a frame and of an end marker, one at a time.

  function FrameStore(buffer: seq<byte>, c: Claim): (after: seq<byte>)
    requires c.at + FrameLength(c.payload) <= |buffer| < WORD && !c.Complete()
    ensures |after| == |buffer|
  {
    var n := |c.payload|;
    if c.done < n then Stored(buffer, c.at + HEADER_SIZE + c.done, [c.payload[c.done]])
    else if c.done == n then Stored(buffer, c.at, Le16(FLAGS_EMPTY))
    else if c.done == n + 1 then Stored(buffer, c.at + 2, [0])
    else if c.done == n + 2 then Stored(buffer, c.at + 3, [0])
    else if c.done == n + 3 then Stored(buffer, c.at + 8, Le32(Crc(c.payload)))
    else if c.done == n + 4 then Stored(buffer, c.at + 4, Le32(FrameLength(c.payload)))
    else if c.done == n + 5 then Stored(buffer, c.at, Le16(FLAGS_READY))
    else buffer
  }

  function EosStore(buffer: seq<byte>, at: nat, done: nat): (after: seq<byte>)
    requires at + HEADER_SIZE <= |buffer|
    ensures |after| == |buffer|
  {
    if done == 0 then Stored(buffer, at, Le16(FLAGS_EMPTY))
    else if done == 1 then Stored(buffer, at + 2, [0])
    else if done == 2 then Stored(buffer, at + 3, [0])
    else if done == 3 then Stored(buffer, at + 4, Le32(HEADER_SIZE))
    else Stored(buffer, at, Le16(FLAGS_EOS))
  }

  /** All stores of a frame from stage `done` on. */
  function StoresFrom(buffer: seq<byte>, c: Claim): (after: seq<byte>)
    requires c.at + FrameLength(c.payload) <= |buffer| < WORD && c.done <= c.Total()
    ensures |after| == |buffer|
    decreases c.Total() - c.done
  {
    if c.Complete() then buffer else StoresFrom(FrameStore(buffer, c), c.(done := c.done + 1))
  }

  lemma StoresStep(buffer: seq<byte>, c: Claim)
    requires c.at + FrameLength(c.payload) <= |buffer| < WORD && c.done < c.Total()
    ensures StoresFrom(buffer, c) == StoresFrom(FrameStore(buffer, c), c.(done := c.done + 1))
  {
    hide FrameStore;
  }

  lemma StoredOn(b: seq<byte>, at: nat, x: seq<byte>, y: seq<byte>)
    requires at + |x| + |y| <= |b|
    ensures Stored(Stored(b, at, x), at + |x|, y) == Stored(b, at, x + y)
  {
    assert Stored(b, at, x)[..at + |x|] == b[..at] + x;
    assert Stored(b, at, x)[at + |x| + |y|..] == b[at + |x| + |y|..];
  }

  lemma StoredNothing(b: seq<byte>, at: nat)
    requires at <= |b|
    ensures Stored(b, at, []) == b
  {
  }

  /** The stores of the payload, byte by byte, are one store of what is left of it. */
  lemma {:induction false} PayloadStores(buffer: seq<byte>, c: Claim)
    requires c.at + FrameLength(c.payload) <= |buffer| < WORD && c.done <= |c.payload|
    ensures
      var stored := Stored(buffer, c.at + HEADER_SIZE + c.done, c.payload[c.done..]);
      StoresFrom(buffer, c) == StoresFrom(stored, c.(done := |c.payload|))
    decreases |c.payload| - c.done
  {
    hide Le16, Le32, Stored, StoresFrom;
    var n, from := |c.payload|, c.at + HEADER_SIZE + c.done;
    if c.done == n {
      StoredNothing(buffer, from);
      assert c.payload[n..] == [];
    } else {
      StoresStep(buffer, c);
      PayloadStores(FrameStore(buffer, c), c.(done := c.done + 1));
      StoredOn(buffer, from, [c.payload[c.done]], c.payload[c.done + 1..]);
      assert c.payload[c.done..] == [c.payload[c.done]] + c.payload[c.done + 1..];
    }
  }

  /** The first three stores of the header clear the flags, and set version and padding. */
  lemma ClearingStores(buffer: seq<byte>, c: Claim)
    requires c.at + FrameLength(c.payload) <= |buffer| < WORD && c.done == |c.payload|
    ensures
      var cleared := Stored(buffer, c.at, Le16(FLAGS_EMPTY) + [0, 0]);
      StoresFrom(buffer, c) == StoresFrom(cleared, c.(done := |c.payload| + 3))
  {
    hide Le16, Le32, Stored, StoresFrom;
    var n, at := |c.payload|, c.at;
    var b1 := Stored(buffer, at, Le16(FLAGS_EMPTY));
    var b2 := Stored(b1, at + 2, [0]);
    StoresStep(buffer, c);
    StoresStep(b1, c.(done := n + 1));
    StoresStep(b2, c.(done := n + 2));
    StoredOn(buffer, at, Le16(FLAGS_EMPTY), [0]);
    StoredOn(buffer, at, Le16(FLAGS_EMPTY) + [0], [0]);
    assert Le16(FLAGS_EMPTY) + [0] + [0] == Le16(FLAGS_EMPTY) + [0, 0];
  }

  /** The last stores set the checksum and the size, and publish the frame. */
  lemma PublishingStores(b3: seq<byte>, c: Claim)
    requires c.at + FrameLength(c.payload) <= |b3| < WORD && c.done == |c.payload| + 3
    ensures
      var b4 := Stored(b3, c.at + 8, Le32(Crc(c.payload)));
      var b5 := Stored(b4, c.at + 4, Le32(FrameLength(c.payload)));
      StoresFrom(b3, c) == Stored(b5, c.at, Le16(FLAGS_READY))
  {
    hide Le16, Le32, Stored, StoresFrom;
    var n := |c.payload|;
    var b4 := Stored(b3, c.at + 8, Le32(Crc(c.payload)));
    var b5 := Stored(b4, c.at + 4, Le32(FrameLength(c.payload)));
    var b6 := Stored(b5, c.at, Le16(FLAGS_READY));
    StoresStep(b3, c);
    StoresStep(b4, c.(done := n + 4));
    StoresStep(b5, c.(done := n + 5));
    StoresStep(b6, c.(done := n + 6));
    StoresEnd(b6, c.(done := n + 7));
  }

  /** The stores of the header, one by one, are those of the sequential writer. */
  lemma HeaderStores(buffer: seq<byte>, c: Claim)
    requires c.at + FrameLength(c.payload) <= |buffer| < WORD && c.done == |c.payload|
    ensures StoresFrom(buffer, c) == PutHeader(buffer, c.at, FLAGS_READY, FrameLength(c.payload), Crc(c.payload))
  {
    hide Le16, Le32, Stored, StoresFrom;
    ClearingStores(buffer, c);
    PublishingStores(Stored(buffer, c.at, Le16(FLAGS_EMPTY) + [0, 0]), c.(done := |c.payload| + 3));
  }

  lemma StoresEnd(buffer: seq<byte>, c: Claim)
    requires c.at + FrameLength(c.payload) <= |buffer| < WORD && c.Complete()
    ensures StoresFrom(buffer, c) == buffer
  {
  }

  /** Run to the end, the single stores of a claim leave what the sequential writer leaves. */
  lemma StoresArePutFrame(buffer: seq<byte>, c: Claim)
    requires c.at + FrameLength(c.payload) <= |buffer| < WORD && c.done == 0
    ensures StoresFrom(buffer, c) == PutFrame(buffer, c.at, c.payload)
  {
    hide StoresFrom, PutHeader, Stored;
    PayloadStores(buffer, c);
    assert c.payload[0..] == c.payload;
    HeaderStores(Stored(buffer, c.at + HEADER_SIZE, c.payload), c.(done := |c.payload|));
  }

  // The invariant.

  ghost predicate HeaderProgress(buffer: seq<byte>, c: Claim)
    requires c.at + FrameLength(c.payload) <= |buffer| < WORD
  {
    var n := |c.payload|;
    && (n < c.done && !c.Published() ==> buffer[c.at..c.at + 2] == [0, 0])
    && (n + 1 < c.done ==> buffer[c.at + 2..c.at + 3] == [0])
    && (n + 2 < c.done ==> buffer[c.at + 3..c.at + 4] == [0])
    && (n + 3 < c.done ==> buffer[c.at + 8..c.at + 12] == Le32(Crc(c.payload)))
    && (n + 4 < c.done ==> buffer[c.at + 4..c.at + 8] == Le32(FrameLength(c.payload)))
    && (c.Published() ==> buffer[c.at..c.at + 2] == Le16(FLAGS_READY))
  }

  /** How far the stores of a claim have come. */
  ghost predicate Progress(buffer: seq<byte>, index: seq<nat>, i: nat, c: Claim) {
    var n := |c.payload|;
    && c.done <= c.Total() && c.at + FrameLength(c.payload) <= |buffer| < WORD && i < |index|
    && buffer[c.at + HEADER_SIZE..c.at + HEADER_SIZE + (if c.done < n then c.done else n)]
       == c.payload[..if c.done < n then c.done else n]
    && HeaderProgress(buffer, c)
    && index[i] == (if c.Complete() then c.at else 0)
    && (c.at == 0 && !c.Published() ==> !IsHeader(buffer, 0))
  }

  ghost predicate Core(s: State) {
    var frames := Payloads(s.claims);
    && |s.buffer| < WORD && End(frames) + HEADER_SIZE <= |s.buffer| && |s.index| == Capacity(|s.buffer|)
    && s.w == Position(|s.claims|, End(frames) + if s.eos then HEADER_SIZE else 0)
    && |s.claims| <= |s.index|
    && (forall i {:trigger Progress(s.buffer, s.index, i, s.claims[i])} | 0 <= i < |s.claims| ::
          s.claims[i].at == Offset(frames, i) && Progress(s.buffer, s.index, i, s.claims[i]))
    && (forall i | |s.claims| <= i < |s.index| :: s.index[i] == 0)
    && (s.claims == [] && !s.eos ==> !IsHeader(s.buffer, 0))
  }

  ghost predicate WriterFits(claims: seq<Claim>, eos: bool, t: nat, x: Writer) {
    && (x.Storing? ==> x.claim < |claims| && claims[x.claim].owner == t && !claims[x.claim].Complete())
    && (x.Ending? ==> eos)
  }

  ghost predicate ReaderFits(claims: seq<Claim>, x: Reader) {
    match x
    case Starting(_) => true
    case HasBoundary(_, _) => true
    case InRange(i, _) => i < |claims|
    case HasEntry(i, at) => i < |claims| && at == claims[i].at && (i > 0 ==> claims[i].Complete())
    case SawReady(i, at) =>
      i < |claims| && at == claims[i].at && claims[i].Published() && (i > 0 ==> claims[i].Complete())
    case Returned(i, outcome) =>
      && (outcome.Invalid? ==> i == 0 && |claims| > 0)
      && (outcome.Got? ==>
            && i < |claims| && claims[i].Published() && (i > 0 ==> claims[i].Complete())
            && outcome.at == claims[i].at + HEADER_SIZE && outcome.length == |claims[i].payload|)
  }

  /** No claim is abandoned: until its stores are done, its owner is at them. */
  ghost predicate Attended(s: State) {
    forall i | 0 <= i < |s.claims| && !s.claims[i].Complete() ::
      s.claims[i].owner in s.writers && s.writers[s.claims[i].owner] == Storing(i)
  }

  ghost predicate Inv(s: State) {
    && Core(s)
    && Attended(s)
    && (forall t | t in s.writers :: WriterFits(s.claims, s.eos, t, s.writers[t]))
    && (forall r | r in s.readers :: ReaderFits(s.claims, s.readers[r]))
  }

  // The steps.

  /**
    A swap that succeeds claims a frame, for which the index must have a slot, or the end marker. No claim
    follows that of an end marker. A swap that fails may come at any time.
  */
  predicate MayClaim(s: State, x: Writer)
    requires x.Loaded?
  {
    s.w == x.curr ==> !s.eos && (HasRoom(|s.buffer|, x.curr.data, |x.payload|) ==> s.w.index < |s.index|)
  }

  predicate Enabled(s: State, e: Event) {
    match e
    case Probe(t, _) => WriterOf(s, t).Idle?
    case ReadMark(t) => WriterOf(s, t).Probing?
    case Load(t) => WriterOf(s, t).Ready?
    case TryClaim(t) => WriterOf(s, t).Loaded? && MayClaim(s, WriterOf(s, t))
    case Store(t) => WriterOf(s, t).Storing? || WriterOf(s, t).Ending?
    case Begin(r, _) => r !in s.readers || s.readers[r].Returned?
    case Read(r) => r in s.readers
  }

  lemma EntryInside(s: State, i: nat)
    requires Core(s) && i < |s.claims|
    ensures s.claims[i].at + FrameLength(s.claims[i].payload) <= |s.buffer| < WORD
  {
    assert Progress(s.buffer, s.index, i, s.claims[i]);
  }

  /** A load of the flags, or of the size, of a header in the buffer; every load of a run is of one (`EntryInside`). */
  function LoadFlags(b: seq<byte>, at: nat): nat {
    if at + HEADER_SIZE <= |b| then Flags(b, at) else FLAGS_EMPTY
  }

  function LoadSize(b: seq<byte>, at: nat): nat {
    if at + HEADER_SIZE <= |b| then FrameSize(b, at) else 0
  }

  function LoadEntry(index: seq<nat>, i: nat): nat {
    if i < |index| then index[i] else 0
  }

  /** The next load of a reader. */
  function AfterLoad(s: State, x: Reader): Reader {
    match x
    case Starting(i) => HasBoundary(i, s.w.data)
    case HasBoundary(i, boundary) => if i >= s.w.index then Returned(i, Nothing) else InRange(i, boundary)
    case InRange(i, boundary) =>
      var at := LoadEntry(s.index, i);
      if (i != 0 && at == 0) || at >= boundary then Returned(i, Nothing) else HasEntry(i, at)
    case HasEntry(i, at) => if LoadFlags(s.buffer, at) == FLAGS_READY then SawReady(i, at) else Returned(i, Invalid)
    case SawReady(i, at) => Returned(i, Got(at + HEADER_SIZE, LoadSize(s.buffer, at) - HEADER_SIZE))
    case Returned(_, _) => x
  }

  /** The compare-and-swap: of a frame, when it leaves room for an end marker; otherwise of the end marker. */
  function AfterClaim(s: State, t: nat): State
    requires t in s.writers && s.writers[t].Loaded?
  {
    var x := s.writers[t];
    if s.w != x.curr then s.(writers := s.writers[t := Idle])
    else if HasRoom(|s.buffer|, x.curr.data, |x.payload|) then
      s.(w := Position(x.curr.index + 1, x.curr.data + FrameLength(x.payload)),
         claims := s.claims + [Claim(t, x.curr.data, x.payload, 0)],
         writers := s.writers[t := Storing(|s.claims|)])
    else
      s.(w := Position(x.curr.index, x.curr.data + HEADER_SIZE), eos := true, writers := s.writers[t := Ending(0)])
  }

  /** A store of a claim goes inside the buffer and the index; every store of a run does (`EntryInside`). */
  predicate StoreInside(s: State, i: nat) {
    && i < |s.claims| && i < |s.index| && !s.claims[i].Complete()
    && s.claims[i].at + FrameLength(s.claims[i].payload) <= |s.buffer| < WORD
  }

  function AfterFrameStore(s: State, t: nat, i: nat): State
    requires StoreInside(s, i)
  {
    var c := s.claims[i];
    var next := c.(done := c.done + 1);
    s.(buffer := FrameStore(s.buffer, c),
       index := if next.Complete() then s.index[i := c.at] else s.index,
       claims := s.claims[i := next],
       writers := s.writers[t := if next.Complete() then Idle else Storing(i)])
  }

  function AfterEosStore(s: State, t: nat, k: nat): State
    requires End(Payloads(s.claims)) + HEADER_SIZE <= |s.buffer|
  {
    s.(buffer := EosStore(s.buffer, End(Payloads(s.claims)), k),
       writers := s.writers[t := if k >= 4 then Idle else Ending(k + 1)])
  }

  function AfterStore(s: State, t: nat): State
    requires t in s.writers
  {
    match s.writers[t]
    case Storing(i) => if StoreInside(s, i) then AfterFrameStore(s, t, i) else s
    case Ending(k) => if End(Payloads(s.claims)) + HEADER_SIZE <= |s.buffer| then AfterEosStore(s, t, k) else s
    case _ => s
  }

  function Next(s: State, e: Event): State
    requires Enabled(s, e)
  {
    match e
    case Probe(t, p) => s.(writers := s.writers[t := Probing(p, s.w.data)])
    case ReadMark(t) =>
      var x := s.writers[t];
      var marked := x.data >= HEADER_SIZE && LoadFlags(s.buffer, x.data - HEADER_SIZE) == FLAGS_EOS;
      s.(writers := s.writers[t := if marked then Idle else Ready(x.payload)])
    case Load(t) => s.(writers := s.writers[t := Loaded(s.writers[t].payload, s.w)])
    case TryClaim(t) => AfterClaim(s, t)
    case Store(t) => AfterStore(s, t)
    case Begin(r, i) => s.(readers := s.readers[r := Starting(i)])
    case Read(r) => s.(readers := s.readers[r := AfterLoad(s, s.readers[r])])
  }

  // Every step keeps the invariant.

  lemma SubSlices(a: seq<byte>, b: seq<byte>, lo: nat, hi: nat, c: nat, d: nat)
    requires lo <= c <= d <= hi <= |a| == |b| && a[lo..hi] == b[lo..hi]
    ensures a[c..d] == b[c..d]
  {
    SliceOfSlice(a, lo, hi, c - lo, d - lo);
    SliceOfSlice(b, lo, hi, c - lo, d - lo);
  }

  lemma SameFlags(a: seq<byte>, b: seq<byte>)
    requires HEADER_SIZE <= |a| && HEADER_SIZE <= |b| && a[0..2] == b[0..2]
    ensures IsHeader(a, 0) == IsHeader(b, 0)
  {
    assert a[0] == a[0..2][0] && a[1] == a[0..2][1] && b[0] == b[0..2][0] && b[1] == b[0..2][1];
  }

  /** A claim whose region and index entry are untouched is as far as it was. */
  lemma ProgressKept(buffer: seq<byte>, after: seq<byte>, index: seq<nat>, index': seq<nat>, i: nat, c: Claim)
    requires Progress(buffer, index, i, c) && |after| == |buffer| && |index'| == |index| && index'[i] == index[i]
    requires after[c.at..c.at + FrameLength(c.payload)] == buffer[c.at..c.at + FrameLength(c.payload)]
    ensures Progress(after, index', i, c)
  {
    hide Le16, Le32, IsHeader;
    var n, end := |c.payload|, c.at + FrameLength(c.payload);
    SubSlices(after, buffer, c.at, end, c.at + HEADER_SIZE, c.at + HEADER_SIZE + if c.done < n then c.done else n);
    SubSlices(after, buffer, c.at, end, c.at + 2, c.at + 3);
    SubSlices(after, buffer, c.at, end, c.at + 3, c.at + 4);
    SubSlices(after, buffer, c.at, end, c.at + 8, c.at + 12);
    SubSlices(after, buffer, c.at, end, c.at + 4, c.at + 8);
    SubSlices(after, buffer, c.at, end, c.at, c.at + 2);
    if c.at == 0 {
      SameFlags(after, buffer);
    }
  }

  /** The range of the next store of a claim. */
  function StoreFrom(c: Claim): nat {
    var n := |c.payload|;
    c.at + if c.done < n then HEADER_SIZE + c.done else if c.done == n + 1 then 2 else if c.done == n + 2 then 3
           else if c.done == n + 3 then 8 else if c.done == n + 4 then 4 else 0
  }

  function StoreTo(c: Claim): nat {
    var n := |c.payload|;
    StoreFrom(c) + if c.done < n || c.done == n + 1 || c.done == n + 2 then 1
                   else if c.done == n || c.done == n + 5 then 2 else if c.done < n + 5 then 4 else 0
  }

  lemma StoreElsewhere(buffer: seq<byte>, c: Claim, lo: nat, hi: nat)
    requires c.at + FrameLength(c.payload) <= |buffer| < WORD && !c.Complete() && c.done <= c.Total()
    requires lo <= hi <= |buffer| && (hi <= StoreFrom(c) || StoreTo(c) <= lo)
    ensures FrameStore(buffer, c)[lo..hi] == buffer[lo..hi]
  {
    hide Stored;
    var n := |c.payload|;
    if c.done < n {
      StoredElsewhere(buffer, c.at + HEADER_SIZE + c.done, [c.payload[c.done]], lo, hi);
    } else if c.done == n {
      StoredElsewhere(buffer, c.at, Le16(FLAGS_EMPTY), lo, hi);
    } else if c.done == n + 1 {
      StoredElsewhere(buffer, c.at + 2, [0], lo, hi);
    } else if c.done == n + 2 {
      StoredElsewhere(buffer, c.at + 3, [0], lo, hi);
    } else if c.done == n + 3 {
      StoredElsewhere(buffer, c.at + 8, Le32(Crc(c.payload)), lo, hi);
    } else if c.done == n + 4 {
      StoredElsewhere(buffer, c.at + 4, Le32(FrameLength(c.payload)), lo, hi);
    } else if c.done == n + 5 {
      StoredElsewhere(buffer, c.at, Le16(FLAGS_READY), lo, hi);
    }
  }

  lemma ClearedFlags(buffer: seq<byte>)
    requires HEADER_SIZE <= |buffer|
    ensures !IsHeader(Stored(buffer, 0, Le16(FLAGS_EMPTY)), 0)
  {
    StoredThere(buffer, 0, Le16(FLAGS_EMPTY));
    Read16(Stored(buffer, 0, Le16(FLAGS_EMPTY)), 0, FLAGS_EMPTY);
  }

  /** The next store takes a claim one stage further. */
  lemma ProgressStep(buffer: seq<byte>, index: seq<nat>, i: nat, c: Claim)
    requires Progress(buffer, index, i, c) && !c.Complete()
    ensures
      var next := c.(done := c.done + 1);
      Progress(FrameStore(buffer, c), if next.Complete() then index[i := c.at] else index, i, next)
  {
    hide HeaderProgress, IsHeader, FrameStore;
    StepPayload(buffer, c);
    StepHeader(buffer, c);
    if c.at == 0 && c.done < |c.payload| + 5 {
      StepFlags(buffer, c);
    }
  }

  lemma StepPayload(buffer: seq<byte>, c: Claim)
    requires c.at + FrameLength(c.payload) <= |buffer| < WORD && !c.Complete() && c.done <= c.Total()
    requires
      var m := if c.done < |c.payload| then c.done else |c.payload|;
      buffer[c.at + HEADER_SIZE..c.at + HEADER_SIZE + m] == c.payload[..m]
    ensures
      var m := if c.done + 1 < |c.payload| then c.done + 1 else |c.payload|;
      FrameStore(buffer, c)[c.at + HEADER_SIZE..c.at + HEADER_SIZE + m] == c.payload[..m]
  {
    hide Stored, Le16, Le32;
    var n, from := |c.payload|, c.at + HEADER_SIZE;
    var m := if c.done < n then c.done else n;
    StoreElsewhere(buffer, c, from, from + m);
    if c.done < n {
      StoredThere(buffer, from + c.done, [c.payload[c.done]]);
      var after := FrameStore(buffer, c);
      assert after[from..from + m + 1] == after[from..from + m] + after[from + m..from + m + 1];
      assert c.payload[..m + 1] == c.payload[..m] + [c.payload[m]];
    }
  }

  lemma StepHeader(buffer: seq<byte>, c: Claim)
    requires c.at + FrameLength(c.payload) <= |buffer| < WORD && !c.Complete() && c.done <= c.Total()
    requires HeaderProgress(buffer, c)
    ensures HeaderProgress(FrameStore(buffer, c), c.(done := c.done + 1))
  {
    hide Stored, Le16, Le32, FrameStore;
    var n, at := |c.payload|, c.at;
    StepField(buffer, c);
    if n < c.done < n + 5 {
      StoreElsewhere(buffer, c, at, at + 2);
    }
    if n + 1 < c.done {
      StoreElsewhere(buffer, c, at + 2, at + 3);
    }
    if n + 2 < c.done {
      StoreElsewhere(buffer, c, at + 3, at + 4);
    }
    if n + 3 < c.done {
      StoreElsewhere(buffer, c, at + 8, at + 12);
    }
    if n + 4 < c.done {
      StoreElsewhere(buffer, c, at + 4, at + 8);
    }
    if c.Published() {
      StoreElsewhere(buffer, c, at, at + 2);
    }
  }

  lemma EmptyFlags()
    ensures Le16(FLAGS_EMPTY) == [0, 0]
  {
  }

  lemma StepField(buffer: seq<byte>, c: Claim)
    requires c.at + FrameLength(c.payload) <= |buffer| < WORD && !c.Complete()
    ensures
      var n, after := |c.payload|, FrameStore(buffer, c);
      && (c.done == n ==> after[c.at..c.at + 2] == [0, 0])
      && (c.done == n + 1 ==> after[c.at + 2..c.at + 3] == [0])
      && (c.done == n + 2 ==> after[c.at + 3..c.at + 4] == [0])
      && (c.done == n + 3 ==> after[c.at + 8..c.at + 12] == Le32(Crc(c.payload)))
      && (c.done == n + 4 ==> after[c.at + 4..c.at + 8] == Le32(FrameLength(c.payload)))
      && (c.done == n + 5 ==> after[c.at..c.at + 2] == Le16(FLAGS_READY))
  {
    hide Stored, Le16, Le32;
    EmptyFlags();
    StoredThere(buffer, c.at, Le16(FLAGS_EMPTY));
    StoredThere(buffer, c.at + 2, [0]);
    StoredThere(buffer, c.at + 3, [0]);
    StoredThere(buffer, c.at + 8, Le32(Crc(c.payload)));
    StoredThere(buffer, c.at + 4, Le32(FrameLength(c.payload)));
    StoredThere(buffer, c.at, Le16(FLAGS_READY));
  }

  lemma StepFlags(buffer: seq<byte>, c: Claim)
    requires FrameLength(c.payload) <= |buffer| < WORD && c.at == 0 && c.done < |c.payload| + 5
    requires !IsHeader(buffer, 0)
    ensures !IsHeader(FrameStore(buffer, c), 0)
  {
    hide Stored, Le16, Le32, IsHeader;
    if c.done == |c.payload| {
      ClearedFlags(buffer);
    } else {
      StoreElsewhere(buffer, c, 0, 2);
      SameFlags(FrameStore(buffer, c), buffer);
    }
  }

  lemma ClaimRegions(s: State, i: nat)
    requires Core(s) && i < |s.claims|
    ensures s.claims[i].at + FrameLength(s.claims[i].payload) <= End(Payloads(s.claims)) <= |s.buffer|
    ensures forall j | 0 <= j < i :: s.claims[j].at + FrameLength(s.claims[j].payload) <= s.claims[i].at
    ensures s.claims[i].at == 0 <==> i == 0
  {
    hide Progress;
    var frames := Payloads(s.claims);
    assert Progress(s.buffer, s.index, i, s.claims[i]);
    OffsetsAscend(frames, i, |frames|);
    forall j | 0 <= j < i ensures s.claims[j].at + FrameLength(s.claims[j].payload) <= s.claims[i].at {
      assert Progress(s.buffer, s.index, j, s.claims[j]);
      OffsetsAscend(frames, j, i);
    }
    if i > 0 {
      OffsetsAscend(frames, 0, i);
    }
  }

  lemma StoreKeepsCore(s: State, t: nat, i: nat)
    requires Core(s) && i < |s.claims| && !s.claims[i].Complete()
    ensures StoreInside(s, i) && Core(AfterFrameStore(s, t, i))
  {
    hide Progress, FrameStore, IsHeader, Offset;
    var c := s.claims[i];
    assert Progress(s.buffer, s.index, i, c);
    ProgressBounds(s.buffer, s.index, i, c);
    var after := AfterFrameStore(s, t, i);
    ProgressStep(s.buffer, s.index, i, c);
    assert Payloads(after.claims) == Payloads(s.claims);
    forall j | 0 <= j < |s.claims| && j != i
      ensures Progress(after.buffer, after.index, j, s.claims[j]) && s.claims[j].at == Offset(Payloads(s.claims), j)
    {
      var d := s.claims[j];
      assert Progress(s.buffer, s.index, j, d);
      ProgressBounds(s.buffer, s.index, j, d);
      ClaimRegions(s, i);
      ClaimRegions(s, j);
      StoreElsewhere(s.buffer, c, d.at, d.at + FrameLength(d.payload));
      ProgressKept(s.buffer, after.buffer, s.index, after.index, j, d);
    }
  }

  lemma ProgressBounds(buffer: seq<byte>, index: seq<nat>, i: nat, c: Claim)
    requires Progress(buffer, index, i, c)
    ensures c.done <= c.Total() && c.at + FrameLength(c.payload) <= |buffer| < WORD && i < |index|
  {
  }

  lemma EosStoreKeepsCore(s: State, t: nat, k: nat)
    requires Core(s) && s.eos
    ensures End(Payloads(s.claims)) + HEADER_SIZE <= |s.buffer| && Core(AfterEosStore(s, t, k))
  {
    hide Progress, EosStore, IsHeader, Offset;
    var after := AfterEosStore(s, t, k);
    forall j | 0 <= j < |s.claims|
      ensures Progress(after.buffer, after.index, j, s.claims[j]) && s.claims[j].at == Offset(Payloads(s.claims), j)
    {
      var d := s.claims[j];
      assert Progress(s.buffer, s.index, j, d);
      ProgressBounds(s.buffer, s.index, j, d);
      ClaimRegions(s, j);
      EosElsewhere(s.buffer, End(Payloads(s.claims)), k, d.at, d.at + FrameLength(d.payload));
      ProgressKept(s.buffer, after.buffer, s.index, after.index, j, d);
    }
  }

  lemma EosElsewhere(buffer: seq<byte>, at: nat, k: nat, lo: nat, hi: nat)
    requires at + HEADER_SIZE <= |buffer| && lo <= hi <= at
    ensures EosStore(buffer, at, k)[lo..hi] == buffer[lo..hi]
  {
    hide Stored;
    StoredElsewhere(buffer, at, Le16(FLAGS_EMPTY), lo, hi);
    StoredElsewhere(buffer, at + 2, [0], lo, hi);
    StoredElsewhere(buffer, at + 3, [0], lo, hi);
    StoredElsewhere(buffer, at + 4, Le32(HEADER_SIZE), lo, hi);
    StoredElsewhere(buffer, at, Le16(FLAGS_EOS), lo, hi);
  }

  lemma ClaimKeepsCore(s: State, t: nat)
    requires Core(s) && t in s.writers && s.writers[t].Loaded? && MayClaim(s, s.writers[t])
    ensures Core(AfterClaim(s, t))
  {
    hide Progress, Offset, IsHeader;
    var x := s.writers[t];
    if s.w != x.curr {
      SameCore(s, AfterClaim(s, t));
    } else if HasRoom(|s.buffer|, x.curr.data, |x.payload|) {
      var c := Claim(t, x.curr.data, x.payload, 0);
      var after := AfterClaim(s, t);
      var frames := Payloads(s.claims);
      assert Payloads(after.claims) == frames + [x.payload];
      EndSnoc(frames, x.payload);
      forall j | 0 <= j <= |frames| ensures Offset(frames + [x.payload], j) == Offset(frames, j) {
        OffsetStays(frames, [x.payload], j);
      }
      FreshProgress(s, c);
      forall j | 0 <= j <= |s.claims|
        ensures Progress(s.buffer, s.index, j, after.claims[j])
        ensures after.claims[j].at == Offset(Payloads(after.claims), j)
      {
        assert j < |s.claims| ==> Progress(s.buffer, s.index, j, s.claims[j]);
      }
    } else {
      EndKeepsCore(s, AfterClaim(s, t));
    }
  }

  lemma EndKeepsCore(s: State, after: State)
    requires Core(s) && !s.eos && after.buffer == s.buffer && after.index == s.index && after.claims == s.claims
    requires after.eos && after.w == Position(s.w.index, s.w.data + HEADER_SIZE)
    ensures Core(after)
  {
    hide Progress, Offset, IsHeader;
    forall j | 0 <= j < |s.claims|
      ensures Progress(after.buffer, after.index, j, after.claims[j])
      ensures after.claims[j].at == Offset(Payloads(after.claims), j)
    {
      assert Progress(s.buffer, s.index, j, s.claims[j]);
    }
  }

  lemma FreshProgress(s: State, c: Claim)
    requires Core(s) && !s.eos && |s.claims| < |s.index| && c.done == 0
    requires c.at == End(Payloads(s.claims)) && c.at + FrameLength(c.payload) <= |s.buffer|
    ensures Progress(s.buffer, s.index, |s.claims|, c)
  {
    hide Offset, Le16, Le32, IsHeader;
    if |s.claims| > 0 {
      ClaimRegions(s, 0);
    }
  }

  /** Claims are only added, and only go forward. */
  ghost predicate Grows(claims: seq<Claim>, after: seq<Claim>) {
    && |claims| <= |after|
    && forall i | 0 <= i < |claims| ::
         && after[i].owner == claims[i].owner && after[i].at == claims[i].at && after[i].payload == claims[i].payload
         && claims[i].done <= after[i].done <= after[i].Total()
  }

  lemma ReaderStays(claims: seq<Claim>, after: seq<Claim>, x: Reader)
    requires Grows(claims, after) && ReaderFits(claims, x)
    ensures ReaderFits(after, x)
  {
  }

  /** A step of writer `t` leaves what the other writers rely on. */
  lemma OthersFit(s: State, after: State, t: nat)
    requires Inv(s) && Grows(s.claims, after.claims) && (s.eos ==> after.eos)
    requires forall i | 0 <= i < |s.claims| && s.claims[i].owner != t :: after.claims[i].done == s.claims[i].done
    requires forall u | u in after.writers && u != t :: u in s.writers && after.writers[u] == s.writers[u]
    ensures forall u | u in after.writers && u != t :: WriterFits(after.claims, after.eos, u, after.writers[u])
  {
    hide Core;
    forall u | u in after.writers && u != t ensures WriterFits(after.claims, after.eos, u, after.writers[u]) {
      assert WriterFits(s.claims, s.eos, u, s.writers[u]);
    }
  }

  /** Steps that only move a writer on: no claim and no store. */
  lemma MoveKeeps(s: State, t: nat, x: Writer)
    requires Inv(s) && !WriterOf(s, t).Storing? && !x.Storing? && !x.Ending?
    ensures Inv(s.(writers := s.writers[t := x]))
  {
    hide Core, ReaderFits;
    var after := s.(writers := s.writers[t := x]);
    SameCore(s, after);
  }

  lemma SameCore(s: State, after: State)
    requires Core(s) && after.buffer == s.buffer && after.index == s.index && after.w == s.w
    requires after.claims == s.claims && after.eos == s.eos
    ensures Core(after)
  {
  }

  lemma TryClaimKeeps(s: State, t: nat)
    requires Inv(s) && Enabled(s, TryClaim(t))
    ensures Inv(AfterClaim(s, t)) && Grows(s.claims, AfterClaim(s, t).claims)
  {
    hide Core, ReaderFits;
    ClaimKeepsCore(s, t);
    Bounded(s);
    var after := AfterClaim(s, t);
    OthersFit(s, after, t);
    forall r | r in s.readers ensures ReaderFits(after.claims, after.readers[r]) {
      ReaderStays(s.claims, after.claims, s.readers[r]);
    }
  }

  lemma Bounded(s: State)
    requires Core(s)
    ensures forall i | 0 <= i < |s.claims| :: s.claims[i].done <= s.claims[i].Total()
  {
    forall i | 0 <= i < |s.claims| ensures s.claims[i].done <= s.claims[i].Total() {
      ProgressBounds(s.buffer, s.index, i, s.claims[i]);
    }
  }

  lemma FrameStoreKeeps(s: State, t: nat, i: nat)
    requires Inv(s) && t in s.writers && s.writers[t] == Storing(i)
    ensures StoreInside(s, i) && Inv(AfterFrameStore(s, t, i)) && Grows(s.claims, AfterFrameStore(s, t, i).claims)
  {
    hide Core, ReaderFits, FrameStore;
    assert WriterFits(s.claims, s.eos, t, s.writers[t]);
    StoreKeepsCore(s, t, i);
    Bounded(s);
    var after := AfterFrameStore(s, t, i);
    Bounded(after);
    OthersFit(s, after, t);
    forall r | r in s.readers ensures ReaderFits(after.claims, after.readers[r]) {
      ReaderStays(s.claims, after.claims, s.readers[r]);
    }
  }

  lemma EosStoreKeeps(s: State, t: nat, k: nat)
    requires Inv(s) && t in s.writers && s.writers[t] == Ending(k)
    ensures End(Payloads(s.claims)) + HEADER_SIZE <= |s.buffer| && Inv(AfterEosStore(s, t, k))
  {
    hide Core, ReaderFits, EosStore;
    assert WriterFits(s.claims, s.eos, t, s.writers[t]);
    EosStoreKeepsCore(s, t, k);
  }

  /** What the index and the header of a claim say at any moment. */
  lemma ClaimReads(s: State, i: nat)
    requires Core(s) && i < |s.claims|
    ensures
      var c := s.claims[i];
      && c.at + HEADER_SIZE <= |s.buffer| && i < |s.index| && (c.at == 0 <==> i == 0)
      && s.index[i] == (if c.Complete() then c.at else 0)
      && (c.Published() ==> Flags(s.buffer, c.at) == FLAGS_READY && FrameSize(s.buffer, c.at) == FrameLength(c.payload))
      && (i == 0 && Flags(s.buffer, c.at) == FLAGS_READY ==> c.Published())
  {
    hide IsHeader, Flags, FrameSize, Le16, Le32, Offset;
    var c := s.claims[i];
    ClaimRegions(s, i);
    assert Progress(s.buffer, s.index, i, c);
    if c.Published() {
      Read16(s.buffer, c.at, FLAGS_READY);
      Read32(s.buffer, c.at + 4, FrameLength(c.payload));
      SizeField(s.buffer, c.at);
      FlagsField(s.buffer, c.at);
    } else if i == 0 && Flags(s.buffer, c.at) == FLAGS_READY {
      ReadyIsHeader(s.buffer);
    }
  }

  /** What each load of a reader finds. */
  lemma LoadFits(s: State, x: Reader)
    requires Core(s) && ReaderFits(s.claims, x)
    ensures ReaderFits(s.claims, AfterLoad(s, x))
  {
    hide Flags, FrameSize, Progress, Offset;
    if x.relative < |s.claims| {
      ClaimReads(s, x.relative);
    }
  }

  lemma ReadyIsHeader(buffer: seq<byte>)
    requires HEADER_SIZE <= |buffer| && Flags(buffer, 0) == FLAGS_READY
    ensures IsHeader(buffer, 0)
  {
  }

  lemma SizeField(buffer: seq<byte>, at: nat)
    requires at + HEADER_SIZE <= |buffer|
    ensures FrameSize(buffer, at) == U32(buffer, at + 4)
  {
  }

  lemma ReaderKeeps(s: State, r: nat, x: Reader)
    requires Inv(s) && ReaderFits(s.claims, x)
    ensures Inv(s.(readers := s.readers[r := x]))
  {
    hide Core, ReaderFits, WriterFits;
    SameCore(s, s.(readers := s.readers[r := x]));
  }

  /** Every step, of any writer or reader, keeps the invariant; claims are only added and only go forward. */
  lemma NextKeeps(s: State, e: Event)
    requires Inv(s) && Enabled(s, e)
    ensures Inv(Next(s, e)) && Grows(s.claims, Next(s, e).claims)
  {
    hide Core, Attended, WriterFits, ReaderFits, AfterClaim, AfterLoad, AfterFrameStore, AfterEosStore;
    Bounded(s);
    match e
    case Probe(t, p) => MoveKeeps(s, t, Probing(p, s.w.data));
    case ReadMark(t) => MoveKeeps(s, t, Next(s, e).writers[t]);
    case Load(t) => MoveKeeps(s, t, Next(s, e).writers[t]);
    case TryClaim(t) => TryClaimKeeps(s, t);
    case Store(t) =>
      match s.writers[t] {
        case Storing(i) => FrameStoreKeeps(s, t, i);
        case Ending(k) =>
          EosStoreKeeps(s, t, k);
          EosStoreClaims(s, t, k);
      }
    case Begin(r, i) =>
      StartFits(s.claims, i);
      ReaderKeeps(s, r, Starting(i));
    case Read(r) =>
      assert ReaderFits(s.claims, s.readers[r]);
      LoadFits(s, s.readers[r]);
      ReaderKeeps(s, r, AfterLoad(s, s.readers[r]));
  }

  lemma EosStoreClaims(s: State, t: nat, k: nat)
    requires End(Payloads(s.claims)) + HEADER_SIZE <= |s.buffer|
    ensures AfterEosStore(s, t, k).claims == s.claims
  {
  }

  lemma StartFits(claims: seq<Claim>, i: nat)
    ensures ReaderFits(claims, Starting(i))
  {
  }

  // Runs.

  /** The events of a run are enabled one after the other. */
  ghost predicate CanRun(s: State, run: seq<Event>)
    decreases |run|
  {
    run == [] || (Enabled(s, run[0]) && CanRun(Next(s, run[0]), run[1..]))
  }

  ghost function After(s: State, run: seq<Event>): State
    requires CanRun(s, run)
    decreases |run|
  {
    if run == [] then s else After(Next(s, run[0]), run[1..])
  }

  lemma GrowsOn(a: seq<Claim>, b: seq<Claim>, c: seq<Claim>)
    requires Grows(a, b) && Grows(b, c)
    ensures Grows(a, c)
  {
  }

  lemma GrowsSelf(s: State)
    requires Core(s)
    ensures Grows(s.claims, s.claims)
  {
    Bounded(s);
  }

  lemma {:induction false} RunKeeps(s: State, run: seq<Event>)
    requires Inv(s) && CanRun(s, run)
    ensures Inv(After(s, run)) && Grows(s.claims, After(s, run).claims)
    decreases |run|
  {
    hide Core, Attended, WriterFits, ReaderFits, Enabled, Next, Grows;
    if run == [] {
      GrowsSelf(s);
    } else {
      NextKeeps(s, run[0]);
      RunKeeps(Next(s, run[0]), run[1..]);
      GrowsOn(s.claims, Next(s, run[0]).claims, After(s, run).claims);
    }
  }

  function ClaimEnd(c: Claim): nat {
    c.at + FrameLength(c.payload)
  }

  /** Each index from 0 to the write index is claimed once, and the regions tile [0, w.data) without overlap. */
  ghost predicate Tiled(s: State) {
    var c := s.claims;
    && |c| == s.w.index
    && (forall i | 0 <= i < |c| :: ClaimEnd(c[i]) <= |s.buffer|)
    && (forall i, j | 0 <= i < j < |c| :: ClaimEnd(c[i]) <= c[j].at)
    && (|c| > 0 ==> c[0].at == 0)
    && (forall i | 0 <= i < |c| - 1 :: c[i + 1].at == ClaimEnd(c[i]))
    && (!s.eos ==> s.w.data == if |c| == 0 then 0 else ClaimEnd(c[|c| - 1]))
  }

  lemma ClaimNext(s: State, i: nat)
    requires Core(s) && i < |s.claims|
    ensures ClaimEnd(s.claims[i]) == Offset(Payloads(s.claims), i + 1)
    ensures s.claims[i].at == Offset(Payloads(s.claims), i)
  {
    hide Progress, IsHeader;
    assert Progress(s.buffer, s.index, i, s.claims[i]);
  }

  lemma TiledNow(s: State)
    requires Core(s)
    ensures Tiled(s)
  {
    hide Progress, IsHeader, Offset, ClaimEnd;
    forall i | 0 <= i < |s.claims|
      ensures ClaimEnd(s.claims[i]) <= |s.buffer|
      ensures forall j | 0 <= j < i :: ClaimEnd(s.claims[j]) <= s.claims[i].at
      ensures ClaimEnd(s.claims[i]) == Offset(Payloads(s.claims), i + 1)
      ensures s.claims[i].at == Offset(Payloads(s.claims), i)
    {
      Regions(s, i);
      ClaimNext(s, i);
    }
    FirstOffset(Payloads(s.claims));
  }

  lemma Regions(s: State, i: nat)
    requires Core(s) && i < |s.claims|
    ensures ClaimEnd(s.claims[i]) <= |s.buffer| && forall j | 0 <= j < i :: ClaimEnd(s.claims[j]) <= s.claims[i].at
  {
    hide Core;
    ClaimRegions(s, i);
  }

  /** Claims tile the buffer in every run; a writer that is storing owns the claim it stores, and so no other does. */
  lemma ClaimsTile(s: State, run: seq<Event>)
    requires Inv(s) && CanRun(s, run)
    ensures Tiled(After(s, run))
    ensures forall t, u | t in After(s, run).writers && u in After(s, run).writers && t != u ::
      After(s, run).writers[t].Storing? ==> After(s, run).writers[t] != After(s, run).writers[u]
  {
    hide Core, Grows, Tiled, Attended;
    RunKeeps(s, run);
    var e := After(s, run);
    TiledNow(e);
    forall t, u | t in e.writers && u in e.writers && t != u && e.writers[t].Storing?
      ensures e.writers[t] != e.writers[u]
    {
      assert WriterFits(e.claims, e.eos, t, e.writers[t]) && WriterFits(e.claims, e.eos, u, e.writers[u]);
    }
  }

  lemma PublishedPayload(s: State, i: nat)
    requires Core(s) && i < |s.claims| && s.claims[i].Published()
    ensures
      var c := s.claims[i];
      && c.at + FrameLength(c.payload) <= |s.buffer|
      && s.buffer[c.at + HEADER_SIZE..c.at + FrameLength(c.payload)] == c.payload
  {
    hide IsHeader, Le16, Le32, Offset;
    var c := s.claims[i];
    assert Progress(s.buffer, s.index, i, c);
    assert c.payload[..|c.payload|] == c.payload;
  }

  /**
    A read that returned a length handed out exactly the payload claimed at its offset, complete;
    and so it stays, whatever any writer does afterwards.
  */
  lemma NeverTorn(s: State, run: seq<Event>, r: nat)
    requires Inv(s) && CanRun(s, run) && r in s.readers
    requires s.readers[r].Returned? && s.readers[r].outcome.Got?
    ensures
      var (i, got, e) := (s.readers[r].relative, s.readers[r].outcome, After(s, run));
      && i < |s.claims| && got.length == |s.claims[i].payload| && got.at + got.length <= |e.buffer|
      && e.buffer[got.at..got.at + got.length] == s.claims[i].payload
  {
    hide Core;
    RunKeeps(s, run);
    assert ReaderFits(s.claims, s.readers[r]);
    var i := s.readers[r].relative;
    PublishedPayload(After(s, run), i);
  }

  /** What a lock-free reader needs to get frame `i`. */
  predicate Readable(s: State, i: nat) {
    i < |s.claims| && if i == 0 then s.claims[0].Published() else s.claims[i].Complete()
  }

  /** A reader of frame `i` that has so far seen nothing to stop it. */
  predicate OnWay(s: State, x: Reader, i: nat) {
    x.relative == i && i < |s.claims| &&
    match x
    case Starting(_) => true
    case HasBoundary(_, boundary) => s.claims[i].at < boundary
    case InRange(_, boundary) => s.claims[i].at < boundary
    case HasEntry(_, at) => at == s.claims[i].at
    case SawReady(_, at) => at == s.claims[i].at
    case Returned(_, outcome) => outcome == Got(s.claims[i].at + HEADER_SIZE, |s.claims[i].payload|)
  }

  /** Once readable, a frame stays readable with the same bytes. */
  lemma StaysReadable(s: State, run: seq<Event>, i: nat)
    requires Inv(s) && CanRun(s, run) && Readable(s, i)
    ensures Inv(After(s, run)) && Readable(After(s, run), i)
    ensures After(s, run).claims[i].payload == s.claims[i].payload && After(s, run).claims[i].at == s.claims[i].at
  {
    hide Core;
    RunKeeps(s, run);
  }

  /** No load stops a reader on its way to a readable frame. */
  lemma LoadStaysOnWay(s: State, x: Reader, i: nat)
    requires Inv(s) && Readable(s, i) && OnWay(s, x, i) && ReaderFits(s.claims, x)
    ensures OnWay(s, AfterLoad(s, x), i)
  {
    hide Flags, FrameSize, Progress, Offset;
    ClaimRegions(s, i);
    ClaimReads(s, i);
  }

  /** The loads that a reader has still to do, if none stops it. */
  function LoadsLeft(x: Reader): nat {
    match x
    case Starting(_) => 5
    case HasBoundary(_, _) => 4
    case InRange(_, _) => 3
    case HasEntry(_, _) => 2
    case SawReady(_, _) => 1
    case Returned(_, _) => 0
  }

  /** How many loads of reader `r` a run has. */
  function Loads(run: seq<Event>, r: nat): nat {
    if run == [] then 0 else (if run[0] == Read(r) then 1 else 0) + Loads(run[1..], r)
  }

  /** Reader `r` begins no other read in the run. */
  predicate OneRead(run: seq<Event>, r: nat) {
    forall k | 0 <= k < |run| :: !(run[k].Begin? && run[k].r == r)
  }

  lemma StepStaysOnWay(s: State, e: Event, r: nat, i: nat)
    requires Inv(s) && Enabled(s, e) && Readable(s, i) && !(e.Begin? && e.r == r)
    requires r in s.readers && OnWay(s, s.readers[r], i)
    ensures
      var next := Next(s, e);
      && r in next.readers && OnWay(next, next.readers[r], i) && Readable(next, i)
      && next.claims[i].at == s.claims[i].at && next.claims[i].payload == s.claims[i].payload
      && LoadsLeft(next.readers[r]) ==
           if e == Read(r) && LoadsLeft(s.readers[r]) > 0 then LoadsLeft(s.readers[r]) - 1 else LoadsLeft(s.readers[r])
  {
    hide Core, Attended, WriterFits, FrameStore, EosStore;
    NextKeeps(s, e);
    if e == Read(r) {
      assert ReaderFits(s.claims, s.readers[r]);
      LoadStaysOnWay(s, s.readers[r], i);
    }
  }

  /**
    In every run a read of a readable frame that has begun goes on to return it: nothing that writers or
    other readers do in between stops it, and five loads are enough.
  */
  lemma {:induction false} ReadableIsRead(s: State, run: seq<Event>, r: nat, i: nat)
    requires Inv(s) && CanRun(s, run) && OneRead(run, r) && Readable(s, i)
    requires r in s.readers && OnWay(s, s.readers[r], i)
    ensures
      var e := After(s, run);
      && r in e.readers && OnWay(e, e.readers[r], i)
      && e.claims[i].at == s.claims[i].at && e.claims[i].payload == s.claims[i].payload
      && (Loads(run, r) >= LoadsLeft(s.readers[r]) ==>
            e.readers[r] == Returned(i, Got(s.claims[i].at + HEADER_SIZE, |s.claims[i].payload|)))
    decreases |run|
  {
    hide Inv, Enabled, Next;
    if run != [] {
      NextKeeps(s, run[0]);
      StepStaysOnWay(s, run[0], r, i);
      assert forall k | 0 <= k < |run| - 1 :: run[1..][k] == run[k + 1];
      ReadableIsRead(Next(s, run[0]), run[1..], r, i);
    }
  }

  /** After a read has returned a length, every read of its offset that begins later returns the same. */
  lemma ReadAgain(s: State, meanwhile: seq<Event>, run: seq<Event>, first: nat, r: nat)
    requires Inv(s) && first in s.readers && s.readers[first].Returned? && s.readers[first].outcome.Got?
    requires CanRun(s, meanwhile) && CanRun(After(s, meanwhile), run) && OneRead(run, r) && Loads(run, r) >= 5
    requires
      var began := After(s, meanwhile);
      r in began.readers && began.readers[r] == Starting(s.readers[first].relative)
    ensures
      var e := After(After(s, meanwhile), run);
      r in e.readers && e.readers[r] == s.readers[first]
  {
    hide Core, Attended, WriterFits, CanRun, After, Loads;
    assert ReaderFits(s.claims, s.readers[first]);
    var i := s.readers[first].relative;
    StaysReadable(s, meanwhile, i);
    ReadableIsRead(After(s, meanwhile), run, r, i);
  }

  lemma FlagsField(buffer: seq<byte>, at: nat)
    requires at + HEADER_SIZE <= |buffer|
    ensures Flags(buffer, at) == U16(buffer, at)
  {
  }

  // One writer at a time, as under the mutex of src/mqlog.c; crash and recovery.

  /** A writer may begin only when no other is at work. */
  predicate SerialEnabled(s: State, e: Event) {
    Enabled(s, e) && (e.Probe? ==> forall t | t in s.writers :: s.writers[t].Idle?)
  }

  ghost predicate OneActive(writers: map<nat, Writer>) {
    forall t, u | t in writers && u in writers && !writers[t].Idle? && !writers[u].Idle? :: t == u
  }

  /** In a segment without frames, the size of the end marker is stored before its flags. */
  ghost predicate MarkerFits(s: State) {
    s.claims == [] && s.eos && |s.buffer| >= HEADER_SIZE ==>
      && (IsHeader(s.buffer, 0) ==> Flags(s.buffer, 0) == FLAGS_EOS && FrameSize(s.buffer, 0) == HEADER_SIZE)
      && forall t | t in s.writers && s.writers[t].Ending? && s.writers[t].done >= 4 ::
           FrameSize(s.buffer, 0) == HEADER_SIZE
  }

  ghost predicate Serial(s: State) {
    && Inv(s) && MarkerFits(s)
    && OneActive(s.writers)
    && (forall i | 0 <= i < |s.claims| - 1 :: s.claims[i].Complete())
  }

  lemma StoredHeader(b: seq<byte>, k: nat)
    requires HEADER_SIZE <= |b|
    ensures
      var after := EosStore(b, 0, k);
      && Flags(after, 0) == (if k == 0 then FLAGS_EMPTY else if k <= 3 then Flags(b, 0) else FLAGS_EOS)
      && FrameSize(after, 0) == if k == 3 then HEADER_SIZE else FrameSize(b, 0)
  {
    hide Le16, Le32, Stored;
    var after := EosStore(b, 0, k);
    if k == 0 || k > 3 {
      StoredThere(b, 0, Le16(if k == 0 then FLAGS_EMPTY else FLAGS_EOS));
      Read16(after, 0, if k == 0 then FLAGS_EMPTY else FLAGS_EOS);
    } else {
      EosStoreBytes(b, k, 0, 2);
    }
    if k == 3 {
      StoredThere(b, 4, Le32(HEADER_SIZE));
      Read32(after, 4, HEADER_SIZE);
    } else {
      EosStoreBytes(b, k, 4, 8);
    }
  }

  lemma StoredThere(b: seq<byte>, at: nat, x: seq<byte>)
    requires at + |x| <= |b|
    ensures Stored(b, at, x)[at..at + |x|] == x
  {
  }

  /** The stores of flags, version and padding leave the size, and those of the size leave the flags. */
  lemma EosStoreBytes(b: seq<byte>, k: nat, lo: nat, hi: nat)
    requires HEADER_SIZE <= |b| && ((lo == 0 && hi == 2 && 1 <= k <= 3) || (lo == 4 && hi == 8 && k != 3))
    ensures forall i | lo <= i < hi :: EosStore(b, 0, k)[i] == b[i]
  {
  }

  lemma MarkerKeeps(s: State, e: Event)
    requires Inv(s) && MarkerFits(s) && Enabled(s, e)
    ensures MarkerFits(Next(s, e))
  {
    hide Attended, ReaderFits, Flags, FrameSize, EosStore, FrameStore, Progress;
    var next := Next(s, e);
    if next.claims == [] && next.eos && e.Store? && s.writers[e.t].Ending? {
      StoredHeader(s.buffer, s.writers[e.t].done);
      MarkerAt(s);
    }
  }

  lemma MarkerAt(s: State)
    requires s.claims == []
    ensures End(Payloads(s.claims)) == 0
  {
  }

  lemma SerialKeeps(s: State, e: Event)
    requires Serial(s) && SerialEnabled(s, e)
    ensures Serial(Next(s, e)) && Grows(s.claims, Next(s, e).claims)
  {
    hide Core, WriterFits, ReaderFits, FrameStore, EosStore, MarkerFits;
    NextKeeps(s, e);
    MarkerKeeps(s, e);
    if e.TryClaim? {
      AloneAllComplete(s, e.t);
    }
  }

  /** When the one active writer is about to claim, no claim is open. */
  lemma AloneAllComplete(s: State, t: nat)
    requires Attended(s) && OneActive(s.writers) && t in s.writers && s.writers[t].Loaded?
    ensures forall i | 0 <= i < |s.claims| :: s.claims[i].Complete()
  {
  }

  ghost predicate CanRunSerially(s: State, run: seq<Event>)
    decreases |run|
  {
    run == [] || (SerialEnabled(s, run[0]) && CanRunSerially(Next(s, run[0]), run[1..]))
  }

  lemma {:induction false} SerialRunKeeps(s: State, run: seq<Event>)
    requires Serial(s) && CanRunSerially(s, run)
    ensures CanRun(s, run) && Serial(After(s, run)) && Grows(s.claims, After(s, run).claims)
    decreases |run|
  {
    hide Core, Attended, WriterFits, ReaderFits, Enabled, Next, Grows;
    if run == [] {
      GrowsSelf(s);
    } else {
      SerialKeeps(s, run[0]);
      SerialRunKeeps(Next(s, run[0]), run[1..]);
      GrowsOn(s.claims, Next(s, run[0]).claims, After(s, run).claims);
    }
  }

  /** The frames a crash leaves for recovery: those complete, and the first frame also without its index entry. */
  function Durable(claims: seq<Claim>): (frames: seq<Payload>)
    ensures |frames| <= |claims|
  {
    var n := |claims|;
    if n == 0 || claims[n - 1].Complete() || (n == 1 && claims[0].Published()) then Payloads(claims)
    else Payloads(claims)[..n - 1]
  }

  /** A claim whose header is published holds its frame complete. */
  lemma PublishedHolds(buffer: seq<byte>, index: seq<nat>, i: nat, c: Claim)
    requires Progress(buffer, index, i, c) && c.Published()
    ensures HoldsAt(buffer, c.at, c.payload)
  {
    hide Le16, Le32, IsHeader, Header;
    var at, end := c.at, c.at + FrameLength(c.payload);
    assert c.payload[..|c.payload|] == c.payload;
    assert buffer[at + 2..at + 4] == buffer[at + 2..at + 3] + buffer[at + 3..at + 4];
    HeaderParts(buffer, at, FLAGS_READY, FrameLength(c.payload), Crc(c.payload));
    assert buffer[at..end] == buffer[at..at + HEADER_SIZE] + buffer[at + HEADER_SIZE..end];
  }

  lemma DurableHolds(s: State)
    requires Serial(s)
    ensures Holds(s.buffer, Durable(s.claims))
    ensures End(Durable(s.claims)) <= End(Payloads(s.claims))
    ensures forall i | 0 <= i <= |Durable(s.claims)| :: Offset(Durable(s.claims), i) == Offset(Payloads(s.claims), i)
  {
    hide Progress, IsHeader, Offset, HoldsAt, ReaderFits, WriterFits;
    var d, frames := Durable(s.claims), Payloads(s.claims);
    var n := |d|;
    assert d + frames[n..] == frames;
    forall i | 0 <= i <= n ensures Offset(d, i) == Offset(frames, i) {
      OffsetStays(d, frames[n..], i);
    }
    forall i | 0 <= i < n ensures HoldsAt(s.buffer, Offset(d, i), d[i]) {
      PublishedHolds(s.buffer, s.index, i, s.claims[i]);
    }
    if n < |frames| {
      OffsetsAscend(frames, n, |frames|);
    }
  }

  /** A crash leaves an end marker alone, that no entry of the index leads to. */
  predicate Stub(s: State) {
    s.claims == [] && s.eos && HEADER_SIZE <= |s.buffer| && IsHeader(s.buffer, 0)
  }

  /**
    Whatever store the one writer was at, the files hold a whole number of frames: all that were
    complete, and at most the one in flight besides; or else an end marker alone.
  */
  lemma CrashLeaves(s: State)
    requires Serial(s)
    ensures OnFile(s.buffer, s.index, Durable(s.claims), Stub(s))
    ensures Durable(s.claims) <= Payloads(s.claims) && |Payloads(s.claims)| <= |Durable(s.claims)| + 1
    ensures forall i | 0 <= i < |s.claims| && s.claims[i].Complete() :: i < |Durable(s.claims)|
  {
    hide Holds, Offset, HoldsAt, ReaderFits, WriterFits, Flags, FrameSize, Progress;
    var d := Durable(s.claims);
    DurableHolds(s);
    forall i | 0 <= i < |s.claims|
      ensures s.index[i] == if s.claims[i].Complete() then Offset(Payloads(s.claims), i) else 0
    {
      EntryOf(s, i);
    }
    FirstOffset(d);
    if d == [] && s.claims != [] {
      Unpublished(s);
    }
  }

  lemma EntryOf(s: State, i: nat)
    requires Core(s) && i < |s.claims|
    ensures i < |s.index| && s.index[i] == if s.claims[i].Complete() then s.claims[i].at else 0
    ensures s.claims[i].at == Offset(Payloads(s.claims), i)
  {
    hide IsHeader;
    assert Progress(s.buffer, s.index, i, s.claims[i]);
  }

  lemma Unpublished(s: State)
    requires Core(s) && s.claims != [] && !s.claims[0].Published()
    ensures HEADER_SIZE <= |s.buffer| && !IsHeader(s.buffer, 0)
  {
    hide IsHeader;
    assert Progress(s.buffer, s.index, 0, s.claims[0]);
  }

  /** Recovery after a crash finds exactly what it left, when the index has a slot for more. */
  lemma CrashRecovers(s: State, r: Option<Position>)
    requires Serial(s) && |s.buffer| >= HEADER_SIZE && Recovers(s.buffer, s.index, r)
    ensures
      var found := Reopened(s.buffer, s.index, Durable(s.claims), Stub(s));
      r == if found.w.index < |s.index| then Some(found.w) else None
  {
    hide Recovers, Serial;
    CrashLeaves(s);
    RecoversFile(s.buffer, s.index, Durable(s.claims), Stub(s), r);
  }

  // Starting again.

  function Recovered(frames: seq<Payload>): (claims: seq<Claim>)
    ensures Payloads(claims) == frames
  {
    seq(|frames|, i requires 0 <= i < |frames| => Claim(0, Offset(frames, i), frames[i], |frames[i]| + 7))
  }

  /** A segment opened on files with whole frames; what lies beyond them is arbitrary. */
  function Start(buffer: seq<byte>, index: seq<nat>, frames: seq<Payload>): State {
    State(buffer, index, Position(|frames|, End(frames)), Recovered(frames), false, map[], map[])
  }

  lemma HeldProgress(buffer: seq<byte>, index: seq<nat>, i: nat, c: Claim)
    requires HoldsAt(buffer, c.at, c.payload) && i < |index| && index[i] == c.at && c.Complete()
    ensures Progress(buffer, index, i, c)
  {
    hide Le16, Le32, IsHeader, Header;
    var at, p := c.at, c.payload;
    var f := buffer[at..at + FrameLength(p)];
    assert f[0..12] == Header(FLAGS_READY, FrameLength(p), Crc(p)) && f[12..FrameLength(p)] == p && p[..|p|] == p;
    SliceOfSlice(buffer, at, at + FrameLength(p), 0, 12);
    SliceOfSlice(buffer, at, at + FrameLength(p), 12, FrameLength(p));
    HeaderSlices(buffer, at, FLAGS_READY, FrameLength(p), Crc(p));
  }

  lemma HeaderSlices(b: seq<byte>, at: nat, flags: nat, size: nat, crc: nat)
    requires at + HEADER_SIZE <= |b| && flags < 0x1_0000 && size < WORD && crc < WORD
    requires b[at..at + HEADER_SIZE] == Header(flags, size, crc)
    ensures b[at..at + 2] == Le16(flags) && b[at + 2..at + 3] == [0] && b[at + 3..at + 4] == [0]
    ensures b[at + 4..at + 8] == Le32(size) && b[at + 8..at + 12] == Le32(crc)
  {
    hide Le16, Le32;
    var h := Header(flags, size, crc);
    assert h[0..2] == Le16(flags) && h[2..3] == [0] && h[3..4] == [0] && h[4..8] == Le32(size) && h[8..12] == Le32(crc);
    SliceOfSlice(b, at, at + 12, 0, 2);
    SliceOfSlice(b, at, at + 12, 2, 3);
    SliceOfSlice(b, at, at + 12, 3, 4);
    SliceOfSlice(b, at, at + 12, 4, 8);
    SliceOfSlice(b, at, at + 12, 8, 12);
  }

  lemma StartKeeps(buffer: seq<byte>, index: seq<nat>, frames: seq<Payload>)
    requires OnFile(buffer, index, frames, false)
    ensures Serial(Start(buffer, index, frames))
  {
    hide Progress, HoldsAt, Offset, IsHeader;
    var s := Start(buffer, index, frames);
    forall i | 0 <= i < |frames| ensures Progress(buffer, index, i, s.claims[i]) {
      assert HoldsAt(buffer, Offset(frames, i), frames[i]);
      HeldProgress(buffer, index, i, s.claims[i]);
    }
  }

  /**
    A round can be followed by another one exactly when its index has a slot left, and it did not leave an
    end marker alone; recovery then finds the start of the next one.
  */
  lemma RoundGoesOn(s: State, run: seq<Event>, r: Option<Position>)
    requires Serial(s) && CanRunSerially(s, run) && CanRun(s, run)
    requires |After(s, run).buffer| >= HEADER_SIZE && Recovers(After(s, run).buffer, After(s, run).index, r)
    ensures
      var e := After(s, run);
      var next := Start(e.buffer, e.index, Durable(e.claims));
      && (r.Some? <==> Reopened(e.buffer, e.index, Durable(e.claims), Stub(e)).w.index < |e.index|)
      && (!Stub(e) && r.Some? ==> r == Some(next.w) && Serial(next))
      && (Stub(e) && r.Some? ==> r == Some(Position(1, HEADER_SIZE)) && Flags(e.buffer, 0) == FLAGS_EOS)
  {
    hide Inv, CanRunSerially, CanRun, After, Durable, Grows, Recovers, Holds, Indexed, Flags, FrameSize, Serial;
    SerialRunKeeps(s, run);
    var e := After(s, run);
    CrashRecovers(e, r);
    CrashLeaves(e);
    if !Stub(e) {
      StartKeeps(e.buffer, e.index, Durable(e.claims));
    }
  }

  /**
    Rounds of running, crashing after any store, and recovering; recovery must find a slot left, and
    something else than an end marker alone, after which the segment takes nothing more.
  */
  ghost predicate CanRounds(s: State, rounds: seq<seq<Event>>)
    decreases |rounds|
  {
    rounds != [] ==>
      && CanRunSerially(s, rounds[0]) && CanRun(s, rounds[0])
      && var e := After(s, rounds[0]);
      && !Stub(e) && |Durable(e.claims)| < |e.index|
      && CanRounds(Start(e.buffer, e.index, Durable(e.claims)), rounds[1..])
  }

  ghost function AfterRounds(s: State, rounds: seq<seq<Event>>): State
    requires CanRounds(s, rounds)
    decreases |rounds|
  {
    if rounds == [] then s else
      var e := After(s, rounds[0]);
      AfterRounds(Start(e.buffer, e.index, Durable(e.claims)), rounds[1..])
  }

  lemma KeptByGrowth(claims: seq<Claim>, after: seq<Claim>)
    requires Grows(claims, after) && forall i | 0 <= i < |claims| :: claims[i].Complete()
    ensures Payloads(claims) <= Durable(after)
  {
  }

  /** Frames that were whole when a round began are never lost, whatever crashes follow. */
  lemma {:induction false} RoundsKeep(s: State, rounds: seq<seq<Event>>)
    requires Serial(s) && CanRounds(s, rounds) && forall i | 0 <= i < |s.claims| :: s.claims[i].Complete()
    ensures Serial(AfterRounds(s, rounds)) && Payloads(s.claims) <= Payloads(AfterRounds(s, rounds).claims)
    decreases |rounds|
  {
    hide Inv, CanRunSerially, CanRun, After, Durable, OnFile, Grows;
    if rounds != [] {
      SerialRunKeeps(s, rounds[0]);
      var e := After(s, rounds[0]);
      CrashLeaves(e);
      StartKeeps(e.buffer, e.index, Durable(e.claims));
      KeptByGrowth(s.claims, e.claims);
      RoundsKeep(Start(e.buffer, e.index, Durable(e.claims)), rounds[1..]);
    }
  }

  // What a read refuses.

  /**
    In every run a read answers with an invalid header only for the first offset, once that is claimed; and
    for an offset that is not claimed it has nothing.
  */
  lemma Refusals(s: State, run: seq<Event>, r: nat)
    requires Inv(s) && CanRun(s, run) && r in After(s, run).readers && After(s, run).readers[r].Returned?
    ensures
      var (e, x) := (After(s, run), After(s, run).readers[r]);
      && (x.outcome.Invalid? ==> x.relative == 0 && e.claims != [])
      && (x.relative >= |e.claims| ==> x.outcome == Nothing)
  {
    hide Core, Attended, WriterFits, Grows, CanRun, After;
    RunKeeps(s, run);
    assert ReaderFits(After(s, run).claims, After(s, run).readers[r]);
  }

  /** A reader of offset `i` that can only find nothing there. */
  predicate PastEnd(x: Reader, i: nat) {
    x.relative == i && (x.Starting? || x.HasBoundary? || x == Returned(i, Nothing))
  }

  function LoadsPastEnd(x: Reader): nat {
    if x.Starting? then 2 else if x.HasBoundary? then 1 else 0
  }

  lemma StepPastEnd(s: State, e: Event, r: nat, i: nat)
    requires Inv(s) && Enabled(s, e) && !(e.Begin? && e.r == r)
    requires i >= |s.claims| && r in s.readers && PastEnd(s.readers[r], i)
    ensures
      var next := Next(s, e);
      && r in next.readers && PastEnd(next.readers[r], i)
      && LoadsPastEnd(next.readers[r]) ==
           LoadsPastEnd(s.readers[r]) - if e == Read(r) && LoadsPastEnd(s.readers[r]) > 0 then 1 else 0
  {
    hide Attended, WriterFits, ReaderFits, FrameStore, EosStore, Progress, Offset, IsHeader;
  }

  /** A read of an offset that is still unclaimed after two of its loads has found nothing. */
  lemma {:induction false} UnclaimedIsRefused(s: State, run: seq<Event>, r: nat, i: nat)
    requires Inv(s) && CanRun(s, run) && OneRead(run, r) && i >= |After(s, run).claims|
    requires r in s.readers && PastEnd(s.readers[r], i)
    ensures
      var e := After(s, run);
      && r in e.readers && PastEnd(e.readers[r], i)
      && (Loads(run, r) >= LoadsPastEnd(s.readers[r]) ==> e.readers[r] == Returned(i, Nothing))
    decreases |run|
  {
    hide Inv, Enabled, Next, PastEnd;
    RunGrows(s, run);
    if run == [] {
      AtEnd(s.readers[r], i);
    } else {
      NextKeeps(s, run[0]);
      StepPastEnd(s, run[0], r, i);
      assert forall k | 0 <= k < |run| - 1 :: run[1..][k] == run[k + 1];
      UnclaimedIsRefused(Next(s, run[0]), run[1..], r, i);
    }
  }

  lemma AtEnd(x: Reader, i: nat)
    requires PastEnd(x, i)
    ensures LoadsPastEnd(x) == 0 ==> x == Returned(i, Nothing)
  {
  }

  lemma RunGrows(s: State, run: seq<Event>)
    requires Inv(s) && CanRun(s, run)
    ensures |s.claims| <= |After(s, run).claims|
  {
    hide Inv, CanRun, After;
    RunKeeps(s, run);
  }

  /** A reader of the first offset that began when it was claimed. */
  predicate OnFirst(x: Reader) {
    x.relative == 0 &&
    match x
    case Starting(_) => true
    case HasBoundary(_, boundary) => boundary > 0
    case InRange(_, boundary) => boundary > 0
    case HasEntry(_, at) => at == 0
    case SawReady(_, at) => at == 0
    case Returned(_, outcome) => !outcome.Nothing?
  }

  lemma StepOnFirst(s: State, e: Event, r: nat)
    requires Inv(s) && Enabled(s, e) && !(e.Begin? && e.r == r) && s.claims != []
    requires r in s.readers && OnFirst(s.readers[r])
    ensures
      var next := Next(s, e);
      && r in next.readers && OnFirst(next.readers[r])
      && LoadsLeft(next.readers[r]) <=
           LoadsLeft(s.readers[r]) - if e == Read(r) && LoadsLeft(s.readers[r]) > 0 then 1 else 0
  {
    hide Attended, WriterFits, ReaderFits, FrameStore, EosStore, Progress, Offset, IsHeader, LoadFlags, LoadSize;
    ClaimReads(s, 0);
    ClaimRegions(s, 0);
  }

  /**
    In every run a read of the first offset that begins when it is claimed is answered after its loads, with
    the frame or with an invalid header, and never with nothing.
  */
  lemma {:induction false} FirstIsAnswered(s: State, run: seq<Event>, r: nat)
    requires Inv(s) && CanRun(s, run) && OneRead(run, r) && s.claims != []
    requires r in s.readers && OnFirst(s.readers[r])
    ensures
      var e := After(s, run);
      && r in e.readers && OnFirst(e.readers[r])
      && (Loads(run, r) >= LoadsLeft(s.readers[r]) ==>
            e.readers[r].Returned? && (e.readers[r].outcome.Got? || e.readers[r].outcome.Invalid?))
    decreases |run|
  {
    hide Inv, Enabled, Next, OnFirst, LoadsLeft;
    if run == [] {
      AtFirst(s.readers[r]);
    } else {
      NextKeeps(s, run[0]);
      StepOnFirst(s, run[0], r);
      SomeClaim(s.claims, Next(s, run[0]).claims);
      assert forall k | 0 <= k < |run| - 1 :: run[1..][k] == run[k + 1];
      FirstIsAnswered(Next(s, run[0]), run[1..], r);
    }
  }

  lemma AtFirst(x: Reader)
    requires OnFirst(x)
    ensures LoadsLeft(x) == 0 ==> x.Returned? && (x.outcome.Got? || x.outcome.Invalid?)
  {
  }

  lemma SomeClaim(claims: seq<Claim>, after: seq<Claim>)
    requires Grows(claims, after) && claims != []
    ensures after != []
  {
  }

  // A write on its own.

  /** The segment as the sequential writer sees it. */
  function Sequential(s: State): View {
    View(s.buffer, s.index, s.w, Payloads(s.claims), s.eos, false)
  }

  /** At rest: no writer is at work, and the segment has not ended, so that there is room for an end marker. */
  ghost predicate Quiet(s: State) {
    && Serial(s) && !s.eos && s.w.data + HEADER_SIZE <= |s.buffer| < WORD
    && forall t | t in s.writers :: s.writers[t].Idle?
  }

  /** No read begins in the run. */
  predicate OnlyWrites(run: seq<Event>) {
    forall k | 0 <= k < |run| :: !run[k].Begin?
  }

  /** `run` can follow `s` with one writer at a time, and leads to `e`. */
  ghost predicate Leads(s: State, run: seq<Event>, e: State) {
    CanRun(s, run) && CanRunSerially(s, run) && OnlyWrites(run) && After(s, run) == e
  }

  lemma LeadsNowhere(s: State)
    ensures Leads(s, [], s)
  {
  }

  lemma LeadsOn(s: State, x: Event, run: seq<Event>, e: State)
    requires SerialEnabled(s, x) && !x.Begin? && Leads(Next(s, x), run, e)
    ensures Leads(s, [x] + run, e)
  {
    hide Enabled, Next;
    assert ([x] + run)[0] == x && ([x] + run)[1..] == run;
  }

  /** The state when the writer of a claim is done with its stores. */
  function Finished(s: State, t: nat, i: nat): State
    requires StoreInside(s, i) && s.claims[i].done <= s.claims[i].Total()
  {
    var c := s.claims[i];
    s.(buffer := StoresFrom(s.buffer, c), index := s.index[i := c.at], claims := s.claims[i := c.(done := c.Total())],
       writers := s.writers[t := Idle])
  }

  lemma FinishedNext(s: State, t: nat, i: nat)
    requires StoreInside(s, i) && s.claims[i].done < s.claims[i].Total()
    ensures
      var next := AfterFrameStore(s, t, i);
      if next.claims[i].Complete() then Finished(s, t, i) == next
      else StoreInside(next, i) && Finished(s, t, i) == Finished(next, t, i)
  {
    hide FrameStore, StoresFrom;
    var c := s.claims[i];
    StoresStep(s.buffer, c);
    if c.done + 1 == c.Total() {
      StoresEnd(FrameStore(s.buffer, c), c.(done := c.done + 1));
    }
  }

  lemma {:induction false} StoresLead(s: State, t: nat, i: nat) returns (run: seq<Event>)
    requires t in s.writers && s.writers[t] == Storing(i)
    requires StoreInside(s, i) && s.claims[i].done <= s.claims[i].Total()
    ensures Leads(s, run, Finished(s, t, i))
    decreases if i < |s.claims| then s.claims[i].Total() - s.claims[i].done else 0
  {
    hide FrameStore, StoresFrom, Leads, Finished;
    var next := AfterFrameStore(s, t, i);
    FinishedNext(s, t, i);
    if next.claims[i].Complete() {
      LeadsNowhere(next);
      LeadsOn(s, Store(t), [], next);
      run := [Store(t)] + [];
    } else {
      var rest := StoresLead(next, t, i);
      LeadsOn(s, Store(t), rest, Finished(s, t, i));
      run := [Store(t)] + rest;
    }
  }

  /** The single stores of an end marker are those of the sequential writer. */
  lemma StoresArePutEos(b: seq<byte>, at: nat)
    requires at + HEADER_SIZE <= |b|
    ensures EosStore(EosStore(EosStore(EosStore(EosStore(b, at, 0), at, 1), at, 2), at, 3), at, 4) == PutEos(b, at)
  {
    hide Le16, Le32, Stored;
    StoredOn(b, at, Le16(FLAGS_EMPTY), [0]);
    StoredOn(b, at, Le16(FLAGS_EMPTY) + [0], [0]);
    assert Le16(FLAGS_EMPTY) + [0] + [0] == Le16(FLAGS_EMPTY) + [0, 0];
  }

  lemma EosStoresLead(s: State, t: nat) returns (run: seq<Event>)
    requires t in s.writers && s.writers[t] == Ending(0) && End(Payloads(s.claims)) + HEADER_SIZE <= |s.buffer|
    ensures
      Leads(s, run, s.(buffer := PutEos(s.buffer, End(Payloads(s.claims))), writers := s.writers[t := Idle]))
  {
    hide EosStore, PutEos, Leads;
    StoresArePutEos(s.buffer, End(Payloads(s.claims)));
    var s1 := AfterEosStore(s, t, 0);
    var s2 := AfterEosStore(s1, t, 1);
    var s3 := AfterEosStore(s2, t, 2);
    var s4 := AfterEosStore(s3, t, 3);
    var e := AfterEosStore(s4, t, 4);
    assert s.writers[t := Idle] == e.writers;
    LeadsNowhere(e);
    LeadsOn(s4, Store(t), [], e);
    LeadsOn(s3, Store(t), [Store(t)] + [], e);
    LeadsOn(s2, Store(t), [Store(t)] + ([Store(t)] + []), e);
    LeadsOn(s1, Store(t), [Store(t)] + ([Store(t)] + ([Store(t)] + [])), e);
    run := [Store(t)] + ([Store(t)] + ([Store(t)] + ([Store(t)] + ([Store(t)] + []))));
    LeadsOn(s, Store(t), [Store(t)] + ([Store(t)] + ([Store(t)] + ([Store(t)] + []))), e);
  }

  /** What a write makes of a segment, in the terms of the sequential writer. */
  function Tried(v: View, p: Payload): View
    requires v.w.data + HEADER_SIZE <= |v.buffer| < WORD && (!MarkedEos(v) && Fits(v, |p|) ==> v.w.index < |v.index|)
  {
    if MarkedEos(v) then v else if Fits(v, |p|) then AfterWrite(v, p) else AfterEos(v)
  }

  lemma QuietBounds(s: State)
    requires Quiet(s)
    ensures s.w.data + HEADER_SIZE <= |s.buffer| < WORD && s.w == Position(|s.claims|, End(Payloads(s.claims)))
    ensures WellFormed(Sequential(s)) && forall i | 0 <= i < |s.claims| :: s.claims[i].Complete()
  {
    hide Progress, WriterFits, ReaderFits, IsHeader, Offset, HoldsAt;
    forall i | 0 <= i < |s.claims|
      ensures s.claims[i].Complete() && HoldsAt(s.buffer, Offset(Payloads(s.claims), i), s.claims[i].payload)
      ensures s.index[i] == Offset(Payloads(s.claims), i)
    {
      EntryOf(s, i);
      PublishedHolds(s.buffer, s.index, i, s.claims[i]);
    }
  }

  /** The four steps up to the swap. */
  lemma SwapLeads(s: State, t: nat, p: Payload, loaded: State, run: seq<Event>, e: State)
    requires Quiet(s) && !MarkedEos(Sequential(s))
    requires loaded == s.(writers := s.writers[t := Loaded(p, s.w)])
    requires MayClaim(loaded, Loaded(p, s.w)) && Leads(AfterClaim(loaded, t), run, e)
    ensures Leads(s, [Probe(t, p)] + ([ReadMark(t)] + ([Load(t)] + ([TryClaim(t)] + run))), e)
  {
    hide Serial, Leads, AfterClaim, Flags;
    var s1 := s.(writers := s.writers[t := Probing(p, s.w.data)]);
    var s2 := s.(writers := s.writers[t := Ready(p)]);
    assert s1.writers[t := Ready(p)] == s2.writers && s2.writers[t := Loaded(p, s.w)] == loaded.writers;
    LeadsOn(loaded, TryClaim(t), run, e);
    LeadsOn(s2, Load(t), [TryClaim(t)] + run, e);
    LeadsOn(s1, ReadMark(t), [Load(t)] + ([TryClaim(t)] + run), e);
    LeadsOn(s, Probe(t, p), [ReadMark(t)] + ([Load(t)] + ([TryClaim(t)] + run)), e);
  }

  lemma MarkedLeads(s: State, t: nat, p: Payload) returns (run: seq<Event>)
    requires Quiet(s) && MarkedEos(Sequential(s))
    ensures Leads(s, run, s.(writers := s.writers[t := Idle]))
  {
    hide Serial, Leads, Flags;
    var s1 := s.(writers := s.writers[t := Probing(p, s.w.data)]);
    var e := s.(writers := s.writers[t := Idle]);
    assert s1.writers[t := Idle] == e.writers;
    LeadsNowhere(e);
    LeadsOn(s1, ReadMark(t), [], e);
    run := [Probe(t, p)] + ([ReadMark(t)] + []);
    LeadsOn(s, Probe(t, p), [ReadMark(t)] + [], e);
  }

  /** The state after a frame was written. */
  function WithFrame(s: State, t: nat, p: Payload): State
    requires s.w.data + FrameLength(p) <= |s.buffer| < WORD && |s.claims| < |s.index|
  {
    State(PutFrame(s.buffer, s.w.data, p), s.index[|s.claims| := s.w.data],
          Position(s.w.index + 1, s.w.data + FrameLength(p)),
          s.claims + [Claim(t, s.w.data, p, |p| + 7)], s.eos, s.writers[t := Idle], s.readers)
  }

  lemma FrameLeads(s: State, t: nat, p: Payload) returns (run: seq<Event>)
    requires Quiet(s) && !MarkedEos(Sequential(s)) && Fits(Sequential(s), |p|)
    requires s.w.index == |s.claims| < |s.index|
    ensures Leads(s, run, WithFrame(s, t, p))
  {
    hide Serial, Leads, Flags, StoresFrom, PutFrame;
    var loaded := s.(writers := s.writers[t := Loaded(p, s.w)]);
    var claimed := AfterClaim(loaded, t);
    var n := |s.claims|;
    StoresArePutFrame(s.buffer, claimed.claims[n]);
    var e := Finished(claimed, t, n);
    assert e.claims == s.claims + [Claim(t, s.w.data, p, |p| + 7)];
    assert e.writers == s.writers[t := Idle];
    var stores := StoresLead(claimed, t, n);
    run := [Probe(t, p)] + ([ReadMark(t)] + ([Load(t)] + ([TryClaim(t)] + stores)));
    SwapLeads(s, t, p, loaded, stores, e);
  }

  /** The state after an end marker was written. */
  function WithMarker(s: State, t: nat): State
    requires s.w.data + HEADER_SIZE <= |s.buffer|
  {
    s.(buffer := PutEos(s.buffer, s.w.data), w := Position(s.w.index, s.w.data + HEADER_SIZE), eos := true,
       writers := s.writers[t := Idle])
  }

  lemma EndLeads(s: State, t: nat, p: Payload) returns (run: seq<Event>)
    requires Quiet(s) && s.w.data == End(Payloads(s.claims))
    requires !MarkedEos(Sequential(s)) && !Fits(Sequential(s), |p|)
    ensures Leads(s, run, WithMarker(s, t))
  {
    hide Serial, Leads, Flags, PutEos;
    var loaded := s.(writers := s.writers[t := Loaded(p, s.w)]);
    var ending := AfterClaim(loaded, t);
    var stores := EosStoresLead(ending, t);
    assert ending.writers[t := Idle] == s.writers[t := Idle];
    run := [Probe(t, p)] + ([ReadMark(t)] + ([Load(t)] + ([TryClaim(t)] + stores)));
    SwapLeads(s, t, p, loaded, stores, WithMarker(s, t));
  }

  lemma LeadsTo(s: State, run: seq<Event>, e: State)
    requires Leads(s, run, e)
    ensures CanRun(s, run) && CanRunSerially(s, run) && OnlyWrites(run) && After(s, run) == e
  {
  }

  /**
    A write on its own, step by step, is enabled throughout and leaves what the sequential writer leaves: a
    frame more, or an end marker, or nothing new when it finds a marker.
  */
  lemma WriteAlone(s: State, t: nat, p: Payload) returns (run: seq<Event>)
    requires Quiet(s)
    requires !MarkedEos(Sequential(s)) && Fits(Sequential(s), |p|) ==> s.w.index < |s.index|
    ensures CanRun(s, run) && CanRunSerially(s, run) && OnlyWrites(run)
    ensures
      var e := After(s, run);
      && Sequential(e) == Tried(Sequential(s), p) && e.readers == s.readers
      && forall u | u in e.writers :: e.writers[u].Idle?
  {
    hide Serial, Leads, Flags, PutFrame, PutEos, CanRun, CanRunSerially, After;
    QuietBounds(s);
    if MarkedEos(Sequential(s)) {
      run := MarkedLeads(s, t, p);
      LeadsTo(s, run, s.(writers := s.writers[t := Idle]));
    } else if Fits(Sequential(s), |p|) {
      run := FrameLeads(s, t, p);
      LeadsTo(s, run, WithFrame(s, t, p));
      assert Payloads(WithFrame(s, t, p).claims) == Payloads(s.claims) + [p];
    } else {
      run := EndLeads(s, t, p);
      LeadsTo(s, run, WithMarker(s, t));
    }
  }

  // Two writes at once.

  ghost predicate Goes(s: State, run: seq<Event>, e: State) {
    CanRun(s, run) && After(s, run) == e
  }

  lemma GoesOn(s: State, x: Event, run: seq<Event>, e: State)
    requires Enabled(s, x) && Goes(Next(s, x), run, e)
    ensures Goes(s, [x] + run, e)
  {
    hide Enabled, Next;
    assert ([x] + run)[0] == x && ([x] + run)[1..] == run;
  }

  /** The state in which writer `t` has claimed a frame and stored nothing of it. */
  function Claimed(s: State, t: nat, p: Payload): State {
    s.(w := Position(s.w.index + 1, s.w.data + FrameLength(p)), claims := s.claims + [Claim(t, s.w.data, p, 0)],
       writers := s.writers[t := Storing(|s.claims|)])
  }

  lemma ClaimGoes(s: State, t: nat, p: Payload, run: seq<Event>, e: State)
    requires t in s.writers && s.writers[t] == Ready(p) && !s.eos
    requires HasRoom(|s.buffer|, s.w.data, |p|) && s.w.index < |s.index| && Goes(Claimed(s, t, p), run, e)
    ensures Goes(s, [Load(t)] + ([TryClaim(t)] + run), e)
  {
    hide Goes;
    var s1 := s.(writers := s.writers[t := Loaded(p, s.w)]);
    assert s1.writers[t := Storing(|s.claims|)] == s.writers[t := Storing(|s.claims|)];
    GoesOn(s1, TryClaim(t), run, e);
    GoesOn(s, Load(t), [TryClaim(t)] + run, e);
  }

  lemma ReadyGoes(s: State, t: nat, p: Payload, run: seq<Event>, e: State)
    requires WriterOf(s, t).Idle? && s.w.data <= |s.buffer| && !MarkedEos(Sequential(s))
    requires Goes(s.(writers := s.writers[t := Ready(p)]), run, e)
    ensures Goes(s, [Probe(t, p)] + ([ReadMark(t)] + run), e)
  {
    hide Goes, Flags;
    var s1 := s.(writers := s.writers[t := Probing(p, s.w.data)]);
    assert s1.writers[t := Ready(p)] == s.writers[t := Ready(p)];
    GoesOn(s1, ReadMark(t), run, e);
    GoesOn(s, Probe(t, p), [ReadMark(t)] + run, e);
  }

  /**
    Two writers can claim one after the other and store in any order: from a state at rest with room for both
    there is a run after which the second frame can be read while nothing of the first is stored.
  */
  lemma OutOfOrder(s: State, t: nat, u: nat, p: Payload, q: Payload) returns (run: seq<Event>)
    requires Quiet(s) && t != u && !MarkedEos(Sequential(s)) && s.w.index + 1 < |s.index|
    requires s.w.data + FrameLength(p) + FrameLength(q) + HEADER_SIZE <= |s.buffer|
    ensures CanRun(s, run)
    ensures
      var (n, e) := (|s.claims|, After(s, run));
      && |e.claims| == n + 2 && e.claims[n].payload == p && e.claims[n].done == 0
      && e.claims[n + 1].payload == q && Readable(e, n + 1)
  {
    hide Serial, Goes, Flags, StoresFrom, FrameStore, CanRun, After;
    QuietBounds(s);
    var n := |s.claims|;
    var s1 := s.(writers := s.writers[t := Ready(p)]);
    var s2 := s1.(writers := s1.writers[u := Ready(q)]);
    var s3 := Claimed(s2, t, p);
    var s4 := Claimed(s3, u, q);
    var stores := StoresLead(s4, u, n + 1);
    var e := Finished(s4, u, n + 1);
    LeadsTo(s4, stores, e);
    GoesTo(s4, stores, e);
    var claims := [Load(u)] + ([TryClaim(u)] + stores);
    ClaimGoes(s3, u, q, stores, e);
    ClaimGoes(s2, t, p, claims, e);
    claims := [Load(t)] + ([TryClaim(t)] + claims);
    ReadyGoes(s1, u, q, claims, e);
    claims := [Probe(u, q)] + ([ReadMark(u)] + claims);
    ReadyGoes(s, t, p, claims, e);
    run := [Probe(t, p)] + ([ReadMark(t)] + claims);
    GoneTo(s, run, e);
  }

  lemma GoesTo(s: State, run: seq<Event>, e: State)
    requires CanRun(s, run) && After(s, run) == e
    ensures Goes(s, run, e)
  {
  }

  lemma GoneTo(s: State, run: seq<Event>, e: State)
    requires Goes(s, run, e)
    ensures CanRun(s, run) && After(s, run) == e
  {
  }
}
