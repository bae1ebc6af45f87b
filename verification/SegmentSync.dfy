/**
  segment_sync of src/segment.c by single steps, beside writers and committed readers: mqlog_sync of
  src/mqlog.c takes no mutex. One thread syncs; it loads the write offset, flushes the data below it, and
  then moves the sync mark there. All else is as in `SegmentSteps`, but that a committed reader loads the
  sync mark as its boundary.
*/
module SegmentSync {
  import opened Prot
  import opened SegmentLayout
  import opened SegmentDisk
  import Steps = SegmentSteps

  datatype Phase =
    | Idle
    | HasEnd(to: nat)   // has loaded the write offset
    | Done(to: nat)     // msync has succeeded

  /** The mapped memory with its writers and readers, the sync mark, and the data file on disk. */
  datatype State = State(mem: Steps.State, mark: nat, disk: seq<byte>, sync: Phase, page: nat)

  datatype Event =
    | Mem(event: Steps.Event)  // of a writer, or of a reader after its first load
    | Boundary(r: nat)         // the first load of a reader
    | LoadEnd
    | Msync(ok: bool)
    | MoveMark

  predicate Enabled(s: State, e: Event) {
    match e
    case Mem(x) => Steps.Enabled(s.mem, x) && (x.Read? ==> !s.mem.readers[x.r].Starting?)
    case Boundary(r) => r in s.mem.readers && s.mem.readers[r].Starting?
    case LoadEnd => s.sync.Idle?
    case Msync(_) => s.sync.HasEnd?
    case MoveMark => s.sync.Done?
  }

  /** The start of the page that the mark is in. */
  function From(s: State): nat
    requires s.page > 0
  {
    s.mark - PageDiff(s.mark, s.page)
  }

  /** The flush goes over bytes of the file; every flush of a run does (`Inv`). */
  predicate CanFlush(s: State) {
    s.sync.HasEnd? && s.page > 0 && s.mark <= s.sync.to <= |s.mem.buffer| == |s.disk|
  }

  function AfterMsync(s: State): State
    requires CanFlush(s)
  {
    s.(disk := Flushed(s.disk, s.mem.buffer, From(s), s.sync.to), sync := Done(s.sync.to))
  }

  function Next(s: State, e: Event): State
    requires Enabled(s, e)
  {
    match e
    case Mem(x) => s.(mem := Steps.Next(s.mem, x))
    case Boundary(r) =>
      var i := s.mem.readers[r].relative;
      s.(mem := s.mem.(readers := s.mem.readers[r := Steps.HasBoundary(i, s.mark)]))
    case LoadEnd => s.(sync := HasEnd(s.mem.w.data))
    case Msync(ok) => if ok && CanFlush(s) then AfterMsync(s) else s.(sync := Idle)
    case MoveMark => s.(mark := s.sync.to, sync := Idle)
  }

  // The invariant.

  /** No frame lies across `x`. */
  ghost predicate Cut(m: Steps.State, x: nat) {
    && x <= m.w.data && x <= |m.buffer|
    && forall i | 0 <= i < |m.claims| :: Steps.ClaimEnd(m.claims[i]) <= x || x <= m.claims[i].at
  }

  /** What a reader has loaded lies below the mark. */
  predicate Below(mark: nat, x: Steps.Reader) {
    match x
    case Starting(_) => true
    case HasBoundary(_, boundary) => boundary <= mark
    case InRange(_, boundary) => boundary <= mark
    case HasEntry(_, at) => at < mark
    case SawReady(_, at) => at < mark
    case Returned(_, outcome) => outcome.Got? ==> outcome.at < mark + HEADER_SIZE
  }

  ghost predicate Inv(s: State) {
    && Steps.Inv(s.mem) && |s.disk| == |s.mem.buffer| && s.page > 0 && Cut(s.mem, s.mark)
    && (!s.sync.Idle? ==> Cut(s.mem, s.sync.to) && s.mark <= s.sync.to)
    && forall r | r in s.mem.readers :: Below(s.mark, s.mem.readers[r])
  }

  /** A claimed frame is published, and on disk. */
  ghost predicate OnDisk(s: State, i: nat)
    requires i < |s.mem.claims|
  {
    s.mem.claims[i].Published() && HoldsAt(s.disk, s.mem.claims[i].at, s.mem.claims[i].payload)
  }

  ghost predicate OnDiskBelow(s: State, x: nat) {
    forall i | 0 <= i < |s.mem.claims| && s.mem.claims[i].at < x :: OnDisk(s, i)
  }

  /** Every frame below the mark is on disk: what committed reads rely on. */
  ghost predicate Durable(s: State) {
    OnDiskBelow(s, s.mark) && (s.sync.Done? ==> OnDiskBelow(s, s.sync.to))
  }

  /** A flush is orderly when no writer is at the stores of a frame that it covers. */
  ghost predicate Orderly(s: State, e: Event) {
    e == Msync(true) && s.sync.HasEnd? ==>
      forall i | 0 <= i < |s.mem.claims| && s.mem.claims[i].at < s.sync.to :: s.mem.claims[i].Published()
  }

  // Steps of writers and readers.

  lemma EndInside(m: Steps.State)
    requires Steps.Inv(m)
    ensures Cut(m, m.w.data)
  {
    hide Steps.Progress, Steps.Attended, Steps.WriterFits, Steps.ReaderFits, IsHeader, Offset;
    forall i | 0 <= i < |m.claims| ensures Steps.ClaimEnd(m.claims[i]) <= m.w.data {
      Steps.ClaimRegions(m, i);
    }
  }

  /** Claims keep their places, and new ones begin at the write offset. */
  lemma ClaimsStay(m: Steps.State, x: Steps.Event)
    requires Steps.Inv(m) && Steps.Enabled(m, x)
    ensures
      var next := Steps.Next(m, x);
      && Steps.Inv(next) && Steps.Grows(m.claims, next.claims) && |next.buffer| == |m.buffer|
      && m.w.data <= next.w.data && forall i | |m.claims| <= i < |next.claims| :: next.claims[i].at >= m.w.data
  {
    hide Steps.Progress, Steps.Attended, Steps.WriterFits, Steps.ReaderFits, IsHeader, Offset, Steps.FrameStore,
      Steps.EosStore, Steps.AfterLoad;
    Steps.NextKeeps(m, x);
  }

  lemma CutStays(m: Steps.State, x: Steps.Event, at: nat)
    requires Steps.Inv(m) && Steps.Enabled(m, x) && Cut(m, at)
    ensures Cut(Steps.Next(m, x), at)
  {
    hide Steps.Inv, Steps.Next, Steps.Enabled;
    ClaimsStay(m, x);
  }

  /** What is on disk below a cut stays there. */
  lemma DiskStays(s: State, x: Steps.Event, at: nat)
    requires Inv(s) && Enabled(s, Mem(x)) && Cut(s.mem, at) && OnDiskBelow(s, at)
    ensures OnDiskBelow(Next(s, Mem(x)), at)
  {
    hide Steps.Inv, Steps.Next, Steps.Enabled, HoldsAt;
    ClaimsStay(s.mem, x);
    var next := Next(s, Mem(x));
    forall i | 0 <= i < |next.mem.claims| && next.mem.claims[i].at < at ensures OnDisk(next, i) {
      assert i < |s.mem.claims|;
      assert OnDisk(s, i);
    }
  }

  lemma ReadersStay(s: State, x: Steps.Event)
    requires Inv(s) && Enabled(s, Mem(x))
    ensures forall r | r in Next(s, Mem(x)).mem.readers :: Below(s.mark, Next(s, Mem(x)).mem.readers[r])
  {
    hide Steps.Inv, Steps.FrameStore, Steps.EosStore, Steps.LoadFlags, Steps.LoadSize;
    var next := Next(s, Mem(x));
    forall r | r in next.mem.readers ensures Below(s.mark, next.mem.readers[r]) {
      assert r in s.mem.readers ==> Below(s.mark, s.mem.readers[r]);
    }
  }

  lemma MemKeeps(s: State, x: Steps.Event)
    requires Inv(s) && Durable(s) && Enabled(s, Mem(x))
    ensures Inv(Next(s, Mem(x))) && Durable(Next(s, Mem(x)))
  {
    hide Steps.Inv, Steps.Next, Steps.Enabled, Cut, Below, OnDiskBelow;
    ClaimsStay(s.mem, x);
    ReadersStay(s, x);
    CutStays(s.mem, x, s.mark);
    DiskStays(s, x, s.mark);
    if !s.sync.Idle? {
      CutStays(s.mem, x, s.sync.to);
      if s.sync.Done? {
        DiskStays(s, x, s.sync.to);
      }
    }
  }

  lemma BoundaryKeeps(s: State, r: nat)
    requires Inv(s) && Durable(s) && Enabled(s, Boundary(r))
    ensures Inv(Next(s, Boundary(r))) && Durable(Next(s, Boundary(r)))
  {
    hide Steps.Core, Steps.Attended, Steps.WriterFits, HoldsAt;
    var x := Steps.HasBoundary(s.mem.readers[r].relative, s.mark);
    Steps.ReaderKeeps(s.mem, r, x);
    var next := Next(s, Boundary(r));
    forall i | 0 <= i < |s.mem.claims| ensures OnDisk(next, i) <==> OnDisk(s, i) {
    }
  }

  // Steps of a sync.

  /** A flush puts a frame on disk that memory holds, if it does not begin before what is flushed or is there. */
  lemma HoldsFlushed(disk: seq<byte>, memory: seq<byte>, from: nat, to: nat, at: nat, p: Payload)
    requires from <= to <= |memory| == |disk| && HoldsAt(memory, at, p) && at + FrameLength(p) <= to
    requires at >= from || HoldsAt(disk, at, p)
    ensures HoldsAt(Flushed(disk, memory, from, to), at, p)
  {
    hide Frame;
    var after, end := Flushed(disk, memory, from, to), at + FrameLength(p);
    forall j | at <= j < end ensures after[j] == memory[j] {
      if j < from {
        assert disk[j] == disk[at..end][j - at] && memory[j] == memory[at..end][j - at];
      }
    }
    assert after[at..end] == memory[at..end];
  }

  /** What a flush puts there is what memory holds. */
  lemma FlushedHolds(disk: seq<byte>, memory: seq<byte>, from: nat, to: nat, at: nat, p: Payload)
    requires from <= to <= |memory| == |disk| && HoldsAt(Flushed(disk, memory, from, to), at, p)
    requires from <= at && at + FrameLength(p) <= to
    ensures HoldsAt(memory, at, p)
  {
    hide Frame;
    var after, end := Flushed(disk, memory, from, to), at + FrameLength(p);
    assert after[at..end] == memory[at..end];
  }

  lemma Published(m: Steps.State, i: nat)
    requires Steps.Inv(m) && i < |m.claims| && m.claims[i].Published()
    ensures HoldsAt(m.buffer, m.claims[i].at, m.claims[i].payload)
  {
    hide Steps.Attended, Steps.WriterFits, Steps.ReaderFits, Steps.HeaderProgress, HoldsAt, IsHeader;
    assert Steps.Progress(m.buffer, m.index, i, m.claims[i]);
    Steps.PublishedHolds(m.buffer, m.index, i, m.claims[i]);
  }

  lemma InvCanFlush(s: State)
    requires Inv(s) && s.sync.HasEnd?
    ensures CanFlush(s) && From(s) <= s.mark
  {
    hide Steps.Inv;
  }

  /** An orderly flush puts every frame below its end on disk. */
  lemma MsyncKeeps(s: State)
    requires Inv(s) && Durable(s) && s.sync.HasEnd? && Orderly(s, Msync(true))
    ensures CanFlush(s) && Inv(AfterMsync(s)) && Durable(AfterMsync(s))
  {
    hide Steps.Inv, HoldsAt, Below, PageDiff, Flushed;
    InvCanFlush(s);
    var next := AfterMsync(s);
    forall i | 0 <= i < |s.mem.claims| && s.mem.claims[i].at < s.sync.to ensures OnDisk(next, i) {
      Published(s.mem, i);
      var c := s.mem.claims[i];
      if c.at < s.mark {
        assert OnDisk(s, i);
      }
      HoldsFlushed(s.disk, s.mem.buffer, From(s), s.sync.to, c.at, c.payload);
    }
  }

  lemma NextKeeps(s: State, e: Event)
    requires Inv(s) && Durable(s) && Enabled(s, e) && Orderly(s, e)
    ensures Inv(Next(s, e)) && Durable(Next(s, e))
  {
    match e
    case Mem(x) =>
      MemKeeps(s, x);
    case Boundary(r) =>
      BoundaryKeeps(s, r);
    case LoadEnd =>
      EndInside(s.mem);
      LoadEndKeeps(s);
    case Msync(ok) =>
      if ok {
        MsyncKeeps(s);
      } else {
        PhaseKeeps(s, Next(s, e));
      }
    case MoveMark =>
      MoveKeeps(s);
  }

  lemma LoadEndKeeps(s: State)
    requires Inv(s) && Durable(s) && s.sync.Idle? && Cut(s.mem, s.mem.w.data)
    ensures Inv(Next(s, LoadEnd)) && Durable(Next(s, LoadEnd))
  {
    hide Steps.Inv, HoldsAt, Below;
    SameDisk(s, Next(s, LoadEnd), s.mark);
  }

  lemma PhaseKeeps(s: State, next: State)
    requires Inv(s) && Durable(s) && next == s.(sync := Idle)
    ensures Inv(next) && Durable(next)
  {
    hide Steps.Inv, HoldsAt, Below, Cut;
    SameDisk(s, next, s.mark);
  }

  lemma MoveKeeps(s: State)
    requires Inv(s) && Durable(s) && s.sync.Done?
    ensures Inv(Next(s, MoveMark)) && Durable(Next(s, MoveMark))
  {
    hide Steps.Inv, HoldsAt, Cut;
    SameDisk(s, Next(s, MoveMark), s.sync.to);
    forall r | r in s.mem.readers ensures Below(s.sync.to, s.mem.readers[r]) {
      assert Below(s.mark, s.mem.readers[r]);
    }
  }

  lemma SameDisk(s: State, next: State, at: nat)
    requires next.mem == s.mem && next.disk == s.disk && OnDiskBelow(s, at)
    ensures OnDiskBelow(next, at)
  {
    hide HoldsAt;
    forall i | 0 <= i < |s.mem.claims| && s.mem.claims[i].at < at ensures OnDisk(next, i) {
      assert OnDisk(s, i);
    }
  }

  /**
    A flush puts every frame below its end on disk if and only if memory holds all of them when it is done;
    a frame that a writer is still at is left behind there, whatever becomes of it in memory.
  */
  lemma FlushExactly(s: State)
    requires Inv(s) && Durable(s) && s.sync.HasEnd?
    ensures CanFlush(s) && AfterMsync(s).mem == s.mem
    ensures FramesHeld(AfterMsync(s).disk, s.mem.claims, s.sync.to) <==>
            FramesHeld(s.mem.buffer, s.mem.claims, s.sync.to)
  {
    hide Steps.Inv, HoldsAt, Below, PageDiff, Flushed;
    InvCanFlush(s);
    var disk, from, to := AfterMsync(s).disk, From(s), s.sync.to;
    forall i | 0 <= i < |s.mem.claims| && s.mem.claims[i].at < to
      ensures HoldsAt(disk, s.mem.claims[i].at, s.mem.claims[i].payload) <==>
                HoldsAt(s.mem.buffer, s.mem.claims[i].at, s.mem.claims[i].payload)
    {
      var c := s.mem.claims[i];
      if c.at < s.mark {
        assert OnDisk(s, i);
        Published(s.mem, i);
        HoldsFlushed(s.disk, s.mem.buffer, from, to, c.at, c.payload);
      } else if HoldsAt(disk, c.at, c.payload) {
        FlushedHolds(s.disk, s.mem.buffer, from, to, c.at, c.payload);
      } else if HoldsAt(s.mem.buffer, c.at, c.payload) {
        HoldsFlushed(s.disk, s.mem.buffer, from, to, c.at, c.payload);
      }
    }
  }

  ghost predicate FramesHeld(bytes: seq<byte>, claims: seq<Steps.Claim>, x: nat) {
    forall i | 0 <= i < |claims| && claims[i].at < x :: HoldsAt(bytes, claims[i].at, claims[i].payload)
  }

  // Runs.

  ghost predicate CanRun(s: State, run: seq<Event>)
    decreases |run|
  {
    run == [] || (Enabled(s, run[0]) && CanRun(Next(s, run[0]), run[1..]))
  }

  ghost function After(s: State, run: seq<Event>): State
    requires CanRun(s, run)
    decreases |run|
  {
    if run == [] then s else After(Next(s, run[0]), run[1..])
  }

  ghost predicate OrderlyRun(s: State, run: seq<Event>)
    requires CanRun(s, run)
    decreases |run|
  {
    run == [] || (Orderly(s, run[0]) && OrderlyRun(Next(s, run[0]), run[1..]))
  }

  lemma {:induction false} RunKeeps(s: State, run: seq<Event>)
    requires Inv(s) && Durable(s) && CanRun(s, run) && OrderlyRun(s, run)
    ensures Inv(After(s, run)) && Durable(After(s, run))
    decreases |run|
  {
    hide Inv, Durable, Enabled, Next, Orderly;
    if run != [] {
      NextKeeps(s, run[0]);
      RunKeeps(Next(s, run[0]), run[1..]);
    }
  }

  /** What a committed reader has got is on disk, byte for byte. */
  ghost predicate GotIsOnDisk(s: State, r: nat)
    requires r in s.mem.readers && s.mem.readers[r].Returned? && s.mem.readers[r].outcome.Got?
  {
    var (i, got) := (s.mem.readers[r].relative, s.mem.readers[r].outcome);
    && i < |s.mem.claims| && got.length == |s.mem.claims[i].payload| && got.at + got.length <= |s.disk|
    && s.disk[got.at..got.at + got.length] == s.mem.claims[i].payload
  }

  /**
    In every interleaving in which flushes are orderly, committed reads hand out only what is on disk,
    complete, and it stays there.
  */
  lemma CommittedIsDurable(s: State, run: seq<Event>)
    requires Inv(s) && Durable(s) && CanRun(s, run) && OrderlyRun(s, run)
    ensures
      var e := After(s, run);
      forall r | r in e.mem.readers && e.mem.readers[r].Returned? && e.mem.readers[r].outcome.Got? ::
        GotIsOnDisk(e, r)
  {
    hide CanRun, OrderlyRun, After, Durable, Inv, GotIsOnDisk;
    RunKeeps(s, run);
    var e := After(s, run);
    forall r | r in e.mem.readers && e.mem.readers[r].Returned? && e.mem.readers[r].outcome.Got?
      ensures GotIsOnDisk(e, r)
    {
      GotBelow(e, r);
    }
  }

  lemma GotBelow(s: State, r: nat)
    requires Inv(s) && Durable(s)
    requires r in s.mem.readers && s.mem.readers[r].Returned? && s.mem.readers[r].outcome.Got?
    ensures GotIsOnDisk(s, r)
  {
    hide Steps.Core, Steps.Attended, Steps.WriterFits, Cut, HoldsAt;
    var x := s.mem.readers[r];
    assert Steps.ReaderFits(s.mem.claims, x) && Below(s.mark, x);
    assert OnDisk(s, x.relative);
    var c := s.mem.claims[x.relative];
    HeldPayload(s.disk, c.at, c.payload);
  }

  lemma HeldPayload(bytes: seq<byte>, at: nat, p: Payload)
    requires HoldsAt(bytes, at, p)
    ensures at + FrameLength(p) <= |bytes| && bytes[at + HEADER_SIZE..at + FrameLength(p)] == p
  {
    hide Flags, FrameSize;
    FrameReads(bytes, at, p);
  }

  /** With no writer at its stores, as under a mutex, every flush is orderly. */
  lemma QuietIsOrderly(s: State, e: Event)
    requires Inv(s) && forall t | t in s.mem.writers :: !s.mem.writers[t].Storing?
    ensures Orderly(s, e)
  {
    hide Steps.Core, Steps.WriterFits, Steps.ReaderFits, Cut, Below;
  }

  /**
    A sync on its own puts on disk the data from the page of the mark up to the write offset, and moves the
    mark there; with a fault it changes neither.
  */
  lemma SyncAlone(s: State, ok: bool) returns (run: seq<Event>)
    requires Inv(s) && s.sync.Idle? && s.mark <= s.mem.w.data <= |s.mem.buffer|
    ensures CanRun(s, run)
    ensures
      var e := After(s, run);
      && e == s.(mark := if ok then s.mem.w.data else s.mark, disk := e.disk)
      && if ok then DataFlushed(s.disk, s.mem.buffer, s.mark, s.mem.w.data, s.page, e.disk) else e.disk == s.disk
  {
    hide Steps.Inv, CanRun, After, PageDiff, Below, Cut;
    NoRun(s);
    Extend(s, [], LoadEnd);
    assert [] + [LoadEnd] == [LoadEnd];
    Extend(s, [LoadEnd], Msync(ok));
    run := [LoadEnd] + [Msync(ok)];
    if ok {
      PageStart(s.mark, s.page);
      Extend(s, run, MoveMark);
      run := run + [MoveMark];
    }
  }

  // A sync in the middle of a write.

  lemma {:induction false} RunsOn(s: State, a: seq<Event>, b: seq<Event>)
    requires CanRun(s, a) && CanRun(After(s, a), b)
    ensures CanRun(s, a + b) && After(s, a + b) == After(After(s, a), b)
    decreases |a|
  {
    hide Enabled, Next;
    if a == [] {
      assert a + b == b;
    } else {
      RunsOn(Next(s, a[0]), a[1..], b);
      assert (a + b)[0] == a[0] && (a + b)[1..] == a[1..] + b;
    }
  }

  lemma OneStep(s: State, e: Event)
    requires Enabled(s, e)
    ensures CanRun(s, [e]) && After(s, [e]) == Next(s, e)
  {
    hide Enabled, Next;
    assert [e][1..] == [];
    assert CanRun(Next(s, e), []);
  }

  /** The writer of an open claim can do its stores; nothing else changes. */
  lemma {:induction false} Finishes(s: State, t: nat, i: nat) returns (run: seq<Event>)
    requires Steps.Inv(s.mem) && t in s.mem.writers && s.mem.writers[t] == Steps.Storing(i)
    ensures CanRun(s, run)
    ensures
      var e := After(s, run);
      && Steps.Inv(e.mem) && i < |s.mem.claims| == |e.mem.claims| && e.mem.claims[i].Complete()
      && e.mem.claims[i].payload == s.mem.claims[i].payload && e.mem.claims[i].at == s.mem.claims[i].at
      && e.mem.readers == s.mem.readers && e.mark == s.mark && e.disk == s.disk
    decreases if i < |s.mem.claims| then s.mem.claims[i].Total() - s.mem.claims[i].done else 0
  {
    hide Steps.Core, Steps.Attended, Steps.ReaderFits, Steps.FrameStore, CanRun, After;
    assert Steps.WriterFits(s.mem.claims, s.mem.eos, t, s.mem.writers[t]);
    Steps.Bounded(s.mem);
    Steps.FrameStoreKeeps(s.mem, t, i);
    var e := Mem(Steps.Store(t));
    var next := Next(s, e);
    OneStep(s, e);
    if next.mem.claims[i].Complete() {
      run := [e];
    } else {
      var rest := Finishes(next, t, i);
      run := [e] + rest;
      RunsOn(s, [e], rest);
    }
  }

  /** One load of a reader on its way to a readable frame. */
  lemma OneLoad(s: State, r: nat, i: nat)
    requires Steps.Inv(s.mem) && r in s.mem.readers && !s.mem.readers[r].Starting?
    requires Steps.Readable(s.mem, i) && Steps.OnWay(s.mem, s.mem.readers[r], i)
    ensures Enabled(s, Mem(Steps.Read(r)))
    ensures
      var next := Next(s, Mem(Steps.Read(r)));
      && next == s.(mem := next.mem) && Steps.Inv(next.mem) && next.mem.claims == s.mem.claims
      && r in next.mem.readers && !next.mem.readers[r].Starting? && Steps.OnWay(next.mem, next.mem.readers[r], i)
      && (Steps.LoadsLeft(s.mem.readers[r]) > 0 ==>
            Steps.LoadsLeft(next.mem.readers[r]) == Steps.LoadsLeft(s.mem.readers[r]) - 1)
  {
    hide Steps.Core, Steps.Attended, Steps.WriterFits;
    assert Steps.ReaderFits(s.mem.claims, s.mem.readers[r]);
    Steps.LoadStaysOnWay(s.mem, s.mem.readers[r], i);
    Steps.NextKeeps(s.mem, Steps.Read(r));
  }

  /** A reader on its way gets there. */
  lemma {:induction false} Arrives(s: State, r: nat, i: nat) returns (run: seq<Event>)
    requires Steps.Inv(s.mem) && r in s.mem.readers && !s.mem.readers[r].Starting?
    requires Steps.Readable(s.mem, i) && Steps.OnWay(s.mem, s.mem.readers[r], i)
    ensures CanRun(s, run)
    ensures
      var e := After(s, run);
      && e == s.(mem := e.mem) && e.mem.claims == s.mem.claims && r in e.mem.readers && i < |s.mem.claims|
      && e.mem.readers[r] ==
           Steps.Returned(i, Steps.Got(s.mem.claims[i].at + HEADER_SIZE, |s.mem.claims[i].payload|))
    decreases if r in s.mem.readers then Steps.LoadsLeft(s.mem.readers[r]) else 0
  {
    hide Steps.Inv, Enabled, Next;
    if s.mem.readers[r].Returned? {
      run := [];
    } else {
      var e := Mem(Steps.Read(r));
      OneLoad(s, r, i);
      OneStep(s, e);
      var rest := Arrives(Next(s, e), r, i);
      run := [e] + rest;
      RunsOn(s, [e], rest);
    }
  }

  /** A new segment, and nothing of it on disk but zeros. */
  function Fresh(): State {
    State(Steps.Start(Created(4096).buffer, Created(4096).index, []), 0, Zeroed(4096).data, Idle, 4096)
  }

  lemma FreshIsSound()
    ensures Inv(Fresh()) && Durable(Fresh())
  {
    hide IsHeader, Steps.Inv;
    CreatedOnFile(4096);
    Steps.StartKeeps(Created(4096).buffer, Created(4096).index, []);
    SerialIs(Fresh().mem);
  }

  lemma SerialIs(m: Steps.State)
    requires Steps.Serial(m)
    ensures Steps.Inv(m)
  {
  }

  lemma Extend(s: State, run: seq<Event>, e: Event)
    requires CanRun(s, run) && Enabled(After(s, run), e)
    ensures CanRun(s, run + [e]) && After(s, run + [e]) == Next(After(s, run), e)
  {
    hide Enabled, Next;
    OneStep(After(s, run), e);
    RunsOn(s, run, [e]);
  }

  lemma ExtendMem(s: State, run: seq<Event>, x: Steps.Event)
    requires CanRun(s, run) && Enabled(After(s, run), Mem(x)) && Steps.Inv(After(s, run).mem)
    ensures CanRun(s, run + [Mem(x)]) && After(s, run + [Mem(x)]) == Next(After(s, run), Mem(x))
    ensures Steps.Inv(After(s, run + [Mem(x)]).mem)
  {
    hide Steps.Inv, Steps.Next, Steps.Enabled, CanRun, After;
    Extend(s, run, Mem(x));
    Steps.NextKeeps(After(s, run).mem, x);
  }

  /** The claim of a frame with one byte. */
  lemma ClaimsOne() returns (run: seq<Event>)
    ensures CanRun(Fresh(), run)
    ensures
      var e := After(Fresh(), run);
      && Steps.Inv(e.mem) && e.mem.claims == [Steps.Claim(0, 0, [1], 0)] && e.mem.readers == map[]
      && 0 in e.mem.writers && e.mem.writers[0] == Steps.Storing(0)
      && e.mem.w == Position(1, 13) && e == Fresh().(mem := e.mem) && e.mem.buffer == Fresh().mem.buffer
  {
    hide Steps.Inv, CanRun, After, Zeroed;
    FreshIsSound();
    var s := Fresh();
    StartsEmpty();
    NoRun(s);
    run := [];
    ExtendMem(s, run, Steps.Probe(0, [1]));
    run := run + [Mem(Steps.Probe(0, [1]))];
    ExtendMem(s, run, Steps.ReadMark(0));
    run := run + [Mem(Steps.ReadMark(0))];
    ExtendMem(s, run, Steps.Load(0));
    run := run + [Mem(Steps.Load(0))];
    ExtendMem(s, run, Steps.TryClaim(0));
    run := run + [Mem(Steps.TryClaim(0))];
  }

  lemma NoRun(s: State)
    ensures CanRun(s, []) && After(s, []) == s
  {
  }

  lemma StartsEmpty()
    ensures Fresh().mem.claims == [] && Fresh().mem.w == Position(0, 0) && !Fresh().mem.eos
    ensures |Fresh().mem.buffer| == 4096 && |Fresh().mem.index| > 0 && Fresh().mem.buffer == Fresh().disk
    ensures Fresh().mem.writers == map[] && Fresh().mem.readers == map[]
  {
  }

  lemma FlushedSame<T>(a: seq<T>, from: nat, to: nat)
    requires from <= to <= |a|
    ensures Flushed(a, a, from, to) == a
  {
  }

  /** And a whole sync before the first of its stores. */
  lemma SyncsEarly() returns (run: seq<Event>)
    ensures CanRun(Fresh(), run)
    ensures
      var e := After(Fresh(), run);
      && Steps.Inv(e.mem) && e.mem.claims == [Steps.Claim(0, 0, [1], 0)] && e.mem.readers == map[]
      && 0 in e.mem.writers && e.mem.writers[0] == Steps.Storing(0) && e.mark == 13 && e.disk == Fresh().disk
  {
    hide Steps.Inv, CanRun, After, Zeroed, PageDiff, Flushed, Fresh;
    run := ClaimsOne();
    var s := Fresh();
    StartsEmpty();
    FreshPage();
    Extend(s, run, LoadEnd);
    run := run + [LoadEnd];
    FlushedSame(s.disk, From(After(s, run)), 13);
    Extend(s, run, Msync(true));
    run := run + [Msync(true)];
    Extend(s, run, MoveMark);
    run := run + [MoveMark];
  }

  lemma FreshPage()
    ensures Fresh().page == 4096 && Fresh().mark == 0 && Fresh().sync.Idle?
  {
  }

  /** The read, after the stores. */
  lemma ReadsFrame(s: State) returns (run: seq<Event>)
    requires Steps.Inv(s.mem) && 0 !in s.mem.readers && Steps.Readable(s.mem, 0) && s.mem.claims[0].at < s.mark
    ensures CanRun(s, run)
    ensures
      var e := After(s, run);
      && e.disk == s.disk && e.mem.claims == s.mem.claims && 0 in e.mem.readers
      && e.mem.readers[0] ==
           Steps.Returned(0, Steps.Got(s.mem.claims[0].at + HEADER_SIZE, |s.mem.claims[0].payload|))
  {
    hide Steps.Inv, CanRun, After;
    NoRun(s);
    var begin := Mem(Steps.Begin(0, 0));
    ExtendMem(s, [], Steps.Begin(0, 0));
    assert [] + [begin] == [begin];
    var s1 := After(s, [begin]);
    Extend(s, [begin], Boundary(0));
    BoundaryInv(s1, 0);
    var s2 := Next(s1, Boundary(0));
    var rest := Arrives(s2, 0, 0);
    RunsOn(s, [begin] + [Boundary(0)], rest);
    run := [begin] + [Boundary(0)] + rest;
  }

  lemma BoundaryInv(s: State, r: nat)
    requires Steps.Inv(s.mem) && Enabled(s, Boundary(r))
    ensures Steps.Inv(Next(s, Boundary(r)).mem)
  {
    hide Steps.Core, Steps.Attended, Steps.WriterFits;
    Steps.ReaderKeeps(s.mem, r, Steps.HasBoundary(s.mem.readers[r].relative, s.mark));
  }

  /**
    A run in which a sync passes a frame between its claim and its stores: a committed read hands it out,
    and it is not on disk. No msync fails in it.
  */
  lemma SyncRaces() returns (run: seq<Event>)
    ensures Inv(Fresh()) && Durable(Fresh()) && CanRun(Fresh(), run)
    ensures
      var e := After(Fresh(), run);
      && 0 in e.mem.readers && e.mem.readers[0].Returned? && e.mem.readers[0].outcome.Got?
      && e.mem.claims != [] && e.mem.claims[0].payload == [1] && e.mem.claims[0].Complete()
      && !GotIsOnDisk(e, 0)
  {
    hide Steps.Inv, CanRun, After, Inv, Durable, Fresh;
    FreshIsSound();
    var early := SyncsEarly();
    var s1 := After(Fresh(), early);
    var stores := Finishes(s1, 0, 0);
    var s2 := After(s1, stores);
    var loads := ReadsFrame(s2);
    RunsOn(s1, stores, loads);
    RunsOn(Fresh(), early, stores + loads);
    run := early + (stores + loads);
    DiskIsZero();
  }

  lemma DiskIsZero()
    ensures |Fresh().disk| == 4096 && Fresh().disk[12..13] == [0]
  {
  }
}
