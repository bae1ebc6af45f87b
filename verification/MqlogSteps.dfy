/**
  The log of src/mqlog.c by single steps. The mutex is released before a segment is read, so that the
  segment can end, and others follow it, while a reader is at its loads. Readers find the segment of an
  offset under the mutex, in one step; all else in a segment is as in `SegmentSteps`.
*/
module MqlogSteps {
  import opened Prot
  import opened SegmentLayout
  import Layout = MqlogLayout
  import Steps = SegmentSteps

  /** A segment and the offset of its first entry. */
  datatype Member = Member(base: nat, state: Steps.State)

  datatype Event =
    | Step(g: nat, event: Steps.Event)  // of a writer or a reader in segment `g`
    | Roll(size: nat)                   // a new segment is created after the last one
    | Find(r: nat, offset: nat)         // a reader finds its segment and begins to read there

  /** segment_write_offset of the last segment. */
  function NextBase(log: seq<Member>): nat {
    if log == [] then 0 else log[|log| - 1].base + log[|log| - 1].state.w.index
  }

  /** The last segment whose base is not above an offset. */
  function Floor(log: seq<Member>, k: nat): (g: nat)
    requires log != [] && log[0].base == 0
    ensures g < |log| && log[g].base <= k && forall h | g < h < |log| :: k < log[h].base
  {
    var n := |log| - 1;
    if log[n].base <= k then n else
      assert log[..n][0] == log[0];
      Floor(log[..n], k)
  }

  predicate Based(log: seq<Member>) {
    log != [] ==> log[0].base == 0
  }

  /** A swap that claims nothing. */
  predicate SwapFails(s: Steps.State, x: Steps.Event) {
    x.TryClaim? && Steps.WriterOf(s, x.t).Loaded? ==> s.w != Steps.WriterOf(s, x.t).curr
  }

  /**
    Writers hold the mutex and go to the last segment, so that nothing is claimed in an earlier one. When
    a segment is left, it has ended, or looks as if it had; that it is not empty is all that matters.
  */
  predicate Enabled(log: seq<Member>, e: Event) {
    match e
    case Step(g, x) =>
      && g < |log| && !x.Begin? && Steps.Enabled(log[g].state, x)
      && (g + 1 < |log| ==> SwapFails(log[g].state, x))
    case Roll(size) => HEADER_SIZE <= size < WORD && (log != [] ==> log[|log| - 1].state.claims != [])
    case Find(r, k) =>
      && log != [] && Based(log)
      && var g := Floor(log, k);
      Steps.Enabled(log[g].state, Steps.Begin(r, k - log[g].base))
  }

  function NewSegment(size: nat): Steps.State {
    Steps.Start(Created(size).buffer, Created(size).index, [])
  }

  function Stepped(log: seq<Member>, g: nat, x: Steps.Event): seq<Member>
    requires g < |log| && Steps.Enabled(log[g].state, x)
  {
    log[g := log[g].(state := Steps.Next(log[g].state, x))]
  }

  function Next(log: seq<Member>, e: Event): seq<Member>
    requires Enabled(log, e)
  {
    match e
    case Step(g, x) => Stepped(log, g, x)
    case Roll(size) => log + [Member(NextBase(log), NewSegment(size))]
    case Find(r, k) =>
      var g := Floor(log, k);
      Stepped(log, g, Steps.Begin(r, k - log[g].base))
  }

  /** Segments are sound, and each begins where the one before it was left. */
  ghost predicate Inv(log: seq<Member>) {
    && Based(log)
    && (forall g | 0 <= g < |log| :: Steps.Inv(log[g].state))
    && (forall g {:trigger Follows(log, g)} | 0 <= g < |log| - 1 :: Follows(log, g))
  }

  ghost predicate Follows(log: seq<Member>, g: nat)
    requires g + 1 < |log|
  {
    && log[g].state.claims != []
    && log[g + 1].base == log[g].base + |log[g].state.claims|
  }

  /** Without a swap that succeeds nothing is claimed. */
  lemma NothingClaimed(s: Steps.State, x: Steps.Event)
    requires Steps.Inv(s) && Steps.Enabled(s, x) && SwapFails(s, x)
    ensures |Steps.Next(s, x).claims| == |s.claims|
  {
    hide Steps.Core, Steps.FrameStore, Steps.EosStore, Steps.AfterLoad, Steps.Attended, Steps.ReaderFits;
  }

  lemma WrittenIs(s: Steps.State)
    requires Steps.Inv(s)
    ensures s.w.index == |s.claims|
  {
    hide Steps.Progress, Steps.Attended, Steps.WriterFits, Steps.ReaderFits;
  }

  /** Segments are added, their bases stay, and claims are only added. */
  ghost predicate Grows(log: seq<Member>, after: seq<Member>) {
    && |log| <= |after|
    && forall g | 0 <= g < |log| ::
        after[g].base == log[g].base && Steps.Grows(log[g].state.claims, after[g].state.claims)
  }

  lemma SteppedKeeps(log: seq<Member>, g: nat, x: Steps.Event)
    requires Inv(log) && g < |log| && Steps.Enabled(log[g].state, x)
    requires g + 1 < |log| ==> SwapFails(log[g].state, x)
    ensures Inv(Stepped(log, g, x)) && Grows(log, Stepped(log, g, x))
  {
    hide Steps.Inv, Steps.Enabled, Steps.Next, Steps.Grows;
    var after := Stepped(log, g, x);
    Steps.NextKeeps(log[g].state, x);
    forall h | 0 <= h < |log| ensures Steps.Grows(log[h].state.claims, after[h].state.claims) {
      CoreOf(log[h].state);
      Steps.GrowsSelf(log[h].state);
    }
    forall h | 0 <= h < |log| - 1 ensures Follows(after, h) {
      assert Follows(log, h);
      if h == g {
        NothingClaimed(log[g].state, x);
        assert log[g].state.claims != [];
      }
    }
  }

  lemma CoreOf(s: Steps.State)
    requires Steps.Inv(s)
    ensures Steps.Core(s)
  {
  }

  lemma RollKeeps(log: seq<Member>, size: nat)
    requires Inv(log) && Enabled(log, Roll(size))
    ensures Inv(Next(log, Roll(size))) && Grows(log, Next(log, Roll(size)))
  {
    hide Steps.Inv, Steps.Grows, Created;
    var after := Next(log, Roll(size));
    CreatedOnFile(size);
    Steps.StartKeeps(Created(size).buffer, Created(size).index, []);
    SerialIs(NewSegment(size));
    forall h | 0 <= h < |log| ensures Steps.Grows(log[h].state.claims, after[h].state.claims) {
      CoreOf(log[h].state);
      Steps.GrowsSelf(log[h].state);
    }
    forall h | 0 <= h < |log| ensures Follows(after, h) {
      if h < |log| - 1 {
        assert Follows(log, h);
      } else {
        WrittenIs(log[h].state);
      }
    }
  }

  lemma SerialIs(s: Steps.State)
    requires Steps.Serial(s)
    ensures Steps.Inv(s)
  {
  }

  /** Every step of any writer or reader in any segment, and every rollover, keeps the tiling. */
  lemma NextKeeps(log: seq<Member>, e: Event)
    requires Inv(log) && Enabled(log, e)
    ensures Inv(Next(log, e)) && Grows(log, Next(log, e))
  {
    hide Inv, Grows, Stepped, Steps.Enabled, Steps.Next;
    match e
    case Step(g, x) => SteppedKeeps(log, g, x);
    case Roll(size) => RollKeeps(log, size);
    case Find(r, k) =>
      var g := Floor(log, k);
      SteppedKeeps(log, g, Steps.Begin(r, k - log[g].base));
  }

  // Runs.

  ghost predicate CanRun(log: seq<Member>, run: seq<Event>)
    decreases |run|
  {
    run == [] || (Enabled(log, run[0]) && CanRun(Next(log, run[0]), run[1..]))
  }

  ghost function After(log: seq<Member>, run: seq<Event>): seq<Member>
    requires CanRun(log, run)
    decreases |run|
  {
    if run == [] then log else After(Next(log, run[0]), run[1..])
  }

  /** What an event does in segment `g`: one step there, or none. */
  function Here(log: seq<Member>, e: Event, g: nat): (steps: seq<Steps.Event>)
    requires Enabled(log, e) && g < |log|
    ensures |steps| <= 1
  {
    match e
    case Step(h, x) => if h == g then [x] else []
    case Roll(_) => []
    case Find(r, k) =>
      var h := Floor(log, k);
      if h == g then [Steps.Begin(r, k - log[h].base)] else []
  }

  /** The steps of a run in segment `g`. */
  ghost function StepsIn(log: seq<Member>, run: seq<Event>, g: nat): seq<Steps.Event>
    requires CanRun(log, run) && g < |log|
    decreases |run|
  {
    if run == [] then [] else
      StepIs(log, run[0], g);
      Here(log, run[0], g) + StepsIn(Next(log, run[0]), run[1..], g)
  }

  lemma StepIs(log: seq<Member>, e: Event, g: nat)
    requires Enabled(log, e) && g < |log|
    ensures |log| <= |Next(log, e)| && Next(log, e)[g].base == log[g].base
    ensures
      var steps := Here(log, e, g);
      && (steps == [] ==> Next(log, e)[g].state == log[g].state)
      && (steps != [] ==>
            Steps.Enabled(log[g].state, steps[0]) && Next(log, e)[g].state == Steps.Next(log[g].state, steps[0]))
  {
    hide Steps.Enabled, Steps.Next;
  }

  /** A run of the log, looked at in one segment, is a run of that segment. */
  lemma {:induction false} RunsInSegment(log: seq<Member>, run: seq<Event>, g: nat)
    requires CanRun(log, run) && g < |log|
    ensures Steps.CanRun(log[g].state, StepsIn(log, run, g))
    ensures |log| <= |After(log, run)| && After(log, run)[g].base == log[g].base
    ensures After(log, run)[g].state == Steps.After(log[g].state, StepsIn(log, run, g))
    decreases |run|
  {
    hide Enabled, Next, Here, Steps.Enabled, Steps.Next;
    if run != [] {
      StepIs(log, run[0], g);
      var next, rest := Next(log, run[0]), StepsIn(Next(log, run[0]), run[1..], g);
      RunsInSegment(next, run[1..], g);
      var steps := Here(log, run[0], g);
      if steps == [] {
        assert StepsIn(log, run, g) == rest;
      } else {
        assert StepsIn(log, run, g)[0] == steps[0] && StepsIn(log, run, g)[1..] == rest;
      }
    }
  }

  lemma {:induction false} RunKeeps(log: seq<Member>, run: seq<Event>)
    requires Inv(log) && CanRun(log, run)
    ensures Inv(After(log, run))
    decreases |run|
  {
    hide Inv, Enabled, Next;
    if run != [] {
      NextKeeps(log, run[0]);
      RunKeeps(Next(log, run[0]), run[1..]);
    }
  }

  // Offsets.

  /** Entry `k` of the log is claimed in segment `g`. */
  predicate Has(log: seq<Member>, g: nat, k: nat) {
    g < |log| && log[g].base <= k < log[g].base + |log[g].state.claims|
  }

  lemma {:induction false} BasesAscend(log: seq<Member>, g: nat, h: nat)
    requires Inv(log) && g < h < |log|
    ensures log[g].base + |log[g].state.claims| <= log[h].base
    decreases h
  {
    hide Steps.Inv;
    assert Follows(log, h - 1);
    if g + 1 < h {
      BasesAscend(log, g, h - 1);
    }
  }

  /** No offset is claimed twice. */
  lemma OneSegment(log: seq<Member>, g: nat, h: nat, k: nat)
    requires Inv(log) && Has(log, g, k) && Has(log, h, k)
    ensures g == h
  {
    hide Inv;
    if g < h {
      BasesAscend(log, g, h);
    } else if h < g {
      BasesAscend(log, h, g);
    }
  }

  /** Every offset below the next base is claimed in its floor segment, and none above is. */
  lemma FloorHas(log: seq<Member>, k: nat)
    requires Inv(log) && log != []
    ensures Has(log, Floor(log, k), k) <==> k < NextBase(log)
  {
    hide Steps.Inv;
    var g, n := Floor(log, k), |log| - 1;
    WrittenIs(log[n].state);
    if g < n {
      assert Follows(log, g);
      if g + 1 < n {
        BasesAscend(log, g + 1, n);
      }
    }
  }

  ghost predicate OnlyIn(log: seq<Member>, g: nat, k: nat) {
    Has(log, g, k) && forall h | Has(log, h, k) :: h == g
  }

  /** What a reader has got is, in the buffer as it is, all of payload `p`, the one of offset `k`. */
  ghost predicate HandsOut(log: seq<Member>, g: nat, k: nat, got: Steps.Outcome, p: Payload)
    requires got.Got?
  {
    && OnlyIn(log, g, k) && log[g].state.claims[k - log[g].base].payload == p
    && got.length == |p| && got.at + got.length <= |log[g].state.buffer|
    && log[g].state.buffer[got.at..got.at + got.length] == p
  }

  /**
    A read that returned a length handed out exactly the payload of its offset, complete; so it stays
    through all that follows, rollovers included, and the offset is never another segment's.
  */
  lemma LogNeverTorn(log: seq<Member>, run: seq<Event>, g: nat, r: nat)
    requires Inv(log) && CanRun(log, run) && g < |log| && r in log[g].state.readers
    requires log[g].state.readers[r].Returned? && log[g].state.readers[r].outcome.Got?
    ensures log[g].state.readers[r].relative < |log[g].state.claims|
    ensures
      var x := log[g].state.readers[r];
      HandsOut(After(log, run), g, log[g].base + x.relative, x.outcome, log[g].state.claims[x.relative].payload)
  {
    hide Inv, Enabled, Next, Steps.Core, Steps.Attended, Steps.WriterFits;
    RunsInSegment(log, run, g);
    SegmentSound(log, g);
    var s, steps := log[g].state, StepsIn(log, run, g);
    Steps.NeverTorn(s, steps, r);
    Steps.RunKeeps(s, steps);
    RunKeeps(log, run);
    var e := After(log, run);
    var k := log[g].base + s.readers[r].relative;
    forall h | Has(e, h, k) ensures h == g {
      OneSegment(e, g, h, k);
    }
  }

  lemma SegmentSound(log: seq<Member>, g: nat)
    requires Inv(log) && g < |log|
    ensures Steps.Inv(log[g].state)
  {
  }

  /**
    A read that finds its segment when the frame of its offset is readable returns that frame, after five
    loads, whatever writers do and however many segments follow in between.
  */
  lemma FoundIsRead(log: seq<Member>, run: seq<Event>, r: nat, k: nat)
    requires Inv(log) && Enabled(log, Find(r, k)) && CanRun(Next(log, Find(r, k)), run)
    requires
      var g := Floor(log, k);
      && Steps.Readable(log[g].state, k - log[g].base) && g < |Next(log, Find(r, k))|
      && var steps := StepsIn(Next(log, Find(r, k)), run, g);
      Steps.OneRead(steps, r) && Steps.Loads(steps, r) >= 5
    ensures
      var (g, e) := (Floor(log, k), After(Next(log, Find(r, k)), run));
      && Has(log, g, k) && g < |e| && r in e[g].state.readers
      && var c := log[g].state.claims[k - log[g].base];
      e[g].state.readers[r] == Steps.Returned(k - log[g].base, Steps.Got(c.at + HEADER_SIZE, |c.payload|))
  {
    hide Inv, Steps.Inv, Steps.Loads, Steps.OneRead, StepsIn, CanRun, Steps.Readable, Steps.Next, Steps.Enabled,
      Steps.CanRun, Steps.After, After;
    var g, next := Floor(log, k), Next(log, Find(r, k));
    NextKeeps(log, Find(r, k));
    SegmentSound(next, g);
    RunsInSegment(next, run, g);
    BeginsOnWay(log[g].state, r, k - log[g].base);
    Steps.ReadableIsRead(next[g].state, StepsIn(next, run, g), r, k - log[g].base);
  }

  /**
    What a read of the log refuses, in every run: it finds an invalid header only at the first offset of a
    segment, once that is claimed, and nothing at an offset that is not claimed there.
  */
  lemma LogRefusals(log: seq<Member>, run: seq<Event>, g: nat, r: nat)
    requires Inv(log) && CanRun(log, run) && g < |After(log, run)| && r in After(log, run)[g].state.readers
    requires After(log, run)[g].state.readers[r].Returned?
    ensures
      var (e, x) := (After(log, run), After(log, run)[g].state.readers[r]);
      && (x.outcome.Invalid? ==> x.relative == 0 && Has(e, g, e[g].base))
      && (!Has(e, g, e[g].base + x.relative) ==> x.outcome == Steps.Nothing)
  {
    hide Inv, Steps.Inv, CanRun, After;
    RunKeeps(log, run);
    var s := After(log, run)[g].state;
    SegmentSound(After(log, run), g);
    StaysThere(s);
    Steps.Refusals(s, [], r);
  }

  lemma StaysThere(s: Steps.State)
    ensures Steps.CanRun(s, []) && Steps.After(s, []) == s
  {
  }

  /**
    A read of an offset that the log has not reached when two of its loads are done has found nothing,
    whatever was written and however many segments followed in between.
  */
  lemma BeyondIsRefused(log: seq<Member>, run: seq<Event>, r: nat, k: nat)
    requires Inv(log) && Enabled(log, Find(r, k)) && CanRun(Next(log, Find(r, k)), run)
    requires NextBase(After(Next(log, Find(r, k)), run)) <= k
    requires
      var g := Floor(log, k);
      && g < |Next(log, Find(r, k))|
      && var steps := StepsIn(Next(log, Find(r, k)), run, g);
      Steps.OneRead(steps, r) && Steps.Loads(steps, r) >= 2
    ensures
      var (g, e) := (Floor(log, k), After(Next(log, Find(r, k)), run));
      g < |e| && r in e[g].state.readers && e[g].state.readers[r] == Steps.Returned(k - log[g].base, Steps.Nothing)
  {
    hide Inv, Steps.Inv, Steps.Loads, Steps.OneRead, StepsIn, CanRun, Steps.Next, Steps.Enabled, Steps.CanRun,
      Steps.After, After;
    var g, next := Floor(log, k), Next(log, Find(r, k));
    NextKeeps(log, Find(r, k));
    RunKeeps(next, run);
    SegmentSound(next, g);
    RunsInSegment(next, run, g);
    BeginsThere(log[g].state, r, k - log[g].base);
    BelowEnd(After(next, run), g);
    Steps.UnclaimedIsRefused(next[g].state, StepsIn(next, run, g), r, k - log[g].base);
  }

  lemma BeginsThere(s: Steps.State, r: nat, i: nat)
    requires Steps.Enabled(s, Steps.Begin(r, i))
    ensures var next := Steps.Next(s, Steps.Begin(r, i)); r in next.readers && next.readers[r] == Steps.Starting(i)
  {
  }

  /** The claims of a segment stay below the next base of the log. */
  lemma BelowEnd(log: seq<Member>, g: nat)
    requires Inv(log) && g < |log|
    ensures log[g].base + |log[g].state.claims| <= NextBase(log)
  {
    hide Steps.Inv;
    var n := |log| - 1;
    WrittenIs(log[n].state);
    if g < n {
      BasesAscend(log, g, n);
    }
  }

  lemma BeginsOnWay(s: Steps.State, r: nat, i: nat)
    requires Steps.Enabled(s, Steps.Begin(r, i)) && Steps.Readable(s, i)
    ensures
      var next := Steps.Next(s, Steps.Begin(r, i));
      && r in next.readers && Steps.OnWay(next, next.readers[r], i) && Steps.Readable(next, i) && i < |s.claims|
      && next.claims == s.claims && next.readers[r] == Steps.Starting(i)
  {
  }

  // A write on its own.

  /** Steps of writers in segment `g`, as events of the log. */
  function InSegment(g: nat, steps: seq<Steps.Event>): (run: seq<Event>)
    ensures |run| == |steps|
  {
    seq(|steps|, k requires 0 <= k < |steps| => Step(g, steps[k]))
  }

  /** What writers can do in the last segment, they can do in the log. */
  lemma {:induction false} RunsInLog(log: seq<Member>, steps: seq<Steps.Event>)
    requires log != [] && Steps.CanRun(log[|log| - 1].state, steps) && Steps.OnlyWrites(steps)
    ensures
      var n := |log| - 1;
      && CanRun(log, InSegment(n, steps))
      && After(log, InSegment(n, steps)) == log[n := log[n].(state := Steps.After(log[n].state, steps))]
    decreases |steps|
  {
    hide Steps.Enabled, Steps.Next;
    var n := |log| - 1;
    var run := InSegment(n, steps);
    if steps == [] {
      assert run == [] && log[n := log[n].(state := log[n].state)] == log;
    } else {
      assert run[0] == Step(n, steps[0]) && run[1..] == InSegment(n, steps[1..]);
      assert forall k | 0 <= k < |steps| - 1 :: steps[1..][k] == steps[k + 1];
      RunsInLog(Next(log, run[0]), steps[1..]);
    }
  }

  lemma {:induction false} RunsOn(log: seq<Member>, a: seq<Event>, b: seq<Event>)
    requires CanRun(log, a) && CanRun(After(log, a), b)
    ensures CanRun(log, a + b) && After(log, a + b) == After(After(log, a), b)
    decreases |a|
  {
    hide Enabled, Next;
    if a == [] {
      assert a + b == b;
    } else {
      RunsOn(Next(log, a[0]), a[1..], b);
      assert (a + b)[0] == a[0] && (a + b)[1..] == a[1..] + b;
    }
  }

  lemma OneEvent(log: seq<Member>, e: Event)
    requires Enabled(log, e)
    ensures CanRun(log, [e]) && After(log, [e]) == Next(log, e)
  {
    hide Enabled, Next;
    assert [e][1..] == [] && CanRun(Next(log, e), []);
  }

  /** The last segment is at rest, or the log has none. */
  ghost predicate AtRest(log: seq<Member>) {
    log != [] ==> Steps.Quiet(log[|log| - 1].state)
  }

  /** The last entry of the log is `p`. */
  predicate EndsWith(log: seq<Member>, p: Payload) {
    && log != []
    && var s := log[|log| - 1].state;
    s.claims != [] && s.claims[|s.claims| - 1].Complete() && s.claims[|s.claims| - 1].payload == p
  }

  /** A write to the last segment, which takes the payload. */
  lemma WriteHere(log: seq<Member>, t: nat, p: Payload) returns (run: seq<Event>)
    requires Inv(log) && AtRest(log) && log != []
    requires
      var s := log[|log| - 1].state;
      s.w.index < |s.index| && !MarkedEos(Steps.Sequential(s)) && Fits(Steps.Sequential(s), |p|)
    ensures CanRun(log, run)
    ensures EndsWith(After(log, run), p) && NextBase(After(log, run)) == NextBase(log) + 1
  {
    hide Inv, Steps.Serial, CanRun, After, Steps.CanRun, Steps.After, Flags, PutFrame, Steps.CanRunSerially;
    var n := |log| - 1;
    var s := log[n].state;
    var steps := Steps.WriteAlone(s, t, p);
    RunsInLog(log, steps);
    run := InSegment(n, steps);
    RunKeeps(log, run);
    SegmentSound(After(log, run), n);
    var e := Steps.After(s, steps);
    assert Steps.Payloads(e.claims) == Steps.Payloads(s.claims) + [p];
    RestsComplete(e);
  }

  /** Without a writer at work every claim is complete. */
  lemma RestsComplete(s: Steps.State)
    requires Steps.Inv(s) && forall t | t in s.writers :: s.writers[t].Idle?
    ensures forall i | 0 <= i < |s.claims| :: s.claims[i].Complete()
  {
    hide Steps.Core, Steps.WriterFits, Steps.ReaderFits;
  }

  /** A write to a new segment after the last one. */
  lemma WriteNext(log: seq<Member>, size: nat, t: nat, p: Payload) returns (run: seq<Event>)
    requires Inv(log) && Enabled(log, Roll(size)) && 4096 <= size && |p| + 24 <= size
    ensures CanRun(log, run)
    ensures EndsWith(After(log, run), p) && NextBase(After(log, run)) == NextBase(log) + 1
  {
    hide Inv, Steps.Serial, CanRun, After, Steps.Start, Created, Flags;
    var rolled := Next(log, Roll(size));
    OneEvent(log, Roll(size));
    RollKeeps(log, size);
    NewIsQuiet(size);
    var rest := WriteHere(rolled, t, p);
    RunsOn(log, [Roll(size)], rest);
    run := [Roll(size)] + rest;
  }

  lemma NewIsQuiet(size: nat)
    requires 4096 <= size < WORD
    ensures Steps.Quiet(NewSegment(size)) && !MarkedEos(Steps.Sequential(NewSegment(size)))
    ensures NewSegment(size).w == Position(0, 0) && |NewSegment(size).buffer| == size && |NewSegment(size).index| > 0
  {
    hide Steps.Serial, Flags;
    CreatedOnFile(size);
    Steps.StartKeeps(Created(size).buffer, Created(size).index, []);
  }

  /**
    From a log at rest, a write of n bytes that fit into a segment can do all its steps, ending the last
    segment and creating one after it where that does not take the payload, and appends it as the next entry.
  */
  lemma WriteAppends(log: seq<Member>, size: nat, t: nat, p: Payload) returns (run: seq<Event>)
    requires Inv(log) && AtRest(log) && 4096 <= size < WORD && |p| + 24 <= size
    requires log != [] ==> log[|log| - 1].state.claims != []
    requires
      log != [] ==>
        var s := log[|log| - 1].state;
        !MarkedEos(Steps.Sequential(s)) && Fits(Steps.Sequential(s), |p|) ==> s.w.index < |s.index|
    ensures CanRun(log, run) && Grows(log, After(log, run))
    ensures EndsWith(After(log, run), p) && NextBase(After(log, run)) == NextBase(log) + 1
  {
    hide Inv, Steps.Serial, CanRun, After, Steps.CanRun, Steps.After, Flags, PutFrame, PutEos, Grows,
      Steps.CanRunSerially;
    if log == [] {
      run := WriteNext(log, size, t, p);
    } else {
      var n := |log| - 1;
      var s := log[n].state;
      if !MarkedEos(Steps.Sequential(s)) && Fits(Steps.Sequential(s), |p|) {
        run := WriteHere(log, t, p);
      } else {
        var steps := Steps.WriteAlone(s, t, p);
        RunsInLog(log, steps);
        var ended := After(log, InSegment(n, steps));
        RunKeeps(log, InSegment(n, steps));
        SameEntries(s, Steps.After(s, steps));
        var rest := WriteNext(ended, size, t, p);
        run := InSegment(n, steps) + rest;
        RunsOn(log, InSegment(n, steps), rest);
      }
    }
    RunGrows(log, run);
  }

  lemma SameEntries(s: Steps.State, e: Steps.State)
    requires Steps.Payloads(e.claims) == Steps.Payloads(s.claims)
    ensures |e.claims| == |s.claims|
  {
  }

  lemma {:induction false} RunGrows(log: seq<Member>, run: seq<Event>)
    requires Inv(log) && CanRun(log, run)
    ensures Grows(log, After(log, run))
    decreases |run|
  {
    hide Inv, Enabled, Next, Grows;
    if run == [] {
      GrowsSelf(log);
    } else {
      NextKeeps(log, run[0]);
      RunGrows(Next(log, run[0]), run[1..]);
      GrowsOn(log, Next(log, run[0]), After(log, run));
    }
  }

  lemma GrowsSelf(log: seq<Member>)
    requires Inv(log)
    ensures Grows(log, log)
  {
    hide Steps.Inv, Steps.Grows;
    forall g | 0 <= g < |log| ensures Steps.Grows(log[g].state.claims, log[g].state.claims) {
      CoreOf(log[g].state);
      Steps.GrowsSelf(log[g].state);
    }
  }

  lemma GrowsOn(a: seq<Member>, b: seq<Member>, c: seq<Member>)
    requires Grows(a, b) && Grows(b, c)
    ensures Grows(a, c)
  {
    hide Steps.Grows;
    forall g | 0 <= g < |a| ensures Steps.Grows(a[g].state.claims, c[g].state.claims) {
      Steps.GrowsOn(a[g].state.claims, b[g].state.claims, c[g].state.claims);
    }
  }

  // A log that was opened, to go on from.

  /** The segments that mqlog_open has found, before any step. */
  function Opened(parts: seq<Layout.Part>): seq<Member> {
    seq(|parts|, i requires 0 <= i < |parts| =>
      Member(parts[i].base, Steps.Start(parts[i].view.buffer, parts[i].view.index, parts[i].view.frames)))
  }

  lemma OpenedMember(v: View)
    requires WellFormed(v) && !v.eos
    ensures Steps.Inv(Steps.Start(v.buffer, v.index, v.frames)) && v.w.index == |v.frames|
    ensures Layout.Entries(v) == Layout.Records(v.frames)
  {
    hide Holds, Indexed, Steps.Inv;
    CloseLeaves(v);
    Steps.StartKeeps(v.buffer, v.index, v.frames);
    SerialIs(Steps.Start(v.buffer, v.index, v.frames));
  }

  /** What is claimed at an offset is the entry there. */
  ghost predicate ClaimsEntry(log: seq<Member>, contents: seq<Layout.Entry>, g: nat, k: nat) {
    && Has(log, g, k) && k < |contents|
    && contents[k] == Layout.Record(log[g].state.claims[k - log[g].base].payload)
  }

  /**
    Any log that was opened is a state to go on from, if no end marker alone is among its files, and every
    entry is claimed in the floor segment of its offset.
  */
  lemma OpenedKeeps(parts: seq<Layout.Part>)
    requires Layout.Tiles(parts) && forall i | 0 <= i < |parts| :: !parts[i].view.eos
    ensures Inv(Opened(parts)) && NextBase(Opened(parts)) == |Layout.Contents(parts)|
  {
    hide Steps.Inv, WellFormed, Layout.Contents, Layout.Entries;
    var log := Opened(parts);
    Layout.ContentsLength(parts);
    forall i | 0 <= i < |parts|
      ensures Steps.Inv(log[i].state) && parts[i].view.w.index == |log[i].state.claims| && Layout.TiledAt(parts, i)
    {
      assert Layout.TiledAt(parts, i);
      OpenedMember(parts[i].view);
      Claimed(parts[i].view);
    }
    forall g | 0 <= g < |log| - 1 ensures Follows(log, g) {
      assert Layout.TiledAt(parts, g) && Layout.TiledAt(parts, g + 1);
    }
  }

  lemma Claimed(v: View)
    ensures |Steps.Start(v.buffer, v.index, v.frames).claims| == |v.frames|
    ensures Steps.Payloads(Steps.Start(v.buffer, v.index, v.frames).claims) == v.frames
  {
  }

  lemma OpenedEntry(parts: seq<Layout.Part>, k: nat)
    requires Layout.Tiles(parts) && forall i | 0 <= i < |parts| :: !parts[i].view.eos
    requires k < |Layout.Contents(parts)|
    ensures parts != [] && Based(Opened(parts))
    ensures ClaimsEntry(Opened(parts), Layout.Contents(parts), Floor(Opened(parts), k), k)
  {
    hide Steps.Inv, WellFormed, Layout.Contents, Layout.Entries, Steps.Start, Inv;
    OpenedKeeps(parts);
    Layout.ContentsLength(parts);
    assert parts != [] ==> Layout.TiledAt(parts, 0);
    FloorHas(Opened(parts), k);
    var g := Floor(Opened(parts), k);
    assert Layout.TiledAt(parts, g);
    OpenedMember(parts[g].view);
    Claimed(parts[g].view);
    Layout.ContentsAt(parts, g, k - parts[g].base);
  }
}
