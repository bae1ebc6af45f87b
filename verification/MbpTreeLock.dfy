/**
  The two-field lock of src/mbptree.c as a system of steps: any number of appenders and lookups,
  each taking the lock by compare-and-swap. A lookup prepares its swap from a snapshot that may be
  stale by the time it swaps. The release of a lookup is taken as one step.
*/
module MbpTreeLock {
  datatype Lock = Lock(exclusive: nat, shared: nat)

  datatype Phase = Idle | Appending | Prepared(snapshot: Lock) | Descending

  datatype State = State(lock: Lock, threads: map<nat, Phase>)

  datatype Event =
    | TakeExclusive(t: nat)
    | ReleaseExclusive(t: nat)
    | Snapshot(t: nat)
    | TakeShared(t: nat)
    | ReleaseShared(t: nat)

  function PhaseOf(s: State, t: nat): Phase {
    if t in s.threads then s.threads[t] else Idle
  }

  predicate Enabled(s: State, e: Event) {
    match e
    case TakeExclusive(t) => PhaseOf(s, t).Idle?
    case ReleaseExclusive(t) => PhaseOf(s, t).Appending?
    case Snapshot(t) => PhaseOf(s, t).Idle?
    case TakeShared(t) => PhaseOf(s, t).Prepared?
    case ReleaseShared(t) => PhaseOf(s, t).Descending?
  }

  /** The value a lookup swaps in: its snapshot with one reader more, and the exclusive field as it was then. */
  function Shared(snapshot: Lock): Lock {
    Lock(snapshot.exclusive, snapshot.shared + 1)
  }

  function Next(s: State, e: Event): State
    requires Enabled(s, e)
  {
    match e
    case TakeExclusive(t) =>
      if s.lock == Lock(0, 0) then State(Lock(1, 0), s.threads[t := Appending]) else s
    case ReleaseExclusive(t) => State(Lock(0, 0), s.threads[t := Idle])
    case Snapshot(t) => s.(threads := s.threads[t := Prepared(s.lock)])
    case TakeShared(t) =>
      var was := s.threads[t].snapshot;
      if s.lock == Lock(0, was.shared) then State(Shared(was), s.threads[t := Descending])
      else s.(threads := s.threads[t := Idle])
    case ReleaseShared(t) =>
      State(s.lock.(shared := if s.lock.shared > 0 then s.lock.shared - 1 else 0xffff_ffff), s.threads[t := Idle])
  }

  ghost predicate CanRun(s: State, run: seq<Event>)
    decreases |run|
  {
    run == [] || (Enabled(s, run[0]) && CanRun(Next(s, run[0]), run[1..]))
  }

  ghost function After(s: State, run: seq<Event>): State
    requires CanRun(s, run)
    decreases |run|
  {
    if run == [] then s else After(Next(s, run[0]), run[1..])
  }

  const UNLOCKED := State(Lock(0, 0), map[])

  function Descenders(threads: map<nat, Phase>): set<nat> {
    set t | t in threads && threads[t].Descending?
  }

  function Appenders(threads: map<nat, Phase>): set<nat> {
    set t | t in threads && threads[t].Appending?
  }

  /** The shared field counts the descents; an append holds the whole lock. */
  ghost predicate Inv(s: State) {
    && s.lock.shared == |Descenders(s.threads)|
    && (Appenders(s.threads) != {} ==> s.lock == Lock(1, 0) && |Appenders(s.threads)| == 1)
  }

  lemma SetPhase(threads: map<nat, Phase>, t: nat, p: Phase)
    ensures Descenders(threads[t := p]) ==
        if p.Descending? then Descenders(threads) + {t} else Descenders(threads) - {t}
    ensures Appenders(threads[t := p]) == if p.Appending? then Appenders(threads) + {t} else Appenders(threads) - {t}
  {
  }

  lemma NextKeeps(s: State, e: Event)
    requires Inv(s) && Enabled(s, e)
    ensures Inv(Next(s, e))
  {
    hide Descenders, Appenders;
    PhaseSets(s.threads, e.t);
    SetPhase(s.threads, e.t, PhaseOf(Next(s, e), e.t));
    if e.ReleaseExclusive? {
      var rest := Appenders(s.threads) - {e.t};
      assert |rest| == 0;
    }
  }

  lemma PhaseSets(threads: map<nat, Phase>, t: nat)
    ensures t in Descenders(threads) <==> t in threads && threads[t].Descending?
    ensures t in Appenders(threads) <==> t in threads && threads[t].Appending?
  {
  }

  lemma {:induction false} RunKeeps(s: State, run: seq<Event>)
    requires Inv(s) && CanRun(s, run)
    ensures Inv(After(s, run))
    decreases |run|
  {
    hide Inv, Enabled, Next;
    if run != [] {
      NextKeeps(s, run[0]);
      RunKeeps(Next(s, run[0]), run[1..]);
    }
  }

  /** In every interleaving no append overlaps another append, nor the descent of a lookup. */
  lemma Exclusion(run: seq<Event>, t: nat, u: nat)
    requires CanRun(UNLOCKED, run) && t != u
    ensures PhaseOf(After(UNLOCKED, run), t).Appending? ==>
              PhaseOf(After(UNLOCKED, run), u) != Appending && PhaseOf(After(UNLOCKED, run), u) != Descending
  {
    hide CanRun, After;
    RunKeeps(UNLOCKED, run);
    var e := After(UNLOCKED, run);
    PhaseSets(e.threads, t);
    PhaseSets(e.threads, u);
    if t in Appenders(e.threads) && u in Appenders(e.threads) {
      assert {t, u} <= Appenders(e.threads);
      Subset({t, u}, Appenders(e.threads));
    }
  }

  lemma {:induction false} Subset(a: set<nat>, b: set<nat>)
    requires a <= b
    ensures |a| <= |b|
  {
    if a != {} {
      var x :| x in a;
      Subset(a - {x}, b - {x});
    }
  }

  // Progress can be lost: a snapshot taken during an append carries its exclusive bit.

  /** The lock is held exclusively by no one: every later append and lookup is refused, for ever. */
  ghost predicate Stuck(s: State) {
    s.lock.exclusive == 1 && Appenders(s.threads) == {}
  }

  lemma StuckStays(s: State, e: Event)
    requires Stuck(s) && Enabled(s, e)
    ensures Stuck(Next(s, e)) && Descenders(Next(s, e).threads) <= Descenders(s.threads)
  {
    hide Descenders, Appenders;
    PhaseSets(s.threads, e.t);
    SetPhase(s.threads, e.t, PhaseOf(Next(s, e), e.t));
  }

  /** The one step that loses the lock: a swap that succeeds from a snapshot with the exclusive bit set. */
  lemma StuckExactly(s: State, e: Event)
    requires Inv(s) && Enabled(s, e) && !Stuck(s)
    ensures Stuck(Next(s, e)) <==> Loses(s, e)
  {
    hide Descenders, Appenders;
    PhaseSets(s.threads, e.t);
    SetPhase(s.threads, e.t, PhaseOf(Next(s, e), e.t));
  }

  /** A run that loses the lock: a lookup looks while an append holds it, and swaps after the release. */
  lemma LosesLock()
    ensures
      var run := [TakeExclusive(0), Snapshot(1), ReleaseExclusive(0), TakeShared(1), ReleaseShared(1)];
      CanRun(UNLOCKED, run) && Stuck(After(UNLOCKED, run)) && After(UNLOCKED, run).lock == Lock(1, 0)
  {
  }

  /** Once lost, the lock stays lost in every run: no append and no descent ever begins again. */
  lemma {:induction false} StuckForEver(s: State, run: seq<Event>)
    requires Stuck(s) && CanRun(s, run)
    ensures Stuck(After(s, run)) && Descenders(After(s, run).threads) <= Descenders(s.threads)
    decreases |run|
  {
    hide Stuck, Enabled, Next, Descenders;
    if run != [] {
      StuckStays(s, run[0]);
      StuckForEver(Next(s, run[0]), run[1..]);
    }
  }

  /** No lookup takes its snapshot while an append is at work, as under a mutex around both. */
  ghost predicate Orderly(s: State, run: seq<Event>)
    requires CanRun(s, run)
    decreases |run|
  {
    run == [] || ((run[0].Snapshot? ==> Appenders(s.threads) == {}) && Orderly(Next(s, run[0]), run[1..]))
  }

  /** No snapshot has the exclusive bit, and the lock has it only while an append is at work. */
  ghost predicate Clean(s: State) {
    && Inv(s) && (s.lock.exclusive != 0 ==> Appenders(s.threads) != {})
    && forall t | t in s.threads && s.threads[t].Prepared? :: s.threads[t].snapshot.exclusive == 0
  }

  lemma CleanStays(s: State, e: Event)
    requires Clean(s) && Enabled(s, e) && (e.Snapshot? ==> Appenders(s.threads) == {})
    ensures Clean(Next(s, e))
  {
    hide Descenders, Appenders, Inv;
    NextKeeps(s, e);
    PhaseSets(s.threads, e.t);
    SetPhase(s.threads, e.t, PhaseOf(Next(s, e), e.t));
  }

  lemma {:induction false} CleanRun(s: State, run: seq<Event>)
    requires Clean(s) && CanRun(s, run) && Orderly(s, run)
    ensures Clean(After(s, run))
    decreases |run|
  {
    hide Clean, Enabled, Next, Appenders;
    if run != [] {
      CleanStays(s, run[0]);
      CleanRun(Next(s, run[0]), run[1..]);
    }
  }

  /** Then the lock is never lost: with no append and no descent at work it is free. */
  lemma NeverLost(run: seq<Event>)
    requires CanRun(UNLOCKED, run) && Orderly(UNLOCKED, run)
    ensures
      var e := After(UNLOCKED, run);
      !Stuck(e) && (Appenders(e.threads) == {} && Descenders(e.threads) == {} ==> e.lock == Lock(0, 0))
  {
    hide CanRun, Orderly, After;
    CleanRun(UNLOCKED, run);
  }

  /** The step that loses the lock: a swap that succeeds from a snapshot with the exclusive bit. */
  predicate Loses(s: State, e: Event)
    requires Enabled(s, e)
  {
    e.TakeShared? && s.threads[e.t].snapshot.exclusive == 1 && s.lock == Lock(0, s.threads[e.t].snapshot.shared)
  }

  ghost predicate SomeLoses(s: State, run: seq<Event>)
    requires CanRun(s, run)
    decreases |run|
  {
    run != [] && (Loses(s, run[0]) || SomeLoses(Next(s, run[0]), run[1..]))
  }

  lemma {:induction false} LostBySwap(s: State, run: seq<Event>)
    requires Inv(s) && !Stuck(s) && CanRun(s, run)
    ensures Stuck(After(s, run)) <==> SomeLoses(s, run)
    decreases |run|
  {
    hide Inv, Stuck, Enabled, Next;
    if run != [] {
      var next := Next(s, run[0]);
      NextKeeps(s, run[0]);
      StuckExactly(s, run[0]);
      if Stuck(next) {
        StuckForEver(next, run[1..]);
      } else {
        LostBySwap(next, run[1..]);
      }
    }
  }

  /** A run from the start ends with the lock lost if and only if some swap in it lost it. */
  lemma LostExactly(run: seq<Event>)
    requires CanRun(UNLOCKED, run)
    ensures Stuck(After(UNLOCKED, run)) <==> SomeLoses(UNLOCKED, run)
  {
    hide CanRun, After, SomeLoses;
    LostBySwap(UNLOCKED, run);
  }

  // One thread on its own.

  lemma TwoSteps(s: State, e: Event, f: Event)
    requires Enabled(s, e) && Enabled(Next(s, e), f)
    ensures CanRun(s, [e, f]) && After(s, [e, f]) == Next(Next(s, e), f)
  {
    hide Enabled, Next;
    var next := Next(Next(s, e), f);
    assert [e, f][1..] == [f] && [f][1..] == [];
    assert CanRun(next, []) && After(next, []) == next;
  }

  /** An append on its own takes the lock exactly when nobody has any of it, and gives all of it back. */
  lemma AppendAlone(s: State, t: nat)
    requires PhaseOf(s, t).Idle?
    ensures CanRun(s, [TakeExclusive(t)])
    ensures PhaseOf(After(s, [TakeExclusive(t)]), t).Appending? <==> s.lock.exclusive == 0 && s.lock.shared == 0
    ensures s.lock != Lock(0, 0) ==> After(s, [TakeExclusive(t)]) == s
    ensures s.lock == Lock(0, 0) ==>
              var run := [TakeExclusive(t), ReleaseExclusive(t)];
              CanRun(s, run) && After(s, run).lock == Lock(0, 0) && PhaseOf(After(s, run), t).Idle?
  {
    assert [TakeExclusive(t)][1..] == [];
    if s.lock == Lock(0, 0) {
      TwoSteps(s, TakeExclusive(t), ReleaseExclusive(t));
    }
  }

  /** A lookup on its own descends exactly when no append has the lock, beside others, and gives back its part. */
  lemma LookupAlone(s: State, t: nat)
    requires PhaseOf(s, t).Idle?
    ensures
      var run := [Snapshot(t), TakeShared(t)];
      && CanRun(s, run)
      && (PhaseOf(After(s, run), t).Descending? <==> s.lock.exclusive == 0)
      && (s.lock.exclusive != 0 ==> After(s, run).lock == s.lock && PhaseOf(After(s, run), t).Idle?)
      && (s.lock.exclusive == 0 ==>
            && After(s, run).lock == Lock(0, s.lock.shared + 1) && Enabled(After(s, run), ReleaseShared(t))
            && Next(After(s, run), ReleaseShared(t)).lock == s.lock
            && PhaseOf(Next(After(s, run), ReleaseShared(t)), t).Idle?)
  {
    hide CanRun, After;
    TwoSteps(s, Snapshot(t), TakeShared(t));
  }

  /** No step of one thread moves another. */
  lemma OthersStay(s: State, e: Event, u: nat)
    requires Enabled(s, e) && u != e.t
    ensures PhaseOf(Next(s, e), u) == PhaseOf(s, u)
  {
  }

  predicate Without(run: seq<Event>, t: nat) {
    forall k | 0 <= k < |run| :: run[k].t != t
  }

  lemma {:induction false} StaysMeanwhile(s: State, run: seq<Event>, t: nat)
    requires CanRun(s, run) && Without(run, t)
    ensures PhaseOf(After(s, run), t) == PhaseOf(s, t)
    decreases |run|
  {
    hide Enabled, Next;
    if run != [] {
      OthersStay(s, run[0], t);
      StaysMeanwhile(Next(s, run[0]), run[1..], t);
    }
  }

  /**
    Whatever others do between the look of a lookup at the lock and its swap, it descends if and only if no
    append has the lock then and as many lookups descend as when it looked; otherwise it ends, and the lock
    stays as it is.
  */
  lemma LateSwap(s: State, t: nat, run: seq<Event>)
    requires PhaseOf(s, t).Idle? && CanRun(Next(s, Snapshot(t)), run) && Without(run, t)
    ensures
      var e := After(Next(s, Snapshot(t)), run);
      && Enabled(e, TakeShared(t))
      && var next := Next(e, TakeShared(t));
      if e.lock.exclusive == 0 && e.lock.shared == s.lock.shared
      then PhaseOf(next, t).Descending? && next.lock.shared == e.lock.shared + 1
      else PhaseOf(next, t).Idle? && next.lock == e.lock
  {
    hide CanRun, After;
    StaysMeanwhile(Next(s, Snapshot(t)), run, t);
  }
}
