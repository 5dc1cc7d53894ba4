/** Whole runs of the timer driver, call by call, as runs of the set of deadlines. */
module TimerRuns {
  import opened Deadlines
  import opened TimerLists
  import opened TimerWheel
  import opened TooFarWalk

  /** yf_alloc_tm_evt, or one of the calls that move deadlines. */
  datatype Command = New(t: Timer) | Call(e: Event)

  /** What a caller checks before the call. A timer is registered when it is new, has fired, or waits
      in a far slot; a timer that left a near slot unfired may not go too far. */
  predicate Allowed(d: TmDriver, c: Command)
    reads d
  {
    match c
    case New(t) => t !in d.loc
    case Call(Register(t, now, timeout)) =>
      && t in d.timers && (t in d.loc ==>
           d.loc[t].Far? || d.loc[t].TooFar?) && now / 2 == d.tick && timeout < 0x4000_0000
      && (timeout >= DISTANT_MS ==> !NearHead(d.timers[t].head))
    case Call(Unregister(t)) => t in d.timers
    case Call(Poll(now)) => At(d.lists, Expired) == [] && now / 2 >= d.tick
    case Call(Deliver) => At(d.lists, Expired) != []
  }

  /** The too-far check of the poll ends. */
  predicate PollEnds(d: TmDriver, c: Command)
    reads d
  {
    c.Call? && c.e.Poll? && c.e.now / 65536 > d.tooFarCnt ==> OneBoundary(d.loc, d.timers, c.e.now)
  }

  predicate EvenCommand(c: Command) {
    c.Call? ==> (c.e.Register? ==> c.e.now % 2 == 0 && c.e.timeout % 2 == 0) && (c.e.Poll? ==> c.e.now % 2 == 0)
  }

  ghost predicate EvenSched(s: Sched) { forall t :: t in s.filed ==> s.filed[t] % 2 == 0 }

  ghost predicate AllEven(cs: seq<Command>) { forall k :: 0 <= k < |cs| ==> EvenCommand(cs[k]) }

  /** With even timeouts and an even clock a poll always ends: what is left to a deadline is even. */
  lemma EvenPollEnds(d: TmDriver, c: Command)
    requires d.Valid() && EvenSched(d.Abs()) && EvenCommand(c)
    ensures PollEnds(d, c)
  {
    hide Listed, Timed, SleepOk, FlagsFrom, HeadsOk, SlotsOk;
    forall t, now | AtBoundary(d.loc, d.timers, now, t)
      ensures now % 2 == 1
    {
      assert t in d.Abs().filed;
    }
  }

  /** The timers that the calls allocate. */
  ghost function NewIn(cs: seq<Command>): set<Timer> {
    if cs == [] then {} else
      var c := cs[|cs| - 1];
      NewIn(cs[..|cs| - 1]) + if c.New? then {c.t} else {}
  }

  /** No filed timer has less time left than the poller may sleep, up to the end of the tick. */
  ghost predicate InTime(s: Sched, ms: nat) {
    forall t :: t in s.filed ==> ms / 4 <= Rest(s.filed[t], 2 * s.tick + 1)
  }

  lemma SleepsInTime(d: TmDriver)
    requires d.Valid()
    ensures InTime(d.Abs(), d.nearestMs)
  {
    hide Timed, SleepOk, FlagsFrom, HeadsOk, SlotsOk, Listed, Rest;
    forall t | t in d.Abs().filed
      ensures d.nearestMs / 4 <= Rest(d.Abs().filed[t], 2 * d.tick + 1)
    {
      d.SleepBound(t, 2 * d.tick + 1);
    }
  }

  /** What a call does to the nearest timeout: a poll that reaches a new tick leaves one for which a
      filed timer is the reason, a timer registered can shorten it, and nothing else changes it. */
  ghost predicate SleepMoves(s: Sched, ms: nat, c: Command, s': Sched, ms': nat) {
    match c
    case Call(Register(t, now, timeout)) => ms' == Nearer(ms, timeout)
    case Call(Poll(now)) => if now / 2 > s.tick then Wakes(s', ms') else ms' == ms
    case _ => ms' == ms
  }

  /** The nearest timeouts along a run. */
  ghost predicate Slept(ss: seq<Sched>, es: seq<Event>, ns: seq<nat>)
    requires |ss| == |es| + 1
  {
    && |ns| == |ss| && ns[0] == 3 * FAR_MS
    && (forall i :: 0 <= i < |es| ==> SleepMoves(ss[i], ns[i], Call(es[i]), ss[i + 1], ns[i + 1]))
    && forall i :: 0 <= i < |ns| ==> InTime(ss[i], ns[i])
  }

  lemma SleptStart(s: Sched)
    requires s == Sched(0, map[], {}, [])
    ensures Slept([s], [], [3 * FAR_MS])
  {
  }

  lemma SleptOn(ss: seq<Sched>, es: seq<Event>, ns: seq<nat>, e: Event, s: Sched, ms: nat)
    requires |ss| == |es| + 1 && Slept(ss, es, ns) && SleepMoves(ss[|es|], ns[|es|], Call(e), s, ms) && InTime(s, ms)
    ensures Slept(ss + [s], es + [e], ns + [ms])
  {
    hide SleepMoves, InTime;
    var ss', es', ns' := ss + [s], es + [e], ns + [ms];
    forall i | 0 <= i < |es'|
      ensures SleepMoves(ss'[i], ns'[i], Call(es'[i]), ss'[i + 1], ns'[i + 1])
    {
      assert i < |es| ==> SleepMoves(ss[i], ns[i], Call(es[i]), ss[i + 1], ns[i + 1]);
    }
  }

  /** One call is one step of the set of deadlines, or none: a new timer, or one that is not filed
      taken out. */
  method Exec(d: TmDriver, c: Command) returns (ghost moved: bool)
    requires d.Valid() && Allowed(d, c) && PollEnds(d, c)
    modifies d
    ensures d.Valid()
    ensures moved <==> c.Call? && (c.e.Unregister? ==> c.e.t in old(d.Abs()).filed)
    ensures if moved then Step(old(d.Abs()), c.e, d.Abs()) else d.Abs() == old(d.Abs())
    ensures d.timers.Keys == old(d.timers.Keys) + if c.New? then {c.t} else {}
    ensures SleepMoves(old(d.Abs()), old(d.nearestMs), c, d.Abs(), d.nearestMs) && InTime(d.Abs(), d.nearestMs)
    ensures !moved ==> d.nearestMs == old(d.nearestMs)
  {
    hide TmDriver.Core, TmDriver.Shape, Timed, SleepOk, Registers, Unregisters, Polls, Delivers, FiledOf, DistantOf,
      InTime, Wakes, Nearer;
    match c {
    case New(t) =>
      d.Alloc(t);
      moved := false;
    case Call(Register(t, now, timeout)) =>
      d.Register(t, now, timeout);
      moved := true;
    case Call(Unregister(t)) =>
      var ok := d.Unregister(t);
      moved := ok;
    case Call(Poll(now)) =>
      d.Poll(now);
      moved := true;
    case Call(Deliver) =>
      var t := d.PopExpired();
      moved := true;
    }
    SleepsInTime(d);
  }

  /** The tick of the last poll among the calls. */
  function LastTick(cs: seq<Command>): nat {
    if cs == [] then 0 else
      var c := cs[|cs| - 1];
      if c.Call? && c.e.Poll? then c.e.now / 2 else LastTick(cs[..|cs| - 1])
  }

  /** Every poll comes at most 65536 ms after the one before it. */
  ghost predicate Gapped(cs: seq<Command>) {
    forall k :: 0 <= k < |cs| && cs[k].Call? && cs[k].e.Poll? ==> cs[k].e.now / 2 <= LastTick(cs[..k]) + MAX_GAP
  }

  /** `es` are the events of the calls, in order, but for new timers and for timers taken out that are
      not filed at that moment; `ss` are the sets of deadlines between them. */
  ghost predicate Traced(cs: seq<Command>, ss: seq<Sched>, es: seq<Event>)
    requires |ss| == |es| + 1
  {
    if cs == [] then es == []
    else
      var n, k, c := |cs| - 1, |es| - 1, cs[|cs| - 1];
      || ((c.New? || (c.e.Unregister? && c.e.t !in ss[|es|].filed)) && Traced(cs[..n], ss, es))
      || (c.Call? && es != [] && es[k] == c.e && (c.e.Unregister? ==> c.e.t in ss[k].filed)
          && Traced(cs[..n], ss[..|es|], es[..k]))
  }

  lemma TracedOn(cs: seq<Command>, ss: seq<Sched>, es: seq<Event>, c: Command, s: Sched)
    requires |ss| == |es| + 1 && Traced(cs, ss, es)
    ensures c.New? || (c.e.Unregister? && c.e.t !in ss[|es|].filed) ==> Traced(cs + [c], ss, es)
    ensures c.Call? && (c.e.Unregister? ==> c.e.t in ss[|es|].filed) ==> Traced(cs + [c], ss + [s], es + [c.e])
  {
    assert (cs + [c])[..|cs|] == cs && (ss + [s])[..|es| + 1] == ss;
    if c.Call? {
      assert (es + [c.e])[..|es|] == es;
    }
  }

  lemma Extended(ss: seq<Sched>, es: seq<Event>, e: Event, s: Sched)
    requires Run(ss, es) && Step(ss[|es|], e, s)
    ensures Run(ss + [s], es + [e])
    ensures Brisk(ss, es) && (e.Poll? ==> e.now / 2 <= ss[|es|].tick + MAX_GAP) ==> Brisk(ss + [s], es + [e])
  {
    hide Step;
    var ss', es' := ss + [s], es + [e];
    forall i | 0 <= i < |es'|
      ensures Step(ss'[i], es'[i], ss'[i + 1])
    {
      if i < |es| {
        assert Step(ss[i], es[i], ss[i + 1]);
      }
    }
  }

  lemma EmptyRun(s: Sched)
    requires s == Sched(0, map[], {}, [])
    ensures Run([s], []) && Brisk([s], []) && EvenSched(s) && LastTick([]) == 0 && Traced([], [s], [])
    ensures NewIn([]) == {}
  {
  }

  lemma Moved(s: Sched, e: Event, s': Sched)
    requires Step(s, e, s')
    ensures s'.tick == if e.Poll? then e.now / 2 else s.tick
    ensures EvenSched(s) && EvenCommand(Call(e)) ==> EvenSched(s')
  {
  }

  lemma Later(cs: seq<Command>, k: nat)
    requires k < |cs|
    ensures LastTick(cs[..k + 1]) == if cs[k].Call? && cs[k].e.Poll? then cs[k].e.now / 2 else LastTick(cs[..k])
    ensures Gapped(cs) && cs[k].Call? && cs[k].e.Poll? ==> cs[k].e.now / 2 <= LastTick(cs[..k]) + MAX_GAP
    ensures AllEven(cs) ==> EvenCommand(cs[k])
  {
    assert cs[..k + 1][..k] == cs[..k];
  }

  /** What a run of the first `done` calls has come to: the sets of deadlines so far, the events, and the
      timers there are. */
  ghost predicate Tracks(cs: seq<Command>, done: nat, ss: seq<Sched>, es: seq<Event>, timers: set<Timer>) {
    && done <= |cs| && |es| <= done && |ss| == |es| + 1 && Run(ss, es)
    && Traced(cs[..done], ss, es) && timers == NewIn(cs[..done]) && ss[|es|].tick == LastTick(cs[..done])
    && (AllEven(cs) ==> EvenSched(ss[|es|])) && (Gapped(cs) ==> Brisk(ss, es))
  }

  lemma TracksStart(cs: seq<Command>, s: Sched)
    requires s == Sched(0, map[], {}, [])
    ensures Tracks(cs, 0, [s], [], {})
  {
    assert cs[..0] == [];
    EmptyRun(s);
  }

  lemma TracksMoved(cs: seq<Command>, done: nat, ss: seq<Sched>, es: seq<Event>, timers: set<Timer>, s: Sched)
    requires Tracks(cs, done, ss, es, timers) && done < |cs| && cs[done].Call? && Step(ss[|es|], cs[done].e, s)
    requires cs[done].e.Unregister? ==> cs[done].e.t in ss[|es|].filed
    ensures Tracks(cs, done + 1, ss + [s], es + [cs[done].e], timers)
  {
    hide Step, Run, Brisk, LastTick, Gapped, AllEven, EvenSched, EvenCommand, Traced;
    var c := cs[done];
    Later(cs, done);
    Moved(ss[|es|], c.e, s);
    Extended(ss, es, c.e, s);
    TracedOn(cs[..done], ss, es, c, s);
    assert cs[..done] + [c] == cs[..done + 1];
    assert cs[..done + 1][..done] == cs[..done];
  }

  lemma TracksStill(cs: seq<Command>, done: nat, ss: seq<Sched>, es: seq<Event>, timers: set<Timer>)
    requires Tracks(cs, done, ss, es, timers) && done < |cs|
    requires cs[done].New? || (cs[done].e.Unregister? && cs[done].e.t !in ss[|es|].filed)
    ensures Tracks(cs, done + 1, ss, es, timers + if cs[done].New? then {cs[done].t} else {})
  {
    hide Step, Run, Brisk, LastTick, Gapped, AllEven, EvenSched, EvenCommand, Traced;
    Later(cs, done);
    TracedOn(cs[..done], ss, es, cs[done], ss[|es|]);
    assert cs[..done] + [cs[done]] == cs[..done + 1];
    assert cs[..done + 1][..done] == cs[..done];
  }

  lemma OnNoList(d: TmDriver, t: Timer)
    requires d.Valid() && t !in d.Abs().filed && t !in d.Abs().fired
    ensures t !in d.loc
  {
    hide Timed, SleepOk, FlagsFrom, HeadsOk, SlotsOk;
  }

  /** A timer filed in a near slot is filed again, and counted twice. */
  method FiledTwice(t: Timer) returns (d: TmDriver)
    ensures !d.Core()
  {
    hide Listed, Timed, SleepOk, FlagsFrom, HeadsOk, SlotsOk, At, FiledOf, DistantOf;
    d := new TmDriver();
    OnNoList(d, t);
    d.Alloc(t);
    d.AddTimer(t, 10);
    d.AddTimer(t, 10);
  }

  /** Two timers registered at the start with 196607 ms, and the first poll after 65536 ms, the longest
      gap there may be: both then have 131071 ms to go, and the poll does not end. */
  method BothAtBoundary(t: Timer, u: Timer) returns (d: TmDriver)
    requires t != u
    ensures d.Valid() && At(d.lists, Expired) == [] && 65536 / 65536 > d.tooFarCnt && 65536 / 2 == d.tick + MAX_GAP
    ensures (forall k :: 0 <= k < |At(d.lists, TooFar)| ==> At(d.lists, TooFar)[k] in d.timers)
      && !Ends(Remaining(At(d.lists, TooFar), d.timers, 65536))
  {
    hide Listed, Timed, SleepOk, FlagsFrom, Ends;
    d := new TmDriver();
    OnNoList(d, t);
    d.Alloc(t);
    d.Register(t, 0, 196607);
    OnNoList(d, u);
    d.Alloc(u);
    d.Register(u, 0, 196607);
    assert t in d.Abs().distant && u in d.Abs().distant;
    assert t in d.Abs().filed && u in d.Abs().filed;
    assert AtBoundary(d.loc, d.timers, 65536, t) && AtBoundary(d.loc, d.timers, 65536, u);
    PollEndsIff(d.lists, d.loc, d.timers, 65536);
  }

  /** Any calls on a new driver, up to the first that is not allowed or would not end, are a run of the
      set of deadlines with those calls as its events; with even times none fails to end, and with polls
      close enough together none leaves a timer overdue and every one is exact. */
  method RunDriver(cs: seq<Command>)
    returns (d: TmDriver, done: nat, ghost ss: seq<Sched>, ghost es: seq<Event>, ghost ns: seq<nat>)
    ensures fresh(d) && d.Valid() && done <= |cs| && |es| <= done
    ensures Run(ss, es) && d.Abs() == ss[|es|]
    ensures Traced(cs[..done], ss, es) && d.timers.Keys == NewIn(cs[..done])
    ensures done < |cs| ==> !Allowed(d, cs[done]) || !PollEnds(d, cs[done])
    ensures AllEven(cs) && done < |cs| ==> !Allowed(d, cs[done])
    ensures Gapped(cs) ==> Brisk(ss, es) && NoneOverdue(d.Abs())
    ensures Slept(ss, es, ns) && d.nearestMs == ns[|es|]
  {
    hide Listed, Timed, SleepOk, FlagsFrom, HeadsOk, SlotsOk, Step, Allowed, PollEnds, Run, Brisk, Gapped,
      AllEven, EvenSched, EvenCommand, NoneOverdue, Traced, NewIn, Tracks, Slept, InTime, SleepMoves;
    d := new TmDriver();
    done, ss, es, ns := 0, [d.Abs()], [], [d.nearestMs];
    SleptStart(d.Abs());
    TracksStart(cs, d.Abs());
    assert d.timers.Keys == {};
    while done < |cs|
      invariant fresh(d) && d.Valid() && done <= |cs| && |ss| == |es| + 1 && d.Abs() == ss[|es|]
      invariant Tracks(cs, done, ss, es, d.timers.Keys)
      invariant Slept(ss, es, ns) && |ns| == |ss| && d.nearestMs == ns[|es|]
    {
      EvenTracks(d, cs, done, ss, es);
      if !Allowed(d, cs[done]) || !PollEnds(d, cs[done]) {
        break;
      }
      ghost var keys := d.timers.Keys;
      ghost var moved := Exec(d, cs[done]);
      if moved {
        TracksMoved(cs, done, ss, es, keys, d.Abs());
        SleptOn(ss, es, ns, cs[done].e, d.Abs(), d.nearestMs);
        ss, es, ns := ss + [d.Abs()], es + [cs[done].e], ns + [d.nearestMs];
      } else {
        TracksStill(cs, done, ss, es, keys);
      }
      done := done + 1;
    }
    TracksSay(cs, done, ss, es, d.timers.Keys);
  }

  lemma EvenTracks(d: TmDriver, cs: seq<Command>, done: nat, ss: seq<Sched>, es: seq<Event>)
    requires d.Valid() && Tracks(cs, done, ss, es, d.timers.Keys) && done < |cs| && d.Abs() == ss[|es|]
    ensures AllEven(cs) ==> PollEnds(d, cs[done])
  {
    hide Listed, Timed, SleepOk, FlagsFrom, HeadsOk, SlotsOk, PollEnds, Run, Brisk, Gapped, EvenSched, EvenCommand,
      LastTick, Traced;
    Later(cs, done);
    if AllEven(cs) {
      EvenPollEnds(d, cs[done]);
    }
  }

  lemma TracksSay(cs: seq<Command>, done: nat, ss: seq<Sched>, es: seq<Event>, timers: set<Timer>)
    requires Tracks(cs, done, ss, es, timers)
    ensures done <= |cs| && |es| <= done && |ss| == |es| + 1 && Run(ss, es)
    ensures Traced(cs[..done], ss, es) && timers == NewIn(cs[..done])
    ensures Gapped(cs) ==> Brisk(ss, es) && NoneOverdue(ss[|es|])
  {
    hide Run, Brisk, Gapped, NoneOverdue, Traced, LastTick;
    if Gapped(cs) {
      RunNoneOverdue(ss, es, |es|);
    }
  }
}
