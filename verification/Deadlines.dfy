/** What the timing wheel is for: a set of deadlines, in milliseconds, against a clock that
    advances in ticks of 2 ms. `distant` marks the timers a poll does not look at because
    they were more than 65535 ticks away when last examined. */
module Deadlines {

  type Timer = nat

  datatype Sched = Sched(tick: nat, filed: map<Timer, nat>, distant: set<Timer>, fired: seq<Timer>)

  const DISTANT_MS := 131071   // one below _YF_FAR_TIMER_MS_DIST: alignment rounds up

  ghost predicate Registers(s: Sched, t: Timer, now: nat, timeout: nat, s': Sched) {
    && now / 2 == s.tick && t !in s.fired
    && s' == s.(filed := s.filed[t := now + timeout],
                distant := if timeout >= DISTANT_MS then s.distant + {t} else s.distant - {t})
  }

  ghost predicate Unregisters(s: Sched, t: Timer, s': Sched) {
    t in s.filed && s' == s.(filed := s.filed - {t}, distant := s.distant - {t})
  }

  /** A poll that reaches a new tick fires every examined timer whose deadline is at or before
      that tick, and none more than a millisecond early. Distant timers are re-examined when
      the clock crosses a multiple of 32768 ticks. */
  ghost predicate Polls(s: Sched, now: nat, s': Sched) {
    && s.fired == [] && now / 2 >= s.tick
    && (now / 2 == s.tick ==> s' == s)
    && (now / 2 > s.tick ==>
      && s'.tick == now / 2
      && (forall t {:trigger t in s'.fired} :: t in s'.fired ==>
            t in s.filed && t !in s.distant && s.filed[t] <= 2 * s'.tick + 1)
      && (forall t {:trigger t in s.filed} :: t in s.filed && t !in s.distant && s.filed[t] <= 2 * s'.tick ==>
            t in s'.fired)
      && (forall t {:trigger t in s'.filed} :: t in s'.filed <==> t in s.filed && t !in s'.fired)
      && (forall t {:trigger s'.filed[t]} :: t in s'.filed ==> t in s.filed && s'.filed[t] == s.filed[t])
      && (forall t {:trigger t in s'.distant} :: t in s'.distant <==>
            t in s.distant &&
            (now / 65536 > s.tick / 32768 ==> t in s.filed && s.filed[t] >= now + DISTANT_MS)))
  }

  ghost predicate Delivers(s: Sched, s': Sched) {
    s.fired != [] && s' == s.(fired := s.fired[1..])
  }

  // ----- runs -----

  datatype Event =
    | Register(t: Timer, now: nat, timeout: nat)
    | Unregister(t: Timer)
    | Poll(now: nat)
    | Deliver

  ghost predicate Step(s: Sched, e: Event, s': Sched) {
    match e
    case Register(t, now, timeout) => Registers(s, t, now, timeout, s')
    case Unregister(t) => Unregisters(s, t, s')
    case Poll(now) => Polls(s, now, s')
    case Deliver => Delivers(s, s')
  }

  ghost predicate Run(ss: seq<Sched>, es: seq<Event>) {
    && |ss| == |es| + 1
    && ss[0] == Sched(0, map[], {}, [])
    && forall i :: 0 <= i < |es| ==> Step(ss[i], es[i], ss[i + 1])
  }

  const MAX_GAP := 32768   // ticks, 65536 ms

  /** Consecutive polls are at most 65536 ms apart. */
  ghost predicate Brisk(ss: seq<Sched>, es: seq<Event>)
    requires |ss| == |es| + 1
  {
    forall i :: 0 <= i < |es| && es[i].Poll? ==> es[i].now / 2 <= ss[i].tick + MAX_GAP
  }

  /** Distant timers lie beyond the too-far period after the current one. */
  ghost predicate DistantFar(s: Sched) {
    forall t :: t in s.distant ==> t in s.filed && s.filed[t] >= 65536 * (s.tick / 32768 + 2) - 1
  }

  ghost predicate NoneOverdue(s: Sched) {
    forall t :: t in s.filed ==> s.filed[t] >= 2 * s.tick
  }

  lemma DistantFarStep(s: Sched, e: Event, s': Sched)
    requires DistantFar(s) && Step(s, e, s')
    ensures DistantFar(s')
  {
    forall t | t in s'.distant
      ensures t in s'.filed && s'.filed[t] >= 65536 * (s'.tick / 32768 + 2) - 1
    {
      if e.Poll? && e.now / 2 > s.tick {
        assert t in s.distant && t !in s'.fired;
      }
    }
  }

  lemma NoneOverdueStep(s: Sched, e: Event, s': Sched)
    requires DistantFar(s) && NoneOverdue(s) && Step(s, e, s')
    requires e.Poll? ==> e.now / 2 <= s.tick + MAX_GAP
    ensures NoneOverdue(s')
  {
  }

  /** Along every run, whatever the gaps. */
  lemma {:induction false} RunDistantFar(ss: seq<Sched>, es: seq<Event>, i: nat)
    requires Run(ss, es) && i < |ss|
    ensures DistantFar(ss[i])
  {
    if i > 0 {
      RunDistantFar(ss, es, i - 1);
      DistantFarStep(ss[i - 1], es[i - 1], ss[i]);
    }
  }

  lemma {:induction false} RunNoneOverdue(ss: seq<Sched>, es: seq<Event>, i: nat)
    requires Run(ss, es) && Brisk(ss, es) && i < |ss|
    ensures NoneOverdue(ss[i])
  {
    if i > 0 {
      RunNoneOverdue(ss, es, i - 1);
      RunDistantFar(ss, es, i - 1);
      NoneOverdueStep(ss[i - 1], es[i - 1], ss[i]);
    }
  }

  /** On a brisk run each poll fires exactly the timers whose deadline has passed: all that are
      due by its tick, and nothing due later than the clock's own millisecond. */
  lemma PollIsExact(ss: seq<Sched>, es: seq<Event>, i: nat, t: Timer)
    requires Run(ss, es) && Brisk(ss, es) && i < |es| && es[i].Poll? && es[i].now / 2 > ss[i].tick
    ensures t in ss[i].filed && ss[i].filed[t] <= 2 * ss[i + 1].tick ==> t in ss[i + 1].fired
    ensures t in ss[i + 1].fired ==> t in ss[i].filed && ss[i].filed[t] <= 2 * ss[i + 1].tick + 1
    ensures t in ss[i].filed && ss[i].filed[t] % 2 == 0 ==>
      (t in ss[i + 1].fired <==> ss[i].filed[t] <= es[i].now)
  {
    RunDistantFar(ss, es, i);
    assert Step(ss[i], es[i], ss[i + 1]);
  }

  /** Event `k` is the poll whose tick first reached `due`, and it fired `t`. */
  ghost predicate FiredBy(ss: seq<Sched>, es: seq<Event>, k: nat, t: Timer, due: nat)
    requires |ss| == |es| + 1 && k < |es|
  {
    es[k].Poll? && t in ss[k + 1].fired && 2 * ss[k].tick <= due <= 2 * ss[k + 1].tick + 1
  }

  /** From any filed state until it is registered anew or unregistered, a timer is either still
      filed, not overdue and with its deadline, or one poll in between fired it, and that poll
      was the first whose tick reached the deadline. */
  lemma {:induction false} FiresOnceOnTime(ss: seq<Sched>, es: seq<Event>, i: nat, j: nat, t: Timer)
    requires Run(ss, es) && Brisk(ss, es) && i <= j < |ss| && t in ss[i].filed
    requires forall k :: i <= k < j ==> !(es[k].Register? && es[k].t == t) && es[k] != Unregister(t)
    ensures
      || (t in ss[j].filed && ss[j].filed[t] == ss[i].filed[t] >= 2 * ss[j].tick)
      || (t !in ss[j].filed && exists k :: i <= k < j && FiredBy(ss, es, k, t, ss[i].filed[t]))
  {
    if i == j {
      RunNoneOverdue(ss, es, j);
    } else {
      FiresOnceOnTime(ss, es, i, j - 1, t);
      RunNoneOverdue(ss, es, j - 1);
      RunNoneOverdue(ss, es, j);
      var k := j - 1;
      assert Step(ss[k], es[k], ss[k + 1]);
      assert t in ss[k].filed && t !in ss[j].filed ==> FiredBy(ss, es, k, t, ss[i].filed[t]);
    }
  }

  // ----- when the gap bound is missed -----

  /** For even deadlines a poll is exact if and only if no distant timer is due. */
  lemma ExactIffNoDistantDue(s: Sched, now: nat, s': Sched)
    requires Polls(s, now, s') && now / 2 > s.tick && s.distant <= s.filed.Keys
    requires forall t :: t in s.filed ==> s.filed[t] % 2 == 0
    ensures (forall t :: t in s.filed ==> (t in s'.fired <==> s.filed[t] <= now))
        <==> (forall t :: t in s.distant ==> s.filed[t] > now)
  {
    forall t | t in s.distant
      ensures t !in s'.fired && t in s.filed
    {
    }
    forall t | t in s.filed && t !in s.distant
      ensures t in s'.fired <==> s.filed[t] <= now
    {
    }
  }

  /** A deadline 131072 ms away, polled once after exactly that time: it has passed and the
      timer is not fired. */
  lemma LateAfterLongGap(t: Timer) returns (s0: Sched, s1: Sched, s2: Sched)
    ensures s0 == Sched(0, map[], {}, [])
    ensures Registers(s0, t, 0, 131072, s1) && Polls(s1, 131072, s2)
    ensures t in s2.filed && s2.filed[t] <= 131072 && t !in s2.fired
  {
    s0 := Sched(0, map[], {}, []);
    s1 := Sched(0, map[t := 131072], {t}, []);
    s2 := Sched(65536, map[t := 131072], {}, []);
    assert s1.filed == s0.filed[t := 131072];
  }

  /** However late a poll is, a timer it misses goes to the next poll that reaches a new tick. */
  lemma MissedAtMostOnce(s: Sched, now: nat, s1: Sched, s2: Sched, now2: nat, s3: Sched, t: Timer)
    requires DistantFar(s) && Polls(s, now, s1) && now / 2 > s.tick
    requires t in s.filed && s.filed[t] <= 2 * (now / 2) && t !in s1.fired
    requires s2 == s1.(fired := []) && Polls(s2, now2, s3) && now2 / 2 > s2.tick
    ensures t in s3.fired
  {
    assert t in s.distant;
    assert now / 65536 > s.tick / 32768;
    assert t !in s1.distant;
    assert t in s2.filed && s2.filed[t] == s.filed[t];
  }
}
