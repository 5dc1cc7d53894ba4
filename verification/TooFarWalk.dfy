/** The loop over too_far_tm_list in yf_poll_timer (src/mio_driver/event_in/yf_tm_event_in.c
    lines 640-670) and when it ends. yf_list_for_each_safe reads the successor before the body
    runs, and the body may append the timer it works on to the very list it walks. */
module TooFarWalk {
  import opened Deadlines
  import opened TimerLists
  import opened TimerWheel

  /** `rests` are the remaining milliseconds of the listed timers, `i` the one `pos` is at. */
  datatype Walk = Walk(rests: seq<nat>, i: nat, over: bool)

  function Turn(w: Walk): Walk {
    if w.over || w.i >= |w.rests| then w.(over := true)
    else
      var r := w.rests[w.i];
      var last := w.i + 1 == |w.rests|;
      var others := w.rests[..w.i] + w.rests[w.i + 1..];
      if r >= FAR_DIST_MS then Walk(w.rests, w.i + 1, last)
      else if Rounded(r) >= FAR_DIST_MS then Walk(others + [r], w.i, last)
      else Walk(others, w.i, last)
  }

  function Turns(w: Walk, n: nat): Walk
    decreases n
  {
    if n == 0 then w else Turns(Turn(w), n - 1)
  }

  ghost predicate Ends(rests: seq<nat>) {
    exists n :: Turns(Walk(rests, 0, false), n).over
  }

  ghost predicate BoundaryTwice(rests: seq<nat>, from: nat) {
    exists j, k :: from <= j < k < |rests| && rests[j] == BOUNDARY && rests[k] == BOUNDARY
  }

  lemma TwiceStays(w: Walk)
    requires !w.over && BoundaryTwice(w.rests, w.i)
    ensures !Turn(w).over && BoundaryTwice(Turn(w).rests, Turn(w).i)
  {
    var j, k :| w.i <= j < k < |w.rests| && w.rests[j] == BOUNDARY && w.rests[k] == BOUNDARY;
    var w' := Turn(w);
    var r := w.rests[w.i];
    if r >= FAR_DIST_MS {
      assert w'.rests[j] == BOUNDARY && w'.rests[k] == BOUNDARY;
    } else if r == BOUNDARY {
      assert w'.rests[|w'.rests| - 1] == BOUNDARY;
      assert w'.rests[k - 1] == BOUNDARY;
    } else {
      assert w'.rests[j - 1] == BOUNDARY && w'.rests[k - 1] == BOUNDARY;
    }
  }

  lemma {:induction false} NeverEnds(w: Walk, n: nat)
    requires !w.over && BoundaryTwice(w.rests, w.i)
    ensures !Turns(w, n).over
    decreases n
  {
    if n > 0 {
      TwiceStays(w);
      NeverEnds(Turn(w), n - 1);
    }
  }

  /** `requeued`: the one boundary timer already waits at the end. */
  ghost predicate Fair(w: Walk, requeued: bool) {
    if requeued then
      && w.i < |w.rests| && w.rests[|w.rests| - 1] == BOUNDARY
      && forall k :: w.i <= k < |w.rests| - 1 ==> w.rests[k] != BOUNDARY
    else !BoundaryTwice(w.rests, w.i)
  }

  lemma TwiceBefore(w: Walk)
    requires !w.over && w.i < |w.rests| && w.rests[w.i] < BOUNDARY && BoundaryTwice(Turn(w).rests, Turn(w).i)
    ensures BoundaryTwice(w.rests, w.i)
  {
    var w' := Turn(w);
    var j, k :| w'.i <= j < k < |w'.rests| && w'.rests[j] == BOUNDARY && w'.rests[k] == BOUNDARY;
    assert w.rests[j + 1] == BOUNDARY && w.rests[k + 1] == BOUNDARY;
  }

  lemma FairTurn(w: Walk, requeued: bool)
    requires Fair(w, requeued) && !w.over && w.i < |w.rests| && !Turn(w).over
    ensures var r := w.rests[w.i];
      && Fair(Turn(w), requeued || r == BOUNDARY)
      && (requeued ==> r != BOUNDARY)
      && (r == BOUNDARY || |Turn(w).rests| - Turn(w).i < |w.rests| - w.i)
  {
    var w' := Turn(w);
    var r := w.rests[w.i];
    if r == BOUNDARY {
      forall k | w'.i <= k < |w'.rests| - 1
        ensures w'.rests[k] != BOUNDARY
      {
        assert w'.rests[k] == w.rests[k + 1];
      }
    } else if r < BOUNDARY {
      assert forall k :: w.i <= k < |w'.rests| ==> w'.rests[k] == w.rests[k + 1];
      if BoundaryTwice(w'.rests, w'.i) {
        TwiceBefore(w);
      }
    }
  }

  lemma {:induction false} FairEnds(w: Walk, requeued: bool) returns (n: nat)
    requires Fair(w, requeued) && !w.over
    ensures Turns(w, n).over
    decreases if requeued then 0 else 1, if w.i <= |w.rests| then |w.rests| - w.i else 0
  {
    if w.i >= |w.rests| || Turn(w).over {
      n := 1;
      assert Turns(w, 1) == Turns(Turn(w), 0);
    } else {
      FairTurn(w, requeued);
      var m := FairEnds(Turn(w), requeued || w.rests[w.i] == BOUNDARY);
      n := m + 1;
    }
  }

  /** The too-far check of a poll ends if and only if at most one timer has exactly 131071
      milliseconds to go. */
  lemma WalkEnds(rests: seq<nat>)
    ensures Ends(rests) <==> !BoundaryTwice(rests, 0)
  {
    var w := Walk(rests, 0, false);
    if BoundaryTwice(rests, 0) {
      forall n: nat
        ensures !Turns(w, n).over
      {
        NeverEnds(w, n);
      }
    } else {
      var n := FairEnds(w, false);
    }
  }

  ghost function Remaining(s: seq<Timer>, tm: map<Timer, TimerRec>, now: nat): (r: seq<nat>)
    requires forall k :: 0 <= k < |s| ==> s[k] in tm
    ensures |r| == |s| && forall k :: 0 <= k < |s| ==> r[k] == Rest(Due(tm[s[k]]), now)
  {
    seq(|s|, k requires 0 <= k < |s| => Rest(Due(tm[s[k]]), now))
  }

  /** TmDriver.Poll's precondition is therefore exactly that the poll's loop ends. */
  lemma PollEndsIff(ls: Lists, loc: map<Timer, Head>, tm: map<Timer, TimerRec>, now: nat)
    requires Listed(ls, loc) && loc.Keys <= tm.Keys
    ensures forall k :: 0 <= k < |At(ls, TooFar)| ==> At(ls, TooFar)[k] in tm
    ensures OneBoundary(loc, tm, now) <==> Ends(Remaining(At(ls, TooFar), tm, now))
  {
    hide Listed, Ends;
    var s := At(ls, TooFar);
    Members(ls, loc, TooFar);
    DistinctAt(ls, loc, TooFar);
    forall k | 0 <= k < |s|
      ensures s[k] in tm && s[k] in loc && loc[s[k]] == TooFar
    {
      assert s[k] in s;
    }
    var r := Remaining(s, tm, now);
    WalkEnds(r);
    if BoundaryTwice(r, 0) {
      var j, k :| 0 <= j < k < |r| && r[j] == BOUNDARY && r[k] == BOUNDARY;
      assert AtBoundary(loc, tm, now, s[j]) && AtBoundary(loc, tm, now, s[k]) && s[j] != s[k];
    } else {
      forall t, u | AtBoundary(loc, tm, now, t) && AtBoundary(loc, tm, now, u)
        ensures t == u
      {
        var j :| 0 <= j < |s| && s[j] == t;
        var k :| 0 <= k < |s| && s[k] == u;
        assert r[j] == BOUNDARY && r[k] == BOUNDARY;
      }
    }
  }
}
