/** The hierarchical timing wheel of src/mio_driver/event_in/yf_tm_event_in.c.
    One tick is 2 ms. Near slots hold single ticks, far slots hold periods of 64 ticks
    (128 ms), and everything 65536 ticks or more away waits on the too-far list. */
module TimerWheel {
  import opened BitOps
  import opened TimerLists
  import opened Deadlines
  import opened Seqs
  import opened Arith

  const NEAR_SLOTS := 128      // _YF_NEAREST_TIMER_ROLL_SIZE
  const FAR_SLOTS := 1024      // _YF_FAR_TIMER_ROLL_SIZE
  const TICK_MS := 2           // _YF_TIMER_PRCS_MS
  const FAR_MS := 128          // _YF_FAR_TIMER_PRCS_MS
  const NEAR_DIST_MS := 256    // _YF_NEAR_TIMER_MS_DIST
  const FAR_DIST_MS := 131072  // _YF_FAR_TIMER_MS_DIST

  datatype HeadPtr = Null | Ptr(h: Head)

  /** struct yf_timer_s: `head` is only written by LIST_ADD_TIMER and by expiry. */
  datatype TimerRec = TimerRec(start: nat, timeout: nat, head: HeadPtr)

  function Due(r: TimerRec): nat { r.start + r.timeout }

  /** Distance of a slot from the roll index. */
  function Off(i: nat, roll: nat): int { (i + NEAR_SLOTS - roll) % NEAR_SLOTS }

  /** yf_near_timer_inc and yf_far_timer_inc: the slot `off` places on from the roll index. */
  function Slot(roll: nat, off: nat): nat { (roll + off) % NEAR_SLOTS }

  function FarSlot(roll: nat, off: nat): nat { (roll + off) % FAR_SLOTS }

  function FarOff(j: nat, roll: nat): int { (j + FAR_SLOTS - roll) % FAR_SLOTS }

  /** Slot `off` serves tick `base + off + 1`, which lies within a millisecond of the
      deadline; only the very next slot may also hold a timer that is already late. */
  ghost predicate NearOk(due: nat, off: int, base: nat) {
    && due <= 2 * (base + off + 1) + 1
    && (due >= 2 * (base + off + 1) - 1 || off == 0)
  }

  /** Slot `off` serves far period `period + 1 + off`; the slot at the roll index serves none. */
  ghost predicate FarOk(due: nat, off: int, period: nat) {
    off >= 1 && FAR_MS * (period + 1 + off) - 1 <= due < FAR_MS * (period + 2 + off)
  }

  ghost predicate NearTimed(loc: map<Timer, Head>, tm: map<Timer, TimerRec>, roll: nat, base: nat) {
    forall t {:trigger loc[t]} ::
      t in loc && loc[t].Near? && t in tm ==> NearOk(Due(tm[t]), Off(loc[t].slot, roll), base)
  }

  ghost predicate FarTimed(loc: map<Timer, Head>, tm: map<Timer, TimerRec>, roll: nat, period: nat) {
    forall t {:trigger loc[t]} ::
      t in loc && loc[t].Far? && t in tm ==> FarOk(Due(tm[t]), FarOff(loc[t].slot, roll), period)
  }

  ghost predicate TooFarTimed(loc: map<Timer, Head>, tm: map<Timer, TimerRec>, half: nat) {
    forall t {:trigger loc[t]} :: t in loc && loc[t].TooFar? && t in tm ==> Due(tm[t]) >= 65536 * (half + 2) - 1
  }

  /** yf_del_timer trusts `head`: it must point at a near list exactly for near timers. */
  ghost predicate HeadsOk(loc: map<Timer, Head>, tm: map<Timer, TimerRec>) {
    forall t {:trigger loc[t]} :: t in loc ==>
      && t in tm
      && (loc[t].Near? ==> tm[t].head == Ptr(loc[t]))
      && (tm[t].head.Ptr? && tm[t].head.h.Near? ==> loc[t].Near?)
      && (loc[t].Expired? ==> tm[t].head == Null)
  }

  ghost predicate SlotsOk(loc: map<Timer, Head>) {
    forall t {:trigger loc[t]} :: t in loc ==>
      (loc[t].Near? ==> loc[t].slot < NEAR_SLOTS) && (loc[t].Far? ==> loc[t].slot < FAR_SLOTS)
  }

  /** Every flag from slot `lo` on tells whether its near list is non-empty. */
  ghost predicate FlagsFrom(w0: Word, w1: Word, ls: Lists, roll: nat, lo: nat) {
    forall s :: lo <= s < NEAR_SLOTS ==> (Bit(w0, w1, s) <==> At(ls, Near(Slot(roll, s))) != [])
  }

  /** One slot's list became (non-)empty and its flag followed. */
  lemma FlagFollows(w0: Word, w1: Word, ls: Lists, w0': Word, w1': Word, ls': Lists, roll: nat, index: nat)
    requires roll < NEAR_SLOTS && index < NEAR_SLOTS && FlagsFrom(w0, w1, ls, roll, 0)
    requires forall g :: g != Near(Slot(roll, index)) ==> At(ls', g) == At(ls, g)
    requires forall s :: 0 <= s < NEAR_SLOTS ==>
      (Bit(w0', w1', s) <==> if s == index then At(ls', Near(Slot(roll, index))) != [] else Bit(w0, w1, s))
    ensures FlagsFrom(w0', w1', ls', roll, 0)
  {
    hide Bit;
    forall s | 0 <= s < NEAR_SLOTS
      ensures Bit(w0', w1', s) <==> At(ls', Near(Slot(roll, s))) != []
    {
      OffOfSlot(s, roll);
      OffOfSlot(index, roll);
    }
  }

  /** `loc` after every timer of list `h` has expired. */
  ghost function ExpireHead(loc: map<Timer, Head>, h: Head): map<Timer, Head> {
    map t | t in loc :: if loc[t] == h then Expired else loc[t]
  }

  /** `loc` after the near slots at offsets lo..hi have expired. */
  ghost function ExpireNear(loc: map<Timer, Head>, roll: nat, lo: int, hi: int): map<Timer, Head> {
    map t | t in loc :: if loc[t].Near? && lo <= Off(loc[t].slot, roll) < hi then Expired else loc[t]
  }

  lemma ExpireNearJoin(loc: map<Timer, Head>, roll: nat, a: int, b: int, c: int)
    requires a <= b <= c
    ensures ExpireNear(ExpireNear(loc, roll, a, b), roll, b, c) == ExpireNear(loc, roll, a, c)
  {
  }

  lemma OffInverse(i: nat, roll: nat)
    requires i < NEAR_SLOTS && roll < NEAR_SLOTS
    ensures 0 <= Off(i, roll) < NEAR_SLOTS && Slot(roll, Off(i, roll)) == i
  {
  }

  lemma OffOfSlot(s: nat, roll: nat)
    requires s < NEAR_SLOTS && roll < NEAR_SLOTS
    ensures Slot(roll, s) < NEAR_SLOTS && Off(Slot(roll, s), roll) == s
  {
  }

  lemma ExpireOneSlot(loc: map<Timer, Head>, roll: nat, s: nat)
    requires s < NEAR_SLOTS && roll < NEAR_SLOTS && SlotsOk(loc)
    ensures ExpireNear(loc, roll, s, s + 1) == ExpireHead(loc, Near(Slot(roll, s)))
  {
    OffOfSlot(s, roll);
    forall t | t in loc && loc[t].Near?
      ensures Off(loc[t].slot, roll) == s <==> loc[t].slot == Slot(roll, s)
    {
      OffInverse(loc[t].slot, roll);
    }
  }

  /** No near timer in lo..hi: expiring that range changes nothing. */
  lemma ExpireNothing(ls: Lists, loc: map<Timer, Head>, roll: nat, lo: nat, hi: nat)
    requires Listed(ls, loc) && roll < NEAR_SLOTS && SlotsOk(loc)
    requires forall s :: lo <= s < hi && s < NEAR_SLOTS ==> At(ls, Near(Slot(roll, s))) == []
    ensures ExpireNear(loc, roll, lo, hi) == loc
  {
    forall t | t in loc && loc[t].Near?
      ensures !(lo <= Off(loc[t].slot, roll) < hi)
    {
      OffInverse(loc[t].slot, roll);
      assert t in At(ls, loc[t]);
      assert loc[t] == Near(Slot(roll, Off(loc[t].slot, roll)));
    }
  }

  function Clamp(x: int, n: nat): nat { if x <= 0 then 0 else if x <= n then x else n }

  /** yf_align(d, 2) */
  function AlignTick(ms: nat): nat { RoundUp(ms, TICK_MS) }

  function Rounded(ms: nat): nat { AlignTick(if ms < TICK_MS then TICK_MS else ms) }

  /** From bit `from` on, the bits tell which near lists from slot `lo` on are non-empty. */
  ghost predicate BitsTell(w: seq<bool>, ls: Lists, roll: nat, lo: nat, from: nat) {
    forall s :: from <= s < |w| ==> (w[s] <==> At(ls, Near(Slot(roll, lo + s))) != [])
  }

  lemma WordTells(w0: Word, w1: Word, ls: Lists, roll: nat, k: nat)
    requires k < 2 && FlagsFrom(w0, w1, ls, roll, 64 * k)
    ensures BitsTell(if k == 0 then w0 else w1, ls, roll, 64 * k, 0)
  {
    hide Slot, At;
    var w := if k == 0 then w0 else w1;
    forall s | 0 <= s < |w|
      ensures w[s] <==> At(ls, Near(Slot(roll, 64 * k + s))) != []
    {
      assert w[s] == Bit(w0, w1, 64 * k + s);
    }
  }

  lemma BitsStillTell(w: seq<bool>, ls: Lists, ls': Lists, roll: nat, lo: nat, from: nat, to: nat)
    requires BitsTell(w, ls, roll, lo, from) && from <= to && lo + |w| <= NEAR_SLOTS
    requires forall s :: lo + to <= s < NEAR_SLOTS ==> At(ls', Near(Slot(roll, s))) == At(ls, Near(Slot(roll, s)))
    ensures BitsTell(w, ls', roll, lo, to)
  {
  }

  lemma BitsPart(w: seq<bool>, ls: Lists, roll: nat, lo: nat, from: nat, n: nat)
    requires BitsTell(w, ls, roll, lo, from) && from + n <= |w|
    ensures BitsTell(w[from..from + n], ls, roll, lo + from, 0)
  {
    var part := w[from..from + n];
    forall s | 0 <= s < |part|
      ensures part[s] <==> At(ls, Near(Slot(roll, lo + from + s))) != []
    {
      assert w[from + s] <==> At(ls, Near(Slot(roll, lo + (from + s)))) != [];
    }
  }

  /** A stretch of clear bits: no timer is due there. */
  lemma ClearStretch(w: seq<bool>, ls: Lists, loc: map<Timer, Head>, roll: nat, lo: nat, from: nat, to: nat)
    requires Listed(ls, loc) && roll < NEAR_SLOTS && SlotsOk(loc) && from <= to <= |w|
    requires BitsTell(w, ls, roll, lo, from)
    requires forall s :: from <= s < to ==> !w[s]
    ensures ExpireNear(loc, roll, lo + from, lo + to) == loc
  {
    hide Listed, Slot, Off, ExpireNear;
    forall s {:trigger Slot(roll, s)} | lo + from <= s < lo + to
      ensures At(ls, Near(Slot(roll, s))) == []
    {
      assert !w[s - lo] && s == lo + (s - lo);
    }
    ExpireNothing(ls, loc, roll, lo + from, lo + to);
  }

  lemma BeyondLast(loc: map<Timer, Head>, roll: nat, diff: nat)
    ensures ExpireNear(loc, roll, 0, diff) == ExpireNear(loc, roll, 0, Clamp(diff, NEAR_SLOTS))
  {
  }

  /** A list at or beyond `diff` is non-empty after expiry exactly if it was before. */
  lemma ListSurvives(ls: Lists, loc: map<Timer, Head>, ls': Lists, loc': map<Timer, Head>, roll: nat, diff: nat, s: nat)
    requires Listed(ls, loc) && Listed(ls', loc') && roll < NEAR_SLOTS && diff <= s < NEAR_SLOTS
    requires loc' == ExpireNear(loc, roll, 0, diff)
    ensures At(ls, Near(Slot(roll, s))) != [] <==> At(ls', Near(Slot(roll, s))) != []
  {
    hide Listed, Slot;
    var h := Near(Slot(roll, s));
    OffOfSlot(s, roll);
    Members(ls, loc, h);
    Members(ls', loc', h);
    NonEmpty(At(ls, h));
    NonEmpty(At(ls', h));
    assert forall t :: t in loc && loc[t] == h <==> t in loc' && loc'[t] == h;
  }

  lemma ListGone(ls: Lists, loc: map<Timer, Head>, h: Head)
    requires Listed(ls, loc) && (forall t :: t in loc ==> loc[t] != h)
    ensures At(ls, h) == []
  {
    Members(ls, loc, h);
    NonEmpty(At(ls, h));
  }

  lemma ShiftedFlags(w0: Word, w1: Word, ls: Lists, loc: map<Timer, Head>, w0': Word, w1': Word,
                     ls': Lists, loc': map<Timer, Head>, roll: nat, diff: nat)
    requires roll < NEAR_SLOTS && 0 < diff < NEAR_SLOTS
    requires Listed(ls, loc) && Listed(ls', loc') && loc' == ExpireNear(loc, roll, 0, diff) && SlotsOk(loc)
    requires FlagsFrom(w0, w1, ls, roll, 0)
    requires diff < 64 ==> w0' == Or(Shr(w0, diff), Shl(w1, 64 - diff)) && w1' == Shr(w1, diff)
    requires diff >= 64 ==> w0' == Shr(w1, diff - 64) && w1' == ZERO
    ensures FlagsFrom(w0', w1', ls', (roll + diff) % NEAR_SLOTS, 0)
  {
    hide Listed, ExpireNear, At, Bit, Slot, Or, Shr, Shl;
    var roll' := (roll + diff) % NEAR_SLOTS;
    forall s | 0 <= s < NEAR_SLOTS
      ensures Bit(w0', w1', s) <==> At(ls', Near(Slot(roll', s))) != []
    {
      BitShifted(w0, w1, w0', w1', diff, s);
      if s + diff < NEAR_SLOTS {
        SlotShifted(roll, diff, s);
        ListSurvives(ls, loc, ls', loc', roll, diff, s + diff);
      } else {
        WrappedSlotEmpty(ls', loc, loc', roll, diff, s);
      }
    }
  }

  lemma BitShifted(w0: Word, w1: Word, w0': Word, w1': Word, diff: nat, s: nat)
    requires 0 < diff < NEAR_SLOTS && s < NEAR_SLOTS
    requires diff < 64 ==> w0' == Or(Shr(w0, diff), Shl(w1, 64 - diff)) && w1' == Shr(w1, diff)
    requires diff >= 64 ==> w0' == Shr(w1, diff - 64) && w1' == ZERO
    ensures Bit(w0', w1', s) <==> s + diff < NEAR_SLOTS && Bit(w0, w1, s + diff)
  {
  }

  lemma SlotShifted(roll: nat, diff: nat, s: nat)
    requires roll < NEAR_SLOTS && diff < NEAR_SLOTS && s < NEAR_SLOTS
    ensures Slot((roll + diff) % NEAR_SLOTS, s) == Slot(roll, s + diff)
  {
    if roll + diff >= NEAR_SLOTS {
      assert (roll + diff) % NEAR_SLOTS == roll + diff - NEAR_SLOTS;
    }
  }

  lemma WrappedSlotEmpty(ls': Lists, loc: map<Timer, Head>, loc': map<Timer, Head>, roll: nat, diff: nat, s: nat)
    requires Listed(ls', loc') && loc' == ExpireNear(loc, roll, 0, diff)
    requires roll < NEAR_SLOTS && 0 < diff < NEAR_SLOTS && s < NEAR_SLOTS <= s + diff
    ensures At(ls', Near(Slot((roll + diff) % NEAR_SLOTS, s))) == []
  {
    hide Listed, Slot, Off;
    WrappedOff(roll, diff, s);
    ListGone(ls', loc', Near(Slot((roll + diff) % NEAR_SLOTS, s)));
  }

  lemma WrappedOff(roll: nat, diff: nat, s: nat)
    requires roll < NEAR_SLOTS && 0 < diff < NEAR_SLOTS && s < NEAR_SLOTS <= s + diff
    ensures 0 <= Off(Slot((roll + diff) % NEAR_SLOTS, s), roll) < diff
  {
    var roll' := if roll + diff < NEAR_SLOTS then roll + diff else roll + diff - NEAR_SLOTS;
    assert (roll + diff) % NEAR_SLOTS == roll';
    var slot := if roll' + s < NEAR_SLOTS then roll' + s else roll' + s - NEAR_SLOTS;
    assert Slot(roll', s) == slot;
  }

  lemma OffShift(i: nat, roll: nat, diff: nat)
    requires i < NEAR_SLOTS && roll < NEAR_SLOTS && diff < NEAR_SLOTS && Off(i, roll) >= diff
    ensures Off(i, (roll + diff) % NEAR_SLOTS) == Off(i, roll) - diff
  {
  }

  lemma ShiftedTimes(loc: map<Timer, Head>, tm: map<Timer, TimerRec>, loc': map<Timer, Head>,
                     tm': map<Timer, TimerRec>, roll: nat, diff: nat, base: nat)
    requires roll < NEAR_SLOTS && 0 < diff < NEAR_SLOTS && SlotsOk(loc)
    requires NearTimed(loc, tm, roll, base) && loc' == ExpireNear(loc, roll, 0, diff)
    requires SameDues(tm, tm')
    ensures NearTimed(loc', tm', (roll + diff) % NEAR_SLOTS, base + diff)
  {
    hide Off;
    var roll' := (roll + diff) % NEAR_SLOTS;
    forall t {:trigger loc'[t]} | t in loc' && loc'[t].Near? && t in tm'
      ensures NearOk(Due(tm'[t]), Off(loc'[t].slot, roll'), base + diff)
    {
      OffInverse(loc[t].slot, roll);
      assert loc[t] == loc'[t] && Off(loc[t].slot, roll) >= diff;
      OffShift(loc[t].slot, roll, diff);
    }
  }

  /** With no near timer left the cleared bitmap is right for any roll index and tick. */
  lemma NoNear(ls: Lists, loc: map<Timer, Head>, tm: map<Timer, TimerRec>, roll: nat, base: nat)
    requires Listed(ls, loc) && |NearSet(loc)| == 0
    ensures FlagsFrom(ZERO, ZERO, ls, roll, 0)
    ensures NearTimed(loc, tm, roll, base)
    ensures forall lo, hi :: ExpireNear(loc, roll, lo, hi) == loc
  {
    NearSetEmpty(ls, loc);
  }

  lemma NoNearBeyond(loc: map<Timer, Head>, loc': map<Timer, Head>, roll: nat, diff: nat)
    requires roll < NEAR_SLOTS <= diff && SlotsOk(loc) && loc' == ExpireNear(loc, roll, 0, diff)
    ensures NearSet(loc') == {}
  {
    forall t | t in loc'
      ensures !loc'[t].Near?
    {
      if loc[t].Near? {
        OffInverse(loc[t].slot, roll);
      }
    }
  }

  lemma ExpireNone(loc: map<Timer, Head>, roll: nat, lo: int)
    ensures ExpireNear(loc, roll, lo, lo) == loc
  {
  }

  /** From bit `done` on, the set bits are `indexs[i..]`, in order. */
  ghost predicate Ahead(bits: seq<bool>, indexs: seq<nat>, i: nat, done: nat) {
    && i <= |indexs| && done <= |bits| && (forall j, k :: 0 <= j < k < |indexs| ==> indexs[j] < indexs[k])
    && (forall k :: i <= k < |indexs| ==> done <= indexs[k] < |bits| && bits[indexs[k]])
    && (forall b :: done <= b < |bits| && bits[b] ==> exists k :: i <= k < |indexs| && indexs[k] == b)
  }

  lemma GapIsEmpty(bits: seq<bool>, indexs: seq<nat>, i: nat, done: nat)
    requires Ahead(bits, indexs, i, done) && i < |indexs|
    ensures done <= indexs[i] < |bits| && bits[indexs[i]] && forall c :: done <= c < indexs[i] ==> !bits[c]
    ensures Ahead(bits, indexs, i + 1, indexs[i] + 1)
  {
    forall c | indexs[i] + 1 <= c < |bits| && bits[c]
      ensures exists k :: i + 1 <= k < |indexs| && indexs[k] == c
    {
      var k :| i <= k < |indexs| && indexs[k] == c;
      assert k != i;
    }
  }

  lemma AllAhead(bits: seq<bool>)
    ensures Ahead(bits, SetBits(bits), 0, 0)
  {
    hide SetBits;
  }

  lemma ClampIs(x: int, n: nat)
    ensures Clamp(x, n) == if x <= 0 then 0 else if x <= n then x else n
  {
  }

  /** The near lists of slot `s` and later ones are as they were. */
  ghost predicate SameFrom(ls: Lists, ls': Lists, roll: nat, s: nat) {
    forall k :: s <= k < NEAR_SLOTS ==> At(ls', Near(Slot(roll, k))) == At(ls, Near(Slot(roll, k)))
  }

  lemma ClearUpTo(bits: seq<bool>, indexs: seq<nat>, i: nat, done: nat, end: nat)
    requires Ahead(bits, indexs, i, done) && end <= |bits| && (i < |indexs| ==> end <= indexs[i])
    ensures forall b :: done <= b < end ==> !bits[b]
  {
  }

  /** Where yf_add_near_timer puts a timer with `due - now` (at least a tick) to go. */
  function RestMs(due: nat, now: nat): nat {
    AlignTick(if due - now < TICK_MS then TICK_MS else due - now)
  }

  lemma PlacedNear(due: nat, now: nat, tick: nat)
    requires now / 2 == tick
    ensures RestMs(due, now) >= TICK_MS && NearOk(due, RestMs(due, now) / 2 - 1, tick)
  {
  }

  lemma NearTimedDrop(loc: map<Timer, Head>, tm: map<Timer, TimerRec>, roll: nat, base: nat, t: Timer)
    requires NearTimed(loc, tm, roll, base)
    ensures NearTimed(loc - {t}, tm, roll, base)
  {
  }

  lemma NearTimedLink(loc: map<Timer, Head>, tm: map<Timer, TimerRec>, roll: nat, base: nat,
                      t: Timer, off: nat, tm': map<Timer, TimerRec>)
    requires roll < NEAR_SLOTS && off < NEAR_SLOTS && NearTimed(loc - {t}, tm, roll, base)
    requires t in tm && SameDues(tm, tm')
    requires NearOk(Due(tm[t]), off, base)
    ensures NearTimed(loc[t := Near(Slot(roll, off))], tm', roll, base)
  {
    hide Off, NearOk, Slot;
    OffOfSlot(off, roll);
    forall x {:trigger x in tm'} | x in loc && x != t
      ensures x in loc - {t} && (loc - {t})[x] == loc[x]
    {
    }
  }

  /** `loc'` is `loc` with list `h` emptied: its timers that are due expired if `expires`,
      and all others moved to near slots. */
  ghost predicate Migrated(loc: map<Timer, Head>, loc': map<Timer, Head>, tm: map<Timer, TimerRec>,
                           h: Head, now: nat, expires: bool) {
    && loc'.Keys == loc.Keys
    && forall t {:trigger loc'[t]} {:trigger loc[t]} :: t in loc && t in tm ==>
         if loc[t] != h then loc'[t] == loc[t]
         else if expires && now >= Due(tm[t]) then loc'[t] == Expired
         else loc'[t].Near?
  }

  /** Part way through such a migration: some timers are still on list `h`. */
  ghost predicate Migrating(loc: map<Timer, Head>, loc': map<Timer, Head>, tm: map<Timer, TimerRec>,
                            h: Head, now: nat, expires: bool) {
    && loc'.Keys == loc.Keys
    && forall t {:trigger loc'[t]} {:trigger loc[t]} :: t in loc && t in tm ==>
         || loc'[t] == loc[t]
         || (loc[t] == h && if expires && now >= Due(tm[t]) then loc'[t] == Expired else loc'[t].Near?)
  }

  lemma NearTimedSame(loc: map<Timer, Head>, tm: map<Timer, TimerRec>, loc': map<Timer, Head>,
                      tm': map<Timer, TimerRec>, roll: nat, base: nat)
    requires NearTimed(loc, tm, roll, base) && SameDues(tm, tm')
    requires forall t :: t in loc' && loc'[t].Near? ==> t in loc && loc[t] == loc'[t]
    ensures NearTimed(loc', tm', roll, base)
  {
    hide NearOk, Off;
  }

  /** Timers of list `h` are being moved to the expired list. */
  ghost predicate Expiring(loc: map<Timer, Head>, loc': map<Timer, Head>, h: Head) {
    && loc'.Keys == loc.Keys
    && forall t {:trigger loc'[t]} :: t in loc ==> loc'[t] == loc[t] || (loc[t] == h && loc'[t] == Expired)
  }

  lemma ExpiringSelf(loc: map<Timer, Head>, h: Head)
    ensures Expiring(loc, loc, h)
  {
  }

  lemma ExpiringOne(loc: map<Timer, Head>, loc1: map<Timer, Head>, h: Head, t: Timer)
    requires Expiring(loc, loc1, h) && t in loc1 && loc1[t] == h && h != Expired
    ensures Expiring(loc, loc1[t := Expired], h)
  {
  }

  lemma ExpiringAll(loc: map<Timer, Head>, loc': map<Timer, Head>, h: Head)
    requires Expiring(loc, loc', h) && h != Expired && forall t :: t in loc' ==> loc'[t] != h
    ensures loc' == ExpireHead(loc, h)
  {
  }

  lemma MigratingSelf(loc: map<Timer, Head>, tm: map<Timer, TimerRec>, h: Head, now: nat, expires: bool)
    ensures Migrating(loc, loc, tm, h, now, expires)
  {
  }

  lemma StillNear(loc: map<Timer, Head>, tm: map<Timer, TimerRec>, loc1: map<Timer, Head>, tm1: map<Timer, TimerRec>,
                  t: Timer, h: Head, now: nat, expires: bool)
    requires Migrating(loc, loc1, tm1, h, now, expires) && SameDues(tm, tm1) && loc.Keys <= tm.Keys && h.Far?
    requires forall x :: x in loc && loc[x] == h ==> Due(tm[x]) <= now + NEAR_DIST_MS
    ensures t in loc1 && loc1[t] == h ==> t in tm1 && Due(tm1[t]) <= now + NEAR_DIST_MS
  {
  }

  lemma MigratingOne(loc: map<Timer, Head>, loc1: map<Timer, Head>, tm1: map<Timer, TimerRec>, loc2: map<Timer, Head>,
                     tm2: map<Timer, TimerRec>, t: Timer, h: Head, now: nat, expires: bool)
    requires Migrating(loc, loc1, tm1, h, now, expires) && SameDues(tm1, tm2) && h.Far?
    requires t in loc1 && t in tm1 && loc1[t] == h && loc2.Keys == loc1.Keys
    requires forall x :: x in loc1 && x != t ==> loc2[x] == loc1[x]
    requires if expires && now >= Due(tm1[t]) then loc2[t] == Expired else loc2[t].Near?
    ensures Migrating(loc, loc2, tm2, h, now, expires)
  {
    hide Due;
  }

  lemma MigratingAll(loc: map<Timer, Head>, loc': map<Timer, Head>, tm: map<Timer, TimerRec>, h: Head, now: nat,
                     expires: bool)
    requires Migrating(loc, loc', tm, h, now, expires) && forall t :: t in loc' ==> loc'[t] != h
    ensures Migrated(loc, loc', tm, h, now, expires)
  {
  }

  lemma SameNearLists(w0: Word, w1: Word, ls: Lists, ls': Lists, roll: nat)
    requires FlagsFrom(w0, w1, ls, roll, 0)
    requires forall g: Head :: g.Near? ==> At(ls', g) == At(ls, g)
    ensures FlagsFrom(w0, w1, ls', roll, 0)
  {
    hide Bit, Slot;
  }

  /** `loc` after the far slots at offsets 1..hi have expired. */
  ghost function ExpireFar(loc: map<Timer, Head>, roll: nat, hi: int): map<Timer, Head> {
    map t | t in loc :: if loc[t].Far? && 1 <= FarOff(loc[t].slot, roll) < hi then Expired else loc[t]
  }

  lemma ExpireFarNone(loc: map<Timer, Head>, roll: nat)
    ensures ExpireFar(loc, roll, 1) == loc
  {
  }

  lemma FarOffInverse(j: nat, roll: nat, off: nat)
    requires j < FAR_SLOTS && roll < FAR_SLOTS
    ensures 0 <= FarOff(j, roll) < FAR_SLOTS
    ensures FarSlot(roll, off) < FAR_SLOTS
    ensures j == FarSlot(roll, off) <==> FarOff(j, roll) == off % FAR_SLOTS
  {
  }

  /** Expiring the list at offset `i` extends the expired range by one, also once `i` has
      gone around the roll. */
  lemma ExpireFarOne(loc: map<Timer, Head>, roll: nat, i: nat)
    requires roll < FAR_SLOTS && i >= 1 && SlotsOk(loc)
    requires forall t :: t in loc && loc[t].Far? ==> FarOff(loc[t].slot, roll) >= 1
    ensures ExpireHead(ExpireFar(loc, roll, i), Far(FarSlot(roll, i))) == ExpireFar(loc, roll, i + 1)
  {
    hide FarOff, FarSlot;
    forall t | t in loc && loc[t].Far?
      ensures FarOff(loc[t].slot, roll) < FAR_SLOTS
      ensures loc[t].slot == FarSlot(roll, i) <==> FarOff(loc[t].slot, roll) == i % FAR_SLOTS
    {
      FarOffInverse(loc[t].slot, roll, i);
    }
  }

  /** Far timers as the old roll index saw them, all those below offset `lo` gone. */
  ghost predicate FarLeft(loc: map<Timer, Head>, tm: map<Timer, TimerRec>, roll: nat, cnt: nat, lo: nat) {
    forall t {:trigger loc[t]} :: t in loc && loc[t].Far? && t in tm ==>
      FarOk(Due(tm[t]), FarOff(loc[t].slot, roll), cnt) && FarOff(loc[t].slot, roll) >= lo
  }

  /** What polling does to far timers: each stays, or fires being due, or comes near not being due. */
  ghost predicate FarPolled(loc: map<Timer, Head>, loc': map<Timer, Head>, tm: map<Timer, TimerRec>, now: nat) {
    && loc'.Keys == loc.Keys
    && forall t {:trigger loc'[t]} {:trigger loc[t]} :: t in loc && t in tm ==>
         || loc'[t] == loc[t]
         || (loc[t].Far? && loc'[t].Expired? && Due(tm[t]) <= 2 * (now / 2) + 1)
         || (loc[t].Far? && loc'[t].Near? && Due(tm[t]) > 2 * (now / 2))
  }

  lemma FarStart(loc: map<Timer, Head>, tm: map<Timer, TimerRec>, roll: nat, cnt: nat, now: nat)
    requires FarTimed(loc, tm, roll, cnt) && loc.Keys <= tm.Keys
    ensures FarLeft(loc, tm, roll, cnt, 1) && FarPolled(loc, loc, tm, now)
    ensures forall t :: t in loc && loc[t].Far? ==> FarOff(loc[t].slot, roll) >= 1
  {
  }

  lemma FarExpired(loc: map<Timer, Head>, tm: map<Timer, TimerRec>, loc': map<Timer, Head>,
                   tm': map<Timer, TimerRec>, roll: nat, cnt: nat, diff: nat, now: nat, nearRoll: nat)
    requires FarLeft(loc, tm, roll, cnt, 1) && loc' == ExpireFar(loc, roll, diff - 1) && diff > 1
    requires (now / 2) / 64 == cnt + diff && loc.Keys <= tm.Keys
    requires SameDues(tm, tm')
    ensures FarLeft(loc', tm', roll, cnt, diff - 1) && FarPolled(loc, loc', tm', now)
    ensures NearTimed(loc, tm, nearRoll, now / 2) ==> NearTimed(loc', tm', nearRoll, now / 2)
  {
    hide FarOff, NearOk, Off;
  }

  /** The timers on the list at offset `lo` are exactly those of one period. */
  lemma FarAt(loc: map<Timer, Head>, tm: map<Timer, TimerRec>, roll: nat, cnt: nat, lo: nat, now: nat)
    requires FarLeft(loc, tm, roll, cnt, lo) && SlotsOk(loc) && roll < FAR_SLOTS && loc.Keys <= tm.Keys
    requires cnt + lo <= (now / 2) / 64
    ensures forall t :: t in loc && loc[t] == Far(FarSlot(roll, lo)) ==> Due(tm[t]) <= now + NEAR_DIST_MS
  {
    hide FarOff, FarSlot;
    forall t | t in loc && loc[t] == Far(FarSlot(roll, lo))
      ensures Due(tm[t]) <= now + NEAR_DIST_MS
    {
      FarOffInverse(loc[t].slot, roll, lo);
    }
  }

  lemma FarMigrated(loc: map<Timer, Head>, tm: map<Timer, TimerRec>, loc': map<Timer, Head>,
                    tm': map<Timer, TimerRec>, roll: nat, cnt: nat, lo: nat, now: nat, expires: bool)
    requires FarLeft(loc, tm, roll, cnt, lo) && SlotsOk(loc) && roll < FAR_SLOTS && loc.Keys <= tm.Keys
    requires Migrated(loc, loc', tm', Far(FarSlot(roll, lo)), now, expires)
    requires SameDues(tm, tm')
    requires expires || (now / 2) / 64 == cnt + lo
    ensures FarLeft(loc', tm', roll, cnt, lo + 1) && FarPolled(loc, loc', tm', now)
  {
    hide FarOff, FarSlot;
    forall t | t in loc && loc[t].Far?
      ensures 0 <= FarOff(loc[t].slot, roll) < FAR_SLOTS
      ensures loc[t].slot == FarSlot(roll, lo) <==> FarOff(loc[t].slot, roll) == lo % FAR_SLOTS
    {
      FarOffInverse(loc[t].slot, roll, lo);
    }
  }

  lemma FarPolledTrans(loc: map<Timer, Head>, loc1: map<Timer, Head>, loc2: map<Timer, Head>,
                       tm1: map<Timer, TimerRec>, tm: map<Timer, TimerRec>, now: nat)
    requires FarPolled(loc, loc1, tm1, now) && FarPolled(loc1, loc2, tm, now)
    requires SameDues(tm1, tm)
    ensures FarPolled(loc, loc2, tm, now)
  {
  }

  lemma FarOffMoved(j: nat, roll: nat, diff: nat)
    requires j < FAR_SLOTS && roll < FAR_SLOTS && diff <= FarOff(j, roll)
    ensures FarOff(j, FarSlot(roll, diff)) == FarOff(j, roll) - diff
  {
    var moved := FarSlot(roll, diff);
    assert moved == roll + diff || moved == roll + diff - FAR_SLOTS;
    assert FarOff(j, roll) == if j < roll then j + FAR_SLOTS - roll else j - roll;
  }

  /** Seen from the moved roll index, what is left is again laid out by period. */
  lemma FarEnd(loc: map<Timer, Head>, tm: map<Timer, TimerRec>, roll: nat, cnt: nat, diff: nat)
    requires FarLeft(loc, tm, roll, cnt, diff + 1) && SlotsOk(loc) && roll < FAR_SLOTS
    ensures FarTimed(loc, tm, FarSlot(roll, diff), cnt + diff)
  {
    hide FarOff, FarSlot;
    forall t {:trigger loc[t]} | t in loc && loc[t].Far? && t in tm
      ensures FarOk(Due(tm[t]), FarOff(loc[t].slot, FarSlot(roll, diff)), cnt + diff)
    {
      FarOffMoved(loc[t].slot, roll, diff);
    }
  }

  /** The poller sleeps nearest_timeout_ms >> 2. */
  ghost predicate SleepOk(ms: nat, loc: map<Timer, Head>, roll: nat) {
    && ms <= 3 * FAR_MS
    && forall t {:trigger loc[t]} :: t in loc && loc[t].Near? ==> ms <= 2 * (Off(loc[t].slot, roll) + 1)
  }

  /** A deadline for which a nearest timeout of `ms` is right: it is reached when that has passed, or no
      timer is near and the far slot looked at covers it. */
  ghost predicate WakesFor(due: nat, tick: nat, ms: nat) {
    due <= 2 * tick + ms + 1 || ((ms == FAR_MS || ms == 2 * FAR_MS) && due < 2 * tick + ms + 2 * FAR_MS)
  }

  /** The nearest timeout is the longest there is, or some filed timer is the reason that it is not. */
  ghost predicate Wakes(s: Sched, ms: nat) {
    ms == 3 * FAR_MS || exists t :: t in s.filed && WakesFor(s.filed[t], s.tick, ms)
  }

  ghost predicate WakesIn(loc: map<Timer, Head>, tm: map<Timer, TimerRec>, tick: nat, ms: nat) {
    ms == 3 * FAR_MS
    || exists t :: t in loc && t in tm && (loc[t].Near? || loc[t].Far?) && WakesFor(Due(tm[t]), tick, ms)
  }

  lemma NearestWakes(ls: Lists, loc: map<Timer, Head>, tm: map<Timer, TimerRec>, nearRoll: nat, farRoll: nat, tick: nat,
                     ms: nat)
    requires Listed(ls, loc) && loc.Keys <= tm.Keys && RollTimed(loc, tm, nearRoll, farRoll, tick)
    requires farRoll < FAR_SLOTS
    requires (exists t :: t in loc && loc[t].Near? && ms == 2 * (Off(loc[t].slot, nearRoll) + 1))
      || ms == FAR_MS * FirstFar(ls, farRoll)
    ensures WakesIn(loc, tm, tick, ms)
  {
    hide Listed, Off, FarOff, FarSlot, At, NearOk, FarOk;
    if t :| t in loc && loc[t].Near? && ms == 2 * (Off(loc[t].slot, nearRoll) + 1) {
      NearWakes(Due(tm[t]), Off(loc[t].slot, nearRoll), tick);
    } else if FirstFar(ls, farRoll) < 3 {
      var k := FirstFar(ls, farRoll);
      var h := Far(FarSlot(farRoll, k));
      var t := At(ls, h)[0];
      Members(ls, loc, h);
      assert t in At(ls, h);
      FarOffInverse(0, farRoll, k);
      FarOffInverse(h.slot, farRoll, k);
      FarWakes(Due(tm[t]), k, tick);
    }
  }

  lemma NearWakes(due: nat, off: int, tick: nat)
    requires NearOk(due, off, tick) && off >= -1
    ensures WakesFor(due, tick, 2 * (off + 1))
  {
  }

  lemma FarWakes(due: nat, k: nat, tick: nat)
    requires FarOk(due, k, tick / 64) && 1 <= k <= 2
    ensures WakesFor(due, tick, FAR_MS * k)
  {
  }

  /** Timers that come to the far slots do not take the reason away. */
  lemma WakesKept(loc: map<Timer, Head>, tm: map<Timer, TimerRec>, loc': map<Timer, Head>, tm': map<Timer, TimerRec>,
                  now: nat, tick: nat, ms: nat)
    requires WakesIn(loc, tm, tick, ms) && TooFarPolled(loc, loc', tm', now) && SameDues(tm, tm')
    ensures WakesIn(loc', tm', tick, ms)
  {
    hide WakesFor, Due;
    if ms != 3 * FAR_MS {
      var t :| t in loc && t in tm && (loc[t].Near? || loc[t].Far?) && WakesFor(Due(tm[t]), tick, ms);
      assert t in loc' && loc'[t] == loc[t] && Due(tm'[t]) == Due(tm[t]);
    }
  }

  lemma WakesAll(loc: map<Timer, Head>, tm: map<Timer, TimerRec>, s: Sched, ms: nat)
    requires loc.Keys <= tm.Keys && WakesIn(loc, tm, s.tick, ms) && s.filed == FiledOf(loc, tm)
    ensures Wakes(s, ms)
  {
    hide WakesFor, Due;
    if ms != 3 * FAR_MS {
      var t :| t in loc && t in tm && (loc[t].Near? || loc[t].Far?) && WakesFor(Due(tm[t]), s.tick, ms);
      assert t in s.filed;
    }
  }

  /** The nearest timeout once a timer with this timeout is filed. */
  function Nearer(ms: nat, timeout: nat): nat {
    if Rounded(timeout) < NEAR_DIST_MS && Rounded(timeout) < ms then Rounded(timeout) else ms
  }

  lemma SetIn(w: seq<bool>, a: nat, b: nat)
    requires a <= b <= |w|
    ensures true in w[a..b] <==> exists j :: a <= j < b && w[j]
  {
    if true in w[a..b] {
      var k :| 0 <= k < b - a && w[a..b][k];
      assert w[a + k];
    }
    if j :| a <= j < b && w[j] {
      assert w[a..b][j - a];
    }
  }

  /** Where the halving settles. */
  function Half(w: Word): nat {
    if true in w[..32] then (if true in w[..16] then 0 else 16) else if true in w[32..48] then 32 else 48
  }

  /** The sixteen bits that the halving settles on are the lowest that are not all clear. */
  lemma LowestPart(w: Word, base: nat)
    requires true in w
    requires base == Half(w)
    ensures (forall j :: 0 <= j < base ==> !w[j]) && true in w[base..base + 16]
  {
    assert w == w[0..64] && w[..32] == w[0..32] && w[..16] == w[0..16];
    SetIn(w, 0, 64);
    SetIn(w, 0, 32);
    SetIn(w, 0, 16);
    SetIn(w, 32, 48);
    SetIn(w, base, base + 16);
  }

  /** _YF_GET_NEARSET_TM_MS: the lowest set bit, found by halving and then by the table. */
  method FirstSet(w: Word) returns (i: nat)
    requires true in w
    ensures i < 64 && w[i] && forall j :: 0 <= j < i ==> !w[j]
  {
    hide SetBits;
    var base;
    if true in w[..32] {
      base := if true in w[..16] then 0 else 16;
    } else {
      base := if true in w[32..48] then 32 else 48;
    }
    Lowest(w, base);
    i := base + SetBits(w[base..base + 16])[0];
  }

  lemma Lowest(w: Word, base: nat)
    requires true in w
    requires base == Half(w)
    ensures SetBits(w[base..base + 16]) != []
    ensures var i := base + SetBits(w[base..base + 16])[0]; i < 64 && w[i] && forall j :: 0 <= j < i ==> !w[j]
  {
    LowestPart(w, base);
    LowestIn(w, base);
  }

  lemma LowestIn(w: Word, base: nat)
    requires base <= 48 && (forall j :: 0 <= j < base ==> !w[j]) && true in w[base..base + 16]
    ensures SetBits(w[base..base + 16]) != []
    ensures var i := base + SetBits(w[base..base + 16])[0]; i < 64 && w[i] && forall j :: 0 <= j < i ==> !w[j]
  {
    hide SetBits;
    var part := w[base..base + 16];
    FirstIndex(part);
    var i := base + SetBits(part)[0];
    assert w[i] == part[i - base];
    forall j | base <= j < i
      ensures !w[j]
    {
      assert w[j] == part[j - base];
    }
  }

  lemma FirstIndex(part: seq<bool>)
    requires |part| == 16 && true in part
    ensures SetBits(part) != [] && SetBits(part)[0] < 16 && part[SetBits(part)[0]]
    ensures forall j :: 0 <= j < SetBits(part)[0] ==> !part[j]
  {
    hide SetBits;
    var some :| 0 <= some < 16 && part[some];
    var indexs := SetBits(part);
    forall j | 0 <= j < indexs[0]
      ensures !part[j]
    {
      assert part[j] ==> j in indexs;
    }
  }

  lemma SomeFlag(w0: Word, w1: Word, ls: Lists, loc: map<Timer, Head>, roll: nat)
    requires Listed(ls, loc) && SlotsOk(loc) && roll < NEAR_SLOTS && FlagsFrom(w0, w1, ls, roll, 0)
    requires |NearSet(loc)| > 0
    ensures true in w0 || true in w1
  {
    hide Listed, Off, Slot;
    var t :| t in NearSet(loc);
    var s := Off(loc[t].slot, roll);
    OffInverse(loc[t].slot, roll);
    Members(ls, loc, Near(Slot(roll, s)));
    assert t in At(ls, loc[t]);
    assert Bit(w0, w1, s);
    if s < 64 {
      assert w0[s];
    } else {
      assert w1[s - 64];
    }
  }

  lemma FirstFlag(w0: Word, w1: Word, ls: Lists, loc: map<Timer, Head>, roll: nat, i: nat)
    requires Listed(ls, loc) && SlotsOk(loc) && roll < NEAR_SLOTS && FlagsFrom(w0, w1, ls, roll, 0)
    requires i < NEAR_SLOTS && Bit(w0, w1, i) && forall j :: 0 <= j < i ==> !Bit(w0, w1, j)
    ensures SleepOk(2 * (i + 1), loc, roll)
    ensures exists t :: t in loc && loc[t].Near? && Off(loc[t].slot, roll) == i
  {
    hide Listed, Off, Slot, Bit;
    OffOfSlot(i, roll);
    Members(ls, loc, Near(Slot(roll, i)));
    NonEmpty(At(ls, Near(Slot(roll, i))));
    forall t | t in loc && loc[t].Near?
      ensures i <= Off(loc[t].slot, roll)
    {
      OffInverse(loc[t].slot, roll);
      Members(ls, loc, loc[t]);
      assert t in At(ls, Near(Slot(roll, Off(loc[t].slot, roll))));
    }
  }

  lemma FlagStays(ls: Lists, loc: map<Timer, Head>, h: Head, w0: Word, w1: Word, roll: nat, index: nat)
    requires h.Near? && index < NEAR_SLOTS && h.slot == Slot(roll, index)
    requires FlagsFrom(w0, w1, ls, roll, 0) && At(ls, h) != []
    ensures Bit(w0, w1, index)
  {
  }

  predicate NearHead(p: HeadPtr) { p.Ptr? && p.h.Near? }

  /** The list yf_add_timer chooses for a timeout of `tmMs`. */
  function Target(tmMs: nat, tick: nat, nearRoll: nat, farRoll: nat): Head {
    var ms := Rounded(tmMs);
    if ms >= FAR_DIST_MS then TooFar
    else if ms >= NEAR_DIST_MS then Far(FarSlot(farRoll, (ms - (FAR_MS - tick * 2 % FAR_MS)) / FAR_MS))
    else Near(Slot(nearRoll, ms / 2 - 1))
  }

  /** How far the no-near-timer branch looks: two far slots. */
  function FirstFar(ls: Lists, roll: nat): nat {
    if At(ls, Far(FarSlot(roll, 1))) != [] then 1 else if At(ls, Far(FarSlot(roll, 2))) != [] then 2 else 3
  }

  ghost predicate RollTimed(loc: map<Timer, Head>, tm: map<Timer, TimerRec>, nearRoll: nat, farRoll: nat, tick: nat) {
    NearTimed(loc, tm, nearRoll, tick) && FarTimed(loc, tm, farRoll, tick / 64)
  }

  /** Every filed timer sits where its deadline belongs. */
  ghost predicate Timed(loc: map<Timer, Head>, tm: map<Timer, TimerRec>, nearRoll: nat, farRoll: nat, tick: nat) {
    RollTimed(loc, tm, nearRoll, farRoll, tick) && TooFarTimed(loc, tm, tick / 32768)
  }

  lemma TimedDrop(loc: map<Timer, Head>, tm: map<Timer, TimerRec>, nearRoll: nat, farRoll: nat, tick: nat, t: Timer)
    requires Timed(loc, tm, nearRoll, farRoll, tick)
    ensures Timed(loc - {t}, tm, nearRoll, farRoll, tick)
  {
    hide NearOk, FarOk, Off, FarOff;
  }

  /** yf_add_timer's choice of list fits a deadline `rest` from now; a `rest` of 0 may also
      stand for a deadline already past. */
  lemma TargetFits(due: nat, rest: nat, now: nat, nearRoll: nat, farRoll: nat)
    requires nearRoll < NEAR_SLOTS && farRoll < FAR_SLOTS
    requires due == now + rest || (rest == 0 && due <= now)
    ensures var h := Target(rest, now / 2, nearRoll, farRoll);
      && (h.Near? ==> h.slot < NEAR_SLOTS && NearOk(due, Off(h.slot, nearRoll), now / 2)
                      && Rounded(rest) == 2 * (Off(h.slot, nearRoll) + 1))
      && (h.Far? ==> h.slot < FAR_SLOTS && FarOk(due, FarOff(h.slot, farRoll), (now / 2) / 64))
      && (h.TooFar? <==> rest >= DISTANT_MS)
      && (h.TooFar? ==> due >= now + DISTANT_MS)
      && !h.Expired?
  {
    hide Slot, FarSlot, Off, FarOff, Target, Rounded, AlignTick, NearOk, FarOk;
    var tick := now / 2;
    TargetIs(rest, tick, nearRoll, farRoll);
    RoundedIs(rest);
    var ms := Rounded(rest);
    if ms >= FAR_DIST_MS {
    } else if ms >= NEAR_DIST_MS {
      var off := (ms - (FAR_MS - tick * 2 % FAR_MS)) / FAR_MS;
      FarPlaceBounds(due, rest, now, tick, ms, off);
      FarOffInverse(0, farRoll, off);
      FarOffInverse(FarSlot(farRoll, off), farRoll, off);
    } else {
      OffOfSlot(ms / 2 - 1, nearRoll);
      NearPlaceOk(due, rest, now, ms);
    }
  }

  lemma RoundedIs(rest: nat)
    ensures var ms := Rounded(rest);
      ms % 2 == 0 && ms >= TICK_MS && rest <= ms && (rest >= TICK_MS ==>
        ms <= rest + 1) && (rest < TICK_MS ==> ms == TICK_MS)
  {
  }

  lemma NearPlaceOk(due: nat, rest: nat, now: nat, ms: nat)
    requires due == now + rest || (rest == 0 && due <= now)
    requires ms == Rounded(rest) && TICK_MS <= ms < NEAR_DIST_MS
    ensures NearOk(due, ms / 2 - 1, now / 2) && ms == 2 * (ms / 2 - 1 + 1)
  {
  }

  lemma FarPlaceBounds(due: nat, rest: nat, now: nat, tick: nat, ms: nat, off: int)
    requires tick == now / 2 && due == now + rest && ms == Rounded(rest) && NEAR_DIST_MS <= ms < FAR_DIST_MS
    requires off == (ms - (FAR_MS - tick * 2 % FAR_MS)) / FAR_MS
    ensures 1 <= off < FAR_SLOTS && FarOk(due, off, tick / 64)
  {
    assert tick * 2 % FAR_MS == 2 * (tick % 64);
  }

  lemma TimedAdd(loc: map<Timer, Head>, tm: map<Timer, TimerRec>, tm': map<Timer, TimerRec>, nearRoll: nat,
                 farRoll: nat, t: Timer, rest: nat, now: nat)
    requires nearRoll < NEAR_SLOTS && farRoll < FAR_SLOTS
    requires RollTimed(loc - {t}, tm, nearRoll, farRoll, now / 2)
    requires t in tm && SameDues(tm, tm')
    requires Due(tm[t]) == now + rest || (rest == 0 && Due(tm[t]) <= now)
    ensures RollTimed(loc[t := Target(rest, now / 2, nearRoll, farRoll)], tm', nearRoll, farRoll, now / 2)
    ensures TooFarTimed(loc - {t}, tm, now / 2 / 32768) ==>
      TooFarTimed(loc[t := Target(rest, now / 2, nearRoll, farRoll)], tm', now / 2 / 32768)
  {
    hide NearOk, FarOk, Off, FarOff, Target;
    TargetFits(Due(tm[t]), rest, now, nearRoll, farRoll);
    forall x {:trigger x in tm'} | x in loc && x != t
      ensures x in loc - {t} && (loc - {t})[x] == loc[x]
    {
    }
  }

  lemma RollTimedDrop(loc: map<Timer, Head>, tm: map<Timer, TimerRec>, nearRoll: nat, farRoll: nat, tick: nat, t: Timer)
    requires RollTimed(loc, tm, nearRoll, farRoll, tick)
    ensures RollTimed(loc - {t}, tm, nearRoll, farRoll, tick)
  {
    hide NearOk, FarOk, Off, FarOff;
  }

  lemma SleepAdd(ms: nat, loc: map<Timer, Head>, roll: nat, t: Timer, h: Head, ms': nat)
    requires SleepOk(ms, loc - {t}, roll) && ms' <= ms
    requires h.Near? ==> ms' <= 2 * (Off(h.slot, roll) + 1)
    ensures SleepOk(ms', loc[t := h], roll)
  {
    hide Off;
    forall x {:trigger x in loc} | x in loc && x != t
      ensures x in loc - {t} && (loc - {t})[x] == loc[x]
    {
    }
  }

  lemma SleepDrop(ms: nat, loc: map<Timer, Head>, roll: nat, t: Timer)
    requires SleepOk(ms, loc, roll)
    ensures SleepOk(ms, loc - {t}, roll)
  {
    hide Off;
  }

  lemma TimedSame(loc: map<Timer, Head>, tm: map<Timer, TimerRec>, tm': map<Timer, TimerRec>,
                  nearRoll: nat, farRoll: nat, tick: nat)
    requires Timed(loc, tm, nearRoll, farRoll, tick)
    requires forall t :: t in loc && t in tm' ==> t in tm && Due(tm'[t]) == Due(tm[t])
    ensures Timed(loc, tm', nearRoll, farRoll, tick)
  {
    hide NearOk, FarOk, Off, FarOff;
  }

  ghost function FiledOf(loc: map<Timer, Head>, tm: map<Timer, TimerRec>): map<Timer, nat>
    requires loc.Keys <= tm.Keys
  {
    map t | t in loc && loc[t] != Expired :: Due(tm[t])
  }

  ghost function DistantOf(loc: map<Timer, Head>): set<Timer> {
    set t | t in loc && loc[t] == TooFar
  }

  lemma FiledLink(loc: map<Timer, Head>, tm: map<Timer, TimerRec>, tm': map<Timer, TimerRec>, t: Timer, h: Head)
    requires loc.Keys <= tm.Keys <= tm'.Keys && t in tm' && h != Expired
    requires forall x :: x in loc && x != t ==> Due(tm'[x]) == Due(tm[x])
    ensures FiledOf(loc[t := h], tm') == FiledOf(loc, tm)[t := Due(tm'[t])]
    ensures DistantOf(loc[t := h]) == if h == TooFar then DistantOf(loc) + {t} else DistantOf(loc) - {t}
  {
  }

  lemma HeadsSame(loc: map<Timer, Head>, tm: map<Timer, TimerRec>, tm': map<Timer, TimerRec>)
    requires HeadsOk(loc, tm) && tm'.Keys == tm.Keys && forall t :: t in tm ==> tm'[t].head == tm[t].head
    ensures HeadsOk(loc, tm')
  {
  }

  const BOUNDARY := DISTANT_MS   // remaining milliseconds that yf_align rounds up to _YF_FAR_TIMER_MS_DIST

  function Rest(due: nat, now: nat): nat { if due <= now then 0 else due - now }

  /** At most one too-far timer has exactly BOUNDARY milliseconds to go. */
  predicate OneBoundary(loc: map<Timer, Head>, tm: map<Timer, TimerRec>, now: nat) {
    forall t, u :: t in loc && u in loc && AtBoundary(loc, tm, now, t) && AtBoundary(loc, tm, now, u) ==> t == u
  }

  predicate AtBoundary(loc: map<Timer, Head>, tm: map<Timer, TimerRec>, now: nat, t: Timer) {
    t in loc && loc[t] == TooFar && t in tm && Due(tm[t]) == now + BOUNDARY
  }

  /** The too-far check: distant timers stay, all others come to the near or far slots. */
  ghost predicate TooFarPolled(loc: map<Timer, Head>, loc': map<Timer, Head>, tm: map<Timer, TimerRec>, now: nat) {
    && loc'.Keys == loc.Keys
    && forall t {:trigger loc'[t]} {:trigger loc[t]} :: t in loc && t in tm ==>
         || loc'[t] == loc[t]
         || (loc[t].TooFar? && Due(tm[t]) < now + BOUNDARY && (loc'[t].Near? || loc'[t].Far?))
  }

  lemma TooFarPolledSelf(loc: map<Timer, Head>, tm: map<Timer, TimerRec>, now: nat)
    ensures TooFarPolled(loc, loc, tm, now)
  {
  }

  lemma TooFarOne(loc: map<Timer, Head>, tm: map<Timer, TimerRec>, t: Timer, h: Head, now: nat)
    requires t in loc && loc[t] == TooFar && t in tm && h != Expired && (h != TooFar ==> Due(tm[t]) < now + BOUNDARY)
    ensures TooFarPolled(loc, loc[t := h], tm, now)
  {
  }

  lemma TooFarPolledTrans(loc: map<Timer, Head>, loc1: map<Timer, Head>, loc2: map<Timer, Head>,
                          tm1: map<Timer, TimerRec>, tm: map<Timer, TimerRec>, now: nat)
    requires TooFarPolled(loc, loc1, tm1, now) && TooFarPolled(loc1, loc2, tm, now)
    requires SameDues(tm1, tm)
    ensures TooFarPolled(loc, loc2, tm, now)
  {
  }

  lemma {:induction false} WithoutAt(s: seq<Timer>, i: nat)
    requires i < |s| && NoDup(s)
    ensures Without(s, s[i]) == s[..i] + s[i + 1..]
  {
    if i == 0 {
      WithoutFirst(s);
    } else {
      assert s[0] != s[i] && NoDup(s[1..]);
      WithoutAt(s[1..], i - 1);
      CutStep(s, i);
    }
  }

  lemma CutStep(s: seq<Timer>, i: nat)
    requires 0 < i < |s|
    ensures s[1..][i - 1] == s[i]
    ensures s[..i] + s[i + 1..] == [s[0]] + (s[1..][..i - 1] + s[1..][i..])
  {
  }

  /** The walk over the too-far list has reached index `i`; `requeued` tells that the one
      BOUNDARY timer has already been moved to the end. */
  ghost predicate Walked(s: seq<Timer>, tm: map<Timer, TimerRec>, now: nat, i: nat, requeued: bool) {
    && i <= |s| && (forall k :: 0 <= k < |s| ==> s[k] in tm)
    && (forall k :: 0 <= k < i ==> Due(tm[s[k]]) >= now + BOUNDARY)
    && (requeued ==> i < |s| && Due(tm[s[|s| - 1]]) == now + BOUNDARY)
    && (requeued ==> forall k :: i <= k < |s| - 1 ==> Due(tm[s[k]]) != now + BOUNDARY)
    && (!requeued ==> forall j, k :: i <= j < k < |s| ==>
          Due(tm[s[j]]) != now + BOUNDARY || Due(tm[s[k]]) != now + BOUNDARY)
  }

  /** Taking out element `i`, or moving it to the end, keeps the walk's bookkeeping; when it was
      the last element the walk is over. */
  lemma WalkedOn(s: seq<Timer>, tm: map<Timer, TimerRec>, s': seq<Timer>, tm': map<Timer, TimerRec>,
                 now: nat, i: nat, requeued: bool)
    requires Walked(s, tm, now, i, requeued) && i < |s|
    requires SameDues(tm, tm')
    requires Due(tm[s[i]]) <= now + BOUNDARY
    requires s' == s[..i] + s[i + 1..] + if Due(tm[s[i]]) == now + BOUNDARY then [s[i]] else []
    ensures i + 1 < |s| ==> Walked(s', tm', now, i, requeued || Due(tm[s[i]]) == now + BOUNDARY)
    ensures i + 1 == |s| ==> Walked(s', tm', now, |s'|, false)
    ensures i + 1 < |s| && requeued ==> Due(tm[s[i]]) != now + BOUNDARY
  {
  }

  lemma DistinctAt(ls: Lists, loc: map<Timer, Head>, h: Head)
    requires Listed(ls, loc)
    ensures NoDup(At(ls, h))
  {
  }

  lemma WalkStarts(ls: Lists, loc: map<Timer, Head>, tm: map<Timer, TimerRec>, now: nat)
    requires Listed(ls, loc) && loc.Keys <= tm.Keys && OneBoundary(loc, tm, now)
    ensures Walked(At(ls, TooFar), tm, now, 0, false)
  {
    hide Listed;
    var s := At(ls, TooFar);
    Members(ls, loc, TooFar);
    DistinctAt(ls, loc, TooFar);
    forall k | 0 <= k < |s|
      ensures s[k] in tm && s[k] in loc && loc[s[k]] == TooFar
    {
      assert s[k] in s;
    }
    forall j, k | 0 <= j < k < |s|
      ensures Due(tm[s[j]]) != now + BOUNDARY || Due(tm[s[k]]) != now + BOUNDARY
    {
      var t, u := s[j], s[k];
      assert t != u;
      assert !AtBoundary(loc, tm, now, t) || !AtBoundary(loc, tm, now, u);
    }
  }

  lemma WalkedAll(ls: Lists, loc: map<Timer, Head>, tm: map<Timer, TimerRec>, now: nat)
    requires Listed(ls, loc) && Walked(At(ls, TooFar), tm, now, |At(ls, TooFar)|, false)
    ensures TooFarTimed(loc, tm, now / 2 / 32768) && AllDistant(loc, tm, now)
  {
    hide Listed;
    Members(ls, loc, TooFar);
  }

  ghost predicate AllDistant(loc: map<Timer, Head>, tm: map<Timer, TimerRec>, now: nat) {
    forall t {:trigger loc[t]} :: t in loc && loc[t] == TooFar && t in tm ==> Due(tm[t]) >= now + BOUNDARY
  }

  /** What a poll has done before the too-far check: the due near and far timers expired, none
      of them early, and the too-far list is as it was. */
  ghost predicate PolledSoFar(loc: map<Timer, Head>, tm: map<Timer, TimerRec>, loc': map<Timer, Head>,
                              tm': map<Timer, TimerRec>, now: nat) {
    && loc'.Keys == loc.Keys && SameDues(tm, tm')
    && forall t {:trigger loc'[t]} {:trigger loc[t]} :: t in loc && t in tm ==>
      && (loc[t] == TooFar <==> loc'[t] == TooFar)
      && (loc'[t] == Expired ==> Due(tm[t]) <= 2 * (now / 2) + 1)
      && (loc'[t].Near? ==> Due(tm[t]) > 2 * (now / 2))
  }

  ghost predicate SameDues(tm: map<Timer, TimerRec>, tm': map<Timer, TimerRec>) {
    tm'.Keys == tm.Keys && forall t {:trigger tm'[t]} :: t in tm ==> Due(tm'[t]) == Due(tm[t])
  }

  lemma SameDuesSelf(tm: map<Timer, TimerRec>)
    ensures SameDues(tm, tm)
  {
  }

  lemma SameDuesHead(tm: map<Timer, TimerRec>, t: Timer)
    requires t in tm
    ensures forall p :: SameDues(tm, tm[t := tm[t].(head := p)])
  {
  }

  lemma SameKeys(tm: map<Timer, TimerRec>, tm': map<Timer, TimerRec>)
    requires SameDues(tm, tm')
    ensures tm'.Keys == tm.Keys
  {
  }

  lemma SameDuesTrans(tm: map<Timer, TimerRec>, tm1: map<Timer, TimerRec>, tm2: map<Timer, TimerRec>)
    requires SameDues(tm, tm1) && SameDues(tm1, tm2)
    ensures SameDues(tm, tm2)
  {
    hide Due;
  }

  lemma NearPolled(ls: Lists, loc: map<Timer, Head>, tm: map<Timer, TimerRec>, loc': map<Timer, Head>,
                   tm': map<Timer, TimerRec>, roll: nat, base: nat, now: nat)
    requires Listed(ls, loc) && At(ls, Expired) == [] && SlotsOk(loc) && roll < NEAR_SLOTS && now / 2 > base
    requires NearTimed(loc, tm, roll, base) && SameDues(tm, tm')
    requires loc' == ExpireNear(loc, roll, 0, now / 2 - base)
    ensures PolledSoFar(loc, tm, loc', tm', now) && forall t :: t in loc ==> loc[t] != Expired
    ensures forall r, c :: FarTimed(loc, tm, r, c) ==> FarTimed(loc', tm', r, c)
    ensures forall c :: TooFarTimed(loc, tm, c) ==> TooFarTimed(loc', tm', c)
  {
    hide Listed, Off;
    Members(ls, loc, Expired);
    forall t | t in loc && loc[t].Near?
      ensures Off(loc[t].slot, roll) >= 0
    {
      OffInverse(loc[t].slot, roll);
    }
  }

  lemma FarPolledNext(loc: map<Timer, Head>, tm: map<Timer, TimerRec>, loc1: map<Timer, Head>, tm1: map<Timer,
                      TimerRec>,
                      loc2: map<Timer, Head>, tm2: map<Timer, TimerRec>, now: nat)
    requires PolledSoFar(loc, tm, loc1, tm1, now) && FarPolled(loc1, loc2, tm2, now) && SameDues(tm1, tm2)
    ensures PolledSoFar(loc, tm, loc2, tm2, now)
    ensures forall c :: TooFarTimed(loc1, tm1, c) ==> TooFarTimed(loc2, tm2, c)
  {
  }

  lemma SameBoundary(loc: map<Timer, Head>, tm: map<Timer, TimerRec>, loc': map<Timer, Head>,
                     tm': map<Timer, TimerRec>, now: nat)
    requires PolledSoFar(loc, tm, loc', tm', now) && OneBoundary(loc, tm, now) && loc.Keys <= tm.Keys
    ensures OneBoundary(loc', tm', now)
  {
    forall t, u | AtBoundary(loc', tm', now, t) && AtBoundary(loc', tm', now, u)
      ensures t == u
    {
      assert AtBoundary(loc, tm, now, t) && AtBoundary(loc, tm, now, u);
    }
  }

  lemma PollsNothing(s: Sched, now: nat)
    requires s.fired == [] && now / 2 == s.tick
    ensures Polls(s, now, s)
  {
  }

  /** What a poll makes of one timer with deadline `due`. */
  ghost predicate Outcome(due: nat, was: Head, now': Head, base: nat, now: nat) {
    if was == TooFar then
      && now' != Expired
      && (now' == TooFar <==> (now / 65536 > base / 32768 ==> due >= now + BOUNDARY))
    else
      && now' != TooFar
      && (if now' == Expired then due <= 2 * (now / 2) + 1 else due > 2 * (now / 2))
  }

  lemma OutcomesFired(loc: map<Timer, Head>, tm: map<Timer, TimerRec>, loc3: map<Timer, Head>,
                     tm3: map<Timer, TimerRec>, ls3: Lists, base: nat, now: nat)
    requires loc.Keys <= tm.Keys && loc3.Keys <= tm3.Keys && Listed(ls3, loc3) && now / 2 > base
    requires loc3.Keys == loc.Keys && SameDues(tm, tm3) && forall t :: t in loc ==> loc[t] != Expired
    requires forall t :: t in loc ==> Outcome(Due(tm[t]), loc[t], loc3[t], base, now)
    ensures var f, d, x := FiledOf(loc, tm), DistantOf(loc), At(ls3, Expired);
      && (forall t :: t in x ==> t in f && t !in d && f[t] <= 2 * (now / 2) + 1)
      && (forall t :: t in f && t !in d && f[t] <= 2 * (now / 2) ==> t in x)
  {
    hide Listed, At, FiledOf, DistantOf, SameDues;
    Members(ls3, loc3, Expired);
    FiledMeans(loc, tm);
  }

  lemma OutcomesFiled(loc: map<Timer, Head>, tm: map<Timer, TimerRec>, loc3: map<Timer, Head>,
                     tm3: map<Timer, TimerRec>, ls3: Lists, base: nat, now: nat)
    requires loc.Keys <= tm.Keys && loc3.Keys <= tm3.Keys && Listed(ls3, loc3) && now / 2 > base
    requires loc3.Keys == loc.Keys && SameDues(tm, tm3) && forall t :: t in loc ==> loc[t] != Expired
    requires forall t :: t in loc ==> Outcome(Due(tm[t]), loc[t], loc3[t], base, now)
    ensures var f, f3, x := FiledOf(loc, tm), FiledOf(loc3, tm3), At(ls3, Expired);
      && (forall t :: t in f3 <==> t in f && t !in x)
      && (forall t :: t in f3 ==> f3[t] == f[t])
  {
    hide Listed, At, FiledOf, DistantOf, Outcome;
    Members(ls3, loc3, Expired);
    FiledMeans(loc, tm);
    FiledMeans(loc3, tm3);
  }

  lemma OutcomesDistant(loc: map<Timer, Head>, tm: map<Timer, TimerRec>, loc3: map<Timer, Head>,
                     tm3: map<Timer, TimerRec>, ls3: Lists, base: nat, now: nat)
    requires loc.Keys <= tm.Keys && loc3.Keys <= tm3.Keys && Listed(ls3, loc3) && now / 2 > base
    requires loc3.Keys == loc.Keys && SameDues(tm, tm3) && forall t :: t in loc ==> loc[t] != Expired
    requires forall t :: t in loc ==> Outcome(Due(tm[t]), loc[t], loc3[t], base, now)
    ensures var f, d := FiledOf(loc, tm), DistantOf(loc);
      forall t :: t in DistantOf(loc3) <==>
        t in d && (now / 65536 > base / 32768 ==> t in f && f[t] >= now + DISTANT_MS)
  {
    hide Listed, At, FiledOf, DistantOf, SameDues;
    FiledMeans(loc, tm);
    FiledMeans(loc3, tm3);
  }

  lemma OutcomesPoll(loc: map<Timer, Head>, tm: map<Timer, TimerRec>, loc3: map<Timer, Head>,
                     tm3: map<Timer, TimerRec>, ls3: Lists, base: nat, now: nat)
    requires loc.Keys <= tm.Keys && loc3.Keys <= tm3.Keys && Listed(ls3, loc3) && now / 2 > base
    requires loc3.Keys == loc.Keys && SameDues(tm, tm3) && forall t :: t in loc ==> loc[t] != Expired
    requires forall t :: t in loc ==> Outcome(Due(tm[t]), loc[t], loc3[t], base, now)
    ensures Polls(Sched(base, FiledOf(loc, tm), DistantOf(loc), []), now,
                  Sched(now / 2, FiledOf(loc3, tm3), DistantOf(loc3), At(ls3, Expired)))
  {
    hide Listed, At, FiledOf, DistantOf, SameDues, Outcome;
    OutcomesFired(loc, tm, loc3, tm3, ls3, base, now);
    OutcomesFiled(loc, tm, loc3, tm3, ls3, base, now);
    OutcomesDistant(loc, tm, loc3, tm3, ls3, base, now);
  }

  lemma FiledMeans(loc: map<Timer, Head>, tm: map<Timer, TimerRec>)
    requires loc.Keys <= tm.Keys
    ensures forall t :: t in FiledOf(loc, tm) <==> t in loc && loc[t] != Expired
    ensures forall t :: t in FiledOf(loc, tm) ==> FiledOf(loc, tm)[t] == Due(tm[t])
    ensures forall t :: t in DistantOf(loc) <==> t in loc && loc[t] == TooFar
  {
  }

  /** The whole poll, in terms of deadlines. */
  lemma PollsAll(loc: map<Timer, Head>, tm: map<Timer, TimerRec>, loc2: map<Timer, Head>, tm2: map<Timer, TimerRec>,
                 loc3: map<Timer, Head>, tm3: map<Timer, TimerRec>, ls3: Lists, farRoll: nat, base: nat, now: nat)
    requires loc.Keys <= tm.Keys && loc3.Keys <= tm3.Keys && Listed(ls3, loc3) && now / 2 > base
    requires PolledSoFar(loc, tm, loc2, tm2, now) && FarTimed(loc2, tm2, farRoll, now / 2 / 64)
    requires SameDues(tm2, tm3) && forall t :: t in loc ==> loc[t] != Expired
    requires now / 65536 > base / 32768 ==> TooFarPolled(loc2, loc3, tm3, now) && AllDistant(loc3, tm3, now)
    requires now / 65536 <= base / 32768 ==> loc3 == loc2
    ensures Polls(Sched(base, FiledOf(loc, tm), DistantOf(loc), []), now,
                  Sched(now / 2, FiledOf(loc3, tm3), DistantOf(loc3), At(ls3, Expired)))
  {
    hide Listed, FiledOf, DistantOf, Polls, At;
    forall t | t in loc
      ensures Outcome(Due(tm[t]), loc[t], loc3[t], base, now)
    {
      PollsOne(loc, tm, loc2, tm2, loc3, tm3, farRoll, base, now, t);
    }
    SameDuesTrans(tm, tm2, tm3);
    OutcomesPoll(loc, tm, loc3, tm3, ls3, base, now);
  }

  lemma PollsOne(loc: map<Timer, Head>, tm: map<Timer, TimerRec>, loc2: map<Timer, Head>, tm2: map<Timer, TimerRec>,
                 loc3: map<Timer, Head>, tm3: map<Timer, TimerRec>, farRoll: nat, base: nat, now: nat, t: Timer)
    requires loc.Keys <= tm.Keys && t in loc && t in loc3 && loc[t] != Expired && now / 2 > base
    requires PolledSoFar(loc, tm, loc2, tm2, now) && FarTimed(loc2, tm2, farRoll, now / 2 / 64)
    requires SameDues(tm2, tm3)
    requires now / 65536 > base / 32768 ==> TooFarPolled(loc2, loc3, tm3, now) && AllDistant(loc3, tm3, now)
    requires now / 65536 <= base / 32768 ==> loc3 == loc2
    ensures Outcome(Due(tm[t]), loc[t], loc3[t], base, now)
  {
    assert t in loc2 && t in tm2 && t in tm3 && Due(tm2[t]) == Due(tm[t]) == Due(tm3[t]);
    assert loc3[t] == loc2[t] || (now / 65536 > base / 32768 && loc2[t].TooFar?);
    if loc2[t].Far? {
      assert FarOk(Due(tm2[t]), FarOff(loc2[t].slot, farRoll), now / 2 / 64);
    }
  }

  lemma HeadsMoved(loc: map<Timer, Head>, tm: map<Timer, TimerRec>, t: Timer, h: Head)
    requires t in tm
    ensures HeadsOk(loc, tm) ==>
      HeadsOk(loc[t := h], tm[t := tm[t].(head := if h == Expired then Null else Ptr(h))])
  {
  }

  lemma HeadFar(loc: map<Timer, Head>, tm: map<Timer, TimerRec>, t: Timer)
    requires HeadsOk(loc, tm) && t in loc && loc[t] == TooFar
    ensures t in tm && !NearHead(tm[t].head)
  {
  }

  lemma HeadsTooFar(loc: map<Timer, Head>, tm: map<Timer, TimerRec>, t: Timer)
    requires t in tm
    ensures HeadsOk(loc, tm) ==> (HeadsOk(loc[t := TooFar], tm) <==> !NearHead(tm[t].head))
  {
    var loc' := loc[t := TooFar];
    assert loc'[t] == TooFar;
    assert forall x :: x in loc && x != t ==> loc'[x] == loc[x];
  }

  /** Target, by the branches of yf_add_timer. */
  lemma TargetIs(tmMs: nat, tick: nat, nearRoll: nat, farRoll: nat)
    ensures var ms := AlignTick(if tmMs < TICK_MS then TICK_MS else tmMs);
      && ms == Rounded(tmMs) && TICK_MS <= ms
      && Target(tmMs, tick, nearRoll, farRoll) ==
         if ms >= FAR_DIST_MS then TooFar
         else if ms >= NEAR_DIST_MS then Far(FarSlot(farRoll, (ms - (FAR_MS - tick * 2 % FAR_MS)) / FAR_MS))
         else Near(Slot(nearRoll, ms / 2 - 1))
  {
  }

  lemma TargetNear(tmMs: nat, tick: nat, nearRoll: nat, farRoll: nat)
    ensures Target(tmMs, tick, nearRoll, farRoll).Near? <==> Rounded(tmMs) < NEAR_DIST_MS
    ensures tmMs >= NEAR_DIST_MS ==> Rounded(tmMs) >= NEAR_DIST_MS
  {
    hide Slot, FarSlot;
    TargetIs(tmMs, tick, nearRoll, farRoll);
  }

  lemma SlotsMoved(loc: map<Timer, Head>, t: Timer, h: Head)
    requires SlotsOk(loc) && (h.Near? ==> h.slot < NEAR_SLOTS) && (h.Far? ==> h.slot < FAR_SLOTS)
    ensures SlotsOk(loc[t := h])
  {
  }

  lemma HeadsGone(loc: map<Timer, Head>, tm: map<Timer, TimerRec>, t: Timer)
    ensures HeadsOk(loc, tm) ==> HeadsOk(loc - {t}, tm)
  {
  }

  lemma SlotsGone(loc: map<Timer, Head>, t: Timer)
    requires SlotsOk(loc)
    ensures SlotsOk(loc - {t})
  {
  }

  lemma ExpiredNot(ls: Lists, loc: map<Timer, Head>, t: Timer)
    requires Listed(ls, loc) && (t in loc ==> loc[t] != Expired)
    ensures t !in At(ls, Expired)
  {
    Members(ls, loc, Expired);
  }

  lemma FiledDrop(loc: map<Timer, Head>, tm: map<Timer, TimerRec>, t: Timer)
    requires loc.Keys <= tm.Keys
    ensures FiledOf(loc - {t}, tm) == FiledOf(loc, tm) - {t}
    ensures DistantOf(loc - {t}) == DistantOf(loc) - {t}
  {
  }

  lemma TargetTooFar(timeout: nat, tick: nat, nearRoll: nat, farRoll: nat)
    ensures Target(timeout, tick, nearRoll, farRoll) == TooFar <==> timeout >= DISTANT_MS
  {
  }

  /** What filing a timer with a new start and timeout comes to. */
  lemma Registered(ls: Lists, ls': Lists, loc: map<Timer, Head>, tm: map<Timer, TimerRec>, tm': map<Timer, TimerRec>,
                   t: Timer, h: Head, now: nat, timeout: nat, nearRoll: nat, farRoll: nat, ms: nat, ms': nat)
    requires Listed(ls, loc) && loc.Keys <= tm.Keys == tm'.Keys && t in tm && (t in loc ==> loc[t] != Expired)
    requires Timed(loc, tm, nearRoll, farRoll, now / 2) && SleepOk(ms, loc, nearRoll)
    requires nearRoll < NEAR_SLOTS && farRoll < FAR_SLOTS && h == Target(timeout, now / 2, nearRoll, farRoll)
    requires Due(tm'[t]) == now + timeout && forall x :: x in tm && x != t ==> Due(tm'[x]) == Due(tm[x])
    requires ms' == if h.Near? && Rounded(timeout) < ms then Rounded(timeout) else ms
    requires At(ls', Expired) == At(ls, Expired)
    ensures Timed(loc[t := h], tm', nearRoll, farRoll, now / 2) && SleepOk(ms', loc[t := h], nearRoll)
    ensures Registers(Sched(now / 2, FiledOf(loc, tm), DistantOf(loc), At(ls, Expired)), t, now, timeout,
                      Sched(now / 2, FiledOf(loc[t := h], tm'), DistantOf(loc[t := h]), At(ls', Expired)))
  {
    hide Listed, Off, RollTimed, TooFarTimed, SleepOk, At, Target, Rounded, FiledOf, DistantOf, NearOk, FarOk;
    TimedDrop(loc, tm, nearRoll, farRoll, now / 2, t);
    SleepDrop(ms, loc, nearRoll, t);
    TimedSame(loc - {t}, tm, tm', nearRoll, farRoll, now / 2);
    TargetFits(now + timeout, timeout, now, nearRoll, farRoll);
    SameDuesSelf(tm');
    TimedAdd(loc, tm', tm', nearRoll, farRoll, t, timeout, now);
    SleepAdd(ms, loc, nearRoll, t, h, ms');
    FiledLink(loc, tm, tm', t, h);
    ExpiredNot(ls, loc, t);
  }

  class TmDriver {
    var timers: map<Timer, TimerRec>
    var lists: Lists
    var loc: map<Timer, Head>    // the timers' linkers: the list each one is threaded on
    var flags0: Word             // near_tm_flags[0]
    var flags1: Word             // near_tm_flags[1]
    var nearNum: int             // near_evts_num
    var nearRoll: nat            // near_tm_roll_index
    var farRoll: nat             // far_tm_roll_index
    var tick: nat                // tm_period_cnt
    var farCnt: nat              // far_tm_period_cnt
    var tooFarCnt: nat           // too_far_tm_period_cnt
    var nearestMs: nat           // nearest_timeout_ms

    /** Lists, linkers and head pointers agree; nothing about counters or flags. */
    ghost predicate Shape()
      reads this
    {
      && nearRoll < NEAR_SLOTS && farRoll < FAR_SLOTS
      && Listed(lists, loc) && SlotsOk(loc) && loc.Keys <= timers.Keys
    }

    ghost predicate Base()
      reads this
    {
      Shape() && HeadsOk(loc, timers) && nearNum == |NearSet(loc)|
    }

    /** The bookkeeping invariant: bitmap, counter, lists and head pointers all agree. */
    ghost predicate Core()
      reads this
    {
      Base() && FlagsFrom(flags0, flags1, lists, nearRoll, 0)
    }

    twostate predicate KeepsDues()
      reads this
    {
      SameDues(old(timers), timers)
    }

    /** YF_SET_FLAG and YF_RSET_FLAG */
    method PutFlag(index: nat, on: bool)
      requires index < NEAR_SLOTS
      modifies `flags0, `flags1
      ensures forall s :: 0 <= s < NEAR_SLOTS ==>
        (Bit(flags0, flags1, s) <==> if s == index then on else Bit(old(flags0), old(flags1), s))
    {
      if index < 64 {
        flags0 := flags0[index := on];
      } else {
        flags1 := flags1[index - 64 := on];
      }
    }

    /** LIST_ADD_TIMER */
    method ListAddTimer(t: Timer, h: Head)
      requires Shape() && t !in loc && t in timers && !h.Expired?
      requires h.Near? ==> h.slot < NEAR_SLOTS
      requires h.Far? ==> h.slot < FAR_SLOTS
      modifies `lists, `loc, `timers
      ensures Shape() && loc == old(loc)[t := h]
      ensures timers == old(timers)[t := old(timers)[t].(head := Ptr(h))]
      ensures forall g :: g != h ==> At(lists, g) == old(At(lists, g))
      ensures At(lists, h) == old(At(lists, h)) + [t]
      ensures h.Near? ==> |NearSet(loc)| == old(|NearSet(loc)|) + 1
      ensures !h.Near? ==> NearSet(loc) == old(NearSet(loc))
      ensures old(HeadsOk(loc, timers)) ==> HeadsOk(loc, timers)
    {
      hide Listed, NearSet, At, HeadsOk, SlotsOk;
      LinkTailListed(lists, loc, h, t);
      NearSetAdd(loc, t, h);
      AtUpdate(lists, h, At(lists, h) + [t]);
      HeadsMoved(loc, timers, t, h);
      SlotsMoved(loc, t, h);
      lists := LinkTail(lists, h, t);
      timers := timers[t := timers[t].(head := Ptr(h))];
      loc := loc[t := h];
    }

    /** yf_list_del */
    method ListDel(t: Timer)
      requires Shape() && t in loc
      modifies `lists, `loc
      ensures Shape() && loc == old(loc) - {t}
      ensures forall g :: g != old(loc)[t] ==> At(lists, g) == old(At(lists, g))
      ensures At(lists, old(loc)[t]) == Without(old(At(lists, loc[t])), t)
      ensures old(loc)[t].Near? ==> |NearSet(loc)| == old(|NearSet(loc)|) - 1
      ensures !old(loc)[t].Near? ==> NearSet(loc) == old(NearSet(loc))
      ensures old(HeadsOk(loc, timers)) ==> HeadsOk(loc, timers)
    {
      hide Listed, NearSet, At, HeadsOk, SlotsOk;
      var h := loc[t];
      HeadsGone(loc, timers, t);
      SlotsGone(loc, t);
      UnlinkListed(lists, loc, t);
      NearSetDel(loc, t);
      AtUpdate(lists, h, Without(At(lists, h), t));
      lists := Unlink(lists, h, t);
      loc := loc - {t};
    }

    /** yf_add_near_timer. The requires on `ms` is its assert at line 78. */
    method AddNearTimer(t: Timer, ms: nat)
      requires Shape() && t !in loc && t in timers
      requires TICK_MS <= ms <= NEAR_DIST_MS
      modifies `flags0, `flags1, `lists, `loc, `timers, `nearNum, `nearestMs
      ensures Shape() && nearNum == old(nearNum) + 1
      ensures |NearSet(loc)| == old(|NearSet(loc)|) + 1
      ensures loc == old(loc)[t := Near(Slot(nearRoll, ms / 2 - 1))]
      ensures timers == old(timers)[t := old(timers)[t].(head := Ptr(loc[t]))]
      ensures nearestMs == if ms < old(nearestMs) then ms else old(nearestMs)
      ensures forall g :: g != loc[t] ==> At(lists, g) == old(At(lists, g))
      ensures old(Core()) ==> Core()
    {
      hide Bit, Listed, Slot;
      var index := ms / 2 - 1;
      assert Slot(nearRoll, index) < NEAR_SLOTS by { OffOfSlot(index, nearRoll); }
      PutFlag(index, true);
      var slot := Slot(nearRoll, index);
      ListAddTimer(t, Near(slot));
      nearNum := nearNum + 1;
      if ms < nearestMs {
        nearestMs := ms;
      }
      if old(Core()) {
        FlagFollows(old(flags0), old(flags1), old(lists), flags0, flags1, lists, nearRoll, index);
      }
    }

    /** yf_list_del followed by yf_timeout_handler: the timer goes to timeout_list. */
    method ExpireTimer(t: Timer, isNearest: bool)
      requires Base() && t in loc && (loc[t].Near? || loc[t].Far?) && isNearest == loc[t].Near?
      modifies `lists, `loc, `timers, `nearNum
      ensures Base() && loc == old(loc)[t := Expired]
      ensures KeepsDues()
      ensures At(lists, old(loc)[t]) == Without(old(At(lists, loc[t])), t)
      ensures forall g :: g != old(loc)[t] && g != Expired ==> At(lists, g) == old(At(lists, g))
    {
      hide Listed, NearSet, At, HeadsOk, SlotsOk, SameDues;
      SameDuesHead(timers, t);
      SlotsMoved(loc, t, Expired);
      ListDel(t);
      if isNearest {
        nearNum := nearNum - 1;
      }
      HeadsMoved(loc, timers, t, Expired);
      timers := timers[t := timers[t].(head := Null)];
      LinkFrontListed(lists, loc, Expired, t);
      NearSetAdd(loc, t, Expired);
      AtUpdate(lists, Expired, [t] + At(lists, Expired));
      lists := LinkFront(lists, Expired, t);
      loc := loc[t := Expired];
      assert old(loc)[t := Expired] == (old(loc) - {t})[t := Expired];
    }

    /** yf_list_timeout_handler */
    method ListTimeout(h: Head, isNearest: bool)
      requires Base() && (h.Near? || h.Far?) && isNearest == h.Near?
      modifies `lists, `loc, `timers, `nearNum
      ensures Base() && loc == ExpireHead(old(loc), h)
      ensures KeepsDues()
      ensures forall g :: g != h && g != Expired ==> At(lists, g) == old(At(lists, g))
    {
      hide Listed, At, HeadsOk, SlotsOk, NearSet, SameDues, Expiring, ExpireHead;
      SameDuesSelf(timers);
      ExpiringSelf(loc, h);
      while At(lists, h) != []
        invariant Base() && Expiring(old(loc), loc, h) && KeepsDues()
        invariant forall g :: g != h && g != Expired ==> At(lists, g) == old(At(lists, g))
        decreases |At(lists, h)|
      {
        var t := At(lists, h)[0];
        ghost var loc1, tm1 := loc, timers;
        FirstListed(lists, loc, h);
        ExpireTimer(t, isNearest);
        SameDuesTrans(old(timers), tm1, timers);
        ExpiringOne(old(loc), loc1, h, t);
      }
      Members(lists, loc, h);
      ExpiringAll(old(loc), loc, h);
    }

    /** The body of yf_check_near_timer_list's loop, for set bit `b`. The assert is the one
        at line 307. */
    method ExpireBit(listOffset: nat, ghost done: nat, b: nat, bits: seq<bool>)
      requires Base() && |bits| == 16 && listOffset + 16 <= NEAR_SLOTS && done <= b < 16
      requires BitsTell(bits, lists, nearRoll, listOffset, done)
      requires bits[b] && forall c :: done <= c < b ==> !bits[c]
      modifies `lists, `loc, `timers, `nearNum
      ensures Base() && KeepsDues()
      ensures loc == ExpireNear(old(loc), nearRoll, listOffset + done, listOffset + b + 1)
      ensures forall s :: listOffset + b + 1 <= s < NEAR_SLOTS ==>
        At(lists, Near(Slot(nearRoll, s))) == old(At(lists, Near(Slot(nearRoll, s))))
    {
      hide Listed, Slot, Off, HeadsOk, ExpireNear, SlotsOk, At;
      var it := Slot(nearRoll, listOffset + b);
      assert At(lists, Near(it)) != [];
      ClearStretch(bits, lists, loc, nearRoll, listOffset, done, b);
      ExpireOneSlot(loc, nearRoll, listOffset + b);
      ExpireNearJoin(loc, nearRoll, listOffset + done, listOffset + b, listOffset + b + 1);
      ListTimeout(Near(it), true);
      forall s {:trigger Slot(nearRoll, s)} | listOffset + b + 1 <= s < NEAR_SLOTS
        ensures Slot(nearRoll, s) != it
      {
        OffOfSlot(s, nearRoll);
        OffOfSlot(listOffset + b, nearRoll);
      }
    }

    /** yf_check_near_timer_list: expire the lists whose bit is set and below `diff`. */
    method CheckNearTimerList(listOffset: nat, diff: int, bits: seq<bool>)
      requires Base() && |bits| == 16 && listOffset + 16 <= NEAR_SLOTS
      requires BitsTell(bits, lists, nearRoll, listOffset, 0)
      modifies `lists, `loc, `timers, `nearNum
      ensures Base() && KeepsDues()
      ensures loc == ExpireNear(old(loc), nearRoll, listOffset, listOffset + Clamp(diff, 16))
      ensures forall s :: listOffset + 16 <= s < NEAR_SLOTS ==>
        At(lists, Near(Slot(nearRoll, s))) == old(At(lists, Near(Slot(nearRoll, s))))
    {
      hide Listed, Slot, Off, HeadsOk, ExpireNear, SlotsOk, At, SetBits, BitsTell, NearSet, Ahead, SameDues, Clamp;
      var indexs := SetBits(bits);
      var i := 0;
      ghost var done: nat := 0;
      AllAhead(bits);
      ClampIs(diff, 16);
      ExpireNone(loc, nearRoll, listOffset);
      SameDuesSelf(timers);
      while i < |indexs| && indexs[i] < diff
        invariant i <= |indexs| && done <= 16 && done <= Clamp(diff, 16) && Ahead(bits, indexs, i, done)
        invariant Base() && SameDues(old(timers), timers) && BitsTell(bits, lists, nearRoll, listOffset, done)
        invariant loc == ExpireNear(old(loc), nearRoll, listOffset, listOffset + done)
        invariant SameFrom(old(lists), lists, nearRoll, listOffset + done)
      {
        var b := indexs[i];
        ghost var tm1, ls1 := timers, lists;
        GapIsEmpty(bits, indexs, i, done);
        ExpireNearJoin(old(loc), nearRoll, listOffset, listOffset + done, listOffset + b + 1);
        ExpireBit(listOffset, done, b, bits);
        SameDuesTrans(old(timers), tm1, timers);
        BitsStillTell(bits, ls1, lists, nearRoll, listOffset, done, b + 1);
        done := b + 1;
        i := i + 1;
      }
      ClearUpTo(bits, indexs, i, done, Clamp(diff, 16));
      ClearStretch(bits, lists, loc, nearRoll, listOffset, done, Clamp(diff, 16));
      ExpireNearJoin(old(loc), nearRoll, listOffset, listOffset + done, listOffset + Clamp(diff, 16));
    }

    /** YF_TEST_BIT16 with the test of the value in front of the call. */
    method TestBit16(listOffset: nat, diff: int, bits: seq<bool>)
      requires Base() && |bits| == 16 && listOffset + 16 <= NEAR_SLOTS
      requires BitsTell(bits, lists, nearRoll, listOffset, 0)
      modifies `lists, `loc, `timers, `nearNum
      ensures Base() && KeepsDues()
      ensures loc == ExpireNear(old(loc), nearRoll, listOffset, listOffset + Clamp(diff, 16))
      ensures forall s :: listOffset + 16 <= s < NEAR_SLOTS ==>
        At(lists, Near(Slot(nearRoll, s))) == old(At(lists, Near(Slot(nearRoll, s))))
    {
      hide Listed, Slot, Off, HeadsOk;
      if true in bits {
        CheckNearTimerList(listOffset, diff, bits);
      } else {
        assert forall b :: 0 <= b < 16 ==> !bits[b];
        ClearStretch(bits, lists, loc, nearRoll, listOffset, 0, Clamp(diff, 16));
      }
    }

    /** One round of the loop over the two 32-bit parts of a word. */
    method ScanHalf(w: Word, lo: nat, i: nat, diff: int) returns (rest: int)
      requires Base() && i < 2 && diff > 0 && lo <= 64
      requires BitsTell(w, lists, nearRoll, lo, 32 * i)
      modifies `lists, `loc, `timers, `nearNum
      ensures Base() && KeepsDues()
      ensures loc == ExpireNear(old(loc), nearRoll, lo + 32 * i, lo + 32 * i + Clamp(diff, 32))
      ensures rest > 0 ==> rest == diff - 32
      ensures rest <= 0 ==> diff <= 32
      ensures forall s :: lo + 32 * (i + 1) <= s < NEAR_SLOTS ==>
        At(lists, Near(Slot(nearRoll, s))) == old(At(lists, Near(Slot(nearRoll, s))))
    {
      hide Listed, Slot, Off, HeadsOk, ExpireNear, BitsTell, SlotsOk, NearSet, At, SameDues;
      SameDuesSelf(timers);
      var half := w[32 * i..32 * i + 32];
      BitsPart(w, lists, nearRoll, lo, 32 * i, 32);
      rest := diff;
      if true in half {
        BitsPart(half, lists, nearRoll, lo + 32 * i, 0, 16);
        TestBit16(lo + 32 * i, rest, half[0..16]);
        rest := rest - 16;
        if rest <= 0 {
          return;
        }
        BitsStillTell(half, old(lists), lists, nearRoll, lo + 32 * i, 0, 16);
        BitsPart(half, lists, nearRoll, lo + 32 * i, 16, 16);
        ghost var tm1 := timers;
        TestBit16(lo + 32 * i + 16, rest, half[16..16 + 16]);
        SameDuesTrans(old(timers), tm1, timers);
        ExpireNearJoin(old(loc), nearRoll, lo + 32 * i, lo + 32 * i + 16, lo + 32 * i + 16 + Clamp(rest, 16));
        rest := rest - 16;
      } else {
        assert forall s :: 0 <= s < 32 ==> !half[s];
        ClearStretch(half, lists, loc, nearRoll, lo + 32 * i, 0, Clamp(diff, 32));
        rest := rest - 32;
      }
    }

    /** One 64-bit word of the flags, from the label check_near_timer to the test of
        tmp_diff_periods; `rest` is tmp_diff_periods afterwards. */
    method ScanWord(flagIndex: nat, diff: int) returns (rest: int)
      requires Base() && flagIndex < 2 && diff > 0
      requires FlagsFrom(flags0, flags1, lists, nearRoll, 64 * flagIndex)
      modifies `lists, `loc, `timers, `nearNum
      ensures Base() && KeepsDues()
      ensures loc == ExpireNear(old(loc), nearRoll, 64 * flagIndex, 64 * flagIndex + Clamp(diff, 64))
      ensures rest > 0 ==> rest == diff - 64
      ensures rest <= 0 ==> diff <= 64
      ensures forall s :: 64 * (flagIndex + 1) <= s < NEAR_SLOTS ==>
        At(lists, Near(Slot(nearRoll, s))) == old(At(lists, Near(Slot(nearRoll, s))))
    {
      hide Listed, Slot, Off, HeadsOk, ExpireNear, BitsTell, Bit, FlagsFrom, SlotsOk, NearSet, At, Due;
      var w := if flagIndex == 0 then flags0 else flags1;
      ghost var lo := 64 * flagIndex;
      WordTells(flags0, flags1, lists, nearRoll, flagIndex);
      if true in w {
        ExpireNone(loc, nearRoll, lo);
        rest := diff;
        var i := 0;
        while i < 2
          invariant 0 <= i <= 2 && rest == diff - 32 * i && (i < 2 ==> rest > 0)
          invariant Base() && KeepsDues()
          invariant loc == ExpireNear(old(loc), nearRoll, lo, lo + Clamp(diff, 32 * i))
          invariant BitsTell(w, lists, nearRoll, lo, 32 * i)
          invariant forall s :: lo + 64 <= s < NEAR_SLOTS ==>
            At(lists, Near(Slot(nearRoll, s))) == old(At(lists, Near(Slot(nearRoll, s))))
        {
          ExpireNearJoin(old(loc), nearRoll, lo, lo + 32 * i, lo + 32 * i + Clamp(rest, 32));
          ghost var before := lists;
          rest := ScanHalf(w, 64 * flagIndex, i, rest);
          BitsStillTell(w, before, lists, nearRoll, lo, 32 * i, 32 * (i + 1));
          if rest <= 0 {
            return;
          }
          i := i + 1;
        }
      } else {
        rest := diff - 64;
        ClearStretch(w, lists, loc, nearRoll, lo, 0, Clamp(diff, 64));
      }
    }

    /** Lines 405-472: the words of the bitmap, as far as the ticks passed reach. */
    method ScanNear(diff: nat)
      requires Core() && diff > 0
      modifies `lists, `loc, `timers, `nearNum
      ensures Base() && KeepsDues()
      ensures loc == ExpireNear(old(loc), nearRoll, 0, diff)
    {
      hide Listed, Off, HeadsOk, ExpireNear, Bit, At, Slot, Due, NearSet, SlotsOk, FlagsFrom, SameDues;
      WholeFlags(flags0, flags1, lists, nearRoll);
      var tmp := if diff < NEAR_SLOTS then diff else NEAR_SLOTS;
      var rest := ScanWord(0, tmp);
      if rest > 0 {
        ghost var tm1, ls1 := timers, lists;
        ExpireNearJoin(old(loc), nearRoll, 0, 64, 64 + Clamp(rest, 64));
        LaterFlags(flags0, flags1, old(lists), lists, nearRoll);
        rest := ScanWord(1, rest);
        SameDuesTrans(old(timers), tm1, timers);
      }
      BeyondLast(old(loc), nearRoll, diff);
    }

    lemma WholeFlags(w0: Word, w1: Word, ls: Lists, roll: nat)
      ensures FlagsFrom(w0, w1, ls, roll, 0) ==> FlagsFrom(w0, w1, ls, roll, 64 * 0)
    {
    }

    lemma LaterFlags(w0: Word, w1: Word, ls: Lists, ls': Lists, roll: nat)
      requires FlagsFrom(w0, w1, ls, roll, 0)
      requires forall s ::
        64 * (0 + 1) <= s < NEAR_SLOTS ==> At(ls', Near(Slot(roll, s))) == At(ls, Near(Slot(roll, s)))
      ensures FlagsFrom(w0, w1, ls', roll, 64 * 1)
    {
    }

    /** The near half of a poll (lines 403-496): expire what is due within `diff` ticks of
        `base`, then move roll index and bitmap along. The assert is the one at line 489. */
    method CheckNear(diff: nat, ghost base: nat)
      requires Core() && diff > 0 && NearTimed(loc, timers, nearRoll, base)
      modifies `lists, `loc, `timers, `nearNum, `nearRoll, `flags0, `flags1
      ensures Core() && KeepsDues()
      ensures loc == ExpireNear(old(loc), old(nearRoll), 0, diff)
      ensures NearTimed(loc, timers, nearRoll, base + diff)
    {
      hide Listed, Off, HeadsOk, ExpireNear, NearOk, Bit, At, Slot, Due, NearTimed, NearSet, SlotsOk, Or, Shr, Shl,
        SameDues, FlagsFrom;
      SameDuesSelf(timers);
      ghost var roll := nearRoll;
      if nearNum > 0 {
        ScanNear(diff);
        if diff < NEAR_SLOTS && nearNum > 0 {
          nearRoll := (nearRoll + diff) % NEAR_SLOTS;
          if diff < 64 {
            flags0, flags1 := Or(Shr(flags0, diff), Shl(flags1, 64 - diff)), Shr(flags1, diff);
          } else {
            flags0 := Shr(flags1, diff - 64);
            flags1 := ZERO;
          }
          ShiftedFlags(old(flags0), old(flags1), old(lists), old(loc), flags0, flags1, lists, loc, roll, diff);
          ShiftedTimes(old(loc), old(timers), loc, timers, roll, diff, base);
        } else {
          if diff >= NEAR_SLOTS {
            NoNearBeyond(old(loc), loc, roll, diff);
            assert nearNum == 0;
          }
          flags0, flags1 := ZERO, ZERO;
          NoNear(lists, loc, timers, nearRoll, base + diff);
        }
      } else {
        NoNear(lists, loc, timers, nearRoll, base + diff);
      }
    }

    /** One timer leaves far list `h` for a near slot: yf_list_del and MV_FROM_FAR_TO_NEAR. */
    method MoveToNear(t: Timer, now: nat)
      requires Core() && t in loc && loc[t].Far? && now / 2 == tick
      requires NearTimed(loc, timers, nearRoll, tick) && Due(timers[t]) <= now + NEAR_DIST_MS
      modifies `flags0, `flags1, `lists, `loc, `timers, `nearNum, `nearestMs
      ensures Core() && KeepsDues() && NearTimed(loc, timers, nearRoll, tick)
      ensures loc.Keys == old(loc.Keys) && loc[t].Near?
      ensures forall x :: x in loc && x != t ==> loc[x] == old(loc)[x]
      ensures At(lists, old(loc)[t]) == Without(old(At(lists, loc[t])), t)
    {
      hide Listed, At, SlotsOk, HeadsOk, NearTimed, Bit, NearSet, NearOk;
      var ms := RestMs(Due(timers[t]), now);
      PlacedNear(Due(timers[t]), now, tick);
      ListDel(t);
      assert FlagsFrom(flags0, flags1, lists, nearRoll, 0);
      NearTimedDrop(old(loc), timers, nearRoll, tick, t);
      AddNearTimer(t, ms);
      assert (old(loc) - {t}) - {t} == old(loc) - {t};
      NearTimedLink(old(loc) - {t}, old(timers), nearRoll, tick, t, ms / 2 - 1, timers);
    }

    /** A timer of a far list has come due. */
    method ExpireFarTimer(t: Timer)
      requires Core() && t in loc && loc[t].Far? && NearTimed(loc, timers, nearRoll, tick)
      modifies `lists, `loc, `timers, `nearNum
      ensures Core() && KeepsDues() && NearTimed(loc, timers, nearRoll, tick)
      ensures loc == old(loc)[t := Expired] && At(lists, old(loc)[t]) == Without(old(At(lists, loc[t])), t)
    {
      hide Listed, At, SlotsOk, HeadsOk, NearTimed, NearSet, NearOk, FlagsFrom, SameDues;
      ExpireTimer(t, false);
      NearTimedSame(old(loc), old(timers), loc, timers, nearRoll, tick);
      SameNearLists(flags0, flags1, old(lists), lists, nearRoll);
    }

    /** Lines 550-576: the mid far list, whose period the clock has just entered. */
    method MigrateMid(h: Head, now: nat)
      requires Core() && h.Far? && now / 2 == tick && NearTimed(loc, timers, nearRoll, tick)
      requires forall t :: t in loc && loc[t] == h ==> Due(timers[t]) <= now + NEAR_DIST_MS
      modifies `flags0, `flags1, `lists, `loc, `timers, `nearNum, `nearestMs
      ensures Core() && KeepsDues() && NearTimed(loc, timers, nearRoll, tick)
      ensures Migrated(old(loc), loc, timers, h, now, true)
    {
      hide Listed, At, SlotsOk, HeadsOk, NearTimed, NearSet, NearOk, FlagsFrom, Migrating, SameDues;
      MigratingSelf(loc, timers, h, now, true);
      SameDuesSelf(timers);
      while At(lists, h) != []
        invariant Core() && KeepsDues() && NearTimed(loc, timers, nearRoll, tick)
        invariant Migrating(old(loc), loc, timers, h, now, true)
        decreases |At(lists, h)|
      {
        var t := At(lists, h)[0];
        ghost var loc1, tm1 := loc, timers;
        StillNear(old(loc), old(timers), loc, timers, t, h, now, true);
        FirstListed(lists, loc, h);
        if now >= Due(timers[t]) {
          ExpireFarTimer(t);
        } else {
          MoveToNear(t, now);
        }
        SameDuesTrans(old(timers), tm1, timers);
        MigratingOne(old(loc), loc1, tm1, loc, timers, t, h, now, true);
      }
      Members(lists, loc, h);
      MigratingAll(old(loc), loc, timers, h, now, true);
    }

    /** Lines 591-612: the list the far roll index now points at. */
    method MigrateRoll(h: Head, now: nat)
      requires Core() && h.Far? && now / 2 == tick && NearTimed(loc, timers, nearRoll, tick)
      requires forall t :: t in loc && loc[t] == h ==> Due(timers[t]) <= now + NEAR_DIST_MS
      modifies `flags0, `flags1, `lists, `loc, `timers, `nearNum, `nearestMs
      ensures Core() && KeepsDues() && NearTimed(loc, timers, nearRoll, tick)
      ensures Migrated(old(loc), loc, timers, h, now, false)
    {
      hide Listed, At, SlotsOk, HeadsOk, NearTimed, NearSet, NearOk, FlagsFrom, Migrating, SameDues;
      MigratingSelf(loc, timers, h, now, false);
      SameDuesSelf(timers);
      while At(lists, h) != []
        invariant Core() && KeepsDues() && NearTimed(loc, timers, nearRoll, tick)
        invariant Migrating(old(loc), loc, timers, h, now, false)
        decreases |At(lists, h)|
      {
        var t := At(lists, h)[0];
        ghost var loc1, tm1 := loc, timers;
        StillNear(old(loc), old(timers), loc, timers, t, h, now, false);
        FirstListed(lists, loc, h);
        MoveToNear(t, now);
        SameDuesTrans(old(timers), tm1, timers);
        MigratingOne(old(loc), loc1, tm1, loc, timers, t, h, now, false);
      }
      Members(lists, loc, h);
      MigratingAll(old(loc), loc, timers, h, now, false);
    }

    /** Lines 533-544: every far list whose whole period has passed. */
    method ExpireFarLists(diff: nat)
      requires Core() && diff > 1
      requires forall t :: t in loc && loc[t].Far? ==> FarOff(loc[t].slot, farRoll) >= 1
      modifies `lists, `loc, `timers, `nearNum
      ensures Core() && KeepsDues()
      ensures loc == ExpireFar(old(loc), farRoll, diff - 1)
    {
      hide Listed, HeadsOk, NearSet, FlagsFrom, At, FarOff;
      var i := 1;
      ExpireFarNone(loc, farRoll);
      while i < diff - 1
        invariant 1 <= i <= diff - 1
        invariant Core() && KeepsDues()
        invariant loc == ExpireFar(old(loc), farRoll, i)
      {
        ExpireFarOne(old(loc), farRoll, i);
        ghost var ls0 := lists;
        ListTimeout(Far(FarSlot(farRoll, i)), false);
        SameNearLists(flags0, flags1, ls0, lists, nearRoll);
        i := i + 1;
      }
    }

    /** The far half of a poll (lines 498-612) once the clock is in a new far period. */
    method PollFar(now: nat, passed: nat)
      requires Core() && now / 2 == tick && passed == tick / 64 && passed > farCnt
      requires NearTimed(loc, timers, nearRoll, tick) && FarTimed(loc, timers, farRoll, farCnt)
      modifies `flags0, `flags1, `lists, `loc, `timers, `nearNum, `nearestMs, `farRoll, `farCnt
      ensures Core() && KeepsDues() && farCnt == passed
      ensures NearTimed(loc, timers, nearRoll, tick) && FarTimed(loc, timers, farRoll, farCnt)
      ensures FarPolled(old(loc), loc, timers, now)
    {
      hide Listed, HeadsOk, NearSet, FlagsFrom, At, NearTimed, FarTimed, Migrated, ExpireFar, NearOk, FarSlot,
        SlotsOk, FarLeft,
        FarPolled, SameDues;
      var diff := passed - farCnt;
      ghost var roll0, cnt0 := farRoll, farCnt;
      farCnt := passed;
      FarStart(loc, timers, roll0, cnt0, now);
      SameDuesSelf(timers);
      if diff > 1 {
        ExpireFarLists(diff);
        FarExpired(old(loc), old(timers), loc, timers, roll0, cnt0, diff, now, nearRoll);
        var mid := Far(FarSlot(farRoll, diff - 1));
        ghost var loc1, tm1 := loc, timers;
        FarAt(loc, timers, roll0, cnt0, diff - 1, now);
        MigrateMid(mid, now);
        FarMigrated(loc1, tm1, loc, timers, roll0, cnt0, diff - 1, now, true);
        SameDuesTrans(old(timers), tm1, timers);
        FarPolledTrans(old(loc), loc1, loc, tm1, timers, now);
      }
      ghost var loc2, tm2 := loc, timers;
      FarAt(loc, timers, roll0, cnt0, diff, now);
      FarOffInverse(0, farRoll, diff);
      farRoll := FarSlot(farRoll, diff);
      var head := Far(farRoll);
      MigrateRoll(head, now);
      FarMigrated(loc2, tm2, loc, timers, roll0, cnt0, diff, now, false);
      SameDuesTrans(old(timers), tm2, timers);
      FarPolledTrans(old(loc), loc2, loc, tm2, timers, now);
      FarEnd(loc, timers, roll0, cnt0, diff);
    }

    /** yf_update_nearest_tm_ms. The assert on the second word is the one at line 355. */
    method UpdateNearest()
      requires Core()
      modifies `nearestMs
      ensures Core() && SleepOk(nearestMs, loc, nearRoll) && nearNum >= 0
      ensures nearNum > 0 ==> exists t :: t in loc && loc[t].Near? && nearestMs == 2 * (Off(loc[t].slot, nearRoll) + 1)
      ensures nearNum == 0 ==> nearestMs == FAR_MS * FirstFar(lists, farRoll)
    {
      hide Listed, SlotsOk, HeadsOk, FlagsFrom, At, Off;
      if nearNum > 0 {
        SomeFlag(flags0, flags1, lists, loc, nearRoll);
        var i;
        if true in flags0 {
          i := FirstSet(flags0);
        } else {
          assert true in flags1;
          i := FirstSet(flags1);
          i := i + 64;
        }
        nearestMs := (i + 1) * 2;
        FirstFlag(flags0, flags1, lists, loc, nearRoll, i);
      } else {
        NearSetEmpty(lists, loc);
        var k := 1;
        while k < 3 && At(lists, Far(FarSlot(farRoll, k))) == []
          invariant 1 <= k <= 3
          invariant k > 1 ==> At(lists, Far(FarSlot(farRoll, 1))) == []
          invariant k > 2 ==> At(lists, Far(FarSlot(farRoll, 2))) == []
        {
          k := k + 1;
        }
        nearestMs := k * FAR_MS;
      }
    }

    /** Lines 119-152: file an unlinked timer on the list its timeout calls for. */
    method PlaceTimer(t: Timer, tmMs: nat)
      requires Shape() && t in timers && t !in loc
      modifies `flags0, `flags1, `lists, `loc, `timers, `nearNum, `nearestMs
      ensures Shape()
      ensures loc == old(loc)[t := Target(tmMs, tick, nearRoll, farRoll)]
      ensures timers == if loc[t] == TooFar then old(timers) else old(timers)[t := old(timers)[t].(head := Ptr(loc[t]))]
      ensures At(lists, TooFar) == old(At(lists, TooFar)) + if loc[t] == TooFar then [t] else []
      ensures At(lists, Expired) == old(At(lists, Expired))
      ensures nearestMs == if loc[t].Near? && Rounded(tmMs) < old(nearestMs) then Rounded(tmMs) else old(nearestMs)
      ensures nearNum - |NearSet(loc)| == old(nearNum) - old(|NearSet(loc)|)
      ensures old(Core()) ==> (Core() <==> (loc[t] == TooFar ==> !NearHead(old(timers)[t].head)))
    {
      hide Listed, NearSet, FlagsFrom, At, Slot, FarSlot, HeadsOk, SlotsOk, Target, Rounded, AlignTick;
      TargetIs(tmMs, tick, nearRoll, farRoll);
      var ms := AlignTick(if tmMs < TICK_MS then TICK_MS else tmMs);
      if ms >= FAR_DIST_MS {
        LinkTooFar(t);
      } else if ms >= NEAR_DIST_MS {
        var passMod := tick * 2 % FAR_MS;
        var diffMs := ms - (FAR_MS - passMod);
        var index := FarSlot(farRoll, diffMs / FAR_MS);
        FarOffInverse(0, farRoll, diffMs / FAR_MS);
        ListAddTimer(t, Far(index));
      } else {
        AddNearTimer(t, ms);
      }
      if old(Core()) && !loc[t].Near? {
        SameNearLists(flags0, flags1, old(lists), lists, nearRoll);
      }
    }

    /** Line 125: linked at the tail of the too-far list, the head pointer as it was. */
    method LinkTooFar(t: Timer)
      requires Shape() && t in timers && t !in loc
      modifies `lists, `loc
      ensures Shape() && loc == old(loc)[t := TooFar] && NearSet(loc) == old(NearSet(loc))
      ensures forall g :: g != TooFar ==> At(lists, g) == old(At(lists, g))
      ensures At(lists, TooFar) == old(At(lists, TooFar)) + [t]
      ensures old(HeadsOk(loc, timers)) ==> (HeadsOk(loc, timers) <==> !NearHead(timers[t].head))
    {
      hide Listed, NearSet, At, HeadsOk, SlotsOk;
      LinkTailListed(lists, loc, TooFar, t);
      NearSetAdd(loc, t, TooFar);
      AtUpdate(lists, TooFar, At(lists, TooFar) + [t]);
      SlotsMoved(loc, t, TooFar);
      HeadsTooFar(loc, timers, t);
      lists := LinkTail(lists, TooFar, t);
      loc := loc[t := TooFar];
    }

    /** yf_add_timer. It is meant for timers that are not linked, or linked on the far or
        too-far lists; the last ensures says exactly when the bookkeeping survives the call. A timer
        still waiting on timeout_list has no prev pointer and counts as not linked. Its linker shares
        memory with free_linker, by which it waits: linked anew, it no longer leads to the timers
        behind it on timeout_list. */
    method AddTimer(t: Timer, tmMs: nat)
      requires Core() && t in timers
      modifies `flags0, `flags1, `lists, `loc, `timers, `nearNum, `nearestMs
      ensures Shape() <==> (t in old(loc) ==> old(loc)[t] != Expired)
      ensures loc == old(loc)[t := Target(tmMs, tick, nearRoll, farRoll)]
      ensures timers == if loc[t] == TooFar then old(timers) else old(timers)[t := old(timers)[t].(head := Ptr(loc[t]))]
      ensures At(lists, TooFar) == Without(old(At(lists, TooFar)), t) + if loc[t] == TooFar then [t] else []
      ensures (t in old(loc) ==> old(loc)[t] != Expired) ==> At(lists, Expired) == old(At(lists, Expired))
      ensures t in old(loc) && old(loc)[t] == Expired ==> At(lists, Expired) == UpTo(old(At(lists, Expired)), t)
      ensures nearestMs == if loc[t].Near? && Rounded(tmMs) < old(nearestMs) then Rounded(tmMs) else old(nearestMs)
      ensures Core() <==>
        && (t in old(loc) ==> !old(loc)[t].Near? && old(loc)[t] != Expired)
        && (loc[t] == TooFar ==> !NearHead(old(timers)[t].head))
    {
      hide Listed, At, NearSet, FlagsFrom, HeadsOk, SlotsOk, Target, Rounded;
      var waits := t in loc && loc[t] == Expired;
      var waiting := At(lists, Expired);
      Members(lists, loc, TooFar);
      Members(lists, loc, Expired);
      if t in loc {
        ListDel(t);    // of a waiting timer, mended below
        if !old(loc)[t].Near? {
          SameNearLists(flags0, flags1, old(lists), lists, nearRoll);
        }
      }
      assert At(lists, TooFar) == Without(old(At(lists, TooFar)), t);
      assert t in old(loc) && old(loc)[t].Near? ==> nearNum == |NearSet(loc)| + 1;
      assert loc[t := Target(tmMs, tick, nearRoll, farRoll)] == old(loc)[t := Target(tmMs, tick, nearRoll, farRoll)];
      PlaceTimer(t, tmMs);
      if waits {
        AtUpdate(lists, Expired, UpTo(waiting, t));
        lists := lists[Expired := UpTo(waiting, t)];
        OnTwoLists(lists, loc, t, tmMs);
      }
    }

    lemma OnTwoLists(ls: Lists, at: map<Timer, Head>, t: Timer, tmMs: nat)
      requires t in At(ls, Expired) && t in at && at[t] == Target(tmMs, tick, nearRoll, farRoll)
      ensures !Listed(ls, at)
    {
    }

    /** yf_del_timer: false is YF_ERROR, for a timer that is not linked. */
    method DelTimer(t: Timer) returns (ok: bool)
      requires Core() && t in timers
      modifies `flags0, `flags1, `lists, `loc, `nearNum
      ensures Core() && ok == (t in old(loc) && old(loc)[t] != Expired)
      ensures ok ==> loc == old(loc) - {t}
      ensures !ok ==> loc == old(loc) && lists == old(lists)
      ensures At(lists, Expired) == old(At(lists, Expired))
    {
      hide Listed, NearSet, FlagsFrom;
      if t !in loc || loc[t] == Expired {
        return false;
      }
      ghost var h := loc[t];
      ListDel(t);
      var head := timers[t].head;
      if NearHead(head) {
        var index := Off(head.h.slot, nearRoll);
        OffInverse(head.h.slot, nearRoll);
        if At(lists, head.h) == [] {
          PutFlag(index, false);
        } else {
          FlagStays(old(lists), old(loc), h, flags0, flags1, nearRoll, index);
        }
        FlagFollows(old(flags0), old(flags1), old(lists), flags0, flags1, lists, nearRoll, index);
        nearNum := nearNum - 1;
      } else {
        SameNearLists(flags0, flags1, old(lists), lists, nearRoll);
      }
      return true;
    }

    /** The invariant of every reachable state between two calls. */
    ghost predicate Valid()
      reads this
    {
      && Core() && farCnt == tick / 64 && tooFarCnt == tick / 32768
      && Timed(loc, timers, nearRoll, farRoll, tick)
      && SleepOk(nearestMs, loc, nearRoll)
    }

    /** yf_init_tm_driver on zeroed memory. */
    constructor ()
      ensures Valid() && Abs() == Sched(0, map[], {}, []) && timers == map[] && nearestMs == 3 * FAR_MS
    {
      timers, lists, loc := map[], map[], map[];
      flags0, flags1 := ZERO, ZERO;
      nearNum, nearRoll, farRoll, tick, farCnt, tooFarCnt := 0, 0, 0, 0, 0, 0;
      nearestMs := 0;
      new;
      assert NearSet(loc) == {};
      UpdateNearest();
      assert FiledOf(loc, timers) == map[];
    }

    /** The chosen poller sleep, nearest_timeout_ms >> 2, never outlasts the time any filed timer
        still has, whatever poll gaps came before. */
    lemma SleepBound(t: Timer, now: nat)
      requires Valid() && now / 2 == tick && t in Abs().filed
      ensures nearestMs / 4 <= Rest(Abs().filed[t], now)
    {
      hide Listed, FlagsFrom, Off, FarOff;
      assert loc[t].Near? || loc[t].Far? || loc[t].TooFar?;
      if loc[t].Near? {
        assert NearOk(Due(timers[t]), Off(loc[t].slot, nearRoll), tick);
        OffInverse(loc[t].slot, nearRoll);
      } else if loc[t].Far? {
        assert FarOk(Due(timers[t]), FarOff(loc[t].slot, farRoll), tick / 64);
      }
    }

    /** The set of deadlines the driver stands for. */
    ghost function Abs(): Sched
      requires loc.Keys <= timers.Keys
      reads this
    {
      Sched(tick, FiledOf(loc, timers), DistantOf(loc), At(lists, Expired))
    }

    /** yf_alloc_tm_evt: a zeroed timer. */
    method Alloc(t: Timer)
      requires Valid() && t !in loc
      modifies `timers
      ensures Valid() && timers == old(timers)[t := TimerRec(0, 0, Null)] && Abs() == old(Abs())
    {
      hide Listed, FlagsFrom, NearOk, FarOk, Off, FarOff;
      timers := timers[t := TimerRec(0, 0, Null)];
    }

    /** yf_set_timer_val */
    method SetTime(t: Timer, now: nat, timeout: nat)
      requires Core() && t in timers
      modifies `timers
      ensures Core() && timers == old(timers)[t := old(timers)[t].(start := now, timeout := timeout)]
    {
      hide Listed, FlagsFrom, At, NearSet, HeadsOk, SlotsOk;
      timers := timers[t := timers[t].(start := now, timeout := timeout)];
      HeadsSame(loc, old(timers), timers);
    }

    lemma ShapeIs()
      ensures Core() ==> Shape()
      ensures Shape() ==> nearRoll < NEAR_SLOTS && farRoll < FAR_SLOTS && Listed(lists, loc) && loc.Keys <= timers.Keys
      ensures Shape() ==> SlotsOk(loc)
    {
    }

    /** yf_register_tm_evt at clock `now`; time_out_ms has 30 bits. */
    method Register(t: Timer, now: nat, timeout: nat)
      requires Valid() && t in timers
      requires now / 2 == tick && timeout < 0x4000_0000
      modifies this
      ensures Core() <==>
        && (t in old(loc) ==> !old(loc)[t].Near? && old(loc)[t] != Expired)
        && (timeout >= DISTANT_MS ==> !NearHead(old(timers)[t].head))
      ensures Core() ==> Valid() && Registers(old(Abs()), t, now, timeout, Abs())
      ensures timers.Keys == old(timers.Keys) && nearestMs == Nearer(old(nearestMs), timeout)
    {
      hide Listed, FlagsFrom, Timed, SleepOk, At, NearSet, Target, Rounded, FiledOf, DistantOf, HeadsOk, SlotsOk,
        Registers, Core, Shape;
      ShapeIs();
      SetTime(t, now, timeout);
      AddTimer(t, timeout);
      ShapeIs();
      TargetTooFar(timeout, tick, nearRoll, farRoll);
      TargetNear(timeout, tick, nearRoll, farRoll);
      if t in old(loc) ==> old(loc)[t] != Expired {
        Registered(old(lists), lists, old(loc), old(timers), timers, t, loc[t], now, timeout, nearRoll, farRoll,
                   old(nearestMs), nearestMs);
      }
    }

    /** yf_unregister_tm_evt */
    method Unregister(t: Timer) returns (ok: bool)
      requires Valid() && t in timers
      modifies this
      ensures Valid()
      ensures ok == (t in old(Abs()).filed) && timers == old(timers) && nearestMs == old(nearestMs)
      ensures if ok then Unregisters(old(Abs()), t, Abs()) else Abs() == old(Abs())
    {
      hide Listed, FlagsFrom, NearOk, FarOk, Off, FarOff, Timed, SleepOk, At, NearSet;
      TimedDrop(loc, timers, nearRoll, farRoll, tick, t);
      SleepDrop(nearestMs, loc, nearRoll, t);
      FiledDrop(loc, timers, t);
      ok := DelTimer(t);
    }

    /** One turn of yf_timeout_caller's loop: the next expired timer, for its callback. */
    method PopExpired() returns (t: Timer)
      requires Valid() && At(lists, Expired) != []
      modifies this
      ensures Valid() && t == old(At(lists, Expired))[0] && Delivers(old(Abs()), Abs()) && timers == old(timers)
      ensures nearestMs == old(nearestMs)
    {
      hide Listed, FlagsFrom, NearOk, FarOk, Off, FarOff, Timed, SleepOk, NearSet, At, HeadsOk, SlotsOk;
      t := At(lists, Expired)[0];
      FirstListed(lists, loc, Expired);
      TimedDrop(loc, timers, nearRoll, farRoll, tick, t);
      SleepDrop(nearestMs, loc, nearRoll, t);
      FiledDrop(loc, timers, t);
      ListDel(t);
      SameNearLists(flags0, flags1, old(lists), lists, nearRoll);
    }

    /** Line 669: the timer at index `i` of the too-far list is filed anew. */
    method Refile(i: nat, now: nat, rest: nat)
      requires Core() && now / 2 == tick && RollTimed(loc, timers, nearRoll, farRoll, tick)
      requires SleepOk(nearestMs, loc, nearRoll)
      requires i < |At(lists, TooFar)| && At(lists, TooFar)[i] in timers
      requires rest == Rest(Due(timers[At(lists, TooFar)[i]]), now) && rest < FAR_DIST_MS
      modifies `flags0, `flags1, `lists, `loc, `timers, `nearNum, `nearestMs
      ensures Core() && KeepsDues() && RollTimed(loc, timers, nearRoll, farRoll, tick)
      ensures SleepOk(nearestMs, loc, nearRoll) && TooFarPolled(old(loc), loc, timers, now)
      ensures At(lists, Expired) == old(At(lists, Expired)) && (rest >= NEAR_DIST_MS ==> nearestMs == old(nearestMs))
      ensures At(lists, TooFar) == old(At(lists, TooFar))[..i] + old(At(lists, TooFar))[i + 1..]
        + if rest == BOUNDARY then [old(At(lists, TooFar))[i]] else []
    {
      hide Listed, FlagsFrom, NearOk, FarOk, Off, FarOff, SleepOk, NearSet, At, SlotsOk, HeadsOk, Target, Rounded,
        RollTimed,
        TooFarTimed, TooFarPolled, SameDues;
      var t := At(lists, TooFar)[i];
      Members(lists, loc, TooFar);
      assert t in At(lists, TooFar);
      DistinctAt(lists, loc, TooFar);
      WithoutAt(At(lists, TooFar), i);
      RollTimedDrop(loc, timers, nearRoll, farRoll, tick, t);
      SleepDrop(nearestMs, loc, nearRoll, t);
      TargetFits(Due(timers[t]), rest, now, nearRoll, farRoll);
      TargetNear(rest, tick, nearRoll, farRoll);
      SameDuesSelf(timers);
      SameDuesHead(timers, t);
      HeadFar(loc, timers, t);
      AddTimer(t, rest);
      TimedAdd(old(loc), old(timers), timers, nearRoll, farRoll, t, rest, now);
      SleepAdd(old(nearestMs), old(loc), nearRoll, t, loc[t], nearestMs);
      TooFarOne(old(loc), timers, t, loc[t], now);
    }

    /** Lines 640-673: the too-far check. Its loop fixes the successor before it works on a
        timer; a timer with BOUNDARY milliseconds to go is appended to the list being walked. */
    method MigrateTooFar(now: nat) returns (bigLazy: bool)
      requires Core() && now / 2 == tick && RollTimed(loc, timers, nearRoll, farRoll, tick)
      requires SleepOk(nearestMs, loc, nearRoll)
      requires OneBoundary(loc, timers, now)
      modifies `flags0, `flags1, `lists, `loc, `timers, `nearNum, `nearestMs
      ensures Core() && KeepsDues() && Timed(loc, timers, nearRoll, farRoll, tick)
      ensures SleepOk(nearestMs, loc, nearRoll)
      ensures TooFarPolled(old(loc), loc, timers, now) && AllDistant(loc, timers, now)
      ensures At(lists, Expired) == old(At(lists, Expired)) && (!bigLazy ==> nearestMs == old(nearestMs))
    {
      hide AllDistant, Listed, FlagsFrom, SleepOk, NearSet, At, HeadsOk, SlotsOk, RollTimed, TooFarTimed, TooFarPolled;
      bigLazy := false;
      var i := 0;
      ghost var requeued := 0;
      WalkStarts(lists, loc, timers, now);
      TooFarPolledSelf(loc, timers, now);
      while i < |At(lists, TooFar)|
        invariant i <= |At(lists, TooFar)| && 0 <= requeued <= 1
        invariant Core() && KeepsDues() && RollTimed(loc, timers, nearRoll, farRoll, tick)
        invariant SleepOk(nearestMs, loc, nearRoll) && TooFarPolled(old(loc), loc, timers, now)
        invariant At(lists, Expired) == old(At(lists, Expired)) && (!bigLazy ==> nearestMs == old(nearestMs))
        invariant Walked(At(lists, TooFar), timers, now, i, requeued == 1)
        decreases 1 - requeued, |At(lists, TooFar)| - i
      {
        var t := At(lists, TooFar)[i];
        var last := i + 1 == |At(lists, TooFar)|;
        var rest := Rest(Due(timers[t]), now);
        if rest >= FAR_DIST_MS {
          i := i + 1;
        } else {
          if rest < NEAR_DIST_MS {
            bigLazy := true;
          }
          ghost var loc1, tm1, list1 := loc, timers, At(lists, TooFar);
          Refile(i, now, rest);
          TooFarPolledTrans(old(loc), loc1, loc, tm1, timers, now);
          WalkedOn(list1, tm1, At(lists, TooFar), timers, now, i, requeued == 1);
          if last {
            i := |At(lists, TooFar)|;
            requeued := 0;
            break;
          }
          if rest == BOUNDARY {
            requeued := 1;
          }
        }
      }
      WalkedAll(lists, loc, timers, now);
    }

    method AdvanceTick(to: nat)
      requires Core()
      modifies `tick
      ensures Core() && tick == to
    {
      hide Listed, FlagsFrom, At, HeadsOk, SlotsOk, NearSet;
      tick := to;
    }

    /** Lines 396-617: the near and the far timers. */
    method PollRolls(now: nat)
      requires Valid() && At(lists, Expired) == [] && now / 2 > tick
      modifies this
      ensures Core() && tick == now / 2 && farCnt == tick / 64 && tooFarCnt == old(tooFarCnt)
      ensures RollTimed(loc, timers, nearRoll, farRoll, tick) && SleepOk(nearestMs, loc, nearRoll)
      ensures TooFarTimed(loc, timers, old(tick) / 32768)
      ensures PolledSoFar(old(loc), old(timers), loc, timers, now)
      ensures timers.Keys == old(timers.Keys) && forall t :: t in old(loc) ==> old(loc)[t] != Expired
      ensures WakesIn(loc, timers, tick, nearestMs)
    {
      hide Listed, FlagsFrom, SleepOk, NearSet, At, HeadsOk, SlotsOk, NearTimed, FarTimed, TooFarTimed,
        FarPolled, ExpireNear, PolledSoFar, Off, SameDues, Core, Shape, FirstFar, WakesIn;
      ShapeIs();
      var diff := now / 2 - tick;
      ghost var base, roll0 := tick, nearRoll;
      AdvanceTick(now / 2);
      CheckNear(diff, base);
      NearPolled(old(lists), old(loc), old(timers), loc, timers, roll0, base, now);
      SameKeys(old(timers), timers);
      var far := tick / 64;
      if far > farCnt {
        ghost var loc1, tm1 := loc, timers;
        PollFar(now, far);
        FarPolledNext(old(loc), old(timers), loc1, tm1, loc, timers, now);
        SameKeys(tm1, timers);
      }
      UpdateNearest();
      ShapeIs();
      NearestWakes(lists, loc, timers, nearRoll, farRoll, tick, nearestMs);
    }

    /** yf_poll_timer at clock `now`, up to the calls of the expired timers' handlers. The second
        precondition is what the too-far check's loop needs to end (see TooFarWalk). */
    method Poll(now: nat)
      requires Valid() && At(lists, Expired) == [] && now / 2 >= tick
      requires now / 65536 > tooFarCnt ==> OneBoundary(loc, timers, now)
      modifies this
      ensures Valid() && Polls(old(Abs()), now, Abs()) && timers.Keys == old(timers.Keys)
      ensures if now / 2 > old(tick) then Wakes(Abs(), nearestMs) else nearestMs == old(nearestMs)
    {
      hide Listed, FlagsFrom, SleepOk, NearSet, At, HeadsOk, SlotsOk, NearTimed, FarTimed, TooFarTimed, AllDistant,
        TooFarPolled, OneBoundary, Polls, FiledOf, DistantOf, PolledSoFar, Off, SameDues, Wakes, WakesIn, FirstFar;
      if now / 2 == tick {
        PollsNothing(Abs(), now);
        return;
      }
      PollRolls(now);
      ghost var loc2, tm2, ms2 := loc, timers, nearestMs;
      SameDuesSelf(timers);
      var half := farCnt / 512;
      if half > tooFarCnt {
        tooFarCnt := half;
        SameBoundary(old(loc), old(timers), loc, timers, now);
        var bigLazy := MigrateTooFar(now);
        SameKeys(tm2, timers);
        WakesKept(loc2, tm2, loc, timers, now, tick, ms2);
        if bigLazy {
          UpdateNearest();
          NearestWakes(lists, loc, timers, nearRoll, farRoll, tick, nearestMs);
        }
      }
      WakesAll(loc, timers, Abs(), nearestMs);
      PollsAll(old(loc), old(timers), loc2, tm2, loc, timers, lists, farRoll, old(tick), now);
    }
  }
}
