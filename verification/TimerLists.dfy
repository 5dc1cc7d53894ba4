/** The intrusive lists of the timer driver. Every list head has an address (`Head`); a map
    from heads to sequences is the memory those lists occupy. `loc` is the ghost inverse:
    the one list a timer is on. */
module TimerLists {
  import opened Deadlines
  import opened Seqs

  /** Address of a list head inside the driver: near_tm_lists + slot, far_tm_lists + slot,
      too_far_tm_list and timeout_list. */
  datatype Head = Near(slot: nat) | Far(slot: nat) | TooFar | Expired

  type Lists = map<Head, seq<Timer>>

  function At(ls: Lists, h: Head): seq<Timer> {
    if h in ls then ls[h] else []
  }

  function Without(s: seq<Timer>, t: Timer): (r: seq<Timer>)
    ensures forall x :: x in r <==> x in s && x != t
    ensures NoDup(s) ==> NoDup(r)
    ensures t !in s ==> r == s
  {
    if s == [] then [] else
      var r := Without(s[1..], t);
      assert NoDup(s) ==> NoDup(s[1..]) && s[0] !in s[1..];
      assert s == [s[0]] + s[1..];
      if s[0] == t then r else [s[0]] + r
  }

  /** The list up to `t`, which then leads to none behind it. */
  function UpTo(s: seq<Timer>, t: Timer): (r: seq<Timer>)
    ensures r <= s && (t in r <==> t in s)
    ensures t in s ==> r[|r| - 1] == t
  {
    if s == [] || s[0] == t then s[..if s == [] then 0 else 1] else [s[0]] + UpTo(s[1..], t)
  }

  /** Each listed timer is where `loc` says. */
  ghost predicate Sound(ls: Lists, loc: map<Timer, Head>) {
    forall h, t {:trigger t in At(ls, h)} :: t in At(ls, h) ==> t in loc && loc[t] == h
  }

  ghost predicate Complete(ls: Lists, loc: map<Timer, Head>) {
    forall t {:trigger t in loc} {:trigger loc[t]} :: t in loc ==> t in At(ls, loc[t])
  }

  ghost predicate Distinct(ls: Lists) {
    forall h {:trigger At(ls, h)} :: NoDup(At(ls, h))
  }

  /** Each timer in `loc` is on exactly the list `loc` names, once; no other timer is listed. */
  ghost predicate Listed(ls: Lists, loc: map<Timer, Head>) {
    Sound(ls, loc) && Complete(ls, loc) && Distinct(ls)
  }

  /** yf_list_del */
  function Unlink(ls: Lists, h: Head, t: Timer): Lists {
    ls[h := Without(At(ls, h), t)]
  }

  /** yf_list_add_tail */
  function LinkTail(ls: Lists, h: Head, t: Timer): Lists {
    ls[h := At(ls, h) + [t]]
  }

  /** yf_slist_push on timeout_list */
  function LinkFront(ls: Lists, h: Head, t: Timer): Lists {
    ls[h := [t] + At(ls, h)]
  }

  lemma AtUpdate(ls: Lists, h: Head, s: seq<Timer>)
    ensures At(ls[h := s], h) == s
    ensures forall g :: g != h ==> At(ls[h := s], g) == At(ls, g)
  {
  }

  /** How a list update moves `Listed` along, given what it does to membership. */
  lemma Relisted(ls: Lists, loc: map<Timer, Head>, h: Head, s: seq<Timer>, loc': map<Timer, Head>)
    requires Listed(ls, loc) && NoDup(s)
    requires forall x :: x in s ==> x in loc' && loc'[x] == h
    requires forall x :: x in loc' && loc'[x] == h ==> x in s
    requires forall x :: x in loc && loc[x] != h ==> x in loc' && loc'[x] == loc[x]
    requires forall x :: x in loc' && loc'[x] != h ==> x in loc && loc'[x] == loc[x]
    ensures Listed(ls[h := s], loc')
  {
    AtUpdate(ls, h, s);
    var ls' := ls[h := s];
    forall g, x | x in At(ls', g)
      ensures x in loc' && loc'[x] == g
    {
      if g != h {
        assert x in At(ls, g);
      }
    }
    forall x: Timer {:trigger x in loc'} | x in loc'
      ensures x in At(ls', loc'[x])
    {
      if loc'[x] != h {
        assert x in At(ls, loc[x]);
      }
    }
    forall g {:trigger At(ls', g)}
      ensures NoDup(At(ls', g))
    {
      if g != h {
        assert NoDup(At(ls, g));
      }
    }
  }

  lemma UnlinkListed(ls: Lists, loc: map<Timer, Head>, t: Timer)
    requires Listed(ls, loc) && t in loc
    ensures Listed(Unlink(ls, loc[t], t), loc - {t})
  {
    var h := loc[t];
    assert NoDup(At(ls, h));
    Members(ls, loc, h);
    Relisted(ls, loc, h, Without(At(ls, h), t), loc - {t});
  }

  lemma Members(ls: Lists, loc: map<Timer, Head>, h: Head)
    requires Listed(ls, loc)
    ensures forall x :: x in At(ls, h) <==> x in loc && loc[x] == h
  {
  }

  lemma LinkTailListed(ls: Lists, loc: map<Timer, Head>, h: Head, t: Timer)
    requires Listed(ls, loc) && t !in loc
    ensures Listed(LinkTail(ls, h, t), loc[t := h])
  {
    assert NoDup(At(ls, h));
    Members(ls, loc, h);
    Relisted(ls, loc, h, At(ls, h) + [t], loc[t := h]);
  }

  lemma LinkFrontListed(ls: Lists, loc: map<Timer, Head>, h: Head, t: Timer)
    requires Listed(ls, loc) && t !in loc
    ensures Listed(LinkFront(ls, h, t), loc[t := h])
  {
    assert NoDup(At(ls, h));
    Members(ls, loc, h);
    Relisted(ls, loc, h, [t] + At(ls, h), loc[t := h]);
  }

  /** The first of a list leaves it by dropping the first element. */
  lemma WithoutFirst(s: seq<Timer>)
    requires s != [] && NoDup(s)
    ensures Without(s, s[0]) == s[1..]
  {
    assert s[0] !in s[1..];
  }

  lemma FirstListed(ls: Lists, loc: map<Timer, Head>, h: Head)
    requires Listed(ls, loc) && At(ls, h) != []
    ensures At(ls, h)[0] in loc && loc[At(ls, h)[0]] == h
    ensures Without(At(ls, h), At(ls, h)[0]) == At(ls, h)[1..]
  {
    assert At(ls, h)[0] in At(ls, h);
    assert NoDup(At(ls, h));
    WithoutFirst(At(ls, h));
  }

  ghost function NearSet(loc: map<Timer, Head>): set<Timer> {
    set t | t in loc && loc[t].Near?
  }

  lemma NearSetAdd(loc: map<Timer, Head>, t: Timer, h: Head)
    requires t !in loc
    ensures h.Near? ==> |NearSet(loc[t := h])| == |NearSet(loc)| + 1
    ensures !h.Near? ==> NearSet(loc[t := h]) == NearSet(loc)
  {
    if h.Near? {
      assert NearSet(loc[t := h]) == NearSet(loc) + {t};
    } else {
      assert NearSet(loc[t := h]) == NearSet(loc);
    }
  }

  lemma NearSetDel(loc: map<Timer, Head>, t: Timer)
    requires t in loc
    ensures loc[t].Near? ==> |NearSet(loc - {t})| == |NearSet(loc)| - 1
    ensures !loc[t].Near? ==> NearSet(loc - {t}) == NearSet(loc)
  {
    if loc[t].Near? {
      assert NearSet(loc - {t}) == NearSet(loc) - {t};
    } else {
      assert NearSet(loc - {t}) == NearSet(loc);
    }
  }

  lemma NearSetEmpty(ls: Lists, loc: map<Timer, Head>)
    requires Listed(ls, loc) && NearSet(loc) == {}
    ensures forall t :: t in loc ==> !loc[t].Near?
    ensures forall i :: At(ls, Near(i)) == []
  {
    assert forall t :: t in loc && loc[t].Near? ==> t in NearSet(loc);
    forall i
      ensures At(ls, Near(i)) == []
    {
      Members(ls, loc, Near(i));
      NonEmpty(At(ls, Near(i)));
    }
  }

  lemma NonEmpty(s: seq<Timer>)
    ensures s != [] ==> exists t :: t in s
  {
    if s != [] {
      assert s[0] in s;
    }
  }
}
