/** The dense table of the poll back end (src/mio_driver/fd_poller/yf_poll.c): one entry per file
    descriptor with a polled side, and in every side the index of its entry. */
module PollTable {
  import opened Counting

  const INVALID := -1

  /** struct pollfd, its events as two flags */
  datatype Entry = Entry(fd: int, pollIn: bool, pollOut: bool)

  /** yf_fd_evt_link_t, and the pair of them that a descriptor has */
  datatype Side = Side(index: int, polled: bool)
  datatype FdEvt = FdEvt(read: Side, write: Side)

  /** The entry at `i` and the sides of descriptor `f` agree. */
  ghost predicate Agree(e: Entry, i: int, f: int, v: FdEvt) {
    && e.fd == f && (e.pollIn <==> v.read.polled) && (e.pollOut <==> v.write.polled)
    && (v.read.polled ==> v.read.index == i) && (v.write.polled ==> v.write.index == i)
  }

  ghost predicate SideOk(s: Side) { s.polled <==> s.index != INVALID }

  /** Table and back-indices are consistent both ways. */
  ghost predicate TableOk(list: seq<Entry>, n: int, fds: seq<FdEvt>) {
    && 0 <= n <= |list| == |fds|
    && (forall f :: 0 <= f < |fds| ==> SideOk(fds[f].read) && SideOk(fds[f].write))
    && (forall f :: 0 <= f < |fds| && fds[f].read.polled ==>
          0 <= fds[f].read.index < n && Agree(list[fds[f].read.index], fds[f].read.index, f, fds[f]))
    && (forall f :: 0 <= f < |fds| && fds[f].write.polled ==>
          0 <= fds[f].write.index < n && Agree(list[fds[f].write.index], fds[f].write.index, f, fds[f]))
    && (forall i :: 0 <= i < n ==> 0 <= list[i].fd < |fds| && (list[i].pollIn || list[i].pollOut))
    && (forall i :: 0 <= i < n ==> Agree(list[i], i, list[i].fd, fds[list[i].fd]))
  }

  /** Descriptors with an entry are all different, so one without an entry leaves room in the table. */
  lemma {:induction false} Occupied(list: seq<Entry>, n: int, fds: seq<FdEvt>, k: nat) returns (s: set<int>)
    requires TableOk(list, n, fds) && k <= n
    ensures |s| == k && forall f :: f in s ==> 0 <= f < |fds| && exists i :: 0 <= i < k && list[i].fd == f
  {
    if k == 0 {
      s := {};
    } else {
      s := Occupied(list, n, fds, k - 1);
      var f := list[k - 1].fd;
      assert f !in s by {
        assert forall i :: 0 <= i < k - 1 && list[i].fd == f ==> Agree(list[i], i, f, fds[f]);
        assert Agree(list[k - 1], k - 1, f, fds[f]);
      }
      s := s + {f};
      assert list[k - 1].fd == f;
    }
  }

  lemma NotListed(list: seq<Entry>, n: int, fds: seq<FdEvt>, f: int)
    requires TableOk(list, n, fds) && 0 <= f < |fds| && !fds[f].read.polled && !fds[f].write.polled
    ensures forall i :: 0 <= i < n ==> list[i].fd != f
  {
    forall i | 0 <= i < n
      ensures list[i].fd != f
    {
      assert Agree(list[i], i, list[i].fd, fds[list[i].fd]);
    }
  }

  lemma RoomLeft(list: seq<Entry>, n: int, fds: seq<FdEvt>, f: int)
    requires TableOk(list, n, fds) && 0 <= f < |fds| && !fds[f].read.polled && !fds[f].write.polled
    ensures n < |list|
  {
    var s := Occupied(list, n, fds, n);
    forall x | x in s + {f}
      ensures x in Range(|fds|)
    {
      InRange(|fds|, x);
    }
    NotListed(list, n, fds, f);
    RangeCard(s + {f}, |fds|);
  }

  function Sided(v: FdEvt, reading: bool): Side { if reading then v.read else v.write }
  function WithSide(v: FdEvt, reading: bool, s: Side): FdEvt { if reading then v.(read := s) else v.(write := s) }
  function Flagged(e: Entry, reading: bool, on: bool): Entry { if reading then e.(pollIn := on) else e.(pollOut := on) }

  /** The sides of a moved entry's descriptor follow it from `n` to `i` (lines 183-187). */
  function Repaired(v: FdEvt, n: int, i: int): FdEvt {
    FdEvt(if v.read.index == n then v.read.(index := i) else v.read,
          if v.write.index == n then v.write.(index := i) else v.write)
  }

  lemma SidesOk(list: seq<Entry>, n: int, fds: seq<FdEvt>, fd: int)
    requires TableOk(list, n, fds) && 0 <= fd < |fds|
    ensures SideOk(fds[fd].read) && SideOk(fds[fd].write) && 0 <= n <= |list|
    ensures fds[fd].read.polled ==> 0 <= fds[fd].read.index < n
    ensures fds[fd].write.polled ==> 0 <= fds[fd].write.index < n
  {
  }

  lemma AddedOk(list: seq<Entry>, n: int, fds: seq<FdEvt>, fd: int, reading: bool)
    requires TableOk(list, n, fds) && n < |list| && 0 <= fd < |fds| && !fds[fd].read.polled && !fds[fd].write.polled
    ensures var fds' := fds[fd := WithSide(fds[fd], reading, Side(n, true))];
      TableOk(list[n := Entry(fd, reading, !reading)], n + 1, fds')
  {
  }

  ghost predicate Shared(list: seq<Entry>, n: int, fds: seq<FdEvt>, fd: int, reading: bool) {
    && TableOk(list, n, fds) && 0 <= fd < |fds|
    && Sided(fds[fd], !reading).polled && 0 <= Sided(fds[fd], !reading).index < n
  }

  ghost function FlagList(list: seq<Entry>, n: int, fds: seq<FdEvt>, fd: int, reading: bool, on: bool): seq<Entry>
    requires Shared(list, n, fds, fd, reading)
  {
    var i := Sided(fds[fd], !reading).index;
    list[i := Flagged(list[i], reading, on)]
  }

  ghost function FlagFds(fds: seq<FdEvt>, fd: int, reading: bool, on: bool): seq<FdEvt>
    requires 0 <= fd < |fds|
  {
    var side := if on then Side(Sided(fds[fd], !reading).index, true) else Side(INVALID, false);
    fds[fd := WithSide(fds[fd], reading, side)]
  }

  lemma FlaggedSide(list: seq<Entry>, n: int, fds: seq<FdEvt>, fd: int, reading: bool, on: bool, f: int)
    requires Shared(list, n, fds, fd, reading) && 0 <= f < |fds|
    ensures var l, v := FlagList(list, n, fds, fd, reading, on), FlagFds(fds, fd, reading, on)[f];
      && SideOk(v.read) && SideOk(v.write)
      && (v.read.polled ==> 0 <= v.read.index < n && Agree(l[v.read.index], v.read.index, f, v))
      && (v.write.polled ==> 0 <= v.write.index < n && Agree(l[v.write.index], v.write.index, f, v))
  {
  }

  lemma FlaggedEntry(list: seq<Entry>, n: int, fds: seq<FdEvt>, fd: int, reading: bool, on: bool, k: int)
    requires Shared(list, n, fds, fd, reading) && 0 <= k < n
    ensures var l, v := FlagList(list, n, fds, fd, reading, on), FlagFds(fds, fd, reading, on);
      0 <= l[k].fd < |v| && (l[k].pollIn || l[k].pollOut) && Agree(l[k], k, l[k].fd, v[l[k].fd])
  {
    assert Agree(list[k], k, list[k].fd, fds[list[k].fd]);
  }

  /** A side of a descriptor that has an entry comes or goes: only that entry's events change. */
  lemma FlaggedOk(list: seq<Entry>, n: int, fds: seq<FdEvt>, fd: int, reading: bool, on: bool)
    requires TableOk(list, n, fds) && 0 <= fd < |fds| && Sided(fds[fd], !reading).polled
    ensures Shared(list, n, fds, fd, reading)
    ensures TableOk(FlagList(list, n, fds, fd, reading, on), n, FlagFds(fds, fd, reading, on))
  {
    hide Agree, SideOk, Shared, WithSide, Flagged, FlagList, FlagFds;
    SharedSizes(list, n, fds, fd, reading, on);
    var l, v := FlagList(list, n, fds, fd, reading, on), FlagFds(fds, fd, reading, on);
    forall f | 0 <= f < |v|
      ensures SideOk(v[f].read) && SideOk(v[f].write)
      ensures v[f].read.polled ==> 0 <= v[f].read.index < n && Agree(l[v[f].read.index], v[f].read.index, f, v[f])
      ensures v[f].write.polled ==> 0 <= v[f].write.index < n && Agree(l[v[f].write.index], v[f].write.index, f, v[f])
    {
      FlaggedSide(list, n, fds, fd, reading, on, f);
    }
    forall k | 0 <= k < n
      ensures 0 <= l[k].fd < |v| && (l[k].pollIn || l[k].pollOut) && Agree(l[k], k, l[k].fd, v[l[k].fd])
    {
      FlaggedEntry(list, n, fds, fd, reading, on, k);
    }
  }

  lemma SharedSizes(list: seq<Entry>, n: int, fds: seq<FdEvt>, fd: int, reading: bool, on: bool)
    requires TableOk(list, n, fds) && 0 <= fd < |fds| && Sided(fds[fd], !reading).polled
    ensures Shared(list, n, fds, fd, reading)
    ensures |FlagList(list, n, fds, fd, reading, on)| == |list| == |fds| == |FlagFds(fds, fd, reading, on)|
    ensures 0 <= n <= |list|
  {
  }

  lemma LastGone(list: seq<Entry>, n: int, fds: seq<FdEvt>, fd: int, reading: bool)
    requires TableOk(list, n, fds) && 0 <= fd < |fds| && Sided(fds[fd], reading).polled
    requires !Sided(fds[fd], !reading).polled
    requires Sided(fds[fd], reading).index == n - 1
    ensures n > 0 && TableOk(list, n - 1, fds[fd := WithSide(fds[fd], reading, Side(INVALID, false))])
  {
  }

  ghost predicate Leaving(list: seq<Entry>, n: int, fds: seq<FdEvt>, fd: int, reading: bool) {
    && TableOk(list, n, fds) && 0 <= fd < |fds| && Sided(fds[fd], reading).polled && !Sided(fds[fd], !reading).polled
    && 0 <= Sided(fds[fd], reading).index < n - 1 && 0 <= list[n - 1].fd < |fds|
  }

  ghost function SwapList(list: seq<Entry>, n: int, fds: seq<FdEvt>, fd: int, reading: bool): seq<Entry>
    requires Leaving(list, n, fds, fd, reading)
  {
    list[Sided(fds[fd], reading).index := list[n - 1]]
  }

  ghost function SwapFds(list: seq<Entry>, n: int, fds: seq<FdEvt>, fd: int, reading: bool): seq<FdEvt>
    requires Leaving(list, n, fds, fd, reading)
  {
    fds[list[n - 1].fd := Repaired(fds[list[n - 1].fd], n - 1, Sided(fds[fd], reading).index)]
       [fd := WithSide(fds[fd], reading, Side(INVALID, false))]
  }

  lemma OtherEntry(list: seq<Entry>, n: int, fds: seq<FdEvt>, fd: int, reading: bool)
    requires Leaving(list, n, fds, fd, reading)
    ensures list[n - 1].fd != fd && list[Sided(fds[fd], reading).index].fd == fd
  {
    var i := Sided(fds[fd], reading).index;
    assert Agree(list[i], i, list[i].fd, fds[list[i].fd]);
    assert Agree(list[n - 1], n - 1, list[n - 1].fd, fds[list[n - 1].fd]);
  }

  lemma SwappedSide(list: seq<Entry>, n: int, fds: seq<FdEvt>, fd: int, reading: bool, f: int)
    requires Leaving(list, n, fds, fd, reading) && 0 <= f < |fds|
    ensures var l, v := SwapList(list, n, fds, fd, reading), SwapFds(list, n, fds, fd, reading)[f];
      && SideOk(v.read) && SideOk(v.write)
      && (v.read.polled ==> 0 <= v.read.index < n - 1 && Agree(l[v.read.index], v.read.index, f, v))
      && (v.write.polled ==> 0 <= v.write.index < n - 1 && Agree(l[v.write.index], v.write.index, f, v))
  {
    OtherEntry(list, n, fds, fd, reading);
  }

  lemma SwappedEntry(list: seq<Entry>, n: int, fds: seq<FdEvt>, fd: int, reading: bool, k: int)
    requires Leaving(list, n, fds, fd, reading) && 0 <= k < n - 1
    ensures var l, v := SwapList(list, n, fds, fd, reading), SwapFds(list, n, fds, fd, reading);
      0 <= l[k].fd < |v| && (l[k].pollIn || l[k].pollOut) && Agree(l[k], k, l[k].fd, v[l[k].fd])
  {
    OtherEntry(list, n, fds, fd, reading);
    assert Agree(list[k], k, list[k].fd, fds[list[k].fd]);
    assert Agree(list[n - 1], n - 1, list[n - 1].fd, fds[list[n - 1].fd]);
  }

  lemma LastFd(list: seq<Entry>, n: int, fds: seq<FdEvt>, fd: int, reading: bool)
    requires TableOk(list, n, fds) && 0 <= fd < |fds| && Sided(fds[fd], reading).polled
    requires !Sided(fds[fd], !reading).polled
    ensures 0 <= Sided(fds[fd], reading).index < n && 0 <= list[n - 1].fd < |fds|
  {
  }

  /** Moving the last entry into the place of one that goes. */
  lemma SwappedOk(list: seq<Entry>, n: int, fds: seq<FdEvt>, fd: int, reading: bool)
    requires Leaving(list, n, fds, fd, reading)
    ensures list[n - 1].fd != fd
    ensures TableOk(SwapList(list, n, fds, fd, reading), n - 1, SwapFds(list, n, fds, fd, reading))
  {
    hide Agree, SideOk, Leaving, Repaired, WithSide;
    OtherEntry(list, n, fds, fd, reading);
    var l, v := SwapList(list, n, fds, fd, reading), SwapFds(list, n, fds, fd, reading);
    SizeKept(list, n, fds, fd, reading);
    forall f | 0 <= f < |v|
      ensures SideOk(v[f].read) && SideOk(v[f].write)
      ensures v[f].read.polled ==> 0 <= v[f].read.index < n - 1 && Agree(l[v[f].read.index], v[f].read.index, f, v[f])
      ensures v[f].write.polled ==> 0 <= v[f].write.index < n - 1
      ensures v[f].write.polled ==> Agree(l[v[f].write.index], v[f].write.index, f, v[f])
    {
      SwappedSide(list, n, fds, fd, reading, f);
    }
    forall k | 0 <= k < n - 1
      ensures 0 <= l[k].fd < |v| && (l[k].pollIn || l[k].pollOut) && Agree(l[k], k, l[k].fd, v[l[k].fd])
    {
      SwappedEntry(list, n, fds, fd, reading, k);
    }
  }

  lemma SizeKept(list: seq<Entry>, n: int, fds: seq<FdEvt>, fd: int, reading: bool)
    requires Leaving(list, n, fds, fd, reading)
    ensures |SwapList(list, n, fds, fd, reading)| == |list| == |fds| == |SwapFds(list, n, fds, fd, reading)|
    ensures 0 <= n - 1 <= |list|
  {
  }

  /** What is polled of a descriptor, and of each of them. */
  datatype Sides = Sides(reading: bool, writing: bool)

  const IDLE := Sides(false, false)

  ghost function PolledIn(fds: seq<FdEvt>): (r: seq<Sides>)
    ensures |r| == |fds| && forall f :: 0 <= f < |fds| ==> r[f] == Sides(fds[f].read.polled, fds[f].write.polled)
  {
    seq(|fds|, f requires 0 <= f < |fds| => Sides(fds[f].read.polled, fds[f].write.polled))
  }

  function With(s: Sides, reading: bool, on: bool): Sides {
    if reading then s.(reading := on) else s.(writing := on)
  }

  /** Only what is polled of one descriptor changed. */
  lemma OneChanged(fds: seq<FdEvt>, fds': seq<FdEvt>, f: int, s: Sides)
    requires |fds'| == |fds| && 0 <= f < |fds| && PolledIn(fds')[f] == s
    requires forall k :: 0 <= k < |fds| && k != f ==> PolledIn(fds')[k] == PolledIn(fds)[k]
    ensures PolledIn(fds') == PolledIn(fds)[f := s]
  {
  }

  class Poller {
    const list: array<Entry>   // event_list, one slot per descriptor
    var nevents: int
    var fds: seq<FdEvt>        // pevents, by descriptor

    ghost predicate Valid()
      reads this, list
    {
      TableOk(list[..], nevents, fds)
    }

    ghost function Polled(): seq<Sides>
      reads this
    {
      PolledIn(fds)
    }

    /** yf_poll_init */
    constructor (nfds: nat)
      ensures Valid() && fresh(list) && |fds| == nfds && forall f :: 0 <= f < nfds ==> Polled()[f] == IDLE
    {
      list := new Entry[nfds](_ => Entry(0, false, false));
      nevents := 0;
      fds := seq(nfds, _ => FdEvt(Side(INVALID, false), Side(INVALID, false)));
    }

    /** yf_poll_activate for the reading or the writing side of `fd`. */
    method Activate(fd: int, reading: bool)
      requires Valid() && 0 <= fd < |fds|
      modifies this, list
      ensures Valid() && |fds| == |old(fds)|
      ensures Polled() == old(Polled())[fd := With(old(Polled())[fd], reading, true)]
      ensures nevents == old(nevents) + if old(Polled())[fd] == IDLE then 1 else 0
    {
      hide TableOk;
      SidesOk(list[..], nevents, fds, fd);
      var ev, other := Sided(fds[fd], reading), Sided(fds[fd], !reading);
      if ev.index != INVALID {
        OneChanged(fds, fds, fd, Polled()[fd]);
        return;
      }
      if other.index == INVALID {
        RoomLeft(list[..], nevents, fds, fd);
        AddedOk(list[..], nevents, fds, fd, reading);
        list[nevents] := Entry(fd, reading, !reading);
        ev := ev.(index := nevents);
        nevents := nevents + 1;
      } else {
        FlaggedOk(list[..], nevents, fds, fd, reading, true);
        list[other.index] := Flagged(list[other.index], reading, true);
        ev := ev.(index := other.index);
      }
      ev := ev.(polled := true);
      fds := fds[fd := WithSide(fds[fd], reading, ev)];
      OneChanged(old(fds), fds, fd, Polled()[fd]);
    }

    /** yf_poll_deactivate. The last entry takes the place of one that goes. */
    method Deactivate(fd: int, reading: bool)
      requires Valid() && 0 <= fd < |fds|
      modifies this, list
      ensures Valid() && |fds| == |old(fds)|
      ensures Polled() == old(Polled())[fd := With(old(Polled())[fd], reading, false)]
      ensures nevents == old(nevents) - if old(Polled())[fd] == With(IDLE, reading, true) then 1 else 0
    {
      hide TableOk;
      SidesOk(list[..], nevents, fds, fd);
      var ev, other := Sided(fds[fd], reading), Sided(fds[fd], !reading);
      if ev.index == INVALID {
        OneChanged(fds, fds, fd, Polled()[fd]);
        return;
      }
      if other.index == INVALID {
        LastFd(list[..], nevents, fds, fd, reading);
        if ev.index < nevents - 1 {
          SwappedOk(list[..], nevents, fds, fd, reading);
        } else {
          LastGone(list[..], nevents, fds, fd, reading);
        }
        nevents := nevents - 1;
        if ev.index < nevents {
          list[ev.index] := list[nevents];
          var moved := list[nevents].fd;
          fds := fds[moved := Repaired(fds[moved], nevents, ev.index)];
        }
      } else {
        FlaggedOk(list[..], nevents, fds, fd, reading, false);
        list[other.index] := Flagged(list[other.index], reading, false);
      }
      fds := fds[fd := WithSide(fds[fd], reading, Side(INVALID, false))];
      OneChanged(old(fds), fds, fd, Polled()[fd]);
    }

    /** yf_poll_del */
    method Del(fd: int)
      requires Valid() && 0 <= fd < |fds|
      modifies this, list
      ensures Valid() && |fds| == |old(fds)| && Polled() == old(Polled())[fd := IDLE]
    {
      if fds[fd].read.polled {
        Deactivate(fd, true);
      }
      if fds[fd].write.polled {
        Deactivate(fd, false);
      }
      OneChanged(old(fds), fds, fd, IDLE);
    }
  }
}
