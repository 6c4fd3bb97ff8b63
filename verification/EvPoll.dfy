/** The poll backend of extern/libev/ev_poll.c: a packed table with an index from fd to slot. */
module EvPoll {
  import opened EvWatcher
  import EvArray

  const POLLIN: Events := {0}
  const POLLOUT: Events := {2}

  datatype Pollfd = Pollfd(fd: nat, events: Events)

  /** What the kernel is asked about a descriptor. */
  datatype Entry = Absent | Present(events: Events)

  /** The poll bits for a libev mask. */
  function ToPoll(nev: Events): Events {
    (if EV_READ <= nev then POLLIN else {}) + (if EV_WRITE <= nev then POLLOUT else {})
  }

  function FromPoll(pe: Events): Events {
    (if POLLIN <= pe then EV_READ else {}) + (if POLLOUT <= pe then EV_WRITE else {})
  }

  lemma PollBitsRoundTrip(nev: Events)
    ensures FromPoll(ToPoll(nev)) == nev * (EV_READ + EV_WRITE)
  {
  }

  /** In the numbers of poll.h: reads are asked with 0x001, bit 0, writes with 0x004, bit 2, and nothing else is. */
  lemma PollBitsAre(nev: Events)
    ensures 0 in ToPoll(nev) <==> EV_READ <= nev
    ensures 2 in ToPoll(nev) <==> EV_WRITE <= nev
    ensures ToPoll(nev) <= {0, 2}
  {
  }

  class Poll {
    var pollidxs: array<int>
    var polls: array<Pollfd>
    var pollcnt: nat

    /** Table and index are inverse to each other. */
    ghost predicate Valid()
      reads this, pollidxs, polls
    {
      pollcnt <= polls.Length &&
      (forall fd :: 0 <= fd < pollidxs.Length ==>
        pollidxs[fd] == -1 || (0 <= pollidxs[fd] < pollcnt && polls[pollidxs[fd]].fd == fd)) &&
      (forall i :: 0 <= i < pollcnt ==> polls[i].fd < pollidxs.Length && pollidxs[polls[i].fd] == i)
    }

    constructor ()
      ensures Valid() && fresh(pollidxs) && fresh(polls)
      ensures forall fd :: Polled(fd) == Absent
    {
      pollidxs, polls, pollcnt := new int[0], new Pollfd[0], 0;
    }

    ghost function Polled(fd: nat): Entry
      reads this, pollidxs, polls
      requires Valid()
    {
      if fd < pollidxs.Length && pollidxs[fd] != -1 then Present(FromPoll(polls[pollidxs[fd]].events))
      else Absent
    }

    /** What is said of a descriptor is what the table handed to poll holds: one entry for it, or none. */
    lemma TableHolds(fd: nat)
      requires Valid()
      ensures Polled(fd) == Absent <==> forall i :: 0 <= i < pollcnt ==> polls[i].fd != fd
      ensures forall i :: 0 <= i < pollcnt && polls[i].fd == fd ==> Polled(fd) == Present(FromPoll(polls[i].events))
      ensures forall i, j :: 0 <= i < j < pollcnt ==> polls[i].fd != polls[j].fd
    {
    }

    /** poll_modify: the entry of fd becomes what nev asks for, and no other entry changes. */
    method Modify(fd: nat, oev: Events, nev: Events)
      requires Valid()
      modifies this, pollidxs, polls
      ensures Valid()
      ensures pollidxs == old(pollidxs) || fresh(pollidxs)
      ensures polls == old(polls) || fresh(polls)
      ensures forall g :: g != fd ==> Polled(g) == old(Polled(g))
      ensures oev == nev ==> Polled(fd) == old(Polled(fd))
      ensures oev != nev ==> Polled(fd) == if nev == {} then Absent else Present(nev * (EV_READ + EV_WRITE))
    {
      if oev == nev {
        return;
      }
      GrowIndex(fd);
      var idx := pollidxs[fd];
      if idx < 0 {
        idx := pollcnt;
        Allocate(fd);
      }
      if nev != {} {
        Ask(fd, idx, nev);
      } else {
        Drop(fd, idx);
      }
    }

    method GrowIndex(fd: nat)
      requires Valid()
      modifies this`pollidxs
      ensures Valid() && fd < pollidxs.Length
      ensures pollidxs == old(pollidxs) || fresh(pollidxs)
      ensures forall g :: Polled(g) == old(Polled(g))
    {
      ghost var was := pollidxs;
      pollidxs := EvArray.NeedSizeFilled(pollidxs, 4, fd + 1, -1);
      assert forall g :: 0 <= g < was.Length ==> pollidxs[g] == pollidxs[..was.Length][g] == was[g];
    }

    /** Room for one more entry behind those in use. */
    method GrowPolls()
      requires Valid()
      modifies this`polls
      ensures Valid() && pollcnt < polls.Length
      ensures polls == old(polls) || fresh(polls)
      ensures forall g :: Polled(g) == old(Polled(g))
    {
      ghost var was := polls[..];
      polls := EvArray.NeedSize(polls, 8, pollcnt + 1, Pollfd(0, {}));
      assert forall i :: 0 <= i < |was| ==> polls[i] == polls[..|was|][i] == was[i];
    }

    /** A new entry for fd, behind those in use; its events are those left over in the slot. */
    method Allocate(fd: nat)
      requires Valid() && fd < pollidxs.Length && pollidxs[fd] == -1
      modifies this`polls, this`pollcnt, pollidxs, polls
      ensures Valid() && pollcnt == old(pollcnt) + 1 && pollidxs[fd] == old(pollcnt)
      ensures polls == old(polls) || fresh(polls)
      ensures forall g :: g != fd ==> Polled(g) == old(Polled(g))
    {
      GrowPolls();
      pollidxs[fd] := pollcnt;
      polls[pollcnt] := polls[pollcnt].(fd := fd);
      pollcnt := pollcnt + 1;
    }

    /** The events of an entry are replaced. */
    method Ask(fd: nat, idx: nat, nev: Events)
      requires Valid() && fd < pollidxs.Length && pollidxs[fd] == idx
      modifies polls
      ensures Valid() && Polled(fd) == Present(nev * (EV_READ + EV_WRITE))
      ensures forall g :: g != fd ==> Polled(g) == old(Polled(g))
    {
      PollBitsRoundTrip(nev);
      polls[idx] := polls[idx].(events := ToPoll(nev));
    }

    /** The last entry moves into the slot of fd. */
    method Drop(fd: nat, idx: nat)
      requires Valid() && fd < pollidxs.Length && pollidxs[fd] == idx
      modifies this`pollcnt, pollidxs, polls
      ensures Valid() && Polled(fd) == Absent
      ensures forall g :: g != fd ==> Polled(g) == old(Polled(g))
    {
      pollidxs[fd] := -1;
      pollcnt := pollcnt - 1;
      if idx < pollcnt {
        polls[idx] := polls[pollcnt];
        pollidxs[polls[idx].fd] := idx;
      }
    }
  }
}
