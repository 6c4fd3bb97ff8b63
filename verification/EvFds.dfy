/**
 * The descriptor interest of extern/libev/ev.c: io watchers come and go, changed descriptors are
 * noted in `fdchanges`, and fd_reify brings the kernel's view up to date before the next poll.
 */
module EvFds {
  import opened EvWatcher
  import opened EvQueue
  import opened EvDelivery
  import opened EvPoll
  import opened EvList
  import EvArray
  import EvSelect

  /** EV_ANFD_REIFY has the value of EV_READ. */
  const EV_ANFD_REIFY: Events := {0}

  const SIZEOF_ANFD: nat := 16

  const RW: Events := EV_READ + EV_WRITE

  /** The watchers of a descriptor, newest first; the mask last reported; what has changed. */
  datatype Anfd = Anfd(head: seq<Watcher>, events: Events, reify: Events)

  ghost function Or(list: seq<Watcher>): Events
    reads (set w | w in list)`events
  {
    if list == [] then {} else list[0].events + Or(list[1..])
  }

  lemma {:induction false} OrCollects(list: seq<Watcher>)
    ensures forall b :: b in Or(list) <==> exists w :: w in list && b in w.events
  {
    if list != [] {
      OrCollects(list[1..]);
      assert forall w :: w in list <==> w == list[0] || w in list[1..];
    }
  }

  method UnionEvents(list: seq<Watcher>) returns (events: Events)
    ensures events == Or(list)
  {
    events := {};
    for i := 0 to |list|
      invariant events + Or(list[i..]) == Or(list)
    {
      events := events + list[i].events;
    }
  }

  /** The watchers of descriptor fd are active, distinct and ask for reads and writes only. */
  ghost predicate HeadOk(list: seq<Watcher>, fd: nat, ios: set<Watcher>)
    reads ios`active, ios`fd, ios`events
  {
    (forall i :: 0 <= i < |list| ==>
      list[i] in ios && list[i].active == 1 && list[i].fd == fd && list[i].events <= RW) &&
    Distinct(list)
  }

  ghost predicate UpToDate(a: Anfd)
    reads (set w | w in a.head)`events
  {
    a.reify == {} && a.events == Or(a.head)
  }

  /** What the kernel should be asked for a mask. */
  function EntryFor(events: Events): Entry {
    if events == {} then Absent else Present(events)
  }

  class Fds {
    const q: Pending
    const poll: Poll
    var anfds: seq<Anfd>
    var fdchanges: seq<nat>
    var activecnt: int
    /** The calls made to backend_modify so far. */
    var requests: seq<EvSelect.Request>
    ghost const ios: set<Watcher>

    constructor (q: Pending, poll: Poll, ios: set<Watcher>)
      requires poll.Valid() && ios <= q.watchers
      requires forall w :: w in ios ==> w.active == 0
      requires forall fd :: poll.Polled(fd) == Absent
      ensures Valid() && Mirrored() && this.q == q && this.poll == poll && this.ios == ios
    {
      this.q, this.poll, this.ios := q, poll, ios;
      anfds, fdchanges, activecnt, requests := [], [], 0, [];
    }

    ghost predicate Linked(w: Watcher)
      reads this`anfds, w`active, w`fd
    {
      w.active != 0 ==> w.fd < |anfds| && w in anfds[w.fd].head
    }

    ghost predicate HeadsOk()
      reads this`anfds, ios`active, ios`fd, ios`events
    {
      forall fd :: 0 <= fd < |anfds| ==> HeadOk(anfds[fd].head, fd, ios) && anfds[fd].events <= RW
    }

    /** What holds between any two calls: a descriptor that is not noted as changed is up to date. */
    ghost predicate Valid()
      reads this`anfds, this`fdchanges, ios`active, ios`fd, ios`events
    {
      ValidBut(|anfds|)
    }

    /** ... and within a call, descriptor k excepted. */
    ghost predicate ValidBut(k: nat)
      reads this`anfds, this`fdchanges, ios`active, ios`fd, ios`events
    {
      ios <= q.watchers &&
      HeadsOk() &&
      (forall w :: w in ios ==> Linked(w)) &&
      (forall i :: 0 <= i < |fdchanges| ==> fdchanges[i] < |anfds|) &&
      (forall fd :: 0 <= fd < |anfds| ==> fd == k || fd in fdchanges || UpToDate(anfds[fd]))
    }

    /** ... and in the middle of a start or stop of w, which is not where it should be. */
    ghost predicate LinkedBut(w: Watcher)
      reads this`anfds, this`fdchanges, ios`active, ios`fd, ios`events, w`fd
    {
      ios <= q.watchers &&
      HeadsOk() &&
      (forall v :: v in ios && v != w ==> Linked(v)) &&
      (forall i :: 0 <= i < |fdchanges| ==> fdchanges[i] < |anfds|) &&
      (forall fd :: 0 <= fd < |anfds| ==> fd == w.fd || fd in fdchanges || UpToDate(anfds[fd]))
    }

    lemma MarkedIsNoted(fd: nat)
      requires Valid()
      ensures Mark(fd) == {} || fd in fdchanges
    {
    }

    ghost function Reported(fd: nat): Events
      reads this`anfds
    {
      if fd < |anfds| then anfds[fd].events else {}
    }

    /** The watchers of a descriptor, newest first. */
    ghost function Head(fd: nat): seq<Watcher>
      reads this`anfds
    {
      if fd < |anfds| then anfds[fd].head else []
    }

    /** The mark of a descriptor: what has changed about it. */
    ghost function Mark(fd: nat): Events
      reads this`anfds
    {
      if fd < |anfds| then anfds[fd].reify else {}
    }

    /** The descriptor is noted as changed, and the flags are added to its mark. */
    ghost predicate Changed(fd: nat, mark: Events, flags: Events)
      reads this`anfds, this`fdchanges
    {
      fd in fdchanges && Mark(fd) == mark + flags
    }

    /** fd_change as it leaves the list of changes. */
    ghost function Noted(changes: seq<nat>, fd: nat, mark: Events): seq<nat> {
      if mark == {} then changes + [fd] else changes
    }

    /** The backend holds what was last reported to it, and so would any other after the same calls. */
    ghost predicate Mirrored()
      reads this`anfds, this`requests, poll, poll.pollidxs, poll.polls
    {
      poll.Valid() && (forall fd :: poll.Polled(fd) == EntryFor(Reported(fd))) && Called(requests)
    }

    /** What these calls add up to is what was last reported. */
    ghost predicate Called(calls: seq<EvSelect.Request>)
      reads this`anfds
    {
      forall fd :: EvSelect.AskedBy(calls, fd) == Reported(fd)
    }

    /** The events of every active watcher of fd together. */
    ghost function Wanted(fd: nat): Events
      reads ios`active, ios`fd, ios`events
    {
      set w, b | w in ios && w.active != 0 && w.fd == fd && b in w.events :: b
    }

    /** One entry of the table is replaced. */
    method SetAnfd(fd: nat, a: Anfd)
      requires fd < |anfds|
      modifies this`anfds
      ensures |anfds| == |old(anfds)| && anfds[fd] == a
      ensures forall g :: 0 <= g < |anfds| && g != fd ==> anfds[g] == old(anfds)[g]
      ensures forall g :: Head(g) == if g == fd then a.head else old(Head(g))
      ensures forall g :: Mark(g) == if g == fd then a.reify else old(Mark(g))
      ensures forall g :: Reported(g) == if g == fd then a.events else old(Reported(g))
    {
      anfds := anfds[fd := a];
    }

    /** fd_change. With no flag at all, the descriptor is noted even though `reify` stays empty. */
    method FdChange(fd: nat, flags: Events)
      requires fd < |anfds| && ValidBut(fd) && (Mark(fd) == {} || fd in fdchanges)
      modifies this`anfds, this`fdchanges
      ensures Valid() && Changed(fd, old(Mark(fd)), flags) && fdchanges == Noted(old(fdchanges), fd, old(Mark(fd)))
      ensures forall g :: g != fd ==> Mark(g) == old(Mark(g))
      ensures forall g :: Head(g) == old(Head(g)) && Reported(g) == old(Reported(g))
    {
      var reify := anfds[fd].reify;
      SetAnfd(fd, anfds[fd].(reify := reify + flags));
      if reify == {} {
        fdchanges := fdchanges + [fd];
      }
    }

    /** array_needsize of the descriptor table, zero-filled. */
    method GrowTable(fd: nat)
      requires Valid() && Mirrored()
      modifies this`anfds
      ensures Valid() && Mirrored() && fd < |anfds|
      ensures forall g :: Head(g) == old(Head(g)) && Mark(g) == old(Mark(g))
    {
      if |anfds| <= fd {
        var n := EvArray.ArrayNextSize(SIZEOF_ANFD, |anfds|, fd + 1);
        ghost var was := |anfds|;
        anfds := anfds + seq(n - |anfds|, _ => Anfd([], {}, {}));
        assert forall g :: was <= g < |anfds| ==> anfds[g] == Anfd([], {}, {});
        assert forall g :: Reported(g) == old(Reported(g));
        assert forall w :: w in ios ==> old(Linked(w));
      }
    }

    method IoStart(w: Watcher)
      requires Valid() && Mirrored() && w in ios && w.events <= EV__IOFDSET + RW
      modifies this`anfds, this`fdchanges, this`activecnt, w`active, w`events
      ensures Valid() && Mirrored() && w.active != 0
      ensures w.events == if old(w.active) != 0 then old(w.events) else old(w.events) * RW
      ensures activecnt == if old(w.active) != 0 then old(activecnt) else old(activecnt) + 1
      ensures forall g :: Head(g) == (if g == w.fd && old(w.active) == 0 then [w] else []) + old(Head(g))
      ensures old(w.active) != 0 ==> anfds == old(anfds) && fdchanges == old(fdchanges)
      ensures old(w.active) == 0 ==> Changed(w.fd, old(Mark(w.fd)), old(w.events) * (EV__IOFDSET + EV_ANFD_REIFY))
      ensures old(w.active) == 0 ==> fdchanges == Noted(old(fdchanges), w.fd, old(Mark(w.fd)))
      ensures forall g :: g != w.fd ==> Mark(g) == old(Mark(g))
    {
      if w.active != 0 {
        return;
      }
      GrowTable(w.fd);
      Enter(w);
    }

    /** ev_io_start from there on. */
    method Enter(w: Watcher)
      requires Valid() && Mirrored() && w in ios && w.active == 0 && w.fd < |anfds|
      requires w.events <= EV__IOFDSET + RW
      modifies this`anfds, this`fdchanges, this`activecnt, w`active, w`events
      ensures Valid() && Mirrored() && w.active != 0 && w.events == old(w.events) * RW
      ensures activecnt == old(activecnt) + 1
      ensures forall g :: Head(g) == (if g == w.fd then [w] else []) + old(Head(g))
      ensures Changed(w.fd, old(Mark(w.fd)), old(w.events) * (EV__IOFDSET + EV_ANFD_REIFY))
      ensures fdchanges == Noted(old(fdchanges), w.fd, old(Mark(w.fd)))
      ensures forall g :: g != w.fd ==> Mark(g) == old(Mark(g))
    {
      Link(w);
      activecnt := activecnt + 1;
    }

    /** ev_io_start on a stopped watcher whose descriptor has a table entry. */
    method Link(w: Watcher)
      requires Valid() && w in ios && w.active == 0 && w.fd < |anfds|
      requires w.events <= EV__IOFDSET + RW
      modifies this`anfds, this`fdchanges, w`active, w`events
      ensures Valid() && w.active == 1 && w.events == old(w.events) * RW
      ensures forall g :: Reported(g) == old(Reported(g))
      ensures forall g :: Head(g) == (if g == w.fd then [w] else []) + old(Head(g))
      ensures Changed(w.fd, old(Mark(w.fd)), old(w.events) * (EV__IOFDSET + EV_ANFD_REIFY))
      ensures fdchanges == Noted(old(fdchanges), w.fd, old(Mark(w.fd)))
      ensures forall g :: g != w.fd ==> Mark(g) == old(Mark(g))
    {
      var flags := w.events * (EV__IOFDSET + EV_ANFD_REIFY);
      MarkedIsNoted(w.fd);
      Arm(w);
      Attach(w);
      FdChange(w.fd, flags);
    }

    /** ev_start, and the bit for a new descriptor, which has been read before, is dropped. */
    method Arm(w: Watcher)
      requires Valid() && w in ios && w.active == 0 && w.fd < |anfds| && w.events <= EV__IOFDSET + RW
      modifies w`active, w`events
      ensures LinkedBut(w) && w.active == 1 && w.events == old(w.events) * RW && w !in anfds[w.fd].head
    {
      assert w !in anfds[w.fd].head by {
        assert HeadOk(anfds[w.fd].head, w.fd, ios);
      }
      assert forall g :: 0 <= g < |anfds| ==> HeadOk(anfds[g].head, g, ios) && w !in anfds[g].head;
      w.active := 1;
      w.events := w.events - EV__IOFDSET;
    }

    lemma LinkedIsValid(w: Watcher)
      requires LinkedBut(w) && Linked(w)
      ensures ValidBut(w.fd)
    {
    }

    /** A new list for the descriptor of w, which all of its other watchers are still on. */
    method SetHead(w: Watcher, list: seq<Watcher>)
      requires LinkedBut(w) && w.fd < |anfds| && HeadOk(list, w.fd, ios)
      requires forall v :: v in anfds[w.fd].head && v != w ==> v in list
      modifies this`anfds
      ensures LinkedBut(w) && w.fd < |anfds|
      ensures forall g :: Reported(g) == old(Reported(g)) && Mark(g) == old(Mark(g))
      ensures forall g :: Head(g) == if g == w.fd then list else old(Head(g))
    {
      assert forall v :: v in ios && v != w ==> Linked(v);
      SetAnfd(w.fd, anfds[w.fd].(head := list));
    }

    /** wlist_add. */
    method Attach(w: Watcher)
      requires w in ios && w.active == 1 && w.events <= RW && w.fd < |anfds| && LinkedBut(w) && w !in anfds[w.fd].head
      modifies this`anfds
      ensures w.fd < |anfds| && ValidBut(w.fd)
      ensures forall g :: Reported(g) == old(Reported(g)) && Mark(g) == old(Mark(g))
      ensures forall g :: Head(g) == (if g == w.fd then [w] else []) + old(Head(g))
    {
      ghost var list := anfds[w.fd].head;
      assert HeadOk([w] + list, w.fd, ios) by {
        assert HeadOk(list, w.fd, ios);
      }
      SetHead(w, [w] + anfds[w.fd].head);
      assert Head(w.fd) == anfds[w.fd].head;
      LinkedIsValid(w);
    }

    method IoStop(w: Watcher)
      requires Valid() && Mirrored() && q.Valid() && w in ios
      modifies this`anfds, this`fdchanges, this`activecnt, w`active, q`pendings, w`pending
      ensures Valid() && Mirrored() && q.Valid() && w.active == 0
      ensures activecnt == if old(w.active) != 0 then old(activecnt) - 1 else old(activecnt)
      ensures forall g :: Head(g) == if g == w.fd && old(w.active) != 0 then Unlinked(old(Head(g)), w) else old(Head(g))
      ensures old(w.active) == 0 ==> anfds == old(anfds) && fdchanges == old(fdchanges)
      ensures old(w.active) != 0 ==> Changed(w.fd, old(Mark(w.fd)), EV_ANFD_REIFY)
      ensures old(w.active) != 0 ==> fdchanges == Noted(old(fdchanges), w.fd, old(Mark(w.fd)))
      ensures forall g :: g != w.fd ==> Mark(g) == old(Mark(g))
      ensures q.pendings == Cleared(old(q.pendings), w) && w.pending == 0
    {
      var _ := q.ClearPending(w);
      if w.active == 0 {
        return;
      }
      Leave(w);
    }

    /** ev_io_stop from there on. */
    method Leave(w: Watcher)
      requires Valid() && Mirrored() && w in ios && w.active != 0
      modifies this`anfds, this`fdchanges, this`activecnt, w`active
      ensures Valid() && Mirrored() && w.active == 0 && activecnt == old(activecnt) - 1
      ensures forall g :: Head(g) == if g == w.fd then Unlinked(old(Head(g)), w) else old(Head(g))
      ensures Changed(w.fd, old(Mark(w.fd)), EV_ANFD_REIFY)
      ensures fdchanges == Noted(old(fdchanges), w.fd, old(Mark(w.fd)))
      ensures forall g :: g != w.fd ==> Mark(g) == old(Mark(g))
    {
      Unlink(w);
      activecnt := activecnt - 1;
    }

    /** ev_io_stop on an active watcher. */
    method Unlink(w: Watcher)
      requires Valid() && w in ios && w.active != 0
      modifies this`anfds, this`fdchanges, w`active
      ensures Valid() && w.active == 0
      ensures forall g :: Reported(g) == old(Reported(g))
      ensures forall g :: Head(g) == if g == w.fd then Unlinked(old(Head(g)), w) else old(Head(g))
      ensures Changed(w.fd, old(Mark(w.fd)), EV_ANFD_REIFY)
      ensures fdchanges == Noted(old(fdchanges), w.fd, old(Mark(w.fd)))
      ensures forall g :: g != w.fd ==> Mark(g) == old(Mark(g))
    {
      MarkedIsNoted(w.fd);
      Detach(w);
      Disarm(w);
      FdChange(w.fd, EV_ANFD_REIFY);
    }

    /** wlist_del. */
    method Detach(w: Watcher)
      requires Valid() && w in ios && w.active != 0
      modifies this`anfds
      ensures w.fd < |anfds| && LinkedBut(w)
      ensures forall g :: 0 <= g < |anfds| ==> w !in Head(g)
      ensures forall g :: Reported(g) == old(Reported(g)) && Mark(g) == old(Mark(g))
      ensures forall g :: Head(g) == if g == w.fd then Unlinked(old(Head(g)), w) else old(Head(g))
    {
      assert Linked(w);
      ghost var list, r := anfds[w.fd].head, Unlinked(anfds[w.fd].head, w);
      OnOneList(w);
      assert HeadOk(list, w.fd, ios);
      UnlinkedMembers(list, w);
      assert HeadOk(r, w.fd, ios) by {
        assert forall i :: 0 <= i < |r| ==> r[i] in list && r[i] != w;
      }
      SetHead(w, Unlinked(anfds[w.fd].head, w));
    }

    /** A watcher is on the list of its own descriptor only. */
    lemma OnOneList(w: Watcher)
      requires Valid()
      ensures forall g :: g != w.fd ==> w !in Head(g)
    {
      forall g: nat | g != w.fd && g < |anfds| ensures w !in Head(g) {
        assert HeadOk(anfds[g].head, g, ios);
      }
    }

    /** ev_stop. */
    method Disarm(w: Watcher)
      requires w in ios && w.fd < |anfds| && LinkedBut(w) && forall g :: 0 <= g < |anfds| ==> w !in Head(g)
      modifies w`active
      ensures ValidBut(w.fd) && w.active == 0
    {
      assert forall g :: 0 <= g < |anfds| ==> w !in anfds[g].head by {
        assert forall g :: 0 <= g < |anfds| ==> Head(g) == anfds[g].head;
      }
      w.active := 0;
    }

    lemma OrWithin(list: seq<Watcher>, fd: nat)
      requires HeadOk(list, fd, ios)
      ensures Or(list) <= RW
    {
      OrCollects(list);
      forall b | b in Or(list) ensures b in RW {
        var w :| w in list && b in w.events;
      }
    }

    /** The backend still holds oev for fd... */
    ghost predicate HeldBut(fd: nat, oev: Events)
      reads this`anfds, poll, poll.pollidxs, poll.polls
    {
      poll.Valid() && forall g :: poll.Polled(g) == EntryFor(if g == fd then oev else Reported(g))
    }

    /** ... as the calls so far add up to. */
    ghost predicate CalledBut(fd: nat, oev: Events)
      reads this`anfds, this`requests
    {
      forall g :: EvSelect.AskedBy(requests, g) == if g == fd then oev else Reported(g)
    }

    /** The end of a round: the backend, which still holds oev for fd, is told if it must be. */
    method Tell(fd: nat, oev: Events, nev: Events, reify: Events)
      requires HeldBut(fd, oev) && CalledBut(fd, oev)
      requires Reported(fd) == nev <= RW && (oev != nev ==> EV__IOFDSET <= reify)
      modifies this`requests, poll, poll.pollidxs, poll.polls
      ensures Mirrored()
      ensures poll.pollidxs == old(poll.pollidxs) || fresh(poll.pollidxs)
      ensures poll.polls == old(poll.polls) || fresh(poll.polls)
    {
      if EV__IOFDSET <= reify {
        CallPoll(fd, oev, nev);
        Log(fd, oev, nev);
      }
    }

    /** backend_modify */
    method CallPoll(fd: nat, oev: Events, nev: Events)
      requires HeldBut(fd, oev) && Reported(fd) == nev <= RW
      modifies poll, poll.pollidxs, poll.polls
      ensures poll.Valid() && forall g :: poll.Polled(g) == EntryFor(Reported(g))
      ensures poll.pollidxs == old(poll.pollidxs) || fresh(poll.pollidxs)
      ensures poll.polls == old(poll.polls) || fresh(poll.polls)
    {
      assert nev * RW == nev;
      poll.Modify(fd, oev, nev);
    }

    method Log(fd: nat, oev: Events, nev: Events)
      requires CalledBut(fd, oev) && Reported(fd) == nev <= RW
      modifies this`requests
      ensures Called(requests)
    {
      LogIsCalled(fd, oev, nev);
      requests := requests + [EvSelect.Request(fd, oev, nev)];
    }

    lemma LogIsCalled(fd: nat, oev: Events, nev: Events)
      requires CalledBut(fd, oev) && Reported(fd) == nev <= RW
      ensures Called(requests + [EvSelect.Request(fd, oev, nev)])
    {
      var r := EvSelect.Request(fd, oev, nev);
      assert nev * RW == nev;
      forall g ensures EvSelect.AskedBy(requests + [r], g) == Reported(g) {
        EvSelect.AskedSnoc(requests, r, g);
      }
    }

    /** One round of fd_reify: the descriptor is recomputed, and the backend told if it must be. */
    method ReifyOne(fd: nat)
      requires fd < |anfds| && HeadOk(anfds[fd].head, fd, ios) && Mirrored()
      modifies this`anfds, this`requests, poll, poll.pollidxs, poll.polls
      ensures |anfds| == |old(anfds)| && UpToDate(anfds[fd]) && anfds[fd].head == old(anfds)[fd].head
      ensures anfds == old(anfds)[fd := anfds[fd]] && anfds[fd].events <= RW
      ensures Mirrored()
      ensures poll.pollidxs == old(poll.pollidxs) || fresh(poll.pollidxs)
      ensures poll.polls == old(poll.polls) || fresh(poll.polls)
    {
      var o := anfds[fd];
      var reify := o.reify;
      var events := UnionEvents(o.head);
      OrWithin(o.head, fd);
      anfds := anfds[fd := Anfd(o.head, events, {})];
      if o.events != events {
        reify := EV__IOFDSET;
      }
      Tell(fd, o.events, events, reify);
    }

    /** Behind round i of fd_reify, which began with `was`. */
    ghost predicate Reifying(was: seq<Anfd>, i: nat)
      reads this`anfds, this`fdchanges, this`requests, ios`active, ios`fd, ios`events, poll, poll.pollidxs, poll.polls
    {
      HeadsOk() && Mirrored() && |anfds| == |was| && i <= |fdchanges| &&
      (forall fd :: 0 <= fd < |anfds| ==> anfds[fd].head == was[fd].head) &&
      (forall k :: 0 <= k < |fdchanges| ==> fdchanges[k] < |anfds|) &&
      (forall fd :: 0 <= fd < |anfds| ==> fd in fdchanges[i..] || UpToDate(anfds[fd]))
    }

    method ReifyRound(ghost was: seq<Anfd>, i: nat)
      requires Reifying(was, i) && i < |fdchanges|
      modifies this`anfds, this`requests, poll, poll.pollidxs, poll.polls
      ensures Reifying(was, i + 1)
      ensures poll.pollidxs == old(poll.pollidxs) || fresh(poll.pollidxs)
      ensures poll.polls == old(poll.polls) || fresh(poll.polls)
    {
      assert fdchanges[i..] == [fdchanges[i]] + fdchanges[i + 1..];
      ReifyOne(fdchanges[i]);
    }

    /**
     * fd_reify: afterwards the kernel is asked exactly for the events of the active watchers, and
     * no change is outstanding.
     */
    method FdReify()
      requires Valid() && Mirrored()
      modifies this`anfds, this`fdchanges, this`requests, poll, poll.pollidxs, poll.polls
      ensures Valid() && Mirrored() && fdchanges == []
      ensures forall fd :: 0 <= fd < |anfds| ==> UpToDate(anfds[fd])
      ensures forall fd :: poll.Polled(fd) == EntryFor(Wanted(fd))
      ensures forall fd :: Head(fd) == old(Head(fd))
    {
      var changecnt := |fdchanges|;
      for i := 0 to changecnt
        invariant Reifying(old(anfds), i) && fdchanges == old(fdchanges)
        invariant poll.pollidxs == old(poll.pollidxs) || fresh(poll.pollidxs)
        invariant poll.polls == old(poll.polls) || fresh(poll.polls)
      {
        ReifyRound(old(anfds), i);
      }
      fdchanges := fdchanges[changecnt..];
      AskedIsWanted();
    }

    /**
     * The same with the select sets, had they been there from the start in place of the poll table: they ask
     * for every descriptor exactly for the events of its active watchers; and when all that is asked for is
     * ready, the walk of select_poll reports exactly these descriptors, highest first, each with these events.
     */
    method ReifyOnSelect() returns (select: EvSelect.Select, reports: seq<EvSelect.Report>)
      requires Valid() && Mirrored()
      modifies this`anfds, this`fdchanges, this`requests, poll, poll.pollidxs, poll.polls
      ensures Valid() && Mirrored() && fdchanges == []
      ensures fresh(select) && select.Valid() && forall fd :: select.Selected(fd) == Wanted(fd)
      ensures forall i :: 0 <= i < |reports| ==> reports[i].events == Wanted(reports[i].fd) != {}
      ensures forall i, j :: 0 <= i < j < |reports| ==> reports[i].fd > reports[j].fd
      ensures forall fd :: Wanted(fd) != {} ==> exists i :: 0 <= i < |reports| && reports[i].fd == fd
    {
      FdReify();
      var _, sets := EvSelect.Compare(requests);
      select := sets;
      CalledIsWanted();
      reports := EvSelect.ReportAll(requests);
      forall fd: nat | Wanted(fd) != {} ensures exists i :: 0 <= i < |reports| && reports[i].fd == fd {
        assert EvSelect.AskedBy(requests, fd) != {};
      }
    }

    lemma CalledIsWanted()
      requires Valid() && Mirrored() && forall fd :: 0 <= fd < |anfds| ==> UpToDate(anfds[fd])
      ensures forall fd :: EvSelect.AskedBy(requests, fd) == Wanted(fd)
    {
      forall fd ensures EvSelect.AskedBy(requests, fd) == Wanted(fd) {
        ReportedIsWanted(fd);
      }
    }

    lemma AskedIsWanted()
      requires Valid() && Mirrored() && forall fd :: 0 <= fd < |anfds| ==> UpToDate(anfds[fd])
      ensures forall fd :: poll.Polled(fd) == EntryFor(Wanted(fd))
    {
      forall fd ensures Reported(fd) == Wanted(fd) {
        ReportedIsWanted(fd);
      }
    }

    lemma ReportedIsWanted(fd: nat)
      requires Valid() && (fd < |anfds| ==> UpToDate(anfds[fd]))
      ensures Reported(fd) == Wanted(fd)
    {
      if fd < |anfds| {
        OrCollects(anfds[fd].head);
        assert forall w :: w in ios ==> Linked(w);
      } else {
        assert forall w :: w in ios ==> Linked(w);
      }
    }

    /** fd_event and fd_event_nocheck: what the kernel reports, unless the descriptor is marked. */
    method FdEvent(fd: nat, revents: Events)
      requires Valid() && q.Valid() && fd < |anfds|
      modifies q`pendings, q`pendingpri, q.watchers`pending
      ensures q.Valid()
      ensures q.pendings ==
        if anfds[fd].reify == {} then AllDone(old(q.pendings), Feeds(anfds[fd].head, revents)) else old(q.pendings)
      ensures forall w :: w in ios ==>
        Owes(q.pendings, w) == Gained(old(Owes(q.pendings, w)), if Mark(fd) == {} then AskedOf(w, fd, revents) else {})
    {
      EventGains(fd, revents);
      if anfds[fd].reify != {} {
        return;
      }
      assert HeadOk(anfds[fd].head, fd, ios);
      FeedList(anfds[fd].head, revents);
    }

    /** Every active watcher of the descriptor gains the events it asked for, and no other watcher anything. */
    lemma EventGains(fd: nat, revents: Events)
      requires Valid() && q.Valid() && fd < |anfds|
      ensures forall w :: w in ios ==>
        Owes(AllDone(q.pendings, Feeds(anfds[fd].head, revents)), w) == Gained(Owes(q.pendings, w), AskedOf(w, fd, revents))
    {
      var list := anfds[fd].head;
      q.QueuesAreTidy();
      assert HeadOk(list, fd, ios);
      forall w | w in ios
        ensures Owes(AllDone(q.pendings, Feeds(list, revents)), w) == Gained(Owes(q.pendings, w), AskedOf(w, fd, revents))
      {
        assert Linked(w);
        FeedsGain(q.pendings, list, revents, w);
      }
    }

    /**
     * ev_io_start on a stopped watcher: the descriptor is noted in any case, but it is left unmarked exactly
     * when it was unmarked and the watcher asks for writes at most and comes without EV__IOFDSET. What the
     * kernel reports before the next fd_reify is then passed on, the new watcher included; otherwise it is
     * held back.
     */
    method StartThenEvent(w: Watcher, revents: Events)
      requires Valid() && Mirrored() && q.Valid() && w in ios && w.active == 0 && w.events <= EV__IOFDSET + RW
      modifies this`anfds, this`fdchanges, this`activecnt, w`active, w`events, q`pendings, q`pendingpri, q.watchers`pending
      ensures Valid() && q.Valid() && w.fd in fdchanges
      ensures Mark(w.fd) == {} <==> old(Mark(w.fd)) == {} && old(w.events) <= EV_WRITE
      ensures Mark(w.fd) != {} ==> q.pendings == old(q.pendings)
      ensures Mark(w.fd) == {} ==>
        q.pendings == AllDone(old(q.pendings), Feeds([w] + old(Head(w.fd)), revents))
    {
      StartLeavesUnmarked(w.events);
      IoStart(w);
      assert w.fd < |anfds|;
      FdEvent(w.fd, revents);
    }

    method FeedList(list: seq<Watcher>, revents: Events)
      requires q.Valid() && forall i :: 0 <= i < |list| ==> list[i] in q.watchers
      modifies q`pendings, q`pendingpri, q.watchers`pending
      ensures q.Valid() && q.pendings == AllDone(old(q.pendings), Feeds(list, revents))
    {
      ghost var goal := AllDone(q.pendings, Feeds(list, revents));
      for i := 0 to |list|
        invariant q.Valid() && AllDone(q.pendings, Feeds(list[i..], revents)) == goal
      {
        var w := list[i];
        var ev := w.events * revents;
        FeedsFrom(list, i, revents);
        if ev != {} {
          DoneFirst(q.pendings, Feed(w, ev), Feeds(list[i + 1..], revents));
          q.FeedEvent(w, ev);
        }
      }
    }
  }

  /** The feeds for the watchers that asked for one of the reported events, newest first. */
  ghost function Feeds(list: seq<Watcher>, revents: Events): seq<Op>
    reads (set w | w in list)`events
  {
    if list == [] then [] else
      var ev := list[0].events * revents;
      if ev == {} then Feeds(list[1..], revents) else [Feed(list[0], ev)] + Feeds(list[1..], revents)
  }

  /** Of the events reported for a descriptor, those that a watcher asked for: none unless it is active there. */
  function AskedOf(w: Watcher, fd: nat, revents: Events): Events
    reads w`active, w`fd, w`events
  {
    if w.active != 0 && w.fd == fd then w.events * revents else {}
  }

  /** What is owed to a watcher once these events have been fed to it, if they are any. */
  function Gained(o: Owed, events: Events): Owed {
    if events == {} then o else Owing(if o.Nothing? then events else o.events + events)
  }

  /** The feeds reach each listed watcher with the events it asked for, and no other. */
  lemma {:induction false} FeedsGain(q: Rows, list: seq<Watcher>, revents: Events, w: Watcher)
    requires Tidy(q) && Distinct(list)
    ensures Owes(AllDone(q, Feeds(list, revents)), w) ==
      if w in list then Gained(Owes(q, w), w.events * revents) else Owes(q, w)
    decreases |list|
  {
    if list != [] {
      var v, rest := list[0], list[1..];
      var ev := v.events * revents;
      assert list == [v] + rest && v !in rest;
      if ev == {} {
        FeedsGain(q, rest, revents, w);
      } else {
        DoneFirst(q, Feed(v, ev), Feeds(rest, revents));
        DoneIsTidy(q, Feed(v, ev));
        DoneIsAfter(q, Feed(v, ev), w);
        FeedsGain(Done(q, Feed(v, ev)), rest, revents, w);
      }
    }
  }

  lemma FeedsFrom(list: seq<Watcher>, i: nat, revents: Events)
    requires i < |list|
    ensures var ev, rest := list[i].events * revents, Feeds(list[i + 1..], revents);
      Feeds(list[i..], revents) == if ev == {} then rest else [Feed(list[i], ev)] + rest
  {
    assert list[i..][0] == list[i] && list[i..][1..] == list[i + 1..];
  }

  lemma DoneFirst(q: Rows, op: Op, rest: seq<Op>)
    requires |q| == NUMPRI
    ensures AllDone(q, [op] + rest) == AllDone(Done(q, op), rest)
  {
    assert ([op] + rest)[1..] == rest;
  }

  /** The flags ev_io_start adds to a mark are none exactly for writes at most, without EV__IOFDSET. */
  lemma StartLeavesUnmarked(events: Events)
    requires events <= EV__IOFDSET + RW
    ensures events * (EV__IOFDSET + EV_ANFD_REIFY) == {} <==> events <= EV_WRITE
  {
    assert events * (EV__IOFDSET + EV_ANFD_REIFY) == {} ==> 0 !in events && 7 !in events;
  }
}
