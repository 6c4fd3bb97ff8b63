/** The select backend of extern/libev/ev_select.c: two growable bitsets, fd_mask branch. */
module EvSelect {
  import opened EvWatcher
  import opened EvPoll

  const NFDBITS: nat := 64

  type FdMask = bv64

  /** 1UL << (fd % NFDBITS) */
  function Mask(fd: nat): FdMask {
    (1 as FdMask) << (fd % NFDBITS)
  }

  lemma ShiftsDiffer(a: bv64, b: bv64)
    requires a < 64 && b < 64 && a != b
    ensures (1 << a) & (1 << b) == 0 as bv64
  {
  }

  lemma ShiftIsSet(a: bv64)
    requires a < 64
    ensures (1 << a) != 0 as bv64
  {
  }

  lemma MaskIsSet(i: nat)
    ensures Mask(i) != 0
  {
    ShiftIsSet((i % NFDBITS) as bv64);
  }

  lemma BitsDiffer(i: nat, j: nat)
    requires i < NFDBITS && j < NFDBITS
    ensures i != j ==> ((1 as FdMask) << i) & ((1 as FdMask) << j) == 0
  {
    var a, b := i as bv64, j as bv64;
    if a != b {
      assert a < 64 && b < 64;
      ShiftsDiffer(a, b);
    }
  }

  lemma MasksDiffer(i: nat, j: nat)
    ensures i % NFDBITS != j % NFDBITS ==> Mask(i) & Mask(j) == 0
  {
    BitsDiffer(i % NFDBITS, j % NFDBITS);
  }

  // What the two statements that mark a bit do to this bit and to others.

  function Put(x: FdMask, m: FdMask, on: bool): FdMask {
    if on then x | m else (x | m) & !m
  }

  lemma PutHere(x: FdMask, m: FdMask, on: bool)
    requires m != 0
    ensures Put(x, m, on) & m != 0 <==> on
  {
    SetThenTest(x, m);
    ClearThenTest(x, m);
  }

  lemma SetThenTest(x: FdMask, m: FdMask)
    ensures (x | m) & m == m
  {
  }

  lemma ClearThenTest(x: FdMask, m: FdMask)
    ensures (x | m) & !m & m == 0
  {
  }

  lemma SetElsewhere(x: FdMask, m: FdMask, n: FdMask)
    requires m & n == 0
    ensures (x | m) & n == x & n
  {
  }

  lemma ClearElsewhere(x: FdMask, m: FdMask, n: FdMask)
    requires m & n == 0
    ensures (x | m) & !m & n == x & n
  {
  }

  lemma PutElsewhere(x: FdMask, m: FdMask, n: FdMask, on: bool)
    requires m & n == 0
    ensures Put(x, m, on) & n == x & n
  {
    if on {
      SetElsewhere(x, m, n);
    } else {
      ClearElsewhere(x, m, n);
    }
  }

  /** Bit i of a word, counted from the least significant one, is on: the test of select_poll. */
  predicate BitAt(x: FdMask, i: nat)
    requires i < NFDBITS
  {
    x & ((1 as FdMask) << i) != 0
  }

  /** The kernel's view of a set: fd is in it if its bit is on, NFDBITS descriptors to a word. */
  predicate In(v: seq<FdMask>, fd: nat) {
    fd / NFDBITS < |v| && BitAt(v[fd / NFDBITS], fd % NFDBITS)
  }

  /** The numbering on actual words: 1 is descriptor 0, 8 is descriptor 3, the top bit is descriptor 63. */
  lemma BitsAreNumbered()
    ensures forall fd :: In([1], fd) <==> fd == 0
    ensures forall fd :: In([8], fd) <==> fd == 3
    ensures forall fd :: In([0x8000_0000_0000_0000], fd) <==> fd == 63
    ensures forall fd :: In([0, 5], fd) <==> fd == 64 || fd == 66
  {
  }

  /** The two statements that put fd in or out of a set. */
  function Marked(x: FdMask, fd: nat, on: bool): FdMask {
    Put(x, Mask(fd), on)
  }

  lemma MarkedHere(x: FdMask, fd: nat, on: bool)
    ensures BitAt(Marked(x, fd, on), fd % NFDBITS) <==> on
  {
    MaskIsSet(fd);
    PutHere(x, Mask(fd), on);
  }

  lemma MarkedElsewhere(x: FdMask, fd: nat, on: bool, g: nat)
    requires g % NFDBITS != fd % NFDBITS
    ensures BitAt(Marked(x, fd, on), g % NFDBITS) <==> BitAt(x, g % NFDBITS)
  {
    MasksDiffer(fd, g);
    PutElsewhere(x, Mask(fd), Mask(g), on);
  }

  lemma SameWord(fd: nat, g: nat)
    requires g != fd && g / NFDBITS == fd / NFDBITS
    ensures g % NFDBITS != fd % NFDBITS
  {
  }

  /** Replacing the word of fd is seen by the descriptors of that word only. */
  lemma ReplacedIsIn(v: seq<FdMask>, word: nat, x: FdMask, g: nat)
    requires word < |v|
    ensures In(v[word := x], g) <==> if g / NFDBITS == word then BitAt(x, g % NFDBITS) else In(v, g)
  {
  }

  lemma MarkedIsIn(v: seq<FdMask>, fd: nat, on: bool, g: nat)
    requires fd / NFDBITS < |v|
    ensures In(v[fd / NFDBITS := Marked(v[fd / NFDBITS], fd, on)], g) <==> if g == fd then on else In(v, g)
  {
    var word := fd / NFDBITS;
    ReplacedIsIn(v, word, Marked(v[word], fd, on), g);
    MarkedHere(v[word], fd, on);
    if g != fd && g / NFDBITS == word {
      SameWord(fd, g);
      MarkedElsewhere(v[word], fd, on, g);
    }
  }

  method Mark(v: array<FdMask>, fd: nat, on: bool)
    requires fd / NFDBITS < v.Length
    modifies v
    ensures forall g :: In(v[..], g) == if g == fd then on else old(In(v[..], g))
  {
    var word := fd / NFDBITS;
    ghost var was := v[..];
    var updated := Marked(v[word], fd, on);
    v[word] := updated;
    assert v[..] == was[word := updated];
    forall g: nat ensures In(v[..], g) == if g == fd then on else In(was, g) {
      MarkedIsIn(was, fd, on, g);
    }
  }

  class Select {
    var vec_ri: array<FdMask>
    var vec_wi: array<FdMask>

    ghost predicate Valid()
      reads this
    {
      vec_ri.Length == vec_wi.Length && vec_ri != vec_wi
    }

    constructor ()
      ensures Valid() && fresh(vec_ri) && fresh(vec_wi)
      ensures forall fd :: Selected(fd) == {}
    {
      vec_ri, vec_wi := new FdMask[0], new FdMask[0];
    }

    /** What the two sets ask about a descriptor. */
    ghost function Selected(fd: nat): Events
      reads this, vec_ri, vec_wi
    {
      (if In(vec_ri[..], fd) then EV_READ else {}) + (if In(vec_wi[..], fd) then EV_WRITE else {})
    }

    /** select_modify */
    method Modify(fd: nat, oev: Events, nev: Events)
      requires Valid()
      modifies this, vec_ri, vec_wi
      ensures Valid()
      ensures vec_ri == old(vec_ri) || fresh(vec_ri)
      ensures vec_wi == old(vec_wi) || fresh(vec_wi)
      ensures forall g :: g != fd ==> Selected(g) == old(Selected(g))
      ensures Selected(fd) == if oev == nev then old(Selected(fd)) else nev * (EV_READ + EV_WRITE)
    {
      if oev == nev {
        return;
      }
      var word := fd / NFDBITS;
      if vec_ri.Length <= word {
        Grow(word + 1);
      }
      Mark(vec_ri, fd, EV_READ <= nev);
      Mark(vec_wi, fd, EV_WRITE <= nev);
      assert nev * (EV_READ + EV_WRITE) ==
        (if EV_READ <= nev then EV_READ else {}) + (if EV_WRITE <= nev then EV_WRITE else {});
    }

    /** The reallocation: the new words start at zero. */
    method Grow(max: nat)
      requires Valid() && vec_ri.Length <= max
      modifies this
      ensures Valid() && vec_ri.Length == max && fresh(vec_ri) && fresh(vec_wi)
      ensures forall g :: In(vec_ri[..], g) == old(In(vec_ri[..], g)) && In(vec_wi[..], g) == old(In(vec_wi[..], g))
    {
      var ri, wi := vec_ri, vec_wi;
      vec_ri := new FdMask[max](i requires 0 <= i reads ri => if i < ri.Length then ri[i] else 0);
      vec_wi := new FdMask[max](i requires 0 <= i reads wi => if i < wi.Length then wi[i] else 0);
    }
  }

  // ---- select_poll

  datatype Report = Report(fd: nat, events: Events)

  /** What the two sets say about a descriptor. */
  ghost function Ready(ro: seq<FdMask>, wo: seq<FdMask>, fd: nat): Events {
    (if In(ro, fd) then EV_READ else {}) + (if In(wo, fd) then EV_WRITE else {})
  }

  /** The reports are those of the descriptors from `from` on that are ready, highest first. */
  ghost predicate Walked(reports: seq<Report>, ro: seq<FdMask>, wo: seq<FdMask>, from: nat) {
    (forall i :: 0 <= i < |reports| ==> from <= reports[i].fd && reports[i].events == Ready(ro, wo, reports[i].fd) != {}) &&
    (forall i, j :: 0 <= i < j < |reports| ==> reports[i].fd > reports[j].fd) &&
    (forall fd :: from <= fd && Ready(ro, wo, fd) != {} ==> exists i :: 0 <= i < |reports| && reports[i].fd == fd)
  }

  lemma WalkedNothing(ro: seq<FdMask>, wo: seq<FdMask>, from: nat)
    requires |ro| == |wo| && from == |ro| * NFDBITS
    ensures Walked([], ro, wo, from)
  {
  }

  lemma WalkedOne(reports: seq<Report>, ro: seq<FdMask>, wo: seq<FdMask>, fd: nat, ev: Events)
    requires Walked(reports, ro, wo, fd + 1) && ev == Ready(ro, wo, fd)
    ensures Walked(if ev == {} then reports else reports + [Report(fd, ev)], ro, wo, fd)
  {
    if ev == {} {
      WalkedPast(reports, ro, wo, fd, fd + 1);
    } else {
      WalkedMore(reports, ro, wo, fd, ev);
    }
  }

  lemma WalkedMore(reports: seq<Report>, ro: seq<FdMask>, wo: seq<FdMask>, fd: nat, ev: Events)
    requires Walked(reports, ro, wo, fd + 1) && ev == Ready(ro, wo, fd) != {}
    ensures Walked(reports + [Report(fd, ev)], ro, wo, fd)
  {
    var all := reports + [Report(fd, ev)];
    assert all[|reports|].fd == fd;
    forall g: nat | fd <= g && Ready(ro, wo, g) != {} ensures exists i :: 0 <= i < |all| && all[i].fd == g {
      if g > fd {
        var i :| 0 <= i < |reports| && reports[i].fd == g;
        assert all[i].fd == g;
      }
    }
  }

  lemma ZeroWord(i: nat)
    requires i < NFDBITS
    ensures !BitAt(0, i)
  {
  }

  lemma Place(word: nat, bit: nat)
    requires bit < NFDBITS
    ensures (word * NFDBITS + bit) / NFDBITS == word && (word * NFDBITS + bit) % NFDBITS == bit
  {
  }

  lemma NothingReady(ro: seq<FdMask>, wo: seq<FdMask>, word: nat, bit: nat)
    requires word < |ro| == |wo| && ro[word] == 0 && wo[word] == 0 && bit < NFDBITS
    ensures Ready(ro, wo, word * NFDBITS + bit) == {}
  {
    Place(word, bit);
    ZeroWord(bit);
  }

  /** A word in which nothing is ready is passed over. */
  lemma WalkedOver(reports: seq<Report>, ro: seq<FdMask>, wo: seq<FdMask>, word: nat)
    requires word < |ro| == |wo| && ro[word] == 0 && wo[word] == 0
    requires Walked(reports, ro, wo, word * NFDBITS + NFDBITS)
    ensures Walked(reports, ro, wo, word * NFDBITS)
  {
    forall fd: nat | word * NFDBITS <= fd < word * NFDBITS + NFDBITS ensures Ready(ro, wo, fd) == {} {
      NothingReady(ro, wo, word, fd - word * NFDBITS);
    }
    WalkedPast(reports, ro, wo, word * NFDBITS, word * NFDBITS + NFDBITS);
  }

  lemma WalkedPast(reports: seq<Report>, ro: seq<FdMask>, wo: seq<FdMask>, from: nat, to: nat)
    requires from <= to && Walked(reports, ro, wo, to)
    requires forall fd: nat :: from <= fd < to ==> Ready(ro, wo, fd) == {}
    ensures Walked(reports, ro, wo, from)
  {
  }

  /** What one bit of two words says. */
  ghost function Both(word_r: FdMask, word_w: FdMask, bit: nat): Events
    requires bit < NFDBITS
  {
    (if BitAt(word_r, bit) then EV_READ else {}) + (if BitAt(word_w, bit) then EV_WRITE else {})
  }

  lemma ReadyAt(ro: seq<FdMask>, wo: seq<FdMask>, word: nat, bit: nat)
    requires word < |ro| == |wo| && bit < NFDBITS
    ensures Ready(ro, wo, word * NFDBITS + bit) == Both(ro[word], wo[word], bit)
  {
    Place(word, bit);
  }

  /** The tests on one bit of a word. */
  method TestBit(word_r: FdMask, word_w: FdMask, bit: nat) returns (events: Events)
    requires bit < NFDBITS
    ensures events == Both(word_r, word_w, bit)
  {
    var r := if BitAt(word_r, bit) then EV_READ else {};
    var w := if BitAt(word_w, bit) then EV_WRITE else {};
    events := r + w;
  }

  /** One bit of the walk. */
  method WalkBit(ghost ro: seq<FdMask>, ghost wo: seq<FdMask>, word: nat, bit: nat, word_r: FdMask, word_w: FdMask,
                 reports0: seq<Report>)
    returns (reports: seq<Report>)
    requires word < |ro| == |wo| && bit < NFDBITS && word_r == ro[word] && word_w == wo[word]
    requires Walked(reports0, ro, wo, word * NFDBITS + bit + 1)
    ensures Walked(reports, ro, wo, word * NFDBITS + bit)
  {
    reports := reports0;
    ReadyAt(ro, wo, word, bit);
    var events := TestBit(word_r, word_w, bit);
    WalkedOne(reports, ro, wo, word * NFDBITS + bit, events);
    if events != {} {
      reports := reports + [Report(word * NFDBITS + bit, events)];
    }
  }

  /** The bits of one word, from the top down. */
  method WalkWord(ghost ro: seq<FdMask>, ghost wo: seq<FdMask>, word: nat, word_r: FdMask, word_w: FdMask,
                  reports0: seq<Report>)
    returns (reports: seq<Report>)
    requires word < |ro| == |wo| && word_r == ro[word] && word_w == wo[word]
    requires Walked(reports0, ro, wo, word * NFDBITS + NFDBITS)
    ensures Walked(reports, ro, wo, word * NFDBITS)
  {
    reports := reports0;
    var bit: nat := NFDBITS;
    while bit > 0
      invariant bit <= NFDBITS && Walked(reports, ro, wo, word * NFDBITS + bit)
    {
      bit := bit - 1;
      reports := WalkBit(ro, wo, word, bit, word_r, word_w, reports);
    }
  }

  /**
   * The walk over the two sets the kernel gives back: one report for each descriptor in either of them,
   * highest first, with exactly its events.
   */
  method SelectPoll(vec_ro: array<FdMask>, vec_wo: array<FdMask>) returns (reports: seq<Report>)
    requires vec_ro.Length == vec_wo.Length
    ensures Walked(reports, vec_ro[..], vec_wo[..], 0)
  {
    ghost var ro, wo := vec_ro[..], vec_wo[..];
    reports := [];
    var word: nat := vec_ro.Length;
    WalkedNothing(ro, wo, word * NFDBITS);
    while word > 0
      invariant word <= vec_ro.Length && Walked(reports, ro, wo, word * NFDBITS)
    {
      word := word - 1;
      var word_r, word_w := vec_ro[word], vec_wo[word];
      if word_r != 0 || word_w != 0 {
        reports := WalkWord(ro, wo, word, word_r, word_w, reports);
      } else {
        WalkedOver(reports, ro, wo, word);
      }
    }
  }

  datatype Request = Request(fd: nat, oev: Events, nev: Events)

  /** A descriptor's interest as both backends see it, none being the same as absent. */
  ghost function Asked(e: Entry): Events {
    if e.Absent? then {} else e.events
  }

  /** Fed the same calls, whatever they are, the two backends ask the kernel the same: what the calls add up to. */
  method Compare(requests: seq<Request>) returns (poll: Poll, select: Select)
    ensures poll.Valid() && select.Valid() && fresh(poll) && fresh(select)
    ensures forall fd :: Asked(poll.Polled(fd)) == select.Selected(fd) == AskedBy(requests, fd)
  {
    poll := new Poll();
    select := new Select();
    for i := 0 to |requests|
      invariant fresh({poll, poll.pollidxs, poll.polls, select, select.vec_ri, select.vec_wi})
      invariant Agree(poll, select)
      invariant forall fd :: select.Selected(fd) == AskedBy(requests[..i], fd)
    {
      assert requests[..i + 1] == requests[..i] + [requests[i]];
      ModifyBoth(poll, select, requests[i]);
      forall fd: nat ensures AskedBy(requests[..i + 1], fd) == Next(requests[i], fd, AskedBy(requests[..i], fd)) {
        AskedSnoc(requests[..i], requests[i], fd);
      }
    }
    assert requests[..|requests|] == requests;
  }

  /**
   * After any calls, with everything asked for being ready, the walk reports exactly the descriptors
   * asked for, each with exactly the events the calls add up to.
   */
  method ReportAll(requests: seq<Request>) returns (reports: seq<Report>)
    ensures forall i :: 0 <= i < |reports| ==> reports[i].events == AskedBy(requests, reports[i].fd) != {}
    ensures forall i, j :: 0 <= i < j < |reports| ==> reports[i].fd > reports[j].fd
    ensures forall fd :: AskedBy(requests, fd) != {} ==> exists i :: 0 <= i < |reports| && reports[i].fd == fd
  {
    var _, select := Compare(requests);
    reports := SelectPoll(select.vec_ri, select.vec_wi);
    ghost var ri, wi := select.vec_ri[..], select.vec_wi[..];
    assert forall fd :: Ready(ri, wi, fd) == select.Selected(fd);
    forall fd: nat | AskedBy(requests, fd) != {} ensures exists i :: 0 <= i < |reports| && reports[i].fd == fd {
      assert Ready(ri, wi, fd) != {};
    }
  }

  /** What the two backends ask is the same for every descriptor. */
  ghost predicate Agree(poll: Poll, select: Select)
    reads poll, poll.pollidxs, poll.polls, select, select.vec_ri, select.vec_wi
  {
    poll.Valid() && select.Valid() && {poll.pollidxs as object, poll.polls} !! {select.vec_ri as object, select.vec_wi} &&
    forall fd :: Asked(poll.Polled(fd)) == select.Selected(fd)
  }

  /** What is asked about one descriptor after a call, given what was. */
  function Next(r: Request, fd: nat, was: Events): Events {
    if fd != r.fd || r.oev == r.nev then was else r.nev * (EV_READ + EV_WRITE)
  }

  /** What is asked about a descriptor after some calls, nothing having been asked before. */
  function AskedBy(requests: seq<Request>, fd: nat): Events
    decreases |requests|
  {
    if requests == [] then {} else Next(requests[|requests| - 1], fd, AskedBy(requests[..|requests| - 1], fd))
  }

  lemma AskedSnoc(requests: seq<Request>, r: Request, fd: nat)
    ensures AskedBy(requests + [r], fd) == Next(r, fd, AskedBy(requests, fd))
  {
    assert (requests + [r])[..|requests|] == requests;
  }

  /** poll_modify, in terms of what is asked. */
  method ModifyPoll(poll: Poll, r: Request, ghost select: Select)
    requires poll.Valid() && {poll.pollidxs as object, poll.polls} !! {select.vec_ri as object, select.vec_wi}
    modifies poll, poll.pollidxs, poll.polls
    ensures poll.Valid()
    ensures poll.pollidxs == old(poll.pollidxs) || fresh(poll.pollidxs)
    ensures poll.polls == old(poll.polls) || fresh(poll.polls)
    ensures forall fd :: Asked(poll.Polled(fd)) == Next(r, fd, old(Asked(poll.Polled(fd))))
    ensures forall fd :: select.Selected(fd) == old(select.Selected(fd))
  {
    poll.Modify(r.fd, r.oev, r.nev);
    assert {} * (EV_READ + EV_WRITE) == {};
  }

  /** select_modify, in the same terms. */
  method ModifySelect(select: Select, r: Request, ghost poll: Poll)
    requires poll.Valid() && select.Valid()
    requires {poll.pollidxs as object, poll.polls} !! {select.vec_ri as object, select.vec_wi}
    modifies select, select.vec_ri, select.vec_wi
    ensures poll.Valid() && select.Valid()
    ensures select.vec_ri == old(select.vec_ri) || fresh(select.vec_ri)
    ensures select.vec_wi == old(select.vec_wi) || fresh(select.vec_wi)
    ensures forall fd :: select.Selected(fd) == Next(r, fd, old(select.Selected(fd)))
    ensures forall fd :: Asked(poll.Polled(fd)) == old(Asked(poll.Polled(fd)))
  {
    select.Modify(r.fd, r.oev, r.nev);
  }

  method ModifyBoth(poll: Poll, select: Select, r: Request)
    requires Agree(poll, select)
    modifies poll, poll.pollidxs, poll.polls, select, select.vec_ri, select.vec_wi
    ensures Agree(poll, select)
    ensures forall fd :: select.Selected(fd) == Next(r, fd, old(select.Selected(fd)))
    ensures fresh({poll.pollidxs as object, poll.polls, select.vec_ri, select.vec_wi} -
      old({poll.pollidxs as object, poll.polls, select.vec_ri, select.vec_wi}))
  {
    ModifyPoll(poll, r, select);
    ModifySelect(select, r, poll);
  }
}
