/**
 * Why expired timers run in the order they expired: they leave the heap earliest first, are fed
 * to the queues last to first, and the queues serve the newest slot first.
 */
module EvExpiry {
  import opened EvWatcher
  import opened EvQueue
  import opened EvDelivery

  /** feed_reverse_done: the last collected watcher is fed first. */
  function FedInReverse(q: Rows, ws: seq<Watcher>, revents: Events): (r: Rows)
    requires |q| == NUMPRI
    ensures |r| == NUMPRI
    decreases |ws|
  {
    if ws == [] then q
    else FedInReverse(Fed(q, ws[|ws| - 1], revents), ws[..|ws| - 1], revents)
  }

  /** The stops of the watchers that do not repeat. */
  function Stops(ws: seq<Watcher>, once: set<Watcher>): (ops: seq<Op>)
    decreases |ws|
  {
    if ws == [] then [] else
      var w := ws[|ws| - 1];
      Stops(ws[..|ws| - 1], once) + if w in once then [Clear(w)] else []
  }

  /** Earliest deadline first, each watcher once. */
  ghost predicate InDueOrder(ws: seq<Watcher>, due: map<Watcher, real>) {
    (forall i :: 0 <= i < |ws| ==> ws[i] in due) &&
    (forall i, j :: 0 <= i < j < |ws| ==> ws[i] != ws[j] && due[ws[i]] <= due[ws[j]])
  }

  lemma {:induction false} AllDoneSnoc(q: Rows, ops: seq<Op>, op: Op)
    requires |q| == NUMPRI
    ensures AllDone(q, ops + [op]) == Done(AllDone(q, ops), op)
    decreases |ops|
  {
    if ops != [] {
      assert (ops + [op])[1..] == ops[1..] + [op];
      AllDoneSnoc(Done(q, ops[0]), ops[1..], op);
    } else {
      assert (ops + [op])[1..] == [];
    }
  }

  lemma StopsSnoc(q: Rows, ws: seq<Watcher>, once: set<Watcher>, w: Watcher)
    requires |q| == NUMPRI
    ensures AllDone(q, Stops(ws + [w], once)) ==
      if w in once then Cleared(AllDone(q, Stops(ws, once)), w) else AllDone(q, Stops(ws, once))
  {
    assert (ws + [w])[..|ws|] == ws;
    AllDoneSnoc(q, Stops(ws, once), Clear(w));
    assert Stops(ws, once) + [] == Stops(ws, once);
  }

  /** The timers still to be looked at. */
  ghost function Unfired(due: map<Watcher, real>, fired: seq<Watcher>): set<Watcher> {
    set v | v in due && v !in fired
  }

  lemma UnfiredShrinks(due: map<Watcher, real>, fired: seq<Watcher>, w: Watcher)
    requires w in due && w !in fired
    ensures Unfired(due, fired + [w]) < Unfired(due, fired)
  {
    assert Unfired(due, fired + [w]) == Unfired(due, fired) - {w};
  }

  /** A feed of another watcher leaves w where it is, held or not. */
  lemma FedElsewhere(q: Rows, w: Watcher, u: Watcher, revents: Events)
    requires Tidy(q) && u != w
    ensures Tidy(Fed(q, u, revents)) && (Held(Fed(q, u, revents), w) <==> Held(q, w))
    ensures Held(q, w) ==> SlotOf(Fed(q, u, revents)[w.pri], w) == SlotOf(q[w.pri], w)
    ensures |q[w.pri]| <= |Fed(q, u, revents)[w.pri]|
  {
    DoneIsTidy(q, Feed(u, revents));
    DoneIsAfter(q, Feed(u, revents), w);
    if Held(q, w) {
      StaysPut(q, [Feed(u, revents)], w);
      assert AllDone(q, [Feed(u, revents)]) == Done(q, Feed(u, revents));
    }
  }

  lemma FedHere(q: Rows, w: Watcher, revents: Events)
    requires Tidy(q) && !Held(q, w)
    ensures Tidy(Fed(q, w, revents)) && Held(Fed(q, w, revents), w)
    ensures SlotOf(Fed(q, w, revents)[w.pri], w) == |q[w.pri]|
  {
    DoneIsTidy(q, Feed(w, revents));
    assert Fed(q, w, revents)[w.pri][|q[w.pri]|].w == w;
  }

  /** A watcher outside the list is not moved by it. */
  lemma {:induction false} FedAround(q: Rows, ws: seq<Watcher>, revents: Events, w: Watcher)
    requires Tidy(q) && w !in ws
    ensures Tidy(FedInReverse(q, ws, revents))
    ensures Held(FedInReverse(q, ws, revents), w) <==> Held(q, w)
    ensures Held(q, w) ==> SlotOf(FedInReverse(q, ws, revents)[w.pri], w) == SlotOf(q[w.pri], w)
    decreases |ws|
  {
    if ws != [] {
      FedElsewhere(q, w, ws[|ws| - 1], revents);
      FedAround(Fed(q, ws[|ws| - 1], revents), ws[..|ws| - 1], revents, w);
    }
  }

  /** Of two listed watchers of one priority, neither pending before, the earlier one ends on top. */
  lemma {:induction false} EarlierOnTop(q: Rows, ws: seq<Watcher>, revents: Events, i: nat, j: nat)
    requires Tidy(q) && i < j < |ws| && ws[i].pri == ws[j].pri
    requires forall a, b :: 0 <= a < b < |ws| ==> ws[a] != ws[b]
    requires !Held(q, ws[i]) && !Held(q, ws[j])
    ensures var r := FedInReverse(q, ws, revents);
      Tidy(r) && Held(r, ws[i]) && Held(r, ws[j]) &&
      SlotOf(r[ws[j].pri], ws[j]) < SlotOf(r[ws[i].pri], ws[i])
    decreases |ws|
  {
    var u, front := ws[|ws| - 1], ws[..|ws| - 1];
    var q': Rows := Fed(q, u, revents);
    FedElsewhere(q, ws[i], u, revents);
    if j < |ws| - 1 {
      FedElsewhere(q, ws[j], u, revents);
      EarlierOnTop(q', front, revents, i, j);
    } else {
      FedHere(q, u, revents);
      LandsAbove(q', front, revents, i, u);
    }
  }

  /** A listed watcher that was not pending lands above any slot held before. */
  lemma {:induction false} LandsAbove(q: Rows, ws: seq<Watcher>, revents: Events, i: nat, v: Watcher)
    requires Tidy(q) && i < |ws| && ws[i].pri == v.pri && v !in ws
    requires forall a, b :: 0 <= a < b < |ws| ==> ws[a] != ws[b]
    requires Held(q, v) && !Held(q, ws[i])
    ensures var r := FedInReverse(q, ws, revents);
      Tidy(r) && Held(r, ws[i]) && Held(r, v) && SlotOf(r[v.pri], v) < SlotOf(r[v.pri], ws[i])
    decreases |ws|
  {
    var u, front := ws[|ws| - 1], ws[..|ws| - 1];
    var q': Rows := Fed(q, u, revents);
    FedElsewhere(q, v, u, revents);
    FedAround(q', front, revents, v);
    if i < |ws| - 1 {
      FedElsewhere(q, ws[i], u, revents);
      LandsAbove(q', front, revents, i, v);
    } else {
      FedHere(q, u, revents);
      FedAround(q', front, revents, u);
    }
  }

  /**
   * Expiry order: of two watchers collected in due order at one priority, neither pending before, the
   * one due first is called first, unless a callback cancels one of the two before either is called.
   */
  lemma ExpiryOrder(q: Rows, ws: seq<Watcher>, due: map<Watcher, real>, revents: Events,
                    script: seq<seq<Op>>, i: nat, j: nat)
    requires Tidy(q) && InDueOrder(ws, due) && i < j < |ws| && ws[i].pri == ws[j].pri
    requires !Held(q, ws[i]) && !Held(q, ws[j])
    ensures due[ws[i]] <= due[ws[j]]
    ensures InOrder(Run(FedInReverse(q, ws, revents), script), script, ws[i], ws[j])
  {
    EarlierOnTop(q, ws, revents, i, j);
    NewestFirst(FedInReverse(q, ws, revents), script, ws[i], ws[j]);
  }

  /** What is owed to a watcher once a list has been fed: the listed ones take the events to what they held. */
  function Topped(o: Owed, ws: seq<Watcher>, revents: Events, w: Watcher): Owed {
    if w !in ws then o else Owing(if o.Nothing? then revents else o.events + revents)
  }

  lemma {:induction false} FedOwes(q: Rows, ws: seq<Watcher>, revents: Events, w: Watcher)
    requires Tidy(q)
    ensures Tidy(FedInReverse(q, ws, revents))
    ensures Owes(FedInReverse(q, ws, revents), w) == Topped(Owes(q, w), ws, revents, w)
    decreases |ws|
  {
    if ws != [] {
      var u, front := ws[|ws| - 1], ws[..|ws| - 1];
      assert ws == front + [u];
      DoneIsTidy(q, Feed(u, revents));
      DoneIsAfter(q, Feed(u, revents), w);
      FedOwes(Fed(q, u, revents), front, revents, w);
    }
  }

  /** ... and once the one-shot timers of a list have been stopped: those are owed nothing. */
  lemma {:induction false} StoppedOwes(q: Rows, ws: seq<Watcher>, once: set<Watcher>, w: Watcher)
    requires Tidy(q)
    ensures var r := AllDone(q, Stops(ws, once));
      Tidy(r) && Owes(r, w) == if w in ws && w in once then Nothing else Owes(q, w)
    decreases |ws|
  {
    if ws != [] {
      var u, front := ws[|ws| - 1], ws[..|ws| - 1];
      assert ws == front + [u];
      StoppedOwes(q, front, once, w);
      StopsSnoc(q, front, once, u);
      DoneIsTidy(AllDone(q, Stops(front, once)), Clear(u));
      DoneIsAfter(AllDone(q, Stops(front, once)), Clear(u), w);
    }
  }

  /** Stopping the one-shot timers first leaves what was not pending not pending. */
  lemma {:induction false} StoppedNotHeld(q: Rows, ws: seq<Watcher>, once: set<Watcher>, w: Watcher)
    requires Tidy(q) && !Held(q, w)
    ensures Tidy(AllDone(q, Stops(ws, once))) && !Held(AllDone(q, Stops(ws, once)), w)
  {
    var ops := Stops(ws, once);
    StopsAreClears(ws, once);
    AllDoneIsAfter(q, ops, w);
    UnfedOpsOweNothing(ops, w);
  }

  lemma {:induction false} StopsAreClears(ws: seq<Watcher>, once: set<Watcher>)
    ensures forall i :: 0 <= i < |Stops(ws, once)| ==> Stops(ws, once)[i].Clear?
    decreases |ws|
  {
    if ws != [] {
      StopsAreClears(ws[..|ws| - 1], once);
    }
  }

  /** The calls that follow a pass in which the one-shot timers were stopped on the way. */
  function CallsAfter(q: Rows, fired: seq<Watcher>, once: set<Watcher>, script: seq<seq<Op>>): seq<Call>
    requires |q| == NUMPRI
  {
    Run(FedInReverse(AllDone(q, Stops(fired, once)), fired, EV_TIMER), script)
  }

  lemma PlacesOf(fired: seq<Watcher>, due: map<Watcher, real>, u: Watcher, v: Watcher) returns (i: nat, j: nat)
    requires InDueOrder(fired, due) && u in fired && v in fired && due[u] < due[v]
    ensures i < j < |fired| && fired[i] == u && fired[j] == v
  {
    i :| 0 <= i < |fired| && fired[i] == u;
    j :| 0 <= j < |fired| && fired[j] == v;
  }

  lemma FiredBefore(q: Rows, fired: seq<Watcher>, due: map<Watcher, real>, once: set<Watcher>,
                    script: seq<seq<Op>>, u: Watcher, v: Watcher)
    requires Tidy(q) && InDueOrder(fired, due) && !Held(q, u) && !Held(q, v) && u in fired && v in fired
    requires u.pri == v.pri && due[u] < due[v]
    ensures InOrder(CallsAfter(q, fired, once, script), script, u, v)
  {
    StoppedNotHeld(q, fired, once, u);
    StoppedNotHeld(q, fired, once, v);
    var i, j := PlacesOf(fired, due, u, v);
    ExpiryOrder(AllDone(q, Stops(fired, once)), fired, due, EV_TIMER, script, i, j);
  }

  /** Expiry order for a whole pass. */
  lemma FiredInOrder(q: Rows, fired: seq<Watcher>, due: map<Watcher, real>, once: set<Watcher>,
                     script: seq<seq<Op>>, idle: set<Watcher>)
    requires Tidy(q) && InDueOrder(fired, due)
    requires forall v :: v in idle ==> !Held(q, v)
    ensures CallsOrdered(CallsAfter(q, fired, once, script), script, fired, due, idle)
  {
    forall u, v | u in idle && v in idle && u in fired && v in fired && u.pri == v.pri && due[u] < due[v]
      ensures InOrder(CallsAfter(q, fired, once, script), script, u, v)
    {
      FiredBefore(q, fired, due, once, script, u, v);
    }
  }

  /**
   * What a pass leaves owed to w: to a fired timer EV_TIMER, which joins what was pending if it repeats
   * and replaces it if not; to any other watcher what was pending.
   */
  function Due(o: Owed, fired: seq<Watcher>, once: set<Watcher>, w: Watcher): Owed {
    if w !in fired then o
    else Owing(if o.Nothing? || w in once then EV_TIMER else o.events + EV_TIMER)
  }

  lemma PassOwes(q: Rows, fired: seq<Watcher>, once: set<Watcher>, w: Watcher)
    requires Tidy(q)
    ensures var r := FedInReverse(AllDone(q, Stops(fired, once)), fired, EV_TIMER);
      Tidy(r) && Owes(r, w) == Due(Owes(q, w), fired, once, w)
  {
    StoppedOwes(q, fired, once, w);
    FedOwes(AllDone(q, Stops(fired, once)), fired, EV_TIMER, w);
  }

  /**
   * The calls after a pass. Every fired timer, pending before or not, is called for its expiry unless it
   * is cancelled before; and a watcher that the callbacks leave alone is called exactly once, with exactly
   * what the pass left owed to it, or not at all if that was nothing.
   */
  lemma CallsPay(q: Rows, fired: seq<Watcher>, once: set<Watcher>, script: seq<seq<Op>>, w: Watcher)
    requires Tidy(q)
    ensures var calls := CallsAfter(q, fired, once, script);
      Paid(calls, script, w, Due(Owes(q, w), fired, once, w)) && (w in fired ==> Reached(calls, script, w, EV_TIMER))
  {
    var r := FedInReverse(AllDone(q, Stops(fired, once)), fired, EV_TIMER);
    PassOwes(q, fired, once, w);
    RunPays(r, script, w);
    if w in fired {
      HeldIsCalled(r, script, w);
    }
  }

  /** Each of the watchers ws is called for what the pass left owed to it, each fired one for its expiry. */
  ghost predicate CallsDue(calls: seq<Call>, script: seq<seq<Op>>, q: Rows, fired: seq<Watcher>, once: set<Watcher>,
                           ws: set<Watcher>)
    requires |q| == NUMPRI
  {
    (forall w :: w in ws ==> Paid(calls, script, w, Due(Owes(q, w), fired, once, w))) &&
    (forall w :: w in fired ==> Reached(calls, script, w, EV_TIMER))
  }

  /** Of two fired timers of one priority that were idle, the one due first is called first, short of a cancellation. */
  ghost predicate CallsOrdered(calls: seq<Call>, script: seq<seq<Op>>, fired: seq<Watcher>,
                               due: map<Watcher, real>, idle: set<Watcher>)
    requires forall v :: v in fired ==> v in due
  {
    forall u, v :: u in idle && v in idle && u in fired && v in fired && u.pri == v.pri && due[u] < due[v] ==>
      InOrder(calls, script, u, v)
  }

  lemma AllCallsPay(q: Rows, fired: seq<Watcher>, once: set<Watcher>, script: seq<seq<Op>>, ws: set<Watcher>)
    requires Tidy(q)
    ensures CallsDue(CallsAfter(q, fired, once, script), script, q, fired, once, ws)
  {
    var calls := CallsAfter(q, fired, once, script);
    forall w | w in ws ensures Paid(calls, script, w, Due(Owes(q, w), fired, once, w)) {
      CallsPay(q, fired, once, script, w);
    }
    forall w | w in fired ensures Reached(calls, script, w, EV_TIMER) {
      CallsPay(q, fired, once, script, w);
    }
  }
}
