/** The timers of extern/libev/ev.c: start, stop, again, and the expiry pass over the heap. */
module EvTimers {
  import opened EvWatcher
  import opened EvHeap
  import opened EvQueue
  import opened EvDelivery
  import opened EvExpiry
  import EvArray

  /** sizeof (ANHE): a double and a pointer. */
  const SIZEOF_ANHE: nat := 16

  // ---- the heap and the watchers in it

  ghost predicate Occurs(h: Slots, n: nat, v: Watcher) {
    exists i :: HEAP0 <= i < n <= |h| && h[i].w == v
  }

  /** Every entry in use is an armed watcher, and its cached time is the watcher's. */
  ghost predicate Cached(h: Slots, n: nat, armed: set<Watcher>)
    reads armed`at
  {
    HEAP0 <= n <= |h| &&
    forall i :: HEAP0 <= i < n ==> h[i].w in armed && h[i].at == h[i].w.at
  }

  /**
   * What verify_heap checks, and that the heap holds every armed watcher: each records the slot
   * where it is found, so it is held once.
   */
  ghost predicate Sound(h: Slots, n: nat, armed: set<Watcher>)
    reads armed`active, armed`at
  {
    Cached(h, n, armed) && Ordered(h, n) && IndexedBut(h, n, n) &&
    forall v :: v in armed ==> HEAP0 <= v.active < n && h[v.active].w == v
  }

  /**
   * A sound heap but for slot k: its entry may be out of order and its watcher may still record
   * the slot it came from.
   */
  ghost predicate Loose(h: Slots, n: nat, k: nat, armed: set<Watcher>)
    reads armed`active, armed`at
  {
    OrderedBut(h, n, k) && Bridged(h, n, k) && Apart(h, n, k, h[k].w) &&
    Cached(h, n, armed) && IndexedBut(h, n, k) &&
    forall v :: v in armed ==> Occurs(h, n, v)
  }

  /** Sifting moves entries about but neither adds nor loses one. */
  lemma SameBagOccurs(h: Slots, r: Slots, n: nat, v: Watcher)
    requires HEAP0 <= n <= |h| && n <= |r| && Bag(h, n) == Bag(r, n) && Occurs(h, n, v)
    ensures Occurs(r, n, v)
  {
    var i :| HEAP0 <= i < n && h[i].w == v;
    assert h[HEAP0..n][i - HEAP0] in Bag(h, n);
    assert h[i] in r[HEAP0..n];
  }

  lemma SameBagCached(h: Slots, r: Slots, n: nat, armed: set<Watcher>)
    requires HEAP0 <= n <= |h| && n <= |r| && Bag(h, n) == Bag(r, n) && Cached(h, n, armed)
    ensures Cached(r, n, armed)
  {
    forall i | HEAP0 <= i < n ensures r[i] in h[HEAP0..n] {
      assert r[HEAP0..n][i - HEAP0] in Bag(r, n);
    }
  }

  /** Once the back-indices are right again, a sifted heap has everything in place. */
  lemma Resettled(h: Slots, r: Slots, n: nat, armed: set<Watcher>)
    requires HEAP0 <= n <= |h| && n <= |r| && Bag(h, n) == Bag(r, n)
    requires Cached(h, n, armed) && forall v :: v in armed ==> Occurs(h, n, v)
    requires IndexedBut(r, n, n) && Ordered(r, n)
    ensures Sound(r, n, armed)
  {
    SameBagCached(h, r, n, armed);
    forall v | v in armed ensures Occurs(r, n, v) {
      SameBagOccurs(h, r, n, v);
    }
  }

  /** adjustheap, where it is needed. */
  method Adjust(heap: array<Anhe>, n: nat, k: nat, ghost armed: set<Watcher>)
    requires n <= heap.Length && Loose(heap[..], n, k, armed)
    modifies heap, armed`active
    ensures Sound(heap[..], n, armed)
  {
    ghost var h := heap[..];
    AdjustedIsHeap(h, n, k);
    AdjustHeap(heap, n, k, armed);
    Resettled(h, heap[..], n, armed);
  }

  /** downheap, at the root. */
  method SinkRoot(heap: array<Anhe>, n: nat, ghost armed: set<Watcher>)
    requires n <= heap.Length && Loose(heap[..], n, HEAP0, armed)
    modifies heap, armed`active
    ensures Sound(heap[..], n, armed)
  {
    ghost var h := heap[..];
    SiftDownOrders(h, n, HEAP0);
    SiftDownKeepsBag(h, n, HEAP0);
    DownHeap(heap, n, HEAP0, armed);
    Resettled(h, heap[..], n, armed);
  }

  /** upheap, of the last entry. */
  method RiseLast(heap: array<Anhe>, k: nat, ghost n: nat, ghost armed: set<Watcher>)
    requires k + 1 == n <= heap.Length && Loose(heap[..], n, k, armed)
    modifies heap, armed`active
    ensures Sound(heap[..], n, armed)
  {
    ghost var h := heap[..];
    SiftUpAppends(h, n);
    SiftUpKeepsBag(h, n, k);
    UpHeap(heap, k, n, armed);
    Resettled(h, heap[..], n, armed);
  }

  /** Whatever is stored in slot k, the order is intact but for the edges around k. */
  lemma ReplacedIsBridged(h: Slots, n: nat, k: nat, e: Anhe)
    requires HEAP0 <= k < n <= |h| && Ordered(h, n)
    ensures OrderedBut(h[k := e], n, k) && Bridged(h[k := e], n, k)
  {
    var r := h[k := e];
    forall i | HEAP0 < i < n ensures EdgeBut(r, i, k) && (k > HEAP0 ==> Above(r, i, k, Parent(k))) {
      assert Edge(h, i) && (k > HEAP0 ==> Edge(h, k));
    }
  }

  /** Growing the array keeps the heap. */
  lemma GrownIsSound(h: Slots, r: Slots, n: nat, armed: set<Watcher>)
    requires n <= |h| <= |r| && h == r[..|h|] && Sound(h, n, armed)
    ensures Sound(r, n, armed)
  {
    assert forall i :: 0 <= i < |h| ==> r[i] == h[i];
    forall i | HEAP0 < i < n ensures Edge(r, i) {
      assert Edge(h, i);
    }
  }

  /** A new watcher w stored behind the heap. */
  lemma AppendedIsLoose(h: Slots, k: nat, n: nat, w: Watcher, armed: set<Watcher>)
    requires HEAP0 <= k < |h| && n == k + 1 && w !in armed && Sound(h, k, armed)
    ensures Loose(h[k := Anhe(w, w.at)], n, k, armed + {w})
  {
    var r := h[k := Anhe(w, w.at)];
    forall i | HEAP0 < i < n ensures EdgeBut(r, i, k) {
      assert i < k ==> Edge(h, i);
    }
    assert r[k].w == w;
    assert forall v :: v in armed ==> r[v.active].w == v;
  }

  /** The end of ev_timer_start: the watcher takes the slot after the heap, then rises. */
  method Enter(heap: array<Anhe>, ghost n: nat, w: Watcher, ghost armed: set<Watcher>)
    requires HEAP0 <= w.active < heap.Length && w !in armed && n == w.active + 1
    requires Sound(heap[..], w.active, armed)
    modifies heap, armed`active, w`active
    ensures Sound(heap[..], n, armed + {w})
  {
    AppendedIsLoose(heap[..], w.active, n, w, armed);
    heap[w.active] := Anhe(w, w.at);
    RiseLast(heap, w.active, n, armed + {w});
  }

  /** The last entry stored in slot k, whose watcher w leaves. */
  lemma VacatedIsLoose(h0: Slots, n: nat, k: nat, w: Watcher, armed: set<Watcher>)
    requires HEAP0 <= k < n < |h0| && h0[k].w == w && Sound(h0, n + 1, armed)
    ensures Loose(h0[k := h0[n]], n, k, armed - {w})
  {
    var h := h0[k := h0[n]];
    ReplacedIsBridged(h0, n, k, h0[n]);
    forall v | v in armed - {w} ensures Occurs(h, n, v) {
      assert h[if v.active == n then k else v.active].w == v;
    }
  }

  lemma LastIsDropped(h: Slots, n: nat, w: Watcher, armed: set<Watcher>)
    requires HEAP0 <= n < |h| && h[n].w == w && Sound(h, n + 1, armed)
    ensures Sound(h, n, armed - {w})
  {
    assert forall i :: HEAP0 < i < n ==> Edge(h, i);
  }

  /** The middle of ev_timer_stop: the last entry takes the slot of w, unless w is the last. */
  method Leave(heap: array<Anhe>, n: nat, w: Watcher, ghost armed: set<Watcher>)
    requires w in armed && n < heap.Length && Sound(heap[..], n + 1, armed)
    modifies heap, armed`active
    ensures Sound(heap[..], n, armed - {w})
  {
    var active := w.active;
    if active < n {
      VacatedIsLoose(heap[..], n, active, w, armed);
      heap[active] := heap[n];
      Adjust(heap, n, active, armed - {w});
    } else {
      LastIsDropped(heap[..], n, w, armed);
    }
  }

  /** A new due time for the watcher in slot k. */
  method Restamp(heap: array<Anhe>, n: nat, k: nat, at: real, ghost armed: set<Watcher>)
    requires HEAP0 <= k < n <= heap.Length && Sound(heap[..], n, armed)
    modifies heap, heap[k].w`at
    ensures heap[k].w == old(heap[k].w) && heap[k].w.at == at && Loose(heap[..], n, k, armed)
  {
    ghost var h := heap[..];
    heap[k].w.at := at;
    heap[k] := heap[k].(at := heap[k].w.at);
    assert heap[..] == h[k := Anhe(h[k].w, at)];
    ReplacedIsBridged(h, n, k, Anhe(h[k].w, at));
    assert forall v :: v in armed ==> heap[v.active].w == v;
  }

  /** periodics_reschedule: every entry gets the time the recalculation gave it, then reheap. */
  method RescheduleAll(heap: array<Anhe>, count: nat, ats: seq<real>, ghost armed: set<Watcher>)
    requires count + HEAP0 <= heap.Length && |ats| == count
    requires Sound(heap[..], count + HEAP0, armed)
    modifies heap, armed`active, armed`at
    ensures Sound(heap[..], count + HEAP0, armed)
    ensures forall i :: HEAP0 <= i < count + HEAP0 ==> old(heap[i].w).at == ats[i - HEAP0]
  {
    ghost var n, h0 := count + HEAP0, heap[..];
    for i := HEAP0 to count + HEAP0
      invariant forall j :: 0 <= j < heap.Length ==> heap[j].w == h0[j].w
      invariant forall j :: HEAP0 <= j < n ==> h0[j].w.active == j
      invariant forall j :: HEAP0 <= j < i ==> heap[j].at == h0[j].w.at == ats[j - HEAP0]
    {
      heap[i].w.at := ats[i - HEAP0];
      heap[i] := heap[i].(at := heap[i].w.at);
    }
    ghost var h := heap[..];
    forall v | v in armed ensures Occurs(h, n, v) {
      assert h[v.active].w == v;
    }
    ReheapedIsOrdered(h, n);
    ReheapedKeepsBag(h, n, n);
    Reheap(heap, count, armed);
    Resettled(h, heap[..], n, armed);
  }

  // ---- the loop's timers

  /** Of ws only the armed ones are active. */
  ghost predicate Stopped(ws: set<Watcher>, armed: set<Watcher>)
    reads ws`active
  {
    forall w :: w in ws && w !in armed ==> w.active == 0
  }

  class Timers {
    const q: Pending
    var timers: array<Anhe>
    var timercnt: nat
    var mnNow: real
    /** The reference count that keeps the loop running: timers plus everything else. */
    var activecnt: int
    ghost var others: int
    var rfeeds: seq<Watcher>
    ghost const watchers: set<Watcher>
    /** The active timers. */
    ghost var armed: set<Watcher>

    /** `spare` only fills the slots below HEAP0, which nothing reads. */
    constructor (q: Pending, watchers: set<Watcher>, now: real, spare: Watcher)
      requires watchers <= q.watchers
      requires forall w :: w in watchers ==> w.active == 0
      ensures Valid() && fresh(timers) && this.q == q && this.watchers == watchers
      ensures mnNow == now && armed == {} && rfeeds == []
    {
      this.q, this.watchers := q, watchers;
      timers, timercnt, mnNow := new Anhe[HEAP0](_ => Anhe(spare, 0.0)), 0, now;
      activecnt, others, rfeeds, armed := 0, 0, [], {};
    }

    ghost predicate Valid()
      reads `timers, `timercnt, `activecnt, `others, `armed, timers, watchers`active, watchers`at
    {
      armed <= watchers <= q.watchers &&
      HEAP0 + timercnt <= timers.Length &&
      Sound(timers[..], HEAP0 + timercnt, armed) &&
      Stopped(watchers, armed) &&
      activecnt == others + timercnt
    }

    /** The active timers and the times they are due. */
    ghost function Deadlines(): map<Watcher, real>
      reads this`armed, armed`at
    {
      map w | w in armed :: w.at
    }

    lemma ActiveIsArmed(w: Watcher)
      requires Valid() && w in watchers
      ensures w.active != 0 <==> w in armed
    {
    }

    /** ev_timer_start: the timer's relative `at` becomes a deadline. */
    method TimerStart(w: Watcher)
      requires Valid() && w in watchers && (w.active == 0 ==> w.repeat >= 0.0)
      modifies this`timers, this`timercnt, this`activecnt, this`armed, timers, watchers`active, w`at
      ensures Valid() && (timers == old(timers) || fresh(timers))
      ensures armed == old(armed) + {w}
      ensures w.at == if w in old(armed) then old(w.at) else old(w.at) + mnNow
    {
      ActiveIsArmed(w);
      if w.active != 0 {
        assert armed == armed + {w};
        return;
      }
      Begin(w);
    }

    /** The `at` of a stopped timer is free to change. */
    method SetAt(w: Watcher, at: real)
      requires Valid() && w !in armed
      modifies w`at
      ensures Valid() && w.at == at
    {
      w.at := at;
    }

    /** The deadline, and the place in the heap. */
    method Enlist(w: Watcher)
      requires Valid() && w in watchers && w !in armed
      modifies this`timers, this`timercnt, timers, armed`active, w`active, w`at
      ensures HEAP0 + timercnt <= timers.Length && Sound(timers[..], HEAP0 + timercnt, armed + {w})
      ensures timercnt == old(timercnt) + 1 && Stopped(watchers, armed + {w}) && w.at == old(w.at) + mnNow
      ensures timers == old(timers) || fresh(timers)
    {
      SetAt(w, w.at + mnNow);
      Join(w);
    }

    /** ev_timer_start on a stopped timer. */
    method Begin(w: Watcher)
      requires Valid() && w in watchers && w !in armed
      modifies this`timers, this`timercnt, this`activecnt, this`armed, timers, armed`active, w`active, w`at
      ensures Valid() && (timers == old(timers) || fresh(timers))
      ensures armed == old(armed) + {w} && w.at == old(w.at) + mnNow
    {
      Enlist(w);
      Count(w);
    }

    /** What a start adds to the counts. */
    method Count(w: Watcher)
      requires w in watchers && w !in armed && armed <= watchers <= q.watchers && HEAP0 + timercnt <= timers.Length
      requires Sound(timers[..], HEAP0 + timercnt, armed + {w}) && Stopped(watchers, armed + {w})
      requires activecnt + 1 == others + timercnt
      modifies this`activecnt, this`armed
      ensures Valid() && armed == old(armed) + {w}
    {
      activecnt := activecnt + 1;
      armed := armed + {w};
    }

    /** array_needsize for one entry behind the n slots in use. */
    method GrowHeap(n: nat, filler: Watcher)
      requires n <= timers.Length && Sound(timers[..], n, armed)
      modifies this`timers
      ensures n < timers.Length && Sound(timers[..], n, armed)
      ensures timers == old(timers) || fresh(timers)
    {
      ghost var h := timers[..];
      timers := EvArray.NeedSize(timers, SIZEOF_ANHE, n + 1, Anhe(filler, 0.0));
      GrownIsSound(h, timers[..], n, armed);
    }

    /** ev_timer_start on a stopped timer, from the growth of the heap on. */
    method Join(w: Watcher)
      requires HEAP0 + timercnt <= timers.Length && w !in armed
      requires Sound(timers[..], HEAP0 + timercnt, armed)
      modifies this`timers, this`timercnt, timers, armed`active, w`active
      ensures timercnt == old(timercnt) + 1 && HEAP0 + timercnt <= timers.Length
      ensures timers == old(timers) || fresh(timers)
      ensures Sound(timers[..], HEAP0 + timercnt, armed + {w})
    {
      Activate(w);
      GrowHeap(w.active, w);
      Enter(timers, HEAP0 + timercnt, w, armed);
    }

    /** The slot behind the heap is given to the watcher. */
    method Activate(w: Watcher)
      requires HEAP0 + timercnt <= timers.Length && w !in armed
      requires Sound(timers[..], HEAP0 + timercnt, armed)
      modifies this`timercnt, w`active
      ensures timercnt == old(timercnt) + 1 && w.active == HEAP0 + timercnt - 1 <= timers.Length
      ensures Sound(timers[..], w.active, armed)
    {
      timercnt := timercnt + 1;
      w.active := timercnt + HEAP0 - 1;
    }

    /** ev_timer_stop: what is pending is forgotten, and `at` becomes the time that was left. */
    method TimerStop(w: Watcher)
      requires Valid() && q.Valid() && w in watchers
      modifies this`timercnt, this`activecnt, this`armed, timers, watchers`active, w`at, q`pendings, w`pending
      ensures Valid() && q.Valid() && armed == old(armed) - {w}
      ensures w.at == if w in old(armed) then old(w.at) - mnNow else old(w.at)
      ensures q.pendings == Cleared(old(q.pendings), w) && w.pending == 0
    {
      ActiveIsArmed(w);
      var _ := q.ClearPending(w);
      if w.active == 0 {
        assert armed == armed - {w};
        return;
      }
      Quit(w);
    }

    /** ev_timer_stop on an active timer. */
    method Quit(w: Watcher)
      requires Valid() && w in armed
      modifies this`timercnt, this`activecnt, this`armed, timers, armed`active, w`at
      ensures Valid() && armed == old(armed) - {w} && w.active == 0 && w.at == old(w.at) - mnNow
    {
      timercnt := timercnt - 1;
      Leave(timers, HEAP0 + timercnt, w, armed);
      Discount(w);
    }

    /** What a stop takes from the counts, and what it leaves of the timer. */
    method Discount(w: Watcher)
      requires w in armed && armed <= watchers <= q.watchers && HEAP0 + timercnt <= timers.Length
      requires Sound(timers[..], HEAP0 + timercnt, armed - {w}) && Stopped(watchers, armed)
      requires activecnt - 1 == others + timercnt
      modifies this`activecnt, this`armed, w`active, w`at
      ensures Valid() && armed == old(armed) - {w} && w.active == 0 && w.at == old(w.at) - mnNow
    {
      activecnt := activecnt - 1;
      armed := armed - {w};
      w.at, w.active := w.at - mnNow, 0;
    }

    /** ev_timer_again on a stopped timer. */
    method StartAgain(w: Watcher)
      requires Valid() && w in watchers && w !in armed && w.repeat >= 0.0
      modifies this`timers, this`timercnt, this`activecnt, this`armed, timers, armed`active, w`active, w`at
      ensures Valid() && (timers == old(timers) || fresh(timers))
      ensures armed == if w.repeat != 0.0 then old(armed) + {w} else old(armed)
      ensures w.repeat != 0.0 ==> w.at == mnNow + w.repeat
    {
      if w.repeat != 0.0 {
        SetAt(w, w.repeat);
        ActiveIsArmed(w);
        Begin(w);
      }
    }

    /** ev_timer_again on an active timer. */
    method MoveAgain(w: Watcher)
      requires Valid() && w in armed
      modifies this`timercnt, this`activecnt, this`armed, timers, armed`active, w`at
      ensures Valid()
      ensures armed == if w.repeat != 0.0 then old(armed) else old(armed) - {w}
      ensures w.repeat != 0.0 ==> w.at == mnNow + w.repeat
    {
      if w.repeat != 0.0 {
        Postpone(w, mnNow + w.repeat);
      } else {
        Quit(w);
      }
    }

    /** ev_timer_again: rearm relative to now, or stop when there is no repeat. */
    method TimerAgain(w: Watcher)
      requires Valid() && q.Valid() && w in watchers && (w.active == 0 ==> w.repeat >= 0.0)
      modifies this`timers, this`timercnt, this`activecnt, this`armed, timers, watchers`active, w`at, q`pendings, w`pending
      ensures Valid() && q.Valid() && (timers == old(timers) || fresh(timers))
      ensures armed == if w.repeat != 0.0 then old(armed) + {w} else old(armed) - {w}
      ensures w in armed ==> w.at == mnNow + w.repeat
      ensures q.pendings == Cleared(old(q.pendings), w) && w.pending == 0
    {
      ActiveIsArmed(w);
      var _ := q.ClearPending(w);
      if w.active == 0 {
        assert armed - {w} == armed;
        StartAgain(w);
      } else {
        assert armed + {w} == armed;
        MoveAgain(w);
      }
    }

    /** A new due time for an active timer, then adjustheap. */
    method Postpone(w: Watcher, due: real)
      requires Valid() && w in armed
      modifies timers, armed`active, w`at
      ensures Valid() && w.at == due
    {
      Restamp(timers, HEAP0 + timercnt, w.active, due, armed);
      Adjust(timers, HEAP0 + timercnt, w.active, armed);
    }

    /** A new due time for the timer at the root, then downheap. */
    method Reschedule(due: real)
      requires Valid() && timercnt > 0
      modifies timers, armed`active, timers[HEAP0].w`at
      ensures Valid() && old(timers[HEAP0].w).at == due
    {
      Restamp(timers, HEAP0 + timercnt, HEAP0, due, armed);
      SinkRoot(timers, HEAP0 + timercnt, armed);
    }

    lemma RootIsNext()
      requires Valid() && timercnt > 0
      ensures timers[HEAP0].w in armed && timers[HEAP0].at == timers[HEAP0].w.at
      ensures forall v :: v in armed ==> timers[HEAP0].at <= v.at
    {
      forall v | v in armed ensures timers[HEAP0].at <= v.at {
        RootIsEarliest(timers[..], HEAP0 + timercnt, v.active);
      }
    }

    /** A repeating timer at the root: one repeat on, or now if that is past. */
    method Repeat(w: Watcher)
      requires Valid() && timercnt > 0 && w == timers[HEAP0].w && w.repeat != 0.0
      modifies timers, armed`active, w`at
      ensures Valid()
      ensures w.at == if old(w.at) + w.repeat < mnNow then mnNow else old(w.at) + w.repeat
    {
      var at := w.at + w.repeat;
      if at < mnNow {
        at := mnNow;
      }
      Reschedule(at);
    }

    /** The root is rescheduled or stopped. */
    method Settle(w: Watcher)
      requires Valid() && q.Valid() && timercnt > 0 && w == timers[HEAP0].w && w in armed
      modifies this`timercnt, this`activecnt, this`armed, timers, watchers`active, w`at, q`pendings, w`pending
      ensures Valid() && q.Valid()
      ensures w.repeat != 0.0 ==>
        armed == old(armed) && q.pendings == old(q.pendings) &&
        w.at == if old(w.at) + w.repeat < mnNow then mnNow else old(w.at) + w.repeat
      ensures w.repeat == 0.0 ==>
        armed == old(armed) - {w} && q.pendings == Cleared(old(q.pendings), w)
    {
      if w.repeat != 0.0 {
        Repeat(w);
      } else {
        TimerStop(w);
      }
    }

    /** feed_reverse */
    method FeedReverse(w: Watcher)
      requires Valid() && q.Valid()
      modifies this`rfeeds
      ensures Valid() && q.Valid() && rfeeds == old(rfeeds) + [w]
    {
      rfeeds := rfeeds + [w];
    }

    /** One turn of the loop of timers_reify: the root is rescheduled or stopped, and collected. */
    method Fire() returns (w: Watcher)
      requires Valid() && q.Valid() && timercnt > 0 && timers[HEAP0].at < mnNow
      modifies this`timercnt, this`activecnt, this`armed, this`rfeeds, timers,
        watchers`active, watchers`at, q`pendings, q.watchers`pending
      ensures Valid() && q.Valid()
      ensures w == old(timers[HEAP0].w) && w in old(armed)
      ensures forall v :: v in watchers && v != w ==> v.at == old(v.at)
      ensures rfeeds == old(rfeeds) + [w]
      ensures w.repeat != 0.0 ==>
        armed == old(armed) && q.pendings == old(q.pendings) &&
        w.at == if old(w.at) + w.repeat < mnNow then mnNow else old(w.at) + w.repeat
      ensures w.repeat == 0.0 ==>
        armed == old(armed) - {w} && q.pendings == Cleared(old(q.pendings), w)
    {
      w := timers[HEAP0].w;
      Settle(w);
      FeedReverse(w);
    }

    /** The same: the timer taken is due, and no other is due earlier. */
    method Expire() returns (w: Watcher)
      requires Valid() && q.Valid() && timercnt > 0 && timers[HEAP0].at < mnNow
      modifies this`timercnt, this`activecnt, this`armed, this`rfeeds, timers,
        watchers`active, watchers`at, q`pendings, q.watchers`pending
      ensures Valid() && q.Valid()
      ensures w in old(armed) && old(w.at) < mnNow && forall v :: v in old(armed) ==> old(w.at) <= old(v.at)
      ensures forall v :: v in watchers && v != w ==> v.at == old(v.at)
      ensures rfeeds == old(rfeeds) + [w]
      ensures w.repeat != 0.0 ==>
        armed == old(armed) && q.pendings == old(q.pendings) &&
        w.at == if old(w.at) + w.repeat < mnNow then mnNow else old(w.at) + w.repeat
      ensures w.repeat == 0.0 ==>
        armed == old(armed) - {w} && q.pendings == Cleared(old(q.pendings), w)
    {
      RootIsNext();
      w := Fire();
    }

    /**
     * How far the expiry pass has come from the deadlines `due`: `fired` left the heap earliest
     * first; of them the repeating timers have a deadline that is not past, the others are
     * stopped; every other timer keeps its deadline, which is no earlier.
     */
    ghost predicate Expired(fired: seq<Watcher>, due: map<Watcher, real>)
      reads this`armed, this`mnNow, watchers`at, watchers`repeat
    {
      InDueOrder(fired, due) && armed <= due.Keys <= watchers &&
      (forall v :: v in fired ==> due[v] < mnNow && Rearmed(v, due[v])) &&
      (forall v :: v in due && v !in fired ==> v in armed && v.at == due[v]) &&
      (forall v, i :: v in due && v !in fired && 0 <= i < |fired| ==> due[fired[i]] <= due[v])
    }

    ghost predicate Rearmed(v: Watcher, was: real)
      requires v in watchers
      reads this`armed, this`mnNow, watchers`at, watchers`repeat
    {
      if v.repeat == 0.0 then v !in armed
      else v in armed && v.at == if was + v.repeat < mnNow then mnNow else was + v.repeat
    }

    ghost function OneShots(): set<Watcher>
      reads this`armed, armed`repeat
    {
      set w | w in armed && w.repeat == 0.0
    }

    /** A timer that is due has not fired in this pass. */
    lemma DueIsUnfired(fired: seq<Watcher>, due: map<Watcher, real>, w: Watcher)
      requires Expired(fired, due) && w in armed && w.at < mnNow
      ensures w in due && w !in fired && due[w] == w.at
    {
    }

    /** The root is due no later than any timer that has not fired, and no earlier than those that have. */
    lemma RootFollows(fired: seq<Watcher>, due: map<Watcher, real>)
      requires Valid() && Expired(fired, due) && timercnt > 0 && timers[HEAP0].at < mnNow
      ensures var w := timers[HEAP0].w;
        w in armed && w.at < mnNow && w in due && w !in fired && due[w] == w.at && InDueOrder(fired + [w], due) &&
        forall v :: v in due && v !in fired ==> due[w] <= due[v]
    {
      RootIsNext();
      var w := timers[HEAP0].w;
      DueIsUnfired(fired, due, w);
      assert forall i :: 0 <= i < |fired| ==> fired[i] in fired && due[fired[i]] <= due[w];
    }

    /** The pass so far, and one more timer. */
    lemma ExpiredGrows(fired: seq<Watcher>, due: map<Watcher, real>, w: Watcher)
      requires InDueOrder(fired + [w], due) && armed <= due.Keys <= watchers
      requires w in due && forall v :: v in fired ==> v in due
      requires forall v :: v in fired ==> due[v] < mnNow && Rearmed(v, due[v])
      requires due[w] < mnNow && Rearmed(w, due[w])
      requires forall v :: v in due && v !in fired && v != w ==> v in armed && v.at == due[v]
      requires forall v :: v in due && v !in fired ==> due[w] <= due[v]
      requires forall v, i :: v in due && v !in fired && 0 <= i < |fired| ==> due[fired[i]] <= due[v]
      ensures Expired(fired + [w], due)
    {
    }

    /** One more turn; it touches no timer but the one it takes. */
    method FireNext(ghost fired: seq<Watcher>, ghost due: map<Watcher, real>) returns (w: Watcher)
      requires Valid() && q.Valid() && Expired(fired, due)
      requires timercnt > 0 && timers[HEAP0].at < mnNow && timers[HEAP0].w !in fired
      modifies this`timercnt, this`activecnt, this`armed, this`rfeeds, timers,
        watchers`active, watchers`at, q`pendings, q.watchers`pending
      ensures Valid() && q.Valid()
      ensures w == old(timers[HEAP0].w) && rfeeds == old(rfeeds) + [w]
      ensures w in old(armed) && Rearmed(w, old(w.at)) && armed <= old(armed)
      ensures forall v :: v in fired ==> v in due && due[v] < mnNow && Rearmed(v, due[v])
      ensures forall v :: v in due && v !in fired && v != w ==> v in armed && v.at == due[v]
      ensures q.pendings == if w.repeat == 0.0 then Cleared(old(q.pendings), w) else old(q.pendings)
    {
      w := Fire();
      forall v | v in fired ensures v in due && due[v] < mnNow && Rearmed(v, due[v]) {
        assert old(Rearmed(v, due[v])) && v != w;
      }
    }

    /** How far a turn brings the pass. */
    method ExpireNext(ghost due: map<Watcher, real>, ghost once: set<Watcher>) returns (w: Watcher)
      requires Valid() && q.Valid() && Expired(rfeeds, due)
      requires timercnt > 0 && timers[HEAP0].at < mnNow
      requires forall v :: v in due ==> (v in once <==> v.repeat == 0.0)
      modifies this`timercnt, this`activecnt, this`armed, this`rfeeds, timers,
        watchers`active, watchers`at, q`pendings, q.watchers`pending
      ensures Valid() && q.Valid() && Expired(rfeeds, due)
      ensures w in due && w !in old(rfeeds) && rfeeds == old(rfeeds) + [w]
      ensures q.pendings == if w in once then Cleared(old(q.pendings), w) else old(q.pendings)
    {
      ghost var fired := rfeeds;
      RootFollows(fired, due);
      w := FireNext(fired, due);
      ExpiredGrows(fired, due, w);
    }

    /** A pass that began with the deadlines due, the one-shot timers once and the queues q0 is under way. */
    ghost predicate Passing(due: map<Watcher, real>, once: set<Watcher>, q0: Rows)
      reads this, q`pendings, timers, watchers, q.watchers`pending
    {
      Valid() && q.Valid() && Expired(rfeeds, due) &&
      (forall v :: v in due ==> (v in once <==> v.repeat == 0.0)) &&
      |q0| == NUMPRI && q.pendings == AllDone(q0, Stops(rfeeds, once))
    }

    /** One turn, and what has happened to the queues since the pass began. */
    method ExpireTurn(ghost due: map<Watcher, real>, ghost once: set<Watcher>, ghost q0: Rows) returns (w: Watcher)
      requires Passing(due, once, q0) && timercnt > 0 && timers[HEAP0].at < mnNow
      modifies this`timercnt, this`activecnt, this`armed, this`rfeeds, timers,
        watchers`active, watchers`at, q`pendings, q.watchers`pending
      ensures Passing(due, once, q0)
      ensures w in due && w !in old(rfeeds) && rfeeds == old(rfeeds) + [w]
    {
      ghost var fired := rfeeds;
      w := ExpireNext(due, once);
      StopsSnoc(q0, fired, once, w);
    }

    /** The loop of timers_reify. It ends because each turn fires a timer that has not fired. */
    method ExpireAll()
      requires Valid() && q.Valid() && rfeeds == []
      modifies this`timercnt, this`activecnt, this`armed, this`rfeeds, timers,
        watchers`active, watchers`at, q`pendings, q.watchers`pending
      ensures Passing(old(Deadlines()), old(OneShots()), old(q.pendings))
      ensures forall v :: v in armed ==> v.at >= mnNow
    {
      ghost var due, once := Deadlines(), OneShots();
      while timercnt > 0 && timers[HEAP0].at < mnNow
        invariant Passing(due, once, old(q.pendings))
        decreases Unfired(due, rfeeds)
      {
        ghost var fired := rfeeds;
        var w := ExpireTurn(due, once, old(q.pendings));
        UnfiredShrinks(due, fired, w);
      }
      NothingDue();
    }

    lemma NothingDue()
      requires Valid() && (timercnt == 0 || timers[HEAP0].at >= mnNow)
      ensures forall v :: v in armed ==> v.at >= mnNow
    {
      if timercnt > 0 {
        RootIsNext();
      }
    }

    /** The pass is complete: nothing that is due is left. */
    ghost predicate Passed(fired: seq<Watcher>, due: map<Watcher, real>)
      reads this`armed, this`mnNow, watchers`at, watchers`repeat, armed`at
    {
      Expired(fired, due) && forall v :: v in armed ==> v.at >= mnNow
    }

    lemma FiredExactly(fired: seq<Watcher>, due: map<Watcher, real>)
      requires armed <= watchers && Passed(fired, due)
      ensures forall v :: v in due ==> (v in fired <==> due[v] < mnNow)
    {
    }

    /** feed_reverse_done */
    method FeedReverseDone(revents: Events)
      requires q.Valid() && rfeeds != [] && forall i :: 0 <= i < |rfeeds| ==> rfeeds[i] in q.watchers
      modifies this`rfeeds, q`pendings, q`pendingpri, q.watchers`pending
      ensures q.Valid() && rfeeds == []
      ensures q.pendings == FedInReverse(old(q.pendings), old(rfeeds), revents)
    {
      while rfeeds != []
        invariant q.Valid() && forall i :: 0 <= i < |rfeeds| ==> rfeeds[i] in q.watchers
        invariant FedInReverse(q.pendings, rfeeds, revents) == FedInReverse(old(q.pendings), old(rfeeds), revents)
        decreases |rfeeds|
      {
        var w := rfeeds[|rfeeds| - 1];
        rfeeds := rfeeds[..|rfeeds| - 1];
        q.FeedEvent(w, revents);
      }
    }

    /**
     * timers_reify: of the timers active on entry exactly those that are due fire, once each and
     * earliest first; none that is due is left; and the queues receive them last to first.
     */
    method TimersReify() returns (ghost fired: seq<Watcher>)
      requires Valid() && q.Valid() && rfeeds == []
      modifies this`timercnt, this`activecnt, this`armed, this`rfeeds, timers,
        watchers`active, watchers`at, q`pendings, q`pendingpri, q.watchers`pending
      ensures Valid() && q.Valid() && rfeeds == []
      ensures Passed(fired, old(Deadlines()))
      ensures forall v :: v in old(armed) ==> (v in fired <==> old(v.at) < mnNow)
      ensures q.pendings ==
        FedInReverse(AllDone(old(q.pendings), Stops(fired, old(OneShots()))), fired, EV_TIMER)
    {
      if timercnt > 0 && timers[HEAP0].at < mnNow {
        fired := ReifyDue();
      } else {
        NothingDue();
        fired := [];
      }
      FiredExactly(fired, old(Deadlines()));
    }

    /** Feeding touches no timer. */
    method FeedTimers(ghost due: map<Watcher, real>)
      requires Valid() && q.Valid() && rfeeds != [] && Passed(rfeeds, due)
      modifies this`rfeeds, q`pendings, q`pendingpri, q.watchers`pending
      ensures Valid() && q.Valid() && rfeeds == [] && Passed(old(rfeeds), due)
      ensures q.pendings == FedInReverse(old(q.pendings), old(rfeeds), EV_TIMER)
    {
      FeedReverseDone(EV_TIMER);
    }

    /** The loop of timers_reify, when there is a turn to take. */
    method ExpireDue()
      requires Valid() && q.Valid() && rfeeds == []
      requires timercnt > 0 && timers[HEAP0].at < mnNow
      modifies this`timercnt, this`activecnt, this`armed, this`rfeeds, timers,
        watchers`active, watchers`at, q`pendings, q.watchers`pending
      ensures Valid() && q.Valid() && rfeeds != []
      ensures Passed(rfeeds, old(Deadlines()))
      ensures q.pendings == AllDone(old(q.pendings), Stops(rfeeds, old(OneShots())))
    {
      ghost var first := timers[HEAP0].w;
      RootIsNext();
      ExpireAll();
      FiredExactly(rfeeds, old(Deadlines()));
      assert first in rfeeds;
    }

    method ReifyDue() returns (ghost fired: seq<Watcher>)
      requires Valid() && q.Valid() && rfeeds == []
      requires timercnt > 0 && timers[HEAP0].at < mnNow
      modifies this`timercnt, this`activecnt, this`armed, this`rfeeds, timers,
        watchers`active, watchers`at, q`pendings, q`pendingpri, q.watchers`pending
      ensures Valid() && q.Valid() && rfeeds == []
      ensures Passed(fired, old(Deadlines()))
      ensures q.pendings ==
        FedInReverse(AllDone(old(q.pendings), Stops(fired, old(OneShots()))), fired, EV_TIMER)
    {
      ExpireDue();
      fired := rfeeds;
      FeedTimers(old(Deadlines()));
    }

    /** The calls after a pass; the callbacks touch the queues, not the timers. */
    method Invoke(script: seq<seq<Op>>, ghost fired: seq<Watcher>, ghost due: map<Watcher, real>)
      returns (calls: seq<Call>)
      requires Valid() && q.Valid() && Script(script, q.watchers) && Passed(fired, due)
      modifies q`pendings, q`pendingpri, q.watchers`pending
      ensures Valid() && q.Valid() && Passed(fired, due) && Total(q.pendings) == 0
      ensures calls == Run(old(q.pendings), script)
    {
      calls := q.InvokePending(script);
    }

    /**
     * The pass followed by the calls it leads to. Exactly the timers that were due fire. A watcher that did
     * not fire, had nothing pending and is fed by no callback is not called; a fired timer that no callback
     * feeds or cancels is called once, with exactly EV_TIMER and, if it repeats, what was pending; every
     * fired timer is called at least once unless a callback cancels it before; and of two of one priority,
     * neither pending before, the one due first is called first, unless a callback cancels one of them
     * before either is called.
     */
    method ReifyAndInvoke(script: seq<seq<Op>>) returns (ghost fired: seq<Watcher>, calls: seq<Call>)
      requires Valid() && q.Valid() && rfeeds == [] && Script(script, q.watchers)
      modifies this`timercnt, this`activecnt, this`armed, this`rfeeds, timers,
        watchers`active, watchers`at, q`pendings, q`pendingpri, q.watchers`pending
      ensures Valid() && q.Valid() && Total(q.pendings) == 0 && rfeeds == []
      ensures Passed(fired, old(Deadlines()))
      ensures forall v :: v in old(armed) ==> (v in fired <==> old(v.at) < mnNow)
      ensures calls == CallsAfter(old(q.pendings), fired, old(OneShots()), script)
      ensures CallsDue(calls, script, old(q.pendings), fired, old(OneShots()), q.watchers)
      ensures CallsOrdered(calls, script, fired, old(Deadlines()), old(Idle()))
      ensures forall w :: w in q.watchers && w !in fired && old(w.pending) == 0 && NeverFed(script, |calls|, w) ==>
        NeverCalled(calls, w)
    {
      ghost var q0, due, once, idle := q.pendings, Deadlines(), OneShots(), Idle();
      IdleNotHeld();
      UnpendingOwedNothing();
      fired := TimersReify();
      FiredInOrder(q0, fired, due, once, script, idle);
      AllCallsPay(q0, fired, once, script, q.watchers);
      calls := Invoke(script, fired, due);
    }

    lemma UnpendingOwedNothing()
      requires q.Valid()
      ensures forall w :: w in q.watchers && w.pending == 0 ==> Owes(q.pendings, w) == Nothing
    {
      forall w | w in q.watchers && w.pending == 0 ensures Owes(q.pendings, w) == Nothing {
        q.PendingIsSlot(w);
      }
    }

    /** The active timers with nothing pending. */
    ghost function Idle(): set<Watcher>
      reads this`armed, armed`pending
    {
      set v | v in armed && v.pending == 0
    }

    lemma IdleNotHeld()
      requires Valid() && q.Valid()
      ensures Tidy(q.pendings) && forall v :: v in Idle() ==> !Held(q.pendings, v)
    {
      q.QueuesAreTidy();
      forall v | v in Idle() ensures !Held(q.pendings, v) {
        q.PendingIsSlot(v);
      }
    }
  }
}
