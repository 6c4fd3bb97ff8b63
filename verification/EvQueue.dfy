/**
 * The pending queues of extern/libev/ev.c: one stack of fed events per priority, cancelled in
 * place, drained from the highest priority down while callbacks feed and clear at will.
 */
module EvQueue {
  import opened EvWatcher

  /** A queue slot. A null watcher stands for the loop's own pending_w, whose callback is empty. */
  datatype Anpending = Anpending(w: Watcher?, events: Events)

  type Row = seq<Anpending>
  type Rows = seq<Row>

  /** What a callback may do to the queues: ev_feed_event, and ev_clear_pending or a stop. */
  datatype Op = Feed(w: Watcher, revents: Events) | Clear(w: Watcher)

  datatype Call = Call(w: Watcher, revents: Events)

  // ---- the queues as values

  /** The slot of row that holds w, or |row|. */
  function SlotOf(row: Row, w: Watcher): (i: nat)
    ensures i <= |row|
    ensures i < |row| ==> row[i].w == w
    ensures forall j :: 0 <= j < i ==> row[j].w != w
  {
    if row == [] then 0 else if row[0].w == w then 0 else 1 + SlotOf(row[1..], w)
  }

  /** Every slot sits in the row of its watcher's priority, and a watcher holds one slot at most. */
  ghost predicate Tidy(q: Rows) {
    |q| == NUMPRI &&
    (forall p, i :: 0 <= p < NUMPRI && 0 <= i < |q[p]| && q[p][i].w != null ==> q[p][i].w.pri == p) &&
    (forall p, i, j :: 0 <= p < NUMPRI && 0 <= i < j < |q[p]| && q[p][i].w != null ==> q[p][i].w != q[p][j].w)
  }

  predicate Held(q: Rows, w: Watcher)
    requires |q| == NUMPRI
  {
    SlotOf(q[w.pri], w) < |q[w.pri]|
  }

  function Fed(q: Rows, w: Watcher, revents: Events): (r: Rows)
    requires |q| == NUMPRI
    ensures |r| == NUMPRI
  {
    var row := q[w.pri];
    var i := SlotOf(row, w);
    if i < |row| then q[w.pri := row[i := Anpending(w, row[i].events + revents)]]
    else q[w.pri := row + [Anpending(w, revents)]]
  }

  function Cleared(q: Rows, w: Watcher): (r: Rows)
    requires |q| == NUMPRI
    ensures |r| == NUMPRI
  {
    var row := q[w.pri];
    var i := SlotOf(row, w);
    if i < |row| then q[w.pri := row[i := Anpending(null, row[i].events)]] else q
  }

  function Done(q: Rows, op: Op): (r: Rows)
    requires |q| == NUMPRI
    ensures |r| == NUMPRI
  {
    match op
    case Feed(w, revents) => Fed(q, w, revents)
    case Clear(w) => Cleared(q, w)
  }

  function AllDone(q: Rows, ops: seq<Op>): (r: Rows)
    requires |q| == NUMPRI
    ensures |r| == NUMPRI
    decreases |ops|
  {
    if ops == [] then q else AllDone(Done(q, ops[0]), ops[1..])
  }

  function Total(q: Rows): nat
    requires |q| == NUMPRI
  {
    |q[0]| + |q[1]| + |q[2]| + |q[3]| + |q[4]|
  }

  /** The highest priority with a slot in use, among those below n. */
  function Highest(q: Rows, n: nat): (p: nat)
    requires |q| == NUMPRI && n <= NUMPRI
    requires exists k :: 0 <= k < n && q[k] != []
    ensures p < n && q[p] != []
    ensures forall k :: p < k < n ==> q[k] == []
  {
    if q[n - 1] != [] then n - 1 else Highest(q, n - 1)
  }

  function Popped(q: Rows, p: nat): (r: Rows)
    requires |q| == NUMPRI && p < NUMPRI && q[p] != []
    ensures |r| == NUMPRI && Total(r) == Total(q) - 1
  {
    q[p := q[p][..|q[p]| - 1]]
  }

  /** The operations of the next callback: the script says what each one does, in call order. */
  function Next(script: seq<seq<Op>>): seq<Op> {
    if script == [] then [] else script[0]
  }

  function Rest(script: seq<seq<Op>>): (r: seq<seq<Op>>) {
    if script == [] then [] else script[1..]
  }

  /**
   * The calls a drain must make: always the newest slot of the highest priority pending at that
   * moment, then whatever that callback does.
   */
  function Run(q: Rows, script: seq<seq<Op>>): seq<Call>
    requires |q| == NUMPRI
    decreases |script|, Total(q)
  {
    if Total(q) == 0 then [] else
      var p := Highest(q, NUMPRI);
      var top := q[p][|q[p]| - 1];
      if top.w == null then Run(Popped(q, p), script)
      else [Call(top.w, top.events)] + Run(AllDone(Popped(q, p), Next(script)), Rest(script))
  }

  ghost predicate IdleFrom(q: Rows, n: nat) {
    |q| == NUMPRI && forall k :: n <= k < NUMPRI ==> q[k] == []
  }

  /** p is a priority and nothing of a higher one is pending. */
  ghost predicate IdleAbove(q: Rows, p: nat) {
    p < NUMPRI && IdleFrom(q, p + 1)
  }

  lemma {:induction false} HighestIs(q: Rows, p: nat, n: nat)
    requires IdleAbove(q, p) && q[p] != [] && p < n <= NUMPRI
    ensures Highest(q, n) == p
  {
    if p < n - 1 {
      HighestIs(q, p, n - 1);
    }
  }

  lemma RunUnfolds(q: Rows, script: seq<seq<Op>>, p: nat)
    requires IdleAbove(q, p) && q[p] != []
    ensures var top := q[p][|q[p]| - 1];
      Run(q, script) ==
      if top.w == null then Run(Popped(q, p), script)
      else [Call(top.w, top.events)] + Run(AllDone(Popped(q, p), Next(script)), Rest(script))
  {
    HighestIs(q, p, NUMPRI);
  }

  lemma PoppedIsIdle(q: Rows, p: nat)
    requires IdleAbove(q, p) && q[p] != []
    ensures IdleAbove(Popped(q, p), p)
  {
  }

  /** Every operation of the script is on one of these watchers. */
  ghost predicate Script(script: seq<seq<Op>>, ws: set<Watcher>) {
    forall k, i :: 0 <= k < |script| && 0 <= i < |script[k]| ==> script[k][i].w in ws
  }

  // ---- the queues in place

  /** Each slot in use belongs to a watcher of this priority that records the slot. */
  ghost predicate RowOk(row: Row, p: nat, ws: set<Watcher>)
    reads ws`pending
  {
    forall i :: 0 <= i < |row| && row[i].w != null ==>
      row[i].w in ws && row[i].w.pri == p && row[i].w.pending == i + 1
  }

  /** A pending watcher is found in the slot it records. */
  ghost predicate SlotOk(row: Row, w: Watcher)
    reads w`pending
  {
    w.pending != 0 ==> w.pending <= |row| && row[w.pending - 1].w == w
  }

  class Pending {
    var pendings: Rows
    /** The row being drained; a feed moves it back to the top. */
    var pendingpri: nat
    ghost const watchers: set<Watcher>

    /** The check of verify_watcher, in both directions: `pending` is 1 plus the slot held. */
    ghost predicate Valid()
      reads this`pendings, watchers`pending
    {
      |pendings| == NUMPRI &&
      (forall p :: 0 <= p < NUMPRI ==> RowOk(pendings[p], p, watchers)) &&
      (forall w :: w in watchers ==> SlotOk(pendings[w.pri], w))
    }

    constructor (watchers: set<Watcher>)
      requires forall w :: w in watchers ==> w.pending == 0
      ensures Valid() && this.watchers == watchers && Total(pendings) == 0
    {
      this.watchers := watchers;
      pendings := seq(NUMPRI, _ => []);
      pendingpri := NUMPRI - 1;
    }

    lemma QueuesAreTidy()
      requires Valid()
      ensures Tidy(pendings)
    {
    }

    lemma PendingIsSlot(w: Watcher)
      requires Valid() && w in watchers
      ensures Tidy(pendings)
      ensures w.pending != 0 <==> Held(pendings, w)
      ensures w.pending != 0 ==> SlotOf(pendings[w.pri], w) == w.pending - 1
    {
    }

    method FeedEvent(w: Watcher, revents: Events)
      requires Valid() && w in watchers
      modifies this`pendings, this`pendingpri, w`pending
      ensures Valid()
      ensures pendings == Fed(old(pendings), w, revents) && w.pending != 0
      ensures pendingpri == NUMPRI - 1
    {
      if w.pending != 0 {
        Merge(w, revents);
      } else {
        Append(w, revents);
      }
      pendingpri := NUMPRI - 1;
    }

    method Merge(w: Watcher, revents: Events)
      requires Valid() && w in watchers && w.pending != 0
      modifies this`pendings
      ensures Valid() && pendings == Fed(old(pendings), w, revents)
    {
      PendingIsSlot(w);
      var row, i := pendings[w.pri], w.pending - 1;
      row := row[i := row[i].(events := row[i].events + revents)];
      assert RowOk(row, w.pri, watchers);
      pendings := pendings[w.pri := row];
    }

    method Append(w: Watcher, revents: Events)
      requires Valid() && w in watchers && w.pending == 0
      modifies this`pendings, w`pending
      ensures Valid() && pendings == Fed(old(pendings), w, revents) && w.pending != 0
    {
      PendingIsSlot(w);
      var row := pendings[w.pri];
      w.pending := |row| + 1;
      row := row + [Anpending(w, revents)];
      assert RowOk(row, w.pri, watchers) && SlotOk(row, w);
      pendings := pendings[w.pri := row];
    }

    /** ev_clear_pending; clear_pending is the same without the result. */
    method ClearPending(w: Watcher) returns (events: Events)
      requires Valid() && w in watchers
      modifies this`pendings, w`pending
      ensures Valid()
      ensures pendings == Cleared(old(pendings), w) && w.pending == 0
      ensures events == if Held(old(pendings), w) then old(pendings[w.pri][SlotOf(pendings[w.pri], w)].events) else {}
    {
      PendingIsSlot(w);
      if w.pending == 0 {
        return {};
      }
      events := Dummy(w);
    }

    /** The slot of a pending watcher is handed to the loop's own pending_w. */
    method Dummy(w: Watcher) returns (events: Events)
      requires Valid() && w in watchers && w.pending != 0
      modifies this`pendings, w`pending
      ensures Valid()
      ensures pendings == Cleared(old(pendings), w) && w.pending == 0
      ensures events == old(pendings[w.pri][w.pending - 1].events)
    {
      PendingIsSlot(w);
      var row, i := pendings[w.pri], w.pending - 1;
      events := row[i].events;
      var q := pendings[w.pri := row[i := Anpending(null, events)]];
      assert q == Cleared(pendings, w);
      Withdraw(w);
      pendings := q;
    }

    /** A callback at work. */
    method Perform(ops: seq<Op>)
      requires Valid() && forall i :: 0 <= i < |ops| ==> ops[i].w in watchers
      modifies this`pendings, this`pendingpri, watchers`pending
      ensures Valid()
      ensures pendings == AllDone(old(pendings), ops)
      ensures old(IdleAbove(pendings, pendingpri)) ==> IdleAbove(pendings, pendingpri)
    {
      ghost var goal := AllDone(pendings, ops);
      for i := 0 to |ops|
        invariant Valid() && AllDone(pendings, ops[i..]) == goal
        invariant old(IdleAbove(pendings, pendingpri)) ==> IdleAbove(pendings, pendingpri)
      {
        assert ops[i..][0] == ops[i] && ops[i..][1..] == ops[i + 1..];
        match ops[i]
        case Feed(w, revents) => FeedEvent(w, revents);
        case Clear(w) => var _ := ClearPending(w);
      }
    }

    /** What Valid says, of queues that may be about to replace these. */
    ghost predicate Consistent(q: Rows)
      reads watchers`pending
    {
      |q| == NUMPRI &&
      (forall p :: 0 <= p < NUMPRI ==> RowOk(q[p], p, watchers)) &&
      (forall w :: w in watchers ==> SlotOk(q[w.pri], w))
    }

    /** The watcher in the newest slot of row p is no longer pending. */
    method Release(p: nat, w: Watcher)
      requires Valid() && p < NUMPRI && pendings[p] != [] && pendings[p][|pendings[p]| - 1].w == w
      modifies w`pending
      ensures Consistent(Popped(pendings, p))
    {
      assert RowOk(pendings[p], p, watchers);
      assert forall v :: v in watchers && v != w ==> SlotOk(Popped(pendings, p)[v.pri], v);
      w.pending := 0;
    }

    /** A pending watcher is no longer pending; the slot it held belongs to no watcher. */
    method Withdraw(w: Watcher)
      requires Valid() && w in watchers && w.pending != 0
      modifies w`pending
      ensures w.pending == 0 && Consistent(Cleared(pendings, w))
    {
      PendingIsSlot(w);
      ghost var q := Cleared(pendings, w);
      w.pending := 0;
      assert RowOk(q[w.pri], w.pri, watchers);
      assert forall v :: v in watchers && v != w ==> SlotOk(q[v.pri], v);
    }

    lemma NullReleases(p: nat)
      requires Valid() && p < NUMPRI && pendings[p] != [] && pendings[p][|pendings[p]| - 1].w == null
      ensures Consistent(Popped(pendings, p))
    {
      assert forall v :: v in watchers ==> SlotOk(pendings[v.pri], v);
    }

    /** The two statements that take the newest slot of row p off the queue. */
    method Pop(p: nat) returns (top: Anpending)
      requires Valid() && p < NUMPRI && pendings[p] != []
      modifies this`pendings, watchers`pending
      ensures Valid()
      ensures top == old(pendings[p][|pendings[p]| - 1]) && (top.w != null ==> top.w in watchers)
      ensures pendings == Popped(old(pendings), p)
    {
      var row := pendings[p];
      top := row[|row| - 1];
      var q := pendings[p := row[..|row| - 1]];
      assert RowOk(row, p, watchers) && q == Popped(pendings, p);
      if top.w != null {
        Release(p, top.w);
      } else {
        NullReleases(p);
      }
      pendings := q;
    }

    /** One turn of the inner loop of ev_invoke_pending: pop, then run the callback. */
    method Serve(script: seq<seq<Op>>) returns (calls: seq<Call>, rest: seq<seq<Op>>)
      requires Valid() && Script(script, watchers)
      requires IdleAbove(pendings, pendingpri) && pendings[pendingpri] != []
      modifies this`pendings, this`pendingpri, watchers`pending
      ensures Valid() && Script(rest, watchers)
      ensures calls + Run(pendings, rest) == Run(old(pendings), script)
      ensures IdleAbove(pendings, pendingpri)
      ensures |rest| < |script| || (rest == script && Total(pendings) < Total(old(pendings)))
    {
      RunUnfolds(pendings, script, pendingpri);
      PoppedIsIdle(pendings, pendingpri);
      var top := Pop(pendingpri);
      if top.w == null {
        assert [] + Run(pendings, script) == Run(pendings, script);
        return [], script;
      }
      Perform(Next(script));
      calls, rest := [Call(top.w, top.events)], Rest(script);
    }

    /** The inner loop of ev_invoke_pending: until the row under the cursor is empty. */
    method ServeAll(script: seq<seq<Op>>) returns (calls: seq<Call>, rest: seq<seq<Op>>)
      requires Valid() && Script(script, watchers) && IdleAbove(pendings, pendingpri)
      modifies this`pendings, this`pendingpri, watchers`pending
      ensures Valid() && Script(rest, watchers)
      ensures calls + Run(pendings, rest) == Run(old(pendings), script)
      ensures IdleAbove(pendings, pendingpri) && pendings[pendingpri] == []
      ensures |rest| < |script| || (rest == script &&
        (Total(pendings) < Total(old(pendings)) ||
          (Total(pendings) == Total(old(pendings)) && pendingpri == old(pendingpri))))
    {
      calls, rest := [], script;
      while pendings[pendingpri] != []
        invariant Valid() && Script(rest, watchers) && IdleAbove(pendings, pendingpri)
        invariant calls + Run(pendings, rest) == Run(old(pendings), script)
        invariant |rest| < |script| || (rest == script &&
          (Total(pendings) < Total(old(pendings)) ||
            (Total(pendings) == Total(old(pendings)) && pendingpri == old(pendingpri))))
        decreases |rest|, Total(pendings)
      {
        var more;
        more, rest := Serve(rest);
        calls := calls + more;
      }
    }

    /**
     * ev_invoke_pending. The cursor `pendingpri` only ever moves down by one or back to the top,
     * and still the calls are those of Run; afterwards nothing is pending.
     */
    method InvokePending(script: seq<seq<Op>>) returns (calls: seq<Call>)
      requires Valid() && Script(script, watchers)
      modifies this`pendings, this`pendingpri, watchers`pending
      ensures Valid()
      ensures calls == Run(old(pendings), script)
      ensures Total(pendings) == 0 && forall w :: w in watchers ==> w.pending == 0
    {
      var rest := script;
      calls := [];
      pendingpri := NUMPRI;
      while pendingpri > 0
        invariant Valid() && Script(rest, watchers)
        invariant pendingpri <= NUMPRI && IdleFrom(pendings, pendingpri)
        invariant calls + Run(pendings, rest) == Run(old(pendings), script)
        decreases |rest|, Total(pendings), pendingpri
      {
        pendingpri := pendingpri - 1;
        var more;
        more, rest := ServeAll(rest);
        calls := calls + more;
      }
      NothingPending(rest);
    }

    lemma NothingPending(script: seq<seq<Op>>)
      requires Valid() && IdleFrom(pendings, 0)
      ensures Total(pendings) == 0 && Run(pendings, script) == []
      ensures forall w :: w in watchers ==> w.pending == 0
    {
      assert forall w :: w in watchers ==> SlotOk(pendings[w.pri], w);
    }
  }
}
