/**
 * What the pending queues buy a watcher, over every run of callbacks: events fed before a call
 * arrive in that one call, a cleared watcher stays silent, and slots of one priority are served
 * newest first.
 */
module EvDelivery {
  import opened EvWatcher
  import opened EvQueue

  datatype Owed = Nothing | Owing(events: Events)

  /** What the queues hold for w. */
  function Owes(q: Rows, w: Watcher): Owed
    requires |q| == NUMPRI
  {
    var i := SlotOf(q[w.pri], w);
    if i < |q[w.pri]| then Owing(q[w.pri][i].events) else Nothing
  }

  /** A watcher's own view of one operation: a feed adds events, a clear forgets them. */
  function After(o: Owed, op: Op, w: Watcher): Owed {
    if op.w != w then o
    else match op
      case Feed(_, revents) => Owing(if o.Nothing? then revents else o.events + revents)
      case Clear(_) => Nothing
  }

  function AfterOps(o: Owed, ops: seq<Op>, w: Watcher): Owed
    decreases |ops|
  {
    if ops == [] then o else AfterOps(After(o, ops[0], w), ops[1..], w)
  }

  /** ... and of the first n callbacks of a script. */
  function AfterCallbacks(o: Owed, script: seq<seq<Op>>, n: nat, w: Watcher): Owed
    decreases n
  {
    if n == 0 then o else AfterCallbacks(AfterOps(o, Next(script), w), Rest(script), n - 1, w)
  }

  /** The index of the first call to w, or the number of calls. */
  function FirstCall(calls: seq<Call>, w: Watcher): (k: nat)
    ensures k <= |calls|
    ensures k < |calls| ==> calls[k].w == w
    ensures forall j :: 0 <= j < k ==> calls[j].w != w
  {
    if calls == [] || calls[0].w == w then 0 else 1 + FirstCall(calls[1..], w)
  }

  lemma DoneIsTidy(q: Rows, op: Op)
    requires Tidy(q)
    ensures Tidy(Done(q, op))
  {
    var row := Done(q, op)[op.w.pri];
    assert forall i, j :: 0 <= i < j < |row| && row[i].w != null ==> row[i].w != row[j].w;
  }

  /** An operation on another watcher changes nothing that is owed to w... */
  lemma OtherIsUntouched(q: Rows, op: Op, w: Watcher)
    requires Tidy(q) && op.w != w
    ensures Owes(Done(q, op), w) == Owes(q, w)
  {
    var row, row' := q[w.pri], Done(q, op)[w.pri];
    var i, i' := SlotOf(row, w), SlotOf(row', w);
    if i < |row| {
      assert row'[i] == row[i];
      assert i' <= i && row[i'].w == w;
    }
  }

  /** ... and one on w does what w sees. */
  lemma OwnIsDone(q: Rows, op: Op)
    requires Tidy(q)
    ensures Owes(Done(q, op), op.w) == After(Owes(q, op.w), op, op.w)
  {
    var w := op.w;
    var row, row' := q[w.pri], Done(q, op)[w.pri];
    var i, i' := SlotOf(row, w), SlotOf(row', w);
    if op.Feed? {
      assert row'[i].w == w;
      assert i' == i;
    } else if i < |row| {
      assert forall j :: 0 <= j < |row| && j != i ==> row[j].w != w;
      assert forall j :: 0 <= j < |row'| ==> row'[j].w != w;
    }
  }

  lemma DoneIsAfter(q: Rows, op: Op, w: Watcher)
    requires Tidy(q)
    ensures Owes(Done(q, op), w) == After(Owes(q, w), op, w)
  {
    if op.w == w {
      OwnIsDone(q, op);
    } else {
      OtherIsUntouched(q, op, w);
    }
  }

  lemma {:induction false} AllDoneIsAfter(q: Rows, ops: seq<Op>, w: Watcher)
    requires Tidy(q)
    ensures Tidy(AllDone(q, ops)) && Owes(AllDone(q, ops), w) == AfterOps(Owes(q, w), ops, w)
    decreases |ops|
  {
    if ops != [] {
      DoneIsTidy(q, ops[0]);
      DoneIsAfter(q, ops[0], w);
      AllDoneIsAfter(Done(q, ops[0]), ops[1..], w);
    }
  }

  /** Where a watcher is found once the newest slot of its row is gone. */
  lemma FrontSlot(row: Row, w: Watcher)
    requires row != [] && (row[|row| - 1].w == w ==> forall i :: 0 <= i < |row| - 1 ==> row[i].w != w)
    ensures var n, i := |row| - 1, SlotOf(row, w);
      if row[n].w == w then i == n == SlotOf(row[..n], w)
      else if i == |row| then SlotOf(row[..n], w) == n
      else SlotOf(row[..n], w) == i < n
  {
    var n, i := |row| - 1, SlotOf(row, w);
    var front := row[..n];
    assert forall j :: 0 <= j < n ==> front[j] == row[j];
    if i < n {
      assert front[i].w == w;
    } else if i == n {
      assert row[n].w == w;
    }
  }

  lemma PoppedStaysTidy(q: Rows, p: nat)
    requires Tidy(q) && p < NUMPRI && q[p] != []
    ensures Tidy(Popped(q, p))
  {
    var row := q[p][..|q[p]| - 1];
    assert forall i :: 0 <= i < |row| ==> row[i] == q[p][i];
  }

  lemma PoppedIsTidy(q: Rows, p: nat, w: Watcher)
    requires Tidy(q) && p < NUMPRI && q[p] != []
    ensures Tidy(Popped(q, p))
    ensures var top := q[p][|q[p]| - 1];
      if top.w == w then Owes(Popped(q, p), w) == Nothing && Owes(q, w) == Owing(top.events)
      else Owes(Popped(q, p), w) == Owes(q, w)
  {
    PoppedStaysTidy(q, p);
    assert q[p][|q[p]| - 1].w == w ==> w.pri == p;
    if w.pri == p {
      FrontSlot(q[p], w);
    }
  }

  /**
   * What is owed to w when call k of a run is about to be made: a call to w pays all of it, and the
   * callbacks add to it and forget it.
   */
  function Balance(o: Owed, calls: seq<Call>, script: seq<seq<Op>>, k: nat, w: Watcher): Owed
    requires k <= |calls|
    decreases k
  {
    if k == 0 then o else
      var paid := if calls[0].w == w then Nothing else o;
      Balance(AfterOps(paid, Next(script), w), calls[1..], Rest(script), k - 1, w)
  }

  /** A call to w is paid what is owed at that moment, and nothing is owed in the end. */
  predicate Settles(o: Owed, calls: seq<Call>, script: seq<seq<Op>>, k: nat, w: Watcher)
    requires k <= |calls|
  {
    var owed := Balance(o, calls, script, k, w);
    if k == |calls| then owed == Nothing else calls[k].w == w ==> owed == Owing(calls[k].revents)
  }

  /** The queues once the newest slot of the highest priority is off and its callback has returned. */
  function Served(q: Rows, script: seq<seq<Op>>): (r: Rows)
    requires |q| == NUMPRI && Total(q) != 0
    ensures |r| == NUMPRI
  {
    AllDone(Popped(q, Highest(q, NUMPRI)), Next(script))
  }

  /** The slot a run serves next. */
  function Top(q: Rows): Anpending
    requires |q| == NUMPRI && Total(q) != 0
  {
    var p := Highest(q, NUMPRI);
    q[p][|q[p]| - 1]
  }

  /** A run that starts with a slot of no watcher. */
  lemma NullStarts(q: Rows, script: seq<seq<Op>>, w: Watcher)
    requires Tidy(q) && Total(q) != 0 && Top(q).w == null
    ensures var q' := Popped(q, Highest(q, NUMPRI));
      Tidy(q') && Run(q, script) == Run(q', script) && Owes(q', w) == Owes(q, w)
  {
    PoppedIsTidy(q, Highest(q, NUMPRI), w);
  }

  /** A run that starts with a call, and what is owed to w once its callback has returned. */
  lemma CallStarts(q: Rows, script: seq<seq<Op>>, w: Watcher)
    requires Tidy(q) && Total(q) != 0 && Top(q).w != null
    ensures var q', top := Served(q, script), Top(q);
      Tidy(q') && Run(q, script) == [Call(top.w, top.events)] + Run(q', Rest(script)) &&
      (top.w == w ==> Owes(q, w) == Owing(top.events)) &&
      Owes(q', w) == AfterOps(if top.w == w then Nothing else Owes(q, w), Next(script), w)
  {
    var p := Highest(q, NUMPRI);
    PoppedIsTidy(q, p, w);
    AllDoneIsAfter(Popped(q, p), Next(script), w);
  }

  /** A served slot brings a run nearer to its end. */
  lemma ServedIsLess(q: Rows, script: seq<seq<Op>>)
    requires |q| == NUMPRI && Total(q) != 0
    ensures |Rest(script)| < |script| || (script == [] && Total(Served(q, script)) < Total(q))
    ensures Total(Popped(q, Highest(q, NUMPRI))) < Total(q)
  {
    assert Next(script) == [] ==> Served(q, script) == Popped(q, Highest(q, NUMPRI));
  }

  lemma SettlesCall(o: Owed, call: Call, calls: seq<Call>, script: seq<seq<Op>>, k: nat, w: Watcher)
    requires k <= |calls| + 1 && (call.w == w ==> o == Owing(call.revents))
    requires k > 0 ==>
      Settles(AfterOps(if call.w == w then Nothing else o, Next(script), w), calls, Rest(script), k - 1, w)
    ensures Settles(o, [call] + calls, script, k, w)
  {
    assert ([call] + calls)[1..] == calls;
  }

  lemma CallSettles(q: Rows, script: seq<seq<Op>>, k: nat, w: Watcher)
    requires Tidy(q) && Total(q) != 0 && Top(q).w != null && k <= 1 + |Run(Served(q, script), Rest(script))|
    requires k > 0 ==>
      Settles(Owes(Served(q, script), w), Run(Served(q, script), Rest(script)), Rest(script), k - 1, w)
    ensures k <= |Run(q, script)| && Settles(Owes(q, w), Run(q, script), script, k, w)
  {
    CallStarts(q, script, w);
    SettlesCall(Owes(q, w), Call(Top(q).w, Top(q).events), Run(Served(q, script), Rest(script)), script, k, w);
  }

  lemma OneCallLess(q: Rows, script: seq<seq<Op>>, w: Watcher)
    requires Tidy(q) && Total(q) != 0 && Top(q).w != null
    ensures Tidy(Served(q, script)) && |Run(q, script)| == 1 + |Run(Served(q, script), Rest(script))|
  {
    CallStarts(q, script, w);
  }

  lemma NothingOwed(q: Rows, script: seq<seq<Op>>, w: Watcher)
    requires |q| == NUMPRI && Total(q) == 0
    ensures Run(q, script) == [] && Owes(q, w) == Nothing
  {
    assert q[w.pri] == [];
  }

  /**
   * Every call to w carries exactly the events fed to it since the later of its previous call and its
   * last clear, OR-ed into one; and when the run is over nothing is owed.
   */
  lemma {:induction false} EveryCallDelivers(q: Rows, script: seq<seq<Op>>, k: nat, w: Watcher)
    requires Tidy(q) && k <= |Run(q, script)|
    ensures Settles(Owes(q, w), Run(q, script), script, k, w)
    decreases |script|, Total(q)
  {
    if Total(q) == 0 {
      NothingOwed(q, script, w);
    } else if Top(q).w == null {
      NullStarts(q, script, w);
      ServedIsLess(q, script);
      EveryCallDelivers(Popped(q, Highest(q, NUMPRI)), script, k, w);
    } else {
      OneCallLess(q, script, w);
      ServedIsLess(q, script);
      if k > 0 {
        EveryCallDelivers(Served(q, script), Rest(script), k - 1, w);
      }
      CallSettles(q, script, k, w);
    }
  }

  /** Before the first call to w only the callbacks count. */
  lemma {:induction false} BalanceIsAfter(o: Owed, calls: seq<Call>, script: seq<seq<Op>>, k: nat, w: Watcher)
    requires k <= |calls| && forall j :: 0 <= j < k ==> calls[j].w != w
    ensures Balance(o, calls, script, k, w) == AfterCallbacks(o, script, k, w)
    decreases k
  {
    if k > 0 {
      BalanceIsAfter(AfterOps(o, Next(script), w), calls[1..], Rest(script), k - 1, w);
    }
  }

  /**
   * The first call to w, if there is one, carries exactly the events fed to it since it was last
   * cleared. And w is never called only if nothing is owed to it in the end.
   */
  lemma FirstCallDelivers(q: Rows, script: seq<seq<Op>>, w: Watcher)
    requires Tidy(q)
    ensures var calls := Run(q, script);
      var k := FirstCall(calls, w);
      AfterCallbacks(Owes(q, w), script, k, w) ==
        if k < |calls| then Owing(calls[k].revents) else Nothing
  {
    var k := FirstCall(Run(q, script), w);
    EveryCallDelivers(q, script, k, w);
    BalanceIsAfter(Owes(q, w), Run(q, script), script, k, w);
  }

  lemma FirstCallCons(call: Call, calls: seq<Call>, w: Watcher)
    ensures FirstCall([call] + calls, w) == if call.w == w then 0 else 1 + FirstCall(calls, w)
  {
    assert ([call] + calls)[1..] == calls;
  }

  // ---- what a call carries, bit by bit

  ghost predicate Has(o: Owed, b: nat) {
    o.Owing? && b in o.events
  }

  /** Bit b comes to w from operation i of a list: it is fed there, and w is not cleared behind it. */
  ghost predicate FedBy(ops: seq<Op>, i: nat, w: Watcher, b: nat) {
    i < |ops| && ops[i].Feed? && ops[i].w == w && b in ops[i].revents && forall j :: i < j < |ops| ==> ops[j] != Clear(w)
  }

  ghost predicate FedBySome(ops: seq<Op>, w: Watcher, b: nat) {
    exists i :: FedBy(ops, i, w, b)
  }

  ghost predicate Unclear(ops: seq<Op>, w: Watcher) {
    forall j :: 0 <= j < |ops| ==> ops[j] != Clear(w)
  }

  lemma FedByLater(ops: seq<Op>, i: nat, w: Watcher, b: nat)
    requires ops != []
    ensures FedBy(ops, i + 1, w, b) <==> FedBy(ops[1..], i, w, b)
  {
    if FedBy(ops[1..], i, w, b) {
      assert forall j :: i + 1 < j < |ops| ==> ops[j] == ops[1..][j - 1];
    }
  }

  lemma UnclearLater(ops: seq<Op>, w: Watcher)
    requires ops != []
    ensures Unclear(ops, w) <==> ops[0] != Clear(w) && Unclear(ops[1..], w)
  {
    assert forall j :: 0 < j < |ops| ==> ops[j] == ops[1..][j - 1];
  }

  /** A bit is owed after a list of operations exactly if one of them left it, or it was owed and none cleared it. */
  lemma {:induction false} AfterOpsCollects(o: Owed, ops: seq<Op>, w: Watcher, b: nat)
    ensures Has(AfterOps(o, ops, w), b) <==> FedBySome(ops, w, b) || (Has(o, b) && Unclear(ops, w))
    decreases |ops|
  {
    if ops != [] {
      AfterOpsCollects(After(o, ops[0], w), ops[1..], w, b);
      UnclearLater(ops, w);
      forall i: nat ensures FedBy(ops, i + 1, w, b) <==> FedBy(ops[1..], i, w, b) {
        FedByLater(ops, i, w, b);
      }
      assert FedBy(ops, 0, w, b) <==> ops[0].Feed? && ops[0].w == w && b in ops[0].revents && Unclear(ops[1..], w);
      if i: nat :| FedBy(ops, i, w, b) {
        assert i == 0 || FedBy(ops[1..], i - 1, w, b);
      }
      if i: nat :| FedBy(ops[1..], i, w, b) {
        assert FedBy(ops, i + 1, w, b);
      }
    }
  }

  /** What callback k does. */
  function At(script: seq<seq<Op>>, k: nat): seq<Op> {
    if k < |script| then script[k] else []
  }

  /** What is owed when call k + 1 is about to be made: call k has paid, and its callback has run. */
  lemma {:induction false} BalanceStep(o: Owed, calls: seq<Call>, script: seq<seq<Op>>, k: nat, w: Watcher)
    requires k < |calls|
    ensures Balance(o, calls, script, k + 1, w) ==
      AfterOps(if calls[k].w == w then Nothing else Balance(o, calls, script, k, w), At(script, k), w)
    decreases k
  {
    if k > 0 {
      var paid := if calls[0].w == w then Nothing else o;
      BalanceStep(AfterOps(paid, Next(script), w), calls[1..], Rest(script), k - 1, w);
      assert At(Rest(script), k - 1) == At(script, k) && calls[1..][k - 1] == calls[k];
    }
  }

  /** From call a on, up to call k, there is no call to w and no callback that clears it. */
  ghost predicate Quiet(calls: seq<Call>, script: seq<seq<Op>>, a: nat, k: nat, w: Watcher) {
    forall j :: a <= j < k && j < |calls| ==> calls[j].w != w && Unclear(At(script, j), w)
  }

  /** Bit b comes to call k from callback m, which feeds it to w, and all is quiet in between. */
  ghost predicate FedIn(calls: seq<Call>, script: seq<seq<Op>>, m: nat, k: nat, w: Watcher, b: nat) {
    m < k && FedBySome(At(script, m), w, b) && Quiet(calls, script, m + 1, k, w)
  }

  ghost predicate FedInSome(calls: seq<Call>, script: seq<seq<Op>>, k: nat, w: Watcher, b: nat) {
    exists m :: FedIn(calls, script, m, k, w, b)
  }

  lemma FedInNext(calls: seq<Call>, script: seq<seq<Op>>, k: nat, w: Watcher, b: nat)
    requires k < |calls|
    ensures FedInSome(calls, script, k + 1, w, b) <==>
      FedBySome(At(script, k), w, b) ||
      (FedInSome(calls, script, k, w, b) && calls[k].w != w && Unclear(At(script, k), w))
  {
    var n := k + 1;
    if m: nat :| FedIn(calls, script, m, n, w, b) {
      assert m == k || FedIn(calls, script, m, k, w, b);
    }
    if FedBySome(At(script, k), w, b) {
      assert FedIn(calls, script, k, n, w, b);
    }
    if m: nat :| FedIn(calls, script, m, k, w, b) {
      assert calls[k].w != w && Unclear(At(script, k), w) ==> FedIn(calls, script, m, n, w, b);
    }
  }

  lemma QuietNext(calls: seq<Call>, script: seq<seq<Op>>, k: nat, w: Watcher)
    requires k < |calls|
    ensures Quiet(calls, script, 0, k + 1, w) <==>
      Quiet(calls, script, 0, k, w) && calls[k].w != w && Unclear(At(script, k), w)
  {
  }

  lemma {:induction false} BalanceCollects(o: Owed, calls: seq<Call>, script: seq<seq<Op>>, k: nat, w: Watcher, b: nat)
    requires k <= |calls|
    ensures Has(Balance(o, calls, script, k, w), b) <==>
      FedInSome(calls, script, k, w, b) || (Has(o, b) && Quiet(calls, script, 0, k, w))
    decreases k
  {
    if k > 0 {
      var i := k - 1;
      var before := Balance(o, calls, script, i, w);
      BalanceStep(o, calls, script, i, w);
      BalanceCollects(o, calls, script, i, w, b);
      AfterOpsCollects(if calls[i].w == w then Nothing else before, At(script, i), w, b);
      FedInNext(calls, script, i, w, b);
      QuietNext(calls, script, i, w);
    }
  }

  /**
   * Call k carries a bit to its watcher exactly if a callback before it fed that bit, or it was pending at
   * the start, and since then the watcher was neither called nor cleared.
   */
  lemma CallCarries(q: Rows, script: seq<seq<Op>>, k: nat, w: Watcher, b: nat)
    requires Tidy(q) && k < |Run(q, script)| && Run(q, script)[k].w == w
    ensures var calls := Run(q, script);
      b in calls[k].revents <==>
      FedInSome(calls, script, k, w, b) || (Has(Owes(q, w), b) && Quiet(calls, script, 0, k, w))
  {
    EveryCallDelivers(q, script, k, w);
    BalanceCollects(Owes(q, w), Run(q, script), script, k, w, b);
  }

  // ---- silence

  ghost predicate NeverFed(script: seq<seq<Op>>, n: nat, w: Watcher) {
    forall k, i :: 0 <= k < n && k < |script| && 0 <= i < |script[k]| ==> script[k][i].w != w || script[k][i].Clear?
  }

  lemma {:induction false} UnfedOpsOweNothing(ops: seq<Op>, w: Watcher)
    requires forall i :: 0 <= i < |ops| ==> ops[i].w != w || ops[i].Clear?
    ensures AfterOps(Nothing, ops, w) == Nothing
    decreases |ops|
  {
    if ops != [] {
      UnfedOpsOweNothing(ops[1..], w);
    }
  }

  lemma {:induction false} UnfedOwesNothing(script: seq<seq<Op>>, n: nat, w: Watcher)
    requires NeverFed(script, n, w)
    ensures AfterCallbacks(Nothing, script, n, w) == Nothing
    decreases n
  {
    if n != 0 {
      UnfedOpsOweNothing(Next(script), w);
      UnfedOwesNothing(Rest(script), n - 1, w);
    }
  }

  /** A watcher that holds no slot is not called before a callback feeds it. */
  lemma SilentUntilFed(q: Rows, script: seq<seq<Op>>, n: nat, w: Watcher)
    requires Tidy(q) && !Held(q, w) && NeverFed(script, n, w)
    ensures forall j :: 0 <= j < |Run(q, script)| && j <= n ==> Run(q, script)[j].w != w
  {
    var k := FirstCall(Run(q, script), w);
    FirstCallDelivers(q, script, w);
    if k <= n {
      UnfedOwesNothing(script, k, w);
    }
  }

  lemma {:induction false} ClearedOpsOweNothing(o: Owed, ops: seq<Op>, i: nat, w: Watcher)
    requires i < |ops| && ops[i] == Clear(w)
    requires forall j :: i < j < |ops| ==> ops[j].w != w || ops[j].Clear?
    ensures AfterOps(o, ops, w) == Nothing
    decreases i
  {
    if i == 0 {
      UnfedOpsOweNothing(ops[1..], w);
    } else {
      ClearedOpsOweNothing(After(o, ops[0], w), ops[1..], i - 1, w);
    }
  }

  /**
   * No call after stop: when callback m of a run clears w and neither it nor any callback up to n
   * feeds w afterwards, no call between m and n + 1 is to w, whatever was queued before.
   */
  lemma {:induction false} ClearedStaysSilent(q: Rows, script: seq<seq<Op>>, m: nat, i: nat, n: nat, w: Watcher)
    requires Tidy(q) && m < |script| && m < |Run(q, script)| && m <= n
    requires i < |script[m]| && script[m][i] == Clear(w)
    requires forall j :: i < j < |script[m]| ==> script[m][j].w != w || script[m][j].Clear?
    requires NeverFed(script[m + 1..], n - m, w)
    ensures forall j :: m < j <= n + 1 && j < |Run(q, script)| ==> Run(q, script)[j].w != w
    decreases m, Total(q)
  {
    var p := Highest(q, NUMPRI);
    var top := q[p][|q[p]| - 1];
    PoppedIsTidy(q, p, w);
    if top.w == null {
      ClearedStaysSilent(Popped(q, p), script, m, i, n, w);
    } else {
      var q' := AllDone(Popped(q, p), script[0]);
      AllDoneIsAfter(Popped(q, p), script[0], w);
      assert Run(q, script)[1..] == Run(q', script[1..]);
      if m == 0 {
        ClearedOpsOweNothing(Owes(Popped(q, p), w), script[0], i, w);
        SilentUntilFed(q', script[1..], n, w);
      } else {
        assert script[1..][m..] == script[m + 1..];
        ClearedStaysSilent(q', script[1..], m - 1, i, n - 1, w);
      }
    }
  }

  // ---- order within one priority

  /** None of the first n callbacks cancels w. */
  ghost predicate Spared(script: seq<seq<Op>>, n: nat, w: Watcher) {
    forall k, i :: 0 <= k < n && k < |script| && 0 <= i < |script[k]| ==> script[k][i] != Clear(w)
  }

  lemma SparedNext(script: seq<seq<Op>>, n: nat, w: Watcher)
    requires n > 0 && Spared(script, n, w)
    ensures forall i :: 0 <= i < |Next(script)| ==> Next(script)[i] != Clear(w)
    ensures Spared(Rest(script), n - 1, w)
  {
    assert forall k :: 0 <= k < |Rest(script)| ==> Rest(script)[k] == script[k + 1];
  }

  /** The index of the first call to u or v, or the number of calls. */
  function EitherCall(calls: seq<Call>, u: Watcher, v: Watcher): nat {
    var i, j := FirstCall(calls, u), FirstCall(calls, v);
    if i < j then i else j
  }

  /** u is called, and before v, unless a callback that runs before both calls cancels one of the two. */
  ghost predicate InOrder(calls: seq<Call>, script: seq<seq<Op>>, u: Watcher, v: Watcher) {
    var n := EitherCall(calls, u, v);
    Spared(script, n, u) && Spared(script, n, v) ==> FirstCall(calls, u) < FirstCall(calls, v)
  }

  /** w is called, and its first call carries these events, unless a callback before it cancels w. */
  ghost predicate Reached(calls: seq<Call>, script: seq<seq<Op>>, w: Watcher, events: Events) {
    var n := FirstCall(calls, w);
    Spared(script, n, w) ==> n < |calls| && events <= calls[n].revents
  }

  lemma {:induction false} StaysPut(q: Rows, ops: seq<Op>, w: Watcher)
    requires Tidy(q) && Held(q, w) && forall i :: 0 <= i < |ops| ==> ops[i] != Clear(w)
    ensures Held(AllDone(q, ops), w) && SlotOf(AllDone(q, ops)[w.pri], w) == SlotOf(q[w.pri], w)
    decreases |ops|
  {
    if ops != [] {
      var q': Rows := Done(q, ops[0]);
      var i := SlotOf(q[w.pri], w);
      DoneIsTidy(q, ops[0]);
      assert q'[w.pri][i].w == w;
      StaysPut(q', ops[1..], w);
    }
  }

  /** Popping another watcher's slot leaves w where it is. */
  lemma PopLeaves(q: Rows, p: nat, w: Watcher)
    requires Tidy(q) && p < NUMPRI && q[p] != [] && Held(q, w) && q[p][|q[p]| - 1].w != w
    ensures Held(Popped(q, p), w) && SlotOf(Popped(q, p)[w.pri], w) == SlotOf(q[w.pri], w)
  {
    var i := SlotOf(q[w.pri], w);
    assert w.pri == p ==> i < |q[p]| - 1;
    assert Popped(q, p)[w.pri][i].w == w;
  }

  /** u is in a newer slot than v, of the same priority. */
  ghost predicate Newer(q: Rows, u: Watcher, v: Watcher) {
    Tidy(q) && u.pri == v.pri && Held(q, u) && Held(q, v) && SlotOf(q[v.pri], v) < SlotOf(q[u.pri], u)
  }

  lemma StaysNewer(q: Rows, ops: seq<Op>, u: Watcher, v: Watcher)
    requires Newer(q, u, v)
    requires forall i :: 0 <= i < |ops| ==> ops[i] != Clear(u) && ops[i] != Clear(v)
    ensures Newer(AllDone(q, ops), u, v)
  {
    AllDoneIsAfter(q, ops, u);
    StaysPut(q, ops, u);
    StaysPut(q, ops, v);
  }

  lemma PopKeepsNewer(q: Rows, p: nat, u: Watcher, v: Watcher)
    requires Newer(q, u, v) && p < NUMPRI && q[p] != []
    ensures q[p][|q[p]| - 1].w != v && Held(Popped(q, p), v) && Tidy(Popped(q, p))
    ensures q[p][|q[p]| - 1].w != u ==> Newer(Popped(q, p), u, v)
  {
    PoppedIsTidy(q, p, u);
    PopLeaves(q, p, v);
    if q[p][|q[p]| - 1].w != u {
      PopLeaves(q, p, u);
    }
  }

  /** A run that starts with the call of the newer slot. */
  lemma NewerIsServed(q: Rows, script: seq<seq<Op>>, u: Watcher, v: Watcher)
    requires Newer(q, u, v) && Total(q) != 0 && Top(q).w == u
    ensures FirstCall(Run(q, script), u) == 0 < FirstCall(Run(q, script), v)
  {
    var q' := Served(q, script);
    CallStarts(q, script, u);
    PopKeepsNewer(q, Highest(q, NUMPRI), u, v);
    FirstCallCons(Call(u, Top(q).events), Run(q', Rest(script)), u);
    FirstCallCons(Call(u, Top(q).events), Run(q', Rest(script)), v);
  }

  /** A run that starts with the call of another watcher. */
  lemma OtherIsServed(q: Rows, script: seq<seq<Op>>, u: Watcher, v: Watcher)
    requires Newer(q, u, v) && Total(q) != 0 && Top(q).w != null && Top(q).w != u
    ensures var calls, calls' := Run(q, script), Run(Served(q, script), Rest(script));
      FirstCall(calls, u) == 1 + FirstCall(calls', u) && FirstCall(calls, v) == 1 + FirstCall(calls', v)
  {
    var q' := Served(q, script);
    CallStarts(q, script, u);
    PopKeepsNewer(q, Highest(q, NUMPRI), u, v);
    FirstCallCons(Call(Top(q).w, Top(q).events), Run(q', Rest(script)), u);
    FirstCallCons(Call(Top(q).w, Top(q).events), Run(q', Rest(script)), v);
  }

  /** The two stay in order while neither is cancelled. */
  lemma OtherKeepsNewer(q: Rows, script: seq<seq<Op>>, n: nat, u: Watcher, v: Watcher)
    requires Newer(q, u, v) && Total(q) != 0 && Top(q).w != null && Top(q).w != u
    requires n > 0 && Spared(script, n, u) && Spared(script, n, v)
    ensures Newer(Served(q, script), u, v) && Spared(Rest(script), n - 1, u) && Spared(Rest(script), n - 1, v)
  {
    PopKeepsNewer(q, Highest(q, NUMPRI), u, v);
    SparedNext(script, n, u);
    SparedNext(script, n, v);
    StaysNewer(Popped(q, Highest(q, NUMPRI)), Next(script), u, v);
  }

  lemma NewerIsPending(q: Rows, u: Watcher, v: Watcher)
    requires Newer(q, u, v)
    ensures Total(q) != 0
  {
    assert q[u.pri] != [];
  }

  /** A run that starts with a slot of no watcher leaves the two in their slots. */
  lemma NoneIsServed(q: Rows, script: seq<seq<Op>>, u: Watcher, v: Watcher)
    requires Newer(q, u, v) && Total(q) != 0 && Top(q).w == null
    ensures var q' := Popped(q, Highest(q, NUMPRI)); Newer(q', u, v) && Run(q, script) == Run(q', script)
  {
    NullStarts(q, script, u);
    PopKeepsNewer(q, Highest(q, NUMPRI), u, v);
  }

  /**
   * Of two slots of one priority the newer is served first, whatever the callbacks do short of
   * cancelling one of the two before either is served; what they do to them afterwards is free.
   */
  lemma {:induction false} NewestFirst(q: Rows, script: seq<seq<Op>>, u: Watcher, v: Watcher)
    requires Newer(q, u, v)
    ensures InOrder(Run(q, script), script, u, v)
    decreases |script|, Total(q)
  {
    var n := EitherCall(Run(q, script), u, v);
    NewerIsPending(q, u, v);
    if Top(q).w == null {
      NoneIsServed(q, script, u, v);
      ServedIsLess(q, script);
      NewestFirst(Popped(q, Highest(q, NUMPRI)), script, u, v);
    } else if Top(q).w == u {
      NewerIsServed(q, script, u, v);
    } else {
      OtherIsServed(q, script, u, v);
      if Spared(script, n, u) && Spared(script, n, v) {
        OtherKeepsNewer(q, script, n, u, v);
        ServedIsLess(q, script);
        NewestFirst(Served(q, script), Rest(script), u, v);
      }
    }
  }

  /** What is owed to a watcher that is not cancelled can only grow. */
  lemma {:induction false} StillOwed(o: Owed, script: seq<seq<Op>>, n: nat, w: Watcher)
    requires o.Owing? && Spared(script, n, w)
    ensures AfterCallbacks(o, script, n, w).Owing? && o.events <= AfterCallbacks(o, script, n, w).events
    decreases n
  {
    if n != 0 {
      SparedNext(script, n, w);
      StillOwedOps(o, Next(script), w);
      StillOwed(AfterOps(o, Next(script), w), Rest(script), n - 1, w);
    }
  }

  lemma {:induction false} StillOwedOps(o: Owed, ops: seq<Op>, w: Watcher)
    requires o.Owing? && forall i :: 0 <= i < |ops| ==> ops[i] != Clear(w)
    ensures AfterOps(o, ops, w).Owing? && o.events <= AfterOps(o, ops, w).events
    decreases |ops|
  {
    if ops != [] {
      StillOwedOps(After(o, ops[0], w), ops[1..], w);
    }
  }

  /** A watcher that holds a slot is called with the events it holds, unless it is cancelled before. */
  lemma HeldIsCalled(q: Rows, script: seq<seq<Op>>, w: Watcher)
    requires Tidy(q) && Owes(q, w).Owing?
    ensures Reached(Run(q, script), script, w, Owes(q, w).events)
  {
    var n := FirstCall(Run(q, script), w);
    FirstCallDelivers(q, script, w);
    if Spared(script, n, w) {
      StillOwed(Owes(q, w), script, n, w);
    }
  }

  // ---- watchers no callback feeds

  ghost predicate NeverCalled(calls: seq<Call>, w: Watcher) {
    forall k :: 0 <= k < |calls| ==> calls[k].w != w
  }

  /** Call n is the only one to w, and carries these events. */
  ghost predicate OnlyCall(calls: seq<Call>, n: nat, w: Watcher, events: Events) {
    n < |calls| && calls[n] == Call(w, events) && forall k :: 0 <= k < |calls| && k != n ==> calls[k].w != w
  }

  ghost predicate CalledOnce(calls: seq<Call>, w: Watcher, events: Events) {
    exists n :: OnlyCall(calls, n, w, events)
  }

  /**
   * What becomes of what w is owed at the start if no callback feeds it: nothing owed, no call; and if no
   * callback clears it either, exactly one call, with exactly these events.
   */
  ghost predicate Paid(calls: seq<Call>, script: seq<seq<Op>>, w: Watcher, o: Owed) {
    NeverFed(script, |calls|, w) ==>
      (o.Nothing? ==> NeverCalled(calls, w)) &&
      (o.Owing? && Spared(script, |calls|, w) ==> CalledOnce(calls, w, o.events))
  }

  lemma UnfedNext(script: seq<seq<Op>>, n: nat, w: Watcher)
    requires n > 0 && NeverFed(script, n, w)
    ensures forall i :: 0 <= i < |Next(script)| ==> Next(script)[i].w != w || Next(script)[i].Clear?
    ensures NeverFed(Rest(script), n - 1, w)
  {
    assert forall k :: 0 <= k < |Rest(script)| ==> Rest(script)[k] == script[k + 1];
  }

  /** Once a watcher that no callback feeds has been called, nothing is owed to it. */
  lemma {:induction false} PaidOff(o: Owed, calls: seq<Call>, script: seq<seq<Op>>, k: nat, w: Watcher)
    requires k <= |calls| && NeverFed(script, k, w)
    requires o.Nothing? || exists j :: 0 <= j < k && calls[j].w == w
    ensures Balance(o, calls, script, k, w) == Nothing
    decreases k
  {
    if k > 0 {
      var paid := if calls[0].w == w then Nothing else o;
      UnfedNext(script, k, w);
      if paid.Nothing? {
        UnfedOpsOweNothing(Next(script), w);
      } else {
        var j :| 0 <= j < k && calls[j].w == w;
        assert calls[1..][j - 1].w == w;
      }
      PaidOff(AfterOps(paid, Next(script), w), calls[1..], Rest(script), k - 1, w);
    }
  }

  lemma {:induction false} UntouchedOps(o: Owed, ops: seq<Op>, w: Watcher)
    requires forall i :: 0 <= i < |ops| ==> (ops[i].w != w || ops[i].Clear?) && ops[i] != Clear(w)
    ensures AfterOps(o, ops, w) == o
    decreases |ops|
  {
    if ops != [] {
      UntouchedOps(o, ops[1..], w);
    }
  }

  lemma {:induction false} Untouched(o: Owed, script: seq<seq<Op>>, n: nat, w: Watcher)
    requires NeverFed(script, n, w) && Spared(script, n, w)
    ensures AfterCallbacks(o, script, n, w) == o
    decreases n
  {
    if n > 0 {
      UnfedNext(script, n, w);
      SparedNext(script, n, w);
      UntouchedOps(o, Next(script), w);
      Untouched(o, Rest(script), n - 1, w);
    }
  }

  /** A watcher that is owed something, and that the callbacks leave alone, is called once. */
  lemma OwedIsCalledOnce(q: Rows, script: seq<seq<Op>>, w: Watcher)
    requires Tidy(q) && Owes(q, w).Owing?
    requires var n := |Run(q, script)|; NeverFed(script, n, w) && Spared(script, n, w)
    ensures CalledOnce(Run(q, script), w, Owes(q, w).events)
  {
    var calls := Run(q, script);
    var n := FirstCall(calls, w);
    HeldIsCalled(q, script, w);
    FirstCallDelivers(q, script, w);
    Untouched(Owes(q, w), script, n, w);
    forall k | 0 <= k < |calls| && k != n ensures calls[k].w != w {
      if k > n {
        EveryCallDelivers(q, script, k, w);
        PaidOff(Owes(q, w), calls, script, k, w);
      }
    }
    assert OnlyCall(calls, n, w, Owes(q, w).events);
  }

  /** What every run makes of what a watcher is owed, if no callback feeds it. */
  lemma RunPays(q: Rows, script: seq<seq<Op>>, w: Watcher)
    requires Tidy(q)
    ensures Paid(Run(q, script), script, w, Owes(q, w))
  {
    var n := |Run(q, script)|;
    if NeverFed(script, n, w) {
      if Owes(q, w).Nothing? {
        SilentUntilFed(q, script, n, w);
      } else if Spared(script, n, w) {
        OwedIsCalledOnce(q, script, w);
      }
    }
  }
}
