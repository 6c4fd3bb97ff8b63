/**
 * When the pipe between two connections of lib/irccd/conn.c delivers everything: a line arrives only if
 * it fits into the receiver's input with its CR-LF, and when all lines do, a receiver that takes out
 * complete lines before it reads on is never lost and can always be brought to the end.
 */
module PipeProgress {
  import opened Framing
  import opened Connection
  import opened Pipe

  /** The line and its CR-LF fit into the input buffer. */
  predicate Receivable(line: string) {
    |line| + |CRLF| <= CONN_IN_SIZE
  }

  ghost predicate AllReceivable(lines: seq<string>) {
    forall i :: 0 <= i < |lines| ==> Receivable(lines[i])
  }

  // ---- a line that does not fit never arrives, nor does any after it

  /** The input never outgrows its buffer, so that whatever comes out of it has fitted. */
  ghost predicate Bounded(f: Flow) {
    |f.input| <= CONN_IN_SIZE && |f.gone| <= CONN_IN_SIZE && AllReceivable(f.received)
  }

  lemma StepIsBounded(f: Flow, act: Act)
    requires Bounded(f)
    ensures Bounded(Step(f, act))
  {
    if act.Extract? {
      FindIsFirst(f.input);
    }
  }

  lemma {:induction false} StepsAreBounded(f: Flow, acts: seq<Act>)
    requires Bounded(f)
    ensures Bounded(Steps(f, acts))
    decreases |acts|
  {
    if acts != [] {
      StepIsBounded(f, acts[0]);
      StepsAreBounded(Step(f, acts[0]), acts[1..]);
    }
  }

  /** Whatever the interleaving, no line from the first that does not fit on is ever extracted. */
  lemma StopsAtLongLine(f: Flow, acts: seq<Act>, i: nat)
    requires Fresh(f) && AllCrlfFree(Steps(f, acts).accepted)
    requires i < |Steps(f, acts).accepted| && !Receivable(Steps(f, acts).accepted[i])
    ensures var r := Steps(f, acts);
      AllTaken(f, acts) == r.received + r.told && r.received <= r.accepted[..i] && r.told <= [INTERNAL]
  {
    var r := Steps(f, acts);
    DeliveredInOrder(f, acts);
    StepsAreBounded(f, acts);
    assert forall k :: 0 <= k < |r.received| ==> Receivable(r.accepted[k]);
  }

  /** The shortest such line: it is accepted, it is free of CR-LF, and it never arrives. */
  const LONG_LINE: string := seq(CONN_IN_SIZE - 1, _ => 'x')

  lemma LongLineNeverArrives(f: Flow, acts: seq<Act>)
    requires Fresh(f) && f.accepted == [] && Silent(acts)
    ensures |LONG_LINE| == 8095 && CrlfFree(LONG_LINE) && Fits(f, LONG_LINE)
    ensures Steps(f, [Say(LONG_LINE)] + acts).accepted == [LONG_LINE]
    ensures AllTaken(f, [Say(LONG_LINE)] + acts) <= [INTERNAL]
  {
    var all := [Say(LONG_LINE)] + acts;
    assert all[1..] == acts;
    StepsKeepAccepted(Step(f, all[0]), acts);
    StopsAtLongLine(f, all, 0);
    var r := Steps(f, all);
    assert r.received == [] && [] + r.told == r.told;
  }

  /** A loss costs exactly the bytes in the input, complete lines or not; all others are accounted for. */
  lemma LossDropsInput(f: Flow, acts: seq<Act>)
    requires Fresh(f) && Steps(f, acts).lost
    ensures var r := Steps(f, acts);
      |r.gone| == CONN_IN_SIZE && Encode(r.accepted) == Encode(r.received) + r.gone + r.wire + r.out
  {
    StepsAreSound(f, acts);
    StepsAreBounded(f, acts);
  }

  /** Step k of the run is a receive into a full buffer; complete lines may well be waiting in it. */
  ghost predicate ReadsFull(f: Flow, acts: seq<Act>, k: nat) {
    k < |acts| && acts[k].Deliver? && |Steps(f, acts[..k]).input| >= CONN_IN_SIZE
  }

  lemma ReadsFullLater(f: Flow, acts: seq<Act>, k: nat)
    requires acts != []
    ensures ReadsFull(f, acts, k + 1) <==> ReadsFull(Step(f, acts[0]), acts[1..], k)
  {
    if k + 1 < |acts| {
      assert acts[..k + 1][1..] == acts[1..][..k];
    }
  }

  /** A run loses the connection exactly if it receives into a full buffer. */
  lemma {:induction false} LostIffReadsFull(f: Flow, acts: seq<Act>)
    requires !f.lost
    ensures Steps(f, acts).lost <==> exists k :: ReadsFull(f, acts, k)
    decreases |acts|
  {
    if acts != [] {
      var g, rest := Step(f, acts[0]), acts[1..];
      assert g.lost <==> ReadsFull(f, acts, 0);
      if g.lost {
        StaysLost(g, rest);
      } else {
        LostIffReadsFull(g, rest);
        forall k: nat ensures ReadsFull(f, acts, k + 1) <==> ReadsFull(g, rest, k) {
          ReadsFullLater(f, acts, k);
        }
        if k: nat :| ReadsFull(f, acts, k) {
          assert ReadsFull(g, rest, k - 1);
        }
        if k: nat :| ReadsFull(g, rest, k) {
          assert ReadsFull(f, acts, k + 1);
        }
      }
    }
  }

  // ---- lines that fit

  /** The receiver reads on only when it has taken out every complete line. */
  ghost predicate Eager(f: Flow, acts: seq<Act>)
    decreases |acts|
  {
    acts == [] || ((acts[0].Deliver? ==> CrlfFree(f.input)) && Eager(Step(f, acts[0]), acts[1..]))
  }

  lemma {:induction false} StepsConcat(f: Flow, a: seq<Act>, b: seq<Act>)
    ensures Steps(f, a + b) == Steps(Steps(f, a), b)
    ensures Eager(f, a + b) <==> Eager(f, a) && Eager(Steps(f, a), b)
    decreases |a|
  {
    if a == [] {
      assert a + b == b;
    } else {
      assert (a + b)[1..] == a[1..] + b;
      StepsConcat(Step(f, a[0]), a[1..], b);
    }
  }

  lemma StepKeepsAccepted(f: Flow, act: Act)
    ensures f.accepted <= Step(f, act).accepted
    ensures !act.Say? ==> Step(f, act).accepted == f.accepted
  {
  }

  lemma {:induction false} StepsKeepAccepted(f: Flow, acts: seq<Act>)
    ensures f.accepted <= Steps(f, acts).accepted
    ensures Silent(acts) ==> Steps(f, acts).accepted == f.accepted
    decreases |acts|
  {
    if acts != [] {
      StepKeepsAccepted(f, acts[0]);
      StepsKeepAccepted(Step(f, acts[0]), acts[1..]);
    }
  }

  /** Nothing more is pushed. */
  ghost predicate Silent(acts: seq<Act>) {
    forall i :: 0 <= i < |acts| ==> !acts[i].Say?
  }

  ghost predicate GoodLines(lines: seq<string>) {
    AllCrlfFree(lines) && AllReceivable(lines)
  }

  /** A full input without a complete line would be the start of a line that does not fit. */
  lemma FullHasLine(f: Flow)
    requires Sound(f) && !f.lost && GoodLines(f.accepted) && |f.input| >= CONN_IN_SIZE
    ensures !CrlfFree(f.input)
  {
    var rest := f.input + f.wire + f.out;
    assert Encode(f.accepted) == Encode(f.received) + rest;
    ReceivedIsPrefix(f.accepted, f.received, rest);
    var left := f.accepted[|f.received|..];
    assert left != [];
    var line := left[0];
    assert line == f.accepted[|f.received|];
    FramedHasCrlf(line, Encode(left[1..]));
    assert rest == line + CRLF + Encode(left[1..]);
    assert CrlfAt(f.input, |line|);
  }

  /** One step of an eager run whose lines fit does not lose the connection. */
  lemma StepStaysUp(f: Flow, act: Act)
    requires Sound(f) && !f.lost && GoodLines(f.accepted) && (act.Deliver? ==> CrlfFree(f.input))
    ensures !Step(f, act).lost
  {
    if |f.input| >= CONN_IN_SIZE {
      FullHasLine(f);
    }
  }

  /** If every line accepted fits, an eager run is never lost. */
  lemma {:induction false} EagerStaysUp(f: Flow, acts: seq<Act>)
    requires Sound(f) && !f.lost && Eager(f, acts) && GoodLines(Steps(f, acts).accepted)
    ensures !Steps(f, acts).lost
    decreases |acts|
  {
    if acts != [] {
      var g := Step(f, acts[0]);
      StepKeepsAccepted(f, acts[0]);
      StepsKeepAccepted(g, acts[1..]);
      PrefixIsGood(f.accepted, Steps(f, acts).accepted);
      StepStaysUp(f, acts[0]);
      StepIsSound(f, acts[0]);
      EagerStaysUp(g, acts[1..]);
    }
  }

  lemma PrefixIsGood(a: seq<string>, b: seq<string>)
    requires a <= b && GoodLines(b)
    ensures GoodLines(a)
  {
    assert forall i :: 0 <= i < |a| ==> a[i] == b[i];
  }

  // ---- progress

  /** A receive that is offered all there is leaves nothing in the pipe, as far as there is room. */
  lemma DeliverTakesAll(f: Flow)
    requires !f.lost && |f.input| < CONN_IN_SIZE
    ensures var g := Step(f, Deliver(|f.wire|));
      f.input + f.wire == g.input + g.wire && (g.wire == "" || |g.input| == CONN_IN_SIZE)
  {
  }

  /** The next step of a receiver that wants everything, the sender having handed all to the transport. */
  function NextAct(f: Flow): Act {
    if Find(f.input) < |f.input| then Extract else Deliver(|f.wire|)
  }

  /** How much there is left to do. */
  function Left(f: Flow): nat {
    2 * |f.wire| + |f.input|
  }

  /** Taking lines out and reading on in turn ends with nothing left to take, unless the connection is lost. */
  lemma {:induction false} Drain(f: Flow) returns (acts: seq<Act>)
    requires Sound(f) && !f.lost && f.out == ""
    ensures Silent(acts) && Eager(f, acts)
    ensures var r := Steps(f, acts); r.lost || (r.out == r.wire == "" && CrlfFree(r.input))
    decreases Left(f)
  {
    FindIsFirst(f.input);
    if f.wire == "" && Find(f.input) == |f.input| {
      acts := [];
    } else {
      var act := NextAct(f);
      var g := Step(f, act);
      StepIsSound(f, act);
      assert act.Deliver? ==> CrlfFree(f.input);
      acts := [];
      if !g.lost {
        acts := Drain(g);
      }
      assert ([act] + acts)[1..] == acts;
      acts := [act] + acts;
    }
  }

  /** Everything handed to the transport, then drained: all lines arrive unless the connection is lost. */
  lemma Finish(f: Flow) returns (acts: seq<Act>)
    requires Sound(f) && !f.lost && AllCrlfFree(f.accepted)
    ensures Silent(acts) && Eager(f, acts)
    ensures Steps(f, acts).lost || Steps(f, acts).received == f.accepted
  {
    var act := Transmit(|f.out|);
    StepIsSound(f, act);
    acts := Drain(Step(f, act));
    assert ([act] + acts)[1..] == acts;
    acts := [act] + acts;
    var r := Steps(f, acts);
    StepsAreSound(f, acts);
    StepsKeepAccepted(f, acts);
    if !r.lost {
      ReceivedInFull(r);
    }
  }

  /** Progress: from any point of an eager run whose lines fit, some continuation delivers all of them. */
  lemma Delivers(f: Flow, acts: seq<Act>) returns (more: seq<Act>)
    requires Fresh(f) && Eager(f, acts) && GoodLines(Steps(f, acts).accepted)
    ensures Silent(more) && Eager(Steps(f, acts), more) && !Steps(Steps(f, acts), more).lost
    ensures Steps(Steps(f, acts), more).received == Steps(f, acts).accepted
  {
    var r := Steps(f, acts);
    StepsAreSound(f, acts);
    EagerStaysUp(f, acts);
    more := Finish(r);
    StepsKeepAccepted(r, more);
    EagerStaysUp(r, more);
  }

  /** All the lines accepted can still be delivered. */
  ghost predicate Deliverable(f: Flow) {
    exists more :: Silent(more) && Steps(f, more).received == f.accepted
  }

  /** No eager continuation that pushes nothing more loses the connection. */
  ghost predicate Safe(f: Flow) {
    forall more :: Silent(more) && Eager(f, more) ==> !Steps(f, more).lost
  }

  /** At any point of an eager run, the lengths of the lines decide both. */
  lemma FitsDecides(f: Flow, acts: seq<Act>)
    requires Fresh(f) && Eager(f, acts) && AllCrlfFree(Steps(f, acts).accepted)
    ensures Deliverable(Steps(f, acts)) <==> AllReceivable(Steps(f, acts).accepted)
    ensures Safe(Steps(f, acts)) <==> AllReceivable(Steps(f, acts).accepted)
  {
    if AllReceivable(Steps(f, acts).accepted) {
      var _ := Delivers(f, acts);
      SafeIfReceivable(f, acts);
    }
    if Deliverable(Steps(f, acts)) {
      ReceivableIfDeliverable(f, acts);
    }
    if Safe(Steps(f, acts)) {
      ReceivableIfSafe(f, acts);
    }
  }

  lemma SafeIfReceivable(f: Flow, acts: seq<Act>)
    requires Fresh(f) && Eager(f, acts) && GoodLines(Steps(f, acts).accepted)
    ensures Safe(Steps(f, acts))
  {
    var r := Steps(f, acts);
    forall more | Silent(more) && Eager(r, more) ensures !Steps(r, more).lost {
      StepsConcat(f, acts, more);
      StepsKeepAccepted(r, more);
      EagerStaysUp(f, acts + more);
    }
  }

  lemma ReceivableIfDeliverable(f: Flow, acts: seq<Act>)
    requires Fresh(f) && AllCrlfFree(Steps(f, acts).accepted) && Deliverable(Steps(f, acts))
    ensures AllReceivable(Steps(f, acts).accepted)
  {
    var r := Steps(f, acts);
    var more :| Silent(more) && Steps(r, more).received == r.accepted;
    StepsConcat(f, acts, more);
    StepsAreBounded(f, acts + more);
  }

  lemma ReceivableIfSafe(f: Flow, acts: seq<Act>)
    requires Fresh(f) && AllCrlfFree(Steps(f, acts).accepted) && Safe(Steps(f, acts))
    ensures AllReceivable(Steps(f, acts).accepted)
  {
    var r := Steps(f, acts);
    StepsAreSound(f, acts);
    assert Silent([]) && Eager(r, []) && Steps(r, []) == r;
    var more := Finish(r);
    ReceivableIfDeliverable(f, acts);
  }
}
