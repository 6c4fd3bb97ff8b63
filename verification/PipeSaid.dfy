/**
 * What a run of the pipe makes of the lines said to the sender: which of them are accepted, and when the
 * sender is ready.
 */
module PipeSaid {
  import opened Framing
  import opened Connection
  import opened Pipe

  /** The lines pushed, in order, accepted or not. */
  function Said(acts: seq<Act>): seq<string> {
    if acts == [] then [] else (if acts[0].Say? then [acts[0].line] else []) + Said(acts[1..])
  }

  // ---- which lines are accepted

  /** What a step does to the queue: a line that leaves a free byte goes in whole; nothing else lengthens it. */
  lemma QueueAfter(f: Flow, act: Act)
    ensures act.Say? && |f.out| + |act.line| + 2 < CONN_OUT_SIZE ==>
      Step(f, act).accepted == f.accepted + [act.line] && |Step(f, act).out| == |f.out| + |act.line| + 2
    ensures act.Say? && |f.out| + |act.line| + 2 >= CONN_OUT_SIZE ==> Step(f, act) == f
    ensures !act.Say? ==> Step(f, act).accepted == f.accepted && |Step(f, act).out| <= |f.out|
  {
  }

  lemma FramedLength(line: string, lines: seq<string>)
    ensures |Encode([line] + lines)| == |line| + 2 + |Encode(lines)|
  {
    assert ([line] + lines)[1..] == lines;
  }

  /**
   * While the queue has room for all that is said, every line said is accepted, in order, whatever the
   * state of either end.
   */
  lemma {:induction false} AllSaidAccepted(f: Flow, acts: seq<Act>)
    requires |f.out| + |Encode(Said(acts))| < CONN_OUT_SIZE
    ensures Steps(f, acts).accepted == f.accepted + Said(acts)
    decreases |acts|
  {
    if acts != [] {
      var rest := Said(acts[1..]);
      QueueAfter(f, acts[0]);
      if acts[0].Say? {
        FramedLength(acts[0].line, rest);
        assert f.accepted + [acts[0].line] + rest == f.accepted + ([acts[0].line] + rest);
      } else {
        assert [] + rest == rest;
      }
      AllSaidAccepted(Step(f, acts[0]), acts[1..]);
    }
  }

  lemma {:induction false} StepsSnoc(f: Flow, acts: seq<Act>, act: Act)
    ensures Steps(f, acts + [act]) == Step(Steps(f, acts), act)
    decreases |acts|
  {
    if acts == [] {
      assert acts + [act] == [act];
    } else {
      assert (acts + [act])[1..] == acts[1..] + [act];
      StepsSnoc(Step(f, acts[0]), acts[1..], act);
    }
  }

  /** What waits in the queue is what has been accepted and not been sent. */
  lemma QueueIsUnsent(f: Flow, acts: seq<Act>)
    requires Fresh(f)
    ensures var r := Steps(f, acts); |r.out| == |Encode(r.accepted)| - |r.sent|
  {
    StepsAreSound(f, acts);
  }

  /**
   * At any point of a run a line is accepted, behind those before it, exactly if with its CR-LF it leaves a
   * free byte in the queue beside what has been accepted and not been sent.
   */
  lemma SayDecides(f: Flow, acts: seq<Act>, line: string)
    requires Fresh(f)
    ensures var r := Steps(f, acts);
      Steps(f, acts + [Say(line)]).accepted ==
      if |Encode(r.accepted)| - |r.sent| + |line| + 2 < CONN_OUT_SIZE then r.accepted + [line] else r.accepted
  {
    StepsSnoc(f, acts, Say(line));
    QueueIsUnsent(f, acts);
    QueueAfter(Steps(f, acts), Say(line));
  }

  // ---- when the sender is ready

  /** Step k hands the last byte in the queue to the transport. */
  ghost predicate Drains(f: Flow, acts: seq<Act>, k: nat) {
    k < |acts| && acts[k].Transmit? && |Steps(f, acts[..k]).out| <= acts[k].n
  }

  lemma {:induction false} ReadyStays(f: Flow, acts: seq<Act>)
    requires f.state == Ready
    ensures Steps(f, acts).state == Ready
    decreases |acts|
  {
    if acts != [] {
      ReadyStays(Step(f, acts[0]), acts[1..]);
    }
  }

  lemma DrainsLater(f: Flow, acts: seq<Act>, k: nat)
    requires acts != []
    ensures Drains(f, acts, k + 1) <==> Drains(Step(f, acts[0]), acts[1..], k)
  {
    if k + 1 < |acts| {
      assert acts[..k + 1][1..] == acts[1..][..k];
    }
  }

  /** The sender becomes ready exactly when some transmission has taken all that was queued. */
  lemma {:induction false} ReadyIffDrained(f: Flow, acts: seq<Act>)
    requires f.state == Ident
    ensures Steps(f, acts).state == Ready <==> exists k :: Drains(f, acts, k)
    decreases |acts|
  {
    if acts != [] {
      var g, rest := Step(f, acts[0]), acts[1..];
      assert acts[..0] == [];
      assert g.state == Ready <==> Drains(f, acts, 0);
      if g.state == Ready {
        ReadyStays(g, rest);
      } else {
        ReadyIffDrained(g, rest);
        forall k: nat ensures Drains(f, acts, k + 1) <==> Drains(g, rest, k) {
          DrainsLater(f, acts, k);
        }
        if k: nat :| Drains(f, acts, k) {
          assert Drains(g, rest, k - 1);
        }
        if k: nat :| Drains(g, rest, k) {
          assert Drains(f, acts, k + 1);
        }
      }
    }
  }
}
