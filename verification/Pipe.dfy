/**
 * Two connections of lib/irccd/conn.c joined by a lossless byte pipe, under every interleaving of
 * pushes, partial sends, partial receives and extractions.
 */
module Pipe {
  import opened Framing
  import opened Connection
  import opened Options
  import Message

  datatype Act =
    | Say(line: string)     // irc__conn_push on the sender
    | Transmit(n: nat)      // the transport takes up to n bytes of its output
    | Deliver(n: nat)       // the receiver is offered up to n bytes
    | Extract               // the receiver's producer asks for a message

  /**
   * Everything between the two ends: the sender's queue, the bytes in the pipe, the receiver's
   * input; the lines accepted from the sender, those of its hello, those extracted; and every
   * byte handed to the transport. The connection is lost when a receive finds the input full: what
   * was in it is gone, and the lines extracted from then on are those the receiver was told.
   */
  datatype Flow = Flow(state: State, out: string, wire: string, input: string, lost: bool,
                       accepted: seq<string>, hello: seq<string>, received: seq<string>, sent: string,
                       gone: string, told: seq<string>)

  function Min(a: nat, b: nat): nat {
    if a < b then a else b
  }

  function Fits(f: Flow, line: string): bool {
    |line| + 2 < CONN_OUT_SIZE - |f.out|
  }

  /** A step. A lost receiver no longer reads; the other three go on as before. */
  function Step(f: Flow, act: Act): Flow {
    match act
    case Say(line) =>
      if Fits(f, line) then f.(out := f.out + line + CRLF, accepted := f.accepted + [line]) else f
    case Transmit(n) =>
      var k := Min(n, |f.out|);
      f.(out := f.out[k..], wire := f.wire + f.out[..k], sent := f.sent + f.out[..k],
         state := if f.state == Ident && k == |f.out| then Ready else f.state)
    case Deliver(n) =>
      if f.lost then f
      else if |f.input| >= CONN_IN_SIZE then f.(lost := true, input := NOTICE, gone := f.input)
      else
        var k := Min(Min(n, CONN_IN_SIZE - |f.input|), |f.wire|);
        f.(input := f.input + f.wire[..k], wire := f.wire[k..])
    case Extract =>
      var i := Find(f.input);
      if i == |f.input| then f
      else if f.lost then f.(input := f.input[i + 2..], told := f.told + [f.input[..i]])
      else f.(input := f.input[i + 2..], received := f.received + [f.input[..i]])
  }

  /** The line a step takes out of the input, if any. */
  function Taken(f: Flow, act: Act): seq<string> {
    if act.Extract? && Find(f.input) < |f.input| then [f.input[..Find(f.input)]] else []
  }

  /** The lines a run takes out of the input, in order. */
  function AllTaken(f: Flow, acts: seq<Act>): seq<string>
    decreases |acts|
  {
    if acts == [] then [] else Taken(f, acts[0]) + AllTaken(Step(f, acts[0]), acts[1..])
  }

  function Steps(f: Flow, acts: seq<Act>): Flow
    decreases |acts|
  {
    if acts == [] then f else Steps(Step(f, acts[0]), acts[1..])
  }

  /** A new connection that has queued its hello and waits for it to be sent. */
  ghost predicate Fresh(f: Flow) {
    f.state == Ident && f.wire == f.input == f.sent == f.gone == "" && !f.lost && f.received == f.told == [] &&
    f.hello == f.accepted && f.out == Encode(f.accepted)
  }

  /** The bytes that reached the receiver and were not extracted: they wait, or are gone. */
  function Stuck(f: Flow): string {
    if f.lost then f.gone else f.input
  }

  /** Once the connection is lost the notice is all there is to extract, until it has been. */
  ghost predicate Noticed(f: Flow) {
    if f.lost then
      |f.gone| >= CONN_IN_SIZE &&
      ((f.told == [] && f.input == NOTICE) || (f.told == [INTERNAL] && f.input == ""))
    else f.told == [] && f.gone == ""
  }

  /** No byte is lost, repeated or reordered between the queued lines and the extracted ones. */
  ghost predicate Sound(f: Flow) {
    AllCrlfFree(f.received) && f.hello <= f.accepted && Noticed(f) &&
    Encode(f.accepted) == f.sent + f.out &&
    Encode(f.received) <= f.sent &&
    f.sent == Encode(f.received) + Stuck(f) + f.wire &&
    (f.state == Ready ==> Encode(f.hello) <= f.sent)
  }

  lemma StepIsSound(f: Flow, act: Act)
    requires Sound(f)
    ensures Sound(Step(f, act))
  {
    match act
    case Say(line) => SayIsSound(f, line);
    case Transmit(n) => TransmitIsSound(f, n);
    case Deliver(n) => DeliverIsSound(f, n);
    case Extract => ExtractIsSound(f);
  }

  lemma SayIsSound(f: Flow, line: string)
    requires Sound(f)
    ensures Sound(Step(f, Say(line)))
  {
    EncodeConcat(f.accepted, [line]);
    assert Encode([line]) == line + CRLF;
    assert f.sent + (f.out + line + CRLF) == f.sent + f.out + (line + CRLF);
  }

  lemma TransmitIsSound(f: Flow, n: nat)
    requires Sound(f)
    ensures Sound(Step(f, Transmit(n)))
  {
    var k := Min(n, |f.out|);
    EncodePrefix(f.hello, f.accepted);
    assert f.sent + f.out == f.sent + f.out[..k] + f.out[k..];
    assert f.sent + f.out[..k] == Encode(f.received) + Stuck(f) + (f.wire + f.out[..k]);
    assert k == |f.out| ==> f.sent + f.out[..k] == Encode(f.accepted);
  }

  lemma DeliverIsSound(f: Flow, n: nat)
    requires Sound(f)
    ensures Sound(Step(f, Deliver(n)))
  {
    if !f.lost && |f.input| < CONN_IN_SIZE {
      var k := Min(Min(n, CONN_IN_SIZE - |f.input|), |f.wire|);
      assert f.wire == f.wire[..k] + f.wire[k..];
      assert f.sent == Encode(f.received) + (f.input + f.wire[..k]) + f.wire[k..];
    }
  }

  lemma Regroup(a: string, line: string, rest: string, wire: string)
    ensures a + (line + CRLF + rest) + wire == a + (line + CRLF) + rest + wire
    ensures a + (line + CRLF) <= a + (line + CRLF) + rest + wire
  {
  }

  /** Taking a line out of the input moves its bytes to those of the lines received. */
  lemma LineMoves(received: seq<string>, input: string, wire: string, i: nat)
    requires CrlfAt(input, i)
    ensures Encode(received) + input + wire == Encode(received + [input[..i]]) + input[i + 2..] + wire
    ensures Encode(received + [input[..i]]) <= Encode(received) + input + wire
  {
    var line := input[..i];
    SplitAtCrlf(input, i);
    EncodeConcat(received, [line]);
    assert Encode([line]) == line + CRLF;
    Regroup(Encode(received), line, input[i + 2..], wire);
  }

  lemma ExtractIsSound(f: Flow)
    requires Sound(f)
    ensures Sound(Step(f, Extract))
  {
    var i := Find(f.input);
    if f.lost {
      NoticeIsTaken(f);
    } else if i < |f.input| {
      FindIsFirst(f.input);
      PrefixIsCrlfFree(f.input, i);
      LineMoves(f.received, f.input, f.wire, i);
    }
  }

  lemma FramedIsLine(line: string, framed: string)
    requires CrlfFree(line) && framed == line + CRLF
    ensures Find(framed) == |line| < |framed| && framed[..|line|] == line && framed[|line| + 2..] == ""
  {
    FindsLine(line, "");
    assert line + CRLF + "" == framed;
  }

  lemma WithoutCr(line: string)
    requires '\r' !in line
    ensures CrlfFree(line)
  {
  }

  lemma TakesLine(f: Flow, line: string)
    requires f.lost && f.told == [] && CrlfFree(line) && f.input == line + CRLF
    ensures Step(f, Extract) == f.(input := "", told := [line])
  {
    FramedIsLine(line, f.input);
    assert f.told + [line] == [line];
  }

  /** On a lost connection an extraction takes the notice, and only once. */
  lemma NoticeIsTaken(f: Flow)
    requires f.lost && Noticed(f)
    ensures Step(f, Extract) == if f.told == [] then f.(input := "", told := [INTERNAL]) else f
  {
    WithoutCr(INTERNAL);
    if f.told == [] {
      TakesLine(f, INTERNAL);
    }
  }

  lemma {:induction false} StepsAreSound(f: Flow, acts: seq<Act>)
    requires Sound(f)
    ensures Sound(Steps(f, acts))
    decreases |acts|
  {
    if acts != [] {
      StepIsSound(f, acts[0]);
      StepsAreSound(Step(f, acts[0]), acts[1..]);
    }
  }

  /** The bytes that are not in extracted lines yet. */
  function Remaining(f: Flow): string
    requires |Encode(f.received)| <= |f.sent|
  {
    f.sent[|Encode(f.received)|..] + f.out
  }

  lemma ReceivedInOrder(f: Flow)
    requires Sound(f) && AllCrlfFree(f.accepted)
    ensures f.received <= f.accepted && Remaining(f) == Encode(f.accepted[|f.received|..])
  {
    assert Encode(f.accepted) == Encode(f.received) + Remaining(f);
    ReceivedIsPrefix(f.accepted, f.received, Remaining(f));
  }

  lemma ReceivedInFull(f: Flow)
    requires Sound(f) && AllCrlfFree(f.accepted) && !f.lost && f.out == f.wire == "" && CrlfFree(f.input)
    ensures f.received == f.accepted
  {
    assert f.sent + "" == f.sent && Encode(f.received) + f.input + "" == Encode(f.received) + f.input;
    ReceivedIsAll(f.accepted, f.received, f.input);
  }

  lemma Snoc(a: seq<string>, b: seq<string>, x: seq<string>)
    ensures a + (b + x) == a + b + x
    ensures b == [] ==> (a + x) + b == a + b + x
    ensures x == [] ==> a + b == a + b + x
  {
  }

  /** What a step takes out is what it adds to the lines received and told. */
  lemma TakenIsKept(f: Flow, act: Act)
    requires Noticed(f)
    ensures Step(f, act).received + Step(f, act).told == f.received + f.told + Taken(f, act)
  {
    Snoc(f.received, f.told, Taken(f, act));
  }

  lemma {:induction false} AllTakenIsKept(f: Flow, acts: seq<Act>)
    requires Sound(f)
    ensures Steps(f, acts).received + Steps(f, acts).told == f.received + f.told + AllTaken(f, acts)
    decreases |acts|
  {
    if acts != [] {
      var g := Step(f, acts[0]);
      StepIsSound(f, acts[0]);
      TakenIsKept(f, acts[0]);
      AllTakenIsKept(g, acts[1..]);
      Snoc(f.received + f.told, Taken(f, acts[0]), AllTaken(g, acts[1..]));
    } else {
      Snoc(f.received, f.told, []);
    }
  }

  /**
   * Exactly once and in order: in every run the lines extracted are the first accepted ones, if these
   * contain no CR-LF, and all of them once nothing is in flight; only after a loss they are followed by
   * the notice, once; and READY is never reached before the whole hello has been handed to the transport.
   */
  lemma DeliveredInOrder(f: Flow, acts: seq<Act>)
    requires Fresh(f)
    ensures var r := Steps(f, acts);
      AllTaken(f, acts) == r.received + r.told && (r.told == [] || (r.lost && r.told == [INTERNAL])) &&
      (AllCrlfFree(r.accepted) ==> r.received <= r.accepted) &&
      (AllCrlfFree(r.accepted) && !r.lost && r.out == r.wire == "" && CrlfFree(r.input) ==> r.received == r.accepted) &&
      (r.state == Ready ==> Encode(f.hello) <= r.sent)
  {
    StepsAreSound(f, acts);
    HelloStays(f, acts);
    AllTakenIsKept(f, acts);
    var r := Steps(f, acts);
    assert [] + [] + AllTaken(f, acts) == AllTaken(f, acts);
    if AllCrlfFree(r.accepted) {
      ReceivedInOrder(r);
      if !r.lost && r.out == r.wire == "" && CrlfFree(r.input) {
        ReceivedInFull(r);
      }
    }
  }

  lemma {:induction false} HelloStays(f: Flow, acts: seq<Act>)
    ensures Steps(f, acts).hello == f.hello
    decreases |acts|
  {
    if acts != [] {
      HelloStays(Step(f, acts[0]), acts[1..]);
    }
  }

  lemma {:induction false} StaysLost(f: Flow, acts: seq<Act>)
    requires f.lost
    ensures Steps(f, acts).lost
    decreases |acts|
  {
    if acts != [] {
      StaysLost(Step(f, acts[0]), acts[1..]);
    }
  }

  lemma LostStep(f: Flow, act: Act)
    requires f.lost && Noticed(f)
    ensures var g := Step(f, act);
      g.lost && g.received == f.received && g.gone == f.gone &&
      g.told == if act == Extract then [INTERNAL] else f.told
  {
    if act.Extract? {
      NoticeIsTaken(f);
    }
  }

  /**
   * After the loss, whatever the steps, no further line of the sender is extracted and what was in the
   * input is gone for good; the next line extracted is the notice, and there is none after it.
   */
  lemma {:induction false} LostTells(f: Flow, acts: seq<Act>)
    requires Sound(f) && f.lost
    ensures var r := Steps(f, acts);
      r.lost && r.received == f.received && r.gone == f.gone && r.told == if Extract in acts then [INTERNAL] else f.told
    decreases |acts|
  {
    if acts != [] {
      StepIsSound(f, acts[0]);
      LostStep(f, acts[0]);
      LostTells(Step(f, acts[0]), acts[1..]);
      assert acts == [acts[0]] + acts[1..];
    }
  }

  /** The notice is parsed to the command that the server handles as a disconnection. */
  lemma NoticeIsDisconnect()
    ensures 0 < |INTERNAL| < IRCCD_MESSAGE_LEN
    ensures Message.Parse(INTERNAL) == Message.Msg(Some("internal"), "000", [])
  {
    var m := Message.Msg(Some("internal"), "000", []);
    assert Message.Print(m, Message.Bare) == INTERNAL;
    Message.ParseInvertsPrint(m, Message.Bare);
  }

  /** Each line of a list takes its place in the bytes of the whole list. */
  lemma EncodeUpTo(lines: seq<string>, i: nat)
    requires i < |lines|
    ensures |Encode(lines[..i])| + |lines[i]| + 2 <= |Encode(lines)| && lines[..i + 1] == lines[..i] + [lines[i]]
  {
    EncodePrefix(lines[..i + 1], lines);
    EncodeConcat(lines[..i], [lines[i]]);
    assert lines[..i + 1] == lines[..i] + [lines[i]] && Encode([lines[i]]) == lines[i] + CRLF;
  }

  /** One message, or none, for each line. */
  ghost predicate Arrivals(msgs: seq<Option<Parsed>>, lines: seq<string>)
    reads set i | 0 <= i < |msgs| && msgs[i].Some? :: msgs[i].value.buf
  {
    |msgs| == |lines| && forall i :: 0 <= i < |msgs| ==> Arrived(msgs[i], lines[i])
  }

  lemma ArrivalsConcat(msgs: seq<Option<Parsed>>, lines: seq<string>, more: seq<Option<Parsed>>, taken: seq<string>)
    requires Arrivals(msgs, lines) && Arrivals(more, taken)
    ensures Arrivals(msgs + more, lines + taken)
  {
    var all, texts := msgs + more, lines + taken;
    forall i | 0 <= i < |all| ensures Arrived(all[i], texts[i]) {
      if i < |msgs| {
        assert Arrived(msgs[i], lines[i]);
      } else {
        assert Arrived(more[i - |msgs|], taken[i - |msgs|]);
      }
    }
  }

  /** A run from its step i on. */
  lemma RunFrom(f: Flow, acts: seq<Act>, i: nat)
    requires i < |acts|
    ensures Steps(f, acts[i..]) == Steps(Step(f, acts[i]), acts[i + 1..])
    ensures AllTaken(f, acts[i..]) == Taken(f, acts[i]) + AllTaken(Step(f, acts[i]), acts[i + 1..])
  {
    assert acts[i..][0] == acts[i] && acts[i..][1..] == acts[i + 1..];
  }

  /** Two connections and the pipe between them, with the history the run leaves. */
  class Link {
    const a: Conn
    const b: Conn
    var wire: string
    var lost: bool
    ghost var accepted: seq<string>
    ghost var hello: seq<string>
    ghost var received: seq<string>
    ghost var sent: string
    ghost var gone: string
    ghost var told: seq<string>

    ghost predicate Valid()
      reads this, a, b
    {
      a != b && {a.inbuf, a.out} !! {b.inbuf, b.out} && a.Valid() && b.Valid() && a.state in {Ident, Ready}
    }

    ghost function Now(): Flow
      requires Valid()
      reads this, a, a.out, b, b.inbuf
    {
      Flow(a.state, a.Out(), wire, b.In(), lost, accepted, hello, received, sent, gone, told)
    }

    constructor ()
      ensures Valid() && Fresh(Now()) && fresh({a, b, a.inbuf, a.out, b.inbuf, b.out})
    {
      a := new Conn();
      b := new Conn();
      wire, lost := "", false;
      accepted, hello, received, sent := [], [], [], "";
      gone, told := "", [];
    }

    method DoSay(line: string)
      requires Valid()
      modifies this`accepted, a`outsz, a.out
      ensures Valid() && Now() == Step(old(Now()), Say(line))
    {
      var rc := a.Push(line);
      if rc == 0 {
        accepted := accepted + [line];
      }
    }

    method DoTransmit(n: nat)
      requires Valid()
      modifies this`wire, this`sent, a`state, a`insz, a.inbuf, a`outsz, a.out
      ensures Valid() && Now() == Step(old(Now()), Transmit(n))
    {
      var k := Min(n, a.outsz);
      wire := wire + a.out[..k];
      sent := sent + a.out[..k];
      ghost var out := a.Out();
      assert a.out[..k] == out[..k];
      if a.state == Ident {
        var _ := a.IdentResume(false, 0, "", true, k);
      } else {
        var _ := a.Send(k);
      }
    }

    method DoDeliver(n: nat)
      requires Valid()
      modifies this`wire, this`lost, this`gone, b`insz, b.inbuf
      ensures Valid() && Now() == Step(old(Now()), Deliver(n))
    {
      if lost {
        return;
      }
      if b.insz == CONN_IN_SIZE {
        Lose();
      } else {
        Receive(Min(Min(n, CONN_IN_SIZE - b.insz), |wire|));
      }
    }

    /** The notice takes the place of the input. */
    method Lose()
      requires Valid()
      modifies this`lost, this`gone, b`insz, b.inbuf
      ensures Valid() && Now() == old(Now()).(lost := true, input := NOTICE, gone := old(b.In()))
    {
      gone := b.In();
      b.Lost();
      lost := true;
    }

    /** k bytes leave the pipe for the input. */
    method Receive(k: nat)
      requires Valid() && k <= CONN_IN_SIZE - b.insz && k <= |wire|
      modifies this`wire, b`insz, b.inbuf
      ensures Valid() && Now() == old(Now()).(input := old(b.In()) + old(wire)[..k], wire := old(wire)[k..])
    {
      var bytes := wire[..k];
      var _ := b.Recv(k, bytes);
      wire := wire[k..];
      assert old(b.In()) + "" == old(b.In());
    }

    /** The producer asks for a message. */
    method DoExtract() returns (msgs: seq<Option<Parsed>>)
      requires Valid()
      modifies this`received, this`told, b`insz, b.inbuf
      ensures Valid() && Now() == Step(old(Now()), Extract)
      ensures Arrivals(msgs, Taken(old(Now()), Extract))
      ensures forall i :: 0 <= i < |msgs| && msgs[i].Some? ==> fresh(msgs[i].value.buf)
    {
      var rc, line, msg := b.Next();
      if rc == 0 {
        return [];
      }
      if lost {
        told := told + [line];
      } else {
        received := received + [line];
      }
      msgs := [msg];
    }

    /** Nothing has been sent yet; the hello is what has been queued so far. */
    ghost predicate Greeting()
      requires Valid()
      reads this, a, a.out, b, b.inbuf
    {
      Fresh(Now().(hello := accepted))
    }

    method Greet(line: string)
      requires Valid() && Greeting()
      modifies this`accepted, a`outsz, a.out
      ensures Valid() && Greeting()
      ensures accepted == if |old(a.Out())| + |line| + 2 < CONN_OUT_SIZE then old(accepted) + [line] else old(accepted)
    {
      ghost var f := Now().(hello := accepted);
      DoSay(line);
      SayIsSound(f, line);
      assert f.sent + a.Out() == a.Out();
    }

    /** conn_ident queues its lines before it waits. */
    method Identify(lines: seq<string>)
      requires Valid() && Fresh(Now()) && accepted == []
      modifies this`accepted, this`hello, a`outsz, a.out
      ensures Valid() && Fresh(Now())
      ensures |Encode(lines)| < CONN_OUT_SIZE ==> accepted == lines
    {
      for i := 0 to |lines|
        invariant Valid() && Greeting()
        invariant |Encode(lines)| < CONN_OUT_SIZE ==> accepted == lines[..i]
      {
        EncodeUpTo(lines, i);
        Greet(lines[i]);
      }
      hello := accepted;
    }

    method Do(act: Act) returns (msgs: seq<Option<Parsed>>)
      requires Valid()
      modifies this`wire, this`lost, this`sent, this`accepted, this`received, this`gone, this`told,
        a`state, a`insz, a.inbuf, a`outsz, a.out, b`insz, b.inbuf
      ensures Valid() && Now() == Step(old(Now()), act)
      ensures Arrivals(msgs, Taken(old(Now()), act))
      ensures forall i :: 0 <= i < |msgs| && msgs[i].Some? ==> fresh(msgs[i].value.buf)
    {
      msgs := [];
      match act
      case Say(line) => DoSay(line);
      case Transmit(n) => DoTransmit(n);
      case Deliver(n) => DoDeliver(n);
      case Extract => msgs := DoExtract();
    }

    /** The buffers of these messages are none of the connections' own. */
    ghost predicate Apart(msgs: seq<Option<Parsed>>) {
      forall i :: 0 <= i < |msgs| && msgs[i].Some? ==> msgs[i].value.buf !in {a.inbuf, a.out, b.inbuf, b.out}
    }

    /** One more step, which leaves the messages that have arrived alone. */
    method DoNext(act: Act, msgs: seq<Option<Parsed>>, ghost lines: seq<string>) returns (all: seq<Option<Parsed>>)
      requires Valid() && Arrivals(msgs, lines) && Apart(msgs)
      modifies this`wire, this`lost, this`sent, this`accepted, this`received, this`gone, this`told,
        a`state, a`insz, a.inbuf, a`outsz, a.out, b`insz, b.inbuf
      ensures Valid() && Now() == Step(old(Now()), act)
      ensures Arrivals(all, lines + Taken(old(Now()), act)) && Apart(all)
    {
      ghost var taken := Taken(Now(), act);
      var more := Do(act);
      ArrivalsConcat(msgs, lines, more, taken);
      all := msgs + more;
    }

    /**
     * The buffers in place follow the flow step by step, past a loss too; and the receiver gets a message
     * for every line taken out, in order, each in a buffer of its own.
     */
    method Perform(acts: seq<Act>) returns (msgs: seq<Option<Parsed>>)
      requires Valid()
      modifies this`wire, this`lost, this`sent, this`accepted, this`received, this`gone, this`told,
        a`state, a`insz, a.inbuf, a`outsz, a.out, b`insz, b.inbuf
      ensures Valid() && Now() == Steps(old(Now()), acts)
      ensures Arrivals(msgs, AllTaken(old(Now()), acts))
    {
      msgs := [];
      ghost var f, lines: seq<string> := Now(), [];
      for i := 0 to |acts|
        invariant Valid() && Arrivals(msgs, lines) && Apart(msgs)
        invariant Steps(Now(), acts[i..]) == Steps(f, acts) && lines + AllTaken(Now(), acts[i..]) == AllTaken(f, acts)
      {
        ghost var taken := Taken(Now(), acts[i]);
        RunFrom(Now(), acts, i);
        Snoc(lines, taken, AllTaken(Step(Now(), acts[i]), acts[i + 1..]));
        msgs := DoNext(acts[i], msgs, lines);
        lines := lines + taken;
      }
    }
  }
}
