/**
 * From messages to messages: what irc_server_send of lib/irccd/server.c makes of a text always fits, and a
 * message printed on a line comes out of the receiver's parser as it was.
 */
module PipeMessages {
  import opened Framing
  import opened Connection
  import opened Options
  import opened Pipe
  import opened PipeProgress
  import opened PipeSaid
  import Message

  // ---- the lines this program sends

  /** irc_server_send_va: the formatted text is cut to its buffer, and taken up to its first NUL. */
  function Formatted(text: string): string {
    var s := text[..Min(|text|, IRCCD_MESSAGE_LEN - 1)];
    s[..Message.IndexOf(s, Message.NUL)]
  }

  /** The text as far as it goes: cut only by the end of the buffer or by a NUL. */
  lemma FormattedIsLongest(text: string)
    ensures Formatted(text) <= text
    ensures |Formatted(text)| == IRCCD_MESSAGE_LEN - 1 || Formatted(text) == text || text[|Formatted(text)|] == Message.NUL
  {
  }

  /** The lines it can push. */
  predicate Sendable(line: string) {
    |line| < IRCCD_MESSAGE_LEN && Message.NUL !in line
  }

  lemma FormattedExactly(line: string)
    ensures (exists text :: Formatted(text) == line) <==> Sendable(line)
    ensures Sendable(line) <==> |line| <= 511 && '\0' !in line
  {
    if Sendable(line) {
      Message.NoNul(line);
      assert line[..Min(|line|, IRCCD_MESSAGE_LEN - 1)] == line;
      assert Formatted(line) == line;
    }
  }

  ghost predicate AllSendable(lines: seq<string>) {
    AllCrlfFree(lines) && forall i :: 0 <= i < |lines| ==> Sendable(lines[i])
  }

  /** Such lines all arrive: an eager run of them is never lost, and can be continued to the end. */
  lemma SentArrives(f: Flow, acts: seq<Act>) returns (more: seq<Act>)
    requires Fresh(f) && Eager(f, acts) && AllSendable(Steps(f, acts).accepted)
    ensures !Steps(f, acts).lost
    ensures Silent(more) && AllTaken(f, acts + more) == Steps(f, acts).accepted
  {
    StepsAreSound(f, acts);
    EagerStaysUp(f, acts);
    more := Delivers(f, acts);
    StepsConcat(f, acts, more);
    DeliveredInOrder(f, acts + more);
    var r := Steps(f, acts + more);
    assert r.told == [];
    assert r.received + [] == r.received;
  }

  // ---- the messages on them

  /** A message and how its line is to end. */
  datatype Printed = Printed(m: Message.Msg, e: Message.Ending)

  function LineOf(p: Printed): string {
    Message.Print(p.m, p.e)
  }

  /** A message that a line of this program can carry. */
  ghost predicate Carried(p: Printed) {
    Message.Printable(p.m) && Message.Allows(p.m, p.e) &&
    0 < |LineOf(p)| < IRCCD_MESSAGE_LEN && CrlfFree(LineOf(p))
  }

  /** The lines are those of these messages, one each. */
  ghost predicate Carry(lines: seq<string>, ps: seq<Printed>) {
    |lines| == |ps| && forall i :: 0 <= i < |ps| ==> Carried(ps[i]) && lines[i] == LineOf(ps[i])
  }

  /** A message of the receiver: parsed, and its pieces are those of m. */
  ghost predicate IsMessage(msg: Option<Parsed>, m: Message.Msg, line: string)
    reads if msg.Some? then {msg.value.buf} else {}
  {
    msg.Some? && Message.Holds(msg.value.buf[..], msg.value.at, m, Message.IndexOf(line, Message.NUL))
  }

  lemma CarriedArrives(p: Printed, msg: Option<Parsed>)
    requires Carried(p) && Arrived(msg, LineOf(p))
    ensures IsMessage(msg, p.m, LineOf(p))
  {
    Message.ParseInvertsPrint(p.m, p.e);
  }

  lemma CarriedIsSendable(p: Printed)
    requires Carried(p)
    ensures Sendable(LineOf(p))
  {
    Message.TextInvertsPrint(p.m, p.e);
  }

  /** In every run over such lines the receiver's messages are the first ones sent, in order, a loss apart. */
  lemma MessagesInOrder(f: Flow, acts: seq<Act>, ps: seq<Printed>, msgs: seq<Option<Parsed>>)
    requires Fresh(f) && Carry(Steps(f, acts).accepted, ps) && Arrivals(msgs, AllTaken(f, acts))
    ensures var r := Steps(f, acts);
      |r.received| <= |ps| && |msgs| == |r.received| + |r.told| && |r.told| <= (if r.lost then 1 else 0) &&
      (forall i :: 0 <= i < |r.received| ==> IsMessage(msgs[i], ps[i].m, LineOf(ps[i]))) &&
      (r.told != [] ==> IsMessage(msgs[|r.received|], Message.Msg(Some("internal"), "000", []), INTERNAL))
  {
    var r := Steps(f, acts);
    DeliveredInOrder(f, acts);
    forall i | 0 <= i < |r.received| ensures IsMessage(msgs[i], ps[i].m, LineOf(ps[i])) {
      assert AllTaken(f, acts)[i] == r.accepted[i] == LineOf(ps[i]);
      CarriedArrives(ps[i], msgs[i]);
    }
    if r.told != [] {
      assert AllTaken(f, acts)[|r.received|] == INTERNAL;
      NoticeIsDisconnect();
    }
  }

  /** End to end: some continuation of an eager run brings every message sent, and nothing else. */
  lemma MessagesArrive(f: Flow, acts: seq<Act>, ps: seq<Printed>) returns (more: seq<Act>)
    requires Fresh(f) && Eager(f, acts) && Carry(Steps(f, acts).accepted, ps)
    ensures Silent(more) && |AllTaken(f, acts + more)| == |ps|
    ensures forall i :: 0 <= i < |ps| ==> Message.Parse(AllTaken(f, acts + more)[i]) == ps[i].m
  {
    var lines := Steps(f, acts).accepted;
    forall i | 0 <= i < |lines| ensures Sendable(lines[i]) && CrlfFree(lines[i]) {
      CarriedIsSendable(ps[i]);
    }
    more := SentArrives(f, acts);
    forall i | 0 <= i < |ps| ensures Message.Parse(lines[i]) == ps[i].m {
      Message.ParseInvertsPrint(ps[i].m, ps[i].e);
    }
  }

  /** The same from what is said: all of it arrives if the queue has room for it. */
  lemma SaidArrives(f: Flow, acts: seq<Act>, ps: seq<Printed>) returns (more: seq<Act>)
    requires Fresh(f) && f.accepted == [] && Eager(f, acts)
    requires |Encode(Said(acts))| < CONN_OUT_SIZE && Carry(Said(acts), ps)
    ensures Silent(more) && |AllTaken(f, acts + more)| == |ps|
    ensures forall i :: 0 <= i < |ps| ==> Message.Parse(AllTaken(f, acts + more)[i]) == ps[i].m
  {
    AllSaidAccepted(f, acts);
    assert [] + Said(acts) == Said(acts);
    more := MessagesArrive(f, acts, ps);
  }
}
