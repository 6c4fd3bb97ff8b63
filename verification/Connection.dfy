/**
 * The connection buffers of lib/irccd/conn.c: output queued in order and drained by partial
 * sends, input collected from arbitrary chunks and cut into lines.
 */
module Connection {
  import opened Framing
  import opened Options
  import Message

  const CONN_IN_SIZE: nat := 8096
  const CONN_OUT_SIZE: nat := 65536
  const IRCCD_MESSAGE_LEN: nat := 512
  const ENOBUFS: int := 105

  /** What a lost connection leaves in its input for the producer. */
  const INTERNAL: string := ":internal 000"
  const NOTICE: string := INTERNAL + CRLF

  /** The states of an established connection. */
  datatype State = Ident | Ready

  /** A parsed message: the buffer it owns, and where in it the pieces are. */
  datatype Parsed = Parsed(buf: array<char>, at: Message.Slices)

  /** The pieces of the message on a line, as the parser leaves them. */
  ghost predicate Held(p: Parsed, line: string)
    reads p.buf
  {
    Message.Holds(p.buf[..], p.at, Message.Parse(line), Message.IndexOf(line, Message.NUL))
  }

  /** What conn_next makes of a line: it is parsed only if it is neither empty nor too long. */
  ghost predicate Arrived(msg: Option<Parsed>, line: string)
    reads if msg.Some? then {msg.value.buf} else {}
  {
    (msg.Some? <==> 0 < |line| < IRCCD_MESSAGE_LEN) && (msg.Some? ==> Held(msg.value, line))
  }

  class Conn {
    var state: State
    const inbuf: array<char>
    var insz: nat
    const out: array<char>
    var outsz: nat

    ghost predicate Valid()
      reads this
    {
      inbuf.Length == CONN_IN_SIZE && insz <= CONN_IN_SIZE &&
      out.Length == CONN_OUT_SIZE && outsz <= CONN_OUT_SIZE && inbuf != out
    }

    /** A connection that has just been established. */
    constructor ()
      ensures Valid() && state == Ident && In() == "" && Out() == ""
      ensures fresh(inbuf) && fresh(out)
    {
      state := Ident;
      inbuf, insz := new char[CONN_IN_SIZE](_ => '\0'), 0;
      out, outsz := new char[CONN_OUT_SIZE](_ => '\0'), 0;
    }

    ghost function In(): string
      requires Valid()
      reads this, inbuf
    {
      inbuf[..insz]
    }

    ghost function Out(): string
      requires Valid()
      reads this, out
    {
      out[..outsz]
    }

    /** irc__conn_push: the whole framed line is queued, or nothing. */
    method Push(data: string) returns (rc: int)
      requires Valid()
      modifies this`outsz, out
      ensures Valid()
      ensures rc == if |data| + 2 >= CONN_OUT_SIZE - old(outsz) then -ENOBUFS else 0
      ensures Out() == if rc == 0 then old(Out()) + data + CRLF else old(Out())
    {
      if |data| + 2 >= CONN_OUT_SIZE - outsz {
        return -ENOBUFS;
      }
      Append(data);
      Append(CRLF);
      return 0;
    }

    /** memcpy behind the queued bytes. */
    method Append(data: string)
      requires Valid() && outsz + |data| <= CONN_OUT_SIZE
      modifies this`outsz, out
      ensures Valid() && Out() == old(Out()) + data
    {
      forall i | 0 <= i < |data| {
        out[outsz + i] := data[i];
      }
      outsz := outsz + |data|;
    }

    /** conn_send, the transport having accepted ns bytes (negative: failed). */
    method Send(ns: int) returns (rc: int)
      requires Valid() && ns <= outsz
      modifies this`outsz, out
      ensures Valid()
      ensures rc == if old(outsz) == 0 then 0 else ns
      ensures Out() == if ns > 0 then old(Out())[ns..] else old(Out())
    {
      if outsz == 0 {
        return 0;
      }
      if ns > 0 {
        if ns >= outsz {
          forall i | 0 <= i < out.Length {
            out[i] := '\0';
          }
          outsz := 0;
        } else {
          forall i | 0 <= i < out.Length - ns {
            out[i] := out[ns + i];
          }
          outsz := outsz - ns;
        }
      }
      return ns;
    }

    /** conn_recv, the transport having delivered nr bytes (negative: failed), no more than there is room for. */
    method Recv(nr: int, data: string) returns (rc: int)
      requires Valid() && nr <= CONN_IN_SIZE - insz && (nr > 0 ==> |data| == nr)
      modifies this`insz, inbuf
      ensures Valid() && rc == nr && In() == if nr > 0 then old(In()) + data else old(In())
    {
      if nr > 0 {
        forall i | 0 <= i < nr {
          inbuf[insz + i] := data[i];
        }
        insz := insz + nr;
      }
      return nr;
    }

    /** conn_wait: what the socket is ready for is done, receiving first; a failure ends it. */
    method Wait(readable: bool, nr: int, data: string, writable: bool, ns: int) returns (rc: int)
      requires Valid() && nr <= CONN_IN_SIZE - insz && (nr > 0 ==> |data| == nr) && ns <= outsz
      modifies this`insz, inbuf, this`outsz, out
      ensures Valid()
      ensures In() == if readable && nr > 0 then old(In()) + data else old(In())
      ensures Out() == if writable && ns > 0 && rc == 0 then old(Out())[ns..] else old(Out())
      ensures rc == if readable && nr < 0 then nr else if writable && ns < 0 && old(outsz) != 0 then ns else 0
    {
      if readable {
        rc := Recv(nr, data);
        if rc < 0 {
          return;
        }
      }
      if writable {
        rc := Send(ns);
        if rc < 0 {
          return;
        }
      }
      rc := 0;
    }

    /** memmem for CR-LF in the bytes received. */
    method FindLine() returns (pos: nat)
      requires Valid()
      ensures pos == Find(In())
    {
      pos := 0;
      while pos + 1 < insz
        invariant pos <= insz
        invariant Find(In()) == pos + Find(In()[pos..])
      {
        if inbuf[pos] == '\r' && inbuf[pos + 1] == '\n' {
          return;
        }
        assert In()[pos..][1..] == In()[pos + 1..];
        pos := pos + 1;
      }
      pos := insz;
    }

    /**
     * conn_next: the first complete line is taken off the input. It is parsed only if it is neither
     * empty nor IRCCD_MESSAGE_LEN long or longer; the result is 1 in either case.
     */
    method Next() returns (rc: int, ghost line: string, msg: Option<Parsed>)
      requires Valid()
      modifies this`insz, inbuf
      ensures Valid()
      ensures rc == if Find(old(In())) < |old(In())| then 1 else 0
      ensures rc == 0 ==> In() == old(In()) && msg.None?
      ensures rc == 1 ==> line == old(In())[..Find(old(In()))] && In() == old(In())[Find(old(In())) + 2..]
      ensures rc == 1 ==> CrlfFree(line) && old(In()) == line + CRLF + In()
      ensures rc == 1 ==> Arrived(msg, line)
      ensures msg.Some? ==> fresh(msg.value.buf)
    {
      ghost var was := In();
      FindIsFirst(was);
      var length := FindLine();
      if length == insz {
        return 0, "", None;
      }
      SplitAtCrlf(was, length);
      PrefixIsCrlfFree(was, length);
      line := inbuf[..length];
      msg := None;
      if length > 0 && length < IRCCD_MESSAGE_LEN {
        var buf, at, _ := Message.ParseInPlace(inbuf[..length]);
        msg := Some(Parsed(buf, at));
      }
      Shift(length + 2);
      assert line == was[..length] && In() == was[length + 2..];
      rc := 1;
    }

    /** memmove of everything behind the first n bytes to the front. */
    method Shift(n: nat)
      requires Valid() && n <= insz
      modifies this`insz, inbuf
      ensures Valid() && In() == old(In())[n..]
    {
      forall i | 0 <= i < inbuf.Length - n {
        inbuf[i] := inbuf[n + i];
      }
      insz := insz - n;
    }

    /**
     * One round of the loop that ends conn_ident: READY once all is sent; a failure, which is returned,
     * has the connection rescheduled instead.
     */
    method IdentResume(readable: bool, nr: int, data: string, writable: bool, ns: int) returns (rc: int)
      requires Valid() && state == Ident
      requires nr <= CONN_IN_SIZE - insz && (nr > 0 ==> |data| == nr) && ns <= outsz
      modifies this`state, this`insz, inbuf, this`outsz, out
      ensures Valid()
      ensures rc == if old(outsz) == 0 then 0 else if readable && nr < 0 then nr else if writable && ns < 0 then ns else 0
      ensures In() == if old(outsz) != 0 && readable && nr > 0 then old(In()) + data else old(In())
      ensures Out() == if writable && ns > 0 && rc == 0 then old(Out())[ns..] else old(Out())
      ensures state == if rc == 0 && Out() == "" then Ready else Ident
    {
      rc := 0;
      if outsz != 0 {
        rc := Wait(readable, nr, data, writable, ns);
      }
      if rc == 0 && outsz == 0 {
        state := Ready;
      }
    }

    /** The end of conn_ready on a lost connection: the input becomes a message of our own. */
    method Lost()
      requires Valid()
      modifies this`insz, inbuf
      ensures Valid() && In() == NOTICE
    {
      insz := 0;
      var _ := Recv(|NOTICE|, NOTICE);
    }
  }
}
