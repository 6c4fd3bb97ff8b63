/** CR-LF framing (section 2.3 of RFC 2812) as the connection of lib/irccd/conn.c performs it. */
module Framing {

  const CRLF: string := "\r\n"

  ghost predicate CrlfAt(s: string, i: nat) {
    i + 1 < |s| && s[i] == '\r' && s[i + 1] == '\n'
  }

  ghost predicate CrlfFree(s: string) {
    forall i :: 0 <= i < |s| ==> !CrlfAt(s, i)
  }

  function Encode(lines: seq<string>): string {
    if lines == [] then "" else lines[0] + CRLF + Encode(lines[1..])
  }

  lemma {:induction false} EncodeConcat(a: seq<string>, b: seq<string>)
    ensures Encode(a + b) == Encode(a) + Encode(b)
  {
    if a == [] {
      assert a + b == b;
    } else {
      assert (a + b)[1..] == a[1..] + b;
      EncodeConcat(a[1..], b);
    }
  }

  lemma EncodePrefix(a: seq<string>, b: seq<string>)
    requires a <= b
    ensures Encode(a) <= Encode(b)
  {
    assert b == a + b[|a|..];
    EncodeConcat(a, b[|a|..]);
  }

  lemma EncodeCons(line: string, lines: seq<string>, rest: string)
    ensures Encode([line] + lines) + rest == line + CRLF + (Encode(lines) + rest)
  {
    assert ([line] + lines)[1..] == lines;
    assert line + CRLF + Encode(lines) + rest == line + CRLF + (Encode(lines) + rest);
  }

  lemma {:induction false} EncodeLength(lines: seq<string>)
    ensures |Encode(lines)| >= 2 * |lines|
  {
    if lines != [] {
      EncodeLength(lines[1..]);
    }
  }

  lemma FramedHasCrlf(line: string, rest: string)
    ensures CrlfAt(line + CRLF + rest, |line|)
  {
    var s := line + CRLF + rest;
    assert s[|line|] == '\r' && s[|line| + 1] == '\n';
  }

  /** A CR-LF that starts inside a framed line lies inside it. */
  lemma CrlfInLine(line: string, rest: string, i: nat)
    requires i < |line| && CrlfAt(line + CRLF + rest, i)
    ensures CrlfAt(line, i)
  {
    var s := line + CRLF + rest;
    assert s[i] == line[i] && s[i + 1] == if i + 1 < |line| then line[i + 1] else '\r';
  }

  /** A line without CR-LF, framed and followed by anything: the first CR-LF is its own. */
  lemma FirstCrlf(line: string, rest: string, i: nat)
    requires CrlfFree(line) && CrlfAt(line + CRLF + rest, i)
    ensures i >= |line|
  {
    if i < |line| {
      CrlfInLine(line, rest, i);
    }
  }

  lemma CancelPrefix(a: string, b: string, c: string)
    requires a + b == a + c
    ensures b == c
  {
    assert (a + b)[|a|..] == b && (a + c)[|a|..] == c;
  }

  /** Two framed lines with anything behind them can only agree if the lines do. */
  lemma SameFirstLine(a: string, x: string, b: string, y: string)
    requires CrlfFree(a) && CrlfFree(b) && a + CRLF + x == b + CRLF + y
    ensures a == b && x == y
  {
    var s := a + CRLF + x;
    FramedHasCrlf(a, x);
    FramedHasCrlf(b, y);
    FirstCrlf(a, x, |b|);
    FirstCrlf(b, y, |a|);
    assert a == s[..|a|] && b == s[..|b|];
    CancelPrefix(a + CRLF, x, y);
  }

  ghost predicate AllCrlfFree(lines: seq<string>) {
    forall i :: 0 <= i < |lines| ==> CrlfFree(lines[i])
  }

  /**
   * If the bytes of the lines sent are those of the lines received and a rest, the lines received
   * are the first ones sent, and the rest is exactly what is still to come.
   */
  lemma {:induction false} ReceivedIsPrefix(sent: seq<string>, received: seq<string>, rest: string)
    requires AllCrlfFree(sent) && AllCrlfFree(received)
    requires Encode(sent) == Encode(received) + rest
    ensures received <= sent && rest == Encode(sent[|received|..])
  {
    EncodeLength(received);
    if received == [] {
      assert sent[0..] == sent;
    } else if sent != [] {
      assert Encode(received) + rest == received[0] + CRLF + (Encode(received[1..]) + rest);
      SameFirstLine(sent[0], Encode(sent[1..]), received[0], Encode(received[1..]) + rest);
      ReceivedIsPrefix(sent[1..], received[1..], rest);
      assert sent[1..][|received| - 1..] == sent[|received|..];
      assert sent == [sent[0]] + sent[1..];
    }
  }

  /** With no complete line left over, everything has been received. */
  lemma ReceivedIsAll(sent: seq<string>, received: seq<string>, rest: string)
    requires AllCrlfFree(sent) && AllCrlfFree(received) && CrlfFree(rest)
    requires Encode(sent) == Encode(received) + rest
    ensures received == sent && rest == ""
  {
    ReceivedIsPrefix(sent, received, rest);
    var left := sent[|received|..];
    if left != [] {
      FramedHasCrlf(left[0], Encode(left[1..]));
    }
  }

  /** memmem for CR-LF: the index of the first one, or |s|. */
  function Find(s: string): (i: nat)
    ensures i <= |s| && (i < |s| ==> i + 1 < |s|)
  {
    if |s| < 2 then |s|
    else if s[0] == '\r' && s[1] == '\n' then 0
    else 1 + Find(s[1..])
  }

  lemma {:induction false} FindIsFirst(s: string)
    ensures Find(s) < |s| ==> CrlfAt(s, Find(s))
    ensures forall j :: 0 <= j < Find(s) ==> !CrlfAt(s, j)
  {
    if |s| >= 2 && !(s[0] == '\r' && s[1] == '\n') {
      FindIsFirst(s[1..]);
      forall j | 0 <= j < Find(s) ensures !CrlfAt(s, j) {
        if j > 0 {
          assert CrlfAt(s, j) == CrlfAt(s[1..], j - 1);
        }
      }
    }
  }

  /** The search finds the end of a framed line. */
  lemma FindsLine(line: string, rest: string)
    requires CrlfFree(line)
    ensures Find(line + CRLF + rest) == |line|
  {
    var s := line + CRLF + rest;
    FindIsFirst(s);
    FramedHasCrlf(line, rest);
    if Find(s) < |s| {
      FirstCrlf(line, rest, Find(s));
    }
  }

  lemma SplitAtCrlf(s: string, i: nat)
    requires CrlfAt(s, i)
    ensures s == s[..i] + CRLF + s[i + 2..]
  {
    assert CRLF == s[i..i + 2];
    assert s == s[..i] + s[i..i + 2] + s[i + 2..];
  }

  lemma PrefixIsCrlfFree(s: string, i: nat)
    requires i <= |s| && forall j :: 0 <= j < i ==> !CrlfAt(s, j)
    ensures CrlfFree(s[..i])
  {
    forall j | 0 <= j < i ensures !CrlfAt(s[..i], j) {
      assert !CrlfAt(s, j);
    }
  }

  /** The lines a receiver extracts from a complete stream, and what is left. */
  function Decoded(s: string): (lines: seq<string>)
    decreases |s|
  {
    var i := Find(s);
    if i == |s| then [] else [s[..i]] + Decoded(s[i + 2..])
  }

  function Leftover(s: string): (rest: string)
    decreases |s|
  {
    var i := Find(s);
    if i == |s| then s else Leftover(s[i + 2..])
  }

  /** Decoding accounts for every byte, and what it extracts is free of CR-LF. */
  lemma {:induction false} DecodedAccounts(s: string)
    ensures AllCrlfFree(Decoded(s)) && s == Encode(Decoded(s)) + Leftover(s) && CrlfFree(Leftover(s))
    decreases |s|
  {
    var i := Find(s);
    FindIsFirst(s);
    if i < |s| {
      var line, tail := s[..i], s[i + 2..];
      SplitAtCrlf(s, i);
      PrefixIsCrlfFree(s, i);
      DecodedAccounts(tail);
      EncodeCons(line, Decoded(tail), Leftover(tail));
    }
  }

  /** Framing is faithful to a list of lines exactly when no line contains a CR-LF. */
  lemma FaithfulIffCrlfFree(lines: seq<string>)
    ensures Decoded(Encode(lines)) == lines <==> AllCrlfFree(lines)
  {
    var s := Encode(lines);
    DecodedAccounts(s);
    if AllCrlfFree(lines) {
      ReceivedIsAll(lines, Decoded(s), Leftover(s));
    }
  }
}
