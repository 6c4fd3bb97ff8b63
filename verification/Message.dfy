/**
 * The message parser of lib/irccd/conn.c: a line is cut in place into NUL-terminated pieces, as
 * section 2.3.1 of RFC 2812 lays a message out.
 */
module Message {
  import opened Options

  const NUL: char := '\0'

  /** The pieces of a message. The source leaves the prefix null when the line has none. */
  datatype Msg = Msg(prefix: Option<string>, cmd: string, args: seq<string>)

  // ---- the parser on values

  /** strchr: the index of the first c in s, or |s|. */
  function IndexOf(s: string, c: char): (i: nat)
    ensures i <= |s| && (i < |s| ==> s[i] == c) && c !in s[..i]
  {
    if s == "" then 0
    else if s[0] == c then 0
    else
      var k := IndexOf(s[1..], c);
      assert s[..1 + k] == [s[0]] + s[1..][..k];
      1 + k
  }

  /** irc__conn_msg_scan: the text up to the next space, and what follows that space. */
  function Word(s: string): string {
    s[..IndexOf(s, ' ')]
  }

  function AfterWord(s: string): (r: string)
    ensures |r| <= |s| && (s != "" ==> |r| < |s|)
  {
    var i := IndexOf(s, ' ');
    if i == |s| then "" else s[i + 1..]
  }

  function Args(s: string): seq<string>
    decreases |s|
  {
    if s == "" then []
    else if s[0] == ':' then [s[1..]]
    else [Word(s)] + Args(AfterWord(s))
  }

  /** irc__conn_msg_parse. strndup stops at the first NUL. */
  function Parse(line: string): Msg {
    ParseText(line[..IndexOf(line, NUL)])
  }

  function ParseText(s: string): Msg {
    if s != "" && s[0] == ':' then
      var t := s[1..];
      var u := AfterWord(t);
      Msg(Some(Word(t)), Word(u), Args(AfterWord(u)))
    else Msg(None, Word(s), Args(AfterWord(s)))
  }

  // ---- the printer, and that the parser inverts it

  /**
   * The ways to end a line: the last argument behind a colon, bare, or bare with a space behind it; a
   * command without arguments is bare or has that space; and a line may stop at its prefix.
   */
  datatype Ending = Marked | Bare | Spaced | Stopped

  function PrintLast(arg: string, e: Ending): string {
    match e
    case Marked => ":" + arg
    case Spaced => arg + " "
    case _ => arg
  }

  function PrintArgs(args: seq<string>, e: Ending): string
    requires args != []
  {
    if |args| == 1 then PrintLast(args[0], e) else args[0] + " " + PrintArgs(args[1..], e)
  }

  function Tail(m: Msg, e: Ending): string {
    if m.args != [] then " " + PrintArgs(m.args, e) else if e == Spaced then " " else ""
  }

  function Print(m: Msg, e: Ending): string {
    match m.prefix
    case None => m.cmd + Tail(m, e)
    case Some(p) => if e == Stopped then ":" + p else ":" + (p + " " + (m.cmd + Tail(m, e)))
  }

  predicate Spaceless(s: string) {
    ' ' !in s && NUL !in s
  }

  /** A middle argument must not look like the trailing one. */
  predicate Middle(s: string) {
    Spaceless(s) && (s == "" || s[0] != ':')
  }

  /** The messages a printer may be given; the last argument may hold anything but NUL. */
  predicate Printable(m: Msg) {
    (m.prefix.Some? ==> Spaceless(m.prefix.value)) &&
    Spaceless(m.cmd) && (m.prefix.None? ==> m.cmd == "" || m.cmd[0] != ':') && PrintableArgs(m.args)
  }

  predicate PrintableArgs(args: seq<string>) {
    (args != [] ==> NUL !in args[|args| - 1]) && forall i :: 0 <= i < |args| - 1 ==> Middle(args[i])
  }

  /** The endings a message allows: only a middle argument may be bare, and an empty one needs the space. */
  predicate Allows(m: Msg, e: Ending) {
    match e
    case Stopped => m.prefix.Some? && m.cmd == "" && m.args == []
    case _ => if m.args == [] then e != Marked else AllowsArgs(m.args, e)
  }

  predicate AllowsArgs(args: seq<string>, e: Ending)
    requires args != []
  {
    match e
    case Marked => true
    case Bare => Middle(args[|args| - 1]) && args[|args| - 1] != ""
    case Spaced => Middle(args[|args| - 1])
    case Stopped => false
  }

  lemma WordOfSpaceless(w: string, rest: string)
    requires ' ' !in w
    ensures Word(w + " " + rest) == w && AfterWord(w + " " + rest) == rest
  {
    var s := w + " " + rest;
    IndexOfIs(s, ' ', |w|);
  }

  lemma {:induction false} IndexOfIs(s: string, c: char, k: nat)
    requires k < |s| && s[k] == c && c !in s[..k]
    ensures IndexOf(s, c) == k
  {
    if k > 0 {
      assert s[0] in s[..k];
      assert s[1..][..k - 1] == s[..k][1..];
      IndexOfIs(s[1..], c, k - 1);
    }
  }

  lemma WordIsAll(w: string)
    requires ' ' !in w
    ensures Word(w) == w && AfterWord(w) == ""
  {
  }

  /** The arguments are read back from each of their printings. */
  lemma {:induction false} ArgsInvertsPrint(args: seq<string>, e: Ending)
    requires args != [] && PrintableArgs(args) && AllowsArgs(args, e)
    ensures Args(PrintArgs(args, e)) == args && NUL !in PrintArgs(args, e)
    decreases |args|
  {
    if |args| == 1 {
      LastInvertsPrint(args[0], e);
      assert args == [args[0]];
    } else {
      var rest := PrintArgs(args[1..], e);
      ArgsInvertsPrint(args[1..], e);
      MiddleIsRead(args[0], rest);
      assert args == [args[0]] + args[1..];
    }
  }

  lemma MiddleIsRead(w: string, rest: string)
    requires Middle(w)
    ensures Args(w + " " + rest) == [w] + Args(rest)
  {
    var s := w + " " + rest;
    assert s[0] == if w == "" then ' ' else w[0];
    WordOfSpaceless(w, rest);
  }

  lemma LastInvertsPrint(arg: string, e: Ending)
    requires NUL !in arg && AllowsArgs([arg], e)
    ensures Args(PrintLast(arg, e)) == [arg] && NUL !in PrintLast(arg, e)
  {
    match e {
      case Marked =>
        assert (":" + arg)[1..] == arg;
      case Spaced =>
        MiddleIsRead(arg, "");
        assert arg + " " + "" == arg + " ";
      case _ =>
        WordIsAll(arg);
    }
  }

  lemma SplitsAtSpace(w: string, rest: string)
    requires ' ' !in w
    ensures Word(w + (" " + rest)) == w && AfterWord(w + (" " + rest)) == rest
  {
    assert w + (" " + rest) == w + " " + rest;
    WordOfSpaceless(w, rest);
  }

  lemma TailOfNoneParses(cmd: string, tail: string)
    requires ' ' !in cmd && (tail == "" || tail == " ")
    ensures Word(cmd + tail) == cmd && Args(AfterWord(cmd + tail)) == []
  {
    if tail == "" {
      assert cmd + tail == cmd;
      WordIsAll(cmd);
    } else {
      assert tail == " " + "";
      SplitsAtSpace(cmd, "");
    }
  }

  lemma TailParses(m: Msg, e: Ending)
    requires Printable(m) && Allows(m, e) && e != Stopped
    ensures var s := m.cmd + Tail(m, e); Word(s) == m.cmd && Args(AfterWord(s)) == m.args && NUL !in Tail(m, e)
  {
    if m.args == [] {
      TailOfNoneParses(m.cmd, Tail(m, e));
    } else {
      ArgsInvertsPrint(m.args, e);
      SplitsAtSpace(m.cmd, PrintArgs(m.args, e));
    }
  }

  lemma PrefixedText(p: string, body: string)
    requires ' ' !in p
    ensures ParseText(":" + (p + " " + body)) == Msg(Some(p), Word(body), Args(AfterWord(body)))
  {
    var t := p + " " + body;
    assert (":" + t)[1..] == t;
    WordOfSpaceless(p, body);
  }

  lemma StoppedText(p: string)
    requires ' ' !in p
    ensures ParseText(":" + p) == Msg(Some(p), "", [])
  {
    assert (":" + p)[1..] == p;
    WordIsAll(p);
  }

  lemma UnprefixedText(m: Msg, e: Ending)
    requires Printable(m) && m.prefix.None?
    ensures ParseText(m.cmd + Tail(m, e)) == Msg(None, Word(m.cmd + Tail(m, e)), Args(AfterWord(m.cmd + Tail(m, e))))
  {
    var s := m.cmd + Tail(m, e);
    assert s != "" && m.cmd == "" ==> s[0] == ' ';
  }

  lemma StoppedInverts(m: Msg)
    requires Printable(m) && Allows(m, Stopped)
    ensures ParseText(Print(m, Stopped)) == m && NUL !in Print(m, Stopped)
  {
    StoppedText(m.prefix.value);
  }

  lemma PrefixedInverts(m: Msg, e: Ending)
    requires Printable(m) && Allows(m, e) && e != Stopped && m.prefix.Some?
    ensures ParseText(Print(m, e)) == m && NUL !in Print(m, e)
  {
    TailParses(m, e);
    PrefixedText(m.prefix.value, m.cmd + Tail(m, e));
  }

  lemma UnprefixedInverts(m: Msg, e: Ending)
    requires Printable(m) && Allows(m, e) && e != Stopped && m.prefix.None?
    ensures ParseText(Print(m, e)) == m && NUL !in Print(m, e)
  {
    TailParses(m, e);
    UnprefixedText(m, e);
  }

  lemma TextInvertsPrint(m: Msg, e: Ending)
    requires Printable(m) && Allows(m, e)
    ensures ParseText(Print(m, e)) == m && NUL !in Print(m, e)
  {
    if e == Stopped {
      StoppedInverts(m);
    } else if m.prefix.Some? {
      PrefixedInverts(m, e);
    } else {
      UnprefixedInverts(m, e);
    }
  }

  lemma NoNul(s: string)
    requires NUL !in s
    ensures IndexOf(s, NUL) == |s| && s[..IndexOf(s, NUL)] == s
  {
  }

  /** The parser inverts the printer, however the line was ended. */
  lemma ParseInvertsPrint(m: Msg, e: Ending)
    requires Printable(m) && Allows(m, e)
    ensures Parse(Print(m, e)) == m
  {
    TextInvertsPrint(m, e);
    NoNul(Print(m, e));
  }

  // ---- every line is a printing

  /** A word, and what follows it. */
  lemma WordSplits(s: string)
    requires NUL !in s
    ensures Spaceless(Word(s)) && NUL !in AfterWord(s)
    ensures Word(s) != s ==> s == Word(s) + (" " + AfterWord(s))
    ensures Word(s) == s ==> AfterWord(s) == ""
  {
    var i := IndexOf(s, ' ');
    if i < |s| {
      assert s == s[..i] + ([s[i]] + s[i + 1..]);
    }
  }

  lemma ConsPrintable(w: string, args: seq<string>, e: Ending)
    requires args != [] && Middle(w) && PrintableArgs(args) && AllowsArgs(args, e)
    ensures PrintableArgs([w] + args) && AllowsArgs([w] + args, e)
    ensures PrintArgs([w] + args, e) == w + " " + PrintArgs(args, e)
  {
    var all := [w] + args;
    assert all[1..] == args && all[|all| - 1] == args[|args| - 1];
    assert forall i :: 0 < i < |all| ==> all[i] == args[i - 1];
  }

  /** s is the printing of the arguments read from it, ended by e. */
  ghost predicate ArgsPrinted(s: string, e: Ending) {
    var args := Args(s);
    args != [] && PrintableArgs(args) && AllowsArgs(args, e) && s == PrintArgs(args, e)
  }

  lemma TrailingIsPrinted(s: string)
    requires NUL !in s && s != "" && s[0] == ':'
    ensures ArgsPrinted(s, Marked)
  {
    assert s == ":" + s[1..];
  }

  lemma MiddlePrints(w: string, rest: string, args: seq<string>, e: Ending)
    requires args != [] && Middle(w) && PrintableArgs(args) && AllowsArgs(args, e) && rest == PrintArgs(args, e)
    ensures var all := [w] + args;
      PrintableArgs(all) && AllowsArgs(all, e) && PrintArgs(all, e) == w + (" " + rest)
  {
    ConsPrintable(w, args, e);
    assert w + (" " + rest) == w + " " + rest;
  }

  lemma MiddleIsPrinted(s: string, e: Ending)
    requires NUL !in s && s != "" && s[0] != ':' && ArgsPrinted(AfterWord(s), e)
    ensures ArgsPrinted(s, e)
  {
    var w, rest := Word(s), AfterWord(s);
    WordSplits(s);
    FirstOfWord(s);
    MiddlePrints(w, rest, Args(rest), e);
    assert Args(s) == [w] + Args(rest);
  }

  lemma FirstOfWord(s: string)
    requires s != ""
    ensures Word(s) != "" ==> Word(s)[0] == s[0]
  {
  }

  lemma LastIsPrinted(s: string)
    requires NUL !in s && s != "" && s[0] != ':' && AfterWord(s) == ""
    ensures ArgsPrinted(s, if Word(s) == s then Bare else Spaced)
  {
    WordSplits(s);
    FirstOfWord(s);
    assert Args(s) == [Word(s)];
    assert " " + "" == " ";
  }

  /** An argument text is one of the printings of the arguments read from it. */
  lemma {:induction false} ArgsArePrinted(s: string) returns (e: Ending)
    requires NUL !in s && s != ""
    ensures ArgsPrinted(s, e)
    decreases |s|
  {
    if s[0] == ':' {
      TrailingIsPrinted(s);
      e := Marked;
    } else if AfterWord(s) == "" {
      LastIsPrinted(s);
      e := if Word(s) == s then Bare else Spaced;
    } else {
      WordSplits(s);
      e := ArgsArePrinted(AfterWord(s));
      MiddleIsPrinted(s, e);
    }
  }

  /** A command and its arguments, with the space between them. */
  lemma BodyIsPrinted(prefix: Option<string>, s: string) returns (m: Msg, e: Ending)
    requires NUL !in s
    ensures m == Msg(prefix, Word(s), Args(AfterWord(s))) && Allows(m, e) && e != Stopped
    ensures s == m.cmd + Tail(m, e) && Spaceless(m.cmd) && PrintableArgs(m.args)
  {
    var rest := AfterWord(s);
    WordSplits(s);
    m := Msg(prefix, Word(s), Args(rest));
    if rest != "" {
      e := ArgsArePrinted(rest);
    } else if Word(s) == s {
      e := Bare;
    } else {
      e := Spaced;
      assert " " + "" == " ";
    }
  }

  /** The message read from what follows the colon of a prefix. */
  function Prefixed(t: string): Msg {
    Msg(Some(Word(t)), Word(AfterWord(t)), Args(AfterWord(AfterWord(t))))
  }

  lemma StoppedIsPrinted(t: string)
    requires NUL !in t && Word(t) == t
    ensures Printable(Prefixed(t)) && Allows(Prefixed(t), Stopped) && ":" + t == Print(Prefixed(t), Stopped)
  {
    WordSplits(t);
    assert Prefixed(t) == Msg(Some(t), "", []);
  }

  lemma FollowedPrints(m: Msg, e: Ending, body: string)
    requires m.prefix.Some? && Spaceless(m.prefix.value) && Spaceless(m.cmd) && PrintableArgs(m.args)
    requires e != Stopped && body == m.cmd + Tail(m, e)
    ensures Printable(m) && Print(m, e) == ":" + (m.prefix.value + " " + body)
  {
  }

  lemma FollowedIsPrinted(t: string) returns (e: Ending)
    requires NUL !in t && Word(t) != t
    ensures Printable(Prefixed(t)) && Allows(Prefixed(t), e) && ":" + t == Print(Prefixed(t), e)
  {
    var w, body := Word(t), AfterWord(t);
    WordSplits(t);
    var m;
    m, e := BodyIsPrinted(Some(w), body);
    FollowedPrints(m, e, body);
  }

  lemma PrefixedIsPrinted(t: string) returns (e: Ending)
    requires NUL !in t
    ensures Printable(Prefixed(t)) && Allows(Prefixed(t), e) && ":" + t == Print(Prefixed(t), e)
  {
    if Word(t) == t {
      StoppedIsPrinted(t);
      e := Stopped;
    } else {
      e := FollowedIsPrinted(t);
    }
  }

  lemma UnprefixedIsPrinted(s: string) returns (e: Ending)
    requires NUL !in s && (s == "" || s[0] != ':')
    ensures var m := Msg(None, Word(s), Args(AfterWord(s))); Printable(m) && Allows(m, e) && s == Print(m, e)
  {
    var m;
    m, e := BodyIsPrinted(None, s);
    assert m.cmd != "" ==> m.cmd[0] == s[0];
  }

  /** Every line is one of the printings of the message it is parsed to. */
  lemma LineIsPrinted(s: string) returns (e: Ending)
    requires NUL !in s
    ensures Printable(Parse(s)) && Allows(Parse(s), e) && s == Print(Parse(s), e)
  {
    NoNul(s);
    if s != "" && s[0] == ':' {
      assert s == ":" + s[1..];
      e := PrefixedIsPrinted(s[1..]);
    } else {
      e := UnprefixedIsPrinted(s);
    }
  }

  /** The lines parsed to a message are exactly its printings. */
  lemma ParsesIffPrinted(line: string, m: Msg)
    requires NUL !in line
    ensures Parse(line) == m <==> Printable(m) && exists e :: Allows(m, e) && Print(m, e) == line
  {
    if Parse(line) == m {
      var e := LineIsPrinted(line);
    }
    if Printable(m) {
      forall e | Allows(m, e) && Print(m, e) == line ensures Parse(line) == m {
        ParseInvertsPrint(m, e);
      }
    }
  }

  /** A line is parsed up to its first NUL. */
  lemma ParseStopsAtNul(line: string)
    ensures var s := line[..IndexOf(line, NUL)]; NUL !in s && Parse(line) == Parse(s)
  {
    NoNul(line[..IndexOf(line, NUL)]);
  }

  lemma TwoArgs(a: string, b: string)
    ensures PrintArgs([a, b], Marked) == a + " " + (":" + b)
    ensures PrintArgs([a, b], Bare) == a + " " + b
  {
    assert [a, b][1..] == [b];
  }

  // The two shapes of an ordinary line, spelled out.

  lemma ParseTrailing(p: string, c: string, a: string, b: string)
    requires Spaceless(p) && Spaceless(c) && Middle(a) && NUL !in b
    ensures Parse(":" + (p + " " + (c + (" " + (a + " " + (":" + b)))))) == Msg(Some(p), c, [a, b])
  {
    TwoArgs(a, b);
    ParseInvertsPrint(Msg(Some(p), c, [a, b]), Marked);
  }

  lemma ParseMiddle(c: string, a: string, b: string)
    requires Middle(c) && Middle(a) && Middle(b) && b != ""
    ensures Parse(c + (" " + (a + " " + b))) == Msg(None, c, [a, b])
  {
    TwoArgs(a, b);
    ParseInvertsPrint(Msg(None, c, [a, b]), Bare);
  }

  /** The messages the parser can return are exactly the printable ones. */
  lemma ParseReturnsExactly(m: Msg)
    ensures (exists line :: Parse(line) == m) <==> Printable(m)
  {
    if Printable(m) {
      ParseInvertsPrint(m, if m.args == [] then Bare else Marked);
    }
    forall line | Parse(line) == m ensures Printable(m) {
      ParseStopsAtNul(line);
      var e := LineIsPrinted(line[..IndexOf(line, NUL)]);
    }
  }

  // ---- the parser in place

  /** A NUL-terminated string w starts at o in the buffer. */
  ghost predicate CString(buf: string, o: nat, w: string) {
    NUL !in w && o + |w| < |buf| && buf[o..o + |w|] == w && buf[o + |w|] == NUL
  }

  /** Where in the buffer the pieces start. */
  datatype Slices = Slices(prefix: Option<nat>, cmd: nat, args: seq<nat>)

  /** strchr within the buffer: the first c from off on, or the terminator at end. */
  method FindChar(buf: array<char>, off: nat, end: nat, c: char) returns (p: nat)
    requires off <= end < buf.Length && c != NUL && buf[end] == NUL && NUL !in buf[off..end]
    ensures p == off + IndexOf(buf[off..end], c)
  {
    p := off;
    while buf[p] != c && buf[p] != NUL
      invariant off <= p <= end && c !in buf[off..p]
      decreases end - p
    {
      p := p + 1;
    }
    var s := buf[off..end];
    assert buf[p] == NUL ==> p == end by {
      assert p < end ==> buf[p] == s[p - off];
    }
    assert s[..p - off] == buf[off..p];
    if p < end {
      IndexOfIs(s, c, p - off);
    }
  }

  /** irc__conn_msg_scan: the word at off is terminated, and the rest starts behind it. */
  method Scan(buf: array<char>, off: nat, end: nat) returns (next: nat)
    requires off <= end < buf.Length && buf[end] == NUL && NUL !in buf[off..end]
    modifies buf
    ensures off <= next <= end && buf[end] == NUL
    ensures buf[..off] == old(buf[..off]) && buf[next..end] == old(buf[next..end])
    ensures CString(buf[..], off, Word(old(buf[off..end])))
    ensures off + |Word(old(buf[off..end]))| < next || next == end
    ensures buf[next..end] == AfterWord(old(buf[off..end]))
  {
    ghost var s := buf[off..end];
    var p := FindChar(buf, off, end, ' ');
    if p == end {
      next := end;
    } else {
      buf[p] := NUL;
      next := p + 1;
    }
  }

  /** Piece w at o stays whole: it ends before off, where the parser still writes, or all is done. */
  ghost predicate Kept(buf: string, o: nat, w: string, off: nat, end: nat) {
    CString(buf, o, w) && (o + |w| < off || off == end)
  }

  /** Writing from off on leaves it whole. */
  lemma KeptStays(buf: string, buf': string, o: nat, w: string, off: nat, off': nat, end: nat)
    requires Kept(buf, o, w, off, end) && off < end && off <= off' && |buf| == |buf'| && off <= |buf|
    requires buf[..off] == buf'[..off]
    ensures Kept(buf', o, w, off', end)
  {
    assert buf[o..o + |w|] == buf[..off][o..o + |w|] == buf'[o..o + |w|];
    assert buf[o + |w|] == buf[..off][o + |w|];
  }

  /** One round of the argument loop: an argument starts at arg, the rest of the line at next. */
  method NextArg(buf: array<char>, off: nat, end: nat) returns (arg: nat, next: nat)
    requires off < end < buf.Length && buf[end] == NUL && NUL !in buf[off..end]
    modifies buf
    ensures off <= arg <= off + 1 && off < next <= end && buf[end] == NUL && NUL !in buf[next..end]
    ensures buf[..off] == old(buf[..off])
    ensures var words := Args(old(buf[off..end]));
      words != [] && Kept(buf[..], arg, words[0], next, end) && words[1..] == Args(buf[next..end])
  {
    ghost var s := buf[off..end];
    assert s[0] == buf[off];
    if buf[off] == ':' {
      arg, next := off + 1, end;
      assert buf[..][off + 1..end] == s[1..];
    } else {
      arg := off;
      next := Scan(buf, off, end);
    }
  }

  /** The pieces are in the buffer, each behind the end of the one before, out of reach of off. */
  ghost predicate Laid(buf: string, args: seq<nat>, words: seq<string>, start: nat, off: nat, end: nat) {
    |args| == |words| &&
    (forall i :: 0 < i < |args| ==> args[i - 1] + |words[i - 1]| < args[i]) &&
    forall i :: 0 <= i < |args| ==> start <= args[i] && Kept(buf, args[i], words[i], off, end)
  }

  lemma LaidGrows(buf: string, buf': string, args: seq<nat>, words: seq<string>, start: nat, off: nat,
                  arg: nat, w: string, off': nat, end: nat)
    requires Laid(buf, args, words, start, off, end)
    requires start <= off < end && off <= off' && |buf| == |buf'| && off <= |buf| && buf[..off] == buf'[..off]
    requires off <= arg && Kept(buf', arg, w, off', end)
    ensures Laid(buf', args + [arg], words + [w], start, off', end)
    ensures buf[..start] == buf'[..start]
  {
    forall i | 0 <= i < |args| ensures Kept(buf', args[i], words[i], off', end) {
      KeptStays(buf, buf', args[i], words[i], off, off', end);
    }
    assert |args| > 0 ==> Kept(buf, args[|args| - 1], words[|args| - 1], off, end);
    assert buf[..start] == buf[..off][..start] == buf'[..off][..start];
  }

  /** What the argument loop keeps: `words` are those of the line, the first ones are in place. */
  ghost predicate Underway(buf: string, args: seq<nat>, words: seq<string>, start: nat, off: nat, end: nat) {
    start <= off <= end < |buf| && buf[end] == NUL && NUL !in buf[off..end] &&
    |args| <= |words| && Laid(buf, args, words[..|args|], start, off, end) &&
    words[|args|..] == Args(buf[off..end])
  }

  method ArgRound(buf: array<char>, args: seq<nat>, ghost words: seq<string>, start: nat, off: nat, end: nat)
    returns (more: seq<nat>, next: nat)
    requires Underway(buf[..], args, words, start, off, end) && off < end
    modifies buf
    ensures Underway(buf[..], more, words, start, next, end) && off < next
    ensures buf[..start] == old(buf[..start])
  {
    ghost var was := buf[..];
    var arg;
    arg, next := NextArg(buf, off, end);
    LaidGrows(was, buf[..], args, words[..|args|], start, off, arg, words[|args|], next, end);
    more := args + [arg];
    assert words[..|more|] == words[..|args|] + [words[|args|]];
    assert words[|more|..] == words[|args|..][1..];
  }

  /** The argument loop of irc__conn_msg_parse. */
  method ParseArgs(buf: array<char>, start: nat, end: nat) returns (args: seq<nat>)
    requires start <= end < buf.Length && buf[end] == NUL && NUL !in buf[start..end]
    modifies buf
    ensures buf[..start] == old(buf[..start]) && buf[end] == NUL
    ensures Laid(buf[..], args, Args(old(buf[start..end])), start, end, end)
  {
    ghost var words := Args(buf[start..end]);
    var off := start;
    args := [];
    while buf[off] != NUL
      invariant Underway(buf[..], args, words, start, off, end)
      invariant buf[..start] == old(buf[..start])
      decreases end - off
    {
      args, off := ArgRound(buf, args, words, start, off, end);
    }
    UnderwayIsDone(buf[..], args, words, start, off, end);
  }

  lemma UnderwayIsDone(buf: string, args: seq<nat>, words: seq<string>, start: nat, off: nat, end: nat)
    requires Underway(buf, args, words, start, off, end) && buf[off] == NUL
    ensures Laid(buf, args, words, start, end, end)
  {
    assert off == end;
    assert words[..|args|] == words;
  }

  /** A finished piece survives the rest of the parse. */
  lemma KeptToTheEnd(buf: string, buf': string, o: nat, w: string, off: nat, end: nat)
    requires Kept(buf, o, w, off, end) && |buf| == |buf'| == end + 1 && off <= end
    requires buf[..off] == buf'[..off] && buf'[end] == NUL
    ensures CString(buf', o, w) && (o + |w| < off || off == end)
  {
    assert buf[o..o + |w|] == buf[..off][o..o + |w|] == buf'[..off][o..o + |w|] == buf'[o..o + |w|];
    assert o + |w| < off ==> buf[o + |w|] == buf[..off][o + |w|] == buf'[..off][o + |w|];
  }

  /** The pieces of m lie in the buffer one behind the other, each with its own terminator. */
  ghost predicate Holds(buf: string, at: Slices, m: Msg, end: nat) {
    |buf| == end + 1 && buf[end] == NUL &&
    at.prefix.Some? == m.prefix.Some? &&
    (at.prefix.Some? ==>
      CString(buf, at.prefix.value, m.prefix.value) &&
      (at.prefix.value + |m.prefix.value| < at.cmd || at.cmd == end)) &&
    CString(buf, at.cmd, m.cmd) &&
    Laid(buf, at.args, m.args, at.cmd, end, end) &&
    (m.args != [] ==> at.cmd + |m.cmd| < at.args[0])
  }

  /** strndup: the line up to its first NUL, and a terminator. */
  method Duplicate(line: string) returns (buf: array<char>)
    ensures fresh(buf) && buf[..] == line[..IndexOf(line, NUL)] + [NUL]
  {
    var n := 0;
    while n < |line| && line[n] != NUL
      invariant n <= |line| && NUL !in line[..n]
    {
      n := n + 1;
    }
    if n < |line| {
      IndexOfIs(line, NUL, n);
    } else {
      NoNul(line);
    }
    buf := new char[n + 1](i requires 0 <= i <= n => if i < n then line[i] else NUL);
  }

  lemma SamePrefix(a: string, b: string, n: nat, k: nat)
    requires k <= n <= |a| && n <= |b| && a[..n] == b[..n]
    ensures a[..k] == b[..k]
  {
    assert a[..n][..k] == a[..k] && b[..n][..k] == b[..k];
  }

  /** The command and the arguments, from off on. */
  method ParseBody(buf: array<char>, off: nat, end: nat) returns (cmd: nat, args: seq<nat>)
    requires off <= end && buf.Length == end + 1 && buf[end] == NUL && NUL !in buf[off..end]
    modifies buf
    ensures buf[..off] == old(buf[..off]) && buf[end] == NUL && cmd == off
    ensures var s := old(buf[off..end]);
      CString(buf[..], off, Word(s)) && Laid(buf[..], args, Args(AfterWord(s)), off, end, end) &&
      (args != [] ==> off + |Word(s)| < args[0])
  {
    ghost var s, first := buf[off..end], buf[..off];
    cmd := off;
    var next := Scan(buf, off, end);
    WordSplits(s);
    ghost var was := buf[..];
    args := ParseArgs(buf, next, end);
    KeptToTheEnd(was, buf[..], off, Word(s), next, end);
    SamePrefix(was, buf[..], next, off);
    assert first == was[..off];
  }

  lemma HoldsPrefixed(buf: string, s: string, cmd: nat, args: seq<nat>, end: nat)
    requires |buf| == end + 1 && buf[end] == NUL && s != "" && s[0] == ':'
    requires CString(buf, 1, Word(s[1..])) && (1 + |Word(s[1..])| < cmd || cmd == end)
    requires var body := AfterWord(s[1..]);
      CString(buf, cmd, Word(body)) && Laid(buf, args, Args(AfterWord(body)), cmd, end, end) &&
      (args != [] ==> cmd + |Word(body)| < args[0])
    ensures Holds(buf, Slices(Some(1), cmd, args), ParseText(s), end)
  {
  }

  /** A line with a prefix, which starts behind the colon. */
  method ParsePrefixed(buf: array<char>, end: nat) returns (at: Slices)
    requires buf.Length == end + 1 && end > 0 && buf[0] == ':' && buf[end] == NUL && NUL !in buf[..end]
    modifies buf
    ensures Holds(buf[..], at, ParseText(old(buf[..end])), end)
  {
    ghost var s := buf[..end];
    assert s[0] == ':' && buf[1..end] == s[1..];
    WordSplits(s[1..]);
    var off := Scan(buf, 1, end);
    ghost var was := buf[..];
    var cmd, args := ParseBody(buf, off, end);
    KeptToTheEnd(was, buf[..], 1, Word(s[1..]), off, end);
    HoldsPrefixed(buf[..], s, cmd, args, end);
    at := Slices(Some(1), cmd, args);
  }

  /** A line without. */
  method ParsePlain(buf: array<char>, end: nat) returns (at: Slices)
    requires buf.Length == end + 1 && buf[0] != ':' && buf[end] == NUL && NUL !in buf[..end]
    modifies buf
    ensures Holds(buf[..], at, ParseText(old(buf[..end])), end)
  {
    ghost var s := buf[..end];
    assert buf[0..end] == s && (s != "" ==> s[0] == buf[0]);
    var cmd, args := ParseBody(buf, 0, end);
    at := Slices(None, cmd, args);
  }

  /**
   * irc__conn_msg_parse: the buffer ends up holding the pieces of Parse(line). The command is
   * always set, so the -EBADMSG the source tests for is never returned.
   */
  method ParseInPlace(line: string) returns (buf: array<char>, at: Slices, rc: int)
    ensures fresh(buf) && Holds(buf[..], at, Parse(line), IndexOf(line, NUL)) && rc == 0
  {
    buf := Duplicate(line);
    var end := buf.Length - 1;
    assert buf[..end] == line[..IndexOf(line, NUL)];
    if buf[0] == ':' {
      at := ParsePrefixed(buf, end);
    } else {
      at := ParsePlain(buf, end);
    }
    rc := 0;
  }
}
