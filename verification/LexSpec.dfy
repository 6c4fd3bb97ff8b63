/**
 * What the lexer of irccd/conf.c makes of a configuration text: its tokens, the state in which it
 * leaves the text it edits in place, and how printing a layout of tokens is inverted by lexing.
 */
module LexSpec {
  import opened Strtok

  const NUL := '\0'
  const QUOTE := '\"'

  /** The blanks of isspace in the C locale. */
  const BLANKS: Delims := {' ', '\t', '\n', '\U{0B}', '\U{0C}', '\r'}
  const MARKS: Delims := {'{', '}', ','}

  /** What ends a string that is not quoted. */
  const STOPS: Delims := BLANKS + MARKS + {'#', QUOTE}

  datatype Token = Mark(c: char) | Str(data: string)

  datatype End = Eof | Unterminated

  datatype Lexed = Lexed(tokens: seq<Token>, end: End)

  function Cons(t: Token, l: Lexed): Lexed {
    Lexed([t] + l.tokens, l.end)
  }

  /** The tokens of a text from which leading blanks may not have been skipped yet. */
  function Lex(s: string): Lexed
    decreases |s|
  {
    if s == "" then Lexed([], Eof)
    else if s[0] in BLANKS then Lex(s[1..])
    else if s[0] in MARKS then Cons(Mark(s[0]), Lex(s[1..]))
    else if s[0] == '#' then Lex(s[Span(s, {'\n'})..])
    else if s[0] == QUOTE then
      var n := Span(s[1..], {QUOTE});
      if n == |s| - 1 then Lexed([], Unterminated) else Cons(Str(s[1..n + 1]), Lex(s[n + 2..]))
    else
      var n := Span(s, STOPS);
      Cons(Str(s[..n]), Lex(s[n..]))
  }

  /** The closing quotes, each named by the length of the text from it on. */
  function Closers(s: string): set<int>
    decreases |s|
  {
    if s == "" then {}
    else if s[0] in BLANKS || s[0] in MARKS then Closers(s[1..])
    else if s[0] == '#' then Closers(s[Span(s, {'\n'})..])
    else if s[0] == QUOTE then
      var n := Span(s[1..], {QUOTE});
      if n == |s| - 1 then {} else {|s| - n - 1} + Closers(s[n + 2..])
    else Closers(s[Span(s, STOPS)..])
  }

  /** What each character means, on its own. */
  lemma OneCharacter(c: char)
    ensures c == '{' || c == '}' || c == ',' ==> Lex([c]) == Lexed([Mark(c)], Eof)
    ensures c == ' ' || c == '\t' || c == '\n' || c == '\U{0B}' || c == '\U{0C}' || c == '\r' || c == '#' ==>
      Lex([c]) == Lexed([], Eof)
    ensures c == '\"' ==> Lex([c]) == Lexed([], Unterminated)
    ensures Lex([c]) == Lexed([Str([c])], Eof) <==>
      c !in [' ', '\t', '\n', '\U{0B}', '\U{0C}', '\r', '#', '\"', '{', '}', ',']
  {
    assert [c][1..] == "" && [c][..1] == [c];
    assert Span([c], {'\n'}) == if c == '\n' then 0 else 1;
    assert Span([c], STOPS) == if c in STOPS then 0 else 1;
    assert Span("", {QUOTE}) == 0 && Lex("") == Lexed([], Eof);
  }

  // ---- what a text starts with

  lemma BlankFirst(s: string, rest: string)
    requires s != "" && s[0] in BLANKS && rest == s[1..]
    ensures Lex(s) == Lex(rest) && Closers(s) == Closers(rest)
  {
  }

  lemma CommentFirst(s: string, rest: string)
    requires s != "" && s[0] == '#' && rest == s[Span(s, {'\n'})..]
    ensures Lex(s) == Lex(rest) && Closers(s) == Closers(rest)
  {
  }

  lemma SignFirst(s: string, rest: string)
    requires s != "" && s[0] in MARKS && rest == s[1..]
    ensures Lex(s) == Cons(Mark(s[0]), Lex(rest)) && Closers(s) == Closers(rest)
  {
  }

  lemma QuotedFirst(s: string, w: string, rest: string)
    requires s != "" && s[0] == QUOTE && Span(s[1..], {QUOTE}) == |w| < |s| - 1
    requires w == s[1..|w| + 1] && rest == s[|w| + 2..]
    ensures Lex(s) == Cons(Str(w), Lex(rest)) && Closers(s) == {|rest| + 1} + Closers(rest)
  {
  }

  lemma BareFirst(s: string, w: string, rest: string)
    requires s != "" && s[0] !in STOPS && Span(s, STOPS) == |w| <= |s| && w == s[..|w|] && rest == s[|w|..]
    ensures Lex(s) == Cons(Str(w), Lex(rest)) && Closers(s) == Closers(rest)
  {
  }

  predicate QuoteAt(s: string, r: int) {
    0 < r <= |s| && s[|s| - r] == QUOTE
  }

  ghost predicate AllQuotes(ends: set<int>, s: string) {
    forall r :: r in ends ==> QuoteAt(s, r)
  }

  lemma QuotesBehind(ends: set<int>, s: string, n: nat)
    requires n <= |s| && AllQuotes(ends, s[n..])
    ensures AllQuotes(ends, s)
  {
    forall r | r in ends ensures QuoteAt(s, r) {
      assert QuoteAt(s[n..], r);
    }
  }

  lemma OneMoreQuote(r: int, ends: set<int>, s: string)
    requires QuoteAt(s, r) && AllQuotes(ends, s)
    ensures AllQuotes({r} + ends, s)
  {
  }

  lemma EndIsQuote(s: string, n: nat)
    requires s != "" && s[0] == QUOTE && n == Span(s[1..], {QUOTE}) < |s| - 1 && AllQuotes(Closers(s[n + 2..]), s[n + 2..])
    ensures AllQuotes(Closers(s), s)
  {
    SpanIsClean(s[1..], {QUOTE});
    var rest := s[n + 2..];
    QuotesBehind(Closers(rest), s, n + 2);
    QuotedFirst(s, s[1..n + 1], rest);
    assert QuoteAt(s, |rest| + 1);
    OneMoreQuote(|rest| + 1, Closers(rest), s);
  }

  /** What the lexer takes in one go when it does not start with a quote. */
  function Stride(s: string): (n: nat)
    requires s != "" && s[0] != QUOTE
    ensures 0 < n <= |s|
  {
    if s[0] in BLANKS || s[0] in MARKS then 1 else if s[0] == '#' then Span(s, {'\n'}) else Span(s, STOPS)
  }

  lemma StrideHasNone(s: string, rest: string)
    requires s != "" && s[0] != QUOTE && rest == s[Stride(s)..]
    ensures Closers(s) == Closers(rest)
  {
  }

  lemma BehindStride(s: string, n: nat)
    requires s != "" && s[0] != QUOTE && n == Stride(s) && AllQuotes(Closers(s[n..]), s[n..])
    ensures AllQuotes(Closers(s), s)
  {
    StrideHasNone(s, s[n..]);
    QuotesBehind(Closers(s[n..]), s, n);
  }

  lemma NoneToClose(s: string)
    requires s == "" || (s[0] == QUOTE && Span(s[1..], {QUOTE}) == |s| - 1)
    ensures AllQuotes(Closers(s), s)
  {
    assert Closers(s) == {};
  }

  lemma {:induction false} ClosersAreQuotes(s: string)
    ensures AllQuotes(Closers(s), s)
    decreases |s|
  {
    if s == "" || (s[0] == QUOTE && Span(s[1..], {QUOTE}) == |s| - 1) {
      NoneToClose(s);
    } else if s[0] == QUOTE {
      var n := Span(s[1..], {QUOTE});
      ClosersAreQuotes(s[n + 2..]);
      EndIsQuote(s, n);
    } else {
      ClosersAreQuotes(s[Stride(s)..]);
      BehindStride(s, Stride(s));
    }
  }

  // ---- printing

  /** A token as it may be written: strings in quotes, or bare when nothing in them stops the lexer. */
  datatype Piece = Sign(c: char) | Quoted(w: string) | Bare(w: string)

  predicate Writable(p: Piece) {
    match p
    case Sign(c) => c in MARKS
    case Quoted(w) => QUOTE !in w && NUL !in w
    case Bare(w) => Clean(w, STOPS) && NUL !in w
  }

  function Written(p: Piece): (r: string)
    requires Writable(p)
    ensures r != ""
  {
    match p
    case Sign(c) => [c]
    case Quoted(w) => [QUOTE] + w + [QUOTE]
    case Bare(w) => w
  }

  function Meant(p: Piece): Token {
    match p
    case Sign(c) => Mark(c)
    case Quoted(w) => Str(w)
    case Bare(w) => Str(w)
  }

  /** The end of a piece with so much text behind it, if it is quoted, added to others. */
  function AddEnd(p: Piece, behind: nat, ends: set<int>): set<int> {
    if p.Quoted? then {behind + 1} + ends else ends
  }

  lemma QuotedSlices(w: string, rest: string)
    requires QUOTE !in w
    ensures var s := [QUOTE] + w + [QUOTE] + rest;
      |s| == |w| + 2 + |rest| && s[0] == QUOTE && Span(s[1..], {QUOTE}) == |w| && s[1..|w| + 1] == w && s[|w| + 2..] == rest
  {
    var s := [QUOTE] + w + [QUOTE] + rest;
    assert s[1..] == w + ([QUOTE] + rest);
    SpanOfWord(w, [QUOTE] + rest, {QUOTE});
  }

  lemma QuotedIsRead(p: Piece, rest: string)
    requires Writable(p) && p.Quoted?
    ensures Lex(Written(p) + rest) == Cons(Meant(p), Lex(rest))
    ensures Closers(Written(p) + rest) == AddEnd(p, |rest|, Closers(rest))
  {
    QuotedSlices(p.w, rest);
    QuotedFirst(Written(p) + rest, p.w, rest);
  }

  lemma BareSlices(w: string, rest: string)
    requires Clean(w, STOPS) && (rest != "" ==> rest[0] in STOPS)
    ensures var s := w + rest; s[0] !in STOPS && Span(s, STOPS) == |w| && s[..|w|] == w && s[|w|..] == rest
  {
    assert (w + rest)[0] == w[0];
    SpanOfWord(w, rest, STOPS);
  }

  lemma BareIsRead(p: Piece, rest: string)
    requires Writable(p) && p.Bare? && (rest != "" ==> rest[0] in STOPS)
    ensures Lex(Written(p) + rest) == Cons(Meant(p), Lex(rest))
    ensures Closers(Written(p) + rest) == AddEnd(p, |rest|, Closers(rest))
  {
    BareSlices(p.w, rest);
    BareFirst(Written(p) + rest, p.w, rest);
  }

  lemma SignIsRead(p: Piece, rest: string)
    requires Writable(p) && p.Sign?
    ensures Lex(Written(p) + rest) == Cons(Meant(p), Lex(rest))
    ensures Closers(Written(p) + rest) == AddEnd(p, |rest|, Closers(rest))
  {
    assert ([p.c] + rest)[1..] == rest;
    SignFirst(Written(p) + rest, rest);
  }

  /**
   * A piece is read back as the token it stands for, unless a bare string runs into what follows; and it
   * adds a closing quote when it is quoted.
   */
  lemma PieceIsRead(p: Piece, rest: string)
    requires Writable(p) && (p.Bare? && rest != "" ==> rest[0] in STOPS)
    ensures Lex(Written(p) + rest) == Cons(Meant(p), Lex(rest))
    ensures Closers(Written(p) + rest) == AddEnd(p, |rest|, Closers(rest))
  {
    match p {
      case Sign(_) => SignIsRead(p, rest);
      case Quoted(_) => QuotedIsRead(p, rest);
      case Bare(_) => BareIsRead(p, rest);
    }
  }

  /** Blanks and comments, in any order; at the end of a text the last comment need not end its line. */
  predicate Gap(g: string, last: bool)
    decreases |g|
  {
    g == "" ||
    if g[0] in BLANKS then Gap(g[1..], last)
    else
      var n := Span(g, {'\n'});
      g[0] == '#' && if n < |g| then Gap(g[n..], last) else last
  }

  lemma CommentSlices(g: string, rest: string)
    requires Span(g, {'\n'}) == |g| ==> rest == ""
    ensures var n := Span(g, {'\n'}); Span(g + rest, {'\n'}) == n && (g + rest)[n..] == g[n..] + rest
  {
    var n := Span(g, {'\n'});
    SpanIsClean(g, {'\n'});
    assert g + rest == g[..n] + (g[n..] + rest);
    SpanOfWord(g[..n], g[n..] + rest, {'\n'});
  }

  lemma BlankIsSkipped(g: string, rest: string)
    requires g != "" && g[0] in BLANKS
    ensures Lex(g + rest) == Lex(g[1..] + rest) && Closers(g + rest) == Closers(g[1..] + rest)
  {
    assert (g + rest)[1..] == g[1..] + rest;
    BlankFirst(g + rest, g[1..] + rest);
  }

  lemma CommentIsSkipped(g: string, rest: string)
    requires g != "" && g[0] == '#' && (Span(g, {'\n'}) == |g| ==> rest == "")
    ensures var n := Span(g, {'\n'}); Lex(g + rest) == Lex(g[n..] + rest) && Closers(g + rest) == Closers(g[n..] + rest)
  {
    CommentSlices(g, rest);
    CommentFirst(g + rest, g[Span(g, {'\n'})..] + rest);
  }

  /** The first blank or comment of a gap. */
  function GapStride(g: string): (n: nat)
    requires g != "" && (g[0] in BLANKS || g[0] == '#')
    ensures 0 < n <= |g|
  {
    if g[0] in BLANKS then 1 else Span(g, {'\n'})
  }

  lemma StrideIsSkipped(g: string, last: bool, rest: string)
    requires g != "" && Gap(g, last) && (last ==> rest == "")
    ensures (g[0] in BLANKS || g[0] == '#') && Gap(g[GapStride(g)..], last)
    ensures var n := GapStride(g); Lex(g + rest) == Lex(g[n..] + rest) && Closers(g + rest) == Closers(g[n..] + rest)
  {
    if g[0] in BLANKS {
      BlankIsSkipped(g, rest);
    } else {
      CommentIsSkipped(g, rest);
    }
  }

  /** What lies between two tokens is not seen. */
  lemma {:induction false} GapIsSkipped(g: string, last: bool, rest: string)
    requires Gap(g, last) && (last ==> rest == "")
    ensures Lex(g + rest) == Lex(rest) && Closers(g + rest) == Closers(rest)
    decreases |g|
  {
    if g == "" {
      assert g + rest == rest;
    } else {
      StrideIsSkipped(g, last, rest);
      GapIsSkipped(g[GapStride(g)..], last, rest);
    }
  }

  /** Pieces and what follows each of them; two bare strings need something between them. */
  predicate Layout(pieces: seq<Piece>, gaps: seq<string>) {
    |gaps| == |pieces| &&
    (forall i :: 0 <= i < |pieces| ==> Writable(pieces[i]) && Gap(gaps[i], i == |pieces| - 1) && NUL !in gaps[i]) &&
    forall i :: 0 <= i < |pieces| - 1 ==> pieces[i].Bare? && pieces[i + 1].Bare? ==> gaps[i] != ""
  }

  function Print(pieces: seq<Piece>, gaps: seq<string>): string
    requires Layout(pieces, gaps)
  {
    if pieces == [] then ""
    else Written(pieces[0]) + (gaps[0] + Print(pieces[1..], gaps[1..]))
  }

  function MeantAll(pieces: seq<Piece>): (r: seq<Token>)
    ensures |r| == |pieces|
  {
    seq(|pieces|, i requires 0 <= i < |pieces| => Meant(pieces[i]))
  }

  lemma MeantCons(p: Piece, pieces: seq<Piece>)
    ensures MeantAll([p] + pieces) == [Meant(p)] + MeantAll(pieces)
  {
  }

  /** Where the quoted strings of a printing end. */
  function QuoteEnds(pieces: seq<Piece>, gaps: seq<string>): set<int>
    requires Layout(pieces, gaps)
  {
    if pieces == [] then {} else
      AddEnd(pieces[0], |gaps[0] + Print(pieces[1..], gaps[1..])|, QuoteEnds(pieces[1..], gaps[1..]))
  }

  /** A bare string in front of a printing does not run into what follows. */
  lemma BareIsApart(pieces: seq<Piece>, gaps: seq<string>)
    requires Layout(pieces, gaps) && pieces != []
    ensures var next := gaps[0] + Print(pieces[1..], gaps[1..]);
      pieces[0].Bare? && next != "" ==> next[0] in STOPS
  {
    if pieces[0].Bare? && gaps[0] == "" && |pieces| > 1 {
      assert !pieces[1].Bare?;
      assert Print(pieces[1..], gaps[1..])[0] == Written(pieces[1])[0];
    }
  }

  /** A piece and what separates it from the rest. */
  lemma PieceAndGapAreRead(s: string, p: Piece, g: string, last: bool, rest: string)
    requires Writable(p) && Gap(g, last) && (last ==> rest == "")
    requires p.Bare? && g + rest != "" ==> (g + rest)[0] in STOPS
    requires s == Written(p) + (g + rest)
    ensures Lex(s) == Cons(Meant(p), Lex(rest)) && Closers(s) == AddEnd(p, |g + rest|, Closers(rest))
  {
    PieceIsRead(p, g + rest);
    GapIsSkipped(g, last, rest);
  }

  lemma PrintUnfolds(pieces: seq<Piece>, gaps: seq<string>)
    requires Layout(pieces, gaps) && pieces != []
    ensures Writable(pieces[0]) && Gap(gaps[0], |pieces| == 1) && Layout(pieces[1..], gaps[1..])
    ensures var rest := Print(pieces[1..], gaps[1..]);
      Print(pieces, gaps) == Written(pieces[0]) + (gaps[0] + rest) && (|pieces| == 1 ==> rest == "")
  {
  }

  lemma ConsIsRead(pieces: seq<Piece>, gaps: seq<string>)
    requires Layout(pieces, gaps) && pieces != []
    ensures var rest := Print(pieces[1..], gaps[1..]);
      Lex(Print(pieces, gaps)) == Cons(Meant(pieces[0]), Lex(rest)) &&
      Closers(Print(pieces, gaps)) == AddEnd(pieces[0], |gaps[0] + rest|, Closers(rest))
  {
    PrintUnfolds(pieces, gaps);
    BareIsApart(pieces, gaps);
    PieceAndGapAreRead(Print(pieces, gaps), pieces[0], gaps[0], |pieces| == 1, Print(pieces[1..], gaps[1..]));
  }

  /** Lexing inverts printing, for every way to lay the tokens out. */
  lemma {:induction false} LexOfPrint(pieces: seq<Piece>, gaps: seq<string>)
    requires Layout(pieces, gaps)
    ensures Lex(Print(pieces, gaps)) == Lexed(MeantAll(pieces), Eof)
    decreases |pieces|
  {
    if pieces != [] {
      LexOfPrint(pieces[1..], gaps[1..]);
      ConsIsRead(pieces, gaps);
      MeantCons(pieces[0], pieces[1..]);
      assert [pieces[0]] + pieces[1..] == pieces;
    }
  }

  /** The quotes cut in a printing are exactly those that end its quoted strings. */
  lemma {:induction false} ClosersOfPrint(pieces: seq<Piece>, gaps: seq<string>)
    requires Layout(pieces, gaps)
    ensures Closers(Print(pieces, gaps)) == QuoteEnds(pieces, gaps)
    decreases |pieces|
  {
    if pieces != [] {
      ClosersOfPrint(pieces[1..], gaps[1..]);
      ConsIsRead(pieces, gaps);
    }
  }

  /** What is printed is a text on which the lexer may start. */
  lemma {:induction false} PrintIsText(pieces: seq<Piece>, gaps: seq<string>)
    requires Layout(pieces, gaps)
    ensures NUL !in Print(pieces, gaps) && (pieces != [] ==> Print(pieces, gaps) != "")
    ensures Print(pieces, gaps) != "" ==> Print(pieces, gaps)[0] !in BLANKS
    decreases |pieces|
  {
    if pieces != [] {
      PrintIsText(pieces[1..], gaps[1..]);
    }
  }

  // ---- every text that can be lexed is a printing

  /** s is a text printed from these pieces, behind blanks and comments. */
  ghost predicate Prints(s: string, lead: string, pieces: seq<Piece>, gaps: seq<string>) {
    Gap(lead, pieces == []) && NUL !in lead && Layout(pieces, gaps) && s == lead + Print(pieces, gaps)
  }

  lemma BareStarts(pieces: seq<Piece>, gaps: seq<string>)
    requires Layout(pieces, gaps) && pieces != [] && pieces[0].Bare?
    ensures Print(pieces, gaps) != "" && Print(pieces, gaps)[0] !in STOPS
  {
    assert Print(pieces, gaps)[0] == pieces[0].w[0];
  }

  lemma ConsLayout(p: Piece, g: string, pieces: seq<Piece>, gaps: seq<string>)
    requires Writable(p) && Gap(g, pieces == []) && NUL !in g && Layout(pieces, gaps)
    requires p.Bare? && pieces != [] && pieces[0].Bare? ==> g != ""
    ensures Layout([p] + pieces, [g] + gaps)
    ensures Print([p] + pieces, [g] + gaps) == Written(p) + (g + Print(pieces, gaps))
  {
    var ps, gs := [p] + pieces, [g] + gaps;
    assert forall i :: 0 < i < |ps| ==> ps[i] == pieces[i - 1] && gs[i] == gaps[i - 1];
    assert ps[1..] == pieces && gs[1..] == gaps;
  }

  /** One more piece in front. */
  lemma ConsPrints(p: Piece, rest: string, lead: string, pieces: seq<Piece>, gaps: seq<string>)
    requires Writable(p) && Prints(rest, lead, pieces, gaps)
    requires p.Bare? && rest != "" ==> rest[0] in STOPS
    ensures Prints(Written(p) + rest, "", [p] + pieces, [lead] + gaps)
  {
    if pieces != [] && pieces[0].Bare? {
      BareStarts(pieces, gaps);
    }
    assert lead == "" ==> rest == Print(pieces, gaps);
    ConsLayout(p, lead, pieces, gaps);
    assert "" + (Written(p) + rest) == Written(p) + rest;
  }

  lemma Associate(a: string, b: string, c: string)
    ensures a + (b + c) == (a + b) + c
  {
  }

  /** More of the gap in front. */
  lemma LeadPrints(front: string, rest: string, lead: string, pieces: seq<Piece>, gaps: seq<string>)
    requires Prints(rest, lead, pieces, gaps) && NUL !in front && Gap(front + lead, pieces == [])
    ensures Prints(front + rest, front + lead, pieces, gaps)
  {
    Associate(front, lead, Print(pieces, gaps));
  }

  lemma BlankPrints(c: char, rest: string, lead: string, pieces: seq<Piece>, gaps: seq<string>)
    requires c in BLANKS && Prints(rest, lead, pieces, gaps)
    ensures Prints([c] + rest, [c] + lead, pieces, gaps)
  {
    assert ([c] + lead)[1..] == lead;
    LeadPrints([c], rest, lead, pieces, gaps);
  }

  /** A comment in front of a gap that starts a new line, or at the end, is a gap. */
  lemma CommentIsGap(comment: string, lead: string, last: bool)
    requires comment != "" && comment[0] == '#' && '\n' !in comment
    requires Gap(lead, last) && if lead == "" then last else lead[0] == '\n'
    ensures Gap(comment + lead, last)
  {
    SpanOfWord(comment, lead, {'\n'});
    assert (comment + lead)[|comment|..] == lead;
  }

  /** A new line belongs to the gap, as no piece starts with one. */
  lemma LeadStarts(rest: string, lead: string, pieces: seq<Piece>, gaps: seq<string>)
    requires Prints(rest, lead, pieces, gaps) && (rest != "" ==> rest[0] == '\n')
    ensures if lead == "" then pieces == [] else lead[0] == '\n'
  {
    PrintIsText(pieces, gaps);
    assert lead == "" ==> rest == Print(pieces, gaps);
    assert lead != "" ==> rest[0] == lead[0];
  }

  /** A comment in front. */
  lemma CommentPrints(comment: string, rest: string, lead: string, pieces: seq<Piece>, gaps: seq<string>)
    requires comment != "" && comment[0] == '#' && '\n' !in comment && NUL !in comment
    requires Prints(rest, lead, pieces, gaps) && (rest != "" ==> rest[0] == '\n')
    ensures Prints(comment + rest, comment + lead, pieces, gaps)
  {
    LeadStarts(rest, lead, pieces, gaps);
    CommentIsGap(comment, lead, pieces == []);
    LeadPrints(comment, rest, lead, pieces, gaps);
  }

  /** s starts with the piece p, and goes on with rest. */
  ghost predicate Starts(s: string, p: Piece, rest: string) {
    Writable(p) && s == Written(p) + rest && NUL !in rest && (p.Bare? && rest != "" ==> rest[0] in STOPS) &&
    Lex(s) == Cons(Meant(p), Lex(rest))
  }

  lemma SignStarts(s: string)
    requires NUL !in s && s != "" && s[0] in MARKS
    ensures Starts(s, Sign(s[0]), s[1..])
  {
    SignFirst(s, s[1..]);
    assert s == [s[0]] + s[1..];
  }

  lemma QuotedStarts(s: string, n: nat)
    requires NUL !in s && s != "" && s[0] == QUOTE && n == Span(s[1..], {QUOTE}) < |s| - 1
    ensures Starts(s, Quoted(s[1..n + 1]), s[n + 2..])
  {
    var w, rest := s[1..n + 1], s[n + 2..];
    SpanIsClean(s[1..], {QUOTE});
    assert w == s[1..][..n] && s[n + 1] == QUOTE;
    assert s == [QUOTE] + w + [QUOTE] + rest;
    QuotedFirst(s, w, rest);
  }

  lemma WordStarts(s: string, n: nat)
    requires NUL !in s && s != "" && s[0] !in STOPS && n == Span(s, STOPS)
    ensures Starts(s, Bare(s[..n]), s[n..])
  {
    SpanIsClean(s, STOPS);
    BareFirst(s, s[..n], s[n..]);
    assert s == s[..n] + s[n..];
  }

  /** The piece a text starts with. */
  lemma FirstPiece(s: string) returns (p: Piece, rest: string)
    requires NUL !in s && s != "" && s[0] !in BLANKS && s[0] != '#' && Lex(s).end == Eof
    ensures Starts(s, p, rest)
  {
    if s[0] in MARKS {
      SignStarts(s);
      p, rest := Sign(s[0]), s[1..];
    } else if s[0] == QUOTE {
      var n := Span(s[1..], {QUOTE});
      QuotedStarts(s, n);
      p, rest := Quoted(s[1..n + 1]), s[n + 2..];
    } else {
      var n := Span(s, STOPS);
      WordStarts(s, n);
      p, rest := Bare(s[..n]), s[n..];
    }
  }

  /** A text that can be lexed to its end, as a printing of its tokens. */
  ghost predicate Unprinted(s: string, lead: string, pieces: seq<Piece>, gaps: seq<string>) {
    Prints(s, lead, pieces, gaps) && Lex(s).tokens == MeantAll(pieces)
  }

  lemma UnprintBlank(s: string, lead: string, pieces: seq<Piece>, gaps: seq<string>)
    requires s != "" && s[0] in BLANKS && Unprinted(s[1..], lead, pieces, gaps)
    ensures Unprinted(s, [s[0]] + lead, pieces, gaps)
  {
    BlankFirst(s, s[1..]);
    BlankPrints(s[0], s[1..], lead, pieces, gaps);
    assert [s[0]] + s[1..] == s;
  }

  lemma UnprintComment(s: string, n: nat, lead: string, pieces: seq<Piece>, gaps: seq<string>)
    requires s != "" && s[0] == '#' && NUL !in s && n == Span(s, {'\n'}) && Unprinted(s[n..], lead, pieces, gaps)
    ensures Unprinted(s, s[..n] + lead, pieces, gaps)
  {
    CommentFirst(s, s[n..]);
    SpanIsClean(s, {'\n'});
    assert '\n' !in s[..n] && s[..n] + s[n..] == s;
    CommentPrints(s[..n], s[n..], lead, pieces, gaps);
  }

  lemma UnprintPiece(s: string, p: Piece, rest: string, lead: string, pieces: seq<Piece>, gaps: seq<string>)
    requires Starts(s, p, rest) && Unprinted(rest, lead, pieces, gaps)
    ensures Unprinted(s, "", [p] + pieces, [lead] + gaps)
  {
    ConsPrints(p, rest, lead, pieces, gaps);
    MeantCons(p, pieces);
  }

  /** Every text that can be lexed to its end is a text printed from its tokens. */
  lemma {:induction false} Unprint(s: string) returns (lead: string, pieces: seq<Piece>, gaps: seq<string>)
    requires NUL !in s && Lex(s).end == Eof
    ensures Unprinted(s, lead, pieces, gaps)
    decreases |s|
  {
    if s == "" {
      lead, pieces, gaps := "", [], [];
      assert "" + "" == "";
    } else if s[0] in BLANKS {
      BlankFirst(s, s[1..]);
      lead, pieces, gaps := Unprint(s[1..]);
      UnprintBlank(s, lead, pieces, gaps);
      lead := [s[0]] + lead;
    } else if s[0] == '#' {
      var n := Span(s, {'\n'});
      CommentFirst(s, s[n..]);
      lead, pieces, gaps := Unprint(s[n..]);
      UnprintComment(s, n, lead, pieces, gaps);
      lead := s[..n] + lead;
    } else {
      var p, rest := FirstPiece(s);
      lead, pieces, gaps := Unprint(rest);
      UnprintPiece(s, p, rest, lead, pieces, gaps);
      lead, pieces, gaps := "", [p] + pieces, [lead] + gaps;
    }
  }

  /** The lexer comes to the end of a text exactly when the text could have been printed. */
  lemma LexesIffPrinted(s: string)
    requires NUL !in s
    ensures Lex(s).end == Eof <==> exists lead, pieces, gaps :: Prints(s, lead, pieces, gaps)
  {
    if Lex(s).end == Eof {
      var lead, pieces, gaps := Unprint(s);
    }
    forall lead, pieces, gaps | Prints(s, lead, pieces, gaps) ensures Lex(s).end == Eof {
      GapIsSkipped(lead, pieces == [], Print(pieces, gaps));
      LexOfPrint(pieces, gaps);
    }
  }

  // ---- lexing in place

  /** The C string that starts at p. */
  function CString(t: string, p: nat): string
    requires p <= |t|
  {
    t[p..p + Span(t[p..], {NUL})]
  }

  function Newlines(s: string): nat {
    if s == "" then 0 else Newlines(s[..|s| - 1]) + if s[|s| - 1] == '\n' then 1 else 0
  }

  /** They are the newlines of the text. */
  lemma {:induction false} NewlinesAre(s: string)
    ensures Newlines(s) == |set i | 0 <= i < |s| && s[i] == '\n'|
    decreases |s|
  {
    var all := set i | 0 <= i < |s| && s[i] == '\n';
    if s == "" {
      assert all == {};
    } else {
      var n := |s| - 1;
      var front := set i | 0 <= i < |s[..n]| && s[..n][i] == '\n';
      NewlinesAre(s[..n]);
      assert all == if s[n] == '\n' then front + {n} else front;
    }
  }

  lemma CountOne(s: string, off: nat)
    requires off < |s|
    ensures Newlines(s[..off + 1]) == Newlines(s[..off]) + if s[off] == '\n' then 1 else 0
  {
    assert s[..off + 1][..off] == s[..off];
  }

  lemma SpanOne(s: string, off: nat, n: nat, delims: Delims)
    requires off < n <= |s| && s[off] !in delims
    ensures Span(s[off..n], delims) == 1 + Span(s[off + 1..n], delims)
  {
    assert s[off..n][1..] == s[off + 1..n];
  }

  lemma SpanEnds(s: string, off: nat, n: nat, delims: Delims)
    requires off <= n <= |s|
    ensures var e := off + Span(s[off..n], delims); e < n ==> s[e] in delims
  {
    SpanIsClean(s[off..n], delims);
  }

  /** A buffer whose text is its first n characters. */
  ghost predicate Holds(source: string, n: nat) {
    n < |source| && source[n] == NUL && forall i :: 0 <= i < n ==> source[i] != NUL
  }

  /** The buffer differs from the source, whose text is of length n, by a NUL at each of some positions. */
  ghost predicate Cut(t: string, source: string, n: nat, closed: set<int>) {
    |t| == |source| && forall i :: 0 <= i < |t| ==> t[i] == if n - i in closed then NUL else source[i]
  }

  /** The buffer t when the lexer stands at off: the quotes closed so far are cut, and no more will be than should. */
  ghost predicate At(t: string, source: string, n: nat, off: nat, closed: set<int>) {
    Holds(source, n) && off <= n && Cut(t, source, n, closed) && (forall r :: r in closed ==> n - off < r <= n) &&
    closed + Closers(source[off..n]) == Closers(source[..n])
  }

  lemma SliceOf(s: string, off: nat, n: nat, a: nat, b: nat)
    requires a <= b && off + b <= n <= |s|
    ensures s[off..n][a..b] == s[off + a..off + b]
  {
    var l, r := s[off..n][a..b], s[off + a..off + b];
    assert forall i :: 0 <= i < b - a ==> l[i] == s[off + a + i] == r[i];
  }

  lemma FrontOf(s: string, off: nat, n: nat, k: nat)
    requires off + k <= n <= |s|
    ensures s[off..n][..k] == s[off..off + k]
  {
  }

  lemma RestOf(s: string, off: nat, n: nat, a: nat)
    requires off + a <= n <= |s|
    ensures s[off..n][a..] == s[off + a..n]
  {
    SliceOf(s, off, n, a, n - off);
  }

  lemma UncutAhead(t: string, source: string, n: nat, off: nat, closed: set<int>)
    requires At(t, source, n, off, closed)
    ensures |t| == |source| && forall i :: off <= i < |source| ==> t[i] == source[i]
  {
  }

  /** Going on from off to next, with nothing in between that will be cut. */
  lemma PassUncut(t: string, source: string, n: nat, off: nat, next: nat, closed: set<int>)
    requires At(t, source, n, off, closed) && off <= next <= n
    requires Closers(source[off..n]) == Closers(source[next..n])
    ensures At(t, source, n, next, closed)
  {
  }

  lemma PassOne(t: string, source: string, n: nat, off: nat, closed: set<int>)
    requires At(t, source, n, off, closed) && off < n && (source[off] in BLANKS || source[off] in MARKS)
    ensures At(t, source, n, off + 1, closed)
    ensures source[off] in BLANKS ==> Lex(source[off..n]) == Lex(source[off + 1..n])
    ensures source[off] in MARKS ==> Lex(source[off..n]) == Cons(Mark(source[off]), Lex(source[off + 1..n]))
  {
    RestOf(source, off, n, 1);
    if source[off] in BLANKS {
      BlankFirst(source[off..n], source[off + 1..n]);
    } else {
      SignFirst(source[off..n], source[off + 1..n]);
    }
    PassUncut(t, source, n, off, off + 1, closed);
  }

  lemma PassComment(t: string, source: string, n: nat, off: nat, closed: set<int>)
    requires At(t, source, n, off, closed) && off < n && source[off] == '#'
    ensures var next := off + Span(source[off..n], {'\n'});
      At(t, source, n, next, closed) && Lex(source[off..n]) == Lex(source[next..n])
  {
    var k := Span(source[off..n], {'\n'});
    RestOf(source, off, n, k);
    CommentFirst(source[off..n], source[off + k..n]);
    PassUncut(t, source, n, off, off + k, closed);
  }

  /** From p to a NUL placed at e, the string is what the source has there. */
  lemma StringAt(t: string, source: string, n: nat, off: nat, closed: set<int>, p: nat, e: nat)
    requires At(t, source, n, off, closed) && off <= p <= e <= n
    ensures CString(t[e := NUL], p) == source[p..e]
  {
    var u := t[e := NUL];
    assert u[p..] == source[p..e] + u[e..];
    SpanOfWord(source[p..e], u[e..], {NUL});
  }

  lemma WordSliceHere(source: string, off: nat, n: nat, e: nat)
    requires off < n <= |source| && source[off] !in STOPS && e == off + Span(source[off..n], STOPS)
    ensures off < e <= n && source[off..n][0] == source[off]
    ensures source[off..n][..e - off] == source[off..e] && source[off..n][e - off..] == source[e..n]
  {
    FrontOf(source, off, n, e - off);
    RestOf(source, off, n, e - off);
  }

  /** What is read where a string that is not quoted starts. */
  lemma WordHere(source: string, off: nat, n: nat, e: nat)
    requires off < n <= |source| && source[off] !in STOPS && e == off + Span(source[off..n], STOPS)
    ensures off < e && Lex(source[off..n]) == Cons(Str(source[off..e]), Lex(source[e..n]))
    ensures Closers(source[off..n]) == Closers(source[e..n])
  {
    WordSliceHere(source, off, n, e);
    BareFirst(source[off..n], source[off..e], source[e..n]);
  }

  lemma WordReads(t: string, source: string, n: nat, off: nat, closed: set<int>, e: nat)
    requires At(t, source, n, off, closed) && off < n && source[off] !in STOPS && e == off + Span(source[off..n], STOPS)
    ensures Lex(source[off..n]) == Cons(Str(CString(t[e := NUL], off)), Lex(source[e..n]))
  {
    WordHere(source, off, n, e);
    StringAt(t, source, n, off, closed, off, e);
  }

  /** A string that is not quoted ends at the next stop, where a NUL stands for as long as it is in use. */
  lemma PassWord(t: string, source: string, n: nat, off: nat, closed: set<int>, e: nat)
    requires At(t, source, n, off, closed) && off < n && source[off] !in STOPS && e == off + Span(source[off..n], STOPS)
    ensures At(t, source, n, e, closed) && off < e
    ensures Lex(source[off..n]) == Cons(Str(CString(t[e := NUL], off)), Lex(source[e..n]))
  {
    WordHere(source, off, n, e);
    PassUncut(t, source, n, off, e, closed);
    WordReads(t, source, n, off, closed, e);
  }

  lemma QuotedSliceHere(source: string, off: nat, n: nat, e: nat)
    requires off < e < n <= |source| && e == off + 1 + Span(source[off + 1..n], {QUOTE})
    ensures var s := source[off..n];
      source[e] == QUOTE && s[0] == source[off] && Span(s[1..], {QUOTE}) == e - off - 1 &&
      s[1..e - off] == source[off + 1..e] && s[e - off + 1..] == source[e + 1..n]
  {
    SpanIsClean(source[off + 1..n], {QUOTE});
    RestOf(source, off, n, 1);
    SliceOf(source, off, n, 1, e - off);
    RestOf(source, off, n, e - off + 1);
  }

  /** A quoted string that ends at e. */
  lemma QuotedHere(source: string, off: nat, n: nat, e: nat)
    requires off < e < n <= |source| && source[off] == QUOTE && e == off + 1 + Span(source[off + 1..n], {QUOTE})
    ensures source[e] == QUOTE && Lex(source[off..n]) == Cons(Str(source[off + 1..e]), Lex(source[e + 1..n]))
    ensures Closers(source[off..n]) == {n - e} + Closers(source[e + 1..n])
  {
    QuotedSliceHere(source, off, n, e);
    QuotedFirst(source[off..n], source[off + 1..e], source[e + 1..n]);
  }

  /** A quoted string that never ends. */
  lemma OpenHere(source: string, off: nat, n: nat)
    requires off < n <= |source| && source[off] == QUOTE && off + 1 + Span(source[off + 1..n], {QUOTE}) == n
    ensures Lex(source[off..n]) == Lexed([], Unterminated)
  {
    RestOf(source, off, n, 1);
  }

  lemma CloseAt(t: string, source: string, n: nat, off: nat, closed: set<int>, e: nat)
    requires At(t, source, n, off, closed) && off < e < n
    requires Closers(source[off..n]) == {n - e} + Closers(source[e + 1..n])
    ensures At(t[e := NUL], source, n, e + 1, closed + {n - e})
  {
    assert closed + {n - e} + Closers(source[e + 1..n]) == closed + Closers(source[off..n]);
  }

  /** A quoted string ends where its closing quote was, for good. */
  lemma PassQuoted(t: string, source: string, n: nat, off: nat, closed: set<int>, e: nat)
    requires At(t, source, n, off, closed) && off < e < n && source[off] == QUOTE
    requires e == off + 1 + Span(source[off + 1..n], {QUOTE})
    ensures At(t[e := NUL], source, n, e + 1, closed + {n - e})
    ensures Lex(source[off..n]) == Cons(Str(CString(t[e := NUL], off + 1)), Lex(source[e + 1..n]))
  {
    QuotedHere(source, off, n, e);
    CloseAt(t, source, n, off, closed, e);
    StringAt(t, source, n, off, closed, off + 1, e);
  }

  /** At the end of the text every closing quote has been cut. */
  lemma AllCut(t: string, source: string, n: nat, closed: set<int>)
    requires At(t, source, n, n, closed)
    ensures Cut(t, source, n, Closers(source[..n]))
  {
    assert closed == Closers(source[..n]);
  }

  lemma TakeToken(tokens: seq<Token>, t: Token, rest: Lexed)
    ensures tokens + Cons(t, rest).tokens == tokens + [t] + rest.tokens
  {
  }
}
