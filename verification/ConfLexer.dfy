/**
 * The lexer coroutine of irccd/conf.c. It edits the configuration text in place, cutting strings with
 * NULs, and is suspended at each token it yields.
 */
module ConfLexer {
  import opened Strtok
  import opened LexSpec

  /** Where the coroutine is suspended: at its entry, at a string that ends at off, or elsewhere after a token. */
  datatype State = Entered | Holding(save: char) | Yielded | Ended

  /** What the lexer does next: yield a token, or end, or stop the program. */
  datatype Yield = Marked(c: char) | StringFrom(start: nat) | AtEnd | Fatal | Aborted

  class Lexer {
    const text: array<char>
    var off: nat
    var line: nat
    var state: State
    ghost const source: string
    ghost const n: nat
    ghost var closed: set<int>

    /** conf_open: the text is read whole and followed by a NUL. */
    constructor (content: array<char>, ghost size: nat)
      requires Holds(content[..], size)
      ensures text == content && source == content[..] && n == size && state == Entered && off == 0 && Valid()
    {
      text, off, line, state := content, 0, 1, Entered;
      source, n, closed := content[..], size, {};
      new;
      assert source[0..n] == source[..n];
    }

    ghost predicate Counted()
      reads `off, `line
    {
      off <= n < |source| && line == 1 + Newlines(source[..off])
    }

    /** The state between two steps. */
    ghost predicate Placed()
      reads `off, `line, `closed, text
    {
      Counted() && At(text[..], source, n, off, closed)
    }

    ghost predicate Valid()
      reads this, text
    {
      match state
      case Entered => off == 0 && Placed()
      case Holding(save) =>
        Counted() && text.Length == |source| && text[off] == NUL && save == source[off] &&
        At(text[..][off := save], source, n, off, closed)
      case Yielded => Placed()
      case Ended => true
    }

    /** What is still to be lexed. */
    ghost function Rest(): Lexed
      requires off <= n <= |source|
      reads `off
    {
      Lex(source[off..n])
    }

    /** From off on, the text is as it was. */
    ghost predicate Ahead()
      reads `off, `line, text
    {
      Counted() && Holds(source, n) && text.Length == |source| && forall i :: off <= i < |source| ==> text[i] == source[i]
    }

    /** conf_lex_advance: never called at the end of the text. */
    method Advance()
      requires Ahead() && text[off] != NUL
      modifies `off, `line
      ensures Ahead() && off == old(off) + 1
    {
      CountOne(source, off);
      if text[off] == '\n' {
        line := line + 1;
      }
      off := off + 1;
    }

    /** The loop shared by strings and comments: up to a stop, or the end of the text. */
    method AdvanceTo(stops: Delims)
      requires Ahead()
      modifies `off, `line
      ensures Ahead() && off == old(off) + Span(source[old(off)..n], stops)
      ensures off < n ==> text[off] in stops
    {
      ghost var end := off + Span(source[off..n], stops);
      SpanEnds(source, off, n, stops);
      while text[off] != NUL && text[off] !in stops
        invariant Ahead() && old(off) <= off && off + Span(source[off..n], stops) == end
        decreases n - off
      {
        SpanOne(source, off, n, stops);
        Advance();
      }
    }

    /** One blank of those that conf_lex_bskip skips. */
    method SkipOne()
      requires Placed() && text[off] in BLANKS
      modifies `off, `line
      ensures Placed() && off == old(off) + 1 && Rest() == old(Rest())
    {
      UncutAhead(text[..], source, n, off, closed);
      PassOne(text[..], source, n, off, closed);
      Advance();
    }

    /** conf_lex_bskip. */
    method Bskip()
      requires Placed()
      modifies `off, `line
      ensures Placed() && off >= old(off) && Rest() == old(Rest())
      ensures text[off] !in BLANKS
    {
      while text[off] in BLANKS
        invariant Placed() && off >= old(off) && Rest() == old(Rest())
        decreases n - off
      {
        SkipOne();
      }
    }

    /** A comment, up to the newline or the end of the text. */
    method SkipComment()
      requires Placed() && text[off] == '#'
      modifies `off, `line
      ensures Placed() && off > old(off) && Rest() == old(Rest())
    {
      UncutAhead(text[..], source, n, off, closed);
      PassComment(text[..], source, n, off, closed);
      SpanOne(source, off, n, {'\n'});
      Advance();
      AdvanceTo({'\n'});
    }

    /** conf_lex_comment. */
    method Comment()
      requires Placed() && text[off] == '#'
      modifies `off, `line
      ensures Placed() && off > old(off) && Rest() == old(Rest())
      ensures text[off] !in BLANKS
    {
      SkipComment();
      Bskip();
    }

    /** A token of one character, and what conf_lex_yield0 does before it is suspended. */
    method Sign() returns (y: Yield)
      requires Placed() && text[off] in MARKS
      modifies `off, `line, `state
      ensures Valid() && state == Yielded && off > old(off)
      ensures y.Marked? && old(Rest()) == Cons(Mark(y.c), Rest())
    {
      UncutAhead(text[..], source, n, off, closed);
      PassOne(text[..], source, n, off, closed);
      y := Marked(text[off]);
      assert Rest() == Cons(Mark(y.c), Lex(source[off + 1..n]));
      Advance();
      state := Yielded;
    }

    /** The string that starts at at is ended at off, by a NUL for which the character there is kept aside. */
    method Hold(ghost at: nat)
      requires Counted() && At(text[..], source, n, at, closed) && at < n && source[at] !in STOPS
      requires off == at + Span(source[at..n], STOPS)
      modifies `state, text
      ensures Valid() && state.Holding? && off > at
      ensures Lex(source[at..n]) == Cons(Str(CString(text[..], at)), Rest())
    {
      ghost var was := text[..];
      PassWord(was, source, n, at, closed, off);
      UncutAhead(was, source, n, off, closed);
      state := Holding(text[off]);
      text[off] := NUL;
      assert text[..] == was[off := NUL];
      assert text[..][off := source[off]] == was;
    }

    /** conf_lex_string, up to its yield. */
    method String() returns (y: Yield)
      requires Placed() && off < n && text[off] !in STOPS
      modifies this, text
      ensures Valid() && state.Holding? && off > old(off)
      ensures y.StringFrom? && y.start <= n && old(Rest()) == Cons(Str(CString(text[..], y.start)), Rest())
    {
      UncutAhead(text[..], source, n, off, closed);
      var start := off;
      AdvanceTo(STOPS);
      Hold(start);
      y := StringFrom(start);
    }

    /** The closing quote at off becomes the NUL of the string that starts after the one at at. */
    method CloseQuote(ghost at: nat)
      requires Counted() && At(text[..], source, n, at, closed) && at < off < n && source[at] == QUOTE
      requires off == at + 1 + Span(source[at + 1..n], {QUOTE})
      modifies `off, `closed, `state, text
      ensures Placed() && state == Yielded && off == old(off) + 1
      ensures Lex(source[at..n]) == Cons(Str(CString(text[..], at + 1)), Rest())
    {
      ghost var was := text[..];
      PassQuoted(was, source, n, at, closed, off);
      CountOne(source, off);
      SpanEnds(source, at + 1, n, {QUOTE});
      text[off] := NUL;
      assert text[..] == was[off := NUL];
      closed := closed + {n - off};
      off := off + 1;
      state := Yielded;
    }

    /** From the opening quote to the closing one, if there is one. */
    method ToQuote()
      requires Ahead() && text[off] == QUOTE
      modifies `off, `line
      ensures Ahead() && off == old(off) + 1 + Span(source[old(off) + 1..n], {QUOTE})
      ensures text[off] == QUOTE <==> off < n
    {
      CountOne(source, off);
      off := off + 1;
      AdvanceTo({QUOTE});
    }

    /** conf_lex_qstring, up to its yield: the closing quote is lost. */
    method QString() returns (y: Yield)
      requires Placed() && text[off] == QUOTE
      modifies this, text
      ensures y == Fatal || y.StringFrom?
      ensures y == Fatal ==> old(Rest()) == Lexed([], Unterminated) && line == 1 + Newlines(source[..n])
      ensures y.StringFrom? ==> Valid() && state == Yielded && off > old(off) && y.start <= n
      ensures y.StringFrom? ==> old(Rest()) == Cons(Str(CString(text[..], y.start)), Rest())
    {
      UncutAhead(text[..], source, n, off, closed);
      ghost var at := off;
      var start := off + 1;
      ToQuote();
      if text[off] != QUOTE {
        OpenHere(source, at, n);
        state := Ended;
        return Fatal;
      }
      CloseQuote(at);
      y := StringFrom(start);
    }

    /** What the coroutine does first when it is resumed: put back what it kept aside, skip blanks. */
    method Settle()
      requires Valid() && !state.Ended?
      modifies this, text
      ensures Placed() && Rest() == old(Rest()) && off >= old(off)
      ensures if old(state).Entered? then off == 0 else text[off] !in BLANKS
    {
      if state.Holding? {
        ghost var was := text[..];
        text[off] := state.save;
        assert text[..] == was[off := state.save];
      }
      if !state.Entered? {
        Bskip();
      }
    }

    /** How a yield follows from what was left to lex, and what is left after it. */
    ghost predicate Follows(y: Yield, before: Lexed)
      reads this, text
    {
      match y
      case Marked(c) => Valid() && (state.Yielded? || state.Holding?) && off <= n < |source| && before == Cons(Mark(c), Rest())
      case StringFrom(p) =>
        Valid() && (state.Yielded? || state.Holding?) && off <= n < |source| && p <= n <= text.Length &&
        before == Cons(Str(CString(text[..], p)), Rest())
      case AtEnd => Placed() && off == n && before == Lexed([], Eof)
      case Fatal => before == Lexed([], Unterminated) && n <= |source| && line == 1 + Newlines(source[..n])
      case Aborted => true
    }

    /** The switch of the main loop, behind any comments. */
    method Emit() returns (y: Yield)
      requires Placed() && text[off] != '#'
      modifies this, text
      ensures y.Aborted? <==> old(text[off]) in BLANKS
      ensures Follows(y, old(Rest()))
      ensures y.Marked? || y.StringFrom? ==> off > old(off)
    {
      if text[off] == NUL {
        state := Ended;
        y := AtEnd;
      } else if text[off] in MARKS {
        y := Sign();
      } else if text[off] == QUOTE {
        y := QString();
      } else if text[off] in BLANKS {
        state := Ended;
        y := Aborted;
      } else {
        y := String();
      }
    }

    /**
     * conf_lex_entry from one yield to the next. The assertion made of the start of a string that is not
     * quoted can only fail at the very beginning, where blanks have not been skipped.
     */
    method Resume() returns (y: Yield)
      requires Valid() && !state.Ended?
      modifies this, text
      ensures y.Aborted? <==> old(state).Entered? && source[0] in BLANKS
      ensures Follows(y, old(Rest()))
      ensures y.Marked? || y.StringFrom? ==> off > old(off)
    {
      ghost var first := state.Entered?;
      Settle();
      UncutAhead(text[..], source, n, off, closed);
      while text[off] == '#'
        invariant Placed() && Rest() == old(Rest()) && off >= old(off)
        invariant text[off] in BLANKS <==> first && source[0] in BLANKS
        invariant first && source[0] in BLANKS ==> off == 0
        decreases n - off
      {
        Comment();
      }
      y := Emit();
    }

    /** A whole run, each string being read while the lexer is suspended at it. */
    method Run() returns (tokens: seq<Token>, last: Yield)
      requires Valid() && state.Entered?
      modifies this, text
      ensures last.AtEnd? || last.Fatal? || last.Aborted?
      ensures last.Aborted? <==> source[0] in BLANKS
      ensures last.AtEnd? ==> Lex(source[..n]) == Lexed(tokens, Eof)
      ensures last.AtEnd? ==> Cut(text[..], source, n, Closers(source[..n])) && line == 1 + Newlines(source[..n])
      ensures last.Fatal? ==> Lex(source[..n]) == Lexed(tokens, Unterminated) && line == 1 + Newlines(source[..n])
    {
      assert source[0..n] == source[..n];
      tokens := [];
      ghost var rest := Rest();
      last := Resume();
      while last.Marked? || last.StringFrom?
        invariant last.Aborted? <==> source[0] in BLANKS
        invariant Follows(last, rest)
        invariant !last.Aborted? ==> Lex(source[..n]) == Lexed(tokens + rest.tokens, rest.end)
        decreases last.Marked? || last.StringFrom?, n - off
      {
        var token := if last.Marked? then Mark(last.c) else Str(CString(text[..], last.start));
        TakeToken(tokens, token, Rest());
        tokens := tokens + [token];
        rest := Rest();
        last := Resume();
      }
      if last.AtEnd? {
        AllCut(text[..], source, n, closed);
      }
    }
  }

  /** Printing tokens, in any layout, and lexing the text gives the tokens back. */
  method LexPrinted(pieces: seq<Piece>, gaps: seq<string>) returns (tokens: seq<Token>)
    requires Layout(pieces, gaps)
    ensures tokens == MeantAll(pieces)
  {
    var printed := Print(pieces, gaps);
    PrintIsText(pieces, gaps);
    LexOfPrint(pieces, gaps);
    var n := |printed|;
    var content := new char[n + 1](i requires 0 <= i <= n => if i < n then printed[i] else NUL);
    assert content[..][..n] == printed;
    var lexer := new Lexer(content, n);
    var last;
    tokens, last := lexer.Run();
  }
}
