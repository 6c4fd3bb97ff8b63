/**
 * The line cutter of irccd/jsapi-util.c: words are packed greedily into lines of bounded width
 * and number, which uses as few lines as any packing could.
 */
module Cut {
  import opened Strtok

  const BLANKS: Delims := {' ', '\t', '\n'}

  type Line = seq<string>

  // ---- packings

  function Text(line: Line): string {
    Join(line, ' ')
  }

  /** The columns a line takes: its words and the spaces between them. */
  function Width(line: Line): nat {
    |Text(line)|
  }

  function Flatten(lines: seq<Line>): seq<string> {
    if lines == [] then [] else Flatten(lines[..|lines| - 1]) + lines[|lines| - 1]
  }

  /** The tokens in their order, cut into lines that have at least a word and at most maxc columns. */
  ghost predicate Packing(lines: seq<Line>, tokens: seq<string>, maxc: nat) {
    Flatten(lines) == tokens && forall i :: 0 <= i < |lines| ==> lines[i] != [] && Width(lines[i]) <= maxc
  }

  /** The packing join builds: a token goes on the last line if it fits there. */
  function Greedy(tokens: seq<string>, maxc: nat): seq<Line>
    decreases |tokens|
  {
    if tokens == [] then [] else
      Placed(Greedy(tokens[..|tokens| - 1], maxc), tokens[|tokens| - 1], maxc)
  }

  function Placed(lines: seq<Line>, t: string, maxc: nat): (r: seq<Line>)
    ensures r != []
  {
    if lines != [] && Width(lines[|lines| - 1]) + 1 + |t| <= maxc
    then lines[..|lines| - 1] + [lines[|lines| - 1] + [t]]
    else lines + [[t]]
  }

  lemma WidthSnoc(line: Line, t: string)
    ensures Width(line + [t]) == if line == [] then |t| else Width(line) + 1 + |t|
  {
    if line == [] {
      assert line + [t] == [t];
    } else {
      JoinSnoc(line, ' ', t);
    }
  }

  lemma FlattenSnoc(lines: seq<Line>, line: Line)
    ensures Flatten(lines + [line]) == Flatten(lines) + line
  {
    assert (lines + [line])[..|lines|] == lines;
  }

  ghost predicate AllFit(tokens: seq<string>, maxc: nat) {
    forall i :: 0 <= i < |tokens| ==> 0 < |tokens[i]| <= maxc
  }

  /** Placing a token that fits on a line of its own extends a packing by that token. */
  lemma PlacedPacks(g: seq<Line>, tokens: seq<string>, t: string, maxc: nat)
    requires Packing(g, tokens, maxc) && 0 < |t| <= maxc
    ensures Packing(Placed(g, t, maxc), tokens + [t], maxc)
  {
    if g != [] && Width(g[|g| - 1]) + 1 + |t| <= maxc {
      var front, last := g[..|g| - 1], g[|g| - 1];
      WidthSnoc(last, t);
      FlattenSnoc(front, last + [t]);
      assert Flatten(front) + (last + [t]) == Flatten(g) + [t];
    } else {
      WidthSnoc([], t);
      FlattenSnoc(g, [t]);
    }
  }

  /** The greedy lines are a packing when every token fits on a line of its own. */
  lemma {:induction false} GreedyPacks(tokens: seq<string>, maxc: nat)
    requires AllFit(tokens, maxc)
    ensures Packing(Greedy(tokens, maxc), tokens, maxc)
    decreases |tokens|
  {
    if tokens != [] {
      var front, t := tokens[..|tokens| - 1], tokens[|tokens| - 1];
      GreedyPacks(front, maxc);
      PlacedPacks(Greedy(front, maxc), front, t, maxc);
      assert front + [t] == tokens;
    }
  }

  /** p is at least as far along as g: more lines, or as many and the last no narrower. */
  ghost predicate Ahead(g: seq<Line>, p: seq<Line>) {
    g != [] && p != [] &&
    (|g| < |p| || (|g| == |p| && Width(g[|g| - 1]) <= Width(p[|p| - 1])))
  }

  /** The packing without its last word. */
  function Shortened(p: seq<Line>): seq<Line>
    requires p != [] && p[|p| - 1] != []
  {
    var last := p[|p| - 1];
    if |last| == 1 then p[..|p| - 1] else p[..|p| - 1] + [last[..|last| - 1]]
  }

  lemma ShortenedPacks(p: seq<Line>, tokens: seq<string>, maxc: nat)
    requires Packing(p, tokens, maxc) && tokens != []
    ensures p != [] && Packing(Shortened(p), tokens[..|tokens| - 1], maxc)
    ensures var last, t := p[|p| - 1], tokens[|tokens| - 1];
      last[|last| - 1] == t &&
      if |last| == 1 then Width(last) == |t|
      else Shortened(p) != [] && |Shortened(p)| == |p| && Width(last) == Width(Shortened(p)[|p| - 1]) + 1 + |t|
  {
    var last := p[|p| - 1];
    var front, t := last[..|last| - 1], last[|last| - 1];
    assert last == front + [t];
    WidthSnoc(front, t);
    assert tokens == Flatten(p[..|p| - 1]) + front + [t];
    FlattenSnoc(p[..|p| - 1], front);
    if |last| == 1 {
      assert Flatten(p[..|p| - 1]) + front == Flatten(p[..|p| - 1]);
    }
  }

  /** Greedy stays ahead: no packing reaches any token with fewer lines or a shorter last line. */
  lemma {:induction false} GreedyStaysAhead(tokens: seq<string>, maxc: nat, p: seq<Line>)
    requires tokens != [] && AllFit(tokens, maxc) && Packing(p, tokens, maxc)
    ensures Ahead(Greedy(tokens, maxc), p)
    decreases |tokens|
  {
    var front, t := tokens[..|tokens| - 1], tokens[|tokens| - 1];
    var g := Greedy(front, maxc);
    ShortenedPacks(p, tokens, maxc);
    WidthSnoc([], t);
    if front == [] {
      assert |Greedy(tokens, maxc)| == 1;
    } else {
      GreedyStaysAhead(front, maxc, Shortened(p));
      WidthSnoc(g[|g| - 1], t);
    }
  }

  /** No packing has fewer lines than the greedy one. */
  lemma GreedyIsOptimal(tokens: seq<string>, maxc: nat, p: seq<Line>)
    requires Packing(p, tokens, maxc) && AllFit(tokens, maxc)
    ensures |Greedy(tokens, maxc)| <= |p|
  {
    if tokens != [] {
      GreedyStaysAhead(tokens, maxc, p);
    }
  }

  /** Packing a longer list never takes fewer lines. */
  lemma {:induction false} GreedyGrows(tokens: seq<string>, n: nat, maxc: nat)
    requires n <= |tokens|
    ensures |Greedy(tokens[..n], maxc)| <= |Greedy(tokens, maxc)|
    decreases |tokens|
  {
    if n == |tokens| {
      assert tokens[..n] == tokens;
    } else {
      var front := tokens[..|tokens| - 1];
      assert front[..n] == tokens[..n];
      GreedyGrows(front, n, maxc);
    }
  }

  /** Tokens that can be packed at all fit one by one. */
  lemma {:induction false} PackingFits(tokens: seq<string>, maxc: nat, p: seq<Line>)
    requires Packing(p, tokens, maxc)
    ensures forall i :: 0 <= i < |tokens| ==> |tokens[i]| <= maxc
    decreases |tokens|
  {
    if tokens != [] {
      var front := tokens[..|tokens| - 1];
      ShortenedPacks(p, tokens, maxc);
      PackingFits(front, maxc, Shortened(p));
      assert forall i :: 0 <= i < |front| ==> tokens[i] == front[i];
    }
  }

  ghost predicate Packable(tokens: seq<string>, maxc: nat, maxl: nat) {
    exists p :: Packing(p, tokens, maxc) && |p| <= maxl
  }

  /** Whether a list can be packed is settled by the greedy lines. */
  lemma PackableIffGreedy(tokens: seq<string>, maxc: nat, maxl: nat)
    requires forall i :: 0 <= i < |tokens| ==> tokens[i] != ""
    ensures Packable(tokens, maxc, maxl) <==> AllFit(tokens, maxc) && |Greedy(tokens, maxc)| <= maxl
  {
    if Packable(tokens, maxc, maxl) {
      var p :| Packing(p, tokens, maxc) && |p| <= maxl;
      PackingFits(tokens, maxc, p);
      GreedyIsOptimal(tokens, maxc, p);
    }
    if AllFit(tokens, maxc) {
      GreedyPacks(tokens, maxc);
    }
  }

  // ---- join

  function Texts(lines: seq<Line>): (r: seq<string>)
    ensures |r| == |lines|
  {
    seq(|lines|, i requires 0 <= i < |lines| => Text(lines[i]))
  }

  function Page(lines: seq<Line>): string {
    Join(Texts(lines), '\n')
  }

  lemma PageSnoc(lines: seq<Line>, line: Line)
    ensures Page(lines + [line]) == if lines == [] then Text(line) else Page(lines) + (['\n'] + Text(line))
  {
    assert Texts(lines + [line]) == Texts(lines) + [Text(line)];
    if lines != [] {
      JoinSnoc(Texts(lines), '\n', Text(line));
    }
  }

  /** The locals of join and the output so far, against the greedy lines of the tokens written. */
  ghost predicate Written(g: seq<Line>, maxl: nat, out: string, linesz: nat, lineavail: nat) {
    out == Page(g) && |g| <= maxl &&
    if g == [] then linesz == 0 && lineavail == maxl
    else linesz == Width(g[|g| - 1]) > 0 && lineavail == maxl - (|g| - 1)
  }

  lemma Associate(front: string, sep: string, text: string, more: string)
    ensures front + (sep + (text + more)) == (front + (sep + text)) + more
  {
  }

  /** What a word behind the last line adds to the page. */
  lemma PageBehind(front: seq<Line>, last: Line, t: string)
    requires last != []
    ensures Page(front + [last + [t]]) == Page(front + [last]) + ([' '] + t)
  {
    PageSnoc(front, last);
    PageSnoc(front, last + [t]);
    JoinSnoc(last, ' ', t);
    Associate(Page(front), ['\n'], Text(last), [' '] + t);
  }

  /** A token that still fits goes behind a space on the last line. */
  lemma WrittenBehind(g: seq<Line>, t: string, maxc: nat, maxl: nat, out: string, linesz: nat, lineavail: nat)
    requires g != [] && g[|g| - 1] != [] && Written(g, maxl, out, linesz, lineavail) && linesz + 1 + |t| <= maxc
    ensures |Placed(g, t, maxc)| == |g|
    ensures Written(Placed(g, t, maxc), maxl, out + ([' '] + t), linesz + 1 + |t|, lineavail)
  {
    var front, last := g[..|g| - 1], g[|g| - 1];
    assert g == front + [last];
    PageBehind(front, last, t);
    WidthSnoc(last, t);
  }

  /** A token that does not fit starts a line, as the first token does. */
  lemma WrittenBelow(g: seq<Line>, t: string, maxc: nat, maxl: nat, out: string, linesz: nat, lineavail: nat)
    requires Written(g, maxl, out, linesz, lineavail) && 0 < |t|
    requires g == [] || linesz + 1 + |t| > maxc
    ensures |Placed(g, t, maxc)| == |g| + 1
    ensures |g| < maxl ==>
      if g == [] then Written(Placed(g, t, maxc), maxl, out + t, |t|, lineavail)
      else Written(Placed(g, t, maxc), maxl, out + ['\n'] + t, |t|, lineavail - 1)
  {
    PageSnoc(g, [t]);
    WidthSnoc([], t);
    assert Text([t]) == t;
  }

  /** One round of the loop of join; it is cut short when the line limit is reached. */
  method Place(token: string, maxc: nat, maxl: nat, out0: string, linesz0: nat, lineavail0: nat, ghost g: seq<Line>)
    returns (full: bool, out: string, linesz: nat, lineavail: nat)
    requires 0 < |token| <= maxc && maxl >= 1
    requires Written(g, maxl, out0, linesz0, lineavail0)
    requires g != [] ==> g[|g| - 1] != []
    ensures full <==> |Placed(g, token, maxc)| > maxl
    ensures !full ==> Written(Placed(g, token, maxc), maxl, out, linesz, lineavail)
  {
    full, out, linesz, lineavail := false, out0, linesz0, lineavail0;
    if g == [] || linesz + 1 + |token| > maxc {
      WrittenBelow(g, token, maxc, maxl, out, linesz, lineavail);
    } else {
      WrittenBehind(g, token, maxc, maxl, out, linesz, lineavail);
    }
    var tokensz := |token|;
    if linesz > 0 {
      tokensz := tokensz + 1;
    }
    if linesz + tokensz > maxc {
      lineavail := lineavail - 1;
      if lineavail == 0 {
        full := true;
        return;
      }
      out := out + ['\n'];
      linesz := 0;
    }
    if linesz > 0 {
      out := out + ([' '] + token);
      linesz := linesz + 1 + |token|;
    } else {
      out := out + token;
      linesz := |token|;
    }
  }

  datatype Joined = Lines(out: string) | TokenTooBig(index: nat) | TooManyLines(index: nat)

  /** What join answers: the greedy lines, or the first token that does not go on them. */
  ghost predicate Answers(r: Joined, tokens: seq<string>, maxc: nat, maxl: nat) {
    match r
    case Lines(out) => Packable(tokens, maxc, maxl) && out == Page(Greedy(tokens, maxc))
    case TokenTooBig(i) => i < |tokens| && Packable(tokens[..i], maxc, maxl) && |tokens[i]| > maxc
    case TooManyLines(i) =>
      i < |tokens| && Packable(tokens[..i], maxc, maxl) && |tokens[i]| <= maxc && !Packable(tokens[..i + 1], maxc, maxl)
  }

  /** A list that starts with tokens that cannot be packed cannot be packed. */
  lemma PackableFront(tokens: seq<string>, n: nat, maxc: nat, maxl: nat)
    requires n <= |tokens| && Packable(tokens, maxc, maxl) && forall i :: 0 <= i < |tokens| ==> tokens[i] != ""
    ensures Packable(tokens[..n], maxc, maxl)
  {
    PackableIffGreedy(tokens, maxc, maxl);
    GreedyGrows(tokens, n, maxc);
    FrontFits(tokens, n, maxc);
    GreedyPacks(tokens[..n], maxc);
    assert Packing(Greedy(tokens[..n], maxc), tokens[..n], maxc);
  }

  lemma FrontFits(tokens: seq<string>, n: nat, maxc: nat)
    requires n <= |tokens| && AllFit(tokens, maxc)
    ensures AllFit(tokens[..n], maxc)
  {
    assert forall i :: 0 <= i < n ==> tokens[..n][i] == tokens[i];
  }

  /** The error cases are those in which nothing could have been joined. */
  lemma AnswersDecide(r: Joined, tokens: seq<string>, maxc: nat, maxl: nat)
    requires Answers(r, tokens, maxc, maxl) && forall i :: 0 <= i < |tokens| ==> tokens[i] != ""
    ensures r.Lines? <==> Packable(tokens, maxc, maxl)
  {
    if Packable(tokens, maxc, maxl) {
      match r {
        case Lines(_) =>
        case TokenTooBig(_) => PackableIffGreedy(tokens, maxc, maxl);
        case TooManyLines(i) => PackableFront(tokens, i + 1, maxc, maxl);
      }
    }
  }

  /** g are the greedy lines of the first i tokens, all of which fit. */
  ghost predicate Reached(g: seq<Line>, tokens: seq<string>, i: nat, maxc: nat) {
    i <= |tokens| && AllFit(tokens[..i], maxc) && g == Greedy(tokens[..i], maxc) && Packing(g, tokens[..i], maxc)
  }

  lemma ReachedNext(g: seq<Line>, tokens: seq<string>, i: nat, maxc: nat)
    requires i < |tokens| && Reached(g, tokens, i, maxc) && 0 < |tokens[i]| <= maxc
    ensures Reached(Placed(g, tokens[i], maxc), tokens, i + 1, maxc)
  {
    var next := tokens[..i + 1];
    assert next[..i] == tokens[..i] && next == tokens[..i] + [tokens[i]];
    assert AllFit(next, maxc);
    GreedyPacks(next, maxc);
  }

  /** Where the loop of join stops, and the answer it gives there. */
  lemma ReachedAnswers(g: seq<Line>, tokens: seq<string>, i: nat, maxc: nat, maxl: nat, r: Joined)
    requires Reached(g, tokens, i, maxc) && |g| <= maxl && forall k :: 0 <= k < |tokens| ==> tokens[k] != ""
    requires match r
      case Lines(out) => i == |tokens| && out == Page(g)
      case TokenTooBig(k) => k == i < |tokens| && |tokens[i]| > maxc
      case TooManyLines(k) => k == i < |tokens| && |tokens[i]| <= maxc && |Placed(g, tokens[i], maxc)| > maxl
    ensures Answers(r, tokens, maxc, maxl)
  {
    PackableIffGreedy(tokens[..i], maxc, maxl);
    if r.TooManyLines? {
      ReachedNext(g, tokens, i, maxc);
      PackableIffGreedy(tokens[..i + 1], maxc, maxl);
    } else if r.Lines? {
      assert tokens[..i] == tokens;
    }
  }

  /**
   * join. Tokens are never empty and maxl is positive: stringlist_concat and limit see to it.
   */
  method JoinTokens(maxc: nat, maxl: nat, tokens: seq<string>) returns (r: Joined)
    requires maxl >= 1 && forall i :: 0 <= i < |tokens| ==> tokens[i] != ""
    ensures Answers(r, tokens, maxc, maxl)
    ensures r.Lines? <==> Packable(tokens, maxc, maxl)
  {
    var out, linesz, lineavail := "", 0, maxl;
    ghost var g: seq<Line> := [];
    for i := 0 to |tokens|
      invariant Reached(g, tokens, i, maxc) && Written(g, maxl, out, linesz, lineavail)
    {
      if |tokens[i]| > maxc {
        r := TokenTooBig(i);
        ReachedAnswers(g, tokens, i, maxc, maxl, r);
        AnswersDecide(r, tokens, maxc, maxl);
        return;
      }
      var full;
      full, out, linesz, lineavail := Place(tokens[i], maxc, maxl, out, linesz, lineavail, g);
      if full {
        r := TooManyLines(i);
        ReachedAnswers(g, tokens, i, maxc, maxl, r);
        AnswersDecide(r, tokens, maxc, maxl);
        return;
      }
      ReachedNext(g, tokens, i, maxc);
      g := Placed(g, tokens[i], maxc);
    }
    r := Lines(out);
    ReachedAnswers(g, tokens, |tokens|, maxc, maxl, r);
    AnswersDecide(r, tokens, maxc, maxl);
  }

  // ---- Util_cut

  /** The words of several strings, in order. */
  function Words(values: seq<string>): seq<string> {
    if values == [] then [] else Words(values[..|values| - 1]) + Tokens(values[|values| - 1], BLANKS)
  }

  lemma WordsSnoc(values: seq<string>, v: string)
    ensures Words(values + [v]) == Words(values) + Tokens(v, BLANKS)
  {
    assert (values + [v])[..|values|] == values;
  }

  ghost predicate AllClean(tokens: seq<string>) {
    forall i :: 0 <= i < |tokens| ==> Clean(tokens[i], BLANKS)
  }

  lemma {:induction false} WordsAreClean(values: seq<string>)
    ensures AllClean(Words(values))
    decreases |values|
  {
    if values != [] {
      WordsAreClean(values[..|values| - 1]);
      TokensAreClean(values[|values| - 1], BLANKS);
    }
  }

  /** A line holds no newline. */
  lemma {:induction false} TextIsOneLine(line: Line)
    requires line != [] && AllClean(line)
    ensures Clean(Text(line), {'\n'})
    decreases |line|
  {
    var front, t := line[..|line| - 1], line[|line| - 1];
    assert front + [t] == line;
    if front == [] {
      assert line == [t];
    } else {
      TextIsOneLine(front);
      JoinSnoc(front, ' ', t);
    }
  }

  /** Cutting the page at its newlines gives the lines back, and their words are the words packed. */
  lemma {:induction false} PageIsReadBack(lines: seq<Line>)
    requires AllClean(Flatten(lines)) && forall i :: 0 <= i < |lines| ==> lines[i] != []
    ensures Tokens(Page(lines), {'\n'}) == Texts(lines)
    ensures Words(Texts(lines)) == Flatten(lines)
    decreases |lines|
  {
    if lines != [] {
      var front, last := lines[..|lines| - 1], lines[|lines| - 1];
      assert lines == front + [last];
      assert Texts(lines) == Texts(front) + [Text(last)];
      assert AllClean(Flatten(front)) && AllClean(last) by {
        var all := Flatten(lines);
        assert all == Flatten(front) + last;
        assert forall i :: 0 <= i < |Flatten(front)| ==> Flatten(front)[i] == all[i];
        assert forall i :: 0 <= i < |last| ==> last[i] == all[|Flatten(front)| + i];
      }
      PageIsReadBack(front);
      PageSnoc(front, last);
      TextIsOneLine(last);
      TokensOfJoin(last, ' ', BLANKS);
      WordsSnoc(Texts(front), Text(last));
      TokensOfWord(Text(last), "", {'\n'});
      assert Text(last) + "" == Text(last);
      if front != [] {
        TokensConcat(Page(front), '\n', Text(last), {'\n'});
      }
    }
  }

  datatype Argument = Absent | Number(n: int)

  datatype Outcome = Cut(lines: seq<string>) | NotPositive | NotPacked(why: Joined)

  /** limit: a number given stands for itself, and anything else for the default. */
  function Limit(arg: Argument, value: nat): (r: int)
    ensures arg.Absent? ==> r == value
    ensures arg.Number? ==> r == arg.n
  {
    if arg.Number? then arg.n else value
  }

  const MAXC: nat := 72

  /** The bound l is the one given, or the default if none was. */
  predicate Bound(arg: Argument, value: nat, l: nat) {
    match arg
    case Number(n) => l == n
    case Absent => l == value
  }

  /**
   * What Util_cut promises of the lines it returns: they are the texts of a packing of the words, its words
   * one space apart, the greedy one; no packing has fewer; and all that is lost on the way is white.
   */
  ghost predicate CutsTo(lines: seq<string>, values: seq<string>, maxc: nat, maxl: nat) {
    Words(lines) == Words(values) && |lines| <= maxl && AllInk(lines) == AllInk(values) &&
    lines == Texts(Greedy(Words(values), maxc)) && Packing(Greedy(Words(values), maxc), Words(values), maxc) &&
    (forall i :: 0 <= i < |lines| ==> 0 < |lines[i]| <= maxc && '\n' !in lines[i]) &&
    forall p :: Packing(p, Words(values), maxc) ==> |lines| <= |p|
  }

  /** A text without its spaces, tabs and newlines. */
  function Ink(s: string): string {
    if s == "" then ""
    else if s[0] == ' ' || s[0] == '\t' || s[0] == '\n' then Ink(s[1..])
    else [s[0]] + Ink(s[1..])
  }

  function AllInk(values: seq<string>): string {
    if values == [] then "" else AllInk(values[..|values| - 1]) + Ink(values[|values| - 1])
  }

  function Concat(words: seq<string>): string {
    if words == [] then "" else words[0] + Concat(words[1..])
  }

  lemma {:induction false} ConcatConcat(a: seq<string>, b: seq<string>)
    ensures Concat(a + b) == Concat(a) + Concat(b)
  {
    if a == [] {
      assert a + b == b;
    } else {
      assert (a + b)[1..] == a[1..] + b;
      ConcatConcat(a[1..], b);
    }
  }

  lemma {:induction false} InkOfWord(w: string, rest: string)
    requires Clean(w, BLANKS)
    ensures Ink(w + rest) == w + Ink(rest)
  {
    var s := w + rest;
    assert s[0] == w[0] && s[1..] == w[1..] + rest;
    assert w[0] in w;
    if |w| == 1 {
      assert w[1..] + rest == rest;
    } else {
      assert forall c :: c in w[1..] ==> c in w;
      InkOfWord(w[1..], rest);
    }
  }

  lemma ConcatFirst(w: string, words: seq<string>)
    ensures Concat([w] + words) == w + Concat(words)
  {
    assert ([w] + words)[1..] == words;
  }

  /** The first word of a text that starts with one. */
  lemma FirstWord(s: string, n: nat)
    requires s != "" && s[0] !in BLANKS && n == Span(s, BLANKS)
    ensures 0 < n <= |s| && Clean(s[..n], BLANKS) && Tokens(s, BLANKS) == [s[..n]] + Tokens(s[n..], BLANKS)
  {
    SpanIsClean(s, BLANKS);
  }

  /** The tokens of a text, one after the other, are the text without its white space. */
  lemma {:induction false} InkOfTokens(s: string)
    ensures Concat(Tokens(s, BLANKS)) == Ink(s)
    decreases |s|
  {
    if s != "" {
      if s[0] in BLANKS {
        assert s == [s[0]] + s[1..];
        DelimIsSkipped(s[0], s[1..], BLANKS);
        InkOfTokens(s[1..]);
      } else {
        var n := Span(s, BLANKS);
        FirstWord(s, n);
        ConcatFirst(s[..n], Tokens(s[n..], BLANKS));
        InkOfTokens(s[n..]);
        InkOfWord(s[..n], s[n..]);
        assert s == s[..n] + s[n..];
      }
    }
  }

  lemma {:induction false} InkOfWords(values: seq<string>)
    ensures Concat(Words(values)) == AllInk(values)
    decreases |values|
  {
    if values != [] {
      var front, v := values[..|values| - 1], values[|values| - 1];
      InkOfWords(front);
      InkOfTokens(v);
      ConcatConcat(Words(front), Tokens(v, BLANKS));
    }
  }

  lemma GreedyCuts(values: seq<string>, maxc: nat, maxl: nat)
    requires Packable(Words(values), maxc, maxl)
    ensures var g := Greedy(Words(values), maxc);
      Tokens(Page(g), {'\n'}) == Texts(g) && CutsTo(Texts(g), values, maxc, maxl)
  {
    var tokens := Words(values);
    var g := Greedy(tokens, maxc);
    WordsAreClean(values);
    PackableIffGreedy(tokens, maxc, maxl);
    GreedyPacks(tokens, maxc);
    PageIsReadBack(g);
    TokensAreClean(Page(g), {'\n'});
    InkOfWords(values);
    InkOfWords(Texts(g));
    forall p | Packing(p, tokens, maxc) ensures |Texts(g)| <= |p| {
      GreedyIsOptimal(tokens, maxc, p);
    }
  }

  /** split: stringlist_concat on every string given. */
  method Gather(values: seq<string>) returns (tokens: seq<string>)
    ensures tokens == Words(values)
    ensures forall i :: 0 <= i < |tokens| ==> tokens[i] != ""
  {
    tokens := [];
    for i := 0 to |values|
      invariant tokens == Words(values[..i])
    {
      assert values[..i + 1] == values[..i] + [values[i]];
      WordsSnoc(values[..i], values[i]);
      tokens := Split(tokens, values[i], BLANKS);
    }
    assert values[..|values|] == values;
    WordsAreClean(values);
  }

  /**
   * Util_cut: every word kept, in order, on the fewest lines that can hold them. The bounds are the numbers
   * given; without one a line has at most 72 columns, and there are at most sizeMax lines.
   */
  method UtilCut(values: seq<string>, columns: Argument, count: Argument, sizeMax: nat) returns (r: Outcome)
    requires sizeMax > 0
    ensures r.NotPositive? <==> (columns.Number? && columns.n <= 0) || (count.Number? && count.n <= 0)
    ensures forall c: nat, l: nat :: Bound(columns, 72, c) && Bound(count, sizeMax, l) && !r.NotPositive? ==>
      (r.Cut? <==> Packable(Words(values), c, l)) && (r.Cut? ==> CutsTo(r.lines, values, c, l)) &&
      (r.NotPacked? ==> Answers(r.why, Words(values), c, l))
    ensures r.Cut? && columns.Number? ==> forall i :: 0 <= i < |r.lines| ==> |r.lines[i]| <= columns.n
    ensures r.Cut? && columns.Absent? ==> forall i :: 0 <= i < |r.lines| ==> |r.lines[i]| <= 72
    ensures r.Cut? && count.Number? ==> |r.lines| <= count.n
  {
    var maxc, maxl := Limit(columns, MAXC), Limit(count, sizeMax);
    if maxc <= 0 || maxl <= 0 {
      return NotPositive;
    }
    var tokens := Gather(values);
    var joined := JoinTokens(maxc, maxl, tokens);
    if !joined.Lines? {
      return NotPacked(joined);
    }
    var lines := Split([], joined.out, {'\n'});
    assert lines == Tokens(joined.out, {'\n'});
    GreedyCuts(values, maxc, maxl);
    r := Cut(lines);
    assert CutsTo(r.lines, values, maxc, maxl);
  }
}
