/** strtok_r as a function: the tokens of a string, and how joining with a delimiter inverts it. */
module Strtok {
  type Delims = set<char>

  function Skip(s: string, delims: Delims): (r: string)
    ensures |r| <= |s| && (r != "" ==> r[0] !in delims)
  {
    if s != "" && s[0] in delims then Skip(s[1..], delims) else s
  }

  function Span(s: string, delims: Delims): (n: nat)
    ensures n <= |s| && (s != "" && s[0] !in delims ==> n > 0)
  {
    if s == "" || s[0] in delims then 0 else 1 + Span(s[1..], delims)
  }

  /** What repeated calls of strtok_r return. */
  function Tokens(s: string, delims: Delims): (tokens: seq<string>)
    decreases |s|
  {
    var t := Skip(s, delims);
    if t == "" then [] else
      var n := Span(t, delims);
      [t[..n]] + Tokens(t[n..], delims)
  }

  predicate Clean(w: string, delims: Delims) {
    w != "" && forall i :: 0 <= i < |w| ==> w[i] !in delims
  }

  lemma {:induction false} SpanOfWord(w: string, rest: string, delims: Delims)
    requires forall i :: 0 <= i < |w| ==> w[i] !in delims
    requires rest == "" || rest[0] in delims
    ensures Span(w + rest, delims) == |w|
  {
    if w == "" {
      assert w + rest == rest;
    } else {
      assert (w + rest)[1..] == w[1..] + rest;
      SpanOfWord(w[1..], rest, delims);
    }
  }

  lemma {:induction false} SpanIsClean(s: string, delims: Delims)
    ensures var n := Span(s, delims);
      (forall i :: 0 <= i < n ==> s[i] !in delims) && (n < |s| ==> s[n] in delims)
  {
    if s != "" && s[0] !in delims {
      SpanIsClean(s[1..], delims);
    }
  }

  lemma {:induction false} TokensAreClean(s: string, delims: Delims)
    ensures forall i :: 0 <= i < |Tokens(s, delims)| ==> Clean(Tokens(s, delims)[i], delims)
    decreases |s|
  {
    var t := Skip(s, delims);
    if t != "" {
      SpanIsClean(t, delims);
      TokensAreClean(t[Span(t, delims)..], delims);
    }
  }

  lemma DelimIsSkipped(d: char, rest: string, delims: Delims)
    requires d in delims
    ensures Tokens([d] + rest, delims) == Tokens(rest, delims)
  {
    assert ([d] + rest)[1..] == rest;
  }

  lemma TokensOfWord(w: string, rest: string, delims: Delims)
    requires Clean(w, delims) && (rest == "" || rest[0] in delims)
    ensures Tokens(w + rest, delims) == [w] + Tokens(rest, delims)
  {
    var s := w + rest;
    SpanOfWord(w, rest, delims);
    assert s[0] == w[0];
    assert Skip(s, delims) == s;
    assert s[..|w|] == w && s[|w|..] == rest;
  }

  /** A word in front of a delimiter, and whatever comes after. */
  lemma WordInFront(a: string, d: char, b: string, delims: Delims, n: nat)
    requires a != "" && a[0] !in delims && d in delims && n == Span(a, delims)
    ensures Tokens(a, delims) == [a[..n]] + Tokens(a[n..], delims)
    ensures Tokens(a + ([d] + b), delims) == [a[..n]] + Tokens(a[n..] + ([d] + b), delims)
  {
    SpanIsClean(a, delims);
    var w, rest := a[..n], a[n..];
    assert a == w + rest && a + ([d] + b) == w + (rest + ([d] + b));
    TokensOfWord(w, rest, delims);
    TokensOfWord(w, rest + ([d] + b), delims);
  }

  lemma DelimInFront(a: string, d: char, b: string, delims: Delims)
    requires a != "" && a[0] in delims
    ensures Tokens(a, delims) == Tokens(a[1..], delims)
    ensures Tokens(a + ([d] + b), delims) == Tokens(a[1..] + ([d] + b), delims)
  {
    assert a == [a[0]] + a[1..];
    assert a + ([d] + b) == [a[0]] + (a[1..] + ([d] + b));
    DelimIsSkipped(a[0], a[1..], delims);
    DelimIsSkipped(a[0], a[1..] + ([d] + b), delims);
  }

  /** A delimiter separates: the tokens on its two sides are found independently. */
  lemma {:induction false} TokensConcat(a: string, d: char, b: string, delims: Delims)
    requires d in delims
    ensures Tokens(a + ([d] + b), delims) == Tokens(a, delims) + Tokens(b, delims)
    decreases |a|
  {
    if a == "" {
      assert a + ([d] + b) == [d] + b;
      DelimIsSkipped(d, b, delims);
    } else if a[0] in delims {
      DelimInFront(a, d, b, delims);
      TokensConcat(a[1..], d, b, delims);
    } else {
      var n := Span(a, delims);
      WordInFront(a, d, b, delims, n);
      TokensConcat(a[n..], d, b, delims);
    }
  }

  /** The parts with a separator between them. */
  function Join(parts: seq<string>, sep: char): string {
    if parts == [] then "" else if |parts| == 1 then parts[0] else parts[0] + ([sep] + Join(parts[1..], sep))
  }

  lemma {:induction false} JoinSnoc(parts: seq<string>, sep: char, x: string)
    requires parts != []
    ensures Join(parts + [x], sep) == Join(parts, sep) + ([sep] + x)
  {
    assert (parts + [x])[1..] == parts[1..] + [x];
    if |parts| > 1 {
      JoinSnoc(parts[1..], sep, x);
    } else {
      assert parts[1..] + [x] == [x];
    }
  }

  /** Cutting at the separator inverts joining with it. */
  lemma {:induction false} TokensOfJoin(parts: seq<string>, sep: char, delims: Delims)
    requires sep in delims && forall i :: 0 <= i < |parts| ==> Clean(parts[i], delims)
    ensures Tokens(Join(parts, sep), delims) == parts
    decreases |parts|
  {
    if |parts| == 1 {
      TokensOfWord(parts[0], "", delims);
      assert parts[0] + "" == parts[0];
    } else if |parts| > 1 {
      TokensOfWord(parts[0], [sep] + Join(parts[1..], sep), delims);
      DelimIsSkipped(sep, Join(parts[1..], sep), delims);
      TokensOfJoin(parts[1..], sep, delims);
    }
  }

  /** One call of strtok_r: the next token, if there is one, and where the following call starts. */
  method Strtok(p: string, delims: Delims) returns (found: bool, token: string, rest: string)
    ensures found <==> Tokens(p, delims) != []
    ensures found ==> Tokens(p, delims) == [token] + Tokens(rest, delims) && |rest| < |p|
  {
    var t := Skip(p, delims);
    if t == "" {
      return false, "", "";
    }
    var n := Span(t, delims);
    SpanIsClean(t, delims);
    if n < |t| {
      DelimIsSkipped(t[n], t[n + 1..], delims);
      assert t[n..] == [t[n]] + t[n + 1..];
      return true, t[..n], t[n + 1..];
    }
    return true, t[..n], "";
  }

  /** The loop over strtok_r, appending each token to a list. */
  method Split(list: seq<string>, value: string, delims: Delims) returns (all: seq<string>)
    ensures all == list + Tokens(value, delims)
  {
    all := list;
    var found, token, rest := Strtok(value, delims);
    while found
      invariant all + (if found then [token] + Tokens(rest, delims) else []) == list + Tokens(value, delims)
      decreases found, |rest|
    {
      all := all + [token];
      found, token, rest := Strtok(rest, delims);
    }
  }
}
