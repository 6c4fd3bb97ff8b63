/**
 * The UTF-8 codec of irccd/unicode.c (the encoding of section 3 of RFC 3629): what decoding makes of
 * what was encoded, for single points and for whole arrays, and when the conversions succeed.
 */
module Utf {
  import opened Options

  type Byte = bv8
  type Point = bv32

  // ---- single points

  function Uni32Sizeof(c: Point): (n: Option<nat>)
    ensures n.Some? ==> 1 <= n.value <= 4
    ensures n.None? <==> c > 0x1FFFFF
  {
    if c <= 0x7F then Some(1) else if c <= 0x7FF then Some(2) else if c <= 0xFFFF then Some(3)
    else if c <= 0x1FFFFF then Some(4) else None
  }

  function Uni8Sizeof(c: Byte): (n: Option<nat>)
    ensures n.Some? ==> 1 <= n.value <= 4
  {
    if c <= 127 then Some(1) else if c & 0xE0 == 0xC0 then Some(2) else if c & 0xF0 == 0xE0 then Some(3)
    else if c & 0xF8 == 0xF0 then Some(4) else None
  }

  predicate Encodable(p: Point) {
    p <= 0x1FFFFF
  }

  // The first bytes of two, three and four, and the byte of any six bits that follow.

  function Lead2(p: Point): Byte {
    0xC0 | (((p >> 6) & 0x1F) as Byte)
  }

  function Lead3(p: Point): Byte {
    0xE0 | (((p >> 12) & 0xF) as Byte)
  }

  function Lead4(p: Point): Byte {
    0xF0 | (((p >> 18) & 0x7) as Byte)
  }

  function Tail(p: Point): Byte {
    0x80 | ((p & 0x3F) as Byte)
  }

  /** The bytes uni8_encode writes for a point it has a size for. */
  function Encode(p: Point): (bytes: seq<Byte>)
    requires Encodable(p)
    ensures |bytes| == Uni32Sizeof(p).value
  {
    if p <= 0x7F then [p as Byte]
    else if p <= 0x7FF then [Lead2(p), Tail(p)]
    else if p <= 0xFFFF then [Lead3(p), Tail(p >> 6), Tail(p)]
    else [Lead4(p), Tail(p >> 12), Tail(p >> 6), Tail(p)]
  }

  // The points of one to four bytes.

  function Point1(a: Byte): Point {
    a as Point
  }

  function Point2(a: Byte, b: Byte): Point {
    (((a & 0x1F) as Point) << 6) | ((b & 0x3F) as Point)
  }

  function Point3(a: Byte, b: Byte, c: Byte): Point {
    (((a & 0x0F) as Point) << 12) | (((b & 0x3F) as Point) << 6) | ((c & 0x3F) as Point)
  }

  function Point4(a: Byte, b: Byte, c: Byte, d: Byte): Point {
    (((a & 0x07) as Point) << 16) | (((b & 0x3F) as Point) << 12) | (((c & 0x3F) as Point) << 6) | ((d & 0x3F) as Point)
  }

  /** What uni8_decode reads at the start of a string: the point and how many bytes it took. */
  function Decode(s: seq<Byte>): (r: Option<(Point, nat)>)
    requires s != []
    ensures r.Some? ==> 1 <= r.value.1 <= |s|
  {
    match Uni8Sizeof(s[0])
    case None => None
    case Some(n) =>
      if |s| < n then None
      else if n == 1 then Some((Point1(s[0]), 1))
      else if n == 2 then Some((Point2(s[0], s[1]), 2))
      else if n == 3 then Some((Point3(s[0], s[1], s[2]), 3))
      else Some((Point4(s[0], s[1], s[2], s[3]), 4))
  }

  /**
   * The point that decoding makes of an encoded one: three bits are encoded from bit 18 on and decoded
   * to bit 16 on, so that the point comes back exactly below 0x40000.
   */
  function Folded(p: Point): (r: Point)
    ensures Encodable(p) ==> (r == p <==> p < 0x40000)
  {
    if p <= 0xFFFF then p else (((p >> 18) & 0x7) << 16) | (p & 0x3FFFF)
  }

  lemma OneByte(p: Point)
    requires p <= 0x7F
    ensures Uni8Sizeof(p as Byte) == Some(1) && Point1(p as Byte) == p && (p != 0 ==> p as Byte != 0)
  {
  }

  lemma TwoBytes(p: Point)
    requires p <= 0x7FF
    ensures Uni8Sizeof(Lead2(p)) == Some(2) && Lead2(p) != 0 && Tail(p) != 0
    ensures Point2(Lead2(p), Tail(p)) == p
  {
  }

  lemma ThreeBytes(p: Point)
    requires p <= 0xFFFF
    ensures Uni8Sizeof(Lead3(p)) == Some(3) && Lead3(p) != 0 && Tail(p >> 6) != 0 && Tail(p) != 0
    ensures Point3(Lead3(p), Tail(p >> 6), Tail(p)) == p
  {
  }

  lemma FourBytes(p: Point)
    requires p > 0xFFFF
    ensures Uni8Sizeof(Lead4(p)) == Some(4) && Lead4(p) != 0 && Tail(p >> 12) != 0 && Tail(p >> 6) != 0 && Tail(p) != 0
    ensures Point4(Lead4(p), Tail(p >> 12), Tail(p >> 6), Tail(p)) == Folded(p)
  {
  }

  /** Decoding what was encoded takes exactly its bytes, whatever follows, and folds the point. */
  lemma DecodeEncoded(p: Point, rest: seq<Byte>)
    requires Encodable(p)
    ensures Decode(Encode(p) + rest) == Some((Folded(p), |Encode(p)|))
    ensures p != 0 ==> forall i :: 0 <= i < |Encode(p)| ==> Encode(p)[i] != 0
  {
    if p <= 0x7F {
      OneByte(p);
    } else if p <= 0x7FF {
      TwoBytes(p);
    } else if p <= 0xFFFF {
      ThreeBytes(p);
    } else {
      FourBytes(p);
    }
  }

  // ---- the bytes, in plain arithmetic

  lemma ByteIsSmall(x: Point)
    requires x < 0x100
    ensures (x as Byte) as int == x as int
  {
  }

  lemma Marks(x: Byte)
    ensures x < 0x40 ==> (0x80 | x) as int == 0x80 + x as int
    ensures x < 0x20 ==> (0xC0 | x) as int == 0xC0 + x as int
    ensures x < 0x10 ==> (0xE0 | x) as int == 0xE0 + x as int
    ensures x < 0x08 ==> (0xF0 | x) as int == 0xF0 + x as int
  {
  }

  lemma MaskIsSmall(x: Point)
    ensures x & 0x3F < 0x40 && x & 0x1F < 0x20 && x & 0xF < 0x10 && x & 0x7 < 0x08
  {
  }

  lemma TailIs(p: Point)
    ensures Tail(p) as int == 0x80 + (p & 0x3F) as int && (p & 0x3F) as int < 0x40
  {
    MaskIsSmall(p);
    ByteIsSmall(p & 0x3F);
    Marks((p & 0x3F) as Byte);
  }

  lemma LeadsAre(p: Point)
    ensures Lead2(p) as int == 0xC0 + ((p >> 6) & 0x1F) as int && ((p >> 6) & 0x1F) as int < 0x20
    ensures Lead3(p) as int == 0xE0 + ((p >> 12) & 0xF) as int && ((p >> 12) & 0xF) as int < 0x10
    ensures Lead4(p) as int == 0xF0 + ((p >> 18) & 0x7) as int && ((p >> 18) & 0x7) as int < 0x08
  {
    MaskIsSmall(p >> 6);
    MaskIsSmall(p >> 12);
    MaskIsSmall(p >> 18);
    ByteIsSmall((p >> 6) & 0x1F);
    ByteIsSmall((p >> 12) & 0xF);
    ByteIsSmall((p >> 18) & 0x7);
    Marks(((p >> 6) & 0x1F) as Byte);
    Marks(((p >> 12) & 0xF) as Byte);
    Marks(((p >> 18) & 0x7) as Byte);
  }

  /** The last six bits and the rest. */
  lemma SplitSix(x: Point)
    requires x <= 0xFFFF
    ensures x as int == (x >> 6) as int * 64 + (x & 0x3F) as int
  {
  }

  lemma SplitTwelve(x: Point)
    requires x <= 0x1FFFFF
    ensures x as int == (x >> 12) as int * 4096 + (x & 0xFFF) as int
  {
  }

  lemma TwoDigits(p: Point)
    requires p <= 0x7FF
    ensures p as int == ((p >> 6) & 0x1F) as int * 64 + (p & 0x3F) as int
  {
    SplitSix(p);
    assert (p >> 6) & 0x1F == p >> 6;
  }

  lemma ThreeDigits(p: Point)
    requires p <= 0xFFFF
    ensures p as int == (((p >> 12) & 0xF) as int * 64 + ((p >> 6) & 0x3F) as int) * 64 + (p & 0x3F) as int
  {
    SplitSix(p);
    SplitSix(p >> 6);
    assert (p >> 6) >> 6 == (p >> 12) & 0xF;
  }

  lemma HighDigits(p: Point)
    requires p <= 0x1FFFFF
    ensures (p >> 12) as int == ((p >> 18) & 0x7) as int * 64 + ((p >> 12) & 0x3F) as int
  {
    assert p >> 12 <= 0x1FF && (p >> 12) >> 6 == (p >> 18) & 0x7;
    SplitSix(p >> 12);
  }

  lemma LowDigits(p: Point)
    ensures (p & 0xFFF) as int == ((p >> 6) & 0x3F) as int * 64 + (p & 0x3F) as int
  {
    assert p & 0xFFF <= 0xFFF && (p & 0xFFF) >> 6 == (p >> 6) & 0x3F && (p & 0xFFF) & 0x3F == p & 0x3F;
    SplitSix(p & 0xFFF);
  }

  /** What the first byte of a sequence of so many bytes adds to the leading digit. */
  function Marker(n: nat): int {
    if n == 2 then 0xC0 else if n == 3 then 0xE0 else 0xF0
  }

  /** A number continued in base 64 by the digits of bytes from 0x80 on. */
  function Continued(first: int, bytes: seq<int>): int
    decreases |bytes|
  {
    if bytes == [] then first else Continued(first * 64 + (bytes[0] - 0x80), bytes[1..])
  }

  /** Every byte is a continuation: 0x80 plus a digit below 64. */
  ghost predicate Continuations(bytes: seq<int>) {
    forall i :: 0 <= i < |bytes| ==> 0x80 <= bytes[i] < 0x80 + 64
  }

  /** The least number that takes so many bytes. */
  function Least(n: nat): int {
    if n == 2 then 0x80 else if n == 3 then 0x800 else 0x10000
  }

  /** The shape of section 3 of RFC 3629: the digits, most significant first, are those of x in base 64. */
  ghost predicate Spells(b: seq<int>, x: int) {
    if |b| == 1 then b[0] == x < 0x80
    else
      2 <= |b| <= 4 && x >= Least(|b|) && Marker(|b|) <= b[0] < Marker(|b|) + (if |b| == 2 then 32 else if |b| == 3 then 16 else 8) &&
      Continuations(b[1..]) && Continued(b[0] - Marker(|b|), b[1..]) == x
  }

  function Numbers(bytes: seq<Byte>): (r: seq<int>)
    ensures |r| == |bytes|
  {
    seq(|bytes|, i requires 0 <= i < |bytes| => bytes[i] as int)
  }

  lemma SameNumbers(bytes: seq<Byte>, numbers: seq<int>)
    requires |bytes| == |numbers| && forall i :: 0 <= i < |bytes| ==> bytes[i] as int == numbers[i]
    ensures Numbers(bytes) == numbers
  {
  }

  lemma ContinuedOne(first: int, d: int)
    ensures Continued(first, [0x80 + d]) == first * 64 + d
  {
    assert Continued(first, [0x80 + d]) == Continued(first * 64 + d, []);
  }

  lemma ContinuedMore(first: int, d: int, rest: seq<int>)
    ensures Continued(first, [0x80 + d] + rest) == Continued(first * 64 + d, rest)
  {
    assert ([0x80 + d] + rest)[1..] == rest;
  }

  // The digits a, b, c, d of two to four bytes.

  lemma Spell2(a: nat, b: nat)
    requires a < 32 && b < 64 && a * 64 + b >= 0x80
    ensures Spells([0xC0 + a, 0x80 + b], a * 64 + b)
  {
    ContinuedOne(a, b);
    assert [0xC0 + a, 0x80 + b][1..] == [0x80 + b];
  }

  lemma Spell3(a: nat, b: nat, c: nat)
    requires a < 16 && b < 64 && c < 64 && (a * 64 + b) * 64 + c >= 0x800
    ensures Spells([0xE0 + a, 0x80 + b, 0x80 + c], (a * 64 + b) * 64 + c)
  {
    ContinuedMore(a, b, [0x80 + c]);
    ContinuedOne(a * 64 + b, c);
    assert [0xE0 + a, 0x80 + b, 0x80 + c][1..] == [0x80 + b] + [0x80 + c];
  }

  lemma Spell4(a: nat, b: nat, c: nat, d: nat)
    requires a < 8 && b < 64 && c < 64 && d < 64 && ((a * 64 + b) * 64 + c) * 64 + d >= 0x10000
    ensures Spells([0xF0 + a, 0x80 + b, 0x80 + c, 0x80 + d], ((a * 64 + b) * 64 + c) * 64 + d)
  {
    ContinuedMore(a, b, [0x80 + c] + [0x80 + d]);
    ContinuedMore(a * 64 + b, c, [0x80 + d]);
    ContinuedOne((a * 64 + b) * 64 + c, d);
    assert [0xF0 + a, 0x80 + b, 0x80 + c, 0x80 + d][1..] == [0x80 + b] + ([0x80 + c] + [0x80 + d]);
  }

  lemma OneSpells(p: Point)
    requires p <= 0x7F
    ensures Spells(Numbers([p as Byte]), p as int)
  {
    ByteIsSmall(p);
  }

  lemma TwoOf(p: Point) returns (a: nat, b: nat)
    requires p <= 0x7FF
    ensures a < 32 && b < 64 && p as int == a * 64 + b
    ensures Lead2(p) as int == 0xC0 + a && Tail(p) as int == 0x80 + b
  {
    LeadsAre(p);
    TailIs(p);
    TwoDigits(p);
    a, b := ((p >> 6) & 0x1F) as int, (p & 0x3F) as int;
  }

  lemma ThreeOf(p: Point) returns (a: nat, b: nat, c: nat)
    requires p <= 0xFFFF
    ensures a < 16 && b < 64 && c < 64 && p as int == (a * 64 + b) * 64 + c
    ensures Lead3(p) as int == 0xE0 + a && Tail(p >> 6) as int == 0x80 + b && Tail(p) as int == 0x80 + c
  {
    LeadsAre(p);
    TailIs(p >> 6);
    TailIs(p);
    ThreeDigits(p);
    a, b, c := ((p >> 12) & 0xF) as int, ((p >> 6) & 0x3F) as int, (p & 0x3F) as int;
  }

  lemma HighOf(p: Point) returns (a: nat, b: nat)
    requires p <= 0x1FFFFF
    ensures a < 8 && b < 64 && (p >> 12) as int == a * 64 + b
    ensures Lead4(p) as int == 0xF0 + a && Tail(p >> 12) as int == 0x80 + b
  {
    LeadsAre(p);
    TailIs(p >> 12);
    HighDigits(p);
    a, b := ((p >> 18) & 0x7) as int, ((p >> 12) & 0x3F) as int;
  }

  lemma LowOf(p: Point) returns (c: nat, d: nat)
    ensures c < 64 && d < 64 && (p & 0xFFF) as int == c * 64 + d
    ensures Tail(p >> 6) as int == 0x80 + c && Tail(p) as int == 0x80 + d
  {
    TailIs(p >> 6);
    TailIs(p);
    LowDigits(p);
    c, d := ((p >> 6) & 0x3F) as int, (p & 0x3F) as int;
  }

  lemma FourOf(p: Point) returns (a: nat, b: nat, c: nat, d: nat)
    requires p <= 0x1FFFFF
    ensures a < 8 && b < 64 && c < 64 && d < 64 && p as int == ((a * 64 + b) * 64 + c) * 64 + d
    ensures Lead4(p) as int == 0xF0 + a && Tail(p >> 12) as int == 0x80 + b
    ensures Tail(p >> 6) as int == 0x80 + c && Tail(p) as int == 0x80 + d
  {
    a, b := HighOf(p);
    c, d := LowOf(p);
    SplitTwelve(p);
    Joined((p >> 12) as int, (p & 0xFFF) as int, a, b, c, d);
  }

  lemma Joined(high: int, low: int, a: int, b: int, c: int, d: int)
    requires high == a * 64 + b && low == c * 64 + d
    ensures high * 4096 + low == ((a * 64 + b) * 64 + c) * 64 + d
  {
  }

  // The same for bytes.

  lemma Bytes2(l: Byte, t: Byte, a: nat, b: nat, x: int)
    requires a < 32 && b < 64 && l as int == 0xC0 + a && t as int == 0x80 + b && x == a * 64 + b >= 0x80
    ensures Spells(Numbers([l, t]), x)
  {
    Spell2(a, b);
    SameNumbers([l, t], [0xC0 + a, 0x80 + b]);
  }

  lemma Bytes3(l: Byte, t: Byte, u: Byte, a: nat, b: nat, c: nat, x: int)
    requires a < 16 && b < 64 && c < 64 && l as int == 0xE0 + a && t as int == 0x80 + b && u as int == 0x80 + c
    requires x == (a * 64 + b) * 64 + c >= 0x800
    ensures Spells(Numbers([l, t, u]), x)
  {
    Spell3(a, b, c);
    SameNumbers([l, t, u], [0xE0 + a, 0x80 + b, 0x80 + c]);
  }

  lemma Bytes4(l: Byte, t: Byte, u: Byte, v: Byte, a: nat, b: nat, c: nat, d: nat, x: int)
    requires a < 8 && b < 64 && c < 64 && d < 64
    requires l as int == 0xF0 + a && t as int == 0x80 + b && u as int == 0x80 + c && v as int == 0x80 + d
    requires x == ((a * 64 + b) * 64 + c) * 64 + d >= 0x10000
    ensures Spells(Numbers([l, t, u, v]), x)
  {
    Spell4(a, b, c, d);
    SameNumbers([l, t, u, v], [0xF0 + a, 0x80 + b, 0x80 + c, 0x80 + d]);
  }

  lemma AtLeast(p: Point)
    ensures p > 0x7F ==> p as int >= 0x80
    ensures p > 0x7FF ==> p as int >= 0x800
    ensures p > 0xFFFF ==> p as int >= 0x10000
  {
  }

  lemma TwoSpell(p: Point)
    requires 0x7F < p <= 0x7FF
    ensures Spells(Numbers([Lead2(p), Tail(p)]), p as int)
  {
    var a, b := TwoOf(p);
    AtLeast(p);
    Bytes2(Lead2(p), Tail(p), a, b, p as int);
  }

  lemma ThreeSpell(p: Point)
    requires 0x7FF < p <= 0xFFFF
    ensures Spells(Numbers([Lead3(p), Tail(p >> 6), Tail(p)]), p as int)
  {
    var a, b, c := ThreeOf(p);
    AtLeast(p);
    Bytes3(Lead3(p), Tail(p >> 6), Tail(p), a, b, c, p as int);
  }

  lemma FourSpell(p: Point)
    requires 0xFFFF < p <= 0x1FFFFF
    ensures Spells(Numbers([Lead4(p), Tail(p >> 12), Tail(p >> 6), Tail(p)]), p as int)
  {
    var a, b, c, d := FourOf(p);
    AtLeast(p);
    Bytes4(Lead4(p), Tail(p >> 12), Tail(p >> 6), Tail(p), a, b, c, d, p as int);
  }

  /** The bytes written spell the point. */
  lemma EncodeSpells(p: Point)
    requires Encodable(p)
    ensures Spells(Numbers(Encode(p)), p as int)
  {
    if p <= 0x7F {
      OneSpells(p);
    } else if p <= 0x7FF {
      TwoSpell(p);
    } else if p <= 0xFFFF {
      ThreeSpell(p);
    } else {
      FourSpell(p);
    }
  }

  // What decoding reads, whatever the bytes.

  /** The first byte tells the length, or that no sequence starts with it. */
  lemma LengthByLead(c: Byte)
    ensures Uni8Sizeof(c) == Some(1) <==> c as int < 0x80
    ensures Uni8Sizeof(c) == Some(2) <==> 0xC0 <= c as int < 0xE0
    ensures Uni8Sizeof(c) == Some(3) <==> 0xE0 <= c as int < 0xF0
    ensures Uni8Sizeof(c) == Some(4) <==> 0xF0 <= c as int < 0xF8
  {
  }

  // The digits of the point that is read: the low bits of the bytes, whatever their marks.

  lemma PointOfTwo(a: Byte, b: Byte)
    ensures var p := Point2(a, b); p >> 6 == (a & 0x1F) as Point && p & 0x3F == (b & 0x3F) as Point
  {
  }

  lemma PointOfThree(a: Byte, b: Byte, c: Byte)
    ensures var p := Point3(a, b, c);
      p >> 12 == (a & 0x0F) as Point && (p >> 6) & 0x3F == (b & 0x3F) as Point && p & 0x3F == (c & 0x3F) as Point
  {
  }

  /** Of four bytes the first is laid two bits too low, over the second. */
  lemma PointOfFour(a: Byte, b: Byte, c: Byte, d: Byte)
    ensures var p := Point4(a, b, c, d);
      p >> 12 == (((a & 0x07) as Point) << 4) | ((b & 0x3F) as Point) &&
      (p >> 6) & 0x3F == (c & 0x3F) as Point && p & 0x3F == (d & 0x3F) as Point
  {
  }

  // ---- whole strings

  ghost predicate AllEncodable(ps: seq<Point>) {
    forall i :: 0 <= i < |ps| ==> Encodable(ps[i])
  }

  ghost predicate ZeroFree<T(0)>(s: seq<T>, zero: T) {
    forall i :: 0 <= i < |s| ==> s[i] != zero
  }

  ghost function EncodeAll(ps: seq<Point>): seq<Byte>
    requires AllEncodable(ps)
  {
    if ps == [] then [] else Encode(ps[0]) + EncodeAll(ps[1..])
  }

  function DecodeAll(s: seq<Byte>): Option<seq<Point>>
    decreases |s|
  {
    if s == [] then Some([]) else
      match Decode(s)
      case None => None
      case Some((p, n)) => Prepend([p], DecodeAll(s[n..]))
  }

  /** How many points are decoded before the end or a sequence that cannot be. */
  function Decodable(s: seq<Byte>): nat
    decreases |s|
  {
    if s == [] || Decode(s).None? then 0 else 1 + Decodable(s[Decode(s).value.1..])
  }

  function Prepend(ps: seq<Point>, r: Option<seq<Point>>): Option<seq<Point>> {
    match r
    case None => None
    case Some(qs) => Some(ps + qs)
  }

  function FoldAll(ps: seq<Point>): (r: seq<Point>)
    ensures |r| == |ps|
  {
    seq(|ps|, i requires 0 <= i < |ps| => Folded(ps[i]))
  }

  lemma {:induction false} EncodeAllSnoc(ps: seq<Point>, p: Point)
    requires AllEncodable(ps) && Encodable(p)
    ensures EncodeAll(ps + [p]) == EncodeAll(ps) + Encode(p)
  {
    if ps == [] {
      assert ps + [p] == [p];
    } else {
      assert (ps + [p])[1..] == ps[1..] + [p];
      EncodeAllSnoc(ps[1..], p);
    }
  }

  /** A longer string takes at least as many bytes. */
  lemma {:induction false} EncodeAllGrows(ps: seq<Point>, k: nat)
    requires AllEncodable(ps) && k <= |ps|
    ensures |EncodeAll(ps[..k])| <= |EncodeAll(ps)|
  {
    if k > 0 {
      assert ps[..k][1..] == ps[1..][..k - 1];
      EncodeAllGrows(ps[1..], k - 1);
    }
  }

  /** A whole string comes back with its points folded, and is NUL-free on the way. */
  lemma {:induction false} DecodeEncodedAll(ps: seq<Point>)
    requires AllEncodable(ps) && ZeroFree(ps, 0)
    ensures ZeroFree(EncodeAll(ps), 0) && DecodeAll(EncodeAll(ps)) == Some(FoldAll(ps))
  {
    if ps != [] {
      var rest := EncodeAll(ps[1..]);
      DecodeEncodedAll(ps[1..]);
      DecodeEncoded(ps[0], rest);
      assert EncodeAll(ps)[|Encode(ps[0])|..] == rest;
      assert FoldAll(ps) == [Folded(ps[0])] + FoldAll(ps[1..]);
    }
  }

  predicate Low(p: Point) {
    p < 0x40000
  }

  lemma {:induction false} FoldAllIffLow(ps: seq<Point>)
    requires AllEncodable(ps)
    ensures FoldAll(ps) == ps <==> forall i :: 0 <= i < |ps| ==> Low(ps[i])
  {
    if ps != [] {
      var p, rest := ps[0], ps[1..];
      FoldAllIffLow(rest);
      assert FoldAll(ps) == [Folded(p)] + FoldAll(rest) && ps == [p] + rest;
      assert FoldAll(ps) == ps <==> Folded(p) == p && FoldAll(rest) == rest by {
        assert FoldAll(ps)[1..] == FoldAll(rest) && FoldAll(ps)[0] == Folded(p);
      }
      assert (forall i :: 0 <= i < |ps| ==> Low(ps[i])) <==> Low(p) && forall i :: 0 <= i < |rest| ==> Low(rest[i]);
    }
  }

  /** The round trip is the identity exactly on the strings of points below 0x40000. */
  lemma RoundTripIffLow(ps: seq<Point>)
    requires AllEncodable(ps) && ZeroFree(ps, 0)
    ensures DecodeAll(EncodeAll(ps)) == Some(ps) <==> forall i :: 0 <= i < |ps| ==> Low(ps[i])
  {
    DecodeEncodedAll(ps);
    FoldAllIffLow(ps);
  }

  // ---- the conversions

  datatype Errno = ERange | EIlSeq

  datatype Result<T> = Ok(value: T) | Err(errno: Errno)

  /** A C string of n elements before the one that ends it. */
  ghost predicate Ended<T(0)>(s: seq<T>, n: nat, zero: T) {
    n < |s| && s[n] == zero && ZeroFree(s[..n], zero)
  }

  lemma EndsOnce<T(0)>(s: seq<T>, n: nat, i: nat, zero: T)
    requires Ended(s, n, zero) && i <= n
    ensures s[i] == zero <==> i == n
  {
    if i < n {
      assert s[..n][i] == s[i];
    }
  }

  /** The switch of uni8_encode. */
  method Write(dst: array<Byte>, at: nat, point: Point, size: nat)
    requires Encodable(point) && size == |Encode(point)| && at + size <= dst.Length
    modifies dst
    ensures dst[at..at + size] == Encode(point)
    ensures dst[..at] == old(dst[..at]) && dst[at + size..] == old(dst[at + size..])
  {
    match size {
      case 1 =>
        dst[at] := point as Byte;
      case 2 =>
        dst[at] := Lead2(point);
        dst[at + 1] := Tail(point);
      case 3 =>
        dst[at] := Lead3(point);
        dst[at + 1] := Tail(point >> 6);
        dst[at + 2] := Tail(point);
      case _ =>
        dst[at] := Lead4(point);
        dst[at + 1] := Tail(point >> 12);
        dst[at + 2] := Tail(point >> 6);
        dst[at + 3] := Tail(point);
    }
  }

  method Uni8Encode(dst: array<Byte>, at: nat, dstsz: nat, point: Point) returns (r: Result<nat>)
    requires at + dstsz <= dst.Length
    modifies dst
    ensures r == Err(EIlSeq) <==> !Encodable(point)
    ensures r == Err(ERange) <==> Encodable(point) && dstsz < |Encode(point)|
    ensures r.Err? ==> dst[..] == old(dst[..])
    ensures r.Ok? ==> r.value == |Encode(point)| && dst[at..at + r.value] == Encode(point)
    ensures r.Ok? ==> Spells(Numbers(dst[at..at + r.value]), point as int)
    ensures r.Ok? ==> dst[..at] == old(dst[..at]) && dst[at + r.value..] == old(dst[at + r.value..])
  {
    var written := Uni32Sizeof(point);
    if written.None? {
      return Err(EIlSeq);
    }
    if dstsz < written.value {
      return Err(ERange);
    }
    Write(dst, at, point, written.value);
    EncodeSpells(point);
    r := Ok(written.value);
  }

  /** uni8_decode never looks past the NUL: a sequence it cuts short is EILSEQ. */
  method Uni8Decode(src: seq<Byte>, at: nat, ghost n: nat) returns (r: Result<(Point, nat)>)
    requires Ended(src, n, 0) && at < n
    ensures r == match Decode(src[at..n]) case None => Err(EIlSeq) case Some(v) => Ok(v)
  {
    var parsed := Uni8Sizeof(src[at]);
    ghost var s := src[at..n];
    assert forall i :: at <= i < n ==> src[i] == src[..n][i] != 0;
    if parsed.None? {
      return Err(EIlSeq);
    }
    match parsed.value {
      case 1 =>
        r := Ok((Point1(src[at]), 1));
      case 2 =>
        if src[at + 1] == 0 {
          return Err(EIlSeq);
        }
        r := Ok((Point2(src[at], src[at + 1]), 2));
      case 3 =>
        if src[at + 1] == 0 || src[at + 2] == 0 {
          return Err(EIlSeq);
        }
        r := Ok((Point3(src[at], src[at + 1], src[at + 2]), 3));
      case _ =>
        if src[at + 1] == 0 || src[at + 2] == 0 || src[at + 3] == 0 {
          return Err(EIlSeq);
        }
        r := Ok((Point4(src[at], src[at + 1], src[at + 2], src[at + 3]), 4));
    }
  }

  /** The first k points of a string can be encoded, and the point after them cannot. */
  ghost predicate StopsAt(text: seq<Point>, k: nat) {
    k < |text| && AllEncodable(text[..k]) && !Encodable(text[k])
  }

  /** The point that cannot be encoded comes before the room is used up. */
  ghost predicate StopsWithin(text: seq<Point>, size: nat) {
    exists k: nat :: StopsAt(text, k) && |EncodeAll(text[..k])| < size
  }

  lemma FullBeforeStop(text: seq<Point>, i: nat, size: nat)
    requires i <= |text| && AllEncodable(text[..i]) && |EncodeAll(text[..i])| >= size
    ensures !StopsWithin(text, size) && (AllEncodable(text) ==> |EncodeAll(text)| >= size)
  {
    forall k: nat | StopsAt(text, k) ensures |EncodeAll(text[..k])| >= size {
      assert text[..k][..i] == text[..i];
      EncodeAllGrows(text[..k], i);
    }
    if AllEncodable(text) {
      EncodeAllGrows(text, i);
    }
  }

  /** What the loop of uni32_to8 has done: k points written, room bytes left. */
  ghost predicate Underway(text: seq<Point>, k: nat, bytes: seq<Byte>, at: nat, room: nat, size: nat) {
    k <= |text| && AllEncodable(text[..k]) && at + room == size <= |bytes| && bytes[..at] == EncodeAll(text[..k])
  }

  /** The bytes of one more point. */
  lemma UnderwayNext(text: seq<Point>, k: nat, was: seq<Byte>, now: seq<Byte>, at: nat, room: nat, size: nat, gap: nat)
    requires Underway(text, k, was, at, room, size) && k < |text| && Encodable(text[k])
    requires gap == |Encode(text[k])| <= room && |now| == |was|
    requires now[..at] == was[..at] && now[at..at + gap] == Encode(text[k])
    ensures Underway(text, k + 1, now, at + gap, room - gap, size)
  {
    assert text[..k + 1] == text[..k] + [text[k]];
    EncodeAllSnoc(text[..k], text[k]);
    assert now[..at + gap] == now[..at] + now[at..at + gap];
  }

  lemma SameBehind(was: seq<Byte>, now: seq<Byte>, from: nat, to: nat)
    requires |was| == |now| && from <= to <= |was| && was[from..] == now[from..]
    ensures was[to..] == now[to..]
  {
    assert was[from..][to - from..] == was[to..] && now[from..][to - from..] == now[to..];
  }

  /** One round of uni32_to8. */
  method EncodeNext(dst: array<Byte>, at: nat, room: nat, point: Point, ghost text: seq<Point>, ghost k: nat)
    returns (gap: Result<nat>)
    requires Underway(text, k, dst[..], at, room, at + room) && k < |text| && text[k] == point
    modifies dst
    ensures gap == Err(EIlSeq) <==> !Encodable(point)
    ensures gap == Err(ERange) ==> AllEncodable(text[..k + 1]) && |EncodeAll(text[..k + 1])| > at + room
    ensures gap.Ok? ==> gap.value <= room && Underway(text, k + 1, dst[..], at + gap.value, room - gap.value, at + room)
    ensures dst[at + room..] == old(dst[at + room..])
  {
    ghost var was := dst[..];
    gap := Uni8Encode(dst, at, room, point);
    if gap.Ok? {
      UnderwayNext(text, k, was, dst[..], at, room, at + room, gap.value);
      SameBehind(was, dst[..], at + gap.value, at + room);
    } else if gap.errno == ERange {
      FullAt(text, k, was, at, room);
    }
  }

  lemma FullAt(text: seq<Point>, k: nat, was: seq<Byte>, at: nat, room: nat)
    requires Underway(text, k, was, at, room, at + room) && k < |text|
    requires Encodable(text[k]) && |Encode(text[k])| > room
    ensures AllEncodable(text[..k + 1]) && |EncodeAll(text[..k + 1])| > at + room
  {
    assert text[..k + 1] == text[..k] + [text[k]];
    EncodeAllSnoc(text[..k], text[k]);
  }

  /** uni32_to8 succeeds exactly when every point has an encoding and the buffer has room for the NUL. */
  method Uni32To8(src: seq<Point>, dst: array<Byte>, dstsz: nat, ghost n: nat) returns (r: Result<nat>)
    requires Ended(src, n, 0) && dstsz <= dst.Length
    modifies dst
    ensures r.Ok? <==> AllEncodable(src[..n]) && |EncodeAll(src[..n])| < dstsz
    ensures r.Ok? ==> r.value == |EncodeAll(src[..n])| && dst[..r.value] == EncodeAll(src[..n]) && dst[r.value] == 0
    ensures r == Err(EIlSeq) <==> StopsWithin(src[..n], dstsz)
    ensures dst[dstsz..] == old(dst[dstsz..])
  {
    ghost var text := src[..n];
    var i: nat, at: nat, room: nat := 0, 0, dstsz;
    while src[i] != 0 && room > 0
      invariant i <= n && Underway(text, i, dst[..], at, room, dstsz)
      invariant dst[dstsz..] == old(dst[dstsz..])
      decreases n - i
    {
      EndsOnce(src, n, i, 0);
      var gap := EncodeNext(dst, at, room, src[i], text, i);
      if gap.Err? {
        if gap.errno == ERange {
          FullBeforeStop(text, i + 1, dstsz);
        } else {
          assert StopsAt(text, i);
        }
        return Err(gap.errno);
      }
      i, at, room := i + 1, at + gap.value, room - gap.value;
    }
    if room == 0 {
      FullBeforeStop(text, i, dstsz);
      return Err(ERange);
    }
    EndsOnce(src, n, i, 0);
    assert text[..n] == text;
    dst[at] := 0;
    r := Ok(at);
  }

  /** uni32_requires: the bytes a string takes, without its NUL, unless they could not be counted. */
  method Uni32Requires(src: seq<Point>, sizeMax: nat, ghost n: nat) returns (r: Result<nat>)
    requires Ended(src, n, 0) && sizeMax > 0
    ensures r.Ok? <==> AllEncodable(src[..n]) && |EncodeAll(src[..n])| < sizeMax
    ensures r.Ok? ==> r.value == |EncodeAll(src[..n])|
    ensures r == Err(EIlSeq) <==> StopsWithin(src[..n], sizeMax)
  {
    ghost var text := src[..n];
    var i, total := 0, 0;
    while src[i] != 0
      invariant i <= n && AllEncodable(text[..i]) && total == |EncodeAll(text[..i])| < sizeMax
      decreases n - i
    {
      EndsOnce(src, n, i, 0);
      var gap := Uni32Sizeof(src[i]);
      if gap.None? {
        assert StopsAt(text, i);
        return Err(EIlSeq);
      }
      assert text[..i + 1] == text[..i] + [text[i]];
      EncodeAllSnoc(text[..i], text[i]);
      if gap.value >= sizeMax - total {
        FullBeforeStop(text, i + 1, sizeMax);
        return Err(ERange);
      }
      total := total + gap.value;
      i := i + 1;
    }
    EndsOnce(src, n, i, 0);
    assert text[..n] == text;
    r := Ok(total);
  }

  lemma PrependTwice(a: seq<Point>, b: seq<Point>, r: Option<seq<Point>>)
    ensures Prepend(a, Prepend(b, r)) == Prepend(a + b, r)
  {
    if r.Some? {
      assert a + (b + r.value) == (a + b) + r.value;
    }
  }

  lemma PrependNothing(r: Option<seq<Point>>)
    ensures Prepend([], r) == r && (r.Some? ==> Prepend(r.value, Some([])) == r)
  {
    if r.Some? {
      assert [] + r.value == r.value && r.value + [] == r.value;
    }
  }

  /** The first bytes of s have been decoded to out. */
  ghost predicate Unpacked(s: seq<Byte>, at: nat, out: seq<Point>) {
    at <= |s| && DecodeAll(s) == Prepend(out, DecodeAll(s[at..])) && Decodable(s) == |out| + Decodable(s[at..])
  }

  lemma UnpackedStarts(s: seq<Byte>)
    ensures Unpacked(s, 0, [])
  {
    assert s[0..] == s;
    PrependNothing(DecodeAll(s));
  }

  lemma UnpackedNext(s: seq<Byte>, at: nat, out: seq<Point>, point: Point, len: nat)
    requires Unpacked(s, at, out) && at < |s| && Decode(s[at..]) == Some((point, len))
    ensures Unpacked(s, at + len, out + [point])
  {
    assert s[at..][len..] == s[at + len..];
    PrependTwice(out, [point], DecodeAll(s[at + len..]));
  }

  lemma UnpackedStops(s: seq<Byte>, at: nat, out: seq<Point>)
    requires Unpacked(s, at, out) && at < |s| && Decode(s[at..]).None?
    ensures DecodeAll(s).None? && Decodable(s) == |out|
  {
  }

  lemma UnpackedAll(s: seq<Byte>, out: seq<Point>)
    requires Unpacked(s, |s|, out)
    ensures DecodeAll(s) == Some(out)
  {
    PrependNothing(Some(out));
  }

  /** uni8_to32 succeeds exactly when all of the string decodes and the buffer has room for the NUL. */
  method Uni8To32(src: seq<Byte>, dst: array<Point>, dstsz: nat, ghost n: nat) returns (r: Result<nat>)
    requires Ended(src, n, 0) && dstsz <= dst.Length
    modifies dst
    ensures var all := DecodeAll(src[..n]); r.Ok? <==> all.Some? && |all.value| < dstsz
    ensures r.Ok? ==> r.value < dstsz && DecodeAll(src[..n]) == Some(dst[..r.value]) && dst[r.value] == 0
    ensures r == Err(EIlSeq) <==> DecodeAll(src[..n]).None? && Decodable(src[..n]) < dstsz
    ensures dst[dstsz..] == old(dst[dstsz..])
  {
    ghost var s := src[..n];
    var at: nat, nwritten: nat, room: nat := 0, 0, dstsz;
    UnpackedStarts(s);
    while src[at] != 0 && room > 0
      invariant at <= n && nwritten + room == dstsz && Unpacked(s, at, dst[..nwritten])
      invariant dst[dstsz..] == old(dst[dstsz..])
      decreases n - at
    {
      EndsOnce(src, n, at, 0);
      assert src[at..n] == s[at..];
      var gap := Uni8Decode(src, at, n);
      if gap.Err? {
        UnpackedStops(s, at, dst[..nwritten]);
        return Err(EIlSeq);
      }
      var (point, len) := gap.value;
      UnpackedNext(s, at, dst[..nwritten], point, len);
      dst[nwritten] := point;
      assert dst[..nwritten + 1] == dst[..nwritten] + [point];
      at, nwritten, room := at + len, nwritten + 1, room - 1;
    }
    if room == 0 {
      return Err(ERange);
    }
    EndsOnce(src, n, at, 0);
    UnpackedAll(s, dst[..nwritten]);
    dst[nwritten] := 0;
    r := Ok(nwritten);
  }

  /** There and back with enough room: the string itself when its points are below 0x40000. */
  method ThereAndBack(src: seq<Point>, sizeMax: nat, n: nat) returns (back: array<Point>)
    requires Ended(src, n, 0) && AllEncodable(src[..n]) && |EncodeAll(src[..n])| < sizeMax
    ensures back.Length == n + 1 && back[..n] == FoldAll(src[..n]) && back[n] == 0
    ensures back[..n] == src[..n] <==> forall i :: 0 <= i < n ==> Low(src[i])
  {
    ghost var text := src[..n];
    DecodeEncodedAll(text);
    FoldAllIffLow(text);
    var size := Uni32Requires(src, sizeMax, n);
    var bytes := new Byte[size.value + 1];
    var w := Uni32To8(src, bytes, size.value + 1, n);
    assert bytes[..][..size.value] == EncodeAll(text);
    back := new Point[n + 1];
    var m := Uni8To32(bytes[..], back, n + 1, size.value);
    assert forall i :: 0 <= i < n ==> src[i] == text[i];
  }
}
