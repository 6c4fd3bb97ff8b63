/**
 * The table lookups of irccd/unicode.c: a binary search over flat tables of sorted rows, and the
 * classifications and mappings built on it, which agree with a scan of the rows one by one.
 */
module UniTables {
  import opened Options

  type Uint32 = x: int | 0 <= x < 0x1_0000_0000

  /** A flat table of rows of ne cells; a row holds a range when it has a last point beside the first. */
  datatype Table = Table(cells: seq<Uint32>, rows: nat, ne: nat, ranged: bool)
  {
    predicate Shaped() {
      ne >= (if ranged then 2 else 1) && |cells| == rows * ne
    }

    function First(k: nat): Uint32
      requires Shaped() && k < rows
    {
      Inside(k);
      cells[k * ne]
    }

    function Last(k: nat): Uint32
      requires Shaped() && k < rows
    {
      Inside(k);
      if ranged then cells[k * ne + 1] else cells[k * ne]
    }

    lemma Distribute(i: nat, m: nat)
      ensures (i + m) * ne == i * ne + m * ne
    {
    }

    lemma Inside(k: nat)
      requires Shaped() && k < rows
      ensures 0 <= k * ne && k * ne + ne <= |cells|
    {
      Distribute(k, 1);
      Distribute(k + 1, rows - k - 1);
    }

    predicate Step(k: nat)
      requires Shaped() && k < rows
    {
      k + 1 < rows ==> First(k) <= Last(k) < First(k + 1)
    }

    ghost predicate Rising() {
      Shaped() && forall i, j :: 0 <= i < j < rows ==> First(i) < First(j)
    }

    /** Rows in increasing order that do not overlap. */
    ghost predicate Sorted() {
      Rising() && forall i, j :: 0 <= i < j < rows ==> Last(i) < First(j)
    }

    predicate Hit(k: nat, c: Uint32)
      requires Shaped() && k < rows
    {
      First(k) <= c <= Last(k)
    }

    /** The row a scan from row k onwards finds first. */
    function Scan(c: Uint32, k: nat): Option<nat>
      requires Shaped() && k <= rows
      decreases rows - k
    {
      if k == rows then None else if Hit(k, c) then Some(k) else Scan(c, k + 1)
    }

    /** A scan misses nothing, and the row it finds is the only one that could be found. */
    lemma {:induction false} ScanFinds(c: Uint32, k: nat)
      requires Sorted() && k <= rows
      ensures forall j :: k <= j < rows ==> (Hit(j, c) <==> Scan(c, k) == Some(j))
      ensures Scan(c, k).Some? ==> k <= Scan(c, k).value < rows
      decreases rows - k
    {
      if k < rows {
        ScanFinds(c, k + 1);
        if Hit(k, c) {
          assert forall j :: k < j < rows ==> c < First(j);
        }
      }
    }
  }

  /** Rows in order one after the other are in order altogether. */
  lemma StepsSort(table: Table)
    requires table.Shaped() && forall k :: 0 <= k < table.rows ==> table.Step(k)
    ensures table.Sorted()
  {
    forall i, j | 0 <= i < j < table.rows ensures table.First(i) <= table.Last(i) < table.First(j) {
      StepsTo(table, i, j);
    }
  }

  lemma {:induction false} StepsTo(table: Table, i: nat, j: nat)
    requires table.Shaped() && i < j < table.rows && forall k :: 0 <= k < table.rows ==> table.Step(k)
    ensures table.First(i) <= table.Last(i) < table.First(j)
    decreases j
  {
    assert table.Step(j - 1);
    if i + 1 < j {
      StepsTo(table, i, j - 1);
    }
  }

  lemma LastStart(c: Uint32, table: Table, row: nat)
    requires table.Rising() && row < table.rows && (row > 0 ==> table.First(row) <= c)
    requires row + 1 < table.rows ==> c < table.First(row + 1)
    ensures table.First(row) <= c ==> forall j :: 0 <= j < table.rows ==> (table.First(j) <= c <==> j <= row)
    ensures table.First(row) <= c <==> exists j :: 0 <= j < table.rows && table.First(j) <= c
  {
  }

  /** What the loop of search knows: no row before the n rows from row on, or after them, is the answer. */
  ghost predicate Within(c: Uint32, table: Table, row: nat, n: nat, t: nat) {
    table.Shaped() && row + n <= table.rows && t == row * table.ne && (table.rows > 0 ==> n > 0) &&
    (row + n < table.rows ==> c < table.First(row + n)) && (row > 0 ==> n > 0 && table.First(row) <= c)
  }

  method Halve(c: Uint32, table: Table, t0: nat, n0: nat, ghost row0: nat) returns (t: nat, n: nat, ghost row: nat)
    requires Within(c, table, row0, n0, t0) && n0 > 1
    ensures Within(c, table, row, n, t) && 0 < n < n0
  {
    var m := n0 / 2;
    var p := t0 + m * table.ne;
    table.Distribute(row0, m);
    table.Inside(row0 + m);
    if c >= table.cells[p] {
      t, n, row := p, n0 - m, row0 + m;
    } else {
      t, n, row := t0, m, row0;
    }
  }

  /** search: where the last row that starts at or before c begins, if there is such a row. */
  method Search(c: Uint32, table: Table) returns (found: bool, t: nat, ghost row: nat)
    requires table.Rising()
    ensures found <==> exists j :: 0 <= j < table.rows && table.First(j) <= c
    ensures found ==> row < table.rows && t == row * table.ne
    ensures found ==> forall j :: 0 <= j < table.rows ==> (table.First(j) <= c <==> j <= row)
  {
    t, row := 0, 0;
    var n := table.rows;
    while n > 1
      invariant Within(c, table, row, n, t)
    {
      t, n, row := Halve(c, table, t, n, row);
    }
    if n == 0 {
      return false, t, row;
    }
    table.Inside(row);
    found := c >= table.cells[t];
    LastStart(c, table, row);
  }

  /** The use made of search everywhere: c is looked for in the row found, and only there. */
  method Lookup(c: Uint32, table: Table) returns (hit: bool, t: nat)
    requires table.Sorted()
    ensures hit <==> table.Scan(c, 0).Some?
    ensures hit ==> t == table.Scan(c, 0).value * table.ne && table.Scan(c, 0).value < table.rows
  {
    var found;
    ghost var row;
    found, t, row := Search(c, table);
    table.ScanFinds(c, 0);
    hit := false;
    if found {
      table.Inside(row);
      assert table.cells[t] == table.First(row) <= c;
      var last := if table.ranged then table.cells[t + 1] else table.cells[t];
      hit := c <= last;
      assert hit <==> table.Hit(row, c);
    }
  }

  // ---- uni_is* and uni_to*

  predicate Listed(c: Uint32, table: Table)
    requires table.Shaped()
  {
    exists k :: 0 <= k < table.rows && table.Hit(k, c)
  }

  /** The shape of uni_isalpha and its siblings: the ranges first, then the points that stand alone. */
  method IsClass(c: Uint32, ranges: Table, singles: Table) returns (r: bool)
    requires ranges.Sorted() && singles.Sorted()
    ensures r <==> Listed(c, ranges) || Listed(c, singles)
  {
    ranges.ScanFinds(c, 0);
    singles.ScanFinds(c, 0);
    var t;
    r, t := Lookup(c, ranges);
    if r {
      return true;
    }
    r, t := Lookup(c, singles);
  }

  const SPACES: Table := Table(
    [0x0009, 0x000d, 0x0020, 0x0020, 0x0085, 0x0085, 0x00a0, 0x00a0, 0x1680, 0x1680, 0x2000, 0x200a,
     0x2028, 0x2029, 0x202f, 0x202f, 0x205f, 0x205f, 0x3000, 0x3000, 0xfeff, 0xfeff], 11, 2, true)

  predicate White(c: Uint32) {
    0x0009 <= c <= 0x000d || c == 0x0020 || c == 0x0085 || c == 0x00a0 || c == 0x1680 || 0x2000 <= c <= 0x200a ||
    c == 0x2028 || c == 0x2029 || c == 0x202f || c == 0x205f || c == 0x3000 || c == 0xfeff
  }

  predicate SpaceRow(k: nat, c: Uint32) {
    k < 11 && SPACES.cells[2 * k] <= c <= SPACES.cells[2 * k + 1]
  }

  lemma SpacesAreSorted()
    ensures SPACES.Sorted()
  {
    var r := SPACES.cells;
    assert r[1] < r[2] <= r[3] < r[4] <= r[5] < r[6] <= r[7] < r[8] <= r[9] < r[10] <= r[11] < r[12];
    assert r[12] <= r[13] < r[14] <= r[15] < r[16] <= r[17] < r[18] <= r[19] < r[20];
    forall k | 0 <= k < 11 ensures SPACES.Step(k) {
    }
    StepsSort(SPACES);
  }

  lemma RowIsWhite(k: nat, c: Uint32)
    requires SpaceRow(k, c)
    ensures White(c)
  {
  }

  lemma LowWhiteHasRow(c: Uint32) returns (k: nat)
    requires White(c) && c <= 0x1680
    ensures SpaceRow(k, c)
  {
    k := if c <= 0x000d then 0 else if c == 0x0020 then 1 else if c == 0x0085 then 2 else if c == 0x00a0 then 3 else 4;
  }

  lemma HighWhiteHasRow(c: Uint32) returns (k: nat)
    requires White(c) && c > 0x1680
    ensures SpaceRow(k, c)
  {
    k := if c <= 0x200a then 5 else if c <= 0x2029 then 6 else if c == 0x202f then 7 else if c == 0x205f then 8
      else if c == 0x3000 then 9 else 10;
  }

  /** The rows spelled out one by one. */
  lemma WhiteIsRow(c: Uint32)
    ensures White(c) <==> exists k :: 0 <= k < 11 && SpaceRow(k, c)
  {
    if White(c) {
      var k;
      if c <= 0x1680 {
        k := LowWhiteHasRow(c);
      } else {
        k := HighWhiteHasRow(c);
      }
      assert 0 <= k < 11 && SpaceRow(k, c);
    }
    forall k | 0 <= k < 11 && SpaceRow(k, c) ensures White(c) {
      RowIsWhite(k, c);
    }
  }

  lemma SpacesAreWhite(c: Uint32)
    ensures SPACES.Shaped() && (Listed(c, SPACES) <==> White(c))
  {
    WhiteIsRow(c);
    assert forall k :: 0 <= k < 11 ==> (SPACES.Hit(k, c) <==> SpaceRow(k, c));
  }

  method IsSpace(c: Uint32) returns (r: bool)
    ensures r <==> White(c)
  {
    SpacesAreWhite(c);
    SpacesAreSorted();
    SPACES.ScanFinds(c, 0);
    var t;
    r, t := Lookup(c, SPACES);
  }

  const BIAS := 1048576

  /** c shifted by the last cell of row k, in 32-bit arithmetic. */
  function Shifted(c: Uint32, table: Table, k: nat): Uint32
    requires table.Shaped() && k < table.rows
  {
    table.Inside(k);
    (c + table.cells[k * table.ne + table.ne - 1] - BIAS) % 0x1_0000_0000
  }

  /** What scanning the ranges, then the points, would map c to. */
  function Mapped(c: Uint32, ranges: Table, singles: Table): Uint32
    requires ranges.Sorted() && singles.Sorted()
  {
    ranges.ScanFinds(c, 0);
    singles.ScanFinds(c, 0);
    match (ranges.Scan(c, 0), singles.Scan(c, 0))
    case (Some(k), _) => Shifted(c, ranges, k)
    case (None, Some(k)) => Shifted(c, singles, k)
    case (None, None) => c
  }

  /** The shape of uni_toupper, uni_tolower and uni_totitle. */
  method ToMapped(c: Uint32, ranges: Table, singles: Table) returns (r: Uint32)
    requires ranges.Sorted() && ranges.ranged && ranges.ne == 3
    requires singles.Sorted() && !singles.ranged && singles.ne == 2
    ensures r == Mapped(c, ranges, singles)
  {
    ranges.ScanFinds(c, 0);
    singles.ScanFinds(c, 0);
    var hit, t := Lookup(c, ranges);
    if hit {
      ranges.Inside(ranges.Scan(c, 0).value);
      return (c + ranges.cells[t + 2] - BIAS) % 0x1_0000_0000;
    }
    hit, t := Lookup(c, singles);
    if hit {
      singles.Inside(singles.Scan(c, 0).value);
      return (c + singles.cells[t + 1] - BIAS) % 0x1_0000_0000;
    }
    r := c;
  }

  // The first rows of toupperr and tolowerr.

  const CAPITALS: Table := Table([0x0061, 0x007a, 1048544], 1, 3, true)
  const SMALLS: Table := Table([0x0041, 0x005a, 1048608], 1, 3, true)
  const NO_POINTS: Table := Table([], 0, 2, false)

  lemma OneRow(table: Table, c: Uint32)
    requires table.rows == 1 && table.ne == 3 && table.ranged && |table.cells| == 3
    ensures table.Sorted() && table.Scan(c, 0) == if table.cells[0] <= c <= table.cells[1] then Some(0) else None
  {
    assert table.First(0) == table.cells[0] && table.Last(0) == table.cells[1];
    assert table.Scan(c, 1) == None;
  }

  /** By these rows the letters a to z become A to Z, those become a to z, and nothing else changes. */
  lemma LettersAreMapped(c: Uint32)
    ensures CAPITALS.Sorted() && SMALLS.Sorted() && NO_POINTS.Sorted()
    ensures Mapped(c, CAPITALS, NO_POINTS) == if 0x0061 <= c <= 0x007a then c - 0x20 else c
    ensures Mapped(c, SMALLS, NO_POINTS) == if 0x0041 <= c <= 0x005a then c + 0x20 else c
  {
    OneRow(CAPITALS, c);
    OneRow(SMALLS, c);
    assert NO_POINTS.Scan(c, 0) == None;
  }
}
