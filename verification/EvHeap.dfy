/**
 * The 4-ary timer heap of extern/libev/ev.c: sifting as a function of the slots, what it
 * guarantees, and the in-place loops that compute it while keeping every back-index right.
 */
module EvHeap {
  import opened EvWatcher

  const DHEAP: nat := 4
  /** Index of the first heap entry; the slots below it are never used. */
  const HEAP0: nat := DHEAP - 1

  /** A heap entry: the watcher and the cached copy of its `at`. */
  datatype Anhe = Anhe(w: Watcher, at: real)

  type Slots = seq<Anhe>

  /** HPARENT. C division truncates, so the parent of the root is the root. */
  function Parent(k: nat): (p: nat)
    requires HEAP0 <= k
    ensures HEAP0 <= p <= k
    ensures p == k <==> k == HEAP0
  {
    if k == HEAP0 then HEAP0 else (k - HEAP0 - 1) / DHEAP + HEAP0
  }

  /** The heap condition between slot i and its parent. */
  ghost predicate Edge(h: Slots, i: nat)
    requires HEAP0 < i < |h|
  {
    h[Parent(i)].at <= h[i].at
  }

  ghost predicate Ordered(h: Slots, n: nat) {
    HEAP0 <= n <= |h| && forall i :: HEAP0 < i < n ==> Edge(h, i)
  }

  /** The edge at i holds unless it touches slot k. */
  ghost predicate EdgeBut(h: Slots, i: nat, k: nat)
    requires HEAP0 < i < |h|
  {
    i == k || Parent(i) == k || Edge(h, i)
  }

  ghost predicate OrderedBut(h: Slots, n: nat, k: nat) {
    HEAP0 <= n <= |h| && forall i :: HEAP0 < i < n ==> EdgeBut(h, i, k)
  }

  /** If slot i is a child of k, it is not below slot m. */
  ghost predicate Above(h: Slots, i: nat, k: nat, m: nat)
    requires HEAP0 < i < |h| && HEAP0 <= m < |h|
  {
    Parent(i) == k ==> h[m].at <= h[i].at
  }

  /** The entries under k are not below the entry over k. */
  ghost predicate Bridged(h: Slots, n: nat, k: nat) {
    HEAP0 <= k < n <= |h| &&
    (k > HEAP0 ==> forall i :: HEAP0 < i < n ==> Above(h, i, k, Parent(k)))
  }

  /** The entries under k are not below the one in slot m. */
  ghost predicate Covers(h: Slots, n: nat, k: nat, m: nat) {
    HEAP0 <= k < n <= |h| && HEAP0 <= m < n && forall i :: HEAP0 < i < n ==> Above(h, i, k, m)
  }

  function Swap(h: Slots, i: nat, j: nat): (r: Slots)
    requires i < |h| && j < |h|
  {
    h[i := h[j]][j := h[i]]
  }

  /** upheap: exchange the entry at k with its parent while it is strictly smaller. */
  function SiftUp(h: Slots, k: nat): (r: Slots)
    requires HEAP0 <= k < |h|
    ensures |r| == |h|
    decreases k
  {
    var p := Parent(k);
    if p == k || h[p].at <= h[k].at then h else SiftUp(Swap(h, p, k), p)
  }

  function Earlier(h: Slots, n: nat, a: nat, b: nat): (c: nat)
    requires a < n <= |h|
    ensures c == a || c == b < n
  {
    if b < n && h[a].at > h[b].at then b else a
  }

  /** The first of the smallest children of k, or n when k has none. */
  function MinChild(h: Slots, n: nat, k: nat): (c: nat)
    requires HEAP0 <= k < n <= |h|
    ensures c == n || k < c < n
  {
    var pos := DHEAP * (k - HEAP0) + HEAP0 + 1;
    if n <= pos then n else
      Earlier(h, n, Earlier(h, n, Earlier(h, n, pos, pos + 1), pos + 2), pos + 3)
  }

  lemma MinChildIsLeast(h: Slots, n: nat, k: nat)
    requires HEAP0 <= k < n <= |h|
    ensures var c := MinChild(h, n, k);
      if c == n then forall i :: HEAP0 < i < n ==> Parent(i) != k
      else Parent(c) == k && Covers(h, n, k, c)
  {
  }

  /** downheap: exchange the entry at k with its smallest child while that child is smaller. */
  function SiftDown(h: Slots, n: nat, k: nat): (r: Slots)
    requires HEAP0 <= k < n <= |h|
    ensures |r| == |h|
    decreases n - k
  {
    var c := MinChild(h, n, k);
    if c == n || h[k].at <= h[c].at then h else SiftDown(Swap(h, k, c), n, c)
  }

  /** One upward exchange moves the only possible violation from k to its parent. */
  lemma SiftUpStep(h: Slots, n: nat, k: nat)
    requires OrderedBut(h, n, k) && Bridged(h, n, k) && Covers(h, n, k, k)
    requires k > HEAP0 && h[Parent(k)].at > h[k].at
    ensures var r, p := Swap(h, Parent(k), k), Parent(k);
      OrderedBut(r, n, p) && Bridged(r, n, p) && Covers(r, n, p, p)
  {
    var r, p := Swap(h, Parent(k), k), Parent(k);
    assert p > HEAP0 ==> EdgeBut(h, p, k);
    forall i | HEAP0 < i < n
      ensures EdgeBut(r, i, p) && Above(r, i, p, p) && (p > HEAP0 ==> Above(r, i, p, Parent(p)))
    {
      assert EdgeBut(h, i, k) && Above(h, i, k, k) && Above(h, i, k, p);
    }
  }

  lemma {:induction false} SiftUpOrders(h: Slots, n: nat, k: nat)
    requires OrderedBut(h, n, k) && Bridged(h, n, k) && Covers(h, n, k, k)
    ensures Ordered(SiftUp(h, k), n)
    decreases k
  {
    var p := Parent(k);
    if p != k && h[p].at > h[k].at {
      SiftUpStep(h, n, k);
      SiftUpOrders(Swap(h, p, k), n, p);
    } else {
      forall i | HEAP0 < i < n ensures Edge(h, i) {
        assert EdgeBut(h, i, k) && Above(h, i, k, k);
      }
    }
  }

  /** Sifting up the last entry extends the heap by one slot. */
  lemma SiftUpAppends(h: Slots, n: nat)
    requires HEAP0 < n <= |h| && OrderedBut(h, n, n - 1)
    ensures Ordered(SiftUp(h, n - 1), n)
  {
    SiftUpOrders(h, n, n - 1);
  }

  /** One downward exchange moves the only possible violation from k to the child c. */
  lemma SiftDownStep(h: Slots, n: nat, k: nat, c: nat)
    requires OrderedBut(h, n, k) && Bridged(h, n, k) && Covers(h, n, k, c)
    requires k == HEAP0 || Edge(h, k)
    requires k < c && Parent(c) == k && h[c].at < h[k].at
    ensures OrderedBut(Swap(h, k, c), n, c) && Bridged(Swap(h, k, c), n, c) && Edge(Swap(h, k, c), c)
  {
    var r := Swap(h, k, c);
    assert k > HEAP0 ==> Above(h, c, k, Parent(k));
    forall i | HEAP0 < i < n ensures EdgeBut(r, i, c) && Above(r, i, c, k) {
      assert EdgeBut(h, i, k) && Above(h, i, k, c);
    }
  }

  lemma {:induction false} SiftDownOrders(h: Slots, n: nat, k: nat)
    requires OrderedBut(h, n, k) && Bridged(h, n, k)
    requires k == HEAP0 || Edge(h, k)
    ensures Ordered(SiftDown(h, n, k), n)
    decreases n - k
  {
    var c := MinChild(h, n, k);
    MinChildIsLeast(h, n, k);
    if c < n && h[c].at < h[k].at {
      SiftDownStep(h, n, k, c);
      SiftDownOrders(Swap(h, k, c), n, c);
    } else {
      forall i | HEAP0 < i < n ensures Edge(h, i) {
        assert EdgeBut(h, i, k);
        assert c < n ==> Above(h, i, k, c);
      }
    }
  }

  /** The entries in use: slots HEAP0 up to n, as a bag. */
  ghost function Bag(h: Slots, n: nat): multiset<Anhe>
    requires HEAP0 <= n <= |h|
  {
    multiset(h[HEAP0..n])
  }

  lemma SwapKeepsBag(h: Slots, n: nat, i: nat, j: nat)
    requires HEAP0 <= i < n <= |h| && HEAP0 <= j < n
    ensures Bag(Swap(h, i, j), n) == Bag(h, n)
  {
    var s, a, b := h[HEAP0..n], i - HEAP0, j - HEAP0;
    assert Swap(h, i, j)[HEAP0..n] == s[a := s[b]][b := s[a]];
  }

  lemma {:induction false} SiftUpKeepsBag(h: Slots, n: nat, k: nat)
    requires HEAP0 <= k < n <= |h|
    ensures Bag(SiftUp(h, k), n) == Bag(h, n)
    decreases k
  {
    var p := Parent(k);
    if p != k && h[p].at > h[k].at {
      SwapKeepsBag(h, n, p, k);
      SiftUpKeepsBag(Swap(h, p, k), n, p);
    }
  }

  lemma {:induction false} SiftDownKeepsBag(h: Slots, n: nat, k: nat)
    requires HEAP0 <= k < n <= |h|
    ensures Bag(SiftDown(h, n, k), n) == Bag(h, n)
    decreases n - k
  {
    var c := MinChild(h, n, k);
    if c < n && h[c].at < h[k].at {
      SwapKeepsBag(h, n, k, c);
      SiftDownKeepsBag(Swap(h, k, c), n, c);
    }
  }

  /** In an ordered heap the root is due no later than any other entry. */
  lemma {:induction false} RootIsEarliest(h: Slots, n: nat, i: nat)
    requires Ordered(h, n) && HEAP0 <= i < n
    ensures h[HEAP0].at <= h[i].at
    decreases i
  {
    if i > HEAP0 {
      assert Edge(h, i);
      RootIsEarliest(h, n, Parent(i));
    }
  }

  // ---- the loops over the array of slots

  /** Every entry in use, except the one at k, records its own slot in its watcher. */
  ghost predicate IndexedBut(h: Slots, n: nat, k: nat)
    reads (set i | HEAP0 <= i < n <= |h| :: h[i].w)`active
  {
    HEAP0 <= n <= |h| &&
    (forall i :: HEAP0 <= i < n && i != k ==> h[i].w.active == i)
  }

  ghost predicate Apart(h: Slots, n: nat, k: nat, w: Watcher) {
    HEAP0 <= n <= |h| && forall i :: HEAP0 <= i < n && i != k ==> h[i].w != w
  }

  /** One shift: the entry at `from` fills the hole at k, and `from` becomes the hole for `he`. */
  method MoveEntry(heap: array<Anhe>, k: nat, from: nat, ghost n: nat, ghost he: Anhe, ghost ws: set<Watcher>)
    requires HEAP0 <= k < n <= heap.Length && HEAP0 <= from < n && from != k
    requires forall i :: HEAP0 <= i < n ==> heap[i].w in ws
    requires IndexedBut(heap[..], n, k) && Apart(heap[..], n, k, he.w)
    modifies heap, ws`active
    ensures heap[..] == old(heap[..])[k := old(heap[from])]
    ensures forall i :: HEAP0 <= i < n ==> heap[i].w in ws
    ensures IndexedBut(heap[..], n, from) && Apart(heap[..], n, from, he.w)
  {
    heap[k] := heap[from];
    heap[k].w.active := k;
  }

  method UpHeap(heap: array<Anhe>, start: nat, ghost n: nat, ghost ws: set<Watcher>)
    requires HEAP0 <= start < n <= heap.Length
    requires forall i :: HEAP0 <= i < n ==> heap[i].w in ws
    requires IndexedBut(heap[..], n, start) && Apart(heap[..], n, start, heap[start].w)
    modifies heap, ws`active
    ensures heap[..] == SiftUp(old(heap[..]), start)
    ensures IndexedBut(heap[..], n, n)
  {
    var he := heap[start];
    var k := start;
    ghost var goal := SiftUp(heap[..], start);
    assert heap[..][k := he] == heap[..];
    while true
      invariant HEAP0 <= k < n
      invariant SiftUp(heap[..][k := he], k) == goal
      invariant forall i :: HEAP0 <= i < n ==> heap[i].w in ws
      invariant IndexedBut(heap[..], n, k) && Apart(heap[..], n, k, he.w)
      decreases k
    {
      var p := Parent(k);
      if p == k || heap[p].at <= he.at {
        break;
      }
      ghost var h := heap[..][k := he];
      MoveEntry(heap, k, p, n, he, ws);
      assert heap[..][p := he] == Swap(h, p, k);
      k := p;
    }
    heap[k] := he;
    he.w.active := k;
  }

  /** What one turn of the loop of downheap does to the slots, the hole being at k. */
  lemma SiftDownMoves(h: Slots, n: nat, k: nat, c: nat, he: Anhe)
    requires HEAP0 <= k < n <= |h| && c == MinChild(h[k := he], n, k) < n && h[c].at < he.at
    ensures SiftDown(h[k := he], n, k) == SiftDown(h[k := h[c]][c := he], n, c)
  {
    assert h[k := h[c]][c := he] == Swap(h[k := he], k, c);
  }

  /** The state of downheap with the hole at k: storing he there and sifting on gives the goal. */
  ghost predicate Sinking(h: Slots, n: nat, k: nat, he: Anhe, goal: Slots, ws: set<Watcher>)
    reads ws`active
  {
    HEAP0 <= k < n <= |h| && (forall i :: HEAP0 <= i < n ==> h[i].w in ws) &&
    SiftDown(h[k := he], n, k) == goal &&
    (forall i :: HEAP0 <= i < n && i != k ==> h[i].w.active == i) && Apart(h, n, k, he.w)
  }

  /** One turn of the loop of downheap, if there is one to take. */
  method DownRound(heap: array<Anhe>, n: nat, k: nat, he: Anhe, ghost goal: Slots, ghost ws: set<Watcher>)
    returns (done: bool, next: nat)
    requires Sinking(heap[..], n, k, he, goal, ws)
    modifies heap, ws`active
    ensures Sinking(heap[..], n, next, he, goal, ws)
    ensures if done then next == k && heap[..][k := he] == goal else k < next
  {
    var c := FirstMinChild(heap, n, k, he);
    done := c == n || he.at <= heap[c].at;
    if done {
      next := k;
    } else {
      SiftDownMoves(heap[..], n, k, c, he);
      MoveEntry(heap, k, c, n, he, ws);
      next := c;
    }
  }

  method DownHeap(heap: array<Anhe>, n: nat, start: nat, ghost ws: set<Watcher>)
    requires HEAP0 <= start < n <= heap.Length
    requires forall i :: HEAP0 <= i < n ==> heap[i].w in ws
    requires IndexedBut(heap[..], n, start) && Apart(heap[..], n, start, heap[start].w)
    modifies heap, ws`active
    ensures heap[..] == SiftDown(old(heap[..]), n, start)
    ensures IndexedBut(heap[..], n, n)
  {
    var he := heap[start];
    var k, done := start, false;
    ghost var goal := SiftDown(heap[..], n, start);
    assert heap[..][k := he] == heap[..];
    while !done
      invariant Sinking(heap[..], n, k, he, goal, ws)
      invariant done ==> heap[..][k := he] == goal
      decreases !done, n - k
    {
      done, k := DownRound(heap, n, k, he, goal, ws);
    }
    ghost var h := heap[..];
    heap[k] := he;
    assert heap[..] == h[k := he];
    he.w.active := k;
  }

  /** The minimum-child search of downheap, with its unguarded path for four children. */
  method FirstMinChild(heap: array<Anhe>, n: nat, k: nat, ghost he: Anhe) returns (minpos: nat)
    requires HEAP0 <= k < n <= heap.Length
    ensures minpos == MinChild(heap[..][k := he], n, k)
  {
    var pos := DHEAP * (k - HEAP0) + HEAP0 + 1;
    if pos + DHEAP - 1 < n {
      minpos := pos;
      if heap[minpos].at > heap[pos + 1].at { minpos := pos + 1; }
      if heap[minpos].at > heap[pos + 2].at { minpos := pos + 2; }
      if heap[minpos].at > heap[pos + 3].at { minpos := pos + 3; }
    } else if pos < n {
      minpos := pos;
      if pos + 1 < n && heap[minpos].at > heap[pos + 1].at { minpos := pos + 1; }
      if pos + 2 < n && heap[minpos].at > heap[pos + 2].at { minpos := pos + 2; }
      // a fourth child would have taken the first path: the last guard of the source never holds
    } else {
      minpos := n;
    }
  }

  /** adjustheap: towards the root when not later than its parent, away from it otherwise. */
  function Adjusted(h: Slots, n: nat, k: nat): (r: Slots)
    requires HEAP0 <= k < n <= |h|
    ensures |r| == |h|
  {
    if k > HEAP0 && h[k].at <= h[Parent(k)].at then SiftUp(h, k) else SiftDown(h, n, k)
  }

  lemma AdjustedIsHeap(h: Slots, n: nat, k: nat)
    requires OrderedBut(h, n, k) && Bridged(h, n, k)
    ensures Ordered(Adjusted(h, n, k), n) && Bag(Adjusted(h, n, k), n) == Bag(h, n)
  {
    if k > HEAP0 && h[k].at <= h[Parent(k)].at {
      forall i | HEAP0 < i < n ensures Above(h, i, k, k) {
        assert Above(h, i, k, Parent(k));
      }
      SiftUpOrders(h, n, k);
      SiftUpKeepsBag(h, n, k);
    } else {
      SiftDownOrders(h, n, k);
      SiftDownKeepsBag(h, n, k);
    }
  }

  method AdjustHeap(heap: array<Anhe>, n: nat, k: nat, ghost ws: set<Watcher>)
    requires HEAP0 <= k < n <= heap.Length
    requires forall i :: HEAP0 <= i < n ==> heap[i].w in ws
    requires IndexedBut(heap[..], n, k) && Apart(heap[..], n, k, heap[k].w)
    modifies heap, ws`active
    ensures heap[..] == Adjusted(old(heap[..]), n, k)
    ensures IndexedBut(heap[..], n, n)
  {
    if k > HEAP0 && heap[k].at <= heap[Parent(k)].at {
      UpHeap(heap, k, n, ws);
    } else {
      DownHeap(heap, n, k, ws);
    }
  }

  /** The slots after the first m - HEAP0 rounds of reheap. */
  function Reheaped(h: Slots, m: nat): (r: Slots)
    requires HEAP0 <= m <= |h|
    ensures |r| == |h|
  {
    if m == HEAP0 then h else SiftUp(Reheaped(h, m - 1), m - 1)
  }

  /** Whatever the keys were, reheap leaves a heap... */
  lemma {:induction false} ReheapedIsOrdered(h: Slots, m: nat)
    requires HEAP0 <= m <= |h|
    ensures Ordered(Reheaped(h, m), m)
  {
    if m > HEAP0 {
      ReheapedIsOrdered(h, m - 1);
      var r, k := Reheaped(h, m - 1), m - 1;
      forall i | HEAP0 < i < m ensures EdgeBut(r, i, k) {
        assert i < k ==> Edge(r, i);
      }
      SiftUpAppends(Reheaped(h, m - 1), m);
    }
  }

  lemma ReheapRoundKeepsBag(h: Slots, n: nat, m: nat)
    requires HEAP0 < m <= n <= |h|
    ensures Bag(Reheaped(h, m), n) == Bag(Reheaped(h, m - 1), n)
  {
    SiftUpKeepsBag(Reheaped(h, m - 1), n, m - 1);
  }

  /** ... that holds the same entries. */
  lemma {:induction false} ReheapedKeepsBag(h: Slots, n: nat, m: nat)
    requires HEAP0 <= m <= n <= |h|
    ensures Bag(Reheaped(h, m), n) == Bag(h, n)
  {
    if m > HEAP0 {
      ReheapRoundKeepsBag(h, n, m);
      ReheapedKeepsBag(h, n, m - 1);
    }
  }

  method Reheap(heap: array<Anhe>, count: nat, ghost ws: set<Watcher>)
    requires count + HEAP0 <= heap.Length
    requires forall i :: HEAP0 <= i < count + HEAP0 ==> heap[i].w in ws
    requires IndexedBut(heap[..], count + HEAP0, count + HEAP0)
    modifies heap, ws`active
    ensures heap[..] == Reheaped(old(heap[..]), count + HEAP0)
    ensures IndexedBut(heap[..], count + HEAP0, count + HEAP0)
  {
    ghost var n := count + HEAP0;
    ghost var h := heap[..];
    for i := 0 to count
      invariant heap[..] == Reheaped(h, i + HEAP0)
      invariant forall j :: HEAP0 <= j < n ==> heap[j].w in ws
      invariant IndexedBut(heap[..], n, n)
    {
      UpHeap(heap, i + HEAP0, n, ws);
      ReheapedKeepsBag(h, n, i + 1 + HEAP0);
      BagMembers(h, heap[..], n, ws);
    }
  }

  /** Entries of equal bags: each slot of one occurs in the other. */
  lemma BagMembers(h: Slots, r: Slots, n: nat, ws: set<Watcher>)
    requires HEAP0 <= n <= |h| && n <= |r| && Bag(h, n) == Bag(r, n)
    requires forall j :: HEAP0 <= j < n ==> h[j].w in ws
    ensures forall j :: HEAP0 <= j < n ==> r[j].w in ws
  {
    forall j | HEAP0 <= j < n ensures r[j].w in ws {
      assert r[HEAP0..n][j - HEAP0] in Bag(r, n);
      assert r[j] in h[HEAP0..n];
    }
  }
}
