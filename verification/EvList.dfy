/** The singly linked watcher lists of extern/libev/ev.c, and the sequences they hold. */
module EvList {

  class WL {
    var next: WL?
    constructor ()
      ensures next == null
    {
      next := null;
    }
  }

  ghost predicate Distinct<T>(list: seq<T>) {
    forall i, j :: 0 <= i < j < |list| ==> list[i] != list[j]
  }

  /** The links from head run through the elements of list, in order, and end there. */
  ghost predicate Chain(head: WL?, list: seq<WL>)
    reads list`next
  {
    Distinct(list) && head == At(list, 0) &&
    forall i :: 0 <= i < |list| ==> list[i].next == At(list, i + 1)
  }

  ghost function At(list: seq<WL>, i: nat): WL? {
    if i < |list| then list[i] else null
  }

  /** A list without the first occurrence of an element. */
  function Unlinked<T(==)>(list: seq<T>, elem: T): (r: seq<T>) {
    if list == [] then [] else if list[0] == elem then list[1..] else [list[0]] + Unlinked(list[1..], elem)
  }

  lemma {:induction false} UnlinkedAt<T>(list: seq<T>, k: nat)
    requires k < |list| && Distinct(list)
    ensures Unlinked(list, list[k]) == list[..k] + list[k + 1..]
  {
    if k > 0 {
      UnlinkedAt(list[1..], k - 1);
    }
  }

  lemma {:induction false} UnlinkedAbsent<T>(list: seq<T>, elem: T)
    requires elem !in list
    ensures Unlinked(list, elem) == list
  {
    if list != [] {
      UnlinkedAbsent(list[1..], elem);
    }
  }

  lemma OthersStay<T>(list: seq<T>, k: nat)
    requires k < |list| && Distinct(list)
    ensures var r := list[..k] + list[k + 1..];
      Distinct(r) && list[k] !in r && forall v :: v != list[k] ==> (v in r <==> v in list)
  {
    var r := list[..k] + list[k + 1..];
    assert forall j :: 0 <= j < |r| ==> r[j] == list[if j < k then j else j + 1];
    forall v | v in list && v != list[k] ensures v in r {
      var i :| 0 <= i < |list| && list[i] == v;
      assert r[if i < k then i else i - 1] == v;
    }
  }

  lemma {:induction false} UnlinkedMembers<T>(list: seq<T>, elem: T)
    requires Distinct(list)
    ensures var r := Unlinked(list, elem);
      Distinct(r) && elem !in r && forall v :: v != elem ==> (v in r <==> v in list)
    ensures forall i :: 0 <= i < |Unlinked(list, elem)| ==> Unlinked(list, elem)[i] in list && Unlinked(list, elem)[i] != elem
  {
    if elem in list {
      var k :| 0 <= k < |list| && list[k] == elem;
      UnlinkedAt(list, k);
      OthersStay(list, k);
    } else {
      UnlinkedAbsent(list, elem);
    }
  }

  method Add(head: WL?, elem: WL, ghost list: seq<WL>) returns (newHead: WL)
    requires Chain(head, list) && elem !in list
    modifies elem`next
    ensures Chain(newHead, [elem] + list)
  {
    elem.next := head;
    newHead := elem;
  }

  /** The rest of a chain. */
  lemma ChainTail(head: WL?, list: seq<WL>)
    requires Chain(head, list) && list != []
    ensures Chain(list[0].next, list[1..])
  {
    assert forall i :: 0 <= i < |list| - 1 ==> At(list[1..], i) == list[i + 1];
  }

  /** The list without the element behind i. */
  lemma Without(list: seq<WL>, i: nat)
    requires Distinct(list) && i + 1 < |list|
    ensures var r := list[..i + 1] + list[i + 2..];
      Distinct(r) && |r| == |list| - 1 && (forall j :: 0 <= j <= |r| ==> At(r, j) == At(list, if j <= i then j else j + 1))
  {
    var r := list[..i + 1] + list[i + 2..];
    assert forall j :: 0 <= j < |r| ==> r[j] == list[if j <= i then j else j + 1];
  }

  /** The link at i is redirected past the element behind it. */
  method Bypass(head: WL?, ghost list: seq<WL>, ghost i: nat, link: WL, elem: WL)
    requires Chain(head, list) && i + 1 < |list| && list[i] == link && list[i + 1] == elem
    modifies link`next
    ensures Chain(head, list[..i + 1] + list[i + 2..])
  {
    ghost var r := list[..i + 1] + list[i + 2..];
    Without(list, i);
    link.next := elem.next;
    forall j | 0 <= j < |r| ensures r[j].next == At(r, j + 1) {
      assert r[j] == list[if j <= i then j else j + 1];
    }
  }

  /** wlist_del: the link that leads to elem is redirected past it; a list without elem is kept. */
  method Del(head: WL?, elem: WL, ghost list: seq<WL>) returns (newHead: WL?)
    requires Chain(head, list)
    modifies list`next
    ensures Chain(newHead, Unlinked(list, elem))
    ensures elem.next == old(elem.next)
  {
    if head == elem {
      UnlinkedAt(list, 0);
      ChainTail(head, list);
      assert list[..0] + list[1..] == list[1..];
      return elem.next;
    }
    newHead := head;
    var link := head;
    ghost var i := 0;
    while link != null && link.next != elem
      invariant i <= |list| && link == At(list, i)
      invariant forall j :: 0 <= j <= i && j < |list| ==> list[j] != elem
      decreases |list| - i
    {
      link := link.next;
      i := i + 1;
    }
    if link == null {
      UnlinkedAbsent(list, elem);
    } else {
      UnlinkedAt(list, i + 1);
      Bypass(head, list, i, link, elem);
    }
  }
}
