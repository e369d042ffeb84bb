/**
 The intrusive lists of include/queue.h. The elements of a list are the entries of an array (`envs`, `pages`), so an
 element is an index. It holds the next element and the address of the cell that points to it: the `first` field of
 the head or the `next` field of another element. Every macro writes through such addresses; each is proved to act on
 the sequence of elements that the head leads to.
 */
module Queue {
  import opened Common

  /** The address of a cell that holds a pointer to an element. */
  datatype Cell = Null | First | NextOf(elem: nat)

  /** The head and all link fields of one list; only a tail queue uses `last`. */
  datatype Links = Links(first: Option<nat>, last: Cell, next: seq<Option<nat>>, prev: seq<Cell>)

  function SetNext(l: Links, e: nat, n: Option<nat>): (r: Links) {
    if e < |l.next| then l.(next := l.next[e := n]) else l
  }

  function SetPrev(l: Links, e: nat, c: Cell): (r: Links) {
    if e < |l.prev| then l.(prev := l.prev[e := c]) else l
  }

  /** The pointer in a cell. */
  function Load(l: Links, c: Cell): (n: Option<nat>) {
    match c
    case Null => None
    case First => l.first
    case NextOf(p) => if p < |l.next| then l.next[p] else None
  }

  /** A write through the address of a cell. */
  function Store(l: Links, c: Cell, n: Option<nat>): (r: Links) {
    match c
    case Null => l
    case First => l.(first := n)
    case NextOf(p) => SetNext(l, p, n)
  }

  // What the links stand for.

  function ElemAt(q: seq<nat>, i: nat): (n: Option<nat>) {
    if i < |q| then Some(q[i]) else None
  }

  /** The cell that leads to the i-th element. */
  function CellBefore(q: seq<nat>, i: nat): (c: Cell)
    requires i <= |q|
  {
    if i == 0 then First else NextOf(q[i - 1])
  }

  ghost predicate InRange(l: Links, q: seq<nat>) {
    |l.next| == |l.prev| && forall i :: 0 <= i < |q| ==> q[i] < |l.next|
  }

  /** `q` are the elements in order, each with the address of the cell that leads to it. */
  ghost predicate Linked(l: Links, q: seq<nat>) {
    && InRange(l, q) && Distinct(q) && l.first == ElemAt(q, 0)
    && (forall i {:trigger l.next[q[i]]} :: 0 <= i < |q| ==> l.next[q[i]] == ElemAt(q, i + 1))
    && (forall i {:trigger l.prev[q[i]]} :: 0 <= i < |q| ==> l.prev[q[i]] == CellBefore(q, i))
  }

  /** A tail queue: `last` is the address of the final null pointer. */
  ghost predicate Tailed(l: Links, q: seq<nat>) {
    Linked(l, q) && l.last == CellBefore(q, |q|)
  }

  // The macros.

  /** LIST_INSERT_HEAD */
  function ListPrepended(l: Links, e: nat): (r: Links) {
    var l1 := SetNext(l, e, l.first);
    var l2 := if l.first.Some? then SetPrev(l1, l.first.value, NextOf(e)) else l1;
    SetPrev(l2.(first := Some(e)), e, First)
  }

  /** LIST_INSERT_AFTER */
  function ListInserted(l: Links, at: nat, e: nat): (r: Links) {
    var n := Load(l, NextOf(at));
    var l1 := SetNext(SetPrev(l, e, NextOf(at)), e, n);
    var l2 := if n.Some? then SetPrev(l1, n.value, NextOf(e)) else l1;
    SetNext(l2, at, Some(e))
  }

  function NextField(l: Links, e: nat): (n: Option<nat>) {
    if e < |l.next| then l.next[e] else None
  }

  function PrevField(l: Links, e: nat): (c: Cell) {
    if e < |l.prev| then l.prev[e] else Null
  }

  /** LIST_REMOVE */
  function ListUnlinked(l: Links, e: nat): (r: Links) {
    var n := NextField(l, e);
    var l1 := if n.Some? then SetPrev(l, n.value, PrevField(l, e)) else l;
    Store(l1, PrevField(l1, e), n)
  }

  /** TAILQ_INSERT_HEAD */
  function Prepended(l: Links, e: nat): (r: Links) {
    var l1 := SetNext(l, e, l.first);
    var l2 := if l.first.Some? then SetPrev(l1, l.first.value, NextOf(e)) else l1.(last := NextOf(e));
    SetPrev(l2.(first := Some(e)), e, First)
  }

  /** TAILQ_INSERT_TAIL */
  function Appended(l: Links, e: nat): (r: Links) {
    var l1 := SetPrev(SetNext(l, e, None), e, l.last);
    Store(l1, l1.last, Some(e)).(last := NextOf(e))
  }

  /** TAILQ_REMOVE, of any element; a null back link crashes the kernel and is left alone here. */
  function Unlinked(l: Links, e: nat): (r: Links) {
    var n := NextField(l, e);
    var l1 := if n.Some? then SetPrev(l, n.value, PrevField(l, e)) else l.(last := PrevField(l, e));
    Store(l1, PrevField(l1, e), n)
  }

  // What they do to the sequence.

  lemma ListPrependIsPrepend(l: Links, q: seq<nat>, e: nat)
    requires Linked(l, q) && e < |l.next| && e !in q
    ensures Linked(ListPrepended(l, e), [e] + q)
  {
  }

  lemma ListInsertIsInsert(l: Links, q: seq<nat>, i: nat, e: nat)
    requires Linked(l, q) && i < |q| && e < |l.next| && e !in q
    ensures Linked(ListInserted(l, q[i], e), Inserted(q, i + 1, e))
  {
    InsertedDistinct(q, i + 1, e);
  }

  lemma ListUnlinkIsDelete(l: Links, q: seq<nat>, i: nat)
    requires Linked(l, q) && i < |q|
    ensures Linked(ListUnlinked(l, q[i]), Without(q, i))
  {
    WithoutDistinct(q, i);
  }

  lemma PrependIsPrepend(l: Links, q: seq<nat>, e: nat)
    requires Tailed(l, q) && e < |l.next| && e !in q
    ensures Tailed(Prepended(l, e), [e] + q)
  {
  }

  lemma AppendIsAppend(l: Links, q: seq<nat>, e: nat)
    requires Tailed(l, q) && e < |l.next| && e !in q
    ensures Tailed(Appended(l, e), q + [e])
  {
  }

  lemma UnlinkIsDelete(l: Links, q: seq<nat>, i: nat)
    requires Tailed(l, q) && i < |q|
    ensures Tailed(Unlinked(l, q[i]), Without(q, i))
  {
    ListUnlinkIsDelete(l, q, i);
    assert l.next[q[i]] == ElemAt(q, i + 1) && l.prev[q[i]] == CellBefore(q, i);
    assert Unlinked(l, q[i]) == ListUnlinked(l, q[i]).(last := if i + 1 == |q| then CellBefore(q, i) else l.last);
  }

  /** The cell belongs to the queue. */
  ghost predicate Own(q: seq<nat>, c: Cell) {
    c == First || (c.NextOf? && c.elem in q)
  }

  /** The links that `e` holds agree with the queue wherever they lead into it. */
  ghost predicate Harmless(l: Links, q: seq<nat>, e: nat)
    requires InRange(l, q) && e < |l.next|
  {
    && (Own(q, l.prev[e]) ==> Load(l, l.prev[e]) == l.next[e])
    && (l.next[e].Some? && l.next[e].value in q ==> l.prev[l.next[e].value] == l.prev[e])
    && (l.next[e].None? ==> l.last == l.prev[e])
  }

  /** Removing an element that is not in the queue leaves the queue intact iff its stale links are harmless. */
  lemma StaleUnlinkExact(l: Links, q: seq<nat>, e: nat)
    requires Tailed(l, q) && e < |l.next| && e !in q && l.prev[e] != Null
    ensures Tailed(Unlinked(l, e), q) <==> Harmless(l, q, e)
  {
    var r, n := Unlinked(l, e), l.next[e];
    if n.Some? && n.value in q {
      assert r.prev[n.value] == l.prev[e];
    }
    if l.prev[e].NextOf? && l.prev[e].elem in q {
      assert r.next[l.prev[e].elem] == n;
    }
  }

  /** Every pointer leads into the array. */
  ghost predicate WellPointed(l: Links) {
    && |l.next| == |l.prev| && (l.first.Some? ==> l.first.value < |l.next|) && (l.last.NextOf? ==> l.last.elem < |l.next|)
    && (forall e :: 0 <= e < |l.next| && l.next[e].Some? ==> l.next[e].value < |l.next|)
    && (forall e :: 0 <= e < |l.prev| && l.prev[e].NextOf? ==> l.prev[e].elem < |l.next|)
  }

  lemma UnlinkedPoints(l: Links, e: nat)
    requires WellPointed(l) && e < |l.next|
    ensures WellPointed(Unlinked(l, e)) && |Unlinked(l, e).next| == |l.next|
  {
  }

  lemma AppendedPoints(l: Links, e: nat)
    requires WellPointed(l) && e < |l.next|
    ensures WellPointed(Appended(l, e)) && |Appended(l, e).next| == |l.next|
  {
  }

  /** TAILQ_INIT, with link fields that were never used. */
  function Empty(n: nat): (l: Links) {
    Links(None, First, seq(n, _ => None), seq(n, _ => Null))
  }

  lemma EmptyIsTailed(n: nat)
    ensures Tailed(Empty(n), []) && WellPointed(Empty(n))
  {
  }

  /** Remove and insert at the tail is a rotation of the queue. */
  lemma RotationIsRotation(l: Links, q: seq<nat>)
    requires Tailed(l, q) && q != []
    ensures Tailed(Appended(Unlinked(l, q[0]), q[0]), q[1..] + [q[0]])
  {
    UnlinkIsDelete(l, q, 0);
    WithoutDistinct(q, 0);
    assert Without(q, 0) == q[1..];
    AppendIsAppend(Unlinked(l, q[0]), q[1..], q[0]);
  }

  /** The queue [0, 1, 2] after 1 and then 2 were removed: a second removal of 1 brings 2 back. */
  lemma StaleRemoveResurrects()
    ensures var l := Appended(Appended(Appended(Empty(3), 0), 1), 2);
            var r := Unlinked(Unlinked(l, 1), 2);
            Tailed(r, [0]) && r.next[0] == None && Unlinked(r, 1).next[0] == Some(2)
  {
    var l := Appended(Appended(Appended(Empty(3), 0), 1), 2);
    assert l.next == [Some(1), Some(2), None] && l.prev == [First, NextOf(0), NextOf(1)];
    var r := Unlinked(Unlinked(l, 1), 2);
    assert r.next == [None, Some(2), None] && r.prev == [First, NextOf(0), NextOf(0)];
  }

  /** A tail queue, changed in place by the macros. */
  class TailQueue {
    var first: Option<nat>
    var last: Cell
    var next: seq<Option<nat>>
    var prev: seq<Cell>

    ghost function L(): (l: Links)
      reads this
    {
      Links(first, last, next, prev)
    }

    constructor (n: nat)
      ensures L() == Empty(n)
    {
      first, last, next, prev := None, First, seq(n, _ => None), seq(n, _ => Null);
    }

    /** A write through the address of a cell. */
    method Assign(c: Cell, n: Option<nat>)
      requires c.NextOf? ==> c.elem < |next|
      modifies `first, `next
      ensures L() == Store(old(L()), c, n)
    {
      match c
      case Null =>
      case First => first := n;
      case NextOf(p) => next := next[p := n];
    }

    /** TAILQ_INSERT_HEAD */
    method InsertHead(e: nat, ghost q: seq<nat>)
      requires Tailed(L(), q) && e < |next| && e !in q
      modifies this
      ensures L() == Prepended(old(L()), e) && Tailed(L(), [e] + q)
    {
      PrependIsPrepend(L(), q, e);
      next := next[e := first];
      if next[e].Some? {
        assert first.value == q[0];
        prev := prev[first.value := NextOf(e)];
      } else {
        last := NextOf(e);
      }
      first := Some(e);
      prev := prev[e := First];
    }

    /** TAILQ_INSERT_TAIL */
    method InsertTail(e: nat, ghost q: seq<nat>)
      requires Tailed(L(), q) && e < |next| && e !in q
      modifies this
      ensures L() == Appended(old(L()), e) && Tailed(L(), q + [e])
    {
      AppendIsAppend(L(), q, e);
      next := next[e := None];
      prev := prev[e := last];
      Assign(last, Some(e));
      last := NextOf(e);
    }

    /**
     TAILQ_REMOVE: deletes an element of the queue. For an element that is not in the queue it leaves the queue as it
     is iff the stale links are harmless.
     */
    method Remove(e: nat, ghost q: seq<nat>)
      requires Tailed(L(), q) && WellPointed(L()) && e < |next| && prev[e] != Null
      modifies this
      ensures L() == Unlinked(old(L()), e)
      ensures forall i :: 0 <= i < |q| && q[i] == e ==> Tailed(L(), Without(q, i))
      ensures e !in q ==> (Tailed(L(), q) <==> old(Harmless(L(), q, e)))
    {
      if e !in q {
        StaleUnlinkExact(L(), q, e);
      }
      forall i | 0 <= i < |q| && q[i] == e ensures Tailed(Unlinked(L(), e), Without(q, i)) {
        UnlinkIsDelete(L(), q, i);
      }
      if next[e].Some? {
        prev := prev[next[e].value := prev[e]];
      } else {
        last := prev[e];
      }
      Assign(prev[e], next[e]);
    }
  }

  /** A list without a tail pointer, changed in place by the macros. */
  class List {
    var first: Option<nat>
    var next: seq<Option<nat>>
    var prev: seq<Cell>

    ghost function L(): (l: Links)
      reads this
    {
      Links(first, Null, next, prev)
    }

    /** LIST_INSERT_HEAD */
    method InsertHead(e: nat, ghost q: seq<nat>)
      requires Linked(L(), q) && e < |next| && e !in q
      modifies this
      ensures Linked(L(), [e] + q) && L() == ListPrepended(old(L()), e)
    {
      ListPrependIsPrepend(L(), q, e);
      next := next[e := first];
      if next[e].Some? {
        assert first.value == q[0];
        prev := prev[first.value := NextOf(e)];
      }
      first := Some(e);
      prev := prev[e := First];
    }

    /** LIST_INSERT_AFTER */
    method InsertAfter(at: nat, e: nat, ghost q: seq<nat>, ghost i: nat)
      requires Linked(L(), q) && i < |q| && q[i] == at && e < |next| && e !in q
      modifies this
      ensures Linked(L(), Inserted(q, i + 1, e)) && L() == ListInserted(old(L()), at, e)
    {
      ListInsertIsInsert(L(), q, i, e);
      assert next[at] == ElemAt(q, i + 1);
      prev := prev[e := NextOf(at)];
      next := next[e := next[at]];
      if next[e].Some? {
        prev := prev[next[e].value := NextOf(e)];
      }
      next := next[at := Some(e)];
    }

    /** LIST_REMOVE */
    method Remove(e: nat, ghost q: seq<nat>, ghost i: nat)
      requires Linked(L(), q) && i < |q| && q[i] == e
      modifies this
      ensures Linked(L(), Without(q, i)) && L() == ListUnlinked(old(L()), e)
    {
      ListUnlinkIsDelete(L(), q, i);
      assert next[e] == ElemAt(q, i + 1) && prev[e] == CellBefore(q, i);
      if next[e].Some? {
        prev := prev[next[e].value := prev[e]];
      }
      match prev[e]
      case First => first := next[e];
      case NextOf(p) => next := next[p := next[e]];
    }
  }
}
