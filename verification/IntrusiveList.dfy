/** The intrusive doubly linked list macros: pointers and size, proved to be a sequence. */
module IntrusiveList {
  import opened Seqs

  /** An element with its embedded `LIST_ENTRY`. */
  class Elem {
    var next: Elem?
    var prev: Elem?
  }

  ghost function Cells(elems: seq<Elem>): (r: set<Elem>) { set e | e in elems }

  function At(elems: seq<Elem>, i: int): (r: Elem?) { if 0 <= i < |elems| then elems[i] else null }

  /** All neighbours are linked, except into the positions `a` and `b`. */
  ghost predicate LinksBut(elems: seq<Elem>, a: int, b: int)
    reads Cells(elems)
  {
    forall i, j :: 0 <= i && j == i + 1 < |elems| && j != a && j != b ==>
      elems[i].next == elems[j] && elems[j].prev == elems[i]
  }

  /** `first` and `last` are the ends of the chain. */
  ghost predicate Ends(elems: seq<Elem>, first: Elem?, last: Elem?)
    reads Cells(elems)
  {
    && first == At(elems, 0) && last == At(elems, |elems| - 1)
    && (elems != [] ==> elems[0].prev == null && elems[|elems| - 1].next == null)
  }

  /** `elems` is the list from `first` to `last`. */
  ghost predicate Shape(elems: seq<Elem>, first: Elem?, last: Elem?)
    reads Cells(elems)
  {
    NoDup(elems) && LinksBut(elems, 0, 0) && Ends(elems, first, last)
  }

  lemma LinksInserted(elems: seq<Elem>, i: nat, e: Elem, elems': seq<Elem>, first: Elem?, last: Elem?)
    requires IsInserted(elems', elems, i, e) && NoDup(elems') && LinksBut(elems, i, i)
    requires e.next == At(elems, i) && e.prev == At(elems, i - 1)
    requires (i > 0 ==> elems[i - 1].next == e) && (i < |elems| ==> elems[i].prev == e)
    requires if i > 0 then first == elems[0] && elems[0].prev == null else first == e
    requires if i < |elems| then last == elems[|elems| - 1] && elems[|elems| - 1].next == null else last == e
    ensures Shape(elems', first, last)
  {
    forall j, k | 0 <= j && k == j + 1 < |elems'| ensures elems'[j].next == elems'[k] && elems'[k].prev == elems'[j] {
      if k < i {
        assert elems[j].next == elems[k];
      } else if j > i {
        var j', k' := j - 1, k - 1;
        assert elems[j'].next == elems[k'];
      }
    }
  }

  /** The neighbours of position `i`, and the ends, pass it by. */
  ghost predicate Bypassed(elems: seq<Elem>, i: nat, first: Elem?, last: Elem?)
    requires i < |elems|
    reads Cells(elems)
  {
    && LinksBut(elems, i, i + 1)
    && (i > 0 ==> elems[i - 1].next == At(elems, i + 1) && elems[0].prev == null)
    && (i + 1 < |elems| ==> elems[i + 1].prev == At(elems, i - 1) && elems[|elems| - 1].next == null)
    && first == At(elems, if i == 0 then 1 else 0)
    && last == At(elems, if i == |elems| - 1 then i - 1 else |elems| - 1)
  }

  lemma LinksRemoved(elems: seq<Elem>, i: nat, elems': seq<Elem>, first: Elem?, last: Elem?)
    requires IsRemoved(elems', elems, i) && NoDup(elems') && Bypassed(elems, i, first, last)
    ensures Shape(elems', first, last)
  {
    forall j, k | 0 <= j && k == j + 1 < |elems'| ensures elems'[j].next == elems'[k] && elems'[k].prev == elems'[j] {
      if k < i {
        assert elems[j].next == elems[k];
      } else if j >= i {
        var j', k' := j + 1, k + 1;
        assert elems[j'].next == elems[k'];
      }
    }
  }

  lemma ElemsInserted(elems: seq<Elem>, i: nat, e: Elem) returns (elems': seq<Elem>)
    requires NoDup(elems) && i <= |elems| && e !in elems
    ensures IsInserted(elems', elems, i, e) && NoDup(elems') && Cells(elems') == Cells(elems) + {e}
  {
    elems' := InsertInto(elems, i, e);
  }

  lemma ElemsRemoved(elems: seq<Elem>, i: nat) returns (elems': seq<Elem>)
    requires NoDup(elems) && i < |elems|
    ensures IsRemoved(elems', elems, i) && NoDup(elems') && Cells(elems') == Cells(elems) - {elems[i]}
    ensures elems' == Without(elems, elems[i])
  {
    elems' := RemoveFrom(elems, i);
    var a, b := elems[..i], elems[i + 1..];
    assert elems == a + [elems[i]] + b;
    WithoutMiddle(a, elems[i], b);
    assert elems' == a + b;
  }

  lemma HeadInserted(elems: seq<Elem>, e: Elem, elems': seq<Elem>)
    requires IsInserted(elems', elems, 0, e)
    ensures elems' == [e] + elems
  {
  }

  lemma TailInserted(elems: seq<Elem>, e: Elem, elems': seq<Elem>)
    requires IsInserted(elems', elems, |elems|, e)
    ensures elems' == elems + [e]
  {
  }

  /** `elems'` is `elems` with `e` right behind `other`. */
  ghost predicate PlacedAfter(elems': seq<Elem>, elems: seq<Elem>, other: Elem, e: Elem) {
    exists i: nat :: i < |elems| && elems[i] == other && IsInserted(elems', elems, i + 1, e)
  }

  ghost predicate PlacedBefore(elems': seq<Elem>, elems: seq<Elem>, other: Elem, e: Elem) {
    exists i: nat :: i < |elems| && elems[i] == other && IsInserted(elems', elems, i, e)
  }

  class List {
    var first: Elem?
    var last: Elem?
    var size: nat
    /** `___ptr_next`, used by `LIST_FOREACH`. */
    var following: Elem?
    ghost var elems: seq<Elem>

    ghost predicate Valid()
      reads this, Cells(elems)
    {
      size == |elems| && Shape(elems, first, last)
    }

    /** `LIST_INIT`. */
    method Init()
      modifies this
      ensures Valid() && elems == []
    {
      first, last, size := null, null, 0;
      elems := [];
    }

    /** `LIST_INSERT_HEAD`. */
    method InsertHead(e: Elem)
      requires Valid() && e !in elems
      modifies this, e, Cells(elems)`prev
      ensures Valid() && elems == [e] + old(elems) && following == old(following)
    {
      ghost var was := elems;
      e.next := first;
      if e.next != null { first.prev := e; } else { last := e; }
      first := e;
      e.prev := null;
      size := size + 1;
      elems := ElemsInserted(was, 0, e);
      LinksInserted(was, 0, e, elems, first, last);
      HeadInserted(was, e, elems);
    }

    /** `LIST_INSERT_TAIL`. */
    method InsertTail(e: Elem)
      requires Valid() && e !in elems
      modifies this, e, Cells(elems)`next
      ensures Valid() && elems == old(elems) + [e] && following == old(following)
    {
      ghost var was := elems;
      e.prev := last;
      if e.prev != null { last.next := e; } else { first := e; }
      last := e;
      e.next := null;
      size := size + 1;
      elems := ElemsInserted(was, |was|, e);
      LinksInserted(was, |was|, e, elems, first, last);
      TailInserted(was, e, elems);
    }

    /** `LIST_INSERT_AFTER`. */
    method InsertAfter(other: Elem, e: Elem)
      requires Valid() && other in elems && e !in elems
      modifies this, e, Cells(elems)
      ensures Valid() && PlacedAfter(elems, old(elems), other, e) && following == old(following)
    {
      ghost var was := elems;
      ghost var i: nat :| i < |was| && was[i] == other;
      NextIs(i);
      e.next := other.next;
      if e.next != null { other.next.prev := e; }
      other.next := e;
      e.prev := other;
      if e.next == null { last := e; }
      size := size + 1;
      elems := ElemsInserted(was, i + 1, e);
      LinksInserted(was, i + 1, e, elems, first, last);
    }

    /** `LIST_INSERT_BEFORE`. */
    method InsertBefore(other: Elem, e: Elem)
      requires Valid() && other in elems && e !in elems
      modifies this, e, Cells(elems)
      ensures Valid() && PlacedBefore(elems, old(elems), other, e) && following == old(following)
    {
      ghost var was := elems;
      ghost var i: nat :| i < |was| && was[i] == other;
      PrevIs(i);
      e.prev := other.prev;
      e.next := other;
      if other.prev != null { other.prev.next := e; } else { first := e; }
      other.prev := e;
      size := size + 1;
      elems := ElemsInserted(was, i, e);
      LinksInserted(was, i, e, elems, first, last);
    }

    lemma NextIs(i: nat)
      requires Valid() && i < |elems|
      ensures elems[i].next == At(elems, i + 1)
    {
      var j := i + 1;
      if j < |elems| { assert elems[i].next == elems[j]; }
    }

    lemma PrevIs(i: nat)
      requires Valid() && i < |elems|
      ensures elems[i].prev == At(elems, i - 1)
    {
      if i > 0 {
        var j := i - 1;
        assert elems[i].prev == elems[j];
      }
    }

    /** The first half of `LIST_REMOVE`: redirect the pointers that lead to `e`. */
    method Bypass(e: Elem, ghost i: nat)
      requires Valid() && i < |elems| && elems[i] == e
      modifies this`first, this`last, Cells(elems) - {e}
      ensures Bypassed(elems, i, first, last)
    {
      NextIs(i);
      PrevIs(i);
      if e.next != null { e.next.prev := e.prev; } else { last := e.prev; }
      if e.prev != null { e.prev.next := e.next; } else { first := e.next; }
    }

    /** `e` leaves the list, with its own pointers still set. */
    method Detach(e: Elem, ghost i: nat)
      requires Valid() && i < |elems| && elems[i] == e
      modifies this`first, this`last, this`size, this`elems, Cells(elems) - {e}
      ensures Valid() && elems == Without(old(elems), e) && Cells(elems) == old(Cells(elems)) - {e}
    {
      ghost var was := elems;
      Bypass(e, i);
      size := size - 1;
      elems := ElemsRemoved(was, i);
      LinksRemoved(was, i, elems, first, last);
    }

    /** `LIST_REMOVE`. */
    method Remove(e: Elem)
      requires Valid() && e in elems
      modifies this`first, this`last, this`size, this`elems, Cells(elems)
      ensures Valid() && elems == Without(old(elems), e) && e.next == null && e.prev == null
      ensures Cells(elems) == old(Cells(elems)) - {e}
    {
      ghost var i: nat :| i < |elems| && elems[i] == e;
      Detach(e, i);
      e.next := null;
      e.prev := null;
    }

    /** One turn of `LIST_FOREACH`: fetch the next element, then run a body that removes
        `cur` unless it is in `keep`. */
    method Visit(cur: Elem, keep: set<Elem>, ghost all: seq<Elem>, ghost i: nat)
      requires Valid() && NoDup(all) && i < |all| && cur == all[i] && elems == Walked(all, i, keep)
      modifies this, Cells(elems)
      ensures Valid() && elems == Walked(all, i + 1, keep)
      ensures following == At(all, i + 1) && Cells(elems) <= old(Cells(elems))
    {
      ghost var k := WalkedAt(all, i, keep);
      NextIs(k);
      following := cur.next;
      WalkedStep(all, i, keep);
      if cur !in keep { Remove(cur); }
    }

    /** `LIST_FOREACH` with a body that removes the elements outside `keep`: it sees every
        element of the original list once, in order. */
    method ForEach(keep: set<Elem>) returns (visited: seq<Elem>)
      requires Valid()
      modifies this, Cells(elems)
      ensures visited == old(elems)
      ensures Valid() && elems == Only(old(elems), keep)
    {
      ghost var all := elems;
      visited := [];
      var cur := first;
      ghost var i := 0;
      WalkedEnds(all, keep);
      while cur != null
        invariant Valid() && 0 <= i <= |all| && cur == At(all, i)
        invariant elems == Walked(all, i, keep)
        invariant Cells(elems) <= old(Cells(elems))
        invariant visited == all[..i]
        decreases |all| - i
      {
        var e: Elem := cur;
        PrefixStep(all, i);
        Visit(e, keep, all, i);
        visited := visited + [e];
        cur := following;
        i := i + 1;
      }
      assert all[..i] == all;
    }
  }

  lemma PrefixStep(all: seq<Elem>, i: nat)
    requires i < |all|
    ensures all[..i + 1] == all[..i] + [all[i]]
  {
  }

  /** The list when a walk over `all` has passed `i` elements. */
  ghost function Walked(all: seq<Elem>, i: nat, keep: set<Elem>): (r: seq<Elem>)
    requires i <= |all|
  {
    Only(all[..i], keep) + all[i..]
  }

  lemma WalkedEnds(all: seq<Elem>, keep: set<Elem>)
    ensures Walked(all, 0, keep) == all && Walked(all, |all|, keep) == Only(all, keep)
  {
    UnlinkEnds(all, keep);
  }

  lemma WalkedStep(all: seq<Elem>, i: nat, keep: set<Elem>)
    requires NoDup(all) && i < |all|
    ensures Walked(all, i + 1, keep) == if all[i] in keep then Walked(all, i, keep) else Without(Walked(all, i, keep), all[i])
  {
    UnlinkStep(all, i, keep);
  }

  /** The current element and the one after it are still neighbours. */
  lemma WalkedAt(all: seq<Elem>, i: nat, keep: set<Elem>) returns (k: nat)
    requires i < |all|
    ensures var q := Walked(all, i, keep);
      k < |q| && q[k] == all[i] && all[i] in q && At(q, k + 1) == At(all, i + 1)
  {
    k := |Only(all[..i], keep)|;
    var q := Walked(all, i, keep);
    assert q[k] == all[i..][0];
    if i + 1 < |all| { assert q[k + 1] == all[i..][1]; }
  }
}
