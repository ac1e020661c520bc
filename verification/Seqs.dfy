/** Sequence vocabulary shared by the queue models: a queue is the sequence of its
    elements from `LIST_FIRST` to `LIST_LAST`. */
module Seqs {

  datatype Option<+T> = None | Some(value: T)

  ghost predicate NoDup<T>(q: seq<T>) {
    forall i, j :: 0 <= i < j < |q| ==> q[i] != q[j]
  }

  function Reverse<T>(q: seq<T>): (r: seq<T>)
    ensures |r| == |q|
    ensures forall i :: 0 <= i < |q| ==> r[i] == q[|q| - 1 - i]
  {
    if q == [] then [] else Reverse(q[1..]) + [q[0]]
  }

  /** The elements of `q` that are in `keep`, in their order. */
  function Only<T>(q: seq<T>, keep: set<T>): (r: seq<T>)
    ensures |r| <= |q|
  {
    if q == [] then []
    else (if q[0] in keep then [q[0]] else []) + Only(q[1..], keep)
  }

  /** `q` with its first occurrence of `x` unlinked. */
  function Without<T(==)>(q: seq<T>, x: T): (r: seq<T>)
    ensures x !in q ==> r == q
    ensures x in q ==> |r| == |q| - 1
  {
    if q == [] then [] else if q[0] == x then q[1..] else [q[0]] + Without(q[1..], x)
  }

  /** How many elements leave a first-in first-out queue before `x` does: those nearer
      the tail than `x`. */
  function Ahead<T(==)>(q: seq<T>, x: T): (r: nat)
    requires x in q
    ensures r < |q|
  {
    if q[0] == x then |q| - 1 else Ahead(q[1..], x)
  }

  /** `r` is `q` with `x` linked in at position `i`. */
  ghost predicate IsInserted<T>(r: seq<T>, q: seq<T>, i: nat, x: T) {
    && i <= |q| && |r| == |q| + 1
    && (forall j :: 0 <= j < i ==> r[j] == q[j]) && r[i] == x
    && (forall j :: i < j < |r| ==> r[j] == q[j - 1])
  }

  /** `r` is `q` without the element at position `i`. */
  ghost predicate IsRemoved<T>(r: seq<T>, q: seq<T>, i: nat) {
    && i < |q| && |r| == |q| - 1
    && (forall j :: 0 <= j < i ==> r[j] == q[j])
    && (forall j :: i <= j < |r| ==> r[j] == q[j + 1])
  }

  lemma InsertInto<T>(q: seq<T>, i: nat, x: T) returns (r: seq<T>)
    requires i <= |q|
    ensures IsInserted(r, q, i, x)
    ensures NoDup(q) && x !in q ==> NoDup(r)
    ensures forall y :: y in r <==> y in q || y == x
  {
    r := q[..i] + [x] + q[i..];
    forall j | i < j < |r| ensures r[j] == q[j - 1] { assert r[j] == q[i..][j - i - 1]; }
    InsertedMembers(r, q, i, x);
  }

  lemma InsertedMembers<T>(r: seq<T>, q: seq<T>, i: nat, x: T)
    requires IsInserted(r, q, i, x)
    ensures forall y :: y in r <==> y in q || y == x
    ensures NoDup(q) && x !in q ==> NoDup(r)
  {
    forall y | y in q ensures y in r {
      var j :| 0 <= j < |q| && q[j] == y;
      assert r[if j < i then j else j + 1] == y;
    }
  }

  lemma RemoveFrom<T>(q: seq<T>, i: nat) returns (r: seq<T>)
    requires i < |q|
    ensures IsRemoved(r, q, i)
    ensures NoDup(q) ==> NoDup(r) && q[i] !in r
    ensures forall y :: y in q <==> y in r || y == q[i]
  {
    r := q[..i] + q[i + 1..];
    forall j | i <= j < |r| ensures r[j] == q[j + 1] { assert r[j] == q[i + 1..][j - i]; }
    assert q == q[..i] + [q[i]] + q[i + 1..];
  }

  lemma {:induction false} OnlyMember<T>(q: seq<T>, keep: set<T>, x: T)
    ensures x in Only(q, keep) <==> x in q && x in keep
  {
    if q != [] {
      OnlyMember(q[1..], keep, x);
      assert q == [q[0]] + q[1..];
    }
  }

  lemma {:induction false} OnlyNoDup<T>(q: seq<T>, keep: set<T>)
    requires NoDup(q)
    ensures NoDup(Only(q, keep))
  {
    if q != [] {
      OnlyNoDup(q[1..], keep);
      OnlyMember(q[1..], keep, q[0]);
      assert q[0] !in q[1..];
    }
  }

  lemma AppendAssociative<T>(a: seq<T>, b: seq<T>, c: seq<T>)
    ensures a + (b + c) == a + b + c
  {
  }

  lemma {:induction false} OnlyAppend<T>(a: seq<T>, b: seq<T>, keep: set<T>)
    ensures Only(a + b, keep) == Only(a, keep) + Only(b, keep)
  {
    if a == [] {
      assert a + b == b;
      assert Only(a, keep) == [];
    } else {
      OnlyAppend(a[1..], b, keep);
      var first := if a[0] in keep then [a[0]] else [];
      var rest := Only(a[1..], keep);
      calc {
        Only(a + b, keep);
        { assert (a + b)[0] == a[0] && (a + b)[1..] == a[1..] + b; }
        first + Only(a[1..] + b, keep);
        first + (rest + Only(b, keep));
        { AppendAssociative(first, rest, Only(b, keep)); }
        first + rest + Only(b, keep);
      }
    }
  }

  lemma {:induction false} OnlyAll<T>(q: seq<T>, keep: set<T>)
    requires forall x :: x in q ==> x in keep
    ensures Only(q, keep) == q
  {
    if q != [] {
      OnlyAll(q[1..], keep);
      assert q == [q[0]] + q[1..];
    }
  }

  lemma {:induction false} OnlyNone<T>(q: seq<T>, keep: set<T>)
    requires forall x :: x in q ==> x !in keep
    ensures Only(q, keep) == []
  {
    if q != [] { OnlyNone(q[1..], keep); }
  }

  lemma ReverseMember<T>(q: seq<T>, x: T)
    ensures x in Reverse(q) <==> x in q
  {
    if x in q {
      var i :| 0 <= i < |q| && q[i] == x;
      assert Reverse(q)[|q| - 1 - i] == x;
    }
  }

  lemma {:induction false} ReverseAppend<T>(a: seq<T>, x: T)
    ensures Reverse(a + [x]) == [x] + Reverse(a)
  {
    if a == [] {
    } else {
      assert (a + [x])[1..] == a[1..] + [x];
      ReverseAppend(a[1..], x);
    }
  }

  lemma {:induction false} WithoutMiddle<T>(a: seq<T>, x: T, b: seq<T>)
    requires x !in a
    ensures Without(a + [x] + b, x) == a + b
  {
    var q := a + [x] + b;
    if a == [] {
      assert q[1..] == a + b;
    } else {
      assert q[1..] == a[1..] + [x] + b;
      WithoutMiddle(a[1..], x, b);
      assert a + b == [a[0]] + (a[1..] + b);
    }
  }

  lemma {:induction false} WithoutMember<T>(q: seq<T>, x: T, y: T)
    requires NoDup(q)
    ensures y in Without(q, x) <==> y in q && y != x
  {
    if q != [] {
      assert q == [q[0]] + q[1..];
      if q[0] != x { WithoutMember(q[1..], x, y); }
    }
  }

  lemma {:induction false} WithoutNoDup<T>(q: seq<T>, x: T)
    requires NoDup(q)
    ensures NoDup(Without(q, x))
  {
    if q != [] && q[0] != x {
      WithoutNoDup(q[1..], x);
      WithoutMember(q[1..], x, q[0]);
    }
  }

  /** Newcomers are inserted at the head, so they do not delay anybody. */
  lemma {:induction false} AheadPrefix<T>(a: seq<T>, q: seq<T>, x: T)
    requires x !in a && x in q
    ensures x in a + q && Ahead(a + q, x) == Ahead(q, x)
  {
    if a == [] {
      assert a + q == q;
    } else {
      assert (a + q)[1..] == a[1..] + q;
      AheadPrefix(a[1..], q, x);
      assert (a + q)[0] == a[0];
      assert x == (a + q)[1..][0..][0] || x in (a + q)[1..];
    }
  }

  /** Elements behind somebody in the sequence leave before it does. */
  lemma {:induction false} AheadSuffix<T>(a: seq<T>, q: seq<T>, x: T)
    requires x in a
    ensures x in a + q && Ahead(a + q, x) == Ahead(a, x) + |q|
  {
    assert (a + q)[0] == a[0];
    if a[0] != x {
      assert (a + q)[1..] == a[1..] + q;
      AheadSuffix(a[1..], q, x);
    }
  }

  /** Removing the tail brings everybody else one place closer. */
  lemma {:induction false} AheadDropLast<T>(q: seq<T>, x: T)
    requires NoDup(q) && x in q && x != q[|q| - 1]
    ensures x in q[..|q| - 1] && Ahead(q[..|q| - 1], x) == Ahead(q, x) - 1
  {
    var r := q[..|q| - 1];
    if q[0] != x {
      assert q[1..][..|q| - 2] == r[1..];
      AheadDropLast(q[1..], x);
    } else {
      assert r[0] == x;
    }
  }

  lemma {:induction false} AheadWithout<T>(q: seq<T>, y: T, x: T)
    requires NoDup(q) && x in q && x != y
    ensures x in Without(q, y) && Ahead(Without(q, y), x) <= Ahead(q, x)
  {
    if q[0] == y {
      assert q[0] != x;
    } else if q[0] != x {
      AheadWithout(q[1..], y, x);
      assert Without(q, y)[1..] == Without(q[1..], y);
    }
  }

  lemma {:induction false} AheadIndex<T>(q: seq<T>, i: nat)
    requires NoDup(q) && i < |q|
    ensures q[i] in q && Ahead(q, q[i]) == |q| - 1 - i
  {
    if i > 0 {
      assert q[1..][i - 1] == q[i];
      AheadIndex(q[1..], i - 1);
    }
  }

  /** Leaving elements out does not change the order of the others. */
  lemma {:induction false} OnlyOrder<T>(q: seq<T>, keep: set<T>, x: T, y: T)
    requires NoDup(q) && x in q && y in q && x in keep && y in keep && Ahead(q, x) < Ahead(q, y)
    ensures x in Only(q, keep) && y in Only(q, keep) && Ahead(Only(q, keep), x) < Ahead(Only(q, keep), y)
  {
    OnlyMember(q, keep, x);
    OnlyMember(q, keep, y);
    assert q[0] != x;
    var rest := Only(q[1..], keep);
    if q[0] == y {
      OnlyMember(q[1..], keep, x);
      assert Only(q, keep) == [y] + rest;
      assert Only(q, keep)[1..] == rest;
    } else {
      OnlyOrder(q[1..], keep, x, y);
      if q[0] in keep { assert Only(q, keep)[1..] == rest; } else { assert Only(q, keep) == rest; }
    }
  }

  lemma ReverseNoDup<T>(q: seq<T>)
    requires NoDup(q)
    ensures NoDup(Reverse(q))
  {
    forall i, j | 0 <= i < j < |q| ensures Reverse(q)[i] != Reverse(q)[j] {
      assert q[|q| - 1 - j] != q[|q| - 1 - i];
    }
  }

  /** Reversing a queue turns its order round. */
  lemma ReverseAhead<T>(q: seq<T>, x: T)
    requires NoDup(q) && x in q
    ensures x in Reverse(q) && Ahead(Reverse(q), x) == |q| - 1 - Ahead(q, x)
  {
    var i :| 0 <= i < |q| && q[i] == x;
    AheadIndex(q, i);
    ReverseNoDup(q);
    var j := |q| - 1 - i;
    assert Reverse(q)[j] == x;
    AheadIndex(Reverse(q), j);
  }

  /** A duplicate-free sequence whose elements lie in `s` is no longer than `s` is large. */
  lemma {:induction false} NoDupCard<T>(q: seq<T>, s: set<T>)
    requires NoDup(q)
    requires forall x :: x in q ==> x in s
    ensures |q| <= |s|
  {
    if q != [] {
      forall x | x in q[1..] ensures x in s - {q[0]} {}
      NoDupCard(q[1..], s - {q[0]});
    }
  }

  /** ... and exactly as long when it lists all of `s`. */
  lemma {:induction false} NoDupCardExact<T>(q: seq<T>, s: set<T>)
    requires NoDup(q)
    requires forall x :: x in q <==> x in s
    ensures |q| == |s|
  {
    if q == [] {
      assert s == {};
    } else {
      forall x ensures x in q[1..] <==> x in s - {q[0]} {
        assert q == [q[0]] + q[1..];
      }
      NoDupCardExact(q[1..], s - {q[0]});
    }
  }

  lemma SubsetCard<T>(a: set<T>, b: set<T>)
    requires a <= b
    ensures |a| <= |b|
  {
    assert b == a + (b - a);
  }

  /** Three disjoint sets that make up a fourth. */
  lemma PartitionCard<T>(a: set<T>, b: set<T>, c: set<T>, all: set<T>)
    requires forall x :: x in a ==> x !in b
    requires forall x :: x in c ==> x !in a && x !in b
    requires forall x :: x in all <==> x in a || x in b || x in c
    ensures |a| + |b| + |c| == |all|
  {
    assert a !! b && (a + b) !! c;
    assert |a + b| == |a| + |b|;
    assert all == a + b + c;
  }

  lemma NoDupAppend<T>(a: seq<T>, b: seq<T>)
    requires NoDup(a) && NoDup(b) && forall x :: x in a ==> x !in b
    ensures NoDup(a + b)
  {
    forall i, j | 0 <= i < j < |a + b| ensures (a + b)[i] != (a + b)[j] {
      if i < |a| <= j { assert a[i] in a && b[j - |a|] in b; }
    }
  }

  lemma OnlyStep<T>(q: seq<T>, j: nat, keep: set<T>)
    requires j < |q|
    ensures Only(q[..j + 1], keep) == Only(q[..j], keep) + if q[j] in keep then [q[j]] else []
  {
    assert q[..j + 1] == q[..j] + [q[j]];
    OnlyAppend(q[..j], [q[j]], keep);
  }

  /** Start and end of a walk over `q` that unlinks the elements outside `keep`. */
  lemma UnlinkEnds<T>(q: seq<T>, keep: set<T>)
    ensures Only(q[..0], keep) + q[0..] == q
    ensures Only(q[..|q|], keep) + q[|q|..] == Only(q, keep)
  {
    assert q[..|q|] == q;
  }

  /** One turn of a walk over `q` that unlinks the elements outside `keep`. */
  lemma UnlinkStep<T>(q: seq<T>, j: nat, keep: set<T>)
    requires NoDup(q) && j < |q|
    ensures q[j] in keep ==> Only(q[..j + 1], keep) + q[j + 1..] == Only(q[..j], keep) + q[j..]
    ensures q[j] !in keep ==>
      Only(q[..j + 1], keep) + q[j + 1..] == Without(Only(q[..j], keep) + q[j..], q[j])
  {
    OnlyStep(q, j, keep);
    var a := Only(q[..j], keep);
    OnlyMember(q[..j], keep, q[j]);
    assert a + q[j..] == a + [q[j]] + q[j + 1..];
    if q[j] !in keep { WithoutMiddle(a, q[j], q[j + 1..]); }
  }
}
