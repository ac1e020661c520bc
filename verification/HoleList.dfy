/** The user heap's list of holes: filing, exact fit, worst fit and merging, on values. */
module HoleList {
  import opened Seqs

  const USER_HEAP_MAX: nat := 0xA000_0000

  /** A hole starts at a byte address and is a number of 4 KB pages long. */
  datatype Hole = Hole(start: nat, pages: nat)

  function End(h: Hole): (r: nat) { h.start + h.pages * 4096 }

  predicate In(h: Hole, a: nat) { h.start <= a < End(h) }

  /** Some hole of the list contains the address. */
  predicate Covers(q: seq<Hole>, a: nat) { q != [] && (In(q[0], a) || Covers(q[1..], a)) }

  predicate Apart(h: Hole, k: Hole) { End(h) <= k.start || End(k) <= h.start }

  /** Sorted and disjoint, without empty holes. */
  ghost predicate Ok(q: seq<Hole>) {
    && (forall i :: 0 <= i < |q| ==> q[i].pages > 0)
    && (forall i, j :: 0 <= i < j < |q| ==> End(q[i]) <= q[j].start)
  }

  ghost predicate Aligned(q: seq<Hole>) { forall i :: 0 <= i < |q| ==> q[i].start % 4096 == 0 }

  predicate HasStart(q: seq<Hole>, start: nat) { q != [] && (q[0].start == start || HasStart(q[1..], start)) }

  // ----- FREEblockk

  /** Insert in front of the first hole that does not start below `h`. */
  function Place(q: seq<Hole>, h: Hole): (r: seq<Hole>) {
    if q == [] || q[0].start >= h.start then [h] + q else [q[0]] + Place(q[1..], h)
  }

  /** A hole with no pages, or with a start that is already listed, is ignored. */
  function Filed(q: seq<Hole>, start: nat, pages: nat): (r: seq<Hole>) {
    if pages == 0 || HasStart(q, start) then q else Place(q, Hole(start, pages))
  }

  lemma {:induction false} PlaceCovers(q: seq<Hole>, h: Hole, a: nat)
    ensures Covers(Place(q, h), a) <==> Covers(q, a) || In(h, a)
  {
    if q == [] || q[0].start >= h.start {
      assert ([h] + q)[1..] == q;
    } else {
      PlaceCovers(q[1..], h, a);
      assert Place(q, h)[1..] == Place(q[1..], h);
    }
  }

  /** Where `Place` puts its hole. */
  lemma {:induction false} PlaceAt(q: seq<Hole>, h: Hole) returns (i: nat)
    ensures i <= |q| && Place(q, h) == q[..i] + [h] + q[i..]
    ensures forall j :: 0 <= j < i ==> q[j].start < h.start
    ensures i < |q| ==> q[i].start >= h.start
  {
    if q == [] || q[0].start >= h.start {
      i := 0;
      assert q[..0] + [h] + q[0..] == [h] + q;
    } else {
      var k := PlaceAt(q[1..], h);
      i := k + 1;
      assert q[..i] == [q[0]] + q[1..][..k];
      assert q[i..] == q[1..][k..];
    }
  }

  lemma {:induction false} HasStartIff(q: seq<Hole>, start: nat)
    ensures HasStart(q, start) <==> exists i :: 0 <= i < |q| && q[i].start == start
  {
    if q != [] {
      HasStartIff(q[1..], start);
      if i :| 0 <= i < |q| && q[i].start == start {
        if i > 0 { assert q[1..][i - 1].start == start; }
      }
      if HasStart(q[1..], start) {
        var i :| 0 <= i < |q[1..]| && q[1..][i].start == start;
        assert q[i + 1].start == start;
      }
    }
  }

  ghost predicate ApartFrom(q: seq<Hole>, h: Hole) { forall i :: 0 <= i < |q| ==> Apart(q[i], h) }

  /** Every hole starts at or above `low`. */
  ghost predicate From(q: seq<Hole>, low: nat) { forall i :: 0 <= i < |q| ==> q[i].start >= low }

  lemma {:induction false} PlaceFrom(q: seq<Hole>, h: Hole, low: nat)
    requires From(q, low) && h.start >= low
    ensures From(Place(q, h), low)
  {
    var i := PlaceAt(q, h);
  }

  lemma PrependOk(h: Hole, q: seq<Hole>)
    requires Ok(q) && h.pages > 0 && From(q, End(h))
    ensures Ok([h] + q)
  {
  }

  lemma {:induction false} PlaceOk(q: seq<Hole>, h: Hole)
    requires Ok(q) && h.pages > 0 && ApartFrom(q, h)
    ensures Ok(Place(q, h))
  {
    if q == [] {
    } else if q[0].start >= h.start {
      forall j | 0 <= j < |q| ensures q[j].start >= End(h) {
        assert Apart(q[j], h);
        PlaceAbove(q, h, 0, j);
      }
      PrependOk(h, q);
    } else {
      assert Apart(q[0], h);
      assert ApartFrom(q[1..], h);
      PlaceOk(q[1..], h);
      PlaceFrom(q[1..], h, End(q[0]));
      PrependOk(q[0], Place(q[1..], h));
    }
  }

  /** The list stays sorted and disjoint exactly when the new hole overlaps none of it. */
  lemma PlaceOkIff(q: seq<Hole>, h: Hole)
    requires Ok(q) && h.pages > 0
    ensures Ok(Place(q, h)) <==> ApartFrom(q, h)
  {
    if ApartFrom(q, h) {
      PlaceOk(q, h);
    } else {
      var j :| 0 <= j < |q| && !Apart(q[j], h);
      PlaceOverlaps(q, h, j);
    }
  }

  lemma PlaceOverlaps(q: seq<Hole>, h: Hole, j: nat)
    requires j < |q| && !Apart(q[j], h)
    ensures !Ok(Place(q, h))
  {
    var i := PlaceAt(q, h);
    var r := Place(q, h);
    var k := if j < i then j else j + 1;
    assert r[i] == h && r[k] == q[j] && i != k;
  }

  lemma PlaceAbove(q: seq<Hole>, h: Hole, i: nat, k: nat)
    requires Ok(q) && i <= k < |q| && q[i].start >= h.start
    ensures q[k].start >= h.start
  {
    if i < k { assert End(q[i]) <= q[k].start; }
  }

  /** Filing keeps the list exactly when the range is empty, its start is listed, or it
      overlaps no hole; and then a new range is covered from there on. */
  lemma FiledTheorem(q: seq<Hole>, start: nat, pages: nat)
    requires Ok(q)
    ensures Ok(Filed(q, start, pages)) <==> pages == 0 || HasStart(q, start) || ApartFrom(q, Hole(start, pages))
    ensures ApartFrom(q, Hole(start, pages)) ==>
      forall a :: Covers(Filed(q, start, pages), a) <==> Covers(q, a) || In(Hole(start, pages), a)
    ensures if pages == 0 || exists i :: 0 <= i < |q| && q[i].start == start then Filed(q, start, pages) == q
      else multiset(Filed(q, start, pages)) == multiset(q) + multiset{Hole(start, pages)} && SortedStarts(Filed(q, start, pages))
  {
    var h := Hole(start, pages);
    HasStartIff(q, start);
    PlaceElements(q, h);
    PlaceSorted(q, h);
    if pages > 0 && !HasStart(q, start) {
      PlaceOkIff(q, h);
      forall a: nat ensures Covers(Place(q, h), a) <==> Covers(q, a) || In(h, a) { PlaceCovers(q, h, a); }
    }
    if pages > 0 && HasStart(q, start) {
      HasStartIff(q, start);
      var i :| 0 <= i < |q| && q[i].start == start;
      assert !Apart(q[i], h);
    }
  }

  lemma FiledAligned(q: seq<Hole>, start: nat, pages: nat)
    requires Aligned(q) && start % 4096 == 0
    ensures Aligned(Filed(q, start, pages))
  {
    var i := PlaceAt(q, Hole(start, pages));
  }

  // ----- taking from a hole

  /** `n` pages taken from the front of hole `i`, or the whole hole. */
  function Taken(q: seq<Hole>, i: nat, n: nat): (r: seq<Hole>)
    requires i < |q| && n <= q[i].pages
  {
    if q[i].pages > n then q[i := Hole(q[i].start + n * 4096, q[i].pages - n)] else q[..i] + q[i + 1..]
  }

  lemma TakenFirst(q: seq<Hole>, n: nat, a: nat)
    requires Ok(q) && q != [] && n <= q[0].pages
    ensures Covers(Taken(q, 0, n), a) <==> Covers(q, a) && !In(Hole(q[0].start, n), a)
  {
    if q[0].pages > n {
      assert Taken(q, 0, n)[1..] == q[1..];
    } else {
      assert Taken(q, 0, n) == q[1..];
    }
    if Covers(q[1..], a) { RestAbove(q, a); }
  }

  lemma TakenLater(q: seq<Hole>, i: nat, n: nat)
    requires 0 < i < |q| && n <= q[i].pages
    ensures Taken(q, i, n) == [q[0]] + Taken(q[1..], i - 1, n)
  {
  }

  lemma {:induction false} TakenCovers(q: seq<Hole>, i: nat, n: nat, a: nat)
    requires Ok(q) && i < |q| && n <= q[i].pages
    ensures Covers(Taken(q, i, n), a) <==> Covers(q, a) && !In(Hole(q[i].start, n), a)
  {
    if i == 0 {
      TakenFirst(q, n, a);
    } else {
      TakenLater(q, i, n);
      TakenCovers(q[1..], i - 1, n, a);
      assert Taken(q, i, n)[1..] == Taken(q[1..], i - 1, n);
      assert End(q[0]) <= q[i].start;
    }
  }

  /** What the rest of the list covers lies above the first hole. */
  lemma {:induction false} RestAbove(q: seq<Hole>, a: nat)
    requires Ok(q) && q != [] && Covers(q[1..], a)
    ensures a >= End(q[0])
    decreases |q|
  {
    if !In(q[1], a) {
      var skip := [q[0]] + q[2..];
      assert skip[1..] == q[1..][1..];
      RestAbove(skip, a);
    }
  }

  lemma TakenOk(q: seq<Hole>, i: nat, n: nat)
    requires Ok(q) && i < |q| && n <= q[i].pages
    ensures Ok(Taken(q, i, n))
    ensures Aligned(q) ==> Aligned(Taken(q, i, n))
  {
  }

  // ----- EXACTTT

  /** The first hole of exactly `n` pages. */
  function ExactAt(q: seq<Hole>, n: nat): (r: Option<nat>)
    ensures r.Some? ==> r.value < |q| && q[r.value].pages == n && forall j :: 0 <= j < r.value ==> q[j].pages != n
    ensures r.None? ==> forall j :: 0 <= j < |q| ==> q[j].pages != n
  {
    if q == [] then None
    else if q[0].pages == n then Some(0)
    else match ExactAt(q[1..], n)
      case None => None
      case Some(i) => Some(i + 1)
  }

  /** The address handed out (rounded down to a page) and the list left behind. */
  function Exact(q: seq<Hole>, n: nat): (r: (Option<nat>, seq<Hole>)) {
    match ExactAt(q, n)
    case None => (None, q)
    case Some(i) => (Some(q[i].start - q[i].start % 4096), Taken(q, i, n))
  }

  /** The address is rounded down to a page, whatever the list. */
  lemma ExactRounds(q: seq<Hole>, n: nat)
    ensures Exact(q, n).0.Some? ==>
      var a := Exact(q, n).0.value;
      a % 4096 == 0 && exists i :: 0 <= i < |q| && q[i].pages == n && a <= q[i].start < a + 4096
  {
    var at := ExactAt(q, n);
    if at.Some? {
      var start := q[at.value].start;
      assert start - start % 4096 == 4096 * (start / 4096);
    }
  }

  // ----- WORSTTT

  predicate Fits(h: Hole, n: nat, low: nat) { low <= h.start < USER_HEAP_MAX && h.pages >= n && h.pages > 0 }

  /** Hole `i` is the first of the largest holes that fit. */
  ghost predicate IsWorst(q: seq<Hole>, n: nat, low: nat, i: nat) {
    && i < |q| && Fits(q[i], n, low)
    && (forall j :: 0 <= j < |q| && Fits(q[j], n, low) ==> q[j].pages <= q[i].pages)
    && (forall j :: 0 <= j < i && Fits(q[j], n, low) ==> q[j].pages < q[i].pages)
  }

  lemma WorstUnique(q: seq<Hole>, n: nat, low: nat, i: nat, k: nat)
    requires IsWorst(q, n, low, i) && IsWorst(q, n, low, k)
    ensures i == k
  {
  }

  lemma {:induction false} WorstExists(q: seq<Hole>, n: nat, low: nat, k: nat)
    requires k < |q| && Fits(q[k], n, low)
    ensures exists i: nat :: IsWorst(q, n, low, i)
    decreases |q|
  {
    var m := |q| - 1;
    var front := q[..m];
    if exists j :: 0 <= j < m && Fits(q[j], n, low) {
      var j :| 0 <= j < m && Fits(q[j], n, low);
      assert front[j] == q[j];
      WorstExists(front, n, low, j);
      var i: nat :| IsWorst(front, n, low, i);
      forall x | 0 <= x < m ensures front[x] == q[x] { }
      if Fits(q[m], n, low) && q[m].pages > q[i].pages {
        assert IsWorst(q, n, low, m);
      } else {
        assert IsWorst(q, n, low, i);
      }
    } else {
      assert IsWorst(q, n, low, m);
    }
  }

  ghost function WorstAt(q: seq<Hole>, n: nat, low: nat): (r: Option<nat>)
    ensures r.Some? ==> IsWorst(q, n, low, r.value)
    ensures r.None? <==> forall j :: 0 <= j < |q| ==> !Fits(q[j], n, low)
  {
    if i: nat :| IsWorst(q, n, low, i) then
      WorstUniqueAll(q, n, low, i);
      Some(i)
    else
      NoneFits(q, n, low);
      None
  }

  lemma WorstUniqueAll(q: seq<Hole>, n: nat, low: nat, i: nat)
    requires IsWorst(q, n, low, i)
    ensures forall k: nat :: IsWorst(q, n, low, k) ==> k == i
  {
    forall k: nat | IsWorst(q, n, low, k) ensures k == i { WorstUnique(q, n, low, i, k); }
  }

  lemma NoneFits(q: seq<Hole>, n: nat, low: nat)
    requires !exists i: nat :: IsWorst(q, n, low, i)
    ensures forall j :: 0 <= j < |q| ==> !Fits(q[j], n, low)
  {
    if j :| 0 <= j < |q| && Fits(q[j], n, low) { WorstExists(q, n, low, j); }
  }

  ghost function Worst(q: seq<Hole>, n: nat, low: nat): (r: (Option<nat>, seq<Hole>)) {
    match WorstAt(q, n, low)
    case None => (None, q)
    case Some(i) => (Some(q[i].start), Taken(q, i, n))
  }

  /** Both searches hand out `n` pages that were covered, and nothing else changes. */
  ghost predicate HandsOut(q: seq<Hole>, n: nat, r: (Option<nat>, seq<Hole>)) {
    && Ok(r.1) && Aligned(r.1)
    && (r.0.None? ==> r.1 == q)
    && (r.0.Some? ==> forall a :: In(Hole(r.0.value, n), a) ==> Covers(q, a))
    && (r.0.Some? ==> forall a :: Covers(r.1, a) <==> Covers(q, a) && !In(Hole(r.0.value, n), a))
  }

  lemma {:induction false} CoversHole(q: seq<Hole>, i: nat, a: nat)
    requires i < |q| && In(q[i], a)
    ensures Covers(q, a)
  {
    if i > 0 { CoversHole(q[1..], i - 1, a); }
  }

  lemma TakenHandsOut(q: seq<Hole>, i: nat, n: nat)
    requires Ok(q) && Aligned(q) && i < |q| && n <= q[i].pages
    ensures HandsOut(q, n, (Some(q[i].start), Taken(q, i, n)))
  {
    TakenOk(q, i, n);
    forall a: nat | In(Hole(q[i].start, n), a) ensures Covers(q, a) { CoversHole(q, i, a); }
    forall a: nat ensures Covers(Taken(q, i, n), a) <==> Covers(q, a) && !In(Hole(q[i].start, n), a) {
      TakenCovers(q, i, n, a);
    }
  }

  /** Exact fit hands out the first hole of exactly the size, if there is one. */
  lemma ExactTheorem(q: seq<Hole>, n: nat)
    requires Ok(q) && Aligned(q)
    ensures HandsOut(q, n, Exact(q, n))
    ensures Exact(q, n).0.Some? <==> exists i :: 0 <= i < |q| && q[i].pages == n
    ensures Exact(q, n).0.Some? ==> exists i ::
      && 0 <= i < |q| && q[i] == Hole(Exact(q, n).0.value, n) && (forall j :: 0 <= j < i ==> q[j].pages != n)
      && Exact(q, n).1 == q[..i] + q[i + 1..]
  {
    var at := ExactAt(q, n);
    if at.Some? {
      TakenHandsOut(q, at.value, n);
      assert q[at.value] == Hole(Exact(q, n).0.value, n);
    }
  }

  /** Hole `i` is the first of the largest with a start between `low` and the end of the heap,
      and `n` pages have been taken off its front. */
  ghost predicate TakesLargest(q: seq<Hole>, n: nat, low: nat, i: nat, r: (Option<nat>, seq<Hole>)) {
    && i < |q| && low <= q[i].start < USER_HEAP_MAX && q[i].pages >= n
    && (forall j :: 0 <= j < |q| && low <= q[j].start < USER_HEAP_MAX ==> q[j].pages <= q[i].pages)
    && (forall j :: 0 <= j < i && low <= q[j].start < USER_HEAP_MAX ==> q[j].pages < q[i].pages)
    && r.0 == Some(q[i].start)
    && r.1 == if q[i].pages == n then q[..i] + q[i + 1..] else q[i := Hole(q[i].start + n * 4096, q[i].pages - n)]
  }

  /** Worst fit hands out the front of the first largest hole that fits, if any fits. */
  lemma WorstTheorem(q: seq<Hole>, n: nat, low: nat)
    requires Ok(q) && Aligned(q)
    ensures HandsOut(q, n, Worst(q, n, low))
    ensures Worst(q, n, low).0.Some? <==>
      exists i :: 0 <= i < |q| && low <= q[i].start < USER_HEAP_MAX && q[i].pages >= n
    ensures Worst(q, n, low).0.Some? ==> exists i: nat :: TakesLargest(q, n, low, i, Worst(q, n, low))
  {
    var at := WorstAt(q, n, low);
    if at.Some? {
      TakenHandsOut(q, at.value, n);
      LargestTaken(q, n, low, at.value);
    }
    if i :| 0 <= i < |q| && low <= q[i].start < USER_HEAP_MAX && q[i].pages >= n { assert Fits(q[i], n, low); }
  }

  lemma LargestTaken(q: seq<Hole>, n: nat, low: nat, i: nat)
    requires Ok(q) && IsWorst(q, n, low, i)
    ensures TakesLargest(q, n, low, i, (Some(q[i].start), Taken(q, i, n)))
  {
    forall j | 0 <= j < |q| && low <= q[j].start < USER_HEAP_MAX
      ensures q[j].pages <= q[i].pages && (j < i ==> q[j].pages < q[i].pages)
    {
      if q[j].pages >= n { assert Fits(q[j], n, low); }
    }
  }

  // ----- MERGEE: insertion sort

  function SortInsert(q: seq<Hole>, h: Hole): (r: seq<Hole>) {
    if q == [] || h.start < q[0].start then [h] + q else [q[0]] + Place(q[1..], h)
  }

  function SortFrom(done: seq<Hole>, q: seq<Hole>): (r: seq<Hole>)
    decreases |q|
  {
    if q == [] then done else SortFrom(SortInsert(done, q[0]), q[1..])
  }

  ghost predicate SortedStarts(q: seq<Hole>) { forall i, j :: 0 <= i < j < |q| ==> q[i].start <= q[j].start }

  ghost predicate Increasing(q: seq<Hole>) { forall i, j :: 0 <= i < j < |q| ==> q[i].start < q[j].start }

  ghost predicate DistinctStarts(q: seq<Hole>) { forall i, j :: 0 <= i < j < |q| ==> q[i].start != q[j].start }

  lemma {:induction false} PlaceElements(q: seq<Hole>, h: Hole)
    ensures multiset(Place(q, h)) == multiset(q) + multiset{h}
  {
    var i := PlaceAt(q, h);
    assert q == q[..i] + q[i..];
  }

  lemma PlaceSorted(q: seq<Hole>, h: Hole)
    requires SortedStarts(q)
    ensures SortedStarts(Place(q, h))
  {
    var i := PlaceAt(q, h);
    var r := Place(q, h);
    forall j, k | 0 <= j < k < |r| ensures r[j].start <= r[k].start {
      if j == i { assert i < |q| && q[i].start <= q[k - 1].start; }
    }
  }

  lemma PrependSorted(h: Hole, q: seq<Hole>)
    requires SortedStarts(q) && From(q, h.start)
    ensures SortedStarts([h] + q)
  {
  }

  lemma InsertSorted(q: seq<Hole>, h: Hole)
    requires SortedStarts(q)
    ensures SortedStarts(SortInsert(q, h))
  {
    if q != [] {
      if h.start < q[0].start {
        assert From(q, h.start);
        PrependSorted(h, q);
      } else {
        PlaceSorted(q[1..], h);
        PlaceFrom(q[1..], h, q[0].start);
        PrependSorted(q[0], Place(q[1..], h));
      }
    }
  }

  lemma InsertElements(q: seq<Hole>, h: Hole)
    ensures multiset(SortInsert(q, h)) == multiset(q) + multiset{h}
  {
    if q != [] {
      PlaceElements(q[1..], h);
      assert q == [q[0]] + q[1..];
    }
  }

  lemma InsertCovers(q: seq<Hole>, h: Hole, a: nat)
    ensures Covers(SortInsert(q, h), a) <==> Covers(q, a) || In(h, a)
  {
    if q == [] || h.start < q[0].start {
      assert ([h] + q)[1..] == q;
    } else {
      PlaceCovers(q[1..], h, a);
      assert SortInsert(q, h)[1..] == Place(q[1..], h);
    }
  }

  /** The sort is a sort: ordered, with the same elements, covering the same addresses. */
  lemma {:induction false} SortTheorem(done: seq<Hole>, q: seq<Hole>)
    requires SortedStarts(done)
    ensures SortedStarts(SortFrom(done, q))
    ensures multiset(SortFrom(done, q)) == multiset(done) + multiset(q)
    decreases |q|
  {
    if q != [] {
      InsertSorted(done, q[0]);
      InsertElements(done, q[0]);
      SortTheorem(SortInsert(done, q[0]), q[1..]);
      assert q == [q[0]] + q[1..];
    }
  }

  lemma {:induction false} SortCovers(done: seq<Hole>, q: seq<Hole>, a: nat)
    ensures Covers(SortFrom(done, q), a) <==> Covers(done, a) || Covers(q, a)
    decreases |q|
  {
    if q != [] {
      InsertCovers(done, q[0], a);
      SortCovers(SortInsert(done, q[0]), q[1..], a);
    }
  }

  lemma {:induction false} PlaceLast(q: seq<Hole>, h: Hole)
    requires forall j :: 0 <= j < |q| ==> q[j].start < h.start
    ensures Place(q, h) == q + [h]
  {
    if q != [] {
      PlaceLast(q[1..], h);
      assert q == [q[0]] + q[1..];
    }
  }

  lemma InsertAtEnd(q: seq<Hole>, h: Hole)
    requires Increasing(q + [h])
    ensures SortInsert(q, h) == q + [h]
  {
    if q != [] {
      var r := q + [h];
      forall j | 0 <= j < |q| ensures q[j].start < h.start { assert r[j].start < r[|q|].start; }
      PlaceLast(q[1..], h);
      assert q == [q[0]] + q[1..];
    }
  }

  /** A list with increasing starts is left as it is. */
  lemma {:induction false} SortFixed(done: seq<Hole>, q: seq<Hole>)
    requires Increasing(done + q)
    ensures SortFrom(done, q) == done + q
    decreases |q|
  {
    if q != [] {
      var more := done + [q[0]];
      assert more + q[1..] == done + q;
      assert Increasing(more) by {
        forall i, j | 0 <= i < j < |more| ensures more[i].start < more[j].start {
          assert more[i] == (done + q)[i] && more[j] == (done + q)[j];
        }
      }
      InsertAtEnd(done, q[0]);
      SortFixed(more, q[1..]);
    } else {
      assert done + q == done;
    }
  }

  // ----- MERGEE: coalescing

  function Coalesce(q: seq<Hole>): (r: seq<Hole>)
    decreases |q|
  {
    if |q| < 2 then q
    else if End(q[0]) == q[1].start then Coalesce([Hole(q[0].start, q[0].pages + q[1].pages)] + q[2..])
    else [q[0]] + Coalesce(q[1..])
  }

  function Merged(q: seq<Hole>): (r: seq<Hole>) { if |q| < 2 then q else Coalesce(SortFrom([], q)) }

  /** No hole ends where the next one starts. */
  ghost predicate NoTouching(q: seq<Hole>) { forall i, j :: 0 <= i && j == i + 1 < |q| ==> End(q[i]) != q[j].start }

  /** The first two holes joined. */
  function Joined(q: seq<Hole>): (r: seq<Hole>)
    requires |q| >= 2
  {
    [Hole(q[0].start, q[0].pages + q[1].pages)] + q[2..]
  }

  lemma JoinedCovers(q: seq<Hole>, a: nat)
    requires |q| >= 2 && End(q[0]) == q[1].start
    ensures Covers(Joined(q), a) <==> Covers(q, a)
  {
    assert Joined(q)[1..] == q[2..] == q[1..][1..];
    assert Covers(q[1..], a) <==> In(q[1], a) || Covers(q[2..], a);
  }

  lemma {:induction false} CoalesceCovers(q: seq<Hole>, a: nat)
    ensures Covers(Coalesce(q), a) <==> Covers(q, a)
    decreases |q|
  {
    if |q| >= 2 {
      if End(q[0]) == q[1].start {
        JoinedCovers(q, a);
        CoalesceCovers(Joined(q), a);
      } else {
        CoalesceCovers(q[1..], a);
        assert Coalesce(q)[1..] == Coalesce(q[1..]);
      }
    }
  }

  lemma {:induction false} CoalesceHead(q: seq<Hole>)
    requires q != []
    ensures Coalesce(q) != [] && Coalesce(q)[0].start == q[0].start
    decreases |q|
  {
    if |q| >= 2 && End(q[0]) == q[1].start { CoalesceHead(Joined(q)); }
  }

  lemma {:induction false} CoalesceSeparates(q: seq<Hole>)
    ensures NoTouching(Coalesce(q))
    decreases |q|
  {
    if |q| >= 2 {
      if End(q[0]) == q[1].start {
        CoalesceSeparates(Joined(q));
      } else {
        CoalesceSeparates(q[1..]);
        CoalesceHead(q[1..]);
        var r := Coalesce(q);
        forall i, j | 0 <= i && j == i + 1 < |r| ensures End(r[i]) != r[j].start {
          if i > 0 { assert r[i] == Coalesce(q[1..])[i - 1] && r[j] == Coalesce(q[1..])[i]; }
        }
      }
    }
  }

  lemma {:induction false} CoalesceFixed(q: seq<Hole>)
    requires NoTouching(q)
    ensures Coalesce(q) == q
    decreases |q|
  {
    if |q| >= 2 {
      var i, j := 0, 1;
      assert End(q[i]) != q[j].start;
      forall x, y | 0 <= x && y == x + 1 < |q[1..]| ensures End(q[1..][x]) != q[1..][y].start {
        var x', y' := x + 1, y + 1;
        assert End(q[x']) != q[y'].start;
      }
      CoalesceFixed(q[1..]);
      assert q == [q[0]] + q[1..];
    }
  }

  lemma JoinedIncreasing(q: seq<Hole>)
    requires Increasing(q) && |q| >= 2
    ensures Increasing(Joined(q))
  {
    var r := Joined(q);
    forall i, j | 0 <= i < j < |r| ensures r[i].start < r[j].start {
      assert r[j] == q[j + 1];
      if i > 0 { assert r[i] == q[i + 1]; }
    }
  }

  /** Every later hole starts above `start`. */
  ghost predicate StartsAbove(q: seq<Hole>, start: nat) { forall i :: 0 <= i < |q| ==> q[i].start > start }

  lemma {:induction false} CoalesceAbove(q: seq<Hole>, start: nat)
    requires StartsAbove(q, start)
    ensures StartsAbove(Coalesce(q), start)
    decreases |q|
  {
    if |q| >= 2 {
      if End(q[0]) == q[1].start {
        assert StartsAbove(Joined(q), start);
        CoalesceAbove(Joined(q), start);
      } else {
        CoalesceAbove(q[1..], start);
      }
    }
  }

  lemma {:induction false} CoalesceIncreasing(q: seq<Hole>)
    requires Increasing(q)
    ensures Increasing(Coalesce(q))
    decreases |q|
  {
    if |q| >= 2 {
      if End(q[0]) == q[1].start {
        JoinedIncreasing(q);
        CoalesceIncreasing(Joined(q));
      } else {
        CoalesceIncreasing(q[1..]);
        CoalesceAbove(q[1..], q[0].start);
        var rest := Coalesce(q[1..]);
        forall j | 0 <= j < |rest| ensures q[0].start < rest[j].start { }
      }
    }
  }

  lemma JoinedOk(q: seq<Hole>)
    requires Ok(q) && |q| >= 2 && End(q[0]) == q[1].start
    ensures Ok(Joined(q)) && (Aligned(q) ==> Aligned(Joined(q)))
  {
    var r := Joined(q);
    forall i, j | 0 <= i < j < |r| ensures End(r[i]) <= r[j].start {
      assert r[j] == q[j + 1];
      if i > 0 { assert r[i] == q[i + 1]; } else { assert End(r[0]) == End(q[1]); }
    }
  }

  lemma {:induction false} CoalesceOk(q: seq<Hole>, low: nat)
    requires Ok(q) && From(q, low)
    ensures Ok(Coalesce(q)) && From(Coalesce(q), low)
    ensures Aligned(q) ==> Aligned(Coalesce(q))
    decreases |q|
  {
    if |q| >= 2 {
      if End(q[0]) == q[1].start {
        JoinedOk(q);
        CoalesceOk(Joined(q), low);
      } else {
        assert From(q[1..], End(q[0]));
        CoalesceOk(q[1..], End(q[0]));
        assert From([q[0]] + Coalesce(q[1..]), low);
      }
    }
  }

  lemma OkIncreasing(q: seq<Hole>)
    requires Ok(q)
    ensures Increasing(q)
  {
  }

  lemma {:induction false} DistinctSorted(q: seq<Hole>)
    requires DistinctStarts(q)
    ensures Increasing(SortFrom([], q))
  {
    var r := SortFrom([], q);
    SortTheorem([], q);
    forall i, j | 0 <= i < j < |r| ensures r[i].start < r[j].start {
      if r[i].start == r[j].start { SameStartTwice(q, r, i, j); }
    }
  }

  lemma SameStartTwice(q: seq<Hole>, r: seq<Hole>, i: nat, j: nat)
    requires multiset(r) == multiset(q) && i < j < |r| && r[i].start == r[j].start
    ensures !DistinctStarts(q)
  {
    if r[i] == r[j] {
      assert r == r[..i] + [r[i]] + r[i + 1..j] + [r[j]] + r[j + 1..];
      assert multiset(r)[r[i]] >= 2;
      TwiceIn(q, r[i]);
    } else {
      assert r[i] in multiset(r) && r[j] in multiset(r);
      assert r[i] in q && r[j] in q;
      var x :| 0 <= x < |q| && q[x] == r[i];
      var y :| 0 <= y < |q| && q[y] == r[j];
      assert x < y || y < x;
    }
  }

  lemma {:induction false} TwiceIn(q: seq<Hole>, h: Hole)
    requires multiset(q)[h] >= 2
    ensures !DistinctStarts(q)
  {
    var x :| 0 <= x < |q| && q[x] == h;
    assert q == q[..x] + [q[x]] + q[x + 1..];
    if h in q[..x] {
      var y :| 0 <= y < x && q[..x][y] == h;
      assert q[y] == h;
    } else {
      assert h in q[x + 1..];
      var y :| 0 <= y < |q[x + 1..]| && q[x + 1..][y] == h;
      assert q[x + 1 + y] == h;
    }
  }

  /** For any list: merging keeps the covered addresses and leaves no hole that ends where
      the next one starts. */
  lemma MergeTheorem(q: seq<Hole>)
    ensures forall a :: Covers(Merged(q), a) <==> Covers(q, a)
    ensures NoTouching(Merged(q))
  {
    if |q| >= 2 {
      forall a: nat ensures Covers(Merged(q), a) <==> Covers(q, a) {
        SortCovers([], q, a);
        CoalesceCovers(SortFrom([], q), a);
      }
      CoalesceSeparates(SortFrom([], q));
    }
  }

  lemma MergedIsCoalesced(q: seq<Hole>)
    requires Ok(q)
    ensures Merged(q) == Coalesce(q)
  {
    if |q| >= 2 {
      OkIncreasing(q);
      assert [] + q == q;
      SortFixed([], q);
    }
  }

  /** For a sorted, disjoint list: it stays so, and no two holes touch at all. */
  lemma MergeOk(q: seq<Hole>)
    requires Ok(q)
    ensures Ok(Merged(q)) && (Aligned(q) ==> Aligned(Merged(q)))
    ensures forall i, j :: 0 <= i < j < |Merged(q)| ==> End(Merged(q)[i]) < Merged(q)[j].start
  {
    MergedIsCoalesced(q);
    CoalesceOk(q, 0);
    CoalesceSeparates(q);
    var r := Merged(q);
    forall i, j | 0 <= i < j < |r| ensures End(r[i]) < r[j].start { Separate(r, i, j); }
  }

  lemma Separate(r: seq<Hole>, i: nat, j: nat)
    requires Ok(r) && NoTouching(r) && i < j < |r|
    ensures End(r[i]) < r[j].start
  {
    var k := i + 1;
    assert End(r[i]) != r[k].start;
    if k < j { assert End(r[k]) <= r[j].start; }
  }

  /** Merging twice is merging once, for any order of holes with distinct starts. */
  lemma MergeIdempotent(q: seq<Hole>)
    requires DistinctStarts(q)
    ensures Merged(Merged(q)) == Merged(q)
  {
    if |q| >= 2 {
      DistinctSorted(q);
      CoalesceIncreasing(SortFrom([], q));
      CoalesceSeparates(SortFrom([], q));
      var r := Merged(q);
      assert [] + r == r;
      SortFixed([], r);
      CoalesceFixed(r);
    }
  }

  // ----- whole runs

  datatype Op = File(start: nat, pages: nat) | Merge | TakeExact(n: nat) | TakeWorst(n: nat)

  /** The outcome of one operation: the address handed out, if any, and the new list. */
  ghost function Step(q: seq<Hole>, op: Op, low: nat): (r: (Option<nat>, seq<Hole>)) {
    match op
    case File(start, pages) => (None, Filed(q, start, pages))
    case Merge => (None, Merged(q))
    case TakeExact(n) => Exact(q, n)
    case TakeWorst(n) => Worst(q, n, low)
  }

  /** Only page-aligned ranges that overlap no hole are filed. */
  ghost predicate Enabled(q: seq<Hole>, op: Op) {
    op.File? ==> op.start % 4096 == 0 && ApartFrom(q, Hole(op.start, op.pages))
  }

  /** Which addresses are filed and not handed out, after one operation. */
  ghost function Ledger(have: iset<nat>, op: Op, out: Option<nat>): (r: iset<nat>) {
    match op
    case File(start, pages) => have + iset a: nat | In(Hole(start, pages), a)
    case Merge => have
    case TakeExact(n) => if out.None? then have else have - iset a: nat | In(Hole(out.value, n), a)
    case TakeWorst(n) => if out.None? then have else have - iset a: nat | In(Hole(out.value, n), a)
  }

  ghost predicate Matches(q: seq<Hole>, have: iset<nat>) { forall a: nat :: Covers(q, a) <==> a in have }

  ghost predicate IsRun(q: seq<Hole>, ops: seq<Op>, low: nat)
    decreases |ops|
  {
    ops == [] || (Enabled(q, ops[0]) && IsRun(Step(q, ops[0], low).1, ops[1..], low))
  }

  ghost function After(q: seq<Hole>, ops: seq<Op>, low: nat): (r: seq<Hole>)
    decreases |ops|
  {
    if ops == [] then q else After(Step(q, ops[0], low).1, ops[1..], low)
  }

  ghost function LedgerRun(q: seq<Hole>, ops: seq<Op>, low: nat, have: iset<nat>): (r: iset<nat>)
    decreases |ops|
  {
    if ops == [] then have
    else
      var (out, next) := Step(q, ops[0], low);
      LedgerRun(next, ops[1..], low, Ledger(have, ops[0], out))
  }

  lemma StepTheorem(q: seq<Hole>, op: Op, low: nat, have: iset<nat>)
    requires Ok(q) && Aligned(q) && Matches(q, have) && Enabled(q, op)
    ensures var (out, next) := Step(q, op, low);
      Ok(next) && Aligned(next) && Matches(next, Ledger(have, op, out))
  {
    match op
    case File(start, pages) =>
      FiledTheorem(q, start, pages);
      FiledAligned(q, start, pages);
    case Merge =>
      MergeOk(q);
      MergeTheorem(q);
    case TakeExact(n) => ExactTheorem(q, n);
    case TakeWorst(n) => WorstTheorem(q, n, low);
  }

  /** Through any sequence of filing disjoint ranges, merging, exact fit and worst fit the
      list stays sorted and disjoint and covers exactly what was filed and not handed out. */
  lemma {:induction false} HoleListTheorem(q: seq<Hole>, ops: seq<Op>, low: nat, have: iset<nat>)
    requires Ok(q) && Aligned(q) && Matches(q, have) && IsRun(q, ops, low)
    ensures Ok(After(q, ops, low)) && Aligned(After(q, ops, low))
    ensures Matches(After(q, ops, low), LedgerRun(q, ops, low, have))
    decreases |ops|
  {
    if ops != [] {
      StepTheorem(q, ops[0], low, have);
      var (out, next) := Step(q, ops[0], low);
      HoleListTheorem(next, ops[1..], low, Ledger(have, ops[0], out));
    }
  }
}
