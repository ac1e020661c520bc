/** Where the kernel page allocator puts a request: first exact hole, else first largest
    hole that fits. Pages are numbered from the start of the area. */
module Holes {
  import opened Seqs

  /** `[h, h + n)` is a maximal run of unmapped pages below the break. */
  ghost predicate IsHole(used: seq<bool>, h: nat, n: nat) {
    && 0 < n && h + n <= |used|
    && (forall i :: h <= i < h + n ==> !used[i])
    && (h > 0 ==> used[h - 1])
    && (h + n < |used| ==> used[h + n])
  }

  ghost predicate FirstExact(used: seq<bool>, n: nat, e: nat) {
    IsHole(used, e, n) && forall h: nat :: h < e ==> !IsHole(used, h, n)
  }

  ghost predicate FirstLargest(used: seq<bool>, n: nat, w: nat, size: nat) {
    && IsHole(used, w, size) && size >= n
    && (forall h: nat, k: nat :: IsHole(used, h, k) && k >= n ==> k <= size && (k == size ==> w <= h))
  }

  ghost predicate NoFit(used: seq<bool>, n: nat) { forall h: nat, k: nat :: IsHole(used, h, k) ==> k < n }

  /** The placement rule; `None` means that the break has to be raised. */
  ghost predicate Places(used: seq<bool>, n: nat, place: Option<nat>) {
    match place
    case Some(p) =>
      || FirstExact(used, n, p)
      || ((forall h: nat :: !IsHole(used, h, n)) && exists size: nat :: FirstLargest(used, n, p, size))
    case None => NoFit(used, n)
  }

  /** The rule leaves no choice. */
  lemma PlacesUnique(used: seq<bool>, n: nat, a: Option<nat>, b: Option<nat>)
    requires Places(used, n, a) && Places(used, n, b)
    ensures a == b
  {
    if a.Some? && b.Some? && !FirstExact(used, n, a.value) && !FirstExact(used, n, b.value) {
      var x :| FirstLargest(used, n, a.value, x);
      var y :| FirstLargest(used, n, b.value, y);
      assert IsHole(used, a.value, x) && IsHole(used, b.value, y);
    }
  }

  /** What the scan knows at position `i`: the hole, if any, that ends before `i`. */
  ghost predicate Closed(used: seq<bool>, i: nat, h: nat, k: nat) { IsHole(used, h, k) && h + k < i }

  /** The first hole of exactly `n` pages among those that end before `i`, if there is one. */
  ghost predicate ExactSoFar(used: seq<bool>, i: nat, n: nat, exact: Option<nat>) {
    && (exact.None? ==> forall h: nat :: !Closed(used, i, h, n))
    && (exact.Some? ==> FirstExact(used, n, exact.value))
  }

  /** The first of the largest holes of at least `n` pages among those that end before `i`;
      `size` is 0 if there is none. */
  ghost predicate WorstSoFar(used: seq<bool>, i: nat, n: nat, w: nat, size: nat) {
    && (size > 0 ==> Closed(used, i, w, size) && size >= n)
    && (forall h: nat, k: nat :: Closed(used, i, h, k) && k >= n ==> k <= size && (k == size ==> w <= h))
  }

  /** `run` unmapped pages end at `i`, and the page before them is mapped. */
  ghost predicate RunSoFar(used: seq<bool>, i: nat, run: nat) {
    && run <= i <= |used|
    && (forall j :: i - run <= j < i ==> !used[j])
    && (i - run > 0 ==> used[i - run - 1])
  }

  /** The only hole that can end at `i` is the current run. */
  lemma HoleEndsAt(used: seq<bool>, i: nat, run: nat, h: nat, k: nat)
    requires RunSoFar(used, i, run) && IsHole(used, h, k) && h + k == i
    ensures k == run && h == i - run
  {
  }

  lemma NewlyClosed(used: seq<bool>, i: nat, next: nat, run: nat)
    requires RunSoFar(used, i, run) && next == i + 1
    ensures forall h: nat, k: nat :: Closed(used, next, h, k) ==> Closed(used, i, h, k) || (k == run && h == i - run)
  {
    forall h: nat, k: nat | Closed(used, next, h, k)
      ensures Closed(used, i, h, k) || (k == run && h == i - run)
    {
      if h + k == i { HoleEndsAt(used, i, run, h, k); }
    }
  }

  /** Taking the hole that ends at `i` into account. */
  lemma TakeExact(used: seq<bool>, i: nat, run: nat, n: nat, exact: Option<nat>)
    requires RunSoFar(used, i, run) && (i < |used| ==> used[i]) && ExactSoFar(used, i, n, exact)
    ensures ExactSoFar(used, i + 1, n, if run > 0 && run == n && exact.None? then Some(i - run) else exact)
  {
    NewlyClosed(used, i, i + 1, run);
    if run > 0 && run == n && exact.None? {
      assert IsHole(used, i - run, run);
      forall h: nat | h < i - run ensures !IsHole(used, h, n) {
        assert !Closed(used, i, h, n);
      }
    }
  }

  lemma TakeWorst(used: seq<bool>, i: nat, run: nat, n: nat, w: nat, size: nat)
    requires RunSoFar(used, i, run) && (i < |used| ==> used[i]) && WorstSoFar(used, i, n, w, size)
    ensures var better := run > 0 && run >= n && run > size;
      WorstSoFar(used, i + 1, n, if better then i - run else w, if better then run else size)
  {
    NewlyClosed(used, i, i + 1, run);
    if run > 0 { assert IsHole(used, i - run, run); }
  }

  /** Skipping an unmapped page closes no hole. */
  lemma SkipPage(used: seq<bool>, i: nat, n: nat, exact: Option<nat>, w: nat, size: nat)
    requires i < |used| && !used[i]
    requires ExactSoFar(used, i, n, exact) && WorstSoFar(used, i, n, w, size)
    ensures ExactSoFar(used, i + 1, n, exact) && WorstSoFar(used, i + 1, n, w, size)
  {
    var next := i + 1;
    forall h: nat, k: nat | Closed(used, next, h, k) ensures Closed(used, i, h, k) {
      assert h + k != i;
    }
  }

  /** The scan's findings decide the placement. */
  lemma ScanDecides(used: seq<bool>, n: nat, exact: Option<nat>, w: nat, size: nat)
    requires ExactSoFar(used, |used| + 1, n, exact) && WorstSoFar(used, |used| + 1, n, w, size)
    ensures Places(used, n, if exact.Some? then exact else if size > 0 then Some(w) else None)
  {
    var end := |used| + 1;
    forall h: nat, k: nat | IsHole(used, h, k) ensures Closed(used, end, h, k) { }
    if exact.None? && size > 0 { assert FirstLargest(used, n, w, size); }
  }
}
