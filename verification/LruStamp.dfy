/** The aging time stamps of working-set pages as a use history. */
module LruStamp {
  const TOP_BIT: nat := 0x8000_0000

  /** One clock tick: shift right by one, then set the top bit if the page was used. The
      shift has cleared the top bit of a 32-bit stamp, so setting it adds its value. */
  function Shifted(stamp: nat, used: bool): (r: nat) { stamp / 2 + if used then TOP_BIT else 0 }

  /** The stamp after the ticks of a history, newest tick first. */
  function After(h: seq<bool>): (r: nat) { if h == [] then 0 else Shifted(After(h[1..]), h[0]) }

  /** Was the page used `j` ticks ago? */
  predicate UsedAgo(h: seq<bool>, j: nat) { j < |h| && h[j] }

  function Pow2(n: nat): (r: nat)
    ensures r > 0
  {
    if n == 0 then 1 else 2 * Pow2(n - 1)
  }

  /** Bit `k` of a number, bit 0 being the least significant. */
  predicate Bit(x: nat, k: nat) { if k == 0 then x % 2 == 1 else Bit(x / 2, k - 1) }

  function Older(h: seq<bool>): (r: seq<bool>) { if h == [] then [] else h[1..] }

  /** The last `n` ticks read as a binary number, newest tick first. */
  function Weight(h: seq<bool>, n: nat): (r: nat)
    ensures r < Pow2(n)
  {
    if n == 0 then 0 else (if UsedAgo(h, 0) then Pow2(n - 1) else 0) + Weight(Older(h), n - 1)
  }

  lemma {:induction false} HalfWeight(h: seq<bool>, n: nat)
    ensures Weight(h, n + 1) / 2 == Weight(h, n)
    decreases n
  {
    if n > 0 {
      HalfWeight(Older(h), n - 1);
      var top := if UsedAgo(h, 0) then Pow2(n - 1) else 0;
      assert Weight(h, n + 1) == 2 * top + Weight(Older(h), n);
    }
  }

  lemma PowTable()
    ensures Pow2(31) == TOP_BIT
  {
    assert Pow2(8) == 256;
    assert Pow2(16) == 65536;
    assert Pow2(24) == 16777216;
  }

  /** The stamp is the last 32 ticks. */
  lemma {:induction false} StampIsHistory(h: seq<bool>)
    ensures After(h) == Weight(h, 32)
  {
    if h == [] {
      EmptyWeight(32);
    } else {
      StampIsHistory(h[1..]);
      HalfWeight(h[1..], 31);
      PowTable();
    }
  }

  lemma {:induction false} EmptyWeight(n: nat)
    ensures Weight([], n) == 0
  {
    if n > 0 { EmptyWeight(n - 1); }
  }

  lemma {:induction false} LowestBit(h: seq<bool>, n: nat)
    ensures Weight(h, n + 1) % 2 == 1 <==> UsedAgo(h, n)
  {
    if n > 0 {
      LowestBit(Older(h), n - 1);
      assert Pow2(n) == 2 * Pow2(n - 1);
    }
  }

  /** Bit `n - 1 - j` of the number is the use bit of `j` ticks ago. */
  lemma {:induction false} WeightBit(h: seq<bool>, n: nat, j: nat)
    requires j < n
    ensures Bit(Weight(h, n), n - 1 - j) <==> UsedAgo(h, j)
  {
    if j == n - 1 {
      LowestBit(h, j);
    } else {
      HalfWeight(h, n - 1);
      WeightBit(h, n - 1, j);
    }
  }

  /** From stamp 0, bit `31 - j` is the use bit of `j` ticks ago. */
  lemma BitIsUse(h: seq<bool>, j: nat)
    requires j < 32
    ensures Bit(After(h), 31 - j) <==> UsedAgo(h, j)
  {
    StampIsHistory(h);
    WeightBit(h, 32, j);
  }

  /** `a` was used less recently than `b`: at the latest tick of the last `n` in which they
      differ, `b` was used and `a` was not. */
  ghost predicate LessRecent(a: seq<bool>, b: seq<bool>, n: nat) {
    exists j: nat :: j < n && DiffersAt(a, b, j)
  }

  ghost predicate DiffersAt(a: seq<bool>, b: seq<bool>, j: nat) {
    !UsedAgo(a, j) && UsedAgo(b, j) && forall i: nat :: i < j ==> UsedAgo(a, i) == UsedAgo(b, i)
  }

  lemma OlderAgo(h: seq<bool>, j: nat)
    ensures UsedAgo(Older(h), j) == UsedAgo(h, j + 1)
  {
  }

  lemma DiffersLater(a: seq<bool>, b: seq<bool>, j: nat)
    ensures DiffersAt(a, b, j + 1) <==> UsedAgo(a, 0) == UsedAgo(b, 0) && DiffersAt(Older(a), Older(b), j)
  {
    forall i: nat ensures UsedAgo(Older(a), i) == UsedAgo(a, i + 1) && UsedAgo(Older(b), i) == UsedAgo(b, i + 1) {
      OlderAgo(a, i);
      OlderAgo(b, i);
    }
    if UsedAgo(a, 0) == UsedAgo(b, 0) && DiffersAt(Older(a), Older(b), j) {
      forall i: nat | i < j + 1 ensures UsedAgo(a, i) == UsedAgo(b, i) {
        if i > 0 {
          var i' := i - 1;
          assert UsedAgo(Older(a), i') == UsedAgo(Older(b), i');
        }
      }
    }
    if DiffersAt(a, b, j + 1) {
      var zero: nat := 0;
      assert UsedAgo(a, zero) == UsedAgo(b, zero);
      forall i: nat | i < j ensures UsedAgo(Older(a), i) == UsedAgo(Older(b), i) {
        var i' := i + 1;
        assert UsedAgo(a, i') == UsedAgo(b, i');
      }
    }
  }

  lemma LessRecentStep(a: seq<bool>, b: seq<bool>, n: nat)
    ensures LessRecent(a, b, n + 1) <==>
      if UsedAgo(a, 0) != UsedAgo(b, 0) then UsedAgo(b, 0) else LessRecent(Older(a), Older(b), n)
  {
    if UsedAgo(a, 0) != UsedAgo(b, 0) {
      var zero: nat := 0;
      if UsedAgo(b, 0) { assert DiffersAt(a, b, zero); }
      if j: nat :| j < n + 1 && DiffersAt(a, b, j) { assert j == 0 || UsedAgo(a, zero) == UsedAgo(b, zero); }
    } else {
      if j: nat :| j < n && DiffersAt(Older(a), Older(b), j) {
        DiffersLater(a, b, j);
        var j' := j + 1;
        assert DiffersAt(a, b, j');
      }
      if j: nat :| j < n + 1 && DiffersAt(a, b, j) {
        var j' := j - 1;
        DiffersLater(a, b, j');
        assert DiffersAt(Older(a), Older(b), j');
      }
    }
  }

  lemma {:induction false} WeightOrder(a: seq<bool>, b: seq<bool>, n: nat)
    ensures Weight(a, n) < Weight(b, n) <==> LessRecent(a, b, n)
  {
    if n > 0 {
      WeightOrder(Older(a), Older(b), n - 1);
      LessRecentStep(a, b, n - 1);
    }
  }

  /** Comparing stamps as numbers is comparing recency over the last 32 ticks. */
  lemma StampOrder(a: seq<bool>, b: seq<bool>)
    ensures After(a) < After(b) <==> LessRecent(a, b, 32)
  {
    StampIsHistory(a);
    StampIsHistory(b);
    WeightOrder(a, b, 32);
  }

  /** `update_WS_time_stamps` over a working set: `present` says which pages have their
      page table in memory, `used` holds their use bits, which are cleared. */
  method UpdateTimeStamps(stamps: array<nat>, used: array<bool>, present: seq<bool>)
    requires stamps.Length == used.Length == |present|
    modifies stamps, used
    ensures forall i :: 0 <= i < stamps.Length ==>
      && stamps[i] == (if present[i] then Shifted(old(stamps[i]), old(used[i])) else old(stamps[i]))
      && used[i] == (old(used[i]) && !present[i])
  {
    for k := 0 to stamps.Length
      invariant forall i :: 0 <= i < k ==>
        && stamps[i] == (if present[i] then Shifted(old(stamps[i]), old(used[i])) else old(stamps[i]))
        && used[i] == (old(used[i]) && !present[i])
      invariant forall i :: k <= i < stamps.Length ==> stamps[i] == old(stamps[i]) && used[i] == old(used[i])
    {
      if present[k] {
        stamps[k] := stamps[k] / 2;
        if used[k] {
          stamps[k] := stamps[k] + TOP_BIT;
          used[k] := false;
        }
      }
    }
  }

  /** A stamp that is the history `h` of its page is, after an update that reaches the page,
      its history with the new tick in front. */
  lemma UpdateExtendsHistory(stamp: nat, h: seq<bool>, used: bool)
    requires stamp == After(h)
    ensures Shifted(stamp, used) == After([used] + h) < 2 * TOP_BIT
  {
    assert ([used] + h)[1..] == h;
    StampIsHistory([used] + h);
    PowTable();
    assert Pow2(32) == 2 * Pow2(31);
  }
}
