/** The code of the user heap's hole list: linked nodes changed in place. */
module HoleNodes {
  import opened Seqs
  import opened HoleList

  class Node {
    var start: nat
    var pages: nat
    var next: Node?

    constructor (start: nat, pages: nat)
      ensures this.start == start && this.pages == pages
    {
      this.start, this.pages, next := start, pages, null;
    }
  }

  function NodeAt(nodes: seq<Node>, i: nat): (r: Node?) { if i < |nodes| then nodes[i] else null }

  ghost function Cells(nodes: seq<Node>): (r: set<Node>) { set n | n in nodes }

  /** Each node is linked to the one after it. */
  ghost predicate Links(nodes: seq<Node>)
    reads Cells(nodes)
  {
    forall i, j :: 0 <= i && j == i + 1 < |nodes| ==> nodes[i].next == nodes[j]
  }

  /** The nodes reached from `head`, in order; each of them once, so there is no cycle. */
  ghost predicate Chain(head: Node?, nodes: seq<Node>)
    reads Cells(nodes)
  {
    && NoDup(nodes) && Links(nodes)
    && (nodes == [] ==> head == null)
    && (nodes != [] ==> head == nodes[0] && nodes[|nodes| - 1].next == null)
  }

  /** The nodes hold the holes of `q`. */
  ghost predicate Hold(nodes: seq<Node>, q: seq<Hole>)
    reads Cells(nodes)
  {
    |q| == |nodes| && forall i :: 0 <= i < |nodes| ==> q[i] == Hole(nodes[i].start, nodes[i].pages)
  }

  /** All links of `nodes` but the one into position `i`. */
  ghost predicate OtherLinks(nodes: seq<Node>, i: nat)
    reads Cells(nodes)
  {
    forall j, k :: 0 <= j && k == j + 1 < |nodes| && k != i ==> nodes[j].next == nodes[k]
  }

  lemma LinksInserted(nodes: seq<Node>, i: nat, node: Node, nodes': seq<Node>)
    requires IsInserted(nodes', nodes, i, node) && OtherLinks(nodes, i)
    requires node.next == NodeAt(nodes, i) && (i > 0 ==> nodes[i - 1].next == node)
    requires i < |nodes| ==> nodes[|nodes| - 1].next == null
    ensures Links(nodes') && nodes'[|nodes'| - 1].next == null
  {
    forall j, k | 0 <= j && k == j + 1 < |nodes'| ensures nodes'[j].next == nodes'[k] {
      if k < i {
        assert nodes[j].next == nodes[k];
      } else if j > i {
        var j', k' := j - 1, k - 1;
        assert nodes[j'].next == nodes[k'];
      }
    }
  }

  lemma NodesInserted(nodes: seq<Node>, i: nat, node: Node) returns (nodes': seq<Node>)
    requires NoDup(nodes) && i <= |nodes| && node !in nodes
    ensures IsInserted(nodes', nodes, i, node) && NoDup(nodes') && Cells(nodes') == Cells(nodes) + {node}
  {
    nodes' := InsertInto(nodes, i, node);
  }

  lemma NodesRemoved(nodes: seq<Node>, i: nat) returns (nodes': seq<Node>)
    requires NoDup(nodes) && i < |nodes|
    ensures IsRemoved(nodes', nodes, i) && NoDup(nodes') && Cells(nodes') == Cells(nodes) - {nodes[i]}
  {
    nodes' := RemoveFrom(nodes, i);
  }

  lemma HoldInserted(nodes: seq<Node>, q: seq<Hole>, i: nat, node: Node, nodes': seq<Node>) returns (q': seq<Hole>)
    requires Hold(nodes, q) && IsInserted(nodes', nodes, i, node)
    ensures IsInserted(q', q, i, Hole(node.start, node.pages)) && Hold(nodes', q')
  {
    q' := InsertInto(q, i, Hole(node.start, node.pages));
  }

  lemma HoldRemoved(nodes: seq<Node>, q: seq<Hole>, i: nat, nodes': seq<Node>) returns (q': seq<Hole>)
    requires Hold(nodes, q) && IsRemoved(nodes', nodes, i)
    ensures IsRemoved(q', q, i) && Hold(nodes', q')
  {
    q' := RemoveFrom(q, i);
  }

  /** `HasStart` of a suffix: one turn of a search. */
  lemma SearchStep(q: seq<Hole>, i: nat, start: nat)
    requires i < |q|
    ensures HasStart(q[i..], start) <==> q[i].start == start || HasStart(q[i + 1..], start)
  {
    assert q[i..][1..] == q[i + 1..];
  }

  lemma {:induction false} PlaceIs(q: seq<Hole>, h: Hole, i: nat, r: seq<Hole>)
    requires IsInserted(r, q, i, h)
    requires (forall j :: 0 <= j < i ==> q[j].start < h.start) && (i < |q| ==> q[i].start >= h.start)
    ensures Place(q, h) == r
  {
    if i == 0 {
      assert r == [h] + q;
    } else {
      var rest, done := q[1..], r[1..];
      forall j | 0 <= j < |done| ensures done[j] == r[j + 1] { }
      PlaceIs(rest, h, i - 1, done);
      assert r == [q[0]] + done;
    }
  }

  lemma TakenIs(q: seq<Hole>, i: nat, n: nat, r: seq<Hole>)
    requires IsRemoved(r, q, i) && q[i].pages == n
    ensures Taken(q, i, n) == r
  {
    var t := q[..i] + q[i + 1..];
    forall j | 0 <= j < |r| ensures r[j] == t[j] {
      if j >= i { assert t[j] == q[i + 1..][j - i]; }
    }
  }

  lemma SortInsertIs(q: seq<Hole>, h: Hole, i: nat, r: seq<Hole>)
    requires q != [] && h.start >= q[0].start && i < |q| && IsInserted(r, q, i + 1, h)
    requires (forall j :: 0 < j <= i ==> q[j].start < h.start) && (i + 1 < |q| ==> q[i + 1].start >= h.start)
    ensures SortInsert(q, h) == r
  {
    forall j | 0 <= j < |r[1..]| ensures r[1..][j] == r[j + 1] { }
    PlaceIs(q[1..], h, i, r[1..]);
  }

  lemma {:induction false} ExactIs(q: seq<Hole>, n: nat, i: nat)
    requires i <= |q| && (forall j :: 0 <= j < i ==> q[j].pages != n) && (i < |q| ==> q[i].pages == n)
    ensures ExactAt(q, n) == if i < |q| then Some(i) else None
  {
  }

  /** The largest fitting hole among the first `i`, with its size. */
  ghost predicate BestSoFar(q: seq<Hole>, n: nat, low: nat, i: nat, best: Option<nat>, max: nat) {
    && i <= |q|
    && (best.None? ==> max == 0 && forall j :: 0 <= j < i ==> !Fits(q[j], n, low))
    && (best.Some? ==> IsWorst(q[..i], n, low, best.value) && max == q[best.value].pages)
  }

  lemma BestStep(q: seq<Hole>, n: nat, low: nat, i: nat, best: Option<nat>, max: nat)
    requires BestSoFar(q, n, low, i, best, max) && i < |q|
    ensures low <= q[i].start < USER_HEAP_MAX && q[i].pages >= n && q[i].pages > max ==>
      BestSoFar(q, n, low, i + 1, Some(i), q[i].pages)
    ensures !(low <= q[i].start < USER_HEAP_MAX && q[i].pages >= n && q[i].pages > max) ==>
      BestSoFar(q, n, low, i + 1, best, max)
  {
    var next := q[..i + 1];
    forall j | 0 <= j < i ensures next[j] == q[..i][j] == q[j] { }
    assert next[i] == q[i];
  }

  lemma BestIs(q: seq<Hole>, n: nat, low: nat, best: Option<nat>, max: nat)
    requires BestSoFar(q, n, low, |q|, best, max)
    ensures WorstAt(q, n, low) == best
  {
    assert q[..|q|] == q;
    var at := WorstAt(q, n, low);
    if best.Some? && at.Some? { WorstUnique(q, n, low, best.value, at.value); }
  }

  /** `r` is `q` with holes `i` and `i + 1` joined. */
  ghost predicate IsJoined(r: seq<Hole>, q: seq<Hole>, i: nat) {
    && i + 1 < |q| && |r| == |q| - 1
    && (forall j :: 0 <= j < i ==> r[j] == q[j])
    && r[i] == Hole(q[i].start, q[i].pages + q[i + 1].pages)
    && (forall j :: i < j < |r| ==> r[j] == q[j + 1])
  }

  /** The two turns of the coalescing loop, `i` being the current node. */
  lemma CoalesceJoin(q: seq<Hole>, i: nat, r: seq<Hole>)
    requires IsJoined(r, q, i) && End(q[i]) == q[i + 1].start
    ensures q[..i] + Coalesce(q[i..]) == r[..i] + Coalesce(r[i..])
  {
    var t, u := q[i..], r[i..];
    assert t[0] == q[i] && t[1] == q[i + 1];
    forall j | 0 < j < |u| ensures u[j] == Joined(t)[j] {
      assert u[j] == r[i + j];
      assert Joined(t)[j] == t[2..][j - 1] == t[j + 1] == q[i + j + 1];
    }
    assert u[0] == r[i];
    assert u == Joined(t);
    assert r[..i] == q[..i];
  }

  lemma CoalescePass(q: seq<Hole>, i: nat)
    requires i + 1 < |q| && End(q[i]) != q[i + 1].start
    ensures q[..i] + Coalesce(q[i..]) == q[..i + 1] + Coalesce(q[i + 1..])
  {
    assert q[i..][1..] == q[i + 1..];
    assert q[..i + 1] == q[..i] + [q[i]];
    AppendAssociative(q[..i], [q[i]], Coalesce(q[i + 1..]));
  }

  lemma CoalesceStart(q: seq<Hole>)
    ensures q[..0] + Coalesce(q[0..]) == Coalesce(q)
  {
    assert q[0..] == q && q[..0] + Coalesce(q) == Coalesce(q);
  }

  lemma CoalesceEnd(q: seq<Hole>, i: nat)
    requires i <= |q| <= i + 1
    ensures q[..i] + Coalesce(q[i..]) == q
  {
  }

  lemma LastNode(head: Node?, nodes: seq<Node>, i: nat)
    requires Chain(head, nodes) && i < |nodes| && nodes[i].next == null
    ensures i + 1 == |nodes|
  {
    assert nodes[i].next == NodeAt(nodes, i + 1);
  }

  /** The nodes of `all` are those of `done` and of `rest`, and no node is in both. */
  ghost predicate Split(all: set<Node>, done: seq<Node>, rest: seq<Node>) {
    Cells(done) !! Cells(rest) && all == Cells(done) + Cells(rest)
  }

  lemma SplitMove(all: set<Node>, done: seq<Node>, rest: seq<Node>, done': seq<Node>, tail: seq<Node>, cur: Node)
    requires Split(all, done, rest) && rest == [cur] + tail && cur !in tail
    requires Cells(done') == Cells(done) + {cur}
    ensures Split(all, done', tail)
  {
  }

  lemma ChainTail(head: Node, nodes: seq<Node>, q: seq<Hole>)
    requires Chain(head, nodes) && Hold(nodes, q)
    ensures nodes == [head] + nodes[1..] && head !in nodes[1..]
    ensures Chain(head.next, nodes[1..]) && Hold(nodes[1..], q[1..])
  {
    var tail := nodes[1..];
    forall i, j | 0 <= i && j == i + 1 < |tail| ensures tail[i].next == tail[j] {
      var i', j' := i + 1, j + 1;
      assert nodes[i'].next == nodes[j'];
    }
  }

  class List {
    var head: Node?
    ghost var nodes: seq<Node>
    ghost var holes: seq<Hole>

    ghost predicate Valid()
      reads this, Cells(nodes)
    {
      Chain(head, nodes) && Hold(nodes, holes)
    }

    constructor ()
      ensures Valid() && holes == []
    {
      head, nodes, holes := null, [], [];
    }

    method Has(start: nat) returns (found: bool)
      requires Valid()
      ensures found == HasStart(holes, start)
    {
      var cur := head;
      ghost var i := 0;
      assert holes[0..] == holes;
      while cur != null
        invariant 0 <= i <= |nodes| && cur == NodeAt(nodes, i)
        invariant HasStart(holes, start) == HasStart(holes[i..], start)
        decreases |nodes| - i
      {
        SearchStep(holes, i, start);
        if cur.start == start { return true; }
        cur := cur.next;
        i := i + 1;
      }
      return false;
    }

    /** Link `node` between `prev` and `cur`, which are neighbours around position `i`. */
    static method Link(head: Node?, prev: Node?, node: Node, cur: Node?, ghost nodes: seq<Node>, ghost i: nat)
      returns (head': Node?, ghost nodes': seq<Node>)
      requires Chain(head, nodes) && node !in nodes && i <= |nodes|
      requires cur == NodeAt(nodes, i) && prev == if i == 0 then null else nodes[i - 1]
      modifies node`next, Cells(nodes)`next
      ensures Chain(head', nodes') && IsInserted(nodes', nodes, i, node)
      ensures Cells(nodes') == Cells(nodes) + {node}
    {
      head' := head;
      node.next := cur;
      if prev != null { prev.next := node; } else { head' := node; }
      assert OtherLinks(nodes, i);
      nodes' := NodesInserted(nodes, i, node);
      LinksInserted(nodes, i, node, nodes');
    }

    /** Unlink `cur`, the node at position `i`, behind `prev`. */
    static method Unlink(head: Node?, prev: Node?, cur: Node, ghost nodes: seq<Node>, ghost i: nat)
      returns (head': Node?, ghost nodes': seq<Node>)
      requires Chain(head, nodes) && i < |nodes| && cur == nodes[i] && prev == if i == 0 then null else nodes[i - 1]
      modifies Cells(nodes)`next
      ensures Chain(head', nodes') && IsRemoved(nodes', nodes, i)
      ensures Cells(nodes') <= Cells(nodes)
    {
      head' := head;
      if prev != null { prev.next := cur.next; } else { head' := cur.next; }
      nodes' := NodesRemoved(nodes, i);
    }

    method LinkAt(prev: Node?, node: Node, cur: Node?, ghost i: nat)
      requires Valid() && node !in nodes && i <= |nodes|
      requires cur == NodeAt(nodes, i) && prev == if i == 0 then null else nodes[i - 1]
      modifies this, node`next, Cells(nodes)`next
      ensures Valid() && IsInserted(holes, old(holes), i, Hole(node.start, node.pages))
      ensures Cells(nodes) == old(Cells(nodes)) + {node}
    {
      ghost var was := nodes;
      head, nodes := Link(head, prev, node, cur, nodes, i);
      holes := HoldInserted(was, holes, i, node, nodes);
    }

    method UnlinkAt(prev: Node?, cur: Node, ghost i: nat)
      requires Valid() && i < |nodes| && cur == nodes[i] && prev == if i == 0 then null else nodes[i - 1]
      modifies this, Cells(nodes)`next
      ensures Valid() && IsRemoved(holes, old(holes), i)
      ensures Cells(nodes) <= old(Cells(nodes))
    {
      ghost var was := nodes;
      head, nodes := Unlink(head, prev, cur, nodes, i);
      holes := HoldRemoved(was, holes, i, nodes);
    }

    /** The second loop of `FREEblockk`: where the new hole goes. */
    method FindSpot(start: nat) returns (prev: Node?, cur: Node?, ghost i: nat)
      requires Valid()
      ensures i <= |nodes| && cur == NodeAt(nodes, i) && prev == if i == 0 then null else nodes[i - 1]
      ensures forall j :: 0 <= j < i ==> holes[j].start < start
      ensures i < |nodes| ==> holes[i].start >= start
    {
      prev, cur, i := null, head, 0;
      while cur != null && cur.start < start
        invariant 0 <= i <= |nodes| && cur == NodeAt(nodes, i)
        invariant prev == if i == 0 then null else nodes[i - 1]
        invariant forall j :: 0 <= j < i ==> holes[j].start < start
        decreases |nodes| - i
      {
        prev, cur := cur, cur.next;
        i := i + 1;
      }
    }

    /** `FREEblockk`. */
    method FileHole(start: nat, pages: nat)
      requires Valid()
      modifies this, Cells(nodes)`next
      ensures Valid() && holes == Filed(old(holes), start, pages)
      ensures fresh(Cells(nodes) - old(Cells(nodes)))
    {
      if pages == 0 { return; }
      var found := Has(start);
      if found { return; }
      var node := new Node(start, pages);
      var prev, cur;
      ghost var i;
      prev, cur, i := FindSpot(start);
      LinkAt(prev, node, cur, i);
      PlaceIs(old(holes), Hole(start, pages), i, holes);
    }

    /** The search of `EXACTTT`. */
    method FindExact(n: nat) returns (prev: Node?, cur: Node?, ghost i: nat)
      requires Valid()
      ensures i <= |nodes| && cur == NodeAt(nodes, i) && prev == if i == 0 then null else nodes[i - 1]
      ensures ExactAt(holes, n) == if cur == null then None else Some(i)
      ensures ExactAt(holes, n).Some? ==> ExactAt(holes, n).value < |nodes| && cur == nodes[ExactAt(holes, n).value]
    {
      prev, cur, i := null, head, 0;
      while cur != null && cur.pages != n
        invariant 0 <= i <= |nodes| && cur == NodeAt(nodes, i)
        invariant prev == if i == 0 then null else nodes[i - 1]
        invariant forall j :: 0 <= j < i ==> holes[j].pages != n
        decreases |nodes| - i
      {
        prev, cur := cur, cur.next;
        i := i + 1;
      }
      ExactIs(holes, n, i);
    }

    /** `EXACTTT`. */
    method ExactFit(n: nat) returns (r: Option<nat>)
      requires Valid()
      modifies this, Cells(nodes)`next
      ensures Valid() && (r, holes) == Exact(old(holes), n)
      ensures Cells(nodes) <= old(Cells(nodes))
    {
      var prev, cur;
      ghost var i;
      prev, cur, i := FindExact(n);
      if cur == null { return None; }
      r := Some(cur.start - cur.start % 4096);
      UnlinkAt(prev, cur, i);
      TakenIs(old(holes), i, n, holes);
    }

    /** The search of `WORSTTT`: the chosen node, the one before it and its position. */
    method FindWorst(n: nat, low: nat) returns (best: Node?, beforeBest: Node?, ghost at: Option<nat>)
      requires Valid()
      ensures at == WorstAt(holes, n, low)
      ensures WorstAt(holes, n, low).None? ==> best == null
      ensures WorstAt(holes, n, low).Some? ==>
        var k := WorstAt(holes, n, low).value;
        k < |nodes| && best == nodes[k] && beforeBest == if k == 0 then null else nodes[k - 1]
    {
      var prev, cur := null, head;
      var max := 0;
      best, beforeBest, at := null, null, None;
      ghost var i := 0;
      while cur != null
        invariant 0 <= i <= |nodes| && cur == NodeAt(nodes, i)
        invariant prev == if i == 0 then null else nodes[i - 1]
        invariant BestSoFar(holes, n, low, i, at, max)
        invariant at.None? ==> best == null
        invariant at.Some? ==>
          && at.value < i && best == nodes[at.value]
          && beforeBest == (if at.value == 0 then null else nodes[at.value - 1])
        decreases |nodes| - i
      {
        BestStep(holes, n, low, i, at, max);
        if low <= cur.start < USER_HEAP_MAX {
          if cur.pages >= n {
            if cur.pages > max {
              max, best, beforeBest, at := cur.pages, cur, prev, Some(i);
            }
          }
        }
        prev, cur := cur, cur.next;
        i := i + 1;
      }
      BestIs(holes, n, low, at, max);
    }

    /** `WORSTTT`, with `low` the start of the page allocator's area. */
    method WorstFit(n: nat, low: nat) returns (r: Option<nat>)
      requires Valid()
      modifies this, Cells(nodes)
      ensures Valid() && (r, holes) == Worst(old(holes), n, low)
      ensures Cells(nodes) <= old(Cells(nodes))
    {
      var best, beforeBest;
      ghost var at;
      best, beforeBest, at := FindWorst(n, low);
      if best == null { return None; }
      r := Some(best.start);
      if best.pages > n {
        holes := Taken(holes, at.value, n);
        best.start, best.pages := best.start + n * 4096, best.pages - n;
      } else {
        UnlinkAt(beforeBest, best, at.value);
        TakenIs(old(holes), at.value, n, holes);
      }
    }

    /** The inner loop of the sort in `MERGEE`: the node after which `cur` goes. */
    static method FindPlace(sorted: Node, cur: Node, ghost done: seq<Node>, ghost q: seq<Hole>)
      returns (s: Node, ghost i: nat)
      requires Chain(sorted, done) && Hold(done, q)
      ensures i < |done| && s == done[i]
      ensures forall j :: 0 < j <= i ==> q[j].start < cur.start
      ensures i + 1 < |done| ==> q[i + 1].start >= cur.start
    {
      s, i := sorted, 0;
      while s.next != null && s.next.start < cur.start
        invariant 0 <= i < |done| && s == done[i]
        invariant forall j :: 0 < j <= i ==> q[j].start < cur.start
        decreases |done| - i
      {
        s := s.next;
        i := i + 1;
      }
    }

    /** One turn of the sorting loop of `MERGEE`: insert `cur` into the sorted chain. */
    static method InsertNode(sorted: Node?, cur: Node, ghost done: seq<Node>, ghost q: seq<Hole>)
      returns (sorted': Node?, ghost done': seq<Node>, ghost q': seq<Hole>)
      requires Chain(sorted, done) && Hold(done, q) && cur !in done
      modifies cur`next, Cells(done)`next
      ensures Chain(sorted', done') && Hold(done', q')
      ensures q' == SortInsert(q, Hole(cur.start, cur.pages))
      ensures Cells(done') == Cells(done) + {cur}
    {
      if sorted == null || cur.start < sorted.start {
        cur.next := sorted;
        sorted' := cur;
        done' := NodesInserted(done, 0, cur);
        LinksInserted(done, 0, cur, done');
        q' := HoldInserted(done, q, 0, cur, done');
        assert q' == [Hole(cur.start, cur.pages)] + q;
        return;
      }
      var s;
      ghost var i;
      s, i := FindPlace(sorted, cur, done, q);
      cur.next := s.next;
      s.next := cur;
      sorted' := sorted;
      assert OtherLinks(done, i + 1);
      done' := NodesInserted(done, i + 1, cur);
      LinksInserted(done, i + 1, cur, done');
      q' := HoldInserted(done, q, i + 1, cur, done');
      SortInsertIs(q, Hole(cur.start, cur.pages), i, q');
    }

    /** One turn of the sorting loop: `cur` goes from the unsorted rest to the sorted chain. */
    static method MoveNode(sorted: Node?, cur: Node, ghost all: set<Node>, ghost done: seq<Node>, ghost q: seq<Hole>,
                           ghost rest: seq<Node>, ghost r: seq<Hole>)
      returns (sorted': Node?, next: Node?, ghost done': seq<Node>, ghost q': seq<Hole>, ghost tail: seq<Node>)
      requires Chain(sorted, done) && Hold(done, q) && Chain(cur, rest) && Hold(rest, r) && Split(all, done, rest)
      modifies cur`next, Cells(done)`next
      ensures r != [] && |tail| == |rest| - 1
      ensures Chain(sorted', done') && Hold(done', q') && q' == SortInsert(q, r[0])
      ensures Chain(next, tail) && Hold(tail, r[1..]) && Split(all, done', tail)
    {
      ChainTail(cur, rest, r);
      next, tail := cur.next, rest[1..];
      assert cur in Cells(rest);
      sorted', done', q' := InsertNode(sorted, cur, done, q);
      SplitMove(all, done, rest, done', tail, cur);
    }

    /** The sorting loop of `MERGEE`. */
    method Sort()
      requires Valid()
      modifies this, Cells(nodes)`next
      ensures Valid() && holes == SortFrom([], old(holes))
      ensures Cells(nodes) == old(Cells(nodes))
    {
      var sorted: Node? := null;
      var cur := head;
      ghost var all := Cells(nodes);
      ghost var done, rest: seq<Node> := [], nodes;
      ghost var q, r: seq<Hole> := [], holes;
      while cur != null
        invariant Chain(sorted, done) && Hold(done, q)
        invariant Chain(cur, rest) && Hold(rest, r)
        invariant Split(all, done, rest)
        invariant SortFrom(q, r) == SortFrom([], old(holes))
        decreases |rest|
      {
        sorted, cur, done, q, rest := MoveNode(sorted, cur, all, done, q, rest, r);
        r := r[1..];
      }
      head, nodes, holes := sorted, done, q;
    }

    /** `cur`, at position `i`, absorbs the next node. */
    method Absorb(cur: Node, ghost i: nat)
      requires Valid() && i + 1 < |nodes| && cur == nodes[i]
      modifies this`nodes, this`holes, cur
      ensures Valid() && IsJoined(holes, old(holes), i)
      ensures Cells(nodes) <= old(Cells(nodes))
      ensures |nodes| > i && nodes[i] == cur
    {
      assert cur.next == nodes[i + 1];
      var gone := cur.next;
      cur.pages := cur.pages + gone.pages;
      cur.next := gone.next;
      ghost var joined := Hole(holes[i].start, holes[i].pages + holes[i + 1].pages);
      nodes := NodesRemoved(nodes, i + 1);
      holes := RemoveFrom(holes, i + 1);
      holes := holes[i := joined];
    }

    /** The merging loop of `MERGEE`. */
    method JoinTouching()
      requires Valid()
      modifies this, Cells(nodes)
      ensures Valid() && holes == Coalesce(old(holes))
      ensures Cells(nodes) <= old(Cells(nodes))
    {
      var cur := head;
      ghost var i := 0;
      CoalesceStart(holes);
      while cur != null && cur.next != null
        invariant Valid() && 0 <= i <= |nodes| && cur == NodeAt(nodes, i)
        invariant holes[..i] + Coalesce(holes[i..]) == Coalesce(old(holes))
        invariant Cells(nodes) <= old(Cells(nodes))
        decreases |nodes| - i
      {
        ghost var q := holes;
        var end := cur.start + cur.pages * 4096;
        if end == cur.next.start {
          Absorb(cur, i);
          CoalesceJoin(q, i, holes);
        } else {
          CoalescePass(q, i);
          cur := cur.next;
          i := i + 1;
        }
      }
      if cur != null { LastNode(head, nodes, i); }
      CoalesceEnd(holes, i);
    }

    /** `MERGEE`. */
    method Merge()
      requires Valid()
      modifies this, Cells(nodes)
      ensures Valid() && holes == Merged(old(holes))
      ensures Cells(nodes) <= old(Cells(nodes))
    {
      assert |nodes| >= 2 ==> head.next == nodes[1];
      if head == null || head.next == null { return; }
      Sort();
      JoinTouching();
    }
  }
}
