/** Dropping references, over the shared graph of nodes in a pool. */
module ReferenceCounting {
  import opened ILNodes

  /** The references owed to each node: `external`, with `delta` added for node `n`. */
  function Owed(external: seq<int>, n: nat, delta: int): seq<int>
    requires n < |external|
  {
    external[n := external[n] + delta]
  }

  /** `external` plus one reference for each occurrence in `extra`. */
  function Pending(external: seq<int>, extra: seq<nat>): (r: seq<int>)
    ensures |r| == |external| && forall i :: 0 <= i < |r| ==> r[i] == external[i] + multiset(extra)[i]
  {
    seq(|external|, i requires 0 <= i < |external| => external[i] + multiset(extra)[i])
  }

  /** Only counts changed, and none grew. */
  ghost predicate CountsShrunk(before: seq<Node>, after: seq<Node>) {
    && |before| == |after|
    && forall i :: 0 <= i < |before| ==>
         after[i] == before[i].(refCount := after[i].refCount) && after[i].refCount <= before[i].refCount
  }

  lemma AcyclicKept(before: seq<Node>, after: seq<Node>, rank: seq<nat>)
    requires Acyclic(before, rank) && CountsShrunk(before, after)
    ensures Acyclic(after, rank)
  {
  }

  lemma ShrunkTwice(a: seq<Node>, b: seq<Node>, c: seq<Node>)
    requires CountsShrunk(a, b) && CountsShrunk(b, c)
    ensures CountsShrunk(a, c)
  {
  }

  lemma DropShrinks(nodes: seq<Node>, external: seq<int>, n: nat)
    requires Counted(nodes, external) && n < |nodes| && external[n] >= 1
    ensures CountsShrunk(nodes, nodes[n := nodes[n].(refCount := nodes[n].refCount - 1)]) && nodes[n].refCount >= 1
    ensures forall i :: 0 <= i < |external| ==> Owed(external, n, -1)[i] >= 0
  {
  }

  /** Counts have no part in values. */
  lemma {:induction false} ShrunkKeepsValues(before: seq<Node>, after: seq<Node>, rank: seq<nat>, i: nat, other: Meaning)
    requires Acyclic(before, rank) && CountsShrunk(before, after) && i < |before|
    ensures Acyclic(after, rank) && Eval(after, rank, i, other) == Eval(before, rank, i, other)
    decreases rank[i], 1, 0
  {
    AcyclicKept(before, after, rank);
    ShrunkKeepsOperands(before, after, rank, i, |before[i].children|, other);
    assert after[i] == before[i].(refCount := after[i].refCount);
  }

  lemma {:induction false} ShrunkKeepsOperands(before: seq<Node>, after: seq<Node>, rank: seq<nat>, i: nat, k: nat, other: Meaning)
    requires Acyclic(before, rank) && Acyclic(after, rank) && CountsShrunk(before, after)
    requires i < |before| && k <= |before[i].children|
    ensures after[i].children == before[i].children
    ensures EvalChildren(after, rank, i, k, other) == EvalChildren(before, rank, i, k, other)
    decreases rank[i], 0, k
  {
    assert after[i] == before[i].(refCount := after[i].refCount);
    if k > 0 {
      ShrunkKeepsOperands(before, after, rank, i, k - 1, other);
      ShrunkKeepsValues(before, after, rank, before[i].children[k - 1], other);
    }
  }

  /** When a node loses its last reference, the references it held become pending. */
  lemma DropToZero(nodes: seq<Node>, external: seq<int>, n: nat)
    requires Counted(nodes, external) && n < |nodes| && external[n] >= 1
    ensures var after := nodes[n := nodes[n].(refCount := nodes[n].refCount - 1)];
      Counted(after, Pending(Owed(external, n, -1), if IsLive(nodes[n]) && !IsLive(after[n]) then nodes[n].children else []))
  {
    var dropped := nodes[n].(refCount := nodes[n].refCount - 1);
    forall i | 0 <= i < |nodes|
      ensures LiveEdges(nodes[n := dropped], i) == LiveEdges(nodes, i) - EdgesOf(nodes[n], i) + EdgesOf(dropped, i)
    {
      LiveEdgesUpdate(nodes, n, dropped, i);
    }
  }

  lemma OnePendingLess(external: seq<int>, extra: seq<nat>, c: nat)
    requires c < |extra| && extra[c] < |external|
    ensures Owed(Pending(external, extra[..c + 1]), extra[c], -1) == Pending(external, extra[..c])
  {
    assert extra[..c + 1] == extra[..c] + [extra[c]];
  }

  /** Give up one reference to `n`.  A node that is not referenced any more gives up its own references,
      last child first, unless it has been evaluated, in which case it did so already. */
  method RecursivelyDecReferenceCount(pool: NodePool, n: nat, ghost rank: seq<nat>, ghost external: seq<int>)
    requires Acyclic(pool.nodes, rank) && Counted(pool.nodes, external) && n < |pool.nodes| && external[n] >= 1
    modifies pool
    ensures Counted(pool.nodes, Owed(external, n, -1)) && CountsShrunk(old(pool.nodes), pool.nodes)
    ensures old(pool.nodes[n].refCount) != 1 || old(pool.nodes[n].hasRegister) ==>
      pool.nodes == old(pool.nodes)[n := old(pool.nodes[n]).(refCount := old(pool.nodes[n].refCount) - 1)]
    decreases rank[n], 1, 0
  {
    DropToZero(pool.nodes, external, n);
    DropShrinks(pool.nodes, external, n);
    ghost var before := pool.nodes;
    hide Counted, CountsShrunk, Acyclic, Owed, Pending;
    pool.nodes := pool.nodes[n := pool.nodes[n].(refCount := pool.nodes[n].refCount - 1)];
    ghost var dropped := pool.nodes;
    if pool.nodes[n].refCount == 0 && !pool.nodes[n].hasRegister {
      AcyclicKept(before, dropped, rank);
      ReleaseChildren(pool, n, rank, Owed(external, n, -1));
      ShrunkTwice(before, dropped, pool.nodes);
    } else {
      NothingPending(Owed(external, n, -1));
    }
  }

  lemma NothingPending(external: seq<int>)
    ensures Pending(external, []) == external
  {
  }

  method ReleaseChildren(pool: NodePool, n: nat, ghost rank: seq<nat>, ghost base: seq<int>)
    requires Acyclic(pool.nodes, rank) && n < |pool.nodes| && |base| == |pool.nodes| && (forall i :: 0 <= i < |base| ==> base[i] >= 0)
    requires Counted(pool.nodes, Pending(base, pool.nodes[n].children))
    modifies pool
    ensures Counted(pool.nodes, base) && CountsShrunk(old(pool.nodes), pool.nodes)
    decreases rank[n], 0, 0
  {
    ghost var before := pool.nodes;
    var c := |pool.nodes[n].children|;
    assert pool.nodes[n].children[..c] == pool.nodes[n].children;
    while c > 0
      invariant c <= |before[n].children| && CountsShrunk(before, pool.nodes)
      invariant Counted(pool.nodes, Pending(base, before[n].children[..c]))
    {
      c := c - 1;
      AcyclicKept(before, pool.nodes, rank);
      OnePendingLess(base, before[n].children, c);
      RecursivelyDecReferenceCount(pool, pool.nodes[n].children[c], rank, Pending(base, before[n].children[..c + 1]));
    }
    assert Pending(base, before[n].children[..0]) == base;
  }
}
