/** Counting, for every node in a tree about to be evaluated, the uses it has beyond that tree. */
module FutureUses {
  import opened ILNodes

  /** Only visit marks and future-use counts changed. */
  ghost predicate MarksChanged(before: seq<Node>, after: seq<Node>) {
    && |before| == |after|
    && forall i :: 0 <= i < |before| ==>
         after[i] == before[i].(visitCount := after[i].visitCount, futureUseCount := after[i].futureUseCount)
  }

  ghost predicate IsVisited(n: Node, visit: nat) {
    !n.hasRegister && n.visitCount == visit
  }

  /** The nodes a walk has newly visited. */
  ghost function NewlyVisited(before: seq<Node>, after: seq<Node>, visit: nat): set<nat>
    requires |before| == |after|
  {
    set i: nat | i < |after| && IsVisited(after[i], visit) && !IsVisited(before[i], visit)
  }

  /** References to `i` from the nodes in `from`, with multiplicity. */
  function EdgesFrom(nodes: seq<Node>, from: set<nat>, i: nat): nat {
    if nodes == [] then 0
    else EdgesFrom(nodes[..|nodes| - 1], from, i) + (if |nodes| - 1 in from then multiset(nodes[|nodes| - 1].children)[i] else 0)
  }

  /** The child positions of those nodes that hold `i`. */
  ghost function Positions(nodes: seq<Node>, from: set<nat>, i: nat): set<(int, int)> {
    set j, k | 0 <= j < |nodes| && 0 <= k < |nodes[j].children| && j in from && nodes[j].children[k] == i :: (j, k)
  }

  lemma {:induction false} EdgesFromExactly(nodes: seq<Node>, from: set<nat>, i: nat)
    ensures EdgesFrom(nodes, from, i) == |Positions(nodes, from, i)|
  {
    if nodes == [] {
      assert Positions(nodes, from, i) == {};
    } else {
      var last := |nodes| - 1;
      EdgesFromExactly(nodes[..last], from, i);
      PositionsExactly(nodes[last].children, i, last, last in from);
      PositionsLast(nodes, from, i);
    }
  }

  lemma PositionsLast(nodes: seq<Node>, from: set<nat>, i: nat)
    requires nodes != []
    ensures var last := |nodes| - 1;
      var here := set k | 0 <= k < |nodes[last].children| && last in from && nodes[last].children[k] == i :: (last, k);
      |Positions(nodes, from, i)| == |Positions(nodes[..last], from, i)| + |here|
  {
    var last := |nodes| - 1;
    var here := set k | 0 <= k < |nodes[last].children| && last in from && nodes[last].children[k] == i :: (last, k);
    assert Positions(nodes, from, i) == Positions(nodes[..last], from, i) + here;
    assert Positions(nodes[..last], from, i) !! here;
  }

  lemma {:induction false} EdgesFromUnion(nodes: seq<Node>, s: set<nat>, t: set<nat>, i: nat)
    requires s !! t
    ensures EdgesFrom(nodes, s + t, i) == EdgesFrom(nodes, s, i) + EdgesFrom(nodes, t, i)
  {
    if nodes != [] {
      EdgesFromUnion(nodes[..|nodes| - 1], s, t, i);
    }
  }

  lemma {:induction false} EdgesFromOne(nodes: seq<Node>, n: nat, i: nat)
    ensures EdgesFrom(nodes, {n}, i) == if n < |nodes| then multiset(nodes[n].children)[i] else 0
  {
    if nodes != [] {
      EdgesFromOne(nodes[..|nodes| - 1], n, i);
    }
  }

  lemma {:induction false} EdgesFromNone(nodes: seq<Node>, i: nat)
    ensures EdgesFrom(nodes, {}, i) == 0
  {
    if nodes != [] {
      EdgesFromNone(nodes[..|nodes| - 1], i);
    }
  }

  lemma {:induction false} EdgesFromSame(a: seq<Node>, b: seq<Node>, s: set<nat>, i: nat)
    requires |a| == |b| && forall j :: 0 <= j < |a| ==> a[j].children == b[j].children
    ensures EdgesFrom(a, s, i) == EdgesFrom(b, s, i)
  {
    if a != [] {
      EdgesFromSame(a[..|a| - 1], b[..|b| - 1], s, i);
    }
  }

  /** `seen` counts the references met so far: a visited node's count is what they leave of its
      references, and no reference to an unvisited node has been met. */
  ghost predicate Accounted(nodes: seq<Node>, visit: nat, seen: seq<int>) {
    && |seen| == |nodes|
    && forall i :: 0 <= i < |nodes| && !nodes[i].hasRegister ==>
         if IsVisited(nodes[i], visit)
         then nodes[i].futureUseCount == nodes[i].refCount - (if nodes[i].refCount > 0 then seen[i] else 0)
         else seen[i] == 0
  }

  /** Unevaluated children of the nodes in `done` have been visited. */
  ghost predicate ChildrenVisited(nodes: seq<Node>, done: set<nat>, visit: nat) {
    forall i, k :: i in done && i < |nodes| && 0 <= k < |nodes[i].children| && nodes[i].children[k] < |nodes| ==>
      nodes[nodes[i].children[k]].hasRegister || IsVisited(nodes[nodes[i].children[k]], visit)
  }

  /** A way down through unevaluated nodes. */
  ghost predicate IsPath(nodes: seq<Node>, path: seq<nat>) {
    && path != []
    && (forall j :: 0 <= j < |path| ==> path[j] < |nodes| && !nodes[path[j]].hasRegister)
    && (forall j :: 0 <= j < |path| - 1 ==> path[j + 1] in nodes[path[j]].children)
  }

  ghost predicate Reaches(nodes: seq<Node>, n: nat, i: nat) {
    exists path :: IsPath(nodes, path) && path[0] == n && path[|path| - 1] == i
  }

  lemma ReachesSelf(nodes: seq<Node>, n: nat)
    requires n < |nodes| && !nodes[n].hasRegister
    ensures Reaches(nodes, n, n)
  {
    assert IsPath(nodes, [n]);
  }

  lemma ReachesThrough(nodes: seq<Node>, n: nat, c: nat, i: nat)
    requires n < |nodes| && !nodes[n].hasRegister && c in nodes[n].children && Reaches(nodes, c, i)
    ensures Reaches(nodes, n, i)
  {
    var path :| IsPath(nodes, path) && path[0] == c && path[|path| - 1] == i;
    var longer := [n] + path;
    assert forall j :: 0 <= j < |longer| - 1 ==> longer[j + 1] in nodes[longer[j]].children;
    assert IsPath(nodes, longer);
  }

  lemma ReachesSame(a: seq<Node>, b: seq<Node>, n: nat, i: nat)
    requires MarksChanged(a, b) && Reaches(a, n, i)
    ensures Reaches(b, n, i)
  {
    var path :| IsPath(a, path) && path[0] == n && path[|path| - 1] == i;
    assert IsPath(b, path);
  }

  /** A set closed under unevaluated children contains everything its members reach. */
  lemma {:induction false} ClosedContainsPath(nodes: seq<Node>, visit: nat, path: seq<nat>)
    requires IsPath(nodes, path) && IsVisited(nodes[path[0]], visit)
    requires ChildrenVisited(nodes, (set i: nat | i < |nodes| && IsVisited(nodes[i], visit)), visit)
    ensures IsVisited(nodes[path[|path| - 1]], visit)
  {
    if |path| > 1 {
      var k :| 0 <= k < |nodes[path[0]].children| && nodes[path[0]].children[k] == path[0 + 1];
      assert IsPath(nodes, path[1..]);
      ClosedContainsPath(nodes, visit, path[1..]);
    }
  }

  /** What a walk from `n` has done, given the references met before and after it. */
  ghost predicate Walked(before: seq<Node>, after: seq<Node>, n: nat, visit: nat, seen: seq<int>, met: seq<int>)
    requires n < |before| == |after| == |seen| == |met|
  {
    var newly := NewlyVisited(before, after, visit);
    && MarksChanged(before, after)
    && (forall i :: 0 <= i < |before| && IsVisited(before[i], visit) ==> IsVisited(after[i], visit))
    && (forall i :: 0 <= i < |before| && !IsVisited(after[i], visit) ==> after[i] == before[i])
    && (after[n].hasRegister || IsVisited(after[n], visit))
    && ChildrenVisited(after, newly, visit)
    && (forall i :: i in newly ==> Reaches(after, n, i))
    && (forall i :: 0 <= i < |met| ==> met[i] == seen[i] + EdgesFrom(after, newly, i) + if i == n then 1 else 0)
  }

  /** The same in the middle of the walk, after the first `c` children of `n`. */
  ghost predicate Walking(before: seq<Node>, after: seq<Node>, n: nat, c: nat, visit: nat, seen: seq<int>, met: seq<int>)
    requires n < |before| == |after| == |seen| == |met| && c <= |before[n].children|
  {
    var newly := NewlyVisited(before, after, visit);
    && MarksChanged(before, after) && n in newly
    && (forall i :: 0 <= i < |before| && IsVisited(before[i], visit) ==> IsVisited(after[i], visit))
    && (forall i :: 0 <= i < |before| && !IsVisited(after[i], visit) ==> after[i] == before[i])
    && ChildrenVisited(after, newly - {n}, visit)
    && (forall k :: 0 <= k < c && before[n].children[k] < |after| ==>
          after[before[n].children[k]].hasRegister || IsVisited(after[before[n].children[k]], visit))
    && (forall i :: i in newly ==> Reaches(after, n, i))
    && (forall i :: 0 <= i < |met| ==>
          met[i] == seen[i] + EdgesFrom(after, newly - {n}, i) + multiset(before[n].children[..c])[i])
  }

  lemma NewlyTwice(before: seq<Node>, mid: seq<Node>, after: seq<Node>, n: nat, visit: nat)
    requires |before| == |mid| == |after| && MarksChanged(before, mid) && MarksChanged(mid, after)
    requires forall i :: 0 <= i < |before| && IsVisited(before[i], visit) ==> IsVisited(mid[i], visit)
    requires forall i :: 0 <= i < |before| && IsVisited(mid[i], visit) ==> IsVisited(after[i], visit)
    requires n in NewlyVisited(before, mid, visit)
    ensures var first, more := NewlyVisited(before, mid, visit), NewlyVisited(mid, after, visit);
      NewlyVisited(before, after, visit) == first + more && first !! more
      && NewlyVisited(before, after, visit) - {n} == (first - {n}) + more && (first - {n}) !! more
  {
  }

  lemma StepCounts(before: seq<Node>, mid: seq<Node>, after: seq<Node>, n: nat, c: nat, visit: nat,
                   seen: seq<int>, met: seq<int>, met': seq<int>)
    requires n < |before| == |mid| == |after| == |seen| == |met| == |met'| && c < |before[n].children|
    requires before[n].children[c] < |before|
    requires Walking(before, mid, n, c, visit, seen, met)
    requires Walked(mid, after, before[n].children[c], visit, met, met')
    ensures forall i :: 0 <= i < |met| ==>
      met'[i] == seen[i] + EdgesFrom(after, NewlyVisited(before, after, visit) - {n}, i) + multiset(before[n].children[..c + 1])[i]
  {
    NewlyTwice(before, mid, after, n, visit);
    var first, more := NewlyVisited(before, mid, visit) - {n}, NewlyVisited(mid, after, visit);
    assert NewlyVisited(before, after, visit) - {n} == first + more;
    forall i | 0 <= i < |met|
      ensures met'[i] == seen[i] + EdgesFrom(after, first + more, i) + multiset(before[n].children[..c + 1])[i]
    {
      CountAt(mid, after, before[n].children, c, first, more, i, seen[i], met[i], met'[i]);
    }
  }

  lemma CountAt(mid: seq<Node>, after: seq<Node>, children: seq<nat>, c: nat, first: set<nat>, more: set<nat>, i: nat,
                seen: int, met: int, met': int)
    requires MarksChanged(mid, after) && first !! more && c < |children|
    requires met == seen + EdgesFrom(mid, first, i) + multiset(children[..c])[i]
    requires met' == met + EdgesFrom(after, more, i) + if i == children[c] then 1 else 0
    ensures met' == seen + EdgesFrom(after, first + more, i) + multiset(children[..c + 1])[i]
  {
    EdgesFromUnion(after, first, more, i);
    EdgesFromSame(mid, after, first, i);
    assert children[..c + 1] == children[..c] + [children[c]];
  }

  lemma StepReaches(before: seq<Node>, mid: seq<Node>, after: seq<Node>, n: nat, c: nat, visit: nat,
                    seen: seq<int>, met: seq<int>, met': seq<int>)
    requires n < |before| == |mid| == |after| == |seen| == |met| == |met'| && c < |before[n].children|
    requires before[n].children[c] < |before| && !before[n].hasRegister
    requires Walking(before, mid, n, c, visit, seen, met)
    requires Walked(mid, after, before[n].children[c], visit, met, met')
    ensures forall i :: i in NewlyVisited(before, after, visit) ==> Reaches(after, n, i)
  {
    NewlyTwice(before, mid, after, n, visit);
    forall i | i in NewlyVisited(before, after, visit)
      ensures Reaches(after, n, i)
    {
      if i in NewlyVisited(before, mid, visit) {
        ReachesSame(mid, after, n, i);
      } else {
        ReachesThrough(after, n, before[n].children[c], i);
      }
    }
  }

  lemma ChildrenStillVisited(mid: seq<Node>, after: seq<Node>, done: set<nat>, more: set<nat>, visit: nat)
    requires MarksChanged(mid, after)
    requires forall i :: 0 <= i < |mid| && IsVisited(mid[i], visit) ==> IsVisited(after[i], visit)
    requires ChildrenVisited(mid, done, visit) && ChildrenVisited(after, more, visit)
    ensures ChildrenVisited(after, done + more, visit)
  {
  }

  lemma WalkStep(before: seq<Node>, mid: seq<Node>, after: seq<Node>, n: nat, c: nat, visit: nat,
                 seen: seq<int>, met: seq<int>, met': seq<int>)
    requires n < |before| == |mid| == |after| == |seen| == |met| == |met'| && c < |before[n].children|
    requires before[n].children[c] < |before| && !before[n].hasRegister
    requires Walking(before, mid, n, c, visit, seen, met)
    requires Walked(mid, after, before[n].children[c], visit, met, met')
    ensures Walking(before, after, n, c + 1, visit, seen, met')
  {
    StepCounts(before, mid, after, n, c, visit, seen, met, met');
    StepReaches(before, mid, after, n, c, visit, seen, met, met');
    NewlyTwice(before, mid, after, n, visit);
    ChildrenStillVisited(mid, after, NewlyVisited(before, mid, visit) - {n}, NewlyVisited(mid, after, visit), visit);
  }

  lemma WalkDone(before: seq<Node>, after: seq<Node>, n: nat, visit: nat, seen: seq<int>, met: seq<int>)
    requires n < |before| == |after| == |seen| == |met| && !before[n].hasRegister
    requires Walking(before, after, n, |before[n].children|, visit, seen, met)
    ensures Walked(before, after, n, visit, seen, met[n := met[n] + 1])
  {
    var newly := NewlyVisited(before, after, visit);
    assert newly == {n} + (newly - {n});
    assert before[n].children[..|before[n].children|] == before[n].children;
    forall i | 0 <= i < |met|
      ensures met[i] == seen[i] + EdgesFrom(after, newly, i)
    {
      EdgesFromUnion(after, {n}, newly - {n}, i);
      EdgesFromOne(after, n, i);
    }
  }

  method Initialize(pool: NodePool, n: nat, visit: nat, ghost rank: seq<nat>, ghost seen: seq<int>) returns (ghost met: seq<int>)
    requires Acyclic(pool.nodes, rank) && n < |pool.nodes| && Accounted(pool.nodes, visit, seen)
    modifies pool
    ensures |met| == |pool.nodes| == |old(pool.nodes)| && Accounted(pool.nodes, visit, met)
    ensures Walked(old(pool.nodes), pool.nodes, n, visit, seen, met)
    decreases rank[n], 3
  {
    ghost var before := pool.nodes;
    met := seen;
    if pool.nodes[n].hasRegister {
      met := met[n := met[n] + 1];
      NothingVisited(pool.nodes, n, visit, seen);
      return;
    }
    if pool.nodes[n].visitCount != visit {
      met := FirstVisit(pool, n, visit, rank, seen);
    } else {
      NothingVisited(pool.nodes, n, visit, seen);
    }
    ghost var walked := pool.nodes;
    if pool.nodes[n].refCount > 0 {
      pool.nodes := pool.nodes[n := pool.nodes[n].(futureUseCount := pool.nodes[n].futureUseCount - 1)];
    }
    met := met[n := met[n] + 1];
    AfterDecrement(before, walked, pool.nodes, n, visit, seen, met);
  }

  /** A whole walk with a fresh visit count: exactly the unevaluated nodes reachable from the root are
      visited, and each is left with the references that do not come from the tree: its count less the
      edges from reached nodes, and one less again for the root. */
  method InitializeRoot(pool: NodePool, root: nat, visit: nat, ghost rank: seq<nat>) returns (ghost reached: set<nat>)
    requires Acyclic(pool.nodes, rank) && root < |pool.nodes|
    requires forall i :: 0 <= i < |pool.nodes| && !pool.nodes[i].hasRegister ==> pool.nodes[i].visitCount != visit
    modifies pool
    ensures MarksChanged(old(pool.nodes), pool.nodes)
    ensures forall i :: 0 <= i < |pool.nodes| && i !in reached ==> pool.nodes[i] == old(pool.nodes)[i]
    ensures forall i :: i in reached ==> i < |pool.nodes| && pool.nodes[i].visitCount == visit && !pool.nodes[i].hasRegister
    ensures forall i: nat :: i in reached <==> i < |pool.nodes| && Reaches(pool.nodes, root, i)
    ensures forall i :: i in reached && pool.nodes[i].refCount > 0 ==>
      pool.nodes[i].futureUseCount == pool.nodes[i].refCount - EdgesFrom(pool.nodes, reached, i) - (if i == root then 1 else 0)
    ensures forall i :: i in reached && pool.nodes[i].refCount <= 0 ==> pool.nodes[i].futureUseCount == pool.nodes[i].refCount
  {
    ghost var before, zero := pool.nodes, seq(|pool.nodes|, i => 0);
    ghost var met := Initialize(pool, root, visit, rank, zero);
    reached := NewlyVisited(before, pool.nodes, visit);
    assert reached == (set i: nat | i < |pool.nodes| && IsVisited(pool.nodes[i], visit));
    forall i: nat | i < |pool.nodes| && Reaches(pool.nodes, root, i)
      ensures i in reached
    {
      var path :| IsPath(pool.nodes, path) && path[0] == root && path[|path| - 1] == i;
      ClosedContainsPath(pool.nodes, visit, path);
    }
  }

  /** The first time a node is met, its children are walked. */
  method FirstVisit(pool: NodePool, n: nat, visit: nat, ghost rank: seq<nat>, ghost seen: seq<int>) returns (ghost met: seq<int>)
    requires Acyclic(pool.nodes, rank) && n < |pool.nodes| && Accounted(pool.nodes, visit, seen)
    requires !pool.nodes[n].hasRegister && pool.nodes[n].visitCount != visit
    modifies pool
    ensures |met| == |pool.nodes| == |old(pool.nodes)| && Accounted(pool.nodes, visit, met)
    ensures Walked(old(pool.nodes), pool.nodes, n, visit, seen, met[n := met[n] + 1])
    decreases rank[n], 2
  {
    ghost var before := pool.nodes;
    Mark(pool, n, visit);
    StartWalk(before, pool.nodes, n, visit, seen);
    StartAccounted(before, pool.nodes, n, visit, rank, seen);
    met := WalkChildren(pool, n, visit, rank, before, seen);
  }

  method Mark(pool: NodePool, n: nat, visit: nat)
    requires n < |pool.nodes|
    modifies pool
    ensures pool.nodes == old(pool.nodes)[n := old(pool.nodes[n]).(futureUseCount := old(pool.nodes[n]).refCount, visitCount := visit)]
  {
    pool.nodes := pool.nodes[n := pool.nodes[n].(futureUseCount := pool.nodes[n].refCount, visitCount := visit)];
  }

  method WalkChildren(pool: NodePool, n: nat, visit: nat, ghost rank: seq<nat>, ghost before: seq<Node>, ghost seen: seq<int>)
    returns (ghost met: seq<int>)
    requires n < |before| == |pool.nodes| == |seen| && !before[n].hasRegister && pool.nodes[n].children == before[n].children
    requires Acyclic(pool.nodes, rank) && Accounted(pool.nodes, visit, seen)
    requires Walking(before, pool.nodes, n, 0, visit, seen, seen)
    modifies pool
    ensures |met| == |pool.nodes| == |before| && Accounted(pool.nodes, visit, met)
    ensures Walked(before, pool.nodes, n, visit, seen, met[n := met[n] + 1])
    decreases rank[n], 1
  {
    hide *;
    met := seen;
    var c := 0;
    while c < |pool.nodes[n].children|
      invariant |pool.nodes| == |before| == |met| && c <= |before[n].children| && pool.nodes[n].children == before[n].children
      invariant Acyclic(pool.nodes, rank) && Accounted(pool.nodes, visit, met)
      invariant Walking(before, pool.nodes, n, c, visit, seen, met)
    {
      met := VisitChild(pool, n, c, visit, rank, before, seen, met);
      c := c + 1;
    }
    WalkDone(before, pool.nodes, n, visit, seen, met);
  }

  method VisitChild(pool: NodePool, n: nat, c: nat, visit: nat, ghost rank: seq<nat>, ghost before: seq<Node>,
                    ghost seen: seq<int>, ghost soFar: seq<int>) returns (ghost met: seq<int>)
    requires n < |before| == |pool.nodes| == |seen| == |soFar| && !before[n].hasRegister
    requires pool.nodes[n].children == before[n].children && c < |before[n].children|
    requires Acyclic(pool.nodes, rank) && Accounted(pool.nodes, visit, soFar)
    requires Walking(before, pool.nodes, n, c, visit, seen, soFar)
    modifies pool
    ensures |met| == |pool.nodes| == |before| && pool.nodes[n].children == before[n].children
    ensures Acyclic(pool.nodes, rank) && Accounted(pool.nodes, visit, met)
    ensures Walking(before, pool.nodes, n, c + 1, visit, seen, met)
    decreases rank[n], 0
  {
    ghost var mid := pool.nodes;
    assert mid[n].children[c] < |mid| && rank[mid[n].children[c]] < rank[n];
    hide Walked, Walking, Accounted, Acyclic, MarksChanged;
    met := Initialize(pool, pool.nodes[n].children[c], visit, rank, soFar);
    WalkedMarks(mid, pool.nodes, before[n].children[c], visit, soFar, met);
    WalkStep(before, mid, pool.nodes, n, c, visit, seen, soFar, met);
    MarksKeepAcyclic(mid, pool.nodes, rank);
  }

  lemma WalkedMarks(before: seq<Node>, after: seq<Node>, n: nat, visit: nat, seen: seq<int>, met: seq<int>)
    requires n < |before| == |after| == |seen| == |met| && Walked(before, after, n, visit, seen, met)
    ensures MarksChanged(before, after) && forall i :: 0 <= i < |before| ==> after[i].children == before[i].children
  {
  }

  lemma MarksKeepAcyclic(before: seq<Node>, after: seq<Node>, rank: seq<nat>)
    requires Acyclic(before, rank) && MarksChanged(before, after)
    ensures Acyclic(after, rank)
  {
  }

  lemma NothingVisited(nodes: seq<Node>, n: nat, visit: nat, seen: seq<int>)
    requires n < |nodes| == |seen| && (nodes[n].hasRegister || IsVisited(nodes[n], visit))
    ensures Walked(nodes, nodes, n, visit, seen, seen[n := seen[n] + 1])
  {
    assert NewlyVisited(nodes, nodes, visit) == {};
    forall i | 0 <= i < |nodes|
      ensures EdgesFrom(nodes, {}, i) == 0
    {
      EdgesFromNone(nodes, i);
    }
  }

  lemma StartAccounted(before: seq<Node>, after: seq<Node>, n: nat, visit: nat, rank: seq<nat>, seen: seq<int>)
    requires n < |before| == |after| == |seen| && !before[n].hasRegister && before[n].visitCount != visit
    requires after == before[n := before[n].(futureUseCount := before[n].refCount, visitCount := visit)]
    requires Acyclic(before, rank) && Accounted(before, visit, seen)
    ensures Acyclic(after, rank) && Accounted(after, visit, seen)
  {
    MarksKeepAcyclic(before, after, rank);
  }

  lemma StartWalk(before: seq<Node>, after: seq<Node>, n: nat, visit: nat, seen: seq<int>)
    requires n < |before| == |after| == |seen| && !before[n].hasRegister && before[n].visitCount != visit
    requires after == before[n := before[n].(futureUseCount := before[n].refCount, visitCount := visit)]
    ensures Walking(before, after, n, 0, visit, seen, seen)
  {
    assert NewlyVisited(before, after, visit) == {n};
    assert {n} - {n} == {};
    ReachesSelf(after, n);
    forall i | 0 <= i < |after|
      ensures EdgesFrom(after, {}, i) == 0
    {
      EdgesFromNone(after, i);
    }
  }

  lemma AfterDecrement(before: seq<Node>, walked: seq<Node>, after: seq<Node>, n: nat, visit: nat, seen: seq<int>, met: seq<int>)
    requires n < |before| == |walked| == |after| == |seen| == |met|
    requires Walked(before, walked, n, visit, seen, met)
    requires MarksChanged(walked, after) && forall i :: 0 <= i < |after| ==> after[i].visitCount == walked[i].visitCount
    requires forall i :: 0 <= i < |after| && !IsVisited(after[i], visit) ==> after[i] == walked[i]
    ensures Walked(before, after, n, visit, seen, met)
  {
    var newly := NewlyVisited(before, after, visit);
    assert newly == NewlyVisited(before, walked, visit);
    forall i | 0 <= i < |after|
      ensures EdgesFrom(after, newly, i) == EdgesFrom(walked, newly, i)
    {
      EdgesFromSame(after, walked, newly, i);
    }
    forall i | i in newly
      ensures Reaches(after, n, i)
    {
      ReachesSame(walked, after, n, i);
    }
  }
}
