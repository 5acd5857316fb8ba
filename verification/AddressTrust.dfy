/** When a yes of the address check can be trusted although nodes are commoned: exactly which loads the check
relies on, and what must be known about the states they read. */
module AddressTrust {
  import opened Words
  import opened AddressMatch

  // ----- what the check relies on

  /** Two nodes the check takes for equal, `depth` loads deep: that many loads on either side, one above the
      other, are trusted to read the same states. */
  datatype Leaf = Leaf(left: Node, right: Node, depth: nat)

  /** One side of a leaf. */
  datatype Side = Side(node: Node, depth: nat)

  function Depth(a: Node, b: Node, duringEvaluation: bool): nat
    requires NodeMatches(a, b, true, duringEvaluation)
  {
    if a == b || !(a.Direct? || a.Indirect?) then 0
    else if a.Direct? then 1
    else 1 + Depth(a.base, b.base, duringEvaluation)
  }

  function NodeLeaf(a: Node, b: Node, duringEvaluation: bool): Leaf
    requires NodeMatches(a, b, true, duringEvaluation)
  {
    Leaf(a, b, Depth(a, b, duringEvaluation))
  }

  /** A folded constant offset relies on nothing. */
  function AdditionLeaves(a: Node, b: Node, duringEvaluation: bool): seq<Leaf>
    requires a.Add? && b.Add? && AdditionsMatch(a, b, true, duringEvaluation)
  {
    if NodeMatches(a.first, b.first, true, duringEvaluation) then
      [NodeLeaf(a.first, b.first, duringEvaluation)] +
      if NodeMatches(a.second, b.second, true, duringEvaluation) then [NodeLeaf(a.second, b.second, duringEvaluation)]
      else AdditionLeaves(a.second, b.second, duringEvaluation)
    else if NodeMatches(a.second, b.second, true, duringEvaluation)
        && IsSupportedAdd(a.first) && IsSupportedAdd(b.first)
        && AdditionsMatch(a.first, b.first, true, duringEvaluation) then
      AdditionLeaves(a.first, b.first, duringEvaluation) + [NodeLeaf(a.second, b.second, duringEvaluation)]
    else []
  }

  function Leaves(a: Node, b: Node, duringEvaluation: bool): seq<Leaf>
    requires AddressesMatch(a, b, true, duringEvaluation)
  {
    if NodeMatches(a, b, true, duringEvaluation) then [NodeLeaf(a, b, duringEvaluation)]
    else if IsSupportedAdd(a) && IsSupportedAdd(b) && AdditionsMatch(a, b, true, duringEvaluation) then
      AdditionLeaves(a, b, duringEvaluation)
    else if IsSupportedAdd(a) && IsSupportedAdd(b) && ChildrenMatch(a, b, true, duringEvaluation) then
      AdditionLeaves(a.first, b.first, duringEvaluation) + AdditionLeaves(a.second, b.second, duringEvaluation)
    else if IsSupportedAdd(a) && IsSupportedAdd(b) && NodeMatches(a.second, b.second, true, duringEvaluation) then
      [Leaf(a.first, b.first, 1), NodeLeaf(a.second, b.second, duringEvaluation)]
    else [Leaf(a, b, 1)]
  }

  /** There are that many loads, one above the other. */
  predicate Chain(n: Node, depth: nat) {
    depth > 0 ==> (n.Direct? && depth == 1) || (n.Indirect? && Chain(n.base, depth - 1))
  }

  /** The value if the first loads of a chain read the state at this tree top. */
  function NowValue(n: Node, depth: nat, env: World, w: nat): int
    requires Chain(n, depth)
  {
    if depth == 0 then Eval(n, env, w)
    else if n.Direct? then Wrap(w, env.direct(n.symbol, env.now))
    else Wrap(w, env.indirect(n.symbol, NowValue(n.base, depth - 1, env, w), env.now))
  }

  function Delta(s: Side, env: World, w: nat): int {
    if Chain(s.node, s.depth) then Eval(s.node, env, w) - NowValue(s.node, s.depth, env, w) else 0
  }

  // ----- what is known of the states

  /** The loads none of whose path shows an earlier evaluation: a register during evaluation, a second reference
      before it. */
  function ReadHere(n: Node, duringEvaluation: bool, here: bool): set<Node> {
    var stillHere := here && if duringEvaluation then !n.hasRegister else n.refCount <= 1;
    (if (n.Direct? || n.Indirect?) && stillHere then {n} else {}) +
    match n
    case IntToAddress(_, _, _, child) => ReadHere(child, duringEvaluation, stillHere)
    case Indirect(_, _, _, _, _, base) => ReadHere(base, duringEvaluation, stillHere)
    case Add(_, _, _, _, first, second) =>
      ReadHere(first, duringEvaluation, stillHere) + ReadHere(second, duringEvaluation, stillHere)
    case _ => {}
  }

  lemma {:induction false} InOrderReads(n: Node, env: World, duringEvaluation: bool, here: bool, really: bool)
    requires EvaluatedInOrder(n, env, really) && Truthful(n, env, duringEvaluation, really) && (here ==> really)
    ensures forall m :: m in ReadHere(n, duringEvaluation, here) ==> env.stateOf(m.id) == env.now
  {
    var here', really' := here && (if duringEvaluation then !n.hasRegister else n.refCount <= 1), really && !env.earlier(n.id);
    match n {
      case IntToAddress(_, _, _, child) => InOrderReads(child, env, duringEvaluation, here', really');
      case Indirect(_, _, _, _, _, base) => InOrderReads(base, env, duringEvaluation, here', really');
      case Add(_, _, _, _, first, second) =>
        InOrderReads(first, env, duringEvaluation, here', really');
        InOrderReads(second, env, duringEvaluation, here', really');
      case _ =>
    }
  }

  /** Exactly the nodes that show it were evaluated earlier. */
  ghost predicate ShownEarlier(nodes: set<Node>, env: World, duringEvaluation: bool) {
    forall m :: m in nodes ==> env.earlier(m.id) == if duringEvaluation then m.hasRegister else m.refCount > 1
  }

  /** Such a world is in order as soon as the loads with nothing above them read its present state. */
  lemma {:induction false} ReadsInOrder(n: Node, env: World, duringEvaluation: bool, here: bool, nodes: set<Node>)
    requires Nodes(n) <= nodes && ShownEarlier(nodes, env, duringEvaluation)
    requires forall m :: m in ReadHere(n, duringEvaluation, here) ==> env.stateOf(m.id) == env.now
    ensures EvaluatedInOrder(n, env, here) && Truthful(n, env, duringEvaluation, here)
  {
    assert n in nodes;
    var stillHere := here && !env.earlier(n.id);
    match n {
      case IntToAddress(_, _, _, child) => ReadsInOrder(child, env, duringEvaluation, stillHere, nodes);
      case Indirect(_, _, _, _, _, base) => ReadsInOrder(base, env, duringEvaluation, stillHere, nodes);
      case Add(_, _, _, _, first, second) =>
        ReadsInOrder(first, env, duringEvaluation, stillHere, nodes);
        ReadsInOrder(second, env, duringEvaluation, stillHere, nodes);
      case _ =>
    }
  }

  /** Known to have the value of this tree top: read at it somewhere in the two trees, or never changing. */
  predicate Settled(n: Node, read: set<Node>) {
    n in read || (n.Direct? && n.isMetaData)
  }

  predicate SettledSide(n: Node, depth: nat, read: set<Node>) {
    depth > 0 ==> Settled(n, read) && (n.Indirect? ==> SettledSide(n.base, depth - 1, read))
  }

  /** One of the loads relied on. */
  predicate OnSide(i: Node, n: Node, depth: nat) {
    depth > 0 && (n == i || (n.Indirect? && OnSide(i, n.base, depth - 1)))
  }

  // ----- congruence

  /** Equal as `w`-bit words. */
  ghost predicate Cong(x: int, y: int, w: nat) {
    exists k: int :: x - y == Multiple(k, w)
  }

  function Multiple(k: int, w: nat): int {
    k * Pow2(w)
  }

  lemma CongRefl(x: int, w: nat)
    ensures Cong(x, x, w)
  {
    assert x - x == Multiple(0, w);
  }

  lemma CongSym(x: int, y: int, w: nat)
    requires Cong(x, y, w)
    ensures Cong(y, x, w)
  {
    var k: int :| x - y == Multiple(k, w);
    assert y - x == Multiple(-k, w);
  }

  lemma CongAdd(x: int, y: int, x': int, y': int, w: nat)
    requires Cong(x, y, w) && Cong(x', y', w)
    ensures Cong(x + x', y + y', w)
  {
    var k: int :| x - y == Multiple(k, w);
    var l: int :| x' - y' == Multiple(l, w);
    assert (k + l) * Pow2(w) == k * Pow2(w) + l * Pow2(w);
    assert (x + x') - (y + y') == Multiple(k + l, w);
  }

  lemma CongTrans(x: int, y: int, z: int, w: nat)
    requires Cong(x, y, w) && Cong(y, z, w)
    ensures Cong(x, z, w)
  {
    CongAdd(x, y, y, z, w);
    var k: int :| (x + y) - (y + z) == Multiple(k, w);
    assert x - z == Multiple(k, w);
  }

  lemma CongTimes(x: int, y: int, c: int, w: nat)
    requires Cong(x, y, w)
    ensures Cong(x * c, y * c, w)
  {
    var k: int :| x - y == Multiple(k, w);
    assert x * c - y * c == (x - y) * c;
    assert (k * Pow2(w)) * c == (k * c) * Pow2(w);
    assert x * c - y * c == Multiple(k * c, w);
  }

  lemma CongWrap(x: int, w: nat)
    ensures Cong(Wrap(w, x), x, w)
  {
    assert Wrap(w, x) - x == Multiple(-(x / Pow2(w)), w);
  }

  /** Words that are congruent are equal. */
  lemma CongWords(x: int, y: int, w: nat)
    requires Cong(x, y, w) && IsUnsigned(w, x) && IsUnsigned(w, y)
    ensures x == y
  {
    var k: int :| x - y == Multiple(k, w);
    DivModUnique(x, Pow2(w), k, y);
    DivModUnique(x, Pow2(w), 0, x);
  }

  lemma {:induction false} EvalIsWord(n: Node, env: World, w: nat)
    ensures IsUnsigned(w, Eval(n, env, w))
  {
  }

  // ----- sums over sides

  function Sigma(s: seq<Side>, f: Side -> int): int {
    if s == [] then 0 else f(s[0]) + Sigma(s[1..], f)
  }

  function Count(s: seq<Side>, k: Side): nat {
    if s == [] then 0 else (if s[0] == k then 1 else 0) + Count(s[1..], k)
  }

  function Drop(s: seq<Side>, k: Side): seq<Side> {
    if s == [] then [] else if s[0] == k then Drop(s[1..], k) else [s[0]] + Drop(s[1..], k)
  }

  lemma {:induction false} DropSigma(s: seq<Side>, f: Side -> int, k: Side)
    ensures Sigma(s, f) == Sigma(Drop(s, k), f) + Count(s, k) * f(k)
  {
    if s != [] {
      DropSigma(s[1..], f, k);
      if s[0] == k {
        OneMore(Count(s[1..], k), f(k));
      } else {
        var rest := Drop(s[1..], k);
        assert ([s[0]] + rest)[1..] == rest;
      }
    }
  }

  lemma OneMore(n: int, v: int)
    ensures (1 + n) * v == v + n * v
  {
  }

  lemma {:induction false} DropCounts(s: seq<Side>, k: Side, j: Side)
    ensures Count(Drop(s, k), j) == if j == k then 0 else Count(s, j)
    ensures |Drop(s, k)| <= |s| && (k in s ==> |Drop(s, k)| < |s|)
  {
    if s != [] {
      DropCounts(s[1..], k, j);
      if s[0] != k {
        var rest := Drop(s[1..], k);
        assert ([s[0]] + rest)[1..] == rest;
      }
    }
  }

  /** What `k` contributes is the same on both sides. */
  ghost predicate Even(l: seq<Side>, r: seq<Side>, f: Side -> int, w: nat, k: Side) {
    f(k) == 0 || Cong(Count(l, k), Count(r, k), w)
  }

  lemma EvenTerms(l: seq<Side>, r: seq<Side>, f: Side -> int, w: nat, k: Side)
    requires Even(l, r, f, w, k)
    ensures Cong(Count(l, k) * f(k), Count(r, k) * f(k), w)
  {
    if f(k) == 0 {
      CongRefl(0, w);
    } else {
      CongTimes(Count(l, k), Count(r, k), f(k), w);
    }
  }

  lemma EvenAfterDrop(l: seq<Side>, r: seq<Side>, f: Side -> int, w: nat, k: Side, j: Side)
    requires Even(l, r, f, w, j)
    ensures Even(Drop(l, k), Drop(r, k), f, w, j)
  {
    DropCounts(l, k, j);
    DropCounts(r, k, j);
    CongRefl(0, w);
  }

  /** Sums over sides that occur equally often on the left and on the right, up to whole words, agree. */
  lemma {:induction false} SigmaBalanced(l: seq<Side>, r: seq<Side>, f: Side -> int, w: nat)
    requires forall k :: Even(l, r, f, w, k)
    ensures Cong(Sigma(l, f), Sigma(r, f), w)
    decreases |l| + |r|
  {
    hide Even, Cong, Count, Drop;
    if l == [] && r == [] {
      CongRefl(0, w);
    } else {
      var k := if l != [] then l[0] else r[0];
      DropSigma(l, f, k);
      DropSigma(r, f, k);
      DropCounts(l, k, k);
      DropCounts(r, k, k);
      forall j ensures Even(Drop(l, k), Drop(r, k), f, w, j) {
        EvenAfterDrop(l, r, f, w, k, j);
      }
      hide Sigma;
      SigmaBalanced(Drop(l, k), Drop(r, k), f, w);
      EvenTerms(l, r, f, w, k);
      CongAdd(Sigma(Drop(l, k), f), Sigma(Drop(r, k), f), Count(l, k) * f(k), Count(r, k) * f(k), w);
    }
  }

  lemma {:induction false} SigmaOne(s: seq<Side>, f: Side -> int, k: Side)
    requires forall j :: j in s && j != k ==> f(j) == 0
    ensures Sigma(s, f) == Count(s, k) * f(k)
  {
    if s != [] {
      SigmaOne(s[1..], f, k);
      if s[0] == k {
        OneMore(Count(s[1..], k), f(k));
      }
    }
  }

  // ----- the difference of the two addresses is the sum of what the loads relied on contribute

  function Lefts(leaves: seq<Leaf>): seq<Side> {
    if leaves == [] then [] else [Side(leaves[0].left, leaves[0].depth)] + Lefts(leaves[1..])
  }

  function Rights(leaves: seq<Leaf>): seq<Side> {
    if leaves == [] then [] else [Side(leaves[0].right, leaves[0].depth)] + Rights(leaves[1..])
  }

  function DeltaIn(env: World, w: nat): Side -> int {
    s => Delta(s, env, w)
  }

  ghost predicate Decomposed(a: Node, b: Node, leaves: seq<Leaf>, env: World, w: nat) {
    Cong(Eval(a, env, w) + Sigma(Rights(leaves), DeltaIn(env, w)), Eval(b, env, w) + Sigma(Lefts(leaves), DeltaIn(env, w)), w)
  }

  lemma {:induction false} SigmaAppend(s: seq<Side>, t: seq<Side>, f: Side -> int)
    ensures Sigma(s + t, f) == Sigma(s, f) + Sigma(t, f)
  {
    if s == [] {
      assert s + t == t;
    } else {
      SigmaAppend(s[1..], t, f);
      assert (s + t)[1..] == s[1..] + t;
    }
  }

  lemma SigmaSingle(k: Side, f: Side -> int)
    ensures Sigma([k], f) == f(k)
  {
    assert [k][1..] == [] && Sigma([k][1..], f) == 0;
  }

  lemma {:induction false} LeftsAppend(l: seq<Leaf>, m: seq<Leaf>)
    ensures Lefts(l + m) == Lefts(l) + Lefts(m)
  {
    if l == [] {
      assert l + m == m;
    } else {
      LeftsAppend(l[1..], m);
      assert (l + m)[1..] == l[1..] + m;
    }
  }

  lemma {:induction false} RightsAppend(l: seq<Leaf>, m: seq<Leaf>)
    ensures Rights(l + m) == Rights(l) + Rights(m)
  {
    if l == [] {
      assert l + m == m;
    } else {
      RightsAppend(l[1..], m);
      assert (l + m)[1..] == l[1..] + m;
    }
  }

  lemma SidesAppend(l: seq<Leaf>, m: seq<Leaf>)
    ensures Lefts(l + m) == Lefts(l) + Lefts(m) && Rights(l + m) == Rights(l) + Rights(m)
  {
    hide Lefts, Rights;
    LeftsAppend(l, m);
    RightsAppend(l, m);
  }

  lemma DecomposedSum(a: Node, b: Node, l: seq<Leaf>, m: seq<Leaf>, env: World, w: nat)
    requires IsSupportedAdd(a) && IsSupportedAdd(b)
    requires Decomposed(a.first, b.first, l, env, w) && Decomposed(a.second, b.second, m, env, w)
    ensures Decomposed(a, b, l + m, env, w)
  {
    var f := DeltaIn(env, w);
    SidesAppend(l, m);
    SigmaAppend(Lefts(l), Lefts(m), f);
    SigmaAppend(Rights(l), Rights(m), f);
    SumOf(a, env, w);
    SumOf(b, env, w);
    hide Eval, Sigma, Cong, DeltaIn, Lefts, Rights;
    var x, x', y, y' := Eval(a.first, env, w), Eval(a.second, env, w), Eval(b.first, env, w), Eval(b.second, env, w);
    CongWrap(x + x', w);
    CongWrap(y + y', w);
    var r, r', t, t' := Sigma(Rights(l), f), Sigma(Rights(m), f), Sigma(Lefts(l), f), Sigma(Lefts(m), f);
    CongAdd(x + r, y + t, x' + r', y' + t', w);
    assert (x + r) + (x' + r') == (x + x') + (r + r') && (y + t) + (y' + t') == (y + y') + (t + t');
    CongRefl(r + r', w);
    CongRefl(t + t', w);
    CongAdd(Eval(a, env, w), x + x', r + r', r + r', w);
    CongAdd(Eval(b, env, w), y + y', t + t', t + t', w);
    CongTrans(Eval(a, env, w) + (r + r'), (x + x') + (r + r'), (y + y') + (t + t'), w);
    CongSym(Eval(b, env, w) + (t + t'), (y + y') + (t + t'), w);
    CongTrans(Eval(a, env, w) + (r + r'), (y + y') + (t + t'), Eval(b, env, w) + (t + t'), w);
  }

  /** Both sides are chains, with the same value if all their loads read the state at this tree top. */
  ghost predicate LeafOk(l: Leaf, env: World, w: nat) {
    && Chain(l.left, l.depth) && Chain(l.right, l.depth)
    && NowValue(l.left, l.depth, env, w) == NowValue(l.right, l.depth, env, w)
  }

  lemma DecomposedLeaf(l: Leaf, env: World, w: nat)
    requires LeafOk(l, env, w)
    ensures Decomposed(l.left, l.right, [l], env, w)
  {
    var f := DeltaIn(env, w);
    OneSide(l);
    SigmaSingle(Side(l.left, l.depth), f);
    SigmaSingle(Side(l.right, l.depth), f);
    CongRefl(Eval(l.left, env, w) + Sigma(Rights([l]), f), w);
  }

  lemma DecomposedEqual(a: Node, b: Node, env: World, w: nat)
    requires Eval(a, env, w) == Eval(b, env, w)
    ensures Decomposed(a, b, [], env, w)
  {
    CongRefl(Eval(a, env, w) + 0, w);
  }

  lemma {:induction false} NodeLeafOk(a: Node, b: Node, duringEvaluation: bool, env: World, w: nat)
    requires NodeMatches(a, b, true, duringEvaluation) && MetaDataFixed(a, env)
    ensures LeafOk(NodeLeaf(a, b, duringEvaluation), env, w)
  {
    if a != b && a.Indirect? {
      NodeLeafOk(a.base, b.base, duringEvaluation, env, w);
    } else if a != b && a.IntToAddress? {
      assert MetaDataFixed(a.child, env);
      assert Eval(a.child, env, w) == Eval(b.child, env, w);
    }
  }

  lemma NodeDecomposed(a: Node, b: Node, duringEvaluation: bool, env: World, w: nat)
    requires NodeMatches(a, b, true, duringEvaluation) && MetaDataFixed(a, env)
    ensures Decomposed(a, b, [NodeLeaf(a, b, duringEvaluation)], env, w)
  {
    NodeLeafOk(a, b, duringEvaluation, env, w);
    DecomposedLeaf(NodeLeaf(a, b, duringEvaluation), env, w);
  }

  lemma {:induction false} AdditionsDecomposed(a: Node, b: Node, duringEvaluation: bool, env: World, w: nat)
    requires IsSupportedAdd(a) && IsSupportedAdd(b) && w <= 64
    requires AdditionsMatch(a, b, true, duringEvaluation) && MetaDataFixed(a, env)
    ensures Decomposed(a, b, AdditionLeaves(a, b, duringEvaluation), env, w)
  {
    hide Decomposed;
    if NodeMatches(a.first, b.first, true, duringEvaluation) {
      NodeDecomposed(a.first, b.first, duringEvaluation, env, w);
      if NodeMatches(a.second, b.second, true, duringEvaluation) {
        NodeDecomposed(a.second, b.second, duringEvaluation, env, w);
        DecomposedSum(a, b, [NodeLeaf(a.first, b.first, duringEvaluation)], [NodeLeaf(a.second, b.second, duringEvaluation)], env, w);
      } else {
        AdditionsDecomposed(a.second, b.second, duringEvaluation, env, w);
        DecomposedSum(a, b, [NodeLeaf(a.first, b.first, duringEvaluation)], AdditionLeaves(a.second, b.second, duringEvaluation), env, w);
      }
    } else if NodeMatches(a.second, b.second, true, duringEvaluation)
        && IsSupportedAdd(a.first) && IsSupportedAdd(b.first)
        && AdditionsMatch(a.first, b.first, true, duringEvaluation) {
      NodeDecomposed(a.second, b.second, duringEvaluation, env, w);
      AdditionsDecomposed(a.first, b.first, duringEvaluation, env, w);
      DecomposedSum(a, b, AdditionLeaves(a.first, b.first, duringEvaluation), [NodeLeaf(a.second, b.second, duringEvaluation)], env, w);
    } else {
      FoldedMatch(a, b, env, w);
      DecomposedEqual(a, b, env, w);
    }
  }

  lemma IndirectionDecomposed(a: Node, b: Node, duringEvaluation: bool, env: World, w: nat)
    requires IndirectionsMatch(a, b, duringEvaluation) && w <= 64
    ensures Decomposed(a, b, [Leaf(a, b, 1)], env, w)
  {
    AddressesMatchSound(a.base, b.base, false, duringEvaluation, env, w);
    DecomposedLeaf(Leaf(a, b, 1), env, w);
  }

  /** Whatever the states: the addresses differ by the sum of the contributions of the loads relied on. */
  lemma LeavesDecompose(a: Node, b: Node, duringEvaluation: bool, env: World, w: nat)
    requires AddressesMatch(a, b, true, duringEvaluation) && MetaDataFixed(a, env) && w <= 64
    ensures Decomposed(a, b, Leaves(a, b, duringEvaluation), env, w)
  {
    hide Decomposed;
    if NodeMatches(a, b, true, duringEvaluation) {
      NodeDecomposed(a, b, duringEvaluation, env, w);
    } else if IsSupportedAdd(a) && IsSupportedAdd(b) && AdditionsMatch(a, b, true, duringEvaluation) {
      AdditionsDecomposed(a, b, duringEvaluation, env, w);
    } else if IsSupportedAdd(a) && IsSupportedAdd(b) && ChildrenMatch(a, b, true, duringEvaluation) {
      AdditionsDecomposed(a.first, b.first, duringEvaluation, env, w);
      AdditionsDecomposed(a.second, b.second, duringEvaluation, env, w);
      DecomposedSum(a, b, AdditionLeaves(a.first, b.first, duringEvaluation), AdditionLeaves(a.second, b.second, duringEvaluation), env, w);
    } else if IsSupportedAdd(a) && IsSupportedAdd(b) && NodeMatches(a.second, b.second, true, duringEvaluation) {
      IndirectionDecomposed(a.first, b.first, duringEvaluation, env, w);
      NodeDecomposed(a.second, b.second, duringEvaluation, env, w);
      var first, second := Leaf(a.first, b.first, 1), NodeLeaf(a.second, b.second, duringEvaluation);
      DecomposedSum(a, b, [first], [second], env, w);
      assert [first] + [second] == [first, second];
    } else {
      IndirectionDecomposed(a, b, duringEvaluation, env, w);
    }
  }

  // ----- the graph

  /** All nodes of a tree. */
  function Nodes(n: Node): set<Node> {
    {n} +
    match n
    case IntToAddress(_, _, _, child) => Nodes(child)
    case Indirect(_, _, _, _, _, base) => Nodes(base)
    case Add(_, _, _, _, first, second) => Nodes(first) + Nodes(second)
    case _ => {}
  }

  /** A node's number identifies it. */
  ghost predicate NumbersIdentify(nodes: set<Node>) {
    forall m, n :: m in nodes && n in nodes && m.id == n.id ==> m == n
  }

  /** Being method meta-data is a property of the symbol. */
  ghost predicate MetaDataBySymbol(nodes: set<Node>) {
    forall m, n :: m in nodes && n in nodes && m.Direct? && n.Direct? && m.symbol == n.symbol ==> m.isMetaData == n.isMetaData
  }

  lemma {:induction false} NodesBelow(n: Node, m: Node)
    requires m in Nodes(n)
    ensures Nodes(m) <= Nodes(n)
  {
    if m != n {
      match n {
        case IntToAddress(_, _, _, child) => NodesBelow(child, m);
        case Indirect(_, _, _, _, _, base) => NodesBelow(base, m);
        case Add(_, _, _, _, first, second) =>
          if m in Nodes(first) { NodesBelow(first, m); } else { NodesBelow(second, m); }
      }
    }
  }

  lemma {:induction false} MetaDataBelow(n: Node, m: Node, env: World)
    requires MetaDataFixed(n, env) && m in Nodes(n)
    ensures MetaDataFixed(m, env)
  {
    if m != n {
      match n {
        case IntToAddress(_, _, _, child) => MetaDataBelow(child, m, env);
        case Indirect(_, _, _, _, _, base) => MetaDataBelow(base, m, env);
        case Add(_, _, _, _, first, second) =>
          if m in Nodes(first) { MetaDataBelow(first, m, env); } else { MetaDataBelow(second, m, env); }
      }
    }
  }

  ghost predicate LeavesWithin(leaves: seq<Leaf>, a: Node, b: Node) {
    forall i :: 0 <= i < |leaves| ==>
      && leaves[i].left in Nodes(a) && leaves[i].right in Nodes(b)
      && Chain(leaves[i].left, leaves[i].depth) && Chain(leaves[i].right, leaves[i].depth)
  }

  lemma {:induction false} NodeLeafChains(a: Node, b: Node, duringEvaluation: bool)
    requires NodeMatches(a, b, true, duringEvaluation)
    ensures LeavesWithin([NodeLeaf(a, b, duringEvaluation)], a, b)
  {
    if a != b && a.Indirect? {
      NodeLeafChains(a.base, b.base, duringEvaluation);
      assert LeavesWithin([NodeLeaf(a.base, b.base, duringEvaluation)], a.base, b.base);
      var l := [NodeLeaf(a.base, b.base, duringEvaluation)][0];
      assert Chain(l.left, l.depth);
    }
  }

  lemma WithinSum(a: Node, b: Node, l: seq<Leaf>, m: seq<Leaf>)
    requires a.Add? && b.Add? && LeavesWithin(l, a.first, b.first) && LeavesWithin(m, a.second, b.second)
    ensures LeavesWithin(l + m, a, b)
  {
  }

  lemma {:induction false} AdditionLeavesWithin(a: Node, b: Node, duringEvaluation: bool)
    requires a.Add? && b.Add? && AdditionsMatch(a, b, true, duringEvaluation)
    ensures LeavesWithin(AdditionLeaves(a, b, duringEvaluation), a, b)
  {
    hide LeavesWithin;
    if NodeMatches(a.first, b.first, true, duringEvaluation) {
      NodeLeafChains(a.first, b.first, duringEvaluation);
      var l := [NodeLeaf(a.first, b.first, duringEvaluation)];
      if NodeMatches(a.second, b.second, true, duringEvaluation) {
        NodeLeafChains(a.second, b.second, duringEvaluation);
        WithinSum(a, b, l, [NodeLeaf(a.second, b.second, duringEvaluation)]);
      } else {
        AdditionLeavesWithin(a.second, b.second, duringEvaluation);
        WithinSum(a, b, l, AdditionLeaves(a.second, b.second, duringEvaluation));
      }
    } else if NodeMatches(a.second, b.second, true, duringEvaluation)
        && IsSupportedAdd(a.first) && IsSupportedAdd(b.first)
        && AdditionsMatch(a.first, b.first, true, duringEvaluation) {
      AdditionLeavesWithin(a.first, b.first, duringEvaluation);
      NodeLeafChains(a.second, b.second, duringEvaluation);
      WithinSum(a, b, AdditionLeaves(a.first, b.first, duringEvaluation), [NodeLeaf(a.second, b.second, duringEvaluation)]);
    } else {
      NothingWithin(a, b);
    }
  }

  lemma NothingWithin(a: Node, b: Node)
    ensures LeavesWithin([], a, b)
  {
  }

  lemma IndirectionWithin(a: Node, b: Node)
    requires a.Indirect? && b.Indirect?
    ensures LeavesWithin([Leaf(a, b, 1)], a, b)
  {
    assert a in Nodes(a) && b in Nodes(b) && Chain(a.base, 0) && Chain(b.base, 0);
  }

  lemma LeavesAreWithin(a: Node, b: Node, duringEvaluation: bool)
    requires AddressesMatch(a, b, true, duringEvaluation)
    ensures LeavesWithin(Leaves(a, b, duringEvaluation), a, b)
  {
    if NodeMatches(a, b, true, duringEvaluation) {
      NodeLeafChains(a, b, duringEvaluation);
    } else if IsSupportedAdd(a) && IsSupportedAdd(b) && AdditionsMatch(a, b, true, duringEvaluation) {
      AdditionLeavesWithin(a, b, duringEvaluation);
    } else if IsSupportedAdd(a) && IsSupportedAdd(b) && ChildrenMatch(a, b, true, duringEvaluation) {
      AdditionLeavesWithin(a.first, b.first, duringEvaluation);
      AdditionLeavesWithin(a.second, b.second, duringEvaluation);
      WithinSum(a, b, AdditionLeaves(a.first, b.first, duringEvaluation), AdditionLeaves(a.second, b.second, duringEvaluation));
    } else if IsSupportedAdd(a) && IsSupportedAdd(b) && NodeMatches(a.second, b.second, true, duringEvaluation) {
      IndirectionWithin(a.first, b.first);
      NodeLeafChains(a.second, b.second, duringEvaluation);
      var first, second := [Leaf(a.first, b.first, 1)], [NodeLeaf(a.second, b.second, duringEvaluation)];
      WithinSum(a, b, first, second);
      assert first + second == [first[0], second[0]];
    } else {
      IndirectionWithin(a, b);
    }
  }

  // ----- sufficiency

  /** In every world in which evaluation goes in order, the addresses are equal. */
  ghost predicate AlwaysEqual(a: Node, b: Node, duringEvaluation: bool, w: nat) {
    forall env: World :: InOrder(a, b, env, duringEvaluation) ==> Eval(a, env, w) == Eval(b, env, w)
  }

  ghost predicate InOrder(a: Node, b: Node, env: World, duringEvaluation: bool) {
    && EvaluatedInOrder(a, env, true) && EvaluatedInOrder(b, env, true)
    && Truthful(a, env, duringEvaluation, true) && Truthful(b, env, duringEvaluation, true)
    && MetaDataFixed(a, env) && MetaDataFixed(b, env)
  }

  /** The loads known to be read at this tree top. */
  function Read(a: Node, b: Node, duringEvaluation: bool): set<Node> {
    ReadHere(a, duringEvaluation, true) + ReadHere(b, duringEvaluation, true)
  }

  /** Whatever is not settled occurs equally often on the left and on the right, up to whole words. */
  ghost predicate Balanced(leaves: seq<Leaf>, read: set<Node>, w: nat) {
    forall k :: k in Lefts(leaves) + Rights(leaves) && !SettledSide(k.node, k.depth, read) ==>
      Cong(Count(Lefts(leaves), k), Count(Rights(leaves), k), w)
  }

  lemma {:induction false} SettledContributesNothing(n: Node, depth: nat, env: World, w: nat, read: set<Node>)
    requires SettledSide(n, depth, read) && MetaDataFixed(n, env)
    requires forall m :: m in read ==> env.stateOf(m.id) == env.now
    ensures Delta(Side(n, depth), env, w) == 0
  {
    if depth > 0 && n.Indirect? {
      SettledContributesNothing(n.base, depth - 1, env, w, read);
    }
  }

  lemma {:induction false} CountZero(s: seq<Side>, k: Side)
    ensures k in s <==> Count(s, k) > 0
  {
    if s != [] {
      CountZero(s[1..], k);
      assert s == [s[0]] + s[1..];
    }
  }

  lemma {:induction false} SideWithin(leaves: seq<Leaf>, a: Node, b: Node, k: Side)
    requires LeavesWithin(leaves, a, b)
    ensures k in Lefts(leaves) ==> k.node in Nodes(a) && Chain(k.node, k.depth)
    ensures k in Rights(leaves) ==> k.node in Nodes(b) && Chain(k.node, k.depth)
  {
    if leaves != [] {
      assert LeavesWithin(leaves[1..], a, b);
      SideWithin(leaves[1..], a, b, k);
      assert leaves[0].left in Nodes(a) && leaves[0].right in Nodes(b);
    }
  }

  /** If what the check relies on is settled or cancels, a yes is right. */
  lemma BalancedIsSafe(a: Node, b: Node, duringEvaluation: bool, w: nat)
    requires AddressesMatch(a, b, true, duringEvaluation) && w <= 64
    requires Balanced(Leaves(a, b, duringEvaluation), Read(a, b, duringEvaluation), w)
    ensures AlwaysEqual(a, b, duringEvaluation, w)
  {
    hide Balanced, Eval, Leaves, Read, AddressesMatch, InOrder;
    forall env: World | InOrder(a, b, env, duringEvaluation) ensures Eval(a, env, w) == Eval(b, env, w) {
      BalancedInWorld(a, b, duringEvaluation, env, w);
    }
  }

  lemma BalancedInWorld(a: Node, b: Node, duringEvaluation: bool, env: World, w: nat)
    requires AddressesMatch(a, b, true, duringEvaluation) && w <= 64 && InOrder(a, b, env, duringEvaluation)
    requires Balanced(Leaves(a, b, duringEvaluation), Read(a, b, duringEvaluation), w)
    ensures Eval(a, env, w) == Eval(b, env, w)
  {
    var leaves, read := Leaves(a, b, duringEvaluation), Read(a, b, duringEvaluation);
    LeavesAreWithin(a, b, duringEvaluation);
    InOrderReads(a, env, duringEvaluation, true, true);
    InOrderReads(b, env, duringEvaluation, true, true);
    hide Balanced, Eval, Leaves, LeavesWithin, AddressesMatch, Decomposed, Sigma, Even, Cong;
    forall k ensures Even(Lefts(leaves), Rights(leaves), DeltaIn(env, w), w, k) {
      EvenSide(leaves, a, b, read, env, w, k);
    }
    SigmaBalanced(Lefts(leaves), Rights(leaves), DeltaIn(env, w), w);
    LeavesDecompose(a, b, duringEvaluation, env, w);
    EqualWhenEven(a, b, leaves, env, w);
  }

  lemma EvenSide(leaves: seq<Leaf>, a: Node, b: Node, read: set<Node>, env: World, w: nat, k: Side)
    requires LeavesWithin(leaves, a, b) && Balanced(leaves, read, w)
    requires MetaDataFixed(a, env) && MetaDataFixed(b, env) && forall m :: m in read ==> env.stateOf(m.id) == env.now
    ensures Even(Lefts(leaves), Rights(leaves), DeltaIn(env, w), w, k)
  {
    hide Cong, LeavesWithin, SettledSide, MetaDataFixed;
    CountZero(Lefts(leaves), k);
    CountZero(Rights(leaves), k);
    if k in Lefts(leaves) || k in Rights(leaves) {
      assert k in Lefts(leaves) + Rights(leaves);
      if SettledSide(k.node, k.depth, read) {
        SideWithin(leaves, a, b, k);
        MetaDataBelow(if k in Lefts(leaves) then a else b, k.node, env);
        SettledContributesNothing(k.node, k.depth, env, w, read);
      }
    } else {
      CongRefl(0, w);
    }
  }

  lemma EqualWhenEven(a: Node, b: Node, leaves: seq<Leaf>, env: World, w: nat)
    requires Decomposed(a, b, leaves, env, w)
    requires Cong(Sigma(Lefts(leaves), DeltaIn(env, w)), Sigma(Rights(leaves), DeltaIn(env, w)), w)
    ensures Eval(a, env, w) == Eval(b, env, w)
  {
    EvalIsWord(a, env, w);
    EvalIsWord(b, env, w);
    hide Eval, Sigma, Cong;
    var x, y, l, r := Eval(a, env, w), Eval(b, env, w), Sigma(Lefts(leaves), DeltaIn(env, w)), Sigma(Rights(leaves), DeltaIn(env, w));
    CongAdd(x + r, y + l, l, r, w);
    CongRefl(-(l + r), w);
    CongAdd(x + r + l, y + l + r, -(l + r), -(l + r), w);
    assert x + r + l + -(l + r) == x && y + l + r + -(l + r) == y;
    CongWords(x, y, w);
  }

  // ----- necessity: a world in which a single load read an earlier state

  /** State 0 is the earlier one, 1 the present.  What `i` read then is one more than what it would read now;
      otherwise a load through an address yields that address. */
  ghost function Flip(i: Node, nodes: set<Node>, duringEvaluation: bool): World {
    World(s => 0,
          (s, t) => if i.Direct? && s == i.symbol && t == 0 then 1 else 0,
          (s, x, t) => if t == 0 then x + 1 else x,
          x => 0, j => 0, j => if j == i.id then 0 else 1,
          j => exists m :: m in nodes && m.id == j && if duringEvaluation then m.hasRegister else m.refCount > 1, 1)
  }

  function Occurrences(i: Node, n: Node, depth: nat): nat {
    if depth == 0 then 0
    else (if n == i then 1 else 0) + if n.Indirect? then Occurrences(i, n.base, depth - 1) else 0
  }

  lemma CongPlusOne(x: int, y: int, c: int, w: nat)
    requires Cong(x, y + c, w)
    ensures Cong(Wrap(w, x + 1), Wrap(w, y) + (1 + c), w) && Cong(Wrap(w, x), Wrap(w, y) + c, w)
  {
    CongWrap(x, w);
    CongWrap(x + 1, w);
    CongWrap(y, w);
    CongSym(Wrap(w, y), y, w);
    CongRefl(c, w);
    CongRefl(1 + c, w);
    CongRefl(1, w);
    CongAdd(x, y + c, 1, 1, w);
    assert y + c + 1 == y + (1 + c);
    CongAdd(y, Wrap(w, y), c, c, w);
    CongAdd(y, Wrap(w, y), 1 + c, 1 + c, w);
    CongTrans(x, y + c, Wrap(w, y) + c, w);
    CongTrans(Wrap(w, x), x, Wrap(w, y) + c, w);
    CongTrans(x + 1, y + (1 + c), Wrap(w, y) + (1 + c), w);
    CongTrans(Wrap(w, x + 1), x + 1, Wrap(w, y) + (1 + c), w);
  }

  /** In that world a chain contributes the number of times `i` is in it. */
  lemma {:induction false} FlipContributes(i: Node, n: Node, depth: nat, nodes: set<Node>, duringEvaluation: bool, w: nat)
    requires Chain(n, depth) && Nodes(n) <= nodes && NumbersIdentify(nodes + {i})
    ensures Cong(Eval(n, Flip(i, nodes, duringEvaluation), w), NowValue(n, depth, Flip(i, nodes, duringEvaluation), w) + Occurrences(i, n, depth), w)
  {
    var env := Flip(i, nodes, duringEvaluation);
    if depth == 0 {
      CongRefl(Eval(n, env, w), w);
    } else {
      assert n in nodes + {i};
      assert n.id == i.id <==> n == i;
      if n.Direct? {
        CongRefl(0, w);
        CongPlusOne(0, 0, 0, w);
        CongRefl(Wrap(w, 0), w);
      } else {
        FlipContributes(i, n.base, depth - 1, nodes, duringEvaluation, w);
        CongPlusOne(Eval(n.base, env, w), NowValue(n.base, depth - 1, env, w), Occurrences(i, n.base, depth - 1), w);
      }
    }
  }

  lemma {:induction false} FlipKeepsMetaData(i: Node, n: Node, nodes: set<Node>, duringEvaluation: bool)
    requires Nodes(n) <= nodes && i in nodes && MetaDataBySymbol(nodes) && !(i.Direct? && i.isMetaData)
    ensures MetaDataFixed(n, Flip(i, nodes, duringEvaluation))
  {
    assert n in nodes;
    match n {
      case IntToAddress(_, _, _, child) => FlipKeepsMetaData(i, child, nodes, duringEvaluation);
      case Indirect(_, _, _, _, _, base) => FlipKeepsMetaData(i, base, nodes, duringEvaluation);
      case Add(_, _, _, _, first, second) =>
        FlipKeepsMetaData(i, first, nodes, duringEvaluation);
        FlipKeepsMetaData(i, second, nodes, duringEvaluation);
      case _ =>
    }
  }

  lemma {:induction false} ReadHereWithin(n: Node, duringEvaluation: bool, here: bool)
    ensures ReadHere(n, duringEvaluation, here) <= Nodes(n)
  {
    var stillHere := here && if duringEvaluation then !n.hasRegister else n.refCount <= 1;
    match n {
      case IntToAddress(_, _, _, child) => ReadHereWithin(child, duringEvaluation, stillHere);
      case Indirect(_, _, _, _, _, base) => ReadHereWithin(base, duringEvaluation, stillHere);
      case Add(_, _, _, _, first, second) =>
        ReadHereWithin(first, duringEvaluation, stillHere);
        ReadHereWithin(second, duringEvaluation, stillHere);
      case _ =>
    }
  }

  lemma FlipShows(i: Node, nodes: set<Node>, duringEvaluation: bool)
    requires NumbersIdentify(nodes)
    ensures ShownEarlier(nodes, Flip(i, nodes, duringEvaluation), duringEvaluation)
  {
  }

  /** A load that is not settled may have read the earlier state. */
  lemma FlipInOrder(i: Node, a: Node, b: Node, duringEvaluation: bool)
    requires i in Nodes(a) + Nodes(b) && !Settled(i, Read(a, b, duringEvaluation))
    requires NumbersIdentify(Nodes(a) + Nodes(b)) && MetaDataBySymbol(Nodes(a) + Nodes(b))
    ensures InOrder(a, b, Flip(i, Nodes(a) + Nodes(b), duringEvaluation), duringEvaluation)
  {
    var nodes := Nodes(a) + Nodes(b);
    var env := Flip(i, nodes, duringEvaluation);
    FlipShows(i, nodes, duringEvaluation);
    ReadHereWithin(a, duringEvaluation, true);
    ReadHereWithin(b, duringEvaluation, true);
    ReadsInOrder(a, env, duringEvaluation, true, nodes);
    ReadsInOrder(b, env, duringEvaluation, true, nodes);
    FlipKeepsMetaData(i, a, nodes, duringEvaluation);
    FlipKeepsMetaData(i, b, nodes, duringEvaluation);
  }

  function Times(i: Node): Side -> int {
    (s: Side) => Occurrences(i, s.node, s.depth)
  }

  lemma {:induction false} SigmaFlip(s: seq<Side>, i: Node, nodes: set<Node>, duringEvaluation: bool, w: nat)
    requires NumbersIdentify(nodes) && i in nodes
    requires forall k :: k in s ==> Chain(k.node, k.depth) && Nodes(k.node) <= nodes
    ensures Cong(Sigma(s, DeltaIn(Flip(i, nodes, duringEvaluation), w)), Sigma(s, Times(i)), w)
  {
    if s == [] {
      CongRefl(0, w);
    } else {
      var k, env := s[0], Flip(i, nodes, duringEvaluation);
      SigmaFlip(s[1..], i, nodes, duringEvaluation, w);
      assert nodes + {i} == nodes;
      FlipContributes(i, k.node, k.depth, nodes, duringEvaluation, w);
      var now := NowValue(k.node, k.depth, env, w);
      CongRefl(-now, w);
      CongAdd(Eval(k.node, env, w), now + Occurrences(i, k.node, k.depth), -now, -now, w);
      assert Eval(k.node, env, w) + -now == Delta(k, env, w);
      assert now + Occurrences(i, k.node, k.depth) + -now == Occurrences(i, k.node, k.depth);
      CongAdd(Delta(k, env, w), Occurrences(i, k.node, k.depth), Sigma(s[1..], DeltaIn(env, w)), Sigma(s[1..], Times(i)), w);
    }
  }

  /** If a yes can be trusted, each load that is not settled is relied on equally often on the left and on the
      right, up to whole words. */
  lemma SafeIsEven(a: Node, b: Node, duringEvaluation: bool, w: nat, i: Node)
    requires AddressesMatch(a, b, true, duringEvaluation) && w <= 64 && AlwaysEqual(a, b, duringEvaluation, w)
    requires NumbersIdentify(Nodes(a) + Nodes(b)) && MetaDataBySymbol(Nodes(a) + Nodes(b))
    requires i in Nodes(a) + Nodes(b) && !Settled(i, Read(a, b, duringEvaluation))
    ensures var leaves := Leaves(a, b, duringEvaluation);
      Cong(Sigma(Lefts(leaves), Times(i)), Sigma(Rights(leaves), Times(i)), w)
  {
    var leaves, nodes := Leaves(a, b, duringEvaluation), Nodes(a) + Nodes(b);
    var env := Flip(i, nodes, duringEvaluation);
    FlipInOrder(i, a, b, duringEvaluation);
    LeavesDecompose(a, b, duringEvaluation, env, w);
    LeavesAreWithin(a, b, duringEvaluation);
    SidesWithin(leaves, a, b);
    SigmaFlip(Lefts(leaves), i, nodes, duringEvaluation, w);
    SigmaFlip(Rights(leaves), i, nodes, duringEvaluation, w);
    assert Eval(a, env, w) == Eval(b, env, w);
    EvenWhenEqual(a, b, leaves, env, i, w);
  }

  lemma SidesWithin(leaves: seq<Leaf>, a: Node, b: Node)
    requires LeavesWithin(leaves, a, b)
    ensures forall k :: k in Lefts(leaves) ==> Chain(k.node, k.depth) && Nodes(k.node) <= Nodes(a)
    ensures forall k :: k in Rights(leaves) ==> Chain(k.node, k.depth) && Nodes(k.node) <= Nodes(b)
  {
    forall k | k in Lefts(leaves) ensures Chain(k.node, k.depth) && Nodes(k.node) <= Nodes(a) {
      SideWithin(leaves, a, b, k);
      NodesBelow(a, k.node);
    }
    forall k | k in Rights(leaves) ensures Chain(k.node, k.depth) && Nodes(k.node) <= Nodes(b) {
      SideWithin(leaves, a, b, k);
      NodesBelow(b, k.node);
    }
  }

  lemma EvenWhenEqual(a: Node, b: Node, leaves: seq<Leaf>, env: World, i: Node, w: nat)
    requires Decomposed(a, b, leaves, env, w) && Eval(a, env, w) == Eval(b, env, w)
    requires Cong(Sigma(Lefts(leaves), DeltaIn(env, w)), Sigma(Lefts(leaves), Times(i)), w)
    requires Cong(Sigma(Rights(leaves), DeltaIn(env, w)), Sigma(Rights(leaves), Times(i)), w)
    ensures Cong(Sigma(Lefts(leaves), Times(i)), Sigma(Rights(leaves), Times(i)), w)
  {
    hide Eval, Sigma, Cong;
    var x, l, r := Eval(a, env, w), Sigma(Lefts(leaves), DeltaIn(env, w)), Sigma(Rights(leaves), DeltaIn(env, w));
    CongRefl(-x, w);
    CongAdd(x + r, x + l, -x, -x, w);
    assert x + r + -x == r && x + l + -x == l;
    CongSym(r, l, w);
    CongSym(l, Sigma(Lefts(leaves), Times(i)), w);
    CongTrans(Sigma(Lefts(leaves), Times(i)), l, r, w);
    CongTrans(Sigma(Lefts(leaves), Times(i)), r, Sigma(Rights(leaves), Times(i)), w);
  }

  // ----- exactly when a yes can be trusted

  function Height(n: Node): nat {
    match n
    case IntToAddress(_, _, _, child) => 1 + Height(child)
    case Indirect(_, _, _, _, _, base) => 1 + Height(base)
    case Add(_, _, _, _, first, second) => 1 + Height(first) + Height(second)
    case _ => 0
  }

  lemma {:induction false} OccursOnce(i: Node, n: Node, depth: nat)
    ensures Occurrences(i, n, depth) == if OnSide(i, n, depth) then 1 else 0
    ensures OnSide(i, n, depth) ==> Height(i) <= Height(n) && i in Nodes(n)
  {
    if depth > 0 && n.Indirect? {
      OccursOnce(i, n.base, depth - 1);
    }
  }

  lemma {:induction false} SomeUnsettled(n: Node, depth: nat, read: set<Node>) returns (i: Node)
    requires Chain(n, depth) && !SettledSide(n, depth, read)
    ensures OnSide(i, n, depth) && !Settled(i, read)
  {
    if !Settled(n, read) {
      i := n;
    } else {
      i := SomeUnsettled(n.base, depth - 1, read);
    }
  }

  /** A load that is not settled stands in one chain only, on however many sides. */
  ghost predicate Separate(leaves: seq<Leaf>, read: set<Node>) {
    forall j, k, i ::
      (j in Lefts(leaves) + Rights(leaves) && k in Lefts(leaves) + Rights(leaves)
       && OnSide(i, j.node, j.depth) && OnSide(i, k.node, k.depth) && !Settled(i, read)) ==> j == k
  }

  /** A yes is right in every world in order if and only if all that is not settled cancels. */
  lemma MatchSafeExactly(a: Node, b: Node, duringEvaluation: bool, w: nat)
    requires AddressesMatch(a, b, true, duringEvaluation) && w <= 64
    requires NumbersIdentify(Nodes(a) + Nodes(b)) && MetaDataBySymbol(Nodes(a) + Nodes(b))
    requires Separate(Leaves(a, b, duringEvaluation), Read(a, b, duringEvaluation))
    ensures AlwaysEqual(a, b, duringEvaluation, w) <==>
      Balanced(Leaves(a, b, duringEvaluation), Read(a, b, duringEvaluation), w)
  {
    var leaves, read := Leaves(a, b, duringEvaluation), Read(a, b, duringEvaluation);
    if Balanced(leaves, read, w) {
      BalancedIsSafe(a, b, duringEvaluation, w);
    }
    if AlwaysEqual(a, b, duringEvaluation, w) {
      LeavesAreWithin(a, b, duringEvaluation);
      SidesWithin(leaves, a, b);
      forall k | k in Lefts(leaves) + Rights(leaves) && !SettledSide(k.node, k.depth, read)
        ensures Cong(Count(Lefts(leaves), k), Count(Rights(leaves), k), w)
      {
        var i := SomeUnsettled(k.node, k.depth, read);
        OccursOnce(i, k.node, k.depth);
        SafeIsEven(a, b, duringEvaluation, w, i);
        OnlyThere(leaves, read, i, k);
      }
    }
  }

  lemma OnlyThere(leaves: seq<Leaf>, read: set<Node>, i: Node, k: Side)
    requires Separate(leaves, read) && k in Lefts(leaves) + Rights(leaves)
    requires OnSide(i, k.node, k.depth) && !Settled(i, read)
    ensures Sigma(Lefts(leaves), Times(i)) == Count(Lefts(leaves), k)
    ensures Sigma(Rights(leaves), Times(i)) == Count(Rights(leaves), k)
  {
    forall j: Side | j in Lefts(leaves) + Rights(leaves) ensures j != k ==> Times(i)(j) == 0 {
      OccursOnce(i, j.node, j.depth);
    }
    OccursOnce(i, k.node, k.depth);
    SigmaOne(Lefts(leaves), Times(i), k);
    SigmaOne(Rights(leaves), Times(i), k);
  }

  /** No load that is not settled stands on two sides. */
  ghost predicate ReliedOnce(sides: seq<Side>, read: set<Node>) {
    forall p, q, i :: 0 <= p < q < |sides| && OnSide(i, sides[p].node, sides[p].depth) && OnSide(i, sides[q].node, sides[q].depth)
      ==> Settled(i, read)
  }

  /** Every load relied on is known to read the state at this tree top. */
  ghost predicate AllRead(sides: seq<Side>, read: set<Node>) {
    forall k :: k in sides ==> SettledSide(k.node, k.depth, read)
  }

  lemma {:induction false} CountAppend(s: seq<Side>, t: seq<Side>, k: Side)
    ensures Count(s + t, k) == Count(s, k) + Count(t, k)
  {
    if s == [] {
      assert s + t == t;
    } else {
      CountAppend(s[1..], t, k);
      assert (s + t)[1..] == s[1..] + t;
    }
  }

  lemma {:induction false} CountOnce(s: seq<Side>, k: Side, i: Node, read: set<Node>)
    requires ReliedOnce(s, read) && k in s && OnSide(i, k.node, k.depth) && !Settled(i, read)
    ensures Count(s, k) == 1
  {
    var rest := s[1..];
    assert s == [s[0]] + rest;
    assert forall p :: 0 <= p < |rest| ==> rest[p] == s[p + 1];
    if s[0] == k {
      CountZero(rest, k);
      assert forall q :: 0 <= q < |rest| ==> rest[q] != k;
    } else {
      CountOnce(rest, k, i, read);
    }
  }

  lemma OneIsNotZero(x: nat, y: nat, w: nat)
    requires w >= 1 && x + y == 1
    ensures !Cong(x, y, w)
  {
    if Cong(x, y, w) {
      Pow2Monotone(1, w);
      assert Pow2(0) == 1 && Pow2(1) == 2;
      CongWords(x, y, w);
      assert false;
    }
  }

  /** If no load is relied on twice, a yes is right in every world in order if and only if every load relied on
      is read at this tree top. */
  lemma MatchSafeWhenRead(a: Node, b: Node, duringEvaluation: bool, w: nat)
    requires AddressesMatch(a, b, true, duringEvaluation) && 1 <= w <= 64
    requires NumbersIdentify(Nodes(a) + Nodes(b)) && MetaDataBySymbol(Nodes(a) + Nodes(b))
    requires var leaves := Leaves(a, b, duringEvaluation);
      ReliedOnce(Lefts(leaves) + Rights(leaves), Read(a, b, duringEvaluation))
    ensures var leaves := Leaves(a, b, duringEvaluation);
      AlwaysEqual(a, b, duringEvaluation, w) <==> AllRead(Lefts(leaves) + Rights(leaves), Read(a, b, duringEvaluation))
  {
    var leaves, read := Leaves(a, b, duringEvaluation), Read(a, b, duringEvaluation);
    var sides := Lefts(leaves) + Rights(leaves);
    OnceIsSeparate(leaves, read);
    MatchSafeExactly(a, b, duringEvaluation, w);
    LeavesAreWithin(a, b, duringEvaluation);
    SidesWithin(leaves, a, b);
    forall k | k in sides && !SettledSide(k.node, k.depth, read)
      ensures !Cong(Count(Lefts(leaves), k), Count(Rights(leaves), k), w)
    {
      var i := SomeUnsettled(k.node, k.depth, read);
      CountOnce(sides, k, i, read);
      CountAppend(Lefts(leaves), Rights(leaves), k);
      OneIsNotZero(Count(Lefts(leaves), k), Count(Rights(leaves), k), w);
    }
  }

  lemma OnceIsSeparate(leaves: seq<Leaf>, read: set<Node>)
    requires ReliedOnce(Lefts(leaves) + Rights(leaves), read)
    ensures Separate(leaves, read)
  {
    var sides := Lefts(leaves) + Rights(leaves);
    forall j, k, i | j in sides && k in sides && OnSide(i, j.node, j.depth) && OnSide(i, k.node, k.depth) && !Settled(i, read)
      ensures j == k
    {
      var p :| 0 <= p < |sides| && sides[p] == j;
      var q :| 0 <= q < |sides| && sides[q] == k;
      assert p == q;
    }
  }

  // ----- why the chains must be apart

  const SHARED_BASE := Direct(1, 2, false, Aload, 7, false)
  const OTHER_BASE := Direct(2, 1, false, Aload, 7, false)
  const ONE := Indirect(3, 2, false, Aload, 8, SHARED_BASE)
  const TWO := Indirect(4, 2, false, Aload, 8, SHARED_BASE)
  const THREE := Indirect(5, 2, false, Aload, 8, OTHER_BASE)
  const ONE_TWO := Add(6, 1, true, AddressAdd, ONE, TWO)
  const THREE_ONE := Add(7, 1, true, AddressAdd, THREE, ONE)
  const ONE_TWO_THREE := Add(8, 1, true, AddressAdd, ONE_TWO, THREE)
  const THREE_ONE_TWO := Add(9, 1, true, AddressAdd, THREE_ONE, TWO)

  /** Three loads in another order, two of them through one load: during evaluation the sums always agree,
      although no chain is balanced, because the first load is matched in two different depths. */
  lemma SharedLoadsCancel(w: nat)
    ensures AddressesMatch(ONE_TWO_THREE, THREE_ONE_TWO, true, true) && AlwaysEqual(ONE_TWO_THREE, THREE_ONE_TWO, true, w)
    ensures w >= 1 ==> !Balanced(Leaves(ONE_TWO_THREE, THREE_ONE_TWO, true), Read(ONE_TWO_THREE, THREE_ONE_TWO, true), w)
  {
    ThreeMatch();
    forall env: World ensures Eval(ONE_TWO_THREE, env, w) == Eval(THREE_ONE_TWO, env, w) {
      ThreeSums(env, w);
    }
    if w >= 1 {
      ThreeUnbalanced(w);
    }
  }

  lemma ThreeSums(env: World, w: nat)
    ensures Eval(ONE_TWO_THREE, env, w) == Eval(THREE_ONE_TWO, env, w)
  {
    var x, y, z := Eval(ONE, env, w), Eval(TWO, env, w), Eval(THREE, env, w);
    SumOf(ONE_TWO, env, w);
    SumOf(THREE_ONE, env, w);
    SumOf(ONE_TWO_THREE, env, w);
    SumOf(THREE_ONE_TWO, env, w);
    AddWrapped(w, x + y, z);
    AddWrapped(w, z + x, y);
  }

  lemma ThreeUnbalanced(w: nat)
    requires w >= 1 && AddressesMatch(ONE_TWO_THREE, THREE_ONE_TWO, true, true)
    ensures !Balanced(Leaves(ONE_TWO_THREE, THREE_ONE_TWO, true), Read(ONE_TWO_THREE, THREE_ONE_TWO, true), w)
  {
    NotReadHere();
    hide NodeMatches, AdditionsMatch, AddressesMatch, Leaves, Lefts, Rights, Count, Cong, Read, SettledSide, Balanced;
    ThreeLeaves();
    var leaves := Leaves(ONE_TWO_THREE, THREE_ONE_TWO, true);
    ThreeSides(Leaf(ONE, THREE, 2), Leaf(TWO, ONE, 1), Leaf(THREE, TWO, 2));
    ThreeCounts(Side(ONE, 2), Side(TWO, 1), Side(THREE, 2), Side(ONE, 2));
    ThreeCounts(Side(THREE, 2), Side(ONE, 1), Side(TWO, 2), Side(ONE, 2));
    OneIsNotZero(1, 0, w);
    NotBalanced(leaves, Read(ONE_TWO_THREE, THREE_ONE_TWO, true), Side(ONE, 2), w);
  }

  lemma NotBalanced(leaves: seq<Leaf>, read: set<Node>, k: Side, w: nat)
    requires k in Lefts(leaves) && !SettledSide(k.node, k.depth, read)
    requires !Cong(Count(Lefts(leaves), k), Count(Rights(leaves), k), w)
    ensures !Balanced(leaves, read, w)
  {
    hide Cong, Count, SettledSide;
    assert k in Lefts(leaves) + Rights(leaves);
  }

  lemma NotReadHere()
    ensures !SettledSide(ONE, 2, Read(ONE_TWO_THREE, THREE_ONE_TWO, true))
  {
    assert ReadHere(SHARED_BASE, true, false) == {} && ReadHere(OTHER_BASE, true, false) == {};
    assert ReadHere(ONE, true, false) == {} && ReadHere(TWO, true, false) == {} && ReadHere(THREE, true, false) == {};
    assert ReadHere(ONE_TWO, true, false) == {} && ReadHere(THREE_ONE, true, false) == {};
    assert ReadHere(ONE_TWO_THREE, true, true) == {} && ReadHere(THREE_ONE_TWO, true, true) == {};
  }

  lemma ThreeSides(l: Leaf, m: Leaf, n: Leaf)
    ensures Lefts([l, m, n]) == [Side(l.left, l.depth), Side(m.left, m.depth), Side(n.left, n.depth)]
    ensures Rights([l, m, n]) == [Side(l.right, l.depth), Side(m.right, m.depth), Side(n.right, n.depth)]
  {
    SidesAppend([l], [m, n]);
    SidesAppend([m], [n]);
    assert [l, m, n] == [l] + [m, n] && [m, n] == [m] + [n];
    OneSide(l);
    OneSide(m);
    OneSide(n);
  }

  lemma OneSide(l: Leaf)
    ensures Lefts([l]) == [Side(l.left, l.depth)] && Rights([l]) == [Side(l.right, l.depth)]
  {
    assert [l][1..] == [];
    assert Lefts([l][1..]) == [] && Rights([l][1..]) == [];
  }

  lemma ThreeCounts(x: Side, y: Side, z: Side, k: Side)
    ensures Count([x, y, z], k) == (if x == k then 1 else 0) + (if y == k then 1 else 0) + (if z == k then 1 else 0)
  {
    assert [x, y, z][1..] == [y, z] && [y, z][1..] == [z] && [z][1..] == [];
    assert Count([z], k) == if z == k then 1 else 0;
    assert Count([y, z], k) == (if y == k then 1 else 0) + Count([z], k);
  }

  lemma ThreeMatch()
    ensures AdditionsMatch(ONE_TWO_THREE, THREE_ONE_TWO, true, true) && AddressesMatch(ONE_TWO_THREE, THREE_ONE_TWO, true, true)
    ensures !NodeMatches(ONE_TWO, THREE_ONE, true, true) && !NodeMatches(ONE_TWO_THREE, THREE_ONE_TWO, true, true)
    ensures NodeMatches(ONE, THREE, true, true) && NodeMatches(TWO, ONE, true, true) && NodeMatches(THREE, TWO, true, true)
    ensures AdditionsMatch(ONE_TWO, THREE_ONE, true, true)
  {
    assert NodeMatches(SHARED_BASE, OTHER_BASE, true, true) && NodeMatches(OTHER_BASE, SHARED_BASE, true, true);
    assert AdditionsMatch(ONE_TWO, THREE_ONE, true, true);
  }

  lemma ThreeLeaves()
    requires AddressesMatch(ONE_TWO_THREE, THREE_ONE_TWO, true, true)
    ensures Leaves(ONE_TWO_THREE, THREE_ONE_TWO, true) == [Leaf(ONE, THREE, 2), Leaf(TWO, ONE, 1), Leaf(THREE, TWO, 2)]
  {
    ThreeMatch();
    assert Depth(ONE, THREE, true) == 2 && Depth(TWO, ONE, true) == 1 && Depth(THREE, TWO, true) == 2;
    assert AdditionLeaves(ONE_TWO, THREE_ONE, true) == [Leaf(ONE, THREE, 2), Leaf(TWO, ONE, 1)];
  }
}
