/** The syntactic check that two address trees denote the same address, and what it means for trees whose
nodes may be commoned: evaluated once, possibly in an earlier state, and used again. */
module AddressMatch {
  import opened Options
  import opened Words

  datatype AddKind = AddressAdd | IntegralAdd | FloatAdd
  datatype ConstKind = IntegralConst | AddressConst
  datatype LoadKind = Aload | Ardbar | Iload | Lload

  /** IL nodes.  `id` is the node's identity; `refCount` and `hasRegister` say whether it is commoned.
      `Opaque` stands for every other operation. */
  datatype Node =
    | LoadAddr(id: nat, refCount: nat, hasRegister: bool, symbol: nat)
    | Const(id: nat, refCount: nat, hasRegister: bool, kind: ConstKind, value: int)
    | IntToAddress(id: nat, refCount: nat, hasRegister: bool, child: Node)
    | Direct(id: nat, refCount: nat, hasRegister: bool, load: LoadKind, symbol: nat, isMetaData: bool)
    | Indirect(id: nat, refCount: nat, hasRegister: bool, load: LoadKind, symbol: nat, base: Node)
    | Add(id: nat, refCount: nat, hasRegister: bool, addKind: AddKind, first: Node, second: Node)
    | Opaque(id: nat, refCount: nat, hasRegister: bool)

  predicate IsAddressLoad(load: LoadKind) {
    load == Aload || load == Ardbar
  }

  predicate IsSupportedAdd(n: Node) {
    n.Add? && (n.addKind == AddressAdd || n.addKind == IntegralAdd)
  }

  /** Not commoned: during evaluation, not yet evaluated; before it, referenced at most once. */
  predicate IsFresh(n: Node, duringEvaluation: bool) {
    if duringEvaluation then !n.hasRegister else n.refCount <= 1
  }

  predicate UniqueAddressOccurrence(a: Node, b: Node, sameTreeTop: bool, duringEvaluation: bool) {
    sameTreeTop && IsFresh(a, duringEvaluation) && IsFresh(b, duringEvaluation)
  }

  /** Two loads of addresses by the same operation from the same symbol. */
  predicate SameLoad(a: Node, b: Node) {
    && ((a.Direct? && b.Direct?) || (a.Indirect? && b.Indirect?))
    && a.load == b.load && IsAddressLoad(a.load) && a.symbol == b.symbol
  }

  predicate NodeMatches(a: Node, b: Node, sameTreeTop: bool, duringEvaluation: bool) {
    if a == b then true
    else if a.LoadAddr? && b.LoadAddr? && a.symbol == b.symbol then true
    else if a.Const? && a.kind == IntegralConst && b.Const? && b.kind == IntegralConst && a.value == b.value then true
    else if sameTreeTop && a.IntToAddress? && b.IntToAddress? && a.child.Direct? && a.child.isMetaData
        && b.child.Direct? && a.child.load == b.child.load && a.child.symbol == b.child.symbol then true
    else if UniqueAddressOccurrence(a, b, sameTreeTop, duringEvaluation) && SameLoad(a, b) then
      a.Direct? || NodeMatches(a.base, b.base, sameTreeTop, duringEvaluation)
    else false
  }

  predicate AdditionsMatch(a: Node, b: Node, sameTreeTop: bool, duringEvaluation: bool)
    requires a.Add? && b.Add?
  {
    if NodeMatches(a.first, b.first, sameTreeTop, duringEvaluation) then
      NodeMatches(a.second, b.second, sameTreeTop, duringEvaluation)
      || (IsSupportedAdd(a.second) && IsSupportedAdd(b.second)
          && AdditionsMatch(a.second, b.second, sameTreeTop, duringEvaluation))
    else if NodeMatches(a.second, b.second, sameTreeTop, duringEvaluation)
        && IsSupportedAdd(a.first) && IsSupportedAdd(b.first)
        && AdditionsMatch(a.first, b.first, sameTreeTop, duringEvaluation) then true
    else
      IsSupportedAdd(a.first) && a.first.first == b.first
      && a.first.second.Const? && a.second.Const? && b.second.Const?
      && WrapSigned(64, a.first.second.value + a.second.value) == b.second.value
  }

  predicate AddressesMatch(a: Node, b: Node, sameTreeTop: bool, duringEvaluation: bool)
    decreases a, 1
  {
    if NodeMatches(a, b, sameTreeTop, duringEvaluation) then true
    else if IsSupportedAdd(a) && IsSupportedAdd(b) && ChildrenMatch(a, b, sameTreeTop, duringEvaluation) then true
    else if sameTreeTop then
      if IsSupportedAdd(a) && IsSupportedAdd(b) && NodeMatches(a.second, b.second, sameTreeTop, duringEvaluation) then
        IndirectionsMatch(a.first, b.first, duringEvaluation)
      else IndirectionsMatch(a, b, duringEvaluation)
    else false
  }

  predicate ChildrenMatch(a: Node, b: Node, sameTreeTop: bool, duringEvaluation: bool)
    requires IsSupportedAdd(a) && IsSupportedAdd(b)
  {
    AdditionsMatch(a, b, sameTreeTop, duringEvaluation)
    || (IsSupportedAdd(a.first) && IsSupportedAdd(b.first)
        && AdditionsMatch(a.first, b.first, sameTreeTop, duringEvaluation)
        && IsSupportedAdd(a.second) && IsSupportedAdd(b.second)
        && AdditionsMatch(a.second, b.second, sameTreeTop, duringEvaluation))
  }

  /** The addresses below two indirect loads are compared as if they were not under one tree top. */
  predicate IndirectionsMatch(a: Node, b: Node, duringEvaluation: bool)
    decreases a, 0
  {
    a.Indirect? && b.Indirect? && a.load == Aload && b.load == Aload && a.symbol == b.symbol
    && AddressesMatch(a.base, b.base, false, duringEvaluation)
    && UniqueAddressOccurrence(a, b, true, duringEvaluation)
  }

  // ----- evaluation

  /** The world the trees are evaluated in: `stateOf` is the memory state each node read when it was
      evaluated, `now` the state at this tree top, and `earlier` tells the nodes evaluated before it. */
  datatype World = World(
    symbolAddress: nat -> int,
    direct: (nat, nat) -> int,
    indirect: (nat, int, nat) -> int,
    toAddress: int -> int,
    opaque_: nat -> int,
    stateOf: nat -> nat,
    earlier: nat -> bool,
    now: nat)

  /** The `w`-bit value of a node. */
  function Eval(n: Node, env: World, w: nat): int {
    match n
    case LoadAddr(_, _, _, symbol) => Wrap(w, env.symbolAddress(symbol))
    case Const(_, _, _, _, value) => Wrap(w, value)
    case IntToAddress(_, _, _, child) => Wrap(w, env.toAddress(Eval(child, env, w)))
    case Direct(id, _, _, _, symbol, _) => Wrap(w, env.direct(symbol, env.stateOf(id)))
    case Indirect(id, _, _, _, symbol, base) => Wrap(w, env.indirect(symbol, Eval(base, env, w), env.stateOf(id)))
    case Add(id, _, _, kind, first, second) =>
      if kind == FloatAdd then Wrap(w, env.opaque_(id)) else Wrap(w, Eval(first, env, w) + Eval(second, env, w))
    case Opaque(id, _, _) => Wrap(w, env.opaque_(id))
  }

  /** Every load in the tree that has no register yet during evaluation, or at most one reference before it,
      reads the state at this tree top. */
  predicate FreshLoadsReadNow(n: Node, env: World, duringEvaluation: bool) {
    && (n.Direct? || n.Indirect? ==>
          ((if duringEvaluation then !n.hasRegister else n.refCount <= 1) ==> env.stateOf(n.id) == env.now))
    && match n
       case IntToAddress(_, _, _, child) => FreshLoadsReadNow(child, env, duringEvaluation)
       case Indirect(_, _, _, _, _, base) => FreshLoadsReadNow(base, env, duringEvaluation)
       case Add(_, _, _, _, first, second) =>
         FreshLoadsReadNow(first, env, duringEvaluation) && FreshLoadsReadNow(second, env, duringEvaluation)
       case _ => true
  }

  /** Method meta-data, such as the thread register, never changes. */
  ghost predicate MetaDataFixed(n: Node, env: World) {
    match n
    case Direct(_, _, _, _, symbol, isMetaData) => isMetaData ==> forall s, t :: env.direct(symbol, s) == env.direct(symbol, t)
    case IntToAddress(_, _, _, child) => MetaDataFixed(child, env)
    case Indirect(_, _, _, _, _, base) => MetaDataFixed(base, env)
    case Add(_, _, _, _, first, second) => MetaDataFixed(first, env) && MetaDataFixed(second, env)
    case _ => true
  }

  /** What a caller asserts by claiming that two trees are under one tree top. */
  ghost predicate ReadTogether(a: Node, b: Node, env: World, sameTreeTop: bool, duringEvaluation: bool) {
    sameTreeTop ==>
      FreshLoadsReadNow(a, env, duringEvaluation) && FreshLoadsReadNow(b, env, duringEvaluation) && MetaDataFixed(a, env)
  }

  // ----- soundness

  lemma AddWrapped(w: nat, x: int, y: int)
    ensures Wrap(w, Wrap(w, x) + y) == Wrap(w, x + y) == Wrap(w, x + Wrap(w, y))
  {
    Shifted(Wrap(w, x) + y, Pow2(w), x / Pow2(w));
    Shifted(x + Wrap(w, y), Pow2(w), y / Pow2(w));
    assert x == (x / Pow2(w)) * Pow2(w) + Wrap(w, x);
    assert y == (y / Pow2(w)) * Pow2(w) + Wrap(w, y);
  }

  /** Numbers equal as 64-bit words are equal as words of any smaller width. */
  lemma Narrower(w: nat, x: int)
    requires w <= 64
    ensures Wrap(w, WrapSigned(64, x)) == Wrap(w, x)
  {
    var c := SignedDistance(x, Pow2(64), Pow2(63));
    Pow2Add(w, 64 - w);
    MultipleOfFactor(WrapSigned(64, x), Pow2(w), Pow2(64 - w), c);
  }

  lemma SignedDistance(x: int, full: int, half: int) returns (c: int)
    requires full > 0
    ensures x == (if x % full < half then x % full else x % full - full) + c * full
  {
    c := if x % full < half then x / full else x / full + 1;
    assert x == (x / full) * full + x % full;
    assert (x / full + 1) * full == (x / full) * full + full;
  }

  lemma MultipleOfFactor(x: int, m: int, k: int, c: int)
    requires m > 0
    ensures (x + c * (m * k)) % m == x % m
  {
    assert m * k == k * m;
    MulAssociative(c, k, m);
    Shifted(x, m, c * k);
  }

  lemma {:induction false} NodeMatchesSound(a: Node, b: Node, sameTreeTop: bool, duringEvaluation: bool, env: World, w: nat)
    requires NodeMatches(a, b, sameTreeTop, duringEvaluation)
    requires ReadTogether(a, b, env, sameTreeTop, duringEvaluation)
    ensures Eval(a, env, w) == Eval(b, env, w)
  {
    if a != b && a.Indirect? {
      NodeMatchesSound(a.base, b.base, sameTreeTop, duringEvaluation, env, w);
    } else if a != b && a.IntToAddress? {
      assert MetaDataFixed(a.child, env);
      assert Eval(a.child, env, w) == Eval(b.child, env, w);
    }
  }

  /** Folding two constant offsets into one: base + x + y against base + (x + y). */
  lemma FoldedOffsets(w: nat, base: int, x: int, y: int, z: int)
    requires w <= 64 && WrapSigned(64, x + y) == z
    ensures Wrap(w, Wrap(w, base + Wrap(w, x)) + Wrap(w, y)) == Wrap(w, base + Wrap(w, z))
  {
    AddWrapped(w, base, x);
    AddWrapped(w, base + x, y);
    AddWrapped(w, Wrap(w, base + x), y);
    assert base + x + y == base + (x + y);
    AddWrapped(w, base, x + y);
    Narrower(w, x + y);
  }

  lemma SumOf(n: Node, env: World, w: nat)
    requires IsSupportedAdd(n)
    ensures Eval(n, env, w) == Wrap(w, Eval(n.first, env, w) + Eval(n.second, env, w))
  {
  }

  lemma EqualSums(a: Node, b: Node, env: World, w: nat)
    requires IsSupportedAdd(a) && IsSupportedAdd(b)
    requires Eval(a.first, env, w) == Eval(b.first, env, w) && Eval(a.second, env, w) == Eval(b.second, env, w)
    ensures Eval(a, env, w) == Eval(b, env, w)
  {
  }

  lemma FoldedMatch(a: Node, b: Node, env: World, w: nat)
    requires IsSupportedAdd(a) && IsSupportedAdd(b) && IsSupportedAdd(a.first) && a.first.first == b.first && w <= 64
    requires a.first.second.Const? && a.second.Const? && b.second.Const?
    requires WrapSigned(64, a.first.second.value + a.second.value) == b.second.value
    ensures Eval(a, env, w) == Eval(b, env, w)
  {
    SumOf(a, env, w);
    SumOf(b, env, w);
    SumOf(a.first, env, w);
    assert Eval(a.second, env, w) == Wrap(w, a.second.value) && Eval(b.second, env, w) == Wrap(w, b.second.value);
    assert Eval(a.first.second, env, w) == Wrap(w, a.first.second.value);
    hide Eval, Wrap, WrapSigned;
    FoldedOffsets(w, Eval(b.first, env, w), a.first.second.value, a.second.value, b.second.value);
  }

  lemma {:induction false} AdditionsMatchSound(a: Node, b: Node, sameTreeTop: bool, duringEvaluation: bool, env: World, w: nat)
    requires IsSupportedAdd(a) && IsSupportedAdd(b) && w <= 64
    requires AdditionsMatch(a, b, sameTreeTop, duringEvaluation)
    requires ReadTogether(a, b, env, sameTreeTop, duringEvaluation)
    ensures Eval(a, env, w) == Eval(b, env, w)
  {
    if NodeMatches(a.first, b.first, sameTreeTop, duringEvaluation) {
      NodeMatchesSound(a.first, b.first, sameTreeTop, duringEvaluation, env, w);
      if NodeMatches(a.second, b.second, sameTreeTop, duringEvaluation) {
        NodeMatchesSound(a.second, b.second, sameTreeTop, duringEvaluation, env, w);
      } else {
        AdditionsMatchSound(a.second, b.second, sameTreeTop, duringEvaluation, env, w);
      }
    } else if NodeMatches(a.second, b.second, sameTreeTop, duringEvaluation)
        && IsSupportedAdd(a.first) && IsSupportedAdd(b.first)
        && AdditionsMatch(a.first, b.first, sameTreeTop, duringEvaluation) {
      NodeMatchesSound(a.second, b.second, sameTreeTop, duringEvaluation, env, w);
      AdditionsMatchSound(a.first, b.first, sameTreeTop, duringEvaluation, env, w);
    } else {
      FoldedMatch(a, b, env, w);
    }
  }

  /** If the check answers yes, both trees have the same address in every memory: always when the caller
      claims nothing, and otherwise when the loads it relies on read the same state. */
  lemma {:induction false} AddressesMatchSound(a: Node, b: Node, sameTreeTop: bool, duringEvaluation: bool, env: World, w: nat)
    requires AddressesMatch(a, b, sameTreeTop, duringEvaluation) && w <= 64
    requires ReadTogether(a, b, env, sameTreeTop, duringEvaluation)
    ensures Eval(a, env, w) == Eval(b, env, w)
    decreases a, 1
  {
    if NodeMatches(a, b, sameTreeTop, duringEvaluation) {
      NodeMatchesSound(a, b, sameTreeTop, duringEvaluation, env, w);
    } else if IsSupportedAdd(a) && IsSupportedAdd(b) && ChildrenMatch(a, b, sameTreeTop, duringEvaluation) {
      ChildrenMatchSound(a, b, sameTreeTop, duringEvaluation, env, w);
    } else if IsSupportedAdd(a) && IsSupportedAdd(b) && NodeMatches(a.second, b.second, sameTreeTop, duringEvaluation) {
      NodeMatchesSound(a.second, b.second, sameTreeTop, duringEvaluation, env, w);
      IndirectionsMatchSound(a.first, b.first, duringEvaluation, env, w);
    } else {
      IndirectionsMatchSound(a, b, duringEvaluation, env, w);
    }
  }

  lemma {:induction false} IndirectionsMatchSound(a: Node, b: Node, duringEvaluation: bool, env: World, w: nat)
    requires IndirectionsMatch(a, b, duringEvaluation) && w <= 64
    requires FreshLoadsReadNow(a, env, duringEvaluation) && FreshLoadsReadNow(b, env, duringEvaluation)
    ensures Eval(a, env, w) == Eval(b, env, w)
    decreases a, 0
  {
    AddressesMatchSound(a.base, b.base, false, duringEvaluation, env, w);
  }

  lemma ReadTogetherBelow(a: Node, b: Node, env: World, sameTreeTop: bool, duringEvaluation: bool)
    requires a.Add? && b.Add? && ReadTogether(a, b, env, sameTreeTop, duringEvaluation)
    ensures ReadTogether(a.first, b.first, env, sameTreeTop, duringEvaluation)
    ensures ReadTogether(a.second, b.second, env, sameTreeTop, duringEvaluation)
  {
  }

  lemma ChildrenMatchSound(a: Node, b: Node, sameTreeTop: bool, duringEvaluation: bool, env: World, w: nat)
    requires IsSupportedAdd(a) && IsSupportedAdd(b) && w <= 64
    requires ChildrenMatch(a, b, sameTreeTop, duringEvaluation)
    requires ReadTogether(a, b, env, sameTreeTop, duringEvaluation)
    ensures Eval(a, env, w) == Eval(b, env, w)
  {
    if AdditionsMatch(a, b, sameTreeTop, duringEvaluation) {
      AdditionsMatchSound(a, b, sameTreeTop, duringEvaluation, env, w);
    } else {
      ReadTogetherBelow(a, b, env, sameTreeTop, duringEvaluation);
      GrandchildrenMatchSound(a.first, b.first, a.second, b.second, sameTreeTop, duringEvaluation, env, w);
      EqualSums(a, b, env, w);
    }
  }

  lemma GrandchildrenMatchSound(a: Node, b: Node, c: Node, d: Node, sameTreeTop: bool, duringEvaluation: bool, env: World, w: nat)
    requires IsSupportedAdd(a) && IsSupportedAdd(b) && IsSupportedAdd(c) && IsSupportedAdd(d) && w <= 64
    requires AdditionsMatch(a, b, sameTreeTop, duringEvaluation) && AdditionsMatch(c, d, sameTreeTop, duringEvaluation)
    requires ReadTogether(a, b, env, sameTreeTop, duringEvaluation) && ReadTogether(c, d, env, sameTreeTop, duringEvaluation)
    ensures Eval(a, env, w) == Eval(b, env, w) && Eval(c, env, w) == Eval(d, env, w)
  {
    AdditionsMatchSound(a, b, sameTreeTop, duringEvaluation, env, w);
    AdditionsMatchSound(c, d, sameTreeTop, duringEvaluation, env, w);
  }

  // ----- which trees get a yes

  /** The node so many loads further down. */
  function Below(n: Node, depth: nat): Option<Node> {
    if depth == 0 then Some(n) else if n.Indirect? then Below(n.base, depth - 1) else None
  }

  /** Different loads that are taken for equal if their addresses are: under one tree top, neither evaluated
      before, of addresses, by the same operation, from the same symbol. */
  predicate LoadsPair(a: Node, b: Node, sameTreeTop: bool, duringEvaluation: bool) {
    && sameTreeTop && (if duringEvaluation then !a.hasRegister && !b.hasRegister else a.refCount <= 1 && b.refCount <= 1)
    && ((a.Direct? && b.Direct?) || (a.Indirect? && b.Indirect?))
    && a.load == b.load && (a.load == Aload || a.load == Ardbar) && a.symbol == b.symbol
  }

  predicate LeavesPair(a: Node, b: Node, sameTreeTop: bool) {
    || a == b
    || (a.LoadAddr? && b.LoadAddr? && a.symbol == b.symbol)
    || (a.Const? && b.Const? && a.kind == b.kind == IntegralConst && a.value == b.value)
    || (sameTreeTop && a.IntToAddress? && b.IntToAddress? && a.child.Direct? && b.child.Direct? && a.child.isMetaData
        && a.child.load == b.child.load && a.child.symbol == b.child.symbol)
  }

  ghost predicate PairedAt(a: Node, b: Node, depth: nat, sameTreeTop: bool, duringEvaluation: bool) {
    && (forall k :: 0 <= k < depth ==>
          && Below(a, k).Some? && Below(b, k).Some? && Below(a, k).value.Indirect?
          && LoadsPair(Below(a, k).value, Below(b, k).value, sameTreeTop, duringEvaluation))
    && Below(a, depth).Some? && Below(b, depth).Some?
    && (LeavesPair(Below(a, depth).value, Below(b, depth).value, sameTreeTop)
        || (Below(a, depth).value.Direct?
            && LoadsPair(Below(a, depth).value, Below(b, depth).value, sameTreeTop, duringEvaluation)))
  }

  /** Two nodes match exactly when, some loads further down, the addresses are the same leaf. */
  lemma {:induction false} NodeMatchesExactly(a: Node, b: Node, sameTreeTop: bool, duringEvaluation: bool)
    ensures NodeMatches(a, b, sameTreeTop, duringEvaluation) <==>
      exists depth: nat :: PairedAt(a, b, depth, sameTreeTop, duringEvaluation)
  {
    if NodeMatches(a, b, sameTreeTop, duringEvaluation) {
      var depth := MatchedPair(a, b, sameTreeTop, duringEvaluation);
    }
    if depth: nat :| PairedAt(a, b, depth, sameTreeTop, duringEvaluation) {
      PairedMatch(a, b, depth, sameTreeTop, duringEvaluation);
    }
  }

  lemma {:induction false} MatchedPair(a: Node, b: Node, sameTreeTop: bool, duringEvaluation: bool) returns (depth: nat)
    requires NodeMatches(a, b, sameTreeTop, duringEvaluation)
    ensures PairedAt(a, b, depth, sameTreeTop, duringEvaluation)
  {
    if LeavesPair(a, b, sameTreeTop) || a.Direct? {
      depth := 0;
    } else {
      depth := MatchedPair(a.base, b.base, sameTreeTop, duringEvaluation);
      PairedAbove(a, b, depth, sameTreeTop, duringEvaluation);
      depth := depth + 1;
    }
  }

  lemma PairedAbove(a: Node, b: Node, depth: nat, sameTreeTop: bool, duringEvaluation: bool)
    requires a.Indirect? && LoadsPair(a, b, sameTreeTop, duringEvaluation)
    requires PairedAt(a.base, b.base, depth, sameTreeTop, duringEvaluation)
    ensures PairedAt(a, b, depth + 1, sameTreeTop, duringEvaluation)
  {
    assert b.Indirect?;
    hide LoadsPair, LeavesPair;
    assert Below(a, depth + 1) == Below(a.base, depth) && Below(b, depth + 1) == Below(b.base, depth);
    forall k | 0 <= k < depth + 1
      ensures Below(a, k).Some? && Below(b, k).Some? && Below(a, k).value.Indirect?
      ensures LoadsPair(Below(a, k).value, Below(b, k).value, sameTreeTop, duringEvaluation)
    {
      if k > 0 {
        assert Below(a, k) == Below(a.base, k - 1) && Below(b, k) == Below(b.base, k - 1);
      }
    }
  }

  lemma {:induction false} PairedMatch(a: Node, b: Node, depth: nat, sameTreeTop: bool, duringEvaluation: bool)
    requires PairedAt(a, b, depth, sameTreeTop, duringEvaluation)
    ensures NodeMatches(a, b, sameTreeTop, duringEvaluation)
    decreases depth
  {
    if depth > 0 {
      assert Below(a, 0).value == a && Below(b, 0).value == b;
      forall k | 0 <= k < depth
        ensures Below(a, k + 1) == Below(a.base, k) && Below(b, k + 1) == Below(b.base, k)
      {
      }
      PairedMatch(a.base, b.base, depth - 1, sameTreeTop, duringEvaluation);
    }
  }

  /** Matching operands except along one path down through the additions (true for a second operand), with a pair of
      matching operands or a folded offset at its end. */
  predicate PairedAlong(a: Node, b: Node, path: seq<bool>, sameTreeTop: bool, duringEvaluation: bool)
    decreases |path|
  {
    && a.Add? && b.Add?
    && if path == [] then
         || (NodeMatches(a.first, b.first, sameTreeTop, duringEvaluation)
             && NodeMatches(a.second, b.second, sameTreeTop, duringEvaluation))
         || (a.first.Add? && a.first.addKind != FloatAdd && a.first.first == b.first
             && a.first.second.Const? && a.second.Const? && b.second.Const?
             && WrapSigned(64, a.first.second.value + a.second.value) == b.second.value)
       else if path[0] then
         && NodeMatches(a.first, b.first, sameTreeTop, duringEvaluation)
         && a.second.Add? && b.second.Add? && a.second.addKind != FloatAdd && b.second.addKind != FloatAdd
         && PairedAlong(a.second, b.second, path[1..], sameTreeTop, duringEvaluation)
       else
         && NodeMatches(a.second, b.second, sameTreeTop, duringEvaluation)
         && a.first.Add? && b.first.Add? && a.first.addKind != FloatAdd && b.first.addKind != FloatAdd
         && PairedAlong(a.first, b.first, path[1..], sameTreeTop, duringEvaluation)
  }

  /** Additions match exactly along some such path: the order in which the cases are tried excludes nothing. */
  lemma {:induction false} AdditionsMatchExactly(a: Node, b: Node, sameTreeTop: bool, duringEvaluation: bool)
    requires a.Add? && b.Add?
    ensures AdditionsMatch(a, b, sameTreeTop, duringEvaluation) <==>
      exists path: seq<bool> :: PairedAlong(a, b, path, sameTreeTop, duringEvaluation)
  {
    if AdditionsMatch(a, b, sameTreeTop, duringEvaluation) {
      var path := MatchedPath(a, b, sameTreeTop, duringEvaluation);
      assert PairedAlong(a, b, path, sameTreeTop, duringEvaluation);
    }
    hide AdditionsMatch, PairedAlong;
    if path: seq<bool> :| PairedAlong(a, b, path, sameTreeTop, duringEvaluation) {
      PathMatches(a, b, path, sameTreeTop, duringEvaluation);
    }
  }

  lemma {:induction false} MatchedPath(a: Node, b: Node, sameTreeTop: bool, duringEvaluation: bool) returns (path: seq<bool>)
    requires a.Add? && b.Add? && AdditionsMatch(a, b, sameTreeTop, duringEvaluation)
    ensures PairedAlong(a, b, path, sameTreeTop, duringEvaluation)
  {
    if NodeMatches(a.first, b.first, sameTreeTop, duringEvaluation) {
      if NodeMatches(a.second, b.second, sameTreeTop, duringEvaluation) {
        path := [];
      } else {
        var rest := MatchedPath(a.second, b.second, sameTreeTop, duringEvaluation);
        path := [true] + rest;
        assert path[1..] == rest;
      }
    } else if NodeMatches(a.second, b.second, sameTreeTop, duringEvaluation)
        && IsSupportedAdd(a.first) && IsSupportedAdd(b.first)
        && AdditionsMatch(a.first, b.first, sameTreeTop, duringEvaluation) {
      var rest := MatchedPath(a.first, b.first, sameTreeTop, duringEvaluation);
      path := [false] + rest;
      assert path[1..] == rest;
    } else {
      path := [];
    }
  }

  lemma {:induction false} PathMatches(a: Node, b: Node, path: seq<bool>, sameTreeTop: bool, duringEvaluation: bool)
    requires PairedAlong(a, b, path, sameTreeTop, duringEvaluation)
    ensures AdditionsMatch(a, b, sameTreeTop, duringEvaluation)
    decreases |path|
  {
    if path != [] {
      if path[0] {
        PathMatches(a.second, b.second, path[1..], sameTreeTop, duringEvaluation);
      } else {
        PathMatches(a.first, b.first, path[1..], sameTreeTop, duringEvaluation);
      }
    } else if a.first.Add? {
      assert a.first.first < a.first;
    }
  }

  /** Under one tree top `Aload`s of the same symbol that were not evaluated before, through matching addresses. */
  predicate PointersPair(a: Node, b: Node, duringEvaluation: bool) {
    && a.Indirect? && b.Indirect? && a.load == Aload && b.load == Aload && a.symbol == b.symbol
    && (if duringEvaluation then !a.hasRegister && !b.hasRegister else a.refCount <= 1 && b.refCount <= 1)
    && AddressesMatch(a.base, b.base, false, duringEvaluation)
  }

  /** A yes is given exactly to matching nodes, to sums that match or whose operands are sums that match, and under
      one tree top to pointers that match, alone or with matching offsets. */
  lemma AddressesMatchExactly(a: Node, b: Node, sameTreeTop: bool, duringEvaluation: bool)
    ensures AddressesMatch(a, b, sameTreeTop, duringEvaluation) <==>
      || NodeMatches(a, b, sameTreeTop, duringEvaluation)
      || (sameTreeTop && PointersPair(a, b, duringEvaluation))
      || (a.Add? && b.Add? && a.addKind != FloatAdd && b.addKind != FloatAdd
          && (|| AdditionsMatch(a, b, sameTreeTop, duringEvaluation)
              || (&& a.first.Add? && b.first.Add? && a.first.addKind != FloatAdd && b.first.addKind != FloatAdd
                  && a.second.Add? && b.second.Add? && a.second.addKind != FloatAdd && b.second.addKind != FloatAdd
                  && AdditionsMatch(a.first, b.first, sameTreeTop, duringEvaluation)
                  && AdditionsMatch(a.second, b.second, sameTreeTop, duringEvaluation))
              || (sameTreeTop && NodeMatches(a.second, b.second, sameTreeTop, duringEvaluation)
                  && PointersPair(a.first, b.first, duringEvaluation))))
  {
  }

  /** The same tree over again: other nodes with the same operations, symbols and constants. */
  predicate Copy(a: Node, b: Node, sameTreeTop: bool, duringEvaluation: bool) {
    || LeavesPair(a, b, sameTreeTop)
    || (a.Direct? && LoadsPair(a, b, sameTreeTop, duringEvaluation))
    || (a.Indirect? && LoadsPair(a, b, sameTreeTop, duringEvaluation) && Copy(a.base, b.base, sameTreeTop, duringEvaluation))
    || (a.Add? && b.Add? && a.addKind != FloatAdd && b.addKind != FloatAdd
        && Copy(a.first, b.first, sameTreeTop, duringEvaluation) && Copy(a.second, b.second, sameTreeTop, duringEvaluation))
  }

  /** No addition below a load. */
  predicate NoSum(n: Node) {
    !n.Add? && (n.Indirect? ==> NoSum(n.base))
  }

  /** Additions with an addition on one side at most. */
  predicate Comb(n: Node) {
    NoSum(n) || (n.Add? && ((NoSum(n.first) && Comb(n.second)) || (Comb(n.first) && NoSum(n.second))))
  }

  lemma {:induction false} PlainCopiesMatch(a: Node, b: Node, sameTreeTop: bool, duringEvaluation: bool)
    requires Copy(a, b, sameTreeTop, duringEvaluation) && NoSum(a)
    ensures NodeMatches(a, b, sameTreeTop, duringEvaluation)
  {
    if a != b && a.Indirect? {
      PlainCopiesMatch(a.base, b.base, sameTreeTop, duringEvaluation);
    }
  }

  lemma {:induction false} SumCopiesMatch(a: Node, b: Node, sameTreeTop: bool, duringEvaluation: bool)
    requires Copy(a, b, sameTreeTop, duringEvaluation) && a != b && a.Add? && Comb(a)
    ensures b.Add? && IsSupportedAdd(a) && IsSupportedAdd(b) && AdditionsMatch(a, b, sameTreeTop, duringEvaluation)
    decreases a, 0
  {
    if NoSum(a.first) && Comb(a.second) {
      PlainCopiesMatch(a.first, b.first, sameTreeTop, duringEvaluation);
      SideCopiesMatch(a.second, b.second, sameTreeTop, duringEvaluation);
    } else {
      PlainCopiesMatch(a.second, b.second, sameTreeTop, duringEvaluation);
      SideCopiesMatch(a.first, b.first, sameTreeTop, duringEvaluation);
    }
  }

  lemma {:induction false} SideCopiesMatch(a: Node, b: Node, sameTreeTop: bool, duringEvaluation: bool)
    requires Copy(a, b, sameTreeTop, duringEvaluation) && Comb(a)
    ensures NodeMatches(a, b, sameTreeTop, duringEvaluation)
      || (IsSupportedAdd(a) && IsSupportedAdd(b) && AdditionsMatch(a, b, sameTreeTop, duringEvaluation))
    decreases a, 1
  {
    if NoSum(a) {
      PlainCopiesMatch(a, b, sameTreeTop, duringEvaluation);
    } else if a != b {
      SumCopiesMatch(a, b, sameTreeTop, duringEvaluation);
    }
  }

  /** A copy of a sum of loads, symbols and constants gets a yes: if it has an addition on one side of each
      addition at most, or is the sum of two such sums. */
  lemma CopiesMatch(a: Node, b: Node, sameTreeTop: bool, duringEvaluation: bool)
    requires Copy(a, b, sameTreeTop, duringEvaluation)
    requires Comb(a) || (a.Add? && a.first.Add? && a.second.Add? && a.first != b.first && a.second != b.second
                         && Comb(a.first) && Comb(a.second))
    ensures AddressesMatch(a, b, sameTreeTop, duringEvaluation)
  {
    if Comb(a) {
      SideCopiesMatch(a, b, sameTreeTop, duringEvaluation);
    } else {
      SumCopiesMatch(a.first, b.first, sameTreeTop, duringEvaluation);
      SumCopiesMatch(a.second, b.second, sameTreeTop, duringEvaluation);
    }
  }

  /** So does an `Aload` through a copy of a sum without loads of its own. */
  lemma LoadedCopiesMatch(a: Node, b: Node, duringEvaluation: bool)
    requires LoadsPair(a, b, true, duringEvaluation) && a.Indirect? && a.load == Aload
    requires Copy(a.base, b.base, false, duringEvaluation) && Comb(a.base)
    ensures IndirectionsMatch(a, b, duringEvaluation) && AddressesMatch(a, b, true, duringEvaluation)
  {
    CopiesMatch(a.base, b.base, false, duringEvaluation);
  }

  /** And an offset from such a load. */
  lemma OffsetCopiesMatch(a: Node, b: Node, duringEvaluation: bool)
    requires a.Add? && b.Add? && a.addKind != FloatAdd && b.addKind != FloatAdd
    requires LoadsPair(a.first, b.first, true, duringEvaluation) && a.first.Indirect? && a.first.load == Aload
    requires Copy(a.first.base, b.first.base, false, duringEvaluation) && Comb(a.first.base)
    requires Copy(a.second, b.second, true, duringEvaluation) && NoSum(a.second)
    ensures AddressesMatch(a, b, true, duringEvaluation)
  {
    LoadedCopiesMatch(a.first, b.first, duringEvaluation);
    PlainCopiesMatch(a.second, b.second, true, duringEvaluation);
  }

  /** And so do an offset added in two steps and one added at once. */
  lemma FoldedMatches(a: Node, b: Node, sameTreeTop: bool, duringEvaluation: bool)
    requires a.Add? && b.Add? && a.first.Add? && a.addKind != FloatAdd && b.addKind != FloatAdd && a.first.addKind != FloatAdd
    requires a.first.first == b.first && a.first.second.Const? && a.second.Const? && b.second.Const?
    requires WrapSigned(64, a.first.second.value + a.second.value) == b.second.value
    ensures AddressesMatch(a, b, sameTreeTop, duringEvaluation)
  {
    assert a.first.first < a.first;
    assert AdditionsMatch(a, b, sameTreeTop, duringEvaluation);
  }

  // ----- when the caller's claim is safe

  /** How evaluation really goes: a load reads the state at this tree top if neither it nor a node above it had
      been evaluated earlier. */
  predicate EvaluatedInOrder(n: Node, env: World, here: bool)
    decreases n
  {
    var stillHere := here && !env.earlier(n.id);
    && ((n.Direct? || n.Indirect?) && stillHere ==> env.stateOf(n.id) == env.now)
    && match n
       case IntToAddress(_, _, _, child) => EvaluatedInOrder(child, env, stillHere)
       case Indirect(_, _, _, _, _, base) => EvaluatedInOrder(base, env, stillHere)
       case Add(_, _, _, _, first, second) => EvaluatedInOrder(first, env, stillHere) && EvaluatedInOrder(second, env, stillHere)
       case _ => true
  }

  /** What the nodes show of that.  During evaluation the nodes met in this tree that have a register are those
      evaluated earlier; before it, a node met in this tree that is referenced once cannot have been. */
  predicate Truthful(n: Node, env: World, duringEvaluation: bool, here: bool)
    decreases n
  {
    var stillHere := here && !env.earlier(n.id);
    && (here && duringEvaluation ==> env.earlier(n.id) == n.hasRegister)
    && (here && !duringEvaluation && n.refCount <= 1 ==> !env.earlier(n.id))
    && match n
       case IntToAddress(_, _, _, child) => Truthful(child, env, duringEvaluation, stillHere)
       case Indirect(_, _, _, _, _, base) => Truthful(base, env, duringEvaluation, stillHere)
       case Add(_, _, _, _, first, second) =>
         Truthful(first, env, duringEvaluation, stillHere) && Truthful(second, env, duringEvaluation, stillHere)
       case _ => true
  }

  /** No load that shows no sign of an earlier evaluation is below a node that does. */
  predicate NoHiddenLoads(n: Node, duringEvaluation: bool, here: bool)
    decreases n
  {
    var unevaluated := if duringEvaluation then !n.hasRegister else n.refCount <= 1;
    && ((n.Direct? || n.Indirect?) && unevaluated ==> here)
    && match n
       case IntToAddress(_, _, _, child) => NoHiddenLoads(child, duringEvaluation, here && unevaluated)
       case Indirect(_, _, _, _, _, base) => NoHiddenLoads(base, duringEvaluation, here && unevaluated)
       case Add(_, _, _, _, first, second) =>
         NoHiddenLoads(first, duringEvaluation, here && unevaluated) && NoHiddenLoads(second, duringEvaluation, here && unevaluated)
       case _ => true
  }

  /** `here` if nothing above shows an earlier evaluation, `really` if nothing above was evaluated earlier. */
  lemma {:induction false} NothingHiddenReadsNow(n: Node, env: World, duringEvaluation: bool, here: bool, really: bool)
    requires EvaluatedInOrder(n, env, really) && Truthful(n, env, duringEvaluation, really)
    requires NoHiddenLoads(n, duringEvaluation, here) && (here ==> really)
    ensures FreshLoadsReadNow(n, env, duringEvaluation)
  {
    var here', really' := here && (if duringEvaluation then !n.hasRegister else n.refCount <= 1), really && !env.earlier(n.id);
    match n {
      case IntToAddress(_, _, _, child) => NothingHiddenReadsNow(child, env, duringEvaluation, here', really');
      case Indirect(_, _, _, _, _, base) => NothingHiddenReadsNow(base, env, duringEvaluation, here', really');
      case Add(_, _, _, _, first, second) =>
        NothingHiddenReadsNow(first, env, duringEvaluation, here', really');
        NothingHiddenReadsNow(second, env, duringEvaluation, here', really');
      case _ =>
    }
  }

  /** Trees without hidden loads: a yes is right whenever evaluation goes in order. */
  lemma MatchSafeUnderOneTreeTop(a: Node, b: Node, duringEvaluation: bool, env: World, w: nat)
    requires AddressesMatch(a, b, true, duringEvaluation) && w <= 64
    requires NoHiddenLoads(a, duringEvaluation, true) && NoHiddenLoads(b, duringEvaluation, true)
    requires EvaluatedInOrder(a, env, true) && EvaluatedInOrder(b, env, true)
    requires Truthful(a, env, duringEvaluation, true) && Truthful(b, env, duringEvaluation, true) && MetaDataFixed(a, env)
    ensures Eval(a, env, w) == Eval(b, env, w)
  {
    NothingHiddenReadsNow(a, env, duringEvaluation, true, true);
    NothingHiddenReadsNow(b, env, duringEvaluation, true, true);
    AddressesMatchSound(a, b, true, duringEvaluation, env, w);
  }

  /** A commoned addition, evaluated in an earlier state, over a load referenced only by it. */
  const HIDING := Add(1, 2, false, AddressAdd, Direct(2, 1, false, Aload, 7, false), Const(3, 1, false, IntegralConst, 8))
  const PLAIN := Add(4, 1, false, AddressAdd, Direct(5, 1, false, Aload, 7, false), Const(6, 1, false, IntegralConst, 8))

  /** A world in which the symbol's value is 0 in the old state and 1 at this tree top, and the addition and its
      operands were evaluated in the old state. */
  const STORED :=
    World(s => 0, (s, t) => t, (s, x, t) => 0, x => x, i => 0, i => if i == 2 then 0 else 1, i => i <= 3, 1)

  /** With a hidden load the answer can be wrong: the reference count of the load alone does not show that
      its value is an old one. */
  lemma HiddenLoadMismatch()
    ensures AddressesMatch(HIDING, PLAIN, true, false) && !NoHiddenLoads(HIDING, false, true)
    ensures EvaluatedInOrder(HIDING, STORED, true) && EvaluatedInOrder(PLAIN, STORED, true)
    ensures Truthful(HIDING, STORED, false, true) && Truthful(PLAIN, STORED, false, true)
    ensures MetaDataFixed(HIDING, STORED) && Eval(HIDING, STORED, 32) == 8 && Eval(PLAIN, STORED, 32) == 9
  {
    assert NodeMatches(HIDING.second, PLAIN.second, true, false);
    assert NodeMatches(HIDING.first, PLAIN.first, true, false);
    assert AdditionsMatch(HIDING, PLAIN, true, false);
    assert HIDING.refCount == 2 && HIDING.first.refCount == 1;
    assert !NoHiddenLoads(HIDING.first, false, false);
    HiddenValues();
  }

  lemma HiddenValues()
    ensures Eval(HIDING, STORED, 32) == 8 && Eval(PLAIN, STORED, 32) == 9
  {
    Pow2Values();
    assert Eval(HIDING.first, STORED, 32) == 0 && Eval(PLAIN.first, STORED, 32) == 1;
    assert Eval(HIDING.second, STORED, 32) == 8 && Eval(PLAIN.second, STORED, 32) == 8;
  }
}
