/** What each branch heuristic says about the edges out of a block, and how large the sum of their weights can get. */
module BranchWeights {
  import opened Options

  type Node = nat

  datatype IntPred = EQ | NE | SLT | SGT | OtherPred

  datatype FloatPred = OEQ | ONE | UEQ | UNE | ORD | UNO | OtherFloat

  /** The constant an integer is compared with. */
  datatype Rhs = Rhs(isZero: bool, isOne: bool, isAllOnes: bool)

  datatype Cond =
    | PointerEquality(ne: bool)
    | IntCompare(pred: IntPred, rhs: Option<Rhs>)
    | FloatCompare(fpred: FloatPred)
    | OtherCond

  datatype Term = Unreachable | Branch | CondBranch(cond: Cond) | Switch | Invoke | OtherTerm

  /** prof is the weights node, without its name; an operand that is no integer is None. */
  datatype Block = Block(term: Term, succs: seq<Node>, coldCall: bool, prof: Option<seq<Option<nat>>>)

  datatype Loop = Loop(header: Node, body: set<Node>)

  /** Two-way terminators have two successors. */
  predicate WellFormed(b: Block) {
    && (b.term.CondBranch? || b.term.Invoke? ==> |b.succs| == 2)
    && (b.term.Branch? ==> |b.succs| == 1) && (b.term.Unreachable? ==> b.succs == [])
    && (b.term.Switch? ==> b.succs != [])
  }

  const LBH_TAKEN_WEIGHT := 124
  const LBH_NONTAKEN_WEIGHT := 4
  const UR_TAKEN_WEIGHT := 1
  const UR_NONTAKEN_WEIGHT := 1024 * 1024 - 1
  const CC_TAKEN_WEIGHT := 4
  const CC_NONTAKEN_WEIGHT := 64
  const LIKELY_WEIGHT := 20
  const UNLIKELY_WEIGHT := 12
  const IH_TAKEN_WEIGHT := 1024 * 1024 - 1
  const IH_NONTAKEN_WEIGHT := 1
  const NORMAL_WEIGHT := 16
  const MIN_WEIGHT := 1
  const DEFAULT_WEIGHT := 16
  const UINT32_MAX := 0xFFFF_FFFF

  // ----- Sums over classes of edges -----

  function Sum(ws: seq<nat>): nat { if ws == [] then 0 else Sum(ws[..|ws| - 1]) + ws[|ws| - 1] }

  /** The edges of one class, in order. */
  function Edges(kinds: seq<nat>, c: nat): seq<nat> {
    if kinds == [] then []
    else Edges(kinds[..|kinds| - 1], c) + (if kinds[|kinds| - 1] == c then [|kinds| - 1] else [])
  }

  predicate Classes(kinds: seq<nat>, k: nat) { forall i {:trigger kinds[i]} :: 0 <= i < |kinds| ==> kinds[i] < k }

  /** Each edge has the weight of its class. */
  function ByClass(kinds: seq<nat>, w: seq<nat>): (ws: seq<nat>)
    requires Classes(kinds, |w|)
    ensures |ws| == |kinds| && forall i {:trigger ws[i]} :: 0 <= i < |ws| ==> ws[i] == w[kinds[i]]
  {
    seq<nat>(|kinds|, i requires 0 <= i < |kinds| && kinds[i] < |w| => w[kinds[i]])
  }

  lemma {:induction false} SumByClass(kinds: seq<nat>, w: seq<nat>)
    requires |w| == 3 && Classes(kinds, 3)
    ensures Sum(ByClass(kinds, w)) == |Edges(kinds, 0)| * w[0] + |Edges(kinds, 1)| * w[1] + |Edges(kinds, 2)| * w[2]
    ensures |Edges(kinds, 0)| + |Edges(kinds, 1)| + |Edges(kinds, 2)| == |kinds|
    decreases |kinds|
  {
    if kinds != [] {
      var init, x := kinds[..|kinds| - 1], kinds[|kinds| - 1];
      assert forall i {:trigger init[i]} :: 0 <= i < |init| ==> init[i] == kinds[i];
      SumByClass(init, w);
      assert ByClass(kinds, w)[..|kinds| - 1] == ByClass(init, w);
      assert Sum(ByClass(kinds, w)) == Sum(ByClass(init, w)) + w[x];
      OneMoreEdge(|Edges(init, 0)|, |Edges(init, 1)|, |Edges(init, 2)|, w, x);
    }
  }

  /** One more edge adds the weight of its class. */
  lemma OneMoreEdge(a: nat, b: nat, c: nat, w: seq<nat>, x: nat)
    requires |w| == 3 && x < 3
    ensures a * w[0] + b * w[1] + c * w[2] + w[x] ==
            (if x == 0 then a + 1 else a) * w[0] + (if x == 1 then b + 1 else b) * w[1] + (if x == 2 then c + 1 else c) * w[2]
  {
    OneMore(a, w[0]);
    OneMore(b, w[1]);
    OneMore(c, w[2]);
  }

  lemma OneMore(n: nat, w: nat)
    ensures (n + 1) * w == n * w + w
  {
  }

  /** Sharing out a total over n edges, at least low each. */
  function Share(total: nat, n: nat, low: nat): (w: nat)
    ensures w >= low
  {
    var each := if n == 0 then total else total / n;
    if each < low then low else each
  }

  /** The share of all is the total at most, unless the lower bound makes it more. */
  lemma ShareBound(total: nat, n: nat, low: nat)
    ensures n * Share(total, n, low) <= if n * low >= total then n * low else total
  {
    if n > 0 {
      var q := total / n;
      assert n * q <= total;
    }
  }

  // ----- The heuristics -----

  function BySet(b: Block, s: set<Node>): (c: seq<nat>)
    ensures |c| == |b.succs| && Classes(c, 3)
    ensures forall i {:trigger c[i]} :: 0 <= i < |c| ==> c[i] == if b.succs[i] in s then 0 else 1
  {
    seq<nat>(|b.succs|, i requires 0 <= i < |b.succs| => if b.succs[i] in s then 0 else 1)
  }

  /** Edges to blocks that lead only to unreachable are all but ruled out. */
  function UnreachableWeights(b: Block, s: set<Node>): Option<seq<nat>> {
    var c := BySet(b, s);
    var bad, good := |Edges(c, 0)|, |Edges(c, 1)|;
    if |b.succs| <= 1 || bad == 0 then None
    else Some(ByClass(c, [Share(UR_TAKEN_WEIGHT, bad, MIN_WEIGHT), Share(UR_NONTAKEN_WEIGHT, good, NORMAL_WEIGHT), 0]))
  }

  function ColdWeights(b: Block, s: set<Node>): Option<seq<nat>> {
    var c := BySet(b, s);
    var cold, normal := |Edges(c, 0)|, |Edges(c, 1)|;
    if |b.succs| <= 1 || cold == 0 then None
    else Some(ByClass(c, [Share(CC_TAKEN_WEIGHT, cold, MIN_WEIGHT), Share(CC_NONTAKEN_WEIGHT, normal, NORMAL_WEIGHT), 0]))
  }

  function LoopClass(b: Block, l: Loop): (c: seq<nat>)
    ensures |c| == |b.succs| && Classes(c, 3)
    ensures forall i {:trigger c[i]} :: 0 <= i < |c| ==>
              c[i] == if b.succs[i] !in l.body then 2 else if b.succs[i] == l.header then 0 else 1
  {
    seq<nat>(|b.succs|, i requires 0 <= i < |b.succs| => if b.succs[i] !in l.body then 2 else if b.succs[i] == l.header then 0 else 1)
  }

  /** Back edges and edges that stay in the loop are likely, edges that leave it are not. */
  function LoopWeights(b: Block, l: Option<Loop>): Option<seq<nat>> {
    if l.None? then None
    else
      var c := LoopClass(b, l.value);
      var back, inner, exit := |Edges(c, 0)|, |Edges(c, 1)|, |Edges(c, 2)|;
      Some(ByClass(c, [Share(LBH_TAKEN_WEIGHT, back, NORMAL_WEIGHT), Share(LBH_TAKEN_WEIGHT, inner, NORMAL_WEIGHT),
                       Share(LBH_NONTAKEN_WEIGHT, exit, MIN_WEIGHT)]))
  }

  /** The largest weight that any number of edges may all have. */
  function MaxWeightFor(n: nat): nat { if n == 0 then 0 else UINT32_MAX / n }

  function Clamp(x: nat, limit: nat): (w: nat)
    ensures 1 <= w && (limit >= 1 ==> w <= limit)
  {
    var y := if x > limit then limit else x;
    if y < 1 then 1 else y
  }

  /** Weights that were given explicitly, if there is one for every edge. */
  function MetadataWeights(b: Block): Option<seq<nat>> {
    if |b.succs| == 1 || !(b.term.Branch? || b.term.CondBranch? || b.term.Switch?) || b.prof.None? then None
    else
      var ops := b.prof.value;
      if |ops| != |b.succs| || exists i {:trigger ops[i]} :: 0 <= i < |ops| && ops[i].None? then None
      else Some(seq<nat>(|ops|, i requires 0 <= i < |ops| && ops[i].Some? => Clamp(ops[i].value, MaxWeightFor(|ops|))))
  }

  function TwoWay(likely: bool): seq<nat> {
    if likely then [LIKELY_WEIGHT, UNLIKELY_WEIGHT] else [UNLIKELY_WEIGHT, LIKELY_WEIGHT]
  }

  /** Pointers are unequal. */
  function PointerWeights(b: Block): Option<seq<nat>> {
    if b.term.CondBranch? && b.term.cond.PointerEquality? then Some(TwoWay(b.term.cond.ne)) else None
  }

  /** Integers are positive. None where there is no guess. */
  function ZeroGuess(p: IntPred, r: Rhs): Option<bool> {
    if r.isZero then
      match p
      case EQ => Some(false)
      case NE => Some(true)
      case SLT => Some(false)
      case SGT => Some(true)
      case OtherPred => None
    else if r.isOne && p == SLT then Some(false)
    else if r.isAllOnes && p == SGT then Some(true)
    else None
  }

  function ZeroWeights(b: Block): Option<seq<nat>> {
    if b.term.CondBranch? && b.term.cond.IntCompare? && b.term.cond.rhs.Some? then
      match ZeroGuess(b.term.cond.pred, b.term.cond.rhs.value)
      case None => None
      case Some(likely) => Some(TwoWay(likely))
    else None
  }

  predicate FloatEquality(p: FloatPred) { p in {OEQ, ONE, UEQ, UNE} }

  /** Of these, the comparison that is true for equal operands and for no order. */
  predicate TrueWhenEqual(p: FloatPred) { p == UEQ }

  /** Numbers are unequal and are numbers. */
  function FloatGuess(p: FloatPred): Option<bool> {
    if FloatEquality(p) then Some(!TrueWhenEqual(p))
    else if p == ORD then Some(true)
    else if p == UNO then Some(false)
    else None
  }

  function FloatWeights(b: Block): Option<seq<nat>> {
    if b.term.CondBranch? && b.term.cond.FloatCompare? then
      match FloatGuess(b.term.cond.fpred)
      case None => None
      case Some(likely) => Some(TwoWay(likely))
    else None
  }

  function InvokeWeights(b: Block): Option<seq<nat>> {
    if b.term.Invoke? then Some([IH_TAKEN_WEIGHT, IH_NONTAKEN_WEIGHT]) else None
  }

  // ----- What is guessed, told by what the comparisons mean -----

  /** How two floating-point operands compare; a NaN has no order. */
  datatype Order = Less | Equal | Greater | Unordered

  predicate FloatHolds(p: FloatPred, r: Order)
    requires p != OtherFloat
  {
    match p
    case OEQ => r == Equal
    case ONE => r == Less || r == Greater
    case UEQ => r == Equal || r == Unordered
    case UNE => r != Equal
    case ORD => r != Unordered
    case UNO => r == Unordered
  }

  predicate IntHolds(p: IntPred, x: int, y: int)
    requires p != OtherPred
  {
    match p
    case EQ => x == y
    case NE => x != y
    case SLT => x < y
    case SGT => x > y
  }

  /** The heavier of the two edges is the one taken if the comparison holds. */
  predicate Favours(ws: seq<nat>, holds: bool) {
    |ws| == 2 && if holds then ws[0] > ws[1] else ws[1] > ws[0]
  }

  /** The edge that operands take which are numbers and differ is the heavier one, except for ordered equality. */
  lemma DifferentNumbersLikely(b: Block, r: Order)
    requires FloatWeights(b).Some? && r in {Less, Greater}
    ensures b.term.cond.fpred != OtherFloat
    ensures Favours(FloatWeights(b).value, FloatHolds(b.term.cond.fpred, r)) <==> b.term.cond.fpred != OEQ
  {
  }

  /** The edge that every positive integer takes is the heavier one, whatever the constant it is compared with. */
  lemma PositiveIntegersLikely(b: Block, x: int, y: int)
    requires ZeroWeights(b).Some? && x > 0 && b.term.cond.rhs == Some(Rhs(y == 0, y == 1, y == -1))
    ensures b.term.cond.pred != OtherPred
    ensures Favours(ZeroWeights(b).value, IntHolds(b.term.cond.pred, x, y))
  {
  }

  // ----- Bounds -----

  ghost predicate Positive(ws: seq<nat>) { forall i {:trigger ws[i]} :: 0 <= i < |ws| ==> 1 <= ws[i] <= UINT32_MAX }

  /** Blocks with more successors can have weights that do not fit. */
  const MAX_SUCCESSORS := 268435449

  ghost predicate Fits(ws: seq<nat>) { Positive(ws) && Sum(ws) <= UINT32_MAX }

  lemma NoThirdClass(c: seq<nat>)
    requires forall i {:trigger c[i]} :: 0 <= i < |c| ==> c[i] < 2
    ensures Edges(c, 2) == []
    decreases |c|
  {
    if c != [] {
      var init := c[..|c| - 1];
      assert forall i {:trigger init[i]} :: 0 <= i < |init| ==> init[i] == c[i];
      NoThirdClass(init);
    }
  }

  /** No weight is larger than what is shared out. */
  lemma ShareAtMost(total: nat, n: nat, low: nat)
    ensures Share(total, n, low) <= if low >= total then low else total
  {
    if n > 0 { Quotient(total, n); }
  }

  lemma Quotient(x: nat, n: nat)
    requires n > 0
    ensures x / n <= x
  {
    assert x == n * (x / n) + x % n;
    assert n * (x / n) >= x / n by { OneMore(n - 1, x / n); }
  }

  lemma UnreachableFits(b: Block, s: set<Node>)
    requires |b.succs| <= MAX_SUCCESSORS && UnreachableWeights(b, s).Some?
    ensures Fits(UnreachableWeights(b, s).value) && |UnreachableWeights(b, s).value| == |b.succs|
  {
    hide Share, Sum, Edges;
    var c := BySet(b, s);
    var bad, good := |Edges(c, 0)|, |Edges(c, 1)|;
    var w := [Share(UR_TAKEN_WEIGHT, bad, MIN_WEIGHT), Share(UR_NONTAKEN_WEIGHT, good, NORMAL_WEIGHT), 0];
    SumByClass(c, w);
    NoThirdClass(c);
    ShareBound(UR_TAKEN_WEIGHT, bad, MIN_WEIGHT);
    ShareBound(UR_NONTAKEN_WEIGHT, good, NORMAL_WEIGHT);
    ShareAtMost(UR_TAKEN_WEIGHT, bad, MIN_WEIGHT);
    ShareAtMost(UR_NONTAKEN_WEIGHT, good, NORMAL_WEIGHT);
  }

  lemma ColdFits(b: Block, s: set<Node>)
    requires |b.succs| <= MAX_SUCCESSORS && ColdWeights(b, s).Some?
    ensures Fits(ColdWeights(b, s).value) && |ColdWeights(b, s).value| == |b.succs|
  {
    hide Share, Sum, Edges;
    var c := BySet(b, s);
    var cold, normal := |Edges(c, 0)|, |Edges(c, 1)|;
    var w := [Share(CC_TAKEN_WEIGHT, cold, MIN_WEIGHT), Share(CC_NONTAKEN_WEIGHT, normal, NORMAL_WEIGHT), 0];
    SumByClass(c, w);
    NoThirdClass(c);
    ShareBound(CC_TAKEN_WEIGHT, cold, MIN_WEIGHT);
    ShareBound(CC_NONTAKEN_WEIGHT, normal, NORMAL_WEIGHT);
    ShareAtMost(CC_TAKEN_WEIGHT, cold, MIN_WEIGHT);
    ShareAtMost(CC_NONTAKEN_WEIGHT, normal, NORMAL_WEIGHT);
  }

  lemma LoopFits(b: Block, l: Option<Loop>)
    requires |b.succs| <= MAX_SUCCESSORS && LoopWeights(b, l).Some?
    ensures Fits(LoopWeights(b, l).value) && |LoopWeights(b, l).value| == |b.succs|
  {
    hide Share, Sum, Edges;
    var c := LoopClass(b, l.value);
    var back, inner, exit := |Edges(c, 0)|, |Edges(c, 1)|, |Edges(c, 2)|;
    var w := [Share(LBH_TAKEN_WEIGHT, back, NORMAL_WEIGHT), Share(LBH_TAKEN_WEIGHT, inner, NORMAL_WEIGHT),
              Share(LBH_NONTAKEN_WEIGHT, exit, MIN_WEIGHT)];
    SumByClass(c, w);
    ShareBound(LBH_TAKEN_WEIGHT, back, NORMAL_WEIGHT);
    ShareBound(LBH_TAKEN_WEIGHT, inner, NORMAL_WEIGHT);
    ShareBound(LBH_NONTAKEN_WEIGHT, exit, MIN_WEIGHT);
    ShareAtMost(LBH_TAKEN_WEIGHT, back, NORMAL_WEIGHT);
    ShareAtMost(LBH_TAKEN_WEIGHT, inner, NORMAL_WEIGHT);
    ShareAtMost(LBH_NONTAKEN_WEIGHT, exit, MIN_WEIGHT);
    NoEdges(back, w[0]);
    NoEdges(inner, w[1]);
    NoEdges(exit, w[2]);
  }

  lemma NoEdges(n: nat, w: nat)
    ensures n == 0 ==> n * w == 0
  {
  }

  lemma {:induction false} SumAtMost(ws: seq<nat>, w: nat)
    requires forall i {:trigger ws[i]} :: 0 <= i < |ws| ==> ws[i] <= w
    ensures Sum(ws) <= |ws| * w
    decreases |ws|
  {
    if ws != [] {
      var init := ws[..|ws| - 1];
      assert forall i {:trigger init[i]} :: 0 <= i < |init| ==> init[i] == ws[i];
      SumAtMost(init, w);
      OneMore(|init|, w);
    }
  }

  /** Clamped to the largest weight for so many edges, explicit weights fit whatever they are. */
  lemma MetadataFits(b: Block)
    requires WellFormed(b) && |b.succs| <= MAX_SUCCESSORS && MetadataWeights(b).Some?
    ensures Fits(MetadataWeights(b).value) && |MetadataWeights(b).value| == |b.succs|
  {
    hide Sum;
    var ws, n := MetadataWeights(b).value, |b.succs|;
    var limit := MaxWeightFor(n);
    assert n * limit <= UINT32_MAX && limit >= 1;
    SumAtMost(ws, limit);
  }

  lemma PairFits(x: nat, y: nat)
    requires 1 <= x && 1 <= y && x + y <= UINT32_MAX
    ensures Fits([x, y])
  {
    assert [x, y][..1] == [x] && [x][..0] == [];
    assert Sum([x, y]) == Sum([x]) + y && Sum([x]) == Sum([]) + x;
  }

  lemma {:induction false} SumUniform(ws: seq<nat>, w: nat)
    requires forall i {:trigger ws[i]} :: 0 <= i < |ws| ==> ws[i] == w
    ensures Sum(ws) == |ws| * w
    decreases |ws|
  {
    if ws != [] {
      var init := ws[..|ws| - 1];
      assert forall i {:trigger init[i]} :: 0 <= i < |init| ==> init[i] == ws[i];
      SumUniform(init, w);
      OneMore(|init|, w);
    }
  }

  /** The weights of a block for which nothing was set. */
  function DefaultWeights(n: nat): (ws: seq<nat>)
    ensures |ws| == n && forall i {:trigger ws[i]} :: 0 <= i < n ==> ws[i] == DEFAULT_WEIGHT
  {
    seq(n, i => DEFAULT_WEIGHT)
  }

  lemma DefaultFits(n: nat)
    requires n <= MAX_SUCCESSORS
    ensures Fits(DefaultWeights(n))
  {
    hide Sum;
    SumUniform(DefaultWeights(n), DEFAULT_WEIGHT);
  }
}
