/** The analysis: blocks in post-order, each given weights by the first heuristic that applies. */
module BranchProbabilityInfo {
  import opened Options
  import opened BranchWeights
  import opened BranchProbability
  import opened BranchMeaning

  /** The weights of the k-th block are what the sets collected from the blocks before it decide. */
  ghost predicate WellDecided(cfg: map<Node, Block>, loops: map<Node, Loop>, order: seq<Node>, k: nat, ws: seq<nat>) {
    && k < |order| && order[k] in cfg
    && var s := SeenAfter(cfg, order[..k]);
       ws == Decided(cfg[order[k]], s.unreachable, s.cold, LoopOf(loops, order[k]))
  }

  function LoopOf(loops: map<Node, Loop>, b: Node): Option<Loop> { if b in loops then Some(loops[b]) else None }

  ghost predicate ValidCfg(cfg: map<Node, Block>) {
    forall b {:trigger b in cfg} :: b in cfg ==> WellFormed(cfg[b])
  }

  predicate Distinct(order: seq<Node>) { forall i, j {:trigger order[i], order[j]} :: 0 <= i < j < |order| ==> order[i] != order[j] }

  lemma UntouchedRow(t: Table, b: Node, n: nat)
    requires forall e: Edge {:trigger e in t} :: e in t ==> e.0 != b
    ensures Row(t, b, n) == DefaultWeights(n)
  {
    forall i | 0 <= i < n ensures WeightAt(t, b, i) == DEFAULT_WEIGHT {
      assert (b, i) in t ==> (b, i).0 != b;
    }
  }

  lemma EdgesGrow(kinds: seq<nat>, k: nat, i: nat)
    requires i < |kinds|
    ensures Edges(kinds[..i + 1], k) == Edges(kinds[..i], k) + if kinds[i] == k then [i] else []
  {
    assert kinds[..i + 1][..i] == kinds[..i];
  }

  class Analysis {
    const cfg: map<Node, Block>
    const loops: map<Node, Loop>
    var Weights: Table
    var PostDominatedByUnreachable: set<Node>
    var PostDominatedByColdCall: set<Node>

    constructor (g: map<Node, Block>, l: map<Node, Loop>)
      ensures cfg == g && loops == l && Weights == map[]
      ensures PostDominatedByUnreachable == {} && PostDominatedByColdCall == {}
    {
      cfg, loops, Weights, PostDominatedByUnreachable, PostDominatedByColdCall := g, l, map[], {}, {};
    }

    function Sets(): Seen
      reads this
    {
      Seen(PostDominatedByUnreachable, PostDominatedByColdCall)
    }

    function GetEdgeWeight(b: Node, i: nat): (w: nat)
      reads this
      ensures w == WeightAt(Weights, b, i)
    {
      if (b, i) in Weights then Weights[(b, i)] else DEFAULT_WEIGHT
    }

    method SetEdgeWeight(b: Node, i: nat, w: nat)
      modifies `Weights
      ensures Weights == old(Weights)[(b, i) := w]
    {
      Weights := Weights[(b, i) := w];
    }

    /** All edges of class k get the weight of the class. */
    method SetClass(b: Node, ghost t: Table, ghost kinds: seq<nat>, ghost w: seq<nat>, ghost k: nat, edges: seq<nat>, weight: nat)
      requires |w| == 3 && k < 3 && edges == Edges(kinds, k) && weight == w[k] && SetSoFar(t, Weights, b, kinds, w, k)
      modifies `Weights
      ensures SetSoFar(t, Weights, b, kinds, w, k + 1)
    {
      for j := 0 to |edges|
        invariant SetSoFar(t, Weights, b, kinds, w, k)
        invariant forall m {:trigger edges[m]} :: 0 <= m < j ==> (b, edges[m]) in Weights && Weights[(b, edges[m])] == weight
      {
        EdgesMember(kinds, k, edges[j]);
        SetEdgeWeight(b, edges[j], weight);
      }
      forall i {:trigger kinds[i]} | 0 <= i < |kinds| && kinds[i] < k + 1
        ensures (b, i) in Weights && Weights[(b, i)] == w[kinds[i]]
      {
        if kinds[i] == k { EdgesMember(kinds, k, i); }
      }
    }

    /** The edges into a set of blocks, and the others. */
    method SplitEdges(b: Block, s: set<Node>) returns (into: seq<nat>, others: seq<nat>)
      ensures into == Edges(BySet(b, s), 0) && others == Edges(BySet(b, s), 1)
    {
      into, others := [], [];
      ghost var c := BySet(b, s);
      assert c[..0] == [];
      for i := 0 to |b.succs|
        invariant into == Edges(c[..i], 0) && others == Edges(c[..i], 1)
      {
        EdgesGrow(c, 0, i);
        EdgesGrow(c, 1, i);
        if b.succs[i] in s {
          into := into + [i];
        } else {
          others := others + [i];
        }
      }
      assert c[..|b.succs|] == c;
    }

    method SetTwoClasses(b: Node, ghost c: seq<nat>, first: seq<nat>, others: seq<nat>, w0: nat, w1: nat)
      requires Classes(c, 3) && first == Edges(c, 0) && others == Edges(c, 1)
      requires forall i {:trigger c[i]} :: 0 <= i < |c| ==> c[i] < 2
      modifies `Weights
      ensures Written(old(Weights), Weights, b, ByClass(c, [w0, w1, 0]))
    {
      hide Edges;
      ghost var t := Weights;
      ghost var w := [w0, w1, 0];
      SetClass(b, t, c, w, 0, first, w0);
      SetClass(b, t, c, w, 1, others, w1);
      assert SetSoFar(t, Weights, b, c, w, 3);
      AllSet(t, Weights, b, c, w);
    }

    method CalcUnreachableHeuristics(b: Node) returns (done: bool)
      requires b in cfg
      modifies `Weights, `PostDominatedByUnreachable
      ensures PostDominatedByUnreachable == UnreachableAfter(b, cfg[b], old(PostDominatedByUnreachable))
      ensures Outcome(old(Weights), Weights, b, UnreachableWeights(cfg[b], old(PostDominatedByUnreachable)))
      ensures done <==> UnreachableWeights(cfg[b], old(PostDominatedByUnreachable)).Some?
    {
      hide Edges, Written, Share, ByClass;
      var block := cfg[b];
      if |block.succs| == 0 {
        if block.term.Unreachable? {
          PostDominatedByUnreachable := PostDominatedByUnreachable + {b};
        }
        return false;
      }
      var unreachableEdges, reachableEdges := SplitEdges(block, PostDominatedByUnreachable);
      ghost var c := BySet(block, PostDominatedByUnreachable);
      AllOfClass(c);
      ClassesAllIn(block, PostDominatedByUnreachable);
      if |unreachableEdges| == |block.succs| {
        PostDominatedByUnreachable := PostDominatedByUnreachable + {b};
      }
      if |block.succs| == 1 || unreachableEdges == [] {
        return false;
      }
      SetTwoClasses(b, c, unreachableEdges, reachableEdges, Share(UR_TAKEN_WEIGHT, |unreachableEdges|, MIN_WEIGHT),
                    Share(UR_NONTAKEN_WEIGHT, |reachableEdges|, NORMAL_WEIGHT));
      done := true;
    }

    method CalcMetadataWeights(b: Node) returns (done: bool)
      requires b in cfg && WellFormed(cfg[b])
      modifies `Weights
      ensures Outcome(old(Weights), Weights, b, MetadataWeights(cfg[b])) && (done <==> MetadataWeights(cfg[b]).Some?)
    {
      var block := cfg[b];
      if |block.succs| == 1 || !(block.term.Branch? || block.term.CondBranch? || block.term.Switch?) || block.prof.None? {
        return false;
      }
      var ops := block.prof.value;
      if |ops| != |block.succs| {
        return false;
      }
      var weightLimit := MaxWeightFor(|block.succs|);
      var weights: seq<nat> := [];
      for i := 0 to |ops|
        invariant |weights| == i
        invariant forall j {:trigger ops[j]} :: 0 <= j < i ==> ops[j].Some? && weights[j] == Clamp(ops[j].value, weightLimit)
      {
        if ops[i].None? {
          return false;
        }
        weights := weights + [Clamp(ops[i].value, weightLimit)];
      }
      assert weights == MetadataWeights(block).value;
      SetRow(b, weights);
      done := true;
    }

    method SetRow(b: Node, row: seq<nat>)
      modifies `Weights
      ensures Written(old(Weights), Weights, b, row)
    {
      for i := 0 to |row|
        invariant OthersKept(old(Weights), Weights, b)
        invariant forall j {:trigger (b, j) in Weights} {:trigger row[j]} :: 0 <= j < i ==> (b, j) in Weights && Weights[(b, j)] == row[j]
      {
        SetEdgeWeight(b, i, row[i]);
      }
    }

    method CalcColdCallHeuristics(b: Node) returns (done: bool)
      requires b in cfg && b !in PostDominatedByColdCall
      modifies `Weights, `PostDominatedByColdCall
      ensures PostDominatedByColdCall == ColdAfter(b, cfg[b], old(PostDominatedByColdCall))
      ensures Outcome(old(Weights), Weights, b, ColdWeights(cfg[b], old(PostDominatedByColdCall)))
      ensures done <==> ColdWeights(cfg[b], old(PostDominatedByColdCall)).Some?
    {
      hide Edges, Written, Share, ByClass;
      var block := cfg[b];
      if |block.succs| == 0 {
        return false;
      }
      var coldEdges, normalEdges := SplitEdges(block, PostDominatedByColdCall);
      ghost var c := BySet(block, PostDominatedByColdCall);
      AllOfClass(c);
      ClassesAllIn(block, PostDominatedByColdCall);
      if |coldEdges| == |block.succs| {
        PostDominatedByColdCall := PostDominatedByColdCall + {b};
      } else {
        assert b !in PostDominatedByColdCall;
        if block.coldCall {
          PostDominatedByColdCall := PostDominatedByColdCall + {b};
        }
      }
      if |block.succs| == 1 || coldEdges == [] {
        return false;
      }
      SetTwoClasses(b, c, coldEdges, normalEdges, Share(CC_TAKEN_WEIGHT, |coldEdges|, MIN_WEIGHT),
                    Share(CC_NONTAKEN_WEIGHT, |normalEdges|, NORMAL_WEIGHT));
      done := true;
    }

    method CalcLoopBranchHeuristics(b: Node) returns (done: bool)
      requires b in cfg
      modifies `Weights
      ensures Outcome(old(Weights), Weights, b, LoopWeights(cfg[b], LoopOf(loops, b)))
      ensures done <==> LoopWeights(cfg[b], LoopOf(loops, b)).Some?
    {
      hide Edges, Share, ByClass;
      if b !in loops {
        return false;
      }
      var l := loops[b];
      var block := cfg[b];
      var backEdges, inEdges, exitingEdges := SplitLoopEdges(block, l);
      ghost var t, c := Weights, LoopClass(block, l);
      var backWeight := Share(LBH_TAKEN_WEIGHT, |backEdges|, NORMAL_WEIGHT);
      var inWeight := Share(LBH_TAKEN_WEIGHT, |inEdges|, NORMAL_WEIGHT);
      var exitWeight := Share(LBH_NONTAKEN_WEIGHT, |exitingEdges|, MIN_WEIGHT);
      ghost var w := [backWeight, inWeight, exitWeight];
      SetClass(b, t, c, w, 0, backEdges, backWeight);
      SetClass(b, t, c, w, 1, inEdges, inWeight);
      SetClass(b, t, c, w, 2, exitingEdges, exitWeight);
      AllSet(t, Weights, b, c, w);
      done := true;
    }

    method SplitLoopEdges(b: Block, l: Loop) returns (back: seq<nat>, inner: seq<nat>, exit: seq<nat>)
      ensures back == Edges(LoopClass(b, l), 0) && inner == Edges(LoopClass(b, l), 1) && exit == Edges(LoopClass(b, l), 2)
    {
      back, inner, exit := [], [], [];
      ghost var c := LoopClass(b, l);
      assert c[..0] == [];
      for i := 0 to |b.succs|
        invariant back == Edges(c[..i], 0) && inner == Edges(c[..i], 1) && exit == Edges(c[..i], 2)
      {
        EdgesGrow(c, 0, i);
        EdgesGrow(c, 1, i);
        EdgesGrow(c, 2, i);
        if b.succs[i] !in l.body {
          exit := exit + [i];
        } else if b.succs[i] == l.header {
          back := back + [i];
        } else {
          inner := inner + [i];
        }
      }
      assert c[..|b.succs|] == c;
    }

    /** The likely edge of two, and the other. */
    method SetTwoWay(b: Node, likely: bool)
      modifies `Weights
      ensures Written(old(Weights), Weights, b, TwoWay(likely))
    {
      var takenIdx, nonTakenIdx := 0, 1;
      if !likely {
        takenIdx, nonTakenIdx := nonTakenIdx, takenIdx;
      }
      SetEdgeWeight(b, takenIdx, LIKELY_WEIGHT);
      SetEdgeWeight(b, nonTakenIdx, UNLIKELY_WEIGHT);
    }

    method CalcPointerHeuristics(b: Node) returns (done: bool)
      requires b in cfg
      modifies `Weights
      ensures Outcome(old(Weights), Weights, b, PointerWeights(cfg[b])) && (done <==> PointerWeights(cfg[b]).Some?)
    {
      hide Written;
      var term := cfg[b].term;
      if !term.CondBranch? || !term.cond.PointerEquality? {
        return false;
      }
      SetTwoWay(b, term.cond.ne);
      done := true;
    }

    method CalcZeroHeuristics(b: Node) returns (done: bool)
      requires b in cfg
      modifies `Weights
      ensures Outcome(old(Weights), Weights, b, ZeroWeights(cfg[b])) && (done <==> ZeroWeights(cfg[b]).Some?)
    {
      hide Written;
      var term := cfg[b].term;
      if !term.CondBranch? || !term.cond.IntCompare? || term.cond.rhs.None? {
        return false;
      }
      var rhs := term.cond.rhs.value;
      var isProb: bool;
      if rhs.isZero {
        match term.cond.pred
        case EQ => isProb := false;
        case NE => isProb := true;
        case SLT => isProb := false;
        case SGT => isProb := true;
        case OtherPred => return false;
      } else if rhs.isOne && term.cond.pred == SLT {
        isProb := false;
      } else if rhs.isAllOnes && term.cond.pred == SGT {
        isProb := true;
      } else {
        return false;
      }
      SetTwoWay(b, isProb);
      done := true;
    }

    method CalcFloatingPointHeuristics(b: Node) returns (done: bool)
      requires b in cfg
      modifies `Weights
      ensures Outcome(old(Weights), Weights, b, FloatWeights(cfg[b])) && (done <==> FloatWeights(cfg[b]).Some?)
    {
      hide Written;
      var term := cfg[b].term;
      if !term.CondBranch? || !term.cond.FloatCompare? {
        return false;
      }
      var p := term.cond.fpred;
      var isProb: bool;
      if FloatEquality(p) {
        isProb := !TrueWhenEqual(p);
      } else if p == ORD {
        isProb := true;
      } else if p == UNO {
        isProb := false;
      } else {
        return false;
      }
      SetTwoWay(b, isProb);
      done := true;
    }

    method CalcInvokeHeuristics(b: Node) returns (done: bool)
      requires b in cfg
      modifies `Weights
      ensures Outcome(old(Weights), Weights, b, InvokeWeights(cfg[b])) && (done <==> InvokeWeights(cfg[b]).Some?)
    {
      if !cfg[b].term.Invoke? {
        return false;
      }
      SetEdgeWeight(b, 0, IH_TAKEN_WEIGHT);
      SetEdgeWeight(b, 1, IH_NONTAKEN_WEIGHT);
      done := true;
    }

    /** The heuristics in order, until one decides. */
    method CalcBlock(b: Node)
      requires b in cfg && WellFormed(cfg[b]) && b !in PostDominatedByColdCall
      modifies this
      ensures Outcome(old(Weights), Weights, b,
                      Decision(cfg[b], old(PostDominatedByUnreachable), old(PostDominatedByColdCall), LoopOf(loops, b)))
      ensures Sets() == Looked(b, cfg[b], old(Sets()))
    {
      hide Written, UnreachableWeights, MetadataWeights, ColdWeights, LoopWeights, PointerWeights, ZeroWeights, FloatWeights,
        InvokeWeights, UnreachableAfter, ColdAfter;
      var done := CalcUnreachableHeuristics(b);
      if done { return; }
      done := CalcMetadataWeights(b);
      if done { return; }
      done := CalcColdCallHeuristics(b);
      if done { return; }
      done := CalcLoopBranchHeuristics(b);
      if done { return; }
      done := CalcPointerHeuristics(b);
      if done { return; }
      done := CalcZeroHeuristics(b);
      if done { return; }
      done := CalcFloatingPointHeuristics(b);
      if done { return; }
      done := CalcInvokeHeuristics(b);
    }

    /** Blocks in post-order, each once. Both sets are empty again at the end. */
    method RunOnFunction(order: seq<Node>)
      requires ValidCfg(cfg) && Distinct(order) && Weights == map[]
      requires forall i {:trigger order[i]} :: 0 <= i < |order| ==> order[i] in cfg
      requires PostDominatedByUnreachable == {} && PostDominatedByColdCall == {}
      modifies this
      ensures forall i {:trigger order[i]} :: 0 <= i < |order| ==>
                WellDecided(cfg, loops, order, i, Row(Weights, order[i], |cfg[order[i]].succs|))
      ensures PostDominatedByUnreachable == {} && PostDominatedByColdCall == {}
    {
      hide WellDecided, Decision, Looked, Outcome;
      assert order[..0] == [];
      for k := 0 to |order|
        invariant Sets() == SeenAfter(cfg, order[..k])
        invariant forall b {:trigger b in PostDominatedByColdCall} :: b in PostDominatedByColdCall ==> b in order[..k]
        invariant forall e: Edge {:trigger e in Weights} :: e in Weights ==> e.0 in order[..k]
        invariant forall i {:trigger order[i]} :: 0 <= i < k ==>
                    WellDecided(cfg, loops, order, i, Row(Weights, order[i], |cfg[order[i]].succs|))
      {
        var b := order[k];
        NotBefore(order, k);
        ghost var s, t := Sets(), Weights;
        CalcBlock(b);
        SeenNext(cfg, order, k);
        ColdGrows(b, cfg[b], s);
        assert order[..k + 1] == order[..k] + [b];
        BlockDecided(cfg, loops, order, k, t, Weights);
        OthersDecided(cfg, loops, order, k, t, Weights, Decision(cfg[b], s.unreachable, s.cold, LoopOf(loops, b)));
      }
      PostDominatedByUnreachable := {};
      PostDominatedByColdCall := {};
    }

    /** The sum of the weights out of a block, in 32 bits; each addition makes it larger. */
    method GetSumForBlock(b: Node) returns (sum: nat)
      requires b in cfg && Fits(Row(Weights, b, |cfg[b].succs|))
      ensures sum == Sum(Row(Weights, b, |cfg[b].succs|)) <= UINT32_MAX
    {
      ghost var ws := Row(Weights, b, |cfg[b].succs|);
      sum := 0;
      assert ws[..0] == [];
      for i := 0 to |cfg[b].succs|
        invariant sum == Sum(ws[..i])
      {
        var weight := GetEdgeWeight(b, i);
        assert weight == ws[i] && ws[..i + 1][..i] == ws[..i];
        PrefixSum(ws, i + 1);
        var prevSum := sum;
        sum := (sum + weight) % (UINT32_MAX + 1);
        assert sum > prevSum;
      }
      assert ws[..|ws|] == ws;
    }

    /** A probability as a fraction: never more than one, and its denominator is not zero. */
    method GetEdgeProbability(b: Node, i: nat) returns (n: nat, d: nat)
      requires b in cfg && Fits(Row(Weights, b, |cfg[b].succs|)) && i < |cfg[b].succs|
      ensures n == Row(Weights, b, |cfg[b].succs|)[i] && d == Sum(Row(Weights, b, |cfg[b].succs|)) && 0 < n <= d
    {
      n := GetEdgeWeight(b, i);
      d := GetSumForBlock(b);
      SumAtLeast(Row(Weights, b, |cfg[b].succs|), i);
    }
  }

  // ----- What the loop relies on -----

  lemma ColdGrows(b: Node, block: Block, s: Seen)
    ensures forall x {:trigger x in Looked(b, block, s).cold} :: x in Looked(b, block, s).cold ==> x in s.cold || x == b
  {
    hide UnreachableWeights, MetadataWeights, UnreachableAfter;
  }

  lemma NotBefore(order: seq<Node>, k: nat)
    requires Distinct(order) && k < |order|
    ensures order[k] !in order[..k]
  {
  }

  lemma BlockDecided(cfg: map<Node, Block>, loops: map<Node, Loop>, order: seq<Node>, k: nat, t: Table, t': Table)
    requires k < |order| && order[k] in cfg && WellFormed(cfg[order[k]])
    requires var b := order[k]; var s := SeenAfter(cfg, order[..k]);
             Outcome(t, t', b, Decision(cfg[b], s.unreachable, s.cold, LoopOf(loops, b)))
    requires forall e: Edge {:trigger e in t} :: e in t ==> e.0 != order[k]
    ensures WellDecided(cfg, loops, order, k, Row(t', order[k], |cfg[order[k]].succs|))
  {
    hide SeenAfter, Decision;
    var b, s := order[k], SeenAfter(cfg, order[..k]);
    var d := Decision(cfg[b], s.unreachable, s.cold, LoopOf(loops, b));
    DecisionLength(cfg[b], s.unreachable, s.cold, LoopOf(loops, b));
    if d.None? { UntouchedRow(t, b, |cfg[b].succs|); } else { WrittenRow(t, t', b, d.value); }
  }

  lemma DecisionLength(b: Block, s: set<Node>, c: set<Node>, l: Option<Loop>)
    requires WellFormed(b)
    ensures Decision(b, s, c, l).Some? ==> |Decision(b, s, c, l).value| == |b.succs|
  {
    hide Share, Edges, Clamp;
  }

  lemma OthersDecided(cfg: map<Node, Block>, loops: map<Node, Loop>, order: seq<Node>, k: nat, t: Table, t': Table,
                      d: Option<seq<nat>>)
    requires Distinct(order) && k < |order| && Outcome(t, t', order[k], d)
    requires forall i {:trigger order[i]} :: 0 <= i < |order| ==> order[i] in cfg
    requires forall i {:trigger order[i]} :: 0 <= i < k ==>
               WellDecided(cfg, loops, order, i, Row(t, order[i], |cfg[order[i]].succs|))
    requires forall e: Edge {:trigger e in t} :: e in t ==> e.0 in order[..k]
    ensures forall i {:trigger order[i]} :: 0 <= i < k ==>
              WellDecided(cfg, loops, order, i, Row(t', order[i], |cfg[order[i]].succs|))
    ensures forall e: Edge {:trigger e in t'} :: e in t' ==> e.0 in order[..k + 1]
  {
    hide WellDecided;
    forall i | 0 <= i < k ensures WellDecided(cfg, loops, order, i, Row(t', order[i], |cfg[order[i]].succs|)) {
      assert order[i] != order[k];
      if d.Some? { KeptRow(t, t', order[k], order[i], |cfg[order[i]].succs|); }
    }
    forall e: Edge | e in t' ensures e.0 in order[..k + 1] {
      assert order[..k + 1] == order[..k] + [order[k]];
      if e.0 != order[k] && d.Some? { KeptBack(t, t', order[k], e); }
    }
  }

  lemma KeptBack(t: Table, t': Table, b: Node, e: Edge)
    requires OthersKept(t, t', b) && e in t' && e.0 != b
    ensures e in t
  {
  }

  lemma {:induction false} PrefixSum(ws: seq<nat>, n: nat)
    requires n <= |ws|
    ensures Sum(ws[..n]) <= Sum(ws)
    decreases |ws| - n
  {
    if n < |ws| {
      PrefixSum(ws, n + 1);
      assert ws[..n + 1][..n] == ws[..n];
    } else {
      assert ws[..n] == ws;
    }
  }

  /** The analysis run to its end: every row fits in 32 bits, and its probabilities sum to exactly one. */
  lemma AnalysedRow(cfg: map<Node, Block>, loops: map<Node, Loop>, order: seq<Node>, k: nat, ws: seq<nat>)
    requires ValidCfg(cfg) && WellDecided(cfg, loops, order, k, ws) && |cfg[order[k]].succs| <= MAX_SUCCESSORS
    ensures Fits(ws) && |ws| == |cfg[order[k]].succs|
    ensures ws != [] ==> Sum(ws) > 0 && ProbabilitySum(ws, Sum(ws)) == 1.0
  {
    hide Decided, Sum, Fits, ProbabilitySum, SeenAfter;
    var b, s := order[k], SeenAfter(cfg, order[..k]);
    assert WellFormed(cfg[b]);
    DecidedFits(cfg[b], s.unreachable, s.cold, LoopOf(loops, b));
    if ws != [] { ProbabilitiesSumToOne(ws); }
  }

  /** And every row says what it should about where its edges lead and what its comparison means. */
  lemma MeaningfulRow(cfg: map<Node, Block>, loops: map<Node, Loop>, order: seq<Node>, k: nat, ws: seq<nat>)
    requires WellDecided(cfg, loops, order, k, ws)
    ensures var s := SeenAfter(cfg, order[..k]);
            Meaningful(cfg[order[k]], s.unreachable, s.cold, LoopOf(loops, order[k]), ws)
  {
    hide Decided, Meaningful, SeenAfter;
    var s := SeenAfter(cfg, order[..k]);
    AllMeaningful(cfg[order[k]], s.unreachable, s.cold, LoopOf(loops, order[k]));
  }

  // ----- The bound is exact -----

  /** Whatever the block and the sets, the weights of n edges fit. */
  ghost predicate AlwaysFits(n: nat) {
    forall b, s, c, l {:trigger Decided(b, s, c, l)} :: WellFormed(b) && |b.succs| == n ==> Fits(Decided(b, s, c, l))
  }

  /** A switch in a loop, with one edge back and all others within. */
  function Spread(n: nat): Block
    requires n > 0
  {
    Block(Switch, [0] + seq(n - 1, i => 1), false, None)
  }

  lemma {:induction false} CountFrom(kinds: seq<nat>)
    requires kinds != [] && kinds[0] == 0 && forall i {:trigger kinds[i]} :: 0 < i < |kinds| ==> kinds[i] == 1
    ensures |Edges(kinds, 0)| == 1 && |Edges(kinds, 1)| == |kinds| - 1 && |Edges(kinds, 2)| == 0
    decreases |kinds|
  {
    if |kinds| == 1 {
      assert kinds[..0] == [];
    } else {
      var init := kinds[..|kinds| - 1];
      assert forall i {:trigger init[i]} :: 0 <= i < |init| ==> init[i] == kinds[i];
      CountFrom(init);
    }
  }

  lemma SpreadSum(n: nat)
    requires n > MAX_SUCCESSORS
    ensures Sum(Decided(Spread(n), {}, {}, Some(Loop(0, {0, 1})))) == 16 * n + 108
  {
    hide Edges, Share, Sum, ByClass;
    var b, l := Spread(n), Loop(0, {0, 1});
    NoneBad(b);
    var c := LoopClass(b, l);
    CountFrom(c);
    assert Share(LBH_TAKEN_WEIGHT, 1, NORMAL_WEIGHT) == 124 && Share(LBH_TAKEN_WEIGHT, n - 1, NORMAL_WEIGHT) == 16 by { SpreadShares(n); }
    SumByClass(c, [124, 16, Share(LBH_NONTAKEN_WEIGHT, 0, MIN_WEIGHT)]);
    NoEdges(0, Share(LBH_NONTAKEN_WEIGHT, 0, MIN_WEIGHT));
  }

  lemma SpreadShares(n: nat)
    requires n > MAX_SUCCESSORS
    ensures Share(LBH_TAKEN_WEIGHT, 1, NORMAL_WEIGHT) == 124 && Share(LBH_TAKEN_WEIGHT, n - 1, NORMAL_WEIGHT) == 16
  {
  }

  lemma NoneBad(b: Block)
    ensures UnreachableWeights(b, {}).None? && ColdWeights(b, {}).None?
  {
    var c := BySet(b, {});
    NoFirstClass(c);
  }

  lemma {:induction false} NoFirstClass(c: seq<nat>)
    requires forall i {:trigger c[i]} :: 0 <= i < |c| ==> c[i] != 0
    ensures Edges(c, 0) == []
    decreases |c|
  {
    if c != [] {
      var init := c[..|c| - 1];
      assert forall i {:trigger init[i]} :: 0 <= i < |init| ==> init[i] == c[i];
      NoFirstClass(init);
    }
  }

  /** Sums of n weights fit in 32 bits for every block exactly up to this many successors. */
  lemma BoundIsExact(n: nat)
    ensures AlwaysFits(n) <==> n <= MAX_SUCCESSORS
  {
    hide Decided, Fits, Sum;
    if n <= MAX_SUCCESSORS {
      forall b, s, c, l | WellFormed(b) && |b.succs| == n ensures Fits(Decided(b, s, c, l)) {
        DecidedFits(b, s, c, l);
      }
    } else {
      SpreadSum(n);
      var b, l := Spread(n), Some(Loop(0, {0, 1}));
      assert WellFormed(b) && |b.succs| == n;
      NotFitting(Decided(b, {}, {}, l));
    }
  }

  lemma NotFitting(ws: seq<nat>)
    ensures Sum(ws) > UINT32_MAX ==> !Fits(ws)
  {
  }

  lemma ClassesAllIn(b: Block, s: set<Node>)
    ensures AllIn(b, s) <==> forall i {:trigger BySet(b, s)[i]} :: 0 <= i < |b.succs| ==> BySet(b, s)[i] == 0
  {
    var c := BySet(b, s);
    if forall i {:trigger c[i]} :: 0 <= i < |b.succs| ==> c[i] == 0 {
      forall i | 0 <= i < |b.succs| ensures b.succs[i] in s { assert c[i] == 0; }
    }
  }
}
