/** What one visit to a work item comes to, as a function of the cache: the fact it settles, or the work it asks for. */
module LviVisits {
  import opened Options
  import opened ConstantRange
  import opened RangePrecision
  import opened Dominance
  import opened LviProgram
  import opened LviLattice
  import opened LviFacts

  datatype Work = Work(b: Node, x: Operand)

  predicate Compatible(a: LatticeVal, b: LatticeVal) {
    a.ConstantRange? && b.ConstantRange? ==> a.range.Valid() && b.range.Valid() && a.range.m == b.range.m
  }

  function Merged(a: LatticeVal, b: LatticeVal): LatticeVal { if Compatible(a, b) then a.MergeIn(b) else Overdefined }

  predicate IsSingle(r: Range) { r.m > 0 && r.IsSingleElement() }

  /** What the terminator says, narrowed by the fact about the block it ends. */
  function Narrowed(local: LatticeVal, inBlock: LatticeVal): LatticeVal {
    if local.ConstantRange? && inBlock.ConstantRange? && Compatible(local, inBlock)
    then GetRange(IntersectWith(local.range, inBlock.range))
    else local
  }

  function BlockFact(cache: Cache, x: Operand, b: Node): Option<LatticeVal> {
    if x.Const? then Some(Get(x.c, Pow2(x.width))) else if Key(x.v, b) in cache then Some(cache[Key(x.v, b)]) else None
  }

  /** The fact about x on an edge; None if it takes a fact about the block from that is not in the cache. */
  function EdgeFact(pr: Program, cache: Cache, x: Operand, from: Node, dest: Node): Option<LatticeVal> {
    if x.Const? || from !in pr.blocks then BlockFact(cache, x, from)
    else
      match EdgeValueLocal(pr, x.v, from, dest)
      case None => BlockFact(cache, x, from)
      case Some(local) =>
        if !local.ConstantRange? || IsSingle(local.range) then Some(local)
        else
          match BlockFact(cache, x, from)
          case None => None
          case Some(inBlock) => Some(Narrowed(local, inBlock))
  }

  // ----- Joins -----

  /** A join under way: what has been joined, what has been asked for, and whether it was given up. */
  datatype Joining = Joining(result: LatticeVal, missing: seq<Work>, stopped: bool)

  /** As soon as a fact is missing, nothing is joined any more, but all others that are missing are asked for. */
  function Joined(j: Joining, fact: Option<LatticeVal>, w: Work): Joining {
    if j.stopped then j
    else
      match fact
      case None => j.(missing := j.missing + [w])
      case Some(f) =>
        if j.missing != [] then j
        else
          var r := Merged(j.result, f);
          Joining(r, [], r.Overdefined?)
  }

  function Join(pr: Program, cache: Cache, b: Node, sources: seq<Incoming>): (j: Joining)
    ensures j.stopped ==> j.missing == [] && j.result == Overdefined
  {
    if sources == [] then Joining(Undefined, [], false)
    else
      var s := sources[|sources| - 1];
      Joined(Join(pr, cache, b, sources[..|sources| - 1]), EdgeFact(pr, cache, s.op, s.from, b), Work(s.from, s.op))
  }

  lemma JoinNone(pr: Program, cache: Cache, b: Node)
    ensures Join(pr, cache, b, []) == Joining(Undefined, [], false)
  {
  }

  lemma JoinNext(pr: Program, cache: Cache, b: Node, sources: seq<Incoming>, n: nat)
    requires n < |sources|
    ensures Join(pr, cache, b, sources[..n + 1]) ==
            Joined(Join(pr, cache, b, sources[..n]), EdgeFact(pr, cache, sources[n].op, sources[n].from, b),
                   Work(sources[n].from, sources[n].op))
  {
    assert sources[..n + 1][..n] == sources[..n];
  }

  /** A join that was given up stays as it is. */
  lemma {:induction false} JoinStopped(pr: Program, cache: Cache, b: Node, sources: seq<Incoming>, n: nat)
    requires n <= |sources| && Join(pr, cache, b, sources[..n]).stopped
    ensures Join(pr, cache, b, sources) == Join(pr, cache, b, sources[..n])
    decreases |sources|
  {
    if n == |sources| {
      assert sources[..n] == sources;
    } else {
      assert sources[..|sources| - 1][..n] == sources[..n];
      JoinStopped(pr, cache, b, sources[..|sources| - 1], n);
    }
  }

  /** A value that comes into b unchanged comes over every edge. */
  function PredSources(v: Var, preds: seq<Node>): (s: seq<Incoming>)
    ensures |s| == |preds| && forall i {:trigger s[i]} :: 0 <= i < |s| ==> s[i] == Incoming(preds[i], Reg(v))
  {
    seq<Incoming>(|preds|, i requires 0 <= i < |preds| => Incoming(preds[i], Reg(v)))
  }

  // ----- Visits -----

  datatype Visit = Done(fact: LatticeVal) | Blocked(work: seq<Work>)

  function Outcome(j: Joining): Visit { if j.missing != [] then Blocked(j.missing) else Done(j.result) }

  /** An operator with a constant on the right, or a cast. */
  predicate InTable(i: Instr) { (i.Bin? && i.rhs.Const?) || i.Cast? }

  function TableFact(i: Instr, lhs: LatticeVal, m: nat): LatticeVal
    requires InTable(i)
  {
    if lhs.ConstantRange? && TableApplies(i, lhs.range, m) then Transfer(i, lhs.range, m) else Overdefined
  }

  function VisitBody(pr: Program, cache: Cache, v: Var, b: Node): Visit {
    match InstrOf(pr, Reg(v))
    case None => Done(Overdefined)
    case Some(i) =>
      if !InTable(i) then Done(Overdefined)
      else
        match BlockFact(cache, LhsOf(i), b)
        case None => Blocked([Work(b, LhsOf(i))])
        case Some(lhs) => Done(TableFact(i, lhs, pr.Mod(v)))
  }

  function VisitOf(pr: Program, cache: Cache, v: Var, b: Node): Visit {
    if b !in pr.blocks then Done(Overdefined)
    else if !pr.DefinedIn(v, b) then
      if b == pr.entry then Done(Overdefined) else Outcome(Join(pr, cache, b, PredSources(v, pr.blocks[b].preds)))
    else if pr.site[v].PhiSite? && pr.site[v].index < |pr.blocks[b].phis| then
      Outcome(Join(pr, cache, b, pr.blocks[b].phis[pr.site[v].index].incoming))
    else VisitBody(pr, cache, v, b)
  }

  lemma VisitNonLocal(pr: Program, cache: Cache, v: Var, b: Node)
    requires b in pr.blocks && !pr.DefinedIn(v, b)
    ensures VisitOf(pr, cache, v, b) ==
            if b == pr.entry then Done(Overdefined) else Outcome(Join(pr, cache, b, PredSources(v, pr.blocks[b].preds)))
  {
  }

  lemma VisitPhi(pr: Program, cache: Cache, v: Var, b: Node, k: nat)
    requires b in pr.blocks && v in pr.site && pr.site[v] == PhiSite(b, k) && k < |pr.blocks[b].phis|
    ensures VisitOf(pr, cache, v, b) == Outcome(Join(pr, cache, b, pr.blocks[b].phis[k].incoming))
  {
  }

  // ----- Turns of the solver -----

  datatype Solver = Solver(cache: Cache, od: set<Key>, stack: seq<Work>)

  predicate Open(cache: Cache, k: Key) { k !in cache || cache[k] == Undefined }

  /** One item: an entry that is settled is taken as it is; any other is overdefined while it is visited, and stays so
      if the visit asks for work. */
  function VisitItem(pr: Program, s: Solver, x: Operand, b: Node): Solver {
    if x.Const? || !Open(s.cache, Key(x.v, b)) then s
    else
      var k := Key(x.v, b);
      var marked := s.cache[k := Overdefined];
      match VisitOf(pr, marked, x.v, b)
      case Done(fact) => Solver(marked[k := fact], if fact.Overdefined? then s.od + {k} else s.od, s.stack)
      case Blocked(work) => Solver(marked, s.od, s.stack + work)
  }

  /** An item that asks for no work is done and leaves the stack. */
  function Turn(pr: Program, s: Solver): Solver {
    if s.stack == [] then s
    else
      var e := s.stack[|s.stack| - 1];
      var t := VisitItem(pr, s, e.x, e.b);
      if t.stack == s.stack then t.(stack := s.stack[..|s.stack| - 1]) else t
  }

  function Turns(pr: Program, s: Solver, n: nat): Solver
    decreases n
  {
    if n == 0 then s else Turn(pr, Turns(pr, s, n - 1))
  }

  predicate Settled(cache: Cache, k: Key) { k in cache && cache[k] != Undefined }

  lemma {:induction false} TurnsKeep(pr: Program, s: Solver, n: nat, k: Key)
    requires Settled(s.cache, k)
    ensures Settled(Turns(pr, s, n).cache, k) && Turns(pr, s, n).cache[k] == s.cache[k]
    decreases n
  {
    hide VisitOf;
    if n > 0 { TurnsKeep(pr, s, n - 1, k); }
  }

  lemma {:induction false} TurnFirst(pr: Program, s: Solver, n: nat)
    ensures Turns(pr, s, n + 1) == Turns(pr, Turn(pr, s), n)
    decreases n
  {
    hide Turn;
    if n > 0 { TurnFirst(pr, s, n - 1); }
  }

  lemma {:induction false} TurnsIdle(pr: Program, s: Solver, n: nat)
    requires s.stack == []
    ensures Turns(pr, s, n) == s
    decreases n
  {
    if n > 0 { TurnsIdle(pr, s, n - 1); }
  }

  // ----- Answers -----

  /** What a query about a block comes to: the settled entry, or what the first visit finds. A visit that has to ask for
      work leaves it at overdefined. */
  function Answer(pr: Program, cache: Cache, x: Operand, b: Node): LatticeVal {
    if x.Const? then Get(x.c, Pow2(x.width))
    else if Settled(cache, Key(x.v, b)) then cache[Key(x.v, b)]
    else
      match VisitOf(pr, cache[Key(x.v, b) := Overdefined], x.v, b)
      case Done(fact) => fact
      case Blocked(_) => Overdefined
  }

  function EdgeAnswer(pr: Program, cache: Cache, x: Operand, from: Node, dest: Node): LatticeVal {
    match EdgeFact(pr, cache, x, from, dest)
    case Some(fact) => fact
    case None =>
      if x.Const? then Overdefined
      else
        match EdgeFact(pr, cache[Key(x.v, from) := Answer(pr, cache, x, from)], x, from, dest)
        case Some(fact) => fact
        case None => Overdefined
  }

  /** However many turns it takes to empty the stack, the answer to the one item on it is what its first turn makes it. */
  lemma AnswerStands(pr: Program, s: Solver, t: Solver, x: Operand, b: Node)
    requires s.stack == [Work(b, x)] && t.stack == [] && exists n :: t == Turns(pr, s, n)
    ensures BlockFact(t.cache, x, b) == Some(Answer(pr, s.cache, x, b))
  {
    hide VisitOf, Turns;
    var n: nat :| t == Turns(pr, s, n);
    NoTurns(pr, s);
    TurnFirst(pr, s, n - 1);
    if x.Reg? {
      var u := Turn(pr, s);
      VisitWork(pr, s.cache[Key(x.v, b) := Overdefined], x.v, b);
      if u.stack == [] { TurnsIdle(pr, u, n - 1); } else { TurnsKeep(pr, u, n - 1, Key(x.v, b)); }
    }
  }

  lemma NoTurns(pr: Program, s: Solver)
    ensures Turns(pr, s, 0) == s
  {
  }

  /** A visit that asks for work asks for something. */
  lemma VisitWork(pr: Program, cache: Cache, v: Var, b: Node)
    ensures VisitOf(pr, cache, v, b).Blocked? ==> VisitOf(pr, cache, v, b).work != []
  {
    hide Join, EdgeFact;
  }

  /** A fact on an edge depends on nothing in the cache but the value at the block it leaves. */
  lemma SameEdgeFact(pr: Program, a: Cache, b: Cache, x: Operand, from: Node, dest: Node)
    requires x.Reg? && Key(x.v, from) in a
    ensures EdgeFact(pr, a, x, from, dest) == EdgeFact(pr, b[Key(x.v, from) := a[Key(x.v, from)]], x, from, dest)
  {
  }

  // ----- Comparisons -----

  /** Every member of the range satisfies the comparison, or none does. */
  ghost predicate AllOf(p: Pred, r: Range, c: int) {
    forall v {:trigger r.Contains(v)} :: InWidth(v, r.m) && r.Contains(v) ==> Compare(p, v, c, r.m)
  }

  ghost predicate NoneOf(p: Pred, r: Range, c: int) {
    forall v {:trigger r.Contains(v)} :: InWidth(v, r.m) && r.Contains(v) ==> !Compare(p, v, c, r.m)
  }

  /** The answer to a comparison is as definite as the range allows. */
  lemma PredicateComplete(p: Pred, r: Range, c: int)
    requires r.Valid() && r.m % 2 == 0 && InWidth(c, r.m) && !r.IsEmptySet()
    ensures PredicateOfRange(p, r, c) == True <==> AllOf(p, r, c)
    ensures PredicateOfRange(p, r, c) == False <==> NoneOf(p, r, c)
  {
    hide MakeConstantRange, Wrap, Inverse, Range.IsSingleElement, ContainsRange, Range.Contains, PredicateOfRange;
    var x := AnyMember(r);
    assert r.Contains(x);
    var yes := MakeConstantRange(p, c, r.m);
    ConstantRangeExact(p, c, r.m, x);
    InverseExact(yes, x);
    InverseWidth(yes);
    forall v | InWidth(v, r.m) && r.Contains(v)
      ensures PredicateOfRange(p, r, c) == True ==> Compare(p, v, c, r.m)
      ensures PredicateOfRange(p, r, c) == False ==> !Compare(p, v, c, r.m)
      ensures (yes.Contains(v) <==> Compare(p, v, c, r.m)) && (Inverse(yes).Contains(v) <==> !Compare(p, v, c, r.m))
    {
      PredicateRight(p, r, c, v);
      ConstantRangeExact(p, c, r.m, v);
      InverseExact(yes, v);
    }
    ContainsRangeExact(yes, r);
    ContainsRangeExact(Inverse(yes), r);
    DefiniteIf(p, r, c);
  }

  lemma DefiniteIf(p: Pred, r: Range, c: int)
    requires r.Valid() && r.m % 2 == 0 && InWidth(c, r.m)
    ensures ContainsRange(MakeConstantRange(p, c, r.m), r) || ContainsRange(Inverse(MakeConstantRange(p, c, r.m)), r) ==>
              PredicateOfRange(p, r, c) != Unknown
  {
    hide MakeConstantRange, Inverse, ContainsRange, Range.Contains, Range.IsSingleElement;
  }
}
