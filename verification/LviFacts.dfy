/** What it takes for a cached fact to be true at the end of a block, and why the solver's rules keep it true. */
module LviFacts {
  import opened Options
  import opened ConstantRange
  import CR = ConstantRange
  import opened Dominance
  import opened LviProgram
  import opened LviLattice

  datatype Key = Key(v: Var, b: Node)

  type Cache = map<Key, LatticeVal>

  ghost predicate EndsAt(pr: Program, r: seq<Frame>, b: Node) { IsRun(pr, r) && LastOrEmpty(r).block == b }

  function LastOrEmpty(r: seq<Frame>): Frame { if |r| > 0 then Last(r) else Frame(0, map[]) }

  /** x is defined at the end of b. */
  ghost predicate Live(pr: Program, x: Operand, b: Node) {
    b in pr.blocks && pr.Available(x, b, |pr.blocks[b].body|)
  }

  /** On every run that gets to the end of b, x has a value that the fact allows. */
  ghost predicate Holds(pr: Program, lv: LatticeVal, x: Operand, b: Node) {
    && lv.Fits(pr.OpMod(x))
    && forall r {:trigger EndsAt(pr, r, b)} :: EndsAt(pr, r, b) ==> lv.Allows(pr.Val(x, LastOrEmpty(r).env))
  }

  /** The same on every run that goes on from the end of from to dest. */
  ghost predicate HoldsOnEdge(pr: Program, lv: LatticeVal, x: Operand, from: Node, dest: Node) {
    && lv.Fits(pr.OpMod(x))
    && forall r {:trigger EndsAt(pr, r, from)} :: EndsAt(pr, r, from) && pr.Goes(from, LastOrEmpty(r).env, dest) ==>
         lv.Allows(pr.Val(x, LastOrEmpty(r).env))
  }

  /** Every entry is of the value's width and, where the value is still defined, true. */
  ghost predicate TrueCache(pr: Program, cache: Cache) {
    forall k {:trigger k in cache} :: k in cache ==>
      cache[k].Fits(pr.Mod(k.v)) && (Live(pr, Reg(k.v), k.b) ==> Holds(pr, cache[k], Reg(k.v), k.b))
  }

  lemma OverdefinedHolds(pr: Program, x: Operand, b: Node)
    ensures Holds(pr, Overdefined, x, b)
  {
  }

  lemma ConstHolds(pr: Program, c: int, w: nat, b: Node)
    requires Live(pr, Const(c, w), b)
    ensures Holds(pr, Get(c, Pow2(w)), Const(c, w), b)
  {
    assert Pow2(w) >= 2;
    GetExact(c, Pow2(w), c);
  }

  lemma HoldsIsEdge(pr: Program, lv: LatticeVal, x: Operand, from: Node, dest: Node)
    requires Holds(pr, lv, x, from)
    ensures HoldsOnEdge(pr, lv, x, from, dest)
  {
  }

  lemma LiveInRange(pr: Program, x: Operand, b: Node, r: seq<Frame>)
    requires pr.Valid() && Live(pr, x, b) && EndsAt(pr, r, b)
    ensures InWidth(pr.Val(x, LastOrEmpty(r).env), pr.OpMod(x)) && pr.OpMod(x) >= 2
  {
    RunInRange(pr, r);
    OperandInRange(pr, x, b, |pr.blocks[b].body|, Last(r).env);
    if x.Reg? { EvenMod(pr, x.v); } else { assert Pow2(x.width) >= 2; }
  }

  lemma ModAtLeast2(pr: Program, x: Operand, b: Node)
    requires pr.Valid() && Live(pr, x, b)
    ensures pr.OpMod(x) >= 2
  {
    if x.Reg? { EvenMod(pr, x.v); } else { assert Pow2(x.width) >= 2; }
  }

  /** The terminator's own fact. */
  lemma LocalHolds(pr: Program, v: Var, from: Node, dest: Node)
    requires pr.Valid() && Live(pr, Reg(v), from) && EdgeValueLocal(pr, v, from, dest).Some?
    ensures var lv := EdgeValueLocal(pr, v, from, dest).value;
            forall r {:trigger EndsAt(pr, r, from)} :: EndsAt(pr, r, from) && pr.Goes(from, LastOrEmpty(r).env, dest) ==>
              lv.Fits(pr.Mod(v)) && lv.Allows(pr.Val(Reg(v), LastOrEmpty(r).env))
  {
    forall r | EndsAt(pr, r, from) && pr.Goes(from, LastOrEmpty(r).env, dest)
      ensures EdgeValueLocal(pr, v, from, dest).value.Fits(pr.Mod(v))
      ensures EdgeValueLocal(pr, v, from, dest).value.Allows(pr.Val(Reg(v), LastOrEmpty(r).env))
    {
      EdgeFactTrue(pr, r, v, dest);
    }
  }

  lemma LocalOnEdge(pr: Program, v: Var, from: Node, dest: Node)
    requires pr.Valid() && Live(pr, Reg(v), from) && EdgeValueLocal(pr, v, from, dest).Some?
    ensures HoldsOnEdge(pr, EdgeValueLocal(pr, v, from, dest).value, Reg(v), from, dest)
    ensures EdgeValueLocal(pr, v, from, dest).value.Fits(pr.Mod(v)) && pr.Mod(v) > 0
  {
    EdgeFits(pr, v, from, dest);
    LocalHolds(pr, v, from, dest);
  }

  /** Two facts about the same value on the same edge. */
  lemma IntersectOnEdge(pr: Program, a: Range, b: Range, x: Operand, from: Node, dest: Node)
    requires pr.Valid() && Live(pr, x, from)
    requires HoldsOnEdge(pr, ConstantRange(a), x, from, dest) && Holds(pr, ConstantRange(b), x, from)
    ensures a.Valid() && b.Valid() && a.m == b.m
    ensures HoldsOnEdge(pr, GetRange(IntersectWith(a, b)), x, from, dest)
  {
    IntersectCovers(a, b, 0);
    forall r | EndsAt(pr, r, from) && pr.Goes(from, LastOrEmpty(r).env, dest)
      ensures GetRange(IntersectWith(a, b)).Allows(pr.Val(x, LastOrEmpty(r).env))
    {
      LiveInRange(pr, x, from, r);
      IntersectCovers(a, b, pr.Val(x, LastOrEmpty(r).env));
    }
  }

  // ----- Joining over predecessors -----

  /** The block before the last one of a run. */
  function Before(r: seq<Frame>): Frame { if |r| > 1 then r[|r| - 2] else Frame(0, map[]) }

  /** The fact allows the value on every run that comes from one of these predecessors. */
  ghost predicate CoversFrom(pr: Program, lv: LatticeVal, v: Var, b: Node, ps: set<Node>) {
    && lv.Fits(pr.Mod(v))
    && forall r {:trigger EndsAt(pr, r, b)} :: EndsAt(pr, r, b) && |r| > 1 && Before(r).block in ps ==>
         lv.Allows(pr.Val(Reg(v), LastOrEmpty(r).env))
  }

  lemma RunSplits(pr: Program, r: seq<Frame>, b: Node) returns (any: map<Var, int>)
    requires EndsAt(pr, r, b) && |r| > 1
    ensures EndsAt(pr, r[..|r| - 1], Before(r).block) && LastOrEmpty(r[..|r| - 1]) == Before(r)
    ensures StepsWith(pr, Before(r), LastOrEmpty(r), any)
    ensures pr.Goes(Before(r).block, Before(r).env, b) && pr.Cfg().Edge(Before(r).block, b)
  {
    RunPrefix(pr, r);
    any :| StepsWith(pr, Last(r[..|r| - 1]), Last(r), any);
    GoesIsEdge(pr, Before(r).block, Before(r).env, b);
  }

  /** A run that does not start in the block has come from one of its predecessors. */
  lemma RunHasPred(pr: Program, r: seq<Frame>, b: Node)
    requires pr.Valid() && EndsAt(pr, r, b) && b != pr.entry
    ensures |r| > 1 && b in pr.blocks && Before(r).block in pr.blocks[b].preds
  {
    if |r| > 1 {
      var any := RunSplits(pr, r, b);
      assert pr.BlockOK(b);
    }
  }

  lemma PredsDone(pr: Program, lv: LatticeVal, v: Var, b: Node, ps: set<Node>)
    requires pr.Valid() && b in pr.blocks && b != pr.entry && CoversFrom(pr, lv, v, b, ps)
    requires forall p {:trigger p in pr.blocks[b].preds} :: p in pr.blocks[b].preds ==> p in ps
    ensures Holds(pr, lv, Reg(v), b)
  {
    forall r | EndsAt(pr, r, b) ensures lv.Allows(pr.Val(Reg(v), LastOrEmpty(r).env)) {
      RunHasPred(pr, r, b);
    }
  }

  lemma CoversNothing(pr: Program, v: Var, b: Node)
    ensures CoversFrom(pr, Undefined, v, b, {})
  {
  }

  /** One more predecessor of a block that does not define v. */
  lemma NonLocalStep(pr: Program, lv: LatticeVal, er: LatticeVal, v: Var, b: Node, ps: set<Node>, p: Node)
    requires pr.Valid() && v in pr.widths && b in pr.blocks && !pr.DefinedIn(v, b)
    requires CoversFrom(pr, lv, v, b, ps) && Live(pr, Reg(v), p) && HoldsOnEdge(pr, er, Reg(v), p, b)
    ensures CoversFrom(pr, lv.MergeIn(er), v, b, ps + {p})
  {
    ModAtLeast2(pr, Reg(v), p);
    MergeCovers(lv, er, pr.Mod(v), 0);
    forall r | EndsAt(pr, r, b) && |r| > 1 && Before(r).block in ps + {p}
      ensures lv.MergeIn(er).Allows(pr.Val(Reg(v), LastOrEmpty(r).env))
    {
      NonLocalRun(pr, r, lv, er, v, b, p);
    }
  }

  lemma NonLocalRun(pr: Program, r: seq<Frame>, lv: LatticeVal, er: LatticeVal, v: Var, b: Node, p: Node)
    requires pr.Valid() && v in pr.widths && b in pr.blocks && !pr.DefinedIn(v, b)
    requires EndsAt(pr, r, b) && |r| > 1 && Live(pr, Reg(v), p)
    requires lv.Fits(pr.Mod(v)) && HoldsOnEdge(pr, er, Reg(v), p, b)
    requires Before(r).block == p || lv.Allows(pr.Val(Reg(v), LastOrEmpty(r).env))
    ensures lv.Fits(pr.Mod(v)) && er.Fits(pr.Mod(v))
    ensures lv.MergeIn(er).Allows(pr.Val(Reg(v), LastOrEmpty(r).env))
  {
    hide Program.Valid, LatticeVal.MergeIn, LatticeVal.Allows, Program.BodyEnv, Program.PhiEnv;
    var any := RunSplits(pr, r, b);
    Unchanged(pr, b, Before(r).block, Before(r).env, any, v);
    var x := pr.Val(Reg(v), LastOrEmpty(r).env);
    RunValue(pr, r, v, b);
    if Before(r).block == p {
      assert EndsAt(pr, r[..|r| - 1], p);
    }
    MergeCovers(lv, er, pr.Mod(v), x);
  }

  lemma RunValue(pr: Program, r: seq<Frame>, v: Var, b: Node)
    requires pr.Valid() && v in pr.widths && EndsAt(pr, r, b)
    ensures InWidth(pr.Val(Reg(v), LastOrEmpty(r).env), pr.Mod(v)) && pr.Mod(v) >= 2
  {
    RunInRange(pr, r);
    EvenMod(pr, v);
  }

  /** A value that is not defined in a block, and lives there, lives at the end of each predecessor. */
  lemma LivesInPred(pr: Program, v: Var, b: Node, p: Node)
    requires pr.Valid() && Live(pr, Reg(v), b) && !pr.DefinedIn(v, b) && pr.Cfg().Edge(p, b)
    ensures Live(pr, Reg(v), p)
  {
    assert p in pr.Cfg().succs;
    match pr.site[v]
    case Argument =>
    case PhiSite(a, _) => DominatesPred(pr.Cfg(), a, p, b);
    case BodySite(a, k) =>
      DominatesPred(pr.Cfg(), a, p, b);
      assert pr.SiteOK(v);
  }

  /** In the entry block only arguments live without being defined there. */
  lemma EntryLiveIn(pr: Program, v: Var)
    requires pr.Valid() && Live(pr, Reg(v), pr.entry) && !pr.DefinedIn(v, pr.entry)
    ensures pr.site[v].Argument?
  {
    assert PathTo(pr.Cfg(), [pr.entry], pr.entry);
  }

  // ----- Joining over the entries of a phi -----

  function FromsUpTo(inc: seq<Incoming>, n: nat): set<Node>
    requires n <= |inc|
  {
    set j | 0 <= j < n :: inc[j].from
  }

  lemma PhiStep(pr: Program, lv: LatticeVal, er: LatticeVal, b: Node, k: nat, n: nat)
    requires pr.Valid() && b in pr.blocks && k < |pr.blocks[b].phis|
    requires var phi := pr.blocks[b].phis[k];
             && n < |phi.incoming|
             && CoversFrom(pr, lv, phi.v, b, FromsUpTo(phi.incoming, n))
             && HoldsOnEdge(pr, er, phi.incoming[n].op, phi.incoming[n].from, b)
    ensures var phi := pr.blocks[b].phis[k];
            && lv.Fits(pr.Mod(phi.v)) && er.Fits(pr.Mod(phi.v))
            && CoversFrom(pr, lv.MergeIn(er), phi.v, b, FromsUpTo(phi.incoming, n + 1))
  {
    var phi := pr.blocks[b].phis[k];
    var p := phi.incoming[n].from;
    PhiEntry(pr, b, k, n);
    assert FromsUpTo(phi.incoming, n + 1) == FromsUpTo(phi.incoming, n) + {p};
    MergeCovers(lv, er, pr.Mod(phi.v), 0);
    forall r | EndsAt(pr, r, b) && |r| > 1 && Before(r).block in FromsUpTo(phi.incoming, n + 1)
      ensures lv.MergeIn(er).Allows(pr.Val(Reg(phi.v), LastOrEmpty(r).env))
    {
      PhiRun(pr, r, lv, er, b, k, n);
    }
  }

  lemma PhiEntry(pr: Program, b: Node, k: nat, n: nat)
    requires pr.Valid() && b in pr.blocks && k < |pr.blocks[b].phis| && n < |pr.blocks[b].phis[k].incoming|
    ensures var phi := pr.blocks[b].phis[k]; var inc := phi.incoming[n];
            && phi.v in pr.widths && pr.Mod(phi.v) >= 2 && pr.OpMod(inc.op) == pr.Mod(phi.v)
            && Live(pr, inc.op, inc.from) && pr.Cfg().Edge(inc.from, b)
            && pr.PickIncoming(phi.incoming, inc.from) == inc.op
  {
    var phi := pr.blocks[b].phis[k];
    assert pr.BlockOK(b) && pr.PhiOK(b, k);
    assert phi.incoming[n].from in pr.blocks;
    EvenMod(pr, phi.v);
    PhiOperand(pr, b, k, phi.incoming[n].from);
  }

  lemma PhiRun(pr: Program, r: seq<Frame>, lv: LatticeVal, er: LatticeVal, b: Node, k: nat, n: nat)
    requires pr.Valid() && b in pr.blocks && k < |pr.blocks[b].phis| && n < |pr.blocks[b].phis[k].incoming|
    requires EndsAt(pr, r, b) && |r| > 1
    requires var phi := pr.blocks[b].phis[k];
             && lv.Fits(pr.Mod(phi.v)) && er.Fits(pr.Mod(phi.v))
             && HoldsOnEdge(pr, er, phi.incoming[n].op, phi.incoming[n].from, b)
             && (Before(r).block == phi.incoming[n].from || lv.Allows(pr.Val(Reg(phi.v), LastOrEmpty(r).env)))
    ensures lv.MergeIn(er).Allows(pr.Val(Reg(pr.blocks[b].phis[k].v), LastOrEmpty(r).env))
  {
    hide Program.Valid, LatticeVal.MergeIn, LatticeVal.Allows, Program.BodyEnv, Program.PhiEnv, Program.PickIncoming;
    var phi := pr.blocks[b].phis[k];
    var any := RunSplits(pr, r, b);
    PhiEntry(pr, b, k, n);
    PhiDefines(pr, b, Before(r).block, Before(r).env, any, k);
    RunValue(pr, r, phi.v, b);
    if Before(r).block == phi.incoming[n].from {
      assert EndsAt(pr, r[..|r| - 1], phi.incoming[n].from);
    }
    MergeCovers(lv, er, pr.Mod(phi.v), pr.Val(Reg(phi.v), LastOrEmpty(r).env));
  }

  lemma PhiCoversPreds(pr: Program, b: Node, k: nat)
    requires pr.Valid() && b in pr.blocks && k < |pr.blocks[b].phis|
    ensures var inc := pr.blocks[b].phis[k].incoming;
            forall p {:trigger p in pr.blocks[b].preds} :: p in pr.blocks[b].preds ==> p in FromsUpTo(inc, |inc|)
    ensures b != pr.entry && pr.blocks[b].phis[k].v in pr.widths
  {
    assert pr.BlockOK(b) && pr.PhiOK(b, k);
    var inc := pr.blocks[b].phis[k].incoming;
    forall p | p in pr.blocks[b].preds ensures p in FromsUpTo(inc, |inc|) {
      var j :| 0 <= j < |inc| && inc[j].from == p;
    }
  }

  // ----- Operators -----

  /** The opcode table: the range of a result from the range of the left operand and, for binary operators, of the
      constant right operand. None where the result is given up. */
  function OpRange(i: Instr, lhs: Range, rhs: Range, m: nat): Option<Range>
    requires lhs.Valid() && rhs.Valid() && m >= 2
    requires i.Bin? ==> lhs.m == rhs.m
    requires i.Cast? && i.cast == Trunc ==> m <= lhs.m
  {
    match i
    case Bin(Add, _, _) => Some(CR.Add(lhs, rhs))
    case Bin(Sub, _, _) => Some(CR.Sub(lhs, rhs))
    case Bin(Mul, _, _) => Some(CR.Multiply(lhs, rhs))
    case Bin(UDiv, _, _) => Some(CR.UDiv(lhs, rhs))
    case Bin(Shl, _, _) => Some(CR.Shl(lhs, rhs))
    case Bin(LShr, _, _) => Some(CR.LShr(lhs, rhs))
    case Bin(And, _, _) => Some(CR.BinaryAnd(lhs, rhs))
    case Bin(Or, _, _) => Some(CR.BinaryOr(lhs, rhs))
    case Cast(Trunc, _) => Some(CR.Truncate(lhs, m))
    case Cast(SExt, _) => Some(CR.SignExtend(lhs, m))
    case Cast(ZExt, _) => Some(CR.ZeroExtend(lhs, m))
    case Cast(BitCast, _) => Some(lhs)
    case _ => None
  }

  /** What the arithmetic of a binary operator yields for two values. */
  function BinValue(op: BinOp, x: int, y: int, m: nat): int
    requires m > 0 && x >= 0 && y >= 0
  {
    match op
    case Add => Wrap(x + y, m)
    case Sub => Wrap(x - y, m)
    case Mul => Wrap(x * y, m)
    case UDiv => if y == 0 then 0 else Wrap(x / y, m)
    case Shl => Wrap(x * Pow2(y), m)
    case LShr => Wrap(x / Pow2(y), m)
    case And => Wrap(BitAnd(x, y), m)
    case Or => Wrap(BitOr(x, y), m)
    case OtherBin => 0
  }

  /** r is a range of width m that, unless it is empty and so says nothing, contains v. */
  predicate Covers(r: Range, m: nat, v: int) { r.Valid() && r.m == m && (r.IsEmptySet() || r.Contains(v)) }

  lemma WrapSame(x: int, m: nat)
    requires InWidth(x, m)
    ensures Wrap(x, m) == x
  {
    WrapSmall(x, m);
  }

  lemma BinCovers(op: BinOp, lhs: Range, rhs: Range, x: int, y: int, width: nat)
    requires lhs.Valid() && rhs.Valid() && lhs.m == rhs.m == Pow2(width) && lhs.m >= 2
    requires InWidth(x, lhs.m) && InWidth(y, lhs.m) && lhs.Contains(x) && rhs.Contains(y)
    ensures var m := lhs.m; var v := BinValue(op, x, y, m);
            match op
            case Add => Covers(CR.Add(lhs, rhs), m, v)
            case Sub => Covers(CR.Sub(lhs, rhs), m, v)
            case Mul => Covers(CR.Multiply(lhs, rhs), m, v)
            case UDiv => CR.UDiv(lhs, rhs).Valid() && CR.UDiv(lhs, rhs).m == m && (y != 0 ==> CR.UDiv(lhs, rhs).Contains(v))
            case Shl => Covers(CR.Shl(lhs, rhs), m, v)
            case LShr => Covers(CR.LShr(lhs, rhs), m, v)
            case And => Covers(CR.BinaryAnd(lhs, rhs), m, v)
            case Or => Covers(CR.BinaryOr(lhs, rhs), m, v)
            case OtherBin => true
  {
    hide CR.Add, CR.Sub, CR.Multiply, CR.Shl, CR.LShr, CR.BinaryAnd, CR.BinaryOr, Wrap, Pow2, Range.Contains, Range.Valid;
    match op
    case Add => AddCovers(lhs, rhs, x, y);
    case Sub => SubCovers(lhs, rhs, x, y);
    case Mul => MultiplyCovers(lhs, rhs, x, y);
    case UDiv => UDivAny(lhs, rhs, x, y);
    case Shl => ShlCovers(lhs, rhs, x, y, width);
    case LShr =>
      LShrCovers(lhs, rhs, x, y);
      DivSmaller(x, Pow2(y));
      WrapSame(x / Pow2(y), lhs.m);
    case And =>
      BinaryAndCovers(lhs, rhs, x, y);
      WrapSame(BitAnd(x, y), lhs.m);
    case Or =>
      BinaryOrCovers(lhs, rhs, x, y);
      BitOrWidth(x, y, width);
      WrapSame(BitOr(x, y), lhs.m);
    case OtherBin =>
  }

  lemma UDivAny(lhs: Range, rhs: Range, x: int, y: int)
    requires lhs.Valid() && rhs.Valid() && lhs.m == rhs.m
    requires InWidth(x, lhs.m) && InWidth(y, lhs.m) && lhs.Contains(x) && rhs.Contains(y)
    ensures CR.UDiv(lhs, rhs).Valid() && CR.UDiv(lhs, rhs).m == lhs.m
    ensures y != 0 ==> CR.UDiv(lhs, rhs).Contains(Wrap(x / y, lhs.m))
  {
    if y != 0 {
      UDivCovers(lhs, rhs, x, y);
      DivSmaller(x, y);
      WrapSame(x / y, lhs.m);
    } else {
      UDivFits(lhs, rhs);
    }
  }

  lemma UDivFits(lhs: Range, rhs: Range)
    requires lhs.Valid() && rhs.Valid() && lhs.m == rhs.m && !lhs.IsEmptySet()
    ensures CR.UDiv(lhs, rhs).Valid() && CR.UDiv(lhs, rhs).m == lhs.m
  {
    if !rhs.IsEmptySet() && rhs.GetUnsignedMax() != 0 {
      var l := AnyMember(lhs);
      UnsignedBounds(lhs, l);
      BoundsAttained(rhs);
      UDivCovers(lhs, rhs, l, rhs.GetUnsignedMax());
    }
  }

  lemma {:induction false} Pow2Less(j: nat, k: nat)
    requires j < k
    ensures 2 * Pow2(j) <= Pow2(k) && Pow2(k) % 2 == 0
  {
    Pow2Mono(j + 1, k);
  }

  function CastValue(op: CastOp, x: int, from: nat, m: nat): int
    requires m > 0
  {
    match op
    case Trunc => Wrap(x, m)
    case SExt => Wrap(SignExtendValue(x, from, m), m)
    case ZExt => Wrap(x, m)
    case BitCast => Wrap(x, m)
    case OtherCast => 0
  }

  lemma CastCovers(op: CastOp, r: Range, x: int, w: nat, w2: nat)
    requires w > 0 && w2 > 0 && r.Valid() && r.m == Pow2(w) && InWidth(x, r.m) && r.Contains(x)
    requires (op == Trunc ==> w2 < w) && (op == SExt || op == ZExt ==> w < w2) && (op == BitCast ==> w == w2)
    ensures var m := Pow2(w2); var v := CastValue(op, x, r.m, m);
            match op
            case Trunc => 2 <= m <= r.m && Covers(CR.Truncate(r, m), m, v)
            case SExt => Covers(CR.SignExtend(r, m), m, v)
            case ZExt => Covers(CR.ZeroExtend(r, m), m, v)
            case BitCast => Covers(r, m, v)
            case OtherCast => true
  {
    hide CR.Truncate, CR.SignExtend, CR.ZeroExtend, Wrap, Range.Contains, Range.Valid;
    var m := Pow2(w2);
    assert m >= 2;
    match op
    case Trunc =>
      Pow2Split(w, w2);
      Pow2Less(w2, w);
      TruncateCovers(r, m, Pow2(w - w2), x);
    case SExt =>
      Pow2Less(w, w2);
      Pow2Less(0, w);
      SignExtendCovers(r, m, x);
      SignWidth(r, m);
      WrapSame(SignExtendValue(x, r.m, m), m);
    case ZExt =>
      Pow2Less(w, w2);
      ZeroExtendCovers(r, m, x);
      ZeroWidth(r, m);
      WrapSame(x, m);
    case BitCast => WrapSame(x, m);
    case OtherCast =>
  }

  lemma SignWidth(r: Range, m: nat)
    ensures CR.SignExtend(r, m).m == m
  {
  }

  lemma ZeroWidth(r: Range, m: nat)
    ensures CR.ZeroExtend(r, m).m == m
  {
  }

  // ----- A whole definition -----

  function LhsOf(i: Instr): Operand
    requires i.Bin? || i.Cast?
  {
    if i.Bin? then i.lhs else i.src
  }

  /** The constant on the right of a binary operator as a range; a cast has none. */
  function RhsRange(i: Instr, m: nat): (r: Range)
    requires m >= 2 && (i.Bin? && i.rhs.Const? ==> InWidth(i.rhs.c, m))
    ensures r.Valid() && (i.Bin? && i.rhs.Const? ==> r.m == m)
  {
    if i.Bin? && i.rhs.Const? then (SingleContains(i.rhs.c, m); Single(i.rhs.c, m)) else FullSet(2)
  }

  /** Can the table be applied? True in every valid program. */
  predicate TableApplies(i: Instr, lr: Range, m: nat) {
    && lr.Valid() && m >= 2
    && (i.Bin? ==> i.rhs.Const? && InWidth(i.rhs.c, lr.m))
    && (i.Cast? && i.cast == Trunc ==> m <= lr.m)
  }

  /** The fact about a result, given a range for the left operand. */
  function Transfer(i: Instr, lr: Range, m: nat): LatticeVal
    requires (i.Bin? || i.Cast?) && TableApplies(i, lr, m)
  {
    match OpRange(i, lr, RhsRange(i, lr.m), m)
    case Some(r) => GetRange(r)
    case None => Overdefined
  }

  /** The definition of a body value: its instruction, and what validity says of it. */
  lemma BodyDef(pr: Program, v: Var, b: Node)
    requires pr.Valid() && v in pr.widths && pr.site[v].BodySite? && pr.site[v].block == b && b in pr.blocks
    ensures InstrOf(pr, Reg(v)).Some?
    ensures pr.site[v].index < |pr.blocks[b].body| && InstrOf(pr, Reg(v)).value == pr.blocks[b].body[pr.site[v].index].i
    ensures pr.DefOK(b, pr.site[v].index) && pr.blocks[b].body[pr.site[v].index].v == v
  {
    assert pr.SiteOK(v);
    assert pr.BlockOK(b);
    assert pr.blocks[b].body[pr.site[v].index].v == v;
  }

  /** The left operand is defined at the end of the block too. */
  lemma LhsLive(pr: Program, v: Var, b: Node)
    requires pr.Valid() && v in pr.widths && pr.site[v].BodySite? && pr.site[v].block == b && b in pr.blocks
    requires InstrOf(pr, Reg(v)).Some? && (InstrOf(pr, Reg(v)).value.Bin? || InstrOf(pr, Reg(v)).value.Cast?)
    ensures Live(pr, LhsOf(InstrOf(pr, Reg(v)).value), b) && Live(pr, Reg(v), b)
  {
    BodyDef(pr, v, b);
    DominatesSelf(pr.Cfg(), b);
    ReadAvailable(pr, Reg(v), LhsOf(InstrOf(pr, Reg(v)).value), b);
  }

  lemma TableFits(pr: Program, v: Var, b: Node, lr: Range)
    requires pr.Valid() && v in pr.widths && pr.site[v].BodySite? && pr.site[v].block == b && b in pr.blocks
    requires InstrOf(pr, Reg(v)).Some? && (InstrOf(pr, Reg(v)).value.Bin? || InstrOf(pr, Reg(v)).value.Cast?)
    requires InstrOf(pr, Reg(v)).value.Bin? ==> InstrOf(pr, Reg(v)).value.rhs.Const?
    requires lr.Valid() && lr.m == pr.OpMod(LhsOf(InstrOf(pr, Reg(v)).value))
    ensures TableApplies(InstrOf(pr, Reg(v)).value, lr, pr.Mod(v))
  {
    var i := InstrOf(pr, Reg(v)).value;
    BodyDef(pr, v, b);
    EvenMod(pr, v);
    if i.Cast? && i.cast == Trunc { Pow2Mono(pr.widths[v], pr.widths[i.src.v]); }
  }

  /** The result is given up, or allows what the instruction computes from x. */
  ghost predicate ResultOK(t: LatticeVal, i: Instr, x: int, from: nat, m: nat) {
    && m > 0 && t.Fits(m)
    && (t.Overdefined? || (i.Bin? && i.rhs.Const? && BinAllowed(t, i, x, m)) || (i.Cast? && CastAllowed(t, i, x, from, m)))
  }

  ghost predicate BinAllowed(t: LatticeVal, i: Instr, x: int, m: nat)
    requires i.Bin? && i.rhs.Const? && m > 0
  {
    && x >= 0 && i.rhs.c >= 0 && i.op != OtherBin && !(i.op == BinOp.UDiv && i.rhs.c == 0)
    && t.Allows(BinValue(i.op, x, i.rhs.c, m))
  }

  ghost predicate CastAllowed(t: LatticeVal, i: Instr, x: int, from: nat, m: nat)
    requires i.Cast? && m > 0
  {
    i.cast != OtherCast && t.Allows(CastValue(i.cast, x, from, m))
  }

  lemma BinTable(i: Instr, lr: Range, x: int, width: nat)
    requires i.Bin? && lr.Valid() && lr.m == Pow2(width) && TableApplies(i, lr, lr.m)
    requires InWidth(x, lr.m) && lr.Contains(x)
    ensures ResultOK(Transfer(i, lr, lr.m), i, x, lr.m, lr.m)
  {
    hide CR.Add, CR.Sub, CR.Multiply, CR.Shl, CR.LShr, CR.BinaryAnd, CR.BinaryOr, CR.UDiv, Wrap, Pow2, Single, BinValue;
    SingleContains(i.rhs.c, lr.m);
    SingleWidth(i.rhs.c, lr.m);
    BinCovers(i.op, lr, Single(i.rhs.c, lr.m), x, i.rhs.c, width);
    if i.op == BinOp.UDiv && i.rhs.c == 0 { UDivByZero(lr); }
  }

  lemma UDivByZero(lr: Range)
    requires lr.Valid()
    ensures Single(0, lr.m).Valid() && CR.UDiv(lr, Single(0, lr.m)).IsEmptySet()
  {
    SingleContains(0, lr.m);
    WrapSmall(1, lr.m);
    WrapSmall(0, lr.m);
  }

  lemma CastTable(i: Instr, lr: Range, x: int, w: nat, w2: nat)
    requires i.Cast? && lr.Valid() && lr.m == Pow2(w) && TableApplies(i, lr, Pow2(w2)) && w > 0 && w2 > 0
    requires InWidth(x, lr.m) && lr.Contains(x)
    requires (i.cast == Trunc ==> w2 < w) && (i.cast == SExt || i.cast == ZExt ==> w < w2) && (i.cast == BitCast ==> w == w2)
    ensures ResultOK(Transfer(i, lr, Pow2(w2)), i, x, lr.m, Pow2(w2))
  {
    hide CR.Truncate, CR.SignExtend, CR.ZeroExtend, Wrap, CastValue, Pow2, Range.Contains, CR.Add, CR.Sub, CR.Multiply, CR.UDiv, CR.Shl, CR.LShr, CR.BinaryAnd, CR.BinaryOr, RhsRange;
    CastCovers(i.cast, lr, x, w, w2);
  }

  /** What the table gives for a body value and one value of its left operand. */
  lemma ResultCovers(pr: Program, v: Var, b: Node, lr: Range, x: int)
    requires pr.Valid() && v in pr.widths && pr.site[v].BodySite? && pr.site[v].block == b && b in pr.blocks
    requires InstrOf(pr, Reg(v)).Some? && (InstrOf(pr, Reg(v)).value.Bin? || InstrOf(pr, Reg(v)).value.Cast?)
    requires TableApplies(InstrOf(pr, Reg(v)).value, lr, pr.Mod(v))
    requires lr.m == pr.OpMod(LhsOf(InstrOf(pr, Reg(v)).value)) && InWidth(x, lr.m) && lr.Contains(x)
    ensures var i := InstrOf(pr, Reg(v)).value;
            ResultOK(Transfer(i, lr, pr.Mod(v)), i, x, lr.m, pr.Mod(v))
  {
    hide Transfer, ResultOK;
    var i := InstrOf(pr, Reg(v)).value;
    BodyDef(pr, v, b);
    if i.Bin? {
      BinTable(i, lr, x, pr.widths[v]);
    } else {
      assert i.src.v in pr.widths;
      CastTable(i, lr, x, pr.widths[i.src.v], pr.widths[v]);
    }
  }

  /** An equation and an allowing result: the value itself is allowed. */
  lemma ResultAllows(pr: Program, v: Var, i: Instr, t: LatticeVal, env: Env, a: int)
    requires (i.Bin? || i.Cast?) && EquationWith(pr, i, v, env, a)
    requires ResultOK(t, i, pr.Val(LhsOf(i), env), pr.OpMod(LhsOf(i)), pr.Mod(v))
    ensures t.Allows(pr.Val(Reg(v), env))
  {
  }

  lemma TransferRun(pr: Program, v: Var, b: Node, lr: Range, r: seq<Frame>)
    requires pr.Valid() && v in pr.widths && pr.site[v].BodySite? && pr.site[v].block == b && b in pr.blocks
    requires InstrOf(pr, Reg(v)).Some? && (InstrOf(pr, Reg(v)).value.Bin? || InstrOf(pr, Reg(v)).value.Cast?)
    requires TableApplies(InstrOf(pr, Reg(v)).value, lr, pr.Mod(v))
    requires Holds(pr, ConstantRange(lr), LhsOf(InstrOf(pr, Reg(v)).value), b) && EndsAt(pr, r, b)
    ensures Transfer(InstrOf(pr, Reg(v)).value, lr, pr.Mod(v)).Allows(pr.Val(Reg(v), LastOrEmpty(r).env))
  {
    hide Transfer, ResultOK, Program.Valid, TableApplies, EquationWith, Program.Available, InstrOf;
    var i := InstrOf(pr, Reg(v)).value;
    var x := pr.Val(LhsOf(i), LastOrEmpty(r).env);
    LhsLive(pr, v, b);
    LiveInRange(pr, LhsOf(i), b, r);
    ResultCovers(pr, v, b, lr, x);
    var a := OperandEquation(pr, r, Reg(v));
    ResultAllows(pr, v, i, Transfer(i, lr, pr.Mod(v)), LastOrEmpty(r).env, a);
  }

  lemma TransferFits(pr: Program, v: Var, b: Node, lr: Range)
    requires pr.Valid() && v in pr.widths && pr.site[v].BodySite? && pr.site[v].block == b && b in pr.blocks
    requires InstrOf(pr, Reg(v)).Some? && (InstrOf(pr, Reg(v)).value.Bin? || InstrOf(pr, Reg(v)).value.Cast?)
    requires TableApplies(InstrOf(pr, Reg(v)).value, lr, pr.Mod(v)) && !lr.IsEmptySet()
    requires lr.m == pr.OpMod(LhsOf(InstrOf(pr, Reg(v)).value))
    ensures Transfer(InstrOf(pr, Reg(v)).value, lr, pr.Mod(v)).Fits(pr.Mod(v))
  {
    hide Transfer, Program.Valid, InstrOf;
    var x := AnyMember(lr);
    ResultCovers(pr, v, b, lr, x);
  }

  /** The table's result is true at the end of the block. */
  lemma TransferTrue(pr: Program, v: Var, b: Node, lr: Range)
    requires pr.Valid() && v in pr.widths && pr.site[v].BodySite? && pr.site[v].block == b && b in pr.blocks
    requires InstrOf(pr, Reg(v)).Some? && (InstrOf(pr, Reg(v)).value.Bin? || InstrOf(pr, Reg(v)).value.Cast?)
    requires InstrOf(pr, Reg(v)).value.Bin? ==> InstrOf(pr, Reg(v)).value.rhs.Const?
    requires Holds(pr, ConstantRange(lr), LhsOf(InstrOf(pr, Reg(v)).value), b)
    ensures TableApplies(InstrOf(pr, Reg(v)).value, lr, pr.Mod(v))
    ensures Holds(pr, Transfer(InstrOf(pr, Reg(v)).value, lr, pr.Mod(v)), Reg(v), b)
  {
    hide Transfer, Program.Valid, TableApplies, InstrOf, EndsAt;
    var i := InstrOf(pr, Reg(v)).value;
    TableFits(pr, v, b, lr);
    TransferFits(pr, v, b, lr);
    forall r {:trigger EndsAt(pr, r, b)} | EndsAt(pr, r, b)
      ensures Transfer(i, lr, pr.Mod(v)).Allows(pr.Val(Reg(v), LastOrEmpty(r).env))
    {
      TransferRun(pr, v, b, lr, r);
    }
  }
}
