/** From the terminators to the answers: what is said about an edge is exact, and an answer is no vaguer than the facts it
    is made of. */
module LviAnswers {
  import opened Options
  import opened ConstantRange
  import CR = ConstantRange
  import opened RangePrecision
  import opened Dominance
  import opened LviProgram
  import opened LviLattice
  import opened LviFacts
  import opened LviVisits
  import opened LviPrecision

  // ----- What a branch says -----

  /** v is the condition, or it, or it plus a constant, is what the condition compares. */
  predicate Tells(pr: Program, v: Var, c: Operand) {
    c == Reg(v) ||
    match InstrOf(pr, c)
    case Some(ICmp(pred, left, Const(_, _))) => left == Reg(v) || (pred == ULT && NegOffset(pr, v, left).Some?)
    case _ => false
  }

  /** The condition and the sum it compares hold what their instructions compute. */
  ghost predicate Consistent(pr: Program, v: Var, c: Operand, env: Env) {
    match InstrOf(pr, c)
    case Some(ICmp(pred, left, Const(k, _))) =>
      && pr.Val(c, env) == (if Compare(pred, pr.Val(left, env), k, pr.OpMod(left)) then 1 else 0)
      && (NegOffset(pr, v, left).Some? ==>
            && pr.OpMod(left) == pr.Mod(v)
            && pr.Val(left, env) == Wrap(pr.Val(Reg(v), env) + NegOffset(pr, v, left).value, pr.Mod(v)))
    case _ => true
  }

  /** The region, shifted and inverted as the edge asks, has exactly the values that fit the edge. */
  lemma RegionOfEdge(pred: Pred, k: int, m: nat, x: int, c: int, shift: bool, yes: bool)
    requires m >= 2 && m % 2 == 0 && InWidth(k, m) && InWidth(x, m) && InWidth(c, m)
    ensures MakeICmpRegion(pred, Single(k, m)).Valid() && MakeICmpRegion(pred, Single(k, m)).m == m
    ensures var region := MakeICmpRegion(pred, Single(k, m));
            var shifted := if shift then Subtract(region, c) else region;
            var r := if yes then shifted else Inverse(shifted);
            r.Valid() && (r.Contains(x) <==> yes == Compare(pred, if shift then Wrap(x + c, m) else x, k, m))
  {
    hide MakeICmpRegion, Compare, Wrap, Single, Subtract, Inverse, Range.Contains;
    SingleContains(k, m);
    SingleWidth(k, m);
    var region := MakeICmpRegion(pred, Single(k, m));
    RegionExact(pred, k, m, if shift then Wrap(x + c, m) else x);
    SubtractExact(region, c, x);
    SubtractWidth(region, c);
    InverseExact(if shift then Subtract(region, c) else region, x);
  }

  /** A fact made of a range that may be empty. */
  lemma RangeFact(r: Range, x: int)
    requires r.Valid()
    ensures GetRange(r).Overdefined? ==> !r.Contains(x)
    ensures !GetRange(r).Overdefined? ==> (GetRange(r).Allows(x) <==> r.Contains(x))
  {
  }

  lemma CompareFactExact(pr: Program, v: Var, pred: Pred, left: Operand, k: int, yes: bool, x: int, y: int)
    requires pr.Mod(v) >= 2 && pr.Mod(v) % 2 == 0 && InWidth(x, pr.Mod(v)) && InWidth(k, pr.Mod(v))
    requires left == Reg(v) || (pred == ULT && NegOffset(pr, v, left).Some?)
    requires left == Reg(v) ==> y == x && NegOffset(pr, v, left).None?
    requires NegOffset(pr, v, left).Some? ==>
               InWidth(NegOffset(pr, v, left).value, pr.Mod(v)) && y == Wrap(x + NegOffset(pr, v, left).value, pr.Mod(v))
    ensures var f := CompareFact(pr, v, pred, left, k, yes);
            && f.Some? && (f.value.Overdefined? ==> yes != Compare(pred, y, k, pr.Mod(v)))
            && (!f.value.Overdefined? ==> (f.value.Allows(x) <==> yes == Compare(pred, y, k, pr.Mod(v))))
  {
    hide NegOffset, MakeICmpRegion, Wrap, Single, Subtract, Inverse, Program.Mod, Get, GetNot, Compare, GetRange;
    var m := pr.Mod(v);
    var off := if pred == ULT then NegOffset(pr, v, left) else None;
    if left == Reg(v) && (pred == EQ || pred == NE) {
      GetExact(k, m, x);
      GetKnown(k, m);
      CompareEquality(pred, y, k, m);
    } else {
      var c := if off.Some? then off.value else 0;
      RegionOfEdge(pred, k, m, x, c, off.Some?, yes);
      SingleContains(k, m);
      var yesRange := MakeICmpRegion(pred, Single(k, m));
      var shifted := if off.Some? then Subtract(yesRange, c) else yesRange;
      RangeFact(if yes then shifted else Inverse(shifted), x);
    }
  }

  lemma GetKnown(c: int, m: nat)
    requires m >= 2 && InWidth(c, m)
    ensures !Get(c, m).Overdefined? && !GetNot(c, m).Overdefined?
  {
    hide Wrap;
    if c + 1 < m { WrapSmall(c + 1, m); } else { WrapWhole(m); }
  }

  /** What the widths of a comparison at the end of a block are. */
  lemma ConditionWidths(pr: Program, v: Var, from: Node, c: Operand)
    requires pr.Valid() && v in pr.widths && from in pr.blocks && Tells(pr, v, c) && c != Reg(v)
    requires pr.Available(c, from, |pr.blocks[from].body|) && Live(pr, Reg(v), from)
    ensures var i := InstrOf(pr, c).value;
            && InWidth(i.right.c, pr.Mod(v)) && (i.left == Reg(v) ==> NegOffset(pr, v, i.left).None?)
            && (NegOffset(pr, v, i.left).Some? ==> InWidth(NegOffset(pr, v, i.left).value, pr.Mod(v)) && pr.OpMod(i.left) == pr.Mod(v))
  {
    var i := InstrOf(pr, c).value;
    ReadAvailable(pr, c, i.left, from);
    assert i.right in Reads(i);
    ReadAvailable(pr, c, i.right, from);
    if NegOffset(pr, v, i.left).Some? {
      OffsetWidth(pr, v, i.left, from);
      ReadAvailable(pr, i.left, Reg(v), from);
    }
  }

  /** What a branch says about a value on an edge allows exactly the values with which control takes the edge. */
  lemma BranchExact(pr: Program, v: Var, from: Node, dest: Node, env: Env)
    requires pr.Valid() && v in pr.widths && from in pr.blocks && Live(pr, Reg(v), from) && pr.InRange(env)
    requires var t := pr.blocks[from].term;
             && t.CondBr? && t.whenTrue != t.whenFalse && dest in {t.whenTrue, t.whenFalse}
             && Tells(pr, v, t.cond) && Consistent(pr, v, t.cond, env)
    ensures var f := EdgeValueLocal(pr, v, from, dest);
            && f.Some? && (f.value.Overdefined? ==> !pr.Goes(from, env, dest))
            && (!f.value.Overdefined? ==> (f.value.Allows(pr.Val(Reg(v), env)) <==> pr.Goes(from, env, dest)))
  {
    hide Compare, CompareFact, NegOffset, Program.Mod, Wrap;
    var c := pr.blocks[from].term.cond;
    var yes := pr.blocks[from].term.whenTrue == dest;
    var x := pr.Val(Reg(v), env);
    assert pr.BlockOK(from) && pr.TermOK(from);
    EvenMod(pr, v);
    assert InWidth(x, pr.Mod(v));
    if c == Reg(v) {
      GetExact(if yes then 1 else 0, 2, x);
      GetKnown(if yes then 1 else 0, 2);
    } else {
      var i := InstrOf(pr, c).value;
      ConditionWidths(pr, v, from, c);
      CompareFactExact(pr, v, i.pred, i.left, i.right.c, yes, x, pr.Val(i.left, env));
      ModOfReg(pr, v, i.left);
    }
  }

  lemma ModOfReg(pr: Program, v: Var, x: Operand)
    ensures x == Reg(v) ==> pr.OpMod(x) == pr.Mod(v)
  {
  }

  // ----- What a switch says -----

  predicate CasesWithin(cs: seq<SwitchCase>, dest: Node, r: Range) {
    forall j {:trigger cs[j]} :: 0 <= j < |cs| && cs[j].dest == dest ==> r.Contains(cs[j].val)
  }

  /** Unless it is the default, what a switch says about an edge stays within every range of at most half of all values
      that holds the cases that lead there. */
  lemma {:induction false} SwitchWithin(cs: seq<SwitchCase>, dest: Node, start: Range, r: Range)
    requires AtMostHalf(r) && CasesOK(cs, r.m) && start.Valid() && start.m == r.m && ContainsRange(r, start)
    requires CasesWithin(cs, dest, r)
    ensures ContainsRange(r, SwitchRange(cs, dest, false, start, r.m))
    decreases |cs|
  {
    hide UnionWith, ContainsRange, Range.GetSetSize, Single, Range.Contains;
    if cs != [] {
      var one := Single(cs[0].val, r.m);
      SingleContains(cs[0].val, r.m);
      SingleWidth(cs[0].val, r.m);
      UnionCovers(start, one, 0);
      if cs[0].dest == dest {
        SingleWithin(r, cs[0].val);
        UnionWithin(start, one, r);
      }
      SwitchWithin(cs[1..], dest, if cs[0].dest == dest then UnionWith(start, one) else start, r);
    }
  }

  lemma SingleWithin(r: Range, c: int)
    requires r.Valid() && InWidth(c, r.m) && r.Contains(c)
    ensures Single(c, r.m).Valid() && ContainsRange(r, Single(c, r.m))
  {
    SingleContains(c, r.m);
    ContainsRangeExact(r, Single(c, r.m));
  }

  predicate LeadsElsewhere(cs: seq<SwitchCase>, dest: Node, x: int) {
    exists j {:trigger cs[j]} :: 0 <= j < |cs| && cs[j].dest != dest && cs[j].val == x
  }

  lemma DifferenceWithin(a: Range, b: Range)
    requires a.Valid() && b.Valid() && a.m == b.m
    ensures Difference(a, b).Valid() && Difference(a, b).m == a.m
    ensures ContainsRange(a, Difference(a, b)) || ContainsRange(Inverse(b), Difference(a, b))
    ensures a.IsFullSet() ==> Difference(a, b) == Inverse(b)
  {
    InverseExact(b, 0);
    IntersectWithin(a, Inverse(b));
  }

  /** A value that has been left out, or another one, stays left out. */
  lemma {:induction false} StaysOut(cs: seq<SwitchCase>, dest: Node, start: Range, m: nat, e: int) returns (x: int)
    requires CasesOK(cs, m) && start.Valid() && start.m == m && InWidth(e, m) && !start.Contains(e)
    ensures !SwitchRange(cs, dest, true, start, m).Contains(x) && (x == e || LeadsElsewhere(cs, dest, x))
    decreases |cs|
  {
    hide ContainsRange, Single, Range.Contains, Difference, Inverse;
    x := e;
    if cs != [] {
      var c := cs[0].val;
      SingleContains(c, m);
      SingleWidth(c, m);
      DifferenceCovers(start, Single(c, m), 0);
      var next := if cs[0].dest != dest then Difference(start, Single(c, m)) else start;
      if cs[0].dest == dest {
        x := StaysOut(cs[1..], dest, next, m, e);
      } else {
        var e' := NextOut(start, c, e);
        x := StaysOut(cs[1..], dest, next, m, e');
      }
      assert LeadsElsewhere(cs[1..], dest, x) ==> LeadsElsewhere(cs, dest, x) by { MoreCases(cs, dest, x); }
    }
  }

  lemma MoreCases(cs: seq<SwitchCase>, dest: Node, x: int)
    requires cs != []
    ensures LeadsElsewhere(cs[1..], dest, x) ==> LeadsElsewhere(cs, dest, x)
    ensures cs[0].dest != dest && cs[0].val == x ==> LeadsElsewhere(cs, dest, x)
  {
    if LeadsElsewhere(cs[1..], dest, x) {
      var j :| 0 <= j < |cs[1..]| && cs[1..][j].dest != dest && cs[1..][j].val == x;
      assert cs[j + 1] == cs[1..][j];
    }
  }

  lemma NextOut(start: Range, c: int, e: int) returns (x: int)
    requires start.Valid() && InWidth(c, start.m) && InWidth(e, start.m) && !start.Contains(e)
    ensures Single(c, start.m).Valid() && Single(c, start.m).m == start.m
    ensures x in {c, e} && !Difference(start, Single(c, start.m)).Contains(x)
  {
    hide ContainsRange, Single, Range.Contains, Difference, Inverse;
    SingleContains(c, start.m);
    SingleWidth(c, start.m);
    var one := Single(c, start.m);
    DifferenceWithin(start, one);
    InverseExact(one, c);
    InverseWidth(one);
    var d := Difference(start, one);
    x := if ContainsRange(start, d) then e else c;
    if d.Contains(x) {
      if ContainsRange(start, d) { ContainsRangeSound(start, d, x); } else { ContainsRangeSound(Inverse(one), d, x); }
    }
  }

  /** The default edge leaves out the value of a case that leads elsewhere, if there is one. */
  lemma {:induction false} DefaultLeavesOut(cs: seq<SwitchCase>, dest: Node, m: nat, k: nat) returns (x: int)
    requires CasesOK(cs, m) && k < |cs| && cs[k].dest != dest
    ensures FullSet(m).Valid() && !SwitchRange(cs, dest, true, FullSet(m), m).Contains(x) && LeadsElsewhere(cs, dest, x)
    decreases |cs|
  {
    hide Single, Range.Contains, Difference, Inverse;
    var c := cs[0].val;
    SingleContains(c, m);
    SingleWidth(c, m);
    DifferenceWithin(FullSet(m), Single(c, m));
    if cs[0].dest != dest {
      InverseExact(Single(c, m), c);
      x := StaysOut(cs[1..], dest, Difference(FullSet(m), Single(c, m)), m, c);
    } else {
      x := DefaultLeavesOut(cs[1..], dest, m, k - 1);
    }
    MoreCases(cs, dest, x);
  }

  // ----- Facts on edges -----

  lemma ContainsTrans(a: Range, b: Range, c: Range)
    requires a.Valid() && b.Valid() && c.Valid() && a.m == b.m == c.m && ContainsRange(a, b) && ContainsRange(b, c)
    ensures ContainsRange(a, c)
  {
  }

  lemma NarrowedWithin(a: Range, b: Range, r: Range)
    requires a.Valid() && b.Valid() && r.Valid() && a.m == b.m == r.m && ContainsRange(r, a) && ContainsRange(r, b)
    ensures IntersectWith(a, b).Valid()
    ensures if IntersectWith(a, b).IsEmptySet() then forall x {:trigger a.Contains(x)} :: InWidth(x, r.m) && a.Contains(x) ==> !b.Contains(x)
            else ContainsRange(r, IntersectWith(a, b))
  {
    hide ContainsRange, IntersectWith;
    IntersectWithin(a, b);
    var i := IntersectWith(a, b);
    if ContainsRange(a, i) { ContainsTrans(r, a, i); } else { ContainsTrans(r, b, i); }
    if i.IsEmptySet() {
      forall x | InWidth(x, r.m) && a.Contains(x) ensures !b.Contains(x) { IntersectCovers(a, b, x); }
    }
  }

  /** A fact on an edge stays within what holds both what the terminator says and what is known of the block, unless the
      two have nothing in common, so that no execution takes the edge. */
  lemma EdgeFactWithin(pr: Program, cache: Cache, x: Operand, from: Node, dest: Node, r: Range)
    requires r.Valid() && r.m == pr.OpMod(x) && from in pr.blocks && x.Reg? && EdgeFact(pr, cache, x, from, dest).Some?
    requires var local := EdgeValueLocal(pr, x.v, from, dest);
             if local.Some? then local.value.Fits(r.m) && Within(r, local.value) else BlockFact(cache, x, from).Some?
    requires BlockFact(cache, x, from).Some? ==>
               var fact := BlockFact(cache, x, from).value;
               fact.Fits(r.m) && (fact.ConstantRange? || EdgeValueLocal(pr, x.v, from, dest).None? ==> Within(r, fact))
    ensures var fact := EdgeFact(pr, cache, x, from, dest).value;
            Within(r, fact) || (fact.Overdefined? && NothingInCommon(pr, cache, x.v, from, dest))
  {
    hide EdgeValueLocal, ContainsRange, IntersectWith;
    var local := EdgeValueLocal(pr, x.v, from, dest);
    if local.Some? && local.value.ConstantRange? && !IsSingle(local.value.range) {
      var inBlock := BlockFact(cache, x, from).value;
      if inBlock.ConstantRange? { NarrowedWithin(local.value.range, inBlock.range, r); }
    }
  }

  ghost predicate NothingInCommon(pr: Program, cache: Cache, v: Var, from: Node, dest: Node) {
    && from in pr.blocks && EdgeValueLocal(pr, v, from, dest).Some? && BlockFact(cache, Reg(v), from).Some?
    && forall x {:trigger EdgeValueLocal(pr, v, from, dest).value.Allows(x)} ::
         InWidth(x, pr.Mod(v)) && EdgeValueLocal(pr, v, from, dest).value.Allows(x) ==> !BlockFact(cache, Reg(v), from).value.Allows(x)
  }

  /** If what the terminator allows and what is known of the block have a range in common, the fact is exactly that. */
  lemma EdgeFactExact(pr: Program, cache: Cache, v: Var, from: Node, dest: Node, c: Range, x: int)
    requires from in pr.blocks && c.Valid() && c.m == pr.Mod(v) && !c.IsEmptySet() && InWidth(x, c.m)
    requires var local := EdgeValueLocal(pr, v, from, dest); var known := BlockFact(cache, Reg(v), from);
             && local.Some? && local.value.ConstantRange? && local.value.Fits(c.m) && !IsSingle(local.value.range)
             && known.Some? && known.value.ConstantRange? && known.value.Fits(c.m)
             && forall y {:trigger c.Contains(y)} :: InWidth(y, c.m) ==>
                  (c.Contains(y) <==> local.value.Allows(y) && known.value.Allows(y))
    ensures EdgeFact(pr, cache, Reg(v), from, dest).Some?
    ensures EdgeFact(pr, cache, Reg(v), from, dest).value.ConstantRange?
    ensures EdgeFact(pr, cache, Reg(v), from, dest).value.Allows(x) <==> c.Contains(x)
  {
    hide EdgeValueLocal, IntersectWith;
    var a, b := EdgeValueLocal(pr, v, from, dest).value.range, BlockFact(cache, Reg(v), from).value.range;
    var y := AnyMember(c);
    IntersectExact(a, b, c, y);
    IntersectExact(a, b, c, x);
    IntersectWithin(a, b);
    assert IntersectWith(a, b).Contains(y) && !IntersectWith(a, b).IsEmptySet();
  }

  // ----- The table of operators -----

  /** What an operator computes from x and its constant. */
  function ResultOf(i: Instr, x: int, from: nat, m: nat): int
    requires InTable(i) && m > 0
  {
    if i.Bin? then if x >= 0 && i.rhs.c >= 0 then BinValue(i.op, x, i.rhs.c, m) else 0 else CastValue(i.cast, x, from, m)
  }

  ghost predicate Exactly(i: Instr, lr: Range, m: nat, y: int)
    requires InTable(i) && m > 0
  {
    exists x {:trigger lr.Contains(x)} :: InWidth(x, lr.m) && lr.Contains(x) && y == ResultOf(i, x, lr.m, m)
  }

  ghost predicate Between(i: Instr, lr: Range, m: nat, y: int)
    requires InTable(i) && m > 0
  {
    exists x, x' {:trigger lr.Contains(x), lr.Contains(x')} ::
      && InWidth(x, lr.m) && lr.Contains(x) && InWidth(x', lr.m) && lr.Contains(x')
      && ResultOf(i, x, lr.m, m) <= y <= ResultOf(i, x', lr.m, m)
  }

  ghost predicate ProductBetween(lr: Range, c: int, y: int) {
    exists x, x', z {:trigger lr.Contains(x), lr.Contains(x'), Wrap(z, lr.m)} ::
      && lr.m > 0 && InWidth(x, lr.m) && lr.Contains(x) && InWidth(x', lr.m) && lr.Contains(x')
      && x * c <= z <= x' * c && Wrap(z, lr.m) == y
  }

  ghost predicate AtMostSome(lr: Range, y: int) { exists x {:trigger lr.Contains(x)} :: InWidth(x, lr.m) && lr.Contains(x) && y <= x }

  ghost predicate AtLeastSome(lr: Range, y: int) { exists x {:trigger lr.Contains(x)} :: InWidth(x, lr.m) && lr.Contains(x) && x <= y }

  /** The operators for which the table gives something, and the operands for which it gives no more than it must. */
  predicate Handled(i: Instr, lr: Range, m: nat)
    requires InTable(i) && lr.Valid()
  {
    match i
    case Bin(op, _, rhs) =>
      && op != OtherBin && (op == BinOp.UDiv ==> rhs.c != 0)
      && (op == BinOp.Shl ==> rhs.c >= 0 && lr.GetUnsignedMax() * Pow2(rhs.c + 1) < lr.m)
    case Cast(op, _) => op != OtherCast && (op == SExt ==> lr.IsFullSet() || lr.hi != lr.m / 2)
  }

  /** There is a reason for y to be in the result. */
  ghost predicate Reached(i: Instr, lr: Range, m: nat, y: int)
    requires InTable(i) && m > 0
  {
    match i
    case Bin(op, _, rhs) =>
      (match op
       case Add => Exactly(i, lr, m, y)
       case Sub => Exactly(i, lr, m, y)
       case Mul => ProductBetween(lr, rhs.c, y)
       case UDiv => Between(i, lr, m, y)
       case Shl => Between(i, lr, m, y)
       case LShr => Between(i, lr, m, y)
       case And => AtMostSome(lr, y) && y <= rhs.c
       case Or => AtLeastSome(lr, y) && rhs.c <= y
       case OtherBin => true)
    case Cast(op, _) =>
      match op
      case Trunc => Exactly(i, lr, m, y)
      case SExt => SignedBetween(lr, m, y)
      case ZExt => Between(i, lr, m, y)
      case BitCast => Exactly(i, lr, m, y)
      case OtherCast => true
  }

  lemma SumReached(i: Instr, lr: Range, y: int)
    requires i.Bin? && i.rhs.Const? && i.op in {BinOp.Add, BinOp.Sub} && lr.Valid() && InWidth(i.rhs.c, lr.m) && InWidth(y, lr.m)
    requires Single(i.rhs.c, lr.m).Valid() && Single(i.rhs.c, lr.m).m == lr.m
    requires if i.op == BinOp.Add then CR.Add(lr, Single(i.rhs.c, lr.m)).Contains(y) else CR.Sub(lr, Single(i.rhs.c, lr.m)).Contains(y)
    ensures Exactly(i, lr, lr.m, y)
  {
    hide CR.Add, CR.Sub, Single, Wrap;
    SingleContains(i.rhs.c, lr.m);
    if i.op == BinOp.Add {
      var x, c := AddReached(lr, Single(i.rhs.c, lr.m), y);
    } else {
      var x, c := SubReached(lr, Single(i.rhs.c, lr.m), y);
    }
  }

  lemma ProductReached(lr: Range, c: int, y: int)
    requires lr.Valid() && InWidth(c, lr.m) && InWidth(y, lr.m) && Single(c, lr.m).Valid() && Single(c, lr.m).m == lr.m
    requires CR.Multiply(lr, Single(c, lr.m)).Contains(y)
    ensures ProductBetween(lr, c, y)
  {
    hide CR.Multiply, Single, Wrap;
    SingleContains(c, lr.m);
    var v, w, v', w', z := MultiplyReached(lr, Single(c, lr.m), y);
  }

  lemma QuotientReached(i: Instr, lr: Range, y: int)
    requires i.Bin? && i.rhs.Const? && i.op == BinOp.UDiv && i.rhs.c != 0 && lr.Valid() && InWidth(i.rhs.c, lr.m) && InWidth(y, lr.m)
    requires Single(i.rhs.c, lr.m).Valid() && Single(i.rhs.c, lr.m).m == lr.m
    requires CR.UDiv(lr, Single(i.rhs.c, lr.m)).Contains(y)
    ensures Between(i, lr, lr.m, y)
  {
    hide CR.UDiv, Single, Wrap;
    SingleContains(i.rhs.c, lr.m);
    SingleNotFull(i.rhs.c, lr.m);
    var v, w, v', w' := UDivBetween(lr, Single(i.rhs.c, lr.m), y);
    DivSmaller(v, w);
    DivSmaller(v', w');
    WrapSame(v / w, lr.m);
    WrapSame(v' / w', lr.m);
  }

  lemma SingleNotFull(c: int, m: nat)
    requires m >= 2 && InWidth(c, m)
    ensures !Single(c, m).IsFullSet() && !Single(c, m).IsEmptySet()
    ensures Single(c, m).GetUnsignedMin() == c == Single(c, m).GetUnsignedMax()
  {
    if c + 1 == m { WrapWhole(m); WrapSmall(-1, m); } else { WrapSmall(c + 1, m); WrapSmall(c, m); }
  }

  lemma ShiftReached(i: Instr, lr: Range, width: nat, y: int)
    requires i.Bin? && i.rhs.Const? && i.op in {BinOp.Shl, BinOp.LShr} && lr.Valid() && lr.m == Pow2(width)
    requires InWidth(i.rhs.c, lr.m) && InWidth(y, lr.m) && Single(i.rhs.c, lr.m).Valid() && Single(i.rhs.c, lr.m).m == lr.m
    requires if i.op == BinOp.Shl then CR.Shl(lr, Single(i.rhs.c, lr.m)).Contains(y) else CR.LShr(lr, Single(i.rhs.c, lr.m)).Contains(y)
    requires i.op == BinOp.Shl ==> i.rhs.c < width && lr.GetUnsignedMax() * Pow2(i.rhs.c + 1) < lr.m
    ensures Between(i, lr, lr.m, y)
  {
    hide CR.Shl, CR.LShr, Single, Wrap, Range.GetUnsignedMax, Range.GetUnsignedMin, Pow2;
    var c := i.rhs.c;
    SingleContains(c, lr.m);
    SingleNotFull(c, lr.m);
    if i.op == BinOp.Shl {
      var v, w, v', w' := ShlBetween(lr, Single(c, lr.m), width, y);
      NoOverflow(lr, v, c);
      NoOverflow(lr, v', c);
    } else {
      var v, w, v', w' := LShrBetween(lr, Single(c, lr.m), y);
      DivSmaller(v, Pow2(c));
      DivSmaller(v', Pow2(c));
      WrapSame(v / Pow2(c), lr.m);
      WrapSame(v' / Pow2(c), lr.m);
    }
  }

  lemma NoOverflow(lr: Range, v: int, c: nat)
    requires lr.Valid() && !lr.IsEmptySet() && InWidth(v, lr.m) && lr.Contains(v) && lr.GetUnsignedMax() * Pow2(c + 1) < lr.m
    ensures Wrap(v * Pow2(c), lr.m) == v * Pow2(c)
  {
    hide Wrap;
    UnsignedBounds(lr, v);
    var top := lr.GetUnsignedMax();
    MulMono(v, Pow2(c), top, Pow2(c + 1));
    WrapSame(v * Pow2(c), lr.m);
  }

  lemma BitsReached(i: Instr, lr: Range, y: int)
    requires i.Bin? && i.rhs.Const? && i.op in {BinOp.And, BinOp.Or} && lr.Valid() && !lr.IsEmptySet()
    requires InWidth(i.rhs.c, lr.m) && InWidth(y, lr.m) && Single(i.rhs.c, lr.m).Valid() && Single(i.rhs.c, lr.m).m == lr.m
    requires if i.op == BinOp.And then CR.BinaryAnd(lr, Single(i.rhs.c, lr.m)).Contains(y) else CR.BinaryOr(lr, Single(i.rhs.c, lr.m)).Contains(y)
    ensures Reached(i, lr, lr.m, y)
  {
    hide CR.BinaryAnd, CR.BinaryOr, Single, Wrap;
    SingleContains(i.rhs.c, lr.m);
    SingleNotFull(i.rhs.c, lr.m);
    BinaryAndExact(lr, Single(i.rhs.c, lr.m), y);
    BinaryOrExact(lr, Single(i.rhs.c, lr.m), y);
  }

  /** The result of a binary operator allows nothing that is not reached. */
  lemma BinTight(i: Instr, lr: Range, width: nat, y: int)
    requires i.Bin? && InTable(i) && lr.Valid() && !lr.IsEmptySet() && lr.m == Pow2(width) && TableApplies(i, lr, lr.m)
    requires InWidth(y, lr.m) && Handled(i, lr, lr.m) && (i.op == BinOp.Shl ==> i.rhs.c < width)
    requires TableFact(i, ConstantRange(lr), lr.m).Allows(y)
    ensures TableFact(i, ConstantRange(lr), lr.m).ConstantRange? && Reached(i, lr, lr.m, y)
  {
    hide CR.Add, CR.Sub, CR.Multiply, CR.Shl, CR.LShr, CR.BinaryAnd, CR.BinaryOr, CR.UDiv, Wrap, Pow2, Single, BinValue, Range.GetUnsignedMax, Exactly, Between, ProductBetween, AtMostSome, AtLeastSome;
    SingleContains(i.rhs.c, lr.m);
    SingleWidth(i.rhs.c, lr.m);
    BinNotEmpty(i, lr, width);
    match i.op
    case Add => SumReached(i, lr, y);
    case Sub => SumReached(i, lr, y);
    case Mul => ProductReached(lr, i.rhs.c, y);
    case UDiv => QuotientReached(i, lr, y);
    case Shl => ShiftReached(i, lr, width, y);
    case LShr => ShiftReached(i, lr, width, y);
    case And => BitsReached(i, lr, y);
    case Or => BitsReached(i, lr, y);
  }

  /** Some result is covered, so that the range of results is not empty. */
  lemma BinNotEmpty(i: Instr, lr: Range, width: nat)
    requires i.Bin? && InTable(i) && lr.Valid() && !lr.IsEmptySet() && lr.m == Pow2(width) && TableApplies(i, lr, lr.m)
    requires i.op != OtherBin && (i.op == BinOp.UDiv ==> i.rhs.c != 0)
    ensures Single(i.rhs.c, lr.m).Valid() && Single(i.rhs.c, lr.m).m == lr.m
    ensures OpRange(i, lr, Single(i.rhs.c, lr.m), lr.m).Some? && !OpRange(i, lr, Single(i.rhs.c, lr.m), lr.m).value.IsEmptySet()
  {
    hide CR.Add, CR.Sub, CR.Multiply, CR.Shl, CR.LShr, CR.BinaryAnd, CR.BinaryOr, CR.UDiv, Wrap, Pow2, Single, BinValue;
    SingleContains(i.rhs.c, lr.m);
    SingleWidth(i.rhs.c, lr.m);
    SingleNotFull(i.rhs.c, lr.m);
    var x := AnyMember(lr);
    BinMember(i.op, lr, Single(i.rhs.c, lr.m), x, i.rhs.c, width);
  }

  lemma BinMember(op: BinOp, lhs: Range, rhs: Range, x: int, y: int, width: nat)
    requires lhs.Valid() && rhs.Valid() && lhs.m == rhs.m == Pow2(width) && lhs.m >= 2
    requires InWidth(x, lhs.m) && InWidth(y, lhs.m) && lhs.Contains(x) && rhs.Contains(y)
    ensures match op
            case Add => !CR.Add(lhs, rhs).IsEmptySet()
            case Sub => !CR.Sub(lhs, rhs).IsEmptySet()
            case Mul => !CR.Multiply(lhs, rhs).IsEmptySet()
            case UDiv => y != 0 ==> !CR.UDiv(lhs, rhs).IsEmptySet()
            case Shl => !CR.Shl(lhs, rhs).IsEmptySet()
            case LShr => !CR.LShr(lhs, rhs).IsEmptySet()
            case And => !CR.BinaryAnd(lhs, rhs).IsEmptySet()
            case Or => !CR.BinaryOr(lhs, rhs).IsEmptySet()
            case OtherBin => true
  {
    hide CR.Add, CR.Sub, CR.Multiply, CR.Shl, CR.LShr, CR.BinaryAnd, CR.BinaryOr, CR.UDiv, Wrap, Pow2;
    match op
    case Add => AddCovers(lhs, rhs, x, y);
    case Sub => SubCovers(lhs, rhs, x, y);
    case Mul => MultiplyCovers(lhs, rhs, x, y);
    case UDiv => if y != 0 { UDivCovers(lhs, rhs, x, y); }
    case Shl => ShlCovers(lhs, rhs, x, y, width);
    case LShr => LShrCovers(lhs, rhs, x, y);
    case And => BinaryAndCovers(lhs, rhs, x, y);
    case Or => BinaryOrCovers(lhs, rhs, x, y);
    case OtherBin =>
  }

  lemma CastNotEmpty(i: Instr, lr: Range, w: nat, w2: nat, x: int)
    requires i.Cast? && InTable(i) && w > 0 && w2 > 0 && lr.Valid() && lr.m == Pow2(w) && InWidth(x, lr.m) && lr.Contains(x)
    requires (i.cast == Trunc ==> w2 < w) && (i.cast == SExt || i.cast == ZExt ==> w < w2) && (i.cast == BitCast ==> w == w2)
    requires TableApplies(i, lr, Pow2(w2)) && i.cast != OtherCast
    ensures TableFact(i, ConstantRange(lr), Pow2(w2)).ConstantRange?
  {
    hide CR.Truncate, CR.SignExtend, CR.ZeroExtend, Wrap, Pow2, RhsRange, Range.Contains, SignExtendValue;
    match i.cast
    case Trunc =>
      Pow2Split(w, w2);
      TruncateCovers(lr, Pow2(w2), Pow2(w - w2), x);
      HasMember(CR.Truncate(lr, Pow2(w2)), Wrap(x, Pow2(w2)));
    case SExt =>
      Pow2Less(w, w2);
      Pow2Less(0, w);
      SignExtendCovers(lr, Pow2(w2), x);
      HasMember(CR.SignExtend(lr, Pow2(w2)), SignExtendValue(x, lr.m, Pow2(w2)));
    case ZExt =>
      Pow2Less(w, w2);
      ZeroExtendCovers(lr, Pow2(w2), x);
      HasMember(CR.ZeroExtend(lr, Pow2(w2)), x);
    case BitCast => HasMember(lr, x);
  }

  lemma HasMember(r: Range, v: int)
    requires r.Valid() && r.Contains(v)
    ensures !r.IsEmptySet()
  {
  }

  lemma TruncReached(i: Instr, lr: Range, w: nat, w2: nat, y: int)
    requires i.Cast? && i.cast == Trunc && 0 < w2 < w && lr.Valid() && lr.m == Pow2(w) && InWidth(y, Pow2(w2))
    requires 2 <= Pow2(w2) <= lr.m && CR.Truncate(lr, Pow2(w2)).Contains(y)
    ensures Exactly(i, lr, Pow2(w2), y)
  {
    hide CR.Truncate, Wrap, Pow2;
    Pow2Split(w, w2);
    var x := TruncateReached(lr, Pow2(w2), Pow2(w - w2), y);
  }

  lemma SignReached(lr: Range, w: nat, w2: nat, y: int)
    requires 0 < w < w2 && lr.Valid() && !lr.IsEmptySet() && lr.m == Pow2(w) && InWidth(y, Pow2(w2))
    requires (lr.IsFullSet() || lr.hi != lr.m / 2) && CR.SignExtend(lr, Pow2(w2)).Contains(y)
    ensures SignedBetween(lr, Pow2(w2), y)
  {
    hide CR.SignExtend, Pow2, SignedBetween;
    Pow2Less(w, w2);
    Pow2Less(0, w);
    SignExtendTight(lr, Pow2(w2));
  }

  lemma ZeroReached(i: Instr, lr: Range, w: nat, w2: nat, y: int)
    requires i.Cast? && i.cast == ZExt && 0 < w < w2 && lr.Valid() && lr.m == Pow2(w) && InWidth(y, Pow2(w2))
    requires CR.ZeroExtend(lr, Pow2(w2)).Contains(y)
    ensures Between(i, lr, Pow2(w2), y)
  {
    hide CR.ZeroExtend, Pow2, Wrap;
    Pow2Less(w, w2);
    var x, x' := ZeroExtendBetween(lr, Pow2(w2), y);
    WrapSame(x, Pow2(w2));
    WrapSame(x', Pow2(w2));
  }

  lemma SameReached(i: Instr, lr: Range, y: int)
    requires i.Cast? && i.cast == BitCast && lr.Valid() && InWidth(y, lr.m) && lr.Contains(y)
    ensures Exactly(i, lr, lr.m, y)
  {
    hide Wrap;
    WrapSame(y, lr.m);
  }

  /** The result of a cast allows nothing that is not reached. */
  lemma CastTight(i: Instr, lr: Range, w: nat, w2: nat, y: int)
    requires i.Cast? && lr.Valid() && !lr.IsEmptySet() && lr.m == Pow2(w) && w > 0 && w2 > 0 && TableApplies(i, lr, Pow2(w2))
    requires (i.cast == Trunc ==> w2 < w) && (i.cast == SExt || i.cast == ZExt ==> w < w2) && (i.cast == BitCast ==> w == w2)
    requires InWidth(y, Pow2(w2)) && Handled(i, lr, Pow2(w2)) && TableFact(i, ConstantRange(lr), Pow2(w2)).Allows(y)
    ensures TableFact(i, ConstantRange(lr), Pow2(w2)).ConstantRange? && Reached(i, lr, Pow2(w2), y)
  {
    hide CR.Truncate, CR.SignExtend, CR.ZeroExtend, Wrap, CastValue, Pow2, Range.Contains, CR.Add, CR.Sub, CR.Multiply, CR.UDiv, CR.Shl, CR.LShr, CR.BinaryAnd, CR.BinaryOr, RhsRange, Exactly, Between, SignedBetween;
    var x := AnyMember(lr);
    CastNotEmpty(i, lr, w, w2, x);
    match i.cast
    case Trunc => TruncReached(i, lr, w, w2, y);
    case SExt => SignReached(lr, w, w2, y);
    case ZExt => ZeroReached(i, lr, w, w2, y);
    case BitCast => SameReached(i, lr, y);
  }

  // ----- Answers -----

  /** v at b is a join: it comes in over the edges, or is a phi. */
  predicate IsJoin(pr: Program, v: Var, b: Node) {
    && b in pr.blocks && b != pr.entry
    && (!pr.DefinedIn(v, b) || (pr.site[v].PhiSite? && pr.site[v].index < |pr.blocks[b].phis|))
  }

  function SourcesOf(pr: Program, v: Var, b: Node): seq<Incoming>
    requires IsJoin(pr, v, b)
  {
    if !pr.DefinedIn(v, b) then PredSources(v, pr.blocks[b].preds) else pr.blocks[b].phis[pr.site[v].index].incoming
  }

  /** Each source has a fact, and it lies within r. */
  ghost predicate SourcesWithin(pr: Program, cache: Cache, b: Node, sources: seq<Incoming>, r: Range) {
    forall i {:trigger sources[i]} :: 0 <= i < |sources| ==>
      var fact := EdgeFact(pr, cache, sources[i].op, sources[i].from, b);
      fact.Some? && fact.value.Fits(r.m) && Within(r, fact.value)
  }

  lemma {:induction false} JoinWithin(pr: Program, cache: Cache, b: Node, sources: seq<Incoming>, r: Range)
    requires AtMostHalf(r) && SourcesWithin(pr, cache, b, sources, r)
    ensures var j := Join(pr, cache, b, sources);
            !j.stopped && j.missing == [] && j.result.Fits(r.m) && Within(r, j.result)
    decreases |sources|
  {
    hide EdgeFact, AtMostHalf, Merged, ContainsRange;
    if sources == [] {
      Nothing(r);
    } else {
      var n := |sources| - 1;
      var init := sources[..n];
      assert forall i {:trigger init[i]} :: 0 <= i < n ==> init[i] == sources[i];
      JoinWithin(pr, cache, b, init, r);
      assert sources[n] == sources[|sources| - 1];
      MergedWithin(r, Join(pr, cache, b, init).result, EdgeFact(pr, cache, sources[n].op, sources[n].from, b).value);
    }
  }

  /** An answer to a new question about a join lies within every range of at most half of all values that holds what is
      known on all its edges. */
  lemma AnswerWithin(pr: Program, cache: Cache, v: Var, b: Node, r: Range)
    requires IsJoin(pr, v, b) && !Settled(cache, Key(v, b)) && AtMostHalf(r)
    requires SourcesWithin(pr, cache[Key(v, b) := Overdefined], b, SourcesOf(pr, v, b), r)
    ensures Answer(pr, cache, Reg(v), b).Fits(r.m) && Within(r, Answer(pr, cache, Reg(v), b))
  {
    hide EdgeFact, AtMostHalf, ContainsRange, Join;
    JoinWithin(pr, cache[Key(v, b) := Overdefined], b, SourcesOf(pr, v, b), r);
  }

  lemma SameSingle(c: int, m: nat)
    requires m >= 2 && InWidth(c, m)
    ensures var f := Get(c, m); f == ConstantRange(Single(c, m)) && Merged(Undefined, f) == f && Merged(f, f) == f
  {
    hide Wrap;
    if c + 1 < m {
      WrapSmall(c + 1, m);
      WrapSmall(c, m);
    } else {
      WrapWhole(m);
    }
  }

  lemma {:induction false} JoinOfSame(pr: Program, cache: Cache, b: Node, sources: seq<Incoming>, c: int, m: nat)
    requires sources != [] && m >= 2 && InWidth(c, m)
    requires forall i {:trigger sources[i]} :: 0 <= i < |sources| ==>
               EdgeFact(pr, cache, sources[i].op, sources[i].from, b) == Some(Get(c, m))
    ensures Join(pr, cache, b, sources) == Joining(Get(c, m), [], false)
    decreases |sources|
  {
    hide EdgeFact, Merged, Get;
    SameSingle(c, m);
    var n := |sources| - 1;
    var init := sources[..n];
    assert forall i {:trigger init[i]} :: 0 <= i < n ==> init[i] == sources[i];
    assert sources[n] == sources[|sources| - 1];
    if n > 0 { JoinOfSame(pr, cache, b, init, c, m); }
  }

  /** If every edge into a block fixes the value, whatever is known of the blocks they leave, the answer is that value,
      and where nothing more is said on the way out, every comparison with a constant is decided. */
  lemma FixedByEdges(pr: Program, cache: Cache, v: Var, b: Node, c: int, dest: Node, p: Pred, k: int)
    requires IsJoin(pr, v, b) && !pr.DefinedIn(v, b) && !Settled(cache, Key(v, b)) && pr.blocks[b].preds != []
    requires pr.Mod(v) >= 2 && InWidth(c, pr.Mod(v))
    requires forall q {:trigger q in pr.blocks[b].preds} :: q in pr.blocks[b].preds ==>
               q in pr.blocks && EdgeValueLocal(pr, v, q, b) == Some(Get(c, pr.Mod(v)))
    ensures Answer(pr, cache, Reg(v), b) == Get(c, pr.Mod(v))
    ensures Key(v, b) !in cache && EdgeValueLocal(pr, v, b, dest).None? ==>
              EdgeAnswer(pr, cache, Reg(v), b, dest) == ConstantRange(Single(c, pr.Mod(v)))
    ensures AllOf(p, Single(c, pr.Mod(v)), k) <==> Compare(p, c, k, pr.Mod(v))
    ensures NoneOf(p, Single(c, pr.Mod(v)), k) <==> !Compare(p, c, k, pr.Mod(v))
  {
    hide EdgeValueLocal, Join, Compare, Get, Single, Range.Contains;
    var m := pr.Mod(v);
    var marked := cache[Key(v, b) := Overdefined];
    var sources := PredSources(v, pr.blocks[b].preds);
    SameSingle(c, m);
    forall i | 0 <= i < |sources| ensures EdgeFact(pr, marked, sources[i].op, sources[i].from, b) == Some(Get(c, m)) {
      assert pr.blocks[b].preds[i] in pr.blocks[b].preds;
      SingleIsSingle(c, m);
    }
    JoinOfSame(pr, marked, b, sources, c, m);
    SingleContains(c, m);
    SingleWidth(c, m);
    assert Single(c, m).Contains(c);
  }

  lemma SingleIsSingle(c: int, m: nat)
    requires m > 0
    ensures IsSingle(Single(c, m))
  {
  }
}
