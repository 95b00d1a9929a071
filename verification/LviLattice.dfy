/** The lattice of facts about one integer value, and the facts that blocks and edges contribute. */
module LviLattice {
  import opened Options
  import opened ConstantRange
  import opened Dominance
  import opened LviProgram

  /** The integer part of the lattice: integer constants and their complements are ranges. */
  datatype LatticeVal = Undefined | ConstantRange(range: Range) | Overdefined
  {
    /** Is v a possible value? Undefined means that no execution gets here. */
    predicate Allows(v: int) {
      match this
      case Undefined => false
      case ConstantRange(r) => r.Contains(v)
      case Overdefined => true
    }

    predicate Fits(m: nat) { ConstantRange? ==> range.Valid() && range.m == m && !range.IsEmptySet() }

    /** markConstantRange on an undefined or range value: an empty range says nothing. */
    function MarkConstantRange(r: Range): LatticeVal {
      if r.IsEmptySet() then Overdefined else ConstantRange(r)
    }

    /** mergeIn, the join of two facts. */
    function MergeIn(rhs: LatticeVal): LatticeVal
      requires ConstantRange? && rhs.ConstantRange? ==> range.Valid() && rhs.range.Valid() && range.m == rhs.range.m
    {
      if rhs.Undefined? || Overdefined? then this
      else if rhs.Overdefined? then Overdefined
      else if Undefined? then rhs
      else
        var u := UnionWith(range, rhs.range);
        if u.IsFullSet() then Overdefined else MarkConstantRange(u)
    }
  }

  function GetRange(r: Range): LatticeVal { if r.IsEmptySet() then Overdefined else ConstantRange(r) }

  /** get: the fact that a value is the constant c. */
  function Get(c: int, m: nat): LatticeVal
    requires m > 0
  {
    GetRange(Single(c, m))
  }

  /** getNot: any value but c. */
  function GetNot(c: int, m: nat): LatticeVal
    requires m > 0
  {
    GetRange(Range(m, Wrap(c + 1, m), c))
  }

  lemma GetExact(c: int, m: nat, v: int)
    requires m >= 2 && InWidth(c, m) && InWidth(v, m)
    ensures Get(c, m).Fits(m) && (Get(c, m).Allows(v) <==> v == c)
    ensures GetNot(c, m).Fits(m) && (GetNot(c, m).Allows(v) <==> v != c)
  {
    hide Wrap;
    if c + 1 < m { WrapSmall(c + 1, m); } else { WrapWhole(m); }
  }

  /** The join allows what either side allows. */
  lemma MergeCovers(a: LatticeVal, b: LatticeVal, m: nat, v: int)
    requires m >= 2 && a.Fits(m) && b.Fits(m) && InWidth(v, m)
    ensures a.MergeIn(b).Fits(m)
    ensures a.Allows(v) || b.Allows(v) ==> a.MergeIn(b).Allows(v)
  {
    if a.ConstantRange? && b.ConstantRange? { UnionCovers(a.range, b.range, v); }
  }

  // ----- Facts on edges -----

  /** getEdgeValueLocal: what the terminator of from says about v when control goes to dest; None when nothing. */
  function EdgeValueLocal(pr: Program, v: Var, from: Node, dest: Node): Option<LatticeVal>
    requires from in pr.blocks
  {
    match pr.blocks[from].term
    case CondBr(c, t, f) => if t != f then BranchFact(pr, v, c, t == dest) else None
    case Switch(c, d, cs) =>
      if c == Reg(v) then
        var start := if d == dest then FullSet(pr.Mod(v)) else EmptySet(pr.Mod(v));
        if CasesOK(cs, pr.Mod(v)) then Some(GetRange(SwitchRange(cs, dest, d == dest, start, pr.Mod(v)))) else None
      else None
    case _ => None
  }

  predicate CasesOK(cs: seq<SwitchCase>, m: nat) {
    m >= 2 && forall j {:trigger cs[j]} :: 0 <= j < |cs| ==> InWidth(cs[j].val, m)
  }

  /** v is the branch condition itself, or the condition compares v, or v plus a constant, with a constant. */
  function BranchFact(pr: Program, v: Var, c: Operand, isTrueDest: bool): Option<LatticeVal> {
    if c == Reg(v) then Some(Get(if isTrueDest then 1 else 0, 2))
    else
      match InstrOf(pr, c)
      case Some(ICmp(pred, left, Const(k, w))) => CompareFact(pr, v, pred, left, k, isTrueDest)
      case _ => None
  }

  function InstrOf(pr: Program, x: Operand): Option<Instr> {
    if x.Reg? && x.v in pr.site && pr.site[x.v].BodySite? && pr.site[x.v].block in pr.blocks
       && pr.site[x.v].index < |pr.blocks[pr.site[x.v].block].body|
    then Some(pr.blocks[pr.site[x.v].block].body[pr.site[x.v].index].i)
    else None
  }

  /** The constant c when x is the instruction v + c. */
  function NegOffset(pr: Program, v: Var, x: Operand): Option<int> {
    match InstrOf(pr, x)
    case Some(Bin(Add, l, Const(c, w))) => if l == Reg(v) then Some(c) else None
    case _ => None
  }

  function CompareFact(pr: Program, v: Var, pred: Pred, left: Operand, k: int, isTrueDest: bool): Option<LatticeVal> {
    var m := pr.Mod(v);
    if left == Reg(v) && (pred == EQ || pred == NE) then
      Some(if isTrueDest == (pred == EQ) then Get(k, m) else GetNot(k, m))
    else
      var off := if pred == ULT then NegOffset(pr, v, left) else None;
      if left == Reg(v) || off.Some? then
        if m % 2 == 0 && InWidth(k, m) then
          RegionExact(pred, k, m, 0);
          var yes := MakeICmpRegion(pred, Single(k, m));
          var shifted := if off.Some? then Subtract(yes, off.value) else yes;
          Some(GetRange(if isTrueDest then shifted else Inverse(shifted)))
        else None
      else None
  }

  /** The values with which a switch goes to dest. */
  function SwitchRange(cs: seq<SwitchCase>, dest: Node, isDefault: bool, start: Range, m: nat): (r: Range)
    requires CasesOK(cs, m) && start.Valid() && start.m == m
    ensures r.Valid() && r.m == m
    decreases |cs|
  {
    if cs == [] then start
    else
      var one := Single(cs[0].val, m);
      SingleContains(cs[0].val, m);
      var next :=
        if isDefault then if cs[0].dest != dest then (DifferenceCovers(start, one, 0); Difference(start, one)) else start
        else if cs[0].dest == dest then (UnionCovers(start, one, 0); UnionWith(start, one)) else start;
      SwitchRange(cs[1..], dest, isDefault, next, m)
  }

  // ----- Edge facts are true -----

  lemma EvenMod(pr: Program, v: Var)
    requires pr.Valid() && v in pr.widths
    ensures pr.Mod(v) >= 2 && pr.Mod(v) % 2 == 0
  {
    assert pr.SiteOK(v);
  }

  lemma {:induction false} SwitchCovers(pr: Program, cs: seq<SwitchCase>, d: Node, dest: Node, start: Range, m: nat, x: int)
    requires CasesOK(cs, m) && start.Valid() && start.m == m && InWidth(x, m)
    requires forall j, l {:trigger cs[j], cs[l]} :: 0 <= j < l < |cs| ==> cs[j].val != cs[l].val
    requires pr.SwitchDest(cs, d, x) == dest || (d != dest && start.Contains(x))
    requires d == dest ==> start.Contains(x)
    ensures SwitchRange(cs, dest, d == dest, start, m).Contains(x)
    decreases |cs|
  {
    if cs != [] {
      var one := Single(cs[0].val, m);
      SingleContains(cs[0].val, m);
      DifferenceCovers(start, one, x);
      UnionCovers(start, one, x);
      var next := if d == dest then if cs[0].dest != dest then Difference(start, one) else start
                  else if cs[0].dest == dest then UnionWith(start, one) else start;
      if cs[0].val == x && d == dest && cs[0].dest == dest {
        NoMoreCases(pr, cs[1..], d, x);
      }
      SwitchCovers(pr, cs[1..], d, dest, next, m, x);
    }
  }

  lemma {:induction false} NoMoreCases(pr: Program, cs: seq<SwitchCase>, d: Node, x: int)
    requires forall j {:trigger cs[j]} :: 0 <= j < |cs| ==> cs[j].val != x
    ensures pr.SwitchDest(cs, d, x) == d
  {
    if cs != [] { NoMoreCases(pr, cs[1..], d, x); }
  }

  /** The instruction behind an operand that is available at the end of a block, and its equation there. */
  lemma OperandEquation(pr: Program, r: seq<Frame>, x: Operand) returns (a: int)
    requires |r| > 0 && pr.Valid() && IsRun(pr, r) && Last(r).block in pr.blocks
    requires pr.Available(x, Last(r).block, |pr.blocks[Last(r).block].body|) && InstrOf(pr, x).Some?
    ensures EquationWith(pr, InstrOf(pr, x).value, x.v, Last(r).env, a)
  {
    var b := Last(r).block;
    DominatesSelf(pr.Cfg(), b);
    EquationsHold(pr, r, x.v);
    a :| EquationWith(pr, InstrOf(pr, x).value, x.v, Last(r).env, a);
  }

  /** What an instruction reads is available wherever the instruction is. */
  lemma ReadAvailable(pr: Program, x: Operand, y: Operand, b: Node)
    requires pr.Valid() && b in pr.blocks && pr.Available(x, b, |pr.blocks[b].body|) && InstrOf(pr, x).Some?
    requires y in Reads(InstrOf(pr, x).value)
    ensures pr.Available(y, b, |pr.blocks[b].body|)
    ensures pr.DefOK(pr.site[x.v].block, pr.site[x.v].index)
  {
    var s := pr.site[x.v];
    assert pr.SiteOK(x.v);
    assert pr.BlockOK(s.block);
    assert pr.blocks[s.block].body[s.index].v == x.v;
    assert pr.DefOK(s.block, s.index);
    assert pr.Available(y, s.block, s.index);
    if y.Reg? {
      match pr.site[y.v]
      case Argument =>
      case PhiSite(a, _) => if s.block != b { DominatesTrans(pr.Cfg(), a, s.block, b); }
      case BodySite(a, k) => BodyAvailable(pr, y.v, s.block, s.index, b);
    }
  }

  lemma BodyAvailable(pr: Program, v: Var, c: Node, k: nat, b: Node)
    requires pr.Valid() && v in pr.widths && v in pr.site && pr.site[v].BodySite? && pr.Available(Reg(v), c, k)
    requires b in pr.blocks && (b == c || Dominates(pr.Cfg(), c, b))
    ensures pr.Available(Reg(v), b, |pr.blocks[b].body|)
  {
    assert pr.SiteOK(v);
    var a := pr.site[v].block;
    if b != c && a != c && a != b { DominatesTrans(pr.Cfg(), a, c, b); }
  }

  /** The value of v plus the constant, as the instruction v + c holds it. */
  lemma OffsetEquation(pr: Program, r: seq<Frame>, v: Var, x: Operand)
    requires |r| > 0 && pr.Valid() && IsRun(pr, r) && Last(r).block in pr.blocks && v in pr.widths
    requires pr.Available(x, Last(r).block, |pr.blocks[Last(r).block].body|) && NegOffset(pr, v, x).Some?
    ensures InWidth(NegOffset(pr, v, x).value, pr.Mod(v)) && pr.OpMod(x) == pr.Mod(v)
    ensures pr.Val(x, Last(r).env) == Wrap(pr.Val(Reg(v), Last(r).env) + NegOffset(pr, v, x).value, pr.Mod(v))
  {
    var a := OperandEquation(pr, r, x);
    ReadAvailable(pr, x, Reg(v), Last(r).block);
  }

  lemma CompareFactTrue(pr: Program, r: seq<Frame>, v: Var, pred: Pred, left: Operand, k: int, w: nat, yes: bool)
    requires |r| > 0 && pr.Valid() && IsRun(pr, r) && Last(r).block in pr.blocks && v in pr.widths
    requires pr.Available(left, Last(r).block, |pr.blocks[Last(r).block].body|)
    requires pr.LiveOut(v, Last(r).block)
    requires 0 <= k < Pow2(w) && pr.OpMod(left) == Pow2(w)
    requires yes == Compare(pred, pr.Val(left, Last(r).env), k, pr.OpMod(left))
    ensures var f := CompareFact(pr, v, pred, left, k, yes);
            f.Some? ==> f.value.Fits(pr.Mod(v)) && f.value.Allows(pr.Val(Reg(v), Last(r).env))
  {
    var x := pr.Val(Reg(v), Last(r).env);
    RunInRange(pr, r);
    EvenMod(pr, v);
    OperandInRange(pr, Reg(v), Last(r).block, |pr.blocks[Last(r).block].body|, Last(r).env);
    if NegOffset(pr, v, left).Some? { OffsetEquation(pr, r, v, left); }
    CompareFactAllows(pr, v, pred, left, k, yes, x, pr.Val(left, Last(r).env));
  }

  /** The same without the run: x is the value of v, and y that of the operand compared. */
  lemma CompareFactAllows(pr: Program, v: Var, pred: Pred, left: Operand, k: int, yes: bool, x: int, y: int)
    requires pr.Mod(v) >= 2 && pr.Mod(v) % 2 == 0 && InWidth(x, pr.Mod(v))
    requires left == Reg(v) ==> y == x
    requires NegOffset(pr, v, left).Some? ==>
               InWidth(NegOffset(pr, v, left).value, pr.Mod(v)) && y == Wrap(x + NegOffset(pr, v, left).value, pr.Mod(v))
    requires left == Reg(v) || NegOffset(pr, v, left).Some? ==> InWidth(k, pr.Mod(v)) && yes == Compare(pred, y, k, pr.Mod(v))
    ensures var f := CompareFact(pr, v, pred, left, k, yes);
            f.Some? ==> f.value.Fits(pr.Mod(v)) && f.value.Allows(x)
  {
    hide NegOffset, MakeICmpRegion, Wrap, Single, Subtract, Inverse, Program.Mod, Get, GetNot, Compare;
    var m := pr.Mod(v);
    var off := if pred == ULT then NegOffset(pr, v, left) else None;
    if left == Reg(v) || off.Some? {
      GetExact(k, m, x);
      CompareEquality(pred, y, k, m);
      CompareRange(pred, k, m, x, if off.Some? then off.value else 0, off.Some?, yes);
    }
  }

  lemma CompareEquality(p: Pred, x: int, c: int, m: nat)
    ensures p == EQ ==> (Compare(p, x, c, m) <==> x == c)
    ensures p == NE ==> (Compare(p, x, c, m) <==> x != c)
  {
  }

  /** The region, shifted by the offset and inverted for the false edge, allows the value. */
  lemma CompareRange(pred: Pred, k: int, m: nat, x: int, c: int, shift: bool, yes: bool)
    requires m >= 2 && m % 2 == 0 && InWidth(k, m) && InWidth(x, m) && InWidth(c, m)
    requires yes == Compare(pred, if shift then Wrap(x + c, m) else x, k, m)
    ensures MakeICmpRegion(pred, Single(k, m)).Valid() && MakeICmpRegion(pred, Single(k, m)).m == m
    ensures var region := MakeICmpRegion(pred, Single(k, m));
            var shifted := if shift then Subtract(region, c) else region;
            var r := if yes then shifted else Inverse(shifted);
            r.Valid() && r.m == m && r.Contains(x)
  {
    hide MakeICmpRegion, Compare, Wrap, Single, Subtract, Inverse;
    SingleContains(k, m);
    assert Single(k, m).m == m by { SingleWidth(k, m); }
    var region := MakeICmpRegion(pred, Single(k, m));
    RegionExact(pred, k, m, if shift then Wrap(x + c, m) else x);
    SubtractExact(region, c, x);
    SubtractWidth(region, c);
    InverseExact(if shift then Subtract(region, c) else region, x);
    InverseWidth(region);
    InverseWidth(Subtract(region, c));
  }

  lemma SingleWidth(k: int, m: nat)
    requires m > 0
    ensures Single(k, m).m == m
  {
  }

  lemma SubtractWidth(r: Range, c: int)
    requires r.m > 0
    ensures Subtract(r, c).m == r.m
  {
  }

  lemma InverseWidth(r: Range)
    ensures Inverse(r).m == r.m
  {
  }

  lemma BranchFactTrue(pr: Program, r: seq<Frame>, v: Var, c: Operand)
    requires |r| > 0 && pr.Valid() && IsRun(pr, r) && Last(r).block in pr.blocks && v in pr.widths
    requires pr.Available(c, Last(r).block, |pr.blocks[Last(r).block].body|) && pr.OpMod(c) == 2
    requires pr.LiveOut(v, Last(r).block)
    ensures var f := BranchFact(pr, v, c, pr.Val(c, Last(r).env) != 0);
            f.Some? ==> f.value.Fits(pr.Mod(v)) && f.value.Allows(pr.Val(Reg(v), Last(r).env))
  {
    var b := Last(r).block;
    var yes := pr.Val(c, Last(r).env) != 0;
    RunInRange(pr, r);
    OperandInRange(pr, c, b, |pr.blocks[b].body|, Last(r).env);
    if c == Reg(v) {
      GetExact(if yes then 1 else 0, 2, pr.Val(c, Last(r).env));
    } else {
      match InstrOf(pr, c)
      case Some(ICmp(pred, left, Const(k, w))) =>
        var a := OperandEquation(pr, r, c);
        ReadAvailable(pr, c, left, b);
        assert Const(k, w) in Reads(InstrOf(pr, c).value);
        ReadAvailable(pr, c, Const(k, w), b);
        ICmpValue(pr, r, c, pred, left, k, w, a);
        CompareFactTrue(pr, r, v, pred, left, k, w, yes);
      case _ =>
    }
  }

  lemma ICmpValue(pr: Program, r: seq<Frame>, c: Operand, pred: Pred, left: Operand, k: int, w: nat, a: int)
    requires |r| > 0 && pr.Valid() && InstrOf(pr, c) == Some(ICmp(pred, left, Const(k, w))) && pr.OpMod(c) == 2
    requires pr.DefOK(pr.site[c.v].block, pr.site[c.v].index)
    requires EquationWith(pr, InstrOf(pr, c).value, c.v, Last(r).env, a)
    ensures 0 <= k < Pow2(w) && pr.OpMod(left) == Pow2(w)
    ensures (pr.Val(c, Last(r).env) != 0) == Compare(pred, pr.Val(left, Last(r).env), k, pr.OpMod(left))
  {
  }

  /** What a terminator says about v on the edge it takes is true of v. */
  lemma EdgeFactTrue(pr: Program, r: seq<Frame>, v: Var, dest: Node)
    requires |r| > 0 && pr.Valid() && IsRun(pr, r) && v in pr.widths && pr.LiveOut(v, Last(r).block)
    requires pr.Goes(Last(r).block, Last(r).env, dest)
    ensures var f := EdgeValueLocal(pr, v, Last(r).block, dest);
            f.Some? ==> f.value.Fits(pr.Mod(v)) && f.value.Allows(pr.Val(Reg(v), Last(r).env))
  {
    var b := Last(r).block;
    assert pr.BlockOK(b) && pr.TermOK(b);
    match pr.blocks[b].term
    case CondBr(c, t, f) => if t != f { BranchFactTrue(pr, r, v, c); }
    case Switch(c, d, cs) => if c == Reg(v) { SwitchFactTrue(pr, r, v, dest, d, cs); }
    case _ =>
  }

  lemma SwitchFactTrue(pr: Program, r: seq<Frame>, v: Var, dest: Node, d: Node, cs: seq<SwitchCase>)
    requires |r| > 0 && pr.Valid() && IsRun(pr, r) && v in pr.widths && pr.LiveOut(v, Last(r).block)
    requires pr.blocks[Last(r).block].term == Switch(Reg(v), d, cs)
    requires pr.Goes(Last(r).block, Last(r).env, dest)
    ensures var f := EdgeValueLocal(pr, v, Last(r).block, dest);
            f.Some? ==> f.value.Fits(pr.Mod(v)) && f.value.Allows(pr.Val(Reg(v), Last(r).env))
  {
    var b := Last(r).block;
    var m := pr.Mod(v);
    var x := pr.Val(Reg(v), Last(r).env);
    assert pr.BlockOK(b) && pr.TermOK(b);
    RunInRange(pr, r);
    OperandInRange(pr, Reg(v), b, |pr.blocks[b].body|, Last(r).env);
    if CasesOK(cs, m) {
      var start := if d == dest then FullSet(m) else EmptySet(m);
      SwitchCovers(pr, cs, d, dest, start, m, x);
    }
  }

  // ----- Edge facts have the value's width, whether or not an execution gets there -----

  lemma OffsetWidth(pr: Program, v: Var, x: Operand, b: Node)
    requires pr.Valid() && b in pr.blocks && v in pr.widths && pr.Available(x, b, |pr.blocks[b].body|)
    requires NegOffset(pr, v, x).Some?
    ensures InWidth(NegOffset(pr, v, x).value, pr.Mod(v))
  {
    ReadAvailable(pr, x, Reg(v), b);
  }

  lemma CompareFits(pr: Program, v: Var, pred: Pred, left: Operand, k: int, yes: bool)
    requires pr.Mod(v) >= 2 && pr.Mod(v) % 2 == 0
    requires NegOffset(pr, v, left).Some? ==> InWidth(NegOffset(pr, v, left).value, pr.Mod(v))
    requires left == Reg(v) || NegOffset(pr, v, left).Some? ==> InWidth(k, pr.Mod(v))
    ensures var f := CompareFact(pr, v, pred, left, k, yes);
            f.Some? ==> f.value.Fits(pr.Mod(v))
  {
    hide NegOffset, MakeICmpRegion, Wrap, Single, Subtract, Inverse, Program.Mod, Get, GetNot, Compare;
    var m := pr.Mod(v);
    var off := if pred == ULT then NegOffset(pr, v, left) else None;
    if left == Reg(v) || off.Some? {
      GetExact(k, m, 0);
      RegionFits(pred, k, m, if off.Some? then off.value else 0, off.Some?, yes);
    }
  }

  lemma RegionFits(pred: Pred, k: int, m: nat, c: int, shift: bool, yes: bool)
    requires m >= 2 && m % 2 == 0 && InWidth(k, m) && InWidth(c, m)
    ensures Single(k, m).Valid()
    ensures var region := MakeICmpRegion(pred, Single(k, m));
            var shifted := if shift then Subtract(region, c) else region;
            var r := if yes then shifted else Inverse(shifted);
            region.Valid() && region.m == m && r.Valid() && r.m == m
  {
    hide MakeICmpRegion, Wrap, Single, Subtract, Inverse;
    SingleContains(k, m);
    SingleWidth(k, m);
    RegionExact(pred, k, m, 0);
    var region := MakeICmpRegion(pred, Single(k, m));
    SubtractWidth(region, c);
    SubtractExact(region, c, 0);
    InverseExact(if shift then Subtract(region, c) else region, 0);
    InverseWidth(region);
    InverseWidth(Subtract(region, c));
  }

  lemma EdgeFits(pr: Program, v: Var, from: Node, dest: Node)
    requires pr.Valid() && v in pr.widths && pr.LiveOut(v, from)
    ensures var f := EdgeValueLocal(pr, v, from, dest);
            f.Some? ==> f.value.Fits(pr.Mod(v))
  {
    assert pr.BlockOK(from) && pr.TermOK(from);
    match pr.blocks[from].term
    case CondBr(c, t, f) =>
      if t != f { BranchFits(pr, v, from, c, t == dest); }
    case _ =>
  }

  lemma BranchFits(pr: Program, v: Var, from: Node, c: Operand, yes: bool)
    requires pr.Valid() && v in pr.widths && from in pr.blocks
    requires pr.Available(c, from, |pr.blocks[from].body|) && pr.OpMod(c) == 2
    ensures var f := BranchFact(pr, v, c, yes);
            f.Some? ==> f.value.Fits(pr.Mod(v))
  {
    EvenMod(pr, v);
    GetExact(if yes then 1 else 0, 2, 0);
    if c != Reg(v) {
      match InstrOf(pr, c)
      case Some(ICmp(pred, left, Const(k, w))) =>
        ReadAvailable(pr, c, left, from);
        assert Const(k, w) in Reads(InstrOf(pr, c).value);
        ReadAvailable(pr, c, Const(k, w), from);
        if NegOffset(pr, v, left).Some? {
          OffsetWidth(pr, v, left, from);
          ReadAvailable(pr, left, Reg(v), from);
        }
        CompareFits(pr, v, pred, left, k, yes);
      case _ =>
    }
  }

  // ----- Answering a comparison -----

  datatype Tristate = Unknown | False | True

  /** What a range says about a comparison with the constant c. */
  function PredicateOfRange(p: Pred, r: Range, c: int): Tristate
    requires r.Valid()
  {
    if p == EQ && !r.Contains(c) then False
    else if p == EQ && r.IsSingleElement() && r.Contains(c) then True
    else if p == NE && !r.Contains(c) then True
    else if p == NE && r.IsSingleElement() && r.Contains(c) then False
    else
      var yes := MakeConstantRange(p, c, r.m);
      if ContainsRange(yes, r) then True
      else if ContainsRange(Inverse(yes), r) then False
      else Unknown
  }

  /** The answer is right for every value in the range. */
  lemma PredicateRight(p: Pred, r: Range, c: int, x: int)
    requires r.Valid() && r.m % 2 == 0 && InWidth(c, r.m) && InWidth(x, r.m) && r.Contains(x)
    ensures PredicateOfRange(p, r, c) == True ==> Compare(p, x, c, r.m)
    ensures PredicateOfRange(p, r, c) == False ==> !Compare(p, x, c, r.m)
  {
    hide MakeConstantRange, Wrap, Inverse, Range.IsSingleElement, ContainsRange;
    var yes := MakeConstantRange(p, c, r.m);
    ConstantRangeExact(p, c, r.m, x);
    InverseExact(yes, x);
    InverseWidth(yes);
    if r.IsSingleElement() && r.Contains(c) { SingleMember(r, c, x); }
    if ContainsRange(yes, r) { ContainsRangeSound(yes, r, x); }
    if ContainsRange(Inverse(yes), r) { ContainsRangeSound(Inverse(yes), r, x); }
  }

  lemma SingleMember(r: Range, c: int, x: int)
    requires r.Valid() && r.IsSingleElement() && InWidth(c, r.m) && InWidth(x, r.m) && r.Contains(c) && r.Contains(x)
    ensures x == c
  {
    hide Wrap;
    if r.lo + 1 == r.m { WrapWhole(r.m); } else { WrapSmall(r.lo + 1, r.m); }
  }
}
