/** Addresses computed by chains of address arithmetic, and what their symbolic form means. */
module GepExpressions {
  import opened ConstantRange
  import opened Words

  datatype BinOp = Plus | Times | ShiftLeft | BitwiseOr

  /** Integer values of 64 bits. Anything but the four operators is a leaf. */
  datatype Expr = Leaf(id: int) | Literal(c: nat) | Bin(id: int, op: BinOp, lhs: Expr, rhs: Expr)

  /** What the leaves and the objects stand for in one execution. */
  datatype Env = Env(vals: int -> int, bases: int -> int)

  function Val(env: Env, e: Expr): (v: nat)
    ensures v < WORD
  {
    match e
    case Leaf(id) => W(env.vals(id))
    case Literal(c) => W(c)
    case Bin(_, op, l, r) => Apply(op, Val(env, l), Val(env, r))
  }

  /** Shifting out all bits leaves zero. */
  function Apply(op: BinOp, x: nat, y: nat): (v: nat)
    ensures v < WORD
  {
    match op
    case Plus => W(x + y)
    case Times => W(x * y)
    case ShiftLeft => W(x * Pow2(y))
    case BitwiseOr => W(BitOr(x, y))
  }

  /** The analysis that knows which bits of a value are zero. */
  type ZeroBits = (Expr, nat) -> bool

  ghost predicate Sound(masked: ZeroBits) {
    forall env: Env, x: Expr, c: nat {:trigger masked(x, c), Val(env, x)} :: masked(x, c) ==> BitAnd(Val(env, x), W(c)) == 0
  }

  // ----- Linear form of an index -----

  /** scale * v + off */
  datatype Linear = Linear(v: Expr, scale: nat, off: nat)

  function Itself(e: Expr): Linear { Linear(e, W(1), W(0)) }

  /** The analysis gives up after six levels. */
  function GetLinearExpression(masked: ZeroBits, e: Expr, depth: nat): (l: Linear)
    requires depth <= 6
    decreases 6 - depth
  {
    if depth == 6 || !e.Bin? || !e.rhs.Literal? then Itself(e)
    else
      var c := W(e.rhs.c);
      match e.op
      case BitwiseOr =>
        if !masked(e.lhs, e.rhs.c) then Itself(e)
        else
          var l := GetLinearExpression(masked, e.lhs, depth + 1);
          l.(off := W(l.off + c))
      case Plus =>
        var l := GetLinearExpression(masked, e.lhs, depth + 1);
        l.(off := W(l.off + c))
      case Times =>
        var l := GetLinearExpression(masked, e.lhs, depth + 1);
        l.(scale := W(l.scale * c), off := W(l.off * c))
      case ShiftLeft =>
        var l := GetLinearExpression(masked, e.lhs, depth + 1);
        l.(scale := W(l.scale * Pow2(c)), off := W(l.off * Pow2(c)))
  }

  ghost predicate Equals(env: Env, e: Expr, l: Linear) { Val(env, e) == W(l.scale * Val(env, l.v) + l.off) }

  lemma ItselfEquals(env: Env, e: Expr)
    ensures Equals(env, e, Itself(e))
  {
    WordBig();
    WSmall(0);
    WSmall(1);
    WSmall(Val(env, e));
    hide Wrap, Pow2;
  }

  /** Adding to both sides. */
  lemma PlusForm(x: int, t: int, o: int, c: int)
    requires x == W(t + o)
    ensures W(x + c) == W(t + W(o + c))
  {
    hide W, Pow2;
    WAdd(t + o, c);
    WAdd(o + c, t);
    assert W(o + c) + t == t + W(o + c) && (o + c) + t == (t + o) + c;
  }

  lemma WordForm(p: int, v: int, q: int)
    ensures W(p * v + q) == W(W(p) * v + W(q))
  {
    hide W, Pow2;
    WMul(p, v);
    WSame(W(p) * v, p * v, q);
    WSwap(q, W(p) * v);
  }

  lemma WSwap(q: int, r: int)
    ensures W(r + q) == W(r + W(q))
  {
    hide W, Pow2;
    WAdd(q, r);
    assert q + r == r + q && W(q) + r == r + W(q);
  }

  /** Multiplying both sides. */
  lemma TimesForm(x: int, s: int, v: int, o: int, c: int)
    requires x == W(s * v + o)
    ensures W(x * c) == W(W(s * c) * v + W(o * c))
  {
    hide W, Pow2;
    Multiply3(s, v, o, c);
    ScaleBoth(x, s * v + o, c, s * c, v, o * c);
  }

  lemma ScaleBoth(x: int, t: int, c: int, p: int, v: int, q: int)
    requires x == W(t) && t * c == p * v + q
    ensures W(x * c) == W(W(p) * v + W(q))
  {
    hide W, Pow2;
    WMul(t, c);
    WordForm(p, v, q);
  }

  lemma Multiply3(s: int, v: int, o: int, c: int)
    ensures (s * v + o) * c == (s * c) * v + o * c
  {
    Distribute(s * v, o, c);
    Rearrange(s, v, c);
  }

  /** The linear form has the value of the expression, in every execution. */
  lemma {:induction false} LinearRight(masked: ZeroBits, e: Expr, depth: nat, env: Env)
    requires Sound(masked) && depth <= 6
    ensures Equals(env, e, GetLinearExpression(masked, e, depth))
    decreases 6 - depth
  {
    hide W, BitOr, BitAnd, Sound, Equals, Val, Apply, Pow2;
    ItselfEquals(env, e);
    if depth < 6 && e.Bin? && e.rhs.Literal? {
      LinearRight(masked, e.lhs, depth + 1, env);
      var l := GetLinearExpression(masked, e.lhs, depth + 1);
      match e.op
      case BitwiseOr => if masked(e.lhs, e.rhs.c) { OrCase(masked, e, l, env); }
      case Plus => PlusCase(e, l, env);
      case Times => TimesCase(e, l, env);
      case ShiftLeft => ShiftCase(e, l, env);
    }
  }

  lemma ValBin(env: Env, e: Expr)
    requires e.Bin? && e.rhs.Literal?
    ensures e.op == Plus ==> Val(env, e) == W(Val(env, e.lhs) + W(e.rhs.c))
    ensures e.op == Times ==> Val(env, e) == W(Val(env, e.lhs) * W(e.rhs.c))
    ensures e.op == ShiftLeft ==> Val(env, e) == W(Val(env, e.lhs) * Pow2(W(e.rhs.c)))
    ensures e.op == BitwiseOr ==> Val(env, e) == W(BitOr(Val(env, e.lhs), W(e.rhs.c)))
  {
    hide W, Pow2, BitOr;
    assert Val(env, e) == Apply(e.op, Val(env, e.lhs), Val(env, e.rhs));
    assert Val(env, e.rhs) == W(e.rhs.c);
  }

  lemma PlusCase(e: Expr, l: Linear, env: Env)
    requires e.Bin? && e.rhs.Literal? && e.op == Plus && Equals(env, e.lhs, l)
    ensures Equals(env, e, l.(off := W(l.off + W(e.rhs.c))))
  {
    hide W, Val, BitOr, BitAnd, Pow2;
    ValBin(env, e);
    PlusForm(Val(env, e.lhs), l.scale * Val(env, l.v), l.off, W(e.rhs.c));
  }

  lemma OrCase(masked: ZeroBits, e: Expr, l: Linear, env: Env)
    requires e.Bin? && e.rhs.Literal? && e.op == BitwiseOr && Equals(env, e.lhs, l)
    requires Sound(masked) && masked(e.lhs, e.rhs.c)
    ensures Equals(env, e, l.(off := W(l.off + W(e.rhs.c))))
  {
    hide W, Val, BitOr, BitAnd, Pow2;
    ValBin(env, e);
    PlusForm(Val(env, e.lhs), l.scale * Val(env, l.v), l.off, W(e.rhs.c));
    OrIsSum(Val(env, e.lhs), W(e.rhs.c));
  }

  lemma TimesCase(e: Expr, l: Linear, env: Env)
    requires e.Bin? && e.rhs.Literal? && e.op == Times && Equals(env, e.lhs, l)
    ensures Equals(env, e, l.(scale := W(l.scale * W(e.rhs.c)), off := W(l.off * W(e.rhs.c))))
  {
    hide W, Val, BitOr, BitAnd, Pow2;
    ValBin(env, e);
    TimesForm(Val(env, e.lhs), l.scale, Val(env, l.v), l.off, W(e.rhs.c));
  }

  lemma ShiftCase(e: Expr, l: Linear, env: Env)
    requires e.Bin? && e.rhs.Literal? && e.op == ShiftLeft && Equals(env, e.lhs, l)
    ensures Equals(env, e, l.(scale := W(l.scale * Pow2(W(e.rhs.c))), off := W(l.off * Pow2(W(e.rhs.c)))))
  {
    hide W, Val, BitOr, BitAnd, Pow2;
    ValBin(env, e);
    TimesForm(Val(env, e.lhs), l.scale, Val(env, l.v), l.off, Pow2(W(e.rhs.c)));
  }

  /** Can the next operator be taken off? */
  predicate CanPeel(masked: ZeroBits, e: Expr) {
    e.Bin? && e.rhs.Literal? && (e.op == BitwiseOr ==> masked(e.lhs, e.rhs.c))
  }

  /** Operators on the way down the left operands. */
  function LeftDepth(e: Expr): nat { if e.Bin? then 1 + LeftDepth(e.lhs) else 0 }

  /** The variable that is left cannot be taken apart any further, unless six operators have been taken off. */
  lemma {:induction false} LinearStops(masked: ZeroBits, e: Expr, depth: nat)
    requires depth <= 6
    ensures var v := GetLinearExpression(masked, e, depth).v;
            LeftDepth(v) <= LeftDepth(e) && (CanPeel(masked, v) ==> LeftDepth(e) == LeftDepth(v) + 6 - depth)
    decreases 6 - depth
  {
    hide W, Pow2;
    if depth < 6 && CanPeel(masked, e) { LinearStops(masked, e.lhs, depth + 1); }
  }

  // ----- Pointers -----

  /** One index: a field of a struct, at its offset, or an element of so many bytes. */
  datatype Index = Field(no: nat, offset: nat) | Element(size: nat, e: Expr)

  /** Simplified stands for an instruction that another analysis has found equal to a pointer. */
  datatype Ptr =
    | Object(id: int)
    | BitCast(p: Ptr)
    | GlobalAlias(id: int, overridable: bool, p: Ptr)
    | Simplified(id: int, p: Ptr)
    | Gep(id: int, p: Ptr, sized: bool, indices: seq<Index>)

  /** The first field of a struct is at its start. */
  ghost predicate WellTyped(p: Ptr) {
    match p
    case Object(_) => true
    case BitCast(q) => WellTyped(q)
    case GlobalAlias(_, _, q) => WellTyped(q)
    case Simplified(_, q) => WellTyped(q)
    case Gep(_, q, _, xs) =>
      WellTyped(q) && forall k {:trigger xs[k]} :: 0 <= k < |xs| && xs[k].Field? && xs[k].no == 0 ==> xs[k].offset == 0
  }

  function IndexOffset(env: Env, i: Index): int {
    match i
    case Field(_, offset) => offset
    case Element(size, e) => size * Val(env, e)
  }

  function IndexSum(env: Env, xs: seq<Index>): int {
    if xs == [] then 0 else IndexOffset(env, xs[0]) + IndexSum(env, xs[1..])
  }

  function Addr(env: Env, p: Ptr): (a: nat)
    ensures a < WORD
  {
    match p
    case Object(id) => W(env.bases(id))
    case BitCast(q) => Addr(env, q)
    case GlobalAlias(id, overridable, q) => if overridable then W(env.bases(id)) else Addr(env, q)
    case Simplified(_, q) => Addr(env, q)
    case Gep(_, q, _, xs) => W(Addr(env, q) + IndexSum(env, xs))
  }

  // ----- Symbolic offsets -----

  datatype VarIndex = VarIndex(v: Expr, scale: nat)

  function VarSum(env: Env, vars: seq<VarIndex>): int {
    if vars == [] then 0 else VarSum(env, vars[..|vars| - 1]) + Term(env, vars[|vars| - 1])
  }

  /** Every value is listed once, with a scale that is a word and not zero. */
  ghost predicate Proper(vars: seq<VarIndex>) {
    && (forall i {:trigger vars[i]} :: 0 <= i < |vars| ==> 0 < vars[i].scale < WORD)
    && forall i, j {:trigger vars[i], vars[j]} :: 0 <= i < j < |vars| ==> vars[i].v != vars[j].v
  }

  lemma VarSumAppend(env: Env, vars: seq<VarIndex>, x: VarIndex)
    ensures VarSum(env, vars + [x]) == VarSum(env, vars) + Term(env, x)
  {
    assert (vars + [x])[..|vars|] == vars;
  }

  function Term(env: Env, x: VarIndex): int { x.scale * Val(env, x.v) }

  lemma {:induction false} VarSumRemove(env: Env, vars: seq<VarIndex>, j: nat)
    requires j < |vars|
    ensures VarSum(env, vars) == VarSum(env, vars[..j] + vars[j + 1..]) + Term(env, vars[j])
    decreases |vars|
  {
    hide Term;
    var n := |vars| - 1;
    if j < n {
      var init := vars[..n];
      VarSumRemove(env, init, j);
      assert vars[..j] + vars[j + 1..] == (init[..j] + init[j + 1..]) + [vars[n]];
      VarSumAppend(env, init[..j] + init[j + 1..], vars[n]);
    } else {
      assert vars[..j] + vars[j + 1..] == vars[..n];
    }
  }

  lemma {:induction false} VarSumReplace(env: Env, vars: seq<VarIndex>, j: nat, x: VarIndex)
    requires j < |vars|
    ensures VarSum(env, vars[j := x]) == VarSum(env, vars) + Term(env, x) - Term(env, vars[j])
    decreases |vars|
  {
    hide Term;
    var n := |vars| - 1;
    if j < n {
      VarSumReplace(env, vars[..n], j, x);
      assert vars[j := x][..n] == vars[..n][j := x];
    } else {
      assert vars[j := x][..n] == vars[..n];
    }
  }

  lemma ProperRemove(vars: seq<VarIndex>, j: nat)
    requires Proper(vars) && j < |vars|
    ensures Proper(vars[..j] + vars[j + 1..])
    ensures forall i {:trigger (vars[..j] + vars[j + 1..])[i]} :: 0 <= i < |vars| - 1 ==>
              (vars[..j] + vars[j + 1..])[i].v != vars[j].v
  {
    var r := vars[..j] + vars[j + 1..];
    assert forall i {:trigger r[i]} :: 0 <= i < |r| ==> r[i] == vars[if i < j then i else i + 1];
  }
}
