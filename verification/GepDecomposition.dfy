/** Taking a pointer apart into an object, a constant offset and scaled variables, and comparing two such forms. */
module GepDecomposition {
  import opened ConstantRange
  import opened Words
  import opened GepExpressions

  const MAX_LOOKUP := 6

  /** In every execution, pointer p is v plus the offsets. */
  ghost predicate Means(p: Ptr, v: Ptr, off: nat, vars: seq<VarIndex>) {
    forall env {:trigger Addr(env, p)} :: Addr(env, p) == W(Addr(env, v) + off + VarSum(env, vars))
  }

  /** The same with some indices of v still to be added. */
  ghost predicate MeansWith(p: Ptr, v: Ptr, rest: seq<Index>, off: nat, vars: seq<VarIndex>) {
    forall env {:trigger Addr(env, p)} ::
      Addr(env, p) == W(Addr(env, v) + IndexSum(env, rest) + off + VarSum(env, vars))
  }

  lemma MeansStart(p: Ptr)
    ensures Means(p, p, 0, []) && Proper([])
  {
    hide Addr, Wrap, Pow2;
    forall env ensures Addr(env, p) == W(Addr(env, p) + 0 + VarSum(env, [])) {
      WSmall(Addr(env, p));
    }
  }

  lemma EnterGep(p: Ptr, v: Ptr, off: nat, vars: seq<VarIndex>)
    requires Means(p, v, off, vars) && v.Gep?
    ensures MeansWith(p, v.p, v.indices, off, vars)
  {
    forall env ensures Addr(env, p) == W(Addr(env, v.p) + IndexSum(env, v.indices) + off + VarSum(env, vars)) {
      AddrOfGep(env, v);
      WFour(Addr(env, v.p) + IndexSum(env, v.indices), off + VarSum(env, vars));
    }
  }

  lemma AddrOfGep(env: Env, v: Ptr)
    requires v.Gep?
    ensures Addr(env, v) == W(Addr(env, v.p) + IndexSum(env, v.indices))
  {
  }

  lemma WFour(a: int, b: int)
    ensures W(W(a) + b) == W(a + b)
  {
    hide W, Pow2;
    WAdd(a, b);
  }

  lemma LeaveGep(p: Ptr, v: Ptr, off: nat, vars: seq<VarIndex>)
    requires MeansWith(p, v, [], off, vars)
    ensures Means(p, v, off, vars)
  {
    hide Addr, W, Pow2;
    forall env ensures Addr(env, p) == W(Addr(env, v) + off + VarSum(env, vars)) {
      assert IndexSum(env, []) == 0;
    }
  }

  /** A constant index moves its offset over. */
  lemma ConstantIndex(p: Ptr, v: Ptr, rest: seq<Index>, off: nat, vars: seq<VarIndex>, k: nat)
    requires MeansWith(p, v, rest, off, vars) && rest != []
    requires forall env {:trigger IndexOffset(env, rest[0])} :: W(IndexOffset(env, rest[0])) == W(k)
    ensures MeansWith(p, v, rest[1..], W(off + k), vars)
  {
    hide Addr, W, IndexOffset, IndexSum, VarSum, Pow2;
    var tail, off' := rest[1..], W(off + k);
    forall env ensures Addr(env, p) == W(Addr(env, v) + IndexSum(env, tail) + off' + VarSum(env, vars)) {
      assert W(IndexOffset(env, rest[0])) == W(k);
      ConstantIndexAt(env, p, v, rest, off, vars, k);
    }
  }

  lemma NoIndex(p: Ptr, v: Ptr, rest: seq<Index>, off: nat, vars: seq<VarIndex>)
    requires MeansWith(p, v, rest, off, vars) && rest != []
    requires forall env {:trigger IndexOffset(env, rest[0])} :: W(IndexOffset(env, rest[0])) == W(0)
    ensures MeansWith(p, v, rest[1..], off, vars)
  {
    hide Addr, W, IndexOffset, IndexSum, VarSum, Pow2;
    var tail := rest[1..];
    forall env ensures Addr(env, p) == W(Addr(env, v) + IndexSum(env, tail) + off + VarSum(env, vars)) {
      assert W(IndexOffset(env, rest[0])) == W(0);
      ConstantIndexAt(env, p, v, rest, off, vars, 0);
    }
  }

  lemma MeansWithAt(env: Env, p: Ptr, v: Ptr, rest: seq<Index>, off: nat, vars: seq<VarIndex>)
    requires MeansWith(p, v, rest, off, vars)
    ensures Addr(env, p) == W(Addr(env, v) + IndexSum(env, rest) + off + VarSum(env, vars))
  {
    hide Addr, W, IndexSum, VarSum;
  }

  lemma ConstantIndexAt(env: Env, p: Ptr, v: Ptr, rest: seq<Index>, off: nat, vars: seq<VarIndex>, k: nat)
    requires MeansWith(p, v, rest, off, vars) && rest != [] && W(IndexOffset(env, rest[0])) == W(k)
    ensures Addr(env, p) == W(Addr(env, v) + IndexSum(env, rest[1..]) + W(off + k) + VarSum(env, vars))
    ensures W(k) == W(0) ==> Addr(env, p) == W(Addr(env, v) + IndexSum(env, rest[1..]) + off + VarSum(env, vars))
  {
    hide Addr, W, IndexOffset, IndexSum, VarSum, Pow2, MeansWith;
    IndexSumHead(env, rest);
    MeansWithAt(env, p, v, rest, off, vars);
    MoveOver(Addr(env, v), IndexOffset(env, rest[0]), IndexSum(env, rest[1..]), off, VarSum(env, vars), k);
  }

  lemma IndexSumHead(env: Env, xs: seq<Index>)
    requires xs != []
    ensures IndexSum(env, xs) == IndexOffset(env, xs[0]) + IndexSum(env, xs[1..])
  {
    hide IndexOffset;
  }

  lemma MoveOver(a: int, i: int, r: int, off: int, s: int, k: int)
    requires W(i) == W(k)
    ensures W(a + (i + r) + off + s) == W(a + r + W(off + k) + s)
    ensures W(k) == W(0) ==> W(a + (i + r) + off + s) == W(a + r + off + s)
  {
    hide W, Pow2;
    WSame(i, k, a + r + off + s);
    WAdd(off + k, a + r + s);
    if W(k) == W(0) { WSame(k, 0, a + r + off + s); }
  }

  /** What one index of an element adds: a constant and a scaled variable. */
  lemma ElementOffset(masked: ZeroBits, env: Env, size: nat, e: Expr)
    requires Sound(masked)
    ensures var l := GetLinearExpression(masked, e, 0);
            W(size * Val(env, e)) == W(W(l.scale * size) * Val(env, l.v) + W(l.off * size))
  {
    hide W, Val, Sound, GetLinearExpression, Pow2;
    LinearRight(masked, e, 0, env);
    var l := GetLinearExpression(masked, e, 0);
    TimesForm(Val(env, e), l.scale, Val(env, l.v), l.off, size);
    Commute(size, Val(env, e));
  }

  /** A variable index moves over too. */
  lemma VariableIndex(masked: ZeroBits, p: Ptr, v: Ptr, rest: seq<Index>, off: nat, vars: seq<VarIndex>, vars': seq<VarIndex>)
    requires Sound(masked) && MeansWith(p, v, rest, off, vars) && rest != [] && rest[0].Element?
    requires var l := GetLinearExpression(masked, rest[0].e, 0);
             Adds(vars, vars', VarIndex(l.v, W(l.scale * rest[0].size)))
    ensures var l := GetLinearExpression(masked, rest[0].e, 0);
            MeansWith(p, v, rest[1..], W(off + l.off * rest[0].size), vars')
  {
    hide Addr, W, Val, VarSum, Sound, GetLinearExpression, Pow2;
    var l := GetLinearExpression(masked, rest[0].e, 0);
    var x := VarIndex(l.v, W(l.scale * rest[0].size));
    var o := l.off * rest[0].size;
    forall env ensures Addr(env, p) == W(Addr(env, v) + IndexSum(env, rest[1..]) + W(off + o) + VarSum(env, vars')) {
      ElementOffset(masked, env, rest[0].size, rest[0].e);
      IndexSumHead(env, rest);
      assert W(VarSum(env, vars')) == W(VarSum(env, vars) + Term(env, x));
      Gather(Addr(env, v) + IndexSum(env, rest[1..]), off, VarSum(env, vars), VarSum(env, vars'),
             IndexOffset(env, rest[0]), Term(env, x), o);
    }
  }

  lemma Gather(a: int, off: int, s: int, s': int, i: int, t: int, o: int)
    requires W(i) == W(t + W(o)) && W(s') == W(s + t)
    ensures W(a + i + off + s) == W(a + W(off + o) + s')
  {
    hide W, Pow2;
    WSame(i, t + W(o), a + off + s);
    WAdd(o, t + a + off + s);
    WSame(s', s + t, a + W(off + o));
    WAdd(off + o, a + s + t);
  }

  /** vars' is vars with one more term, whatever the values. */
  ghost predicate Adds(vars: seq<VarIndex>, vars': seq<VarIndex>, x: VarIndex) {
    forall env {:trigger VarSum(env, vars')} :: W(VarSum(env, vars')) == W(VarSum(env, vars) + Term(env, x))
  }

  // ----- Merging a variable into the list -----

  lemma MergeTerm(env: Env, v: Expr, a: int, b: int, s: int)
    requires a >= 0 && b >= 0
    ensures W(s + Term(env, VarIndex(v, W(a + b)))) == W(s + Term(env, VarIndex(v, a)) + Term(env, VarIndex(v, b)))
  {
    hide W, Val, Pow2;
    Distribute(a, b, Val(env, v));
    WMul(a + b, Val(env, v));
    WSame(W(a + b) * Val(env, v), (a + b) * Val(env, v), s);
  }

  lemma ZeroTerm(env: Env, v: Expr)
    ensures Term(env, VarIndex(v, 0)) == 0
  {
  }

  /** Where v is listed, or the number of entries. */
  function Find(vars: seq<VarIndex>, v: Expr): (i: nat)
    ensures i <= |vars| && (i < |vars| ==> vars[i].v == v)
    ensures forall j {:trigger vars[j]} :: 0 <= j < i ==> vars[j].v != v
  {
    if vars == [] then 0 else if vars[0].v == v then 0 else 1 + Find(vars[1..], v)
  }

  function Without(vars: seq<VarIndex>, i: nat): seq<VarIndex>
    requires i < |vars|
  {
    vars[..i] + vars[i + 1..]
  }

  function MergedIndex(vars: seq<VarIndex>, v: Expr, scale: nat): seq<VarIndex> {
    var i := Find(vars, v);
    var rest := if i < |vars| then Without(vars, i) else vars;
    var total := if i < |vars| then W(scale + vars[i].scale) else scale;
    if total != 0 then rest + [VarIndex(v, total)] else rest
  }

  /** One variable index of scale joins the list; an entry of the same variable is merged with it. */
  method MergeIndex(vars: seq<VarIndex>, v: Expr, scale: nat) returns (vars': seq<VarIndex>)
    requires Proper(vars) && scale < WORD
    ensures Proper(vars') && Adds(vars, vars', VarIndex(v, scale))
    ensures vars' == MergedIndex(vars, v, scale)
  {
    hide W, Val, VarSum, Term, Pow2;
    vars' := vars;
    var total := scale;
    var i := 0;
    while i < |vars|
      invariant i <= |vars| && vars' == vars && total == scale
      invariant forall j :: 0 <= j < i ==> vars[j].v != v
    {
      if vars[i].v == v {
        total := W(total + vars[i].scale);
        vars' := vars[..i] + vars[i + 1..];
        ProperRemove(vars, i);
        MergedEntry(vars, i, scale);
        break;
      }
      i := i + 1;
    }
    if i == |vars| {
      NoEntry(vars, VarIndex(v, scale));
    }
    if total != 0 {
      AppendEntry(vars, vars', VarIndex(v, scale), VarIndex(v, total));
      vars' := vars' + [VarIndex(v, total)];
    } else {
      NoTotal(vars, vars', VarIndex(v, scale));
    }
  }

  /** The list less the entry, and a term of the total scale. */
  ghost predicate Equivalent(vars: seq<VarIndex>, x: VarIndex, rest: seq<VarIndex>, y: VarIndex) {
    forall env {:trigger VarSum(env, rest)} :: W(VarSum(env, rest) + Term(env, y)) == W(VarSum(env, vars) + Term(env, x))
  }

  lemma MergedEntry(vars: seq<VarIndex>, j: nat, scale: nat)
    requires j < |vars|
    ensures Equivalent(vars, VarIndex(vars[j].v, scale), vars[..j] + vars[j + 1..], VarIndex(vars[j].v, W(scale + vars[j].scale)))
  {
    hide W, Val, VarSum, Term, Pow2;
    var rest := vars[..j] + vars[j + 1..];
    forall env ensures W(VarSum(env, rest) + Term(env, VarIndex(vars[j].v, W(scale + vars[j].scale)))) ==
                       W(VarSum(env, vars) + Term(env, VarIndex(vars[j].v, scale)))
    {
      VarSumRemove(env, vars, j);
      MergeTerm(env, vars[j].v, scale, vars[j].scale, VarSum(env, rest));
      assert VarIndex(vars[j].v, vars[j].scale) == vars[j];
    }
  }

  lemma NoEntry(vars: seq<VarIndex>, x: VarIndex)
    ensures Equivalent(vars, x, vars, x)
  {
  }

  lemma AppendEntry(vars: seq<VarIndex>, rest: seq<VarIndex>, x: VarIndex, y: VarIndex)
    requires Proper(rest) && 0 < y.scale < WORD && Equivalent(vars, x, rest, y)
    requires forall i {:trigger rest[i]} :: 0 <= i < |rest| ==> rest[i].v != y.v
    ensures Proper(rest + [y]) && Adds(vars, rest + [y], x)
  {
    hide W, Val, VarSum, Term, Pow2;
    forall env ensures W(VarSum(env, rest + [y])) == W(VarSum(env, vars) + Term(env, x)) {
      VarSumAppend(env, rest, y);
      assert W(VarSum(env, rest) + Term(env, y)) == W(VarSum(env, vars) + Term(env, x));
    }
  }

  lemma NoTotal(vars: seq<VarIndex>, rest: seq<VarIndex>, x: VarIndex)
    requires Equivalent(vars, x, rest, VarIndex(x.v, 0))
    ensures Adds(vars, rest, x)
  {
    hide W, Val, VarSum, Pow2;
    forall env ensures W(VarSum(env, rest)) == W(VarSum(env, vars) + Term(env, x)) {
      ZeroTerm(env, x.v);
      assert W(VarSum(env, rest) + Term(env, VarIndex(x.v, 0))) == W(VarSum(env, vars) + Term(env, x));
    }
  }

  // ----- Taking a pointer apart -----

  predicate IsZeroIndex(i: Index) { if i.Field? then i.no == 0 else i.e.Literal? && W(i.e.c) == 0 }

  predicate HasAllZeroIndices(xs: seq<Index>) { forall k :: 0 <= k < |xs| ==> IsZeroIndex(xs[k]) }

  /** What has been gathered from the indices. */
  datatype Offsets = Offsets(off: nat, vars: seq<VarIndex>)

  function WithIndex(masked: ZeroBits, i: Index, o: Offsets): Offsets {
    match i
    case Field(no, offset) => if no != 0 then o.(off := W(o.off + offset)) else o
    case Element(size, Literal(c)) => if W(c) != 0 then o.(off := W(o.off + size * W(c))) else o
    case Element(size, e) =>
      var l := GetLinearExpression(masked, e, 0);
      Offsets(W(o.off + l.off * size), MergedIndex(o.vars, l.v, W(l.scale * size)))
  }

  function WithIndices(masked: ZeroBits, xs: seq<Index>, o: Offsets): Offsets {
    if xs == [] then o else WithIndex(masked, xs[|xs| - 1], WithIndices(masked, xs[..|xs| - 1], o))
  }

  datatype Parts = Parts(v: Ptr, o: Offsets)

  /** The parts of a pointer, n steps on. */
  function Decomposed(masked: ZeroBits, v: Ptr, o: Offsets, layout: bool, n: nat): Parts {
    if n == 0 then Parts(v, o)
    else
      match v
      case Object(_) => Parts(v, o)
      case BitCast(q) => Decomposed(masked, q, o, layout, n - 1)
      case GlobalAlias(_, overridable, q) => if overridable then Parts(v, o) else Decomposed(masked, q, o, layout, n - 1)
      case Simplified(_, q) => Decomposed(masked, q, o, layout, n - 1)
      case Gep(_, q, sized, xs) =>
        if !sized || (!layout && !HasAllZeroIndices(xs)) then Parts(v, o)
        else Decomposed(masked, q, if layout then WithIndices(masked, xs, o) else o, layout, n - 1)
  }

  /** The parts of a pointer. */
  function PartsOf(masked: ZeroBits, p: Ptr, layout: bool): Parts { Decomposed(masked, p, Offsets(0, []), layout, MAX_LOOKUP) }

  /** One index: a field, a constant element, or a variable one. */
  method AddIndex(masked: ZeroBits, ghost p: Ptr, ghost v: Ptr, ghost rest: seq<Index>, i: Index, off: nat, vars: seq<VarIndex>)
    returns (off': nat, vars': seq<VarIndex>)
    requires rest != [] && rest[0] == i && (Sound(masked) ==> MeansWith(p, v, rest, off, vars)) && Proper(vars) && off < WORD
    requires i.Field? && i.no == 0 ==> i.offset == 0
    ensures Sound(masked) ==> MeansWith(p, v, rest[1..], off', vars')
    ensures Proper(vars') && off' < WORD
    ensures Offsets(off', vars') == WithIndex(masked, i, Offsets(off, vars))
  {
    hide W, Addr, Proper, MeansWith, Sound, GetLinearExpression, Val, VarSum, Pow2;
    off', vars' := off, vars;
    match i
    case Field(no, offset) =>
      if Sound(masked) { FieldOffset(p, v, rest, off, vars); }
      if no != 0 {
        off' := W(off + offset);
      }
    case Element(size, Literal(c)) =>
      if Sound(masked) { LiteralOffset(p, v, rest, off, vars); }
      if W(c) != 0 {
        off' := W(off + size * W(c));
      }
    case Element(size, e) =>
      var l := GetLinearExpression(masked, e, 0);
      off' := W(off + l.off * size);
      vars' := MergeIndex(vars, l.v, W(l.scale * size));
      if Sound(masked) { VariableIndex(masked, p, v, rest, off, vars, vars'); }
  }

  lemma FieldOffset(p: Ptr, v: Ptr, rest: seq<Index>, off: nat, vars: seq<VarIndex>)
    requires MeansWith(p, v, rest, off, vars) && rest != [] && rest[0].Field?
    requires rest[0].no == 0 ==> rest[0].offset == 0
    ensures MeansWith(p, v, rest[1..], W(off + rest[0].offset), vars)
    ensures rest[0].no == 0 ==> MeansWith(p, v, rest[1..], off, vars)
  {
    hide W, MeansWith, Pow2;
    ConstantIndex(p, v, rest, off, vars, rest[0].offset);
    if rest[0].no == 0 { NoIndex(p, v, rest, off, vars); }
  }

  lemma LiteralOffset(p: Ptr, v: Ptr, rest: seq<Index>, off: nat, vars: seq<VarIndex>)
    requires MeansWith(p, v, rest, off, vars) && rest != [] && rest[0].Element? && rest[0].e.Literal?
    ensures MeansWith(p, v, rest[1..], W(off + rest[0].size * W(rest[0].e.c)), vars)
    ensures W(rest[0].e.c) == 0 ==> MeansWith(p, v, rest[1..], off, vars)
  {
    hide W, MeansWith, IndexOffset, Pow2;
    var k := rest[0].size * W(rest[0].e.c);
    forall env ensures IndexOffset(env, rest[0]) == k {
      LiteralIndex(env, rest[0]);
    }
    ConstantIndex(p, v, rest, off, vars, k);
    if W(rest[0].e.c) == 0 {
      TimesZero(rest[0].size);
      NoIndex(p, v, rest, off, vars);
    }
  }

  lemma LiteralIndex(env: Env, i: Index)
    requires i.Element? && i.e.Literal?
    ensures IndexOffset(env, i) == i.size * W(i.e.c)
  {
    hide W, Pow2;
  }

  lemma TimesZero(a: int)
    ensures a * 0 == 0
  {
  }

  lemma ZeroIndices(p: Ptr, v: Ptr, off: nat, vars: seq<VarIndex>)
    requires Means(p, v, off, vars) && v.Gep? && WellTyped(v) && HasAllZeroIndices(v.indices)
    ensures Means(p, v.p, off, vars)
  {
    hide W, VarSum, Pow2;
    forall env ensures Addr(env, p) == W(Addr(env, v.p) + off + VarSum(env, vars)) {
      AddrOfGep(env, v);
      ZeroSum(env, v.indices);
      WAddr(env, v.p);
    }
  }

  lemma WAddr(env: Env, p: Ptr)
    ensures W(Addr(env, p)) == Addr(env, p)
  {
    WSmall(Addr(env, p));
  }

  lemma {:induction false} ZeroSum(env: Env, xs: seq<Index>)
    requires HasAllZeroIndices(xs)
    requires forall k {:trigger xs[k]} :: 0 <= k < |xs| && xs[k].Field? && xs[k].no == 0 ==> xs[k].offset == 0
    ensures IndexSum(env, xs) == 0
    decreases |xs|
  {
    hide W, Pow2;
    if xs != [] {
      assert IsZeroIndex(xs[0]);
      assert forall k {:trigger xs[1..][k]} :: 0 <= k < |xs| - 1 ==> xs[1..][k] == xs[k + 1];
      ZeroSum(env, xs[1..]);
      if xs[0].Element? { assert Val(env, xs[0].e) == 0; TimesZero(xs[0].size); }
    }
  }

  method AddIndices(masked: ZeroBits, ghost p: Ptr, v: Ptr, off: nat, vars: seq<VarIndex>)
    returns (off': nat, vars': seq<VarIndex>)
    requires v.Gep? && WellTyped(v) && (Sound(masked) ==> Means(p, v, off, vars)) && Proper(vars) && off < WORD
    ensures Sound(masked) ==> Means(p, v.p, off', vars')
    ensures Proper(vars') && off' < WORD
    ensures Offsets(off', vars') == WithIndices(masked, v.indices, Offsets(off, vars))
  {
    hide W, Addr, Proper, MeansWith, Means, Sound, VarSum, Pow2, WithIndex;
    if Sound(masked) { EnterGep(p, v, off, vars); }
    off', vars' := off, vars;
    var xs := v.indices;
    assert xs[0..] == xs && xs[..0] == [];
    for k := 0 to |xs|
      invariant Sound(masked) ==> MeansWith(p, v.p, xs[k..], off', vars')
      invariant Proper(vars') && off' < WORD
      invariant Offsets(off', vars') == WithIndices(masked, xs[..k], Offsets(off, vars))
    {
      ghost var rest := xs[k..];
      assert xs[..k + 1][..k] == xs[..k];
      assert rest[0] == xs[k] && rest[1..] == xs[k + 1..];
      off', vars' := AddIndex(masked, p, v.p, rest, xs[k], off', vars');
    }
    assert xs[..|xs|] == xs;
    if Sound(masked) {
      assert xs[|xs|..] == [];
      LeaveGep(p, v.p, off', vars');
    }
  }

  /** The object a pointer leads to, with the sum of all offsets on the way there. Chains are followed for six steps. */
  method DecomposeGEPExpression(masked: ZeroBits, p: Ptr, layout: bool) returns (v: Ptr, off: nat, vars: seq<VarIndex>)
    requires WellTyped(p)
    ensures Sound(masked) ==> Means(p, v, off, vars)
    ensures Proper(vars) && off < WORD
    ensures layout ==> v == Stripped(p, MAX_LOOKUP)
    ensures !layout ==> off == 0 && vars == []
    ensures Parts(v, Offsets(off, vars)) == PartsOf(masked, p, layout)
  {
    hide W, Addr, Sound, VarSum, HasAllZeroIndices, Pow2, WithIndices;
    MeansStart(p);
    WordBig();
    v, off, vars := p, 0, [];
    var maxLookup := MAX_LOOKUP;
    while maxLookup > 0
      invariant 0 <= maxLookup <= MAX_LOOKUP && WellTyped(v)
      invariant Sound(masked) ==> Means(p, v, off, vars)
      invariant Proper(vars) && off < WORD
      invariant layout ==> Stripped(p, MAX_LOOKUP) == Stripped(v, maxLookup)
      invariant !layout ==> off == 0 && vars == []
      invariant PartsOf(masked, p, layout) == Decomposed(masked, v, Offsets(off, vars), layout, maxLookup)
      decreases maxLookup
    {
      match v {
        case Object(_) =>
          return;
        case BitCast(q) =>
          if Sound(masked) { SameAddress(p, v, q, off, vars); }
          v := q;
        case GlobalAlias(_, overridable, q) =>
          if overridable {
            return;
          }
          if Sound(masked) { SameAddress(p, v, q, off, vars); }
          v := q;
        case Simplified(_, q) =>
          if Sound(masked) { SameAddress(p, v, q, off, vars); }
          v := q;
        case Gep(_, q, sized, xs) =>
          if !sized {
            return;
          }
          if !layout {
            if !HasAllZeroIndices(xs) {
              return;
            }
            if Sound(masked) { ZeroIndices(p, v, off, vars); }
          } else {
            off, vars := AddIndices(masked, p, v, off, vars);
          }
          v := q;
      }
      maxLookup := maxLookup - 1;
    }
  }

  lemma SameAddress(p: Ptr, v: Ptr, q: Ptr, off: nat, vars: seq<VarIndex>)
    requires Means(p, v, off, vars)
    requires v == BitCast(q) || (v.GlobalAlias? && !v.overridable && v.p == q) || (v.Simplified? && v.p == q)
    ensures Means(p, q, off, vars)
  {
    hide W, VarSum, Pow2;
    forall env ensures Addr(env, p) == W(Addr(env, q) + off + VarSum(env, vars)) {
      assert Addr(env, v) == Addr(env, q);
    }
  }

  /** The steps alone, with a layout. */
  function Stripped(p: Ptr, n: nat): Ptr {
    if n == 0 then p
    else
      match p
      case Object(_) => p
      case BitCast(q) => Stripped(q, n - 1)
      case GlobalAlias(_, overridable, q) => if overridable then p else Stripped(q, n - 1)
      case Simplified(_, q) => Stripped(q, n - 1)
      case Gep(_, q, sized, _) => if sized then Stripped(q, n - 1) else p
  }

  /** The other function that looks for the object. It follows every gep. */
  method GetUnderlyingObject(p: Ptr) returns (v: Ptr)
    ensures AllSized(p) ==> v == Stripped(p, MAX_LOOKUP)
  {
    v := p;
    for count := 0 to MAX_LOOKUP
      invariant AllSized(p) ==> AllSized(v) && Stripped(p, MAX_LOOKUP) == Stripped(v, MAX_LOOKUP - count)
    {
      match v
      case Gep(_, q, _, _) => v := q;
      case BitCast(q) => v := q;
      case GlobalAlias(_, overridable, q) =>
        if overridable {
          return;
        }
        v := q;
      case Simplified(_, q) => v := q;
      case Object(_) => return;
    }
  }

  /** No gep is into an unsized type, as the verifier of the language demands. */
  predicate AllSized(p: Ptr) {
    match p
    case Object(_) => true
    case BitCast(q) => AllSized(q)
    case GlobalAlias(_, _, q) => AllSized(q)
    case Simplified(_, q) => AllSized(q)
    case Gep(_, q, sized, _) => sized && AllSized(q)
  }

  // ----- Constant paths -----

  predicate AllConstant(xs: seq<Index>) { forall k {:trigger xs[k]} :: 0 <= k < |xs| && xs[k].Element? ==> xs[k].e.Literal? }

  /** No index is variable for n steps. */
  predicate ConstantPath(p: Ptr, n: nat) {
    n == 0 ||
    match p
    case Object(_) => true
    case BitCast(q) => ConstantPath(q, n - 1)
    case GlobalAlias(_, overridable, q) => overridable || ConstantPath(q, n - 1)
    case Simplified(_, q) => ConstantPath(q, n - 1)
    case Gep(_, q, sized, xs) => !sized || (AllConstant(xs) && ConstantPath(q, n - 1))
  }

  lemma {:induction false} ConstantIndices(masked: ZeroBits, xs: seq<Index>, o: Offsets)
    requires AllConstant(xs)
    ensures WithIndices(masked, xs, o).vars == o.vars
    decreases |xs|
  {
    hide W, GetLinearExpression, MergedIndex, Pow2;
    if xs != [] {
      var init := xs[..|xs| - 1];
      assert forall k {:trigger init[k]} :: 0 <= k < |init| ==> init[k] == xs[k];
      ConstantIndices(masked, init, o);
      assert xs[|xs| - 1].Element? ==> xs[|xs| - 1].e.Literal?;
    }
  }

  /** Constant indices leave no variable. */
  lemma {:induction false} ConstantParts(masked: ZeroBits, p: Ptr, o: Offsets, layout: bool, n: nat)
    requires ConstantPath(p, n)
    ensures Decomposed(masked, p, o, layout, n).o.vars == o.vars
    decreases n
  {
    hide WithIndices, HasAllZeroIndices;
    if n > 0 {
      match p
      case Object(_) =>
      case BitCast(q) => ConstantParts(masked, q, o, layout, n - 1);
      case GlobalAlias(_, overridable, q) => if !overridable { ConstantParts(masked, q, o, layout, n - 1); }
      case Simplified(_, q) => ConstantParts(masked, q, o, layout, n - 1);
      case Gep(_, q, sized, xs) =>
        if sized {
          ConstantIndices(masked, xs, o);
          ConstantParts(masked, q, o, layout, n - 1);
          ConstantParts(masked, q, WithIndices(masked, xs, o), layout, n - 1);
        }
    }
  }

  // ----- The difference of two symbolic offsets -----

  /** dest' is dest less src, whatever the values. */
  ghost predicate IndexDifference(dest: seq<VarIndex>, src: seq<VarIndex>, dest': seq<VarIndex>) {
    forall env {:trigger VarSum(env, dest')} :: W(VarSum(env, dest')) == W(VarSum(env, dest) - VarSum(env, src))
  }

  /** Taking one term away. */
  ghost predicate Takes(vars: seq<VarIndex>, vars': seq<VarIndex>, x: VarIndex) {
    forall env {:trigger VarSum(env, vars')} :: W(VarSum(env, vars')) == W(VarSum(env, vars) - Term(env, x))
  }

  function SubtractedIndex(dest: seq<VarIndex>, x: VarIndex): seq<VarIndex> {
    var j := Find(dest, x.v);
    if j == |dest| then dest + [VarIndex(x.v, W(0 - x.scale))]
    else if dest[j].scale != x.scale then dest[j := VarIndex(x.v, W(dest[j].scale - x.scale))]
    else Without(dest, j)
  }

  function Subtracted(dest: seq<VarIndex>, src: seq<VarIndex>): seq<VarIndex> {
    if src == [] then dest else SubtractedIndex(Subtracted(dest, src[..|src| - 1]), src[|src| - 1])
  }

  /** Equal lists cancel. */
  lemma {:induction false} EqualCancel(vars: seq<VarIndex>, n: nat)
    requires Proper(vars) && n <= |vars|
    ensures Subtracted(vars, vars[..n]) == vars[n..]
    decreases n
  {
    if n > 0 {
      EqualCancel(vars, n - 1);
      assert vars[..n][..n - 1] == vars[..n - 1];
      assert Find(vars[n - 1..], vars[n - 1].v) == 0;
      assert Without(vars[n - 1..], 0) == vars[n..];
    }
  }

  /** One entry of the other list is taken off, as a term of the opposite scale if the value is not listed. */
  method SubtractIndex(dest: seq<VarIndex>, x: VarIndex) returns (dest': seq<VarIndex>)
    requires Proper(dest) && 0 < x.scale < WORD
    ensures Proper(dest') && Takes(dest, dest', x) && dest' == SubtractedIndex(dest, x)
  {
    hide W, Val, VarSum, Term, Pow2;
    var scale: int := x.scale;
    dest' := dest;
    var j := 0;
    while j < |dest|
      invariant j <= |dest| && dest' == dest && scale == x.scale
      invariant forall i :: 0 <= i < j ==> dest[i].v != x.v
    {
      if dest[j].v == x.v {
        if dest[j].scale != scale {
          dest' := dest[j := VarIndex(x.v, W(dest[j].scale - scale))];
          ReducedEntry(dest, j, x);
        } else {
          dest' := dest[..j] + dest[j + 1..];
          ProperRemove(dest, j);
          RemovedEntry(dest, j, x);
        }
        scale := 0;
        break;
      }
      j := j + 1;
    }
    if scale != 0 {
      dest' := dest + [VarIndex(x.v, W(0 - scale))];
      NegatedEntry(dest, x);
    }
  }

  lemma ReducedEntry(dest: seq<VarIndex>, j: nat, x: VarIndex)
    requires Proper(dest) && j < |dest| && dest[j].v == x.v && dest[j].scale != x.scale && 0 < x.scale < WORD
    ensures var dest' := dest[j := VarIndex(x.v, W(dest[j].scale - x.scale))];
            Proper(dest') && Takes(dest, dest', x)
  {
    hide W, Val, VarSum, Term, Pow2;
    var y := VarIndex(x.v, W(dest[j].scale - x.scale));
    NotZero(dest[j].scale, x.scale);
    forall env ensures W(VarSum(env, dest[j := y])) == W(VarSum(env, dest) - Term(env, x)) {
      VarSumReplace(env, dest, j, y);
      TermDifference(env, x.v, dest[j].scale, x.scale, VarSum(env, dest) - Term(env, dest[j]));
      assert dest[j] == VarIndex(x.v, dest[j].scale);
    }
  }

  lemma NotZero(a: nat, b: nat)
    requires 0 < a < WORD && 0 < b < WORD && a != b
    ensures W(a - b) != 0 && W(0 - b) != 0
  {
    WrapSmall(a - b, WORD);
    WrapSmall(0 - b, WORD);
  }

  lemma TermDifference(env: Env, v: Expr, a: int, b: int, s: int)
    requires a >= 0 && b >= 0
    ensures W(s + Term(env, VarIndex(v, W(a - b)))) == W(s + Term(env, VarIndex(v, a)) - Term(env, VarIndex(v, b)))
  {
    hide W, Val, Pow2;
    Distribute(a, -b, Val(env, v));
    Negate(b, Val(env, v));
    WMul(a - b, Val(env, v));
    WSame(W(a - b) * Val(env, v), (a - b) * Val(env, v), s);
  }

  lemma Negate(b: int, v: int)
    ensures (-b) * v == -(b * v)
  {
  }

  lemma RemovedEntry(dest: seq<VarIndex>, j: nat, x: VarIndex)
    requires j < |dest| && dest[j] == x
    ensures Takes(dest, dest[..j] + dest[j + 1..], x)
  {
    hide W, Val, VarSum, Term, Pow2;
    forall env ensures W(VarSum(env, dest[..j] + dest[j + 1..])) == W(VarSum(env, dest) - Term(env, x)) {
      VarSumRemove(env, dest, j);
    }
  }

  lemma NegatedEntry(dest: seq<VarIndex>, x: VarIndex)
    requires Proper(dest) && 0 < x.scale < WORD && forall i {:trigger dest[i]} :: 0 <= i < |dest| ==> dest[i].v != x.v
    ensures Proper(dest + [VarIndex(x.v, W(0 - x.scale))]) && Takes(dest, dest + [VarIndex(x.v, W(0 - x.scale))], x)
  {
    hide W, Val, VarSum, Term, Pow2;
    var y := VarIndex(x.v, W(0 - x.scale));
    WrapSmall(0 - x.scale, WORD);
    assert 0 < W(0 - x.scale) by { NegNotZero(x.scale); }
    forall env ensures W(VarSum(env, dest + [y])) == W(VarSum(env, dest) - Term(env, x)) {
      VarSumAppend(env, dest, y);
      TermDifference(env, x.v, 0, x.scale, VarSum(env, dest));
      ZeroTerm(env, x.v);
    }
  }

  lemma NegNotZero(b: nat)
    requires 0 < b < WORD
    ensures W(0 - b) != 0
  {
    WrapSmall(0 - b, WORD);
  }

  method GetIndexDifference(dest: seq<VarIndex>, src: seq<VarIndex>) returns (dest': seq<VarIndex>)
    requires Proper(dest) && Proper(src)
    ensures Proper(dest') && IndexDifference(dest, src, dest') && dest' == Subtracted(dest, src)
  {
    hide W, Val, VarSum, Term, IndexDifference, Takes, Pow2;
    dest' := dest;
    NoDifference(dest);
    assert src[..0] == [];
    for i := 0 to |src|
      invariant Proper(dest') && IndexDifference(dest, src[..i], dest') && dest' == Subtracted(dest, src[..i])
    {
      assert src[..i + 1][..i] == src[..i];
      ghost var before := dest';
      dest' := SubtractIndex(dest', src[i]);
      assert src[..i + 1] == src[..i] + [src[i]];
      OneMore(dest, src[..i], src[i], before, dest');
    }
    assert src[..|src|] == src;
  }

  lemma NoDifference(dest: seq<VarIndex>)
    ensures IndexDifference(dest, [], dest)
  {
  }

  lemma OneMore(dest: seq<VarIndex>, src: seq<VarIndex>, x: VarIndex, a: seq<VarIndex>, b: seq<VarIndex>)
    requires IndexDifference(dest, src, a) && Takes(a, b, x)
    ensures IndexDifference(dest, src + [x], b)
  {
    hide W, Val, VarSum, Term, Pow2;
    forall env ensures W(VarSum(env, b)) == W(VarSum(env, dest) - VarSum(env, src + [x])) {
      VarSumAppend(env, src, x);
      assert W(VarSum(env, a)) == W(VarSum(env, dest) - VarSum(env, src));
      WSame(VarSum(env, a), VarSum(env, dest) - VarSum(env, src), -Term(env, x));
    }
  }
}
