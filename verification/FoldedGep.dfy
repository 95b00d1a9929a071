/** Folding constant address arithmetic: offsets are added up and turned into indices again, at the same address. */
module FoldedGep {
  import opened Options
  import opened ConstantRange

  /** Types as the target lays them out. Function types and opaque structs have no size. */
  datatype Ty =
    | Scalar(size: nat)
    | Pointer(size: nat)
    | ArrayOf(elem: Ty, count: nat)
    | StructOf(size: nat, offsets: seq<nat>, fields: seq<Ty>)
    | Unsized

  function AllocSize(t: Ty): nat {
    match t
    case Scalar(n) => n
    case Pointer(n) => n
    case ArrayOf(e, n) => AllocSize(e) * n
    case StructOf(n, _, _) => n
    case Unsized => 0
  }

  ghost predicate LaidOut(t: Ty) {
    match t
    case ArrayOf(e, _) => LaidOut(e)
    case StructOf(n, offsets, fields) =>
      && |offsets| == |fields| && (n > 0 ==> fields != []) && (fields != [] ==> offsets[0] == 0)
      && forall i {:trigger fields[i]} :: 0 <= i < |fields| ==> LaidOut(fields[i])
    case _ => true
  }

  /** An index: a number, a value, or the negation of a value. */
  datatype Index = Num(n: int) | Sym(id: int) | Neg(id: int)

  type Env = int -> int

  function IndexVal(env: Env, i: Index): int {
    match i
    case Num(n) => n
    case Sym(id) => env(id)
    case Neg(id) => -env(id)
  }

  /** Pointer constants. Difference stands for the address of p less a value. */
  datatype Ptr =
    | Global(id: int, ty: Ty)
    | Null(ty: Ty)
    | Literal(address: nat, ty: Ty)
    | Cast(p: Ptr, ty: Ty)
    | Gep(p: Ptr, indices: seq<Index>)
    | Difference(p: Ptr, id: int, ty: Ty)

  /** The type below t after some indices. */
  function TypeAt(t: Ty, xs: seq<Index>): Ty {
    if xs == [] then t
    else
      match t
      case ArrayOf(e, _) => TypeAt(e, xs[1..])
      case StructOf(_, _, fields) =>
        if xs[0].Num? && 0 <= xs[0].n < |fields| then TypeAt(fields[xs[0].n], xs[1..]) else Unsized
      case _ => Unsized
  }

  /** The offset of some indices below t. */
  function OffsetBelow(env: Env, t: Ty, xs: seq<Index>): int {
    if xs == [] then 0
    else
      match t
      case ArrayOf(e, _) => IndexVal(env, xs[0]) * AllocSize(e) + OffsetBelow(env, e, xs[1..])
      case StructOf(_, offsets, fields) =>
        if xs[0].Num? && 0 <= xs[0].n < |fields| && |offsets| == |fields|
        then offsets[xs[0].n] + OffsetBelow(env, fields[xs[0].n], xs[1..]) else 0
      case _ => 0
  }

  /** The first index steps over whole objects. */
  function IndexedOffset(env: Env, t: Ty, xs: seq<Index>): int {
    if xs == [] then 0 else IndexVal(env, xs[0]) * AllocSize(t) + OffsetBelow(env, t, xs[1..])
  }

  function Pointee(p: Ptr): Ty {
    match p
    case Global(_, t) => t
    case Null(t) => t
    case Literal(_, t) => t
    case Cast(_, t) => t
    case Gep(q, xs) => if xs == [] then Pointee(q) else TypeAt(Pointee(q), xs[1..])
    case Difference(_, _, t) => t
  }

  /** The address of p, for pointers of m addresses; globals and values are given. */
  function Addr(env: Env, globals: Env, m: nat, p: Ptr): int
    requires m > 0
  {
    match p
    case Global(id, _) => Wrap(globals(id), m)
    case Null(_) => 0
    case Literal(a, _) => Wrap(a, m)
    case Cast(q, _) => Addr(env, globals, m, q)
    case Gep(q, xs) => Wrap(Addr(env, globals, m, q) + IndexedOffset(env, Pointee(q), xs), m)
    case Difference(q, id, _) => Wrap(Addr(env, globals, m, q) - env(id), m)
  }

  ghost predicate WellTyped(p: Ptr) {
    match p
    case Global(_, t) => LaidOut(t)
    case Null(t) => LaidOut(t)
    case Literal(_, t) => LaidOut(t)
    case Cast(q, t) => WellTyped(q) && LaidOut(t)
    case Gep(q, _) => WellTyped(q)
    case Difference(q, _, t) => WellTyped(q) && LaidOut(t)
  }

  lemma {:induction false} TypeAtLaidOut(t: Ty, xs: seq<Index>)
    requires LaidOut(t)
    ensures LaidOut(TypeAt(t, xs))
    decreases |xs|
  {
    if xs != [] {
      match t
      case ArrayOf(e, _) => TypeAtLaidOut(e, xs[1..]);
      case StructOf(_, _, fields) =>
        if xs[0].Num? && 0 <= xs[0].n < |fields| { TypeAtLaidOut(fields[xs[0].n], xs[1..]); }
      case _ =>
    }
  }

  lemma {:induction false} PointeeLaidOut(p: Ptr)
    requires WellTyped(p)
    ensures LaidOut(Pointee(p))
    decreases p
  {
    if p.Gep? {
      PointeeLaidOut(p.p);
      if p.indices != [] { TypeAtLaidOut(Pointee(p.p), p.indices[1..]); }
    }
  }

  predicate AllNumbers(xs: seq<Index>) { forall i {:trigger xs[i]} :: 0 <= i < |xs| ==> xs[i].Num? }

  predicate AllZero(xs: seq<Index>) { forall i {:trigger xs[i]} :: 0 <= i < |xs| ==> xs[i] == Num(0) }

  /** Constant indices have the same offset in every execution. */
  lemma {:induction false} NumbersBelow(env: Env, env': Env, t: Ty, xs: seq<Index>)
    requires AllNumbers(xs)
    ensures OffsetBelow(env, t, xs) == OffsetBelow(env', t, xs)
    decreases |xs|
  {
    if xs != [] {
      assert xs[0].Num?;
      var r := xs[1..];
      assert forall i {:trigger r[i]} :: 0 <= i < |r| ==> r[i] == xs[i + 1];
      match t
      case ArrayOf(e, _) => NumbersBelow(env, env', e, r);
      case StructOf(_, _, fields) => if 0 <= xs[0].n < |fields| { NumbersBelow(env, env', fields[xs[0].n], r); }
      case _ =>
    }
  }

  lemma NumbersOffset(env: Env, env': Env, t: Ty, xs: seq<Index>)
    requires AllNumbers(xs)
    ensures IndexedOffset(env, t, xs) == IndexedOffset(env', t, xs)
  {
    if xs != [] {
      assert xs[0].Num?;
      var r := xs[1..];
      assert forall i {:trigger r[i]} :: 0 <= i < |r| ==> r[i] == xs[i + 1];
      NumbersBelow(env, env', t, r);
    }
  }

  /** Zero indices add nothing. */
  lemma {:induction false} ZeroBelow(env: Env, t: Ty, xs: seq<Index>)
    requires AllZero(xs) && LaidOut(t)
    ensures OffsetBelow(env, t, xs) == 0
    decreases |xs|
  {
    if xs != [] {
      assert xs[0] == Num(0);
      var r := xs[1..];
      assert forall i {:trigger r[i]} :: 0 <= i < |r| ==> r[i] == xs[i + 1];
      match t
      case ArrayOf(e, _) => ZeroBelow(env, e, r);
      case StructOf(_, _, fields) => if fields != [] { ZeroBelow(env, fields[0], r); }
      case _ =>
    }
  }

  lemma ZeroOffset(env: Env, t: Ty, xs: seq<Index>)
    requires AllZero(xs) && LaidOut(t)
    ensures IndexedOffset(env, t, xs) == 0
  {
    if xs != [] {
      assert xs[0] == Num(0);
      var r := xs[1..];
      assert forall i {:trigger r[i]} :: 0 <= i < |r| ==> r[i] == xs[i + 1];
      ZeroBelow(env, t, r);
    }
  }

  // ----- Stripping casts -----

  /** Casts, and steps by zero indices, are looked through. */
  function StripCasts(p: Ptr): Ptr {
    match p
    case Cast(q, _) => StripCasts(q)
    case Gep(q, xs) => if AllZero(xs) then StripCasts(q) else p
    case _ => p
  }

  lemma AddrSmall(env: Env, globals: Env, m: nat, p: Ptr)
    requires m > 0
    ensures 0 <= Addr(env, globals, m, p) < m && Wrap(Addr(env, globals, m, p), m) == Addr(env, globals, m, p)
    decreases p
  {
    hide IndexedOffset;
    match p
    case Cast(q, _) => AddrSmall(env, globals, m, q);
    case _ => WrapSmall(Addr(env, globals, m, p), m);
  }

  lemma {:induction false} StripKeeps(env: Env, globals: Env, m: nat, p: Ptr)
    requires m > 0 && WellTyped(p)
    ensures Addr(env, globals, m, StripCasts(p)) == Addr(env, globals, m, p) && WellTyped(StripCasts(p))
    decreases p
  {
    hide Wrap, IndexedOffset;
    match p
    case Cast(q, _) => StripKeeps(env, globals, m, q);
    case Gep(q, xs) =>
      if AllZero(xs) {
        StripKeeps(env, globals, m, q);
        PointeeLaidOut(q);
        ZeroOffset(env, Pointee(q), xs);
        AddrSmall(env, globals, m, q);
      }
    case _ =>
  }

  // ----- Offsets and indices -----

  /** One more index below t. */
  lemma {:induction false} Append(env: Env, t: Ty, xs: seq<Index>, x: Index)
    requires LaidOut(t)
    ensures TypeAt(t, xs + [x]) == TypeAt(TypeAt(t, xs), [x])
    ensures TypeAt(t, xs) != Unsized ==>
              OffsetBelow(env, t, xs + [x]) == OffsetBelow(env, t, xs) + OffsetBelow(env, TypeAt(t, xs), [x])
    decreases |xs|
  {
    if xs == [] {
      assert xs + [x] == [x];
    } else {
      assert (xs + [x])[1..] == xs[1..] + [x] && (xs + [x])[0] == xs[0];
      match t
      case ArrayOf(e, _) => Append(env, e, xs[1..], x);
      case StructOf(_, _, fields) =>
        if xs[0].Num? && 0 <= xs[0].n < |fields| { Append(env, fields[xs[0].n], xs[1..], x); } else { UnsizedStays(x); }
      case _ => UnsizedStays(x);
    }
  }

  lemma UnsizedStays(x: Index)
    ensures TypeAt(Unsized, [x]) == Unsized
  {
  }

  /** Offsets found so far, with what is left over, make the whole. */
  ghost predicate Accounts(t: Ty, xs: seq<Index>, at: Ty, rest: int, whole: int) {
    && xs != [] && AllNumbers(xs) && LaidOut(t) && LaidOut(at) && at == TypeAt(t, xs[1..])
    && forall env {:trigger IndexedOffset(env, t, xs)} :: IndexedOffset(env, t, xs) + rest == whole
  }

  lemma OneIndex(env: Env, t: Ty, x: Index)
    ensures t.ArrayOf? ==> OffsetBelow(env, t, [x]) == IndexVal(env, x) * AllocSize(t.elem) && TypeAt(t, [x]) == t.elem
    ensures t.StructOf? && x.Num? && 0 <= x.n < |t.fields| && |t.offsets| == |t.fields| ==>
              OffsetBelow(env, t, [x]) == t.offsets[x.n] && TypeAt(t, [x]) == t.fields[x.n]
  {
    assert [x][1..] == [];
    if t.ArrayOf? { assert OffsetBelow(env, t.elem, []) == 0; }
  }

  /** Descending by one index into an array or a struct. */
  lemma Descend(t: Ty, xs: seq<Index>, at: Ty, rest: int, whole: int, n: int, step: int)
    requires Accounts(t, xs, at, rest, whole)
    requires at.ArrayOf? ==> step == n * AllocSize(at.elem)
    requires at.StructOf? ==> 0 <= n < |at.fields| && step == at.offsets[n]
    requires at.ArrayOf? || at.StructOf?
    ensures Accounts(t, xs + [Num(n)], TypeAt(at, [Num(n)]), rest - step, whole)
  {
    hide Wrap;
    var ys := xs + [Num(n)];
    assert AllNumbers(ys);
    assert ys[1..] == xs[1..] + [Num(n)];
    TypeAtLaidOut(at, [Num(n)]);
    forall env ensures IndexedOffset(env, t, ys) + (rest - step) == whole && TypeAt(at, [Num(n)]) == TypeAt(t, ys[1..]) {
      Append(env, t, xs[1..], Num(n));
      OneIndex(env, at, Num(n));
      assert IndexedOffset(env, t, xs) + rest == whole;
    }
    assert TypeAt(at, [Num(n)]) == TypeAt(t, ys[1..]) by { var env: Env := (i: int) => 0; Append(env, t, xs[1..], Num(n)); }
  }

  lemma FirstIndex(t: Ty, rest: int, n: int, step: int)
    requires LaidOut(t) && step == n * AllocSize(t)
    ensures Accounts(t, [Num(n)], t, rest - step, rest)
  {
    assert [Num(n)][1..] == [];
    forall env ensures IndexedOffset(env, t, [Num(n)]) == step {
      assert OffsetBelow(env, t, []) == 0;
    }
  }

  /** The last field that starts no later than the offset. */
  function ElementContaining(offsets: seq<nat>, offset: nat, n: nat): (i: nat)
    requires 0 < n <= |offsets| && offsets[0] == 0
    ensures i < n && offsets[i] <= offset
  {
    if n == 1 || offsets[n - 1] <= offset then n - 1 else ElementContaining(offsets, offset, n - 1)
  }

  datatype Descent = Descent(xs: seq<Index>, at: Ty, left: nat)

  /** Going down from a type by the element, or field, that contains the offset, as far as the wanted type or as it goes. */
  function Descended(at: Ty, left: nat, wanted: Ty): Descent {
    if at == wanted then Descent([], at, left)
    else
      match at
      case ArrayOf(e, _) =>
        var q := Quotient(left, AllocSize(e));
        QuotientFits(left, AllocSize(e));
        var d := Descended(e, left - q * AllocSize(e), wanted);
        d.(xs := [Num(q)] + d.xs)
      case StructOf(size, offsets, fields) =>
        if left >= size || offsets == [] || |offsets| != |fields| || offsets[0] != 0 then Descent([], at, left)
        else
          var i := ElementContaining(offsets, left, |offsets|);
          var d := Descended(fields[i], left - offsets[i], wanted);
          d.(xs := [Num(i)] + d.xs)
      case _ => Descent([], at, left)
  }

  /** The whole way, over whole objects first. */
  function Redone(t: Ty, offset: nat, wanted: Ty): Descent {
    var q := Quotient(offset, AllocSize(t));
    QuotientFits(offset, AllocSize(t));
    var d := Descended(t, offset - q * AllocSize(t), wanted);
    d.(xs := [Num(q)] + d.xs)
  }

  /** What is still to be done, with what has been. */
  predicate Continues(t: Ty, offset: nat, wanted: Ty, idxs: seq<Index>, at: Ty, left: nat) {
    var d := Descended(at, left, wanted);
    Redone(t, offset, wanted) == d.(xs := idxs + d.xs)
  }

  lemma ContinuesStart(t: Ty, offset: nat, wanted: Ty, q: nat)
    requires q == Quotient(offset, AllocSize(t)) && q * AllocSize(t) <= offset
    ensures Continues(t, offset, wanted, [Num(q)], t, offset - q * AllocSize(t))
  {
  }

  lemma ContinuesArray(t: Ty, offset: nat, wanted: Ty, idxs: seq<Index>, at: Ty, left: nat, q: nat)
    requires Continues(t, offset, wanted, idxs, at, left) && at.ArrayOf? && at != wanted
    requires q == Quotient(left, AllocSize(at.elem)) && q * AllocSize(at.elem) <= left
    ensures Continues(t, offset, wanted, idxs + [Num(q)], at.elem, left - q * AllocSize(at.elem))
  {
    hide Redone, Quotient, AllocSize;
    var d := Descended(at.elem, left - q * AllocSize(at.elem), wanted);
    assert idxs + ([Num(q)] + d.xs) == (idxs + [Num(q)]) + d.xs;
  }

  lemma ContinuesStruct(t: Ty, offset: nat, wanted: Ty, idxs: seq<Index>, at: Ty, left: nat, i: nat)
    requires Continues(t, offset, wanted, idxs, at, left) && at.StructOf? && at != wanted && left < at.size
    requires |at.offsets| == |at.fields| > 0 && at.offsets[0] == 0 && i == ElementContaining(at.offsets, left, |at.offsets|)
    ensures Continues(t, offset, wanted, idxs + [Num(i)], at.fields[i], left - at.offsets[i])
  {
    hide Redone, ElementContaining;
    var d := Descended(at.fields[i], left - at.offsets[i], wanted);
    assert idxs + ([Num(i)] + d.xs) == (idxs + [Num(i)]) + d.xs;
  }

  lemma ContinuesEnd(t: Ty, offset: nat, wanted: Ty, idxs: seq<Index>, at: Ty, left: nat)
    requires Continues(t, offset, wanted, idxs, at, left)
    requires at == wanted || !(at.ArrayOf? || at.StructOf?) || (at.StructOf? && left >= at.size)
    ensures Redone(t, offset, wanted) == Descent(idxs, at, left)
  {
    hide Redone;
    assert idxs + [] == idxs;
  }

  /** Recompute the indices for an offset from an object of type t, down to the wanted type or as far as it goes.
      None if the object has no size. */
  method DescendTo(t: Ty, offset: nat, wanted: Ty) returns (r: Option<seq<Index>>, at: Ty, left: nat)
    requires LaidOut(t)
    ensures r.Some? ==> r.value != [] && Accounts(t, r.value, at, left, offset) && left <= offset
    ensures r.None? <==> t == Unsized
    ensures r.Some? && at != wanted ==>
              at.Scalar? || at.Pointer? || at == Unsized || (at.StructOf? && left >= at.size)
    ensures r.Some? ==> Descent(r.value, at, left) == Redone(t, offset, wanted)
  {
    hide LaidOut, Accounts, AllNumbers, Continues, Redone, Quotient;
    at, left, r := t, offset, None;
    if t == Unsized {
      return;
    }
    var idxs: seq<Index>;
    var q := Quotient(offset, AllocSize(t));
    FirstIndex(t, offset, q, q * AllocSize(t));
    QuotientFits(offset, AllocSize(t));
    idxs := [Num(q)];
    ContinuesStart(t, offset, wanted, q);
    left := offset - q * AllocSize(t);
    while at != wanted
      invariant idxs != [] && Accounts(t, idxs, at, left, offset) && 0 <= left <= offset
      invariant Continues(t, offset, wanted, idxs, at, left)
      decreases at
    {
      AtLaidOut(t, idxs, at, left, offset);
      if at.ArrayOf? {
        q := Quotient(left, AllocSize(at.elem));
        QuotientFits(left, AllocSize(at.elem));
        OneIndex((i: int) => 0, at, Num(q));
        Descend(t, idxs, at, left, offset, q, q * AllocSize(at.elem));
        ContinuesArray(t, offset, wanted, idxs, at, left, q);
        idxs, left, at := idxs + [Num(q)], left - q * AllocSize(at.elem), at.elem;
      } else if at.StructOf? {
        if left >= at.size {
          break;
        }
        var elIdx := ElementContaining(at.offsets, left, |at.offsets|);
        OneIndex((i: int) => 0, at, Num(elIdx));
        Descend(t, idxs, at, left, offset, elIdx, at.offsets[elIdx]);
        ContinuesStruct(t, offset, wanted, idxs, at, left, elIdx);
        idxs, left, at := idxs + [Num(elIdx)], left - at.offsets[elIdx], at.fields[elIdx];
      } else {
        break;
      }
    }
    ContinuesEnd(t, offset, wanted, idxs, at, left);
    r := Some(idxs);
  }

  lemma AtLaidOut(t: Ty, xs: seq<Index>, at: Ty, rest: int, whole: int)
    requires Accounts(t, xs, at, rest, whole)
    ensures LaidOut(at)
    ensures at.StructOf? ==> |at.offsets| == |at.fields| && (at.size > 0 ==> at.fields != [] && at.offsets[0] == 0)
  {
  }

  /** The index at one level: zero for elements of no size. */
  function Quotient(offset: nat, size: nat): nat { if size == 0 then 0 else offset / size }

  lemma QuotientFits(offset: nat, size: nat)
    ensures Quotient(offset, size) * size <= offset
  {
    if size > 0 { assert offset == (offset / size) * size + offset % size; }
  }

  // ----- The fold -----

  /** In every execution, p is off bytes after q. */
  ghost predicate IsAt(p: Ptr, q: Ptr, off: int, m: nat)
    requires m > 0
  {
    forall env, globals {:trigger Addr(env, globals, m, p)} ::
      Addr(env, globals, m, p) == Wrap(Addr(env, globals, m, q) + off, m)
  }

  const ANY_ENV: Env := (i: int) => 0

  /** The offset of constant indices. */
  function ConstantOffset(t: Ty, xs: seq<Index>): int { IndexedOffset(ANY_ENV, t, xs) }

  lemma WrapAdd(a: int, b: int, m: nat)
    requires m > 0
    ensures Wrap(Wrap(a, m) + b, m) == Wrap(a + b, m)
  {
    var k := a / m;
    assert a == Wrap(a, m) + k * m;
    WrapCongruent(a + b, Wrap(a, m) + b, k, m);
  }

  lemma StartFold(p: Ptr, xs: seq<Index>, m: nat)
    requires m > 0 && WellTyped(p) && AllNumbers(xs)
    ensures IsAt(Gep(p, xs), StripCasts(p), Wrap(ConstantOffset(Pointee(p), xs), m), m) && WellTyped(StripCasts(p))
  {
    hide Wrap, IndexedOffset, StripCasts;
    var o := ConstantOffset(Pointee(p), xs);
    forall env, globals
      ensures Addr(env, globals, m, Gep(p, xs)) == Wrap(Addr(env, globals, m, StripCasts(p)) + Wrap(o, m), m)
      ensures WellTyped(StripCasts(p))
    {
      NumbersOffset(env, ANY_ENV, Pointee(p), xs);
      StripKeeps(env, globals, m, p);
      AddLater(Addr(env, globals, m, p), o, m);
    }
    StripKeeps(ANY_ENV, ANY_ENV, m, p);
  }

  lemma AddLater(a: int, o: int, m: nat)
    requires m > 0
    ensures Wrap(a + Wrap(o, m), m) == Wrap(a + o, m)
  {
    hide Wrap;
    WrapAdd(o, a, m);
    assert a + Wrap(o, m) == Wrap(o, m) + a && a + o == o + a;
  }

  lemma Regroup(a: int, o: int, off: int, m: nat)
    requires m > 0
    ensures Wrap(Wrap(a + o, m) + off, m) == Wrap(a + Wrap(off + o, m), m)
  {
    hide Wrap;
    WrapAdd(a + o, off, m);
    AddLater(a, off + o, m);
    assert a + o + off == a + (off + o);
  }

  /** The address of a gep of constant indices. */
  lemma GepAddress(env: Env, globals: Env, q: Ptr, m: nat)
    requires m > 0 && WellTyped(q) && q.Gep? && AllNumbers(q.indices)
    ensures Addr(env, globals, m, q) ==
            Wrap(Addr(env, globals, m, StripCasts(q.p)) + ConstantOffset(Pointee(q.p), q.indices), m)
    ensures WellTyped(StripCasts(q.p))
  {
    hide Wrap, IndexedOffset, StripCasts, Pointee;
    NumbersOffset(env, ANY_ENV, Pointee(q.p), q.indices);
    StripKeeps(env, globals, m, q.p);
  }

  lemma FoldInto(p: Ptr, q: Ptr, off: int, m: nat)
    requires m > 0 && WellTyped(q) && IsAt(p, q, off, m) && q.Gep? && AllNumbers(q.indices)
    ensures IsAt(p, StripCasts(q.p), Wrap(off + ConstantOffset(Pointee(q.p), q.indices), m), m)
    ensures WellTyped(StripCasts(q.p))
  {
    hide Wrap, IndexedOffset, StripCasts, Addr, Pointee, WellTyped, AllNumbers, ConstantOffset;
    var o := ConstantOffset(Pointee(q.p), q.indices);
    forall env, globals
      ensures Addr(env, globals, m, p) == Wrap(Addr(env, globals, m, StripCasts(q.p)) + Wrap(off + o, m), m)
    {
      GepAddress(env, globals, q, m);
      assert Addr(env, globals, m, p) == Wrap(Addr(env, globals, m, q) + off, m);
      Regroup(Addr(env, globals, m, StripCasts(q.p)), o, off, m);
    }
    GepAddress(ANY_ENV, ANY_ENV, q, m);
  }

  function Depth(p: Ptr): nat {
    match p
    case Cast(q, _) => 1 + Depth(q)
    case Gep(q, _) => 1 + Depth(q)
    case Difference(q, _, _) => 1 + Depth(q)
    case _ => 0
  }

  lemma {:induction false} StripDepth(p: Ptr)
    ensures Depth(StripCasts(p)) <= Depth(p)
    decreases p
  {
    match p
    case Cast(q, _) => StripDepth(q);
    case Gep(q, xs) => if AllZero(xs) { StripDepth(q); }
    case _ =>
  }

  /** A pointer and an offset from it. */
  datatype Root = Root(base: Ptr, off: nat)

  /** Geps with constant indices are folded in, and casts are looked through. */
  function Rooted(q: Ptr, off: nat, m: nat): Root
    requires m > 0
    decreases Depth(q)
  {
    if q.Gep? && AllNumbers(q.indices) then
      StripDepth(q.p);
      Rooted(StripCasts(q.p), Wrap(off + ConstantOffset(Pointee(q.p), q.indices), m), m)
    else Root(q, off)
  }

  function RootOf(p: Ptr, xs: seq<Index>, m: nat): Root
    requires m > 0
  {
    Rooted(StripCasts(p), Wrap(ConstantOffset(Pointee(p), xs), m), m)
  }

  lemma {:induction false} StripStops(p: Ptr)
    ensures var q := StripCasts(p); !q.Cast? && (q.Gep? ==> !AllZero(q.indices))
    decreases p
  {
    match p
    case Cast(q, _) => StripStops(q);
    case Gep(q, xs) => if AllZero(xs) { StripStops(q); }
    case _ =>
  }

  /** The root is no cast and no gep with constant indices, and it is where the arithmetic starts from. */
  lemma {:induction false} RootIs(p: Ptr, q: Ptr, off: nat, m: nat)
    requires m > 0 && WellTyped(q) && IsAt(p, q, off, m) && !q.Cast?
    ensures var r := Rooted(q, off, m);
            && WellTyped(r.base) && IsAt(p, r.base, r.off, m) && !r.base.Cast? && !(r.base.Gep? && AllNumbers(r.base.indices))
    decreases Depth(q)
  {
    hide Wrap, IndexedOffset, StripCasts, IsAt, AllNumbers, WellTyped, ConstantOffset;
    if q.Gep? && AllNumbers(q.indices) {
      StripDepth(q.p);
      FoldInto(p, q, off, m);
      StripStops(q.p);
      RootIs(p, StripCasts(q.p), Wrap(off + ConstantOffset(Pointee(q.p), q.indices), m), m);
    }
  }

  // ----- When the descent reaches the whole offset -----

  /** Fields lie one after the other within their struct. */
  ghost predicate Packed(t: Ty) {
    match t
    case ArrayOf(e, _) => Packed(e)
    case StructOf(n, offsets, fields) =>
      && |offsets| == |fields| && (fields != [] ==> offsets[0] == 0)
      && (forall i {:trigger fields[i]} :: 0 <= i < |fields| ==> Packed(fields[i]) && offsets[i] + AllocSize(fields[i]) <= n)
      && forall i, j {:trigger offsets[i], offsets[j]} :: 0 <= i < j < |fields| ==> offsets[i] + AllocSize(fields[i]) <= offsets[j]
    case _ => true
  }

  /** Indices that stay within the arrays and structs below t, through objects that have a size, and not through the wanted
      type; they end at the wanted type or at something that has no parts. */
  ghost predicate Path(t: Ty, xs: seq<Index>, wanted: Ty) {
    AllocSize(t) > 0 &&
    if xs == [] then t == wanted || t.Scalar? || t.Pointer?
    else
      && t != wanted && xs[0].Num?
      && match t
         case ArrayOf(e, n) => 0 <= xs[0].n < n && Path(e, xs[1..], wanted)
         case StructOf(_, _, fields) => 0 <= xs[0].n < |fields| && Path(fields[xs[0].n], xs[1..], wanted)
         case _ => false
  }

  lemma RowFits(n: nat, count: nat, size: nat, rest: int)
    requires n < count && 0 <= rest < size
    ensures 0 <= n * size + rest < size * count
    ensures (n * size + rest) / size == n
  {
    DivModUnique(n * size + rest, n, rest, size);
    MulAtMost(n + 1, count, size);
    assert (n + 1) * size == n * size + size;
    assert size * count == count * size;
    assert n * size >= 0;
  }

  lemma MulAtMost(x: nat, y: nat, n: nat)
    requires x <= y
    ensures x * n <= y * n
  {
    assert (y - x) * n >= 0;
    assert y * n == (y - x) * n + x * n;
  }

  /** A path leads to a place inside. */
  lemma {:induction false} PathInside(env: Env, t: Ty, xs: seq<Index>, wanted: Ty)
    requires Packed(t) && Path(t, xs, wanted)
    ensures 0 <= OffsetBelow(env, t, xs) < AllocSize(t)
    decreases |xs|
  {
    if xs != [] {
      match t
      case ArrayOf(e, n) =>
        PathInside(env, e, xs[1..], wanted);
        RowFits(xs[0].n, n, AllocSize(e), OffsetBelow(env, e, xs[1..]));
      case StructOf(_, offsets, fields) =>
        PathInside(env, fields[xs[0].n], xs[1..], wanted);
    }
  }

  lemma {:induction false} ContainingIs(offsets: seq<nat>, offset: nat, n: nat, i: nat)
    requires 0 < n <= |offsets| && offsets[0] == 0 && i < n && offsets[i] <= offset
    requires forall j {:trigger offsets[j]} :: i < j < n ==> offset < offsets[j]
    ensures ElementContaining(offsets, offset, n) == i
    decreases n
  {
    if n > 1 && i < n - 1 { ContainingIs(offsets, offset, n - 1, i); }
  }

  lemma IntoArray(e: Ty, count: nat, n: nat, rest: nat, wanted: Ty)
    requires ArrayOf(e, count) != wanted && n < count && rest < AllocSize(e)
    ensures n * AllocSize(e) + rest >= 0
    ensures Descended(ArrayOf(e, count), n * AllocSize(e) + rest, wanted).left == Descended(e, rest, wanted).left
  {
    RowFits(n, count, AllocSize(e), rest);
  }

  lemma IntoStruct(t: Ty, i: nat, rest: nat, wanted: Ty)
    requires t.StructOf? && t != wanted && Packed(t) && i < |t.fields| && rest < AllocSize(t.fields[i])
    ensures |t.offsets| == |t.fields|
    ensures Descended(t, t.offsets[i] + rest, wanted).left == Descended(t.fields[i], rest, wanted).left
  {
    hide AllocSize;
    assert t.offsets[i] + AllocSize(t.fields[i]) <= t.size;
    ContainingIs(t.offsets, t.offsets[i] + rest, |t.offsets|, i);
  }

  /** The descent goes along the path to its end, and nothing is left. */
  lemma {:induction false} PathFollowed(t: Ty, xs: seq<Index>, wanted: Ty)
    requires Packed(t) && Path(t, xs, wanted)
    ensures OffsetBelow(ANY_ENV, t, xs) >= 0
    ensures Descended(t, OffsetBelow(ANY_ENV, t, xs), wanted).left == 0
    decreases |xs|
  {
    hide Descended;
    PathInside(ANY_ENV, t, xs, wanted);
    if xs == [] {
      DescendedNowhere(t, wanted);
    } else {
      match t
      case ArrayOf(e, n) =>
        PathInside(ANY_ENV, e, xs[1..], wanted);
        PathFollowed(e, xs[1..], wanted);
        IntoArray(e, n, xs[0].n, OffsetBelow(ANY_ENV, e, xs[1..]), wanted);
      case StructOf(_, _, fields) =>
        PathInside(ANY_ENV, fields[xs[0].n], xs[1..], wanted);
        PathFollowed(fields[xs[0].n], xs[1..], wanted);
        IntoStruct(t, xs[0].n, OffsetBelow(ANY_ENV, fields[xs[0].n], xs[1..]), wanted);
    }
  }

  lemma DescendedNowhere(t: Ty, wanted: Ty)
    requires t == wanted || t.Scalar? || t.Pointer?
    ensures Descended(t, 0, wanted).left == 0
  {
  }

  /** Whole objects, and then a path below one: all of the offset is turned into indices. */
  lemma PathRedone(t: Ty, k: nat, xs: seq<Index>, wanted: Ty)
    requires Packed(t) && Path(t, xs, wanted)
    ensures k * AllocSize(t) + OffsetBelow(ANY_ENV, t, xs) >= 0
    ensures Redone(t, k * AllocSize(t) + OffsetBelow(ANY_ENV, t, xs), wanted).left == 0
  {
    PathInside(ANY_ENV, t, xs, wanted);
    PathFollowed(t, xs, wanted);
    RowFits(k, k + 1, AllocSize(t), OffsetBelow(ANY_ENV, t, xs));
  }

  ghost predicate SameAddress(p: Ptr, q: Ptr, m: nat)
    requires m > 0
  {
    forall env, globals {:trigger Addr(env, globals, m, p)} :: Addr(env, globals, m, p) == Addr(env, globals, m, q)
  }

  lemma LiteralFold(p: Ptr, q: Ptr, off: nat, m: nat, ty: Ty)
    requires m > 0 && IsAt(p, q, off, m) && (q.Null? || q.Literal?)
    ensures var base := if q.Literal? then q.address % m else 0;
            SameAddress(p, Literal(Wrap(off + base, m), ty), m)
  {
    var base := if q.Literal? then q.address % m else 0;
    hide Wrap;
    forall env, globals ensures Addr(env, globals, m, p) == Wrap(Wrap(off + base, m), m) {
      assert Addr(env, globals, m, q) == base by { LiteralAddress(env, globals, m, q); }
      WrapAdd(off + base, 0, m);
    }
  }

  lemma LiteralAddress(env: Env, globals: Env, m: nat, q: Ptr)
    requires m > 0 && (q.Null? || q.Literal?)
    ensures Addr(env, globals, m, q) == if q.Literal? then q.address % m else 0
  {
  }

  lemma GepFold(p: Ptr, q: Ptr, off: int, m: nat, xs: seq<Index>, at: Ty)
    requires m > 0 && IsAt(p, q, off, m) && Accounts(Pointee(q), xs, at, 0, off)
    ensures SameAddress(p, Gep(q, xs), m) && Pointee(Gep(q, xs)) == at
  {
    hide Wrap, IndexedOffset, TypeAt;
    forall env, globals ensures Addr(env, globals, m, p) == Addr(env, globals, m, Gep(q, xs)) {
      assert IndexedOffset(env, Pointee(q), xs) + 0 == off;
    }
  }

  lemma DifferenceFold(p: Ptr, id: int, m: nat, ty: Ty)
    requires m > 0 && Pointee(p) == Scalar(1)
    ensures SameAddress(Gep(p, [Neg(id)]), Difference(p, id, ty), m)
  {
    hide Wrap;
    forall env, globals
      ensures Addr(env, globals, m, Gep(p, [Neg(id)])) == Addr(env, globals, m, Difference(p, id, ty))
    {
      assert [Neg(id)][1..] == [];
      assert OffsetBelow(env, Pointee(p), []) == 0;
      assert IndexedOffset(env, Pointee(p), [Neg(id)]) == -env(id) * 1;
    }
  }

  /** When there is something to fold to: the difference of a byte pointer and a value; a literal address; or indices from
      the root that reach the whole offset. */
  predicate CanFold(p: Ptr, xs: seq<Index>, resultTy: Ty, m: nat)
    requires m > 0
  {
    Pointee(p) != Unsized &&
    if !AllNumbers(xs) then |xs| == 1 && resultTy == Scalar(1) && xs[0].Neg?
    else
      var root := RootOf(p, xs, m);
      || root.base.Null? || (root.base.Literal? && root.base.address % m != 0)
      || (Pointee(root.base) != Unsized && Redone(Pointee(root.base), root.off, resultTy).left == 0)
  }

  /** Constant indices are folded if a path of indices within bounds leads from the root to the whole offset. */
  lemma PathFolds(p: Ptr, xs: seq<Index>, resultTy: Ty, m: nat, k: nat, ys: seq<Index>)
    requires m > 0 && Pointee(p) != Unsized && AllNumbers(xs)
    requires var root := RootOf(p, xs, m); var t := Pointee(root.base);
             Packed(t) && Path(t, ys, resultTy) && root.off == k * AllocSize(t) + OffsetBelow(ANY_ENV, t, ys)
    ensures CanFold(p, xs, resultTy, m)
  {
    hide RootOf, Redone, OffsetBelow, AllNumbers;
    var t := Pointee(RootOf(p, xs, m).base);
    PathRedone(t, k, ys, resultTy);
    HasSize(t, ys, resultTy);
  }

  lemma HasSize(t: Ty, xs: seq<Index>, wanted: Ty)
    requires Path(t, xs, wanted)
    ensures t != Unsized
  {
  }

  /** Evaluate the address arithmetic of p with some indices. Whatever comes back has the same address, in every
      execution, and the type that was asked for. */
  method SymbolicallyEvaluateGEP(p: Ptr, xs: seq<Index>, resultTy: Ty, m: nat) returns (r: Option<Ptr>)
    requires m > 0 && WellTyped(p) && xs != [] && resultTy == Pointee(Gep(p, xs))
    ensures r.Some? ==> SameAddress(Gep(p, xs), r.value, m) && Pointee(r.value) == resultTy
    ensures r.Some? <==> CanFold(p, xs, resultTy, m)
  {
    hide Wrap, IndexedOffset, StripCasts, IsAt, SameAddress, TypeAt, AllNumbers, Accounts, WellTyped, Rooted, Redone;
    if Pointee(p) == Unsized {
      return None;
    }
    if !AllNumbers(xs) {
      // p less a value, byte by byte
      if |xs| == 1 && resultTy == Scalar(1) && xs[0].Neg? {
        OnePointee(p, xs);
        DifferenceFold(p, xs[0].id, m, resultTy);
        assert xs == [Neg(xs[0].id)];
        return Some(Difference(p, xs[0].id, resultTy));
      }
      return None;
    }
    StartFold(p, xs, m);
    StripDepth(p);
    var offset := Wrap(ConstantOffset(Pointee(p), xs), m);
    var ptr := StripCasts(p);
    while ptr.Gep? && AllNumbers(ptr.indices)
      invariant WellTyped(ptr) && 0 <= offset && IsAt(Gep(p, xs), ptr, offset, m)
      invariant Rooted(ptr, offset, m) == RootOf(p, xs, m)
      decreases Depth(ptr)
    {
      RootedNext(ptr, offset, m);
      FoldInto(Gep(p, xs), ptr, offset, m);
      StripDepth(ptr.p);
      offset := Wrap(offset + ConstantOffset(Pointee(ptr.p), ptr.indices), m);
      ptr := StripCasts(ptr.p);
    }
    RootedEnd(ptr, offset, m);
    var basePtr := if ptr.Literal? then ptr.address % m else 0;
    if ptr.Null? || basePtr != 0 {
      LiteralFold(Gep(p, xs), ptr, offset, m, resultTy);
      return Some(Literal(Wrap(offset + basePtr, m), resultTy));
    }
    PointeeLaidOut(ptr);
    var newIdxs, at, left := DescendTo(Pointee(ptr), offset, resultTy);
    if newIdxs.None? || left != 0 {
      return None;
    }
    GepFold(Gep(p, xs), ptr, offset, m, newIdxs.value, at);
    var c := Gep(ptr, newIdxs.value);
    assert Pointee(c) == at;
    if at != resultTy {
      CastFold(Gep(p, xs), c, resultTy, m);
      c := Cast(c, resultTy);
    }
    r := Some(c);
  }

  lemma RootedNext(q: Ptr, off: nat, m: nat)
    requires m > 0 && q.Gep? && AllNumbers(q.indices)
    ensures Rooted(q, off, m) == Rooted(StripCasts(q.p), Wrap(off + ConstantOffset(Pointee(q.p), q.indices), m), m)
  {
    hide Wrap, ConstantOffset, StripCasts;
  }

  lemma RootedEnd(q: Ptr, off: nat, m: nat)
    requires m > 0 && !(q.Gep? && AllNumbers(q.indices))
    ensures Rooted(q, off, m) == Root(q, off)
  {
  }

  lemma OnePointee(p: Ptr, xs: seq<Index>)
    requires |xs| == 1
    ensures Pointee(Gep(p, xs)) == Pointee(p)
  {
  }

  lemma CastFold(p: Ptr, q: Ptr, ty: Ty, m: nat)
    requires m > 0 && SameAddress(p, q, m)
    ensures SameAddress(p, Cast(q, ty), m)
  {
    hide Wrap, IndexedOffset;
    forall env, globals ensures Addr(env, globals, m, p) == Addr(env, globals, m, Cast(q, ty)) {
      assert Addr(env, globals, m, p) == Addr(env, globals, m, q);
    }
  }
}
