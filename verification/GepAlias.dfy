/** Deciding whether two accesses overlap from the symbolic difference of their addresses. */
module GepAlias {
  import opened ConstantRange
  import opened Words
  import opened GepExpressions
  import opened GepDecomposition

  datatype AliasResult = NoAlias | MayAlias | PartialAlias | MustAlias

  /** The size of an access that is not known: the largest word. */
  const UNKNOWN_SIZE := WORD - 1

  /** An access of n bytes is described by a size: exactly, or not at all. No access has half the address space. */
  predicate Described(n: nat, size: nat) { 0 < n < WORD / 2 && (size == UNKNOWN_SIZE || n == size) }

  /** Bytes i of one access and j of the other are at different addresses, where the first starts d after the second. */
  ghost predicate Disjoint(d: int, n1: nat, n2: nat) {
    forall i, j {:trigger Collide(d, i, j)} :: 0 <= i < n1 && 0 <= j < n2 ==> !Collide(d, i, j)
  }

  ghost predicate Overlap(d: int, n1: nat, n2: nat) {
    exists i, j {:trigger Collide(d, i, j)} :: 0 <= i < n1 && 0 <= j < n2 && Collide(d, i, j)
  }

  predicate Collide(d: int, i: int, j: int) { W(d + i) == W(j) }

  // ----- A constant difference -----

  lemma ConstantAhead(d: nat, n1: nat, n2: nat)
    requires d < WORD / 2 && 0 < n1 < WORD / 2 && 0 < n2
    ensures d < n2 ==> Overlap(d, n1, n2)
    ensures d >= n2 ==> Disjoint(d, n1, n2)
  {
    WordBig();
    if d < n2 {
      assert Collide(d, 0, d);
    } else {
      forall i, j | 0 <= i < n1 && 0 <= j < n2 ensures !Collide(d, i, j) {
        hide W, Wrap, Pow2;
        WSmall(d + i);
        WSmall(j);
      }
    }
  }

  /** The first access starts back bytes before the second. */
  lemma ConstantBehind(d: nat, n1: nat, n2: nat)
    requires WORD / 2 <= d < WORD && 0 < n1 && 0 < n2 < WORD / 2
    ensures WORD - d < n1 ==> Overlap(d, n1, n2)
    ensures WORD - d >= n1 ==> Disjoint(d, n1, n2)
  {
    hide Wrap, Pow2;
    WordBig();
    if WORD - d < n1 {
      WCong(d + (WORD - d), 0, 1);
      assert Collide(d, WORD - d, 0);
    } else {
      forall i, j | 0 <= i < n1 && 0 <= j < n2 ensures !Collide(d, i, j) {
        WSmall(d + i);
        WSmall(j);
      }
    }
  }

  // ----- The lowest set bit -----

  /** The bits of all scales together. */
  function ScaleBits(vars: seq<VarIndex>): (b: nat) {
    if vars == [] then 0 else BitOr(ScaleBits(vars[..|vars| - 1]), vars[|vars| - 1].scale)
  }

  lemma {:induction false} BitsBound(vars: seq<VarIndex>)
    requires Proper(vars)
    ensures ScaleBits(vars) < WORD && (vars != [] ==> ScaleBits(vars) > 0)
    decreases |vars|
  {
    WordBig();
    if vars != [] {
      BitsBound(vars[..|vars| - 1]);
      BitOrWidth(ScaleBits(vars[..|vars| - 1]), vars[|vars| - 1].scale, 64);
    }
  }

  predicate AllDivided(d: nat, vars: seq<VarIndex>)
    requires d > 0
  {
    forall i {:trigger vars[i]} :: 0 <= i < |vars| ==> Divides(d, vars[i].scale)
  }

  /** A power of two no larger than the lowest set bit of the scales divides them all. */
  lemma {:induction false} LowBitOfScales(vars: seq<VarIndex>, k: nat)
    requires ScaleBits(vars) > 0 && k <= LowExp(ScaleBits(vars))
    ensures AllDivided(Pow2(k), vars)
    decreases |vars|
  {
    hide Divides, Pow2, BitOr;
    var init, x := vars[..|vars| - 1], vars[|vars| - 1];
    var b := ScaleBits(vars);
    LowBitDivides(ScaleBits(init), x.scale);
    Coarser(k, LowExp(b), x.scale);
    if ScaleBits(init) > 0 {
      LowExpOr(ScaleBits(init), x.scale);
      LowBitOfScales(init, k);
      assert forall i {:trigger vars[i]} :: 0 <= i < |init| ==> vars[i] == init[i];
    } else {
      NoBits(init, Pow2(k));
      assert forall i {:trigger vars[i]} :: 0 <= i < |init| ==> vars[i] == init[i];
    }
  }

  lemma Coarser(k: nat, l: nat, x: int)
    requires k <= l && Divides(Pow2(l), x)
    ensures Divides(Pow2(k), x)
  {
    Pow2Divides(k, l);
    DividesMul(Pow2(k), Pow2(l), x / Pow2(l));
    assert Pow2(l) * (x / Pow2(l)) == x;
  }

  lemma {:induction false} LowExpOr(x: nat, y: nat)
    requires x > 0
    ensures BitOr(x, y) > 0 && LowExp(BitOr(x, y)) <= LowExp(x)
    decreases x
  {
    if y > 0 && x % 2 == 0 && y % 2 == 0 { LowExpOr(x / 2, y / 2); }
  }

  lemma {:induction false} NoBits(vars: seq<VarIndex>, d: nat)
    requires ScaleBits(vars) == 0 && d > 0
    ensures AllDivided(d, vars)
    decreases |vars|
  {
    if vars != [] {
      var init, x := vars[..|vars| - 1], vars[|vars| - 1];
      OrZero(ScaleBits(init), x.scale);
      NoBits(init, d);
      DivModUnique(0, 0, 0, d);
      assert forall i {:trigger vars[i]} :: 0 <= i < |init| ==> vars[i] == init[i];
    }
  }

  lemma {:induction false} OrZero(x: nat, y: nat)
    ensures BitOr(x, y) == 0 ==> x == 0 && y == 0
    decreases x
  {
    if x > 0 && y > 0 { OrZero(x / 2, y / 2); }
  }

  lemma {:induction false} DividedSum(d: nat, env: Env, vars: seq<VarIndex>)
    requires d > 0 && AllDivided(d, vars)
    ensures Divides(d, VarSum(env, vars))
    decreases |vars|
  {
    hide Divides, Val;
    if vars == [] {
      DividesZero(d);
    } else {
      var init, x := vars[..|vars| - 1], vars[|vars| - 1];
      DividedSum(d, env, init);
      assert Divides(d, x.scale);
      DividesMul(d, x.scale, Val(env, x.v));
      DividesSum(d, VarSum(env, init), Term(env, x));
    }
  }

  lemma DividesZero(d: nat)
    requires d > 0
    ensures Divides(d, 0)
  {
    DivModUnique(0, 0, 0, d);
  }

  /** Wrapping to a word keeps the remainder by a power of two that divides the word. */
  lemma WordRemainder(d: nat, x: int)
    requires d > 0 && Divides(d, WORD)
    ensures W(x) % d == x % d
  {
    hide W, Wrap, Pow2;
    var k := WQuotient(x);
    DividesMul(d, WORD, k);
    Commute(WORD, k);
    RemainderSame(d, W(x), k * WORD);
  }

  /** The residues of the two accesses do not meet. */
  lemma ResiduesApart(d: int, modulo: nat, n1: nat, n2: nat)
    requires modulo > 0 && Divides(modulo, WORD) && n2 <= d % modulo && n1 <= modulo - d % modulo
    ensures Disjoint(d, n1, n2)
  {
    hide W, Wrap, Divides, Pow2;
    forall i, j | 0 <= i < n1 && 0 <= j < n2 ensures !Collide(d, i, j) {
      WordRemainder(modulo, d + i);
      WordRemainder(modulo, j);
      var q, r := d / modulo, d % modulo;
      DivModUnique(d + i, q, r + i, modulo);
      DivModUnique(j, 0, j, modulo);
    }
  }

  // ----- All powers of two at once -----

  /** The k lowest bits of the difference do not depend on the variables, and show that the accesses do not meet. */
  ghost predicate Separated(k: nat, off: nat, vars: seq<VarIndex>, size1: nat, size2: nat) {
    AllDivided(Pow2(k), vars) && size2 <= off % Pow2(k) && size1 <= Pow2(k) - off % Pow2(k)
  }

  lemma {:induction false} DividesOr(k: nat, x: nat, y: nat)
    requires Divides(Pow2(k), x) && Divides(Pow2(k), y)
    ensures Divides(Pow2(k), BitOr(x, y))
    decreases k
  {
    if k == 0 {
      DivModUnique(BitOr(x, y), BitOr(x, y), 0, 1);
    } else {
      var p := Pow2(k - 1);
      HalfDivides(p, x);
      HalfDivides(p, y);
      DividesOr(k - 1, x / 2, y / 2);
      DividesDouble(p, BitOr(x / 2, y / 2));
      OrHalves(x, y);
    }
  }

  lemma HalfDivides(p: nat, x: nat)
    requires p > 0 && Divides(2 * p, x)
    ensures x % 2 == 0 && x == 2 * (x / 2) && Divides(p, x / 2)
  {
    var q := x / (2 * p);
    assert x == 2 * (q * p) by { assert x == q * (2 * p); Rearrange(q, p, 2); }
    DivModUnique(x / 2, q, 0, p);
  }

  lemma OrHalves(x: nat, y: nat)
    requires x % 2 == 0 && y % 2 == 0
    ensures BitOr(x, y) == 2 * BitOr(x / 2, y / 2)
  {
  }

  /** A power of two that divides a number is no larger than its lowest set bit. */
  lemma {:induction false} LowExpAtLeast(k: nat, x: nat)
    requires x > 0 && Divides(Pow2(k), x)
    ensures k <= LowExp(x)
    decreases k
  {
    if k > 0 {
      HalfDivides(Pow2(k - 1), x);
      LowExpAtLeast(k - 1, x / 2);
    }
  }

  lemma {:induction false} DividesBits(k: nat, vars: seq<VarIndex>)
    requires AllDivided(Pow2(k), vars)
    ensures Divides(Pow2(k), ScaleBits(vars))
    decreases |vars|
  {
    hide Divides, Pow2, BitOr;
    if vars == [] {
      DividesZero(Pow2(k));
    } else {
      var init := vars[..|vars| - 1];
      assert forall i {:trigger init[i]} :: 0 <= i < |init| ==> init[i] == vars[i];
      DividesBits(k, init);
      assert Divides(Pow2(k), vars[|vars| - 1].scale);
      DividesOr(k, ScaleBits(init), vars[|vars| - 1].scale);
    }
  }

  /** A remainder by a smaller power of two is closer to the bounds on both sides. */
  lemma FinerRemainder(x: nat, d: nat, t: nat, m: nat)
    requires d > 0 && m > 0 && m == d * t
    ensures x % d <= x % m && d - x % d <= m - x % m
  {
    var q, y := Quotient2(x, m);
    var i, r := Quotient2(y, d);
    FinerForm(q, d, t, m, i, r);
    DivModUnique(x, q * t + i, r, d);
    MultipleBelow(i, r, d, t, m);
  }

  lemma Quotient2(x: nat, m: nat) returns (q: nat, r: nat)
    requires m > 0
    ensures x == q * m + r && r < m && r == x % m
  {
    q, r := x / m, x % m;
  }

  lemma FinerForm(q: int, d: int, t: int, m: int, i: int, r: int)
    requires m == d * t
    ensures q * m + (i * d + r) == (q * t + i) * d + r
  {
    Distribute(q * t, i, d);
    Rearrange(q, t, d);
    Commute(d, t);
    Assoc(q, t, d);
  }

  lemma MultipleBelow(i: nat, r: nat, d: nat, t: nat, m: nat)
    requires r < d && i * d + r < m && m == d * t
    ensures i * d >= 0 && i * d + d <= m
  {
    Commute(t, d);
    if i >= t { MulMono(t, d, i, d); }
    MulMono(i + 1, d, t, d);
    Distribute(i, 1, d);
  }

  /** The lowest set bit of the scales separates whenever any power of two does. */
  lemma LowestIsBest(k: nat, off: nat, vars: seq<VarIndex>, size1: nat, size2: nat)
    requires Proper(vars) && vars != [] && Separated(k, off, vars, size1, size2) && ScaleBits(vars) > 0
    ensures Separated(LowExp(ScaleBits(vars)), off, vars, size1, size2)
  {
    hide Divides, Pow2, BitOr, LowExp, ScaleBits, Proper;
    var l := LowExp(ScaleBits(vars));
    DividesBits(k, vars);
    LowExpAtLeast(k, ScaleBits(vars));
    LowBitOfScales(vars, l);
    Pow2Split(l, k);
    FinerRemainder(off, Pow2(k), Pow2(l - k), Pow2(l));
  }

  // ----- The comparison -----

  /** What a result promises for a difference of d bytes. */
  ghost predicate Promise(r: AliasResult, exact: bool, d: int, size1: nat, size2: nat) {
    && (r == MustAlias ==> d == 0)
    && forall n1, n2 {:trigger Disjoint(d, n1, n2)} {:trigger Overlap(d, n1, n2)} ::
         Described(n1, size1) && Described(n2, size2) ==>
           (r == NoAlias ==> Disjoint(d, n1, n2)) && (r == PartialAlias && exact ==> Overlap(d, n1, n2))
  }

  /** Must alias means no difference at all. A constant difference is decided if the size of the access that comes first is
      known. With variables left, there is no alias exactly if some power of two separates two accesses of known size. */
  ghost predicate Compared(off: nat, vars: seq<VarIndex>, size1: nat, size2: nat, r: AliasResult, exact: bool) {
    && (r == MustAlias <==> off == 0 && vars == []) && r != MayAlias && (r != PartialAlias ==> exact)
    && (off != 0 && vars == [] ==>
          var first := if off < WORD / 2 then size2 else size1;
          var distance := if off < WORD / 2 then off else WORD - off;
          && (exact <==> first != UNKNOWN_SIZE) && (r == NoAlias <==> first != UNKNOWN_SIZE && distance >= first))
    && (vars != [] ==>
          (r == NoAlias <==> size1 != UNKNOWN_SIZE && size2 != UNKNOWN_SIZE && exists k: nat :: Separated(k, off, vars, size1, size2)))
  }

  method LowestBitOfScales(vars: seq<VarIndex>) returns (modulo: nat)
    requires Proper(vars) && vars != []
    ensures modulo == Pow2(LowExp(ScaleBits(vars))) && ScaleBits(vars) > 0
  {
    hide BitXor, BitAnd, BitOr, Pow2, LowExp;
    modulo := 0;
    assert vars[..0] == [];
    for i := 0 to |vars|
      invariant modulo == ScaleBits(vars[..i])
    {
      assert vars[..i + 1][..i] == vars[..i];
      modulo := BitOr(modulo, vars[i].scale);
    }
    assert vars[..|vars|] == vars;
    BitsBound(vars);
    LowestSetBit(modulo);
    modulo := BitXor(modulo, BitAnd(modulo, modulo - 1));
  }

  /** The result for two accesses whose addresses differ by off and the terms of vars. exact is false for the last,
      unproved answer. */
  method CompareOffsets(off: nat, vars: seq<VarIndex>, size1: nat, size2: nat) returns (r: AliasResult, exact: bool)
    requires off < WORD && Proper(vars) && size1 < WORD && size2 < WORD
    ensures forall env {:trigger VarSum(env, vars)} :: Promise(r, exact, W(off + VarSum(env, vars)), size1, size2)
    ensures r == MustAlias <==> off == 0 && vars == []
    ensures exact <== r != PartialAlias
    ensures Compared(off, vars, size1, size2, r, exact)
  {
    hide W, Wrap, Promise, Pow2, BitAnd, LowExp, ScaleBits, Separated;
    exact := true;
    if off == 0 && vars == [] {
      NothingBetween(size1, size2);
      return MustAlias, true;
    }
    if off != 0 && vars == [] {
      ConstantPromise(off, size1, size2);
      if off < WORD / 2 {
        if size2 != UNKNOWN_SIZE {
          return if off < size2 then PartialAlias else NoAlias, true;
        }
      } else {
        if size1 != UNKNOWN_SIZE {
          return if WORD - off < size1 then PartialAlias else NoAlias, true;
        }
      }
    }
    if vars != [] {
      var modulo := LowestBitOfScales(vars);
      MaskIsRemainder(off, LowExp(ScaleBits(vars)));
      SeparatedOrNot(off, vars, size1, size2);
      var modOffset := BitAnd(off, modulo - 1);
      if size1 != UNKNOWN_SIZE && size2 != UNKNOWN_SIZE && modOffset >= size2 && size1 <= modulo - modOffset {
        ModuloPromise(off, vars, modulo, size1, size2);
        return NoAlias, true;
      }
    }
    AnythingPromised(off, vars, size1, size2);
    r, exact := PartialAlias, false;
  }

  lemma SeparatedOrNot(off: nat, vars: seq<VarIndex>, size1: nat, size2: nat)
    requires Proper(vars) && vars != [] && ScaleBits(vars) > 0
    ensures var modulo := Pow2(LowExp(ScaleBits(vars)));
            (exists k: nat :: Separated(k, off, vars, size1, size2)) <==> size2 <= off % modulo && size1 <= modulo - off % modulo
  {
    hide Pow2, LowExp, ScaleBits, Divides;
    var l := LowExp(ScaleBits(vars));
    LowBitOfScales(vars, l);
    if k: nat :| Separated(k, off, vars, size1, size2) { LowestIsBest(k, off, vars, size1, size2); }
    if size2 <= off % Pow2(l) && size1 <= Pow2(l) - off % Pow2(l) { assert Separated(l, off, vars, size1, size2); }
  }

  lemma AnythingPromised(off: nat, vars: seq<VarIndex>, size1: nat, size2: nat)
    ensures forall env {:trigger VarSum(env, vars)} :: Promise(PartialAlias, false, W(off + VarSum(env, vars)), size1, size2)
  {
  }

  lemma NothingBetween(size1: nat, size2: nat)
    ensures forall env {:trigger VarSum(env, [])} :: Promise(MustAlias, true, W(0 + VarSum(env, [])), size1, size2)
  {
    hide Wrap, Pow2;
    WordBig();
    WSmall(0);
  }

  lemma ConstantPromise(off: nat, size1: nat, size2: nat)
    requires off < WORD
    ensures off < WORD / 2 && size2 != UNKNOWN_SIZE ==>
              forall env {:trigger VarSum(env, [])} ::
                Promise(if off < size2 then PartialAlias else NoAlias, true, W(off + VarSum(env, [])), size1, size2)
    ensures WORD / 2 <= off && size1 != UNKNOWN_SIZE ==>
              forall env {:trigger VarSum(env, [])} ::
                Promise(if WORD - off < size1 then PartialAlias else NoAlias, true, W(off + VarSum(env, [])), size1, size2)
  {
    hide Wrap, W, Overlap, Disjoint, Pow2;
    WSmall(off);
    forall n1, n2 | Described(n1, size1) && Described(n2, size2)
      ensures off < WORD / 2 && off < n2 ==> Overlap(off, n1, n2)
      ensures off < WORD / 2 && off >= n2 ==> Disjoint(off, n1, n2)
      ensures WORD / 2 <= off && WORD - off < n1 ==> Overlap(off, n1, n2)
      ensures WORD / 2 <= off && WORD - off >= n1 ==> Disjoint(off, n1, n2)
    {
      if off < WORD / 2 { ConstantAhead(off, n1, n2); } else { ConstantBehind(off, n1, n2); }
    }
  }

  lemma ModuloPromise(off: nat, vars: seq<VarIndex>, modulo: nat, size1: nat, size2: nat)
    requires Proper(vars) && vars != [] && ScaleBits(vars) > 0 && modulo == Pow2(LowExp(ScaleBits(vars)))
    requires size1 != UNKNOWN_SIZE && size2 != UNKNOWN_SIZE
    requires off % modulo >= size2 && size1 <= modulo - off % modulo
    ensures forall env {:trigger VarSum(env, vars)} :: Promise(NoAlias, true, W(off + VarSum(env, vars)), size1, size2)
  {
    hide W, Wrap, Divides, Disjoint, VarSum, Pow2, ScaleBits;
    ScaleDividesWord(vars);
    LowBitOfScales(vars, LowExp(ScaleBits(vars)));
    forall env ensures Promise(NoAlias, true, W(off + VarSum(env, vars)), size1, size2) {
      DividedSum(modulo, env, vars);
      RemainderSame(modulo, off, VarSum(env, vars));
      WordRemainder(modulo, off + VarSum(env, vars));
      ResiduesApart(W(off + VarSum(env, vars)), modulo, size1, size2);
    }
  }

  lemma ScaleDividesWord(vars: seq<VarIndex>)
    requires Proper(vars) && vars != [] && ScaleBits(vars) > 0
    ensures Divides(Pow2(LowExp(ScaleBits(vars))), WORD)
  {
    hide Divides, LowExp;
    BitsBound(vars);
    LowExpBound(ScaleBits(vars), 64);
    Pow2Divides(LowExp(ScaleBits(vars)), 64);
  }

  // ----- Two pointers -----

  predicate SameByte(a1: int, i: int, a2: int, j: int) { W(a1 + i) == W(a2 + j) }

  /** Accesses of n1 and n2 bytes at two addresses have no byte in common. */
  ghost predicate Apart(a1: int, n1: nat, a2: int, n2: nat) {
    forall i, j {:trigger SameByte(a1, i, a2, j)} :: 0 <= i < n1 && 0 <= j < n2 ==> !SameByte(a1, i, a2, j)
  }

  ghost predicate Meet(a1: int, n1: nat, a2: int, n2: nat) {
    exists i, j {:trigger SameByte(a1, i, a2, j)} :: 0 <= i < n1 && 0 <= j < n2 && SameByte(a1, i, a2, j)
  }

  lemma CollideIsMeeting(a1: int, a2: int, i: int, j: int)
    ensures Collide(W(a1 - a2), i, j) <==> SameByte(a1, i, a2, j)
  {
    hide W, Wrap, Pow2;
    WAdd(a1 - a2, i);
    if W(a1 - a2 + i) == W(j) { WSame(a1 - a2 + i, j, a2); }
    if W(a1 + i) == W(a2 + j) { WSame(a1 + i, a2 + j, -a2); }
  }

  lemma DisjointIsApart(a1: int, a2: int, n1: nat, n2: nat)
    ensures Disjoint(W(a1 - a2), n1, n2) <==> Apart(a1, n1, a2, n2)
    ensures Overlap(W(a1 - a2), n1, n2) ==> Meet(a1, n1, a2, n2)
  {
    hide W, Wrap, Collide, SameByte, Pow2;
    var d := W(a1 - a2);
    forall i, j ensures Collide(d, i, j) <==> SameByte(a1, i, a2, j) {
      CollideIsMeeting(a1, a2, i, j);
    }
    if Overlap(d, n1, n2) {
      var i, j :| 0 <= i < n1 && 0 <= j < n2 && Collide(d, i, j);
      assert SameByte(a1, i, a2, j);
    }
  }

  /** What a result means for two accesses: same address, no common byte, or (when exact) a common byte. */
  ghost predicate Outcome(r: AliasResult, exact: bool, a1: int, size1: nat, a2: int, size2: nat) {
    && (r == MustAlias ==> a1 == a2)
    && forall n1, n2 {:trigger Apart(a1, n1, a2, n2)} {:trigger Meet(a1, n1, a2, n2)} ::
         Described(n1, size1) && Described(n2, size2) ==>
           (r == NoAlias ==> Apart(a1, n1, a2, n2)) && (r == PartialAlias && exact ==> Meet(a1, n1, a2, n2))
  }

  lemma PromiseIsOutcome(r: AliasResult, exact: bool, a1: nat, size1: nat, a2: nat, size2: nat)
    requires Promise(r, exact, W(a1 - a2), size1, size2) && a1 < WORD && a2 < WORD
    ensures Outcome(r, exact, a1, size1, a2, size2)
  {
    hide W, Wrap, Disjoint, Overlap, Apart, Meet, Pow2;
    forall n1: nat, n2: nat | Described(n1, size1) && Described(n2, size2)
      ensures (r == NoAlias ==> Apart(a1, n1, a2, n2)) && (r == PartialAlias && exact ==> Meet(a1, n1, a2, n2))
    {
      DisjointIsApart(a1, a2, n1, n2);
      assert Disjoint(W(a1 - a2), n1, n2) || !Disjoint(W(a1 - a2), n1, n2);
    }
    if W(a1 - a2) == 0 { ZeroDifference(a1, a2); }
  }

  lemma ZeroDifference(a1: nat, a2: nat)
    requires W(a1 - a2) == 0 && a1 < WORD && a2 < WORD
    ensures a1 == a2
  {
    if a1 != a2 { WrapSmall(a1 - a2, WORD); }
  }

  lemma DifferenceForm(u: int, o1: int, s1: int, o2: int, s2: int, s: int)
    requires W(s) == W(s1 - s2)
    ensures W(W(o1 - o2) + s) == W(W(u + o1 + s1) - W(u + o2 + s2))
  {
    hide W, Pow2;
    WAdd(o1 - o2, s);
    WSame(s, s1 - s2, o1 - o2);
    WAdd(u + o1 + s1, -W(u + o2 + s2));
    WNegSame2(u + o2 + s2, u + o1 + s1);
  }

  lemma MeansAt(env: Env, p: Ptr, u: Ptr, off: nat, vars: seq<VarIndex>)
    requires Means(p, u, off, vars)
    ensures Addr(env, p) == W(Addr(env, u) + off + VarSum(env, vars))
  {
    hide W, VarSum, Addr;
  }

  lemma DifferenceAt(env: Env, dest: seq<VarIndex>, src: seq<VarIndex>, d: seq<VarIndex>)
    requires IndexDifference(dest, src, d)
    ensures W(VarSum(env, d)) == W(VarSum(env, dest) - VarSum(env, src))
  {
    hide W, VarSum, Pow2;
  }

  /** The difference of two pointers to the same object. */
  lemma SymbolicDifference(env: Env, p1: Ptr, u1: Ptr, off1: nat, vars1: seq<VarIndex>, p2: Ptr, u2: Ptr, off2: nat,
                           vars2: seq<VarIndex>, vars: seq<VarIndex>)
    requires Means(p1, u1, off1, vars1) && Means(p2, u2, off2, vars2) && IndexDifference(vars1, vars2, vars)
    requires Addr(env, u1) == Addr(env, u2)
    ensures W(W(off1 - off2) + VarSum(env, vars)) == W(Addr(env, p1) - Addr(env, p2))
  {
    hide W, VarSum, Addr, IndexDifference, Means, Pow2;
    MeansAt(env, p1, u1, off1, vars1);
    MeansAt(env, p2, u2, off2, vars2);
    DifferenceAt(env, vars1, vars2, vars);
    assert Addr(env, p1) == W(Addr(env, u1) + off1 + VarSum(env, vars1));
    assert Addr(env, p2) == W(Addr(env, u2) + off2 + VarSum(env, vars2));
    DifferenceForm(Addr(env, u1), off1, VarSum(env, vars1), off2, VarSum(env, vars2), VarSum(env, vars));
  }

  lemma WNegSame2(b: int, c: int)
    ensures W(c - W(b)) == W(c - b)
  {
    hide W, Pow2;
    assert W(W(b)) == W(b) by { WAdd(b, 0); }
    WNegSame(W(b), b, c);
  }

  predicate AreVarIndicesEqual(a: seq<VarIndex>, b: seq<VarIndex>) { a == b }

  lemma ShiftedByte(a1: int, i: int, a2: int, j: int, t: int)
    ensures SameByte(W(a1 + t), i, W(a2 + t), j) ==> SameByte(a1, i, a2, j)
  {
    hide W, Pow2;
    WAdd(a1 + t, i);
    WAdd(a2 + t, j);
    if W(a1 + t + i) == W(a2 + t + j) { WSame(a1 + t + i, a2 + t + j, -t); }
  }

  /** Equal offsets from bases that are apart. */
  lemma SameOffsets(env: Env, p1: Ptr, u1: Ptr, p2: Ptr, u2: Ptr, off: nat, vars: seq<VarIndex>, n1: nat, n2: nat)
    requires Means(p1, u1, off, vars) && Means(p2, u2, off, vars)
    requires Apart(Addr(env, u1), n1, Addr(env, u2), n2)
    ensures Apart(Addr(env, p1), n1, Addr(env, p2), n2)
  {
    hide W, VarSum, Addr, SameByte, Pow2;
    var t := off + VarSum(env, vars);
    var a1, a2 := Addr(env, u1), Addr(env, u2);
    assert Addr(env, p1) == W(a1 + t) && Addr(env, p2) == W(a2 + t);
    forall i, j | 0 <= i < n1 && 0 <= j < n2 ensures !SameByte(Addr(env, p1), i, Addr(env, p2), j) {
      ShiftedByte(a1, i, a2, j, t);
    }
  }

  /** What is known about the bases of the two pointers. */
  ghost predicate BaseFact(r: AliasResult, u1: Ptr, size1: nat, u2: Ptr, size2: nat) {
    && (r == MustAlias ==> forall env {:trigger Addr(env, u1)} :: Addr(env, u1) == Addr(env, u2))
    && (r == NoAlias ==> forall env, n1, n2 {:trigger Apart(Addr(env, u1), n1, Addr(env, u2), n2)} ::
          Described(n1, size1) && Described(n2, size2) ==> Apart(Addr(env, u1), n1, Addr(env, u2), n2))
  }

  ghost predicate Right(r: AliasResult, exact: bool, p1: Ptr, size1: nat, p2: Ptr, size2: nat) {
    forall env {:trigger Addr(env, p1)} :: Outcome(r, exact, Addr(env, p1), size1, Addr(env, p2), size2)
  }

  lemma NoAliasRight(p1: Ptr, u1: Ptr, p2: Ptr, u2: Ptr, off: nat, vars: seq<VarIndex>, size1: nat, size2: nat)
    requires Means(p1, u1, off, vars) && Means(p2, u2, off, vars) && BaseFact(NoAlias, u1, size1, u2, size2)
    ensures Right(NoAlias, true, p1, size1, p2, size2)
  {
    hide W, Means, Addr, Apart, Pow2;
    forall env, n1: nat, n2: nat | Described(n1, size1) && Described(n2, size2)
      ensures Apart(Addr(env, p1), n1, Addr(env, p2), n2)
    {
      SameOffsets(env, p1, u1, p2, u2, off, vars, n1, n2);
    }
  }

  lemma ComparedRight(r: AliasResult, exact: bool, p1: Ptr, u1: Ptr, off1: nat, vars1: seq<VarIndex>, size1: nat, p2: Ptr,
                      u2: Ptr, off2: nat, vars2: seq<VarIndex>, size2: nat, vars: seq<VarIndex>)
    requires Means(p1, u1, off1, vars1) && Means(p2, u2, off2, vars2) && IndexDifference(vars1, vars2, vars)
    requires BaseFact(MustAlias, u1, 0, u2, 0)
    requires forall env {:trigger VarSum(env, vars)} :: Promise(r, exact, W(W(off1 - off2) + VarSum(env, vars)), size1, size2)
    ensures Right(r, exact, p1, size1, p2, size2)
  {
    hide W, Means, IndexDifference, Addr, Promise, Outcome, VarSum, Pow2;
    forall env ensures Outcome(r, exact, Addr(env, p1), size1, Addr(env, p2), size2) {
      assert Addr(env, u1) == Addr(env, u2);
      SymbolicDifference(env, p1, u1, off1, vars1, p2, u2, off2, vars2, vars);
      PromiseIsOutcome(r, exact, Addr(env, p1), size1, Addr(env, p2), size2);
    }
  }

  /** The whole answer, from the parts of the two pointers. */
  ghost predicate GepAnswer(masked: ZeroBits, p1: Ptr, size1: nat, p2: Ptr, size2: nat, layout: bool, base: AliasResult,
                            precise: AliasResult, r: AliasResult, exact: bool)
  {
    var d1, d2 := PartsOf(masked, p1, layout), if p2.Gep? then PartsOf(masked, p2, layout) else Parts(p2, Offsets(0, []));
    var found := d1.v == Stripped(p1, MAX_LOOKUP) && (p2.Gep? ==> d2.v == Stripped(p2, MAX_LOOKUP));
    var alike := p2.Gep? && base == MayAlias && size1 == size2 && precise == NoAlias;
    if !p2.Gep? && size1 == size2 == UNKNOWN_SIZE then r == MayAlias
    else if base != MustAlias && !alike then r == base
    else if !found then r == MayAlias
    else if alike then r == if d1.o == d2.o then NoAlias else MayAlias
    else
      var o1: int, o2: int := d1.o.off, d2.o.off;
      Compared(W(o1 - o2), Subtracted(d1.o.vars, d2.o.vars), size1, size2, r, exact)
  }

  /** If all indices are constant and one layout is known, the answer is definite for accesses of known size to one base. */
  lemma ConstantsDecided(masked: ZeroBits, p1: Ptr, size1: nat, p2: Ptr, size2: nat, precise: AliasResult, r: AliasResult,
                         exact: bool)
    requires p1.Gep? && AllSized(p1) && AllSized(p2) && ConstantPath(p1, MAX_LOOKUP) && (p2.Gep? ==> ConstantPath(p2, MAX_LOOKUP))
    requires size1 != UNKNOWN_SIZE && size2 != UNKNOWN_SIZE
    requires GepAnswer(masked, p1, size1, p2, size2, true, MustAlias, precise, r, exact)
    ensures exact && r != MayAlias
  {
    hide W, Pow2, Separated;
    ConstantParts(masked, p1, Offsets(0, []), true, MAX_LOOKUP);
    PartsStripped(masked, p1, Offsets(0, []), MAX_LOOKUP);
    if p2.Gep? {
      ConstantParts(masked, p2, Offsets(0, []), true, MAX_LOOKUP);
      PartsStripped(masked, p2, Offsets(0, []), MAX_LOOKUP);
    }
  }

  /** Two accesses through the same indices are at the same place. */
  lemma SameIndicesMust(masked: ZeroBits, p1: Ptr, p2: Ptr, size1: nat, size2: nat, precise: AliasResult, r: AliasResult, exact: bool)
    requires p1.Gep? && p2.Gep? && AllSized(p1) && AllSized(p2) && Proper(PartsOf(masked, p1, true).o.vars)
    requires PartsOf(masked, p1, true).o == PartsOf(masked, p2, true).o
    requires GepAnswer(masked, p1, size1, p2, size2, true, MustAlias, precise, r, exact)
    ensures r == MustAlias
  {
    hide Wrap, Pow2, Separated, Proper;
    var vars := PartsOf(masked, p1, true).o.vars;
    PartsStripped(masked, p1, Offsets(0, []), MAX_LOOKUP);
    PartsStripped(masked, p2, Offsets(0, []), MAX_LOOKUP);
    EqualCancel(vars, |vars|);
    assert vars[..|vars|] == vars && vars[|vars|..] == [];
    WordBig();
    WSmall(0);
  }

  lemma {:induction false} PartsStripped(masked: ZeroBits, p: Ptr, o: Offsets, n: nat)
    ensures Decomposed(masked, p, o, true, n).v == Stripped(p, n)
    decreases n
  {
    hide WithIndices;
    if n > 0 {
      match p
      case Object(_) =>
      case BitCast(q) => PartsStripped(masked, q, o, n - 1);
      case GlobalAlias(_, overridable, q) => if !overridable { PartsStripped(masked, q, o, n - 1); }
      case Simplified(_, q) => PartsStripped(masked, q, o, n - 1);
      case Gep(_, q, sized, xs) => if sized { PartsStripped(masked, q, WithIndices(masked, xs, o), n - 1); }
    }
  }

  /** Compare a gep with another pointer. base is what is known about the underlying objects whatever the sizes,
      precise what is known about accesses of the given sizes to them. */
  method AliasGEP(masked: ZeroBits, p1: Ptr, size1: nat, p2: Ptr, size2: nat, layout: bool,
                  base: AliasResult, precise: AliasResult) returns (r: AliasResult, exact: bool)
    requires p1.Gep? && WellTyped(p1) && WellTyped(p2) && AllSized(p1) && AllSized(p2)
    requires size1 < WORD && size2 < WORD
    requires var u1 := Stripped(p1, MAX_LOOKUP); var u2 := if p2.Gep? then Stripped(p2, MAX_LOOKUP) else p2;
             (base == MustAlias ==> BaseFact(base, u1, 0, u2, 0)) && BaseFact(precise, u1, size1, u2, size2)
    ensures Sound(masked) && base == MustAlias ==> Right(r, exact, p1, size1, p2, size2)
    ensures GepAnswer(masked, p1, size1, p2, size2, layout, base, precise, r, exact)
    ensures Sound(masked) && base == MayAlias && r == NoAlias ==> Right(r, exact, p1, size1, p2, size2)
  {
    hide W, BaseFact, Means, IndexDifference, Right, Sound, Stripped, Promise, Proper, VarSum, Pow2, Compared, Subtracted, PartsOf;
    exact := true;
    var u1 := GetUnderlyingObject(p1);
    if p2.Gep? {
      var u2 := GetUnderlyingObject(p2);
      if base == MayAlias && size1 == size2 && precise == NoAlias {
        var b2, off2, vars2 := DecomposeGEPExpression(masked, p2, layout);
        var b1, off1, vars1 := DecomposeGEPExpression(masked, p1, layout);
        if b1 != u1 || b2 != u2 {
          assert !layout;
          return MayAlias, true;
        }
        if off1 == off2 && AreVarIndicesEqual(vars1, vars2) {
          if Sound(masked) { NoAliasRight(p1, u1, p2, u2, off1, vars1, size1, size2); }
          return NoAlias, true;
        }
      }
      if base != MustAlias {
        return base, true;
      }
      var b1, off1, vars1 := DecomposeGEPExpression(masked, p1, layout);
      var b2, off2, vars2 := DecomposeGEPExpression(masked, p2, layout);
      if b1 != u1 || b2 != u2 {
        assert !layout;
        MayAliasRight(p1, size1, p2, size2);
        return MayAlias, true;
      }
      var vars := GetIndexDifference(vars1, vars2);
      var o1: int, o2: int := off1, off2;
      r, exact := CompareOffsets(W(o1 - o2), vars, size1, size2);
      if Sound(masked) {
        ComparedRight(r, exact, p1, u1, off1, vars1, size1, p2, u2, off2, vars2, size2, vars);
      }
    } else {
      if size1 == UNKNOWN_SIZE && size2 == UNKNOWN_SIZE {
        MayAliasRight(p1, size1, p2, size2);
        return MayAlias, true;
      }
      if base != MustAlias {
        return base, true;
      }
      var b1, off1, vars1 := DecomposeGEPExpression(masked, p1, layout);
      if b1 != u1 {
        assert !layout;
        MayAliasRight(p1, size1, p2, size2);
        return MayAlias, true;
      }
      r, exact := CompareOffsets(off1, vars1, size1, size2);
      NoneSubtracted(off1, vars1);
      if Sound(masked) { PlainRight(r, exact, p1, u1, off1, vars1, size1, p2, size2); }
    }
  }

  lemma NoneSubtracted(off: nat, vars: seq<VarIndex>)
    requires off < WORD
    ensures W(off - 0) == off && Subtracted(vars, []) == vars
  {
    WSmall(off);
  }

  lemma MayAliasRight(p1: Ptr, size1: nat, p2: Ptr, size2: nat)
    ensures Right(MayAlias, true, p1, size1, p2, size2)
  {
  }

  lemma PlainRight(r: AliasResult, exact: bool, p1: Ptr, u1: Ptr, off1: nat, vars1: seq<VarIndex>, size1: nat, p2: Ptr,
                   size2: nat)
    requires Means(p1, u1, off1, vars1) && BaseFact(MustAlias, u1, 0, p2, 0) && off1 < WORD
    requires forall env {:trigger VarSum(env, vars1)} :: Promise(r, exact, W(off1 + VarSum(env, vars1)), size1, size2)
    ensures Right(r, exact, p1, size1, p2, size2)
  {
    hide W, Means, IndexDifference, Addr, Promise, BaseFact, Right, VarSum, Pow2;
    MeansStart(p2);
    NoDifference(vars1);
    assert W(off1 - 0) == off1 by { WSmall(off1); }
    forall env ensures Promise(r, exact, W(W(off1 - 0) + VarSum(env, vars1)), size1, size2) {
    }
    ComparedRight(r, exact, p1, u1, off1, vars1, size1, p2, p2, 0, [], size2, vars1);
  }
}
