/** Wrapping ranges of machine integers, and the proof that each operation covers what it must cover.
    A range of width w lives modulo m = 2^w; its bounds and its members are numbers below m. */
module ConstantRange {

  /** Lower == Upper means full when both are the largest value and empty when both are 0. */
  datatype Range = Range(m: nat, lo: int, hi: int)
  {
    predicate Valid() {
      m >= 2 && 0 <= lo < m && 0 <= hi < m && (lo == hi ==> lo == 0 || lo == m - 1)
    }

    predicate IsFullSet() { lo == hi == m - 1 }

    predicate IsEmptySet() { lo == hi == 0 }

    predicate IsWrappedSet() { lo > hi }

    predicate Contains(v: int) {
      if lo == hi then IsFullSet()
      else if !IsWrappedSet() then lo <= v < hi
      else lo <= v || v < hi
    }

    predicate IsSingleElement()
      requires m > 0
    {
      hi == Wrap(lo + 1, m)
    }

    /** Number of elements of a set. */
    function GetSetSize(): int
      requires Valid()
    {
      if IsEmptySet() then 0 else if IsFullSet() then m else (hi - lo) % m
    }

    function GetUnsignedMax(): int
      requires Valid()
    {
      if IsFullSet() || IsWrappedSet() then m - 1 else Wrap(hi - 1, m)
    }

    function GetUnsignedMin(): int {
      if IsFullSet() || (IsWrappedSet() && hi != 0) then 0 else lo
    }
  }

  function Wrap(x: int, m: nat): (r: int)
    requires m > 0
    ensures 0 <= r < m
  {
    x % m
  }

  function FullSet(m: nat): Range { Range(m, m - 1, m - 1) }

  function EmptySet(m: nat): Range { Range(m, 0, 0) }

  function Single(v: int, m: nat): Range
    requires m > 0
  {
    Range(m, v, Wrap(v + 1, m))
  }

  predicate InWidth(v: int, m: nat) { 0 <= v < m }

  lemma SingleContains(v: int, m: nat)
    requires m >= 2 && InWidth(v, m)
    ensures Single(v, m).Valid()
    ensures forall x :: InWidth(x, m) ==> (Single(v, m).Contains(x) <==> x == v)
  {
  }

  /** The unsigned bounds are bounds, and are attained. */
  lemma UnsignedBounds(r: Range, v: int)
    requires r.Valid() && !r.IsEmptySet() && InWidth(v, r.m) && r.Contains(v)
    ensures r.GetUnsignedMin() <= v <= r.GetUnsignedMax() < r.m && 0 <= r.GetUnsignedMin()
  {
  }

  // ----- Set operations -----

  function Inverse(r: Range): Range {
    if r.IsFullSet() then EmptySet(r.m)
    else if r.IsEmptySet() then FullSet(r.m)
    else Range(r.m, r.hi, r.lo)
  }

  lemma InverseExact(r: Range, v: int)
    requires r.Valid() && InWidth(v, r.m)
    ensures Inverse(r).Valid() && (Inverse(r).Contains(v) <==> !r.Contains(v))
  {
  }

  function Smaller(a: Range, b: Range): Range
    requires a.Valid() && b.Valid()
  {
    if a.GetSetSize() < b.GetSetSize() then a else b
  }

  function IntersectWith(a: Range, b: Range): Range
    requires a.Valid() && b.Valid() && a.m == b.m
  {
    if a.IsEmptySet() || b.IsFullSet() then a
    else if b.IsEmptySet() || a.IsFullSet() then b
    else if !a.IsWrappedSet() && b.IsWrappedSet() then IntersectWrapped(b, a)
    else if !a.IsWrappedSet() && !b.IsWrappedSet() then
      if a.lo < b.lo then
        if a.hi <= b.lo then EmptySet(a.m)
        else if a.hi < b.hi then Range(a.m, b.lo, a.hi)
        else b
      else if a.hi < b.hi then a
      else if a.lo < b.hi then Range(a.m, a.lo, b.hi)
      else EmptySet(a.m)
    else IntersectWrapped(a, b)
  }

  /** The cases in which the first range wraps. */
  function IntersectWrapped(a: Range, b: Range): Range
    requires a.Valid() && b.Valid() && a.m == b.m && a.IsWrappedSet()
  {
    if !b.IsWrappedSet() then
      if b.lo < a.hi then
        if b.hi < a.hi then b
        else if b.hi <= a.lo then Range(a.m, b.lo, a.hi)
        else Smaller(a, b)
      else if b.lo < a.lo then
        if b.hi <= a.lo then EmptySet(a.m) else Range(a.m, a.lo, b.hi)
      else b
    else if b.hi < a.hi then
      if b.lo < a.hi then Smaller(a, b)
      else if b.lo < a.lo then Range(a.m, a.lo, b.hi)
      else b
    else if b.hi <= a.lo then
      if b.lo < a.lo then a else Range(a.m, b.lo, a.hi)
    else Smaller(a, b)
  }

  /** An intersection covers what both ranges contain, and contains nothing that neither does. */
  lemma IntersectCovers(a: Range, b: Range, v: int)
    requires a.Valid() && b.Valid() && a.m == b.m && InWidth(v, a.m)
    ensures IntersectWith(a, b).Valid() && IntersectWith(a, b).m == a.m
    ensures a.Contains(v) && b.Contains(v) ==> IntersectWith(a, b).Contains(v)
    ensures IntersectWith(a, b).Contains(v) ==> a.Contains(v) || b.Contains(v)
  {
  }

  function Difference(a: Range, b: Range): Range
    requires a.Valid() && b.Valid() && a.m == b.m
  {
    InverseExact(b, 0);
    IntersectWith(a, Inverse(b))
  }

  lemma DifferenceCovers(a: Range, b: Range, v: int)
    requires a.Valid() && b.Valid() && a.m == b.m && InWidth(v, a.m)
    ensures Difference(a, b).Valid() && Difference(a, b).m == a.m
    ensures a.Contains(v) && !b.Contains(v) ==> Difference(a, b).Contains(v)
  {
    InverseExact(b, v);
    IntersectCovers(a, Inverse(b), v);
  }

  function UnionWith(a: Range, b: Range): Range
    requires a.Valid() && b.Valid() && a.m == b.m
  {
    if a.IsFullSet() || b.IsEmptySet() then a
    else if b.IsFullSet() || a.IsEmptySet() then b
    else if !a.IsWrappedSet() && b.IsWrappedSet() then UnionWrapped(b, a)
    else if !a.IsWrappedSet() && !b.IsWrappedSet() then
      if b.hi < a.lo || a.hi < b.lo then
        // Disjoint: bridge the smaller gap
        if Wrap(b.lo - a.hi, a.m) < Wrap(a.lo - b.hi, a.m) then Range(a.m, a.lo, b.hi) else Range(a.m, b.lo, a.hi)
      else
        var l := if b.lo < a.lo then b.lo else a.lo;
        var u := if Wrap(b.hi - 1, a.m) > Wrap(a.hi - 1, a.m) then b.hi else a.hi;
        if l == 0 && u == 0 then FullSet(a.m) else Range(a.m, l, u)
    else UnionWrapped(a, b)
  }

  function UnionWrapped(a: Range, b: Range): Range
    requires a.Valid() && b.Valid() && a.m == b.m && a.IsWrappedSet()
  {
    if !b.IsWrappedSet() then
      if b.hi <= a.hi || b.lo >= a.lo then a
      else if b.lo <= a.hi && a.lo <= b.hi then FullSet(a.m)
      else if a.hi <= b.lo && b.hi <= a.lo then
        if Wrap(b.lo - a.hi, a.m) < Wrap(a.lo - b.hi, a.m) then Range(a.m, a.lo, b.hi) else Range(a.m, b.lo, a.hi)
      else if a.hi < b.lo && a.lo < b.hi then Range(a.m, b.lo, a.hi)
      else Range(a.m, a.lo, b.hi)
    else if b.lo <= a.hi || a.lo <= b.hi then FullSet(a.m)
    else Range(a.m, if b.lo < a.lo then b.lo else a.lo, if b.hi > a.hi then b.hi else a.hi)
  }

  lemma WrapSmall(x: int, m: nat)
    requires m > 0 && 0 <= x + m && x < m
    ensures Wrap(x, m) == if x < 0 then x + m else x
  {
    if x < 0 { assert x % m == (x + m) % m; }
  }

  /** A union covers both ranges. */
  lemma UnionCovers(a: Range, b: Range, v: int)
    requires a.Valid() && b.Valid() && a.m == b.m && InWidth(v, a.m)
    ensures UnionWith(a, b).Valid() && UnionWith(a, b).m == a.m
    ensures a.Contains(v) || b.Contains(v) ==> UnionWith(a, b).Contains(v)
  {
    if a.IsWrappedSet() {
      UnionWrappedCovers(a, b, v);
    } else if b.IsWrappedSet() {
      UnionWrappedCovers(b, a, v);
    } else if a.lo != a.hi && b.lo != b.hi {
      UnionFlatCovers(a, b, v);
    }
  }

  lemma UnionFlatCovers(a: Range, b: Range, v: int)
    requires a.Valid() && b.Valid() && a.m == b.m && InWidth(v, a.m) && a.lo < a.hi && b.lo < b.hi
    ensures UnionWith(a, b).Valid() && UnionWith(a, b).m == a.m
    ensures a.Contains(v) || b.Contains(v) ==> UnionWith(a, b).Contains(v)
  {
    hide Wrap;
    WrapSmall(b.lo - a.hi, a.m);
    WrapSmall(a.lo - b.hi, a.m);
    WrapSmall(a.hi - 1, a.m);
    WrapSmall(b.hi - 1, a.m);
  }

  lemma UnionWrappedCovers(a: Range, b: Range, v: int)
    requires a.Valid() && b.Valid() && a.m == b.m && InWidth(v, a.m) && a.IsWrappedSet()
    ensures b.lo != b.hi ==> UnionWrapped(a, b).Valid() && UnionWrapped(a, b).m == a.m
    ensures b.lo != b.hi && (a.Contains(v) || b.Contains(v)) ==> UnionWrapped(a, b).Contains(v)
  {
    hide Wrap;
    WrapSmall(b.lo - a.hi, a.m);
    WrapSmall(a.lo - b.hi, a.m);
  }

  /** The unsigned bounds are members. */
  lemma BoundsAttained(r: Range)
    requires r.Valid() && !r.IsEmptySet()
    ensures InWidth(r.GetUnsignedMin(), r.m) && r.Contains(r.GetUnsignedMin())
    ensures InWidth(r.GetUnsignedMax(), r.m) && r.Contains(r.GetUnsignedMax()) && r.GetUnsignedMin() <= r.GetUnsignedMax()
  {
    if r.hi != 0 { WrapSmall(r.hi - 1, r.m); } else { WrapSmall(-1, r.m); }
  }

  // ----- Comparisons -----

  datatype Pred = EQ | NE | UGT | UGE | ULT | ULE | SGT | SGE | SLT | SLE

  function Signed(x: int, m: nat): int { if 2 * x >= m then x - m else x }

  predicate Compare(p: Pred, x: int, y: int, m: nat) {
    match p
    case EQ => x == y
    case NE => x != y
    case UGT => x > y
    case UGE => x >= y
    case ULT => x < y
    case ULE => x <= y
    case SGT => Signed(x, m) > Signed(y, m)
    case SGE => Signed(x, m) >= Signed(y, m)
    case SLT => Signed(x, m) < Signed(y, m)
    case SLE => Signed(x, m) <= Signed(y, m)
  }

  function GetSignedMax(r: Range): int
    requires r.Valid()
  {
    var max := r.m / 2 - 1;
    var last := Wrap(r.hi - 1, r.m);
    if !r.IsWrappedSet() then if Signed(r.lo, r.m) <= Signed(last, r.m) then last else max
    else if (2 * r.lo >= r.m) == (2 * r.hi >= r.m) then max
    else last
  }

  function GetSignedMin(r: Range): int
    requires r.Valid()
  {
    var min := r.m / 2;
    var last := Wrap(r.hi - 1, r.m);
    if !r.IsWrappedSet() then if Signed(r.lo, r.m) <= Signed(last, r.m) then r.lo else min
    else if Signed(last, r.m) < Signed(r.lo, r.m) && r.hi != min then min
    else r.lo
  }

  /** The values that may satisfy a comparison with some member of r. */
  function MakeICmpRegion(p: Pred, r: Range): Range
    requires r.Valid()
  {
    var m := r.m;
    if r.IsEmptySet() then r
    else
      match p
      case EQ => r
      case NE => if r.IsSingleElement() then Range(m, r.hi, r.lo) else FullSet(m)
      case ULT => if r.GetUnsignedMax() == 0 then EmptySet(m) else Range(m, 0, r.GetUnsignedMax())
      case SLT => if GetSignedMax(r) == m / 2 then EmptySet(m) else Range(m, m / 2, GetSignedMax(r))
      case ULE => if r.GetUnsignedMax() == m - 1 then FullSet(m) else Range(m, 0, r.GetUnsignedMax() + 1)
      case SLE => if GetSignedMax(r) == m / 2 - 1 then FullSet(m) else Range(m, m / 2, Wrap(GetSignedMax(r) + 1, m))
      case UGT => if r.GetUnsignedMin() == m - 1 then EmptySet(m) else Range(m, r.GetUnsignedMin() + 1, 0)
      case SGT => if GetSignedMin(r) == m / 2 - 1 then EmptySet(m) else Range(m, Wrap(GetSignedMin(r) + 1, m), m / 2)
      case UGE => if r.GetUnsignedMin() == 0 then FullSet(m) else Range(m, r.GetUnsignedMin(), 0)
      case SGE => if GetSignedMin(r) == m / 2 then FullSet(m) else Range(m, GetSignedMin(r), m / 2)
  }

  lemma SingleBounds(c: int, m: nat)
    requires m >= 2 && m % 2 == 0 && InWidth(c, m)
    ensures var r := Single(c, m);
            r.GetUnsignedMax() == c && r.GetUnsignedMin() == c && GetSignedMax(r) == c && GetSignedMin(r) == c
  {
    if c + 1 < m {
      WrapSmall(c + 1, m);
      WrapSmall(c, m);
    } else {
      assert Wrap(m, m) == 0;
      WrapSmall(-1, m);
    }
    hide Wrap;
  }

  /** For a single constant the region is exact. */
  lemma RegionExact(p: Pred, c: int, m: nat, x: int)
    requires m >= 2 && m % 2 == 0 && InWidth(c, m) && InWidth(x, m)
    ensures MakeICmpRegion(p, Single(c, m)).Valid() && MakeICmpRegion(p, Single(c, m)).m == m
    ensures MakeICmpRegion(p, Single(c, m)).Contains(x) <==> Compare(p, x, c, m)
  {
    if p in {SLT, SLE, SGT, SGE} { SignedRegionExact(p, c, m, x); } else { UnsignedRegionExact(p, c, m, x); }
  }

  lemma UnsignedRegionExact(p: Pred, c: int, m: nat, x: int)
    requires m >= 2 && m % 2 == 0 && InWidth(c, m) && InWidth(x, m) && p in {EQ, NE, ULT, ULE, UGT, UGE}
    ensures MakeICmpRegion(p, Single(c, m)).Valid() && MakeICmpRegion(p, Single(c, m)).m == m
    ensures MakeICmpRegion(p, Single(c, m)).Contains(x) <==> Compare(p, x, c, m)
  {
    hide Wrap, Range.GetUnsignedMax, Range.GetUnsignedMin, GetSignedMax, GetSignedMin, Signed;
    SingleBounds(c, m);
    if c + 1 < m { WrapSmall(c + 1, m); } else { WrapWhole(m); }
    match p
    case EQ => case NE => case ULT => case ULE => case UGT => case UGE =>
  }

  lemma SignedRegionExact(p: Pred, c: int, m: nat, x: int)
    requires m >= 2 && m % 2 == 0 && InWidth(c, m) && InWidth(x, m) && p in {SLT, SLE, SGT, SGE}
    ensures MakeICmpRegion(p, Single(c, m)).Valid() && MakeICmpRegion(p, Single(c, m)).m == m
    ensures MakeICmpRegion(p, Single(c, m)).Contains(x) <==> Compare(p, x, c, m)
  {
    hide Wrap, Range.GetUnsignedMax, Range.GetUnsignedMin, GetSignedMax, GetSignedMin, Signed, Range.Contains;
    SingleBounds(c, m);
    SingleNotEmpty(c, m);
    if c + 1 < m { WrapSmall(c + 1, m); } else { WrapWhole(m); }
    var half := m / 2;
    assert m == half + half;
    BelowSigned(half, c, x);
    match p
    case SLT => case SLE => case SGT => case SGE =>
  }

  lemma SingleNotEmpty(c: int, m: nat)
    requires m >= 2 && InWidth(c, m)
    ensures !Single(c, m).IsEmptySet()
  {
    if c + 1 < m { WrapSmall(c + 1, m); } else { WrapWhole(m); }
  }

  /** The ranges below and above c, as signed numbers of which half are negative. */
  lemma BelowSigned(half: nat, c: int, x: int)
    requires half >= 1 && InWidth(c, 2 * half) && InWidth(x, 2 * half)
    ensures var m := 2 * half; var n := if c + 1 == m then 0 else c + 1;
            && (c != half ==> (Range(m, half, c).Contains(x) <==> Signed(x, m) < Signed(c, m)))
            && (c == half ==> Signed(x, m) >= Signed(c, m))
            && (c != half - 1 ==> (Range(m, half, n).Contains(x) <==> Signed(x, m) <= Signed(c, m)))
            && (c == half - 1 ==> Signed(x, m) <= Signed(c, m))
            && (c != half - 1 ==> (Range(m, n, half).Contains(x) <==> Signed(x, m) > Signed(c, m)))
            && (c != half ==> (Range(m, c, half).Contains(x) <==> Signed(x, m) >= Signed(c, m)))
            && FullSet(m).Contains(x) && !EmptySet(m).Contains(x)
  {
  }

  /** The values that satisfy a comparison with the constant c. */
  function MakeConstantRange(p: Pred, c: int, m: nat): Range
    requires m >= 2
  {
    match p
    case EQ => Range(m, c, Wrap(c + 1, m))
    case NE => Range(m, Wrap(c + 1, m), c)
    case ULT => if 0 == c then EmptySet(m) else Range(m, 0, c)
    case SLT => if m / 2 == c then EmptySet(m) else Range(m, m / 2, c)
    case UGT => if Wrap(c + 1, m) == 0 then EmptySet(m) else Range(m, Wrap(c + 1, m), 0)
    case SGT => if Wrap(c + 1, m) == m / 2 then EmptySet(m) else Range(m, Wrap(c + 1, m), m / 2)
    case ULE => if 0 == Wrap(c + 1, m) then FullSet(m) else Range(m, 0, Wrap(c + 1, m))
    case SLE => if m / 2 == Wrap(c + 1, m) then FullSet(m) else Range(m, m / 2, Wrap(c + 1, m))
    case UGE => if c == 0 then FullSet(m) else Range(m, c, 0)
    case SGE => if c == m / 2 then FullSet(m) else Range(m, c, m / 2)
  }

  lemma ConstantRangeExact(p: Pred, c: int, m: nat, x: int)
    requires m >= 2 && m % 2 == 0 && InWidth(c, m) && InWidth(x, m)
    ensures MakeConstantRange(p, c, m).Valid() && MakeConstantRange(p, c, m).m == m
    ensures MakeConstantRange(p, c, m).Contains(x) <==> Compare(p, x, c, m)
  {
    if p in {SLT, SLE, SGT, SGE} { SignedRangeExact(p, c, m, x); } else { UnsignedRangeExact(p, c, m, x); }
  }

  lemma UnsignedRangeExact(p: Pred, c: int, m: nat, x: int)
    requires m >= 2 && InWidth(c, m) && InWidth(x, m) && p in {EQ, NE, ULT, ULE, UGT, UGE}
    ensures MakeConstantRange(p, c, m).Valid() && MakeConstantRange(p, c, m).m == m
    ensures MakeConstantRange(p, c, m).Contains(x) <==> Compare(p, x, c, m)
  {
    hide Wrap, Signed;
    if c + 1 < m { WrapSmall(c + 1, m); } else { WrapWhole(m); }
    match p
    case EQ => case NE => case ULT => case ULE => case UGT => case UGE =>
  }

  lemma SignedRangeExact(p: Pred, c: int, m: nat, x: int)
    requires m >= 2 && m % 2 == 0 && InWidth(c, m) && InWidth(x, m) && p in {SLT, SLE, SGT, SGE}
    ensures MakeConstantRange(p, c, m).Valid() && MakeConstantRange(p, c, m).m == m
    ensures MakeConstantRange(p, c, m).Contains(x) <==> Compare(p, x, c, m)
  {
    hide Wrap, Signed, Range.Contains;
    if c + 1 < m { WrapSmall(c + 1, m); } else { WrapWhole(m); }
    var half := m / 2;
    assert m == half + half;
    BelowSigned(half, c, x);
    match p
    case SLT => case SLE => case SGT => case SGE =>
  }

  lemma WrapWhole(m: nat)
    requires m > 0
    ensures Wrap(m, m) == 0
  {
  }

  /** The test whether one range lies within another. */
  predicate ContainsRange(a: Range, b: Range) {
    if a.IsFullSet() || b.IsEmptySet() then true
    else if a.IsEmptySet() || b.IsFullSet() then false
    else if !a.IsWrappedSet() then !b.IsWrappedSet() && a.lo <= b.lo && b.hi <= a.hi
    else if !b.IsWrappedSet() then b.hi <= a.hi || a.lo <= b.lo
    else b.hi <= a.hi && a.lo <= b.lo
  }

  lemma ContainsRangeSound(a: Range, b: Range, v: int)
    requires a.Valid() && b.Valid() && a.m == b.m && InWidth(v, a.m)
    requires ContainsRange(a, b) && b.Contains(v)
    ensures a.Contains(v)
  {
  }

  // ----- Arithmetic -----

  /** Distance from the lower bound tells membership. */
  lemma Cyclic(r: Range, v: int)
    requires r.Valid() && r.lo != r.hi && InWidth(v, r.m)
    ensures r.Contains(v) <==> Wrap(v - r.lo, r.m) < Wrap(r.hi - r.lo, r.m)
  {
    WrapSmall(v - r.lo, r.m);
    WrapSmall(r.hi - r.lo, r.m);
  }

  lemma {:induction false} MulAtLeast(d: int, m: nat)
    requires d >= 1
    ensures d * m >= m
  {
    assert (d - 1) * m >= 0;
    assert d * m == (d - 1) * m + m;
  }

  lemma UniqueQuotient(q: int, r: int, q': int, r': int, m: nat)
    requires q * m + r == q' * m + r' && 0 <= r < m && 0 <= r' < m
    ensures q == q' && r == r'
  {
    assert (q - q') * m == q * m - q' * m == r' - r;
    assert (q' - q) * m == q' * m - q * m == r - r';
    if q > q' { MulAtLeast(q - q', m); }
    if q < q' { MulAtLeast(q' - q, m); }
  }

  /** The only way to write x with a quotient and a small remainder. */
  lemma DivModUnique(x: int, q: int, r: int, m: nat)
    requires 0 <= r < m && x == q * m + r
    ensures x / m == q && x % m == r
  {
    UniqueQuotient(q, r, x / m, x % m, m);
  }

  lemma WrapShift(x: int, k: int, m: nat)
    requires m > 0
    ensures Wrap(x + k * m, m) == Wrap(x, m)
  {
    var q, r := x / m, x % m;
    assert (q + k) * m == q * m + k * m;
    DivModUnique(x + k * m, q + k, r, m);
  }

  /** Congruent numbers wrap alike. */
  lemma WrapCongruent(x: int, y: int, k: int, m: nat)
    requires m > 0 && x == y + k * m
    ensures Wrap(x, m) == Wrap(y, m)
  {
    WrapShift(y, k, m);
  }

  function Subtract(r: Range, c: int): Range
    requires r.m > 0
  {
    if r.lo == r.hi then r else Range(r.m, Wrap(r.lo - c, r.m), Wrap(r.hi - c, r.m))
  }

  /** v is in r - c exactly when v + c is in r. */
  lemma SubtractExact(r: Range, c: int, v: int)
    requires r.Valid() && InWidth(c, r.m) && InWidth(v, r.m)
    ensures Subtract(r, c).Valid() && (Subtract(r, c).Contains(v) <==> r.Contains(Wrap(v + c, r.m)))
  {
    hide Wrap;
    var m := r.m;
    WrapSmall(r.lo - c, m);
    WrapSmall(r.hi - c, m);
    WrapSmall(v + c - m, m);
    WrapCongruent(v + c, v + c - m, 1, m);
  }

  function Add(a: Range, b: Range): Range
    requires a.Valid() && b.Valid() && a.m == b.m
  {
    var m := a.m;
    if a.IsEmptySet() || b.IsEmptySet() then EmptySet(m)
    else if a.IsFullSet() || b.IsFullSet() then FullSet(m)
    else Spread(a, b, Wrap(a.lo + b.lo, m), Wrap(a.hi + b.hi - 1, m))
  }

  function Sub(a: Range, b: Range): Range
    requires a.Valid() && b.Valid() && a.m == b.m
  {
    var m := a.m;
    if a.IsEmptySet() || b.IsEmptySet() then EmptySet(m)
    else if a.IsFullSet() || b.IsFullSet() then FullSet(m)
    else Spread(a, b, Wrap(a.lo - b.hi + 1, m), Wrap(a.hi - b.lo, m))
  }

  /** The range from l to u, unless it is smaller than an operand and so must have wrapped around. */
  function Spread(a: Range, b: Range, l: int, u: int): Range
    requires a.Valid() && b.Valid() && a.m == b.m && InWidth(l, a.m) && InWidth(u, a.m)
  {
    if l == u then FullSet(a.m)
    else
      var x := Range(a.m, l, u);
      if x.GetSetSize() < a.GetSetSize() || x.GetSetSize() < b.GetSetSize() then FullSet(a.m) else x
  }

  /** What Spread needs: the distances of the operands add up, and so do the sizes. */
  lemma SpreadCovers(a: Range, b: Range, l: int, u: int, s: int, i: int, j: int)
    requires a.Valid() && b.Valid() && a.m == b.m && InWidth(l, a.m) && InWidth(u, a.m) && InWidth(s, a.m)
    requires a.lo != a.hi && b.lo != b.hi
    requires 0 <= i < a.GetSetSize() && 0 <= j < b.GetSetSize()
    requires Wrap(s - l, a.m) == Wrap(i + j, a.m)
    requires Wrap(u - l, a.m) == Wrap(a.GetSetSize() + b.GetSetSize() - 1, a.m)
    ensures Spread(a, b, l, u).Valid() && Spread(a, b, l, u).m == a.m && Spread(a, b, l, u).Contains(s)
  {
    var m := a.m;
    var n := a.GetSetSize() + b.GetSetSize() - 1;
    if l != u {
      Cyclic(Range(m, l, u), s);
      WrapSmall(n - m, m);
      assert Wrap(n, m) == Wrap(n - m, m) by { WrapCongruent(n, n - m, 1, m); }
      if n < m { WrapSmall(i + j, m); WrapSmall(n, m); }
    }
  }

  lemma AddCovers(a: Range, b: Range, v: int, w: int)
    requires a.Valid() && b.Valid() && a.m == b.m && InWidth(v, a.m) && InWidth(w, a.m)
    requires a.Contains(v) && b.Contains(w)
    ensures Add(a, b).Valid() && Add(a, b).m == a.m && Add(a, b).Contains(Wrap(v + w, a.m))
  {
    hide Wrap, Spread;
    if !(a.IsFullSet() || b.IsFullSet()) { AddProper(a, b, v, w); }
  }

  lemma AddProper(a: Range, b: Range, v: int, w: int)
    requires a.Valid() && b.Valid() && a.m == b.m && InWidth(v, a.m) && InWidth(w, a.m)
    requires a.Contains(v) && b.Contains(w) && a.lo != a.hi && b.lo != b.hi
    ensures var r := Spread(a, b, Wrap(a.lo + b.lo, a.m), Wrap(a.hi + b.hi - 1, a.m));
            r.Valid() && r.m == a.m && r.Contains(Wrap(v + w, a.m))
  {
    hide Wrap, Spread, Range.Contains, Range.GetSetSize;
    var m := a.m;
    Cyclic(a, v);
    Cyclic(b, w);
    SetSizeIs(a);
    SetSizeIs(b);
    var i, j := Wrap(v - a.lo, m), Wrap(w - b.lo, m);
    SumsAgree(v, w, a.lo, b.lo, m);
    SumsAgree(a.hi, b.hi - 1, a.lo, b.lo, m);
    SumLessOneAgrees(a.hi - a.lo, b.hi - b.lo, m);
    SpreadCovers(a, b, Wrap(a.lo + b.lo, m), Wrap(a.hi + b.hi - 1, m), Wrap(v + w, m), i, j);
  }

  lemma SetSizeIs(r: Range)
    requires r.Valid() && r.lo != r.hi
    ensures r.GetSetSize() == Wrap(r.hi - r.lo, r.m)
  {
  }

  /** Wrapping before or after a difference of sums makes no difference. */
  lemma SumsAgree(v: int, w: int, l: int, k: int, m: nat)
    requires m > 0
    ensures Wrap(Wrap(v + w, m) - Wrap(l + k, m), m) == Wrap((v - l) + (w - k), m)
    ensures Wrap(Wrap(v - l, m) + Wrap(w - k, m), m) == Wrap((v - l) + (w - k), m)
  {
    var q1, q2 := (v + w) / m, (l + k) / m;
    WrapCongruent(Wrap(v + w, m) - Wrap(l + k, m), (v - l) + (w - k), q2 - q1, m);
    var q3, q4 := (v - l) / m, (w - k) / m;
    WrapCongruent(Wrap(v - l, m) + Wrap(w - k, m), (v - l) + (w - k), -q3 - q4, m);
  }

  lemma SumLessOneAgrees(x: int, y: int, m: nat)
    requires m > 0
    ensures Wrap(Wrap(x, m) + Wrap(y, m) - 1, m) == Wrap(x + y - 1, m)
  {
    WrapCongruent(Wrap(x, m) + Wrap(y, m) - 1, x + y - 1, -(x / m) - (y / m), m);
  }

  lemma SubCovers(a: Range, b: Range, v: int, w: int)
    requires a.Valid() && b.Valid() && a.m == b.m && InWidth(v, a.m) && InWidth(w, a.m)
    requires a.Contains(v) && b.Contains(w)
    ensures Sub(a, b).Valid() && Sub(a, b).m == a.m && Sub(a, b).Contains(Wrap(v - w, a.m))
  {
    hide Wrap, Spread;
    if !(a.IsFullSet() || b.IsFullSet()) { SubProper(a, b, v, w); }
  }

  lemma SubProper(a: Range, b: Range, v: int, w: int)
    requires a.Valid() && b.Valid() && a.m == b.m && InWidth(v, a.m) && InWidth(w, a.m)
    requires a.Contains(v) && b.Contains(w) && a.lo != a.hi && b.lo != b.hi
    ensures var r := Spread(a, b, Wrap(a.lo - b.hi + 1, a.m), Wrap(a.hi - b.lo, a.m));
            r.Valid() && r.m == a.m && r.Contains(Wrap(v - w, a.m))
  {
    hide Wrap, Spread, Range.Contains, Range.GetSetSize;
    var m := a.m;
    Cyclic(a, v);
    FromTop(b, w);
    SetSizeIs(a);
    SetSizeIs(b);
    var i, j := Wrap(v - a.lo, m), Wrap((b.hi - 1) - w, m);
    SumsAgree(v, -w, a.lo, -(b.hi - 1), m);
    SumsAgree(a.hi, -b.lo, a.lo, -(b.hi - 1), m);
    SumLessOneAgrees(a.hi - a.lo, b.hi - b.lo, m);
    SpreadCovers(a, b, Wrap(a.lo - b.hi + 1, m), Wrap(a.hi - b.lo, m), Wrap(v - w, m), i, j);
  }

  /** Distance from the last member. */
  lemma FromTop(r: Range, w: int)
    requires r.Valid() && r.lo != r.hi && InWidth(w, r.m) && r.Contains(w)
    ensures Wrap((r.hi - 1) - w, r.m) < Wrap(r.hi - r.lo, r.m)
  {
    WrapSmall(r.hi - 1 - w, r.m);
    WrapSmall(r.hi - r.lo, r.m);
  }

  // ----- Changing width -----

  function ZeroExtend(r: Range, m2: nat): Range {
    if r.IsEmptySet() then EmptySet(m2)
    else if r.IsFullSet() || r.IsWrappedSet() then Range(m2, if r.hi == 0 then r.lo else 0, r.m)
    else Range(m2, r.lo, r.hi)
  }

  lemma ZeroExtendCovers(r: Range, m2: nat, v: int)
    requires r.Valid() && r.m < m2 && InWidth(v, r.m) && r.Contains(v)
    ensures ZeroExtend(r, m2).Valid() && ZeroExtend(r, m2).Contains(v)
  {
  }

  function SignExtendValue(x: int, m: nat, m2: nat): int { if 2 * x >= m then x + m2 - m else x }

  function SignExtend(r: Range, m2: nat): Range {
    if r.IsEmptySet() then EmptySet(m2)
    else if r.IsFullSet() || (r.Contains(r.m / 2 - 1) && r.Contains(r.m / 2)) then Range(m2, m2 - r.m / 2, r.m / 2)
    else Range(m2, SignExtendValue(r.lo, r.m, m2), SignExtendValue(r.hi, r.m, m2))
  }

  lemma SignExtendCovers(r: Range, m2: nat, v: int)
    requires r.Valid() && r.m < m2 && r.m % 2 == 0 && InWidth(v, r.m) && r.Contains(v)
    ensures SignExtend(r, m2).Valid() && SignExtend(r, m2).Contains(SignExtendValue(v, r.m, m2))
  {
  }

  /** What is left of [lower, upper) once lower is a value of the narrow width; extra comes from a wrapped range. */
  function TruncateRest(lower: int, upper: int, m2: nat, extra: Range): Range
    requires m2 >= 2 && 0 <= lower < m2 && lower < upper && extra.Valid() && extra.m == m2
  {
    if upper <= m2 - 1 then UnionWith(Range(m2, lower, upper), extra)
    else if upper - m2 < lower then UnionWith(Range(m2, lower, upper - m2), extra)
    else FullSet(m2)
  }

  /** The multiple of m2 that brings lo into the narrow width. */
  function Cut(lo: int, m2: nat): int
    requires m2 > 0
  {
    if lo >= m2 - 1 then m2 * (lo / m2) else 0
  }

  /** The part of a truncation that handles [lo, hi) without wrapping. */
  function TruncateFlat(lo: int, hi: int, m2: nat, extra: Range): Range
    requires m2 >= 2 && 0 <= lo < hi && extra.Valid() && extra.m == m2
  {
    CutFits(lo, m2);
    TruncateRest(lo - Cut(lo, m2), hi - Cut(lo, m2), m2, extra)
  }

  lemma CutFits(lo: int, m2: nat)
    requires m2 >= 2 && 0 <= lo
    ensures 0 <= lo - Cut(lo, m2) < m2
  {
    assert lo == m2 * (lo / m2) + lo % m2;
  }

  function Truncate(r: Range, m2: nat): Range
    requires r.Valid() && 2 <= m2 <= r.m
  {
    if r.IsEmptySet() then EmptySet(m2)
    else if r.IsFullSet() then FullSet(m2)
    else if r.IsWrappedSet() then
      if r.hi >= m2 - 1 then FullSet(m2)
      else
        var extra := Range(m2, m2 - 1, r.hi);
        if r.lo == r.m - 1 then extra else TruncateFlat(r.lo, r.m - 1, m2, extra)
    else TruncateFlat(r.lo, r.hi, m2, EmptySet(m2))
  }

  lemma TruncateRestCovers(lower: int, upper: int, m2: nat, extra: Range, y: int)
    requires m2 >= 2 && 0 <= lower < m2 && lower < upper && extra.Valid() && extra.m == m2
    ensures TruncateRest(lower, upper, m2, extra).Valid() && TruncateRest(lower, upper, m2, extra).m == m2
    ensures lower <= y < upper || extra.Contains(Wrap(y, m2)) ==>
              TruncateRest(lower, upper, m2, extra).Contains(Wrap(y, m2))
  {
    var x := Wrap(y, m2);
    if lower <= y < upper {
      if y < m2 { WrapSmall(y, m2); } else if y < 2 * m2 { WrapSmall(y - m2, m2); WrapCongruent(y, y - m2, 1, m2); }
    }
    hide Wrap, UnionWith;
    if upper <= m2 - 1 { UnionCovers(Range(m2, lower, upper), extra, x); }
    else if upper - m2 < lower { UnionCovers(Range(m2, lower, upper - m2), extra, x); }
  }

  lemma CutCongruent(v: int, lo: int, m2: nat)
    requires m2 > 0
    ensures Wrap(v - Cut(lo, m2), m2) == Wrap(v, m2)
  {
    var div := if lo >= m2 - 1 then lo / m2 else 0;
    assert Cut(lo, m2) == div * m2;
    WrapCongruent(v, v - Cut(lo, m2), div, m2);
  }

  lemma TruncateFlatCovers(lo: int, hi: int, m2: nat, extra: Range, v: int)
    requires m2 >= 2 && 0 <= lo < hi && extra.Valid() && extra.m == m2
    ensures TruncateFlat(lo, hi, m2, extra).Valid() && TruncateFlat(lo, hi, m2, extra).m == m2
    ensures lo <= v < hi || extra.Contains(Wrap(v, m2)) ==> TruncateFlat(lo, hi, m2, extra).Contains(Wrap(v, m2))
  {
    hide Cut, Wrap, TruncateRest, Range.Contains, UnionWith, Range.Valid;
    CutFits(lo, m2);
    CutCongruent(v, lo, m2);
    TruncateRestCovers(lo - Cut(lo, m2), hi - Cut(lo, m2), m2, extra, v - Cut(lo, m2));
  }

  lemma TruncateCovers(r: Range, m2: nat, k: nat, v: int)
    requires r.Valid() && 2 <= m2 <= r.m && r.m == m2 * k && InWidth(v, r.m) && r.Contains(v)
    ensures Truncate(r, m2).Valid() && Truncate(r, m2).m == m2 && Truncate(r, m2).Contains(Wrap(v, m2))
  {
    hide Wrap, TruncateFlat;
    if r.IsFullSet() {
    } else if r.IsWrappedSet() {
      if r.hi < m2 - 1 {
        ExtraCovers(r, m2, k, v);
        if r.lo != r.m - 1 { TruncateFlatCovers(r.lo, r.m - 1, m2, Range(m2, m2 - 1, r.hi), v); }
      }
    } else {
      TruncateFlatCovers(r.lo, r.hi, m2, EmptySet(m2), v);
    }
  }

  /** What a wrapped range has outside [lo, m - 1). */
  lemma ExtraCovers(r: Range, m2: nat, k: nat, v: int)
    requires 2 <= m2 && r.m == m2 * k && r.hi < m2 - 1 && InWidth(v, r.m)
    ensures v < r.hi || v == r.m - 1 ==> Range(m2, m2 - 1, r.hi).Contains(Wrap(v, m2))
  {
    if v < r.hi { WrapSmall(v, m2); }
    if v == r.m - 1 { WrapCongruent(v, -1, k, m2); WrapSmall(-1, m2); }
  }

  // ----- Products, quotients, shifts, bits -----

  function Multiply(a: Range, b: Range): Range
    requires a.Valid() && b.Valid() && a.m == b.m
  {
    if a.IsEmptySet() || b.IsEmptySet() then EmptySet(a.m)
    else
      ProductBounds(a, b, a.GetUnsignedMin(), b.GetUnsignedMin());
      Truncate(Range(a.m * a.m, a.GetUnsignedMin() * b.GetUnsignedMin(), a.GetUnsignedMax() * b.GetUnsignedMax() + 1), a.m)
  }

  lemma MulMono(x: int, y: int, x': int, y': int)
    requires 0 <= x <= x' && 0 <= y <= y'
    ensures 0 <= x * y <= x' * y'
  {
    assert x * y <= x' * y;
    assert x' * y <= x' * y';
  }

  lemma AnyMember(r: Range) returns (v: int)
    requires r.Valid() && !r.IsEmptySet()
    ensures InWidth(v, r.m) && r.Contains(v)
  {
    v := r.lo;
  }

  lemma ProductBounds(a: Range, b: Range, v: int, w: int)
    requires a.Valid() && b.Valid() && a.m == b.m && !a.IsEmptySet() && !b.IsEmptySet()
    ensures var lo, hi := a.GetUnsignedMin() * b.GetUnsignedMin(), a.GetUnsignedMax() * b.GetUnsignedMax();
            && Range(a.m * a.m, lo, hi + 1).Valid() && 0 <= lo <= hi
            && (a.GetUnsignedMin() <= v <= a.GetUnsignedMax() ==> b.GetUnsignedMin() <= w <= b.GetUnsignedMax() ==>
                  lo <= v * w <= hi)
    ensures a.m <= a.m * a.m
  {
    var x := AnyMember(a);
    var y := AnyMember(b);
    UnsignedBounds(a, x);
    UnsignedBounds(b, y);
    var amin, amax, bmin, bmax := a.GetUnsignedMin(), a.GetUnsignedMax(), b.GetUnsignedMin(), b.GetUnsignedMax();
    ProductRange(amin, amax, bmin, bmax, a.m);
    if amin <= v <= amax && bmin <= w <= bmax {
      MulMono(amin, bmin, v, w);
      MulMono(v, w, amax, bmax);
    }
  }

  lemma ProductRange(amin: int, amax: int, bmin: int, bmax: int, m: nat)
    requires m >= 2 && 0 <= amin <= amax < m && 0 <= bmin <= bmax < m
    ensures Range(m * m, amin * bmin, amax * bmax + 1).Valid() && 0 <= amin * bmin <= amax * bmax && m <= m * m
  {
    MulMono(amin, bmin, amax, bmax);
    MulMono(amax, bmax, m - 1, m - 1);
    MulMono(1, m, m, m);
    assert (m - 1) * (m - 1) == m * m - 2 * m + 1;
  }

  lemma MultiplyCovers(a: Range, b: Range, v: int, w: int)
    requires a.Valid() && b.Valid() && a.m == b.m && InWidth(v, a.m) && InWidth(w, a.m)
    requires a.Contains(v) && b.Contains(w)
    ensures Multiply(a, b).Valid() && Multiply(a, b).m == a.m && Multiply(a, b).Contains(Wrap(v * w, a.m))
  {
    hide Wrap, Truncate;
    UnsignedBounds(a, v);
    UnsignedBounds(b, w);
    ProductBounds(a, b, v, w);
    var r := Range(a.m * a.m, a.GetUnsignedMin() * b.GetUnsignedMin(), a.GetUnsignedMax() * b.GetUnsignedMax() + 1);
    TruncateCovers(r, a.m, a.m, v * w);
  }

  function UDiv(a: Range, b: Range): Range
    requires a.Valid() && b.Valid() && a.m == b.m
  {
    var m := a.m;
    if a.IsEmptySet() || b.IsEmptySet() || b.GetUnsignedMax() == 0 then EmptySet(m)
    else if b.IsFullSet() then FullSet(m)
    else
      var lower := a.GetUnsignedMin() / b.GetUnsignedMax();
      var bmin := if b.GetUnsignedMin() == 0 then if b.hi == 1 then b.lo else 1 else b.GetUnsignedMin();
      if bmin == 0 then FullSet(m)
      else
        var upper := Wrap(a.GetUnsignedMax() / bmin + 1, m);
        if lower == upper then FullSet(m) else Range(m, lower, upper)
  }

  lemma DivMod(x: int, y: int) returns (q: int, r: int)
    requires 0 <= x && 0 < y
    ensures q == x / y && q >= 0 && 0 <= r < y && x == q * y + r
  {
    q, r := x / y, x % y;
  }

  lemma DivMono(x: int, y: int, x': int, y': int)
    requires 0 <= x <= x' && 0 < y' <= y
    ensures 0 <= x / y <= x' / y' <= x'
  {
    var q, r := DivMod(x, y);
    var q', r' := DivMod(x', y');
    QuotientMono(q, y, r, q', y', r');
    MulMono(q', 1, q', y');
  }

  lemma DivSmaller(x: int, y: int)
    requires 0 <= x && 0 < y
    ensures 0 <= x / y <= x
  {
    DivMono(x, y, x, 1);
  }

  lemma QuotientMono(q: int, y: int, r: int, q': int, y': int, r': int)
    requires 0 <= q && 0 <= q' && 0 < y' <= y && 0 <= r && r' < y' && q * y + r <= q' * y' + r'
    ensures q <= q'
  {
    if q >= q' + 1 { MulMono(q' + 1, y', q, y); }
    assert (q' + 1) * y' == q' * y' + y';
  }

  /** Division is covered for every divisor that is not zero. */
  lemma UDivCovers(a: Range, b: Range, v: int, w: int)
    requires a.Valid() && b.Valid() && a.m == b.m && InWidth(v, a.m) && InWidth(w, a.m)
    requires a.Contains(v) && b.Contains(w) && w != 0
    ensures UDiv(a, b).Valid() && UDiv(a, b).m == a.m && UDiv(a, b).Contains(v / w)
  {
    UnsignedBounds(a, v);
    UnsignedBounds(b, w);
    var bmin := if b.GetUnsignedMin() == 0 then if b.hi == 1 then b.lo else 1 else b.GetUnsignedMin();
    if !b.IsFullSet() {
      assert 0 < bmin <= w;
      DivMono(a.GetUnsignedMin(), b.GetUnsignedMax(), v, w);
      DivMono(v, w, a.GetUnsignedMax(), bmin);
      var top := a.GetUnsignedMax() / bmin;
      if top + 1 < a.m { WrapSmall(top + 1, a.m); } else { assert Wrap(a.m, a.m) == 0; }
    }
  }

  function Pow2(k: nat): (p: nat)
    ensures p > 0
  {
    if k == 0 then 1 else 2 * Pow2(k - 1)
  }

  lemma {:induction false} Pow2Mono(j: nat, k: nat)
    requires j <= k
    ensures Pow2(j) <= Pow2(k)
    decreases k
  {
    if j < k { Pow2Mono(j, k - 1); }
  }

  lemma Double(x: int, y: int)
    ensures x * (2 * y) == 2 * (x * y)
  {
  }

  lemma {:induction false} Pow2Split(w: nat, k: nat)
    requires k <= w
    ensures Pow2(w) == Pow2(k) * Pow2(w - k)
    decreases w - k
  {
    if k < w {
      Pow2Split(w - 1, k);
      assert Pow2(w) == 2 * Pow2(w - 1) && Pow2(w - k) == 2 * Pow2(w - 1 - k);
      Double(Pow2(k), Pow2(w - 1 - k));
    }
  }

  /** Leading zero bits of x among the bits of a number below m. */
  function CountLeadingZeros(x: int, m: nat): nat {
    if m <= 1 || 2 * x >= m then 0 else 1 + CountLeadingZeros(x, m / 2)
  }

  lemma {:induction false} LeadingZerosRoom(x: int, w: nat, k: nat)
    requires 0 <= x < Pow2(w) && k <= CountLeadingZeros(x, Pow2(w))
    ensures x * Pow2(k) < Pow2(w)
    decreases k
  {
    if k > 0 {
      assert Pow2(w) / 2 == Pow2(w - 1);
      LeadingZerosRoom(x, w - 1, k - 1);
      assert x * Pow2(k) == 2 * (x * Pow2(k - 1));
    }
  }

  function Shl(a: Range, b: Range): Range
    requires a.Valid() && b.Valid() && a.m == b.m
  {
    var m := a.m;
    if a.IsEmptySet() || b.IsEmptySet() then EmptySet(m)
    else if CountLeadingZeros(a.GetUnsignedMax(), m) > b.GetUnsignedMax() >= b.GetUnsignedMin() >= 0 then
      Range(m, Wrap(a.GetUnsignedMin() * Pow2(b.GetUnsignedMin()), m), Wrap(a.GetUnsignedMax() * Pow2(b.GetUnsignedMax()) + 1, m))
    else FullSet(m)
  }

  lemma ShlCovers(a: Range, b: Range, v: int, w: int, width: nat)
    requires a.Valid() && b.Valid() && a.m == b.m == Pow2(width) && InWidth(v, a.m) && InWidth(w, a.m)
    requires a.Contains(v) && b.Contains(w)
    ensures Shl(a, b).Valid() && Shl(a, b).m == a.m && Shl(a, b).Contains(Wrap(v * Pow2(w), a.m))
  {
    UnsignedBounds(a, v);
    UnsignedBounds(b, w);
    var amin, amax, bmin, bmax := a.GetUnsignedMin(), a.GetUnsignedMax(), b.GetUnsignedMin(), b.GetUnsignedMax();
    if CountLeadingZeros(amax, a.m) > bmax {
      ShiftBounds(amin, v, amax, bmin, w, bmax, width);
      hide Wrap, Pow2, CountLeadingZeros, Range.GetUnsignedMin, Range.GetUnsignedMax;
      WrapSmall(amin * Pow2(bmin), a.m);
      WrapSmall(v * Pow2(w), a.m);
      WrapSmall(amax * Pow2(bmax) + 1, a.m);
    }
  }

  /** Without overflow, shifts are ordered like their operands. */
  lemma ShiftBounds(amin: int, v: int, amax: int, bmin: nat, w: nat, bmax: nat, width: nat)
    requires 0 <= amin <= v <= amax < Pow2(width) && bmin <= w <= bmax
    requires CountLeadingZeros(amax, Pow2(width)) > bmax
    ensures 0 <= amin * Pow2(bmin) <= v * Pow2(w) <= amax * Pow2(bmax) < Pow2(width) - 1
  {
    LeadingZerosRoom(amax, width, bmax + 1);
    Double(amax, Pow2(bmax));
    Pow2Mono(bmin, w);
    Pow2Mono(w, bmax);
    assert Pow2(width) > 1;
    assert Pow2(bmax + 1) == 2 * Pow2(bmax);
    hide Pow2, CountLeadingZeros;
    MulMono(amin, Pow2(bmin), v, Pow2(w));
    MulMono(v, Pow2(w), amax, Pow2(bmax));
  }

  function LShr(a: Range, b: Range): Range
    requires a.Valid() && b.Valid() && a.m == b.m
  {
    var m := a.m;
    if a.IsEmptySet() || b.IsEmptySet() || b.GetUnsignedMin() < 0 || b.GetUnsignedMax() < 0 then EmptySet(m)
    else
      var max := Wrap(a.GetUnsignedMax() / Pow2(b.GetUnsignedMin()) + 1, m);
      var min := a.GetUnsignedMin() / Pow2(b.GetUnsignedMax());
      if min == max then FullSet(m) else Range(m, min, max)
  }

  lemma LShrCovers(a: Range, b: Range, v: int, w: int)
    requires a.Valid() && b.Valid() && a.m == b.m && InWidth(v, a.m) && InWidth(w, a.m)
    requires a.Contains(v) && b.Contains(w)
    ensures LShr(a, b).Valid() && LShr(a, b).m == a.m && LShr(a, b).Contains(v / Pow2(w))
  {
    UnsignedBounds(a, v);
    UnsignedBounds(b, w);
    Pow2Mono(b.GetUnsignedMin(), w);
    Pow2Mono(w, b.GetUnsignedMax());
    DivMono(a.GetUnsignedMin(), Pow2(b.GetUnsignedMax()), v, Pow2(w));
    DivMono(v, Pow2(w), a.GetUnsignedMax(), Pow2(b.GetUnsignedMin()));
    var top := a.GetUnsignedMax() / Pow2(b.GetUnsignedMin());
    if top + 1 < a.m { WrapSmall(top + 1, a.m); } else { assert Wrap(a.m, a.m) == 0; }
  }

  function BitAnd(x: nat, y: nat): (r: nat)
    ensures r <= x && r <= y
  {
    if x == 0 || y == 0 then 0 else 2 * BitAnd(x / 2, y / 2) + (if x % 2 == 1 && y % 2 == 1 then 1 else 0)
  }

  function BitOr(x: nat, y: nat): (r: nat)
    ensures r >= x && r >= y
  {
    if x == 0 then y else if y == 0 then x
    else 2 * BitOr(x / 2, y / 2) + (if x % 2 == 1 || y % 2 == 1 then 1 else 0)
  }

  lemma {:induction false} BitOrWidth(x: nat, y: nat, w: nat)
    requires x < Pow2(w) && y < Pow2(w)
    ensures BitOr(x, y) < Pow2(w)
    decreases w
  {
    if x > 0 && y > 0 && w > 0 { BitOrWidth(x / 2, y / 2, w - 1); }
  }

  function BinaryAnd(a: Range, b: Range): Range
    requires a.Valid() && b.Valid() && a.m == b.m
  {
    if a.IsEmptySet() || b.IsEmptySet() then EmptySet(a.m)
    else
      var umin := if b.GetUnsignedMax() < a.GetUnsignedMax() then b.GetUnsignedMax() else a.GetUnsignedMax();
      if umin == a.m - 1 then FullSet(a.m) else Range(a.m, 0, umin + 1)
  }

  lemma BinaryAndCovers(a: Range, b: Range, v: nat, w: nat)
    requires a.Valid() && b.Valid() && a.m == b.m && InWidth(v, a.m) && InWidth(w, a.m)
    requires a.Contains(v) && b.Contains(w)
    ensures BinaryAnd(a, b).Valid() && BinaryAnd(a, b).m == a.m && BinaryAnd(a, b).Contains(BitAnd(v, w))
  {
    UnsignedBounds(a, v);
    UnsignedBounds(b, w);
  }

  function BinaryOr(a: Range, b: Range): Range
    requires a.Valid() && b.Valid() && a.m == b.m
  {
    if a.IsEmptySet() || b.IsEmptySet() then EmptySet(a.m)
    else
      var umax := if a.GetUnsignedMin() < b.GetUnsignedMin() then b.GetUnsignedMin() else a.GetUnsignedMin();
      if umax == 0 then FullSet(a.m) else Range(a.m, umax, 0)
  }

  lemma BinaryOrCovers(a: Range, b: Range, v: nat, w: nat)
    requires a.Valid() && b.Valid() && a.m == b.m && InWidth(v, a.m) && InWidth(w, a.m)
    requires a.Contains(v) && b.Contains(w)
    ensures BinaryOr(a, b).Valid() && BinaryOr(a, b).m == a.m && BinaryOr(a, b).Contains(BitOr(v, w))
  {
    UnsignedBounds(a, v);
    UnsignedBounds(b, w);
  }
}
