/** How much the operations on ranges give away: what a result contains is there for a reason. */
module RangePrecision {
  import opened ConstantRange

  // ----- Sets -----

  /** If one range is not within another, some value shows it. */
  lemma OutsideRange(a: Range, b: Range) returns (v: int)
    requires a.Valid() && b.Valid() && a.m == b.m && !ContainsRange(a, b)
    ensures InWidth(v, a.m) && b.Contains(v) && !a.Contains(v)
  {
    var last := if b.hi == 0 then b.m - 1 else b.hi - 1;
    v := if b.Contains(a.hi) && !a.Contains(a.hi) then a.hi else if !a.Contains(b.lo) then b.lo else last;
  }

  /** The test for one range within another is exact. */
  lemma ContainsRangeExact(a: Range, b: Range)
    requires a.Valid() && b.Valid() && a.m == b.m
    ensures ContainsRange(a, b) <==> forall v {:trigger b.Contains(v)} :: InWidth(v, a.m) && b.Contains(v) ==> a.Contains(v)
  {
    if ContainsRange(a, b) {
      forall v | InWidth(v, a.m) && b.Contains(v) ensures a.Contains(v) { ContainsRangeSound(a, b, v); }
    } else {
      var v := OutsideRange(a, b);
    }
  }

  lemma SizeIs(r: Range)
    requires r.Valid()
    ensures r.GetSetSize() == if r.IsEmptySet() then 0 else if r.IsFullSet() then r.m
                              else if r.lo < r.hi then r.hi - r.lo else r.hi - r.lo + r.m
  {
    if r.lo != r.hi { WrapSmall(r.hi - r.lo, r.m); }
  }

  lemma GapsAre(a: Range, b: Range)
    requires a.Valid() && b.Valid() && a.m == b.m
    ensures Wrap(b.lo - a.hi, a.m) == (if b.lo < a.hi then b.lo - a.hi + a.m else b.lo - a.hi)
    ensures Wrap(a.lo - b.hi, a.m) == (if a.lo < b.hi then a.lo - b.hi + a.m else a.lo - b.hi)
    ensures a.hi != 0 ==> Wrap(a.hi - 1, a.m) == a.hi - 1
    ensures b.hi != 0 ==> Wrap(b.hi - 1, a.m) == b.hi - 1
  {
    WrapSmall(b.lo - a.hi, a.m);
    WrapSmall(a.lo - b.hi, a.m);
    if a.hi != 0 { WrapSmall(a.hi - 1, a.m); }
    if b.hi != 0 { WrapSmall(b.hi - 1, a.m); }
  }

  /** No range that holds both operands is smaller than their union. */
  lemma UnionSmallest(a: Range, b: Range, c: Range)
    requires a.Valid() && b.Valid() && c.Valid() && a.m == b.m == c.m && ContainsRange(c, a) && ContainsRange(c, b)
    ensures UnionWith(a, b).Valid() && UnionWith(a, b).GetSetSize() <= c.GetSetSize()
  {
    UnionCovers(a, b, 0);
    if a.IsWrappedSet() {
      WrappedSmallest(a, b, c);
    } else if b.IsWrappedSet() {
      WrappedSmallest(b, a, c);
    } else {
      FlatSmallest(a, b, c);
    }
  }

  lemma FlatSmallest(a: Range, b: Range, c: Range)
    requires a.Valid() && b.Valid() && c.Valid() && a.m == b.m == c.m && ContainsRange(c, a) && ContainsRange(c, b)
    requires !a.IsWrappedSet() && !b.IsWrappedSet() && UnionWith(a, b).Valid()
    ensures UnionWith(a, b).GetSetSize() <= c.GetSetSize()
  {
    hide Wrap, Range.GetSetSize;
    GapsAre(a, b);
    SizeIs(c);
    SizeIs(UnionWith(a, b));
  }

  lemma WrappedSmallest(a: Range, b: Range, c: Range)
    requires a.Valid() && b.Valid() && c.Valid() && a.m == b.m == c.m && ContainsRange(c, a) && ContainsRange(c, b)
    requires a.IsWrappedSet() && UnionWith(a, b).Valid()
    ensures UnionWith(a, b).GetSetSize() <= c.GetSetSize()
    ensures !b.IsWrappedSet() ==> UnionWith(b, a).GetSetSize() <= c.GetSetSize()
  {
    hide Wrap, Range.GetSetSize;
    GapsAre(a, b);
    SizeIs(c);
    SizeIs(UnionWith(a, b));
  }

  /** What lies within a range of at most half of all values still does after a union. */
  lemma UnionWithin(a: Range, b: Range, c: Range)
    requires a.Valid() && b.Valid() && c.Valid() && a.m == b.m == c.m && ContainsRange(c, a) && ContainsRange(c, b)
    requires 2 * c.GetSetSize() <= c.m
    ensures UnionWith(a, b).Valid() && UnionWith(a, b).m == a.m && ContainsRange(c, UnionWith(a, b))
  {
    UnionCovers(a, b, 0);
    if a.IsWrappedSet() {
      WrappedWithin(a, b, c);
    } else if b.IsWrappedSet() {
      WrappedWithin(b, a, c);
    } else {
      FlatWithin(a, b, c);
    }
  }

  lemma FlatWithin(a: Range, b: Range, c: Range)
    requires a.Valid() && b.Valid() && c.Valid() && a.m == b.m == c.m && ContainsRange(c, a) && ContainsRange(c, b)
    requires !a.IsWrappedSet() && !b.IsWrappedSet() && 2 * c.GetSetSize() <= c.m
    ensures ContainsRange(c, UnionWith(a, b))
  {
    hide Wrap, Range.GetSetSize;
    GapsAre(a, b);
    SizeIs(c);
  }

  lemma WrappedWithin(a: Range, b: Range, c: Range)
    requires a.Valid() && b.Valid() && c.Valid() && a.m == b.m == c.m && ContainsRange(c, a) && ContainsRange(c, b)
    requires a.IsWrappedSet() && 2 * c.GetSetSize() <= c.m
    ensures ContainsRange(c, UnionWith(a, b))
    ensures !b.IsWrappedSet() ==> ContainsRange(c, UnionWith(b, a))
  {
    hide Wrap, Range.GetSetSize;
    GapsAre(a, b);
    SizeIs(c);
  }

  /** An intersection lies within one of its operands. */
  lemma IntersectWithin(a: Range, b: Range)
    requires a.Valid() && b.Valid() && a.m == b.m
    ensures IntersectWith(a, b).Valid() && IntersectWith(a, b).m == a.m
    ensures ContainsRange(a, IntersectWith(a, b)) || ContainsRange(b, IntersectWith(a, b))
  {
    IntersectCovers(a, b, 0);
  }

  function LastOf(r: Range): int { if r.hi == 0 then r.m - 1 else r.hi - 1 }

  /** Two ranges that meet at both ends of each other leave two gaps, and no range is their intersection. */
  lemma BothEnds(a: Range, b: Range, v: int)
    requires a.Valid() && b.Valid() && a.m == b.m && InWidth(v, a.m)
    requires IntersectWith(a, b).Contains(v) && !(a.Contains(v) && b.Contains(v))
    ensures a.Contains(b.lo) && b.Contains(a.lo) && a.Contains(LastOf(b)) && b.Contains(LastOf(a))
    ensures a.lo != a.hi && b.lo != b.hi && InWidth(LastOf(a), a.m) && InWidth(LastOf(b), b.m)
    ensures b.Contains(a.hi) && a.Contains(b.hi) && !a.Contains(a.hi) && !b.Contains(b.hi)
  {
  }

  /** If what two ranges have in common is a range, the intersection is exactly that. */
  lemma IntersectExact(a: Range, b: Range, c: Range, v: int)
    requires a.Valid() && b.Valid() && c.Valid() && a.m == b.m == c.m && InWidth(v, a.m)
    requires forall x {:trigger c.Contains(x)} :: InWidth(x, a.m) ==> (c.Contains(x) <==> a.Contains(x) && b.Contains(x))
    ensures IntersectWith(a, b).Contains(v) <==> c.Contains(v)
  {
    hide IntersectWith;
    IntersectCovers(a, b, v);
    assert c.Contains(v) <==> a.Contains(v) && b.Contains(v);
    assert c.Contains(a.lo) <==> a.Contains(a.lo) && b.Contains(a.lo);
    assert c.Contains(b.lo) <==> a.Contains(b.lo) && b.Contains(b.lo);
    assert c.Contains(a.hi) <==> a.Contains(a.hi) && b.Contains(a.hi);
    assert c.Contains(b.hi) <==> a.Contains(b.hi) && b.Contains(b.hi);
    if IntersectWith(a, b).Contains(v) && !(a.Contains(v) && b.Contains(v)) { BothEnds(a, b, v); }
  }

  // ----- Sums -----

  /** The member at distance i from the lower bound. */
  lemma MemberAt(r: Range, i: int) returns (v: int)
    requires r.Valid() && 0 <= i < r.GetSetSize()
    ensures InWidth(v, r.m) && r.Contains(v) && v == Wrap(r.lo + i, r.m)
  {
    hide Range.GetSetSize;
    SizeIs(r);
    WrapSmall(r.lo + i - r.m, r.m);
    WrapCongruent(r.lo + i, r.lo + i - r.m, 1, r.m);
    v := Wrap(r.lo + i, r.m);
  }

  /** A distance below the sum of the sizes splits into two distances. */
  lemma SplitDistance(a: Range, b: Range, d: int) returns (i: int, j: int)
    requires a.Valid() && b.Valid() && !a.IsEmptySet() && !b.IsEmptySet() && 0 <= d < a.GetSetSize() + b.GetSetSize() - 1
    ensures 0 <= i < a.GetSetSize() && 0 <= j < b.GetSetSize() && i + j == d
  {
    SizeIs(a);
    SizeIs(b);
    i := if d < a.GetSetSize() then d else a.GetSetSize() - 1;
    j := d - i;
  }

  /** What Spread contains is at a distance that the sizes allow. */
  lemma SpreadDistance(a: Range, b: Range, l: int, u: int, y: int) returns (d: int)
    requires a.Valid() && b.Valid() && a.m == b.m && InWidth(l, a.m) && InWidth(u, a.m) && InWidth(y, a.m)
    requires a.lo != a.hi && b.lo != b.hi
    requires Wrap(u - l, a.m) == Wrap(a.GetSetSize() + b.GetSetSize() - 1, a.m)
    requires Spread(a, b, l, u).Contains(y)
    ensures 0 <= d < a.GetSetSize() + b.GetSetSize() - 1 && Wrap(l + d, a.m) == y
  {
    hide Range.GetSetSize, Wrap;
    d := if y < l then y - l + a.m else y - l;
    WrapSmall(l + d - a.m, a.m);
    WrapCongruent(l + d, l + d - a.m, 1, a.m);
    if a.GetSetSize() + b.GetSetSize() - 1 < a.m { SpreadWhole(a, b, l, u); }
  }

  /** If the sum of the sizes is not too large, nothing has wrapped. */
  lemma SpreadWhole(a: Range, b: Range, l: int, u: int)
    requires a.Valid() && b.Valid() && a.m == b.m && InWidth(l, a.m) && InWidth(u, a.m)
    requires a.lo != a.hi && b.lo != b.hi && a.GetSetSize() + b.GetSetSize() - 1 < a.m
    requires Wrap(u - l, a.m) == Wrap(a.GetSetSize() + b.GetSetSize() - 1, a.m)
    ensures Spread(a, b, l, u) == Range(a.m, l, u) && l != u
    ensures (if u < l then u - l + a.m else u - l) == a.GetSetSize() + b.GetSetSize() - 1
  {
    hide Range.GetSetSize, Wrap;
    SizeIs(a);
    SizeIs(b);
    WrapSmall(u - l, a.m);
    WrapSmall(a.GetSetSize() + b.GetSetSize() - 1, a.m);
    SizeOf(a.m, l, u);
  }

  lemma SizeOf(m: nat, l: int, u: int)
    requires m >= 2 && InWidth(l, m) && InWidth(u, m) && l != u
    ensures Range(m, l, u).GetSetSize() == if u < l then u - l + m else u - l
  {
    SizeIs(Range(m, l, u));
  }

  /** Every member of a sum is the sum of two members. */
  lemma AddReached(a: Range, b: Range, y: int) returns (v: int, w: int)
    requires a.Valid() && b.Valid() && a.m == b.m && InWidth(y, a.m) && Add(a, b).Contains(y)
    ensures InWidth(v, a.m) && InWidth(w, a.m) && a.Contains(v) && b.Contains(w) && Wrap(v + w, a.m) == y
  {
    hide Wrap, Spread, Range.GetSetSize;
    var m := a.m;
    if a.IsFullSet() || b.IsFullSet() {
      v, w := DifferenceTo(a, b, y);
    } else {
      SizesAdd(a, b);
      var d := SpreadDistance(a, b, Wrap(a.lo + b.lo, m), Wrap(a.hi + b.hi - 1, m), y);
      var i, j := SplitDistance(a, b, d);
      v := MemberAt(a, i);
      w := MemberAt(b, j);
      SumOfWraps(a.lo + i, b.lo + j, m);
      WrapInside(a.lo + b.lo, d, m);
      assert (a.lo + i) + (b.lo + j) == (a.lo + b.lo) + d;
    }
  }

  /** One side is full: the other side takes any member. */
  lemma DifferenceTo(a: Range, b: Range, y: int) returns (v: int, w: int)
    requires a.Valid() && b.Valid() && a.m == b.m && InWidth(y, a.m) && !a.IsEmptySet() && !b.IsEmptySet()
    requires a.IsFullSet() || b.IsFullSet()
    ensures InWidth(v, a.m) && InWidth(w, a.m) && a.Contains(v) && b.Contains(w) && Wrap(v + w, a.m) == y
  {
    var m := a.m;
    if a.IsFullSet() {
      w := AnyMember(b);
      v := Wrap(y - w, m);
    } else {
      v := AnyMember(a);
      w := Wrap(y - v, m);
    }
    WrapInside(y - (if a.IsFullSet() then w else v), if a.IsFullSet() then w else v, m);
    WrapSmall(y, m);
  }

  lemma WrapInside(x: int, d: int, m: nat)
    requires m > 0
    ensures Wrap(Wrap(x, m) + d, m) == Wrap(x + d, m)
  {
    WrapCongruent(Wrap(x, m) + d, x + d, -(x / m), m);
  }

  lemma SumOfWraps(x: int, y: int, m: nat)
    requires m > 0
    ensures Wrap(Wrap(x, m) + Wrap(y, m), m) == Wrap(x + y, m)
  {
    WrapInside(x, Wrap(y, m), m);
    WrapInside(y, x, m);
  }

  lemma DifferenceOfWraps(x: int, y: int, m: nat)
    requires m > 0
    ensures Wrap(Wrap(x, m) - Wrap(y, m), m) == Wrap(x - y, m)
  {
    WrapInside(x, -Wrap(y, m), m);
    WrapCongruent(x - Wrap(y, m), x - y, y / m, m);
  }

  lemma SizesAdd(a: Range, b: Range)
    requires a.Valid() && b.Valid() && a.m == b.m && a.lo != a.hi && b.lo != b.hi
    ensures Wrap(Wrap(a.hi + b.hi - 1, a.m) - Wrap(a.lo + b.lo, a.m), a.m) == Wrap(a.GetSetSize() + b.GetSetSize() - 1, a.m)
    ensures Wrap(Wrap(a.hi - b.lo, a.m) - Wrap(a.lo - b.hi + 1, a.m), a.m) == Wrap(a.GetSetSize() + b.GetSetSize() - 1, a.m)
  {
    hide Wrap, Range.GetSetSize;
    var m := a.m;
    SetSizeIs(a);
    SetSizeIs(b);
    DifferenceOfWraps(a.hi + b.hi - 1, a.lo + b.lo, m);
    DifferenceOfWraps(a.hi - b.lo, a.lo - b.hi + 1, m);
    SumLessOneAgrees(a.hi - a.lo, b.hi - b.lo, m);
    assert (a.hi + b.hi - 1) - (a.lo + b.lo) == (a.hi - a.lo) + (b.hi - b.lo) - 1;
    assert (a.hi - b.lo) - (a.lo - b.hi + 1) == (a.hi - a.lo) + (b.hi - b.lo) - 1;
  }

  /** Every member of a difference is the difference of two members. */
  lemma SubReached(a: Range, b: Range, y: int) returns (v: int, w: int)
    requires a.Valid() && b.Valid() && a.m == b.m && InWidth(y, a.m) && Sub(a, b).Contains(y)
    ensures InWidth(v, a.m) && InWidth(w, a.m) && a.Contains(v) && b.Contains(w) && Wrap(v - w, a.m) == y
  {
    hide Wrap, Spread, Range.GetSetSize;
    var m := a.m;
    if a.IsFullSet() || b.IsFullSet() {
      v, w := SumTo(a, b, y);
    } else {
      SizesAdd(a, b);
      var d := SpreadDistance(a, b, Wrap(a.lo - b.hi + 1, m), Wrap(a.hi - b.lo, m), y);
      var i, j := SplitDistance(a, b, d);
      SizeIs(b);
      v := MemberAt(a, i);
      w := MemberAt(b, b.GetSetSize() - 1 - j);
      FromEnd(b, j);
      DifferenceOfWraps(a.lo + i, b.hi - 1 - j, m);
      WrapInside(a.lo - b.hi + 1, d, m);
      assert (a.lo + i) - (b.hi - 1 - j) == (a.lo - b.hi + 1) + d;
    }
  }

  lemma FromEnd(b: Range, j: int)
    requires b.Valid() && b.lo != b.hi
    ensures Wrap(b.lo + (b.GetSetSize() - 1 - j), b.m) == Wrap(b.hi - 1 - j, b.m)
  {
    hide Range.GetSetSize;
    SizeIs(b);
    WrapCongruent(b.lo + (b.GetSetSize() - 1 - j), b.hi - 1 - j, if b.lo < b.hi then 0 else 1, b.m);
  }

  lemma SumTo(a: Range, b: Range, y: int) returns (v: int, w: int)
    requires a.Valid() && b.Valid() && a.m == b.m && InWidth(y, a.m) && !a.IsEmptySet() && !b.IsEmptySet()
    requires a.IsFullSet() || b.IsFullSet()
    ensures InWidth(v, a.m) && InWidth(w, a.m) && a.Contains(v) && b.Contains(w) && Wrap(v - w, a.m) == y
  {
    var m := a.m;
    WrapSmall(y, m);
    if a.IsFullSet() {
      w := AnyMember(b);
      v := Wrap(y + w, m);
      WrapInside(y + w, -w, m);
    } else {
      v := AnyMember(a);
      w := Wrap(v - y, m);
      WrapSmall(v, m);
      DifferenceOfWraps(v, v - y, m);
    }
  }

  // ----- Changing width -----

  /** A number of [lower, upper) with remainder y, if there are as many as remainders. */
  lemma RemainderIn(lower: int, m2: nat, y: int) returns (z: int)
    requires m2 >= 2 && 0 <= lower < m2 && InWidth(y, m2)
    ensures z == (if y < lower then y + m2 else y) && Wrap(z, m2) == y
  {
    z := if y < lower then y + m2 else y;
    WrapSmall(y, m2);
    WrapCongruent(y + m2, y, 1, m2);
  }

  lemma TruncateRestReached(lower: int, upper: int, m2: nat, extra: Range, y: int) returns (z: int)
    requires m2 >= 2 && 0 <= lower < m2 && lower < upper && extra.Valid() && extra.m == m2 && InWidth(y, m2)
    requires extra.IsEmptySet() || (extra.lo == m2 - 1 && extra.hi < m2 - 1 && Wrap(upper, m2) == m2 - 1)
    requires TruncateRest(lower, upper, m2, extra).Contains(y)
    ensures (lower <= z < upper && Wrap(z, m2) == y) || extra.Contains(y)
  {
    hide Wrap, UnionWith;
    z := RemainderIn(lower, m2, y);
    if upper - m2 < lower && !extra.Contains(y) {
      if extra.IsEmptySet() {
        if upper <= m2 - 1 { UnionNothing(lower, upper, extra); } else { UnionNothing(lower, upper - m2, extra); }
      } else {
        UpperIs(lower, upper, m2);
        UnionNext(lower, extra, y);
      }
    }
  }

  lemma UnionNothing(l: int, u: int, extra: Range)
    requires extra.Valid() && extra.IsEmptySet() && Range(extra.m, l, u).Valid()
    ensures UnionWith(Range(extra.m, l, u), extra) == Range(extra.m, l, u)
  {
  }

  lemma UpperIs(lower: int, upper: int, m2: nat)
    requires m2 >= 2 && 0 <= lower < m2 && lower < upper && upper - m2 < lower && Wrap(upper, m2) == m2 - 1
    ensures upper == m2 - 1
  {
    if upper >= m2 {
      WrapSmall(upper - m2, m2);
      WrapCongruent(upper, upper - m2, 1, m2);
    } else {
      WrapSmall(upper, m2);
    }
  }

  /** Two ranges of which one begins where the other ends. */
  lemma UnionNext(lower: int, extra: Range, y: int)
    requires extra.Valid() && extra.lo == extra.m - 1 && extra.hi < extra.m - 1 && 0 <= lower < extra.m - 1 && InWidth(y, extra.m)
    requires UnionWith(Range(extra.m, lower, extra.m - 1), extra).Contains(y)
    ensures lower <= y < extra.m - 1 || extra.Contains(y)
  {
    hide Wrap;
    GapsAre(extra, Range(extra.m, lower, extra.m - 1));
  }

  /** Every member of a truncation is what some member is cut to. */
  lemma TruncateReached(r: Range, m2: nat, k: nat, y: int) returns (v: int)
    requires r.Valid() && 2 <= m2 <= r.m && r.m == m2 * k && InWidth(y, m2) && Truncate(r, m2).Contains(y)
    ensures InWidth(v, r.m) && r.Contains(v) && Wrap(v, m2) == y
  {
    hide Wrap, TruncateFlat;
    WrapSmall(y, m2);
    EndCut(r.m, m2, k);
    v := y;
    if r.IsFullSet() {
    } else if r.IsWrappedSet() {
      if y == m2 - 1 {
        v := r.m - 1;
      } else if y >= r.hi {
        v := FlatReached(r.lo, r.m - 1, m2, Range(m2, m2 - 1, r.hi), y);
      }
    } else {
      v := FlatReached(r.lo, r.hi, m2, EmptySet(m2), y);
    }
  }

  lemma EndCut(m: nat, m2: nat, k: nat)
    requires m2 >= 2 && m == m2 * k
    ensures Wrap(m - 1, m2) == m2 - 1
  {
    WrapCongruent(m - 1, -1, k, m2);
    WrapSmall(-1, m2);
  }

  lemma FlatReached(lo: int, hi: int, m2: nat, extra: Range, y: int) returns (v: int)
    requires m2 >= 2 && 0 <= lo < hi && extra.Valid() && extra.m == m2 && InWidth(y, m2) && !extra.Contains(y)
    requires extra.IsEmptySet() || (extra.lo == m2 - 1 && extra.hi < m2 - 1 && Wrap(hi, m2) == m2 - 1)
    requires TruncateFlat(lo, hi, m2, extra).Contains(y)
    ensures lo <= v < hi && Wrap(v, m2) == y
  {
    hide Cut, Wrap, TruncateRest, Range.Contains;
    CutFits(lo, m2);
    CutCongruent(hi, lo, m2);
    var z := TruncateRestReached(lo - Cut(lo, m2), hi - Cut(lo, m2), m2, extra, y);
    v := z + Cut(lo, m2);
    CutCongruent(v, lo, m2);
  }

  /** A zero-extended range reaches from one member to another. */
  lemma ZeroExtendBetween(r: Range, m2: nat, y: int) returns (v: int, w: int)
    requires r.Valid() && r.m < m2 && InWidth(y, m2) && ZeroExtend(r, m2).Contains(y)
    ensures InWidth(v, r.m) && InWidth(w, r.m) && r.Contains(v) && r.Contains(w) && v <= y <= w
  {
    v := if r.Contains(0) then 0 else r.lo;
    w := if r.Contains(r.m - 1) then r.m - 1 else r.hi - 1;
  }

  /** A sign-extended range reaches from one member to another, as signed numbers. */
  ghost predicate SignedBetween(r: Range, m2: nat, y: int) {
    exists v, w :: InWidth(v, r.m) && InWidth(w, r.m) && r.Contains(v) && r.Contains(w) && Signed(v, r.m) <= Signed(y, m2) <= Signed(w, r.m)
  }

  /** That is so except for a range that ends just below the sign bit: its end is taken to be a negative number. */
  lemma SignExtendTight(r: Range, m2: nat)
    requires r.Valid() && 2 * r.m <= m2 && r.m % 2 == 0 && m2 % 2 == 0 && !r.IsEmptySet()
    ensures (forall y {:trigger SignExtend(r, m2).Contains(y)} :: InWidth(y, m2) && SignExtend(r, m2).Contains(y) ==> SignedBetween(r, m2, y))
            <==> r.IsFullSet() || r.hi != r.m / 2
  {
    if r.IsFullSet() || r.hi != r.m / 2 {
      forall y | InWidth(y, m2) && SignExtend(r, m2).Contains(y) ensures SignedBetween(r, m2, y) {
        SignedReached(r, m2, y);
      }
    } else {
      // The largest number of the wide width is in the result
      var top := m2 / 2 - 1;
      assert SignExtend(r, m2).Contains(top);
      assert Signed(top, m2) == top;
      assert !SignedBetween(r, m2, top) by {
        forall w | InWidth(w, r.m) && r.Contains(w) ensures Signed(w, r.m) < top {
        }
      }
    }
  }

  lemma SignedReached(r: Range, m2: nat, y: int)
    requires r.Valid() && 2 * r.m <= m2 && r.m % 2 == 0 && m2 % 2 == 0 && InWidth(y, m2) && SignExtend(r, m2).Contains(y)
    requires r.IsFullSet() || r.hi != r.m / 2
    ensures SignedBetween(r, m2, y)
  {
    var half := r.m / 2;
    assert r.m == half + half;
    var last := if r.hi == 0 then r.m - 1 else r.hi - 1;
    var all := r.Contains(half - 1) && r.Contains(half);
    var v, w := if all then half else r.lo, if all then half - 1 else last;
    assert InWidth(v, r.m) && InWidth(w, r.m) && r.Contains(v) && r.Contains(w);
    assert Signed(v, r.m) <= Signed(y, m2) <= Signed(w, r.m);
  }

  // ----- Products, quotients, shifts, bits -----

  /** Every member of a product is what is left of a number between two products of members. */
  lemma MultiplyReached(a: Range, b: Range, y: int) returns (v: int, w: int, v': int, w': int, z: int)
    requires a.Valid() && b.Valid() && a.m == b.m && InWidth(y, a.m) && Multiply(a, b).Contains(y)
    ensures InWidth(v, a.m) && InWidth(v', a.m) && InWidth(w, a.m) && InWidth(w', a.m)
    ensures a.Contains(v) && a.Contains(v') && b.Contains(w) && b.Contains(w')
    ensures v * w <= z <= v' * w' && Wrap(z, a.m) == y
  {
    hide Wrap, Truncate, Range.GetUnsignedMin, Range.GetUnsignedMax;
    BoundsAttained(a);
    BoundsAttained(b);
    v, w, v', w' := a.GetUnsignedMin(), b.GetUnsignedMin(), a.GetUnsignedMax(), b.GetUnsignedMax();
    ProductBounds(a, b, v, w);
    z := TruncateReached(Range(a.m * a.m, v * w, v' * w' + 1), a.m, a.m, y);
  }

  /** The range from lo to top, written with the next number after top. */
  function UpTo(lo: int, top: int, m: nat): Range
    requires m > 0
  {
    if lo == Wrap(top + 1, m) then FullSet(m) else Range(m, lo, Wrap(top + 1, m))
  }

  lemma UpToExact(lo: int, top: int, m: nat, y: int)
    requires m >= 2 && 0 <= lo <= top < m && InWidth(y, m)
    ensures UpTo(lo, top, m).Contains(y) <==> lo <= y <= top
  {
    if top + 1 == m { WrapWhole(m); } else { WrapSmall(top + 1, m); }
  }

  /** Every member of a quotient lies between two quotients of members, unless nothing is known of the divisor. */
  lemma UDivBetween(a: Range, b: Range, y: int) returns (v: int, w: int, v': int, w': int)
    requires a.Valid() && b.Valid() && a.m == b.m && InWidth(y, a.m) && !b.IsFullSet() && UDiv(a, b).Contains(y)
    ensures InWidth(v, a.m) && InWidth(v', a.m) && 0 < w < a.m && 0 < w' < a.m
    ensures a.Contains(v) && a.Contains(v') && b.Contains(w) && b.Contains(w') && v / w <= y <= v' / w'
  {
    hide Wrap, Range.GetUnsignedMin, Range.GetUnsignedMax;
    BoundsAttained(a);
    BoundsAttained(b);
    v, w, v' := a.GetUnsignedMin(), b.GetUnsignedMax(), a.GetUnsignedMax();
    w' := SmallestDivisor(b);
    assert UDiv(a, b) == UpTo(v / w, v' / w', a.m);
    DivMono(v, w, v', w');
    UpToExact(v / w, v' / w', a.m, y);
  }

  lemma SmallestDivisor(b: Range) returns (w: int)
    requires b.Valid() && !b.IsEmptySet() && !b.IsFullSet() && b.GetUnsignedMax() != 0
    ensures w == if b.GetUnsignedMin() == 0 then if b.hi == 1 then b.lo else 1 else b.GetUnsignedMin()
    ensures 0 < w <= b.GetUnsignedMax() < b.m && b.Contains(w)
  {
    hide Wrap;
    w := if b.GetUnsignedMin() == 0 then if b.hi == 1 then b.lo else 1 else b.GetUnsignedMin();
    if b.hi != 0 { WrapSmall(b.hi - 1, b.m); }
  }

  /** The same for shifts to the right. */
  lemma LShrBetween(a: Range, b: Range, y: int) returns (v: int, w: int, v': int, w': int)
    requires a.Valid() && b.Valid() && a.m == b.m && InWidth(y, a.m) && LShr(a, b).Contains(y)
    ensures InWidth(v, a.m) && InWidth(v', a.m) && InWidth(w, a.m) && InWidth(w', a.m)
    ensures a.Contains(v) && a.Contains(v') && b.Contains(w) && b.Contains(w') && v / Pow2(w) <= y <= v' / Pow2(w')
  {
    hide Wrap, Pow2, Range.GetUnsignedMin, Range.GetUnsignedMax;
    BoundsAttained(a);
    BoundsAttained(b);
    v, w, v', w' := a.GetUnsignedMin(), b.GetUnsignedMax(), a.GetUnsignedMax(), b.GetUnsignedMin();
    Pow2Mono(w', w);
    assert LShr(a, b) == UpTo(v / Pow2(w), v' / Pow2(w'), a.m);
    DivMono(v, Pow2(w), v', Pow2(w'));
    UpToExact(v / Pow2(w), v' / Pow2(w'), a.m, y);
  }

  /** The same for shifts to the left that leave the highest bit clear, whatever is shifted; all others are given up. */
  lemma ShlBetween(a: Range, b: Range, width: nat, y: int) returns (v: int, w: int, v': int, w': int)
    requires a.Valid() && b.Valid() && a.m == b.m == Pow2(width) && InWidth(y, a.m) && Shl(a, b).Contains(y)
    requires b.GetUnsignedMax() < width && a.GetUnsignedMax() * Pow2(b.GetUnsignedMax() + 1) < a.m
    ensures InWidth(v, a.m) && InWidth(v', a.m) && InWidth(w, a.m) && InWidth(w', a.m)
    ensures a.Contains(v) && a.Contains(v') && b.Contains(w) && b.Contains(w') && v * Pow2(w) <= y <= v' * Pow2(w')
  {
    hide Wrap, Pow2, Range.GetUnsignedMin, Range.GetUnsignedMax, CountLeadingZeros;
    BoundsAttained(a);
    BoundsAttained(b);
    v, w, v', w' := a.GetUnsignedMin(), b.GetUnsignedMin(), a.GetUnsignedMax(), b.GetUnsignedMax();
    RoomForZeros(v', width, w' + 1);
    ShiftBounds(v, v, v', w, w, w', width);
    WrapSmall(v * Pow2(w), a.m);
    WrapSmall(v' * Pow2(w') + 1, a.m);
  }

  lemma {:induction false} RoomForZeros(x: int, width: nat, k: nat)
    requires x >= 0 && k <= width && x * Pow2(k) < Pow2(width)
    ensures k <= CountLeadingZeros(x, Pow2(width))
    decreases k
  {
    if k > 0 {
      Double(x, Pow2(k - 1));
      assert Pow2(width) / 2 == Pow2(width - 1);
      RoomForZeros(x, width - 1, k - 1);
      AtLeastItself(x, Pow2(k - 1));
    }
  }

  lemma AtLeastItself(x: int, p: int)
    requires x >= 0 && p > 0
    ensures x * p >= x
  {
    MulMono(x, 1, x, p);
  }

  /** And has the members up to the smaller of the largest, or those from the larger of the smallest. */
  lemma BinaryAndExact(a: Range, b: Range, y: int)
    requires a.Valid() && b.Valid() && a.m == b.m && InWidth(y, a.m) && !a.IsEmptySet() && !b.IsEmptySet()
    ensures BinaryAnd(a, b).Contains(y) <==>
              (exists v {:trigger a.Contains(v)} :: InWidth(v, a.m) && a.Contains(v) && y <= v) && (exists w {:trigger b.Contains(w)} :: InWidth(w, a.m) && b.Contains(w) && y <= w)
  {
    hide Wrap, Range.GetUnsignedMin, Range.GetUnsignedMax, Range.Contains;
    BoundsAttained(a);
    BoundsAttained(b);
    forall v | InWidth(v, a.m) && a.Contains(v) ensures v <= a.GetUnsignedMax() { UnsignedBounds(a, v); }
    forall w | InWidth(w, a.m) && b.Contains(w) ensures w <= b.GetUnsignedMax() { UnsignedBounds(b, w); }
    AndRange(a, b, y);
  }

  lemma AndRange(a: Range, b: Range, y: int)
    requires a.Valid() && b.Valid() && a.m == b.m && InWidth(y, a.m) && !a.IsEmptySet() && !b.IsEmptySet()
    requires InWidth(a.GetUnsignedMax(), a.m) && InWidth(b.GetUnsignedMax(), a.m)
    ensures BinaryAnd(a, b).Contains(y) <==> y <= a.GetUnsignedMax() && y <= b.GetUnsignedMax()
  {
    hide Range.GetUnsignedMax;
  }

  lemma BinaryOrExact(a: Range, b: Range, y: int)
    requires a.Valid() && b.Valid() && a.m == b.m && InWidth(y, a.m) && !a.IsEmptySet() && !b.IsEmptySet()
    ensures BinaryOr(a, b).Contains(y) <==>
              (exists v {:trigger a.Contains(v)} :: InWidth(v, a.m) && a.Contains(v) && v <= y) && (exists w {:trigger b.Contains(w)} :: InWidth(w, a.m) && b.Contains(w) && w <= y)
  {
    hide Wrap, Range.GetUnsignedMin, Range.GetUnsignedMax, Range.Contains;
    BoundsAttained(a);
    BoundsAttained(b);
    forall v | InWidth(v, a.m) && a.Contains(v) ensures a.GetUnsignedMin() <= v { UnsignedBounds(a, v); }
    forall w | InWidth(w, a.m) && b.Contains(w) ensures b.GetUnsignedMin() <= w { UnsignedBounds(b, w); }
    OrRange(a, b, y);
  }

  lemma OrRange(a: Range, b: Range, y: int)
    requires a.Valid() && b.Valid() && a.m == b.m && InWidth(y, a.m) && !a.IsEmptySet() && !b.IsEmptySet()
    requires InWidth(a.GetUnsignedMin(), a.m) && InWidth(b.GetUnsignedMin(), a.m)
    ensures BinaryOr(a, b).Contains(y) <==> a.GetUnsignedMin() <= y && b.GetUnsignedMin() <= y
  {
    hide Range.GetUnsignedMin;
  }
}
