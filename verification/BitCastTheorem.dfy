/** The cast itself, and exactly when it keeps the bits. */
module BitCastTheorem {
  import opened ConstantRange
  import opened Words
  import opened BitCasts

  predicate AllAre(s: seq<nat>, x: nat) { forall i {:trigger s[i]} :: 0 <= i < |s| ==> s[i] == x }

  function Splat(x: nat, m: nat): (t: seq<nat>)
    ensures |t| == m && AllAre(t, x)
  {
    seq(m, i => x)
  }

  /** The elements after the cast of s, of w bits each, to m elements of v bits. */
  function Folded(little: bool, w: nat, s: seq<nat>, v: nat, m: nat): seq<nat>
    requires s != [] && m > 0
  {
    if AllAre(s, 0) then Splat(0, m)
    else if AllAre(s, Pow2(w) - 1) then Splat(Pow2(v) - 1, m)
    else if m == |s| then s
    else if m < |s| then (RatioFits(|s|, m); Narrowed(little, w, |s| / m, s, m))
    else Widened(little, v, m / |s|, s)
  }

  lemma RatioFits(n: nat, m: nat)
    requires m > 0
    ensures m * (n / m) <= n && (n % m == 0 <==> m * (n / m) == n) && (n >= m ==> n / m > 0)
  {
    Commute(m, n / m);
    assert n == m * (n / m) + n % m;
  }

  // ----- The loops -----

  lemma NextFits(i: nat, m: nat, ratio: nat, n: nat)
    requires i < m && m * ratio <= n
    ensures i * ratio + ratio == (i + 1) * ratio <= n
  {
    Times(ratio, i + 1);
    MulMono(i + 1, ratio, m, ratio);
  }

  method NarrowElements(little: bool, w: nat, s: seq<nat>, m: nat) returns (result: seq<nat>)
    requires Elements(w, s) && 0 < m < |s|
    ensures m * (|s| / m) <= |s| && result == Narrowed(little, w, |s| / m, s, m)
  {
    hide Pow2, Base, Part, Elements;
    RatioFits(|s|, m);
    var ratio := |s| / m;
    result := [];
    var srcElt := 0;
    assert srcElt == 0 * ratio;
    for i := 0 to m
      invariant srcElt == i * ratio <= |s|
      invariant result == Narrowed(little, w, ratio, s, i)
    {
      NextFits(i, m, ratio, |s|);
      var elt := MergeElements(little, w, s, srcElt, ratio);
      srcElt := srcElt + ratio;
      result := result + [elt];
    }
  }

  method SplitElement(little: bool, v: nat, ratio: nat, x: nat) returns (t: seq<nat>)
    requires ratio > 0
    ensures t == Pieces(little, v, ratio, x, ratio)
  {
    hide Pow2, Base;
    t := [];
    var shiftAmt: int := if little then 0 else v * (ratio - 1);
    BaseZero(v);
    BaseOne(v);
    for j := 0 to ratio
      invariant shiftAmt == v * (if little then j else ratio - 1 - j) || j == ratio
      invariant t == Pieces(little, v, ratio, x, j)
    {
      ShiftAt(v, if little then j else ratio - 1 - j);
      var elt := x / Pow2(shiftAmt);
      shiftAmt := if little then shiftAmt + v else shiftAmt - v;
      t := t + [elt % Pow2(v)];
    }
  }

  method WidenElements(little: bool, s: seq<nat>, v: nat, m: nat) returns (result: seq<nat>)
    requires 0 < |s| < m
    ensures result == Widened(little, v, m / |s|, s)
  {
    hide Pow2, Pieces;
    RatioFits(m, |s|);
    var ratio := m / |s|;
    result := [];
    assert s[..0] == [];
    for i := 0 to |s|
      invariant result == Widened(little, v, ratio, s[..i])
    {
      var pieces := SplitElement(little, v, ratio, s[i]);
      assert s[..i + 1][..i] == s[..i];
      result := result + pieces;
    }
    assert s[..|s|] == s;
  }

  /** Cast a vector of integers. */
  method FoldBitCast(little: bool, w: nat, s: seq<nat>, v: nat, m: nat) returns (result: seq<nat>)
    requires Elements(w, s) && s != [] && m > 0
    ensures result == Folded(little, w, s, v, m)
  {
    hide Pow2, Narrowed, Widened;
    if AllAre(s, 0) {
      return Splat(0, m);
    }
    if AllAre(s, Pow2(w) - 1) {
      return Splat(Pow2(v) - 1, m);
    }
    if m == |s| {
      return s;
    }
    if m < |s| {
      result := NarrowElements(little, w, s, m);
    } else {
      result := WidenElements(little, s, v, m);
    }
  }

  /** Cast a vector to one integer: shift and insert. */
  method VectorToInteger(little: bool, w: nat, s: seq<nat>) returns (x: nat)
    requires Elements(w, s)
    ensures x == Image(little, w, s)
  {
    hide Pow2, Base, Image, BitOr, Elements;
    x := 0;
    EmptyImage(little, w);
    assert s[..0] == [] && s[|s|..] == [];
    for i := 0 to |s|
      invariant x == Image(little, w, if little then s[|s| - i..] else s[..i])
    {
      var e := if little then s[|s| - i - 1] else s[i];
      InsertElement(little, w, s, i);
      PlainBase(w, 1);
      BaseOne(w);
      x := BitOr(x * Pow2(w), e);
    }
    assert s[0..] == s && s[..|s|] == s;
  }

  lemma InsertElement(little: bool, w: nat, s: seq<nat>, i: nat)
    requires Elements(w, s) && i < |s|
    ensures little ==> BitOr(Image(true, w, s[|s| - i..]) * Base(w, 1), s[|s| - i - 1]) == Image(true, w, s[|s| - i - 1..])
    ensures !little ==> BitOr(Image(false, w, s[..i]) * Base(w, 1), s[i]) == Image(false, w, s[..i + 1])
  {
    hide Pow2, Base, Image, BitOr;
    BaseOne(w);
    if little {
      var rest, x := s[|s| - i..], s[|s| - i - 1];
      assert s[|s| - i - 1..] == [x] + rest;
      ImageConcat(true, w, [x], rest);
      One(true, w, x);
      OrBase(x, Image(true, w, rest), w, 1);
      Commute(Base(w, 1), Image(true, w, rest));
    } else {
      assert s[..i + 1] == s[..i] + [s[i]];
      ImageConcat(false, w, s[..i], [s[i]]);
      One(false, w, s[i]);
      OrBase(s[i], Image(false, w, s[..i]), w, 1);
    }
  }

  // ----- What the cast keeps -----

  ghost predicate KeepsBits(little: bool, w: nat, s: seq<nat>, v: nat, m: nat)
    requires s != [] && m > 0
  {
    var t := Folded(little, w, s, v, m);
    |t| == m && Elements(v, t) && Image(little, v, t) == Image(little, w, s)
  }

  lemma {:induction false} ImageZeros(little: bool, w: nat, s: seq<nat>)
    requires AllAre(s, 0)
    ensures Image(little, w, s) == 0
    decreases |s|
  {
    hide Pow2, Base;
    if s != [] {
      var r := s[1..];
      assert forall i {:trigger r[i]} :: 0 <= i < |r| ==> r[i] == s[i + 1];
      ImageZeros(little, w, r);
    }
  }

  lemma {:induction false} ImageOnes(little: bool, w: nat, s: seq<nat>)
    requires AllAre(s, Pow2(w) - 1)
    ensures Image(little, w, s) == Base(w, |s|) - 1
    decreases |s|
  {
    hide Pow2, Base, Image;
    if s == [] {
      EmptyImage(little, w);
      BaseZero(w);
    } else {
      var r := s[1..];
      assert forall i {:trigger r[i]} :: 0 <= i < |r| ==> r[i] == s[i + 1];
      ImageOnes(little, w, r);
      Head(little, w, s);
      BaseOne(w);
      BaseSum(w, 1, |r|);
      MulSum(Base(w, 1), Base(w, |r|), -1);
      Distribute(Base(w, 1), -1, Base(w, |r|));
    }
  }

  /** The wider width is a multiple of the narrower. */
  lemma WidthRatio(w: nat, n: nat, v: nat, m: nat)
    requires w * n == v * m && m > 0 && n % m == 0
    ensures v == w * (n / m)
  {
    RatioFits(n, m);
    Commute(m, n / m);
    Assoc(w, n / m, m);
    Cancel(v, w * (n / m), m);
  }

  lemma Cancel(a: int, b: int, m: nat)
    requires m > 0 && a * m == b * m
    ensures a == b
  {
    UniqueQuotient(a, 0, b, 0, m);
  }

  lemma SplatKeeps(little: bool, w: nat, s: seq<nat>, v: nat, m: nat)
    requires s != [] && m > 0 && w * |s| == v * m && (AllAre(s, 0) || AllAre(s, Pow2(w) - 1))
    ensures KeepsBits(little, w, s, v, m)
  {
    hide Pow2, Image, Narrowed, Widened;
    if AllAre(s, 0) {
      ImageZeros(little, w, s);
      ImageZeros(little, v, Splat(0, m));
    } else {
      ImageOnes(little, w, s);
      ImageOnes(little, v, Splat(Pow2(v) - 1, m));
      PlainBase(w, |s|);
      PlainBase(v, m);
    }
  }

  /** When one element count divides the other, the cast keeps the bits. */
  lemma DividingKeeps(little: bool, w: nat, s: seq<nat>, v: nat, m: nat)
    requires Elements(w, s) && s != [] && m > 0 && w * |s| == v * m
    requires |s| % m == 0 || m % |s| == 0
    ensures KeepsBits(little, w, s, v, m)
  {
    hide Pow2, Image, Base, Narrowed, Widened;
    var n := |s|;
    if AllAre(s, 0) || AllAre(s, Pow2(w) - 1) {
      SplatKeeps(little, w, s, v, m);
    } else if m == n {
      Cancel(w, v, m);
    } else if m < n {
      assert n % m == 0 by { if n % m != 0 { DivModUnique(m, 0, m, n); } }
      RatioFits(n, m);
      WidthRatio(w, n, v, m);
      NarrowedImage(little, w, n / m, s, m);
      assert s[..m * (n / m)] == s;
    } else {
      assert m % n == 0 by { if m % n != 0 { DivModUnique(n, 0, n, m); } }
      RatioFits(m, n);
      WidthRatio(v, m, w, n);
      WidenedImage(little, v, m / n, s);
      WidenedLength(little, v, m / n, s);
      Commute(n, m / n);
    }
  }

  /** All bits clear but in the last element. */
  function LastOne(n: nat): (s: seq<nat>)
    requires n > 0
    ensures |s| == n && AllAre(s[..n - 1], 0) && s[n - 1] == 1
  {
    Splat(0, n - 1) + [1]
  }

  /** Otherwise it loses the last element, or makes too few. */
  lemma OtherwiseLoses(little: bool, w: nat, n: nat, v: nat, m: nat)
    requires n > 0 && m > 0 && w > 0 && n % m != 0 && m % n != 0
    ensures Elements(w, LastOne(n)) && !KeepsBits(little, w, LastOne(n), v, m)
  {
    hide Pow2, Image, Base, Narrowed, Widened;
    var s := LastOne(n);
    OneBit(w);
    assert m % 1 == 0 && n > 1;
    assert s[0] == 0 by { assert s[..n - 1][0] == 0; }
    assert Elements(w, s) by {
      forall i | 0 <= i < |s| ensures s[i] < Pow2(w) { if i < n - 1 { assert s[..n - 1][i] == 0; } }
    }
    assert !AllAre(s, 0) && !AllAre(s, Pow2(w) - 1);
    assert m != n by { DivModUnique(n, 1, 0, n); }
    if m < n {
      RatioFits(n, m);
      var t := Narrowed(little, w, n / m, s, m);
      NarrowedZeros(little, w, n / m, s, m);
      ImageZeros(little, v, t);
      assert s == s[..n - 1] + [1];
      LastOneImage(little, w, s[..n - 1]);
    } else {
      RatioFits(m, n);
      WidenedLength(little, v, m / n, s);
      Commute(n, m / n);
    }
  }

  lemma OneBit(w: nat)
    requires w > 0
    ensures Pow2(w) >= 2
  {
  }

  lemma LastOneImage(little: bool, w: nat, a: seq<nat>)
    ensures Image(little, w, a + [1]) > 0
  {
    hide Pow2, Image, Base;
    ImageConcat(little, w, a, [1]);
    One(little, w, 1);
    NotZero(Image(little, w, a), Base(w, 1));
  }

  lemma NotZero(a: nat, b: nat)
    ensures a * b >= 0
  {
  }

  lemma {:induction false} NarrowedZeros(little: bool, w: nat, r: nat, s: seq<nat>, m: nat)
    requires m * r <= |s| && forall i {:trigger s[i]} :: 0 <= i < m * r ==> s[i] == 0
    ensures AllAre(Narrowed(little, w, r, s, m), 0)
    decreases m
  {
    hide Pow2, Image;
    if m > 0 {
      Times(r, m);
      NarrowedZeros(little, w, r, s, m - 1);
      var t := s[(m - 1) * r..(m - 1) * r + r];
      assert forall i {:trigger t[i]} :: 0 <= i < |t| ==> t[i] == s[(m - 1) * r + i];
      ImageZeros(little, w, t);
    }
  }

  ghost predicate AlwaysKeepsBits(little: bool, w: nat, n: nat, v: nat, m: nat)
    requires n > 0 && m > 0
  {
    forall s {:trigger Elements(w, s)} :: |s| == n && Elements(w, s) ==> KeepsBits(little, w, s, v, m)
  }

  /** Between vectors of the same number of bits, the cast keeps the bits of all vectors exactly when one element
      count divides the other. */
  lemma CastKeepsBits(little: bool, w: nat, n: nat, v: nat, m: nat)
    requires n > 0 && m > 0 && w > 0 && w * n == v * m
    ensures AlwaysKeepsBits(little, w, n, v, m) <==> n % m == 0 || m % n == 0
  {
    hide KeepsBits, Elements;
    if n % m == 0 || m % n == 0 {
      forall s | |s| == n && Elements(w, s) ensures KeepsBits(little, w, s, v, m) {
        DividingKeeps(little, w, s, v, m);
      }
    } else {
      OtherwiseLoses(little, w, n, v, m);
    }
  }

  /** Casting there and back changes nothing. */
  lemma RoundTrip(little: bool, w: nat, s: seq<nat>, v: nat, m: nat)
    requires Elements(w, s) && s != [] && m > 0 && w * |s| == v * m
    requires |s| % m == 0 || m % |s| == 0
    ensures var t := Folded(little, w, s, v, m);
            t != [] && Folded(little, v, t, w, |s|) == s
  {
    hide Folded, Elements, Image;
    DividingKeeps(little, w, s, v, m);
    var t := Folded(little, w, s, v, m);
    DividingKeeps(little, v, t, w, |s|);
    ImageInjective(little, w, Folded(little, v, t, w, |s|), s);
  }

  /** Casting to an integer and to a vector of one element agree. */
  lemma IntegerIsOneElement(little: bool, w: nat, s: seq<nat>)
    requires Elements(w, s) && s != []
    ensures Folded(little, w, s, w * |s|, 1) == [Image(little, w, s)]
  {
    hide Folded, Elements, Image;
    assert |s| % 1 == 0 && w * |s| == (w * |s|) * 1;
    DividingKeeps(little, w, s, w * |s|, 1);
    var t := Folded(little, w, s, w * |s|, 1);
    assert t == [t[0]];
    One(little, w * |s|, t[0]);
  }
}
