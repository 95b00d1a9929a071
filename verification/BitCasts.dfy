/** Casting constant vectors to vectors of other element widths: the bits stay, in the byte order of the target. */
module BitCasts {
  import opened ConstantRange
  import opened Words

  /** The elements of an integer vector of w bits each. */
  ghost predicate Elements(w: nat, s: seq<nat>) { forall i {:trigger s[i]} :: 0 <= i < |s| ==> s[i] < Pow2(w) }

  /** The weight of n elements of w bits. */
  function Base(w: nat, n: nat): (p: nat)
    ensures p >= 1
  {
    Pow2(w * n)
  }

  /** The bits of a vector as one number. In little-endian order the first element has the low bits. */
  function Image(little: bool, w: nat, s: seq<nat>): nat {
    if s == [] then 0
    else if little then s[0] + Base(w, 1) * Image(little, w, s[1..])
    else s[0] * Base(w, |s| - 1) + Image(little, w, s[1..])
  }

  lemma {:induction false} Pow2Sum(a: nat, b: nat)
    ensures Pow2(a + b) == Pow2(a) * Pow2(b)
    decreases b
  {
    if b > 0 {
      Pow2Sum(a, b - 1);
      Twice(Pow2(a), Pow2(b - 1));
    }
  }

  lemma BaseZero(w: nat)
    ensures Base(w, 0) == 1 && w * 0 == 0
  {
  }

  lemma BaseOne(w: nat)
    ensures Base(w, 1) == Pow2(w)
  {
    hide Pow2;
    assert w * 1 == w;
  }

  lemma BaseSum(w: nat, m: nat, n: nat)
    ensures Base(w, m + n) == Base(w, m) * Base(w, n)
  {
    hide Pow2;
    MulSum(w, m, n);
    Pow2Sum(w * m, w * n);
  }

  lemma Twice(p: int, q: int)
    ensures p * (2 * q) == 2 * (p * q)
  {
  }

  lemma One(little: bool, w: nat, x: nat)
    ensures Image(little, w, [x]) == x
  {
    hide Pow2;
    BaseZero(w);
    assert [x][1..] == [];
    assert Image(little, w, []) == 0;
  }

  lemma Head(little: bool, w: nat, s: seq<nat>)
    requires s != []
    ensures Image(little, w, s) == if little then s[0] + Base(w, 1) * Image(little, w, s[1..])
                                   else s[0] * Base(w, |s| - 1) + Image(little, w, s[1..])
  {
  }

  lemma RegroupLittle(h: int, p: int, x: int, q: int, y: int, t: int)
    requires t == x + q * y
    ensures h + p * t == (h + p * x) + (p * q) * y
  {
    MulSum(p, x, q * y);
    Assoc(p, q, y);
  }

  lemma RegroupBig(h: int, p: int, q: int, x: int, y: int, t: int)
    requires t == x * q + y
    ensures h * (p * q) + t == (h * p + x) * q + y
  {
    Assoc(h, p, q);
    Distribute(h * p, x, q);
  }

  /** The image of two vectors end to end. */
  lemma {:induction false} ImageConcat(little: bool, w: nat, a: seq<nat>, b: seq<nat>)
    ensures Image(little, w, a + b) ==
            if little then Image(little, w, a) + Base(w, |a|) * Image(little, w, b)
            else Image(little, w, a) * Base(w, |b|) + Image(little, w, b)
    decreases |a|
  {
    hide Base;
    if a == [] {
      assert a + b == b;
      BaseZero(w);
    } else {
      assert (a + b)[1..] == a[1..] + b;
      ImageConcat(little, w, a[1..], b);
      hide Image;
      Head(little, w, a);
      Head(little, w, a + b);
      BaseSum(w, 1, |a| - 1);
      BaseSum(w, |a| - 1, |b|);
      if little {
        RegroupLittle(a[0], Base(w, 1), Image(true, w, a[1..]), Base(w, |a| - 1), Image(true, w, b), Image(true, w, a[1..] + b));
      } else {
        assert |a + b| - 1 == (|a| - 1) + |b|;
        RegroupBig(a[0], Base(w, |a| - 1), Base(w, |b|), Image(false, w, a[1..]), Image(false, w, b), Image(false, w, a[1..] + b));
      }
    }
  }

  /** The image has no more bits than the vector. */
  lemma {:induction false} ImageBound(little: bool, w: nat, s: seq<nat>)
    requires Elements(w, s)
    ensures Image(little, w, s) < Base(w, |s|)
    decreases |s|
  {
    hide Base, Pow2;
    if s == [] {
      BaseZero(w);
    } else {
      var r := s[1..];
      assert forall i {:trigger r[i]} :: 0 <= i < |r| ==> r[i] == s[i + 1];
      ImageBound(little, w, r);
      BaseOne(w);
      BaseSum(w, 1, |r|);
      BelowProduct(s[0], Base(w, 1), Image(little, w, r), Base(w, |r|));
    }
  }

  lemma BelowProduct(a: nat, p: nat, b: nat, q: nat)
    requires a < p && b < q
    ensures a + p * b < p * q && a * q + b < p * q
  {
    assert p * b <= p * (q - 1) && a * q <= (p - 1) * q by { MulMono(p, b, p, q - 1); MulMono(a, q, p - 1, q); }
    MulSum(p, q, -1);
    Distribute(p, -1, q);
  }

  /** A vector is determined by its image. */
  lemma {:induction false} ImageInjective(little: bool, w: nat, a: seq<nat>, b: seq<nat>)
    requires Elements(w, a) && Elements(w, b) && |a| == |b| && Image(little, w, a) == Image(little, w, b)
    ensures a == b
    decreases |a|
  {
    hide Base, Pow2;
    if a != [] {
      var x, y := a[1..], b[1..];
      assert forall i {:trigger x[i]} :: 0 <= i < |x| ==> x[i] == a[i + 1];
      assert forall i {:trigger y[i]} :: 0 <= i < |y| ==> y[i] == b[i + 1];
      ImageBound(little, w, x);
      ImageBound(little, w, y);
      BaseOne(w);
      if little {
        Commute(Base(w, 1), Image(little, w, x));
        Commute(Base(w, 1), Image(little, w, y));
        UniqueQuotient(Image(little, w, x), a[0], Image(little, w, y), b[0], Base(w, 1));
      } else {
        UniqueQuotient(a[0], Image(little, w, x), b[0], Image(little, w, y), Base(w, |x|));
      }
      ImageInjective(little, w, x, y);
      assert a == [a[0]] + x && b == [b[0]] + y;
    }
  }

  // ----- Disjoint bits -----

  /** Low bits and a number above them do not overlap. */
  lemma {:induction false} OrDisjoint(low: nat, high: nat, k: nat)
    requires low < Pow2(k)
    ensures BitOr(low, high * Pow2(k)) == low + high * Pow2(k)
    ensures BitOr(high * Pow2(k), low) == low + high * Pow2(k)
    decreases k
  {
    if k == 0 {
      assert high * 1 == high;
    } else {
      var p := Pow2(k - 1);
      Twice(high, p);
      OrDisjoint(low / 2, high, k - 1);
      OrStep(low, 2 * (high * p));
      OrStep(2 * (high * p), low);
    }
  }

  lemma OrStep(x: nat, y: nat)
    ensures BitOr(x, y) == 2 * BitOr(x / 2, y / 2) + (if x % 2 == 1 || y % 2 == 1 then 1 else 0)
  {
  }

  lemma OrBase(low: nat, high: nat, w: nat, n: nat)
    requires low < Base(w, n)
    ensures BitOr(low, high * Base(w, n)) == low + high * Base(w, n)
    ensures BitOr(high * Base(w, n), low) == low + high * Base(w, n)
  {
    hide Pow2, BitOr;
    OrDisjoint(low, high, w * n);
  }

  // ----- Fewer, wider elements -----

  /** The image of n elements from first on. */
  function Part(little: bool, w: nat, s: seq<nat>, first: nat, n: nat): nat
    requires first + n <= |s|
  {
    Image(little, w, s[first..first + n])
  }

  /** The image of a slice with one more element. */
  lemma PartGrows(little: bool, w: nat, src: seq<nat>, first: nat, j: nat)
    requires Elements(w, src) && first + j < |src|
    ensures Part(little, w, src, first, j) < Base(w, j)
    ensures Part(little, w, src, first, j + 1) ==
            if little then Part(little, w, src, first, j) + src[first + j] * Base(w, j)
            else Part(little, w, src, first, j) * Base(w, 1) + src[first + j]
  {
    hide Pow2, Image, Base;
    var s, x := src[first..first + j], src[first + j];
    assert src[first..first + j + 1] == s + [x];
    assert forall i {:trigger s[i]} :: 0 <= i < |s| ==> s[i] == src[first + i];
    ImageBound(little, w, s);
    ImageConcat(little, w, s, [x]);
    One(little, w, x);
    Commute(x, Base(w, j));
  }

  /** One more element: its shifted bits do not overlap those already there. */
  lemma MergeStep(little: bool, w: nat, src: seq<nat>, first: nat, ratio: nat, j: nat, elt: nat)
    requires Elements(w, src) && first + ratio <= |src| && j < ratio
    requires elt == if little then Part(little, w, src, first, j) else Part(little, w, src, first, j) * Base(w, ratio - j)
    ensures BitOr(elt, src[first + j] * Base(w, if little then j else ratio - 1 - j)) ==
            if little then Part(little, w, src, first, j + 1)
            else Part(little, w, src, first, j + 1) * Base(w, ratio - j - 1)
  {
    hide Pow2, BitOr, Part, Base;
    PartGrows(little, w, src, first, j);
    var s, x, rest := Part(little, w, src, first, j), src[first + j], Base(w, ratio - j - 1);
    if little {
      OrBase(s, x, w, j);
    } else {
      BaseSum(w, 1, ratio - j - 1);
      BaseOne(w);
      BelowProduct(x, Base(w, 1), 0, rest);
      OrBase(x * rest, s, w, ratio - j);
      Assoc(s, Base(w, 1), rest);
      Distribute(s * Base(w, 1), x, rest);
    }
  }

  lemma MergeEnds(little: bool, w: nat, src: seq<nat>, first: nat, ratio: nat)
    requires Elements(w, src) && 0 < ratio && first + ratio <= |src|
    ensures Part(little, w, src, first, 0) == 0 && Part(little, w, src, first, 0) * Base(w, ratio) == 0
    ensures Part(little, w, src, first, ratio) < Base(w, ratio)
    ensures Part(little, w, src, first, ratio) * Base(w, ratio - ratio) == Part(little, w, src, first, ratio)
    ensures w * (ratio - 1) == w * (ratio - 1 - 0) && w * 0 == 0
  {
    hide Pow2, Base;
    BaseZero(w);
    assert src[first..first + 0] == [];
    var s := src[first..first + ratio];
    assert forall i {:trigger s[i]} :: 0 <= i < |s| ==> s[i] == src[first + i];
    ImageBound(little, w, s);
  }

  lemma ShiftAt(w: nat, n: nat)
    ensures Pow2(w * n) == Base(w, n) && w * (n + 1) == w * n + w && (n > 0 ==> w * (n - 1) == w * n - w)
  {
    hide Pow2;
    MulSum(w, n, 1);
    MulSum(w, n, -1);
  }

  /** ratio elements of w bits make one element, each put in its place by its shift. */
  method MergeElements(little: bool, w: nat, src: seq<nat>, first: nat, ratio: nat) returns (elt: nat)
    requires Elements(w, src) && ratio > 0 && first + ratio <= |src|
    ensures elt == Part(little, w, src, first, ratio) && elt < Base(w, ratio)
  {
    hide Pow2, BitOr, Part, Base, Elements;
    elt := 0;
    var shiftAmt: int := if little then 0 else w * (ratio - 1);
    MergeEnds(little, w, src, first, ratio);
    for j := 0 to ratio
      invariant shiftAmt == w * (if little then j else ratio - 1 - j) || j == ratio
      invariant elt == if little then Part(little, w, src, first, j) else Part(little, w, src, first, j) * Base(w, ratio - j)
    {
      MergeStep(little, w, src, first, ratio, j, elt);
      ShiftAt(w, if little then j else ratio - 1 - j);
      elt := BitOr(elt, src[first + j] * Pow2(shiftAmt));
      shiftAmt := if little then shiftAmt + w else shiftAmt - w;
    }
  }

  /** The first m elements of the narrower vector. */
  function Narrowed(little: bool, w: nat, r: nat, s: seq<nat>, m: nat): (t: seq<nat>)
    requires m * r <= |s|
    ensures |t| == m
  {
    if m == 0 then []
    else
      (MulSum(r, m, -1); Commute(r, m); Commute(r, m - 1);
       Narrowed(little, w, r, s, m - 1) + [Part(little, w, s, (m - 1) * r, r)])
  }

  lemma BaseScale(w: nat, r: nat, k: nat)
    ensures Base(w * r, k) == Base(w, r * k)
  {
    hide Pow2;
    Assoc(w, r, k);
  }

  lemma Times(r: nat, m: nat)
    requires m > 0
    ensures m * r == (m - 1) * r + r
  {
    Distribute(m - 1, 1, r);
  }

  /** Grouping r elements into one keeps the bits. */
  lemma {:induction false} NarrowedImage(little: bool, w: nat, r: nat, s: seq<nat>, m: nat)
    requires Elements(w, s) && m * r <= |s|
    ensures Image(little, w * r, Narrowed(little, w, r, s, m)) == Image(little, w, s[..m * r])
    ensures Elements(w * r, Narrowed(little, w, r, s, m))
    decreases m
  {
    hide Pow2, Base, Image;
    if m == 0 {
      assert s[..0 * r] == [];
      EmptyImage(little, w * r);
      EmptyImage(little, w);
    } else {
      Times(r, m);
      NarrowedImage(little, w, r, s, m - 1);
      var init, x := Narrowed(little, w, r, s, m - 1), Part(little, w, s, (m - 1) * r, r);
      var tail := s[(m - 1) * r..(m - 1) * r + r];
      assert s[..m * r] == s[..(m - 1) * r] + tail;
      ImageConcat(little, w, s[..(m - 1) * r], tail);
      ImageConcat(little, w * r, init, [x]);
      One(little, w * r, x);
      BaseScale(w, r, m - 1);
      BaseScale(w, r, 1);
      Commute(r, m - 1);
      assert Base(w, |tail|) == Base(w * r, 1);
      PartBound(little, w, s, (m - 1) * r, r);
    }
  }

  lemma EmptyImage(little: bool, w: nat)
    ensures Image(little, w, []) == 0
  {
  }

  lemma PartBound(little: bool, w: nat, s: seq<nat>, first: nat, r: nat)
    requires Elements(w, s) && first + r <= |s|
    ensures Part(little, w, s, first, r) < Pow2(w * r)
  {
    hide Pow2, Image;
    var t := s[first..first + r];
    assert forall i {:trigger t[i]} :: 0 <= i < |t| ==> t[i] == s[first + i];
    ImageBound(little, w, t);
  }

  // ----- More, narrower elements -----

  /** The bits of x from the place of piece j on, cut to v bits. */
  function Piece(little: bool, v: nat, r: nat, x: nat, j: nat): nat
    requires j < r
  {
    (x / Base(v, if little then j else r - 1 - j)) % Base(v, 1)
  }

  function Pieces(little: bool, v: nat, r: nat, x: nat, n: nat): (t: seq<nat>)
    requires n <= r
    ensures |t| == n
  {
    if n == 0 then [] else Pieces(little, v, r, x, n - 1) + [Piece(little, v, r, x, n - 1)]
  }

  function Widened(little: bool, v: nat, r: nat, s: seq<nat>): seq<nat> {
    if s == [] then [] else Widened(little, v, r, s[..|s| - 1]) + Pieces(little, v, r, s[|s| - 1], r)
  }

  lemma ModProduct(x: nat, a: nat, b: nat)
    requires a > 0 && b > 0
    ensures a * b > 0 && x % (a * b) == x % a + a * ((x / a) % b) && x / (a * b) == (x / a) / b
  {
    MulMono(1, 1, a, b);
    var q, r := (x / a) / b, (x / a) % b;
    BelowProduct(x % a, a, r, b);
    assert x == q * (a * b) + (x % a + a * r) by {
      assert x == (x / a) * a + x % a && x / a == q * b + r;
      Distribute(q * b, r, a);
      Assoc(q, b, a);
      Commute(a, b);
      Commute(a, r);
    }
    DivModUnique(x, q, x % a + a * r, a * b);
  }

  /** The pieces cut so far are the low, or the high, bits of x. */
  lemma {:induction false} PiecesImage(little: bool, v: nat, r: nat, x: nat, n: nat)
    requires n <= r && x < Base(v, r)
    ensures Image(little, v, Pieces(little, v, r, x, n)) == if little then x % Base(v, n) else x / Base(v, r - n)
    decreases n
  {
    hide Pow2, Base, Image;
    if n == 0 {
      EmptyImage(little, v);
      BaseZero(v);
      DivModUnique(x, 0, x, Base(v, r));
    } else {
      PiecesImage(little, v, r, x, n - 1);
      var init, y := Pieces(little, v, r, x, n - 1), Piece(little, v, r, x, n - 1);
      ImageConcat(little, v, init, [y]);
      One(little, v, y);
      if little {
        BaseSum(v, n - 1, 1);
        ModProduct(x, Base(v, n - 1), Base(v, 1));
      } else {
        BaseSum(v, r - n, 1);
        ModProduct(x, Base(v, r - n), Base(v, 1));
        assert (r - n) + 1 == r - (n - 1);
      }
    }
  }

  lemma PiecesWhole(little: bool, v: nat, r: nat, x: nat)
    requires x < Base(v, r)
    ensures Image(little, v, Pieces(little, v, r, x, r)) == x
  {
    hide Pow2, Base, Image, Pieces;
    PiecesImage(little, v, r, x, r);
    BaseZero(v);
    DivModUnique(x, 0, x, Base(v, r));
    assert x / 1 == x;
  }

  lemma {:induction false} PiecesElements(little: bool, v: nat, r: nat, x: nat, n: nat)
    requires n <= r
    ensures Elements(v, Pieces(little, v, r, x, n))
    decreases n
  {
    hide Pow2, Base;
    if n > 0 {
      PiecesElements(little, v, r, x, n - 1);
      BaseOne(v);
    }
  }

  lemma {:induction false} WidenedLength(little: bool, v: nat, r: nat, s: seq<nat>)
    ensures |Widened(little, v, r, s)| == r * |s|
    decreases |s|
  {
    hide Pieces;
    if s != [] {
      WidenedLength(little, v, r, s[..|s| - 1]);
      MulSum(r, |s|, -1);
    }
  }

  lemma WidenedStep(little: bool, v: nat, r: nat, a: seq<nat>, init: seq<nat>, x: nat)
    requires x < Base(v, r) && Image(little, v, a) == Image(little, v * r, init)
    requires Base(v, |a|) == Base(v * r, |init|)
    ensures Image(little, v, a + Pieces(little, v, r, x, r)) == Image(little, v * r, init + [x])
  {
    hide Pow2, Base, Image, Pieces;
    PiecesWhole(little, v, r, x);
    ImageConcat(little, v, a, Pieces(little, v, r, x, r));
    ImageConcat(little, v * r, init, [x]);
    One(little, v * r, x);
    BaseScale(v, r, 1);
    assert r * 1 == r;
  }

  /** Splitting each element into r keeps the bits. */
  lemma {:induction false} WidenedImage(little: bool, v: nat, r: nat, s: seq<nat>)
    requires Elements(v * r, s)
    ensures Image(little, v, Widened(little, v, r, s)) == Image(little, v * r, s) && Elements(v, Widened(little, v, r, s))
    decreases |s|
  {
    hide Pow2, Base, Image, Pieces;
    if s == [] {
      EmptyImage(little, v);
      EmptyImage(little, v * r);
    } else {
      var init, x := s[..|s| - 1], s[|s| - 1];
      assert forall i {:trigger init[i]} :: 0 <= i < |init| ==> init[i] == s[i];
      assert s == init + [x];
      WidenedImage(little, v, r, init);
      WidenedLength(little, v, r, init);
      PlainBase(v, r);
      PiecesElements(little, v, r, x, r);
      BaseScale(v, r, |init|);
      WidenedStep(little, v, r, Widened(little, v, r, init), init, x);
    }
  }

  lemma PlainBase(v: nat, r: nat)
    ensures Base(v, r) == Pow2(v * r)
  {
  }
}
