/** Which bytes of a constant the reader understands. Padding is understood, and so is everything past the end. */
module ConstantKnown {
  import opened ConstantRange
  import opened Words
  import opened ConstantMemory

  ghost predicate KnownByte(c: Const, k: nat) {
    match c
    case Unknown(n) => k >= n
    case IntToPtr(d) => KnownByte(d, k)
    case Struct(_, fields) =>
      forall i {:trigger fields[i]} :: 0 <= i < |fields| && fields[i].offset <= k < fields[i].offset + Size(fields[i].c) ==>
        KnownByte(fields[i].c, k - fields[i].offset)
    case Array(_, elts) =>
      forall i {:trigger elts[i]} :: 0 <= i < |elts| && ElementStart(c, i) <= k < ElementStart(c, i) + c.eltSize ==>
        KnownByte(elts[i], k - ElementStart(c, i))
    case _ => true
  }

  ghost predicate KnownWindow(c: Const, lo: nat, n: nat) {
    forall k {:trigger KnownByte(c, k)} :: lo <= k < lo + n ==> KnownByte(c, k)
  }

  // ----- Structs -----

  /** The bytes of field i in a window of the struct are known. */
  ghost predicate FieldKnown(c: Const, i: nat, lo: nat, n: nat)
    requires c.Struct? && i < |c.fields|
  {
    var f := c.fields[i];
    forall k {:trigger KnownByte(f.c, k)} :: 0 <= k < Size(f.c) && lo <= f.offset + k < lo + n ==> KnownByte(f.c, k)
  }

  lemma WindowOfFields(c: Const, lo: nat, n: nat)
    requires c.Struct?
    ensures KnownWindow(c, lo, n) <==> forall i {:trigger c.fields[i]} :: 0 <= i < |c.fields| ==> FieldKnown(c, i, lo, n)
  {
    if KnownWindow(c, lo, n) {
      forall i | 0 <= i < |c.fields| ensures FieldKnown(c, i, lo, n) {
        var f := c.fields[i];
        forall k: nat | k < Size(f.c) && lo <= f.offset + k < lo + n ensures KnownByte(f.c, k) {
          assert KnownByte(c, f.offset + k);
        }
      }
    } else {
      var k :| lo <= k < lo + n && !KnownByte(c, k);
      var i :| 0 <= i < |c.fields| && c.fields[i].offset <= k < c.fields[i].offset + Size(c.fields[i].c)
               && !KnownByte(c.fields[i].c, k - c.fields[i].offset);
      assert !FieldKnown(c, i, lo, n);
    }
  }

  lemma FieldOutside(c: Const, i: nat, lo: nat, n: nat)
    requires c.Struct? && i < |c.fields|
    requires c.fields[i].offset + Size(c.fields[i].c) <= lo || lo + n <= c.fields[i].offset
    ensures FieldKnown(c, i, lo, n)
  {
  }

  /** Reading from byte k of field i on, to the end of the window. */
  lemma FieldFrom(c: Const, i: nat, lo: nat, n: nat, k: nat, left: nat)
    requires c.Struct? && i < |c.fields| && c.fields[i].offset + k + left == lo + n && lo <= c.fields[i].offset + k
    requires k == 0 || c.fields[i].offset + k == lo
    ensures k >= Size(c.fields[i].c) ==> FieldKnown(c, i, lo, n)
    ensures KnownWindow(c.fields[i].c, k, left) ==> FieldKnown(c, i, lo, n)
    ensures LaidOut(c) && FieldKnown(c, i, lo, n) ==> KnownWindow(c.fields[i].c, k, left)
  {
    var f := c.fields[i];
    if LaidOut(c) && FieldKnown(c, i, lo, n) {
      forall b | k <= b < k + left ensures KnownByte(f.c, b) {
        if b >= Size(f.c) { PastEndKnown(f.c, b); }
      }
    }
  }

  /** What is past the end of a constant is known. */
  lemma {:induction false} PastEndKnown(c: Const, k: nat)
    requires LaidOut(c) && k >= Size(c)
    ensures KnownByte(c, k)
    decreases c
  {
    match c
    case IntToPtr(d) => PastEndKnown(d, k);
    case Struct(size, fields) =>
      forall i | 0 <= i < |fields| ensures fields[i].offset + Size(fields[i].c) <= k { FieldsInside(c, i); }
    case Array(n, elts) =>
      forall i: nat | i < |elts| ensures ElementStart(c, i) + n <= k { ElementInside(c, i); }
    case _ =>
  }

  lemma ElementInside(c: Const, i: nat)
    requires c.Array? && i < |c.elts|
    ensures ElementStart(c, i) + c.eltSize <= Size(c)
  {
    MulSum(c.eltSize, i, 1);
    MulMono(c.eltSize, i + 1, c.eltSize, |c.elts|);
  }

  lemma {:induction false} FieldsInside(c: Const, i: nat)
    requires LaidOut(c) && c.Struct? && i < |c.fields|
    ensures c.fields[i].offset + Size(c.fields[i].c) <= c.size
    decreases |c.fields| - i
  {
    assert InPlace(c.size, c.fields, i);
    if i + 1 < |c.fields| { FieldsInside(c, i + 1); }
  }

  lemma {:induction false} FieldsOrdered(c: Const, i: nat, j: nat)
    requires LaidOut(c) && c.Struct? && i < j < |c.fields|
    ensures c.fields[i].offset + Size(c.fields[i].c) <= c.fields[j].offset
    decreases j
  {
    assert InPlace(c.size, c.fields, i) && InPlace(c.size, c.fields, j - 1);
    if i + 1 < j { FieldsOrdered(c, i, j - 1); }
  }

  ghost predicate FieldsKnownTo(c: Const, n: nat, lo: nat, len: nat)
    requires c.Struct? && n <= |c.fields|
  {
    forall i {:trigger c.fields[i]} :: 0 <= i < n ==> FieldKnown(c, i, lo, len)
  }

  /** Fields that end before the window starts. */
  lemma FieldsBefore(c: Const, n: nat, lo: nat, len: nat)
    requires LaidOut(c) && c.Struct? && n < |c.fields| && c.fields[n].offset <= lo
    ensures FieldsKnownTo(c, n, lo, len)
  {
    forall i | 0 <= i < n ensures FieldKnown(c, i, lo, len) {
      FieldsOrdered(c, i, n);
      FieldOutside(c, i, lo, len);
    }
  }

  /** With the fields up to n known, and all others beyond the window, the window is known. */
  lemma FieldsDone(c: Const, n: nat, lo: nat, len: nat)
    requires LaidOut(c) && c.Struct? && n <= |c.fields| && FieldsKnownTo(c, n, lo, len)
    requires n < |c.fields| ==> lo + len <= c.fields[n].offset
    ensures KnownWindow(c, lo, len)
  {
    forall i: nat | i < |c.fields| ensures FieldKnown(c, i, lo, len) {
      if i >= n {
        if i > n { FieldsOrdered(c, n, i); }
        FieldOutside(c, i, lo, len);
      } else {
        var f := c.fields[i];
      }
    }
    WindowOfFields(c, lo, len);
  }

  lemma FieldUnknown(c: Const, i: nat, lo: nat, len: nat)
    requires c.Struct? && i < |c.fields| && !FieldKnown(c, i, lo, len)
    ensures !KnownWindow(c, lo, len)
  {
    WindowOfFields(c, lo, len);
    var f := c.fields[i];
  }

  // ----- Arrays -----

  ghost predicate ElementKnown(c: Const, i: nat, lo: nat, n: nat)
    requires c.Array? && i < |c.elts|
  {
    forall k {:trigger KnownByte(c.elts[i], k)} :: 0 <= k < c.eltSize && lo <= ElementStart(c, i) + k < lo + n ==>
      KnownByte(c.elts[i], k)
  }

  ghost predicate ElementsKnownTo(c: Const, n: nat, lo: nat, len: nat)
    requires c.Array? && n <= |c.elts|
  {
    forall i {:trigger c.elts[i]} :: 0 <= i < n ==> ElementKnown(c, i, lo, len)
  }

  lemma ElementsOrdered(c: Const, i: nat, j: nat)
    requires c.Array? && i < j
    ensures ElementStart(c, i) + c.eltSize <= ElementStart(c, j)
  {
    MulSum(c.eltSize, i, 1);
    MulMono(c.eltSize, i + 1, c.eltSize, j);
  }

  lemma WindowOfElements(c: Const, lo: nat, n: nat)
    requires c.Array?
    ensures KnownWindow(c, lo, n) <==> ElementsKnownTo(c, |c.elts|, lo, n)
  {
    hide ElementStart;
    if KnownWindow(c, lo, n) {
      forall i: nat | i < |c.elts| ensures ElementKnown(c, i, lo, n) {
        forall k: nat | k < c.eltSize && lo <= ElementStart(c, i) + k < lo + n ensures KnownByte(c.elts[i], k) {
          assert KnownByte(c, ElementStart(c, i) + k);
        }
      }
    } else {
      var k :| lo <= k < lo + n && !KnownByte(c, k);
      var i :| 0 <= i < |c.elts| && ElementStart(c, i) <= k < ElementStart(c, i) + c.eltSize
               && !KnownByte(c.elts[i], k - ElementStart(c, i));
      assert !ElementKnown(c, i, lo, n);
    }
  }

  lemma ElementsBefore(c: Const, n: nat, lo: nat, len: nat)
    requires c.Array? && n <= |c.elts| && ElementStart(c, n) <= lo
    ensures ElementsKnownTo(c, n, lo, len)
  {
    hide ElementStart;
    forall i: nat | i < n ensures ElementKnown(c, i, lo, len) { ElementsOrdered(c, i, n); }
  }

  lemma ElementFrom(c: Const, i: nat, lo: nat, n: nat, k: nat, left: nat)
    requires LaidOut(c) && c.Array? && i < |c.elts| && ElementStart(c, i) + k + left == lo + n && lo <= ElementStart(c, i) + k
    requires k == 0 || ElementStart(c, i) + k == lo
    ensures KnownWindow(c.elts[i], k, left) <==> ElementKnown(c, i, lo, n)
  {
    hide ElementStart;
    if ElementKnown(c, i, lo, n) {
      forall b | k <= b < k + left ensures KnownByte(c.elts[i], b) {
        if b >= c.eltSize { PastEndKnown(c.elts[i], b); }
      }
    }
  }

  lemma ElementsDone(c: Const, n: nat, lo: nat, len: nat)
    requires c.Array? && n <= |c.elts| && ElementsKnownTo(c, n, lo, len)
    requires n < |c.elts| ==> lo + len <= ElementStart(c, n)
    ensures KnownWindow(c, lo, len)
  {
    hide ElementStart;
    forall i: nat | i < |c.elts| ensures ElementKnown(c, i, lo, len) {
      if i > n { ElementsOrdered(c, n, i); }
      var e := c.elts[i];
    }
    WindowOfElements(c, lo, len);
  }

  lemma ElementUnknown(c: Const, i: nat, lo: nat, len: nat)
    requires c.Array? && i < |c.elts| && !ElementKnown(c, i, lo, len)
    ensures !KnownWindow(c, lo, len)
  {
    WindowOfElements(c, lo, len);
    var e := c.elts[i];
  }
}
