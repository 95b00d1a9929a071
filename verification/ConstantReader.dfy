/** The recursive reader that copies a constant's bytes into a buffer, and the load that is folded from them. */
module ConstantReader {
  import opened ConstantRange
  import opened Words
  import opened BitCasts
  import opened ConstantMemory
  import opened ConstantKnown

  ghost predicate Cleared(s: seq<nat>, cur: nat, left: nat) {
    cur + left <= |s| && forall k {:trigger s[k]} :: cur <= k < cur + left ==> s[k] == 0
  }

  /** The window from cur on holds the bytes of an image from byteOffset on. */
  ghost predicate Holds(s: seq<nat>, cur: nat, left: nat, image: seq<nat>, byteOffset: nat) {
    cur + left <= |s| && forall k {:trigger s[k]} :: cur <= k < cur + left ==> s[k] == ByteAt(image, byteOffset + (k - cur))
  }

  /** Nothing outside the window has changed. */
  ghost predicate Kept(a: seq<nat>, b: seq<nat>, cur: nat, left: nat) {
    |a| == |b| && forall k {:trigger b[k]} :: 0 <= k < |a| && !(cur <= k < cur + left) ==> b[k] == a[k]
  }

  lemma ZeroHolds(s: seq<nat>, cur: nat, left: nat, n: nat, byteOffset: nat)
    requires Cleared(s, cur, left)
    ensures Holds(s, cur, left, Zeros(n), byteOffset)
  {
  }

  lemma PastEnd(s: seq<nat>, cur: nat, left: nat, image: seq<nat>, byteOffset: nat)
    requires Cleared(s, cur, left) && byteOffset >= |image|
    ensures Holds(s, cur, left, image, byteOffset)
  {
  }

  // ----- Integers -----

  lemma PieceAt(little: bool, n: nat, val: nat, k: nat, m: nat)
    requires k < m <= n
    ensures Pieces(little, 8, n, val, m)[k] == Piece(little, 8, n, val, k)
    decreases m
  {
    hide Piece;
    if k < m - 1 { PieceAt(little, n, val, k, m - 1); }
  }

  method ReadInt(little: bool, c: Const, byteOffset: nat, buf: array<nat>, cur: nat, left: nat)
    requires c.Int? && LaidOut(c) && byteOffset <= Size(c) && cur + left <= buf.Length && Cleared(buf[..], cur, left)
    modifies buf
    ensures Holds(buf[..], cur, left, Bytes(little, c), byteOffset) && Kept(old(buf[..]), buf[..], cur, left)
  {
    hide Pow2, Base, Pieces, Piece;
    var intBytes := c.bytes;
    var at := byteOffset;
    var i := 0;
    while i != left && at != intBytes
      invariant i <= left && at == byteOffset + i <= intBytes
      invariant Holds(buf[..], cur, i, Bytes(little, c), byteOffset) && Kept(old(buf[..]), buf[..], cur, i)
      decreases left - i
    {
      var n := if little then at else intBytes - at - 1;
      PieceAt(little, intBytes, c.val, at, intBytes);
      PieceIs(little, intBytes, c.val, at);
      buf[cur + i] := (c.val / Pow2(n * 8)) % 256;
      i := i + 1;
      at := at + 1;
    }
    assert forall k {:trigger buf[..][k]} :: cur + i <= k < cur + left ==> buf[..][k] == old(buf[..])[k] == 0;
  }

  lemma PieceIs(little: bool, n: nat, val: nat, k: nat)
    requires k < n
    ensures Piece(little, 8, n, val, k) == (val / Pow2((if little then k else n - k - 1) * 8)) % 256
  {
    hide Pow2;
    var j := if little then k else n - 1 - k;
    assert j * 8 == 8 * j;
    assert Base(8, 1) == 256 by { Pow8(); BaseOne(8); }
  }

  lemma Pow8()
    ensures Pow2(8) == 256
  {
  }

  // ----- Structs -----

  /** The last field that starts no later than the offset. */
  function ElementContaining(fields: seq<Field>, offset: nat): (i: nat)
    requires fields != [] && fields[0].offset == 0
    ensures i < |fields| && fields[i].offset <= offset && (i + 1 < |fields| ==> offset < fields[i + 1].offset)
  {
    ElementContainingUpTo(fields, offset, |fields|)
  }

  function ElementContainingUpTo(fields: seq<Field>, offset: nat, n: nat): (i: nat)
    requires 0 < n <= |fields| && fields[0].offset == 0
    ensures i < n && fields[i].offset <= offset && (i + 1 < n ==> offset < fields[i + 1].offset)
  {
    if n == 1 || fields[n - 1].offset <= offset then n - 1 else ElementContainingUpTo(fields, offset, n - 1)
  }

  /** The window that starts at byteOffset of field i holds the struct's bytes up to the next field. */
  lemma FieldHolds(little: bool, c: Const, i: nat, s: seq<nat>, cur: nat, left: nat, byteOffset: nat, n: nat)
    requires LaidOut(c) && c.Struct? && i < |c.fields| && n <= left
    requires Holds(s, cur, left, Bytes(little, c.fields[i].c), byteOffset)
    requires c.fields[i].offset + byteOffset + n <= NextOffset(c.size, c.fields, i) || i + 1 == |c.fields|
    ensures Holds(s, cur, n, Bytes(little, c), c.fields[i].offset + byteOffset)
  {
    hide Bytes;
    forall k | cur <= k < cur + n ensures s[k] == ByteAt(Bytes(little, c), c.fields[i].offset + byteOffset + (k - cur)) {
      var j := byteOffset + (k - cur);
      assert s[k] == ByteAt(Bytes(little, c.fields[i].c), j);
      if c.fields[i].offset + j < NextOffset(c.size, c.fields, i) {
        FieldBytes(little, c, i, j);
        assert c.fields[i].offset + j == c.fields[i].offset + byteOffset + (k - cur);
      } else {
        assert InPlace(c.size, c.fields, i);
      }
    }
  }

  /** Two adjacent windows. */
  lemma HoldsBoth(s: seq<nat>, cur: nat, n: nat, left: nat, image: seq<nat>, byteOffset: nat)
    requires Holds(s, cur, n, image, byteOffset) && n <= left && cur + left <= |s|
    requires Holds(s, cur + n, left - n, image, byteOffset + n)
    ensures Holds(s, cur, left, image, byteOffset)
  {
  }

  /** Beyond a field's own bytes the window is still clear. */
  lemma ClearAfter(little: bool, c: Const, i: nat, s: seq<nat>, cur: nat, left: nat, byteOffset: nat, stride: nat)
    requires LaidOut(c) && c.Struct? && i + 1 < |c.fields| && stride <= left
    requires Holds(s, cur, left, Bytes(little, c.fields[i].c), byteOffset)
    requires byteOffset + stride == c.fields[i + 1].offset - c.fields[i].offset
    ensures Cleared(s, cur + stride, left - stride)
  {
    assert InPlace(c.size, c.fields, i);
    forall k | cur + stride <= k < cur + left ensures s[k] == 0 {
      assert s[k] == ByteAt(Bytes(little, c.fields[i].c), byteOffset + (k - cur));
    }
  }

  /** What was held before a later window was written is still held. */
  lemma HeldStill(a: seq<nat>, b: seq<nat>, cur: nat, n: nat, image: seq<nat>, byteOffset: nat, left: nat)
    requires Holds(a, cur, n, image, byteOffset) && Kept(a, b, cur + n, left)
    ensures Holds(b, cur, n, image, byteOffset)
  {
    forall k | cur <= k < cur + n ensures b[k] == ByteAt(image, byteOffset + (k - cur)) {
      assert b[k] == a[k];
    }
  }

  lemma KeptTrans(a: seq<nat>, b: seq<nat>, c: seq<nat>, cur: nat, left: nat, d: nat)
    requires Kept(a, b, cur, left) && d <= left && Kept(b, c, cur + d, left - d)
    ensures Kept(a, c, cur, left)
  {
    forall k | 0 <= k < |a| && !(cur <= k < cur + left) ensures c[k] == a[k] {
      assert b[k] == a[k] && c[k] == b[k];
    }
  }

  method ReadStruct(little: bool, c: Const, byteOffset0: nat, buf: array<nat>, cur0: nat, left0: nat) returns (ok: bool)
    requires c.Struct? && LaidOut(c) && byteOffset0 <= Size(c) && cur0 + left0 <= buf.Length && Cleared(buf[..], cur0, left0)
    modifies buf
    ensures Kept(old(buf[..]), buf[..], cur0, left0)
    ensures ok ==> Holds(buf[..], cur0, left0, Bytes(little, c), byteOffset0)
    ensures left0 > 0 ==> (ok <==> KnownWindow(c, byteOffset0, left0))
    decreases c, 0
  {
    hide Bytes, Holds, Cleared, Kept, KnownWindow, FieldKnown, FieldsKnownTo;
    var index := ElementContaining(c.fields, byteOffset0);
    var byteOffset := byteOffset0 - c.fields[index].offset;
    var cur, left := cur0, left0;
    KeptSelf(buf[..], cur0, left0);
    HoldsNone(buf[..], cur0, Bytes(little, c), byteOffset0);
    FieldsBefore(c, index, byteOffset0, left0);
    while true
      invariant index < |c.fields| && 0 <= byteOffset && c.fields[index].offset + byteOffset == byteOffset0 + (cur - cur0)
      invariant index + 1 < |c.fields| ==> c.fields[index].offset + byteOffset <= c.fields[index + 1].offset
      invariant cur0 <= cur && 0 <= left && cur + left == cur0 + left0
      invariant Cleared(buf[..], cur, left) && Kept(old(buf[..]), buf[..], cur0, left0)
      invariant Holds(buf[..], cur0, cur - cur0, Bytes(little, c), byteOffset0)
      invariant FieldsKnownTo(c, index, byteOffset0, left0) && (byteOffset == 0 || cur == cur0) && (left0 > 0 ==> left > 0)
      decreases |c.fields| - index
    {
      var elt := c.fields[index].c;
      var curEltOffset := c.fields[index].offset;
      ghost var before := buf[..];
      FieldFrom(c, index, byteOffset0, left0, byteOffset, left);
      if byteOffset < Size(elt) {
        var read := ReadDataFromGlobal(little, elt, byteOffset, buf, cur, left);
        KeptTrans(old(buf[..]), before, buf[..], cur0, left0, cur - cur0);
        if !read {
          if left0 > 0 { FieldUnknown(c, index, byteOffset0, left0); }
          return false;
        }
        if left0 == 0 { FieldNone(c, index, byteOffset0); }
      } else {
        PastEnd(buf[..], cur, left, Bytes(little, elt), byteOffset);
        KeptSelf(buf[..], cur, left);
      }
      assert Holds(buf[..], cur, left, Bytes(little, elt), byteOffset);
      HeldStill(before, buf[..], cur0, cur - cur0, Bytes(little, c), byteOffset0, left);
      OneMoreField(c, index, byteOffset0, left0);
      index := index + 1;
      if index == |c.fields| {
        FieldsDone(c, index, byteOffset0, left0);
        FieldHolds(little, c, index - 1, buf[..], cur, left, byteOffset, left);
        HoldsBoth(buf[..], cur0, cur - cur0, left0, Bytes(little, c), byteOffset0);
        return true;
      }
      var nextEltOffset := c.fields[index].offset;
      var stride := nextEltOffset - curEltOffset - byteOffset;
      if left <= stride {
        FieldsDone(c, index, byteOffset0, left0);
        FieldHolds(little, c, index - 1, buf[..], cur, left, byteOffset, left);
        HoldsBoth(buf[..], cur0, cur - cur0, left0, Bytes(little, c), byteOffset0);
        return true;
      }
      FieldHolds(little, c, index - 1, buf[..], cur, left, byteOffset, stride);
      HoldsBoth(buf[..], cur0, cur - cur0, cur - cur0 + stride, Bytes(little, c), byteOffset0);
      ClearAfter(little, c, index - 1, buf[..], cur, left, byteOffset, stride);
      cur := cur + stride;
      left := left - stride;
      byteOffset := 0;
      assert InPlace(c.size, c.fields, index);
    }
  }

  lemma FieldNone(c: Const, i: nat, lo: nat)
    requires c.Struct? && i < |c.fields|
    ensures FieldKnown(c, i, lo, 0)
  {
  }

  lemma OneMoreField(c: Const, i: nat, lo: nat, n: nat)
    requires c.Struct? && i < |c.fields| && FieldsKnownTo(c, i, lo, n) && FieldKnown(c, i, lo, n)
    ensures FieldsKnownTo(c, i + 1, lo, n)
  {
    hide FieldKnown;
    forall k: nat | k < i + 1 ensures FieldKnown(c, k, lo, n) { var f := c.fields[k]; }
  }

  lemma KeptSelf(a: seq<nat>, cur: nat, left: nat)
    ensures Kept(a, a, cur, left)
  {
  }

  lemma HoldsNone(a: seq<nat>, cur: nat, image: seq<nat>, byteOffset: nat)
    requires cur <= |a|
    ensures Holds(a, cur, 0, image, byteOffset)
  {
  }

  // ----- Arrays -----

  lemma ElementHolds(little: bool, c: Const, i: nat, s: seq<nat>, cur: nat, left: nat, offset: nat, n: nat)
    requires LaidOut(c) && c.Array? && i < |c.elts| && n <= left && offset + n <= c.eltSize
    requires Holds(s, cur, left, Bytes(little, c.elts[i]), offset)
    ensures Holds(s, cur, n, Bytes(little, c), ElementStart(c, i) + offset)
    ensures offset + n == c.eltSize ==> Cleared(s, cur + n, left - n)
  {
    hide Bytes;
    forall k | cur <= k < cur + n ensures s[k] == ByteAt(Bytes(little, c), ElementStart(c, i) + offset + (k - cur)) {
      assert s[k] == ByteAt(Bytes(little, c.elts[i]), offset + (k - cur));
      ElementBytes(little, c, i, offset + (k - cur));
    }
    if offset + n == c.eltSize {
      forall k | cur + n <= k < cur + left ensures s[k] == 0 {
        assert s[k] == ByteAt(Bytes(little, c.elts[i]), offset + (k - cur));
      }
    }
  }

  lemma ElementFacts(c: Const, i: nat)
    requires LaidOut(c) && c.Array? && i < |c.elts|
    ensures LaidOut(c.elts[i]) && Size(c.elts[i]) == c.eltSize
    ensures ElementStart(c, i + 1) == ElementStart(c, i) + c.eltSize
  {
    MulSum(c.eltSize, i, 1);
  }

  lemma ArrayFacts(little: bool, c: Const)
    requires LaidOut(c) && c.Array?
    ensures c.eltSize > 0 && |Bytes(little, c)| == Size(c) == ElementStart(c, |c.elts|)
  {
  }

  method ReadArray(little: bool, c: Const, byteOffset: nat, buf: array<nat>, cur0: nat, left0: nat) returns (ok: bool)
    requires c.Array? && LaidOut(c) && byteOffset <= Size(c)
    requires cur0 + left0 <= buf.Length && Cleared(buf[..], cur0, left0)
    modifies buf
    ensures Kept(old(buf[..]), buf[..], cur0, left0)
    ensures ok ==> Holds(buf[..], cur0, left0, Bytes(little, c), byteOffset)
    ensures left0 > 0 ==> (ok <==> KnownWindow(c, byteOffset, left0))
    decreases c, 0
  {
    hide Bytes, Holds, Cleared, Kept, LaidOut, Size, ByteAt, ElementStart, KnownWindow, ElementKnown, ElementsKnownTo;
    ArrayFacts(little, c);
    var index := byteOffset / c.eltSize;
    IndexFits(c, byteOffset);
    var offset := byteOffset - ElementStart(c, index);
    var cur, left := cur0, left0;
    KeptSelf(buf[..], cur0, left0);
    HoldsNone(buf[..], cur0, Bytes(little, c), byteOffset);
    ElementsBefore(c, index, byteOffset, left0);
    while index != |c.elts|
      invariant index <= |c.elts| && ElementStart(c, index) + offset == byteOffset + (cur - cur0)
      invariant 0 <= offset < c.eltSize && (index == |c.elts| ==> offset == 0)
      invariant cur0 <= cur && 0 <= left && cur + left == cur0 + left0
      invariant Cleared(buf[..], cur, left) && Kept(old(buf[..]), buf[..], cur0, left0)
      invariant Holds(buf[..], cur0, cur - cur0, Bytes(little, c), byteOffset)
      invariant left0 > 0 ==> ElementsKnownTo(c, index, byteOffset, left0) && left > 0
      invariant offset == 0 || cur == cur0
      decreases |c.elts| - index
    {
      ghost var before := buf[..];
      ElementFacts(c, index);
      ElementFrom(c, index, byteOffset, left0, offset, left);
      var read := ReadDataFromGlobal(little, c.elts[index], offset, buf, cur, left);
      KeptTrans(old(buf[..]), before, buf[..], cur0, left0, cur - cur0);
      if !read {
        if left0 > 0 { ElementUnknown(c, index, byteOffset, left0); }
        return false;
      }
      if left0 > 0 { OneMoreElement(c, index, byteOffset, left0); }
      HeldStill(before, buf[..], cur0, cur - cur0, Bytes(little, c), byteOffset, left);
      var bytesWritten := c.eltSize - offset;
      if bytesWritten >= left {
        if left0 > 0 { ElementsDone(c, index + 1, byteOffset, left0); }
        ElementHolds(little, c, index, buf[..], cur, left, offset, left);
        HoldsBoth(buf[..], cur0, cur - cur0, left0, Bytes(little, c), byteOffset);
        return true;
      }
      ElementHolds(little, c, index, buf[..], cur, left, offset, bytesWritten);
      HoldsBoth(buf[..], cur0, cur - cur0, cur - cur0 + bytesWritten, Bytes(little, c), byteOffset);
      offset := 0;
      left := left - bytesWritten;
      cur := cur + bytesWritten;
      index := index + 1;
    }
    if left0 > 0 { ElementsDone(c, index, byteOffset, left0); }
    PastEnd(buf[..], cur, left, Bytes(little, c), ElementStart(c, index));
    HoldsBoth(buf[..], cur0, cur - cur0, left0, Bytes(little, c), byteOffset);
    ok := true;
  }

  lemma OneMoreElement(c: Const, i: nat, lo: nat, n: nat)
    requires c.Array? && i < |c.elts| && ElementsKnownTo(c, i, lo, n) && ElementKnown(c, i, lo, n)
    ensures ElementsKnownTo(c, i + 1, lo, n)
  {
    hide ElementKnown;
    forall k: nat | k < i + 1 ensures ElementKnown(c, k, lo, n) { var e := c.elts[k]; }
  }

  lemma IndexFits(c: Const, byteOffset: nat)
    requires c.Array? && c.eltSize > 0 && byteOffset <= ElementStart(c, |c.elts|)
    ensures var i := byteOffset / c.eltSize;
            i <= |c.elts| && ElementStart(c, i) <= byteOffset < ElementStart(c, i) + c.eltSize
            && (i == |c.elts| ==> byteOffset == ElementStart(c, i))
  {
    var i := byteOffset / c.eltSize;
    assert byteOffset == c.eltSize * i + byteOffset % c.eltSize;
  }

  lemma SimplyKnown(c: Const, lo: nat, n: nat)
    ensures c.Zero? || c.Undef? || c.Int? ==> KnownWindow(c, lo, n)
    ensures c.IntToPtr? ==> (KnownWindow(c, lo, n) <==> KnownWindow(c.c, lo, n))
    ensures c.Unknown? && lo < c.size && n > 0 ==> !KnownWindow(c, lo, n)
  {
    if c.IntToPtr? {
      forall k: nat | lo <= k < lo + n ensures KnownByte(c, k) <==> KnownByte(c.c, k) {
      }
    }
    if c.Unknown? { assert !KnownByte(c, lo) || lo >= c.size; }
  }

  // ----- The reader -----

  /** Copy the bytes of c from byteOffset on into a cleared window of the buffer. */
  method ReadDataFromGlobal(little: bool, c: Const, byteOffset: nat, buf: array<nat>, cur: nat, left: nat) returns (ok: bool)
    requires LaidOut(c) && byteOffset <= Size(c) && cur + left <= buf.Length && Cleared(buf[..], cur, left)
    modifies buf
    ensures Kept(old(buf[..]), buf[..], cur, left)
    ensures ok ==> Holds(buf[..], cur, left, Bytes(little, c), byteOffset)
    ensures left > 0 && byteOffset < Size(c) ==> (ok <==> KnownWindow(c, byteOffset, left))
    decreases c, 1
  {
    hide Cleared, Holds, Kept, KnownWindow;
    SimplyKnown(c, byteOffset, left);
    match c
    case Zero(n) =>
      KeptSelf(buf[..], cur, left);
      ZeroHolds(buf[..], cur, left, n, byteOffset);
      ok := true;
    case Undef(n) =>
      KeptSelf(buf[..], cur, left);
      ZeroHolds(buf[..], cur, left, n, byteOffset);
      ok := true;
    case Int(_, _) =>
      ReadInt(little, c, byteOffset, buf, cur, left);
      ok := true;
    case Struct(_, _) =>
      ok := ReadStruct(little, c, byteOffset, buf, cur, left);
    case Array(_, _) =>
      ok := ReadArray(little, c, byteOffset, buf, cur, left);
    case IntToPtr(d) =>
      ok := ReadDataFromGlobal(little, d, byteOffset, buf, cur, left);
    case Unknown(_) =>
      KeptSelf(buf[..], cur, left);
      ok := false;
  }
}
