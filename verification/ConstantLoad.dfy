/** Folding a load of an integer from the bytes of a constant global. */
module ConstantLoad {
  import opened ConstantRange
  import opened Words
  import opened BitCasts
  import opened ConstantMemory
  import opened ConstantReader
  import opened ConstantKnown

  const MAX_BYTES := 32

  datatype Loaded = NotFolded | UndefValue | Value(x: nat)

  /** n bytes of an image, zero past its end. */
  function Window(image: seq<nat>, offset: nat, n: nat): (s: seq<nat>)
    ensures |s| == n && forall k {:trigger s[k]} :: 0 <= k < n ==> s[k] == ByteAt(image, offset + k)
  {
    seq<nat>(n, k requires 0 <= k < n => ByteAt(image, offset + k))
  }

  function BytesOf(width: nat): nat { (width + 7) / 8 }

  // ----- Assembling the bytes -----

  /** The bytes that have been shifted in after n steps. */
  function Taken(little: bool, raw: seq<nat>, n: nat): seq<nat>
    requires n <= |raw|
  {
    if little then raw[|raw| - n..] else raw[..n]
  }

  function NextByte(little: bool, raw: seq<nat>, n: nat): nat
    requires n < |raw|
  {
    if little then raw[|raw| - 1 - n] else raw[n]
  }

  lemma TakenGrows(little: bool, raw: seq<nat>, n: nat)
    requires n < |raw|
    ensures Image(little, 8, Taken(little, raw, n + 1)) == Image(little, 8, Taken(little, raw, n)) * 256 + NextByte(little, raw, n)
  {
    hide Pow2, Base, Image;
    Byte();
    var t, x := Taken(little, raw, n), NextByte(little, raw, n);
    One(little, 8, x);
    if little {
      assert Taken(little, raw, n + 1) == [x] + t;
      ImageConcat(true, 8, [x], t);
      Commute(256, Image(true, 8, t));
    } else {
      assert Taken(little, raw, n + 1) == t + [x];
      ImageConcat(false, 8, t, [x]);
    }
  }

  lemma Byte()
    ensures Base(8, 1) == 256 == Pow2(8)
  {
    assert Pow2(8) == 256 by { Pow8(); }
    BaseOne(8);
  }

  lemma ByteAndRest(y: nat, p: nat, b: nat)
    requires p > 0 && b < 256
    ensures (y * 256 + b) % (256 * p) == b + (y % p) * 256
  {
    ModProduct(y * 256 + b, 256, p);
    DivModUnique(y * 256 + b, y, b, 256);
    Commute(256, y % p);
  }

  lemma WidthSplit(width: nat)
    requires width >= 8
    ensures Pow2(width) == 256 * Pow2(width - 8)
  {
    hide Pow2;
    Byte();
    Pow2Sum(8, width - 8);
  }

  lemma InsertBelow(y: nat, p: nat, b: nat)
    requires p > 0 && b < 256
    ensures BitOr((y * 256) % (256 * p), b) == (y * 256 + b) % (256 * p)
  {
    hide Pow2, BitOr;
    Byte();
    ByteAndRest(y, p, 0);
    ByteAndRest(y, p, b);
    OrDisjoint(b, y % p, 8);
  }

  /** Shifting a byte into a number of width bits. */
  lemma InsertByte(y: nat, width: nat, b: nat)
    requires width >= 8 && b < 256
    ensures BitOr((y * 256) % Pow2(width), b) == (y * 256 + b) % Pow2(width)
  {
    hide Pow2, BitOr;
    WidthSplit(width);
    InsertBelow(y, Pow2(width - 8), b);
  }

  /** Cutting to width bits may be done at the end. */
  lemma CutLater(x: nat, width: nat, b: nat)
    ensures ((x % Pow2(width)) * 256 + b) % Pow2(width) == (x * 256 + b) % Pow2(width)
  {
    hide Pow2;
    var m := Pow2(width);
    var q := x / m;
    assert x * 256 + b == ((x % m) * 256 + b) + (q * 256) * m by {
      assert x == q * m + x % m;
      Distribute(q * m, x % m, 256);
      Rearrange(q, m, 256);
    }
    WrapCongruent(x * 256 + b, (x % m) * 256 + b, q * 256, m);
  }

  /** The raw bytes become an integer of width bits, in the byte order of the target. */
  method Assemble(little: bool, raw: seq<nat>, width: nat) returns (x: nat)
    requires |raw| == BytesOf(width) > 0 && Elements(8, raw)
    ensures x == Image(little, 8, raw) % Pow2(width)
  {
    hide Pow2, Base, Image, BitOr, Elements;
    x := NextByte(little, raw, 0) % Pow2(width);
    FirstByte(little, raw);
    for i := 1 to |raw|
      invariant x == Image(little, 8, Taken(little, raw, i)) % Pow2(width)
    {
      ByteBound(little, raw, i);
      TakenGrows(little, raw, i);
      InsertByte(x, width, NextByte(little, raw, i));
      CutLater(Image(little, 8, Taken(little, raw, i)), width, NextByte(little, raw, i));
      x := BitOr((x * 256) % Pow2(width), NextByte(little, raw, i));
    }
    assert Taken(little, raw, |raw|) == raw;
  }

  lemma FirstByte(little: bool, raw: seq<nat>)
    requires raw != []
    ensures Image(little, 8, Taken(little, raw, 1)) == NextByte(little, raw, 0)
  {
    hide Image;
    assert Taken(little, raw, 1) == [NextByte(little, raw, 0)];
    One(little, 8, NextByte(little, raw, 0));
  }

  lemma ByteBound(little: bool, raw: seq<nat>, i: nat)
    requires Elements(8, raw) && i < |raw|
    ensures NextByte(little, raw, i) < 256
  {
    hide Pow2;
    Byte();
  }

  // ----- Every byte of an image is a byte -----

  lemma {:induction false} ImageBytes(little: bool, c: Const)
    requires LaidOut(c)
    ensures Elements(8, Bytes(little, c))
    decreases c, if c.Struct? then |c.fields| + 1 else if c.Array? then |c.elts| + 1 else 0
  {
    hide Pow2, Pieces;
    match c
    case Int(n, val) => PiecesElements(little, 8, n, val, n);
    case Struct(_, _) => FieldsBytes(little, c, 0);
    case Array(_, _) => ElementsBytes(little, c, 0);
    case IntToPtr(d) => ImageBytes(little, d);
    case _ =>
  }

  lemma {:induction false} FieldsBytes(little: bool, c: Const, i: nat)
    requires LaidOut(c) && c.Struct? && i <= |c.fields|
    ensures Elements(8, FieldsFrom(little, c, i))
    decreases c, |c.fields| - i
  {
    hide Pow2, Bytes;
    if i < |c.fields| {
      ImageBytes(little, c.fields[i].c);
      FieldsBytes(little, c, i + 1);
      assert InPlace(c.size, c.fields, i);
    }
  }

  lemma {:induction false} ElementsBytes(little: bool, c: Const, i: nat)
    requires LaidOut(c) && c.Array? && i <= |c.elts|
    ensures Elements(8, ElementsFrom(little, c, i))
    decreases c, |c.elts| - i
  {
    hide Pow2, Bytes;
    if i < |c.elts| {
      ImageBytes(little, c.elts[i]);
      ElementsBytes(little, c, i + 1);
    }
  }

  // ----- The load -----

  /** Load an integer of width bits at an offset into the initializer of a constant global. */
  method FoldReinterpretLoad(little: bool, init: Const, offset: int, width: nat) returns (r: Loaded)
    requires LaidOut(init)
    ensures r.Value? ==> offset >= 0 && r.x == Image(little, 8, Window(Bytes(little, init), offset, BytesOf(width))) % Pow2(width)
    ensures r.UndefValue? <==> 0 < BytesOf(width) <= MAX_BYTES && offset >= Size(init)
    ensures r.Value? <==> 0 < BytesOf(width) <= MAX_BYTES && 0 <= offset < Size(init) && KnownWindow(init, offset, BytesOf(width))
  {
    hide Pow2, Base, Image, Bytes, Size, Elements, KnownWindow;
    var bytesLoaded := BytesOf(width);
    if bytesLoaded > MAX_BYTES || bytesLoaded == 0 {
      return NotFolded;
    }
    if offset < 0 {
      return NotFolded;
    }
    if offset >= Size(init) {
      return UndefValue;
    }
    var rawBytes := new nat[MAX_BYTES](i => 0);
    var ok := ReadDataFromGlobal(little, init, offset, rawBytes, 0, bytesLoaded);
    if !ok {
      return NotFolded;
    }
    ImageBytes(little, init);
    ReadWindow(rawBytes[..], bytesLoaded, Bytes(little, init), offset);
    var x := Assemble(little, rawBytes[..bytesLoaded], width);
    assert rawBytes[..bytesLoaded] == rawBytes[..][..bytesLoaded];
    r := Value(x);
  }

  lemma ReadWindow(raw: seq<nat>, n: nat, image: seq<nat>, offset: nat)
    requires Holds(raw, 0, n, image, offset) && Elements(8, image)
    ensures raw[..n] == Window(image, offset, n) && Elements(8, raw[..n])
  {
    hide Pow2;
    var t := raw[..n];
    forall k | 0 <= k < n ensures t[k] == ByteAt(image, offset + k) && t[k] < Pow2(8) {
      assert raw[k] == ByteAt(image, offset + (k - 0));
    }
  }

  /** What an integer constant holds is what a load of its width gives, in either byte order. */
  lemma StoredIsLoaded(little: bool, n: nat, val: nat)
    requires 1 <= n <= 8 && val < Base(8, n)
    ensures Image(little, 8, Window(Bytes(little, Int(n, val)), 0, BytesOf(8 * n))) % Pow2(8 * n) == val
  {
    hide Pow2, Image, Pieces;
    assert BytesOf(8 * n) == n;
    var s := Bytes(little, Int(n, val));
    assert Window(s, 0, n) == s;
    assert s == Pieces(little, 8, n, val, n);
    PiecesWhole(little, 8, n, val);
    PlainBase(8, n);
    DivModUnique(val, 0, val, Base(8, n));
  }
}
