/** Reading the initializer of a constant global as raw bytes. */
module ConstantMemory {
  import opened ConstantRange
  import opened Words
  import opened BitCasts

  /** A constant in memory. Int has a width of 8 to 64 bits that is a power of two; Unknown is any constant the reader
      does not understand. */
  datatype Const =
    | Zero(size: nat)
    | Undef(size: nat)
    | Int(bytes: nat, val: nat)
    | Struct(size: nat, fields: seq<Field>)
    | Array(eltSize: nat, elts: seq<Const>)
    | IntToPtr(c: Const)
    | Unknown(size: nat)

  datatype Field = Field(offset: nat, c: Const)

  function Size(c: Const): nat {
    match c
    case Zero(n) => n
    case Undef(n) => n
    case Int(n, _) => n
    case Struct(n, _) => n
    case Array(n, elts) => n * |elts|
    case IntToPtr(d) => Size(d)
    case Unknown(n) => n
  }

  /** Where the field after field i starts, or where the struct ends. */
  function NextOffset(size: nat, fields: seq<Field>, i: nat): nat
    requires i < |fields|
  {
    if i + 1 < |fields| then fields[i + 1].offset else size
  }

  predicate InPlace(size: nat, fields: seq<Field>, i: nat)
    requires i < |fields|
  {
    0 < Size(fields[i].c) && fields[i].offset + Size(fields[i].c) <= NextOffset(size, fields, i)
  }

  /** As the target lays it out: fields in order and not empty, elements of one size. */
  ghost predicate LaidOut(c: Const) {
    match c
    case Zero(_) => true
    case Undef(_) => true
    case Int(n, val) => 1 <= n <= 8 && val < Base(8, n)
    case Struct(size, fields) =>
      fields != [] && fields[0].offset == 0
      && (forall i {:trigger InPlace(size, fields, i)} :: 0 <= i < |fields| ==> InPlace(size, fields, i))
      && forall i {:trigger fields[i]} :: 0 <= i < |fields| ==> LaidOut(fields[i].c)
    case Array(n, elts) =>
      0 < n && forall i {:trigger elts[i]} :: 0 <= i < |elts| ==> LaidOut(elts[i]) && Size(elts[i]) == n
    case IntToPtr(d) => LaidOut(d)
    case Unknown(_) => true
  }

  function Zeros(n: nat): (s: seq<nat>)
    ensures |s| == n && forall i :: 0 <= i < n ==> s[i] == 0
  {
    seq(n, i => 0)
  }

  /** The memory image. Padding and undefined bytes are zero. */
  ghost function Bytes(little: bool, c: Const): (s: seq<nat>)
    requires LaidOut(c)
    ensures |s| == Size(c)
    decreases c, if c.Struct? then |c.fields| + 1 else if c.Array? then |c.elts| + 1 else 0
  {
    match c
    case Zero(n) => Zeros(n)
    case Undef(n) => Zeros(n)
    case Int(n, val) => Pieces(little, 8, n, val, n)
    case Struct(_, _) => FieldsFrom(little, c, 0)
    case Array(_, _) => ElementsFrom(little, c, 0)
    case IntToPtr(d) => Bytes(little, d)
    case Unknown(n) => Zeros(n)
  }

  ghost function FieldsFrom(little: bool, c: Const, i: nat): (s: seq<nat>)
    requires LaidOut(c) && c.Struct? && i <= |c.fields|
    ensures |s| == if i < |c.fields| then c.size - c.fields[i].offset else 0
    decreases c, |c.fields| - i
  {
    if i == |c.fields| then []
    else
      assert InPlace(c.size, c.fields, i);
      assert i + 1 < |c.fields| ==> InPlace(c.size, c.fields, i + 1);
      var f := c.fields[i];
      Bytes(little, f.c) + Zeros(NextOffset(c.size, c.fields, i) - f.offset - Size(f.c)) + FieldsFrom(little, c, i + 1)
  }

  ghost function ElementsFrom(little: bool, c: Const, i: nat): (s: seq<nat>)
    requires LaidOut(c) && c.Array? && i <= |c.elts|
    ensures |s| == c.eltSize * (|c.elts| - i)
    decreases c, |c.elts| - i
  {
    if i == |c.elts| then []
    else
      (MulSum(c.eltSize, |c.elts| - i, -1);
       Bytes(little, c.elts[i]) + ElementsFrom(little, c, i + 1))
  }

  /** Byte n, or zero past the end. */
  function ByteAt(s: seq<nat>, n: nat): nat { if n < |s| then s[n] else 0 }

  // ----- Fields and elements in the image -----

  lemma StructBytes(little: bool, c: Const)
    requires LaidOut(c) && c.Struct?
    ensures Bytes(little, c) == FieldsFrom(little, c, 0) && c.fields != [] && c.fields[0].offset == 0
  {
    hide FieldsFrom;
  }

  lemma InPlaceAt(c: Const, i: nat)
    requires LaidOut(c) && c.Struct? && i < |c.fields|
    ensures InPlace(c.size, c.fields, i) && LaidOut(c.fields[i].c)
  {
  }

  lemma DropTwice(s: seq<nat>, a: nat, d: nat, t: seq<nat>)
    requires a + d <= |s| && s[a..] == t
    ensures s[a + d..] == t[d..]
  {
  }

  lemma {:induction false} FieldsSuffix(little: bool, c: Const, i: nat)
    requires LaidOut(c) && c.Struct? && i < |c.fields|
    ensures c.fields[i].offset <= c.size && Bytes(little, c)[c.fields[i].offset..] == FieldsFrom(little, c, i)
    decreases i
  {
    hide Bytes, FieldsFrom, LaidOut;
    StructBytes(little, c);
    InPlaceAt(c, i);
    if i == 0 {
      assert Bytes(little, c)[0..] == Bytes(little, c);
    } else {
      FieldsSuffix(little, c, i - 1);
      InPlaceAt(c, i - 1);
      var d := c.fields[i].offset - c.fields[i - 1].offset;
      FieldsStep(little, c, i - 1);
      DropTwice(Bytes(little, c), c.fields[i - 1].offset, d, FieldsFrom(little, c, i - 1));
    }
  }

  /** From field i on: its bytes, padding, then the next field. */
  lemma FieldsStep(little: bool, c: Const, i: nat)
    requires LaidOut(c) && c.Struct? && i < |c.fields|
    ensures var d := NextOffset(c.size, c.fields, i) - c.fields[i].offset; var s := FieldsFrom(little, c, i);
            && 0 <= d <= |s| && s[d..] == FieldsFrom(little, c, i + 1)
            && forall k {:trigger ByteAt(s, k)} :: 0 <= k < d ==> ByteAt(s, k) == ByteAt(Bytes(little, c.fields[i].c), k)
  {
    assert InPlace(c.size, c.fields, i);
    assert i + 1 < |c.fields| ==> InPlace(c.size, c.fields, i + 1);
    var f := c.fields[i];
    var a, z, r := Bytes(little, f.c), Zeros(NextOffset(c.size, c.fields, i) - f.offset - Size(f.c)), FieldsFrom(little, c, i + 1);
    assert FieldsFrom(little, c, i) == a + z + r;
    assert (a + z + r)[|a| + |z|..] == r;
  }

  /** The bytes of field i up to the next field. */
  lemma FieldBytes(little: bool, c: Const, i: nat, k: nat)
    requires LaidOut(c) && c.Struct? && i < |c.fields| && c.fields[i].offset + k < NextOffset(c.size, c.fields, i)
    ensures ByteAt(Bytes(little, c), c.fields[i].offset + k) == ByteAt(Bytes(little, c.fields[i].c), k)
  {
    hide Bytes;
    FieldsSuffix(little, c, i);
    FieldsStep(little, c, i);
    var s := FieldsFrom(little, c, i);
    assert ByteAt(s, k) == ByteAt(Bytes(little, c.fields[i].c), k);
    assert s[k] == Bytes(little, c)[c.fields[i].offset..][k];
  }

  lemma {:induction false} ElementsSuffix(little: bool, c: Const, i: nat)
    requires LaidOut(c) && c.Array? && i <= |c.elts|
    ensures 0 <= c.eltSize * i <= Size(c) && Bytes(little, c)[c.eltSize * i..] == ElementsFrom(little, c, i)
    decreases i
  {
    MulMono(c.eltSize, i, c.eltSize, |c.elts|);
    if i == 0 {
      assert c.eltSize * 0 == 0;
      assert Bytes(little, c)[0..] == ElementsFrom(little, c, 0);
    } else {
      ElementsSuffix(little, c, i - 1);
      MulSum(c.eltSize, i, -1);
      var a, r := Bytes(little, c.elts[i - 1]), ElementsFrom(little, c, i);
      assert ElementsFrom(little, c, i - 1) == a + r;
      assert Bytes(little, c)[c.eltSize * i..] == Bytes(little, c)[c.eltSize * (i - 1)..][c.eltSize..];
      assert (a + r)[|a|..] == r;
    }
  }

  /** Where element i of an array starts. */
  function ElementStart(c: Const, i: nat): nat
    requires c.Array?
  {
    c.eltSize * i
  }

  lemma ElementBytes(little: bool, c: Const, i: nat, k: nat)
    requires LaidOut(c) && c.Array? && i < |c.elts| && k < c.eltSize
    ensures ByteAt(Bytes(little, c), ElementStart(c, i) + k) == ByteAt(Bytes(little, c.elts[i]), k)
  {
    ElementsSuffix(little, c, i);
    hide Bytes;
    var a, r := Bytes(little, c.elts[i]), ElementsFrom(little, c, i + 1);
    assert ElementsFrom(little, c, i) == a + r;
    assert (a + r)[k] == Bytes(little, c)[c.eltSize * i..][k];
  }
}
