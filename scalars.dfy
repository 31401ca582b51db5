/**
 What the scalar encodings mean: every integer format read back gives the number
 written, the integer format chosen is the smallest one that holds the number, the
 float path is taken exactly where the encoder leaves the integer formats, and every
 length header reads back as the length it was written for.
 */
module ScalarFormats {
  import opened Bytes
  import opened Values
  import opened Format
  import opened Reader

  /** The integer range the MessagePack int formats of a given total size can hold. */
  predicate Holds(size: nat, n: int) {
    if size == 1 then -0x20 <= n < 0x80                         // negative / positive fixint
    else if size == 2 then -0x80 <= n < 0x100                   // int 8 / uint 8
    else if size == 3 then -0x8000 <= n < 0x1_0000              // int 16 / uint 16
    else if size == 5 then -0x8000_0000 <= n < UINT32_LIMIT     // int 32 / uint 32
    else if size == 9 then -0x8000_0000_0000_0000 <= n < 0x1_0000_0000_0000_0000   // int 64 / uint 64
    else false
  }

  /** Whether encodeNumber takes an integer format for x. */
  predicate IntegerPath(o: Options, x: JsNumber) {
    !o.forceIntegerToFloat && IsSafeInteger(x)
    && (!o.useBigInt64 || -0x8000_0000 <= x.n < UINT32_LIMIT)
  }

  /** The payload right after a one-byte tag, whatever follows the object. */
  lemma PayloadAfterTag(t: byte, p: seq<byte>, rest: seq<byte>)
    ensures ([t] + p + rest)[0] == t
    ensures ([t] + p + rest)[1..|p| + 1] == p
  {
    assert ([t] + p + rest)[1..|p| + 1] == ([t] + p)[1..];
  }

  lemma UnsignedField(t: byte, n: int, w: nat, rest: seq<byte>)
    requires 0 <= n < Pow256(w)
    ensures ([t] + BigEndian(n, w) + rest)[0] == t
    ensures FromBigEndian(([t] + BigEndian(n, w) + rest)[1..w + 1]) == n
  {
    PayloadAfterTag(t, BigEndian(n, w), rest);
    UnsignedRoundTrip(n, w);
  }

  /** uint 8/16/32/64 read back. */
  lemma UnsignedIntRoundTrip(t: byte, n: int, w: nat, rest: seq<byte>)
    requires 0xcc <= t <= 0xcf && IntTagWidth(t) == w && 0 <= n < Pow256(w)
    ensures ReadInt([t] + BigEndian(n, w) + rest) == Some((n, w + 1))
  {
    UnsignedField(t, n, w, rest);
  }

  /** int 8/16/32/64 read back. */
  lemma SignedIntRoundTrip(t: byte, n: int, w: nat, rest: seq<byte>)
    requires 0xd0 <= t <= 0xd3 && IntTagWidth(t) == w && -(Pow256(w) as int) <= 2 * n < Pow256(w)
    ensures ReadInt([t] + BigEndian(n, w) + rest) == Some((n, w + 1))
  {
    PayloadAfterTag(t, BigEndian(n, w), rest);
    SignedRoundTrip(n, w);
  }

  /** Reading back any integer format encodeNumber writes gives the number and the object's size. */
  lemma IntegerRoundTrip(o: Options, x: JsNumber, rest: seq<byte>)
    requires IntegerPath(o, x)
    ensures ReadInt(NumberBytes(o, x) + rest) == Some((x.n, |NumberBytes(o, x)|))
  {
    if x.n >= 0 {
      NonNegativeRoundTrip(o, x, rest);
    } else {
      NegativeRoundTrip(o, x, rest);
    }
  }

  lemma NegativeRoundTrip(o: Options, x: JsNumber, rest: seq<byte>)
    requires IntegerPath(o, x) && x.n < 0
    ensures ReadInt(NumberBytes(o, x) + rest) == Some((x.n, |NumberBytes(o, x)|))
  {
    var n := x.n;
    if n >= -0x20 {
      assert NumberBytes(o, x) == [NegativeFixint(n)];
      NegativeFixintRoundTrip(n, rest);
    } else if n >= -0x80 {
      assert NumberBytes(o, x) == [0xd0] + BigEndian(n, 1);
      SignedIntRoundTrip(0xd0, n, 1, rest);
    } else if n >= -0x8000 {
      assert NumberBytes(o, x) == [0xd1] + BigEndian(n, 2);
      SignedIntRoundTrip(0xd1, n, 2, rest);
    } else if n >= -0x8000_0000 {
      assert NumberBytes(o, x) == [0xd2] + BigEndian(n, 4);
      SignedIntRoundTrip(0xd2, n, 4, rest);
    } else {
      assert NumberBytes(o, x) == [0xd3] + BigEndian(n, 8);
      SignedIntRoundTrip(0xd3, n, 8, rest);
    }
  }

  /** A negative fixint reads back as the number: its byte is n + 0x100. */
  lemma NegativeFixintRoundTrip(n: int, rest: seq<byte>)
    requires -0x20 <= n < 0
    ensures ReadInt([NegativeFixint(n)] + rest) == Some((n, 1))
  {
    var t := NegativeFixint(n);
    assert ([t] + rest)[0] == t;
  }

  lemma NonNegativeRoundTrip(o: Options, x: JsNumber, rest: seq<byte>)
    requires IntegerPath(o, x) && x.n >= 0
    ensures ReadInt(NumberBytes(o, x) + rest) == Some((x.n, |NumberBytes(o, x)|))
  {
    var n := x.n;
    if n < 0x80 {
      assert NumberBytes(o, x) == [U8(n)];
    } else if n < 0x100 {
      assert NumberBytes(o, x) == [0xcc] + BigEndian(n, 1);
      UnsignedIntRoundTrip(0xcc, n, 1, rest);
    } else if n < 0x1_0000 {
      assert NumberBytes(o, x) == [0xcd] + BigEndian(n, 2);
      UnsignedIntRoundTrip(0xcd, n, 2, rest);
    } else if n < UINT32_LIMIT {
      assert NumberBytes(o, x) == [0xce] + BigEndian(n, 4);
      UnsignedIntRoundTrip(0xce, n, 4, rest);
    } else {
      assert NumberBytes(o, x) == [0xcf] + BigEndian(n, 8);
      UnsignedIntRoundTrip(0xcf, n, 8, rest);
    }
  }

  /**
   The integer format encodeNumber picks is the smallest that holds the number: its
   size holds n, and no smaller int format does.
   */
  lemma SmallestIntegerFormat(o: Options, x: JsNumber)
    requires IntegerPath(o, x)
    ensures |NumberBytes(o, x)| in {1, 2, 3, 5, 9}
    ensures Holds(|NumberBytes(o, x)|, x.n)
    ensures forall s :: s in {1, 2, 3, 5, 9} && s < |NumberBytes(o, x)| ==> !Holds(s, x.n)
  {
  }

  /**
   Numbers leave the integer formats exactly when forceIntegerToFloat is set, when
   they are not safe integers, or, with useBigInt64, when they need 64 bits: they are
   then float 32 (5 bytes) under forceFloat32 and float 64 (9 bytes) otherwise.
   */
  lemma FloatPath(o: Options, x: JsNumber)
    requires !IntegerPath(o, x)
    ensures JsNumberBytes(o, x) == FloatBytes(o, x)
    ensures |JsNumberBytes(o, x)| == (if o.forceFloat32 then 5 else 9)
    ensures JsNumberBytes(o, x)[0] == (if o.forceFloat32 then 0xca else 0xcb)
  {
  }

  /** Wide safe integers without useBigInt64 take uint 64 or int 64. */
  lemma WideIntegers(o: Options, x: JsNumber)
    requires !o.forceIntegerToFloat && IsSafeInteger(x) && !o.useBigInt64
    requires !(-0x8000_0000 <= x.n < UINT32_LIMIT)
    ensures |NumberBytes(o, x)| == 9
    ensures NumberBytes(o, x)[0] == (if x.n >= 0 then 0xcf else 0xd3)
  {
  }

  /** A header whose first byte is a fix form of family f holds the count in its low bits. */
  lemma FixLength(f: Family, n: nat, rest: seq<byte>)
    requires 0 <= f.fixBase && n < f.fixCount && f.fixBase + f.fixCount <= 0x100
    ensures ReadLength(f, [(f.fixBase + n) as byte] + rest) == Some((n, 1))
  {
  }

  /** A header whose first byte is one of family f's sized tags holds the w-byte count after it. */
  lemma SizedLength(f: Family, t: byte, w: nat, n: nat, rest: seq<byte>)
    requires !(f.fixBase <= t as int < f.fixBase + f.fixCount)
    requires (w == 1 && t as int == f.tag8)
      || (w == 2 && t as int == f.tag16 && t as int != f.tag8)
      || (w == 4 && t as int == f.tag32 && t as int != f.tag8 && t as int != f.tag16)
    requires n < Pow256(w)
    ensures ReadLength(f, [t] + BigEndian(n, w) + rest) == Some((n, w + 1))
  {
    UnsignedField(t, n, w, rest);
  }

  /** writeStringHeader, read back: the header holds the UTF-8 byte length. */
  lemma StringHeaderRoundTrip(n: nat, rest: seq<byte>)
    requires n < UINT32_LIMIT
    ensures StringHeader(n).Ok?
    ensures ReadLength(StrFamily, StringHeader(n).value + rest) == Some((n, |StringHeader(n).value|))
  {
    if n < 32 {
      assert StringHeader(n).value == [(0xa0 + n) as byte];
      FixLength(StrFamily, n, rest);
    } else if n < 0x100 {
      assert StringHeader(n).value == [0xd9] + BigEndian(n, 1);
      SizedLength(StrFamily, 0xd9, 1, n, rest);
    } else if n < 0x1_0000 {
      SizedLength(StrFamily, 0xda, 2, n, rest);
    } else {
      SizedLength(StrFamily, 0xdb, 4, n, rest);
    }
  }

  /** The header of encodeBinary, read back: it holds the byte count. */
  lemma BinaryHeaderRoundTrip(n: nat, rest: seq<byte>)
    requires n < UINT32_LIMIT
    ensures BinaryHeader(n).Ok?
    ensures ReadLength(BinFamily, BinaryHeader(n).value + rest) == Some((n, |BinaryHeader(n).value|))
  {
    if n < 0x100 {
      assert BinaryHeader(n).value == [0xc4] + BigEndian(n, 1);
      SizedLength(BinFamily, 0xc4, 1, n, rest);
    } else if n < 0x1_0000 {
      SizedLength(BinFamily, 0xc5, 2, n, rest);
    } else {
      SizedLength(BinFamily, 0xc6, 4, n, rest);
    }
  }

  /** The header of encodeArray, read back: it holds the item count, not counting the slot. */
  lemma ArrayHeaderRoundTrip(n: nat, rest: seq<byte>)
    requires n < UINT32_LIMIT
    ensures ArrayHeader(n).Ok?
    ensures ReadLength(ArrayFamily, ArrayHeader(n).value + rest) == Some((n, |ArrayHeader(n).value|))
  {
    if n < 16 {
      assert ArrayHeader(n).value == [(0x90 + n) as byte];
      FixLength(ArrayFamily, n, rest);
    } else if n < 0x1_0000 {
      SizedLength(ArrayFamily, 0xdc, 2, n, rest);
    } else {
      SizedLength(ArrayFamily, 0xdd, 4, n, rest);
    }
  }

  /** The header of encodeMap, read back: it holds the pair count, not counting the slot. */
  lemma MapHeaderRoundTrip(n: nat, rest: seq<byte>)
    requires n < UINT32_LIMIT
    ensures MapHeader(n).Ok?
    ensures ReadLength(MapFamily, MapHeader(n).value + rest) == Some((n, |MapHeader(n).value|))
  {
    if n < 16 {
      assert MapHeader(n).value == [(0x80 + n) as byte];
      FixLength(MapFamily, n, rest);
    } else if n < 0x1_0000 {
      SizedLength(MapFamily, 0xde, 2, n, rest);
    } else {
      SizedLength(MapFamily, 0xdf, 4, n, rest);
    }
  }
}
