/**
 A reader for the MessagePack families the encoder emits, written from the format
 tables of the MessagePack specification. It is not a model of the repository's
 decoder: it is the yardstick the encoder's output is measured against. `ReadInt`
 and the length readers recover what a header holds; `ReadHead` tells how many bytes
 one object's header and payload take and how many objects follow it; `Skip` walks
 a run of objects. In this repository's dialect an array of n items is followed by
 n + 1 objects (the object-type slot, then the items) and a map of n pairs by
 2n + 1 (the slot, then key, value, key, value, ...).
 */
module Reader {
  import opened Bytes
  import opened Values

  /** The payload width of the uint 8/16/32/64 tags (0xcc-0xcf) and int 8/16/32/64 tags (0xd0-0xd3); 0 for any other byte. */
  function IntTagWidth(t: byte): nat {
    if t == 0xcc || t == 0xd0 then 1
    else if t == 0xcd || t == 0xd1 then 2
    else if t == 0xce || t == 0xd2 then 4
    else if t == 0xcf || t == 0xd3 then 8
    else 0
  }

  /** The integer an int-family object at the start of bs holds, and its size in bytes. */
  function ReadInt(bs: seq<byte>): (r: Option<(int, nat)>)
    ensures r.Some? ==> 1 <= r.value.1 <= |bs|
  {
    if |bs| == 0 then None
    else
      var t := bs[0];
      if t < 0x80 then Some((t as int, 1))                    // positive fixint
      else if t >= 0xe0 then Some((t as int - 0x100, 1))      // negative fixint
      else
        var w := IntTagWidth(t);
        if w == 0 || |bs| < w + 1 then None
        else
          var u := FromBigEndian(bs[1..w + 1]);
          Some((if t >= 0xd0 then ToSigned(u, w) else u, w + 1))
  }

  /** The shape of a length-prefixed family: its fix range and its 8-, 16- and 32-bit tags. */
  datatype Family = Family(fixBase: int, fixCount: int, tag8: int, tag16: int, tag32: int)

  /** fixstr, str 8, str 16, str 32 */
  const StrFamily := Family(0xa0, 32, 0xd9, 0xda, 0xdb)
  /** bin 8, bin 16, bin 32 (no fix form) */
  const BinFamily := Family(0, 0, 0xc4, 0xc5, 0xc6)
  /** fixarray, array 16, array 32 (no 8-bit form) */
  const ArrayFamily := Family(0x90, 16, -1, 0xdc, 0xdd)
  /** fixmap, map 16, map 32 (no 8-bit form) */
  const MapFamily := Family(0x80, 16, -1, 0xde, 0xdf)

  /** The length a header of family f at the start of bs holds, and the header's size. */
  function ReadLength(f: Family, bs: seq<byte>): (r: Option<(nat, nat)>)
    ensures r.Some? ==> 1 <= r.value.1 <= |bs| && r.value.1 in {1, 2, 3, 5}
  {
    if |bs| == 0 then None
    else
      var t := bs[0] as int;
      if f.fixBase <= t < f.fixBase + f.fixCount then Some((t - f.fixBase, 1))
      else if t == f.tag8 && |bs| >= 2 then Some((FromBigEndian(bs[1..2]), 2))
      else if t == f.tag16 && |bs| >= 3 then Some((FromBigEndian(bs[1..3]), 3))
      else if t == f.tag32 && |bs| >= 5 then Some((FromBigEndian(bs[1..5]), 5))
      else None
  }

  /** One object's header: how many bytes it and its payload take, and how many objects follow it. */
  datatype Head = Head(size: nat, children: nat)

  /** What the first byte of an object says it is. */
  datatype Kind = Fixed(size: nat) | IntKind | StrKind | BinKind | ArrayKind | MapKind | Unknown

  /**
   The family of a first byte. The ext formats (0xc7-0xc9, 0xd4-0xd8) and the
   never-used byte 0xc1 are Unknown: the encoder does not write them.
   */
  function KindOf(t: byte): Kind {
    if t < 0x80 || t >= 0xe0 then IntKind                      // positive / negative fixint
    else if t < 0x90 then MapKind                              // fixmap
    else if t < 0xa0 then ArrayKind                            // fixarray
    else if t < 0xc0 then StrKind                              // fixstr
    else if t == 0xc0 || t == 0xc2 || t == 0xc3 then Fixed(1)  // nil, false, true
    else if 0xc4 <= t <= 0xc6 then BinKind                     // bin 8/16/32
    else if t == 0xca then Fixed(5)                            // float 32
    else if t == 0xcb then Fixed(9)                            // float 64
    else if 0xcc <= t <= 0xd3 then IntKind                     // uint / int 8-64
    else if 0xd9 <= t <= 0xdb then StrKind                     // str 8/16/32
    else if t == 0xdc || t == 0xdd then ArrayKind              // array 16/32
    else if t == 0xde || t == 0xdf then MapKind                // map 16/32
    else Unknown
  }

  function ReadHead(bs: seq<byte>): (r: Option<Head>)
    ensures r.Some? ==> r.value.size >= 1
  {
    if |bs| == 0 then None
    else
      match KindOf(bs[0])
      case Fixed(size) => Some(Head(size, 0))
      case IntKind => if ReadInt(bs).Some? then Some(Head(ReadInt(bs).value.1, 0)) else None
      case StrKind => if ReadLength(StrFamily, bs).Some? then Some(Payload(ReadLength(StrFamily, bs).value)) else None
      case BinKind => if ReadLength(BinFamily, bs).Some? then Some(Payload(ReadLength(BinFamily, bs).value)) else None
      case ArrayKind =>
        if ReadLength(ArrayFamily, bs).Some? then Some(Container(ReadLength(ArrayFamily, bs).value, 1)) else None
      case MapKind =>
        if ReadLength(MapFamily, bs).Some? then Some(Container(ReadLength(MapFamily, bs).value, 2)) else None
      case Unknown => None
  }

  /** A string or a binary of n bytes after an h-byte header. */
  function Payload(length: (nat, nat)): Head
    requires length.1 >= 1
  {
    Head(length.1 + length.0, 0)
  }

  /** An array or a map after an h-byte header: the object-type slot, then `per` objects for each of the n elements. */
  function Container(length: (nat, nat), per: nat): Head
    requires length.1 >= 1
  {
    Head(length.1, per * length.0 + 1)
  }

  /** Whatever ReadInt accepts starts with an int-family byte. */
  lemma IntKindOf(bs: seq<byte>)
    requires ReadInt(bs).Some?
    ensures KindOf(bs[0]) == IntKind
    ensures ReadHead(bs) == Some(Head(ReadInt(bs).value.1, 0))
  {
  }

  /** Whatever ReadLength accepts for a family starts with a byte of that family. */
  lemma LengthKindOf(f: Family, bs: seq<byte>)
    requires f in {StrFamily, BinFamily, ArrayFamily, MapFamily} && ReadLength(f, bs).Some?
    ensures KindOf(bs[0]) == (if f == StrFamily then StrKind else if f == BinFamily then BinKind
                              else if f == ArrayFamily then ArrayKind else MapKind)
    ensures ReadHead(bs) == Some(if f == StrFamily || f == BinFamily then Payload(ReadLength(f, bs).value)
                                 else Container(ReadLength(f, bs).value, if f == ArrayFamily then 1 else 2))
  {
  }

  /** What is left of bs after `count` whole objects, or None if bs does not start with them. */
  function Skip(bs: seq<byte>, count: nat): Option<seq<byte>>
    decreases |bs|, count
  {
    if count == 0 then Some(bs)
    else
      match ReadHead(bs)
      case None => None
      case Some(h) =>
        if |bs| < h.size then None
        else Skip(bs[h.size..], count - 1 + h.children)
  }
}
