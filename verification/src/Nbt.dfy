// NBT: the tree, its binary form, and the functions that measure a tag in a buffer
// without building the tree.
module Nbt {
  import opened Words
  import opened Bytes

  const TAG_INVALID: Byte := 0
  const TAG_BYTE: Byte := 1
  const TAG_SHORT: Byte := 2
  const TAG_INT: Byte := 3
  const TAG_LONG: Byte := 4
  const TAG_FLOAT: Byte := 5
  const TAG_DOUBLE: Byte := 6
  const TAG_BYTE_ARRAY: Byte := 7
  const TAG_STRING: Byte := 8
  const TAG_LIST: Byte := 9
  const TAG_COMPOUND: Byte := 10
  const TAG_INT_ARRAY: Byte := 11
  const TAG_LONG_ARRAY: Byte := 12

  /** Numbers are kept as the bytes they are stored as. */
  datatype Tag =
    | Number(kind: Byte, payload: seq<Byte>)
    | ByteArray(bytes: seq<Byte>)
    | Str(text: seq<Byte>)
    | List(elements: Byte, items: seq<Tag>)
    | Compound(fields: seq<Field>)
    | IntArray(ints: seq<seq<Byte>>)
    | LongArray(longs: seq<seq<Byte>>)

  datatype Field = Field(name: seq<Byte>, tag: Tag)

  function NumberSize(kind: Byte): nat
  {
    if kind == TAG_BYTE then 1
    else if kind == TAG_SHORT then 2
    else if kind == TAG_INT || kind == TAG_FLOAT then 4
    else 8
  }

  function TypeOf(t: Tag): Byte
  {
    match t
    case Number(kind, _) => kind
    case ByteArray(_) => TAG_BYTE_ARRAY
    case Str(_) => TAG_STRING
    case List(_, _) => TAG_LIST
    case Compound(_) => TAG_COMPOUND
    case IntArray(_) => TAG_INT_ARRAY
    case LongArray(_) => TAG_LONG_ARRAY
  }

  function Flat(s: seq<seq<Byte>>): seq<Byte>
  {
    if s == [] then [] else s[0] + Flat(s[1..])
  }

  predicate Cells(s: seq<seq<Byte>>, size: nat)
  {
    |s| < 0x8000_0000 && forall i :: 0 <= i < |s| ==> |s[i]| == size
  }

  predicate WellFormed(t: Tag)
    decreases t, 1
  {
    match t
    case Number(kind, payload) => TAG_BYTE <= kind <= TAG_DOUBLE && |payload| == NumberSize(kind)
    case ByteArray(bytes) => |bytes| < 0x8000_0000
    case Str(text) => |text| < 0x1_0000
    case List(elements, items) =>
      elements <= TAG_LONG_ARRAY && |items| < 0x8000_0000
      && forall i :: 0 <= i < |items| ==> TypeOf(items[i]) == elements && WellFormed(items[i])
    case Compound(fields) => forall i :: 0 <= i < |fields| ==> WellFormedField(fields[i])
    case IntArray(ints) => Cells(ints, 4)
    case LongArray(longs) => Cells(longs, 8)
  }

  /** The reader takes name lengths for signed shorts. */
  predicate WellFormedField(f: Field)
    decreases f, 0
  {
    |f.name| < 0x8000 && WellFormed(f.tag)
  }

  // ------------------------------------------------------------------
  // The binary form
  // ------------------------------------------------------------------

  function Payload(t: Tag): (s: seq<Byte>)
    decreases t, 1
  {
    match t
    case Number(_, payload) => payload
    case ByteArray(bytes) => BigEndian(|bytes|, 4) + bytes
    case Str(text) => BigEndian(|text|, 2) + text
    case List(elements, items) => [elements] + BigEndian(|items|, 4) + ItemsBytes(items)
    case Compound(fields) => FieldsBytes(fields) + [TAG_INVALID]
    case IntArray(ints) => BigEndian(|ints|, 4) + Flat(ints)
    case LongArray(longs) => BigEndian(|longs|, 4) + Flat(longs)
  }

  function ItemsBytes(items: seq<Tag>): seq<Byte>
    decreases items, 0
  {
    if items == [] then [] else Payload(items[0]) + ItemsBytes(items[1..])
  }

  function FieldBytes(f: Field): seq<Byte>
    decreases f, 0
  {
    [TypeOf(f.tag)] + BigEndian(|f.name|, 2) + f.name + Payload(f.tag)
  }

  function FieldsBytes(fields: seq<Field>): seq<Byte>
    decreases fields, 1
  {
    if fields == [] then [] else FieldBytes(fields[0]) + FieldsBytes(fields[1..])
  }

  /** What a call of nbtSize may find in front of it: the end of a compound, a named
      tag, or a tag without a name. */
  datatype Item = End | Named(field: Field) | Bare(tag: Tag)

  function ItemBytes(item: Item): seq<Byte>
  {
    match item
    case End => [TAG_INVALID]
    case Named(f) => FieldBytes(f)
    case Bare(t) => [TypeOf(t)] + Payload(t)
  }

  /** Tags have a name inside compounds, and compounds have one everywhere. */
  predicate Expected(item: Item, inCompound: bool)
  {
    match item
    case End => true
    case Named(f) => WellFormedField(f) && (inCompound || f.tag.Compound?)
    case Bare(t) => WellFormed(t) && !inCompound && !t.Compound?
  }

  // ------------------------------------------------------------------
  // Measuring
  // ------------------------------------------------------------------

  /** The buffer holds the given bytes at `at`. */
  predicate At(buff: seq<Byte>, at: nat, bytes: seq<Byte>)
  {
    at + |bytes| <= |buff| && buff[at..at + |bytes|] == bytes
  }

  lemma AtSplit(buff: seq<Byte>, at: nat, a: seq<Byte>, b: seq<Byte>)
    requires At(buff, at, a + b)
    ensures At(buff, at, a) && At(buff, at + |a|, b)
  {
    assert (a + b)[..|a|] == a && (a + b)[|a|..] == b;
    assert buff[at..at + |a + b|][..|a|] == buff[at..at + |a|];
    assert buff[at..at + |a + b|][|a|..] == buff[at + |a|..at + |a| + |b|];
  }

  lemma ShortAt(buff: seq<Byte>, at: nat, v: nat)
    requires v < 0x1_0000 && At(buff, at, BigEndian(v, 2))
    ensures FromBigEndian(buff[at..at + 2]) == v
  {
    Pow2Constants();
    BigEndianRoundTrip(v, 2);
    SmallMod(v, Pow2(16));
  }

  lemma IntAt(buff: seq<Byte>, at: nat, v: nat)
    requires v < 0x8000_0000 && At(buff, at, BigEndian(v, 4))
    ensures Signed32(FromBigEndian(buff[at..at + 4])) == v
  {
    Pow2Constants();
    BigEndianRoundTrip(v, 4);
    SmallMod(v, Pow2(32));
  }

  /** readBigEndianShort as a signed 16-bit value. */
  function Signed16(u: nat): int
  {
    var w := u % 0x1_0000;
    if w < 0x8000 then w else w - 0x1_0000
  }

  /** A name length read back as a signed short is itself exactly below 32768. */
  lemma NameLengthReadBack(n: nat)
    requires n < 0x1_0000
    ensures Signed16(FromBigEndian(BigEndian(n, 2))) == n <==> n < 0x8000
  {
    Pow2Constants();
    BigEndianRoundTrip(n, 2);
    SmallMod(n, Pow2(16));
  }

  lemma {:induction false} FlatLength(s: seq<seq<Byte>>, size: nat)
    requires Cells(s, size)
    ensures |Flat(s)| == |s| * size
  {
    if s != [] {
      FlatLength(s[1..], size);
    }
  }

  /** nbtSize: the size of the tag at `at`, and 0 at the end of a compound. */
  method NbtSize(buff: seq<Byte>, at: nat, inCompound: bool, ghost item: Item) returns (res: nat)
    requires Expected(item, inCompound) && At(buff, at, ItemBytes(item))
    requires |ItemBytes(item)| < 0x8000_0000
    ensures res == if item.End? then 0 else |ItemBytes(item)|
    decreases |ItemBytes(item)|, 0
  {
    hide Payload, WellFormed, WellFormedField, FromBigEndian, BigEndian, ItemBytes, FieldBytes, At;
    ItemAt(buff, at, item, inCompound);
    var kind := buff[at];
    res := 1;
    if kind > TAG_LONG_ARRAY || kind == TAG_INVALID {
      return 0;
    }
    ghost var tag := if item.Named? then item.field.tag else item.tag;
    if inCompound || kind == TAG_COMPOUND {
      NameAt(buff, at, item.field);
      // the call moves the cursor past the length, the addition past the name
      res := res + 2 + Signed16(FromBigEndian(buff[at + 1..at + 3]));
    }
    var size := TagSize(buff, at + res, kind, tag);
    res := res + size;
  }

  lemma TypeInRange(t: Tag)
    requires WellFormed(t)
    ensures TAG_BYTE <= TypeOf(t) <= TAG_LONG_ARRAY
  {
  }

  /** What the first byte tells about the item. */
  lemma ItemAt(buff: seq<Byte>, at: nat, item: Item, inCompound: bool)
    requires Expected(item, inCompound) && At(buff, at, ItemBytes(item))
    ensures at < |buff| && buff[at] <= TAG_LONG_ARRAY
    ensures item.End? <==> buff[at] == TAG_INVALID
    ensures item.Named? ==>
              At(buff, at, FieldBytes(item.field)) && |ItemBytes(item)| == |FieldBytes(item.field)|
              && |item.field.name| < 0x8000 && WellFormed(item.field.tag) && TypeOf(item.field.tag) == buff[at]
              && (inCompound || buff[at] == TAG_COMPOUND)
    ensures item.Bare? ==>
              At(buff, at + 1, Payload(item.tag)) && |ItemBytes(item)| == 1 + |Payload(item.tag)|
              && WellFormed(item.tag) && TypeOf(item.tag) == buff[at] != TAG_COMPOUND && !inCompound
  {
    hide Payload, BigEndian;
    assert buff[at] == ItemBytes(item)[0];
    if item.Bare? {
      TypeInRange(item.tag);
      AtSplit(buff, at, [TypeOf(item.tag)], Payload(item.tag));
    } else if item.Named? {
      TypeInRange(item.field.tag);
    }
  }

  lemma NameAt(buff: seq<Byte>, at: nat, f: Field)
    requires |f.name| < 0x8000 && At(buff, at, FieldBytes(f))
    ensures at + 3 <= |buff| && Signed16(FromBigEndian(buff[at + 1..at + 3])) == |f.name|
    ensures At(buff, at + 3 + |f.name|, Payload(f.tag))
    ensures |FieldBytes(f)| == 3 + |f.name| + |Payload(f.tag)|
  {
    hide Payload, BigEndian;
    var length := BigEndian(|f.name|, 2);
    assert FieldBytes(f) == [TypeOf(f.tag)] + (length + (f.name + Payload(f.tag)));
    AtSplit(buff, at, [TypeOf(f.tag)], length + (f.name + Payload(f.tag)));
    AtSplit(buff, at + 1, length, f.name + Payload(f.tag));
    AtSplit(buff, at + 3, f.name, Payload(f.tag));
    ShortAt(buff, at + 1, |f.name|);
  }

  /** tagSize: the size of the payload of a tag of the given type. */
  method TagSize(buff: seq<Byte>, at: nat, kind: Byte, ghost t: Tag) returns (res: nat)
    requires WellFormed(t) && TypeOf(t) == kind && At(buff, at, Payload(t))
    requires |Payload(t)| < 0x8000_0000
    ensures res == |Payload(t)|
    decreases |Payload(t)|, 2
  {
    hide BigEndian, FromBigEndian;
    if kind == TAG_BYTE {
      res := 1;
    } else if kind == TAG_SHORT {
      res := 2;
    } else if kind == TAG_INT {
      res := 4;
    } else if kind == TAG_LONG {
      res := 8;
    } else if kind == TAG_FLOAT {
      res := 4;
    } else if kind == TAG_DOUBLE {
      res := 8;
    } else if kind == TAG_BYTE_ARRAY {
      AtSplit(buff, at, BigEndian(|t.bytes|, 4), t.bytes);
      IntAt(buff, at, |t.bytes|);
      res := 4 + Signed32(FromBigEndian(buff[at..at + 4]));
    } else if kind == TAG_STRING {
      AtSplit(buff, at, BigEndian(|t.text|, 2), t.text);
      ShortAt(buff, at, |t.text|);
      res := 2 + FromBigEndian(buff[at..at + 2]);
    } else if kind == TAG_LIST {
      res := ListSize(buff, at, t);
    } else if kind == TAG_COMPOUND {
      res := CompoundSize(buff, at, t);
    } else if kind == TAG_INT_ARRAY {
      AtSplit(buff, at, BigEndian(|t.ints|, 4), Flat(t.ints));
      IntAt(buff, at, |t.ints|);
      FlatLength(t.ints, 4);
      res := 4 + Signed32(FromBigEndian(buff[at..at + 4])) * 4;
    } else {
      AtSplit(buff, at, BigEndian(|t.longs|, 4), Flat(t.longs));
      IntAt(buff, at, |t.longs|);
      FlatLength(t.longs, 8);
      res := 4 + Signed32(FromBigEndian(buff[at..at + 4])) * 8;
    }
  }

  lemma ListHeader(buff: seq<Byte>, at: nat, t: Tag)
    requires t.List? && WellFormed(t) && At(buff, at, Payload(t))
    ensures |Payload(t)| == 5 + |ItemsBytes(t.items)|
    ensures buff[at] == t.elements && at + 5 <= |buff| && Signed32(FromBigEndian(buff[at + 1..at + 5])) == |t.items|
    ensures At(buff, at + 5, ItemsBytes(t.items))
  {
    hide BigEndian, ItemsBytes;
    var count := BigEndian(|t.items|, 4);
    assert Payload(t) == [t.elements] + (count + ItemsBytes(t.items));
    AtSplit(buff, at, [t.elements], count + ItemsBytes(t.items));
    AtSplit(buff, at + 1, count, ItemsBytes(t.items));
    IntAt(buff, at + 1, |t.items|);
  }

  method ListSize(buff: seq<Byte>, at: nat, ghost t: Tag) returns (res: nat)
    requires t.List? && WellFormed(t) && At(buff, at, Payload(t))
    requires |Payload(t)| < 0x8000_0000
    ensures res == |Payload(t)|
    decreases |Payload(t)|, 1
  {
    hide Payload, BigEndian, FromBigEndian, ItemsBytes, WellFormed, At;
    ListHeader(buff, at, t);
    var kind := buff[at];
    var num := Signed32(FromBigEndian(buff[at + 1..at + 5]));
    res := 5;
    if num > 0 {
      ghost var k := 0;
      assert t.items[0..] == t.items;
      while num > 0
        invariant 0 <= k <= |t.items| && num == |t.items| - k
        invariant 5 <= res && res + |ItemsBytes(t.items[k..])| == |Payload(t)|
        invariant At(buff, at + res, ItemsBytes(t.items[k..]))
        decreases num
      {
        NextElement(buff, at + res, t, k);
        var size := TagSize(buff, at + res, kind, t.items[k]);
        res := res + size;
        k := k + 1;
        num := num - 1;
      }
      NoItems(t.items[k..]);
    } else {
      NoItems(t.items);
    }
  }

  lemma NoItems(items: seq<Tag>)
    ensures items == [] ==> ItemsBytes(items) == []
  {
  }

  lemma NextElement(buff: seq<Byte>, at: nat, t: Tag, k: nat)
    requires t.List? && WellFormed(t) && k < |t.items| && At(buff, at, ItemsBytes(t.items[k..]))
    ensures WellFormed(t.items[k]) && TypeOf(t.items[k]) == t.elements
    ensures At(buff, at, Payload(t.items[k]))
    ensures |ItemsBytes(t.items[k..])| == |Payload(t.items[k])| + |ItemsBytes(t.items[k + 1..])|
    ensures At(buff, at + |Payload(t.items[k])|, ItemsBytes(t.items[k + 1..]))
  {
    hide Payload;
    var items := t.items[k..];
    assert items[0] == t.items[k] && items[1..] == t.items[k + 1..];
    AtSplit(buff, at, Payload(items[0]), ItemsBytes(items[1..]));
  }

  method CompoundSize(buff: seq<Byte>, at: nat, ghost t: Tag) returns (res: nat)
    requires t.Compound? && WellFormed(t) && At(buff, at, Payload(t))
    requires |Payload(t)| < 0x8000_0000
    ensures res == |Payload(t)|
    decreases |Payload(t)|, 1
  {
    hide Payload, FieldsBytes, FieldBytes, ItemBytes, At, Expected, WellFormed;
    CompoundStart(buff, at, t);
    ghost var fields := t.fields;
    res := 0;
    while true
      invariant |fields| <= |t.fields| && fields == t.fields[|t.fields| - |fields|..]
      invariant res + |FieldsBytes(fields)| + 1 == |Payload(t)|
      invariant At(buff, at + res, FieldsBytes(fields) + [TAG_INVALID])
      decreases |fields|
    {
      ghost var item := if fields == [] then End else Named(fields[0]);
      NextItem(buff, at + res, t, fields);
      var r := NbtSize(buff, at + res, true, item);
      if r == 0 {
        res := res + 1;
        break;
      }
      res := res + r;
      fields := fields[1..];
    }
  }

  lemma CompoundStart(buff: seq<Byte>, at: nat, t: Tag)
    requires t.Compound? && At(buff, at, Payload(t))
    ensures |Payload(t)| == |FieldsBytes(t.fields)| + 1
    ensures At(buff, at, FieldsBytes(t.fields) + [TAG_INVALID])
  {
    hide FieldsBytes;
  }

  /** The item in front of the loop, and what is behind it. */
  lemma NextItem(buff: seq<Byte>, at: nat, t: Tag, fields: seq<Field>)
    requires t.Compound? && WellFormed(t)
    requires |fields| <= |t.fields| && fields == t.fields[|t.fields| - |fields|..]
    requires At(buff, at, FieldsBytes(fields) + [TAG_INVALID])
    ensures var item := if fields == [] then End else Named(fields[0]);
            Expected(item, true) && At(buff, at, ItemBytes(item)) && |ItemBytes(item)| <= |FieldsBytes(fields)| + 1
    ensures fields == [] ==> |FieldsBytes(fields)| == 0
    ensures fields != [] ==>
              var n := |ItemBytes(Named(fields[0]))|;
              n >= 3 && |FieldsBytes(fields)| == n + |FieldsBytes(fields[1..])|
              && At(buff, at + n, FieldsBytes(fields[1..]) + [TAG_INVALID])
  {
    if fields != [] {
      hide Payload, BigEndian;
      assert |FieldBytes(fields[0])| >= 3;
      hide FieldBytes, WellFormedField, At;
      assert fields[0] == t.fields[|t.fields| - |fields|];
      var tail := FieldsBytes(fields[1..]) + [TAG_INVALID];
      assert FieldsBytes(fields) + [TAG_INVALID] == FieldBytes(fields[0]) + tail;
      AtSplit(buff, at, FieldBytes(fields[0]), tail);
    }
  }
}
