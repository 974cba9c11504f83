// Inventory slots: the NBT a weapon emits, slots on the wire, and the list of slots
// sent when a player enters a lobby.
module Slots {
  import opened Words
  import opened Bytes
  import opened VarInt
  import opened Nbt

  /** The bytes of a C string literal. */
  function Ascii(s: string): (b: seq<Byte>)
    ensures |b| == |s| && forall i :: 0 <= i < |s| && s[i] < 256 as char ==> b[i] == s[i] as int
  {
    seq(|s|, i requires 0 <= i < |s| => s[i] as int % 256)
  }

  // ------------------------------------------------------------------
  // The NBT of a weapon
  // ------------------------------------------------------------------

  /** writeNBTstring: a length, then the bytes. */
  function NbtString(value: seq<Byte>): seq<Byte>
  {
    BigEndian(|value| % 0x1_0000, 2) + value
  }

  const DAMAGE_NAME := Ascii("Damage") + [0]  // the emitter counts the terminator in

  /** The tree a weapon's NBT is meant to be. */
  function WeaponTag(name: seq<Byte>): Tag
  {
    Compound([Field(DAMAGE_NAME, Number(TAG_INT, BigEndian(255, 4))),
              Field(Ascii("display"), DisplayTag(name))])
  }

  function DisplayTag(name: seq<Byte>): (t: Tag)
    ensures TypeOf(t) == TAG_COMPOUND
  {
    Compound([Field(Ascii("Name"), Str(name)),
              Field(Ascii("Lore"), List(TAG_STRING, [Str(Ascii("Max ammunition:")),
                                                     Str(Ascii("Rate of fire:")),
                                                     Str(Ascii("Damage:"))]))])
  }

  function WeaponNbt(name: seq<Byte>): seq<Byte>
  {
    FieldBytes(Field([], WeaponTag(name)))
  }

  lemma WeaponTagWellFormed(name: seq<Byte>)
    requires |name| < 0x1_0000
    ensures WellFormedField(Field([], WeaponTag(name)))
  {
    var damage, display := Number(TAG_INT, BigEndian(255, 4)), DisplayTag(name);
    assert WellFormed(damage) && WellFormed(display) by {
      assert WellFormed(Str(name));
      var lore := List(TAG_STRING, [Str(Ascii("Max ammunition:")), Str(Ascii("Rate of fire:")), Str(Ascii("Damage:"))]);
      assert WellFormed(lore);
    }
    assert WellFormedField(Field(DAMAGE_NAME, damage)) && WellFormedField(Field(Ascii("display"), display));
  }

  lemma OneField(f: Field)
    ensures FieldsBytes([f]) == FieldBytes(f)
  {
    hide FieldBytes;
    assert [f][1..] == [];
  }

  lemma TwoFields(f: Field, g: Field)
    ensures FieldsBytes([f, g]) == FieldBytes(f) + FieldBytes(g)
  {
    hide FieldBytes;
    OneField(g);
    assert [f, g][1..] == [g];
  }

  lemma ThreeItems(a: Tag, b: Tag, c: Tag)
    ensures ItemsBytes([a, b, c]) == Payload(a) + Payload(b) + Payload(c)
  {
    hide Payload;
    assert [a, b, c][1..] == [b, c] && [b, c][1..] == [c] && [c][1..] == [];
    assert ItemsBytes([c]) == Payload(c);
    assert ItemsBytes([b, c]) == Payload(b) + Payload(c);
  }

  /** The type and the name of a named tag. */
  function TagName(kind: Byte, name: seq<Byte>): seq<Byte>
  {
    [kind] + NbtString(name)
  }

  function LoreBytes(): seq<Byte>
  {
    [TAG_STRING] + BigEndian(3, 4)
    + NbtString(Ascii("Max ammunition:")) + NbtString(Ascii("Rate of fire:")) + NbtString(Ascii("Damage:"))
  }

  /** The root tag, the damage and the name of the display tag. */
  function HeadBytes(): seq<Byte>
  {
    TagName(TAG_COMPOUND, []) + TagName(TAG_INT, DAMAGE_NAME) + BigEndian(255, 4)
    + TagName(TAG_COMPOUND, Ascii("display"))
  }

  /** The name and the lore. */
  function DisplayBytes(name: seq<Byte>): seq<Byte>
  {
    TagName(TAG_STRING, Ascii("Name")) + NbtString(name) + TagName(TAG_LIST, Ascii("Lore")) + LoreBytes()
  }

  /** Everything the emitter writes, in the order it writes it. */
  function EmittedBytes(name: seq<Byte>): seq<Byte>
  {
    HeadBytes() + DisplayBytes(name) + [TAG_INVALID] + [TAG_INVALID]
  }

  lemma FieldParts(name: seq<Byte>, tag: Tag)
    requires |name| < 0x1_0000
    ensures FieldBytes(Field(name, tag)) == TagName(TypeOf(tag), name) + Payload(tag)
  {
    hide Payload, BigEndian;
  }

  lemma CompoundParts(f: Field, g: Field)
    ensures Payload(Compound([f, g])) == FieldBytes(f) + FieldBytes(g) + [TAG_INVALID]
  {
    hide FieldBytes;
    TwoFields(f, g);
  }

  lemma StrParts(text: seq<Byte>)
    requires |text| < 0x1_0000
    ensures Payload(Str(text)) == NbtString(text)
  {
    hide BigEndian;
  }

  lemma LorePayload()
    ensures Payload(List(TAG_STRING, [Str(Ascii("Max ammunition:")), Str(Ascii("Rate of fire:")),
                                      Str(Ascii("Damage:"))]))
         == LoreBytes()
  {
    hide BigEndian, NbtString, Ascii;
    var a, b, c := Ascii("Max ammunition:"), Ascii("Rate of fire:"), Ascii("Damage:");
    StrParts(a);
    StrParts(b);
    StrParts(c);
    ThreeItems(Str(a), Str(b), Str(c));
    Regroup3([TAG_STRING] + BigEndian(3, 4), NbtString(a), NbtString(b), NbtString(c));
  }

  lemma DisplayPayload(name: seq<Byte>)
    requires |name| < 0x1_0000
    ensures Payload(DisplayTag(name))
         == TagName(TAG_STRING, Ascii("Name")) + NbtString(name)
            + (TagName(TAG_LIST, Ascii("Lore")) + LoreBytes()) + [TAG_INVALID]
  {
    hide BigEndian, Ascii, Payload, FieldBytes, NbtString, TagName, LoreBytes;
    LorePayload();
    StrParts(name);
    var lore := List(TAG_STRING, [Str(Ascii("Max ammunition:")), Str(Ascii("Rate of fire:")), Str(Ascii("Damage:"))]);
    FieldParts(Ascii("Name"), Str(name));
    FieldParts(Ascii("Lore"), lore);
    CompoundParts(Field(Ascii("Name"), Str(name)), Field(Ascii("Lore"), lore));
  }

  lemma NumberParts(kind: Byte, payload: seq<Byte>)
    ensures Payload(Number(kind, payload)) == payload
  {
  }

  lemma RegroupTree(a: seq<Byte>, b: seq<Byte>, c: seq<Byte>, d: seq<Byte>, e: seq<Byte>, f: seq<Byte>, g: seq<Byte>,
                    h: seq<Byte>, i: seq<Byte>, j: seq<Byte>)
    ensures a + b + c + d + (e + f + g + h) + i + j == a + (b + c + (d + (e + f + (g + h) + i)) + j)
  {
  }

  /** The hand-written emitter writes the serialisation of that tree. */
  lemma EmittedIsTree(name: seq<Byte>)
    requires |name| < 0x1_0000
    ensures EmittedBytes(name) == WeaponNbt(name)
  {
    hide BigEndian, Ascii, Payload, FieldBytes, NbtString, DisplayTag, TagName, LoreBytes;
    DisplayPayload(name);
    NumberParts(TAG_INT, BigEndian(255, 4));
    var f, g := Field(DAMAGE_NAME, Number(TAG_INT, BigEndian(255, 4))), Field(Ascii("display"), DisplayTag(name));
    FieldParts(f.name, f.tag);
    FieldParts(g.name, g.tag);
    CompoundParts(f, g);
    FieldParts([], WeaponTag(name));
    RegroupTree(TagName(TAG_COMPOUND, []), TagName(TAG_INT, DAMAGE_NAME), BigEndian(255, 4),
                TagName(TAG_COMPOUND, Ascii("display")), TagName(TAG_STRING, Ascii("Name")), NbtString(name),
                TagName(TAG_LIST, Ascii("Lore")), LoreBytes(), [TAG_INVALID], [TAG_INVALID]);
  }

  lemma EmittedParts(name: seq<Byte>)
    ensures EmittedBytes(name) == HeadBytes() + DisplayBytes(name) + [TAG_INVALID] + [TAG_INVALID]
  {
  }

  lemma EmittedLength(name: seq<Byte>)
    ensures |EmittedBytes(name)| == 91 + |name|
  {
  }

  const NBT_BUFFER := 100

  /** The emitter's buffer is large enough for names of at most nine bytes, and no others. */
  lemma BufferSuffices(name: seq<Byte>)
    ensures |EmittedBytes(name)| <= NBT_BUFFER <==> |name| <= 9
  {
    hide EmittedBytes;
    EmittedLength(name);
  }

  /** Which leaves out three of the nine weapons of the game, this one among them. */
  lemma SuperShotgunDoesNotFit()
    ensures |EmittedBytes(Ascii("Super Shotgun"))| > NBT_BUFFER
  {
    hide EmittedBytes;
    BufferSuffices(Ascii("Super Shotgun"));
  }

  method WriteNbtString(buff: array<Byte>, at: nat, value: seq<Byte>) returns (n: nat)
    requires at + 2 + |value| <= buff.Length
    modifies buff
    ensures n == 2 + |value|
    ensures buff[..at + n] == old(buff[..at]) + NbtString(value)
  {
    hide BigEndian, Splice;
    n := WriteBigEndianShort(buff, at, |value|);
    Memcpy(buff, at + n, value);
    n := n + |value|;
  }

  method WriteTagName(buff: array<Byte>, at: nat, kind: Byte, name: seq<Byte>) returns (n: nat)
    requires at + 3 + |name| <= buff.Length
    modifies buff
    ensures n == 3 + |name|
    ensures buff[..at + n] == old(buff[..at]) + TagName(kind, name)
  {
    hide NbtString, Splice;
    Store(buff, at, kind);
    n := WriteNbtString(buff, at + 1, name);
    n := 1 + n;
  }

  /** The emitter with a buffer of the given room; the source has NBT_BUFFER. */
  method GetNbt(name: seq<Byte>, room: nat) returns (bytes: array<Byte>, len: nat)
    requires |EmittedBytes(name)| <= room
    ensures fresh(bytes) && len <= bytes.Length == room
    ensures bytes[..len] == EmittedBytes(name)
  {
    hide HeadBytes, DisplayBytes, Splice, EmittedBytes;
    EmittedLength(name);
    EmittedParts(name);
    bytes := new Byte[room];
    len := WriteHead(bytes);
    var n := WriteDisplay(bytes, len, name);
    len := len + n;
    Store(bytes, len, TAG_INVALID);
    len := len + 1;
    Store(bytes, len, TAG_INVALID);
    len := len + 1;
  }

  method WriteHead(bytes: array<Byte>) returns (len: nat)
    requires bytes.Length >= 27
    modifies bytes
    ensures len == 27 && bytes[..len] == HeadBytes()
  {
    hide BigEndian, Splice, Ascii, TagName;
    len := WriteTagName(bytes, 0, TAG_COMPOUND, []);
    assert bytes[..len] == TagName(TAG_COMPOUND, []);
    var n := WriteTagName(bytes, len, TAG_INT, DAMAGE_NAME);
    len := len + n;
    n := WriteBigEndianInt(bytes, len, 255);
    len := len + n;
    n := WriteTagName(bytes, len, TAG_COMPOUND, Ascii("display"));
    len := len + n;
  }

  method WriteDisplay(bytes: array<Byte>, start: nat, name: seq<Byte>) returns (n: nat)
    requires start + 62 + |name| <= bytes.Length
    modifies bytes
    ensures n == 62 + |name|
    ensures bytes[..start + n] == old(bytes[..start]) + DisplayBytes(name)
  {
    hide Splice, Ascii, TagName, NbtString, LoreBytes;
    ghost var head := bytes[..start];
    n := WriteTagName(bytes, start, TAG_STRING, Ascii("Name"));
    var w := WriteNbtString(bytes, start + n, name);
    n := n + w;
    w := WriteTagName(bytes, start + n, TAG_LIST, Ascii("Lore"));
    n := n + w;
    w := WriteLore(bytes, start + n);
    n := n + w;
    Regroup4(head, TagName(TAG_STRING, Ascii("Name")), NbtString(name), TagName(TAG_LIST, Ascii("Lore")), LoreBytes());
  }

  method WriteLore(bytes: array<Byte>, start: nat) returns (n: nat)
    requires start + 46 <= bytes.Length
    modifies bytes
    ensures n == 46
    ensures bytes[..start + n] == old(bytes[..start]) + LoreBytes()
  {
    hide BigEndian, Splice, NbtString, Ascii;
    ghost var head := bytes[..start];
    n := WriteListHead(bytes, start);
    var w := WriteNbtString(bytes, start + n, Ascii("Max ammunition:"));
    n := n + w;
    w := WriteNbtString(bytes, start + n, Ascii("Rate of fire:"));
    n := n + w;
    w := WriteNbtString(bytes, start + n, Ascii("Damage:"));
    n := n + w;
    Regroup4(head, [TAG_STRING] + BigEndian(3, 4), NbtString(Ascii("Max ammunition:")),
             NbtString(Ascii("Rate of fire:")), NbtString(Ascii("Damage:")));
  }

  /** The element type and the count of the list. */
  method WriteListHead(bytes: array<Byte>, start: nat) returns (n: nat)
    requires start + 5 <= bytes.Length
    modifies bytes
    ensures n == 5
    ensures bytes[..start + n] == old(bytes[..start]) + ([TAG_STRING] + BigEndian(3, 4))
  {
    hide BigEndian, Splice;
    ghost var head := bytes[..start];
    Store(bytes, start, TAG_STRING);
    var w := WriteBigEndianInt(bytes, start + 1, 3);
    n := 1 + w;
    Associate3(head, [TAG_STRING], BigEndian(3, 4));
  }

  // ------------------------------------------------------------------
  // Slots on the wire
  // ------------------------------------------------------------------

  /** No NBT stands for the NULL pointer. */
  datatype Slot = Slot(present: bool, id: Int32, count: Byte, nbt: Option<seq<Byte>>)

  const EMPTY_SLOT := Slot(false, 0, 0, None)

  function EncodeSlot(s: Slot): seq<Byte>
  {
    if !s.present then [0]
    else [1] + Encode(s.id) + [s.count] + NbtOf(s)
  }

  /** What stands for the NBT of a present slot. */
  function NbtOf(s: Slot): seq<Byte>
  {
    if s.nbt.Some? then s.nbt.value else [TAG_INVALID]
  }

  method WriteSlot(buff: array<Byte>, at: nat, s: Slot) returns (offset: nat)
    requires at + |EncodeSlot(s)| <= buff.Length
    modifies buff
    ensures offset == |EncodeSlot(s)|
    ensures buff[..at + offset] == old(buff[..at]) + EncodeSlot(s)
  {
    hide Encode, Splice, EncodeSlot, NbtOf;
    ghost var head := buff[..at];
    if !s.present {
      AbsentSlot(s);
      Store(buff, at, 0);
      return 1;
    }
    SlotParts(s);
    Store(buff, at, 1);
    offset := 1;
    var n := WriteVarInt(buff, at + offset, s.id);
    offset := offset + n;
    Store(buff, at + offset, s.count);
    offset := offset + 1;
    n := WriteNbtOf(buff, at + offset, s);
    offset := offset + n;
    Regroup4(head, [1], Encode(s.id), [s.count], NbtOf(s));
    Associate4([1], Encode(s.id), [s.count], NbtOf(s));
  }

  method WriteNbtOf(buff: array<Byte>, at: nat, s: Slot) returns (n: nat)
    requires at + |NbtOf(s)| <= buff.Length
    modifies buff
    ensures n == |NbtOf(s)|
    ensures buff[..at + n] == old(buff[..at]) + NbtOf(s)
  {
    hide Splice;
    if s.nbt.Some? {
      Memcpy(buff, at, s.nbt.value);
      n := |s.nbt.value|;
    } else {
      Store(buff, at, TAG_INVALID);
      n := 1;
    }
  }

  lemma AbsentSlot(s: Slot)
    requires !s.present
    ensures EncodeSlot(s) == [0]
  {
  }

  /** The NBT of a slot, when it has one, is that of some well-formed compound small
      enough for the reader's int. */
  predicate Carried(s: Slot, item: Item)
  {
    if s.present && s.nbt.Some? then
      item.Named? && item.field.tag.Compound? && WellFormedField(item.field)
      && s.nbt.value == FieldBytes(item.field) && |s.nbt.value| < 0x8000_0000
    else item == End
  }

  /** Reading a slot back. The cursor ends where the slot ends, except that it stays
      in front of the end byte of a present slot without NBT. */
  method ReadSlot(buff: seq<Byte>, index: nat, ghost s: Slot, ghost item: Item) returns (r: Slot, next: nat)
    requires Carried(s, item) && At(buff, index, EncodeSlot(s))
    ensures r.present == s.present && (s.present ==> r.id == s.id && r.count == s.count)
    ensures s.present && s.nbt.Some? ==> r.nbt == s.nbt
    ensures !s.present ==> r == Slot(false, 0, 0, None)
    ensures next == index + |EncodeSlot(s)| - (if s.present && s.nbt == None then 1 else 0)
  {
    hide Encode, Decode, FieldBytes, At, EncodeSlot, WellFormedField;
    PresentAt(buff, index, s);
    if buff[index] == 0 {
      return EMPTY_SLOT, index + 1;
    }
    SlotAt(buff, index, s);
    RoundTrip(s.id, buff[index + 1 + |Encode(s.id)|..]);
    var id;
    id, next := ReadVarInt(buff, index + 1);
    assert |buff[next..]| == |buff[index + 1 + |Encode(s.id)|..]|;
    var count := buff[next];
    next := next + 1;
    TailFrom(buff, next, NbtOf(s));
    var sz := NbtSize(buff, next, false, item);
    r := Slot(true, id, count, Some(buff[next..next + sz]));
    next := next + sz;
  }

  lemma PresentAt(buff: seq<Byte>, index: nat, s: Slot)
    requires At(buff, index, EncodeSlot(s))
    ensures index < |buff| && (buff[index] == 0 <==> !s.present)
    ensures !s.present ==> |EncodeSlot(s)| == 1
  {
    assert buff[index] == EncodeSlot(s)[0];
  }

  lemma SlotParts(s: Slot)
    requires s.present
    ensures EncodeSlot(s) == [1] + (Encode(s.id) + ([s.count] + NbtOf(s)))
    ensures |EncodeSlot(s)| == 2 + |Encode(s.id)| + |NbtOf(s)|
  {
    hide Encode, NbtOf;
    Associate4([1], Encode(s.id), [s.count], NbtOf(s));
  }

  lemma SlotAt(buff: seq<Byte>, index: nat, s: Slot)
    requires s.present && At(buff, index, EncodeSlot(s))
    ensures |EncodeSlot(s)| == 2 + |Encode(s.id)| + |NbtOf(s)|
    ensures var at := index + 1 + |Encode(s.id)|;
            at < |buff| && buff[at] == s.count && At(buff, at + 1, NbtOf(s))
            && buff[index + 1..] == Encode(s.id) + buff[at..]
  {
    hide Encode, NbtOf, At, EncodeSlot;
    var at := index + 1 + |Encode(s.id)|;
    SlotParts(s);
    AtSplit(buff, index, [1], Encode(s.id) + ([s.count] + NbtOf(s)));
    AtSplit(buff, index + 1, Encode(s.id), [s.count] + NbtOf(s));
    AtSplit(buff, at, [s.count], NbtOf(s));
    ByteAt(buff, at, s.count);
    TailFrom(buff, index + 1, Encode(s.id));
  }

  lemma ByteAt(buff: seq<Byte>, at: nat, b: Byte)
    requires At(buff, at, [b])
    ensures at < |buff| && buff[at] == b
  {
    assert buff[at] == buff[at..at + 1][0];
  }

  lemma TailFrom(buff: seq<Byte>, at: nat, bytes: seq<Byte>)
    requires At(buff, at, bytes)
    ensures at + |bytes| <= |buff| && buff[at..at + |bytes|] == bytes
    ensures buff[at..] == bytes + buff[at + |bytes|..]
  {
  }

  // ------------------------------------------------------------------
  // The inventory packet
  // ------------------------------------------------------------------

  const MAX_WEAPONS := 9
  const SLOT_COUNT := 45
  const FIRST_WEAPON := 36

  /** A weapon with the ammunition its owner has for it. */
  datatype Weapon = Weapon(name: seq<Byte>, itemId: Int32, ammo: Byte)

  function WeaponSlot(w: Option<Weapon>): Slot
  {
    if w.Some? then Slot(true, w.value.itemId, w.value.ammo, Some(EmittedBytes(w.value.name))) else EMPTY_SLOT
  }

  /** 36 empty slots, then the nine weapon slots. */
  function Inventory(weapons: seq<Option<Weapon>>): (slots: seq<Slot>)
    requires |weapons| == MAX_WEAPONS
    ensures |slots| == SLOT_COUNT
  {
    seq(SLOT_COUNT, i requires 0 <= i < SLOT_COUNT =>
      if i < FIRST_WEAPON then EMPTY_SLOT else WeaponSlot(weapons[i - FIRST_WEAPON]))
  }

  function SlotsBytes(slots: seq<Slot>): seq<Byte>
  {
    if slots == [] then [] else SlotsBytes(slots[..|slots| - 1]) + EncodeSlot(slots[|slots| - 1])
  }

  /** Names an NBT string can hold. */
  predicate NbtNames(weapons: seq<Option<Weapon>>)
  {
    forall i :: 0 <= i < |weapons| && weapons[i].Some? ==> |weapons[i].value.name| < 0x1_0000
  }

  /** Names an emitter's buffer of the given room is large enough for. */
  predicate NamesFit(weapons: seq<Option<Weapon>>, room: nat)
  {
    forall i :: 0 <= i < |weapons| && weapons[i].Some? ==> |EmittedBytes(weapons[i].value.name)| <= room
  }

  function InventoryBytes(weapons: seq<Option<Weapon>>): seq<Byte>
    requires |weapons| == MAX_WEAPONS
  {
    [0] + Encode(0) + Encode(SLOT_COUNT)
    + SlotsBytes(Inventory(weapons)) + EncodeSlot(Inventory(weapons)[FIRST_WEAPON])
  }

  lemma SlotLength(w: Option<Weapon>)
    ensures |EncodeSlot(EMPTY_SLOT)| == 1
    ensures 1 <= |EncodeSlot(WeaponSlot(w))| <= if w.Some? then 98 + |w.value.name| else 1
  {
    hide Encode, EmittedBytes;
    if w.Some? {
      EncodeLength(w.value.itemId);
      EmittedLength(w.value.name);
    }
  }

  /** The room the sender reserves: 40 bytes for the C struct of each slot. */
  const INVENTORY_BUFFER := 1 + 2 * MAX_VAR_INT + 40 * SLOT_COUNT

  lemma {:induction false} SlotsLength(weapons: seq<Option<Weapon>>, longest: nat, n: nat)
    requires |weapons| == MAX_WEAPONS && n <= SLOT_COUNT
    requires forall i :: 0 <= i < |weapons| && weapons[i].Some? ==> |weapons[i].value.name| <= longest
    ensures |SlotsBytes(Inventory(weapons)[..n])| <=
              if n <= FIRST_WEAPON then n else FIRST_WEAPON + Times(n - FIRST_WEAPON, 98 + longest)
  {
    hide EncodeSlot, WeaponSlot, Times;
    if n > 0 {
      var slots := Inventory(weapons)[..n];
      SlotsLength(weapons, longest, n - 1);
      assert slots[..n - 1] == Inventory(weapons)[..n - 1];
      SlotLength(if n <= FIRST_WEAPON then None else weapons[n - 1 - FIRST_WEAPON]);
      TimesStep(0, 98 + longest);
      if n > FIRST_WEAPON {
        TimesStep(n - 1 - FIRST_WEAPON, 98 + longest);
      }
    }
  }

  /** The sender's buffer has room for every inventory with names of up to 79 bytes. */
  lemma InventoryFits(weapons: seq<Option<Weapon>>)
    requires |weapons| == MAX_WEAPONS
    requires forall i :: 0 <= i < |weapons| && weapons[i].Some? ==> |weapons[i].value.name| <= 79
    ensures |InventoryBytes(weapons)| <= INVENTORY_BUFFER
  {
    hide Encode, EncodeSlot, SlotsBytes, WeaponSlot;
    EncodeLength(0);
    EncodeLength(SLOT_COUNT);
    SlotsLength(weapons, 79, SLOT_COUNT);
    assert Inventory(weapons)[..SLOT_COUNT] == Inventory(weapons);
    SlotLength(weapons[0]);
  }

  lemma {:induction false} SlotsPrefix(slots: seq<Slot>, n: nat)
    requires n <= |slots|
    ensures |SlotsBytes(slots[..n])| <= |SlotsBytes(slots)|
    ensures n < |slots| ==> |SlotsBytes(slots[..n])| + |EncodeSlot(slots[n])| <= |SlotsBytes(slots)|
  {
    hide EncodeSlot;
    var last := |slots| - 1;
    if n < |slots| {
      SlotsPrefix(slots[..last], n);
      assert slots[..last][..n] == slots[..n];
    } else {
      assert slots[..n] == slots;
    }
  }

  /** With buffers that are large enough, for the NBT and for the packet, exactly the
      inventory is written. */
  method SetWeapons(weapons: seq<Option<Weapon>>, nbtRoom: nat) returns (data: array<Byte>, offset: nat)
    requires |weapons| == MAX_WEAPONS && NamesFit(weapons, nbtRoom)
    requires |InventoryBytes(weapons)| <= INVENTORY_BUFFER
    ensures fresh(data) && offset <= data.Length
    ensures data[..offset] == InventoryBytes(weapons)
  {
    hide Encode, EncodeSlot, EmittedBytes, SlotsBytes, Splice;
    data := new Byte[INVENTORY_BUFFER];
    var currentSlot := 0;
    offset := WriteHeader(data);
    ghost var head := data[..offset];
    var slots := Inventory(weapons);
    NoSlots(slots);
    for i := 0 to FIRST_WEAPON
      invariant offset == |head| + |SlotsBytes(slots[..i])| <= data.Length
      invariant data[..offset] == head + SlotsBytes(slots[..i])
    {
      SlotsPrefix(slots, i);
      offset := WriteNextSlot(data, offset, head, slots, i);
    }
    for i := FIRST_WEAPON to SLOT_COUNT
      invariant offset == |head| + |SlotsBytes(slots[..i])| <= data.Length
      invariant data[..offset] == head + SlotsBytes(slots[..i])
    {
      SlotsPrefix(slots, i);
      if weapons[i - FIRST_WEAPON].Some? {
        var bytes, len := GetNbt(weapons[i - FIRST_WEAPON].value.name, nbtRoom);
        assert slots[i] == WeaponSlot(weapons[i - FIRST_WEAPON]);
        assert slots[i].nbt == Some(bytes[..len]);
      }
      offset := WriteNextSlot(data, offset, head, slots, i);
    }
    assert slots[..SLOT_COUNT] == slots;
    var n := WriteSlot(data, offset, slots[FIRST_WEAPON + currentSlot]);
    offset := offset + n;
  }

  lemma NoSlots(slots: seq<Slot>)
    ensures SlotsBytes(slots[..0]) == []
  {
  }

  method WriteHeader(data: array<Byte>) returns (offset: nat)
    requires data.Length == INVENTORY_BUFFER
    modifies data
    ensures offset <= 11 && data[..offset] == [0] + Encode(0) + Encode(SLOT_COUNT)
    ensures offset == |data[..offset]|
  {
    hide Encode, Splice;
    EncodeLength(0);
    EncodeLength(SLOT_COUNT);
    Store(data, 0, 0);
    offset := 1;
    var n := WriteVarInt(data, offset, 0);
    offset := offset + n;
    n := WriteVarInt(data, offset, SLOT_COUNT);
    offset := offset + n;
  }

  method WriteNextSlot(data: array<Byte>, at: nat, ghost head: seq<Byte>, slots: seq<Slot>, i: nat)
    returns (offset: nat)
    requires i < |slots| && at + |EncodeSlot(slots[i])| <= data.Length
    requires data[..at] == head + SlotsBytes(slots[..i])
    modifies data
    ensures offset == at + |EncodeSlot(slots[i])|
    ensures data[..offset] == head + SlotsBytes(slots[..i + 1])
  {
    hide EncodeSlot;
    assert slots[..i + 1][..i] == slots[..i];
    var n := WriteSlot(data, at, slots[i]);
    offset := at + n;
    assert data[..offset] == head + (SlotsBytes(slots[..i]) + EncodeSlot(slots[i]));
  }

  /** What a reader gets for a slot that can be walked over. */
  predicate ReadBack(r: Slot, s: Slot)
  {
    r.present == s.present
    && (s.present ==> r.id == s.id && r.count == s.count && (s.nbt.Some? ==> r.nbt == s.nbt))
  }

  /** A client's walk over n slots, one readSlot after the other. */
  method WalkSlots(buff: seq<Byte>, index: nat, ghost slots: seq<Slot>, ghost items: seq<Item>, n: nat)
    returns (read: seq<Slot>, next: nat)
    requires |slots| == |items| == n
    requires forall i :: 0 <= i < n ==> Carried(slots[i], items[i]) && !(slots[i].present && slots[i].nbt == None)
    requires At(buff, index, SlotsBytes(slots))
    ensures |read| == n && forall i :: 0 <= i < n ==> ReadBack(read[i], slots[i])
    ensures next == index + |SlotsBytes(slots)|
  {
    hide EncodeSlot, Carried, At;
    next := index;
    read := [];
    assert slots[..n] == slots;
    for i := 0 to n
      invariant next == index + |SlotsBytes(slots[..i])|
      invariant |read| == i && forall k :: 0 <= k < i ==> ReadBack(read[k], slots[k])
    {
      SlotInList(buff, index, slots, i);
      var r;
      r, next := ReadSlot(buff, next, slots[i], items[i]);
      read := read + [r];
    }
  }

  lemma {:induction false} SlotInList(buff: seq<Byte>, index: nat, slots: seq<Slot>, i: nat)
    requires i < |slots| && At(buff, index, SlotsBytes(slots))
    ensures At(buff, index + |SlotsBytes(slots[..i])|, EncodeSlot(slots[i]))
    ensures |SlotsBytes(slots[..i + 1])| == |SlotsBytes(slots[..i])| + |EncodeSlot(slots[i])|
  {
    hide EncodeSlot;
    var n := |slots| - 1;
    AtSplit(buff, index, SlotsBytes(slots[..n]), EncodeSlot(slots[n]));
    assert slots[..i + 1][..i] == slots[..i];
    if i < n {
      SlotInList(buff, index, slots[..n], i);
      assert slots[..n][..i] == slots[..i] && slots[..n][..i + 1] == slots[..i + 1];
    }
  }

  function CarriedItems(weapons: seq<Option<Weapon>>): (items: seq<Item>)
    requires |weapons| == MAX_WEAPONS
    ensures |items| == SLOT_COUNT
  {
    seq(SLOT_COUNT, i requires 0 <= i < SLOT_COUNT =>
      if i < FIRST_WEAPON || weapons[i - FIRST_WEAPON] == None then End
      else Named(Field([], WeaponTag(weapons[i - FIRST_WEAPON].value.name))))
  }

  /** Every slot of the inventory can be walked over, and so can the carried one. */
  lemma InventoryWalkable(weapons: seq<Option<Weapon>>, i: nat)
    requires |weapons| == MAX_WEAPONS && NbtNames(weapons) && i < SLOT_COUNT
    ensures var s := Inventory(weapons)[i];
            Carried(s, CarriedItems(weapons)[i]) && !(s.present && s.nbt == None)
  {
    hide EmittedBytes, WeaponTag, FieldBytes, WellFormedField;
    assert Inventory(weapons)[i] == if i < FIRST_WEAPON then EMPTY_SLOT else WeaponSlot(weapons[i - FIRST_WEAPON]);
    if i >= FIRST_WEAPON && weapons[i - FIRST_WEAPON].Some? {
      var name := weapons[i - FIRST_WEAPON].value.name;
      WeaponTagWellFormed(name);
      WeaponTagIsCompound(name);
      EmittedIsTree(name);
      EmittedLength(name);
    }
  }

  lemma WeaponTagIsCompound(name: seq<Byte>)
    ensures WeaponTag(name).Compound?
  {
  }

  /** The slot of a weapon, or of none, as a client sees it. */
  predicate ShowsWeapon(r: Slot, w: Option<Weapon>)
  {
    if w == None then !r.present
    else r.present && r.id == w.value.itemId && r.count == w.value.ammo && r.nbt == Some(EmittedBytes(w.value.name))
  }

  lemma InventoryShows(weapons: seq<Option<Weapon>>, i: nat, r: Slot)
    requires |weapons| == MAX_WEAPONS && i < SLOT_COUNT && ReadBack(r, Inventory(weapons)[i])
    ensures if i < 36 then !r.present else ShowsWeapon(r, weapons[i - 36])
  {
    hide EmittedBytes;
    assert Inventory(weapons)[i] == if i < FIRST_WEAPON then EMPTY_SLOT else WeaponSlot(weapons[i - FIRST_WEAPON]);
  }

  /** A client's walk over the whole inventory packet ends exactly at its end, and shows
      36 empty slots, the nine weapons with their ids and ammunition, and the first of
      them as the carried one. */
  method WalkInventory(buff: seq<Byte>, ghost weapons: seq<Option<Weapon>>)
    returns (read: seq<Slot>, carriedSlot: Slot, next: nat)
    requires |weapons| == MAX_WEAPONS && NbtNames(weapons)
    requires buff == InventoryBytes(weapons)
    ensures |read| == 45
    ensures forall i :: 0 <= i < 36 ==> !read[i].present
    ensures forall i :: 36 <= i < 45 ==> ShowsWeapon(read[i], weapons[i - 36])
    ensures ShowsWeapon(carriedSlot, weapons[0])
    ensures next == |buff|
  {
    hide Encode, Decode, EncodeSlot, SlotsBytes, Inventory, CarriedItems, Carried, At, ReadBack, ShowsWeapon;
    ghost var slots, items := Inventory(weapons), CarriedItems(weapons);
    ghost var carried := EncodeSlot(slots[FIRST_WEAPON]);
    ghost var list := SlotsBytes(slots);
    forall i | 0 <= i < SLOT_COUNT
      ensures Carried(slots[i], items[i]) && !(slots[i].present && slots[i].nbt == None)
    {
      InventoryWalkable(weapons, i);
    }
    var stateId, slotCount;
    next := 1;
    assert buff[next..] == Encode(0) + (Encode(SLOT_COUNT) + (list + carried));
    RoundTrip(0, Encode(SLOT_COUNT) + (list + carried));
    stateId, next := ReadVarInt(buff, next);
    RoundTrip(SLOT_COUNT, list + carried);
    slotCount, next := ReadVarInt(buff, next);
    assert At(buff, next, list + carried) by {
      TailAt(buff, next, list + carried);
    }
    AtSplit(buff, next, list, carried);
    ghost var start := next;
    read, next := WalkSlots(buff, next, slots, items, slotCount);
    carriedSlot, next := ReadSlot(buff, next, slots[FIRST_WEAPON], items[FIRST_WEAPON]);
    forall i | 0 <= i < SLOT_COUNT
      ensures if i < 36 then !read[i].present else ShowsWeapon(read[i], weapons[i - 36])
    {
      InventoryShows(weapons, i, read[i]);
    }
    assert ReadBack(carriedSlot, slots[FIRST_WEAPON]) by {
      SameRead(carriedSlot, slots[FIRST_WEAPON]);
    }
    InventoryShows(weapons, FIRST_WEAPON, carriedSlot);
  }

  lemma SameRead(r: Slot, s: Slot)
    requires r.present == s.present && (s.present ==> r.id == s.id && r.count == s.count)
    requires s.present && s.nbt.Some? ==> r.nbt == s.nbt
    ensures ReadBack(r, s)
  {
  }

  lemma TailAt(buff: seq<Byte>, at: nat, tail: seq<Byte>)
    requires at <= |buff| && buff[at..] == tail
    ensures At(buff, at, tail) && at + |tail| == |buff|
  {
  }
}
