// The section stream of a chunk: for each section a count, a block container
// and a biome container.
module Sections {
  import opened Words
  import opened Bytes
  import opened Packed
  import opened Container

  const BIOME_BITS_LOWEST := 1
  const BIOME_BITS_THRESHOLD := 4

  /** The biome container of every section when the caller passes no biomes. */
  const EMPTY_BIOMES: PalettedContainer := PalettedContainer([0], [])

  function NonZero(states: seq<Int32>): (n: nat)
    ensures n <= |states|
  {
    if states == [] then 0
    else NonZero(states[..|states| - 1]) + (if states[|states| - 1] != 0 then 1 else 0)
  }

  /** The count the writer puts in front of a section. */
  function BlockCount(c: PalettedContainer): (n: nat)
    requires |c.palette| != 1 ==> |c.states| >= STATES
    ensures n <= STATES
  {
    if |c.palette| == 1 then
      if c.palette[0] == 0 then STATES else 0
    else NonZero(c.states[..STATES])
  }

  function EncodeSection(c: PalettedContainer, global: nat): seq<Byte>
    requires Writable(c, global)
  {
    BigEndian(BlockCount(c), 2) + EncodeContainer(c, global) + EncodeContainer(EMPTY_BIOMES, global)
  }

  predicate AllWritable(sections: seq<PalettedContainer>, global: nat)
  {
    forall i :: 0 <= i < |sections| ==> Writable(sections[i], global)
  }

  function EncodeSections(sections: seq<PalettedContainer>, global: nat): seq<Byte>
    requires AllWritable(sections, global)
  {
    if sections == [] then []
    else EncodeSection(sections[0], global) + EncodeSections(sections[1..], global)
  }

  // ------------------------------------------------------------------
  // Reading the stream back
  // ------------------------------------------------------------------

  datatype Section = Section(blockCount: nat, blocks: PalettedContainer, biomes: PalettedContainer)

  /** One record; a container the reader rejects ends the stream. */
  function DecodeSection(s: seq<Byte>, global: nat): Read<Section>
    requires GlobalSize(global)
  {
    var (n, s1) :- ReadBigEndian(s, 2);
    var (blocks, s2) :- DecodeContainer(s1, BLOCK_BITS_LOWEST, BLOCK_BITS_THRESHOLD, global);
    var (biomes, s3) :- DecodeContainer(s2, BIOME_BITS_LOWEST, BIOME_BITS_THRESHOLD, global);
    if blocks == None || biomes == None then Undefined
    else Got(Section(n, blocks.value, biomes.value), s3)
  }

  function DecodeSections(s: seq<Byte>, n: nat, global: nat): Read<seq<Section>>
    requires GlobalSize(global)
    decreases n
  {
    if n == 0 then Got([], s)
    else
      var (first, rest) :- DecodeSection(s, global);
      var (others, rest') :- DecodeSections(rest, n - 1, global);
      Got([first] + others, rest')
  }

  predicate AllMeaningful(sections: seq<PalettedContainer>, writerGlobal: nat, readerGlobal: nat)
    requires GlobalSize(readerGlobal)
  {
    forall i :: 0 <= i < |sections| ==> Meaningful(sections[i], writerGlobal, readerGlobal)
  }

  /** The record a client gets for a section. */
  function ReceivedSection(c: PalettedContainer, writerGlobal: nat, readerGlobal: nat): Section
    requires GlobalSize(readerGlobal) && Meaningful(c, writerGlobal, readerGlobal)
  {
    Section(BlockCount(c), Received(c, writerGlobal, readerGlobal), PalettedContainer([0], []))
  }

  lemma SectionRoundTrip(c: PalettedContainer, writerGlobal: nat, readerGlobal: nat, rest: seq<Byte>)
    requires GlobalSize(readerGlobal) && Meaningful(c, writerGlobal, readerGlobal)
    ensures Writable(c, writerGlobal)
    ensures DecodeSection(EncodeSection(c, writerGlobal) + rest, readerGlobal)
         == Got(ReceivedSection(c, writerGlobal, readerGlobal), rest)
  {
    hide DecodeContainer, EncodeContainer, Received, BigEndian, ReadBigEndian;
    ContainerRoundTrip(c, writerGlobal, readerGlobal, []);
    var s2 := EncodeContainer(EMPTY_BIOMES, writerGlobal) + rest;
    var s1 := EncodeContainer(c, writerGlobal) + s2;
    assert EncodeSection(c, writerGlobal) + rest == BigEndian(BlockCount(c), 2) + s1;
    Pow2Constants();
    ReadBigEndianRoundTrip(BlockCount(c), 2, s1);
    ContainerRoundTrip(c, writerGlobal, readerGlobal, s2);
    SingleRoundTrip(EMPTY_BIOMES, writerGlobal, BIOME_BITS_LOWEST, BIOME_BITS_THRESHOLD, readerGlobal, rest);
  }

  function ReceivedSections(sections: seq<PalettedContainer>, writerGlobal: nat, readerGlobal: nat): (r: seq<Section>)
    requires GlobalSize(readerGlobal) && AllMeaningful(sections, writerGlobal, readerGlobal)
    ensures |r| == |sections|
    ensures forall i :: 0 <= i < |r| ==> r[i] == ReceivedSection(sections[i], writerGlobal, readerGlobal)
  {
    seq(|sections|, i requires 0 <= i < |sections| => ReceivedSection(sections[i], writerGlobal, readerGlobal))
  }

  lemma MeaningfulIsWritable(sections: seq<PalettedContainer>, writerGlobal: nat, readerGlobal: nat)
    requires GlobalSize(readerGlobal) && AllMeaningful(sections, writerGlobal, readerGlobal)
    ensures AllWritable(sections, writerGlobal)
  {
    hide Meaningful, Writable;
    forall i | 0 <= i < |sections|
      ensures Writable(sections[i], writerGlobal)
    {
      ContainerRoundTrip(sections[i], writerGlobal, readerGlobal, []);
    }
  }

  /** Reading the records in turn recovers every section and ends where the stream ends. */
  lemma {:induction false} SectionsRoundTrip(sections: seq<PalettedContainer>, writerGlobal: nat, readerGlobal: nat,
                                             rest: seq<Byte>)
    requires GlobalSize(readerGlobal) && AllMeaningful(sections, writerGlobal, readerGlobal)
    ensures AllWritable(sections, writerGlobal)
    ensures DecodeSections(EncodeSections(sections, writerGlobal) + rest, |sections|, readerGlobal)
         == Got(ReceivedSections(sections, writerGlobal, readerGlobal), rest)
  {
    hide Meaningful, Writable, EncodeSection, DecodeSection, ReceivedSection, GlobalSize;
    MeaningfulIsWritable(sections, writerGlobal, readerGlobal);
    if sections == [] {
      assert EncodeSections(sections, writerGlobal) + rest == rest;
    } else {
      SectionsRoundTrip(sections[1..], writerGlobal, readerGlobal, rest);
      var tail := EncodeSections(sections[1..], writerGlobal) + rest;
      assert EncodeSections(sections, writerGlobal) + rest == EncodeSection(sections[0], writerGlobal) + tail;
      SectionRoundTrip(sections[0], writerGlobal, readerGlobal, tail);
      assert ReceivedSections(sections, writerGlobal, readerGlobal)
          == [ReceivedSection(sections[0], writerGlobal, readerGlobal)]
             + ReceivedSections(sections[1..], writerGlobal, readerGlobal);
    }
  }

  /** A byte string starts with the stream of n sections in at most one way. */
  lemma UniqueSplit(a: seq<PalettedContainer>, b: seq<PalettedContainer>, restA: seq<Byte>, restB: seq<Byte>,
                    writerGlobal: nat, readerGlobal: nat)
    requires GlobalSize(readerGlobal) && |a| == |b|
    requires AllMeaningful(a, writerGlobal, readerGlobal) && AllMeaningful(b, writerGlobal, readerGlobal)
    requires AllWritable(a, writerGlobal) && AllWritable(b, writerGlobal)
    requires EncodeSections(a, writerGlobal) + restA == EncodeSections(b, writerGlobal) + restB
    ensures restA == restB
    ensures ReceivedSections(a, writerGlobal, readerGlobal) == ReceivedSections(b, writerGlobal, readerGlobal)
  {
    SectionsRoundTrip(a, writerGlobal, readerGlobal, restA);
    SectionsRoundTrip(b, writerGlobal, readerGlobal, restB);
  }

  // ------------------------------------------------------------------
  // The count in front of a section
  // ------------------------------------------------------------------

  /** The number of cells below n that are not air. */
  function NonAir(c: PalettedContainer, n: nat): (k: nat)
    requires Denotable(c) && n <= STATES
    ensures k <= n
  {
    if n == 0 then 0
    else NonAir(c, n - 1) + (if IdAt(c, n - 1) != 0 then 1 else 0)
  }

  lemma {:induction false} NonAirOfUniform(c: PalettedContainer, n: nat)
    requires Denotable(c) && |c.palette| == 1 && n <= STATES
    ensures NonAir(c, n) == if c.palette[0] != 0 then n else 0
  {
    if n > 0 {
      NonAirOfUniform(c, n - 1);
    }
  }

  /** The cells below n with index 0 that are not air: counted as air. */
  function Missed(c: PalettedContainer, n: nat): nat
    requires Denotable(c) && c.states != [] && n <= STATES
  {
    if n == 0 then 0
    else Missed(c, n - 1) + (if c.states[n - 1] == 0 && IdAt(c, n - 1) != 0 then 1 else 0)
  }

  /** The cells below n with another index that are air: counted as blocks. */
  function Overcounted(c: PalettedContainer, n: nat): nat
    requires Denotable(c) && c.states != [] && n <= STATES
  {
    if n == 0 then 0
    else Overcounted(c, n - 1) + (if c.states[n - 1] != 0 && IdAt(c, n - 1) == 0 then 1 else 0)
  }

  lemma {:induction false} CountBalance(c: PalettedContainer, n: nat)
    requires Denotable(c) && c.states != [] && n <= STATES
    ensures NonZero(c.states[..n]) + Missed(c, n) == NonAir(c, n) + Overcounted(c, n)
  {
    if n > 0 {
      CountBalance(c, n - 1);
      assert c.states[..n][..n - 1] == c.states[..n - 1];
    }
  }

  /** The documented meaning of the count, the number of blocks other than air: it never
      holds for a single-valued section, and for the others exactly when as many cells
      with index 0 are not air as cells with another index are. */
  lemma BlockCountIsNonAir(c: PalettedContainer)
    requires Denotable(c) && (|c.palette| != 1 ==> c.states != [])
    ensures |c.palette| == 1 ==> BlockCount(c) != NonAir(c, STATES)
    ensures |c.palette| != 1 ==>
              (BlockCount(c) == NonAir(c, STATES) <==> Missed(c, STATES) == Overcounted(c, STATES))
  {
    if |c.palette| == 1 {
      NonAirOfUniform(c, STATES);
    } else {
      CountBalance(c, STATES);
    }
  }

  lemma {:induction false} NoMismatch(c: PalettedContainer, n: nat)
    requires Denotable(c) && c.states != [] && n <= STATES
    requires forall k :: 0 <= k < |c.palette| ==> (c.palette[k] == 0 <==> k == 0)
    ensures Missed(c, n) == 0 == Overcounted(c, n)
  {
    if n > 0 {
      NoMismatch(c, n - 1);
    }
  }

  /** In particular it holds with air first in a palette of several entries. */
  lemma AirFirstIsCounted(c: PalettedContainer)
    requires Denotable(c) && c.states != [] && |c.palette| != 1
    requires forall k :: 0 <= k < |c.palette| ==> (c.palette[k] == 0 <==> k == 0)
    ensures BlockCount(c) == NonAir(c, STATES)
  {
    NoMismatch(c, STATES);
    BlockCountIsNonAir(c);
  }

  lemma {:induction false} AllIndexZero(c: PalettedContainer, n: nat)
    requires Denotable(c) && c.states != [] && c.palette != [] && c.palette[0] != 0 && n <= STATES
    requires forall i :: 0 <= i < STATES ==> c.states[i] == 0
    ensures NonZero(c.states[..n]) == 0 && NonAir(c, n) == n
  {
    if n > 0 {
      AllIndexZero(c, n - 1);
      assert c.states[..n][..n - 1] == c.states[..n - 1];
    }
  }

  /** A section full of block 7, listed before air: the count says it is empty. */
  lemma FullSectionCountedEmpty()
    ensures var c := PalettedContainer([7, 0], Zeros(STATES));
            Denotable(c) && BlockCount(c) == 0 && NonAir(c, STATES) == STATES
  {
    var c := PalettedContainer([7, 0], Zeros(STATES));
    AllIndexZero(c, STATES);
  }

  // ------------------------------------------------------------------
  // Writing
  // ------------------------------------------------------------------

  method CountBlocks(c: PalettedContainer) returns (nonAir: nat)
    requires |c.palette| != 1 ==> |c.states| >= STATES
    ensures nonAir == BlockCount(c)
  {
    nonAir := 0;
    if |c.palette| == 1 {
      nonAir := if c.palette[0] == 0 then STATES else 0;
    } else {
      for j := 0 to STATES
        invariant nonAir == NonZero(c.states[..j])
      {
        assert c.states[..j + 1][..j] == c.states[..j];
        if c.states[j] != 0 {
          nonAir := nonAir + 1;
        }
      }
    }
  }

  lemma {:induction false} EncodeSectionsAppend(sections: seq<PalettedContainer>, c: PalettedContainer, global: nat)
    requires AllWritable(sections, global) && Writable(c, global)
    ensures EncodeSections(sections + [c], global) == EncodeSections(sections, global) + EncodeSection(c, global)
  {
    hide EncodeSection, Writable;
    if sections == [] {
      assert (sections + [c])[1..] == [];
    } else {
      EncodeSectionsAppend(sections[1..], c, global);
      assert (sections + [c])[1..] == sections[1..] + [c];
    }
  }

  method WriteSections(sections: seq<PalettedContainer>, global: nat) returns (data: array<Byte>, offset: nat)
    requires AllWritable(sections, global)
    requires forall i :: 0 <= i < |sections| ==> PaletteRoom(sections[i])
    ensures fresh(data) && offset <= data.Length
    ensures data[..offset] == EncodeSections(sections, global)
  {
    hide Writable, PaletteRoom, EncodeSections, EncodeSection, Splice;
    offset := 0;
    data := new Byte[2];
    NoSectionBytes(global);
    for i := 0 to |sections|
      invariant fresh(data)
      invariant offset + 2 <= data.Length
      invariant data[..offset] == EncodeSections(sections[..i], global)
    {
      assert sections[..i + 1] == sections[..i] + [sections[i]];
      EncodeSectionsAppend(sections[..i], sections[i], global);
      data, offset := WriteSection(data, offset, sections[i], global);
    }
    assert sections[..|sections|] == sections;
  }

  lemma NoSectionBytes(global: nat)
    ensures EncodeSections([], global) == []
  {
  }

  /** One round of the writer's loop: the count goes into the two bytes kept free at
      the end, and the grown buffer keeps two bytes free for the next round. */
  method WriteSection(buff: array<Byte>, at: nat, c: PalettedContainer, global: nat)
    returns (data: array<Byte>, end: nat)
    requires Writable(c, global) && PaletteRoom(c)
    requires at + 2 <= buff.Length
    modifies buff
    ensures fresh(data)
    ensures end + 2 <= data.Length
    ensures data[..end] == old(buff[..at]) + EncodeSection(c, global)
  {
    hide EncodeContainer, PaletteRoom, Splice, BigEndian;
    assert |c.palette| != 1 ==> |c.states| >= STATES;
    var nonAir := CountBlocks(c);
    var w := WriteBigEndianShort(buff, at, nonAir);
    end := at + w;
    ghost var head := buff[..end];
    var blocks, blocksLen := WritePalettedContainer(c, global);
    BiomesHaveRoom();
    var biomes, biomesLen := WritePalettedContainer(EMPTY_BIOMES, global);
    data, end := AppendContainers(buff, end, blocks[..blocksLen], biomes[..biomesLen]);
    assert data[..end] == head + EncodeContainer(c, global) + EncodeContainer(EMPTY_BIOMES, global);
  }

  method AppendContainers(buff: array<Byte>, at: nat, blocks: seq<Byte>, biomes: seq<Byte>)
    returns (data: array<Byte>, end: nat)
    requires at <= buff.Length
    ensures fresh(data)
    ensures end + 2 == data.Length
    ensures data[..end] == buff[..at] + blocks + biomes
  {
    hide Splice;
    data := Realloc(buff, at + |blocks| + |biomes| + 2, at);
    Memcpy(data, at, blocks);
    Memcpy(data, at + |blocks|, biomes);
    end := at + |blocks| + |biomes|;
  }

  lemma BiomesHaveRoom()
    ensures PaletteRoom(EMPTY_BIOMES)
  {
  }
}
