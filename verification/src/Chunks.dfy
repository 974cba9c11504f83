// Sending the map to a player chunk by chunk, and what the player's client sees.
module Chunks {
  import opened Words
  import opened Bytes
  import opened Container
  import opened Sections
  import opened MapStore
  import opened Region

  /** The sections of a chunk packet. */
  const SECTION_MAX := 24

  /** startPlay passes 0 as the size of the global palette. */
  const NO_GLOBAL := 0

  datatype ChunkPacket = ChunkPacket(x: nat, z: nat, sections: seq<Byte>)

  /** A palette every section can be written with: it has entries, fewer than the
      direct layout would take over at, and they fit the writer's buffer. */
  predicate Sendable(palette: seq<Int32>)
  {
    1 <= |palette| <= 255 && PaletteRoom(PalettedContainer(palette, []))
  }

  ghost predicate IsSection(m: Map, chunkX: nat, chunkZ: nat, number: nat, c: PalettedContainer)
    requires m.Valid() && chunkX < m.width / 16 && chunkZ < m.length / 16
    reads m, m.blocks
  {
    if number >= m.height / 16 then c == PalettedContainer([0], [])
    else
      GuardAdmitsOneChunkMore(m, chunkX, chunkZ, number);
      c.palette == m.palette && m.Holds(c.states, chunkX, chunkZ, number)
  }

  /** The packet carries every section of its chunk. */
  ghost predicate Carries(m: Map, p: ChunkPacket, sections: seq<PalettedContainer>)
    requires m.Valid()
    reads m, m.blocks
  {
    p.x < m.width / 16 && p.z < m.length / 16
    && |sections| == SECTION_MAX
    && (forall n :: 0 <= n < SECTION_MAX ==> IsSection(m, p.x, p.z, n, sections[n]))
    && AllWritable(sections, NO_GLOBAL)
    && p.sections == EncodeSections(sections, NO_GLOBAL)
  }

  /** The packets of the chunk loop: one for every whole chunk of the map. */
  ghost predicate IsChunkLoop(m: Map, packets: seq<ChunkPacket>)
    requires m.Valid()
    reads m, m.blocks
  {
    |packets| == Times(m.width / 16, m.length / 16)
    && forall x, z :: 0 <= x < m.width / 16 && 0 <= z < m.length / 16 ==> PacketAt(m, packets, x, z)
  }

  ghost predicate PacketAt(m: Map, packets: seq<ChunkPacket>, x: nat, z: nat)
    requires m.Valid()
    reads m, m.blocks
  {
    var k := Times(x, m.length / 16) + z;
    k < |packets| && packets[k].x == x && packets[k].z == z
    && exists sections :: Carries(m, packets[k], sections)
  }

  method SendChunk(m: Map, chunkX: nat, chunkZ: nat) returns (p: ChunkPacket)
    requires m.Valid() && Sendable(m.palette)
    requires chunkX < m.width / 16 && chunkZ < m.length / 16
    ensures p.x == chunkX && p.z == chunkZ
    ensures exists sections :: Carries(m, p, sections)
  {
    hide PaletteRoom, EncodeSections;
    var sections: seq<PalettedContainer> := [];
    for i := 0 to SECTION_MAX
      invariant |sections| == i
      invariant forall n :: 0 <= n < i ==> IsSection(m, chunkX, chunkZ, n, sections[n])
      invariant forall n :: 0 <= n < i ==> Writable(sections[n], NO_GLOBAL) && PaletteRoom(sections[n])
    {
      if i < m.height / 16 {
        GuardAdmitsOneChunkMore(m, chunkX, chunkZ, i);
      }
      var c := m.GetSection(chunkX, chunkZ, i);
      SectionCanBeWritten(m, chunkX, chunkZ, i, c.value);
      sections := sections + [c.value];
    }
    var data, len := WriteSections(sections, NO_GLOBAL);
    p := ChunkPacket(chunkX, chunkZ, data[..len]);
    assert Carries(m, p, sections);
  }

  /** Without a global palette the writer has a layout for exactly the palettes of 1 to
      255 entries; with any other it falls through to the direct one, whose field width
      is the logarithm of 0. */
  lemma WritableWithoutGlobal(c: PalettedContainer)
    requires |c.palette| == 1 || |c.states| >= STATES
    ensures Writable(c, NO_GLOBAL) <==> 1 <= |c.palette| <= 255
  {
  }

  /** So every section inside a map can be written or none can. */
  lemma MapWritable(m: Map, chunkX: nat, chunkZ: nat, number: nat, c: PalettedContainer)
    requires m.Valid() && chunkX < m.width / 16 && chunkZ < m.length / 16 && number < m.height / 16
    requires IsSection(m, chunkX, chunkZ, number, c)
    ensures Writable(c, NO_GLOBAL) <==> 1 <= |m.palette| <= 255
  {
    GuardAdmitsOneChunkMore(m, chunkX, chunkZ, number);
    WritableWithoutGlobal(c);
  }

  lemma SectionCanBeWritten(m: Map, chunkX: nat, chunkZ: nat, number: nat, c: PalettedContainer)
    requires m.Valid() && Sendable(m.palette)
    requires chunkX < m.width / 16 && chunkZ < m.length / 16 && IsSection(m, chunkX, chunkZ, number, c)
    ensures Writable(c, NO_GLOBAL) && PaletteRoom(c)
  {
  }

  lemma PacketKept(m: Map, packets: seq<ChunkPacket>, p: ChunkPacket, x: nat, z: nat)
    requires m.Valid() && PacketAt(m, packets, x, z)
    ensures PacketAt(m, packets + [p], x, z)
  {
    hide Carries;
    var k := Times(x, m.length / 16) + z;
    assert (packets + [p])[k] == packets[k];
  }

  method SendChunks(m: Map) returns (packets: seq<ChunkPacket>)
    requires m.Valid() && Sendable(m.palette)
    ensures IsChunkLoop(m, packets)
  {
    hide Times, Sendable, Carries;
    var chunkWidth := m.width / 16;
    var chunkLength := m.length / 16;
    packets := [];
    TimesStep(0, chunkLength);
    for chunkX := 0 to chunkWidth
      invariant |packets| == Times(chunkX, chunkLength)
      invariant forall x, z :: 0 <= x < chunkX && 0 <= z < chunkLength ==> PacketAt(m, packets, x, z)
    {
      TimesStep(chunkX, chunkLength);
      for chunkZ := 0 to chunkLength
        invariant |packets| == Times(chunkX, chunkLength) + chunkZ
        invariant forall x, z :: 0 <= x < chunkX && 0 <= z < chunkLength ==> PacketAt(m, packets, x, z)
        invariant forall z :: 0 <= z < chunkZ ==> PacketAt(m, packets, chunkX, z)
      {
        var p := SendChunk(m, chunkX, chunkZ);
        forall x, z | 0 <= x <= chunkX && 0 <= z < chunkLength && PacketAt(m, packets, x, z)
          ensures PacketAt(m, packets + [p], x, z)
        {
          PacketKept(m, packets, p, x, z);
        }
        packets := packets + [p];
      }
    }
  }

  lemma NoColumns(n: nat)
    ensures Times(n, 0) == 0
  {
  }

  /** No chunk is sent twice. */
  lemma EachChunkOnce(m: Map, packets: seq<ChunkPacket>, k: nat)
    requires m.Valid() && IsChunkLoop(m, packets) && k < |packets|
    ensures packets[k].x < m.width / 16 && packets[k].z < m.length / 16
    ensures k == Times(packets[k].x, m.length / 16) + packets[k].z
  {
    var l := m.length / 16;
    NoColumns(m.width / 16);
    var x, z := k / l, k % l;
    assert k == x * l + z;
    assert x < m.width / 16 by {
      if x >= m.width / 16 {
        TimesMonotonic(m.width / 16, x, l);
      }
    }
    DivNonNegative(k, l);
    assert PacketAt(m, packets, x, z);
  }

  // ------------------------------------------------------------------
  // The client's view
  // ------------------------------------------------------------------

  /** A client whose global palette knows every id of the map, and which accepts every
      index into its palette (the reader compares those with the same limit). */
  predicate KnownIds(palette: seq<Int32>, clientGlobal: nat)
  {
    GlobalSize(clientGlobal) && |palette| <= clientGlobal + 1
    && forall k :: 0 <= k < |palette| ==> 0 <= palette[k] <= clientGlobal
  }

  /** The id of cell i of a section of the map; air above the map. */
  ghost function MapIdAt(m: Map, chunkX: nat, chunkZ: nat, number: nat, i: nat): Int32
    requires m.Valid() && m.Indexed() && chunkX < m.width / 16 && chunkZ < m.length / 16 && i < STATES
    reads m, m.blocks
  {
    if number >= m.height / 16 then 0
    else
      GuardAdmitsOneChunkMore(m, chunkX, chunkZ, number);
      StateIndexOfCell(i);
      m.palette[m.blocks[chunkX * 16 + CellX(i), number * 16 + CellY(i), chunkZ * 16 + CellZ(i)]]
  }

  /** A section of the map survives the trip to the client, cell by cell. */
  lemma SectionSurvives(m: Map, chunkX: nat, chunkZ: nat, number: nat, c: PalettedContainer, clientGlobal: nat)
    requires m.Valid() && m.Indexed() && Sendable(m.palette) && KnownIds(m.palette, clientGlobal)
    requires chunkX < m.width / 16 && chunkZ < m.length / 16 && IsSection(m, chunkX, chunkZ, number, c)
    ensures Meaningful(c, NO_GLOBAL, clientGlobal)
    ensures Denotable(Received(c, NO_GLOBAL, clientGlobal))
    ensures forall i :: 0 <= i < STATES ==>
              IdAt(Received(c, NO_GLOBAL, clientGlobal), i) == MapIdAt(m, chunkX, chunkZ, number, i)
  {
    hide Pow2, Received, PaletteRoom, PaletteBits;
    SectionIds(m, chunkX, chunkZ, number, c);
    assert OwnPalette(c) ==> Storable(c.states, PaletteBits(|c.palette|), Min(|c.palette|, clientGlobal));
    IdsSurvive(c, NO_GLOBAL, clientGlobal);
  }

  lemma SectionIds(m: Map, chunkX: nat, chunkZ: nat, number: nat, c: PalettedContainer)
    requires m.Valid() && m.Indexed() && m.palette != []
    requires chunkX < m.width / 16 && chunkZ < m.length / 16 && IsSection(m, chunkX, chunkZ, number, c)
    ensures Denotable(c)
    ensures forall i :: 0 <= i < STATES ==> IdAt(c, i) == MapIdAt(m, chunkX, chunkZ, number, i)
  {
    if number < m.height / 16 {
      GuardAdmitsOneChunkMore(m, chunkX, chunkZ, number);
      CellsInRange();
      forall i | 0 <= i < STATES
        ensures 0 <= c.states[i] < |m.palette|
        ensures c.states[i] == m.blocks[chunkX * 16 + CellX(i), number * 16 + CellY(i), chunkZ * 16 + CellZ(i)]
      {
        assert c.states[i] == m.CellState(chunkX, chunkZ, number, i);
      }
    }
  }

  /** The client's view of one chunk packet: all sections decode, nothing is left over,
      and every cell shows the id the map has there. */
  lemma ChunkShowsMap(m: Map, p: ChunkPacket, clientGlobal: nat)
    requires m.Valid() && m.Indexed() && Sendable(m.palette) && KnownIds(m.palette, clientGlobal)
    requires exists sections :: Carries(m, p, sections)
    ensures p.x < m.width / 16 && p.z < m.length / 16
    ensures var r := DecodeSections(p.sections, 24, clientGlobal);
            r.Got? && r.rest == [] && |r.value| == 24
            && forall n, i :: 0 <= n < 24 && 0 <= i < STATES ==>
                 Denotable(r.value[n].blocks) && IdAt(r.value[n].blocks, i) == MapIdAt(m, p.x, p.z, n, i)
  {
    var sections :| Carries(m, p, sections);
    hide DecodeSections, EncodeSections, Received, Meaningful, IsSection, MapIdAt, IdAt, Denotable;
    hide Sendable, KnownIds, Writable;
    forall n | 0 <= n < SECTION_MAX
      ensures Meaningful(sections[n], NO_GLOBAL, clientGlobal)
      ensures Denotable(Received(sections[n], NO_GLOBAL, clientGlobal))
      ensures forall i :: 0 <= i < STATES ==>
                IdAt(Received(sections[n], NO_GLOBAL, clientGlobal), i) == MapIdAt(m, p.x, p.z, n, i)
    {
      SectionSurvives(m, p.x, p.z, n, sections[n], clientGlobal);
    }
    SectionsRoundTrip(sections, NO_GLOBAL, clientGlobal, []);
    assert p.sections == p.sections + [];
  }

  lemma CellShown(m: Map, p: ChunkPacket, clientGlobal: nat, n: nat, i: nat)
    requires m.Valid() && m.Indexed() && Sendable(m.palette) && KnownIds(m.palette, clientGlobal)
    requires (exists sections :: Carries(m, p, sections)) && n < 24 && i < STATES
    ensures p.x < m.width / 16 && p.z < m.length / 16 && GlobalSize(clientGlobal)
    ensures var r := DecodeSections(p.sections, 24, clientGlobal);
            r.Got? && r.rest == [] && |r.value| == 24
            && Denotable(r.value[n].blocks) && IdAt(r.value[n].blocks, i) == MapIdAt(m, p.x, p.z, n, i)
  {
    hide DecodeSections, Carries, Sendable, MapIdAt, IdAt, Denotable;
    ChunkShowsMap(m, p, clientGlobal);
    var shown := DecodeSections(p.sections, 24, clientGlobal).value[n].blocks;
    assert Denotable(shown) && IdAt(shown, i) == MapIdAt(m, p.x, p.z, n, i);
  }

  lemma LoopPacket(m: Map, packets: seq<ChunkPacket>, chunkX: nat, chunkZ: nat)
    requires m.Valid() && IsChunkLoop(m, packets) && chunkX < m.width / 16 && chunkZ < m.length / 16
    ensures var k := chunkX * (m.length / 16) + chunkZ;
            0 <= k < |packets| && packets[k].x == chunkX && packets[k].z == chunkZ
            && exists sections :: Carries(m, packets[k], sections)
  {
    hide Carries;
    assert PacketAt(m, packets, chunkX, chunkZ);
  }

  /** Of a map that is `length` chunks long, the packet of the chunk of cell (x, y, z):
      its bytes decode to 24 sections with nothing left over, and the cell has the id in
      the section of its row. */
  predicate ClientShows(packets: seq<ChunkPacket>, length: nat, clientGlobal: nat, x: nat, y: nat, z: nat, id: Int32)
  {
    var k := x / 16 * length + z / 16;
    GlobalSize(clientGlobal) && y < 16 * 24 && 0 <= k < |packets|
    && packets[k].x == x / 16 && packets[k].z == z / 16
    && var r := DecodeSections(packets[k].sections, 24, clientGlobal);
       r.Got? && r.rest == [] && |r.value| == 24
       && Denotable(r.value[y / 16].blocks)
       && IdAt(r.value[y / 16].blocks, y % 16 * 256 + z % 16 * 16 + x % 16) == id
  }

  /** End to end: the bytes the chunk loop sends, decoded by the client, agree with
      getBlock in every whole chunk and every row the packets have room for. */
  lemma ClientSeesMap(m: Map, packets: seq<ChunkPacket>, clientGlobal: nat, x: nat, y: nat, z: nat)
    requires m.Valid() && m.Indexed() && Sendable(m.palette) && KnownIds(m.palette, clientGlobal)
    requires IsChunkLoop(m, packets)
    requires x / 16 < m.width / 16 && z / 16 < m.length / 16
    requires y < 16 * Min(24, m.height / 16)
    ensures m.GetBlock(x, y, z).Some? && 0 <= m.GetBlock(x, y, z).value < |m.palette|
    ensures ClientShows(packets, m.length / 16, clientGlobal, x, y, z,
                        m.palette[m.GetBlock(x, y, z).value])
  {
    hide DecodeSections, KnownIds, Sendable, MapIdAt, IdAt, Denotable, Carries, IndexInSection, IsChunkLoop;
    CellNumber(x, y, z);
    LoopPacket(m, packets, x / 16, z / 16);
    var p := packets[x / 16 * (m.length / 16) + z / 16];
    CellShown(m, p, clientGlobal, y / 16, IndexInSection(x, y, z));
    MapIdIsBlock(m, x, y, z);
  }

  lemma MapIdIsBlock(m: Map, x: nat, y: nat, z: nat)
    requires m.Valid() && m.Indexed()
    requires x / 16 < m.width / 16 && y / 16 < m.height / 16 && z / 16 < m.length / 16
    ensures m.GetBlock(x, y, z).Some? && 0 <= m.GetBlock(x, y, z).value < |m.palette|
    ensures MapIdAt(m, x / 16, z / 16, y / 16, IndexInSection(x, y, z)) == m.palette[m.GetBlock(x, y, z).value]
  {
    hide StateIndex, CellX, CellY, CellZ;
    GuardAdmitsOneChunkMore(m, x / 16, z / 16, y / 16);
    assert x / 16 * 16 + x % 16 == x && y / 16 * 16 + y % 16 == y && z / 16 * 16 + z % 16 == z;
  }

  lemma LoadedIsIndexed(m: Map, raw: seq<RawChunk>)
    requires RegionShape(m) && Loadable(raw) && Loaded(m, raw, REGION_SIZE, 0, 0)
    requires m.palette != []
    ensures m.Indexed()
  {
    hide LoadedSource, IndexInSection, PaletteLoaded;
    forall x, y, z | 0 <= x < m.width && 0 <= y < m.height && 0 <= z < m.length
      ensures 0 <= m.blocks[x, y, z] < |m.palette|
    {
      assert CellLoaded(m.palette, m.blocks[x, y, z], LoadedSource(raw, x, y, z, REGION_SIZE, 0, 0),
                        IndexInSection(x, y, z));
    }
  }

  /** Cell (x, y, z) lies in section y / 16 - 4 of entry x / 16 + 32 (z / 16) of the table,
      has a nonzero index there, and the palette of that section gives the index this id. */
  predicate HasId(raw: seq<RawChunk>, x: nat, y: nat, z: nat, id: Int32)
    requires Loadable(raw)
  {
    x < 256 && y < 320 && z < 256
    && var entry := raw[x / 16 + 32 * (z / 16)];
       entry.Some? && 4 <= y / 16 < |entry.value|
       && var c, i := entry.value[y / 16 - 4], y % 16 * 256 + z % 16 * 16 + x % 16;
          LocalIndex(c, i) != 0 && c.palette[LocalIndex(c, i)] == id
  }

  lemma HasIdLoaded(m: Map, raw: seq<RawChunk>, x: nat, y: nat, z: nat, id: Int32)
    requires RegionShape(m) && Loadable(raw) && Loaded(m, raw, REGION_SIZE, 0, 0) && HasId(raw, x, y, z, id)
    ensures 0 <= m.blocks[x, y, z] < |m.palette| && m.palette[m.blocks[x, y, z]] == id
  {
    hide Loaded, LocalIndex, Loadable;
    LoadedIsPlaced(m, raw);
    assert CellPlaced(m, raw, x, y, z);
  }

  /** The region is loaded, and its map was sent to a client that knows its ids. */
  ghost predicate Served(m: Map, raw: seq<RawChunk>, packets: seq<ChunkPacket>, clientGlobal: nat)
    requires Loadable(raw)
    reads m, m.blocks
  {
    RegionShape(m) && Loaded(m, raw, REGION_SIZE, 0, 0)
    && Sendable(m.palette) && KnownIds(m.palette, clientGlobal)
    && IsChunkLoop(m, packets)
  }

  /** From the sections of a region to the client's screen: a cell with a nonzero local
      index shows the id its section gives it. */
  lemma RegionReachesClient(m: Map, raw: seq<RawChunk>, packets: seq<ChunkPacket>, clientGlobal: nat,
                            x: nat, y: nat, z: nat, id: Int32)
    requires Loadable(raw) && Served(m, raw, packets, clientGlobal)
    requires HasId(raw, x, y, z, id)
    ensures ClientShows(packets, 16, clientGlobal, x, y, z, id)
  {
    hide ClientShows, IsChunkLoop, KnownIds, Loaded, Loadable;
    LoadedIsIndexed(m, raw);
    HasIdLoaded(m, raw, x, y, z, id);
    ClientSeesMap(m, packets, clientGlobal, x, y, z);
  }

  lemma UnpackedHasId(file: seq<StoredChunk>, chunks: seq<RawChunk>, x: nat, y: nat, z: nat, id: Int32)
    requires Loadable(chunks) && HasId(chunks, x, y, z, id) && StoresAll(file, chunks)
    ensures StoredPalettes(file) && Loadable(UnpackedRegion(file)) && HasId(UnpackedRegion(file), x, y, z, id)
  {
    hide UnpackedRegion, StoresAll, LocalIndex;
    UnpackedAt(file, chunks, x / 16 + 32 * (z / 16), y / 16 - 4);
  }

  /** The file stores chunks that have the id there. */
  ghost predicate FileHasId(file: seq<StoredChunk>, x: nat, y: nat, z: nat, id: Int32)
  {
    exists chunks | Loadable(chunks) :: StoresAll(file, chunks) && HasId(chunks, x, y, z, id)
  }

  /** With the unpacking composed in: of a file that stores some chunks as region files
      store them, the loader's map shows the client, in every cell with a nonzero index,
      the id that index has in the palette of its section. */
  lemma FileReachesClient(m: Map, file: seq<StoredChunk>, raw: seq<RawChunk>, packets: seq<ChunkPacket>,
                          clientGlobal: nat, x: nat, y: nat, z: nat, id: Int32)
    requires StoredPalettes(file) && raw == UnpackedRegion(file)
    requires Loadable(raw) && Served(m, raw, packets, clientGlobal)
    requires FileHasId(file, x, y, z, id)
    ensures ClientShows(packets, 16, clientGlobal, x, y, z, id)
  {
    hide ClientShows, Served, UnpackedRegion, StoresAll, HasId, Loadable;
    var chunks :| Loadable(chunks) && StoresAll(file, chunks) && HasId(chunks, x, y, z, id);
    UnpackedHasId(file, chunks, x, y, z, id);
    RegionReachesClient(m, raw, packets, clientGlobal, x, y, z, id);
  }

  /** Unpack a file, load it, send its map: everything the theorem needs holds once the
      palette of the loaded map can be sent. */
  method ServeRegion(file: seq<StoredChunk>, ghost chunks: seq<RawChunk>) returns (m: Map, packets: seq<ChunkPacket>)
    requires Loadable(chunks) && StoresAll(file, chunks) && NothingAbove(chunks)
    ensures StoredPalettes(file) && Loadable(UnpackedRegion(file))
    ensures fresh(m) && RegionShape(m) && Loaded(m, UnpackedRegion(file), REGION_SIZE, 0, 0)
    ensures Sendable(m.palette) ==> IsChunkLoop(m, packets)
  {
    hide Sendable, Loaded, NothingAbove, UnpackedRegion, StoresAll;
    UnpackedNothingAbove(file, chunks);
    var raw := UnpackFile(file);
    m := LoadRegion(raw);
    packets := [];
    if Sendable(m.palette) {
      packets := SendChunks(m);
    }
  }
}
