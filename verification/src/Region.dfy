// Loading a region file: unpacking the sections of each chunk, merging their
// palettes into the palette of the map, and placing their blocks.
module Region {
  import opened Words
  import opened Bytes
  import opened Packed
  import opened Container
  import opened MapStore

  // ------------------------------------------------------------------
  // Unpacking the block data of a section
  // ------------------------------------------------------------------

  /** What the unpack loop leaves in its array: the first 4096 fields, then zeros. */
  function RegionStates(longs: seq<nat>, paletteSize: nat): (states: seq<Int32>)
    requires 1 <= paletteSize <= EXACT_LOG
  {
    RegionBits(paletteSize);
    var fields := Unpack(longs, PaletteBits(paletteSize));
    if |fields| <= STATES then fields else fields[..STATES] + Zeros(|fields| - STATES)
  }

  lemma RegionBits(paletteSize: nat)
    requires 1 <= paletteSize <= EXACT_LOG
    ensures 4 <= PaletteBits(paletteSize) <= 30
  {
    if paletteSize == 1 {
      CeilLog2Bound(1, 0);
    } else {
      GlobalBits(paletteSize);
    }
  }

  method UnpackStates(longs: seq<nat>, paletteSize: nat) returns (states: array<Int32>)
    requires 1 <= paletteSize <= EXACT_LOG
    ensures fresh(states) && states[..] == RegionStates(longs, paletteSize)
  {
    hide Field, Unpack, UnpackLong, PaletteBits, PerLong, Times, BitAnd, Shl, Shr, Pow2;
    RegionBits(paletteSize);
    var l := PaletteBits(paletteSize);
    var numPerLong := PerLong(l);
    UnpackLength(longs, l);
    ghost var fields := Unpack(longs, l);
    states := new Int32[Times(numPerLong, |longs|)](_ => 0);
    TimesCommutes(numPerLong, |longs|);
    TimesStep(0, numPerLong);
    var m := 0;
    for a := 0 to |longs|
      invariant Times(a, numPerLong) <= states.Length == |fields|
      invariant m == Min(Times(a, numPerLong), STATES)
      invariant states[..m] == fields[..m]
      invariant forall i :: m <= i < states.Length ==> states[i] == 0
    {
      TimesStep(a, numPerLong);
      TimesMonotonic(a + 1, |longs|, numPerLong);
      m := UnpackLongInto(longs, a, numPerLong, l, states, m);
    }
  }

  lemma TimesCommutes(a: nat, b: nat)
    ensures Times(a, b) == Times(b, a)
  {
  }

  /** Field n of long a is field a * perLong + n of them all. */
  lemma {:induction false} UnpackAt(longs: seq<nat>, bpe: nat, a: nat, n: nat)
    requires 1 <= bpe <= 31 && a < |longs| && n < PerLong(bpe)
    ensures Times(a, PerLong(bpe)) + n < |Unpack(longs, bpe)|
    ensures Unpack(longs, bpe)[Times(a, PerLong(bpe)) + n] == State(longs[a], n, bpe)
  {
    hide PerLong, Times, Field;
    TimesStep(0, PerLong(bpe));
    if a > 0 {
      UnpackAt(longs[1..], bpe, a - 1, n);
      TimesStep(a - 1, PerLong(bpe));
    }
  }

  method UnpackLongInto(longs: seq<nat>, a: nat, numPerLong: nat, l: nat, states: array<Int32>, start: nat)
    returns (m: nat)
    requires 1 <= l <= 30 && a < |longs| && numPerLong == PerLong(l)
    requires Times(a, numPerLong) + numPerLong <= states.Length == |Unpack(longs, l)|
    requires start == Min(Times(a, numPerLong), STATES)
    requires states[..start] == Unpack(longs, l)[..start]
    requires forall i :: start <= i < states.Length ==> states[i] == 0
    modifies states
    ensures m == Min(Times(a, numPerLong) + numPerLong, STATES)
    ensures states[..m] == Unpack(longs, l)[..m]
    ensures forall i :: m <= i < states.Length ==> states[i] == 0
  {
    hide Field, Unpack, PerLong, Times, BitAnd, Shl, Shr, Pow2;
    ghost var fields := Unpack(longs, l);
    var comp := longs[a];
    m := start;
    var b := 0;
    while b < numPerLong
      invariant 0 <= b <= numPerLong
      invariant m == Min(Times(a, numPerLong) + b, STATES)
      invariant states[..m] == fields[..m]
      invariant forall i :: m <= i < states.Length ==> states[i] == 0
    {
      if m >= STATES {
        break;
      }
      var bits := Times(b, l);
      MaskedLoad(comp, bits, l);
      UnpackAt(longs, l, a, b);
      assert fields[m] == State(comp, b, l);
      states[m] := Shr(BitAnd(Shl(Pow2(l) - 1, bits), comp), bits);
      assert states[..m + 1] == states[..m] + [fields[m]];
      m := m + 1;
      b := b + 1;
    }
  }

  /** Packed at the width the format gives the palette, whose indices all fit in it, the
      states come out of the unpack loop as they were. */
  lemma UnpackInvertsPack(states: seq<Int32>, paletteSize: nat, w: nat)
    requires 1 <= paletteSize <= EXACT_LOG && IsWidth(paletteSize, w)
    requires |states| == STATES && forall i :: 0 <= i < STATES ==> 0 <= states[i] < paletteSize
    ensures w <= 30
    ensures |RegionStates(PackLongs(states, w), paletteSize)| >= STATES
    ensures RegionStates(PackLongs(states, w), paletteSize)[..STATES] == states
  {
    hide Unpack, PackLongs, PaletteBits, Pow2, IsWidth;
    WidthOfPalette(paletteSize, w);
    RegionBits(paletteSize);
    UnpackOfPack(states, w);
  }

  // ------------------------------------------------------------------
  // Merging palettes
  // ------------------------------------------------------------------

  ghost predicate Distinct(palette: seq<Int32>)
  {
    forall i, j :: 0 <= i < j < |palette| ==> palette[i] != palette[j]
  }

  /** Where the search of the source finds an id, or the end of the palette. */
  method FindId(palette: seq<Int32>, id: Int32) returns (n: nat)
    ensures n <= |palette|
    ensures n < |palette| ==> palette[n] == id
    ensures n == |palette| ==> id !in palette
  {
    n := 0;
    while n < |palette|
      invariant n <= |palette|
      invariant id !in palette[..n]
    {
      if palette[n] == id {
        return;
      }
      n := n + 1;
    }
  }

  /** Merges a local palette into the one of the map and rewrites each local entry to
      its index there. Entries already in the palette of the map never move. */
  method MergePalette(m: Map, local: array<Int32>)
    requires Distinct(m.palette)
    requires |m.palette| + local.Length < 0x8000_0000
    modifies m`palette, local
    ensures old(m.palette) <= m.palette && |m.palette| <= |old(m.palette)| + local.Length
    ensures Distinct(m.palette)
    ensures forall id :: id in m.palette <==> id in old(m.palette) || id in old(local[..])
    ensures forall j :: 0 <= j < local.Length ==>
              0 <= local[j] < |m.palette| && m.palette[local[j]] == old(local[j])
  {
    for j := 0 to local.Length
      invariant old(m.palette) <= m.palette && |m.palette| <= |old(m.palette)| + j
      invariant Distinct(m.palette)
      invariant forall id :: id in m.palette <==> id in old(m.palette) || id in old(local[..])[..j]
      invariant forall k :: 0 <= k < j ==> 0 <= local[k] < |m.palette| && m.palette[local[k]] == old(local[k])
      invariant forall k :: j <= k < local.Length ==> local[k] == old(local[k])
    {
      var n := FindId(m.palette, local[j]);
      assert old(local[..])[..j + 1] == old(local[..])[..j] + [local[j]];
      if n == |m.palette| {
        m.palette := m.palette + [local[j]];
      }
      local[j] := n;
    }
    assert old(local[..])[..local.Length] == old(local[..]);
  }

  // ------------------------------------------------------------------
  // Placing blocks
  // ------------------------------------------------------------------

  const REGION_SIZE := 16
  const SECTION_OFFSET := 4
  const REGION_HEIGHT := 20

  /** Cell (x, y, z) lies in the given section. */
  predicate InSection(x: int, y: int, z: int, chunkX: nat, chunkZ: nat, row: nat)
  {
    x / 16 == chunkX && y / 16 == row && z / 16 == chunkZ
  }

  /** The index of cell (x, y, z) in its section. */
  function IndexInSection(x: nat, y: nat, z: nat): (i: nat)
    ensures i < STATES
  {
    StateIndex(x % 16, y % 16, z % 16)
  }

  /** Every cell with a nonzero local index lies below the given height. */
  predicate StoresInside(states: seq<Int32>, row: nat, height: nat)
  {
    forall i :: 0 <= i < Min(|states|, STATES) && states[i] != 0 ==> row * 16 + CellY(i) < height
  }

  /** Writes the rewritten index of every cell with a nonzero local index. */
  method PlaceBlocks(m: Map, chunkX: nat, chunkZ: nat, row: nat, states: seq<Int32>, local: array<Int32>)
    requires m.Valid() && chunkX * 16 + 16 <= m.width && chunkZ * 16 + 16 <= m.length
    requires StoresInside(states, row, m.height)
    requires |states| >= STATES && forall i :: 0 <= i < STATES ==> 0 <= states[i] < local.Length
    modifies m.blocks
    ensures forall x, y, z :: 0 <= x < m.width && 0 <= y < m.height && 0 <= z < m.length ==>
              m.blocks[x, y, z] ==
                if InSection(x, y, z, chunkX, chunkZ, row) && states[IndexInSection(x, y, z)] != 0
                then local[states[IndexInSection(x, y, z)]] else old(m.blocks[x, y, z])
  {
    for y := 0 to 16
      invariant forall px, py, pz :: 0 <= px < m.width && 0 <= py < m.height && 0 <= pz < m.length ==>
                  m.blocks[px, py, pz] ==
                    if InSection(px, py, pz, chunkX, chunkZ, row) && states[IndexInSection(px, py, pz)] != 0
                       && py % 16 < y
                    then local[states[IndexInSection(px, py, pz)]] else old(m.blocks[px, py, pz])
    {
      for x := 0 to 16
        invariant forall px, py, pz :: 0 <= px < m.width && 0 <= py < m.height && 0 <= pz < m.length ==>
                    m.blocks[px, py, pz] ==
                      if InSection(px, py, pz, chunkX, chunkZ, row) && states[IndexInSection(px, py, pz)] != 0
                         && (py % 16 < y || (py % 16 == y && px % 16 < x))
                      then local[states[IndexInSection(px, py, pz)]] else old(m.blocks[px, py, pz])
      {
        for z := 0 to 16
          invariant forall px, py, pz :: 0 <= px < m.width && 0 <= py < m.height && 0 <= pz < m.length ==>
                      m.blocks[px, py, pz] ==
                        if InSection(px, py, pz, chunkX, chunkZ, row) && states[IndexInSection(px, py, pz)] != 0
                           && (py % 16 < y || (py % 16 == y && (px % 16 < x || (px % 16 == x && pz % 16 < z))))
                        then local[states[IndexInSection(px, py, pz)]] else old(m.blocks[px, py, pz])
        {
          var block := states[StateIndex(x, y, z)];
          if block != 0 {
            m.blocks[x + chunkX * 16, y + row * 16, z + chunkZ * 16] := local[block];
          }
        }
      }
    }
  }

  // ------------------------------------------------------------------
  // The whole region
  // ------------------------------------------------------------------

  /** coordsToIndex: where the region file keeps a chunk. */
  function ChunkIndex(x: nat, z: nat): (i: nat)
    ensures i < 1024
  {
    x % 32 + z % 32 * 32
  }

  predicate RegionSection(c: PalettedContainer)
  {
    1 <= |c.palette| <= STATES
    && (c.states != [] ==>
          |c.states| >= STATES && forall i :: 0 <= i < STATES ==> 0 <= c.states[i] < |c.palette|)
  }

  type RawChunk = Option<seq<PalettedContainer>>

  /** Sections are numbered by a signed byte, from -4 on. */
  const MAX_SECTIONS := 132

  predicate Loadable(raw: seq<RawChunk>)
  {
    |raw| == 1024
    && forall k :: 0 <= k < 1024 && raw[k].Some? ==>
         |raw[k].value| <= MAX_SECTIONS
         && forall s :: 0 <= s < |raw[k].value| ==> RegionSection(raw[k].value[s])
  }

  /** The section of the file whose blocks belong in the given row of a chunk. */
  function SourceSection(raw: seq<RawChunk>, chunkX: nat, chunkZ: nat, row: nat): (r: Option<PalettedContainer>)
    requires Loadable(raw)
    ensures r.Some? ==> RegionSection(r.value)
  {
    var chunk := raw[ChunkIndex(chunkX, chunkZ)];
    if chunk.Some? && SECTION_OFFSET <= row < |chunk.value| then Some(chunk.value[row - SECTION_OFFSET]) else None
  }

  /** The local index of a cell; uniform sections have no states and count as index 0. */
  function LocalIndex(c: PalettedContainer, i: nat): (n: nat)
    requires RegionSection(c) && i < STATES
    ensures n < |c.palette|
  {
    if c.states == [] then 0 else c.states[i]
  }

  /** No cell of a section that goes into the given row is stored outside the map. */
  predicate SectionStaysInside(c: PalettedContainer, row: nat)
    requires RegionSection(c)
  {
    forall i :: 0 <= i < STATES && LocalIndex(c, i) != 0 ==> row * 16 + CellY(i) < REGION_HEIGHT * 16
  }

  /** Every store of the loader is inside the map. */
  predicate AllStoresInside(raw: seq<RawChunk>)
    requires Loadable(raw)
  {
    forall x, z, row :: 0 <= x < REGION_SIZE && 0 <= z < REGION_SIZE && 0 <= row < MAX_SECTIONS ==>
      SourceSection(raw, x, z, row).Some? ==> SectionStaysInside(SourceSection(raw, x, z, row).value, row)
  }

  predicate AllFirst(c: PalettedContainer)
    requires RegionSection(c)
  {
    forall i :: 0 <= i < STATES ==> LocalIndex(c, i) == 0
  }

  /** Above the rows of the map there are only cells with local index 0. */
  predicate NothingAbove(raw: seq<RawChunk>)
    requires Loadable(raw)
  {
    forall x, z, row :: 0 <= x < REGION_SIZE && 0 <= z < REGION_SIZE && REGION_HEIGHT <= row < MAX_SECTIONS ==>
      SourceSection(raw, x, z, row).Some? ==> AllFirst(SourceSection(raw, x, z, row).value)
  }

  lemma SectionStays(c: PalettedContainer, row: nat)
    requires RegionSection(c)
    ensures SectionStaysInside(c, row) <==> row < REGION_HEIGHT || AllFirst(c)
  {
    hide LocalIndex;
    CellsInRange();
    if row < REGION_HEIGHT {
      assert row * 16 + 16 <= REGION_HEIGHT * 16;
    }
  }

  /** Whatever the number of sections, the loader stores outside the map exactly when
      a cell destined for a row above it has a nonzero local index. */
  lemma StoresInsideIff(raw: seq<RawChunk>)
    requires Loadable(raw)
    ensures AllStoresInside(raw) <==> NothingAbove(raw)
  {
    hide SourceSection, SectionStaysInside, AllFirst, Loadable;
    forall x, z, row | 0 <= x < REGION_SIZE && 0 <= z < REGION_SIZE && 0 <= row < MAX_SECTIONS
      && SourceSection(raw, x, z, row).Some?
      ensures var c := SourceSection(raw, x, z, row).value;
              SectionStaysInside(c, row) <==> row < REGION_HEIGHT || AllFirst(c)
    {
      SectionStays(SourceSection(raw, x, z, row).value, row);
    }
  }

  // ------------------------------------------------------------------
  // What the unpacking makes of a file
  // ------------------------------------------------------------------

  /** A section in the file: its palette and, unless it is uniform, its packed states. */
  datatype StoredSection = StoredSection(palette: seq<Int32>, data: Option<seq<nat>>)

  type StoredChunk = Option<seq<StoredSection>>

  predicate StoredPalette(s: StoredSection)
  {
    1 <= |s.palette| <= STATES
  }

  function Unpacked(s: StoredSection): (c: PalettedContainer)
    requires StoredPalette(s)
  {
    PalettedContainer(s.palette, if s.data == None then [] else RegionStates(s.data.value, |s.palette|))
  }

  /** The file has this section: its states packed at the width of its palette. */
  ghost predicate Stores(s: StoredSection, c: PalettedContainer)
    requires RegionSection(c)
  {
    s.palette == c.palette
    && if c.states == [] then s.data == None
       else exists w :: 4 <= w <= 64 && IsWidth(|c.palette|, w) && s.data == Some(PackLongs(c.states[..STATES], w))
  }

  lemma UnpackedSame(s: StoredSection, c: PalettedContainer)
    requires RegionSection(c) && Stores(s, c)
    ensures StoredPalette(s) && RegionSection(Unpacked(s)) && Unpacked(s).palette == c.palette
    ensures forall i :: 0 <= i < STATES ==> LocalIndex(Unpacked(s), i) == LocalIndex(c, i)
  {
    hide PackLongs, PaletteBits, RegionStates, IsWidth;
    if c.states != [] {
      var w :| 4 <= w <= 64 && IsWidth(|c.palette|, w) && s.data == Some(PackLongs(c.states[..STATES], w));
      UnpackInvertsPack(c.states[..STATES], |c.palette|, w);
      var states := Unpacked(s).states;
      assert forall i :: 0 <= i < STATES ==> states[i] == states[..STATES][i] == c.states[..STATES][i] == c.states[i];
    }
  }

  predicate StoredPalettes(file: seq<StoredChunk>)
  {
    forall k :: 0 <= k < |file| && file[k].Some? ==>
      forall s :: 0 <= s < |file[k].value| ==> StoredPalette(file[k].value[s])
  }

  function UnpackedChunk(chunk: seq<StoredSection>): (r: seq<PalettedContainer>)
    requires forall s :: 0 <= s < |chunk| ==> StoredPalette(chunk[s])
    ensures |r| == |chunk|
  {
    seq(|chunk|, s requires 0 <= s < |chunk| => Unpacked(chunk[s]))
  }

  /** All the chunks of a file, as the loader gets them. */
  function UnpackedRegion(file: seq<StoredChunk>): (raw: seq<RawChunk>)
    requires StoredPalettes(file)
    ensures |raw| == |file|
  {
    seq(|file|, k requires 0 <= k < |file| =>
      if file[k] == None then None else Some(UnpackedChunk(file[k].value)))
  }

  /** The file has these chunks. */
  ghost predicate StoresAll(file: seq<StoredChunk>, chunks: seq<RawChunk>)
    requires Loadable(chunks)
  {
    |file| == |chunks|
    && forall k :: 0 <= k < |chunks| ==>
         if chunks[k] == None then file[k] == None
         else file[k].Some? && |file[k].value| == |chunks[k].value|
              && forall s :: 0 <= s < |chunks[k].value| ==> Stores(file[k].value[s], chunks[k].value[s])
  }

  lemma UnpackedLoadable(file: seq<StoredChunk>, chunks: seq<RawChunk>)
    requires Loadable(chunks) && StoresAll(file, chunks)
    ensures StoredPalettes(file) && Loadable(UnpackedRegion(file))
  {
    hide Unpacked, RegionSection, Stores, StoredPalette;
    forall k, s | 0 <= k < 1024 && file[k].Some? && 0 <= s < |file[k].value|
      ensures StoredPalette(file[k].value[s]) && RegionSection(Unpacked(file[k].value[s]))
    {
      UnpackedSame(file[k].value[s], chunks[k].value[s]);
    }
  }

  /** The loader gets the sections of the file, in their places. */
  lemma UnpackedAt(file: seq<StoredChunk>, chunks: seq<RawChunk>, k: nat, s: nat)
    requires Loadable(chunks) && StoresAll(file, chunks)
    requires k < 1024 && chunks[k].Some? && s < |chunks[k].value|
    ensures StoredPalettes(file) && Loadable(UnpackedRegion(file))
    ensures var raw := UnpackedRegion(file);
            raw[k].Some? && |raw[k].value| == |chunks[k].value|
            && raw[k].value[s].palette == chunks[k].value[s].palette
            && forall i :: 0 <= i < STATES ==> LocalIndex(raw[k].value[s], i) == LocalIndex(chunks[k].value[s], i)
  {
    hide Unpacked, RegionSection, LocalIndex, Stores, StoredPalette;
    UnpackedLoadable(file, chunks);
    UnpackedSame(file[k].value[s], chunks[k].value[s]);
  }

  lemma UnpackedSource(file: seq<StoredChunk>, chunks: seq<RawChunk>, chunkX: nat, chunkZ: nat, row: nat)
    requires Loadable(chunks) && StoresAll(file, chunks)
    ensures StoredPalettes(file) && Loadable(UnpackedRegion(file))
    ensures var r := SourceSection(UnpackedRegion(file), chunkX, chunkZ, row);
            var c := SourceSection(chunks, chunkX, chunkZ, row);
            (r.Some? <==> c.Some?)
            && (r.Some? ==> forall i :: 0 <= i < STATES ==> LocalIndex(r.value, i) == LocalIndex(c.value, i))
  {
    hide Unpacked, RegionSection, LocalIndex, Stores, StoredPalette, ChunkIndex;
    UnpackedLoadable(file, chunks);
    if SourceSection(chunks, chunkX, chunkZ, row).Some? {
      UnpackedAt(file, chunks, ChunkIndex(chunkX, chunkZ), row - SECTION_OFFSET);
    }
  }

  /** And it can load what the file has. */
  lemma UnpackedNothingAbove(file: seq<StoredChunk>, chunks: seq<RawChunk>)
    requires Loadable(chunks) && StoresAll(file, chunks) && NothingAbove(chunks)
    ensures StoredPalettes(file) && Loadable(UnpackedRegion(file)) && NothingAbove(UnpackedRegion(file))
  {
    hide SourceSection, UnpackedRegion, Loadable, StoresAll, LocalIndex;
    UnpackedLoadable(file, chunks);
    var raw := UnpackedRegion(file);
    forall x, z, row | 0 <= x < REGION_SIZE && 0 <= z < REGION_SIZE && REGION_HEIGHT <= row < MAX_SECTIONS
      && SourceSection(raw, x, z, row).Some?
      ensures AllFirst(SourceSection(raw, x, z, row).value)
    {
      UnpackedSource(file, chunks, x, z, row);
      assert AllFirst(SourceSection(chunks, x, z, row).value);
    }
  }

  /** The part of getSections after the parsing: every section of a chunk is unpacked. */
  method UnpackChunk(chunk: seq<StoredSection>) returns (sections: seq<PalettedContainer>)
    requires forall s :: 0 <= s < |chunk| ==> StoredPalette(chunk[s])
    ensures sections == UnpackedChunk(chunk)
  {
    hide RegionStates;
    sections := [];
    for s := 0 to |chunk|
      invariant sections == UnpackedChunk(chunk)[..s]
    {
      var unpacked: seq<Int32> := [];
      if chunk[s].data.Some? {
        var states := UnpackStates(chunk[s].data.value, |chunk[s].palette|);
        unpacked := states[..];
      }
      sections := sections + [PalettedContainer(chunk[s].palette, unpacked)];
    }
  }

  method UnpackFile(file: seq<StoredChunk>) returns (raw: seq<RawChunk>)
    requires StoredPalettes(file)
    ensures raw == UnpackedRegion(file)
  {
    hide UnpackedChunk;
    raw := [];
    for k := 0 to |file|
      invariant raw == UnpackedRegion(file)[..k]
    {
      var chunk: RawChunk := None;
      if file[k].Some? {
        var sections := UnpackChunk(file[k].value);
        chunk := Some(sections);
      }
      raw := raw + [chunk];
    }
  }

  /** A region with one full chunk: 24 copies of a section. */
  function OneChunk(c: PalettedContainer): (raw: seq<RawChunk>)
    requires RegionSection(c)
    ensures Loadable(raw) && raw[0].Some? && |raw[0].value| == 24
  {
    seq(1024, k => if k == 0 then Some(seq(24, _ => c)) else None)
  }

  const AIR_SECTION := PalettedContainer([0], [])

  const SOLID := PalettedContainer([0, 1], seq(STATES, _ => 1))

  lemma OneChunkSource(c: PalettedContainer, x: nat, z: nat, row: nat)
    requires RegionSection(c)
    ensures var r := SourceSection(OneChunk(c), x, z, row);
            (r.Some? ==> r.value == c) && (x == 0 == z && row == REGION_HEIGHT ==> r.Some?)
  {
  }

  /** A full chunk of air can be loaded, and one of solid sections cannot. */
  lemma FullChunks()
    ensures RegionSection(AIR_SECTION) && NothingAbove(OneChunk(AIR_SECTION))
    ensures RegionSection(SOLID) && !AllStoresInside(OneChunk(SOLID))
  {
    hide SourceSection, OneChunk;
    assert RegionSection(AIR_SECTION) && AllFirst(AIR_SECTION);
    forall x, z, row | 0 <= x < REGION_SIZE && 0 <= z < REGION_SIZE && REGION_HEIGHT <= row < MAX_SECTIONS
      ensures SourceSection(OneChunk(AIR_SECTION), x, z, row).Some? ==>
                SourceSection(OneChunk(AIR_SECTION), x, z, row).value == AIR_SECTION
    {
      OneChunkSource(AIR_SECTION, x, z, row);
    }
    assert RegionSection(SOLID);
    OneChunkSource(SOLID, 0, 0, REGION_HEIGHT);
    assert LocalIndex(SOLID, 0) == 1;
    StoresInsideIff(OneChunk(SOLID));
  }

  /** A cell with a nonzero local index holds the index of its original id; the others hold 0. */
  ghost predicate CellLoaded(palette: seq<Int32>, block: Int32, source: Option<PalettedContainer>, i: nat)
    requires source.Some? ==> RegionSection(source.value)
    requires i < STATES
  {
    if source.Some? && LocalIndex(source.value, i) != 0 then
      0 <= block < |palette| && palette[block] == source.value.palette[LocalIndex(source.value, i)]
    else block == 0
  }

  predicate Before(chunkX: nat, chunkZ: nat, row: nat, endX: nat, endZ: nat, endRow: nat)
  {
    chunkX < endX || (chunkX == endX && (chunkZ < endZ || (chunkZ == endZ && row < endRow)))
  }

  function LoadedSource(raw: seq<RawChunk>, x: nat, y: nat, z: nat, endX: nat, endZ: nat, endRow: nat)
    : (r: Option<PalettedContainer>)
    requires Loadable(raw)
    ensures r.Some? ==> RegionSection(r.value)
  {
    if Before(x / 16, z / 16, y / 16, endX, endZ, endRow) then SourceSection(raw, x / 16, z / 16, y / 16) else None
  }

  ghost predicate RegionShape(m: Map)
    reads m
  {
    m.Valid() && m.width == REGION_SIZE * 16 && m.length == REGION_SIZE * 16 && m.height == REGION_HEIGHT * 16
  }

  /** Every cell of a section loaded so far is in place and the rest of the map is empty. */
  ghost predicate CellsLoaded(m: Map, raw: seq<RawChunk>, endX: nat, endZ: nat, endRow: nat)
    requires RegionShape(m) && Loadable(raw)
    reads m, m.blocks
  {
    forall x, y, z :: 0 <= x < m.width && 0 <= y < m.height && 0 <= z < m.length ==>
      CellLoaded(m.palette, m.blocks[x, y, z], LoadedSource(raw, x, y, z, endX, endZ, endRow), IndexInSection(x, y, z))
  }

  /** Some section loaded so far has the id in its palette. */
  ghost predicate Seen(raw: seq<RawChunk>, id: Int32, endX: nat, endZ: nat, endRow: nat)
    requires Loadable(raw)
  {
    exists x: nat, z: nat, row: nat ::
      x < REGION_SIZE && z < REGION_SIZE && Before(x, z, row, endX, endZ, endRow)
      && SourceSection(raw, x, z, row).Some? && id in SourceSection(raw, x, z, row).value.palette
  }

  /** The palette holds every id seen so far, once, and nothing else. */
  ghost predicate PaletteLoaded(palette: seq<Int32>, raw: seq<RawChunk>, endX: nat, endZ: nat, endRow: nat)
    requires Loadable(raw)
  {
    Distinct(palette) && forall id :: id in palette <==> Seen(raw, id, endX, endZ, endRow)
  }

  ghost predicate Loaded(m: Map, raw: seq<RawChunk>, endX: nat, endZ: nat, endRow: nat)
    requires RegionShape(m) && Loadable(raw)
    reads m, m.blocks
  {
    CellsLoaded(m, raw, endX, endZ, endRow) && PaletteLoaded(m.palette, raw, endX, endZ, endRow)
  }

  /** Rows without a section add nothing. */
  lemma SkipRows(m: Map, raw: seq<RawChunk>, chunkX: nat, chunkZ: nat, row: nat)
    requires RegionShape(m) && Loadable(raw) && Loaded(m, raw, chunkX, chunkZ, row)
    requires chunkX < REGION_SIZE && chunkZ < REGION_SIZE
    requires forall r: nat :: r >= row ==> SourceSection(raw, chunkX, chunkZ, r) == None
    ensures Loaded(m, raw, chunkX, chunkZ + 1, 0)
  {
    forall x, y, z | 0 <= x < m.width && 0 <= y < m.height && 0 <= z < m.length
      ensures LoadedSource(raw, x, y, z, chunkX, chunkZ + 1, 0) == LoadedSource(raw, x, y, z, chunkX, chunkZ, row)
    {
    }
    forall id
      ensures Seen(raw, id, chunkX, chunkZ + 1, 0) <==> Seen(raw, id, chunkX, chunkZ, row)
    {
    }
  }

  /** The end of a row of chunks is the start of the next. */
  lemma NextColumn(m: Map, raw: seq<RawChunk>, chunkX: nat)
    requires RegionShape(m) && Loadable(raw) && Loaded(m, raw, chunkX, REGION_SIZE, 0)
    ensures Loaded(m, raw, chunkX + 1, 0, 0)
  {
    forall x, y, z | 0 <= x < m.width && 0 <= y < m.height && 0 <= z < m.length
      ensures LoadedSource(raw, x, y, z, chunkX + 1, 0, 0) == LoadedSource(raw, x, y, z, chunkX, REGION_SIZE, 0)
    {
    }
    forall id
      ensures Seen(raw, id, chunkX + 1, 0, 0) <==> Seen(raw, id, chunkX, REGION_SIZE, 0)
    {
    }
  }

  method LoadSection(m: Map, raw: seq<RawChunk>, chunkX: nat, chunkZ: nat, row: nat, section: PalettedContainer)
    requires RegionShape(m) && Loadable(raw) && Loaded(m, raw, chunkX, chunkZ, row)
    requires chunkX < REGION_SIZE && chunkZ < REGION_SIZE
    requires SourceSection(raw, chunkX, chunkZ, row) == Some(section) && SectionStaysInside(section, row)
    requires |m.palette| <= 0x4000_0000
    modifies m`palette, m.blocks
    ensures RegionShape(m) && Loaded(m, raw, chunkX, chunkZ, row + 1)
    ensures old(m.palette) <= m.palette && |m.palette| <= |old(m.palette)| + STATES
  {
    hide Seen, SourceSection, Before, CellLoaded, IndexInSection, LoadedSource, Distinct;
    var local := new Int32[|section.palette|](k requires 0 <= k < |section.palette| => section.palette[k]);
    assert local[..] == section.palette;
    MergePalette(m, local);
    if section.states != [] {
      PlaceBlocks(m, chunkX, chunkZ, row, section.states, local);
    }
    forall x, y, z | 0 <= x < m.width && 0 <= y < m.height && 0 <= z < m.length
      ensures CellLoaded(m.palette, m.blocks[x, y, z], LoadedSource(raw, x, y, z, chunkX, chunkZ, row + 1),
                         IndexInSection(x, y, z))
    {
      CellStep(old(m.palette), m.palette, local[..], raw, section, x, y, z, chunkX, chunkZ, row,
               old(m.blocks[x, y, z]), m.blocks[x, y, z]);
    }
    forall id
      ensures id in m.palette <==> Seen(raw, id, chunkX, chunkZ, row + 1)
    {
      SeenStep(raw, id, chunkX, chunkZ, row);
    }
  }

  lemma CellStep(oldPalette: seq<Int32>, palette: seq<Int32>, rewritten: seq<Int32>, raw: seq<RawChunk>,
                 section: PalettedContainer, x: nat, y: nat, z: nat, chunkX: nat, chunkZ: nat, row: nat,
                 before: Int32, after: Int32)
    requires Loadable(raw) && SourceSection(raw, chunkX, chunkZ, row) == Some(section)
    requires oldPalette <= palette && |rewritten| == |section.palette|
    requires forall j :: 0 <= j < |rewritten| ==>
               0 <= rewritten[j] < |palette| && palette[rewritten[j]] == section.palette[j]
    requires after ==
               if section.states != [] && InSection(x, y, z, chunkX, chunkZ, row)
                  && section.states[IndexInSection(x, y, z)] != 0
               then rewritten[section.states[IndexInSection(x, y, z)]] else before
    requires CellLoaded(oldPalette, before, LoadedSource(raw, x, y, z, chunkX, chunkZ, row), IndexInSection(x, y, z))
    ensures CellLoaded(palette, after, LoadedSource(raw, x, y, z, chunkX, chunkZ, row + 1), IndexInSection(x, y, z))
  {
    hide IndexInSection, SourceSection;
    if InSection(x, y, z, chunkX, chunkZ, row) {
      assert LoadedSource(raw, x, y, z, chunkX, chunkZ, row) == None;
      assert LoadedSource(raw, x, y, z, chunkX, chunkZ, row + 1) == Some(section);
    } else {
      assert LoadedSource(raw, x, y, z, chunkX, chunkZ, row + 1) == LoadedSource(raw, x, y, z, chunkX, chunkZ, row);
    }
  }

  lemma SeenStep(raw: seq<RawChunk>, id: Int32, chunkX: nat, chunkZ: nat, row: nat)
    requires Loadable(raw) && SourceSection(raw, chunkX, chunkZ, row).Some?
    requires chunkX < REGION_SIZE && chunkZ < REGION_SIZE
    ensures Seen(raw, id, chunkX, chunkZ, row + 1) <==>
              Seen(raw, id, chunkX, chunkZ, row) || id in SourceSection(raw, chunkX, chunkZ, row).value.palette
  {
  }

  lemma NothingLoaded(m: Map, raw: seq<RawChunk>)
    requires RegionShape(m) && Loadable(raw) && m.palette == []
    requires forall x, y, z :: 0 <= x < m.width && 0 <= y < m.height && 0 <= z < m.length ==> m.blocks[x, y, z] == 0
    ensures Loaded(m, raw, 0, 0, 0)
  {
  }

  /** What the map holds, cell by cell, in terms of the table of the file: chunk (x, z)
      is entry x + 32 z, and its sections start four rows up. */
  ghost predicate Placed(m: Map, raw: seq<RawChunk>)
    requires RegionShape(m) && Loadable(raw)
    reads m, m.blocks
  {
    forall x, y, z :: 0 <= x < 256 && 0 <= y < 320 && 0 <= z < 256 ==> CellPlaced(m, raw, x, y, z)
  }

  ghost predicate CellPlaced(m: Map, raw: seq<RawChunk>, x: nat, y: nat, z: nat)
    requires RegionShape(m) && Loadable(raw) && x < 256 && y < 320 && z < 256
    reads m, m.blocks
  {
    var chunk, s, i := raw[x / 16 + 32 * (z / 16)], y / 16 - 4, y % 16 * 256 + z % 16 * 16 + x % 16;
    if chunk.Some? && 0 <= s && s + 4 < |chunk.value| && LocalIndex(chunk.value[s], i) != 0 then
      0 <= m.blocks[x, y, z] < |m.palette|
      && m.palette[m.blocks[x, y, z]] == chunk.value[s].palette[LocalIndex(chunk.value[s], i)]
    else m.blocks[x, y, z] == 0
  }

  lemma CellNumber(x: nat, y: nat, z: nat)
    ensures IndexInSection(x, y, z) == y % 16 * 256 + z % 16 * 16 + x % 16
  {
  }

  lemma LoadedIsPlaced(m: Map, raw: seq<RawChunk>)
    requires RegionShape(m) && Loadable(raw) && Loaded(m, raw, REGION_SIZE, 0, 0)
    ensures Placed(m, raw)
  {
    hide LocalIndex, PaletteLoaded, IndexInSection, Loadable;
    forall x, y, z | 0 <= x < 256 && 0 <= y < 320 && 0 <= z < 256
      ensures CellPlaced(m, raw, x, y, z)
    {
      CellNumber(x, y, z);
      TableEntry(x / 16, z / 16);
      assert CellLoaded(m.palette, m.blocks[x, y, z], LoadedSource(raw, x, y, z, REGION_SIZE, 0, 0),
                        IndexInSection(x, y, z));
    }
  }

  lemma TableEntry(chunkX: nat, chunkZ: nat)
    requires chunkX < 16 && chunkZ < 16
    ensures ChunkIndex(chunkX, chunkZ) == chunkX + 32 * chunkZ
  {
  }

  /** The constructor of the region map: after it, every section of the file is loaded. */
  method LoadRegion(raw: seq<RawChunk>) returns (m: Map)
    requires Loadable(raw) && NothingAbove(raw)
    ensures fresh(m) && fresh(m.blocks)
    ensures RegionShape(m) && Loaded(m, raw, REGION_SIZE, 0, 0) && Placed(m, raw)
  {
    hide Placed;
    StoresInsideIff(raw);
    m := new Map(REGION_SIZE * 16, REGION_HEIGHT * 16, REGION_SIZE * 16);
    NothingLoaded(m, raw);
    for chunkX := 0 to REGION_SIZE
      invariant RegionShape(m) && Loaded(m, raw, chunkX, 0, 0)
      invariant |m.palette| <= chunkX * REGION_SIZE * MAX_SECTIONS * STATES
    {
      for chunkZ := 0 to REGION_SIZE
        invariant RegionShape(m) && Loaded(m, raw, chunkX, chunkZ, 0)
        invariant |m.palette| <= (chunkX * REGION_SIZE + chunkZ) * MAX_SECTIONS * STATES
      {
        LoadChunk(m, raw, chunkX, chunkZ);
      }
      NextColumn(m, raw, chunkX);
    }
    LoadedIsPlaced(m, raw);
  }

  method LoadChunk(m: Map, raw: seq<RawChunk>, chunkX: nat, chunkZ: nat)
    requires RegionShape(m) && Loadable(raw) && Loaded(m, raw, chunkX, chunkZ, 0)
    requires chunkX < REGION_SIZE && chunkZ < REGION_SIZE && AllStoresInside(raw)
    requires |m.palette| <= 0x3000_0000
    modifies m`palette, m.blocks
    ensures RegionShape(m) && Loaded(m, raw, chunkX, chunkZ + 1, 0)
    ensures old(m.palette) <= m.palette && |m.palette| <= |old(m.palette)| + MAX_SECTIONS * STATES
  {
    var chunk := raw[ChunkIndex(chunkX, chunkZ)];
    if chunk == None {
      SkipRows(m, raw, chunkX, chunkZ, 0);
      return;
    }
    var sections := chunk.value;
    assert |sections| <= MAX_SECTIONS;
    var sectionIndex := SECTION_OFFSET;
    FirstRows(m, raw, chunkX, chunkZ);
    while sectionIndex < |sections|
      invariant SECTION_OFFSET <= sectionIndex <= MAX_SECTIONS
      invariant |sections| >= SECTION_OFFSET ==> sectionIndex <= |sections|
      invariant RegionShape(m) && Loaded(m, raw, chunkX, chunkZ, sectionIndex)
      invariant old(m.palette) <= m.palette
      invariant |m.palette| <= |old(m.palette)| + (sectionIndex - SECTION_OFFSET) * STATES
    {
      LoadSection(m, raw, chunkX, chunkZ, sectionIndex, sections[sectionIndex - SECTION_OFFSET]);
      sectionIndex := sectionIndex + 1;
    }
    SkipRows(m, raw, chunkX, chunkZ, sectionIndex);
  }

  /** The rows below the section offset stay empty. */
  lemma FirstRows(m: Map, raw: seq<RawChunk>, chunkX: nat, chunkZ: nat)
    requires RegionShape(m) && Loadable(raw) && Loaded(m, raw, chunkX, chunkZ, 0)
    ensures Loaded(m, raw, chunkX, chunkZ, SECTION_OFFSET)
  {
    forall x, y, z | 0 <= x < m.width && 0 <= y < m.height && 0 <= z < m.length
      ensures LoadedSource(raw, x, y, z, chunkX, chunkZ, SECTION_OFFSET)
           == LoadedSource(raw, x, y, z, chunkX, chunkZ, 0)
    {
    }
    forall id
      ensures Seen(raw, id, chunkX, chunkZ, SECTION_OFFSET) <==> Seen(raw, id, chunkX, chunkZ, 0)
    {
    }
  }

  /** Once the region is loaded, a cell of a loaded section denotes its original id
      exactly when its local index is nonzero or its section's first id happens to be
      the first id of the map. */
  lemma LoadedCellDenotes(m: Map, raw: seq<RawChunk>, x: nat, y: nat, z: nat)
    requires RegionShape(m) && Loadable(raw) && Loaded(m, raw, REGION_SIZE, 0, 0)
    requires x < m.width && y < m.height && z < m.length
    requires SourceSection(raw, x / 16, z / 16, y / 16).Some?
    ensures var c := SourceSection(raw, x / 16, z / 16, y / 16).value;
            var local := LocalIndex(c, IndexInSection(x, y, z));
            0 <= m.blocks[x, y, z] < |m.palette|
            && (m.palette[m.blocks[x, y, z]] == c.palette[local] <==> local != 0 || c.palette[0] == m.palette[0])
  {
    var c := SourceSection(raw, x / 16, z / 16, y / 16).value;
    assert LoadedSource(raw, x, y, z, REGION_SIZE, 0, 0) == Some(c);
    assert CellLoaded(m.palette, m.blocks[x, y, z], Some(c), IndexInSection(x, y, z));
    assert c.palette[0] in m.palette by {
      assert c.palette[0] in c.palette;
      assert Before(x / 16, z / 16, y / 16, REGION_SIZE, 0, 0);
    }
  }
}
