// The map of a lobby: a three-dimensional array of palette indices, served in
// sections of 16 x 16 x 16 cells.
module MapStore {
  import opened Words
  import opened Bytes
  import opened Container

  /** statesFormula: the index of a cell in its section. */
  function StateIndex(x: nat, y: nat, z: nat): (i: nat)
    requires x < 16 && y < 16 && z < 16
    ensures i < STATES
    ensures CellX(i) == x && CellY(i) == y && CellZ(i) == z
  {
    var i := y * 16 * 16 + z * 16 + x;
    assert i / 16 == y * 16 + z;
    i
  }

  function CellX(i: nat): nat { i % 16 }

  function CellZ(i: nat): nat { i / 16 % 16 }

  function CellY(i: nat): nat { i / 16 / 16 }

  /** Cells are numbered along x, then z, then y. */
  lemma StateIndexOrder(x: nat, y: nat, z: nat, x': nat, y': nat, z': nat)
    requires x < 16 && y < 16 && z < 16 && x' < 16 && y' < 16 && z' < 16
    ensures StateIndex(x, y, z) < StateIndex(x', y', z')
            <==> y < y' || (y == y' && (z < z' || (z == z' && x < x')))
    ensures x < 15 ==> StateIndex(x + 1, y, z) == StateIndex(x, y, z) + 1
  {
  }

  lemma StateIndexOfCell(i: nat)
    requires i < STATES
    ensures CellX(i) < 16 && CellY(i) < 16 && CellZ(i) < 16
    ensures StateIndex(CellX(i), CellY(i), CellZ(i)) == i
  {
    var q := i / 16;
    assert i == q * 16 + i % 16;
    assert q == q / 16 * 16 + q % 16;
  }

  class Map {
    const width: nat   // x
    const height: nat  // y
    const length: nat  // z
    const blocks: array3<Int32>
    var palette: seq<Int32>

    ghost predicate Valid()
      reads this
    {
      blocks.Length0 == width && blocks.Length1 == height && blocks.Length2 == length
    }

    /** Every stored index is one of the palette. */
    ghost predicate Indexed()
      requires Valid()
      reads this, blocks
    {
      forall x, y, z :: 0 <= x < width && 0 <= y < height && 0 <= z < length ==> 0 <= blocks[x, y, z] < |palette|
    }

    constructor (width: nat, height: nat, length: nat)
      ensures Valid() && fresh(blocks)
      ensures this.width == width && this.height == height && this.length == length
      ensures palette == []
      ensures forall x, y, z :: 0 <= x < width && 0 <= y < height && 0 <= z < length ==> blocks[x, y, z] == 0
    {
      this.width, this.height, this.length := width, height, length;
      blocks := new Int32[width, height, length]((_, _, _) => 0);
      palette := [];
    }

    /** None where the source throws. */
    function GetBlock(x: nat, y: nat, z: nat): Option<Int32>
      requires Valid()
      reads this, blocks
    {
      if x >= width || y >= height || z >= length then None else Some(blocks[x, y, z])
    }

    /** Whole chunks only: a section that sticks out of the map cannot be read. */
    predicate InMap(chunkX: nat, chunkZ: nat, number: nat)
      reads this
    {
      chunkX * 16 + 16 <= width && chunkZ * 16 + 16 <= length && number * 16 + 16 <= height
    }

    ghost function CellState(chunkX: nat, chunkZ: nat, number: nat, i: nat): Int32
      requires Valid() && InMap(chunkX, chunkZ, number) && i < STATES
      reads this, blocks
    {
      var state := blocks[chunkX * 16 + CellX(i), number * 16 + CellY(i), chunkZ * 16 + CellZ(i)];
      if state > 0 then state else 0
    }

    ghost predicate Holds(states: seq<Int32>, chunkX: nat, chunkZ: nat, number: nat)
      requires Valid() && InMap(chunkX, chunkZ, number)
      reads this, blocks
    {
      |states| == STATES && forall i :: 0 <= i < STATES ==> states[i] == CellState(chunkX, chunkZ, number, i)
    }

    /** The section, or None where the source throws. Above the map it is all air. */
    method GetSection(chunkX: nat, chunkZ: nat, number: nat) returns (r: Option<PalettedContainer>)
      requires Valid()
      requires chunkX <= width / 16 && chunkZ <= length / 16 && number < height / 16 ==> InMap(chunkX, chunkZ, number)
      ensures r == None <==> chunkX > width / 16 || chunkZ > length / 16
      ensures r.Some? && number >= height / 16 ==> r.value == PalettedContainer([0], [])
      ensures r.Some? && number < height / 16 ==>
                r.value.palette == palette && Holds(r.value.states, chunkX, chunkZ, number)
    {
      if chunkX >= width / 16 + 1 || chunkZ >= length / 16 + 1 {
        return None;
      }
      if number >= height / 16 {
        return Some(PalettedContainer([0], []));
      }
      var states := CopyCells(chunkX, chunkZ, number);
      r := Some(PalettedContainer(palette, states));
    }

    method CopyCells(chunkX: nat, chunkZ: nat, number: nat) returns (r: seq<Int32>)
      requires Valid() && InMap(chunkX, chunkZ, number)
      ensures Holds(r, chunkX, chunkZ, number)
    {
      hide StateIndex, CellX, CellY, CellZ;
      CellsInRange();
      var states := new Int32[STATES](_ => 0);
      for x := 0 to 16
        invariant forall i :: 0 <= i < STATES ==>
                    states[i] == if CellX(i) < x then CellState(chunkX, chunkZ, number, i) else 0
      {
        for y := 0 to 16
          invariant forall i :: 0 <= i < STATES ==>
                      states[i] == if CellX(i) < x || (CellX(i) == x && CellY(i) < y)
                                   then CellState(chunkX, chunkZ, number, i) else 0
        {
          for z := 0 to 16
            invariant forall i :: 0 <= i < STATES ==>
                        states[i] == if CellX(i) < x
                                        || (CellX(i) == x && (CellY(i) < y || (CellY(i) == y && CellZ(i) < z)))
                                     then CellState(chunkX, chunkZ, number, i) else 0
          {
            var state := blocks[chunkX * 16 + x, number * 16 + y, chunkZ * 16 + z];
            if state > 0 {
              states[StateIndex(x, y, z)] := state;
            }
            OneCell(x, y, z);
          }
        }
      }
      r := states[..];
    }
  }

  lemma CellsInRange()
    ensures forall i :: 0 <= i < STATES ==> CellX(i) < 16 && CellY(i) < 16 && CellZ(i) < 16
  {
    forall i | 0 <= i < STATES
      ensures CellX(i) < 16 && CellY(i) < 16 && CellZ(i) < 16
    {
      StateIndexOfCell(i);
    }
  }

  lemma OneCell(x: nat, y: nat, z: nat)
    requires x < 16 && y < 16 && z < 16
    ensures forall i :: 0 <= i < STATES && CellX(i) == x && CellY(i) == y && CellZ(i) == z ==> i == StateIndex(x, y, z)
  {
    forall i | 0 <= i < STATES && CellX(i) == x && CellY(i) == y && CellZ(i) == z
      ensures i == StateIndex(x, y, z)
    {
      StateIndexOfCell(i);
    }
  }

  /** Of the sections the guard of getSection lets through, exactly those of the row
      and column one past the last whole chunk stick out of the map. */
  lemma GuardAdmitsOneChunkMore(m: Map, chunkX: nat, chunkZ: nat, number: nat)
    requires chunkX <= m.width / 16 && chunkZ <= m.length / 16 && number < m.height / 16
    ensures m.InMap(chunkX, chunkZ, number) <==> chunkX != m.width / 16 && chunkZ != m.length / 16
  {
    assert m.width / 16 * 16 + 16 > m.width && m.length / 16 * 16 + 16 > m.length;
    if chunkX < m.width / 16 {
      assert chunkX * 16 + 16 <= m.width;
    }
    if chunkZ < m.length / 16 {
      assert chunkZ * 16 + 16 <= m.length;
    }
  }
}
