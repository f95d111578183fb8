/** Sizes and places of everything on the device, fixed before a byte is written. */
module Geometry {
  import opened Prelude

  const MIB: nat := 0x10_0000
  const GIB: nat := 0x4000_0000
  const TIB: nat := 0x100_0000_0000

  const INODES_PER_CHUNK: nat := 64
  const INODE_BIG_CLUSTER_SIZE: nat := 8192
  const DINODE_MIN_SIZE: nat := 256
  const DINODE_MAX_SIZE: nat := 2048
  const ALLOCBT_AGFL_RESERVE: nat := 4
  const AGFL_HEADER: nat := 36
  const MAX_LOG_BLOCKS: nat := 0x10_0000
  const MIN_LOG_BYTES: nat := 10 * MIB
  const MAX_LOG_BYTES: nat := 2 * GIB - MIN_LOG_BYTES
  const AG_MIN_BYTES: nat := 16 * MIB
  const AG_MAX_BYTES: nat := TIB
  const MAX_AGNUMBER: nat := 0xffff_fffe
  const MIN_CRC_BLOCKSIZE: nat := 1024
  const MAX_BLOCKSIZE: nat := 65536
  const MAX_SUPPORTED_BLOCKSIZE: nat := 16384
  const MIN_SECTORSIZE: nat := 512
  const MAX_SECTORSIZE: nat := 32768

  datatype Features = Features(
    finobt: bool, rmapbt: bool, reflink: bool, inobtcount: bool, bigtime: bool, nrext64: bool, sparse: bool)

  function Flag(b: bool): nat {
    if b then 1 else 0
  }

  function RoundUp(n: nat, m: pos): nat {
    CeilDiv(n, m) * m
  }

  datatype Geometry = Geometry(
    blocksize: pos,
    sectsize: pos,
    inodesize: pos,
    dblocks: nat,
    agsize: pos,
    agcount: pos,
    agblklog: nat,
    logblocks: nat,
    logagno: nat,
    logAgbno: nat,
    features: Features)
  {
    /** Blocks in group `agno`; the last may be short. */
    function AgBlocks(agno: nat): int {
      if agno == agcount - 1 then dblocks - agno * agsize else agsize
    }

    function HeaderBlocks(): nat {
      CeilDiv(4 * sectsize, blocksize)
    }

    function BnoBlock(): nat {
      HeaderBlocks()
    }

    function CntBlock(): nat {
      BnoBlock() + 1
    }

    function IbtBlock(): nat {
      CntBlock() + 1
    }

    function FibtBlock(): nat {
      IbtBlock() + 1
    }

    function RmapBlock(): nat {
      if features.finobt then FibtBlock() + 1 else IbtBlock() + 1
    }

    function RefcBlock(): nat {
      if features.rmapbt then RmapBlock() + 1
      else if features.finobt then FibtBlock() + 1
      else IbtBlock() + 1
    }

    /** The headers and btree roots at the start of every group. */
    function PreallocBlocks(): nat {
      if features.reflink then RefcBlock() + 1
      else if features.rmapbt then RmapBlock() + 1
      else if features.finobt then FibtBlock() + 1
      else IbtBlock() + 1
    }

    function AgMaxUsable(): int {
      agsize - (HeaderBlocks() + ALLOCBT_AGFL_RESERVE + 3
                + Flag(features.finobt) + Flag(features.rmapbt) + Flag(features.reflink))
    }

    /** Free list slots in the AGFL sector. */
    function AgflSize(): int {
      (sectsize - AGFL_HEADER) / 4
    }

    /** What each free list is filled with. */
    function MinFreelist(): nat {
      2 + 2 + if features.rmapbt then 2 else 0
    }

    function ChunkBlocks(): nat {
      INODES_PER_CHUNK * inodesize / blocksize
    }

    function ClusterAlign(): nat {
      INODE_BIG_CLUSTER_SIZE * (inodesize / DINODE_MIN_SIZE) / blocksize
    }

    function InoAlignmt(): nat {
      if features.sparse then ChunkBlocks() else ClusterAlign()
    }

    /** Where the root inode chunk goes in group 0. */
    function RootChunkAgbno(): nat {
      var first :=
        HeaderBlocks() + 2 + 1 + MinFreelist()
        + Flag(features.finobt) + Flag(features.rmapbt) + Flag(features.reflink)
        + if logagno == 0 then logblocks else 0;
      if InoAlignmt() > 1 then RoundUp(first, InoAlignmt()) else first
    }

    /** Free blocks before the root inode chunk is allocated. */
    function InitialFdblocks(): int {
      dblocks - agcount * PreallocBlocks() - logblocks
    }
  }

  /** The positions add up: everything but the log and the AGFL before the root chunk is preallocated. */
  lemma Positions(g: Geometry)
    ensures g.PreallocBlocks() == g.HeaderBlocks() + 3 + Flag(g.features.finobt)
                                  + Flag(g.features.rmapbt) + Flag(g.features.reflink)
    ensures g.AgMaxUsable() == g.agsize - g.PreallocBlocks() - 4
    ensures g.BnoBlock() == g.HeaderBlocks() && g.CntBlock() == g.HeaderBlocks() + 1
    ensures g.IbtBlock() == g.HeaderBlocks() + 2 && (g.features.finobt ==> g.FibtBlock() == g.HeaderBlocks() + 3)
    ensures g.features.rmapbt ==> g.RmapBlock() == g.HeaderBlocks() + 3 + Flag(g.features.finobt)
    ensures g.features.reflink ==>
              g.RefcBlock() == g.HeaderBlocks() + 3 + Flag(g.features.finobt) + Flag(g.features.rmapbt)
  {
  }

  /** Four sectors' worth of blocks, and no more. */
  lemma FourSectors(g: Geometry)
    ensures g.HeaderBlocks() * g.blocksize >= 4 * g.sectsize > (g.HeaderBlocks() - 1) * g.blocksize
  {
    var n := g.HeaderBlocks();
    var q, r := (4 * g.sectsize + g.blocksize - 1) / g.blocksize, (4 * g.sectsize + g.blocksize - 1) % g.blocksize;
    assert n == q && q * g.blocksize + r == 4 * g.sectsize + g.blocksize - 1;
    assert (q - 1) * g.blocksize == q * g.blocksize - g.blocksize;
  }
}
