/** The volume layout of the FAT32 driver and the sectors its clusters occupy. */
module Fat32 {
  import opened Bits
  import opened Grid
  import opened Ata

  const FS_TYPE: string := "FAT32   "
  const LBA_LIMIT: nat := 0x1000_0000

  /** The fields of the boot sector that the layout is computed from */
  datatype BootSector = BootSector(
    sectorsPerCluster: uint8, reservedSectors: uint16, fatCount: uint8, sectorsPerFat: uint32, fsType: string)

  /** The first sector of a cluster, as computed in 32 bits */
  function ClusterToLba(dataBegin: uint32, sectorsPerCluster: uint32, cluster: uint32): uint32 {
    U32(dataBegin + U32(U32(cluster - 2) * sectorsPerCluster))
  }

  class Volume {
    var currentDrive: uint8
    var sectorsPerCluster: uint32
    var fatBegin: uint32
    var dataBegin: uint32

    constructor ()
      ensures currentDrive == 0 && sectorsPerCluster == 0 && fatBegin == 0 && dataBegin == 0
    {
      currentDrive, sectorsPerCluster, fatBegin, dataBegin := 0, 0, 0, 0;
    }

    /** Read sector 0, here `bs`, and take the layout from it if it is a FAT32 volume; the data
        area begins where the last FAT ends.  On another volume only the drive is remembered. */
    method Init(drive: uint8, bs: BootSector, channel: Channel) returns (ok: bool)
      modifies this, channel
      ensures currentDrive == drive && ok == (bs.fsType == "FAT32   ")
      ensures ok ==> fatBegin == bs.reservedSectors && sectorsPerCluster == bs.sectorsPerCluster
      ensures ok ==> dataBegin == U32(fatBegin + Span(bs.fatCount, bs.sectorsPerFat))
      ensures ok && bs.reservedSectors + Span(bs.fatCount, bs.sectorsPerFat) < WORD ==>
                dataBegin == fatBegin + Span(bs.fatCount, bs.sectorsPerFat)
      ensures !ok ==>
                && fatBegin == old(fatBegin) && dataBegin == old(dataBegin)
                && sectorsPerCluster == old(sectorsPerCluster)
      ensures Received(channel.log) == Received(old(channel.log)) + [Request(0x20, drive % 2, 0, 1, true)]
    {
      currentDrive := drive;
      channel.ReadSectors(drive, 0, 1);
      if bs.fsType != FS_TYPE {
        return false;
      }
      sectorsPerCluster := bs.sectorsPerCluster;
      fatBegin := bs.reservedSectors;
      SpanIsProduct(bs.fatCount, bs.sectorsPerFat);
      WrapInside(fatBegin, bs.fatCount * bs.sectorsPerFat);
      dataBegin := U32(fatBegin + U32(bs.fatCount * bs.sectorsPerFat));
      return true;
    }
  }

  /** The formula for any operands: every step wraps at 2^32, so the result is a remainder */
  lemma ClusterToLbaFormula(dataBegin: uint32, spc: uint32, cluster: uint32)
    ensures ClusterToLba(dataBegin, spc, cluster) == (dataBegin + (cluster - 2) * spc) % 0x1_0000_0000
  {
    WrapFactor(cluster - 2, spc);
    WrapTerm(dataBegin, (cluster - 2) * spc);
  }

  lemma WrapFactor(v: int, f: int)
    ensures U32(U32(v) * f) == U32(v * f)
  {
    WrapProduct(v, f);
    MulCommutes(U32(v), f);
    MulCommutes(v, f);
  }

  lemma WrapTerm(a: int, b: int)
    ensures U32(a + U32(b)) == (a + b) % 0x1_0000_0000
  {
    WrapInside(a, b);
    U32IsRemainder(a + b);
  }

  /** While the volume stays below the 28-bit limit, nothing wraps */
  lemma ClusterStart(dataBegin: uint32, spc: uint32, n: nat, cluster: uint32)
    requires dataBegin + Span(n, spc) <= LBA_LIMIT && 2 <= cluster < n + 2
    ensures ClusterToLba(dataBegin, spc, cluster) == dataBegin + Span(cluster - 2, spc)
    ensures ClusterToLba(dataBegin, spc, cluster) + spc <= dataBegin + Span(n, spc)
  {
    SpanIsProduct(cluster - 2, spc);
    SpanGrows(cluster - 2, n, spc);
  }

  /** A sector belongs to a cluster */
  predicate InCluster(dataBegin: uint32, spc: uint32, cluster: uint32, lba: int) {
    ClusterToLba(dataBegin, spc, cluster) <= lba < ClusterToLba(dataBegin, spc, cluster) + spc
  }

  lemma ClustersDisjoint(dataBegin: uint32, spc: uint32, n: nat, c1: uint32, c2: uint32, lba: int)
    requires dataBegin + Span(n, spc) <= LBA_LIMIT && 2 <= c1 < n + 2 && 2 <= c2 < n + 2
    requires InCluster(dataBegin, spc, c1, lba) && InCluster(dataBegin, spc, c2, lba)
    ensures c1 == c2
  {
    ClusterStart(dataBegin, spc, n, c1);
    ClusterStart(dataBegin, spc, n, c2);
    if c1 < c2 {
      SpanGrows(c1 - 2, c2 - 2, spc);
    } else if c2 < c1 {
      SpanGrows(c2 - 2, c1 - 2, spc);
    }
  }

  lemma {:induction false} SectorHasCluster(dataBegin: uint32, spc: uint32, n: nat, lba: nat)
    requires dataBegin + Span(n, spc) <= LBA_LIMIT && n < LBA_LIMIT
    requires dataBegin <= lba < dataBegin + Span(n, spc)
    ensures exists c: uint32 :: 2 <= c < n + 2 && InCluster(dataBegin, spc, c, lba)
  {
    if lba < dataBegin + Span(n - 1, spc) {
      SectorHasCluster(dataBegin, spc, n - 1, lba);
    } else {
      ClusterStart(dataBegin, spc, n, n + 1);
      assert InCluster(dataBegin, spc, n + 1, lba);
    }
  }

  /** The n clusters 2, 3, ... tile the data area: every sector from its first to its last, and
      no other, belongs to one of them, and to only one */
  lemma ClustersTile(dataBegin: uint32, spc: uint32, n: nat, lba: nat)
    requires dataBegin + Span(n, spc) <= LBA_LIMIT && n < LBA_LIMIT
    ensures dataBegin <= lba < dataBegin + Span(n, spc) <==>
            exists c: uint32 :: 2 <= c < n + 2 && InCluster(dataBegin, spc, c, lba)
    ensures forall c1: uint32, c2: uint32 |
              && 2 <= c1 < n + 2 && InCluster(dataBegin, spc, c1, lba)
              && 2 <= c2 < n + 2 && InCluster(dataBegin, spc, c2, lba) ::
              c1 == c2
  {
    if dataBegin <= lba < dataBegin + Span(n, spc) {
      SectorHasCluster(dataBegin, spc, n, lba);
    }
    forall c: uint32 | 2 <= c < n + 2 && InCluster(dataBegin, spc, c, lba)
      ensures dataBegin <= lba < dataBegin + Span(n, spc)
    {
      ClusterStart(dataBegin, spc, n, c);
    }
    forall c1: uint32, c2: uint32 |
      && 2 <= c1 < n + 2 && InCluster(dataBegin, spc, c1, lba)
      && 2 <= c2 < n + 2 && InCluster(dataBegin, spc, c2, lba)
      ensures c1 == c2
    {
      ClustersDisjoint(dataBegin, spc, n, c1, c2, lba);
    }
  }

  /** Distinct clusters start at distinct sectors exactly when a cluster has a sector, or
      there are not two clusters */
  lemma ClusterStartsDistinct(dataBegin: uint32, spc: uint32, n: nat)
    requires dataBegin + Span(n, spc) <= LBA_LIMIT && n < LBA_LIMIT
    ensures (forall c1: uint32, c2: uint32 | 2 <= c1 < c2 < n + 2 ::
               ClusterToLba(dataBegin, spc, c1) != ClusterToLba(dataBegin, spc, c2)) <==> spc > 0 || n < 2
  {
    forall c1: uint32, c2: uint32 | 2 <= c1 < c2 < n + 2
      ensures ClusterToLba(dataBegin, spc, c1) != ClusterToLba(dataBegin, spc, c2) <==> spc > 0
    {
      ClusterStart(dataBegin, spc, n, c1);
      ClusterStart(dataBegin, spc, n, c2);
      SpanGrows(c1 - 2, c2 - 2, spc);
      if spc == 0 {
        SpanIsProduct(c1 - 2, 0);
        SpanIsProduct(c2 - 2, 0);
      }
    }
    if spc == 0 && n >= 2 {
      var c1: uint32, c2: uint32 := 2, 3;
      assert ClusterToLba(dataBegin, spc, c1) == ClusterToLba(dataBegin, spc, c2);
    }
  }

  /** Across both drives, a drive number of 0 or 1, a cluster and a sector within it are told
      apart by the register settings alone */
  lemma SectorsHaveDistinctSettings(dataBegin: uint32, spc: uint32, n: nat,
                                    d1: uint8, c1: uint32, o1: uint32, d2: uint8, c2: uint32, o2: uint32, count: uint8)
    requires dataBegin + Span(n, spc) <= LBA_LIMIT && d1 < 2 && d2 < 2
    requires 2 <= c1 < n + 2 && 2 <= c2 < n + 2 && o1 < spc && o2 < spc
    ensures ClusterToLba(dataBegin, spc, c1) + o1 < LBA_LIMIT && ClusterToLba(dataBegin, spc, c2) + o2 < LBA_LIMIT
    ensures Addressed(d1, ClusterToLba(dataBegin, spc, c1) + o1, count)
            == Addressed(d2, ClusterToLba(dataBegin, spc, c2) + o2, count) <==>
            d1 == d2 && c1 == c2 && o1 == o2
  {
    ClusterStart(dataBegin, spc, n, c1);
    ClusterStart(dataBegin, spc, n, c2);
    var l1, l2 := ClusterToLba(dataBegin, spc, c1) + o1, ClusterToLba(dataBegin, spc, c2) + o2;
    SettingsAreInjective(d1, l1, d2, l2, count);
    SameSector(dataBegin, spc, n, c1, o1, c2, o2);
  }

  lemma SameSector(dataBegin: uint32, spc: uint32, n: nat, c1: uint32, o1: uint32, c2: uint32, o2: uint32)
    requires dataBegin + Span(n, spc) <= LBA_LIMIT
    requires 2 <= c1 < n + 2 && 2 <= c2 < n + 2 && o1 < spc && o2 < spc
    ensures ClusterToLba(dataBegin, spc, c1) + o1 == ClusterToLba(dataBegin, spc, c2) + o2 <==> c1 == c2 && o1 == o2
  {
    var l1, l2 := ClusterToLba(dataBegin, spc, c1), ClusterToLba(dataBegin, spc, c2);
    if l1 + o1 == l2 + o2 {
      ClustersDisjoint(dataBegin, spc, n, c1, c2, l1 + o1);
    }
  }
}
