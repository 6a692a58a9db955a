/**
  Mounting a FAT32 volume: the boot sector's geometry, and the empty volume that
  formatting leaves.
 */
module FatMount {
  import opened Arithmetic
  import opened Bytes
  import opened Sectors
  import opened FatChain
  import opened FatVolume
  import opened FatDir
  import opened FatTree

  /** `Fat32::mount`: what is accepted can be addressed. */
  function ParseBoot(boot: Sector, sectorSize: nat, sectors: nat): (r: Result<Geometry>)
    requires |boot| == sectorSize
    ensures r.Ok? ==> r.value.bps == sectorSize && r.value.total <= sectors
    ensures r.Ok? && r.value.clusters <= MAX_CLUSTERS ==> r.value.Valid()
  {
    if !(512 <= sectorSize <= 4096) then Err(UnsupportedSectorSize)
    else if boot[510] != 0x55 || boot[511] != 0xaa then Err(UnsupportedFilesystem)
    else
      var bps, spc, reserved, copies := GetU16(boot, 11), boot[13], GetU16(boot, 14), boot[16];
      var total := if GetU16(boot, 19) == 0 then GetU32(boot, 32) else GetU16(boot, 19);
      var spf, root := GetU32(boot, 36), GetU32(boot, 44);
      if bps != sectorSize || !PowerOfTwo(bps) || spc == 0 || !PowerOfTwo(spc) || spc > 128 || reserved == 0
        || !(1 <= copies <= 2) || GetU16(boot, 17) != 0 || GetU16(boot, 22) != 0 || spf == 0 || total == 0
        || GetU16(boot, 42) != 0 || root < 2 || total > sectors then Err(UnsupportedFilesystem)
      else
        var first := reserved + copies * spf;
        if copies * spf >= 0x1_0000_0000 || first >= 0x1_0000_0000 || total < first then Err(CorruptFilesystem)
        else
          var clusters := (total - first) / spc;
          if clusters < 65525 || spf * bps / 4 < clusters + 2 || root >= clusters + 2 then Err(UnsupportedFilesystem)
          else
            SectorSizes(bps);
            ClusterSizes(spc);
            DivMod(total - first, spc);
            Ok(Geometry(bps, spc, reserved, copies, spf, total, root, clusters))
  }

  lemma {:induction false} SectorSizes(n: nat)
    requires 512 <= n <= 4096 && PowerOfTwo(n)
    ensures n in {512, 1024, 2048, 4096}
  {
    Halves(n);
    ClusterSizes(n / 2 / 2 / 2 / 2 / 2);
  }

  lemma {:induction false} Halves(n: nat)
    requires n >= 32 && PowerOfTwo(n)
    ensures PowerOfTwo(n / 2 / 2 / 2 / 2 / 2) && n == 32 * (n / 2 / 2 / 2 / 2 / 2)
  {
    assert PowerOfTwo(n / 2) && PowerOfTwo(n / 2 / 2);
    assert PowerOfTwo(n / 2 / 2 / 2) && PowerOfTwo(n / 2 / 2 / 2 / 2);
  }

  lemma {:induction false} ClusterSizes(n: nat)
    requires 1 <= n <= 128 && PowerOfTwo(n)
    ensures n in {1, 2, 4, 8, 16, 32, 64, 128}
    decreases n
  {
    if n > 1 {
      ClusterSizes(n / 2);
    }
  }

  /** A formatted volume: the root directory has one zeroed cluster, all others are free. */
  lemma {:induction false} FormattedTidy(v: Volume)
    requires VolumeOk(v) && ValidCluster(v.fat, 2) && Next(v.fat, 2) == END && Contents(v, 2) == Zeros(v.size)
    ensures Tidy(v, 2, map[2 := true]) && forall q: Path :: PlainPath(q) ==> ReadAt(v, 2, q) == Err(NotFound)
  {
    var heads: Heads := map[2 := true];
    assert IsChain(v.fat, [2]);
    ChainIs(v.fat, [2]);
    assert Joined(v, [2]) == Joined(v, []) + Contents(v, 2);
    var bytes := DirBytes(v, 2);
    assert bytes == Zeros(v.size);
    assert forall k: nat :: HasSlot(bytes, k) ==> SlotAt(bytes, k)[0] == 0;
    assert DirOk(v, 2, heads, 2);
    forall q: Path | PlainPath(q) ensures ReadAt(v, 2, q) == Err(NotFound) {
      NothingResolves(v, q);
    }
  }

  lemma {:induction false} NothingResolves(v: Volume, q: Path)
    requires HasChain(v.fat, 2) && forall k: nat :: HasSlot(DirBytes(v, 2), k) ==> SlotAt(DirBytes(v, 2), k)[0] == 0
    ensures q != [] ==> Resolve(v, 2, q) == Err(NotFound)
    ensures ReadAt(v, 2, q) == Err(NotFound)
    decreases |q|
  {
    hide DirBytes;
    if q != [] {
      NothingResolves(v, q[..|q| - 1]);
    }
  }
}
