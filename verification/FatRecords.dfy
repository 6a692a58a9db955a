/**
  FAT32 as other systems see it: the fields of the boot sector, of the allocation table
  and of a directory entry at their places, and which names can be stored.
 */
module FatRecords {
  import opened Arithmetic
  import opened Bytes
  import opened Sectors
  import opened Slashes
  import opened FatVolume
  import opened FatDir
  import opened FatMount
  import opened FatPath

  // ---------- directory entries ----------

  /** A file's entry: name, archive attribute, first cluster in two halves, size. */
  lemma {:induction false} SlotRecord(name: ShortName, cluster: u32, size: u32)
    ensures var s := FileSlot(name, cluster, size);
      && |s| == 32 && s[0..11] == name && s[11] == 0x20 && GetU16(s, 20) == cluster / 65536 && GetU16(s, 26) == cluster % 65536
      && GetU32(s, 28) == size && s[12..20] == Zeros(8) && s[22..26] == Zeros(4)
  {
    hide LittleEndian, GetU16, GetU32;
    var s := FileSlot(name, cluster, size);
    FileSlotReads(name, cluster, size);
    HalvesOf(GetU16(s, 20), GetU16(s, 26), cluster);
  }

  lemma HalvesOf(high: nat, low: nat, whole: nat)
    requires low < 65536 && high * 65536 + low == whole
    ensures high == whole / 65536 && low == whole % 65536
  {
    DivModUnique(whole, 65536, high, low);
  }

  // ---------- the allocation table ----------

  /** Entry `c` of a table is its `c`-th 32-bit word; the upper four bits of a word are not part of it. */
  lemma {:induction false} EntryPlace(g: Geometry, copy: nat, c: nat, previous: u32, value: nat)
    requires g.Valid()
    ensures FatSector(g, copy, c) * g.bps + FatOffset(g, c) == (g.reserved + copy * g.spf) * g.bps + 4 * c
    ensures Updated(previous, value) / 0x1000_0000 == previous / 0x1000_0000 && Updated(previous, value) % 0x1000_0000 == value % 0x1000_0000
  {
    DivMod(4 * c, g.bps);
    var table := g.reserved + copy * g.spf;
    assert (table + 4 * c / g.bps) * g.bps == table * g.bps + 4 * c / g.bps * g.bps;
    DivModUnique(Updated(previous, value), 0x1000_0000, previous / 0x1000_0000, value % 0x1000_0000);
  }

  // ---------- names ----------

  /** `base`, or `base.extension`: at most eight and three of the admitted characters, in upper case, padded with spaces. */
  lemma {:induction false} ShortNameParts(base: seq<byte>, extension: seq<byte>)
    requires 1 <= |base| && AllShort(base, 8) && AllShort(extension, 3)
    ensures ShortNameOf(base + [DOT] + extension) == Ok(Field(base, 8) + Field(extension, 3))
    ensures ShortNameOf(base) == Ok(Field(base, 8) + Field([], 3))
  {
    hide Field;
    NoDots(base);
    NoDots(extension);
    var name := base + [DOT] + extension;
    DotAfter(base, extension);
    assert BaseOf(name) == base && ExtensionOf(name) == extension;
    assert BaseOf(base) == base && ExtensionOf(base) == [];
  }

  lemma NoDots(s: seq<byte>)
    requires forall k :: 0 <= k < |s| ==> ShortCharacter(s[k])
    ensures FirstDot(s) == |s|
  {
    assert forall k :: 0 <= k < |s| ==> s[k] != DOT;
  }

  lemma {:induction false} DotAfter(a: seq<byte>, b: seq<byte>)
    requires FirstDot(a) == |a|
    ensures FirstDot(a + [DOT] + b) == |a|
  {
    if a != [] {
      assert (a + [DOT] + b)[1..] == a[1..] + [DOT] + b;
      DotAfter(a[1..], b);
    }
  }

  /** And no other name is accepted. */
  lemma {:induction false} ShortNameForms(name: seq<byte>)
    requires ShortNameOf(name).Ok?
    ensures exists base, extension ::
      && 1 <= |base| && AllShort(base, 8) && AllShort(extension, 3)
      && (name == base + [DOT] + extension || (name == base && extension == []))
  {
    hide Field, ShortCharacter;
    var base, extension := BaseOf(name), ExtensionOf(name);
    var i := FirstDot(name);
    if i < |name| {
      assert name == base + [DOT] + extension;
    } else {
      assert name == base && extension == [];
    }
  }

  /** The characters admitted: letters, digits and sixteen others; neither dot, space nor slash. */
  lemma Admitted(b: byte)
    ensures ShortCharacter(b) <==>
      || ('0' as int <= b <= '9' as int) || ('A' as int <= b <= 'Z' as int) || ('a' as int <= b <= 'z' as int)
      || (b < 128 && (b as char) in "$%'-_@~`!(){}^#&")
  {
    var others := "$%'-_@~`!(){}^#&";
    assert |others| == 16;
    assert others == ['$', '%', '\'', '-', '_', '@', '~', '`', '!', '(', ')', '{', '}', '^', '#', '&'];
  }

  // ---------- the boot sector ----------

  /** The fields of the BIOS parameter block that matter are those of the geometry, and those that must be zero are. */
  predicate BootFields(boot: Sector, g: Geometry) {
    && |boot| >= 512 && boot[510] == 0x55 && boot[511] == 0xaa
    && GetU16(boot, 11) == g.bps && boot[13] == g.spc && GetU16(boot, 14) == g.reserved && boot[16] == g.copies
    && GetU16(boot, 17) == 0 && GetU16(boot, 22) == 0 && GetU16(boot, 42) == 0
    && g.total == (if GetU16(boot, 19) != 0 then GetU16(boot, 19) else GetU32(boot, 32))
    && GetU32(boot, 36) == g.spf && GetU32(boot, 44) == g.root
  }

  /** The numbers make sense: sizes are powers of two, and the clusters are all that fit behind the tables. */
  predicate BootNumbers(g: Geometry, sectors: nat) {
    && g.bps in {512, 1024, 2048, 4096} && g.spc in {1, 2, 4, 8, 16, 32, 64, 128}
    && 1 <= g.reserved && 1 <= g.copies <= 2 && 1 <= g.spf && 1 <= g.total <= sectors
    && g.reserved + g.copies * g.spf < 0x1_0000_0000
    && g.reserved + g.copies * g.spf + g.clusters * g.spc <= g.total < g.reserved + g.copies * g.spf + (g.clusters + 1) * g.spc
    && 65525 <= g.clusters && g.clusters + 2 <= g.spf * g.bps / 4 && 2 <= g.root < g.clusters + 2
  }

  /** A boot sector is accepted with a geometry exactly when it says so and the numbers make sense. */
  lemma {:induction false} BootAccepted(boot: Sector, sectorSize: nat, sectors: nat, g: Geometry)
    requires |boot| == sectorSize
    ensures ParseBoot(boot, sectorSize, sectors) == Ok(g) <==> g.bps == sectorSize && BootFields(boot, g) && BootNumbers(g, sectors)
  {
    hide GetU16, GetU32, PowerOfTwo;
    if ParseBoot(boot, sectorSize, sectors) == Ok(g) {
      AcceptedBoot(boot, sectorSize, sectors, g);
    }
    if g.bps == sectorSize && BootFields(boot, g) && BootNumbers(g, sectors) {
      AcceptableBoot(boot, sectorSize, sectors, g);
    }
  }

  lemma {:induction false} AcceptedBoot(boot: Sector, sectorSize: nat, sectors: nat, g: Geometry)
    requires |boot| == sectorSize && ParseBoot(boot, sectorSize, sectors) == Ok(g)
    ensures g.bps == sectorSize && BootFields(boot, g) && BootNumbers(g, sectors)
  {
    hide GetU16, GetU32, PowerOfTwo;
    SectorSizes(g.bps);
    ClusterSizes(g.spc);
    var tables := g.copies * g.spf;
    WholeClusters(g.total - (g.reserved + tables), g.spc);
  }

  /** As many clusters as fit. */
  lemma {:induction false} WholeClusters(n: nat, spc: nat)
    requires spc > 0
    ensures n / spc * spc <= n < (n / spc + 1) * spc
  {
    DivMod(n, spc);
    MulPlusOne(n / spc, spc);
  }

  lemma {:induction false} ClustersAre(n: nat, spc: nat, clusters: nat)
    requires spc > 0 && clusters * spc <= n < (clusters + 1) * spc
    ensures n / spc == clusters
  {
    MulPlusOne(clusters, spc);
    DivModUnique(n, spc, clusters, n - clusters * spc);
  }

  lemma {:induction false} AcceptableBoot(boot: Sector, sectorSize: nat, sectors: nat, g: Geometry)
    requires |boot| == sectorSize == g.bps && BootFields(boot, g) && BootNumbers(g, sectors)
    ensures ParseBoot(boot, sectorSize, sectors) == Ok(g)
  {
    hide GetU16, GetU32, PowerOfTwo;
    Powers(g.bps);
    Powers(g.spc);
    var tables := g.copies * g.spf;
    ClustersAre(g.total - (g.reserved + tables), g.spc, g.clusters);
  }

  lemma Powers(n: nat)
    requires n in {1, 2, 4, 8, 16, 32, 64, 128, 512, 1024, 2048, 4096}
    ensures PowerOfTwo(n)
  {
    assert PowerOfTwo(1) && PowerOfTwo(2) && PowerOfTwo(4) && PowerOfTwo(8) && PowerOfTwo(16) && PowerOfTwo(32) && PowerOfTwo(64);
    assert PowerOfTwo(128) && PowerOfTwo(256) && PowerOfTwo(512) && PowerOfTwo(1024) && PowerOfTwo(2048) && PowerOfTwo(4096);
  }
}
