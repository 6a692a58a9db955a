/**
  The typed view of a FAT32 device: the allocation table and the cluster contents,
  read out of raw sectors, with the effect of each kind of sector write on the view.
 */
module FatVolume {
  import opened Arithmetic
  import opened Bytes
  import opened Sectors
  import opened FatChain

  datatype FatError = NotFound | AlreadyExists | InvalidName | TooLarge | NoSpace | CorruptFilesystem | UnsupportedFilesystem | UnsupportedSectorSize
  datatype Result<+T> = Ok(value: T) | Err(error: FatError)
  datatype Geometry = Geometry(
    bps: nat,         // bytes in a sector
    spc: nat,         // sectors in a cluster
    reserved: nat,    // sectors before the first table
    copies: nat,      // tables
    spf: nat,         // sectors in a table
    total: nat,       // sectors
    root: nat,        // first cluster of the root directory
    clusters: nat)
  {
    function FirstData(): nat {
      reserved + copies * spf
    }

    function ClusterSize(): nat {
      bps * spc
    }

    predicate Valid() {
      && bps in {512, 1024, 2048, 4096} && spc in {1, 2, 4, 8, 16, 32, 64, 128}
      && 1 <= reserved && 1 <= copies <= 2 && FirstData() + clusters * spc <= total
      && 65525 <= clusters <= MAX_CLUSTERS && 4 * (clusters + 2) <= spf * bps
      && 2 <= root < clusters + 2
    }

    predicate ValidCluster(c: nat) {
      2 <= c < clusters + 2
    }
  }

  predicate Fits(dev: Device, g: Geometry) {
    g.Valid() && g.total <= |dev| && forall i :: 0 <= i < |dev| ==> |dev[i]| == g.bps
  }

  // ---------- where things are ----------

  function FatSector(g: Geometry, copy: nat, c: nat): nat
    requires g.bps > 0
  {
    g.reserved + copy * g.spf + 4 * c / g.bps
  }

  function FatOffset(g: Geometry, c: nat): nat
    requires g.bps > 0
  {
    4 * c % g.bps
  }

  lemma {:induction false} FatPlace(g: Geometry, copy: nat, c: nat)
    requires g.Valid() && copy < g.copies && g.ValidCluster(c)
    ensures g.reserved + copy * g.spf <= FatSector(g, copy, c) < g.reserved + copy * g.spf + g.spf <= g.FirstData()
    ensures FatOffset(g, c) + 4 <= g.bps
  {
    WordFits(g.bps, c);
    QuotientBound(4 * c, g.spf, g.bps);
  }

  lemma WordFits(bps: nat, c: nat)
    requires bps in {512, 1024, 2048, 4096}
    ensures 4 * c % bps + 4 <= bps
  {
    var m := bps / 4;
    DivMod(c, m);
    var q, r := c / m, c % m;
    assert q * bps == 4 * (q * m) by { assert bps == 4 * m; }
    DivModUnique(4 * c, bps, q, 4 * r);
  }

  /** Different entries are stored in different places. */
  lemma {:induction false} FatPlacesApart(g: Geometry, j: nat, c: nat, k: nat, d: nat)
    requires g.Valid() && j < g.copies && k < g.copies && g.ValidCluster(c) && g.ValidCluster(d)
    requires FatSector(g, j, c) == FatSector(g, k, d)
    ensures j == k && (c != d ==> FatOffset(g, c) + 4 <= FatOffset(g, d) || FatOffset(g, d) + 4 <= FatOffset(g, c))
  {
    FatPlace(g, j, c);
    FatPlace(g, k, d);
    DivMod(4 * c, g.bps);
    DivMod(4 * d, g.bps);
  }

  function Lba(g: Geometry, c: nat): nat
    requires g.ValidCluster(c)
  {
    g.FirstData() + (c - 2) * g.spc
  }

  lemma {:induction false} ClusterPlace(g: Geometry, c: nat)
    requires g.Valid() && g.ValidCluster(c)
    ensures g.FirstData() <= Lba(g, c) && Lba(g, c) + g.spc <= g.total
  {
    MulMono(c - 1, g.clusters, g.spc);
  }

  lemma {:induction false} ClustersApart(g: Geometry, c: nat, d: nat)
    requires g.Valid() && g.ValidCluster(c) && g.ValidCluster(d) && c < d
    ensures Lba(g, c) + g.spc <= Lba(g, d)
  {
    MulMono(c - 1, d - 2, g.spc);
  }

  // ---------- the allocation table ----------

  const MASK := 0x1000_0000

  function Word(dev: Device, g: Geometry, copy: nat, c: nat): u32
    requires Fits(dev, g) && copy < g.copies && g.ValidCluster(c)
  {
    FatPlace(g, copy, c);
    GetU32(dev[FatSector(g, copy, c)], FatOffset(g, c))
  }

  function FatFrom(dev: Device, g: Geometry, n: nat): (f: seq<nat>)
    requires Fits(dev, g) && n <= g.clusters
    ensures |f| == n && forall i :: 0 <= i < n ==> f[i] == Word(dev, g, 0, i + 2) % MASK
  {
    if n == 0 then [] else FatFrom(dev, g, n - 1) + [Word(dev, g, 0, n + 1) % MASK]
  }

  /** Every copy of the table says the same. */
  ghost predicate Mirrored(dev: Device, g: Geometry)
    requires Fits(dev, g)
  {
    forall k: nat, c: nat :: k < g.copies && g.ValidCluster(c) ==> Word(dev, g, k, c) % MASK == Word(dev, g, 0, c) % MASK
  }

  /** `bytes[offset..offset + 4]` becomes the little-endian `word`. */
  function WithWord(s: Sector, offset: nat, word: u32): (t: Sector)
    requires offset + 4 <= |s|
    ensures |t| == |s|
  {
    s[..offset] + LittleEndian(word, 4) + s[offset + 4..]
  }

  lemma {:induction false} WithWordReads(s: Sector, offset: nat, word: u32, at: nat)
    requires offset + 4 <= |s| && at + 4 <= |s| && (at == offset || at + 4 <= offset || offset + 4 <= at)
    ensures GetU32(WithWord(s, offset, word), at) == if at == offset then word else GetU32(s, at)
  {
    var t := WithWord(s, offset, word);
    if at == offset {
      assert word < Pow256(4) by { Pow256Values(); }
      StoredInteger(s[..offset], word, 4, s[offset + 4..]);
    } else {
      assert t[at..at + 4] == s[at..at + 4];
    }
  }

  /** Writing one entry of one copy changes that entry and no other. */
  lemma {:induction false} FatWritten(dev: Device, g: Geometry, copy: nat, c: nat, word: u32, k: nat, d: nat)
    requires Fits(dev, g) && copy < g.copies && g.ValidCluster(c) && k < g.copies && g.ValidCluster(d)
    ensures FatSector(g, copy, c) < |dev| && FatOffset(g, c) + 4 <= g.bps
    ensures var s := FatSector(g, copy, c);
      var after := dev[s := WithWord(dev[s], FatOffset(g, c), word)];
      Fits(after, g) && Word(after, g, k, d) == if k == copy && d == c then word else Word(dev, g, k, d)
  {
    hide Geometry.Valid, FatSector, FatOffset, WithWord, GetU32;
    FatPlaceIn(dev, g, copy, c);
    FatPlaceIn(dev, g, k, d);
    if FatSector(g, k, d) == FatSector(g, copy, c) {
      FatPlacesApart(g, copy, c, k, d);
      WithWordReads(dev[FatSector(g, copy, c)], FatOffset(g, c), word, FatOffset(g, d));
    }
  }

  lemma FatPlaceIn(dev: Device, g: Geometry, copy: nat, c: nat)
    requires Fits(dev, g) && copy < g.copies && g.ValidCluster(c)
    ensures g.bps > 0 && FatSector(g, copy, c) < g.FirstData() <= |dev| && FatOffset(g, c) + 4 <= g.bps
  {
    FatPlace(g, copy, c);
  }

  // ---------- cluster contents ----------

  function ClusterBytes(dev: Device, g: Geometry, c: nat): (s: seq<byte>)
    requires Fits(dev, g) && g.ValidCluster(c)
    ensures |s| == g.ClusterSize()
  {
    ClusterPlace(g, c);
    FlatLength(dev, g.bps, Lba(g, c), g.spc);
    Flat(dev, g.bps, Lba(g, c), g.spc)
  }

  function DataFrom(dev: Device, g: Geometry, n: nat): (d: seq<seq<byte>>)
    requires Fits(dev, g) && n <= g.clusters
    ensures |d| == n && forall i :: 0 <= i < n ==> d[i] == ClusterBytes(dev, g, i + 2)
  {
    if n == 0 then [] else DataFrom(dev, g, n - 1) + [ClusterBytes(dev, g, n + 1)]
  }

  // ---------- the view ----------

  /** Table and contents; cluster `c` is at index `c - 2` of both. */
  datatype Volume = Volume(fat: Fat, data: seq<seq<byte>>, size: nat)

  ghost predicate VolumeOk(v: Volume) {
    |v.data| == |v.fat| && v.size > 0 && v.size % 32 == 0 && forall i :: 0 <= i < |v.data| ==> |v.data[i]| == v.size
  }

  function Contents(v: Volume, c: nat): seq<byte> {
    if 2 <= c < |v.data| + 2 then v.data[c - 2] else []
  }

  function View(dev: Device, g: Geometry): (v: Volume)
    requires Fits(dev, g)
    ensures |v.fat| == |v.data| == g.clusters && v.size == g.ClusterSize()
  {
    Volume(FatFrom(dev, g, g.clusters), DataFrom(dev, g, g.clusters), g.ClusterSize())
  }

  lemma ViewAt(dev: Device, g: Geometry, c: nat)
    requires Fits(dev, g) && g.ValidCluster(c)
    ensures 0 < g.copies && Next(View(dev, g).fat, c) == Word(dev, g, 0, c) % MASK
    ensures Contents(View(dev, g), c) == ClusterBytes(dev, g, c)
  {
    hide Word, ClusterBytes;
    assert c - 2 + 2 == c;
  }

  lemma ViewOk(dev: Device, g: Geometry)
    requires Fits(dev, g)
    ensures VolumeOk(View(dev, g))
  {
    hide ClusterBytes;
    SizeOfCluster(g);
  }

  lemma SizeOfCluster(g: Geometry)
    requires g.Valid()
    ensures g.ClusterSize() > 0 && g.ClusterSize() % 32 == 0
  {
  }

  // ---------- what writes do to the view ----------

  /** The upper four bits of an entry are kept. */
  function Updated(word: u32, value: nat): u32 {
    word - word % MASK + value % MASK
  }

  /** Entry `c` has been written in the first `n` copies, and nothing else has. */
  ghost predicate EntryWritten(dev: Device, after: Device, g: Geometry, n: nat, c: nat, value: nat)
    requires Fits(dev, g) && g.ValidCluster(c)
  {
    && |after| == |dev| && Fits(after, g)
    && (forall i: nat :: g.FirstData() <= i < |dev| ==> after[i] == dev[i])
    && forall k: nat, d: nat :: k < g.copies && g.ValidCluster(d) ==>
      Word(after, g, k, d) == if k < n && d == c then Updated(Word(dev, g, k, d), value) else Word(dev, g, k, d)
  }

  lemma {:induction false} EntryWrittenStep(dev: Device, mid: Device, g: Geometry, n: nat, c: nat, value: nat)
    requires Fits(dev, g) && g.ValidCluster(c) && n < g.copies && EntryWritten(dev, mid, g, n, c, value)
    ensures var s := FatSector(g, n, c);
      && s < |mid| && FatOffset(g, c) + 4 <= |mid[s]|
      && EntryWritten(dev, mid[s := WithWord(mid[s], FatOffset(g, c), Updated(GetU32(mid[s], FatOffset(g, c)), value))], g, n + 1, c, value)
  {
    hide Geometry.Valid, FatSector, FatOffset, WithWord, Updated, GetU32;
    FatPlaceIn(mid, g, n, c);
    var s := FatSector(g, n, c);
    var word := Updated(Word(mid, g, n, c), value);
    WordIs(mid, g, n, c);
    var after := mid[s := WithWord(mid[s], FatOffset(g, c), word)];
    forall k: nat, d: nat | k < g.copies && g.ValidCluster(d)
      ensures Fits(after, g) && Word(after, g, k, d) == if k == n && d == c then word else Word(mid, g, k, d)
    {
      FatWritten(mid, g, n, c, word, k, d);
    }
    assert Fits(after, g);
  }

  lemma WordIs(dev: Device, g: Geometry, copy: nat, c: nat)
    requires Fits(dev, g) && copy < g.copies && g.ValidCluster(c)
    ensures FatSector(g, copy, c) < |dev| && FatOffset(g, c) + 4 <= |dev[FatSector(g, copy, c)]|
    ensures Word(dev, g, copy, c) == GetU32(dev[FatSector(g, copy, c)], FatOffset(g, c))
  {
    FatPlace(g, copy, c);
  }

  /** Once every copy is written the table has the new entry and is mirrored. */
  lemma {:induction false} EntryView(dev: Device, after: Device, g: Geometry, c: nat, value: nat)
    requires Fits(dev, g) && g.ValidCluster(c) && EntryWritten(dev, after, g, g.copies, c, value)
    ensures View(after, g) == View(dev, g).(fat := WithNext(View(dev, g).fat, c, value % MASK))
    ensures Mirrored(dev, g) ==> Mirrored(after, g)
  {
    hide Geometry.Valid, Word, ClusterBytes, FatFrom, DataFrom;
    var v, w := View(dev, g), View(after, g);
    forall d: nat | g.ValidCluster(d)
      ensures Contents(w, d) == Contents(v, d) && Next(w.fat, d) == if d == c then value % MASK else Next(v.fat, d)
    {
      ViewAt(dev, g, d);
      ViewAt(after, g, d);
      ClusterLba(g, d);
      ClusterFrame(dev, after, g, d);
    }
    SameData(v, w);
    SameFat(WithNext(v.fat, c, value % MASK), w.fat);
  }

  lemma SameData(v: Volume, w: Volume)
    requires |v.data| == |w.data| && forall c: nat :: 2 <= c < |v.data| + 2 ==> Contents(w, c) == Contents(v, c)
    ensures w.data == v.data
  {
    forall i | 0 <= i < |v.data| ensures w.data[i] == v.data[i] {
      assert Contents(w, i + 2) == Contents(v, i + 2);
    }
  }

  lemma SameFat(f: Fat, h: Fat)
    requires |f| == |h| && forall c: nat :: ValidCluster(f, c) ==> Next(h, c) == Next(f, c)
    ensures h == f
  {
    forall i | 0 <= i < |f| ensures h[i] == f[i] {
      assert Next(h, i + 2) == Next(f, i + 2);
    }
  }

  lemma ClusterLba(g: Geometry, c: nat)
    requires g.Valid() && g.ValidCluster(c)
    ensures g.FirstData() <= Lba(g, c)
  {
    ClusterPlace(g, c);
  }

  lemma {:induction false} ClusterFrame(dev: Device, after: Device, g: Geometry, c: nat)
    requires Fits(dev, g) && Fits(after, g) && |after| == |dev| && g.ValidCluster(c)
    requires forall i: nat :: Lba(g, c) <= i < Lba(g, c) + g.spc && i < |dev| ==> after[i] == dev[i]
    ensures ClusterBytes(after, g, c) == ClusterBytes(dev, g, c)
  {
    ClusterPlace(g, c);
    FlatFrame(dev, after, g.bps, Lba(g, c), g.spc);
  }

  /** Writes beyond the tables leave the tables alone. */
  lemma {:induction false} TablesApart(dev: Device, after: Device, g: Geometry)
    requires Fits(dev, g) && Fits(after, g) && |after| == |dev| && forall i: nat :: i < g.FirstData() && i < |dev| ==> after[i] == dev[i]
    ensures View(after, g).fat == View(dev, g).fat && (Mirrored(dev, g) ==> Mirrored(after, g))
  {
    hide Geometry.Valid, ClusterBytes, FatFrom, DataFrom;
    forall k: nat, d: nat | k < g.copies && g.ValidCluster(d) ensures Word(after, g, k, d) == Word(dev, g, k, d) {
      FatPlaceIn(dev, g, k, d);
    }
    var v, w := View(dev, g), View(after, g);
    forall d: nat | ValidCluster(v.fat, d) ensures Next(w.fat, d) == Next(v.fat, d) {
      ViewAt(dev, g, d);
      ViewAt(after, g, d);
    }
    SameFat(v.fat, w.fat);
  }

  /** Writes inside one cluster change that cluster's contents only. */
  lemma {:induction false} OneClusterView(dev: Device, after: Device, g: Geometry, c: nat)
    requires Fits(dev, g) && Fits(after, g) && |after| == |dev| && g.ValidCluster(c)
    requires forall i: nat :: i < |dev| && !(Lba(g, c) <= i < Lba(g, c) + g.spc) ==> after[i] == dev[i]
    ensures View(after, g) == View(dev, g).(data := View(dev, g).data[c - 2 := ClusterBytes(after, g, c)])
    ensures Mirrored(dev, g) ==> Mirrored(after, g)
  {
    hide ClusterBytes, FatFrom, DataFrom, Word;
    ClusterPlace(g, c);
    TablesApart(dev, after, g);
    var v, w := View(dev, g), View(after, g);
    forall d: nat | g.ValidCluster(d) && d != c ensures Contents(w, d) == Contents(v, d) {
      if d < c {
        ClustersApart(g, d, c);
      } else {
        ClustersApart(g, c, d);
      }
      ClusterFrame(dev, after, g, d);
      ViewAt(dev, g, d);
      ViewAt(after, g, d);
    }
    ViewAt(after, g, c);
    SameData(v.(data := v.data[c - 2 := ClusterBytes(after, g, c)]), w);
  }
}
