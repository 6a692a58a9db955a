/**
  Where the slots of a FAT32 directory are on the device.
 */
module FatScan {
  import opened Arithmetic
  import opened Bytes
  import opened Sectors
  import opened FatChain
  import opened FatVolume
  import opened FatDir
  import opened FatTree
  import opened FatStore

  /** Slot `k` of the directory with clusters `cs`: sector `s` of cluster `i`, at `offset`. */
  ghost predicate Located(dev: Device, g: Geometry, cs: seq<nat>, i: nat, s: nat, offset: nat, k: nat) {
    && Fits(dev, g) && i < |cs| && (forall j :: 0 <= j < |cs| ==> g.ValidCluster(cs[j])) && s < g.spc && offset + SLOT <= g.bps
    && (ClusterPlace(g, cs[i]);
        SLOT * k == |Joined(View(dev, g), cs[..i])| + |Flat(dev, g.bps, Lba(g, cs[i]), s)| + offset)
  }

  lemma {:induction false} JoinedPiece(v: Volume, cs: seq<nat>, i: nat)
    requires i < |cs|
    ensures var a := |Joined(v, cs[..i])|;
      && a + |Contents(v, cs[i])| <= |Joined(v, cs)|
      && Joined(v, cs)[a..a + |Contents(v, cs[i])|] == Contents(v, cs[i])
    decreases |cs|
  {
    var front := cs[..|cs| - 1];
    if i < |cs| - 1 {
      JoinedPiece(v, front, i);
      assert front[..i] == cs[..i];
    }
  }

  lemma {:induction false} FlatPiece(dev: Device, bps: nat, lba: nat, n: nat, s: nat)
    requires s < n && lba + n <= |dev| && forall i :: 0 <= i < |dev| ==> |dev[i]| == bps
    ensures var a := |Flat(dev, bps, lba, s)|;
      && a + bps <= |Flat(dev, bps, lba, n)|
      && Flat(dev, bps, lba, n)[a..a + bps] == dev[lba + s]
  {
    if s < n - 1 {
      FlatPiece(dev, bps, lba, n - 1, s);
    }
  }

  /** A sector of the directory's clusters is a piece of the directory. */
  lemma {:induction false} SectorPiece(dev: Device, g: Geometry, cs: seq<nat>, i: nat, s: nat)
    requires Fits(dev, g) && i < |cs| && (forall j :: 0 <= j < |cs| ==> g.ValidCluster(cs[j])) && s < g.spc
    ensures Lba(g, cs[i]) + g.spc <= |dev| && |dev[Lba(g, cs[i]) + s]| == g.bps
    ensures var pos := |Joined(View(dev, g), cs[..i])| + |Flat(dev, g.bps, Lba(g, cs[i]), s)|;
      && pos % SLOT == 0 && g.bps % SLOT == 0
      && pos + g.bps <= |Joined(View(dev, g), cs)|
      && Joined(View(dev, g), cs)[pos..pos + g.bps] == dev[Lba(g, cs[i]) + s]
  {
    hide Joined, Flat, View, ClusterBytes;
    var v := View(dev, g);
    ClusterPlace(g, cs[i]);
    ClusterFlat(dev, g, cs[i]);
    JoinedPiece(v, cs, i);
    FlatPiece(dev, g.bps, Lba(g, cs[i]), g.spc, s);
    var a, b := |Joined(v, cs[..i])|, |Flat(dev, g.bps, Lba(g, cs[i]), s)|;
    SliceSlice(Joined(v, cs), a, Contents(v, cs[i]), b, g.bps);
    ViewOk(dev, g);
    JoinedAligned(v, cs[..i]);
    FlatAligned(dev, g.bps, Lba(g, cs[i]), s);
    AddAligned(a, b);
  }

  lemma {:induction false} FlatAligned(dev: Device, bps: nat, lba: nat, n: nat)
    requires lba + n <= |dev| && (forall i :: 0 <= i < |dev| ==> |dev[i]| == bps) && bps in {512, 1024, 2048, 4096}
    ensures |Flat(dev, bps, lba, n)| % SLOT == 0 && bps % SLOT == 0
  {
    if n > 0 {
      FlatAligned(dev, bps, lba, n - 1);
      AddAligned(|Flat(dev, bps, lba, n - 1)|, bps);
    }
  }

  /** The slot on the device is the slot in the directory. */
  lemma {:induction false} LocatedSlot(dev: Device, g: Geometry, cs: seq<nat>, i: nat, s: nat, offset: nat, k: nat)
    requires Located(dev, g, cs, i, s, offset, k)
    ensures Lba(g, cs[i]) + s < |dev| && |dev[Lba(g, cs[i]) + s]| == g.bps
    ensures HasSlot(Joined(View(dev, g), cs), k)
    ensures SlotAt(Joined(View(dev, g), cs), k) == dev[Lba(g, cs[i]) + s][offset..offset + SLOT]
  {
    hide Joined, Flat, View, ClusterBytes, Geometry.Valid;
    SectorPiece(dev, g, cs, i, s);
    var pos := |Joined(View(dev, g), cs[..i])| + |Flat(dev, g.bps, Lba(g, cs[i]), s)|;
    SliceSlice(Joined(View(dev, g), cs), pos, dev[Lba(g, cs[i]) + s], offset, SLOT);
  }

  lemma ClusterFlat(dev: Device, g: Geometry, c: nat)
    requires Fits(dev, g) && g.ValidCluster(c)
    ensures Lba(g, c) + g.spc <= |dev| && Contents(View(dev, g), c) == Flat(dev, g.bps, Lba(g, c), g.spc)
  {
    hide View, Flat;
    ClusterPlace(g, c);
    ViewAt(dev, g, c);
  }

  lemma SliceSlice(whole: seq<byte>, a: nat, part: seq<byte>, b: nat, n: nat)
    requires a + |part| <= |whole| && whole[a..a + |part|] == part && b + n <= |part|
    ensures whole[a + b..a + b + n] == part[b..b + n]
  {
    var x, y := whole[a + b..a + b + n], part[b..b + n];
    forall j | 0 <= j < n ensures x[j] == y[j] {
      assert part[b + j] == whole[a..a + |part|][b + j] == whole[a + (b + j)];
    }
  }

  // ---------- writing a slot ----------

  lemma {:induction false} JoinedPatched(v: Volume, w: Volume, cs: seq<nat>, i: nat, at: nat, input: seq<byte>)
    requires Distinct(cs) && i < |cs| && at + |input| <= |Contents(v, cs[i])|
    requires Contents(w, cs[i]) == Patched(Contents(v, cs[i]), at, input)
    requires forall j :: 0 <= j < |cs| && j != i ==> Contents(w, cs[j]) == Contents(v, cs[j])
    ensures |Joined(v, cs[..i])| + at + |input| <= |Joined(v, cs)|
    ensures Joined(w, cs) == Patched(Joined(v, cs), |Joined(v, cs[..i])| + at, input)
    decreases |cs|
  {
    hide Patched;
    JoinedPiece(v, cs, i);
    var front, last := cs[..|cs| - 1], cs[|cs| - 1];
    if i == |cs| - 1 {
      JoinedFrame(v, w, front);
      PatchedRight(Joined(v, front), Contents(v, last), at, input);
    } else {
      assert front[..i] == cs[..i];
      JoinedPatched(v, w, front, i, at, input);
      PatchedLeft(Joined(v, front), Contents(v, last), |Joined(v, cs[..i])| + at, input);
    }
  }

  /** Writing 32 bytes at the location rewrites that slot and touches one cluster. */
  lemma {:induction false} SlotWritten(dev: Device, g: Geometry, cs: seq<nat>, i: nat, s: nat, offset: nat, k: nat, slot: Slot)
    requires Located(dev, g, cs, i, s, offset, k) && Distinct(cs)
    ensures Lba(g, cs[i]) + s < |dev| && |dev[Lba(g, cs[i]) + s]| == g.bps && HasSlot(Joined(View(dev, g), cs), k)
    ensures var lba := Lba(g, cs[i]) + s;
      var after := dev[lba := Patched(dev[lba], offset, slot)];
      && Fits(after, g) && View(after, g).fat == View(dev, g).fat && (Mirrored(dev, g) ==> Mirrored(after, g))
      && (forall c: nat :: c != cs[i] ==> Contents(View(after, g), c) == Contents(View(dev, g), c))
      && Joined(View(after, g), cs) == WithSlot(Joined(View(dev, g), cs), k, slot)
  {
    hide Joined, Flat, View, ClusterBytes, Patched, Word;
    LocatedSlot(dev, g, cs, i, s, offset, k);
    var lba := Lba(g, cs[i]) + s;
    var after := dev[lba := Patched(dev[lba], offset, slot)];
    ClusterPlace(g, cs[i]);
    ClusterFlat(dev, g, cs[i]);
    OneClusterView(dev, after, g, cs[i]);
    ViewAt(after, g, cs[i]);
    ClusterFlat(after, g, cs[i]);
    FlatPatched(dev, after, g.bps, Lba(g, cs[i]), g.spc, s, offset, slot);
    JoinedPatched(View(dev, g), View(after, g), cs, i, |Flat(dev, g.bps, Lba(g, cs[i]), s)| + offset, slot);
  }

  // ---------- scanning one sector ----------

  datatype Scan = Hit(offset: nat) | Ended | Onward

  /** The inner loop of `read_directory`, looking for one name. */
  method ScanSector(sector: Sector, name: ShortName, ghost whole: seq<byte>, ghost k: nat) returns (r: Scan)
    requires |sector| % SLOT == 0 && SLOT * k + |sector| <= |whole| && whole[SLOT * k..SLOT * k + |sector|] == sector
    ensures r.Hit? ==> r.offset % SLOT == 0 && r.offset + SLOT <= |sector| && Find(whole, name, k) == Some(k + r.offset / SLOT)
    ensures r.Ended? ==> Find(whole, name, k).None?
    ensures r.Onward? ==> Find(whole, name, k) == Find(whole, name, k + |sector| / SLOT)
  {
    hide Live;
    var offset := 0;
    while offset < |sector|
      invariant offset % SLOT == 0 && offset <= |sector|
      invariant Find(whole, name, k) == Find(whole, name, k + offset / SLOT)
    {
      SlotInSector(sector, whole, k, offset);
      var slot: Slot := sector[offset..offset + SLOT];
      if slot[0] == 0 {
        return Ended;
      }
      if Live(slot) && NameOf(slot) == name {
        return Hit(offset);
      }
      offset := offset + SLOT;
    }
    r := Onward;
  }

  lemma SlotInSector(sector: Sector, whole: seq<byte>, k: nat, offset: nat)
    requires |sector| % SLOT == 0 && SLOT * k + |sector| <= |whole| && whole[SLOT * k..SLOT * k + |sector|] == sector
    requires offset % SLOT == 0 && offset < |sector|
    ensures offset + SLOT <= |sector| && HasSlot(whole, k + offset / SLOT)
    ensures SlotAt(whole, k + offset / SLOT) == sector[offset..offset + SLOT]
  {
    var j := k + offset / SLOT;
    assert SLOT * j == SLOT * k + offset;
    SliceSlice(whole, SLOT * k, sector, offset, SLOT);
  }

  /** The inner loop of `find_free_slot`. */
  method ScanVacant(sector: Sector, ghost whole: seq<byte>, ghost k: nat) returns (r: Option<nat>)
    requires |sector| % SLOT == 0 && SLOT * k + |sector| <= |whole| && whole[SLOT * k..SLOT * k + |sector|] == sector
    ensures r.Some? ==> r.value % SLOT == 0 && r.value + SLOT <= |sector| && FirstVacant(whole, k) == Some(k + r.value / SLOT)
    ensures r.None? ==> FirstVacant(whole, k) == FirstVacant(whole, k + |sector| / SLOT)
  {
    var offset := 0;
    while offset < |sector|
      invariant offset % SLOT == 0 && offset <= |sector|
      invariant FirstVacant(whole, k) == FirstVacant(whole, k + offset / SLOT)
    {
      SlotInSector(sector, whole, k, offset);
      var slot: Slot := sector[offset..offset + SLOT];
      if Vacant(slot) {
        return Some(offset);
      }
      offset := offset + SLOT;
    }
    r := None;
  }

  // ---------- scanning a directory ----------

  /** The position after sector `s` of cluster `i`. */
  lemma {:induction false} NextSector(dev: Device, g: Geometry, cs: seq<nat>, i: nat, s: nat)
    requires Fits(dev, g) && i < |cs| && (forall j :: 0 <= j < |cs| ==> g.ValidCluster(cs[j])) && s < g.spc
    ensures Lba(g, cs[i]) + g.spc <= |dev|
    ensures |Flat(dev, g.bps, Lba(g, cs[i]), s + 1)| == |Flat(dev, g.bps, Lba(g, cs[i]), s)| + g.bps
    ensures |Joined(View(dev, g), cs[..i + 1])| == |Joined(View(dev, g), cs[..i])| + |Flat(dev, g.bps, Lba(g, cs[i]), g.spc)|
  {
    hide View;
    ClusterFlat(dev, g, cs[i]);
    assert cs[..i + 1][..i] == cs[..i] && cs[..i + 1][i] == cs[i];
  }

  lemma {:induction false} JoinedLength(v: Volume, cs: seq<nat>)
    requires VolumeOk(v) && Clusters(v.fat, cs)
    ensures |Joined(v, cs)| == |cs| * v.size
    decreases |cs|
  {
    hide VolumeOk, Clusters;
    if cs != [] {
      var front, c := cs[..|cs| - 1], cs[|cs| - 1];
      FrontClusters(v.fat, cs);
      JoinedLength(v, front);
      ContentsLength(v, c);
      MulPlusOne(|front|, v.size);
    }
  }

  lemma FrontClusters(f: Fat, cs: seq<nat>)
    requires Clusters(f, cs) && cs != []
    ensures Clusters(f, cs[..|cs| - 1]) && ValidCluster(f, cs[|cs| - 1])
  {
  }

  lemma ContentsLength(v: Volume, c: nat)
    requires VolumeOk(v) && ValidCluster(v.fat, c)
    ensures |Contents(v, c)| == v.size
  {
  }

  /** Places do not depend on contents. */
  lemma {:induction false} LocatedKept(dev: Device, after: Device, g: Geometry, cs: seq<nat>, i: nat, s: nat, offset: nat, k: nat)
    requires Located(dev, g, cs, i, s, offset, k) && Fits(after, g)
    ensures Located(after, g, cs, i, s, offset, k)
  {
    hide View, Flat, Joined;
    ViewOk(dev, g);
    ViewOk(after, g);
    JoinedLength(View(dev, g), cs[..i]);
    JoinedLength(View(after, g), cs[..i]);
    ClusterPlace(g, cs[i]);
    FlatLength(dev, g.bps, Lba(g, cs[i]), s);
    FlatLength(after, g.bps, Lba(g, cs[i]), s);
  }
}
