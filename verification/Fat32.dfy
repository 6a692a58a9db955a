/**
  The FAT32 driver over raw sectors: table entries, cluster chains, directories and
  files, specified through the typed view.
 */
module FatDriver {
  import opened Arithmetic
  import opened Bytes
  import opened Sectors
  import opened FatChain
  import opened FatVolume
  import opened FatDir
  import opened FatTree
  import opened FatStore
  import opened FatScan
  import opened FatAssemble
  import opened FatPath

  /** Where a slot was found. */
  datatype Entry = Entry(sector: nat, offset: nat, slot: Slot)

  class Fat32 {
    const g: Geometry
    var device: Device
    ghost var heads: Heads

    constructor (geometry: Geometry, image: Device, ghost objects: Heads)
      requires Fits(image, geometry) && Tidy(View(image, geometry), geometry.root, objects)
      ensures Ready() && g == geometry && device == image && heads == objects
    {
      hide View, Tidy;
      g := geometry;
      device := image;
      heads := objects;
    }

    ghost predicate Mounted()
      reads this
    {
      Fits(device, g)
    }

    /** Table copies that were alike still are. */
    twostate predicate KeepsMirror()
      reads this
    {
      Fits(old(device), g) && Fits(device, g) && (Mirrored(old(device), g) ==> Mirrored(device, g))
    }

    ghost function V(): Volume
      reads this
      requires Mounted()
      ensures |V().fat| == |V().data| == g.clusters
    {
      View(device, g)
    }

    // ---------- table entries ----------

    method ReadFatEntry(c: nat) returns (r: Result<nat>)
      requires Mounted()
      ensures r == if g.ValidCluster(c) then Ok(Next(V().fat, c)) else Err(CorruptFilesystem)
    {
      hide Mirrored, Geometry.Valid, View;
      if !g.ValidCluster(c) {
        return Err(CorruptFilesystem);
      }
      ViewAt(device, g, c);
      WordIs(device, g, 0, c);
      r := Ok(GetU32(device[FatSector(g, 0, c)], FatOffset(g, c)) % MASK);
    }

    /** Writes an entry in every copy of the table. */
    method WriteFatEntry(c: nat, value: nat) returns (r: Result<()>)
      requires Mounted()
      modifies this`device
      ensures Mounted() && KeepsMirror()
      ensures !g.ValidCluster(c) ==> r == Err(CorruptFilesystem) && device == old(device)
      ensures g.ValidCluster(c) ==> r == Ok(()) && V() == old(V()).(fat := WithNext(old(V()).fat, c, value % MASK))
    {
      hide Mirrored, Geometry.Valid, View, EntryWritten, WithWord, Updated, FatSector, FatOffset;
      if !g.ValidCluster(c) {
        return Err(CorruptFilesystem);
      }
      EntryWrittenNone(device, g, c, value);
      for copy := 0 to g.copies
        invariant Fits(device, g) && EntryWritten(old(device), device, g, copy, c, value)
      {
        EntryWrittenStep(old(device), device, g, copy, c, value);
        var sector, offset := FatSector(g, copy, c), FatOffset(g, c);
        var word := Updated(GetU32(device[sector], offset), value);
        device := device[sector := WithWord(device[sector], offset, word)];
        EntryWrittenFits(old(device), device, g, copy + 1, c, value);
      }
      EntryView(old(device), device, g, c, value);
      r := Ok(());
    }

    // ---------- clusters ----------

    method ReadCluster(c: nat) returns (r: Result<seq<byte>>)
      requires Mounted()
      ensures r == if g.ValidCluster(c) then Ok(Contents(V(), c)) else Err(CorruptFilesystem)
    {
      hide Mirrored, View, Flat;
      if !g.ValidCluster(c) {
        return Err(CorruptFilesystem);
      }
      ViewAt(device, g, c);
      ClusterPlace(g, c);
      var bytes := [];
      FlatNone(device, g.bps, Lba(g, c));
      for s := 0 to g.spc
        invariant bytes == Flat(device, g.bps, Lba(g, c), s)
      {
        FlatSplit(device, g.bps, Lba(g, c), s + 1);
        bytes := bytes + device[Lba(g, c) + s];
      }
      r := Ok(bytes);
    }

    method WriteCluster(c: nat, bytes: seq<byte>) returns (r: Result<()>)
      requires Mounted() && |bytes| == g.ClusterSize()
      modifies this`device
      ensures Mounted() && KeepsMirror()
      ensures !g.ValidCluster(c) ==> r == Err(CorruptFilesystem) && device == old(device)
      ensures g.ValidCluster(c) ==> r == Ok(()) && V() == old(V()).(data := old(V()).data[c - 2 := bytes])
    {
      hide Mirrored, View, Flat, Geometry.Valid, ClusterBytes, Product;
      if !g.ValidCluster(c) {
        return Err(CorruptFilesystem);
      }
      ClusterPlace(g, c);
      var lba := Lba(g, c);
      var rest := bytes;
      ProductStart(g.bps, g.spc);
      FlatNone(device, g.bps, lba);
      for s := 0 to g.spc
        invariant |device| == |old(device)| && Fits(device, g)
        invariant Product(|rest|, g.bps, g.spc - s) && Flat(device, g.bps, lba, s) + rest == bytes
        invariant forall i: nat :: i < |device| && !(lba <= i < lba + g.spc) ==> device[i] == old(device)[i]
      {
        ProductStep(|rest|, g.bps, g.spc - s);
        FlatStore(device, g.bps, lba, s, rest, bytes);
        device := device[lba + s := rest[..g.bps]];
        rest := rest[g.bps..];
      }
      ProductDone(|rest|, g.bps);
      assert Flat(device, g.bps, lba, g.spc) == bytes;
      OneClusterView(old(device), device, g, c);
      ClusterIsFlat(device, g, c);
      r := Ok(());
    }

    // ---------- chains ----------

    /** Succeeds exactly when following the table from `first` reaches an end mark. */
    method ClusterChain(first: nat) returns (r: Result<seq<nat>>)
      requires Mounted()
      ensures r.Ok? <==> HasChain(V().fat, first)
      ensures r.Ok? ==> r.value == Chain(V().fat, first) && Distinct(r.value) && |r.value| <= g.clusters
      ensures r.Err? ==> r.error == CorruptFilesystem
    {
      hide Mirrored, View, Geometry.Valid;
      ghost var f := V().fat;
      if !g.ValidCluster(first) {
        return Err(CorruptFilesystem);
      }
      var chain: seq<nat> := [];
      var current := first;
      for i := 0 to g.clusters
        invariant |chain| == i && g.ValidCluster(current) && Linked(f, chain + [current]) && (chain + [current])[0] == first
      {
        ghost var run := chain + [current];
        chain := chain + [current];
        var next := ReadFatEntry(current);
        if next.value >= END_MIN {
          ChainIs(f, chain);
          ChainDistinct(f, chain);
          return Ok(chain);
        }
        if !g.ValidCluster(next.value) {
          BrokenRunHasNoChain(f, run);
          return Err(CorruptFilesystem);
        }
        current := next.value;
        LinkMore(f, run, current);
      }
      LongRunHasNoChain(f, chain + [current]);
      r := Err(CorruptFilesystem);
    }

    method ReleaseClusters(cs: seq<nat>)
      requires Mounted() && Clusters(V().fat, cs)
      modifies this`device
      ensures Mounted() && KeepsMirror() && Released(old(V()).fat, V().fat, cs) && V().data == old(V()).data
    {
      hide Mirrored, View, Geometry.Valid;
      for i := 0 to |cs|
        invariant Mounted() && KeepsMirror() && V().data == old(V()).data && Released(old(V()).fat, V().fat, cs[..i])
      {
        var _ := WriteFatEntry(cs[i], 0);
        assert cs[..i + 1] == cs[..i] + [cs[i]];
      }
      assert cs[..|cs|] == cs;
    }

    /** Takes the lowest free clusters and links them; succeeds exactly if there are enough. */
    method AllocateChain(count: nat) returns (r: Result<seq<nat>>)
      requires Mounted()
      modifies this`device
      ensures Mounted() && KeepsMirror() && V().data == old(V()).data
      ensures r.Ok? <==> count <= |FreeSet(old(V()).fat)|
      ensures r.Ok? ==> |r.value| == count && Allocation(old(V()).fat, r.value) && LinkedUp(old(V()).fat, V().fat, r.value)
      ensures r.Err? ==> r.error == NoSpace && V().fat == old(V()).fat
    {
      hide Mirrored, View, Geometry.Valid, FreeSet;
      ghost var f := V().fat;
      if count == 0 {
        return Ok([]);
      }
      var clusters: seq<nat> := [];
      var c: nat := 2;
      while c < g.clusters + 2 && |clusters| < count
        invariant 2 <= c <= g.clusters + 2 && |clusters| <= count && Mounted() && KeepsMirror() && V().data == old(V()).data
        invariant Scanned(f, clusters, c) && Marked(f, V().fat, clusters)
      {
        var entry := ReadFatEntry(c);
        ScanStep(f, V().fat, clusters, c);
        if entry.value == FREE {
          var _ := WriteFatEntry(c, END);
          clusters := clusters + [c];
        }
        c := c + 1;
      }
      ScanEnds(f, clusters, c, count);
      if |clusters| != count {
        MarkedClusters(f, V().fat, clusters);
        ghost var mid := V().fat;
        ReleaseClusters(clusters);
        UnmarkRestores(f, mid, V().fat, clusters);
        return Err(NoSpace);
      }
      LinkClusters(clusters, f);
      r := Ok(clusters);
    }

    /** The second loop of `allocate_chain`. */
    method LinkClusters(clusters: seq<nat>, ghost f: Fat)
      requires Mounted() && Marked(f, V().fat, clusters) && Distinct(clusters) && clusters != []
      modifies this`device
      ensures Mounted() && KeepsMirror() && V().data == old(V()).data && LinkedUp(f, V().fat, clusters)
    {
      hide Mirrored, View, Geometry.Valid, Marked, LinkedBelow, LinkedUp;
      MarkedClusters(f, V().fat, clusters);
      for i := 0 to |clusters| - 1
        invariant Mounted() && KeepsMirror() && V().data == old(V()).data
        invariant LinkedBelow(f, V().fat, clusters, i)
      {
        LinkStep(f, V().fat, clusters, i);
        var _ := WriteFatEntry(clusters[i], clusters[i + 1]);
      }
      LinkEnds(f, V().fat, clusters);
    }

    // ---------- directories ----------

    /** The first entry of that name, with its place. */
    method FindEntry(d: nat, name: ShortName) returns (r: Result<Option<Entry>>, ghost i: nat, ghost s: nat, ghost k: nat)
      requires Mounted()
      ensures r.Ok? <==> HasChain(V().fat, d)
      ensures r.Err? ==> r.error == CorruptFilesystem
      ensures r.Ok? && r.value.None? ==> Find(DirBytes(V(), d), name, 0).None?
      ensures r.Ok? && r.value.Some? ==>
        var e, cs := r.value.value, Chain(V().fat, d);
        && Find(DirBytes(V(), d), name, 0) == Some(k) && e.slot == SlotAt(DirBytes(V(), d), k)
        && Located(device, g, cs, i, s, e.offset, k) && g.ValidCluster(cs[i]) && e.sector == Lba(g, cs[i]) + s
    {
      hide Mirrored, View, Flat, Joined, Find, Live, Geometry.Valid, IsChain;
      i, s, k := 0, 0, 0;
      var found := ClusterChain(d);
      if found.Err? {
        return Err(found.error), 0, 0, 0;
      }
      var chain := found.value;
      ChainClusters(V().fat, chain);
      ghost var whole := DirBytes(V(), d);
      JoinedNone(V());
      for n := 0 to |chain|
        invariant SLOT * k == |Joined(V(), chain[..n])| && Find(whole, name, k) == Find(whole, name, 0)
      {
        ClusterFlat(device, g, chain[n]);
        FlatNone(device, g.bps, Lba(g, chain[n]));
        for m := 0 to g.spc
          invariant SLOT * k == |Joined(V(), chain[..n])| + |Flat(device, g.bps, Lba(g, chain[n]), m)|
          invariant Find(whole, name, k) == Find(whole, name, 0)
        {
          SectorPiece(device, g, chain, n, m);
          NextSector(device, g, chain, n, m);
          var sector := device[Lba(g, chain[n]) + m];
          var scan := ScanSector(sector, name, whole, k);
          if scan.Ended? {
            return Ok(None), 0, 0, 0;
          }
          if scan.Hit? {
            i, s, k := n, m, k + scan.offset / SLOT;
            LocatedSlot(device, g, chain, n, m, scan.offset, k);
            return Ok(Some(Entry(Lba(g, chain[n]) + m, scan.offset, sector[scan.offset..scan.offset + SLOT]))), i, s, k;
          }
          k := k + g.bps / SLOT;
        }
        LastSector(device, g, chain, n);
      }
      assert chain[..|chain|] == chain;
      NothingBeyond(whole, name, k);
      r := Ok(None);
    }

    /** The first half of `find_free_slot`: look for a vacant slot. */
    method FindVacant(chain: seq<nat>) returns (r: Option<(nat, nat)>, ghost i: nat, ghost s: nat, ghost k: nat)
      requires Mounted() && Clusters(V().fat, chain)
      ensures r.None? ==> FirstVacant(Joined(V(), chain), 0).None?
      ensures r.Some? ==>
        && FirstVacant(Joined(V(), chain), 0) == Some(k)
        && Located(device, g, chain, i, s, r.value.1, k) && g.ValidCluster(chain[i]) && r.value.0 == Lba(g, chain[i]) + s
    {
      hide Mirrored, View, Flat, Joined, FirstVacant, Geometry.Valid;
      i, s, k := 0, 0, 0;
      ghost var whole := Joined(V(), chain);
      JoinedNone(V());
      for n := 0 to |chain|
        invariant SLOT * k == |Joined(V(), chain[..n])| && FirstVacant(whole, k) == FirstVacant(whole, 0)
      {
        ClusterFlat(device, g, chain[n]);
        FlatNone(device, g.bps, Lba(g, chain[n]));
        for m := 0 to g.spc
          invariant SLOT * k == |Joined(V(), chain[..n])| + |Flat(device, g.bps, Lba(g, chain[n]), m)|
          invariant FirstVacant(whole, k) == FirstVacant(whole, 0)
        {
          SectorPiece(device, g, chain, n, m);
          NextSector(device, g, chain, n, m);
          var offset := ScanVacant(device[Lba(g, chain[n]) + m], whole, k);
          if offset.Some? {
            i, s, k := n, m, k + offset.value / SLOT;
            return Some((Lba(g, chain[n]) + m, offset.value)), i, s, k;
          }
          k := k + g.bps / SLOT;
        }
        LastSector(device, g, chain, n);
      }
      assert chain[..|chain|] == chain;
      NoVacancyBeyond(whole, k);
      r := None;
    }

    /** The second half: one more cluster, linked behind the last and zeroed. */
    method ExtendDirectory(chain: seq<nat>) returns (r: Result<(nat, nat)>, ghost x: nat)
      requires Mounted() && IsChain(V().fat, chain)
      modifies this`device
      ensures Mounted() && KeepsMirror()
      ensures r.Ok? <==> 1 <= |FreeSet(old(V()).fat)|
      ensures r.Err? ==> r.error == NoSpace && V() == old(V())
      ensures r.Ok? ==> Extended(old(V()), V(), chain, x) && g.ValidCluster(x) && r.value == (Lba(g, x), 0)
    {
      hide Mirrored, View, Geometry.Valid, FreeSet, IsChain, Linked, LinkedUp, Allocation, Extended;
      x := 0;
      ghost var v := V();
      var extension := AllocateChain(1);
      if extension.Err? {
        return Err(extension.error), 0;
      }
      var new' := extension.value[0];
      ChainClusters(v.fat, chain);
      var last := chain[|chain| - 1];
      NewCluster(v.fat, V().fat, extension.value);
      ghost var mid := V();
      var _ := WriteFatEntry(last, new');
      var _ := WriteCluster(new', Zeros(g.ClusterSize()));
      ViewOk(old(device), g);
      ViewOk(device, g);
      ExtendedBy(v, mid, V(), chain, new');
      x := new';
      r := Ok((Lba(g, new'), 0));
    }

    method WriteDirectoryEntry(sector: nat, offset: nat, slot: Slot, ghost cs: seq<nat>, ghost i: nat, ghost s: nat, ghost k: nat)
      requires Mounted() && Located(device, g, cs, i, s, offset, k) && Distinct(cs) && g.ValidCluster(cs[i]) && sector == Lba(g, cs[i]) + s
      modifies this`device
      ensures Mounted() && KeepsMirror() && V().fat == old(V()).fat && HasSlot(Joined(old(V()), cs), k)
      ensures Joined(V(), cs) == WithSlot(Joined(old(V()), cs), k, slot)
      ensures forall c: nat :: c != cs[i] ==> Contents(V(), c) == Contents(old(V()), c)
    {
      hide Mirrored, View, Joined, WithSlot, Geometry.Valid, Flat;
      SlotWritten(device, g, cs, i, s, offset, k, slot);
      device := device[sector := Patched(device[sector], offset, slot)];
    }

    /** Stores `contents` in the clusters of `chain`, zero-padded. */
    method WriteChain(chain: seq<nat>, contents: seq<byte>) returns (r: Result<()>)
      requires Mounted() && Clusters(V().fat, chain) && Distinct(chain)
      modifies this`device
      ensures Mounted() && KeepsMirror() && V().fat == old(V()).fat
      ensures r.Ok? <==> |contents| <= |chain| * g.ClusterSize()
      ensures r.Err? ==> r.error == NoSpace && device == old(device)
      ensures forall c: nat :: c !in chain ==> Contents(V(), c) == Contents(old(V()), c)
      ensures r.Ok? ==>
        && |contents| <= |Joined(V(), chain)| && Joined(V(), chain)[..|contents|] == contents
        && Joined(V(), chain) == contents + Zeros(|Joined(V(), chain)| - |contents|)
    {
      hide Mirrored, View, Geometry.Valid, Geometry.ClusterSize, Joined, Holds;
      var size := g.ClusterSize();
      if |contents| > |chain| * size {
        return Err(NoSpace);
      }
      JoinedNone(V());
      HoldsNothing(contents);
      var start := 0;
      for index := 0 to |chain|
        invariant Mounted() && KeepsMirror() && V().fat == old(V()).fat && start == index * size
        invariant forall c: nat :: c !in chain ==> Contents(V(), c) == Contents(old(V()), c)
        invariant |Joined(V(), chain[..index])| == start && Holds(Joined(V(), chain[..index]), contents)
      {
        var end := Min(start + size, |contents|);
        var bytes := Zeros(size);
        if start < |contents| {
          bytes := contents[start..end] + Zeros(size - (end - start));
        }
        ghost var v := V();
        var _ := WriteCluster(chain[index], bytes);
        JoinedGrows(v, V(), chain, index, bytes, contents);
        Distributes(size, index + 1);
        start := start + size;
      }
      assert chain[..|chain|] == chain;
      HoldsAll(Joined(V(), chain), contents);
      r := Ok(());
    }

    // ---------- paths ----------

    method ResolveDirectory(path: Path) returns (r: Result<nat>)
      requires Mounted()
      ensures r == Resolve(V(), g.root, path)
    {
      hide Mirrored, View, Geometry.Valid, Find, Located, Resolve, DirBytes;
      var cluster := g.root;
      ResolveNothing(V(), g.root, path);
      for n := 0 to |path|
        invariant Resolve(V(), g.root, path[..n]) == Ok(cluster)
      {
        ResolveStep(V(), g.root, path, n);
        var entry, i, s, k := FindEntry(cluster, path[n]);
        ghost var here := Resolve(V(), g.root, path[..n + 1]);
        if here.Err? {
          ResolveFails(V(), g.root, path, n + 1);
        }
        if entry.Err? {
          return Err(entry.error);
        }
        if entry.value.None? || !IsDirectory(entry.value.value.slot) {
          return Err(NotFound);
        }
        cluster := ClusterOf(entry.value.value.slot);
        if !g.ValidCluster(cluster) {
          return Err(CorruptFilesystem);
        }
      }
      assert path[..|path|] == path;
      r := Ok(cluster);
    }

    method ReadFile(path: seq<byte>) returns (r: Result<seq<byte>>)
      requires Mounted()
      ensures r == match PathComponents(path) case Err(e) => Err(e) case Ok(p) => ReadAt(V(), g.root, p)
    {
      hide Mirrored, View, Geometry.Valid, Find, Located, Resolve, PathComponents, ReadSlot;
      var components := PathComponents(path);
      if components.Err? {
        return Err(components.error);
      }
      var p := components.value;
      if p == [] {
        return Err(NotFound);
      }
      var parent := ResolveDirectory(p[..|p| - 1]);
      if parent.Err? {
        return Err(parent.error);
      }
      var entry, i, s, k := FindEntry(parent.value, p[|p| - 1]);
      if entry.Err? {
        return Err(entry.error);
      }
      if entry.value.None? {
        return Err(NotFound);
      }
      r := ReadEntry(entry.value.value.slot);
    }

    /** `read_file` once the entry is found. */
    method ReadEntry(slot: Slot) returns (r: Result<seq<byte>>)
      requires Mounted()
      ensures r == ReadSlot(V(), slot)
    {
      hide Mirrored, View, Geometry.Valid, ClusterOf, SizeOf, IsDirectory, Joined, IsChain;
      if IsDirectory(slot) {
        return Err(NotFound);
      }
      var size := SizeOf(slot);
      if size == 0 {
        return Ok([]);
      }
      var first := ClusterOf(slot);
      if !g.ValidCluster(first) {
        NoChainOutside(V(), first);
        return Err(CorruptFilesystem);
      }
      var chain := ClusterChain(first);
      if chain.Err? {
        return Err(chain.error);
      }
      ChainClusters(V().fat, chain.value);
      ViewOk(device, g);
      JoinedLength(V(), chain.value);
      if size > |chain.value| * g.ClusterSize() {
        return Err(CorruptFilesystem);
      }
      var output := [];
      JoinedNone(V());
      for n := 0 to |chain.value|
        invariant output == Joined(V(), chain.value[..n])
      {
        var bytes := ReadCluster(chain.value[n]);
        JoinedStep(V(), chain.value, n);
        output := output + bytes.value;
      }
      assert chain.value[..|chain.value|] == chain.value;
      r := Ok(output[..size]);
    }

    // ---------- storing a file ----------

    ghost predicate Ready()
      reads this
    {
      Mounted() && Tidy(V(), g.root, heads)
    }

    /** A vacant slot of the directory, made if there is none. */
    method FindFreeSlot(d: nat) returns (r: Result<(nat, nat)>, ghost i: nat, ghost s: nat, ghost k: nat, ghost ext: seq<nat>)
      requires Mounted() && HasChain(V().fat, d)
      modifies this`device
      ensures Mounted() && KeepsMirror()
      ensures r.Err? <==> FirstVacant(old(DirBytes(V(), d)), 0).None? && |FreeSet(old(V()).fat)| == 0
      ensures r.Err? ==> r.error == NoSpace && V() == old(V())
      ensures r.Ok? ==>
        var cs, bytes := Chain(old(V()).fat, d), old(DirBytes(V(), d));
        && Widened(old(V()), V(), cs, ext)
        && (if ext == [] then FirstVacant(bytes, 0) == Some(k) else FirstVacant(bytes, 0).None? && k == |bytes| / SLOT)
        && Located(device, g, cs + ext, i, s, r.value.1, k) && g.ValidCluster((cs + ext)[i]) && r.value.0 == Lba(g, (cs + ext)[i]) + s
    {
      hide Mirrored, View, Geometry.Valid, FirstVacant, Joined, Located, FreeSet, Extended, IsChain;
      i, s, k, ext := 0, 0, 0, [];
      var chain := ClusterChain(d);
      ChainClusters(V().fat, chain.value);
      ghost var v := V();
      var vacant;
      vacant, i, s, k := FindVacant(chain.value);
      if vacant.Some? {
        assert chain.value + [] == chain.value;
        return Ok(vacant.value), i, s, k, [];
      }
      ghost var x;
      r, x := ExtendDirectory(chain.value);
      if r.Err? {
        return r, 0, 0, 0, [];
      }
      ext, i, s := [x], |chain.value|, 0;
      k := |Joined(v, chain.value)| / SLOT;
      ViewOk(old(device), g);
      ExtensionLocated(old(device), device, g, chain.value, x);
    }

    /** Why `write_file` fails, if it does. */
    ghost function WriteError(path: seq<byte>, length: nat): Option<FatError>
      reads this
      requires Mounted()
    {
      if length >= 0x1_0000_0000 then Some(TooLarge)
      else
        match PathComponents(path)
        case Err(e) => Some(e)
        case Ok(p) =>
          if p == [] then Some(InvalidName)
          else
            match Resolve(V(), g.root, p[..|p| - 1])
            case Err(e) => Some(e)
            case Ok(d) => StoreError(V(), d, p[|p| - 1], length)
    }

    /** How many clusters are free once the file is stored. */
    ghost function FreeAfter(path: seq<byte>, length: nat): int
      reads this
      requires Mounted()
    {
      match PathComponents(path)
      case Err(_) => 0
      case Ok(p) =>
        if p == [] || Resolve(V(), g.root, p[..|p| - 1]).Err? then 0
        else FreeAfterIn(V(), Resolve(V(), g.root, p[..|p| - 1]).value, p[|p| - 1], length)
    }

    /** Stores a file, new or in place of an old one. */
    method WriteFile(path: seq<byte>, contents: seq<byte>) returns (r: Result<()>)
      requires Ready()
      modifies this`device, this`heads
      ensures Ready() && KeepsMirror()
      ensures r.Ok? <==> old(WriteError(path, |contents|)).None?
      ensures r.Err? ==> old(WriteError(path, |contents|)) == Some(r.error)
      ensures r.Ok? ==> PathComponents(path).Ok? && forall q: Path :: PlainPath(q) ==>
        ReadAt(V(), g.root, q) == if q == PathComponents(path).value then Ok(contents) else ReadAt(old(V()), g.root, q)
      ensures r.Ok? ==> forall q: Path :: PlainPath(q) ==> Resolve(V(), g.root, q) == Resolve(old(V()), g.root, q)
      ensures r.Ok? ==> Exchanged(old(V()), V(), g.root, PathComponents(path).value, |contents|)
      ensures r.Ok? ==> |FreeSet(V().fat)| == old(FreeAfter(path, |contents|))
      ensures r.Err? ==> V().fat == old(V()).fat && heads == old(heads) && forall q: Path :: ReadAt(V(), g.root, q) == ReadAt(old(V()), g.root, q)
      ensures r.Err? ==> forall c: nat :: !IsFree(V().fat, c) ==> Contents(V(), c) == Contents(old(V()), c)
    {
      hide Mirrored, View, Geometry.Valid, Find, Located, Resolve, PathComponents, ReadAt, Tidy, StoreError, FreeAfterIn, Stored, ClustersAt, IsFree;
      if |contents| >= 0x1_0000_0000 {
        return Err(TooLarge);
      }
      var components := PathComponents(path);
      if components.Err? {
        return Err(components.error);
      }
      var p := components.value;
      if p == [] {
        return Err(InvalidName);
      }
      var parent := ResolveDirectory(p[..|p| - 1]);
      if parent.Err? {
        return Err(parent.error);
      }
      var d := parent.value;
      ResolveStays(V(), g.root, heads, p[..|p| - 1]);
      TidyChain(V(), g.root, heads, d);
      ghost var v, h := V(), heads;
      ghost var x;
      r, x := StoreIn(d, p[|p| - 1], contents);
      if r.Ok? {
        heads := HeadsAfter(h, x);
        TidyAfter(v, g.root, h, V(), x);
        ClustersAfter(v, g.root, h, V(), x, p);
        forall q: Path | PlainPath(q) ensures ReadAt(V(), g.root, q) == if q == p then Ok(contents) else ReadAt(v, g.root, q) {
          ReadAfter(v, g.root, h, V(), x, p, q);
        }
        forall q: Path | PlainPath(q) ensures Resolve(V(), g.root, q) == Resolve(v, g.root, q) {
          ResolveAfter(v, g.root, h, V(), x, q);
        }
      } else {
        FreeWritesTidy(v, g.root, h, V());
        forall q: Path ensures ReadAt(V(), g.root, q) == ReadAt(v, g.root, q) {
          FreeWritesRead(v, g.root, V(), q);
        }
      }
    }

    /** `write_file` once the directory is resolved. */
    method StoreIn(d: nat, name: ShortName, contents: seq<byte>) returns (r: Result<()>, ghost x: Change)
      requires Ready() && d in heads && heads[d] && HasChain(V().fat, d) && Plain(name) && |contents| < 0x1_0000_0000
      modifies this`device
      ensures Mounted() && KeepsMirror()
      ensures r.Ok? <==> StoreError(old(V()), d, name, |contents|).None?
      ensures r.Err? ==> StoreError(old(V()), d, name, |contents|) == Some(r.error)
      ensures r.Ok? ==> Stored(old(V()), g.root, heads, V(), x) && x.d == d && x.name == name && x.contents == contents
      ensures r.Ok? ==> |FreeSet(V().fat)| == FreeAfterIn(old(V()), d, name, |contents|)
      ensures r.Ok? ==> V().size == old(V()).size > 0 && |x.ns| == Needed(|contents|, V().size)
      ensures r.Err? ==> OnlyFreeWritten(old(V()), V())
    {
      hide Mirrored, View, Geometry.Valid, Find, FirstVacant, Located, Tidy, DirBytes, FreeSet, Stored, Filled, IsChain,
           OnlyFreeWritten, Geometry.ClusterSize, IsDirectory, ClusterOf;
      x := Change(d, name, contents, [], [], [], 0);
      ghost var v := V();
      ViewOk(device, g);
      TidyTail(v, g.root, heads, d);
      var entry, i, s, k := FindEntry(d, name);
      var existing := entry.value;
      if existing.Some? && IsDirectory(existing.value.slot) {
        OnlyFreeSelf(v);
        return Err(AlreadyExists), x;
      }
      var oldCluster := if existing.Some? then ClusterOf(existing.value.slot) else 0;
      var filled := FillChain(contents);
      if filled.Err? {
        OnlyFreeSelf(v);
        return Err(filled.error), x;
      }
      if existing.Some? {
        LocatedKept(old(device), device, g, Chain(v.fat, d), i, s, existing.value.offset, k);
      }
      r, x := StoreFilled(d, name, contents, filled.value, existing, oldCluster, v, i, s, k);
      if r.Ok? {
        FreeAfterStore(v, g.root, heads, V(), x);
        SpaceAfter(v, g.root, heads, V(), x);
      }
    }

    /** The rest of `write_file`: enter the new chain in the directory, free the old one. */
    method StoreFilled(d: nat, name: ShortName, contents: seq<byte>, ns: seq<nat>, existing: Option<Entry>, oldCluster: nat,
                       ghost v: Volume, ghost i0: nat, ghost s0: nat, ghost k0: nat)
      returns (r: Result<()>, ghost x: Change)
      requires Mounted() && Tidy(v, g.root, heads) && d in heads && heads[d] && HasChain(v.fat, d) && Plain(name) && |contents| < 0x1_0000_0000
      requires Filled(v, V(), ns, contents) && (ns == [] <==> contents == []) && OldEntry(v, d, name, oldCluster)
      requires existing.None? <==> Find(DirBytes(v, d), name, 0).None?
      requires existing.Some? ==>
        var e, cs := existing.value, Chain(v.fat, d);
        && Find(DirBytes(v, d), name, 0) == Some(k0)
        && Located(device, g, cs, i0, s0, e.offset, k0) && g.ValidCluster(cs[i0]) && e.sector == Lba(g, cs[i0]) + s0
      modifies this`device
      ensures Mounted() && KeepsMirror()
      ensures r.Err? <==> Find(DirBytes(v, d), name, 0).None? && FirstVacant(DirBytes(v, d), 0).None? && |FreeSet(old(V()).fat)| == 0
      ensures r.Err? ==> r.error == NoSpace && OnlyFreeWritten(v, V())
      ensures r.Ok? ==> Stored(v, g.root, heads, V(), x) && x.d == d && x.name == name && x.contents == contents && x.ns == ns
      ensures r.Ok? ==> |x.ext| == Extension(DirBytes(v, d), name)
    {
      hide Mirrored, View, Geometry.Valid, Find, FirstVacant, Extension, Located, Tidy, DirBytes, FreeSet, Stored, Filled, Widened, Entered, Freed,
           Place, FileSlot, WithSlot, IsChain, OnlyFreeWritten, OldFile, OldEntry, Roomy, Joined, VolumeOk;
      x := Change(d, name, contents, ns, [], OldChain(v, oldCluster), 0);
      ghost var v2, cs := V(), Chain(v.fat, d);
      TidyTail(v, g.root, heads, d);
      FilledFirst(v, v2, ns, contents);
      var location;
      ghost var i, s, k, ext;
      location, i, s, k, ext := ChooseSlot(d, name, existing, ns, v, contents, i0, s0, k0);
      if location.Err? {
        FilledClusters(v, v2, ns, contents);
        ReleaseClusters(ns);
        ViewOk(device, g);
        FilledThenReleased(v, v2, V(), ns, contents);
        return Err(location.error), x;
      }
      ghost var v3 := V();
      x := Change(d, name, contents, ns, ext, OldChain(v, oldCluster), k);
      ChainNotEmpty(v.fat, cs);
      WidenedFacts(v, v2, v3, cs, x);
      ChainDistinct(v3.fat, cs + ext);
      LocatedIndex(device, g, cs + ext, i, s, location.value.1, k);
      var slot := FileSlot(name, First(ns), |contents|);
      ViewOk(device, g);
      WriteDirectoryEntry(location.value.0, location.value.1, slot, cs + ext, i, s, k);
      ghost var v4 := V();
      ViewOk(device, g);
      EnteredBy(v3, v4, cs + ext, i, k, slot);
      OldFileIs(v, g.root, heads, x, oldCluster);
      OldKept(v, g.root, heads, v2, v3, v4, x, oldCluster);
      FreeOld(oldCluster, x.oldc);
      RoomyAlike(v, x, Change(d, name, contents, ns, ext, [], k));
      StepsStore(v, g.root, heads, v2, v3, v4, V(), x);
      r := Ok(());
    }

    /** Takes clusters for the contents and fills them. */
    method FillChain(contents: seq<byte>) returns (r: Result<seq<nat>>)
      requires Mounted()
      modifies this`device
      ensures Mounted() && KeepsMirror() && SameShape(old(V()), V())
      ensures r.Ok? <==> V().size > 0 && Needed(|contents|, V().size) <= |FreeSet(old(V()).fat)|
      ensures r.Err? ==> r.error == NoSpace && V() == old(V())
      ensures r.Ok? ==> Filled(old(V()), V(), r.value, contents) && (r.value == [] <==> contents == [])
      ensures r.Ok? ==> |r.value| <= |FreeSet(old(V()).fat)| && |FreeSet(V().fat)| == |FreeSet(old(V()).fat)| - |r.value|
      ensures r.Ok? ==> |r.value| == Needed(|contents|, V().size)
    {
      hide Mirrored, View, Geometry.Valid, FreeSet, LinkedUp, Allocation, Joined;
      ViewOk(device, g);
      var size := g.ClusterSize();
      NeededCovers(|contents|, size);
      r := AllocateChain(Needed(|contents|, size));
      if r.Err? {
        return;
      }
      AllocatedClusters(old(V()).fat, V().fat, r.value);
      ViewOk(device, g);
      var _ := WriteChain(r.value, contents);
      ViewOk(device, g);
    }

    /** The slot of the file that is there, or a vacant one. */
    method ChooseSlot(d: nat, name: ShortName, existing: Option<Entry>, ns: seq<nat>, ghost v: Volume, ghost contents: seq<byte>,
                      ghost i0: nat, ghost s0: nat, ghost k0: nat)
      returns (r: Result<(nat, nat)>, ghost i: nat, ghost s: nat, ghost k: nat, ghost ext: seq<nat>)
      requires Mounted() && HasChain(v.fat, d) && Filled(v, V(), ns, contents) && ZeroTail(DirBytes(v, d))
      requires existing.None? ==> Find(DirBytes(v, d), name, 0).None?
      requires existing.Some? ==>
        var e, cs := existing.value, Chain(v.fat, d);
        && Find(DirBytes(v, d), name, 0) == Some(k0)
        && Located(device, g, cs, i0, s0, e.offset, k0) && g.ValidCluster(cs[i0]) && e.sector == Lba(g, cs[i0]) + s0
      modifies this`device
      ensures Mounted() && KeepsMirror()
      ensures r.Err? <==> existing.None? && FirstVacant(DirBytes(v, d), 0).None? && |FreeSet(old(V()).fat)| == 0
      ensures r.Err? ==> r.error == NoSpace && V() == old(V())
      ensures r.Ok? ==> |ext| == Extension(DirBytes(v, d), name)
      ensures r.Ok? ==>
        var cs := Chain(v.fat, d);
        && Widened(old(V()), V(), cs, ext) && Place(Roomy(v, Change(d, name, contents, ns, ext, [], k)), k, name)
        && Located(device, g, cs + ext, i, s, r.value.1, k) && g.ValidCluster((cs + ext)[i]) && r.value.0 == Lba(g, (cs + ext)[i]) + s
    {
      hide Mirrored, View, Geometry.Valid, Find, FirstVacant, Located, Joined, FreeSet, Filled, Widened, Place, IsChain, ZeroTail, Roomy;
      i, s, k, ext := i0, s0, k0, [];
      ghost var cs := Chain(v.fat, d);
      FilledKeeps(v, V(), ns, contents, cs);
      ChainIs(V().fat, cs);
      ChainNotEmpty(v.fat, cs);
      FilledShape(v, V(), ns, contents);
      if existing.Some? {
        assert cs + [] == cs;
        WidenedNot(V(), cs);
        PlaceThere(DirBytes(v, d), name, k0);
        PlaceIn(v, Change(d, name, contents, ns, [], [], k0));
        return Ok((existing.value.sector, existing.value.offset)), i0, s0, k0, [];
      }
      r, i, s, k, ext := FindFreeSlot(d);
      if r.Ok? {
        WidenedAtMostOne(old(V()), V(), cs, ext);
        PlaceVacant(DirBytes(v, d), name, k);
        PlaceIn(v, Change(d, name, contents, ns, ext, [], k));
      }
    }

    /** Frees the chain of the replaced file, if it has one. */
    method FreeOld(oldCluster: nat, ghost oldc: seq<nat>)
      requires Mounted() && oldc == OldChain(V(), oldCluster) && (g.ValidCluster(oldCluster) ==> HasChain(V().fat, oldCluster))
      modifies this`device
      ensures Mounted() && KeepsMirror() && Freed(old(V()), V(), oldc)
    {
      hide Mirrored, View, Geometry.Valid, IsChain;
      ViewOk(device, g);
      if g.ValidCluster(oldCluster) {
        var chain := ClusterChain(oldCluster);
        ChainClusters(V().fat, chain.value);
        ReleaseClusters(chain.value);
        ViewOk(device, g);
      } else {
        NoChainOutside(V(), oldCluster);
      }
    }
  }

  lemma EntryWrittenNone(dev: Device, g: Geometry, c: nat, value: nat)
    requires Fits(dev, g) && g.ValidCluster(c)
    ensures EntryWritten(dev, dev, g, 0, c, value)
  {
    hide Word;
  }

  lemma EntryWrittenFits(dev: Device, after: Device, g: Geometry, n: nat, c: nat, value: nat)
    requires Fits(dev, g) && g.ValidCluster(c) && EntryWritten(dev, after, g, n, c, value)
    ensures Fits(after, g) && |after| == |dev|
  {
    hide Word;
  }

  lemma ClusterIsFlat(dev: Device, g: Geometry, c: nat)
    requires Fits(dev, g) && g.ValidCluster(c)
    ensures Lba(g, c) + g.spc <= |dev| && ClusterBytes(dev, g, c) == Flat(dev, g.bps, Lba(g, c), g.spc)
  {
    ClusterPlace(g, c);
  }

  lemma LinkMore(f: Fat, run: seq<nat>, c: nat)
    requires run != [] && Linked(f, run) && ValidCluster(f, c) && Next(f, run[|run| - 1]) == c
    ensures Linked(f, run + [c])
  {
  }

  /** `cs` are the free clusters below `c`, in order. */
  ghost predicate Scanned(f: Fat, cs: seq<nat>, c: nat) {
    && (forall d: nat :: d in cs <==> d < c && IsFree(f, d))
    && forall i, j :: 0 <= i < j < |cs| ==> cs[i] < cs[j]
  }

  /** The clusters of `cs` hold end marks, the others what they held. */
  ghost predicate Marked(f: Fat, h: Fat, cs: seq<nat>) {
    && |h| == |f| && Clusters(f, cs)
    && forall d: nat :: ValidCluster(f, d) ==> Next(h, d) == if d in cs then END else Next(f, d)
  }

  lemma {:induction false} ScanStep(f: Fat, h: Fat, cs: seq<nat>, c: nat)
    requires Scanned(f, cs, c) && Marked(f, h, cs) && ValidCluster(f, c)
    ensures Next(h, c) == Next(f, c)
    ensures !IsFree(f, c) ==> Scanned(f, cs, c + 1)
    ensures IsFree(f, c) ==> Scanned(f, cs + [c], c + 1) && Marked(f, WithNext(h, c, END), cs + [c])
  {
    assert c !in cs;
    forall i | 0 <= i < |cs| ensures cs[i] < c {
      assert cs[i] in cs;
    }
  }

  lemma {:induction false} ScanEnds(f: Fat, cs: seq<nat>, c: nat, count: nat)
    requires Scanned(f, cs, c) && |cs| <= count && (|cs| < count ==> c == |f| + 2)
    ensures Allocation(f, cs) && (|cs| == count <==> count <= |FreeSet(f)|)
  {
    forall i | 0 <= i < |cs| ensures IsFree(f, cs[i]) && cs[i] < c {
      assert cs[i] in cs;
    }
    assert Elements(cs) <= FreeSet(f);
    SubsetSize(Elements(cs), FreeSet(f));
    if |cs| < count {
      assert Elements(cs) == FreeSet(f);
    }
  }

  lemma MarkedClusters(f: Fat, h: Fat, cs: seq<nat>)
    requires Marked(f, h, cs)
    ensures Clusters(h, cs) && LinkedBelow(f, h, cs, 0)
  {
    assert forall i :: 0 <= i < |cs| ==> cs[i] in cs;
  }

  lemma {:induction false} UnmarkRestores(f: Fat, mid: Fat, h: Fat, cs: seq<nat>)
    requires Marked(f, mid, cs) && Released(mid, h, cs) && forall i :: 0 <= i < |cs| ==> IsFree(f, cs[i])
    ensures h == f
  {
    SameFat(f, h);
  }

  /** The first `n` clusters of `cs` lead to the next, the rest hold end marks. */
  ghost predicate LinkedBelow(f: Fat, h: Fat, cs: seq<nat>, n: nat) {
    && |h| == |f| && Clusters(f, cs)
    && (forall d: nat :: ValidCluster(f, d) && d !in cs ==> Next(h, d) == Next(f, d))
    && (forall i :: 0 <= i < |cs| && i >= n ==> Next(h, cs[i]) == END)
    && (forall i :: 0 <= i < |cs| - 1 && i < n ==> Next(h, cs[i]) == cs[i + 1])
  }

  lemma {:induction false} LinkStep(f: Fat, h: Fat, cs: seq<nat>, i: nat)
    requires LinkedBelow(f, h, cs, i) && Distinct(cs) && i < |cs| - 1
    ensures ValidCluster(h, cs[i]) && cs[i + 1] % MASK == cs[i + 1]
    ensures LinkedBelow(f, WithNext(h, cs[i], cs[i + 1]), cs, i + 1)
  {
    assert ValidCluster(f, cs[i + 1]);
  }

  lemma LinkEnds(f: Fat, h: Fat, cs: seq<nat>)
    requires cs != [] && LinkedBelow(f, h, cs, |cs| - 1)
    ensures LinkedUp(f, h, cs)
  {
    assert Linked(h, cs);
  }

  lemma ChainClusters(f: Fat, cs: seq<nat>)
    requires IsChain(f, cs)
    ensures Clusters(f, cs) && cs != []
  {
  }

  lemma JoinedNone(v: Volume)
    ensures Joined(v, []) == []
  {
  }

  lemma NothingBeyond(bytes: seq<byte>, name: ShortName, k: nat)
    requires SLOT * k >= |bytes|
    ensures Find(bytes, name, k).None?
  {
  }

  lemma LastSector(dev: Device, g: Geometry, cs: seq<nat>, i: nat)
    requires Fits(dev, g) && i < |cs| && (forall j :: 0 <= j < |cs| ==> g.ValidCluster(cs[j]))
    ensures Lba(g, cs[i]) + g.spc <= |dev|
    ensures |Joined(View(dev, g), cs[..i + 1])| == |Joined(View(dev, g), cs[..i])| + |Flat(dev, g.bps, Lba(g, cs[i]), g.spc)|
  {
    hide View, Flat, Joined;
    NextSector(dev, g, cs, i, 0);
  }

  lemma NoVacancyBeyond(bytes: seq<byte>, k: nat)
    requires SLOT * k >= |bytes|
    ensures FirstVacant(bytes, k).None?
  {
  }

  lemma NewCluster(f: Fat, h: Fat, cs: seq<nat>)
    requires |cs| == 1 && Allocation(f, cs) && LinkedUp(f, h, cs)
    ensures IsFree(f, cs[0]) && ValidCluster(h, cs[0]) && cs[0] % MASK == cs[0] && |h| == |f| && Next(h, cs[0]) == END
    ensures forall c: nat :: ValidCluster(f, c) && c != cs[0] ==> Next(h, c) == Next(f, c)
  {
    assert cs == [cs[0]];
  }

  lemma {:induction false} ExtendedBy(v: Volume, mid: Volume, w: Volume, cs: seq<nat>, x: nat)
    requires SameShape(v, w) && IsChain(v.fat, cs) && IsFree(v.fat, x) && |mid.fat| == |v.fat| && Next(mid.fat, x) == END
    requires forall c: nat :: ValidCluster(v.fat, c) && c != x ==> Next(mid.fat, c) == Next(v.fat, c)
    requires w.fat == WithNext(mid.fat, cs[|cs| - 1], x) && w.data == v.data[x - 2 := Zeros(w.size)]
    ensures Extended(v, w, cs, x)
  {
    var more := cs + [x];
    ChainDistinct(v.fat, cs);
    forall i | 0 <= i < |cs| ensures cs[i] != x {
      ChainNotFree(v.fat, cs, cs[i]);
    }
    assert Clusters(w.fat, more);
    forall i | 0 <= i < |cs| ensures Next(w.fat, more[i]) == more[i + 1] {
      assert i < |cs| - 1 ==> Next(v.fat, cs[i]) == cs[i + 1];
    }
  }

  /** `s` starts with `contents`, as far as it goes. */
  ghost predicate Holds(s: seq<byte>, contents: seq<byte>) {
    forall k :: 0 <= k < |s| ==> s[k] == if k < |contents| then contents[k] else 0
  }

  lemma {:induction false} JoinedGrows(v: Volume, w: Volume, chain: seq<nat>, index: nat, bytes: seq<byte>, contents: seq<byte>)
    requires Distinct(chain) && index < |chain| && 2 <= chain[index] < |v.data| + 2 && w == v.(data := v.data[chain[index] - 2 := bytes])
    requires var start := |Joined(v, chain[..index])|;
      var end := Min(start + |bytes|, |contents|);
      bytes == if start < |contents| then contents[start..end] + Zeros(|bytes| - (end - start)) else Zeros(|bytes|)
    requires Holds(Joined(v, chain[..index]), contents)
    ensures |Joined(w, chain[..index + 1])| == |Joined(v, chain[..index])| + |bytes| && Holds(Joined(w, chain[..index + 1]), contents)
  {
    hide Holds, Zeros;
    var front := chain[..index];
    JoinedFrame(v, w, front);
    assert chain[..index + 1][..index] == front && chain[..index + 1][index] == chain[index];
    HoldsMore(Joined(v, front), bytes, contents);
  }

  lemma HoldsMore(a: seq<byte>, bytes: seq<byte>, contents: seq<byte>)
    requires Holds(a, contents)
    requires var end := Min(|a| + |bytes|, |contents|);
      bytes == if |a| < |contents| then contents[|a|..end] + Zeros(|bytes| - (end - |a|)) else Zeros(|bytes|)
    ensures Holds(a + bytes, contents)
  {
    forall k | |a| <= k < |a| + |bytes| ensures (a + bytes)[k] == if k < |contents| then contents[k] else 0 {
      assert (a + bytes)[k] == bytes[k - |a|];
    }
  }

  lemma HoldsAll(s: seq<byte>, contents: seq<byte>)
    requires Holds(s, contents) && |contents| <= |s|
    ensures s[..|contents|] == contents && s == contents + Zeros(|s| - |contents|)
  {
  }

  lemma HoldsNothing(contents: seq<byte>)
    ensures Holds([], contents)
  {
  }

  lemma ResolveNothing(v: Volume, root: nat, path: Path)
    ensures Resolve(v, root, path[..0]) == Ok(root)
  {
  }

  lemma ResolveStep(v: Volume, root: nat, path: Path, n: nat)
    requires n < |path| && Resolve(v, root, path[..n]).Ok?
    ensures Resolve(v, root, path[..n + 1]) == Enter(v, Resolve(v, root, path[..n]).value, path[n])
  {
    hide Enter;
    assert path[..n + 1][..n] == path[..n] && path[..n + 1][n] == path[n];
  }

  lemma {:induction false} ResolveFails(v: Volume, root: nat, path: Path, n: nat)
    requires n <= |path| && Resolve(v, root, path[..n]).Err?
    ensures Resolve(v, root, path) == Resolve(v, root, path[..n])
    decreases |path|
  {
    hide Enter;
    if n == |path| {
      assert path[..n] == path;
    } else {
      assert path[..|path| - 1][..n] == path[..n];
      ResolveFails(v, root, path[..|path| - 1], n);
    }
  }

  lemma JoinedStep(v: Volume, cs: seq<nat>, n: nat)
    requires n < |cs|
    ensures Joined(v, cs[..n + 1]) == Joined(v, cs[..n]) + Contents(v, cs[n])
  {
    assert cs[..n + 1][..n] == cs[..n] && cs[..n + 1][n] == cs[n];
  }

  /** Clusters a file of `length` bytes takes: `div_ceil`. */
  function Needed(length: nat, size: nat): nat
    requires size > 0
  {
    (length + size - 1) / size
  }

  /** The file at `p` has as many clusters as it needs, all of which were free; the ones it had are free now. */
  ghost predicate Exchanged(v: Volume, w: Volume, root: nat, p: Path, length: nat) {
    && w.size == v.size > 0 && |ClustersAt(w, root, p)| == Needed(length, w.size)
    && (forall c :: c in ClustersAt(w, root, p) ==> IsFree(v.fat, c))
    && (forall c :: c in ClustersAt(v, root, p) ==> IsFree(w.fat, c))
  }

  /** Why storing a file in directory `d` fails, if it does. */
  ghost function StoreError(v: Volume, d: nat, name: ShortName, length: nat): Option<FatError> {
    if !HasChain(v.fat, d) || v.size == 0 then Some(CorruptFilesystem)
    else
      var bytes := DirBytes(v, d);
      var found := Find(bytes, name, 0);
      if found.Some? && IsDirectory(SlotAt(bytes, found.value)) then Some(AlreadyExists)
      else if Needed(length, v.size) > |FreeSet(v.fat)| then Some(NoSpace)
      else if found.None? && FirstVacant(bytes, 0).None? && Needed(length, v.size) == |FreeSet(v.fat)| then Some(NoSpace)
      else None
  }

  /** The clusters the directory has to gain. */
  ghost function Extension(bytes: seq<byte>, name: ShortName): nat {
    if Find(bytes, name, 0).None? && FirstVacant(bytes, 0).None? then 1 else 0
  }

  /** The clusters of the file of that name. */
  ghost function Replaced(v: Volume, d: nat, name: ShortName): nat
    requires HasChain(v.fat, d)
  {
    var bytes := DirBytes(v, d);
    match Find(bytes, name, 0)
    case None => 0
    case Some(k) => |OldChain(v, ClusterOf(SlotAt(bytes, k)))|
  }

  /** Conservation: what is free, less the new clusters, plus those of the replaced file. */
  ghost function FreeAfterIn(v: Volume, d: nat, name: ShortName, length: nat): int {
    if !HasChain(v.fat, d) || v.size == 0 then 0
    else |FreeSet(v.fat)| - Needed(length, v.size) - Extension(DirBytes(v, d), name) + Replaced(v, d, name)
  }

  lemma SpaceAfter(v: Volume, root: nat, heads: Heads, w: Volume, x: Change)
    requires Stored(v, root, heads, w, x) && v.size > 0
    requires |x.ns| == Needed(|x.contents|, v.size) && |x.ext| == Extension(DirBytes(v, x.d), x.name)
    requires |FreeSet(w.fat)| == |FreeSet(v.fat)| - |x.ns| - |x.ext| + |x.oldc|
    ensures |FreeSet(w.fat)| == FreeAfterIn(v, x.d, x.name, |x.contents|)
  {
    hide Tidy, NewFile, NewDirectory, Confined, Find, FirstVacant, Extension, FreeSet, Needed, IsDirectory;
  }

  ghost function OldChain(v: Volume, c: nat): seq<nat> {
    if HasChain(v.fat, c) then Chain(v.fat, c) else []
  }

  // ---------- writes to free clusters only ----------

  ghost predicate OnlyFreeWritten(v: Volume, w: Volume) {
    SameShape(v, w) && w.fat == v.fat && forall c: nat :: !IsFree(v.fat, c) ==> Contents(w, c) == Contents(v, c)
  }

  lemma OnlyFreeSelf(v: Volume)
    requires VolumeOk(v)
    ensures OnlyFreeWritten(v, v)
  {
  }

  lemma {:induction false} FreeWritesBytes(v: Volume, w: Volume, c: nat)
    requires OnlyFreeWritten(v, w) && HasChain(v.fat, c)
    ensures DirBytes(w, c) == DirBytes(v, c)
  {
    hide Joined;
    var cs := Chain(v.fat, c);
    forall i | 0 <= i < |cs| ensures Contents(w, cs[i]) == Contents(v, cs[i]) {
      ChainNotFree(v.fat, cs, cs[i]);
    }
    JoinedFrame(v, w, cs);
  }

  lemma {:induction false} FreeWritesResolve(v: Volume, root: nat, w: Volume, q: Path)
    requires OnlyFreeWritten(v, w)
    ensures Resolve(w, root, q) == Resolve(v, root, q)
    decreases |q|
  {
    hide OnlyFreeWritten, Find, DirBytes;
    FreeWritesShape(v, w);
    if q != [] {
      FreeWritesResolve(v, root, w, q[..|q| - 1]);
      if Resolve(v, root, q[..|q| - 1]).Ok? {
        var d := Resolve(v, root, q[..|q| - 1]).value;
        if HasChain(v.fat, d) {
          FreeWritesBytes(v, w, d);
        }
      }
    }
  }

  lemma FreeWritesShape(v: Volume, w: Volume)
    requires OnlyFreeWritten(v, w)
    ensures w.fat == v.fat
  {
  }

  /** No file notices writes to free clusters. */
  lemma {:induction false} FreeWritesRead(v: Volume, root: nat, w: Volume, q: Path)
    requires OnlyFreeWritten(v, w)
    ensures ReadAt(w, root, q) == ReadAt(v, root, q)
  {
    hide OnlyFreeWritten, Find, DirBytes, Resolve;
    FreeWritesShape(v, w);
    if q != [] {
      FreeWritesResolve(v, root, w, q[..|q| - 1]);
      if Resolve(v, root, q[..|q| - 1]).Ok? {
        var d := Resolve(v, root, q[..|q| - 1]).value;
        if HasChain(v.fat, d) {
          FreeWritesBytes(v, w, d);
          var k := Find(DirBytes(v, d), q[|q| - 1], 0);
          if k.Some? && HasChain(v.fat, ClusterOf(SlotAt(DirBytes(v, d), k.value))) {
            FreeWritesBytes(v, w, ClusterOf(SlotAt(DirBytes(v, d), k.value)));
          }
        }
      }
    }
  }

  lemma {:induction false} FreeWritesTidy(v: Volume, root: nat, heads: Heads, w: Volume)
    requires Tidy(v, root, heads) && OnlyFreeWritten(v, w)
    ensures Tidy(w, root, heads)
  {
    hide DirBytes, Visible, ZeroTail, SlotAt, ClusterOf, IsDirectory;
    forall h <- heads ensures HasChain(w.fat, h) && DirBytes(w, h) == DirBytes(v, h) {
      FreeWritesBytes(v, w, h);
    }
    forall d: nat, k: nat, c: nat ensures Refers(w, heads, d, k, c) == Refers(v, heads, d, k, c) {
      if d in heads {
        assert DirBytes(w, d) == DirBytes(v, d);
      }
    }
    assert SingleRefs(w, heads);
    forall d <- heads | heads[d] ensures DirOk(w, root, heads, d) {
      assert DirOk(v, root, heads, d);
    }
  }

  lemma TidyChain(v: Volume, root: nat, heads: Heads, d: nat)
    requires Tidy(v, root, heads) && d in heads
    ensures HasChain(v.fat, d)
  {
  }

  // ---------- glue ----------

  lemma {:induction false} NeededCovers(length: nat, size: nat)
    requires size > 0
    ensures length <= Needed(length, size) * size && (Needed(length, size) == 0 <==> length == 0)
  {
    DivMod(length + size - 1, size);
    if length > 0 {
      QuotientPositive(length + size - 1, size);
    } else {
      QuotientBound(size - 1, 1, size);
    }
  }

  lemma QuotientPositive(a: nat, c: nat)
    requires a >= c > 0
    ensures a / c > 0
  {
  }

  lemma AllocatedClusters(f: Fat, h: Fat, cs: seq<nat>)
    requires Allocation(f, cs) && LinkedUp(f, h, cs)
    ensures Clusters(h, cs) && Distinct(cs) && |FreeSet(h)| == |FreeSet(f)| - |cs|
  {
    hide FreeSet;
    FreeSetAfter(f, h, cs);
  }

  lemma FreeSetAfter(f: Fat, h: Fat, cs: seq<nat>)
    requires Allocation(f, cs) && LinkedUp(f, h, cs)
    ensures FreeSet(h) == FreeSet(f) - Elements(cs) && Elements(cs) <= FreeSet(f)
  {
    hide Distinct, IsChain;
    forall c: nat ensures c in FreeSet(h) <==> c in FreeSet(f) - Elements(cs) {
      if c in cs {
        ChainNotFree(h, cs, c);
      }
    }
    assert FreeSet(h) == FreeSet(f) - Elements(cs);
    forall c | c in Elements(cs) ensures c in FreeSet(f) {
      var i :| 0 <= i < |cs| && cs[i] == c;
    }
  }

  lemma {:induction false} FilledThenReleased(v: Volume, v2: Volume, w: Volume, ns: seq<nat>, contents: seq<byte>)
    requires Filled(v, v2, ns, contents) && Released(v2.fat, w.fat, ns) && w.data == v2.data && VolumeOk(w) && w.size == v2.size
    ensures OnlyFreeWritten(v, w)
  {
    hide Joined;
    ReleaseUndoesLink(v.fat, v2.fat, w.fat, ns);
    forall c: nat | !IsFree(v.fat, c) ensures Contents(w, c) == Contents(v, c) {
      assert c !in ns;
    }
  }

  lemma {:induction false} ExtensionLocated(dev: Device, after: Device, g: Geometry, cs: seq<nat>, x: nat)
    requires Fits(dev, g) && Fits(after, g) && IsChain(View(dev, g).fat, cs) && Extended(View(dev, g), View(after, g), cs, x)
    ensures Located(after, g, cs + [x], |cs|, 0, 0, |Joined(View(dev, g), cs)| / SLOT)
    ensures Widened(View(dev, g), View(after, g), cs, [x])
  {
    hide View, Flat;
    var v, w, more := View(dev, g), View(after, g), cs + [x];
    assert more[..|cs|] == cs && more[|cs|] == x;
    forall i | 0 <= i < |cs| ensures Contents(w, cs[i]) == Contents(v, cs[i]) {
      ChainNotFree(v.fat, cs, cs[i]);
    }
    JoinedFrame(v, w, cs);
    JoinedAligned(v, cs);
    ClusterPlace(g, x);
    FlatNone(after, g.bps, Lba(g, x));
    assert SLOT * (|Joined(v, cs)| / SLOT) == |Joined(v, cs)|;
  }

  lemma FilledFirst(v: Volume, w: Volume, ns: seq<nat>, contents: seq<byte>)
    requires Filled(v, w, ns, contents)
    ensures First(ns) < 0x1_0000_0000
  {
    hide Joined;
  }

  lemma FilledShape(v: Volume, w: Volume, ns: seq<nat>, contents: seq<byte>)
    requires Filled(v, w, ns, contents)
    ensures SameShape(v, w)
  {
    hide Joined;
  }

  lemma WidenedNot(v: Volume, cs: seq<nat>)
    requires cs != []
    ensures Widened(v, v, cs, [])
  {
  }

  lemma WidenedAtMostOne(v: Volume, w: Volume, cs: seq<nat>, ext: seq<nat>)
    requires cs != [] && Widened(v, w, cs, ext)
    ensures |ext| <= 1
  {
  }

  lemma PlaceThere(bytes: seq<byte>, name: ShortName, k: nat)
    requires Find(bytes, name, 0) == Some(k)
    ensures Place(bytes, k, name)
  {
    hide FirstVacant;
  }

  lemma PlaceVacant(bytes: seq<byte>, name: ShortName, k: nat)
    requires Find(bytes, name, 0).None?
    ensures FirstVacant(bytes, 0) == Some(k) ==> Place(bytes, k, name)
  {
    hide FirstVacant, Find;
    FirstVacantMeans(bytes, 0);
  }

  lemma EnteredBy(v: Volume, w: Volume, cs: seq<nat>, i: nat, k: nat, slot: Slot)
    requires VolumeOk(v) && VolumeOk(w) && w.size == v.size && w.fat == v.fat && i < |cs|
    requires HasSlot(Joined(v, cs), k) && Joined(w, cs) == WithSlot(Joined(v, cs), k, slot)
    requires forall c: nat :: c != cs[i] ==> Contents(w, c) == Contents(v, c)
    ensures Entered(v, w, cs, k, slot)
  {
    hide Joined, WithSlot;
  }

  /** What the entry found says about the file to be replaced. */
  ghost predicate OldEntry(v: Volume, d: nat, name: ShortName, oldCluster: nat)
    requires HasChain(v.fat, d)
  {
    match Find(DirBytes(v, d), name, 0)
    case None => oldCluster == 0
    case Some(j) => !IsDirectory(SlotAt(DirBytes(v, d), j)) && ClusterOf(SlotAt(DirBytes(v, d), j)) == oldCluster
  }

  lemma {:induction false} OldFileIs(v: Volume, root: nat, heads: Heads, x: Change, oldCluster: nat)
    requires Tidy(v, root, heads) && x.d in heads && heads[x.d] && HasChain(v.fat, x.d) && Plain(x.name)
    requires OldEntry(v, x.d, x.name, oldCluster) && x.oldc == OldChain(v, oldCluster)
    ensures OldFile(v, x) && (ValidCluster(v.fat, oldCluster) ==> HasChain(v.fat, oldCluster))
  {
    hide Find, SingleRefs, ChainsApart, Visible, Live;
    NoChainOutside(v, 0);
    VisibleFound(v, x.d, x.name);
    if Find(DirBytes(v, x.d), x.name, 0).Some? {
      assert DirOk(v, root, heads, x.d);
      assert EntryOk(v, root, heads, SlotAt(DirBytes(v, x.d), Find(DirBytes(v, x.d), x.name, 0).value));
    }
  }

  /** The replaced file's chain is still there when its turn comes. */
  lemma {:induction false} OldKept(v: Volume, root: nat, heads: Heads, v2: Volume, v3: Volume, v4: Volume, x: Change, oldCluster: nat)
    requires Tidy(v, root, heads) && x.d in heads && heads[x.d] && HasChain(v.fat, x.d) && Plain(x.name) && OldFile(v, x)
    requires Chain(v.fat, x.d) != [] && Filled(v, v2, x.ns, x.contents) && Widened(v2, v3, Chain(v.fat, x.d), x.ext) && v4.fat == v3.fat
    requires x.oldc == OldChain(v, oldCluster) && (ValidCluster(v.fat, oldCluster) ==> HasChain(v.fat, oldCluster)) && |v4.fat| == |v.fat|
    ensures x.oldc == OldChain(v4, oldCluster) && (ValidCluster(v4.fat, oldCluster) ==> HasChain(v4.fat, oldCluster))
  {
    hide Tidy, OldFile, Filled, Widened, IsChain, Joined;
    var cs := Chain(v.fat, x.d);
    if HasChain(v.fat, oldCluster) {
      OldApart(v, root, heads, x);
      FilledKeeps(v, v2, x.ns, x.contents, x.oldc);
      WidenedFacts(v, v2, v3, cs, x);
      forall c | c in x.ext ensures c !in x.oldc {
        var i :| 0 <= i < |x.ext| && x.ext[i] == c;
        assert IsFree(v.fat, x.ext[i]);
      }
      WidenedKeeps(v2, v3, cs, x.ext, x.oldc);
      ChainIs(v4.fat, x.oldc);
    } else {
      NoChainOutside(v4, oldCluster);
    }
  }

  lemma FilledClusters(v: Volume, w: Volume, ns: seq<nat>, contents: seq<byte>)
    requires Filled(v, w, ns, contents)
    ensures Clusters(w.fat, ns)
  {
    hide Joined;
  }

  lemma LocatedIndex(dev: Device, g: Geometry, cs: seq<nat>, i: nat, s: nat, offset: nat, k: nat)
    requires Located(dev, g, cs, i, s, offset, k)
    ensures i < |cs|
  {
  }

  lemma RoomyAlike(v: Volume, x: Change, y: Change)
    requires HasChain(v.fat, x.d) && x.d == y.d && x.ext == y.ext
    ensures Roomy(v, x) == Roomy(v, y)
  {
  }
}
