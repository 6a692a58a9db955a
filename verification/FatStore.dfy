/**
  Replacing or adding one file on a FAT32 volume: the other files keep their contents
  and the volume stays well formed.
 */
module FatStore {
  import opened Bytes
  import opened FatChain
  import opened FatVolume
  import opened FatDir
  import opened FatTree

  /**
    One file has been stored: `ns` are its clusters, `ext` the cluster its directory
    `d` may have gained, `oldc` the clusters of the file it replaces, `k` its slot.
   */
  datatype Change = Change(d: nat, name: ShortName, contents: seq<byte>, ns: seq<nat>, ext: seq<nat>, oldc: seq<nat>, k: nat)

  function First(ns: seq<nat>): nat {
    if ns == [] then 0 else ns[0]
  }

  ghost predicate SameShape(v: Volume, w: Volume) {
    VolumeOk(v) && VolumeOk(w) && |w.fat| == |v.fat| && w.size == v.size
  }

  /** Clusters outside `s` keep their entry and contents. */
  ghost predicate Confined(v: Volume, w: Volume, s: set<nat>) {
    SameShape(v, w) && forall c: nat :: ValidCluster(v.fat, c) && c !in s ==> Next(w.fat, c) == Next(v.fat, c) && Contents(w, c) == Contents(v, c)
  }

  ghost function Footprint(v: Volume, x: Change): set<nat>
    requires HasChain(v.fat, x.d)
  {
    Elements(x.ns) + Elements(x.ext) + Elements(Chain(v.fat, x.d)) + Elements(x.oldc)
  }

  ghost predicate Fresh(v: Volume, cs: seq<nat>) {
    forall i :: 0 <= i < |cs| ==> IsFree(v.fat, cs[i])
  }

  /** The directory with the room it may have gained. */
  ghost function Roomy(v: Volume, x: Change): seq<byte>
    requires HasChain(v.fat, x.d)
  {
    DirBytes(v, x.d) + Zeros(|x.ext| * v.size)
  }

  ghost predicate OldFile(v: Volume, x: Change)
    requires HasChain(v.fat, x.d)
  {
    match Find(DirBytes(v, x.d), x.name, 0)
    case None => x.oldc == []
    case Some(j) =>
      var slot := SlotAt(DirBytes(v, x.d), j);
      !IsDirectory(slot) && x.oldc == if HasChain(v.fat, ClusterOf(slot)) then Chain(v.fat, ClusterOf(slot)) else []
  }

  ghost predicate NewFile(v: Volume, w: Volume, x: Change) {
    && Distinct(x.ns) && Fresh(v, x.ns) && (x.ns != [] ==> IsChain(w.fat, x.ns)) && (x.ns == [] <==> x.contents == [])
    && |x.contents| <= |Joined(w, x.ns)| && Joined(w, x.ns)[..|x.contents|] == x.contents
    && First(x.ns) < 0x1_0000_0000 && |x.contents| < 0x1_0000_0000
  }

  ghost predicate NewDirectory(v: Volume, w: Volume, x: Change)
    requires HasChain(v.fat, x.d)
  {
    && |x.ext| <= 1 && Fresh(v, x.ext) && (forall c :: c in x.ext ==> c !in x.ns) && IsChain(w.fat, Chain(v.fat, x.d) + x.ext)
    && Place(Roomy(v, x), x.k, x.name)
    && First(x.ns) < 0x1_0000_0000 && |x.contents| < 0x1_0000_0000
    && Joined(w, Chain(v.fat, x.d) + x.ext) == WithSlot(Roomy(v, x), x.k, FileSlot(x.name, First(x.ns), |x.contents|))
  }

  ghost predicate Stored(v: Volume, root: nat, heads: Heads, w: Volume, x: Change) {
    && Tidy(v, root, heads) && x.d in heads && heads[x.d] && HasChain(v.fat, x.d) && Plain(x.name)
    && OldFile(v, x) && NewFile(v, w, x) && NewDirectory(v, w, x)
    && Confined(v, w, Footprint(v, x))
    && forall c :: c in x.oldc ==> ValidCluster(w.fat, c) && Next(w.fat, c) == FREE
  }

  ghost function HeadsAfter(heads: Heads, x: Change): Heads {
    var kept := if x.oldc == [] then heads else heads - {x.oldc[0]};
    if x.ns == [] then kept else kept[x.ns[0] := false]
  }

  // ---------- what is left alone ----------

  lemma ChainNotFree(f: Fat, cs: seq<nat>, c: nat)
    requires IsChain(f, cs) && c in cs
    ensures !IsFree(f, c)
  {
    var i :| 0 <= i < |cs| && cs[i] == c;
    ChainStep(f, cs, i);
  }

  lemma {:induction false} JoinedFrame(v: Volume, w: Volume, cs: seq<nat>)
    requires forall i :: 0 <= i < |cs| ==> Contents(w, cs[i]) == Contents(v, cs[i])
    ensures Joined(w, cs) == Joined(v, cs)
    decreases |cs|
  {
    if cs != [] {
      JoinedFrame(v, w, cs[..|cs| - 1]);
    }
  }

  /** The free clusters afterwards: the new ones are taken, those of the replaced file are back. */
  lemma {:induction false} FreeAfterStore(v: Volume, root: nat, heads: Heads, w: Volume, x: Change)
    requires Stored(v, root, heads, w, x)
    ensures FreeSet(w.fat) == FreeSet(v.fat) - Elements(x.ns) - Elements(x.ext) + Elements(x.oldc)
    ensures |FreeSet(w.fat)| == |FreeSet(v.fat)| - |x.ns| - |x.ext| + |x.oldc|
  {
    hide Tidy, Stored, FreeSet, Elements, IsFree;
    var f, a, b, o := FreeSet(v.fat), Elements(x.ns), Elements(x.ext), Elements(x.oldc);
    forall c: nat ensures c in FreeSet(w.fat) <==> c in f - a - b + o {
      ClusterFate(v, root, heads, w, x, c);
      InFreeSet(v.fat, c);
      InFreeSet(w.fat, c);
    }
    assert FreeSet(w.fat) == f - a - b + o;
    StoredClusters(v, root, heads, w, x);
    Counted(f, a, b, o);
  }

  lemma InFreeSet(f: Fat, c: nat)
    ensures c in FreeSet(f) <==> IsFree(f, c)
  {
  }

  lemma Counted(f: set<nat>, a: set<nat>, b: set<nat>, o: set<nat>)
    requires a <= f && b <= f - a && o !! f
    ensures |f - a - b + o| == |f| - |a| - |b| + |o|
  {
    assert |f - a| == |f| - |a|;
    assert |f - a - b| == |f - a| - |b|;
  }

  lemma {:induction false} StoredClusters(v: Volume, root: nat, heads: Heads, w: Volume, x: Change)
    requires Stored(v, root, heads, w, x)
    ensures var f, a, b, o := FreeSet(v.fat), Elements(x.ns), Elements(x.ext), Elements(x.oldc);
      a <= f && b <= f - a && o !! f && |a| == |x.ns| && |b| == |x.ext| && |o| == |x.oldc|
  {
    hide Tidy, OldFile, Place, FileSlot, WithSlot, Joined, Roomy, IsChain, HasChain, IsDirectory, Plain, Confined;
    OldDistinct(v, x);
    forall c <- x.oldc ensures c !in FreeSet(v.fat) { OldTaken(v, x, c); }
    assert forall c <- x.ns :: IsFree(v.fat, c);
    assert forall c <- x.ext :: IsFree(v.fat, c);
  }

  lemma OldDistinct(v: Volume, x: Change)
    requires HasChain(v.fat, x.d) && OldFile(v, x)
    ensures Distinct(x.oldc)
  {
    hide Find, IsDirectory;
    if x.oldc != [] {
      ChainDistinct(v.fat, x.oldc);
    }
  }

  lemma OldTaken(v: Volume, x: Change, c: nat)
    requires HasChain(v.fat, x.d) && OldFile(v, x) && c in x.oldc
    ensures !IsFree(v.fat, c)
  {
    hide Find, IsDirectory;
    ChainNotFree(v.fat, x.oldc, c);
  }

  lemma {:induction false} ClusterFate(v: Volume, root: nat, heads: Heads, w: Volume, x: Change, c: nat)
    requires Stored(v, root, heads, w, x)
    ensures IsFree(w.fat, c) <==> c in x.oldc || (IsFree(v.fat, c) && c !in x.ns && c !in x.ext)
  {
    hide Tidy, OldFile, Place, FileSlot, WithSlot, Joined, Roomy, IsChain, IsDirectory, Plain;
    var cs := Chain(v.fat, x.d);
    if c in x.oldc {
    } else if c in x.ns {
      ChainNotFree(w.fat, x.ns, c);
    } else if c in cs + x.ext {
      ChainNotFree(w.fat, cs + x.ext, c);
      if c in cs {
        ChainNotFree(v.fat, cs, c);
      }
    } else if ValidCluster(v.fat, c) {
      assert c !in Footprint(v, x);
    }
  }

  /** The first cluster of the replaced file is a file of its own. */
  lemma {:induction false} OldHead(v: Volume, root: nat, heads: Heads, w: Volume, x: Change)
    requires Stored(v, root, heads, w, x) && x.oldc != []
    ensures x.oldc[0] in heads && !heads[x.oldc[0]] && x.oldc == Chain(v.fat, x.oldc[0])
    ensures HasChain(v.fat, x.d)
    ensures exists j: nat :: Find(DirBytes(v, x.d), x.name, 0) == Some(j) && Refers(v, heads, x.d, j, x.oldc[0])
  {
    hide Find, ChainsApart, SingleRefs, NewFile, NewDirectory, Confined, Visible;
    VisibleFound(v, x.d, x.name);
    var j := Find(DirBytes(v, x.d), x.name, 0).value;
    assert EntryOk(v, root, heads, SlotAt(DirBytes(v, x.d), j));
    HeadIsValid(v, x.oldc[0]);
  }

  /** Another object's clusters are not in the footprint. */
  lemma {:induction false} HeadApart(v: Volume, root: nat, heads: Heads, w: Volume, x: Change, h: nat, c: nat)
    requires Stored(v, root, heads, w, x) && h in heads && HasChain(v.fat, h) && h != x.d && (x.oldc != [] ==> h != x.oldc[0])
    requires c in Chain(v.fat, h)
    ensures c !in Footprint(v, x)
  {
    hide Find, SingleRefs, Place, Joined, OldFile, Confined, DirOk;
    ChainNotFree(v.fat, Chain(v.fat, h), c);
    if x.oldc != [] {
      OldHead(v, root, heads, w, x);
    }
  }

  lemma {:induction false} HeadKept(v: Volume, root: nat, heads: Heads, w: Volume, x: Change, h: nat)
    requires Stored(v, root, heads, w, x) && h in heads && HasChain(v.fat, h) && h != x.d && (x.oldc != [] ==> h != x.oldc[0])
    ensures HasChain(w.fat, h) && Chain(w.fat, h) == Chain(v.fat, h) && DirBytes(w, h) == DirBytes(v, h)
  {
    hide Stored, Footprint;
    var cs := Chain(v.fat, h);
    StoredConfined(v, root, heads, w, x);
    forall i | 0 <= i < |cs| ensures Contents(w, cs[i]) == Contents(v, cs[i]) && w.fat[cs[i] - 2] == v.fat[cs[i] - 2] {
      HeadApart(v, root, heads, w, x, h, cs[i]);
      assert Next(w.fat, cs[i]) == Next(v.fat, cs[i]);
    }
    ChainFrame(v.fat, w.fat, cs);
    JoinedFrame(v, w, cs);
  }

  lemma StoredConfined(v: Volume, root: nat, heads: Heads, w: Volume, x: Change)
    requires Stored(v, root, heads, w, x)
    ensures HasChain(v.fat, x.d) && Confined(v, w, Footprint(v, x))
  {
  }

  lemma {:induction false} DirAfter(v: Volume, root: nat, heads: Heads, w: Volume, x: Change)
    requires Stored(v, root, heads, w, x)
    ensures HasChain(w.fat, x.d) && Chain(w.fat, x.d) == Chain(v.fat, x.d) + x.ext
    ensures HasSlot(Roomy(v, x), x.k)
    ensures DirBytes(w, x.d) == WithSlot(Roomy(v, x), x.k, FileSlot(x.name, First(x.ns), |x.contents|))
  {
    hide Find, SingleRefs, Joined, OldFile, Confined, DirOk, ChainsApart, NewFile, WithSlot, Roomy, FileSlot, FirstVacant;
    ChainIs(w.fat, Chain(v.fat, x.d) + x.ext);
  }

  // ---------- lookups ----------

  ghost function NewSlot(x: Change): Slot
    requires First(x.ns) < 0x1_0000_0000 && |x.contents| < 0x1_0000_0000
  {
    FileSlot(x.name, First(x.ns), |x.contents|)
  }

  /** The facts about the directory that lookups depend on. */
  lemma {:induction false} DirFacts(v: Volume, root: nat, heads: Heads, w: Volume, x: Change)
    requires Stored(v, root, heads, w, x)
    ensures First(x.ns) < 0x1_0000_0000 && |x.contents| < 0x1_0000_0000
    ensures ZeroTail(Roomy(v, x)) && Place(Roomy(v, x), x.k, x.name) && NameOf(NewSlot(x)) == x.name && Live(NewSlot(x))
    ensures !IsDirectory(NewSlot(x)) && ClusterOf(NewSlot(x)) == First(x.ns) && SizeOf(NewSlot(x)) == |x.contents|
    ensures forall name: ShortName :: Find(Roomy(v, x), name, 0) == Find(DirBytes(v, x.d), name, 0)
    ensures forall j: nat :: Visible(Roomy(v, x), j) <==> Visible(DirBytes(v, x.d), j)
    ensures forall j: nat :: HasSlot(DirBytes(v, x.d), j) ==> HasSlot(Roomy(v, x), j) && SlotAt(Roomy(v, x), j) == SlotAt(DirBytes(v, x.d), j)
  {
    hide Stored, Roomy, Place, FileSlot, Find, Visible, ZeroTail, SlotAt;
    StoredParts(v, root, heads, w, x);
    FileSlotReads(x.name, First(x.ns), |x.contents|);
    RoomyFacts(v, x);
  }

  lemma {:induction false} StoredParts(v: Volume, root: nat, heads: Heads, w: Volume, x: Change)
    requires Stored(v, root, heads, w, x)
    ensures First(x.ns) < 0x1_0000_0000 && |x.contents| < 0x1_0000_0000 && |x.ext| <= 1
    ensures VolumeOk(v) && HasChain(v.fat, x.d) && ZeroTail(DirBytes(v, x.d)) && Place(Roomy(v, x), x.k, x.name) && Plain(x.name)
  {
    hide Find, SingleRefs, Joined, OldFile, ChainsApart, NewFile, WithSlot, FileSlot, Visible, ZeroTail, SlotAt, FirstVacant, Roomy, Place;
    assert DirOk(v, root, heads, x.d);
  }

  /** Room at the end of a directory changes no lookup. */
  lemma {:induction false} RoomyFacts(v: Volume, x: Change)
    requires VolumeOk(v) && HasChain(v.fat, x.d) && ZeroTail(DirBytes(v, x.d)) && |x.ext| <= 1
    ensures ZeroTail(Roomy(v, x))
    ensures forall name: ShortName :: Find(Roomy(v, x), name, 0) == Find(DirBytes(v, x.d), name, 0)
    ensures forall j: nat :: Visible(Roomy(v, x), j) <==> Visible(DirBytes(v, x.d), j)
    ensures forall j: nat :: HasSlot(DirBytes(v, x.d), j) ==> HasSlot(Roomy(v, x), j) && SlotAt(Roomy(v, x), j) == SlotAt(DirBytes(v, x.d), j)
  {
    hide Find, Joined, Visible, ZeroTail, SlotAt, FirstVacant;
    var bytes, n := DirBytes(v, x.d), |x.ext| * v.size;
    JoinedAligned(v, Chain(v.fat, x.d));
    assert n % SLOT == 0 by { assert |x.ext| == 0 || |x.ext| == 1; }
    GrownTail(bytes, n);
    forall name: ShortName ensures Find(Roomy(v, x), name, 0) == Find(bytes, name, 0) {
      GrownFind(bytes, n, name, 0);
    }
    forall j: nat | HasSlot(bytes, j) ensures HasSlot(Roomy(v, x), j) && SlotAt(Roomy(v, x), j) == SlotAt(bytes, j) {
      GrownSlots(bytes, n, j);
    }
  }

  lemma AddAligned(a: nat, b: nat)
    requires a % SLOT == 0 && b % SLOT == 0
    ensures (a + b) % SLOT == 0
  {
  }

  lemma {:induction false} JoinedAligned(v: Volume, cs: seq<nat>)
    requires VolumeOk(v) && Clusters(v.fat, cs)
    ensures |Joined(v, cs)| % SLOT == 0
    decreases |cs|
  {
    if cs != [] {
      JoinedAligned(v, cs[..|cs| - 1]);
      AddAligned(|Joined(v, cs[..|cs| - 1])|, v.size);
    }
  }

  /** A name looked up in the directory afterwards. */
  lemma {:induction false} FindAfter(v: Volume, root: nat, heads: Heads, w: Volume, x: Change, name: ShortName)
    requires Stored(v, root, heads, w, x) && HasChain(v.fat, x.d) && HasChain(w.fat, x.d)
    requires First(x.ns) < 0x1_0000_0000 && |x.contents| < 0x1_0000_0000
    ensures var before, after := Find(DirBytes(v, x.d), name, 0), Find(DirBytes(w, x.d), name, 0);
      && (name == x.name ==> after.Some? && SlotAt(DirBytes(w, x.d), after.value) == NewSlot(x))
      && (name != x.name ==> after == before)
      && (name != x.name && before.Some? ==> SlotAt(DirBytes(w, x.d), before.value) == SlotAt(DirBytes(v, x.d), before.value))
  {
    hide Stored, Roomy, WithSlot, Place, FileSlot, SlotAt, Find, Visible;
    DirAfter(v, root, heads, w, x);
    DirFacts(v, root, heads, w, x);
    var room, slot := Roomy(v, x), NewSlot(x);
    assert DirBytes(w, x.d) == WithSlot(room, x.k, slot);
    if name == x.name {
      PlacedFound(room, x.k, slot, 0);
      WithSlotReads(room, x.k, slot, x.k);
    } else {
      PlacedOthers(room, x.k, slot, name, 0);
      var j := Find(DirBytes(v, x.d), name, 0);
      if j.Some? {
        WithSlotReads(room, x.k, slot, j.value);
        assert Find(WithSlot(room, x.k, slot), name, 0) == j;
        assert NameOf(SlotAt(WithSlot(room, x.k, slot), j.value)) == name;
      }
    }
  }

  /** Which directory a name leads to does not change. */
  lemma {:induction false} EnterAfter(v: Volume, root: nat, heads: Heads, w: Volume, x: Change, e: nat, name: ShortName)
    requires Stored(v, root, heads, w, x) && e in heads && heads[e] && Plain(name)
    ensures Enter(w, e, name) == Enter(v, e, name)
  {
    hide Stored, NewSlot, SlotAt, Find;
    DirKept(v, root, heads, w, x, e);
    if e == x.d {
      DirAfter(v, root, heads, w, x);
      DirFacts(v, root, heads, w, x);
      FindAfter(v, root, heads, w, x, name);
      OldIsFile(v, root, heads, w, x);
    }
  }

  lemma OldIsFile(v: Volume, root: nat, heads: Heads, w: Volume, x: Change)
    requires Stored(v, root, heads, w, x)
    ensures HasChain(v.fat, x.d) && |w.fat| == |v.fat|
    ensures var j := Find(DirBytes(v, x.d), x.name, 0); j.Some? ==> !IsDirectory(SlotAt(DirBytes(v, x.d), j.value))
  {
    hide Find, Tidy, NewFile, NewDirectory;
  }

  /** Every other directory reads the same. */
  lemma {:induction false} DirKept(v: Volume, root: nat, heads: Heads, w: Volume, x: Change, e: nat)
    requires Stored(v, root, heads, w, x) && e in heads && heads[e]
    ensures HasChain(v.fat, e) && HasChain(w.fat, e) && |w.fat| == |v.fat|
    ensures e != x.d ==> DirBytes(w, e) == DirBytes(v, e)
  {
    hide Stored;
    StoredDirs(v, root, heads, w, x, e);
    if e == x.d {
      DirAfter(v, root, heads, w, x);
    } else {
      if x.oldc != [] {
        OldHead(v, root, heads, w, x);
      }
      HeadKept(v, root, heads, w, x, e);
    }
  }

  lemma StoredDirs(v: Volume, root: nat, heads: Heads, w: Volume, x: Change, e: nat)
    requires Stored(v, root, heads, w, x) && e in heads
    ensures HasChain(v.fat, e) && |w.fat| == |v.fat| && Tidy(v, root, heads) && Plain(x.name)
  {
    hide Find, NewFile, NewDirectory, OldFile;
  }

  lemma {:induction false} ResolveAfter(v: Volume, root: nat, heads: Heads, w: Volume, x: Change, q: Path)
    requires Stored(v, root, heads, w, x) && PlainPath(q)
    ensures Resolve(w, root, q) == Resolve(v, root, q)
    decreases |q|
  {
    hide Stored, Enter, Tidy;
    if q != [] {
      var front := q[..|q| - 1];
      ResolveAfter(v, root, heads, w, x, front);
      assert Tidy(v, root, heads) by { StoredTidy(v, root, heads, w, x); }
      ResolveStays(v, root, heads, front);
      if Resolve(v, root, front).Ok? {
        EnterAfter(v, root, heads, w, x, Resolve(v, root, front).value, q[|q| - 1]);
      }
    }
  }

  lemma StoredTidy(v: Volume, root: nat, heads: Heads, w: Volume, x: Change)
    requires Stored(v, root, heads, w, x)
    ensures Tidy(v, root, heads)
  {
    hide Tidy;
  }

  // ---------- files ----------

  /** Slot `j` of directory `e`, other than the one being replaced. */
  ghost predicate OtherSlot(v: Volume, heads: Heads, x: Change, e: nat, j: nat) {
    && IsDir(v, heads, e) && Visible(DirBytes(v, e), j) && !IsDot(SlotAt(DirBytes(v, e), j))
    && !(e == x.d && Find(DirBytes(v, e), x.name, 0) == Some(j))
  }

  /** No other slot leads to the replaced file. */
  lemma {:induction false} OtherObject(v: Volume, root: nat, heads: Heads, w: Volume, x: Change, e: nat, j: nat)
    requires Stored(v, root, heads, w, x) && OtherSlot(v, heads, x, e, j)
    ensures x.oldc != [] ==> ClusterOf(SlotAt(DirBytes(v, e), j)) != x.oldc[0]
    ensures EntryOk(v, root, heads, SlotAt(DirBytes(v, e), j))
  {
    hide Stored, OtherSlot, Find, Tidy, Refers, EntryOk;
    StoredTidy(v, root, heads, w, x);
    OtherEntry(v, root, heads, x, e, j);
    OtherDir(v, heads, x, e, j);
    if x.oldc != [] {
      OldHead(v, root, heads, w, x);
      var i: nat :| Find(DirBytes(v, x.d), x.name, 0) == Some(i) && Refers(v, heads, x.d, i, x.oldc[0]);
      OtherReference(v, root, heads, x, e, j, i, x.oldc[0]);
    }
  }

  lemma OtherEntry(v: Volume, root: nat, heads: Heads, x: Change, e: nat, j: nat)
    requires Tidy(v, root, heads) && OtherSlot(v, heads, x, e, j)
    ensures EntryOk(v, root, heads, SlotAt(DirBytes(v, e), j))
  {
    hide Find, ChainsApart, SingleRefs, Visible, EntryOk, ZeroTail;
    assert DirOk(v, root, heads, e);
  }

  lemma OtherReference(v: Volume, root: nat, heads: Heads, x: Change, e: nat, j: nat, i: nat, c: nat)
    requires Tidy(v, root, heads) && OtherSlot(v, heads, x, e, j) && Refers(v, heads, x.d, i, c) && HasChain(v.fat, x.d)
    requires Find(DirBytes(v, x.d), x.name, 0) == Some(i)
    ensures ClusterOf(SlotAt(DirBytes(v, e), j)) != c
  {
    hide Find, ChainsApart, Visible, DirOk, ClusterOf;
    OtherDir(v, heads, x, e, j);
    assert ClusterOf(SlotAt(DirBytes(v, e), j)) == c ==> Refers(v, heads, e, j, c);
  }

  /** So the file behind it reads as before. */
  lemma {:induction false} ReadSlotKept(v: Volume, root: nat, heads: Heads, w: Volume, x: Change, e: nat, j: nat)
    requires Stored(v, root, heads, w, x) && OtherSlot(v, heads, x, e, j)
    ensures ReadSlot(w, SlotAt(DirBytes(v, e), j)) == ReadSlot(v, SlotAt(DirBytes(v, e), j))
  {
    hide Stored, OtherSlot, SlotAt, Find, Tidy;
    OtherObject(v, root, heads, w, x, e, j);
    OtherDir(v, heads, x, e, j);
    var slot := SlotAt(DirBytes(v, e), j);
    var c := ClusterOf(slot);
    OldIsFile(v, root, heads, w, x);
    if !IsDirectory(slot) {
      if ValidCluster(v.fat, c) {
        StoredDirs(v, root, heads, w, x, c);
        StoredIsDir(v, root, heads, w, x);
        HeadKept(v, root, heads, w, x, c);
      } else {
        NoChainOutside(v, c);
        NoChainOutside(w, c);
      }
    }
  }

  lemma OtherDir(v: Volume, heads: Heads, x: Change, e: nat, j: nat)
    requires OtherSlot(v, heads, x, e, j)
    ensures HasChain(v.fat, e) && HasSlot(DirBytes(v, e), j)
  {
  }

  lemma StoredIsDir(v: Volume, root: nat, heads: Heads, w: Volume, x: Change)
    requires Stored(v, root, heads, w, x)
    ensures x.d in heads && heads[x.d]
  {
  }

  lemma NoChainOutside(v: Volume, c: nat)
    requires !ValidCluster(v.fat, c)
    ensures !HasChain(v.fat, c)
  {
  }

  /** The new file reads back what was stored. */
  lemma {:induction false} NewFileReads(v: Volume, root: nat, heads: Heads, w: Volume, x: Change)
    requires Stored(v, root, heads, w, x)
    ensures First(x.ns) < 0x1_0000_0000 && |x.contents| < 0x1_0000_0000
    ensures ReadSlot(w, NewSlot(x)) == Ok(x.contents)
  {
    hide Stored, NewSlot, Joined, Roomy, Find;
    DirFacts(v, root, heads, w, x);
    assert NewFile(v, w, x) by { StoredNewFile(v, root, heads, w, x); }
    if x.ns != [] {
      ChainIs(w.fat, x.ns);
    }
  }

  lemma StoredNewFile(v: Volume, root: nat, heads: Heads, w: Volume, x: Change)
    requires Stored(v, root, heads, w, x)
    ensures NewFile(v, w, x)
  {
    hide NewFile;
  }

  lemma {:induction false} ReadInAfter(v: Volume, root: nat, heads: Heads, w: Volume, x: Change, e: nat, name: ShortName)
    requires Stored(v, root, heads, w, x) && e in heads && heads[e] && Plain(name)
    ensures ReadIn(w, e, name) == if e == x.d && name == x.name then Ok(x.contents) else ReadIn(v, e, name)
  {
    hide Stored, NewSlot, SlotAt, Find, ReadSlot, Visible, Live;
    DirKept(v, root, heads, w, x, e);
    VisibleFound(v, e, name);
    NewFileReads(v, root, heads, w, x);
    if e == x.d {
      FindAfter(v, root, heads, w, x, name);
    }
    var j := Find(DirBytes(v, e), name, 0);
    if !(e == x.d && name == x.name) && j.Some? {
      assert e == x.d ==> NameOf(SlotAt(DirBytes(v, e), j.value)) != x.name;
      assert OtherSlot(v, heads, x, e, j.value);
      ReadSlotKept(v, root, heads, w, x, e, j.value);
    }
  }

  /** Reading any path afterwards: the file stored, or what it read before. */
  lemma {:induction false} ReadAfter(v: Volume, root: nat, heads: Heads, w: Volume, x: Change, p: Path, q: Path)
    requires Stored(v, root, heads, w, x) && PlainPath(p) && PlainPath(q)
    requires p != [] && Resolve(v, root, p[..|p| - 1]) == Ok(x.d) && p[|p| - 1] == x.name
    ensures ReadAt(w, root, q) == if q == p then Ok(x.contents) else ReadAt(v, root, q)
  {
    hide Stored, Resolve, ReadIn, Tidy;
    if q != [] {
      var front := q[..|q| - 1];
      ResolveAfter(v, root, heads, w, x, front);
      StoredTidy(v, root, heads, w, x);
      ResolveStays(v, root, heads, front);
      if Resolve(v, root, front).Ok? {
        var e := Resolve(v, root, front).value;
        ReadInAfter(v, root, heads, w, x, e, q[|q| - 1]);
        if e == x.d && q[|q| - 1] == x.name {
          PathsUnique(v, root, heads, front, p[..|p| - 1]);
          assert q == front + [q[|q| - 1]] && p == p[..|p| - 1] + [p[|p| - 1]];
        }
      }
    }
  }

  /** The clusters of the file at a path, in order. */
  ghost function ClustersAt(v: Volume, root: nat, p: Path): seq<nat> {
    if p == [] then []
    else
      match Resolve(v, root, p[..|p| - 1])
      case Err(_) => []
      case Ok(d) => ClustersIn(v, d, p[|p| - 1])
  }

  ghost function ClustersIn(v: Volume, d: nat, name: ShortName): seq<nat> {
    if !HasChain(v.fat, d) then []
    else
      var bytes := DirBytes(v, d);
      match Find(bytes, name, 0)
      case None => []
      case Some(k) => if HasChain(v.fat, ClusterOf(SlotAt(bytes, k))) then Chain(v.fat, ClusterOf(SlotAt(bytes, k))) else []
  }

  lemma {:induction false} NewClusters(v: Volume, root: nat, heads: Heads, w: Volume, x: Change)
    requires Stored(v, root, heads, w, x)
    ensures ClustersIn(w, x.d, x.name) == x.ns
    ensures forall c :: c in x.ns ==> IsFree(v.fat, c)
  {
    hide Stored, Find, NewSlot, SlotAt, DirBytes, Visible, ZeroTail, Roomy, Joined;
    StoredIsDir(v, root, heads, w, x);
    DirKept(v, root, heads, w, x, x.d);
    DirFacts(v, root, heads, w, x);
    FindAfter(v, root, heads, w, x, x.name);
    StoredNewFile(v, root, heads, w, x);
    if x.ns != [] {
      ChainIs(w.fat, x.ns);
    } else {
      NoChainOutside(w, 0);
    }
  }

  lemma {:induction false} OldClusters(v: Volume, root: nat, heads: Heads, w: Volume, x: Change)
    requires Stored(v, root, heads, w, x)
    ensures ClustersIn(v, x.d, x.name) == x.oldc
    ensures forall c :: c in x.oldc ==> IsFree(w.fat, c)
  {
    hide Tidy, Find, SlotAt, NewFile, NewDirectory, Confined, DirBytes, IsChain;
  }

  /** The file stored has the new clusters, which were free; the one replaced had the old ones, which are. */
  lemma {:induction false} ClustersAfter(v: Volume, root: nat, heads: Heads, w: Volume, x: Change, p: Path)
    requires Stored(v, root, heads, w, x) && PlainPath(p)
    requires p != [] && Resolve(v, root, p[..|p| - 1]) == Ok(x.d) && p[|p| - 1] == x.name
    ensures ClustersAt(w, root, p) == x.ns && ClustersAt(v, root, p) == x.oldc
    ensures forall c :: c in x.ns ==> IsFree(v.fat, c)
    ensures forall c :: c in x.oldc ==> IsFree(w.fat, c)
  {
    hide Stored, Resolve, ClustersIn;
    ResolveAfter(v, root, heads, w, x, p[..|p| - 1]);
    NewClusters(v, root, heads, w, x);
    OldClusters(v, root, heads, w, x);
  }

  // ---------- the volume stays well formed ----------

  lemma {:induction false} FreshNotHead(v: Volume, root: nat, heads: Heads, w: Volume, x: Change)
    requires Stored(v, root, heads, w, x)
    ensures x.ns != [] ==> x.ns[0] !in heads
  {
    hide NewDirectory, Confined, OldFile, ChainsApart, SingleRefs, DirOk, Joined;
    if x.ns != [] && x.ns[0] in heads {
      ChainNotFree(v.fat, Chain(v.fat, x.ns[0]), x.ns[0]);
    }
  }

  /** Who is there afterwards. */
  lemma {:induction false} HeadsChange(v: Volume, root: nat, heads: Heads, w: Volume, x: Change, h: nat)
    requires Stored(v, root, heads, w, x)
    ensures h in HeadsAfter(heads, x) <==>
      (x.ns != [] && h == x.ns[0]) || (h in heads && (x.oldc != [] ==> h != x.oldc[0]))
    ensures h in HeadsAfter(heads, x) ==> HeadsAfter(heads, x)[h] == (h in heads && heads[h])
  {
    hide Stored;
    FreshNotHead(v, root, heads, w, x);
  }

  /** The chain of each object afterwards. */
  ghost function ChainAfter(v: Volume, x: Change, h: nat): seq<nat> {
    if x.ns != [] && h == x.ns[0] then x.ns
    else if !HasChain(v.fat, h) then []
    else if h == x.d then Chain(v.fat, h) + x.ext
    else Chain(v.fat, h)
  }

  lemma {:induction false} ChainsAfter(v: Volume, root: nat, heads: Heads, w: Volume, x: Change, h: nat)
    requires Stored(v, root, heads, w, x) && h in HeadsAfter(heads, x)
    ensures HasChain(w.fat, h) && Chain(w.fat, h) == ChainAfter(v, x, h)
  {
    hide Stored, HeadsAfter;
    HeadsChange(v, root, heads, w, x, h);
    FreshNotHead(v, root, heads, w, x);
    StoredNewFile(v, root, heads, w, x);
    DirAfter(v, root, heads, w, x);
    if x.ns != [] && h == x.ns[0] {
      ChainIs(w.fat, x.ns);
    } else {
      StoredDirs(v, root, heads, w, x, h);
      if h != x.d {
        HeadKept(v, root, heads, w, x, h);
      }
    }
  }

  /** Where a cluster of an object comes from. */
  lemma {:induction false} ClusterSource(v: Volume, root: nat, heads: Heads, w: Volume, x: Change, h: nat, c: nat)
    requires Stored(v, root, heads, w, x) && h in HeadsAfter(heads, x) && c in ChainAfter(v, x, h)
    ensures IsFree(v.fat, c) ==>
      if c in x.ns then x.ns != [] && h == x.ns[0] else h == x.d
    ensures !IsFree(v.fat, c) ==> h in heads && HasChain(v.fat, h) && c in Chain(v.fat, h)
  {
    hide Confined, OldFile, ChainsApart, SingleRefs, DirOk, Joined, HeadsAfter, Place;
    HeadsChange(v, root, heads, w, x, h);
    FreshNotHead(v, root, heads, w, x);
    if h in heads && HasChain(v.fat, h) && c in Chain(v.fat, h) {
      ChainNotFree(v.fat, Chain(v.fat, h), c);
    }
  }

  lemma {:induction false} ApartAfter(v: Volume, root: nat, heads: Heads, w: Volume, x: Change)
    requires Stored(v, root, heads, w, x)
    ensures ChainsApart(w, HeadsAfter(heads, x))
  {
    hide Stored, HeadsAfter, ChainAfter, IsFree;
    var after := HeadsAfter(heads, x);
    StoredTidy(v, root, heads, w, x);
    forall a <- after, b <- after, c: nat | HasChain(w.fat, a) && HasChain(w.fat, b) && c in Chain(w.fat, a) && c in Chain(w.fat, b)
      ensures a == b
    {
      ChainsAfter(v, root, heads, w, x, a);
      ChainsAfter(v, root, heads, w, x, b);
      ClusterSource(v, root, heads, w, x, a, c);
      ClusterSource(v, root, heads, w, x, b, c);
    }
  }

  /** Other slots still name objects, and the new slot names the new file. */
  lemma {:induction false} EntryAfter(v: Volume, root: nat, heads: Heads, w: Volume, x: Change, e: nat, j: nat)
    requires Stored(v, root, heads, w, x) && OtherSlot(v, heads, x, e, j)
    ensures EntryOk(w, root, HeadsAfter(heads, x), SlotAt(DirBytes(v, e), j))
  {
    hide Stored, HeadsAfter, OtherSlot, SlotAt, Find;
    OtherObject(v, root, heads, w, x, e, j);
    OtherDir(v, heads, x, e, j);
    OldIsFile(v, root, heads, w, x);
    var c := ClusterOf(SlotAt(DirBytes(v, e), j));
    HeadsChange(v, root, heads, w, x, c);
    if x.oldc != [] {
      OldHead(v, root, heads, w, x);
    }
  }

  lemma {:induction false} NewEntryOk(v: Volume, root: nat, heads: Heads, w: Volume, x: Change)
    requires Stored(v, root, heads, w, x)
    ensures First(x.ns) < 0x1_0000_0000 && |x.contents| < 0x1_0000_0000
    ensures EntryOk(w, root, HeadsAfter(heads, x), NewSlot(x))
  {
    hide Stored, HeadsAfter, NewSlot, Roomy, Find;
    DirFacts(v, root, heads, w, x);
    FreshNotHead(v, root, heads, w, x);
    if x.ns != [] {
      HeadsChange(v, root, heads, w, x, x.ns[0]);
    }
  }

  /** What a directory shows afterwards: what it showed, and in `d` the new slot. */
  lemma {:induction false} VisibleAfter(v: Volume, root: nat, heads: Heads, w: Volume, x: Change, e: nat, j: nat)
    requires Stored(v, root, heads, w, x) && e in heads && heads[e] && HasChain(w.fat, e) && HasChain(v.fat, e)
    requires First(x.ns) < 0x1_0000_0000 && |x.contents| < 0x1_0000_0000
    requires Visible(DirBytes(w, e), j) && !IsDot(SlotAt(DirBytes(w, e), j))
    ensures (e == x.d && j == x.k && SlotAt(DirBytes(w, e), j) == NewSlot(x))
      || (OtherSlot(v, heads, x, e, j) && SlotAt(DirBytes(w, e), j) == SlotAt(DirBytes(v, e), j))
  {
    hide Stored, Roomy, WithSlot, Place, FileSlot, SlotAt, Find, Visible;
    DirKept(v, root, heads, w, x, e);
    if e == x.d {
      DirAfter(v, root, heads, w, x);
      DirFacts(v, root, heads, w, x);
      var room, slot := Roomy(v, x), NewSlot(x);
      PlacedVisible(room, x.k, slot, j);
      WithSlotReads(room, x.k, slot, x.k);
      VisibleHas(DirBytes(v, e), j);
      ReplacedIsPlace(v, x);
    }
  }

  lemma VisibleHas(bytes: seq<byte>, j: nat)
    ensures Visible(bytes, j) ==> HasSlot(bytes, j)
  {
  }

  lemma ReplacedIsPlace(v: Volume, x: Change)
    requires HasChain(v.fat, x.d) && Place(Roomy(v, x), x.k, x.name)
    requires Find(Roomy(v, x), x.name, 0) == Find(DirBytes(v, x.d), x.name, 0)
    ensures forall j: nat :: Find(DirBytes(v, x.d), x.name, 0) == Some(j) ==> j == x.k
  {
    hide Find, Roomy, FirstVacant;
  }

  lemma {:induction false} DirOkAfter(v: Volume, root: nat, heads: Heads, w: Volume, x: Change, e: nat)
    requires Stored(v, root, heads, w, x) && e in heads && heads[e]
    ensures HasChain(w.fat, e) && DirOk(w, root, HeadsAfter(heads, x), e)
  {
    hide Stored, HeadsAfter, SlotAt, Find, Live, EntryOk, Roomy, WithSlot, ZeroTail, Place, FileSlot, Tidy, OtherSlot;
    DirKept(v, root, heads, w, x, e);
    NewEntryOk(v, root, heads, w, x);
    StoredTidy(v, root, heads, w, x);
    TidyTail(v, root, heads, e);
    if e == x.d {
      DirAfter(v, root, heads, w, x);
      DirFacts(v, root, heads, w, x);
      PlacedTail(Roomy(v, x), x.k, NewSlot(x));
    }
    forall j: nat | Visible(DirBytes(w, e), j) && !IsDot(SlotAt(DirBytes(w, e), j))
      ensures EntryOk(w, root, HeadsAfter(heads, x), SlotAt(DirBytes(w, e), j))
    {
      VisibleAfter(v, root, heads, w, x, e, j);
      if OtherSlot(v, heads, x, e, j) {
        EntryAfter(v, root, heads, w, x, e, j);
      }
    }
  }

  lemma TidyTail(v: Volume, root: nat, heads: Heads, e: nat)
    requires Tidy(v, root, heads) && e in heads && heads[e]
    ensures HasChain(v.fat, e) && ZeroTail(DirBytes(v, e))
  {
    hide ZeroTail, SingleRefs, ChainsApart;
    assert DirOk(v, root, heads, e);
  }

  /** A reference afterwards is the new one or one there was. */
  lemma {:induction false} RefersAfter(v: Volume, root: nat, heads: Heads, w: Volume, x: Change, e: nat, j: nat, c: nat)
    requires Stored(v, root, heads, w, x) && Refers(w, HeadsAfter(heads, x), e, j, c)
    ensures (e == x.d && j == x.k && x.ns != [] && c == x.ns[0]) || (Refers(v, heads, e, j, c) && c in heads)
  {
    hide Stored, HeadsAfter, SlotAt, Find, Visible, Roomy, Tidy, NewSlot, Live;
    HeadsChange(v, root, heads, w, x, e);
    DirKept(v, root, heads, w, x, e);
    DirFacts(v, root, heads, w, x);
    VisibleAfter(v, root, heads, w, x, e, j);
    OldIsFile(v, root, heads, w, x);
    if OtherSlot(v, heads, x, e, j) {
      OtherObject(v, root, heads, w, x, e, j);
    }
  }

  lemma {:induction false} SingleAfter(v: Volume, root: nat, heads: Heads, w: Volume, x: Change)
    requires Stored(v, root, heads, w, x)
    ensures SingleRefs(w, HeadsAfter(heads, x))
  {
    hide Stored, HeadsAfter, Refers, DirOk, ChainsApart;
    var after := HeadsAfter(heads, x);
    StoredTidy(v, root, heads, w, x);
    FreshNotHead(v, root, heads, w, x);
    forall d: nat, k: nat, e: nat, j: nat, c: nat | Refers(w, after, d, k, c) && Refers(w, after, e, j, c) ensures d == e && k == j {
      RefersAfter(v, root, heads, w, x, d, k, c);
      RefersAfter(v, root, heads, w, x, e, j, c);
    }
  }

  /** Storing a file keeps the volume well formed. */
  lemma {:induction false} TidyAfter(v: Volume, root: nat, heads: Heads, w: Volume, x: Change)
    requires Stored(v, root, heads, w, x)
    ensures Tidy(w, root, HeadsAfter(heads, x))
  {
    hide Stored, HeadsAfter, DirOk, ChainsApart, SingleRefs;
    var after := HeadsAfter(heads, x);
    StoredTidy(v, root, heads, w, x);
    if x.oldc != [] {
      OldHead(v, root, heads, w, x);
    }
    HeadsChange(v, root, heads, w, x, root);
    forall h <- after ensures HasChain(w.fat, h) && (after[h] ==> DirOk(w, root, after, h)) {
      ChainsAfter(v, root, heads, w, x, h);
      HeadsChange(v, root, heads, w, x, h);
      if after[h] {
        DirOkAfter(v, root, heads, w, x, h);
      }
    }
    ApartAfter(v, root, heads, w, x);
    SingleAfter(v, root, heads, w, x);
    StoredConfined(v, root, heads, w, x);
  }
}
