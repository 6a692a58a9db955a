/**
  From the steps of `write_file` to the change they make together.
 */
module FatAssemble {
  import opened Bytes
  import opened FatChain
  import opened FatVolume
  import opened FatDir
  import opened FatTree
  import opened FatStore

  /** What `allocate_chain` hands out: the lowest free clusters, in order. */
  ghost predicate Allocation(f: Fat, cs: seq<nat>) {
    && Distinct(cs) && (forall i :: 0 <= i < |cs| ==> IsFree(f, cs[i]))
    && (forall i, j :: 0 <= i < j < |cs| ==> cs[i] < cs[j])
    && forall d: nat, i :: IsFree(f, d) && 0 <= i < |cs| && d < cs[i] ==> d in cs
  }

  /** Cluster `x`, free before, is linked behind `cs` and zeroed; nothing else changes. */
  ghost predicate Extended(v: Volume, w: Volume, cs: seq<nat>, x: nat)
    requires cs != []
  {
    && SameShape(v, w) && IsFree(v.fat, x) && IsChain(w.fat, cs + [x]) && Contents(w, x) == Zeros(w.size)
    && (forall c: nat :: ValidCluster(v.fat, c) && c != x && c != cs[|cs| - 1] ==> Next(w.fat, c) == Next(v.fat, c))
    && (forall c: nat :: c != x ==> Contents(w, c) == Contents(v, c))
  }

  /** New clusters taken and filled. */
  ghost predicate Filled(v: Volume, w: Volume, ns: seq<nat>, contents: seq<byte>) {
    && SameShape(v, w) && Allocation(v.fat, ns) && LinkedUp(v.fat, w.fat, ns)
    && (forall c: nat :: c !in ns ==> Contents(w, c) == Contents(v, c))
    && |contents| <= |Joined(w, ns)| && Joined(w, ns)[..|contents|] == contents
  }

  /** Room made in the directory with clusters `cs`, if need be. */
  ghost predicate Widened(v: Volume, w: Volume, cs: seq<nat>, ext: seq<nat>)
    requires cs != []
  {
    |ext| <= 1 && if ext == [] then w == v else Extended(v, w, cs, ext[0])
  }

  /** One slot of the directory rewritten. */
  ghost predicate Entered(v: Volume, w: Volume, cs: seq<nat>, k: nat, slot: Slot) {
    && SameShape(v, w) && w.fat == v.fat && (forall c: nat :: c !in cs ==> Contents(w, c) == Contents(v, c))
    && HasSlot(Joined(v, cs), k) && Joined(w, cs) == WithSlot(Joined(v, cs), k, slot)
  }

  /** The clusters of the replaced file freed. */
  ghost predicate Freed(v: Volume, w: Volume, oldc: seq<nat>) {
    SameShape(v, w) && w.data == v.data && Released(v.fat, w.fat, oldc)
  }

  /** The steps of `write_file` one after the other. */
  ghost predicate Steps(v: Volume, v2: Volume, v3: Volume, v4: Volume, w: Volume, x: Change)
    requires HasChain(v.fat, x.d)
  {
    var cs := Chain(v.fat, x.d);
    && Filled(v, v2, x.ns, x.contents) && Widened(v2, v3, cs, x.ext)
    && First(x.ns) < 0x1_0000_0000 && |x.contents| < 0x1_0000_0000
    && Entered(v3, v4, cs + x.ext, x.k, FileSlot(x.name, First(x.ns), |x.contents|)) && Freed(v4, w, x.oldc)
  }

  /** Chains that were there are untouched by the first step. */
  lemma {:induction false} FilledKeeps(v: Volume, v2: Volume, ns: seq<nat>, contents: seq<byte>, cs: seq<nat>)
    requires Filled(v, v2, ns, contents) && IsChain(v.fat, cs)
    ensures IsChain(v2.fat, cs) && Joined(v2, cs) == Joined(v, cs) && forall c :: c in cs ==> c !in ns
  {
    hide Joined;
    forall c | c in cs ensures c !in ns {
      ChainNotFree(v.fat, cs, c);
    }
    forall i | 0 <= i < |cs| ensures v2.fat[cs[i] - 2] == v.fat[cs[i] - 2] && Contents(v2, cs[i]) == Contents(v, cs[i]) {
      assert cs[i] in cs;
      assert Next(v2.fat, cs[i]) == Next(v.fat, cs[i]);
    }
    ChainFrame(v.fat, v2.fat, cs);
    JoinedFrame(v, v2, cs);
  }

  lemma {:induction false} WidenedFacts(v: Volume, v2: Volume, v3: Volume, cs: seq<nat>, x: Change)
    requires Filled(v, v2, x.ns, x.contents) && IsChain(v.fat, cs) && Widened(v2, v3, cs, x.ext)
    ensures SameShape(v, v3) && IsChain(v3.fat, cs + x.ext) && Fresh(v, x.ext)
    ensures forall c :: c in x.ext ==> c !in x.ns && c !in cs
    ensures Joined(v3, cs + x.ext) == Joined(v, cs) + Zeros(|x.ext| * v.size)
  {
    hide Joined, LinkedUp;
    FilledKeeps(v, v2, x.ns, x.contents, cs);
    if x.ext == [] {
      assert cs + x.ext == cs;
      assert Joined(v, cs) + Zeros(0) == Joined(v, cs);
    } else {
      ExtensionFree(v, v2, x.ns, x.contents, x.ext[0]);
      ExtensionJoined(v2, v3, cs, x.ext[0]);
      assert x.ext == [x.ext[0]];
    }
  }

  lemma {:induction false} ExtensionFree(v: Volume, v2: Volume, ns: seq<nat>, contents: seq<byte>, c: nat)
    requires Filled(v, v2, ns, contents) && IsFree(v2.fat, c)
    ensures IsFree(v.fat, c) && c !in ns
  {
    hide Joined;
    if c in ns {
      ChainNotFree(v2.fat, ns, c);
    }
  }

  lemma {:induction false} ExtensionJoined(v2: Volume, v3: Volume, cs: seq<nat>, c: nat)
    requires IsChain(v2.fat, cs) && Extended(v2, v3, cs, c)
    ensures c !in cs && Joined(v3, cs + [c]) == Joined(v2, cs) + Zeros(v3.size)
  {
    if c in cs {
      ChainNotFree(v2.fat, cs, c);
    }
    var more := cs + [c];
    assert more[..|more| - 1] == cs && more[|more| - 1] == c;
    forall i | 0 <= i < |cs| ensures Contents(v3, cs[i]) == Contents(v2, cs[i]) {
      assert cs[i] in cs;
    }
    JoinedFrame(v2, v3, cs);
  }

  ghost predicate SameAt(v: Volume, w: Volume, c: nat) {
    ValidCluster(v.fat, c) && ValidCluster(w.fat, c) && Next(w.fat, c) == Next(v.fat, c) && Contents(w, c) == Contents(v, c)
  }

  lemma FilledAt(v: Volume, w: Volume, ns: seq<nat>, contents: seq<byte>, c: nat)
    requires Filled(v, w, ns, contents) && ValidCluster(v.fat, c) && c !in ns
    ensures SameAt(v, w, c)
  {
    hide Joined, Allocation;
  }

  lemma WidenedAt(v: Volume, w: Volume, cs: seq<nat>, ext: seq<nat>, c: nat)
    requires cs != [] && Widened(v, w, cs, ext) && ValidCluster(v.fat, c) && c !in ext && c != cs[|cs| - 1]
    ensures SameAt(v, w, c)
  {
    hide Zeros;
  }

  lemma EnteredAt(v: Volume, w: Volume, cs: seq<nat>, k: nat, slot: Slot, c: nat)
    requires Entered(v, w, cs, k, slot) && ValidCluster(v.fat, c) && c !in cs
    ensures SameAt(v, w, c)
  {
    hide Joined, WithSlot;
  }

  lemma FreedAt(v: Volume, w: Volume, oldc: seq<nat>, c: nat)
    requires Freed(v, w, oldc) && ValidCluster(v.fat, c) && c !in oldc
    ensures SameAt(v, w, c)
  {
  }

  /** What all the steps together leave alone. */
  lemma {:induction false} StepsConfined(v: Volume, v2: Volume, v3: Volume, v4: Volume, w: Volume, x: Change)
    requires HasChain(v.fat, x.d) && Steps(v, v2, v3, v4, w, x)
    ensures Confined(v, w, Footprint(v, x))
  {
    hide Joined, FileSlot, Filled, Widened, Entered, Freed, IsChain;
    var cs := Chain(v.fat, x.d);
    ChainNotEmpty(v.fat, cs);
    StepsShape(v, v2, v3, v4, w, x);
    forall c: nat | ValidCluster(v.fat, c) && c !in Footprint(v, x) ensures Next(w.fat, c) == Next(v.fat, c) && Contents(w, c) == Contents(v, c) {
      assert c !in x.ns && c !in x.ext && c !in cs && c !in x.oldc;
      FilledAt(v, v2, x.ns, x.contents, c);
      WidenedAt(v2, v3, cs, x.ext, c);
      EnteredAt(v3, v4, cs + x.ext, x.k, FileSlot(x.name, First(x.ns), |x.contents|), c);
      FreedAt(v4, w, x.oldc, c);
    }
  }

  lemma ChainNotEmpty(f: Fat, cs: seq<nat>)
    requires IsChain(f, cs)
    ensures cs != []
  {
  }

  lemma StepsShape(v: Volume, v2: Volume, v3: Volume, v4: Volume, w: Volume, x: Change)
    requires HasChain(v.fat, x.d) && Steps(v, v2, v3, v4, w, x)
    ensures SameShape(v, w)
  {
    hide Joined, FileSlot, WithSlot, LinkedUp, Allocation, Released, VolumeOk, Zeros;
  }

  lemma FreedContents(v: Volume, w: Volume, oldc: seq<nat>, c: nat)
    requires Freed(v, w, oldc)
    ensures Contents(w, c) == Contents(v, c)
  {
  }

  /** A chain that the later steps do not touch. */
  lemma {:induction false} StepsKeep(v3: Volume, v4: Volume, w: Volume, dir: seq<nat>, k: nat, slot: Slot, oldc: seq<nat>, cs: seq<nat>)
    requires Entered(v3, v4, dir, k, slot) && Freed(v4, w, oldc) && IsChain(v3.fat, cs)
    requires forall c :: c in cs ==> c !in oldc
    ensures IsChain(w.fat, cs) && Joined(w, cs) == Joined(v4, cs)
    ensures (forall c :: c in cs ==> c !in dir) ==> Joined(w, cs) == Joined(v3, cs)
  {
    hide Joined, WithSlot;
    forall i | 0 <= i < |cs| ensures w.fat[cs[i] - 2] == v3.fat[cs[i] - 2] && Contents(w, cs[i]) == Contents(v4, cs[i]) {
      assert cs[i] in cs;
      assert Next(w.fat, cs[i]) == Next(v4.fat, cs[i]);
      FreedContents(v4, w, oldc, cs[i]);
    }
    ChainFrame(v3.fat, w.fat, cs);
    JoinedFrame(v4, w, cs);
    if forall c :: c in cs ==> c !in dir {
      forall i | 0 <= i < |cs| ensures Contents(w, cs[i]) == Contents(v3, cs[i]) {
        assert cs[i] in cs;
        FreedContents(v4, w, oldc, cs[i]);
      }
      JoinedFrame(v3, w, cs);
    }
  }

  /** The place chosen is a place in the widened directory. */
  lemma {:induction false} PlaceIn(v: Volume, x: Change)
    requires VolumeOk(v) && HasChain(v.fat, x.d) && ZeroTail(DirBytes(v, x.d)) && |x.ext| <= 1
    requires var bytes := DirBytes(v, x.d);
      if x.ext == [] then Place(bytes, x.k, x.name)
      else Find(bytes, x.name, 0).None? && FirstVacant(bytes, 0).None? && x.k == |bytes| / SLOT
    ensures Place(Roomy(v, x), x.k, x.name)
  {
    hide Find, FirstVacant, Joined, ZeroTail;
    var bytes := DirBytes(v, x.d);
    if x.ext == [] {
      assert bytes + Zeros(0) == bytes;
    } else {
      JoinedAligned(v, Chain(v.fat, x.d));
      GrownTail(bytes, v.size);
      GrownFind(bytes, v.size, x.name, 0);
    }
  }

  /** The old clusters are those of another object. */
  lemma {:induction false} OldApart(v: Volume, root: nat, heads: Heads, x: Change)
    requires Tidy(v, root, heads) && x.d in heads && heads[x.d] && HasChain(v.fat, x.d) && Plain(x.name) && OldFile(v, x)
    ensures forall c :: c in x.oldc ==> !IsFree(v.fat, c) && c !in Chain(v.fat, x.d) && ValidCluster(v.fat, c)
  {
    hide Find, SingleRefs, Visible, Live;
    VisibleFound(v, x.d, x.name);
    if x.oldc != [] {
      var slot := SlotAt(DirBytes(v, x.d), Find(DirBytes(v, x.d), x.name, 0).value);
      assert DirOk(v, root, heads, x.d);
      assert EntryOk(v, root, heads, slot);
      var old' := ClusterOf(slot);
      HeadIsValid(v, old');
      forall c | c in x.oldc ensures !IsFree(v.fat, c) && c !in Chain(v.fat, x.d) && ValidCluster(v.fat, c) {
        ChainNotFree(v.fat, x.oldc, c);
      }
    }
  }

  /** The steps of `write_file` store the file. */
  lemma {:induction false} StepsStore(v: Volume, root: nat, heads: Heads, v2: Volume, v3: Volume, v4: Volume, w: Volume, x: Change)
    requires Tidy(v, root, heads) && x.d in heads && heads[x.d] && HasChain(v.fat, x.d) && Plain(x.name) && OldFile(v, x)
    requires Steps(v, v2, v3, v4, w, x) && (x.ns == [] <==> x.contents == []) && Place(Roomy(v, x), x.k, x.name)
    ensures Stored(v, root, heads, w, x)
  {
    hide Tidy, OldFile, Joined, FileSlot, WithSlot, Place, Filled, Widened, Entered, Freed, Roomy, Confined, IsChain, Footprint;
    var cs := Chain(v.fat, x.d);
    var slot := FileSlot(x.name, First(x.ns), |x.contents|);
    ChainNotEmpty(v.fat, cs);
    OldApart(v, root, heads, x);
    StepsConfined(v, v2, v3, v4, w, x);
    WidenedFacts(v, v2, v3, cs, x);
    RoomyIs(v, x);
    DirStored(v, v2, v3, v4, w, x);
    FileStored(v, v2, v3, v4, w, x);
    OldFreed(v4, w, x.oldc);
  }

  lemma RoomyIs(v: Volume, x: Change)
    requires HasChain(v.fat, x.d)
    ensures Roomy(v, x) == Joined(v, Chain(v.fat, x.d)) + Zeros(|x.ext| * v.size)
  {
    hide Joined, Zeros;
  }

  lemma OldFreed(v: Volume, w: Volume, oldc: seq<nat>)
    requires Freed(v, w, oldc)
    ensures forall c :: c in oldc ==> ValidCluster(w.fat, c) && Next(w.fat, c) == FREE
  {
  }

  lemma {:induction false} DirStored(v: Volume, v2: Volume, v3: Volume, v4: Volume, w: Volume, x: Change)
    requires HasChain(v.fat, x.d) && Steps(v, v2, v3, v4, w, x) && Place(Roomy(v, x), x.k, x.name)
    requires forall c :: c in x.oldc ==> !IsFree(v.fat, c) && c !in Chain(v.fat, x.d)
    ensures NewDirectory(v, w, x)
  {
    hide Joined, FileSlot, WithSlot, Place, Filled, Entered, Freed, Roomy, IsChain, Extended;
    var cs := Chain(v.fat, x.d);
    ChainNotEmpty(v.fat, cs);
    WidenedFacts(v, v2, v3, cs, x);
    RoomyIs(v, x);
    var slot := FileSlot(x.name, First(x.ns), |x.contents|);
    forall c | c in cs + x.ext ensures c !in x.oldc {
      if c in x.ext {
        var i :| 0 <= i < |x.ext| && x.ext[i] == c;
        assert IsFree(v.fat, x.ext[i]);
      }
    }
    StepsKeep(v3, v4, w, cs + x.ext, x.k, slot, x.oldc, cs + x.ext);
    EnteredJoined(v3, v4, cs + x.ext, x.k, slot);
  }

  lemma EnteredJoined(v: Volume, w: Volume, cs: seq<nat>, k: nat, slot: Slot)
    requires Entered(v, w, cs, k, slot)
    ensures HasSlot(Joined(v, cs), k) && Joined(w, cs) == WithSlot(Joined(v, cs), k, slot)
  {
    hide Joined, WithSlot;
  }

  lemma {:induction false} FileStored(v: Volume, v2: Volume, v3: Volume, v4: Volume, w: Volume, x: Change)
    requires HasChain(v.fat, x.d) && Steps(v, v2, v3, v4, w, x) && (x.ns == [] <==> x.contents == [])
    requires forall c :: c in x.oldc ==> !IsFree(v.fat, c)
    ensures NewFile(v, w, x)
  {
    hide Joined, FileSlot, Entered, Freed, IsChain, Extended, LinkedUp;
    var cs := Chain(v.fat, x.d);
    ChainNotEmpty(v.fat, cs);
    WidenedFacts(v, v2, v3, cs, x);
    FilledKeeps(v, v2, x.ns, x.contents, cs);
    if x.ns == [] {
      JoinedEmpty(w);
    } else {
      FilledChain(v, v2, x.ns, x.contents);
      WidenedKeeps(v2, v3, cs, x.ext, x.ns);
      forall c | c in x.ns ensures c !in x.oldc && c !in cs + x.ext {
        var i :| 0 <= i < |x.ns| && x.ns[i] == c;
        assert IsFree(v.fat, x.ns[i]);
      }
      StepsKeep(v3, v4, w, cs + x.ext, x.k, FileSlot(x.name, First(x.ns), |x.contents|), x.oldc, x.ns);
    }
  }

  lemma JoinedEmpty(v: Volume)
    ensures Joined(v, []) == []
  {
  }

  lemma FilledChain(v: Volume, w: Volume, ns: seq<nat>, contents: seq<byte>)
    requires Filled(v, w, ns, contents) && ns != []
    ensures IsChain(w.fat, ns)
  {
    hide Joined, Allocation;
  }

  /** Chains apart from the directory are untouched by the second step. */
  lemma {:induction false} WidenedKeeps(v: Volume, w: Volume, cs: seq<nat>, ext: seq<nat>, ns: seq<nat>)
    requires cs != [] && Widened(v, w, cs, ext) && IsChain(v.fat, ns)
    requires (forall c :: c in cs ==> c !in ns) && (forall c :: c in ext ==> c !in ns)
    ensures IsChain(w.fat, ns) && Joined(w, ns) == Joined(v, ns)
  {
    hide Joined, Widened;
    assert cs[|cs| - 1] in cs;
    if |w.fat| == |v.fat| {
      forall i | 0 <= i < |ns| ensures w.fat[ns[i] - 2] == v.fat[ns[i] - 2] && Contents(w, ns[i]) == Contents(v, ns[i]) {
        assert ns[i] in ns;
        WidenedAt(v, w, cs, ext, ns[i]);
        assert Next(w.fat, ns[i]) == Next(v.fat, ns[i]);
      }
    }
    WidenedSize(v, w, cs, ext);
    ChainFrame(v.fat, w.fat, ns);
    JoinedFrame(v, w, ns);
  }

  lemma WidenedSize(v: Volume, w: Volume, cs: seq<nat>, ext: seq<nat>)
    requires cs != [] && Widened(v, w, cs, ext)
    ensures |w.fat| == |v.fat|
  {
  }
}
