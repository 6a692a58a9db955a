/**
  What a well-formed NexFS volume is, as the offline checker defines it, and the
  file tree such a volume stands for.
 */
module NexState {
  import opened Bytes
  import opened NexLayout
  import opened NexVolume
  import opened NexBlocks
  import opened NexTree

  // ---------- file contents ----------

  ghost function Content(v: Vol, ino: Inode): (s: seq<byte>)
    requires ino.blockCount <= MAX_FILE_BLOCKS && ino.size <= BLOCK_SIZE * ino.blockCount
    ensures |s| == ino.size
  {
    Raw(v, ino)[..ino.size]
  }

  /** A directory's bytes as 256-byte records; the first bad record decides. */
  function ParseDir(s: seq<byte>): (r: Result<seq<DirEntry>>)
    ensures r.Ok? ==> |r.value| == |s| / DIR_ENTRY_SIZE
    ensures r.Ok? ==> ValidEntries(r.value)
  {
    if |s| < DIR_ENTRY_SIZE then Ok([])
    else
      match DecodeEntry(s[..DIR_ENTRY_SIZE])
      case Err(e) => Err(e)
      case Ok(e) =>
        match ParseDir(s[DIR_ENTRY_SIZE..])
        case Err(x) => Err(x)
        case Ok(es) => Ok([e] + es)
  }

  predicate ValidEntries(es: seq<DirEntry>) {
    forall k :: 0 <= k < |es| ==> ValidEntry(es[k])
  }

  function EncodeAll(es: seq<DirEntry>): (s: seq<byte>)
    requires ValidEntries(es)
    ensures |s| == DIR_ENTRY_SIZE * |es|
  {
    if es == [] then [] else EncodeAll(es[..|es| - 1]) + EncodeEntry(es[|es| - 1])
  }

  lemma {:induction false} ParseDirAppend(s: seq<byte>, r: seq<byte>)
    requires |s| % DIR_ENTRY_SIZE == 0 && |r| == DIR_ENTRY_SIZE
    ensures ParseDir(s).Ok? && DecodeEntry(r).Ok? ==>
      ParseDir(s + r) == Ok(ParseDir(s).value + [DecodeEntry(r).value])
    ensures ParseDir(s).Ok? && DecodeEntry(r).Err? ==> ParseDir(s + r) == Err(DecodeEntry(r).error)
    ensures ParseDir(s).Err? ==> ParseDir(s + r) == ParseDir(s)
  {
    hide DecodeEntry;
    if s == [] {
      assert s + r == r && r[..DIR_ENTRY_SIZE] == r && r[DIR_ENTRY_SIZE..] == [];
      assert ParseDir(r[DIR_ENTRY_SIZE..]) == Ok([]) && ParseDir(s) == Ok([]);
      if DecodeEntry(r).Ok? {
        assert [DecodeEntry(r).value] + [] == [] + [DecodeEntry(r).value];
      }
    } else {
      var rest := s[DIR_ENTRY_SIZE..];
      ParseDirAppend(rest, r);
      assert (s + r)[..DIR_ENTRY_SIZE] == s[..DIR_ENTRY_SIZE] && (s + r)[DIR_ENTRY_SIZE..] == rest + r;
      if ParseDir(s).Ok? && DecodeEntry(r).Ok? {
        var e, es, x := DecodeEntry(s[..DIR_ENTRY_SIZE]).value, ParseDir(rest).value, DecodeEntry(r).value;
        assert [e] + (es + [x]) == ([e] + es) + [x];
      }
    }
  }

  /** Writing out a directory and parsing it gives the directory back. */
  lemma {:induction false} DirectoryRoundTrip(es: seq<DirEntry>)
    requires ValidEntries(es)
    ensures ParseDir(EncodeAll(es)) == Ok(es)
  {
    hide DecodeEntry, EncodeEntry, ValidName, Utf8;
    if es == [] {
    } else {
      var front, e := es[..|es| - 1], es[|es| - 1];
      DirectoryRoundTrip(front);
      EntryRoundTrip(e);
      ParseDirAppend(EncodeAll(front), EncodeEntry(e));
      assert es == front + [e];
    }
  }

  // ---------- well-formed volumes ----------

  predicate SizeOk(ino: Inode) {
    ino.blockCount == DataBlocksForSize(ino.size) <= MAX_FILE_BLOCKS
  }

  predicate Tight(ino: Inode) {
    ino.indirect != 0 ==> ino.blockCount > DIRECT_BLOCKS
  }

  lemma SizeCovers(ino: Inode)
    requires SizeOk(ino)
    ensures ino.size <= BLOCK_SIZE * ino.blockCount && ino.size <= MAX_BYTES
  {
  }

  ghost predicate InodeOk(v: Vol, ino: Inode) {
    && SizeOk(ino) && Tight(ino)
    && (SizeCovers(ino);
        ino.kind.Directory? ==> ino.size % DIR_ENTRY_SIZE == 0 && ParseDir(Content(v, ino)).Ok?)
  }

  ghost function NodeOf(v: Vol, ino: Inode): Node
    requires SizeOk(ino)
  {
    SizeCovers(ino);
    if ino.kind.Regular? then File(Content(v, ino))
    else match ParseDir(Content(v, ino)) case Ok(es) => Dir(es) case Err(_) => Dir([])
  }

  ghost function FsOf(v: Vol, t: InodeTable): (fs: Fs)
    ensures fs.Keys == t.Keys
    ensures forall n <- t :: fs[n] == if SizeOk(t[n]) then NodeOf(v, t[n]) else File([])
  {
    map n <- t :: if SizeOk(t[n]) then NodeOf(v, t[n]) else File([])
  }

  /** The allocated inodes whose slots decode; inode 0 is reserved. */
  ghost function Inodes(v: Vol): (t: InodeTable)
    ensures forall n: nat :: n in t <==> n in v.ibits && n != 0 && n < |v.slots| && v.slots[n].Ok?
    ensures forall n <- t :: n < |v.slots| && v.slots[n] == Ok(t[n])
  {
    map n: nat | n in v.ibits && n != 0 && n < |v.slots| && v.slots[n].Ok? :: v.slots[n].value
  }

  /** Reserved bits are set, bits past the end are clear, allocated slots decode. */
  ghost predicate BitsOk(v: Vol) {
    && 0 in v.ibits && ROOT in v.ibits
    && (forall n <- v.ibits :: n < v.g.InodeCount() && n < |v.slots| && (n != 0 ==> v.slots[n].Ok?))
    && (forall b: nat :: b < v.g.dataStart ==> b in v.bbits)
    && (forall b <- v.bbits :: b < v.g.total)
  }

  ghost predicate TableOk(v: Vol, t: InodeTable) {
    && Ownership(v, t)
    && (forall n <- t :: InodeOk(v, t[n]))
    && Tree(FsOf(v, t))
  }

  /** Everything `check_detailed` demands besides a clean superblock. */
  ghost predicate WellFormed(v: Vol) {
    VolOk(v) && BitsOk(v) && TableOk(v, Inodes(v))
  }

  // ---------- what a change to one inode leaves alone ----------

  lemma {:induction false} SameNode(v: Vol, w: Vol, ino: Inode)
    requires w.g == v.g && BlocksOk(v, ino) && SameFile(v, w, ino)
    ensures InodeOk(v, ino) <==> InodeOk(w, ino)
    ensures SizeOk(ino) ==> NodeOf(w, ino) == NodeOf(v, ino)
  {
    hide BlocksOk, ParseDir;
    SameRaw(v, w, ino);
    if SizeOk(ino) {
      SizeCovers(ino);
    }
  }

  /** Changing inode `n` in memory changes node `n` of the tree and no other. */
  lemma {:induction false} ChangedFs(v: Vol, t: InodeTable, w: Vol, n: nat, ino: Inode)
    requires Ownership(v, t) && Changed(v, t, w, n, ino) && SizeOk(ino)
    requires forall m <- t :: m != n ==> InodeOk(v, t[m])
    ensures FsOf(w, t[n := ino]) == FsOf(v, t)[n := NodeOf(w, ino)]
    ensures forall m <- t :: m != n ==> InodeOk(w, t[m])
  {
    hide BlocksOk, InodeOk, NodeOf;
    forall m <- t | m != n ensures InodeOk(w, t[m]) && FsOf(w, t)[m] == FsOf(v, t)[m] {
      SameNode(v, w, t[m]);
    }
  }

  // ---------- inodes that own nothing ----------

  lemma {:induction false} OwnsNothing(v: Vol, ino: Inode)
    requires ino.blockCount == 0 && ino.indirect == 0
    ensures Owned(v, ino) == {} && Raw(v, ino) == []
    ensures (forall i: nat :: i < DIRECT_BLOCKS ==> ino.direct[i] == 0) ==> BlocksOk(v, ino)
  {
  }

  /** An inode without blocks may join the table. */
  lemma {:induction false} AddEmpty(v: Vol, t: InodeTable, n: nat, ino: Inode)
    requires Ownership(v, t) && n !in t && ino.blockCount == 0 && ino.indirect == 0
    requires forall i: nat :: i < DIRECT_BLOCKS ==> ino.direct[i] == 0
    ensures Ownership(v, t[n := ino])
  {
    hide BlocksOk;
    OwnsNothing(v, ino);
    var u := t[n := ino];
    assert forall m, b :: Owner(v, u, m, b) == Owner(v, t, m, b);
    EqualOwners(v, t, u);
  }

  lemma {:induction false} EqualOwners(v: Vol, t: InodeTable, u: InodeTable)
    requires Ownership(v, t) && forall m, b :: Owner(v, u, m, b) == Owner(v, t, m, b)
    requires forall m <- u :: BlocksOk(v, u[m])
    ensures Ownership(v, u)
  {
    hide BlocksOk, Owner;
    forall b: nat | v.g.InData(b) && b in v.bbits ensures exists n :: Owner(v, u, n, b) {
      var n :| Owner(v, t, n, b);
      assert Owner(v, u, n, b);
    }
  }

  /** And may leave it. */
  lemma {:induction false} DropEmpty(v: Vol, t: InodeTable, n: nat)
    requires Ownership(v, t) && n in t && t[n].blockCount == 0 && t[n].indirect == 0
    ensures Ownership(v, t - {n})
  {
    hide BlocksOk;
    OwnsNothing(v, t[n]);
    var u := t - {n};
    assert forall m, b :: Owner(v, u, m, b) == Owner(v, t, m, b);
    EqualOwners(v, t, u);
  }

  /** Ownership looks at the bitmap and the data region only. */
  lemma {:induction false} OwnershipOfView(v: Vol, w: Vol, t: InodeTable)
    requires Ownership(v, t) && w.g == v.g && w.bbits == v.bbits && w.data == v.data && |w.slots| == |v.slots|
    ensures Ownership(w, t)
    ensures forall n <- t :: SameFile(v, w, t[n])
  {
    hide Owner;
    forall n <- t ensures SameFile(v, w, t[n]) && BlocksOk(w, t[n]) {
      assert BlocksOk(v, t[n]);
      FrameFile(v, w, t[n]);
    }
    forall n, b ensures Owner(w, t, n, b) == Owner(v, t, n, b) {
      OwnerOfView(v, w, t, n, b);
    }
    forall b: nat | w.g.InData(b) && b in w.bbits ensures exists n :: Owner(w, t, n, b) {
      var n :| Owner(v, t, n, b);
      assert Owner(w, t, n, b);
    }
  }

  lemma {:induction false} OwnerOfView(v: Vol, w: Vol, t: InodeTable, n: nat, b: nat)
    requires forall n <- t :: SameFile(v, w, t[n])
    ensures Owner(w, t, n, b) == Owner(v, t, n, b)
  {
  }

  // ---------- what writing means for the contents ----------

  function Padded(s: seq<byte>, n: nat): seq<byte> {
    if n > |s| then s + Zeros(n - |s|) else s
  }

  /** Zero-pad up to the offset, then replace or append: `write_file`. */
  function Spliced(s: seq<byte>, at: nat, input: seq<byte>): (r: seq<byte>)
    ensures |r| == Max(Max(|s|, at), at + |input|)
  {
    var p := Padded(s, at);
    p[..at] + input + (if at + |input| < |p| then p[at + |input|..] else [])
  }

  /** Cut or zero-pad: `truncate`. */
  function Resized(s: seq<byte>, n: nat): (r: seq<byte>)
    ensures |r| == n
  {
    if n <= |s| then s[..n] else Padded(s, n)
  }

  /** Two overlays of adjacent pieces are one overlay. */
  lemma OverlayTwice(s: seq<byte>, at: nat, a: seq<byte>, b: seq<byte>)
    requires at + |a| + |b| <= |s|
    ensures Patched(Patched(s, at, a), at + |a|, b) == Patched(s, at, a + b)
  {
    var x, y := Patched(Patched(s, at, a), at + |a|, b), Patched(s, at, a + b);
    assert forall k :: 0 <= k < |s| ==> x[k] == y[k];
  }

  /** Overlaying the blocks is splicing the contents when no gap is left. */
  lemma SpliceRaw(raw: seq<byte>, size: nat, more: nat, at: nat, input: seq<byte>)
    requires size <= |raw| && at <= size && at + |input| <= |raw| + more
    ensures Patched(raw + Zeros(more), at, input)[..Max(size, at + |input|)] == Spliced(raw[..size], at, input)
  {
    var x := Patched(raw + Zeros(more), at, input)[..Max(size, at + |input|)];
    var y := Spliced(raw[..size], at, input);
    assert |x| == |y|;
    assert forall k :: 0 <= k < |x| ==> x[k] == y[k];
  }

  /** Zeroing from the end of the contents on is padding. */
  lemma PadRaw(raw: seq<byte>, size: nat, more: nat, n: nat)
    requires size <= |raw| && size <= n <= |raw| + more
    ensures Patched(raw + Zeros(more), size, Zeros(n - size))[..n] == Padded(raw[..size], n)
  {
    var x := Patched(raw + Zeros(more), size, Zeros(n - size))[..n];
    var y := Padded(raw[..size], n);
    assert forall k :: 0 <= k < |x| ==> x[k] == y[k];
  }

  lemma SplicePadded(s: seq<byte>, at: nat, input: seq<byte>)
    requires at > |s|
    ensures Spliced(Padded(s, at), at, input) == Spliced(s, at, input)
  {
    assert Padded(Padded(s, at), at) == Padded(s, at);
  }
}
