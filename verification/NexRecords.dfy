/**
  The records of NexFS, field by field at their offsets, as another implementation
  would read them.
 */
module NexRecords {
  import opened Bytes
  import opened NexLayout

  function KindByte(kind: FileType): byte {
    if kind == Regular then 1 else 2
  }

  /** The last four bytes are the checksum of the record with those bytes zero. */
  predicate Checked(s: seq<byte>, n: nat) {
    4 <= n <= |s| && GetU32(s, n - 4) == Crc32(s[..n - 4] + [0, 0, 0, 0])
  }

  lemma {:induction false} SealChecks(body: seq<byte>, rest: seq<byte>)
    ensures Checked(Sealed(body) + rest, |body| + 4)
  {
    hide Crc32, GetU32, LittleEndian;
    SealedIsIntact(body);
    var s, n := Sealed(body), |body|;
    assert (s + rest)[..n] == body && (s + rest)[n..n + 4] == s[n..n + 4];
    assert Zeros(4) == [0, 0, 0, 0];
    SameWord(s + rest, s, n);
  }

  lemma SameWord(a: seq<byte>, b: seq<byte>, at: nat)
    requires at + 4 <= |a| && at + 4 <= |b| && a[at..at + 4] == b[at..at + 4]
    ensures GetU32(a, at) == GetU32(b, at)
  {
  }

  /** An inode: "NXIN", kind, permissions, size, times, twelve pointers, table, blocks, generation, checksum at 252. */
  lemma {:induction false} InodeRecord(i: Inode)
    ensures var s := EncodeInode(i);
      && |s| == 256 && s[0..4] == [0x4e, 0x58, 0x49, 0x4e] && s[4] == KindByte(i.kind) && GetU16(s, 6) == i.permissions
      && GetU64(s, 8) == i.size && GetU64(s, 16) == i.created && GetU64(s, 24) == i.modified
      && (forall k :: 0 <= k < 12 ==> GetU64(s, 32 + 8 * k) == i.direct[k])
      && GetU64(s, 128) == i.indirect && GetU64(s, 136) == i.blockCount && GetU64(s, 144) == i.generation
      && Checked(s, 256)
  {
    hide Crc32, GetU64, GetU16, WordBytes, LittleEndian, Checked;
    var s := EncodeInode(i);
    InodePermissionsRead(i);
    forall k: nat | k < 18 ensures GetU64(s, 8 + 8 * k) == InodeWords(i)[k] {
      InodeWordReads(i, k);
    }
    InodeRoundTripWords(i, s);
    var direct := seq(DIRECT_BLOCKS, k requires 0 <= k < DIRECT_BLOCKS => GetU64(s, 32 + 8 * k));
    assert forall k :: 0 <= k < 12 ==> direct[k] == i.direct[k];
    SealChecks(InodeBody(i), []);
    assert s + [] == s;
  }

  /** A directory entry: inode, kind, length and bytes of the name, checksum at 252. */
  lemma {:induction false} EntryRecord(e: DirEntry)
    requires ValidName(e.name)
    ensures var s := EncodeEntry(e);
      && |s| == 256 && GetU64(s, 0) == e.inode && s[8] == KindByte(e.kind) && s[9] == |e.name|
      && s[12..12 + |e.name|] == e.name && (forall k :: 12 + |e.name| <= k < 252 ==> s[k] == 0) && Checked(s, 256)
  {
    hide Crc32, GetU64, LittleEndian, Checked, ValidName;
    var s := EncodeEntry(e);
    EntryFields(e);
    SealChecks(EntryBody(e), []);
    assert s + [] == s;
  }

  /** The superblock: "NEXFS", version, sizes, places, flags, generation, identifier, checksum at 96. */
  lemma {:induction false} SuperblockRecord(sb: Superblock)
    ensures var s := EncodeSuperblock(sb);
      && s[0..8] == [0x4e, 0x45, 0x58, 0x46, 0x53, 1, 0, 0] && GetU32(s, 8) == sb.version && GetU32(s, 12) == sb.blockSize
      && GetU64(s, 16) == sb.totalBlocks && GetU64(s, 24) == sb.inodeBitmapBlock && GetU64(s, 32) == sb.blockBitmapBlock
      && GetU64(s, 40) == sb.inodeTableBlock && GetU64(s, 48) == sb.dataStartBlock && GetU64(s, 56) == sb.rootInode
      && GetU32(s, 64) == sb.flags && GetU64(s, 72) == sb.generation && s[80..96] == sb.uuid && Checked(s, 100)
  {
    hide Crc32, GetU64, GetU32, LittleEndian, WordBytes, Checked;
    var s := EncodeSuperblock(sb);
    SuperblockIntegers(sb);
    SuperblockWords(sb, 0);
    SuperblockWords(sb, 1);
    SuperblockWords(sb, 2);
    SuperblockWords(sb, 3);
    SuperblockWords(sb, 4);
    SuperblockWords(sb, 5);
    SealChecks(SuperblockBody(sb), Zeros(BLOCK_SIZE - 100));
  }
}
