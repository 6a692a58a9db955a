/**
  NexFS on-disk records: the superblock, the 256-byte inode and the 256-byte
  directory entry, each guarded by a CRC-32, with the proof that decoding undoes
  encoding.
 */
module NexLayout {
  import opened Bytes
  import opened Slashes

  const BLOCK_SIZE := 4096
  const INODE_SIZE := 256
  const DIR_ENTRY_SIZE := 256
  const DIRECT_BLOCKS := 12
  const INDIRECT_POINTERS := 512
  const MAX_FILE_BLOCKS := 524
  const MAX_NAME_LENGTH := 240
  const MIN_BLOCKS := 32
  const BITS_PER_BLOCK := 32768
  const INODES_PER_BLOCK := 16
  const MAX_INODE_TABLE_BLOCKS := 2048
  const ROOT := 1

  datatype FsError =
    | TooSmall | UnsupportedBlockSize | InvalidMagic | UnsupportedVersion
    | InvalidLayout | ChecksumMismatch | Dirty | NotFound | AlreadyExists
    | NotDirectory | IsDirectory | DirectoryNotEmpty | InvalidName | InvalidPath
    | NoSpace | FileTooLarge | CorruptInode | CorruptDirectory | Busy | Storage

  datatype Result<+T> = Ok(value: T) | Err(error: FsError)

  type Block = s: seq<byte> | |s| == BLOCK_SIZE witness Zeros(BLOCK_SIZE)

  // ---------- names ----------

  /** A path component as the `str` bytes it is made of. */
  type Name = seq<byte>

  predicate Continuation(b: byte) {
    0x80 <= b < 0xc0
  }

  /** Length of the UTF-8 sequence at the front of `s`, or 0 when it is malformed. */
  function CharLength(s: seq<byte>): (n: nat)
    ensures n <= |s|
    ensures n > 1 ==> forall k :: 0 <= k < n ==> s[k] >= 0x80
  {
    if s == [] then 0
    else if s[0] < 0x80 then 1
    else if |s| >= 2 && 0xc2 <= s[0] < 0xe0 && Continuation(s[1]) then 2
    else if |s| >= 3 && 0xe0 <= s[0] < 0xf0 && Continuation(s[1]) && Continuation(s[2])
      && (s[0] == 0xe0 ==> s[1] >= 0xa0) && (s[0] == 0xed ==> s[1] < 0xa0) then 3
    else if |s| >= 4 && 0xf0 <= s[0] < 0xf5 && Continuation(s[1]) && Continuation(s[2])
      && Continuation(s[3]) && (s[0] == 0xf0 ==> s[1] >= 0x90) && (s[0] == 0xf4 ==> s[1] < 0x90) then 4
    else 0
  }

  /** `str::from_utf8` succeeds. */
  predicate Utf8(s: seq<byte>) {
    s == [] || (CharLength(s) > 0 && Utf8(s[CharLength(s)..]))
  }

  predicate ValidName(name: Name) {
    && 0 < |name| <= MAX_NAME_LENGTH
    && name != [DOT] && name != [DOT, DOT]
    && forall k :: 0 <= k < |name| ==> name[k] != SLASH && name[k] != 0
  }

  // ---------- inodes ----------

  datatype FileType = Regular | Directory {
    function Code(): byte {
      if Regular? then 1 else 2
    }
  }

  datatype RawInode = Inode(
    kind: FileType, permissions: u16, size: u64, created: u64, modified: u64,
    direct: seq<u64>, indirect: u64, blockCount: u64, generation: u64)

  type Inode = i: RawInode | |i.direct| == DIRECT_BLOCKS
    witness NewInode(Regular, 0, 0)

  function NewInode(kind: FileType, permissions: u16, timestamp: u64): RawInode {
    RawInode.Inode(kind, permissions, 0, timestamp, timestamp, seq(DIRECT_BLOCKS, _ => 0), 0, 0, timestamp)
  }

  function DataBlocksForSize(size: nat): nat {
    (size + BLOCK_SIZE - 1) / BLOCK_SIZE
  }

  const INODE_MAGIC: seq<byte> := [0x4e, 0x58, 0x49, 0x4e]

  function InodeWords(i: Inode): (ws: seq<u64>)
    ensures |ws| == 18
  {
    [i.size, i.created, i.modified] + i.direct + [i.indirect, i.blockCount, i.generation]
  }

  function InodeHead(i: Inode): (s: seq<byte>)
    ensures |s| == 8
  {
    INODE_MAGIC + [i.kind.Code(), 0] + LittleEndian(i.permissions, 2)
  }

  function InodeBody(i: Inode): (s: seq<byte>)
    ensures |s| == INODE_SIZE - 4
  {
    InodeHead(i) + WordBytes(InodeWords(i)) + Zeros(100)
  }

  /** Appends the checksum that covers `body` with its own four bytes zeroed. */
  function Sealed(body: seq<byte>): (s: seq<byte>)
    ensures |s| == |body| + 4
  {
    body + LittleEndian(Crc32(body + Zeros(4)), 4)
  }

  predicate SealIntact(s: seq<byte>)
    requires |s| >= 4
  {
    Crc32(s[..|s| - 4] + Zeros(4)) == GetU32(s, |s| - 4)
  }

  function EncodeInode(i: Inode): (s: seq<byte>)
    ensures |s| == INODE_SIZE
  {
    Sealed(InodeBody(i))
  }

  function DecodeInode(s: seq<byte>): Result<Inode>
  {
    if |s| < INODE_SIZE || s[0..4] != INODE_MAGIC then Err(CorruptInode)
    else if !SealIntact(s[..INODE_SIZE]) then Err(ChecksumMismatch)
    else if s[4] != 1 && s[4] != 2 then Err(CorruptInode)
    else Ok(RawInode.Inode(
      if s[4] == 1 then Regular else Directory, GetU16(s, 6),
      GetU64(s, 8), GetU64(s, 16), GetU64(s, 24),
      seq(DIRECT_BLOCKS, k requires 0 <= k < DIRECT_BLOCKS => GetU64(s, 32 + 8 * k)),
      GetU64(s, 128), GetU64(s, 136), GetU64(s, 144)))
  }

  lemma {:induction false} SealedIsIntact(body: seq<byte>)
    ensures SealIntact(Sealed(body)) && Sealed(body)[..|body|] == body
  {
    var crc := Crc32(body + Zeros(4));
    assert Sealed(body)[..|body|] == body;
    assert crc < Pow256(4) by { Pow256Values(); }
    StoredInteger(body, crc, 4, []);
    assert Sealed(body) == body + LittleEndian(crc, 4) + [];
  }

  lemma {:induction false} InodeWordReads(i: Inode, k: nat)
    requires k < 18
    ensures GetU64(EncodeInode(i), 8 + 8 * k) == InodeWords(i)[k]
  {
    var crc := LittleEndian(Crc32(InodeBody(i) + Zeros(4)), 4);
    GetStoredWord(InodeHead(i), InodeWords(i), Zeros(100) + crc, k);
    assert EncodeInode(i) == InodeHead(i) + WordBytes(InodeWords(i)) + (Zeros(100) + crc);
  }

  lemma {:induction false} InodePermissionsRead(i: Inode)
    ensures GetU16(EncodeInode(i), 6) == i.permissions
  {
    var pre := INODE_MAGIC + [i.kind.Code(), 0];
    var post := WordBytes(InodeWords(i)) + Zeros(100) + LittleEndian(Crc32(InodeBody(i) + Zeros(4)), 4);
    assert i.permissions < Pow256(2) by { Pow256Values(); }
    StoredInteger(pre, i.permissions, 2, post);
    assert EncodeInode(i) == pre + LittleEndian(i.permissions, 2) + post;
  }

  /** Inodes survive the trip through their 256 bytes. */
  lemma {:induction false} InodeRoundTrip(i: Inode)
    ensures DecodeInode(EncodeInode(i)) == Ok(i)
  {
    var s := EncodeInode(i);
    SealedIsIntact(InodeBody(i));
    assert s[..INODE_SIZE] == s;
    assert s[0..4] == INODE_MAGIC && s[4] == i.kind.Code();
    InodePermissionsRead(i);
    forall k: nat | k < 18 ensures GetU64(s, 8 + 8 * k) == InodeWords(i)[k] {
      InodeWordReads(i, k);
    }
    InodeRoundTripWords(i, s);
  }

  lemma {:induction false} InodeRoundTripWords(i: Inode, s: seq<byte>)
    requires |s| == INODE_SIZE
    requires forall k: nat :: k < 18 ==> GetU64(s, 8 + 8 * k) == InodeWords(i)[k]
    ensures GetU64(s, 8) == i.size && GetU64(s, 16) == i.created && GetU64(s, 24) == i.modified
    ensures GetU64(s, 128) == i.indirect && GetU64(s, 136) == i.blockCount && GetU64(s, 144) == i.generation
    ensures seq(DIRECT_BLOCKS, k requires 0 <= k < DIRECT_BLOCKS => GetU64(s, 32 + 8 * k)) == i.direct
  {
    var ws := InodeWords(i);
    assert GetU64(s, 8 + 8 * 0) == ws[0] && GetU64(s, 8 + 8 * 1) == ws[1] && GetU64(s, 8 + 8 * 2) == ws[2];
    assert GetU64(s, 8 + 8 * 15) == ws[15] && GetU64(s, 8 + 8 * 16) == ws[16] && GetU64(s, 8 + 8 * 17) == ws[17];
    var direct := seq(DIRECT_BLOCKS, k requires 0 <= k < DIRECT_BLOCKS => GetU64(s, 32 + 8 * k));
    forall k | 0 <= k < DIRECT_BLOCKS ensures direct[k] == i.direct[k] {
      assert GetU64(s, 8 + 8 * (3 + k)) == ws[3 + k];
    }
  }

  /** A zeroed inode slot (`clear_inode`) never decodes. */
  lemma ClearedInodeIsCorrupt()
    ensures DecodeInode(Zeros(INODE_SIZE)) == Err(CorruptInode)
  {
    assert Zeros(INODE_SIZE)[0..4][0] == 0;
  }

  // ---------- directory entries ----------

  datatype DirEntry = DirEntry(inode: u64, kind: FileType, name: Name)

  /** Entries as `DirectoryEntry::new` and `decode` admit them. */
  predicate ValidEntry(e: DirEntry) {
    e.inode != 0 && ValidName(e.name) && Utf8(e.name)
  }

  function EntryBody(e: DirEntry): (s: seq<byte>)
    requires ValidName(e.name)
    ensures |s| == DIR_ENTRY_SIZE - 4
  {
    LittleEndian(e.inode, 8) + [e.kind.Code(), |e.name|, 0, 0] + e.name + Zeros(MAX_NAME_LENGTH - |e.name|)
  }

  function EncodeEntry(e: DirEntry): (s: seq<byte>)
    requires ValidName(e.name)
    ensures |s| == DIR_ENTRY_SIZE
  {
    Sealed(EntryBody(e))
  }

  function DecodeEntry(s: seq<byte>): (r: Result<DirEntry>)
    ensures r.Ok? ==> ValidEntry(r.value)
  {
    if |s| < DIR_ENTRY_SIZE then Err(CorruptDirectory)
    else if !SealIntact(s[..DIR_ENTRY_SIZE]) then Err(ChecksumMismatch)
    else if GetU64(s, 0) == 0 then Err(CorruptDirectory)
    else if s[9] == 0 || s[9] > MAX_NAME_LENGTH then Err(InvalidName)
    else
      var name := s[12..12 + s[9]];
      if !Utf8(name) || !ValidName(name) then Err(InvalidName)
      else if s[8] != 1 && s[8] != 2 then Err(CorruptDirectory)
      else Ok(DirEntry(GetU64(s, 0), if s[8] == 1 then Regular else Directory, name))
  }

  lemma {:induction false} EntryFields(e: DirEntry)
    requires ValidName(e.name)
    ensures var s := EncodeEntry(e);
      GetU64(s, 0) == e.inode && s[8] == e.kind.Code() && s[9] == |e.name| && s[12..12 + |e.name|] == e.name
  {
    hide Crc32, ValidName;
    var s := EncodeEntry(e);
    var post := s[8..];
    assert s[..8] == LittleEndian(e.inode, 8);
    assert e.inode < Pow256(8) by { Pow256Values(); }
    assert s == [] + LittleEndian(e.inode, 8) + post;
    StoredInteger([], e.inode, 8, post);
  }

  lemma {:induction false} EntryRoundTrip(e: DirEntry)
    requires ValidEntry(e)
    ensures DecodeEntry(EncodeEntry(e)) == Ok(e)
  {
    hide Crc32, Sealed, SealIntact, Utf8, EntryBody, GetU64;
    var s := EncodeEntry(e);
    SealedIsIntact(EntryBody(e));
    assert s[..DIR_ENTRY_SIZE] == s;
    EntryFields(e);
  }

  // ---------- the superblock ----------

  const MAGIC: seq<byte> := [0x4e, 0x45, 0x58, 0x46, 0x53, 1, 0, 0]
  const VERSION: u32 := 1

  datatype RawSuperblock = Superblock(
    version: u32, blockSize: u32, totalBlocks: u64, inodeBitmapBlock: u64, blockBitmapBlock: u64,
    inodeTableBlock: u64, dataStartBlock: u64, rootInode: u64, flags: u32, generation: u64, uuid: seq<byte>)
  {
    predicate IsClean() {
      flags % 2 == 1
    }

    function BitmapBlocks(): nat {
      (totalBlocks + BITS_PER_BLOCK - 1) / BITS_PER_BLOCK
    }

    /** `Superblock::validate`. */
    function Validate(): Result<()> {
      if version != VERSION then Err(UnsupportedVersion)
      else if blockSize != BLOCK_SIZE then Err(UnsupportedBlockSize)
      else if dataStartBlock < inodeTableBlock then Err(InvalidLayout)
      else if totalBlocks < MIN_BLOCKS || inodeBitmapBlock != 2 || blockBitmapBlock != 3
        || inodeTableBlock != blockBitmapBlock + BitmapBlocks()
        || dataStartBlock == inodeTableBlock
        || dataStartBlock - inodeTableBlock > MAX_INODE_TABLE_BLOCKS
        || dataStartBlock >= totalBlocks || rootInode != ROOT then Err(InvalidLayout)
      else Ok(())
    }

    function InodeCount(): nat
      requires Validate().Ok?
    {
      (dataStartBlock - inodeTableBlock) * INODES_PER_BLOCK
    }
  }

  type Superblock = s: RawSuperblock | |s.uuid| == 16
    witness RawSuperblock.Superblock(0, 0, 0, 0, 0, 0, 0, 0, 0, 0, Zeros(16))

  function GeometryWords(sb: Superblock): (ws: seq<u64>)
    ensures |ws| == 6
  {
    [sb.totalBlocks, sb.inodeBitmapBlock, sb.blockBitmapBlock, sb.inodeTableBlock, sb.dataStartBlock, sb.rootInode]
  }

  function SuperblockBody(sb: Superblock): (s: seq<byte>)
    ensures |s| == 96
  {
    MAGIC + LittleEndian(sb.version, 4) + LittleEndian(sb.blockSize, 4) + WordBytes(GeometryWords(sb))
    + LittleEndian(sb.flags, 4) + Zeros(4) + LittleEndian(sb.generation, 8) + sb.uuid
  }

  function EncodeSuperblock(sb: Superblock): (s: Block) {
    Sealed(SuperblockBody(sb)) + Zeros(BLOCK_SIZE - 100)
  }

  function DecodeSuperblock(s: Block): (r: Result<Superblock>)
    ensures r.Ok? ==> r.value.Validate().Ok?
  {
    if s[0..8] != MAGIC then Err(InvalidMagic)
    else if !SealIntact(s[..100]) then Err(ChecksumMismatch)
    else
      var sb := RawSuperblock.Superblock(
        GetU32(s, 8), GetU32(s, 12), GetU64(s, 16), GetU64(s, 24), GetU64(s, 32), GetU64(s, 40),
        GetU64(s, 48), GetU64(s, 56), GetU32(s, 64), GetU64(s, 72), s[80..96]);
      match sb.Validate()
      case Ok(_) => Ok(sb)
      case Err(e) => Err(e)
  }

  lemma {:induction false} SuperblockIntegers(sb: Superblock)
    ensures var s := EncodeSuperblock(sb);
      GetU32(s, 8) == sb.version && GetU32(s, 12) == sb.blockSize && GetU32(s, 64) == sb.flags
      && GetU64(s, 72) == sb.generation
  {
    hide LittleEndian, FromLittleEndian, Pow256;
    var s := EncodeSuperblock(sb);
    Pow256Values();
    assert s[8..12] == LittleEndian(sb.version, 4);
    LittleEndianRoundTrip(sb.version, 4);
    assert s[12..16] == LittleEndian(sb.blockSize, 4);
    LittleEndianRoundTrip(sb.blockSize, 4);
    assert s[64..68] == LittleEndian(sb.flags, 4);
    LittleEndianRoundTrip(sb.flags, 4);
    assert s[72..80] == LittleEndian(sb.generation, 8);
    LittleEndianRoundTrip(sb.generation, 8);
  }

  lemma {:induction false} SuperblockWords(sb: Superblock, k: nat)
    requires k < 6
    ensures GetU64(EncodeSuperblock(sb), 16 + 8 * k) == GeometryWords(sb)[k]
  {
    var s := EncodeSuperblock(sb);
    GetStoredWord(s[..16], GeometryWords(sb), s[64..], k);
    assert s == s[..16] + WordBytes(GeometryWords(sb)) + s[64..];
  }

  /** A valid superblock survives the trip through block 1. */
  lemma {:induction false} SuperblockRoundTrip(sb: Superblock)
    requires sb.Validate().Ok?
    ensures DecodeSuperblock(EncodeSuperblock(sb)) == Ok(sb)
  {
    var s := EncodeSuperblock(sb);
    SealedIsIntact(SuperblockBody(sb));
    assert s[..100] == Sealed(SuperblockBody(sb));
    assert s[0..8] == MAGIC;
    assert s[80..96] == sb.uuid;
    SuperblockIntegers(sb);
    SuperblockWords(sb, 0);
    SuperblockWords(sb, 1);
    SuperblockWords(sb, 2);
    SuperblockWords(sb, 3);
    SuperblockWords(sb, 4);
    SuperblockWords(sb, 5);
  }
}
