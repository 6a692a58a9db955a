/**
  Reading back what was written: every accepted layout returns as the same table,
  exactly unless a partition has no unique identifier, and no partition's bytes move.
 */
module DiskRoundTrip {
  import opened Bytes
  import opened GptName
  import opened Partitions
  import opened DiskLayout

  lemma PatchedReads(t: seq<byte>, at: nat, b: seq<byte>, lo: nat, hi: nat)
    requires at + |b| <= |t| && lo <= hi <= |t|
    ensures hi <= at || at + |b| <= lo ==> Patched(t, at, b)[lo..hi] == t[lo..hi]
    ensures at == lo && at + |b| == hi ==> Patched(t, at, b)[lo..hi] == b
  {
  }

  lemma {:induction false} ReadU32(s: seq<byte>, at: nat, v: u32)
    requires at + 4 <= |s| && s[at..at + 4] == LittleEndian(v, 4)
    ensures GetU32(s, at) == v
  {
    Pow256Values();
    LittleEndianRoundTrip(v, 4);
  }

  lemma {:induction false} ReadU64(s: seq<byte>, at: nat, v: u64)
    requires at + 8 <= |s| && s[at..at + 8] == LittleEndian(v, 8)
    ensures GetU64(s, at) == v
  {
    Pow256Values();
    LittleEndianRoundTrip(v, 8);
  }

  // ---------- MBR ----------

  function Slot(p: Plan): MbrPartition
    requires Fits32(p)
  {
    MbrPartition(p.bootable, p.role.MbrType(), p.first, p.count)
  }

  lemma {:induction false} MbrEntryRead(p: Plan)
    requires Fits32(p) && p.count > 0
    ensures MbrEntry(MbrEntryBytes(p)) == Ok(Some(Slot(p)))
  {
    hide LittleEndian, GetU32;
    var e := MbrEntryBytes(p);
    assert e[8..12] == LittleEndian(p.first, 4) && e[12..16] == LittleEndian(p.count, 4);
    ReadU32(e, 8, p.first);
    ReadU32(e, 12, p.count);
  }

  lemma {:induction false} ZeroRead(n: nat)
    ensures FromLittleEndian(Zeros(n)) == 0 && LittleEndian(0, n) == Zeros(n)
  {
    if n > 0 {
      ZeroRead(n - 1);
      assert Zeros(n)[1..] == Zeros(n - 1);
      assert [0] + Zeros(n - 1) == Zeros(n);
    }
  }

  lemma ZeroEntryRead()
    ensures MbrEntry(Zeros(16)) == Ok(None)
  {
    ZeroRead(4);
    assert Zeros(16)[12..16] == Zeros(4);
  }

  lemma {:induction false} RowBytesAt(ps: seq<Plan>, i: nat)
    requires i < |ps|
    ensures MbrRowBytes(ps)[16 * i..16 * i + 16] == MbrEntryBytes(ps[i])
  {
    hide MbrEntryBytes;
    if i < |ps| - 1 {
      RowBytesAt(ps[..|ps| - 1], i);
      assert MbrRowBytes(ps)[16 * i..16 * i + 16] == MbrRowBytes(ps[..|ps| - 1])[16 * i..16 * i + 16];
    }
  }

  lemma {:induction false} BootSlot(ps: seq<Plan>, last: seq<byte>, i: nat)
    requires |ps| <= 4 && |last| == 2 && i < 4
    ensures MbrSlot(BootSector(ps, last), i) == if i < |ps| then MbrEntryBytes(ps[i]) else Zeros(16)
  {
    hide MbrEntryBytes, MbrRowBytes;
    if i < |ps| {
      RowBytesAt(ps, i);
      SliceOfMiddle(Zeros(446), MbrRowBytes(ps), Zeros(64 - 16 * |ps|) + last, 16 * i, 16 * i + 16);
      assert BootSector(ps, last) == Zeros(446) + MbrRowBytes(ps) + (Zeros(64 - 16 * |ps|) + last);
    }
  }

  predicate Writable(ps: seq<Plan>) {
    |ps| <= 4 && AllFit(ps) && forall i :: 0 <= i < |ps| ==> ps[i].count > 0
  }

  function Slots(ps: seq<Plan>, k: nat): (r: seq<Option<MbrPartition>>)
    requires AllFit(ps)
    ensures |r| == k
  {
    if k == 0 then [] else Slots(ps, k - 1) + [if k <= |ps| then Some(Slot(ps[k - 1])) else None]
  }

  lemma {:induction false} SlotsAt(ps: seq<Plan>, k: nat, i: nat)
    requires AllFit(ps) && i < k
    ensures Slots(ps, k)[i] == if i < |ps| then Some(Slot(ps[i])) else None
  {
    if i < k - 1 {
      SlotsAt(ps, k - 1, i);
    }
  }

  lemma {:induction false} SlotsRead(ps: seq<Plan>, k: nat)
    requires Writable(ps) && k <= 4
    ensures MbrEntries(BootSector(ps, MBR_SIGNATURE), k) == Ok(Slots(ps, k))
  {
    hide MbrEntryBytes, MbrEntry, BootSector;
    if k > 0 {
      SlotsRead(ps, k - 1);
      BootSlot(ps, MBR_SIGNATURE, k - 1);
      ZeroEntryRead();
      if k <= |ps| {
        MbrEntryRead(ps[k - 1]);
      }
    }
  }

  /** What a table should say of a partition in slot `index`. */
  function Row(kind: TableKind, p: Plan, index: nat, name: string): Partition {
    if kind == Mbr then Partition(index, p.first, p.count, p.bootable, Some(p.role.MbrType()), None, None, 0, "")
    else Partition(index, p.first, p.count, false, None, Some(p.role.TypeGuid()), Some(p.unique), 0, name)
  }

  /** The rows of the first `k` partitions, with the names as their fields show them. */
  function Rows(kind: TableKind, ps: seq<Plan>, k: nat): (r: seq<Partition>)
    requires k <= |ps|
    ensures |r| == k
  {
    if k == 0 then [] else Rows(kind, ps, k - 1) + [Row(kind, ps[k - 1], k, Shown(Kept(ps[k - 1].name)))]
  }

  lemma {:induction false} RowsAt(kind: TableKind, ps: seq<Plan>, k: nat, i: nat)
    requires i < k <= |ps|
    ensures Rows(kind, ps, k)[i] == Row(kind, ps[i], i + 1, Shown(Kept(ps[i].name)))
  {
    if i < k - 1 {
      RowsAt(kind, ps, k - 1, i);
    }
  }

  lemma {:induction false} RowsDisjoint(l: Layout)
    requires ValidLayout(l)
    ensures Disjoint(Rows(l.kind, l.partitions, |l.partitions|))
  {
    hide Usable, Rows, Shown;
    var ps, rs := l.partitions, Rows(l.kind, l.partitions, |l.partitions|);
    forall i, j | 0 <= i < j < |rs| ensures Apart(rs[i], rs[j]) {
      RowsAt(l.kind, ps, |ps|, i);
      RowsAt(l.kind, ps, |ps|, j);
      assert Clear(ps[i], ps[j]);
    }
  }

  lemma {:induction false} MbrRowsRead(ps: seq<Plan>, sectors: nat, n: nat, k: nat)
    requires Writable(ps) && k <= n
    requires forall i :: 0 <= i < |ps| ==> InDisk(ps[i].first, ps[i].count, sectors)
    ensures MbrRows(Slots(ps, n), sectors, k) == Ok(Rows(Mbr, ps, Min(k, |ps|)))
  {
    hide Slots, Shown, Kept;
    if k > 0 {
      MbrRowsRead(ps, sectors, n, k - 1);
      SlotsAt(ps, n, k - 1);
    }
  }

  lemma {:induction false} MbrReadBack(t: seq<byte>, l: Layout)
    requires |t| / SECTOR == l.total && ValidLayout(l) && l.kind == Mbr && AllFit(l.partitions)
    ensures TableOf(Laid(t, l), SECTOR) == Ok(Table(Mbr, None, Rows(Mbr, l.partitions, |l.partitions|)))
  {
    hide BootSector, Patched, Slots, MbrEntries, MbrRows, Rows, Disjoint;
    var ps, image := l.partitions, Laid(t, l);
    var boot := BootSector(ps, MBR_SIGNATURE);
    PatchedReads(t, 0, boot, 0, SECTOR);
    assert Writable(ps) by { assert forall i :: 0 <= i < |ps| ==> Usable(l, ps[i]); }
    SlotsRead(ps, 4);
    SignedBoot(ps);
    assert MbrOf(boot) == Ok(Slots(ps, 4));
    NotProtective(ps);
    InsideDisk(l);
    MbrRowsRead(ps, l.total, 4, 4);
    RowsDisjoint(l);
  }

  lemma SignedBoot(ps: seq<Plan>)
    requires |ps| <= 4
    ensures Signed(BootSector(ps, MBR_SIGNATURE)) && !Signed(BootSector(ps, Zeros(2)))
  {
    hide MbrRowBytes;
    var a, b := BootSector(ps, MBR_SIGNATURE), BootSector(ps, Zeros(2));
    assert a[510..512] == MBR_SIGNATURE && b[510..512] == Zeros(2);
    assert Zeros(2)[0] != MBR_SIGNATURE[0];
  }

  lemma {:induction false} NotProtective(ps: seq<Plan>)
    requires AllFit(ps)
    ensures !Protective(Slots(ps, 4))
  {
    hide Slots;
    forall i | 0 <= i < 4 ensures Slots(ps, 4)[i].Some? ==> Slots(ps, 4)[i].value.kind != PROTECTIVE {
      SlotsAt(ps, 4, i);
    }
  }

  lemma InsideDisk(l: Layout)
    requires ValidLayout(l)
    ensures forall i :: 0 <= i < |l.partitions| ==> InDisk(l.partitions[i].first, l.partitions[i].count, l.total)
  {
    hide Clear;
    forall i | 0 <= i < |l.partitions| ensures InDisk(l.partitions[i].first, l.partitions[i].count, l.total) {
      assert Usable(l, l.partitions[i]);
    }
  }

  /** When a partition of an MBR layout does not fit, the old table is gone and no table can be read. */
  lemma {:induction false} UnfinishedUnreadable(t: seq<byte>, ps: seq<Plan>, k: nat)
    requires k <= |ps| <= 4 && |t| >= SECTOR
    ensures TableOf(Unfinished(t, ps, k), SECTOR) == Err(InvalidMbr)
    ensures Unfinished(t, ps, k)[SECTOR..] == t[SECTOR..]
  {
    hide BootSector, MbrEntries;
    var boot := BootSector(ps[..k], Zeros(2));
    SignedBoot(ps[..k]);
    PatchedReads(t, 0, boot, 0, SECTOR);
    PatchedReads(t, 0, boot, SECTOR, |t|);
  }

  // ---------- GPT ----------

  lemma {:induction false} ProtectiveRead(total: nat)
    requires total > 1
    ensures MbrOf(ProtectiveSector(total)).Ok? && Protective(MbrOf(ProtectiveSector(total)).value)
  {
    hide LittleEndian, GetU32, MbrEntry;
    var s := ProtectiveSector(total);
    var count := Min(total - 1, 0xffff_ffff);
    assert s[510..512] == MBR_SIGNATURE;
    var core := [PROTECTIVE, 0, 0, 0] + LittleEndian(1, 4) + LittleEndian(count, 4);
    assert s == Zeros(450) + core + (Zeros(48) + MBR_SIGNATURE);
    SliceOfMiddle(Zeros(450), core, Zeros(48) + MBR_SIGNATURE, 0, 12);
    var e := MbrSlot(s, 0);
    assert e == s[446..450] + s[450..462];
    assert s[446..450] == Zeros(4) && s[450..462] == core;
    assert e == Zeros(4) + [PROTECTIVE, 0, 0, 0] + LittleEndian(1, 4) + LittleEndian(count, 4);
    ProtectiveEntry(e, count);
    ZeroEntryRead();
    assert MbrSlot(s, 1) == Zeros(16) && MbrSlot(s, 2) == Zeros(16) && MbrSlot(s, 3) == Zeros(16);
    var p := Some(MbrPartition(false, PROTECTIVE, 1, count));
    assert [] + [p] == [p] && [p] + [None] == [p, None] && [p, None] + [None] == [p, None, None];
    MbrStep(s, 0, [], p);
    MbrStep(s, 1, [p], None);
    MbrStep(s, 2, [p, None], None);
    MbrStep(s, 3, [p, None, None], None);
    assert MbrOf(s).value[0] == p;
  }

  lemma {:induction false} MbrStep(sector: seq<byte>, k: nat, es: seq<Option<MbrPartition>>, x: Option<MbrPartition>)
    requires |sector| >= 512 && k < 4 && MbrEntries(sector, k) == Ok(es) && MbrEntry(MbrSlot(sector, k)) == Ok(x)
    ensures MbrEntries(sector, k + 1) == Ok(es + [x])
  {
  }

  lemma {:induction false} ProtectiveEntry(e: seq<byte>, count: u32)
    requires count > 0 && e == Zeros(4) + [PROTECTIVE, 0, 0, 0] + LittleEndian(1, 4) + LittleEndian(count, 4)
    ensures |e| == 16 && MbrEntry(e) == Ok(Some(MbrPartition(false, PROTECTIVE, 1, count)))
  {
    hide LittleEndian, GetU32;
    assert e[8..12] == LittleEndian(1, 4) && e[12..16] == LittleEndian(count, 4);
    ReadU32(e, 8, 1);
    ReadU32(e, 12, count);
  }

  lemma {:induction false} HeaderStartRead(seal: seq<byte>, rest: seq<byte>)
    requires |seal| == 4
    ensures var s := HeaderStart(seal) + rest;
            s[0..8] == GPT_SIGNATURE && GetU32(s, 8) == 0x1_0000 && GetU32(s, 12) == HEADER_BYTES && s[16..20] == seal
  {
    hide LittleEndian, GetU32;
    var s := HeaderStart(seal) + rest;
    assert s[0..8] == GPT_SIGNATURE;
    assert s[8..12] == LittleEndian(0x1_0000, 4);
    assert s[12..16] == LittleEndian(HEADER_BYTES, 4);
    assert s[16..20] == seal;
    ReadU32(s, 8, 0x1_0000);
    ReadU32(s, 12, HEADER_BYTES);
  }

  lemma Slices(a: seq<byte>, b: seq<byte>, c: seq<byte>, d: seq<byte>, e: seq<byte>)
    requires |a| == 16 && |b| == 8 && |c| == |d| == |e| == 4
    ensures var s := a + b + c + d + e;
            s[0..16] == a && s[16..24] == b && s[24..28] == c && s[28..32] == d && s[32..36] == e
  {
    var ab, abc, abcd := a + b, a + b + c, a + b + c + d;
    assert ab[0..16] == a && ab[16..24] == b;
    assert abc[0..24] == ab && abcd[0..28] == abc;
  }

  lemma {:induction false} HeaderEndRead(pre: seq<byte>, disk: Guid, lba: u64, crc: u32, post: seq<byte>)
    requires |pre| == 56
    ensures var s := pre + HeaderEnd(disk, lba, crc) + post;
            && s[56..72] == disk && GetU64(s, 72) == lba && GetU32(s, 80) == GPT_ENTRIES
            && GetU32(s, 84) == ENTRY_BYTES && GetU32(s, 88) == crc
  {
    hide LittleEndian, GetU32, GetU64;
    var e := HeaderEnd(disk, lba, crc);
    var s := pre + e + post;
    Slices(disk, LittleEndian(lba, 8), LittleEndian(GPT_ENTRIES, 4), LittleEndian(ENTRY_BYTES, 4), LittleEndian(crc, 4));
    SliceOfMiddle(pre, e, post, 0, 16);
    SliceOfMiddle(pre, e, post, 16, 24);
    SliceOfMiddle(pre, e, post, 24, 28);
    SliceOfMiddle(pre, e, post, 28, 32);
    SliceOfMiddle(pre, e, post, 32, 36);
    ReadU64(s, 72, lba);
    ReadU32(s, 80, GPT_ENTRIES);
    ReadU32(s, 84, ENTRY_BYTES);
    ReadU32(s, 88, crc);
  }

  function Fields(words: seq<u64>, disk: Guid, lba: u64, crc: u32): GptHeader
    requires |words| == 4
  {
    GptHeader(words[0], words[1], words[2], words[3], disk, lba, GPT_ENTRIES, ENTRY_BYTES, crc)
  }

  lemma {:induction false} RawHeaderRead(seal: seq<byte>, words: seq<u64>, disk: Guid, lba: u64, crc: u32, post: seq<byte>)
    requires |seal| == 4 && |words| == 4
    ensures var s := HeaderWith(seal, words, HeaderEnd(disk, lba, crc)) + post;
            && s[0..8] == GPT_SIGNATURE && GetU32(s, 8) == 0x1_0000 && GetU32(s, 12) == HEADER_BYTES && s[16..20] == seal
            && RawHeader(s) == Fields(words, disk, lba, crc)
  {
    hide LittleEndian, GetU32, GetU64, HeaderStart, HeaderEnd, WordBytes;
    var a, w, e := HeaderStart(seal), WordBytes(words), HeaderEnd(disk, lba, crc);
    var s := HeaderWith(seal, words, e) + post;
    assert s == a + (w + e + post) && s == a + w + (e + post) && s == (a + w) + e + post;
    HeaderStartRead(seal, w + e + post);
    GetStoredWord(a, words, e + post, 0);
    GetStoredWord(a, words, e + post, 1);
    GetStoredWord(a, words, e + post, 2);
    GetStoredWord(a, words, e + post, 3);
    HeaderEndRead(a + w, disk, lba, crc, post);
  }

  lemma {:induction false} Unseals(seal: seq<byte>, words: seq<u64>, end: seq<byte>)
    requires |seal| == 4 && |words| == 4 && |end| == 36
    ensures Unsealed(HeaderWith(seal, words, end)) == HeaderWith(Zeros(4), words, end)
  {
    hide LittleEndian, WordBytes;
    var rest := Zeros(4) + WordBytes(words) + end;
    var front := GPT_SIGNATURE + LittleEndian(0x1_0000, 4) + LittleEndian(HEADER_BYTES, 4);
    assert HeaderWith(seal, words, end) == front + seal + rest;
    assert HeaderWith(Zeros(4), words, end) == front + Zeros(4) + rest;
    assert |front| == 16;
  }

  /** A header reads back as its fields, its checksum included. */
  lemma {:induction false} HeaderReadBack(words: seq<u64>, disk: Guid, lba: u64, crc: u32)
    requires |words| == 4 && words[0] != words[1] && words[2] <= words[3]
    ensures HeaderOf(HeaderSector(words, disk, lba, crc)) == Ok(Fields(words, disk, lba, crc))
  {
    hide LittleEndian, GetU32, GetU64, HeaderWith, HeaderEnd, Crc32, RawHeader, Unsealed;
    var s, end := HeaderSector(words, disk, lba, crc), HeaderEnd(disk, lba, crc);
    var sum := Crc32(HeaderWith(Zeros(4), words, end));
    var seal := LittleEndian(sum, 4);
    RawHeaderRead(seal, words, disk, lba, crc, Zeros(SECTOR - HEADER_BYTES));
    assert s == HeaderWith(seal, words, end) + Zeros(SECTOR - HEADER_BYTES);
    assert s[..HEADER_BYTES] == HeaderWith(seal, words, end);
    Unseals(seal, words, end);
    ReadU32(s, 16, sum);
  }

  lemma {:induction false} EntryRead(h: GptHeader, p: Plan, index: nat)
    requires p.count > 0 && h.firstUsable <= p.first && p.first + p.count - 1 <= h.lastUsable
    ensures GptEntry(h, EntryBytes(p), index) ==
            if ZeroGuid(p.unique) then Err(InvalidGpt) else Ok(Some(Row(Gpt, p, index, Shown(Kept(p.name)))))
  {
    hide LittleEndian, GetU64, NameBytes, Shown, UnitsOf, Role.TypeGuid;
    var e := EntryBytes(p);
    assert e[0..16] == p.role.TypeGuid() && e[16..32] == p.unique;
    assert e[32..40] == LittleEndian(p.first, 8) && e[40..48] == LittleEndian(Last(p), 8);
    assert e[48..56] == Zeros(8) && e[56..128] == NameBytes(p.name);
    ZeroRead(8);
    ReadU64(e, 32, p.first);
    ReadU64(e, 40, Last(p));
    ReadU64(e, 48, 0);
    NameRead(p.name);
    TypesNonzero(p.role);
  }

  lemma TypesNonzero(role: Role)
    ensures !ZeroGuid(role.TypeGuid())
  {
    assert role.TypeGuid()[0] != 0;
  }

  lemma BlankEntryRead(h: GptHeader, index: nat)
    ensures GptEntry(h, Zeros(ENTRY_BYTES), index) == Ok(None)
  {
    hide GetU64, Shown, UnitsOf;
    assert Zeros(ENTRY_BYTES)[0..16] == Zeros(16);
  }

  lemma {:induction false} EntryRowsAt(ps: seq<Plan>, i: nat)
    requires i < |ps|
    ensures EntryRowBytes(ps)[ENTRY_BYTES * i..ENTRY_BYTES * i + ENTRY_BYTES] == EntryBytes(ps[i])
  {
    hide EntryBytes;
    if i < |ps| - 1 {
      var s := EntryRowBytes(ps[..|ps| - 1]);
      EntryRowsAt(ps[..|ps| - 1], i);
      SliceOfMiddle([], s, EntryBytes(ps[|ps| - 1]), ENTRY_BYTES * i, ENTRY_BYTES * i + ENTRY_BYTES);
      assert [] + s + EntryBytes(ps[|ps| - 1]) == EntryRowBytes(ps);
    }
  }

  lemma {:induction false} ArrayChunk(ps: seq<Plan>, i: nat)
    requires |ps| <= GPT_ENTRIES && i < GPT_ENTRIES
    ensures Chunk(EntryArray(ps), ENTRY_BYTES, i) == if i < |ps| then EntryBytes(ps[i]) else Zeros(ENTRY_BYTES)
  {
    hide EntryBytes, EntryRowBytes;
    if i < |ps| {
      EntryRowsAt(ps, i);
    }
  }

  predicate Named(ps: seq<Plan>, k: nat)
    requires k <= |ps|
  {
    forall i :: 0 <= i < k ==> !ZeroGuid(ps[i].unique)
  }

  lemma {:induction false} GptRowsRead(h: GptHeader, l: Layout, k: nat)
    requires ValidLayout(l) && l.kind == Gpt && k <= GPT_ENTRIES && h.entrySize == ENTRY_BYTES
    requires h.firstUsable == FIRST_USABLE && h.lastUsable == l.total - FIRST_USABLE
    ensures Holds(EntryArray(l.partitions), ENTRY_BYTES, k)
    ensures var ps := l.partitions; var n := Min(k, |ps|);
            GptRows(h, EntryArray(ps), k) == if Named(ps, n) then Ok(Rows(Gpt, ps, n)) else Err(InvalidGpt)
  {
    hide GptEntry, EntryArray, Chunk, Shown, Kept, EntryBytes, Clear, ZeroGuid, Row;
    var ps := l.partitions;
    if k > 0 {
      GptRowsRead(h, l, k - 1);
      ArrayChunk(ps, k - 1);
      if k <= |ps| {
        assert Usable(l, ps[k - 1]);
        EntryRead(h, ps[k - 1], k);
      } else {
        BlankEntryRead(h, k);
      }
    }
  }

  /** Where everything is in the image. */
  lemma {:induction false} GptImageReads(t: seq<byte>, l: Layout)
    requires Roomy(t, l)
    ensures var s, e := GptImage(t, l), EntryArray(l.partitions);
            && s[0..SECTOR] == ProtectiveSector(l.total)
            && s[SECTOR..2 * SECTOR] == PrimaryHeader(l)
            && s[2 * SECTOR..FIRST_USABLE * SECTOR] == e
            && s[(l.total - 33) * SECTOR..(l.total - 1) * SECTOR] == e
            && s[(l.total - 1) * SECTOR..l.total * SECTOR] == BackupHeader(l)
  {
    hide EntryArray, PrimaryHeader, BackupHeader, ProtectiveSector, Patched;
    var e, n := EntryArray(l.partitions), l.total;
    var a := Patched(t, 2 * SECTOR, e);
    var b := Patched(a, (n - 33) * SECTOR, e);
    var c := Patched(b, 0, ProtectiveSector(n));
    var d := Patched(c, SECTOR, PrimaryHeader(l));
    ReadsThrough(t, 2 * SECTOR, e, 2 * SECTOR, FIRST_USABLE * SECTOR);
    ReadsThrough(a, (n - 33) * SECTOR, e, 2 * SECTOR, FIRST_USABLE * SECTOR);
    ReadsThrough(a, (n - 33) * SECTOR, e, (n - 33) * SECTOR, (n - 1) * SECTOR);
    ReadsThrough(b, 0, ProtectiveSector(n), 0, SECTOR);
    ReadsThrough(b, 0, ProtectiveSector(n), 2 * SECTOR, FIRST_USABLE * SECTOR);
    ReadsThrough(b, 0, ProtectiveSector(n), (n - 33) * SECTOR, (n - 1) * SECTOR);
    ReadsThrough(c, SECTOR, PrimaryHeader(l), 0, SECTOR);
    ReadsThrough(c, SECTOR, PrimaryHeader(l), SECTOR, 2 * SECTOR);
    ReadsThrough(c, SECTOR, PrimaryHeader(l), 2 * SECTOR, FIRST_USABLE * SECTOR);
    ReadsThrough(c, SECTOR, PrimaryHeader(l), (n - 33) * SECTOR, (n - 1) * SECTOR);
    ReadsThrough(d, (n - 1) * SECTOR, BackupHeader(l), 0, SECTOR);
    ReadsThrough(d, (n - 1) * SECTOR, BackupHeader(l), SECTOR, 2 * SECTOR);
    ReadsThrough(d, (n - 1) * SECTOR, BackupHeader(l), 2 * SECTOR, FIRST_USABLE * SECTOR);
    ReadsThrough(d, (n - 1) * SECTOR, BackupHeader(l), (n - 33) * SECTOR, (n - 1) * SECTOR);
    ReadsThrough(d, (n - 1) * SECTOR, BackupHeader(l), (n - 1) * SECTOR, n * SECTOR);
  }

  lemma {:induction false} ReadsThrough(t: seq<byte>, at: nat, b: seq<byte>, lo: nat, hi: nat)
    requires at + |b| <= |t| && lo <= hi <= |t|
    requires hi <= at || at + |b| <= lo || (at == lo && at + |b| == hi)
    ensures Patched(t, at, b)[lo..hi] == if at == lo && at + |b| == hi then b else t[lo..hi]
  {
    hide Patched;
    PatchedReads(t, at, b, lo, hi);
    if lo == hi && at == lo && |b| == 0 {
      assert b == [];
    }
  }

  lemma {:induction false} GptReadBack(t: seq<byte>, l: Layout)
    requires |t| / SECTOR == l.total && ValidLayout(l) && l.kind == Gpt
    ensures var ps := l.partitions;
            TableOf(Laid(t, l), SECTOR) ==
            if Named(ps, |ps|) then Ok(Table(Gpt, Some(l.disk), Rows(Gpt, ps, |ps|))) else Err(InvalidGpt)
  {
    hide GptImage, MbrOf, HeaderOf, EntryArray, ProtectiveSector, HeaderSector, GptRows, Rows, Crc32, Disjoint, Protective, Holds;
    var ps, s, e := l.partitions, Laid(t, l), EntryArray(l.partitions);
    GptImageReads(t, l);
    ProtectiveRead(l.total);
    var words: seq<u64> := [1, l.total - 1, FIRST_USABLE, l.total - FIRST_USABLE];
    HeaderReadBack(words, l.disk, 2, Crc32(e));
    var h := Fields(words, l.disk, 2, Crc32(e));
    assert HeaderOf(PrimaryHeader(l)) == Ok(h);
    GptRowsRead(h, l, GPT_ENTRIES);
    RowsDisjoint(l);
    assert e[..ARRAY_BYTES] == e;
    assert GptTable(s, SECTOR) == GptBehind(s, SECTOR, h);
    assert SectorsFor(ARRAY_BYTES, SECTOR) == 32;
    assert ReadAt(s, 2 * SECTOR, 32 * SECTOR) == Ok(e);
  }

  function PrimaryFields(l: Layout): GptHeader
    requires l.total >= MIN_SECTORS && |l.partitions| <= GPT_ENTRIES
  {
    Fields([1, l.total - 1, FIRST_USABLE, l.total - FIRST_USABLE], l.disk, 2, Crc32(EntryArray(l.partitions)))
  }

  function Run(s: seq<byte>, lba: nat, n: nat): seq<byte> {
    if (lba + n) * SECTOR <= |s| then s[lba * SECTOR..(lba + n) * SECTOR] else []
  }

  /** The backup at the end of the disk is a header of its own behind the same entries. */
  lemma {:induction false} BackupMirrors(t: seq<byte>, l: Layout)
    requires |t| / SECTOR == l.total && ValidLayout(l) && l.kind == Gpt
    ensures HeaderOf(Run(Laid(t, l), 1, 1)) == Ok(PrimaryFields(l))
    ensures HeaderOf(Run(Laid(t, l), l.total - 1, 1)) ==
            Ok(PrimaryFields(l).(current := l.total - 1, backup := 1, entriesLba := l.total - 33))
    ensures Run(Laid(t, l), l.total - 33, 32) == Run(Laid(t, l), 2, 32) == EntryArray(l.partitions)
  {
    hide GptImage, HeaderOf, EntryArray, HeaderSector, Crc32, Usable, Clear;
    var n, sum := l.total, Crc32(EntryArray(l.partitions));
    GptImageReads(t, l);
    HeaderReadBack([1, n - 1, FIRST_USABLE, n - FIRST_USABLE], l.disk, 2, sum);
    HeaderReadBack([n - 1, 1, FIRST_USABLE, n - FIRST_USABLE], l.disk, n - 33, sum);
  }

  // ---------- the layout as a whole ----------

  predicate Faithful(l: Layout) {
    l.kind == Gpt ==>
      forall i :: 0 <= i < |l.partitions| ==> FaithfulName(l.partitions[i].name) && !ZeroGuid(l.partitions[i].unique)
  }

  predicate FaithfulName(name: string) {
    |name| <= NAME_BYTES / 2 && Simple(name)
  }

  /** The table a layout asks for. */
  function Wanted(l: Layout): Table {
    Table(l.kind, if l.kind == Gpt then Some(l.disk) else None,
          seq(|l.partitions|, i requires 0 <= i < |l.partitions| => Row(l.kind, l.partitions[i], i + 1, l.partitions[i].name)))
  }

  lemma {:induction false} RowsWanted(l: Layout)
    ensures Rows(l.kind, l.partitions, |l.partitions|) == Wanted(l).partitions <==>
            (l.kind == Gpt ==> forall i :: 0 <= i < |l.partitions| ==> FaithfulName(l.partitions[i].name))
  {
    hide Rows, Shown, Kept, FaithfulName, Utf16, UnitsOf, NameBytes;
    var ps, w := l.partitions, Wanted(l).partitions;
    var rs := Rows(l.kind, ps, |ps|);
    forall i | 0 <= i < |ps| ensures rs[i] == w[i] <==> (l.kind == Gpt ==> FaithfulName(ps[i].name)) {
      RowsAt(l.kind, ps, |ps|, i);
      NameRead(ps[i].name);
      NameRoundTrip(ps[i].name);
      FaithfulNameIs(ps[i].name);
    }
  }

  lemma FaithfulNameIs(name: string)
    ensures FaithfulName(name) <==> |name| <= NAME_BYTES / 2 && Simple(name)
  {
  }

  /**
    Writing any accepted layout over any image and reading the table gives the
    layout back exactly when, for a GPT, each partition has a nonzero identifier
    and a name of at most 36 nonzero characters outside the supplementary planes.
   */
  lemma {:induction false} LayoutRoundTrip(t: seq<byte>, l: Layout)
    requires |t| / SECTOR == l.total && ValidLayout(l) && (l.kind == Mbr ==> AllFit(l.partitions))
    ensures TableOf(Laid(t, l), SECTOR) == Ok(Wanted(l)) <==> Faithful(l)
  {
    hide Laid, TableOf, ValidLayout, Rows, Row, FaithfulName, ZeroGuid;
    RowsWanted(l);
    if l.kind == Gpt {
      GptReadBack(t, l);
    } else {
      MbrReadBack(t, l);
    }
  }

  // ---------- layouts that do not come back ----------

  function NoGuid(): Guid {
    Zeros(16)
  }

  /** The smallest GPT disk with one partition, whose identifier is zero. */
  function NamelessLayout(): Layout {
    Layout(Gpt, MIN_SECTORS, NoGuid(), [Plan(Data, "", FIRST_USABLE, 1, NoGuid(), false)])
  }

  /** It is accepted and written, and cannot be read. */
  lemma {:induction false} NamelessUnreadable(t: seq<byte>)
    requires |t| / SECTOR == MIN_SECTORS
    ensures ValidLayout(NamelessLayout()) && TableOf(Laid(t, NamelessLayout()), SECTOR) == Err(InvalidGpt)
  {
    hide Laid, TableOf;
    var l := NamelessLayout();
    assert Usable(l, l.partitions[0]) && ZeroGuid(l.partitions[0].unique);
    GptReadBack(t, l);
  }

  /** An MBR disk of 2^32 + 1 sectors with one partition of `count` of them. */
  function LargeLayout(count: u64): Layout {
    Layout(Mbr, 0x1_0000_0001, NoGuid(), [Plan(Data, "", 1, count, NoGuid(), false)])
  }

  /** What can be read after any layout was written over any image. */
  ghost function ReadsAfter(t: seq<byte>, l: Layout): Result<Table> {
    if |t| / SECTOR != l.total || !ValidLayout(l) then TableOf(t, SECTOR)
    else if l.kind == Mbr && !AllFit(l.partitions) then Err(InvalidMbr)
    else if l.kind == Gpt && !Named(l.partitions, |l.partitions|) then Err(InvalidGpt)
    else Ok(Table(l.kind, if l.kind == Gpt then Some(l.disk) else None, Rows(l.kind, l.partitions, |l.partitions|)))
  }

  /**
    Writes a layout and reads the table.  The layout is refused, and the old table still
    there, exactly if it is not valid; it is refused, and no table there, exactly if it
    is a valid MBR layout that does not fit in 32 bits.
   */
  method WriteAndRead(image: array<byte>, l: Layout) returns (r: Outcome, table: Result<Table>)
    modifies image
    ensures table == TableOf(image[..], SECTOR) == ReadsAfter(old(image[..]), l)
    ensures r == Refused(Beyond32Bits) <==> image.Length / SECTOR == l.total && ValidLayout(l) && l.kind == Mbr && !AllFit(l.partitions)
    ensures r.Refused? && r.error != Beyond32Bits <==> image.Length / SECTOR != l.total || !ValidLayout(l)
    ensures r.Refused? && r.error != Beyond32Bits ==> image[..] == old(image[..])
    ensures forall k :: SECTOR <= k < image.Length && r == Refused(Beyond32Bits) ==> image[k] == old(image[k])
  {
    hide TableOf, ValidLayout, Laid, AllFit, Rows, Named;
    ghost var before := image[..];
    r := WriteLayout(image, l);
    table := ReadPartitionTable(image[..], SECTOR);
    if r == Refused(Beyond32Bits) {
      FewEntries(l);
      UnfinishedUnreadable(before, l.partitions, FirstMisfit(l.partitions));
      assert forall k :: SECTOR <= k < image.Length ==> image[k] == image[..][SECTOR..][k - SECTOR] == before[SECTOR..][k - SECTOR];
    } else if r.Done? {
      if l.kind == Gpt {
        GptReadBack(before, l);
      } else {
        MbrReadBack(before, l);
      }
    }
  }

  lemma FewEntries(l: Layout)
    requires ValidLayout(l)
    ensures l.total >= MIN_SECTORS && (l.kind == Mbr ==> |l.partitions| <= 4)
  {
  }

  /** Refusing a partition of 2^32 sectors, the write destroys the table that was there. */
  lemma {:induction false} LargeLosesTable(t: seq<byte>)
    requires |t| / SECTOR == 0x1_0000_0001
    ensures ValidLayout(LargeLayout(1)) && AllFit(LargeLayout(1).partitions)
    ensures ValidLayout(LargeLayout(0x1_0000_0000)) && !AllFit(LargeLayout(0x1_0000_0000).partitions)
    ensures var before, ps := Laid(t, LargeLayout(1)), LargeLayout(0x1_0000_0000).partitions;
      && TableOf(before, SECTOR).Ok?
      && TableOf(Unfinished(before, ps, FirstMisfit(ps)), SECTOR) == Err(InvalidMbr)
      && ReadsAfter(before, LargeLayout(0x1_0000_0000)) == Err(InvalidMbr)
  {
    hide TableOf, BootSector;
    var small, large := LargeLayout(1), LargeLayout(0x1_0000_0000);
    assert Usable(small, small.partitions[0]) && Usable(large, large.partitions[0]) && !Fits32(large.partitions[0]);
    MbrReadBack(t, small);
    UnfinishedUnreadable(Laid(t, small), large.partitions, FirstMisfit(large.partitions));
  }

  /** No byte of any planned partition changes. */
  lemma {:induction false} PartitionsUntouched(t: seq<byte>, l: Layout, i: nat)
    requires |t| / SECTOR == l.total && ValidLayout(l) && i < |l.partitions|
    ensures var p := l.partitions[i];
            (p.first + p.count) * SECTOR <= |t| && Run(Laid(t, l), p.first, p.count) == Run(t, p.first, p.count)
  {
    hide Clear, GptImage, BootSector, Patched;
    var p := l.partitions[i];
    assert Usable(l, p);
    if l.kind == Gpt {
      Outside(t, l, p.first * SECTOR, (p.first + p.count) * SECTOR);
    } else {
      PatchedReads(t, 0, BootSector(l.partitions, MBR_SIGNATURE), p.first * SECTOR, (p.first + p.count) * SECTOR);
    }
  }

  lemma {:induction false} Outside(t: seq<byte>, l: Layout, lo: nat, hi: nat)
    requires Roomy(t, l) && FIRST_USABLE * SECTOR <= lo <= hi <= (l.total - 33) * SECTOR
    ensures GptImage(t, l)[lo..hi] == t[lo..hi]
  {
    hide EntryArray, PrimaryHeader, BackupHeader, ProtectiveSector, Patched;
    var e, n := EntryArray(l.partitions), l.total;
    var a := Patched(t, 2 * SECTOR, e);
    var b := Patched(a, (n - 33) * SECTOR, e);
    var c := Patched(b, 0, ProtectiveSector(n));
    var d := Patched(c, SECTOR, PrimaryHeader(l));
    PatchedReads(t, 2 * SECTOR, e, lo, hi);
    PatchedReads(a, (n - 33) * SECTOR, e, lo, hi);
    PatchedReads(b, 0, ProtectiveSector(n), lo, hi);
    PatchedReads(c, SECTOR, PrimaryHeader(l), lo, hi);
    PatchedReads(d, (n - 1) * SECTOR, BackupHeader(l), lo, hi);
  }
}
