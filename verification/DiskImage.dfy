/**
  What a written disk looks like to other systems: the fields that section 5 of the
  UEFI specification names, at their offsets and with their published values, and the
  roles a reader gets back from them.
 */
module DiskImage {
  import opened Bytes
  import opened GptName
  import opened Partitions
  import opened DiskLayout
  import opened DiskRoundTrip

  // ---------- identifiers ----------

  function Word16(s: seq<byte>, at: nat): nat
    requires at + 2 <= |s|
  {
    Digits(s[at], s[at + 1])
  }

  function Digits(low: nat, high: nat): nat {
    low + 256 * high
  }

  lemma SameDigits(a: nat, b: nat, c: nat, d: nat)
    requires a < 256 && c < 256 && Digits(a, b) == Digits(c, d)
    ensures a == c && b == d
  {
  }

  /** The 16 bytes are the identifier `a-b-c-rest` as UEFI stores it. */
  predicate ReadsAs(s: seq<byte>, a: nat, b: nat, c: nat, rest: seq<byte>) {
    |s| == 16 && GetU32(s, 0) == a && Word16(s, 4) == b && Word16(s, 6) == c && s[8..16] == rest
  }

  /** The partition type identifiers, as they are published or, for NexFS, as NexOS defines it. */
  predicate PublishedType(role: Role, s: seq<byte>) {
    match role
    case BiosBoot => ReadsAs(s, 0x2168_6148, 0x6449, 0x6e6f, [0x74, 0x4e, 0x65, 0x65, 0x64, 0x45, 0x46, 0x49])
    case EfiSystem => ReadsAs(s, 0xc12a_7328, 0xf81f, 0x11d2, [0xba, 0x4b, 0x00, 0xa0, 0xc9, 0x3e, 0xc9, 0x3b])
    case NexFs => ReadsAs(s, 0x4678_654e, 0x0053, 0x4010, [0x80, 0x00, 0x4e, 0x65, 0x78, 0x4f, 0x53, 0x00])
    case Data => ReadsAs(s, 0x0fc6_3daf, 0x8483, 0x4772, [0x8e, 0x79, 0x3d, 0x69, 0xd8, 0x47, 0x7d, 0xe4])
  }

  /** And the type bytes of an MBR. */
  predicate PublishedByte(role: Role, b: byte) {
    match role case BiosBoot => b == 0xda case EfiSystem => b == 0x0c case NexFs => b == 0xa9 case Data => b == 0x83
  }

  lemma FourBytes(s: seq<byte>)
    requires |s| >= 4
    ensures GetU32(s, 0) == Digits(s[0], Digits(s[1], Digits(s[2], s[3])))
  {
    var t := s[0..4];
    assert FromLittleEndian(t[1..]) == t[1] + 256 * FromLittleEndian(t[1..][1..]);
    assert t[1..][1..] == t[2..] && t[2..][1..] == t[3..] && t[3..][1..] == [];
    assert FromLittleEndian(t[2..]) == t[2] + 256 * FromLittleEndian(t[3..]);
    assert FromLittleEndian(t[3..]) == t[3] + 256 * FromLittleEndian([]);
  }

  lemma {:induction false} TypePublished(role: Role)
    ensures PublishedType(role, role.TypeGuid()) && PublishedByte(role, role.MbrType())
  {
    hide GetU32;
    FourBytes(role.TypeGuid());
  }

  /** `role_from_guid`. */
  function RoleFromGuid(g: Guid): Role {
    if g == EfiSystem.TypeGuid() then EfiSystem
    else if g == BiosBoot.TypeGuid() then BiosBoot
    else if g == NexFs.TypeGuid() then NexFs
    else Data
  }

  /** `role_from_mbr`. */
  function RoleFromMbr(b: byte): Role {
    if b == 0x0b || b == 0x0c || b == 0xef then EfiSystem
    else if b == 0xa9 then NexFs
    else if b == 0xda then BiosBoot
    else Data
  }

  function RoleOf(p: Partition): Role {
    match p.typeGuid
    case Some(g) => RoleFromGuid(g)
    case None => match p.mbrType case Some(b) => RoleFromMbr(b) case None => Data
  }

  lemma RolesApart(role: Role)
    ensures RoleFromGuid(role.TypeGuid()) == role && RoleFromMbr(role.MbrType()) == role
  {
    assert EfiSystem.TypeGuid()[0] == 0x28 && BiosBoot.TypeGuid()[0] == 0x48 && NexFs.TypeGuid()[0] == 0x4e && Data.TypeGuid()[0] == 0xaf;
  }

  /** The bytes a published type has decide the role that is read. */
  lemma {:induction false} PublishedRole(role: Role, g: Guid)
    requires PublishedType(role, g)
    ensures RoleFromGuid(g) == role && g == role.TypeGuid()
  {
    hide GetU32;
    var h := role.TypeGuid();
    TypePublished(role);
    FourBytes(g);
    FourBytes(h);
    SameDigits(g[0], Digits(g[1], Digits(g[2], g[3])), h[0], Digits(h[1], Digits(h[2], h[3])));
    SameDigits(g[1], Digits(g[2], g[3]), h[1], Digits(h[2], h[3]));
    SameDigits(g[2], g[3], h[2], h[3]);
    SameDigits(g[4], g[5], h[4], h[5]);
    SameDigits(g[6], g[7], h[6], h[7]);
    assert forall k :: 8 <= k < 16 ==> g[k] == g[8..16][k - 8] && h[k] == h[8..16][k - 8];
    assert g == h;
    RolesApart(role);
  }

  /** Whoever reads the table of a written layout finds every partition in the role it was planned for. */
  lemma {:induction false} RolesReadBack(t: seq<byte>, l: Layout, i: nat)
    requires |t| / SECTOR == l.total && ValidLayout(l) && (l.kind == Mbr ==> AllFit(l.partitions)) && i < |l.partitions|
    ensures var r := TableOf(Laid(t, l), SECTOR);
      r.Ok? ==> |r.value.partitions| == |l.partitions| && RoleOf(r.value.partitions[i]) == l.partitions[i].role
  {
    hide Laid, TableOf, ValidLayout, Rows, RoleFromGuid, RoleFromMbr, Role.TypeGuid, Role.MbrType;
    var ps := l.partitions;
    if l.kind == Gpt {
      GptReadBack(t, l);
    } else {
      MbrReadBack(t, l);
    }
    RowsAt(l.kind, ps, |ps|, i);
    RolesApart(ps[i].role);
  }

  // ---------- MBR ----------

  /** One entry of the table: status, type, first sector, number of sectors. */
  predicate MbrFields(e: seq<byte>, p: Plan) {
    && |e| == 16 && e[0] == (if p.bootable then 0x80 else 0x00) && PublishedByte(p.role, e[4])
    && GetU32(e, 8) == p.first && GetU32(e, 12) == p.count
  }

  /** The boot sector of a written MBR layout. */
  lemma {:induction false} MbrOnDisk(t: seq<byte>, l: Layout, i: nat)
    requires |t| / SECTOR == l.total && ValidLayout(l) && l.kind == Mbr && AllFit(l.partitions) && i < 4
    ensures var s := Laid(t, l);
      && |s| == |t| >= 512 && s[510] == 0x55 && s[511] == 0xaa
      && (if i < |l.partitions| then MbrFields(s[446 + 16 * i..462 + 16 * i], l.partitions[i]) else s[446 + 16 * i..462 + 16 * i] == Zeros(16))
  {
    hide BootSector, Patched, GetU32, LittleEndian, Usable, Clear;
    var ps := l.partitions;
    var boot := BootSector(ps, MBR_SIGNATURE);
    PatchedReads(t, 0, boot, 0, SECTOR);
    BootSlot(ps, MBR_SIGNATURE, i);
    SignedBoot(ps);
    var s := Laid(t, l);
    assert s[0..SECTOR] == boot && boot[510..512] == MBR_SIGNATURE;
    assert s[510] == boot[510..512][0] && s[511] == boot[510..512][1];
    SliceSlice(s, 0, SECTOR, 446 + 16 * i, 462 + 16 * i);
    if i < |ps| {
      var e := MbrEntryBytes(ps[i]);
      assert e[8..12] == LittleEndian(ps[i].first, 4) && e[12..16] == LittleEndian(ps[i].count, 4);
      assert Fits32(ps[i]);
      ReadU32(e, 8, ps[i].first);
      ReadU32(e, 12, ps[i].count);
      TypePublished(ps[i].role);
    }
  }

  lemma SliceSlice(s: seq<byte>, a: nat, b: nat, lo: nat, hi: nat)
    requires a <= b <= |s| && lo <= hi <= b - a
    ensures s[a..b][lo..hi] == s[a + lo..a + hi]
  {
    var x, y := s[a..b][lo..hi], s[a + lo..a + hi];
    assert forall k :: 0 <= k < |y| ==> x[k] == s[a..b][lo + k] == s[a + lo + k] == y[k];
  }

  // ---------- GPT ----------

  /** One entry: type, identifier, first and last sector, attributes, name. */
  predicate GptFields(e: seq<byte>, p: Plan) {
    && |e| == 128 && PublishedType(p.role, e[0..16]) && e[16..32] == p.unique
    && GetU64(e, 32) == p.first && GetU64(e, 40) == p.first + p.count - 1 && GetU64(e, 48) == 0
    && e[56..128] == NameBytes(p.name)
  }

  lemma {:induction false} EntryFields(p: Plan)
    requires p.count > 0 && p.first + p.count <= 0x1_0000_0000_0000_0000
    ensures GptFields(EntryBytes(p), p)
  {
    hide LittleEndian, GetU64, NameBytes, Role.TypeGuid, PublishedType;
    var e := EntryBytes(p);
    assert Last(p) == p.first + p.count - 1;
    assert e[0..16] == p.role.TypeGuid() && e[16..32] == p.unique;
    assert e[32..40] == LittleEndian(p.first, 8) && e[40..48] == LittleEndian(Last(p), 8);
    assert e[48..56] == Zeros(8) && e[56..128] == NameBytes(p.name);
    ZeroRead(8);
    ReadU64(e, 32, p.first);
    ReadU64(e, 40, Last(p));
    ReadU64(e, 48, 0);
    TypePublished(p.role);
  }

  /** Entry `i` of both arrays of a written GPT layout; those not used are zero. */
  lemma {:induction false} GptEntryOnDisk(t: seq<byte>, l: Layout, i: nat)
    requires |t| / SECTOR == l.total && ValidLayout(l) && l.kind == Gpt && i < 128
    ensures var s, at, copy := Laid(t, l), 1024 + 128 * i, (l.total - 33) * 512 + 128 * i;
      && |s| == |t| && copy + 128 <= |s| && s[copy..copy + 128] == s[at..at + 128]
      && (if i < |l.partitions| then GptFields(s[at..at + 128], l.partitions[i]) else s[at..at + 128] == Zeros(128))
  {
    hide GptImage, EntryArray, ProtectiveSector, PrimaryHeader, BackupHeader, EntryBytes, GptFields, Clear;
    var s, n, ps := Laid(t, l), l.total, l.partitions;
    GptImageReads(t, l);
    ArrayChunk(ps, i);
    SliceSlice(s, 2 * SECTOR, FIRST_USABLE * SECTOR, 128 * i, 128 * i + 128);
    SliceSlice(s, (n - 33) * SECTOR, (n - 1) * SECTOR, 128 * i, 128 * i + 128);
    if i < |ps| {
      assert Usable(l, ps[i]);
      EntryFields(ps[i]);
    }
  }

  /** The header of section 5.3.2, sealed over its 92 bytes with the seal taken as zero. */
  predicate UefiHeader(h: seq<byte>, here: nat, other: nat, total: nat, disk: Guid, entries: nat, crc: nat) {
    && |h| == 512 && h[0..8] == [0x45, 0x46, 0x49, 0x20, 0x50, 0x41, 0x52, 0x54]
    && GetU32(h, 8) == 0x0001_0000 && GetU32(h, 12) == 92
    && GetU32(h, 16) == Crc32(h[..16] + [0, 0, 0, 0] + h[20..92]) && GetU32(h, 20) == 0
    && GetU64(h, 24) == here && GetU64(h, 32) == other && GetU64(h, 40) == 34 && GetU64(h, 48) == total - 34
    && h[56..72] == disk && GetU64(h, 72) == entries && GetU32(h, 80) == 128 && GetU32(h, 84) == 128 && GetU32(h, 88) == crc
    && h[92..512] == Zeros(420)
  }

  lemma {:induction false} HeaderFields(here: u64, other: u64, total: u64, disk: Guid, entries: u64, crc: u32)
    requires total >= 34
    ensures UefiHeader(HeaderSector([here, other, FIRST_USABLE, total - FIRST_USABLE], disk, entries, crc), here, other, total, disk, entries, crc)
  {
    hide LittleEndian, GetU32, GetU64, HeaderWith, HeaderEnd, Crc32, Unsealed;
    var words: seq<u64> := [here, other, FIRST_USABLE, total - FIRST_USABLE];
    var end := HeaderEnd(disk, entries, crc);
    var s := HeaderSector(words, disk, entries, crc);
    var sum := Crc32(HeaderWith(Zeros(4), words, end));
    var seal := LittleEndian(sum, 4);
    RawHeaderRead(seal, words, disk, entries, crc, Zeros(SECTOR - HEADER_BYTES));
    var h := HeaderWith(seal, words, end);
    assert s == h + Zeros(SECTOR - HEADER_BYTES) && s[..92] == h;
    Unseals(seal, words, end);
    ReadU32(s, 16, sum);
    SealedPart(s, h);
    ReservedZero(seal, words, end, s);
  }

  lemma SealedPart(s: seq<byte>, h: seq<byte>)
    requires |h| == 92 <= |s| && s[..92] == h
    ensures s[..16] + [0, 0, 0, 0] + s[20..92] == Unsealed(h)
  {
    assert Zeros(4) == [0, 0, 0, 0];
    assert s[..16] == h[..16] && s[20..92] == h[20..];
  }

  lemma {:induction false} ReservedZero(seal: seq<byte>, words: seq<u64>, end: seq<byte>, s: seq<byte>)
    requires |seal| == 4 && |words| == 4 && |end| == 36 && |s| == 512 && s == HeaderWith(seal, words, end) + Zeros(420)
    ensures GetU32(s, 20) == 0 && s[92..512] == Zeros(420)
  {
    hide LittleEndian, WordBytes, GetU32;
    ZeroRead(4);
    var a := HeaderStart(seal);
    assert a[20..24] == Zeros(4);
    assert s[20..24] == a[20..24];
    ReadU32(s, 20, 0);
  }

  /** Both headers, the protective MBR, and the checksum over the entries that are there. */
  lemma {:induction false} GptOnDisk(t: seq<byte>, l: Layout)
    requires |t| / SECTOR == l.total && ValidLayout(l) && l.kind == Gpt
    ensures var s, n := Laid(t, l), l.total;
      && |s| == |t| && n * 512 <= |s|
      && UefiHeader(s[512..1024], 1, n - 1, n, l.disk, 2, Crc32(s[1024..17408]))
      && UefiHeader(s[(n - 1) * 512..n * 512], n - 1, 1, n, l.disk, n - 33, Crc32(s[1024..17408]))
      && s[446..450] == Zeros(4) && s[450] == 0xee && GetU32(s, 454) == 1 && GetU32(s, 458) == Min(n - 1, 0xffff_ffff)
      && s[462..510] == Zeros(48) && s[510] == 0x55 && s[511] == 0xaa
  {
    hide GptImage, EntryArray, ProtectiveSector, HeaderSector, Crc32, Usable, Clear, UefiHeader, GetU32;
    var s, n := Laid(t, l), l.total;
    GptImageReads(t, l);
    HeaderFields(1, n - 1, n, l.disk, 2, Crc32(EntryArray(l.partitions)));
    HeaderFields(n - 1, 1, n, l.disk, n - 33, Crc32(EntryArray(l.partitions)));
    ProtectiveFields(n, s);
  }

  lemma {:induction false} ProtectiveFields(total: nat, s: seq<byte>)
    requires total > 1 && |s| >= 512 && s[0..512] == ProtectiveSector(total)
    ensures s[446..450] == Zeros(4) && s[450] == 0xee && GetU32(s, 454) == 1 && GetU32(s, 458) == Min(total - 1, 0xffff_ffff)
    ensures s[462..510] == Zeros(48) && s[510] == 0x55 && s[511] == 0xaa
  {
    hide LittleEndian, GetU32;
    var p := ProtectiveSector(total);
    var count := Min(total - 1, 0xffff_ffff);
    assert p[446..450] == Zeros(4) && p[450] == 0xee && p[454..458] == LittleEndian(1, 4) && p[458..462] == LittleEndian(count, 4);
    assert p[462..510] == Zeros(48) && p[510] == 0x55 && p[511] == 0xaa;
    SliceSlice(s, 0, 512, 446, 450);
    SliceSlice(s, 0, 512, 454, 458);
    SliceSlice(s, 0, 512, 458, 462);
    SliceSlice(s, 0, 512, 462, 510);
    assert s[450] == s[0..512][450] && s[510] == s[0..512][510] && s[511] == s[0..512][511];
    ReadU32(s, 454, 1);
    ReadU32(s, 458, count);
  }

  // ---------- layouts and names ----------

  predicate Inside(p: Plan, sector: nat) {
    p.first <= sector < p.first + p.count
  }

  ghost predicate HasSectors(p: Plan) {
    exists sector: nat :: Inside(p, sector)
  }

  /** The sectors that no copy of the table occupies. */
  predicate Spare(l: Layout, sector: nat) {
    match l.kind case Gpt => 34 <= sector < l.total - 33 case Mbr => 1 <= sector < l.total
  }

  /** No partition is empty, and every sector of one is spare and belongs to no other. */
  ghost predicate Partitioned(l: Layout) {
    var ps := l.partitions;
    && (forall i :: 0 <= i < |ps| ==> HasSectors(ps[i]))
    && (forall i, sector: nat :: 0 <= i < |ps| && Inside(ps[i], sector) ==> Spare(l, sector))
    && (forall i, j, sector: nat :: 0 <= i < |ps| && 0 <= j < |ps| && Inside(ps[i], sector) && Inside(ps[j], sector) ==> i == j)
  }

  /** The checks on a layout, which compare ends of ranges, say this of single sectors. */
  lemma {:induction false} LayoutExactly(l: Layout)
    ensures ValidLayout(l) <==>
            l.total >= 131072 && |l.partitions| <= (if l.kind == Mbr then 4 else 128) && Partitioned(l)
  {
    if ValidLayout(l) {
      AcceptedPartitioned(l);
    }
    if Partitioned(l) && l.total >= 131072 {
      var ps := l.partitions;
      forall i | 0 <= i < |ps| ensures Usable(l, ps[i]) { EndsSpare(l, i); }
      forall i, j | 0 <= i < j < |ps| ensures Clear(ps[i], ps[j]) { NoneShared(l, i, j); }
    }
  }

  lemma {:induction false} AcceptedPartitioned(l: Layout)
    requires ValidLayout(l)
    ensures Partitioned(l)
  {
    var ps := l.partitions;
    forall i | 0 <= i < |ps| ensures HasSectors(ps[i]) {
      var sector: nat := ps[i].first;
      assert Usable(l, ps[i]) && Inside(ps[i], sector);
    }
    forall i, sector: nat | 0 <= i < |ps| && Inside(ps[i], sector) ensures Spare(l, sector) {
      assert Usable(l, ps[i]);
    }
    forall i, j, sector: nat | 0 <= i < |ps| && 0 <= j < |ps| && Inside(ps[i], sector) && Inside(ps[j], sector)
      ensures i == j
    {
      assert !Clear(ps[i], ps[j]) && !Clear(ps[j], ps[i]);
    }
  }

  lemma {:induction false} EndsSpare(l: Layout, i: nat)
    requires Partitioned(l) && i < |l.partitions| && l.total >= 131072
    ensures Usable(l, l.partitions[i])
  {
    var p := l.partitions[i];
    assert HasSectors(p);
    assert p.count > 0;
    var last: nat := p.first + p.count - 1;
    assert Inside(p, p.first) && Inside(p, last);
    assert Spare(l, p.first) && Spare(l, last);
  }

  lemma {:induction false} NoneShared(l: Layout, i: nat, j: nat)
    requires Partitioned(l) && i < j < |l.partitions|
    ensures Clear(l.partitions[i], l.partitions[j])
  {
    var p, q := l.partitions[i], l.partitions[j];
    assert HasSectors(p) && HasSectors(q);
    var later := if p.first < q.first then q.first else p.first;
    assert !(Inside(p, later) && Inside(q, later));
  }

  lemma {:induction false} UnitsPlain(name: string)
    requires forall k :: 0 <= k < |name| ==> name[k] as int < 0x1_0000
    ensures |Utf16(name)| == |name|
    ensures forall k :: 0 <= k < |name| ==> Utf16(name)[k] == name[k] as int
  {
    if name != [] {
      UnitsPlain(name[1..]);
    }
  }

  lemma {:induction false} UnitBytesAt(us: seq<u16>, k: nat)
    requires k < |us|
    ensures Word16(UnitBytes(us), 2 * k) == us[k]
  {
    hide LittleEndian, Digits;
    var head := LittleEndian(us[0], 2);
    if k == 0 {
      TwoBytes(us[0]);
    } else {
      UnitBytesAt(us[1..], k - 1);
      assert UnitBytes(us)[2 * k] == UnitBytes(us[1..])[2 * (k - 1)];
      assert UnitBytes(us)[2 * k + 1] == UnitBytes(us[1..])[2 * (k - 1) + 1];
    }
  }

  lemma TwoBytes(v: u16)
    ensures |LittleEndian(v, 2)| == 2 && Digits(LittleEndian(v, 2)[0], LittleEndian(v, 2)[1]) == v
  {
    assert LittleEndian(v, 2) == [v % 256] + LittleEndian(v / 256, 1);
    assert LittleEndian(v / 256, 1) == [v / 256 % 256] + LittleEndian(v / 256 / 256, 0);
  }

  /** A short name of characters below 0x10000 is stored one character to two bytes, then zeros. */
  lemma {:induction false} NameOnDisk(name: string, k: nat)
    requires |name| <= 36 && k < 36 && forall j :: 0 <= j < |name| ==> name[j] as int < 0x1_0000
    ensures Word16(NameBytes(name), 2 * k) == if k < |name| then name[k] as int else 0
  {
    hide Utf16, UnitBytes;
    UnitsPlain(name);
    var us := Kept(name);
    var head, tail := UnitBytes(us), Zeros(72 - 2 * |us|);
    assert NameBytes(name) == head + tail;
    if k < |name| {
      UnitBytesAt(us, k);
      assert (head + tail)[2 * k] == head[2 * k] && (head + tail)[2 * k + 1] == head[2 * k + 1];
    } else {
      var at := 2 * k - |head|;
      assert (head + tail)[2 * k] == tail[at] && (head + tail)[2 * k + 1] == tail[at + 1];
    }
  }
}
