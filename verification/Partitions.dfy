/**
  Reading partition tables: MBR entries, the GPT header behind its checksum, the
  entry array, and the guarantee that what is accepted is a set of disjoint ranges
  inside the disk.
 */
module Partitions {
  import opened Arithmetic
  import opened Bytes
  import opened GptName

  datatype StorageError =
    InvalidMbr | InvalidGpt | ChecksumMismatch | InvalidPartition | UnsupportedSectorSize | OutOfBounds
  datatype Result<+T> = Ok(value: T) | Err(error: StorageError)

  type Guid = s: seq<byte> | |s| == 16 witness seq(16, i => 0)

  datatype MbrPartition = MbrPartition(bootable: bool, kind: byte, first: u32, count: u32)
  datatype GptHeader = GptHeader(
    current: u64, backup: u64, firstUsable: u64, lastUsable: u64, disk: Guid,
    entriesLba: u64, entryCount: u32, entrySize: u32, entriesCrc: u32)
  datatype Partition = Partition(
    index: nat, first: nat, count: nat, bootable: bool, mbrType: Option<byte>,
    typeGuid: Option<Guid>, unique: Option<Guid>, attributes: u64, name: string)
  datatype TableKind = Mbr | Gpt
  datatype Table = Table(kind: TableKind, disk: Option<Guid>, partitions: seq<Partition>)

  const MBR_SIGNATURE: seq<byte> := [0x55, 0xaa]
  const GPT_SIGNATURE: seq<byte> := [0x45, 0x46, 0x49, 0x20, 0x50, 0x41, 0x52, 0x54]
  const HEADER_BYTES: nat := 92
  const MAX_GPT_ENTRIES: nat := 4096
  const MAX_GPT_ENTRY_SIZE: nat := 4096
  const PROTECTIVE: byte := 0xee

  predicate ZeroGuid(g: Guid) {
    forall k :: 0 <= k < 16 ==> g[k] == 0
  }

  // ---------- overlap ----------

  predicate Apart(a: Partition, b: Partition) {
    a.first + a.count <= b.first || b.first + b.count <= a.first
  }

  predicate Disjoint(ps: seq<Partition>) {
    forall i, j :: 0 <= i < j < |ps| ==> Apart(ps[i], ps[j])
  }

  /** `validate_no_overlap`; ends do not overflow, because they were found to be inside the disk. */
  method ValidateNoOverlap(ps: seq<Partition>) returns (r: Result<()>)
    ensures r == if Disjoint(ps) then Ok(()) else Err(InvalidPartition)
  {
    for i := 0 to |ps|
      invariant forall a, b :: 0 <= a < i && a < b < |ps| ==> Apart(ps[a], ps[b])
    {
      for j := i + 1 to |ps|
        invariant forall b :: i < b < j ==> Apart(ps[i], ps[b])
      {
        if ps[i].first < ps[j].first + ps[j].count && ps[j].first < ps[i].first + ps[i].count {
          assert !Apart(ps[i], ps[j]);
          return Err(InvalidPartition);
        }
      }
    }
    r := Ok(());
  }

  // ---------- MBR ----------

  function MbrEntry(e: seq<byte>): Result<Option<MbrPartition>>
    requires |e| == 16
  {
    var count := GetU32(e, 12);
    if e[0] != 0 && e[0] != 0x80 then Err(InvalidMbr)
    else if e[4] == 0 && count == 0 then Ok(None)
    else if e[4] == 0 || count == 0 then Err(InvalidMbr)
    else Ok(Some(MbrPartition(e[0] == 0x80, e[4], GetU32(e, 8), count)))
  }

  function MbrSlot(sector: seq<byte>, i: nat): (e: seq<byte>)
    requires |sector| >= 512 && i < 4
    ensures |e| == 16
  {
    sector[446 + i * 16..446 + i * 16 + 16]
  }

  function MbrEntries(sector: seq<byte>, k: nat): Result<seq<Option<MbrPartition>>>
    requires |sector| >= 512 && k <= 4
  {
    if k == 0 then Ok([])
    else
      match MbrEntries(sector, k - 1)
      case Err(e) => Err(e)
      case Ok(es) =>
        match MbrEntry(MbrSlot(sector, k - 1)) case Err(e) => Err(e) case Ok(x) => Ok(es + [x])
  }

  predicate Signed(sector: seq<byte>) {
    |sector| >= 512 && sector[510..512] == MBR_SIGNATURE
  }

  function MbrOf(sector: seq<byte>): Result<seq<Option<MbrPartition>>> {
    if Signed(sector) then MbrEntries(sector, 4) else Err(InvalidMbr)
  }

  method ParseMbr(sector: seq<byte>) returns (r: Result<seq<Option<MbrPartition>>>)
    ensures r == MbrOf(sector)
  {
    hide MbrEntry;
    if |sector| < 512 || sector[510..512] != MBR_SIGNATURE {
      return Err(InvalidMbr);
    }
    var es := [];
    for i := 0 to 4
      invariant MbrEntries(sector, i) == Ok(es)
    {
      var e := MbrEntry(MbrSlot(sector, i));
      if e.Err? {
        MbrFails(sector, i + 1, 4);
        return Err(e.error);
      }
      es := es + [e.value];
    }
    r := Ok(es);
  }

  lemma {:induction false} MbrFails(sector: seq<byte>, k: nat, n: nat)
    requires |sector| >= 512 && k <= n <= 4 && MbrEntries(sector, k).Err?
    ensures MbrEntries(sector, n) == MbrEntries(sector, k)
  {
    hide MbrEntry;
    if k < n {
      MbrFails(sector, k, n - 1);
    }
  }

  predicate InDisk(first: nat, count: nat, sectors: nat) {
    count > 0 && first > 0 && first + count <= sectors
  }

  function MbrRow(e: MbrPartition, index: nat): Partition {
    Partition(index, e.first, e.count, e.bootable, Some(e.kind), None, None, 0, "")
  }

  /** The first `k` entries as partitions. */
  function MbrRows(es: seq<Option<MbrPartition>>, sectors: nat, k: nat): Result<seq<Partition>>
    requires k <= |es|
  {
    if k == 0 then Ok([])
    else
      match MbrRows(es, sectors, k - 1)
      case Err(e) => Err(e)
      case Ok(ps) =>
        match es[k - 1]
        case None => Ok(ps)
        case Some(e) =>
          if e.kind == PROTECTIVE then Err(InvalidGpt)
          else if !InDisk(e.first, e.count, sectors) then Err(InvalidPartition)
          else Ok(ps + [MbrRow(e, k)])
  }

  lemma {:induction false} MbrRowsFail(es: seq<Option<MbrPartition>>, sectors: nat, k: nat, n: nat)
    requires k <= n <= |es| && MbrRows(es, sectors, k).Err?
    ensures MbrRows(es, sectors, n) == MbrRows(es, sectors, k)
  {
    if k < n {
      MbrRowsFail(es, sectors, k, n - 1);
    }
  }

  function Checked(kind: TableKind, disk: Option<Guid>, ps: Result<seq<Partition>>): Result<Table> {
    match ps
    case Err(e) => Err(e)
    case Ok(ps) => if Disjoint(ps) then Ok(Table(kind, disk, ps)) else Err(InvalidPartition)
  }

  method ReadMbrTable(sectors: nat, es: seq<Option<MbrPartition>>) returns (r: Result<Table>)
    ensures r == Checked(Mbr, None, MbrRows(es, sectors, |es|))
  {
    var ps: seq<Partition> := [];
    for i := 0 to |es|
      invariant MbrRows(es, sectors, i) == Ok(ps)
    {
      if es[i].Some? {
        var e := es[i].value;
        if e.kind == PROTECTIVE {
          MbrRowsFail(es, sectors, i + 1, |es|);
          return Err(InvalidGpt);
        }
        if !InDisk(e.first, e.count, sectors) {
          MbrRowsFail(es, sectors, i + 1, |es|);
          return Err(InvalidPartition);
        }
        ps := ps + [MbrRow(e, i + 1)];
      }
    }
    var c := ValidateNoOverlap(ps);
    r := if c.Err? then Err(c.error) else Ok(Table(Mbr, None, ps));
  }

  // ---------- GPT header ----------

  /** The header with its checksum field taken as zero. */
  function Unsealed(h: seq<byte>): seq<byte>
    requires |h| >= 20
  {
    h[..16] + Zeros(4) + h[20..]
  }

  method GptHeaderCrc32(bytes: seq<byte>) returns (r: u32)
    requires |bytes| >= 20
    ensures r == Crc32(Unsealed(bytes))
  {
    hide CrcByte, CrcFold, CrcValue;
    CrcStart(0xffff_ffff);
    var crc: bv32, u := 0xffff_ffff, Unsealed(bytes);
    assert u[..0] == [];
    for i := 0 to |bytes|
      invariant crc == CrcFold(0xffff_ffff, u[..i])
    {
      var b: byte := if 16 <= i < 20 then 0 else bytes[i];
      CrcStep(0xffff_ffff, u, i);
      crc := CrcByte(crc, b);
    }
    assert u[..|bytes|] == u;
    r := CrcValue(crc);
  }

  lemma CrcStart(start: bv32)
    ensures CrcFold(start, []) == start
  {
  }

  lemma CrcStep(start: bv32, s: seq<byte>, i: nat)
    requires i < |s|
    ensures CrcFold(start, s[..i + 1]) == CrcByte(CrcFold(start, s[..i]), s[i])
  {
    hide CrcByte;
    assert s[..i + 1][..i] == s[..i];
  }

  function RawHeader(s: seq<byte>): GptHeader
    requires |s| >= HEADER_BYTES
  {
    GptHeader(GetU64(s, 24), GetU64(s, 32), GetU64(s, 40), GetU64(s, 48), s[56..72],
              GetU64(s, 72), GetU32(s, 80), GetU32(s, 84), GetU32(s, 88))
  }

  predicate HeaderOk(revision: u32, h: GptHeader) {
    && revision == 0x1_0000 && h.current != h.backup && h.firstUsable <= h.lastUsable
    && 0 < h.entryCount <= MAX_GPT_ENTRIES
    && 128 <= h.entrySize <= MAX_GPT_ENTRY_SIZE && h.entrySize % 8 == 0
  }

  function HeaderOf(s: seq<byte>): Result<GptHeader> {
    if |s| < HEADER_BYTES || s[0..8] != GPT_SIGNATURE then Err(InvalidGpt)
    else
      var n := GetU32(s, 12);
      if !(HEADER_BYTES <= n <= |s|) then Err(InvalidGpt)
      else if Crc32(Unsealed(s[..n])) != GetU32(s, 16) then Err(ChecksumMismatch)
      else if !HeaderOk(GetU32(s, 8), RawHeader(s)) then Err(InvalidGpt)
      else Ok(RawHeader(s))
  }

  method ParseGptHeader(s: seq<byte>) returns (r: Result<GptHeader>)
    ensures r == HeaderOf(s)
  {
    hide Crc32, GetU32, GetU64;
    if |s| < HEADER_BYTES || s[0..8] != GPT_SIGNATURE {
      return Err(InvalidGpt);
    }
    var n := GetU32(s, 12);
    if n < HEADER_BYTES || n > |s| {
      return Err(InvalidGpt);
    }
    var crc := GptHeaderCrc32(s[..n]);
    if crc != GetU32(s, 16) {
      return Err(ChecksumMismatch);
    }
    var h := RawHeader(s);
    r := if HeaderOk(GetU32(s, 8), h) then Ok(h) else Err(InvalidGpt);
  }

  // ---------- GPT entries ----------

  function GptEntry(h: GptHeader, e: seq<byte>, index: nat): Result<Option<Partition>>
    requires |e| >= 128
  {
    var kind: Guid, unique: Guid := e[0..16], e[16..32];
    var first, last := GetU64(e, 32), GetU64(e, 40);
    if ZeroGuid(kind) then Ok(None)
    else if ZeroGuid(unique) || first < h.firstUsable || last > h.lastUsable || first > last then Err(InvalidGpt)
    else Ok(Some(Partition(index, first, last - first + 1, false, None, Some(kind), Some(unique), GetU64(e, 48),
                           Shown(UnitsOf(e[56..128])))))
  }

  /** Entry `i` of the array. */
  function Chunk(bytes: seq<byte>, size: nat, i: nat): (e: seq<byte>)
    requires i * size + size <= |bytes|
    ensures |e| == size
  {
    bytes[i * size..i * size + size]
  }

  predicate Holds(bytes: seq<byte>, size: nat, k: nat) {
    forall i: nat :: i < k ==> Room(i, size) <= |bytes|
  }

  function Room(i: nat, size: nat): nat {
    i * size + size
  }

  function GptRows(h: GptHeader, bytes: seq<byte>, k: nat): Result<seq<Partition>>
    requires h.entrySize >= 128 && Holds(bytes, h.entrySize, k)
  {
    if k == 0 then Ok([])
    else
      match GptRows(h, bytes, k - 1)
      case Err(e) => Err(e)
      case Ok(ps) =>
        assert Room(k - 1, h.entrySize) <= |bytes|;
        match GptEntry(h, Chunk(bytes, h.entrySize, k - 1), k)
        case Err(e) => Err(e)
        case Ok(None) => Ok(ps)
        case Ok(Some(p)) => Ok(ps + [p])
  }

  lemma {:induction false} GptRowsFail(h: GptHeader, bytes: seq<byte>, k: nat, n: nat)
    requires h.entrySize >= 128 && Holds(bytes, h.entrySize, n)
    requires k <= n && GptRows(h, bytes, k).Err?
    ensures GptRows(h, bytes, n) == GptRows(h, bytes, k)
  {
    hide GptEntry, Room;
    if k < n {
      GptRowsFail(h, bytes, k, n - 1);
    }
  }

  /** The loop over the entry array. */
  method ReadEntries(h: GptHeader, bytes: seq<byte>) returns (r: Result<seq<Partition>>)
    requires h.entrySize >= 128 && Holds(bytes, h.entrySize, h.entryCount)
    ensures r == GptRows(h, bytes, h.entryCount)
  {
    hide GptEntry;
    var ps: seq<Partition> := [];
    for i := 0 to h.entryCount
      invariant GptRows(h, bytes, i) == Ok(ps)
    {
      assert Room(i, h.entrySize) <= |bytes|;
      var e := GptEntry(h, Chunk(bytes, h.entrySize, i), i + 1);
      if e.Err? {
        GptRowsFail(h, bytes, i + 1, h.entryCount);
        return Err(e.error);
      }
      if e.value.Some? {
        ps := ps + [e.value.value];
      }
    }
    r := Ok(ps);
  }

  // ---------- devices ----------

  /** Bytes of a device, read in whole sectors; the device has `|bytes| / size` of them. */
  function ReadAt(bytes: seq<byte>, start: nat, length: nat): Result<seq<byte>> {
    if start + length > |bytes| then Err(OutOfBounds) else Ok(bytes[start..start + length])
  }

  function SectorsFor(length: nat, size: nat): nat
    requires size > 0
  {
    (length + (size - 1)) / size
  }

  lemma {:induction false} SectorsCover(length: nat, size: nat)
    requires size > 0
    ensures length <= SectorsFor(length, size) * size < length + size
  {
    DivMod(length + (size - 1), size);
  }

  lemma {:induction false} ArrayHolds(h: GptHeader, bytes: seq<byte>)
    requires h.entryCount * h.entrySize <= |bytes|
    ensures Holds(bytes, h.entrySize, h.entryCount)
  {
    forall i: nat | i < h.entryCount ensures Room(i, h.entrySize) <= |bytes| {
      MulStep(i, h.entryCount, h.entrySize);
    }
  }

  predicate Placed(h: GptHeader, sectors: nat, size: nat)
    requires size > 0
  {
    && h.current == 1 && h.backup < sectors && h.lastUsable < sectors && h.entriesLba >= 2
    && h.entriesLba + SectorsFor(h.entryCount * h.entrySize, size) <= Min(sectors, h.firstUsable)
  }

  /** The table behind a header that was accepted. */
  function GptBehind(bytes: seq<byte>, size: nat, h: GptHeader): Result<Table>
    requires size > 0 && h.entrySize >= 128
  {
    var length := h.entryCount * h.entrySize;
    if !Placed(h, |bytes| / size, size) then Err(InvalidGpt)
    else
      match ReadAt(bytes, h.entriesLba * size, SectorsFor(length, size) * size)
      case Err(e) => Err(e)
      case Ok(all) =>
        SectorsCover(length, size);
        if Crc32(all[..length]) != h.entriesCrc then Err(ChecksumMismatch)
        else
          ArrayHolds(h, all);
          Checked(Gpt, Some(h.disk), GptRows(h, all, h.entryCount))
  }

  function GptTable(bytes: seq<byte>, size: nat): Result<Table>
    requires size > 0
  {
    match ReadAt(bytes, size, size)
    case Err(e) => Err(e)
    case Ok(sector) =>
      match HeaderOf(sector)
      case Err(e) => Err(e)
      case Ok(h) => GptBehind(bytes, size, h)
  }

  method ReadGpt(bytes: seq<byte>, size: nat) returns (r: Result<Table>)
    requires size > 0
    ensures r == GptTable(bytes, size)
  {
    hide Crc32, GptRows, Checked, SectorsFor, Holds, HeaderOf, HeaderOk;
    var sector := ReadAt(bytes, size, size);
    if sector.Err? {
      return Err(sector.error);
    }
    var header := ParseGptHeader(sector.value);
    if header.Err? {
      return Err(header.error);
    }
    var h := header.value;
    AcceptedHeader(sector.value);
    var length := h.entryCount * h.entrySize;
    if !Placed(h, |bytes| / size, size) {
      return Err(InvalidGpt);
    }
    var all := ReadAt(bytes, h.entriesLba * size, SectorsFor(length, size) * size);
    if all.Err? {
      return Err(all.error);
    }
    SectorsCover(length, size);
    if Crc32(all.value[..length]) != h.entriesCrc {
      return Err(ChecksumMismatch);
    }
    ArrayHolds(h, all.value);
    var ps := ReadEntries(h, all.value);
    r := Finish(h, ps);
  }

  method Finish(h: GptHeader, ps: Result<seq<Partition>>) returns (r: Result<Table>)
    ensures r == Checked(Gpt, Some(h.disk), ps)
  {
    if ps.Err? {
      return Err(ps.error);
    }
    var c := ValidateNoOverlap(ps.value);
    r := if c.Err? then Err(c.error) else Ok(Table(Gpt, Some(h.disk), ps.value));
  }

  lemma AcceptedHeader(s: seq<byte>)
    requires HeaderOf(s).Ok?
    ensures HeaderOk(0x1_0000, HeaderOf(s).value) && HeaderOf(s).value.entrySize >= 128
  {
    hide Crc32, GetU32, GetU64;
  }

  predicate Protective(es: seq<Option<MbrPartition>>) {
    exists i :: 0 <= i < |es| && es[i].Some? && es[i].value.kind == PROTECTIVE
  }

  /** What `read_partition_table` makes of a device. */
  function TableOf(bytes: seq<byte>, size: nat): Result<Table> {
    if size < 512 then Err(UnsupportedSectorSize)
    else
      match ReadAt(bytes, 0, size)
      case Err(e) => Err(e)
      case Ok(sector) =>
        match MbrOf(sector)
        case Err(e) => Err(e)
        case Ok(es) =>
          if Protective(es) then GptTable(bytes, size)
          else Checked(Mbr, None, MbrRows(es, |bytes| / size, |es|))
  }

  method ReadPartitionTable(bytes: seq<byte>, size: nat) returns (r: Result<Table>)
    ensures r == TableOf(bytes, size)
  {
    hide MbrOf, GptTable, MbrRows, Checked;
    if size < 512 {
      return Err(UnsupportedSectorSize);
    }
    var sector := ReadAt(bytes, 0, size);
    if sector.Err? {
      return Err(sector.error);
    }
    var mbr := ParseMbr(sector.value);
    if mbr.Err? {
      return Err(mbr.error);
    }
    var es := mbr.value;
    if Protective(es) {
      r := ReadGpt(bytes, size);
    } else {
      r := ReadMbrTable(|bytes| / size, es);
    }
  }

  // ---------- what is accepted ----------

  /** Partitions in slot order, none empty, none touching another, all behind `low` and before `high`. */
  predicate Sound(ps: seq<Partition>, low: nat, high: nat) {
    && Disjoint(ps)
    && (forall i :: 0 <= i < |ps| ==> low <= ps[i].first && 0 < ps[i].count && ps[i].first + ps[i].count <= high)
    && forall i, j :: 0 <= i < j < |ps| ==> ps[i].index < ps[j].index
  }

  predicate Spread(ps: seq<Partition>, k: nat, low: nat, high: nat) {
    && (forall i :: 0 <= i < |ps| ==> low <= ps[i].first && 0 < ps[i].count && ps[i].first + ps[i].count <= high)
    && (forall i :: 0 <= i < |ps| ==> 0 < ps[i].index <= k)
    && forall i, j :: 0 <= i < j < |ps| ==> ps[i].index < ps[j].index
  }

  lemma SpreadNext(ps: seq<Partition>, k: nat, low: nat, high: nat, p: Partition)
    requires Spread(ps, k, low, high) && p.index == k + 1 && low <= p.first && 0 < p.count && p.first + p.count <= high
    ensures Spread(ps + [p], k + 1, low, high)
  {
  }

  lemma SpreadMore(ps: seq<Partition>, k: nat, low: nat, high: nat)
    requires Spread(ps, k, low, high)
    ensures Spread(ps, k + 1, low, high)
  {
  }

  lemma {:induction false} MbrRowsSpread(es: seq<Option<MbrPartition>>, sectors: nat, k: nat)
    requires k <= |es| && MbrRows(es, sectors, k).Ok?
    ensures Spread(MbrRows(es, sectors, k).value, k, 1, sectors)
  {
    hide Spread;
    if k == 0 {
      NothingSpread(1, sectors);
    } else {
      MbrRowsSpread(es, sectors, k - 1);
      var ps := MbrRows(es, sectors, k - 1).value;
      match es[k - 1]
      case None => SpreadMore(ps, k - 1, 1, sectors);
      case Some(e) => SpreadNext(ps, k - 1, 1, sectors, MbrRow(e, k));
    }
  }

  lemma NothingSpread(low: nat, high: nat)
    ensures Spread([], 0, low, high)
  {
  }

  lemma {:induction false} GptRowsSpread(h: GptHeader, bytes: seq<byte>, k: nat)
    requires h.entrySize >= 128 && Holds(bytes, h.entrySize, k) && GptRows(h, bytes, k).Ok?
    ensures Spread(GptRows(h, bytes, k).value, k, h.firstUsable, h.lastUsable + 1)
  {
    hide Spread, GetU64, Shown, UnitsOf, ZeroGuid;
    if k == 0 {
      NothingSpread(h.firstUsable, h.lastUsable + 1);
    } else {
      GptRowsSpread(h, bytes, k - 1);
      var ps := GptRows(h, bytes, k - 1).value;
      assert Room(k - 1, h.entrySize) <= |bytes|;
      match GptEntry(h, Chunk(bytes, h.entrySize, k - 1), k).value
      case None => SpreadMore(ps, k - 1, h.firstUsable, h.lastUsable + 1);
      case Some(p) => SpreadNext(ps, k - 1, h.firstUsable, h.lastUsable + 1, p);
    }
  }

  lemma {:induction false} CheckedSound(kind: TableKind, disk: Option<Guid>, ps: seq<Partition>, k: nat, low: nat, high: nat)
    requires Spread(ps, k, low, high) && Checked(kind, disk, Ok(ps)).Ok?
    ensures Sound(ps, low, high) && Checked(kind, disk, Ok(ps)).value == Table(kind, disk, ps)
  {
  }

  lemma SoundWithin(ps: seq<Partition>, low: nat, high: nat, l: nat, h: nat)
    requires Sound(ps, low, high) && l <= low && high <= h
    ensures Sound(ps, l, h)
  {
  }

  /**
    Whatever the device holds, a table that is accepted describes partitions in slot
    order that are disjoint and inside the disk: behind the boot sector for an MBR,
    behind the entry array for a GPT.
   */
  lemma {:induction false} AcceptedSound(bytes: seq<byte>, size: nat)
    requires TableOf(bytes, size).Ok?
    ensures size >= 512
    ensures Sound(TableOf(bytes, size).value.partitions, if TableOf(bytes, size).value.kind == Mbr then 1 else 3, |bytes| / size)
  {
    hide MbrOf, GptTable, MbrRows, Sound, Spread;
    var es := MbrOf(ReadAt(bytes, 0, size).value).value;
    if Protective(es) {
      GptSound(bytes, size);
    } else {
      MbrRowsSpread(es, |bytes| / size, |es|);
      CheckedSound(Mbr, None, MbrRows(es, |bytes| / size, |es|).value, |es|, 1, |bytes| / size);
    }
  }

  lemma {:induction false} GptSound(bytes: seq<byte>, size: nat)
    requires size > 0 && GptTable(bytes, size).Ok?
    ensures GptTable(bytes, size).value.kind == Gpt
    ensures Sound(GptTable(bytes, size).value.partitions, 3, |bytes| / size)
  {
    hide HeaderOf, HeaderOk, Crc32, GptRows, Sound, Spread, Holds, SectorsFor;
    var sector := ReadAt(bytes, size, size).value;
    var h := HeaderOf(sector).value;
    AcceptedHeader(sector);
    var length := h.entryCount * h.entrySize;
    var all := ReadAt(bytes, h.entriesLba * size, SectorsFor(length, size) * size).value;
    SectorsCover(length, size);
    ArrayHolds(h, all);
    GptRowsSpread(h, all, h.entryCount);
    var ps := GptRows(h, all, h.entryCount).value;
    CheckedSound(Gpt, Some(h.disk), ps, h.entryCount, h.firstUsable, h.lastUsable + 1);
    assert h.firstUsable >= 3 by { SomeSectors(h, size); }
    SoundWithin(ps, h.firstUsable, h.lastUsable + 1, 3, |bytes| / size);
  }

  lemma SomeSectors(h: GptHeader, size: nat)
    requires size > 0 && HeaderOk(0x1_0000, h) && h.entrySize >= 128
    ensures SectorsFor(h.entryCount * h.entrySize, size) >= 1
  {
    MulMono(1, h.entryCount, h.entrySize);
    SectorsCover(h.entryCount * h.entrySize, size);
    if SectorsFor(h.entryCount * h.entrySize, size) == 0 {
      assert false;
    }
  }
}
