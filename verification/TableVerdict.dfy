/**
  Which partition tables are accepted, from whatever wrote them, and what is read
  from them, said of the bytes of the disk.
 */
module TableVerdict {
  import opened Arithmetic
  import opened Bytes
  import opened GptName
  import opened Partitions

  // ---------- MBR ----------

  /** A slot of the boot sector: its status, type, first sector and number of sectors. */
  predicate SlotIs(bytes: seq<byte>, i: nat, status: byte, kind: byte, first: u32, count: u32) {
    && 510 <= |bytes| && i < 4
    && bytes[446 + 16 * i] == status && bytes[450 + 16 * i] == kind
    && GetU32(bytes, 454 + 16 * i) == first && GetU32(bytes, 458 + 16 * i) == count
  }

  predicate Marked(status: byte) {
    status == 0 || status == 0x80
  }

  ghost predicate Unused(bytes: seq<byte>, i: nat) {
    exists status: byte, first: u32 :: Marked(status) && SlotIs(bytes, i, status, 0, first, 0)
  }

  /** The slot describes a partition `p` of an ordinary type. */
  ghost predicate Describes(bytes: seq<byte>, i: nat, p: Partition) {
    exists status: byte, kind: byte ::
      && Marked(status) && kind != 0 && kind != 0xee && 0 < p.first < 0x1_0000_0000 && 0 < p.count < 0x1_0000_0000
      && SlotIs(bytes, i, status, kind, p.first, p.count)
      && p == Partition(i + 1, p.first, p.count, status == 0x80, Some(kind), None, None, 0, "")
  }

  ghost predicate DescribesOne(bytes: seq<byte>, i: nat, sectors: nat) {
    exists p: Partition :: Describes(bytes, i, p) && p.first + p.count <= sectors
  }

  ghost predicate SlotOk(bytes: seq<byte>, i: nat, sectors: nat) {
    Unused(bytes, i) || DescribesOne(bytes, i, sectors)
  }

  /** What the reader makes of a slot. */
  lemma {:induction false} SlotRead(bytes: seq<byte>, size: nat, i: nat)
    requires 512 <= size <= |bytes| && i < 4
    ensures var e := MbrEntry(MbrSlot(bytes[0..size], i));
      && (e == Ok(None) <==> Unused(bytes, i))
      && (e.Ok? && e.value.Some? && e.value.value.first > 0 && e.value.value.kind != 0xee ==>
        Describes(bytes, i, MbrRow(e.value.value, i + 1)))
      && (forall p: Partition :: Describes(bytes, i, p) ==> e.Ok? && e.value.Some? && e.value.value.kind != 0xee && p == MbrRow(e.value.value, i + 1))
  {
    hide GetU32;
    var s := bytes[0..size];
    var e := MbrSlot(s, i);
    assert e == bytes[446 + 16 * i..462 + 16 * i];
    Word(bytes, 446 + 16 * i, 8);
    Word(bytes, 446 + 16 * i, 12);
    assert SlotIs(bytes, i, e[0], e[4], GetU32(e, 8), GetU32(e, 12));
  }

  lemma Word(bytes: seq<byte>, at: nat, k: nat)
    requires at + 16 <= |bytes| && k + 4 <= 16
    ensures GetU32(bytes[at..at + 16], k) == GetU32(bytes, at + k)
  {
    var a, b := bytes[at..at + 16][k..k + 4], bytes[at + k..at + k + 4];
    assert forall j :: 0 <= j < 4 ==> a[j] == bytes[at + k + j] == b[j];
    assert a == b;
  }

  lemma {:induction false} EntriesRead(sector: seq<byte>, k: nat)
    requires |sector| >= 512 && k <= 4
    ensures MbrEntries(sector, k).Ok? <==> forall i: nat :: i < k ==> MbrEntry(MbrSlot(sector, i)).Ok?
    ensures MbrEntries(sector, k).Err? ==> MbrEntries(sector, k).error == InvalidMbr
    ensures MbrEntries(sector, k).Ok? ==>
              var es := MbrEntries(sector, k).value;
              |es| == k && forall i: nat :: i < k ==> MbrEntry(MbrSlot(sector, i)) == Ok(es[i])
  {
    hide MbrEntry, MbrSlot;
    if k > 0 {
      EntriesRead(sector, k - 1);
      EntryError(MbrSlot(sector, k - 1));
    }
  }

  lemma EntryError(e: seq<byte>)
    requires |e| == 16
    ensures MbrEntry(e).Err? ==> MbrEntry(e).error == InvalidMbr
  {
  }

  /** An entry that can be listed. */
  predicate Listable(e: Option<MbrPartition>, sectors: nat) {
    e.Some? ==> e.value.kind != 0xee && InDisk(e.value.first, e.value.count, sectors)
  }

  predicate ListedAs(es: seq<Option<MbrPartition>>, i: nat, p: Partition) {
    i < |es| && es[i].Some? && p == MbrRow(es[i].value, i + 1)
  }

  lemma {:induction false} RowsListed(es: seq<Option<MbrPartition>>, sectors: nat, k: nat)
    requires k <= |es|
    ensures MbrRows(es, sectors, k).Ok? <==> forall i: nat :: i < k ==> Listable(es[i], sectors)
    ensures MbrRows(es, sectors, k).Ok? ==>
              forall p: Partition :: p in MbrRows(es, sectors, k).value <==> exists i: nat :: i < k && ListedAs(es, i, p)
  {
    hide InDisk;
    if k > 0 {
      RowsListed(es, sectors, k - 1);
      var last := k - 1;
      if MbrRows(es, sectors, k).Ok? {
        var ps, before := MbrRows(es, sectors, k).value, MbrRows(es, sectors, k - 1).value;
        forall p: Partition ensures p in ps <==> exists i: nat :: i < k && ListedAs(es, i, p) {
          assert p in ps <==> p in before || ListedAs(es, last, p);
        }
      }
    }
  }

  ghost predicate Separate(bytes: seq<byte>) {
    forall i: nat, j: nat, p: Partition, q: Partition ::
      i < j && Describes(bytes, i, p) && Describes(bytes, j, q) ==> Apart(p, q)
  }

  /** What is listed is what the slots describe. */
  ghost predicate ListsSlots(bytes: seq<byte>, ps: seq<Partition>) {
    forall p: Partition :: p in ps <==> exists i: nat :: Describes(bytes, i, p)
  }

  lemma {:induction false} DisjointIff(bytes: seq<byte>, ps: seq<Partition>, k: nat, sectors: nat)
    requires ListsSlots(bytes, ps) && Spread(ps, k, 1, sectors)
    ensures Disjoint(ps) <==> Separate(bytes)
  {
    hide SlotIs;
    if Separate(bytes) {
      forall a, b | 0 <= a < b < |ps| ensures Apart(ps[a], ps[b]) {
        assert ps[a] in ps && ps[b] in ps;
        var i: nat :| Describes(bytes, i, ps[a]);
        var j: nat :| Describes(bytes, j, ps[b]);
        assert ps[a].index == i + 1 && ps[b].index == j + 1;
      }
    }
    if Disjoint(ps) {
      forall i: nat, j: nat, p: Partition, q: Partition | i < j && Describes(bytes, i, p) && Describes(bytes, j, q)
        ensures Apart(p, q)
      {
        assert p in ps && q in ps;
        var a :| 0 <= a < |ps| && ps[a] == p;
        var b :| 0 <= b < |ps| && ps[b] == q;
        assert p.index == i + 1 && q.index == j + 1 && a != b;
      }
    }
  }

  predicate Signature(bytes: seq<byte>) {
    |bytes| >= 512 && bytes[510] == 0x55 && bytes[511] == 0xaa
  }

  lemma SignedIff(bytes: seq<byte>, size: nat)
    requires 512 <= size <= |bytes|
    ensures Signed(bytes[0..size]) <==> Signature(bytes)
  {
    assert bytes[0..size][510..512] == [bytes[510], bytes[511]];
  }

  ghost predicate MbrOk(bytes: seq<byte>, sectors: nat) {
    Signature(bytes) && (forall i: nat :: i < 4 ==> SlotOk(bytes, i, sectors)) && Separate(bytes)
  }

  lemma {:induction false} SlotsListed(bytes: seq<byte>, size: nat, es: seq<Option<MbrPartition>>)
    requires 512 <= size <= |bytes| && MbrEntries(bytes[0..size], 4) == Ok(es)
    ensures (forall i: nat :: i < 4 ==> SlotOk(bytes, i, |bytes| / size)) <==> MbrRows(es, |bytes| / size, |es|).Ok?
    ensures MbrRows(es, |bytes| / size, |es|).Ok? ==> ListsSlots(bytes, MbrRows(es, |bytes| / size, |es|).value)
  {
    hide MbrEntry, MbrSlot, MbrEntries, MbrRows, Unused, Describes;
    var n := |bytes| / size;
    EntriesRead(bytes[0..size], 4);
    RowsListed(es, n, 4);
    forall i: nat | i < 4 ensures SlotOk(bytes, i, n) <==> Listable(es[i], n) {
      SlotListable(bytes, size, es[i], i);
    }
    if MbrRows(es, n, 4).Ok? {
      forall p: Partition, i: nat ensures ListedAs(es, i, p) <==> Describes(bytes, i, p) {
        if i < 4 {
          SlotListable(bytes, size, es[i], i);
        } else {
          DescribesSlot(bytes, i, p);
        }
      }
    }
  }

  lemma DescribesSlot(bytes: seq<byte>, i: nat, p: Partition)
    ensures Describes(bytes, i, p) ==> i < 4
  {
  }

  lemma {:induction false} SlotListable(bytes: seq<byte>, size: nat, e: Option<MbrPartition>, i: nat)
    requires 512 <= size <= |bytes| && i < 4 && MbrEntry(MbrSlot(bytes[0..size], i)) == Ok(e)
    ensures SlotOk(bytes, i, |bytes| / size) <==> Listable(e, |bytes| / size)
    ensures Listable(e, |bytes| / size) ==> forall p: Partition :: Describes(bytes, i, p) <==> e.Some? && p == MbrRow(e.value, i + 1)
  {
    hide MbrEntry, MbrSlot, Unused, Describes;
    SlotRead(bytes, size, i);
    SlotCounts(bytes, i);
  }

  lemma SlotCounts(bytes: seq<byte>, i: nat)
    ensures forall p: Partition :: Describes(bytes, i, p) ==> p.first > 0 && p.count > 0
  {
  }

  lemma {:induction false} SlotsEntered(bytes: seq<byte>, size: nat, i: nat)
    requires 512 <= size <= |bytes| && i < 4 && SlotOk(bytes, i, |bytes| / size)
    ensures MbrEntry(MbrSlot(bytes[0..size], i)).Ok?
  {
    hide MbrEntry, MbrSlot, Unused, Describes;
    SlotRead(bytes, size, i);
  }

  lemma {:induction false} ProtectiveUnlisted(es: seq<Option<MbrPartition>>, sectors: nat)
    requires MbrRows(es, sectors, |es|).Ok?
    ensures !Protective(es)
  {
    hide MbrRows, InDisk;
    RowsListed(es, sectors, |es|);
    assert forall i: nat :: i < |es| ==> Listable(es[i], sectors);
  }

  /** The table of entries that were read. */
  lemma {:induction false} EntriesAccepted(bytes: seq<byte>, size: nat, es: seq<Option<MbrPartition>>)
    requires 512 <= size <= |bytes| && MbrEntries(bytes[0..size], 4) == Ok(es)
    ensures var r := Checked(Mbr, None, MbrRows(es, |bytes| / size, |es|));
      && (r.Ok? <==> (forall i: nat :: i < 4 ==> SlotOk(bytes, i, |bytes| / size)) && Separate(bytes))
      && (r.Ok? ==> ListsSlots(bytes, r.value.partitions))
  {
    hide MbrEntries, MbrRows, SlotOk, Spread, Disjoint, Separate, ListsSlots;
    var n := |bytes| / size;
    SlotsListed(bytes, size, es);
    if MbrRows(es, n, |es|).Ok? {
      MbrRowsSpread(es, n, |es|);
      DisjointIff(bytes, MbrRows(es, n, |es|).value, |es|, n);
    }
  }

  /** An MBR is accepted exactly if each slot is unused or describes a range of the disk, and no two of these meet. */
  lemma {:induction false} MbrAccepted(bytes: seq<byte>, size: nat)
    requires 512 <= size <= |bytes|
    ensures var r := TableOf(bytes, size);
      && (r.Ok? && r.value.kind == Mbr <==> MbrOk(bytes, |bytes| / size))
      && (r.Ok? && r.value.kind == Mbr ==> ListsSlots(bytes, r.value.partitions))
  {
    hide MbrEntries, MbrRows, GptTable, SlotOk, Separate, ListsSlots, Checked, Protective;
    var s, n := bytes[0..size], |bytes| / size;
    SignedIff(bytes, size);
    EntriesRead(s, 4);
    forall i: nat | i < 4 && SlotOk(bytes, i, n) ensures MbrEntry(MbrSlot(s, i)).Ok? {
      SlotsEntered(bytes, size, i);
    }
    if Signed(s) && MbrEntries(s, 4).Ok? {
      var es := MbrEntries(s, 4).value;
      EntriesAccepted(bytes, size, es);
      CheckedMbr(MbrRows(es, n, |es|));
      if Protective(es) {
        if GptTable(bytes, size).Ok? {
          GptSound(bytes, size);
        }
        if MbrRows(es, n, |es|).Ok? {
          ProtectiveUnlisted(es, n);
        }
      }
    }
  }

  lemma CheckedMbr(ps: Result<seq<Partition>>)
    ensures Checked(Mbr, None, ps).Ok? ==> ps.Ok? && Checked(Mbr, None, ps).value.kind == Mbr
  {
  }

  // ---------- GPT ----------

  /** The entry is unused: its type is zero. */
  predicate Blank(e: seq<byte>) {
    |e| >= 128 && forall k :: 0 <= k < 16 ==> e[k] == 0
  }

  /** The entry, number `i` from 0, describes `p`: some type, some identifier, sectors in the usable range. */
  ghost predicate EntryDescribes(h: GptHeader, e: seq<byte>, i: nat, p: Partition) {
    && |e| >= 128 && (exists k :: 0 <= k < 16 && e[k] != 0) && (exists k :: 16 <= k < 32 && e[k] != 0)
    && GetU64(e, 32) == p.first && GetU64(e, 40) == p.first + p.count - 1 && p.count > 0
    && h.firstUsable <= p.first && p.first + p.count - 1 <= h.lastUsable
    && p == Partition(i + 1, p.first, p.count, false, None, Some(e[0..16]), Some(e[16..32]), GetU64(e, 48), Shown(UnitsOf(e[56..128])))
  }

  lemma {:induction false} EntryRead(h: GptHeader, e: seq<byte>, i: nat)
    requires |e| >= 128
    ensures GptEntry(h, e, i + 1) == Ok(None) <==> Blank(e)
    ensures forall p: Partition :: GptEntry(h, e, i + 1) == Ok(Some(p)) <==> EntryDescribes(h, e, i, p)
  {
    hide GetU64, Shown, UnitsOf;
    var kind: Guid, unique: Guid := e[0..16], e[16..32];
    assert ZeroGuid(kind) <==> Blank(e);
    assert ZeroGuid(unique) <==> forall k :: 16 <= k < 32 ==> e[k] == 0 by {
      assert forall k :: 16 <= k < 32 ==> e[k] == unique[k - 16];
      assert forall k :: 0 <= k < 16 ==> unique[k] == e[16 + k];
    }
  }

  /** Entry `i` of an array of entries. */
  ghost predicate ArrayDescribes(h: GptHeader, all: seq<byte>, i: nat, p: Partition) {
    i * h.entrySize + h.entrySize <= |all| && EntryDescribes(h, Chunk(all, h.entrySize, i), i, p)
  }

  ghost predicate ArrayBlank(h: GptHeader, all: seq<byte>, i: nat) {
    i * h.entrySize + h.entrySize <= |all| && Blank(Chunk(all, h.entrySize, i))
  }

  ghost predicate ArrayOk(h: GptHeader, all: seq<byte>, i: nat) {
    ArrayBlank(h, all, i) || exists p: Partition :: ArrayDescribes(h, all, i, p)
  }

  lemma {:induction false} ArrayRead(h: GptHeader, all: seq<byte>, i: nat)
    requires h.entrySize >= 128 && Room(i, h.entrySize) <= |all|
    ensures var r := GptEntry(h, Chunk(all, h.entrySize, i), i + 1);
      && (r.Ok? <==> ArrayOk(h, all, i)) && (r == Ok(None) <==> ArrayBlank(h, all, i))
      && forall p: Partition :: r == Ok(Some(p)) <==> ArrayDescribes(h, all, i, p)
  {
    hide GptEntry, Blank, EntryDescribes;
    EntryRead(h, Chunk(all, h.entrySize, i), i);
    var r := GptEntry(h, Chunk(all, h.entrySize, i), i + 1);
    assert r.Ok? && r.value.Some? ==> ArrayDescribes(h, all, i, r.value.value);
  }

  lemma {:induction false} GptRowsListed(h: GptHeader, all: seq<byte>, k: nat)
    requires h.entrySize >= 128 && Holds(all, h.entrySize, k)
    ensures GptRows(h, all, k).Ok? <==> forall i: nat :: i < k ==> ArrayOk(h, all, i)
    ensures GptRows(h, all, k).Ok? ==>
              forall p: Partition :: p in GptRows(h, all, k).value <==> exists i: nat :: i < k && ArrayDescribes(h, all, i, p)
  {
    hide GptEntry, Chunk, ArrayOk, ArrayBlank, ArrayDescribes;
    if k > 0 {
      var last := k - 1;
      assert Room(last, h.entrySize) <= |all|;
      GptRowsListed(h, all, last);
      ArrayRead(h, all, last);
      if GptRows(h, all, k).Ok? {
        var ps, before := GptRows(h, all, k).value, GptRows(h, all, last).value;
        forall p: Partition ensures p in ps <==> exists i: nat :: i < k && ArrayDescribes(h, all, i, p) {
          assert p in ps <==> p in before || ArrayDescribes(h, all, last, p);
        }
      }
    }
  }

  lemma {:induction false} RowsPrefix(h: GptHeader, a: seq<byte>, b: seq<byte>, k: nat)
    requires h.entrySize >= 128 && a <= b && Holds(a, h.entrySize, k)
    ensures Holds(b, h.entrySize, k) && GptRows(h, a, k) == GptRows(h, b, k)
  {
    hide GptEntry, Chunk;
    if k > 0 {
      RowsPrefix(h, a, b, k - 1);
      assert Room(k - 1, h.entrySize) <= |a|;
      ChunkPrefix(a, b, k - 1, h.entrySize);
    }
  }

  lemma ChunkPrefix(a: seq<byte>, b: seq<byte>, i: nat, size: nat)
    requires a <= b && Room(i, size) <= |a|
    ensures Chunk(a, size, i) == Chunk(b, size, i)
  {
    var at := i * size;
    assert a[at..at + size] == b[at..at + size];
  }

  ghost predicate ArraySeparate(h: GptHeader, all: seq<byte>) {
    forall i: nat, j: nat, p: Partition, q: Partition ::
      i < j < h.entryCount && ArrayDescribes(h, all, i, p) && ArrayDescribes(h, all, j, q) ==> Apart(p, q)
  }

  ghost predicate ListsEntries(h: GptHeader, all: seq<byte>, ps: seq<Partition>) {
    forall p: Partition :: p in ps <==> exists i: nat :: i < h.entryCount && ArrayDescribes(h, all, i, p)
  }

  lemma {:induction false} ArrayDisjointIff(h: GptHeader, all: seq<byte>, ps: seq<Partition>)
    requires ListsEntries(h, all, ps) && Spread(ps, h.entryCount, h.firstUsable, h.lastUsable + 1)
    ensures Disjoint(ps) <==> ArraySeparate(h, all)
  {
    hide Chunk, EntryDescribes;
    forall i: nat, p: Partition | ArrayDescribes(h, all, i, p) ensures p.index == i + 1 { EntryNumber(h, all, i, p); }
    if ArraySeparate(h, all) {
      forall a, b | 0 <= a < b < |ps| ensures Apart(ps[a], ps[b]) {
        assert ps[a] in ps && ps[b] in ps;
        var i: nat :| i < h.entryCount && ArrayDescribes(h, all, i, ps[a]);
        var j: nat :| j < h.entryCount && ArrayDescribes(h, all, j, ps[b]);
      }
    }
    if Disjoint(ps) {
      forall i: nat, j: nat, p: Partition, q: Partition
        | i < j < h.entryCount && ArrayDescribes(h, all, i, p) && ArrayDescribes(h, all, j, q)
        ensures Apart(p, q)
      {
        assert p in ps && q in ps;
        var a :| 0 <= a < |ps| && ps[a] == p;
        var b :| 0 <= b < |ps| && ps[b] == q;
        assert a != b;
      }
    }
  }

  lemma EntryNumber(h: GptHeader, all: seq<byte>, i: nat, p: Partition)
    ensures ArrayDescribes(h, all, i, p) ==> p.index == i + 1
  {
    hide Chunk, GetU64, Shown, UnitsOf;
  }

  /** A header that can be trusted: signature, revision, checksum, and ranges inside a disk of that many sectors. */
  predicate HeaderGood(s: seq<byte>, h: GptHeader, sectors: nat) {
    && |s| >= 92 && s[0..8] == [0x45, 0x46, 0x49, 0x20, 0x50, 0x41, 0x52, 0x54] && GetU32(s, 8) == 0x1_0000
    && 92 <= GetU32(s, 12) <= |s| && Crc32(Unsealed(s[..GetU32(s, 12)])) == GetU32(s, 16) && h == RawHeader(s)
    && h.current == 1 && 1 != h.backup < sectors && h.firstUsable <= h.lastUsable < sectors
    && 1 <= h.entryCount <= 4096 && 128 <= h.entrySize <= 4096 && h.entrySize % 8 == 0 && h.entriesLba >= 2
  }

  /** The array ends before the usable sectors and the disk do. */
  predicate ArrayFits(h: GptHeader, sectors: nat, size: nat) {
    h.entriesLba * size + h.entryCount * h.entrySize <= Min(sectors, h.firstUsable) * size
  }

  lemma {:induction false} ArrayFitsIff(h: GptHeader, sectors: nat, size: nat)
    requires size > 0
    ensures ArrayFits(h, sectors, size) <==> h.entriesLba + SectorsFor(h.entryCount * h.entrySize, size) <= Min(sectors, h.firstUsable)
  {
    hide SectorsFor;
    var length, m, k := h.entryCount * h.entrySize, Min(sectors, h.firstUsable), h.entriesLba;
    var n := SectorsFor(length, size);
    SectorsCover(length, size);
    assert (k + n) * size == k * size + n * size;
    if k + n <= m {
      MulMono(k + n, m, size);
    } else {
      MulStep(m, k + n, size);
    }
  }

  ghost predicate ArrayGood(h: GptHeader, all: seq<byte>) {
    Crc32(all) == h.entriesCrc && (forall i: nat :: i < h.entryCount ==> ArrayOk(h, all, i)) && ArraySeparate(h, all)
  }

  /** The entries are accepted exactly if each is unused or describes usable sectors, and no two of these meet. */
  lemma {:induction false} ArrayAccepted(h: GptHeader, all: seq<byte>)
    requires h.entrySize >= 128 && |all| == h.entryCount * h.entrySize && Holds(all, h.entrySize, h.entryCount)
    ensures var r := Checked(Gpt, Some(h.disk), GptRows(h, all, h.entryCount));
      && (r.Ok? <==> (forall i: nat :: i < h.entryCount ==> ArrayOk(h, all, i)) && ArraySeparate(h, all))
      && (r.Ok? ==> r.value.kind == Gpt && r.value.disk == Some(h.disk) && ListsEntries(h, all, r.value.partitions))
  {
    hide GptRows, ArrayOk, ArrayDescribes, ArraySeparate, Spread, Disjoint, Holds;
    GptRowsListed(h, all, h.entryCount);
    if GptRows(h, all, h.entryCount).Ok? {
      GptRowsSpread(h, all, h.entryCount);
      ArrayDisjointIff(h, all, GptRows(h, all, h.entryCount).value);
    }
  }

  lemma {:induction false} HeaderReads(s: seq<byte>, h: GptHeader, sectors: nat, size: nat)
    requires size > 0
    ensures HeaderOf(s) == Ok(h) && Placed(h, sectors, size) <==> HeaderGood(s, h, sectors) && ArrayFits(h, sectors, size)
  {
    hide Crc32, GetU32, GetU64, SectorsFor, ArrayFits;
    ArrayFitsIff(h, sectors, size);
  }

  /** The bytes of the entry array. */
  function ArrayBytes(bytes: seq<byte>, size: nat, h: GptHeader): seq<byte> {
    var at, length := h.entriesLba * size, h.entryCount * h.entrySize;
    if at + length <= |bytes| then bytes[at..at + length] else []
  }

  lemma ArrayInside(length: nat, size: nat, k: nat, n: nat)
    requires size > 0 && k + n <= length / size
    ensures k * size + n * size <= length
  {
    DivMod(length, size);
    MulMono(k + n, length / size, size);
    assert (k + n) * size == k * size + n * size;
  }

  /** The array as it is read, in whole sectors. */
  lemma {:induction false} ArrayIsRead(bytes: seq<byte>, size: nat, h: GptHeader)
    requires size > 0 && h.entrySize >= 128 && Placed(h, |bytes| / size, size)
    ensures var read := ReadAt(bytes, h.entriesLba * size, SectorsFor(h.entryCount * h.entrySize, size) * size);
      && read.Ok? && h.entryCount * h.entrySize <= |read.value| && Holds(read.value, h.entrySize, h.entryCount)
      && read.value[..h.entryCount * h.entrySize] == ArrayBytes(bytes, size, h)
      && |ArrayBytes(bytes, size, h)| == h.entryCount * h.entrySize
  {
    hide SectorsFor, Holds, ReadAt, Placed;
    var at, length := h.entriesLba * size, h.entryCount * h.entrySize;
    var total := SectorsFor(length, size) * size;
    PlacedInside(|bytes|, size, h);
    SectorsCover(length, size);
    ReadPrefix(bytes, at, total, length);
    ArrayHolds(h, ReadAt(bytes, at, total).value);
  }

  lemma {:induction false} PlacedInside(length: nat, size: nat, h: GptHeader)
    requires size > 0 && Placed(h, length / size, size)
    ensures h.entriesLba * size + SectorsFor(h.entryCount * h.entrySize, size) * size <= length
  {
    hide SectorsFor;
    ArrayInside(length, size, h.entriesLba, SectorsFor(h.entryCount * h.entrySize, size));
  }

  lemma ReadPrefix(bytes: seq<byte>, at: nat, total: nat, length: nat)
    requires at + total <= |bytes| && length <= total
    ensures ReadAt(bytes, at, total).Ok? && |ReadAt(bytes, at, total).value| == total
    ensures ReadAt(bytes, at, total).value[..length] == bytes[at..at + length]
  {
  }

  lemma {:induction false} BehindHeader(bytes: seq<byte>, size: nat, h: GptHeader)
    requires size > 0 && h.entrySize >= 128 && Placed(h, |bytes| / size, size)
    ensures var r, all := GptBehind(bytes, size, h), ArrayBytes(bytes, size, h);
      && (r.Ok? <==> ArrayGood(h, all))
      && (r.Ok? ==> r.value.kind == Gpt && r.value.disk == Some(h.disk) && ListsEntries(h, all, r.value.partitions))
  {
    hide Crc32, GptRows, Checked, SectorsFor, Holds, ListsEntries, ArrayOk, ArraySeparate, Placed, ReadAt, ArrayBytes;
    ArrayIsRead(bytes, size, h);
    var read := ReadAt(bytes, h.entriesLba * size, SectorsFor(h.entryCount * h.entrySize, size) * size).value;
    var all := ArrayBytes(bytes, size, h);
    ArrayHolds(h, all);
    RowsPrefix(h, all, read, h.entryCount);
    ArrayAccepted(h, all);
  }

  /** A GPT is accepted exactly if its header can be trusted and its entries are in order. */
  lemma {:induction false} GptAccepted(bytes: seq<byte>, size: nat)
    requires 512 <= size && 2 * size <= |bytes|
    ensures var r, h, n := GptTable(bytes, size), RawHeader(bytes[size..2 * size]), |bytes| / size;
      && (r.Ok? <==> HeaderGood(bytes[size..2 * size], h, n) && ArrayFits(h, n, size) && ArrayGood(h, ArrayBytes(bytes, size, h)))
      && (r.Ok? ==> r.value.kind == Gpt && r.value.disk == Some(h.disk))
      && (r.Ok? ==> ListsEntries(h, ArrayBytes(bytes, size, h), r.value.partitions))
  {
    hide GptBehind, ArrayGood, ArrayFits, ListsEntries, ArrayBytes, RawHeader, Crc32, GetU32, Placed;
    var s := bytes[size..2 * size];
    var h := RawHeader(s);
    HeaderReads(s, h, |bytes| / size, size);
    assert ReadAt(bytes, size, size) == Ok(s);
    if HeaderOf(s).Ok? {
      assert HeaderOf(s) == Ok(h);
      NotPlaced(bytes, size, h);
      if Placed(h, |bytes| / size, size) {
        BehindHeader(bytes, size, h);
      }
    }
  }

  lemma NotPlaced(bytes: seq<byte>, size: nat, h: GptHeader)
    requires size > 0 && h.entrySize >= 128
    ensures GptBehind(bytes, size, h).Ok? ==> Placed(h, |bytes| / size, size)
  {
    hide Placed, Crc32, GptRows, Checked, ReadAt, SectorsFor;
  }

  /** A slot that describes something, whatever its type. */
  ghost predicate Filled(bytes: seq<byte>, i: nat, kind: byte) {
    exists status: byte, first: u32, count: u32 :: Marked(status) && kind != 0 && count != 0 && SlotIs(bytes, i, status, kind, first, count)
  }

  ghost predicate SlotSane(bytes: seq<byte>, i: nat) {
    Unused(bytes, i) || exists kind: byte :: Filled(bytes, i, kind)
  }

  lemma {:induction false} SlotFilled(bytes: seq<byte>, size: nat, i: nat)
    requires 512 <= size <= |bytes| && i < 4
    ensures var e := MbrEntry(MbrSlot(bytes[0..size], i));
      && (SlotSane(bytes, i) <==> e.Ok?)
      && forall kind: byte :: Filled(bytes, i, kind) <==> e.Ok? && e.value.Some? && e.value.value.kind == kind
  {
    hide GetU32;
    var e := MbrSlot(bytes[0..size], i);
    assert e == bytes[446 + 16 * i..462 + 16 * i];
    Word(bytes, 446 + 16 * i, 8);
    Word(bytes, 446 + 16 * i, 12);
    assert SlotIs(bytes, i, e[0], e[4], GetU32(e, 8), GetU32(e, 12));
    assert Marked(e[0]) && e[4] != 0 && GetU32(e, 12) != 0 ==> Filled(bytes, i, e[4]);
  }

  /** The table behind a protective slot is the GPT; a boot sector that is neither is no table. */
  lemma {:induction false} WhichTable(bytes: seq<byte>, size: nat)
    requires 512 <= size <= |bytes|
    ensures !Signature(bytes) || (exists i: nat :: i < 4 && !SlotSane(bytes, i)) ==> TableOf(bytes, size) == Err(InvalidMbr)
    ensures Signature(bytes) && (forall i: nat :: i < 4 ==> SlotSane(bytes, i)) ==>
              if exists i: nat :: i < 4 && Filled(bytes, i, 0xee) then TableOf(bytes, size) == GptTable(bytes, size)
              else TableOf(bytes, size).Ok? ==> TableOf(bytes, size).value.kind == Mbr
  {
    hide MbrEntry, MbrSlot, MbrEntries, MbrRows, GptTable, SlotSane, Filled, Signed, Signature;
    var s := bytes[0..size];
    SignedIff(bytes, size);
    EntriesRead(s, 4);
    forall i: nat | i < 4
      ensures SlotSane(bytes, i) <==> MbrEntry(MbrSlot(s, i)).Ok?
      ensures var e := MbrEntry(MbrSlot(s, i)); Filled(bytes, i, 0xee) <==> e.Ok? && e.value.Some? && e.value.value.kind == 0xee
    {
      SlotFilled(bytes, size, i);
    }
  }
}
