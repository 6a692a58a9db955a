/**
  Writing partition tables: which layouts are accepted, what the image becomes, and
  that reading it gives the layout back without a byte of any partition changing.
 */
module DiskLayout {
  import opened Bytes
  import opened GptName
  import opened Partitions

  const SECTOR: nat := 512
  const MIN_SECTORS: nat := 131072
  const GPT_ENTRIES: nat := 128
  const ENTRY_BYTES: nat := 128
  const ARRAY_BYTES: nat := 16384
  const FIRST_USABLE: nat := 34

  datatype Role = BiosBoot | EfiSystem | NexFs | Data {
    function TypeGuid(): Guid {
      match this
      case BiosBoot => [0x48, 0x61, 0x68, 0x21, 0x49, 0x64, 0x6f, 0x6e, 0x74, 0x4e, 0x65, 0x65, 0x64, 0x45, 0x46, 0x49]
      case EfiSystem => [0x28, 0x73, 0x2a, 0xc1, 0x1f, 0xf8, 0xd2, 0x11, 0xba, 0x4b, 0x00, 0xa0, 0xc9, 0x3e, 0xc9, 0x3b]
      case NexFs => [0x4e, 0x65, 0x78, 0x46, 0x53, 0x00, 0x10, 0x40, 0x80, 0x00, 0x4e, 0x65, 0x78, 0x4f, 0x53, 0x00]
      case Data => [0xaf, 0x3d, 0xc6, 0x0f, 0x83, 0x84, 0x72, 0x47, 0x8e, 0x79, 0x3d, 0x69, 0xd8, 0x47, 0x7d, 0xe4]
    }

    function MbrType(): byte {
      match this case BiosBoot => 0xda case EfiSystem => 0x0c case NexFs => 0xa9 case Data => 0x83
    }
  }

  datatype Plan = Plan(role: Role, name: string, first: u64, count: u64, unique: Guid, bootable: bool)
  datatype Layout = Layout(kind: TableKind, total: u64, disk: Guid, partitions: seq<Plan>)
  datatype LayoutError = SizeMismatch | TooSmall | TooManyPartitions | Overflow | OutsideUsable(index: nat) | Overlap | Beyond32Bits
  datatype Outcome = Done | Refused(error: LayoutError)

  function Low(l: Layout): nat {
    if l.kind == Gpt then FIRST_USABLE else 1
  }

  function High(l: Layout): int {
    if l.kind == Gpt then l.total - FIRST_USABLE else l.total - 1
  }

  predicate Usable(l: Layout, p: Plan) {
    p.count > 0 && Low(l) <= p.first && p.first + p.count - 1 <= High(l)
  }

  predicate Clear(p: Plan, q: Plan) {
    p.first + p.count <= q.first || q.first + q.count <= p.first
  }

  predicate ValidLayout(l: Layout) {
    && l.total >= MIN_SECTORS
    && |l.partitions| <= (if l.kind == Gpt then GPT_ENTRIES else 4)
    && (forall i :: 0 <= i < |l.partitions| ==> Usable(l, l.partitions[i]))
    && forall i, j :: 0 <= i < j < |l.partitions| ==> Clear(l.partitions[i], l.partitions[j])
  }

  method ValidateLayout(l: Layout) returns (r: Outcome)
    ensures r.Done? <==> ValidLayout(l)
    ensures r != Refused(Beyond32Bits)
  {
    var ps := l.partitions;
    if l.total < MIN_SECTORS {
      return Refused(TooSmall);
    }
    if (l.kind == Mbr && |ps| > 4) || (l.kind == Gpt && |ps| > GPT_ENTRIES) {
      return Refused(TooManyPartitions);
    }
    for i := 0 to |ps|
      invariant forall a :: 0 <= a < i ==> Usable(l, ps[a])
      invariant forall a, b :: 0 <= a < i && a < b < |ps| ==> Clear(ps[a], ps[b])
    {
      var p := ps[i];
      if p.first + p.count >= 0x1_0000_0000_0000_0000 || p.first + p.count == 0 {
        assert !Usable(l, ps[i]);
        return Refused(Overflow);
      }
      if p.count == 0 || p.first < Low(l) || p.first + p.count - 1 > High(l) {
        assert !Usable(l, ps[i]);
        return Refused(OutsideUsable(i + 1));
      }
      for j := i + 1 to |ps|
        invariant forall b :: i < b < j ==> Clear(ps[i], ps[b])
      {
        var q := ps[j];
        if q.first + q.count >= 0x1_0000_0000_0000_0000 {
          assert !Usable(l, ps[j]);
          return Refused(Overflow);
        }
        if p.first < q.first + q.count && q.first < p.first + p.count {
          assert !Clear(ps[i], ps[j]);
          return Refused(Overlap);
        }
      }
    }
    r := Done;
  }

  /** `copy_from_slice` into part of the image. */
  method CopyInto(image: array<byte>, at: nat, bytes: seq<byte>)
    requires at + |bytes| <= image.Length
    modifies image
    ensures image[..] == Patched(old(image[..]), at, bytes)
  {
    forall k | 0 <= k < |bytes| {
      image[at + k] := bytes[k];
    }
  }

  // ---------- MBR ----------

  predicate Fits32(p: Plan) {
    p.first < 0x1_0000_0000 && p.count < 0x1_0000_0000
  }

  predicate AllFit(ps: seq<Plan>) {
    forall i :: 0 <= i < |ps| ==> Fits32(ps[i])
  }

  function MbrEntryBytes(p: Plan): (s: seq<byte>)
    ensures |s| == 16
  {
    [if p.bootable then 0x80 else 0, 0xff, 0xff, 0xff, p.role.MbrType(), 0xff, 0xff, 0xff]
    + LittleEndian(p.first, 4) + LittleEndian(p.count, 4)
  }

  function MbrRowBytes(ps: seq<Plan>): (s: seq<byte>)
    ensures |s| == 16 * |ps|
  {
    if ps == [] then [] else MbrRowBytes(ps[..|ps| - 1]) + MbrEntryBytes(ps[|ps| - 1])
  }

  /** The boot sector with the partitions and these last two bytes. */
  function BootSector(ps: seq<Plan>, last: seq<byte>): (s: seq<byte>)
    requires |ps| <= 4 && |last| == 2
    ensures |s| == SECTOR
  {
    Zeros(446) + MbrRowBytes(ps) + Zeros(64 - 16 * |ps|) + last
  }

  /** The first partition that does not fit in 32 bits. */
  function FirstMisfit(ps: seq<Plan>): (k: nat)
    ensures k <= |ps|
  {
    if ps == [] || !Fits32(ps[0]) then 0 else 1 + FirstMisfit(ps[1..])
  }

  lemma {:induction false} FirstMisfitIs(ps: seq<Plan>, k: nat)
    requires k < |ps| && !Fits32(ps[k]) && forall j :: 0 <= j < k ==> Fits32(ps[j])
    ensures FirstMisfit(ps) == k
  {
    if k > 0 {
      FirstMisfitIs(ps[1..], k - 1);
    }
  }

  /** The image when the table was given up before partition `k`: the old table is gone. */
  function Unfinished(t: seq<byte>, ps: seq<Plan>, k: nat): seq<byte>
    requires k <= |ps| <= 4 && |t| >= SECTOR
  {
    Patched(t, 0, BootSector(ps[..k], Zeros(2)))
  }

  method WriteMbr(image: array<byte>, l: Layout) returns (r: Outcome)
    requires image.Length >= SECTOR && |l.partitions| <= 4
    modifies image
    ensures r == if AllFit(l.partitions) then Done else Refused(Beyond32Bits)
    ensures r.Done? ==> image[..] == Patched(old(image[..]), 0, BootSector(l.partitions, MBR_SIGNATURE))
    ensures r.Refused? ==> image[..] == Unfinished(old(image[..]), l.partitions, FirstMisfit(l.partitions))
  {
    hide LittleEndian, MbrEntryBytes, MbrRowBytes, Patched, BootSector;
    ghost var before := image[..];
    var ps := l.partitions;
    CopyInto(image, 0, Zeros(SECTOR));
    EmptyBoot();
    assert ps[..0] == [];
    for i := 0 to |ps|
      invariant AllFit(ps[..i])
      invariant image[..] == Patched(before, 0, BootSector(ps[..i], Zeros(2)))
    {
      if !Fits32(ps[i]) {
        assert forall j :: 0 <= j < i ==> Fits32(ps[..i][j]);
        FirstMisfitIs(ps, i);
        assert !AllFit(ps) && image[..] == Unfinished(before, ps, i);
        return Refused(Beyond32Bits);
      }
      CopyInto(image, 446 + 16 * i, MbrEntryBytes(ps[i]));
      BootNext(ps, i);
      PatchedInside(before, BootSector(ps[..i], Zeros(2)), 446 + 16 * i, MbrEntryBytes(ps[i]));
    }
    assert ps[..|ps|] == ps;
    CopyInto(image, 510, MBR_SIGNATURE);
    BootSigned(ps);
    PatchedInside(before, BootSector(ps, Zeros(2)), 510, MBR_SIGNATURE);
    r := Done;
  }

  lemma PatchedInside(t: seq<byte>, a: seq<byte>, at: nat, b: seq<byte>)
    requires at + |b| <= |a| <= |t|
    ensures Patched(Patched(t, 0, a), at, b) == Patched(t, 0, Patched(a, at, b))
  {
    assert Patched(t, 0, a) == a + t[|a|..];
    PatchedLeft(a, t[|a|..], at, b);
  }

  lemma EmptyBoot()
    ensures BootSector([], Zeros(2)) == Zeros(SECTOR)
  {
  }

  lemma {:induction false} BootNext(ps: seq<Plan>, i: nat)
    requires i < |ps| <= 4
    ensures BootSector(ps[..i + 1], Zeros(2)) == Patched(BootSector(ps[..i], Zeros(2)), 446 + 16 * i, MbrEntryBytes(ps[i]))
  {
    hide MbrEntryBytes;
    assert ps[..i + 1][..i] == ps[..i];
    var head, rest := Zeros(446) + MbrRowBytes(ps[..i]), Zeros(64 - 16 * i) + Zeros(2);
    assert BootSector(ps[..i], Zeros(2)) == head + rest;
    PatchedRight(head, rest, 0, MbrEntryBytes(ps[i]));
    assert Patched(rest, 0, MbrEntryBytes(ps[i])) == MbrEntryBytes(ps[i]) + (Zeros(64 - 16 * (i + 1)) + Zeros(2));
  }

  lemma {:induction false} BootSigned(ps: seq<Plan>)
    requires |ps| <= 4
    ensures BootSector(ps, MBR_SIGNATURE) == Patched(BootSector(ps, Zeros(2)), 510, MBR_SIGNATURE)
  {
    hide MbrRowBytes;
    var head := Zeros(446) + MbrRowBytes(ps) + Zeros(64 - 16 * |ps|);
    PatchedRight(head, Zeros(2), 0, MBR_SIGNATURE);
    assert Patched(Zeros(2), 0, MBR_SIGNATURE) == MBR_SIGNATURE;
  }

  // ---------- GPT ----------

  function Last(p: Plan): nat {
    if p.first + p.count == 0 then 0 else p.first + p.count - 1
  }

  function EntryBytes(p: Plan): (s: seq<byte>)
    ensures |s| == ENTRY_BYTES
  {
    p.role.TypeGuid() + p.unique + LittleEndian(p.first, 8) + LittleEndian(Last(p), 8) + Zeros(8) + NameBytes(p.name)
  }

  function EntryRowBytes(ps: seq<Plan>): (s: seq<byte>)
    ensures |s| == ENTRY_BYTES * |ps|
  {
    if ps == [] then [] else EntryRowBytes(ps[..|ps| - 1]) + EntryBytes(ps[|ps| - 1])
  }

  function EntryArray(ps: seq<Plan>): (s: seq<byte>)
    requires |ps| <= GPT_ENTRIES
    ensures |s| == ARRAY_BYTES
  {
    EntryRowBytes(ps) + Zeros(ARRAY_BYTES - ENTRY_BYTES * |ps|)
  }

  method BuildEntries(ps: seq<Plan>) returns (r: seq<byte>)
    requires |ps| <= GPT_ENTRIES
    ensures r == EntryArray(ps)
  {
    hide EntryBytes, EntryArray, Patched;
    var entries := new byte[ARRAY_BYTES](i => 0);
    assert entries[..] == Zeros(ARRAY_BYTES);
    EmptyArray();
    assert ps[..0] == [];
    for i := 0 to |ps|
      invariant entries[..] == EntryArray(ps[..i])
    {
      CopyInto(entries, i * ENTRY_BYTES, EntryBytes(ps[i]));
      ArrayNext(ps, i);
    }
    assert ps[..|ps|] == ps;
    r := entries[..];
  }

  lemma EmptyArray()
    ensures EntryArray([]) == Zeros(ARRAY_BYTES)
  {
  }

  lemma {:induction false} ArrayNext(ps: seq<Plan>, i: nat)
    requires i < |ps| <= GPT_ENTRIES
    ensures EntryArray(ps[..i + 1]) == Patched(EntryArray(ps[..i]), ENTRY_BYTES * i, EntryBytes(ps[i]))
  {
    hide EntryBytes;
    assert ps[..i + 1][..i] == ps[..i];
    var head, rest := EntryRowBytes(ps[..i]), Zeros(ARRAY_BYTES - ENTRY_BYTES * i);
    PatchedRight(head, rest, 0, EntryBytes(ps[i]));
    assert Patched(rest, 0, EntryBytes(ps[i])) == EntryBytes(ps[i]) + Zeros(ARRAY_BYTES - ENTRY_BYTES * (i + 1));
  }

  function HeaderStart(seal: seq<byte>): (s: seq<byte>)
    requires |seal| == 4
    ensures |s| == 24
  {
    GPT_SIGNATURE + LittleEndian(0x1_0000, 4) + LittleEndian(HEADER_BYTES, 4) + seal + Zeros(4)
  }

  function HeaderEnd(disk: Guid, entriesLba: u64, crc: u32): (s: seq<byte>)
    ensures |s| == 36
  {
    disk + LittleEndian(entriesLba, 8) + LittleEndian(GPT_ENTRIES, 4) + LittleEndian(ENTRY_BYTES, 4) + LittleEndian(crc, 4)
  }

  function HeaderWith(seal: seq<byte>, words: seq<u64>, end: seq<byte>): (s: seq<byte>)
    requires |seal| == 4 && |words| == 4 && |end| == 36
    ensures |s| == HEADER_BYTES
  {
    HeaderStart(seal) + WordBytes(words) + end
  }

  /** `gpt_header`: the fields, sealed by the checksum over them with the seal zero. */
  function HeaderSector(words: seq<u64>, disk: Guid, entriesLba: u64, crc: u32): (s: seq<byte>)
    requires |words| == 4
    ensures |s| == SECTOR
  {
    var end := HeaderEnd(disk, entriesLba, crc);
    HeaderWith(LittleEndian(Crc32(HeaderWith(Zeros(4), words, end)), 4), words, end) + Zeros(SECTOR - HEADER_BYTES)
  }

  function ProtectiveSector(total: nat): (s: seq<byte>)
    requires total > 0
    ensures |s| == SECTOR
  {
    Zeros(450) + [PROTECTIVE, 0, 0, 0] + LittleEndian(1, 4) + LittleEndian(Min(total - 1, 0xffff_ffff), 4) + Zeros(48) + MBR_SIGNATURE
  }

  function PrimaryHeader(l: Layout): (s: seq<byte>)
    requires l.total >= MIN_SECTORS && |l.partitions| <= GPT_ENTRIES
    ensures |s| == SECTOR
  {
    HeaderSector([1, l.total - 1, FIRST_USABLE, l.total - FIRST_USABLE], l.disk, 2, Crc32(EntryArray(l.partitions)))
  }

  function BackupHeader(l: Layout): (s: seq<byte>)
    requires l.total >= MIN_SECTORS && |l.partitions| <= GPT_ENTRIES
    ensures |s| == SECTOR
  {
    HeaderSector([l.total - 1, 1, FIRST_USABLE, l.total - FIRST_USABLE], l.disk, l.total - 33, Crc32(EntryArray(l.partitions)))
  }

  ghost predicate Roomy(t: seq<byte>, l: Layout) {
    |t| / SECTOR == l.total >= MIN_SECTORS && |l.partitions| <= GPT_ENTRIES
  }

  /** The image after `write_gpt`. */
  ghost function GptImage(t: seq<byte>, l: Layout): (s: seq<byte>)
    requires Roomy(t, l)
    ensures |s| == |t|
  {
    var entries := EntryArray(l.partitions);
    var a := Patched(t, 2 * SECTOR, entries);
    var b := Patched(a, (l.total - 33) * SECTOR, entries);
    var c := Patched(b, 0, ProtectiveSector(l.total));
    var d := Patched(c, SECTOR, PrimaryHeader(l));
    Patched(d, (l.total - 1) * SECTOR, BackupHeader(l))
  }

  method WriteGpt(image: array<byte>, l: Layout)
    requires Roomy(image[..], l)
    modifies image
    ensures image[..] == GptImage(old(image[..]), l)
  {
    hide EntryArray, PrimaryHeader, BackupHeader, ProtectiveSector, Patched;
    var entries := BuildEntries(l.partitions);
    CopyInto(image, 2 * SECTOR, entries);
    CopyInto(image, (l.total - 33) * SECTOR, entries);
    CopyInto(image, 0, ProtectiveSector(l.total));
    CopyInto(image, SECTOR, PrimaryHeader(l));
    CopyInto(image, (l.total - 1) * SECTOR, BackupHeader(l));
  }

  /** The image after a layout was written. */
  ghost function Laid(t: seq<byte>, l: Layout): (s: seq<byte>)
    requires |t| / SECTOR == l.total && ValidLayout(l)
    ensures |s| == |t|
  {
    if l.kind == Gpt then GptImage(t, l) else Patched(t, 0, BootSector(l.partitions, MBR_SIGNATURE))
  }

  method WriteLayout(image: array<byte>, l: Layout) returns (r: Outcome)
    modifies image
    ensures r.Done? <==>
              && image.Length / SECTOR == l.total && ValidLayout(l)
              && (l.kind == Mbr ==> AllFit(l.partitions))
    ensures r.Done? ==> image[..] == Laid(old(image[..]), l)
    ensures r.Refused? && r.error != Beyond32Bits ==> image[..] == old(image[..])
    ensures r == Refused(Beyond32Bits) ==>
              && image.Length / SECTOR == l.total && ValidLayout(l)
              && !AllFit(l.partitions)
              && image[..] == Unfinished(old(image[..]), l.partitions, FirstMisfit(l.partitions))
    ensures image.Length / SECTOR == l.total && ValidLayout(l) && l.kind == Mbr && !AllFit(l.partitions) ==> r == Refused(Beyond32Bits)
  {
    hide BootSector, Patched, GptImage, Usable, Clear;
    if image.Length / SECTOR != l.total {
      return Refused(SizeMismatch);
    }
    r := ValidateLayout(l);
    if r.Refused? {
      return;
    }
    ghost var before := image[..];
    CopyInto(image, 0, Zeros(SECTOR));
    if l.kind == Gpt {
      WriteGpt(image, l);
      FirstSectorOverwritten(before, l);
    } else {
      r := WriteMbr(image, l);
      forall ps: seq<Plan>, last: seq<byte> | |ps| <= 4 && |last| == 2
        ensures Patched(Patched(before, 0, Zeros(SECTOR)), 0, BootSector(ps, last)) == Patched(before, 0, BootSector(ps, last))
      {
        PatchedTwice(before, 0, Zeros(SECTOR), BootSector(ps, last));
      }
    }
  }

  lemma PatchedTwice(t: seq<byte>, at: nat, a: seq<byte>, b: seq<byte>)
    requires |a| == |b| && at + |a| <= |t|
    ensures Patched(Patched(t, at, a), at, b) == Patched(t, at, b)
  {
  }

  lemma PatchedCommute(t: seq<byte>, at: nat, a: seq<byte>, to: nat, b: seq<byte>)
    requires at + |a| <= to && to + |b| <= |t|
    ensures Patched(Patched(t, at, a), to, b) == Patched(Patched(t, to, b), at, a)
  {
  }

  lemma {:induction false} FirstSectorOverwritten(t: seq<byte>, l: Layout)
    requires Roomy(t, l)
    ensures GptImage(Patched(t, 0, Zeros(SECTOR)), l) == GptImage(t, l)
  {
    hide EntryArray, PrimaryHeader, BackupHeader, ProtectiveSector, Patched;
    var z, e, p := Zeros(SECTOR), EntryArray(l.partitions), ProtectiveSector(l.total);
    var a := Patched(t, 2 * SECTOR, e);
    var b := Patched(a, (l.total - 33) * SECTOR, e);
    PatchedCommute(t, 0, z, 2 * SECTOR, e);
    PatchedCommute(a, 0, z, (l.total - 33) * SECTOR, e);
    PatchedTwice(b, 0, z, p);
  }
}
