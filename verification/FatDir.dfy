/**
  FAT32 directories as runs of 32-byte slots: looking a name up, finding room, and
  what writing one slot does to both.
 */
module FatDir {
  import opened Bytes

  const SLOT := 32
  const DELETED: byte := 0xe5

  /** An 8.3 name as its eleven padded bytes. */
  type ShortName = s: seq<byte> | |s| == 11 witness Zeros(11)
  type Slot = s: seq<byte> | |s| == SLOT witness Zeros(SLOT)

  predicate IsLongName(s: Slot) {
    s[11] == 0x0f
  }

  predicate IsVolumeLabel(s: Slot) {
    s[11] / 8 % 2 == 1
  }

  predicate IsDirectory(s: Slot) {
    s[11] / 16 % 2 == 1
  }

  /** A slot `read_directory` reports. */
  predicate Live(s: Slot) {
    s[0] != 0 && s[0] != DELETED && !IsLongName(s) && !IsVolumeLabel(s)
  }

  function NameOf(s: Slot): ShortName {
    s[..11]
  }

  function ClusterOf(s: Slot): u32 {
    GetU16(s, 20) * 65536 + GetU16(s, 26)
  }

  function SizeOf(s: Slot): u32 {
    GetU32(s, 28)
  }

  /** The slot `write_file` stores. */
  function FileSlot(name: ShortName, cluster: u32, size: u32): (s: Slot) {
    name + [0x20] + Zeros(8) + LittleEndian(cluster / 65536, 2) + Zeros(4) + LittleEndian(cluster % 65536, 2) + LittleEndian(size, 4)
  }

  lemma {:induction false} FileSlotReads(name: ShortName, cluster: u32, size: u32)
    ensures var s := FileSlot(name, cluster, size);
      NameOf(s) == name && !IsDirectory(s) && ClusterOf(s) == cluster && SizeOf(s) == size
    ensures name[0] != 0 && name[0] != DELETED ==> Live(FileSlot(name, cluster, size))
  {
    var s := FileSlot(name, cluster, size);
    var hi, lo := LittleEndian(cluster / 65536, 2), LittleEndian(cluster % 65536, 2);
    Pow256Values();
    var pre := name + [0x20] + Zeros(8);
    StoredInteger(pre, cluster / 65536, 2, Zeros(4) + lo + LittleEndian(size, 4));
    assert s == pre + hi + (Zeros(4) + lo + LittleEndian(size, 4));
    StoredInteger(pre + hi + Zeros(4), cluster % 65536, 2, LittleEndian(size, 4));
    assert s == (pre + hi + Zeros(4)) + lo + LittleEndian(size, 4);
    StoredInteger(pre + hi + Zeros(4) + lo, size, 4, []);
    assert s == (pre + hi + Zeros(4) + lo) + LittleEndian(size, 4) + [];
  }

  // ---------- a directory's bytes ----------

  predicate HasSlot(bytes: seq<byte>, k: nat) {
    SLOT * k + SLOT <= |bytes|
  }

  function SlotAt(bytes: seq<byte>, k: nat): Slot
    requires HasSlot(bytes, k)
  {
    bytes[SLOT * k..SLOT * k + SLOT]
  }

  /** The first live slot of that name from slot `k` on, before the end marker. */
  function Find(bytes: seq<byte>, name: ShortName, k: nat): (r: Option<nat>)
    ensures r.Some? ==> r.value >= k && HasSlot(bytes, r.value) && Live(SlotAt(bytes, r.value)) && NameOf(SlotAt(bytes, r.value)) == name
    decreases |bytes| - SLOT * k
  {
    if !HasSlot(bytes, k) || SlotAt(bytes, k)[0] == 0 then None
    else if Live(SlotAt(bytes, k)) && NameOf(SlotAt(bytes, k)) == name then Some(k)
    else Find(bytes, name, k + 1)
  }

  predicate Vacant(s: Slot) {
    s[0] == 0 || s[0] == DELETED
  }

  /** The first slot from `k` on that may be overwritten. */
  function FirstVacant(bytes: seq<byte>, k: nat): (r: Option<nat>)
    decreases |bytes| - SLOT * k
  {
    if !HasSlot(bytes, k) then None
    else if Vacant(SlotAt(bytes, k)) then Some(k)
    else FirstVacant(bytes, k + 1)
  }

  lemma {:induction false} FirstVacantMeans(bytes: seq<byte>, k: nat)
    ensures var r := FirstVacant(bytes, k);
      && (r.Some? ==> r.value >= k && HasSlot(bytes, r.value) && Vacant(SlotAt(bytes, r.value)))
      && (r.Some? ==> forall j: nat :: k <= j < r.value ==> HasSlot(bytes, j) && !Vacant(SlotAt(bytes, j)))
      && (r.None? ==> forall j: nat :: k <= j && HasSlot(bytes, j) ==> !Vacant(SlotAt(bytes, j)))
    decreases |bytes| - SLOT * k
  {
    if HasSlot(bytes, k) {
      FirstVacantMeans(bytes, k + 1);
    }
  }

  /** Nothing is stored beyond the end marker. */
  ghost predicate ZeroTail(bytes: seq<byte>) {
    forall j: nat, k: nat :: j < k && HasSlot(bytes, k) && HasSlot(bytes, j) && SlotAt(bytes, j)[0] == 0 ==> SlotAt(bytes, k)[0] == 0
  }

  // ---------- visibility ----------

  /** Slot `k` is live and lies before the end marker. */
  ghost predicate Visible(bytes: seq<byte>, k: nat) {
    && HasSlot(bytes, k) && Live(SlotAt(bytes, k))
    && forall j: nat :: j < k ==> HasSlot(bytes, j) && SlotAt(bytes, j)[0] != 0
  }

  lemma {:induction false} FindIsVisible(bytes: seq<byte>, name: ShortName, k: nat)
    requires forall j: nat :: j < k ==> HasSlot(bytes, j) && SlotAt(bytes, j)[0] != 0
    ensures Find(bytes, name, k).Some? ==> Visible(bytes, Find(bytes, name, k).value)
    decreases |bytes| - SLOT * k
  {
    if HasSlot(bytes, k) && SlotAt(bytes, k)[0] != 0 && !(Live(SlotAt(bytes, k)) && NameOf(SlotAt(bytes, k)) == name) {
      FindIsVisible(bytes, name, k + 1);
    }
  }

  // ---------- writing one slot ----------

  function WithSlot(bytes: seq<byte>, k: nat, s: Slot): (r: seq<byte>)
    requires HasSlot(bytes, k)
    ensures |r| == |bytes|
  {
    Patched(bytes, SLOT * k, s)
  }

  lemma {:induction false} WithSlotReads(bytes: seq<byte>, k: nat, s: Slot, j: nat)
    requires HasSlot(bytes, k) && HasSlot(bytes, j)
    ensures HasSlot(WithSlot(bytes, k, s), j) && SlotAt(WithSlot(bytes, k, s), j) == if j == k then s else SlotAt(bytes, j)
  {
    var r := WithSlot(bytes, k, s);
    if j < k {
      assert r[SLOT * j..SLOT * j + SLOT] == bytes[SLOT * j..SLOT * j + SLOT];
    } else if j > k {
      assert r[SLOT * j..SLOT * j + SLOT] == bytes[SLOT * j..SLOT * j + SLOT];
    } else {
      assert r[SLOT * k..SLOT * k + SLOT] == s;
    }
  }

  /** A place `write_file` may store the slot of a file called `name`. */
  ghost predicate Place(bytes: seq<byte>, k: nat, name: ShortName) {
    && HasSlot(bytes, k)
    && (Find(bytes, name, 0) == Some(k) || (Find(bytes, name, 0).None? && FirstVacant(bytes, 0) == Some(k)))
  }

  predicate Matches(s: Slot, name: ShortName) {
    Live(s) && NameOf(s) == name
  }

  /** What lies between `i` and the slot found. */
  lemma {:induction false} FindSkips(bytes: seq<byte>, name: ShortName, i: nat)
    ensures forall j: nat :: i <= j && HasSlot(bytes, j) && Find(bytes, name, i) == Some(j) ==>
      forall m: nat :: i <= m < j ==> HasSlot(bytes, m) && SlotAt(bytes, m)[0] != 0 && !Matches(SlotAt(bytes, m), name)
    ensures Find(bytes, name, i).None? ==>
      forall j: nat :: i <= j && HasSlot(bytes, j) && Matches(SlotAt(bytes, j), name) ==>
        exists m: nat :: i <= m < j && HasSlot(bytes, m) && SlotAt(bytes, m)[0] == 0
    decreases |bytes| - SLOT * i
  {
    if HasSlot(bytes, i) && SlotAt(bytes, i)[0] != 0 && !Matches(SlotAt(bytes, i), name) {
      FindSkips(bytes, name, i + 1);
    }
  }

  /** No end marker and no slot of that name lies before the place. */
  lemma {:induction false} PlaceFacts(bytes: seq<byte>, k: nat, name: ShortName)
    requires Place(bytes, k, name)
    ensures HasSlot(bytes, k)
    ensures forall j: nat :: j < k ==> HasSlot(bytes, j) && SlotAt(bytes, j)[0] != 0 && !Matches(SlotAt(bytes, j), name)
    ensures Matches(SlotAt(bytes, k), name) || Vacant(SlotAt(bytes, k))
  {
    hide Find, FirstVacant;
    FindSkips(bytes, name, 0);
    FirstVacantMeans(bytes, 0);
  }

  /** After the write every other name is found where it was. */
  lemma {:induction false} PlacedOthers(bytes: seq<byte>, k: nat, s: Slot, name: ShortName, i: nat)
    requires ZeroTail(bytes) && Place(bytes, k, NameOf(s)) && Live(s) && name != NameOf(s)
    ensures Find(WithSlot(bytes, k, s), name, i) == Find(bytes, name, i)
    decreases |bytes| - SLOT * i
  {
    hide WithSlot, Place, ZeroTail, SlotAt;
    PlaceFacts(bytes, k, NameOf(s));
    var after := WithSlot(bytes, k, s);
    if HasSlot(bytes, i) {
      WithSlotReads(bytes, k, s, i);
      PlacedOthers(bytes, k, s, name, i + 1);
      if i == k && SlotAt(bytes, k)[0] == 0 {
        AfterEnd(bytes, k, name);
        PlacedOthers(bytes, k, s, name, k + 1);
      }
    }
  }

  /** Beyond the end marker nothing is found. */
  lemma AfterEnd(bytes: seq<byte>, k: nat, name: ShortName)
    requires ZeroTail(bytes) && HasSlot(bytes, k) && SlotAt(bytes, k)[0] == 0
    ensures Find(bytes, name, k + 1).None?
  {
  }

  /** And the name itself is found at the place. */
  lemma {:induction false} PlacedFound(bytes: seq<byte>, k: nat, s: Slot, i: nat)
    requires Place(bytes, k, NameOf(s)) && Live(s) && i <= k
    ensures Find(WithSlot(bytes, k, s), NameOf(s), i) == Some(k)
    decreases k - i
  {
    hide WithSlot, Place, SlotAt;
    PlaceFacts(bytes, k, NameOf(s));
    assert HasSlot(bytes, i);
    WithSlotReads(bytes, k, s, i);
    if i < k {
      PlacedFound(bytes, k, s, i + 1);
    }
  }

  /** The end of the directory stays where nothing follows it. */
  lemma {:induction false} PlacedTail(bytes: seq<byte>, k: nat, s: Slot)
    requires ZeroTail(bytes) && Place(bytes, k, NameOf(s)) && Live(s)
    ensures ZeroTail(WithSlot(bytes, k, s))
  {
    hide WithSlot, Place, SlotAt;
    PlaceFacts(bytes, k, NameOf(s));
    var after := WithSlot(bytes, k, s);
    forall i: nat, j: nat | i < j && HasSlot(after, j) && HasSlot(after, i) && SlotAt(after, i)[0] == 0
      ensures SlotAt(after, j)[0] == 0
    {
      WithSlotReads(bytes, k, s, i);
      WithSlotReads(bytes, k, s, j);
    }
  }

  /** What the write shows: the new slot, and the others as before. */
  lemma {:induction false} PlacedVisible(bytes: seq<byte>, k: nat, s: Slot, j: nat)
    requires ZeroTail(bytes) && Place(bytes, k, NameOf(s)) && Live(s)
    ensures Visible(WithSlot(bytes, k, s), j) <==> j == k || Visible(bytes, j)
    ensures j != k && Visible(bytes, j) ==> HasSlot(WithSlot(bytes, k, s), j) && SlotAt(WithSlot(bytes, k, s), j) == SlotAt(bytes, j)
  {
    hide WithSlot, Place, SlotAt;
    PlaceFacts(bytes, k, NameOf(s));
    var after := WithSlot(bytes, k, s);
    forall i: nat | HasSlot(bytes, i) ensures HasSlot(after, i) && SlotAt(after, i) == if i == k then s else SlotAt(bytes, i) {
      WithSlotReads(bytes, k, s, i);
    }
  }

  // ---------- more room ----------

  /** An appended run of zeros adds vacant slots and changes no lookup. */
  lemma {:induction false} GrownSlots(bytes: seq<byte>, n: nat, j: nat)
    requires |bytes| % SLOT == 0 && n % SLOT == 0
    ensures var more := bytes + Zeros(n);
      && (HasSlot(bytes, j) ==> HasSlot(more, j) && SlotAt(more, j) == SlotAt(bytes, j))
      && (HasSlot(more, j) && !HasSlot(bytes, j) ==> SlotAt(more, j)[0] == 0)
  {
    var more := bytes + Zeros(n);
    if HasSlot(bytes, j) {
      assert more[SLOT * j..SLOT * j + SLOT] == bytes[SLOT * j..SLOT * j + SLOT];
    }
  }

  lemma {:induction false} GrownFind(bytes: seq<byte>, n: nat, name: ShortName, k: nat)
    requires |bytes| % SLOT == 0 && n % SLOT == 0
    ensures Find(bytes + Zeros(n), name, k) == Find(bytes, name, k)
    decreases |bytes| - SLOT * k
  {
    hide SlotAt;
    GrownSlots(bytes, n, k);
    if HasSlot(bytes, k) {
      GrownFind(bytes, n, name, k + 1);
    }
  }

  lemma {:induction false} GrownTail(bytes: seq<byte>, n: nat)
    requires |bytes| % SLOT == 0 && n % SLOT == 0
    ensures ZeroTail(bytes) ==> ZeroTail(bytes + Zeros(n))
    ensures forall j: nat :: Visible(bytes + Zeros(n), j) <==> Visible(bytes, j)
    ensures FirstVacant(bytes, 0).None? && n > 0 ==> FirstVacant(bytes + Zeros(n), 0) == Some(|bytes| / SLOT)
  {
    hide SlotAt, FirstVacant;
    var more := bytes + Zeros(n);
    FirstVacantMeans(bytes, 0);
    FirstVacantMeans(more, 0);
    forall j: nat
      ensures HasSlot(bytes, j) ==> HasSlot(more, j) && SlotAt(more, j) == SlotAt(bytes, j)
      ensures HasSlot(more, j) && !HasSlot(bytes, j) ==> SlotAt(more, j)[0] == 0
    {
      GrownSlots(bytes, n, j);
    }
    if n > 0 && FirstVacant(bytes, 0).None? {
      var k := |bytes| / SLOT;
      assert HasSlot(more, k) && Vacant(SlotAt(more, k));
      assert FirstVacant(more, 0).Some?;
      assert !HasSlot(bytes, FirstVacant(more, 0).value);
    }
  }
}
