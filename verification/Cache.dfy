/**
  The write-back sector cache: it answers as the plain device would, and what it
  holds are the most recently used sectors.
 */
module Cache {
  import opened Arithmetic
  import opened Bytes
  import opened Sectors
  import opened Lru

  datatype StorageError = OutOfBounds | InvalidBuffer
  datatype Result<+T> = Ok(value: T) | Err(error: StorageError)

  const U64_MAX := 0xffff_ffff_ffff_ffff
  const STAMPS := 0x1_0000_0000_0000_0000

  datatype Entry = Entry(lba: nat, bytes: Sector, dirty: bool, stamp: nat)

  // ---------- what a transfer must look like ----------

  /** `validate_transfer`. */
  function Transfer(sectors: nat, size: nat, lba: u64, length: nat): Result<nat>
    requires size > 0
  {
    if length == 0 || length % size != 0 then Err(InvalidBuffer)
    else if lba + length / size > sectors then Err(OutOfBounds)
    else Ok(length / size)
  }

  lemma TransferMeans(sectors: nat, size: nat, lba: u64, length: nat)
    requires size > 0
    ensures var r := Transfer(sectors, size, lba, length); r.Ok? ==> r.value == length / size && length % size == 0 && lba + r.value <= sectors
  {
  }

  /** A transfer is served exactly when it is some whole sectors inside the device. */
  lemma {:induction false} TransferIff(sectors: nat, size: nat, lba: u64, length: nat, n: nat)
    requires size > 0
    ensures Transfer(sectors, size, lba, length) == Ok(n) <==> n > 0 && length == n * size && lba + n <= sectors
    ensures Transfer(sectors, size, lba, length) == Err(InvalidBuffer) <==> length == 0 || length % size != 0
    ensures Transfer(sectors, size, lba, length) == Err(OutOfBounds) <==>
            length > 0 && length % size == 0 && lba + length / size > sectors
  {
    DivMod(length, size);
    if n > 0 && length == n * size {
      DivModUnique(length, size, n, 0);
    }
    if length > 0 && length % size == 0 && n == length / size {
      assert n > 0;
    }
  }

  /** `MemoryBlockDevice::range`, in sectors. */
  function PlainTransfer(sectors: nat, size: nat, lba: u64, length: nat): Result<nat>
    requires size > 0
  {
    if length % size != 0 then Err(InvalidBuffer)
    else if lba * size + length > sectors * size then Err(OutOfBounds)
    else Ok(length / size)
  }

  /** The cache accepts what the plain device accepts, but for empty transfers. */
  lemma {:induction false} TransfersAgree(sectors: nat, size: nat, lba: u64, length: nat)
    requires size > 0
    ensures Transfer(sectors, size, lba, length) == PlainTransfer(sectors, size, lba, length) <==> length > 0
  {
    DivMod(length, size);
    if length > 0 && length % size == 0 {
      var n := length / size;
      assert lba * size + length == (lba + n) * size;
      if lba + n <= sectors {
        MulMono(lba + n, sectors, size);
      } else {
        MulStep(sectors, lba + n, size);
      }
    }
  }

  // ---------- books ----------

  /** Slot `slots[p]` holds the sector used `p` sectors ago; stamps say so. */
  ghost predicate InOrder(entries: seq<Entry>, kept: seq<nat>, slots: seq<nat>) {
    && |slots| == |kept| == |entries|
    && (forall p :: 0 <= p < |slots| ==> slots[p] < |entries| && entries[slots[p]].lba == kept[p])
    && (forall i: nat :: i < |entries| ==> i in slots)
    && forall p, q :: 0 <= p < q < |slots| ==> entries[slots[p]].stamp > entries[slots[q]].stamp
  }

  ghost predicate Stamped(entries: seq<Entry>, stamp: nat) {
    forall i :: 0 <= i < |entries| ==> entries[i].stamp <= stamp
  }

  /** Element `k` moved to the front. */
  function Moved(s: seq<nat>, k: nat): (r: seq<nat>)
    requires k < |s|
    ensures |r| == |s|
  {
    [s[k]] + s[..k] + s[k + 1..]
  }

  lemma MovedAt(s: seq<nat>, k: nat, p: nat)
    requires k < |s| && p < |s|
    ensures Moved(s, k)[p] == s[if p == 0 then k else if p <= k then p - 1 else p]
    ensures s[p] in Moved(s, k)
  {
    var r := Moved(s, k);
    assert r[if p == k then 0 else if p < k then p + 1 else p] == s[p];
  }

  /** Using the slot at place `k` puts it first. */
  lemma {:induction false} TouchOrder(entries: seq<Entry>, kept: seq<nat>, slots: seq<nat>, k: nat, e: Entry)
    requires InOrder(entries, kept, slots) && Lru.Distinct(kept) && k < |slots| && e.lba == kept[k]
    requires forall i :: 0 <= i < |entries| ==> entries[i].stamp < e.stamp
    ensures InOrder(entries[slots[k] := e], Moved(kept, k), Moved(slots, k))
  {
    hide Moved;
    var after, kept', slots' := entries[slots[k] := e], Moved(kept, k), Moved(slots, k);
    forall j: nat | j < |entries| ensures j in slots' {
      assert j in slots;
      var p :| 0 <= p < |slots| && slots[p] == j;
      MovedAt(slots, k, p);
    }
    forall p: nat | p < |slots'|
      ensures var q := if p == 0 then k else if p <= k then p - 1 else p;
        slots'[p] == slots[q] && kept'[p] == kept[q] && after[slots'[p]] == if p == 0 then e else entries[slots[q]]
    {
      MovedAt(slots, k, p);
      MovedAt(kept, k, p);
      var q := if p == 0 then k else if p <= k then p - 1 else p;
      assert q != k ==> kept[q] != kept[k];
    }
  }

  /** The order depends on sectors and stamps only. */
  lemma SameOrder(entries: seq<Entry>, after: seq<Entry>, kept: seq<nat>, slots: seq<nat>)
    requires InOrder(entries, kept, slots) && |after| == |entries|
    requires forall i :: 0 <= i < |entries| ==> after[i].lba == entries[i].lba && after[i].stamp == entries[i].stamp
    ensures InOrder(after, kept, slots)
  {
  }

  /** A new slot comes first. */
  lemma {:induction false} PushOrder(entries: seq<Entry>, kept: seq<nat>, slots: seq<nat>, e: Entry)
    requires InOrder(entries, kept, slots) && forall i :: 0 <= i < |entries| ==> entries[i].stamp < e.stamp
    ensures InOrder(entries + [e], [e.lba] + kept, [|entries|] + slots)
  {
    var slots' := [|entries|] + slots;
    forall j: nat | j < |entries| ensures j in slots' {
      assert j in slots;
      var p :| 0 <= p < |slots| && slots[p] == j;
      assert slots'[p + 1] == j;
    }
  }

  /** The slot with the oldest stamp is the one used longest ago. */
  lemma {:induction false} OldestIsLast(entries: seq<Entry>, kept: seq<nat>, slots: seq<nat>, m: nat)
    requires InOrder(entries, kept, slots) && m < |entries| && forall i :: 0 <= i < |entries| ==> entries[m].stamp <= entries[i].stamp
    ensures slots[|slots| - 1] == m
  {
    assert m in slots;
    var p :| 0 <= p < |slots| && slots[p] == m;
    OrderAt(entries, kept, slots, p, |slots| - 1);
  }

  lemma OrderAt(entries: seq<Entry>, kept: seq<nat>, slots: seq<nat>, p: nat, q: nat)
    requires InOrder(entries, kept, slots) && p < |slots| && q < |slots|
    ensures p < q ==> entries[slots[p]].stamp > entries[slots[q]].stamp
  {
  }

  /** Reusing the oldest slot for another sector. */
  lemma {:induction false} EvictOrder(entries: seq<Entry>, kept: seq<nat>, slots: seq<nat>, e: Entry)
    requires InOrder(entries, kept, slots) && |slots| > 0 && forall i :: 0 <= i < |entries| ==> entries[i].stamp < e.stamp
    requires Lru.Distinct(kept)
    ensures var n := |slots| - 1;
      InOrder(entries[slots[n] := e], [e.lba] + kept[..n], [slots[n]] + slots[..n])
  {
    var n := |slots| - 1;
    var slots' := [slots[n]] + slots[..n];
    forall j: nat | j < |entries| ensures j in slots' {
      assert j in slots;
      var p :| 0 <= p < |slots| && slots[p] == j;
      assert p < n ==> slots'[p + 1] == j;
    }
    forall p | 0 < p < |slots'| ensures slots'[p] == slots[p - 1] && slots'[p] != slots[n] {}
  }

  // ---------- contents ----------

  ghost predicate Cached(entries: seq<Entry>, l: nat) {
    exists i :: 0 <= i < |entries| && entries[i].lba == l
  }

  ghost predicate Sized(device: Device, size: nat) {
    forall l :: 0 <= l < |device| ==> |device[l]| == size
  }

  ghost predicate EntryOk(inner: Device, logical: Device, e: Entry, size: nat)
    requires |inner| == |logical|
  {
    e.lba < |inner| && |e.bytes| == size && logical[e.lba] == e.bytes && (!e.dirty ==> inner[e.lba] == e.bytes)
  }

  ghost predicate OneEach(entries: seq<Entry>) {
    forall i, j :: 0 <= i < j < |entries| ==> entries[i].lba != entries[j].lba
  }

  /** Cached sectors hold the contents, the others are on the inner device, clean ones on both. */
  ghost predicate Agreement(inner: Device, entries: seq<Entry>, logical: Device, size: nat) {
    && |logical| == |inner| && Sized(inner, size) && Sized(logical, size) && OneEach(entries)
    && (forall i :: 0 <= i < |entries| ==> EntryOk(inner, logical, entries[i], size))
    && (forall l: nat :: l < |inner| && !Cached(entries, l) ==> inner[l] == logical[l])
  }

  lemma {:induction false} SameCached(entries: seq<Entry>, index: nat, e: Entry)
    requires index < |entries| && e.lba == entries[index].lba
    ensures forall l: nat :: Cached(entries[index := e], l) <==> Cached(entries, l)
  {
    var after := entries[index := e];
    forall l: nat ensures Cached(after, l) <==> Cached(entries, l) {
      if Cached(entries, l) {
        var i :| 0 <= i < |entries| && entries[i].lba == l;
        assert after[i].lba == l;
      }
      if Cached(after, l) {
        var i :| 0 <= i < |after| && after[i].lba == l;
        assert entries[i].lba == l;
      }
    }
  }

  /** A slot written to the inner device. */
  lemma {:induction false} CleanAgrees(inner: Device, entries: seq<Entry>, logical: Device, size: nat, index: nat)
    requires Agreement(inner, entries, logical, size) && index < |entries|
    ensures var e := entries[index];
      e.lba < |inner| && Agreement(inner[e.lba := e.bytes], entries[index := e.(dirty := false)], logical, size)
  {
    hide Cached;
    var e := entries[index];
    assert EntryOk(inner, logical, e, size);
    SameCached(entries, index, e.(dirty := false));
    CachedAt(entries, index);
  }

  lemma CachedAt(entries: seq<Entry>, index: nat)
    requires index < |entries|
    ensures Cached(entries, entries[index].lba)
  {
  }

  /** New contents for a cached sector, or a new stamp. */
  lemma {:induction false} RewriteAgrees(inner: Device, entries: seq<Entry>, logical: Device, size: nat, index: nat, e: Entry)
    requires Agreement(inner, entries, logical, size) && index < |entries| && e.lba == entries[index].lba && |e.bytes| == size
    requires e.dirty || (e.bytes == entries[index].bytes && !entries[index].dirty)
    ensures e.lba < |logical| && Agreement(inner, entries[index := e], logical[e.lba := e.bytes], size)
  {
    hide Cached;
    assert EntryOk(inner, logical, entries[index], size);
    SameCached(entries, index, e);
    CachedAt(entries, index);
    forall i | 0 <= i < |entries| && i != index ensures EntryOk(inner, logical[e.lba := e.bytes], entries[i], size) {
      assert EntryOk(inner, logical, entries[i], size) && entries[i].lba != e.lba;
    }
  }

  /** A slot added for a sector that was not cached. */
  lemma {:induction false} PushAgrees(inner: Device, entries: seq<Entry>, logical: Device, size: nat, e: Entry)
    requires Agreement(inner, entries, logical, size) && !Cached(entries, e.lba) && e.lba < |inner| && e.bytes == inner[e.lba]
    ensures Agreement(inner, entries + [e], logical, size)
  {
    var after := entries + [e];
    forall l: nat | Cached(entries, l) ensures Cached(after, l) {
      var i :| 0 <= i < |entries| && entries[i].lba == l;
      assert after[i].lba == l;
    }
    forall i | 0 <= i < |entries| ensures entries[i].lba != e.lba {}
    assert inner[e.lba] == logical[e.lba];
  }

  /** A clean slot reused for a sector that was not cached. */
  lemma {:induction false} ReuseAgrees(inner: Device, entries: seq<Entry>, logical: Device, size: nat, index: nat, e: Entry)
    requires Agreement(inner, entries, logical, size) && index < |entries| && !entries[index].dirty
    requires !Cached(entries, e.lba) && e.lba < |inner| && e.bytes == inner[e.lba]
    ensures Agreement(inner, entries[index := e], logical, size)
  {
    var after := entries[index := e];
    var out := entries[index].lba;
    assert EntryOk(inner, logical, entries[index], size) && inner[e.lba] == logical[e.lba];
    forall i | 0 <= i < |entries| ensures entries[i].lba != e.lba {}
    forall l: nat | Cached(entries, l) && l != out ensures Cached(after, l) {
      var i :| 0 <= i < |entries| && entries[i].lba == l;
      assert after[i].lba == l;
    }
  }

  ghost predicate LruState(entries: seq<Entry>, history: seq<nat>, capacity: nat, slots: seq<nat>, stamp: nat, misses: nat) {
    && InOrder(entries, Kept(history, capacity), slots) && Stamped(entries, stamp)
    && misses == Min(Misses(history, capacity), U64_MAX)
  }

  lemma SameLru(entries: seq<Entry>, after: seq<Entry>, history: seq<nat>, capacity: nat, slots: seq<nat>, stamp: nat, misses: nat)
    requires LruState(entries, history, capacity, slots, stamp, misses) && |after| == |entries|
    requires forall i :: 0 <= i < |entries| ==> after[i].lba == entries[i].lba && after[i].stamp == entries[i].stamp
    ensures LruState(after, history, capacity, slots, stamp, misses)
  {
    hide Kept, Misses, InOrder;
    SameOrder(entries, after, Kept(history, capacity), slots);
  }

  lemma {:induction false} KeptDistinct(history: seq<nat>, capacity: nat)
    ensures Lru.Distinct(Kept(history, capacity))
  {
    RecentDistinct(history);
  }

  /** A hit. */
  lemma {:induction false} LruHit(entries: seq<Entry>, history: seq<nat>, capacity: nat, slots: seq<nat>, stamp: nat, misses: nat, index: nat, e: Entry) returns (after: seq<nat>)
    requires LruState(entries, history, capacity, slots, stamp, misses) && index < |entries| && e.lba == entries[index].lba && e.stamp == stamp + 1
    ensures LruState(entries[index := e], history + [e.lba], capacity, after, stamp + 1, misses)
  {
    hide Kept, Misses, InOrder;
    var kept := Kept(history, capacity);
    KeptDistinct(history, capacity);
    var k := PlaceOf(entries, kept, slots, index);
    KeptHit(history, e.lba, capacity, k);
    MissesStep(history, e.lba, capacity);
    assert kept[k] in kept;
    TouchOrder(entries, kept, slots, k, e);
    after := Moved(slots, k);
  }

  lemma {:induction false} PlaceOf(entries: seq<Entry>, kept: seq<nat>, slots: seq<nat>, index: nat) returns (k: nat)
    requires InOrder(entries, kept, slots) && index < |entries|
    ensures k < |slots| && k < |kept| && slots[k] == index && kept[k] == entries[index].lba
  {
    assert index in slots;
    k :| 0 <= k < |slots| && slots[k] == index;
  }

  lemma NotKept(entries: seq<Entry>, kept: seq<nat>, slots: seq<nat>, l: nat)
    requires InOrder(entries, kept, slots) && !Cached(entries, l)
    ensures l !in kept
  {
    forall p | 0 <= p < |kept| ensures kept[p] != l {
      assert entries[slots[p]].lba == kept[p];
    }
  }

  /** A miss while there is room. */
  lemma {:induction false} LruPush(entries: seq<Entry>, history: seq<nat>, capacity: nat, slots: seq<nat>, stamp: nat, misses: nat, e: Entry) returns (after: seq<nat>)
    requires LruState(entries, history, capacity, slots, stamp, misses) && !Cached(entries, e.lba) && |entries| < capacity && e.stamp == stamp + 1
    ensures LruState(entries + [e], history + [e.lba], capacity, after, stamp + 1, Min(misses + 1, U64_MAX))
  {
    hide Kept, Misses, InOrder, Cached;
    var kept := Kept(history, capacity);
    NotKept(entries, kept, slots, e.lba);
    OrderSizes(entries, kept, slots);
    KeptMiss(history, e.lba, capacity);
    MissesStep(history, e.lba, capacity);
    PushOrder(entries, kept, slots, e);
    after := [|entries|] + slots;
  }

  lemma OrderSizes(entries: seq<Entry>, kept: seq<nat>, slots: seq<nat>)
    requires InOrder(entries, kept, slots)
    ensures |kept| == |slots| == |entries|
  {
  }

  /** A miss in a full cache: the slot with the lowest stamp goes. */
  lemma {:induction false} LruEvict(entries: seq<Entry>, history: seq<nat>, capacity: nat, slots: seq<nat>, stamp: nat, misses: nat, m: nat, e: Entry) returns (after: seq<nat>)
    requires LruState(entries, history, capacity, slots, stamp, misses) && !Cached(entries, e.lba) && |entries| == capacity > 0 && e.stamp == stamp + 1
    requires m < |entries| && forall i :: 0 <= i < |entries| ==> entries[m].stamp <= entries[i].stamp
    ensures LruState(entries[m := e], history + [e.lba], capacity, after, stamp + 1, Min(misses + 1, U64_MAX))
  {
    hide Kept, Misses, InOrder, Cached;
    var kept := Kept(history, capacity);
    KeptDistinct(history, capacity);
    NotKept(entries, kept, slots, e.lba);
    OrderSizes(entries, kept, slots);
    KeptMiss(history, e.lba, capacity);
    MissesStep(history, e.lba, capacity);
    OldestIsLast(entries, kept, slots, m);
    EvictOrder(entries, kept, slots, e);
    after := [slots[capacity - 1]] + slots[..capacity - 1];
  }

  // ---------- what a transfer adds to the history ----------

  /** A read uses each sector once. */
  function Reads(lba: nat, n: nat): (r: seq<nat>)
    ensures |r| == n
  {
    if n == 0 then [] else Reads(lba, n - 1) + [lba + n - 1]
  }

  /** A write uses each sector twice: it is fetched, then changed. */
  function Writes(lba: nat, n: nat): (r: seq<nat>)
    ensures |r| == 2 * n
  {
    if n == 0 then [] else Writes(lba, n - 1) + [lba + n - 1, lba + n - 1]
  }

  lemma NoReads(lba: nat)
    ensures Reads(lba, 0) == []
  {
  }

  lemma ReadsStep(lba: nat, n: nat)
    ensures Reads(lba, n + 1) == Reads(lba, n) + [lba + n]
  {
  }

  lemma NoWrites(lba: nat)
    ensures Writes(lba, 0) == []
  {
  }

  lemma WritesStep(lba: nat, n: nat)
    ensures Writes(lba, n + 1) == Writes(lba, n) + [lba + n, lba + n]
  {
  }

  /** History and stamp after some accesses, and whether the stamp has wrapped around. */
  predicate Books(history: seq<nat>, stamp: nat, wrapped: bool, accesses: seq<nat>, history': seq<nat>, stamp': nat, wrapped': bool) {
    && history' == history + accesses && stamp' == (stamp + |accesses|) % STAMPS
    && (wrapped' <==> wrapped || stamp + |accesses| >= STAMPS)
  }

  lemma BooksJoin(h: seq<nat>, s: nat, w: bool, a: seq<nat>, h1: seq<nat>, s1: nat, w1: bool, b: seq<nat>, h2: seq<nat>, s2: nat, w2: bool)
    requires Books(h, s, w, a, h1, s1, w1) && Books(h1, s1, w1, b, h2, s2, w2)
    ensures Books(h, s, w, a + b, h2, s2, w2)
  {
    ModPlus(s + |a|, |b|);
  }

  lemma ModPlus(a: nat, b: nat)
    ensures (a % STAMPS + b) % STAMPS == (a + b) % STAMPS
    ensures a >= STAMPS || a % STAMPS + b >= STAMPS <==> a + b >= STAMPS
  {
  }

  lemma NothingBooked(h: seq<nat>, s: nat, w: bool)
    requires s <= U64_MAX
    ensures Books(h, s, w, [], h, s, w)
  {
  }

  lemma OneBooked(h: seq<nat>, s: nat, w: bool, l: nat)
    requires s <= U64_MAX
    ensures Books(h, s, w, [l], h + [l], if s >= U64_MAX then 0 else s + 1, w || s >= U64_MAX)
  {
  }

  class CachedDevice {
    const sectorSize: nat
    const capacity: nat
    var inner: Device
    var entries: seq<Entry>
    var stamp: nat
    var misses: nat
    ghost var logical: Device      // what the device holds, caching aside
    ghost var history: seq<nat>    // the sectors accessed, in order
    ghost var wrapped: bool        // the stamp has wrapped around
    ghost var slots: seq<nat>

    /** Until the stamp wraps, the cache holds the most recently used sectors. */
    ghost predicate Fresh()
      reads this
    {
      LruState(entries, history, capacity, slots, stamp, misses)
    }

    ghost predicate Valid()
      reads this
    {
      && sectorSize > 0 && capacity > 0 && |entries| <= capacity && stamp <= U64_MAX
      && Agreement(inner, entries, logical, sectorSize) && (!wrapped ==> Fresh())
    }

    constructor (device: Device, size: nat, sectors: nat)
      requires size > 0 && sectors > 0 && forall l :: 0 <= l < |device| ==> |device[l]| == size
      ensures Valid() && logical == device && inner == device && !wrapped && stamp == 0 && history == [] && capacity == sectors && sectorSize == size
    {
      hide LruState, Agreement;
      sectorSize := size;
      capacity := sectors;
      inner := device;
      entries := [];
      stamp := 0;
      misses := 0;
      logical := device;
      history := [];
      wrapped := false;
      slots := [];
      new;
      EmptyCache(device, size, sectors);
    }

    /** Nothing reaches the device while there are slots to spare; slots are not given up. */
    ghost predicate Lazy(before: Device, slots: nat)
      reads this
    {
      slots <= |entries| && (|entries| < capacity ==> inner == before)
    }

    lemma MissesCounted()
      requires Valid() && !wrapped
      ensures misses == Min(Misses(history, capacity), U64_MAX)
    {
      hide Agreement, InOrder, Kept, Misses;
    }

    function NextStamp(): nat
      reads this
    {
      if stamp >= U64_MAX then 0 else stamp + 1
    }

    /** Finds the slot of a cached sector. */
    method Position(lba: nat) returns (r: Option<nat>)
      requires Valid()
      ensures r.Some? ==> r.value < |entries| && entries[r.value].lba == lba
      ensures r.None? ==> !Cached(entries, lba)
    {
      hide LruState;
      for i := 0 to |entries|
        invariant forall j :: 0 <= j < i ==> entries[j].lba != lba
      {
        if entries[i].lba == lba {
          return Some(i);
        }
      }
      r := None;
    }

    /** The slot with the lowest stamp. */
    method Oldest() returns (m: nat)
      requires |entries| > 0
      ensures m < |entries| && forall i :: 0 <= i < |entries| ==> entries[m].stamp <= entries[i].stamp
    {
      m := 0;
      for i := 1 to |entries|
        invariant m < |entries| && forall j :: 0 <= j < i ==> entries[m].stamp <= entries[j].stamp
      {
        if entries[i].stamp < entries[m].stamp {
          m := i;
        }
      }
    }

    /** Writes a dirty slot to the inner device. */
    method WriteBack(index: nat)
      requires Valid() && index < |entries|
      modifies this`inner, this`entries
      ensures Valid() && |entries| == |old(entries)| && |inner| == |old(inner)| && !entries[index].dirty
      ensures forall i :: 0 <= i < |entries| ==> entries[i] == if i == index then old(entries)[i].(dirty := false) else old(entries)[i]
    {
      hide LruState, Agreement;
      CleanAgrees(inner, entries, logical, sectorSize, index);
      if entries[index].dirty {
        var entry := entries[index];
        inner := inner[entry.lba := entry.bytes];
        entries := entries[index := entry.(dirty := false)];
        if !wrapped {
          SameLru(old(entries), entries, history, capacity, slots, stamp, misses);
        }
      }
    }

    /** The next touch wraps the stamp around. */
    ghost method NoteWrap()
      requires Valid()
      modifies this`wrapped
      ensures Valid() && wrapped == (old(wrapped) || stamp >= U64_MAX)
    {
      hide LruState, Agreement;
      wrapped := wrapped || stamp >= U64_MAX;
    }

    /** What these accesses do to the books. */
    twostate predicate Noted(accesses: seq<nat>)
      reads this
    {
      |inner| == |old(inner)| && Books(old(history), old(stamp), old(wrapped), accesses, history, stamp, wrapped)
    }

    /** The slot of a sector, fetched if it is not cached. */
    method EntryFor(lba: nat) returns (index: nat)
      requires Valid() && lba < |inner|
      modifies this
      ensures Valid() && Noted([lba]) && logical == old(logical)
      ensures index < |entries| && entries[index].lba == lba && lba < |logical| && entries[index].bytes == logical[lba]
      ensures Lazy(old(inner), |old(entries)|)
    {
      hide LruState, Agreement, Books;
      var found := Position(lba);
      if found.Some? {
        index := found.value;
        AgreementAt(inner, entries, logical, sectorSize, index);
        SameLogical(logical, lba, entries[index].bytes);
        Touch(index, entries[index].bytes, entries[index].dirty);
      } else {
        index := Fetch(lba);
      }
    }

    /** Gives a slot contents and the newest stamp. */
    method Touch(index: nat, bytes: Sector, dirty: bool)
      requires Valid() && index < |entries| && |bytes| == sectorSize && entries[index].lba < |logical|
      requires dirty || (bytes == entries[index].bytes && !entries[index].dirty)
      modifies this
      ensures Valid() && Noted([old(entries[index].lba)]) && logical == old(logical)[old(entries[index].lba) := bytes]
      ensures |entries| == |old(entries)| && entries[index] == old(entries)[index].(bytes := bytes, dirty := dirty, stamp := stamp)
      ensures Lazy(old(inner), |old(entries)|)
    {
      hide LruState, Agreement, Books;
      NoteWrap();
      var next := NextStamp();
      var e := entries[index].(bytes := bytes, dirty := dirty, stamp := next);
      RewriteAgrees(inner, entries, logical, sectorSize, index, e);
      if !wrapped {
        slots := LruHit(entries, history, capacity, slots, stamp, misses, index, e);
      }
      OneBooked(history, stamp, old(wrapped), e.lba);
      logical := logical[e.lba := bytes];
      entries, stamp, history := entries[index := e], next, history + [e.lba];
    }

    /** Brings a sector in, over the least recently used one if need be. */
    method Fetch(lba: nat) returns (index: nat)
      requires Valid() && lba < |inner| && !Cached(entries, lba)
      modifies this
      ensures Valid() && Noted([lba]) && logical == old(logical)
      ensures index < |entries| && entries[index].lba == lba && lba < |logical| && entries[index].bytes == logical[lba]
      ensures Lazy(old(inner), |old(entries)|)
    {
      hide LruState, Agreement, Cached, Books;
      NoteWrap();
      var next := NextStamp();
      if |entries| < capacity {
        index := |entries|;
        var e := Entry(lba, inner[lba], false, next);
        PushAgrees(inner, entries, logical, sectorSize, e);
        if !wrapped {
          slots := LruPush(entries, history, capacity, slots, stamp, misses, e);
        }
        entries := entries + [e];
      } else {
        index := Oldest();
        ghost var before := entries;
        WriteBack(index);
        SameLbas(before, entries, lba);
        var e := Entry(lba, inner[lba], false, next);
        ReuseAgrees(inner, entries, logical, sectorSize, index, e);
        if !wrapped {
          slots := LruEvict(entries, history, capacity, slots, stamp, misses, index, e);
        }
        entries := entries[index := e];
      }
      OneBooked(history, stamp, old(wrapped), lba);
      stamp, history, misses := next, history + [lba], Min(misses + 1, U64_MAX);
      AgreementAt(inner, entries, logical, sectorSize, index);
    }

    /** Reads through the cache. */
    method ReadSectors(lba: u64, length: nat) returns (r: Result<seq<byte>>)
      requires Valid()
      modifies this
      ensures Valid() && logical == old(logical) && |inner| == |old(inner)|
      ensures match Transfer(|logical|, sectorSize, lba, length)
        case Err(e) => r == Err(e) && Noted([])
        case Ok(n) => lba + n <= |logical| && r == Ok(Flat(logical, sectorSize, lba, n)) && Noted(Reads(lba, n))
      ensures Lazy(old(inner), |old(entries)|)
    {
      hide LruState, Agreement, Reads, Books;
      NoReads(lba);
      NothingBooked(history, stamp, wrapped);
      AgreementSizes(inner, entries, logical, sectorSize);
      var transfer := Transfer(|inner|, sectorSize, lba, length);
      if transfer.Err? {
        return Err(transfer.error);
      }
      var output := [];
      for offset := 0 to transfer.value
        invariant Valid() && logical == old(logical) && Noted(Reads(lba, offset))
        invariant Lazy(old(inner), |old(entries)|)
        invariant output == Flat(logical, sectorSize, lba, offset)
      {
        ReadsStep(lba, offset);
        ghost var h, s, w := history, stamp, wrapped;
        var index := EntryFor(lba + offset);
        BooksJoin(old(history), old(stamp), old(wrapped), Reads(lba, offset), h, s, w, [lba + offset], history, stamp, wrapped);
        output := output + entries[index].bytes;
      }
      r := Ok(output);
    }

    /** One round of `write_sectors`: the sector is fetched, then changed. */
    method WriteSector(lba: nat, bytes: Sector)
      requires Valid() && lba < |inner| && |bytes| == sectorSize
      modifies this
      ensures Valid() && lba < |old(logical)| && logical == old(logical)[lba := bytes] && Noted([lba, lba])
      ensures Lazy(old(inner), |old(entries)|)
    {
      hide LruState, Agreement;
      var index := EntryFor(lba);
      ghost var h, s, w := history, stamp, wrapped;
      Touch(index, bytes, true);
      BooksJoin(old(history), old(stamp), old(wrapped), [lba], h, s, w, [lba], history, stamp, wrapped);
      assert [lba] + [lba] == [lba, lba];
    }

    /** Writes into the cache. */
    method WriteSectors(lba: u64, input: seq<byte>) returns (r: Result<()>)
      requires Valid()
      modifies this
      ensures Valid() && |logical| == |old(logical)| && |inner| == |old(inner)|
      ensures forall l :: 0 <= l < |logical| ==> |logical[l]| == sectorSize
      ensures match Transfer(|logical|, sectorSize, lba, |input|)
        case Err(e) => r == Err(e) && logical == old(logical) && Noted([])
        case Ok(n) => r == Ok(()) && lba + n <= |logical| && Flat(logical, sectorSize, lba, n) == input && Noted(Writes(lba, n))
      ensures r.Ok? ==> forall l :: 0 <= l < |logical| && !(lba <= l < lba + |input| / sectorSize) ==> logical[l] == old(logical)[l]
      ensures Lazy(old(inner), |old(entries)|)
    {
      hide LruState, Agreement, Flat, Product, Transfer, Writes, Books;
      NoWrites(lba);
      NothingBooked(history, stamp, wrapped);
      TransferMeans(|inner|, sectorSize, lba, |input|);
      AgreementSizes(inner, entries, logical, sectorSize);
      var transfer := Transfer(|inner|, sectorSize, lba, |input|);
      if transfer.Err? {
        return Err(transfer.error);
      }
      var n := transfer.value;
      DivMod(|input|, sectorSize);
      ProductStart(sectorSize, n);
      assert |input| == sectorSize * n;
      var rest := input;
      FlatNone(logical, sectorSize, lba);
      for offset := 0 to n
        invariant Valid() && |logical| == |old(logical)| && Noted(Writes(lba, offset))
        invariant forall l :: 0 <= l < |logical| ==> |logical[l]| == sectorSize
        invariant Lazy(old(inner), |old(entries)|)
        invariant Product(|rest|, sectorSize, n - offset) && Flat(logical, sectorSize, lba, offset) + rest == input
        invariant forall l :: 0 <= l < |logical| && !(lba <= l < lba + n) ==> logical[l] == old(logical)[l]
      {
        ProductStep(|rest|, sectorSize, n - offset);
        WritesStep(lba, offset);
        FlatStore(logical, sectorSize, lba, offset, rest, input);
        ghost var h, s, w := history, stamp, wrapped;
        WriteSector(lba + offset, rest[..sectorSize]);
        BooksJoin(old(history), old(stamp), old(wrapped), Writes(lba, offset), h, s, w, [lba + offset, lba + offset], history, stamp, wrapped);
        rest := rest[sectorSize..];
      }
      ProductDone(|rest|, sectorSize);
      assert Flat(logical, sectorSize, lba, n) + rest == Flat(logical, sectorSize, lba, n);
      r := Ok(());
    }

    /** Writes every dirty slot back: the inner device then holds the contents. */
    method Flush()
      requires Valid()
      modifies this`inner, this`entries
      ensures Valid() && inner == logical && |entries| == |old(entries)|
    {
      hide LruState, Agreement;
      for i := 0 to |entries|
        invariant Valid() && |entries| == |old(entries)| && forall j :: 0 <= j < i ==> !entries[j].dirty
      {
        WriteBack(i);
      }
      AllClean(inner, entries, logical, sectorSize);
    }
  }

  lemma EmptyCache(device: Device, size: nat, capacity: nat)
    requires forall l :: 0 <= l < |device| ==> |device[l]| == size
    ensures Agreement(device, [], device, size) && LruState([], [], capacity, [], 0, 0)
  {
  }

  lemma SameLogical(logical: Device, l: nat, bytes: Sector)
    requires l < |logical| && logical[l] == bytes
    ensures logical[l := bytes] == logical
  {
  }

  lemma {:induction false} AllClean(inner: Device, entries: seq<Entry>, logical: Device, size: nat)
    requires Agreement(inner, entries, logical, size) && forall i :: 0 <= i < |entries| ==> !entries[i].dirty
    ensures inner == logical
  {
    forall l: nat | l < |inner| ensures inner[l] == logical[l] {
      if Cached(entries, l) {
        var i :| 0 <= i < |entries| && entries[i].lba == l;
        assert EntryOk(inner, logical, entries[i], size);
      }
    }
  }

  lemma AgreementAt(inner: Device, entries: seq<Entry>, logical: Device, size: nat, index: nat)
    requires Agreement(inner, entries, logical, size) && index < |entries|
    ensures entries[index].lba < |logical| && entries[index].bytes == logical[entries[index].lba] && |entries[index].bytes| == size
  {
    assert EntryOk(inner, logical, entries[index], size);
  }

  lemma AgreementSizes(inner: Device, entries: seq<Entry>, logical: Device, size: nat)
    requires Agreement(inner, entries, logical, size)
    ensures |inner| == |logical| && forall l :: 0 <= l < |logical| ==> |logical[l]| == size
  {
  }

  lemma SameLbas(entries: seq<Entry>, after: seq<Entry>, l: nat)
    requires |after| == |entries| && forall i :: 0 <= i < |entries| ==> after[i].lba == entries[i].lba
    ensures Cached(after, l) <==> Cached(entries, l)
  {
  }
}
