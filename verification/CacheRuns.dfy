/**
  Whole runs of requests through the cache: the answers are those of the plain device,
  and of two caches served the same requests the larger misses no more often.
 */
module CacheRuns {
  import opened Arithmetic
  import opened Bytes
  import opened Sectors
  import opened Lru
  import opened Cache

  datatype Request = Read(lba: u64, length: nat) | Write(lba: u64, input: seq<byte>) | Sync

  type Answer = Result<seq<byte>>

  predicate Even(dev: Device, size: nat) {
    size > 0 && forall l :: 0 <= l < |dev| ==> |dev[l]| == size
  }

  // ---------- the plain device ----------

  function Piece(bytes: seq<byte>, size: nat, k: nat): Sector {
    if k * size + size <= |bytes| then bytes[k * size..k * size + size] else []
  }

  /** The device with `n` sectors from `lba` on overwritten. */
  function Overwritten(dev: Device, size: nat, lba: nat, n: nat, bytes: seq<byte>): Device {
    seq(|dev|, l requires 0 <= l < |dev| => if lba <= l < lba + n then Piece(bytes, size, l - lba) else dev[l])
  }

  lemma {:induction false} FlatPiece(dev: Device, size: nat, lba: nat, n: nat, k: nat)
    requires Even(dev, size) && lba + n <= |dev| && k < n
    ensures Piece(Flat(dev, size, lba, n), size, k) == dev[lba + k]
  {
    FlatLength(dev, size, lba, n - 1);
    FlatSplit(dev, size, lba, n);
    var front := Flat(dev, size, lba, n - 1);
    assert |front| == size * (n - 1) == (n - 1) * size;
    if k < n - 1 {
      FlatPiece(dev, size, lba, n - 1, k);
      MulStep(k, n - 1, size);
      PieceOfPrefix(front, dev[lba + n - 1], size, k);
    }
  }

  lemma PieceOfPrefix(a: seq<byte>, b: seq<byte>, size: nat, k: nat)
    requires k * size + size <= |a|
    ensures Piece(a + b, size, k) == Piece(a, size, k)
  {
    SliceOfMiddle([], a, b, k * size, k * size + size);
    assert [] + a + b == a + b;
  }

  /** What the sectors hold determines the device. */
  lemma {:induction false} HoldsDetermines(dev: Device, after: Device, size: nat, lba: nat, n: nat)
    requires Even(after, size) && |after| == |dev| && lba + n <= |dev|
    requires forall l :: 0 <= l < |dev| && !(lba <= l < lba + n) ==> after[l] == dev[l]
    ensures after == Overwritten(dev, size, lba, n, Flat(after, size, lba, n))
  {
    hide Flat, Piece;
    var o := Overwritten(dev, size, lba, n, Flat(after, size, lba, n));
    forall l | 0 <= l < |dev| ensures after[l] == o[l] {
      if lba <= l < lba + n {
        FlatPiece(after, size, lba, n, l - lba);
      }
    }
  }

  lemma {:induction false} PlainMeans(sectors: nat, size: nat, lba: u64, length: nat)
    requires size > 0
    ensures var r := PlainTransfer(sectors, size, lba, length);
      && (r.Ok? ==> r.value == length / size && length % size == 0 && lba + r.value <= sectors)
      && (length == 0 ==> r != Err(InvalidBuffer))
    ensures length > 0 ==> Transfer(sectors, size, lba, length) == PlainTransfer(sectors, size, lba, length)
  {
    TransfersAgree(sectors, size, lba, length);
    DivMod(length, size);
    if length == 0 && lba > sectors {
      MulStep(sectors, lba, size);
    }
  }

  /** What the plain device becomes and answers. */
  ghost function Plain(dev: Device, size: nat, q: Request): (Device, Answer)
    requires Even(dev, size)
  {
    match q
    case Read(lba, length) =>
      PlainMeans(|dev|, size, lba, length);
      (dev, match PlainTransfer(|dev|, size, lba, length) case Err(e) => Err(e) case Ok(n) => Ok(Flat(dev, size, lba, n)))
    case Write(lba, input) =>
      (match PlainTransfer(|dev|, size, lba, |input|)
       case Err(e) => (dev, Err(e))
       case Ok(n) => (Overwritten(dev, size, lba, n, input), Ok([])))
    case Sync => (dev, Ok([]))
  }

  /** A transfer of no bytes, which the cache refuses and the device does not. */
  predicate Empty(q: Request) {
    (q.Read? && q.length == 0) || (q.Write? && q.input == [])
  }

  lemma {:induction false} EmptyPlain(dev: Device, size: nat, q: Request)
    requires Even(dev, size) && Empty(q)
    ensures Plain(dev, size, q).0 == dev && Plain(dev, size, q).1 != Err(InvalidBuffer)
    ensures Accesses(|dev|, size, q) == []
  {
    hide Flat, PlainTransfer;
    PlainMeans(|dev|, size, q.lba, 0);
    assert Overwritten(dev, size, q.lba, 0, []) == dev;
  }

  /** The shortest request on which the two differ. */
  lemma {:induction false} EmptyReadDiffers(dev: Device, size: nat)
    requires Even(dev, size)
    ensures Plain(dev, size, Read(0, 0)).1 == Ok([]) && Transfer(|dev|, size, 0, 0) == Err(InvalidBuffer)
  {
    FlatNone(dev, size, 0);
  }

  /** The sectors a request uses. */
  function Accesses(sectors: nat, size: nat, q: Request): seq<nat>
    requires size > 0
  {
    match q
    case Read(lba, length) => (match Transfer(sectors, size, lba, length) case Err(_) => [] case Ok(n) => Reads(lba, n))
    case Write(lba, input) => (match Transfer(sectors, size, lba, |input|) case Err(_) => [] case Ok(n) => Writes(lba, n))
    case Sync => []
  }

  lemma {:induction false} PlainEven(dev: Device, size: nat, q: Request)
    requires Even(dev, size)
    ensures Even(Plain(dev, size, q).0, size) && |Plain(dev, size, q).0| == |dev|
  {
    if q.Write? && PlainTransfer(|dev|, size, q.lba, |q.input|).Ok? {
      var n := |q.input| / size;
      DivMod(|q.input|, size);
      forall k: nat | k < n ensures |Piece(q.input, size, k)| == size {
        MulStep(k, n, size);
      }
    }
  }

  /** A run on the plain device: what it becomes, and every answer. */
  ghost function PlainRun(dev: Device, size: nat, qs: seq<Request>): (Device, seq<Answer>)
    requires Even(dev, size)
    ensures Even(PlainRun(dev, size, qs).0, size) && |PlainRun(dev, size, qs).0| == |dev|
  {
    if qs == [] then (dev, [])
    else
      var before := PlainRun(dev, size, qs[..|qs| - 1]);
      PlainEven(before.0, size, qs[|qs| - 1]);
      var step := Plain(before.0, size, qs[|qs| - 1]);
      (step.0, before.1 + [step.1])
  }

  lemma {:induction false} PlainRunAt(dev: Device, size: nat, qs: seq<Request>, k: nat)
    requires Even(dev, size) && k < |qs|
    ensures |PlainRun(dev, size, qs).1| == |qs| && PlainRun(dev, size, qs).1[k] == Plain(PlainRun(dev, size, qs[..k]).0, size, qs[k]).1
  {
    hide Plain;
    var n := |qs| - 1;
    if k < n {
      PlainRunAt(dev, size, qs[..n], k);
      assert qs[..n][..k] == qs[..k];
    } else if n > 0 {
      PlainRunAt(dev, size, qs[..n], 0);
    } else {
      assert qs[..n] == [];
    }
  }

  /** What the cache answers: as the plain device, but for empty transfers. */
  ghost predicate Answers(rs: seq<Answer>, plain: seq<Answer>, qs: seq<Request>) {
    && |rs| == |plain| == |qs|
    && forall k :: 0 <= k < |qs| ==> rs[k] == if Empty(qs[k]) then Err(InvalidBuffer) else plain[k]
  }

  lemma NoAnswers()
    ensures Answers([], [], [])
  {
  }

  lemma {:induction false} AnswersNext(dev: Device, size: nat, qs: seq<Request>, i: nat, rs: seq<Answer>, r: Answer)
    requires Even(dev, size) && i < |qs| && Answers(rs, PlainRun(dev, size, qs[..i]).1, qs[..i])
    requires r == if Empty(qs[i]) then Err(InvalidBuffer) else Plain(PlainRun(dev, size, qs[..i]).0, size, qs[i]).1
    ensures Answers(rs + [r], PlainRun(dev, size, qs[..i + 1]).1, qs[..i + 1])
  {
    hide Plain, Empty;
    assert qs[..i + 1][..i] == qs[..i];
  }

  /** So the answers of a run agree exactly when no transfer is empty. */
  lemma {:induction false} AnswersAgree(dev: Device, size: nat, rs: seq<Answer>, qs: seq<Request>)
    requires Even(dev, size) && Answers(rs, PlainRun(dev, size, qs).1, qs)
    ensures rs == PlainRun(dev, size, qs).1 <==> forall k :: 0 <= k < |qs| ==> !Empty(qs[k])
  {
    hide PlainRun, Plain;
    forall k | 0 <= k < |qs| && Empty(qs[k]) ensures rs[k] != PlainRun(dev, size, qs).1[k] {
      PlainRunAt(dev, size, qs, k);
      EmptyPlain(PlainRun(dev, size, qs[..k]).0, size, qs[k]);
    }
  }

  function AllAccesses(sectors: nat, size: nat, qs: seq<Request>): seq<nat>
    requires size > 0
  {
    if qs == [] then [] else AllAccesses(sectors, size, qs[..|qs| - 1]) + Accesses(sectors, size, qs[|qs| - 1])
  }

  // ---------- through the cache ----------

  method Serve(c: CachedDevice, q: Request) returns (r: Answer)
    requires c.Valid() && Even(c.logical, c.sectorSize)
    modifies c
    ensures c.Valid() && c.logical == Plain(old(c.logical), c.sectorSize, q).0
    ensures r == if Empty(q) then Err(InvalidBuffer) else Plain(old(c.logical), c.sectorSize, q).1
    ensures q.Sync? ==> c.inner == c.logical
    ensures Books(old(c.history), old(c.stamp), old(c.wrapped), Accesses(|old(c.logical)|, c.sectorSize, q), c.history, c.stamp, c.wrapped)
  {
    hide LruState, Agreement, Flat, Piece, Books, Overwritten, Reads, Writes, PlainTransfer;
    NothingBooked(c.history, c.stamp, c.wrapped);
    if Empty(q) {
      EmptyPlain(c.logical, c.sectorSize, q);
    } else if !q.Sync? {
      PlainMeans(|c.logical|, c.sectorSize, q.lba, if q.Read? then q.length else |q.input|);
    }
    match q {
      case Read(lba, length) =>
        r := c.ReadSectors(lba, length);
      case Write(lba, input) =>
        var w := c.WriteSectors(lba, input);
        if w.Ok? {
          TransferMeans(|old(c.logical)|, c.sectorSize, lba, |input|);
          HoldsDetermines(old(c.logical), c.logical, c.sectorSize, lba, |input| / c.sectorSize);
        }
        r := if w.Ok? then Ok([]) else Err(w.error);
      case Sync =>
        c.Flush();
        r := Ok([]);
    }
  }

  /**
    Any run of reads, writes and flushes through the cache leaves what the plain device
    would hold, and answers as it does but for empty transfers.
   */
  method ServeAll(c: CachedDevice, qs: seq<Request>) returns (rs: seq<Answer>)
    requires c.Valid() && Even(c.logical, c.sectorSize)
    modifies c
    ensures c.Valid() && c.logical == PlainRun(old(c.logical), c.sectorSize, qs).0
    ensures Answers(rs, PlainRun(old(c.logical), c.sectorSize, qs).1, qs)
    ensures rs == PlainRun(old(c.logical), c.sectorSize, qs).1 <==> forall k :: 0 <= k < |qs| ==> !Empty(qs[k])
    ensures Books(old(c.history), old(c.stamp), old(c.wrapped), AllAccesses(|old(c.logical)|, c.sectorSize, qs), c.history, c.stamp, c.wrapped)
  {
    hide Books, Plain, Accesses, Empty, Answers;
    ghost var dev, size := c.logical, c.sectorSize;
    NothingBooked(c.history, c.stamp, c.wrapped);
    rs := [];
    assert qs[..0] == [];
    NoAnswers();
    for i := 0 to |qs|
      invariant c.Valid() && c.logical == PlainRun(dev, size, qs[..i]).0
      invariant Answers(rs, PlainRun(dev, size, qs[..i]).1, qs[..i])
      invariant Books(old(c.history), old(c.stamp), old(c.wrapped), AllAccesses(|dev|, size, qs[..i]), c.history, c.stamp, c.wrapped)
    {
      ghost var h, s, w := c.history, c.stamp, c.wrapped;
      assert qs[..i + 1][..i] == qs[..i];
      var r := Serve(c, qs[i]);
      AnswersNext(dev, size, qs, i, rs, r);
      BooksJoin(old(c.history), old(c.stamp), old(c.wrapped), AllAccesses(|dev|, size, qs[..i]), h, s, w,
                Accesses(|dev|, size, qs[i]), c.history, c.stamp, c.wrapped);
      rs := rs + [r];
    }
    assert qs[..|qs|] == qs;
    AnswersAgree(dev, size, rs, qs);
  }

  lemma BooksFromStart(accesses: seq<nat>, h: seq<nat>, s: nat, w: bool)
    requires Books([], 0, false, accesses, h, s, w)
    ensures h == accesses && (w <==> |accesses| >= STAMPS)
  {
  }

  /**
    Two caches over the same device, served the same requests, give the same answers and
    hold what the plain device would;
    and as long as there are fewer than 2^64 accesses the larger counts no more misses.
   */
  method Compare(device: Device, size: nat, small: nat, large: nat, qs: seq<Request>)
    returns (a: CachedDevice, b: CachedDevice, ra: seq<Answer>, rb: seq<Answer>)
    requires Even(device, size) && 0 < small <= large
    ensures a.Valid() && b.Valid() && a.capacity == small && b.capacity == large
    ensures ra == rb && Answers(ra, PlainRun(device, size, qs).1, qs) && a.logical == b.logical == PlainRun(device, size, qs).0
    ensures a.wrapped == b.wrapped == (|AllAccesses(|device|, size, qs)| >= STAMPS)
    ensures !a.wrapped ==> b.misses <= a.misses
  {
    hide PlainRun, AllAccesses, Agreement, LruState, Misses, Books;
    a := new CachedDevice(device, size, small);
    b := new CachedDevice(device, size, large);
    ra := ServeAll(a, qs);
    rb := ServeAll(b, qs);
    BooksFromStart(AllAccesses(|device|, size, qs), a.history, a.stamp, a.wrapped);
    BooksFromStart(AllAccesses(|device|, size, qs), b.history, b.stamp, b.wrapped);
    if !a.wrapped {
      a.MissesCounted();
      b.MissesCounted();
      LargerMissesLess(a.history, small, large);
    }
  }
}
