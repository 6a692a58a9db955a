/**
  Whole sessions: mount, any sequence of requests, unmount.  The files seen afterwards
  are those the requests describe, and a power failure on the way leaves the volume
  as it was before or as it is after, or one that the checker refuses.
 */
module NexSession {
  import opened Bytes
  import opened NexLayout
  import opened NexVolume
  import opened NexLog
  import opened NexTree
  import opened NexPath
  import opened NexState
  import opened NexCommit
  import opened NexCheck
  import opened NexSpare
  import opened NexLeak
  import opened NexFsVolume
  import opened NexCrash

  datatype Request =
    | WriteAt(path: seq<byte>, offset: nat, input: seq<byte>)
    | Resize(path: seq<byte>, size: nat)
    | Make(path: seq<byte>, kind: FileType, permissions: u16)
    | Delete(path: seq<byte>)
    | Move(path: seq<byte>, destination: seq<byte>)

  /** Paths are strings in the source. */
  predicate Textual(q: Request) {
    Utf8(q.path) && (q.Move? ==> Utf8(q.destination))
  }

  function BytesOf(o: Option<Object>): seq<byte> {
    match o
    case Some(FileObject(bytes)) => bytes
    case _ => []
  }

  /** What path `p` names after the requests, in terms of what it and others named before. */
  function After(start: Fs, served: seq<Request>, p: Path): Option<Object>
    decreases |served|
  {
    if served == [] then At(start, p)
    else
      var rest := served[..|served| - 1];
      match served[|served| - 1]
      case WriteAt(path, offset, input) =>
        if p == PathOf(path) then Some(FileObject(Spliced(BytesOf(After(start, rest, p)), offset, input))) else After(start, rest, p)
      case Resize(path, size) =>
        if p == PathOf(path) then Some(FileObject(Resized(BytesOf(After(start, rest, p)), size))) else After(start, rest, p)
      case Make(path, kind, _) =>
        if p == PathOf(path) then Some(EmptyObject(kind)) else After(start, rest, p)
      case Delete(path) =>
        if p == PathOf(path) then None else After(start, rest, p)
      case Move(path, destination) =>
        var src, dst := PathOf(path), PathOf(destination);
        if dst <= p then After(start, rest, src + p[|dst|..]) else if src <= p then None else After(start, rest, p)
  }

  /** The tree `fs` is what the requests served so far make of `start`. */
  ghost predicate Reflects(fs: Fs, start: Fs, served: seq<Request>) {
    forall p: Path :: At(fs, p) == After(start, served, p)
  }

  lemma ReflectsStart(start: Fs)
    ensures Reflects(start, start, [])
  {
  }

  /** What one request does to every path. */
  ghost predicate Served(before: Fs, after: Fs, q: Request) {
    match q
    case WriteAt(path, offset, input) => forall p: Path ::
      At(after, p) == if p == PathOf(path) then Some(FileObject(Spliced(BytesAt(before, p), offset, input))) else At(before, p)
    case Resize(path, size) => forall p: Path ::
      At(after, p) == if p == PathOf(path) then Some(FileObject(Resized(BytesAt(before, p), size))) else At(before, p)
    case Make(path, kind, _) => forall p: Path ::
      At(after, p) == if p == PathOf(path) then Some(EmptyObject(kind)) else At(before, p)
    case Delete(path) => forall p: Path ::
      At(after, p) == if p == PathOf(path) then None else At(before, p)
    case Move(path, destination) => forall p: Path ::
      At(after, p) == MovedAt(before, PathOf(path), PathOf(destination), p)
  }

  lemma {:induction false} ReflectsStep(before: Fs, after: Fs, start: Fs, served: seq<Request>, q: Request)
    requires Reflects(before, start, served) && Served(before, after, q)
    ensures Reflects(after, start, served + [q])
  {
    hide At, PathOf, Spliced, Resized;
    var more := served + [q];
    assert more[..|more| - 1] == served && more[|more| - 1] == q;
    forall p: Path ensures At(after, p) == After(start, more, p) {
      assert BytesAt(before, p) == BytesOf(At(before, p));
    }
  }

  /** Errors that a request can run into after it has started to write. */
  predicate Halts(q: Request, e: FsError) {
    (e == NoSpace && !q.Delete?) || (e == FileTooLarge && q.Make?)
  }

  /** Why the request fails on volume `v`, if it does. */
  ghost function Refusal(v: Vol, q: Request): Option<FsError> {
    match q
    case WriteAt(path, offset, input) => ResizeError(v, path, offset + |input|)
    case Resize(path, size) => ResizeError(v, path, size)
    case Make(path, _, _) => CreateError(v, path)
    case Delete(path) => RemoveError(v, path)
    case Move(path, destination) => RenameError(v, path, destination)
  }

  function Outcome(e: Option<FsError>): Result<()> {
    match e case None => Ok(()) case Some(e) => Err(e)
  }

  /** What a failed request leaves of the paths: all, or all outside the directory it was to enter. */
  ghost predicate Unmoved(before: Fs, after: Fs, q: Request) {
    match q
    case Make(path, _, _) => KeepsOutside(before, after, PathOf(path))
    case Move(_, destination) => KeepsOutside(before, after, PathOf(destination))
    case _ => after == before
  }

  /** What a successful request does to the permissions. */
  ghost predicate Permitted(v: Vol, w: Vol, q: Request) {
    match q
    case Make(path, _, permissions) =>
      var n := Lookup(FsAt(w), PathOf(path));
      n.Some? && n.value !in Modes(v) && Modes(w) == Modes(v)[n.value := permissions]
    case Delete(path) =>
      var n := Lookup(FsAt(v), PathOf(path));
      n.Some? && Modes(w) == Modes(v) - {n.value}
    case _ => Modes(w) == Modes(v)
  }

  /** One request takes volume `v` to `w` with outcome `r`. */
  ghost predicate Answered(v: Vol, q: Request, r: Result<()>, w: Vol) {
    && r == Outcome(Refusal(v, q))
    && (r.Ok? ==> WellFormed(w) && Served(FsAt(v), FsAt(w), q) && Permitted(v, w, q))
    && (r.Err? && !Halts(q, r.error) ==> w == v)
    && (r.Err? ==> KeepsContents(FsAt(v), FsAt(w)) && Unmoved(FsAt(v), FsAt(w), q))
    && (r == Err(NoSpace) && (q.WriteAt? || q.Resize?) ==> (WellFormed(w) <==> NoneFree(v)))
  }

  /** The requests that change the bytes of a file. */
  method ServeContents(fs: NexFs, q: Request) returns (r: Result<()>)
    requires fs.Ready() && (q.WriteAt? || q.Resize?)
    modifies fs`disk, fs`sb, fs`log
    ensures fs.Mounted() && old(fs.log) <= fs.log
    ensures Answered(old(fs.V()), q, r, fs.V())
    ensures r.Ok? || !Halts(q, r.error) ==> fs.Ready() && Later(old(fs.sb), fs.sb, if r.Ok? then 1 else 0)
  {
    hide NexFs.Mounted, WellFormed, FsAt, At, BytesAt, PathOf, Spliced, Resized, View, ResizeError, KeepsContents, NoneFree, Modes, Lookup, Later;
    ghost var before := fs.Files();
    KeepsAll(before, []);
    LaterSelf(fs.sb);
    match q {
      case WriteAt(path, offset, input) =>
        var a := fs.WriteFile(path, offset, input);
        r := if a.Ok? then Ok(()) else Err(a.error);
        assert r.Ok? ==> Served(before, fs.Files(), q);
      case Resize(path, size) =>
        var a := fs.Truncate(path, size);
        r := if a.Ok? then Ok(()) else Err(a.error);
        assert r.Ok? ==> Served(before, fs.Files(), q);
    }
  }

  method Serve(fs: NexFs, q: Request) returns (r: Result<()>)
    requires fs.Ready() && Textual(q)
    modifies fs`disk, fs`sb, fs`log
    ensures fs.Mounted() && old(fs.log) <= fs.log
    ensures Answered(old(fs.V()), q, r, fs.V())
    ensures r.Ok? || !Halts(q, r.error) ==> fs.Ready() && Later(old(fs.sb), fs.sb, if r.Ok? then 1 else 0)
  {
    hide NexFs.Mounted, WellFormed, FsAt, At, MovedAt, PathOf, Utf8, View, CreateError, RemoveError, RenameError, KeepsContents, KeepsOutside, NoneFree, Created, Lookup, EmptyObject, Modes, Later;
    ghost var before := fs.Files();
    KeepsAll(before, []);
    LaterSelf(fs.sb);
    if q.WriteAt? || q.Resize? {
      r := ServeContents(fs, q);
      return;
    }
    match q {
      case Make(path, kind, permissions) =>
        var a := fs.Create(path, kind, permissions);
        r := if a.Ok? then Ok(()) else Err(a.error);
        assert r.Ok? ==> Served(before, fs.Files(), q);
      case Delete(path) =>
        var a := fs.Remove(path);
        r := if a.Ok? then Ok(()) else Err(a.error);
        assert r.Ok? ==> Served(before, fs.Files(), q);
      case Move(path, destination) =>
        var a := fs.Rename(path, destination);
        r := if a.Ok? then Ok(()) else Err(a.error);
        assert r.Ok? ==> Served(before, fs.Files(), q);
    }
  }

  /** The volumes a session goes through: one request after the other, each with its outcome. */
  ghost predicate Course(vs: seq<Vol>, requests: seq<Request>, outcomes: seq<Result<()>>) {
    && |vs| == |outcomes| + 1 && |outcomes| <= |requests|
    && forall k :: 0 <= k < |outcomes| ==> Answered(vs[k], requests[k], outcomes[k], vs[k + 1])
  }

  /** The requests that succeeded, in order. */
  function Successes(requests: seq<Request>, outcomes: seq<Result<()>>): seq<Request>
    requires |outcomes| <= |requests|
  {
    if outcomes == [] then []
    else
      var last := |outcomes| - 1;
      Successes(requests, outcomes[..last]) + if outcomes[last].Ok? then [requests[last]] else []
  }

  predicate HaltedAt(requests: seq<Request>, outcomes: seq<Result<()>>, k: nat)
    requires |outcomes| <= |requests|
  {
    k < |outcomes| && outcomes[k].Err? && Halts(requests[k], outcomes[k].error)
  }

  /** Every request was tried, in order, up to the first that ran out of space. */
  ghost predicate Complete(requests: seq<Request>, outcomes: seq<Result<()>>, halted: bool) {
    && |outcomes| <= |requests|
    && (if halted then outcomes != [] && HaltedAt(requests, outcomes, |outcomes| - 1) else |outcomes| == |requests|)
    && forall k: nat :: HaltedAt(requests, outcomes, k) ==> halted && k == |outcomes| - 1
  }

  lemma CourseStep(vs: seq<Vol>, requests: seq<Request>, outcomes: seq<Result<()>>, r: Result<()>, w: Vol)
    requires Course(vs, requests, outcomes) && |outcomes| < |requests|
    requires Answered(vs[|outcomes|], requests[|outcomes|], r, w)
    ensures Course(vs + [w], requests, outcomes + [r])
    ensures Successes(requests, outcomes + [r]) == Successes(requests, outcomes) + if r.Ok? then [requests[|outcomes|]] else []
  {
    hide Answered;
    var more := outcomes + [r];
    assert more[..|more| - 1] == outcomes;
    forall k | 0 <= k < |more| ensures Answered((vs + [w])[k], requests[k], more[k], (vs + [w])[k + 1]) {
      assert k < |outcomes| ==> Answered(vs[k], requests[k], outcomes[k], vs[k + 1]);
    }
  }

  lemma CourseStart(v: Vol, requests: seq<Request>)
    ensures Course([v], requests, []) && Successes(requests, []) == []
  {
  }

  /** What the volumes of a course hold is what the successful requests describe. */
  lemma {:induction false} CourseReflects(vs: seq<Vol>, requests: seq<Request>, outcomes: seq<Result<()>>)
    requires Course(vs, requests, outcomes) && forall k: nat :: !HaltedAt(requests, outcomes, k)
    ensures Reflects(FsAt(vs[|outcomes|]), FsAt(vs[0]), Successes(requests, outcomes))
    decreases |outcomes|
  {
    hide Reflects, FsAt, Served, Refusal, WellFormed;
    if outcomes == [] {
      ReflectsStart(FsAt(vs[0]));
    } else {
      var n := |outcomes| - 1;
      var before, os := vs[..n + 1], outcomes[..n];
      forall k | 0 <= k < n ensures Answered(before[k], requests[k], os[k], before[k + 1]) {
        assert Answered(vs[k], requests[k], outcomes[k], vs[k + 1]);
      }
      forall k: nat ensures !HaltedAt(requests, os, k) { assert !HaltedAt(requests, outcomes, k); }
      CourseReflects(before, requests, os);
      assert Answered(vs[n], requests[n], outcomes[n], vs[n + 1]);
      assert !HaltedAt(requests, outcomes, n);
      var served := Successes(requests, os);
      if outcomes[n].Ok? {
        ReflectsStep(FsAt(vs[n]), FsAt(vs[n + 1]), FsAt(vs[0]), served, requests[n]);
      } else {
        assert served + [] == served;
      }
    }
  }

  /** What is promised about any crash during the session that wrote `log`. */
  ghost predicate CrashSafe(image: Disk, log: seq<DiskEvent>, final: Disk) {
    forall sector: nat, crash: Disk :: ValidSector(sector) && CrashImage(image, log, sector, crash) && Accepts(crash) ==>
      SameBut(crash, image, sector) || SameBut(crash, final, sector)
  }

  /** The volume an accepted image holds. */
  ghost function VolumeOn(image: Disk): Vol
    requires Accepts(image)
  {
    AcceptedFits(image);
    View(image, GeometryOf(DecodeSuperblock(image[1]).value))
  }

  /**
    Mount, serve requests until one runs out of space, unmount.  The volume goes from
    the one on the image through one step for each request tried; `!halted` means that
    all of them were.
   */
  method Session(image: Disk, requests: seq<Request>)
    returns (r: Result<Disk>, outcomes: seq<Result<()>>, halted: bool, ghost log: seq<DiskEvent>, ghost vs: seq<Vol>)
    requires forall q <- requests :: Textual(q)
    ensures r.Ok? <==> Accepts(image)
    ensures r.Ok? ==> r.value == Replay(image, log) && CrashSafe(image, log, r.value)
    ensures r.Ok? ==> Complete(requests, outcomes, halted) && Course(vs, requests, outcomes) && vs[0] == VolumeOn(image)
    ensures r.Ok? ==> (Accepts(r.value) <==> WellFormed(vs[|outcomes|]))
    ensures r.Ok? && !halted ==> Aged(image, r.value, |Successes(requests, outcomes)| + 2)
    ensures r.Ok? && !halted ==>
      && Accepts(r.value) && VolumeOn(r.value) == vs[|outcomes|]
      && Reflects(TreeOn(r.value), TreeOn(image), Successes(requests, outcomes))
  {
    hide NexFs.Mounted, Accepts, WellFormed, FsAt, View, Replay, CrashSafe, Reflects, Answered, Course, Successes, Textual, OpenLog,
         DecodeSuperblock, EncodeSuperblock, Later, MarkDirty, MarkClean;
    outcomes, halted, log, vs := [], false, [], [];
    var mounted := NexFs.Mount(image);
    if mounted.Err? {
      return Err(mounted.error), [], false, [], [];
    }
    var fs := mounted.value;
    AcceptedFits(image);
    TreeOf(image, DecodeSuperblock(image[1]).value, fs.V());
    vs := [fs.V()];
    CourseStart(fs.V(), requests);
    ghost var dirty := fs.sb;
    LaterSelf(dirty);
    while |outcomes| < |requests| && !halted
      invariant |outcomes| <= |requests| && fs.Mounted() && fs.base == image
      invariant Course(vs, requests, outcomes) && |vs| == |outcomes| + 1 && vs[0] == VolumeOn(image) && vs[|outcomes|] == fs.V()
      invariant !halted ==> fs.Ready() && Later(dirty, fs.sb, |Successes(requests, outcomes)|)
      invariant halted ==> outcomes != [] && HaltedAt(requests, outcomes, |outcomes| - 1)
      invariant forall k: nat :: HaltedAt(requests, outcomes, k) ==> halted && k == |outcomes| - 1
    {
      var q := requests[|outcomes|];
      ghost var before := fs.sb;
      var done := Serve(fs, q);
      CourseStep(vs, requests, outcomes, done, fs.V());
      if done.Ok? || !Halts(q, done.error) {
        LaterTwice(dirty, before, fs.sb, |Successes(requests, outcomes)|, if done.Ok? then 1 else 0);
      }
      forall k: nat | k < |outcomes| ensures HaltedAt(requests, outcomes + [done], k) == HaltedAt(requests, outcomes, k) {}
      outcomes, vs := outcomes + [done], vs + [fs.V()];
      halted := done.Err? && Halts(q, done.error);
    }
    ghost var open, v := fs.log, fs.V();
    if !halted {
      AcceptedClean(image);
      DirtyThenClean(DecodeSuperblock(image[1]).value, fs.sb, |Successes(requests, outcomes)|);
    }
    MountedLog(fs);
    var _ := fs.Unmount();
    log := fs.log;
    SessionCrashSafe(image, open, log, EncodeSuperblock(fs.sb));
    if !halted {
      TreeOf(fs.disk, fs.sb, v);
      CourseReflects(vs, requests, outcomes);
    }
    r := Ok(fs.disk);
  }

  /** The superblock is the same but for the generation, which has gone up by `n`. */
  ghost predicate Aged(image: Disk, final: Disk, n: nat) {
    && |image| > 1 && |final| > 1 && DecodeSuperblock(image[1]).Ok? && DecodeSuperblock(final[1]).Ok?
    && Later(DecodeSuperblock(image[1]).value, DecodeSuperblock(final[1]).value, n)
  }

  lemma LaterSelf(sb: Superblock)
    ensures Later(sb, sb, 0)
  {
  }

  lemma LaterTwice(a: Superblock, b: Superblock, c: Superblock, m: nat, n: nat)
    requires Later(a, b, m) && Later(b, c, n)
    ensures Later(a, c, m + n)
  {
  }

  /** Marking dirty and clean again are two generations. */
  lemma DirtyThenClean(a: Superblock, b: Superblock, n: nat)
    requires a.IsClean() && Later(MarkDirty(a), b, n)
    ensures Later(a, MarkClean(b), n + 2)
  {
  }

  lemma AcceptedFits(disk: Disk)
    requires Accepts(disk)
    ensures |disk| > 1 && DecodeSuperblock(disk[1]).Ok? && Fits(disk, GeometryOf(DecodeSuperblock(disk[1]).value))
  {
    hide WellFormed, View, DecodeSuperblock;
    DecodedValid(disk[1]);
  }

  lemma AcceptedClean(disk: Disk)
    requires Accepts(disk)
    ensures |disk| > 1 && DecodeSuperblock(disk[1]).Ok? && DecodeSuperblock(disk[1]).value.IsClean()
  {
    hide WellFormed, View, DecodeSuperblock;
  }

  lemma MountedLog(fs: NexFs)
    requires fs.Mounted()
    ensures OpenLog(fs.log) && |fs.base| > 1
  {
    hide Replay;
  }

  lemma TreeOf(disk: Disk, sb: Superblock, v: Vol)
    requires Accepts(disk) && DecodeSuperblock(disk[1]) == Ok(sb) && Fits(disk, GeometryOf(sb)) && View(disk, GeometryOf(sb)) == v
    ensures TreeOn(disk) == FsAt(v)
  {
    hide WellFormed, View, DecodeSuperblock, FsAt;
  }

  lemma {:induction false} SessionCrashSafe(image: Disk, open: seq<DiskEvent>, log: seq<DiskEvent>, clean: Block)
    requires OpenLog(open) && |image| > 1 && log == open + [Flush, Write(1, clean), Flush]
    ensures CrashSafe(image, log, Replay(image, log))
  {
    hide Accepts, CrashAt, SameBut, OpenLog, Replay;
    forall sector: nat, crash: Disk | ValidSector(sector) && CrashImage(image, log, sector, crash) && Accepts(crash)
      ensures SameBut(crash, image, sector) || SameBut(crash, Replay(image, log), sector)
    {
      var f: nat, k: nat :| CrashAt(image, log, f, k, sector, crash);
      SessionCrash(image, open, log, clean, f, k, sector, crash);
    }
  }
}
