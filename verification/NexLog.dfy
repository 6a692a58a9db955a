/**
  What a NexFS session tells its device to do, as a log of block writes and flushes.
 */
module NexLog {
  import opened NexLayout
  import opened NexVolume

  datatype DiskEvent = Write(block: nat, data: Block) | Flush

  predicate DirtyBlock(b: Block) {
    DecodeSuperblock(b).Ok? && !DecodeSuperblock(b).value.IsClean()
  }

  /** Block 1 is only ever overwritten with a dirty superblock. */
  predicate SafeEvent(e: DiskEvent) {
    e.Write? && e.block == 1 ==> DirtyBlock(e.data)
  }

  /** The device contents after `log`, starting from `base`. */
  function Replay(base: Disk, log: seq<DiskEvent>): (d: Disk)
    ensures |d| == |base|
  {
    if log == [] then base
    else
      var d := Replay(base, log[..|log| - 1]);
      match log[|log| - 1]
      case Flush => d
      case Write(b, data) => if b < |d| then d[b := data] else d
  }

  lemma ReplayStep(base: Disk, log: seq<DiskEvent>, e: DiskEvent)
    ensures Replay(base, log + [e]) ==
      if e.Write? && e.block < |base| then Replay(base, log)[e.block := e.data] else Replay(base, log)
  {
    assert (log + [e])[..|log|] == log;
  }

  /** A mounted session so far: the superblock was marked dirty and flushed first. */
  ghost predicate OpenLog(log: seq<DiskEvent>) {
    && |log| >= 2 && log[0].Write? && log[0].block == 1 && log[1].Flush?
    && forall i :: 0 <= i < |log| ==> SafeEvent(log[i])
  }

  ghost predicate Recorded(base: Disk, disk: Disk, log: seq<DiskEvent>) {
    OpenLog(log) && disk == Replay(base, log)
  }

  lemma RecordedStep(base: Disk, disk: Disk, log: seq<DiskEvent>, e: DiskEvent)
    requires Recorded(base, disk, log) && SafeEvent(e) && (e.Write? ==> e.block < |disk|)
    ensures Recorded(base, if e.Write? then disk[e.block := e.data] else disk, log + [e])
  {
    hide Replay, SafeEvent;
    ReplayStep(base, log, e);
  }

  lemma SessionOpens(base: Disk, data: Block)
    requires DirtyBlock(data) && |base| > 1
    ensures Recorded(base, base[1 := data], [Write(1, data), Flush])
  {
    hide Replay, DirtyBlock;
    assert [] + [Write(1, data)] == [Write(1, data)];
    assert [Write(1, data)] + [Flush] == [Write(1, data), Flush];
    ReplayStep(base, [], Write(1, data));
    ReplayStep(base, [Write(1, data)], Flush);
    ReplayNothing(base);
  }

  lemma ReplayNothing(base: Disk)
    ensures Replay(base, []) == base
  {
  }

  lemma SessionCloses(base: Disk, disk: Disk, log: seq<DiskEvent>, data: Block)
    requires Recorded(base, disk, log) && |disk| > 1
    ensures disk[1 := data] == Replay(base, log + [Flush, Write(1, data), Flush])
  {
    hide Replay;
    var a, b := log + [Flush], log + [Flush] + [Write(1, data)];
    ReplayStep(base, log, Flush);
    ReplayStep(base, a, Write(1, data));
    ReplayStep(base, b, Flush);
    assert log + [Flush, Write(1, data), Flush] == b + [Flush];
  }
}
