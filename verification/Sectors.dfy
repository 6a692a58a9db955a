/**
  Sectors and runs of sectors.
 */
module Sectors {
  import opened Bytes

  type Sector = seq<byte>
  type Device = seq<Sector>

  /** The bytes of `n` sectors from `lba` on. */
  function Flat(dev: Device, bps: nat, lba: nat, n: nat): (s: seq<byte>)
    requires lba + n <= |dev| && forall i :: 0 <= i < |dev| ==> |dev[i]| == bps
  {
    if n == 0 then [] else Flat(dev, bps, lba, n - 1) + dev[lba + n - 1]
  }

  lemma {:induction false} FlatFrame(dev: Device, after: Device, bps: nat, lba: nat, n: nat)
    requires |after| == |dev| && lba + n <= |dev|
    requires (forall i :: 0 <= i < |dev| ==> |dev[i]| == bps) && (forall i :: 0 <= i < |after| ==> |after[i]| == bps)
    requires forall i :: lba <= i < lba + n ==> after[i] == dev[i]
    ensures Flat(after, bps, lba, n) == Flat(dev, bps, lba, n)
  {
    if n > 0 {
      FlatFrame(dev, after, bps, lba, n - 1);
    }
  }

  lemma FlatSplit(dev: Device, bps: nat, lba: nat, n: nat)
    requires 0 < n && lba + n <= |dev| && forall i :: 0 <= i < |dev| ==> |dev[i]| == bps
    ensures Flat(dev, bps, lba, n) == Flat(dev, bps, lba, n - 1) + dev[lba + n - 1]
  {
  }

  lemma {:induction false} FlatLength(dev: Device, bps: nat, lba: nat, n: nat)
    requires lba + n <= |dev| && forall i :: 0 <= i < |dev| ==> |dev[i]| == bps
    ensures |Flat(dev, bps, lba, n)| == bps * n
  {
    if n > 0 {
      FlatLength(dev, bps, lba, n - 1);
      assert bps * n == bps * (n - 1) + bps;
    }
  }

  lemma {:induction false} FlatGrows(dev: Device, bps: nat, lba: nat, s: nat, n: nat)
    requires s < n && lba + n <= |dev| && forall i :: 0 <= i < |dev| ==> |dev[i]| == bps
    ensures |Flat(dev, bps, lba, s)| + bps <= |Flat(dev, bps, lba, n)|
  {
    if s < n - 1 {
      FlatGrows(dev, bps, lba, s, n - 1);
    }
  }

  /** Writing part of sector `lba + s` writes part of the run. */
  lemma {:induction false} FlatPatched(dev: Device, after: Device, bps: nat, lba: nat, n: nat, s: nat, offset: nat, input: seq<byte>)
    requires |after| == |dev| && lba + n <= |dev| && s < n && offset + |input| <= bps
    requires (forall i :: 0 <= i < |dev| ==> |dev[i]| == bps) && (forall i :: 0 <= i < |after| ==> |after[i]| == bps)
    requires forall i :: lba <= i < lba + n && i != lba + s ==> after[i] == dev[i]
    requires after[lba + s] == Patched(dev[lba + s], offset, input)
    ensures var at := |Flat(dev, bps, lba, s)| + offset;
      && at + |input| <= |Flat(dev, bps, lba, n)|
      && Flat(after, bps, lba, n) == Patched(Flat(dev, bps, lba, n), at, input)
  {
    hide Flat, Patched;
    FlatSplit(dev, bps, lba, n);
    FlatSplit(after, bps, lba, n);
    FlatGrows(dev, bps, lba, s, n);
    if s == n - 1 {
      FlatFrame(dev, after, bps, lba, n - 1);
      PatchedRight(Flat(dev, bps, lba, n - 1), dev[lba + s], offset, input);
    } else {
      FlatPatched(dev, after, bps, lba, n - 1, s, offset, input);
      PatchedLeft(Flat(dev, bps, lba, n - 1), dev[lba + n - 1], |Flat(dev, bps, lba, s)| + offset, input);
    }
  }

  lemma FlatNone(dev: Device, bps: nat, lba: nat)
    requires lba <= |dev| && forall i :: 0 <= i < |dev| ==> |dev[i]| == bps
    ensures Flat(dev, bps, lba, 0) == []
  {
  }

  /** One more sector of `bytes` in place. */
  lemma {:induction false} FlatStore(dev: Device, bps: nat, lba: nat, s: nat, rest: seq<byte>, bytes: seq<byte>)
    requires lba + s < |dev| && (forall i :: 0 <= i < |dev| ==> |dev[i]| == bps) && |rest| >= bps
    requires Flat(dev, bps, lba, s) + rest == bytes
    ensures var after := dev[lba + s := rest[..bps]];
      (forall i :: 0 <= i < |after| ==> |after[i]| == bps) && Flat(after, bps, lba, s + 1) + rest[bps..] == bytes
  {
    hide Flat;
    var after := dev[lba + s := rest[..bps]];
    FlatFrame(dev, after, bps, lba, s);
    FlatSplit(after, bps, lba, s + 1);
    assert rest == rest[..bps] + rest[bps..];
  }
}
