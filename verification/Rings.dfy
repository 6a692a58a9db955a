/**
  xHCI rings: the transfer and command rings the driver produces into, with a link
  entry at the end, and the event ring it consumes from.  Ownership is told by a
  cycle bit that flips on every lap.
 */
module Rings {
  import opened Arithmetic
  import opened Bytes

  datatype Trb = Trb(low: u32, high: u32, status: u32, control: u32) {
    predicate Cycle() {
      control % 2 == 1
    }

    function Kind(): nat {
      control / 1024 % 64
    }
  }

  const LINK := 6
  const EMPTY: Trb := Trb(0, 0, 0, 0)

  predicate IsLink(t: Trb) {
    t.Kind() == LINK
  }

  /** `(control & !1) | cycle`. */
  function WithCycle(t: Trb, cycle: bool): (r: Trb)
    ensures r.Cycle() == cycle && r.Kind() == t.Kind()
  {
    t.(control := t.control - t.control % 2 + if cycle then 1 else 0)
  }

  /** A link back to the first entry that toggles the cycle bit. */
  function LinkTrb(cycle: bool): (r: Trb)
    ensures IsLink(r) && r.Cycle() == cycle
  {
    Trb(0, 0, 0, LINK * 1024 + 2 + if cycle then 1 else 0)
  }

  /** The producer's cycle bit on lap `lap`. */
  predicate Phase(lap: nat) {
    lap % 2 == 0
  }

  // ---------- laps ----------

  function Slot(k: nat, n: nat): (i: nat)
    requires n > 0
    ensures i < n
  {
    k % n
  }

  function Lap(k: nat, n: nat): nat
    requires n > 0
  {
    k / n
  }

  lemma {:induction false} NextPosition(k: nat, n: nat)
    requires n > 0
    ensures if Slot(k, n) + 1 < n then Lap(k + 1, n) == Lap(k, n) && Slot(k + 1, n) == Slot(k, n) + 1
            else Lap(k + 1, n) == Lap(k, n) + 1 && Slot(k + 1, n) == 0
  {
    DivMod(k, n);
    Successor(k, n, k / n, k % n);
  }

  lemma {:induction false} NextLap(k: nat, n: nat)
    requires n > 0
    ensures Lap(k + n, n) == Lap(k, n) + 1 && Slot(k + n, n) == Slot(k, n)
  {
    DivMod(k, n);
    assert (k / n + 1) * n == (k / n) * n + n;
    DivModUnique(k + n, n, k / n + 1, k % n);
  }

  lemma FirstLap(k: nat, n: nat)
    requires k < n
    ensures Lap(k, n) == 0 && Slot(k, n) == k
  {
    DivModUnique(k, n, 0, k);
  }

  /** Positions less than a lap apart are different. */
  lemma {:induction false} SlotsApart(j: nat, k: nat, n: nat)
    requires n > 0 && j < k < j + n
    ensures Slot(j, n) != Slot(k, n)
  {
    DivMod(j, n);
    DivMod(k, n);
    MulStep(j / n, k / n, n);
    MulStep(k / n, j / n, n);
  }

  // ---------- the event ring ----------

  /** The ring after `events` have been written by hardware, one lap over the other. */
  ghost predicate EventRing(entries: seq<Trb>, events: seq<Trb>) {
    var n := |entries|;
    && n > 0
    && (forall k: nat :: k < |events| && |events| <= k + n ==> entries[Slot(k, n)] == WithCycle(events[k], Phase(Lap(k, n))))
    && (forall i: nat :: |events| <= i < n ==> !entries[i].Cycle())
  }

  /** Writing one more event, over the oldest once the ring has been filled. */
  lemma {:induction false} EventWritten(entries: seq<Trb>, events: seq<Trb>, t: Trb)
    requires EventRing(entries, events)
    ensures var k, n := |events|, |entries|;
      EventRing(entries[Slot(k, n) := WithCycle(t, Phase(Lap(k, n)))], events + [t])
  {
    hide Slot, Lap, Phase, WithCycle;
    var n, k := |entries|, |events|;
    var more := events + [t];
    var after := entries[Slot(k, n) := WithCycle(t, Phase(Lap(k, n)))];
    forall j: nat | j < |more| && |more| <= j + n ensures after[Slot(j, n)] == WithCycle(more[j], Phase(Lap(j, n))) {
      if j < k {
        SlotsApart(j, k, n);
      }
    }
    forall i: nat | |more| <= i < n ensures !after[i].Cycle() {
      FirstLap(k, n);
    }
  }

  class EventConsumer {
    var dequeue: nat
    var cycle: bool
    ghost var consumed: nat

    ghost predicate Valid(n: nat)
      reads this
    {
      n > 0 ==> dequeue == Slot(consumed, n) && cycle == Phase(Lap(consumed, n))
    }

    constructor ()
      ensures dequeue == 0 && cycle && consumed == 0
    {
      dequeue, cycle, consumed := 0, true, 0;
    }

    /** Yields the next event exactly when there is one. */
    method ConsumeEvent(entries: seq<Trb>, ghost events: seq<Trb>) returns (r: Option<(nat, Trb)>)
      requires Valid(|entries|) && (entries != [] ==> EventRing(entries, events)) && consumed <= |events| <= consumed + |entries|
      modifies this
      ensures Valid(|entries|)
      ensures r.Some? <==> old(consumed) < |events|
      ensures r.Some? ==> consumed == old(consumed) + 1
      ensures r.Some? ==> r.value == (old(dequeue), WithCycle(events[old(consumed)], old(cycle)))
      ensures r.None? ==> consumed == old(consumed) && dequeue == old(dequeue) && cycle == old(cycle)
    {
      hide Phase, WithCycle, Slot, Lap;
      if |entries| == 0 {
        return None;
      }
      var trb := entries[dequeue];
      EventSeen(entries, events, consumed);
      if trb.Cycle() != cycle {
        return None;
      }
      NextPosition(consumed, |entries|);
      PhaseFlips(Lap(consumed, |entries|));
      r := Some((dequeue, trb));
      dequeue := dequeue + 1;
      if dequeue == |entries| {
        dequeue, cycle := 0, !cycle;
      }
      consumed := consumed + 1;
    }
  }

  lemma PhaseFlips(lap: nat)
    ensures Phase(lap + 1) == !Phase(lap)
  {
  }

  /** What the slot at the dequeue index shows. */
  lemma {:induction false} EventSeen(entries: seq<Trb>, events: seq<Trb>, c: nat)
    requires EventRing(entries, events) && c <= |events| <= c + |entries|
    ensures var n := |entries|;
      && (c < |events| ==> entries[Slot(c, n)] == WithCycle(events[c], Phase(Lap(c, n))))
      && (c == |events| ==> entries[Slot(c, n)].Cycle() != Phase(Lap(c, n)))
  {
    hide Slot, Lap, WithCycle;
    var n := |entries|;
    if c == |events| {
      if c < n {
        FirstLap(c, n);
      } else {
        NextLap(c - n, n);
        PhaseFlips(Lap(c - n, n));
      }
    }
  }

  // ---------- the producer ring ----------

  /** Lap and place after `p` pushes: the enqueue index is left past the last entry written. */
  function LapAfter(p: nat, m: nat): nat
    requires m > 0
  {
    if p == 0 then 0 else Lap(p - 1, m)
  }

  function PlaceAfter(p: nat, m: nat): (i: nat)
    requires m > 0
    ensures i <= m
  {
    if p == 0 then 0 else Slot(p - 1, m) + 1
  }

  /** The ring of `m` entries and a link after `pushed`. */
  ghost predicate LinkRing(entries: seq<Trb>, pushed: seq<Trb>) {
    var m, p := |entries| - 1, |pushed|;
    && m > 0
    && (forall k: nat :: k < p && p <= k + m ==> entries[Slot(k, m)] == WithCycle(pushed[k], Phase(Lap(k, m))))
    && (forall i: nat :: p <= i < m ==> !entries[i].Cycle())
    && entries[m] == if LapAfter(p, m) == 0 then EMPTY else LinkTrb(Phase(LapAfter(p, m) - 1))
  }

  /** One push, with the link written first when the lap is over. */
  ghost predicate Pushes(entries: seq<Trb>, after: seq<Trb>, pushed: seq<Trb>, t: Trb)
    requires |entries| > 1
  {
    var m, p := |entries| - 1, |pushed|;
    var turned := if p > 0 && Slot(p, m) == 0 then entries[m := LinkTrb(Phase(LapAfter(p, m)))] else entries;
    after == turned[Slot(p, m) := WithCycle(t, Phase(Lap(p, m)))]
  }

  lemma {:induction false} PushedRing(entries: seq<Trb>, after: seq<Trb>, pushed: seq<Trb>, t: Trb)
    requires LinkRing(entries, pushed) && Pushes(entries, after, pushed, t)
    ensures LinkRing(after, pushed + [t])
  {
    hide Slot, Lap, Phase, WithCycle, LinkTrb;
    var m, p := |entries| - 1, |pushed|;
    var more := pushed + [t];
    forall j: nat | j < |more| && |more| <= j + m ensures after[Slot(j, m)] == WithCycle(more[j], Phase(Lap(j, m))) {
      if j < p {
        SlotsApart(j, p, m);
      }
    }
    forall i: nat | |more| <= i < m ensures !after[i].Cycle() {
      FirstLap(p, m);
    }
    PushedLink(entries, after, pushed, t);
  }

  lemma {:induction false} PushedLink(entries: seq<Trb>, after: seq<Trb>, pushed: seq<Trb>, t: Trb)
    requires LinkRing(entries, pushed) && Pushes(entries, after, pushed, t)
    ensures var m, p := |entries| - 1, |pushed| + 1;
      |after| == |entries| && after[m] == if LapAfter(p, m) == 0 then EMPTY else LinkTrb(Phase(LapAfter(p, m) - 1))
  {
    hide Slot, Lap, Phase, WithCycle, LinkTrb;
    var m, p := |entries| - 1, |pushed|;
    if p > 0 {
      NextPosition(p - 1, m);
    } else {
      FirstLap(0, m);
    }
  }

  class ProducerRing {
    const n: nat
    const entries: array<Trb>
    var enqueue: nat
    var cycle: bool
    ghost var pushed: seq<Trb>

    ghost predicate Valid()
      reads this, entries
    {
      && entries.Length == n
      && (n >= 2 ==> LinkRing(entries[..], pushed) && enqueue == PlaceAfter(|pushed|, n - 1) && cycle == Phase(LapAfter(|pushed|, n - 1)))
    }

    constructor (size: nat)
      ensures Valid() && fresh(entries) && n == size && pushed == []
    {
      n := size;
      entries := new Trb[size](_ => EMPTY);
      enqueue, cycle, pushed := 0, true, [];
    }

    /** Appends a request; a ring without room for a link takes none. */
    method Push(t: Trb) returns (r: Option<(nat, Trb)>)
      requires Valid()
      modifies this, entries
      ensures Valid()
      ensures r.Some? <==> n >= 2
      ensures r.Some? ==> pushed == old(pushed) + [t] && r.value.0 < n - 1 && r.value.1 == entries[r.value.0] && r.value.1 == WithCycle(t, cycle)
      ensures r.None? ==> pushed == old(pushed)
    {
      hide Slot, Lap, WithCycle, LinkTrb, LinkRing;
      if n < 2 {
        return None;
      }
      ghost var before := entries[..];
      ghost var p := |pushed|;
      if p > 0 {
        NextPosition(p - 1, n - 1);
        PhaseFlips(LapAfter(p, n - 1));
      } else {
        FirstLap(0, n - 1);
      }
      if enqueue == n - 1 {
        entries[enqueue] := LinkTrb(cycle);
        enqueue := 0;
        cycle := !cycle;
      }
      var trb := WithCycle(t, cycle);
      var index := enqueue;
      entries[index] := trb;
      enqueue := enqueue + 1;
      assert Pushes(before, entries[..], pushed, t);
      PushedRing(before, entries[..], pushed, t);
      pushed := pushed + [t];
      r := Some((index, trb));
    }
  }

  // ---------- what a consumer that follows the rules sees ----------

  /** Where the consumer stands, and the cycle bit it expects. */
  datatype Cursor = Cursor(dequeue: nat, cycle: bool)

  /** The consumer after `c` entries, before it looks at a link. */
  function CursorAfter(c: nat, m: nat): Cursor
    requires m > 0
  {
    Cursor(PlaceAfter(c, m), Phase(LapAfter(c, m)))
  }

  /** An entry is there if its cycle bit is the expected one; links are followed. */
  function Poll(entries: seq<Trb>, at: Cursor): Option<(Trb, Cursor)> {
    if at.dequeue >= |entries| || entries[at.dequeue].Cycle() != at.cycle then None
    else if IsLink(entries[at.dequeue]) then
      if entries[0].Cycle() != !at.cycle || IsLink(entries[0]) then None else Some((entries[0], Cursor(1, !at.cycle)))
    else Some((entries[at.dequeue], Cursor(at.dequeue + 1, at.cycle)))
  }

  /** Every request is seen once and in order, and the ring looks empty exactly when all have been. */
  lemma {:induction false} ConsumerSees(entries: seq<Trb>, pushed: seq<Trb>, c: nat)
    requires LinkRing(entries, pushed) && c <= |pushed| <= c + |entries| - 1
    requires forall i :: 0 <= i < |pushed| ==> !IsLink(pushed[i])
    ensures var m := |entries| - 1;
      Poll(entries, CursorAfter(c, m)) ==
        if c < |pushed| then Some((WithCycle(pushed[c], Phase(Lap(c, m))), CursorAfter(c + 1, m))) else None
  {
    hide Slot, Lap, WithCycle, LinkTrb, Phase;
    var m, p := |entries| - 1, |pushed|;
    if c > 0 {
      NextPosition(c - 1, m);
      PhaseFlips(Lap(c - 1, m));
    } else {
      FirstLap(0, m);
    }
    if PlaceAfter(c, m) < m {
      InnerEntry(entries, pushed, c);
    } else {
      LinkEntry(entries, pushed, c);
    }
  }

  lemma {:induction false} InnerEntry(entries: seq<Trb>, pushed: seq<Trb>, c: nat)
    requires LinkRing(entries, pushed) && c <= |pushed| <= c + |entries| - 1
    ensures var m := |entries| - 1;
      && (c < |pushed| ==> entries[Slot(c, m)] == WithCycle(pushed[c], Phase(Lap(c, m))))
      && (c == |pushed| ==> entries[Slot(c, m)].Cycle() != Phase(Lap(c, m)))
  {
    hide Slot, Lap, WithCycle, LinkTrb;
    var m := |entries| - 1;
    if c == |pushed| {
      if c < m {
        FirstLap(c, m);
      } else {
        NextLap(c - m, m);
        PhaseFlips(Lap(c - m, m));
      }
    }
  }

  /** The link is passable exactly when the producer has passed it. */
  lemma {:induction false} LinkEntry(entries: seq<Trb>, pushed: seq<Trb>, c: nat)
    requires LinkRing(entries, pushed) && c <= |pushed| <= c + |entries| - 1 && PlaceAfter(c, |entries| - 1) == |entries| - 1
    ensures var m := |entries| - 1;
      && c > 0 && Slot(c, m) == 0 && Lap(c, m) == Lap(c - 1, m) + 1
      && (c < |pushed| ==> entries[m] == LinkTrb(Phase(Lap(c - 1, m))) && entries[0] == WithCycle(pushed[c], Phase(Lap(c, m))))
      && (c == |pushed| ==> entries[m].Cycle() != Phase(Lap(c - 1, m)))
  {
    hide Slot, Lap, WithCycle;
    var m, p := |entries| - 1, |pushed|;
    NextPosition(c - 1, m);
    if c < p {
      InnerEntry(entries, pushed, c);
      SameLap(c, p - 1, m);
    } else if Lap(c - 1, m) > 0 {
      PhaseFlips(Lap(c - 1, m) - 1);
    }
  }

  /** Positions within a lap that starts at `c`. */
  lemma {:induction false} SameLap(c: nat, k: nat, m: nat)
    requires m > 0 && Slot(c, m) == 0 && c <= k < c + m
    ensures Lap(k, m) == Lap(c, m)
  {
    DivMod(c, m);
    DivModUnique(k, m, c / m, k - c);
  }
}
