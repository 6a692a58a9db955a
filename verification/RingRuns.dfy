/**
  Interleaved runs over the rings: as long as the producer does not get too far ahead,
  the two sides see a first-in, first-out queue; beyond that the ring looks empty.
 */
module RingRuns {
  import opened Bytes
  import opened Rings

  datatype Action = Submit(trb: Trb) | Look

  // ---------- the queue ----------

  /** Everything submitted, in order. */
  function Submitted(actions: seq<Action>): seq<Trb> {
    if actions == [] then []
    else
      var front, last := actions[..|actions| - 1], actions[|actions| - 1];
      Submitted(front) + if last.Submit? then [last.trb] else []
  }

  /** How many have been taken out. */
  function Taken(actions: seq<Action>): (c: nat)
    ensures c <= |Submitted(actions)|
  {
    if actions == [] then 0
    else
      var front := actions[..|actions| - 1];
      Taken(front) + if actions[|actions| - 1].Look? && Taken(front) < |Submitted(front)| then 1 else 0
  }

  /** What each look yields: the oldest request not yet taken, or nothing if there is none. */
  function Yields(actions: seq<Action>): seq<Option<Trb>> {
    if actions == [] then []
    else
      var front := actions[..|actions| - 1];
      Yields(front)
      + if actions[|actions| - 1].Submit? then []
        else [if Taken(front) < |Submitted(front)| then Some(Submitted(front)[Taken(front)]) else None]
  }

  /** The producer is never more than `m` ahead. */
  ghost predicate Within(actions: seq<Action>, m: nat) {
    forall k: nat :: k <= |actions| ==> Ahead(actions[..k]) <= m
  }

  function Ahead(actions: seq<Action>): nat {
    |Submitted(actions)| - Taken(actions)
  }

  /** The same request, whatever its cycle bit. */
  predicate Alike(a: Option<Trb>, b: Option<Trb>) {
    if a.None? || b.None? then a == b else a.value == WithCycle(b.value, a.value.Cycle())
  }

  ghost predicate AllAlike(a: seq<Option<Trb>>, b: seq<Option<Trb>>) {
    |a| == |b| && forall k :: 0 <= k < |a| ==> Alike(a[k], b[k])
  }

  predicate NoLinks(actions: seq<Action>) {
    forall k :: 0 <= k < |actions| && actions[k].Submit? ==> !IsLink(actions[k].trb)
  }

  lemma {:induction false} SubmittedNoLinks(actions: seq<Action>)
    requires NoLinks(actions)
    ensures forall i :: 0 <= i < |Submitted(actions)| ==> !IsLink(Submitted(actions)[i])
  {
    hide IsLink;
    if actions != [] {
      SubmittedNoLinks(actions[..|actions| - 1]);
    }
  }

  /** One more action. */
  lemma {:induction false} NextAction(actions: seq<Action>, i: nat)
    requires i < |actions|
    ensures var front, a := actions[..i], actions[i];
      && Submitted(actions[..i + 1]) == (if a.Submit? then Submitted(front) + [a.trb] else Submitted(front))
      && Taken(actions[..i + 1]) == Taken(front) + (if a.Look? && Taken(front) < |Submitted(front)| then 1 else 0)
      && Yields(actions[..i + 1]) ==
         (if a.Submit? then Yields(front)
          else Yields(front) + [if Taken(front) < |Submitted(front)| then Some(Submitted(front)[Taken(front)]) else None])
  {
    assert actions[..i + 1][..i] == actions[..i];
    assert Submitted(actions[..i]) + [] == Submitted(actions[..i]) && Yields(actions[..i]) + [] == Yields(actions[..i]);
  }

  // ---------- requests ----------

  /**
    A driver that submits and a controller that looks, in any order: the controller sees
    the queue, over any number of laps, if the driver is never more than N - 1 ahead.
   */
  method Converse(n: nat, actions: seq<Action>) returns (seen: seq<Option<Trb>>)
    requires n >= 2 && Within(actions, n - 1) && NoLinks(actions)
    ensures AllAlike(seen, Yields(actions))
  {
    hide LinkRing, WithCycle, CursorAfter, Poll, Submitted, Taken, Yields, IsLink, Alike;
    var ring := new ProducerRing(n);
    var at := Cursor(0, true);
    seen := [];
    NothingDone(n - 1);
    assert actions[..0] == [];
    for i := 0 to |actions|
      invariant ring.Valid() && ring.n == n && fresh(ring) && fresh(ring.entries) && ring.pushed == Submitted(actions[..i])
      invariant at == CursorAfter(Taken(actions[..i]), n - 1) && AllAlike(seen, Yields(actions[..i]))
    {
      NextAction(actions, i);
      if actions[i].Submit? {
        var _ := ring.Push(actions[i].trb);
      } else {
        ghost var c := Taken(actions[..i]);
        assert Ahead(actions[..i]) <= n - 1;
        assert NoLinks(actions[..i]);
        SubmittedNoLinks(actions[..i]);
        RingOf(ring);
        ConsumerSees(ring.entries[..], ring.pushed, c);
        var found := Poll(ring.entries[..], at);
        if found.Some? {
          AlikeCycle(ring.pushed[c], Phase(Lap(c, n - 1)));
          seen, at := seen + [Some(found.value.0)], found.value.1;
        } else {
          AlikeNone();
          seen := seen + [None];
        }
      }
    }
    assert actions[..|actions|] == actions;
  }

  lemma NothingDone(m: nat)
    requires m > 0
    ensures Submitted([]) == [] && Taken([]) == 0 && Yields([]) == [] && CursorAfter(0, m) == Cursor(0, true)
  {
  }

  lemma RingOf(ring: ProducerRing)
    requires ring.Valid() && ring.n >= 2
    ensures LinkRing(ring.entries[..], ring.pushed) && |ring.entries[..]| == ring.n
  {
    hide LinkRing;
  }

  lemma AlikeCycle(t: Trb, cycle: bool)
    ensures Alike(Some(WithCycle(t, cycle)), Some(t))
  {
  }

  lemma AlikeNone()
    ensures Alike(None, None)
  {
  }

  lemma {:induction false} LapsOn(c: nat, laps: nat, m: nat)
    requires m > 0
    ensures Slot(c + laps * m, m) == Slot(c, m) && Lap(c + laps * m, m) == Lap(c, m) + laps
  {
    hide Slot, Lap;
    if laps > 0 {
      LapsOn(c, laps - 1, m);
      assert c + laps * m == (c + (laps - 1) * m) + m;
      NextLap(c + (laps - 1) * m, m);
    }
  }

  lemma {:induction false} PhaseAfter(lap: nat, laps: nat)
    ensures Phase(lap + laps) == (Phase(lap) == (laps % 2 == 0))
  {
    hide Phase;
    if laps > 0 {
      PhaseAfter(lap, laps - 1);
      PhaseFlips(lap + laps - 1);
    }
  }

  /** How often the entry of request `c` has been written over. */
  function Laps(pushed: seq<Trb>, c: nat, m: nat): nat
    requires c < |pushed| && m > 0
  {
    (|pushed| - 1 - c) / m
  }

  lemma LastLap(pushed: seq<Trb>, c: nat, m: nat)
    requires c < |pushed| && m > 0
    ensures var k := c + Laps(pushed, c, m) * m; k < |pushed| <= k + m
    ensures Laps(pushed, c, m) == 0 <==> |pushed| <= c + m
  {
  }

  predicate Links(pushed: seq<Trb>) {
    exists i :: 0 <= i < |pushed| && IsLink(pushed[i])
  }

  /** The entry a consumer that is less than a lap behind looks at has the cycle bit it expects. */
  lemma {:induction false} ExpectedCycle(entries: seq<Trb>, pushed: seq<Trb>, k: nat)
    requires LinkRing(entries, pushed) && k < |pushed| <= k + |entries| - 1
    ensures var at := CursorAfter(k, |entries| - 1); entries[at.dequeue].Cycle() == at.cycle
  {
    hide Slot, Lap, WithCycle, LinkTrb, Phase;
    var m := |entries| - 1;
    if k == 0 {
      FirstLap(0, m);
    } else {
      NextPosition(k - 1, m);
      PhaseFlips(Lap(k - 1, m));
      if PlaceAfter(k, m) == m {
        SameLap(k, |pushed| - 1, m);
      }
    }
  }

  /** Cursors a number of laps apart look at the same entry, unless one is at the start. */
  lemma {:induction false} CursorLaps(c: nat, laps: nat, m: nat)
    requires m > 0 && c > 0
    ensures CursorAfter(c + laps * m, m) == CursorAfter(c, m).(cycle := CursorAfter(c, m).cycle == (laps % 2 == 0))
  {
    hide Slot, Lap, Phase;
    LapsOn(c - 1, laps, m);
    assert c + laps * m - 1 == c - 1 + laps * m;
    PhaseAfter(Lap(c - 1, m), laps);
  }

  /**
    However far ahead the driver is: request `c` is seen if its entry has not been written
    over, and otherwise the ring looks empty or shows the request that took its place.
   */
  lemma {:induction false} SeenAfterLaps(entries: seq<Trb>, pushed: seq<Trb>, c: nat)
    requires LinkRing(entries, pushed) && c < |pushed|
    ensures var m := |entries| - 1; var laps := Laps(pushed, c, m);
      && c + laps * m < |pushed| && (laps == 0 <==> |pushed| <= c + m)
      && (laps % 2 == 1 ==> Poll(entries, CursorAfter(c, m)) == None)
      && (laps % 2 == 0 && !Links(pushed) ==>
            Poll(entries, CursorAfter(c, m)) == Some((WithCycle(pushed[c + laps * m], Phase(Lap(c, m))), CursorAfter(c + 1, m))))
  {
    hide LinkRing, IsLink, Slot, Lap, Phase, WithCycle, Laps, CursorAfter, Links;
    RingLarge(entries, pushed);
    var m := |entries| - 1;
    var laps := Laps(pushed, c, m);
    var k := c + laps * m;
    LastLap(pushed, c, m);
    if !Links(pushed) {
      NotLinks(pushed);
      ConsumerSees(entries, pushed, k);
    }
    ExpectedCycle(entries, pushed, k);
    LapsOn(c, laps, m);
    PhaseAfter(Lap(c, m), laps);
    CursorLaps(c + 1, laps, m);
    if c > 0 {
      CursorLaps(c, laps, m);
    } else {
      FirstEntry(entries, pushed, laps);
    }
  }

  lemma RingLarge(entries: seq<Trb>, pushed: seq<Trb>)
    requires LinkRing(entries, pushed)
    ensures |entries| > 1
  {
  }

  lemma NotLinks(pushed: seq<Trb>)
    requires !Links(pushed)
    ensures forall i :: 0 <= i < |pushed| ==> !IsLink(pushed[i])
  {
    hide IsLink;
  }

  /** The same for a consumer that has not moved yet. */
  lemma {:induction false} FirstEntry(entries: seq<Trb>, pushed: seq<Trb>, laps: nat)
    requires LinkRing(entries, pushed) && var m := |entries| - 1; laps * m < |pushed| <= laps * m + m
    ensures var m := |entries| - 1;
      && (laps % 2 == 1 ==> Poll(entries, CursorAfter(0, m)) == None)
      && (laps % 2 == 0 && !Links(pushed) ==>
            Poll(entries, CursorAfter(0, m)) == Some((WithCycle(pushed[laps * m], Phase(Lap(0, m))), CursorAfter(1, m))))
  {
    hide Slot, Lap, Phase, WithCycle, LinkTrb, Links;
    var m := |entries| - 1;
    LapsOn(0, laps, m);
    FirstLap(0, m);
    PhaseAfter(0, laps);
    if !Links(pushed) {
      NotLinks(pushed);
    }
    assert entries[0] == WithCycle(pushed[laps * m], Phase(Lap(laps * m, m)));
  }

  /** `push` does not stop there: two submissions into a ring of two entries, and nothing is seen. */
  method SubmitTwice(a: Trb, b: Trb) returns (seen: Option<Trb>)
    ensures seen == None
  {
    hide LinkRing;
    var ring := new ProducerRing(2);
    var first := ring.Push(a);
    var second := ring.Push(b);
    RingOf(ring);
    NothingDone(1);
    SeenAfterLaps(ring.entries[..], ring.pushed, 0);
    var found := Poll(ring.entries[..], Cursor(0, true));
    seen := match found case None => None case Some((t, _)) => Some(t);
  }

  // ---------- events ----------

  /** A controller that writes events and a driver that consumes them, the controller never more than N ahead. */
  method ConverseEvents(n: nat, actions: seq<Action>) returns (seen: seq<Option<Trb>>)
    requires n > 0 && Within(actions, n)
    ensures AllAlike(seen, Yields(actions))
  {
    hide EventRing, WithCycle, Slot, Lap, Phase, Submitted, Taken, Yields, Alike;
    var entries: seq<Trb> := seq(n, _ => EMPTY);
    var consumer := new EventConsumer();
    ghost var events: seq<Trb> := [];
    var slot, lap := 0, 0;
    seen := [];
    NothingWritten(n, entries);
    NothingDone(n);
    assert actions[..0] == [];
    for i := 0 to |actions|
      invariant |entries| == n && EventRing(entries, events) && events == Submitted(actions[..i])
      invariant slot == Slot(|events|, n) && lap == Lap(|events|, n)
      invariant fresh(consumer) && consumer.Valid(n) && consumer.consumed == Taken(actions[..i]) && AllAlike(seen, Yields(actions[..i]))
    {
      NextAction(actions, i);
      if actions[i].Submit? {
        var t := actions[i].trb;
        EventWritten(entries, events, t);
        NextPosition(|events|, n);
        entries := entries[slot := WithCycle(t, Phase(lap))];
        events := events + [t];
        if slot + 1 < n {
          slot := slot + 1;
        } else {
          slot, lap := 0, lap + 1;
        }
      } else {
        assert Ahead(actions[..i]) <= n;
        ghost var c := consumer.consumed;
        var found := consumer.ConsumeEvent(entries, events);
        if found.Some? {
          AlikeCycle(events[c], found.value.1.Cycle());
          seen := seen + [Some(found.value.1)];
        } else {
          AlikeNone();
          seen := seen + [None];
        }
      }
    }
    assert actions[..|actions|] == actions;
  }

  lemma NothingWritten(n: nat, entries: seq<Trb>)
    requires n > 0 && |entries| == n && forall i :: 0 <= i < n ==> entries[i] == EMPTY
    ensures EventRing(entries, []) && Slot(0, n) == 0 && Lap(0, n) == 0 && Phase(0)
  {
    FirstLap(0, n);
  }
}
