/**
  The interrupt queue of the PS/2 driver: one producer, one consumer, a shared byte
  ring and two indices.  Every load, store and slot access is a step of its own, and
  the two sides may interleave in any way.
 */
module ScancodeQueue {
  import opened Bytes

  const CAPACITY := 256

  /** How far `enqueue` has got. */
  datatype Producer =
    | Resting
    | TailLoaded(byte: byte, tail: nat)
    | RoomSeen(byte: byte, tail: nat)
    | SlotWritten(byte: byte, tail: nat)

  /** How far `dequeue` has got. */
  datatype Consumer =
    | Waiting
    | HeadLoaded(head: nat)
    | ByteSeen(head: nat)
    | SlotRead(head: nat, byte: byte)

  datatype Event =
    | Quiet
    | Offered(byte: byte)     // `enqueue` is called
    | Accepted(byte: byte)    // the new tail is published
    | Dropped(byte: byte)     // the queue looked full
    | Delivered(byte: byte)   // the new head is published
    | Nothing                 // the queue looked empty

  datatype Queue = Queue(bytes: seq<byte>, head: nat, tail: nat, producer: Producer, consumer: Consumer)

  predicate Init(q: Queue) {
    |q.bytes| == CAPACITY && q.head == 0 && q.tail == 0 && q.producer.Resting? && q.consumer.Waiting?
  }

  /** One step of `enqueue`. */
  predicate Produce(q: Queue, r: Queue, e: Event) {
    match q.producer
    case Resting => e.Offered? && r == q.(producer := TailLoaded(e.byte, q.tail))
    case TailLoaded(b, tail) =>
      if (tail + 1) % CAPACITY == q.head then e == Dropped(b) && r == q.(producer := Resting)
      else e.Quiet? && r == q.(producer := RoomSeen(b, tail))
    case RoomSeen(b, tail) => e.Quiet? && tail < |q.bytes| && r == q.(bytes := q.bytes[tail := b], producer := SlotWritten(b, tail))
    case SlotWritten(b, tail) => e == Accepted(b) && r == q.(tail := (tail + 1) % CAPACITY, producer := Resting)
  }

  /** One step of `dequeue`. */
  predicate Consume(q: Queue, r: Queue, e: Event) {
    match q.consumer
    case Waiting => e.Quiet? && r == q.(consumer := HeadLoaded(q.head))
    case HeadLoaded(head) =>
      if head == q.tail then e.Nothing? && r == q.(consumer := Waiting)
      else e.Quiet? && r == q.(consumer := ByteSeen(head))
    case ByteSeen(head) => e.Quiet? && head < |q.bytes| && r == q.(consumer := SlotRead(head, q.bytes[head]))
    case SlotRead(head, b) => e == Delivered(b) && r == q.(head := (head + 1) % CAPACITY, consumer := Waiting)
  }

  predicate Step(q: Queue, r: Queue, e: Event) {
    Produce(q, r, e) || Consume(q, r, e)
  }

  // ---------- what has gone in and come out ----------

  function Sent(events: seq<Event>): seq<byte> {
    if events == [] then []
    else Sent(events[..|events| - 1]) + (match events[|events| - 1] case Accepted(b) => [b] case _ => [])
  }

  function Received(events: seq<Event>): seq<byte> {
    if events == [] then []
    else Received(events[..|events| - 1]) + (match events[|events| - 1] case Delivered(b) => [b] case _ => [])
  }

  function Ended(e: Event): seq<byte> {
    match e case Accepted(b) => [b] case Dropped(b) => [b] case _ => []
  }

  function Begun(e: Event): seq<byte> {
    match e case Offered(b) => [b] case _ => []
  }

  /** The bytes `enqueue` was called with. */
  function Offers(events: seq<Event>): seq<byte> {
    if events == [] then []
    else Offers(events[..|events| - 1]) + Begun(events[|events| - 1])
  }

  /** The bytes whose `enqueue` has finished, taken in or not. */
  function Settled(events: seq<Event>): seq<byte> {
    if events == [] then []
    else Settled(events[..|events| - 1]) + Ended(events[|events| - 1])
  }

  /** The byte of the `enqueue` that is under way. */
  function InFlight(q: Queue): seq<byte> {
    match q.producer
    case Resting => []
    case TailLoaded(b, _) => [b]
    case RoomSeen(b, _) => [b]
    case SlotWritten(b, _) => [b]
  }

  /** The bytes between head and tail, oldest first. */
  function Queued(q: Queue): seq<byte>
    requires |q.bytes| == CAPACITY && q.head < CAPACITY && q.tail < CAPACITY
  {
    seq(Length(q), i requires 0 <= i < Length(q) => q.bytes[(q.head + i) % CAPACITY])
  }

  function Length(q: Queue): nat {
    (q.tail + CAPACITY - q.head % CAPACITY) % CAPACITY
  }

  ghost predicate ProducerOk(q: Queue, sent: seq<byte>, received: seq<byte>) {
    match q.producer
    case Resting => true
    case TailLoaded(_, tail) => tail == q.tail
    case RoomSeen(_, tail) => tail == q.tail && |sent| - |received| < CAPACITY - 1
    case SlotWritten(b, tail) => tail == q.tail && |sent| - |received| < CAPACITY - 1 && tail < |q.bytes| && q.bytes[tail] == b
  }

  ghost predicate ConsumerOk(q: Queue, sent: seq<byte>, received: seq<byte>) {
    match q.consumer
    case Waiting => true
    case HeadLoaded(head) => head == q.head
    case ByteSeen(head) => head == q.head && |received| < |sent|
    case SlotRead(head, b) => head == q.head && |received| < |sent| && b == sent[|received|]
  }

  /** Indices count modulo the capacity; the unread bytes are in their slots. */
  ghost predicate Inv(q: Queue, sent: seq<byte>, received: seq<byte>) {
    && |q.bytes| == CAPACITY && q.tail == |sent| % CAPACITY && q.head == |received| % CAPACITY
    && received <= sent && |sent| - |received| < CAPACITY
    && (forall k: nat :: |received| <= k < |sent| ==> q.bytes[k % CAPACITY] == sent[k])
    && ProducerOk(q, sent, received) && ConsumerOk(q, sent, received)
  }

  lemma Around(k: nat, s: nat)
    requires k < s < k + CAPACITY
    ensures k % CAPACITY != s % CAPACITY
  {
  }

  lemma NextIndex(s: nat)
    ensures (s % CAPACITY + 1) % CAPACITY == (s + 1) % CAPACITY
  {
  }

  /** The slot at the tail holds no unread byte, so writing it disturbs none. */
  lemma {:induction false} WriteKeeps(q: Queue, r: Queue, e: Event, sent: seq<byte>, received: seq<byte>)
    requires Inv(q, sent, received) && Produce(q, r, e) && q.producer.RoomSeen?
    ensures Inv(r, sent, received)
  {
    forall k: nat | |received| <= k < |sent| ensures r.bytes[k % CAPACITY] == sent[k] {
      Around(k, |sent|);
    }
  }

  lemma {:induction false} PublishKeeps(q: Queue, r: Queue, e: Event, sent: seq<byte>, received: seq<byte>)
    requires Inv(q, sent, received) && Produce(q, r, e) && q.producer.SlotWritten?
    ensures e.Accepted? && Inv(r, sent + [e.byte], received)
  {
    NextIndex(|sent|);
    var more := sent + [e.byte];
    forall k: nat | |received| <= k < |more| ensures r.bytes[k % CAPACITY] == more[k] {}
  }

  /** A byte is dropped only when 255 are unread. */
  lemma {:induction false} ProduceKeeps(q: Queue, r: Queue, e: Event, sent: seq<byte>, received: seq<byte>)
    requires Inv(q, sent, received) && Produce(q, r, e)
    ensures Inv(r, if e.Accepted? then sent + [e.byte] else sent, received)
    ensures !e.Delivered? && !e.Nothing? && (e.Dropped? ==> |sent| - |received| == CAPACITY - 1)
  {
    match q.producer {
      case Resting =>
      case TailLoaded(_, _) =>
        NextIndex(|sent|);
        if |sent| - |received| < CAPACITY - 1 {
          Around(|received|, |sent| + 1);
        }
      case RoomSeen(_, _) => WriteKeeps(q, r, e, sent, received);
      case SlotWritten(_, _) => PublishKeeps(q, r, e, sent, received);
    }
  }

  /** Nothing is reported only when everything has been read. */
  lemma {:induction false} ConsumeKeeps(q: Queue, r: Queue, e: Event, sent: seq<byte>, received: seq<byte>)
    requires Inv(q, sent, received) && Consume(q, r, e)
    ensures Inv(r, sent, if e.Delivered? then received + [e.byte] else received)
    ensures !e.Accepted? && !e.Dropped? && (e.Nothing? ==> |sent| == |received|)
  {
    match q.consumer {
      case Waiting =>
      case HeadLoaded(_) =>
        if |received| < |sent| {
          Around(|received|, |sent|);
        }
      case ByteSeen(_) =>
        assert q.bytes[|received| % CAPACITY] == sent[|received|];
      case SlotRead(_, _) =>
        NextIndex(|received|);
        assert received + [e.byte] <= sent;
    }
  }

  // ---------- whole runs ----------

  /** Any interleaving of the two sides. */
  ghost predicate Run(states: seq<Queue>, events: seq<Event>) {
    && |states| == |events| + 1 && Init(states[0])
    && forall i :: 0 <= i < |events| ==> Step(states[i], states[i + 1], events[i])
  }

  lemma {:induction false} RunInv(states: seq<Queue>, events: seq<Event>)
    requires Run(states, events)
    ensures Inv(states[|events|], Sent(events), Received(events))
    decreases |events|
  {
    hide Inv;
    if events == [] {
      InitInv(states[0]);
    } else {
      var n := |events| - 1;
      RunInv(states[..n + 1], events[..n]);
      var sent, received := Sent(events[..n]), Received(events[..n]);
      StepInv(states[n], states[n + 1], events[n], sent, received);
      assert Sent(events) == if events[n].Accepted? then sent + [events[n].byte] else sent;
      assert Received(events) == if events[n].Delivered? then received + [events[n].byte] else received;
    }
  }

  lemma InitInv(q: Queue)
    requires Init(q)
    ensures Inv(q, [], [])
  {
  }

  lemma {:induction false} StepInv(q: Queue, r: Queue, e: Event, sent: seq<byte>, received: seq<byte>)
    requires Inv(q, sent, received) && Step(q, r, e)
    ensures Inv(r, if e.Accepted? then sent + [e.byte] else sent, if e.Delivered? then received + [e.byte] else received)
    ensures e.Dropped? ==> |sent| - |received| == CAPACITY - 1
    ensures e.Nothing? ==> |sent| == |received|
  {
    hide Inv, Produce, Consume;
    if Produce(q, r, e) {
      ProduceKeeps(q, r, e, sent, received);
    } else {
      ConsumeKeeps(q, r, e, sent, received);
    }
  }

  /** First in, first out: what has come out, then what is queued, is what went in. */
  lemma {:induction false} RunFifo(states: seq<Queue>, events: seq<Event>)
    requires Run(states, events)
    ensures var q := states[|events|];
      && |q.bytes| == CAPACITY && q.head < CAPACITY && q.tail < CAPACITY
      && Received(events) + Queued(q) == Sent(events)
  {
    hide Inv, Sent, Received, Queued;
    RunInv(states, events);
    QueuedIs(states[|events|], Sent(events), Received(events));
  }

  lemma {:induction false} QueuedIs(q: Queue, sent: seq<byte>, received: seq<byte>)
    requires Inv(q, sent, received)
    ensures |q.bytes| == CAPACITY && q.head < CAPACITY && q.tail < CAPACITY && received + Queued(q) == sent
  {
    hide ProducerOk, ConsumerOk;
    Distance(|received|, |sent|);
    forall i: nat | i < Length(q) ensures Queued(q)[i] == sent[|received| + i] {
      IndexOf(|received|, i);
      assert q.bytes[(|received| + i) % CAPACITY] == sent[|received| + i];
    }
  }

  lemma Distance(a: nat, b: nat)
    requires a <= b < a + CAPACITY
    ensures (b % CAPACITY + CAPACITY - a % CAPACITY) % CAPACITY == b - a
  {
  }

  lemma IndexOf(a: nat, i: nat)
    ensures (a % CAPACITY + i) % CAPACITY == (a + i) % CAPACITY
  {
  }

  /**
    No byte is changed on the way in: those offered are those accepted or dropped, in
    order, and the one under way.
   */
  lemma {:induction false} RunOffers(states: seq<Queue>, events: seq<Event>)
    requires Run(states, events)
    ensures Settled(events) + InFlight(states[|events|]) == Offers(events)
    decreases |events|
  {
    hide Step, Init, InFlight, Ended, Begun;
    if events == [] {
      NothingInFlight(states[0]);
    } else {
      var n := |events| - 1;
      var q, r, e := states[n], states[n + 1], events[n];
      RunOffers(states[..n + 1], events[..n]);
      assert Step(q, r, e);
      StepOffers(q, r, e);
      var settled := Settled(events[..n]);
      assert (settled + Ended(e)) + InFlight(r) == settled + (InFlight(q) + Begun(e)) == (settled + InFlight(q)) + Begun(e);
    }
  }

  lemma NothingInFlight(q: Queue)
    requires Init(q)
    ensures InFlight(q) == []
  {
  }

  lemma StepOffers(q: Queue, r: Queue, e: Event)
    requires Step(q, r, e)
    ensures Ended(e) + InFlight(r) == InFlight(q) + Begun(e)
  {
  }

  /** The producer never writes a slot the consumer is about to read or has just read. */
  lemma {:induction false} NoSharedSlot(states: seq<Queue>, events: seq<Event>)
    requires Run(states, events)
    ensures var q := states[|events|];
      q.producer.RoomSeen? && (q.consumer.ByteSeen? || q.consumer.SlotRead?) ==> q.producer.tail != q.consumer.head
  {
    RunInv(states, events);
    var sent, received := Sent(events), Received(events);
    if |received| < |sent| {
      Around(|received|, |sent|);
    }
  }

  /** Bytes are dropped, and emptiness reported, only when the queue is full or empty. */
  lemma {:induction false} RunHonest(states: seq<Queue>, events: seq<Event>, i: nat)
    requires Run(states, events) && i < |events|
    ensures |Received(events[..i])| <= |Sent(events[..i])|
    ensures events[i].Dropped? ==> |Sent(events[..i])| - |Received(events[..i])| == CAPACITY - 1
    ensures events[i].Nothing? ==> |Sent(events[..i])| == |Received(events[..i])|
  {
    RunInv(states[..i + 1], events[..i]);
    StepInv(states[i], states[i + 1], events[i], Sent(events[..i]), Received(events[..i]));
  }
}
