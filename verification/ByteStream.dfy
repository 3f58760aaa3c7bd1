/** The reading side of a socket, as an adversary may schedule it: the bytes
    still to come and, for each future read, whether it stalls, fails or
    delivers some of them. */
module ByteStream {
  import opened Common

  type Bytes = seq<Byte>

  datatype Turn = Stall | Fail | Deliver(count: nat)

  datatype Upstream = Upstream(pending: Bytes, schedule: seq<Turn>)

  datatype Inbound = Waiting | Broken | Arrived(data: Bytes)

  /** One read into a buffer of `capacity` bytes. An exhausted schedule keeps
      stalling; an empty arrival into a nonempty buffer is end of stream. */
  function Read(up: Upstream, capacity: nat): (Inbound, Upstream)
  {
    if up.schedule == [] then (Waiting, up)
    else
      var later := up.schedule[1..];
      match up.schedule[0]
      case Stall => (Waiting, Upstream(up.pending, later))
      case Fail => (Broken, Upstream(up.pending, later))
      case Deliver(count) =>
        var k := Min(Min(Max(count, 1), capacity), |up.pending|);
        (Arrived(up.pending[..k]), Upstream(up.pending[k..], later))
  }

  lemma ReadTakesInOrder(up: Upstream, capacity: nat)
    ensures var (inbound, up') := Read(up, capacity);
            && (if inbound.Arrived? then inbound.data + up'.pending == up.pending else up'.pending == up.pending)
            && (inbound.Arrived? ==> |inbound.data| <= capacity)
            && (inbound.Arrived? && inbound.data == [] ==> capacity == 0 || up.pending == [])
  {
  }

  lemma ReadSpendsATurn(up: Upstream, capacity: nat)
    ensures var (inbound, up') := Read(up, capacity);
            && up'.schedule == (if up.schedule == [] then [] else up.schedule[1..])
            && (inbound.Arrived? ==> up.schedule != [])
            && (inbound.Broken? ==> Fail in up.schedule)
            && (inbound.Waiting? ==> up.schedule == [] || Stall in up.schedule)
            && (forall t :: t in up'.schedule ==> t in up.schedule)
  {
  }

  /** Reads that would return something. */
  function Deliveries(schedule: seq<Turn>): nat
  {
    if schedule == [] then 0 else (if schedule[0].Deliver? then 1 else 0) + Deliveries(schedule[1..])
  }

  function Stalls(schedule: seq<Turn>): nat
  {
    if schedule == [] then 0 else (if schedule[0].Stall? then 1 else 0) + Stalls(schedule[1..])
  }

  /** Reads into a buffer without room. */
  function Zeros(capacities: seq<nat>): nat
  {
    if capacities == [] then 0 else (if capacities[0] == 0 then 1 else 0) + Zeros(capacities[1..])
  }

  /** The socket works, and it is read often enough to pass on everything it
      holds behind `buffered` bytes: the adversary may stall and split as it
      likes, and the reader may waste reads. */
  ghost predicate Enough(up: Upstream, buffered: nat, capacities: seq<nat>)
  {
    && Fail !in up.schedule
    && Deliveries(up.schedule) > |up.pending| + Zeros(capacities)
    && |capacities| > buffered + |up.pending| + Stalls(up.schedule) + Zeros(capacities)
  }

  lemma ReadIsCounted(up: Upstream, capacity: nat)
    requires up.schedule != []
    ensures var (inbound, up') := Read(up, capacity);
            Deliveries(up.schedule) == Deliveries(up'.schedule) + if inbound.Arrived? then 1 else 0
  {
  }

  lemma ReadProgresses(up: Upstream, capacity: nat)
    requires Fail !in up.schedule && Deliveries(up.schedule) > 0
    ensures var (inbound, up') := Read(up, capacity);
            && Fail !in up'.schedule
            && match inbound
               case Waiting =>
                 && up'.pending == up.pending
                 && Stalls(up'.schedule) + 1 == Stalls(up.schedule)
                 && Deliveries(up'.schedule) == Deliveries(up.schedule)
               case Broken => false
               case Arrived(data) =>
                 && Stalls(up'.schedule) == Stalls(up.schedule)
                 && Deliveries(up'.schedule) + 1 == Deliveries(up.schedule)
                 && |data| + |up'.pending| == |up.pending|
                 && (data == [] ==> capacity == 0 || up.pending == [])
  {
    assert up.schedule[0] in up.schedule;
  }
}
