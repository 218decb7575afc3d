/** The per-stream event queue that drops its oldest event rather than block
    (emit and forwardEvents in internal/api/registerservice.go), with one producer and one consumer. */
module EventQueue {
  const EVENT_QUEUE_SIZE := 256

  class Stream<Event(0)> {
    var queue: seq<Event>
    var dropCount: nat
    // history: what emit took, what the forwarder received, and where in `emitted` the surviving events are
    ghost var emitted: seq<Event>
    ghost var delivered: seq<Event>
    ghost var kept: seq<nat>

    /** Delivered and queued events are the emitted ones at the positions `kept`, in order; the others are counted
        as dropped. */
    ghost predicate Valid()
      reads this
    {
      && |queue| <= EVENT_QUEUE_SIZE
      && |kept| == |delivered| + |queue|
      && |emitted| == |kept| + dropCount
      && (forall i, j :: 0 <= i < j < |kept| ==> kept[i] < kept[j])
      && (forall i :: 0 <= i < |kept| ==> kept[i] < |emitted| && emitted[kept[i]] == (delivered + queue)[i])
    }

    constructor ()
      ensures Valid() && emitted == delivered == queue == [] && dropCount == 0
    {
      queue, dropCount, emitted, delivered, kept := [], 0, [], [], [];
    }

    /** The forwarder receives one event, if there is one. */
    method Receive() returns (got: bool)
      requires Valid()
      modifies this`queue, this`delivered
      ensures Valid() && got == (old(queue) != [])
      ensures got ==> delivered == old(delivered) + [old(queue)[0]] && queue == old(queue)[1..]
      ensures !got ==> delivered == old(delivered) && queue == old(queue)
    {
      got := queue != [];
      if got {
        assert delivered + queue == (delivered + [queue[0]]) + queue[1..];
        delivered := delivered + [queue[0]];
        queue := queue[1..];
      }
    }

    /** Since the stream stood at `d`, `q` and `n`, events have left the queue only at its front, delivered or
        dropped. */
    ghost predicate Since(d: seq<Event>, q: seq<Event>, n: nat)
      reads this
    {
      var gone := |delivered| - |d| + dropCount - n;
      d <= delivered && n <= dropCount && gone <= |q| && queue == q[gone..]
    }

    /** The forwarder receives any number of events meanwhile. */
    method ForwarderRuns(ghost d: seq<Event>, ghost q: seq<Event>, ghost n: nat)
      requires Valid() && Since(d, q, n)
      modifies this`queue, this`delivered
      ensures Valid() && Since(d, q, n) && |queue| <= |old(queue)|
    {
      hide Valid;
      var turns: nat := *;
      while turns > 0
        invariant Valid() && Since(d, q, n) && |queue| <= |old(queue)|
      {
        var got := Receive();
        turns := turns - 1;
      }
    }

    /** Ends, with the event at the end of the queue, after dropping at most one event: the oldest at that moment.
        What is queued before it is what was queued at the start,
        less as many from the front as were delivered or dropped. */
    method Emit(ev: Event)
      requires Valid()
      modifies this
      ensures Valid() && emitted == old(emitted) + [ev]
      ensures old(delivered) <= delivered && old(dropCount) <= dropCount <= old(dropCount) + 1
      ensures |old(queue)| < 256 ==> dropCount == old(dropCount)
      ensures |queue| <= 256
      ensures var gone := |delivered| - |old(delivered)| + dropCount - old(dropCount);
              gone <= |old(queue)| && queue == old(queue)[gone..] + [ev]
    {
      hide Valid, Since;
      ghost var d, q, n := delivered, queue, dropCount;
      Now();
      while true
        invariant Valid() && emitted == old(emitted) && Since(d, q, n) && |queue| <= |q|
        invariant dropCount == n || (dropCount == n + 1 && |queue| < EVENT_QUEUE_SIZE)
        invariant |q| < EVENT_QUEUE_SIZE ==> dropCount == n
        decreases |queue|
      {
        ForwarderRuns(d, q, n);
        if |queue| < EVENT_QUEUE_SIZE {
          SendNow(ev, d, q, n);
          return;
        }
        ForwarderRuns(d, q, n);
        DropOldest(d, q, n);
      }
    }

    lemma {:induction false} Now()
      requires Valid()
      ensures Since(delivered, queue, dropCount) && |queue| <= EVENT_QUEUE_SIZE
    {
    }

    /** The first select: there is room. */
    method SendNow(ev: Event, ghost d: seq<Event>, ghost q: seq<Event>, ghost n: nat)
      requires Valid() && Since(d, q, n) && |queue| < EVENT_QUEUE_SIZE
      modifies this`queue, this`emitted, this`kept
      ensures Valid() && queue == old(queue) + [ev] && emitted == old(emitted) + [ev]
      ensures d <= delivered
      ensures var gone := |delivered| - |d| + dropCount - n; gone <= |q| && queue == q[gone..] + [ev]
    {
      ghost var k := |kept|;
      kept := kept + [|emitted|];
      emitted := emitted + [ev];
      queue := queue + [ev];
      assert (delivered + queue)[k] == ev;
      assert (delivered + queue)[..k] == old(delivered + queue);
    }

    /** The second select: take the oldest event out, if the forwarder has left one. */
    method DropOldest(ghost d: seq<Event>, ghost q: seq<Event>, ghost n: nat)
      requires Valid() && Since(d, q, n)
      modifies this`queue, this`dropCount, this`kept
      ensures Valid() && Since(d, q, n)
      ensures old(queue) != [] ==> queue == old(queue)[1..] && dropCount == old(dropCount) + 1
      ensures old(queue) == [] ==> queue == [] && dropCount == old(dropCount)
    {
      if queue != [] {
        ghost var k := |delivered|;
        kept := kept[..k] + kept[k + 1..];
        queue := queue[1..];
        dropCount := dropCount + 1;
      }
    }
  }
}
