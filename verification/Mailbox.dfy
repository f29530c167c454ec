/**
 The time-stamped queues between objects. A writer gives a packet the stamp of
 the slot it is meant for as its message type; a reader asks for the first
 message of the lowest type that is not above its own stamp, with the negative
 type of msgrcv() in the POSIX.1 System Interfaces.
 */
module Mailbox {

  const MSG_BUFF_SZ := 10 * 1024 * 1024

  type Byte = n: nat | n < 256

  /** A message: its type, the stamp in its header, its body. */
  datatype Packet = Packet(dst: int, tstamp: int, body: seq<Byte>)

  // ---- Message queues ----

  /** The first message of the lowest type among q[from..] with type at most `top`; -1 if there is none. */
  function Lowest(q: seq<Packet>, top: int, from: nat): (i: int)
    requires from <= |q|
    ensures i == -1 || from <= i < |q|
    ensures i == -1 <==> forall k :: from <= k < |q| ==> q[k].dst > top
    ensures i >= 0 ==> q[i].dst <= top
    ensures i >= 0 ==> forall k :: from <= k < |q| ==> q[i].dst <= q[k].dst
    ensures i >= 0 ==> forall k :: from <= k < i ==> q[i].dst < q[k].dst
    decreases |q| - from
  {
    if from == |q| then -1
    else
      var rest := Lowest(q, top, from + 1);
      if q[from].dst <= top && (rest == -1 || q[from].dst <= q[rest].dst) then from else rest
  }

  /** The message that msgrcv() takes for a type that is 0 or negative; -1 for ENOMSG. */
  function Pick(q: seq<Packet>, msgtyp: int): (i: int)
    requires msgtyp <= 0
    ensures i == -1 || 0 <= i < |q|
  {
    if msgtyp == 0 then (if |q| == 0 then -1 else 0) else Lowest(q, -msgtyp, 0)
  }

  /** A reading object asks with its own stamp negated, a daemon with 0. */
  function ReadType(isObject: bool, stamp: nat): (t: int)
    ensures t <= 0
  {
    if isObject then -(stamp as int) else 0
  }

  /**
   A daemon takes the head of the queue, whatever its stamp and whatever is due.
   An object at stamp 1 or later takes the first of the lowest due type.
   */
  lemma ReaderTakes(q: seq<Packet>, isObject: bool, stamp: nat)
    ensures var i := Pick(q, ReadType(isObject, stamp));
            && (!isObject || stamp == 0 ==> i == (if |q| == 0 then -1 else 0))
            && (isObject && stamp >= 1 ==>
                && (i == -1 <==> forall k :: 0 <= k < |q| ==> q[k].dst > stamp)
                && (i >= 0 ==> q[i].dst <= stamp && (forall k :: 0 <= k < |q| ==> q[i].dst <= q[k].dst)
                               && forall k :: 0 <= k < i ==> q[i].dst < q[k].dst))
  {
  }

  function Remove(q: seq<Packet>, i: nat): seq<Packet>
    requires i < |q|
  {
    q[..i] + q[i + 1..]
  }

  // ---- One interface ----

  /** The delay settings of an interface: its own, the default one, the one added for external links. */
  datatype Link = Link(delay: nat, defaultDelay: nat, external: bool, externalDelay: nat)

  function Delay(l: Link): nat {
    if l.delay == 0 then l.defaultDelay else l.delay
  }

  /** Slots between sending a packet and its reader slot. */
  function Latency(l: Link): nat {
    Delay(l) + (if l.external then l.externalDelay else 0)
  }

  /** The type an object's packet gets; a positive `forced` overrides it. */
  function Dst(l: Link, stamp: int, forced: int): int {
    if forced > 0 then forced
    else if Delay(l) != 0 then stamp + Latency(l)
    else 1
  }

  /** The stamp in the header; without a delay the sender's variable is never set. */
  function HeaderStamp(l: Link, stamp: int, unset: int): int {
    if Delay(l) != 0 then stamp + Delay(l) else unset
  }

  class Interface {
    const link: Link
    var queue: seq<Packet>
    var writable: bool
    var readable: bool

    constructor (link: Link, writable: bool, readable: bool)
      ensures queue == [] && this.link == link && this.writable == writable && this.readable == readable
    {
      this.link, queue, this.writable, this.readable := link, [], writable, readable;
    }

    /**
     `hwapi_itf_snd_`, called by an object. `room` is the answer of the queue:
     a full one refuses the packet and 0 is returned. `unset` is what the
     sender's stamp variable happens to hold before it is assigned.
     */
    method Send(body: seq<Byte>, stamp: nat, forced: int, room: bool, unset: int) returns (n: int)
      modifies this`queue
      ensures !writable || |body| > MSG_BUFF_SZ ==> n == -1
      ensures writable && |body| <= MSG_BUFF_SZ ==> n == if room then |body| else 0
      ensures queue == if writable && |body| <= MSG_BUFF_SZ && room
                       then old(queue) + [Packet(Dst(link, stamp, forced), HeaderStamp(link, stamp, unset), body)]
                       else old(queue)
    {
      if !writable {
        return -1;
      }
      if |body| > MSG_BUFF_SZ {
        return -1;
      }
      var delay := link.delay;
      if delay == 0 {
        delay := link.defaultDelay;
      }
      var tstamp, dst := unset, 1;
      if delay != 0 {
        tstamp := stamp;
        dst := tstamp + delay;
        if link.external {
          dst := dst + link.externalDelay;
        }
      }
      if forced > 0 {
        dst := forced;
      }
      if !room {
        return 0;
      }
      queue := queue + [Packet(dst, tstamp + delay, body)];
      n := |body|;
    }

    /**
     `hwapi_itf_rcv__` without blocking. `isObject` tells an object, which reads
     with its own stamp, from a daemon. A body longer than the user's buffer is
     cut, and the rest of it is gone with the message.
     */
    method Receive(isObject: bool, stamp: nat, size: nat) returns (n: int, body: seq<Byte>, tstamp: int)
      modifies this`queue
      ensures !readable ==> n == -1 && queue == old(queue)
      ensures readable ==>
                var i := Pick(old(queue), ReadType(isObject, stamp));
                if i == -1 then n == 0 && queue == old(queue)
                else n == |body| && body <= old(queue)[i].body
                     && (body == old(queue)[i].body <==> |old(queue)[i].body| <= size)
                     && (|old(queue)[i].body| > size ==> n == size)
                     && tstamp == old(queue)[i].tstamp
                     && queue == old(queue)[..i] + old(queue)[i + 1..]
    {
      body, tstamp := [], 0;
      if !readable {
        n := -1;
        return;
      }
      var msgtyp := ReadType(isObject, stamp);
      var i := Pick(queue, msgtyp);
      if i == -1 {
        n := 0;
        return;
      }
      n := |queue[i].body|;
      if n > size {
        n := size;
      }
      body, tstamp := queue[i].body[..n], queue[i].tstamp;
      queue := Remove(queue, i);
    }
  }

  // ---- Runs of one interface between objects ----

  datatype Event = Sent(body: seq<Byte>, stamp: nat, forced: int, room: bool, unset: int) | Received(at: nat)

  /** A delivered packet, the reader's stamp, and which of the accepted packets it is. */
  datatype Delivery = Delivery(packet: Packet, at: nat, origin: nat)

  /**
   The queue with the history of what was accepted and what was delivered;
   origins says of each packet in the queue which of the accepted ones it is.
   */
  datatype Sys = Sys(queue: seq<Packet>, origins: seq<nat>, accepted: seq<Packet>, delivered: seq<Delivery>)

  const EMPTY := Sys([], [], [], [])

  predicate Accepts(e: Event) {
    e.Sent? && |e.body| <= MSG_BUFF_SZ && e.room
  }

  function Do(l: Link, s: Sys, e: Event): (t: Sys)
    requires |s.origins| == |s.queue|
    ensures |t.origins| == |t.queue|
  {
    match e
    case Sent(body, stamp, forced, room, unset) =>
      if |body| > MSG_BUFF_SZ || !room then s
      else
        var p := Packet(Dst(l, stamp, forced), HeaderStamp(l, stamp, unset), body);
        Sys(s.queue + [p], s.origins + [|s.accepted|], s.accepted + [p], s.delivered)
    case Received(stamp) =>
      var i := Pick(s.queue, ReadType(true, stamp));
      if i == -1 then s
      else Sys(Remove(s.queue, i), s.origins[..i] + s.origins[i + 1..], s.accepted,
               s.delivered + [Delivery(s.queue[i], stamp, s.origins[i])])
  }

  function After(l: Link, s: Sys, run: seq<Event>): (t: Sys)
    requires |s.origins| == |s.queue|
    ensures |t.origins| == |t.queue|
    decreases |run|
  {
    if |run| == 0 then s else After(l, Do(l, s, run[0]), run[1..])
  }

  /** The sends of a run that are accepted, in order. */
  function AcceptedSends(run: seq<Event>): (r: seq<Event>)
    ensures forall i :: 0 <= i < |r| ==> r[i].Sent? && Accepts(r[i])
    decreases |run|
  {
    if |run| == 0 then [] else (if Accepts(run[0]) then [run[0]] else []) + AcceptedSends(run[1..])
  }

  /** The writer's stamps do not decrease from `last` on, and no packet's slot is forced. */
  predicate InStep(run: seq<Event>, last: int)
    decreases |run|
  {
    |run| == 0
    || match run[0]
       case Sent(_, stamp, forced, _, _) => last <= stamp && forced <= 0 && InStep(run[1..], stamp)
       case Received(_) => InStep(run[1..], last)
  }

  function Packets(d: seq<Delivery>): (r: seq<Packet>)
    ensures |r| == |d|
    ensures forall i {:trigger r[i]} :: 0 <= i < |d| ==> r[i] == d[i].packet
  {
    seq(|d|, i requires 0 <= i < |d| => d[i].packet)
  }

  // ---- Order ----

  /** The types in the queue do not decrease, and are at most `bound`. */
  predicate Sorted(q: seq<Packet>, bound: int) {
    && (forall i, j :: 0 <= i < j < |q| ==> q[i].dst <= q[j].dst)
    && (forall i :: 0 <= i < |q| ==> q[i].dst <= bound)
  }

  /** Delivered and then pending packets are the accepted ones, in order. */
  predicate Fifo(s: Sys) {
    s.accepted == Packets(s.delivered) + s.queue
  }

  /** From a sorted queue a reader takes the head, or nothing when the head is not due. */
  lemma PickHead(q: seq<Packet>, bound: int, stamp: nat)
    requires Sorted(q, bound)
    ensures Pick(q, ReadType(true, stamp)) == if |q| > 0 && (stamp == 0 || q[0].dst <= stamp) then 0 else -1
  {
  }

  lemma FifoSend(s: Sys, s1: Sys, p: Packet, bound: int)
    requires Fifo(s) && Sorted(s.queue, bound) && bound <= p.dst
    requires s1.queue == s.queue + [p] && s1.accepted == s.accepted + [p] && s1.delivered == s.delivered
    ensures Fifo(s1) && Sorted(s1.queue, p.dst)
  {
    hide Packets;
    assert s.accepted + [p] == Packets(s.delivered) + (s.queue + [p]);
  }

  lemma FifoReceive(s: Sys, s1: Sys, d: Delivery, bound: int)
    requires Fifo(s) && Sorted(s.queue, bound) && |s.queue| > 0 && d.packet == s.queue[0]
    requires s1.queue == s.queue[1..] && s1.delivered == s.delivered + [d] && s1.accepted == s.accepted
    ensures Fifo(s1) && Sorted(s1.queue, bound)
  {
    hide Packets;
    assert Packets(s1.delivered) == Packets(s.delivered) + [s.queue[0]];
    assert s.queue == [s.queue[0]] + s.queue[1..];
  }

  lemma FifoStep(l: Link, s: Sys, e: Event, last: int)
    requires |s.origins| == |s.queue|
    requires Fifo(s) && Sorted(s.queue, Dst(l, last, -1)) && (e.Sent? ==> last <= e.stamp && e.forced <= 0)
    ensures var s1, now := Do(l, s, e), if e.Sent? then e.stamp else last;
            Fifo(s1) && Sorted(s1.queue, Dst(l, now, -1))
  {
    if e.Sent? {
      assert Sorted(s.queue, Dst(l, e.stamp, -1));
      if Accepts(e) {
        FifoSend(s, Do(l, s, e), Packet(Dst(l, e.stamp, e.forced), HeaderStamp(l, e.stamp, e.unset), e.body), Dst(l, last, -1));
      }
    } else {
      PickHead(s.queue, Dst(l, last, -1), e.at);
      if |s.queue| > 0 && Pick(s.queue, ReadType(true, e.at)) == 0 {
        assert Remove(s.queue, 0) == s.queue[1..];
        FifoReceive(s, Do(l, s, e), Delivery(s.queue[0], e.at, s.origins[0]), Dst(l, last, -1));
      }
    }
  }

  /** The writer's stamp behind a run. */
  function LastStamp(run: seq<Event>, last: int): int
    decreases |run|
  {
    if |run| == 0 then last else LastStamp(run[1..], if run[0].Sent? then run[0].stamp else last)
  }

  /**
   With non-decreasing writer stamps the queue is a FIFO, for every delay and
   whatever the reader's stamps: in every run what was received followed by
   what is pending is what was accepted, in sending order.
   */
  lemma {:induction false} QueueIsFifo(l: Link, s: Sys, run: seq<Event>, last: int)
    requires |s.origins| == |s.queue| && Fifo(s) && Sorted(s.queue, Dst(l, last, -1)) && InStep(run, last)
    ensures var t := After(l, s, run); Fifo(t) && Sorted(t.queue, Dst(l, LastStamp(run, last), -1))
    decreases |run|
  {
    hide Fifo, Sorted, Do, Dst;
    if |run| > 0 {
      FifoStep(l, s, run[0], last);
      QueueIsFifo(l, Do(l, s, run[0]), run[1..], if run[0].Sent? then run[0].stamp else last);
    }
  }

  /**
   What a receive does after any run with non-decreasing writer stamps: from
   stamp 1 on it finds nothing exactly when every accepted packet has been
   delivered or the first one that has not is not due; else it takes that one.
   At stamp 0 it takes that one even when it is not due.
   */
  lemma NothingIffNotDue(l: Link, run: seq<Event>, first: int, stamp: nat)
    requires InStep(run, first)
    ensures var s := After(l, EMPTY, run);
            var i, n := Pick(s.queue, ReadType(true, stamp)), |s.delivered|;
            && n <= |s.accepted|
            && (i == -1 <==> n == |s.accepted| || (stamp >= 1 && s.accepted[n].dst > stamp))
            && (i != -1 ==> s.queue[i] == s.accepted[n])
  {
    hide Pick, Packets, Dst;
    var s := After(l, EMPTY, run);
    EmptyFifo();
    QueueIsFifo(l, EMPTY, run, first);
    PickHead(s.queue, Dst(l, LastStamp(run, first), -1), stamp);
    assert |s.queue| > 0 ==> s.accepted[|s.delivered|] == s.queue[0];
  }

  lemma EmptyFifo()
    ensures Fifo(EMPTY) && forall bound :: Sorted(EMPTY.queue, bound)
  {
  }

  // ---- Which packet, and when ----

  /** The slot a send is meant for, in the terms of the interface's settings. */
  predicate SlotOf(l: Link, e: Event, dst: int)
    requires e.Sent?
  {
    && (e.forced > 0 ==> dst == e.forced)
    && (e.forced <= 0 && l.delay > 0 ==> dst == e.stamp + l.delay + (if l.external then l.externalDelay else 0))
    && (e.forced <= 0 && l.delay == 0 && l.defaultDelay > 0 ==>
          dst == e.stamp + l.defaultDelay + (if l.external then l.externalDelay else 0))
    && (e.forced <= 0 && l.delay == 0 && l.defaultDelay == 0 ==> dst == 1)
  }

  /** The packet of a send: its slot, its header and its body. */
  predicate PacketOf(l: Link, e: Event, p: Packet)
    requires e.Sent?
  {
    && SlotOf(l, e, p.dst) && p.dst >= 1 && p.body == e.body
    && (l.delay > 0 ==> p.tstamp == e.stamp + l.delay)
    && (l.delay == 0 && l.defaultDelay > 0 ==> p.tstamp == e.stamp + l.defaultDelay)
    && (l.delay == 0 && l.defaultDelay == 0 ==> p.tstamp == e.unset)
  }

  predicate FromSends(l: Link, accepted: seq<Packet>, sends: seq<Event>)
    requires forall i :: 0 <= i < |sends| ==> sends[i].Sent?
  {
    |accepted| == |sends| && forall i :: 0 <= i < |sends| ==> PacketOf(l, sends[i], accepted[i])
  }

  /** Everything in the queue and everything delivered is the accepted packet its origin names. */
  predicate Traced(s: Sys) {
    && |s.origins| == |s.queue|
    && (forall i :: 0 <= i < |s.queue| ==> s.origins[i] < |s.accepted| && s.queue[i] == s.accepted[s.origins[i]])
    && (forall i :: 0 <= i < |s.delivered| ==>
          s.delivered[i].origin < |s.accepted| && s.delivered[i].packet == s.accepted[s.delivered[i].origin])
    && (forall i :: 0 <= i < |s.accepted| ==> s.accepted[i].dst >= 1)
    && (forall i :: 0 <= i < |s.delivered| ==> (s.delivered[i].at < s.delivered[i].packet.dst <==> s.delivered[i].at == 0))
  }

  lemma PickDueIff(q: seq<Packet>, stamp: nat)
    requires forall i :: 0 <= i < |q| ==> q[i].dst >= 1
    ensures var i := Pick(q, ReadType(true, stamp)); i >= 0 ==> (stamp < q[i].dst <==> stamp == 0)
  {
  }

  lemma TracedStep(l: Link, s: Sys, e: Event)
    requires Traced(s)
    ensures Traced(Do(l, s, e))
  {
    hide Pick;
    if e.Received? {
      PickDueIff(s.queue, e.at);
    }
  }

  lemma SendPacket(l: Link, e: Event)
    requires e.Sent?
    ensures PacketOf(l, e, Packet(Dst(l, e.stamp, e.forced), HeaderStamp(l, e.stamp, e.unset), e.body))
  {
  }

  lemma AcceptStep(l: Link, s: Sys, e: Event)
    requires |s.origins| == |s.queue|
    ensures Accepts(e) ==> |Do(l, s, e).accepted| == |s.accepted| + 1 && Do(l, s, e).accepted[..|s.accepted|] == s.accepted
                           && PacketOf(l, e, Do(l, s, e).accepted[|s.accepted|])
    ensures !Accepts(e) ==> Do(l, s, e).accepted == s.accepted
  {
    if e.Sent? {
      SendPacket(l, e);
    }
  }

  /** The accepted packets of a run are those of its accepted sends, in order. */
  lemma {:induction false} AcceptedFrom(l: Link, s: Sys, run: seq<Event>)
    requires |s.origins| == |s.queue|
    ensures var a, n := After(l, s, run).accepted, |s.accepted|;
            && n <= |a| && a[..n] == s.accepted && FromSends(l, a[n..], AcceptedSends(run))
    decreases |run|
  {
    hide PacketOf, Do;
    var a, n := After(l, s, run).accepted, |s.accepted|;
    if |run| > 0 {
      var s1 := Do(l, s, run[0]);
      AcceptStep(l, s, run[0]);
      AcceptedFrom(l, s1, run[1..]);
      assert a[..n] == a[..|s1.accepted|][..n];
      if Accepts(run[0]) {
        assert a[n] == a[..n + 1][n] == s1.accepted[n];
        assert a[n..] == [a[n]] + a[n + 1..];
      }
    }
  }

  lemma {:induction false} TracedAlways(l: Link, s: Sys, run: seq<Event>)
    requires Traced(s)
    ensures Traced(After(l, s, run))
    decreases |run|
  {
    hide Do, Pick;
    if |run| > 0 {
      TracedStep(l, s, run[0]);
      TracedAlways(l, Do(l, s, run[0]), run[1..]);
    }
  }

  lemma RunFacts(l: Link, run: seq<Event>)
    ensures var s := After(l, EMPTY, run); Traced(s) && FromSends(l, s.accepted, AcceptedSends(run))
  {
    hide Traced, FromSends, After;
    var s := After(l, EMPTY, run);
    assert Traced(EMPTY) by { EmptyTraced(); }
    TracedAlways(l, EMPTY, run);
    AcceptedFrom(l, EMPTY, run);
    assert s.accepted[0..] == s.accepted;
  }

  lemma EmptyTraced()
    ensures Traced(EMPTY)
  {
  }

  /**
   In every run, whatever the stamps, a packet is delivered before the slot in
   its type exactly when the reader's stamp was 0.
   */
  lemma EarlyIffStampZero(l: Link, run: seq<Event>, i: nat)
    requires i < |After(l, EMPTY, run).delivered|
    ensures var d := After(l, EMPTY, run).delivered[i]; d.at < d.packet.dst <==> d.at == 0
  {
    hide After;
    RunFacts(l, run);
  }

  /**
   In every run, whatever the order of the stamps, a delivered packet comes from
   one accepted send. A reader at stamp 1 or later gets it only from the send's
   stamp plus the interface's own delay on or, if that is 0, plus the default
   delay; the external delay is added exactly on external links. A forced slot
   replaces all that, and without any delay the packet is due from stamp 1. The
   header holds the send's stamp plus the delay inside the node.
   */
  lemma LatencyKept(l: Link, run: seq<Event>, i: nat)
    requires i < |After(l, EMPTY, run).delivered|
    ensures var d, sends := After(l, EMPTY, run).delivered[i], AcceptedSends(run);
            && d.origin < |sends|
            && var e := sends[d.origin];
               && d.packet.body == e.body
               && (l.delay > 0 ==> d.packet.tstamp == e.stamp + l.delay)
               && (l.delay == 0 && l.defaultDelay > 0 ==> d.packet.tstamp == e.stamp + l.defaultDelay)
               && (e.forced > 0 ==> (d.at >= e.forced <==> d.at >= 1))
               && (e.forced <= 0 && l.delay > 0 ==>
                     (d.at >= e.stamp + l.delay + (if l.external then l.externalDelay else 0) <==> d.at >= 1))
               && (e.forced <= 0 && l.delay == 0 && l.defaultDelay > 0 ==>
                     (d.at >= e.stamp + l.defaultDelay + (if l.external then l.externalDelay else 0) <==> d.at >= 1))
  {
    hide After, AcceptedSends;
    RunFacts(l, run);
    var s := After(l, EMPTY, run);
    assert PacketOf(l, AcceptedSends(run)[s.delivered[i].origin], s.accepted[s.delivered[i].origin]);
  }

  /**
   And not later: after any run with non-decreasing writer stamps, a receive at
   stamp 1 or later takes the packet of the first accepted send that is not yet
   delivered, exactly when that send's slot has come.
   */
  lemma DeliveredWhenDue(l: Link, run: seq<Event>, first: int, stamp: nat)
    requires InStep(run, first) && stamp >= 1
    ensures var s, sends := After(l, EMPTY, run), AcceptedSends(run);
            var i, n := Pick(s.queue, ReadType(true, stamp)), |s.delivered|;
            && n <= |sends|
            && (n == |sends| ==> i == -1)
            && (n < |sends| ==>
                && (i != -1 ==> s.queue[i].body == sends[n].body)
                && (l.delay > 0 ==>
                      (i != -1 <==> stamp >= sends[n].stamp + l.delay + (if l.external then l.externalDelay else 0)))
                && (l.delay == 0 && l.defaultDelay > 0 ==>
                      (i != -1 <==> stamp >= sends[n].stamp + l.defaultDelay + (if l.external then l.externalDelay else 0)))
                && (l.delay == 0 && l.defaultDelay == 0 ==> i != -1))
  {
    hide After, AcceptedSends, Pick;
    RunFacts(l, run);
    NothingIffNotDue(l, run, first, stamp);
    var s, sends := After(l, EMPTY, run), AcceptedSends(run);
    if |s.delivered| < |sends| {
      assert PacketOf(l, sends[|s.delivered|], s.accepted[|s.delivered|]);
      NotForced(run, first, |s.delivered|);
    }
  }

  lemma {:induction false} NotForced(run: seq<Event>, first: int, n: nat)
    requires InStep(run, first) && n < |AcceptedSends(run)|
    ensures AcceptedSends(run)[n].forced <= 0
    decreases |run|
  {
    var m := if Accepts(run[0]) then 1 else 0;
    if n >= m {
      NotForced(run[1..], if run[0].Sent? then run[0].stamp else first, n - m);
    }
  }

  // ---- Order among packets of one type ----

  function OfType(q: seq<Packet>, dst: int): seq<Packet> {
    if |q| == 0 then [] else (if q[0].dst == dst then [q[0]] else []) + OfType(q[1..], dst)
  }

  lemma {:induction false} OfTypeAppend(a: seq<Packet>, b: seq<Packet>, dst: int)
    ensures OfType(a + b, dst) == OfType(a, dst) + OfType(b, dst)
    decreases |a|
  {
    if |a| == 0 {
      assert a + b == b;
    } else {
      assert (a + b)[1..] == a[1..] + b;
      OfTypeAppend(a[1..], b, dst);
      var head := if a[0].dst == dst then [a[0]] else [];
      assert head + OfType(a[1..], dst) + OfType(b, dst) == head + (OfType(a[1..], dst) + OfType(b, dst));
    }
  }

  lemma {:induction false} OfTypeNone(a: seq<Packet>, dst: int)
    requires forall i :: 0 <= i < |a| ==> a[i].dst != dst
    ensures OfType(a, dst) == []
  {
    if |a| > 0 {
      OfTypeNone(a[1..], dst);
    }
  }

  /** The packets of each type are delivered in sending order. */
  predicate FifoByType(s: Sys, dst: int) {
    OfType(s.accepted, dst) == OfType(Packets(s.delivered), dst) + OfType(s.queue, dst)
  }

  lemma OfTypeOne(p: Packet, dst: int)
    ensures OfType([p], dst) == if p.dst == dst then [p] else []
  {
    assert [p][1..] == [];
  }

  lemma ByTypeTaken(q: seq<Packet>, i: nat, dst: int)
    requires i < |q| && forall k :: 0 <= k < i ==> q[k].dst != q[i].dst
    ensures OfType(q, dst) == OfType([q[i]], dst) + OfType(q[..i] + q[i + 1..], dst)
  {
    hide OfType;
    assert q == q[..i] + ([q[i]] + q[i + 1..]);
    OfTypeAppend(q[..i], [q[i]] + q[i + 1..], dst);
    OfTypeAppend([q[i]], q[i + 1..], dst);
    OfTypeAppend(q[..i], q[i + 1..], dst);
    OfTypeOne(q[i], dst);
    if q[i].dst == dst {
      OfTypeNone(q[..i], dst);
    }
  }

  lemma ByTypeStep(l: Link, s: Sys, e: Event, dst: int)
    requires |s.origins| == |s.queue| && FifoByType(s, dst)
    ensures FifoByType(Do(l, s, e), dst)
  {
    hide OfType, Pick, Dst, HeaderStamp;
    var s1 := Do(l, s, e);
    if Accepts(e) {
      var p := s1.accepted[|s.accepted|];
      OfTypeAppend(s.accepted, [p], dst);
      OfTypeAppend(s.queue, [p], dst);
    } else if e.Received? {
      ReaderTakes(s.queue, true, e.at);
      var i := Pick(s.queue, ReadType(true, e.at));
      if i >= 0 {
        ByTypeTaken(s.queue, i, dst);
        assert Packets(s1.delivered) == Packets(s.delivered) + [s.queue[i]];
        OfTypeAppend(Packets(s.delivered), [s.queue[i]], dst);
      }
    }
  }

  /** Whatever the stamps, packets of the same type are delivered in sending order. */
  lemma {:induction false} TypeIsFifo(l: Link, s: Sys, run: seq<Event>, dst: int)
    requires |s.origins| == |s.queue| && FifoByType(s, dst)
    ensures FifoByType(After(l, s, run), dst)
    decreases |run|
  {
    hide FifoByType, Do;
    if |run| > 0 {
      ByTypeStep(l, s, run[0], dst);
      TypeIsFifo(l, Do(l, s, run[0]), run[1..], dst);
    }
  }

  // ---- Conservation ----

  predicate Conserved(s: Sys) {
    multiset(s.accepted) == multiset(Packets(s.delivered)) + multiset(s.queue)
  }

  lemma RemoveOne(q: seq<Packet>, i: nat)
    requires i < |q|
    ensures multiset(q) == multiset(Remove(q, i)) + multiset{q[i]}
  {
    assert q == q[..i] + [q[i]] + q[i + 1..];
  }

  lemma ConservedStep(l: Link, s: Sys, e: Event)
    requires |s.origins| == |s.queue| && Conserved(s)
    ensures Conserved(Do(l, s, e))
  {
    hide Remove, Lowest, Dst;
    var s1 := Do(l, s, e);
    if e.Received? && s1 != s {
      var i := Pick(s.queue, ReadType(true, e.at));
      RemoveOne(s.queue, i);
      assert Packets(s1.delivered) == Packets(s.delivered) + [s.queue[i]];
    }
  }

  /** Whatever the stamps, nothing is lost, invented or duplicated. */
  lemma {:induction false} NothingLost(l: Link, s: Sys, run: seq<Event>)
    requires |s.origins| == |s.queue| && Conserved(s)
    ensures Conserved(After(l, s, run))
    decreases |run|
  {
    hide Conserved, Do;
    if |run| > 0 {
      ConservedStep(l, s, run[0]);
      NothingLost(l, Do(l, s, run[0]), run[1..]);
    }
  }
}
