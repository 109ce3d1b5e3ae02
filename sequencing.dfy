/**
 * The reliable-UDP rules the server (`Server.processPacket`, `sendQueued`)
 * and the client (`UpdateClient.processReceived`, `update`) both follow.
 * Every packet is a kind byte (`RESPONSE_TYPE`, `RELIABLE_TYPE` or
 * `UNRELIABLE_TYPE`), a big-endian message ID, and the message. Each side
 * keeps, per peer, the next reliable and unreliable IDs to send and to
 * receive; the counters are Java ints and wrap around.
 */
module Sequencing {
  import opened Java
  import Bytes
  import Protocol

  // Receiving

  /** What a RELIABLE packet does: processed and acknowledged, acknowledged again, or dropped. */
  datatype Delivery = Process | Reack | Drop

  /** A RELIABLE packet with `id` when `expected` is the next ID to receive. */
  function ReliableDelivery(expected: int32, id: int32): Delivery
  {
    if id == expected then Process else if id < expected then Reack else Drop
  }

  /** The receive counter after a RELIABLE packet with `id`: one more once the expected one arrives. */
  function ReliableNext(expected: int32, id: int32): int32
  {
    if id == expected then ToInt32(expected as int + 1) else expected
  }

  /** An UNRELIABLE packet is processed when its ID is not below the counter. */
  predicate UnreliableAccepted(expected: int32, id: int32)
  {
    id >= expected
  }

  /** The unreliable receive counter after a packet with `id`: one past the ID of an accepted packet. */
  function UnreliableNext(expected: int32, id: int32): int32
  {
    if UnreliableAccepted(expected, id) then ToInt32(id as int + 1) else expected
  }

  /** The IDs processed from a run of RELIABLE arrivals, in order, and the counter after them. */
  function ReliableRun(expected: int32, ids: seq<int32>): (seq<int32>, int32)
    decreases |ids|
  {
    if |ids| == 0 then ([], expected)
    else
      var rest := ReliableRun(ReliableNext(expected, ids[0]), ids[1..]);
      (if ReliableDelivery(expected, ids[0]) == Process then [ids[0]] + rest.0 else rest.0, rest.1)
  }

  /**
   * Whatever the order, repetitions and gaps of the arrivals, the reliable
   * messages processed are exactly the consecutive IDs from the starting
   * counter up to the final one, each once and in order (as long as the
   * counter does not reach the largest int).
   */
  lemma {:induction false} ReliableInOrder(expected: int32, ids: seq<int32>)
    requires expected as int + |ids| <= INT_MAX
    ensures expected <= ReliableRun(expected, ids).1 <= expected as int + |ids|
    ensures |ReliableRun(expected, ids).0| == ReliableRun(expected, ids).1 - expected
    ensures forall k | 0 <= k < |ReliableRun(expected, ids).0| :: ReliableRun(expected, ids).0[k] == expected as int + k
    decreases |ids|
  {
    if |ids| > 0 {
      var next := ReliableNext(expected, ids[0]);
      if ids[0] == expected {
        WrapId(expected as int + 1, 0x1_0000_0000);
      }
      ReliableInOrder(next, ids[1..]);
    }
  }

  /** One more RELIABLE arrival after a run: processed when it is the one the run's counter expects. */
  lemma {:induction false} ReliableRunSnoc(expected: int32, ids: seq<int32>, id: int32)
    ensures ReliableRun(expected, ids + [id]).1 == ReliableNext(ReliableRun(expected, ids).1, id)
    ensures ReliableRun(expected, ids + [id]).0 == ReliableRun(expected, ids).0
      + if ReliableDelivery(ReliableRun(expected, ids).1, id) == Process then [id] else []
    decreases |ids|
  {
    if |ids| > 0 {
      assert (ids + [id])[1..] == ids[1..] + [id];
      ReliableRunSnoc(ReliableNext(expected, ids[0]), ids[1..], id);
    }
  }

  /** The IDs processed from a run of UNRELIABLE arrivals, in order, and the counter after them. */
  function UnreliableRun(expected: int32, ids: seq<int32>): (seq<int32>, int32)
    decreases |ids|
  {
    if |ids| == 0 then ([], expected)
    else
      var rest := UnreliableRun(UnreliableNext(expected, ids[0]), ids[1..]);
      (if UnreliableAccepted(expected, ids[0]) then [ids[0]] + rest.0 else rest.0, rest.1)
  }

  /**
   * Unless a packet carries the largest int as its ID, the unreliable
   * messages processed have strictly increasing IDs, none below the starting
   * counter, and the counter never goes down: it ends one past the last
   * processed ID.
   */
  lemma {:induction false} UnreliableIncreasing(expected: int32, ids: seq<int32>)
    requires forall k | 0 <= k < |ids| :: ids[k] < INT_MAX
    ensures expected <= UnreliableRun(expected, ids).1
    ensures forall k | 0 <= k < |UnreliableRun(expected, ids).0| :: expected <= UnreliableRun(expected, ids).0[k]
    ensures forall a, b | 0 <= a < b < |UnreliableRun(expected, ids).0| ::
      UnreliableRun(expected, ids).0[a] < UnreliableRun(expected, ids).0[b]
    ensures |UnreliableRun(expected, ids).0| == 0 ==> UnreliableRun(expected, ids).1 == expected
    ensures |UnreliableRun(expected, ids).0| > 0 ==>
      UnreliableRun(expected, ids).1 == UnreliableRun(expected, ids).0[|UnreliableRun(expected, ids).0| - 1] as int + 1
    decreases |ids|
  {
    if |ids| > 0 {
      var next := UnreliableNext(expected, ids[0]);
      if UnreliableAccepted(expected, ids[0]) {
        WrapId(ids[0] as int + 1, 0x1_0000_0000);
      }
      UnreliableIncreasing(next, ids[1..]);
    }
  }

  /**
   * A packet with the largest int as its ID is accepted whatever the counter,
   * which then wraps to the smallest int, so every later packet is accepted.
   */
  lemma UnreliableWraps(expected: int32, later: int32)
    ensures UnreliableAccepted(expected, INT_MAX)
    ensures UnreliableNext(expected, INT_MAX) == -0x8000_0000
    ensures UnreliableAccepted(UnreliableNext(expected, INT_MAX), later)
  {
  }

  // Sending

  /** A queued message and whether it needs an acknowledgment. */
  datatype SendPacket<M> = SendPacket(data: M, reliable: bool)

  /** A packet put on the wire. */
  datatype Datagram<M> = Response(id: int32) | Reliable(id: int32, data: M) | Unreliable(id: int32, data: M)

  /** `Queue.poll` on an acknowledgment: the queue without its head; an empty queue stays empty. */
  function Poll<M>(queue: seq<SendPacket<M>>): (r: seq<SendPacket<M>>)
    ensures |queue| > 0 ==> queue == queue[..1] + r
    ensures |queue| == 0 ==> r == []
  {
    if |queue| == 0 then [] else queue[1..]
  }

  /** The number of unreliable packets at the head of a queue, before the first reliable one. */
  function UnreliableHead<M>(queue: seq<SendPacket<M>>): (r: nat)
    ensures r <= |queue|
    ensures forall k | 0 <= k < r :: !queue[k].reliable
    ensures r < |queue| ==> queue[r].reliable
  {
    if |queue| == 0 || queue[0].reliable then 0 else 1 + UnreliableHead(queue[1..])
  }

  /** The datagrams that send unreliable packets with consecutive IDs from `id`. */
  function UnreliableSends<M>(id: int32, packets: seq<SendPacket<M>>): (r: seq<Datagram<M>>)
    ensures |r| == |packets|
    ensures forall k | 0 <= k < |r| :: r[k].Unreliable? && r[k].data == packets[k].data
  {
    seq(|packets|, k requires 0 <= k < |packets| => Unreliable(ToInt32(id as int + k), packets[k].data))
  }

  /**
   * The draining part of the client's and the server's send loops: each
   * unreliable message at the head of the queue is written with the next
   * unreliable ID and polled, until the queue is empty or its head is
   * reliable.
   */
  method SendUnreliableHead<M>(queue: seq<SendPacket<M>>, id: int32)
    returns (drained: (seq<SendPacket<M>>, int32), out: seq<Datagram<M>>)
    ensures drained.0 == queue[UnreliableHead(queue)..]
    ensures drained.1 == ToInt32(id as int + UnreliableHead(queue))
    ensures out == UnreliableSends(id, queue[..UnreliableHead(queue)])
  {
    ghost var k := UnreliableHead(queue);
    var rest, next := queue, id;
    out := [];
    var i := 0;
    while |rest| > 0 && !rest[0].reliable
      invariant 0 <= i <= k
      invariant rest == queue[i..] && next == ToInt32(id as int + i)
      invariant out == UnreliableSends(id, queue[..i])
      decreases |rest|
    {
      SendsStep(id, queue, i);
      out := out + [Unreliable(next, rest[0].data)];
      WrapAdd(id as int + i, 1);
      next := ToInt32(next as int + 1);
      rest := rest[1..];
      i := i + 1;
    }
    assert i == k;
    drained := (rest, next);
  }

  /** Sending one more unreliable packet appends its datagram, with the next ID. */
  lemma SendsStep<M>(id: int32, queue: seq<SendPacket<M>>, i: nat)
    requires i < |queue|
    ensures UnreliableSends(id, queue[..i + 1])
      == UnreliableSends(id, queue[..i]) + [Unreliable(ToInt32(id as int + i), queue[i].data)]
  {
  }

  /** Wrapping a sum wraps its first term first or not at all. */
  lemma WrapAdd(x: int, y: int)
    ensures ToInt32(ToInt32(x) as int + y) == ToInt32(x + y)
  {
    var m := 0x1_0000_0000;
    var h := 0x8000_0000;
    var q := (x + h) / m;
    assert ToInt32(x) == x - q * m;
    var q2 := (x + y + h) / m;
    assert ToInt32(x + y) == x + y - q2 * m;
    DivModUnique(ToInt32(x) as int + y + h, m, q2 - q, (x + y + h) % m);
  }

  /** The bytes of a datagram: kind, message ID, then the message. */
  function Frame(d: Datagram<seq<byte>>): (r: seq<byte>)
  {
    match d
    case Response(id) => [Protocol.RESPONSE_TYPE] + Bytes.IntBytes(id)
    case Reliable(id, data) => [Protocol.RELIABLE_TYPE] + Bytes.IntBytes(id) + data
    case Unreliable(id, data) => [Protocol.UNRELIABLE_TYPE] + Bytes.IntBytes(id) + data
  }

  /**
   * The receiving side reads back what the sending side framed: a packet at
   * least `HEADER_SIZE` long whose first byte is the kind, whose next four
   * are the ID, and whose rest is the message.
   */
  lemma FrameRoundTrip(d: Datagram<seq<byte>>)
    ensures |Frame(d)| >= Protocol.HEADER_SIZE
    ensures Frame(d)[0] == match d
      case Response(_) => Protocol.RESPONSE_TYPE
      case Reliable(_, _) => Protocol.RELIABLE_TYPE
      case Unreliable(_, _) => Protocol.UNRELIABLE_TYPE
    ensures Bytes.GetInteger(Frame(d), 1) == d.id
    ensures Frame(d)[Protocol.HEADER_SIZE..] == if d.Response? then [] else d.data
  {
    var head := [Frame(d)[0]] + Bytes.IntBytes(d.id);
    assert Frame(d) == head + Frame(d)[Protocol.HEADER_SIZE..];
    Bytes.IntegerRoundTrip([Frame(d)[0]] + Bytes.IntBytes(d.id) + Frame(d)[Protocol.HEADER_SIZE..], 1, d.id);
    assert Bytes.Splice(Frame(d), 1, Bytes.IntBytes(d.id)) == Frame(d);
  }
}
