/**
 * The game client's side of the connection (`client.network.UpdateClient`):
 * the same reliable-UDP rules as the server's, with one peer, a status that
 * goes from connecting to connected (or rejected) and on to disconnected,
 * and the download of the world, which arrives in chunks after the connect
 * acknowledgment announced its size.
 *
 * The socket is not modelled: what the client writes is appended to `sent`.
 * The listeners a caller may set are modelled by the events they would
 * receive, appended to `events`. The clock reading is a parameter.
 */
module UpdateClient {
  import opened Java
  import Bytes
  import Protocol
  import Sequencing

  /** `UpdateClient.Status`. */
  datatype Status = CONNECTING | CONNECTED | DISCONNECTING | DISCONNECTED | REJECTED

  /** `requiresCommunication`: only a disconnected client has nothing more to exchange. */
  function RequiresCommunication(s: Status): (r: bool)
    ensures r <==> s != DISCONNECTED
  {
    match s
    case CONNECTING => true
    case CONNECTED => true
    case DISCONNECTING => true
    case DISCONNECTED => false
    case REJECTED => true
  }

  /** `ClientEvent`: what a listener is told. */
  datatype Event = ConnectAccepted | ConnectRejected | Disconnected | WorldJoin

  /** The actions `messageSentActions` can hold: only the one `startDisconnect` registers. */
  datatype SentAction = MarkDisconnected

  /** A queued message and the action to run once the server acknowledges it. */
  datatype Payload = Payload(bytes: seq<byte>, onSent: Option<SentAction>)

  type SendPacket = Sequencing.SendPacket<Payload>
  type Datagram = Sequencing.Datagram<Payload>

  /** The action registered for the head of the queue, if any. */
  function HeadAction(queue: seq<SendPacket>): Option<SentAction>
  {
    if |queue| == 0 then None else queue[0].data.onSent
  }

  /** A reliable message without an action, as `sendReliable(data)` queues it. */
  function Reliable(bytes: seq<byte>): SendPacket
  {
    Sequencing.SendPacket(Payload(bytes, None), true)
  }

  /**
   * The message types, other than the connect acknowledgment, world data
   * and disconnect, that a connected client handles; their handlers change
   * the world's entities and blocks, which are not part of this model.
   */
  const ENTITY_TYPES: set<short> := {Protocol.TYPE_CONSOLE_MESSAGE, Protocol.TYPE_SERVER_ENTITY_UPDATE,
    Protocol.TYPE_SERVER_ADD_ENTITY, Protocol.TYPE_SERVER_REMOVE_ENTITY, Protocol.TYPE_SERVER_REMOVE_BLOCK}

  /**
   * `processServerConnectAcknowledgement`: the status a connect acknowledgment
   * (after its type) leads to. REJECTED is accepted as is; WORLD needs the
   * world's size, which must not be negative (`new byte[remaining]`); LOBBY
   * and unknown codes are unsupported. Missing bytes underflow the buffer.
   */
  function AckStatus(data: seq<byte>): (r: Result<Status>)
    ensures r.Ok? ==> r.value == REJECTED || r.value == CONNECTED
    ensures r == Ok(REJECTED) <==> |data| >= 1 && data[0] == Protocol.CONNECT_STATUS_REJECTED
    ensures r == Ok(CONNECTED) <==> (|data| >= 5 && data[0] == Protocol.CONNECT_STATUS_WORLD
      && Bytes.GetInteger(data, 1) >= 0)
    ensures |data| >= 1 && data[0] != Protocol.CONNECT_STATUS_REJECTED && data[0] != Protocol.CONNECT_STATUS_WORLD
      ==> r == Err(UnsupportedOperation)
    ensures |data| == 0 ==> r == Err(BufferUnderflow)
  {
    if |data| < 1 then Err(BufferUnderflow)
    else if data[0] == Protocol.CONNECT_STATUS_REJECTED then Ok(REJECTED)
    else if data[0] == Protocol.CONNECT_STATUS_WORLD then
      if |data| < 5 then Err(BufferUnderflow)
      else if Bytes.GetInteger(data, 1) < 0 then Err(NegativeArraySize)
      else Ok(CONNECTED)
    else Err(UnsupportedOperation)
  }

  /**
   * What the server's acknowledgment says is what the client reads: an
   * acknowledgment built for a world of `worldSize` bytes, a size that is
   * never negative, connects the client and announces that size.
   */
  lemma AcknowledgmentConnects(head: seq<byte>, worldSize: int32, playerID: int32)
    requires |head| == 11 && Bytes.GetShort(head, 0) == Protocol.TYPE_SERVER_CONNECT_ACKNOWLEDGMENT
    requires head[2] == Protocol.CONNECT_STATUS_WORLD && Bytes.GetInteger(head, 3) == worldSize
    requires worldSize >= 0
    ensures AckStatus(head[2..]) == Ok(CONNECTED)
    ensures Bytes.GetInteger(head[2..], 1) == worldSize
  {
    assert head[2..][1..5] == head[3..7];
  }

  class UpdateClient {
    var sendQueue: seq<SendPacket>
    var receiveReliableID: int32
    var receiveUnreliableID: int32
    var sendReliableID: int32
    var sendUnreliableID: int32
    var sendAttempts: int32
    var sendTime: long
    var status: Status
    /** Whether a `WorldState` exists: a WORLD acknowledgment has arrived. */
    var hasWorldState: bool
    /** The buffer the world's bytes are copied into; null once the world is built. */
    var worldData: array?<byte>
    var worldBytesRemaining: int32
    /** The bytes the world was deserialized from, once it is built. */
    var worldBytes: Option<seq<byte>>
    /** The world data received so far, chunk after chunk. */
    ghost var received: seq<byte>
    /** The messages handed to `onReceive`, in order. */
    ghost var delivered: seq<seq<byte>>
    /** Every datagram written to the channel. */
    var sent: seq<Datagram>
    var events: seq<Event>

    /**
     * The download in progress: the buffer holds, from its start, exactly
     * the chunks received, and `worldBytesRemaining` counts the bytes still
     * missing. A built world was built from all of them. The current reliable
     * message has been sent at most `RESEND_COUNT` times.
     */
    ghost predicate Valid()
      reads this, worldData
    {
      0 <= sendAttempts <= Protocol.RESEND_COUNT
      && (worldData != null ==> (hasWorldState && 0 <= worldBytesRemaining <= worldData.Length
        && worldData[..worldData.Length - worldBytesRemaining] == received))
      && (worldBytes.Some? ==> hasWorldState && worldData == null && worldBytes.value == received)
    }

    /** The message-ID counters and the reliable send state. */
    function Link(): (int32, int32, int32, int32, int32, long)
      reads this
    {
      (receiveReliableID, receiveUnreliableID, sendReliableID, sendUnreliableID, sendAttempts, sendTime)
    }

    /** The download state. */
    function Download(): (bool, array?<byte>, int32, Option<seq<byte>>)
      reads this
    {
      (hasWorldState, worldData, worldBytesRemaining, worldBytes)
    }

    /** `new UpdateClient(...)`: connecting, every counter zero, with the connect request queued. */
    constructor()
      ensures Valid() && status == CONNECTING
      ensures sendQueue == [Reliable(Bytes.ShortBytes(Protocol.TYPE_CLIENT_CONNECT_REQUEST))]
      ensures Link() == (0, 0, 0, 0, 0, 0)
      ensures !hasWorldState && worldData == null && worldBytes.None?
      ensures sent == [] && events == [] && delivered == [] && received == []
    {
      status := CONNECTING;
      sendQueue := [Reliable(Bytes.ShortBytes(Protocol.TYPE_CLIENT_CONNECT_REQUEST))];
      receiveReliableID, receiveUnreliableID, sendReliableID, sendUnreliableID := 0, 0, 0, 0;
      sendAttempts, sendTime := 0, 0;
      hasWorldState, worldData, worldBytesRemaining, worldBytes := false, null, 0, None;
      received, delivered := [], [];
      sent, events := [], [];
    }

    /**
     * `startDisconnect`: disconnecting, with a reliable disconnect message
     * queued whose acknowledgment will make the client disconnected.
     */
    method StartDisconnect()
      modifies this
      ensures status == DISCONNECTING
      ensures sendQueue == old(sendQueue)
        + [Sequencing.SendPacket(Payload(Bytes.ShortBytes(Protocol.TYPE_CLIENT_DISCONNECT), Some(MarkDisconnected)), true)]
      ensures Link() == old(Link()) && Download() == old(Download()) && received == old(received)
      ensures sent == old(sent) && events == old(events) && delivered == old(delivered)
    {
      status := DISCONNECTING;
      sendQueue := sendQueue
        + [Sequencing.SendPacket(Payload(Bytes.ShortBytes(Protocol.TYPE_CLIENT_DISCONNECT), Some(MarkDisconnected)), true)];
    }

    /**
     * The RESPONSE branch of `processReceived` for the reliable message being
     * sent: the next one becomes current, the head leaves the queue, and the
     * action registered for it runs.
     */
    method Acknowledge()
      modifies this
      ensures sendAttempts == 0 && sendReliableID == ToInt32(old(sendReliableID) as int + 1)
      ensures sendQueue == Sequencing.Poll(old(sendQueue))
      ensures HeadAction(old(sendQueue)) == Some(MarkDisconnected) ==> (status == DISCONNECTED
        && events == old(events) + [Disconnected])
      ensures HeadAction(old(sendQueue)).None? ==> status == old(status) && events == old(events)
      ensures receiveReliableID == old(receiveReliableID) && receiveUnreliableID == old(receiveUnreliableID)
      ensures sendUnreliableID == old(sendUnreliableID) && sendTime == old(sendTime)
      ensures Download() == old(Download()) && received == old(received)
      ensures sent == old(sent) && delivered == old(delivered)
    {
      var action := HeadAction(sendQueue);
      sendAttempts := 0;
      sendReliableID := ToInt32(sendReliableID as int + 1);
      sendQueue := Sequencing.Poll(sendQueue);
      if action == Some(MarkDisconnected) {
        status := DISCONNECTED;
        events := events + [Disconnected];
      }
    }

    /**
     * `processReceived`: a datagram shorter than the header is ignored.
     * A RESPONSE for the current reliable message acknowledges it. A
     * RELIABLE message is acknowledged unless it came too early, and only
     * the expected one is handed to `onReceive`; an UNRELIABLE message is
     * handed on unless it is older than the last one.
     */
    method ProcessReceived(packet: seq<byte>) returns (r: Result<()>)
      requires Valid()
      modifies this, worldData
      ensures Valid()
      ensures Owned()
      ensures |packet| < Protocol.HEADER_SIZE ==> (r == Ok(()) && Link() == old(Link()) && sent == old(sent)
        && delivered == old(delivered) && status == old(status) && sendQueue == old(sendQueue))
      ensures |packet| >= Protocol.HEADER_SIZE ==> (receiveReliableID == if packet[0] == Protocol.RELIABLE_TYPE
        then Sequencing.ReliableNext(old(receiveReliableID), Bytes.GetInteger(packet, 1)) else old(receiveReliableID))
      ensures |packet| >= Protocol.HEADER_SIZE ==> (receiveUnreliableID == if packet[0] == Protocol.UNRELIABLE_TYPE
        then Sequencing.UnreliableNext(old(receiveUnreliableID), Bytes.GetInteger(packet, 1)) else old(receiveUnreliableID))
      ensures |packet| >= Protocol.HEADER_SIZE ==> (sent == old(sent) + if packet[0] == Protocol.RELIABLE_TYPE
        && Bytes.GetInteger(packet, 1) <= old(receiveReliableID) then [Sequencing.Response(Bytes.GetInteger(packet, 1))] else [])
      ensures |packet| >= Protocol.HEADER_SIZE ==> (delivered == old(delivered) + if Processed(packet[0],
        Bytes.GetInteger(packet, 1), old(receiveReliableID), old(receiveUnreliableID)) then [packet[Protocol.HEADER_SIZE..]] else [])
      ensures (|packet| >= Protocol.HEADER_SIZE && packet[0] == Protocol.RESPONSE_TYPE
        && Bytes.GetInteger(packet, 1) == old(sendReliableID)) ==> (r == Ok(())
        && sendAttempts == 0 && sendReliableID == ToInt32(old(sendReliableID) as int + 1)
        && sendQueue == Sequencing.Poll(old(sendQueue))
        && (HeadAction(old(sendQueue)) == Some(MarkDisconnected) ==> status == DISCONNECTED))
      ensures (|packet| >= Protocol.HEADER_SIZE && !(packet[0] == Protocol.RESPONSE_TYPE
        && Bytes.GetInteger(packet, 1) == old(sendReliableID)) && !Processed(packet[0],
        Bytes.GetInteger(packet, 1), old(receiveReliableID), old(receiveUnreliableID))) ==> (r == Ok(())
        && status == old(status) && sendQueue == old(sendQueue) && sendReliableID == old(sendReliableID)
        && sendAttempts == old(sendAttempts) && Download() == old(Download()))
      ensures Counts() == ReceiveOne(old(Counts()), packet).counters
      ensures sent == old(sent) + ReceiveOne(old(Counts()), packet).acks
      ensures delivered == old(delivered) + ReceiveOne(old(Counts()), packet).messages
      ensures r.Err? ==> |packet| >= Protocol.HEADER_SIZE && ReceiveOne(old(Counts()), packet).messages == [packet[Protocol.HEADER_SIZE..]]
    {
      if |packet| < Protocol.HEADER_SIZE {
        return Ok(());
      }
      var kind := packet[0];
      var messageID := Bytes.GetInteger(packet, 1);
      r := Ok(());
      if kind == Protocol.RESPONSE_TYPE {
        if sendReliableID == messageID {
          Acknowledge();
        }
      } else if kind == Protocol.RELIABLE_TYPE {
        var delivery := Sequencing.ReliableDelivery(receiveReliableID, messageID);
        if delivery != Sequencing.Drop {
          sent := sent + [Sequencing.Response(messageID)];
        }
        receiveReliableID := Sequencing.ReliableNext(receiveReliableID, messageID);
        if delivery == Sequencing.Process {
          r := Process(packet[Protocol.HEADER_SIZE..]);
        }
      } else if kind == Protocol.UNRELIABLE_TYPE {
        if Sequencing.UnreliableAccepted(receiveUnreliableID, messageID) {
          receiveUnreliableID := Sequencing.UnreliableNext(receiveUnreliableID, messageID);
          r := Process(packet[Protocol.HEADER_SIZE..]);
        }
      }
    }

    /** `process`: the message after the header goes to `onReceive`. */
    method Process(message: seq<byte>) returns (r: Result<()>)
      requires Valid()
      modifies this, worldData
      ensures Valid()
      ensures Owned()
      ensures delivered == old(delivered) + [message]
      ensures Link() == old(Link()) && sent == old(sent)
    {
      delivered := delivered + [message];
      r := OnReceive(message);
    }

    /**
     * `onReceive`: the message type decides. A connect acknowledgment is
     * always handled; any other message while still connecting is an
     * `IllegalStateException`; a type the client does not know is an
     * `IllegalArgumentException`. A message shorter than its type
     * underflows the buffer.
     */
    method OnReceive(message: seq<byte>) returns (r: Result<()>)
      requires Valid()
      modifies this, worldData
      ensures Valid()
      ensures Owned()
      ensures Link() == old(Link()) && sent == old(sent) && delivered == old(delivered)
      ensures |message| < 2 ==> r == Err(BufferUnderflow) && Unchanged()
      ensures (|message| >= 2 && Bytes.GetShort(message, 0) != Protocol.TYPE_SERVER_CONNECT_ACKNOWLEDGMENT
        && old(status) == CONNECTING) ==> r == Err(IllegalState) && Unchanged()
      ensures |message| >= 2 && old(status) != CONNECTING && Bytes.GetShort(message, 0) !in KnownTypes()
        ==> r == Err(IllegalArgument) && Unchanged()
      ensures |message| >= 2 && old(status) != CONNECTING && Bytes.GetShort(message, 0) in ENTITY_TYPES
        ==> r == Ok(()) && Unchanged()
      ensures |message| >= 2 && Bytes.GetShort(message, 0) == Protocol.TYPE_SERVER_CONNECT_ACKNOWLEDGMENT
        ==> ((r.Ok? <==> AckStatus(message[2..]).Ok?)
          && status == (if AckStatus(message[2..]).Ok? then AckStatus(message[2..]).value else old(status)))
      ensures |message| >= 2 && old(status) != CONNECTING && Bytes.GetShort(message, 0) == Protocol.TYPE_SERVER_WORLD_DATA
        ==> (status == old(status) && (r.Ok? ==> received == old(received) + message[2..]))
      ensures |message| >= 2 && old(status) != CONNECTING && Bytes.GetShort(message, 0) == Protocol.TYPE_SERVER_CLIENT_DISCONNECT
        ==> status == DISCONNECTED
    {
      if |message| < 2 {
        return Err(BufferUnderflow);
      }
      var messageType := Bytes.GetShort(message, 0);
      var data := message[2..];
      if messageType == Protocol.TYPE_SERVER_CONNECT_ACKNOWLEDGMENT {
        r := ProcessServerConnectAcknowledgement(data);
      } else if status != CONNECTING {
        if messageType == Protocol.TYPE_SERVER_WORLD_DATA {
          r := ProcessReceiveWorldData(data);
        } else if messageType == Protocol.TYPE_SERVER_CLIENT_DISCONNECT {
          r := ProcessServerDisconnect(data);
        } else if messageType in ENTITY_TYPES {
          r := Ok(());
        } else {
          r := Err(IllegalArgument);
        }
      } else {
        r := Err(IllegalState);
      }
    }

    /** Every message type `onReceive` handles once connected. */
    function KnownTypes(): (r: set<short>)
    {
      ENTITY_TYPES + {Protocol.TYPE_SERVER_CONNECT_ACKNOWLEDGMENT, Protocol.TYPE_SERVER_WORLD_DATA,
        Protocol.TYPE_SERVER_CLIENT_DISCONNECT}
    }

    /** The world buffer is the one before, a new one, or released. */
    twostate predicate Owned()
      reads this
    {
      worldData == null || worldData == old(worldData) || fresh(worldData)
    }

    /** Nothing but the message counters' bookkeeping changed. */
    twostate predicate Unchanged()
      reads this, worldData
    {
      status == old(status) && sendQueue == old(sendQueue) && events == old(events)
      && Download() == old(Download()) && received == old(received)
      && (worldData != null ==> worldData[..] == old(worldData[..]))
    }

    /**
     * `processServerConnectAcknowledgement`: REJECTED makes the client
     * rejected; WORLD starts a download of the announced size into a new
     * buffer and makes the client connected; anything else throws and
     * changes nothing.
     */
    method ProcessServerConnectAcknowledgement(data: seq<byte>) returns (r: Result<()>)
      requires Valid()
      modifies this
      ensures Valid()
      ensures r.Ok? <==> AckStatus(data).Ok?
      ensures r.Err? ==> (r.error == AckStatus(data).error && status == old(status)
        && Download() == old(Download()) && events == old(events))
      ensures AckStatus(data) == Ok(REJECTED) ==> (status == REJECTED && events == old(events) + [ConnectRejected]
        && Download() == old(Download()))
      ensures AckStatus(data) == Ok(CONNECTED) ==> (status == CONNECTED && events == old(events) + [ConnectAccepted]
        && hasWorldState && worldData != null && fresh(worldData) && worldData.Length == Bytes.GetInteger(data, 1)
        && worldBytesRemaining == worldData.Length && worldBytes.None? && received == [])
      ensures Link() == old(Link()) && sendQueue == old(sendQueue) && sent == old(sent) && delivered == old(delivered)
    {
      var next := AckStatus(data);
      if next.Err? {
        return Err(next.error);
      }
      if next.value == REJECTED {
        status := REJECTED;
        events := events + [ConnectRejected];
      } else {
        StartDownload(Bytes.GetInteger(data, 1));
        status := CONNECTED;
        events := events + [ConnectAccepted];
      }
      return Ok(());
    }

    /** The WORLD branch's new `WorldState`: an empty buffer of the announced size, all of it remaining. */
    method StartDownload(remaining: int32)
      requires Valid() && remaining >= 0
      modifies this
      ensures Valid()
      ensures hasWorldState && worldData != null && fresh(worldData) && worldData.Length == remaining
      ensures worldBytesRemaining == remaining && worldBytes.None? && received == []
      ensures Link() == old(Link()) && status == old(status) && events == old(events)
      ensures sendQueue == old(sendQueue) && sent == old(sent) && delivered == old(delivered)
    {
      worldBytesRemaining := remaining;
      worldData := new byte[remaining];
      hasWorldState := true;
      worldBytes := None;
      received := [];
    }

    /**
     * `processReceiveWorldData`: the chunk is copied where the data received
     * so far ends, that is at `length - remaining`, and `remaining` drops by
     * its size; once nothing remains the world is built from the buffer and
     * the client reports it built. Without a world state there is nothing to
     * fill (`NullPointerException`); after the build the buffer is gone
     * (`IllegalStateException`); a chunk larger than what remains does not
     * fit (`IndexOutOfBoundsException`).
     */
    method ProcessReceiveWorldData(chunk: seq<byte>) returns (r: Result<()>)
      requires Valid()
      modifies this, worldData
      ensures Valid()
      ensures !old(hasWorldState) ==> r == Err(NullPointer)
      ensures old(hasWorldState) && old(worldData) == null ==> r == Err(IllegalState)
      ensures old(worldData) != null && |chunk| > old(worldBytesRemaining) ==> r == Err(IndexOutOfBounds)
      ensures r.Err? ==> (Download() == old(Download()) && received == old(received) && sendQueue == old(sendQueue)
        && (old(worldData) != null ==> old(worldData)[..] == old(worldData[..])))
      ensures r.Ok? ==> (old(worldData) != null && |chunk| <= old(worldBytesRemaining)
        && received == old(received) + chunk && worldBytesRemaining == old(worldBytesRemaining) - |chunk|)
      ensures r.Ok? && worldBytesRemaining == 0 ==> (worldData == null && worldBytes == Some(received)
        && |received| == old(worldData).Length
        && sendQueue == old(sendQueue) + [Reliable(Bytes.ShortBytes(Protocol.TYPE_CLIENT_WORLD_BUILT))])
      ensures r.Ok? && worldBytesRemaining != 0 ==> (worldData == old(worldData) && worldBytes == old(worldBytes)
        && sendQueue == old(sendQueue))
      ensures hasWorldState == old(hasWorldState)
      ensures Link() == old(Link()) && status == old(status) && events == old(events)
      ensures sent == old(sent) && delivered == old(delivered)
    {
      if !hasWorldState {
        return Err(NullPointer);
      }
      if worldData == null {
        return Err(IllegalState);
      }
      var offset := worldData.Length - worldBytesRemaining;
      ghost var before := worldData[..];
      var copied := Bytes.Copy(chunk, worldData, offset);
      if copied.Err? {
        return Err(copied.error);
      }
      assert worldData[..offset + |chunk|] == before[..offset] + chunk;
      received := received + chunk;
      worldBytesRemaining := worldBytesRemaining - |chunk| as int32;
      if worldBytesRemaining == 0 {
        BuildWorld();
      }
      return Ok(());
    }

    /** `buildWorld`: the world is deserialized from the whole buffer, the buffer is released, and the server is told. */
    method BuildWorld()
      requires Valid() && worldData != null && worldBytesRemaining == 0
      modifies this
      ensures Valid()
      ensures worldData == null && worldBytes == Some(old(received)) && |old(received)| == old(worldData).Length
      ensures sendQueue == old(sendQueue) + [Reliable(Bytes.ShortBytes(Protocol.TYPE_CLIENT_WORLD_BUILT))]
      ensures hasWorldState == old(hasWorldState) && worldBytesRemaining == 0 && received == old(received)
      ensures Link() == old(Link()) && status == old(status) && events == old(events)
      ensures sent == old(sent) && delivered == old(delivered)
    {
      assert worldData[..] == worldData[..worldData.Length - worldBytesRemaining];
      worldBytes := Some(worldData[..]);
      worldData := null;
      sendQueue := sendQueue + [Reliable(Bytes.ShortBytes(Protocol.TYPE_CLIENT_WORLD_BUILT))];
    }

    /**
     * `processServerDisconnect`: the client is disconnected at once; the
     * reason's length and bytes are then read, and the listener is told
     * only if they are there.
     */
    method ProcessServerDisconnect(data: seq<byte>) returns (r: Result<()>)
      modifies this
      ensures status == DISCONNECTED
      ensures |data| < 4 ==> r == Err(BufferUnderflow)
      ensures |data| >= 4 && Bytes.GetInteger(data, 0) < 0 ==> r == Err(NegativeArraySize)
      ensures |data| >= 4 && Bytes.GetInteger(data, 0) > |data| - 4 ==> r == Err(BufferUnderflow)
      ensures r.Ok? <==> |data| >= 4 && 0 <= Bytes.GetInteger(data, 0) <= |data| - 4
      ensures events == old(events) + if r.Ok? then [Disconnected] else []
      ensures Link() == old(Link()) && sendQueue == old(sendQueue) && Download() == old(Download())
      ensures received == old(received) && sent == old(sent) && delivered == old(delivered)
    {
      status := DISCONNECTED;
      if |data| < 4 {
        return Err(BufferUnderflow);
      }
      var length := Bytes.GetInteger(data, 0);
      if length < 0 {
        return Err(NegativeArraySize);
      }
      if length > |data| - 4 {
        return Err(BufferUnderflow);
      }
      events := events + [Disconnected];
      return Ok(());
    }

    /** The counters `ReceiveOne` follows. */
    function Counts(): Counters
      reads this
    {
      Counters(receiveReliableID, receiveUnreliableID, sendReliableID)
    }

    /**
     * `update`'s receive loop, with the datagrams that arrive passed in:
     * each is processed in turn, and an exception from processing one ends
     * the loop. The counters, the acknowledgments written and the messages
     * handed on are those of `ReceiveAll` over the datagrams processed,
     * the failing one included; the loop stops early exactly when handing
     * a message on fails.
     */
    method Receive(packets: seq<seq<byte>>) returns (r: Result<()>, count: nat)
      requires Valid()
      modifies this, worldData
      ensures Valid()
      ensures count <= |packets| && (r.Err? ==> count < |packets|) && (r.Ok? ==> count == |packets|)
      ensures r.Ok? ==> (Counts() == ReceiveAll(old(Counts()), packets).counters
        && sent == old(sent) + ReceiveAll(old(Counts()), packets).acks
        && delivered == old(delivered) + ReceiveAll(old(Counts()), packets).messages)
      ensures r.Err? ==> (Counts() == ReceiveAll(old(Counts()), packets[..count + 1]).counters
        && sent == old(sent) + ReceiveAll(old(Counts()), packets[..count + 1]).acks
        && delivered == old(delivered) + ReceiveAll(old(Counts()), packets[..count + 1]).messages)
      ensures r.Err? ==> (|packets[count]| >= Protocol.HEADER_SIZE && ReceiveAll(old(Counts()), packets[..count + 1]).messages
        == ReceiveAll(old(Counts()), packets[..count]).messages + [packets[count][Protocol.HEADER_SIZE..]])
    {
      ghost var start := Counts();
      r, count := Ok(()), 0;
      while count < |packets|
        invariant Valid() && count <= |packets| && r.Ok?
        invariant worldData == null || worldData == old(worldData) || fresh(worldData)
        invariant Counts() == ReceiveAll(start, packets[..count]).counters
        invariant sent == old(sent) + ReceiveAll(start, packets[..count]).acks
        invariant delivered == old(delivered) + ReceiveAll(start, packets[..count]).messages
      {
        ghost var front := ReceiveAll(start, packets[..count]);
        ghost var one := ReceiveOne(front.counters, packets[count]);
        ReceiveAllNext(start, packets, count);
        Join(old(sent), front.acks, one.acks);
        Join(old(delivered), front.messages, one.messages);
        r := ProcessReceived(packets[count]);
        assert Counts() == one.counters;
        assert sent == old(sent) + (front.acks + one.acks);
        assert delivered == old(delivered) + (front.messages + one.messages);
        if r.Err? {
          return;
        }
        count := count + 1;
      }
      assert packets[..count] == packets;
    }

    /**
     * `update`'s send loop, with `elapsed` standing for the resend-interval
     * check: the unreliable messages at the head of the queue are sent with
     * consecutive IDs and leave the queue; a reliable head blocks the rest.
     * It is sent on the first attempt; once the interval has elapsed it is
     * resent, unless `RESEND_COUNT` attempts were made already, which is a
     * `TimeoutException`.
     */
    method Send(now: long, elapsed: bool) returns (r: Result<()>)
      requires Valid()
      modifies this
      ensures Valid()
      ensures sendQueue == old(sendQueue)[Sequencing.UnreliableHead(old(sendQueue))..]
      ensures sendUnreliableID == ToInt32(old(sendUnreliableID) as int + Sequencing.UnreliableHead(old(sendQueue)))
      ensures |old(sent)| + Sequencing.UnreliableHead(old(sendQueue)) <= |sent|
        <= |old(sent)| + Sequencing.UnreliableHead(old(sendQueue)) + 1
      ensures sent[..|old(sent)| + Sequencing.UnreliableHead(old(sendQueue))] == old(sent)
        + Sequencing.UnreliableSends(old(sendUnreliableID), old(sendQueue)[..Sequencing.UnreliableHead(old(sendQueue))])
      ensures |sent| > |old(sent)| + Sequencing.UnreliableHead(old(sendQueue)) ==> (
        Sequencing.UnreliableHead(old(sendQueue)) < |old(sendQueue)| && sent[|sent| - 1]
          == Sequencing.Reliable(sendReliableID, old(sendQueue)[Sequencing.UnreliableHead(old(sendQueue))].data))
      ensures r.Err? <==> (Sequencing.UnreliableHead(old(sendQueue)) < |old(sendQueue)| && old(sendAttempts) != 0
        && elapsed && old(sendAttempts) >= Protocol.RESEND_COUNT)
      ensures r.Err? ==> r.error == Timeout
      ensures Sequencing.UnreliableHead(old(sendQueue)) < |old(sendQueue)| && old(sendAttempts) == 0
        ==> sendAttempts == 1 && sendTime == now && |sent| > |old(sent)| + Sequencing.UnreliableHead(old(sendQueue))
      ensures sendAttempts as int
        == old(sendAttempts) as int + |sent| - |old(sent)| - Sequencing.UnreliableHead(old(sendQueue))
      ensures sendReliableID == old(sendReliableID) && receiveReliableID == old(receiveReliableID)
      ensures receiveUnreliableID == old(receiveUnreliableID)
      ensures status == old(status) && Download() == old(Download()) && received == old(received)
      ensures events == old(events) && delivered == old(delivered)
    {
      ghost var k := Sequencing.UnreliableHead(sendQueue);
      var before := sent;
      var drained, out := Sequencing.SendUnreliableHead(sendQueue, sendUnreliableID);
      sendQueue := drained.0;
      sendUnreliableID := drained.1;
      sent := sent + out;
      assert sent[..|before| + k] == sent;
      r := Ok(());
      if |sendQueue| > 0 {
        r := SendReliableHead(now, elapsed);
      }
    }

    /**
     * The reliable branch of `update`'s send loop: the head is sent with the
     * current reliable ID on the first attempt, which starts the clock, and
     * again once the interval has elapsed, until `RESEND_COUNT` sends have
     * gone unanswered, which is a `TimeoutException`.
     */
    method SendReliableHead(now: long, elapsed: bool) returns (r: Result<()>)
      requires Valid() && |sendQueue| > 0
      modifies this
      ensures Valid()
      ensures r.Err? <==> old(sendAttempts) != 0 && elapsed && old(sendAttempts) == Protocol.RESEND_COUNT
      ensures r.Err? ==> r.error == Timeout
      ensures old(sendAttempts) == 0 ==> sendAttempts == 1 && sendTime == now
      ensures old(sendAttempts) != 0 ==> sendTime == old(sendTime)
      ensures sent == old(sent) + if sendAttempts > old(sendAttempts)
        then [Sequencing.Reliable(old(sendReliableID), old(sendQueue)[0].data)] else []
      ensures sendAttempts == old(sendAttempts) + |sent| - |old(sent)|
      ensures sendAttempts > old(sendAttempts) <==> old(sendAttempts) == 0 || (elapsed && old(sendAttempts) < Protocol.RESEND_COUNT)
      ensures sendQueue == old(sendQueue) && sendReliableID == old(sendReliableID)
      ensures sendUnreliableID == old(sendUnreliableID) && receiveReliableID == old(receiveReliableID)
      ensures receiveUnreliableID == old(receiveUnreliableID)
      ensures status == old(status) && Download() == old(Download()) && received == old(received)
      ensures events == old(events) && delivered == old(delivered)
    {
      r := Ok(());
      var packet := sendQueue[0];
      if sendAttempts == 0 {
        sent := sent + [Sequencing.Reliable(sendReliableID, packet.data)];
        sendTime := now;
        sendAttempts := sendAttempts + 1;
      } else if elapsed {
        if sendAttempts < Protocol.RESEND_COUNT {
          sent := sent + [Sequencing.Reliable(sendReliableID, packet.data)];
          sendAttempts := sendAttempts + 1;
        } else {
          r := Err(Timeout);
        }
      }
    }
  }

  /** Whether a datagram's message reaches `onReceive`, given the receive counters. */
  predicate Processed(kind: byte, id: int32, expectedReliable: int32, expectedUnreliable: int32)
  {
    (kind == Protocol.RELIABLE_TYPE && id == expectedReliable)
    || (kind == Protocol.UNRELIABLE_TYPE && Sequencing.UnreliableAccepted(expectedUnreliable, id))
  }

  /** The counters `processReceived` moves: the next reliable and unreliable IDs to receive, and the reliable ID being sent. */
  datatype Counters = Counters(receiveReliableID: int32, receiveUnreliableID: int32, sendReliableID: int32)

  /** What datagrams leave behind: the counters, the acknowledgments written and the messages handed to `onReceive`. */
  datatype Receipt = Receipt(counters: Counters, acks: seq<Datagram>, messages: seq<seq<byte>>)

  /**
   * The reliable-UDP part of `processReceived` on one datagram: a short one
   * is ignored; a RESPONSE for the reliable ID being sent moves that ID on;
   * a RELIABLE one is acknowledged unless it came too early and moves the
   * reliable counter when it is the expected one; an UNRELIABLE one moves
   * the unreliable counter when it is not older than the last. A RELIABLE
   * message is handed on when it is the expected one, an UNRELIABLE one
   * when it is accepted.
   */
  function ReceiveOne(c: Counters, packet: seq<byte>): (r: Receipt)
    ensures |r.acks| <= 1 && |r.messages| <= 1
    ensures forall k | 0 <= k < |r.acks| :: r.acks[k].Response?
    ensures |packet| < Protocol.HEADER_SIZE ==> r == Receipt(c, [], [])
  {
    if |packet| < Protocol.HEADER_SIZE then Receipt(c, [], [])
    else
      var kind := packet[0];
      var id := Bytes.GetInteger(packet, 1);
      Receipt(
        Counters(
          if kind == Protocol.RELIABLE_TYPE then Sequencing.ReliableNext(c.receiveReliableID, id) else c.receiveReliableID,
          if kind == Protocol.UNRELIABLE_TYPE then Sequencing.UnreliableNext(c.receiveUnreliableID, id) else c.receiveUnreliableID,
          if kind == Protocol.RESPONSE_TYPE && id == c.sendReliableID then ToInt32(c.sendReliableID as int + 1) else c.sendReliableID),
        if kind == Protocol.RELIABLE_TYPE && id <= c.receiveReliableID then [Sequencing.Response(id)] else [],
        if Processed(kind, id, c.receiveReliableID, c.receiveUnreliableID) then [packet[Protocol.HEADER_SIZE..]] else [])
  }

  /** `ReceiveOne` applied to the datagrams in turn, the acknowledgments and messages collected in order. */
  function ReceiveAll(c: Counters, packets: seq<seq<byte>>): (r: Receipt)
    ensures |r.acks| <= |packets| && |r.messages| <= |packets|
    ensures forall k | 0 <= k < |r.acks| :: r.acks[k].Response?
  {
    if |packets| == 0 then Receipt(c, [], [])
    else
      var front := ReceiveAll(c, packets[..|packets| - 1]);
      var last := ReceiveOne(front.counters, packets[|packets| - 1]);
      Receipt(last.counters, front.acks + last.acks, front.messages + last.messages)
  }

  /** One more datagram: `ReceiveAll` over a longer prefix is one more `ReceiveOne`. */
  lemma ReceiveAllNext(c: Counters, packets: seq<seq<byte>>, n: nat)
    requires n < |packets|
    ensures ReceiveAll(c, packets[..n + 1]) == Receipt(ReceiveOne(ReceiveAll(c, packets[..n]).counters, packets[n]).counters,
      ReceiveAll(c, packets[..n]).acks + ReceiveOne(ReceiveAll(c, packets[..n]).counters, packets[n]).acks,
      ReceiveAll(c, packets[..n]).messages + ReceiveOne(ReceiveAll(c, packets[..n]).counters, packets[n]).messages)
  {
    assert packets[..n + 1][..n] == packets[..n];
  }

  /** Appending in two steps is appending the two parts at once. */
  lemma Join<T>(a: seq<T>, b: seq<T>, c: seq<T>)
    ensures a + b + c == a + (b + c)
  {
  }

  /** The IDs of the RELIABLE datagrams among `packets`, in order. */
  function ReliableIds(packets: seq<seq<byte>>): (r: seq<int32>)
    ensures |r| <= |packets|
  {
    if |packets| == 0 then []
    else
      var p := packets[|packets| - 1];
      ReliableIds(packets[..|packets| - 1])
        + if |p| >= Protocol.HEADER_SIZE && p[0] == Protocol.RELIABLE_TYPE then [Bytes.GetInteger(p, 1)] else []
  }

  /**
   * The client's reliable receive counter follows the reliable-UDP rule on
   * the RELIABLE datagrams alone, so `Sequencing.ReliableInOrder` applies:
   * the reliable messages it processes are consecutive IDs, each once.
   */
  lemma {:induction false} ReceiveReliable(c: Counters, packets: seq<seq<byte>>)
    ensures ReceiveAll(c, packets).counters.receiveReliableID
      == Sequencing.ReliableRun(c.receiveReliableID, ReliableIds(packets)).1
  {
    if |packets| > 0 {
      var front := packets[..|packets| - 1];
      var p := packets[|packets| - 1];
      ReceiveReliable(c, front);
      var ids := ReliableIds(front);
      if |p| >= Protocol.HEADER_SIZE && p[0] == Protocol.RELIABLE_TYPE {
        Sequencing.ReliableRunSnoc(c.receiveReliableID, ids, Bytes.GetInteger(p, 1));
      } else {
        assert ReliableIds(packets) == ids;
      }
    }
  }
}
