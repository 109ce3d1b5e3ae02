/**
 * The game server's network side (`server.network.Server`): one `ClientState`
 * per remote address, kept in a map; `processPacket` applies the reliable-UDP
 * rules to each arriving datagram, `handleClientStatuses` advances or drops
 * clients, and `sendQueued` drains a client's send queue.
 *
 * The socket is not modelled: what the server sends is appended to `sent`
 * (address and datagram), and the clock reading is a parameter `now`. The
 * handlers of individual messages (connect request, block break and place,
 * bomb throw, player state) are recorded in `handled` rather than run.
 */
module Server {
  import opened Java
  import Bytes
  import Protocol
  import World
  import Sequencing
  import UtilityWorld

  type Address = int

  /** `ClientState.STATUS_*`. */
  datatype Status = CONNECTED | TIMED_OUT | KICKED | SELF_DISCONNECTED | REJECTED | IN_GAME | INVALID

  /**
   * What the server queues for a client. The console notice of a disconnect
   * is formatted text for the log, and the entity-removal message's type is
   * not among the protocol constants, so both are kept symbolic.
   */
  datatype Message = ConsoleNotice(about: Address) | RemoveEntityNotice(id: int32) | Raw(data: seq<byte>)

  type SendPacket = Sequencing.SendPacket<Message>
  type Datagram = Sequencing.Datagram<Message>

  /** The message handlers `onReceive` dispatches to. */
  datatype Handler = ConnectRequest | BreakBlock | PlaceBlock | BombThrow | PlayerState

  /** A client's connection state; the round-trip `ping` and the disconnect reason text are left out. */
  datatype ClientState = ClientState(
    address: Address,
    receiveReliableID: int32, receiveUnreliableID: int32,
    sendUnreliableID: int32, sendReliableID: int32,
    sendAttempts: int32, sendStartTime: long, lastMessageReceiveTime: long,
    sendQueue: seq<SendPacket>, status: Status, player: Option<World.Entity>)

  /** `new ClientState(address)`: connected, every counter zero, nothing queued, no player. */
  function NewClient(address: Address): ClientState
  {
    ClientState(address, 0, 0, 0, 0, 0, 0, 0, [], CONNECTED, None)
  }

  /** `isNotDisconnectState`: every status but timed out, kicked, self-disconnected and rejected. */
  predicate IsNotDisconnectState(c: ClientState)
  {
    !(c.status == TIMED_OUT || c.status == KICKED || c.status == SELF_DISCONNECTED || c.status == REJECTED)
  }

  /** `checkReceiveTimeout`: a client silent for more than `TIMEOUT_DISCONNECT` has timed out. */
  function CheckReceiveTimeout(c: ClientState, now: long): (r: ClientState)
    ensures r == c.(status := r.status)
    ensures ToLong(now - c.lastMessageReceiveTime) > Protocol.TIMEOUT_DISCONNECT ==> r.status == TIMED_OUT
    ensures ToLong(now - c.lastMessageReceiveTime) <= Protocol.TIMEOUT_DISCONNECT ==> r == c
  {
    if ToLong(now - c.lastMessageReceiveTime) > Protocol.TIMEOUT_DISCONNECT then c.(status := TIMED_OUT) else c
  }

  /** The message types an in-game client may send. */
  const IN_GAME_TYPES: set<short> := {Protocol.TYPE_CLIENT_DISCONNECT, Protocol.TYPE_CLIENT_BREAK_BLOCK,
    Protocol.TYPE_CLIENT_PLACE_BLOCK, Protocol.TYPE_CLIENT_BOMB_THROW, Protocol.TYPE_CLIENT_PLAYER_STATE, Protocol.TYPE_PING}

  /**
   * `onReceive(type, client, packet)`: the client's new status and the
   * handler the message goes to. A connected client may only ask to connect
   * or report its world built, anything else makes it invalid; an in-game
   * client sending an unknown type is kicked (the `ClientBadDataException`
   * is caught one level up); a client in any other status is ignored.
   */
  function Dispatch(status: Status, messageType: short): (r: (Status, Option<Handler>))
    ensures status != CONNECTED && status != IN_GAME ==> r == (status, None)
    ensures status == CONNECTED ==> (r.1 == Some(ConnectRequest) <==> messageType == Protocol.TYPE_CLIENT_CONNECT_REQUEST)
    ensures status == CONNECTED ==> (r.0 == IN_GAME <==> messageType == Protocol.TYPE_CLIENT_WORLD_BUILT)
    ensures status == CONNECTED ==> (r.0 == INVALID
      <==> messageType != Protocol.TYPE_CLIENT_CONNECT_REQUEST && messageType != Protocol.TYPE_CLIENT_WORLD_BUILT)
    ensures status == IN_GAME ==> (r.0 == KICKED <==> messageType !in IN_GAME_TYPES)
    ensures status == IN_GAME ==> (r.0 == SELF_DISCONNECTED <==> messageType == Protocol.TYPE_CLIENT_DISCONNECT)
    ensures status == IN_GAME ==> (r.1.Some?
      <==> messageType in IN_GAME_TYPES && messageType != Protocol.TYPE_CLIENT_DISCONNECT && messageType != Protocol.TYPE_PING)
    ensures r.1.Some? ==> r.0 == status
    ensures r.0 == status || r.0 == IN_GAME || r.0 == INVALID || r.0 == KICKED || r.0 == SELF_DISCONNECTED
  {
    match status
    case CONNECTED =>
      if messageType == Protocol.TYPE_CLIENT_CONNECT_REQUEST then (status, Some(ConnectRequest))
      else if messageType == Protocol.TYPE_CLIENT_WORLD_BUILT then (IN_GAME, None)
      else (INVALID, None)
    case IN_GAME =>
      if messageType == Protocol.TYPE_CLIENT_DISCONNECT then (SELF_DISCONNECTED, None)
      else if messageType == Protocol.TYPE_CLIENT_BREAK_BLOCK then (status, Some(BreakBlock))
      else if messageType == Protocol.TYPE_CLIENT_PLACE_BLOCK then (status, Some(PlaceBlock))
      else if messageType == Protocol.TYPE_CLIENT_BOMB_THROW then (status, Some(BombThrow))
      else if messageType == Protocol.TYPE_CLIENT_PLAYER_STATE then (status, Some(PlayerState))
      else if messageType == Protocol.TYPE_PING then (status, None)
      else (KICKED, None)
    case _ => (status, None)
  }

  /** What one datagram does to its sender's state, whether it is acknowledged, and which handler runs. */
  datatype Arrival = Arrival(client: ClientState, ack: bool, handler: Option<Handler>, outcome: Result<()>)

  /** Whether the message of a datagram reaches `onReceive`. */
  predicate Processed(c: ClientState, kind: byte, id: int32)
  {
    (kind == Protocol.RELIABLE_TYPE && id == c.receiveReliableID)
    || (kind == Protocol.UNRELIABLE_TYPE && Sequencing.UnreliableAccepted(c.receiveUnreliableID, id))
  }

  /**
   * `onReceive(client, packet)`: the receive time is recorded, then the
   * message type is read; a message shorter than a short makes `getShort`
   * throw a `BufferUnderflowException`, which nothing catches.
   */
  function OnReceive(c: ClientState, message: seq<byte>, now: long, ack: bool): Arrival
  {
    var received := c.(lastMessageReceiveTime := now);
    if |message| < 2 then Arrival(received, ack, None, Err(BufferUnderflow))
    else
      var d := Dispatch(c.status, Bytes.GetShort(message, 0));
      Arrival(received.(status := d.0), ack, d.1, Ok(()))
  }

  /**
   * The `switch` of `processPacket` on a datagram of kind `kind` with ID
   * `id` and message `message`. A RESPONSE for the reliable message being
   * sent completes it: the next reliable message becomes current and the
   * queue's head leaves. A RELIABLE message is acknowledged unless it came
   * too early, and only the expected one is processed; an UNRELIABLE
   * message is processed unless it is older than the last one processed.
   */
  function Arrive(c: ClientState, kind: byte, id: int32, message: seq<byte>, now: long): (o: Arrival)
    ensures o.client.address == c.address && o.client.player == c.player
    ensures o.client.sendUnreliableID == c.sendUnreliableID && o.client.sendStartTime == c.sendStartTime
    ensures kind == Protocol.RESPONSE_TYPE && id == c.sendReliableID ==> (o.client.sendAttempts == 0
      && o.client.sendReliableID == ToInt32(c.sendReliableID as int + 1) && o.client.sendQueue == Sequencing.Poll(c.sendQueue))
    ensures !(kind == Protocol.RESPONSE_TYPE && id == c.sendReliableID) ==> (o.client.sendAttempts == c.sendAttempts
      && o.client.sendReliableID == c.sendReliableID && o.client.sendQueue == c.sendQueue)
    ensures o.client.receiveReliableID == if kind == Protocol.RELIABLE_TYPE
      then Sequencing.ReliableNext(c.receiveReliableID, id) else c.receiveReliableID
    ensures o.client.receiveUnreliableID == if kind == Protocol.UNRELIABLE_TYPE
      then Sequencing.UnreliableNext(c.receiveUnreliableID, id) else c.receiveUnreliableID
    ensures o.ack <==> kind == Protocol.RELIABLE_TYPE && id <= c.receiveReliableID
    ensures !Processed(c, kind, id) ==> (o.handler.None? && o.outcome == Ok(())
      && o.client.status == c.status && o.client.lastMessageReceiveTime == c.lastMessageReceiveTime)
    ensures Processed(c, kind, id) ==> o.client.lastMessageReceiveTime == now
    ensures Processed(c, kind, id) && |message| < 2 ==> (o.handler.None? && o.outcome == Err(BufferUnderflow)
      && o.client.status == c.status)
    ensures Processed(c, kind, id) && |message| >= 2 ==> (o.outcome == Ok(())
      && (o.client.status, o.handler) == Dispatch(c.status, Bytes.GetShort(message, 0)))
  {
    if kind == Protocol.RESPONSE_TYPE then
      if id == c.sendReliableID then
        var acknowledged := c.(sendAttempts := 0, sendReliableID := ToInt32(c.sendReliableID as int + 1),
          sendQueue := Sequencing.Poll(c.sendQueue));
        Arrival(acknowledged, false, None, Ok(()))
      else Arrival(c, false, None, Ok(()))
    else if kind == Protocol.RELIABLE_TYPE then
      var counted := c.(receiveReliableID := Sequencing.ReliableNext(c.receiveReliableID, id));
      match Sequencing.ReliableDelivery(c.receiveReliableID, id)
      case Process => OnReceive(counted, message, now, true)
      case Reack => Arrival(counted, true, None, Ok(()))
      case Drop => Arrival(counted, false, None, Ok(()))
    else if kind == Protocol.UNRELIABLE_TYPE then
      if Sequencing.UnreliableAccepted(c.receiveUnreliableID, id) then
        OnReceive(c.(receiveUnreliableID := Sequencing.UnreliableNext(c.receiveUnreliableID, id)), message, now, false)
      else Arrival(c, false, None, Ok(()))
    else Arrival(c, false, None, Ok(()))
  }

  /**
   * A datagram from `sender` at least `HEADER_SIZE` long, applied to the
   * sender's state, or to a new one (`computeIfAbsent`).
   */
  function ArrivalOf(clients: map<Address, ClientState>, sender: Address, packet: seq<byte>, now: long): Arrival
    requires |packet| >= Protocol.HEADER_SIZE
  {
    Arrive(if sender in clients then clients[sender] else NewClient(sender),
      packet[0], Bytes.GetInteger(packet, 1), packet[Protocol.HEADER_SIZE..], now)
  }

  /** `broadcastAndPrint` and `broadcastRemoveEntity` address every client. */
  predicate Everyone(c: ClientState)
  {
    true
  }

  /**
   * `broadcastUnsafe(data, reliable, sendToClient)`: the packet joins the
   * queue of every client that is not disconnecting and that the predicate
   * selects; no client's status, counters or player change.
   */
  function Broadcasted(clients: map<Address, ClientState>, p: SendPacket, sendTo: ClientState -> bool)
    : (r: map<Address, ClientState>)
    ensures r.Keys == clients.Keys
    ensures forall a | a in clients :: r[a] == clients[a].(sendQueue := r[a].sendQueue)
    ensures forall a | a in clients && !IsNotDisconnectState(clients[a]) :: r[a] == clients[a]
    ensures forall a | a in clients && IsNotDisconnectState(clients[a]) && sendTo(clients[a]) ::
      r[a].sendQueue == clients[a].sendQueue + [p]
    ensures forall a | a in clients && !sendTo(clients[a]) :: r[a] == clients[a]
  {
    map a | a in clients :: if IsNotDisconnectState(clients[a]) && sendTo(clients[a])
      then clients[a].(sendQueue := clients[a].sendQueue + [p]) else clients[a]
  }

  /** What `sendQueued` sends and leaves. */
  datatype Flush = Flush(client: ClientState, datagrams: seq<Datagram>)

  /**
   * The reliable packet at the head of the queue: sent on the first
   * attempt, resent while at most `RESEND_COUNT` attempts were made and
   * `resendIntervalElapsed` (as written) holds, and after that the client
   * has timed out. The packet stays queued until it is acknowledged.
   */
  function Attempt(c: ClientState, now: long): (f: Flush)
    requires |c.sendQueue| > 0
    ensures f.client == c.(sendAttempts := f.client.sendAttempts, sendStartTime := f.client.sendStartTime,
      status := f.client.status)
    ensures |f.datagrams| <= 1
    ensures |f.datagrams| == 1 ==> f.datagrams[0] == Sequencing.Reliable(c.sendReliableID, c.sendQueue[0].data)
    ensures 0 <= c.sendAttempts <= Protocol.RESEND_COUNT ==> f.client.sendAttempts as int == c.sendAttempts as int + |f.datagrams|
    ensures 0 <= c.sendAttempts <= Protocol.RESEND_COUNT + 1 ==> 0 <= f.client.sendAttempts <= Protocol.RESEND_COUNT + 1
    ensures c.sendAttempts == 0 ==> |f.datagrams| == 1 && f.client.sendStartTime == now
    ensures c.sendAttempts != 0 ==> f.client.sendStartTime == c.sendStartTime
    ensures c.sendAttempts != 0 && c.sendAttempts <= Protocol.RESEND_COUNT ==>
      (|f.datagrams| == 1 <==> UtilityWorld.ResendIntervalElapsed(c.sendStartTime, c.sendAttempts, now))
    ensures c.sendAttempts > Protocol.RESEND_COUNT ==> f.client.status == TIMED_OUT && f.datagrams == []
    ensures f.client.status != c.status ==> f.client.status == TIMED_OUT && c.sendAttempts > Protocol.RESEND_COUNT
  {
    var head := Sequencing.Reliable(c.sendReliableID, c.sendQueue[0].data);
    if c.sendAttempts == 0 then
      Flush(c.(sendStartTime := now, sendAttempts := 1), [head])
    else if c.sendAttempts <= Protocol.RESEND_COUNT then
      if UtilityWorld.ResendIntervalElapsed(c.sendStartTime, c.sendAttempts, now) then
        Flush(c.(sendAttempts := c.sendAttempts + 1), [head])
      else Flush(c, [])
    else Flush(c.(status := TIMED_OUT), [])
  }

  /**
   * The resend check as written on the server: a reliable head first sent
   * at time 0 is not resent 200 milliseconds later, two resend intervals
   * on, although the intended check would resend it then.
   */
  lemma AttemptWaitsTooLong(c: ClientState)
    requires |c.sendQueue| > 0 && c.sendAttempts == 1 && c.sendStartTime == 0
    ensures Attempt(c, 200_000_000).datagrams == [] && Attempt(c, 200_000_000).client == c
    ensures UtilityWorld.ResendIntervalElapsedIntended(c.sendStartTime, c.sendAttempts, 200_000_000)
  {
    UtilityWorld.ResendWaitsTooLong();
  }

  /** The client once the unreliable packets at the head of its queue are sent. */
  function Drained(c: ClientState): (r: ClientState)
    ensures r.sendQueue == c.sendQueue[Sequencing.UnreliableHead(c.sendQueue)..]
    ensures r == c.(sendQueue := r.sendQueue, sendUnreliableID := r.sendUnreliableID)
    ensures r.sendUnreliableID == ToInt32(c.sendUnreliableID as int + Sequencing.UnreliableHead(c.sendQueue))
  {
    var k := Sequencing.UnreliableHead(c.sendQueue);
    c.(sendQueue := c.sendQueue[k..], sendUnreliableID := ToInt32(c.sendUnreliableID as int + k))
  }

  /**
   * `sendQueued`, with the clock reading `now`: the unreliable packets at
   * the head of the queue go out with consecutive IDs and leave the queue;
   * a reliable packet stops the draining and is attempted as `Attempt` says.
   */
  function Flushed(c: ClientState, now: long): (f: Flush)
    ensures f.client.sendQueue == c.sendQueue[Sequencing.UnreliableHead(c.sendQueue)..]
    ensures f.client.sendUnreliableID == ToInt32(c.sendUnreliableID as int + Sequencing.UnreliableHead(c.sendQueue))
    ensures Sequencing.UnreliableHead(c.sendQueue) <= |f.datagrams| <= Sequencing.UnreliableHead(c.sendQueue) + 1
    ensures f.datagrams[..Sequencing.UnreliableHead(c.sendQueue)]
      == Sequencing.UnreliableSends(c.sendUnreliableID, c.sendQueue[..Sequencing.UnreliableHead(c.sendQueue)])
    ensures |f.datagrams| > Sequencing.UnreliableHead(c.sendQueue) ==> (Sequencing.UnreliableHead(c.sendQueue) < |c.sendQueue|
      && f.datagrams[Sequencing.UnreliableHead(c.sendQueue)]
        == Sequencing.Reliable(c.sendReliableID, c.sendQueue[Sequencing.UnreliableHead(c.sendQueue)].data))
    ensures 0 <= c.sendAttempts <= Protocol.RESEND_COUNT ==> (f.client.sendAttempts as int
      == c.sendAttempts as int + |f.datagrams| - Sequencing.UnreliableHead(c.sendQueue))
    ensures 0 <= c.sendAttempts <= Protocol.RESEND_COUNT + 1 ==> 0 <= f.client.sendAttempts <= Protocol.RESEND_COUNT + 1
    ensures f.client.status != c.status ==> (f.client.status == TIMED_OUT && c.sendAttempts > Protocol.RESEND_COUNT
      && Sequencing.UnreliableHead(c.sendQueue) < |c.sendQueue|)
    ensures f.client.sendReliableID == c.sendReliableID && f.client.address == c.address && f.client.player == c.player
    ensures f.client.receiveReliableID == c.receiveReliableID && f.client.receiveUnreliableID == c.receiveUnreliableID
    ensures f.client.lastMessageReceiveTime == c.lastMessageReceiveTime
  {
    var k := Sequencing.UnreliableHead(c.sendQueue);
    var drained := Drained(c);
    var unreliable := Sequencing.UnreliableSends(c.sendUnreliableID, c.sendQueue[..k]);
    if k == |c.sendQueue| then Flush(drained, unreliable)
    else
      var attempt := Attempt(drained, now);
      assert (unreliable + attempt.datagrams)[..k] == unreliable;
      Flush(attempt.client, unreliable + attempt.datagrams)
  }

  /** Each datagram with the address it goes to. */
  function Addressed(a: Address, datagrams: seq<Datagram>): (r: seq<(Address, Datagram)>)
    ensures |r| == |datagrams|
    ensures forall k | 0 <= k < |r| :: r[k] == (a, datagrams[k])
  {
    seq(|datagrams|, k requires 0 <= k < |datagrams| => (a, datagrams[k]))
  }

  /** The clients `handleClientStatuses` drops from the map. */
  predicate Leaves(c: ClientState)
  {
    c.status == TIMED_OUT || c.status == INVALID
    || ((c.status == KICKED || c.status == SELF_DISCONNECTED || c.status == REJECTED) && |c.sendQueue| == 0)
  }

  /** The clients whose disconnect `handleClientStatuses` announces, as written: every pass until they leave. */
  predicate Announces(c: ClientState)
  {
    c.status == TIMED_OUT || c.status == KICKED || c.status == SELF_DISCONNECTED
  }

  /** As intended: a disconnect is announced once, on the pass that drops the client. */
  predicate AnnouncesIntended(c: ClientState)
  {
    Announces(c) && Leaves(c)
  }

  /** A client's status after `handleClientStatuses` looked at it, if it stays. */
  function StatusAfter(c: ClientState, now: long): Status
  {
    if c.status == CONNECTED || c.status == IN_GAME then CheckReceiveTimeout(c, now).status else c.status
  }

  /** The broadcasts of one disconnect: the console notice, and the entity removal once the player has left the world. */
  function Notices(c: ClientState, removed: bool): seq<SendPacket>
  {
    [Sequencing.SendPacket(ConsoleNotice(c.address), true)]
    + if c.player.Some? && removed then [Sequencing.SendPacket(RemoveEntityNotice(c.player.value.id), true)] else []
  }

  /** A client `handleClientStatuses` has not reached yet: other passes left what it looks at alone. */
  predicate Unvisited(c: ClientState, c0: ClientState, now: long)
  {
    c.status == c0.status && Leaves(c) == Leaves(c0) && StatusAfter(c, now) == StatusAfter(c0, now)
  }

  /** Every address in an enumeration of the map's keys is a key. */
  lemma Listed(clients: map<Address, ClientState>, order: seq<Address>, k: int)
    requires forall a :: a in clients <==> a in order
    requires 0 <= k < |order|
    ensures order[k] in clients
  {
    var a: Address := order[k];
    assert a in order;
  }

  /** A client `handleClientStatuses` has handled: dropped if it leaves, else with its status advanced. */
  predicate Visited(clients: map<Address, ClientState>, a: Address, c0: ClientState, now: long)
  {
    (a in clients <==> !Leaves(c0)) && (a in clients ==> clients[a].status == StatusAfter(c0, now))
  }

  /** A pass on another client changes at most the queue of one that is not disconnecting. */
  lemma Untouched(c: ClientState, c1: ClientState, now: long)
    requires c1 == c.(sendQueue := c1.sendQueue)
    requires !IsNotDisconnectState(c) ==> c1 == c
    ensures Unvisited(c1, c, now)
  {
  }

  class Server {
    var clients: map<Address, ClientState>
    /** Every datagram put on the socket, with its recipient. */
    var sent: seq<(Address, Datagram)>
    /** Every message handed to a handler, with its sender. */
    var handled: seq<(Address, Handler)>
    const world: World.World

    constructor(world: World.World)
      ensures this.world == world && clients == map[] && sent == [] && handled == []
    {
      this.world := world;
      clients := map[];
      sent := [];
      handled := [];
    }

    /** The player is in the world and may leave it: `world.remove(player)` succeeds. */
    predicate Removable(e: World.Entity)
      reads world
    {
      !world.isEntitiesUnmodifiable && e.id in world.entitiesID && world.entitiesID[e.id] in world.entities
    }

    /**
     * `processPacket(sender)`: a datagram shorter than the header is
     * ignored. Otherwise the sender gets a state if it has none, the
     * datagram is applied to it as `Arrive` says, the acknowledgment is
     * sent, and the handler, if any, runs.
     */
    method ProcessPacket(sender: Address, packet: seq<byte>, now: long) returns (r: Result<()>)
      modifies this
      ensures |packet| < Protocol.HEADER_SIZE ==> (r == Ok(()) && clients == old(clients)
        && sent == old(sent) && handled == old(handled))
      ensures |packet| >= Protocol.HEADER_SIZE ==> (sender in clients
        && clients == old(clients)[sender := ArrivalOf(old(clients), sender, packet, now).client]
        && r == ArrivalOf(old(clients), sender, packet, now).outcome)
      ensures |packet| >= Protocol.HEADER_SIZE ==> (sent == old(sent)
        + if ArrivalOf(old(clients), sender, packet, now).ack
          then [(sender, Sequencing.Response(Bytes.GetInteger(packet, 1)))] else [])
      ensures |packet| >= Protocol.HEADER_SIZE ==> (handled == old(handled)
        + if ArrivalOf(old(clients), sender, packet, now).handler.Some?
          then [(sender, ArrivalOf(old(clients), sender, packet, now).handler.value)] else [])
    {
      if |packet| < Protocol.HEADER_SIZE {
        return Ok(());
      }
      var kind := packet[0];
      var messageID := Bytes.GetInteger(packet, 1);
      if sender !in clients {
        clients := clients[sender := NewClient(sender)];
      }
      var o := Arrive(clients[sender], kind, messageID, packet[Protocol.HEADER_SIZE..], now);
      if o.ack {
        sent := sent + [(sender, Sequencing.Response(messageID))];
      }
      clients := clients[sender := o.client];
      if o.handler.Some? {
        handled := handled + [(sender, o.handler.value)];
      }
      return o.outcome;
    }

    /** `broadcastUnsafe(data, reliable, sendToClient)`, with the message kept symbolic. */
    method Broadcast(message: Message, reliable: bool, sendTo: ClientState -> bool)
      modifies this
      ensures clients == Broadcasted(old(clients), Sequencing.SendPacket(message, reliable), sendTo)
      ensures sent == old(sent) && handled == old(handled)
    {
      clients := Broadcasted(clients, Sequencing.SendPacket(message, reliable), sendTo);
    }

    /**
     * `handleDisconnect(client)`: everyone is told, then the client's
     * player, if any, leaves the world and everyone is told that too. A
     * player the world refuses to remove is an `IllegalStateException`,
     * which ends the call before the second broadcast.
     */
    method HandleDisconnect(c: ClientState) returns (r: Result<()>)
      modifies this, world
      ensures clients.Keys == old(clients).Keys
      ensures forall a | a in clients :: clients[a] == old(clients)[a].(sendQueue := clients[a].sendQueue)
      ensures forall a | a in clients && !IsNotDisconnectState(old(clients)[a]) :: clients[a] == old(clients)[a]
      ensures forall a | a in clients && IsNotDisconnectState(old(clients)[a]) ::
        clients[a].sendQueue == old(clients)[a].sendQueue + Notices(c, r.Ok?)
      ensures c.player.None? ==> (r == Ok(())
        && world.entities == old(world.entities) && world.entitiesID == old(world.entitiesID))
      ensures c.player.Some? ==> (r.Ok? <==> old(Removable(c.player.value)))
      ensures c.player.Some? && !old(world.isEntitiesUnmodifiable) ==> world.entitiesID == old(world.entitiesID) - {c.player.value.id}
      ensures r.Err? ==> r.error == IllegalState
      ensures world.isEntitiesUnmodifiable == old(world.isEntitiesUnmodifiable)
      ensures sent == old(sent) && handled == old(handled)
    {
      Broadcast(ConsoleNotice(c.address), true, Everyone);
      if c.player.Some? {
        r := world.Remove(c.player.value);
        if r.Err? {
          return;
        }
        Broadcast(RemoveEntityNotice(c.player.value.id), true, Everyone);
      }
      return Ok(());
    }

    /**
     * One pass of `handleClientStatuses`'s loop, as written, on client `a`:
     * connected and in-game clients are checked for a receive timeout; a
     * timed-out client is dropped and its disconnect announced; a kicked or
     * self-disconnected client is dropped once its queue is empty, but its
     * disconnect is announced on every pass; a rejected client is dropped
     * once its queue is empty, an invalid one at once.
     */
    method HandleClient(a: Address, now: long) returns (r: Result<()>)
      requires a in clients
      modifies this, world
      ensures Leaves(old(clients)[a]) ==> a !in clients
      ensures !Leaves(old(clients)[a]) ==> a in clients && clients[a].status == StatusAfter(old(clients)[a], now)
      ensures a in clients && old(clients)[a].status != CONNECTED && old(clients)[a].status != IN_GAME
        ==> clients[a] == old(clients)[a]
      ensures forall b | b != a :: b in clients <==> b in old(clients)
      ensures forall b | b in clients && b != a :: clients[b] == old(clients)[b].(sendQueue := clients[b].sendQueue)
      ensures forall b | b in clients && b != a && !IsNotDisconnectState(old(clients)[b]) :: clients[b] == old(clients)[b]
      ensures !(Announces(old(clients)[a]) && old(clients)[a].player.Some?) ==> (r == Ok(())
        && world.entities == old(world.entities) && world.entitiesID == old(world.entitiesID))
      ensures Announces(old(clients)[a]) && old(clients)[a].player.Some? ==> (
        (r.Ok? <==> old(Removable(clients[a].player.value)))
        && (!old(world.isEntitiesUnmodifiable)
          ==> world.entitiesID == old(world.entitiesID) - {old(clients)[a].player.value.id}))
      ensures r.Err? ==> r.error == IllegalState
      ensures world.isEntitiesUnmodifiable == old(world.isEntitiesUnmodifiable)
      ensures sent == old(sent) && handled == old(handled)
    {
      var c := clients[a];
      r := Ok(());
      match c.status
      case CONNECTED | IN_GAME =>
        clients := clients[a := CheckReceiveTimeout(c, now)];
      case TIMED_OUT =>
        clients := clients - {a};
        r := HandleDisconnect(c);
      case KICKED | SELF_DISCONNECTED =>
        if |c.sendQueue| == 0 {
          clients := clients - {a};
        }
        r := HandleDisconnect(c);
      case REJECTED =>
        if |c.sendQueue| == 0 {
          clients := clients - {a};
        }
      case INVALID =>
        clients := clients - {a};
    }

    /** One pass on client `a` as intended: as `HandleClient`, but a disconnect is announced only when the client is dropped. */
    method HandleClientIntended(a: Address, now: long) returns (r: Result<()>)
      requires a in clients
      modifies this, world
      ensures Leaves(old(clients)[a]) ==> a !in clients
      ensures !Leaves(old(clients)[a]) ==> a in clients && clients[a].status == StatusAfter(old(clients)[a], now)
      ensures a in clients && old(clients)[a].status != CONNECTED && old(clients)[a].status != IN_GAME
        ==> clients[a] == old(clients)[a]
      ensures forall b | b != a :: b in clients <==> b in old(clients)
      ensures forall b | b in clients && b != a :: clients[b] == old(clients)[b].(sendQueue := clients[b].sendQueue)
      ensures forall b | b in clients && b != a && !IsNotDisconnectState(old(clients)[b]) :: clients[b] == old(clients)[b]
      ensures !(AnnouncesIntended(old(clients)[a]) && old(clients)[a].player.Some?) ==> (r == Ok(())
        && world.entities == old(world.entities) && world.entitiesID == old(world.entitiesID))
      ensures AnnouncesIntended(old(clients)[a]) && old(clients)[a].player.Some? ==> (
        (r.Ok? <==> old(Removable(clients[a].player.value)))
        && (!old(world.isEntitiesUnmodifiable)
          ==> world.entitiesID == old(world.entitiesID) - {old(clients)[a].player.value.id}))
      ensures r.Err? ==> r.error == IllegalState
      ensures world.isEntitiesUnmodifiable == old(world.isEntitiesUnmodifiable)
      ensures sent == old(sent) && handled == old(handled)
    {
      var c := clients[a];
      r := Ok(());
      match c.status
      case CONNECTED | IN_GAME =>
        clients := clients[a := CheckReceiveTimeout(c, now)];
      case TIMED_OUT =>
        clients := clients - {a};
        r := HandleDisconnect(c);
      case KICKED | SELF_DISCONNECTED =>
        if |c.sendQueue| == 0 {
          clients := clients - {a};
          r := HandleDisconnect(c);
        }
      case REJECTED =>
        if |c.sendQueue| == 0 {
          clients := clients - {a};
        }
      case INVALID =>
        clients := clients - {a};
    }

    /**
     * A kicked client whose last messages are still queued, and whose
     * player is in the world: the first pass removes the player, the
     * second tries again and fails with an `IllegalStateException`, which
     * escapes `update`.
     */
    method RepeatedDisconnect(a: Address, now: long) returns (first: Result<()>, second: Result<()>)
      requires a in clients && clients[a].status == KICKED && |clients[a].sendQueue| > 0
      requires clients[a].player.Some? && Removable(clients[a].player.value)
      modifies this, world
      ensures first.Ok?
      ensures second == Err(IllegalState)
    {
      ghost var player := clients[a].player.value;
      assert Announces(clients[a]);
      first := HandleClient(a, now);
      assert first.Ok?;
      assert a in clients && clients[a] == old(clients)[a];
      assert player.id !in world.entitiesID;
      second := HandleClient(a, now);
    }

    /** With the intended pass, the same client waits for its queue to drain and the world is left alone. */
    method WaitingDisconnect(a: Address, now: long) returns (first: Result<()>, second: Result<()>)
      requires a in clients && clients[a].status == KICKED && |clients[a].sendQueue| > 0
      modifies this, world
      ensures first == Ok(()) && second == Ok(())
      ensures a in clients && clients[a] == old(clients)[a]
      ensures world.entities == old(world.entities) && world.entitiesID == old(world.entitiesID)
    {
      first := HandleClientIntended(a, now);
      second := HandleClientIntended(a, now);
    }

    /**
     * `handleClientStatuses`, with the intended pass: every client in turn,
     * `order` being the map's iteration order. Unless removing a player
     * fails, afterwards exactly the clients that should stay remain, with
     * their statuses advanced.
     */
    method HandleClientStatuses(order: seq<Address>, now: long) returns (r: Result<()>)
      requires forall i, j | 0 <= i < j < |order| :: order[i] != order[j]
      requires forall a :: a in clients <==> a in order
      modifies this, world
      ensures r.Err? ==> r.error == IllegalState
      ensures r.Ok? ==> forall a :: a in clients <==> a in old(clients) && !Leaves(old(clients)[a])
      ensures r.Ok? ==> forall a | a in clients :: clients[a].status == StatusAfter(old(clients)[a], now)
      ensures sent == old(sent) && handled == old(handled)
    {
      var i := 0;
      forall k | 0 <= k < |order|
        ensures order[k] in clients && Unvisited(clients[order[k]], old(clients)[order[k]], now)
      {
        Listed(clients, order, k);
      }
      while i < |order|
        invariant 0 <= i <= |order|
        invariant forall a :: a in clients ==> a in old(clients)
        invariant forall k | i <= k < |order| :: order[k] in clients
        invariant forall k | i <= k < |order| :: Unvisited(clients[order[k]], old(clients)[order[k]], now)
        invariant forall k | 0 <= k < i :: Visited(clients, order[k], old(clients)[order[k]], now)
        invariant sent == old(sent) && handled == old(handled)
      {
        ghost var before := clients;
        r := HandleClientIntended(order[i], now);
        if r.Err? {
          return;
        }
        forall k | 0 <= k < i
          ensures Visited(clients, order[k], old(clients)[order[k]], now)
        {
          assert order[k] != order[i];
        }
        assert Visited(clients, order[i], old(clients)[order[i]], now);
        forall k | i < k < |order|
          ensures Unvisited(clients[order[k]], old(clients)[order[k]], now)
        {
          Untouched(before[order[k]], clients[order[k]], now);
        }
        i := i + 1;
      }
      return Ok(());
    }

    /**
     * `sendQueued(client)` with the clock reading `now`: the client's state
     * and the datagrams sent are those of `Flushed`.
     */
    method SendQueued(a: Address, now: long)
      requires a in clients
      modifies this
      ensures clients == old(clients)[a := Flushed(old(clients)[a], now).client]
      ensures sent == old(sent) + Addressed(a, Flushed(old(clients)[a], now).datagrams)
      ensures handled == old(handled)
    {
      var c, out := SendUnreliableHead(clients[a]);
      if |c.sendQueue| > 0 {
        var attempted, head := SendReliableHead(c, now);
        c := attempted;
        out := out + head;
      }
      clients := clients[a := c];
      sent := sent + Addressed(a, out);
    }
  }

  /**
   * The draining loop of `sendQueued`: each unreliable packet at the head
   * of the queue is sent with the next unreliable ID and polled, until the
   * queue is empty or its head is reliable.
   */
  method SendUnreliableHead(c: ClientState) returns (drained: ClientState, out: seq<Datagram>)
    ensures drained == Drained(c)
    ensures out == Sequencing.UnreliableSends(c.sendUnreliableID, c.sendQueue[..Sequencing.UnreliableHead(c.sendQueue)])
  {
    var d;
    d, out := Sequencing.SendUnreliableHead(c.sendQueue, c.sendUnreliableID);
    drained := c.(sendQueue := d.0, sendUnreliableID := d.1);
  }

  /** The reliable branch of `sendQueued`'s loop, with `resendIntervalElapsed` as written. */
  method SendReliableHead(c: ClientState, now: long) returns (attempted: ClientState, out: seq<Datagram>)
    requires |c.sendQueue| > 0
    ensures Flush(attempted, out) == Attempt(c, now)
  {
    attempted, out := c, [];
    var head := Sequencing.Reliable(c.sendReliableID, c.sendQueue[0].data);
    if c.sendAttempts == 0 {
      attempted := c.(sendStartTime := now, sendAttempts := 1);
      out := [head];
    } else if c.sendAttempts <= Protocol.RESEND_COUNT {
      if UtilityWorld.ResendIntervalElapsed(c.sendStartTime, c.sendAttempts, now) {
        attempted := c.(sendAttempts := c.sendAttempts + 1);
        out := [head];
      }
    } else {
      attempted := c.(status := TIMED_OUT);
    }
  }

  /**
   * `buildConnectAcknowledgement(worldSize, playerID)`: eleven bytes that
   * read back as the acknowledgment type, the WORLD status, the world's
   * size and the player's entity ID.
   */
  method BuildConnectAcknowledgement(worldSize: int32, playerID: int32) returns (head: seq<byte>)
    ensures |head| == 11
    ensures Bytes.GetShort(head, 0) == Protocol.TYPE_SERVER_CONNECT_ACKNOWLEDGMENT
    ensures head[2] == Protocol.CONNECT_STATUS_WORLD
    ensures Bytes.GetInteger(head, 3) == worldSize && Bytes.GetInteger(head, 7) == playerID
  {
    var h := new byte[2 + 1 + 4 + 4](_ => 0);
    ghost var blank := h[..];
    ghost var typeBytes := Bytes.ShortBytes(Protocol.TYPE_SERVER_CONNECT_ACKNOWLEDGMENT);
    Bytes.PutShort(h, 0, Protocol.TYPE_SERVER_CONNECT_ACKNOWLEDGMENT);
    assert h[..] == typeBytes + blank[2..];
    h[2] := Protocol.CONNECT_STATUS_WORLD;
    assert h[..] == typeBytes + [Protocol.CONNECT_STATUS_WORLD] + blank[3..];
    Bytes.PutInteger(h, 3, worldSize);
    assert h[..] == typeBytes + [Protocol.CONNECT_STATUS_WORLD] + Bytes.IntBytes(worldSize) + blank[7..];
    Bytes.PutInteger(h, 7, playerID);
    head := h[..];
    assert head == typeBytes + [Protocol.CONNECT_STATUS_WORLD] + Bytes.IntBytes(worldSize) + Bytes.IntBytes(playerID);
    AckLayout(Protocol.TYPE_SERVER_CONNECT_ACKNOWLEDGMENT, Protocol.CONNECT_STATUS_WORLD, worldSize, playerID);
  }

  /** The acknowledgment's layout: type, status, world size, player ID. */
  lemma AckLayout(kind: short, status: byte, worldSize: int32, playerID: int32)
    ensures var x := Bytes.ShortBytes(kind) + [status] + Bytes.IntBytes(worldSize) + Bytes.IntBytes(playerID);
      |x| == 11 && Bytes.GetShort(x, 0) == kind && x[2] == status
      && Bytes.GetInteger(x, 3) == worldSize && Bytes.GetInteger(x, 7) == playerID
  {
    var x := Bytes.ShortBytes(kind) + [status] + Bytes.IntBytes(worldSize) + Bytes.IntBytes(playerID);
    assert Bytes.Splice(x, 0, Bytes.ShortBytes(kind)) == x;
    Bytes.ShortRoundTrip(x, 0, kind);
    assert Bytes.Splice(x, 3, Bytes.IntBytes(worldSize)) == x;
    Bytes.IntegerRoundTrip(x, 3, worldSize);
    assert Bytes.Splice(x, 7, Bytes.IntBytes(playerID)) == x;
    Bytes.IntegerRoundTrip(x, 7, playerID);
  }
}
