/** The network listener: turns transport events into registry updates, outgoing messages,
    game events and spawned players, by the node's role. Decoding the message bytes is the
    serializer's business and is a parameter here; sending is recorded in an outbox. */
module NetworkMessageListener {
  import opened Models
  import opened ConnectionInfos
  import CR = ClientRegistry

  /** The messages the listener dispatches on. */
  datatype NetMessage =
    | Empty
    | Error(kind: string, detail: string)
    | Authorize(token: string)
    | CommandFrameMessage(commandFrame: CommandFrame)
    | AuthoritativeStateFrame(stateFrame: StateFrame)
    | EntitySpawnMessage(spawn: EntitySpawn)

  /** Transport events: a new connection, a message, or anything else (timeouts and the like). */
  datatype NetworkEvent =
    | Connected(conn: Connection)
    | Message(conn: Connection, bytes: seq<byte>)
    | OtherEvent

  datatype NetworkDelivery = ReliableOrdered(stream: Option<u8>) | UnreliableUnordered

  /** One `net.send(addr, message, delivery)`. */
  datatype Send = Send(to: SocketAddr, message: NetMessage, delivery: NetworkDelivery)

  datatype CommandFrameEvent = CommandFrameEvent(from: u128, commandFrame: CommandFrame)
  datatype StateFrameEvent = StateFrameEvent(stateFrame: StateFrame)
  datatype EntitySpawnEvent = EntitySpawnEvent(spawn: EntitySpawn)

  /** A spawned local player, carrying a `Synchronized` handle with this component type. */
  datatype SpawnedPlayer = SpawnedPlayer(componentTypeId: u8)

  /** The component type id of the handle an authorized player is spawned with. */
  const PlayerComponentTypeId: u8 := 1

  /** The client id every authorized connection receives until tokens are checked. */
  const UserDeviceId: u128 := 123

  /** `Client::new(user_device_id)`, the client record an authorized connection gets. */
  const AuthorizedClient: Client := Client.Client(UserDeviceId)

  /** Everything the listener produces besides registry changes. */
  datatype Outputs = Outputs(
    sends: seq<Send>,
    commandFrameEvents: seq<CommandFrameEvent>,
    stateFrameEvents: seq<StateFrameEvent>,
    entitySpawnEvents: seq<EntitySpawnEvent>,
    spawns: seq<SpawnedPlayer>)

  const NoOutputs: Outputs := Outputs([], [], [], [], [])

  datatype ListenState = ListenState(registry: CR.ClientsValue, out: Outputs)

  /** The sends a new connection triggers: a client asks its server for authorization, a
      server answers the peer with an empty message. */
  function ConnectedSends(ci: ConnectionInfo, conn: Connection): seq<Send>
  {
    (if ci.IsClient() then [Send(ci.ServerAddr(), Authorize("test"), ReliableOrdered(Some(2)))] else [])
    + (if ci.IsServer() then [Send(conn.addr, Empty, UnreliableUnordered)] else [])
  }

  /** Exactly one send per connection, whatever the role. */
  lemma ConnectedSendsOne(ci: ConnectionInfo, conn: Connection)
    ensures |ConnectedSends(ci, conn)| == 1
    ensures ci.IsClient() ==> ConnectedSends(ci, conn)[0] == Send(ci.server, Authorize("test"), ReliableOrdered(Some(2)))
    ensures ci.IsServer() ==> ConnectedSends(ci, conn)[0] == Send(conn.addr, Empty, UnreliableUnordered)
  {
  }

  /** `handle_command_frame_event`: on a server, a frame from a registered connection becomes
      one event tagged with the sender's client id; otherwise nothing happens. */
  function HandleCommandFrameEvent(commandFrame: CommandFrame, conn: Connection, ci: ConnectionInfo, registry: CR.ClientsValue): (r: seq<CommandFrameEvent>)
    ensures |r| <= 1
    ensures |r| == 1 <==> ci.IsServer() && CR.ClientIdOf(registry, conn).Some?
    ensures |r| == 1 ==> r[0] == CommandFrameEvent(CR.ClientIdOf(registry, conn).value, commandFrame)
  {
    if !ci.IsServer() then []
    else match CR.ClientIdOf(registry, conn)
      case Some(clientId) => [CommandFrameEvent(clientId, commandFrame)]
      case None => []
  }

  /** `handle_state_frame_event`: forwarded unchanged, on a client only. */
  function HandleStateFrameEvent(stateFrame: StateFrame, ci: ConnectionInfo): (r: seq<StateFrameEvent>)
    ensures |r| <= 1
    ensures |r| == 1 <==> ci.IsClient()
    ensures |r| == 1 ==> r[0] == StateFrameEvent(stateFrame)
  {
    if !ci.IsClient() then [] else [StateFrameEvent(stateFrame)]
  }

  /** `handle_entity_spawn_event`: forwarded unchanged, on a client only. */
  function HandleEntitySpawnEvent(spawn: EntitySpawn, ci: ConnectionInfo): (r: seq<EntitySpawnEvent>)
    ensures |r| <= 1
    ensures |r| == 1 <==> ci.IsClient()
    ensures |r| == 1 ==> r[0] == EntitySpawnEvent(spawn)
  {
    if !ci.IsClient() then [] else [EntitySpawnEvent(spawn)]
  }

  /** The dispatch of one decoded message. */
  function Dispatch(ci: ConnectionInfo, s: ListenState, conn: Connection, msg: NetMessage): ListenState
  {
    match msg
    case Authorize(_) =>
      ListenState(CR.Added(s.registry, conn, AuthorizedClient), s.out.(spawns := s.out.spawns + [SpawnedPlayer(PlayerComponentTypeId)]))
    case CommandFrameMessage(cf) =>
      s.(out := s.out.(commandFrameEvents := s.out.commandFrameEvents + HandleCommandFrameEvent(cf, conn, ci, s.registry)))
    case AuthoritativeStateFrame(sf) =>
      s.(out := s.out.(stateFrameEvents := s.out.stateFrameEvents + HandleStateFrameEvent(sf, ci)))
    case EntitySpawnMessage(sp) =>
      s.(out := s.out.(entitySpawnEvents := s.out.entitySpawnEvents + HandleEntitySpawnEvent(sp, ci)))
    case _ => s
  }

  /** Decoding is unwrapped: every message in the batch must decode. */
  predicate AllDecode(events: seq<NetworkEvent>, decode: seq<byte> -> Option<NetMessage>)
  {
    forall i :: 0 <= i < |events| && events[i].Message? ==> decode(events[i].bytes).Some?
  }

  /** The effect of one network event. */
  function HandleEvent(ci: ConnectionInfo, s: ListenState, e: NetworkEvent, decode: seq<byte> -> Option<NetMessage>): ListenState
    requires e.Message? ==> decode(e.bytes).Some?
  {
    match e
    case Connected(conn) => s.(out := s.out.(sends := s.out.sends + ConnectedSends(ci, conn)))
    case Message(conn, bytes) => Dispatch(ci, s, conn, decode(bytes).value)
    case OtherEvent => s
  }

  /** The effect of a batch of network events, handled in order. */
  function Listen(ci: ConnectionInfo, registry: CR.ClientsValue, events: seq<NetworkEvent>, decode: seq<byte> -> Option<NetMessage>): ListenState
    requires AllDecode(events, decode)
    decreases |events|
  {
    if |events| == 0 then ListenState(registry, NoOutputs)
    else HandleEvent(ci, Listen(ci, registry, events[..|events| - 1], decode), events[|events| - 1], decode)
  }

  /** A client never emits command-frame events. */
  lemma {:induction false} ClientEmitsNoCommandFrames(ci: ConnectionInfo, registry: CR.ClientsValue, events: seq<NetworkEvent>, decode: seq<byte> -> Option<NetMessage>)
    requires AllDecode(events, decode) && ci.IsClient()
    ensures Listen(ci, registry, events, decode).out.commandFrameEvents == []
    decreases |events|
  {
    if |events| > 0 {
      ClientEmitsNoCommandFrames(ci, registry, events[..|events| - 1], decode);
    }
  }

  /** A server never emits state-frame or entity-spawn events. */
  lemma {:induction false} ServerEmitsNoStateOrSpawnEvents(ci: ConnectionInfo, registry: CR.ClientsValue, events: seq<NetworkEvent>, decode: seq<byte> -> Option<NetMessage>)
    requires AllDecode(events, decode) && ci.IsServer()
    ensures Listen(ci, registry, events, decode).out.stateFrameEvents == []
    ensures Listen(ci, registry, events, decode).out.entitySpawnEvents == []
    decreases |events|
  {
    if |events| > 0 {
      ServerEmitsNoStateOrSpawnEvents(ci, registry, events[..|events| - 1], decode);
    }
  }

  /** The state frames of the batch's AuthoritativeStateFrame messages, in batch order. */
  function DecodedStateFrames(events: seq<NetworkEvent>, decode: seq<byte> -> Option<NetMessage>): seq<StateFrame>
    requires AllDecode(events, decode)
    decreases |events|
  {
    if |events| == 0 then []
    else
      var e := events[|events| - 1];
      DecodedStateFrames(events[..|events| - 1], decode)
        + if e.Message? && decode(e.bytes).value.AuthoritativeStateFrame? then [decode(e.bytes).value.stateFrame] else []
  }

  /** The spawns of the batch's EntitySpawnMessage messages, in batch order. */
  function DecodedSpawns(events: seq<NetworkEvent>, decode: seq<byte> -> Option<NetMessage>): seq<EntitySpawn>
    requires AllDecode(events, decode)
    decreases |events|
  {
    if |events| == 0 then []
    else
      var e := events[|events| - 1];
      DecodedSpawns(events[..|events| - 1], decode)
        + if e.Message? && decode(e.bytes).value.EntitySpawnMessage? then [decode(e.bytes).value.spawn] else []
  }

  /** A client forwards every received state frame and every received entity spawn as one
      event each, unchanged and in the order the messages arrived. */
  lemma {:induction false} ClientForwardsStateAndSpawns(ci: ConnectionInfo, registry: CR.ClientsValue, events: seq<NetworkEvent>, decode: seq<byte> -> Option<NetMessage>)
    requires AllDecode(events, decode) && ci.IsClient()
    ensures var out := Listen(ci, registry, events, decode).out;
      var frames := DecodedStateFrames(events, decode);
      && |out.stateFrameEvents| == |frames|
      && forall i :: 0 <= i < |frames| ==> out.stateFrameEvents[i] == StateFrameEvent(frames[i])
    ensures var out := Listen(ci, registry, events, decode).out;
      var spawns := DecodedSpawns(events, decode);
      && |out.entitySpawnEvents| == |spawns|
      && forall i :: 0 <= i < |spawns| ==> out.entitySpawnEvents[i] == EntitySpawnEvent(spawns[i])
    decreases |events|
  {
    if |events| > 0 {
      ClientForwardsStateAndSpawns(ci, registry, events[..|events| - 1], decode);
    }
  }

  /** How many events of the batch are Authorize messages. */
  function AuthorizeCount(events: seq<NetworkEvent>, decode: seq<byte> -> Option<NetMessage>): nat
    requires AllDecode(events, decode)
    decreases |events|
  {
    if |events| == 0 then 0
    else
      var e := events[|events| - 1];
      AuthorizeCount(events[..|events| - 1], decode) + if e.Message? && decode(e.bytes).value.Authorize? then 1 else 0
  }

  /** How many events of the batch are new connections. */
  function ConnectedCount(events: seq<NetworkEvent>): nat
  {
    if |events| == 0 then 0
    else ConnectedCount(events[..|events| - 1]) + if events[|events| - 1].Connected? then 1 else 0
  }

  /** Every Authorize message, in either role, spawns exactly one player with a type-1
      handle, and nothing else spawns one; every new connection sends exactly one message. */
  lemma {:induction false} SpawnsAndSendsCounted(ci: ConnectionInfo, registry: CR.ClientsValue, events: seq<NetworkEvent>, decode: seq<byte> -> Option<NetMessage>)
    requires AllDecode(events, decode)
    ensures |Listen(ci, registry, events, decode).out.spawns| == AuthorizeCount(events, decode)
    ensures forall p :: p in Listen(ci, registry, events, decode).out.spawns ==> p == SpawnedPlayer(1)
    ensures |Listen(ci, registry, events, decode).out.sends| == ConnectedCount(events)
    decreases |events|
  {
    if |events| > 0 {
      SpawnsAndSendsCounted(ci, registry, events[..|events| - 1], decode);
      var e := events[|events| - 1];
      if e.Connected? {
        ConnectedSendsOne(ci, e.conn);
      }
    }
  }

  /** The listener only ever registers connections under the fixed device id: every
      connection it knows afterwards was known before or maps to 123, it forgets none, and
      the registry stays consistent. */
  lemma {:induction false} RegistryGrowsWithDeviceId(ci: ConnectionInfo, registry: CR.ClientsValue, events: seq<NetworkEvent>, decode: seq<byte> -> Option<NetMessage>)
    requires AllDecode(events, decode)
    ensures var r := Listen(ci, registry, events, decode).registry;
      && registry.connections.Keys <= r.connections.Keys
      && (forall c :: c in r.connections ==> r.connections[c] == UserDeviceId || (c in registry.connections && r.connections[c] == registry.connections[c]))
    ensures CR.Consistent(registry) ==> CR.Consistent(Listen(ci, registry, events, decode).registry)
    decreases |events|
  {
    if |events| > 0 {
      RegistryGrowsWithDeviceId(ci, registry, events[..|events| - 1], decode);
      var s := Listen(ci, registry, events[..|events| - 1], decode);
      var e := events[|events| - 1];
      if e.Message? && decode(e.bytes).value.Authorize? {
        CR.AddThenGet(s.registry, e.conn, AuthorizedClient);
        if CR.Consistent(registry) {
          CR.AddKeepsConsistent(s.registry, e.conn, AuthorizedClient);
        }
      }
    }
  }

  /** Every command-frame event names a client id the registry already held, or the fixed
      device id. */
  lemma {:induction false} CommandEventsFromKnownClients(ci: ConnectionInfo, registry: CR.ClientsValue, events: seq<NetworkEvent>, decode: seq<byte> -> Option<NetMessage>)
    requires AllDecode(events, decode)
    ensures forall ev :: ev in Listen(ci, registry, events, decode).out.commandFrameEvents ==>
              ev.from == UserDeviceId || ev.from in registry.connections.Values
    decreases |events|
  {
    if |events| > 0 {
      CommandEventsFromKnownClients(ci, registry, events[..|events| - 1], decode);
      RegistryGrowsWithDeviceId(ci, registry, events[..|events| - 1], decode);
      var s := Listen(ci, registry, events[..|events| - 1], decode);
      var e := events[|events| - 1];
      if e.Message? && decode(e.bytes).value.CommandFrameMessage? {
        var r := HandleCommandFrameEvent(decode(e.bytes).value.commandFrame, e.conn, ci, s.registry);
        if |r| == 1 {
          var c := e.conn;
          assert c in s.registry.connections;
          if s.registry.connections[c] != UserDeviceId {
            assert registry.connections[c] == s.registry.connections[c];
          }
        }
      }
    }
  }

  /** `handle_authorization`: registers the connection under the fixed device id and spawns
      a local player with a type-1 `Synchronized` handle. The token is not checked. */
  method HandleAuthorization(token: string, conn: Connection, clients: CR.Clients) returns (spawn: SpawnedPlayer)
    modifies clients
    ensures clients.Value() == CR.Added(old(clients.Value()), conn, AuthorizedClient)
    ensures spawn == SpawnedPlayer(PlayerComponentTypeId)
  {
    clients.Add(conn, AuthorizedClient);
    spawn := SpawnedPlayer(PlayerComponentTypeId);
  }

  /** `network_message_listener_system`: handles every pending network event in order. */
  method NetworkMessageListenerSystem(ci: ConnectionInfo, clients: CR.Clients, networkEvents: seq<NetworkEvent>, decode: seq<byte> -> Option<NetMessage>)
    returns (out: Outputs)
    requires AllDecode(networkEvents, decode)
    modifies clients
    ensures clients.Value() == Listen(ci, old(clients.Value()), networkEvents, decode).registry
    ensures out == Listen(ci, old(clients.Value()), networkEvents, decode).out
  {
    out := NoOutputs;
    var i := 0;
    while i < |networkEvents|
      invariant i <= |networkEvents|
      invariant ListenState(clients.Value(), out) == Listen(ci, old(clients.Value()), networkEvents[..i], decode)
    {
      assert networkEvents[..i + 1][..i] == networkEvents[..i];
      match networkEvents[i] {
      case Connected(conn) =>
        out := out.(sends := out.sends + ConnectedSends(ci, conn));
      case Message(conn, bytes) =>
        var msg := decode(bytes).value;
        match msg {
          case Authorize(token) =>
            var spawn := HandleAuthorization(token, conn, clients);
            out := out.(spawns := out.spawns + [spawn]);
          case CommandFrameMessage(cf) =>
            out := out.(commandFrameEvents := out.commandFrameEvents + HandleCommandFrameEvent(cf, conn, ci, clients.Value()));
          case AuthoritativeStateFrame(sf) =>
            out := out.(stateFrameEvents := out.stateFrameEvents + HandleStateFrameEvent(sf, ci));
          case EntitySpawnMessage(sp) =>
            out := out.(entitySpawnEvents := out.entitySpawnEvents + HandleEntitySpawnEvent(sp, ci));
          case _ =>
        }
      case OtherEvent =>
      }
      i := i + 1;
    }
    assert networkEvents[..|networkEvents|] == networkEvents;
  }
}
