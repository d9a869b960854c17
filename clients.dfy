/** The `Clients` resource: which client id each connection belongs to, and the client
    record stored under each id. */
module ClientRegistry {
  import opened Models

  /** The registry's two maps as a value. */
  datatype ClientsValue = ClientsValue(connections: map<Connection, u128>, clients: map<u128, Client>)

  /** `Clients::default()`. */
  const Default: ClientsValue := ClientsValue(map[], map[])

  /** `get_client_id(connection)`. */
  function ClientIdOf(v: ClientsValue, connection: Connection): Option<u128>
  {
    if connection in v.connections then Some(v.connections[connection]) else None
  }

  /** The registry after `add(connection, client)`. */
  function Added(v: ClientsValue, connection: Connection, client: Client): ClientsValue
  {
    ClientsValue(v.connections[connection := client.id], v.clients[client.id := client])
  }

  /** Every registered connection names a stored client, and every client is stored under
      its own id. */
  ghost predicate Consistent(v: ClientsValue)
  {
    && (forall c :: c in v.connections ==> v.connections[c] in v.clients)
    && (forall id :: id in v.clients ==> v.clients[id].id == id)
  }

  /** A fresh registry maps no connection to an id, and is consistent. */
  lemma DefaultKnowsNoConnection(connection: Connection)
    ensures ClientIdOf(Default, connection) == None
    ensures Consistent(Default)
  {
  }

  /** After `add(connection, client)`, the connection maps to the client's id, and the id to
      the client; every other connection keeps its mapping, so several connections may map
      to one id; every other id keeps its client. */
  lemma AddThenGet(v: ClientsValue, connection: Connection, client: Client)
    ensures ClientIdOf(Added(v, connection, client), connection) == Some(client.id)
    ensures Added(v, connection, client).clients[client.id] == client
    ensures forall c :: c != connection ==> ClientIdOf(Added(v, connection, client), c) == ClientIdOf(v, c)
    ensures forall id :: id != client.id && id in v.clients ==> Added(v, connection, client).clients[id] == v.clients[id]
    ensures Added(v, connection, client).clients.Keys == v.clients.Keys + {client.id}
  {
  }

  /** `add` keeps the registry consistent. */
  lemma AddKeepsConsistent(v: ClientsValue, connection: Connection, client: Client)
    requires Consistent(v)
    ensures Consistent(Added(v, connection, client))
  {
  }

  class Clients {
    var connections: map<Connection, u128>
    var clients: map<u128, Client>

    function Value(): ClientsValue
      reads this
    {
      ClientsValue(connections, clients)
    }

    constructor ()
      ensures Value() == Default
    {
      connections := map[];
      clients := map[];
    }

    function GetClientId(connection: Connection): (r: Option<u128>)
      reads this
      ensures r == ClientIdOf(Value(), connection)
    {
      if connection in connections then Some(connections[connection]) else None
    }

    method Add(connection: Connection, client: Client)
      modifies this
      ensures Value() == Added(old(Value()), connection, client)
    {
      connections := connections[connection := client.id];
      clients := clients[client.id := client];
    }

    /** `iter()`: a walk over the stored clients, in the map's own unspecified order. */
    method Iter() returns (it: ClientsIter)
      ensures fresh(it) && it.Valid()
      ensures it.clients == clients && it.remaining == clients.Keys && it.yielded == []
    {
      it := new ClientsIter(clients);
    }
  }

  /** `ClientsIter`: hands out each stored client once, in an order the model leaves open. */
  class ClientsIter {
    const clients: map<u128, Client>
    var remaining: set<u128>
    ghost var yielded: seq<u128>

    /** The ids handed out so far are distinct, and together with those still to come they
        are exactly the stored ids. */
    ghost predicate Valid()
      reads this
    {
      && remaining <= clients.Keys
      && (forall i :: 0 <= i < |yielded| ==> yielded[i] in clients && yielded[i] !in remaining)
      && (forall i, j :: 0 <= i < j < |yielded| ==> yielded[i] != yielded[j])
      && (forall id :: id in clients ==> id in remaining || id in yielded)
    }

    constructor (clients: map<u128, Client>)
      ensures Valid() && this.clients == clients && remaining == clients.Keys && yielded == []
    {
      this.clients := clients;
      remaining := clients.Keys;
      yielded := [];
    }

    method Next() returns (r: Option<Client>)
      requires Valid()
      modifies this
      ensures Valid()
      ensures r.None? <==> old(remaining) == {}
      ensures r.None? ==> remaining == {} && yielded == old(yielded)
      ensures r.Some? ==> exists id :: id in old(remaining) && r.value == clients[id]
                                    && remaining == old(remaining) - {id} && yielded == old(yielded) + [id]
    {
      if remaining == {} {
        return None;
      }
      var id :| id in remaining;
      remaining := remaining - {id};
      yielded := yielded + [id];
      r := Some(clients[id]);
    }
  }

  /** Once the walk is over, every stored client has been handed out exactly once. */
  lemma IterCoversEachClientOnce(it: ClientsIter)
    requires it.Valid() && it.remaining == {}
    ensures forall id :: id in it.clients <==> id in it.yielded
    ensures |it.yielded| == |it.clients|
  {
    DistinctCardinality(it.yielded, it.clients.Keys);
  }
}
