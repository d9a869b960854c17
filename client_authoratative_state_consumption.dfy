/** The client's state-consumption system: turns each received authoritative state frame of
    the system's component type into a consumption command for the local entity that
    mirrors the frame's server entity. */
module ClientStateConsumption {
  import opened Models
  import NL = NetworkMessageListener
  import SY = Synchronization

  /** One result of the entity query: a local entity and the id of the server entity it
      mirrors. */
  datatype Row = Row(entity: Entity, serverEntityId: u32)

  /** The local entity of the first row that mirrors `serverEntityId`, if any. */
  function Target(query: seq<Row>, serverEntityId: u32): (r: Option<Entity>)
  {
    if |query| == 0 then None
    else if query[0].serverEntityId == serverEntityId then Some(query[0].entity)
    else Target(query[1..], serverEntityId)
  }

  /** `Target` picks the first mirroring row, and finds none only when no row mirrors the id. */
  lemma {:induction false} TargetSpec(query: seq<Row>, serverEntityId: u32)
    ensures Target(query, serverEntityId).None? <==> forall i :: 0 <= i < |query| ==> query[i].serverEntityId != serverEntityId
    ensures Target(query, serverEntityId).Some? ==>
              exists k :: 0 <= k < |query| && query[k].serverEntityId == serverEntityId
                          && query[k].entity == Target(query, serverEntityId).value
                          && forall i :: 0 <= i < k ==> query[i].serverEntityId != serverEntityId
  {
    if |query| > 0 && query[0].serverEntityId != serverEntityId {
      TargetSpec(query[1..], serverEntityId);
      if Target(query, serverEntityId).Some? {
        var k :| 0 <= k < |query[1..]| && query[1..][k].serverEntityId == serverEntityId
                 && query[1..][k].entity == Target(query, serverEntityId).value
                 && forall i :: 0 <= i < k ==> query[1..][i].serverEntityId != serverEntityId;
        assert query[k + 1] == query[1..][k];
        forall i | 0 <= i < k + 1 ensures query[i].serverEntityId != serverEntityId {
          if i > 0 {
            assert query[i] == query[1..][i - 1];
          }
        }
      } else {
        forall i | 0 <= i < |query| ensures query[i].serverEntityId != serverEntityId {
          if i > 0 {
            assert query[i] == query[1..][i - 1];
          }
        }
      }
    }
  }

  /** The commands one event produces: none unless the frame is of the system's component
      type and some row mirrors its entity. */
  function ConsumeOne(componentTypeId: u8, query: seq<Row>, e: NL.StateFrameEvent): seq<SY.SynchronizedStateConsumption>
  {
    var sf := e.stateFrame;
    if sf.componentTypeId != componentTypeId then []
    else match Target(query, sf.entityId)
      case Some(entity) => [SY.SynchronizedStateConsumption(componentTypeId, entity, sf)]
      case None => []
  }

  /** The commands a batch of events produces, in order. */
  function ConsumeAll(componentTypeId: u8, query: seq<Row>, events: seq<NL.StateFrameEvent>): seq<SY.SynchronizedStateConsumption>
    decreases |events|
  {
    if |events| == 0 then []
    else ConsumeAll(componentTypeId, query, events[..|events| - 1]) + ConsumeOne(componentTypeId, query, events[|events| - 1])
  }

  /** Every command is for the system's component type, carries a received frame unchanged,
      and names the first local entity mirroring that frame's server entity; there is at
      most one command per event. */
  lemma {:induction false} ConsumeAllSound(componentTypeId: u8, query: seq<Row>, events: seq<NL.StateFrameEvent>)
    ensures |ConsumeAll(componentTypeId, query, events)| <= |events|
    ensures forall c :: c in ConsumeAll(componentTypeId, query, events) ==>
              && c.componentTypeId == componentTypeId
              && c.stateFrame.componentTypeId == componentTypeId
              && NL.StateFrameEvent(c.stateFrame) in events
              && Target(query, c.stateFrame.entityId) == Some(c.entity)
    decreases |events|
  {
    if |events| > 0 {
      var prefix := events[..|events| - 1];
      ConsumeAllSound(componentTypeId, query, prefix);
      assert forall e :: e in prefix ==> e in events;
      assert events[|events| - 1] in events;
    }
  }

  /** An event of the right type whose server entity some row mirrors always yields its
      command; one of another type, or with no mirroring row, is dropped. */
  lemma ConsumeOneComplete(componentTypeId: u8, query: seq<Row>, e: NL.StateFrameEvent)
    ensures |ConsumeOne(componentTypeId, query, e)| == 1 <==>
              e.stateFrame.componentTypeId == componentTypeId
              && exists i :: 0 <= i < |query| && query[i].serverEntityId == e.stateFrame.entityId
    ensures |ConsumeOne(componentTypeId, query, e)| <= 1
  {
    TargetSpec(query, e.stateFrame.entityId);
  }

  /** `client_authoratative_state_consumption_system`: for each frame of the component
      type, walks the query to the first mirroring entity and queues one consumption
      command for it. */
  method ClientAuthoratativeStateConsumptionSystem(componentTypeId: u8, events: seq<NL.StateFrameEvent>, query: seq<Row>)
    returns (commands: seq<SY.SynchronizedStateConsumption>)
    ensures commands == ConsumeAll(componentTypeId, query, events)
  {
    commands := [];
    var n := 0;
    while n < |events|
      invariant n <= |events|
      invariant commands == ConsumeAll(componentTypeId, query, events[..n])
    {
      assert events[..n + 1][..n] == events[..n];
      var stateFrame := events[n].stateFrame;
      if stateFrame.componentTypeId == componentTypeId {
        var r := 0;
        while r < |query|
          invariant r <= |query|
          invariant Target(query, stateFrame.entityId) == Target(query[r..], stateFrame.entityId)
          invariant commands == ConsumeAll(componentTypeId, query, events[..n])
        {
          assert query[r..][1..] == query[r + 1..];
          if query[r].serverEntityId == stateFrame.entityId {
            commands := commands + [SY.SynchronizedStateConsumption(componentTypeId, query[r].entity, stateFrame)];
            break;
          }
          r := r + 1;
        }
      }
      n := n + 1;
    }
    assert events[..|events|] == events;
  }
}
