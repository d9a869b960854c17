/** The server's player-movement system: routes each received command frame into the
    command buffer of the first entity whose id matches the frame's entity id. */
module ServerPlayerMovement {
  import opened Models
  import FW = FrameWindow
  import CB = CommandFrameBuffers
  import NL = NetworkMessageListener

  /** One result of the entity query: the entity and its command buffer. */
  datatype Row = Row(entity: Entity, buffer: CB.CommandFrameBuffer)

  /** The index of the first id equal to `entityId`, or `|ids|` when there is none. */
  function FirstMatch(ids: seq<u32>, entityId: u32): (k: nat)
    ensures k <= |ids|
  {
    if |ids| == 0 then 0
    else if ids[0] == entityId then 0
    else 1 + FirstMatch(ids[1..], entityId)
  }

  /** `FirstMatch` finds the first matching id, and `|ids|` means no id matches. */
  lemma {:induction false} FirstMatchSpec(ids: seq<u32>, entityId: u32, k: nat)
    requires k == FirstMatch(ids, entityId)
    ensures forall j :: 0 <= j < k ==> ids[j] != entityId
    ensures k < |ids| ==> ids[k] == entityId
  {
    if |ids| > 0 && ids[0] != entityId {
      FirstMatchSpec(ids[1..], entityId, k - 1);
      forall j | 0 < j < k ensures ids[j] != entityId {
        assert ids[j] == ids[1..][j - 1];
      }
      if k < |ids| {
        assert ids[k] == ids[1..][k - 1];
      }
    }
  }

  /** Whether an event is acted on at all: only frames carrying an input command are. */
  predicate Controls(e: NL.CommandFrameEvent)
  {
    e.commandFrame.input.Input?
  }

  /** The push an event makes is free of underflow. */
  predicate RouteOneDefined(ids: seq<u32>, vals: seq<CB.CommandBufferValue>, e: NL.CommandFrameEvent)
    requires |ids| == |vals|
  {
    var k := FirstMatch(ids, e.commandFrame.entityId);
    Controls(e) && k < |ids| ==> FW.PushDefined(CB.Shape(vals[k]), e.commandFrame.frame)
  }

  /** The buffers after one event: the matched entity's buffer gets the frame pushed. */
  function RouteOne(ids: seq<u32>, vals: seq<CB.CommandBufferValue>, e: NL.CommandFrameEvent): (r: seq<CB.CommandBufferValue>)
    requires |ids| == |vals| && RouteOneDefined(ids, vals, e)
    ensures |r| == |vals|
  {
    var k := FirstMatch(ids, e.commandFrame.entityId);
    if Controls(e) && k < |ids| then vals[k := CB.Pushed(vals[k], e.commandFrame)] else vals
  }

  /** One event changes at most one buffer: the first one whose entity id matches, and only
      when the frame carries an input command; that buffer gets the frame's own fields. */
  lemma RouteOneTouchesFirstMatchOnly(ids: seq<u32>, vals: seq<CB.CommandBufferValue>, e: NL.CommandFrameEvent, j: nat)
    requires |ids| == |vals| && RouteOneDefined(ids, vals, e) && j < |ids|
    ensures RouteOne(ids, vals, e)[j] != vals[j] ==>
              Controls(e) && ids[j] == e.commandFrame.entityId && (forall i :: 0 <= i < j ==> ids[i] != ids[j])
    ensures ids[j] == e.commandFrame.entityId && (forall i :: 0 <= i < j ==> ids[i] != ids[j]) ==>
              j == FirstMatch(ids, e.commandFrame.entityId)
    ensures Controls(e) && j == FirstMatch(ids, e.commandFrame.entityId) ==>
              RouteOne(ids, vals, e)[j] == CB.Pushed(vals[j], e.commandFrame)
  {
    var k := FirstMatch(ids, e.commandFrame.entityId);
    FirstMatchSpec(ids, e.commandFrame.entityId, k);
  }

  /** Every push in the batch is free of underflow. */
  predicate RouteAllDefined(ids: seq<u32>, vals: seq<CB.CommandBufferValue>, events: seq<NL.CommandFrameEvent>)
    requires |ids| == |vals|
    decreases |events|, 0
  {
    |events| == 0 ||
      (RouteAllDefined(ids, vals, events[..|events| - 1])
       && RouteOneDefined(ids, RouteAll(ids, vals, events[..|events| - 1]), events[|events| - 1]))
  }

  /** The buffers after a batch of events, routed in order. */
  function RouteAll(ids: seq<u32>, vals: seq<CB.CommandBufferValue>, events: seq<NL.CommandFrameEvent>): (r: seq<CB.CommandBufferValue>)
    requires |ids| == |vals| && RouteAllDefined(ids, vals, events)
    ensures |r| == |vals|
    decreases |events|, 1
  {
    if |events| == 0 then vals
    else RouteOne(ids, RouteAll(ids, vals, events[..|events| - 1]), events[|events| - 1])
  }

  lemma {:induction false} RouteAllDefinedPrefix(ids: seq<u32>, vals: seq<CB.CommandBufferValue>, events: seq<NL.CommandFrameEvent>, m: nat)
    requires |ids| == |vals| && RouteAllDefined(ids, vals, events) && m <= |events|
    ensures RouteAllDefined(ids, vals, events[..m])
    decreases |events|
  {
    if m < |events| {
      assert events[..|events| - 1][..m] == events[..m];
      RouteAllDefinedPrefix(ids, vals, events[..|events| - 1], m);
    } else {
      assert events[..m] == events;
    }
  }

  /** A buffer whose entity no controlling event names, or whose id an earlier row already
      has, ends the batch unchanged: unmatched events are dropped, and no event reaches two
      entities. */
  lemma {:induction false} RouteAllLeavesOthers(ids: seq<u32>, vals: seq<CB.CommandBufferValue>, events: seq<NL.CommandFrameEvent>, j: nat)
    requires |ids| == |vals| && RouteAllDefined(ids, vals, events) && j < |ids|
    requires (forall e :: e in events && Controls(e) ==> e.commandFrame.entityId != ids[j])
             || (exists i :: 0 <= i < j && ids[i] == ids[j])
    ensures RouteAll(ids, vals, events)[j] == vals[j]
    decreases |events|
  {
    if |events| > 0 {
      var prefix := events[..|events| - 1];
      RouteAllLeavesOthers(ids, vals, prefix, j);
      RouteOneTouchesFirstMatchOnly(ids, RouteAll(ids, vals, prefix), events[|events| - 1], j);
    }
  }

  /** The entity ids of the query rows. */
  function Ids(query: seq<Row>): (ids: seq<u32>)
    ensures |ids| == |query| && forall i :: 0 <= i < |query| ==> ids[i] == query[i].entity.id
  {
    seq(|query|, i requires 0 <= i < |query| => query[i].entity.id)
  }

  /** The buffers the query rows hold. */
  function Buffers(query: seq<Row>): set<CB.CommandFrameBuffer>
  {
    set i | 0 <= i < |query| :: query[i].buffer
  }

  /** The current contents of the query rows' buffers. */
  ghost function Values(query: seq<Row>): (vs: seq<CB.CommandBufferValue>)
    reads Buffers(query)
    ensures |vs| == |query| && forall i :: 0 <= i < |query| ==> vs[i] == query[i].buffer.Value()
    decreases |query|
  {
    if |query| == 0 then []
    else Values(query[..|query| - 1]) + [query[|query| - 1].buffer.Value()]
  }

  /** The body of the outer loop for one event: if the frame carries an input command, walk
      the query to the first entity with the frame's entity id, push, and stop. */
  method RouteEvent(event: NL.CommandFrameEvent, query: seq<Row>)
    requires forall i, j :: 0 <= i < j < |query| ==> query[i].buffer != query[j].buffer
    requires RouteOneDefined(Ids(query), Values(query), event)
    modifies Buffers(query)
    ensures Values(query) == RouteOne(Ids(query), old(Values(query)), event)
  {
    ghost var ids := Ids(query);
    ghost var before := Values(query);
    if event.commandFrame.input.Input? {
      ghost var k := FirstMatch(ids, event.commandFrame.entityId);
      FirstMatchSpec(ids, event.commandFrame.entityId, k);
      var r := 0;
      while r < |query|
        invariant r <= |query|
        invariant forall j :: 0 <= j < r ==> ids[j] != event.commandFrame.entityId
        invariant Values(query) == before
      {
        var row := query[r];
        if row.entity.id != event.commandFrame.entityId {
          r := r + 1;
          continue;
        }
        assert r == k;
        row.buffer.Push(event.commandFrame.entityId, event.commandFrame.frame, event.commandFrame.input);
        assert Values(query) == before[k := CB.Pushed(before[k], event.commandFrame)];
        break;
      }
    }
  }

  /** `server_player_movement_system`: routes every event in order. */
  method ServerPlayerMovementSystem(events: seq<NL.CommandFrameEvent>, query: seq<Row>)
    requires forall i, j :: 0 <= i < j < |query| ==> query[i].buffer != query[j].buffer
    requires RouteAllDefined(Ids(query), Values(query), events)
    modifies Buffers(query)
    ensures Values(query) == RouteAll(Ids(query), old(Values(query)), events)
  {
    ghost var start := Values(query);
    var n := 0;
    while n < |events|
      invariant n <= |events|
      invariant RouteAllDefined(Ids(query), start, events[..n])
      invariant Values(query) == RouteAll(Ids(query), start, events[..n])
    {
      assert events[..n + 1][..n] == events[..n];
      RouteAllDefinedPrefix(Ids(query), start, events, n + 1);
      RouteEvent(events[n], query);
      n := n + 1;
    }
    assert events[..|events|] == events;
  }
}
