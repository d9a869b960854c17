/** The `Synchronized` component: a component type tag paired with a command buffer and a
    state buffer, plus the two deferred commands that author and consume state frames.
    The serialized component (`author_serialized_state`) is an input here, and consuming a
    frame is modelled by the call it makes on the component. */
module Synchronization {
  import opened Models
  import FW = FrameWindow
  import CB = CommandFrameBuffers
  import SB = StateFrameBuffers

  /** The deferred authoring command: which component, which entity, which frame. */
  datatype SynchronizedStateAuthoring = SynchronizedStateAuthoring(componentTypeId: u8, entity: Entity, frame: u32)

  /** The deferred consumption command, carrying the received frame. */
  datatype SynchronizedStateConsumption = SynchronizedStateConsumption(componentTypeId: u8, entity: Entity, stateFrame: StateFrame)

  /** The call the consumption command makes: `consume_serialized_state(state)` on the
      component of `entity`. */
  datatype ConsumeCall = ConsumeCall(entity: Entity, state: seq<byte>)

  /** The author step's frame builder: tags the serialized component with the entity's
      id, the component type and the frame. */
  function AuthorStateFrame(componentTypeId: u8, entity: Entity, frame: u32, state: seq<byte>): (sf: StateFrame)
    ensures sf.entityId == entity.id && sf.componentTypeId == componentTypeId
    ensures sf.frame == frame && sf.state == state
  {
    StateFrame(frame, entity.id, componentTypeId, state)
  }

  /** `SynchronizedStateConsumption::write`: hands the frame's state to the component of
      the command's entity. */
  function ConsumeWrite(c: SynchronizedStateConsumption): (call: ConsumeCall)
    ensures call.entity == c.entity && call.state == c.stateFrame.state
  {
    ConsumeCall(c.entity, c.stateFrame.state)
  }

  /** A frame authored for an entity and consumed on the other side reaches the same
      entity's component with the same serialized state. */
  lemma AuthorThenConsume(componentTypeId: u8, entity: Entity, frame: u32, state: seq<byte>)
    ensures ConsumeWrite(SynchronizedStateConsumption(componentTypeId, entity, AuthorStateFrame(componentTypeId, entity, frame, state)))
            == ConsumeCall(entity, state)
  {
  }

  /** Authoring is free of panics: `history_iter(1)` does not underflow, and when the frame
      is pushed, `push` does not underflow either. */
  predicate AuthorDefined(v: SB.StateBufferValue, sf: StateFrame)
  {
    && FW.HistoryDefined(v.latestFrame, v.earliestFrame, 1)
    && (SB.HistoryFirst(v, 1) != Some(sf) ==> FW.PushDefined(SB.Shape(v), sf.frame))
  }

  /** The buffer after `SynchronizedStateAuthoring::write` as written: the new frame is
      compared with the first answer of `history_iter(1)`, which is the FRONT (oldest)
      entry of the window, and pushed unless the two are equal. */
  function Authored(v: SB.StateBufferValue, sf: StateFrame): SB.StateBufferValue
    requires AuthorDefined(v, sf)
  {
    if SB.HistoryFirst(v, 1) == Some(sf) then v else SB.Pushed(v, sf)
  }

  /** The push is skipped exactly when the front entry lies within one frame of the latest
      frame and equals the new frame; otherwise the frame is pushed. */
  lemma AuthoredSkipsOnlyFrontDuplicate(v: SB.StateBufferValue, sf: StateFrame)
    requires AuthorDefined(v, sf)
    ensures Authored(v, sf) == v <== |v.entries| > 0 && v.entries[0] == sf
                                   && v.entries[0].frame >= FW.HistoryThreshold(v.latestFrame, v.earliestFrame, 1)
    ensures !(|v.entries| > 0 && v.entries[0] == sf && v.entries[0].frame >= FW.HistoryThreshold(v.latestFrame, v.earliestFrame, 1))
            ==> Authored(v, sf) == SB.Pushed(v, sf)
  {
  }

  /** With an empty state buffer, authoring always pushes, and the frame becomes the
      buffer's only entry. */
  lemma AuthorIntoEmptyPushes(v: SB.StateBufferValue, sf: StateFrame)
    requires AuthorDefined(v, sf) && v.entries == []
    ensures Authored(v, sf).entries == [sf]
    ensures Authored(v, sf).latestFrame == sf.frame
  {
  }

  /** The buffer value used by the counterexample: one frame, at frame 1. */
  function OneEntryBuffer(a: StateFrame): (v: SB.StateBufferValue)
    requires a.frame == 1
    ensures v.entries == [a] && v.latestFrame == 1 && v.earliestFrame == 1
  {
    SB.StateBufferValue(1, 1, 3, [a])
  }

  /** As written, authoring the same frame twice in a row can add two entries: the second
      write compares with the front entry `a`, not with the frame it just pushed. */
  lemma AuthoredTwiceDuplicates(a: StateFrame, sf: StateFrame)
    requires a.frame == 1 && sf.frame == 2
    ensures AuthorDefined(OneEntryBuffer(a), sf)
    ensures AuthorDefined(Authored(OneEntryBuffer(a), sf), sf)
    ensures Authored(Authored(OneEntryBuffer(a), sf), sf).entries == [a, sf, sf]
  {
    var v := OneEntryBuffer(a);
    FW.HistoryLenSpec(SB.FramesOf([a]), 0, FW.HistoryLen(SB.FramesOf([a]), 0));
    var w := Authored(v, sf);
    assert w.entries == [a, sf];
    assert SB.FramesOf(w.entries) == [1, 2];
    assert SB.FramesOf(w.entries)[1..] == [2];
    assert SB.HistoryFirst(w, 1) == Some(a);
  }

  /** The frame pushed last, the back of the deque, is `sf`. */
  predicate BackIs(v: SB.StateBufferValue, sf: StateFrame)
  {
    |v.entries| > 0 && v.entries[|v.entries| - 1] == sf
  }

  /** The rule the dedup evidently intends: compare with the entry pushed last, the back
      of the deque, and push unless the two are equal. */
  function AuthoredLatest(v: SB.StateBufferValue, sf: StateFrame): SB.StateBufferValue
    requires BackIs(v, sf) || FW.PushDefined(SB.Shape(v), sf.frame)
  {
    if BackIs(v, sf) then v else SB.Pushed(v, sf)
  }

  /** With the corrected rule, authoring is idempotent as long as the first write was not
      dropped by eviction: the second write sees its own frame at the back. */
  lemma AuthoredLatestIdempotent(v: SB.StateBufferValue, sf: StateFrame)
    requires BackIs(v, sf) || FW.PushDefined(SB.Shape(v), sf.frame)
    requires |AuthoredLatest(v, sf).entries| > 0
    ensures var w := AuthoredLatest(v, sf);
      && BackIs(w, sf)
      && AuthoredLatest(w, sf) == w
  {
    if !BackIs(v, sf) {
      SB.PushedKeepsOrder(v, sf);
    }
  }

  /** A synchronized component: its type tag and its two frame buffers. */
  class Synchronized {
    const componentTypeId: u8
    const commandFrameBuffer: CB.CommandFrameBuffer
    const stateFrameBuffer: SB.StateFrameBuffer

    /** `Synchronized::new(component_type_id)`. */
    constructor (componentTypeId: u8)
      ensures ComponentTypeId() == componentTypeId
      ensures fresh(commandFrameBuffer) && fresh(stateFrameBuffer)
      ensures commandFrameBuffer.Value() == CB.Default && stateFrameBuffer.Value() == SB.Default
    {
      this.componentTypeId := componentTypeId;
      commandFrameBuffer := new CB.CommandFrameBuffer();
      stateFrameBuffer := new SB.StateFrameBuffer();
    }

    function ComponentTypeId(): u8
    {
      componentTypeId
    }

    /** `author_state`: queues the authoring command for `entity` at `frame`. */
    function AuthorState(entity: Entity, frame: u32): (cmd: SynchronizedStateAuthoring)
      ensures cmd.componentTypeId == componentTypeId && cmd.entity == entity && cmd.frame == frame
    {
      SynchronizedStateAuthoring(componentTypeId, entity, frame)
    }

    /** `consume_state`: queues the consumption command for `entity`. */
    function ConsumeState(entity: Entity, stateFrame: StateFrame): (cmd: SynchronizedStateConsumption)
      ensures cmd.componentTypeId == componentTypeId && cmd.entity == entity && cmd.stateFrame == stateFrame
    {
      SynchronizedStateConsumption(componentTypeId, entity, stateFrame)
    }
  }

  /** `SynchronizedStateAuthoring::write` against the buffer it was given: builds the frame
      from the serialized component `state`, asks `history_iter(1)` for its first entry and
      pushes unless that entry equals the new frame. */
  method AuthoringWrite(cmd: SynchronizedStateAuthoring, buffer: SB.StateFrameBuffer, state: seq<byte>)
    requires AuthorDefined(buffer.Value(), AuthorStateFrame(cmd.componentTypeId, cmd.entity, cmd.frame, state))
    modifies buffer
    ensures buffer.Value() == Authored(old(buffer.Value()), AuthorStateFrame(cmd.componentTypeId, cmd.entity, cmd.frame, state))
  {
    var it := buffer.HistoryIter(1);
    var oldestStateFrame := it.Next();
    var newStateFrame := AuthorStateFrame(cmd.componentTypeId, cmd.entity, cmd.frame, state);
    if oldestStateFrame.Some? && oldestStateFrame.value == newStateFrame {
      return;
    }
    buffer.Push(newStateFrame);
  }
}
