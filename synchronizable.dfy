/** The `Synchronizable<T>` component: a queue of input frames waiting to be applied, a
    queue of predicted states and the latest authoritative state from the server. */
module Synchronizables {
  import opened Models

  /** How many front inputs `input_frame(frame)` drains: the longest front run whose frames
      are all at or before `frame`. */
  function DrainCount(inputs: seq<InputFrame>, frame: u32): (k: nat)
    ensures k <= |inputs|
  {
    if |inputs| > 0 && inputs[0].frame <= frame then 1 + DrainCount(inputs[1..], frame) else 0
  }

  /** The drained run is exactly the maximal front prefix at or before `frame`: every drained
      input is due, and the first input kept is not. */
  lemma {:induction false} DrainCountSpec(inputs: seq<InputFrame>, frame: u32, k: nat)
    requires k == DrainCount(inputs, frame)
    ensures forall i :: 0 <= i < k ==> inputs[i].frame <= frame
    ensures k < |inputs| ==> inputs[k].frame > frame
  {
    if |inputs| > 0 && inputs[0].frame <= frame {
      DrainCountSpec(inputs[1..], frame, k - 1);
      forall i | 0 < i < k ensures inputs[i].frame <= frame {
        assert inputs[i] == inputs[1..][i - 1];
      }
      if k < |inputs| {
        assert inputs[k] == inputs[1..][k - 1];
      }
    }
  }

  /** Any prefix that is all due and followed by an input that is not is the drained one. */
  lemma {:induction false} DrainCountUnique(inputs: seq<InputFrame>, frame: u32, k: nat)
    requires k <= |inputs|
    requires forall i :: 0 <= i < k ==> inputs[i].frame <= frame
    requires k < |inputs| ==> inputs[k].frame > frame
    ensures DrainCount(inputs, frame) == k
  {
    if k > 0 {
      DrainCountUnique(inputs[1..], frame, k - 1);
    }
  }

  /** What `input_frame(frame)` returns: the last input drained, if any. */
  function Drained(inputs: seq<InputFrame>, frame: u32): Option<InputFrame>
  {
    var k := DrainCount(inputs, frame);
    if k == 0 then None else Some(inputs[k - 1])
  }

  /** Nothing is returned exactly when nothing is due at the front, and then nothing is
      drained either. */
  lemma DrainedNothing(inputs: seq<InputFrame>, frame: u32)
    ensures Drained(inputs, frame) == None <==> |inputs| == 0 || inputs[0].frame > frame
    ensures Drained(inputs, frame) == None <==> DrainCount(inputs, frame) == 0
  {
  }

  /** Inputs at or before `frame` that sit behind a later one are not drained: draining stops
      at the first input that is not yet due. */
  lemma DrainStopsAtFirstLater(inputs: seq<InputFrame>, frame: u32, j: nat)
    requires j < |inputs| && inputs[j].frame > frame
    ensures DrainCount(inputs, frame) <= j
  {
    DrainCountSpec(inputs, frame, DrainCount(inputs, frame));
  }

  /** The component's state as a value. */
  datatype SynchronizableValue = SynchronizableValue(inputs: seq<InputFrame>, predictions: seq<StateFrame>, serverTruth: Option<StateFrame>)

  /** `Synchronizable::default()`. */
  const Default: SynchronizableValue := SynchronizableValue([], [], None)

  class Synchronizable {
    var inputs: seq<InputFrame>
    var predictions: seq<StateFrame>
    var serverTruth: Option<StateFrame>

    function Value(): SynchronizableValue
      reads this
    {
      SynchronizableValue(inputs, predictions, serverTruth)
    }

    constructor ()
      ensures Value() == Default
    {
      inputs := [];
      predictions := [];
      serverTruth := None;
    }

    function ServerTruth(): Option<StateFrame>
      reads this
    {
      serverTruth
    }

    method SetServerTruth(frame: StateFrame)
      modifies this
      ensures ServerTruth() == Some(frame)
      ensures inputs == old(inputs) && predictions == old(predictions)
    {
      serverTruth := Some(frame);
    }

    method ClearServerTruth()
      modifies this
      ensures ServerTruth() == None
      ensures inputs == old(inputs) && predictions == old(predictions)
    {
      serverTruth := None;
    }

    /** `input_frame(frame)`: drains every front input at or before `frame` and returns the
        last one drained. */
    method InputFrameAt(frame: u32) returns (input: Option<InputFrame>)
      modifies this
      ensures input == Drained(old(inputs), frame)
      ensures inputs == old(inputs)[DrainCount(old(inputs), frame)..]
      ensures predictions == old(predictions) && serverTruth == old(serverTruth)
    {
      input := None;
      ghost var drained: nat := 0;
      while |inputs| > 0
        invariant drained <= |old(inputs)| && inputs == old(inputs)[drained..]
        invariant drained + DrainCount(inputs, frame) == DrainCount(old(inputs), frame)
        invariant input == if drained == 0 then None else Some(old(inputs)[drained - 1])
        invariant predictions == old(predictions) && serverTruth == old(serverTruth)
      {
        var front := inputs[0];
        if front.frame <= frame {
          input := Some(front);
          inputs := inputs[1..];
          drained := drained + 1;
        } else {
          break;
        }
      }
    }
  }
}
