/** `StateFrameBuffer`: a sliding window of authored state frames, front = oldest. The
    frame bookkeeping is `FrameWindow`'s; this module adds the entries themselves. */
module StateFrameBuffers {
  import opened Models
  import FW = FrameWindow

  /** The buffer's observable state: its three counters and its deque, front first. */
  datatype StateBufferValue = StateBufferValue(latestFrame: u32, earliestFrame: u32, maxEntries: u32, entries: seq<StateFrame>)

  /** `StateFrameBuffer::default()`. */
  const Default: StateBufferValue := StateBufferValue(0, 0, 3, [])

  function FramesOf(s: seq<StateFrame>): (fs: seq<u32>)
    ensures |fs| == |s|
  {
    seq(|s|, i requires 0 <= i < |s| => s[i].frame)
  }

  lemma FramesOfIndex(s: seq<StateFrame>)
    ensures forall i :: 0 <= i < |s| ==> FramesOf(s)[i] == s[i].frame
  {
  }

  lemma FramesOfSuffix(s: seq<StateFrame>, k: nat)
    requires k <= |s|
    ensures FramesOf(s[k..]) == FramesOf(s)[k..]
  {
  }

  lemma FramesOfAppend(s: seq<StateFrame>, t: seq<StateFrame>)
    ensures FramesOf(s + t) == FramesOf(s) + FramesOf(t)
  {
  }

  /** One round of the shrink loop: `clear_old(f)` pops the front run of frame `f`, which is
      the first step of clearing everything below `f + 1`. */
  lemma ClearStep(start: seq<StateFrame>, before: seq<StateFrame>, after: seq<StateFrame>, dropped: nat, f: nat) returns (next: nat)
    requires dropped <= |start| && before == start[dropped..]
    requires after == before[FW.LeadingRun(FramesOf(before), f)..]
    ensures next <= |start| && after == start[next..]
    ensures next + FW.ClearedBelow(FramesOf(after), f) == dropped + FW.ClearedBelow(FramesOf(before), f + 1)
  {
    var run := FW.LeadingRun(FramesOf(before), f);
    FramesOfSuffix(before, run);
    assert start[dropped..][run..] == start[dropped + run..];
    next := dropped + run;
  }

  /** Eviction in `push`: popping the front entry and then `clear_old` of its frame removes
      the front frame group, as `PlanPush` counts it. */
  lemma EvictStep(before: seq<StateFrame>, after: seq<StateFrame>)
    requires |before| > 1
    requires after == before[1..][FW.LeadingRun(FramesOf(before[1..]), before[0].frame)..]
    ensures after == before[1 + FW.LeadingRun(FramesOf(before)[1..], FramesOf(before)[0])..]
  {
    FramesOfSuffix(before, 1);
    FramesOfIndex(before);
    assert before[1..][FW.LeadingRun(FramesOf(before[1..]), before[0].frame)..]
        == before[1 + FW.LeadingRun(FramesOf(before[1..]), before[0].frame)..];
  }

  /** The frame-level view of a buffer value. */
  function Shape(v: StateBufferValue): FW.Window
  {
    FW.Window(v.latestFrame, v.earliestFrame, v.maxEntries, FramesOf(v.entries))
  }

  /** The buffer after `push(cf)`. */
  function Pushed(v: StateBufferValue, cf: StateFrame): (r: StateBufferValue)
    requires FW.PushDefined(Shape(v), cf.frame)
    ensures Shape(r) == FW.ApplyPush(Shape(v), cf.frame)
  {
    var p := FW.PlanPush(Shape(v), cf.frame);
    var kept := v.entries[p.drop..];
    FramesOfSuffix(v.entries, p.drop);
    FramesOfAppend(kept, [cf]);
    StateBufferValue(p.latest, p.earliest, v.maxEntries, kept + if p.append then [cf] else [])
  }

  /** The buffer after `grow(size)`. */
  function Grown(v: StateBufferValue, size: u32): (r: StateBufferValue)
    requires FW.GrowDefined(Shape(v), size)
    ensures Shape(r) == FW.ApplyGrow(Shape(v), size)
  {
    v.(maxEntries := v.maxEntries + size)
  }

  /** The buffer after `shrink(size)`. */
  function Shrunk(v: StateBufferValue, size: u32): (r: StateBufferValue)
    requires FW.ShrinkDefined(Shape(v), size)
    ensures Shape(r) == FW.ApplyShrink(Shape(v), size)
  {
    var drop := FW.ShrinkDrop(Shape(v), size);
    FramesOfSuffix(v.entries, drop);
    StateBufferValue(v.latestFrame, v.earliestFrame, v.maxEntries - size, v.entries[drop..])
  }

  /** What a fresh `history_iter(n)` yields before its first `None`. */
  function History(v: StateBufferValue, n: u32): (h: seq<StateFrame>)
    requires FW.HistoryDefined(v.latestFrame, v.earliestFrame, n)
  {
    v.entries[..FW.HistoryLen(FramesOf(v.entries), FW.HistoryThreshold(v.latestFrame, v.earliestFrame, n))]
  }

  /** The first answer of a fresh `history_iter(n)`: the FRONT entry when it lies at or
      above the threshold, otherwise `None`. */
  function HistoryFirst(v: StateBufferValue, n: u32): (r: Option<StateFrame>)
    requires FW.HistoryDefined(v.latestFrame, v.earliestFrame, n)
    ensures r.Some? <==> |v.entries| > 0 && v.entries[0].frame >= FW.HistoryThreshold(v.latestFrame, v.earliestFrame, n)
    ensures r.Some? ==> r.value == v.entries[0]
  {
    FramesOfIndex(v.entries);
    var h := History(v, n);
    if |h| > 0 then Some(h[0]) else None
  }

  /** A push is appended at the back behind the surviving old entries, in their old order;
      the entries it evicts are a front prefix sharing the front entry's frame. */
  lemma PushedKeepsOrder(v: StateBufferValue, cf: StateFrame)
    requires FW.PushDefined(Shape(v), cf.frame)
    ensures var r := Pushed(v, cf); var p := FW.PlanPush(Shape(v), cf.frame);
      && r.latestFrame == cf.frame
      && r.maxEntries == v.maxEntries
      && (p.append ==> |r.entries| >= 1 && r.entries[|r.entries| - 1] == cf)
      && r.entries[..|r.entries| - (if p.append then 1 else 0)] == v.entries[p.drop..]
      && (forall i :: 0 <= i < p.drop ==> v.entries[i].frame == v.entries[0].frame)
  {
    FramesOfIndex(v.entries);
  }

  /** Every entry `history_iter(n)` yields is at or above the threshold `latest - n`
      (0 when the lookback is clamped), and the yield is a front prefix of the deque. */
  lemma HistoryWithinWindow(v: StateBufferValue, n: u32)
    requires FW.HistoryDefined(v.latestFrame, v.earliestFrame, n)
    ensures var h := History(v, n);
      && h <= v.entries
      && (forall i :: 0 <= i < |h| ==> h[i].frame >= FW.HistoryThreshold(v.latestFrame, v.earliestFrame, n))
      && (n <= v.earliestFrame ==> forall i :: 0 <= i < |h| ==> h[i].frame + n >= v.latestFrame)
  {
    var t := FW.HistoryThreshold(v.latestFrame, v.earliestFrame, n);
    FramesOfIndex(v.entries);
    FW.HistoryLenSpec(FramesOf(v.entries), t, FW.HistoryLen(FramesOf(v.entries), t));
  }

  /** A default buffer yields nothing, whatever the lookback. */
  lemma DefaultHistoryEmpty(n: u32)
    ensures FW.HistoryDefined(Default.latestFrame, Default.earliestFrame, n)
    ensures History(Default, n) == []
  {
  }

  /** The buffer. Its four fields are the Rust struct's; the deque is a sequence that the
      methods reassign, front first. */
  class StateFrameBuffer {
    var latestFrame: u32
    var earliestFrame: u32
    var maxEntries: u32
    var entries: seq<StateFrame>

    function Value(): StateBufferValue
      reads this
    {
      StateBufferValue(latestFrame, earliestFrame, maxEntries, entries)
    }

    /** `StateFrameBuffer::default()`. */
    constructor ()
      ensures Value() == Default
    {
      latestFrame := 0;
      earliestFrame := 0;
      maxEntries := 3;
      entries := [];
    }

    method Grow(size: u32)
      requires maxEntries + size <= U32_MAX
      modifies this
      ensures Value() == Grown(old(Value()), size)
    {
      maxEntries := maxEntries + size;
    }

    method Shrink(size: u32)
      requires size <= maxEntries
      modifies this
      ensures Value() == Shrunk(old(Value()), size)
    {
      ghost var drop := FW.ShrinkDrop(Shape(Value()), size);
      maxEntries := maxEntries - size;
      if latestFrame > maxEntries {
        var shrinked: u32 := latestFrame - maxEntries;
        ClearAllBelow(shrinked);
      } else {
        assert old(entries)[drop..] == entries;
      }
    }

    /** The loop of `shrink`: `clear_old(f)` for every `f` in `(0..shrinked).rev()`. */
    method ClearAllBelow(shrinked: u32)
      modifies this
      ensures entries == old(entries)[FW.ClearedBelow(FramesOf(old(entries)), shrinked)..]
      ensures latestFrame == old(latestFrame) && earliestFrame == old(earliestFrame)
      ensures maxEntries == old(maxEntries)
    {
      ghost var dropped: nat := 0;
      var stateFrame: u32 := shrinked;
      while stateFrame > 0
        invariant latestFrame == old(latestFrame) && earliestFrame == old(earliestFrame)
        invariant maxEntries == old(maxEntries)
        invariant dropped <= |old(entries)| && entries == old(entries)[dropped..]
        invariant dropped + FW.ClearedBelow(FramesOf(entries), stateFrame) == FW.ClearedBelow(FramesOf(old(entries)), shrinked)
      {
        ghost var before := entries;
        stateFrame := stateFrame - 1;
        ClearOld(stateFrame);
        dropped := ClearStep(old(entries), before, entries, dropped, stateFrame);
      }
    }

    method Push(stateFrame: StateFrame)
      requires earliestFrame == 0 || earliestFrame <= stateFrame.frame
      modifies this
      ensures Value() == Pushed(old(Value()), stateFrame)
    {
      ghost var before := entries;
      latestFrame := stateFrame.frame;
      if earliestFrame == 0 {
        earliestFrame := latestFrame;
      }
      if latestFrame - earliestFrame == maxEntries {
        if |entries| > 0 {
          var removedState := entries[0];
          entries := entries[1..];
          if |entries| == 0 {
            return;
          }
          ClearOld(removedState.frame);
          EvictStep(before, entries);
          if |entries| > 0 {
            earliestFrame := entries[0].frame;
          }
        }
      }
      entries := entries + [stateFrame];
    }

    /** All entries, front first. */
    function Iter(): seq<StateFrame>
      reads this
    {
      entries
    }

    method HistoryIter(historySize: u32) returns (it: StateFrameBufferIterMut)
      requires FW.HistoryDefined(latestFrame, earliestFrame, historySize)
      ensures fresh(it) && it.Valid()
      ensures it.items == entries && it.cursor == 0
      ensures it.earliestFrame == FW.HistoryThreshold(latestFrame, earliestFrame, historySize)
      ensures it.Remaining() == History(Value(), historySize)
    {
      var size := historySize;
      if size > earliestFrame {
        size := latestFrame;
      }
      it := new StateFrameBufferIterMut(entries, latestFrame - size);
    }

    /** Pops every front entry whose frame is `frame`. */
    method ClearOld(frame: u32)
      modifies this
      ensures entries == old(entries)[FW.LeadingRun(FramesOf(old(entries)), frame)..]
      ensures latestFrame == old(latestFrame) && earliestFrame == old(earliestFrame)
      ensures maxEntries == old(maxEntries)
    {
      while |entries| > 0
        invariant |entries| <= |old(entries)| && entries == old(entries)[|old(entries)| - |entries|..]
        invariant FW.LeadingRun(FramesOf(old(entries)), frame)
                  == (|old(entries)| - |entries|) + FW.LeadingRun(FramesOf(entries), frame)
        invariant latestFrame == old(latestFrame) && earliestFrame == old(earliestFrame)
        invariant maxEntries == old(maxEntries)
      {
        if frame == entries[0].frame {
          FramesOfSuffix(entries, 1);
          entries := entries[1..];
        } else {
          break;
        }
      }
    }
  }

  /** `StateFrameBufferIterMut`: walks a snapshot of the deque from the front and
      answers `None` at the first entry below `earliestFrame`. */
  class StateFrameBufferIterMut {
    const items: seq<StateFrame>
    const earliestFrame: u32
    var cursor: nat

    ghost predicate Valid()
      reads this
    {
      cursor <= |items|
    }

    /** What the remaining calls to `next` yield before the first `None`. */
    ghost function Remaining(): seq<StateFrame>
      reads this
      requires Valid()
    {
      var rest := items[cursor..];
      rest[..FW.HistoryLen(FramesOf(rest), earliestFrame)]
    }

    constructor (items: seq<StateFrame>, earliestFrame: u32)
      ensures Valid() && this.items == items && this.earliestFrame == earliestFrame && cursor == 0
    {
      this.items := items;
      this.earliestFrame := earliestFrame;
      cursor := 0;
    }

    method Next() returns (r: Option<StateFrame>)
      requires Valid()
      modifies this
      ensures Valid()
      ensures cursor == if old(cursor) < |items| then old(cursor) + 1 else old(cursor)
      ensures r.Some? ==> r.value.frame >= earliestFrame && old(Remaining()) == [r.value] + Remaining()
      ensures r.None? ==> old(Remaining()) == []
    {
      r := None;
      if cursor < |items| {
        var state := items[cursor];
        ghost var rest := items[cursor..];
        assert rest[1..] == items[cursor + 1..];
        FramesOfSuffix(rest, 1);
        cursor := cursor + 1;
        if state.frame >= earliestFrame {
          r := Some(state);
        }
      }
    }
  }
}
