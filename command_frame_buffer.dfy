/** `CommandFrameBuffer`: a sliding window of command frames, front = oldest. The
    frame bookkeeping is `FrameWindow`'s; this module adds the entries themselves. */
module CommandFrameBuffers {
  import opened Models
  import FW = FrameWindow

  /** The buffer's observable state: its three counters and its deque, front first. */
  datatype CommandBufferValue = CommandBufferValue(latestFrame: u32, earliestFrame: u32, maxCommands: u32, commands: seq<CommandFrame>)

  /** `CommandFrameBuffer::default()`. */
  const Default: CommandBufferValue := CommandBufferValue(0, 0, 3, [])

  function FramesOf(s: seq<CommandFrame>): (fs: seq<u32>)
    ensures |fs| == |s|
  {
    seq(|s|, i requires 0 <= i < |s| => s[i].frame)
  }

  lemma FramesOfIndex(s: seq<CommandFrame>)
    ensures forall i :: 0 <= i < |s| ==> FramesOf(s)[i] == s[i].frame
  {
  }

  lemma FramesOfSuffix(s: seq<CommandFrame>, k: nat)
    requires k <= |s|
    ensures FramesOf(s[k..]) == FramesOf(s)[k..]
  {
  }

  lemma FramesOfAppend(s: seq<CommandFrame>, t: seq<CommandFrame>)
    ensures FramesOf(s + t) == FramesOf(s) + FramesOf(t)
  {
  }

  /** One round of the shrink loop: `clear_old(f)` pops the front run of frame `f`, which is
      the first step of clearing everything below `f + 1`. */
  lemma ClearStep(start: seq<CommandFrame>, before: seq<CommandFrame>, after: seq<CommandFrame>, dropped: nat, f: nat) returns (next: nat)
    requires dropped <= |start| && before == start[dropped..]
    requires after == before[FW.LeadingRun(FramesOf(before), f)..]
    ensures next <= |start| && after == start[next..]
    ensures next + FW.ClearedBelow(FramesOf(after), f) == dropped + FW.ClearedBelow(FramesOf(before), f + 1)
  {
    var run := FW.LeadingRun(FramesOf(before), f);
    FramesOfSuffix(before, run);
    assert start[dropped..][run..] == start[dropped + run..];
    next := dropped + run;
  }

  /** Eviction in `push`: popping the front entry and then `clear_old` of its frame removes
      the front frame group, as `PlanPush` counts it. */
  lemma EvictStep(before: seq<CommandFrame>, after: seq<CommandFrame>)
    requires |before| > 1
    requires after == before[1..][FW.LeadingRun(FramesOf(before[1..]), before[0].frame)..]
    ensures after == before[1 + FW.LeadingRun(FramesOf(before)[1..], FramesOf(before)[0])..]
  {
    FramesOfSuffix(before, 1);
    FramesOfIndex(before);
    assert before[1..][FW.LeadingRun(FramesOf(before[1..]), before[0].frame)..]
        == before[1 + FW.LeadingRun(FramesOf(before[1..]), before[0].frame)..];
  }

  /** The frame-level view of a buffer value. */
  function Shape(v: CommandBufferValue): FW.Window
  {
    FW.Window(v.latestFrame, v.earliestFrame, v.maxCommands, FramesOf(v.commands))
  }

  /** The buffer after `push(cf.entity_id, cf.frame, cf.input)`. */
  function Pushed(v: CommandBufferValue, cf: CommandFrame): (r: CommandBufferValue)
    requires FW.PushDefined(Shape(v), cf.frame)
    ensures Shape(r) == FW.ApplyPush(Shape(v), cf.frame)
  {
    var p := FW.PlanPush(Shape(v), cf.frame);
    var kept := v.commands[p.drop..];
    FramesOfSuffix(v.commands, p.drop);
    FramesOfAppend(kept, [cf]);
    CommandBufferValue(p.latest, p.earliest, v.maxCommands, kept + if p.append then [cf] else [])
  }

  /** The buffer after `grow(size)`. */
  function Grown(v: CommandBufferValue, size: u32): (r: CommandBufferValue)
    requires FW.GrowDefined(Shape(v), size)
    ensures Shape(r) == FW.ApplyGrow(Shape(v), size)
  {
    v.(maxCommands := v.maxCommands + size)
  }

  /** The buffer after `shrink(size)`. */
  function Shrunk(v: CommandBufferValue, size: u32): (r: CommandBufferValue)
    requires FW.ShrinkDefined(Shape(v), size)
    ensures Shape(r) == FW.ApplyShrink(Shape(v), size)
  {
    var drop := FW.ShrinkDrop(Shape(v), size);
    FramesOfSuffix(v.commands, drop);
    CommandBufferValue(v.latestFrame, v.earliestFrame, v.maxCommands - size, v.commands[drop..])
  }

  /** What a fresh `history_iter(n)` yields before its first `None`. */
  function History(v: CommandBufferValue, n: u32): (h: seq<CommandFrame>)
    requires FW.HistoryDefined(v.latestFrame, v.earliestFrame, n)
  {
    v.commands[..FW.HistoryLen(FramesOf(v.commands), FW.HistoryThreshold(v.latestFrame, v.earliestFrame, n))]
  }

  /** A push is appended at the back behind the surviving old entries, in their old order;
      the entries it evicts are a front prefix sharing the front entry's frame. */
  lemma PushedKeepsOrder(v: CommandBufferValue, cf: CommandFrame)
    requires FW.PushDefined(Shape(v), cf.frame)
    ensures var r := Pushed(v, cf); var p := FW.PlanPush(Shape(v), cf.frame);
      && r.latestFrame == cf.frame
      && r.maxCommands == v.maxCommands
      && (p.append ==> |r.commands| >= 1 && r.commands[|r.commands| - 1] == cf)
      && r.commands[..|r.commands| - (if p.append then 1 else 0)] == v.commands[p.drop..]
      && (forall i :: 0 <= i < p.drop ==> v.commands[i].frame == v.commands[0].frame)
  {
    FramesOfIndex(v.commands);
  }

  /** Every entry `history_iter(n)` yields is at or above the threshold `latest - n`
      (0 when the lookback is clamped), and the yield is a front prefix of the deque. */
  lemma HistoryWithinWindow(v: CommandBufferValue, n: u32)
    requires FW.HistoryDefined(v.latestFrame, v.earliestFrame, n)
    ensures var h := History(v, n);
      && h <= v.commands
      && (forall i :: 0 <= i < |h| ==> h[i].frame >= FW.HistoryThreshold(v.latestFrame, v.earliestFrame, n))
      && (n <= v.earliestFrame ==> forall i :: 0 <= i < |h| ==> h[i].frame + n >= v.latestFrame)
  {
    var t := FW.HistoryThreshold(v.latestFrame, v.earliestFrame, n);
    FramesOfIndex(v.commands);
    FW.HistoryLenSpec(FramesOf(v.commands), t, FW.HistoryLen(FramesOf(v.commands), t));
  }

  /** A default buffer yields nothing, whatever the lookback. */
  lemma DefaultHistoryEmpty(n: u32)
    ensures FW.HistoryDefined(Default.latestFrame, Default.earliestFrame, n)
    ensures History(Default, n) == []
  {
  }

  /** The buffer. Its four fields are the Rust struct's; the deque is a sequence that the
      methods reassign, front first. */
  class CommandFrameBuffer {
    var latestFrame: u32
    var earliestFrame: u32
    var maxCommands: u32
    var commands: seq<CommandFrame>

    function Value(): CommandBufferValue
      reads this
    {
      CommandBufferValue(latestFrame, earliestFrame, maxCommands, commands)
    }

    /** `CommandFrameBuffer::default()`. */
    constructor ()
      ensures Value() == Default
    {
      latestFrame := 0;
      earliestFrame := 0;
      maxCommands := 3;
      commands := [];
    }

    method Grow(size: u32)
      requires maxCommands + size <= U32_MAX
      modifies this
      ensures Value() == Grown(old(Value()), size)
    {
      maxCommands := maxCommands + size;
    }

    method Shrink(size: u32)
      requires size <= maxCommands
      modifies this
      ensures Value() == Shrunk(old(Value()), size)
    {
      ghost var drop := FW.ShrinkDrop(Shape(Value()), size);
      maxCommands := maxCommands - size;
      if latestFrame > maxCommands {
        var shrinked: u32 := latestFrame - maxCommands;
        ClearAllBelow(shrinked);
      } else {
        assert old(commands)[drop..] == commands;
      }
    }

    /** The loop of `shrink`: `clear_old(f)` for every `f` in `(0..shrinked).rev()`. */
    method ClearAllBelow(shrinked: u32)
      modifies this
      ensures commands == old(commands)[FW.ClearedBelow(FramesOf(old(commands)), shrinked)..]
      ensures latestFrame == old(latestFrame) && earliestFrame == old(earliestFrame)
      ensures maxCommands == old(maxCommands)
    {
      ghost var dropped: nat := 0;
      var commandFrame: u32 := shrinked;
      while commandFrame > 0
        invariant latestFrame == old(latestFrame) && earliestFrame == old(earliestFrame)
        invariant maxCommands == old(maxCommands)
        invariant dropped <= |old(commands)| && commands == old(commands)[dropped..]
        invariant dropped + FW.ClearedBelow(FramesOf(commands), commandFrame) == FW.ClearedBelow(FramesOf(old(commands)), shrinked)
      {
        ghost var before := commands;
        commandFrame := commandFrame - 1;
        ClearOld(commandFrame);
        dropped := ClearStep(old(commands), before, commands, dropped, commandFrame);
      }
    }

    method Push(entityId: u32, frame: u32, input: SynchronizedInput)
      requires earliestFrame == 0 || earliestFrame <= frame
      modifies this
      ensures Value() == Pushed(old(Value()), CommandFrame(frame, entityId, input))
    {
      var commandFrame := CommandFrame(frame, entityId, input);
      ghost var plan := FW.PlanPush(Shape(Value()), frame);
      ghost var before := commands;
      latestFrame := frame;
      if earliestFrame == 0 {
        earliestFrame := latestFrame;
      }
      if latestFrame - earliestFrame == maxCommands {
        if |commands| > 0 {
          var removedCommand := commands[0];
          commands := commands[1..];
          if |commands| == 0 {
            return;
          }
          ClearOld(removedCommand.frame);
          EvictStep(before, commands);
          if |commands| > 0 {
            earliestFrame := commands[0].frame;
          }
        }
      }
      commands := commands + [commandFrame];
    }

    /** All entries, front first. */
    function Iter(): seq<CommandFrame>
      reads this
    {
      commands
    }

    method HistoryIter(historySize: u32) returns (it: CommandFrameBufferIterMut)
      requires FW.HistoryDefined(latestFrame, earliestFrame, historySize)
      ensures fresh(it) && it.Valid()
      ensures it.items == commands && it.cursor == 0
      ensures it.earliestFrame == FW.HistoryThreshold(latestFrame, earliestFrame, historySize)
      ensures it.Remaining() == History(Value(), historySize)
    {
      var size := historySize;
      if size > earliestFrame {
        size := latestFrame;
      }
      it := new CommandFrameBufferIterMut(commands, latestFrame - size);
    }

    /** Pops every front entry whose frame is `frame`. */
    method ClearOld(frame: u32)
      modifies this
      ensures commands == old(commands)[FW.LeadingRun(FramesOf(old(commands)), frame)..]
      ensures latestFrame == old(latestFrame) && earliestFrame == old(earliestFrame)
      ensures maxCommands == old(maxCommands)
    {
      while |commands| > 0
        invariant |commands| <= |old(commands)| && commands == old(commands)[|old(commands)| - |commands|..]
        invariant FW.LeadingRun(FramesOf(old(commands)), frame)
                  == (|old(commands)| - |commands|) + FW.LeadingRun(FramesOf(commands), frame)
        invariant latestFrame == old(latestFrame) && earliestFrame == old(earliestFrame)
        invariant maxCommands == old(maxCommands)
      {
        if frame == commands[0].frame {
          FramesOfSuffix(commands, 1);
          commands := commands[1..];
        } else {
          break;
        }
      }
    }
  }

  /** `CommandFrameBufferIterMut`: walks a snapshot of the deque from the front and
      answers `None` at the first entry below `earliestFrame`. */
  class CommandFrameBufferIterMut {
    const items: seq<CommandFrame>
    const earliestFrame: u32
    var cursor: nat

    ghost predicate Valid()
      reads this
    {
      cursor <= |items|
    }

    /** What the remaining calls to `next` yield before the first `None`. */
    ghost function Remaining(): seq<CommandFrame>
      reads this
      requires Valid()
    {
      var rest := items[cursor..];
      rest[..FW.HistoryLen(FramesOf(rest), earliestFrame)]
    }

    constructor (items: seq<CommandFrame>, earliestFrame: u32)
      ensures Valid() && this.items == items && this.earliestFrame == earliestFrame && cursor == 0
    {
      this.items := items;
      this.earliestFrame := earliestFrame;
      cursor := 0;
    }

    method Next() returns (r: Option<CommandFrame>)
      requires Valid()
      modifies this
      ensures Valid()
      ensures cursor == if old(cursor) < |items| then old(cursor) + 1 else old(cursor)
      ensures r.Some? ==> r.value.frame >= earliestFrame && old(Remaining()) == [r.value] + Remaining()
      ensures r.None? ==> old(Remaining()) == []
    {
      r := None;
      if cursor < |items| {
        var command := items[cursor];
        ghost var rest := items[cursor..];
        assert rest[1..] == items[cursor + 1..];
        FramesOfSuffix(rest, 1);
        cursor := cursor + 1;
        if command.frame >= earliestFrame {
          r := Some(command);
        }
      }
    }
  }
}
