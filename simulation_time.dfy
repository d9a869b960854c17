/** `SimulationTime`: the fixed-step frame counter both sides advance. The frame duration is
    kept as the speed it is computed from (`1000 / speed` milliseconds); the clock is a
    parameter, and whether enough time has passed (`can_tick`) is an input. */
module SimulationTimes {
  import opened Models

  /** A frame duration: `1000 / speed` milliseconds, or unbounded for speed 0. */
  datatype FrameDuration = Millis(ms: real) | Unbounded

  function FrameDurationOf(speed: u16): (d: FrameDuration)
    ensures d.Unbounded? <==> speed == 0
    ensures d.Millis? ==> d.ms * (speed as real) == 1000.0
  {
    if speed == 0 then Unbounded else Millis(1000.0 / speed as real)
  }

  class SimulationTime {
    var frame: u32
    var lastExecution: nat
    var initialFrameDuration: FrameDuration
    var currentFrameDuration: FrameDuration

    /** `SimulationTime::new(speed)` at clock reading `now`. */
    constructor (speed: u16, now: nat)
      ensures Frame() == 0 && lastExecution == now
      ensures initialFrameDuration == FrameDurationOf(speed) && currentFrameDuration == FrameDurationOf(speed)
    {
      frame := 0;
      lastExecution := now;
      initialFrameDuration := FrameDurationOf(speed);
      currentFrameDuration := FrameDurationOf(speed);
    }

    function Frame(): u32
      reads this
    {
      frame
    }

    method SetFrame(frame: u32)
      modifies this
      ensures Frame() == frame
      ensures lastExecution == old(lastExecution) && currentFrameDuration == old(currentFrameDuration)
      ensures initialFrameDuration == old(initialFrameDuration)
    {
      this.frame := frame;
    }

    /** Advances one frame; the `u32` counter must not overflow. */
    method Tick(now: nat)
      requires frame < U32_MAX
      modifies this
      ensures Frame() == old(Frame()) + 1 && lastExecution == now
      ensures currentFrameDuration == old(currentFrameDuration) && initialFrameDuration == old(initialFrameDuration)
    {
      frame := frame + 1;
      lastExecution := now;
    }

    method AdjustSpeed(speed: u16)
      modifies this
      ensures currentFrameDuration == FrameDurationOf(speed)
      ensures Frame() == old(Frame()) && lastExecution == old(lastExecution)
      ensures initialFrameDuration == old(initialFrameDuration)
    {
      currentFrameDuration := FrameDurationOf(speed);
    }
  }

  /** `simulation_time_system`: ticks once when the duration has elapsed, else nothing. */
  method SimulationTimeSystem(simTime: SimulationTime, canTick: bool, now: nat)
    requires canTick ==> simTime.frame < U32_MAX
    modifies simTime
    ensures simTime.Frame() == old(simTime.Frame()) + (if canTick then 1 else 0)
    ensures canTick ==> simTime.lastExecution == now
    ensures !canTick ==> simTime.lastExecution == old(simTime.lastExecution)
    ensures simTime.currentFrameDuration == old(simTime.currentFrameDuration)
  {
    if canTick {
      simTime.Tick(now);
    }
  }
}
