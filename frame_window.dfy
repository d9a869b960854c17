/** The frame bookkeeping that `CommandFrameBuffer` and `StateFrameBuffer` share,
    stated over the frames of the buffered entries only (the two buffers run the
    same algorithm over different entry types). */
module FrameWindow {
  import opened Models

  /** The frame-level view of a buffer: its three counters and its entries' frames, front first. */
  datatype Window = Window(latest: u32, earliest: u32, capacity: u32, frames: seq<u32>)

  /** The window of a freshly defaulted buffer: counters 0, capacity 3, no entries. */
  const DefaultWindow: Window := Window(0, 0, 3, [])

  /** Entries in non-decreasing frame order, as pushes with increasing frames produce them. */
  ghost predicate Ascending(frames: seq<u32>)
  {
    forall i, j :: 0 <= i < j < |frames| ==> frames[i] <= frames[j]
  }

  // ---------------------------------------------------------------- clear_old

  /** How many front entries `clear_old(f)` pops: the maximal prefix whose frame is `f`. */
  function LeadingRun(frames: seq<u32>, f: int): (k: nat)
    ensures k <= |frames|
  {
    if |frames| > 0 && frames[0] == f then 1 + LeadingRun(frames[1..], f) else 0
  }

  /** `clear_old(f)` pops only entries of frame `f`, and stops at the first other frame. */
  lemma {:induction false} LeadingRunSpec(frames: seq<u32>, f: int, k: nat)
    requires k == LeadingRun(frames, f)
    ensures forall i :: 0 <= i < k ==> frames[i] == f
    ensures k < |frames| ==> frames[k] != f
  {
    if |frames| > 0 && frames[0] == f {
      LeadingRunSpec(frames[1..], f, k - 1);
      forall i | 0 < i < k ensures frames[i] == f {
        assert frames[i] == frames[1..][i - 1];
      }
      if k < |frames| {
        assert frames[k] == frames[1..][k - 1];
      }
    }
  }

  /** Any prefix length with the two properties of `LeadingRun` is `LeadingRun`. */
  lemma {:induction false} LeadingRunUnique(frames: seq<u32>, f: int, k: nat)
    requires k <= |frames|
    requires forall i :: 0 <= i < k ==> frames[i] == f
    requires k < |frames| ==> frames[k] != f
    ensures LeadingRun(frames, f) == k
  {
    if k > 0 {
      LeadingRunUnique(frames[1..], f, k - 1);
    }
  }

  // ---------------------------------------------------------------- shrink

  /** How many front entries `for f in (0..hi).rev() { clear_old(f) }` pops. */
  function ClearedBelow(frames: seq<u32>, hi: nat): (k: nat)
    ensures k <= |frames|
    decreases hi
  {
    if hi == 0 then 0
    else
      var run := LeadingRun(frames, hi - 1);
      run + ClearedBelow(frames[run..], hi - 1)
  }

  /** The shrink loop pops the maximal prefix whose frames are all below `hi` and never
      increase: each `clear_old(f)` pops one group of equal frames, and `f` only goes down. */
  lemma {:induction false} ClearedBelowSpec(frames: seq<u32>, hi: nat, k: nat)
    requires k == ClearedBelow(frames, hi)
    ensures forall i :: 0 <= i < k ==> frames[i] < hi
    ensures forall i, j :: 0 <= i < j < k ==> frames[j] <= frames[i]
    ensures k == 0 && 0 < |frames| ==> frames[0] >= hi
    ensures 0 < k < |frames| ==> frames[k] > frames[k - 1]
    decreases hi
  {
    if hi > 0 {
      var run := LeadingRun(frames, hi - 1);
      LeadingRunSpec(frames, hi - 1, run);
      var rest := ClearedBelow(frames[run..], hi - 1);
      ClearedBelowSpec(frames[run..], hi - 1, rest);
      ClearedBelowStep(frames, hi, run, frames[run..], rest);
    }
  }

  /** One iteration of the shrink loop: a run of frame `hi - 1`, then what the
      remaining iterations pop from the rest `r`. */
  lemma ClearedBelowStep(frames: seq<u32>, hi: nat, run: nat, r: seq<u32>, rest: nat)
    requires hi > 0 && run <= |frames| && r == frames[run..] && rest <= |r|
    requires forall i :: 0 <= i < run ==> frames[i] == hi - 1
    requires run < |frames| ==> frames[run] != hi - 1
    requires forall i :: 0 <= i < rest ==> r[i] < hi - 1
    requires forall i, j :: 0 <= i < j < rest ==> r[j] <= r[i]
    requires rest == 0 && 0 < |r| ==> r[0] >= hi - 1
    requires 0 < rest < |r| ==> r[rest] > r[rest - 1]
    ensures forall i :: 0 <= i < run + rest ==> frames[i] < hi
    ensures forall i, j :: 0 <= i < j < run + rest ==> frames[j] <= frames[i]
    ensures run + rest == 0 && 0 < |frames| ==> frames[0] >= hi
    ensures 0 < run + rest < |frames| ==> frames[run + rest] > frames[run + rest - 1]
  {
    var k := run + rest;
    forall i | 0 <= i < k ensures frames[i] < hi {
      if i >= run {
        assert frames[i] == r[i - run];
      }
    }
    forall i, j | 0 <= i < j < k ensures frames[j] <= frames[i] {
      if i >= run {
        assert frames[i] == r[i - run] && frames[j] == r[j - run];
      } else if j >= run {
        assert frames[j] == r[j - run];
      }
    }
    if k < |frames| {
      assert frames[k] == r[rest];
      if rest > 0 {
        assert frames[k - 1] == r[rest - 1];
      }
    }
  }

  /** On ascending entries the shrink loop removes the front frame group when its frame is
      below `hi`, and nothing else. */
  lemma ClearedBelowAscending(frames: seq<u32>, hi: nat)
    requires Ascending(frames)
    ensures ClearedBelow(frames, hi) == if |frames| > 0 && frames[0] < hi then LeadingRun(frames, frames[0]) else 0
  {
    var k := ClearedBelow(frames, hi);
    ClearedBelowSpec(frames, hi, k);
    if |frames| > 0 && frames[0] < hi {
      assert k > 0;
      assert forall i :: 0 <= i < k ==> frames[i] == frames[0] by {
        forall i | 0 <= i < k ensures frames[i] == frames[0] {
          if i > 0 {
            assert frames[0] <= frames[i];
            assert frames[i] <= frames[0];
          }
        }
      }
      LeadingRunUnique(frames, frames[0], k);
    }
  }

  // ---------------------------------------------------------------- history_iter

  /** `history_iter(n)` can compute its threshold without u32 underflow. */
  predicate HistoryDefined(latest: u32, earliest: u32, n: u32)
  {
    n > earliest || n <= latest
  }

  /** The lowest frame `history_iter(n)` lets through: 0 once `n` exceeds the earliest
      frame (the lookback is clamped to the whole buffer), else `latest - n`. */
  function HistoryThreshold(latest: u32, earliest: u32, n: u32): (t: u32)
    requires HistoryDefined(latest, earliest, n)
    ensures t <= latest
    ensures n > earliest ==> t == 0
    ensures n <= earliest ==> t as int + n as int == latest as int
  {
    if n > earliest then 0 else latest - n
  }

  /** How many entries the history iterator yields before its first `None`: the maximal
      front prefix whose frames reach the threshold. */
  function HistoryLen(frames: seq<u32>, t: int): (k: nat)
    ensures k <= |frames|
  {
    if |frames| > 0 && frames[0] >= t then 1 + HistoryLen(frames[1..], t) else 0
  }

  /** The iterator yields only entries at or above the threshold, and its first `None`
      comes at the first entry below it (an old front entry hides everything behind it). */
  lemma {:induction false} HistoryLenSpec(frames: seq<u32>, t: int, k: nat)
    requires k == HistoryLen(frames, t)
    ensures forall i :: 0 <= i < k ==> frames[i] >= t
    ensures k < |frames| ==> frames[k] < t
  {
    if |frames| > 0 && frames[0] >= t {
      HistoryLenSpec(frames[1..], t, k - 1);
      forall i | 0 < i < k ensures frames[i] >= t {
        assert frames[i] == frames[1..][i - 1];
      }
      if k < |frames| {
        assert frames[k] == frames[1..][k - 1];
      }
    }
  }

  /** On ascending entries the iterator yields the whole buffer or nothing: the front
      entry is the oldest, and it alone decides. */
  lemma {:induction false} HistoryAscendingAllOrNothing(frames: seq<u32>, t: int)
    requires Ascending(frames)
    ensures HistoryLen(frames, t) == if |frames| > 0 && frames[0] < t then 0 else |frames|
  {
    if |frames| > 0 && frames[0] >= t {
      assert Ascending(frames[1..]) by {
        forall i, j | 0 <= i < j < |frames[1..]| ensures frames[1..][i] <= frames[1..][j] {
          assert frames[1..][i] == frames[i + 1] && frames[1..][j] == frames[j + 1];
        }
      }
      HistoryAscendingAllOrNothing(frames[1..], t);
      if |frames| > 1 {
        assert frames[0] <= frames[1];
      }
    }
  }

  // ---------------------------------------------------------------- push

  /** The earliest frame `push(frame)` measures the span from: 0 means "empty" and is
      replaced by the pushed frame. */
  function Start(w: Window, frame: u32): u32
  {
    if w.earliest == 0 then frame else w.earliest
  }

  /** `latest - earliest` in `push(frame)` does not underflow. */
  predicate PushDefined(w: Window, frame: u32)
  {
    w.earliest == 0 || w.earliest <= frame
  }

  /** `push(frame)` pops the front: the span hits the capacity exactly and the deque is not empty. */
  predicate Evicts(w: Window, frame: u32)
    requires PushDefined(w, frame)
  {
    frame - Start(w, frame) == w.capacity && |w.frames| > 0
  }

  /** What one `push(frame)` does to the bookkeeping: the new counters, how many front
      entries it removes and whether it appends the new entry. */
  datatype PushPlan = PushPlan(latest: u32, earliest: u32, drop: nat, append: bool)

  function PlanPush(w: Window, frame: u32): (p: PushPlan)
    requires PushDefined(w, frame)
    ensures p.latest == frame
    ensures p.drop <= |w.frames|
    ensures p.drop > 0 <==> Evicts(w, frame)
    // only the front frame group is evicted
    ensures forall i :: 0 <= i < p.drop ==> w.frames[i] == w.frames[0]
    ensures 0 < p.drop < |w.frames| ==> w.frames[p.drop] != w.frames[0]
    // earliest is reset to the new front, or keeps the start value when no front remains
    ensures 0 < p.drop < |w.frames| ==> p.earliest == w.frames[p.drop]
    ensures p.drop == 0 || p.drop == |w.frames| ==> p.earliest == Start(w, frame)
    // the new entry is lost exactly when the eviction pops the only entry
    ensures !p.append <==> Evicts(w, frame) && |w.frames| == 1
  {
    var start := Start(w, frame);
    if frame - start == w.capacity && |w.frames| > 0 then
      if |w.frames| == 1 then
        PushPlan(frame, start, 1, false)
      else
        var run := LeadingRun(w.frames[1..], w.frames[0]);
        LeadingRunSpec(w.frames[1..], w.frames[0], run);
        var rest := w.frames[1 + run..];
        assert forall i :: 1 <= i < 1 + run ==> w.frames[i] == w.frames[1..][i - 1];
        assert 1 + run < |w.frames| ==> w.frames[1 + run] == w.frames[1..][run];
        PushPlan(frame, if |rest| > 0 then rest[0] else start, 1 + run, true)
    else
      PushPlan(frame, start, 0, true)
  }

  /** The window after `push(frame)`. */
  function ApplyPush(w: Window, frame: u32): Window
    requires PushDefined(w, frame)
  {
    var p := PlanPush(w, frame);
    Window(p.latest, p.earliest, w.capacity, w.frames[p.drop..] + if p.append then [frame] else [])
  }

  /** Every push in `fs`, applied in order, is free of underflow. */
  ghost predicate PushAllDefined(w: Window, fs: seq<u32>)
    decreases |fs|
  {
    fs == [] || (PushDefined(w, fs[0]) && PushAllDefined(ApplyPush(w, fs[0]), fs[1..]))
  }

  /** The window after pushing every frame of `fs`, in order. */
  ghost function PushAll(w: Window, fs: seq<u32>): Window
    requires PushAllDefined(w, fs)
    decreases |fs|
  {
    if fs == [] then w else PushAll(ApplyPush(w, fs[0]), fs[1..])
  }

  /** Once the earliest frame is set, pushes whose frames lie beyond
      `earliest + capacity` never evict: the span passes the capacity without ever
      equalling it, so the buffer keeps every one of them. */
  lemma {:induction false} GapPushesNeverEvict(w: Window, fs: seq<u32>)
    requires w.earliest != 0
    requires forall i :: 0 <= i < |fs| ==> fs[i] > w.earliest + w.capacity
    ensures PushAllDefined(w, fs)
    ensures PushAll(w, fs).frames == w.frames + fs
    ensures PushAll(w, fs).earliest == w.earliest
    decreases |fs|
  {
    if fs != [] {
      var w' := ApplyPush(w, fs[0]);
      assert !Evicts(w, fs[0]);
      GapPushesNeverEvict(w', fs[1..]);
      assert w.frames + fs == (w.frames + [fs[0]]) + fs[1..];
    }
  }

  /** A window holding exactly the frames `earliest .. latest`, one entry each, with a
      span below the capacity. */
  ghost predicate Contiguous(w: Window)
  {
    && 1 <= w.earliest <= w.latest
    && w.latest - w.earliest < w.capacity
    && |w.frames| == w.latest - w.earliest + 1
    && forall i :: 0 <= i < |w.frames| ==> w.frames[i] == w.earliest + i
  }

  /** The first push of a frame `>= 1` into an empty window opens a contiguous window
      holding just that frame. */
  lemma FirstPushOpensWindow(w: Window, frame: u32)
    requires w.earliest == 0 && w.frames == [] && w.capacity >= 1 && frame >= 1
    ensures PushDefined(w, frame)
    ensures Contiguous(ApplyPush(w, frame))
    ensures ApplyPush(w, frame).frames == [frame]
  {
  }

  /** Pushing the next frame keeps a contiguous window contiguous, so a buffer fed
      consecutive frames never holds more than `capacity` frames (the oldest is evicted
      once the span reaches the capacity). A capacity of 1 is excluded: there the
      eviction pops the only entry and the push is lost. */
  lemma ConsecutivePushKeepsWindow(w: Window)
    requires Contiguous(w) && w.capacity >= 2 && w.latest < U32_MAX
    ensures PushDefined(w, w.latest + 1)
    ensures Contiguous(ApplyPush(w, w.latest + 1))
    ensures |ApplyPush(w, w.latest + 1).frames| <= w.capacity
  {
    var frame: u32 := w.latest + 1;
    var p := PlanPush(w, frame);
    if Evicts(w, frame) {
      assert |w.frames| == w.capacity;
      assert w.frames[1] != w.frames[0];
      assert p.drop == 1;
    }
  }

  // ---------------------------------------------------------------- grow / shrink

  /** `grow(size)` does not overflow the u32 capacity. */
  predicate GrowDefined(w: Window, size: u32)
  {
    w.capacity + size <= U32_MAX
  }

  function ApplyGrow(w: Window, size: u32): Window
    requires GrowDefined(w, size)
  {
    w.(capacity := w.capacity + size)
  }

  /** `shrink(size)` does not underflow the u32 capacity. */
  predicate ShrinkDefined(w: Window, size: u32)
  {
    size <= w.capacity
  }

  /** How many front entries `shrink(size)` removes: the loop over `(0..latest - capacity').rev()`
      when the latest frame exceeds the new capacity, else none. */
  function ShrinkDrop(w: Window, size: u32): (k: nat)
    requires ShrinkDefined(w, size)
    ensures k <= |w.frames|
  {
    var capacity := w.capacity - size;
    if w.latest > capacity then ClearedBelow(w.frames, w.latest - capacity) else 0
  }

  function ApplyShrink(w: Window, size: u32): Window
    requires ShrinkDefined(w, size)
  {
    Window(w.latest, w.earliest, w.capacity - size, w.frames[ShrinkDrop(w, size)..])
  }

  /** On an ascending buffer, `shrink` lowers the capacity, keeps both frame counters
      (earliest is not updated even when its entries go), and removes the front frame
      group exactly when its frame is below `latest - capacity'`. */
  lemma ShrinkAscending(w: Window, size: u32)
    requires ShrinkDefined(w, size) && Ascending(w.frames)
    ensures var r := ApplyShrink(w, size);
      && r.capacity == w.capacity - size
      && r.latest == w.latest && r.earliest == w.earliest
      && r.frames == w.frames[(if |w.frames| > 0 && w.frames[0] + r.capacity < w.latest
                               then LeadingRun(w.frames, w.frames[0]) else 0)..]
  {
    var capacity := w.capacity - size;
    if w.latest > capacity {
      ClearedBelowAscending(w.frames, w.latest - capacity);
    }
  }

  /** Growing only raises the capacity; the entries and counters stay. */
  lemma GrowOnlyRaisesCapacity(w: Window, size: u32)
    requires GrowDefined(w, size)
    ensures ApplyGrow(w, size).frames == w.frames
    ensures ApplyGrow(w, size).capacity == w.capacity + size
    ensures ApplyGrow(w, size).latest == w.latest && ApplyGrow(w, size).earliest == w.earliest
  {
  }
}
