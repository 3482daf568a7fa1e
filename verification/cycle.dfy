/**
 * Frame cycling of the animated renderers: a frame stays up until the time since the
 * last change reaches its delay, then the next frame follows, wrapping to 0 after the
 * last one. The clock is a parameter: `now` is the reading of `Instant::now()` in
 * milliseconds.
 */
module FrameCycle {
  import opened Arith

  /** The shown frame and the clock reading at the last change. */
  datatype Cycle = Cycle(current: nat, lastUpdate: nat)

  /** The frame after `current`: `current + 1`, or 0 once that reaches `len`. */
  function Next(current: nat, len: nat): (r: nat)
    requires current < len
    ensures r < len
    ensures r == (current + 1) % len
  {
    ModStep(current, len);
    ModSmall(current, len);
    if current + 1 >= len then 0 else current + 1
  }

  /** One draw's worth of cycling: when at least `wait` milliseconds have passed since the
      last change, move to the next frame, restart the timer and report whether the
      animation wrapped around; otherwise change nothing and report false. */
  function Tick(c: Cycle, len: nat, wait: nat, now: nat): (r: (Cycle, bool))
    requires c.current < len && c.lastUpdate <= now
    ensures r.0.current < len && r.0.lastUpdate <= now
    ensures now - c.lastUpdate < wait ==> r == (c, false)
    ensures now - c.lastUpdate >= wait ==>
      r.0 == Cycle((c.current + 1) % len, now) && (r.1 <==> c.current == len - 1)
  {
    if now - c.lastUpdate >= wait then
      var next := c.current + 1;
      var ended := next >= len;
      (Cycle(Next(c.current, len), now), ended)
    else (c, false)
  }

  /** The frame shown after `k` changes starting from `start`. */
  function Advanced(start: nat, len: nat, k: nat): (r: nat)
    requires start < len
    ensures r < len
  {
    if k == 0 then start else Next(Advanced(start, len, k - 1), len)
  }

  /** After `k` changes the animation shows frame `(start + k) % len`: it plays every frame
      in order and starts over after the last. */
  lemma {:induction false} AdvancedIsModular(start: nat, len: nat, k: nat)
    requires start < len
    ensures Advanced(start, len, k) == (start + k) % len
  {
    if k == 0 {
      ModSmall(start, len);
    } else {
      AdvancedIsModular(start, len, k - 1);
      var prev := Advanced(start, len, k - 1);
      ModStep(start + k - 1, len);
      ModStep(prev, len);
      ModSmall(prev, len);
    }
  }

  /** Exactly `len` changes bring the animation back to the frame it started on. */
  lemma FullCycle(start: nat, len: nat)
    requires start < len
    ensures Advanced(start, len, len) == start
  {
    AdvancedIsModular(start, len, len);
    ModOnce(start + len, len);
  }
}
