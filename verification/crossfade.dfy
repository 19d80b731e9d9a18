/**
  The cross-fade engine at the end of `loop`: the `transition` flag, the
  8-bit progress counter `pct`, and the three frame buffers `leds` (what the
  strip shows), `prevLeds` (the snapshot taken on Enter) and `nextLeds` (the
  target preset).

  FastLED's `blend` is not part of this model; it is a parameter, so nothing
  here depends on how it rounds. `old_pct` is always reassigned from `pct`
  before it is read, so it is a local of `Advance`.
 */
module CrossFade {
  import opened Units
  import opened Preset

  /** `blend(a, b, amount)` on one LED. */
  type Blend = (Color, Color, Byte) -> Color

  datatype Fade = Fade(active: bool, pct: Byte, leds: Frame, prev: Frame, next: Frame)

  /** Progress added per active tick. */
  const FadeStep: Byte := 2

  /** The progress value the firmware tests for as "finished". */
  const FullProgress: Byte := 255

  /** All three buffers hold `n` LEDs. */
  predicate Shaped(f: Fade, n: nat) {
    |f.leds| == n && |f.prev| == n && |f.next| == n
  }

  /** The reachable states: progress is even, and zero whenever idle. */
  predicate Valid(f: Fade, n: nat) {
    Shaped(f, n) && f.pct % 2 == 0 && (!f.active ==> f.pct == 0)
  }

  /** The engine at boot: idle, no progress, `leds` as the boot animation
      left them, and the other two buffers black (zero-initialised globals). */
  function Initial(leds: Frame): (f: Fade)
    ensures Valid(f, |leds|)
    ensures !f.active && f.leds == leds
  {
    Fade(false, 0, leds, Solid(|leds|, Black), Solid(|leds|, Black))
  }

  /** `blend(prevLeds, nextLeds, leds, n, pct)`: every LED blended
      independently at the same amount. */
  function BlendFrame(prev: Frame, next: Frame, pct: Byte, blend: Blend): (r: Frame)
    requires |prev| == |next|
    ensures |r| == |prev|
    ensures forall i :: 0 <= i < |r| ==> r[i] == blend(prev[i], next[i], pct)
  {
    seq(|prev|, i requires 0 <= i < |prev| => blend(prev[i], next[i], pct))
  }

  /** The Enter arm: snapshot what the strip shows into `prevLeds`, install
      the target and raise `transition`. The progress is NOT reset, so a
      transition re-armed midway keeps its progress and fades onward from
      the partly blended frame. */
  function Arm(f: Fade, target: Frame): (r: Fade)
    ensures r.active && r.pct == f.pct
    ensures r.prev == f.leds && r.next == target && r.leds == f.leds
  {
    f.(active := true, prev := f.leds, next := target)
  }

  /** One tick of the `if (transition)` block. An idle engine is untouched.
      An active one adds 2 to `pct` modulo 256 and finishes when that lands
      on 255 or wraps below the old value: then it is idle again with
      `pct` 0 and the strip showing the target exactly. Otherwise the strip
      shows the blend at the new progress. */
  function Advance(f: Fade, blend: Blend): (r: Fade)
    requires |f.prev| == |f.next|
    ensures !f.active ==> r == f
    ensures r.prev == f.prev && r.next == f.next
    ensures f.active && !r.active ==> r.pct == 0 && r.leds == f.next
    ensures f.active && r.active ==> r.pct == f.pct + FadeStep
    ensures r.active ==> r.leds == BlendFrame(f.prev, f.next, r.pct, blend)
    ensures f.active ==> (r.active <==> f.pct + FadeStep < FullProgress)
    ensures forall n: nat :: Valid(f, n) ==> Valid(r, n)
  {
    if !f.active then
      f
    else
      var oldPct := f.pct;
      var pct := AddByte(f.pct, FadeStep);
      if pct == FullProgress || oldPct > pct then
        f.(active := false, pct := 0, leds := f.next)
      else
        f.(pct := pct, leds := BlendFrame(f.prev, f.next, pct, blend))
  }

  /** The engine after `k` loop ticks. */
  function Steps(f: Fade, k: nat, blend: Blend): Fade
    requires |f.prev| == |f.next|
    decreases k
  {
    if k == 0 then f else Steps(Advance(f, blend), k - 1, blend)
  }

  /** Progress starting from an even value is never 255, and neither is the
      incremented value the firmware compares with 255, so the "== 255" exit
      is never the one taken: every transition ends through the wrap-around. */
  lemma {:induction false} ProgressNeverFull(f: Fade, n: nat, k: nat, blend: Blend)
    requires Valid(f, n)
    ensures Valid(Steps(f, k, blend), n)
    ensures Steps(f, k, blend).pct != FullProgress
    ensures Steps(f, k, blend).active ==> AddByte(Steps(f, k, blend).pct, FadeStep) != FullProgress
    decreases k
  {
    if k > 0 {
      ProgressNeverFull(Advance(f, blend), n, k - 1, blend);
    }
  }

  /** While it runs, an active transition from progress `p` shows after `k`
      ticks the blend at `p + 2k`, for every `k` up to the last tick before
      the counter wraps. */
  lemma {:induction false} StepsWhileActive(f: Fade, n: nat, k: nat, blend: Blend)
    requires Valid(f, n) && f.active
    requires 1 <= k && f.pct + FadeStep * k < FullProgress
    ensures Steps(f, k, blend) == f.(pct := f.pct + FadeStep * k,
                                      leds := BlendFrame(f.prev, f.next, f.pct + FadeStep * k, blend))
    decreases k
  {
    var g := Advance(f, blend);
    if k > 1 {
      StepsWhileActive(g, n, k - 1, blend);
    }
  }

  /** Ticks still needed by an active transition at even progress `p`. */
  function TicksToFinish(p: Byte): nat
  {
    (256 - p) / 2
  }

  /** An active transition at even progress `p` is idle again after exactly
      `(256 - p) / 2` ticks, with progress 0 and the strip showing the target
      exactly; one tick earlier it is still running. */
  lemma {:induction false} FinishesAfterTicksToFinish(f: Fade, n: nat, blend: Blend)
    requires Valid(f, n) && f.active
    ensures TicksToFinish(f.pct) >= 1
    ensures var done := Steps(f, TicksToFinish(f.pct), blend);
            !done.active && done.pct == 0 && done.leds == f.next
    ensures TicksToFinish(f.pct) > 1 ==> Steps(f, TicksToFinish(f.pct) - 1, blend).active
    decreases TicksToFinish(f.pct)
  {
    if f.pct + FadeStep < FullProgress {
      var g := Advance(f, blend);
      assert TicksToFinish(g.pct) == TicksToFinish(f.pct) - 1;
      FinishesAfterTicksToFinish(g, n, blend);
    }
  }

  /** A transition started at progress 0 (as every transition from idle is)
      runs 127 ticks blending at 2, 4, ..., 254 and finishes on the 128th
      tick with the strip showing the target exactly. */
  lemma FromZeroFinishesOn128thTick(f: Fade, n: nat, blend: Blend)
    requires Valid(f, n) && f.active && f.pct == 0
    ensures forall k :: 1 <= k < 128 ==>
              Steps(f, k, blend).active && Steps(f, k, blend).pct == 2 * k
              && Steps(f, k, blend).leds == BlendFrame(f.prev, f.next, 2 * k, blend)
    ensures !Steps(f, 128, blend).active
    ensures Steps(f, 128, blend).pct == 0 && Steps(f, 128, blend).leds == f.next
  {
    forall k | 1 <= k < 128
      ensures Steps(f, k, blend).active && Steps(f, k, blend).pct == 2 * k
      ensures Steps(f, k, blend).leds == BlendFrame(f.prev, f.next, 2 * k, blend)
    {
      StepsWhileActive(f, n, k, blend);
    }
    FinishesAfterTicksToFinish(f, n, blend);
  }
}
