/**
  The whole firmware state threaded through `loop`: the input cell written
  by the interrupt handlers, the menu selector and the cross-fade engine.
  One loop tick and one interrupt handler call are each an atomic step;
  `millis()` is the time carried by each interrupt event.
 */
module Firmware {
  import opened Units
  import Input
  import opened Menu
  import opened Preset
  import CrossFade

  datatype App = App(input: Input.Cell, menu: Byte, fade: CrossFade.Fade)

  /** The states the firmware can reach on an `n`-LED strip. */
  predicate Valid(a: App, n: nat) {
    Input.Valid(a.input) && InRange(a.menu) && CrossFade.Valid(a.fade, n)
  }

  /** The initial values of the globals, the state in which `setup` attaches
      the interrupt handlers: nothing pending, every debounce timestamp zero,
      menu at All, no transition, and the strip showing `leds`. Presses that
      arrive during the boot animation are `Interrupt` events at the start of
      a `Run` from here. */
  function Initial(leds: Frame): (a: App)
    ensures Valid(a, |leds|)
    ensures a.input.pending == Input.None && a.menu == ItemAll
    ensures !a.fade.active && a.fade.leds == leds
  {
    App(Input.Initial(), InitialItem, CrossFade.Initial(leds))
  }

  /** The `switch (buttonPressed)` of `loop` on the button just consumed. */
  function Dispatch(a: App, b: Input.Button, n: nat): App
  {
    match b
    case Enter => a.(fade := CrossFade.Arm(a.fade, Resolve(a.menu, n)))
    case _ => a.(menu := Navigate(a.menu, b))
  }

  /** One call of `loop`: consume the pending button, act on it, clear it,
      and advance the cross-fade. Afterwards nothing is pending and the
      timestamps are untouched; the menu moved as the button says. On Enter
      the fade restarts from the frame the strip was showing towards the
      selected preset, keeping its progress, and advances in this same tick.
      Whatever else was consumed, a running fade advances by one step and an
      idle fade and the strip stay as they were. */
  function Tick(a: App, n: nat, blend: CrossFade.Blend): (r: App)
    requires CrossFade.Shaped(a.fade, n)
    ensures CrossFade.Shaped(r.fade, n)
    ensures r.input.pending == Input.None && r.input.last == a.input.last
    ensures r.menu == Navigate(a.menu, a.input.pending)
    ensures a.input.pending == Input.Enter ==>
              r.fade.prev == a.fade.leds && r.fade.next == Resolve(a.menu, n)
              && (r.fade.active ==> r.fade.pct == a.fade.pct + CrossFade.FadeStep)
    ensures a.input.pending != Input.Enter && !a.fade.active ==> r.fade == a.fade
    ensures a.input.pending != Input.Enter ==> r.fade == CrossFade.Advance(a.fade, blend)
    ensures a.input.pending == Input.Enter ==>
              r.fade == CrossFade.Advance(CrossFade.Arm(a.fade, Resolve(a.menu, n)), blend)
    ensures Valid(a, n) ==> Valid(r, n)
  {
    var (b, input) := Input.Consume(a.input);
    var d := Dispatch(a.(input := input), b, n);
    d.(fade := CrossFade.Advance(d.fade, blend))
  }

  /** What can happen next: an interrupt handler runs for a button at a
      given `millis()` value, or `loop` runs once. */
  datatype Event = Interrupt(button: Input.Button, now: Word) | LoopTick

  /** The state after one event. */
  function Apply(a: App, e: Event, n: nat, blend: CrossFade.Blend): App
    requires Valid(a, n)
  {
    match e
    case Interrupt(b, now) => a.(input := Input.Press(a.input, b, now))
    case LoopTick => Tick(a, n, blend)
  }

  /** The state after a sequence of events. Every reachable state is valid:
      in particular the menu selector never leaves [0, 4] and every button
      has its debounce slot. */
  function Run(a: App, es: seq<Event>, n: nat, blend: CrossFade.Blend): (r: App)
    requires Valid(a, n)
    ensures Valid(r, n)
    decreases |es|
  {
    if |es| == 0 then a else Run(Apply(a, es[0], n, blend), es[1..], n, blend)
  }

  /** Running `e` followed by `rest` is running `rest` after `e`. */
  lemma RunFirst(a: App, e: Event, rest: seq<Event>, n: nat, blend: CrossFade.Blend)
    requires Valid(a, n)
    ensures Run(a, [e] + rest, n, blend) == Run(Apply(a, e, n, blend), rest, n, blend)
  {
    assert ([e] + rest)[1..] == rest;
  }

  /** `k` loop ticks with no interrupt in between. */
  function Ticks(k: nat): (es: seq<Event>)
    ensures |es| == k && forall i :: 0 <= i < k ==> es[i] == LoopTick
  {
    seq(k, _ => LoopTick)
  }

  /** With nothing pending, loop ticks only drive the cross-fade. */
  lemma {:induction false} QuietTicksOnlyFade(a: App, n: nat, k: nat, blend: CrossFade.Blend)
    requires Valid(a, n) && a.input.pending == Input.None
    ensures Run(a, Ticks(k), n, blend) == a.(fade := CrossFade.Steps(a.fade, k, blend))
    decreases k
  {
    if k > 0 {
      assert Ticks(k)[1..] == Ticks(k - 1);
      var a' := Tick(a, n, blend);
      assert a' == a.(fade := CrossFade.Advance(a.fade, blend));
      QuietTicksOnlyFade(a', n, k - 1, blend);
    }
  }

  /** After an Enter is pending, the strip shows the selected preset exactly
      after `TicksToFinish(pct)` loop ticks, the Enter tick included: 128
      ticks when the fade was idle, fewer when Enter re-arms a transition
      already under way, because the progress is not reset. */
  lemma EnterShowsPreset(a: App, n: nat, blend: CrossFade.Blend)
    requires Valid(a, n) && a.input.pending == Input.Enter
    ensures !a.fade.active ==> CrossFade.TicksToFinish(a.fade.pct) == 128
    ensures var r := Run(a, Ticks(CrossFade.TicksToFinish(a.fade.pct)), n, blend);
            !r.fade.active && r.fade.pct == 0 && r.fade.leds == Resolve(a.menu, n)
            && r.menu == a.menu && r.input.pending == Input.None && r.input.last == a.input.last
  {
    var k := CrossFade.TicksToFinish(a.fade.pct);
    var armed := CrossFade.Arm(a.fade, Resolve(a.menu, n));
    CrossFade.FinishesAfterTicksToFinish(armed, n, blend);
    var a1 := Tick(a, n, blend);
    assert a1 == a.(input := a1.input, fade := CrossFade.Advance(armed, blend));
    assert Ticks(k)[1..] == Ticks(k - 1);
    assert Run(a, Ticks(k), n, blend) == Run(a1, Ticks(k - 1), n, blend);
    QuietTicksOnlyFade(a1, n, k - 1, blend);
  }

  /** Six LEDs, the boot menu item (All), and Enter pressed twice within
      200 ms: the second press is discarded as a bounce (the state after both
      presses is the state after the first, and Enter's timestamp stays `t`),
      and after 128 loop ticks the single transition has finished with every
      LED white. */
  lemma DoubleEnterScenario(leds: Frame, t: Word, d: Word, blend: CrossFade.Blend)
    requires |leds| == 6
    requires t > Input.DebounceMs && d <= Input.DebounceMs
    ensures var a := Initial(leds);
            var first := Interrupt(Input.Enter, t);
            Run(a, [first, Interrupt(Input.Enter, AdvanceWord(t, d))], 6, blend) == Run(a, [first], 6, blend)
    ensures var a := Initial(leds);
            var es := [Interrupt(Input.Enter, t), Interrupt(Input.Enter, AdvanceWord(t, d))] + Ticks(128);
            Run(a, es, 6, blend).input.last[Input.Id(Input.Enter)] == t
    ensures var a := Initial(leds);
            var es := [Interrupt(Input.Enter, t), Interrupt(Input.Enter, AdvanceWord(t, d))] + Ticks(128);
            var r := Run(a, es, 6, blend);
            !r.fade.active && r.fade.leds == Solid(6, White)
  {
    var a := Initial(leds);
    var first := Interrupt(Input.Enter, t);
    var second := Interrupt(Input.Enter, AdvanceWord(t, d));
    assert Input.Accepts(a.input, Input.Enter, t);
    var a1 := Apply(a, first, 6, blend);
    Input.RepeatWithinWindowDiscarded(a.input, Input.Enter, t, d);
    assert Apply(a1, second, 6, blend) == a1;
    RunFirst(a, first, [], 6, blend);
    RunFirst(a1, second, [], 6, blend);
    assert [first, second] == [first] + ([second] + []);
    RunFirst(a, first, [second], 6, blend);
    assert [first] == [first] + [];
    var es := [first, second] + Ticks(128);
    assert es == [first] + ([second] + Ticks(128));
    RunFirst(a, first, [second] + Ticks(128), 6, blend);
    RunFirst(a1, second, Ticks(128), 6, blend);
    EnterShowsPreset(a1, 6, blend);
    OffAndAllAreUniform(6);
  }
}
