/**
  The debounced input cell written by the button interrupt handlers
  (`handleInput`) and read once per main-loop tick.

  The cell is the pair of globals `buttonPressed` (one pending button, last
  writer wins, nothing queued) and `last_interrupt_time` (one timestamp per
  button id). The firmware declares that table with three slots although the
  Enter button has id 3; `Press` keeps the C index precondition, so the
  declared table cannot serve Enter (see `DeclaredTableMissesEnter`) and the
  rest of the model uses a table with one slot per id.
 */
module Input {
  import opened Units

  /** BUTTON_NONE, BUTTON_UP, BUTTON_DOWN and BUTTON_ENTER. */
  datatype Button = None | Up | Down | Enter

  /** The numeric id the firmware stores for each button. */
  function Id(b: Button): (n: nat)
    ensures n < IntendedSlots
    ensures n == 0 <==> b == None
  {
    match b
    case None => 0
    case Up => 1
    case Down => 2
    case Enter => 3
  }

  /** Presses of the same button closer together than this are bounces. */
  const DebounceMs: int := 200

  /** Length of `last_interrupt_time` as declared. */
  const DeclaredSlots: nat := 3

  /** One timestamp per button id, so that every id indexes the table. */
  const IntendedSlots: nat := 4

  datatype Cell = Cell(pending: Button, last: seq<Word>)

  /** The shape of the cell the rest of the model works with. */
  predicate Valid(c: Cell) {
    |c.last| == IntendedSlots
  }

  /** The cell at boot: nothing pending, every timestamp zero. */
  function Initial(): (c: Cell)
    ensures Valid(c) && c.pending == None
    ensures forall j :: 0 <= j < |c.last| ==> c.last[j] == 0
  {
    Cell(None, [0, 0, 0, 0])
  }

  /** The debounce test of `handleInput`: strictly more than the window has
      elapsed, measured with wrapping 32-bit subtraction. */
  predicate Accepts(c: Cell, b: Button, now: Word)
    requires Id(b) < |c.last|
  {
    SubWord(now, c.last[Id(b)]) > DebounceMs
  }

  /** `handleInput(button)` at time `now` (the value `millis()` returns).
      The cell changes exactly when the press is accepted; an accepted press
      restamps only its own slot and overwrites whatever was pending. */
  function Press(c: Cell, b: Button, now: Word): (r: Cell)
    requires Id(b) < |c.last|
    ensures |r.last| == |c.last|
    ensures r != c <==> Accepts(c, b, now)
    ensures r != c ==> r.pending == b && r.last[Id(b)] == now
    ensures forall j :: 0 <= j < |c.last| && j != Id(b) ==> r.last[j] == c.last[j]
  {
    if SubWord(now, c.last[Id(b)]) > DebounceMs then
      Cell(b, c.last[Id(b) := now])
    else
      c
  }

  /** The read-and-clear the main loop performs on `buttonPressed`: the
      pending button, and the cell with nothing pending. */
  function Consume(c: Cell): (r: (Button, Cell))
    ensures r.0 == c.pending
    ensures r.1.pending == None && r.1.last == c.last
  {
    (c.pending, c.(pending := None))
  }

  /** The declared three-slot table cannot be indexed by Enter: no cell with
      a table of that length meets `Press`'s index precondition for Enter,
      while Up and Down do meet it. */
  lemma DeclaredTableMissesEnter(c: Cell)
    requires |c.last| == DeclaredSlots
    ensures !(Id(Enter) < |c.last|)
    ensures Id(Up) < |c.last| && Id(Down) < |c.last|
  {
  }

  /** With one slot per id every button, Enter included, can be pressed, and
      pressing keeps the cell's shape. */
  lemma IntendedTableServesEveryButton(c: Cell, b: Button, now: Word)
    requires Valid(c)
    ensures Id(b) < |c.last|
    ensures Valid(Press(c, b, now))
  {
  }

  /** The debounce window is wraparound-safe: a press `d` milliseconds after
      the last accepted press of the same button is accepted exactly when
      `d` exceeds 200, even when the 32-bit clock wrapped in between. In
      particular a press exactly 200 ms later is rejected. */
  lemma AcceptedIffWindowElapsed(c: Cell, b: Button, d: Word)
    requires Id(b) < |c.last|
    ensures Accepts(c, b, AdvanceWord(c.last[Id(b)], d)) <==> d > DebounceMs
  {
    SubUndoesAdvance(c.last[Id(b)], d);
  }

  /** A second press of the same button within 200 ms of an accepted one is
      discarded: it leaves the cell exactly as the first press left it. */
  lemma RepeatWithinWindowDiscarded(c: Cell, b: Button, t: Word, d: Word)
    requires Id(b) < |c.last|
    requires Accepts(c, b, t)
    requires d <= DebounceMs
    ensures Press(Press(c, b, t), b, AdvanceWord(t, d)) == Press(c, b, t)
  {
  }

  /** Last writer wins: when two presses are both accepted the pending slot
      holds the second button, whatever the first one or the earlier pending
      value was; nothing is queued. */
  lemma LastWriterWins(c: Cell, b1: Button, t1: Word, b2: Button, t2: Word)
    requires Id(b1) < |c.last| && Id(b2) < |c.last|
    requires Accepts(Press(c, b1, t1), b2, t2)
    ensures Press(Press(c, b1, t1), b2, t2).pending == b2
  {
  }

  /** Presses of different buttons are debounced independently: a press of
      `b1` never changes whether a press of another button `b2` is accepted. */
  lemma DebounceIsPerButton(c: Cell, b1: Button, t1: Word, b2: Button, t2: Word)
    requires Id(b1) < |c.last| && Id(b2) < |c.last|
    requires b1 != b2
    ensures Accepts(Press(c, b1, t1), b2, t2) <==> Accepts(c, b2, t2)
  {
  }

  /** Consuming reports the pending button once: the next consume with no
      accepted press in between reports `None`. */
  lemma ConsumeReportsOnce(c: Cell)
    ensures Consume(Consume(c).1).0 == None
  {
  }
}
