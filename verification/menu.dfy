/**
  The menu selector `menuItem` (a `byte` starting at MENU_ITEM_ALL), moved
  by Up and Down with clamping at both ends, and the marker choice of
  `drawMenu`, which prefixes the selected row with "->" and every other row
  with two spaces.
 */
module Menu {
  import opened Units
  import opened Input

  const ItemOff: Byte := 0
  const ItemAll: Byte := 1
  const ItemLeft: Byte := 2
  const ItemCenter: Byte := 3
  const ItemRight: Byte := 4
  const ItemCount: Byte := ItemRight + 1

  /** The selector at boot. */
  const InitialItem: Byte := ItemAll

  /** The selector names one of the five presets. */
  predicate InRange(m: Byte) {
    m < ItemCount
  }

  /** The `BUTTON_UP` and `BUTTON_DOWN` arms of the switch in `loop`: Up
      moves towards the first item, Down towards the last, each by at most
      one and never past the end; Enter and None leave the selector alone. */
  function Navigate(m: Byte, b: Button): (r: Byte)
    ensures InRange(m) ==> InRange(r)
    ensures b == Up ==> r <= m && m - r <= 1 && (r == m <==> m == 0)
    ensures b == Down ==> r >= m && r - m <= 1 && (r == m <==> m >= ItemCount - 1)
    ensures b == Enter || b == None ==> r == m
  {
    match b
    case Up => if m > 0 then m - 1 else m
    case Down => if m < ItemCount - 1 then m + 1 else m
    case _ => m
  }

  /** The selector after a sequence of button events, in order. */
  function NavigateAll(m: Byte, bs: seq<Button>): Byte
    decreases |bs|
  {
    if |bs| == 0 then m else NavigateAll(Navigate(m, bs[0]), bs[1..])
  }

  /** Whatever buttons arrive, the selector starting in range stays in
      [0, 4]. */
  lemma {:induction false} NavigateAllStaysInRange(m: Byte, bs: seq<Button>)
    requires InRange(m)
    ensures InRange(NavigateAll(m, bs))
    decreases |bs|
  {
    if |bs| > 0 {
      NavigateAllStaysInRange(Navigate(m, bs[0]), bs[1..]);
    }
  }

  /** Away from the ends, Up undoes Down and Down undoes Up. */
  lemma UpDownAreInverse(m: Byte)
    ensures m < ItemCount - 1 ==> Navigate(Navigate(m, Down), Up) == m
    ensures 0 < m <= ItemCount - 1 ==> Navigate(Navigate(m, Up), Down) == m
  {
  }

  /** Enough Up presses reach the first item from anywhere in range and
      further ones keep it there. */
  lemma {:induction false} UpsReachFirstItem(m: Byte, k: nat)
    requires InRange(m)
    requires k >= m
    ensures NavigateAll(m, seq(k, _ => Up)) == ItemOff
    decreases k
  {
    if k > 0 {
      var ups := seq(k, _ => Up);
      assert ups[0] == Up;
      assert ups[1..] == seq(k - 1, _ => Up);
      UpsReachFirstItem(Navigate(m, Up), k - 1);
    }
  }

  /** Row labels of `drawMenu`, in menu order. */
  const Labels: seq<string> := ["Off", "All", "Left", "Center", "Right"]

  const Marker: string := "->"
  const Blank: string := "  "

  /** The text of menu row `i` when item `m` is selected. */
  function Row(m: Byte, i: nat): string
    requires i < |Labels|
  {
    (if m == i then Marker else Blank) + Labels[i]
  }

  /** The lines `drawMenu` prints: a title, a rule, and one row per item. */
  function MenuLines(m: Byte): (r: seq<string>)
    ensures |r| == 2 + |Labels|
    ensures r[0] == "White LED Menu" && r[1] == "--------"
    ensures forall i :: 0 <= i < |Labels| ==> r[2 + i] == Row(m, i)
  {
    ["White LED Menu", "--------"] + seq(|Labels|, i requires 0 <= i < |Labels| => Row(m, i))
  }

  /** Whether a printed row carries the selection marker. */
  predicate Marked(line: string) {
    |line| >= |Marker| && line[..|Marker|] == Marker
  }

  /** Exactly the selected row carries the marker, and every row keeps its
      label at the same column, so the marker never shifts the text. An
      out-of-range selector marks no row. (`MenuLines` places row `i` at
      line `2 + i`.) */
  lemma MarkerOnSelectedRowOnly(m: Byte)
    ensures forall i :: 0 <= i < |Labels| ==> (Marked(Row(m, i)) <==> m == i)
    ensures forall i :: 0 <= i < |Labels| ==> Row(m, i)[|Marker|..] == Labels[i]
  {
  }
}
