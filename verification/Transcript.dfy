/** An unbounded record of everything written to the text console: rows are only ever added.
    The 25-line screen is its end. */
module Transcript {
  import opened Bytes

  const WIDTH: nat := 80
  const HEIGHT: nat := 25
  const NEWLINE: Byte := 10
  const RETURN: Byte := 13
  const SPACE: Byte := 32

  function Entry(c: Byte, color: Byte): nat { c + 256 * color }

  type Row = r: seq<nat> | |r| == WIDTH witness seq(WIDTH, _ => 0)

  function Blank(color: Byte): Row {
    seq(WIDTH, _ => Entry(SPACE, color))
  }

  datatype Record = Record(rows: seq<Row>, row: nat, col: nat) {
    predicate Valid() {
      |rows| >= HEIGHT && |rows| - HEIGHT <= row < |rows| && col < WIDTH
    }

    /** Rows that have left the screen. */
    function Gone(): nat
      requires Valid()
    {
      |rows| - HEIGHT
    }

    function Screen(): (s: seq<nat>)
      requires Valid()
      ensures |s| == WIDTH * HEIGHT
    {
      seq(WIDTH * HEIGHT, i requires 0 <= i < WIDTH * HEIGHT => rows[Gone() + i / WIDTH][i % WIDTH])
    }
  }

  lemma ScreenAt(t: Record, i: nat)
    requires t.Valid() && i < WIDTH * HEIGHT
    ensures t.Screen()[i] == t.rows[t.Gone() + i / WIDTH][i % WIDTH]
  {
  }

  function Cleared(color: Byte): (t: Record)
    ensures t.Valid()
  {
    Record(seq(HEIGHT, _ => Blank(color)), 0, 0)
  }

  function NewLine(t: Record, color: Byte): (u: Record)
    requires t.Valid()
    ensures u.Valid()
  {
    Record(if t.row + 1 == |t.rows| then t.rows + [Blank(color)] else t.rows, t.row + 1, 0)
  }

  function PutChar(t: Record, c: Byte, color: Byte): (u: Record)
    requires t.Valid()
    ensures u.Valid()
  {
    if c == NEWLINE then NewLine(t, color)
    else if c == RETURN then t.(col := 0)
    else
      var w := t.(rows := t.rows[t.row := t.rows[t.row][t.col := Entry(c, color)]]);
      if t.col + 1 == WIDTH then NewLine(w, color) else w.(col := t.col + 1)
  }

  function Puts(t: Record, text: seq<Byte>, color: Byte): (u: Record)
    requires t.Valid()
    ensures u.Valid()
    decreases |text|
  {
    if |text| == 0 then t else PutChar(Puts(t, text[..|text| - 1], color), text[|text| - 1], color)
  }

  /** One character: a newline goes on to the start of the next row, a carriage return back to the
      start of this one, anything else stands at the cursor with its colour above it. No other cell
      changes, and a row is added, blank, only behind the last. */
  lemma PutCharMeans(t: Record, c: Byte, color: Byte)
    requires t.Valid()
    ensures var u := PutChar(t, c, color);
            var breaks := c == 10 || (c != 13 && t.col == 79);
            && u.row == (if breaks then t.row + 1 else t.row)
            && u.col == (if breaks || c == 13 then 0 else t.col + 1)
            && |u.rows| == (if breaks && t.row + 1 == |t.rows| then |t.rows| + 1 else |t.rows|)
            && (forall r, k :: 0 <= r < |t.rows| && 0 <= k < 80 ==>
                  u.rows[r][k] == if c != 10 && c != 13 && r == t.row && k == t.col then c + 256 * color else t.rows[r][k])
            && (|u.rows| > |t.rows| ==> forall k :: 0 <= k < 80 ==> u.rows[|t.rows|][k] == 32 + 256 * color)
  {
  }

  /** A carriage return and up to 79 further characters overwrite the front of the row: the cells
      behind them and every other row keep what they showed. */
  lemma {:induction false} Overwritten(t: Record, text: seq<Byte>, color: Byte)
    requires t.Valid() && |text| < 80 && forall i :: 0 <= i < |text| ==> text[i] != 10 && text[i] != 13
    ensures var u := Puts(t, [13] + text, color);
            && u.row == t.row && u.col == |text| && |u.rows| == |t.rows|
            && (forall r :: 0 <= r < |t.rows| && r != t.row ==> u.rows[r] == t.rows[r])
            && (forall k :: 0 <= k < 80 ==> u.rows[t.row][k] == if k < |text| then text[k] + 256 * color else t.rows[t.row][k])
    decreases |text|
  {
    var all := [13] + text;
    if |text| == 0 {
      assert all[..0] == [] && Puts(t, [], color) == t;
    } else {
      var init := text[..|text| - 1];
      Overwritten(t, init, color);
      assert all[..|all| - 1] == [13] + init && all[|all| - 1] == text[|text| - 1];
    }
  }

  // ---------------------------------------------------------------- wrapped text

  /** text broken at newlines and after every 80 characters; the last line may be empty. */
  function Lines(text: seq<Byte>): (ls: seq<seq<Byte>>)
    ensures |ls| > 0 && |ls[|ls| - 1]| < WIDTH
    decreases |text|
  {
    if |text| == 0 then [[]]
    else
      var ls := Lines(text[..|text| - 1]);
      var c := text[|text| - 1];
      var last := ls[|ls| - 1];
      if c == NEWLINE then ls + [[]]
      else if |last| + 1 == WIDTH then ls[|ls| - 1 := last + [c]] + [[]]
      else ls[|ls| - 1 := last + [c]]
  }

  predicate IsLine(r: Row, line: seq<Byte>, color: Byte) {
    |line| <= WIDTH && forall i :: 0 <= i < WIDTH ==> r[i] == if i < |line| then Entry(line[i], color) else Entry(SPACE, color)
  }

  /** Text without carriage returns, written to a cleared console, is recorded line by line:
      every line of the wrapped text on its own row, blank-filled, the cursor behind the last. */
  lemma {:induction false} RecordIsWrappedText(text: seq<Byte>, color: Byte)
    requires forall i :: 0 <= i < |text| ==> text[i] != RETURN
    ensures var t, ls := Puts(Cleared(color), text, color), Lines(text);
            && t.row == |ls| - 1 && t.col == |ls[|ls| - 1]| && |ls| <= |t.rows|
            && (forall r :: 0 <= r < |ls| ==> IsLine(t.rows[r], ls[r], color))
            && (forall r :: |ls| <= r < |t.rows| ==> IsLine(t.rows[r], [], color))
    decreases |text|
  {
    if |text| > 0 {
      var init, c := text[..|text| - 1], text[|text| - 1];
      RecordIsWrappedText(init, color);
      PutCharMeans(Puts(Cleared(color), init, color), c, color);
      hide PutChar;
    }
  }
}
