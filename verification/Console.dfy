/** vga.c: the 80 by 25 text buffer, written in place. */
module Console {
  import opened Bytes
  import opened Transcript

  class Vga {
    const vgaBuffer: array<nat>
    var vgaRow: nat
    var vgaColumn: nat
    var vgaFg: Byte
    var vgaBg: Byte
    ghost var record: Record

    /** The buffer is the last 25 rows of the record and the cursor is the record's cursor. */
    ghost predicate Valid()
      reads this, vgaBuffer
    {
      && vgaBuffer.Length == WIDTH * HEIGHT && vgaFg < 16 && vgaBg < 16
      && record.Valid()
      && vgaBuffer[..] == record.Screen()
      && record.row == record.Gone() + vgaRow && record.col == vgaColumn
    }

    function Color(): Byte
      requires vgaFg < 16 && vgaBg < 16
      reads this
    {
      vgaFg + 16 * vgaBg
    }

    /** The screen memory; whatever it shows is cleared. */
    constructor (buffer: array<nat>, fg: Byte, bg: Byte)
      requires buffer.Length == WIDTH * HEIGHT && fg < 16 && bg < 16
      modifies buffer
      ensures Valid() && vgaBuffer == buffer && vgaFg == fg && vgaBg == bg
      ensures record == Cleared(Color())
    {
      vgaBuffer, vgaFg, vgaBg := buffer, fg, bg;
      new;
      Clear();
    }

    method Clear()
      requires vgaBuffer.Length == WIDTH * HEIGHT && vgaFg < 16 && vgaBg < 16
      modifies this`vgaRow, this`vgaColumn, this`record, vgaBuffer
      ensures Valid() && record == Cleared(Color())
    {
      vgaRow, vgaColumn := 0, 0;
      var color := Color();
      for i := 0 to WIDTH * HEIGHT
        modifies vgaBuffer
        invariant forall k :: 0 <= k < i ==> vgaBuffer[k] == Entry(SPACE, color)
      {
        vgaBuffer[i] := Entry(SPACE, color);
      }
      record := Cleared(color);
      ClearedScreen(color, vgaBuffer[..]);
    }

    method SetColor(fg: Byte, bg: Byte)
      requires Valid() && fg < 16 && bg < 16
      modifies this`vgaFg, this`vgaBg
      ensures Valid() && vgaFg == fg && vgaBg == bg
    {
      vgaFg, vgaBg := fg, bg;
    }

    /** Moves every row up by one and blanks the last. */
    method Scroll()
      requires vgaBuffer.Length == WIDTH * HEIGHT && vgaFg < 16 && vgaBg < 16
      modifies this`vgaRow, this`vgaColumn, vgaBuffer
      ensures vgaRow == HEIGHT - 1 && vgaColumn == 0
      ensures vgaBuffer[..] == old(vgaBuffer[WIDTH..]) + Blank(Color())
    {
      ghost var was := vgaBuffer[..];
      for i := 0 to (HEIGHT - 1) * WIDTH
        invariant forall k :: 0 <= k < i ==> vgaBuffer[k] == was[k + WIDTH]
        invariant forall k :: i <= k < vgaBuffer.Length ==> vgaBuffer[k] == was[k]
      {
        vgaBuffer[i] := vgaBuffer[i + WIDTH];
      }
      var color := Color();
      for i := (HEIGHT - 1) * WIDTH to HEIGHT * WIDTH
        invariant forall k :: 0 <= k < (HEIGHT - 1) * WIDTH ==> vgaBuffer[k] == was[k + WIDTH]
        invariant forall k :: (HEIGHT - 1) * WIDTH <= k < i ==> vgaBuffer[k] == Entry(SPACE, color)
      {
        vgaBuffer[i] := Entry(SPACE, color);
      }
      vgaRow, vgaColumn := HEIGHT - 1, 0;
    }

    /** A line break: scrolls when the cursor was on the last line. */
    method LineBreak()
      requires Valid()
      modifies this`vgaRow, this`vgaColumn, this`record, vgaBuffer
      ensures Valid() && record == NewLine(old(record), Color())
      ensures vgaColumn == 0 && vgaRow == if old(vgaRow) == 24 then 24 else old(vgaRow) + 1
      ensures old(vgaRow) < 24 ==> vgaBuffer[..] == old(vgaBuffer[..])
    {
      vgaColumn := 0;
      vgaRow := vgaRow + 1;
      if vgaRow >= HEIGHT {
        ScrolledScreen(record, Color());
        Scroll();
      } else {
        SameRows(record, NewLine(record, Color()));
      }
      record := NewLine(record, Color());
    }

    method Putchar(c: Byte)
      requires Valid()
      modifies this`vgaRow, this`vgaColumn, this`record, vgaBuffer
      ensures Valid() && record == PutChar(old(record), c, Color())
      ensures c == 13 ==> vgaRow == old(vgaRow) && vgaColumn == 0 && vgaBuffer[..] == old(vgaBuffer[..])
      ensures c == 10 ==> && vgaColumn == 0 && vgaRow == (if old(vgaRow) == 24 then 24 else old(vgaRow) + 1)
                          && (old(vgaRow) < 24 ==> vgaBuffer[..] == old(vgaBuffer[..]))
      ensures c != 10 && c != 13 && old(vgaColumn) < 79 ==>
                && vgaRow == old(vgaRow) && vgaColumn == old(vgaColumn) + 1
                && vgaBuffer[..] == old(vgaBuffer[..])[80 * old(vgaRow) + old(vgaColumn) := c + 256 * (vgaFg + 16 * vgaBg)]
    {
      if c == NEWLINE {
        LineBreak();
        return;
      }
      if c == RETURN {
        vgaColumn := 0;
        SameRows(record, record.(col := 0));
        record := record.(col := 0);
        return;
      }
      var color := Color();
      var idx := vgaRow * WIDTH + vgaColumn;
      WrittenScreen(record, c, color);
      vgaBuffer[idx] := Entry(c, color);
      record := record.(rows := record.rows[record.row := record.rows[record.row][record.col := Entry(c, color)]]);
      if vgaColumn + 1 >= WIDTH {
        LineBreak();
      } else {
        vgaColumn := vgaColumn + 1;
        SameRows(record, record.(col := vgaColumn));
        record := record.(col := record.col + 1);
      }
    }

    method Write(text: seq<Byte>)
      requires Valid()
      modifies this`vgaRow, this`vgaColumn, this`record, vgaBuffer
      ensures Valid() && record == Puts(old(record), text, Color())
    {
      for i := 0 to |text|
        invariant Valid() && record == Puts(old(record), text[..i], Color())
      {
        Putchar(text[i]);
        assert text[..i + 1][..i] == text[..i];
      }
      assert text[..|text|] == text;
    }
  }

  /** Scrolling shows the record one row further on. */
  lemma ScrolledScreen(t: Record, color: Byte)
    requires t.Valid() && t.row + 1 == |t.rows|
    ensures NewLine(t, color).Screen() == t.Screen()[WIDTH..] + Blank(color)
  {
    var u, s := NewLine(t, color), t.Screen()[WIDTH..] + Blank(color);
    forall i: nat | i < WIDTH * HEIGHT ensures u.Screen()[i] == s[i] {
      ScreenAt(u, i);
      if i < (HEIGHT - 1) * WIDTH {
        ScreenAt(t, i + WIDTH);
        assert (i + WIDTH) / WIDTH == i / WIDTH + 1 && (i + WIDTH) % WIDTH == i % WIDTH;
        assert u.rows[u.Gone() + i / WIDTH] == t.rows[t.Gone() + (i + WIDTH) / WIDTH];
      } else {
        assert i / WIDTH == HEIGHT - 1;
      }
    }
  }

  /** Writing at the cursor changes one screen cell. */
  lemma WrittenScreen(t: Record, c: Byte, color: Byte)
    requires t.Valid()
    ensures var u := t.(rows := t.rows[t.row := t.rows[t.row][t.col := Entry(c, color)]]);
            u.Valid() && u.Screen() == t.Screen()[(t.row - t.Gone()) * WIDTH + t.col := Entry(c, color)]
  {
    var u := t.(rows := t.rows[t.row := t.rows[t.row][t.col := Entry(c, color)]]);
    var at := (t.row - t.Gone()) * WIDTH + t.col;
    assert at / WIDTH == t.row - t.Gone() && at % WIDTH == t.col;
    forall i: nat | i < WIDTH * HEIGHT ensures u.Screen()[i] == if i == at then Entry(c, color) else t.Screen()[i] {
      ScreenAt(u, i);
      ScreenAt(t, i);
      assert i == i / WIDTH * WIDTH + i % WIDTH;
    }
  }

  lemma ClearedScreen(color: Byte, s: seq<nat>)
    requires |s| == WIDTH * HEIGHT && forall i :: 0 <= i < |s| ==> s[i] == Entry(SPACE, color)
    ensures s == Cleared(color).Screen()
  {
    var t := Cleared(color);
    forall i: nat | i < WIDTH * HEIGHT ensures t.Screen()[i] == s[i] {
      ScreenAt(t, i);
      assert t.rows[t.Gone() + i / WIDTH] == Blank(color);
    }
  }

  /** The screen depends on the rows only, not on the cursor. */
  lemma SameRows(t: Record, u: Record)
    requires t.Valid() && u.Valid() && t.rows == u.rows
    ensures t.Screen() == u.Screen()
  {
    forall i: nat | i < WIDTH * HEIGHT ensures t.Screen()[i] == u.Screen()[i] {
      ScreenAt(t, i);
      ScreenAt(u, i);
    }
  }
}
