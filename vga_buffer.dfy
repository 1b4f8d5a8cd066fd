/**
  The VGA text-mode writer: a 25x80 grid of (character, colour) cells, of
  which only the bottom row is written, and a cursor column.

  The pure part (`WriterState` and the `After...` functions) says what each
  operation does to the screen; the class `Writer` changes a real
  two-dimensional array in place, and each of its methods is proved to
  produce exactly the state the pure function describes. The volatile reads
  and writes of the source are ordinary array accesses here.
*/
module VgaBuffer {

  const BUFFER_HEIGHT: nat := 25
  const BUFFER_WIDTH: nat := 80
  /** The byte `b'\n'`. */
  const NEWLINE: bv8 := 0x0A
  /** The byte `b' '`, written into cleared cells. */
  const SPACE: bv8 := 0x20

  // ---------------------------------------------------------------------------
  // Colours

  /** The sixteen VGA colours, with their 4-bit codes as `Value`. */
  datatype Color =
    | Black | Blue | Green | Cyan | Red | Magenta | Brown | LightGray
    | DarkGray | LightBlue | LightGreen | LightCyan | LightRed | Pink | Yellow | White
  {
    function Value(): (v: bv8)
      ensures v < 16
    {
      match this
      case Black => 0      case Blue => 1       case Green => 2      case Cyan => 3
      case Red => 4        case Magenta => 5    case Brown => 6      case LightGray => 7
      case DarkGray => 8   case LightBlue => 9  case LightGreen => 10 case LightCyan => 11
      case LightRed => 12  case Pink => 13      case Yellow => 14    case White => 15
    }
  }

  /** The attribute byte of a cell. */
  datatype ColorCode = ColorCode(bits: bv8)

  /**
    `ColorCode::new`: background in the high nibble, foreground in the low
    one, and bit 7 forced on, so the background keeps only its low three bits.
  */
  function NewColorCode(foreground: Color, background: Color): (c: ColorCode)
    ensures c.bits & 0x0F == foreground.Value()
    ensures c.bits & 0x80 == 0x80
    ensures (c.bits >> 4) & 0x07 == background.Value() & 0x07
  {
    ColorCode((background.Value() << 4) | foreground.Value() | 0x80)
  }

  /** Two colour codes agree exactly when the foregrounds agree and the backgrounds' low three bits do. */
  lemma NewColorCodeEquality(f1: Color, b1: Color, f2: Color, b2: Color)
    ensures NewColorCode(f1, b1) == NewColorCode(f2, b2)
        <==> f1 == f2 && b1.Value() & 0x07 == b2.Value() & 0x07
  {

  }

  // ---------------------------------------------------------------------------
  // The screen as a value

  /** One cell of the buffer. */
  datatype ScreenChar = ScreenChar(asciiCharacter: bv8, colorCode: ColorCode)

  /** The buffer's rows, top to bottom. */
  type Grid = seq<seq<ScreenChar>>

  /** `g` has the buffer's dimensions. */
  predicate IsScreen(g: Grid) {
    |g| == BUFFER_HEIGHT && forall r :: 0 <= r < |g| ==> |g[r]| == BUFFER_WIDTH
  }

  /** The state of a writer: the screen, the cursor column and the colour in use. */
  datatype WriterState = WriterState(screen: Grid, column: nat, color: ColorCode)

  /** The writer's invariant: the screen has its dimensions and the cursor is at most one past the last column. */
  predicate WellFormed(st: WriterState) {
    IsScreen(st.screen) && st.column <= BUFFER_WIDTH
  }

  function Blank(color: ColorCode): ScreenChar {
    ScreenChar(SPACE, color)
  }

  function BlankRow(color: ColorCode): (row: seq<ScreenChar>)
    ensures |row| == BUFFER_WIDTH
  {
    seq(BUFFER_WIDTH, _ => Blank(color))
  }

  /** `clear_row(row)` on the screen `g`. */
  function WithRowCleared(g: Grid, row: nat, color: ColorCode): Grid
    requires row < |g|
  {
    g[row := BlankRow(color)]
  }

  /** `g` with cell (row, col) replaced by `ch`. */
  function WithCell(g: Grid, row: nat, col: nat, ch: ScreenChar): Grid
    requires row < |g| && col < |g[row]|
  {
    g[row := g[row][col := ch]]
  }

  /** `new_line`: every row moves up by one, the bottom row is blanked, the cursor returns to column 0. */
  function AfterNewLine(st: WriterState): (r: WriterState)
    requires WellFormed(st)
    ensures WellFormed(r)
  {
    WriterState(st.screen[1..] + [BlankRow(st.color)], 0, st.color)
  }

  /** `write_byte(b)`. */
  function AfterWriteByte(st: WriterState, b: bv8): (r: WriterState)
    requires WellFormed(st)
    ensures WellFormed(r)
  {
    if b == NEWLINE then AfterNewLine(st)
    else
      var s := if st.column >= BUFFER_WIDTH then AfterNewLine(st) else st;
      WriterState(WithCell(s.screen, BUFFER_HEIGHT - 1, s.column, ScreenChar(b, s.color)),
                  s.column + 1, s.color)
  }

  /** `write_string(s)`: the bytes of `s` written one after the other. */
  function AfterWriteString(st: WriterState, s: seq<bv8>): (r: WriterState)
    requires WellFormed(st)
    ensures WellFormed(r)
    ensures r.color == st.color
    decreases |s|
  {
    if s == [] then st else AfterWriteString(AfterWriteByte(st, s[0]), s[1..])
  }

  // ---------------------------------------------------------------------------
  // Properties of the pure model

  /** After `new_line` row r-1 holds the old row r, the last row is blank, the cursor is at 0. */
  lemma NewLineScrolls(st: WriterState)
    requires WellFormed(st)
    ensures var r := AfterNewLine(st);
            && (forall row, col :: 1 <= row < BUFFER_HEIGHT && 0 <= col < BUFFER_WIDTH ==>
                  r.screen[row - 1][col] == st.screen[row][col])
            && r.screen[BUFFER_HEIGHT - 1] == BlankRow(st.color)
            && r.column == 0 && r.color == st.color
  {
  }

  /** Writing a newline only scrolls: no cell ends up holding the newline byte unless it held it before, one row lower. */
  lemma NewlineWritesNoCell(st: WriterState)
    requires WellFormed(st)
    ensures AfterWriteByte(st, NEWLINE) == AfterNewLine(st)
    ensures var r := AfterWriteByte(st, NEWLINE);
            forall row, col :: (0 <= row < BUFFER_HEIGHT && 0 <= col < BUFFER_WIDTH
              && r.screen[row][col].asciiCharacter == NEWLINE) ==>
              row + 1 < BUFFER_HEIGHT && st.screen[row + 1][col].asciiCharacter == NEWLINE
  {

  }

  /** A byte other than newline with room on the line lands under the cursor, and nothing else changes. */
  lemma WriteByteInLine(st: WriterState, b: bv8)
    requires WellFormed(st) && b != NEWLINE && st.column < BUFFER_WIDTH
    ensures var r := AfterWriteByte(st, b);
            && r.screen[BUFFER_HEIGHT - 1][st.column] == ScreenChar(b, st.color)
            && r.column == st.column + 1 && r.color == st.color
            && forall row, col :: (0 <= row < BUFFER_HEIGHT && 0 <= col < BUFFER_WIDTH
                 && (row, col) != (BUFFER_HEIGHT - 1, st.column)) ==>
                 r.screen[row][col] == st.screen[row][col]
  {
  }

  /** A byte other than newline on a full line first scrolls, then lands at column 0 of the bottom row. */
  lemma WriteByteWraps(st: WriterState, b: bv8)
    requires WellFormed(st) && b != NEWLINE && st.column >= BUFFER_WIDTH
    ensures var r := AfterWriteByte(st, b);
            && r.screen[BUFFER_HEIGHT - 1][0] == ScreenChar(b, st.color)
            && r.column == 1
            && r.screen[BUFFER_HEIGHT - 1] == BlankRow(st.color)[0 := ScreenChar(b, st.color)]
            && (forall row, col :: 1 <= row < BUFFER_HEIGHT && 0 <= col < BUFFER_WIDTH ==>
                  r.screen[row - 1][col] == st.screen[row][col])
  {

  }

  /** Writing `a + b` is writing `a`, then `b`. */
  lemma {:induction false} WriteStringAppend(st: WriterState, a: seq<bv8>, b: seq<bv8>)
    requires WellFormed(st)
    ensures AfterWriteString(st, a + b) == AfterWriteString(AfterWriteString(st, a), b)
    decreases |a|
  {
    if a == [] {
      assert a + b == b;
    } else {
      assert (a + b)[0] == a[0] && (a + b)[1..] == a[1..] + b;
      WriteStringAppend(AfterWriteByte(st, a[0]), a[1..], b);
    }
  }

  /**
    A line without newlines that fits after the cursor is written into the
    bottom row from the cursor on; the rows above and the cells before the
    cursor are untouched.
  */
  lemma {:induction false} WriteStringFits(st: WriterState, s: seq<bv8>)
    requires WellFormed(st) && st.column + |s| <= BUFFER_WIDTH
    requires forall i :: 0 <= i < |s| ==> s[i] != NEWLINE
    ensures var r := AfterWriteString(st, s);
            && r.column == st.column + |s|
            && (forall i :: 0 <= i < |s| ==>
                  r.screen[BUFFER_HEIGHT - 1][st.column + i] == ScreenChar(s[i], st.color))
            && r.screen[BUFFER_HEIGHT - 1][..st.column] == st.screen[BUFFER_HEIGHT - 1][..st.column]
            && r.screen[..BUFFER_HEIGHT - 1] == st.screen[..BUFFER_HEIGHT - 1]
    decreases |s|
  {
    if s != [] {
      var st1 := AfterWriteByte(st, s[0]);
      WriteByteInLine(st, s[0]);
      assert st1.screen[..BUFFER_HEIGHT - 1] == st.screen[..BUFFER_HEIGHT - 1];
      WriteStringFits(st1, s[1..]);
      var r := AfterWriteString(st1, s[1..]);
      forall i | 0 <= i < |s|
        ensures r.screen[BUFFER_HEIGHT - 1][st.column + i] == ScreenChar(s[i], st.color)
      {
        if i > 0 {
          assert s[1..][i - 1] == s[i];
        }
      }
    }
  }

  /**
    The repository's println test: writing "\n" + s + "\n" with a line `s`
    that fits leaves `s` in row BUFFER_HEIGHT - 2 from column 0, and the
    cursor at column 0.
  */
  lemma PrintlnLandsAboveBottom(st: WriterState, s: seq<bv8>)
    requires WellFormed(st) && |s| <= BUFFER_WIDTH
    requires forall i :: 0 <= i < |s| ==> s[i] != NEWLINE
    ensures var r := AfterWriteString(st, [NEWLINE] + s + [NEWLINE]);
            && r.column == 0
            && forall i :: 0 <= i < |s| ==>
                 r.screen[BUFFER_HEIGHT - 2][i] == ScreenChar(s[i], st.color)
  {
    var st1 := AfterWriteByte(st, NEWLINE);
    assert AfterWriteString(st, [NEWLINE]) == st1;
    WriteStringAppend(st, [NEWLINE], s);
    WriteStringAppend(st, [NEWLINE] + s, [NEWLINE]);
    WriteStringFits(st1, s);
    var st2 := AfterWriteString(st1, s);
    assert AfterWriteString(st2, [NEWLINE]) == AfterNewLine(st2);
    NewLineScrolls(st2);
  }

  // ---------------------------------------------------------------------------
  // The writer over the hardware buffer

  /** `Writer`: the cursor column, the colour in use, and the 25x80 buffer it writes in place. */
  class Writer {
    var columnPosition: nat
    var colorCode: ColorCode
    const buffer: array2<ScreenChar>

    ghost predicate Valid()
      reads this
    {
      buffer.Length0 == BUFFER_HEIGHT && buffer.Length1 == BUFFER_WIDTH
      && columnPosition <= BUFFER_WIDTH
    }

    /** The buffer's contents as a grid of rows. */
    ghost function Screen(): (g: Grid)
      reads buffer
      requires buffer.Length0 == BUFFER_HEIGHT && buffer.Length1 == BUFFER_WIDTH
      ensures IsScreen(g)
    {
      seq(BUFFER_HEIGHT, r requires 0 <= r < BUFFER_HEIGHT reads buffer =>
        seq(BUFFER_WIDTH, c requires 0 <= c < BUFFER_WIDTH reads buffer => buffer[r, c]))
    }

    ghost function State(): (st: WriterState)
      reads this, buffer
      requires Valid()
      ensures WellFormed(st)
    {
      WriterState(Screen(), columnPosition, colorCode)
    }

    /** The grid equals `g` as soon as every cell does. */
    lemma ScreenIs(g: Grid)
      requires buffer.Length0 == BUFFER_HEIGHT && buffer.Length1 == BUFFER_WIDTH
      requires IsScreen(g)
      requires forall r, c :: 0 <= r < BUFFER_HEIGHT && 0 <= c < BUFFER_WIDTH ==> buffer[r, c] == g[r][c]
      ensures Screen() == g
    {
      var s := Screen();
      forall r | 0 <= r < BUFFER_HEIGHT
        ensures s[r] == g[r]
      {
        assert forall c :: 0 <= c < BUFFER_WIDTH ==> s[r][c] == g[r][c];
      }
    }

    /** The writer the kernel creates: cursor at 0, yellow on black, over the given buffer. */
    constructor (buf: array2<ScreenChar>)
      requires buf.Length0 == BUFFER_HEIGHT && buf.Length1 == BUFFER_WIDTH
      ensures Valid() && buffer == buf
      ensures columnPosition == 0 && colorCode == NewColorCode(Yellow, Black)
    {
      columnPosition := 0;
      colorCode := NewColorCode(Yellow, Black);
      buffer := buf;
    }

    /** `write_string`: each byte of `s` in order. */
    method WriteString(s: seq<bv8>)
      requires Valid()
      modifies this, buffer
      ensures Valid() && State() == AfterWriteString(old(State()), s)
    {
      for i := 0 to |s|
        invariant Valid()
        invariant AfterWriteString(old(State()), s) == AfterWriteString(State(), s[i..])
      {
        assert s[i..][1..] == s[i + 1..];
        WriteByte(s[i]);
      }
    }

    /** `write_byte`. */
    method WriteByte(b: bv8)
      requires Valid()
      modifies this, buffer
      ensures Valid() && State() == AfterWriteByte(old(State()), b)
    {
      if b == NEWLINE {
        NewLine();
      } else {
        if columnPosition >= BUFFER_WIDTH {
          NewLine();
        }
        ghost var before := State();
        var row := BUFFER_HEIGHT - 1;
        var col := columnPosition;
        buffer[row, col] := ScreenChar(b, colorCode);
        ScreenIs(WithCell(before.screen, row, col, ScreenChar(b, colorCode)));
        columnPosition := columnPosition + 1;
      }
    }

    /** `new_line`: copy each row to the one above it, then clear the bottom row and reset the cursor. */
    method NewLine()
      requires Valid()
      modifies this, buffer
      ensures Valid() && State() == AfterNewLine(old(State()))
    {
      for row := 1 to BUFFER_HEIGHT
        invariant forall r, c :: 0 <= r < row - 1 && 0 <= c < BUFFER_WIDTH ==>
                    buffer[r, c] == old(buffer[r + 1, c])
        invariant forall r, c :: row - 1 <= r < BUFFER_HEIGHT && 0 <= c < BUFFER_WIDTH ==>
                    buffer[r, c] == old(buffer[r, c])
        modifies buffer
      {
        for col := 0 to BUFFER_WIDTH
          invariant forall r, c :: 0 <= r < row - 1 && 0 <= c < BUFFER_WIDTH ==>
                      buffer[r, c] == old(buffer[r + 1, c])
          invariant forall c :: 0 <= c < col ==> buffer[row - 1, c] == old(buffer[row, c])
          modifies buffer
          invariant forall r, c :: (row - 1 <= r < BUFFER_HEIGHT && 0 <= c < BUFFER_WIDTH
                      && (r != row - 1 || c >= col)) ==>
                      buffer[r, c] == old(buffer[r, c])
        {
          var character := buffer[row, col];
          buffer[row - 1, col] := character;
        }
      }
      ghost var shifted := old(Screen())[1..] + [old(Screen())[BUFFER_HEIGHT - 1]];
      ScreenIs(shifted);
      ClearRow(BUFFER_HEIGHT - 1);
      columnPosition := 0;
      assert Screen() == old(Screen())[1..] + [BlankRow(colorCode)];
    }

    /** `clear_row(row)`: all cells of `row` become a blank in the current colour. */
    method ClearRow(row: nat)
      requires Valid() && row < BUFFER_HEIGHT
      modifies buffer
      ensures Valid() && Screen() == WithRowCleared(old(Screen()), row, colorCode)
    {
      var blank := ScreenChar(SPACE, colorCode);
      for col := 0 to BUFFER_WIDTH
        invariant forall c :: 0 <= c < col ==> buffer[row, c] == blank
        invariant forall r, c :: (0 <= r < BUFFER_HEIGHT && 0 <= c < BUFFER_WIDTH
                    && (r != row || c >= col)) ==> buffer[r, c] == old(buffer[r, c])
      {
        buffer[row, col] := blank;
      }
      ScreenIs(WithRowCleared(old(Screen()), row, colorCode));
    }
  }
}
