/** The 25 by 80 text terminal: an in-place screen with scrolling, and the history it shows. */
module VgaTerminal {
  import opened Words

  const ROWS := 25
  const COLS := 80
  const CELLS := 2000
  const SPACE: byte := 0x20
  const NEWLINE: byte := 0x0A
  const BLOCK_CHAR: byte := 0xFE
  const YELLOW_ON_BLACK: byte := 0x0E

  datatype ScreenChar = ScreenChar(ascii: byte, color: byte)

  // ---------------------------------------------------------------- the history as lines

  /** The position of the first newline, or |s|. */
  function LineEnd(s: bytes): (i: nat)
    ensures i <= |s| && (i < |s| ==> s[i] == NEWLINE)
    ensures forall k :: 0 <= k < i ==> s[k] != NEWLINE
  {
    if s == [] || s[0] == NEWLINE then 0 else 1 + LineEnd(s[1..])
  }

  /** One line of text cut into pieces of 80 characters; a line of exactly 80 is one piece. */
  function Pieces(s: bytes): (r: seq<bytes>)
    ensures |r| > 0
    decreases |s|
  {
    if |s| <= COLS then [s] else [s[..COLS]] + Pieces(s[COLS..])
  }

  /** The display lines of everything written since the screen was cleared. */
  function Wrapped(history: bytes): (r: seq<bytes>)
    ensures |r| > 0
    decreases |history|
  {
    var i := LineEnd(history);
    if i == |history| then Pieces(history) else Pieces(history[..i]) + Wrapped(history[i + 1..])
  }

  /** The display lines after one more byte: a full line is broken only when another character comes. */
  function Feed(lines: seq<bytes>, b: byte): (r: seq<bytes>)
    requires |lines| > 0
    ensures |r| > 0
  {
    var last := |lines| - 1;
    if b == NEWLINE then lines + [[]]
    else if |lines[last]| >= COLS then lines + [[b]]
    else lines[last := lines[last] + [b]]
  }

  lemma {:induction false} FeedAfter(before: seq<bytes>, lines: seq<bytes>, b: byte)
    requires |lines| > 0
    ensures Feed(before + lines, b) == before + Feed(lines, b)
  {
    assert (before + lines)[|before + lines| - 1] == lines[|lines| - 1];
  }

  lemma {:induction false} PiecesSnoc(s: bytes, b: byte)
    requires b != NEWLINE
    ensures Pieces(s + [b]) == Feed(Pieces(s), b)
    decreases |s|
  {
    if |s| > COLS {
      var rest := s[COLS..];
      assert (s + [b])[..COLS] == s[..COLS];
      assert (s + [b])[COLS..] == rest + [b];
      PiecesSnoc(rest, b);
      FeedAfter([s[..COLS]], Pieces(rest), b);
    } else if |s| == COLS {
      assert (s + [b])[..COLS] == s;
      assert (s + [b])[COLS..] == [b];
    }
  }

  lemma {:induction false} LineEndSnoc(s: bytes, b: byte)
    ensures LineEnd(s + [b]) == if LineEnd(s) < |s| || b == NEWLINE then LineEnd(s) else |s| + 1
    decreases |s|
  {
    var i, j := LineEnd(s), LineEnd(s + [b]);
    if i < |s| {
      assert (s + [b])[i] == NEWLINE;
    } else {
      assert (s + [b])[|s|] == b;
    }
  }

  /** Wrapping the whole history anew and extending the lines by one byte agree. */
  lemma {:induction false} WrappedSnoc(history: bytes, b: byte)
    ensures Wrapped(history + [b]) == Feed(Wrapped(history), b)
    decreases |history|
  {
    hide Pieces;
    var longer := history + [b];
    var i := LineEnd(history);
    LineEndSnoc(history, b);
    if i < |history| {
      var rest := history[i + 1..];
      assert longer[..i] == history[..i];
      assert longer[i + 1..] == rest + [b];
      WrappedSnoc(rest, b);
      FeedAfter(Pieces(history[..i]), Wrapped(rest), b);
    } else if b == NEWLINE {
      assert longer[..i] == history;
      assert longer[i + 1..] == [];
      assert Wrapped([]) == [[]] by { NothingWrapped(); }
    } else {
      PiecesSnoc(history, b);
    }
  }

  lemma {:induction false} NothingWrapped()
    ensures Wrapped([]) == [[]]
  {
  }

  function Joined(lines: seq<bytes>): bytes {
    if lines == [] then [] else lines[0] + Joined(lines[1..])
  }

  /** The pieces of a line, put together, are the line; all but the last are full, and the last is not longer. */
  lemma {:induction false} PiecesMeaning(s: bytes)
    ensures var p := Pieces(s);
            && Joined(p) == s && |p[|p| - 1]| <= 80 && (s != [] ==> p[|p| - 1] != [])
            && forall k :: 0 <= k < |p| - 1 ==> |p[k]| == 80
    decreases |s|
  {
    if |s| > COLS {
      PiecesMeaning(s[COLS..]);
      assert Pieces(s)[1..] == Pieces(s[COLS..]);
      assert s == s[..COLS] + s[COLS..];
    } else {
      assert [s][1..] == [] && s + [] == s;
    }
  }

  lemma {:induction false} LineEndIs(s: bytes, t: bytes)
    requires forall k :: 0 <= k < |s| ==> s[k] != 10
    ensures LineEnd(s) == |s| && LineEnd(s + [10] + t) == |s|
  {
    var all := s + [10] + t;
    assert all[|s|] == 10;
    assert forall k :: 0 <= k < |s| ==> all[k] == s[k];
  }

  /** The history is wrapped line by line: a text without newline in pieces, and a newline starts a new line. */
  lemma {:induction false} WrappedMeaning(s: bytes, t: bytes)
    requires forall k :: 0 <= k < |s| ==> s[k] != 10
    ensures Wrapped(s) == Pieces(s)
    ensures Wrapped(s + [10] + t) == Pieces(s) + Wrapped(t)
  {
    LineEndIs(s, t);
    var all := s + [10] + t;
    assert all[..|s|] == s && all[|s| + 1..] == t;
    hide Pieces;
  }

  /** Row r, column c of a screen that shows some lines: the last 25 of them, blank-padded, yellow on black. */
  lemma {:induction false} ScreenMeaning(screen: seq<ScreenChar>, lines: seq<bytes>, r: nat, c: nat)
    requires Shows(screen, lines) && r < 25 && c < 80
    ensures var k := if |lines| <= 25 then r else |lines| - 25 + r;
            |screen| == 2000 &&
            screen[80 * r + c] == ScreenChar(if k < |lines| && c < |lines[k]| then lines[k][c] else 0x20, 0x0E)
  {
    assert screen[r * COLS + c] == ScreenChar(CharAt(lines, r, c), YELLOW_ON_BLACK);
  }

  /** What reaches the screen of a string: printable ASCII and newlines, a block for every other byte. */
  function Sanitized(s: bytes): (r: bytes)
    ensures |r| == |s|
    ensures forall k :: 0 <= k < |s| ==>
                          r[k] == if 0x20 <= s[k] <= 0x7E || s[k] == NEWLINE then s[k] else BLOCK_CHAR
  {
    seq(|s|, k requires 0 <= k < |s| => if 0x20 <= s[k] <= 0x7E || s[k] == NEWLINE then s[k] else BLOCK_CHAR)
  }

  lemma {:induction false} FeedIsExtension(before: seq<bytes>, lines: seq<bytes>, b: byte)
    requires |before| > 0 && b != NEWLINE
    requires lines == if |before[|before| - 1]| >= COLS then before + [[]] else before
    ensures var last := |lines| - 1; lines[last := lines[last] + [b]] == Feed(before, b)
  {
    assert [] + [b] == [b];
  }

  predicate Narrow(lines: seq<bytes>) {
    forall k :: 0 <= k < |lines| ==> |lines[k]| <= COLS
  }

  // ---------------------------------------------------------------- what the screen shows

  /** The first of the lines on the screen. */
  function Top(lines: seq<bytes>): nat {
    if |lines| <= ROWS then 0 else |lines| - ROWS
  }

  /** The character at row r, column c: the last 25 lines, padded with blanks. */
  function CharAt(lines: seq<bytes>, r: nat, c: nat): byte {
    var k := Top(lines) + r;
    if k < |lines| && c < |lines[k]| then lines[k][c] else SPACE
  }

  ghost predicate Shows(screen: seq<ScreenChar>, lines: seq<bytes>) {
    && |screen| == CELLS
    && forall r, c :: 0 <= r < ROWS && 0 <= c < COLS ==>
                        screen[r * COLS + c] == ScreenChar(CharAt(lines, r, c), YELLOW_ON_BLACK)
  }

  class Terminal {
    var row: nat
    var col: nat
    const vga: array<ScreenChar>
    /** The display lines so far. */
    ghost var lines: seq<bytes>
    /** Every byte written since the last clear. */
    ghost var history: bytes

    /** The screen shows the last 25 display lines and the cursor stands at the end of the last one. */
    ghost predicate Framed()
      reads this, vga
    {
      && vga.Length == CELLS && |lines| > 0 && Narrow(lines)
      && row == |lines| - 1 - Top(lines) && col == |lines[|lines| - 1]|
      && Shows(vga[..], lines)
    }

    ghost predicate Valid()
      reads this, vga
    {
      Framed() && lines == Wrapped(history)
    }

    constructor (memory: array<ScreenChar>)
      requires memory.Length == CELLS
      ensures vga == memory && row == 0 && col == 0
    {
      vga := memory;
      row, col, lines, history := 0, 0, [[]], [];
    }

    method WriteAt(r: nat, c: nat, b: byte)
      requires vga.Length == CELLS && r < ROWS && c < COLS
      modifies vga
      ensures r * COLS + c < CELLS && vga[..] == old(vga[..])[r * COLS + c := ScreenChar(b, YELLOW_ON_BLACK)]
    {
      vga[r * COLS + c] := ScreenChar(b, YELLOW_ON_BLACK);
    }

    method ClearRow(r: nat)
      requires vga.Length == CELLS && r < ROWS
      modifies vga
      ensures forall i :: 0 <= i < CELLS ==>
                            vga[i] == if r * COLS <= i < (r + 1) * COLS then ScreenChar(SPACE, YELLOW_ON_BLACK)
                              else old(vga[i])
    {
      for c := 0 to COLS
        invariant forall i :: 0 <= i < CELLS ==>
                                vga[i] == if r * COLS <= i < r * COLS + c then ScreenChar(SPACE, YELLOW_ON_BLACK)
                                else old(vga[i])
      {
        WriteAt(r, c, SPACE);
      }
    }

    method ClearScreen()
      requires vga.Length == CELLS
      modifies this, vga
      ensures Valid() && history == []
    {
      for r := 0 to ROWS
        invariant forall i :: 0 <= i < r * COLS ==> vga[i] == ScreenChar(SPACE, YELLOW_ON_BLACK)
      {
        ClearRow(r);
      }
      row, col, lines, history := 0, 0, [[]], [];
    }

    /** Moves every row up by one and blanks the last. */
    method ScrollUp()
      requires vga.Length == CELLS
      modifies this`row, this`col, vga
      ensures row == ROWS - 1 && col == 0
      ensures forall i :: 0 <= i < CELLS ==>
                            vga[i] == if i < CELLS - COLS then old(vga[i + COLS])
                              else ScreenChar(SPACE, YELLOW_ON_BLACK)
    {
      for r := 1 to ROWS
        invariant forall i :: 0 <= i < CELLS ==>
                                vga[i] == if i < (r - 1) * COLS then old(vga[i + COLS]) else old(vga[i])
      {
        for c := 0 to COLS
          invariant forall i :: 0 <= i < CELLS ==>
                                  vga[i] == if i < (r - 1) * COLS + c then old(vga[i + COLS]) else old(vga[i])
        {
          vga[(r - 1) * COLS + c] := vga[r * COLS + c];
        }
      }
      ClearRow(ROWS - 1);
      row := ROWS - 1;
      col := 0;
    }

    method NewLine()
      requires Framed()
      modifies this, vga
      ensures Framed() && lines == old(lines) + [[]] && history == old(history)
      ensures col == 0
    {
      if row + 1 >= ROWS {
        ScrollUp();
        Scrolled(old(vga[..]), vga[..], lines);
      } else {
        row := row + 1;
        Unscrolled(vga[..], lines);
      }
      col := 0;
      lines := lines + [[]];
    }

    method WriteByte(b: byte)
      requires Framed()
      modifies this, vga
      ensures Framed() && lines == Feed(old(lines), b) && history == old(history) + [b]
    {
      if b == NEWLINE {
        NewLine();
      } else {
        if col >= COLS {
          NewLine();
        }
        ghost var before, last := vga[..], |lines| - 1;
        WriteAt(row, col, b);
        Extended(before, vga[..], lines, b);
        col := col + 1;
        FeedIsExtension(old(lines), lines, b);
        lines := lines[last := lines[last] + [b]];
      }
      history := history + [b];
    }

    /** After any sequence of writes the screen is the tail of the wrapped history. */
    method WriteStr(s: bytes)
      requires Valid()
      modifies this, vga
      ensures Valid() && history == old(history) + Sanitized(s)
    {
      for k := 0 to |s|
        invariant Valid() && history == old(history) + Sanitized(s)[..k]
      {
        ghost var was := history;
        var b := if 0x20 <= s[k] <= 0x7E || s[k] == NEWLINE then s[k] else BLOCK_CHAR;
        WriteByte(b);
        WrappedSnoc(was, b);
        assert Sanitized(s)[..k + 1] == Sanitized(s)[..k] + [b];
      }
      assert Sanitized(s)[..|s|] == Sanitized(s);
    }
  }

  lemma {:induction false} Unscrolled(screen: seq<ScreenChar>, lines: seq<bytes>)
    requires 0 < |lines| < ROWS && Shows(screen, lines)
    ensures Shows(screen, lines + [[]])
  {
    forall r, c | 0 <= r < ROWS && 0 <= c < COLS
      ensures screen[r * COLS + c] == ScreenChar(CharAt(lines + [[]], r, c), YELLOW_ON_BLACK)
    {
      assert screen[r * COLS + c] == ScreenChar(CharAt(lines, r, c), YELLOW_ON_BLACK);
    }
  }

  /** One character more at the end of the last line. */
  lemma {:induction false} Extended(before: seq<ScreenChar>, after: seq<ScreenChar>, lines: seq<bytes>, b: byte)
    requires |lines| > 0 && Shows(before, lines)
    requires var row, col := |lines| - 1 - Top(lines), |lines[|lines| - 1]|;
             col < COLS && after == before[row * COLS + col := ScreenChar(b, YELLOW_ON_BLACK)]
    ensures var last := |lines| - 1; Shows(after, lines[last := lines[last] + [b]])
  {
    var last := |lines| - 1;
    var longer := lines[last := lines[last] + [b]];
    var row, col := last - Top(lines), |lines[last]|;
    forall r, c | 0 <= r < ROWS && 0 <= c < COLS
      ensures after[r * COLS + c] == ScreenChar(CharAt(longer, r, c), YELLOW_ON_BLACK)
    {
      assert before[r * COLS + c] == ScreenChar(CharAt(lines, r, c), YELLOW_ON_BLACK);
      if r != row {
        assert r * COLS + c != row * COLS + col;
        if Top(lines) + r < |lines| {
          assert longer[Top(lines) + r] == lines[Top(lines) + r];
        }
      } else if c < col {
        assert longer[last][c] == lines[last][c];
      }
    }
  }

  lemma {:induction false} Scrolled(before: seq<ScreenChar>, after: seq<ScreenChar>, lines: seq<bytes>)
    requires |lines| >= ROWS && Shows(before, lines) && |after| == CELLS
    requires forall i :: 0 <= i < CELLS ==>
                           after[i] == if i < CELLS - COLS then before[i + COLS] else ScreenChar(SPACE, YELLOW_ON_BLACK)
    ensures Shows(after, lines + [[]])
  {
    forall r, c | 0 <= r < ROWS && 0 <= c < COLS
      ensures after[r * COLS + c] == ScreenChar(CharAt(lines + [[]], r, c), YELLOW_ON_BLACK)
    {
      if r < ROWS - 1 {
        assert before[(r + 1) * COLS + c] == ScreenChar(CharAt(lines, r + 1, c), YELLOW_ON_BLACK);
      }
    }
  }
}
