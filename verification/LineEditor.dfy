/** The shell's line editor: a fixed line buffer edited in place while the terminal echoes each key. */
module LineEditor {
  import opened Words
  import Utf8

  const CAPACITY := 256
  const CR: byte := 0x0D
  const LF: byte := 0x0A
  const BACKSPACE: byte := 0x08
  const DELETE: byte := 0x7F
  const BLANK: byte := 0x20
  /** "leon> " */
  const PROMPT: bytes := [0x6C, 0x65, 0x6F, 0x6E, 0x3E, 0x20]
  const ERASE: bytes := [BACKSPACE, BLANK, BACKSPACE]

  /** What happens at the terminal: bytes the editor sends, or a whole command,
      which leaves the cursor at the end of a row holding some text. */
  datatype Event = Echo(data: bytes) | Command(line: bytes, left: bytes)

  predicate Submits(key: byte) {
    key == CR || key == LF
  }

  predicate Erases(key: byte) {
    key == BACKSPACE || key == DELETE
  }

  predicate Types(key: byte) {
    0x20 <= key <= 0x7E
  }

  // ---------------------------------------------------------------- the pure editor

  /** The line being edited after one key. */
  function Edit(line: bytes, key: byte): (r: bytes)
    ensures |line| <= CAPACITY ==> |r| <= CAPACITY
  {
    if Submits(key) then []
    else if Erases(key) then if line == [] then [] else line[..|line| - 1]
    else if Types(key) && |line| < CAPACITY then line + [key]
    else line
  }

  /** The line being edited after all of keys, and the lines submitted by them. */
  function Pending(keys: bytes): (r: bytes)
    ensures |r| <= CAPACITY
  {
    if keys == [] then [] else Edit(Pending(keys[..|keys| - 1]), keys[|keys| - 1])
  }

  function Submitted(keys: bytes): seq<bytes> {
    if keys == [] then []
    else
      var before, key := keys[..|keys| - 1], keys[|keys| - 1];
      Submitted(before) + if Submits(key) then [Pending(before)] else []
  }

  lemma {:induction false} KeysSnoc(keys: bytes, key: byte)
    ensures var line, line' := Pending(keys), Pending(keys + [key]);
            && (Submits(key) ==> line' == [])
            && (Erases(key) && line != [] ==> line' == line[..|line| - 1])
            && (Types(key) && |line| < CAPACITY ==> line' == line + [key])
            && (!Submits(key) && !(Erases(key) && line != []) && !(Types(key) && |line| < CAPACITY) ==> line' == line)
    ensures Submits(key) ==> Submitted(keys + [key]) == Submitted(keys) + [Pending(keys)]
    ensures !Submits(key) ==> Submitted(keys + [key]) == Submitted(keys)
  {
    assert (keys + [key])[..|keys|] == keys;
  }

  /** What each key does to the line, by its code: 13 and 10 submit, 8 and 127 take a character away, 32 to 126 add
      one while there are fewer than 256, and no other key does anything. */
  lemma {:induction false} KeyMeaning(keys: bytes, key: byte)
    ensures var line, line' := Pending(keys), Pending(keys + [key]);
            line' == if key == 13 || key == 10 then []
                     else if (key == 8 || key == 127) && |line| > 0 then line[..|line| - 1]
                     else if 32 <= key <= 126 && |line| < 256 then line + [key]
                     else line
    ensures Submitted(keys + [key]) ==
            if key == 13 || key == 10 then Submitted(keys) + [Pending(keys)] else Submitted(keys)
  {
    KeysSnoc(keys, key);
    assert Submitted(keys) + [] == Submitted(keys);
  }

  lemma {:induction false} TypedText(keys: bytes, s: bytes)
    requires Pending(keys) == [] && |s| <= 256 && forall k :: 0 <= k < |s| ==> 32 <= s[k] <= 126
    ensures Pending(keys + s) == s && Submitted(keys + s) == Submitted(keys)
    decreases |s|
  {
    hide Pending, Submitted;
    if s == [] {
      assert keys + s == keys;
    } else {
      var n := |s| - 1;
      TypedText(keys, s[..n]);
      KeyMeaning(keys + s[..n], s[n]);
      assert keys + s == keys + s[..n] + [s[n]];
      assert s == s[..n] + [s[n]];
    }
  }

  /** Typing a text of at most 256 characters and Enter submits exactly that text. */
  lemma {:induction false} TypedLineIsSubmitted(keys: bytes, s: bytes, enter: byte)
    requires Pending(keys) == [] && |s| <= 256 && (forall k :: 0 <= k < |s| ==> 32 <= s[k] <= 126)
    requires enter == 13 || enter == 10
    ensures Submitted(keys + s + [enter]) == Submitted(keys) + [s] && Pending(keys + s + [enter]) == []
  {
    TypedText(keys, s);
    KeyMeaning(keys + s, enter);
  }

  /** A character and then an erasing key change nothing, unless the line was full. */
  lemma {:induction false} EraseUndoes(keys: bytes, key: byte, erase: byte)
    requires 32 <= key <= 126 && (erase == 8 || erase == 127) && |Pending(keys)| < 256
    ensures Pending(keys + [key] + [erase]) == Pending(keys)
    ensures Submitted(keys + [key] + [erase]) == Submitted(keys)
  {
    hide Pending, Submitted;
    KeyMeaning(keys, key);
    KeyMeaning(keys + [key], erase);
    assert (Pending(keys) + [key])[..|Pending(keys)|] == Pending(keys);
  }

  predicate Typed(line: bytes) {
    forall k :: 0 <= k < |line| ==> Types(line[k])
  }

  lemma {:induction false} PendingIsTyped(keys: bytes)
    ensures Typed(Pending(keys))
  {
    if keys != [] {
      PendingIsTyped(keys[..|keys| - 1]);
    }
  }

  /** So the check for invalid UTF-8 never fails. */
  lemma {:induction false} PendingIsValid(keys: bytes)
    ensures Utf8.Valid(Pending(keys))
  {
    PendingIsTyped(keys);
    Utf8.AsciiIsValid(Pending(keys));
  }

  /** Every submitted line is typed text of at most 256 characters, so it is valid UTF-8. */
  lemma {:induction false} SubmittedIsTyped(keys: bytes)
    ensures forall k :: 0 <= k < |Submitted(keys)| ==>
                          Typed(Submitted(keys)[k]) && |Submitted(keys)[k]| <= CAPACITY
                            && Utf8.Valid(Submitted(keys)[k])
  {
    if keys != [] {
      var before := keys[..|keys| - 1];
      SubmittedIsTyped(before);
      PendingIsTyped(before);
      PendingIsValid(before);
    }
  }

  // ---------------------------------------------------------------- the terminal's row

  /** The row the cursor is on, of unbounded width. */
  datatype Row = Row(cells: bytes, cursor: nat)

  function Put(row: Row, b: byte): Row {
    if b == LF then Row([], 0)
    else if b == BACKSPACE then Row(row.cells, if row.cursor == 0 then 0 else row.cursor - 1)
    else if row.cursor < |row.cells| then Row(row.cells[row.cursor := b], row.cursor + 1)
    else Row(row.cells + [b], row.cursor + 1)
  }

  function PutAll(row: Row, s: bytes): Row
    decreases |s|
  {
    if s == [] then row else PutAll(Put(row, s[0]), s[1..])
  }

  function After(row: Row, e: Event): Row {
    match e
    case Echo(data) => PutAll(row, data)
    case Command(_, left) => Row(left, |left|)
  }

  function Screen(events: seq<Event>): Row {
    if events == [] then Row([], 0) else After(Screen(events[..|events| - 1]), events[|events| - 1])
  }

  /** The commands carried out among the terminal's events. */
  function Commands(events: seq<Event>): seq<bytes> {
    if events == [] then []
    else
      var last := events[|events| - 1];
      Commands(events[..|events| - 1]) + if last.Command? then [last.line] else []
  }

  /** Every command starts on a new empty row. */
  predicate Fresh(events: seq<Event>) {
    events != [] ==>
      var before := events[..|events| - 1];
      Fresh(before) && (events[|events| - 1].Command? ==> Screen(before) == Row([], 0))
  }

  lemma {:induction false} LineFeedClears(row: Row)
    ensures After(row, Echo([LF])) == Row([], 0)
  {
    assert [LF][1..] == [] && PutAll(Put(row, LF), []) == Put(row, LF);
  }

  lemma {:induction false} EventsSnoc(events: seq<Event>, e: Event)
    ensures Fresh(events + [e]) <==> Fresh(events) && (e.Command? ==> Screen(events) == Row([], 0))
    ensures e.Command? ==> Commands(events + [e]) == Commands(events) + [e.line]
    ensures e.Echo? ==> Commands(events + [e]) == Commands(events)
    ensures Screen(events + [e]) == After(Screen(events), e)
  {
    assert (events + [e])[..|events|] == events;
  }

  predicate Blank(s: bytes) {
    forall k :: 0 <= k < |s| ==> s[k] == BLANK
  }

  /** The row reads left, the prompt and line, with the cursor just behind and only blanks after it. */
  predicate Reads(row: Row, left: bytes, line: bytes) {
    var text := left + PROMPT + line;
    && row.cursor == |text| <= |row.cells|
    && row.cells[..|text|] == text
    && Blank(row.cells[|text|..])
  }

  lemma {:induction false} PutAllPlain(row: Row, s: bytes)
    requires row.cursor == |row.cells| && (forall k :: 0 <= k < |s| ==> s[k] != LF && s[k] != BACKSPACE)
    ensures PutAll(row, s) == Row(row.cells + s, |row.cells| + |s|)
    decreases |s|
  {
    if s == [] {
      assert row.cells + s == row.cells;
    } else {
      PutAllPlain(Put(row, s[0]), s[1..]);
      assert row.cells + s == (row.cells + [s[0]]) + s[1..];
    }
  }

  lemma {:induction false} PromptReads(row: Row, left: bytes)
    requires row == Row(left, |left|)
    ensures Reads(After(row, Echo(PROMPT)), left, [])
  {
    PutAllPlain(row, PROMPT);
    assert left + PROMPT + [] == left + PROMPT;
  }

  lemma {:induction false} CommandReads(row: Row, line: bytes, left: bytes)
    ensures Reads(After(After(row, Command(line, left)), Echo(PROMPT)), left, [])
  {
    PromptReads(Row(left, |left|), left);
  }

  lemma {:induction false} KeyReads(row: Row, left: bytes, line: bytes, key: byte)
    requires Reads(row, left, line) && Types(key)
    ensures Reads(After(row, Echo([key])), left, line + [key])
  {
    var text := left + PROMPT + line;
    assert left + PROMPT + (line + [key]) == text + [key];
    assert [key][1..] == [] && PutAll(Put(row, key), []) == Put(row, key);
  }

  lemma {:induction false} EraseReads(row: Row, left: bytes, line: bytes)
    requires Reads(row, left, line) && line != []
    ensures Reads(After(row, Echo(ERASE)), left, line[..|line| - 1])
  {
    var text, shorter := left + PROMPT + line, left + PROMPT + line[..|line| - 1];
    assert text == shorter + [line[|line| - 1]];
    var n := |shorter|;
    assert PutAll(row, ERASE) == Put(Put(Put(row, BACKSPACE), BLANK), BACKSPACE) by { ErasePuts(row); }
    assert row.cells[n := BLANK][..n] == row.cells[..n] == shorter;
  }

  lemma {:induction false} PutAllFirst(row: Row, b: byte, rest: bytes)
    ensures PutAll(row, [b] + rest) == PutAll(Put(row, b), rest)
  {
    assert ([b] + rest)[1..] == rest;
  }

  lemma {:induction false} ErasePuts(row: Row)
    ensures PutAll(row, ERASE) == Put(Put(Put(row, BACKSPACE), BLANK), BACKSPACE)
  {
    hide Put;
    PutAllFirst(row, BACKSPACE, [BLANK, BACKSPACE]);
    PutAllFirst(Put(row, BACKSPACE), BLANK, [BACKSPACE]);
    PutAllFirst(Put(Put(row, BACKSPACE), BLANK), BACKSPACE, []);
    assert ERASE == [BACKSPACE] + [BLANK, BACKSPACE];
    assert [BLANK, BACKSPACE] == [BLANK] + [BACKSPACE];
    assert [BACKSPACE] + [] == [BACKSPACE];
  }

  /** The terminal after the first prompt. */
  lemma {:induction false} Started()
    ensures Commands([Echo(PROMPT)]) == [] && Reads(Screen([Echo(PROMPT)]), [], []) && Fresh([Echo(PROMPT)])
  {
    EventsSnoc([], Echo(PROMPT));
    assert [] + [Echo(PROMPT)] == [Echo(PROMPT)];
    PromptReads(Row([], 0), []);
  }

  // ---------------------------------------------------------------- the editor in place

  class Editor {
    const line: array<byte>
    var len: nat
    /** Everything that happened at the terminal. */
    var terminal: seq<Event>
    ghost var keys: bytes
    /** What the row held before the prompt was written. */
    ghost var left: bytes

    /** The buffer is the pure editor's line, the lines submitted are its lines, the user sees exactly that line
        after the prompt, and every command started on a row of its own. */
    ghost predicate Valid()
      reads this, line
    {
      && line.Length == CAPACITY && len <= CAPACITY
      && line[..len] == Pending(keys)
      && Commands(terminal) == Submitted(keys)
      && Reads(Screen(terminal), left, Pending(keys)) && Fresh(terminal)
    }

    constructor ()
      ensures Valid() && keys == [] && fresh(line)
    {
      hide Reads, Screen, Commands, Fresh;
      line := new byte[CAPACITY](_ => 0);
      len, keys, left := 0, [], [];
      terminal := [Echo(PROMPT)];
      new;
      Started();
    }

    method Process(e: Event)
      requires Fresh(terminal) && (e.Command? ==> Screen(terminal) == Row([], 0))
      modifies this`terminal
      ensures Fresh(terminal)
      ensures terminal == old(terminal) + [e]
      ensures e.Command? ==> Commands(terminal) == old(Commands(terminal)) + [e.line]
      ensures e.Echo? ==> Commands(terminal) == old(Commands(terminal))
      ensures Screen(terminal) == After(old(Screen(terminal)), e)
    {
      EventsSnoc(terminal, e);
      terminal := terminal + [e];
    }

    /** The arm for carriage return and line feed. */
    method Submit(key: byte, rest: bytes)
      requires Valid() && Submits(key)
      modifies this
      ensures Valid() && keys == old(keys) + [key]
    {
      hide After, Screen, Commands, Reads, Pending, Submitted, Fresh;
      KeysSnoc(keys, key);
      LineFeedClears(Screen(terminal));
      Process(Echo([LF]));
      PendingIsValid(keys);
      CommandReads(Screen(terminal), line[..len], rest);
      if Utf8.Valid(line[..len]) {
        Process(Command(line[..len], rest));
      } else {
        assert false;
      }
      len := 0;
      left := rest;
      Process(Echo(PROMPT));
      keys := keys + [key];
    }

    method Erase(key: byte)
      requires Valid() && Erases(key)
      modifies this
      ensures Valid() && keys == old(keys) + [key]
    {
      hide After, Screen, Commands, Reads, Pending, Submitted, Fresh;
      KeysSnoc(keys, key);
      if len > 0 {
        EraseReads(Screen(terminal), left, Pending(keys));
        len := len - 1;
        Process(Echo(ERASE));
      }
      keys := keys + [key];
    }

    method Type(key: byte)
      requires Valid() && Types(key)
      modifies this, line
      ensures Valid() && keys == old(keys) + [key]
    {
      hide After, Screen, Commands, Reads, Pending, Submitted, Fresh;
      KeysSnoc(keys, key);
      if len < line.Length {
        KeyReads(Screen(terminal), left, Pending(keys), key);
        line[len] := key;
        len := len + 1;
        assert line[..len] == Pending(keys) + [key];
        Process(Echo([key]));
      }
      keys := keys + [key];
    }

    /** One key; rest is what the row holds after the command, if it starts one. */
    method HandleKey(key: byte, rest: bytes)
      requires Valid()
      modifies this, line
      ensures Valid() && keys == old(keys) + [key]
    {
      if key == CR || key == LF {
        Submit(key, rest);
      } else if key == BACKSPACE || key == DELETE {
        Erase(key);
      } else if 0x20 <= key <= 0x7E {
        Type(key);
      } else {
        keys := keys + [key];
        KeysSnoc(old(keys), key);
      }
    }

    /** The loop over a stream of keystrokes; rows(k) is the row a command started by key k leaves. */
    method Run(stream: bytes, rows: nat -> bytes)
      requires Valid()
      modifies this, line
      ensures Valid() && keys == old(keys) + stream
    {
      for k := 0 to |stream|
        invariant Valid() && keys == old(keys) + stream[..k]
      {
        HandleKey(stream[k], rows(k));
        assert stream[..k + 1] == stream[..k] + [stream[k]];
      }
      assert stream[..|stream|] == stream;
    }
  }
}
