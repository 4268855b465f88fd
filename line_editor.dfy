/** The line editor (src/inputModule.c): editing keys act in place on the
    MAX_LINE_COMMAND-character buffer of the selected history line, with a
    cursor and the length of the text typed so far. */
module LineEditor {
  import opened Defs
  import opened CStrings
  import opened CommandHistory

  /** s with x inserted before position i. */
  function Inserted(s: string, i: nat, x: char): (r: string)
    requires i <= |s|
    ensures |r| == |s| + 1 && r[i] == x && r[..i] == s[..i] && r[i + 1..] == s[i..]
  {
    s[..i] + [x] + s[i..]
  }

  /** s without the character at position i. */
  function Removed(s: string, i: nat): (r: string)
    requires i < |s|
    ensures |r| == |s| - 1 && r[..i] == s[..i] && r[i..] == s[i + 1..]
  {
    s[..i] + s[i + 1..]
  }

  /** Removing what was inserted gives the text back. */
  lemma RemovedInserted(s: string, i: nat, x: char)
    requires i <= |s|
    ensures Removed(Inserted(s, i, x), i) == s
  {
    assert Inserted(s, i, x)[..i] + Inserted(s, i, x)[i + 1..] == s[..i] + s[i..];
    assert s[..i] + s[i..] == s;
  }

  /** Buffer s holds the C string t: t, then a NUL. */
  ghost predicate Holds(s: seq<char>, t: string)
  {
    |t| < |s| && s[..|t|] == t && s[|t|] == '\0' && '\0' !in t
  }

  /** The editor state of getCommand: the buffer holds the `length` typed
      characters and the cursor lies within them. */
  ghost predicate Editing(s: seq<char>, cursor: int, length: int)
  {
    |s| == MAX_LINE_COMMAND && 0 <= cursor <= length < |s| && Holds(s, s[..length])
  }

  /** A buffer holds exactly the string strlen/strcpy see in it. */
  lemma HoldsCStr(s: seq<char>, t: string)
    requires Holds(s, t)
    ensures CStr(s) == t
  {
    CStrAt(s, |t|);
  }

  /** A full-size buffer holding t is an editor state for any cursor within t. */
  lemma HoldsEditing(s: seq<char>, t: string, cursor: int)
    requires Holds(s, t) && |s| == MAX_LINE_COMMAND && 0 <= cursor <= |t|
    ensures Editing(s, cursor, |t|) && CStr(s) == t
  {
    HoldsCStr(s, t);
  }

  /** fill (src/inputModule.c:66-72): the first `length` cells take c, the
      others are untouched. */
  method Fill(buff: array<char>, length: int, c: char)
    requires length <= buff.Length
    modifies buff
    ensures forall j :: 0 <= j < length ==> buff[j] == c
    ensures forall j :: 0 <= j < buff.Length && length <= j ==> buff[j] == old(buff[j])
  {
    var i := 0;
    while i < length
      invariant 0 <= i <= (if length < 0 then 0 else length)
      invariant forall j :: 0 <= j < i ==> buff[j] == c
      invariant forall j :: i <= j < buff.Length ==> buff[j] == old(buff[j])
    {
      buff[i] := c;
      i := i + 1;
    }
  }

  /** A buffer filled with NULs holds the empty string. */
  lemma FilledEmpty(s: seq<char>)
    requires |s| > 0 && forall j :: 0 <= j < |s| ==> s[j] == '\0'
    ensures Holds(s, []) && CStr(s) == []
  {
  }

  /** The buffer after shiftRight(buff, pos, length): the cells from pos up
      to length move one place right, the cell at pos keeps its character. */
  function ShiftedRight(s: seq<char>, pos: nat, length: nat): (r: seq<char>)
    requires pos <= length < |s|
    ensures |r| == |s|
  {
    s[..pos + 1] + s[pos..length] + s[length + 1..]
  }

  /** shiftRight (src/inputModule.c:97-105). Below the MAX_LINE_COMMAND
      bound, buff[pos..length-1] moves to buff[pos+1..length] and the cells
      before pos and after length are untouched; at the bound nothing moves. */
  method ShiftRight(buff: array<char>, pos: int, length: int)
    requires buff.Length == MAX_LINE_COMMAND && 0 <= pos <= length
    modifies buff
    ensures length < MAX_LINE_COMMAND ==> buff[..] == ShiftedRight(old(buff[..]), pos, length)
    ensures length < MAX_LINE_COMMAND ==>
      buff[..pos] == old(buff[..pos]) && buff[pos + 1..length + 1] == old(buff[pos..length])
    ensures length >= MAX_LINE_COMMAND ==> buff[..] == old(buff[..])
  {
    var n := length;
    while n < MAX_LINE_COMMAND && n != pos
      invariant pos <= n <= length && (length >= MAX_LINE_COMMAND ==> n == length)
      invariant forall j :: 0 <= j < buff.Length && (j <= n || length < j) ==> buff[j] == old(buff[j])
      invariant forall j :: n < j <= length ==> buff[j] == old(buff[j - 1])
      decreases n - pos
    {
      buff[n] := buff[n - 1];
      n := n - 1;
    }
    if length < MAX_LINE_COMMAND {
      assert buff[..] == ShiftedRight(old(buff[..]), pos, length);
    }
  }

  /** How many cells shiftLeft(buff, pos, length) moves: it goes on while
      pos <= length and the cell before pos is not the terminator. */
  function LeftRun(s: seq<char>, pos: nat, length: nat): (m: nat)
    requires 1 <= pos && length < |s|
    ensures pos + m <= length + 1 || m == 0
    decreases length + 1 - pos
  {
    if pos <= length && s[pos - 1] != '\0' then 1 + LeftRun(s, pos + 1, length) else 0
  }

  /** The buffer after the m moves of shiftLeft from pos: cells pos-1 up to
      pos-2+m take the character to their right. */
  function ShiftedLeft(s: seq<char>, pos: nat, m: nat): (r: seq<char>)
    requires 1 <= pos && pos + m <= |s|
    ensures |r| == |s|
  {
    s[..pos - 1] + s[pos..pos + m] + s[pos - 1 + m..]
  }

  /** One more move of shiftLeft. */
  lemma LeftRunStep(s: seq<char>, p: nat, length: nat)
    requires 1 <= p <= length < |s| && s[p - 1] != '\0'
    ensures LeftRun(s, p, length) == 1 + LeftRun(s, p + 1, length)
  {
  }

  /** The buffer after the moves made so far equals the shifted one. */
  lemma ShiftedLeftAt(b: seq<char>, s: seq<char>, pos: nat, p: nat)
    requires 1 <= pos <= p <= |s| == |b|
    requires forall j :: pos - 1 <= j < p - 1 ==> b[j] == s[j + 1]
    requires forall j :: 0 <= j < |b| && (j < pos - 1 || p - 1 <= j) ==> b[j] == s[j]
    ensures b == ShiftedLeft(s, pos, p - pos)
  {
    var r := ShiftedLeft(s, pos, p - pos);
    forall j | 0 <= j < |b| ensures b[j] == r[j] {
      if j < pos - 1 {
      } else if j < p - 1 {
        assert r[j] == s[pos..p][j - (pos - 1)];
      } else {
        assert r[j] == s[pos - 1 + (p - pos)..][j - (p - 1)];
      }
    }
  }

  /** shiftLeft (src/inputModule.c:115-122). */
  method ShiftLeft(buff: array<char>, pos: int, length: int)
    requires 1 <= pos && length < buff.Length
    modifies buff
    ensures pos <= length + 1 ==> buff[..] == ShiftedLeft(old(buff[..]), pos, LeftRun(old(buff[..]), pos, length))
    ensures pos > length ==> buff[..] == old(buff[..])
  {
    ghost var s := buff[..];
    var p := pos;
    while p <= length && buff[p - 1] != '\0'
      invariant pos <= p && (pos <= length + 1 ==> p <= length + 1)
      invariant pos > length ==> p == pos
      invariant pos <= length + 1 ==>
        LeftRun(s, pos, length) == (p - pos) + LeftRun(s, p, length)
      invariant forall j :: pos - 1 <= j < p - 1 ==> buff[j] == s[j + 1]
      invariant forall j :: 0 <= j < buff.Length && (j < pos - 1 || p - 1 <= j) ==> buff[j] == s[j]
      decreases length + 1 - p
    {
      assert buff[p - 1] == s[p - 1] && buff[p] == s[p];
      LeftRunStep(s, p, length);
      buff[p - 1] := buff[p];
      p := p + 1;
    }
    if pos <= length + 1 {
      ShiftedLeftAt(buff[..], s, pos, p);
    }
    if pos > length {
      assert buff[..] == s;
    }
  }

  /** A string-holding buffer lets shiftLeft run from pos over the rest of
      the string and its terminator. */
  lemma {:induction false} LeftRunOnString(s: seq<char>, t: string, pos: nat)
    requires Holds(s, t) && 1 <= pos <= |t| + 1
    ensures LeftRun(s, pos, |t|) == |t| + 1 - pos
    decreases |t| + 1 - pos
  {
    if pos <= |t| {
      assert s[pos - 1] == t[pos - 1];
      LeftRunOnString(s, t, pos + 1);
    }
  }

  /** The buffer after shiftLeft(buff, pos, length) on a buffer holding
      `length` characters. */
  function Erased(s: seq<char>, pos: nat, length: nat): (r: seq<char>)
    requires 1 <= pos <= length < |s|
    ensures |r| == |s|
  {
    ShiftedLeft(s, pos, length + 1 - pos)
  }

  /** shiftLeft on a string deletes the character before pos: the buffer
      then holds one character less, followed by two NULs. */
  lemma ErasedRemoves(s: seq<char>, t: string, pos: nat)
    requires Holds(s, t) && 1 <= pos <= |t|
    ensures LeftRun(s, pos, |t|) == |t| + 1 - pos
    ensures Holds(Erased(s, pos, |t|), Removed(t, pos - 1))
    ensures Erased(s, pos, |t|)[|t|] == '\0'
  {
    LeftRunOnString(s, t, pos);
    var r := Erased(s, pos, |t|);
    assert r[..|t| - 1] == Removed(t, pos - 1);
  }

  /** What ShiftLeft leaves in a buffer that holds t: t without the
      character before pos. */
  lemma ShiftedLeftRemoves(before: seq<char>, after: seq<char>, t: string, pos: nat)
    requires Holds(before, t) && 1 <= pos <= |t|
    requires after == ShiftedLeft(before, pos, LeftRun(before, pos, |t|))
    ensures Holds(after, Removed(t, pos - 1))
  {
    ErasedRemoves(before, t, pos);
  }

  /** The buffer after characterProcess accepts c: shiftRight, then c at the cursor. */
  function Typed(s: seq<char>, cursor: nat, length: nat, c: char): (r: seq<char>)
    requires cursor <= length < |s|
    ensures |r| == |s|
  {
    s[..cursor] + [c] + s[cursor..length] + s[length + 1..]
  }

  /** shiftRight followed by the store at the cursor is what Typed describes. */
  lemma ShiftedThenStored(s: seq<char>, cursor: nat, length: nat, c: char)
    requires cursor <= length < |s|
    ensures ShiftedRight(s, cursor, length)[cursor := c] == Typed(s, cursor, length, c)
  {
    assert forall j :: 0 <= j < |s| ==> ShiftedRight(s, cursor, length)[cursor := c][j] == Typed(s, cursor, length, c)[j];
  }

  /** Writing a NUL after the longer text is typing into a buffer whose
      cell after the terminator was a NUL already. */
  lemma TypedThenTerminated(s: seq<char>, cursor: nat, length: nat, c: char)
    requires Editing(s, cursor, length) && length + 1 < |s| && c != '\0'
    ensures Typed(s, cursor, length, c)[length + 1 := '\0'] == Typed(s[length + 1 := '\0'], cursor, length, c)
    ensures Holds(Typed(s, cursor, length, c)[length + 1 := '\0'], Inserted(s[..length], cursor, c))
    ensures Editing(Typed(s, cursor, length, c)[length + 1 := '\0'], cursor + 1, length + 1)
  {
    var u := s[length + 1 := '\0'];
    assert forall j :: 0 <= j < |s| ==> Typed(s, cursor, length, c)[length + 1 := '\0'][j] == Typed(u, cursor, length, c)[j];
    assert u[..length] == s[..length];
    TypedInserts(u, cursor, length, c);
  }

  /** When the cell after the terminator is a NUL too, typing c inserts it
      at the cursor and the buffer still holds the whole text. */
  lemma TypedInserts(s: seq<char>, cursor: nat, length: nat, c: char)
    requires Editing(s, cursor, length) && length + 1 < |s| && s[length + 1] == '\0' && c != '\0'
    ensures Holds(Typed(s, cursor, length, c), Inserted(s[..length], cursor, c))
    ensures Editing(Typed(s, cursor, length, c), cursor + 1, length + 1)
  {
    var r := Typed(s, cursor, length, c);
    assert r[..length + 1] == Inserted(s[..length], cursor, c);
  }

  /** Deleting the character just typed gives back the exact buffer. */
  lemma ErasedTyped(s: seq<char>, cursor: nat, length: nat, c: char)
    requires Editing(s, cursor, length) && length + 1 < |s| && s[length + 1] == '\0' && c != '\0'
    ensures Erased(Typed(s, cursor, length, c), cursor + 1, length + 1) == s
  {
    var r := Typed(s, cursor, length, c);
    TypedInserts(s, cursor, length, c);
    ErasedRemoves(r, Inserted(s[..length], cursor, c), cursor + 1);
    var e := Erased(r, cursor + 1, length + 1);
    assert e == r[..cursor] + r[cursor + 1..length + 2] + r[length + 1..];
    forall j | 0 <= j < |s|
      ensures e[j] == s[j]
    {
      if j < cursor {
        assert e[j] == r[j];
      } else if j <= length {
        assert e[j] == r[j + 1];
      } else {
        assert e[j] == r[j];
      }
    }
  }

  /** The effect of dirtyNode on a line: its first edit keeps a copy of the
      text it had (taken before the edit) and marks it dirty; a line edited
      before keeps its mark and its copy. */
  ghost predicate Snapshot(line: Node, dirty0: bool, backup0: Option<string>, text0: string)
    reads line`dirty, line`backup
  {
    if !dirty0 && backup0.None? then line.dirty && line.backup == Some(text0)
    else line.dirty == dirty0 && line.backup == backup0
  }

  /** The guard of characterProcess: a printable character, with the cursor
      below the last cell. */
  predicate AcceptsAt(c: char, cursor: int)
  {
    IsPrint(c) && cursor < MAX_LINE_COMMAND - 1
  }

  /** characterProcess (src/inputModule.c:147-161): a printable character is
      inserted at the cursor, the cursor and the length move on, and the
      line is marked dirty on its first edit; anything else is ignored. */
  method CharacterProcess(line: Node, c: char, cursor: int, length: int)
      returns (newCursor: int, newLength: int)
    requires line.Valid() && Editing(line.command[..], cursor, length)
    modifies line`dirty, line`backup, line.command
    ensures line.Valid()
    ensures AcceptsAt(c, cursor) ==>
      line.command[..] == Typed(old(line.command[..]), cursor, length, c) &&
      newCursor == cursor + 1 && newLength == length + 1 &&
      Snapshot(line, old(line.dirty), old(line.backup), old(line.Text()))
    ensures AcceptsAt(c, cursor) && length + 1 < MAX_LINE_COMMAND && old(line.command[length + 1]) == '\0' ==>
      Editing(line.command[..], newCursor, newLength) &&
      line.Text() == Inserted(old(line.Text()), cursor, c)
    ensures !AcceptsAt(c, cursor) ==>
      line.command[..] == old(line.command[..]) && newCursor == cursor && newLength == length &&
      line.dirty == old(line.dirty) && line.backup == old(line.backup)
  {
    newCursor, newLength := cursor, length;
    if IsPrint(c) && cursor < MAX_LINE_COMMAND - 1 {
      ghost var s := line.command[..];
      HoldsCStr(s, s[..length]);
      if !line.dirty {
        line.Dirty();
      }
      assert line.command[..] == s && line.Valid();
      ShiftRight(line.command, cursor, length);
      line.command[cursor] := c;
      assert line.Valid();
      ShiftedThenStored(s, cursor, length, c);
      newLength := length + 1;
      newCursor := cursor + 1;
      if length + 1 < MAX_LINE_COMMAND && s[length + 1] == '\0' {
        TypedInserts(s, cursor, length, c);
        HoldsCStr(line.command[..], Inserted(s[..length], cursor, c));
      }
    }
  }

  /** The text of a buffer in the editor state. */
  lemma EditingText(s: seq<char>, cursor: int, length: int)
    requires Editing(s, cursor, length)
    ensures CStr(s) == s[..length]
  {
    HoldsCStr(s, s[..length]);
  }

  /** shiftLeft from pos on an editor buffer deletes the character before
      pos: the buffer is the erased one, holding one character less. */
  lemma ShiftLeftDeletes(s: seq<char>, after: seq<char>, length: nat, pos: nat, cursor: nat)
    requires Editing(s, 0, length) && 1 <= pos <= length && cursor < length
    requires after == ShiftedLeft(s, pos, LeftRun(s, pos, length))
    ensures after == Erased(s, pos, length)
    ensures Editing(after, cursor, length - 1) && CStr(after) == Removed(s[..length], pos - 1)
  {
    var t := s[..length];
    LeftRunOnString(s, t, pos);
    ShiftedLeftRemoves(s, after, t, pos);
    HoldsEditing(after, Removed(t, pos - 1), cursor);
  }

  /** borrar (src/inputModule.c:214-226): backspace deletes the character
      before the cursor, which moves back one place; at the start of the
      line nothing happens. */
  method Borrar(line: Node, cursor: int, length: int) returns (newCursor: int, newLength: int)
    requires line.Valid() && Editing(line.command[..], cursor, length)
    modifies line`dirty, line`backup, line.command
    ensures line.Valid()
    ensures cursor > 0 ==>
      line.command[..] == Erased(old(line.command[..]), cursor, length) &&
      newCursor == cursor - 1 && newLength == length - 1 &&
      Snapshot(line, old(line.dirty), old(line.backup), old(line.Text()))
    ensures cursor > 0 ==>
      Editing(line.command[..], newCursor, newLength) &&
      line.Text() == Removed(old(line.Text()), cursor - 1)
    ensures cursor <= 0 ==>
      line.command[..] == old(line.command[..]) && newCursor == cursor && newLength == length &&
      line.dirty == old(line.dirty) && line.backup == old(line.backup)
  {
    newCursor, newLength := cursor, length;
    if cursor > 0 {
      ghost var s := line.command[..];
      ghost var t := s[..length];
      EditingText(s, cursor, length);
      assert s == old(line.command[..]) && t == old(line.Text());
      if !line.dirty {
        line.Dirty();
      }
      assert line.command[..] == s && line.Valid();
      assert Snapshot(line, old(line.dirty), old(line.backup), t);
      ShiftLeft(line.command, cursor, length);
      assert line.Valid();
      ShiftLeftDeletes(s, line.command[..], length, cursor, cursor - 1);
      newCursor := cursor - 1;
      newLength := length - 1;
    }
  }

  /** suprimir (src/inputModule.c:237-248): delete removes the character
      under the cursor, which stays put; at the end of the line nothing
      happens. */
  method Suprimir(line: Node, cursor: int, length: int) returns (newLength: int)
    requires line.Valid() && Editing(line.command[..], cursor, length)
    modifies line`dirty, line`backup, line.command
    ensures line.Valid()
    ensures cursor != length ==>
      line.command[..] == Erased(old(line.command[..]), cursor + 1, length) &&
      newLength == length - 1 &&
      Snapshot(line, old(line.dirty), old(line.backup), old(line.Text()))
    ensures cursor != length ==>
      Editing(line.command[..], cursor, newLength) &&
      line.Text() == Removed(old(line.Text()), cursor)
    ensures cursor == length ==>
      line.command[..] == old(line.command[..]) && newLength == length &&
      line.dirty == old(line.dirty) && line.backup == old(line.backup)
  {
    newLength := length;
    if cursor != length {
      ghost var s := line.command[..];
      ghost var t := s[..length];
      EditingText(s, cursor, length);
      assert s == old(line.command[..]) && t == old(line.Text());
      if !line.dirty {
        line.Dirty();
      }
      assert line.command[..] == s && line.Valid();
      assert Snapshot(line, old(line.dirty), old(line.backup), t);
      ShiftLeft(line.command, cursor + 1, length);
      assert line.Valid();
      ShiftLeftDeletes(s, line.command[..], length, cursor + 1, cursor);
      newLength := length - 1;
    }
  }

  /** leftArrowProcess (src/inputModule.c:191-196): one place left, never
      before the start of the line. */
  function LeftArrow(cursor: int): (r: int)
    requires 0 <= cursor
    ensures 0 <= r <= cursor && (cursor > 0 ==> r + 1 == cursor)
  {
    if cursor > 0 then cursor - 1 else cursor
  }

  /** rigthArrowProcess (src/inputModule.c:198-203): one place right, never
      past the end of the text. */
  function RightArrow(cursor: int, length: int): (r: int)
    requires 0 <= cursor <= length
    ensures cursor <= r <= length && (cursor < length ==> r == cursor + 1)
  {
    if cursor < length then cursor + 1 else cursor
  }

  /** The arrows undo each other wherever both can move. */
  lemma ArrowsInverse(cursor: int, length: int)
    requires 0 <= cursor <= length
    ensures cursor > 0 ==> RightArrow(LeftArrow(cursor), length) == cursor
    ensures cursor < length ==> LeftArrow(RightArrow(cursor, length)) == cursor
  {
  }

  /** With the cursor guard of characterProcess, a printable character typed
      into a full line (MAX_LINE_COMMAND - 1 characters) overwrites the
      terminator: the buffer no longer holds any NUL. */
  lemma FullLineLosesTerminator(s: seq<char>, cursor: nat, c: char)
    requires Editing(s, cursor, MAX_LINE_COMMAND - 1) && AcceptsAt(c, cursor)
    ensures '\0' !in Typed(s, cursor, MAX_LINE_COMMAND - 1, c)
  {
    var r := Typed(s, cursor, MAX_LINE_COMMAND - 1, c);
    assert forall j :: 0 <= j < |r| ==> r[j] != '\0' by {
      forall j | 0 <= j < |r|
        ensures r[j] != '\0'
      {
        if j < cursor {
          assert r[j] == s[..MAX_LINE_COMMAND - 1][j];
        } else if j > cursor {
          assert r[j] == s[..MAX_LINE_COMMAND - 1][j - 1];
        }
      }
    }
  }

  /** A line holding "ab" whose buffer still has an 'x' after the terminator,
      as restoreNode leaves it after copying back a shorter backup. */
  function LeftoverLine(): (s: seq<char>)
    ensures |s| == MAX_LINE_COMMAND
  {
    seq(MAX_LINE_COMMAND, j => if j == 0 then 'a' else if j == 1 then 'b' else if j == 3 then 'x' else '\0')
  }

  /** characterProcess does not terminate the text it lengthens: typing 'c'
      at the end of such a line joins the leftover 'x' to the text. */
  lemma TypingJoinsLeftover()
    ensures Editing(LeftoverLine(), 2, 2)
    ensures CStr(Typed(LeftoverLine(), 2, 2, 'c')) == "abcx"
    ensures Inserted(LeftoverLine()[..2], 2, 'c') == "abc"
  {
    var s := LeftoverLine();
    assert s[..2] == "ab";
    var r := Typed(s, 2, 2, 'c');
    assert r[..4] == "abcx";
    CStrAt(r, 4);
  }

  /** The guard characterProcess evidently intends: a printable character,
      with room left in the line for it and a terminator. */
  predicate FitsIn(c: char, length: int)
  {
    IsPrint(c) && length < MAX_LINE_COMMAND - 1
  }

  /** characterProcess with the length bound and a terminator written after
      the longer text: the line always holds the text with c inserted. */
  method SafeCharacterProcess(line: Node, c: char, cursor: int, length: int)
      returns (newCursor: int, newLength: int)
    requires line.Valid() && Editing(line.command[..], cursor, length)
    modifies line`dirty, line`backup, line.command
    ensures line.Valid()
    ensures FitsIn(c, length) ==>
      Editing(line.command[..], newCursor, newLength) &&
      newCursor == cursor + 1 && newLength == length + 1 &&
      line.Text() == Inserted(old(line.Text()), cursor, c) &&
      line.command[..] == Typed(old(line.command[..]), cursor, length, c)[length + 1 := '\0'] &&
      Snapshot(line, old(line.dirty), old(line.backup), old(line.Text()))
    ensures !FitsIn(c, length) ==>
      line.command[..] == old(line.command[..]) && newCursor == cursor && newLength == length &&
      line.dirty == old(line.dirty) && line.backup == old(line.backup)
  {
    newCursor, newLength := cursor, length;
    if IsPrint(c) && length < MAX_LINE_COMMAND - 1 {
      ghost var s := line.command[..];
      EditingText(s, cursor, length);
      if !line.dirty {
        line.Dirty();
      }
      assert line.command[..] == s && line.Valid();
      ShiftRight(line.command, cursor, length);
      line.command[cursor] := c;
      line.command[length + 1] := '\0';
      assert line.Valid();
      ShiftedThenStored(s, cursor, length, c);
      TypedThenTerminated(s, cursor, length, c);
      newLength := length + 1;
      newCursor := cursor + 1;
      HoldsCStr(line.command[..], Inserted(s[..length], cursor, c));
    }
  }

  /** The marker characters of a command line: '&' (background) and '+'
      (background and respawn). */
  predicate IsMarker(c: char) { c == '&' || c == '+' }

  predicate MarkerFree(s: string)
  {
    '&' !in s && '+' !in s
  }

  /** strcspn(s, "&+"): the length of the marker-free prefix of s. */
  function MarkerSpan(s: string): (n: nat)
    ensures n <= |s| && MarkerFree(s[..n])
    ensures n < |s| ==> IsMarker(s[n])
  {
    if s == [] || IsMarker(s[0]) then 0 else 1 + MarkerSpan(s[1..])
  }

  /** The flag after seeing marker m: the first marker seen, except that a
      '+' after a '&' turns it into '+'. */
  function Flag(ch: char, m: char): char
  {
    if ch == '\0' then m else if ch == '&' && m == '+' then '+' else ch
  }

  /** A flag is NUL (no marker seen yet), '&' or '+'. */
  predicate IsFlag(ch: char) { ch == '\0' || IsMarker(ch) }

  /** What is left of the rest of a command after its first character, a
      marker, is removed together with one space that follows it. */
  function MarkerTail(rest: string): (t: string)
    requires rest != []
    ensures |t| < |rest| && t == rest[|rest| - |t|..]
  {
    if |rest| > 1 && rest[1] == ' ' then rest[2..] else rest[1..]
  }

  /** Every marker of s removed with one space that follows it, and the flag
      the markers set, starting from flag ch. */
  function Strip(s: string, ch: char): (r: (string, char))
    ensures |r.0| <= |s|
    decreases |s|
  {
    if s == [] then ([], ch)
    else if IsMarker(s[0]) then Strip(MarkerTail(s), Flag(ch, s[0]))
    else
      var r := Strip(s[1..], ch);
      ([s[0]] + r.0, r.1)
  }

  /** The scan leaves no marker in the text; its flag is '+' exactly when a
      '+' was seen, and NUL exactly when no marker was. */
  lemma {:induction false} StripClean(s: string, ch: char)
    requires IsFlag(ch)
    ensures MarkerFree(Strip(s, ch).0) && IsFlag(Strip(s, ch).1)
    ensures Strip(s, ch).1 == '+' <==> ch == '+' || '+' in s
    ensures Strip(s, ch).1 == '\0' <==> ch == '\0' && MarkerFree(s)
    ensures !MarkerFree(s) ==> |Strip(s, ch).0| < |s|
    decreases |s|
  {
    if s != [] {
      if IsMarker(s[0]) {
        var t := MarkerTail(s);
        assert forall c :: c in t ==> c in s;
        StripClean(t, Flag(ch, s[0]));
      } else {
        StripClean(s[1..], ch);
        assert forall c :: c in s ==> c == s[0] || c in s[1..];
        assert MarkerFree(s) <==> MarkerFree(s[1..]) by {
          assert forall i :: 1 <= i < |s| ==> s[i] == s[1..][i - 1];
        }
      }
    }
  }

  /** The command after parse_background_characters (src/inputModule.c:267-305),
      with every character examined: a command without markers is unchanged;
      otherwise the markers (and one space after each) leave the text and
      the flag comes back at its end, after a space. */
  function Background(s: string): (r: string)
    ensures MarkerFree(s) ==> r == s
    ensures !MarkerFree(s) ==> |r| > 0 && IsMarker(r[|r| - 1]) && MarkerFree(r[..|r| - 1])
    ensures !MarkerFree(s) ==> (r[|r| - 1] == '+' <==> '+' in s)
  {
    if MarkerFree(s) then s
    else
      StripClean(s, '\0');
      Closed(Strip(s, '\0').0, Strip(s, '\0').1)
  }

  /** The text the scan keeps, then a space unless the text is empty or
      already ends in one, then the flag. */
  function Closed(k: string, ch: char): (r: string)
    ensures |r| > 0 && r[|r| - 1] == ch
    ensures MarkerFree(k) ==> MarkerFree(r[..|r| - 1])
  {
    var body := if k != [] && k[|k| - 1] != ' ' then k + " " else k;
    assert (body + [ch])[..|body|] == body;
    body + [ch]
  }

  lemma ConsAppend(u: string, r: string)
    requires u != []
    ensures [u[0]] + (u[1..] + r) == u + r
  {
    assert [u[0]] + u[1..] == u;
  }

  /** Stripping a marker-free prefix keeps it. */
  lemma {:induction false} StripKeepsFree(u: string, v: string, ch: char)
    requires MarkerFree(u)
    ensures Strip(u + v, ch) == (u + Strip(v, ch).0, Strip(v, ch).1)
  {
    if u != [] {
      var w := u + v;
      assert w[0] == u[0] && u[0] in u;
      assert w[1..] == u[1..] + v;
      assert MarkerFree(u[1..]) by {
        assert forall c :: c in u[1..] ==> c in u;
      }
      StripKeepsFree(u[1..], v, ch);
      var r := Strip(v, ch);
      StripAtOther([], w, ch);
      assert Strip(w, ch) == ([u[0]] + (u[1..] + r.0), r.1) by {
        assert Strip(w[1..], ch) == (u[1..] + r.0, r.1);
        assert [] + [w[0]] == [u[0]];
      }
      ConsAppend(u, r.0);
    } else {
      assert u + v == v && u + Strip(v, ch).0 == Strip(v, ch).0;
    }
  }

  /** The scan keeps a marker-free command whole. */
  lemma StripFree(u: string, ch: char)
    requires MarkerFree(u)
    ensures Strip(u, ch) == (u, ch)
  {
    StripKeepsFree(u, [], ch);
    assert u + [] == u;
  }

  /** The text ends with a space; the flag follows it directly. */
  lemma BackgroundOfSpaced(s: string, k: string, ch: char)
    requires !MarkerFree(s) && Strip(s, '\0') == (k, ch) && k != [] && k[|k| - 1] == ' '
    ensures Background(s) == k + [ch]
  {
    assert Background(s) == Closed(k, ch);
  }

  /** A command that already ends in " &" keeps its form. */
  lemma BackgroundTrailing(t: string)
    requires MarkerFree(t)
    ensures Background(t + " &") == t + " &"
  {
    var k := t + " ";
    var s := k + "&";
    assert MarkerFree(k) by {
      assert forall c :: c in k ==> c in t || c == ' ';
    }
    StripKeepsFree(k, "&", '\0');
    assert Strip("&", '\0') == ([], '&') by {
      assert MarkerTail("&") == [];
    }
    assert k + [] == k;
    assert '&' in s by {
      assert s[|t| + 1] == '&';
    }
    BackgroundOfSpaced(s, k, '&');
    assert t + " &" == s;
  }

  /** The text does not end with a space; a space and the flag follow it. */
  lemma BackgroundOfUnspaced(s: string, k: string, ch: char)
    requires !MarkerFree(s) && Strip(s, '\0') == (k, ch) && k != [] && k[|k| - 1] != ' '
    ensures Background(s) == k + " " + [ch]
  {
    assert Background(s) == Closed(k, ch);
  }

  /** The scan of "t & u" keeps "t u" and sets the flag to '&'. */
  lemma StripMoves(t: string, u: string)
    requires MarkerFree(t) && MarkerFree(u)
    ensures Strip((t + " ") + ("& " + u), '\0') == ((t + " ") + u, '&')
  {
    var p := t + " ";
    var m := "& " + u;
    assert MarkerFree(p) by {
      assert forall c :: c in p ==> c in t || c == ' ';
    }
    StripKeepsFree(p, m, '\0');
    assert Strip(m, '\0') == Strip(u, '&') by {
      assert m[0] == '&' && m[1] == ' ' && m[2..] == u;
    }
    StripFree(u, '&');
  }

  /** "t & u" becomes "t u &": the marker and the space after it move to the end. */
  lemma BackgroundMoves(t: string, u: string)
    requires MarkerFree(t) && MarkerFree(u) && u != [] && u[|u| - 1] != ' '
    ensures Background(t + " & " + u) == t + " " + u + " &"
  {
    var s := (t + " ") + ("& " + u);
    var k := (t + " ") + u;
    StripMoves(t, u);
    assert '&' in s by {
      assert s[|t| + 1] == '&';
    }
    assert k[|k| - 1] == u[|u| - 1];
    BackgroundOfUnspaced(s, k, '&');
    assert t + " & " + u == s by {
      assert " & " == " " + "& ";
      assert t + (" " + "& ") + u == (t + " ") + ("& " + u);
    }
    assert k + " " + ['&'] == t + " " + u + " &" by {
      assert " " + ['&'] == " &";
      assert k + " " + ['&'] == k + (" " + ['&']);
    }
  }

  /** The scan of parse_background_characters as written: after removing a
      marker (and the space after it) the cursor still moves on, so the
      character that slid into its place is kept without being examined. */
  function StripAsWritten(s: string, ch: char): (r: (string, char))
    requires IsFlag(ch)
    ensures |r.0| <= |s| && IsFlag(r.1)
    ensures MarkerFree(s) ==> r == (s, ch)
    ensures r.1 == '\0' <==> ch == '\0' && MarkerFree(s)
    decreases |s|
  {
    if s == [] then ([], ch)
    else if IsMarker(s[0]) then
      var t := if |s| > 1 && s[1] == ' ' then s[2..] else s[1..];
      if t == [] then ([], Flag(ch, s[0]))
      else
        var r := StripAsWritten(t[1..], Flag(ch, s[0]));
        ([t[0]] + r.0, r.1)
    else
      var r := StripAsWritten(s[1..], ch);
      assert MarkerFree(s) <==> MarkerFree(s[1..]) by {
        assert forall i :: 1 <= i < |s| ==> s[i] == s[1..][i - 1];
      }
      assert [s[0]] + s[1..] == s;
      ([s[0]] + r.0, r.1)
  }

  /** parse_background_characters as written; None where it reads cmd[-1],
      which happens when nothing but markers and their spaces remain. */
  function BackgroundAsWritten(s: string): (r: Option<string>)
    ensures MarkerFree(s) ==> r == Some(s)
    ensures r.None? <==> !MarkerFree(s) && StripAsWritten(s, '\0').0 == []
    ensures r.Some? && !MarkerFree(s) ==> |r.value| > 0 && IsMarker(r.value[|r.value| - 1])
  {
    if MarkerFree(s) then Some(s)
    else
      var (k, ch) := StripAsWritten(s, '\0');
      if k == [] then None
      else Some((if k[|k| - 1] != ' ' then k + " " else k) + [ch])
  }

  /** As written, a '+' right after a '&' is skipped: it stays in the
      command and the flag stays '&'. */
  lemma AdjacentMarkersAsWritten()
    ensures BackgroundAsWritten("a &+") == Some("a + &")
  {
    assert !MarkerFree("a &+") by { assert "a &+"[2] == '&'; }
    assert "a &+"[1..] == " &+" && " &+"[1..] == "&+" && "&+"[1..] == "+" && "+"[1..] == [];
    assert "&+"[1] == '+' && "&+"[0] == '&';
    assert StripAsWritten([], '&') == ([], '&');
    var x := StripAsWritten("&+", '\0');
    assert x == (['+'] + StripAsWritten([], '&').0, '&');
    assert ['+'] + [] == "+";
    assert x == ("+", '&');
    assert StripAsWritten(" &+", '\0') == ([' '] + x.0, x.1);
    assert ([' '] + "+")[1] == '+';
    assert [' '] + "+" == " +" && ['a'] + " +" == "a +";
    assert StripAsWritten(" &+", '\0') == (" +", '&');
    assert StripAsWritten("a &+", '\0') == (['a'] + " +", '&');
    assert StripAsWritten("a &+", '\0') == ("a +", '&');
    assert "a +"[2] == '+' && ("a +" + " " + ['&'])[3] == ' ';
    assert "a +" + " " + ['&'] == "a + &";
  }

  /** Examining every character, both markers leave the command and the
      flag is '+'. */
  lemma AdjacentMarkers()
    ensures Background("a &+") == "a +"
  {
    assert !MarkerFree("a &+") by { assert "a &+"[2] == '&'; }
    assert "a &+"[1..] == " &+" && " &+"[1..] == "&+" && "&+"[1..] == "+" && "+"[1..] == [];
    assert "&+"[1] == '+' && "&+"[0] == '&';
    assert Strip("+", '&') == Strip([], '+') == ([], '+');
    assert Strip("&+", '\0') == ([], '+');
    assert Strip(" &+", '\0') == ([' '] + [], '+');
    assert [' '] + [] == " " && ['a'] + " " == "a ";
    assert Strip(" &+", '\0') == (" ", '+');
    assert Strip("a &+", '\0') == (['a'] + " ", '+');
    assert Strip("a &+", '\0') == ("a ", '+');
  }

  /** As written, a command made of a marker alone reads before the buffer. */
  lemma MarkerOnlyAsWritten()
    ensures BackgroundAsWritten("&") == None
  {
    assert !MarkerFree("&") by { assert "&"[0] == '&'; }
    assert StripAsWritten("&", '\0') == ([], '&');
  }

  /** Skipping the space when the text is empty, a marker alone stays as it is. */
  lemma MarkerOnly()
    ensures Background("&") == "&"
  {
    assert !MarkerFree("&") by { assert "&"[0] == '&'; }
    assert Strip("&", '\0') == ([], '&');
  }

  /** A NUL-terminated buffer holds its C string. */
  lemma HoldsOwnCStr(s: seq<char>)
    requires '\0' in s
    ensures Holds(s, CStr(s)) && |CStr(s)| < |s|
  {
  }

  /** The text after a marker step at cur: the marker and one space after
      it are gone. */
  function Dropped(text: string, cur: nat): (r: string)
    requires cur < |text|
    ensures cur <= |r| < |text|
    ensures r[..cur] == text[..cur] && r[cur..] == MarkerTail(text[cur..])
  {
    text[..cur] + MarkerTail(text[cur..])
  }

  /** A marker with no space after it leaves alone. */
  lemma DroppedOne(text: string, cur: nat)
    requires cur < |text| && !(cur + 1 < |text| && text[cur + 1] == ' ')
    ensures Dropped(text, cur) == Removed(text, cur)
  {
    assert text[cur..][1..] == text[cur + 1..];
  }

  /** A marker followed by a space leaves with the space. */
  lemma DroppedTwo(text: string, cur: nat)
    requires cur + 1 < |text| && text[cur + 1] == ' '
    ensures Dropped(text, cur) == Removed(Removed(text, cur), cur)
  {
    assert text[cur..][2..] == text[cur + 2..];
    assert Removed(text, cur)[cur + 1..] == text[cur + 2..];
  }

  /** One marker step of parse_background_characters (src/inputModule.c:281-296):
      the marker at cur leaves the command, and so does a space after it. */
  method DropMarker(cmd: array<char>, cur: int, length: int, ghost text: string) returns (newLength: int)
    requires 0 <= cur < length == |text| && Holds(cmd[..], text) && IsMarker(text[cur])
    modifies cmd
    ensures Holds(cmd[..], Dropped(text, cur)) && newLength == |Dropped(text, cur)|
  {
    ghost var before := cmd[..];
    ShiftLeft(cmd, cur + 1, length);
    ShiftedLeftRemoves(before, cmd[..], text, cur + 1);
    ghost var t1 := Removed(text, cur);
    newLength := length - 1;
    if cmd[cur] == ' ' {
      assert cur + 1 < |text| && text[cur + 1] == ' ' by {
        if cur < |t1| {
          assert cmd[cur] == t1[cur];
        }
      }
      ghost var mid := cmd[..];
      assert Holds(mid, t1);
      assert 1 <= cur + 1 <= |t1| == newLength;
      ShiftLeft(cmd, cur + 1, newLength);
      assert cmd[..] == ShiftedLeft(mid, cur + 1, LeftRun(mid, cur + 1, |t1|));
      ShiftedLeftRemoves(mid, cmd[..], t1, cur + 1);
      newLength := newLength - 1;
      DroppedTwo(text, cur);
    } else {
      assert !(cur + 1 < |text| && text[cur + 1] == ' ') by {
        if cur + 1 < |text| {
          assert cmd[cur] == t1[cur] == text[cur + 1];
        }
      }
      DroppedOne(text, cur);
    }
  }

  /** The close of parse_background_characters (src/inputModule.c:298-304):
      a space after a text that does not end in one, then the flag. */
  method AppendFlag(cmd: array<char>, length: int, ghost k: string, ch: char)
    requires length == |k| && length + 2 < cmd.Length && Holds(cmd[..], k) && IsMarker(ch)
    modifies cmd
    ensures CStr(cmd[..]) == Closed(k, ch)
  {
    ghost var text := if k != [] && k[|k| - 1] != ' ' then k + " " else k;
    var n := length;
    if n > 0 && cmd[n - 1] != ' ' {
      cmd[n] := ' ';
      n := n + 1;
    }
    assert cmd[..n] == text;
    cmd[n] := ch;
    cmd[n + 1] := '\0';
    assert cmd[..n + 1] == text + [ch] by {
      assert forall j :: 0 <= j < n ==> cmd[j] == text[j];
    }
    HoldsCStr(cmd[..], text + [ch]);
    assert text + [ch] == Closed(k, ch);
  }

  /** The scan at a marker goes on with the rest left by DropMarker. */
  lemma StripAtMarker(rest: string, ch: char)
    requires rest != [] && IsMarker(rest[0])
    ensures Strip(rest, ch) == Strip(MarkerTail(rest), Flag(ch, rest[0]))
  {
  }

  /** The scan keeps a character that is not a marker. */
  lemma StripAtOther(kept: string, rest: string, ch: char)
    requires rest != [] && !IsMarker(rest[0])
    ensures kept + Strip(rest, ch).0 == (kept + [rest[0]]) + Strip(rest[1..], ch).0
    ensures Strip(rest, ch).1 == Strip(rest[1..], ch).1
  {
  }

  /** The scan of s0 is the text kept before cur followed by the scan of
      the text from cur on, started from flag ch. */
  ghost predicate StripsTo(s0: string, text: string, cur: nat, ch: char)
  {
    cur <= |text| && IsFlag(ch) &&
    Strip(s0, '\0') == (text[..cur] + Strip(text[cur..], ch).0, Strip(text[cur..], ch).1)
  }

  /** The marker step keeps StripsTo. */
  lemma StripsToDropped(s0: string, text: string, cur: nat, ch: char)
    requires StripsTo(s0, text, cur, ch) && cur < |text| && IsMarker(text[cur])
    ensures StripsTo(s0, Dropped(text, cur), cur, Flag(ch, text[cur]))
  {
    var rest := text[cur..];
    StripAtMarker(rest, ch);
    var next := Dropped(text, cur);
    assert next[..cur] == text[..cur] && next[cur..] == MarkerTail(rest);
  }

  /** Moving past a character that is not a marker keeps StripsTo. */
  lemma StripsToNext(s0: string, text: string, cur: nat, ch: char)
    requires StripsTo(s0, text, cur, ch) && cur < |text| && !IsMarker(text[cur])
    ensures StripsTo(s0, text, cur + 1, ch)
  {
    var rest := text[cur..];
    StripAtOther(text[..cur], rest, ch);
    assert text[..cur + 1] == text[..cur] + [rest[0]];
    assert text[cur + 1..] == rest[1..];
  }

  /** The loop of parse_background_characters (src/inputModule.c:276-296):
      the buffer ends up holding the text the scan keeps, and the flag is
      the one the scan sets. */
  method ScanMarkers(cmd: array<char>, length: int, ghost s0: string) returns (newLength: int, ch: char)
    requires length == |s0| && Holds(cmd[..], s0)
    modifies cmd
    ensures Holds(cmd[..], Strip(s0, '\0').0) && newLength == |Strip(s0, '\0').0|
    ensures ch == Strip(s0, '\0').1
  {
    newLength := length;
    var cur := 0;
    ch := '\0';
    ghost var text := s0;
    assert text[..cur] + Strip(text[cur..], ch).0 == Strip(s0, '\0').0;
    while cur < newLength
      invariant newLength == |text| && Holds(cmd[..], text)
      invariant StripsTo(s0, text, cur, ch)
      decreases newLength - cur
    {
      assert cmd[cur] == text[cur];
      if cmd[cur] == '&' || cmd[cur] == '+' {
        StripsToDropped(s0, text, cur, ch);
        ch := Flag(ch, cmd[cur]);
        newLength := DropMarker(cmd, cur, newLength, text);
        text := Dropped(text, cur);
      } else {
        StripsToNext(s0, text, cur, ch);
        cur := cur + 1;
      }
    }
    assert text[cur..] == [] && text[..cur] == text && text + [] == text;
  }

  /** parse_background_characters (src/inputModule.c:267-305) in place: the
      scan that Background describes, followed by the space and the flag
      written after the text. The command must leave room for one more
      character, which the longest result needs. */
  method ParseBackgroundCharacters(cmd: array<char>)
    requires '\0' in cmd[..]
    requires !MarkerFree(CStr(cmd[..])) ==> |CStr(cmd[..])| + 2 <= cmd.Length
    modifies cmd
    ensures CStr(cmd[..]) == Background(old(CStr(cmd[..])))
    ensures MarkerFree(old(CStr(cmd[..]))) ==> cmd[..] == old(cmd[..])
  {
    ghost var s0 := CStr(cmd[..]);
    assert s0 == old(CStr(cmd[..]));
    HoldsOwnCStr(cmd[..]);
    var length := |CStr(cmd[..])|;
    if MarkerSpan(cmd[..length]) != length {
      assert !MarkerFree(s0);
      var ch;
      length, ch := ScanMarkers(cmd, length, s0);
      StripClean(s0, '\0');
      AppendFlag(cmd, length, Strip(s0, '\0').0, ch);
    }
  }

  // ---------------------------------------------------------------------
  // parse_history_commands: finding the history word
  // ---------------------------------------------------------------------

  /** pat occurs in s starting at index k. */
  predicate OccursAt(s: string, pat: string, k: int)
  {
    0 <= k && k + |pat| <= |s| && forall j :: 0 <= j < |pat| ==> s[k + j] == pat[j]
  }

  /** The first occurrence of pat in s at or after index from. */
  function FindFrom(s: string, pat: string, from: nat): (r: Option<nat>)
    decreases |s| - from
    ensures r.Some? ==> from <= r.value && OccursAt(s, pat, r.value)
    ensures r.Some? ==> forall k :: from <= k < r.value ==> !OccursAt(s, pat, k)
    ensures r.None? ==> forall k :: from <= k ==> !OccursAt(s, pat, k)
  {
    if from + |pat| > |s| then None
    else if OccursAt(s, pat, from) then Some(from)
    else FindFrom(s, pat, from + 1)
  }

  /** strstr on the text of a C string: the index of the first occurrence
      of pat in s, or None when pat does not occur (strstr's NULL).
      parse_history_commands (src/inputModule.c:310-321) looks for the
      word "historial" this way and returns at once, leaving the line as
      it is, when there is none. */
  function Find(s: string, pat: string): (r: Option<nat>)
    ensures r.Some? ==> OccursAt(s, pat, r.value) && forall k :: 0 <= k < r.value ==> !OccursAt(s, pat, k)
    ensures r.None? <==> forall k :: 0 <= k ==> !OccursAt(s, pat, k)
  {
    FindFrom(s, pat, 0)
  }

  /** What follows a found occurrence does not move it: the history pass
      starts at the first "historial" of the line, whatever comes after. */
  lemma FindAppend(s: string, t: string, pat: string)
    requires Find(s, pat).Some?
    ensures Find(s + t, pat) == Find(s, pat)
  {
    var k := Find(s, pat).value;
    forall j | 0 <= j < |pat|
      ensures (s + t)[k + j] == pat[j]
    {
      assert s[k + j] == pat[j];
    }
    assert OccursAt(s + t, pat, k);
    forall m | 0 <= m < k
      ensures !OccursAt(s + t, pat, m)
    {
      if OccursAt(s + t, pat, m) {
        forall j | 0 <= j < |pat|
          ensures s[m + j] == pat[j]
        {
          assert (s + t)[m + j] == pat[j];
        }
        assert OccursAt(s, pat, m);
      }
    }
  }
}
