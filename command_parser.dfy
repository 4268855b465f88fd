/** The command tokenizer of jobs_control.c (prepare_job): a command line
    becomes a pipeline of stages, each with its argument vector, plus the
    foreground flag.

    `Scan` is the reference definition, token by token; `PrepareJob` is the
    character-by-character loop of the source, proved to compute `Parse`. */
module CommandParser {
  import opened Defs

  /** One pipeline stage: the copied arguments in order and the `argc` field
      as the source leaves it. The NULL slot that should follow the arguments
      is not part of `args`; `Argv` and `ArgvAsWritten` give the vector with it. */
  datatype Stage = Stage(args: seq<string>, argc: int)

  /** What prepare_job produces: the stages in pipeline order and whether the
      job stays in the foreground. */
  datatype Parsed = Parsed(stages: seq<Stage>, foreground: bool)

  /** The character at index k of a C string, NUL past its end. */
  function At(s: string, k: nat): char { if k < |s| then s[k] else '\0' }

  predicate IsQuote(c: char) { c == '\'' || c == '"' }

  /** A character that ends the whole scan: the terminator or `&`. */
  predicate Halts(c: char) { c == '\0' || c == '&' }

  /** The first index k >= from holding the delimiter or a halting character. */
  function TokenEnd(s: string, from: nat, del: char): (k: nat)
    requires from <= |s|
    ensures from <= k <= |s|
    ensures At(s, k) == del || Halts(At(s, k))
    ensures forall j :: from <= j < k ==> At(s, j) != del && !Halts(At(s, j))
    decreases |s| - from
  {
    if At(s, from) == del || Halts(At(s, from)) then from else TokenEnd(s, from + 1, del)
  }

  lemma TokenEndIs(s: string, from: nat, del: char, k: nat)
    requires from <= k <= |s|
    requires forall j :: from <= j < k ==> At(s, j) != del && !Halts(At(s, j))
    requires At(s, k) == del || Halts(At(s, k))
    ensures TokenEnd(s, from, del) == k
  {
  }

  function Finish(done: seq<Stage>, cur: seq<string>, argc: int, fg: bool): Parsed {
    Parsed(done + [Stage(cur, argc)], fg)
  }

  /** Reference tokenizer. `rest` is the unread part of the command, `done`
      the finished stages, `cur` and `argc` the stage being filled.
      - a space is skipped, `|` closes the stage (the next one starts with argc 1);
      - a token starting with a quote runs to the next occurrence of that quote,
        searched from its third character, both quotes included;
      - any other token runs to the next space;
      - NUL or `&` ends the scan, even inside a token (the partial token is kept);
        only an `&` where a token would start clears the foreground flag;
      - a stage whose argc has reached MAX_ARGS ends the scan. */
  function Scan(rest: string, done: seq<Stage>, cur: seq<string>, argc: int): Parsed
    decreases |rest|
  {
    var c := At(rest, 0);
    if c == '\0' then Finish(done, cur, argc, true)
    else if c == '&' then Finish(done, cur, argc, false)
    else if argc >= MAX_ARGS then Finish(done, cur, argc, true)
    else if c == ' ' then Scan(rest[1..], done, cur, argc)
    else if c == '|' then Scan(rest[1..], done + [Stage(cur, argc)], [], 1)
    else if IsQuote(c) then
      if Halts(At(rest, 1)) then Finish(done, cur + [rest[..1]], argc + 1, true)
      else
        var k := TokenEnd(rest, 2, c);
        if At(rest, k) == c then Scan(rest[k + 1..], done, cur + [rest[..k + 1]], argc + 1)
        else Finish(done, cur + [rest[..k]], argc + 1, true)
    else
      var k := TokenEnd(rest, 1, ' ');
      if At(rest, k) == ' ' then Scan(rest[k + 1..], done, cur + [rest[..k]], argc + 1)
      else Finish(done, cur + [rest[..k]], argc + 1, true)
  }

  function Parse(cmd: string): Parsed { Scan(cmd, [], [], 0) }

  /** The loop state in the middle of a token that starts at rest[0] and has
      been scanned up to (not including) rest[offset]. */
  ghost predicate MidToken(rest: string, offset: nat, del: char)
  {
    0 < offset <= |rest| &&
    var c := rest[0];
    c != ' ' && c != '|' && !Halts(c) &&
    (IsQuote(c) ==>
      del == c && (offset >= 2 ==> !Halts(At(rest, 1))) &&
      forall j :: 2 <= j < offset ==> At(rest, j) != c && !Halts(At(rest, j))) &&
    (!IsQuote(c) ==>
      del == ' ' &&
      forall j :: 1 <= j < offset ==> At(rest, j) != ' ' && !Halts(At(rest, j)))
  }

  /** A space where a token would start is skipped. */
  lemma ScanSpace(rest: string, done: seq<Stage>, cur: seq<string>, argc: int)
    requires rest != [] && rest[0] == ' ' && argc < MAX_ARGS
    ensures Scan(rest, done, cur, argc) == Scan(rest[1..], done, cur, argc)
  {
  }

  /** A `|` where a token would start closes the stage. */
  lemma ScanPipe(rest: string, done: seq<Stage>, cur: seq<string>, argc: int)
    requires rest != [] && rest[0] == '|' && argc < MAX_ARGS
    ensures Scan(rest, done, cur, argc) == Scan(rest[1..], done + [Stage(cur, argc)], [], 1)
  {
  }

  /** A quoted token whose closing quote was found at `offset` is complete. */
  lemma ScanQuoted(rest: string, offset: nat, done: seq<Stage>, cur: seq<string>, argc: int)
    requires rest != [] && MidToken(rest, offset, rest[0]) && IsQuote(rest[0]) && argc < MAX_ARGS
    requires offset >= 2 && At(rest, offset) == rest[0]
    ensures offset < |rest|
    ensures Scan(rest, done, cur, argc) == Scan(rest[offset + 1..], done, cur + [rest[..offset + 1]], argc + 1)
  {
    TokenEndIs(rest, 2, rest[0], offset);
  }

  /** A plain token followed by a space at `offset` is complete. */
  lemma ScanWord(rest: string, offset: nat, done: seq<Stage>, cur: seq<string>, argc: int)
    requires MidToken(rest, offset, ' ') && !IsQuote(rest[0]) && argc < MAX_ARGS
    requires At(rest, offset) == ' '
    ensures offset < |rest|
    ensures Scan(rest, done, cur, argc) == Scan(rest[offset + 1..], done, cur + [rest[..offset]], argc + 1)
  {
    TokenEndIs(rest, 1, ' ', offset);
  }

  /** A token interrupted by NUL or `&` is kept as far as it was read. */
  lemma ScanCut(rest: string, offset: nat, del: char, done: seq<Stage>, cur: seq<string>, argc: int)
    requires MidToken(rest, offset, del) && argc < MAX_ARGS && Halts(At(rest, offset))
    ensures Scan(rest, done, cur, argc) == Finish(done, cur + [rest[..offset]], argc + 1, true)
  {
    if IsQuote(rest[0]) && offset >= 2 {
      TokenEndIs(rest, 2, rest[0], offset);
    } else if !IsQuote(rest[0]) {
      TokenEndIs(rest, 1, ' ', offset);
    }
  }

  /** Reading one more character of a token keeps the token state. */
  lemma MidAdvance(rest: string, offset: nat, del: char)
    requires offset < |rest| && !Halts(rest[offset])
    requires offset == 0 ==> del == ' ' && rest[0] != ' ' && rest[0] != '|' && !IsQuote(rest[0])
    requires offset > 0 ==> MidToken(rest, offset, del) && rest[offset] != del
    requires IsQuote(rest[0]) ==> offset >= 2
    ensures MidToken(rest, offset + 1, del)
  {
  }

  /** What holds between two passes of prepare_job's loop: `ptr` is the read
      position, `offset` the length of the token under the cursor and `del` its
      delimiter, and scanning the unread part from this state yields the
      parse of the whole command. */
  ghost predicate Reading(cmd: string, ptr: nat, offset: nat, del: char,
                          done: seq<Stage>, cur: seq<string>, argc: int)
  {
    ptr + offset <= |cmd| && 0 <= argc <= MAX_ARGS &&
    Scan(cmd[ptr..], done, cur, argc) == Parse(cmd) &&
    (offset == 0 ==> del == ' ') &&
    (offset > 0 ==> MidToken(cmd[ptr..], offset, del) && argc < MAX_ARGS)
  }

  lemma ReadSpace(cmd: string, ptr: nat, offset: nat, del: char,
                  done: seq<Stage>, cur: seq<string>, argc: int)
    requires Reading(cmd, ptr, offset, del, done, cur, argc) && argc < MAX_ARGS
    requires ptr < |cmd| && cmd[ptr] == ' '
    ensures Reading(cmd, ptr + 1, offset, del, done, cur, argc)
  {
    var rest := cmd[ptr..];
    ScanSpace(rest, done, cur, argc);
    assert rest[1..] == cmd[ptr + 1..];
  }

  lemma ReadPipe(cmd: string, ptr: nat, offset: nat, del: char,
                 done: seq<Stage>, cur: seq<string>, argc: int)
    requires Reading(cmd, ptr, offset, del, done, cur, argc) && argc < MAX_ARGS
    requires ptr < |cmd| && cmd[ptr] == '|'
    ensures Reading(cmd, ptr + 1, offset, del, done + [Stage(cur, argc)], [], 1)
  {
    var rest := cmd[ptr..];
    ScanPipe(rest, done, cur, argc);
    assert rest[1..] == cmd[ptr + 1..];
  }

  /** The token under the cursor ends at its delimiter: a quoted token keeps
      its closing quote. */
  lemma ReadDelimiter(cmd: string, ptr: nat, offset: nat, del: char,
                      done: seq<Stage>, cur: seq<string>, argc: int, len: nat, ptr': nat, cur': seq<string>)
    requires Reading(cmd, ptr, offset, del, done, cur, argc) && argc < MAX_ARGS
    requires ptr < |cmd| && cmd[ptr] != ' ' && cmd[ptr] != '|' && !Halts(cmd[ptr])
    requires !(IsQuote(cmd[ptr]) && offset <= 1)
    requires At(cmd, ptr + offset) == del
    requires len == if IsQuote(cmd[ptr]) then offset + 1 else offset
    requires ptr' == ptr + offset + 1 && ptr + len <= |cmd| && cur' == cur + [cmd[ptr..ptr + len]]
    ensures Reading(cmd, ptr', 0, ' ', done, cur', argc + 1)
  {
    var rest := cmd[ptr..];
    assert At(rest, offset) == At(cmd, ptr + offset);
    var next := Scan(rest[offset + 1..], done, cur + [rest[..len]], argc + 1);
    if IsQuote(cmd[ptr]) {
      ScanQuoted(rest, offset, done, cur, argc);
    } else {
      ScanWord(rest, offset, done, cur, argc);
    }
    assert Scan(rest, done, cur, argc) == next;
    assert rest[..len] == cmd[ptr..ptr + len];
    assert rest[offset + 1..] == cmd[ptr'..];
    assert next == Scan(cmd[ptr'..], done, cur', argc + 1);
  }

  /** One more character of the token under the cursor, or its opening quote. */
  lemma ReadOn(cmd: string, ptr: nat, offset: nat, del: char,
               done: seq<Stage>, cur: seq<string>, argc: int, del': char)
    requires Reading(cmd, ptr, offset, del, done, cur, argc) && argc < MAX_ARGS
    requires ptr < |cmd| && cmd[ptr] != ' ' && cmd[ptr] != '|' && !Halts(At(cmd, ptr + offset))
    requires IsQuote(cmd[ptr]) && offset <= 1 ==> del' == cmd[ptr]
    requires !(IsQuote(cmd[ptr]) && offset <= 1) ==> At(cmd, ptr + offset) != del && del' == del
    ensures Reading(cmd, ptr, offset + 1, del', done, cur, argc)
  {
    var rest := cmd[ptr..];
    assert At(rest, offset) == At(cmd, ptr + offset);
    if !(IsQuote(cmd[ptr]) && offset <= 1) {
      MidAdvance(rest, offset, del);
    }
  }

  /** One pass of prepare_job's loop (src/jobs_control.c:43-74): skip a
      space, close the stage at `|`, open a quote, complete the token at its
      delimiter, or read one more character of the token. */
  method ReadChar(cmd: string, ptr: nat, offset: nat, del: char,
                  done: seq<Stage>, cur: seq<string>, argc: int)
    returns (ptr': nat, offset': nat, del': char, done': seq<Stage>, cur': seq<string>, argc': int)
    requires Reading(cmd, ptr, offset, del, done, cur, argc)
    requires !Halts(At(cmd, ptr + offset)) && argc < MAX_ARGS
    ensures Reading(cmd, ptr', offset', del', done', cur', argc')
    ensures ptr + offset < ptr' + offset'
  {
    var c := At(cmd, ptr);
    if c == ' ' {
      ReadSpace(cmd, ptr, offset, del, done, cur, argc);
      ptr', offset', del', done', cur', argc' := ptr + 1, offset, del, done, cur, argc;
      assert Reading(cmd, ptr', offset', del', done', cur', argc');
    } else if c == '|' {
      ReadPipe(cmd, ptr, offset, del, done, cur, argc);
      ptr', offset', del', done', cur', argc' := ptr + 1, offset, del, done + [Stage(cur, argc)], [], 1;
      assert Reading(cmd, ptr', offset', del', done', cur', argc');
    } else if IsQuote(c) && offset <= 1 {
      ReadOn(cmd, ptr, offset, del, done, cur, argc, c);
      ptr', offset', del', done', cur', argc' := ptr, offset + 1, c, done, cur, argc;
      assert Reading(cmd, ptr', offset', del', done', cur', argc');
    } else if At(cmd, ptr + offset) == del {
      var len := if IsQuote(c) then offset + 1 else offset;
      assert ptr + len <= |cmd| by {
        assert cmd[ptr..][0] == c;
        assert MidToken(cmd[ptr..], offset, del);
        if IsQuote(c) {
          assert At(cmd[ptr..], offset) == At(cmd, ptr + offset);
        }
      }
      ptr', offset', del', done', cur', argc' := ptr + offset + 1, 0, ' ', done, cur + [cmd[ptr..ptr + len]], argc + 1;
      ReadDelimiter(cmd, ptr, offset, del, done, cur, argc, len, ptr', cur');
    } else {
      ReadOn(cmd, ptr, offset, del, done, cur, argc, del);
      ptr', offset', del', done', cur', argc' := ptr, offset + 1, del, done, cur, argc;
      assert Reading(cmd, ptr', offset', del', done', cur', argc');
    }
  }

  /** prepare_job (src/jobs_control.c:29-81): the scanning loop, bounded by
      MAX_ARGS, then the closing of the last token and stage. */
  method PrepareJob(cmd: string) returns (p: Parsed)
    ensures p == Parse(cmd)
  {
    var ptr: nat, offset: nat := 0, 0;
    var del := ' ';
    var done: seq<Stage> := [];
    var cur: seq<string> := [];
    var argc := 0;
    while !Halts(At(cmd, ptr + offset)) && argc < MAX_ARGS
      invariant Reading(cmd, ptr, offset, del, done, cur, argc)
      decreases |cmd| - (ptr + offset)
    {
      ptr, offset, del, done, cur, argc := ReadChar(cmd, ptr, offset, del, done, cur, argc);
    }
    var fg := true;
    ghost var rest := cmd[ptr..];
    assert At(rest, offset) == At(cmd, ptr + offset);
    if At(cmd, ptr) == '&' {
      fg := false;
    } else if At(cmd, ptr) != '\0' && offset != 0 && argc < MAX_ARGS {
      ScanCut(rest, offset, del, done, cur, argc);
      assert rest[..offset] == cmd[ptr..ptr + offset];
      cur := cur + [cmd[ptr..ptr + offset]];
      argc := argc + 1;
    }
    p := Parsed(done + [Stage(cur, argc)], fg);
  }

  // ---------------------------------------------------------------------
  // What the tokenizer produces

  /** n spaces. */
  function Blanks(n: nat): (r: string)
    ensures |r| == n && forall i :: 0 <= i < n ==> r[i] == ' '
  {
    if n == 0 then [] else [' '] + Blanks(n - 1)
  }

  /** A word without quotes: no space, pipe, `&` or NUL, not starting with a quote. */
  predicate PlainWord(w: string)
  {
    w != [] && !IsQuote(w[0]) &&
    forall i :: 0 <= i < |w| ==> w[i] != ' ' && w[i] != '|' && !Halts(w[i])
  }

  /** A quoted token: a quote, at least one character that is not that quote,
      `&` or NUL (spaces, pipes and the other quote are literal), and the same quote. */
  predicate QuotedWord(w: string)
  {
    |w| >= 3 && IsQuote(w[0]) && w[|w| - 1] == w[0] &&
    forall i :: 1 <= i < |w| - 1 ==> w[i] != w[0] && !Halts(w[i])
  }

  predicate Token(w: string) { PlainWord(w) || QuotedWord(w) }

  /** Tokens each followed by its gap: ws[i] then gs[i] spaces. */
  function Words(ws: seq<string>, gs: seq<nat>): string
    requires |gs| == |ws|
  {
    if ws == [] then [] else ws[0] + Blanks(gs[0]) + Words(ws[1..], gs[1..])
  }

  /** Tokens laid out on a line: `lead` spaces, then each token followed by
      its gap. */
  function Laid(lead: nat, ws: seq<string>, gs: seq<nat>): string
    requires |gs| == |ws|
  {
    Blanks(lead) + Words(ws, gs)
  }

  /** The layouts the tokenizer reads back: proper tokens, each but the last
      followed by at least one space. */
  predicate Layout(ws: seq<string>, gs: seq<nat>)
  {
    |gs| == |ws| &&
    (forall i :: 0 <= i < |ws| ==> Token(ws[i])) &&
    (forall i :: 0 <= i < |ws| - 1 ==> gs[i] >= 1)
  }

  lemma {:induction false} ScanBlanks(n: nat, rest: string, done: seq<Stage>, cur: seq<string>, argc: int)
    requires argc < MAX_ARGS
    ensures Scan(Blanks(n) + rest, done, cur, argc) == Scan(rest, done, cur, argc)
  {
    if n == 0 {
      assert Blanks(n) + rest == rest;
    } else {
      assert (Blanks(n) + rest)[1..] == Blanks(n - 1) + rest;
      ScanSpace(Blanks(n) + rest, done, cur, argc);
      ScanBlanks(n - 1, rest, done, cur, argc);
    }
  }

  /** Once argc has reached MAX_ARGS, anything but `&` ends the scan in the foreground. */
  lemma ScanFull(rest: string, done: seq<Stage>, cur: seq<string>, argc: int)
    requires argc >= MAX_ARGS && At(rest, 0) != '&'
    ensures Scan(rest, done, cur, argc) == Finish(done, cur, argc, true)
  {
  }

  lemma WordsStart(g: nat, ws: seq<string>, gs: seq<nat>)
    requires Layout(ws, gs)
    ensures At(Blanks(g) + Words(ws, gs), 0) != '&'
  {
    if g == 0 && ws != [] {
      assert Blanks(g) + Words(ws, gs) == ws[0] + (Blanks(gs[0]) + Words(ws[1..], gs[1..]));
      assert Token(ws[0]);
    }
  }

  /** A plain word followed by a space becomes the next argument. */
  lemma ScanPlainWord(w: string, rest: string, done: seq<Stage>, cur: seq<string>, argc: int)
    requires PlainWord(w) && argc < MAX_ARGS
    ensures Scan(w + [' '] + rest, done, cur, argc) == Scan(rest, done, cur + [w], argc + 1)
  {
    var line := w + [' '] + rest;
    assert forall j :: 1 <= j < |w| ==> At(line, j) == w[j];
    TokenEndIs(line, 1, ' ', |w|);
    assert line[..|w|] == w && line[|w| + 1..] == rest;
  }

  /** A plain word at the end of the line becomes the last argument. */
  lemma ScanLastWord(w: string, done: seq<Stage>, cur: seq<string>, argc: int)
    requires PlainWord(w) && argc < MAX_ARGS
    ensures Scan(w, done, cur, argc) == Finish(done, cur + [w], argc + 1, true)
  {
    TokenEndIs(w, 1, ' ', |w|);
    assert w[..|w|] == w;
  }

  /** A quoted token, both quotes included, becomes the next argument. */
  lemma ScanQuotedWord(w: string, rest: string, done: seq<Stage>, cur: seq<string>, argc: int)
    requires QuotedWord(w) && argc < MAX_ARGS
    ensures Scan(w + rest, done, cur, argc) == Scan(rest, done, cur + [w], argc + 1)
  {
    var line := w + rest;
    assert forall j :: 1 <= j < |w| ==> At(line, j) == w[j];
    TokenEndIs(line, 2, w[0], |w| - 1);
    assert line[..|w|] == w && line[|w|..] == rest;
  }

  /** A token followed by g spaces (at least one after a plain word) becomes
      the next argument; reading goes on after the spaces while room is left. */
  lemma ScanTokenGap(w: string, g: nat, rest: string, done: seq<Stage>, cur: seq<string>, argc: int)
    requires Token(w) && argc + 1 < MAX_ARGS && (PlainWord(w) ==> g >= 1)
    ensures Scan(w + Blanks(g) + rest, done, cur, argc) == Scan(rest, done, cur + [w], argc + 1)
  {
    if PlainWord(w) {
      assert w + Blanks(g) + rest == w + [' '] + (Blanks(g - 1) + rest);
      ScanPlainWord(w, Blanks(g - 1) + rest, done, cur, argc);
      ScanBlanks(g - 1, rest, done, cur + [w], argc + 1);
    } else {
      assert w + Blanks(g) + rest == w + (Blanks(g) + rest);
      ScanQuotedWord(w, Blanks(g) + rest, done, cur, argc);
      ScanBlanks(g, rest, done, cur + [w], argc + 1);
    }
  }

  /** Tokens followed by `rest`, with room for all of them and the last one
      followed by a space: they become the stage's next arguments, in order. */
  /** The first token and its gap, then the other tokens. */
  lemma WordsCons(ws: seq<string>, gs: seq<nat>)
    requires |gs| == |ws| && ws != []
    ensures Words(ws, gs) == ws[0] + Blanks(gs[0]) + Words(ws[1..], gs[1..])
  {
  }

  lemma LayoutTail(ws: seq<string>, gs: seq<nat>)
    requires Layout(ws, gs) && ws != []
    ensures Layout(ws[1..], gs[1..]) && Token(ws[0])
    ensures |ws| > 1 ==> gs[0] >= 1
  {
    assert Token(ws[0]);
  }

  lemma {:induction false} ScanWordsThen(ws: seq<string>, gs: seq<nat>, rest: string,
                                         done: seq<Stage>, cur: seq<string>, argc: int)
    requires Layout(ws, gs) && argc + |ws| < MAX_ARGS
    requires ws != [] ==> gs[|ws| - 1] >= 1
    ensures Scan(Words(ws, gs) + rest, done, cur, argc) == Scan(rest, done, cur + ws, argc + |ws|)
    decreases |ws|
  {
    if ws == [] {
      assert Words(ws, gs) + rest == rest && cur + ws == cur;
    } else {
      var w, ws', gs' := ws[0], ws[1..], gs[1..];
      LayoutTail(ws, gs);
      WordsCons(ws, gs);
      var tail := Words(ws', gs') + rest;
      assert Words(ws, gs) + rest == w + Blanks(gs[0]) + tail;
      ScanTokenGap(w, gs[0], tail, done, cur, argc);
      assert ws' != [] ==> gs'[|ws'| - 1] == gs[|ws| - 1];
      ScanWordsThen(ws', gs', rest, done, cur + [w], argc + 1);
      assert cur + [w] + ws' == cur + ws;
    }
  }

  function Min(a: int, b: int): int { if a <= b then a else b }

  /** A token after which the scan stops: the stage is full, or a plain word
      ends the line. */
  lemma ScanTokenStop(w: string, g: nat, ws: seq<string>, gs: seq<nat>,
                      done: seq<Stage>, cur: seq<string>, argc: int)
    requires Token(w) && Layout(ws, gs) && argc < MAX_ARGS
    requires argc + 1 == MAX_ARGS || (PlainWord(w) && g == 0 && ws == [])
    requires PlainWord(w) && ws != [] ==> g >= 1
    ensures Scan(w + Blanks(g) + Words(ws, gs), done, cur, argc) == Finish(done, cur + [w], argc + 1, true)
  {
    if PlainWord(w) && g == 0 && ws == [] {
      assert w + Blanks(g) + Words(ws, gs) == w;
      ScanLastWord(w, done, cur, argc);
    } else if PlainWord(w) {
      assert w + Blanks(g) + Words(ws, gs) == w + [' '] + (Blanks(g - 1) + Words(ws, gs));
      ScanPlainWord(w, Blanks(g - 1) + Words(ws, gs), done, cur, argc);
      WordsStart(g - 1, ws, gs);
      ScanFull(Blanks(g - 1) + Words(ws, gs), done, cur + [w], argc + 1);
    } else {
      assert w + Blanks(g) + Words(ws, gs) == w + (Blanks(g) + Words(ws, gs));
      ScanQuotedWord(w, Blanks(g) + Words(ws, gs), done, cur, argc);
      WordsStart(g, ws, gs);
      ScanFull(Blanks(g) + Words(ws, gs), done, cur + [w], argc + 1);
    }
  }

  /** Tokens up to the end of the line: the first MAX_ARGS - argc of them
      become the stage's next arguments, in order; the others are dropped. */
  lemma {:induction false} ScanWordsEnd(ws: seq<string>, gs: seq<nat>,
                                        done: seq<Stage>, cur: seq<string>, argc: int)
    requires Layout(ws, gs) && 0 <= argc <= MAX_ARGS
    ensures var m := Min(|ws|, MAX_ARGS - argc);
      Scan(Words(ws, gs), done, cur, argc) == Finish(done, cur + ws[..m], argc + m, true)
    decreases |ws|
  {
    var m := Min(|ws|, MAX_ARGS - argc);
    if ws == [] || argc == MAX_ARGS {
      assert m == 0 && cur + ws[..m] == cur;
      WordsStart(0, ws, gs);
      assert Blanks(0) + Words(ws, gs) == Words(ws, gs);
    } else {
      var w, ws', gs' := ws[0], ws[1..], gs[1..];
      LayoutTail(ws, gs);
      WordsCons(ws, gs);
      var m' := Min(|ws'|, MAX_ARGS - (argc + 1));
      assert m == m' + 1;
      assert ws[..m] == [w] + ws'[..m'];
      assert cur + [w] + ws'[..m'] == cur + ws[..m];
      if (PlainWord(w) && gs[0] == 0) || argc + 1 == MAX_ARGS {
        ScanTokenStop(w, gs[0], ws', gs', done, cur, argc);
        assert m' == 0 && ws[..m] == [w];
      } else {
        ScanTokenGap(w, gs[0], Words(ws', gs'), done, cur, argc);
        ScanWordsEnd(ws', gs', done, cur + [w], argc + 1);
      }
    }
  }

  /** A command of at most MAX_ARGS tokens, with leading, repeated and
      trailing blanks, is one foreground stage whose arguments are exactly the
      tokens in order; a longer one keeps only its first MAX_ARGS tokens. */
  lemma ParseLine(lead: nat, ws: seq<string>, gs: seq<nat>)
    requires Layout(ws, gs)
    ensures var m := Min(|ws|, MAX_ARGS);
      Parse(Laid(lead, ws, gs)) == Parsed([Stage(ws[..m], m)], true)
  {
    ScanBlanks(lead, Words(ws, gs), [], [], 0);
    ScanWordsEnd(ws, gs, [], [], 0);
    assert [] + ws[..Min(|ws|, MAX_ARGS)] == ws[..Min(|ws|, MAX_ARGS)];
  }

  /** `|` starts a new stage after the current one; the stage after the pipe
      starts counting at argc 1. */
  lemma ParsePipeline(lead1: nat, ws1: seq<string>, gs1: seq<nat>,
                      lead2: nat, ws2: seq<string>, gs2: seq<nat>)
    requires Layout(ws1, gs1) && Layout(ws2, gs2)
    requires ws1 != [] ==> gs1[|ws1| - 1] >= 1
    requires |ws1| < MAX_ARGS && |ws2| < MAX_ARGS
    ensures Parse(Laid(lead1, ws1, gs1) + "|" + Laid(lead2, ws2, gs2)) ==
            Parsed([Stage(ws1, |ws1|), Stage(ws2, |ws2| + 1)], true)
  {
    var second := "|" + Laid(lead2, ws2, gs2);
    assert Laid(lead1, ws1, gs1) + "|" + Laid(lead2, ws2, gs2) == Blanks(lead1) + (Words(ws1, gs1) + second);
    ScanBlanks(lead1, Words(ws1, gs1) + second, [], [], 0);
    ScanWordsThen(ws1, gs1, second, [], [], 0);
    assert [] + ws1 == ws1;
    ScanPipe(second, [], ws1, |ws1|);
    assert [] + [Stage(ws1, |ws1|)] == [Stage(ws1, |ws1|)];
    assert second[1..] == Blanks(lead2) + Words(ws2, gs2);
    ScanBlanks(lead2, Words(ws2, gs2), [Stage(ws1, |ws1|)], [], 1);
    ScanWordsEnd(ws2, gs2, [Stage(ws1, |ws1|)], [], 1);
    assert [] + ws2[..Min(|ws2|, MAX_ARGS - 1)] == ws2;
  }

  /** An `&` where a token would start puts the job in the background and
      everything after it is ignored. */
  lemma ParseBackground(lead: nat, ws: seq<string>, gs: seq<nat>, tail: string)
    requires Layout(ws, gs) && |ws| < MAX_ARGS
    requires ws != [] ==> gs[|ws| - 1] >= 1
    ensures Parse(Laid(lead, ws, gs) + "&" + tail) == Parsed([Stage(ws, |ws|)], false)
  {
    assert Laid(lead, ws, gs) + "&" + tail == Blanks(lead) + (Words(ws, gs) + ("&" + tail));
    ScanBlanks(lead, Words(ws, gs) + ("&" + tail), [], [], 0);
    ScanWordsThen(ws, gs, "&" + tail, [], [], 0);
    assert [] + ws == ws;
  }

  // ---------------------------------------------------------------------
  // The shape of every parse

  /** Stage i of a parse: at most MAX_ARGS arguments, so the NULL terminator
      fits the MAX_ARGS + 1 slots; every argument nonempty and free of `&`
      and NUL; argc counts the arguments, plus one after a pipe. */
  ghost predicate StageShape(st: Stage, i: nat)
  {
    |st.args| <= MAX_ARGS &&
    st.argc == |st.args| + (if i == 0 then 0 else 1) &&
    ArgsOk(st.args)
  }

  ghost predicate ArgOk(a: string) { a != [] && '&' !in a && '\0' !in a }

  ghost predicate ArgsOk(args: seq<string>) { forall a :: a in args ==> ArgOk(a) }

  lemma TokenArgOk(rest: string, n: nat)
    requires 1 <= n <= |rest| && !Halts(rest[0])
    requires forall j :: 1 <= j < n ==> !Halts(At(rest, j))
    ensures ArgOk(rest[..n])
  {
    forall j | 0 <= j < n ensures rest[..n][j] != '&' && rest[..n][j] != '\0' {
      if j > 0 { assert At(rest, j) == rest[j]; }
    }
  }

  /** Every stage of a parse in the shape above. */
  ghost predicate Shaped(p: Parsed)
  {
    |p.stages| >= 1 && forall i :: 0 <= i < |p.stages| ==> StageShape(p.stages[i], i)
  }

  ghost predicate StagesShaped(done: seq<Stage>)
  {
    forall i :: 0 <= i < |done| ==> StageShape(done[i], i)
  }

  lemma StagesAppend(done: seq<Stage>, st: Stage)
    requires StagesShaped(done) && StageShape(st, |done|)
    ensures StagesShaped(done + [st])
  {
    forall i | 0 <= i < |done| + 1 ensures StageShape((done + [st])[i], i) {
      if i < |done| { assert (done + [st])[i] == done[i]; }
    }
  }

  /** The stage being filled, with one more argument of the kind a token is. */
  lemma StageArg(cur: seq<string>, argc: int, a: string, i: nat)
    requires |cur| < MAX_ARGS && argc == |cur| + (if i == 0 then 0 else 1)
    requires ArgsOk(cur) && ArgOk(a)
    ensures ArgsOk(cur + [a])
    ensures StageShape(Stage(cur + [a], argc + 1), i)
  {
  }

  /** Scan at a halting character or a full stage. */
  lemma ScanHalt(rest: string, done: seq<Stage>, cur: seq<string>, argc: int)
    requires Halts(At(rest, 0)) || argc >= MAX_ARGS
    ensures Scan(rest, done, cur, argc) == Finish(done, cur, argc, At(rest, 0) != '&')
  {
  }

  /** Scan at a quote: the token up to the same quote, or up to the halting
      character that cuts it. */
  lemma ScanQuoteStep(rest: string, done: seq<Stage>, cur: seq<string>, argc: int)
    requires IsQuote(At(rest, 0)) && argc < MAX_ARGS && !Halts(At(rest, 1))
    ensures var k := TokenEnd(rest, 2, rest[0]);
      Scan(rest, done, cur, argc) ==
        if At(rest, k) == rest[0] then Scan(rest[k + 1..], done, cur + [rest[..k + 1]], argc + 1)
        else Finish(done, cur + [rest[..k]], argc + 1, true)
  {
  }

  /** Scan at the start of a plain word: the word up to the next space, or up
      to the halting character that cuts it. */
  lemma ScanWordStep(rest: string, done: seq<Stage>, cur: seq<string>, argc: int)
    requires var c := At(rest, 0); !Halts(c) && c != ' ' && c != '|' && !IsQuote(c) && argc < MAX_ARGS
    ensures var k := TokenEnd(rest, 1, ' ');
      Scan(rest, done, cur, argc) ==
        if At(rest, k) == ' ' then Scan(rest[k + 1..], done, cur + [rest[..k]], argc + 1)
        else Finish(done, cur + [rest[..k]], argc + 1, true)
  {
  }

  lemma FinishShaped(done: seq<Stage>, cur: seq<string>, argc: int, fg: bool)
    requires StagesShaped(done) && StageShape(Stage(cur, argc), |done|)
    ensures Shaped(Finish(done, cur, argc, fg))
  {
    StagesAppend(done, Stage(cur, argc));
  }

  lemma {:induction false} ScanShape(rest: string, done: seq<Stage>, cur: seq<string>, argc: int)
    requires StagesShaped(done)
    requires argc <= MAX_ARGS && argc == |cur| + (if done == [] then 0 else 1)
    requires ArgsOk(cur)
    ensures Shaped(Scan(rest, done, cur, argc))
    decreases |rest|, 1
  {
    var c := At(rest, 0);
    if Halts(c) || argc >= MAX_ARGS {
      ScanHalt(rest, done, cur, argc);
      FinishShaped(done, cur, argc, c != '&');
    } else if c == ' ' {
      ScanSpace(rest, done, cur, argc);
      ScanShape(rest[1..], done, cur, argc);
    } else if c == '|' {
      ScanPipe(rest, done, cur, argc);
      StagesAppend(done, Stage(cur, argc));
      ScanShape(rest[1..], done + [Stage(cur, argc)], [], 1);
    } else if IsQuote(c) {
      QuoteShape(rest, done, cur, argc);
    } else {
      WordShape(rest, done, cur, argc);
    }
  }

  /** ScanShape for a token that starts with a quote. */
  lemma {:induction false} QuoteShape(rest: string, done: seq<Stage>, cur: seq<string>, argc: int)
    requires StagesShaped(done)
    requires argc < MAX_ARGS && argc == |cur| + (if done == [] then 0 else 1)
    requires ArgsOk(cur) && IsQuote(At(rest, 0))
    ensures Shaped(Scan(rest, done, cur, argc))
    decreases |rest|, 0
  {
    var i := |done|;
    if Halts(At(rest, 1)) {
      assert Scan(rest, done, cur, argc) == Finish(done, cur + [rest[..1]], argc + 1, true);
      TokenArgOk(rest, 1);
      StageArg(cur, argc, rest[..1], i);
      FinishShaped(done, cur + [rest[..1]], argc + 1, true);
    } else {
      var k := TokenEnd(rest, 2, rest[0]);
      ScanQuoteStep(rest, done, cur, argc);
      if At(rest, k) == rest[0] {
        TokenArgOk(rest, k + 1);
        StageArg(cur, argc, rest[..k + 1], i);
        ScanShape(rest[k + 1..], done, cur + [rest[..k + 1]], argc + 1);
      } else {
        TokenArgOk(rest, k);
        StageArg(cur, argc, rest[..k], i);
        FinishShaped(done, cur + [rest[..k]], argc + 1, true);
      }
    }
  }

  /** ScanShape for a plain word. */
  lemma {:induction false} WordShape(rest: string, done: seq<Stage>, cur: seq<string>, argc: int)
    requires StagesShaped(done)
    requires argc < MAX_ARGS && argc == |cur| + (if done == [] then 0 else 1)
    requires ArgsOk(cur)
    requires var c := At(rest, 0); !Halts(c) && c != ' ' && c != '|' && !IsQuote(c)
    ensures Shaped(Scan(rest, done, cur, argc))
    decreases |rest|, 0
  {
    var k := TokenEnd(rest, 1, ' ');
    ScanWordStep(rest, done, cur, argc);
    TokenArgOk(rest, k);
    StageArg(cur, argc, rest[..k], |done|);
    if At(rest, k) == ' ' {
      ScanShape(rest[k + 1..], done, cur + [rest[..k]], argc + 1);
    } else {
      FinishShaped(done, cur + [rest[..k]], argc + 1, true);
    }
  }

  /** Every command parses into at least one stage, each in the shape above. */
  lemma ParseShape(cmd: string)
    ensures var p := Parse(cmd);
      |p.stages| >= 1 && forall i :: 0 <= i < |p.stages| ==> StageShape(p.stages[i], i)
  {
    ScanShape(cmd, [], [], 0);
  }

  /** The argument vector of a stage as the shell is meant to hand it to
      exec: the arguments, then one NULL (a `None` slot). */
  function Argv(st: Stage): (v: seq<Option<string>>)
    decreases |st.args|
    ensures |v| == |st.args| + 1 && v[|st.args|] == None
    ensures forall k :: 0 <= k < |st.args| ==> v[k] == Some(st.args[k])
  {
    if st.args == [] then [None] else [Some(st.args[0])] + Argv(Stage(st.args[1..], st.argc))
  }

  /** The vector as prepare_job writes it: each copied argument is followed by
      a NULL (allocateAndCopy, src/jobs_control.c:15-19), and the closing NULL
      of src/jobs_control.c:79 is written for the last stage only. A stage
      closed by `|` before any argument has no slot written at all (`None`). */
  function ArgvAsWritten(st: Stage, last: bool): (v: Option<seq<Option<string>>>)
    ensures v.Some? <==> last || st.args != []
    ensures v.Some? ==> v.value == Argv(st)
  {
    if last || st.args != [] then Some(Argv(st)) else None
  }

  /** A line starting with `|` closes an empty first stage: its argument
      vector is never terminated, so exec would read an unset `args[0]`. */
  lemma {:induction false} LeadingPipeUnterminated()
    ensures |Parse("| ls").stages| == 2
    ensures Parse("| ls").stages[0].args == []
    ensures ArgvAsWritten(Parse("| ls").stages[0], false).None?
  {
    var cmd := "| ls";
    assert Scan(cmd, [], [], 0) == Scan(cmd[1..], [Stage([], 0)], [], 1);
    assert cmd[1..] == " ls";
    assert Scan(" ls", [Stage([], 0)], [], 1) == Scan("ls", [Stage([], 0)], [], 1);
    assert TokenEnd("ls", 1, ' ') == 2 by { TokenEndIs("ls", 1, ' ', 2); }
    assert At("ls", 0) == 'l' && At("ls", 2) == '\0' && "ls"[..2] == "ls";
    assert !IsQuote('l') && !Halts('l');
    var none: seq<string> := [];
    assert none + ["ls"[..2]] == ["ls"];
    assert Scan("ls", [Stage([], 0)], [], 1) == Finish([Stage([], 0)], ["ls"], 2, true);
  }

  /** With the closing NULL written for every stage, each stage of every
      parsed line has a vector of at most MAX_ARGS + 1 slots whose only NULL
      is the last one. */
  lemma ParseArgvTerminated(cmd: string)
    ensures forall i :: 0 <= i < |Parse(cmd).stages| ==>
      var v := Argv(Parse(cmd).stages[i]);
      |v| <= MAX_ARGS + 1 && v[|v| - 1] == None && forall k :: 0 <= k < |v| - 1 ==> v[k].Some?
  {
    ParseShape(cmd);
  }
}
