/** The command history (src/history.c): a doubly linked list of fixed-size
    command lines. A line being edited is "dirty"; the first edit of a stored
    line snapshots its text in `backup`, so the edit can be undone. */
module CommandHistory {
  import opened Defs
  import opened CStrings

  /** One history line (struct H_Node). */
  class Node {
    /** The line's MAX_LINE_COMMAND-character buffer. */
    const command: array<char>
    var dirty: bool
    /** The heap copy of the text before the edit, or NULL. */
    var backup: Option<string>
    var prev: Node?
    var next: Node?

    /** The buffer has the line size, and a backup is a string that fits it. */
    ghost predicate Valid()
      reads this`backup
    {
      command.Length == MAX_LINE_COMMAND &&
      (backup.Some? ==> |backup.value| < MAX_LINE_COMMAND && '\0' !in backup.value)
    }

    /** The buffer holds a NUL-terminated string. */
    ghost predicate Terminated()
      reads command
    {
      '\0' in command[..]
    }

    /** The text on the line. */
    ghost function Text(): string
      reads command
    {
      CStr(command[..])
    }

    /** createNode (src/history.c:36-48), returning the node as intended:
        the command copied in when given, clean, no backup. */
    constructor (cmd: Option<string>, nxt: Node?, prv: Node?)
      requires cmd.Some? ==> |cmd.value| < MAX_LINE_COMMAND && '\0' !in cmd.value
      ensures Valid() && Terminated() && fresh(command)
      ensures cmd.Some? ==> Text() == cmd.value
      ensures cmd.None? ==> Text() == []
      ensures next == nxt && prev == prv && !dirty && backup.None?
    {
      command := new char[MAX_LINE_COMMAND](_ => '\0');
      next := nxt;
      prev := prv;
      dirty := false;
      backup := None;
      new;
      assert command[0] == '\0';
      if cmd.Some? {
        StrCpy(command, cmd.value);
        assert command[|cmd.value|] == '\0';
      }
    }

    /** protectEntry (src/history.c:147-150): only the dirty flag is cleared. */
    method ProtectEntry()
      modifies this`dirty
      ensures !dirty
    {
      dirty := false;
    }

    /** isUnprotectEntry (src/history.c:152-154): a line being typed that has
        no stored text to go back to. A clean line, or one whose text Dirty
        has backed up, is never one. */
    predicate IsUnprotectEntry(): (b: bool)
      reads this`dirty, this`backup
      ensures b ==> dirty
      ensures backup.Some? ==> !b
      ensures dirty && backup.None? ==> b
    {
      dirty && backup.None?
    }

    /** isEmptyEntry (src/history.c:157-159). */
    function IsEmptyEntry(): (r: bool)
      requires Valid()
      reads this`backup, command
      ensures r <==> Text() == []
      ensures r <==> command[0] == '\0'
    {
      command[0] == '\0'
    }
    /** dirtyNode (src/history.c:103-111): the first edit of a clean line with
        no backup stores its text and marks it dirty; any other line is left
        alone, so a second call does nothing. */
    method Dirty()
      requires Valid() && Terminated()
      modifies this`dirty, this`backup
      ensures Valid()
      ensures !old(dirty) && old(backup).None? ==> dirty && backup == Some(Text())
      ensures old(dirty) || old(backup).Some? ==> dirty == old(dirty) && backup == old(backup)
    {
      if !dirty && backup.None? {
        backup := Some(CStr(command[..]));
        dirty := true;
      }
    }

    /** restoreNode (src/history.c:113-122): a dirty line gets its backup text
        back, drops the backup and is clean again; a clean line is left alone.
        A dirty line must hold a backup (strcpy from NULL otherwise). */
    method Restore()
      requires Valid() && (dirty ==> backup.Some?)
      modifies this`dirty, this`backup, command
      ensures Valid() && !dirty
      ensures old(dirty) ==> Text() == old(backup).value && Terminated() && backup.None?
      // strcpy leaves the cells after the new terminator as they were
      ensures old(dirty) ==> command[..] == old(backup).value + ['\0'] + old(command[..])[|old(backup).value| + 1..]
      ensures !old(dirty) ==> command[..] == old(command[..]) && backup == old(backup)
    {
      if dirty {
        StrCpy(command, backup.value);
        assert command[|old(backup).value|] == '\0';
        backup := None;
        dirty := false;
      }
    }
  }

  /** Snapshot, overwrite the line, restore: the line holds its original text
      again and is clean (the undo the dirty/backup pair exists for). */
  method EditThenRestore(node: Node, text: string)
    requires node.Valid() && node.Terminated() && !node.dirty && node.backup.None?
    requires |text| < MAX_LINE_COMMAND && '\0' !in text
    modifies node`dirty, node`backup, node.command
    ensures node.Valid() && node.Text() == old(node.Text()) && !node.dirty && node.backup.None?
  {
    node.Dirty();
    StrCpy(node.command, text);
    assert node.command[|text|] == '\0';
    node.Restore();
  }

  /** Node n, which held `text`, `wasDirty` and `bk` before cleanHistory, has
      been restored. */
  ghost predicate Cleaned(n: Node, text: seq<char>, wasDirty: bool, bk: Option<string>)
    reads n`dirty, n`backup, n.command
  {
    !n.dirty &&
    (wasDirty ==> bk.Some? && n.Text() == bk.value && n.backup.None?) &&
    (!wasDirty ==> n.command[..] == text && n.backup == bk)
  }

  /** Node n still holds `text`, `wasDirty` and `bk`. */
  ghost predicate Untouched(n: Node, text: seq<char>, wasDirty: bool, bk: Option<string>)
    reads n`dirty, n`backup, n.command
  {
    n.command[..] == text && n.dirty == wasDirty && n.backup == bk
  }

  /** Where cleanHistory has got to on node n: a node already passed is
      restored, a node still ahead is untouched and, if dirty, has a backup. */
  ghost predicate Swept(n: Node, done: bool, text: seq<char>, wasDirty: bool, bk: Option<string>)
    reads n`dirty, n`backup, n.command
  {
    n.Valid() &&
    (done ==> Cleaned(n, text, wasDirty, bk)) &&
    (!done ==> Untouched(n, text, wasDirty, bk) && (wasDirty ==> bk.Some?))
  }

  /** The history (struct S_History): the nodes in order, first to last. */
  class History {
    var first: Node?
    var last: Node?
    ghost var nodes: seq<Node>

    /** The line buffers of the nodes. */
    ghost function Buffers(): set<array<char>>
      reads this
    {
      set i | 0 <= i < |nodes| :: nodes[i].command
    }

    /** The node before the i-th one, NULL for the first. */
    ghost function Before(i: nat): Node?
      requires i < |nodes|
      reads this
    {
      if i == 0 then null else nodes[i - 1]
    }

    /** The node after the i-th one, NULL for the last. */
    ghost function After(i: nat): Node?
      requires i < |nodes|
      reads this
    {
      if i + 1 < |nodes| then nodes[i + 1] else null
    }

    /** first/last name the ends and prev/next link neighbours. */
    ghost predicate Linked()
      reads this, nodes`prev, nodes`next
    {
      (nodes == [] ==> first == null && last == null) &&
      (nodes != [] ==> first == nodes[0] && last == nodes[|nodes| - 1]) &&
      (forall i {:trigger nodes[i].prev} :: 0 <= i < |nodes| ==> nodes[i].prev == Before(i)) &&
      (forall i {:trigger nodes[i].next} :: 0 <= i < |nodes| ==> nodes[i].next == After(i))
    }

    /** Every node and every buffer appears once. */
    ghost predicate Distinct()
      reads this
    {
      forall i, j :: 0 <= i < j < |nodes| ==> nodes[i] != nodes[j] && nodes[i].command != nodes[j].command
    }

    /** A well-linked list of distinct, well-formed nodes. */
    ghost predicate Valid()
      reads this, nodes`prev, nodes`next, nodes`backup
    {
      Linked() && Distinct() && forall i :: 0 <= i < |nodes| ==> nodes[i].Valid()
    }

    /** initHist (src/history.c:13-16). */
    constructor ()
      ensures Valid() && nodes == [] && first == null && last == null
    {
      first := null;
      last := null;
      nodes := [];
    }

    /** append (src/history.c:51-64): a new clean node holding cmd becomes the
        last one, linked after the old last; `first` is set if the history
        was empty. Earlier nodes keep their text, flags and backups. */
    method Append(cmd: Option<string>)
      requires Valid()
      requires cmd.Some? ==> |cmd.value| < MAX_LINE_COMMAND && '\0' !in cmd.value
      modifies this, nodes`next
      ensures Valid() && |nodes| == |old(nodes)| + 1 && nodes[..|old(nodes)|] == old(nodes)
      ensures fresh(last) && fresh(last.command) && !last.dirty && last.backup.None?
      ensures cmd.Some? ==> last.Text() == cmd.value
      ensures first == if old(first) == null then last else old(first)
    {
      ghost var ns := nodes;
      var node := new Node(cmd, null, last);
      if last != null {
        last.next := node;
      }
      last := node;
      if first == null {
        first := node;
      }
      nodes := nodes + [node];
      forall i | 0 <= i < |nodes|
        ensures nodes[i].Valid() && nodes[i].prev == Before(i) && nodes[i].next == After(i)
      {
        if i < |ns| {
          assert nodes[i] == ns[i] && old(ns[i].Valid()) && ns[i] != node;
          assert old(ns[i].prev) == old(Before(i));
          if i + 1 < |ns| {
            assert ns[i] != ns[|ns| - 1];
            assert old(ns[i].next) == old(After(i));
          }
        }
      }
      assert Linked();
      assert Distinct() by {
        forall i, j | 0 <= i < j < |nodes|
          ensures nodes[i] != nodes[j] && nodes[i].command != nodes[j].command
        {
          if j < |ns| {
            assert ns[i] != ns[j] && ns[i].command != ns[j].command;
          }
        }
      }
    }

    /** appendUnprotectEntry (src/history.c:66-69): a new last line for typing,
        dirty and without backup. */
    method AppendUnprotectEntry()
      requires Valid()
      modifies this, nodes`next
      ensures Valid() && |nodes| == |old(nodes)| + 1 && nodes[..|old(nodes)|] == old(nodes)
      ensures fresh(last) && last.IsUnprotectEntry()
      ensures first == if old(first) == null then last else old(first)
    {
      Append(None);
      last.dirty := true;
    }

    /** nextCommand (src/history.c:79-84): the cursor moves to the following
        line (NULL after the last); a NULL cursor stays NULL. */
    function NextCommand(line: Node?): (r: Node?)
      requires Linked() && (line == null || line in nodes)
      reads this, nodes`prev, nodes`next
      ensures line == null ==> r == null
      ensures forall i :: 0 <= i < |nodes| && nodes[i] == line ==>
        r == if i + 1 < |nodes| then nodes[i + 1] else null
    {
      if line == null then null else line.next
    }

    /** prevCommand (src/history.c:86-91): the cursor moves to the preceding
        line (NULL before the first); a NULL cursor stays NULL. */
    function PrevCommand(line: Node?): (r: Node?)
      requires Linked() && (line == null || line in nodes)
      reads this, nodes`prev, nodes`next
      ensures line == null ==> r == null
      ensures forall i :: 0 <= i < |nodes| && nodes[i] == line ==>
        r == if i > 0 then nodes[i - 1] else null
    {
      if line == null then null else line.prev
    }

    /** Going down then up comes back to the same line. */
    lemma NextThenPrev(line: Node)
      requires Linked() && line in nodes && NextCommand(line) != null
      ensures NextCommand(line) in nodes && PrevCommand(NextCommand(line)) == line
    {
      var i :| 0 <= i < |nodes| && nodes[i] == line;
      assert NextCommand(line) == nodes[i + 1];
    }

    /** cleanHistory (src/history.c:93-101): every line is restored; afterwards
        none is dirty, each line that was dirty holds its backup text again,
        and the others are untouched. No node may be dirty without a backup. */
    method CleanHistory()
      requires Valid()
      requires forall i :: 0 <= i < |nodes| && nodes[i].dirty ==> nodes[i].backup.Some?
      modifies nodes, Buffers()
      ensures Valid()
      ensures forall i :: 0 <= i < |nodes| ==> !nodes[i].dirty
      ensures forall i :: 0 <= i < |nodes| && old(nodes[i].dirty) ==>
        nodes[i].Text() == old(nodes[i].backup).value && nodes[i].backup.None?
      ensures forall i :: 0 <= i < |nodes| && !old(nodes[i].dirty) ==>
        nodes[i].command[..] == old(nodes[i].command[..]) && nodes[i].backup == old(nodes[i].backup)
    {
      ghost var ns := nodes;
      var curr := first;
      ghost var k := 0;
      while curr != null
        invariant 0 <= k <= |ns| && nodes == ns
        invariant curr == if k < |ns| then ns[k] else null
        invariant Linked() && Distinct()
        invariant forall i :: 0 <= i < |ns| ==>
          Swept(ns[i], i < k, old(ns[i].command[..]), old(ns[i].dirty), old(ns[i].backup))
        decreases |ns| - k
      {
        curr.Restore();
        curr := curr.next;
        k := k + 1;
      }
    }

    /** removeLast (src/history.c:124-143): the last node is dropped; the node
        before it becomes last with no successor, or the history becomes
        empty; an empty history is unchanged. */
    method RemoveLast()
      requires Valid()
      modifies this, nodes`next
      ensures Valid()
      ensures old(nodes) == [] ==> nodes == [] && first == null && last == null
      ensures old(nodes) != [] ==> nodes == old(nodes)[..|old(nodes)| - 1]
      ensures |old(nodes)| == 1 ==> first == null && last == null
      ensures |old(nodes)| > 1 ==> last == old(nodes)[|old(nodes)| - 2] && last.next == null && first == old(first)
    {
      var rm := last;
      if rm != null {
        assert rm == nodes[|nodes| - 1];
        if rm.prev != null {
          assert rm.prev == nodes[|nodes| - 2];
          rm.prev.next := null;
          last := rm.prev;
        } else {
          first := null;
          last := null;
        }
        nodes := nodes[..|nodes| - 1];
      }
    }
  }
}
