/**
 * The editor's undo/redo history: a bounded, linear log of content snapshots with a
 * cursor at the snapshot currently shown. `Log` is the value-level specification;
 * `History` is the buffer the editor updates in place.
 */
module EditHistory {
  import opened Wrappers

  /** The most snapshots the log keeps; saving beyond it evicts the oldest. */
  const MaxEntries: nat := 50

  function Min(a: int, b: int): int {
    if a <= b then a else b
  }

  /** The last `n` elements of `s`, or all of `s` when it is shorter. */
  function Newest(s: seq<string>, n: nat): (r: seq<string>)
    ensures |r| == Min(|s|, n)
    ensures r == s[|s| - |r|..]
  {
    if |s| <= n then s else s[|s| - n..]
  }

  /** Snapshots oldest first and the index of the current one (-1 while empty). */
  datatype Log = Log(entries: seq<string>, cursor: int) {

    /**
     * The buffer invariant: the cursor indexes an entry, or is -1 when there is none,
     * and the cap holds.
     */
    predicate Valid() {
      -1 <= cursor < |entries| && (cursor == -1 <==> entries == []) && |entries| <= MaxEntries
    }

    /** The undo button is enabled. */
    predicate CanUndo() {
      cursor > 0
    }

    /** The redo button is enabled. */
    predicate CanRedo() {
      cursor < |entries| - 1
    }

    /**
     * Saving a snapshot: everything after the cursor is discarded, the snapshot becomes the
     * newest and current entry, and when the cap is exceeded the oldest entry is evicted.
     */
    function Save(content: string): (r: Log)
      requires Valid()
      ensures r.Valid() && |r.entries| == Min(cursor + 2, MaxEntries)
      ensures r.cursor == |r.entries| - 1 && r.entries[r.cursor] == content
      ensures !r.CanRedo()
      ensures r.entries[..r.cursor] == entries[cursor + 1 - r.cursor..cursor + 1]
    {
      var kept := entries[..cursor + 1] + [content];
      if |kept| > MaxEntries then Log(kept[1..], cursor) else Log(kept, cursor + 1)
    }

    /** Undo: step the cursor back when it is past the first entry, otherwise nothing. */
    function Undo(): (r: Log)
      requires Valid()
      ensures r.Valid() && r.entries == entries
      ensures r.cursor == if CanUndo() then cursor - 1 else cursor
    {
      if cursor > 0 then this.(cursor := cursor - 1) else this
    }

    /** Redo: step the cursor forward when it is before the last entry, otherwise nothing. */
    function Redo(): (r: Log)
      requires Valid()
      ensures r.Valid() && r.entries == entries
      ensures r.cursor == if CanRedo() then cursor + 1 else cursor
    {
      if cursor < |entries| - 1 then this.(cursor := cursor + 1) else this
    }
  }

  /** The history before anything has been saved. */
  const Empty: Log := Log([], -1)

  /** Saves each of `snapshots` in turn. */
  function SaveAll(l: Log, snapshots: seq<string>): (r: Log)
    requires l.Valid()
    ensures r.Valid()
    decreases |snapshots|
  {
    if snapshots == [] then l else SaveAll(l.Save(snapshots[0]), snapshots[1..])
  }

  /** A disabled button is exactly a click that changes nothing. */
  lemma ButtonsMatchHandlers(l: Log)
    requires l.Valid()
    ensures !l.CanUndo() <==> l.Undo() == l
    ensures !l.CanRedo() <==> l.Redo() == l
  {
  }

  /** Undo and redo are inverse steps. */
  lemma UndoRedoInverse(l: Log)
    requires l.Valid()
    ensures l.CanUndo() ==> l.Undo().CanRedo() && l.Undo().Redo() == l
    ensures l.CanRedo() ==> l.Redo().CanUndo() && l.Redo().Undo() == l
  {
  }

  /** Keeping the newest `n` before appending and after appending agree. */
  lemma NewestAppend(a: seq<string>, b: seq<string>, n: nat)
    ensures Newest(Newest(a, n) + b, n) == Newest(a + b, n)
  {
    NewestOfSuffix(a + b, Newest(a, n) + b, n);
  }

  /** Taking the newest `n` of a suffix that has at least `n` elements, or all of `s`, is the same. */
  lemma NewestOfSuffix(s: seq<string>, u: seq<string>, n: nat)
    requires |u| <= |s| && u == s[|s| - |u|..] && (|u| >= n || u == s)
    ensures Newest(u, n) == Newest(s, n)
  {
    if |u| < |s| {
      assert Newest(u, n) == u[|u| - n..];
      assert u[|u| - n..] == s[|s| - n..];
    }
  }

  /** A save with the cursor on the newest entry appends and keeps the newest `MaxEntries`. */
  lemma SaveAtNewest(l: Log, x: string)
    requires l.Valid() && l.cursor == |l.entries| - 1
    ensures l.Save(x).entries == Newest(l.entries + [x], MaxEntries)
  {
    var kept := l.entries[..l.cursor + 1] + [x];
    assert kept == l.entries + [x];
    if |kept| > MaxEntries {
      assert |kept| == MaxEntries + 1;
      assert l.Save(x).entries == kept[1..];
    } else {
      assert l.Save(x).entries == kept;
    }
  }

  /**
   * Saving snapshots while the cursor is at the newest entry keeps exactly the newest
   * `MaxEntries` of the old entries followed by the snapshots, with the cursor on the last.
   */
  lemma {:induction false} SaveAllKeepsNewest(l: Log, snapshots: seq<string>)
    requires l.Valid() && l.cursor == |l.entries| - 1
    ensures SaveAll(l, snapshots).entries == Newest(l.entries + snapshots, MaxEntries)
    ensures SaveAll(l, snapshots).cursor == |SaveAll(l, snapshots).entries| - 1
    decreases |snapshots|
  {
    if snapshots == [] {
      assert l.entries + snapshots == l.entries;
    } else {
      var x, rest := snapshots[0], snapshots[1..];
      var l' := l.Save(x);
      assert SaveAll(l, snapshots) == SaveAll(l', rest);
      SaveAtNewest(l, x);
      SaveAllKeepsNewest(l', rest);
      NewestAppend(l.entries + [x], rest, MaxEntries);
      ConsAppend(l.entries, snapshots);
    }
  }

  lemma ConsAppend(e: seq<string>, snapshots: seq<string>)
    requires snapshots != []
    ensures e + [snapshots[0]] + snapshots[1..] == e + snapshots
  {
    assert [snapshots[0]] + snapshots[1..] == snapshots;
  }

  /**
   * From an empty history, N saves leave min(N, 50) entries, the newest snapshots in order,
   * with the cursor on the last of them.
   */
  lemma SavesFromEmpty(snapshots: seq<string>)
    ensures |SaveAll(Empty, snapshots).entries| == Min(|snapshots|, MaxEntries)
    ensures SaveAll(Empty, snapshots).entries == Newest(snapshots, MaxEntries)
    ensures SaveAll(Empty, snapshots).cursor == Min(|snapshots|, MaxEntries) - 1
  {
    SaveAllKeepsNewest(Empty, snapshots);
    assert Empty.entries + snapshots == snapshots;
  }

  /** The editor's history buffer, updated in place by saves, undos and redos. */
  class History {
    var entries: seq<string>
    var cursor: int

    /** The buffer as a value. */
    function State(): Log
      reads this
    {
      Log(entries, cursor)
    }

    ghost predicate Valid()
      reads this
    {
      State().Valid()
    }

    predicate CanUndo()
      reads this
    {
      State().CanUndo()
    }

    predicate CanRedo()
      reads this
    {
      State().CanRedo()
    }

    /** An empty history with the cursor before the first entry. */
    constructor ()
      ensures Valid() && State() == Empty
    {
      entries := [];
      cursor := -1;
    }

    /** Records `content` as the newest snapshot. */
    method Save(content: string)
      requires Valid()
      modifies this
      ensures Valid() && State() == old(State()).Save(content)
    {
      entries := entries[..cursor + 1];
      entries := entries + [content];
      cursor := cursor + 1;
      if |entries| > MaxEntries {
        entries := entries[1..];
        cursor := cursor - 1;
      }
    }

    /** Steps back one snapshot, returning the content to show, or None when disabled. */
    method Undo() returns (shown: Option<string>)
      requires Valid()
      modifies this
      ensures Valid() && State() == old(State()).Undo()
      ensures shown == if old(CanUndo()) then Some(entries[cursor]) else None
    {
      shown := None;
      if cursor > 0 {
        cursor := cursor - 1;
        shown := Some(entries[cursor]);
      }
    }

    /** Steps forward one snapshot, returning the content to show, or None when disabled. */
    method Redo() returns (shown: Option<string>)
      requires Valid()
      modifies this
      ensures Valid() && State() == old(State()).Redo()
      ensures shown == if old(CanRedo()) then Some(entries[cursor]) else None
    {
      shown := None;
      if cursor < |entries| - 1 {
        cursor := cursor + 1;
        shown := Some(entries[cursor]);
      }
    }

    /** The disabled state of the undo and redo buttons. */
    method EditButtons() returns (undoDisabled: bool, redoDisabled: bool)
      requires Valid()
      ensures undoDisabled <==> State().Undo() == State()
      ensures redoDisabled <==> State().Redo() == State()
    {
      undoDisabled := cursor <= 0;
      redoDisabled := cursor >= |entries| - 1;
    }
  }
}
