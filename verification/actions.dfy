/**
  The editing commands (vim.ts:816-993, docs/index.js:584-730). Each is a
  function from the editor state and the merged node record to the next
  state. Where a command misbehaves at the very start of a buffer, the
  command as written is kept beside the corrected one, and the interpreter
  runs the corrected one.
 */
module Actions {
  import opened Wrappers
  import opened JsString
  import opened Lines
  import opened Boundaries
  import opened CommandTree
  import opened Editor
  import Motion
  import Selection
  import Brackets

  /** A pending count: decimal digits that do not start with a zero. */
  predicate CountText(s: string) {
    && (forall i :: 0 <= i < |s| ==> '0' <= s[i] <= '9')
    && (s == [] || s[0] != '0')
  }

  /** `"" + data.digit`: a missing digit prints as `undefined`. */
  function DigitText(d: Option<DigitChar>): string {
    match d
    case Some(c) => [c]
    case None => "undefined"
  }

  /**
    `actionDigit` (docs/index.js:601-607; `actionDigit` and `actionZero` of
    vim.ts:836-850 together): a digit extends the pending count, except that
    a zero with no count pending moves to the start of the line.
   */
  function ActionDigit(vim: Vim, d: NodeData): (r: Vim)
    ensures r.version == vim.version && r.roots == vim.roots && r.node == vim.node && r.data == vim.data
    ensures r.undo == vim.undo && r.redo == vim.redo && r.mode == vim.mode && Text(r) == Text(vim)
    ensures CountText(vim.digits) && d.digit.Some? ==> CountText(r.digits)
    ensures d.digit.Some? && (vim.digits != [] || d.digit.value != '0') ==>
      r == vim.(digits := vim.digits + [d.digit.value])
    ensures vim.digits == [] && d.digit == Some('0') ==>
      r.digits == [] && (Coherent(vim) ==> GetCaret(r) == LineStart(Text(vim), GetCaret(vim)))
    ensures Coherent(vim) ==> Coherent(r)
  {
    if vim.digits == [] && d.digit == Some('0') then
      SetCaret(vim, LineStart(Text(vim), GetCaret(vim)))
    else
      vim.(digits := vim.digits + DigitText(d.digit))
  }

  /** `actionMove` (vim.ts:852-856): the caret goes where the record's motion sends it. */
  function ActionMove(vim: Vim, d: NodeData): (r: Vim)
    ensures Keeps(vim, r) && r.mode == vim.mode && Text(r) == Text(vim) && r.clipboard == vim.clipboard
    ensures d.move.None? ==> r == vim
    ensures d.move.Some? && Coherent(vim) ==>
      GetCaret(r) == Motion.Apply(d.move.value, Text(vim), GetCaret(vim))
    ensures Coherent(vim) ==> Coherent(r)
  {
    match d.move
    case Some(m) => SetCaret(vim, Motion.Apply(m, Text(vim), GetCaret(vim)))
    case None => vim
  }

  /**
    `actionAppend` (vim.ts:858-862): insert mode one character to the right,
    except on the line's newline or at the end, where the caret stays.
   */
  function ActionAppend(vim: Vim): (r: Vim)
    ensures Keeps(vim, r) && r.mode == Insert && Text(r) == Text(vim) && r.clipboard == vim.clipboard
    ensures Coherent(vim) ==> Coherent(r)
    ensures var t, c := Text(vim), GetCaret(vim);
      Coherent(vim) && 0 <= c <= |t| ==>
        && (IsLineEnd(t, c) ==> GetCaret(r) == c)
        && (!IsLineEnd(t, c) ==> GetCaret(r) == c + 1)
  {
    var c := GetCaret(vim);
    SetMode(SetCaret(vim, Min(c + 1, LineEnd(Text(vim), c))), Insert)
  }

  /** `actionAppendToEnd` (vim.ts:864-867): insert mode at the end of the caret's line. */
  function ActionAppendToEnd(vim: Vim): (r: Vim)
    ensures Keeps(vim, r) && r.mode == Insert && Text(r) == Text(vim) && r.clipboard == vim.clipboard
    ensures Coherent(vim) ==> Coherent(r)
    ensures var t, c := Text(vim), GetCaret(vim);
      Coherent(vim) && 0 <= c <= |t| ==>
        && c <= GetCaret(r) <= |t| && IsLineEnd(t, GetCaret(r))
        && forall k :: c <= k < GetCaret(r) ==> t[k] != '\n'
  {
    SetMode(SetCaret(vim, LineEnd(Text(vim), GetCaret(vim))), Insert)
  }

  /** `actionInsert` (vim.ts:869-871): insert mode where the caret is. */
  function ActionInsert(vim: Vim): (r: Vim)
    ensures Keeps(vim, r) && r.mode == Insert && Text(r) == Text(vim)
    ensures Coherent(vim) ==> Coherent(r) && GetCaret(r) == GetCaret(vim)
  {
    SetMode(vim, Insert)
  }

  /** `actionVisualMode` (vim.ts:873-875): visual mode, anchored at the caret. */
  function ActionVisualMode(vim: Vim): (r: Vim)
    ensures Keeps(vim, r) && r.mode == Visual && Text(r) == Text(vim)
    ensures Coherent(vim) ==> Coherent(r) && GetCaret(r) == GetCaret(vim)
    ensures Coherent(vim) && vim.mode != Visual ==>
      r.anchor == Some(GetCaret(vim)) && r.host.selectionStart == r.host.selectionEnd
  {
    SetMode(vim, Visual)
  }

  /**
    `actionUndo` of the first revision (vim.ts:877-884): the newest snapshot
    is popped and its text and caret restored; nothing records what is undone.
   */
  function ActionUndoLegacy(vim: Vim): (r: Vim)
    ensures r.version == vim.version && r.roots == vim.roots && r.node == vim.node && r.data == vim.data
    ensures r.digits == vim.digits && r.mode == vim.mode && r.redo == vim.redo
    ensures vim.undo == [] ==> r == vim
    ensures vim.undo != [] ==>
      && r.undo == vim.undo[..|vim.undo| - 1]
      && Text(r) == vim.undo[|vim.undo| - 1].text
      && (Coherent(vim) ==> GetCaret(r) == vim.undo[|vim.undo| - 1].caret)
    ensures Coherent(vim) ==> Coherent(r)
  {
    if vim.undo == [] then vim
    else
      var u := vim.undo[|vim.undo| - 1];
      var popped := vim.(undo := vim.undo[..|vim.undo| - 1]);
      Edit(popped, u.text, u.caret)
  }

  /**
    `actionUndo` (docs/index.js:628-638): as in the first revision, and the
    current text is pushed on the redo history with the restored caret.
   */
  function ActionUndo(vim: Vim): (r: Vim)
    ensures r.version == vim.version && r.roots == vim.roots && r.node == vim.node && r.data == vim.data
    ensures r.digits == vim.digits && r.mode == vim.mode
    ensures |r.undo| + |r.redo| == |vim.undo| + |vim.redo|
    ensures vim.undo == [] ==> r == vim
    ensures vim.undo != [] ==>
      var u := vim.undo[|vim.undo| - 1];
      && r.undo == vim.undo[..|vim.undo| - 1]
      && r.redo == vim.redo + [Snapshot(Text(vim), u.caret)]
      && Text(r) == u.text
      && (Coherent(vim) ==> GetCaret(r) == u.caret)
    ensures Coherent(vim) ==> Coherent(r)
  {
    if vim.undo == [] then vim
    else
      var u := vim.undo[|vim.undo| - 1];
      var moved := vim.(undo := vim.undo[..|vim.undo| - 1], redo := vim.redo + [Snapshot(Text(vim), u.caret)]);
      Edit(moved, u.text, u.caret)
  }

  /** `actionRedo` (docs/index.js:639-649): the mirror image of `actionUndo`. */
  function ActionRedo(vim: Vim): (r: Vim)
    ensures r.version == vim.version && r.roots == vim.roots && r.node == vim.node && r.data == vim.data
    ensures r.digits == vim.digits && r.mode == vim.mode
    ensures |r.undo| + |r.redo| == |vim.undo| + |vim.redo|
    ensures vim.redo == [] ==> r == vim
    ensures vim.redo != [] ==>
      var u := vim.redo[|vim.redo| - 1];
      && r.redo == vim.redo[..|vim.redo| - 1]
      && r.undo == vim.undo + [Snapshot(Text(vim), u.caret)]
      && Text(r) == u.text
      && (Coherent(vim) ==> GetCaret(r) == u.caret)
    ensures Coherent(vim) ==> Coherent(r)
  {
    if vim.redo == [] then vim
    else
      var u := vim.redo[|vim.redo| - 1];
      var moved := vim.(redo := vim.redo[..|vim.redo| - 1], undo := vim.undo + [Snapshot(Text(vim), u.caret)]);
      Edit(moved, u.text, u.caret)
  }

  /**
    Redo undoes an undo: the text and both histories are as they were, and
    the caret is where the undone snapshot had it.
   */
  lemma RedoAfterUndo(vim: Vim)
    requires Coherent(vim) && vim.undo != []
    ensures var r := ActionRedo(ActionUndo(vim));
      && Text(r) == Text(vim) && r.undo == vim.undo && r.redo == vim.redo
      && GetCaret(r) == vim.undo[|vim.undo| - 1].caret
  {
    var u := ActionUndo(vim);
    assert u.redo[..|u.redo| - 1] == vim.redo;
    assert u.undo + [vim.undo[|vim.undo| - 1]] == vim.undo;
  }

  /** Undo undoes a redo, in the same sense. */
  lemma UndoAfterRedo(vim: Vim)
    requires Coherent(vim) && vim.redo != []
    ensures var r := ActionUndo(ActionRedo(vim));
      && Text(r) == Text(vim) && r.undo == vim.undo && r.redo == vim.redo
      && GetCaret(r) == vim.redo[|vim.redo| - 1].caret
  {
    var u := ActionRedo(vim);
    assert u.undo[..|u.undo| - 1] == vim.undo;
    assert u.redo + [vim.redo[|vim.redo| - 1]] == vim.redo;
  }

  /**
    `actionDeleteRange` (vim.ts:886-890): the selected range is cut to the
    clipboard, the caret left at its start, and the record's mode entered.
   */
  function ActionDeleteRange(vim: Vim, d: NodeData): (r: Vim)
    ensures Keeps(vim, r) && r.mode == d.mode.GetOr(Command)
    ensures Coherent(vim) ==> Coherent(r)
    ensures var t, s := Text(vim), GetSelection(vim, d);
      0 <= s.start <= s.end <= |t| ==>
        && Text(r) == t[..s.start] + t[s.end..]
        && (s.start < s.end ==>
              r.clipboard == (if vim.allowClipboardReset then [] else vim.clipboard) + t[s.start..s.end])
        && (Coherent(vim) ==> GetCaret(r) == s.start)
  {
    var s := GetSelection(vim, d);
    SetMode(Yank(vim, s.start, s.end, true), d.mode.GetOr(Command))
  }

  /**
    `da(` with no enclosing pair (vim.ts:117, vim.ts:639-683): `selectBrackets`
    answers the inverted `[pos, 0]`, and `yank` splices `slice(0, pos) + slice(0)`,
    so the text before the caret comes back followed by the whole buffer. The
    clipboard is untouched.
   */
  lemma DeleteAroundUnmatchedDuplicatesPrefix(vim: Vim, d: NodeData, open: char, close: char)
    requires d.select == Some(Selection.Bounds(open, close)) && open != close
    requires var t, pos := Text(vim), GetCaret(vim);
      0 <= pos <= |t| && forall l, q :: !Brackets.EnclosingPair(t, open, close, pos, l, q)
    ensures var t, pos, r := Text(vim), GetCaret(vim), ActionDeleteRange(vim, d);
      Text(r) == t[..pos] + t && r.clipboard == vim.clipboard
  {
    var t, pos := Text(vim), GetCaret(vim);
    Brackets.SelectBoundsInnermost(t, pos, open, close);
    assert GetSelection(vim, d) == Range(pos, 0);
    assert Slice(t, 0, pos) == t[..pos] && SliceFrom(t, 0) == t;
  }

  /**
    `di(` with no enclosing pair (vim.ts:134, vim.ts:521-529): `inside` turns
    `[pos, 0]` into `[pos + 1, -1]`, and `slice` counts -1 from the end. The cut
    takes everything after the caret's character up to, not including, the
    last character; the text keeps `t[..pos + 1]` and that last character.
   */
  lemma DeleteInsideUnmatchedCutsToLast(vim: Vim, d: NodeData, open: char, close: char)
    requires d.select == Some(Selection.InsideBounds(open, close)) && open != close
    requires var t, pos := Text(vim), GetCaret(vim);
      0 < pos <= |t| && forall l, q :: !Brackets.EnclosingPair(t, open, close, pos, l, q)
    ensures var t, pos, r := Text(vim), GetCaret(vim), ActionDeleteRange(vim, d);
      && Text(r) == t[..Min(pos + 1, |t|)] + t[|t| - 1..]
      && (pos + 1 < |t| - 1 ==>
            r.clipboard == (if vim.allowClipboardReset then [] else vim.clipboard) + t[pos + 1..|t| - 1])
      && (pos + 1 >= |t| - 1 ==> r.clipboard == vim.clipboard)
  {
    var t, pos := Text(vim), GetCaret(vim);
    Selection.InsideBoundsUnmatched(t, pos, open, close);
    assert GetSelection(vim, d) == Range(pos + 1, -1);
    assert Slice(t, pos + 1, -1) == if pos + 1 < |t| - 1 then t[pos + 1..|t| - 1] else [];
    assert Slice(t, 0, pos + 1) == t[..Min(pos + 1, |t|)];
    assert SliceFrom(t, -1) == t[|t| - 1..];
  }

  /** The caret's line is empty: the caret is on its newline, or at the end, right after a newline or at 0. */
  predicate EmptyLineAt(t: string, c: int) {
    IsLineEnd(t, c) && (c == 0 || CharIs(t, c - 1, '\n'))
  }

  /** `u` is `t` with its character at `k`, not a newline, removed. */
  predicate RemovedAt(t: string, k: int, u: string) {
    0 <= k < |t| && t[k] != '\n' && u == t[..k] + t[k + 1..]
  }

  /**
    `actionDeleteChar` as written in the later revision (docs/index.js:655-663).
    It steps back from a line end without checking for the buffer's start, so
    at caret 0 on a buffer that opens with a newline it yanks `[-1, 0)`.
   */
  function DeleteCharAsWritten(vim: Vim, d: NodeData): Vim {
    var t, c := Text(vim), GetCaret(vim);
    var k := if IsLineEnd(t, c) then c - 1 else c;
    var cut := if !IsLineEnd(t, k) then Yank(vim, k, k + 1, true) else vim;
    SetMode(cut, d.mode.GetOr(Command))
  }

  /**
    `actionDeleteChar` as written in the first revision (vim.ts:892-904): on a
    newline it deletes the character before, and at caret 0 that is `[-1, 0)`.
   */
  function DeleteCharLegacyAsWritten(vim: Vim, d: NodeData): Vim {
    var t, c := Text(vim), GetCaret(vim);
    var cut :=
      if !CharIs(t, c, '\n') then Yank(vim, c, c + 1, true)
      else if !CharIs(t, c - 1, '\n') then Yank(vim, c - 1, c, true)
      else vim;
    SetMode(cut, d.mode.GetOr(Command))
  }

  /**
    `x` on a buffer that opens with an empty line, caret at 0, in either
    revision as written: `slice(0, -1) + slice(0)` puts the whole buffer after
    all of it but its last character. The corrected command leaves the buffer
    alone; everywhere else the two agree.
   */
  lemma DeleteCharDuplicatesBuffer(vim: Vim, d: NodeData)
    requires Coherent(vim) && vim.mode == Command
    requires GetCaret(vim) == 0 && CharIs(Text(vim), 0, '\n')
    ensures var t := Text(vim);
      && Text(DeleteCharAsWritten(vim, d)) == t[..|t| - 1] + t
      && Text(DeleteCharLegacyAsWritten(vim, d)) == t[..|t| - 1] + t
      && Text(ActionDeleteChar(vim, d)) == t
  {
    var t := Text(vim);
    assert Slice(t, -1, 0) == [];
    assert Slice(t, 0, -1) == t[..|t| - 1];
  }

  /** Away from caret 0 on a line end, each revision's `x` as written is the corrected one. */
  lemma DeleteCharAsWrittenAgrees(vim: Vim, d: NodeData)
    requires GetCaret(vim) >= 0
    ensures vim.version == Current && !(GetCaret(vim) == 0 && IsLineEnd(Text(vim), 0)) ==>
      DeleteCharAsWritten(vim, d) == ActionDeleteChar(vim, d)
    ensures vim.version == Legacy && !(GetCaret(vim) == 0 && CharIs(Text(vim), 0, '\n')) ==>
      DeleteCharLegacyAsWritten(vim, d) == ActionDeleteChar(vim, d)
  {
  }

  /** The first revision's `x` before its mode switch, corrected. */
  function DeleteCharLegacyCut(vim: Vim): (r: Vim)
    ensures Keeps(vim, r) && r.mode == vim.mode
    ensures Coherent(vim) ==> Coherent(r)
    ensures var t, c := Text(vim), GetCaret(vim);
      Coherent(vim) && 0 <= c <= |t| ==>
        && (|Text(r)| == |t| ==> Text(r) == t)
        && (|Text(r)| != |t| ==> RemovedAt(t, GetCaret(r), Text(r)) && c - 1 <= GetCaret(r) <= c)
        && (c < |t| && t[c] != '\n' ==> RemovedAt(t, c, Text(r)) && GetCaret(r) == c)
        && (|Text(r)| == |t| <==> c == |t| || (t[c] == '\n' && (c == 0 || t[c - 1] == '\n')))
  {
    var t, c := Text(vim), GetCaret(vim);
    if !CharIs(t, c, '\n') then
      var r := Yank(vim, c, c + 1, true);
      assert 0 <= c < |t| ==> Text(r) == t[..c] + t[c + 1..];
      assert c == |t| ==> Text(r) == t;
      r
    else if c >= 1 && !CharIs(t, c - 1, '\n') then
      var r := Yank(vim, c - 1, c, true);
      assert Text(r) == t[..c - 1] + t[c..];
      r
    else vim
  }

  /** The later revision's `x` before its mode switch, corrected. */
  function DeleteCharCut(vim: Vim): (r: Vim)
    ensures Keeps(vim, r) && r.mode == vim.mode
    ensures Coherent(vim) ==> Coherent(r)
    ensures var t, c := Text(vim), GetCaret(vim);
      Coherent(vim) && 0 <= c <= |t| ==>
        && (|Text(r)| == |t| ==> Text(r) == t)
        && (|Text(r)| != |t| ==> RemovedAt(t, GetCaret(r), Text(r)) && c - 1 <= GetCaret(r) <= c)
        && (c < |t| && t[c] != '\n' ==> RemovedAt(t, c, Text(r)) && GetCaret(r) == c)
        && (|Text(r)| == |t| <==> EmptyLineAt(t, c))
  {
    var t, c := Text(vim), GetCaret(vim);
    var k := if IsLineEnd(t, c) then c - 1 else c;
    var r := if k >= 0 && !IsLineEnd(t, k) then Yank(vim, k, k + 1, true) else vim;
    if 0 <= c <= |t| then StepBackIndex(t, c); r else r
  }

  /**
    `actionDeleteChar`, corrected: as each revision wrote it, except that the
    step back to the character before the caret never goes below 0. In both
    revisions `x` removes at most one character, never a newline, and leaves
    the caret where it removed it; the later one removes nothing exactly on
    an empty line.
   */
  function ActionDeleteChar(vim: Vim, d: NodeData): (r: Vim)
    ensures Keeps(vim, r) && r.mode == d.mode.GetOr(Command)
    ensures Coherent(vim) ==> Coherent(r)
    ensures var t, c := Text(vim), GetCaret(vim);
      Coherent(vim) && 0 <= c <= |t| ==>
        && (|Text(r)| == |t| ==> Text(r) == t)
        && (|Text(r)| != |t| ==> RemovedAt(t, GetCaret(r), Text(r)) && c - 1 <= GetCaret(r) <= c)
        && (c < |t| && t[c] != '\n' ==> RemovedAt(t, c, Text(r)) && GetCaret(r) == c)
        && (vim.version == Current ==> (|Text(r)| == |t| <==> EmptyLineAt(t, c)))
        && (vim.version == Legacy ==> (|Text(r)| == |t| <==> c == |t| || (t[c] == '\n' && (c == 0 || t[c - 1] == '\n'))))
  {
    var cut := if vim.version == Legacy then DeleteCharLegacyCut(vim) else DeleteCharCut(vim);
    SetMode(cut, d.mode.GetOr(Command))
  }

  /** The key `r` stores as the replacement; a missing one prints as `undefined`. */
  function NextCharText(d: NodeData): string {
    d.nextChar.GetOr("undefined")
  }

  /** The edit `r` makes once it has settled on the index `k`: the key read takes the place of `t[k]`. */
  function ReplaceAt(vim: Vim, d: NodeData, k: int): (r: Vim)
    ensures Keeps(vim, r) && r.mode == vim.mode && r.anchor == vim.anchor && r.clipboard == vim.clipboard
    ensures var t := Text(vim); 0 <= k < |t| ==> Text(r) == t[..k] + NextCharText(d) + t[k + 1..]
    ensures Coherent(vim) ==> Coherent(r) && GetCaret(r) == k
  {
    var t := Text(vim);
    Edit(vim, Slice(t, 0, k) + NextCharText(d) + SliceFrom(t, k + 1), k)
  }

  /**
    The index `x` and `r` settle on: the caret, or the character before it
    on a line end. It holds a character other than a newline exactly when
    the caret's line is not empty.
   */
  lemma StepBackIndex(t: string, c: int)
    requires 0 <= c <= |t|
    ensures var k := if IsLineEnd(t, c) then c - 1 else c;
      && (k >= 0 && !IsLineEnd(t, k) <==> !EmptyLineAt(t, c))
      && (!EmptyLineAt(t, c) ==> c - 1 <= k <= c && 0 <= k < |t| && t[k] != '\n')
  {
  }

  /**
    `actionReplaceChar` as written (docs/index.js:664-673): the same step back
    as `actionDeleteChar`, with the same fault at caret 0.
   */
  function ReplaceCharAsWritten(vim: Vim, d: NodeData): (r: Vim)
    ensures GetCaret(vim) >= 0 && !(GetCaret(vim) == 0 && IsLineEnd(Text(vim), 0)) ==>
      r == ActionReplaceChar(vim, d)
  {
    var t, c := Text(vim), GetCaret(vim);
    var k := if IsLineEnd(t, c) then c - 1 else c;
    var replaced :=
      if !IsLineEnd(t, k) then ReplaceAt(vim, d, k)
      else vim;
    SetMode(replaced, d.mode.GetOr(Command))
  }

  /** `r` at caret 0 of a buffer that opens with an empty line, as written, duplicates the buffer too. */
  lemma ReplaceCharDuplicatesBuffer(vim: Vim, d: NodeData)
    requires Coherent(vim) && vim.mode == Command
    requires GetCaret(vim) == 0 && CharIs(Text(vim), 0, '\n')
    ensures var t := Text(vim);
      && Text(ReplaceCharAsWritten(vim, d)) == t[..|t| - 1] + NextCharText(d) + t
      && Text(ActionReplaceChar(vim, d)) == t
  {
    var t := Text(vim);
    assert Slice(t, 0, -1) == t[..|t| - 1];
  }

  /**
    `actionReplaceChar`, corrected like `ActionDeleteChar`: the character the
    caret is on, or the one before it on a line end, is replaced by the key
    read; a newline is never replaced, and an empty line is left alone.
   */
  function ActionReplaceChar(vim: Vim, d: NodeData): (r: Vim)
    ensures Keeps(vim, r) && r.mode == d.mode.GetOr(Command) && r.clipboard == vim.clipboard
    ensures Coherent(vim) ==> Coherent(r)
    ensures var t, c, s := Text(vim), GetCaret(vim), NextCharText(d);
      Coherent(vim) && 0 <= c <= |t| ==>
        && (EmptyLineAt(t, c) ==> Text(r) == t)
        && (!EmptyLineAt(t, c) ==>
              var k := GetCaret(r);
              && c - 1 <= k <= c && 0 <= k < |t| && t[k] != '\n'
              && Text(r) == t[..k] + s + t[k + 1..])
  {
    var t, c := Text(vim), GetCaret(vim);
    var k := if IsLineEnd(t, c) then c - 1 else c;
    var replaced :=
      if k >= 0 && !IsLineEnd(t, k) then ReplaceAt(vim, d, k)
      else vim;
    if 0 <= c <= |t| then StepBackIndex(t, c); SetMode(replaced, d.mode.GetOr(Command))
    else SetMode(replaced, d.mode.GetOr(Command))
  }

  /**
    `actionDeleteCurrentSelection` (vim.ts:906-915): the visual selection is
    cut. The range is half-open, so the character under the right end of the
    selection stays.
   */
  function ActionDeleteCurrentSelection(vim: Vim, d: NodeData): (r: Vim)
    ensures Keeps(vim, r) && r.mode == d.mode.GetOr(Command)
    ensures Coherent(vim) ==> Coherent(r)
    ensures var t, lo, hi := Text(vim), vim.host.selectionStart, vim.host.selectionEnd;
      Coherent(vim) && vim.mode == Visual && 0 <= lo && hi <= |t| ==>
        && Text(r) == t[..lo] + t[hi..]
        && GetCaret(r) == lo
        && (lo < hi ==> r.clipboard == (if vim.allowClipboardReset then [] else vim.clipboard) + t[lo..hi])
  {
    var c, a := GetCaret(vim), vim.anchor.GetOr(0);
    SetMode(Yank(vim, Min(a, c), Max(a, c), true), d.mode.GetOr(Command))
  }

  /** `actionYankRange` (vim.ts:917-920): the selected range is copied and the caret moves to its start. */
  function ActionYankRange(vim: Vim, d: NodeData): (r: Vim)
    ensures Keeps(vim, r) && r.mode == vim.mode && Text(r) == Text(vim)
    ensures Coherent(vim) ==> Coherent(r) && GetCaret(r) == GetSelection(vim, d).start
    ensures var t, s := Text(vim), GetSelection(vim, d);
      0 <= s.start < s.end <= |t| ==>
        r.clipboard == (if vim.allowClipboardReset then [] else vim.clipboard) + t[s.start..s.end]
  {
    var s := GetSelection(vim, d);
    Yank(vim, s.start, s.end, false)
  }

  /**
    `actionPasteAfter` (vim.ts:922-926): the clipboard goes in after the
    caret's character, and the caret moves on by the pasted length: onto the
    last character pasted, or one past it when the caret was at the end.
   */
  function ActionPasteAfter(vim: Vim): (r: Vim)
    ensures Keeps(vim, r) && r.mode == vim.mode && r.clipboard == vim.clipboard
    ensures Coherent(vim) ==> Coherent(r)
    ensures var t, c, p := Text(vim), GetCaret(vim), vim.clipboard;
      Coherent(vim) && 0 <= c <= |t| ==>
        && (c < |t| ==> Text(r) == t[..c + 1] + p + t[c + 1..])
        && (c == |t| ==> Text(r) == t + p)
        && GetCaret(r) == c + |p|
  {
    var c := GetCaret(vim);
    Edit(vim, InsertAt(Text(vim), c + 1, vim.clipboard), c + |vim.clipboard|)
  }

  /** `actionPasteBefore` (vim.ts:928-932): the clipboard goes in at the caret, which stays. */
  function ActionPasteBefore(vim: Vim): (r: Vim)
    ensures Keeps(vim, r) && r.mode == vim.mode && r.clipboard == vim.clipboard
    ensures Coherent(vim) ==> Coherent(r)
    ensures var t, c, p := Text(vim), GetCaret(vim), vim.clipboard;
      Coherent(vim) && 0 <= c <= |t| ==> Text(r) == t[..c] + p + t[c..] && GetCaret(r) == c
  {
    var c := GetCaret(vim);
    Edit(vim, InsertAt(Text(vim), c, vim.clipboard), c)
  }

  /**
    Cutting a non-empty range as the first clipboard write of a command, then
    pasting before the caret, gives back the buffer: `P` undoes `d`.
   */
  lemma PasteBeforeRestoresCut(vim: Vim, d: NodeData)
    requires Coherent(vim) && vim.allowClipboardReset
    requires var s := GetSelection(vim, d); 0 <= s.start < s.end <= |Text(vim)|
    ensures var r := ActionPasteBefore(ActionDeleteRange(vim, d));
      Text(r) == Text(vim) && GetCaret(r) == GetSelection(vim, d).start
  {
    var t, s := Text(vim), GetSelection(vim, d);
    var cut := ActionDeleteRange(vim, d);
    assert Text(cut) == t[..s.start] + t[s.end..];
    assert cut.clipboard == t[s.start..s.end];
    assert Coherent(cut) && GetCaret(cut) == s.start;
    SpliceBack(t, s.start, s.end);
  }

  /** Putting a removed slice back where it was gives the original. */
  lemma SpliceBack(t: string, a: int, b: int)
    requires 0 <= a <= b <= |t|
    ensures var u := t[..a] + t[b..]; a <= |u| && u[..a] + t[a..b] + u[a..] == t
  {
    var u := t[..a] + t[b..];
    assert u[..a] == t[..a] && u[a..] == t[b..];
    assert t[..a] + t[a..b] + t[b..] == t;
  }

  /**
    `actionMergeLines` (vim.ts:934-940): the newline that ends the caret's
    line is removed and the caret put where it was; on the last line nothing
    changes but the caret.
   */
  function ActionMergeLines(vim: Vim): (r: Vim)
    ensures Keeps(vim, r) && r.mode == vim.mode && r.clipboard == vim.clipboard
    ensures Coherent(vim) ==> Coherent(r)
    ensures var t, c := Text(vim), GetCaret(vim);
      Coherent(vim) && 0 <= c <= |t| ==>
        var e := GetCaret(r);
        && c <= e <= |t| && (forall k :: c <= k < e ==> t[k] != '\n')
        && (e < |t| ==> t[e] == '\n' && Text(r) == t[..e] + t[e + 1..])
        && (e == |t| ==> Text(r) == t)
  {
    var t := Text(vim);
    var e := LineEnd(t, GetCaret(vim));
    Edit(vim, Slice(t, 0, e) + SliceFrom(t, e + 1), e)
  }

  /**
    `actionInsertLineAfter` (vim.ts:942-956): a new line below the caret's,
    indented like it, with the caret at the end of the indentation in insert
    mode.
   */
  function ActionInsertLineAfter(vim: Vim): (r: Vim)
    ensures Keeps(vim, r) && r.mode == Insert && r.clipboard == vim.clipboard
    ensures Coherent(vim) ==> Coherent(r)
    ensures var t, c := Text(vim), GetCaret(vim);
      Coherent(vim) && 0 <= c <= |t| ==>
        var e, n := LineEnd(t, c), CountSpaces(t, LineStart(t, c));
        && Text(r) == t[..e] + ("\n" + Spaces(n)) + t[e..]
        && GetCaret(r) == e + 1 + n
        && LineStart(Text(r), GetCaret(r)) == e + 1
  {
    var t, c := Text(vim), GetCaret(vim);
    var b := BreakAt(vim, LineEnd(t, c), CountSpaces(t, LineStart(t, c)));
    SetMode(b, Insert)
  }

  /**
    `actionInsertLineBefore` (vim.ts:958-970): a new line where the caret's
    line begins, indented like it, with the caret at the end of the
    indentation in insert mode.
   */
  function ActionInsertLineBefore(vim: Vim): (r: Vim)
    ensures Keeps(vim, r) && r.mode == Insert && r.clipboard == vim.clipboard
    ensures Coherent(vim) ==> Coherent(r)
    ensures var t, c := Text(vim), GetCaret(vim);
      Coherent(vim) && 0 <= c <= |t| ==>
        var b, n := LineStart(t, c), CountSpaces(t, LineStart(t, c));
        && Text(r) == t[..b] + (Spaces(n) + "\n") + t[b..]
        && GetCaret(r) == b + n && Text(r)[b + n] == '\n'
  {
    var t := Text(vim);
    var b := LineStart(t, GetCaret(vim));
    var spacing := Spaces(CountSpaces(t, b)) + "\n";
    SetMode(Edit(vim, InsertAt(t, b, spacing), b + |spacing| - 1), Insert)
  }

  /** The text transformation `>` (`increaseIndent`) or `<` (`decreaseIndent`) applies. */
  function Reindent(s: string, increase: bool): string {
    if increase then Lines.IncreaseIndent(s) else Lines.DecreaseIndent(s)
  }

  /**
    `actionAlterLineStart` (vim.ts:980-993), behind `>` and `<`: the text from
    the start of the selection's first line to the selection's end is
    re-indented, which changes the indentation of that first line only. The
    caret goes to the first line's old indentation.
   */
  function ActionAlterLineStart(vim: Vim, d: NodeData, increase: bool): (r: Vim)
    ensures Keeps(vim, r) && r.mode == vim.mode && r.clipboard == vim.clipboard
    ensures Coherent(vim) ==> Coherent(r)
    ensures var t, s := Text(vim), GetSelection(vim, d);
      var b := LineStart(t, s.start);
      b <= s.end <= |t| ==>
        && Text(r) == t[..b] + Reindent(t[b..s.end], increase) + t[s.end..]
        && (Coherent(vim) ==> GetCaret(r) == b + CountSpaces(t, b))
  {
    var t := Text(vim);
    var s := GetSelection(vim, d);
    var b := LineStart(t, s.start);
    Edit(vim, Slice(t, 0, b) + Reindent(Slice(t, b, s.end), increase) + SliceFrom(t, s.end), b + CountSpaces(t, b))
  }

  /**
    `>` or `<` with the line selection, on a caret inside the whole line
    `[b, e)`: that line is re-indented and the caret goes to its old
    indentation.
   */
  lemma AlterLineStartOnLine(vim: Vim, d: NodeData, increase: bool, b: nat, e: nat)
    requires Coherent(vim) && d.select == Some(Selection.Line)
    requires var t, c := Text(vim), GetCaret(vim);
      IsLine(t, b, e) && b <= c <= e && (c >= 1 || !CharIs(t, 0, '\n'))
    ensures var t, r := Text(vim), ActionAlterLineStart(vim, d, increase);
      && Text(r) == t[..b] + Reindent(t[b..e], increase) + t[e..]
      && GetCaret(r) == b + CountSpaces(t, b)
  {
    var t, c := Text(vim), GetCaret(vim);
    LineBoundsWithin(t, b, e, c);
    assert GetSelection(vim, d) == Range(b, e);
    LineBoundsWithin(t, b, e, b);
  }

  /**
    The buffer after `>>` on the whole line `[b, e)`: the indented text is
    the whole line `[b, e + TAB_WIDTH)`, and it still holds the caret `>>`
    leaves.
   */
  lemma IndentedLine(t: string, b: nat, e: nat)
    requires IsLine(t, b, e)
    ensures var u, q := t[..b] + Reindent(t[b..e], true) + t[e..], b + CountSpaces(t, b);
      && IsLine(u, b, e + TAB_WIDTH)
      && u[..b] == t[..b] && u[b..e + TAB_WIDTH] == Reindent(t[b..e], true) && u[e + TAB_WIDTH..] == t[e..]
      && b <= q <= e + TAB_WIDTH && (q >= 1 || !CharIs(u, 0, '\n'))
  {
    var m := Lines.IncreaseIndent(t[b..e]);
    ReplaceLine(t, b, e, m);
    assert CountSpaces(t, b) <= e - b by {
      assert !CharIs(t, e, ' ');
    }
    assert m[0] == ' ';
  }

  /** Dedenting the line `>>` indented gives the buffer back. */
  lemma IndentThenDedent(t: string, b: nat, e: nat)
    requires b <= e <= |t|
    ensures var u := t[..b] + Reindent(t[b..e], true) + t[e..];
      u[..b] + Reindent(u[b..e + TAB_WIDTH], false) + u[e + TAB_WIDTH..] == t
  {
    var m := Lines.IncreaseIndent(t[b..e]);
    DecreaseAfterIncrease(t[b..e]);
    SpliceRestored(t, b, e, m);
  }

  /** Replacing `t[b..e]` by `m` and then `m` by the old slice gives `t` back. */
  lemma SpliceRestored<T>(t: seq<T>, b: nat, e: nat, m: seq<T>)
    requires b <= e <= |t|
    ensures var u := t[..b] + m + t[e..];
      u[b..b + |m|] == m && u[..b] + t[b..e] + u[b + |m|..] == t
  {
    var u := t[..b] + m + t[e..];
    assert u[..b] == t[..b];
    assert u[b..b + |m|] == m;
    assert u[b + |m|..] == t[e..];
    assert t == t[..b] + t[b..e] + t[e..];
  }

  /** `<<` on a line `>>` has just indented, with the caret `>>` left: the buffer before `>>` comes back. */
  lemma DedentIndentedLine(v: Vim, d: NodeData, t: string, b: nat, e: nat)
    requires Coherent(v) && d.select == Some(Selection.Line) && IsLine(t, b, e)
    requires Text(v) == t[..b] + Reindent(t[b..e], true) + t[e..]
    requires GetCaret(v) == b + CountSpaces(t, b)
    ensures Text(ActionAlterLineStart(v, d, false)) == t
  {
    var u, q, e' := Text(v), GetCaret(v), e + TAB_WIDTH;
    IndentedLine(t, b, e);
    assert IsLine(u, b, e') && b <= q <= e' && (q >= 1 || !CharIs(u, 0, '\n'));
    AlterLineStartOnLine(v, d, false, b, e');
    IndentThenDedent(t, b, e);
  }

  /** `<<` undoes `>>` for a caret inside the whole line `[b, e)`. */
  lemma DedentUndoesIndentOnLine(vim: Vim, d: NodeData, b: nat, e: nat)
    requires Coherent(vim) && d.select == Some(Selection.Line)
    requires var t, c := Text(vim), GetCaret(vim);
      IsLine(t, b, e) && b <= c <= e && (c >= 1 || !CharIs(t, 0, '\n'))
    ensures Text(ActionAlterLineStart(ActionAlterLineStart(vim, d, true), d, false)) == Text(vim)
  {
    AlterLineStartOnLine(vim, d, true, b, e);
    DedentIndentedLine(ActionAlterLineStart(vim, d, true), d, Text(vim), b, e);
  }

  /**
    `<<` undoes `>>` on a line: the buffer is as it was. At caret 0 of a
    buffer that opens with an empty line the line selection is inverted and
    this does not hold.
   */
  lemma DedentUndoesIndent(vim: Vim, d: NodeData)
    requires Coherent(vim) && d.select == Some(Selection.Line)
    requires var t, c := Text(vim), GetCaret(vim); 0 <= c <= |t| && !(c == 0 && CharIs(t, 0, '\n'))
    ensures Text(ActionAlterLineStart(ActionAlterLineStart(vim, d, true), d, false)) == Text(vim)
  {
    var t, c := Text(vim), GetCaret(vim);
    CaretLine(t, c);
    DedentUndoesIndentOnLine(vim, d, LineStart(t, c), LineEnd(t, c));
  }

  /** A line break and `n` spaces at the caret, with the caret after them, at the start of the new line's text. */
  function InsertIndentedBreak(vim: Vim, n: nat): (r: Vim)
    ensures Keeps(vim, r) && r.mode == vim.mode && r.clipboard == vim.clipboard
    ensures Coherent(vim) ==> Coherent(r)
    ensures var t, c := Text(vim), GetCaret(vim);
      Coherent(vim) && 0 <= c <= |t| ==>
        && Text(r) == t[..c] + ("\n" + Spaces(n)) + t[c..]
        && GetCaret(r) == c + 1 + n
        && LineStart(Text(r), GetCaret(r)) == c + 1
  {
    BreakAt(vim, GetCaret(vim), n)
  }

  /** A line break and `n` spaces at position `p`, with the caret after them. */
  function BreakAt(vim: Vim, p: int, n: nat): (r: Vim)
    ensures Keeps(vim, r) && r.mode == vim.mode && r.clipboard == vim.clipboard
    ensures Coherent(vim) ==> Coherent(r) && GetCaret(r) == p + 1 + n
    ensures var t := Text(vim);
      0 <= p <= |t| ==>
        && Text(r) == t[..p] + ("\n" + Spaces(n)) + t[p..]
        && LineStart(Text(r), p + 1 + n) == p + 1
  {
    var t := Text(vim);
    var r := Edit(vim, InsertAt(t, p, "\n" + Spaces(n)), p + 1 + n);
    if 0 <= p <= |t| then LineStartOfNewIndentedLine(t, p, n); r else r
  }

  /**
    `actionEnterIndend` as written (vim.ts:822-834, docs/index.js:584-592).
    `None` stands for the RangeError `" ".repeat` throws for a negative count,
    which happens when the caret is left of its line start: at caret 0 of a
    buffer that opens with a newline, where `lineStart` answers 1.
   */
  function EnterIndentAsWritten(vim: Vim): (r: Option<Vim>)
    ensures r.None? <==> GetCaret(vim) < LineStart(Text(vim), GetCaret(vim))
    ensures r.Some? ==> r.value == ActionEnterIndent(vim)
  {
    var t, c := Text(vim), GetCaret(vim);
    var b := LineStart(t, c);
    var n := Min(c - b, CountSpaces(t, b));
    assert n >= 0 ==> n == EnterIndentWidth(t, c);
    if n < 0 then None else Some(InsertIndentedBreak(vim, n))
  }

  /** Enter at caret 0 of a buffer that opens with an empty line throws as written; corrected, it inserts a bare newline. */
  lemma EnterIndentThrowsOnLeadingEmptyLine(vim: Vim)
    requires Coherent(vim) && GetCaret(vim) == 0 && CharIs(Text(vim), 0, '\n')
    ensures EnterIndentAsWritten(vim).None?
    ensures Text(ActionEnterIndent(vim)) == "\n" + Text(vim)
  {
  }

  /**
    The indentation Enter carries over to the new line: the caret line's
    indentation, cut off at the caret's column, and never negative.
   */
  function EnterIndentWidth(t: string, c: int): (n: nat)
    ensures 0 <= c <= |t| ==> n == Min(c - LineBegin(t, c), CountSpaces(t, LineBegin(t, c)))
  {
    var b := LineStart(t, c);
    var n := Max(0, Min(c - b, CountSpaces(t, b)));
    if 0 <= c <= |t| then LineStartIsLineBegin(t, c); n else n
  }

  /**
    `actionEnterIndend`, corrected to never repeat a negative number of
    spaces: a newline at the caret, followed by the caret line's
    indentation cut off at the caret's column, with the caret after it on the
    new line.
   */
  function ActionEnterIndent(vim: Vim): (r: Vim)
    ensures Keeps(vim, r) && r.mode == vim.mode && r.clipboard == vim.clipboard
    ensures Coherent(vim) ==> Coherent(r)
    ensures var t, c := Text(vim), GetCaret(vim);
      Coherent(vim) && 0 <= c <= |t| ==>
        var n := EnterIndentWidth(t, c);
        && Text(r) == t[..c] + ("\n" + Spaces(n)) + t[c..]
        && GetCaret(r) == c + 1 + n
        && LineStart(Text(r), GetCaret(r)) == c + 1
  {
    InsertIndentedBreak(vim, EnterIndentWidth(Text(vim), GetCaret(vim)))
  }

  /** JavaScript's `%` for a positive divisor: the remainder takes the dividend's sign. */
  function JsRem(a: int, b: int): (r: int)
    requires b > 0
    ensures -b < r < b
  {
    if a >= 0 then a % b else -((-a) % b)
  }

  /** `n` spaces at the caret, with the caret after them. */
  function InsertSpaces(vim: Vim, n: nat): (r: Vim)
    ensures Keeps(vim, r) && r.mode == vim.mode && r.clipboard == vim.clipboard
    ensures Coherent(vim) ==> Coherent(r)
    ensures var t, c := Text(vim), GetCaret(vim);
      Coherent(vim) && 0 <= c <= |t| ==>
        Text(r) == t[..c] + Spaces(n) + t[c..] && GetCaret(r) == c + n
  {
    var t, c := Text(vim), GetCaret(vim);
    Edit(vim, InsertAt(t, c, Spaces(n)), c + n)
  }

  /**
    `actionTab` as written (docs/index.js:593-600): spaces up to the next tab
    stop. Left of the line start, at caret 0 of a buffer that opens with a
    newline, the column is -1 and JavaScript's `%` makes that five spaces.
   */
  function TabAsWritten(vim: Vim): (r: Vim)
    ensures GetCaret(vim) >= LineStart(Text(vim), GetCaret(vim)) ==> r == ActionTab(vim)
  {
    var t, c := Text(vim), GetCaret(vim);
    var col := c - LineStart(t, c);
    var n := TAB_WIDTH - JsRem(col, TAB_WIDTH);
    if col >= 0 then
      ColumnInStopIsRemainder(col);
      assert n == TabWidth(t, c);
      InsertSpaces(vim, n)
    else InsertSpaces(vim, n)
  }

  /** Tab at caret 0 of a buffer that opens with an empty line: five spaces as written, four corrected. */
  lemma TabOverflowsOnLeadingEmptyLine(vim: Vim)
    requires Coherent(vim) && GetCaret(vim) == 0 && CharIs(Text(vim), 0, '\n')
    ensures Text(TabAsWritten(vim)) == Spaces(TAB_WIDTH + 1) + Text(vim)
    ensures Text(ActionTab(vim)) == Spaces(TAB_WIDTH) + Text(vim)
  {
  }

  /**
    The number of spaces Tab inserts: one to `TAB_WIDTH`, enough to bring the
    caret's column on its line to the next tab stop.
   */
  function TabWidth(t: string, c: int): (n: nat)
    ensures 1 <= n <= TAB_WIDTH
  {
    TAB_WIDTH - ColumnInStop(Max(0, c - LineStart(t, c)))
  }

  /** How far a column is past the last tab stop, by repeated subtraction of `TAB_WIDTH`. */
  function ColumnInStop(col: nat): (r: nat)
    ensures r < TAB_WIDTH
    decreases col
  {
    if col < TAB_WIDTH then col else ColumnInStop(col - TAB_WIDTH)
  }

  /** Repeated subtraction is the remainder. */
  lemma {:induction false} ColumnInStopIsRemainder(col: nat)
    ensures ColumnInStop(col) == col % TAB_WIDTH
    decreases col
  {
    if col >= TAB_WIDTH {
      ColumnInStopIsRemainder(col - TAB_WIDTH);
    }
  }

  /** The spaces `TabWidth` asks for bring the caret's column, counted from its line's beginning, to a tab stop. */
  lemma TabWidthReachesStop(t: string, c: nat)
    requires c <= |t|
    ensures (c + TabWidth(t, c) - LineBegin(t, c)) % TAB_WIDTH == 0
  {
    ColumnInStopIsRemainder(Max(0, c - LineStart(t, c)));
    LineStartIsLineBegin(t, c);
  }

  /** After the spaces `TabWidth` asks for, the caret's column in the new text is a multiple of `TAB_WIDTH`. */
  lemma TabReachesStop(t: string, c: nat)
    requires c <= |t|
    ensures var n := TabWidth(t, c);
      (c + n - LineStart(t[..c] + Spaces(n) + t[c..], c + n)) % TAB_WIDTH == 0
  {
    TabWidthReachesStop(t, c);
    LineStartOfSplice(t, c, Spaces(TabWidth(t, c)));
  }

  /**
    `actionTab`, corrected to measure the column from 0 at the buffer's start:
    the one to `TAB_WIDTH` spaces `TabWidth` asks for at the caret, with the
    caret after them; `TabReachesStop` shows it then stands on a tab stop.
   */
  function ActionTab(vim: Vim): (r: Vim)
    ensures Keeps(vim, r) && r.mode == vim.mode && r.clipboard == vim.clipboard
    ensures Coherent(vim) ==> Coherent(r)
    ensures var t, c := Text(vim), GetCaret(vim);
      Coherent(vim) && 0 <= c <= |t| ==>
        var n := TabWidth(t, c);
        && Text(r) == t[..c] + Spaces(n) + t[c..]
        && GetCaret(r) == c + n
  {
    InsertSpaces(vim, TabWidth(Text(vim), GetCaret(vim)))
  }


  /** The actions that only edit: they leave the walk, the count and the histories alone. */
  function FireEdit(a: Action, vim: Vim, d: NodeData): (r: Vim)
    requires a != Digit && a != Undo && a != Redo
    ensures Keeps(vim, r)
    ensures Coherent(vim) ==> Coherent(r)
  {
    match a
    case Move => ActionMove(vim, d)
    case Append => ActionAppend(vim)
    case AppendToEnd => ActionAppendToEnd(vim)
    case StartInsert => ActionInsert(vim)
    case VisualMode => ActionVisualMode(vim)
    case DeleteRange => ActionDeleteRange(vim, d)
    case DeleteChar => ActionDeleteChar(vim, d)
    case DeleteCurrentSelection => ActionDeleteCurrentSelection(vim, d)
    case YankRange => ActionYankRange(vim, d)
    case ReplaceChar => if vim.version == Legacy then vim else ActionReplaceChar(vim, d)
    case PasteAfter => ActionPasteAfter(vim)
    case PasteBefore => ActionPasteBefore(vim)
    case MergeLines => ActionMergeLines(vim)
    case InsertLineAfter => ActionInsertLineAfter(vim)
    case InsertLineBefore => ActionInsertLineBefore(vim)
    case IncreaseIndent => ActionAlterLineStart(vim, d, true)
    case DecreaseIndent => ActionAlterLineStart(vim, d, false)
  }

  /**
    Running one action, `data.action(vim, data)`, in the revision at hand.
    The first revision has neither redo nor replace-character, so there
    those two do nothing; `x` and `u` run each revision's own command.
   */
  function Fire(a: Action, vim: Vim, d: NodeData): (r: Vim)
    ensures r.version == vim.version && r.roots == vim.roots && r.node == vim.node && r.data == vim.data
    ensures a != Digit ==> r.digits == vim.digits
    ensures CountText(vim.digits) && (a == Digit ==> d.digit.Some?) ==> CountText(r.digits)
    ensures a != Undo && a != Redo ==> r.undo == vim.undo && r.redo == vim.redo
    ensures vim.version == Current ==> |r.undo| + |r.redo| == |vim.undo| + |vim.redo|
    ensures vim.version == Legacy ==> r.redo == vim.redo && r.undo <= vim.undo
    ensures Coherent(vim) ==> Coherent(r)
  {
    match a
    case Digit => ActionDigit(vim, d)
    case Undo => if vim.version == Legacy then ActionUndoLegacy(vim) else ActionUndo(vim)
    case Redo => if vim.version == Legacy then vim else ActionRedo(vim)
    case _ => FireEdit(a, vim, d)
  }
}
