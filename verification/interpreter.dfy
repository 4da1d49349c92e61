/**
  The key handler (vim.ts:275-394, docs/index.js:182-291): one key at a
  time, it cancels, passes insert-mode typing through, walks the command
  tree, and on reaching a leaf fires the merged record's action as many
  times as the pending count says, recording undo history around it.
 */
module Interpreter {
  import opened Wrappers
  import opened CommandTree
  import opened Editor
  import opened Actions
  import opened JsString

  /** `REPEAT_LIMIT` (vim.ts:5, docs/index.js:4): the most times a count repeats a command. */
  const REPEAT_LIMIT: nat := 128

  /** `UNDO_LIMIT` of the later revision (docs/index.js:5). */
  const UNDO_LIMIT: nat := 1024

  /** `UNDO_LIMIT` of the first revision (vim.ts:7). */
  const LEGACY_UNDO_LIMIT: nat := 128

  /** A string of decimal digits only. */
  predicate AllDigits(s: string) {
    forall i :: 0 <= i < |s| ==> '0' <= s[i] <= '9'
  }

  /** The number a string of decimal digits spells, most significant digit first. */
  function DecimalValue(s: string): nat
    requires AllDigits(s)
  {
    if s == [] then 0 else 10 * DecimalValue(s[..|s| - 1]) + (s[|s| - 1] as int - '0' as int)
  }

  /** Typing one more digit shifts the number one decimal place and adds the digit. */
  lemma DecimalValueAppend(s: string, c: char)
    requires AllDigits(s) && '0' <= c <= '9'
    ensures AllDigits(s + [c])
    ensures DecimalValue(s + [c]) == 10 * DecimalValue(s) + (c as int - '0' as int)
  {
    assert (s + [c])[..|s|] == s;
  }

  /** A count, which never starts with a zero, is at least one. */
  lemma {:induction false} CountIsPositive(s: string)
    requires CountText(s) && s != []
    ensures AllDigits(s) && DecimalValue(s) >= 1
  {
    if |s| > 1 {
      var p := s[..|s| - 1];
      assert p[0] == s[0];
      CountIsPositive(p);
    }
  }

  /** The length of the run of decimal digits `s` opens with. */
  function DigitRun(s: string): (n: nat)
    ensures n <= |s| && AllDigits(s[..n])
    ensures n < |s| ==> !('0' <= s[n] <= '9')
  {
    if s != [] && '0' <= s[0] <= '9' then
      var n := 1 + DigitRun(s[1..]);
      assert s[..n] == [s[0]] + s[1..][..n - 1];
      n
    else 0
  }

  /**
    `parseInt(s)` on the strings a count is made of: the number the leading
    digits spell, or `NaN` (`None`) when the string does not open with one.
   */
  function ParseDecimal(s: string): (r: Option<nat>)
    ensures r.None? <==> s == [] || !('0' <= s[0] <= '9')
    ensures AllDigits(s) && s != [] ==> r == Some(DecimalValue(s))
  {
    var n := DigitRun(s);
    if n == 0 then None
    else
      assert AllDigits(s) ==> s[..n] == s;
      Some(DecimalValue(s[..n]))
  }

  /**
    The number of times a leaf fires (vim.ts:348-353, docs/index.js:218): once
    for a digit key, otherwise the pending count, or one without a count,
    capped at `REPEAT_LIMIT`; a count that is not a number repeats nothing.
   */
  function RepeatCount(d: NodeData, digits: string): (n: nat)
    ensures n <= REPEAT_LIMIT
    ensures d.digit.Some? ==> n == 1
    ensures d.digit.None? && digits == [] ==> n == 1
    ensures d.digit.None? && digits != [] && AllDigits(digits) ==> n == Min(DecimalValue(digits), REPEAT_LIMIT)
  {
    if d.digit.Some? then 1
    else
      assert "1"[..0] == [];
      match ParseDecimal(if digits == [] then "1" else digits)
      case None => 0
      case Some(v) => Min(v, REPEAT_LIMIT)
  }

  /** A pending count always fires its command at least once and at most `REPEAT_LIMIT` times. */
  lemma RepeatCountOfCount(d: NodeData, digits: string)
    requires CountText(digits)
    ensures 1 <= RepeatCount(d, digits) <= REPEAT_LIMIT
  {
    if digits != [] {
      CountIsPositive(digits);
    }
  }

  /** `for (i = 0; i < repeat; i++) data.action(vim, data)`: the action `n` times over. */
  function RunTimes(a: Action, vim: Vim, d: NodeData, n: nat): (r: Vim)
    ensures r.version == vim.version && r.roots == vim.roots && r.node == vim.node && r.data == vim.data
    ensures a != Digit ==> r.digits == vim.digits
    ensures CountText(vim.digits) && (a == Digit ==> d.digit.Some?) ==> CountText(r.digits)
    ensures a != Undo && a != Redo ==> r.undo == vim.undo && r.redo == vim.redo
    ensures vim.version == Current ==> |r.undo| + |r.redo| == |vim.undo| + |vim.redo|
    ensures vim.version == Legacy ==> r.redo == vim.redo && r.undo <= vim.undo
    ensures Coherent(vim) ==> Coherent(r)
    decreases n
  {
    if n == 0 then vim else RunTimes(a, Fire(a, vim, d), d, n - 1)
  }

  /** The state `toHistoryState` takes (docs/index.js:255-260). */
  function SnapshotOf(vim: Vim): Snapshot {
    Snapshot(Text(vim), GetCaret(vim))
  }

  /**
    `push` followed by `shift` when the history outgrows `limit`: the newest
    `limit` entries of the history with `s` added.
   */
  function PushBounded(h: seq<Snapshot>, s: Snapshot, limit: nat): (r: seq<Snapshot>)
    requires limit >= 1
    ensures r != [] && r[|r| - 1] == s
    ensures |r| <= Max(|h|, limit)
  {
    var pushed := h + [s];
    if |pushed| > limit then pushed[1..] else pushed
  }

  /** On a history within the limit, the push keeps the newest `limit` entries of the history with `s` added, in order. */
  lemma PushBoundedKeepsNewest(h: seq<Snapshot>, s: Snapshot, limit: nat)
    requires limit >= 1 && |h| <= limit
    ensures var r := PushBounded(h, s, limit);
      |r| == Min(|h| + 1, limit) && r == (h + [s])[|h| + 1 - |r|..]
  {
  }

  /**
    `saveUndoState` of the later revision (docs/index.js:282-291): after a
    command that changed the text, the state from before it goes on the undo
    history, the redo history is dropped, and beyond `UNDO_LIMIT` entries the
    oldest is forgotten.
   */
  function SaveUndo(vim: Vim, prev: Snapshot): (r: Vim)
    ensures r == vim.(undo := r.undo, redo := r.redo)
    ensures prev.text == Text(vim) ==> r == vim
    ensures prev.text != Text(vim) ==>
      && r.redo == [] && r.undo == PushBounded(vim.undo, prev, UNDO_LIMIT)
    ensures |vim.undo| + |vim.redo| <= UNDO_LIMIT ==> |r.undo| + |r.redo| <= UNDO_LIMIT
  {
    if prev.text != Text(vim) then vim.(redo := [], undo := PushBounded(vim.undo, prev, UNDO_LIMIT))
    else vim
  }

  /** Neighbouring entries of a history hold different texts. */
  predicate DistinctNeighbours(h: seq<Snapshot>) {
    forall i :: 0 < i < |h| ==> h[i - 1].text != h[i].text
  }

  /** The newest undo entry holds the text `t`. */
  predicate TopHolds(h: seq<Snapshot>, t: string) {
    h != [] && h[|h| - 1].text == t
  }

  /**
    `saveUndoState` of the first revision (vim.ts:379-394), which runs before
    the command: the current text and selection start are pushed, unless the
    newest entry already holds this text, whose caret is then updated.
   */
  function SaveUndoLegacy(vim: Vim): (r: Vim)
    ensures r == vim.(undo := r.undo)
    ensures var s := Snapshot(Text(vim), vim.host.selectionStart);
      && r.undo != [] && r.undo[|r.undo| - 1] == s
      && (TopHolds(vim.undo, Text(vim)) ==> r.undo == vim.undo[..|vim.undo| - 1] + [s])
      && (!TopHolds(vim.undo, Text(vim)) ==> r.undo == PushBounded(vim.undo, s, LEGACY_UNDO_LIMIT))
    ensures |vim.undo| <= LEGACY_UNDO_LIMIT ==> |r.undo| <= LEGACY_UNDO_LIMIT
    ensures DistinctNeighbours(vim.undo) ==> DistinctNeighbours(r.undo)
  {
    var s := Snapshot(Text(vim), vim.host.selectionStart);
    if TopHolds(vim.undo, Text(vim)) then vim.(undo := vim.undo[..|vim.undo| - 1] + [s])
    else vim.(undo := PushBounded(vim.undo, s, LEGACY_UNDO_LIMIT))
  }

  /** What a key press did: the next state, and whether the key was consumed (`preventDefault`). */
  datatype Outcome = Outcome(vim: Vim, handled: bool)

  /** The keys that abandon whatever is going on (vim.ts:278, docs/index.js:183). */
  predicate IsCancel(key: string) {
    key == "Escape" || key == "C-c" || key == "C-s"
  }

  /** The count is cleared unless the leaf is a digit, and the next clipboard write starts afresh (vim.ts:355-359). */
  function Arm(vim: Vim): (r: Vim)
    ensures r == vim.(digits := r.digits, allowClipboardReset := true)
    ensures r.digits == if vim.data.digit.Some? then vim.digits else []
  {
    vim.(digits := if vim.data.digit.Some? then vim.digits else [], allowClipboardReset := true)
  }

  /** The record's action `n` times, or nothing when the record has none. */
  function RunAction(vim: Vim, n: nat): (r: Vim)
    ensures vim.data.action.None? ==> r == vim
    ensures vim.data.action.Some? ==> r == RunTimes(vim.data.action.value, vim, vim.data, n)
  {
    match vim.data.action
    case Some(a) => RunTimes(a, vim, vim.data, n)
    case None => vim
  }

  /**
    A leaf reached in the later revision (docs/index.js:217-231): the action
    runs, then the state from before it is recorded unless the record says
    not to, and the walk restarts.
   */
  function RunLeaf(vim: Vim): (r: Vim)
    ensures r.version == vim.version && r.roots == vim.roots && r.node == RootFor(r.roots, r.mode) && r.data == Empty
  {
    var d := vim.data;
    var n := RepeatCount(d, vim.digits);
    var armed := Arm(vim);
    var prev := SnapshotOf(armed);
    var ran := RunAction(armed, n);
    var saved := if d.dontSaveUndoState == Some(true) then ran else SaveUndo(ran, prev);
    ResetCommand(saved)
  }

  /**
    A leaf reached in the first revision (vim.ts:346-372): the state is
    recorded before the action runs, and the action only runs if the record
    has one.
   */
  function RunLeafLegacy(vim: Vim): (r: Vim)
    ensures r.version == vim.version && r.roots == vim.roots && r.node == RootFor(r.roots, r.mode) && r.data == Empty
  {
    var d := vim.data;
    var n := RepeatCount(d, vim.digits);
    var armed := Arm(vim);
    var saved := if d.dontSaveUndoState == Some(true) then armed else SaveUndoLegacy(armed);
    ResetCommand(RunAction(saved, n))
  }

  /** One step down the tree along `key`, merging the child's record over the walk's. */
  function Descend(vim: Vim, key: string): (r: Vim)
    requires key in vim.node.children
    ensures r == vim.(node := vim.node.children[key], data := Overlay(vim.data, vim.node.children[key].data))
  {
    var child := vim.node.children[key];
    vim.(node := child, data := Overlay(vim.data, child.data))
  }

  /**
    The key after `r` (docs/index.js:199-208): it is stored as `nextChar`,
    the waiting node's own action fires once, the state from before is
    recorded, and the walk restarts. The count is not cleared.
   */
  function ReadNextChar(vim: Vim, key: string): (r: Vim)
    ensures r.version == vim.version && r.roots == vim.roots && r.node == RootFor(r.roots, r.mode) && r.data == Empty
  {
    var prev := SnapshotOf(vim);
    var d := vim.data.(nextChar := Some(key));
    var primed := vim.(data := d);
    var ran := match vim.node.data.action
      case Some(a) => Fire(a, primed, d)
      case None => primed;
    var saved := if d.dontSaveUndoState == Some(true) then ran else SaveUndo(ran, prev);
    ResetCommand(saved)
  }

  /**
    `onKey` of the later revision (docs/index.js:182-233). The key is consumed
    when it cancels, when it is Enter or Tab in insert mode, when a pending
    `r` reads it, or when the tree knows it; any other key reaches the text
    area.
   */
  function OnKeyCurrent(vim: Vim, key: string): (r: Outcome)
    ensures r.vim.version == vim.version && r.vim.roots == vim.roots
    ensures r.handled <==>
      || IsCancel(key)
      || (vim.mode == Insert && (key == "Enter" || key == "Tab"))
      || (vim.mode != Insert && (vim.data.readNextChar == Some(true) || key in vim.node.children))
    ensures !IsCancel(key) && vim.mode == Insert && !r.handled ==> r.vim == vim
    ensures IsCancel(key) ==> r.vim == Reset(vim)
    ensures !IsCancel(key) && vim.mode != Insert && vim.data.readNextChar == Some(true) ==>
      r.vim == ReadNextChar(vim, key)
    ensures !IsCancel(key) && vim.mode != Insert && vim.data.readNextChar != Some(true) && key !in vim.node.children ==>
      r.vim == vim.(node := RootFor(vim.roots, vim.mode), data := Empty)
    ensures var walking := !IsCancel(key) && vim.mode != Insert && vim.data.readNextChar != Some(true);
      walking && key in vim.node.children && (Descend(vim, key).data.readNextChar == Some(true) || !IsLeaf(Descend(vim, key).node)) ==>
        r.vim == Descend(vim, key)
  {
    if IsCancel(key) then Outcome(Reset(vim), true)
    else if vim.mode == Insert then
      if key == "Enter" then Outcome(ActionEnterIndent(vim), true)
      else if key == "Tab" then Outcome(ActionTab(vim), true)
      else Outcome(vim, false)
    else if vim.data.readNextChar == Some(true) then Outcome(ReadNextChar(vim, key), true)
    else if key !in vim.node.children then Outcome(ResetCommand(vim), false)
    else
      var next := Descend(vim, key);
      if next.data.readNextChar != Some(true) && IsLeaf(next.node) then Outcome(RunLeaf(next), true)
      else Outcome(next, true)
  }

  /**
    `onKey` and `acceptKey` of the first revision (vim.ts:275-373). Outside
    insert mode every key is consumed, known to the tree or not; in insert
    mode only Enter is, and Tab reaches the text area.
   */
  function OnKeyLegacy(vim: Vim, key: string): (r: Outcome)
    ensures r.vim.version == vim.version && r.vim.roots == vim.roots
    ensures r.handled <==> IsCancel(key) || vim.mode != Insert || key == "Enter"
    ensures !IsCancel(key) && vim.mode == Insert && !r.handled ==> r.vim == vim
    ensures IsCancel(key) ==> r.vim == Reset(vim)
    ensures !IsCancel(key) && vim.mode != Insert && key !in vim.node.children ==>
      r.vim == vim.(node := RootFor(vim.roots, vim.mode), data := Empty)
    ensures !IsCancel(key) && vim.mode != Insert && key in vim.node.children && !IsLeaf(Descend(vim, key).node) ==>
      r.vim == Descend(vim, key)
  {
    if IsCancel(key) then Outcome(Reset(vim), true)
    else if vim.mode == Insert then
      if key == "Enter" then Outcome(ActionEnterIndent(vim), true)
      else Outcome(vim, false)
    else if key !in vim.node.children then Outcome(ResetCommand(vim), true)
    else
      var next := Descend(vim, key);
      if IsLeaf(next.node) then Outcome(RunLeafLegacy(next), true)
      else Outcome(next, true)
  }

  /** A key press, in the editor's revision. */
  function OnKey(vim: Vim, key: string): (r: Outcome)
    ensures r.vim.version == vim.version && r.vim.roots == vim.roots
    ensures vim.version == Legacy ==> r == OnKeyLegacy(vim, key)
    ensures vim.version == Current ==> r == OnKeyCurrent(vim, key)
  {
    if vim.version == Legacy then OnKeyLegacy(vim, key) else OnKeyCurrent(vim, key)
  }

  /**
    What the walk keeps true between keys: a pending `r` waits on a leaf
    whose own action the record carries; otherwise every child of the node
    is sound with respect to the record; and a digit action comes with its
    digit.
   */
  ghost predicate WalkSound(node: Node, data: NodeData) {
    && (data.readNextChar == Some(true) ==>
          IsLeaf(node) && node.data.action.Some? && data.action == node.data.action)
    && (data.readNextChar != Some(true) ==> SoundMap(node.children, data.action.Some?))
    && (data.action == Some(Digit) ==> data.digit.Some?)
  }

  /**
    The history stays within the revision's limit. The first revision has no
    redo, and its neighbouring undo entries hold different texts, because its
    `saveUndoState` updates an entry with the current text instead of
    pushing a second one (vim.ts:379-394).
   */
  predicate HistoryInv(vim: Vim) {
    && (vim.version == Current ==> |vim.undo| + |vim.redo| <= UNDO_LIMIT)
    && (vim.version == Legacy ==> |vim.undo| <= LEGACY_UNDO_LIMIT && vim.redo == [] && DistinctNeighbours(vim.undo))
  }

  /** The invariant of the key handler: a coherent selection, a well-formed count, a sound walk and a bounded history. */
  ghost predicate Inv(vim: Vim) {
    && Coherent(vim)
    && RootsSound(vim.roots)
    && CountText(vim.digits)
    && WalkSound(vim.node, vim.data)
    && HistoryInv(vim)
  }

  /** A freshly constructed editor over a collapsed selection satisfies the invariant. */
  lemma InitInv(v: Version, host: Host)
    requires host.selectionStart == host.selectionEnd
    ensures Inv(Init(v, host))
  {
    StandardRootsSound(v);
  }

  /** Restarting the walk at the mode's root keeps the invariant. */
  lemma ResetCommandInv(vim: Vim)
    requires Coherent(vim) && CountText(vim.digits) && HistoryInv(vim) && RootsSound(vim.roots)
    ensures Inv(ResetCommand(vim))
  {
    var r := ResetCommand(vim);
    assert SoundMap(r.node.children, false);
  }

  /** A step down the tree keeps the walk sound, and a leaf it reaches carries an action. */
  lemma DescendSound(vim: Vim, key: string)
    requires WalkSound(vim.node, vim.data) && vim.data.readNextChar != Some(true)
    requires key in vim.node.children
    ensures var r := Descend(vim, key);
      && WalkSound(r.node, r.data)
      && (IsLeaf(r.node) ==> r.data.action.Some?)
  {
    var child := vim.node.children[key];
    assert Sound(child, vim.data.action.Some?);
  }

  /** The action run at a leaf keeps everything but the walk in the invariant. */
  lemma RunActionInv(vim: Vim, n: nat)
    requires Coherent(vim) && CountText(vim.digits) && HistoryInv(vim)
    requires vim.data.action == Some(Digit) ==> vim.data.digit.Some?
    ensures var r := RunAction(vim, n);
      Coherent(r) && CountText(r.digits) && HistoryInv(r) && r.version == vim.version && r.roots == vim.roots
  {
    var r := RunAction(vim, n);
    if vim.version == Legacy && vim.data.action.Some? {
      assert |r.undo| <= |vim.undo|;
    }
  }

  /** A leaf of the later revision keeps the invariant. */
  lemma RunLeafInv(vim: Vim)
    requires Coherent(vim) && CountText(vim.digits) && HistoryInv(vim) && RootsSound(vim.roots) && vim.version == Current
    requires vim.data.action == Some(Digit) ==> vim.data.digit.Some?
    ensures Inv(RunLeaf(vim))
  {
    var armed := Arm(vim);
    RunActionInv(armed, RepeatCount(vim.data, vim.digits));
    var ran := RunAction(armed, RepeatCount(vim.data, vim.digits));
    var saved := if vim.data.dontSaveUndoState == Some(true) then ran else SaveUndo(ran, SnapshotOf(armed));
    ResetCommandInv(saved);
  }

  /** A leaf of the first revision keeps the invariant. */
  lemma RunLeafLegacyInv(vim: Vim)
    requires Coherent(vim) && CountText(vim.digits) && HistoryInv(vim) && RootsSound(vim.roots) && vim.version == Legacy
    requires vim.data.action == Some(Digit) ==> vim.data.digit.Some?
    ensures Inv(RunLeafLegacy(vim))
  {
    var armed := Arm(vim);
    var saved := if vim.data.dontSaveUndoState == Some(true) then armed else SaveUndoLegacy(armed);
    RunActionInv(saved, RepeatCount(vim.data, vim.digits));
    ResetCommandInv(RunAction(saved, RepeatCount(vim.data, vim.digits)));
  }

  /** The key read after `r` keeps the invariant. */
  lemma ReadNextCharInv(vim: Vim, key: string)
    requires Inv(vim) && vim.version == Current && vim.data.readNextChar == Some(true)
    ensures Inv(ReadNextChar(vim, key))
  {
    var d := vim.data.(nextChar := Some(key));
    var primed := vim.(data := d);
    var ran := match vim.node.data.action
      case Some(a) => Fire(a, primed, d)
      case None => primed;
    var saved := if d.dontSaveUndoState == Some(true) then ran else SaveUndo(ran, SnapshotOf(vim));
    ResetCommandInv(saved);
  }

  /** A key the tree knows keeps the invariant, whether it completes a command or not. */
  lemma DescendInv(vim: Vim, key: string)
    requires Inv(vim) && vim.data.readNextChar != Some(true) && key in vim.node.children
    ensures var next := Descend(vim, key);
      && Inv(next)
      && (vim.version == Current && next.data.readNextChar != Some(true) && IsLeaf(next.node) ==> Inv(RunLeaf(next)))
      && (vim.version == Legacy && IsLeaf(next.node) ==> Inv(RunLeafLegacy(next)))
  {
    DescendSound(vim, key);
    var next := Descend(vim, key);
    if IsLeaf(next.node) {
      if vim.version == Current {
        RunLeafInv(next);
      } else {
        RunLeafLegacyInv(next);
      }
    }
  }

  /** Every key press of the later revision keeps the invariant. */
  lemma OnKeyCurrentInv(vim: Vim, key: string)
    requires Inv(vim) && vim.version == Current
    ensures Inv(OnKeyCurrent(vim, key).vim)
  {
    if IsCancel(key) {
      ResetCommandInv(SetMode(vim, Command));
    } else if vim.mode == Insert {
    } else if vim.data.readNextChar == Some(true) {
      ReadNextCharInv(vim, key);
    } else if key !in vim.node.children {
      ResetCommandInv(vim);
    } else {
      DescendInv(vim, key);
    }
  }

  /** Every key press of the first revision keeps the invariant. */
  lemma OnKeyLegacyInv(vim: Vim, key: string)
    requires Inv(vim) && vim.version == Legacy
    ensures Inv(OnKeyLegacy(vim, key).vim)
  {
    if IsCancel(key) {
      ResetCommandInv(SetMode(vim, Command));
    } else if vim.mode == Insert {
    } else if key !in vim.node.children {
      ResetCommandInv(vim);
    } else {
      assert vim.data.readNextChar != Some(true);
      DescendInv(vim, key);
    }
  }

  /** Every key press keeps the invariant, in both revisions. */
  lemma OnKeyInv(vim: Vim, key: string)
    requires Inv(vim)
    ensures Inv(OnKey(vim, key).vim)
  {
    if vim.version == Current {
      OnKeyCurrentInv(vim, key);
    } else {
      OnKeyLegacyInv(vim, key);
    }
  }

  /** Between commands: at the root of the mode's tree with an empty record and no count. */
  predicate AtRest(vim: Vim) {
    vim.node == RootFor(vim.roots, vim.mode) && vim.data == Empty && vim.digits == []
  }

  /**
    A key that completes a recorded command on its own: a leaf of the current
    node that is neither a digit, nor a pending `r`, nor undo or redo, and
    that does not opt out of the undo history.
   */
  predicate EditKey(vim: Vim, k: string) {
    && !IsCancel(k) && k in vim.node.children
    && var child := vim.node.children[k];
    && IsLeaf(child) && child.data.action.Some? && child.data.digit.None?
    && child.data.readNextChar != Some(true) && child.data.dontSaveUndoState != Some(true)
    && child.data.action != Some(Undo) && child.data.action != Some(Redo) && child.data.action != Some(Digit)
  }

  /** The record a leaf reached from rest fires: a recorded command without a count. */
  predicate EditRecord(d: NodeData) {
    && d.action.Some? && d.digit.None? && d.dontSaveUndoState != Some(true)
    && d.action != Some(Undo) && d.action != Some(Redo) && d.action != Some(Digit)
  }

  /** From rest, a step along an edit key reaches a leaf whose record is the child's own. */
  lemma DescendFromRest(vim: Vim, k: string)
    requires vim.data == Empty && EditKey(vim, k)
    ensures var next := Descend(vim, k);
      && next.data == vim.node.children[k].data && IsLeaf(next.node)
      && EditRecord(next.data) && next.data.readNextChar != Some(true)
  {
    OverlayMonoid(Empty, Empty, vim.node.children[k].data);
  }

  /** A recorded command run at a leaf of the later revision: the count is gone, and the state from before it is recorded exactly when the text changed. */
  lemma RunLeafRecords(next: Vim)
    requires next.version == Current && EditRecord(next.data)
    ensures var r := RunLeaf(next);
      && r.digits == [] && r.node == RootFor(r.roots, r.mode) && r.data == Empty
      && (Text(r) != Text(next) ==> TopHolds(r.undo, Text(next)))
      && (Text(r) == Text(next) ==> r.undo == next.undo)
  {
    var armed := Arm(next);
    var a, n := next.data.action.value, RepeatCount(next.data, next.digits);
    assert armed.digits == [] && armed.data == next.data && Text(armed) == Text(next);
    var ran := RunTimes(a, armed, next.data, n);
    assert RunAction(armed, n) == ran;
    assert ran.digits == [] && ran.undo == next.undo;
  }

  /** A recorded command run at a leaf of the first revision: the count is gone and the state from before it is the newest undo entry. */
  lemma RunLeafLegacyRecords(next: Vim)
    requires next.version == Legacy && EditRecord(next.data)
    ensures var r := RunLeafLegacy(next);
      && r.digits == [] && r.node == RootFor(r.roots, r.mode) && r.data == Empty
      && TopHolds(r.undo, Text(next))
      && (!TopHolds(next.undo, Text(next)) ==>
            r.undo == PushBounded(next.undo, Snapshot(Text(next), next.host.selectionStart), LEGACY_UNDO_LIMIT))
      && (|next.undo| <= LEGACY_UNDO_LIMIT ==> |r.undo| <= LEGACY_UNDO_LIMIT)
  {
    var armed := Arm(next);
    var saved := SaveUndoLegacy(armed);
    var a, n := next.data.action.value, RepeatCount(next.data, next.digits);
    assert saved.digits == [] && saved.data == next.data;
    var ran := RunTimes(a, saved, next.data, n);
    assert RunAction(saved, n) == ran;
    assert ran.digits == [] && ran.undo == saved.undo;
  }

  /** In the later revision, a key that reaches a leaf outside insert mode runs it. */
  lemma LeafKeyCurrent(vim: Vim, k: string)
    requires vim.version == Current && vim.mode != Insert && !IsCancel(k)
    requires vim.data.readNextChar != Some(true) && k in vim.node.children
    requires Descend(vim, k).data.readNextChar != Some(true) && IsLeaf(Descend(vim, k).node)
    ensures OnKeyCurrent(vim, k) == Outcome(RunLeaf(Descend(vim, k)), true)
  {
  }

  /** In the first revision, a key that reaches a leaf outside insert mode runs it. */
  lemma LeafKeyLegacy(vim: Vim, k: string)
    requires vim.version == Legacy && vim.mode != Insert && !IsCancel(k)
    requires k in vim.node.children && IsLeaf(Descend(vim, k).node)
    ensures OnKeyLegacy(vim, k) == Outcome(RunLeafLegacy(Descend(vim, k)), true)
  {
  }

  /** The record of the `u` leaf. */
  const UndoRecord := Act(Undo).(dontSaveUndoState := Some(true))

  /** Ready for `u`: in command mode with no walk in progress and no count, and `u` bound to its leaf. */
  predicate UndoReady(vim: Vim) {
    && vim.mode == Command && vim.data == Empty && vim.digits == []
    && "u" in vim.node.children && vim.node.children["u"] == Leaf(UndoRecord)
  }

  /** The command tree binds `u` to the undo leaf. */
  predicate UndoBound(roots: Roots) {
    "u" in roots.command.children && roots.command.children["u"] == Leaf(UndoRecord)
  }

  /** Both revisions' trees bind `u` to undo, so every editor the constructor makes does. */
  lemma InitUndoBound(v: Version, host: Host)
    ensures UndoBound(Init(v, host).roots)
  {
    UndoKey(v);
  }

  /** At rest in command mode, with `u` bound, the editor is ready for `u`. */
  lemma AtRestUndoReady(vim: Vim)
    requires AtRest(vim) && vim.mode == Command && UndoBound(vim.roots)
    ensures UndoReady(vim)
  {
  }

  /** `u` reaches its leaf with its own record. */
  lemma DescendUndo(vim: Vim)
    requires UndoReady(vim)
    ensures var next := Descend(vim, "u"); next.data == UndoRecord && IsLeaf(next.node) && next.digits == []
  {
    OverlayMonoid(Empty, Empty, UndoRecord);
  }

  /** The `u` record fires its revision's undo, once. */
  lemma UndoFires(vim: Vim)
    requires vim.data == UndoRecord
    ensures RunAction(vim, 1) == if vim.version == Legacy then ActionUndoLegacy(vim) else ActionUndo(vim)
  {
    assert RunAction(vim, 1) == RunTimes(Undo, vim, UndoRecord, 1);
    assert RunTimes(Undo, vim, UndoRecord, 1) == Fire(Undo, vim, UndoRecord);
  }

  /** The `u` leaf in the later revision: the newest undo entry's text comes back and leaves the undo history. */
  lemma RunLeafUndo(next: Vim)
    requires next.version == Current && next.data == UndoRecord && next.digits == [] && next.undo != []
    ensures var r := RunLeaf(next);
      && Text(r) == next.undo[|next.undo| - 1].text && r.undo == next.undo[..|next.undo| - 1]
  {
    assert RepeatCount(UndoRecord, []) == 1;
    var armed := Arm(next);
    assert armed.data == UndoRecord && armed.undo == next.undo;
    UndoFires(armed);
    var ran := ActionUndo(armed);
    assert Text(ran) == next.undo[|next.undo| - 1].text && ran.undo == next.undo[..|next.undo| - 1];
    assert RunLeaf(next) == ResetCommand(ran);
  }

  /** The `u` leaf in the first revision: the newest undo entry is popped and its text comes back. */
  lemma RunLeafUndoLegacy(next: Vim)
    requires next.version == Legacy && next.data == UndoRecord && next.digits == [] && next.undo != []
    ensures var r := RunLeafLegacy(next);
      && Text(r) == next.undo[|next.undo| - 1].text && r.undo == next.undo[..|next.undo| - 1]
      && r.digits == [] && r.mode == next.mode && r.node == RootFor(r.roots, r.mode) && r.data == Empty
      && (Coherent(next) ==> Coherent(r) && GetCaret(r) == next.undo[|next.undo| - 1].caret)
  {
    assert RepeatCount(UndoRecord, []) == 1;
    var armed := Arm(next);
    assert armed.data == UndoRecord && armed.undo == next.undo;
    UndoFires(armed);
    var ran := ActionUndoLegacy(armed);
    assert Text(ran) == next.undo[|next.undo| - 1].text && ran.undo == next.undo[..|next.undo| - 1];
    assert RunLeafLegacy(next) == ResetCommand(ran);
  }

  /** `u` in the later revision brings back the newest undo entry's text. */
  lemma UndoKeyCurrent(vim: Vim)
    requires vim.version == Current && UndoReady(vim) && vim.undo != []
    ensures Text(OnKeyCurrent(vim, "u").vim) == vim.undo[|vim.undo| - 1].text
  {
    DescendUndo(vim);
    var next := Descend(vim, "u");
    LeafKeyCurrent(vim, "u");
    assert OnKeyCurrent(vim, "u").vim == RunLeaf(next);
    RunLeafUndo(next);
  }

  /** The record of the `C-r` leaf. */
  const RedoRecord := Act(Redo).(dontSaveUndoState := Some(true))

  /** Only the later revision's trees bind `C-r`, and there to redo. */
  lemma InitRedoBound(v: Version, host: Host)
    ensures var c := Init(v, host).roots.command.children;
      ("C-r" in c <==> v == Current) && (v == Current ==> c["C-r"] == Leaf(RedoRecord))
  {
    RedoKey(v);
  }

  /** Ready for `C-r`: the later revision, in command mode with no walk in progress and no count, and `C-r` bound. */
  predicate RedoReady(vim: Vim) {
    && vim.version == Current && vim.mode == Command && vim.data == Empty && vim.digits == []
    && "C-r" in vim.node.children && vim.node.children["C-r"] == Leaf(RedoRecord)
  }

  /** `C-r` reaches its leaf with its own record, and fires redo once. */
  lemma DescendRedo(vim: Vim)
    requires RedoReady(vim)
    ensures var next := Descend(vim, "C-r");
      && next.data == RedoRecord && IsLeaf(next.node) && next.digits == []
      && RunAction(Arm(next), 1) == ActionRedo(Arm(next))
  {
    OverlayMonoid(Empty, Empty, RedoRecord);
    var armed := Arm(Descend(vim, "C-r"));
    assert RunAction(armed, 1) == RunTimes(Redo, armed, RedoRecord, 1);
    assert RunTimes(Redo, armed, RedoRecord, 1) == Fire(Redo, armed, RedoRecord);
  }

  /**
    `C-r` in the later revision brings back the newest redo entry and records
    nothing itself: the undo and redo histories end exactly as redo leaves them.
   */
  lemma RedoKeyCurrent(vim: Vim)
    requires RedoReady(vim) && vim.redo != []
    ensures var r, u := OnKeyCurrent(vim, "C-r").vim, vim.redo[|vim.redo| - 1];
      && Text(r) == u.text
      && r.redo == vim.redo[..|vim.redo| - 1]
      && r.undo == vim.undo + [Snapshot(Text(vim), u.caret)]
      && r.node == vim.roots.command && r.data == Empty && r.digits == []
  {
    DescendRedo(vim);
    var next := Descend(vim, "C-r");
    LeafKeyCurrent(vim, "C-r");
    assert RepeatCount(RedoRecord, []) == 1;
    var armed := Arm(next);
    assert armed.undo == vim.undo && armed.redo == vim.redo && Text(armed) == Text(vim);
    assert RunLeaf(next) == ResetCommand(ActionRedo(armed));
  }

  /** `u` in the first revision pops the newest undo entry and brings its text back. */
  lemma UndoKeyLegacy(vim: Vim)
    requires vim.version == Legacy && UndoReady(vim) && vim.undo != []
    ensures var r := OnKeyLegacy(vim, "u").vim;
      && Text(r) == vim.undo[|vim.undo| - 1].text
      && r.undo == vim.undo[..|vim.undo| - 1]
      && r.roots == vim.roots && r.node == vim.roots.command && r.data == Empty && r.digits == [] && r.mode == Command
      && (Coherent(vim) ==> Coherent(r) && GetCaret(r) == vim.undo[|vim.undo| - 1].caret)
  {
    DescendUndo(vim);
    var next := Descend(vim, "u");
    LeafKeyLegacy(vim, "u");
    assert OnKeyLegacy(vim, "u").vim == RunLeafLegacy(next);
    RunLeafUndoLegacy(next);
  }

  /**
    A command of the later revision run from command mode with no walk in
    progress: the walk is back at the root, the count is gone, and the undo
    history gained the state from before the command exactly when the text
    changed.
   */
  lemma EditKeyCurrent(vim: Vim, k: string)
    requires vim.version == Current && vim.mode == Command && vim.data == Empty && EditKey(vim, k)
    ensures var r := OnKeyCurrent(vim, k).vim;
      && r.node == RootFor(r.roots, r.mode) && r.data == Empty && r.digits == []
      && (Text(r) != Text(vim) ==> TopHolds(r.undo, Text(vim)))
      && (Text(r) == Text(vim) ==> r.undo == vim.undo)
  {
    DescendFromRest(vim, k);
    LeafKeyCurrent(vim, k);
    RunLeafRecords(Descend(vim, k));
  }

  /**
    A command of the first revision run from command mode with no walk in
    progress: the walk is back at the root, the count is gone, and the
    newest undo entry holds the text from before the command, pushed unless
    it was already there.
   */
  lemma EditKeyLegacy(vim: Vim, k: string)
    requires vim.version == Legacy && vim.mode == Command && vim.data == Empty && EditKey(vim, k)
    ensures var r := OnKeyLegacy(vim, k).vim;
      && r.node == RootFor(r.roots, r.mode) && r.data == Empty && r.digits == []
      && TopHolds(r.undo, Text(vim))
      && (!TopHolds(vim.undo, Text(vim)) ==>
            r.undo == PushBounded(vim.undo, Snapshot(Text(vim), vim.host.selectionStart), LEGACY_UNDO_LIMIT))
      && (|vim.undo| <= LEGACY_UNDO_LIMIT ==> |r.undo| <= LEGACY_UNDO_LIMIT)
  {
    DescendFromRest(vim, k);
    LeafKeyLegacy(vim, k);
    RunLeafLegacyRecords(Descend(vim, k));
  }

  /** In the later revision, `u` right after a command that changed the text brings the text back. */
  lemma UndoAfterEditCurrent(vim: Vim, k: string)
    requires vim.version == Current && vim.mode == Command && vim.data == Empty && EditKey(vim, k) && UndoBound(vim.roots)
    requires var r := OnKeyCurrent(vim, k).vim; Text(r) != Text(vim) && r.mode == Command
    ensures Text(OnKeyCurrent(OnKeyCurrent(vim, k).vim, "u").vim) == Text(vim)
  {
    EditKeyCurrent(vim, k);
    var r := OnKeyCurrent(vim, k).vim;
    AtRestUndoReady(r);
    UndoKeyCurrent(r);
  }

  /** In the first revision, `u` right after a command brings back the text from before it, changed or not. */
  lemma UndoAfterEditLegacy(vim: Vim, k: string)
    requires vim.version == Legacy && vim.mode == Command && vim.data == Empty && EditKey(vim, k) && UndoBound(vim.roots)
    requires OnKeyLegacy(vim, k).vim.mode == Command
    ensures Text(OnKeyLegacy(OnKeyLegacy(vim, k).vim, "u").vim) == Text(vim)
  {
    EditKeyLegacy(vim, k);
    var r := OnKeyLegacy(vim, k).vim;
    AtRestUndoReady(r);
    UndoKeyLegacy(r);
  }

  /**
    In the later revision a command that leaves the text alone, a motion say,
    records nothing, so after an edit and a motion one `u` takes the edit
    back.
   */
  lemma UndoAfterEditAndMotionCurrent(vim: Vim, k: string, m: string)
    requires vim.version == Current && vim.mode == Command && vim.data == Empty && EditKey(vim, k) && UndoBound(vim.roots)
    requires var r1 := OnKeyCurrent(vim, k).vim; Text(r1) != Text(vim) && r1.mode == Command && EditKey(r1, m)
    requires var r1 := OnKeyCurrent(vim, k).vim; var r2 := OnKeyCurrent(r1, m).vim;
      Text(r2) == Text(r1) && r2.mode == Command
    ensures var r2 := OnKeyCurrent(OnKeyCurrent(vim, k).vim, m).vim;
      Text(OnKeyCurrent(r2, "u").vim) == Text(vim)
  {
    EditKeyCurrent(vim, k);
    var r1 := OnKeyCurrent(vim, k).vim;
    EditKeyCurrent(r1, m);
    var r2 := OnKeyCurrent(r1, m).vim;
    AtRestUndoReady(r2);
    UndoKeyCurrent(r2);
  }

  /**
    Two `u` in the first revision bring back the newest and then the next
    newest entry, text and caret. After an edit and then a motion the newest
    entry is the text the motion saw with the caret it started from
    (`RecordOverEditLegacy`), so the first `u` leaves the text as it is and
    moves the caret back, and the second takes the edit back.
   */
  lemma UndoTwiceLegacy(vim: Vim)
    requires vim.version == Legacy && AtRest(vim) && vim.mode == Command && UndoBound(vim.roots)
    requires |vim.undo| >= 2
    ensures var u1 := OnKeyLegacy(vim, "u").vim;
      && Text(u1) == vim.undo[|vim.undo| - 1].text
      && Text(OnKeyLegacy(u1, "u").vim) == vim.undo[|vim.undo| - 2].text
      && (Coherent(vim) ==>
            && GetCaret(u1) == vim.undo[|vim.undo| - 1].caret
            && GetCaret(OnKeyLegacy(u1, "u").vim) == vim.undo[|vim.undo| - 2].caret)
  {
    AtRestUndoReady(vim);
    UndoKeyLegacy(vim);
    var u1 := OnKeyLegacy(vim, "u").vim;
    assert u1.undo[|u1.undo| - 1] == vim.undo[|vim.undo| - 2];
    AtRestUndoReady(u1);
    UndoKeyLegacy(u1);
  }

  /**
    A command of the first revision after one that changed the text, whose
    entry `EditKeyLegacy` left on top: every command records, so the text
    this one saw goes on top of that entry, a motion's as much as an edit's.
   */
  lemma RecordOverEditLegacy(r1: Vim, m: string, t0: string)
    requires r1.version == Legacy && r1.mode == Command && r1.data == Empty && EditKey(r1, m)
    requires TopHolds(r1.undo, t0) && t0 != Text(r1) && |r1.undo| <= LEGACY_UNDO_LIMIT
    ensures var r2 := OnKeyLegacy(r1, m).vim;
      && r2.node == RootFor(r2.roots, r2.mode) && r2.data == Empty && r2.digits == []
      && |r2.undo| >= 2 && r2.undo[|r2.undo| - 1] == Snapshot(Text(r1), r1.host.selectionStart)
      && r2.undo[|r2.undo| - 2].text == t0
  {
    var s := Snapshot(Text(r1), r1.host.selectionStart);
    PushOverOther(r1.undo, s, t0);
    EditKeyLegacy(r1, m);
  }

  /** Pushing a new text onto a bounded history whose newest entry holds another keeps that entry just below. */
  lemma PushOverOther(h: seq<Snapshot>, s: Snapshot, t0: string)
    requires TopHolds(h, t0) && s.text != t0 && |h| <= LEGACY_UNDO_LIMIT
    ensures !TopHolds(h, s.text)
    ensures var r := PushBounded(h, s, LEGACY_UNDO_LIMIT);
      |r| >= 2 && r[|r| - 1].text == s.text && r[|r| - 2].text == t0
  {
    var r := PushBounded(h, s, LEGACY_UNDO_LIMIT);
    PushBoundedKeepsNewest(h, s, LEGACY_UNDO_LIMIT);
    assert r[|r| - 2] == (h + [s])[|h| - 1];
  }

  /** The record of the `r` leaf of the later revision. */
  const ReplaceRecord := Act(ReplaceChar).(readNextChar := Some(true))

  /** The command tree binds `r` to the leaf that waits for one more key. */
  predicate ReplaceBound(roots: Roots) {
    "r" in roots.command.children && roots.command.children["r"] == Leaf(ReplaceRecord)
  }

  /** Only the later revision's trees bind `r`. */
  lemma InitReplaceBound(v: Version, host: Host)
    ensures ReplaceBound(Init(v, host).roots) <==> v == Current
  {
    ReplaceKey(v);
  }

  /** Ready for `r`: the later revision, in command mode with no walk in progress and `r` bound. */
  predicate ReplaceReady(vim: Vim) {
    && vim.version == Current && vim.mode == Command && vim.data == Empty
    && "r" in vim.node.children && vim.node.children["r"] == Leaf(ReplaceRecord)
  }

  /** `r` only arms the walk: it reaches its leaf, which waits for the next key. */
  lemma PressReplace(vim: Vim)
    requires ReplaceReady(vim)
    ensures var o := OnKeyCurrent(vim, "r");
      o.handled && o.vim == vim.(node := Leaf(ReplaceRecord), data := ReplaceRecord)
  {
    OverlayMonoid(Empty, Empty, ReplaceRecord);
  }

  /** The key after `r` is handed to the replace action, which runs once. */
  lemma ReadReplacement(w: Vim, key: string)
    requires w.version == Current && w.mode == Command && !IsCancel(key)
    requires w.node == Leaf(ReplaceRecord) && w.data == ReplaceRecord
    ensures var o := OnKeyCurrent(w, key);
      var d := ReplaceRecord.(nextChar := Some(key));
      var a := ActionReplaceChar(w.(data := d), d);
      && o.handled && o.vim.digits == w.digits
      && o.vim.host == a.host && o.vim.mode == a.mode && o.vim.anchor == a.anchor
  {
    var d := ReplaceRecord.(nextChar := Some(key));
    var primed := w.(data := d);
    var ran := Fire(ReplaceChar, primed, d);
    assert ran == ActionReplaceChar(primed, d);
    assert OnKeyCurrent(w, key).vim == ReadNextChar(w, key);
  }

  /**
    One replacement of the character at or just before caret `c` of `t` by
    `key`, giving `u` with the caret at `k`; an empty line is left alone.
   */
  predicate ReplacedOnce(t: string, c: int, key: string, u: string, k: int) {
    && (0 <= c <= |t| && EmptyLineAt(t, c) ==> u == t)
    && (0 <= c <= |t| && !EmptyLineAt(t, c) ==>
          c - 1 <= k <= c && 0 <= k < |t| && u == t[..k] + key + t[k + 1..])
  }

  /** The replace action with the key read after `r` replaces one character by that key. */
  lemma ReplaceWithKey(w: Vim, key: string)
    requires w.mode == Command && Coherent(w)
    ensures var d := ReplaceRecord.(nextChar := Some(key));
      var a := ActionReplaceChar(w.(data := d), d);
      && a.mode == Command && a.anchor == w.anchor
      && ReplacedOnce(Text(w), GetCaret(w), key, Text(a), GetCaret(a))
  {
    var d := ReplaceRecord.(nextChar := Some(key));
    var primed := w.(data := d);
    assert Text(primed) == Text(w) && GetCaret(primed) == GetCaret(w) && Coherent(primed);
    assert NextCharText(d) == key;
  }

  /**
    `r` then a key, in the later revision: the key's text replaces the one
    character at or just before the caret, once, whatever count was typed
    before `r`; an empty line is left alone; and the count stays pending for
    the next command.
   */
  lemma ReplaceKeepsCount(vim: Vim, key: string)
    requires ReplaceReady(vim) && Coherent(vim) && !IsCancel(key)
    ensures var o1 := OnKeyCurrent(vim, "r"); var o2 := OnKeyCurrent(o1.vim, key);
      && o1.handled && o2.handled && Text(o1.vim) == Text(vim) && o2.vim.digits == vim.digits
      && ReplacedOnce(Text(vim), GetCaret(vim), key, Text(o2.vim), GetCaret(o2.vim))
  {
    PressReplace(vim);
    var w := OnKeyCurrent(vim, "r").vim;
    assert Text(w) == Text(vim) && GetCaret(w) == GetCaret(vim) && Coherent(w);
    ReadReplacement(w, key);
    ReplaceWithKey(w, key);
    var d := ReplaceRecord.(nextChar := Some(key));
    var a := ActionReplaceChar(w.(data := d), d);
    var o2 := OnKeyCurrent(w, key).vim;
    assert Text(o2) == Text(a) && GetCaret(o2) == GetCaret(a);
  }
}
