/**
  The editor state and its primitive operations (vim.ts:217-444,
  docs/index.js:157-325): the text area the editor drives, the caret and
  visual selection kept on it, the mode switch, the command walk's reset,
  the clipboard and `yank`.
 */
module Editor {
  import opened Wrappers
  import opened JsString
  import opened Boundaries
  import opened CommandTree
  import Selection
  import Motion

  /**
    The text area as the editor sees it: its value and its selection. The
    browser's clamping of a selection to the value is not part of the model,
    so both ends are whatever the editor last set.
   */
  datatype Host = Host(value: string, selectionStart: int, selectionEnd: int)

  /** One history entry (`Undo`, vim.ts:217-220). */
  datatype Snapshot = Snapshot(text: string, caret: int)

  /**
    `class Vim` (vim.ts:224-242, docs/index.js:157-181). `anchor` is the field
    the source calls `selectionStart`: the fixed end of a visual selection.
    The first revision keeps no redo history; its `redo` stays empty.
   */
  datatype Vim = Vim(
    version: Version,
    roots: Roots,
    host: Host,
    mode: Mode,
    node: Node,
    data: NodeData,
    digits: string,
    clipboard: string,
    undo: seq<Snapshot>,
    redo: seq<Snapshot>,
    allowClipboardReset: bool,
    anchor: Option<int>)

  /**
    A freshly constructed editor over a text area (vim.ts:225-234), at the
    root of its revision's command tree. The trees are module constants in
    the source; the state carries them from here on and nothing changes them.
   */
  function Init(v: Version, host: Host): (r: Vim)
    ensures r.roots == StandardRoots(v) && r.host == host
    ensures r.mode == Command && r.node == RootFor(r.roots, r.mode) && r.data == Empty
    ensures r.digits == [] && r.undo == [] && r.redo == [] && r.anchor.None?
  {
    Vim(v, StandardRoots(v), host, Command, CommandRoot(v), Empty, "", "", [], [], false, None)
  }

  /** `getText` (vim.ts:244-246). */
  function Text(vim: Vim): string {
    vim.host.value
  }

  /**
    The selection agrees with the mode: outside visual mode there is no anchor
    and the selection is collapsed to the caret; in visual mode the anchor is
    set and is one of the selection's two ends.
   */
  predicate Coherent(vim: Vim) {
    if vim.mode == Visual then
      && vim.anchor.Some?
      && vim.host.selectionStart <= vim.host.selectionEnd
      && (vim.host.selectionStart == vim.anchor.value || vim.host.selectionEnd == vim.anchor.value)
    else
      vim.anchor.None? && vim.host.selectionStart == vim.host.selectionEnd
  }

  /** The parts of the state the text-editing primitives never touch. */
  predicate Keeps(vim: Vim, r: Vim) {
    && r.version == vim.version && r.roots == vim.roots && r.node == vim.node && r.data == vim.data
    && r.digits == vim.digits && r.undo == vim.undo && r.redo == vim.redo
  }

  /**
    `getCaret` (vim.ts:252-261): outside visual mode the selection's end; in
    visual mode the end of the selection that is not the anchor.
   */
  function GetCaret(vim: Vim): (r: int)
    ensures vim.mode != Visual ==> r == vim.host.selectionEnd
    ensures vim.mode == Visual && vim.anchor == Some(vim.host.selectionStart) ==> r == vim.host.selectionEnd
    ensures vim.mode == Visual && vim.anchor == Some(vim.host.selectionEnd) ==> r == vim.host.selectionStart
  {
    if vim.mode == Visual && vim.anchor == Some(vim.host.selectionEnd) then vim.host.selectionStart
    else vim.host.selectionEnd
  }

  /**
    `setCaret` (vim.ts:263-273): in visual mode the selection is stretched
    between the anchor and the caret, otherwise it collapses onto the caret.
    `Math.min(c, null)` reads a missing anchor as 0.
   */
  function SetCaret(vim: Vim, c: int): (r: Vim)
    ensures r == vim.(host := r.host) && r.host.value == vim.host.value
    ensures r.host.selectionStart <= r.host.selectionEnd
    ensures vim.mode != Visual ==> r.host.selectionStart == c == r.host.selectionEnd
    ensures vim.mode == Visual && vim.anchor.Some? ==>
      multiset{r.host.selectionStart, r.host.selectionEnd} == multiset{c, vim.anchor.value}
    ensures vim.mode != Visual || vim.anchor.Some? ==> GetCaret(r) == c
    ensures Coherent(vim) ==> Coherent(r)
  {
    if vim.mode == Visual then
      var a := vim.anchor.GetOr(0);
      vim.(host := vim.host.(selectionStart := Min(c, a), selectionEnd := Max(c, a)))
    else
      vim.(host := vim.host.(selectionStart := c, selectionEnd := c))
  }

  /** `setText` (vim.ts:248-250): the selection is left where it was. */
  function SetText(vim: Vim, t: string): (r: Vim)
    ensures Text(r) == t && GetCaret(r) == GetCaret(vim)
    ensures r == vim.(host := vim.host.(value := t))
    ensures Coherent(vim) ==> Coherent(r)
  {
    vim.(host := vim.host.(value := t))
  }

  /** The tail most edits share: the buffer replaced, then the caret set. */
  function Edit(vim: Vim, t: string, c: int): (r: Vim)
    ensures Keeps(vim, r) && r.mode == vim.mode && r.anchor == vim.anchor
    ensures r.clipboard == vim.clipboard && r.allowClipboardReset == vim.allowClipboardReset
    ensures Text(r) == t
    ensures Coherent(vim) ==> Coherent(r) && GetCaret(r) == c
  {
    SetCaret(SetText(vim, t), c)
  }

  /**
    `setMode` (vim.ts:304-319): entering visual mode drops the anchor at the
    caret; leaving it collapses the selection onto the caret.
   */
  function SetMode(vim: Vim, m: Mode): (r: Vim)
    ensures r.mode == m && Text(r) == Text(vim)
    ensures r == vim.(host := r.host, mode := m, anchor := r.anchor)
    ensures vim.mode != Visual && m == Visual ==> r.anchor == Some(GetCaret(vim))
    ensures vim.mode == Visual && m != Visual ==> r.anchor.None? && r.host.selectionStart == r.host.selectionEnd
    ensures vim.mode == Visual || vim.host.selectionStart == vim.host.selectionEnd ==> GetCaret(r) == GetCaret(vim)
    ensures Coherent(vim) ==> Coherent(r)
  {
    if vim.mode == m then vim
    else if m == Visual then vim.(anchor := Some(GetCaret(vim)), mode := m)
    else if vim.mode == Visual then
      var c := GetCaret(vim);
      vim.(anchor := None, host := vim.host.(selectionStart := c, selectionEnd := c), mode := m)
    else vim.(mode := m)
  }

  /** `resetCommand` (vim.ts:326-332): the walk restarts at the mode's root with an empty record. */
  function ResetCommand(vim: Vim): (r: Vim)
    ensures r == vim.(node := RootFor(vim.roots, vim.mode), data := Empty)
    ensures RootsSound(vim.roots) ==> SoundMap(r.node.children, false)
  {
    vim.(node := RootFor(vim.roots, vim.mode), data := Empty)
  }

  /** `reset` (vim.ts:321-324): back to command mode at the root of the command tree. */
  function Reset(vim: Vim): (r: Vim)
    ensures r.mode == Command && r.node == vim.roots.command && r.data == Empty && r.roots == vim.roots
    ensures Text(r) == Text(vim) && r.digits == vim.digits && r.clipboard == vim.clipboard
    ensures r.undo == vim.undo && r.redo == vim.redo
    ensures vim.mode == Visual || vim.host.selectionStart == vim.host.selectionEnd ==> GetCaret(r) == GetCaret(vim)
    ensures Coherent(vim) ==> Coherent(r)
  {
    ResetCommand(SetMode(vim, Command))
  }

  /**
    `clipboard` (vim.ts:396-412): a non-empty piece is appended, except that
    the first piece after a key fires replaces what was there.
   */
  function Clipboard(vim: Vim, s: string): (r: Vim)
    ensures r == vim.(clipboard := r.clipboard, allowClipboardReset := r.allowClipboardReset)
    ensures s == [] ==> r == vim
    ensures s != [] ==> !r.allowClipboardReset
    ensures s != [] ==> r.clipboard == (if vim.allowClipboardReset then [] else vim.clipboard) + s
  {
    if s == [] then vim
    else
      var base := if vim.allowClipboardReset then "" else vim.clipboard;
      vim.(allowClipboardReset := false, clipboard := base + s)
  }

  /** The pieces of a command's clipboard writes, joined. */
  function Concat(ps: seq<string>): string {
    if ps == [] then [] else ps[0] + Concat(ps[1..])
  }

  /** A run of clipboard writes, in order. */
  function ClipboardAll(vim: Vim, ps: seq<string>): Vim
    decreases |ps|
  {
    if ps == [] then vim else ClipboardAll(Clipboard(vim, ps[0]), ps[1..])
  }

  /**
    What a command leaves on the clipboard: every piece it wrote, joined; they
    replace the old contents when the command was allowed to reset it and wrote
    something, and are appended to them otherwise.
   */
  lemma {:induction false} ClipboardAccumulates(vim: Vim, ps: seq<string>)
    ensures ClipboardAll(vim, ps).clipboard ==
      if vim.allowClipboardReset && Concat(ps) != [] then Concat(ps) else vim.clipboard + Concat(ps)
    ensures Concat(ps) != [] ==> !ClipboardAll(vim, ps).allowClipboardReset
    ensures Concat(ps) == [] ==> ClipboardAll(vim, ps) == vim
    decreases |ps|
  {
    if ps != [] {
      var next := Clipboard(vim, ps[0]);
      ClipboardAccumulates(next, ps[1..]);
      if ps[0] == [] {
        assert Concat(ps) == Concat(ps[1..]);
      } else {
        assert Concat(ps) == ps[0] + Concat(ps[1..]);
        assert next.clipboard + Concat(ps[1..]) == (if vim.allowClipboardReset then [] else vim.clipboard) + Concat(ps);
      }
    }
  }

  /**
    `getSelection` (vim.ts:414-428): a selector's range, else the span between
    the caret and a motion's target in order, else the empty range at 0.
   */
  function GetSelection(vim: Vim, d: NodeData): (r: Range)
    ensures d.select.Some? ==> r == Selection.Apply(d.select.value, Text(vim), GetCaret(vim))
    ensures d.select.None? && d.move.Some? ==>
      r.start <= r.end &&
      multiset{r.start, r.end} == multiset{GetCaret(vim), Motion.Apply(d.move.value, Text(vim), GetCaret(vim))}
    ensures d.select.None? && d.move.None? ==> r == Range(0, 0)
  {
    var t, caret := Text(vim), GetCaret(vim);
    match (d.select, d.move)
    case (Some(s), _) => Selection.Apply(s, t, caret)
    case (None, Some(m)) =>
      var target := Motion.Apply(m, t, caret);
      if target > caret then Range(caret, target) else Range(target, caret)
    case (None, None) => Range(0, 0)
  }

  /**
    `yank` (vim.ts:430-444): the range's text goes to the clipboard, a cut
    removes it from the buffer, and the caret moves to the range's start.
   */
  function Yank(vim: Vim, start: int, end: int, cut: bool): (r: Vim)
    ensures r.mode == vim.mode && r.anchor == vim.anchor && r.digits == vim.digits
    ensures r.undo == vim.undo && r.redo == vim.redo && r.node == vim.node && r.data == vim.data
    ensures r.version == vim.version
    ensures !cut ==> Text(r) == Text(vim)
    ensures cut && 0 <= start <= end ==>
      Text(r) == Text(vim)[..Min(start, |Text(vim)|)] + Text(vim)[Min(end, |Text(vim)|)..]
    ensures 0 <= start < end <= |Text(vim)| ==>
      && !r.allowClipboardReset
      && r.clipboard == (if vim.allowClipboardReset then [] else vim.clipboard) + Text(vim)[start..end]
    ensures 0 <= end <= start || 0 <= |Text(vim)| <= start ==>
      r.clipboard == vim.clipboard && r.allowClipboardReset == vim.allowClipboardReset
    ensures vim.mode != Visual || vim.anchor.Some? ==> GetCaret(r) == start
    ensures Coherent(vim) ==> Coherent(r)
  {
    var t := Text(vim);
    var v1 := Clipboard(vim, Slice(t, start, end));
    var v2 := if cut then SetText(v1, Slice(t, 0, start) + SliceFrom(t, end)) else v1;
    SetCaret(v2, start)
  }
}
