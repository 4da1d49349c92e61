/**
  The motion library (vim.ts:691-814): pure functions from a buffer and a
  caret to a new caret. Every motion maps a caret inside the buffer to a
  caret inside the buffer (`Apply`'s contract).
 */
module Motion {
  import opened JsString
  import opened Lines
  import opened Boundaries

  /** Lines walked by a half-page motion (vim.ts:3). */
  const PAGE_SIZE: nat := 16

  /** The motions the command tree binds, one per function of the source. */
  datatype Motion =
    | Left | Right | Up | Down
    | HalfPageUp | HalfPageDown | PageUp | PageDown
    | ToLineStart | ToLineEnd | FirstWordStart | WordNextLine
    | NextWord | NextWordPlus | EndWord | EndWordPlus | PreviousWord | PreviousWordPlus
    | VeryBeginning | VeryEnd

  /** `moveLeft` (vim.ts:691-693). */
  function MoveLeft(t: string, pos: int): (r: int)
    ensures 0 <= r
    ensures 0 <= pos <= |t| ==> r <= |t| && pos - 1 <= r <= pos
    ensures pos > 0 ==> r < pos
  {
    Max(0, pos - 1)
  }

  /** `moveRight` (vim.ts:695-697). */
  function MoveRight(t: string, pos: int): (r: int)
    ensures r <= |t|
    ensures 0 <= pos <= |t| ==> 0 <= r && pos <= r <= pos + 1
    ensures pos < |t| ==> r > pos
  {
    Min(|t|, pos + 1)
  }

  /** `moveDown` (vim.ts:699-711): the same column on the next line, clamped to its length. */
  function MoveDown(t: string, pos: int): (r: int)
    ensures LineEnd(t, pos) == |t| ==> r == pos
    ensures 0 <= pos <= |t| ==> 0 <= r <= |t|
  {
    var ls := LineStart(t, pos);
    var le := LineEnd(t, pos);
    if le == |t| then pos
    else
      var nls := le + 1;
      var nle := LineEnd(t, nls);
      nls + Min(pos - ls, nle - nls)
  }

  /** `moveUp` (vim.ts:713-724): the same column on the previous line, clamped to its length. */
  function MoveUp(t: string, pos: int): (r: int)
    ensures LineStart(t, pos) == 0 ==> r == pos
    ensures 0 <= pos <= |t| ==> 0 <= r <= |t|
  {
    var ls := LineStart(t, pos);
    if ls == 0 then pos
    else
      var ple := ls - 1;
      var pls := LineStart(t, ple);
      pls + Min(pos - ls, ple - pls)
  }

  /** `n` applications of `step` to `x`: the loop shape of the half-page motions. */
  function Repeat(step: int -> int, x: int, n: nat): int
    decreases n
  {
    if n == 0 then x else Repeat(step, step(x), n - 1)
  }

  /** One `moveDown` on `t`, as a step to repeat. */
  function DownStep(t: string): int -> int { p => MoveDown(t, p) }

  /** One `moveUp` on `t`, as a step to repeat. */
  function UpStep(t: string): int -> int { p => MoveUp(t, p) }

  /** Position 0 of a buffer that opens with a newline, where `lineStart` answers 1 instead of 0. */
  predicate OnLeadingEmptyLine(t: string, pos: int) {
    pos == 0 && CharIs(t, 0, '\n')
  }

  /**
    `moveHalfPageDown` (vim.ts:733-738): `PAGE_SIZE` successive `moveDown`s.
    The caret ends `PAGE_SIZE` lines further down, or on the last line; at
    the `lineStart` trap it never leaves the leading empty line.
   */
  function MoveHalfPageDown(t: string, pos: int): (r: int)
    ensures 0 <= pos <= |t| ==> 0 <= r <= |t|
    ensures 0 <= pos <= |t| && !OnLeadingEmptyLine(t, pos) ==>
      0 <= r <= |t| && LineIndex(t, r) == Min(LineIndex(t, pos) + PAGE_SIZE, LineIndex(t, |t|))
    ensures OnLeadingEmptyLine(t, pos) ==> r == 0
  {
    var r := Repeat(DownStep(t), pos, PAGE_SIZE);
    if OnLeadingEmptyLine(t, pos) then
      MoveDownStuckOnLeadingEmptyLine(t);
      RepeatFixed(DownStep(t), pos, PAGE_SIZE);
      r
    else if 0 <= pos <= |t| then
      RepeatDownLines(t, pos, PAGE_SIZE);
      r
    else r
  }

  /**
    `moveHalfPageUp` (vim.ts:726-731): `PAGE_SIZE` successive `moveUp`s.
    The caret ends `PAGE_SIZE` lines further up, or on the first line.
   */
  function MoveHalfPageUp(t: string, pos: int): (r: int)
    ensures 0 <= pos <= |t| ==>
      0 <= r <= |t| && LineIndex(t, r) == Max(LineIndex(t, pos) - PAGE_SIZE, 0)
  {
    var r := Repeat(UpStep(t), pos, PAGE_SIZE);
    if 0 <= pos <= |t| then RepeatUpLines(t, pos, PAGE_SIZE); r else r
  }

  /** `movePageDown` (vim.ts:740-744): two half pages. */
  function MovePageDown(t: string, pos: int): int { MoveHalfPageDown(t, MoveHalfPageDown(t, pos)) }

  /** `movePageUp` (vim.ts:746-750): two half pages. */
  function MovePageUp(t: string, pos: int): int { MoveHalfPageUp(t, MoveHalfPageUp(t, pos)) }

  /**
    `moveToWordNextLine` (vim.ts:752-760): the first non-space of the next
    line; no move when no character follows the current line's newline.
   */
  function MoveToWordNextLine(t: string, pos: int): (r: int)
    ensures LineEnd(t, pos) + 1 >= |t| ==> r == pos
    ensures LineEnd(t, pos) + 1 < |t| ==>
      && LineEnd(t, pos) + 1 <= r <= |t|
      && (forall k :: LineEnd(t, pos) + 1 <= k < r ==> CharIs(t, k, ' '))
      && !CharIs(t, r, ' ')
  {
    var ls := LineEnd(t, pos) + 1;
    if ls >= |t| then pos else ls + CountSpaces(t, ls)
  }

  /**
    `moveToFirstWordStart` (vim.ts:770-776): past the spaces (not tabs) that
    open the caret's line.
   */
  function MoveToFirstWordStart(t: string, pos: int): (r: int)
    ensures LineStart(t, pos) <= r <= |t|
    ensures forall k :: LineStart(t, pos) <= k < r ==> CharIs(t, k, ' ')
    ensures !CharIs(t, r, ' ')
  {
    var ls := LineStart(t, pos);
    ls + CountSpaces(t, ls)
  }

  /** `moveToNextWord` (vim.ts:778-781): past the word boundary after the caret, then past spaces. */
  function MoveToNextWord(t: string, pos: int): (r: int)
    ensures 0 <= pos <= |t| ==> pos <= r <= |t|
    ensures 0 <= pos < |t| ==> pos < r
    ensures var e := SelectWord(t, pos).end; e <= r && (forall k :: e <= k < r ==> CharIs(t, k, ' ')) && !CharIs(t, r, ' ')
  {
    var e := SelectWord(t, pos).end;
    e + CountSpaces(t, e)
  }

  /** `moveToNextWordPlus` (vim.ts:783-786): as `MoveToNextWord` with WORD boundaries. */
  function MoveToNextWordPlus(t: string, pos: int): (r: int)
    ensures 0 <= pos <= |t| ==> pos <= r <= |t|
    ensures 0 <= pos < |t| ==> pos < r
    ensures var e := SelectWordPlus(t, pos).end; e <= r && (forall k :: e <= k < r ==> CharIs(t, k, ' ')) && !CharIs(t, r, ' ')
  {
    var e := SelectWordPlus(t, pos).end;
    e + CountSpaces(t, e)
  }

  /**
    `moveToEndWord` (vim.ts:788-793): skip the spaces from the caret on, then
    go to the end of the run of the `FIND_WORD` class that starts there.
   */
  function MoveToEndWord(t: string, pos: int): (r: int)
    ensures 0 <= r <= |t|
    ensures 0 <= pos < |t| ==> pos < r
    ensures var q := pos + CountSpaces(t, pos);
      && (0 <= pos <= |t| && q == |t| ==> r == |t|)
      && (NoBackslash(t) && 0 <= q < |t| ==> RunEndsAt(t, q, r, false))
  {
    var q := pos + CountSpaces(t, pos);
    if NoBackslash(t) && 0 <= q < |t| then
      SelectWordIsClassRun(t, q);
      SelectWord(t, q).end
    else SelectWord(t, q).end
  }

  /**
    `moveToEndWordPlus` (vim.ts:795-800): skip the spaces from the caret on,
    then go to the end of the whitespace or non-whitespace run that starts there.
   */
  function MoveToEndWordPlus(t: string, pos: int): (r: int)
    ensures 0 <= r <= |t|
    ensures 0 <= pos < |t| ==> pos < r
    ensures var q := pos + CountSpaces(t, pos);
      && (0 <= pos <= |t| && q == |t| ==> r == |t|)
      && (0 <= q < |t| ==> RunEndsAt(t, q, r, true))
  {
    var q := pos + CountSpaces(t, pos);
    if 0 <= q < |t| then
      SelectWordPlusIsSpaceRun(t, q);
      SelectWordPlus(t, q).end
    else SelectWordPlus(t, q).end
  }

  /**
    `moveToPreviousWord` (vim.ts:802-807): the start of the `FIND_WORD` run
    holding `pos - n - 1`, where `n` counts the spaces that FOLLOW `pos`
    (`countSpaces(text, pos)`), not the ones before it.
   */
  function MoveToPreviousWord(t: string, pos: int): (r: int)
    ensures 0 <= r <= |t|
    ensures 0 <= pos ==> r <= pos
    ensures 0 < pos ==> r < pos
    ensures var n := CountSpaces(t, pos); var p := pos - n - 1;
      && (forall k :: pos <= k < pos + n ==> CharIs(t, k, ' '))
      && (p < 0 ==> r == 0)
      && (NoBackslash(t) && 0 <= p < |t| ==> RunStartsAt(t, r, p, false))
  {
    var p := pos - CountSpaces(t, pos) - 1;
    if NoBackslash(t) && 0 <= p < |t| then
      SelectWordIsClassRun(t, p);
      SelectWord(t, p).start
    else SelectWord(t, p).start
  }

  /**
    `moveToPreviousWordPlus` (vim.ts:809-814): the start of the whitespace or
    non-whitespace run holding `pos - n - 1`, `n` again counting the spaces
    after `pos`.
   */
  function MoveToPreviousWordPlus(t: string, pos: int): (r: int)
    ensures 0 <= r <= |t|
    ensures 0 <= pos ==> r <= pos
    ensures 0 < pos ==> r < pos
    ensures var n := CountSpaces(t, pos); var p := pos - n - 1;
      && (forall k :: pos <= k < pos + n ==> CharIs(t, k, ' '))
      && (p < 0 ==> r == 0)
      && (0 <= p < |t| ==> RunStartsAt(t, r, p, true))
  {
    var p := pos - CountSpaces(t, pos) - 1;
    if 0 <= p < |t| then
      SelectWordPlusIsSpaceRun(t, p);
      SelectWordPlus(t, p).start
    else SelectWordPlus(t, p).start
  }

  /** The motion bound to a tree leaf, applied; every motion keeps an in-buffer caret in the buffer. */
  function Apply(m: Motion, t: string, pos: int): (r: int)
    ensures 0 <= pos <= |t| ==> 0 <= r <= |t|
  {
    match m
    case Left => MoveLeft(t, pos)
    case Right => MoveRight(t, pos)
    case Up => MoveUp(t, pos)
    case Down => MoveDown(t, pos)
    case HalfPageUp => MoveHalfPageUp(t, pos)
    case HalfPageDown => MoveHalfPageDown(t, pos)
    case PageUp => MovePageUp(t, pos)
    case PageDown => MovePageDown(t, pos)
    case ToLineStart => LineStart(t, pos)
    case ToLineEnd => LineEnd(t, pos)
    case FirstWordStart => MoveToFirstWordStart(t, pos)
    case WordNextLine => MoveToWordNextLine(t, pos)
    case NextWord => MoveToNextWord(t, pos)
    case NextWordPlus => MoveToNextWordPlus(t, pos)
    case EndWord => MoveToEndWord(t, pos)
    case EndWordPlus => MoveToEndWordPlus(t, pos)
    case PreviousWord => MoveToPreviousWord(t, pos)
    case PreviousWordPlus => MoveToPreviousWordPlus(t, pos)
    case VeryBeginning => 0
    case VeryEnd => |t|
  }

  /**
    Off the last line, `moveDown` lands on the next line, at the caret's
    column clamped to that line's length. The one exception is position 0 of
    a buffer opening with a newline (see `MoveDownStuckOnLeadingEmptyLine`).
   */
  lemma MoveDownLandsOnNextLine(t: string, pos: nat)
    requires pos <= |t|
    requires LineEnd(t, pos) < |t|
    requires !(pos == 0 && t[0] == '\n')
    ensures var r := MoveDown(t, pos);
      var nls := LineEnd(t, pos) + 1;
      && nls <= r <= LineEnd(t, nls)
      && LineBegin(t, r) == nls
      && r - nls == Min(pos - LineBegin(t, pos), LineEnd(t, nls) - nls)
  {
    LineStartIsLineBegin(t, pos);
    var r := MoveDown(t, pos);
    var nls := LineEnd(t, pos) + 1;
    LineBeginUnique(t, r, nls);
  }

  /**
    Because `lineStart(text, 0)` is 1 when the buffer opens with a newline,
    the column `moveDown` computes there is -1 and the caret stays on the
    empty first line.
   */
  lemma MoveDownStuckOnLeadingEmptyLine(t: string)
    requires |t| > 0 && t[0] == '\n'
    ensures LineEnd(t, 0) < |t| && LineBegin(t, 1) == 1
    ensures MoveDown(t, 0) == 0
  {
  }

  /** Off the first line, `moveUp` lands on the previous line at the clamped column. */
  lemma MoveUpLandsOnPreviousLine(t: string, pos: nat)
    requires pos <= |t|
    requires LineBegin(t, pos) > 0
    ensures var r := MoveUp(t, pos);
      var ls := LineBegin(t, pos);
      var pls := LineBegin(t, ls - 1);
      && pls <= r <= ls - 1
      && LineBegin(t, r) == pls
      && r - pls == Min(pos - ls, ls - 1 - pls)
  {
    LineStartIsLineBegin(t, pos);
    var ls := LineBegin(t, pos);
    LineStartIsLineBegin(t, ls - 1);
    var r := MoveUp(t, pos);
    var pls := LineBegin(t, ls - 1);
    LineBeginUnique(t, r, pls);
  }

  /** On the first line `moveUp` does not move, even where `lineStart` answers 1. */
  lemma MoveUpOnFirstLine(t: string, pos: nat)
    requires pos <= |t|
    requires LineBegin(t, pos) == 0
    ensures MoveUp(t, pos) == pos
  {
    LineStartIsLineBegin(t, pos);
  }

  /** `a` steps followed by `b` steps are `a + b` steps. */
  lemma {:induction false} RepeatAdd(step: int -> int, x: int, a: nat, b: nat)
    ensures Repeat(step, Repeat(step, x, a), b) == Repeat(step, x, a + b)
    decreases a
  {
    if a > 0 {
      RepeatAdd(step, step(x), a - 1, b);
    }
  }

  /** A full page is `2 * PAGE_SIZE` single-line motions (vim.ts:726-750). */
  lemma PageIsTwoHalfPages(t: string, pos: int)
    ensures MovePageDown(t, pos) == Repeat(DownStep(t), pos, 2 * PAGE_SIZE)
    ensures MovePageUp(t, pos) == Repeat(UpStep(t), pos, 2 * PAGE_SIZE)
  {
    RepeatAdd(DownStep(t), pos, PAGE_SIZE, PAGE_SIZE);
    RepeatAdd(UpStep(t), pos, PAGE_SIZE, PAGE_SIZE);
  }

  /** A step that leaves `x` where it is leaves it there however often it is repeated. */
  lemma {:induction false} RepeatFixed(step: int -> int, x: int, n: nat)
    requires step(x) == x
    ensures Repeat(step, x, n) == x
    decreases n
  {
    if n > 0 {
      RepeatFixed(step, x, n - 1);
    }
  }

  /** From a newline-free stretch `[p, e)` across the newline at `e` to a newline-free `(e, r)`: one line on. */
  lemma LineIndexAcrossNewline(t: string, p: nat, e: nat, r: nat)
    requires p <= e < r <= |t| && t[e] == '\n'
    requires forall k :: p <= k < e ==> t[k] != '\n'
    requires forall k :: e < k < r ==> t[k] != '\n'
    ensures LineIndex(t, r) == LineIndex(t, p) + 1 <= LineIndex(t, |t|)
  {
    LineIndexSameLine(t, p, e);
    LineIndexAfterNewline(t, e);
    LineIndexSameLine(t, e + 1, r);
    LineIndexMonotone(t, r, |t|);
  }

  /**
    Away from the `lineStart` trap, one `moveDown` goes one line down, or
    stays on the last line; it never lands on the trap.
   */
  lemma MoveDownOneLine(t: string, pos: nat)
    requires pos <= |t| && !OnLeadingEmptyLine(t, pos)
    ensures var r := MoveDown(t, pos);
      && 0 <= r <= |t| && !OnLeadingEmptyLine(t, r)
      && LineIndex(t, r) == Min(LineIndex(t, pos) + 1, LineIndex(t, |t|))
  {
    var le := LineEnd(t, pos);
    if le == |t| {
      LineIndexSameLine(t, pos, le);
    } else {
      MoveDownLandsOnNextLine(t, pos);
      var r := MoveDown(t, pos);
      assert LineBegin(t, r) == le + 1;
      LineIndexAcrossNewline(t, pos, le, r);
    }
  }

  /** One `moveUp` goes one line up, or stays on the first line. */
  lemma MoveUpOneLine(t: string, pos: nat)
    requires pos <= |t|
    ensures var r := MoveUp(t, pos);
      0 <= r <= |t| && LineIndex(t, r) == Max(LineIndex(t, pos) - 1, 0)
  {
    var b := LineBegin(t, pos);
    if b == 0 {
      LineIndexSameLine(t, 0, pos);
      MoveUpOnFirstLine(t, pos);
    } else {
      MoveUpLandsOnPreviousLine(t, pos);
      var r := MoveUp(t, pos);
      assert LineBegin(t, b - 1) <= r;
      LineIndexAcrossNewline(t, r, b - 1, pos);
    }
  }

  /**
    A step that, away from position `stuck`, goes one line down or stays on
    the last line, repeated `n` times goes `n` lines down, stopping at the last.
   */
  lemma {:induction false} RepeatClimbsLines(step: int -> int, t: string, stuck: int, x: int, n: nat)
    requires 0 <= x <= |t| && x != stuck && LineIndex(t, x) <= LineIndex(t, |t|)
    requires forall p :: 0 <= p <= |t| && p != stuck ==>
      0 <= step(p) <= |t| && step(p) != stuck
      && LineIndex(t, step(p)) == Min(LineIndex(t, p) + 1, LineIndex(t, |t|))
    ensures var r := Repeat(step, x, n);
      0 <= r <= |t| && LineIndex(t, r) == Min(LineIndex(t, x) + n, LineIndex(t, |t|))
    decreases n
  {
    if n > 0 {
      RepeatClimbsLines(step, t, stuck, step(x), n - 1);
    }
  }

  /** A step that goes one line up or stays on the first line, repeated `n` times, goes `n` lines up. */
  lemma {:induction false} RepeatDescendsLines(step: int -> int, t: string, x: int, n: nat)
    requires 0 <= x <= |t|
    requires forall p :: 0 <= p <= |t| ==>
      0 <= step(p) <= |t| && LineIndex(t, step(p)) == Max(LineIndex(t, p) - 1, 0)
    ensures var r := Repeat(step, x, n);
      0 <= r <= |t| && LineIndex(t, r) == Max(LineIndex(t, x) - n, 0)
    decreases n
  {
    if n > 0 {
      RepeatDescendsLines(step, t, step(x), n - 1);
    }
  }

  /** `n` `moveDown`s away from the trap go `n` lines down, stopping at the last line. */
  lemma RepeatDownLines(t: string, pos: nat, n: nat)
    requires pos <= |t| && !OnLeadingEmptyLine(t, pos)
    ensures var r := Repeat(DownStep(t), pos, n);
      0 <= r <= |t| && LineIndex(t, r) == Min(LineIndex(t, pos) + n, LineIndex(t, |t|))
  {
    var stuck := if CharIs(t, 0, '\n') then 0 else -1;
    forall p | 0 <= p <= |t| && p != stuck
      ensures 0 <= DownStep(t)(p) <= |t| && DownStep(t)(p) != stuck
        && LineIndex(t, DownStep(t)(p)) == Min(LineIndex(t, p) + 1, LineIndex(t, |t|))
    {
      MoveDownOneLine(t, p);
    }
    LineIndexMonotone(t, pos, |t|);
    RepeatClimbsLines(DownStep(t), t, stuck, pos, n);
  }

  /** `n` `moveUp`s go `n` lines up, stopping at the first line. */
  lemma RepeatUpLines(t: string, pos: nat, n: nat)
    requires pos <= |t|
    ensures var r := Repeat(UpStep(t), pos, n);
      0 <= r <= |t| && LineIndex(t, r) == Max(LineIndex(t, pos) - n, 0)
  {
    forall p | 0 <= p <= |t|
      ensures 0 <= UpStep(t)(p) <= |t| && LineIndex(t, UpStep(t)(p)) == Max(LineIndex(t, p) - 1, 0)
    {
      MoveUpOneLine(t, p);
    }
    RepeatDescendsLines(UpStep(t), t, pos, n);
  }
}
