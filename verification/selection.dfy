/**
  The selection library (vim.ts:513-683): pure functions from a buffer and a
  caret to a `[start, end)` range, as the command tree binds them to the
  `a`/`i` text objects and to the operator-doubling keys (`dd`, `cc`, `yy`,
  `>>`, `<<`).
 */
module Selection {
  import opened Wrappers
  import opened JsString
  import opened Lines
  import opened Boundaries
  import Brackets
  import Motion

  /** The selectors the command tree binds (vim.ts:108-195). */
  datatype Selector =
    | Line | LineNL
    | Word | WordPlus | Paragraph
    | WordWithSpaces | WordPlusWithSpaces | ParagraphWithSpaces
    | ToNextWord | ToNextWordPlus | ToWordBound | ToWordBoundPlus
    | Quotes(quote: char)
    | Bounds(open: char, close: char)
    | InsideQuotes(quote: char)
    | InsideBounds(open: char, close: char)

  /** `selectLine` (vim.ts:531-533): the caret's line without its newline. */
  function SelectLine(t: string, pos: int): (r: Range)
    ensures 0 <= r.start <= |t| && 0 <= r.end <= |t|
    ensures pos >= 1 ==> r.start <= pos && Min(pos, |t|) <= r.end
    ensures r.start == 0 || t[r.start - 1] == '\n'
    ensures r.end == |t| || t[r.end] == '\n'
    ensures forall k :: r.start <= k < r.end ==> t[k] != '\n'
  {
    Range(LineStart(t, pos), LineEnd(t, pos))
  }

  /** `selectLineNL` (vim.ts:535-537): the caret's line and its newline; past the end on the last line. */
  function SelectLineNL(t: string, pos: int): (r: Range)
    ensures r.start == SelectLine(t, pos).start && r.end == SelectLine(t, pos).end + 1
  {
    Range(LineStart(t, pos), LineEnd(t, pos) + 1)
  }

  /**
    On every line but a leading empty one the line selection contains the
    caret and is exactly the reference line `[LineBegin, LineEnd)`.
   */
  lemma SelectLineIsCaretLine(t: string, pos: nat)
    requires pos <= |t|
    requires !(pos == 0 && |t| > 0 && t[0] == '\n')
    ensures var r := SelectLine(t, pos);
      && r.start == LineBegin(t, pos) && r.start <= pos <= r.end
  {
    LineStartIsLineBegin(t, pos);
  }

  /** At position 0 of a buffer opening with a newline the line selection comes out inverted, `[1, 0]`. */
  lemma SelectLineInvertedOnLeadingNewline(t: string)
    requires |t| > 0 && t[0] == '\n'
    ensures SelectLine(t, 0) == Range(1, 0)
    ensures SelectLineNL(t, 0) == Range(1, 1)
  {
  }

  /** `selectToNextWord` (vim.ts:557-559). */
  function SelectToNextWord(t: string, pos: int): (r: Range)
    ensures r.start == pos
    ensures 0 <= pos <= |t| ==> pos <= r.end <= |t|
    ensures forall k :: SelectWord(t, pos).end <= k < r.end ==> CharIs(t, k, ' ')
  {
    Range(pos, Motion.MoveToNextWord(t, pos))
  }

  /** `selectToNextWordPlus` (vim.ts:561-563). */
  function SelectToNextWordPlus(t: string, pos: int): (r: Range)
    ensures r.start == pos
    ensures 0 <= pos <= |t| ==> pos <= r.end <= |t|
    ensures forall k :: SelectWordPlus(t, pos).end <= k < r.end ==> CharIs(t, k, ' ')
  {
    Range(pos, Motion.MoveToNextWordPlus(t, pos))
  }

  /** `selectToWordBound` (vim.ts:565-567): from the caret to the end of its word. */
  function SelectToWordBound(t: string, pos: int): (r: Range)
    ensures r.start == pos
    ensures 0 <= pos <= |t| ==> pos <= r.end <= |t|
    ensures 0 <= pos < |t| ==> pos < r.end
  {
    Range(pos, SelectWord(t, pos).end)
  }

  /** `selectToWordBoundPlus` (vim.ts:569-571). */
  function SelectToWordBoundPlus(t: string, pos: int): (r: Range)
    ensures r.start == pos
    ensures 0 <= pos <= |t| ==> pos <= r.end <= |t|
    ensures 0 <= pos < |t| ==> pos < r.end
  {
    Range(pos, SelectWordPlus(t, pos).end)
  }

  /**
    The common shape of the three "with spaces after" selectors
    (vim.ts:573-586): the range `w` extended over the spaces that follow it.
   */
  function WithSpacesAfter(t: string, w: Range): (r: Range)
    requires 0 <= w.end <= |t|
    ensures r.start == w.start && w.end <= r.end <= |t|
    ensures forall k :: w.end <= k < r.end ==> t[k] == ' '
    ensures r.end == |t| || t[r.end] != ' '
  {
    var n := CountSpaces(t, w.end);
    forall k | w.end <= k < w.end + n
      ensures t[k] == ' '
    {
      assert CharIs(t, k, ' ');
    }
    Range(w.start, w.end + n)
  }

  /** `selectQuotes`' backward loop (vim.ts:605-610): the last quote at or before `i`. */
  function QuoteBefore(t: string, q: char, i: int): (r: Option<int>)
    ensures r.Some? ==> 0 <= r.value <= i && r.value < |t| && t[r.value] == q
    ensures r.Some? ==> forall k :: r.value < k <= i && k < |t| ==> t[k] != q
    ensures r.None? ==> forall k :: 0 <= k <= i && k < |t| ==> t[k] != q
    decreases i + 1
  {
    if i < 0 then None
    else if CharIs(t, i, q) then Some(i)
    else QuoteBefore(t, q, i - 1)
  }

  /** `selectQuotes`' forward loop (vim.ts:612-617): the first quote at or after `i`. */
  function QuoteAfter(t: string, q: char, i: int): (r: Option<int>)
    ensures r.Some? ==> i <= r.value && 0 <= r.value < |t| && t[r.value] == q
    ensures r.Some? ==> forall k :: i <= k < r.value && 0 <= k ==> t[k] != q
    ensures r.None? ==> forall k :: i <= k < |t| && 0 <= k ==> t[k] != q
    decreases |t| - i
  {
    if i >= |t| then None
    else if CharIs(t, i, q) then Some(i)
    else QuoteAfter(t, q, i + 1)
  }

  /**
    `selectQuotes` (vim.ts:601-620). JavaScript's `l || 0` and
    `(r || text.length) + 1` treat a quote found at index 0 like no quote.
   */
  function SelectQuotes(t: string, pos: int, q: char): Range
  {
    var l := QuoteBefore(t, q, pos);
    var r := QuoteAfter(t, q, pos + 1);
    Range(if l.Some? then l.value else 0,
          (if r.Some? && r.value != 0 then r.value else |t|) + 1)
  }

  /**
    The quote selection runs from the last quote at or before the caret (0 if
    none) through the first quote after it (one past the end if none, so an
    unclosed quote yields `|t| + 1`).
   */
  lemma SelectQuotesSpec(t: string, pos: nat, q: char)
    requires pos <= |t|
    ensures var r := SelectQuotes(t, pos, q);
      && 0 <= r.start <= Min(pos, |t|) && pos < r.end <= |t| + 1
      && (r.start > 0 ==> t[r.start] == q)
      && (forall k :: r.start < k <= pos && k < |t| ==> t[k] != q)
      && (r.end <= |t| ==> t[r.end - 1] == q)
      && (r.end == |t| + 1 <==> forall k :: pos < k < |t| ==> t[k] != q)
      && (forall k :: pos < k < r.end - 1 && k < |t| ==> t[k] != q)
  {
    var r := SelectQuotes(t, pos, q);
    var ra := QuoteAfter(t, q, pos + 1);
    if ra.None? {
      assert r.end == |t| + 1;
    } else {
      assert r.end == ra.value + 1 <= |t|;
      assert CharIs(t, ra.value, q);
    }
  }

  lemma QuotesInRange(t: string, pos: int, q: char)
    ensures var r := SelectQuotes(t, pos, q);
      && (0 <= pos <= |t| ==> 0 <= r.start <= pos < r.end <= |t| + 1)
      && (0 <= pos < |t| ==> pos + 2 <= r.end)
  {
    if 0 <= pos <= |t| {
      SelectQuotesSpec(t, pos, q);
    }
  }

  /**
    `inside` (vim.ts:521-529): an empty range passes through, any other loses
    one position at each end.
   */
  function InsideOf(r: Range): (s: Range)
    ensures r.start == r.end ==> s == r
    ensures r.start != r.end ==> s.end - s.start == r.end - r.start - 2
    ensures r.start != r.end ==> s.start == r.start + 1
  {
    if r.end == r.start then r else Range(r.start + 1, r.end - 1)
  }

  /** Dispatch from a selector to its function (`data.select(text, caret)`, vim.ts:418-420). */
  function Apply(s: Selector, t: string, pos: int): (r: Range)
    ensures 0 <= pos <= |t| ==> 0 <= r.start <= |t| + 1 && -1 <= r.end <= |t| + 1
    ensures 0 <= pos <= |t| && !s.InsideQuotes? && !s.InsideBounds? && !s.Bounds? && !s.Line? && !s.LineNL? ==> r.start <= r.end
    ensures 0 <= pos < |t| && s.InsideQuotes? ==> r.start <= r.end
  {
    match s
    case Line => SelectLine(t, pos)
    case LineNL => SelectLineNL(t, pos)
    case Word => SelectWord(t, pos)
    case WordPlus => SelectWordPlus(t, pos)
    case Paragraph => SelectParagraph(t, pos)
    case WordWithSpaces => WithSpacesAfter(t, SelectWord(t, pos))
    case WordPlusWithSpaces => WithSpacesAfter(t, SelectWordPlus(t, pos))
    case ParagraphWithSpaces => WithSpacesAfter(t, SelectParagraph(t, pos))
    case ToNextWord => SelectToNextWord(t, pos)
    case ToNextWordPlus => SelectToNextWordPlus(t, pos)
    case ToWordBound => SelectToWordBound(t, pos)
    case ToWordBoundPlus => SelectToWordBoundPlus(t, pos)
    case Quotes(q) =>
      QuotesInRange(t, pos, q);
      SelectQuotes(t, pos, q)
    case Bounds(o, c) => Brackets.SelectBounds(t, pos, o, c)
    case InsideQuotes(q) =>
      QuotesInRange(t, pos, q);
      InsideOf(SelectQuotes(t, pos, q))
    case InsideBounds(o, c) => InsideOf(Brackets.SelectBounds(t, pos, o, c))
  }

  /**
    Inside a closed pair of quotes around the caret, `i` selects exactly the
    text strictly between them, which holds no quote.
   */
  lemma InsideQuotesIsInterior(t: string, pos: nat, q: char)
    requires pos < |t|
    requires exists k :: 0 <= k <= pos && t[k] == q
    requires exists k :: pos < k < |t| && t[k] == q
    ensures var s := InsideOf(SelectQuotes(t, pos, q));
      && 0 < s.start <= s.end < |t|
      && t[s.start - 1] == q && t[s.end] == q
      && forall k :: s.start <= k < s.end ==> t[k] != q
  {
    SelectQuotesSpec(t, pos, q);
    var l := QuoteBefore(t, q, pos);
    var r := QuoteAfter(t, q, pos + 1);
    assert l.Some? by {
      var k :| 0 <= k <= pos && t[k] == q;
      assert CharIs(t, k, q);
    }
    assert r.Some? by {
      var k :| pos < k < |t| && t[k] == q;
      assert CharIs(t, k, q);
    }
  }

  /**
    Inside a matched pair `i` selects exactly the balanced interior: the
    characters just outside the result are the opening and closing delimiters.
   */
  lemma InsideBoundsIsInterior(t: string, pos: nat, open: char, close: char)
    requires open != close && pos <= |t|
    requires Brackets.SelectBounds(t, pos, open, close) != Range(pos, 0)
    ensures var s := InsideOf(Brackets.SelectBounds(t, pos, open, close));
      && 0 < s.start <= s.end < |t|
      && t[s.start - 1] == open && t[s.end] == close
      && Brackets.Balanced(t, open, close, s.start, s.end)
  {
    Brackets.SelectBoundsInnermost(t, pos, open, close);
  }

  /**
    With no enclosing pair, `i` turns the inverted `[pos, 0]` into
    `[pos + 1, -1]`, which the operators then hand to `slice`.
   */
  lemma InsideBoundsUnmatched(t: string, pos: nat, open: char, close: char)
    requires open != close && pos <= |t| && pos != 0
    requires forall l, r :: !Brackets.EnclosingPair(t, open, close, pos, l, r)
    ensures InsideOf(Brackets.SelectBounds(t, pos, open, close)) == Range(pos + 1, -1)
  {
    Brackets.SelectBoundsInnermost(t, pos, open, close);
  }
}
