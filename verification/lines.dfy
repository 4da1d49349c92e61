/**
  Line arithmetic and the indentation helpers of the editor (vim.ts:465-489,
  docs/index.js:337-362). Positions are plain integers: callers may pass the
  raw host caret, which nothing clamps.
 */
module Lines {
  import opened JsString

  /** Width of one indentation step and of a tab stop (vim.ts:1). */
  const TAB_WIDTH: nat := 4

  /**
    `lineStart` (vim.ts:465-471): one past the last newline before `pos`.
    `lastIndexOf` clamps a negative start index to 0, so on a buffer that opens
    with a newline every `pos <= 0` yields 1, not 0.
   */
  function LineStart(t: string, pos: int): (r: nat)
    ensures r <= |t|
    ensures r == 0 || t[r - 1] == '\n'
    ensures pos >= 1 ==> r <= pos && forall k :: r <= k < pos && k < |t| ==> t[k] != '\n'
    ensures pos <= 0 ==> r == (if |t| > 0 && t[0] == '\n' then 1 else 0)
  {
    var i := LastIndexOf(t, '\n', if CharIs(t, pos, '\n') then pos - 1 else pos);
    if i == -1 then 0 else i + 1
  }

  /**
    Reference definition of a line's first offset: just after the last newline
    strictly before `p`, or 0 on the first line.
   */
  function LineBegin(t: string, p: nat): (r: nat)
    requires p <= |t|
    ensures r <= p
    ensures r == 0 || t[r - 1] == '\n'
    ensures forall k :: r <= k < p ==> t[k] != '\n'
    decreases p
  {
    if p == 0 then 0 else if t[p - 1] == '\n' then p else LineBegin(t, p - 1)
  }

  /** Reference line number of position `p`: the newlines before it. */
  function LineIndex(t: string, p: nat): nat
    requires p <= |t|
  {
    multiset(t[..p])['\n']
  }

  /** Positions with no newline between them are on the same line. */
  lemma LineIndexSameLine(t: string, a: nat, b: nat)
    requires a <= b <= |t|
    requires forall k :: a <= k < b ==> t[k] != '\n'
    ensures LineIndex(t, b) == LineIndex(t, a)
  {
    assert t[..b] == t[..a] + t[a..b];
    assert '\n' !in t[a..b];
  }

  /** Line numbers never decrease along the buffer. */
  lemma LineIndexMonotone(t: string, a: nat, b: nat)
    requires a <= b <= |t|
    ensures LineIndex(t, a) <= LineIndex(t, b)
  {
    assert t[..b] == t[..a] + t[a..b];
  }

  /** A newline at `e` puts the position after it one line further on. */
  lemma LineIndexAfterNewline(t: string, e: nat)
    requires e < |t| && t[e] == '\n'
    ensures LineIndex(t, e + 1) == LineIndex(t, e) + 1
  {
    assert t[..e + 1] == t[..e] + [t[e]];
  }

  /** A line start is determined by the two facts `LineBegin` ensures. */
  lemma LineBeginUnique(t: string, p: nat, s: nat)
    requires s <= p <= |t|
    requires s == 0 || t[s - 1] == '\n'
    requires forall k :: s <= k < p ==> t[k] != '\n'
    ensures LineBegin(t, p) == s
  {
  }

  /**
    `lineStart` agrees with the reference definition everywhere except at
    position 0 of a buffer that opens with a newline, where it answers 1.
   */
  lemma LineStartIsLineBegin(t: string, p: nat)
    requires p <= |t|
    ensures LineStart(t, p) == if p == 0 && |t| > 0 && t[0] == '\n' then 1 else LineBegin(t, p)
  {
    if p >= 1 {
      LineBeginUnique(t, p, LineStart(t, p));
    }
  }

  /**
    Splicing a run without newlines into a buffer keeps the position after it
    on the same line: that line begins where the line of the splice point did.
   */
  lemma LineStartOfSplice(t: string, c: nat, s: string)
    requires c <= |t|
    requires forall k :: 0 <= k < |s| ==> s[k] != '\n'
    requires c + |s| >= 1
    ensures LineStart(t[..c] + s + t[c..], c + |s|) == LineBegin(t, c)
  {
    var u := t[..c] + s + t[c..];
    var q, b := c + |s|, LineBegin(t, c);
    forall k | b <= k < q
      ensures u[k] != '\n'
    {
      if k < c {
        assert u[k] == t[k];
      } else {
        assert u[k] == s[k - c];
      }
    }
    if b > 0 {
      assert u[b - 1] == t[b - 1];
    }
    LineBeginUnique(u, q, b);
    LineStartIsLineBegin(u, q);
  }

  /**
    Every position of a line that begins at `b` has `b` as its line start,
    position 0 of a buffer that opens with a newline aside.
   */
  lemma LineStartWithin(t: string, b: nat, q: nat)
    requires b <= q <= |t|
    requires b == 0 || t[b - 1] == '\n'
    requires forall k :: b <= k < q ==> t[k] != '\n'
    requires q >= 1 || !CharIs(t, 0, '\n')
    ensures LineStart(t, q) == b
  {
    if q >= 1 {
      LineBeginUnique(t, q, b);
      LineStartIsLineBegin(t, q);
    }
  }

  /** Every position of a line that ends at `e` has `e` as its line end. */
  lemma LineEndWithin(t: string, q: nat, e: nat)
    requires q <= e <= |t|
    requires e == |t| || t[e] == '\n'
    requires forall k :: q <= k < e ==> t[k] != '\n'
    ensures LineEnd(t, q) == e
  {
  }

  /** `[b, e)` is a whole line of `t`: it opens the buffer or follows a newline, and runs newline-free to a newline or the end. */
  predicate IsLine(t: string, b: nat, e: nat) {
    && b <= e <= |t|
    && (b == 0 || t[b - 1] == '\n')
    && (e == |t| || t[e] == '\n')
    && forall k :: b <= k < e ==> t[k] != '\n'
  }

  /** The caret's line is a whole line holding the caret, on every line but a leading empty one. */
  lemma CaretLine(t: string, c: nat)
    requires c <= |t| && !(c == 0 && CharIs(t, 0, '\n'))
    ensures IsLine(t, LineStart(t, c), LineEnd(t, c)) && LineStart(t, c) <= c <= LineEnd(t, c)
  {
  }

  /** Every position of a whole line has that line's bounds as its line start and line end. */
  lemma LineBoundsWithin(t: string, b: nat, e: nat, q: nat)
    requires IsLine(t, b, e) && b <= q <= e
    requires q >= 1 || !CharIs(t, 0, '\n')
    ensures LineStart(t, q) == b && LineEnd(t, q) == e
  {
    LineStartWithin(t, b, q);
    LineEndWithin(t, q, e);
  }

  /** Replacing a whole line's text by newline-free text leaves a whole line in its place and the rest of the buffer as it was. */
  lemma ReplaceLine(t: string, b: nat, e: nat, m: string)
    requires IsLine(t, b, e)
    requires forall k :: 0 <= k < |m| ==> m[k] != '\n'
    ensures var u := t[..b] + m + t[e..];
      && IsLine(u, b, b + |m|)
      && u[..b] == t[..b] && u[b..b + |m|] == m && u[b + |m|..] == t[e..]
  {
    var u := t[..b] + m + t[e..];
    assert u[..b] == t[..b];
    assert u[b..b + |m|] == m;
    assert u[b + |m|..] == t[e..];
    if b > 0 {
      assert u[b - 1] == t[b - 1];
    }
    if e < |t| {
      assert u[b + |m|] == t[e];
    }
    forall k | b <= k < b + |m|
      ensures u[k] != '\n'
    {
      assert u[k] == m[k - b];
    }
  }

  /** The line after a newline at `p` begins at `p + 1`. */
  lemma LineStartAfterNewline(t: string, p: nat, q: nat)
    requires p < q <= |t| && t[p] == '\n'
    requires forall k :: p < k < q ==> t[k] != '\n'
    ensures LineStart(t, q) == p + 1
  {
    LineBeginUnique(t, q, p + 1);
    LineStartIsLineBegin(t, q);
  }

  /** A newline and `n` spaces spliced in at `e`: the position after them starts its line `n` columns in. */
  lemma LineStartOfNewIndentedLine(t: string, e: nat, n: nat)
    requires e <= |t|
    ensures LineStart(t[..e] + ("\n" + Spaces(n)) + t[e..], e + 1 + n) == e + 1
  {
    var spacing := "\n" + Spaces(n);
    var u := t[..e] + spacing + t[e..];
    assert u[e] == '\n';
    forall k | e < k < e + 1 + n
      ensures u[k] != '\n'
    {
      assert u[k] == spacing[k - e];
    }
    LineStartAfterNewline(u, e, e + 1 + n);
  }

  /** `lineEnd` (vim.ts:473-476): the first newline at or after `pos`, else the buffer length. */
  function LineEnd(t: string, pos: int): (r: nat)
    ensures Min(Max(pos, 0), |t|) <= r <= |t|
    ensures r == |t| || t[r] == '\n'
    ensures forall k :: Max(pos, 0) <= k < r ==> t[k] != '\n'
  {
    var i := IndexOf(t, '\n', pos);
    if i == -1 then |t| else i
  }

  /** `isLineEnd` (docs/index.js:348-351): on a newline or at the very end. */
  predicate IsLineEnd(t: string, pos: int) {
    CharIs(t, pos, '\n') || pos == |t|
  }

  /** `increaseIndent` (vim.ts:478-480). */
  function IncreaseIndent(s: string): (r: string)
    ensures |r| == |s| + TAB_WIDTH
    ensures r[TAB_WIDTH..] == s
    ensures forall k :: 0 <= k < TAB_WIDTH ==> r[k] == ' '
  {
    Spaces(TAB_WIDTH) + s
  }

  /** The loop of `decreaseIndent`: `n` rounds of dropping one leading space if there is one. */
  function DropLeadingSpaces(s: string, n: nat): (r: string)
    ensures r == s[Min(n, CountSpaces(s, 0))..]
    decreases n
  {
    if n == 0 then s
    else if |s| > 0 && s[0] == ' ' then
      CountSpacesTail(s);
      DropLeadingSpaces(s[1..], n - 1)
    else DropLeadingSpaces(s, n - 1)
  }

  lemma CountSpacesTail(s: string)
    requires |s| > 0 && s[0] == ' '
    ensures CountSpaces(s, 0) == 1 + CountSpaces(s[1..], 0)
  {
    CountSpacesShift(s, 1, 0);
  }

  /** Counting spaces in a suffix is counting them further along in the whole string. */
  lemma {:induction false} CountSpacesShift(s: string, d: nat, j: nat)
    requires d <= |s|
    ensures CountSpaces(s[d..], j) == CountSpaces(s, d + j)
    decreases |s| - d - j
  {
    if CharIs(s, d + j, ' ') {
      CountSpacesShift(s, d, j + 1);
    } else {
      assert !CharIs(s[d..], j, ' ');
    }
  }

  /**
    `decreaseIndent` (vim.ts:482-489): removes the leading spaces, at most
    `TAB_WIDTH` of them, and keeps the rest of the string as it was.
   */
  function DecreaseIndent(s: string): (r: string)
    ensures r == s[Min(TAB_WIDTH, CountSpaces(s, 0))..]
  {
    DropLeadingSpaces(s, TAB_WIDTH)
  }

  /** Dedenting undoes an indent: `decreaseIndent(increaseIndent(s)) == s`. */
  lemma DecreaseAfterIncrease(s: string)
    ensures DecreaseIndent(IncreaseIndent(s)) == s
  {
    var t := IncreaseIndent(s);
    assert CountSpaces(t, 0) >= TAB_WIDTH by {
      assert CharIs(t, 0, ' ') && CharIs(t, 1, ' ') && CharIs(t, 2, ' ') && CharIs(t, 3, ' ');
      CountSpacesAtLeast(t, 0, TAB_WIDTH);
    }
  }

  lemma {:induction false} CountSpacesAtLeast(s: string, pos: nat, n: nat)
    requires forall k :: pos <= k < pos + n ==> CharIs(s, k, ' ')
    ensures CountSpaces(s, pos) >= n
    decreases n
  {
    if n > 0 {
      CountSpacesAtLeast(s, pos + 1, n - 1);
    }
  }
}
