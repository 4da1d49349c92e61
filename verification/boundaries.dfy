/**
  The boundary finder `findRegexBreak` (vim.ts:491-509) and the three
  regular expressions it is used with (vim.ts:539-555). Each global regular
  expression is modelled by a scanner that yields the match indices in the
  order `RegExp.prototype.exec` finds them; `findRegexBreak` turns every
  match index `m` into the boundary `m + 1`.
 */
module Boundaries {
  import opened Wrappers
  import JsString

  /** A `[start, end)` pair as the selectors return it (`TextRange`, vim.ts:32). */
  datatype Range = Range(start: int, end: int)

  /**
    The character class `[\u0000-/:-@[-`{-¿]` of `FIND_WORD`: ASCII controls,
    space and punctuation, and U+007B..U+00BF. Everything else (digits,
    letters, and code points above U+00BF) is a word character.
   */
  predicate IsWordPunct(c: char) {
    c <= '/' || (':' <= c <= '@') || ('[' <= c <= '`') || ('{' <= c <= '\U{BF}')
  }

  /** ECMAScript `\s`: WhiteSpace and LineTerminator code points. */
  predicate IsJsWhitespace(c: char) {
    || c == '\t' || c == '\n' || c == '\U{B}' || c == '\U{C}' || c == '\r' || c == ' '
    || c == '\U{A0}' || c == '\U{1680}' || ('\U{2000}' <= c <= '\U{200A}')
    || c == '\U{2028}' || c == '\U{2029}' || c == '\U{202F}' || c == '\U{205F}'
    || c == '\U{3000}' || c == '\U{FEFF}'
  }

  /** Strictly increasing, as the successive match indices of a global regular expression are. */
  ghost predicate Increasing(ms: seq<int>) {
    forall a, b :: 0 <= a < b < |ms| ==> ms[a] < ms[b]
  }

  /** Every match index lies inside the text, so every boundary lies in `[1, len]`. */
  ghost predicate WithinText(ms: seq<int>, len: nat) {
    forall k :: 0 <= k < |ms| ==> 0 <= ms[k] < len
  }

  /**
    The first and fourth alternatives of `FIND_WORD` as written, `\\s(?=\\S)`
    and `\\S(?=\\s)`: a literal backslash-letter pair followed by the other
    backslash-letter pair. They are tried before the class alternatives and
    consume two characters.
   */
  predicate EscapedPairAt(t: string, i: int) {
    && 0 <= i && i + 3 < |t|
    && t[i] == '\\' && t[i + 2] == '\\'
    && ((t[i + 1] == 's' && t[i + 3] == 'S') || (t[i + 1] == 'S' && t[i + 3] == 's'))
  }

  /** `FIND_WORD.exec` repeated from `lastIndex == i` (vim.ts:539). */
  function WordMatchesFrom(t: string, i: nat): (ms: seq<int>)
    ensures forall k :: 0 <= k < |ms| ==> i <= ms[k] < |t|
    ensures Increasing(ms)
    decreases |t| - i
  {
    if i + 1 >= |t| then []
    else if EscapedPairAt(t, i) then [i] + WordMatchesFrom(t, i + 2)
    else if IsWordPunct(t[i]) != IsWordPunct(t[i + 1]) then [i] + WordMatchesFrom(t, i + 1)
    else WordMatchesFrom(t, i + 1)
  }

  function WordMatches(t: string): (ms: seq<int>)
    ensures Increasing(ms) && WithinText(ms, |t|)
  {
    WordMatchesFrom(t, 0)
  }

  /** `FIND_WORD_PLUS.exec` repeated from `lastIndex == i` (vim.ts:545). */
  function BigWordMatchesFrom(t: string, i: nat): (ms: seq<int>)
    ensures forall k :: 0 <= k < |ms| ==> i <= ms[k] < |t|
    ensures Increasing(ms)
    decreases |t| - i
  {
    if i + 1 >= |t| then []
    else if IsJsWhitespace(t[i]) != IsJsWhitespace(t[i + 1]) then [i] + BigWordMatchesFrom(t, i + 1)
    else BigWordMatchesFrom(t, i + 1)
  }

  function BigWordMatches(t: string): (ms: seq<int>)
    ensures Increasing(ms) && WithinText(ms, |t|)
  {
    BigWordMatchesFrom(t, 0)
  }

  /** Every character of `t[a..b]` is whitespace. */
  predicate AllWhitespace(t: string, a: int, b: int)
    requires 0 <= a <= b <= |t|
  {
    forall k :: a <= k < b ==> IsJsWhitespace(t[k])
  }

  /**
    The greedy `\s*\n` tail of `FIND_PARAGRAPH` tried from `j`: within the
    run of whitespace starting at `j`, the last newline, or `best` if the run
    holds none.
   */
  function LastNewlineInRun(t: string, j: nat, best: int): (e: int)
    requires best < j
    ensures e == best || (j <= e < |t| && t[e] == '\n' && AllWhitespace(t, j, e))
    ensures forall k :: j <= k < |t| && t[k] == '\n' && AllWhitespace(t, j, k) ==> k <= e
    decreases |t| - j
  {
    if j >= |t| || !IsJsWhitespace(t[j]) then best
    else LastNewlineInRun(t, j + 1, if t[j] == '\n' then j else best)
  }

  /**
    A `FIND_PARAGRAPH` match can start at `m`: a newline followed by a run of
    whitespace that holds another newline.
   */
  predicate ParagraphBreakAt(t: string, m: int) {
    && 0 <= m < |t| && t[m] == '\n'
    && exists k :: m < k < |t| && t[k] == '\n' && AllWhitespace(t, m + 1, k)
  }

  /** Where a match starting at `m` ends: the last newline of the whitespace run after `m`. */
  function ParagraphEnd(t: string, m: nat): (e: int)
    ensures m < |t| && t[m] == '\n' ==> (ParagraphBreakAt(t, m) <==> e != -1)
    ensures e == -1 || (m < e < |t| && t[e] == '\n')
  {
    LastNewlineInRun(t, m + 1, -1)
  }

  /**
    `ms` is what `FIND_PARAGRAPH.exec` finds from `lastIndex == i`: each
    match is the first place a paragraph break starts at or after the scan's
    position, and the scan resumes just after the last newline that match
    consumed, finding no break before the next match or after the last one.
   */
  ghost predicate ParagraphScan(t: string, i: nat, ms: seq<int>) {
    ScanHits(t, i, ms) && ScanOpens(t, i, ms) && ScanChained(t, ms) && ScanGaps(t, ms)
  }

  /** Every match is a break at or after `i`. */
  ghost predicate ScanHits(t: string, i: nat, ms: seq<int>) {
    forall k :: 0 <= k < |ms| ==> i <= ms[k] < |t| && ParagraphBreakAt(t, ms[k])
  }

  /** No break lies between `i` and the first match, or after `i` at all when nothing matches. */
  ghost predicate ScanOpens(t: string, i: nat, ms: seq<int>) {
    forall j :: i <= j < |t| && (ms == [] || j < ms[0]) ==> !ParagraphBreakAt(t, j)
  }

  /** Each match starts after the previous one ended. */
  ghost predicate ScanChained(t: string, ms: seq<int>) {
    forall k :: 0 <= k < |ms| - 1 && 0 <= ms[k] ==> ParagraphEnd(t, ms[k]) < ms[k + 1]
  }

  /** No break lies between the end of a match and the next match, or the end of the text. */
  ghost predicate ScanGaps(t: string, ms: seq<int>) {
    forall k, j :: 0 <= k < |ms| && 0 <= ms[k] && ParagraphEnd(t, ms[k]) < j < |t| && (k == |ms| - 1 || j < ms[k + 1]) ==>
      !ParagraphBreakAt(t, j)
  }

  /** A scan that finds no break at `i` is the scan from `i + 1`. */
  lemma ParagraphScanSkip(t: string, i: nat, ms: seq<int>)
    requires i < |t| && !ParagraphBreakAt(t, i)
    requires ParagraphScan(t, i + 1, ms)
    ensures ParagraphScan(t, i, ms)
  {
  }

  /** A break at `i` followed by the scan from just after its last newline. */
  lemma ParagraphScanCons(t: string, i: nat, rest: seq<int>)
    requires ParagraphBreakAt(t, i)
    requires ParagraphScan(t, ParagraphEnd(t, i) + 1, rest)
    ensures ParagraphScan(t, i, [i] + rest)
  {
    var e := ParagraphEnd(t, i);
    ConsHits(t, i, e, rest);
    assert rest == [] || e < rest[0];
    ConsChained(t, i, e, rest);
    ConsGaps(t, i, e, rest);
  }

  /** Clause by clause, `ParagraphScanCons`: the matches stay breaks. */
  lemma ConsHits(t: string, i: nat, e: nat, rest: seq<int>)
    requires ParagraphBreakAt(t, i) && i < e
    requires ScanHits(t, e + 1, rest)
    ensures ScanHits(t, i, [i] + rest)
  {
    var ms := [i] + rest;
    forall k | 0 < k < |ms|
      ensures i <= ms[k] < |t| && ParagraphBreakAt(t, ms[k])
    {
      assert ms[k] == rest[k - 1];
    }
  }

  /** The new first match ends before the old first match starts. */
  lemma ConsChained(t: string, i: nat, e: int, rest: seq<int>)
    requires e == ParagraphEnd(t, i)
    requires (rest == [] || e < rest[0]) && ScanChained(t, rest)
    ensures ScanChained(t, [i] + rest)
  {
    var ms := [i] + rest;
    forall k | 0 <= k < |ms| - 1 && 0 <= ms[k]
      ensures ParagraphEnd(t, ms[k]) < ms[k + 1]
    {
      assert ms[k + 1] == rest[k];
      if k > 0 {
        assert ms[k] == rest[k - 1];
      }
    }
  }

  /** The gap after the new first match is the old scan's opening gap. */
  lemma ConsGaps(t: string, i: nat, e: int, rest: seq<int>)
    requires e == ParagraphEnd(t, i)
    requires ScanOpens(t, e + 1, rest) && ScanGaps(t, rest)
    ensures ScanGaps(t, [i] + rest)
  {
    var ms := [i] + rest;
    forall k, j | 0 <= k < |ms| && 0 <= ms[k] && ParagraphEnd(t, ms[k]) < j < |t| && (k == |ms| - 1 || j < ms[k + 1])
      ensures !ParagraphBreakAt(t, j)
    {
      if k > 0 {
        assert ms[k] == rest[k - 1];
        if k < |ms| - 1 {
          assert ms[k + 1] == rest[k];
        }
      }
    }
  }

  /** `FIND_PARAGRAPH.exec` (`/\n\s*\n/g`) repeated from `lastIndex == i` (vim.ts:551). */
  function ParagraphMatchesFrom(t: string, i: nat): (ms: seq<int>)
    ensures ParagraphScan(t, i, ms)
    ensures Increasing(ms)
    decreases |t| - i
  {
    if i >= |t| then []
    else if ParagraphBreakAt(t, i) then
      var rest := ParagraphMatchesFrom(t, ParagraphEnd(t, i) + 1);
      ParagraphScanCons(t, i, rest);
      [i] + rest
    else
      ParagraphScanSkip(t, i, ParagraphMatchesFrom(t, i + 1));
      ParagraphMatchesFrom(t, i + 1)
  }

  function ParagraphMatches(t: string): (ms: seq<int>)
    ensures Increasing(ms) && WithinText(ms, |t|)
  {
    ParagraphMatchesFrom(t, 0)
  }

  /** The loop of `findRegexBreak`: `l` takes every boundary `<= pos`, `r` the first one beyond it. */
  function BreakScan(pos: int, ms: seq<int>, l: int, r: Option<int>): (int, Option<int>)
    decreases |ms|
  {
    if ms == [] then (l, r)
    else if ms[0] + 1 <= pos then BreakScan(pos, ms[1..], ms[0] + 1, r)
    else if r.None? then BreakScan(pos, ms[1..], l, Some(ms[0] + 1))
    else BreakScan(pos, ms[1..], l, r)
  }

  /** `findRegexBreak(text, pos, regex)` given the match indices `ms` of `regex` on `text`. */
  function FindRegexBreak(t: string, pos: int, ms: seq<int>): Range
  {
    var (l, r) := BreakScan(pos, ms, 0, None);
    Range(l, r.GetOr(|t|))
  }

  /** The left end of the scan from an arbitrary starting state: the last boundary `<= pos`, or `l`. */
  lemma {:induction false} BreakScanLeft(pos: int, ms: seq<int>, l: int, r: Option<int>)
    requires Increasing(ms)
    ensures var res := BreakScan(pos, ms, l, r);
      && (res.0 == l || exists k :: 0 <= k < |ms| && ms[k] + 1 == res.0 && res.0 <= pos)
      && (forall k :: 0 <= k < |ms| && ms[k] + 1 <= pos ==> ms[k] + 1 <= res.0)
      && ((forall k :: 0 <= k < |ms| ==> ms[k] + 1 > pos) ==> res.0 == l)
    decreases |ms|
  {
    if ms != [] {
      var tl := ms[1..];
      assert Increasing(tl);
      var h := ms[0] + 1;
      if h <= pos {
        BreakScanLeft(pos, tl, h, r);
        var res := BreakScan(pos, tl, h, r);
        assert forall k :: 0 < k < |ms| ==> ms[k] == tl[k - 1];
        if res.0 != h {
          var k :| 0 <= k < |tl| && tl[k] + 1 == res.0 && res.0 <= pos;
          assert ms[k + 1] + 1 == res.0;
        }
      } else {
        assert forall k :: 0 <= k < |ms| ==> ms[k] + 1 > pos;
        var r' := if r.None? then Some(h) else r;
        BreakScanLeft(pos, tl, l, r');
      }
    }
  }

  /** The right end of the scan from an arbitrary starting state: `r` if set, else the first boundary `> pos`. */
  lemma {:induction false} BreakScanRight(pos: int, ms: seq<int>, l: int, r: Option<int>)
    requires Increasing(ms)
    ensures var res := BreakScan(pos, ms, l, r);
      && (r.Some? ==> res.1 == r)
      && (r.None? ==> (res.1.None? <==> forall k :: 0 <= k < |ms| ==> ms[k] + 1 <= pos))
      && (r.None? && res.1.Some? ==>
            && res.1.value > pos
            && (exists k :: 0 <= k < |ms| && ms[k] + 1 == res.1.value)
            && forall k :: 0 <= k < |ms| && ms[k] + 1 > pos ==> res.1.value <= ms[k] + 1)
    decreases |ms|
  {
    if ms != [] {
      var tl := ms[1..];
      assert Increasing(tl);
      var h := ms[0] + 1;
      if h <= pos {
        BreakScanRight(pos, tl, h, r);
        var res := BreakScan(pos, tl, h, r);
        assert forall k :: 0 < k < |ms| ==> ms[k] == tl[k - 1];
        if r.None? && res.1.Some? {
          var k :| 0 <= k < |tl| && tl[k] + 1 == res.1.value;
          assert ms[k + 1] + 1 == res.1.value;
        }
      } else {
        assert forall k :: 0 <= k < |ms| ==> ms[k] + 1 > pos;
        var r' := if r.None? then Some(h) else r;
        BreakScanRight(pos, tl, l, r');
        assert forall k :: 0 <= k < |tl| ==> tl[k] == ms[k + 1];
      }
    }
  }

  /**
    `findRegexBreak` returns `[l, r]` where `l` is the last boundary at or
    before `pos` (0 if none) and `r` the first boundary after `pos` (the text
    length if none); so no boundary lies strictly between `pos` and `r`, nor
    between `l` and `pos`.
   */
  lemma FindRegexBreakSpec(t: string, pos: int, ms: seq<int>)
    requires Increasing(ms) && WithinText(ms, |t|)
    ensures var r := FindRegexBreak(t, pos, ms);
      && 0 <= r.start <= r.end <= |t|
      && (r.start == 0 || (r.start <= pos && exists k :: 0 <= k < |ms| && ms[k] + 1 == r.start))
      && (forall k :: 0 <= k < |ms| && ms[k] + 1 <= pos ==> ms[k] + 1 <= r.start)
      && (r.end == |t| || (r.end > pos && exists k :: 0 <= k < |ms| && ms[k] + 1 == r.end))
      && (forall k :: 0 <= k < |ms| && ms[k] + 1 > pos ==> r.end <= ms[k] + 1)
      && ((exists k :: 0 <= k < |ms| && ms[k] + 1 > pos) ==> r.end > pos)
  {
    BreakScanLeft(pos, ms, 0, None);
    BreakScanRight(pos, ms, 0, None);
  }

  /** `selectWord` (vim.ts:541-543): the word around `pos` by `FIND_WORD` boundaries. */
  function SelectWord(t: string, pos: int): (r: Range)
    ensures 0 <= r.start <= r.end <= |t|
    ensures r.start <= JsString.Max(pos, 0)
    ensures pos <= |t| ==> pos < r.end || r.end == |t|
  {
    FindRegexBreakSpec(t, pos, WordMatches(t));
    FindRegexBreak(t, pos, WordMatches(t))
  }

  /** `selectWordPlus` (vim.ts:547-549): the WORD around `pos` by `FIND_WORD_PLUS` boundaries. */
  function SelectWordPlus(t: string, pos: int): (r: Range)
    ensures 0 <= r.start <= r.end <= |t|
    ensures r.start <= JsString.Max(pos, 0)
    ensures pos <= |t| ==> pos < r.end || r.end == |t|
  {
    FindRegexBreakSpec(t, pos, BigWordMatches(t));
    FindRegexBreak(t, pos, BigWordMatches(t))
  }

  /**
    `selectParagraph` (vim.ts:553-555): from just after the newline a
    paragraph break starts with (or 0) to just after the next one (or the
    end), with no break boundary inside.
   */
  function SelectParagraph(t: string, pos: int): (r: Range)
    ensures 0 <= r.start <= r.end <= |t|
    ensures r.start <= JsString.Max(pos, 0)
    ensures pos <= |t| ==> pos < r.end || r.end == |t|
    ensures r.start == 0 || (r.start - 1 in ParagraphMatches(t) && ParagraphBreakAt(t, r.start - 1))
    ensures r.end == |t| || (r.end - 1 in ParagraphMatches(t) && ParagraphBreakAt(t, r.end - 1))
    ensures forall m :: m in ParagraphMatches(t) ==> m + 1 <= r.start || r.end <= m + 1
  {
    FindRegexBreakSpec(t, pos, ParagraphMatches(t));
    FindRegexBreak(t, pos, ParagraphMatches(t))
  }

  /**
    The character class a boundary expression separates: `\s` for
    `FIND_WORD_PLUS` (`space`), the punctuation class for `FIND_WORD`.
   */
  predicate InClass(c: char, space: bool) {
    if space then IsJsWhitespace(c) else IsWordPunct(c)
  }

  /** Two neighbouring characters on different sides of the class. */
  predicate Transition(t: string, k: int, space: bool) {
    0 <= k && k + 1 < |t| && InClass(t[k], space) != InClass(t[k + 1], space)
  }

  /** `t` holds no backslash, so the escaped alternatives of `FIND_WORD` never match. */
  predicate NoBackslash(t: string) {
    forall k :: 0 <= k < |t| ==> t[k] != '\\'
  }

  /** `[q, e)` runs from `q` to the end of the maximal run of `t[q]`'s class. */
  predicate RunEndsAt(t: string, q: int, e: int, space: bool) {
    && 0 <= q < e <= |t|
    && (forall k :: q <= k < e ==> InClass(t[k], space) == InClass(t[q], space))
    && (e < |t| ==> InClass(t[e], space) != InClass(t[q], space))
  }

  /** `[s, q]` runs from the start of the maximal run of `t[q]`'s class to `q`. */
  predicate RunStartsAt(t: string, s: int, q: int, space: bool) {
    && 0 <= s <= q < |t|
    && (forall k :: s <= k <= q ==> InClass(t[k], space) == InClass(t[q], space))
    && (s > 0 ==> InClass(t[s - 1], space) != InClass(t[q], space))
  }

  /** On a text without a backslash, `FIND_WORD` matches exactly at the class transitions. */
  lemma {:induction false} WordMatchesFromExact(t: string, i: nat)
    requires NoBackslash(t)
    ensures forall k :: k in WordMatchesFrom(t, i) <==> i <= k && Transition(t, k, false)
    decreases |t| - i
  {
    if i + 1 < |t| {
      WordMatchesFromExact(t, i + 1);
    }
  }

  /** `FIND_WORD_PLUS` matches exactly at the whitespace transitions. */
  lemma {:induction false} BigWordMatchesFromExact(t: string, i: nat)
    ensures forall k :: k in BigWordMatchesFrom(t, i) <==> i <= k && Transition(t, k, true)
    decreases |t| - i
  {
    if i + 1 < |t| {
      BigWordMatchesFromExact(t, i + 1);
    }
  }

  /**
    The escaped alternatives of `FIND_WORD` swallow a transition: on the
    four characters `\s\S` the class transitions are at 0, 1 and 2, but the
    expression reports matches only at 0 and 2.
   */
  lemma WordMatchesBackslashQuirk()
    ensures forall k :: 0 <= k < 3 ==> Transition("\\s\\S", k, false)
    ensures WordMatches("\\s\\S") == [0, 2]
  {
    var t := "\\s\\S";
    assert EscapedPairAt(t, 0);
    assert WordMatchesFrom(t, 3) == [];
    assert WordMatchesFrom(t, 2) == [2];
  }

  /**
    A boundary selection around `pos` when the boundaries are exactly the
    class transitions: the maximal run of one class containing `pos`.
   */
  lemma RunBetweenBreaks(t: string, pos: int, ms: seq<int>, space: bool)
    requires Increasing(ms) && WithinText(ms, |t|) && 0 <= pos < |t|
    requires forall k :: k in ms <==> Transition(t, k, space)
    ensures var r := FindRegexBreak(t, pos, ms);
      && 0 <= r.start <= pos < r.end <= |t|
      && (forall k :: r.start <= k < r.end ==> InClass(t[k], space) == InClass(t[pos], space))
      && (r.start > 0 ==> InClass(t[r.start - 1], space) != InClass(t[r.start], space))
      && (r.end < |t| ==> InClass(t[r.end - 1], space) != InClass(t[r.end], space))
  {
    FindRegexBreakSpec(t, pos, ms);
    var r := FindRegexBreak(t, pos, ms);
    assert forall k :: r.start <= k && k + 1 < r.end ==> !Transition(t, k, space);
    if r.start > 0 {
      assert r.start - 1 in ms;
    }
    if r.end < |t| {
      assert r.end - 1 in ms;
    }
    SameClassRun(t, r.start, r.end, pos, space);
  }

  /**
    On a text without a backslash `selectWord` returns the maximal run of
    characters of one `FIND_WORD` class around the caret.
   */
  lemma SelectWordIsClassRun(t: string, pos: int)
    requires NoBackslash(t)
    requires 0 <= pos < |t|
    ensures var r := SelectWord(t, pos);
      && 0 <= r.start <= pos < r.end <= |t|
      && (forall k :: r.start <= k < r.end ==> IsWordPunct(t[k]) == IsWordPunct(t[pos]))
      && (r.start > 0 ==> IsWordPunct(t[r.start - 1]) != IsWordPunct(t[r.start]))
      && (r.end < |t| ==> IsWordPunct(t[r.end - 1]) != IsWordPunct(t[r.end]))
  {
    WordMatchesFromExact(t, 0);
    RunBetweenBreaks(t, pos, WordMatches(t), false);
  }

  /** `selectWordPlus` returns the maximal run of whitespace or of non-whitespace around the caret. */
  lemma SelectWordPlusIsSpaceRun(t: string, pos: int)
    requires 0 <= pos < |t|
    ensures var r := SelectWordPlus(t, pos);
      && 0 <= r.start <= pos < r.end <= |t|
      && (forall k :: r.start <= k < r.end ==> IsJsWhitespace(t[k]) == IsJsWhitespace(t[pos]))
      && (r.start > 0 ==> IsJsWhitespace(t[r.start - 1]) != IsJsWhitespace(t[r.start]))
      && (r.end < |t| ==> IsJsWhitespace(t[r.end - 1]) != IsJsWhitespace(t[r.end]))
  {
    BigWordMatchesFromExact(t, 0);
    RunBetweenBreaks(t, pos, BigWordMatches(t), true);
  }

  /** No class change between neighbours in `[a, b)` puts every character there in `t[p]`'s class. */
  lemma {:induction false} SameClassRun(t: string, a: int, b: int, p: int, space: bool)
    requires 0 <= a <= p < b <= |t|
    requires forall k :: a <= k && k + 1 < b ==> !Transition(t, k, space)
    ensures forall k :: a <= k < b ==> InClass(t[k], space) == InClass(t[p], space)
    decreases b - a
  {
    if a < p {
      SameClassRun(t, a + 1, b, p, space);
      assert !Transition(t, a, space);
    } else if p + 1 < b {
      SameClassRun(t, a, b - 1, p, space);
      assert !Transition(t, b - 2, space);
    }
  }
}
