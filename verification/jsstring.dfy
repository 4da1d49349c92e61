/**
  The JavaScript string primitives the editor relies on, with their exact
  ECMAScript behaviour on out-of-range and negative indices: `charAt`,
  `slice`, `indexOf`, `lastIndexOf`, `repeat`, and the `countSpaces` helper
  (vim.ts:452-463).
 */
module JsString {

  function Max(a: int, b: int): int { if a < b then b else a }
  function Min(a: int, b: int): int { if a < b then a else b }

  /** `s.charAt(i) === [c]`: `charAt` yields "" outside `[0, |s|)`, which equals no character. */
  predicate CharIs(s: string, i: int, c: char) {
    0 <= i < |s| && s[i] == c
  }

  /** The relative-index clamp `slice` applies to each argument: negative counts from the end. */
  function ClampIndex(len: nat, i: int): (r: nat)
    ensures r <= len
    ensures 0 <= i <= len ==> r == i
    ensures i > len ==> r == len
    ensures i < 0 ==> r == Max(len + i, 0)
  {
    if i < 0 then Max(len + i, 0) else Min(i, len)
  }

  /** `s.slice(start, end)`. */
  function Slice(s: string, start: int, end: int): (r: string)
    ensures |r| <= |s|
    ensures 0 <= start <= end <= |s| ==> r == s[start..end]
    ensures 0 <= end <= start ==> r == []
  {
    var from := ClampIndex(|s|, start);
    var to := ClampIndex(|s|, end);
    if from < to then s[from..to] else []
  }

  /** `s.slice(start)`. */
  function SliceFrom(s: string, start: int): (r: string)
    ensures 0 <= start <= |s| ==> r == s[start..]
    ensures start >= |s| ==> r == []
  {
    Slice(s, start, |s|)
  }

  /** `insertAt` (vim.ts:452-454): `data` spliced in at `pos`, clamped like `slice`. */
  function InsertAt(s: string, pos: int, data: string): (r: string)
    ensures var k := ClampIndex(|s|, pos); r == s[..k] + data + s[k..]
    ensures |r| == |s| + |data|
  {
    Slice(s, 0, pos) + data + SliceFrom(s, pos)
  }

  /** `s.indexOf(c, from)`: the first index `>= from` holding `c`, or -1. */
  function IndexOf(s: string, c: char, from: int): (r: int)
    ensures r == -1 || (Max(from, 0) <= r < |s| && s[r] == c)
    ensures forall k :: Max(from, 0) <= k < |s| && (r == -1 || k < r) ==> s[k] != c
    decreases |s| - from
  {
    if from < 0 then IndexOf(s, c, 0)
    else if from >= |s| then -1
    else if s[from] == c then from
    else IndexOf(s, c, from + 1)
  }

  /** The last index `<= k` holding `c`, or -1. */
  function LastIndexAtOrBefore(s: string, c: char, k: int): (r: int)
    requires k < |s|
    ensures r == -1 || (0 <= r <= k && s[r] == c)
    ensures forall j :: 0 <= j <= k && r < j ==> s[j] != c
    decreases k + 1
  {
    if k < 0 then -1
    else if s[k] == c then k
    else LastIndexAtOrBefore(s, c, k - 1)
  }

  /**
    `s.lastIndexOf(c, from)`: the search starts at `min(max(from, 0), |s| - 1)`,
    so a negative `from` still inspects index 0.
   */
  function LastIndexOf(s: string, c: char, from: int): (r: int)
    ensures r == -1 || (0 <= r <= Max(from, 0) && r < |s| && s[r] == c)
    ensures forall j :: 0 <= j <= Max(from, 0) && j < |s| && r < j ==> s[j] != c
  {
    LastIndexAtOrBefore(s, c, Min(Max(from, 0), |s| - 1))
  }

  /** `" ".repeat(n)` for `n >= 0`. */
  function Spaces(n: nat): (r: string)
    ensures |r| == n
    ensures forall k :: 0 <= k < n ==> r[k] == ' '
  {
    seq(n, _ => ' ')
  }

  /**
    `countSpaces(s, pos)` (vim.ts:456-463): the length of the run of `' '`
    starting at `pos`; 0 when `pos` is outside the string.
   */
  function CountSpaces(s: string, pos: int): (n: nat)
    ensures forall k :: pos <= k < pos + n ==> CharIs(s, k, ' ')
    ensures !CharIs(s, pos + n, ' ')
    ensures n > 0 ==> 0 <= pos && pos + n <= |s|
    decreases |s| - pos
  {
    if CharIs(s, pos, ' ') then 1 + CountSpaces(s, pos + 1) else 0
  }

}
