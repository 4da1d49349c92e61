/**
  Bracket-pair selection `selectBounds` (vim.ts:639-683): two scans with a
  depth counter, outward from the caret. On success the result is the
  innermost delimiter pair around the caret whose interior is balanced; when
  either side is unmatched the result is the inverted range `[pos, 0]`.
 */
module Brackets {
  import opened JsString
  import opened Wrappers
  import opened Boundaries

  /** Depth contribution of one character: +1 for the opening delimiter, -1 for the closing one. */
  function Weight(c: char, open: char, close: char): int {
    (if c == open then 1 else 0) - (if c == close then 1 else 0)
  }

  /** Nesting depth gained over `t[a..b)`: openers minus closers. */
  function Depth(t: string, open: char, close: char, a: nat, b: nat): int
    requires a <= b <= |t|
    decreases b - a
  {
    if a == b then 0 else Depth(t, open, close, a, b - 1) + Weight(t[b - 1], open, close)
  }

  lemma {:induction false} DepthSplit(t: string, open: char, close: char, a: nat, b: nat, c: nat)
    requires a <= b <= c <= |t|
    ensures Depth(t, open, close, a, c) == Depth(t, open, close, a, b) + Depth(t, open, close, b, c)
    decreases c - b
  {
    if b < c {
      DepthSplit(t, open, close, a, b, c - 1);
    }
  }

  lemma DepthFront(t: string, open: char, close: char, a: nat, b: nat)
    requires a < b <= |t|
    ensures Depth(t, open, close, a, b) == Weight(t[a], open, close) + Depth(t, open, close, a + 1, b)
  {
    DepthSplit(t, open, close, a, a + 1, b);
  }

  /** `t[a..b)` is balanced: no prefix closes more than it opens, and the whole closes all it opens. */
  ghost predicate Balanced(t: string, open: char, close: char, a: nat, b: nat)
    requires a <= b <= |t|
  {
    && Depth(t, open, close, a, b) == 0
    && forall m :: a <= m <= b ==> Depth(t, open, close, a, m) >= 0
  }

  /** `t[l]` opens, `t[r]` closes, the caret lies between them, and the interior is balanced. */
  ghost predicate EnclosingPair(t: string, open: char, close: char, pos: int, l: int, r: int) {
    && 0 <= l <= pos <= r < |t| && l < r
    && t[l] == open && t[r] == close
    && Balanced(t, open, close, l + 1, r)
  }

  /** `charAt(i)`'s effect on the backward scan's counter (vim.ts:655). */
  function BackStep(t: string, open: char, close: char, i: int): int {
    (if CharIs(t, i, open) then -1 else 0) + (if CharIs(t, i, close) then 1 else 0)
  }

  /** `charAt(i)`'s effect on the forward scan's counter (vim.ts:673). */
  function FwdStep(t: string, open: char, close: char, i: int): int {
    (if CharIs(t, i, open) then 1 else 0) + (if CharIs(t, i, close) then -1 else 0)
  }

  /** The backward loop of `selectBounds` (vim.ts:650-661) at index `i` with counter `k`. */
  function ScanBack(t: string, open: char, close: char, i: int, k: int): (r: Option<int>)
    ensures r.Some? ==> 0 <= r.value <= i
    ensures r.Some? && i < |t| ==> r.value < |t|
    decreases i + 1
  {
    if i < 0 then None
    else
      var k' := k + BackStep(t, open, close, i);
      if k' == 0 then Some(i) else ScanBack(t, open, close, i - 1, k')
  }

  /** The forward loop of `selectBounds` (vim.ts:668-679) at index `i` with counter `k`. */
  function ScanFwd(t: string, open: char, close: char, i: int, k: int): (r: Option<int>)
    ensures r.Some? ==> i <= r.value < |t|
    decreases |t| - i
  {
    if i >= |t| then None
    else
      var k' := k + FwdStep(t, open, close, i);
      if k' == 0 then Some(i) else ScanFwd(t, open, close, i + 1, k')
  }

  /** `selectBounds(text, pos, open + close)` (vim.ts:639-683). */
  function SelectBounds(t: string, pos: int, open: char, close: char): (r: Range)
    ensures r == Range(pos, 0) || 0 <= r.start <= pos < r.end <= |t|
  {
    var l := if CharIs(t, pos, open) then Some(pos) else ScanBack(t, open, close, pos - 1, 1);
    var r := if CharIs(t, pos, close) then Some(pos) else ScanFwd(t, open, close, pos + 1, 1);
    if r.None? || l.None? then Range(pos, 0) else Range(l.value, r.value + 1)
  }

  /** The backward scan stops at the first index where the depth back to `p` reaches +1. */
  lemma {:induction false} ScanBackSpec(t: string, open: char, close: char, i: int, p: nat)
    requires open != close
    requires -1 <= i < p <= |t|
    requires forall m :: i < m < p ==> Depth(t, open, close, m, p) <= 0
    ensures var res := ScanBack(t, open, close, i, 1 - Depth(t, open, close, i + 1, p));
      && (res.Some? ==>
            && 0 <= res.value <= i
            && Depth(t, open, close, res.value, p) == 1
            && forall m :: res.value < m < p ==> Depth(t, open, close, m, p) <= 0)
      && (res.None? ==> forall m :: 0 <= m < p ==> Depth(t, open, close, m, p) <= 0)
    decreases i + 1
  {
    if i >= 0 {
      DepthFront(t, open, close, i, p);
      var k' := 1 - Depth(t, open, close, i + 1, p) + BackStep(t, open, close, i);
      assert k' == 1 - Depth(t, open, close, i, p);
      if k' != 0 {
        ScanBackSpec(t, open, close, i - 1, p);
      }
    }
  }

  /** The forward scan stops at the first index where the depth from `s` reaches -1. */
  lemma {:induction false} ScanFwdSpec(t: string, open: char, close: char, i: nat, s: nat)
    requires open != close
    requires s <= i <= |t|
    requires forall m :: s < m <= i ==> Depth(t, open, close, s, m) >= 0
    ensures var res := ScanFwd(t, open, close, i, 1 + Depth(t, open, close, s, i));
      && (res.Some? ==>
            && i <= res.value < |t|
            && Depth(t, open, close, s, res.value + 1) == -1
            && forall m :: s < m <= res.value ==> Depth(t, open, close, s, m) >= 0)
      && (res.None? ==> forall m :: s < m <= |t| ==> Depth(t, open, close, s, m) >= 0)
    decreases |t| - i
  {
    if i < |t| {
      var k' := 1 + Depth(t, open, close, s, i) + FwdStep(t, open, close, i);
      assert k' == 1 + Depth(t, open, close, s, i + 1);
      if k' != 0 {
        ScanFwdSpec(t, open, close, i + 1, s);
      }
    }
  }

  /** The facts about the two scans that the main theorem combines. */
  lemma LeftSide(t: string, open: char, close: char, pos: nat)
    requires open != close && pos <= |t|
    ensures var l := if CharIs(t, pos, open) then Some(pos) else ScanBack(t, open, close, pos - 1, 1);
      && (l.Some? ==>
            && 0 <= l.value <= pos && CharIs(t, l.value, open)
            && (l.value < pos ==> Depth(t, open, close, l.value + 1, pos) == 0)
            && forall m :: l.value < m < pos ==> Depth(t, open, close, m, pos) <= 0)
      && (l.None? ==> !CharIs(t, pos, open) && forall m :: 0 <= m < pos ==> Depth(t, open, close, m, pos) <= 0)
  {
    if !CharIs(t, pos, open) {
      if pos == 0 {
      } else {
        ScanBackSpec(t, open, close, pos - 1, pos);
        var l := ScanBack(t, open, close, pos - 1, 1);
        if l.Some? {
          DepthFront(t, open, close, l.value, pos);
        }
      }
    }
  }

  lemma RightSide(t: string, open: char, close: char, pos: nat, s: nat)
    requires open != close && pos <= |t| && s == pos + 1
    ensures var r := if CharIs(t, pos, close) then Some(pos) else ScanFwd(t, open, close, s, 1);
      && (r.Some? ==>
            && pos <= r.value < |t| && t[r.value] == close
            && (pos < r.value ==> Depth(t, open, close, s, r.value) == 0)
            && forall m :: s <= m <= r.value ==> Depth(t, open, close, s, m) >= 0)
      && (r.None? ==> !CharIs(t, pos, close) && forall m :: s <= m <= |t| ==> Depth(t, open, close, s, m) >= 0)
  {
    if !CharIs(t, pos, close) && pos < |t| {
      ScanFwdSpec(t, open, close, s, s);
      var r := ScanFwd(t, open, close, s, 1);
      if r.Some? {
        DepthSplit(t, open, close, s, r.value, r.value + 1);
      }
    }
  }

  /** A pair around the caret forces the backward depth at its opener to be at least 1. */
  lemma PairLeftDepth(t: string, open: char, close: char, pos: nat, l: nat, r: nat)
    requires open != close && EnclosingPair(t, open, close, pos, l, r) && l < pos
    ensures Depth(t, open, close, l, pos) >= 1
  {
    DepthFront(t, open, close, l, pos);
  }

  /** A pair around the caret forces the forward depth at its closer to be at most -1. */
  lemma PairRightDepth(t: string, open: char, close: char, pos: nat, l: nat, r: nat)
    requires open != close && EnclosingPair(t, open, close, pos, l, r) && pos < r
    ensures Depth(t, open, close, pos + 1, r + 1) <= -1
  {
    DepthSplit(t, open, close, l + 1, pos + 1, r);
    DepthSplit(t, open, close, pos + 1, r, r + 1);
  }

  /**
    `selectBounds` finds the innermost enclosing pair: on success the result
    is `[l, r + 1]` for a pair around `pos` with a balanced interior, inside
    every other such pair; it returns the inverted `[pos, 0]` exactly when no
    pair encloses `pos`.
   */
  lemma SelectBoundsInnermost(t: string, pos: nat, open: char, close: char)
    requires open != close && pos <= |t|
    ensures var r := SelectBounds(t, pos, open, close);
      && (r == Range(pos, 0) <==> forall l, q :: !EnclosingPair(t, open, close, pos, l, q))
      && (r != Range(pos, 0) ==>
            && EnclosingPair(t, open, close, pos, r.start, r.end - 1)
            && forall l, q :: EnclosingPair(t, open, close, pos, l, q) ==> l <= r.start && r.end - 1 <= q)
  {
    LeftSide(t, open, close, pos);
    RightSide(t, open, close, pos, pos + 1);
    var lo := if CharIs(t, pos, open) then Some(pos) else ScanBack(t, open, close, pos - 1, 1);
    var ro := if CharIs(t, pos, close) then Some(pos) else ScanFwd(t, open, close, pos + 1, 1);
    forall l, q | EnclosingPair(t, open, close, pos, l, q)
      ensures lo.Some? && ro.Some? && l <= lo.value && ro.value <= q
    {
      if l < pos {
        PairLeftDepth(t, open, close, pos, l, q);
      }
      if pos < q {
        PairRightDepth(t, open, close, pos, l, q);
      }
    }
    if lo.Some? && ro.Some? {
      var l, q := lo.value, ro.value;
      assert l < q;
      PairFromScans(t, open, close, pos, l, q, l + 1, pos + 1);
      assert EnclosingPair(t, open, close, pos, l, q);
    }
  }

  /** The two scans' stopping points delimit a balanced interior. */
  lemma PairFromScans(t: string, open: char, close: char, pos: nat, l: nat, q: nat, a: nat, s: nat)
    requires open != close && l <= pos <= q < |t| && l < q && a == l + 1 && s == pos + 1
    requires t[l] == open && t[q] == close
    requires l < pos ==> Depth(t, open, close, a, pos) == 0
    requires forall m :: l < m < pos ==> Depth(t, open, close, m, pos) <= 0
    requires pos < q ==> Depth(t, open, close, s, q) == 0
    requires forall m :: s <= m <= q ==> Depth(t, open, close, s, m) >= 0
    requires l < pos && pos < q ==> t[pos] != open && t[pos] != close
    ensures Balanced(t, open, close, a, q)
  {
    if l < pos && pos < q {
      DepthSplit(t, open, close, a, pos, q);
      DepthFront(t, open, close, pos, q);
    }
    forall m | a <= m <= q
      ensures Depth(t, open, close, a, m) >= 0
    {
      if m <= pos {
        DepthSplit(t, open, close, a, m, pos);
      } else {
        DepthSplit(t, open, close, s, s, m);
        if l < pos {
          DepthSplit(t, open, close, a, pos, s);
          DepthSplit(t, open, close, a, s, m);
        }
      }
    }
  }
}
