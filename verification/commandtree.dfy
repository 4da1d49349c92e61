/**
  The command tree (vim.ts:40-212, docs/index.js:6-160): an immutable trie
  keyed by key names whose nodes carry partial data records. Walking a key
  sequence merges the records root to leaf, later fields winning, and a leaf
  fires the merged record's action.
 */
module CommandTree {
  import opened Wrappers
  import opened Motion
  import opened Selection

  /** The two revisions of the interpreter: `vim.ts` and the later bundle `docs/index.js`. */
  datatype Version = Legacy | Current

  /** `Mode` (vim.ts:15-19). */
  datatype Mode = Command | Insert | Visual

  /** The `action*` functions a node can carry (vim.ts:816-994, docs/index.js:575-728). */
  datatype Action =
    | Move | Digit | Append | AppendToEnd | StartInsert | VisualMode
    | Undo | Redo
    | DeleteRange | DeleteChar | DeleteCurrentSelection | YankRange | ReplaceChar
    | PasteAfter | PasteBefore | MergeLines | InsertLineAfter | InsertLineBefore
    | IncreaseIndent | DecreaseIndent

  /**
    `VimNodeData` (vim.ts:40-47): every field optional. `readNextChar` and
    `nextChar` exist only in the later revision; `nextChar` holds a whole key
    name, as the key handler stores it.
   */
  datatype NodeData = NodeData(
    mode: Option<Mode>,
    select: Option<Selector>,
    move: Option<Motion>,
    action: Option<Action>,
    digit: Option<DigitChar>,
    dontSaveUndoState: Option<bool>,
    readNextChar: Option<bool>,
    nextChar: Option<string>)

  /** A decimal digit key, the only values the `digit` field takes (vim.ts:22). */
  type DigitChar = c: char | '0' <= c <= '9' witness '0'

  const Empty := NodeData(None, None, None, None, None, None, None, None)

  /** `{ ...a, ...b }`: every field `b` defines overrides `a`'s. */
  function Overlay(a: NodeData, b: NodeData): NodeData {
    NodeData(
      if b.mode.Some? then b.mode else a.mode,
      if b.select.Some? then b.select else a.select,
      if b.move.Some? then b.move else a.move,
      if b.action.Some? then b.action else a.action,
      if b.digit.Some? then b.digit else a.digit,
      if b.dontSaveUndoState.Some? then b.dontSaveUndoState else a.dontSaveUndoState,
      if b.readNextChar.Some? then b.readNextChar else a.readNextChar,
      if b.nextChar.Some? then b.nextChar else a.nextChar)
  }

  /** Merging is associative and the empty record is neutral on both sides. */
  lemma OverlayMonoid(a: NodeData, b: NodeData, c: NodeData)
    ensures Overlay(Overlay(a, b), c) == Overlay(a, Overlay(b, c))
    ensures Overlay(Empty, a) == a && Overlay(a, Empty) == a
  {
  }

  /** `VimNode` (vim.ts:53-58). */
  datatype Node = Node(data: NodeData, children: map<string, Node>)

  /** `isLeaf` (vim.ts:60-65): a node without children. */
  predicate IsLeaf(n: Node) {
    |n.children| == 0
  }

  function Leaf(d: NodeData): Node {
    Node(d, map[])
  }

  function Act(a: Action): NodeData {
    Empty.(action := Some(a))
  }

  function Sel(s: Selector): Node {
    Leaf(Empty.(select := Some(s)))
  }

  function Go(base: NodeData, m: Motion): Node {
    Leaf(base.(move := Some(m)))
  }

  /** The single-key motions of `navigation` (vim.ts:80-106) and the motion each selects. */
  function MotionKeys(): map<string, Motion> {
    map[
      "0" := ToLineStart,
      "_" := FirstWordStart,
      "$" := ToLineEnd,
      "ArrowLeft" := Left,
      "ArrowDown" := Down,
      "ArrowUp" := Up,
      "ArrowRight" := Right,
      "h" := Left,
      "j" := Down,
      "k" := Up,
      "l" := Right,
      "Enter" := WordNextLine,
      "Backspace" := Left,
      "w" := NextWord,
      "W" := NextWordPlus,
      "e" := EndWord,
      "E" := EndWordPlus,
      "b" := PreviousWord,
      "B" := PreviousWordPlus,
      "G" := VeryEnd,
      "C-b" := PageUp,
      "C-f" := PageDown,
      "C-u" := HalfPageUp,
      "C-d" := HalfPageDown
    ]
  }

  /** `navigation(data)` (vim.ts:80-106): the motion keys, each leaf carrying `data` and its motion; `gg` goes to the very beginning. */
  function Navigation(base: NodeData): map<string, Node> {
    var keys := MotionKeys();
    (map k | k in keys :: Go(base, keys[k]))["g" := Node(Empty, map["g" := Go(base, VeryBeginning)])]
  }

  function DigitLeaf(c: DigitChar): Node {
    Leaf(Act(Digit).(digit := Some(c)))
  }

  /** `digits` (vim.ts:67-78). */
  function Digits(): map<string, Node> {
    map[
      "0" := DigitLeaf('0'), "1" := DigitLeaf('1'), "2" := DigitLeaf('2'), "3" := DigitLeaf('3'),
      "4" := DigitLeaf('4'), "5" := DigitLeaf('5'), "6" := DigitLeaf('6'), "7" := DigitLeaf('7'),
      "8" := DigitLeaf('8'), "9" := DigitLeaf('9')
    ]
  }

  /** The `a` text objects (vim.ts:108-123): the selection with its surrounding. */
  function AroundObjects(): Node {
    Node(Empty, map[
      "p" := Sel(ParagraphWithSpaces),
      "w" := Sel(WordWithSpaces),
      "W" := Sel(WordPlusWithSpaces),
      "'" := Sel(Quotes('\'')),
      "\"" := Sel(Quotes('"')),
      "`" := Sel(Quotes('`')),
      "(" := Sel(Bounds('(', ')')),
      ")" := Sel(Bounds('(', ')')),
      "[" := Sel(Bounds('[', ']')),
      "]" := Sel(Bounds('[', ']')),
      "{" := Sel(Bounds('{', '}')),
      "}" := Sel(Bounds('{', '}')),
      "<" := Sel(Bounds('<', '>')),
      ">" := Sel(Bounds('<', '>'))
    ])
  }

  /** The `i` text objects (vim.ts:125-140): the selection without its delimiters. */
  function InsideObjects(): Node {
    Node(Empty, map[
      "p" := Sel(Paragraph),
      "w" := Sel(Word),
      "W" := Sel(WordPlus),
      "'" := Sel(InsideQuotes('\'')),
      "\"" := Sel(InsideQuotes('"')),
      "`" := Sel(InsideQuotes('`')),
      "(" := Sel(InsideBounds('(', ')')),
      ")" := Sel(InsideBounds('(', ')')),
      "[" := Sel(InsideBounds('[', ']')),
      "]" := Sel(InsideBounds('[', ']')),
      "{" := Sel(InsideBounds('{', '}')),
      "}" := Sel(InsideBounds('{', '}')),
      "<" := Sel(InsideBounds('<', '>')),
      ">" := Sel(InsideBounds('<', '>'))
    ])
  }

  /**
    An operator node (`c`, `d`, `y`, `>`, `<`): the operator's data over the
    bare motions, both text-object prefixes and the operator's own doubled keys.
   */
  function Operator(d: NodeData, own: map<string, Node>): Node {
    Node(d, Navigation(Empty) + map["a" := AroundObjects(), "i" := InsideObjects()] + own)
  }

  /** The single-key commands of `commandTree` (vim.ts:146-188). */
  function SimpleCommands(): map<string, Node> {
    map[
      "a" := Leaf(Act(Append)),
      "A" := Leaf(Act(AppendToEnd)),
      "C" := Leaf(Act(DeleteRange).(move := Some(ToLineEnd), mode := Some(Insert))),
      "D" := Leaf(Act(DeleteRange).(move := Some(ToLineEnd), mode := Some(Command))),
      "i" := Leaf(Act(StartInsert)),
      "J" := Leaf(Act(MergeLines)),
      "o" := Leaf(Act(InsertLineAfter)),
      "O" := Leaf(Act(InsertLineBefore)),
      "p" := Leaf(Act(PasteAfter)),
      "P" := Leaf(Act(PasteBefore)),
      "s" := Leaf(Act(DeleteChar).(mode := Some(Insert))),
      "u" := Leaf(Act(Undo).(dontSaveUndoState := Some(true))),
      "v" := Leaf(Act(VisualMode)),
      "x" := Leaf(Act(DeleteChar))
    ]
  }

  /** `c` (vim.ts:150-157): delete the range and enter INSERT; `cc` is the line, `cw` stops at the word's end. */
  function ChangeOperator(): Node {
    Operator(Act(DeleteRange).(mode := Some(Insert)),
      map["c" := Sel(Line), "w" := Sel(ToWordBound), "W" := Sel(ToWordBoundPlus)])
  }

  /** `d` (vim.ts:159-166): delete the range; `dd` takes the line with its newline. */
  function DeleteOperator(): Node {
    Operator(Act(DeleteRange).(mode := Some(Command)),
      map["d" := Sel(LineNL), "w" := Sel(ToNextWord), "W" := Sel(ToNextWordPlus)])
  }

  /** `y` (vim.ts:178-185): copy the range. */
  function YankOperator(): Node {
    Operator(Act(YankRange),
      map["y" := Sel(LineNL), "w" := Sel(ToNextWord), "W" := Sel(ToNextWordPlus)])
  }

  /** `>` and `<` (vim.ts:186-197): re-indent the lines of the range. */
  function IndentOperator(increase: bool): Node {
    if increase then Operator(Act(IncreaseIndent), map[">" := Sel(Line)])
    else Operator(Act(DecreaseIndent), map["<" := Sel(Line)])
  }

  /** The operators of `commandTree`, which wait for a motion or text object. */
  function Operators(): map<string, Node> {
    map[
      "c" := ChangeOperator(),
      "d" := DeleteOperator(),
      "y" := YankOperator(),
      ">" := IndentOperator(true),
      "<" := IndentOperator(false)
    ]
  }

  /** The keys only the later revision binds: redo and replace-character (docs/index.js:123-126). */
  function LaterKeys(v: Version): map<string, Node> {
    if v == Current then map[
      "C-r" := Leaf(Act(Redo).(dontSaveUndoState := Some(true))),
      "r" := Leaf(Act(ReplaceChar).(readNextChar := Some(true)))
    ] else map[]
  }

  /** `commandTree` (vim.ts:143-199; docs/index.js:90-143). */
  function CommandRoot(v: Version): Node {
    Node(Empty, Navigation(Act(Move)) + Digits() + SimpleCommands() + Operators() + LaterKeys(v))
  }

  /** The two commands of `visualTree` beside the motions and digits (vim.ts:204-205). */
  function VisualKeys(): map<string, Node> {
    map[
      "d" := Leaf(Act(DeleteCurrentSelection).(mode := Some(Command))),
      "c" := Leaf(Act(DeleteCurrentSelection).(mode := Some(Insert)))
    ]
  }

  /** `visualTree` (vim.ts:201-210). */
  function VisualRoot(): Node {
    Node(Empty, Navigation(Act(Move)) + Digits() + VisualKeys())
  }

  /** The two trees a walk starts from: `commandTree` and `visualTree`. */
  datatype Roots = Roots(command: Node, visual: Node)

  /** The trees of a revision (vim.ts:143-210, docs/index.js:90-156). */
  function StandardRoots(v: Version): Roots {
    Roots(CommandRoot(v), VisualRoot())
  }

  /** The tree the walk restarts from in a mode (`resetCommand`, vim.ts:326-332). */
  function RootFor(roots: Roots, m: Mode): Node {
    if m == Visual then roots.visual else roots.command
  }

  /**
    What the key handler relies on of every node below a prefix whose merged
    record already has an action (`acted`): every leaf's merged record has an
    action, a `readNextChar` node is a leaf with an action of its own, and a
    node that sets the digit action also sets the digit.
   */
  ghost predicate Sound(n: Node, acted: bool)
    decreases n
  {
    var a := acted || n.data.action.Some?;
    && (IsLeaf(n) ==> a)
    && (n.data.readNextChar == Some(true) ==> IsLeaf(n) && n.data.action.Some?)
    && (n.data.action == Some(Digit) ==> n.data.digit.Some?)
    && forall k :: k in n.children ==> Sound(n.children[k], a)
  }

  /** Every child of a map is sound. */
  ghost predicate SoundMap(m: map<string, Node>, acted: bool) {
    forall k :: k in m ==> Sound(m[k], acted)
  }

  lemma SoundMapUnion(m1: map<string, Node>, m2: map<string, Node>, acted: bool)
    requires SoundMap(m1, acted) && SoundMap(m2, acted)
    ensures SoundMap(m1 + m2, acted)
  {
  }

  lemma NavigationSound(base: NodeData, acted: bool)
    requires base.readNextChar.None? && base.action != Some(Digit)
    requires acted || base.action.Some?
    ensures SoundMap(Navigation(base), acted)
  {
    var keys := MotionKeys();
    var m := Navigation(base);
    forall k | k in m
      ensures Sound(m[k], acted)
    {
      if k != "g" {
        assert m[k] == Go(base, keys[k]);
      }
    }
  }

  lemma DigitsSound(acted: bool)
    ensures SoundMap(Digits(), acted)
  {
  }

  lemma ObjectsSound()
    ensures Sound(AroundObjects(), true) && Sound(InsideObjects(), true)
  {
    var a, i := AroundObjects(), InsideObjects();
    forall k | k in a.children
      ensures Sound(a.children[k], true)
    {
    }
    forall k | k in i.children
      ensures Sound(i.children[k], true)
    {
    }
  }

  lemma OperatorSound(d: NodeData, own: map<string, Node>, acted: bool)
    requires d.action.Some? && d.action != Some(Digit) && d.readNextChar.None?
    requires SoundMap(own, true)
    ensures Sound(Operator(d, own), acted)
  {
    NavigationSound(Empty, true);
    ObjectsSound();
    var objects := map["a" := AroundObjects(), "i" := InsideObjects()];
    assert SoundMap(objects, true);
    SoundMapUnion(Navigation(Empty), objects, true);
    SoundMapUnion(Navigation(Empty) + objects, own, true);
  }

  lemma OperatorsSound(acted: bool)
    ensures SoundMap(Operators(), acted)
  {
    ChangeOperatorSound(acted);
    DeleteOperatorSound(acted);
    YankOperatorSound(acted);
    IndentOperatorSound(true, acted);
    IndentOperatorSound(false, acted);
    SoundMapOfFive(ChangeOperator(), DeleteOperator(), YankOperator(), IndentOperator(true), IndentOperator(false), acted);
  }

  lemma SoundMapOfFive(c: Node, d: Node, y: Node, inc: Node, dec: Node, acted: bool)
    requires Sound(c, acted) && Sound(d, acted) && Sound(y, acted) && Sound(inc, acted) && Sound(dec, acted)
    ensures SoundMap(map["c" := c, "d" := d, "y" := y, ">" := inc, "<" := dec], acted)
  {
  }

  /** A three-key map of sound nodes is sound. */
  lemma SoundMapOfThree(k1: string, k2: string, k3: string, n1: Node, n2: Node, n3: Node, acted: bool)
    requires Sound(n1, acted) && Sound(n2, acted) && Sound(n3, acted)
    ensures SoundMap(map[k1 := n1, k2 := n2, k3 := n3], acted)
  {
  }

  lemma ChangeOperatorSound(acted: bool)
    ensures Sound(ChangeOperator(), acted)
  {
    SoundMapOfThree("c", "w", "W", Sel(Line), Sel(ToWordBound), Sel(ToWordBoundPlus), true);
    OperatorSound(Act(DeleteRange).(mode := Some(Insert)),
      map["c" := Sel(Line), "w" := Sel(ToWordBound), "W" := Sel(ToWordBoundPlus)], acted);
  }

  lemma DeleteOperatorSound(acted: bool)
    ensures Sound(DeleteOperator(), acted)
  {
    SoundMapOfThree("d", "w", "W", Sel(LineNL), Sel(ToNextWord), Sel(ToNextWordPlus), true);
    OperatorSound(Act(DeleteRange).(mode := Some(Command)),
      map["d" := Sel(LineNL), "w" := Sel(ToNextWord), "W" := Sel(ToNextWordPlus)], acted);
  }

  lemma YankOperatorSound(acted: bool)
    ensures Sound(YankOperator(), acted)
  {
    SoundMapOfThree("y", "w", "W", Sel(LineNL), Sel(ToNextWord), Sel(ToNextWordPlus), true);
    OperatorSound(Act(YankRange), map["y" := Sel(LineNL), "w" := Sel(ToNextWord), "W" := Sel(ToNextWordPlus)], acted);
  }

  lemma IndentOperatorSound(increase: bool, acted: bool)
    ensures Sound(IndentOperator(increase), acted)
  {
    if increase {
      OperatorSound(Act(IncreaseIndent), map[">" := Sel(Line)], acted);
    } else {
      OperatorSound(Act(DecreaseIndent), map["<" := Sel(Line)], acted);
    }
  }

  lemma SimpleCommandsSound(acted: bool)
    ensures SoundMap(SimpleCommands(), acted)
  {
    var m := SimpleCommands();
    forall k | k in m
      ensures Sound(m[k], acted)
    {
    }
  }

  /** A node whose children are all sound below it is sound. */
  lemma SoundNode(d: NodeData, m: map<string, Node>, key: string, acted: bool)
    requires d.readNextChar.None? && d.action != Some(Digit) && key in m
    requires SoundMap(m, acted || d.action.Some?)
    ensures Sound(Node(d, m), acted)
  {
  }

  /** The motions and digits both roots start with. */
  lemma SharedKeysSound(acted: bool)
    ensures SoundMap(Navigation(Act(Move)) + Digits(), acted)
  {
    NavigationSound(Act(Move), acted);
    DigitsSound(acted);
    SoundMapUnion(Navigation(Act(Move)), Digits(), acted);
  }

  lemma LaterKeysSound(v: Version, acted: bool)
    ensures SoundMap(LaterKeys(v), acted)
  {
  }

  lemma CommandRootSound(v: Version)
    ensures Sound(CommandRoot(v), false)
  {
    var shared := Navigation(Act(Move)) + Digits();
    SharedKeysSound(false);
    SimpleCommandsSound(false);
    OperatorsSound(false);
    LaterKeysSound(v, false);
    SoundMapUnion(shared, SimpleCommands(), false);
    SoundMapUnion(shared + SimpleCommands(), Operators(), false);
    SoundMapUnion(shared + SimpleCommands() + Operators(), LaterKeys(v), false);
    SoundNode(Empty, shared + SimpleCommands() + Operators() + LaterKeys(v), "h", false);
  }

  lemma VisualRootSound()
    ensures Sound(VisualRoot(), false)
  {
    SharedKeysSound(false);
    assert SoundMap(VisualKeys(), false);
    SoundMapUnion(Navigation(Act(Move)) + Digits(), VisualKeys(), false);
    assert "d" in VisualKeys();
    SoundNode(Empty, Navigation(Act(Move)) + Digits() + VisualKeys(), "d", false);
  }

  /** A walk from either root, which starts from an empty record, only meets sound nodes. */
  ghost predicate RootsSound(roots: Roots) {
    SoundMap(roots.command.children, false) && SoundMap(roots.visual.children, false)
  }

  /**
    Both trees of either revision are sound: every leaf the walk can reach
    fires an action, and the one `readNextChar` node is a leaf with its own
    action.
   */
  lemma StandardRootsSound(v: Version)
    ensures RootsSound(StandardRoots(v))
  {
    VisualRootSound();
    CommandRootSound(v);
  }

  /** `r` is not a motion key. */
  lemma ReplaceNotMotion(base: NodeData)
    ensures "r" !in Navigation(base)
  {
    assert "r" !in MotionKeys();
  }

  /** `u` undoes in both revisions, without recording the state it leaves (vim.ts:174, docs/index.js:123). */
  lemma UndoKey(v: Version)
    ensures "u" in CommandRoot(v).children
    ensures CommandRoot(v).children["u"] == Leaf(Act(Undo).(dontSaveUndoState := Some(true)))
  {
    var simple := SimpleCommands();
    assert "u" in simple && simple["u"] == Leaf(Act(Undo).(dontSaveUndoState := Some(true)));
    assert "u" !in Operators();
    assert "u" !in LaterKeys(v);
  }

  /** `C-r` is not a motion key. */
  lemma RedoNotMotion(base: NodeData)
    ensures "C-r" !in Navigation(base)
  {
    assert "C-r" !in MotionKeys();
  }

  /** `C-r` exists only in the later revision, where it redoes without recording the state it leaves (docs/index.js:123-124). */
  lemma RedoKey(v: Version)
    ensures "C-r" in CommandRoot(v).children <==> v == Current
    ensures v == Current ==> CommandRoot(v).children["C-r"] == Leaf(Act(Redo).(dontSaveUndoState := Some(true)))
  {
    RedoNotMotion(Act(Move));
    assert "C-r" !in Digits();
    assert "C-r" !in SimpleCommands();
    assert "C-r" !in Operators();
    var later := LaterKeys(v);
    assert v == Current ==> "C-r" in later && later["C-r"] == Leaf(Act(Redo).(dontSaveUndoState := Some(true)));
    assert v == Legacy ==> later == map[];
  }

  /** `r` exists only in the later revision, where it waits for one more key (docs/index.js:127). */
  lemma ReplaceKey(v: Version)
    ensures "r" in CommandRoot(v).children <==> v == Current
    ensures v == Current ==> CommandRoot(v).children["r"] == Leaf(Act(ReplaceChar).(readNextChar := Some(true)))
  {
    ReplaceNotMotion(Act(Move));
    assert "r" !in Digits();
    assert "r" !in SimpleCommands();
    assert "r" !in Operators();
    var later := LaterKeys(v);
    assert v == Current ==> "r" in later && later["r"] == Leaf(Act(ReplaceChar).(readNextChar := Some(true)));
    assert v == Legacy ==> later == map[];
  }
}
