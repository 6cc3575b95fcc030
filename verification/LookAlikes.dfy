/** Which blocks look the same on the screen. */
module LookAlikes {
  import opened Bits
  import opened Huffman
  import opened Cells
  import opened Packing
  import opened Converter
  import opened Numbers
  import opened Display
  import opened TokenRoundTrip
  import opened BlockScreen
  import opened Dictionary
  import opened EditorPack
  import Screen

  // ---------------------------------------------------------------- what a coloured text tells

  lemma GroupAt(g: Group, rest: Text, k: nat)
    requires g.Group? && k <= |g.text|
    ensures (PaintedGroup(g) + rest)[k] == Screen.Cell(CharCode(if k < |g.text| then g.text[k] else ' '), g.ink)
  {
  }

  lemma CodeOfSolid(s: string, i: nat)
    requires Solid(s) && i < |s|
    ensures CharCode(s[i]) == s[i] as int && CharCode(s[i]) != CharCode(' ')
  {
  }

  /** The first space of a painted text ends its first group. */
  lemma FirstText(g: Group, rest: Text, h: Group, rest': Text)
    requires g.Group? && h.Group? && SolidGroup(g) && SolidGroup(h)
    requires PaintedGroup(g) + rest == PaintedGroup(h) + rest'
    ensures g == h && rest == rest'
  {
    hide Solid, CharCode, Inked;
    var m, n, a, b := |g.text|, |h.text|, PaintedGroup(g), PaintedGroup(h);
    var k := if m < n then m else n;
    GroupAt(g, rest, k);
    GroupAt(h, rest', k);
    if m < n {
      CodeOfSolid(h.text, k);
    } else if n < m {
      CodeOfSolid(g.text, k);
    }
    assert m == n;
    forall i | 0 <= i < m
      ensures g.text[i] == h.text[i]
    {
      GroupAt(g, rest, i);
      GroupAt(h, rest', i);
      CodeOfSolid(g.text, i);
      CodeOfSolid(h.text, i);
    }
    assert (a + rest)[m + 1..] == rest && (b + rest')[m + 1..] == rest';
  }

  /** The end of a line is no group. */
  lemma FirstGroup(g: Group, rest: Text, h: Group, rest': Text)
    requires SolidGroup(g) && SolidGroup(h)
    requires PaintedGroup(g) + rest == PaintedGroup(h) + rest'
    ensures g == h && rest == rest'
  {
    hide Solid, CharCode, Inked;
    var a, b := PaintedGroup(g), PaintedGroup(h);
    if g.Group? && h.Group? {
      FirstText(g, rest, h, rest');
    } else if g.Break? && h.Break? {
      assert (a + rest)[1..] == rest && (b + rest')[1..] == rest';
    } else {
      FirstCharacter(g, rest);
      FirstCharacter(h, rest');
    }
  }

  lemma FirstCharacter(g: Group, rest: Text)
    requires SolidGroup(g)
    ensures PaintedGroup(g) != []
    ensures (PaintedGroup(g) + rest)[0].character == Screen.NEWLINE <==> g.Break?
  {
    if g.Group? {
      GroupAt(g, rest, 0);
    }
  }

  /** The coloured text determines the groups. */
  lemma {:induction false} PaintedInjective(gs: seq<Group>, hs: seq<Group>)
    requires AllSolid(gs) && AllSolid(hs) && Painted(gs) == Painted(hs)
    ensures gs == hs
  {
    hide PaintedGroup, SolidGroup;
    if gs != [] && hs != [] {
      FirstGroup(gs[0], Painted(gs[1..]), hs[0], Painted(hs[1..]));
      PaintedInjective(gs[1..], hs[1..]);
    } else {
      SomePaint(gs);
      SomePaint(hs);
    }
  }

  lemma SomePaint(gs: seq<Group>)
    requires AllSolid(gs)
    ensures gs != [] ==> Painted(gs) != []
  {
    hide PaintedGroup, SolidGroup;
    if gs != [] {
      FirstCharacter(gs[0], []);
    }
  }

  lemma {:induction false} SolidTokens(tokens: seq<Token>)
    requires AllWellFormed(tokens)
    ensures AllSolid(AllGroups(tokens))
  {
    hide Groups, SolidGroup, WellFormed;
    if tokens != [] {
      SolidGroups(tokens[0]);
      SolidTokens(tokens[1..]);
    }
  }

  lemma VisibleConcat(a: Text, b: Text)
    requires Screen.Visible(a) && Screen.Visible(b)
    ensures Screen.Visible(a + b)
  {
  }

  lemma VisibleGroup(g: Group)
    requires SolidGroup(g)
    ensures Screen.Visible(PaintedGroup(g))
  {
  }

  lemma {:induction false} VisibleGroups(gs: seq<Group>)
    requires AllSolid(gs)
    ensures Screen.Visible(Painted(gs))
  {
    hide PaintedGroup, SolidGroup, Screen.Visible;
    if gs == [] {
      VisibleNothing();
    } else {
      VisibleGroup(gs[0]);
      VisibleGroups(gs[1..]);
      VisibleConcat(PaintedGroup(gs[0]), Painted(gs[1..]));
    }
  }

  lemma VisibleNothing()
    ensures Screen.Visible([])
  {
  }

  // ---------------------------------------------------------------- tokens that look alike

  /** Two tokens that look alike. Only a variable has two groups, and only its first is magenta. */
  predicate Alike(t: Token, u: Token)
  {
    match t
    case WordToken(f, v) => (
      match u
      case WordToken(g, w) =>
        if f == DisplayMacro || g == DisplayMacro then f == g
        else v == w && WordInk(FnTag(f)) == WordInk(FnTag(g))
      case NumberToken(g, hex, _) =>
        f != DisplayMacro && v == NumberText(Stored(u).n, hex) && WordInk(FnTag(f)) == NumberInk(FnTag(g), hex)
      case VariableToken(_, _) => false)
    case NumberToken(f, hex, _) => (
      match u
      case WordToken(g, w) =>
        g != DisplayMacro && NumberText(Stored(t).n, hex) == w && NumberInk(FnTag(f), hex) == WordInk(FnTag(g))
      case NumberToken(g, hex', _) =>
        NumberText(Stored(t).n, hex) == NumberText(Stored(u).n, hex')
        && NumberInk(FnTag(f), hex) == NumberInk(FnTag(g), hex')
      case VariableToken(_, _) => false)
    case VariableToken(_, _) => u.VariableToken? && Stored(t) == Stored(u)
  }

  /** Only a variable starts in magenta. */
  lemma HeadInk(t: Token)
    ensures |Groups(t)| == if t.VariableToken? then 2 else 1
    ensures Groups(t)[0].Group? && Groups(t)[0].ink == MAGENTA <==> t.VariableToken?
  {
    hide NumberText, Encode, TextCell, HexBit, Stored;
  }

  lemma SameVariable(t: Token, u: Token)
    requires t.VariableToken? && u.VariableToken?
    ensures Groups(t) == Groups(u) <==> Stored(t) == Stored(u)
  {
    hide NumberText, Encode, TextCell, HexBit, Signed;
    StoredRange(t);
    StoredRange(u);
    if t.name == u.name {
      var hex := HexBit(TextCell(Encode(t.name), FnTag(Variable)));
      if NumberText(Stored(t).value, hex) == NumberText(Stored(u).value, hex) {
        NumberTextInjective(Stored(t).value, Stored(u).value, hex);
      }
    }
  }

  lemma AlikeGroups(t: Token, u: Token)
    ensures Groups(t) == Groups(u) <==> Alike(t, u)
  {
    HeadInk(t);
    HeadInk(u);
    if t.VariableToken? && u.VariableToken? {
      SameVariable(t, u);
    }
    hide NumberText, Encode, TextCell, HexBit, Stored, WordInk, NumberInk, FnTag;
  }

  /** The first tokens of two lists that look the same look alike. */
  lemma FirstAlike(t: Token, u: Token, gs: seq<Group>, hs: seq<Group>)
    ensures Groups(t) + gs == Groups(u) + hs <==> Alike(t, u) && gs == hs
  {
    hide Groups, Alike;
    AlikeGroups(t, u);
    HeadInk(t);
    HeadInk(u);
    var a, b := Groups(t) + gs, Groups(u) + hs;
    if a == b {
      assert a[0] == Groups(t)[0] && b[0] == Groups(u)[0];
      var n := |Groups(t)|;
      assert a[..n] == Groups(t) && b[..n] == Groups(u) && a[n..] == gs && b[n..] == hs;
    }
  }

  ghost predicate AllAlike(ts: seq<Token>, us: seq<Token>)
  {
    |ts| == |us| && forall i :: 0 <= i < |ts| ==> Alike(ts[i], us[i])
  }

  lemma {:induction false} GroupsAlike(ts: seq<Token>, us: seq<Token>)
    ensures AllGroups(ts) == AllGroups(us) <==> AllAlike(ts, us)
    decreases |ts|
  {
    hide Alike, Groups;
    if ts != [] && us != [] {
      FirstAlike(ts[0], us[0], AllGroups(ts[1..]), AllGroups(us[1..]));
      GroupsAlike(ts[1..], us[1..]);
    } else {
      SomeGroup(ts);
      SomeGroup(us);
    }
  }

  lemma SomeGroup(tokens: seq<Token>)
    ensures tokens != [] ==> AllGroups(tokens) != []
  {
    hide WordInk, NumberInk, NumberText, Stored, HexBit, TextCell, Encode;
  }

  // ---------------------------------------------------------------- blocks that look alike

  /** A stray space is on the page. */
  predicate StraySeen(tokens: seq<Token>)
    requires AllWellFormed(tokens)
  {
    Strays(tokens) && Screen.StrayAt(Screen.CursorY(Screen.Wrap(Looks(tokens)))) < Screen.CELLS
  }

  lemma LeavesSame(p: Page, q: Page, text: Text, s: bool, s': bool)
    requires Leaves(p, text, s) && Leaves(q, text, s') && p.ink == q.ink
    requires Screen.StrayAt(Screen.CursorY(Screen.Wrap(text))) < Screen.CELLS ==> s == s'
    ensures p == q
  {
    hide Screen.Wrap, Screen.CursorX, Screen.CursorY, Screen.Shown;
    assert forall k :: 0 <= k < Screen.CELLS ==> p.cells[k] == q.cells[k];
  }

  /** Without scrolling, the page determines the text, and whether there is a stray space on it. */
  lemma LeavesText(p: Page, s: Text, a: bool, t: Text, b: bool)
    requires Leaves(p, s, a) && Leaves(p, t, b) && Screen.Visible(s) && Screen.Visible(t)
    requires |Screen.Wrap(s)| <= Screen.ROWS && |Screen.Wrap(t)| <= Screen.ROWS
    ensures s == t && (Screen.StrayAt(Screen.CursorY(Screen.Wrap(s))) < Screen.CELLS ==> a == b)
  {
    StrayBlank(s);
    StrayBlank(t);
    hide Screen.Wrap, Screen.CursorX, Screen.Shown, Screen.Visible;
    forall y: nat, x: nat | y < |Screen.Wrap(s)| && x < Screen.COLUMNS
      ensures Screen.Shown(Screen.Wrap(s), y, x) == Screen.Shown(Screen.Wrap(t), y, x)
    {
      var k := Screen.COLUMNS * y + x;
      Screen.CellIndex(k, y, x);
      assert k < Screen.CELLS && k != Screen.StrayAt(p.y);
    }
    Screen.ShownText(s, t);
  }

  /** Blocks that are alike token by token leave the same page, however long they are. */
  lemma AlikeShown(memory: seq<Word32>, m: nat, n: nat, ts: seq<Token>, us: seq<Token>, ink: Screen.Byte)
    requires ShowsBlock(memory, m, ts) && Clean(0, [], ts) && ShowsBlock(memory, n, us) && Clean(0, [], us)
    requires AllAlike(ts, us) && (StraySeen(ts) <==> StraySeen(us))
    ensures (m + 1) * 256 < |memory| && (n + 1) * 256 < |memory|
    ensures BlockPage(memory, m, ink) == BlockPage(memory, n, ink)
  {
    hide *;
    BlockShown(memory, m, ts, ink);
    BlockShown(memory, n, us, ink);
    ShowsTokens(memory, m, ts);
    ShowsTokens(memory, n, us);
    GroupsAlike(ts, us);
    LooksIs(ts);
    LooksIs(us);
    StraySeenIs(ts);
    StraySeenIs(us);
    LeavesSame(BlockPage(memory, m, ink), BlockPage(memory, n, ink), Looks(ts), Strays(ts), Strays(us));
  }

  lemma StraySeenIs(tokens: seq<Token>)
    requires AllWellFormed(tokens)
    ensures StraySeen(tokens) <==>
            Strays(tokens) && Screen.StrayAt(Screen.CursorY(Screen.Wrap(Looks(tokens)))) < Screen.CELLS
  {
    hide Strays, Looks, Screen.Wrap;
  }

  /** Two blocks that do not scroll leave the same page exactly when their tokens look alike one by one. */
  lemma SameScreen(memory: seq<Word32>, m: nat, n: nat, ts: seq<Token>, us: seq<Token>, ink: Screen.Byte)
    requires ShowsBlock(memory, m, ts) && Clean(0, [], ts) && ShowsBlock(memory, n, us) && Clean(0, [], us)
    requires |Screen.Wrap(Looks(ts))| <= Screen.ROWS && |Screen.Wrap(Looks(us))| <= Screen.ROWS
    ensures (m + 1) * 256 < |memory| && (n + 1) * 256 < |memory|
    ensures BlockPage(memory, m, ink) == BlockPage(memory, n, ink) <==>
            AllAlike(ts, us) && (StraySeen(ts) <==> StraySeen(us))
  {
    hide *;
    BlockShown(memory, m, ts, ink);
    BlockShown(memory, n, us, ink);
    ShowsTokens(memory, m, ts);
    ShowsTokens(memory, n, us);
    if AllAlike(ts, us) && (StraySeen(ts) <==> StraySeen(us)) {
      AlikeShown(memory, m, n, ts, us, ink);
    } else if BlockPage(memory, m, ink) == BlockPage(memory, n, ink) {
      SolidTokens(ts);
      SolidTokens(us);
      VisibleGroups(AllGroups(ts));
      VisibleGroups(AllGroups(us));
      LooksIs(ts);
      LooksIs(us);
      LeavesText(BlockPage(memory, m, ink), Looks(ts), Strays(ts), Looks(us), Strays(us));
      PaintedInjective(AllGroups(ts), AllGroups(us));
      GroupsAlike(ts, us);
      StraySeenIs(ts);
      StraySeenIs(us);
    }
  }

  // ---------------------------------------------------------------- which tokens look alike

  predicate IsComment(f: Fn)
  {
    f == PlainText || f == TextCapitalized || f == TextAllCaps
  }

  /**
   * Words look alike when they are the same in the same function, or in two of the three for comments; macros always
   * do.
   */
  lemma WordsAlike(f: Fn, v: string, g: Fn, w: string)
    requires Drawable(WordToken(f, v)) && Drawable(WordToken(g, w))
    ensures Alike(WordToken(f, v), WordToken(g, w)) <==>
            (f == g == DisplayMacro) || (v == w && (f == g || (IsComment(f) && IsComment(g))))
  {
    hide Packable, Fits;
  }

  /** The colours of numbers: a long one has one colour in either base, that of a short hexadecimal one. */
  lemma NumberInks(f: Fn, hex: bool, g: Fn, hex': bool)
    requires (IsLong(f) || IsShort(f)) && (IsLong(g) || IsShort(g))
    ensures NumberInk(FnTag(f), hex) == NumberInk(FnTag(g), hex') <==>
            || (f == g && (hex == hex' || IsLong(f) || f == CommentedNumber))
            || (f == ExecuteLong && g == ExecuteShort && hex') || (f == ExecuteShort && hex && g == ExecuteLong)
            || (f == CompileLong && g == CompileShort && hex') || (f == CompileShort && hex && g == CompileLong)
  {
  }

  /** Numbers in the same base look alike when they are stored alike and have the same colour. */
  lemma NumbersAlike(f: Fn, m: int, g: Fn, n: int, hex: bool)
    requires WellFormed(NumberToken(f, hex, m)) && WellFormed(NumberToken(g, hex, n))
    ensures var t, u := NumberToken(f, hex, m), NumberToken(g, hex, n);
            Alike(t, u) <==> Stored(t).n == Stored(u).n && NumberInk(FnTag(f), hex) == NumberInk(FnTag(g), hex)
  {
    hide NumberText, NumberInk, FnTag, Short, Signed;
    var t, u := NumberToken(f, hex, m), NumberToken(g, hex, n);
    StoredRange(t);
    StoredRange(u);
    if NumberText(Stored(t).n, hex) == NumberText(Stored(u).n, hex) {
      NumberTextInjective(Stored(t).n, Stored(u).n, hex);
    }
  }

  /** A yellow 12 is a word or a number, and a brown 10 is ten or sixteen. */
  lemma AlikeExamples()
    ensures Alike(WordToken(Execute, "12"), NumberToken(ExecuteShort, false, 12))
    ensures Alike(NumberToken(ExecuteLong, false, 10), NumberToken(ExecuteLong, true, 16))
  {
    ExampleTexts();
    hide NumberText, Short, Signed;
  }

  lemma ExampleTexts()
    ensures NumberText(12, false) == "12" && NumberText(10, false) == NumberText(16, true)
    ensures Stored(NumberToken(ExecuteShort, false, 12)).n == 12
    ensures Stored(NumberToken(ExecuteLong, false, 10)).n == 10 && Stored(NumberToken(ExecuteLong, true, 16)).n == 16
  {
    assert Digits(12, 10) == "12" && Digits(10, 10) == "10" && Digits(16, 16) == "10";
  }

  // ---------------------------------------------------------------- a number that loses a digit

  /** A word for each of 75 columns and a space behind each. */
  function Words(k: nat): seq<Token>
  {
    if k == 0 then [WordToken(PlainText, "aa")] else Words(k - 1) + [WordToken(PlainText, "a")]
  }

  /** The word 12345 behind 75 columns, and the number. */
  function WithWord(): seq<Token>
  {
    Words(36) + [WordToken(Execute, "12345")]
  }

  function WithNumber(): seq<Token>
  {
    Words(36) + [NumberToken(ExecuteShort, false, 12345)]
  }

  lemma {:induction false} AllGroupsConcat(a: seq<Token>, b: seq<Token>)
    ensures AllGroups(a + b) == AllGroups(a) + AllGroups(b)
  {
    hide Groups;
    if a == [] {
      assert a + b == b;
    } else {
      assert (a + b)[1..] == a[1..] + b;
      AllGroupsConcat(a[1..], b);
    }
  }

  lemma LooksConcat(a: seq<Token>, b: seq<Token>)
    ensures Looks(a + b) == Looks(a) + Looks(b)
  {
    hide AllGroups, Painted;
    AllGroupsConcat(a, b);
    PaintedConcat(AllGroups(a), AllGroups(b));
  }

  lemma {:induction false} CleanConcat(top: nat, text: Text, a: seq<Token>, b: seq<Token>)
    ensures Clean(top, text, a + b) <==> Clean(top, text, a) && Clean(top, text + Looks(a), b)
    decreases |a|
  {
    hide *;
    LooksStep(top, text, a);
    LooksIs(a);
    if a == [] {
      assert a + b == b;
      PaintedNone();
      assert text + [] == text;
    } else {
      assert (a + b)[1..] == a[1..] + b && (a + b)[0] == a[0];
      LooksStep(top, text, a + b);
      var next := text + Painted(Groups(a[0]));
      CleanConcat(top, next, a[1..], b);
      PaintedConcat(Groups(a[0]), AllGroups(a[1..]));
      LooksIs(a[1..]);
      assert next + Looks(a[1..]) == text + Looks(a);
    }
  }

  /** A token alone. */
  lemma OneLooks(text: Text, t: Token)
    ensures Looks([t]) == Painted(Groups(t)) && (Clean(0, text, [t]) <==> TokenClean(0, text, t))
  {
    hide *;
    LooksIs([t]);
    LooksStep(0, text, [t]);
    LooksStep(0, text + Painted(Groups(t)), []);
    assert [t][1..] == [] && Groups(t) + [] == Groups(t);
  }

  /** A word of one cell. */
  lemma OneCellWord(text: Text, w: string)
    requires w != "" && Packable(w) && Fits(w)
    ensures var t := WordToken(PlainText, w);
            && Drawable(t) && WellFormed(t) && |TokenCells(t)| == 1 && TokenClean(0, text, t)
            && Painted(Groups(t)) == Inked(w + " ", BRIGHT_WHITE) && NoBreaks(Painted(Groups(t)))
  {
    hide Packable, Fits, Chunks, Inked, NoBreaks, Column, Painted, PaintedGroup, Plain, TextCell, Encode, LastInk;
    FittingWordIsOneChunk(w);
    SolidWord(w);
    PlainSpaced(w);
    PaintedOne(Group(w, BRIGHT_WHITE));
    GroupIs(w, BRIGHT_WHITE);
    InkedNoBreaks(w + " ", BRIGHT_WHITE);
    assert [w][1..] == [];
  }

  lemma LetterNumerals()
    ensures Known("a", 1) && CodeBits("a", 1) == 4 && Known("aa", 2) && CodeBits("aa", 2) == 8
  {
  }

  lemma Letters()
    ensures Packable("a") && Fits("a") && Packable("aa") && Fits("aa")
  {
    LetterNumerals();
    hide *;
    KnownWord("a", 1);
    KnownWord("aa", 2);
    assert "a"[..1] == "a" && "aa"[..2] == "aa";
    ShortWordCell("a");
    ShortWordCell("aa");
  }

  lemma NoBreaksConcat(a: Text, b: Text)
    requires NoBreaks(a) && NoBreaks(b)
    ensures NoBreaks(a + b)
  {
  }

  ghost predicate AllDrawable(tokens: seq<Token>)
  {
    forall i :: 0 <= i < |tokens| ==> Drawable(tokens[i])
  }

  lemma OneToken(t: Token)
    requires Drawable(t) && WellFormed(t)
    ensures AllWellFormed([t]) && AllDrawable([t]) && BlockCells([t]) == TokenCells(t)
  {
    hide Drawable, WellFormed, TokenCells;
    assert [t][1..] == [] && TokenCells(t) + [] == TokenCells(t);
  }

  lemma DrawableConcat(a: seq<Token>, b: seq<Token>)
    requires AllWellFormed(a) && AllWellFormed(b) && AllDrawable(a) && AllDrawable(b)
    ensures AllWellFormed(a + b) && AllDrawable(a + b)
  {
    hide Drawable, WellFormed;
  }

  lemma {:induction false} WordsFill(k: nat)
    ensures AllWellFormed(Words(k)) && AllDrawable(Words(k)) && |BlockCells(Words(k))| == k + 1
    ensures Clean(0, [], Words(k)) && |Looks(Words(k))| == 2 * k + 3 && NoBreaks(Looks(Words(k)))
  {
    hide *;
    Letters();
    WordsStep(k);
    if k == 0 {
      OneCellWord([], "aa");
      OneToken(WordToken(PlainText, "aa"));
      OneLooks([], WordToken(PlainText, "aa"));
    } else {
      var before, t := Words(k - 1), WordToken(PlainText, "a");
      WordsFill(k - 1);
      OneCellWord(Looks(before), "a");
      OneToken(t);
      OneLooks(Looks(before), t);
      DrawableConcat(before, [t]);
      BlockCellsConcat(before, [t]);
      LooksConcat(before, [t]);
      assert [] + Looks(before) == Looks(before);
      CleanConcat(0, [], before, [t]);
      NoBreaksConcat(Looks(before), Looks([t]));
    }
  }

  lemma WordsStep(k: nat)
    ensures Words(k) == if k == 0 then [WordToken(PlainText, "aa")] else Words(k - 1) + [WordToken(PlainText, "a")]
  {
  }

  /** A text without newlines is on one row until it fills it. */
  lemma {:induction false} OneRow(text: Text)
    requires NoBreaks(text) && |text| < Screen.COLUMNS
    ensures Screen.Wrap(text) == [text]
    decreases |text|
  {
    hide Screen.Wrap;
    if text == [] {
      Screen.EmptyRows();
    } else {
      var n := |text| - 1;
      OneRow(text[..n]);
      Screen.WrapSnoc(text[..n], text[n]);
      assert text == text[..n] + [text[n]];
    }
  }

  lemma TwoRows(text: Text)
    requires NoBreaks(text) && Screen.COLUMNS <= |text| <= Screen.COLUMNS + 1
    ensures |Screen.Wrap(text)| == 2 <= Screen.ROWS && Column(text) == |text| - Screen.COLUMNS
    decreases |text|
  {
    hide Screen.Wrap;
    var n := |text| - 1;
    assert text == text[..n] + [text[n]];
    Screen.WrapSnoc(text[..n], text[n]);
    if n < Screen.COLUMNS {
      OneRow(text[..n]);
    } else {
      TwoRows(text[..n]);
    }
  }

  lemma WordLosesDigit(text: Text)
    requires |text| == 75 && NoBreaks(text)
    ensures !TokenClean(0, text, WordToken(Execute, "12345"))
  {
    hide *;
    DigitChunks();
    var t := WordToken(Execute, "12345");
    ExecutedWord(t);
    WordLooks(0, text, t, 0);
    var first, rest := Inked("1234" + " ", YELLOW), ["5"];
    assert Chunks(t.text)[0] == "1234" && Chunks(t.text)[1..] == rest;
    assert first != [];
    SpreadStep(0, text, "1234", first, rest, YELLOW);
    PlainDigits();
    InkedNoBreaks("1234" + " ", YELLOW);
    NoBreaksConcat(text, first);
    TwoRows(text + first);
    AlwaysOnScreen(text + first);
  }

  lemma ExecutedWord(t: Token)
    requires t == WordToken(Execute, "12345") && Packable("12345")
    ensures IsShownWord(t) && WordInk(FnTag(t.f)) == YELLOW
  {
    hide Packable;
  }

  lemma PlainDigits()
    ensures Plain("1234" + " ") && |"1234" + " "| == 5 && Screen.COLUMNS == 80
  {
  }

  lemma NumberDigits()
    ensures NumberText(12345, false) == "12345" && Stored(NumberToken(ExecuteShort, false, 12345)).n == 12345
  {
    assert Digits(12345, 10) == "12345";
  }

  lemma TheNumber(text: Text)
    ensures var t := NumberToken(ExecuteShort, false, 12345);
            && Drawable(t) && WellFormed(t) && |TokenCells(t)| == 1 && TokenClean(0, text, t)
            && Alike(WordToken(Execute, "12345"), t) && Looks([t]) == Inked("12345" + " ", YELLOW)
  {
    NumberDigits();
    hide NumberText, Stored, Short, ShortCell, Column, Inked, Painted, PaintedGroup;
    var t := NumberToken(ExecuteShort, false, 12345);
    OneLooks(text, t);
    hide Looks;
    PaintedOne(Group("12345", YELLOW));
    GroupIs("12345", YELLOW);
  }

  /** The two lists are alike; only that with the number is shown right. */
  lemma DigitLost()
    ensures AllWellFormed(WithWord()) && AllDrawable(WithWord()) && |BlockCells(WithWord())| == 39
    ensures AllWellFormed(WithNumber()) && AllDrawable(WithNumber()) && |BlockCells(WithNumber())| == 38
    ensures AllAlike(WithWord(), WithNumber())
    ensures !Clean(0, [], WithWord()) && Clean(0, [], WithNumber())
    ensures Scrolled(Looks(WithNumber())) == 0 && Looks(WithWord()) == Looks(WithNumber())
  {
    hide *;
    var before, t, u := Words(36), WordToken(Execute, "12345"), NumberToken(ExecuteShort, false, 12345);
    WordsFill(36);
    DigitChunks();
    TheLists();
    assert [] + Looks(before) == Looks(before);
    ExecutedWord(t);
    ExecutedCells(t);
    TheNumber(Looks(before));
    OneToken(t);
    OneToken(u);
    DrawableConcat(before, [t]);
    DrawableConcat(before, [u]);
    BlockCellsConcat(before, [t]);
    BlockCellsConcat(before, [u]);
    OneLooks(Looks(before), t);
    OneLooks(Looks(before), u);
    CleanConcat(0, [], before, [t]);
    CleanConcat(0, [], before, [u]);
    WordLosesDigit(Looks(before));
    AlikeLast(before, t, u);
    LooksConcat(before, [u]);
    PlainNumber();
    InkedNoBreaks("12345" + " ", YELLOW);
    NoBreaksConcat(Looks(before), Looks([u]));
    TwoRows(Looks(WithNumber()));
    NothingScrolled(Looks(WithNumber()));
    GroupsAlike(WithWord(), WithNumber());
    LooksIs(WithWord());
    LooksIs(WithNumber());
  }

  lemma NothingScrolled(text: Text)
    ensures Scrolled(text) == 0 <==> |Screen.Wrap(text)| <= Screen.ROWS
  {
    hide Screen.Wrap;
  }

  lemma TheLists()
    ensures WithWord() == Words(36) + [WordToken(Execute, "12345")]
    ensures WithNumber() == Words(36) + [NumberToken(ExecuteShort, false, 12345)]
  {
    hide Words;
  }

  lemma PlainNumber()
    ensures Plain("12345" + " ") && |"12345" + " "| == 6 && Screen.COLUMNS == 80
  {
  }

  lemma ExecutedCells(t: Token)
    requires t == WordToken(Execute, "12345") && Packable("12345") && Chunks("12345") == ["1234", "5"]
    ensures Drawable(t) && WellFormed(t) && |TokenCells(t)| == 2
  {
    hide Packable, Chunks, ChunkCells;
  }

  lemma AlikeLast(before: seq<Token>, t: Token, u: Token)
    requires Alike(t, u)
    ensures AllAlike(before + [t], before + [u])
  {
    hide *;
    AllGroupsConcat(before, [t]);
    AllGroupsConcat(before, [u]);
    FirstAlike(t, u, [], []);
    OneGroups(t);
    OneGroups(u);
    GroupsAlike(before + [t], before + [u]);
  }

  lemma OneGroups(t: Token)
    ensures AllGroups([t]) == Groups(t) + []
  {
    hide Groups;
    assert [t][1..] == [];
  }

  /** Blocks of tokens that are alike, of which one has a part out of place and the other has none, look different. */
  lemma AlikeDiffer(memory: seq<Word32>, m: nat, n: nat, ts: seq<Token>, us: seq<Token>, ink: Screen.Byte)
    requires ShowsBlock(memory, m, ts) && ShowsBlock(memory, n, us) && AllAlike(ts, us)
    requires !Clean(Scrolled(Looks(ts)), [], ts) && Clean(Scrolled(Looks(us)), [], us)
    ensures (m + 1) * 256 < |memory| && (n + 1) * 256 < |memory|
    ensures Looks(ts) == Looks(us) && BlockPage(memory, m, ink).cells != BlockPage(memory, n, ink).cells
  {
    hide *;
    ShowsTokens(memory, m, ts);
    ShowsTokens(memory, n, us);
    GroupsAlike(ts, us);
    LooksIs(ts);
    LooksIs(us);
    BlockShownExactly(memory, m, ts, ink);
    BlockShownExactly(memory, n, us, ink);
    RightCells(BlockPage(memory, m, ink), BlockPage(memory, n, ink), Looks(us));
  }

  lemma RightCells(p: Page, q: Page, text: Text)
    requires !ShownRight(p, text) && ShownRight(q, text)
    ensures p.cells != q.cells
  {
    hide Screen.Wrap, Screen.Shown;
  }

  /**
   * The word 12345 and the number 12345 look alike, but behind 75 columns the digit 5 of the word, which comes in
   * column 0, is lost.
   */
  lemma DigitLostExample(ink: Screen.Byte)
    ensures AllAlike(WithWord(), WithNumber())
    ensures AllWellFormed(WithWord()) && AllWellFormed(WithNumber())
    ensures var memory := Padded(BlockCells(WithWord())) + Padded(BlockCells(WithNumber())) + [0];
            && ShowsBlock(memory, 0, WithWord()) && ShowsBlock(memory, 1, WithNumber()) && |memory| == 513
            && BlockPage(memory, 0, ink).cells != BlockPage(memory, 1, ink).cells
  {
    DigitLost();
    hide *;
    var a, b := Padded(BlockCells(WithWord())), Padded(BlockCells(WithNumber()));
    var memory := a + b + [0];
    PaddedLength(BlockCells(WithWord()));
    PaddedLength(BlockCells(WithNumber()));
    assert memory[0..256] == a && memory[256..512] == b;
    InMemory(memory, 0, WithWord());
    InMemory(memory, 1, WithNumber());
    AlikeDiffer(memory, 0, 1, WithWord(), WithNumber(), ink);
  }

  lemma PaddedLength(cells: seq<Word32>)
    requires |cells| <= 256
    ensures |Padded(cells)| == 256
  {
  }

  lemma InMemory(memory: seq<Word32>, n: nat, tokens: seq<Token>)
    requires AllWellFormed(tokens) && AllDrawable(tokens) && |BlockCells(tokens)| <= 256
    requires (n + 1) * 256 < |memory| && memory[n * 256..(n + 1) * 256] == Padded(BlockCells(tokens))
    ensures ShowsBlock(memory, n, tokens)
  {
    hide Drawable, WellFormed, BlockCells, Padded;
  }

  // ---------------------------------------------------------------- colours

  /** Yellow to execute, red to define, bright green to compile, bright cyan for macros, white for comments. */
  lemma WordColours(w: string)
    ensures Looks([WordToken(Execute, w)]) == Inked(w + " ", 14)
    ensures Looks([WordToken(Define, w)]) == Inked(w + " ", 4)
    ensures Looks([WordToken(CompileWord, w)]) == Inked(w + " ", 10)
    ensures Looks([WordToken(CompileMacro, w)]) == Inked(w + " ", 11)
    ensures forall f | f in {PlainText, TextCapitalized, TextAllCaps} :: Looks([WordToken(f, w)]) == Inked(w + " ", 15)
    ensures Looks([WordToken(DisplayMacro, w)]) == [Screen.Cell(10, 0)]
  {
    hide *;
    WordGroup(Execute, w);
    WordGroup(Define, w);
    WordGroup(CompileWord, w);
    WordGroup(CompileMacro, w);
    WordGroup(PlainText, w);
    WordGroup(TextCapitalized, w);
    WordGroup(TextAllCaps, w);
    WordGroup(DisplayMacro, w);
    WordTable();
  }

  lemma WordGroup(f: Fn, w: string)
    ensures Looks([WordToken(f, w)]) ==
            if f == DisplayMacro then [Screen.Cell(10, 0)] else Inked(w + " ", WordInk(FnTag(f)))
  {
    hide Inked, WordInk, FnTag, Chunks, Packable, JoinsClean, Clean, Painted, AllGroups;
    OneLooks([], WordToken(f, w));
    PaintedOne(if f == DisplayMacro then Break else Group(w, WordInk(FnTag(f))));
  }

  lemma WordTable()
    ensures WordInk(FnTag(Execute)) == 14 && WordInk(FnTag(Define)) == 4 && WordInk(FnTag(CompileWord)) == 10
    ensures WordInk(FnTag(CompileMacro)) == 11
    ensures WordInk(FnTag(PlainText)) == WordInk(FnTag(TextCapitalized)) == WordInk(FnTag(TextAllCaps)) == 15
  {
  }

  /**
   * Yellow or brown to execute, bright green or green to compile, the second for long and for hexadecimal ones, white
   * for comments; the value of a variable, named in magenta, is bright green.
   */
  lemma NumberColours(n: int, hex: bool, name: string)
    ensures Groups(NumberToken(ExecuteLong, hex, n)) == [Group(NumberText(Signed(Unsigned(n)), hex), 6)]
    ensures Groups(NumberToken(CompileLong, hex, n)) == [Group(NumberText(Signed(Unsigned(n)), hex), 2)]
    ensures Groups(NumberToken(ExecuteShort, false, n)) == [Group(NumberText(Short(n), false), 14)]
    ensures Groups(NumberToken(ExecuteShort, true, n)) == [Group(NumberText(Short(n), true), 6)]
    ensures Groups(NumberToken(CompileShort, false, n)) == [Group(NumberText(Short(n), false), 10)]
    ensures Groups(NumberToken(CompileShort, true, n)) == [Group(NumberText(Short(n), true), 2)]
    ensures Groups(NumberToken(CommentedNumber, hex, n)) == [Group(NumberText(Short(n), hex), 15)]
    ensures var gs := Groups(VariableToken(name, n));
            |gs| == 2 && gs[0] == Group(name, 5) && gs[1].Group? && gs[1].ink == 10
  {
    hide NumberText, Short, Signed, HexBit, TextCell, Encode;
  }

  /** A comment and a number in a block of their own. */
  function Small(): seq<Token>
  {
    [WordToken(PlainText, "a"), NumberToken(ExecuteShort, false, -5)]
  }

  lemma MinusFive(text: Text)
    ensures var t := NumberToken(ExecuteShort, false, -5);
            Drawable(t) && WellFormed(t) && |TokenCells(t)| == 1 && TokenClean(0, text, t)
            && Looks([t]) == Inked("-5" + " ", 14)
  {
    NumberTextExamples();
    MinusFiveStored();
    hide NumberText, Stored, Short, ShortCell, Column, Inked, Painted, PaintedGroup;
    var t := NumberToken(ExecuteShort, false, -5);
    OneLooks(text, t);
    hide Looks;
    PaintedOne(Group("-5", YELLOW));
    GroupIs("-5", YELLOW);
  }

  lemma MinusFiveStored()
    ensures Stored(NumberToken(ExecuteShort, false, -5)).n == -5
  {
    StoredExactly(NumberToken(ExecuteShort, false, -5));
  }

  lemma SmallBlock()
    ensures AllWellFormed(Small()) && AllDrawable(Small()) && |BlockCells(Small())| == 2
    ensures Clean(0, [], Small()) && Looks(Small()) == Inked("a" + " ", 15) + Inked("-5" + " ", 14)
  {
    hide *;
    var t, u := WordToken(PlainText, "a"), NumberToken(ExecuteShort, false, -5);
    Letters();
    SmallIs();
    OneCellWord([], "a");
    OneToken(t);
    OneLooks([], t);
    assert [] + Looks([t]) == Looks([t]);
    MinusFive(Looks([t]));
    OneToken(u);
    OneLooks(Looks([t]), u);
    DrawableConcat([t], [u]);
    BlockCellsConcat([t], [u]);
    LooksConcat([t], [u]);
    CleanConcat(0, [], [t], [u]);
  }

  lemma SmallIs()
    ensures Small() == [WordToken(PlainText, "a")] + [NumberToken(ExecuteShort, false, -5)] && BRIGHT_WHITE == 15
  {
  }

  /** Its page: "a -5 " in the first five cells, the rest blank, and the cursor behind it. */
  lemma SmallPage(ink: Screen.Byte)
    ensures AllWellFormed(Small())
    ensures var memory := Padded(BlockCells(Small())) + [0];
            && ShowsBlock(memory, 0, Small()) && |memory| == 257
            && BlockPage(memory, 0, ink).cells[..6] ==
               [Screen.Cell(97, 15), Screen.Cell(32, 15), Screen.Cell(45, 14), Screen.Cell(53, 14), Screen.Cell(32, 14),
                Screen.Cell(0, 7)]
            && BlockPage(memory, 0, ink).x == 5 && BlockPage(memory, 0, ink).y == 0
  {
    SmallBlock();
    hide *;
    var memory := Padded(BlockCells(Small())) + [0];
    PaddedLength(BlockCells(Small()));
    assert memory[0..256] == Padded(BlockCells(Small()));
    InMemory(memory, 0, Small());
    BlockShown(memory, 0, Small(), ink);
    SmallText(Looks(Small()));
    OneRow(Looks(Small()));
    LooksIs(Small());
    SmallColumn(Looks(Small()));
    SmallCells(BlockPage(memory, 0, ink), Looks(Small()), Strays(Small()));
  }

  lemma SmallText(text: Text)
    requires text == Inked("a" + " ", 15) + Inked("-5" + " ", 14)
    ensures text == [Screen.Cell(97, 15), Screen.Cell(32, 15), Screen.Cell(45, 14), Screen.Cell(53, 14),
                     Screen.Cell(32, 14)]
    ensures NoBreaks(text) && |text| == 5 < Screen.COLUMNS
  {
  }

  lemma SmallColumn(text: Text)
    requires Screen.Wrap(text) == [text] && |text| == 5
    ensures Column(text) == 5
  {
    hide Screen.Wrap;
  }

  lemma SmallCells(p: Page, text: Text, strays: bool)
    requires Leaves(p, text, strays) && Screen.Wrap(text) == [text] && |text| == 5 && !strays
    ensures p.cells[..6] == text + [Screen.Cell(0, 7)] && p.x == 5 && p.y == 0
  {
    hide Screen.Wrap;
    forall k | 0 <= k < 6
      ensures p.cells[k] == if k < 5 then text[k] else Screen.Cell(0, 7)
    {
      Screen.CellIndex(k, 0, k);
    }
  }
}
