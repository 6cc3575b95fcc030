/** What a displayed block leaves on the 80-column screen, and exactly when it is what its tokens look like. */
module BlockScreen {
  import opened Bits
  import opened Huffman
  import opened Cells
  import opened Packing
  import opened Converter
  import opened Numbers
  import opened Display
  import opened TokenRoundTrip
  import Screen

  type Text = seq<Screen.Cell>
  type Page = p: Screen.Page | Screen.Proper(p) witness Screen.Cleared(0)

  function Inked(text: string, ink: Screen.Byte): (cells: Text)
    ensures |cells| == |text|
  {
    seq(|text|, i requires 0 <= i < |text| => Screen.Cell(CharCode(text[i]), ink))
  }

  /** A run of characters in one colour that ends with a space, or the end of a line. */
  datatype Group = Group(text: string, ink: Screen.Byte) | Break

  /** What a token looks like. */
  function Groups(t: Token): seq<Group>
  {
    match t
    case WordToken(f, text) => if f == DisplayMacro then [Break] else [Group(text, WordInk(FnTag(f)))]
    case NumberToken(f, hex, _) => [Group(NumberText(Stored(t).n, hex), NumberInk(FnTag(f), hex))]
    case VariableToken(name, _) =>
      [Group(name, MAGENTA),
       Group(NumberText(Stored(t).value, HexBit(TextCell(Encode(name), FnTag(Variable)))), BRIGHT_GREEN)]
  }

  function AllGroups(tokens: seq<Token>): seq<Group>
  {
    if tokens == [] then [] else Groups(tokens[0]) + AllGroups(tokens[1..])
  }

  function PaintedGroup(g: Group): Text
  {
    match g
    case Group(text, ink) => Inked(text + " ", ink)
    case Break => [Screen.Cell(Screen.NEWLINE, 0)]
  }

  function Painted(groups: seq<Group>): Text
  {
    if groups == [] then [] else PaintedGroup(groups[0]) + Painted(groups[1..])
  }

  /** The colour after some groups. */
  function LastInk(groups: seq<Group>, ink: Screen.Byte): Screen.Byte
  {
    if groups == [] then ink else LastInk(groups[1..], if groups[0].Group? then groups[0].ink else ink)
  }

  /** The column of the cursor behind a text. */
  function Column(text: Text): (x: nat)
    ensures x < Screen.COLUMNS
  {
    Screen.CursorX(Screen.Wrap(text))
  }

  // ---------------------------------------------------------------- what happens at column 0

  /**
   * The next part of a word would not come in column 0, or the row before, in which its first character would be lost,
   * is one of the `top` rows that have scrolled off in the end.
   */
  predicate InPlace(top: nat, text: Text)
  {
    Column(text) > 0 || (top > 0 && |Screen.Wrap(text)| <= top + 1)
  }

  /** All parts that continue a word are in place: `text` is what the word follows, and `first` what is shown of it. */
  predicate JoinsClean(top: nat, text: Text, first: string, chunks: seq<string>, ink: Screen.Byte)
    decreases |chunks|
  {
    chunks == [] ||
    (InPlace(top, text + Inked(first + " ", ink)) && JoinsClean(top, text, first + chunks[0], chunks[1..], ink))
  }

  predicate TokenClean(top: nat, text: Text, t: Token)
  {
    t.WordToken? && t.f != DisplayMacro && t.text != "" ==>
      JoinsClean(top, text, Chunks(t.text)[0], Chunks(t.text)[1..], WordInk(FnTag(t.f)))
  }

  predicate Clean(top: nat, text: Text, tokens: seq<Token>)
    decreases |tokens|
  {
    tokens == [] || (TokenClean(top, text, tokens[0]) && Clean(top, text + Painted(Groups(tokens[0])), tokens[1..]))
  }

  /**
   * What is shown of a word once one more part has been drawn: `shown` stands where `first` and a space should. In
   * column 0 the part loses its first character, and the space before it stays.
   */
  function Grown(text: Text, first: string, shown: Text, chunk: string, ink: Screen.Byte): Text
    requires shown != []
  {
    var more := Inked(chunk + " ", ink);
    if Column(text + Inked(first + " ", ink)) > 0 then shown[..|shown| - 1] + more else shown + more[1..]
  }

  /** What is shown of a word with all its parts. */
  function Spread(text: Text, first: string, shown: Text, chunks: seq<string>, ink: Screen.Byte): Text
    requires shown != []
    decreases |chunks|
  {
    if chunks == [] then shown else
      Spread(text, first + chunks[0], Grown(text, first, shown, chunks[0], ink), chunks[1..], ink)
  }

  function TokenActual(text: Text, t: Token): Text
  {
    if t.WordToken? && t.f != DisplayMacro && t.text != "" then
      var ink, chunks := WordInk(FnTag(t.f)), Chunks(t.text);
      Spread(text, chunks[0], Inked(chunks[0] + " ", ink), chunks[1..], ink)
    else Painted(Groups(t))
  }

  /** What is shown of a block, behind a text. */
  function Actual(text: Text, tokens: seq<Token>): Text
    decreases |tokens|
  {
    if tokens == [] then [] else
      TokenActual(text, tokens[0]) + Actual(text + Painted(Groups(tokens[0])), tokens[1..])
  }

  // ---------------------------------------------------------------- drawing

  /** Characters the screen shows as they are: neither spaces nor control characters. */
  predicate Solid(text: string)
  {
    forall i :: 0 <= i < |text| ==> 32 < text[i] as int < 127
  }

  /** As above, or a space. */
  predicate Plain(text: string)
  {
    forall i :: 0 <= i < |text| ==> 32 <= text[i] as int < 127
  }

  lemma PlainCode(c: char)
    requires 32 <= c as int < 127
    ensures Screen.Ordinary(CharCode(c)) && CharCode(c) == c as int
  {
  }

  lemma {:induction false} DrawText(p: Page, text: Text, but: bool, s: string)
    requires Screen.Agrees(p, text, but) && Plain(s)
    ensures var q := Draw(p, Puts(s)); Screen.Agrees(q, text + Inked(s, p.ink), but) && q.ink == p.ink
    decreases |s|
  {
    hide *;
    if s == "" {
      DrawNothing(p);
      NoMarks(p.ink);
      assert s == "" && text + Inked("", p.ink) == text;
    } else {
      var c, rest := Screen.Cell(CharCode(s[0]), p.ink), s[1..];
      PlainParts(s);
      PlainCode(s[0]);
      OrdinaryIs(c.character);
      PutsParts(s);
      DrawConcat(p, [Put(s[0])], Puts(rest));
      DrawOne(p, Put(s[0]));
      DrawnPut(p, s[0]);
      Screen.TypedAgrees(p, text, but, c);
      DrawText(Drawn(p, Put(s[0])), text + [c], but, rest);
      InkedParts(s, p.ink);
      assert text + [c] + Inked(rest, p.ink) == text + ([c] + Inked(rest, p.ink));
    }
  }

  lemma NoMarks(ink: Screen.Byte)
    ensures Puts("") == [] && Inked("", ink) == []
  {
  }

  lemma PlainParts(s: string)
    requires s != "" && Plain(s)
    ensures 32 <= s[0] as int < 127 && Plain(s[1..])
  {
  }

  lemma OrdinaryIs(c: Screen.Byte)
    requires Screen.Ordinary(c)
    ensures c != Screen.BACKSPACE && c != Screen.TABULATION && c != Screen.NEWLINE
  {
  }

  lemma PutsParts(s: string)
    requires s != ""
    ensures Puts(s) == [Put(s[0])] + Puts(s[1..])
  {
  }

  lemma InkedParts(s: string, ink: Screen.Byte)
    requires s != ""
    ensures Inked(s, ink) == [Screen.Cell(CharCode(s[0]), ink)] + Inked(s[1..], ink)
  {
  }

  /** Text in a colour. */
  lemma DrawInked(p: Page, text: Text, but: bool, ink: Screen.Byte, s: string)
    requires Screen.Agrees(p, text, but) && Plain(s)
    ensures var q := Draw(p, [Attributes(ink)] + Puts(s));
            Screen.Agrees(q, text + Inked(s, ink), but) && q.ink == ink
  {
    hide *;
    DrawConcat(p, [Attributes(ink)], Puts(s));
    DrawOne(p, Attributes(ink));
    InkSet(p, text, but, ink);
    DrawText(Drawn(p, Attributes(ink)), text, but, s);
  }

  lemma InkSet(p: Page, text: Text, but: bool, ink: Screen.Byte)
    requires Screen.Agrees(p, text, but)
    ensures var q := Drawn(p, Attributes(ink)); Screen.Agrees(q, text, but) && q.ink == ink
  {
    hide Screen.Wrap, Screen.Shown, Screen.CursorX, Screen.CursorY;
  }

  /** Away from column 0, a part that continues a word replaces the space before it. */
  lemma DrawJoined(p: Page, text: Text, but: bool, more: string)
    requires Screen.Agrees(p, text, but) && text != [] && Column(text) > 0 && Plain(more)
    ensures var q := Draw(p, [Back] + Puts(more + " "));
            Screen.Agrees(q, text[..|text| - 1] + Inked(more + " ", p.ink), but) && q.ink == p.ink
  {
    hide *;
    var s, n := more + " ", |text| - 1;
    var c, rest := Screen.Cell(CharCode(s[0]), p.ink), s[1..];
    assert text == text[..n] + [text[n]];
    PlainSpaced(more);
    PlainParts(s);
    PlainCode(s[0]);
    PutsParts(s);
    assert [Back] + Puts(s) == [Back, Put(s[0])] + Puts(rest);
    DrawConcat(p, [Back, Put(s[0])], Puts(rest));
    DrawTwo(p, s[0]);
    ColumnIs(p, text, but);
    Screen.ReplacedAgrees(p, text[..n], text[n], but, c);
    var q := Draw(p, [Back, Put(s[0])]);
    DrawText(q, text[..n] + [c], but, rest);
    InkedParts(s, p.ink);
    assert text[..n] + [c] + Inked(rest, p.ink) == text[..n] + ([c] + Inked(rest, p.ink));
  }

  lemma PlainSpaced(s: string)
    requires Plain(s)
    ensures Plain(s + " ")
  {
  }

  lemma DrawTwo(p: Page, c: char)
    ensures Draw(p, [Back, Put(c)]) == Screen.Typed(Screen.SteppedBack(p), CharCode(c))
    ensures Draw(p, [Back, Put(c)]).ink == p.ink
  {
    hide Screen.Typed;
    assert [Back, Put(c)] == [Back] + [Put(c)];
    DrawConcat(p, [Back], [Put(c)]);
    DrawOne(p, Back);
    DrawOne(Drawn(p, Back), Put(c));
  }

  lemma ColumnIs(p: Page, text: Text, but: bool)
    requires Screen.Agrees(p, text, but)
    ensures p.x == Column(text)
  {
    hide Screen.Wrap, Screen.Shown;
  }

  /** In column 0, its first character goes astray. */
  lemma DrawStray(p: Page, text: Text, more: string)
    requires Screen.Agrees(p, text, true) && Column(text) == 0 && Plain(more)
    ensures var q := Draw(p, [Back] + Puts(more + " "));
            Screen.Agrees(q, text + Inked(more + " ", p.ink)[1..], true) && q.ink == p.ink
  {
    hide *;
    var s := more + " ";
    var rest := s[1..];
    PlainSpaced(more);
    PlainParts(s);
    PlainCode(s[0]);
    PutsParts(s);
    assert [Back] + Puts(s) == [Back, Put(s[0])] + Puts(rest);
    DrawConcat(p, [Back, Put(s[0])], Puts(rest));
    DrawTwo(p, s[0]);
    ColumnIs(p, text, true);
    Screen.StrayAgrees(p, text, CharCode(s[0]));
    DrawText(Draw(p, [Back, Put(s[0])]), text, true, rest);
    InkedParts(s, p.ink);
    assert Inked(s, p.ink)[1..] == Inked(rest, p.ink);
  }

  // ---------------------------------------------------------------- what a block leaves

  predicate NoBreaks(text: Text)
  {
    forall i :: 0 <= i < |text| ==> text[i].character != Screen.NEWLINE
  }

  lemma InkedNoBreaks(s: string, ink: Screen.Byte)
    requires Plain(s)
    ensures NoBreaks(Inked(s, ink))
  {
  }

  lemma SameShapeConcat(a: Text, b: Text, c: Text, d: Text)
    requires Screen.SameShape(a, b) && Screen.SameShape(c, d)
    ensures Screen.SameShape(a + c, b + d)
  {
    var s, t := a + c, b + d;
    forall i | 0 <= i < |s|
      ensures s[i].character == Screen.NEWLINE <==> t[i].character == Screen.NEWLINE
    {
      if i >= |a| {
        assert s[i] == c[i - |a|] && t[i] == d[i - |a|];
      } else {
        assert s[i] == a[i] && t[i] == b[i];
      }
    }
  }

  /** Behind texts of the same shape, such parts leave the cursor in the same column. */
  lemma SameColumn(before: Text, text: Text, shown: Text, more: Text)
    requires Screen.SameShape(before, text) && |shown| == |more| && NoBreaks(shown) && NoBreaks(more)
    ensures Column(before + shown) == Column(text + more)
  {
    hide Screen.Wrap, Screen.CursorX;
    SameShapeConcat(before, text, shown, more);
    Screen.ShapeRows(before + shown, text + more);
  }

  lemma GrownParts(text: Text, first: string, shown: Text, chunk: string, ink: Screen.Byte)
    requires |shown| == |first| + 1 && NoBreaks(shown) && Plain(chunk)
    ensures var shown' := Grown(text, first, shown, chunk, ink);
            |shown'| == |first + chunk| + 1 && NoBreaks(shown')
  {
    hide Screen.Wrap, Screen.CursorX, Column;
    PlainSpaced(chunk);
    InkedNoBreaks(chunk + " ", ink);
  }

  /** One more part of a word. */
  lemma DrawPart(p: Page, before: Text, text: Text, first: string, shown: Text, chunk: string, but: bool)
    requires Screen.SameShape(before, text) && |shown| == |first| + 1 && NoBreaks(shown) && Plain(first)
    requires Screen.Agrees(p, before + shown, but) && Plain(chunk)
    requires but || Column(text + Inked(first + " ", p.ink)) > 0
    ensures var q := Draw(p, [Back] + Puts(chunk + " "));
            Screen.Agrees(q, before + Grown(text, first, shown, chunk, p.ink), but) && q.ink == p.ink
  {
    hide *;
    var target, more := Inked(first + " ", p.ink), Inked(chunk + " ", p.ink);
    PlainSpaced(first);
    InkedNoBreaks(first + " ", p.ink);
    SameColumn(before, text, shown, target);
    var n := |before + shown| - 1;
    GrownIs(text, first, shown, chunk, p.ink);
    if Column(text + target) > 0 {
      DrawJoined(p, before + shown, but, chunk);
      assert (before + shown)[..n] + more == before + (shown[..|shown| - 1] + more);
    } else {
      DrawStray(p, before + shown, chunk);
      assert before + shown + more[1..] == before + (shown + more[1..]);
    }
  }

  lemma GrownIs(text: Text, first: string, shown: Text, chunk: string, ink: Screen.Byte)
    requires shown != []
    ensures var more := Inked(chunk + " ", ink);
            Grown(text, first, shown, chunk, ink) ==
            if Column(text + Inked(first + " ", ink)) > 0 then shown[..|shown| - 1] + more else shown + more[1..]
  {
    hide Column, Inked;
  }

  lemma {:induction false} DrawChunks(
    p: Page, before: Text, text: Text, first: string, shown: Text, chunks: seq<string>, at: nat, but: bool)
    requires Screen.SameShape(before, text) && |shown| == |first| + 1 && NoBreaks(shown) && Plain(first)
    requires Screen.Agrees(p, before + shown, but) && forall i :: 0 <= i < |chunks| ==> Plain(chunks[i])
    requires but || JoinsClean(0, text, first, chunks, p.ink)
    ensures var q := Draw(p, Marks(JoinedView(chunks, at)));
            Screen.Agrees(q, before + Spread(text, first, shown, chunks, p.ink), but) && q.ink == p.ink
    decreases |chunks|
  {
    hide *;
    SpreadStep(0, text, first, shown, chunks, p.ink);
    if chunks == [] {
      NothingJoined(at);
      DrawNothing(p);
    } else {
      var d, rest := Dispatch(at, Joined(chunks[0])), JoinedView(chunks[1..], at + 1);
      JoinedStep(chunks, at);
      MarksOf(d, rest);
      JoinedEmission(chunks[0]);
      DrawConcat(p, Emission(d.event), Marks(rest));
      AlwaysOnScreen(text + Inked(first + " ", p.ink));
      DrawPart(p, before, text, first, shown, chunks[0], but);
      GrownParts(text, first, shown, chunks[0], p.ink);
      PlainJoined(first, chunks[0]);
      DrawChunks(Draw(p, Emission(d.event)), before, text, first + chunks[0],
        Grown(text, first, shown, chunks[0], p.ink), chunks[1..], at + 1, but);
    }
  }

  lemma PlainJoined(a: string, b: string)
    requires Plain(a) && Plain(b)
    ensures Plain(a + b)
  {
  }

  /** Before any scrolling, only another column than 0 is in place. */
  lemma AlwaysOnScreen(text: Text)
    ensures InPlace(0, text) <==> Column(text) > 0
  {
    hide Column;
  }

  lemma SpreadStep(top: nat, text: Text, first: string, shown: Text, chunks: seq<string>, ink: Screen.Byte)
    requires shown != []
    ensures chunks == [] ==>
        Spread(text, first, shown, chunks, ink) == shown && JoinsClean(top, text, first, chunks, ink)
    ensures chunks != [] ==>
        var shown' := Grown(text, first, shown, chunks[0], ink);
        && shown' != []
        && Spread(text, first, shown, chunks, ink) == Spread(text, first + chunks[0], shown', chunks[1..], ink)
        && (JoinsClean(top, text, first, chunks, ink) <==>
            InPlace(top, text + Inked(first + " ", ink)) && JoinsClean(top, text, first + chunks[0], chunks[1..], ink))
  {
    hide Column, InPlace, Inked;
  }

  lemma NothingJoined(at: nat)
    ensures Marks(JoinedView([], at)) == []
  {
  }

  lemma JoinedStep(chunks: seq<string>, at: nat)
    requires chunks != []
    ensures JoinedView(chunks, at) == [Dispatch(at, Joined(chunks[0]))] + JoinedView(chunks[1..], at + 1)
  {
  }

  lemma MarksOf(d: Dispatch, rest: seq<Dispatch>)
    ensures Marks([d] + rest) == Emission(d.event) + Marks(rest)
  {
    hide Emission;
    assert ([d] + rest)[1..] == rest;
  }

  lemma JoinedEmission(text: string)
    ensures Emission(Joined(text)) == [Back] + Puts(text + " ")
  {
  }

  /** What is shown of a word has the length of the word and a space. */
  lemma {:induction false} SpreadParts(text: Text, first: string, shown: Text, chunks: seq<string>, ink: Screen.Byte)
    requires |shown| == |first| + 1 && NoBreaks(shown) && forall i :: 0 <= i < |chunks| ==> Plain(chunks[i])
    ensures var all := Spread(text, first, shown, chunks, ink);
            |all| == |first + Join(chunks)| + 1 && NoBreaks(all)
    decreases |chunks|
  {
    hide *;
    SpreadStep(0, text, first, shown, chunks, ink);
    if chunks == [] {
      JoinNone();
    } else {
      GrownParts(text, first, shown, chunks[0], ink);
      JoinStep(chunks);
      SpreadParts(text, first + chunks[0], Grown(text, first, shown, chunks[0], ink), chunks[1..], ink);
    }
  }

  /** Letters are no control characters and no spaces. */
  lemma LetterRange(k: nat)
    requires 1 <= k < 48
    ensures 32 < Letter(k) as int < 127
  {
  }

  lemma SolidWord(w: string)
    requires Packable(w)
    ensures Solid(w) && Plain(w)
  {
    hide Letter, Index;
    forall i | 0 <= i < |w|
      ensures 32 < w[i] as int < 127
    {
      LetterOfIndex(w[i]);
      LetterRange(Index(w[i]));
    }
  }

  /** The parts of a word: the first one, and those that continue it. */
  lemma WordParts(w: string)
    requires w != "" && Packable(w)
    ensures var chunks := Chunks(w);
            && chunks != [] && chunks[0] + Join(chunks[1..]) == w
            && Solid(chunks[0]) && forall i :: 0 <= i < |chunks[1..]| ==> chunks[1..][i] != "" && Solid(chunks[1..][i])
    ensures var chunks := Chunks(w);
            Plain(chunks[0]) && forall i :: 0 <= i < |chunks[1..]| ==> Plain(chunks[1..][i])
  {
    hide Packable, Solid, Plain, Chunks, Fits, Encode;
    ChunksFit(w);
    JoinNone();
    JoinStep(Chunks(w));
    forall i | 0 <= i < |Chunks(w)|
      ensures Solid(Chunks(w)[i]) && Plain(Chunks(w)[i])
    {
      SolidWord(Chunks(w)[i]);
    }
  }

  predicate IsShownWord(t: Token)
  {
    t.WordToken? && t.f != DisplayMacro && t.text != "" && Packable(t.text)
  }

  /** The parts of a word: its looks, its dispatches, what is shown of it and when that is right. */
  lemma WordLooks(top: nat, text: Text, t: Token, at: nat)
    requires IsShownWord(t)
    ensures var chunks, ink := Chunks(t.text), WordInk(FnTag(t.f));
            && chunks != []
            && Groups(t) == [Group(t.text, ink)]
            && TokenView(t, at) == [Dispatch(at, Shown(FnTag(t.f), chunks[0]))] + JoinedView(chunks[1..], at + 1)
            && TokenActual(text, t) == Spread(text, chunks[0], Inked(chunks[0] + " ", ink), chunks[1..], ink)
            && (TokenClean(top, text, t) <==> JoinsClean(top, text, chunks[0], chunks[1..], ink))
            && Emission(Shown(FnTag(t.f), chunks[0])) == [Attributes(ink)] + Puts(chunks[0] + " ")
  {
    hide Spread, JoinsClean, Inked, JoinedView, WordInk, FnTag, Puts, Packable;
    WordParts(t.text);
    hide Chunks;
  }

  lemma DrawWord(p: Page, before: Text, text: Text, t: Token, at: nat, but: bool)
    requires Screen.SameShape(before, text) && Screen.Agrees(p, before, but) && IsShownWord(t)
    requires but || TokenClean(0, text, t)
    ensures var q := Draw(p, Marks(TokenView(t, at)));
            Screen.Agrees(q, before + TokenActual(text, t), but) && q.ink == LastInk(Groups(t), p.ink)
  {
    hide *;
    WordLooks(0, text, t, at);
    ShownWordText(t);
    WordParts(t.text);
    var chunks, ink := Chunks(t.text), WordInk(FnTag(t.f));
    var d, rest := Dispatch(at, Shown(FnTag(t.f), chunks[0])), JoinedView(chunks[1..], at + 1);
    MarksOf(d, rest);
    DrawConcat(p, Emission(d.event), Marks(rest));
    PlainSpaced(chunks[0]);
    DrawInked(p, before, but, ink, chunks[0] + " ");
    InkedNoBreaks(chunks[0] + " ", ink);
    DrawChunks(Draw(p, Emission(d.event)), before, text, chunks[0], Inked(chunks[0] + " ", ink), chunks[1..], at + 1,
      but);
    InkOfOne(Group(t.text, ink), p.ink);
  }

  lemma ShownWordText(t: Token)
    requires IsShownWord(t)
    ensures t.WordToken? && t.text != "" && Packable(t.text)
  {
  }

  lemma InkOfOne(g: Group, ink: Screen.Byte)
    ensures LastInk([g], ink) == if g.Group? then g.ink else ink
  {
    assert [g][1..] == [];
  }

  lemma SolidNumber(n: int, hex: bool)
    requires IsInt32(n)
    ensures Solid(NumberText(n, hex)) && Plain(NumberText(n, hex))
  {
    hide Digits;
    ValueOfDigits(if hex then Unsigned(n) else if n < 0 then -n else n, if hex then 16 else 10);
  }

  lemma StoredRange(t: Token)
    ensures Stored(t).NumberToken? ==> IsInt32(Stored(t).n)
    ensures Stored(t).VariableToken? ==> IsInt32(Stored(t).value)
  {
    SignedRange(if t.NumberToken? then Unsigned(t.n) else if t.VariableToken? then Unsigned(t.value) else 0);
  }

  /** All texts on the screen are solid. */
  predicate SolidGroup(g: Group)
  {
    g.Group? ==> Solid(g.text)
  }

  ghost predicate AllSolid(gs: seq<Group>)
  {
    forall i :: 0 <= i < |gs| ==> SolidGroup(gs[i])
  }

  lemma SolidGroups(t: Token)
    requires WellFormed(t)
    ensures AllSolid(Groups(t))
  {
    hide Solid, NumberText, HexBit, TextCell, Encode, Packable, Short, Signed, WordInk, NumberInk;
    StoredRange(t);
    match t
    case WordToken(_, text) => SolidWord(text);
    case NumberToken(_, hex, _) => SolidNumber(Stored(t).n, hex);
    case VariableToken(name, _) =>
      SolidWord(name);
      SolidNumber(Stored(t).value, HexBit(TextCell(Encode(name), FnTag(Variable))));
  }

  lemma PaintedNone()
    ensures Painted([]) == []
  {
  }

  lemma PaintedOne(g: Group)
    ensures Painted([g]) == PaintedGroup(g)
  {
    assert [g][1..] == [];
  }

  lemma {:induction false} PaintedConcat(a: seq<Group>, b: seq<Group>)
    ensures Painted(a + b) == Painted(a) + Painted(b)
  {
    hide PaintedGroup;
    if a == [] {
      assert a + b == b;
    } else {
      assert (a + b)[1..] == a[1..] + b;
      PaintedConcat(a[1..], b);
    }
  }

  lemma {:induction false} InkConcat(a: seq<Group>, b: seq<Group>, ink: Screen.Byte)
    ensures LastInk(a + b, ink) == LastInk(b, LastInk(a, ink))
    decreases |a|
  {
    if a == [] {
      assert a + b == b;
    } else {
      assert (a + b)[1..] == a[1..] + b;
      InkConcat(a[1..], b, if a[0].Group? then a[0].ink else ink);
    }
  }

  lemma SolidIsPlain(g: Group)
    requires g.Group? && SolidGroup(g)
    ensures Plain(g.text + " ")
  {
  }

  /** A group's characters. */
  lemma DrawGroup(p: Page, text: Text, but: bool, g: Group)
    requires Screen.Agrees(p, text, but) && g.Group? && SolidGroup(g)
    ensures var q := Draw(p, [Attributes(g.ink)] + Puts(g.text + " "));
            Screen.Agrees(q, text + PaintedGroup(g), but) && q.ink == g.ink
  {
    hide Draw, Puts, Inked, Screen.Agrees, SolidGroup, Plain;
    SolidIsPlain(g);
    DrawInked(p, text, but, g.ink, g.text + " ");
  }

  lemma OneMark(d: Dispatch)
    ensures Marks([d]) == Emission(d.event)
  {
    hide Emission;
    assert [d][1..] == [];
  }

  lemma DrawNumber(p: Page, text: Text, t: Token, at: nat, but: bool)
    requires Screen.Agrees(p, text, but) && t.NumberToken? && AllSolid(Groups(t))
    ensures var q := Draw(p, Marks(TokenView(t, at)));
            Screen.Agrees(q, text + Painted(Groups(t)), but) && q.ink == LastInk(Groups(t), p.ink)
  {
    hide Draw, Puts, Inked, NumberText, NumberInk, FnTag, Stored, Marks, Screen.Agrees, SolidGroup, Painted, LastInk;
    var g := Groups(t)[0];
    OneMark(TokenView(t, at)[0]);
    DrawGroup(p, text, but, g);
    PaintedOne(g);
    InkOfOne(g, p.ink);
  }

  lemma DrawVariable(p: Page, text: Text, t: Token, at: nat, but: bool)
    requires Screen.Agrees(p, text, but) && t.VariableToken? && AllSolid(Groups(t))
    ensures var q := Draw(p, Marks(TokenView(t, at)));
            Screen.Agrees(q, text + Painted(Groups(t)), but) && q.ink == LastInk(Groups(t), p.ink)
  {
    hide Draw, Puts, Inked, NumberText, HexBit, TextCell, Encode, FnTag, Stored, Marks, Screen.Agrees, SolidGroup,
      Painted, PaintedGroup, LastInk;
    var g, h := Groups(t)[0], Groups(t)[1];
    OneMark(TokenView(t, at)[0]);
    var first, second := [Attributes(g.ink)] + Puts(g.text + " "), [Attributes(h.ink)] + Puts(h.text + " ");
    assert Emission(TokenView(t, at)[0].event) == first + second;
    DrawConcat(p, first, second);
    DrawGroup(p, text, but, g);
    DrawGroup(Draw(p, first), text + PaintedGroup(g), but, h);
    PaintedOne(g);
    PaintedOne(h);
    PaintedConcat([g], [h]);
    InkConcat([g], [h], p.ink);
    InkOfOne(h, LastInk([g], p.ink));
    assert [g] + [h] == Groups(t);
    assert text + PaintedGroup(g) + PaintedGroup(h) == text + Painted(Groups(t));
  }

  /** The end of a line. */
  lemma DrawBreak(p: Page, text: Text, t: Token, at: nat, but: bool)
    requires Screen.Agrees(p, text, but) && t.WordToken? && t.f == DisplayMacro && t.text != ""
    ensures var q := Draw(p, Marks(TokenView(t, at)));
            Screen.Agrees(q, text + Painted(Groups(t)), but) && q.ink == LastInk(Groups(t), p.ink)
  {
    hide *;
    BreakLooks(t, at);
    OneMark(Dispatch(at, NewLine));
    DrawOne(p, Put('\n'));
    DrawnPut(p, '\n');
    Screen.TypedAgrees(p, text, but, Screen.Cell(Screen.NEWLINE, 0));
    PaintedOne(Break);
    InkOfOne(Break, p.ink);
  }

  lemma BreakLooks(t: Token, at: nat)
    requires t.WordToken? && t.f == DisplayMacro && t.text != ""
    ensures TokenView(t, at) == [Dispatch(at, NewLine)] && Groups(t) == [Break]
    ensures PaintedGroup(Break) == [Screen.Cell(Screen.NEWLINE, 0)]
    ensures Emission(NewLine) == [Put('\n')] && CharCode('\n') == Screen.NEWLINE
    ensures Screen.NEWLINE != Screen.BACKSPACE && Screen.NEWLINE != Screen.TABULATION
  {
  }

  lemma OtherLooks(top: nat, text: Text, t: Token)
    requires !IsShownWord(t) && WellFormed(t)
    ensures TokenActual(text, t) == Painted(Groups(t)) && TokenClean(top, text, t)
    ensures t.WordToken? ==> t.f == DisplayMacro && t.text != ""
  {
    hide Painted, Packable, Chunks, Inked, WordInk, FnTag;
  }

  lemma DrawToken(p: Page, before: Text, text: Text, t: Token, at: nat, but: bool)
    requires Screen.SameShape(before, text) && Screen.Agrees(p, before, but) && Drawable(t)
    requires but || TokenClean(0, text, t)
    ensures var q := Draw(p, Marks(TokenView(t, at)));
            Screen.Agrees(q, before + TokenActual(text, t), but) && q.ink == LastInk(Groups(t), p.ink)
  {
    hide *;
    DrawableParts(t);
    SolidGroups(t);
    if IsShownWord(t) {
      DrawWord(p, before, text, t, at, but);
    } else {
      OtherLooks(0, text, t);
      match t {
        case WordToken(_, _) => DrawBreak(p, before, t, at, but);
        case NumberToken(_, _, _) => DrawNumber(p, before, t, at, but);
        case VariableToken(_, _) => DrawVariable(p, before, t, at, but);
      }
    }
  }

  lemma DrawableParts(t: Token)
    requires Drawable(t)
    ensures WellFormed(t)
  {
  }

  /** What is shown of a token has the shape of its looks. */
  lemma TokenShape(text: Text, t: Token)
    requires WellFormed(t)
    ensures Screen.SameShape(TokenActual(text, t), Painted(Groups(t)))
  {
    hide *;
    if IsShownWord(t) {
      WordLooks(0, text, t, 0);
      ShownWordText(t);
      WordParts(t.text);
      var chunks, ink := Chunks(t.text), WordInk(FnTag(t.f));
      PlainSpaced(chunks[0]);
      InkedNoBreaks(chunks[0] + " ", ink);
      SpreadParts(text, chunks[0], Inked(chunks[0] + " ", ink), chunks[1..], ink);
      PaintedOne(Group(t.text, ink));
      GroupShape(TokenActual(text, t), t.text, ink);
      SolidWord(t.text);
    } else {
      OtherLooks(0, text, t);
      OwnShape(Painted(Groups(t)));
    }
  }

  lemma OwnShape(text: Text)
    ensures Screen.SameShape(text, text)
  {
  }

  lemma GroupShape(shown: Text, s: string, ink: Screen.Byte)
    requires |shown| == |s| + 1 && NoBreaks(shown)
    ensures PaintedGroup(Group(s, ink)) == Inked(s + " ", ink)
    ensures Plain(s) ==> Screen.SameShape(shown, PaintedGroup(Group(s, ink)))
  {
    if Plain(s) {
      PlainSpaced(s);
      InkedNoBreaks(s + " ", ink);
    }
  }

  lemma TokensStep(tokens: seq<Token>, at: nat)
    requires AllWellFormed(tokens) && forall i :: 0 <= i < |tokens| ==> Drawable(tokens[i])
    ensures tokens == [] ==> View(tokens, at) == []
    ensures tokens != [] ==>
        && Drawable(tokens[0]) && WellFormed(tokens[0]) && AllWellFormed(tokens[1..])
        && (forall i :: 0 <= i < |tokens[1..]| ==> Drawable(tokens[1..][i]))
        && View(tokens, at) == TokenView(tokens[0], at) + View(tokens[1..], at + |TokenCells(tokens[0])|)
  {
    hide Drawable, WellFormed, TokenView, TokenCells;
  }

  lemma LooksStep(top: nat, text: Text, tokens: seq<Token>)
    ensures tokens == [] ==> AllGroups(tokens) == [] && Actual(text, tokens) == [] && Clean(top, text, tokens)
    ensures tokens != [] ==>
        var next := text + Painted(Groups(tokens[0]));
        && AllGroups(tokens) == Groups(tokens[0]) + AllGroups(tokens[1..])
        && Actual(text, tokens) == TokenActual(text, tokens[0]) + Actual(next, tokens[1..])
        && (Clean(top, text, tokens) <==> TokenClean(top, text, tokens[0]) && Clean(top, next, tokens[1..]))
  {
    hide Groups, TokenActual, TokenClean, Painted;
  }

  lemma {:induction false} DrawTokens(p: Page, before: Text, text: Text, tokens: seq<Token>, at: nat, but: bool)
    requires Screen.SameShape(before, text) && Screen.Agrees(p, before, but)
    requires AllWellFormed(tokens) && forall i :: 0 <= i < |tokens| ==> Drawable(tokens[i])
    requires but || Clean(0, text, tokens)
    ensures var q := Draw(p, Marks(View(tokens, at)));
            Screen.Agrees(q, before + Actual(text, tokens), but) && q.ink == LastInk(AllGroups(tokens), p.ink)
    decreases |tokens|
  {
    hide *;
    TokensStep(tokens, at);
    LooksStep(0, text, tokens);
    if tokens == [] {
      MarksNone();
      DrawNothing(p);
      InkNone(p.ink);
      assert before + [] == before;
    } else {
      var t, next := tokens[0], at + |TokenCells(tokens[0])|;
      var shown, looks := TokenActual(text, t), Painted(Groups(t));
      MarksConcat(TokenView(t, at), View(tokens[1..], next));
      DrawConcat(p, Marks(TokenView(t, at)), Marks(View(tokens[1..], next)));
      DrawToken(p, before, text, t, at, but);
      TokenShape(text, t);
      SameShapeConcat(before, text, shown, looks);
      DrawTokens(Draw(p, Marks(TokenView(t, at))), before + shown, text + looks, tokens[1..], next, but);
      InkConcat(Groups(t), AllGroups(tokens[1..]), p.ink);
      assert before + shown + Actual(text + looks, tokens[1..]) == before + (shown + Actual(text + looks, tokens[1..]));
    }
  }

  lemma InkNone(ink: Screen.Byte)
    ensures LastInk([], ink) == ink
  {
  }

  /** A text on which another space can be written over the last one: nothing, or the end of a group or of a line. */
  predicate Ended(text: Text, ink: Screen.Byte)
  {
    text == [] || text[|text| - 1] == Screen.Cell(Screen.SPACE, ink) || text[|text| - 1].character == Screen.NEWLINE
  }

  lemma InkedLast(s: string, ink: Screen.Byte)
    ensures Inked(s + " ", ink)[|s|] == Screen.Cell(Screen.SPACE, ink)
  {
  }

  lemma GrownLast(text: Text, first: string, shown: Text, chunk: string, ink: Screen.Byte)
    requires shown != [] && chunk != ""
    ensures var shown' := Grown(text, first, shown, chunk, ink);
            |shown'| == |shown| + |chunk| && shown'[|shown'| - 1] == Screen.Cell(Screen.SPACE, ink)
    ensures forall j :: 0 <= j < |shown| - 1 ==> Grown(text, first, shown, chunk, ink)[j] == shown[j]
  {
    hide Column;
    InkedLast(chunk, ink);
  }

  /** Later parts leave everything but the last space as it is, and end with a space. */
  lemma {:induction false} SpreadKeeps(text: Text, first: string, shown: Text, chunks: seq<string>, ink: Screen.Byte)
    requires shown != [] && shown[|shown| - 1] == Screen.Cell(Screen.SPACE, ink)
    requires forall i :: 0 <= i < |chunks| ==> chunks[i] != ""
    ensures var all := Spread(text, first, shown, chunks, ink);
            |all| >= |shown| && all[|all| - 1] == Screen.Cell(Screen.SPACE, ink)
    ensures forall j :: 0 <= j < |shown| - 1 ==> Spread(text, first, shown, chunks, ink)[j] == shown[j]
    decreases |chunks|
  {
    hide *;
    SpreadStep(0, text, first, shown, chunks, ink);
    if chunks != [] {
      GrownLast(text, first, shown, chunks[0], ink);
      SpreadKeeps(text, first + chunks[0], Grown(text, first, shown, chunks[0], ink), chunks[1..], ink);
    }
  }

  lemma TokenEnded(text: Text, t: Token, ink: Screen.Byte)
    requires WellFormed(t)
    ensures TokenActual(text, t) != [] && Ended(TokenActual(text, t), LastInk(Groups(t), ink))
  {
    hide *;
    if IsShownWord(t) {
      WordLooks(0, text, t, 0);
      ShownWordText(t);
      WordParts(t.text);
      var chunks, own := Chunks(t.text), WordInk(FnTag(t.f));
      InkedLast(chunks[0], own);
      SpreadKeeps(text, chunks[0], Inked(chunks[0] + " ", own), chunks[1..], own);
      InkOfOne(Group(t.text, own), ink);
      EndedIs(TokenActual(text, t), own);
    } else {
      OtherLooks(0, text, t);
      GroupsEnd(t);
      var gs := Groups(t);
      var n := |gs| - 1;
      assert gs == gs[..n] + [gs[n]];
      PaintedConcat(gs[..n], [gs[n]]);
      InkConcat(gs[..n], [gs[n]], ink);
      PaintedOne(gs[n]);
      InkOfOne(gs[n], LastInk(gs[..n], ink));
      GroupEnded(Painted(gs[..n]), gs[n], LastInk(gs[..n], ink));
    }
  }

  lemma GroupsEnd(t: Token)
    ensures Groups(t) != []
  {
  }

  lemma EndedIs(text: Text, ink: Screen.Byte)
    requires text != [] && text[|text| - 1] == Screen.Cell(Screen.SPACE, ink)
    ensures Ended(text, ink)
  {
  }

  lemma GroupEnded(text: Text, g: Group, ink: Screen.Byte)
    ensures text + PaintedGroup(g) != []
    ensures Ended(text + PaintedGroup(g), if g.Group? then g.ink else ink)
  {
    hide Inked;
    if g.Group? {
      InkedLast(g.text, g.ink);
    }
  }

  lemma EndedConcat(before: Text, text: Text, ink: Screen.Byte)
    requires text != [] && Ended(text, ink)
    ensures Ended(before + text, ink)
  {
  }

  lemma {:induction false} TokensEnded(before: Text, text: Text, tokens: seq<Token>, ink: Screen.Byte)
    requires Ended(before, ink) && AllWellFormed(tokens)
    ensures Ended(before + Actual(text, tokens), LastInk(AllGroups(tokens), ink))
    decreases |tokens|
  {
    hide *;
    LooksStep(0, text, tokens);
    if tokens == [] {
      InkNone(ink);
      assert before + [] == before;
    } else {
      var t, rest := tokens[0], tokens[1..];
      var shown, next := TokenActual(text, t), text + Painted(Groups(t));
      WellFormedParts(tokens);
      TokenEnded(text, t, ink);
      EndedConcat(before, shown, LastInk(Groups(t), ink));
      TokensEnded(before + shown, next, rest, LastInk(Groups(t), ink));
      InkConcat(Groups(t), AllGroups(rest), ink);
      assert before + shown + Actual(next, rest) == before + (shown + Actual(next, rest));
    }
  }

  lemma WellFormedParts(tokens: seq<Token>)
    requires AllWellFormed(tokens) && tokens != []
    ensures WellFormed(tokens[0]) && AllWellFormed(tokens[1..])
  {
    hide WellFormed;
  }

  /** A cursor away from column 0 follows a character in its row. */
  lemma ColumnCharacter(text: Text)
    requires Column(text) > 0
    ensures text != [] && text[|text| - 1].character != Screen.NEWLINE
    ensures var rows := Screen.Wrap(text);
            && rows[|rows| - 1] != [] && rows[|rows| - 1][Column(text) - 1] == text[|text| - 1]
            && Screen.CursorX(rows) == Column(text)
  {
    hide Screen.Wrap;
    if text == [] {
      Screen.EmptyRows();
    } else {
      var n := |text| - 1;
      assert text == text[..n] + [text[n]];
      Screen.WrapSnoc(text[..n], text[n]);
    }
  }

  /** The cells that fill a block up write a space over the last one, or astray. */
  lemma {:induction false} DrawPads(p: Page, text: Text, at: nat, limit: nat)
    requires Screen.Agrees(p, text, true) && Ended(text, p.ink)
    ensures Screen.Agrees(Draw(p, Marks(PadView(at, limit))), text, true)
    decreases limit - at
  {
    hide *;
    PadStep(at, limit);
    if at >= limit {
      MarksNone();
      DrawNothing(p);
    } else {
      var d, rest := Dispatch(at, Joined("")), PadView(at + 1, limit);
      MarksOf(d, rest);
      JoinedEmission("");
      DrawConcat(p, Emission(d.event), Marks(rest));
      OneSpace(p.ink);
      if Column(text) > 0 {
        ColumnCharacter(text);
        EndedSpace(text, p.ink);
        DrawJoined(p, text, true, "");
        assert text == text[..|text| - 1] + [text[|text| - 1]];
      } else {
        DrawStray(p, text, "");
        assert text + [] == text;
      }
      DrawPads(Draw(p, Emission(d.event)), text, at + 1, limit);
    }
  }

  lemma PadStep(at: nat, limit: nat)
    ensures at >= limit ==> PadView(at, limit) == []
    ensures at < limit ==> PadView(at, limit) == [Dispatch(at, Joined(""))] + PadView(at + 1, limit)
  {
  }

  lemma OneSpace(ink: Screen.Byte)
    ensures Plain("") && "" + " " == " " && Puts(" ") == [Put(' ')]
    ensures Inked("" + " ", ink) == [Screen.Cell(Screen.SPACE, ink)] && Inked("" + " ", ink)[1..] == []
    ensures CharCode(' ') == Screen.SPACE && Screen.Ordinary(Screen.SPACE)
  {
  }

  lemma EndedSpace(text: Text, ink: Screen.Byte)
    requires Ended(text, ink) && text != [] && text[|text| - 1].character != Screen.NEWLINE
    ensures text[|text| - 1] == Screen.Cell(Screen.SPACE, ink)
  {
  }

  /** The page after a step back and a space behind a text that has ended. */
  function Strayed(p: Page): (q: Page)
  {
    if p.x == 0 then Screen.Placed(p, Screen.StrayAt(p.y), Screen.Cell(Screen.SPACE, p.ink)) else p
  }

  predicate Settled(p: Page)
  {
    p.x == 0 ||
    (p.x < Screen.COLUMNS &&
     p.cells[Screen.COLUMNS * p.y + p.x - 1] == Screen.Cell(Screen.SPACE, p.ink))
  }

  lemma SpaceAgain(p: Page)
    requires Settled(p)
    ensures Screen.Typed(Screen.SteppedBack(p), Screen.SPACE) == Strayed(p)
    ensures Settled(Strayed(p)) && Strayed(Strayed(p)) == Strayed(p)
  {
    if p.x == 0 {
      Screen.StrayTyped(p, Screen.SPACE);
    } else {
      var q := Screen.SteppedBack(p);
      Screen.TypedIs(q, Screen.Cell(Screen.SPACE, q.ink));
      Screen.StillThere(q, Screen.Cell(Screen.SPACE, q.ink));
    }
  }

  lemma {:induction false} DrawPadding(p: Page, at: nat, limit: nat)
    requires Settled(p)
    ensures Draw(p, Marks(PadView(at, limit))) == if at < limit then Strayed(p) else p
    decreases limit - at
  {
    hide *;
    PadStep(at, limit);
    if at >= limit {
      MarksNone();
      DrawNothing(p);
    } else {
      var d, rest := Dispatch(at, Joined("")), PadView(at + 1, limit);
      MarksOf(d, rest);
      JoinedEmission("");
      DrawConcat(p, Emission(d.event), Marks(rest));
      OneSpace(p.ink);
      assert [Back] + [Put(' ')] == [Back, Put(' ')];
      DrawTwo(p, ' ');
      SpaceAgain(p);
      DrawPadding(Strayed(p), at + 1, limit);
    }
  }

  // ---------------------------------------------------------------- when that is right

  /** The coloured text a block should leave. */
  function Looks(tokens: seq<Token>): Text
  {
    Painted(AllGroups(tokens))
  }

  /** The page `display_block` leaves of a block. */
  function BlockPage(memory: seq<Word32>, n: nat, ink: Screen.Byte): Page
    requires (n + 1) * 256 < |memory|
  {
    Draw(Screen.Cleared(ink), Marks(DisplayFrom(memory, n * 256, (n + 1) * 256)))
  }

  /** What is shown is right in the rows that have not scrolled off: `looks` should stand behind `text`. */
  ghost predicate RightBelow(top: nat, text: Text, shown: Text, looks: Text)
  {
    && |shown| == |looks|
    && forall i :: 0 <= i < |looks| ==> shown[i] == looks[i] || |Screen.Wrap(text + looks[..i])| <= top
  }

  /** One more part keeps that so, if it is in place. */
  lemma GrownRight(top: nat, text: Text, first: string, shown: Text, chunk: string, ink: Screen.Byte)
    requires RightBelow(top, text, shown, Inked(first + " ", ink)) && InPlace(top, text + Inked(first + " ", ink))
    ensures RightBelow(top, text, Grown(text, first, shown, chunk, ink), Inked(first + chunk + " ", ink))
  {
    hide Screen.Wrap, Column;
    var n, looks, more := |first|, Inked(first + " ", ink), Inked(chunk + " ", ink);
    var shown', looks' := Grown(text, first, shown, chunk, ink), Inked(first + chunk + " ", ink);
    assert looks' == looks[..n] + more;
    forall i | 0 <= i < |looks'|
      ensures shown'[i] == looks'[i] || |Screen.Wrap(text + looks'[..i])| <= top
    {
      if i < n {
        assert looks'[..i] == looks[..i];
      } else if i == n && Column(text + looks) == 0 {
        assert looks'[..i] == looks[..n] && text + looks[..n] + [looks[n]] == text + looks;
        BeforeColumn0(text + looks[..n], looks[n]);
      }
    }
  }

  lemma {:induction false} JoinsRight(
    top: nat, text: Text, first: string, shown: Text, chunks: seq<string>, ink: Screen.Byte)
    requires shown != [] && JoinsClean(top, text, first, chunks, ink)
    requires RightBelow(top, text, shown, Inked(first + " ", ink))
    ensures RightBelow(top, text, Spread(text, first, shown, chunks, ink), Inked(first + Join(chunks) + " ", ink))
    decreases |chunks|
  {
    hide *;
    SpreadStep(top, text, first, shown, chunks, ink);
    if chunks == [] {
      JoinNone();
      assert first + "" + " " == first + " ";
    } else {
      GrownRight(top, text, first, shown, chunks[0], ink);
      JoinStep(chunks);
      JoinsRight(top, text, first + chunks[0], Grown(text, first, shown, chunks[0], ink), chunks[1..], ink);
      assert first + chunks[0] + Join(chunks[1..]) + " " == first + (chunks[0] + Join(chunks[1..])) + " ";
    }
  }

  lemma SameIsRight(top: nat, text: Text, looks: Text)
    ensures RightBelow(top, text, looks, looks)
  {
  }

  lemma TokenRight(top: nat, text: Text, t: Token)
    requires WellFormed(t) && TokenClean(top, text, t)
    ensures RightBelow(top, text, TokenActual(text, t), Painted(Groups(t)))
  {
    hide *;
    if IsShownWord(t) {
      WordLooks(top, text, t, 0);
      ShownWordText(t);
      WordParts(t.text);
      var chunks, ink := Chunks(t.text), WordInk(FnTag(t.f));
      SameIsRight(top, text, Inked(chunks[0] + " ", ink));
      JoinsRight(top, text, chunks[0], Inked(chunks[0] + " ", ink), chunks[1..], ink);
      PaintedOne(Group(t.text, ink));
      GroupIs(t.text, ink);
    } else {
      OtherLooks(top, text, t);
      SameIsRight(top, text, Painted(Groups(t)));
    }
  }

  lemma GroupIs(s: string, ink: Screen.Byte)
    ensures PaintedGroup(Group(s, ink)) == Inked(s + " ", ink)
  {
  }

  lemma RightConcat(top: nat, text: Text, a: Text, b: Text, a': Text, b': Text)
    requires RightBelow(top, text, a, b) && RightBelow(top, text + b, a', b')
    ensures RightBelow(top, text, a + a', b + b')
  {
    hide Screen.Wrap;
    forall i | 0 <= i < |b + b'|
      ensures (a + a')[i] == (b + b')[i] || |Screen.Wrap(text + (b + b')[..i])| <= top
    {
      if i < |b| {
        assert (b + b')[..i] == b[..i];
      } else {
        assert text + (b + b')[..i] == text + b + b'[..i - |b|];
      }
    }
  }

  /** A block whose joins are in place is shown as it should be. */
  lemma {:induction false} CleanRight(top: nat, text: Text, tokens: seq<Token>)
    requires AllWellFormed(tokens) && Clean(top, text, tokens)
    ensures RightBelow(top, text, Actual(text, tokens), Painted(AllGroups(tokens)))
    decreases |tokens|
  {
    hide *;
    LooksStep(top, text, tokens);
    if tokens == [] {
      PaintedNone();
      SameIsRight(top, text, []);
    } else {
      var next := text + Painted(Groups(tokens[0]));
      WellFormedParts(tokens);
      TokenRight(top, text, tokens[0]);
      CleanRight(top, next, tokens[1..]);
      PaintedConcat(Groups(tokens[0]), AllGroups(tokens[1..]));
      RightConcat(top, text, TokenActual(text, tokens[0]), Painted(Groups(tokens[0])), Actual(next, tokens[1..]),
        Painted(AllGroups(tokens[1..])));
    }
  }

  lemma AllRight(text: Text, shown: Text, looks: Text)
    requires RightBelow(0, text, shown, looks)
    ensures shown == looks
  {
    hide Screen.Wrap;
  }

  lemma {:induction false} ActualShape(text: Text, tokens: seq<Token>)
    requires AllWellFormed(tokens)
    ensures Screen.SameShape(Actual(text, tokens), Painted(AllGroups(tokens)))
    decreases |tokens|
  {
    hide *;
    LooksStep(0, text, tokens);
    if tokens == [] {
      PaintedNone();
      OwnShape([]);
    } else {
      WellFormedParts(tokens);
      TokenShape(text, tokens[0]);
      var next := text + Painted(Groups(tokens[0]));
      ActualShape(next, tokens[1..]);
      PaintedConcat(Groups(tokens[0]), AllGroups(tokens[1..]));
      SameShapeConcat(TokenActual(text, tokens[0]), Painted(Groups(tokens[0])), Actual(next, tokens[1..]),
        Painted(AllGroups(tokens[1..])));
    }
  }

  /** A character that is lost in a row that stays: a space stands in its place, in column 79. */
  ghost predicate Lost(top: nat, text: Text, shown: Text, looks: Text, i: nat)
  {
    && i < |shown| == |looks|
    && shown[i].character == Screen.SPACE < looks[i].character
    && Column(text + looks[..i]) == Screen.COLUMNS - 1 && |Screen.Wrap(text + looks[..i])| > top
  }

  lemma BeforeColumn0(text: Text, c: Screen.Cell)
    requires Column(text + [c]) == 0 && c.character != Screen.NEWLINE
    ensures Column(text) == Screen.COLUMNS - 1 && |Screen.Wrap(text + [c])| == |Screen.Wrap(text)| + 1
  {
    hide Screen.Wrap;
    Screen.WrapSnoc(text, c);
  }

  /** A part that comes in column 0 loses its first character. */
  lemma {:induction false} JoinLost(
    top: nat, text: Text, first: string, shown: Text, chunks: seq<string>, ink: Screen.Byte) returns (i: nat)
    requires !JoinsClean(top, text, first, chunks, ink)
    requires |shown| == |first| + 1 && NoBreaks(shown) && shown[|first|] == Screen.Cell(Screen.SPACE, ink)
    requires forall i :: 0 <= i < |chunks| ==> chunks[i] != "" && Solid(chunks[i]) && Plain(chunks[i])
    ensures Lost(top, text, Spread(text, first, shown, chunks, ink), Inked(first + Join(chunks) + " ", ink), i)
    decreases |chunks|
  {
    hide *;
    SpreadStep(top, text, first, shown, chunks, ink);
    var shown', rest := Grown(text, first, shown, chunks[0], ink), chunks[1..];
    var looks := first + Join(chunks) + " ";
    JoinStep(chunks);
    GrownParts(text, first, shown, chunks[0], ink);
    GrownLast(text, first, shown, chunks[0], ink);
    assert first + chunks[0] + Join(rest) + " " == looks;
    if InPlace(top, text + Inked(first + " ", ink)) {
      i := JoinLost(top, text, first + chunks[0], shown', rest, ink);
    } else {
      i := |first|;
      SpreadKeeps(text, first + chunks[0], shown', rest, ink);
      SpreadParts(text, first + chunks[0], shown', rest, ink);
      FirstOf(chunks[0]);
      assert looks[i] == chunks[0][0];
      InkedPrefix(first, chunks[0], Join(rest) + " ", ink);
      assert first + chunks[0] + (Join(rest) + " ") == looks;
      assert text + Inked(first, ink) + [Screen.Cell(Screen.SPACE, ink)] == text + Inked(first + " ", ink);
      SpaceIsNoBreak();
      NotInPlace(top, text + Inked(first, ink), Screen.Cell(Screen.SPACE, ink));
      GrownStray(text, first, shown, chunks[0], ink);
      LostIs(top, text, Spread(text, first, shown, chunks, ink), Inked(looks, ink), i);
    }
  }

  lemma NotInPlace(top: nat, text: Text, c: Screen.Cell)
    requires !InPlace(top, text + [c]) && c.character != Screen.NEWLINE
    ensures Column(text + [c]) == 0 && Column(text) == Screen.COLUMNS - 1 && |Screen.Wrap(text)| > top
  {
    BeforeColumn0(text, c);
    hide Screen.Wrap, Column;
  }

  lemma GrownStray(text: Text, first: string, shown: Text, chunk: string, ink: Screen.Byte)
    requires |shown| == |first| + 1 && Column(text + Inked(first + " ", ink)) == 0 && chunk != ""
    ensures Grown(text, first, shown, chunk, ink)[|first|] == shown[|first|]
  {
    hide Column, Inked;
  }

  lemma FirstOf(s: string)
    requires s != "" && Solid(s)
    ensures CharCode(s[0]) > Screen.SPACE
  {
  }

  lemma InkedPrefix(first: string, chunk: string, rest: string, ink: Screen.Byte)
    requires chunk != ""
    ensures var looks := Inked(first + chunk + rest, ink);
            && looks[..|first|] == Inked(first, ink)
            && looks[|first|].character == CharCode(chunk[0])
    ensures Inked(first, ink) + [Screen.Cell(Screen.SPACE, ink)] == Inked(first + " ", ink)
  {
  }

  lemma SpaceIsNoBreak()
    ensures Screen.SPACE != Screen.NEWLINE
  {
  }

  lemma LostIs(top: nat, text: Text, shown: Text, looks: Text, i: nat)
    requires i < |shown| == |looks|
    requires shown[i].character == Screen.SPACE < looks[i].character
    requires Column(text + looks[..i]) == Screen.COLUMNS - 1 && |Screen.Wrap(text + looks[..i])| > top
    ensures Lost(top, text, shown, looks, i)
  {
  }

  lemma TokenLost(top: nat, text: Text, t: Token) returns (i: nat)
    requires WellFormed(t) && !TokenClean(top, text, t)
    ensures Lost(top, text, TokenActual(text, t), Painted(Groups(t)), i)
  {
    hide *;
    assert IsShownWord(t) by {
      if !IsShownWord(t) {
        OtherLooks(top, text, t);
      }
    }
    WordLooks(top, text, t, 0);
    ShownWordText(t);
    WordParts(t.text);
    var chunks, ink := Chunks(t.text), WordInk(FnTag(t.f));
    PlainSpaced(chunks[0]);
    InkedNoBreaks(chunks[0] + " ", ink);
    InkedLast(chunks[0], ink);
    i := JoinLost(top, text, chunks[0], Inked(chunks[0] + " ", ink), chunks[1..], ink);
    PaintedOne(Group(t.text, ink));
    GroupIs(t.text, ink);
  }

  lemma {:induction false} TokensLost(top: nat, text: Text, tokens: seq<Token>) returns (i: nat)
    requires AllWellFormed(tokens) && !Clean(top, text, tokens)
    ensures Lost(top, text, Actual(text, tokens), Painted(AllGroups(tokens)), i)
    decreases |tokens|
  {
    hide *;
    LooksStep(top, text, tokens);
    var t, rest := tokens[0], tokens[1..];
    var a, b := TokenActual(text, t), Painted(Groups(t));
    var a', b' := Actual(text + b, rest), Painted(AllGroups(rest));
    WellFormedParts(tokens);
    PaintedConcat(Groups(t), AllGroups(rest));
    TokenShape(text, t);
    ActualShape(text + b, rest);
    ShapeLength(a, b);
    ShapeLength(a', b');
    if TokenClean(top, text, t) {
      var j := TokensLost(top, text + b, rest);
      i := |b| + j;
      LostBehind(top, text, a, b, a', b', j);
    } else {
      i := TokenLost(top, text, t);
      LostBefore(top, text, a, b, a', b', i);
    }
  }

  lemma ShapeLength(a: Text, b: Text)
    requires Screen.SameShape(a, b)
    ensures |a| == |b|
  {
  }

  lemma LostBefore(top: nat, text: Text, a: Text, b: Text, a': Text, b': Text, i: nat)
    requires |a| == |b| && |a'| == |b'| && Lost(top, text, a, b, i)
    ensures Lost(top, text, a + a', b + b', i)
  {
    hide Column;
    assert (b + b')[..i] == b[..i];
  }

  lemma LostBehind(top: nat, text: Text, a: Text, b: Text, a': Text, b': Text, j: nat)
    requires |a| == |b| && |a'| == |b'| && Lost(top, text + b, a', b', j)
    ensures Lost(top, text, a + a', b + b', |b| + j)
  {
    hide Column;
    assert text + (b + b')[..|b| + j] == text + b + b'[..j];
  }

  // ---------------------------------------------------------------- the screen

  /** What is left of a block whose joins come in any column: the text without the lost characters. */
  lemma BlockDrawn(memory: seq<Word32>, n: nat, tokens: seq<Token>, ink: Screen.Byte)
    requires ShowsBlock(memory, n, tokens)
    ensures (n + 1) * 256 < |memory| && Screen.Agrees(BlockPage(memory, n, ink), Actual([], tokens), true)
  {
    hide *;
    Bounds(memory, n, tokens);
    ShowsTokens(memory, n, tokens);
    DisplayAlignment(memory, n, tokens);
    var p, at, limit := Screen.Cleared(ink), n * 256, (n + 1) * 256;
    var view, pads := View(tokens, at), PadView(at + |BlockCells(tokens)|, limit);
    PageIs(memory, n, ink);
    MarksConcat(view, pads);
    DrawConcat(p, Marks(view), Marks(pads));
    ClearedAgrees(ink);
    OwnShape([]);
    DrawTokens(p, [], [], tokens, at, true);
    assert [] + Actual([], tokens) == Actual([], tokens);
    NothingEnded(ink);
    TokensEnded([], [], tokens, ink);
    DrawPads(Draw(p, Marks(view)), Actual([], tokens), at + |BlockCells(tokens)|, limit);
  }

  lemma Bounds(memory: seq<Word32>, n: nat, tokens: seq<Token>)
    requires ShowsBlock(memory, n, tokens)
    ensures |BlockCells(tokens)| <= 256 && (n + 1) * 256 < |memory|
  {
    hide BlockCells, Padded;
  }

  lemma PageIs(memory: seq<Word32>, n: nat, ink: Screen.Byte)
    requires (n + 1) * 256 < |memory|
    ensures BlockPage(memory, n, ink) == Draw(Screen.Cleared(ink), Marks(DisplayFrom(memory, n * 256, (n + 1) * 256)))
  {
  }

  lemma ClearedAgrees(ink: Screen.Byte)
    ensures Screen.Cleared(ink).ink == ink
    ensures Screen.Agrees(Screen.Cleared(ink), [], true) && Screen.Agrees(Screen.Cleared(ink), [], false)
  {
    Screen.ClearedDisplays(ink);
  }

  lemma NothingEnded(ink: Screen.Byte)
    ensures Ended([], ink)
  {
  }

  /** The block leaves the cursor in column 0 and has cells to fill it up, so that a space goes astray. */
  predicate Strays(tokens: seq<Token>)
    requires AllWellFormed(tokens)
  {
    |BlockCells(tokens)| < 256 && Column(Looks(tokens)) == 0
  }

  lemma BlockPageIs(memory: seq<Word32>, n: nat, tokens: seq<Token>, ink: Screen.Byte) returns (v: Page)
    requires ShowsBlock(memory, n, tokens) && Clean(0, [], tokens)
    ensures Screen.Displays(v, Looks(tokens)) && v.ink == LastInk(AllGroups(tokens), ink)
    ensures (n + 1) * 256 < |memory| && BlockPage(memory, n, ink) == if Strays(tokens) then Strayed(v) else v
  {
    hide *;
    Bounds(memory, n, tokens);
    ShowsTokens(memory, n, tokens);
    DisplayAlignment(memory, n, tokens);
    var p, at, limit := Screen.Cleared(ink), n * 256, (n + 1) * 256;
    var view, pads := View(tokens, at), PadView(at + |BlockCells(tokens)|, limit);
    PageIs(memory, n, ink);
    LooksIs(tokens);
    MarksConcat(view, pads);
    DrawConcat(p, Marks(view), Marks(pads));
    ClearedAgrees(ink);
    OwnShape([]);
    DrawTokens(p, [], [], tokens, at, false);
    CleanRight(0, [], tokens);
    AllRight([], Actual([], tokens), Painted(AllGroups(tokens)));
    assert [] + Looks(tokens) == Looks(tokens);
    NothingEnded(ink);
    TokensEnded([], [], tokens, ink);
    v := Draw(p, Marks(view));
    SettledBehind(v, Looks(tokens));
    DrawPadding(v, at + |BlockCells(tokens)|, limit);
    DisplaysIs(v, Looks(tokens));
  }

  lemma LooksIs(tokens: seq<Token>)
    ensures Looks(tokens) == Painted(AllGroups(tokens))
    ensures AllWellFormed(tokens) ==> (Strays(tokens) <==> |BlockCells(tokens)| < 256 && Column(Looks(tokens)) == 0)
  {
    hide Column, Painted, BlockCells;
  }

  lemma DisplaysIs(p: Page, text: Text)
    requires Screen.Agrees(p, text, false)
    ensures Screen.Displays(p, text)
  {
  }

  /** Behind a text that has ended, away from column 0, there is a space before the cursor. */
  lemma SettledBehind(p: Page, text: Text)
    requires Screen.Agrees(p, text, false) && Ended(text, p.ink)
    ensures Settled(p) && (Column(text) == 0 ==> p.x == 0) && (Column(text) > 0 ==> Strayed(p) == p)
  {
    hide Screen.Wrap;
    ColumnIs(p, text, false);
    if Column(text) > 0 {
      ColumnCharacter(text);
      Screen.CellIndex(Screen.COLUMNS * p.y + p.x - 1, p.y, p.x - 1);
    }
  }

  /**
   * The page shows the last 25 rows of the text, wrapped at column 80, with the cursor behind it, and possibly a space
   * where a character goes astray.
   */
  ghost predicate Leaves(p: Page, text: Text, strays: bool)
  {
    var rows := Screen.Wrap(text);
    && p.x == Screen.CursorX(rows) && p.y == Screen.CursorY(rows)
    && forall k: nat :: k < Screen.CELLS ==>
         p.cells[k] == if strays && k == Screen.StrayAt(p.y) then Screen.Cell(Screen.SPACE, p.ink)
                       else Screen.Shown(rows, k / Screen.COLUMNS, k % Screen.COLUMNS)
  }

  lemma StrayedLeaves(v: Page, text: Text, strays: bool)
    requires Screen.Displays(v, text) && (strays ==> Column(text) == 0)
    ensures Leaves(if strays then Strayed(v) else v, text, strays)
    ensures (if strays then Strayed(v) else v).ink == v.ink
  {
    hide Screen.Wrap, Screen.CursorX, Screen.CursorY, Screen.Shown;
  }

  /**
   * When no part that continues a word comes in column 0, displaying a block leaves what its tokens look like, one
   * after the other; only a cell that fills the block up while the cursor is in column 0 leaves a space astray.
   */
  lemma BlockShown(memory: seq<Word32>, n: nat, tokens: seq<Token>, ink: Screen.Byte)
    requires ShowsBlock(memory, n, tokens) && Clean(0, [], tokens)
    ensures (n + 1) * 256 < |memory|
    ensures Leaves(BlockPage(memory, n, ink), Looks(tokens), Strays(tokens))
    ensures BlockPage(memory, n, ink).ink == LastInk(AllGroups(tokens), ink)
  {
    hide *;
    ShowsTokens(memory, n, tokens);
    var v := BlockPageIs(memory, n, tokens, ink);
    LooksIs(tokens);
    StrayedLeaves(v, Looks(tokens), Strays(tokens));
  }

  /** A stray space is in a blank cell, in a row below the text. */
  lemma StrayBlank(text: Text)
    ensures var rows := Screen.Wrap(text);
            var k := Screen.StrayAt(Screen.CursorY(rows));
            Screen.Shown(rows, k / Screen.COLUMNS, k % Screen.COLUMNS).character == 0
  {
    hide Screen.Wrap;
    var y := Screen.CursorY(Screen.Wrap(text));
    Screen.CellIndex(Screen.StrayAt(y), y + 3, Screen.STRAY_COLUMN);
  }

  /** Every character of the text that has not scrolled off is on the page. */
  ghost predicate ShownRight(p: Page, text: Text)
  {
    var rows := Screen.Wrap(text);
    forall k: nat :: k < Screen.CELLS && Screen.Reached(rows, k / Screen.COLUMNS, k % Screen.COLUMNS) ==>
      p.cells[k] == Screen.Shown(rows, k / Screen.COLUMNS, k % Screen.COLUMNS)
  }

  /** How many rows of a text have scrolled off. */
  function Scrolled(text: Text): nat
  {
    Screen.Top(Screen.Wrap(text))
  }

  /** Where the screen shows a character that has not scrolled off. */
  lemma PlaceShown(text: Text, i: nat) returns (k: nat)
    requires i < |text| && text[i].character != Screen.NEWLINE && |Screen.Wrap(text[..i])| > Scrolled(text)
    ensures k < Screen.CELLS
    ensures k == Screen.COLUMNS * (|Screen.Wrap(text[..i])| - 1 - Scrolled(text)) + Column(text[..i])
    ensures Screen.Reached(Screen.Wrap(text), k / Screen.COLUMNS, k % Screen.COLUMNS)
    ensures Screen.Shown(Screen.Wrap(text), k / Screen.COLUMNS, k % Screen.COLUMNS) == text[i]
  {
    hide Screen.Wrap;
    var rows, before := Screen.Wrap(text), Screen.Wrap(text[..i]);
    Screen.WrapPlace(text, i);
    var y, x := |before| - 1 - Scrolled(text), Column(text[..i]);
    k := Screen.COLUMNS * y + x;
    Screen.CellIndex(k, y, x);
  }

  /** A lost character shows. */
  lemma LostShows(p: Page, shown: Text, looks: Text, i: nat)
    requires Screen.Agrees(p, shown, true) && Screen.SameShape(shown, looks)
    requires Lost(Scrolled(looks), [], shown, looks, i)
    ensures !ShownRight(p, looks)
  {
    hide Screen.Wrap, Screen.CursorX, Screen.Shown, Screen.Reached;
    Screen.ShapeRows(shown, looks);
    Screen.ShapeRows(shown[..i], looks[..i]);
    assert [] + looks[..i] == looks[..i];
    var k := PlaceShown(looks, i);
    var j := PlaceShown(shown, i);
    assert j == k;
    Screen.AgreesAt(p, shown, true, k);
  }

  /** What is right below the rows that have scrolled off is all that the screen shows. */
  lemma RightShows(p: Page, shown: Text, looks: Text)
    requires Screen.Agrees(p, shown, true) && Screen.SameShape(shown, looks)
    requires RightBelow(Scrolled(looks), [], shown, looks)
    ensures ShownRight(p, looks)
  {
    hide Screen.Wrap, Screen.CursorX, Screen.Agrees;
    assert forall i :: 0 <= i < |looks| ==> [] + looks[..i] == looks[..i];
    Screen.RightRows(shown, looks, Scrolled(looks));
    var rows, rows' := Screen.Wrap(looks), Screen.Wrap(shown);
    forall k: nat | k < Screen.CELLS && Screen.Reached(rows, k / Screen.COLUMNS, k % Screen.COLUMNS)
      ensures p.cells[k] == Screen.Shown(rows, k / Screen.COLUMNS, k % Screen.COLUMNS)
    {
      SameBelowCell(rows', rows, k / Screen.COLUMNS, k % Screen.COLUMNS);
      Screen.AgreesAt(p, shown, true, k);
    }
  }

  lemma SameBelowCell(r: seq<Screen.Row>, s: seq<Screen.Row>, y: nat, x: nat)
    requires Screen.SameBelow(r, s, Screen.Top(s)) && Screen.Reached(s, y, x)
    ensures Screen.Reached(r, y, x) && Screen.Shown(r, y, x) == Screen.Shown(s, y, x)
  {
  }

  /**
   * The screen shows every character of a block that has not scrolled off exactly when every part that continues a word
   * is in place: it does not come in column 0, or the row before has scrolled off.
   */
  lemma BlockShownExactly(memory: seq<Word32>, n: nat, tokens: seq<Token>, ink: Screen.Byte)
    requires ShowsBlock(memory, n, tokens)
    ensures (n + 1) * 256 < |memory|
    ensures ShownRight(BlockPage(memory, n, ink), Looks(tokens)) <==> Clean(Scrolled(Looks(tokens)), [], tokens)
  {
    hide *;
    ShowsTokens(memory, n, tokens);
    BlockDrawn(memory, n, tokens, ink);
    ActualShape([], tokens);
    LooksIs(tokens);
    var p, shown, looks := BlockPage(memory, n, ink), Actual([], tokens), Looks(tokens);
    if Clean(Scrolled(looks), [], tokens) {
      CleanRight(Scrolled(looks), [], tokens);
      RightShows(p, shown, looks);
    } else {
      var i := TokensLost(Scrolled(looks), [], tokens);
      LostShows(p, shown, looks, i);
    }
  }
}
