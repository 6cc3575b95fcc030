/** The block display of the editor as a decoder of cells (kernel/colorforth/editor.c). */
module Display {
  import opened Bits
  import opened Huffman
  import opened Cells
  import opened Packing
  import opened EditorPack
  import opened Numbers
  import opened Converter
  import Screen
  import Video

  const GREEN: Screen.Byte := 2
  const RED: Screen.Byte := 4
  const MAGENTA: Screen.Byte := 5
  const BROWN: Screen.Byte := 6
  const BRIGHT_GREEN: Screen.Byte := 10
  const BRIGHT_CYAN: Screen.Byte := 11
  const YELLOW: Screen.Byte := 14
  const BRIGHT_WHITE: Screen.Byte := 15

  /** What one dispatch of `display_word` is about: the arguments of what it prints. */
  datatype Event =
    | Shown(tag: nat, text: string)
    | Joined(text: string)
    | Numeric(tag: nat, hex: bool, n: int)
    | NamedValue(text: string, hex: bool, n: int)
    | NewLine
    | Nothing

  /** A dispatch and the index of the cell it starts on. */
  datatype Dispatch = Dispatch(index: nat, event: Event)

  /** Numbers of 32 bits and variables keep their value in the cell that follows. */
  predicate TwoCells(cell: Word32)
  {
    Tag(cell) == 2 || Tag(cell) == 5 || Tag(cell) == 12
  }

  predicate HexBit(cell: Word32)
  {
    cell / 16 % 2 == 1
  }

  /** What reaches the screen: a change of attributes, a character, or a step back of the cursor. */
  datatype Mark = Attributes(ink: Screen.Byte) | Put(c: char) | Back

  function CharCode(c: char): Screen.Byte
  {
    c as int % 256
  }

  function Drawn(p: Screen.Page, mark: Mark): (q: Screen.Page)
    requires Screen.Proper(p)
    ensures Screen.Proper(q)
  {
    match mark
    case Attributes(ink) => p.(ink := ink)
    case Put(c) => Screen.Typed(p, CharCode(c))
    case Back => Screen.SteppedBack(p)
  }

  /** The page after some marks. */
  function Draw(p: Screen.Page, marks: seq<Mark>): (q: Screen.Page)
    requires Screen.Proper(p)
    ensures Screen.Proper(q)
    decreases |marks|
  {
    if marks == [] then p else Draw(Drawn(p, marks[0]), marks[1..])
  }

  lemma DrawNothing(p: Screen.Page)
    requires Screen.Proper(p)
    ensures Draw(p, []) == p
  {
  }

  lemma DrawOne(p: Screen.Page, mark: Mark)
    requires Screen.Proper(p)
    ensures Draw(p, [mark]) == Drawn(p, mark)
  {
    assert [mark][1..] == [];
  }

  lemma {:induction false} DrawConcat(p: Screen.Page, a: seq<Mark>, b: seq<Mark>)
    requires Screen.Proper(p)
    ensures Draw(p, a + b) == Draw(Draw(p, a), b)
    decreases |a|
  {
    hide Drawn;
    if a == [] {
      assert a + b == b;
    } else {
      assert (a + b)[1..] == a[1..] + b;
      DrawConcat(Drawn(p, a[0]), a[1..], b);
    }
  }

  function Puts(text: string): (marks: seq<Mark>)
  {
    seq(|text|, i requires 0 <= i < |text| => Put(text[i]))
  }

  /** The colour of a word and of a number, which may depend on the base. */
  function WordInk(tag: nat): Screen.Byte
  {
    match tag
    case 1 => YELLOW case 3 => RED case 4 => BRIGHT_GREEN case 7 => BRIGHT_CYAN case _ => BRIGHT_WHITE
  }

  function NumberInk(tag: nat, hex: bool): Screen.Byte
  {
    match tag
    case 2 => BROWN
    case 5 => GREEN
    case 6 => if hex then GREEN else BRIGHT_GREEN
    case 8 => if hex then BROWN else YELLOW
    case _ => BRIGHT_WHITE
  }

  /** What a dispatch emits. */
  function Emission(event: Event): seq<Mark>
  {
    match event
    case Shown(tag, text) => [Attributes(WordInk(tag))] + Puts(text + " ")
    case Joined(text) => [Back] + Puts(text + " ")
    case Numeric(tag, hex, n) => [Attributes(NumberInk(tag, hex))] + Puts(NumberText(n, hex) + " ")
    case NamedValue(text, hex, n) =>
      [Attributes(MAGENTA)] + Puts(text + " ") + [Attributes(BRIGHT_GREEN)] + Puts(NumberText(n, hex) + " ")
    case NewLine => Puts("\n")
    case Nothing => []
  }

  function Marks(shown: seq<Dispatch>): seq<Mark>
  {
    if shown == [] then [] else Emission(shown[0].event) + Marks(shown[1..])
  }

  /** No decimal printing of the most negative integer, which C leaves undefined. */
  predicate Printable(event: Event)
  {
    match event
    case Numeric(_, hex, n) => hex || IsInt32(-n)
    case NamedValue(_, hex, n) => hex || IsInt32(-n)
    case _ => true
  }

  function EventOf(cell: Word32, next: Word32): Event
  {
    var tag := Tag(cell);
    if tag == 0 then Joined(Text(cell))
    else if tag == 2 || tag == 5 then Numeric(tag, HexBit(cell), Signed(next))
    else if tag == 6 || tag == 8 || tag == 15 then Numeric(tag, HexBit(cell), Signed(cell) / 32)
    else if tag == 12 then NamedValue(Text(cell), HexBit(cell), Signed(next))
    else if tag == 13 then Nothing
    else if tag == 14 then NewLine
    else Shown(tag, Text(cell))
  }

  /** The dispatches of the display loop from cell `i` up to `limit`; memory goes on behind the block. */
  function DisplayFrom(memory: seq<Word32>, i: nat, limit: nat): seq<Dispatch>
    requires limit < |memory|
    decreases limit - i
  {
    if i >= limit then [] else
      [Dispatch(i, EventOf(memory[i], memory[i + 1]))]
      + DisplayFrom(memory, if TwoCells(memory[i]) then i + 2 else i + 1, limit)
  }

  class Editor {
    const blocks: seq<Word32>
    const screen: Video.Vga
    var wordIndex: nat
    ghost var shown: seq<Dispatch>

    constructor (memory: seq<Word32>, screen: Video.Vga)
      ensures blocks == memory && this.screen == screen && shown == []
    {
      blocks, this.screen := memory, screen;
      wordIndex, shown := 0, [];
    }

    method Print(text: string)
      requires screen.Valid()
      modifies screen, screen.memory
      ensures screen.Valid() && screen.Current() == Draw(old(screen.Current()), Puts(text))
    {
      hide Drawn, Draw;
      ghost var p := screen.Current();
      DrawNothing(p);
      assert Puts(text)[..0] == [];
      for i := 0 to |text|
        invariant screen.Valid() && screen.Current() == Draw(p, Puts(text)[..i])
      {
        ghost var q := screen.Current();
        screen.DisplayCharacter(CharCode(text[i]));
        DrawnPut(q, text[i]);
        DrawOne(q, Put(text[i]));
        DrawConcat(p, Puts(text)[..i], [Put(text[i])]);
        assert Puts(text)[..i + 1] == Puts(text)[..i] + [Put(text[i])];
      }
      assert Puts(text)[..|text|] == Puts(text);
    }

    /** A text in a colour. */
    method PrintIn(ink: Screen.Byte, text: string)
      requires screen.Valid()
      modifies screen, screen.memory
      ensures screen.Valid() && screen.Current() == Draw(old(screen.Current()), [Attributes(ink)] + Puts(text))
    {
      hide Draw;
      ghost var p := screen.Current();
      screen.SetAttributes(ink);
      DrawOne(p, Attributes(ink));
      DrawConcat(p, [Attributes(ink)], Puts(text));
      Print(text);
    }

    /** `printf("%s ", unpack(word))` in a colour. */
    method PrintWord(ink: Screen.Byte, word: Word32)
      requires screen.Valid()
      modifies screen, screen.memory
      ensures screen.Valid()
      ensures screen.Current() == Draw(old(screen.Current()), [Attributes(ink)] + Puts(Text(word) + " "))
    {
      var text := UnpackedText(word);
      PrintIn(ink, text + " ");
    }

    /** A number of 32 bits in a colour, and a space. */
    method PrintValue(ink: Screen.Byte, n: int, hex: bool)
      requires IsInt32(n) && (hex || IsInt32(-n)) && screen.Valid()
      modifies screen, screen.memory
      ensures screen.Valid()
      ensures screen.Current() == Draw(old(screen.Current()), [Attributes(ink)] + Puts(NumberText(n, hex) + " "))
    {
      var text;
      if hex {
        text := PrintHex(Unsigned(n));
      } else {
        text := PrintDec(n);
      }
      PrintIn(ink, text + " ");
    }

    /** `print_number` in a colour. */
    method PrintShort(ink: Screen.Byte, word: Word32, hex: bool)
      requires screen.Valid()
      modifies screen, screen.memory
      ensures screen.Valid()
      ensures screen.Current() ==
          Draw(old(screen.Current()), [Attributes(ink)] + Puts(NumberText(Signed(word) / 32, hex) + " "))
    {
      var text := PrintNumber(word, hex);
      PrintIn(ink, text);
    }

    /** The text of an extension cell, over the last character. */
    method PrintJoined(word: Word32)
      requires screen.Valid()
      modifies screen, screen.memory
      ensures screen.Valid() && screen.Current() == Draw(old(screen.Current()), [Back] + Puts(Text(word) + " "))
    {
      hide Draw;
      ghost var p := screen.Current();
      screen.UpdatePosition(-1, 0);
      DrawOne(p, Back);
      var text := UnpackedText(word);
      DrawConcat(p, [Back], Puts(text + " "));
      Print(text + " ");
    }

    /** The name of a variable, and its value from the next cell. */
    method PrintNamed(word: Word32)
      requires wordIndex + 1 < |blocks| && screen.Valid()
      requires var n := Signed(blocks[wordIndex + 1]); IsInt32(n) && (word / 16 % 2 == 1 || IsInt32(-n))
      modifies this`wordIndex, screen, screen.memory
      ensures screen.Valid() && wordIndex == old(wordIndex) + 1
      ensures screen.Current() == Draw(old(screen.Current()),
          [Attributes(MAGENTA)] + Puts(Text(word) + " ") + ([Attributes(BRIGHT_GREEN)]
          + Puts(NumberText(Signed(blocks[old(wordIndex) + 1]), word / 16 % 2 == 1) + " ")))
    {
      hide *;
      ghost var p := screen.Current();
      PrintWord(MAGENTA, word);
      wordIndex := wordIndex + 1;
      PrintValue(BRIGHT_GREEN, Signed(blocks[wordIndex]), word / 16 % 2 == 1);
      DrawConcat(p, [Attributes(MAGENTA)] + Puts(Text(word) + " "), [Attributes(BRIGHT_GREEN)]
        + Puts(NumberText(Signed(blocks[wordIndex]), word / 16 % 2 == 1) + " "));
    }

    /** `display_word`: a value cell is fetched by advancing the global index. */
    method DisplayWord(word: Word32)
      requires wordIndex + 1 < |blocks| && word == blocks[wordIndex] && screen.Valid()
      requires Printable(EventOf(word, blocks[wordIndex + 1]))
      modifies this`wordIndex, this`shown, screen, screen.memory
      ensures shown == old(shown) + [Dispatch(old(wordIndex), EventOf(word, blocks[old(wordIndex) + 1]))]
      ensures screen.Valid()
      ensures screen.Current() == Draw(old(screen.Current()), Emission(EventOf(word, blocks[old(wordIndex) + 1])))
      ensures wordIndex == old(wordIndex) + if TwoCells(word) then 1 else 0
    {
      hide *;
      var color := word % 16;
      EmissionOf(word, blocks[wordIndex + 1]);
      PrintableOf(word, blocks[wordIndex + 1]);
      ghost var p := screen.Current();
      DrawNothing(p);
      shown := shown + [Dispatch(wordIndex, EventOf(word, blocks[wordIndex + 1]))];
      match color {
        case 0 => PrintJoined(word);
        case 1 => PrintWord(YELLOW, word);
        case 2 =>
          wordIndex := wordIndex + 1;
          PrintValue(BROWN, Signed(blocks[wordIndex]), word / 16 % 2 == 1);
        case 3 => PrintWord(RED, word);
        case 4 => PrintWord(BRIGHT_GREEN, word);
        case 5 =>
          wordIndex := wordIndex + 1;
          PrintValue(GREEN, Signed(blocks[wordIndex]), word / 16 % 2 == 1);
        case 6 =>
          var hex := word / 16 % 2 == 1;
          PrintShort(if hex then GREEN else BRIGHT_GREEN, word, hex);
        case 7 => PrintWord(BRIGHT_CYAN, word);
        case 8 =>
          var hex := word / 16 % 2 == 1;
          PrintShort(if hex then BROWN else YELLOW, word, hex);
        case 12 => PrintNamed(word);
        case 14 => Print("\n");
        case 15 => PrintShort(BRIGHT_WHITE, word, word / 16 % 2 == 1);
        case 13 =>
        case _ => PrintWord(BRIGHT_WHITE, word);
      }
    }

    /** `display_block` for block `n`. */
    method DisplayBlock(n: nat)
      requires (n + 1) * 256 < |blocks| && screen.Valid()
      requires forall d :: d in DisplayFrom(blocks, n * 256, (n + 1) * 256) ==> Printable(d.event)
      modifies this`wordIndex, this`shown, screen, screen.memory
      ensures shown == DisplayFrom(blocks, n * 256, (n + 1) * 256) && screen.Valid()
      ensures screen.Current() == Draw(Screen.Cleared(old(screen.attributes)), Marks(shown))
    {
      hide *;
      var start, limit := n * 256, (n + 1) * 256;
      ghost var all := DisplayFrom(blocks, start, limit);
      screen.Clear();
      ghost var p := screen.Current();
      shown := [];
      MarksNone();
      DrawNothing(p);
      wordIndex := start;
      while wordIndex < limit
        invariant start <= wordIndex <= limit + 1 && screen.Valid()
        invariant shown + DisplayFrom(blocks, wordIndex, limit) == all
        invariant screen.Current() == Draw(p, Marks(shown))
        decreases limit - wordIndex
      {
        ghost var d := Dispatch(wordIndex, EventOf(blocks[wordIndex], blocks[wordIndex + 1]));
        DisplayStep(blocks, wordIndex, limit);
        assert d == all[|shown|];
        MarksSnoc(shown, d);
        DrawConcat(p, Marks(shown), Emission(d.event));
        DisplayWord(blocks[wordIndex]);
        wordIndex := wordIndex + 1;
      }
      DisplayEnd(blocks, wordIndex, limit);
    }
  }

  lemma DrawnPut(p: Screen.Page, c: char)
    requires Screen.Proper(p)
    ensures Drawn(p, Put(c)) == Screen.Typed(p, CharCode(c))
  {
  }

  lemma PrintableOf(word: Word32, next: Word32)
    requires Printable(EventOf(word, next))
    ensures word % 16 in {2, 5, 12} && !(word / 16 % 2 == 1) ==> IsInt32(-Signed(next))
    ensures IsInt32(Signed(next)) && IsInt32(Signed(word) / 32)
    ensures TwoCells(word) <==> word % 16 in {2, 5, 12}
  {
    hide Signed, Text;
    SignedRange(word);
    SignedRange(next);
  }

  lemma EmissionOf(word: Word32, next: Word32)
    ensures Emission(EventOf(word, next)) ==
            var color, hex := word % 16, word / 16 % 2 == 1;
            var text, value := Puts(Text(word) + " "), Puts(NumberText(Signed(next), hex) + " ");
            var short := Puts(NumberText(Signed(word) / 32, hex) + " ");
            match color
            case 0 => [Back] + text
            case 1 => [Attributes(YELLOW)] + text
            case 2 => [Attributes(BROWN)] + value
            case 3 => [Attributes(RED)] + text
            case 4 => [Attributes(BRIGHT_GREEN)] + text
            case 5 => [Attributes(GREEN)] + value
            case 6 => [Attributes(if hex then GREEN else BRIGHT_GREEN)] + short
            case 7 => [Attributes(BRIGHT_CYAN)] + text
            case 8 => [Attributes(if hex then BROWN else YELLOW)] + short
            case 12 => [Attributes(MAGENTA)] + text + ([Attributes(BRIGHT_GREEN)] + value)
            case 13 => []
            case 14 => Puts("\n")
            case 15 => [Attributes(BRIGHT_WHITE)] + short
            case _ => [Attributes(BRIGHT_WHITE)] + text
  {
    hide Text, Signed, Puts, NumberText;
  }

  /** Compiler feedback is not shown, and a macro ends the line. */
  lemma FeedbackAndMacro(p: Screen.Page, word: Word32, next: Word32)
    requires Screen.Proper(p)
    ensures Tag(word) == 13 ==> Draw(p, Emission(EventOf(word, next))) == p
    ensures Tag(word) == 14 ==> Draw(p, Emission(EventOf(word, next))) == Screen.Typed(p, 10)
  {
    hide *;
    SilentEmission(word, next);
    DrawNothing(p);
    DrawOne(p, Put('\n'));
    DrawnPut(p, '\n');
  }

  lemma SilentEmission(word: Word32, next: Word32)
    ensures Tag(word) == 13 ==> Emission(EventOf(word, next)) == []
    ensures Tag(word) == 14 ==> Emission(EventOf(word, next)) == [Put('\n')]
    ensures CharCode('\n') == 10
  {
    hide Text, Signed, NumberText, Tag;
  }

  /** The characters of `unpack`, up to the terminator. */
  method UnpackedText(word: Word32) returns (text: string)
    ensures text == Text(word)
  {
    hide Text;
    NoTerminator(word);
    var buffer := new char[16];
    EditorPack.Unpack(buffer, word);
    var i := 0;
    assert buffer[..][|Text(word)|] == '\0';
    while buffer[i] != '\0'
      invariant i <= |Text(word)| <= 7
      decreases 16 - i
    {
      i := i + 1;
    }
    assert buffer[..][i] == '\0';
    text := buffer[..i];
  }

  lemma NoTerminator(word: Word32)
    ensures '\0' !in Text(word)
  {
    hide Text, Index;
    CellTextFits(word);
    NotTheTerminator('\0');
  }

  lemma SignedRange(w: Word32)
    ensures IsInt32(Signed(w))
  {
  }

  lemma MarksNone()
    ensures Marks([]) == []
  {
  }

  lemma {:induction false} MarksConcat(a: seq<Dispatch>, b: seq<Dispatch>)
    ensures Marks(a + b) == Marks(a) + Marks(b)
  {
    hide Emission;
    if a == [] {
      assert a + b == b;
    } else {
      assert (a + b)[1..] == a[1..] + b;
      MarksConcat(a[1..], b);
    }
  }

  lemma MarksSnoc(shown: seq<Dispatch>, d: Dispatch)
    ensures Marks(shown + [d]) == Marks(shown) + Emission(d.event)
  {
    hide Emission;
    MarksConcat(shown, [d]);
    assert [d][1..] == [];
  }

  lemma DisplayStep(memory: seq<Word32>, at: nat, limit: nat)
    requires at < limit < |memory|
    ensures DisplayFrom(memory, at, limit) ==
            [Dispatch(at, EventOf(memory[at], memory[at + 1]))]
            + DisplayFrom(memory, at + 1 + if TwoCells(memory[at]) then 1 else 0, limit)
  {
    hide EventOf, TwoCells;
  }

  lemma DisplayEnd(memory: seq<Word32>, at: nat, limit: nat)
    requires limit < |memory| && limit <= at
    ensures DisplayFrom(memory, at, limit) == []
  {
  }

  /** The function with a given tag. */
  function FnOf(tag: nat): Fn
  {
    match tag
    case 1 => Execute case 2 => ExecuteLong case 3 => Define case 4 => CompileWord
    case 5 => CompileLong case 6 => CompileShort case 7 => CompileMacro case 8 => ExecuteShort
    case 9 => PlainText case 10 => TextCapitalized case 11 => TextAllCaps case 12 => Variable
    case 13 => CompilerFeedback case 14 => DisplayMacro case 15 => CommentedNumber case _ => Extension
  }

  lemma FnOfTag(f: Fn)
    ensures FnOf(FnTag(f)) == f
  {
  }

  /**
   * Reading the arguments of the dispatches back: joined text continues the word before it, and is ignored behind
   * anything else.
   */
  function ReadBack(event: Event, read: seq<Token>): seq<Token>
  {
    match event
    case Shown(tag, text) => read + [WordToken(FnOf(tag), text)]
    case Joined(text) =>
      if read != [] && read[|read| - 1].WordToken?
      then read[..|read| - 1] + [WordToken(read[|read| - 1].f, read[|read| - 1].text + text)]
      else read
    case Numeric(tag, hex, n) => read + [NumberToken(FnOf(tag), hex, n)]
    case NamedValue(text, _, n) => read + [VariableToken(text, n)]
    case _ => read
  }

  function Recover(shown: seq<Dispatch>, read: seq<Token>): seq<Token>
  {
    if shown == [] then read else Recover(shown[1..], ReadBack(shown[0].event, read))
  }

  /**
   * Tokens that the display shows one after the other: no extension and no feedback, and macro lines and variables
   * named in one cell. Of a longer name of a variable the display takes the second cell for the value.
   */
  predicate Drawable(t: Token)
  {
    && WellFormed(t)
    && (t.WordToken? ==> t.f !in {Extension, CompilerFeedback} && (t.f == DisplayMacro ==> Fits(t.text)))
    && (t.VariableToken? ==> Fits(t.name))
  }

  /** Tokens whose own text or number is shown; of a macro line only the end of the line is. */
  predicate Showable(t: Token)
  {
    WellFormed(t) && (t.WordToken? ==> t.f !in {Extension, CompilerFeedback, DisplayMacro})
  }

  predicate Displayable(t: Token)
  {
    Showable(t) && (t.VariableToken? ==> Fits(t.name))
  }

  lemma DisplayableIsDrawable(tokens: seq<Token>)
    requires forall i :: 0 <= i < |tokens| ==> Displayable(tokens[i])
    ensures forall i :: 0 <= i < |tokens| ==> Drawable(tokens[i])
  {
    hide Fits, WellFormed;
  }

  /** The dispatches of one token whose cells start at `at`: one for each cell of its text, none for a value cell. */
  function TokenView(t: Token, at: nat): seq<Dispatch>
  {
    match t
    case WordToken(f, text) =>
      if text == "" then []
      else if f == DisplayMacro then [Dispatch(at, NewLine)]
      else
        [Dispatch(at, Shown(FnTag(f), Chunks(text)[0]))] + JoinedView(Chunks(text)[1..], at + 1)
    case NumberToken(f, hex, _) => [Dispatch(at, Numeric(FnTag(f), hex, Stored(t).n))]
    case VariableToken(name, _) =>
      [Dispatch(at, NamedValue(name, HexBit(TextCell(Encode(name), FnTag(Variable))), Stored(t).value))]
  }

  function JoinedView(chunks: seq<string>, at: nat): seq<Dispatch>
  {
    if chunks == [] then [] else [Dispatch(at, Joined(chunks[0]))] + JoinedView(chunks[1..], at + 1)
  }

  function View(tokens: seq<Token>, at: nat): seq<Dispatch>
    requires AllWellFormed(tokens)
  {
    if tokens == [] then [] else TokenView(tokens[0], at) + View(tokens[1..], at + |TokenCells(tokens[0])|)
  }

  lemma TextEvent(w: string, tag: nat)
    requires Packable(w) && Fits(w) && tag in {0, 1, 3, 4, 7, 9, 10, 11}
    ensures var cell := TextCell(Encode(w), tag);
            !TwoCells(cell) && forall next :: EventOf(cell, next) == if tag == 0 then Joined(w) else Shown(tag, w)
  {
    hide Text, Tag, TextCell, Encode, Packable, Fits, Signed;
    TextOfFitting(w, tag);
    TextCellParts(Encode(w), tag);
  }

  lemma {:induction false} JoinedCells(memory: seq<Word32>, at: nat, limit: nat, chunks: seq<string>)
    requires at + |chunks| <= limit < |memory|
    requires forall i :: 0 <= i < |chunks| ==> Packable(chunks[i]) && Fits(chunks[i])
    requires memory[at..at + |chunks|] == ChunkCells(chunks, 0)
    ensures DisplayFrom(memory, at, limit) == JoinedView(chunks, at) + DisplayFrom(memory, at + |chunks|, limit)
    decreases |chunks|
  {
    hide *;
    JoinedParts(chunks, at);
    if chunks != [] {
      TextEvent(chunks[0], 0);
      FirstChunkCell(chunks, 0);
      assert memory[at..at + |chunks|][0] == memory[at];
      DisplayStep(memory, at, limit);
      assert memory[at + 1..at + |chunks|] == memory[at..at + |chunks|][1..];
      JoinedCells(memory, at + 1, limit, chunks[1..]);
    }
  }

  lemma JoinedParts(chunks: seq<string>, at: nat)
    ensures JoinedView(chunks, at) ==
            if chunks == [] then [] else [Dispatch(at, Joined(chunks[0]))] + JoinedView(chunks[1..], at + 1)
  {
  }

  lemma Slice(memory: seq<Word32>, at: nat, cells: seq<Word32>)
    requires cells != [] && at + |cells| <= |memory| && memory[at..at + |cells|] == cells
    ensures memory[at] == cells[0]
    ensures memory[at + 1..at + |cells|] == cells[1..]
    ensures |cells| > 1 ==> memory[at + 1] == cells[1]
  {
    assert memory[at..at + |cells|][0] == memory[at];
    assert |cells| > 1 ==> memory[at..at + |cells|][1] == memory[at + 1];
  }

  lemma WordViewParts(f: Fn, text: string, at: nat)
    requires text != "" && Packable(text) && f != DisplayMacro && FnTag(f) in {1, 3, 4, 7, 9, 10, 11}
    ensures var chunks, cells := Chunks(text), WordCells(text, FnTag(f));
            && chunks != [] && |cells| == |chunks| && cells[1..] == ChunkCells(chunks[1..], 0)
            && !TwoCells(cells[0])
            && (forall next :: EventOf(cells[0], next) == Shown(FnTag(f), chunks[0]))
            && TokenView(WordToken(f, text), at) ==
               [Dispatch(at, Shown(FnTag(f), chunks[0]))] + JoinedView(chunks[1..], at + 1)
  {
    hide *;
    var tag := FnTag(f);
    ChunksFit(text);
    WordCellParts(text, tag);
    TextEvent(Chunks(text)[0], tag);
    ViewOfWord(f, text, at);
    WordTags(tag);
  }

  lemma WordCellParts(text: string, tag: nat)
    requires text != "" && tag < 16
    ensures var chunks, cells := Chunks(text), WordCells(text, tag);
            && chunks != [] && |cells| == |chunks|
            && cells[0] == TextCell(Encode(chunks[0]), tag) && cells[1..] == ChunkCells(chunks[1..], 0)
  {
    hide *;
    CellsOfWord(text, tag);
    FirstChunkCell(Chunks(text), tag);
  }

  lemma CellsOfWord(text: string, tag: nat)
    requires text != "" && tag < 16
    ensures Chunks(text) != [] && WordCells(text, tag) == ChunkCells(Chunks(text), tag)
  {
    hide ChunkCells, Longest, Fits;
  }

  lemma ViewOfWord(f: Fn, text: string, at: nat)
    requires text != "" && f != DisplayMacro
    ensures Chunks(text) != []
    ensures TokenView(WordToken(f, text), at) ==
            [Dispatch(at, Shown(FnTag(f), Chunks(text)[0]))] + JoinedView(Chunks(text)[1..], at + 1)
  {
    hide FnTag, JoinedView, Longest, Fits;
  }

  lemma WordTags(tag: nat)
    requires tag in {1, 3, 4, 7, 9, 10, 11}
    ensures tag != 0 && tag < 16 && tag in {0, 1, 3, 4, 7, 9, 10, 11}
  {
  }

  lemma DisplayWordToken(memory: seq<Word32>, at: nat, limit: nat, f: Fn, text: string)
    requires text != "" && Packable(text) && f != DisplayMacro && FnTag(f) in {1, 3, 4, 7, 9, 10, 11}
    requires at + |WordCells(text, FnTag(f))| <= limit < |memory|
    requires memory[at..at + |WordCells(text, FnTag(f))|] == WordCells(text, FnTag(f))
    ensures DisplayFrom(memory, at, limit) ==
            TokenView(WordToken(f, text), at) + DisplayFrom(memory, at + |WordCells(text, FnTag(f))|, limit)
  {
    hide *;
    WordViewParts(f, text, at);
    Slice(memory, at, WordCells(text, FnTag(f)));
    DisplayStep(memory, at, limit);
    JoinedRest(memory, at + 1, limit, text);
  }

  lemma JoinedRest(memory: seq<Word32>, at: nat, limit: nat, text: string)
    requires text != "" && Packable(text) && Chunks(text) != []
    requires at + |Chunks(text)| - 1 <= limit < |memory|
    requires memory[at..at + |Chunks(text)| - 1] == ChunkCells(Chunks(text)[1..], 0)
    ensures DisplayFrom(memory, at, limit) ==
            JoinedView(Chunks(text)[1..], at) + DisplayFrom(memory, at + |Chunks(text)| - 1, limit)
  {
    hide *;
    ChunksFit(text);
    JoinedCells(memory, at, limit, Chunks(text)[1..]);
  }

  lemma ShortEvent(c: Word32)
    requires Tag(c) in {6, 8, 15}
    ensures !TwoCells(c) && forall next :: EventOf(c, next) == Numeric(Tag(c), HexBit(c), Signed(c) / 32)
  {
    hide Tag, HexBit, Signed, Text;
  }

  lemma LongEvent(c: Word32)
    requires Tag(c) in {2, 5}
    ensures TwoCells(c) && forall next :: EventOf(c, next) == Numeric(Tag(c), HexBit(c), Signed(next))
  {
    hide Tag, HexBit, Signed, Text;
  }

  lemma NamedEvent(c: Word32)
    requires Tag(c) == 12
    ensures TwoCells(c) && forall next :: EventOf(c, next) == NamedValue(Text(c), HexBit(c), Signed(next))
  {
    hide Tag, HexBit, Signed, Text;
  }

  /** The cells of a token that is shown by one dispatch, and what that dispatch is about. */
  ghost predicate ShownByOne(cells: seq<Word32>, event: Event)
  {
    && cells != [] && |cells| == (if TwoCells(cells[0]) then 2 else 1)
    && forall next :: |cells| == 1 || next == cells[1] ==> EventOf(cells[0], next) == event
  }

  lemma DisplayOne(memory: seq<Word32>, at: nat, limit: nat, cells: seq<Word32>, event: Event)
    requires ShownByOne(cells, event)
    requires at + |cells| <= limit < |memory| && memory[at..at + |cells|] == cells
    ensures DisplayFrom(memory, at, limit) == [Dispatch(at, event)] + DisplayFrom(memory, at + |cells|, limit)
  {
    hide EventOf, TwoCells, DisplayFrom;
    Slice(memory, at, cells);
    DisplayStep(memory, at, limit);
  }

  lemma NumberCells(t: Token)
    requires t.NumberToken? && WellFormed(t)
    ensures ShownByOne(TokenCells(t), Numeric(FnTag(t.f), t.hex, Stored(t).n))
  {
    hide EventOf, TwoCells, Signed, GetTags, Short;
    var name: Name := Name(t.f, t.hex);
    if IsShort(t.f) {
      ShortCellParts(name, t.n);
      hide ShortCell;
      ShortEvent(ShortCell(name, t.n));
    } else {
      LongTags(name);
      LongEvent(GetTags(name));
    }
  }

  lemma LongTags(name: Name)
    ensures Tag(GetTags(name)) == FnTag(name.f) && HexBit(GetTags(name)) == name.hex
  {
  }

  lemma VariableCells(t: Token)
    requires t.VariableToken? && Drawable(t)
    ensures ShownByOne(TokenCells(t), NamedValue(t.name, HexBit(TextCell(Encode(t.name), 12)), Stored(t).value))
  {
    hide *;
    var c := TextCell(Encode(t.name), 12);
    NamedCell(t);
    FittingWordIsOneChunk(t.name);
    TextOfFitting(t.name, 12);
    TextCellParts(Encode(t.name), 12);
    NamedEvent(c);
    NamedShown(c, t);
    assert TokenCells(t) == [c, Unsigned(t.value)];
  }

  lemma MacroCells(t: Token)
    requires t.WordToken? && t.f == DisplayMacro && Drawable(t)
    ensures ShownByOne(TokenCells(t), NewLine)
  {
    hide Packable, Fits, TextCell, Encode, Tag;
    FittingWordIsOneChunk(t.text);
    TextCellParts(Encode(t.text), 14);
    WordTokenCells(t.f, t.text);
    NewLineEvent(TextCell(Encode(t.text), 14));
  }

  lemma NewLineEvent(c: Word32)
    requires Tag(c) == 14
    ensures ShownByOne([c], NewLine)
  {
    hide Tag, Text;
  }

  lemma NamedCell(t: Token)
    requires t.VariableToken? && Drawable(t)
    ensures WellFormed(t) && t.name != "" && Packable(t.name) && Fits(t.name)
    ensures TokenCells(t) == WordCells(t.name, 12) + [Unsigned(t.value)]
    ensures Stored(t).VariableToken? && Stored(t).value == Signed(Unsigned(t.value))
  {
    hide Packable, Fits;
  }

  lemma NamedShown(c: Word32, t: Token)
    requires TwoCells(c) && t.VariableToken?
    requires forall next :: EventOf(c, next) == NamedValue(t.name, HexBit(c), Signed(next))
    ensures ShownByOne([c, Unsigned(t.value)], NamedValue(t.name, HexBit(c), Signed(Unsigned(t.value))))
  {
    hide EventOf, TwoCells, HexBit, Signed;
  }

  lemma DisplayToken(memory: seq<Word32>, at: nat, limit: nat, t: Token)
    requires Drawable(t)
    requires at + |TokenCells(t)| <= limit < |memory|
    requires memory[at..at + |TokenCells(t)|] == TokenCells(t)
    ensures DisplayFrom(memory, at, limit) == TokenView(t, at) + DisplayFrom(memory, at + |TokenCells(t)|, limit)
  {
    hide *;
    TokenLooks(t, at);
    match t
    case WordToken(f, text) =>
      if f == DisplayMacro {
        MacroCells(t);
        DisplayOne(memory, at, limit, TokenCells(t), NewLine);
      } else {
        DisplayWordToken(memory, at, limit, f, text);
      }
    case NumberToken(f, hex, n) =>
      NumberCells(t);
      DisplayOne(memory, at, limit, TokenCells(t), Numeric(FnTag(f), hex, Stored(t).n));
    case VariableToken(name, _) =>
      VariableCells(t);
      var hex := HexBit(TextCell(Encode(name), 12));
      DisplayOne(memory, at, limit, TokenCells(t), NamedValue(name, hex, Stored(t).value));
  }

  /** What the view of a token is, for each kind of token. */
  lemma TokenLooks(t: Token, at: nat)
    requires Drawable(t)
    ensures WellFormed(t)
    ensures match t
            case WordToken(f, text) =>
              && text != "" && Packable(text) && TokenCells(t) == WordCells(text, FnTag(f))
              && (if f == DisplayMacro then TokenView(t, at) == [Dispatch(at, NewLine)]
                  else FnTag(f) in {1, 3, 4, 7, 9, 10, 11})
            case NumberToken(f, hex, _) =>
              Stored(t).NumberToken? && TokenView(t, at) == [Dispatch(at, Numeric(FnTag(f), hex, Stored(t).n))]
            case VariableToken(name, _) =>
              Stored(t).VariableToken? && TokenView(t, at) ==
                [Dispatch(at, NamedValue(name, HexBit(TextCell(Encode(name), 12)), Stored(t).value))]
  {
    hide WordCells, TextCell, Encode, HexBit, Packable, Fits, JoinedView, Chunks, Short, Signed;
  }

  lemma {:induction false} DisplayTokens(memory: seq<Word32>, at: nat, limit: nat, tokens: seq<Token>)
    requires AllWellFormed(tokens) && forall i :: 0 <= i < |tokens| ==> Drawable(tokens[i])
    requires at + |BlockCells(tokens)| <= limit < |memory|
    requires memory[at..at + |BlockCells(tokens)|] == BlockCells(tokens)
    ensures DisplayFrom(memory, at, limit) == View(tokens, at) + DisplayFrom(memory, at + |BlockCells(tokens)|, limit)
    decreases |tokens|
  {
    hide DisplayFrom, TokenView, Drawable, WellFormed, TokenCells;
    if tokens != [] {
      var cells, rest := TokenCells(tokens[0]), BlockCells(tokens[1..]);
      var all := memory[at..at + |cells + rest|];
      assert all[..|cells|] == memory[at..at + |cells|];
      assert all[|cells|..] == memory[at + |cells|..at + |cells| + |rest|];
      DisplayToken(memory, at, limit, tokens[0]);
      DisplayTokens(memory, at + |cells|, limit, tokens[1..]);
    }
  }
}
