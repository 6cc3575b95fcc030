/** Displaying a converted block shows its tokens: they can be read back, and no value cell is taken for a word. */
module TokenRoundTrip {
  import opened Bits
  import opened Huffman
  import opened Cells
  import opened Packing
  import opened EditorPack
  import opened Converter
  import opened Dictionary
  import opened Display

  lemma RecoverStep(d: Dispatch, rest: seq<Dispatch>, read: seq<Token>)
    ensures Recover([d] + rest, read) == Recover(rest, ReadBack(d.event, read))
  {
    hide ReadBack;
    assert ([d] + rest)[1..] == rest;
  }

  lemma ReadJoined(read: seq<Token>, f: Fn, text: string, more: string)
    ensures ReadBack(Joined(more), read + [WordToken(f, text)]) == read + [WordToken(f, text + more)]
  {
    assert (read + [WordToken(f, text)])[..|read|] == read;
  }

  lemma {:induction false} RecoverJoined(
    chunks: seq<string>, at: nat, rest: seq<Dispatch>, read: seq<Token>, f: Fn, text: string)
    ensures Recover(JoinedView(chunks, at) + rest, read + [WordToken(f, text)])
         == Recover(rest, read + [WordToken(f, text + Join(chunks))])
    decreases |chunks|
  {
    hide Recover, ReadBack;
    if chunks == [] {
      assert JoinedView(chunks, at) + rest == rest;
      assert text + Join(chunks) == text;
    } else {
      var d, tail := Dispatch(at, Joined(chunks[0])), JoinedView(chunks[1..], at + 1) + rest;
      assert JoinedView(chunks, at) + rest == [d] + tail;
      RecoverStep(d, tail, read + [WordToken(f, text)]);
      ReadJoined(read, f, text, chunks[0]);
      assert text + Join(chunks) == text + chunks[0] + Join(chunks[1..]);
      RecoverJoined(chunks[1..], at + 1, rest, read, f, text + chunks[0]);
    }
  }

  lemma RecoverWord(f: Fn, text: string, at: nat, rest: seq<Dispatch>, read: seq<Token>)
    requires text != "" && Packable(text) && f != DisplayMacro
    ensures Recover(TokenView(WordToken(f, text), at) + rest, read) == Recover(rest, read + [WordToken(f, text)])
  {
    hide *;
    FnOfTag(f);
    ViewOfWord(f, text, at);
    ChunksFit(text);
    var chunks := Chunks(text);
    var first, tail := Dispatch(at, Shown(FnTag(f), chunks[0])), JoinedView(chunks[1..], at + 1) + rest;
    assert TokenView(WordToken(f, text), at) + rest == [first] + tail;
    RecoverStep(first, tail, read);
    ReadShown(FnTag(f), chunks[0], read);
    RecoverJoined(chunks[1..], at + 1, rest, read, f, chunks[0]);
    JoinStep(chunks);
  }

  lemma ReadShown(tag: nat, text: string, read: seq<Token>)
    ensures ReadBack(Shown(tag, text), read) == read + [WordToken(FnOf(tag), text)]
  {
    hide FnOf;
  }

  /** The dispatches of a token are read back as the token, its number as far as its cell holds it. */
  lemma RecoverToken(t: Token, at: nat, rest: seq<Dispatch>, read: seq<Token>)
    requires Displayable(t)
    ensures Recover(TokenView(t, at) + rest, read) == Recover(rest, read + [Stored(t)])
  {
    hide Packable, Fits, HexBit, TextCell, Encode, Recover, FnOf, FnTag, Short, Signed;
    match t
    case WordToken(f, text) => RecoverWord(f, text, at, rest, read);
    case NumberToken(f, hex, n) =>
      FnOfTag(f);
      RecoverStep(TokenView(t, at)[0], rest, read);
    case VariableToken(name, value) =>
      RecoverStep(TokenView(t, at)[0], rest, read);
  }

  lemma {:induction false} RecoverView(tokens: seq<Token>, at: nat, rest: seq<Dispatch>, read: seq<Token>)
    requires AllWellFormed(tokens) && forall i :: 0 <= i < |tokens| ==> Displayable(tokens[i])
    ensures Recover(View(tokens, at) + rest, read) == Recover(rest, read + AllStored(tokens))
    decreases |tokens|
  {
    hide Displayable, WellFormed, TokenView, TokenCells, Recover, Stored;
    if tokens == [] {
      assert View(tokens, at) + rest == rest && read + AllStored(tokens) == read;
    } else {
      var next := at + |TokenCells(tokens[0])|;
      assert View(tokens, at) + rest == TokenView(tokens[0], at) + (View(tokens[1..], next) + rest);
      RecoverToken(tokens[0], at, View(tokens[1..], next) + rest, read);
      RecoverView(tokens[1..], next, rest, read + [Stored(tokens[0])]);
      assert read + [Stored(tokens[0])] + AllStored(tokens[1..]) == read + AllStored(tokens);
    }
  }

  /** The dispatches of padding cells. */
  function PadView(at: nat, limit: nat): seq<Dispatch>
    decreases limit - at
  {
    if at >= limit then [] else [Dispatch(at, Joined(""))] + PadView(at + 1, limit)
  }

  lemma ZeroCell()
    ensures Tag(0) == 0 && Text(0) == "" && !TwoCells(0)
    ensures forall next :: EventOf(0, next) == Joined("")
  {
    ZeroText();
    hide Text;
  }

  lemma ZeroText()
    ensures Text(0) == ""
  {
    hide Decode;
    CellParts(0);
    ValZero(TextBits(0));
    EmptyText(TextBits(0));
  }

  lemma EmptyText(b: BitString)
    requires AllZero(b)
    ensures Decode(b) == ""
  {
  }

  lemma {:induction false} DisplayPadding(memory: seq<Word32>, at: nat, limit: nat)
    requires at <= limit < |memory| && forall i :: at <= i < limit ==> memory[i] == 0
    ensures DisplayFrom(memory, at, limit) == PadView(at, limit)
    decreases limit - at
  {
    hide EventOf, TwoCells, Text, Tag;
    if at < limit {
      ZeroCell();
      DisplayPadding(memory, at + 1, limit);
    }
  }

  lemma ReadPadding(read: seq<Token>)
    ensures ReadBack(Joined(""), read) == read
  {
    if read != [] && read[|read| - 1].WordToken? {
      var last := read[|read| - 1];
      assert last.text + "" == last.text;
      assert read == read[..|read| - 1] + [last];
    }
  }

  lemma {:induction false} RecoverPadding(at: nat, limit: nat, read: seq<Token>)
    ensures Recover(PadView(at, limit), read) == read
    decreases limit - at
  {
    hide Recover, ReadBack;
    RecoverNothing(read);
    if at < limit {
      RecoverStep(Dispatch(at, Joined("")), PadView(at + 1, limit), read);
      ReadPadding(read);
      RecoverPadding(at + 1, limit, read);
    }
  }

  lemma RecoverNothing(read: seq<Token>)
    ensures Recover([], read) == read
  {
  }

  /** Block `n` of the memory holds the cells of the tokens, and is not the end of the memory. */
  ghost predicate HoldsBlock(memory: seq<Word32>, n: nat, tokens: seq<Token>)
  {
    && AllWellFormed(tokens)
    && |BlockCells(tokens)| <= 256
    && (n + 1) * 256 < |memory|
    && memory[n * 256..(n + 1) * 256] == Padded(BlockCells(tokens))
  }

  ghost predicate ShowsBlock(memory: seq<Word32>, n: nat, tokens: seq<Token>)
  {
    HoldsBlock(memory, n, tokens) && forall i :: 0 <= i < |tokens| ==> Drawable(tokens[i])
  }

  /** The dispatches of a block: its tokens' from the first cell of each on, then one for each padding cell. */
  lemma DisplayAlignment(memory: seq<Word32>, n: nat, tokens: seq<Token>)
    requires ShowsBlock(memory, n, tokens)
    ensures DisplayFrom(memory, n * 256, (n + 1) * 256) ==
            View(tokens, n * 256) + PadView(n * 256 + |BlockCells(tokens)|, (n + 1) * 256)
  {
    hide Drawable, WellFormed, View, PadView, DisplayFrom, BlockCells;
    var cells, start, limit := BlockCells(tokens), n * 256, (n + 1) * 256;
    var all := memory[start..limit];
    assert all[..|cells|] == memory[start..start + |cells|] == cells;
    DisplayTokens(memory, start, limit, tokens);
    forall i | start + |cells| <= i < limit
      ensures memory[i] == 0
    {
      assert memory[i] == all[i - start];
    }
    DisplayPadding(memory, start + |cells|, limit);
  }

  /**
   * Converting a block and displaying it gives every token back from the arguments of the dispatches: function,
   * hexadecimal flag, text and number, the number as far as its cell holds it.
   */
  lemma DisplayRoundTrip(memory: seq<Word32>, n: nat, tokens: seq<Token>)
    requires HoldsBlock(memory, n, tokens) && forall i :: 0 <= i < |tokens| ==> Displayable(tokens[i])
    ensures Recover(DisplayFrom(memory, n * 256, (n + 1) * 256), []) == AllStored(tokens)
  {
    hide *;
    DisplayableIsDrawable(tokens);
    ShowsIt(memory, n, tokens);
    ShowsTokens(memory, n, tokens);
    DisplayAlignment(memory, n, tokens);
    var pads := PadView(n * 256 + |BlockCells(tokens)|, (n + 1) * 256);
    RecoverView(tokens, n * 256, pads, []);
    RecoverPadding(n * 256 + |BlockCells(tokens)|, (n + 1) * 256, [] + AllStored(tokens));
    assert [] + AllStored(tokens) == AllStored(tokens);
  }

  lemma ShowsIt(memory: seq<Word32>, n: nat, tokens: seq<Token>)
    requires HoldsBlock(memory, n, tokens) && forall i :: 0 <= i < |tokens| ==> Drawable(tokens[i])
    ensures ShowsBlock(memory, n, tokens)
  {
    hide HoldsBlock, Drawable;
  }

  lemma ShowsTokens(memory: seq<Word32>, n: nat, tokens: seq<Token>)
    requires ShowsBlock(memory, n, tokens)
    ensures AllWellFormed(tokens) && forall i :: 0 <= i < |tokens| ==> Drawable(tokens[i])
  {
  }

  /** What has been read stays read, unless it is a word that goes on. */
  lemma {:induction false} RecoverKeeps(shown: seq<Dispatch>, read: seq<Token>, i: nat)
    requires i < |read| && !read[i].WordToken?
    ensures i < |Recover(shown, read)| && Recover(shown, read)[i] == read[i]
    decreases |shown|
  {
    if shown != [] {
      RecoverKeeps(shown[1..], ReadBack(shown[0].event, read), i);
    }
  }

  /** A variable whose name does not fit a cell is shown by the first part of its name. */
  lemma LongNameShown(memory: seq<Word32>, at: nat, limit: nat, t: Token)
    requires t.VariableToken? && WellFormed(t) && !Fits(t.name)
    requires at < limit < |memory| && memory[at] == TokenCells(t)[0]
    ensures DisplayFrom(memory, at, limit) != []
    ensures var event := DisplayFrom(memory, at, limit)[0].event; event.NamedValue? && event.text != t.name
  {
    hide *;
    VariableTokenCells(t.name, t.value);
    LongNameCell(t.name);
    assert TokenCells(t)[0] == WordCells(t.name, FnTag(Variable))[0] by { NamedParts(t); }
    NamedEvent(memory[at]);
    DisplayStep(memory, at, limit);
    assert DisplayFrom(memory, at, limit)[0] == Dispatch(at, EventOf(memory[at], memory[at + 1]));
  }

  lemma NamedParts(t: Token)
    requires t.VariableToken? && WellFormed(t)
    ensures t.name != "" && Packable(t.name) && t == VariableToken(t.name, t.value)
  {
  }

  lemma LongNameCell(name: string)
    requires name != "" && Packable(name) && !Fits(name)
    ensures var cells := WordCells(name, FnTag(Variable));
            cells != [] && Tag(cells[0]) == 12 && Text(cells[0]) != name
  {
    hide Packable, Fits, Text, Chunks;
    WordRoundTrip(name, 12);
    CellTextFits(WordCells(name, 12)[0]);
  }

  /** The first token of a list that is not displayable makes the display differ from the list. */
  lemma LongNameLost(memory: seq<Word32>, n: nat, tokens: seq<Token>, i: nat)
    requires HoldsBlock(memory, n, tokens) && i < |tokens|
    requires forall k :: 0 <= k < i ==> Displayable(tokens[k])
    requires tokens[i].VariableToken? && !Fits(tokens[i].name)
    ensures Recover(DisplayFrom(memory, n * 256, (n + 1) * 256), []) != AllStored(tokens)
  {
    hide *;
    var start, limit := n * 256, (n + 1) * 256;
    var before, t := tokens[..i], tokens[i];
    BlockPrefix(memory, n, tokens, i);
    var at := start + |BlockCells(before)|;
    DisplayableIsDrawable(before);
    DisplayTokens(memory, start, limit, before);
    LongNameShown(memory, at, limit, t);
    var rest := DisplayFrom(memory, at, limit);
    var d := rest[0];
    RecoverView(before, start, rest, []);
    assert rest == [d] + rest[1..] && [] + AllStored(before) == AllStored(before);
    RecoverStep(d, rest[1..], AllStored(before));
    NamedRead(d.event, AllStored(before));
    RecoverKeeps(rest[1..], ReadBack(d.event, AllStored(before)), i);
    StoredName(tokens, i);
  }

  lemma NamedRead(event: Event, read: seq<Token>)
    requires event.NamedValue?
    ensures ReadBack(event, read) == read + [VariableToken(event.text, event.n)]
  {
  }

  lemma StoredName(tokens: seq<Token>, i: nat)
    requires i < |tokens| && tokens[i].VariableToken?
    ensures AllStored(tokens)[i].VariableToken? && AllStored(tokens)[i].name == tokens[i].name
  {
  }

  /** The cells of the first tokens of a block, and the first cell of the next one. */
  lemma BlockPrefix(memory: seq<Word32>, n: nat, tokens: seq<Token>, i: nat)
    requires HoldsBlock(memory, n, tokens) && i < |tokens|
    ensures AllWellFormed(tokens[..i]) && WellFormed(tokens[i])
    ensures var start, cells := n * 256, BlockCells(tokens[..i]);
            && start + |cells| < (n + 1) * 256 < |memory|
            && memory[start..start + |cells|] == cells
            && TokenCells(tokens[i]) != [] && memory[start + |cells|] == TokenCells(tokens[i])[0]
  {
    hide BlockCells, TokenCells, WellFormed;
    var a, b, c := BlockCells(tokens[..i]), TokenCells(tokens[i]), BlockCells(tokens[i + 1..]);
    assert tokens == tokens[..i] + tokens[i..] && tokens[i..] == [tokens[i]] + tokens[i + 1..];
    BlockCellsConcat(tokens[..i], tokens[i..]);
    BlockCellsConcat([tokens[i]], tokens[i + 1..]);
    OneTokenCells(tokens[i]);
    var all := memory[n * 256..(n + 1) * 256];
    assert all[..|a|] == a && all[|a|] == b[0];
    assert all[..|a|] == memory[n * 256..n * 256 + |a|] && all[|a|] == memory[n * 256 + |a|];
  }

  lemma OneTokenCells(t: Token)
    requires WellFormed(t)
    ensures BlockCells([t]) == TokenCells(t) != []
  {
    hide WordCells, Packable, GetTags;
    assert [t][1..] == [];
    if t.WordToken? {
      WordRoundTrip(t.text, 0);
      hide TokenCells;
      WordTokenCells(t.f, t.text);
      SameLength(t.text, FnTag(t.f));
    }
  }

  lemma SameLength(w: string, tag: nat)
    requires tag < 16
    ensures |WordCells(w, tag)| == |WordCells(w, 0)|
  {
  }

  /** Among tokens that show themselves, all are recovered exactly when every variable's name fits a cell. */
  lemma RoundTripExactly(memory: seq<Word32>, n: nat, tokens: seq<Token>)
    requires HoldsBlock(memory, n, tokens) && forall i :: 0 <= i < |tokens| ==> Showable(tokens[i])
    ensures Recover(DisplayFrom(memory, n * 256, (n + 1) * 256), []) == AllStored(tokens) <==>
            forall i :: 0 <= i < |tokens| && tokens[i].VariableToken? ==> Fits(tokens[i].name)
  {
    hide HoldsBlock, Showable, Recover, Fits, AllStored;
    if i: nat :| i < |tokens| && tokens[i].VariableToken? && !Fits(tokens[i].name) {
      var k := FirstLongName(tokens, i);
      LongNameLost(memory, n, tokens, k);
    } else {
      DisplayRoundTrip(memory, n, tokens);
    }
  }

  lemma {:induction false} FirstLongName(tokens: seq<Token>, i: nat) returns (k: nat)
    requires i < |tokens| && tokens[i].VariableToken? && !Fits(tokens[i].name)
    ensures k <= i && tokens[k].VariableToken? && !Fits(tokens[k].name)
    ensures forall j :: 0 <= j < k && tokens[j].VariableToken? ==> Fits(tokens[j].name)
    decreases i
  {
    hide Fits;
    if j: nat :| j < i && tokens[j].VariableToken? && !Fits(tokens[j].name) {
      k := FirstLongName(tokens, j);
    } else {
      k := i;
    }
  }

  /** A word of two cells. */
  lemma DigitChunks()
    ensures Packable("12345") && Chunks("12345") == ["1234", "5"]
  {
    DigitNumerals();
    hide *;
    var w := "12345";
    KnownWord(w, 5);
    KnownWord(w, 4);
    KnownWord(w, 3);
    KnownWord("5", 1);
    assert w[..5] == w && w[..4] == "1234" && w[4..] == "5" && "5"[..1] == "5";
    ShortWordCell("1234");
    ShortWordCell("5");
    LongestIs(w, 1, 4);
    ChunksStep(w, 4);
    FittingWordIsOneChunk("5");
  }

  lemma DigitNumerals()
    ensures Known("12345", 5) && CodeBits("12345", 4) == 28 && CodeBits("12345", 3) == 21
    ensures Known("12345", 4) && Known("12345", 3) && Known("5", 1) && CodeBits("5", 1) == 7
  {
  }

  /** A variable that is not recovered: the display takes the rest of its name for its value. */
  lemma LongNameExample()
    ensures var tokens := [VariableToken("12345", 0)];
            && AllWellFormed(tokens) && Showable(tokens[0])
            && var memory := Padded(BlockCells(tokens)) + [0];
               HoldsBlock(memory, 0, tokens) && Recover(DisplayFrom(memory, 0, 256), []) != AllStored(tokens)
  {
    hide *;
    DigitChunks();
    var t := VariableToken("12345", 0);
    FittingWordIsOneChunk("12345");
    NumberName(t);
    var memory := Padded(BlockCells([t])) + [0];
    assert memory[0..256] == Padded(BlockCells([t]));
    HoldsIt(memory, [t]);
    RoundTripExactly(memory, 0, [t]);
  }

  lemma NumberName(t: Token)
    requires t == VariableToken("12345", 0) && Packable(t.name) && Chunks(t.name) == ["1234", "5"]
    ensures AllWellFormed([t]) && Showable(t)
    ensures |BlockCells([t])| == 3 && |Padded(BlockCells([t]))| == 256
  {
    hide Packable, Chunks, ChunkCells;
    assert [t][1..] == [];
  }

  lemma HoldsIt(memory: seq<Word32>, tokens: seq<Token>)
    requires AllWellFormed(tokens) && |BlockCells(tokens)| <= 256 && |memory| == 257
    requires memory[0..256] == Padded(BlockCells(tokens))
    ensures HoldsBlock(memory, 0, tokens)
  {
    hide AllWellFormed, BlockCells, Padded;
  }

  /** The indices of the value cells of a list of tokens. */
  function ValueCells(tokens: seq<Token>, at: nat): set<nat>
    requires AllWellFormed(tokens)
  {
    if tokens == [] then {} else
      var next := at + |TokenCells(tokens[0])|;
      (if tokens[0].VariableToken? || (tokens[0].NumberToken? && IsLong(tokens[0].f)) then {next - 1} else {})
      + ValueCells(tokens[1..], next)
  }

  lemma {:induction false} JoinedViewIndices(chunks: seq<string>, at: nat)
    ensures forall d :: d in JoinedView(chunks, at) ==> at <= d.index < at + |chunks|
    decreases |chunks|
  {
    if chunks != [] {
      JoinedViewIndices(chunks[1..], at + 1);
    }
  }

  lemma TokenViewIndices(t: Token, at: nat)
    requires Drawable(t)
    ensures TokenView(t, at) != [] && TokenView(t, at)[0].index == at
    ensures forall d :: d in TokenView(t, at) ==> at <= d.index < at + |TokenCells(t)|
    ensures t.VariableToken? || (t.NumberToken? && IsLong(t.f)) ==>
        |TokenCells(t)| == 2 && forall d :: d in TokenView(t, at) ==> d.index == at
  {
    hide Packable, Fits, HexBit, TextCell, Encode, FnTag, Chunks, JoinedView, WordCells, TokenCells, Short, Signed;
    match t
    case WordToken(f, text) => WordViewIndices(f, text, at);
    case NumberToken(_, _, _) => NumberLength(t);
    case VariableToken(name, value) => VariableLength(name, value);
  }

  lemma WordViewIndices(f: Fn, text: string, at: nat)
    requires WellFormed(WordToken(f, text))
    ensures var view := TokenView(WordToken(f, text), at);
            && view != [] && view[0].index == at
            && forall d :: d in view ==> at <= d.index < at + |TokenCells(WordToken(f, text))|
  {
    hide Packable, FnTag, JoinedView, WordCells, TokenCells;
    WordTokenCells(f, text);
    ChunkCount(text, FnTag(f));
    hide Chunks;
    JoinedViewIndices(Chunks(text)[1..], at + 1);
  }

  lemma ChunkCount(text: string, tag: nat)
    requires tag < 16
    ensures |WordCells(text, tag)| == |Chunks(text)| && (text != "" ==> Chunks(text) != [])
  {
  }

  lemma VariableLength(name: string, value: int)
    requires Drawable(VariableToken(name, value))
    ensures |TokenCells(VariableToken(name, value))| == 2
  {
    hide Packable, Fits, TextCell, Encode, TokenCells, Chunks;
    VariableTokenCells(name, value);
    FittingWordIsOneChunk(name);
  }

  lemma NumberLength(t: Token)
    requires t.NumberToken? && WellFormed(t)
    ensures |TokenCells(t)| == if IsLong(t.f) then 2 else 1
  {
    hide GetTags, Short, Signed;
  }

  /** No dispatch of a block starts on a value cell. */
  lemma {:induction false} ValueCellsSkipped(tokens: seq<Token>, at: nat)
    requires AllWellFormed(tokens) && forall i :: 0 <= i < |tokens| ==> Drawable(tokens[i])
    ensures forall k :: k in ValueCells(tokens, at) ==> at < k < at + |BlockCells(tokens)|
    ensures forall d :: d in View(tokens, at) ==>
        at <= d.index < at + |BlockCells(tokens)| && d.index !in ValueCells(tokens, at)
    decreases |tokens|
  {
    hide Drawable, WellFormed, TokenView, TokenCells;
    if tokens != [] {
      TokenViewIndices(tokens[0], at);
      ValueCellsSkipped(tokens[1..], at + |TokenCells(tokens[0])|);
    }
  }

  /** A variable's value is shown in hexadecimal exactly when the 28th code bit of its name, which is shared, is 1. */
  lemma VariableHexFlag(name: string)
    ensures HexBit(TextCell(Encode(name), FnTag(Variable))) <==> Bits.At(Encode(name), 27)
  {
    hide Val, Encode;
    var e := Encode(name);
    var c := TextCell(e, 12);
    TextCellParts(e, 12);
    CellParts(c);
    Pow2Constants();
    Split(TextBits(c), 27);
    LastBit(TextBits(c)[27..]);
  }

  /** Such a name: the variable "rrrrrrr" shows its value in hexadecimal. */
  lemma VariableHexExample()
    ensures Packable("rrrrrrr") && Fits("rrrrrrr") && HexBit(TextCell(Encode("rrrrrrr"), FnTag(Variable)))
  {
    RepeatedNumerals();
    hide *;
    var w := "rrrrrrr";
    KnownWord(w, 7);
    assert w[..7] == w;
    var e := Encode(w);
    OddVal(e);
    VariableHexFlag(w);
    ShortWordCell(w);
    LastAt(e);
  }

  lemma RepeatedNumerals()
    ensures Known("rrrrrrr", 7) && Numeral("rrrrrrr", 7) == 0x1111111 && CodeBits("rrrrrrr", 7) == 28
  {
  }

  lemma OddVal(b: BitString)
    requires b != []
    ensures Val(b) % 2 == if b[|b| - 1] then 1 else 0
  {
  }

  lemma LastAt(b: BitString)
    requires |b| == 28
    ensures Bits.At(b, 27) <==> b[27]
  {
  }

  lemma LastBit(b: BitString)
    requires |b| == 1
    ensures Val(b) == if b[0] then 1 else 0
  {
    assert Val(b[..0]) == 0;
  }
}
