/** The built-in words and the dictionary that finds them by packed name (kernel/colorforth/compiler.c). */
module Dictionary {
  import opened Bits
  import opened Huffman
  import opened Cells
  import opened Options
  import opened EditorPack

  datatype Builtin = Comma | Load | Loads | Forth | Macro | Dot | Add | Divide

  datatype Entry = Entry(name: Word32, code: Option<Builtin>)

  /** The entry that ends a dictionary, also the answer for a word not found. */
  const END := Entry(0, None)

  const FORTH_DICTIONARY: seq<Entry> := [
    Entry(0xfc000000, Some(Comma)),
    Entry(0xa1ae0000, Some(Load)),
    Entry(0xa1ae0800, Some(Loads)),
    Entry(0xb1896400, Some(Forth)),
    Entry(0x8ac84c00, Some(Macro)),
    Entry(0xea000000, Some(Dot)),
    Entry(0xf6000000, Some(Add)),
    Entry(0xee000000, Some(Divide)),
    END
  ]

  const MACRO_DICTIONARY: seq<Entry> := [END]

  /** How each built-in is written in source text. */
  function Spelling(b: Builtin): string
  {
    match b
    case Comma => "," case Load => "load" case Loads => "loads" case Forth => "forth"
    case Macro => "macro" case Dot => "." case Add => "+" case Divide => "/"
  }

  /** The built-in a word names. */
  function Named(w: string): Option<Builtin>
  {
    if w == "," then Some(Comma) else if w == "load" then Some(Load)
    else if w == "loads" then Some(Loads) else if w == "forth" then Some(Forth)
    else if w == "macro" then Some(Macro) else if w == "." then Some(Dot)
    else if w == "+" then Some(Add) else if w == "/" then Some(Divide) else None
  }

  lemma NamedIsSpelled(w: string, b: Builtin)
    ensures Named(w) == Some(b) <==> w == Spelling(b)
  {
  }

  /** Entry `i` is the first with the name, and stands before the end marker. */
  ghost predicate Finds(dictionary: seq<Entry>, key: Word32, i: nat)
  {
    && i < |dictionary| && dictionary[i].name == key
    && forall j :: 0 <= j <= i ==> dictionary[j].name != 0 && (j < i ==> dictionary[j].name != key)
  }

  /** The scan `lookup_word` makes of either dictionary: the first entry with the name, or the end marker. */
  method Search(dictionary: seq<Entry>, key: Word32) returns (r: Entry)
    requires exists i :: 0 <= i < |dictionary| && dictionary[i].name == 0
    ensures if exists i: nat :: Finds(dictionary, key, i)
            then exists i: nat :: Finds(dictionary, key, i) && r == dictionary[i] else r == END
  {
    var i := 0;
    while dictionary[i].name != 0
      invariant i < |dictionary|
      invariant forall j :: 0 <= j < i ==> dictionary[j].name != 0 && dictionary[j].name != key
      decreases |dictionary| - i
    {
      if key == dictionary[i].name {
        assert Finds(dictionary, key, i);
        return dictionary[i];
      }
      i := i + 1;
    }
    forall k: nat
      ensures !Finds(dictionary, key, k)
    {
      assert k >= i ==> dictionary[i].name == 0;
    }
    return END;
  }

  /** `lookup_word`: the built-in that the packed name spells, its tag ignored; the macro dictionary is empty. */
  method LookupWord(name: Word32, forceForth: bool) returns (r: Entry)
    ensures r.name != 0 <==> forceForth && Named(Text(name)).Some?
    ensures r == if forceForth && Named(Text(name)).Some? then Entry(name - Tag(name), Named(Text(name))) else END
  {
    hide Named, Text;
    var key: Word32 := name - name % 16;
    if forceForth {
      assert FORTH_DICTIONARY[8].name == 0;
      r := Search(FORTH_DICTIONARY, key);
      if i: nat :| Finds(FORTH_DICTIONARY, key, i) && r == FORTH_DICTIONARY[i] {
        EntryFound(name, i);
      } else {
        NotFound(key);
        NoEntryFound(name);
      }
    } else {
      assert MACRO_DICTIONARY[0].name == 0;
      r := Search(MACRO_DICTIONARY, key);
    }
  }

  lemma NotFound(key: Word32)
    requires forall i: nat :: !Finds(FORTH_DICTIONARY, key, i)
    ensures forall j :: 0 <= j < 8 ==> FORTH_DICTIONARY[j].name != key
  {
    if j: nat :| j < 8 && FORTH_DICTIONARY[j].name == key {
      FirstNamed(FORTH_DICTIONARY, key, j);
    }
  }

  lemma {:induction false} FirstNamed(dictionary: seq<Entry>, key: Word32, j: nat)
    requires j < |dictionary| && dictionary[j].name == key
    requires forall i :: 0 <= i <= j ==> dictionary[i].name != 0
    ensures exists i: nat :: Finds(dictionary, key, i)
    decreases j
  {
    if i: nat :| i < j && dictionary[i].name == key {
      FirstNamed(dictionary, key, i);
    } else {
      assert Finds(dictionary, key, j);
    }
  }

  /** Code value and code length of the first `i` letters, by Horner's rule. */
  function Numeral(w: string, i: nat): nat
    requires i <= |w|
  {
    if i == 0 then 0 else
      var k := Position(w[i - 1]);
      Numeral(w, i - 1) * (if k < 8 then 16 else if k < 16 then 32 else 128) + CodeValue(k)
  }

  function CodeBits(w: string, i: nat): nat
    requires i <= |w|
  {
    if i == 0 then 0 else CodeBits(w, i - 1) + CodeLength(Position(w[i - 1]))
  }

  predicate Known(w: string, i: nat)
    requires i <= |w|
  {
    i == 0 || (0 < Position(w[i - 1]) < 48 && Known(w, i - 1))
  }

  lemma LetterOfPosition(c: char)
    requires Position(c) < 48
    ensures Letter(Position(c)) == c
  {
  }

  lemma IndexIsPosition(c: char)
    requires Position(c) < 48
    ensures Index(c) == Position(c)
  {
    LetterOfPosition(c);
    IndexOfLetter(Position(c));
  }

  lemma {:induction false} KnownWord(w: string, i: nat)
    requires i <= |w| && Known(w, i)
    ensures Packable(w[..i])
    ensures Val(Encode(w[..i])) == Numeral(w, i) && |Encode(w[..i])| == CodeBits(w, i)
  {
    hide Val, Encode, Index, Position, CodeValue;
    if i == 0 {
      assert w[..0] == "";
      EmptyWord();
    } else {
      KnownWord(w, i - 1);
      IndexIsPosition(w[i - 1]);
      assert w[..i] == w[..i - 1] + [w[i - 1]];
      NextBits(w[..i], i - 1);
      assert w[..i][..i - 1] == w[..i - 1] && w[..i][..i] == w[..i];
      Pow2Constants();
    }
  }

  lemma EmptyWord()
    ensures Val(Encode("")) == 0 == |Encode("")|
  {
  }

  /** The packed name of a built-in, as the dictionary lists it. */
  function PackedName(b: Builtin): Word32
  {
    match b
    case Comma => 0xfc000000 case Load => 0xa1ae0000 case Loads => 0xa1ae0800 case Forth => 0xb1896400
    case Macro => 0x8ac84c00 case Dot => 0xea000000 case Add => 0xf6000000 case Divide => 0xee000000
  }

  /** Code value and code length of each spelling. */
  function CodeOf(b: Builtin): (nat, nat)
  {
    match b
    case Comma => (126, 7) case Load => (0xa1ae0, 20) case Loads => (0x1435c10, 25) case Forth => (0xb18964, 24)
    case Macro => (0x22b213, 22) case Dot => (117, 7) case Add => (123, 7) case Divide => (119, 7)
  }

  lemma LoadNumerals()
    ensures Known("load", 4) && Numeral("load", 4) == 0xa1ae0 && CodeBits("load", 4) == 20
  {
  }

  lemma LoadsNumerals()
    ensures Known("loads", 5) && Numeral("loads", 5) == 0x1435c10 && CodeBits("loads", 5) == 25
  {
  }

  lemma ForthNumerals()
    ensures Known("forth", 5) && Numeral("forth", 5) == 0xb18964 && CodeBits("forth", 5) == 24
  {
    assert Known("forth", 3) && Numeral("forth", 3) == 0x1631 && CodeBits("forth", 3) == 13;
  }

  lemma MacroNumerals()
    ensures Known("macro", 5) && Numeral("macro", 5) == 0x22b213 && CodeBits("macro", 5) == 22
  {
  }

  lemma SignNumerals()
    ensures Known(",", 1) && Numeral(",", 1) == 126 && CodeBits(",", 1) == 7
    ensures Known(".", 1) && Numeral(".", 1) == 117 && CodeBits(".", 1) == 7
    ensures Known("+", 1) && Numeral("+", 1) == 123 && CodeBits("+", 1) == 7
    ensures Known("/", 1) && Numeral("/", 1) == 119 && CodeBits("/", 1) == 7
  {
  }

  lemma SpellingNumerals(b: Builtin)
    ensures var w := Spelling(b); w != "" && Known(w, |w|) && (Numeral(w, |w|), CodeBits(w, |w|)) == CodeOf(b)
  {
    hide Known, Numeral, CodeBits;
    LoadNumerals();
    LoadsNumerals();
    ForthNumerals();
    MacroNumerals();
    SignNumerals();
  }

  lemma NamePowers()
    ensures Pow2(7) == 0x80 && Pow2(8) == 0x100 && Pow2(10) == 0x400 && Pow2(12) == 0x1000 && Pow2(25) == 0x200_0000
  {
    Pow2Constants();
    Pow2Add(7, 5);
    Pow2Add(5, 5);
    Pow2Add(4, 4);
    Pow2Add(8, 8);
    Pow2Add(16, 8);
    Pow2Add(24, 1);
  }

  lemma ShiftedNumerals(b: Builtin)
    ensures CodeOf(b).1 <= 28 && CodeOf(b).0 * Pow2(32 - CodeOf(b).1) == PackedName(b)
  {
    NamePowers();
    hide Pow2;
  }

  lemma ShortWordCell(w: string)
    requires |Encode(w)| <= 28
    ensures Fits(w) && TextCell(Encode(w), 0) == Val(Encode(w)) * Pow2(32 - |Encode(w)|)
  {
    hide Val, Pow2, Encode;
    var e := Encode(w);
    AppendZeros(e, 32 - |e|);
    AppendZeros(Take(e, 28), 4);
    Pow2Constants();
    assert e + Zeros(32 - |e|) == Take(e, 28) + Zeros(4);
  }

  /** A dictionary name is the cell of the built-in's spelling, without a tag. */
  lemma SpelledCell(b: Builtin)
    ensures Packable(Spelling(b)) && Fits(Spelling(b)) && Spelling(b) != ""
    ensures TextCell(Encode(Spelling(b)), 0) == PackedName(b)
  {
    hide *;
    var w := Spelling(b);
    SpellingNumerals(b);
    KnownWord(w, |w|);
    assert w[..|w|] == w;
    ShiftedNumerals(b);
    ShortWordCell(w);
  }

  /** A packed name finds a built-in exactly when it unpacks to the built-in's spelling. */
  lemma NameMatches(name: Word32, b: Builtin)
    ensures name - Tag(name) == PackedName(b) <==> Text(name) == Spelling(b)
  {
    hide Encode, Spelling, PackedName;
    SpelledCell(b);
    var e := Encode(Spelling(b));
    CellParts(name);
    CellParts(TextCell(e, 0));
    TextCellParts(e, 0);
    if name - Tag(name) == PackedName(b) {
      ValInjective(TextBits(name), TextBits(TextCell(e, 0)));
      TextOfFitting(Spelling(b), 0);
    }
    if Text(name) == Spelling(b) {
      CellTextFits(name);
      TextCellParts(e, Tag(name));
    }
  }

  lemma DictionaryEntry(i: nat) returns (b: Builtin)
    requires i < 8
    ensures FORTH_DICTIONARY[i] == Entry(PackedName(b), Some(b))
  {
    b := FORTH_DICTIONARY[i].code.value;
  }

  lemma DictionaryIndex(b: Builtin) returns (i: nat)
    ensures i < 8 && FORTH_DICTIONARY[i] == Entry(PackedName(b), Some(b))
  {
    match b
    case Comma => i := 0; case Load => i := 1; case Loads => i := 2; case Forth => i := 3;
    case Macro => i := 4; case Dot => i := 5; case Add => i := 6; case Divide => i := 7;
  }

  lemma EntryFound(name: Word32, i: nat)
    requires i < 8 && FORTH_DICTIONARY[i].name == name - Tag(name)
    ensures FORTH_DICTIONARY[i] == Entry(name - Tag(name), Named(Text(name))) && Named(Text(name)).Some?
    ensures FORTH_DICTIONARY[i].name != 0
  {
    var b := DictionaryEntry(i);
    assert PackedName(b) != 0;
    hide FORTH_DICTIONARY, PackedName, Spelling;
    NameMatches(name, b);
    NamedIsSpelled(Text(name), b);
  }

  lemma NoEntryFound(name: Word32)
    requires forall j :: 0 <= j < 8 ==> FORTH_DICTIONARY[j].name != name - Tag(name)
    ensures Named(Text(name)) == None
  {
    if Named(Text(name)).Some? {
      var b := Named(Text(name)).value;
      var i := DictionaryIndex(b);
      hide FORTH_DICTIONARY, PackedName, Spelling;
      NamedIsSpelled(Text(name), b);
      NameMatches(name, b);
    }
  }
}
