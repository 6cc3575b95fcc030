/** The kernel editor's own packer and unpacker (kernel/colorforth/editor.c), which work on one cell. */
module EditorPack {
  import opened Bits
  import opened Huffman
  import opened Cells
  import opened Options
  import opened Packing
  import opened Packer

  /** `strchr(code, letter) - code`: the scan starts behind the first character and reaches the terminator. */
  method GetCodeIndex(letter: char) returns (k: Option<nat>)
    ensures k == if 1 <= Index(letter) < 48 then Some(Index(letter)) else if letter == '\0' then Some(48) else None
  {
    hide *;
    var s := 0;
    while s < 48
      invariant s <= 48
      invariant forall i :: 1 <= i <= s && i < 48 ==> Letter(i) != letter
      invariant s == 48 ==> letter != '\0'
    {
      s := s + 1;
      if s < 48 {
        IndexOfLetter(s);
      }
      if (if s < 48 then Letter(s) else '\0') == letter {
        NotTheTerminator(letter);
        return Some(s);
      }
    }
    if 1 <= Index(letter) < 48 {
      LetterOfIndex(letter);
    }
    return None;
  }

  lemma NotTheTerminator(letter: char)
    ensures letter == '\0' ==> Index(letter) == 48
  {
    hide Position, Letter, Index;
    if Index(letter) < 48 {
      LetterOfIndex(letter);
      PositionOfLetter(Index(letter));
      PositionOfTerminator();
    }
  }

  lemma PositionOfTerminator()
    ensures Position('\0') == 48
  {
  }

  /** The 32 bits `pack` makes of a word: its code from the top down, zeros below. */
  function Packed(w: string): (c: Word32)
    requires |Encode(w)| <= 32
  {
    ValBound(Take(Encode(w), 32));
    Pow2Constants();
    Val(Take(Encode(w), 32))
  }

  /** Beyond 32 code bits the final shift is undefined in C, so callers stay below that. */
  method Pack(word: string) returns (packed: Word32)
    requires word != "" && Packable(word) && |Encode(word)| <= 32
    ensures packed == Packed(word)
  {
    hide *;
    packed := 0;
    var bits: Word32 := 28;
    StartBits(word);
    for i := 0 to |word|
      invariant packed == Val(Encode(word[..i]))
      invariant bits == Unsigned(28 - |Encode(word[..i])|)
    {
      PrefixBits(word, i);
      var index := GetCodeIndex(word[i]);
      var letterCode := index.value;
      var length := CodeLength(letterCode);
      letterCode := CodeValue(letterCode);
      packed := Unsigned(packed * Pow2(length) + letterCode);
      bits := Unsigned(bits - length);
    }
    assert word[..|word|] == word;
    FinalShift(word);
    packed := Unsigned(packed * Pow2(Unsigned(bits + 4)));
  }

  lemma StartBits(word: string)
    ensures Val(Encode(word[..0])) == |Encode(word[..0])| == 0 && Unsigned(28 - |Encode(word[..0])|) == 28
    ensures InAlphabet(word[..0])
  {
  }

  lemma PrefixBits(word: string, i: nat)
    requires Packable(word) && |Encode(word)| <= 32 && i < |word|
    ensures var e, e', k := Encode(word[..i]), Encode(word[..i + 1]), Index(word[i]);
            && 1 <= k < 48 && |e'| <= 32
            && Unsigned(Val(e) * Pow2(CodeLength(k)) + CodeValue(k)) == Val(e')
            && Unsigned(Unsigned(28 - |e|) - CodeLength(k)) == Unsigned(28 - |e'|)
  {
    hide Val, Pow2, Index, Encode, CodeValue;
    NextBits(word, i);
    assert word == word[..i + 1] + word[i + 1..];
    EncodeConcat(word[..i + 1], word[i + 1..]);
    UnsignedMinus(28 - |Encode(word[..i])|, CodeLength(Index(word[i])));
    WordVal(Encode(word[..i + 1]));
  }

  lemma WordVal(b: BitString)
    requires |b| <= 32
    ensures Val(b) < WORD
  {
    ValBound(b);
    Pow2Smaller(|b|, 32);
    Pow2Constants();
  }

  lemma FinalShift(word: string)
    requires |Encode(word)| <= 32
    ensures Unsigned(Unsigned(28 - |Encode(word)|) + 4) == 32 - |Encode(word)|
    ensures Val(Encode(word)) * Pow2(32 - |Encode(word)|) == Packed(word) == Unsigned(Packed(word))
  {
    hide Val, Pow2, Encode;
    var e := Encode(word);
    AppendZeros(e, 32 - |e|);
    assert e + Zeros(32 - |e|) == Take(e, 32);
    WordVal(Take(e, 32));
  }

  /** Up to the tag nibble, `pack` makes the text bits of the word's single cell. */
  lemma PackedTextBits(w: string)
    requires |Encode(w)| <= 32
    ensures Packed(w) - Tag(Packed(w)) == TextCell(Encode(w), 0)
    ensures TextBits(Packed(w)) == Take(Encode(w), 28)
    ensures Packable(w) ==> (Fits(w) <==> Tag(Packed(w)) == 0)
  {
    hide Val, Encode, Packable;
    var e, c := Encode(w), Packed(w);
    var t := Take(e, 32);
    Pow2Constants();
    ValInjective(Row(c), t);
    assert TextBits(c) == Take(e, 28);
    CellParts(c);
    TextCellParts(e, 0);
    CellParts(TextCell(e, 0));
    Split(t, 28);
    ValZero(t[28..]);
    assert t[..28] == Take(e, 28);
    assert Tag(c) == Val(t[28..]);
    assert AllZero(t[28..]) <==> forall i :: 28 <= i < |e| ==> !e[i] by {
      assert forall i :: 0 <= i < 4 ==> t[28..][i] == At(e, 28 + i);
      assert forall i :: 28 <= i < |e| ==> e[i] == t[28..][i - 28];
    }
  }

  /** `unpack` undoes `pack` exactly on the words whose code has no 1 past the 28th bit. */
  lemma UnpackPack(w: string)
    requires Packable(w) && |Encode(w)| <= 32
    ensures Text(Packed(w)) == w <==> Fits(w)
  {
    hide *;
    PackedTextBits(w);
    if Fits(w) {
      TextOfFitting(w, 0);
      SameText(Packed(w), TextCell(Encode(w), 0), Encode(w));
    }
    if Text(Packed(w)) == w {
      CellTextFits(Packed(w));
    }
  }

  lemma SameText(c: Word32, d: Word32, e: BitString)
    requires TextBits(c) == Take(e, 28) && d == TextCell(e, 0)
    ensures Text(c) == Text(d)
  {
    TextCellParts(e, 0);
  }

  /** The converter and the editor make the same cell, up to the tag, of every word that fits one cell. */
  lemma PackersAgree(w: string, tag: nat)
    requires w != "" && Packable(w) && Fits(w) && |Encode(w)| <= 32 && tag < 16
    ensures WordCells(w, tag) == [Packed(w) + tag] && Tag(Packed(w)) == 0
  {
    hide Encode, Val, Packable;
    PackedTextBits(w);
    FittingWordIsOneChunk(w);
    TextCellParts(Encode(w), tag);
    CellParts(TextCell(Encode(w), tag));
    CellParts(Packed(w));
  }

  lemma FittingWordIsOneChunk(w: string)
    requires w != "" && Packable(w)
    ensures Fits(w) <==> Chunks(w) == [w]
    ensures Fits(w) ==> forall tag: nat :: tag < 16 ==> WordCells(w, tag) == [TextCell(Encode(w), tag)]
  {
    hide Encode, Fits, Packable, Longest, TextCell;
    ChunksFit(w);
    if Fits(w) {
      assert w[..|w|] == w;
      LongestFitting(w, |w|);
      assert w[|w|..] == "";
    }
  }

  /** Packing what a cell spells gives the cell back without its tag. */
  lemma PackUnpack(c: Word32)
    requires |Encode(Text(c))| <= 32
    ensures Packed(Text(c)) - Tag(Packed(Text(c))) == c - Tag(c)
    ensures Packable(Text(c)) ==> Packed(Text(c)) == c - Tag(c)
  {
    hide Encode, Val, Packable;
    CellTextFits(c);
    PackedTextBits(Text(c));
    CellParts(c);
    CellParts(TextCell(Encode(Text(c)), 0));
    TextCellParts(Encode(Text(c)), 0);
    TextCellParts(Encode(Text(c)), Tag(c));
  }

  /** `unpack` of the editor: the text is left in a buffer of 16 characters, zeros behind it. */
  method Unpack(text: array<char>, word: Word32)
    requires text.Length == 16
    modifies text
    ensures |Text(word)| <= 7
    ensures text[..] == Text(word) + seq(16 - |Text(word)|, _ => '\0')
  {
    CellTextFits(word);
    hide *;
    ClearTag(word);
    var coded: Word32 := word - word % 16;
    var i := 0;
    ghost var b := TextBits(word);
    for j := 0 to 16
      invariant forall k :: 0 <= k < j ==> text[k] == '\0'
    {
      text[j] := '\0';
    }
    while coded != 0
      invariant |b| <= 28 && coded == Val(Take(b, 32))
      invariant i <= 7 && text[..i] + Decode(b) == Text(word)
      invariant forall k :: i <= k < 16 ==> text[k] == '\0'
      decreases |b|
    {
      DecodeStep(b);
      var letter;
      letter, coded := NextLetter(coded, b);
      text[i] := letter;
      assert text[..i + 1] == text[..i] + [letter];
      b := Drop(b, CodeLength(FirstLetter(b)));
      i := i + 1;
    }
    DecodeStep(b);
    assert text[..] == text[..i] + text[i..];
  }

  lemma DecodeStep(b: BitString)
    requires |b| <= 28
    ensures Val(Take(b, 32)) == 0 ==> Decode(b) == ""
    ensures Val(Take(b, 32)) != 0 ==>
        var rest := Drop(b, CodeLength(FirstLetter(b)));
        |rest| < |b| && Decode(b) == [Letter(FirstLetter(b))] + Decode(rest)
  {
    NonZeroWord(b);
  }

  /** The same for any text over the alphabet: spaces at its end are lost. */
  lemma UnpackPackSpaced(w: string)
    requires InAlphabet(w) && |Encode(w)| <= 32
    ensures Text(Packed(w)) == w <==> Fits(w) && EndsSolid(w)
  {
    hide *;
    PackedTextBits(w);
    if Fits(w) {
      TextOfChunk(w, 0);
      TrimExactly(w);
      SameText(Packed(w), TextCell(Encode(w), 0), Encode(w));
    }
    if Text(Packed(w)) == w {
      CellTextFits(Packed(w));
      TextEndsSolid(Packed(w));
    }
  }

  /** `packword` of the converter tools: an error for texts that do not come back from one cell. */
  method PackWord(word: string) returns (r: Option<nat>)
    ensures r == if InAlphabet(word) && |Encode(word)| <= 32 && Fits(word) && EndsSolid(word)
              then Some(Packed(word)) else None
  {
    hide *;
    var packed: nat, bits: int := 0, 28;
    StartBits(word);
    for i := 0 to |word|
      invariant packed == Val(Encode(word[..i]))
      invariant bits == 28 - |Encode(word[..i])|
      invariant InAlphabet(word[..i])
    {
      var k := Index(word[i]);
      LetterKnown(word, i);
      if k == 48 {
        return None;
      }
      NextBits(word, i);
      packed := packed * Pow2(CodeLength(k)) + CodeValue(k);
      bits := bits - CodeLength(k);
    }
    assert word[..|word|] == word;
    if bits + 4 < 0 {
      return None;
    }
    FinalShift(word);
    packed := packed * Pow2(bits + 4);
    UnpackPackSpaced(word);
    var text := Cells.Unpack(packed);
    if word != text {
      return None;
    }
    return Some(packed);
  }

  lemma LetterKnown(word: string, i: nat)
    requires i < |word|
    ensures InAlphabet(word) ==> Index(word[i]) < 48
    ensures InAlphabet(word[..i]) && Index(word[i]) < 48 ==> InAlphabet(word[..i + 1])
    ensures Index(word[i]) <= 48
  {
    hide Index;
  }

  lemma NextBits(word: string, i: nat)
    requires i < |word| && Index(word[i]) < 48
    ensures var e, e', k := Encode(word[..i]), Encode(word[..i + 1]), Index(word[i]);
            && |e'| == |e| + CodeLength(k)
            && Val(e) * Pow2(CodeLength(k)) + CodeValue(k) == Val(e')
  {
    hide Val, Pow2, Index, Encode, CodeValue;
    var k := Index(word[i]);
    assert word[..i + 1] == word[..i] + [word[i]];
    EncodeSnoc(word[..i], word[i]);
    CodeBounds(k);
    ValConcat(Encode(word[..i]), Code(k));
  }
}
