/** 32-bit cells holding text: 28 code bits above a 4-bit tag. */
module Cells {
  import opened Bits
  import opened Huffman

  /** The 28 text bits of a cell, and the word they spell. */
  function TextBits(cell: Word32): (b: BitString)
    ensures |b| == 28
  {
    Row(cell)[..28]
  }

  function Text(cell: Word32): string
  {
    Decode(TextBits(cell))
  }

  function Tag(cell: Word32): (t: nat)
    ensures t < 16
  {
    cell % 16
  }

  /** The cell made of the first 28 of the given bits and a tag. */
  function TextCell(b: BitString, tag: nat): (c: Word32)
    requires tag < 16
  {
    ValBound(Take(b, 28));
    Pow2Constants();
    Val(Take(b, 28)) * 16 + tag
  }

  lemma TextCellParts(b: BitString, tag: nat)
    requires tag < 16
    ensures TextBits(TextCell(b, tag)) == Take(b, 28)
    ensures Tag(TextCell(b, tag)) == tag
  {
    var c := TextCell(b, tag);
    Pow2Constants();
    Split(Row(c), 28);
    ValInjective(TextBits(c), Take(b, 28));
  }

  lemma CellParts(c: Word32)
    ensures c == Val(TextBits(c)) * 16 + Tag(c)
    ensures Val(TextBits(c)) == c / 16
  {
    Pow2Constants();
    Split(Row(c), 28);
  }

  /** A word fits in one cell when its code has no 1 past the 28th bit. */
  predicate Fits(w: string)
  {
    forall i :: 28 <= i < |Encode(w)| ==> !Encode(w)[i]
  }

  lemma FitsAt(w: string)
    ensures Fits(w) <==> forall i: nat :: i >= 28 ==> !At(Encode(w), i)
  {
    assert forall i :: 28 <= i < |Encode(w)| ==> At(Encode(w), i) == Encode(w)[i];
  }

  lemma FitsTake(w: string)
    requires Fits(w)
    ensures SameBits(Take(Encode(w), 28), Encode(w))
  {
    FitsAt(w);
  }

  /** A text that fits, and does not end with a space, is read back from its cell, whatever the tag. */
  lemma TextOfSolid(w: string, tag: nat)
    requires InAlphabet(w) && EndsSolid(w) && Fits(w) && tag < 16
    ensures Text(TextCell(Encode(w), tag)) == w
  {
    TextCellParts(Encode(w), tag);
    FitsTake(w);
    DecodeSame(Take(Encode(w), 28), Encode(w));
    DecodeEncode(w, []);
    assert Encode(w) + [] == Encode(w);
  }

  lemma TextOfFitting(w: string, tag: nat)
    requires Packable(w) && Fits(w) && tag < 16
    ensures Text(TextCell(Encode(w), tag)) == w
  {
    hide Text, TextCell, Encode, Fits;
    PackableIsSolid(w);
    TextOfSolid(w, tag);
  }

  /** What any cell spells fits in one cell: the one with the same text bits. */
  lemma CellTextFits(c: Word32)
    ensures Fits(Text(c)) && InAlphabet(Text(c)) && |Text(c)| <= 7
    ensures TextCell(Encode(Text(c)), Tag(c)) == c
  {
    EncodeDecode(TextBits(c));
    FitsAt(Text(c));
    DecodeLength(TextBits(c));
    assert Take(Encode(Text(c)), 28) == TextBits(c);
    CellParts(c);
  }

  /** Fitting is exactly being the text of some cell. */
  lemma FitsExactly(w: string)
    requires InAlphabet(w) && EndsSolid(w)
    ensures Fits(w) <==> exists c: Word32 :: Text(c) == w
  {
    if Fits(w) {
      TextOfSolid(w, 0);
    }
    if c: Word32 :| Text(c) == w {
      CellTextFits(c);
    }
  }

  lemma FitsParts(v: string, w: string)
    requires Fits(v + w)
    ensures Fits(v) && Fits(w)
  {
    EncodeConcat(v, w);
    FitsAt(v + w);
    FitsAt(v);
    FitsAt(w);
    var e := Encode(v) + Encode(w);
    assert forall i: nat :: At(Encode(v), i) ==> At(e, i);
    forall i: nat | At(Encode(w), i)
      ensures At(e, |Encode(v)| + i)
    {
    }
  }

  /** Reading one letter off a 32-bit word by shifting. */
  lemma Advance(b: BitString, k: nat)
    requires |b| <= 32 && k <= 32
    ensures Val(Take(b, 32)) / Pow2(32 - k) == Val(Take(b, k))
    ensures Val(Take(b, 32)) * Pow2(k) % Pow2(32) == Val(Take(Drop(b, k), 32))
  {
    hide Val, Pow2;
    var t := Take(b, 32);
    Split(t, k);
    assert t[..k] == Take(b, k);
    ShiftLeft(t, k);
    assert t[k..] + Zeros(k) == Take(Drop(b, k), 32);
  }

  lemma TakeNext(b: BitString, m: nat, n: nat)
    ensures Val(Take(b, m + n)) == Val(Take(b, m)) * Pow2(n) + Val(Take(Drop(b, m), n))
  {
    assert Take(b, m + n) == Take(b, m) + Take(Drop(b, m), n);
    ValConcat(Take(b, m), Take(Drop(b, m), n));
  }

  lemma NibbleStep(b: BitString)
    requires |b| <= 32
    ensures Val(Take(b, 32)) / 0x1000_0000 == Val(Take(b, 4))
    ensures Val(Take(b, 32)) * 16 % WORD == Val(Take(Drop(b, 4), 32))
  {
    Pow2Constants();
    Advance(b, 4);
  }

  lemma XorTwelve(nibble: nat)
    requires 8 <= nibble < 12
    ensures BitXor(nibble, 0xc) == nibble - 4
  {
    assert nibble == 8 || nibble == 9 || nibble == 10 || nibble == 11;
  }

  lemma FiveBitIndex(nibble: nat, bit: nat)
    requires 8 <= nibble < 12 && bit < 2
    ensures BitOr(BitXor(nibble, 0xc) * 2, bit) == nibble * 2 + bit - 8
  {
    hide BitXor, BitOr;
    Pow2Constants();
    XorTwelve(nibble);
    DisjointBits(nibble - 4, 1, bit);
  }

  lemma FiveBitStep(b: BitString)
    requires |b| <= 32 && 8 <= Val(Take(b, 4)) < 12
    ensures var rest := Val(Take(Drop(b, 4), 32));
            && BitOr(BitXor(Val(Take(b, 4)), 0xc) * 2, rest / 0x8000_0000) == FirstLetter(b)
            && CodeLength(FirstLetter(b)) == 5
            && rest * 2 % WORD == Val(Take(Drop(b, 5), 32))
  {
    hide Val, BitXor, BitOr;
    Pow2Constants();
    Advance(Drop(b, 4), 1);
    TakeNext(b, 4, 1);
    ValBound(Take(Drop(b, 4), 1));
    assert Drop(Drop(b, 4), 1) == Drop(b, 5);
    BitRange(b);
    FiveBitIndex(Val(Take(b, 4)), Val(Take(Drop(b, 4), 1)));
  }

  lemma SevenBitStep(b: BitString)
    requires |b| <= 32 && 12 <= Val(Take(b, 4))
    ensures var rest := Val(Take(Drop(b, 4), 32));
            && rest / 0x2000_0000 + 8 * (Val(Take(b, 4)) - 10) == FirstLetter(b)
            && CodeLength(FirstLetter(b)) == 7
            && rest * 8 % WORD == Val(Take(Drop(b, 7), 32))
  {
    hide Val;
    Pow2Constants();
    Advance(Drop(b, 4), 3);
    TakeNext(b, 4, 3);
    BitRange(b);
    assert Drop(Drop(b, 4), 3) == Drop(b, 7);
  }

  /** One turn of the loop of `unpack`: the next letter and the shifted rest. */
  method NextLetter(coded: Word32, ghost b: BitString) returns (letter: char, rest: Word32)
    requires |b| <= 32 && coded == Val(Take(b, 32))
    ensures letter == Letter(FirstLetter(b))
    ensures rest == Val(Take(Drop(b, CodeLength(FirstLetter(b))), 32))
  {
    NibbleStep(b);
    var nibble := coded / 0x1000_0000;
    rest := coded * 16 % WORD;
    if nibble < 0x8 {
      letter := Letter(nibble);
    } else if nibble < 0xc {
      FiveBitStep(b);
      letter := Letter(BitOr(BitXor(nibble, 0xc) * 2, rest / 0x8000_0000));
      rest := rest * 2 % WORD;
    } else {
      SevenBitStep(b);
      letter := Letter(rest / 0x2000_0000 + 8 * (nibble - 10));
      rest := rest * 8 % WORD;
    }
  }

  lemma NonZeroWord(b: BitString)
    requires |b| <= 32
    ensures Val(Take(b, 32)) != 0 <==> !AllZero(b)
  {
    ValZero(Take(b, 32));
    AllZeroAt(b);
    AllZeroAt(Take(b, 32));
    assert SameBits(Take(b, 32), b);
  }

  lemma ClearTag(word: Word32)
    ensures word - word % 16 == Val(Take(TextBits(word), 32))
    ensures Text(word) == Decode(TextBits(word))
  {
    CellParts(word);
    Pow2Constants();
    AppendZeros(TextBits(word), 4);
    assert TextBits(word) + Zeros(4) == Take(TextBits(word), 32);
  }

  /** `unpack` of the block converter. */
  method Unpack(word: Word32) returns (text: string)
    ensures text == Text(word)
  {
    ClearTag(word);
    var coded: Word32 := word - word % 16;
    text := "";
    ghost var b := TextBits(word);
    while coded != 0
      invariant |b| <= 28 && coded == Val(Take(b, 32))
      invariant text + Decode(b) == Text(word)
      decreases |b|
    {
      NonZeroWord(b);
      var letter;
      letter, coded := NextLetter(coded, b);
      text := text + [letter];
      b := Drop(b, CodeLength(FirstLetter(b)));
    }
    NonZeroWord(b);
  }
}
