/** The 4/5/7-bit prefix code of the 48 colorForth characters. */
module Huffman {
  import opened Bits

  const ALPHABET: string := " rtoeani" + "smcylgfw" + "dvpbhxuq" + "01234567" + "89j-k.z/" + ";:!+@*,?"

  function Letter(k: nat): char
    requires k < 48
  {
    ALPHABET[k]
  }

  /** Position of the first `c` in the alphabet from `i` on; 48 when there is none. */
  function IndexFrom(c: char, i: nat): (k: nat)
    requires i <= 48
    ensures k <= 48
    decreases 48 - i
  {
    if i == 48 || Letter(i) == c then i else IndexFrom(c, i + 1)
  }

  function Index(c: char): (k: nat)
    ensures k <= 48
  {
    IndexFrom(c, 0)
  }

  lemma IndexFinds(c: char, i: nat)
    requires i <= 48
    ensures i <= IndexFrom(c, i)
    ensures forall j :: i <= j < IndexFrom(c, i) ==> Letter(j) != c
    ensures IndexFrom(c, i) < 48 ==> Letter(IndexFrom(c, i)) == c
    decreases 48 - i
  {
    if i < 48 && Letter(i) != c {
      IndexFinds(c, i + 1);
    }
  }

  lemma LetterOfIndex(c: char)
    requires Index(c) < 48
    ensures Letter(Index(c)) == c
  {
    IndexFinds(c, 0);
  }

  /** The alphabet as a table from characters to positions. */
  function Position(c: char): nat
  {
    match c
    case ' ' => 0 case 'r' => 1 case 't' => 2 case 'o' => 3
    case 'e' => 4 case 'a' => 5 case 'n' => 6 case 'i' => 7
    case 's' => 8 case 'm' => 9 case 'c' => 10 case 'y' => 11
    case 'l' => 12 case 'g' => 13 case 'f' => 14 case 'w' => 15
    case 'd' => 16 case 'v' => 17 case 'p' => 18 case 'b' => 19
    case 'h' => 20 case 'x' => 21 case 'u' => 22 case 'q' => 23
    case '0' => 24 case '1' => 25 case '2' => 26 case '3' => 27
    case '4' => 28 case '5' => 29 case '6' => 30 case '7' => 31
    case '8' => 32 case '9' => 33 case 'j' => 34 case '-' => 35
    case 'k' => 36 case '.' => 37 case 'z' => 38 case '/' => 39
    case ';' => 40 case ':' => 41 case '!' => 42 case '+' => 43
    case '@' => 44 case '*' => 45 case ',' => 46 case '?' => 47
    case _ => 48
  }

  lemma PositionOfLowLetter(k: nat)
    requires k < 24
    ensures Position(Letter(k)) == k
  {
    if k < 8 {
      assert Letter(k) == " rtoeani"[k];
    } else if k < 16 {
      assert Letter(k) == "smcylgfw"[k - 8];
    } else {
      assert Letter(k) == "dvpbhxuq"[k - 16];
    }
  }

  lemma PositionOfDigit(k: nat)
    requires 24 <= k < 34
    ensures Position(Letter(k)) == k
  {
    if k < 32 {
      assert Letter(k) == "01234567"[k - 24];
    } else {
      assert Letter(k) == "89"[k - 32];
    }
  }

  lemma PositionOfHighLetter(k: nat)
    requires 34 <= k < 48
    ensures Position(Letter(k)) == k
  {
    if k < 40 {
      assert Letter(k) == "j-k.z/"[k - 34];
    } else {
      assert Letter(k) == ";:!+@*,?"[k - 40];
    }
  }

  lemma PositionOfLetter(k: nat)
    requires k < 48
    ensures Position(Letter(k)) == k
  {
    if k < 24 {
      PositionOfLowLetter(k);
    } else if k < 34 {
      PositionOfDigit(k);
    } else {
      PositionOfHighLetter(k);
    }
  }

  lemma IndexOfLetter(k: nat)
    requires k < 48
    ensures Index(Letter(k)) == k
  {
    IndexFinds(Letter(k), 0);
    PositionOfLetter(k);
    PositionOfLetter(Index(Letter(k)));
  }

  /** Length and value of the code of the letter at position `k`. */
  function CodeLength(k: nat): (n: nat)
  {
    4 + (if k > 7 then 1 else 0) + (if k > 15 then 2 else 0)
  }

  function CodeValue(k: nat): (v: nat)
  {
    k + (if CodeLength(k) == 5 then 8 else 0) + (if CodeLength(k) == 7 then 96 - 16 else 0)
  }

  function Code(k: nat): (b: BitString)
    ensures |b| == CodeLength(k)
  {
    ToBits(CodeValue(k), CodeLength(k))
  }

  /** Every character belongs to the alphabet; in a packable word none is the space. */
  predicate InAlphabet(w: string)
  {
    forall i :: 0 <= i < |w| ==> Index(w[i]) < 48
  }

  predicate Packable(w: string)
  {
    forall i :: 0 <= i < |w| ==> 1 <= Index(w[i]) < 48
  }

  /** The code bits of a word, one letter after the other. */
  function Encode(w: string): (b: BitString)
  {
    if w == "" then [] else Code(Index(w[0])) + Encode(w[1..])
  }

  /** The letter whose code starts a bit string that continues with zeros. */
  function FirstLetter(b: BitString): (k: nat)
    ensures k < 48
  {
    BitRange(b);
    if Val(Take(b, 4)) < 8 then Val(Take(b, 4))
    else if Val(Take(b, 4)) < 12 then Val(Take(b, 5)) - 8
    else Val(Take(b, 7)) - 80
  }

  /** The word a bit string spells: letters are read until only zeros are left. */
  function Decode(b: BitString): (w: string)
    decreases |b|
  {
    if AllZero(b) then "" else
      var k := FirstLetter(b);
      [Letter(k)] + Decode(Drop(b, CodeLength(k)))
  }

  lemma BitRange(b: BitString)
    ensures Val(Take(b, 4)) < 16
    ensures 8 <= Val(Take(b, 4)) < 12 ==> 16 <= Val(Take(b, 5)) < 24
    ensures 12 <= Val(Take(b, 4)) ==> 96 <= Val(Take(b, 7)) < 128
  {
    var t4, t5, t7 := Take(b, 4), Take(b, 5), Take(b, 7);
    ValBound(t4);
    Pow2Constants();
    assert t5[..4] == t4;
    Split(t7, 4);
    ValBound(t7[4..]);
    assert t7[..4] == t4;
  }

  lemma TakeCode(b: BitString)
    ensures Take(b, CodeLength(FirstLetter(b))) == Code(FirstLetter(b))
  {
    BitRange(b);
    var k := FirstLetter(b);
    var t := Take(b, CodeLength(k));
    assert Val(t) == CodeValue(k);
    ToBitsVal(t);
  }

  lemma CodeBounds(k: nat)
    requires k < 48
    ensures Val(Code(k)) == CodeValue(k)
  {
    Pow2Constants();
    ValToBits(CodeValue(k), CodeLength(k));
  }

  lemma FirstLetterOfCode(k: nat, rest: BitString)
    requires k < 48
    ensures FirstLetter(Code(k) + rest) == k
    ensures Drop(Code(k) + rest, CodeLength(k)) == rest
  {
    hide Val;
    var c := Code(k);
    var b := c + rest;
    var n := CodeLength(k);
    CodeBounds(k);
    Pow2Constants();
    assert Take(b, n) == c;
    Split(c, 4);
    ValBound(c[4..]);
    assert Take(b, 4) == c[..4];
  }

  /** Only the space has a code of zeros. */
  lemma CodeNonZero(k: nat)
    requires 0 < k < 48
    ensures !AllZero(Code(k))
  {
    CodeBounds(k);
    ValZero(Code(k));
  }

  lemma {:induction false} EncodeConcat(v: string, w: string)
    ensures Encode(v + w) == Encode(v) + Encode(w)
  {
    if v == "" {
      assert v + w == w;
    } else {
      assert (v + w)[1..] == v[1..] + w;
      EncodeConcat(v[1..], w);
    }
  }

  /** A text that does not end with a space. */
  predicate EndsSolid(w: string)
  {
    w == "" || Index(w[|w| - 1]) != 0
  }

  lemma PackableIsSolid(w: string)
    requires Packable(w)
    ensures InAlphabet(w) && EndsSolid(w)
  {
  }

  lemma EncodeLast(w: string)
    requires w != ""
    ensures Encode(w) == Encode(w[..|w| - 1]) + Code(Index(w[|w| - 1]))
  {
    hide Code, Index;
    var n := |w| - 1;
    assert w == w[..n] + [w[n]];
    EncodeConcat(w[..n], [w[n]]);
    assert [w[n]][1..] == "";
  }

  lemma SolidHasOne(w: string)
    requires w != "" && InAlphabet(w) && EndsSolid(w)
    ensures !AllZero(Encode(w))
  {
    hide Code, Index, Encode;
    var n := |w| - 1;
    EncodeLast(w);
    CodeNonZero(Index(w[n]));
    var i :| 0 <= i < |Code(Index(w[n]))| && Code(Index(w[n]))[i];
    assert Encode(w)[|Encode(w[..n])| + i];
  }

  /** Reading the code of a text that does not end with a space gives it back, whatever zeros follow. */
  lemma {:induction false} DecodeEncode(w: string, z: BitString)
    requires InAlphabet(w) && EndsSolid(w) && AllZero(z)
    ensures Decode(Encode(w) + z) == w
  {
    hide Val, FirstLetter, Index, Code, Letter;
    if w == "" {
      assert Encode(w) + z == z;
    } else {
      var k := Index(w[0]);
      var rest := Encode(w[1..]) + z;
      assert Encode(w) + z == Code(k) + rest;
      SolidHasOne(w);
      var i :| 0 <= i < |Encode(w)| && Encode(w)[i];
      assert (Encode(w) + z)[i];
      FirstLetterOfCode(k, rest);
      LetterOfIndex(w[0]);
      DecodeEncode(w[1..], z);
    }
  }

  /** Two bit strings that differ only in the zeros at their ends. */
  ghost predicate SameBits(a: BitString, b: BitString)
  {
    forall i: nat :: At(a, i) == At(b, i)
  }

  lemma AllZeroAt(b: BitString)
    ensures AllZero(b) <==> forall i: nat :: !At(b, i)
  {
    assert forall i :: 0 <= i < |b| ==> At(b, i) == b[i];
  }

  lemma {:induction false} DecodeSame(a: BitString, b: BitString)
    requires SameBits(a, b)
    ensures Decode(a) == Decode(b)
    decreases |a| + |b|
  {
    AllZeroAt(a);
    AllZeroAt(b);
    if !AllZero(a) {
      assert Take(a, 4) == Take(b, 4) && Take(a, 5) == Take(b, 5) && Take(a, 7) == Take(b, 7);
      var n := CodeLength(FirstLetter(a));
      DecodeSame(Drop(a, n), Drop(b, n));
    }
  }

  /** Every bit string is, up to zeros at its end, the code of the word it spells. */
  lemma {:induction false} EncodeDecode(b: BitString)
    ensures InAlphabet(Decode(b))
    ensures SameBits(Encode(Decode(b)), b)
    decreases |b|
  {
    if !AllZero(b) {
      var k := FirstLetter(b);
      var rest := Drop(b, CodeLength(k));
      EncodeDecode(rest);
      IndexOfLetter(k);
      TakeCode(b);
      assert Decode(b)[1..] == Decode(rest);
      forall i: nat
        ensures At(Encode(Decode(b)), i) == At(b, i)
      {
        if i < CodeLength(k) {
          assert Take(b, CodeLength(k))[i] == At(b, i);
        } else {
          assert At(Encode(Decode(rest)), i - CodeLength(k)) == At(rest, i - CodeLength(k));
        }
      }
    }
  }

  /** Each letter takes at least four bits. */
  lemma {:induction false} DecodeLength(b: BitString)
    ensures 4 * |Decode(b)| < |b| + 4
    decreases |b|
  {
    if !AllZero(b) {
      DecodeLength(Drop(b, CodeLength(FirstLetter(b))));
    }
  }
}
