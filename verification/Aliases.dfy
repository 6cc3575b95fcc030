/** Longer words whose first cell spells a built-in: such a word runs the built-in. */
module Aliases {
  import opened Bits
  import opened Huffman
  import opened Cells
  import opened Options
  import opened Packing
  import opened EditorPack
  import opened Dictionary
  import opened Forth

  // ---------------------------------------------------------------- executed words

  /** A word is an alias exactly when its first chunk is a built-in and not the whole word. */
  lemma AliasChunk(w: string)
    requires w != "" && Packable(w)
    ensures Chunks(w) != []
    ensures Alias(w) <==> Chunks(w) != [w] && Named(Chunks(w)[0]).Some?
  {
    hide Fits, Named, Spelling, Chunks, Packable, Longest;
    ChunksFit(w);
    FirstIsPrefix(w);
    LongestStops(w);
    FittingWordIsOneChunk(w);
    var v := Chunks(w)[0];
    if b: Builtin :| Spelling(b) < w && !Fits(w[..|Spelling(b)| + 1]) {
      SpelledCell(b);
      var n := |Spelling(b)|;
      assert w[..n] == Spelling(b);
      LongestFitting(w, n);
      NamedIsSpelled(v, b);
    }
    if Chunks(w) != [w] && Named(v).Some? {
      var b := Named(v).value;
      NamedIsSpelled(v, b);
      assert |v| == |w| ==> v == w;
      assert Spelling(b) < w && !Fits(w[..|Spelling(b)| + 1]);
    }
  }

  lemma FirstIsPrefix(w: string)
    requires w != ""
    ensures Chunks(w) != [] && Chunks(w)[0] <= w && Fits(Chunks(w)[0])
    ensures Fits(w[..1]) && Chunks(w)[0] == w[..Longest(w, 1)]
  {
    OneLetterFits(w);
  }

  /** Which built-in the cells of a word enter: the word's own, exactly when it is no alias. */
  lemma FirstChunkNamed(w: string)
    requires w != "" && Packable(w)
    ensures Chunks(w) != []
    ensures Named(Chunks(w)[0]) == Named(w) <==> !Alias(w)
  {
    hide Packable, Chunks, Alias;
    AliasChunk(w);
    if Named(w).Some? {
      NamedIsSpelled(w, Named(w).value);
      SpelledCell(Named(w).value);
      FittingWordIsOneChunk(w);
    }
  }

  lemma OneIsUnnamed(w: string)
    requires w != "" && Chunks(w) != [] && Named(Chunks(w)[0]) != Named(w)
    ensures Named(w) == None
  {
    if Named(w).Some? {
      NamedIsSpelled(w, Named(w).value);
      SpelledCell(Named(w).value);
      FittingWordIsOneChunk(w);
    }
  }

  /** Aliases exist: executing this word runs `loads`. */
  lemma AliasExample()
    ensures Packable("loadsr") && Alias("loadsr") && Chunks("loadsr")[0] == "loads"
  {
    LoadsrNumerals();
    hide Known, Numeral, CodeBits, Packable, Alias, Chunks;
    AliasWitness("loadsr", "loads", 'r', Loads);
  }

  lemma LoadsrNumerals()
    ensures Known("loadsr", 6) && Numeral("loadsr", 6) == 0x1435c101 && CodeBits("loadsr", 6) == 29
  {
    assert Known("loadsr", 3) && Numeral("loadsr", 3) == 0x1435 && CodeBits("loadsr", 3) == 13;
  }

  lemma AliasWitness(w: string, v: string, c: char, b: Builtin)
    requires w == v + [c] && v == Spelling(b)
    requires Known(w, |w|) && Numeral(w, |w|) % 2 == 1 && CodeBits(w, |w|) > 28
    ensures Packable(w) && Alias(w) && Chunks(w)[0] == v
  {
    hide Encode, Known, Numeral, CodeBits, Spelling, Packable, Named;
    SpelledCell(b);
    KnownWord(w, |w|);
    var n := |v|;
    assert w[..|w|] == w && w[..n] == v && w[..|Spelling(b)| + 1] == w;
    assert Encode(w)[|Encode(w)| - 1];
    LongestFitting(w, n);
  }

  // ---------------------------------------------------------------- typed words

  lemma FirstLetterSame(a: BitString, b: BitString)
    requires SameBits(a, b)
    ensures FirstLetter(a) == FirstLetter(b)
  {
    assert Take(a, 4) == Take(b, 4) && Take(a, 5) == Take(b, 5) && Take(a, 7) == Take(b, 7);
  }

  /** A word whose code starts with the code of a letter starts with the letter. */
  lemma StartsWithLetter(w: string, k: nat)
    requires Packable(w) && 1 <= k < 48 && Take(Encode(w), CodeLength(k)) == Code(k)
    ensures w != "" && w[0] == Letter(k)
  {
    hide Val, Code, FirstLetter, Letter, Index, CodeLength;
    CodeNonZero(k);
    var e, n := Encode(w), CodeLength(k);
    assert Code(k) == Take(e, n);
    var b := Code(k) + Drop(e, n);
    forall i: nat
      ensures At(b, i) == At(e, i)
    {
      assert i < n ==> b[i] == Take(e, n)[i];
      assert i >= n ==> At(b, i) == At(Drop(e, n), i - n);
    }
    FirstLetterSame(e, b);
    FirstLetterOfCode(k, Drop(e, n));
    assert w == "" ==> AllZero(Take(e, n));
    FirstLetterOfCode(Index(w[0]), Encode(w[1..]));
    LetterOfIndex(w[0]);
  }

  /** A word whose code agrees with that of `v` as far as that goes starts with `v`. */
  lemma {:induction false} StartsWith(v: string, w: string, m: nat)
    requires Packable(v) && Packable(w) && |Encode(v)| <= m && Take(Encode(w), m) == Take(Encode(v), m)
    ensures v <= w
    decreases |v|
  {
    hide Val, Letter, Index, Code, Packable;
    if v != "" {
      PackableParts(v);
      var k, e, f := Index(v[0]), Encode(v), Encode(w);
      var n := CodeLength(k);
      assert e == Code(k) + Encode(v[1..]);
      forall i | 0 <= i < n
        ensures Take(f, n)[i] == Code(k)[i]
      {
        assert Take(f, m)[i] == Take(e, m)[i];
      }
      assert Take(f, n) == Code(k);
      StartsWithLetter(w, k);
      LetterOfIndex(v[0]);
      PackableParts(w);
      var e', f' := Take(Encode(v[1..]), m - n), Take(Encode(w[1..]), m - n);
      forall i | 0 <= i < m - n
        ensures f'[i] == e'[i]
      {
        assert Take(f, m)[n + i] == Take(e, m)[n + i];
        TailBit(v, i);
        TailBit(w, i);
      }
      assert f' == e';
      StartsWith(v[1..], w[1..], m - n);
    }
  }

  lemma PackableParts(w: string)
    requires Packable(w) && w != ""
    ensures 1 <= Index(w[0]) < 48 && Packable(w[1..])
  {
  }

  lemma TailBit(w: string, i: nat)
    requires w != ""
    ensures At(Encode(w[1..]), i) == At(Encode(w), CodeLength(Index(w[0])) + i)
  {
    hide Code, Index, CodeLength;
  }

  /** How many bits a built-in's spelling leaves free in its cell. */
  function Spare(b: Builtin): nat
  {
    if |Encode(Spelling(b))| <= 28 then 28 - |Encode(Spelling(b))| else 0
  }

  /** A longer word that starts with a built-in's spelling, where the next letter's code fills the cell with zeros. */
  predicate TypedAlias(w: string)
  {
    exists b: Builtin :: SpelledAhead(w, b)
  }

  predicate SpelledAhead(w: string, b: Builtin)
  {
    Spelling(b) < w && AllZero(Take(Code(Index(w[|Spelling(b)|])), Spare(b)))
  }

  lemma SpareBits(b: Builtin)
    ensures Packable(Spelling(b)) && |Encode(Spelling(b))| == CodeOf(b).1 == 28 - Spare(b)
  {
    hide *;
    var v := Spelling(b);
    SpellingNumerals(b);
    KnownWord(v, |v|);
    assert v[..|v|] == v;
    SpareIs(b);
  }

  lemma SpareIs(b: Builtin)
    requires |Encode(Spelling(b))| == CodeOf(b).1
    ensures CodeOf(b).1 == 28 - Spare(b)
  {
  }

  /** The bits of a word behind one of its beginnings. */
  lemma BitsBehind(w: string, n: nat, i: nat)
    requires n < |w| && i < CodeLength(Index(w[n]))
    ensures At(Encode(w), |Encode(w[..n])| + i) == At(Code(Index(w[n])), i)
  {
    hide Code, Index, CodeLength;
    assert w == w[..n] + w[n..];
    EncodeConcat(w[..n], w[n..]);
    assert Encode(w[n..]) == Code(Index(w[n])) + Encode(w[n..][1..]);
  }

  lemma BitsBefore(w: string, n: nat, i: nat)
    requires n <= |w| && i < |Encode(w[..n])|
    ensures At(Encode(w), i) == At(Encode(w[..n]), i)
  {
    assert w == w[..n] + w[n..];
    EncodeConcat(w[..n], w[n..]);
  }

  lemma TakeZero(c: BitString, z: nat)
    ensures AllZero(Take(c, z)) <==> forall i: nat :: i < z ==> !At(c, i)
  {
    assert forall i :: 0 <= i < z ==> Take(c, z)[i] == At(c, i);
  }

  /** A code that starts with zeros has its 1 behind them. */
  lemma FirstOne(k: nat, z: nat) returns (j: nat)
    requires 1 <= k < 48 && AllZero(Take(Code(k), z))
    ensures z <= j < |Code(k)| && Code(k)[j]
  {
    CodeNonZero(k);
    j :| 0 <= j < |Code(k)| && Code(k)[j];
    hide Code;
    TakeZero(Code(k), z);
    assert At(Code(k), j);
  }

  /** A word that is too long for a cell is cut to a built-in's spelling exactly when it is spelled ahead so. */
  lemma CutSpells(w: string, b: Builtin)
    requires Packable(w) && |Encode(w)| <= 32
    ensures SpelledAhead(w, b) <==> !Fits(w) && Text(Packed(w)) == Spelling(b)
  {
    if SpelledAhead(w, b) {
      AheadIsCut(w, b);
    }
    if !Fits(w) && Text(Packed(w)) == Spelling(b) {
      CutIsAhead(w, b);
    }
  }

  /** What a packed word spells is the spelling whose code has the same first 28 bits. */
  lemma CutBits(w: string, b: Builtin)
    requires Packable(w) && |Encode(w)| <= 32
    ensures Text(Packed(w)) == Spelling(b) <==> Take(Encode(w), 28) == Take(Encode(Spelling(b)), 28)
  {
    hide *;
    PackedTextBits(w);
    SpelledCell(b);
    var e := Encode(Spelling(b));
    TextOfFitting(Spelling(b), 0);
    TextCellParts(e, 0);
    CellTextFits(Packed(w));
    TextCellParts(Encode(Text(Packed(w))), Tag(Packed(w)));
    TextOfBits(Packed(w), TextCell(e, 0));
  }

  lemma TextOfBits(c: Word32, d: Word32)
    ensures TextBits(c) == TextBits(d) ==> Text(c) == Text(d)
  {
  }

  lemma CutIsAhead(w: string, b: Builtin)
    requires Packable(w) && |Encode(w)| <= 32 && !Fits(w) && Text(Packed(w)) == Spelling(b)
    ensures SpelledAhead(w, b)
  {
    hide Encode, Spelling, Packable, Fits, Text, Packed, Spare, Code, Index, CodeLength, CodeOf;
    CutBits(w, b);
    SpareBits(b);
    SpelledCell(b);
    var v := Spelling(b);
    StartsWith(v, w, 28);
    var n := |v|;
    assert w[..n] == v && (n == |w| ==> v == w);
    var k := Index(w[n]);
    forall i | 0 <= i < Spare(b)
      ensures !Take(Code(k), Spare(b))[i]
    {
      if i < CodeLength(k) {
        BitsBehind(w, n, i);
        assert Take(Encode(w), 28)[|Encode(v)| + i] == Take(Encode(v), 28)[|Encode(v)| + i];
      }
    }
  }

  lemma AheadIsCut(w: string, b: Builtin)
    requires Packable(w) && |Encode(w)| <= 32 && SpelledAhead(w, b)
    ensures !Fits(w) && Text(Packed(w)) == Spelling(b)
  {
    hide Encode, Spelling, Text, Packed, Spare, Code, Index, CodeLength, CodeOf;
    SpareBits(b);
    var v := Spelling(b);
    var n := |v|;
    assert w[..n] == v;
    var k := Index(w[n]);
    var j := FirstOne(k, Spare(b));
    BitsBehind(w, n, j);
    forall i | 0 <= i < 28
      ensures Take(Encode(w), 28)[i] == Take(Encode(v), 28)[i]
    {
      if i < |Encode(v)| {
        BitsBefore(w, n, i);
      } else {
        BitsBehind(w, n, i - |Encode(v)|);
        assert !Take(Code(k), Spare(b))[i - |Encode(v)|];
      }
    }
    assert Take(Encode(w), 28) == Take(Encode(v), 28);
    CutBits(w, b);
  }

  /** A typed word runs the built-in it spells, or is not found, exactly when it is no such word. */
  lemma TypedWord(w: string)
    requires Packable(w) && |Encode(w)| <= 32
    ensures Named(Text(Packed(w))) == Named(w) <==> !TypedAlias(w)
  {
    hide Encode, Text, Packed, Packable, Fits, SpelledAhead;
    UnpackPack(w);
    forall b: Builtin
      ensures SpelledAhead(w, b) <==> !Fits(w) && Named(Text(Packed(w))) == Some(b)
    {
      CutSpells(w, b);
      NamedIsSpelled(Text(Packed(w)), b);
    }
    if Named(w).Some? {
      NamedIsSpelled(w, Named(w).value);
      SpelledCell(Named(w).value);
    }
    if Named(Text(Packed(w))).Some? && !Fits(w) {
      assert SpelledAhead(w, Named(Text(Packed(w))).value);
    }
  }

  /** How many zeros a letter's code can start with: three, and only the code of 'r' does. */
  lemma LeadingZeros(k: nat, z: nat)
    requires 1 <= k < 48 && AllZero(Take(Code(k), z))
    ensures z <= 3 && (z == 3 ==> k == 1)
  {
    hide Val, Pow2, Code;
    var c := Code(k);
    CodeNonZero(k);
    var j := FirstOne(k, z);
    CodeBounds(k);
    Split(c, z);
    assert c[..z] == Take(c, z);
    ValZero(c[..z]);
    ValBound(c[z..]);
    SmallPowers(|c| - z);
  }

  lemma SmallPowers(n: nat)
    requires n <= 7
    ensures Pow2(n) <= [1, 2, 4, 8, 16, 32, 64, 128][n]
  {
    assert n > 0 ==> Pow2(n) == 2 * Pow2(n - 1);
    if n > 0 {
      SmallPowers(n - 1);
    }
  }

  /** There is one such word. */
  lemma OnlyLoadsr(w: string)
    requires Packable(w) && |Encode(w)| <= 32
    ensures TypedAlias(w) <==> w == "loadsr"
  {
    if b: Builtin :| SpelledAhead(w, b) {
      AheadIsLoadsr(w, b);
    }
    if w == "loadsr" {
      LoadsrIsAhead();
    }
  }

  lemma AheadIsLoadsr(w: string, b: Builtin)
    requires Packable(w) && |Encode(w)| <= 32 && SpelledAhead(w, b)
    ensures w == "loadsr"
  {
    hide Encode, Code, Spare, Index, Val;
    SpareBits(b);
    var n := |Spelling(b)|;
    LeadingZeros(Index(w[n]), Spare(b));
    assert b == Loads;
    LetterOfIndex(w[5]);
    assert Letter(1) == 'r';
    assert w == w[..6] + w[6..] && w[..6] == "loads" + "r";
    EncodeConcat(w[..6], w[6..]);
    EncodeConcat("loads", "r");
    assert |Encode("r")| >= 4 by { CodesTakeFour("r"); }
    if w[6..] != "" {
      CodesTakeFour(w[6..]);
    }
  }

  lemma CodesTakeFour(w: string)
    requires w != ""
    ensures |Encode(w)| >= 4
  {
  }

  lemma LoadsrIsAhead()
    ensures SpelledAhead("loadsr", Loads)
  {
    SpareBits(Loads);
    hide Spare, Encode;
    IndexOfLetter(1);
    assert Letter(1) == 'r' == "loadsr"[5];
    CodeOfR();
  }

  lemma CodeOfR()
    ensures Code(1) == [false, false, false, true]
  {
  }

  /** Typing "loadsr" runs `loads`. */
  lemma TypedAliasExample()
    ensures Packable("loadsr") && |Encode("loadsr")| <= 32 && TypedAlias("loadsr")
    ensures Named("loadsr") == None && Named(Text(Packed("loadsr"))) == Some(Loads)
  {
    hide *;
    var w := "loadsr";
    LoadsrNumerals();
    KnownWord(w, 6);
    assert w[..6] == w;
    LoadsrIsAhead();
    OnlyLoadsr(w);
    CutSpells(w, Loads);
    NamedIsSpelled(Text(Packed(w)), Loads);
    LoadsrUnnamed();
  }

  lemma LoadsrUnnamed()
    ensures Named("loadsr") == None
  {
  }

  /** The typed words that reach a routine: its spelling and, for `loads`, one more. */
  lemma ReachedBy(w: string, b: Builtin)
    requires Packable(w) && |Encode(w)| <= 32
    ensures Named(Text(Packed(w))) == Some(b) <==> w == Spelling(b) || (b == Loads && w == "loadsr")
  {
    hide Encode, Text, Packed, Packable, Fits, SpelledAhead, Named, Spelling;
    UnpackPack(w);
    NamedIsSpelled(Text(Packed(w)), b);
    SpelledCell(b);
    CutSpells(w, b);
    if SpelledAhead(w, b) {
      AheadIsLoadsr(w, b);
      AheadOf(b);
    }
    if w == "loadsr" {
      LoadsrIsAhead();
    }
  }

  lemma AheadOf(b: Builtin)
    requires Packable("loadsr") && SpelledAhead("loadsr", b)
    ensures b == Loads
  {
    SpareBits(b);
    hide Spare, Encode;
    LeadingZeros(Index("loadsr"[|Spelling(b)|]), Spare(b));
  }

  /** So two words reach the same routine only when they are the same, or "loads" and "loadsr". */
  lemma RoutinesDiffer(v: string, w: string, b: Builtin)
    requires Packable(v) && |Encode(v)| <= 32 && Packable(w) && |Encode(w)| <= 32
    ensures Named(Text(Packed(v))) == Some(b) == Named(Text(Packed(w))) ==>
        v == w || (b == Loads && {v, w} == {"loads", "loadsr"})
  {
    hide Encode, Text, Packed, Packable, Named;
    ReachedBy(v, b);
    ReachedBy(w, b);
  }
}
