/** Cutting a word of any length into chunks that each fit in a cell. */
module Packing {
  import opened Bits
  import opened Huffman
  import opened Cells

  /** What becomes of a text: its cells, an error, or a loop without end. */
  datatype PackResult = Done(cells: seq<Word32>) | Rejected | Stalled

  /** The end of the longest prefix of `w` that fills at most a cell, sought from the one of length `k` on. */
  function Longest(w: string, k: nat): (n: nat)
    requires k <= |w| && Fits(w[..k])
    ensures k <= n <= |w| && Fits(w[..n])
    ensures n < |w| ==> |Encode(w[..n])| >= 28 || !Fits(w[..n + 1])
    decreases |w| - k
  {
    hide Fits, Encode;
    if k < |w| && |Encode(w[..k])| < 28 && Fits(w[..k + 1]) then Longest(w, k + 1) else k
  }

  /** The longest fitting chunk first, and so on to the end of the word. */
  function Chunks(w: string): (c: seq<string>)
  {
    if w == "" then [] else
      OneLetterFits(w);
      var n := Longest(w, 1);
      [w[..n]] + Chunks(w[n..])
  }

  /** Only the first cell of a word carries the tag of its function. */
  function ChunkCells(c: seq<string>, tag: nat): (cells: seq<Word32>)
    requires tag < 16
    ensures |cells| == |c|
  {
    seq(|c|, i requires 0 <= i < |c| => TextCell(Encode(c[i]), if i == 0 then tag else 0))
  }

  function WordCells(w: string, tag: nat): (cells: seq<Word32>)
    requires tag < 16
    ensures |cells| == |Chunks(w)|
  {
    ChunkCells(Chunks(w), tag)
  }

  function Join(c: seq<string>): string
  {
    if c == [] then "" else c[0] + Join(c[1..])
  }

  /** The concatenation of what the cells spell. */
  function AllText(cells: seq<Word32>): string
  {
    if cells == [] then "" else Text(cells[0]) + AllText(cells[1..])
  }

  lemma OneLetterFits(w: string)
    requires w != ""
    ensures Fits(w[..1])
  {
    assert w[..1][1..] == "";
    assert Encode(w[..1]) == Code(Index(w[0])) + [];
  }

  /** Prefixes of fitting prefixes fit, so the longest one is where growing stops. */
  lemma LongestIs(w: string, k: nat, n: nat)
    requires k <= n <= |w| && Fits(w[..n]) && (k < n ==> |Encode(w[..n - 1])| < 28)
    ensures Fits(w[..k]) && n <= Longest(w, k)
    ensures n == |w| || |Encode(w[..n])| >= 28 || !Fits(w[..n + 1]) ==> Longest(w, k) == n
    decreases n - k
  {
    hide Fits, Encode, Longest;
    assert w[..n] == w[..k] + w[k..n];
    FitsParts(w[..k], w[k..n]);
    LongestStep(w, k);
    if k < n {
      LongestIs(w, k + 1, n);
      assert w[..n - 1] == w[..k] + w[k..n - 1];
      EncodeConcat(w[..k], w[k..n - 1]);
    }
  }

  lemma LongestStep(w: string, k: nat)
    requires k <= |w| && Fits(w[..k])
    ensures Longest(w, k) ==
            if k < |w| && |Encode(w[..k])| < 28 && Fits(w[..k + 1]) then Longest(w, k + 1) else k
  {
    hide Fits, Encode;
  }

  /** A letter other than the space has a 1 in its code, so what is before it in a cell leaves room. */
  lemma RoomBefore(w: string, n: nat)
    requires 0 < n <= |w| && Fits(w[..n]) && 1 <= Index(w[n - 1]) < 48
    ensures |Encode(w[..n - 1])| < 28
  {
    hide Encode, Index, Code;
    var v, k := w[..n - 1], Index(w[n - 1]);
    CodeNonZero(k);
    var i :| 0 <= i < |Code(k)| && Code(k)[i];
    assert w[..n] == v + [w[n - 1]];
    EncodeConcat(v, [w[n - 1]]);
    OneLetter(w[n - 1]);
    assert Encode(w[..n])[|Encode(v)| + i];
  }

  /** In a word without spaces, the longest prefix is the longest that fits. */
  lemma LongestFitting(w: string, n: nat)
    requires Packable(w) && 1 <= n <= |w| && Fits(w[..n])
    ensures Fits(w[..1]) && n <= Longest(w, 1)
    ensures n == |w| || !Fits(w[..n + 1]) ==> Longest(w, 1) == n
  {
    hide Encode, Fits, Index;
    RoomBefore(w, n);
    LongestIs(w, 1, n);
  }

  lemma LongestStops(w: string)
    requires Packable(w) && w != "" && Fits(w[..1])
    ensures Longest(w, 1) < |w| ==> !Fits(w[..Longest(w, 1) + 1])
  {
    hide Encode, Fits, Index;
    var n := Longest(w, 1);
    if n < |w| && Fits(w[..n + 1]) {
      RoomBefore(w, n + 1);
    }
  }

  lemma OneLetter(c: char)
    ensures Encode([c]) == Code(Index(c))
  {
    assert [c][1..] == "";
  }

  lemma {:induction false} ChunksFit(w: string)
    ensures Join(Chunks(w)) == w
    ensures forall i :: 0 <= i < |Chunks(w)| ==> Chunks(w)[i] != "" && Fits(Chunks(w)[i])
    ensures Packable(w) ==> forall i :: 0 <= i < |Chunks(w)| ==> Packable(Chunks(w)[i])
    ensures InAlphabet(w) ==> forall i :: 0 <= i < |Chunks(w)| ==> InAlphabet(Chunks(w)[i])
  {
    hide Fits, Encode, Index, Longest, Join;
    if w != "" {
      OneLetterFits(w);
      var n := Longest(w, 1);
      ChunksFit(w[n..]);
      JoinStep(Chunks(w));
      assert w == w[..n] + w[n..];
    } else {
      JoinNone();
    }
  }

  lemma JoinNone()
    ensures Join([]) == ""
  {
  }

  lemma {:induction false} AllTextOfChunks(c: seq<string>, tag: nat)
    requires tag < 16
    requires forall i :: 0 <= i < |c| ==> Packable(c[i]) && Fits(c[i])
    ensures AllText(ChunkCells(c, tag)) == Join(c)
  {
    hide *;
    if c == [] {
      NoChunks(tag);
    } else {
      TextOfFitting(c[0], tag);
      FirstChunkCell(c, tag);
      AllTextStep(ChunkCells(c, tag));
      JoinStep(c);
      AllTextOfChunks(c[1..], 0);
    }
  }

  lemma NoChunks(tag: nat)
    requires tag < 16
    ensures AllText(ChunkCells([], tag)) == Join([]) == ""
  {
  }

  lemma FirstChunkCell(c: seq<string>, tag: nat)
    requires tag < 16 && c != []
    ensures ChunkCells(c, tag)[0] == TextCell(Encode(c[0]), tag)
    ensures ChunkCells(c, tag)[1..] == ChunkCells(c[1..], 0)
  {
    hide TextCell, Encode;
  }

  lemma AllTextStep(cells: seq<Word32>)
    requires cells != []
    ensures AllText(cells) == Text(cells[0]) + AllText(cells[1..])
  {
    hide Text;
  }

  lemma JoinStep(chunks: seq<string>)
    requires chunks != []
    ensures Join(chunks) == chunks[0] + Join(chunks[1..])
  {
  }

  /** A packed word is read back whole; the first cell carries the tag, later ones tag 0. */
  lemma WordRoundTrip(w: string, tag: nat)
    requires Packable(w) && tag < 16
    ensures AllText(WordCells(w, tag)) == w
    ensures forall i :: 0 <= i < |WordCells(w, tag)| ==> Tag(WordCells(w, tag)[i]) == if i == 0 then tag else 0
    ensures w != "" ==> WordCells(w, tag) != []
  {
    ChunksFit(w);
    AllTextOfChunks(Chunks(w), tag);
    forall i | 0 <= i < |Chunks(w)|
      ensures Tag(WordCells(w, tag)[i]) == if i == 0 then tag else 0
    {
      TextCellParts(Encode(Chunks(w)[i]), if i == 0 then tag else 0);
    }
  }

  lemma {:induction false} DecodeEndsSolid(b: BitString)
    ensures EndsSolid(Decode(b))
    decreases |b|
  {
    hide Index, Letter;
    if !AllZero(b) {
      var k := FirstLetter(b);
      var rest := Drop(b, CodeLength(k));
      DecodeEndsSolid(rest);
      if AllZero(rest) {
        AllZeroAt(rest);
        AllZeroAt(b);
        IndexOfLetter(k);
        FirstIsSolid(b);
      }
    }
  }

  /** The last letter read off a bit string has the last 1 of it. */
  lemma FirstIsSolid(b: BitString)
    requires !AllZero(b) && AllZero(Drop(b, CodeLength(FirstLetter(b))))
    ensures FirstLetter(b) != 0
  {
    hide Val, FirstLetter;
    var k := FirstLetter(b);
    TakeCode(b);
    var i :| 0 <= i < |b| && b[i];
    assert At(b, i);
    var n := CodeLength(k);
    assert i >= n ==> At(Drop(b, n), i - n);
    assert Take(b, n)[i];
    CodeOfSpace();
  }

  lemma CodeOfSpace()
    ensures AllZero(Code(0)) && |Code(0)| == 4
  {
  }

  /** Greedy stays ahead: cutting a suffix of the joined parts needs no more chunks than there are parts. */
  lemma {:induction false} StaysAhead(v: string, parts: seq<string>)
    requires |v| <= |Join(parts)| && v == Join(parts)[|Join(parts)| - |v|..]
    requires forall i :: 0 <= i < |parts| ==> Fits(parts[i]) && InAlphabet(parts[i]) && EndsSolid(parts[i])
    ensures |Chunks(v)| <= |parts|
  {
    hide Fits, Encode, Index;
    if v != "" {
      var rest := Join(parts[1..]);
      JoinStep(parts);
      if |v| <= |rest| {
        StaysAhead(v, parts[1..]);
      } else {
        var m := |v| - |rest|;
        var cut := |parts[0]| - m;
        assert v == parts[0][cut..] + rest;
        assert parts[0] == parts[0][..cut] + v[..m];
        FitsParts(parts[0][..cut], v[..m]);
        RoomBefore(v, m);
        LongestIs(v, 1, m);
        StaysAhead(v[Longest(v, 1)..], parts[1..]);
      }
    }
  }

  /** No way of spreading a word over cells that each spell a part of it takes fewer cells. */
  lemma GreedyOptimal(w: string, tag: nat, cells: seq<Word32>)
    requires tag < 16 && AllText(cells) == w
    ensures |WordCells(w, tag)| <= |cells|
  {
    hide Text, Fits, Index;
    var parts := seq(|cells|, i requires 0 <= i < |cells| => Text(cells[i]));
    JoinedText(cells, parts);
    forall i | 0 <= i < |parts|
      ensures Fits(parts[i]) && InAlphabet(parts[i]) && EndsSolid(parts[i])
    {
      CellTextFits(cells[i]);
      TextEndsSolid(cells[i]);
    }
    StaysAhead(w, parts);
  }

  lemma TextEndsSolid(c: Word32)
    ensures EndsSolid(Text(c))
  {
    DecodeEndsSolid(TextBits(c));
  }

  lemma {:induction false} JoinedText(cells: seq<Word32>, parts: seq<string>)
    requires |parts| == |cells| && forall i :: 0 <= i < |cells| ==> parts[i] == Text(cells[i])
    ensures Join(parts) == AllText(cells)
  {
    hide Text;
    if cells != [] {
      JoinedText(cells[1..], parts[1..]);
    }
  }

  // ---------------------------------------------------------------- texts with spaces

  /** Seven spaces fill a cell with zeros, which the packing loop takes for an empty cell. */
  const SEVEN_SPACES := "       "

  predicate AllSpaces(c: string)
  {
    forall i :: 0 <= i < |c| ==> c[i] == ' '
  }

  /** How many letters of a text come before the first that is not in the alphabet. */
  function Accepted(w: string): (n: nat)
    ensures n <= |w| && InAlphabet(w[..n]) && (n < |w| ==> Index(w[n]) == 48)
  {
    if w == "" || Index(w[0]) == 48 then 0 else 1 + Accepted(w[1..])
  }

  /** One of the chunks is seven spaces, and something follows it. */
  predicate Stuck(cs: seq<string>, more: bool)
  {
    exists i {:trigger cs[i]} :: 0 <= i < |cs| && cs[i] == SEVEN_SPACES && (i + 1 < |cs| || more)
  }

  /** The chunks that get a cell: spaces at the end of a text do not. */
  function Kept(cs: seq<string>): (k: seq<string>)
  {
    if cs != [] && AllSpaces(cs[|cs| - 1]) then cs[..|cs| - 1] else cs
  }

  function PackOutcome(w: string, tag: nat): PackResult
    requires tag < 16
  {
    var n := Accepted(w);
    var cs := Chunks(w[..n]);
    if Stuck(cs, n < |w|) then Stalled else if n < |w| then Rejected else Done(ChunkCells(Kept(cs), tag))
  }

  lemma AcceptedAll(w: string)
    requires InAlphabet(w)
    ensures Accepted(w) == |w|
  {
  }

  /** A word without spaces is packed into the cells of its chunks. */
  lemma PackableOutcome(w: string, tag: nat)
    requires Packable(w) && tag < 16
    ensures PackOutcome(w, tag) == Done(WordCells(w, tag))
  {
    hide Index, Chunks, ChunkCells;
    var cs := Chunks(w);
    AcceptedAll(w);
    assert w[..|w|] == w;
    ChunksFit(w);
    IndexOfLetter(0);
    forall i {:trigger cs[i]} | 0 <= i < |cs|
      ensures !AllSpaces(cs[i]) && cs[i] != SEVEN_SPACES
    {
      assert Index(cs[i][0]) != 0;
    }
  }

  lemma {:induction false} AcceptedPrefix(v: string, rest: string)
    requires InAlphabet(v) && rest != "" && Index(rest[0]) == 48
    ensures Accepted(v + rest) == |v|
    decreases |v|
  {
    hide Index;
    if v == "" {
      assert v + rest == rest;
    } else {
      assert (v + rest)[1..] == v[1..] + rest;
      AcceptedPrefix(v[1..], rest);
    }
  }

  /** A character outside the alphabet, behind a word without spaces, is an error, whatever follows. */
  lemma UnknownRejected(v: string, rest: string, tag: nat)
    requires Packable(v) && rest != "" && Index(rest[0]) == 48 && tag < 16
    ensures PackOutcome(v + rest, tag) == Rejected
  {
    hide Index, Chunks, ChunkCells;
    var cs := Chunks(v);
    AcceptedPrefix(v, rest);
    assert (v + rest)[..|v|] == v;
    ChunksFit(v);
    IndexOfLetter(0);
    forall i {:trigger cs[i]} | 0 <= i < |cs|
      ensures cs[i] != SEVEN_SPACES
    {
      assert Index(cs[i][0]) != 0;
    }
  }

  /** A text without the spaces at its end. */
  function Trim(c: string): (t: string)
    ensures |t| <= |c|
  {
    if c != "" && c[|c| - 1] == ' ' then Trim(c[..|c| - 1]) else c
  }

  lemma {:induction false} TrimExactly(c: string)
    requires InAlphabet(c)
    ensures InAlphabet(Trim(c)) && EndsSolid(Trim(c))
    ensures |Trim(c)| == |c| <==> EndsSolid(c)
    ensures EndsSolid(c) ==> Trim(c) == c
    ensures AllSpaces(c) ==> Trim(c) == ""
    decreases |c|
  {
    hide Index;
    if c != "" {
      IndexOfLetter(0);
      LetterOfIndex(c[|c| - 1]);
      assert Letter(0) == ' ';
      if c[|c| - 1] == ' ' {
        TrimExactly(c[..|c| - 1]);
      }
    }
  }

  /** A cell spells its chunk without the spaces at the end, whose codes are zeros. */
  lemma {:induction false} TextOfChunk(c: string, tag: nat)
    requires InAlphabet(c) && Fits(c) && tag < 16
    ensures Text(TextCell(Encode(c), tag)) == Trim(c)
    decreases |c|
  {
    hide Text, TextCell, Encode, Fits, Index;
    if c != "" && c[|c| - 1] == ' ' {
      var d := c[..|c| - 1];
      assert c == d + [' '];
      FitsParts(d, [' ']);
      TextOfChunk(d, tag);
      SpaceAdded(d);
      SameCell(c, d, tag);
    } else {
      TrimExactly(c);
      SolidEnd(c);
      TextOfSolid(c, tag);
    }
  }

  lemma SolidEnd(c: string)
    requires InAlphabet(c) && (c == "" || c[|c| - 1] != ' ')
    ensures EndsSolid(c)
  {
    hide Index;
    if c != "" {
      LetterOfIndex(c[|c| - 1]);
      assert Letter(0) == ' ';
    }
  }

  lemma SpaceAdded(d: string)
    ensures SameBits(Encode(d + [' ']), Encode(d))
  {
    hide Encode, Code, Index;
    EncodeConcat(d, [' ']);
    OneLetter(' ');
    IndexOfLetter(0);
    assert Letter(0) == ' ';
    CodeOfSpace();
    var e, f := Encode(d), Encode(d + [' ']);
    forall i: nat
      ensures At(f, i) == At(e, i)
    {
      assert |e| <= i < |f| ==> f[i] == Code(0)[i - |e|];
    }
  }

  lemma SameCell(c: string, d: string, tag: nat)
    requires SameBits(Encode(c), Encode(d)) && tag < 16
    ensures TextCell(Encode(c), tag) == TextCell(Encode(d), tag)
  {
    hide Encode, Val;
    assert Take(Encode(c), 28) == Take(Encode(d), 28);
  }

  function Trimmed(cs: seq<string>): (t: seq<string>)
    ensures |t| == |cs|
  {
    seq(|cs|, i requires 0 <= i < |cs| => Trim(cs[i]))
  }

  lemma {:induction false} AllTextOfTrimmed(c: seq<string>, tag: nat)
    requires tag < 16
    requires forall i :: 0 <= i < |c| ==> InAlphabet(c[i]) && Fits(c[i])
    ensures AllText(ChunkCells(c, tag)) == Join(Trimmed(c))
  {
    hide *;
    TrimmedStep(c);
    if c == [] {
      NoChunks(tag);
    } else {
      TextOfChunk(c[0], tag);
      FirstChunkCell(c, tag);
      AllTextStep(ChunkCells(c, tag));
      JoinStep(Trimmed(c));
      AllTextOfTrimmed(c[1..], 0);
    }
  }

  lemma TrimmedStep(c: seq<string>)
    ensures c == [] ==> Trimmed(c) == []
    ensures c != [] ==> Trimmed(c)[0] == Trim(c[0]) && Trimmed(c)[1..] == Trimmed(c[1..])
  {
  }

  lemma {:induction false} JoinConcat(a: seq<string>, b: seq<string>)
    ensures Join(a + b) == Join(a) + Join(b)
  {
    if a == [] {
      assert a + b == b;
    } else {
      assert (a + b)[1..] == a[1..] + b;
      JoinConcat(a[1..], b);
    }
  }

  /** Spaces dropped at the end of a text would not have been read back either. */
  lemma KeptTrimmed(cs: seq<string>)
    requires forall i :: 0 <= i < |cs| ==> InAlphabet(cs[i])
    ensures Join(Trimmed(Kept(cs))) == Join(Trimmed(cs))
  {
    hide Trim, InAlphabet;
    if cs != [] && AllSpaces(cs[|cs| - 1]) {
      var n := |cs| - 1;
      TrimExactly(cs[n]);
      assert Trimmed(cs) == Trimmed(cs[..n]) + [""];
      JoinConcat(Trimmed(cs[..n]), [""]);
      assert [""][1..] == [];
    }
  }

  lemma {:induction false} TrimmedLength(cs: seq<string>)
    requires forall i :: 0 <= i < |cs| ==> InAlphabet(cs[i])
    ensures |Join(Trimmed(cs))| <= |Join(cs)|
    ensures |Join(Trimmed(cs))| == |Join(cs)| <==> forall i :: 0 <= i < |cs| ==> EndsSolid(cs[i])
    ensures (forall i :: 0 <= i < |cs| ==> EndsSolid(cs[i])) ==> Trimmed(cs) == cs
  {
    hide Trim, InAlphabet, EndsSolid;
    TrimmedStep(cs);
    if cs != [] {
      TrimExactly(cs[0]);
      TrimmedLength(cs[1..]);
    }
  }

  /**
   * A text with spaces that packing gets through is read back without the spaces at the ends of its chunks, and so
   * whole exactly when no chunk ends with one.
   */
  lemma SpacedRoundTrip(w: string, tag: nat)
    requires tag < 16 && PackOutcome(w, tag).Done?
    ensures AllText(PackOutcome(w, tag).cells) == Join(Trimmed(Chunks(w)))
    ensures AllText(PackOutcome(w, tag).cells) == w <==> forall i :: 0 <= i < |Chunks(w)| ==> EndsSolid(Chunks(w)[i])
  {
    hide Chunks, ChunkCells, Join, Trimmed, AllText, EndsSolid, Fits, Index, AllSpaces;
    assert w[..|w|] == w;
    var cs := Chunks(w);
    ChunksFit(w);
    AllTextOfTrimmed(Kept(cs), tag);
    KeptTrimmed(cs);
    TrimmedLength(cs);
  }

  /** The first eight letters, of which the space is one, have codes of four bits. */
  lemma {:induction false} ShortCodes(w: string)
    requires forall i :: 0 <= i < |w| ==> Index(w[i]) < 8
    ensures |Encode(w)| == 4 * |w| && InAlphabet(w) && (|w| <= 7 ==> Fits(w))
    decreases |w|
  {
    hide Index;
    if w != "" {
      ShortCodes(w[1..]);
      CodeBounds(Index(w[0]));
    }
  }

  const SPACED: string := "aaaaaa a"

  lemma SpacedLetters()
    ensures Index('a') == 5 && Index(' ') == 0
    ensures forall i :: 0 <= i < |SPACED| ==> Index(SPACED[i]) < 8
  {
    IndexOfLetter(0);
    IndexOfLetter(5);
    assert Letter(0) == ' ' && Letter(5) == 'a';
  }

  lemma SpacedChunks()
    ensures InAlphabet(SPACED) && Chunks(SPACED) == ["aaaaaa ", "a"]
  {
    hide Encode, Fits, Index, Longest;
    SpacedLetters();
    var w := SPACED;
    ShortCodes(w);
    ShortCodes(w[..7]);
    ShortCodes(w[..6]);
    assert w[..7][..6] == w[..6];
    LongestIs(w, 1, 7);
    var v := w[7..];
    assert v == "a" && v[..1] == v;
    ShortCodes(v);
    LongestIs(v, 1, 1);
    ChunksStep(w, 7);
    ChunksStep(v, 1);
    assert w[..7] == "aaaaaa " && v[1..] == "";
  }

  lemma ChunksStep(w: string, n: nat)
    requires w != "" && Fits(w[..1]) && Longest(w, 1) == n
    ensures Chunks(w) == [w[..n]] + Chunks(w[n..])
  {
    hide Longest, Fits;
  }

  /** A text that loses a space: it is the last letter of the first cell. */
  lemma SpacedExample(tag: nat)
    requires tag < 16
    ensures PackOutcome(SPACED, tag).Done?
    ensures AllText(PackOutcome(SPACED, tag).cells) == "aaaaaaa" != SPACED
  {
    hide *;
    SpacedOutcome(tag);
    SpacedChunks();
    SpacedRoundTrip(SPACED, tag);
    TrimOne("aaaaaa");
    TrimmedTwo("aaaaaa" + " ", "a");
    assert "aaaaaa" + " " == "aaaaaa " && "aaaaaa" + "a" == "aaaaaaa";
  }

  lemma TrimmedTwo(c: string, d: string)
    ensures Join(Trimmed([c, d])) == Trim(c) + Trim(d)
  {
    hide Trim;
    var t := Trimmed([c, d]);
    assert t == [Trim(c), Trim(d)] && t[1..] == [Trim(d)] && t[1..][1..] == [];
    JoinStep(t);
    JoinStep(t[1..]);
  }

  lemma SpacedOutcome(tag: nat)
    requires tag < 16
    ensures PackOutcome(SPACED, tag).Done? && SPACED != "aaaaaaa"
  {
    SpacedChunks();
    hide Chunks, ChunkCells, Index;
    AcceptedAll(SPACED);
    assert SPACED[..|SPACED|] == SPACED;
  }

  lemma TrimOne(c: string)
    requires c == "aaaaaa"
    ensures Trim(c + " ") == c && Trim("a") == "a"
  {
    assert (c + " ")[..6] == c;
  }

  /** The chunks of a word with a space behind it: the space goes into the last chunk if that has room. */
  lemma {:induction false} ChunksSpace(w: string)
    requires w != "" && Packable(w)
    ensures var cs, n := Chunks(w), |Chunks(w)| - 1;
            n >= 0 && Chunks(w + " ") == if |Encode(cs[n])| < 28 then cs[..n] + [cs[n] + " "] else cs + [" "]
    decreases |w|
  {
    hide *;
    OneLetterFits(w);
    var n, v := Longest(w, 1), w + " ";
    LongestIn(w);
    ChunksStep(w, n);
    assert v[..1] == w[..1] && v[..n] == w[..n];
    PackableAt(w, n - 1);
    RoomBefore(w, n);
    assert v[..n - 1] == w[..n - 1];
    if n < |w| {
      assert v[..n + 1] == w[..n + 1] && v[n..] == w[n..] + " ";
      LongestIs(v, 1, n);
      ChunksStep(v, n);
      PackableRest(w, n);
      ChunksSpace(w[n..]);
    } else {
      assert w[..n] == w && w[n..] == "" && v[n..] == " " && v[..n + 1] == v && v[n + 1..] == "";
      NoneLeft();
      if |Encode(w)| < 28 {
        SpaceFits(w);
        LongestIs(v, 1, n + 1);
        ChunksStep(v, n + 1);
      } else {
        LongestIs(v, 1, n);
        ChunksStep(v, n);
      }
    }
  }

  lemma LongestIn(w: string)
    requires w != "" && Fits(w[..1])
    ensures var n := Longest(w, 1);
            1 <= n <= |w| && Fits(w[..n]) && (n < |w| ==> |Encode(w[..n])| >= 28 || !Fits(w[..n + 1]))
  {
    hide Fits, Encode;
  }

  lemma PackableAt(w: string, i: nat)
    requires Packable(w) && i < |w|
    ensures 1 <= Index(w[i]) < 48
  {
    hide Index;
  }

  lemma PackableRest(w: string, n: nat)
    requires Packable(w) && n < |w|
    ensures w[n..] != "" && Packable(w[n..])
  {
    hide Index;
  }

  lemma NoneLeft()
    ensures Chunks("") == [] && Chunks(" ") == [" "]
  {
    hide Fits, Encode;
    OneLetterFits(" ");
    assert " "[..1] == " " && " "[1..] == "";
  }

  lemma SpaceFits(w: string)
    requires Fits(w)
    ensures Fits(w + " ") && (w + " ")[..|w|] == w
  {
    hide Encode;
    SpaceAdded(w);
    FitsAt(w);
    FitsAt(w + " ");
    assert w + [' '] == w + " ";
  }

  /** A space behind a word makes no difference: it takes no cell of its own. */
  lemma SpaceDropped(w: string, tag: nat)
    requires Packable(w) && tag < 16
    ensures PackOutcome(w + " ", tag) == PackOutcome(w, tag)
  {
    hide *;
    PackableOutcome(w, tag);
    SpacedAccepted(w);
    if w == "" {
      var none: seq<string> := [];
      NoneLeft();
      assert "" + " " == " " && none + [" "] == [" "];
      KeptOf(none, " ");
      CellsOfWhole("", tag);
      OutcomeOf(" ", [" "], tag);
      CellsOfNone(tag);
    } else {
      var cs, n := Chunks(w), |Chunks(w)| - 1;
      ChunksSpace(w);
      ChunksSolid(w);
      if |Encode(cs[n])| < 28 {
        KeptOf(cs[..n], cs[n] + " ");
        OutcomeOf(w + " ", cs[..n] + [cs[n] + " "], tag);
        SameLastCell(cs, tag);
      } else {
        KeptOf(cs, " ");
        OutcomeOf(w + " ", cs + [" "], tag);
      }
      CellsOfWhole(w, tag);
    }
  }

  lemma SpacedAccepted(w: string)
    requires Packable(w)
    ensures Accepted(w + " ") == |w + " "|
  {
    hide Index;
    IndexOfLetter(0);
    assert Letter(0) == ' ';
    AcceptedAll(w + " ");
  }

  lemma OutcomeOf(w: string, cs: seq<string>, tag: nat)
    requires Accepted(w) == |w| && Chunks(w) == cs && tag < 16 && !Stuck(cs, false)
    ensures PackOutcome(w, tag) == Done(ChunkCells(Kept(cs), tag))
  {
    hide Chunks, ChunkCells, Kept, Stuck, Accepted;
    assert w[..|w|] == w;
  }

  /** A last chunk that is a single space gets no cell, one that ends with a letter and a space does. */
  lemma KeptOf(before: seq<string>, last: string)
    requires forall i :: 0 <= i < |before| ==> before[i] != SEVEN_SPACES
    requires last == " " || (last != "" && last[0] != ' ')
    ensures !Stuck(before + [last], false)
    ensures Kept(before + [last]) == if last == " " then before else before + [last]
  {
    var cs := before + [last];
    assert cs[..|cs| - 1] == before;
    assert forall i {:trigger cs[i]} :: 0 <= i < |before| ==> cs[i] == before[i];
  }

  lemma ChunksSolid(w: string)
    requires w != "" && Packable(w)
    ensures Chunks(w) != []
    ensures forall i :: 0 <= i < |Chunks(w)| ==>
        Chunks(w)[i] != "" && Chunks(w)[i][0] != ' ' && (Chunks(w)[i] + " ")[0] != ' ' && Chunks(w)[i] != SEVEN_SPACES
  {
    hide Index, Chunks, Fits, Encode;
    ChunksFit(w);
    IndexOfLetter(0);
    assert Letter(0) == ' ';
    JoinNone();
    forall i | 0 <= i < |Chunks(w)|
      ensures Chunks(w)[i][0] != ' '
    {
      assert Index(Chunks(w)[i][0]) != 0;
    }
  }

  lemma CellsOfNone(tag: nat)
    requires tag < 16
    ensures ChunkCells([], tag) == [] == WordCells("", tag)
  {
  }

  lemma CellsOfWhole(w: string, tag: nat)
    requires tag < 16
    ensures WordCells(w, tag) == ChunkCells(Chunks(w), tag)
  {
    hide Chunks, ChunkCells;
  }

  lemma SameLastCell(cs: seq<string>, tag: nat)
    requires cs != [] && tag < 16
    ensures ChunkCells(cs[..|cs| - 1] + [cs[|cs| - 1] + " "], tag) == ChunkCells(cs, tag)
  {
    hide Encode, TextCell;
    var n := |cs| - 1;
    SpaceAdded(cs[n]);
    assert cs[n] + [' '] == cs[n] + " ";
    SameCell(cs[n] + " ", cs[n], if n == 0 then tag else 0);
  }
}
