/** The packing loop of `word_to_long_array`, proved against the greedy cut of the word. */
module Packer {
  import opened Bits
  import opened Huffman
  import opened Cells
  import opened Packing

  /** The bits of `e` that reach the cell. */
  function Clip(e: BitString): (c: BitString)
    ensures |c| <= 28
  {
    if |e| <= 28 then e else e[..28]
  }

  lemma EncodeSnoc(chunk: string, c: char)
    ensures Encode(chunk + [c]) == Encode(chunk) + Code(Index(c))
  {
    EncodeConcat(chunk, [c]);
    assert Encode([c]) == Code(Index(c)) + Encode([c][1..]);
    assert [c][1..] == "";
  }

  /** Packing by shift and or, and by shift and exclusive or, appends bits. */
  lemma PackArithmetic(e: BitString, k: BitString)
    requires |e| + |k| <= 28
    ensures BitOr(Val(e) * Pow2(|k|) % WORD, Val(k)) == Val(e + k)
    ensures BitXor(Val(e) * Pow2(|k|) % WORD, Val(k)) == Val(e + k)
  {
    hide Val, Pow2, BitOr, BitXor;
    ShortVal(e + k);
    ValConcat(e, k);
    ValBound(k);
    ModSmall(Val(e) * Pow2(|k|));
    DisjointBits(Val(e), |k|, Val(k));
  }

  lemma ShortVal(b: BitString)
    requires |b| <= 28
    ensures Val(b) < 0x1000_0000
  {
    ValBound(b);
    Pow2Smaller(|b|, 28);
    Pow2Constants();
  }

  lemma ModSmall(p: nat)
    requires p < WORD
    ensures p % WORD == p
  {
  }

  /** Appending the first `n` bits of a code to what is packed so far, the rest of the code being zeros. */
  lemma PackBits(chunk: string, c: char, n: nat)
    requires n <= |Code(Index(c))| && |Encode(chunk)| + n <= 28
    requires AllZero(Code(Index(c))[n..])
    requires n == |Code(Index(c))| || |Encode(chunk)| + n == 28
    ensures Clip(Encode(chunk + [c])) == Encode(chunk) + Code(Index(c))[..n]
    ensures Fits(chunk + [c])
  {
    var e, k := Encode(chunk), Code(Index(c));
    EncodeSnoc(chunk, c);
    forall i | 28 <= i < |e + k|
      ensures !(e + k)[i]
    {
      assert (e + k)[i] == k[n..][i - |e| - n];
    }
  }

  lemma Pow2Smaller(m: nat, n: nat)
    requires m <= n
    ensures Pow2(m) <= Pow2(n)
  {
    if m < n {
      Pow2Smaller(m, n - 1);
    }
  }

  /** Dropping a zero from the end of a shrunk code. */
  lemma ShrinkBit(k: BitString, n: nat)
    requires 0 < n <= |k| && AllZero(k[n..])
    ensures Val(k[..n]) % 2 == (if k[n - 1] then 1 else 0) && Val(k[..n]) / 2 == Val(k[..n - 1])
    ensures !k[n - 1] ==> AllZero(k[n - 1..])
  {
    assert k[..n][..n - 1] == k[..n - 1];
    assert forall i :: n <= i < |k| ==> k[i] == k[n..][i - n];
  }

  /** A code with a 1 past the room left does not fit. */
  lemma DoesNotFit(chunk: string, c: char, n: nat)
    requires 0 < n <= |Code(Index(c))| && |Encode(chunk)| + n > 28 && Code(Index(c))[n - 1]
    ensures !Fits(chunk + [c])
  {
    EncodeSnoc(chunk, c);
    assert Encode(chunk + [c])[|Encode(chunk)| + n - 1];
  }

  /** The finished cell. */
  function Finished(packed: nat, bits: nat, tag: nat): nat
  {
    BitOr(packed * Pow2(bits + 4) % WORD, tag)
  }

  lemma FinishValue(packed: nat, bits: nat, tag: nat, v: nat)
    requires packed * Pow2(bits + 4) == v * 16 && v < 0x1000_0000 && tag < 16
    ensures Finished(packed, bits, tag) == v * 16 + tag
  {
    ModSmall(v * 16);
    OrTag(v, tag);
  }

  lemma OrTag(v: nat, tag: nat)
    requires tag < 16
    ensures BitOr(v * 16, tag) == v * 16 + tag
  {
    Pow2Constants();
    DisjointBits(v, 4, tag);
  }

  lemma FinishedCell(e: BitString, tag: nat)
    requires tag < 16
    ensures Finished(Val(Clip(e)), 28 - |Clip(e)|, tag) == TextCell(e, tag)
  {
    var c, t := Clip(e), Take(e, 28);
    AppendZeros(c, 32 - |c|);
    AppendZeros(t, 4);
    assert c + Zeros(32 - |c|) == t + Zeros(4);
    Pow2Constants();
    ShortVal(t);
    FinishValue(Val(c), 28 - |c|, tag, Val(t));
  }

  /** The packer's variables describe the chunk in the open cell, each letter of which found room. */
  ghost predicate Holds(chunk: string, packed: nat, bits: nat)
  {
    && InAlphabet(chunk) && Fits(chunk)
    && (chunk != "" ==> |Encode(chunk[..|chunk| - 1])| < 28)
    && packed == Val(Clip(Encode(chunk)))
    && bits == 28 - |Clip(Encode(chunk))|
  }

  lemma AddLetter(chunk: string, c: char, packed: nat, bits: nat, n: nat)
    requires Holds(chunk, packed, bits) && Index(c) < 48
    requires 0 < n <= bits && n <= |Code(Index(c))| && AllZero(Code(Index(c))[n..])
    requires n == |Code(Index(c))| || n == bits
    ensures var k := Val(Code(Index(c))[..n]);
            && Holds(chunk + [c], BitOr(packed * Pow2(n) % WORD, k), bits - n)
            && BitXor(packed * Pow2(n) % WORD, k) == BitOr(packed * Pow2(n) % WORD, k)
  {
    hide Encode, Index, Code, Val, Pow2, BitOr, BitXor;
    PackBits(chunk, c, n);
    PackArithmetic(Encode(chunk), Code(Index(c))[..n]);
    assert (chunk + [c])[..|chunk|] == chunk;
  }

  lemma {:induction false} SpacesEncode(c: string)
    ensures AllSpaces(c) ==> AllZero(Encode(c)) && |Encode(c)| == 4 * |c|
    ensures InAlphabet(c) && AllZero(Encode(c)) ==> AllSpaces(c)
    decreases |c|
  {
    hide Index, Code, Encode, CodeLength;
    if c != "" {
      var n := |c| - 1;
      EncodeLast(c);
      SpacesEncode(c[..n]);
      CodeOfSpace();
      IndexOfLetter(0);
      assert Letter(0) == ' ';
      if InAlphabet(c) && AllZero(Encode(c)) {
        LastZero(Encode(c[..n]), Code(Index(c[n])));
        LetterOfIndex(c[n]);
        SpaceOnly(Index(c[n]));
      }
    } else {
      SomeCode(c);
    }
  }

  lemma LastZero(a: BitString, b: BitString)
    requires AllZero(a + b)
    ensures AllZero(a) && AllZero(b)
  {
    assert forall i :: 0 <= i < |a| ==> a[i] == (a + b)[i];
    assert forall i :: 0 <= i < |b| ==> b[i] == (a + b)[|a| + i];
  }

  lemma SpaceOnly(k: nat)
    requires k < 48 && AllZero(Code(k))
    ensures k == 0
  {
    if k > 0 {
      CodeNonZero(k);
    }
  }

  /** An empty cell is recognised by its free bits; its packed value is also that of a cell of spaces. */
  lemma EmptyCell(chunk: string, packed: nat, bits: nat)
    requires Holds(chunk, packed, bits)
    ensures bits <= 28 && (chunk == "" <==> bits == 28)
    ensures AllSpaces(chunk) <==> packed == 0
    ensures bits == 0 <==> |Encode(chunk)| >= 28
    ensures bits == 0 && packed == 0 ==> chunk == SEVEN_SPACES
    ensures bits > 0 ==> chunk != SEVEN_SPACES
  {
    hide Encode, Val, Index;
    var e := Encode(chunk);
    SpacesEncode(chunk);
    ValZero(Clip(e));
    SomeCode(chunk);
    if AllZero(Clip(e)) {
      assert AllZero(e) by {
        assert forall i :: 0 <= i < |e| ==> e[i] == if i < 28 then Clip(e)[i] else e[i];
      }
    }
    if AllSpaces(chunk) && |e| >= 28 {
      SpacesEncode(chunk[..|chunk| - 1]);
      assert |chunk| == 7;
      assert chunk == SEVEN_SPACES;
    }
    assert AllSpaces(SEVEN_SPACES);
  }

  lemma SomeCode(c: string)
    ensures c == "" <==> Encode(c) == []
  {
  }

  /** `done` starts the cut of `w`, and the cut of `rest` ends it. */
  ghost predicate Cut(w: string, done: seq<string>, rest: string)
  {
    Chunks(w) == done + Chunks(rest)
  }

  /** The finished chunks with the open one follow the cut of `w`, looked at up to `idx`; none of them is stuck. */
  ghost predicate Follows(w: string, done: seq<string>, chunk: string, idx: nat)
  {
    && idx <= |w| && InAlphabet(w)
    && (forall i :: 0 <= i < |done| ==> done[i] != SEVEN_SPACES)
    && Cut(w, done, chunk + w[idx..])
  }

  /** The open chunk cannot take the next letter: the cell is full, or the letter does not fit. */
  ghost predicate Full(chunk: string, rest: string)
  {
    rest == "" || |Encode(chunk)| >= 28 || !Fits(chunk + [rest[0]])
  }

  /** Finishing a chunk that cannot grow follows the cut. */
  lemma ChunkEnds(chunk: string, rest: string)
    requires chunk != "" && Fits(chunk) && |Encode(chunk[..|chunk| - 1])| < 28 && Full(chunk, rest)
    ensures Chunks(chunk + rest) == [chunk] + Chunks(rest)
  {
    hide Encode, Fits;
    var v := chunk + rest;
    var n := |chunk|;
    assert v[..n] == chunk && v[n..] == rest && v[..n - 1] == chunk[..n - 1];
    assert n < |v| ==> v[..n + 1] == chunk + [rest[0]];
    LongestIs(v, 1, n);
  }

  lemma CloseChunk(w: string, done: seq<string>, chunk: string, idx: nat, packed: nat, bits: nat)
    requires Follows(w, done, chunk, idx) && Holds(chunk, packed, bits) && chunk != "" && Full(chunk, w[idx..])
    requires chunk != SEVEN_SPACES
    ensures Follows(w, done + [chunk], "", idx)
  {
    hide Chunks, Fits, Full, Encode, Index, Val, Clip;
    var rest := w[idx..];
    ChunkEnds(chunk, rest);
    assert done + ([chunk] + Chunks(rest)) == (done + [chunk]) + Chunks(rest);
    assert "" + rest == rest;
  }

  lemma NextLetterFollows(w: string, done: seq<string>, chunk: string, idx: nat)
    requires Follows(w, done, chunk, idx) && idx < |w|
    ensures Follows(w, done, chunk + [w[idx]], idx + 1)
  {
    hide Index;
    assert chunk + w[idx..] == chunk + [w[idx]] + w[idx + 1..];
  }

  lemma NothingFollows(w: string)
    requires InAlphabet(w)
    ensures Follows(w, [], "", 0)
  {
    assert "" + w[0..] == w;
    assert [] + Chunks(w) == Chunks(w);
  }

  /** The chunks of the accepted letters, once all have been looked at. */
  lemma AllCut(w: string, done: seq<string>, chunk: string, packed: nat, bits: nat)
    requires Follows(w, done, chunk, |w|) && Holds(chunk, packed, bits)
    ensures Chunks(w) == if chunk == "" then done else done + [chunk]
  {
    hide Encode, Fits, Index, Val, Clip;
    assert w[|w|..] == "" && chunk + "" == chunk;
    if chunk != "" {
      ChunkEnds(chunk, "");
      assert Chunks("") == [];
    }
  }

  lemma CloseCell(done: seq<string>, chunk: string, tag: nat, packed: nat, bits: nat)
    requires tag < 16 && Holds(chunk, packed, bits)
    ensures Finished(packed, bits, if done != [] then 0 else tag) < WORD
    ensures ChunkCells(done, tag) + [Finished(packed, bits, if done != [] then 0 else tag)]
         == ChunkCells(done + [chunk], tag)
  {
    FinishedCell(Encode(chunk), if done != [] then 0 else tag);
  }

  /** The chunks whose cells are finished, and the one in the open cell. */
  datatype Cutting = Cutting(done: seq<string>, chunk: string)
  {
    function Add(c: char): Cutting
    {
      Cutting(done, chunk + [c])
    }

    function Close(): Cutting
    {
      Cutting(done + [chunk], "")
    }
  }

  /** The state of the packer between two letters; `w` are the letters before any that is not in the alphabet. */
  ghost predicate State(w: string, tag: nat, cut: Cutting, idx: nat,
                        cells: seq<Word32>, packed: nat, bits: nat, extensionMode: bool)
    requires tag < 16
  {
    && Holds(cut.chunk, packed, bits)
    && Follows(w, cut.done, cut.chunk, idx)
    && cells == ChunkCells(cut.done, tag)
    && (extensionMode <==> cut.done != [])
  }

  /**
   * Pushing a code that fits, or one that shrinking has made fit; the source writes or for one and exclusive or for
   * the other.
   */
  method PushLetter(ghost w: string, ghost tag: nat, ghost cut: Cutting, ghost idx: nat,
                    ghost cells: seq<Word32>, packed: nat, bits: nat, ghost extensionMode: bool,
                    shrunk: bool, hl: nat, hc: nat) returns (packed': nat, bits': nat)
    requires tag < 16 && State(w, tag, cut, idx, cells, packed, bits, extensionMode)
    requires idx < |w| && Index(w[idx]) < 48
    requires 0 < hl <= bits && hl <= |Code(Index(w[idx]))| && AllZero(Code(Index(w[idx]))[hl..])
    requires hl == |Code(Index(w[idx]))| || hl == bits
    requires hc == Val(Code(Index(w[idx]))[..hl])
    ensures State(w, tag, cut.Add(w[idx]), idx + 1, cells, packed', bits', extensionMode)
    ensures bits' < 28
  {
    hide Holds, Follows, Code, Index, Val, Pow2, BitOr, BitXor, ChunkCells;
    EmptyCell(cut.chunk, packed, bits);
    AddLetter(cut.chunk, w[idx], packed, bits, hl);
    NextLetterFollows(w, cut.done, cut.chunk, idx);
    if shrunk {
      packed' := BitXor(packed * Pow2(hl) % WORD, hc);
    } else {
      packed' := BitOr(packed * Pow2(hl) % WORD, hc);
    }
    bits' := bits - hl;
  }

  /** `finish_pack`: shifts the packed bits to the top of the cell, sets the tag and appends the cell. */
  method FinishPack(ghost w: string, tag: nat, ghost cut: Cutting, ghost idx: nat,
                    cells: seq<Word32>, packed: nat, bits: nat, extensionMode: bool) returns (cells': seq<Word32>)
    requires tag < 16 && State(w, tag, cut, idx, cells, packed, bits, extensionMode)
    requires idx <= |w| && Full(cut.chunk, w[idx..]) && (packed != 0 || 0 < bits < 28)
    ensures State(w, tag, cut.Close(), idx, cells', 0, 28, true)
  {
    hide Holds, Follows, Full, ChunkCells, Finished, AllSpaces;
    EmptyCell(cut.chunk, packed, bits);
    SevenAreSpaces();
    CloseChunk(w, cut.done, cut.chunk, idx, packed, bits);
    CloseCell(cut.done, cut.chunk, tag, packed, bits);
    NewCell();
    cells' := cells + [Finished(packed, bits, if extensionMode then 0 else tag)];
  }

  lemma SevenAreSpaces()
    ensures AllSpaces(SEVEN_SPACES) && AllSpaces("")
  {
  }

  lemma NewCell()
    ensures Holds("", 0, 28)
  {
  }

  /** How the packer starts. */
  lemma Start(w: string, tag: nat)
    requires tag < 16 && InAlphabet(w)
    ensures State(w, tag, Cutting([], ""), 0, [], 0, 28, false)
  {
    NothingFollows(w);
  }

  lemma NoRoom(w: string, tag: nat, cut: Cutting, idx: nat,
               cells: seq<Word32>, packed: nat, bits: nat, extensionMode: bool, hl: nat)
    requires tag < 16 && State(w, tag, cut, idx, cells, packed, bits, extensionMode)
    requires idx < |w| && bits < hl <= |Code(Index(w[idx]))| && Code(Index(w[idx]))[hl - 1]
    ensures Full(cut.chunk, w[idx..])
  {
    DoesNotFit(cut.chunk, w[idx], hl);
  }

  lemma NoLetters(w: string, tag: nat, cut: Cutting, idx: nat,
                  cells: seq<Word32>, packed: nat, bits: nat, extensionMode: bool)
    requires tag < 16 && State(w, tag, cut, idx, cells, packed, bits, extensionMode)
    requires bits == 0 || idx == |w|
    ensures idx <= |w| && Full(cut.chunk, w[idx..]) && (AllSpaces(cut.chunk) <==> packed == 0)
    ensures cut.chunk == "" <==> bits == 28
  {
    hide Encode, Fits, Index, Val, Clip, Chunks;
    EmptyCell(cut.chunk, packed, bits);
  }

  lemma LetterCode(w: string, i: nat)
    requires i < |w| && Index(w[i]) < 48
    ensures var k := Code(Index(w[i]));
            && 4 <= |k| <= 7
            && Val(k) == CodeValue(Index(w[i])) && k[..|k|] == k && AllZero(k[|k|..])
  {
    CodeBounds(Index(w[i]));
  }

  /** At the end of a text the open cell holds only spaces, and an empty one follows a cell that did not. */
  ghost predicate Finishes(cut: Cutting)
  {
    AllSpaces(cut.chunk) && (cut.chunk == "" && cut.done != [] ==> !AllSpaces(cut.done[|cut.done| - 1]))
  }

  lemma Finish(cut: Cutting)
    ensures AllSpaces(cut.chunk) && (cut.chunk != "" || cut.done == []) ==> Finishes(cut)
    ensures !AllSpaces(cut.chunk) ==> Finishes(cut.Close())
    ensures Finishes(Cutting([], ""))
  {
  }

  lemma AcceptedLetters(param: string, idx: nat)
    requires idx <= Accepted(param)
    ensures InAlphabet(param[..Accepted(param)]) && |param[..Accepted(param)]| == Accepted(param) <= |param|
    ensures idx < |param| ==> if idx < Accepted(param) then Index(param[idx]) < 48 else Index(param[idx]) == 48
  {
    hide Index, Accepted;
    assert idx < Accepted(param) ==> param[..Accepted(param)][idx] == param[idx];
  }

  /** How the packer ends: with an error, without end, or with the cells of the chunks that are kept. */
  lemma EndsRejected(param: string, tag: nat, cut: Cutting, cells: seq<Word32>,
                     packed: nat, bits: nat, extensionMode: bool)
    requires tag < 16 && Accepted(param) < |param| && bits > 0
    requires State(param[..Accepted(param)], tag, cut, Accepted(param), cells, packed, bits, extensionMode)
    ensures PackOutcome(param, tag) == Rejected
  {
    hide Encode, Fits, Index, Val, Clip, Chunks, Accepted;
    var w := param[..Accepted(param)];
    EmptyCell(cut.chunk, packed, bits);
    AllCut(w, cut.done, cut.chunk, packed, bits);
  }

  lemma EndsStalled(param: string, tag: nat, cut: Cutting, idx: nat, cells: seq<Word32>,
                    packed: nat, bits: nat, extensionMode: bool)
    requires tag < 16 && idx < |param| && bits == 0 && packed == 0
    requires State(param[..Accepted(param)], tag, cut, idx, cells, packed, bits, extensionMode)
    ensures PackOutcome(param, tag) == Stalled
  {
    hide Encode, Fits, Index, Val, Clip, Chunks, Accepted;
    var w := param[..Accepted(param)];
    EmptyCell(cut.chunk, packed, bits);
    ChunkEnds(cut.chunk, w[idx..]);
    var cs := Chunks(w);
    assert cs == cut.done + ([cut.chunk] + Chunks(w[idx..]));
    assert cs[|cut.done|] == SEVEN_SPACES;
    if idx < |w| {
      SomeChunk(w[idx..]);
    }
  }

  lemma SomeChunk(w: string)
    requires w != ""
    ensures Chunks(w) != []
  {
  }

  lemma EndsDone(param: string, tag: nat, cut: Cutting, cells: seq<Word32>,
                 packed: nat, bits: nat, extensionMode: bool)
    requires tag < 16 && Accepted(param) == |param|
    requires State(param[..Accepted(param)], tag, cut, |param|, cells, packed, bits, extensionMode)
    requires Finishes(cut)
    ensures PackOutcome(param, tag) == Done(cells)
  {
    hide *;
    assert param[..|param|] == param;
    StateParts(param, tag, cut, cells, packed, bits, extensionMode);
    AllCut(param, cut.done, cut.chunk, packed, bits);
    KeptDone(cut);
    DoneOutcome(param, tag);
  }

  lemma StateParts(w: string, tag: nat, cut: Cutting, cells: seq<Word32>, packed: nat, bits: nat, extensionMode: bool)
    requires tag < 16 && State(w, tag, cut, |w|, cells, packed, bits, extensionMode)
    ensures Holds(cut.chunk, packed, bits) && Follows(w, cut.done, cut.chunk, |w|)
    ensures cells == ChunkCells(cut.done, tag) && forall i :: 0 <= i < |cut.done| ==> cut.done[i] != SEVEN_SPACES
  {
    hide Holds, Cut, ChunkCells;
  }

  lemma KeptDone(cut: Cutting)
    requires Finishes(cut) && forall i :: 0 <= i < |cut.done| ==> cut.done[i] != SEVEN_SPACES
    ensures var cs := if cut.chunk == "" then cut.done else cut.done + [cut.chunk];
            Kept(cs) == cut.done && !Stuck(cs, false)
  {
    hide AllSpaces;
  }

  lemma DoneOutcome(param: string, tag: nat)
    requires tag < 16 && Accepted(param) == |param| && !Stuck(Chunks(param), false)
    ensures PackOutcome(param, tag) == Done(ChunkCells(Kept(Chunks(param)), tag))
  {
    hide Stuck, Chunks, Accepted, ChunkCells, Kept;
    assert param[..|param|] == param;
  }

  /** The shrinking loop: drops zeros from the end of a code until it fits in the free bits or ends in a 1. */
  method Shrink(ghost k: BitString, hc: nat, length: nat, bits: nat) returns (shrinked: nat, hl: nat)
    requires length == |k| && hc == Val(k) && bits < length
    ensures bits <= hl <= |k| && shrinked == Val(k[..hl]) && AllZero(k[hl..])
    ensures bits < hl ==> k[hl - 1]
  {
    shrinked, hl := hc, length;
    var moreShrink := true;
    assert k[..hl] == k;
    while moreShrink
      invariant bits <= hl <= |k| && shrinked == Val(k[..hl]) && AllZero(k[hl..])
      invariant !moreShrink ==> bits < hl && k[hl - 1]
      decreases moreShrink, hl
    {
      if bits >= hl {
        break;
      }
      ShrinkBit(k, hl);
      if shrinked % 2 == 1 {
        moreShrink := false;
      } else {
        shrinked, hl := shrinked / 2, hl - 1;
      }
    }
  }

  /** One turn of the packing loop: the next letter is pushed, whole or shrunk, or the open cell is finished. */
  method PackLetter(ghost w: string, c: char, tag: nat, ghost cut: Cutting, idx: nat,
                    cells: seq<Word32>, packed: nat, bits: nat, extensionMode: bool)
    returns (ghost cut': Cutting, idx': nat, cells': seq<Word32>, packed': nat, bits': nat, extensionMode': bool)
    requires tag < 16 && State(w, tag, cut, idx, cells, packed, bits, extensionMode)
    requires idx < |w| && c == w[idx] && Index(c) < 48 && 0 < bits <= 28
    ensures State(w, tag, cut', idx', cells', packed', bits', extensionMode')
    ensures bits' <= 28 && if idx' == idx then bits < 28 && bits' == 28 else idx' == idx + 1 && bits' < 28
  {
    hide *;
    LetterCode(w, idx);
    var letter := Index(c);
    var hl, hc := CodeLength(letter), CodeValue(letter);
    ghost var k := Code(letter);
    cut', idx', cells', packed', bits', extensionMode' := cut, idx, cells, packed, bits, extensionMode;
    if bits >= hl {
      packed', bits' := PushLetter(w, tag, cut, idx, cells, packed, bits, extensionMode, false, hl, hc);
      cut', idx' := cut.Add(c), idx + 1;
    } else {
      var shrinked;
      shrinked, hl := Shrink(k, hc, hl, bits);
      if bits >= hl {
        packed', bits' := PushLetter(w, tag, cut, idx, cells, packed, bits, extensionMode, true, hl, shrinked);
        cut', idx' := cut.Add(c), idx + 1;
      } else {
        NoRoom(w, tag, cut, idx, cells, packed, bits, extensionMode, hl);
        cells' := FinishPack(w, tag, cut, idx, cells, packed, bits, extensionMode);
        cut' := cut.Close();
        bits', packed', extensionMode' := 28, 0, true;
      }
    }
  }

  /**
   * The text branch of `word_to_long_array`. When a full cell holds nothing but spaces and letters are left, the
   * source's outer loop goes round for ever without changing anything.
   */
  method PackText(param: string, tag: nat) returns (r: PackResult)
    requires tag < 16
    ensures r == PackOutcome(param, tag)
  {
    hide *;
    ghost var w := param[..Accepted(param)];
    AcceptedLetters(param, 0);
    Start(w, tag);
    var cells: seq<Word32> := [];
    var packed: nat, bits: nat, idx: nat := 0, 28, 0;
    var extensionMode := false;
    ghost var cut := Cutting([], "");
    Finish(cut);
    while idx < |param|
      invariant idx <= |w| <= |param| && State(w, tag, cut, idx, cells, packed, bits, extensionMode)
      invariant idx < |param| ==> bits == 28
      invariant idx == |param| ==> Finishes(cut)
      decreases |param| - idx
    {
      ghost var idx0 := idx;
      while true
        invariant State(w, tag, cut, idx, cells, packed, bits, extensionMode)
        invariant bits <= 28 && idx <= |w|
        invariant idx0 < idx || (idx0 == idx < |param| && bits == 28)
        invariant bits == 28 ==> idx < |param|
        decreases |param| - idx, if bits == 28 then 0 else 1
      {
        if bits <= 0 || idx >= |param| {
          break;
        }
        AcceptedLetters(param, idx);
        if Index(param[idx]) == 48 {
          EndsRejected(param, tag, cut, cells, packed, bits, extensionMode);
          return Rejected;
        }
        cut, idx, cells, packed, bits, extensionMode :=
          PackLetter(w, param[idx], tag, cut, idx, cells, packed, bits, extensionMode);
      }
      NoLetters(w, tag, cut, idx, cells, packed, bits, extensionMode);
      Finish(cut);
      if bits != 28 && packed != 0 {
        cells := FinishPack(w, tag, cut, idx, cells, packed, bits, extensionMode);
        cut := cut.Close();
        extensionMode, bits, packed := true, 28, 0;
      } else if idx < |param| {
        EndsStalled(param, tag, cut, idx, cells, packed, bits, extensionMode);
        return Stalled;
      }
    }
    EndsDone(param, tag, cut, cells, packed, bits, extensionMode);
    return Done(cells);
  }

  /** Seven spaces in front of anything keep the loop going for ever. */
  lemma LeadingSpacesStall(w: string, tag: nat)
    requires |w| > 7 && w[..7] == SEVEN_SPACES && tag < 16
    ensures PackOutcome(w, tag) == Stalled
  {
    hide Encode, Index, Chunks, Code, Fits;
    var n := Accepted(w);
    var a := w[..n];
    SevenAccepted(w);
    assert a[..7] == SEVEN_SPACES && a[..7][..6] == a[..6];
    SevenAreSpaces();
    SpacesEncode(a[..7]);
    SpacesEncode(a[..6]);
    ZerosFit(a[..7]);
    LongestIs(a, 1, 7);
    FirstChunk(a);
    assert Chunks(a)[0] == SEVEN_SPACES;
    if n > 7 {
      SomeChunk(a[7..]);
    }
  }

  lemma ZerosFit(w: string)
    requires AllZero(Encode(w))
    ensures Fits(w)
  {
  }

  lemma FirstChunk(w: string)
    requires w != ""
    ensures Fits(w[..1]) && Chunks(w) == [w[..Longest(w, 1)]] + Chunks(w[Longest(w, 1)..])
  {
    OneLetterFits(w);
  }

  lemma SevenAccepted(w: string)
    requires |w| > 7 && w[..7] == SEVEN_SPACES
    ensures Accepted(w) >= 7
  {
    hide Index;
    IndexOfLetter(0);
    assert Letter(0) == ' ';
    var n := Accepted(w);
    assert n < |w| ==> Index(w[n]) == 48;
    assert forall i :: 0 <= i < 7 ==> w[i] == w[..7][i] && w[..7][i] == ' ';
  }
}
