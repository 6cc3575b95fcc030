/** The converter from colorForth source to blocks of cells (tools/blocks_converter.py). */
module Converter {
  import opened Bits
  import opened Huffman
  import opened Cells
  import opened Packing
  import opened Packer

  datatype Fn =
    | Extension | Execute | ExecuteLong | Define
    | CompileWord | CompileLong | CompileShort | CompileMacro
    | ExecuteShort | PlainText | TextCapitalized | TextAllCaps
    | Variable | CompilerFeedback | DisplayMacro | CommentedNumber

  /** Position of a function in the list of functions, which is its tag. */
  function FnTag(f: Fn): (t: nat)
    ensures t < 16
  {
    match f
    case Extension => 0 case Execute => 1 case ExecuteLong => 2 case Define => 3
    case CompileWord => 4 case CompileLong => 5 case CompileShort => 6 case CompileMacro => 7
    case ExecuteShort => 8 case PlainText => 9 case TextCapitalized => 10 case TextAllCaps => 11
    case Variable => 12 case CompilerFeedback => 13 case DisplayMacro => 14 case CommentedNumber => 15
  }

  /** The functions in the order of the list. */
  const FUNCTIONS: seq<Fn> := [
    Extension, Execute, ExecuteLong, Define,
    CompileWord, CompileLong, CompileShort, CompileMacro,
    ExecuteShort, PlainText, TextCapitalized, TextAllCaps,
    Variable, CompilerFeedback, DisplayMacro, CommentedNumber
  ]

  lemma FnTagIsPosition(f: Fn)
    ensures |FUNCTIONS| == 16 && FUNCTIONS[FnTag(f)] == f
  {
  }

  predicate IsLong(f: Fn)
  {
    f == CompileLong || f == ExecuteLong
  }

  predicate IsShort(f: Fn)
  {
    f == CompileShort || f == ExecuteShort || f == CommentedNumber
  }

  /** An accepted function name; only the five number functions also exist with the prefix `hex_`. */
  datatype RawName = Name(f: Fn, hex: bool)

  type Name = n: RawName | n.hex ==> IsLong(n.f) || IsShort(n.f) witness Name(Execute, false)

  /** A parameter between parentheses: a word, or a text that `int` reads as a number. */
  datatype Param = Word(text: string) | Number(value: int)

  function GetTags(name: Name): (t: nat)
    ensures t == FnTag(name.f) + if name.hex then 16 else 0
  {
    Pow2Constants();
    DisjointBits(1, 4, FnTag(name.f));
    OrZero(FnTag(name.f));
    OrComm(0, FnTag(name.f));
    BitOr(if name.hex then 0x10 else 0, FnTag(name.f))
  }

  lemma OrComm(a: nat, b: nat)
    ensures BitOr(a, b) == BitOr(b, a)
  {
  }

  function ShortCell(name: Name, n: int): (c: Word32)
  {
    Unsigned(n) * 32 % WORD + GetTags(name)
  }

  /** The cells a call appends to the block, an error its parameter raises, or a loop without end. */
  function LongArray(name: Name, param: Param, inVariable: bool): PackResult
  {
    if IsLong(name.f) then
      if param.Number? then Done([GetTags(name), Unsigned(param.value)]) else Rejected
    else if IsShort(name.f) then
      if param.Number? then Done([ShortCell(name, param.value)]) else Rejected
    else if name.f == CompileWord && inVariable then
      if param.Number? then Done([Unsigned(param.value)]) else Rejected
    else if param.Word? then PackOutcome(param.text, FnTag(name.f))
    else Rejected
  }

  /** A parameter of the wrong kind is an error; of the right kind, only a word can be one. */
  lemma WrongParam(name: Name, param: Param, inVariable: bool)
    ensures (IsLong(name.f) || IsShort(name.f) || (name.f == CompileWord && inVariable)) ==>
        (LongArray(name, param, inVariable) == Rejected <==> param.Word?)
        && (param.Number? ==> LongArray(name, param, inVariable).Done?)
    ensures !(IsLong(name.f) || IsShort(name.f) || (name.f == CompileWord && inVariable)) && param.Number? ==>
        LongArray(name, param, inVariable) == Rejected
  {
    hide GetTags, ShortCell;
  }

  lemma CallExamples()
    ensures LongArray(Name(ExecuteShort, true), Number(5), false) == Done([184])
    ensures LongArray(Name(CompileShort, false), Number(-1), false) == Done([0xffff_ffe6])
    ensures LongArray(Name(CompileLong, true), Number(-1), false) == Done([0x15, 0xffff_ffff])
    ensures LongArray(Name(CompileWord, false), Number(7), true) == Done([7])
  {
    hide GetTags, PackOutcome, Pow2;
  }

  /** A source token with its parsed parameter; a variable comes with the value that follows its name. */
  datatype Token =
    | WordToken(f: Fn, text: string)
    | NumberToken(f: Fn, hex: bool, n: int)
    | VariableToken(name: string, value: int)

  predicate IsTextFn(f: Fn)
  {
    !IsLong(f) && !IsShort(f) && f != Variable
  }

  predicate WellFormed(t: Token)
  {
    match t
    case WordToken(f, text) => IsTextFn(f) && text != "" && Packable(text)
    case NumberToken(f, _, _) => IsLong(f) || IsShort(f)
    case VariableToken(name, _) => name != "" && Packable(name)
  }

  /** The token with its number as the cells can hold it: 27 bits of a short one, 32 of any other, sign included. */
  function Stored(t: Token): Token
  {
    match t
    case WordToken(_, _) => t
    case NumberToken(f, hex, n) => NumberToken(f, hex, if IsShort(f) then Short(n) else Signed(Unsigned(n)))
    case VariableToken(name, value) => VariableToken(name, Signed(Unsigned(value)))
  }

  function AllStored(tokens: seq<Token>): (s: seq<Token>)
    ensures |s| == |tokens|
  {
    seq(|tokens|, i requires 0 <= i < |tokens| => Stored(tokens[i]))
  }

  /** Nothing is lost exactly when the number fits its cell. */
  lemma StoredExactly(t: Token)
    ensures Stored(t) == t <==> match t
              case WordToken(_, _) => true
              case NumberToken(f, _, n) => if IsShort(f) then -0x400_0000 <= n < 0x400_0000 else IsInt32(n)
              case VariableToken(_, value) => IsInt32(value)
  {
  }

  type Call = (Name, Param)

  function Calls(t: Token): seq<Call>
    requires WellFormed(t)
  {
    match t
    case WordToken(f, text) => [(Name(f, false), Word(text))]
    case NumberToken(f, hex, n) => [(Name(f, hex), Number(n))]
    case VariableToken(name, value) =>
      [(Name(Variable, false), Word(name)), (Name(CompileWord, false), Number(value))]
  }

  /** The cells of one token, of a block of tokens, and of the block filled up to 256 cells. */
  function TokenCells(t: Token): seq<Word32>
    requires WellFormed(t)
  {
    match t
    case WordToken(f, text) => WordCells(text, FnTag(f))
    case NumberToken(f, hex, n) =>
      if IsLong(f) then [GetTags(Name(f, hex)), Unsigned(n)] else [ShortCell(Name(f, hex), n)]
    case VariableToken(name, value) => WordCells(name, FnTag(Variable)) + [Unsigned(value)]
  }

  predicate AllWellFormed(tokens: seq<Token>)
  {
    forall i :: 0 <= i < |tokens| ==> WellFormed(tokens[i])
  }

  function BlockCells(tokens: seq<Token>): seq<Word32>
    requires AllWellFormed(tokens)
  {
    if tokens == [] then [] else TokenCells(tokens[0]) + BlockCells(tokens[1..])
  }

  function Padded(cells: seq<Word32>): seq<Word32>
  {
    if |cells| < 256 then cells + seq(256 - |cells|, _ => 0) else cells
  }

  function Image(program: seq<seq<Token>>): seq<Word32>
    requires forall i :: 0 <= i < |program| ==> AllWellFormed(program[i])
  {
    if program == [] then [] else Padded(BlockCells(program[0])) + Image(program[1..])
  }

  class ParseTextToCFBlock {
    var out: seq<Word32>
    var outPerBlock: seq<Word32>
    var blockNumber: int
    var inVariable: bool

    constructor ()
      ensures out == [] && outPerBlock == [] && !inVariable
    {
      out, outPerBlock, blockNumber, inVariable := [], [], 0, false;
    }

    method WordToLongArray(name: Name, param: Param) returns (tmp: PackResult)
      modifies this`inVariable
      ensures tmp == LongArray(name, param, old(inVariable))
      ensures inVariable == (old(inVariable) && name.f != CompileWord)
    {
      var tag := GetTags(name);
      if IsLong(name.f) {
        if param.Word? {
          return Rejected;
        }
        tmp := Done([tag, Unsigned(param.value)]);
      } else if IsShort(name.f) {
        if param.Word? {
          return Rejected;
        }
        tmp := Done([Unsigned(param.value) * 32 % WORD + tag]);
      } else if name.f == CompileWord && inVariable {
        inVariable := false;
        if param.Word? {
          return Rejected;
        }
        tmp := Done([Unsigned(param.value)]);
      } else {
        if param.Number? {
          return Rejected;
        }
        tmp := PackText(param.text, tag);
      }
    }

    /** The parse action of one call. */
    method FunctionAction(name: Name, param: Param) returns (r: PackResult)
      modifies this`inVariable, this`outPerBlock
      ensures var v := old(inVariable) || name.f == Variable;
              && r == LongArray(name, param, v)
              && outPerBlock == (if r.Done? then old(outPerBlock) + r.cells else old(outPerBlock))
              && inVariable == (v && name.f != CompileWord)
    {
      if name.f == Variable {
        inVariable := true;
      }
      r := WordToLongArray(name, param);
      if r.Done? {
        outPerBlock := outPerBlock + r.cells;
      }
    }

    /** The parse action of a block header, run once the calls of the block are done. */
    method BlockAction(number: int)
      modifies this`blockNumber, this`out, this`outPerBlock
      ensures out == old(out) + Padded(old(outPerBlock))
      ensures outPerBlock == [] && blockNumber == number
    {
      blockNumber := number;
      if |outPerBlock| < 256 {
        var n := 256 - |outPerBlock|;
        ghost var cells := outPerBlock;
        for x := 0 to n
          invariant outPerBlock == cells + seq(x, _ => 0)
          invariant out == old(out) && blockNumber == number
        {
          outPerBlock := outPerBlock + [0];
        }
      }
      out := out + outPerBlock;
      outPerBlock := [];
    }

    /** The calls of one token leave its cells in the block. */
    method TokenAction(t: Token)
      requires WellFormed(t) && !inVariable
      modifies this`inVariable, this`outPerBlock
      ensures outPerBlock == old(outPerBlock) + TokenCells(t) && !inVariable
    {
      hide Packable, WordCells, PackOutcome, Unsigned, GetTags;
      var calls := Calls(t);
      WordsArePacked(t);
      var r := FunctionAction(calls[0].0, calls[0].1);
      if |calls| > 1 {
        r := FunctionAction(calls[1].0, calls[1].1);
      }
    }

    /** The calls of a block, token by token. */
    method BlockOfTokens(tokens: seq<Token>)
      requires AllWellFormed(tokens) && outPerBlock == [] && !inVariable
      modifies this`inVariable, this`outPerBlock
      ensures outPerBlock == BlockCells(tokens) && !inVariable
    {
      for i := 0 to |tokens|
        invariant !inVariable && outPerBlock == BlockCells(tokens[..i])
      {
        BlockCellsSnoc(tokens, i);
        hide *;
        TokenAction(tokens[i]);
      }
      assert tokens[..|tokens|] == tokens;
    }

    /** Converting a whole source: block after block, each filled up to 256 cells. */
    method ParseInput(program: seq<seq<Token>>)
      requires forall i :: 0 <= i < |program| ==> AllWellFormed(program[i])
      requires out == [] && outPerBlock == [] && !inVariable
      modifies this
      ensures out == Image(program) && outPerBlock == [] && !inVariable
    {
      for b := 0 to |program|
        invariant outPerBlock == [] && !inVariable && out == Image(program[..b])
      {
        ImageSnoc(program, b);
        hide *;
        BlockOfTokens(program[b]);
        BlockAction(b);
      }
      assert program[..|program|] == program;
    }
  }

  lemma {:induction false} BlockCellsConcat(a: seq<Token>, b: seq<Token>)
    requires AllWellFormed(a) && AllWellFormed(b)
    ensures AllWellFormed(a + b) && BlockCells(a + b) == BlockCells(a) + BlockCells(b)
  {
    hide TokenCells, WellFormed;
    if a == [] {
      assert a + b == b;
    } else {
      assert (a + b)[1..] == a[1..] + b;
      BlockCellsConcat(a[1..], b);
    }
  }

  lemma BlockCellsSnoc(tokens: seq<Token>, i: nat)
    requires AllWellFormed(tokens) && i < |tokens|
    ensures BlockCells(tokens[..i + 1]) == BlockCells(tokens[..i]) + TokenCells(tokens[i])
  {
    hide TokenCells, WellFormed;
    assert tokens[..i + 1] == tokens[..i] + [tokens[i]];
    BlockCellsConcat(tokens[..i], [tokens[i]]);
    assert BlockCells([tokens[i]]) == TokenCells(tokens[i]) + BlockCells([]);
  }

  lemma {:induction false} ImageConcat(a: seq<seq<Token>>, b: seq<seq<Token>>)
    requires forall i :: 0 <= i < |a| ==> AllWellFormed(a[i])
    requires forall i :: 0 <= i < |b| ==> AllWellFormed(b[i])
    ensures Image(a + b) == Image(a) + Image(b)
  {
    hide BlockCells, Padded, AllWellFormed;
    if a == [] {
      assert a + b == b;
    } else {
      assert (a + b)[1..] == a[1..] + b;
      ImageConcat(a[1..], b);
    }
  }

  lemma ImageSnoc(program: seq<seq<Token>>, b: nat)
    requires forall i :: 0 <= i < |program| ==> AllWellFormed(program[i])
    requires b < |program|
    ensures Image(program[..b + 1]) == Image(program[..b]) + Padded(BlockCells(program[b]))
  {
    hide BlockCells, Padded, AllWellFormed;
    assert program[..b + 1] == program[..b] + [program[b]];
    ImageConcat(program[..b], [program[b]]);
    assert Image([program[b]]) == Padded(BlockCells(program[b])) + Image([]);
  }

  lemma WordsArePacked(t: Token)
    requires WellFormed(t)
    ensures forall i, tag: nat :: 0 <= i < |Calls(t)| && Calls(t)[i].1.Word? && tag < 16 ==>
        PackOutcome(Calls(t)[i].1.text, tag) == Done(WordCells(Calls(t)[i].1.text, tag))
  {
    hide Packable, PackOutcome, WordCells;
    forall i, tag: nat | 0 <= i < |Calls(t)| && Calls(t)[i].1.Word? && tag < 16
      ensures PackOutcome(Calls(t)[i].1.text, tag) == Done(WordCells(Calls(t)[i].1.text, tag))
    {
      PackableOutcome(Calls(t)[i].1.text, tag);
    }
  }

  /** A short number cell: its tag, its hexadecimal bit, and the number an arithmetic shift recovers. */
  lemma ShortCellParts(name: Name, n: int)
    ensures var c := ShortCell(name, n);
            && Tag(c) == FnTag(name.f)
            && c / 16 % 2 == (if name.hex then 1 else 0)
            && Signed(c) / 32 == Short(n)
  {
    hide Short, Signed;
    ShiftedNumber(n);
    NumberBack(n, GetTags(name));
    TagBits(n % 0x800_0000, GetTags(name));
  }

  lemma TagBits(low: nat, tags: nat)
    requires low < 0x800_0000 && tags < 32
    ensures Tag(low * 32 + tags) == tags % 16 && (low * 32 + tags) / 16 % 2 == tags / 16
  {
  }

  lemma WordTokenCells(f: Fn, w: string)
    requires WellFormed(WordToken(f, w))
    ensures TokenCells(WordToken(f, w)) == WordCells(w, FnTag(f)) && w != "" && Packable(w)
  {
  }

  lemma VariableTokenCells(name: string, value: int)
    requires WellFormed(VariableToken(name, value))
    ensures TokenCells(VariableToken(name, value)) == WordCells(name, FnTag(Variable)) + [Unsigned(value)]
    ensures name != "" && Packable(name) && FnTag(Variable) == 12
  {
  }
}
