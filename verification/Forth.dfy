/** The colorForth interpreter over blocks of cells, and the meaning of the source tokens it runs. */
module Forth {
  import opened Bits
  import opened Cells
  import opened Options
  import opened Converter
  import opened Dictionary

  const STACK_SIZE := 42

  /** What the interpreter keeps: data stack, selected dictionary, last routine entered, numbers printed. */
  datatype Vm = Vm(stack: seq<int>, forthSelected: bool, ip: Option<Builtin>, printed: seq<int>)

  /**
   * C leaves stack overflow and underflow, an overflow of signed arithmetic, a bad division and a block outside the
   * image undefined.
   */
  datatype Outcome = Running(vm: Vm) | Undefined | OutOfFuel

  /** Runs the block of a given number. */
  type Runner = (int, Vm) -> Outcome

  function Push(vm: Vm, x: int): Outcome
  {
    if |vm.stack| < STACK_SIZE then Running(vm.(stack := vm.stack + [x])) else Undefined
  }

  /** The stack without its top, and the top. */
  function Popped(vm: Vm): (Vm, int)
    requires vm.stack != []
  {
    var n := |vm.stack| - 1;
    (vm.(stack := vm.stack[..n]), vm.stack[n])
  }

  /** Division in C truncates towards zero. */
  function Truncated(b: int, a: int): int
    requires a != 0
  {
    if (b < 0) == (a < 0) then (if b < 0 then -b else b) / (if a < 0 then -a else a)
    else -((if b < 0 then -b else b) / (if a < 0 then -a else a))
  }

  function LoadOutcome(vm: Vm, run: Runner): Outcome
  {
    if vm.stack == [] then Undefined else
      var (v, n) := Popped(vm);
      run(n, v)
  }

  /** `loads` runs every second block from `i` to `j`, each by pushing its number and loading. */
  function LoadsOutcome(i: int, j: int, vm: Vm, run: Runner): Outcome
    decreases j - i + 2
  {
    if i > j then Running(vm) else
      match Push(vm, i)
      case Running(v) => (
        match LoadOutcome(v, run)
        case Running(v') => if IsInt32(i + 2) then LoadsOutcome(i + 2, j, v', run) else Undefined
        case o => o)
      case o => o
  }

  /** What a built-in does. */
  function Perform(b: Builtin, vm: Vm, run: Runner): Outcome
  {
    match b
    case Comma => Running(vm)
    case Forth => Running(vm.(forthSelected := true))
    case Macro => Running(vm.(forthSelected := false))
    case Load => LoadOutcome(vm, run)
    case Loads =>
      if |vm.stack| < 2 then Undefined else
        var (v, j) := Popped(vm);
        var (v', i) := Popped(v);
        LoadsOutcome(i, j, v', run)
    case Dot =>
      if vm.stack == [] then Undefined else
        var (v, n) := Popped(vm);
        Running(v.(printed := v.printed + [n]))
    case Add =>
      if |vm.stack| < 2 then Undefined else
        var (v, a) := Popped(vm);
        var (v', b) := Popped(v);
        if IsInt32(a + b) then Push(v', a + b) else Undefined
    case Divide =>
      if |vm.stack| < 2 then Undefined else
        var (v, a) := Popped(vm);
        var (v', b) := Popped(v);
        if a == 0 || (b == -0x8000_0000 && a == -1) then Undefined else Push(v', Truncated(b, a))
  }

  /** Running a word that may name a built-in; words not found do nothing. */
  function Enter(found: Option<Builtin>, vm: Vm, run: Runner): Outcome
  {
    match found
    case None => Running(vm)
    case Some(b) => Perform(b, vm.(ip := Some(b)), run)
  }

  /** The dispatch of one cell on its tag: only words (1) and short numbers (8) to execute do anything. */
  function CellOutcome(cell: Word32, vm: Vm, run: Runner): Outcome
  {
    if Tag(cell) == 1 then Enter(Named(Text(cell)), vm, run)
    else if Tag(cell) == 8 then Push(vm, Signed(cell) / 32)
    else Running(vm)
  }

  function CellsOutcome(cells: seq<Word32>, vm: Vm, run: Runner): Outcome
  {
    if cells == [] then Running(vm) else
      match CellOutcome(cells[0], vm, run)
      case Running(v) => CellsOutcome(cells[1..], v, run)
      case o => o
  }

  /** Running block `n` of an image: its first 255 cells. `fuel` bounds how deep blocks load blocks. */
  function BlockOutcome(image: seq<Word32>, n: int, vm: Vm, fuel: nat): Outcome
    decreases fuel, 0
  {
    if fuel == 0 then OutOfFuel
    else if n < 0 || |image| < (n + 1) * 256 then Undefined
    else CellsOutcome(image[n * 256..n * 256 + 255], vm, ImageRunner(image, fuel - 1))
  }

  function ImageRunner(image: seq<Word32>, fuel: nat): Runner
    decreases fuel, 1
  {
    (n, vm) => BlockOutcome(image, n, vm, fuel)
  }

  /** The meaning of source tokens, without cells: a word to execute runs its built-in, a short number is pushed. */
  function EvalToken(t: Token, vm: Vm, run: Runner): Outcome
  {
    if t.WordToken? && t.f == Execute then Enter(Named(t.text), vm, run)
    else if t.NumberToken? && t.f == ExecuteShort then Push(vm, t.n)
    else Running(vm)
  }

  function EvalTokens(tokens: seq<Token>, vm: Vm, run: Runner): Outcome
  {
    if tokens == [] then Running(vm) else
      match EvalToken(tokens[0], vm, run)
      case Running(v) => EvalTokens(tokens[1..], v, run)
      case o => o
  }

  function EvalBlock(program: seq<seq<Token>>, n: int, vm: Vm, fuel: nat): Outcome
    decreases fuel, 0
  {
    if fuel == 0 then OutOfFuel
    else if n < 0 || |program| <= n then Undefined
    else EvalTokens(program[n], vm, SourceRunner(program, fuel - 1))
  }

  function SourceRunner(program: seq<seq<Token>>, fuel: nat): Runner
    decreases fuel, 1
  {
    (n, vm) => EvalBlock(program, n, vm, fuel)
  }

  /** A longer word that starts with a built-in's spelling, which ends its first cell. */
  predicate Alias(w: string)
  {
    exists b: Builtin :: Spelling(b) < w && !Fits(w[..|Spelling(b)| + 1])
  }

  /** A cell that does nothing when it is dispatched: it pushes no number and names no built-in to execute. */
  predicate Inert(cell: Word32)
  {
    Tag(cell) != 8 && (Tag(cell) == 1 ==> Named(Text(cell)) == None)
  }

  /** Tokens whose cells do what they mean; the value cell of a long number or a variable is dispatched as well. */
  predicate Runnable(t: Token)
  {
    && WellFormed(t)
    && match t
       case WordToken(f, text) => f == Execute ==> !Alias(text)
       case NumberToken(f, _, n) => if IsLong(f) then Inert(Unsigned(n)) else f == ExecuteShort ==> n == Short(n)
       case VariableToken(_, value) => Inert(Unsigned(value))
  }

  /** A block of such tokens; a 256th cell, which is never run, must do nothing. */
  predicate RunnableBlock(tokens: seq<Token>)
  {
    && AllWellFormed(tokens)
    && (forall i :: 0 <= i < |tokens| ==> Runnable(tokens[i]))
    && |BlockCells(tokens)| <= 256
    && (|BlockCells(tokens)| == 256 ==> Inert(BlockCells(tokens)[255]))
  }

  predicate RunnableProgram(program: seq<seq<Token>>)
  {
    forall i :: 0 <= i < |program| ==> RunnableBlock(program[i])
  }
}
