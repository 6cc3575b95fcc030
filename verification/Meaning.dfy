/** What running source does to the stack, the printed numbers and the blocks, word by word. */
module Meaning {
  import opened Arithmetic
  import opened Bits
  import opened Huffman
  import opened Cells
  import opened Options
  import opened Packing
  import opened Converter
  import opened Dictionary
  import opened EditorPack
  import opened Forth
  import opened Aliases
  import opened Translation

  /** A number and a word to execute. */
  function Num(n: int): Token
  {
    NumberToken(ExecuteShort, false, n)
  }

  function Exec(w: string): Token
  {
    WordToken(Execute, w)
  }

  lemma EvalCons(t: Token, rest: seq<Token>, vm: Vm, run: Runner)
    ensures EvalTokens([t] + rest, vm, run) ==
            if EvalToken(t, vm, run).Running? then EvalTokens(rest, EvalToken(t, vm, run).vm, run)
            else EvalToken(t, vm, run)
  {
    hide EvalToken;
    assert ([t] + rest)[1..] == rest;
  }

  lemma EvalLast(t: Token, vm: Vm, run: Runner)
    ensures EvalTokens([t], vm, run) == EvalToken(t, vm, run)
  {
    hide EvalToken;
    assert [t][1..] == [];
  }

  /** A number goes on top of the stack, and further tokens find it there. */
  lemma NumberFirst(n: int, rest: seq<Token>, vm: Vm, run: Runner)
    ensures EvalTokens([Num(n)] + rest, vm, run) ==
            if |vm.stack| < 42 then EvalTokens(rest, vm.(stack := vm.stack + [n]), run) else Undefined
  {
    hide EvalTokens;
    EvalCons(Num(n), rest, vm, run);
  }

  lemma OneNumber(n: int, w: string, vm: Vm, run: Runner)
    ensures EvalTokens([Num(n), Exec(w)], vm, run) ==
            if |vm.stack| < 42 then EvalToken(Exec(w), vm.(stack := vm.stack + [n]), run) else Undefined
  {
    hide EvalTokens, EvalToken;
    assert [Num(n), Exec(w)] == [Num(n)] + [Exec(w)];
    NumberFirst(n, [Exec(w)], vm, run);
    EvalLast(Exec(w), vm.(stack := vm.stack + [n]), run);
  }

  lemma TwoNumbers(m: int, n: int, w: string, vm: Vm, run: Runner)
    requires |vm.stack| <= 40
    ensures EvalTokens([Num(m), Num(n), Exec(w)], vm, run) ==
            EvalToken(Exec(w), vm.(stack := vm.stack + [m, n]), run)
  {
    hide EvalTokens, EvalToken;
    assert [Num(m), Num(n), Exec(w)] == [Num(m)] + [Num(n), Exec(w)];
    NumberFirst(m, [Num(n), Exec(w)], vm, run);
    OneNumber(n, w, vm.(stack := vm.stack + [m]), run);
    assert vm.stack + [m] + [n] == vm.stack + [m, n];
  }

  lemma Entered(b: Builtin, w: string, vm: Vm, run: Runner)
    requires Named(w) == Some(b)
    ensures EvalToken(Exec(w), vm, run) == Perform(b, vm.(ip := Some(b)), run)
  {
    hide Perform, Named;
  }

  /** What the built-ins on two numbers do with m and n on top of a stack. */
  lemma PerformTwo(s: seq<int>, m: int, n: int, vm: Vm, run: Runner)
    requires vm.stack == s + [m, n] && |s| <= 40
    ensures Perform(Add, vm, run) == if IsInt32(m + n) then Running(vm.(stack := s + [m + n])) else Undefined
    ensures Perform(Divide, vm, run) ==
            if n == 0 || (m == -0x8000_0000 && n == -1) then Undefined
            else Running(vm.(stack := s + [Truncated(m, n)]))
    ensures Perform(Loads, vm, run) == LoadsOutcome(m, n, vm.(stack := s), run)
  {
    hide Truncated, LoadsOutcome;
    assert vm.stack[..|s| + 1] == s + [m] && (s + [m])[..|s|] == s;
  }

  lemma TwoNumberWords()
    ensures Named("+") == Some(Add) && Named("/") == Some(Divide) && Named("loads") == Some(Loads)
  {
  }

  /** `m n +` leaves the sum, and C leaves it undefined when it overflows. */
  lemma AddLeaves(m: int, n: int, vm: Vm, run: Runner)
    requires |vm.stack| <= 40
    ensures EvalTokens([Num(m), Num(n), Exec("+")], vm, run) ==
            if IsInt32(m + n) then Running(vm.(stack := vm.stack + [m + n], ip := Some(Add))) else Undefined
  {
    hide *;
    TwoNumbers(m, n, "+", vm, run);
    TwoNumberWords();
    Entered(Add, "+", vm.(stack := vm.stack + [m, n]), run);
    PerformTwo(vm.stack, m, n, vm.(stack := vm.stack + [m, n], ip := Some(Add)), run);
  }

  function Size(n: int): (size: nat)
  {
    if n < 0 then -n else n
  }

  /** Division that truncates: the remainder is smaller than the divisor, and zero or of the sign of the dividend. */
  predicate Quotient(m: int, n: int, q: int, r: int)
  {
    m == q * n + r && Size(r) < Size(n) && (r == 0 || (r < 0 <==> m < 0))
  }

  lemma TruncatedIs(m: int, n: int, q: int, r: int)
    requires n != 0 && Quotient(m, n, q, r)
    ensures Truncated(m, n) == q
  {
    SignedProduct(q, n);
    var k := if (m < 0) == (n < 0) then q else -q;
    assert Size(m) == k * Size(n) + Size(r);
    SizeQuotient(Size(m), Size(n), k, Size(r));
  }

  lemma SignedProduct(q: int, n: int)
    ensures -q * n == -(q * n) == q * -n && -q * -n == q * n
  {
  }

  lemma SizeQuotient(x: nat, y: nat, k: int, l: nat)
    requires l < y && x == k * y + l
    ensures x / y == k
  {
    if k < 0 {
      Negative(k, y);
    } else {
      DivMod(k, y, l);
    }
  }

  lemma Negative(k: int, y: nat)
    requires k < 0
    ensures k * y + y <= 0
  {
  }

  /** `m n /` leaves the quotient of m by n. */
  lemma DivideLeaves(m: int, n: int, q: int, r: int, vm: Vm, run: Runner)
    requires |vm.stack| <= 40 && n != 0 && !(m == -0x8000_0000 && n == -1) && Quotient(m, n, q, r)
    ensures EvalTokens([Num(m), Num(n), Exec("/")], vm, run) ==
            Running(vm.(stack := vm.stack + [q], ip := Some(Divide)))
  {
    hide *;
    TruncatedIs(m, n, q, r);
    TwoNumbers(m, n, "/", vm, run);
    TwoNumberWords();
    Entered(Divide, "/", vm.(stack := vm.stack + [m, n]), run);
    PerformTwo(vm.stack, m, n, vm.(stack := vm.stack + [m, n], ip := Some(Divide)), run);
  }

  /** By zero, and where the quotient overflows, division is undefined. */
  lemma DivideUndefined(m: int, n: int, vm: Vm, run: Runner)
    requires |vm.stack| <= 40 && (n == 0 || (m == -0x8000_0000 && n == -1))
    ensures EvalTokens([Num(m), Num(n), Exec("/")], vm, run) == Undefined
  {
    hide *;
    TwoNumbers(m, n, "/", vm, run);
    TwoNumberWords();
    Entered(Divide, "/", vm.(stack := vm.stack + [m, n]), run);
    PerformTwo(vm.stack, m, n, vm.(stack := vm.stack + [m, n], ip := Some(Divide)), run);
  }

  /** `.` prints the top and takes it off the stack. */
  lemma DotPrints(s: seq<int>, n: int, vm: Vm, run: Runner)
    requires vm.stack == s + [n]
    ensures EvalTokens([Exec(".")], vm, run) ==
            Running(vm.(stack := s, printed := vm.printed + [n], ip := Some(Dot)))
  {
    EvalLast(Exec("."), vm, run);
    hide EvalTokens;
    assert vm.stack[..|s|] == s;
  }

  /** `n load` runs block n. */
  lemma LoadRuns(n: int, vm: Vm, run: Runner)
    requires |vm.stack| < 42
    ensures EvalTokens([Num(n), Exec("load")], vm, run) == run(n, vm.(ip := Some(Load)))
  {
    OneNumber(n, "load", vm, run);
    hide EvalTokens;
    assert (vm.stack + [n])[..|vm.stack|] == vm.stack;
  }

  /** Every second number from i to j. */
  function EverySecond(i: int, j: int): (ns: seq<int>)
  {
    seq(if i > j then 0 else (j - i) / 2 + 1, k => i + 2 * k)
  }

  /** Running blocks one after the other until one fails; each needs a free cell of the stack for its number. */
  function RunBlocks(ns: seq<int>, vm: Vm, run: Runner): Outcome
    decreases |ns|
  {
    if ns == [] then Running(vm)
    else if |vm.stack| >= 42 then Undefined
    else
      match run(ns[0], vm)
      case Running(v) => RunBlocks(ns[1..], v, run)
      case o => o
  }

  lemma EverySecondStep(i: int, j: int)
    ensures EverySecond(i, j) == if i > j then [] else [i] + EverySecond(i + 2, j)
  {
  }

  /** `loads` counts on past its limit, which C leaves undefined where that overflows. */
  function Counted(ns: seq<int>, o: Outcome): Outcome
  {
    if o.Running? && ns != [] && !IsInt32(ns[|ns| - 1] + 2) then Undefined else o
  }

  lemma LoadsStep(i: int, j: int, vm: Vm, run: Runner)
    ensures LoadsOutcome(i, j, vm, run) ==
            if i > j then Running(vm)
            else if |vm.stack| >= 42 then Undefined
            else if !run(i, vm).Running? then run(i, vm)
            else if IsInt32(i + 2) then LoadsOutcome(i + 2, j, run(i, vm).vm, run) else Undefined
  {
    assert (vm.stack + [i])[..|vm.stack|] == vm.stack;
  }

  lemma {:induction false} LoadsIsRunBlocks(i: int, j: int, vm: Vm, run: Runner)
    requires IsInt32(i) && IsInt32(j)
    ensures LoadsOutcome(i, j, vm, run) == Counted(EverySecond(i, j), RunBlocks(EverySecond(i, j), vm, run))
    decreases j - i + 2
  {
    hide LoadsOutcome, EverySecond;
    LoadsStep(i, j, vm, run);
    EverySecondStep(i, j);
    var ns := EverySecond(i, j);
    if i <= j && |vm.stack| < 42 && run(i, vm).Running? {
      assert ns[1..] == EverySecond(i + 2, j);
      EverySecondStep(i + 2, j);
      if i + 2 <= j {
        LoadsIsRunBlocks(i + 2, j, run(i, vm).vm, run);
        assert ns[|ns| - 1] == ns[1..][|ns| - 2];
      } else if IsInt32(i + 2) {
        LoadsIsRunBlocks(i + 2, j, run(i, vm).vm, run);
      }
    }
  }

  /** `i j loads` runs the blocks i, i + 2 and so on up to j, in order, until one fails. */
  lemma LoadsRuns(i: int, j: int, vm: Vm, run: Runner)
    requires |vm.stack| <= 40 && IsInt32(i) && IsInt32(j)
    ensures EvalTokens([Num(i), Num(j), Exec("loads")], vm, run) ==
            Counted(EverySecond(i, j), RunBlocks(EverySecond(i, j), vm.(ip := Some(Loads)), run))
  {
    hide *;
    TwoNumbers(i, j, "loads", vm, run);
    TwoNumberWords();
    Entered(Loads, "loads", vm.(stack := vm.stack + [i, j]), run);
    PerformTwo(vm.stack, i, j, vm.(stack := vm.stack + [i, j], ip := Some(Loads)), run);
    LoadsIsRunBlocks(i, j, vm.(ip := Some(Loads)), run);
  }

  /** Words that take more than the stack holds are undefined. */
  lemma Underflow(w: string, vm: Vm, run: Runner)
    requires (w in {"load", "."} && vm.stack == []) || (w in {"+", "/", "loads"} && |vm.stack| < 2)
    ensures EvalTokens([Exec(w)], vm, run) == Undefined
  {
    EvalLast(Exec(w), vm, run);
    hide EvalTokens, LoadsOutcome, Truncated;
  }

  /** The words that select a dictionary, and the comma, which does nothing. */
  lemma DictionaryWords(vm: Vm, run: Runner)
    ensures EvalTokens([Exec("forth")], vm, run) == Running(vm.(forthSelected := true, ip := Some(Forth)))
    ensures EvalTokens([Exec("macro")], vm, run) == Running(vm.(forthSelected := false, ip := Some(Macro)))
    ensures EvalTokens([Exec(",")], vm, run) == Running(vm.(ip := Some(Comma)))
  {
    EvalLast(Exec("forth"), vm, run);
    EvalLast(Exec("macro"), vm, run);
    EvalLast(Exec(","), vm, run);
    hide EvalTokens;
  }

  /** Any other word to execute, and any token that is neither executed nor a short number to execute, does nothing. */
  lemma NothingHappens(t: Token, vm: Vm, run: Runner)
    requires t.WordToken? ==> t.f != Execute || t.text !in {",", "load", "loads", "forth", "macro", ".", "+", "/"}
    requires t.NumberToken? ==> t.f != ExecuteShort
    ensures EvalTokens([t], vm, run) == Running(vm)
  {
    EvalLast(t, vm, run);
    hide EvalTokens;
  }

  /** In a source program, `n load` evaluates block n of the source. */
  lemma LoadEvaluates(program: seq<seq<Token>>, n: int, vm: Vm, fuel: nat)
    requires |vm.stack| < 42 && fuel > 0
    ensures EvalTokens([Num(n), Exec("load")], vm, SourceRunner(program, fuel)) ==
            if 0 <= n < |program|
            then EvalTokens(program[n], vm.(ip := Some(Load)), SourceRunner(program, fuel - 1)) else Undefined
  {
    LoadRuns(n, vm, SourceRunner(program, fuel));
    hide EvalTokens;
  }

  lemma {:induction false} EvalConcat(a: seq<Token>, b: seq<Token>, vm: Vm, run: Runner)
    ensures EvalTokens(a + b, vm, run) ==
            if EvalTokens(a, vm, run).Running? then EvalTokens(b, EvalTokens(a, vm, run).vm, run)
            else EvalTokens(a, vm, run)
  {
    hide EvalToken;
    if a == [] {
      assert a + b == b;
    } else {
      assert (a + b)[1..] == a[1..] + b;
      if EvalToken(a[0], vm, run).Running? {
        EvalConcat(a[1..], b, EvalToken(a[0], vm, run).vm, run);
      }
    }
  }

  /** Block 0 loads block 2, which adds 3 and 4 and prints the sum. */
  function Sum(): seq<seq<Token>>
  {
    [[Num(2), Exec("load")], [], [Num(3), Num(4), Exec("+"), Exec(".")]]
  }

  lemma SumEvaluates()
    ensures EvalBlock(Sum(), 0, BOOT, 2) == Running(Vm([], true, Some(Dot), [7]))
  {
    hide *;
    var run, run1, vm := SourceRunner(Sum(), 0), SourceRunner(Sum(), 1), BOOT.(ip := Some(Load));
    SumBlocks(run1);
    LoadEvaluates(Sum(), 2, BOOT, 1);
    EvalConcat([Num(3), Num(4), Exec("+")], [Exec(".")], vm, run);
    AddLeaves(3, 4, vm, run);
    DotPrints([], 7, vm.(stack := [7], ip := Some(Add)), run);
  }

  lemma SumBlocks(run: Runner)
    ensures |Sum()| == 3 && Sum()[2] == [Num(3), Num(4), Exec("+")] + [Exec(".")]
    ensures EvalBlock(Sum(), 0, BOOT, 2) == EvalTokens([Num(2), Exec("load")], BOOT, SourceRunner(Sum(), 1))
    ensures BOOT == Vm([], true, None, []) && [] + [3 + 4] == [7] && [] + [7] == [7] && IsInt32(3 + 4)
  {
    hide EvalTokens;
  }

  lemma {:induction false} NoAlias(b: Builtin)
    ensures Packable(Spelling(b)) && Spelling(b) != "" && !Alias(Spelling(b))
  {
    hide Packable, Fits, Named, Alias;
    SpelledCell(b);
    NamedIsSpelled(Spelling(b), b);
    FittingWordIsOneChunk(Spelling(b));
    FirstChunkNamed(Spelling(b));
  }

  /** A token of one cell that does what it means. */
  predicate Small(t: Token)
  {
    Runnable(t) && |TokenCells(t)| == 1
  }

  lemma ExecSmall(b: Builtin)
    ensures Small(Exec(Spelling(b)))
  {
    hide Packable, Fits, Alias, Chunks, ChunkCells;
    NoAlias(b);
    SpelledCell(b);
    FittingWordIsOneChunk(Spelling(b));
  }

  lemma NumSmall(n: int)
    requires -0x400_0000 <= n < 0x400_0000
    ensures Small(Num(n))
  {
    hide Short;
    ShortIs(n);
  }

  lemma RunnableTokens(tokens: seq<Token>)
    requires |tokens| <= 255 && forall i :: 0 <= i < |tokens| ==> Small(tokens[i])
    ensures RunnableBlock(tokens)
  {
    hide Runnable, TokenCells, BlockCells;
    RunnableForms(tokens);
    OneCellEach(tokens);
  }

  lemma RunnableForms(tokens: seq<Token>)
    requires forall i :: 0 <= i < |tokens| ==> Runnable(tokens[i])
    ensures AllWellFormed(tokens)
  {
  }

  lemma {:induction false} OneCellEach(tokens: seq<Token>)
    requires AllWellFormed(tokens)
    requires forall i :: 0 <= i < |tokens| ==> |TokenCells(tokens[i])| == 1
    ensures |BlockCells(tokens)| == |tokens|
  {
    hide TokenCells, WellFormed;
    if tokens != [] {
      OneCellEach(tokens[1..]);
    }
  }

  lemma SmallTwo(a: Token, b: Token)
    requires Small(a) && Small(b)
    ensures RunnableBlock([a, b])
  {
    hide *;
    RunnableTokens([a, b]);
  }

  lemma SmallFour(a: Token, b: Token, c: Token, d: Token)
    requires Small(a) && Small(b) && Small(c) && Small(d)
    ensures RunnableBlock([a, b, c, d])
  {
    hide *;
    RunnableTokens([a, b, c, d]);
  }

  lemma ThreeBlocks(a: seq<Token>, b: seq<Token>)
    requires RunnableBlock(a) && RunnableBlock(b)
    ensures RunnableProgram([a, [], b])
  {
    hide RunnableBlock;
    RunnableTokens([]);
  }

  lemma SumRunnable()
    ensures RunnableProgram(Sum())
  {
    hide *;
    SumParts();
    ExecSmall(Load);
    ExecSmall(Add);
    ExecSmall(Dot);
    NumSmall(2);
    NumSmall(3);
    NumSmall(4);
    SmallTwo(Num(2), Exec(Spelling(Load)));
    SmallFour(Num(3), Num(4), Exec(Spelling(Add)), Exec(Spelling(Dot)));
    ThreeBlocks([Num(2), Exec(Spelling(Load))], [Num(3), Num(4), Exec(Spelling(Add)), Exec(Spelling(Dot))]);
  }

  lemma SumParts()
    ensures Sum() == [[Num(2), Exec(Spelling(Load))], [],
                      [Num(3), Num(4), Exec(Spelling(Add)), Exec(Spelling(Dot))]]
  {
  }

  lemma ShortIs(n: int)
    requires -0x400_0000 <= n < 0x400_0000
    ensures Short(n) == n
  {
    StoredExactly(Num(n));
  }

  /** Running the converted blocks prints 7. */
  lemma SumRuns()
    ensures RunnableProgram(Sum()) && |Image(Sum())| == 768
    ensures BlockOutcome(Image(Sum()), 0, BOOT, 2) == Running(Vm([], true, Some(Dot), [7]))
  {
    hide *;
    SumRunnable();
    SumEvaluates();
    SumBlocks(SourceRunner(Sum(), 1));
    ImageBlock(Sum(), 0);
    TranslationPreservesMeaning(Sum(), 0, BOOT, 2);
  }

  /** Running a block goes through 255 of its cells: a number in the last one is left out. */
  lemma LastCellSkipped()
    ensures var tokens := Comments(255) + [Num(5)];
            && AllWellFormed(tokens) && |Padded(BlockCells(tokens))| == 256
            && BlockOutcome(Padded(BlockCells(tokens)), 0, BOOT, 1) == Running(Vm([], true, None, []))
  {
    hide *;
    var tokens := Comments(255) + [Num(5)];
    FiveIs();
    BootIs();
    LastNumberExample(ImageRunner([], 0));
    var image := Padded(BlockCells(tokens));
    LastNumberExample(ImageRunner(image, 0));
    FirstBlock(image, BOOT, 1);
  }

  lemma FiveIs()
    ensures Num(5) == NumberToken(ExecuteShort, false, 5)
  {
  }

  lemma BootIs()
    ensures BOOT == Vm([], true, None, [])
  {
  }

  lemma FirstBlock(image: seq<Word32>, vm: Vm, fuel: nat)
    requires |image| == 256 && fuel > 0
    ensures BlockOutcome(image, 0, vm, fuel) == CellsOutcome(image[..255], vm, ImageRunner(image, fuel - 1))
  {
    hide CellsOutcome, ImageRunner;
    assert image[0 * 256..0 * 256 + 255] == image[..255];
  }
}
