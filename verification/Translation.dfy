/** Converting source to cells preserves its meaning: running the cells is evaluating the tokens. */
module Translation {
  import opened Bits
  import opened Huffman
  import opened Cells
  import opened Options
  import opened Packing
  import opened Converter
  import opened Dictionary
  import opened Forth
  import opened Aliases

  /** Going on after one part of a run has ended. */
  function Then(o: Outcome, cells: seq<Word32>, run: Runner): Outcome
  {
    match o
    case Running(v) => CellsOutcome(cells, v, run)
    case o => o
  }

  lemma {:induction false} CellsConcat(a: seq<Word32>, b: seq<Word32>, vm: Vm, run: Runner)
    ensures CellsOutcome(a + b, vm, run) == Then(CellsOutcome(a, vm, run), b, run)
  {
    hide CellOutcome;
    if a == [] {
      assert a + b == b;
    } else {
      assert (a + b)[0] == a[0] && (a + b)[1..] == a[1..] + b;
      var o := CellOutcome(a[0], vm, run);
      if o.Running? {
        CellsConcat(a[1..], b, o.vm, run);
      }
    }
  }

  lemma {:induction false} IgnoredCells(cells: seq<Word32>, vm: Vm, run: Runner)
    requires forall i :: 0 <= i < |cells| ==> Tag(cells[i]) != 1 && Tag(cells[i]) != 8
    ensures CellsOutcome(cells, vm, run) == Running(vm)
  {
    hide Enter, Tag;
    if cells != [] {
      IgnoredCells(cells[1..], vm, run);
    }
  }

  /** A word's cells act through the tag of the first alone. */
  lemma WordOutcome(w: string, tag: nat, vm: Vm, run: Runner)
    requires w != "" && Packable(w) && tag < 16 && tag != 8
    ensures Chunks(w) != []
    ensures CellsOutcome(WordCells(w, tag), vm, run) ==
            if tag == 1 then Enter(Named(Chunks(w)[0]), vm, run) else Running(vm)
  {
    hide *;
    var cells := WordCells(w, tag);
    WordFirst(w, tag);
    assert cells == [cells[0]] + cells[1..];
    CellsConcat([cells[0]], cells[1..], vm, run);
    OneCell(cells[0], vm, run);
    TaggedCell(cells[0], vm, run);
    var o := CellOutcome(cells[0], vm, run);
    if o.Running? {
      IgnoredCells(cells[1..], o.vm, run);
    }
    ThenIs(o, cells[1..], run);
  }

  lemma WordFirst(w: string, tag: nat)
    requires w != "" && Packable(w) && tag < 16
    ensures WordCells(w, tag) != [] && Chunks(w) != []
    ensures var cells := WordCells(w, tag);
            && Text(cells[0]) == Chunks(w)[0] && Tag(cells[0]) == tag
            && forall i :: 0 <= i < |cells[1..]| ==> Tag(cells[1..][i]) == 0
  {
    hide Text, Tag, Packable, Encode, TextCell, Fits;
    WordRoundTrip(w, tag);
    ChunksFit(w);
    TextOfFitting(Chunks(w)[0], tag);
    FirstChunkCell(Chunks(w), tag);
  }

  lemma TaggedCell(cell: Word32, vm: Vm, run: Runner)
    requires Tag(cell) != 8
    ensures CellOutcome(cell, vm, run) == if Tag(cell) == 1 then Enter(Named(Text(cell)), vm, run) else Running(vm)
  {
    hide Tag, Enter, Named, Text;
  }

  lemma ThenIs(o: Outcome, cells: seq<Word32>, run: Runner)
    ensures Then(o, cells, run) == if o.Running? then CellsOutcome(cells, o.vm, run) else o
  {
    hide CellsOutcome;
  }

  /** Executing a word by its cells is executing it by its spelling, exactly when the word is no alias. */
  lemma ExecuteExactly(w: string, run: Runner)
    requires w != "" && Packable(w)
    ensures (forall vm :: CellsOutcome(WordCells(w, 1), vm, run) == EvalToken(WordToken(Execute, w), vm, run))
       <==> !Alias(w)
  {
    hide Packable, Alias, WordCells, Named, Chunks, CellsOutcome;
    WordRoundTrip(w, 1);
    FirstChunkNamed(w);
    forall vm
      ensures CellsOutcome(WordCells(w, 1), vm, run) == Enter(Named(Chunks(w)[0]), vm, run)
    {
      WordOutcome(w, 1, vm, run);
    }
    if Named(Chunks(w)[0]) != Named(w) {
      OneIsUnnamed(w);
      assert Enter(Named(Chunks(w)[0]), BOOT, run) != Enter(Named(w), BOOT, run);
      assert EvalToken(WordToken(Execute, w), BOOT, run) == Enter(Named(w), BOOT, run);
    }
  }

  const BOOT := Vm([], true, None, [])

  /** A cell leaves every state as it is exactly when it is inert. */
  lemma InertExactly(cell: Word32, run: Runner)
    ensures (forall vm :: CellOutcome(cell, vm, run) == Running(vm)) <==> Inert(cell)
  {
    hide Named, Text;
    if !Inert(cell) {
      assert CellOutcome(cell, BOOT, run) != Running(BOOT);
    }
  }

  lemma OneCell(cell: Word32, vm: Vm, run: Runner)
    ensures CellsOutcome([cell], vm, run) == CellOutcome(cell, vm, run)
  {
    assert [cell][1..] == [];
  }

  /** A value cell is dispatched behind the cells that lead to it, which do nothing. */
  lemma ValueOutcome(cells: seq<Word32>, value: Word32, vm: Vm, run: Runner)
    requires CellsOutcome(cells, vm, run) == Running(vm)
    ensures CellsOutcome(cells + [value], vm, run) == CellOutcome(value, vm, run)
  {
    hide CellOutcome;
    CellsConcat(cells, [value], vm, run);
    OneCell(value, vm, run);
  }

  /** What the cells of a token do, for each kind of token. */
  lemma NumberOutcome(f: Fn, hex: bool, n: int, vm: Vm, run: Runner)
    requires WellFormed(NumberToken(f, hex, n))
    ensures CellsOutcome(TokenCells(NumberToken(f, hex, n)), vm, run) ==
            if IsLong(f) then CellOutcome(Unsigned(n), vm, run)
            else if f == ExecuteShort then Push(vm, Short(n)) else Running(vm)
  {
    hide GetTags, ShortCell, Named, Text, Short, Signed, Unsigned;
    var name: Name := Name(f, hex);
    if IsLong(f) {
      LongTag(name);
      OneCell(GetTags(name), vm, run);
      ValueOutcome([GetTags(name)], Unsigned(n), vm, run);
      assert TokenCells(NumberToken(f, hex, n)) == [GetTags(name)] + [Unsigned(n)];
    } else {
      ShortCellParts(name, n);
      OneCell(ShortCell(name, n), vm, run);
    }
  }

  lemma LongTag(name: Name)
    requires IsLong(name.f)
    ensures Tag(GetTags(name)) in {2, 5}
  {
  }

  lemma VariableOutcome(name: string, value: int, vm: Vm, run: Runner)
    requires WellFormed(VariableToken(name, value))
    ensures CellsOutcome(TokenCells(VariableToken(name, value)), vm, run) == CellOutcome(Unsigned(value), vm, run)
  {
    hide *;
    VariableTokenCells(name, value);
    WordOutcome(name, FnTag(Variable), vm, run);
    ValueOutcome(WordCells(name, FnTag(Variable)), Unsigned(value), vm, run);
  }

  /** The cells of a token do what the token means. */
  ghost predicate Faithful(t: Token, run: Runner)
    requires WellFormed(t)
  {
    forall vm :: CellsOutcome(TokenCells(t), vm, run) == EvalToken(t, vm, run)
  }

  lemma WordExactly(f: Fn, w: string, run: Runner)
    requires WellFormed(WordToken(f, w))
    ensures Faithful(WordToken(f, w), run) <==> (f == Execute ==> !Alias(w))
  {
    WordTokenCells(f, w);
    hide CellsOutcome, TokenCells, WordCells, Alias, Packable, Enter, Named;
    if f == Execute {
      ExecuteExactly(w, run);
    } else {
      forall vm
        ensures CellsOutcome(TokenCells(WordToken(f, w)), vm, run) == Running(vm)
      {
        WordOutcome(w, FnTag(f), vm, run);
      }
    }
  }

  lemma NumberMeaning(t: Token, run: Runner)
    requires t.NumberToken?
    ensures forall vm :: EvalToken(t, vm, run) == if t.f == ExecuteShort then Push(vm, t.n) else Running(vm)
  {
  }

  lemma PushApart(m: int, n: int)
    ensures Push(BOOT, m) == Push(BOOT, n) <==> m == n
  {
    assert BOOT.stack + [m] == [m] && BOOT.stack + [n] == [n];
  }

  lemma NumberExactly(f: Fn, hex: bool, n: int, run: Runner)
    requires WellFormed(NumberToken(f, hex, n))
    ensures Faithful(NumberToken(f, hex, n), run) <==>
            if IsLong(f) then Inert(Unsigned(n)) else f == ExecuteShort ==> n == Short(n)
  {
    hide CellsOutcome, CellOutcome, TokenCells, Inert, Short;
    var t := NumberToken(f, hex, n);
    forall vm
      ensures CellsOutcome(TokenCells(t), vm, run) ==
              if IsLong(f) then CellOutcome(Unsigned(n), vm, run)
              else if f == ExecuteShort then Push(vm, Short(n)) else Running(vm)
    {
      NumberOutcome(f, hex, n, vm, run);
    }
    InertExactly(Unsigned(n), run);
    NumberMeaning(t, run);
    PushApart(n, Short(n));
    hide EvalToken, Push;
    assert f == ExecuteShort ==> EvalToken(t, BOOT, run) == Push(BOOT, n);
  }

  lemma VariableExactly(name: string, value: int, run: Runner)
    requires WellFormed(VariableToken(name, value))
    ensures Faithful(VariableToken(name, value), run) <==> Inert(Unsigned(value))
  {
    hide CellsOutcome, CellOutcome, TokenCells, Inert, Packable;
    forall vm
      ensures CellsOutcome(TokenCells(VariableToken(name, value)), vm, run) == CellOutcome(Unsigned(value), vm, run)
    {
      VariableOutcome(name, value, vm, run);
    }
    InertExactly(Unsigned(value), run);
  }

  /** The cells of a token do what the token means, in every state, exactly when it is runnable. */
  lemma TokenExactly(t: Token, run: Runner)
    requires WellFormed(t)
    ensures Faithful(t, run) <==> Runnable(t)
  {
    hide Faithful, Alias, Inert, Packable, Short;
    match t
    case WordToken(f, w) => WordExactly(f, w, run);
    case NumberToken(f, hex, n) => NumberExactly(f, hex, n, run);
    case VariableToken(name, value) => VariableExactly(name, value, run);
  }

  /** The cells of a runnable token do what the token means. */
  lemma TokenOutcome(t: Token, vm: Vm, run: Runner)
    requires Runnable(t)
    ensures CellsOutcome(TokenCells(t), vm, run) == EvalToken(t, vm, run)
  {
    hide CellsOutcome, TokenCells, EvalToken;
    TokenExactly(t, run);
  }

  lemma {:induction false} TokensOutcome(tokens: seq<Token>, vm: Vm, run: Runner)
    requires AllWellFormed(tokens) && forall i :: 0 <= i < |tokens| ==> Runnable(tokens[i])
    ensures CellsOutcome(BlockCells(tokens), vm, run) == EvalTokens(tokens, vm, run)
  {
    hide Runnable, WellFormed, TokenCells, EvalToken, CellOutcome;
    if tokens != [] {
      var rest := BlockCells(tokens[1..]);
      CellsConcat(TokenCells(tokens[0]), rest, vm, run);
      TokenOutcome(tokens[0], vm, run);
      var o := EvalToken(tokens[0], vm, run);
      if o.Running? {
        TokensOutcome(tokens[1..], o.vm, run);
      }
    }
  }

  /** Built-ins agree under two ways of running blocks that agree. */
  lemma {:induction false} LoadsSame(i: int, j: int, vm: Vm, r: Runner, r': Runner)
    requires forall n, v :: r(n, v) == r'(n, v)
    ensures LoadsOutcome(i, j, vm, r) == LoadsOutcome(i, j, vm, r')
    decreases j - i + 2
  {
    if i <= j && Push(vm, i).Running? {
      var o := LoadOutcome(Push(vm, i).vm, r);
      if o.Running? && IsInt32(i + 2) {
        LoadsSame(i + 2, j, o.vm, r, r');
      }
    }
  }

  lemma {:induction false} TokensSame(tokens: seq<Token>, vm: Vm, r: Runner, r': Runner)
    requires forall n, v :: r(n, v) == r'(n, v)
    ensures EvalTokens(tokens, vm, r) == EvalTokens(tokens, vm, r')
  {
    hide Named;
    if tokens != [] {
      TokenSame(tokens[0], vm, r, r');
      hide EvalToken;
      var o := EvalToken(tokens[0], vm, r);
      if o.Running? {
        TokensSame(tokens[1..], o.vm, r, r');
      }
    }
  }

  lemma TokenSame(t: Token, vm: Vm, r: Runner, r': Runner)
    requires forall n, v :: r(n, v) == r'(n, v)
    ensures EvalToken(t, vm, r) == EvalToken(t, vm, r')
  {
    hide Named, LoadsOutcome, Truncated;
    if t.WordToken? && Named(t.text) == Some(Loads) && |vm.stack| >= 2 {
      var (v, j) := Popped(vm.(ip := Some(Loads)));
      var (v', i) := Popped(v);
      LoadsSame(i, j, v', r, r');
    }
  }

  lemma BlockFits(tokens: seq<Token>)
    requires RunnableBlock(tokens)
    ensures AllWellFormed(tokens) && |Padded(BlockCells(tokens))| == 256
  {
  }

  /** Block `n` of the image holds the cells of block `n` of the source, then zeros. */
  lemma {:induction false} ImageBlock(program: seq<seq<Token>>, n: nat)
    requires RunnableProgram(program)
    ensures forall i :: 0 <= i < |program| ==> AllWellFormed(program[i])
    ensures |Image(program)| == 256 * |program|
    ensures n < |program| ==> Image(program)[n * 256..n * 256 + 256] == Padded(BlockCells(program[n]))
  {
    hide *;
    ImageStep(program);
    if program != [] {
      ImageBlock(program[1..], if n > 0 then n - 1 else 0);
      if n < |program| {
        BlockSlice(Padded(BlockCells(program[0])), Image(program[1..]), n);
      }
    }
  }

  lemma ImageStep(program: seq<seq<Token>>)
    requires RunnableProgram(program)
    ensures forall i :: 0 <= i < |program| ==> AllWellFormed(program[i])
    ensures program == [] ==> Image(program) == []
    ensures program != [] ==>
        && RunnableProgram(program[1..]) && |Padded(BlockCells(program[0]))| == 256
        && (forall i :: 0 <= i < |program[1..]| ==> AllWellFormed(program[1..][i]))
        && Image(program) == Padded(BlockCells(program[0])) + Image(program[1..])
  {
    hide Padded, BlockCells, AllWellFormed, RunnableBlock;
    forall i | 0 <= i < |program|
      ensures AllWellFormed(program[i]) && |Padded(BlockCells(program[i]))| == 256
    {
      BlockFits(program[i]);
    }
  }

  lemma BlockSlice(head: seq<Word32>, rest: seq<Word32>, n: nat)
    requires |head| == 256 && n * 256 <= |rest|
    ensures n == 0 ==> (head + rest)[n * 256..n * 256 + 256] == head
    ensures n > 0 ==> (head + rest)[n * 256..n * 256 + 256] == rest[(n - 1) * 256..(n - 1) * 256 + 256]
  {
  }

  /** A cell left out at the end changes nothing exactly when it does nothing in the state the others lead to. */
  lemma CellLeftOut(cells: seq<Word32>, last: Word32, vm: Vm, run: Runner)
    ensures var o := CellsOutcome(cells, vm, run);
            CellsOutcome(cells + [last], vm, run) == o <==>
            (o.Running? ==> CellOutcome(last, o.vm, run) == Running(o.vm))
  {
    hide CellOutcome, CellsOutcome;
    var o := CellsOutcome(cells, vm, run);
    CellsConcat(cells, [last], vm, run);
    ThenIs(o, [last], run);
    if o.Running? {
      OneCell(last, o.vm, run);
    }
  }

  /** The cells that are run of a filled block. */
  lemma RunCells(tokens: seq<Token>, vm: Vm, run: Runner)
    requires AllWellFormed(tokens) && |BlockCells(tokens)| <= 256
    ensures var cells := BlockCells(tokens);
            && |Padded(cells)| == 256
            && CellsOutcome(Padded(cells)[..255], vm, run) ==
               CellsOutcome(if |cells| == 256 then cells[..255] else cells, vm, run)
  {
    hide *;
    var cells := BlockCells(tokens);
    PaddedPrefix(cells);
    if |cells| < 256 {
      var zeros: seq<Word32> := seq(255 - |cells|, _ => 0);
      CellsConcat(cells, zeros, vm, run);
      ZerosIgnored(255 - |cells|);
      var o := CellsOutcome(cells, vm, run);
      if o.Running? {
        IgnoredCells(zeros, o.vm, run);
      }
      ThenIs(o, zeros, run);
    }
  }

  lemma PaddedPrefix(cells: seq<Word32>)
    requires |cells| <= 256
    ensures |Padded(cells)| == 256
    ensures Padded(cells)[..255] == if |cells| == 256 then cells[..255] else cells + seq(255 - |cells|, _ => 0)
  {
  }

  /**
   * Running a filled block of runnable tokens is evaluating them, exactly when a 256th cell, which is not run, would
   * do nothing in the state the 255 cells before it lead to.
   */
  lemma BlockExactly(tokens: seq<Token>, vm: Vm, run: Runner)
    requires AllWellFormed(tokens) && forall i :: 0 <= i < |tokens| ==> Runnable(tokens[i])
    requires |BlockCells(tokens)| <= 256
    ensures |Padded(BlockCells(tokens))| == 256
    ensures var cells := BlockCells(tokens);
            CellsOutcome(Padded(cells)[..255], vm, run) == EvalTokens(tokens, vm, run) <==>
            |cells| == 256 ==>
              var o := CellsOutcome(cells[..255], vm, run);
              o.Running? ==> CellOutcome(cells[255], o.vm, run) == Running(o.vm)
  {
    hide *;
    var cells := BlockCells(tokens);
    RunCells(tokens, vm, run);
    TokensOutcome(tokens, vm, run);
    if |cells| == 256 {
      assert cells == cells[..255] + [cells[255]];
      CellLeftOut(cells[..255], cells[255], vm, run);
    }
  }

  /** What a word that is already in effect repeats without a trace. */
  predicate Repeats(cell: Word32, vm: Vm)
  {
    && Tag(cell) == 1 && Named(Text(cell)).Some? && vm.ip == Named(Text(cell))
    && match Named(Text(cell)).value
       case Comma => true
       case Forth => vm.forthSelected
       case Macro => !vm.forthSelected
       case _ => false
  }

  /** A cell that loads nothing does nothing in a state exactly when it is inert or repeats what is in effect. */
  lemma NothingExactly(cell: Word32, vm: Vm, run: Runner)
    requires Tag(cell) == 1 ==> Named(Text(cell)) != Some(Load) && Named(Text(cell)) != Some(Loads)
    ensures CellOutcome(cell, vm, run) == Running(vm) <==> Inert(cell) || Repeats(cell, vm)
  {
    hide Named, Text, Tag, Truncated, Signed;
    var o := CellOutcome(cell, vm, run);
    if o.Running? && Tag(cell) == 1 && Named(Text(cell)).Some? {
      PerformShrinks(Named(Text(cell)).value, vm.(ip := Named(Text(cell))), run);
    }
  }

  lemma PerformShrinks(b: Builtin, vm: Vm, run: Runner)
    requires b != Load && b != Loads && Perform(b, vm, run).Running?
    ensures var v := Perform(b, vm, run).vm;
            && v.ip == vm.ip
            && (b in {Comma, Forth, Macro} ==> v == vm.(forthSelected := v.forthSelected))
            && (b == Comma ==> v == vm) && (b == Forth ==> v.forthSelected) && (b == Macro ==> !v.forthSelected)
            && (b !in {Comma, Forth, Macro} ==> |v.stack| < |vm.stack|)
  {
    hide Truncated;
  }

  /** So a 256th cell that pushes a number is missed whenever the others run through. */
  lemma LastNumberMissed(tokens: seq<Token>, vm: Vm, run: Runner)
    requires AllWellFormed(tokens) && forall i :: 0 <= i < |tokens| ==> Runnable(tokens[i])
    requires |BlockCells(tokens)| == 256 && Tag(BlockCells(tokens)[255]) == 8
    requires CellsOutcome(BlockCells(tokens)[..255], vm, run).Running?
    ensures |Padded(BlockCells(tokens))| == 256
    ensures CellsOutcome(Padded(BlockCells(tokens))[..255], vm, run) != EvalTokens(tokens, vm, run)
  {
    hide *;
    var cells := BlockCells(tokens);
    BlockExactly(tokens, vm, run);
    NumberTag(cells[255]);
    NothingExactly(cells[255], CellsOutcome(cells[..255], vm, run).vm, run);
    NumberActs(cells[255], CellsOutcome(cells[..255], vm, run).vm);
  }

  lemma NumberTag(cell: Word32)
    ensures Tag(cell) == 8 ==> Tag(cell) != 1
  {
  }

  lemma NumberActs(cell: Word32, vm: Vm)
    requires Tag(cell) == 8
    ensures !Inert(cell) && !Repeats(cell, vm)
  {
    hide Tag, Named, Text;
  }

  /** Commented numbers, which do nothing, a cell each. */
  function Comments(k: nat): (tokens: seq<Token>)
    ensures |tokens| == k
  {
    seq(k, _ => NumberToken(CommentedNumber, false, 0))
  }

  lemma {:induction false} CommentCells(k: nat)
    ensures AllWellFormed(Comments(k)) && |BlockCells(Comments(k))| == k
    ensures forall i :: 0 <= i < k ==> Runnable(Comments(k)[i]) && Tag(BlockCells(Comments(k))[i]) == 15
  {
    hide BlockCells, Tag, ShortCell, Short, GetTags, Inert;
    if k == 0 {
      assert Comments(0) == [];
      NoCells();
    } else {
      var t := NumberToken(CommentedNumber, false, 0);
      assert Comments(k) == [t] + Comments(k - 1);
      CommentCells(k - 1);
      BlockCellsConcat([t], Comments(k - 1));
      OneShort(CommentedNumber, 0);
    }
  }

  lemma NoCells()
    ensures BlockCells([]) == []
  {
  }

  lemma OneShort(f: Fn, n: int)
    requires IsShort(f)
    ensures var t := NumberToken(f, false, n);
            AllWellFormed([t]) && |BlockCells([t])| == 1 && Tag(BlockCells([t])[0]) == FnTag(f)
  {
    hide ShortCell, Tag;
    ShortCellParts(Name(f, false), n);
    assert [NumberToken(f, false, n)][1..] == [];
  }

  /** A last token in the 256th cell, behind cells that do nothing. */
  lemma LastTokenMissed(before: seq<Token>, t: Token, vm: Vm, run: Runner)
    requires AllWellFormed(before) && AllWellFormed([t]) && Runnable(t)
    requires forall i :: 0 <= i < |before| ==> Runnable(before[i])
    requires |BlockCells(before)| == 255 && |BlockCells([t])| == 1
    requires forall i :: 0 <= i < 255 ==> Tag(BlockCells(before)[i]) == 15
    ensures AllWellFormed(before + [t]) && |Padded(BlockCells(before + [t]))| == 256
    ensures forall i :: 0 <= i < |before + [t]| ==> Runnable((before + [t])[i])
    ensures EvalTokens(before + [t], vm, run) == EvalTokens([t], vm, run)
    ensures CellsOutcome(Padded(BlockCells(before + [t]))[..255], vm, run) == Running(vm)
  {
    hide *;
    var tokens, cells := before + [t], BlockCells(before);
    BlockCellsConcat(before, [t]);
    IgnoredCells(cells, vm, run);
    PaddedPrefix(BlockCells(tokens));
    assert BlockCells(tokens)[..255] == cells;
    TokensOutcome(tokens, vm, run);
    CellsConcat(cells, BlockCells([t]), vm, run);
    ThenIs(Running(vm), BlockCells([t]), run);
    TokensOutcome([t], vm, run);
  }

  /** Behind 255 commented numbers, a 5 to execute means 5 on the stack, and is not run. */
  lemma LastNumberExample(run: Runner)
    ensures var tokens := Comments(255) + [NumberToken(ExecuteShort, false, 5)];
            && AllWellFormed(tokens) && |Padded(BlockCells(tokens))| == 256
            && (forall i :: 0 <= i < |tokens| ==> Runnable(tokens[i]))
            && EvalTokens(tokens, BOOT, run) == Running(BOOT.(stack := [5]))
            && CellsOutcome(Padded(BlockCells(tokens))[..255], BOOT, run) == Running(BOOT)
  {
    hide *;
    TheFive(run);
    CommentCells(255);
    LastTokenMissed(Comments(255), NumberToken(ExecuteShort, false, 5), BOOT, run);
  }

  lemma TheFive(run: Runner)
    ensures var t := NumberToken(ExecuteShort, false, 5);
            && AllWellFormed([t]) && |BlockCells([t])| == 1 && Runnable(t)
            && EvalTokens([t], BOOT, run) == Running(BOOT.(stack := [5]))
  {
    OneShort(ExecuteShort, 5);
    assert [NumberToken(ExecuteShort, false, 5)][1..] == [] && [] + [5] == [5];
    hide BlockCells;
  }

  /** Running a block of the image is evaluating the block of tokens it was made from. */
  lemma BlockMeaning(program: seq<seq<Token>>, n: nat, vm: Vm, run: Runner)
    requires RunnableProgram(program) && n < |program|
    ensures |Image(program)| == 256 * |program|
    ensures CellsOutcome(Image(program)[n * 256..n * 256 + 255], vm, run) == EvalTokens(program[n], vm, run)
  {
    hide *;
    ImageBlock(program, n);
    RunnableAt(program, n);
    var cells := BlockCells(program[n]);
    BlockExactly(program[n], vm, run);
    if |cells| == 256 {
      InertExactly(cells[255], run);
    }
    PaddedSlice(Image(program), n, cells);
  }

  lemma RunnableAt(program: seq<seq<Token>>, n: nat)
    requires RunnableProgram(program) && n < |program|
    ensures AllWellFormed(program[n]) && |BlockCells(program[n])| <= 256
    ensures |BlockCells(program[n])| == 256 ==> Inert(BlockCells(program[n])[255])
    ensures forall i :: 0 <= i < |program[n]| ==> Runnable(program[n][i])
  {
    hide Runnable, BlockCells, AllWellFormed, Inert;
    assert RunnableBlock(program[n]);
  }

  lemma PaddedSlice(image: seq<Word32>, n: nat, cells: seq<Word32>)
    requires n * 256 + 256 <= |image| && |Padded(cells)| == 256
    requires image[n * 256..n * 256 + 256] == Padded(cells)
    ensures image[n * 256..n * 256 + 255] == Padded(cells)[..255]
  {
    assert image[n * 256..n * 256 + 255] == image[n * 256..n * 256 + 256][..255];
  }

  lemma ZerosIgnored(k: nat)
    ensures var zeros: seq<Word32> := seq(k, _ => 0);
            forall i :: 0 <= i < |zeros| ==> Tag(zeros[i]) != 1 && Tag(zeros[i]) != 8
  {
  }

  /**
   * Translation preserves meaning: whatever block is run, on whatever state, the converted image and the
   * source give the same stack, dictionary, printed numbers and failures, through any nesting of loads.
   */
  lemma {:induction false} TranslationPreservesMeaning(program: seq<seq<Token>>, n: int, vm: Vm, fuel: nat)
    requires RunnableProgram(program)
    ensures BlockOutcome(Image(program), n, vm, fuel) == EvalBlock(program, n, vm, fuel)
    decreases fuel
  {
    hide *;
    ImageBlock(program, 0);
    BlockStep(program, n, vm, fuel);
    if fuel > 0 && 0 <= n < |program| {
      var r, r' := ImageRunner(Image(program), fuel - 1), SourceRunner(program, fuel - 1);
      forall m, v
        ensures r(m, v) == r'(m, v)
      {
        TranslationPreservesMeaning(program, m, v, fuel - 1);
        Runners(program, m, v, fuel - 1);
      }
      BlockMeaning(program, n, vm, r);
      TokensSame(program[n], vm, r, r');
    }
  }

  lemma Runners(program: seq<seq<Token>>, n: int, vm: Vm, fuel: nat)
    requires forall i :: 0 <= i < |program| ==> AllWellFormed(program[i])
    ensures ImageRunner(Image(program), fuel)(n, vm) == BlockOutcome(Image(program), n, vm, fuel)
    ensures SourceRunner(program, fuel)(n, vm) == EvalBlock(program, n, vm, fuel)
  {
    hide Image, BlockOutcome, EvalBlock;
  }

  lemma BlockStep(program: seq<seq<Token>>, n: int, vm: Vm, fuel: nat)
    requires forall i :: 0 <= i < |program| ==> AllWellFormed(program[i])
    requires |Image(program)| == 256 * |program|
    ensures BlockOutcome(Image(program), n, vm, fuel) == (
              if fuel == 0 then OutOfFuel
              else if n < 0 || |program| <= n then Undefined
              else CellsOutcome(Image(program)[n * 256..n * 256 + 255], vm, ImageRunner(Image(program), fuel - 1)))
    ensures EvalBlock(program, n, vm, fuel) == (
              if fuel == 0 then OutOfFuel
              else if n < 0 || |program| <= n then Undefined
              else EvalTokens(program[n], vm, SourceRunner(program, fuel - 1)))
  {
    hide Image, CellsOutcome, EvalTokens, ImageRunner, SourceRunner, AllWellFormed;
  }

  /** Running out of fuel is the only thing more fuel changes. */
  ghost predicate Refines(o: Outcome, o': Outcome)
  {
    o == OutOfFuel || o == o'
  }

  lemma {:induction false} LoadsMonotone(i: int, j: int, vm: Vm, r: Runner, r': Runner)
    requires forall n, v :: Refines(r(n, v), r'(n, v))
    ensures Refines(LoadsOutcome(i, j, vm, r), LoadsOutcome(i, j, vm, r'))
    decreases j - i + 2
  {
    if i <= j && Push(vm, i).Running? {
      var v := Push(vm, i).vm;
      assert Refines(LoadOutcome(v, r), LoadOutcome(v, r'));
      if LoadOutcome(v, r).Running? && IsInt32(i + 2) {
        LoadsMonotone(i + 2, j, LoadOutcome(v, r).vm, r, r');
      }
    }
  }

  lemma CellMonotone(cell: Word32, vm: Vm, r: Runner, r': Runner)
    requires forall n, v :: Refines(r(n, v), r'(n, v))
    ensures Refines(CellOutcome(cell, vm, r), CellOutcome(cell, vm, r'))
  {
    hide Named, LoadsOutcome, Truncated, Tag, Text;
    if Named(Text(cell)) == Some(Loads) && |vm.stack| >= 2 {
      var (v, j) := Popped(vm.(ip := Some(Loads)));
      var (v', i) := Popped(v);
      LoadsMonotone(i, j, v', r, r');
    }
  }

  lemma {:induction false} CellsMonotone(cells: seq<Word32>, vm: Vm, r: Runner, r': Runner)
    requires forall n, v :: Refines(r(n, v), r'(n, v))
    ensures Refines(CellsOutcome(cells, vm, r), CellsOutcome(cells, vm, r'))
  {
    hide CellOutcome;
    if cells != [] {
      CellMonotone(cells[0], vm, r, r');
      var o := CellOutcome(cells[0], vm, r);
      if o.Running? {
        CellsMonotone(cells[1..], o.vm, r, r');
      }
    }
  }

  /** A block whose run ends with some fuel ends the same way with any more. */
  lemma {:induction false} FuelMonotone(image: seq<Word32>, n: int, vm: Vm, fuel: nat, more: nat)
    requires fuel <= more
    ensures Refines(BlockOutcome(image, n, vm, fuel), BlockOutcome(image, n, vm, more))
    decreases fuel
  {
    if fuel > 0 {
      var r, r' := ImageRunner(image, fuel - 1), ImageRunner(image, more - 1);
      forall m, v
        ensures Refines(r(m, v), r'(m, v))
      {
        FuelMonotone(image, m, v, fuel - 1, more - 1);
      }
      if 0 <= n && (n + 1) * 256 <= |image| {
        hide CellsOutcome;
        CellsMonotone(image[n * 256..n * 256 + 255], vm, r, r');
      }
    }
  }
}
