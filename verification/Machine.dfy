/** The interpreter as the kernel runs it: a stack of 42 cells and a few globals, changed in place. */
module Machine {
  import opened Bits
  import opened Cells
  import opened Options
  import opened Dictionary
  import opened Forth

  /** How a routine ends: normally, in undefined behaviour, or out of fuel. */
  datatype Status = Fine | Bad | Starved

  ghost predicate Agrees(o: Outcome, s: Status, vm: Vm)
  {
    match o
    case Running(v) => s == Fine && vm == v
    case Undefined => s == Bad
    case OutOfFuel => s == Starved
  }

  class Interpreter {
    const blocks: seq<Word32>
    const stack: array<int>
    var tos: nat
    var forthSelected: bool
    var ip: Option<Builtin>
    var printed: seq<int>

    ghost predicate Valid()
      reads this
    {
      stack.Length == STACK_SIZE && tos <= STACK_SIZE
    }

    /** The state the routines work on. */
    ghost function State(): Vm
      requires Valid()
      reads this, stack
    {
      Vm(stack[..tos], forthSelected, ip, printed)
    }

    constructor (blocks: seq<Word32>)
      ensures Valid() && fresh(stack) && this.blocks == blocks
      ensures State() == Vm([], true, None, [])
    {
      this.blocks := blocks;
      stack := new int[STACK_SIZE](_ => 0);
      tos, forthSelected, ip, printed := 0, true, None, [];
    }

    method StackPush(x: int) returns (s: Status)
      requires Valid()
      modifies this`tos, stack
      ensures Valid() && Agrees(Push(old(State()), x), s, State())
    {
      if tos == STACK_SIZE {
        return Bad;
      }
      stack[tos] := x;
      tos := tos + 1;
      s := Fine;
    }

    method StackPop() returns (s: Status, x: int)
      requires Valid()
      modifies this`tos
      ensures Valid()
      ensures s == (if old(State()).stack == [] then Bad else Fine)
      ensures s == Fine ==> Popped(old(State())) == (State(), x)
    {
      if tos == 0 {
        return Bad, 0;
      }
      tos := tos - 1;
      assert stack[..tos + 1][..tos] == stack[..tos];
      return Fine, stack[tos];
    }

    method Load(fuel: nat) returns (s: Status)
      requires Valid()
      modifies this, stack
      ensures Valid() && Agrees(LoadOutcome(old(State()), ImageRunner(blocks, fuel)), s, State())
      ensures var vm := old(State());
              var n := |vm.stack| - 1;
              if n < 0 then s == Bad
              else Agrees(BlockOutcome(blocks, vm.stack[n], vm.(stack := vm.stack[..n]), fuel), s, State())
      decreases fuel, 1
    {
      var n;
      s, n := StackPop();
      if s == Fine {
        s := RunBlock(n, fuel);
      }
    }

    method Loads(fuel: nat) returns (s: Status)
      requires Valid()
      modifies this, stack
      ensures Valid() && Agrees(Perform(Builtin.Loads, old(State()), ImageRunner(blocks, fuel)), s, State())
      decreases fuel, 3
    {
      hide BlockOutcome, ImageRunner, Truncated, LoadsOutcome;
      var i, j;
      s, j := StackPop();
      if s != Fine {
        return;
      }
      s, i := StackPop();
      if s != Fine {
        return;
      }
      s := LoadsLoop(i, j, fuel);
    }

    /** The loop of `loads`. */
    method LoadsLoop(first: int, j: int, fuel: nat) returns (s: Status)
      requires Valid()
      modifies this, stack
      ensures Valid() && Agrees(LoadsOutcome(first, j, old(State()), ImageRunner(blocks, fuel)), s, State())
      decreases fuel, 2
    {
      hide *;
      ghost var run := ImageRunner(blocks, fuel);
      ghost var goal := LoadsOutcome(first, j, State(), run);
      var i := first;
      while i <= j
        invariant Valid() && LoadsOutcome(i, j, State(), run) == goal
        decreases j - i + 2
      {
        LoadsStep(i, j, State(), run);
        ghost var p := Push(State(), i);
        s := StackPush(i);
        StatusOf(p, s, State());
        if s != Fine {
          return;
        }
        ghost var o := LoadOutcome(State(), run);
        s := Load(fuel);
        StatusOf(o, s, State());
        if s != Fine {
          return;
        }
        if !IsInt32(i + 2) {
          StatusOf(Undefined, Bad, State());
          return Bad;
        }
        i := i + 2;
      }
      LoadsStep(i, j, State(), run);
      s := Fine;
      StatusOf(Running(State()), s, State());
    }

    method Add() returns (s: Status)
      requires Valid()
      modifies this`tos, stack
      ensures Valid() && Agrees(Perform(Builtin.Add, old(State()), (n, v) => Undefined), s, State())
      ensures var vm := old(State());
              var n := |vm.stack| - 2;
              if n < 0 || !IsInt32(vm.stack[n] + vm.stack[n + 1]) then s == Bad
              else s == Fine && State() == vm.(stack := vm.stack[..n] + [vm.stack[n] + vm.stack[n + 1]])
    {
      var a, b;
      s, a := StackPop();
      if s == Fine {
        s, b := StackPop();
        if s == Fine {
          if !IsInt32(a + b) {
            return Bad;
          }
          s := StackPush(a + b);
        }
      }
    }

    method Divide() returns (s: Status)
      requires Valid()
      modifies this`tos, stack
      ensures Valid() && Agrees(Perform(Builtin.Divide, old(State()), (n, v) => Undefined), s, State())
    {
      var a, b;
      s, a := StackPop();
      if s == Fine {
        s, b := StackPop();
        if s == Fine {
          if a == 0 || (b == -0x8000_0000 && a == -1) {
            return Bad;
          }
          s := StackPush(Truncated(b, a));
        }
      }
    }

    method Dot() returns (s: Status)
      requires Valid()
      modifies this`tos, this`printed
      ensures Valid() && Agrees(Perform(Builtin.Dot, old(State()), (n, v) => Undefined), s, State())
      ensures var vm := old(State());
              var n := |vm.stack| - 1;
              if n < 0 then s == Bad
              else s == Fine && State() == vm.(stack := vm.stack[..n], printed := vm.printed + [vm.stack[n]])
    {
      var n;
      s, n := StackPop();
      if s == Fine {
        printed := printed + [n];
      }
    }

    /** `execute`: remembers the routine and calls it. */
    method Execute(b: Builtin, fuel: nat) returns (s: Status)
      requires Valid()
      modifies this, stack
      ensures Valid() && Agrees(Enter(Some(b), old(State()), ImageRunner(blocks, fuel)), s, State())
      decreases fuel, 4
    {
      hide LoadsOutcome, ImageRunner, Truncated, Push;
      ip := Some(b);
      match b
      case Comma => s := Fine;
      case Forth => forthSelected := true; s := Fine;
      case Macro => forthSelected := false; s := Fine;
      case Load => s := Load(fuel);
      case Loads => s := Loads(fuel);
      case Dot => s := Dot();
      case Add => s := Add();
      case Divide => s := Divide();
    }

    method DispatchWord(word: Word32, fuel: nat) returns (s: Status)
      requires Valid()
      modifies this, stack
      ensures Valid() && Agrees(CellOutcome(word, old(State()), ImageRunner(blocks, fuel)), s, State())
      decreases fuel, 5
    {
      hide Named, Text, Perform, ImageRunner;
      var color := word % 16;
      if color == 1 {
        var found := LookupWord(word, true);
        if found.name != 0 {
          s := Execute(found.code.value, fuel);
        } else {
          s := Fine;
        }
      } else if color == 8 {
        s := StackPush(Signed(word) / 32);
      } else {
        s := Fine;
      }
    }

    /** `run_block`: dispatches the cells of a block, all but the last. */
    method RunBlock(n: int, fuel: nat) returns (s: Status)
      requires Valid()
      modifies this, stack
      ensures Valid() && Agrees(BlockOutcome(blocks, n, old(State()), fuel), s, State())
      decreases fuel, 0
    {
      if fuel == 0 {
        return Starved;
      }
      if n < 0 || |blocks| < (n + 1) * 256 {
        return Bad;
      }
      s := RunCells(n * 256, (n + 1) * 256, fuel - 1);
    }

    /** The loop of `run_block`. */
    method RunCells(start: nat, limit: nat, fuel: nat) returns (s: Status)
      requires Valid() && start < limit <= |blocks|
      modifies this, stack
      ensures Valid()
      ensures Agrees(CellsOutcome(blocks[start..limit - 1], old(State()), ImageRunner(blocks, fuel)), s, State())
      decreases fuel, 6
    {
      hide *;
      ghost var cells, run := blocks[start..limit - 1], ImageRunner(blocks, fuel);
      ghost var goal := CellsOutcome(cells, State(), run);
      assert cells[0..] == cells;
      var i := start;
      while i < limit - 1
        invariant start <= i <= limit - 1 && Valid()
        invariant CellsOutcome(cells[i - start..], State(), run) == goal
      {
        CellsStep(cells, i - start, State(), run);
        ghost var o := CellOutcome(cells[i - start], State(), run);
        s := DispatchWord(blocks[i], fuel);
        StatusOf(o, s, State());
        if s != Fine {
          return;
        }
        i := i + 1;
      }
      CellsStep(cells, |cells|, State(), run);
      s := Fine;
      StatusOf(Running(State()), s, State());
    }
  }

  lemma StatusOf(o: Outcome, s: Status, vm: Vm)
    ensures Agrees(o, s, vm) ==> (s == Fine <==> o.Running?)
    ensures o.Running? && s == Fine ==> (Agrees(o, s, vm) <==> o.vm == vm)
    ensures o == Undefined && s == Bad ==> Agrees(o, s, vm)
  {
  }

  lemma LoadsStep(i: int, j: int, vm: Vm, run: Runner)
    ensures LoadsOutcome(i, j, vm, run) == (
              var o := if Push(vm, i).Running? then LoadOutcome(Push(vm, i).vm, run) else Push(vm, i);
              if i > j then Running(vm)
              else if !o.Running? then o
              else if IsInt32(i + 2) then LoadsOutcome(i + 2, j, o.vm, run) else Undefined)
  {
  }

  lemma CellsStep(cells: seq<Word32>, k: nat, vm: Vm, run: Runner)
    requires k <= |cells|
    ensures CellsOutcome(cells[k..], vm, run) == (
              if k == |cells| then Running(vm) else
                var o := CellOutcome(cells[k], vm, run);
                if o.Running? then CellsOutcome(cells[k + 1..], o.vm, run) else o)
  {
    if k < |cells| {
      assert cells[k..][1..] == cells[k + 1..];
    }
  }
}
