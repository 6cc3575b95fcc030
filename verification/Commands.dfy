/** The editor's command line (`do_cmd` in kernel/colorforth/editor.c): typed numbers and typed words. */
module Commands {
  import opened Arithmetic
  import opened Bits
  import opened Huffman
  import opened Cells
  import opened Options
  import opened EditorPack
  import opened Dictionary
  import opened Forth
  import opened Machine
  import opened Numbers

  predicate AllDecimal(text: string)
  {
    forall i :: 0 <= i < |text| ==> IsDecimal(text[i])
  }

  /** The cell made of a typed number pushes its low 27 bits. */
  lemma TypedCell(x: int)
    ensures var c: int := Unsigned(x * 32) + 8;
            c < WORD && Tag(c) == 8 && Signed(c) / 32 == Short(x)
  {
    hide Short, Signed;
    ShiftedNumber(x);
    NumberBack(x, 8);
    EightIsTag(x % 0x800_0000);
  }

  lemma EightIsTag(low: nat)
    requires low < 0x800_0000
    ensures Tag(low * 32 + 8) == 8
  {
    DivMod(2 * low, 16, 8);
  }

  /** The tag makes no difference to what a cell spells. */
  lemma TagIgnored(c: Word32, tag: nat)
    requires tag < 16
    ensures var d: int := c - Tag(c) + tag; 0 <= d < WORD && Tag(d) == tag && Text(d) == Text(c)
  {
    hide Val, Decode;
    var d := c - Tag(c) + tag;
    CellParts(c);
    CellParts(d);
    ValInjective(TextBits(c), TextBits(d));
  }

  /**
   * Runs what was typed. Any text of digits, the empty one included, is a number; of the rest, the packer is defined
   * on words of the alphabet with at most 32 code bits.
   */
  method DoCommand(word: string, vm: Interpreter, fuel: nat) returns (found: bool, s: Status)
    requires vm.Valid() && (AllDecimal(word) || (Packable(word) && |Encode(word)| <= 32))
    modifies vm, vm.stack
    ensures vm.Valid()
    ensures AllDecimal(word) ==>
        found && if Within(word) then Agrees(Push(old(vm.State()), Short(Number(word))), s, vm.State()) else s == Bad
    ensures !AllDecimal(word) ==>
        var b := Named(Text(Packed(word)));
        found == b.Some? && Agrees(Enter(b, old(vm.State()), ImageRunner(vm.blocks, fuel)), s, vm.State())
  {
    hide Named, Text, Packed, Encode, Packable, Perform, ImageRunner, Number, Signed, Unsigned, Push, Short;
    var isNumber := IsNumber(word);
    var packed: Word32;
    if isNumber {
      var k := Atoi(word);
      if k == None {
        return true, Bad;
      }
      TypedCell(k.value);
      packed := Unsigned(k.value * 32) + 8;
    } else {
      packed := Pack(word);
      TagIgnored(packed, 1);
      packed := packed - packed % 16 + 1;
      var w := LookupWord(packed, true);
      if w.name == 0 {
        return false, Fine;
      }
    }
    s := vm.DispatchWord(packed, fuel);
    found := true;
  }

  /**
   * Typing the decimal text of a number pushes that number exactly when it is below 2^26, and is defined in C for
   * all but the 48 largest numbers of type `int`.
   */
  lemma {:induction false} TypedNumber(n: nat)
    ensures AllDecimal(Digits(n, 10))
    ensures Within(Digits(n, 10)) <==> IsInt32(n + 48)
    ensures Short(Number(Digits(n, 10))) == n <==> n < 0x400_0000
  {
    hide Digits;
    NumberOfDigits(n);
    DigitsWithin(Digits(n, 10));
  }
}
