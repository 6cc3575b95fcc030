/** The text screen as the kernel keeps it: two bytes of video memory for a cell, changed in place. */
module Video {
  import opened Screen

  /** The page and the memory behind it, and the whole of video memory. */
  const PAGE: nat := 4000
  const VIDEO_MEMORY: nat := 0x8000

  function Cells(bytes: seq<Byte>): (cells: seq<Cell>)
    requires |bytes| == PAGE
    ensures |cells| == CELLS
  {
    seq(CELLS, k requires 0 <= k < CELLS => Cell(bytes[2 * k], bytes[2 * k + 1]))
  }

  class Vga {
    const memory: array<Byte>
    var positionX: Byte
    var positionY: Byte
    var attributes: Byte

    ghost predicate Valid()
      reads this
    {
      memory.Length == VIDEO_MEMORY && positionY < ROWS
    }

    ghost function Current(): (p: Page)
      requires Valid()
      reads this, memory
      ensures Proper(p)
    {
      Page(Cells(memory[..PAGE]), positionX, positionY, attributes)
    }

    constructor ()
      ensures fresh(memory) && Valid()
    {
      memory := new Byte[VIDEO_MEMORY](_ => 0);
      positionX, positionY, attributes := 0, 0, 0;
    }

    method SetAttributes(attributes: Byte)
      requires Valid()
      modifies this`attributes
      ensures Valid() && Current() == old(Current()).(ink := attributes)
    {
      this.attributes := attributes;
    }

    method SetPosition(x: Byte, y: Byte)
      modifies this`positionX, this`positionY
      ensures positionX == x && positionY == y
    {
      positionX, positionY := x, y;
    }

    /** `vga_update_position`, in unsigned bytes. */
    method UpdatePosition(x: int, y: int)
      requires Valid() && positionY + y < ROWS && -128 <= x < 128 && -128 <= y < 128 && positionY + y >= 0
      modifies this`positionX, this`positionY
      ensures Valid() && positionX == (old(positionX) + x) % 256 && positionY == old(positionY) + y
      ensures x == -1 && y == 0 ==> Current() == SteppedBack(old(Current()))
    {
      positionX := (positionX + x) % 256;
      positionY := (positionY + y) % 256;
    }

    /** The last write of the loop is behind the page. */
    method Clear()
      requires Valid()
      modifies this`positionX, this`positionY, memory
      ensures Valid() && Current() == Cleared(attributes)
    {
      var video := 0;
      while video <= PAGE
        invariant video % 2 == 0 && video <= PAGE + 2
        invariant forall b :: 0 <= b < video ==> memory[b] == if b % 2 == 0 then 0 else WHITE_ON_BLACK
      {
        memory[video] := 0;
        memory[video + 1] := WHITE_ON_BLACK;
        video := video + 2;
      }
      SetPosition(0, 0);
      BlankCells(memory[..PAGE]);
    }

    method ScrollUp(lines: nat)
      requires memory.Length == VIDEO_MEMORY && 1 <= lines <= positionY <= ROWS
      modifies this`positionY, memory
      ensures positionY == old(positionY) - lines
      ensures Cells(memory[..PAGE]) ==
          old(Cells(memory[..PAGE]))[COLUMNS * lines..] + seq(COLUMNS * lines, _ => Cell(0, 0))
    {
      var video := 0;
      while video < PAGE
        invariant video <= PAGE && positionY == old(positionY)
        invariant forall b :: 0 <= b < video ==>
            memory[b] == if b + lines * 160 < PAGE then old(memory[b + lines * 160]) else 0
        invariant forall b :: video <= b < PAGE ==> memory[b] == old(memory[b])
      {
        var tmp := video + lines * COLUMNS * 2;
        if tmp < PAGE {
          memory[video] := memory[tmp];
        } else {
          memory[video] := 0;
        }
        video := video + 1;
      }
      ScrolledCells(old(memory[..PAGE]), memory[..PAGE], lines);
      positionY := positionY - lines;
    }

    /** Writes the cell at an offset, on the page or behind it. */
    method Put(video: nat, character: Byte)
      requires memory.Length == VIDEO_MEMORY && video % 2 == 0 && video + 1 < VIDEO_MEMORY
      modifies memory
      ensures Cells(memory[..PAGE]) ==
          var cells := old(Cells(memory[..PAGE]));
          if video / 2 < CELLS then cells[video / 2 := Cell(character, attributes)] else cells
    {
      memory[video] := character;
      memory[video + 1] := attributes;
      PutCells(old(memory[..PAGE]), memory[..PAGE], video, Cell(character, attributes));
    }

    /** Brings a cursor that has left the screen back to the last row. */
    method Follow()
      requires memory.Length == VIDEO_MEMORY && positionY <= ROWS
      modifies this`positionY, memory
      ensures Valid()
      ensures Current() == Followed(Page(old(Cells(memory[..PAGE])), positionX, old(positionY), attributes))
    {
      if positionY > ROWS - 1 {
        ScrollUp(positionY - (ROWS - 1));
      }
    }

    /** Any character but a newline, a backspace and a tabulation. */
    method DisplayOther(character: Byte)
      requires Valid() && Ordinary(character)
      modifies this`positionX, this`positionY, memory
      ensures Valid() && Current() == Typed(old(Current()), character)
    {
      hide Cells, Followed;
      ghost var p := Current();
      var video := 2 * positionX + COLUMNS * 2 * positionY;
      assert video / 2 == COLUMNS * positionY + positionX;
      Put(video, character);
      ghost var q := Placed(p, COLUMNS * p.y + p.x, Cell(character, p.ink));
      assert Cells(memory[..PAGE]) == q.cells;
      positionX := (positionX + 1) % 256;
      if positionX > COLUMNS - 1 {
        positionX := 0;
        positionY := positionY + 1;
      }
      Stays(q.(x := positionX, y := positionY));
      Follow();
    }

    method DisplayBackspace()
      requires Valid()
      modifies this`positionX, this`positionY, memory
      ensures Valid() && Current() == Typed(old(Current()), BACKSPACE)
    {
      hide Cells, Followed;
      var video := 2 * positionX + COLUMNS * 2 * positionY;
      if positionX > 0 {
        positionX := positionX - 1;
        video := 2 * positionX + COLUMNS * 2 * positionY;
      } else if positionY > 0 {
        positionY := positionY - 1;
        positionX := COLUMNS - 1;
        video := 2 * positionX + COLUMNS * 2 * positionY;
      }
      assert video / 2 == COLUMNS * positionY + positionX;
      Put(video, SPACE);
    }

    method DisplayCharacter(character: Byte)
      requires Valid()
      modifies this`positionX, this`positionY, memory
      ensures Valid() && Current() == Typed(old(Current()), character)
    {
      hide Cells, Followed, Placed;
      if character == NEWLINE {
        positionX := 0;
        positionY := positionY + 1;
        Follow();
      } else if character == BACKSPACE {
        DisplayBackspace();
      } else if character == TABULATION {
        if positionX + 4 > COLUMNS {
        } else {
          positionX := positionX + 4;
        }
      } else {
        DisplayOther(character);
      }
    }

    /** Showing characters one after the other. */
    method Display(characters: seq<Byte>)
      requires Valid()
      modifies this`positionX, this`positionY, memory
      ensures Valid() && Current() == TypedAll(old(Current()), characters)
    {
      hide Typed;
      for i := 0 to |characters|
        invariant Valid() && Current() == TypedAll(old(Current()), characters[..i])
      {
        assert characters[..i + 1][..i] == characters[..i];
        DisplayCharacter(characters[i]);
      }
      assert characters[..|characters|] == characters;
    }
  }

  lemma Stays(p: Page)
    ensures |p.cells| == CELLS && p.y < ROWS ==> Followed(p) == p
  {
  }

  lemma BlankCells(bytes: seq<Byte>)
    requires |bytes| == PAGE && forall b :: 0 <= b < PAGE ==> bytes[b] == if b % 2 == 0 then 0 else WHITE_ON_BLACK
    ensures Cells(bytes) == seq(CELLS, _ => Cell(0, WHITE_ON_BLACK))
  {
  }

  lemma ScrolledCells(bytes: seq<Byte>, bytes': seq<Byte>, lines: nat)
    requires |bytes| == |bytes'| == PAGE && lines <= ROWS
    requires forall b :: 0 <= b < PAGE ==> bytes'[b] == if b + lines * 160 < PAGE then bytes[b + lines * 160] else 0
    ensures Cells(bytes') == Cells(bytes)[COLUMNS * lines..] + seq(COLUMNS * lines, _ => Cell(0, 0))
  {
    var cells, cells' := Cells(bytes), Cells(bytes');
    var n := COLUMNS * lines;
    forall k | 0 <= k < CELLS
      ensures cells'[k] == if k + n < CELLS then cells[k + n] else Cell(0, 0)
    {
      assert 2 * (k + n) == 2 * k + lines * 160;
    }
  }

  lemma PutCells(bytes: seq<Byte>, bytes': seq<Byte>, video: nat, c: Cell)
    requires |bytes| == |bytes'| == PAGE && video % 2 == 0
    requires forall b :: 0 <= b < PAGE ==>
        bytes'[b] == if b == video then c.character else if b == video + 1 then c.attributes else bytes[b]
    ensures Cells(bytes') == if video / 2 < CELLS then Cells(bytes)[video / 2 := c] else Cells(bytes)
  {
  }
}
