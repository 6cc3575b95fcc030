# A verified model of the colorForth kernel

The project models the parts of a small x86 kernel, written around a colorForth interpreter, whose correctness rests on
bit packing, pointer surgery and interleaving, and proves what they promise.

- **Cells.** Source words are packed into 32-bit cells of 28 code bits and a 4-bit tag, with a 4/5/7-bit prefix code.
  `Huffman`, `Cells`, `Packing` and `Packer` prove the converter's packing loop on every text: it makes the greedy cut,
  the cells of a word spell the word again, and no other cells that do so are fewer; with spaces it says exactly which
  texts come back whole and which keep the loop going for ever. `EditorPack` proves the kernel's own packer and
  unpacker, and says when they agree with the converter's.
- **Meaning.** `Converter` turns source tokens into blocks of cells. `Dictionary`, `Forth` and `Machine` are the
  interpreter, as a specification and in place. `Translation` proves that running the converted blocks is evaluating
  the source, through any nesting of block loads, and which tokens that holds of; `Meaning` says what each word does to
  the stack, the printed numbers and the blocks, and `Aliases` is about the words that do something else. `Display` and `TokenRoundTrip` prove that the block display takes each cell for what it is, and that the
  arguments of its printing determine the tokens; `BlockScreen` proves what that leaves on the 80-column screen and
  exactly when it is what the tokens should look like, and `LookAlikes` which blocks look the same. `Numbers` and
  `Commands` are the number printers and the command line.
- **Queues and threads.** `TailQueue` proves the TAILQ macros on two-pointer links. `Scheduler` proves the round-robin
  scheduler on those links, with the self-loop it makes on every tick, and fairness over whole runs from boot.
- **Memory.** `Ranges` and `PhysicalMemory` prove the heap allocator: over every run the two lists stay well formed
  and disjoint, and cover the same bytes.
- **Screen and console.** `Screen` is the scrolling screen as a value, and proves that it shows the last 25 rows of the
  wrapped text; `Video` proves that the kernel changes video memory in place as `Screen` says. `Console` proves the ring buffer under every interleaving of the keyboard interrupt with the steps of a read.

`dafny verify dfyconfig.toml` checks the whole project.

## What the code does that its documentation does not say

- Executing a word longer than a cell runs the built-in that its first cell spells: "loadsr" runs `loads`
  (`Aliases.AliasExample`). `Translation.TokenExactly` says exactly which tokens do what they mean. Typing "loadsr" runs
  `loads` too, and no other word that the editor's packer is defined on behaves so (`Aliases.OnlyLoadsr`).
- A text with seven spaces at the start of a cell, and anything behind them, keeps the converter going for ever
  (`Packer.LeadingSpacesStall`); spaces at the end of a cell are lost (`Packing.SpacedRoundTrip`,
  `Packing.SpacedExample`).
- A variable's hexadecimal flag shares its bit with the 28th code bit of its name, so that of "rrrrrrr" is set
  (`TokenRoundTrip.VariableHexFlag`, `TokenRoundTrip.VariableHexExample`).
- A variable whose name takes two cells is shown with part of its name for its value
  (`TokenRoundTrip.RoundTripExactly`, `TokenRoundTrip.LongNameExample`).
- The 256th cell of a block is never run (`Translation.BlockExactly`, `Meaning.LastCellSkipped`).
- A tabulation can leave the cursor in column 80, from where a character is written in the next row and then written over
  (`Screen.TabOverflow`).
- The display steps back to join the cells of a long word. In column 0 the position, an unsigned byte, goes round, so
  that the next character is written three rows below, in column 15, and is lost where it should be
  (`BlockScreen.BlockShownExactly`, `LookAlikes.DigitLostExample`). There the cells that fill a block up leave a space
  (`BlockScreen.BlockShown`).
- Different tokens can look the same: a yellow 12 is a word or a number, a brown 10 is ten or sixteen
  (`LookAlikes.SameScreen`, `LookAlikes.AlikeExamples`).
- The list of all threads uses the same link field as the ready queue. It is complete until the first tick; after any
  tick it is the part of the ready queue from idle on, so that after the first one it is complete if and only if at most
  one thread has been created (`Scheduler.Kernel.Run`, `Scheduler.Kernel.RunFromBoot`).
- The idle thread is queued before the ready queue is initialised, which writes to address 0
  (`Scheduler.Kernel.Setup`).
- A thread alone in the ready queue is left pointing to itself by a tick; so is idle by the second one when no thread
  has been created (`Scheduler.Kernel.RunFromBoot`).
- An allocation that is granted the range at address 0 looks refused to the client (`Ranges.LedgerExactly`,
  `Ranges.LedgerExample`).
- A 64th unread character makes the console's ring look empty (`Console.OverflowExample`, `Console.LooksEmpty`); the
  next one delivered was added at least 64 places later (`Console.OverflowSkips`).
- The empty text is a number to the command line, and any text of digits that `atoi` can read pushes its low 27 bits
  (`Commands.DoCommand`); `atoi` overflows on the 48 largest numbers (`Commands.TypedNumber`).

## Model

| member | source | states |
|---|---|---|
| Packing.WordRoundTrip | tools/blocks_converter.py:134-179 | For a word of any length without spaces, what its cells spell, joined, is the word; the first cell has the function's tag and every later one tag 0. |
| Packing.GreedyOptimal | tools/blocks_converter.py:136-173 | Any list of cells that spells the word is at least as long as the converter's. |
| Packing.StaysAhead | tools/blocks_converter.py:136-173 | Cutting a suffix of joined parts, each the text of a cell, greedily needs no more chunks than there are parts. |
| Packing.ChunksFit | tools/blocks_converter.py:136-173 | The chunks join to the text; each is non-empty and fits a cell. |
| Packing.PackableOutcome | tools/blocks_converter.py:134-174 | A word without spaces is packed, without error or endless loop, into the cells of its chunks. |
| Packing.SpacedRoundTrip | tools/blocks_converter.py:134-179 | A text with spaces that packing gets through is read back without the spaces at the ends of its cells, and so whole if and only if no cell ends with one. |
| Packing.SpacedExample | tools/blocks_converter.py:134-179 | The text "aaaaaa a" loses its space, the last letter of its first cell. |
| Packing.SpaceDropped | tools/blocks_converter.py:138-173 | A space behind a word takes no cell: the cells are those of the word, whether its last cell has room or not. |
| Packing.UnknownRejected | tools/blocks_converter.py:103-107 | A character outside the alphabet behind a word without spaces is an error, whatever follows it. |
| Packer.PackText | tools/blocks_converter.py:134-174 | For every text, spaces included: the cells of its chunks, without a last one of spaces; an error for the first character outside the alphabet; or no end, exactly when seven spaces fill a cell that something follows. |
| Packer.LeadingSpacesStall | tools/blocks_converter.py:138-173 | Seven spaces in front of anything at all keep the loop going for ever. |
| Packer.PackLetter | tools/blocks_converter.py:139-168 | One turn of the loop pushes a letter or closes the cell, and what is packed follows the cut of the text. |
| Packer.Shrink | tools/blocks_converter.py:148-168 | Shrinking drops only zeros and stops when the code fits or ends in a 1, which then cannot be dropped. |
| Packer.PushLetter | tools/blocks_converter.py:143-157 | Pushing with or, and with exclusive or, appends the code's bits to the open cell. |
| Packer.FinishPack | tools/blocks_converter.py:176-179 | The open chunk becomes the next cell of the greedy cut; only the first has the function's tag. |
| Huffman.DecodeEncode | tools/blocks_converter.py:35-53 | Reading the code bits of a text that does not end with a space gives the text, whatever zeros follow. |
| Huffman.EncodeDecode | tools/blocks_converter.py:35-53 | Every bit string is, up to zeros at its end, the code of the word read off it. |
| Huffman.FirstLetterOfCode | tools/blocks_converter.py:103-107 | The code is a prefix code: the nibble tests of unpacking find the letter that packing wrote, and the bits behind it. |
| Huffman.IndexOfLetter | tools/blocks_converter.py:11 | The 48 characters are distinct, so a character's index in the alphabet undoes indexing. |
| Huffman.DecodeLength | kernel/colorforth/editor.c:249-273 | Each character read takes at least four bits. |
| Cells.Unpack | tools/blocks_converter.py:35-53 | The loop ends and gives the word the 28 text bits spell. |
| Cells.NextLetter | tools/blocks_converter.py:40-52 | The shifts, exclusive or and or of one turn give the next letter and the bits behind its code. |
| Cells.TextOfFitting | tools/blocks_converter.py:134-179 | A word whose code has no 1 past bit 28 is read back from its cell under any tag. |
| Packing.TextOfChunk | tools/blocks_converter.py:134-179 | A cell spells its chunk without the spaces at the end. |
| Cells.CellTextFits | tools/blocks_converter.py:35-53 | What any cell spells fits a cell and has at most 7 characters, and packing it with the cell's tag gives the cell. |
| Cells.FitsExactly | tools/blocks_converter.py:148-168 | A text that does not end with a space has no 1 past bit 28 in its code if and only if some cell spells it. |
| Cells.FitsParts | tools/blocks_converter.py:148-168 | Both parts of a word that fits a cell fit a cell. |
| EditorPack.Pack | kernel/colorforth/editor.c:211-233 | In 32-bit wrapping arithmetic, the word's code from the top bit down and zeros below. |
| EditorPack.Unpack | kernel/colorforth/editor.c:235-276 | At most 7 characters, those the cell spells, are left in the 16-character buffer, zeros behind them. |
| EditorPack.GetCodeIndex | kernel/colorforth/editor.c:202-209 | The index of every character but the first, which the search never looks at; 48 for the terminator; nothing for any other. |
| EditorPack.UnpackPack | kernel/colorforth/editor.c:211-276 | Up to 32 code bits, unpacking undoes packing exactly for the words that fit a cell. |
| EditorPack.PackUnpack | kernel/colorforth/editor.c:211-276 | Packing what a cell spells gives the cell with its tag cleared. |
| EditorPack.PackersAgree | kernel/colorforth/editor.c:211-233 | On words that fit, the converter makes one cell: the editor's packing plus the tag. |
| EditorPack.PackedTextBits | kernel/colorforth/editor.c:211-233 | The editor's packing has the text bits of the first 28 code bits, and tag 0 exactly when the word fits. |
| EditorPack.FittingWordIsOneChunk | tools/blocks_converter.py:134-174 | A word is cut into one chunk exactly when it fits a cell. |
| EditorPack.UnpackPackSpaced | tools/blocks_converter.py:35-69 | For any text over the alphabet of up to 32 code bits, unpacking undoes packing if and only if it fits a cell and does not end with a space. |
| EditorPack.PackWord | tools/blocks_converter.py:55-69 | For every text: the editor's packing, or an error exactly for those with a character outside the alphabet, with more than 32 code bits, that do not fit a cell, or that end with a space. |
| Converter.GetTags | tools/blocks_converter.py:95-101 | A function's tag is its position in the list, plus 16 for the hexadecimal variants. |
| Converter.FnTagIsPosition | tools/blocks_converter.py:15-20 | The sixteen functions in the order of the list, each at the position that is its tag. |
| Converter.WrongParam | tools/blocks_converter.py:109-131 | A number function, and a compiled word in a variable, takes a number and raises an error for a word; any other function raises one for a number. |
| Converter.CallExamples | tools/blocks_converter.py:109-131 | The cells of a hexadecimal short 5, of a short and of a long -1, and of the value 7 of a variable. |
| Converter.ShortCellParts | tools/blocks_converter.py:122-128 | A short number cell gives back its tag, its hexadecimal flag and, shifted, the low 27 bits of any number, sign included. |
| Converter.StoredExactly | tools/blocks_converter.py:114-132 | A number is stored as it is if and only if it fits 27 bits, or 32 for a long number or a variable. |
| Converter.ParseTextToCFBlock.constructor | tools/blocks_converter.py:72-76 | The parser starts with nothing put out and outside a variable. |
| Converter.ParseTextToCFBlock.WordToLongArray | tools/blocks_converter.py:109-174 | The cells of a call in all four branches, an error, or no end; a compiled word ends a variable. |
| Converter.ParseTextToCFBlock.FunctionAction | tools/blocks_converter.py:88-93 | A call appends its cells to the block, and a variable changes how the next compiled word is read. |
| Converter.ParseTextToCFBlock.TokenAction | tools/blocks_converter.py:88-93 | The calls of a token append exactly its cells, and leave the parser outside a variable. |
| Converter.ParseTextToCFBlock.BlockOfTokens | tools/blocks_converter.py:182-183 | The calls of a block leave the cells of its tokens, in order. |
| Converter.ParseTextToCFBlock.BlockAction | tools/blocks_converter.py:78-86 | The block is put out behind the others, filled with zeros up to 256 cells, and a new one is started. |
| Converter.ParseTextToCFBlock.ParseInput | tools/blocks_converter.py:181-185 | A whole source gives its image: the filled blocks, one after the other. |
| Translation.TranslationPreservesMeaning | kernel/colorforth/compiler.c:151-262 | Running any block of the converted image, from any state, gives the outcome of evaluating the source block: stack, dictionary, printed numbers and failures, through every nesting of loads. |
| Translation.TokenExactly | kernel/colorforth/compiler.c:144-262 | The cells of a token do what the token means, in every state, if and only if an executed word is no alias, an executed short number fits 27 bits, and a value cell has neither the tag of a number nor that of a word together with a built-in's text. |
| Translation.InertExactly | kernel/colorforth/compiler.c:56-61 | Dispatching a cell changes nothing, in every state, if and only if it has neither. |
| Translation.ExecuteExactly | kernel/colorforth/compiler.c:223-232 | Executing a word by its cells is executing it by its spelling, from every state, if and only if it does not start with a built-in's spelling behind which the next letter does not fit the cell. |
| Aliases.AliasExample | kernel/colorforth/compiler.c:163-174 | "loadsr" is such a word; its first chunk is "loads". |
| Aliases.AliasChunk | tools/blocks_converter.py:134-174 | Those words are the ones whose first chunk is a built-in and not the whole word. |
| Aliases.FirstChunkNamed | kernel/colorforth/compiler.c:181-205 | The first chunk names what the word names if and only if the word is not an alias. |
| Translation.TokenOutcome | kernel/colorforth/compiler.c:144-149 | Dispatching the cells of a token does what the token means. |
| Translation.TokensOutcome | kernel/colorforth/compiler.c:157-160 | Dispatching the cells of a list of tokens is evaluating the list. |
| Translation.BlockMeaning | kernel/colorforth/compiler.c:151-161 | The 255 cells that are run of a block, padding included, are its tokens evaluated. |
| Translation.BlockExactly | kernel/colorforth/compiler.c:157-160 | Running a filled block of runnable tokens from a state is evaluating the tokens if and only if a 256th cell would do nothing in the state that the 255 before it lead to. |
| Translation.NothingExactly | kernel/colorforth/compiler.c:144-149 | A cell that loads nothing does nothing in a state if and only if it is inert in every state, or repeats the last routine, the comma or the selection of the dictionary that is selected already. |
| Translation.LastNumberMissed | kernel/colorforth/compiler.c:157-160 | A number to execute in the 256th cell is missed from every state that the other cells run through from. |
| Translation.LastNumberExample | kernel/colorforth/compiler.c:157-160 | 255 commented numbers and a 5 to execute: the tokens leave a 5 on the stack, the block leaves nothing. |
| Translation.ImageBlock | tools/blocks_converter.py:78-86 | Cells 256n to 256n + 255 of the image are block n, filled up. |
| Translation.FuelMonotone | kernel/colorforth/compiler.c:70-89 | A run that ends within some depth of loads ends the same way with any greater depth allowed. |
| Dictionary.LookupWord | kernel/colorforth/compiler.c:181-205 | An entry is found exactly when the name, its tag ignored, spells a built-in and the Forth dictionary is asked; it is that built-in's. |
| Dictionary.Search | kernel/colorforth/compiler.c:188-192 | The first entry with the name, if it stands before the end marker; else the end marker. |
| Dictionary.NameMatches | kernel/colorforth/compiler.c:163-174 | A name equals a built-in's hexadecimal name if and only if it unpacks to the built-in's spelling. |
| Dictionary.SpelledCell | kernel/colorforth/compiler.c:163-174 | The eight hexadecimal names are the packed spellings. |
| Meaning.NumberFirst | kernel/colorforth/compiler.c:258-262 | A short number goes on top of the stack and what follows finds it there; a 43rd is undefined. |
| Meaning.AddLeaves | kernel/colorforth/compiler.c:101-106 | `m n +` leaves m + n on any stack with room, and is undefined when that overflows. |
| Meaning.DivideLeaves | kernel/colorforth/compiler.c:108-113 | `m n /` leaves the q with m = q n + r where r is smaller than n in size, and zero or of the sign of m. |
| Meaning.DivideUndefined | kernel/colorforth/compiler.c:108-113 | Division by 0, and of the minimum by -1, is undefined. |
| Meaning.DotPrints | kernel/colorforth/compiler.c:136-139 | `.` prints the top behind what was printed before, and takes it off the stack. |
| Meaning.LoadRuns | kernel/colorforth/compiler.c:70-74 | `n load` runs block n, on the stack without n. |
| Meaning.LoadsRuns | kernel/colorforth/compiler.c:76-89 | `i j loads` runs the blocks i, i + 2 and so on up to j, in order, until one fails; it is undefined where the stack has no room for a block's number or counting on overflows. |
| Meaning.Underflow | kernel/colorforth/compiler.c:70-139 | A word that takes more numbers than there are is undefined. |
| Meaning.DictionaryWords | kernel/colorforth/compiler.c:66-99 | The words that select a dictionary do, and the comma does nothing. |
| Meaning.NothingHappens | kernel/colorforth/compiler.c:214-262 | No other word to execute and no other token changes anything. |
| Meaning.LoadEvaluates | kernel/colorforth/compiler.c:151-161 | In a source program `n load` evaluates block n of the source, and is undefined when there is none. |
| Meaning.SumRuns | kernel/colorforth/compiler.c:151-262 | Running block 0 of a converted program whose block 0 loads block 2, which adds 3 and 4 and prints the sum, prints 7 and leaves an empty stack. |
| Meaning.LastCellSkipped | kernel/colorforth/compiler.c:151-161 | Running a block with a number in its 256th cell leaves the stack empty. |
| Machine.Interpreter.constructor | kernel/colorforth/compiler.c:24-26 | An empty stack of 42 cells. |
| Machine.Interpreter.StackPush | kernel/colorforth/compiler.c:17 | Pushes, or fails on a full stack. |
| Machine.Interpreter.StackPop | kernel/colorforth/compiler.c:18 | Pops, or fails on an empty stack. |
| Machine.Interpreter.Load | kernel/colorforth/compiler.c:70-74 | Pops a number n and runs block n on the rest of the stack, with the outcome the specification gives; fails on an empty stack. |
| Machine.Interpreter.Loads | kernel/colorforth/compiler.c:76-89 | Pops the limit and then the first block, and runs the loop. |
| Machine.Interpreter.LoadsLoop | kernel/colorforth/compiler.c:84-88 | Every second block of the interval is pushed and loaded, until one fails. |
| Machine.Interpreter.Add | kernel/colorforth/compiler.c:101-106 | The sum replaces the two topmost numbers and the rest stays; undefined when it overflows or there are fewer. |
| Machine.Interpreter.Divide | kernel/colorforth/compiler.c:108-113 | The quotient, truncated towards zero, of the second number by the top; undefined for 0 and for the minimum by -1. |
| Machine.Interpreter.Dot | kernel/colorforth/compiler.c:136-139 | The top is popped and printed last; undefined when there is none. |
| Machine.Interpreter.Execute | kernel/colorforth/compiler.c:207-212 | Remembers the routine and runs it. |
| Machine.Interpreter.DispatchWord | kernel/colorforth/compiler.c:144-149 | The action of the cell's tag: a found word is run, a short number pushed, everything else ignored. |
| Machine.Interpreter.RunCells | kernel/colorforth/compiler.c:157-160 | The cells are dispatched in order until one fails. |
| Machine.Interpreter.RunBlock | kernel/colorforth/compiler.c:151-161 | All cells of the block but the last are dispatched. |
| Display.Editor.DisplayWord | kernel/colorforth/editor.c:350-465 | One dispatch changes the screen in place by the colour, the step back and the characters for the cell's tag, with the next cell's value, and steps over that cell, for the three tags that have one. |
| Display.Editor.DisplayBlock | kernel/colorforth/editor.c:538-552 | The loop makes the dispatches of the block, each with the cell it starts on, and leaves on the cleared screen what they draw. |
| Display.UnpackedText | kernel/colorforth/editor.c:361 | Printing the buffer up to its terminator prints what the cell spells. |
| Display.FeedbackAndMacro | kernel/colorforth/editor.c:449-464 | A cell of compiler feedback leaves the screen as it is, and one of a macro is a newline. |
| Display.DisplayTokens | kernel/colorforth/editor.c:350-465 | The dispatches over the cells of a list of tokens are those of the tokens, one after the other. |
| TokenRoundTrip.DisplayRoundTrip | kernel/colorforth/editor.c:351-465 | The arguments of the dispatches of a converted block determine all its tokens: function, hexadecimal flag, text, joined from its cells, and number as stored. This is about the arguments, not about the screen. |
| TokenRoundTrip.RoundTripExactly | kernel/colorforth/editor.c:437-447 | Among tokens that show themselves, that is so if and only if the name of every variable fits a cell. |
| TokenRoundTrip.LongNameExample | kernel/colorforth/editor.c:437-447 | A variable named "12345", which takes two cells, is not recovered. |
| TokenRoundTrip.DisplayAlignment | kernel/colorforth/editor.c:549-552 | The dispatches of a block are those of its tokens, each starting on its first cell and going on over its extension cells, then one for each padding cell. |
| TokenRoundTrip.ValueCellsSkipped | kernel/colorforth/editor.c:369-447 | No dispatch starts on the value cell of a long number or a variable. |
| TokenRoundTrip.RecoverView | kernel/colorforth/editor.c:351-465 | The arguments of the dispatches of a list of tokens are read back as the list. |
| TokenRoundTrip.VariableHexFlag | kernel/colorforth/editor.c:437-447 | A variable's value is shown in hexadecimal exactly when the 28th code bit of its name is 1. |
| TokenRoundTrip.VariableHexExample | kernel/colorforth/editor.c:437-447 | "rrrrrrr" is a name of one cell for which it is. |
| BlockScreen.BlockShown | kernel/colorforth/editor.c:350-552 | When none of the cells that continue a word comes in column 0, the page that displaying a block leaves shows the last 25 rows of its tokens' looks, with the cursor behind them: words and numbers in their colours, each with a space and long words without a gap, and line ends. Every cell of the page is as stated: a cell that fills the block up while the cursor is in column 0 leaves one space three rows below, and no other does anything. |
| BlockScreen.BlockShownExactly | kernel/colorforth/editor.c:350-552 | For every block: the screen shows each character of the looks that has not scrolled off if and only if each cell that continues a word comes in another column than 0, or behind a row that has scrolled off. |
| BlockScreen.BlockDrawn | kernel/colorforth/editor.c:350-552 | For every block: the page shows the last 25 rows of the looks with a space for each first character that is lost, and nothing else but characters astray in blank cells of column 15. |
| BlockScreen.TokensLost | kernel/colorforth/editor.c:358-362 | A cell that continues a word in column 0 loses a character: it belongs in column 79 of the row before, and a space is there. |
| BlockScreen.CleanRight | kernel/colorforth/editor.c:358-362 | If none comes in column 0 behind a row that stays on the screen, what is drawn is right in all rows that stay. |
| BlockScreen.StrayBlank | kernel/arch/x86-pc/io/vga.c:90-94 | The space that goes astray is in a cell below the text. |
| LookAlikes.SameScreen | kernel/colorforth/editor.c:350-552 | Two such blocks that do not scroll leave the same page if and only if they have as many tokens, these look alike one by one, and a stray space is on both pages or on neither. |
| LookAlikes.AlikeShown | kernel/colorforth/editor.c:350-552 | Whether they scroll or not, such blocks that are alike leave the same page. |
| LookAlikes.AlikeDiffer | kernel/colorforth/editor.c:358-362 | Of two blocks that are alike, one with such a continuation and one without look different. |
| LookAlikes.DigitLostExample | kernel/colorforth/editor.c:358-362 | Behind 75 columns of text, the word 12345, which is cut into "1234" and "5", and the number 12345 are alike, and their blocks look different. |
| LookAlikes.WordColours | kernel/colorforth/editor.c:364-451 | Each word function in the colour of its number: yellow 14 to execute, red 4 to define, bright green 10 to compile, bright cyan 11 for macros, bright white 15 for comments; a macro line is a newline. |
| LookAlikes.NumberColours | kernel/colorforth/editor.c:369-459 | The same for numbers, in either base, and for the name and the value of a variable. |
| LookAlikes.SmallPage | kernel/colorforth/editor.c:350-552 | The comment "a" and the number -5 leave "a -5 " in white and yellow in the first cells, blanks behind it and the cursor in column 5. |
| LookAlikes.PaintedInjective | kernel/colorforth/editor.c:350-465 | The coloured text determines the words and numbers with their colours, and the line ends. |
| LookAlikes.WordsAlike | kernel/colorforth/editor.c:356-451 | Two words look alike if and only if they are the same in the same function, or in two of the three for comments, or are both macros. |
| LookAlikes.NumberInks | kernel/colorforth/editor.c:369-459 | Which number functions share a colour in which bases: a long number has one in either base, that of a short hexadecimal one. |
| LookAlikes.NumbersAlike | kernel/colorforth/editor.c:369-459 | Two numbers in the same base look alike if and only if they are stored alike and share a colour. |
| LookAlikes.AlikeExamples | kernel/colorforth/editor.c:364-428 | A word and a number, and two long numbers in different bases, that look alike. |
| Numbers.PrintDec | kernel/colorforth/editor.c:305-338 | For any 32-bit integer but the minimum, a text that starts with a minus sign exactly when it is negative, and whose digits, without leading zeros, have its absolute value. |
| Numbers.PrintHex | kernel/colorforth/editor.c:278-303 | For any 32-bit word, hexadecimal digits without leading zeros that have its value. |
| Numbers.PrintNumber | kernel/colorforth/editor.c:340-348 | The text of the number in the upper 27 bits of a cell, in either base, and a space. |
| Numbers.NumberTextReads | kernel/colorforth/editor.c:278-338 | A shown number reads as the number in decimal, sign included, and as the word that holds it in hexadecimal. |
| Numbers.NumberTextExamples | kernel/colorforth/editor.c:278-338 | -5, 0, 120, and 255 and -1 in hexadecimal. |
| Numbers.NumberTextInjective | kernel/colorforth/editor.c:278-348 | Two 32-bit numbers shown alike in the same base are the same. |
| Numbers.Itoa | kernel/lib/libc.c:68-107 | Least significant digit first and then reversed in place, a terminated text that starts with a minus sign exactly for a negative value, and whose digits have its absolute value; the same text as the printers'. |
| Numbers.PutDigits | kernel/lib/libc.c:89-95 | The loop leaves the digits in reverse. |
| Numbers.Reverse | kernel/lib/libc.c:54-66 | The first characters are reversed in place and the rest are unchanged. |
| Numbers.ValueOfDigits | kernel/lib/libc.c:89-95 | The digits of a number stand for it, all below the base, with no leading zero unless the number is 0. |
| Numbers.DigitsOfValue | kernel/lib/libc.c:89-95 | A text of digits without a leading zero is what its value is written as, so there is no other such text. |
| Numbers.IsNumber | kernel/lib/libc.c:14-38 | True exactly of the texts of decimal digits, the empty one included. |
| Numbers.Atoi | kernel/lib/libc.c:40-50 | The decimal value of any text, unless a product, sum or difference on the way overflows. |
| Numbers.DigitsWithin | kernel/lib/libc.c:40-50 | On digits none does if and only if the value plus 48 is an `int`. |
| Numbers.NumberOfDigits | kernel/lib/libc.c:40-50 | Reading the decimal text of a non-negative number gives the number. |
| Commands.DoCommand | kernel/colorforth/editor.c:39-71 | A typed number pushes its low 27 bits, sign included, or is undefined where `atoi` overflows; a typed word runs the built-in that its packing spells, or is not found and changes nothing. |
| Commands.TypedNumber | kernel/colorforth/editor.c:46-49 | Typing the decimal text of n pushes n if and only if n is below 2^26, and overflows if and only if n + 48 does. |
| Aliases.TypedWord | kernel/colorforth/editor.c:50-66 | A typed word runs the built-in it spells, or is not found, if and only if it does not start with a built-in's spelling behind which the next letter's code fills the cell with zeros. |
| Aliases.OnlyLoadsr | kernel/colorforth/editor.c:50-66 | The only word that does is "loadsr". |
| Aliases.ReachedBy | kernel/colorforth/compiler.c:163-205 | The words that reach a routine when typed: its spelling and, for `loads`, also "loadsr". |
| Aliases.RoutinesDiffer | kernel/colorforth/compiler.c:163-205 | Two typed words that reach the same routine are the same word, or "loads" and "loadsr". |
| Aliases.TypedAliasExample | kernel/colorforth/editor.c:50-66 | Typing "loadsr", which is no built-in, finds `loads`. |
| TailQueue.Init | kernel/lib/queue.h:387-390 | The empty queue. |
| TailQueue.InsertHead | kernel/lib/queue.h:392-400 | The entry comes first; forward and back pointers stay exact. |
| TailQueue.InsertTail | kernel/lib/queue.h:402-407 | The four writes on any links; on a queue without the entry they append it, even when only the forward links are intact; the last entry, inserted once more, points to itself. |
| TailQueue.InsertAfter | kernel/lib/queue.h:409-417 | The entry comes behind the given one. |
| TailQueue.InsertBefore | kernel/lib/queue.h:419-424 | The entry comes before the given one, found through the back pointer alone. |
| TailQueue.Remove | kernel/lib/queue.h:426-433 | The writes on any links; on a queue, the entry is taken out wherever it is. |
| TailQueue.Concat | kernel/lib/queue.h:445-452 | The second queue's entries follow the first's, and the second is empty. |
| TailQueue.Last | kernel/lib/queue.h:461-462 | Reading the link behind the last back pointer as a head gives the last entry, or NULL. |
| TailQueue.Prev | kernel/lib/queue.h:463-464 | The same from an entry gives the one before it, or NULL at the first. |
| TailQueue.Foreach | kernel/lib/queue.h:435-438 | The traversal ends and visits the entries in order. |
| TailQueue.ForeachReverse | kernel/lib/queue.h:440-443 | The traversal through back pointers ends and visits exactly the reverse. |
| Scheduler.Kernel.constructor | kernel/arch/x86-pc/startup.c:72-76 | After the two setups the idle thread runs, alone in the list of all threads, with an empty ready queue. |
| Scheduler.Kernel.Setup | kernel/threading/thread.c:34-44 | The same, through the insertion of idle into the ready queue whose last pointer is still zero, which writes idle to the word at address 0. |
| Scheduler.Kernel.CreateThread | kernel/threading/thread.c:46-91 | Before the first tick a new thread goes to the end of both lists, though both use the same links. |
| Scheduler.Kernel.AddInReadyQueue | kernel/threading/scheduler.c:22-37 | The thread is ready and inserted at the asked end, also when it is the tail already; the state it is called in meets its assert. |
| Scheduler.Kernel.SetReady | kernel/threading/scheduler.c:39-49 | A ready thread is left alone; any other is appended. |
| Scheduler.Kernel.GetCurrent | kernel/threading/thread.c:28-32 | The current thread, whose state meets the assert. |
| Scheduler.Kernel.SetCurrent | kernel/threading/thread.c:20-26 | A ready thread becomes the current, running one. |
| Scheduler.Kernel.Requeue | kernel/threading/scheduler.c:58-65 | Queueing the running thread, then moving the first to the end, rotates the forward links, both when idle comes from outside the queue and when the tail is inserted again; a thread alone in the queue already ends up pointing to itself. |
| Scheduler.Kernel.Schedule | kernel/threading/scheduler.c:51-77 | With two or more threads, a tick turns the queue t1..tn with tn running into t2..tn,t1 with t1 running and the rest ready, on the pointers as they are; the first tick, with idle outside the queue, does the same to the created threads and idle, and leaves the list of all threads with idle and the running thread. |
| Scheduler.Kernel.MoveFirst | kernel/threading/scheduler.c:63-65 | Removing the first thread and inserting it at the end, on a queue that ends or whose last thread points to itself. |
| Scheduler.Kernel.Enqueue | kernel/threading/scheduler.c:58-59 | Queueing the running thread appends it at boot, and makes it point to itself on any other tick. |
| Scheduler.Kernel.Run | kernel/threading/scheduler.c:51-77 | Any number of ticks runs the threads round and round and keeps the invariant, or that of a thread alone; the list of all threads is then the part of the ready queue from its first thread on. |
| Scheduler.Kernel.ListedAfter | kernel/threading/thread.c:76-77 | From boot on, that is idle and the first created threads, as many as the number of ticks modulo that of threads; after the first tick the list is complete if and only if at most one thread has been created. |
| Scheduler.Kernel.RunFromBoot | kernel/threading/scheduler.c:51-77 | From boot, with any number of created threads, they run in creation order, then idle, and so on round; any window as long as there are threads holds each exactly once; between ticks exactly the last thread of the queue is running. |
| Scheduler.Fairness | kernel/threading/scheduler.c:63-67 | In such a run, any window as long as the queue holds every thread exactly once. |
| PhysicalMemory.Heap.Serve | kernel/memory/physical-memory.c:112-172 | Over any run of requests from a disjoint pool, both lists stay well formed and disjoint and follow the laws of the pool, and each new range takes one descriptor. |
| PhysicalMemory.Heap.HeapAlloc | kernel/memory/physical-memory.c:112-154 | On the pointers: the first free range of exactly the size is moved to the end of the used list, else the high end of the first larger range, up to its last byte, becomes the last used range and the low end stays free in place, else NULL and no change. |
| PhysicalMemory.Heap.HeapFree | kernel/memory/physical-memory.c:157-172 | The loop ends though it goes on behind a moved entry; the first used range with the base, if any, moves to the free tail and the others keep their order. |
| PhysicalMemory.Heap.FirstRound | kernel/memory/physical-memory.c:119-129 | The first free range of exactly the size. |
| PhysicalMemory.Heap.SecondRound | kernel/memory/physical-memory.c:131-134 | The first free range of at least the size. |
| PhysicalMemory.Heap.TakeWhole | kernel/memory/physical-memory.c:124-127 | The range leaves the free list and ends the used list. |
| PhysicalMemory.Heap.Split | kernel/memory/physical-memory.c:136-149 | The range keeps its low part in place; a new descriptor with the high end is used. |
| PhysicalMemory.Heap.GiveBack | kernel/memory/physical-memory.c:168-169 | The range leaves the used list and ends the free list; its next pointer is NULL. |
| PhysicalMemory.Heap.AddFree | kernel/memory/physical-memory.c:71 | One more described range at the free tail, so that every pool can be set up. |
| PhysicalMemory.Heap.constructor | kernel/memory/physical-memory.c:34-35 | Two empty lists. |
| Ranges.RunConserves | kernel/memory/physical-memory.c:112-172 | Over every run the ranges stay non-empty, unwrapped and disjoint, and together cover exactly the addresses they covered at first. |
| Ranges.LedgerExactly | kernel/memory/physical-memory.c:112-172 | Over every run the used list is what a client holds, each grant with the requested size less what was given back, if and only if no free range of the pool starts at address 0. |
| Ranges.LedgerExample | kernel/memory/physical-memory.c:112-129 | One byte at address 0 is granted and the client holds nothing. |
| Ranges.SplitsBounded | kernel/memory/physical-memory.c:131-150 | Over every run the number of ranges never exceeds the bytes of the pool, which bounds the splits and so the descriptors. |
| Ranges.SoundIsDisjoint | kernel/memory/physical-memory.c:112-172 | A pool in which no address is covered twice is one of pairwise disjoint ranges, and conversely; so live allocations never overlap. |
| Ranges.AllocNull | kernel/memory/physical-memory.c:112-154 | NULL comes back for a positive size if and only if no free range is large enough, or the exact fit starts at address 0; otherwise the used list gains a range of the requested size. |
| Ranges.AllocTakes | kernel/memory/physical-memory.c:118-129 | The first free range of exactly the size is granted by its base, and the others keep their order. |
| Ranges.AllocSplits | kernel/memory/physical-memory.c:131-150 | Without one, the address granted is the size short of the end of the first larger free range; the free list is the old one with that range shortened and its base kept. |
| Ranges.AllocRefused | kernel/memory/physical-memory.c:112-154 | For size 0, or when every free range is too small, NULL and no change. |
| Ranges.AllocGrants | kernel/memory/physical-memory.c:112-154 | One of these three is what happens. |
| Ranges.AllocSound | kernel/memory/physical-memory.c:131-150 | Allocating keeps the ranges non-empty and disjoint; a split leaves no empty range. |
| Ranges.AllocConserves | kernel/memory/physical-memory.c:112-154 | Allocating covers every address as often as before. |
| Ranges.FreeSound | kernel/memory/physical-memory.c:157-172 | Freeing keeps the ranges non-empty and disjoint. |
| Ranges.FreeConserves | kernel/memory/physical-memory.c:157-172 | Freeing covers every address as often as before. |
| Ranges.FreeTakes | kernel/memory/physical-memory.c:157-172 | The first used range with the address goes to the end of the free list, and the other used ones keep their order. |
| Ranges.FreeNothing | kernel/memory/physical-memory.c:157-172 | Freeing NULL, or an address no used range starts at, changes nothing. |
| Ranges.FreeExactly | kernel/memory/physical-memory.c:164-171 | In a disjoint pool, the range freed is the only used one with the base, wherever it is in the list. |
| Screen.TextShown | kernel/arch/x86-pc/io/vga.c:101-164 | After any printable characters and newlines, typed behind a text that is shown, every cell shows the last 25 rows of the longer text wrapped at column 80, and the cursor is at its end, inside the screen. |
| Screen.TypedAgrees | kernel/arch/x86-pc/io/vga.c:101-164 | One more character keeps that so, wrapping and scrolling included. |
| Screen.ReplacedAgrees | kernel/arch/x86-pc/io/vga.c:90-94 | Away from column 0, stepping back and typing replaces the last character of the text. |
| Screen.StrayTyped | kernel/arch/x86-pc/io/vga.c:90-157 | In column 0 it writes the character three rows below, in column 15, on the page or behind it, and leaves the cursor where it was. |
| Screen.BackspaceUndoes | kernel/arch/x86-pc/io/vga.c:117-138 | A backspace behind a character that has not scrolled the page undoes it, at the end of a row too, but for a space in its place. |
| Screen.BackspaceAtStart | kernel/arch/x86-pc/io/vga.c:117-138 | At the top left the cursor stays and a space is written. |
| Screen.TabMoves | kernel/arch/x86-pc/io/vga.c:140-145 | A tabulation moves the cursor by four columns if that is not past column 80, and changes nothing else. |
| Screen.TabOverflow | kernel/arch/x86-pc/io/vga.c:140-157 | From column 76 it leads to column 80, off the row: the next character is written at the start of the next row, and the cursor left on it. |
| Screen.TypedExamples | kernel/arch/x86-pc/io/vga.c:101-164 | The first character, a newline, and a character behind it on a cleared screen. |
| Screen.ShownText | kernel/arch/x86-pc/io/vga.c:101-164 | A text that does not scroll can be read off its rows on the screen. |
| Screen.UnwrapWrap | kernel/arch/x86-pc/io/vga.c:109-157 | Wrapping loses nothing: a row that is not full ended with a newline. |
| Screen.WrapPlace | kernel/arch/x86-pc/io/vga.c:147-157 | A character of the text is in the row and column in which the cursor was before it. |
| Video.Vga.Display | kernel/arch/x86-pc/io/vga.c:101-164 | Byte by byte in video memory, any characters change the page as typing them one after the other does. |
| Video.Vga.DisplayCharacter | kernel/arch/x86-pc/io/vga.c:101-164 | The cell, the cursor and the scrolling of any one character, newline, backspace and tabulation included. |
| Video.Vga.DisplayOther | kernel/arch/x86-pc/io/vga.c:147-160 | A character is written at the cursor, also where that is behind the page, and the cursor moves, wraps and scrolls. |
| Video.Vga.DisplayBackspace | kernel/arch/x86-pc/io/vga.c:117-138 | The cursor goes back a cell, also into the row above, and leaves a space there. |
| Video.Vga.UpdatePosition | kernel/arch/x86-pc/io/vga.c:90-94 | Both coordinates change modulo 256, so that a step back from column 0 leads to column 255. |
| Video.Vga.Follow | kernel/arch/x86-pc/io/vga.c:159-160 | A cursor below the screen is brought back by scrolling. |
| Video.Vga.ScrollUp | kernel/arch/x86-pc/io/vga.c:63-82 | Byte by byte, every row takes the contents of a lower one, and the freed rows are zero. |
| Video.Vga.Put | kernel/arch/x86-pc/io/vga.c:148-149 | Two bytes are one cell of the page, or none when they are behind it. |
| Video.Vga.Clear | kernel/arch/x86-pc/io/vga.c:35-50 | Every cell is blank, white on black, and the cursor at the top left; the last write is two bytes past the page. |
| Screen.WrapSnoc | kernel/arch/x86-pc/io/vga.c:147-157 | Adding a character to a text extends its last wrapped row, and starts a new one at a newline or column 80. |
| Screen.Wrap | kernel/arch/x86-pc/io/vga.c:109-157 | A text always has a last row with room for a character, and no row is longer than 80. |
| Screen.ExtendCursor | kernel/arch/x86-pc/io/vga.c:109-160 | Where the cursor is after one more character, always inside the screen once scrolled. |
| Screen.ExtendShown | kernel/arch/x86-pc/io/vga.c:147-160 | What the 25 rows show of the longer text, in terms of the shorter one's screen, with and without scrolling. |
| Console.Delivery | kernel/io/console.c:52-133 | Under every schedule of interrupts, calls and reader steps that leaves room, the characters delivered are a prefix of those added; each call stops where it is full and not before; the echo follows. What that is in each mode is in `NoEcho`, `AllEchoed`, `WholeLength` and `LineByLine`. |
| Console.NoEcho | kernel/io/console.c:40 | In modes 0 and 1, the canonical one of the setup included, nothing is echoed under any schedule. |
| Console.AllEchoed | kernel/io/console.c:91-92 | In modes 2 and 3, with room, what is echoed is what is delivered, short of the character in hand. |
| Console.WholeLength | kernel/io/console.c:94-96 | In modes 0 and 2 a call returns with as many characters as it asked for, newlines or not, and not before. |
| Console.LineByLine | kernel/io/console.c:94-96 | In modes 1 and 3 a call returns with as many characters or with a newline, and has gone past neither. |
| Console.LineReturns | kernel/io/console.c:61-97 | In modes 1 and 3 a call returns at the latest with a newline that has been added. |
| Console.LengthReturns | kernel/io/console.c:61-97 | In every mode it returns at the latest when as many characters as it asked for have been added. |
| Console.LineExample | kernel/io/console.c:52-98 | Asked for two characters with a newline and an x there, the call returns the newline in modes 1 and 3 and both in modes 0 and 2; 2 and 3 echo. |
| Console.OverflowSkips | kernel/io/console.c:65-77 | Once there is no room, no continuation delivers the first unread character in its turn: what comes next was added at least 64 places later. |
| Console.OverflowExample | kernel/io/console.c:125-133 | Any 64 characters added with nobody reading leave no room, and a call then waits although all are unread. |
| Console.LooksEmpty | kernel/io/console.c:65-71 | The reader finds the ring empty if and only if the number of unread characters is a multiple of 64. |
| Console.CallReturns | kernel/io/console.c:61-97 | A call returns once what completes it has been added. |
| Console.TakesOne | kernel/io/console.c:61-97 | With a character unread, eight steps of the reader deliver it and end at its check or outside the call. |
| Console.RingRun | kernel/io/console.c:52-133 | Under every schedule, overflow included, both indices count modulo 64, also around the moment the read index is 64, and each place holds the last character added to it. |
| Console.CopyDelivers | kernel/io/console.c:75-79 | Whatever the schedule, the character delivered is the latest one added to the reader's place. |
| Console.InOrderNext | kernel/io/console.c:52-133 | Every event from a state with room keeps the order, the reader's variables and the stopping rule. |
| Console.Terminal.constructor | kernel/io/console.c:36-40 | An empty ring in canonical mode. |
| Console.Terminal.AddCharacter | kernel/io/console.c:125-133 | The character is stored and the write index advanced and wrapped. |
| Console.Terminal.Read | kernel/io/console.c:52-59 | A call starts, and returns at once when nothing is asked for. |
| Console.Terminal.Proceed | kernel/io/console.c:61-97 | One step of the reader, any interrupt falling between two: modes 2 and 3 echo the character and 0 and 1 do not; modes 1 and 3 return at a newline and 0 and 2 only at the length. |
| Console.Terminal.Follow | kernel/io/console.c:52-133 | A whole schedule on the fields in place is the run of the state machine. |
| Console.Terminal.SetMode | kernel/io/console.c:120-123 | Only the mode changes. |

## Left out

- The source grammar, file reading, and `int` on the parameter text: a parameter arrives as a text or as a number.
- Spaces in the texts of tokens: `Packing` and `Packer` are about all texts, `Translation` and `Display` about the words without spaces.
- EditorPack.Pack: is not stated for characters outside the alphabet, whose index is garbage, nor for words of more than 32 code bits, for which the shift is undefined in C.
- The counter `bits` of both unpackers, which is never read.
- `load` and `loads` have no bound in the source: `Forth` gives a run a depth, and `Translation.FuelMonotone` says the depth does not matter to a run that ends.
- Translation.TranslationPreservesMeaning: tokens that do not do what they mean are not in it, nor blocks whose 256th cell, which is never run, would do something.
- TokenRoundTrip.DisplayRoundTrip: extension, feedback and macro tokens are not in it, because they show nothing of themselves.
- Display.Editor.DisplayBlock: memory goes on by a cell behind the block, because a value cell may be asked for there; and no decimal value is the most negative integer, whose negation overflows.
- BlockScreen.BlockShown: is about tokens other than extensions and feedback, with macros and names of variables of one cell; what is shown of the rest is not what they are.
- LookAlikes.SameScreen: is about blocks that do not scroll, because what has scrolled off does not show; `LookAlikes.AlikeShown` is about all.
- The prompt and the stack line in the display.
- The compile and define actions, the macro dictionary's contents and the return stack, which are stubs in the source.
- The most negative integer in `print_dec` and `itoa`, whose negation overflows, and negative numbers in `itoa` in other bases than ten.
- Signed overflow is undefined throughout; only the left shift of a typed number is taken on its two's complement bits, as GCC defines it.
- Creating, waking or blocking threads after the first tick, and ticks before the last creation: re-inserting a running thread that is not the tail loses others.
- Scheduler.Kernel.Schedule: the context switch is the change of the current thread; registers and stacks are not modelled.
- The addresses of descriptors, which are new objects here, and `physical_memory_setup`, which reads an unset base and puts overlapping ranges in the list: a disjoint pool is the starting point instead.
- Cursor keys on the screen, and the hardware cursor.
- Console.Delivery: the mode stays the same during a run, and there is one reader.
- `console_write`, which overwrites its own bound.
- The macros for other kinds of lists, which the kernel does not use.
- Port I/O, interrupt controllers, descriptor tables, the keyboard map and assembly.
