# Text-mode display writer

This project models the display writer of a small kernel, `src/framebuffer.rs`.
The writer puts text on the 80 x 25 text-mode screen. Each cell of the screen
holds a character byte and a colour attribute byte. The writer keeps a cursor
(row and column) and an active colour. It offers two entry points:

- a byte path (`write_byte`): newline, tab as four spaces, automatic wrap at
  column 80, and writing one cell;
- a string path (`write_str`): an interpreter for the escapes `\n`, `\t` and
  `\c<name>`, where `<name>` is looked up in a 16-entry colour table
  (`color_from_name`).

A line advance on the last row scrolls the screen up by one row and clears
the last row in the active colour.

The project has four modules:

- `Screen` (screen.dfy) holds the grid and the byte path as pure functions
  over a `Writer` value (grid, row, column, colour).
- `Palette` (palette.dfy) holds the colour-name table.
- `Escapes` (escapes.dfy) holds the string path as a lookahead interpreter
  (`WriteStr`, one `Step` at a time). It also holds an independent
  three-state machine (Normal, SawBackslash, ReadingName) and a proof that
  the two agree on every input.
- `FrameBuffer` (framebuffer.dfy) holds the writer as the object it is. The
  class `FrameBufferWriter` has the cursor and colour fields and a 25 x 80
  `array2` of cells, which its methods update in place with the same loops
  as the source. Each method is proved to leave the object in exactly the
  state the pure function computes from the old state
  (`State() == Screen.WriteByte(old(State()), b)`, and so on). Every array
  access in those methods is proved in bounds.

A write to the last column leaves the column at 80, and the next plain byte
wraps before it writes, so the invariant proved is `row < 25 && col <= 80`
(`Screen.Valid`).

`color_from_name` matches a `Vec<u8>` of lowercased bytes against string
literals (src/framebuffer.rs:102-119), which cannot compile as written. The
model takes the evident intent: lowercase ASCII letters, then look the name
up exactly among the 16 names. A comment in palette.dfy says so.

`ch as u8` is modelled as the low byte of the character's code (`Narrow`).
`char::is_whitespace` is the Unicode White_Space set (`IsWhitespace`).

## Model

| member | source | states |
|---|---|---|
| Screen.Initial | src/framebuffer.rs:127-132 | the writer starts at row 0, column 0 in colour 0x0F and satisfies the writer invariant over any 25 x 80 grid |
| Screen.ClearRow | src/framebuffer.rs:92-99 | clearing a row keeps the grid 25 x 80 |
| Screen.ClearRowEffect | src/framebuffer.rs:92-99 | every cell of the cleared row is a space in the given colour; every other row is unchanged |
| Screen.ScrollUp | src/framebuffer.rs:82-90 | scrolling keeps the grid 25 x 80 |
| Screen.ScrollShift | src/framebuffer.rs:82-90 | after a scroll, new row r-1 is old row r for r in 1..25, and row 24 is blank in the active colour |
| Screen.NewLine | src/framebuffer.rs:73-80 | a line advance keeps the writer invariant, sets the column to 0 and keeps the colour |
| Screen.NewLineAdvance | src/framebuffer.rs:73-80 | moves down one row with the grid unchanged when a row below exists; otherwise stays on row 24 and scrolls the grid |
| Screen.PutByte | src/framebuffer.rs:58-69 | a plain byte keeps the writer invariant, leaves the column at least 1 and keeps the colour |
| Screen.Spaces | src/framebuffer.rs:53-57 | repeated space writes keep the writer invariant and the colour |
| Screen.WriteByte | src/framebuffer.rs:50-71 | every byte keeps `row < 25 && col <= 80` and never changes the colour |
| Screen.PlainByteWrite | src/framebuffer.rs:58-69 | with the column on the line, a plain byte lands at (row, col) in the active colour, the column advances by one, and no other cell or field changes |
| Screen.AutomaticWrap | src/framebuffer.rs:59-61 | with the column at 80, a plain byte first advances the line, so it lands in column 0 of the next row (or of row 24 after a scroll) and the column becomes 1 |
| Screen.TabIsFourSpaces | src/framebuffer.rs:53-57 | a tab byte is exactly four writes of a space byte |
| Screen.TabAcrossLineEnd | src/framebuffer.rs:53-57 | a tab two columns before the end of a line writes two spaces there and two at the start of the next row, leaving the column at 2 |
| Palette.AsciiLower | src/framebuffer.rs:102 | `to_ascii_lowercase` on one character: the result is never an upper-case ASCII letter, and only upper-case ASCII letters change, each to the letter 32 codes above |
| Palette.Lowercase | src/framebuffer.rs:102 | the lowercased name has the same length, no upper-case ASCII letter, and each character equal to the original up to ASCII case |
| Palette.Lookup | src/framebuffer.rs:102-119 | the match arms tried in order: a found index holds the name and no earlier index does; no result means no entry holds it |
| Palette.ColorFromName | src/framebuffer.rs:101-121 | a result is the index of the lowercased name among the 16 names; no result means the lowercased name is not among them |
| Palette.ColorTable | src/framebuffer.rs:101-121 | the i-th name maps to colour i for all 16 names, and a name resolves exactly when its lowercase form is one of them |
| Palette.ColorFromNameIgnoresCase | src/framebuffer.rs:102 | two names that differ only in the case of ASCII letters resolve to the same colour |
| Palette.ColorFromNameOfLowercase | src/framebuffer.rs:102 | lowercasing a name before the lookup changes nothing |
| Palette.LowercaseIdempotent | src/framebuffer.rs:102 | lowercasing twice is lowercasing once |
| Palette.NamesDistinct | src/framebuffer.rs:103-118 | no name appears twice in the table |
| Palette.TableEntry | src/framebuffer.rs:103-118 | each table name resolves to its own index |
| Palette.BlueResolves | src/framebuffer.rs:104 | "blue", "Blue" and "BLUE" all give colour 0x01 |
| Escapes.Narrow | src/framebuffer.rs:188-190 | defines `ch as u8` as the low byte of the character's code (a definition, not a proved property) |
| Escapes.NarrowIsLowByte | src/framebuffer.rs:188-190 | the definition gives the code modulo 256 for every character |
| Escapes.IsWhitespace | src/framebuffer.rs:173 | defines `c.is_whitespace()` as the Unicode White_Space set |
| Escapes.AsciiWhitespace | src/framebuffer.rs:173 | among ASCII characters, exactly tab, line feed, vertical tab, form feed, carriage return and space are whitespace |
| Escapes.ApplyColor | src/framebuffer.rs:180-182 | applying a name leaves grid and cursor alone; the colour becomes the resolved one when the name resolves and stays otherwise |
| Escapes.ColorEscapeResumes | src/framebuffer.rs:169-184 | a colour escape whose name ends at whitespace or at the end is consumed whole and writing resumes at that whitespace |
| Escapes.NameLength | src/framebuffer.rs:172-179 | the colour name is the longest prefix without whitespace: no whitespace before its end, and whitespace right after it unless the text ends |
| Escapes.Step | src/framebuffer.rs:153-191 | one iteration of the loop keeps the writer invariant and consumes at least one and at most all remaining characters |
| Escapes.WriteStr | src/framebuffer.rs:150-195 | writing a text keeps the writer invariant |
| Escapes.Run | src/framebuffer.rs:150-195 | the three-state reference machine keeps the writer invariant |
| Escapes.MachineAgrees | src/framebuffer.rs:150-195 | the lookahead interpreter and the three-state machine give the same writer for every text and every start state |
| Escapes.MachineAgreesEscape | src/framebuffer.rs:154-188 | the same agreement for text starting with a backslash |
| Escapes.MachineAgreesColor | src/framebuffer.rs:169-184 | the same agreement for text starting with a colour escape |
| Escapes.ColorThenWhitespace | src/framebuffer.rs:169-184 | when the name ends at a whitespace character, the machine and the interpreter both apply the name, write that whitespace and continue after it |
| Escapes.ColorToEnd | src/framebuffer.rs:169-184 | when the name runs to the end of the text, the machine and the interpreter agree |
| Escapes.MachineEntersName | src/framebuffer.rs:169-172 | after a backslash and `c` the machine reads a name starting from none |
| Escapes.InterpreterColorStep | src/framebuffer.rs:169-184 | the interpreter applies the name up to the first whitespace and goes on from that whitespace |
| Escapes.ReadingNameRuns | src/framebuffer.rs:172-183 | the machine reading a name collects exactly the characters up to the first whitespace, resolves the name, and hands that whitespace to the Normal state |
| Escapes.AfterNameShift | src/framebuffer.rs:176-177 | moving one non-whitespace character from the text onto the collected name does not change the outcome |
| Escapes.NewlineEscape | src/framebuffer.rs:157-161 | `\n` does what a raw newline byte does |
| Escapes.TabEscape | src/framebuffer.rs:162-168 | `\t` does what a raw tab byte does, which is what four spaces do |
| Escapes.NameLengthOfPrefix | src/framebuffer.rs:172-179 | a name without whitespace followed by whitespace or the end has exactly the name's length |
| Escapes.ColorEscape | src/framebuffer.rs:169-184 | `\c<name>` writes nothing and moves no cursor; it sets the colour when the name resolves and keeps it otherwise; the whitespace that ends the name is not consumed and is written next, in the new colour |
| Escapes.ColorStep | src/framebuffer.rs:169-184 | a colour escape step takes the name up to the first whitespace and consumes exactly the escape and the name |
| Escapes.StepThenRest | src/framebuffer.rs:153 | one loop iteration followed by the rest of the text is the whole text |
| Escapes.LiteralBackslash | src/framebuffer.rs:185-188 | a backslash followed by nothing or by a character other than n, t, c is written literally, and the next character is processed as usual |
| Escapes.PlainStep | src/framebuffer.rs:189-190 | a character other than a backslash is written as its low byte |
| Escapes.PlainTextAdvances | src/framebuffer.rs:189-190 | plain text that fits on the line advances the column by its length and keeps the row and the colour |
| Escapes.PlainPrefix | src/framebuffer.rs:153-191 | text without backslashes followed by more text is the same as writing the two in turn |
| Escapes.FullLineWraps | src/framebuffer.rs:59-61 | from column 0, after 80 plain characters the 81st lands in column 0 of the next row |
| Escapes.ThreeOnALine | src/framebuffer.rs:58-69 | three plain bytes on one line fill three adjacent cells and touch no other row |
| Escapes.TwoThenNewline | src/framebuffer.rs:157-161 | two plain characters and `\n` are two byte writes and a line advance |
| Escapes.ScenarioFirstLine | src/framebuffer.rs:150-195 | `Hi\n` from the initial state writes "Hi" in white on row 0 and moves to row 1, column 0 |
| Escapes.FirstLineCells | src/framebuffer.rs:58-80 | "H", "i" and a line advance from the initial state put "Hi" in white on row 0 and the cursor at row 1, column 0 |
| Escapes.BlueEscape | src/framebuffer.rs:169-184 | `\cBlue` followed by " ok" sets colour 0x01 and leaves " ok" to be written |
| Escapes.SpaceOk | src/framebuffer.rs:189-190 | " ok" is three plain byte writes |
| Escapes.ScenarioSecondLine | src/framebuffer.rs:150-195 | `\cBlue ok` at column 0 writes a blue space, 'o' and 'k' and ends at column 3 |
| Escapes.Scenario | src/framebuffer.rs:150-195 | from the initial state, `Hi\n\cBlue ok` leaves "Hi" white on row 0, a space and "ok" blue on row 1, and the cursor at row 1, column 3 |
| FrameBuffer.FrameBufferWriter.constructor | src/framebuffer.rs:126-133 | the writer starts at row 0, column 0, colour 0x0F over the given buffer |
| FrameBuffer.FrameBufferWriter.WriteByte | src/framebuffer.rs:50-71 | the in-place byte write leaves the object in the state `Screen.WriteByte` computes, with the invariant kept |
| FrameBuffer.FrameBufferWriter.NewLine | src/framebuffer.rs:73-80 | the in-place line advance leaves the object in the state `Screen.NewLine` computes |
| FrameBuffer.FrameBufferWriter.ScrollUp | src/framebuffer.rs:82-90 | the nested copy loops and the clear leave the buffer equal to `Screen.ScrollUp` of the old buffer; cursor and colour are untouched |
| FrameBuffer.FrameBufferWriter.ClearRow | src/framebuffer.rs:92-99 | the loop leaves the buffer equal to `Screen.ClearRow` of the old buffer |
| FrameBuffer.FrameBufferWriter.ReadColorName | src/framebuffer.rs:171-179 | the name-reading loop returns the characters from its start up to the first whitespace, and the position of that whitespace |
| FrameBuffer.FrameBufferWriter.WriteStr | src/framebuffer.rs:150-195 | the in-place interpreter leaves the object in the state `Escapes.WriteStr` computes |

## Left out

- `src/main.rs` is not part of this model. It is boot plumbing: an entry point, a stub writer, print macros and a panic handler.
- The `lazy_static!` `WRITER` singleton and its `spin::Mutex`. Only the initial state it creates is modelled, as the constructor. Lazy initialisation and mutual exclusion are not.
- The fixed hardware address 0xb8000 and the `Volatile` read and write semantics. The buffer is an ordinary array handed to the constructor.
- The `fb_print!` and `fb_println!` macros and the `core::fmt` formatting machinery. They only feed text to `write_str`.
- The `Deref` and `DerefMut` impls on `ScreenChar`. The cell writes at src/framebuffer.rs:64 and :94 dereference a `ScreenChar` value, which through `Deref` would pass only the character byte (and would not type-check against `Volatile<ScreenChar>::write`). They are modelled as writing the whole (character, colour) cell, which is the evident intent.
- UTF-8 decoding of the `&str`. The text is modelled as a sequence of Unicode scalar values (Dafny `char`).
- FrameBuffer.FrameBufferWriter.WriteStr: the `fmt::Result` it returns is always `Ok(())`, so the method returns nothing.
- FrameBuffer.FrameBufferWriter.WriteStr: the `continue` after each escape arm is written as an `if`/`else if` chain with the same branches. The inner name-reading loop is the separate method `ReadColorName`.
- Integer widths. The cursor fields are `usize` in the source and unbounded naturals here. The model proves they stay within 25 and 80, so no overflow can occur.
