/**
 * The string path of the display writer (`write_str`): text is a sequence
 * of characters (Unicode scalar values), and the two-character sequences
 * `\n`, `\t` and `\c<name>` are escapes. Everything else is written byte by
 * byte, each character narrowed to its low byte.
 *
 * `WriteStr` follows the source's one-character lookahead. `Run` is an
 * independent definition of the same language as a three-state machine
 * (Normal, SawBackslash, ReadingName), and `MachineAgrees` proves the two
 * equal on every input.
 */
module Escapes {
  import opened Screen
  import opened Palette

  /** `char::is_whitespace`: the Unicode White_Space property. */
  predicate IsWhitespace(c: char) {
    var n := c as int;
    (0x09 <= n <= 0x0D) || n == 0x20 || n == 0x85 || n == 0xA0 || n == 0x1680
    || (0x2000 <= n <= 0x200A) || n == 0x2028 || n == 0x2029 || n == 0x202F
    || n == 0x205F || n == 0x3000
  }

  /** Among ASCII characters, the whitespace is tab, LF, VT, FF, CR and space. */
  lemma AsciiWhitespace(c: char)
    requires c as int < 0x80
    ensures IsWhitespace(c) <==> c as int in {0x09, 0x0A, 0x0B, 0x0C, 0x0D, 0x20}
  {
  }

  /**
   * `ch as u8`: the low byte of the character's code. Codes below 256 are
   * their own low byte; the first branch spares the solver the modulus on
   * them (see `NarrowIsLowByte`).
   */
  function Narrow(c: char): Byte {
    if c as int < 256 then c as int else c as int % 256
  }

  lemma NarrowIsLowByte(c: char)
    ensures Narrow(c) == c as int % 256
  {
  }

  /**
   * The length of the colour name at the start of `s`: the characters up
   * to, and not including, the first whitespace character.
   */
  function NameLength(s: string): (n: nat)
    ensures n <= |s|
    ensures forall k :: 0 <= k < n ==> !IsWhitespace(s[k])
    ensures n < |s| ==> IsWhitespace(s[n])
  {
    if s == [] || IsWhitespace(s[0]) then 0 else 1 + NameLength(s[1..])
  }

  /** The effect of a colour escape: the named colour if it resolves. */
  function ApplyColor(w: Writer, name: string): (r: Writer)
    ensures r.grid == w.grid && r.row == w.row && r.col == w.col
    ensures ColorFromName(name).Some? ==> r.color == ColorFromName(name).value
    ensures ColorFromName(name).None? ==> r.color == w.color
  {
    match ColorFromName(name)
    case Some(c) => w.(color := c)
    case None => w
  }

  /**
   * One iteration of the `while let` loop of `write_str`: the writer after
   * it, and how many characters of `s` it consumed.
   */
  function Step(w: Writer, s: string): (r: (Writer, nat))
    requires Valid(w) && s != []
    ensures Valid(r.0) && 1 <= r.1 <= |s|
  {
    if s[0] == '\\' && |s| > 1 && s[1] == 'n' then (NewLine(w), 2)
    else if s[0] == '\\' && |s| > 1 && s[1] == 't' then (Spaces(w, 4), 2)
    else if s[0] == '\\' && |s| > 1 && s[1] == 'c' then
      var n := NameLength(s[2..]);
      (ApplyColor(w, s[2..2 + n]), 2 + n)
    else (WriteByte(w, Narrow(s[0])), 1)
  }

  /** `write_str`: the loop over the whole text. */
  function WriteStr(w: Writer, s: string): (r: Writer)
    requires Valid(w)
    ensures Valid(r)
    decreases |s|
  {
    if s == [] then w
    else
      var step := Step(w, s);
      WriteStr(step.0, s[step.1..])
  }

  // ---------------------------------------------------------------------
  // The escape language as a three-state machine

  datatype Mode = Normal | SawBackslash | ReadingName(name: string)

  /** One character in the Normal state. */
  function FeedNormal(w: Writer, c: char): (Mode, Writer)
    requires Valid(w)
  {
    if c == '\\' then (SawBackslash, w) else (Normal, WriteByte(w, Narrow(c)))
  }

  /** One transition of the machine. */
  function Feed(m: Mode, w: Writer, c: char): (Mode, Writer)
    requires Valid(w)
  {
    match m
    case Normal => FeedNormal(w, c)
    case SawBackslash =>
      if c == 'n' then (Normal, NewLine(w))
      else if c == 't' then (Normal, WriteByte(w, Tab))
      else if c == 'c' then (ReadingName([]), w)
      else FeedNormal(WriteByte(w, Backslash), c)
    case ReadingName(name) =>
      if IsWhitespace(c) then FeedNormal(ApplyColor(w, name), c)
      else (ReadingName(name + [c]), w)
  }

  /** What is left to do when the text ends in a state. */
  function Finish(m: Mode, w: Writer): Writer
    requires Valid(w)
  {
    match m
    case Normal => w
    case SawBackslash => WriteByte(w, Backslash)
    case ReadingName(name) => ApplyColor(w, name)
  }

  function Run(m: Mode, w: Writer, s: string): (r: Writer)
    requires Valid(w)
    ensures Valid(r)
    decreases |s|
  {
    if s == [] then Finish(m, w)
    else
      var (m', w') := Feed(m, w, s[0]);
      Run(m', w', s[1..])
  }

  /**
   * What the machine does from the ReadingName state: resolve the name
   * extended by the characters up to the first whitespace of `s`, then hand
   * that whitespace and the rest of `s` to the Normal state.
   */
  function AfterName(name: string, w: Writer, s: string): Writer
    requires Valid(w)
  {
    var n := NameLength(s);
    if n == |s| then ApplyColor(w, name + s)
    else Run(Normal, WriteByte(ApplyColor(w, name + s[..n]), Narrow(s[n])), s[n + 1..])
  }

  /** Moving one name character from the text to the collected name. */
  lemma AfterNameShift(name: string, w: Writer, s: string)
    requires Valid(w) && s != [] && !IsWhitespace(s[0])
    ensures AfterName(name + [s[0]], w, s[1..]) == AfterName(name, w, s)
  {
    var n := NameLength(s);
    assert NameLength(s[1..]) == n - 1;
    assert name + [s[0]] + s[1..] == name + s;
    assert name + [s[0]] + s[1..][..n - 1] == name + s[..n];
    if n < |s| {
      assert s[1..][n - 1] == s[n];
      assert s[1..][n - 1 + 1..] == s[n + 1..];
    }
  }

  /**
   * Reading a colour name: the machine collects exactly the characters up
   * to the first whitespace, then resolves the name and hands the
   * whitespace itself to the Normal state.
   */
  lemma {:induction false} ReadingNameRuns(name: string, w: Writer, s: string)
    requires Valid(w)
    ensures Run(ReadingName(name), w, s) == AfterName(name, w, s)
    decreases |s|
  {
    if s == [] {
      assert name + s == name;
    } else if !IsWhitespace(s[0]) {
      assert Run(ReadingName(name), w, s) == Run(ReadingName(name + [s[0]]), w, s[1..]);
      ReadingNameRuns(name + [s[0]], w, s[1..]);
      AfterNameShift(name, w, s);
    } else {
      assert NameLength(s) == 0;
      assert name + s[..0] == name;
      var w' := ApplyColor(w, name);
      assert Feed(ReadingName(name), w, s[0]) == (Normal, WriteByte(w', Narrow(s[0])));
    }
  }

  /** The lookahead interpreter and the three-state machine agree. */
  lemma {:induction false} MachineAgrees(w: Writer, s: string)
    requires Valid(w)
    ensures Run(Normal, w, s) == WriteStr(w, s)
    decreases |s|, 2
  {
    if s == [] {
    } else if s[0] != '\\' {
      MachineAgrees(WriteByte(w, Narrow(s[0])), s[1..]);
    } else {
      MachineAgreesEscape(w, s);
    }
  }

  /** The case of `MachineAgrees` for text starting with a backslash. */
  lemma {:induction false} MachineAgreesEscape(w: Writer, s: string)
    requires Valid(w) && s != [] && s[0] == '\\'
    ensures Run(Normal, w, s) == WriteStr(w, s)
    decreases |s|, 1
  {
    assert Run(Normal, w, s) == Run(SawBackslash, w, s[1..]);
    if |s| == 1 {
      assert Run(SawBackslash, w, s[1..]) == WriteByte(w, Backslash);
    } else if s[1] == 'n' {
      assert s[1..][1..] == s[2..];
      assert Run(SawBackslash, w, s[1..]) == Run(Normal, NewLine(w), s[2..]);
      MachineAgrees(NewLine(w), s[2..]);
    } else if s[1] == 't' {
      assert s[1..][1..] == s[2..];
      assert Run(SawBackslash, w, s[1..]) == Run(Normal, WriteByte(w, Tab), s[2..]);
      MachineAgrees(Spaces(w, 4), s[2..]);
    } else if s[1] == 'c' {
      MachineAgreesColor(w, s);
    } else {
      assert Run(SawBackslash, w, s[1..]) == Run(Normal, WriteByte(w, Backslash), s[1..]);
      MachineAgrees(WriteByte(w, Backslash), s[1..]);
    }
  }

  /** The case of `MachineAgrees` for text starting with a colour escape. */
  lemma {:induction false} MachineAgreesColor(w: Writer, s: string)
    requires Valid(w) && |s| >= 2 && s[0] == '\\' && s[1] == 'c'
    ensures Run(Normal, w, s) == WriteStr(w, s)
    decreases |s|, 0
  {
    var n := NameLength(s[2..]);
    if 2 + n < |s| {
      ColorThenWhitespace(w, s);
      MachineAgrees(WriteByte(ApplyColor(w, s[2..2 + n]), Narrow(s[2 + n])), s[3 + n..]);
    } else {
      ColorToEnd(w, s);
    }
  }

  /**
   * A colour escape whose name ends at a whitespace character: both the
   * machine and the interpreter apply the name, write that whitespace and
   * go on with the text after it.
   */
  lemma ColorThenWhitespace(w: Writer, s: string)
    requires Valid(w) && |s| >= 2 && s[0] == '\\' && s[1] == 'c'
    requires 2 + NameLength(s[2..]) < |s|
    ensures var n := NameLength(s[2..]);
      var w' := WriteByte(ApplyColor(w, s[2..2 + n]), Narrow(s[2 + n]));
      && Run(Normal, w, s) == Run(Normal, w', s[3 + n..])
      && WriteStr(w, s) == WriteStr(w', s[3 + n..])
  {
    var rest := s[2..];
    var n := NameLength(rest);
    MachineEntersName(w, s);
    InterpreterColorStep(w, s);
    assert [] + rest[..n] == rest[..n];
    assert s[2..2 + n] == rest[..n];
    assert rest[n + 1..] == s[3 + n..];
    assert s[2 + n..][1..] == s[3 + n..];
    PlainStep(ApplyColor(w, rest[..n]), s[2 + n..]);
  }

  /** A colour escape whose name runs to the end of the text. */
  lemma ColorToEnd(w: Writer, s: string)
    requires Valid(w) && |s| >= 2 && s[0] == '\\' && s[1] == 'c'
    requires 2 + NameLength(s[2..]) == |s|
    ensures Run(Normal, w, s) == WriteStr(w, s)
  {
    var rest := s[2..];
    MachineEntersName(w, s);
    InterpreterColorStep(w, s);
    assert [] + rest == rest;
    assert s[2..2 + |rest|] == rest;
    assert s[|s|..] == [];
  }

  /** After `\\c` the machine is reading a name, starting from none. */
  lemma MachineEntersName(w: Writer, s: string)
    requires Valid(w) && |s| >= 2 && s[0] == '\\' && s[1] == 'c'
    ensures Run(Normal, w, s) == AfterName([], w, s[2..])
  {
    assert s[1..][1..] == s[2..];
    assert Run(Normal, w, s) == Run(ReadingName([]), w, s[2..]);
    ReadingNameRuns([], w, s[2..]);
  }

  /** The interpreter's colour escape: apply the name, go on after it. */
  lemma InterpreterColorStep(w: Writer, s: string)
    requires Valid(w) && |s| >= 2 && s[0] == '\\' && s[1] == 'c'
    ensures var n := NameLength(s[2..]);
      WriteStr(w, s) == WriteStr(ApplyColor(w, s[2..2 + n]), s[2 + n..])
  {
    var n := NameLength(s[2..]);
    ColorStep(w, s, 0, 2 + n);
    assert s[0..] == s;
    StepThenRest(w, s, 0, 2 + n, Step(w, s));
  }

  // ---------------------------------------------------------------------
  // Properties of the escape language

  /** `\n` does what a raw newline does. */
  lemma NewlineEscape(w: Writer, rest: string)
    requires Valid(w)
    ensures WriteStr(w, "\\n" + rest) == WriteStr(WriteByte(w, Newline), rest)
  {
    assert ("\\n" + rest)[2..] == rest;
  }

  /** `\t` does what a raw tab does: four writes of a space. */
  lemma TabEscape(w: Writer, rest: string)
    requires Valid(w)
    ensures WriteStr(w, "\\t" + rest) == WriteStr(WriteByte(w, Tab), rest)
    ensures WriteStr(w, "\\t" + rest) == WriteStr(w, "    " + rest)
  {
    assert ("\\t" + rest)[2..] == rest;
    TabIsFourSpaces(w);
    var s0 := "    " + rest;
    var w1 := WriteByte(w, Space);
    var w2 := WriteByte(w1, Space);
    var w3 := WriteByte(w2, Space);
    var w4 := WriteByte(w3, Space);
    assert WriteStr(w, s0) == WriteStr(w1, s0[1..]);
    assert WriteStr(w1, s0[1..]) == WriteStr(w2, s0[2..]);
    assert WriteStr(w2, s0[2..]) == WriteStr(w3, s0[3..]);
    assert WriteStr(w3, s0[3..]) == WriteStr(w4, s0[4..]);
    assert s0[4..] == rest;
  }

  lemma {:induction false} NameLengthOfPrefix(name: string, rest: string)
    requires forall k :: 0 <= k < |name| ==> !IsWhitespace(name[k])
    requires rest == [] || IsWhitespace(rest[0])
    ensures NameLength(name + rest) == |name|
  {
    if name != [] {
      assert (name + rest)[1..] == name[1..] + rest;
      NameLengthOfPrefix(name[1..], rest);
    } else {
      assert name + rest == rest;
    }
  }

  /**
   * `\c<name>` takes the name up to, and not including, the whitespace that
   * ends it: the escape writes nothing and moves no cursor, changes the
   * colour exactly when the name resolves, and leaves the whitespace to be
   * written as an ordinary character, in the new colour.
   */
  lemma ColorEscape(w: Writer, name: string, rest: string)
    requires Valid(w)
    requires forall k :: 0 <= k < |name| ==> !IsWhitespace(name[k])
    requires rest == [] || IsWhitespace(rest[0])
    ensures var w' := ApplyColor(w, name);
      && w'.grid == w.grid && w'.row == w.row && w'.col == w.col
      && (ColorFromName(name).Some? ==> w'.color == ColorFromName(name).value)
      && (ColorFromName(name).None? ==> w'.color == w.color)
      && WriteStr(w, "\\c" + name + rest) == WriteStr(w', rest)
      && (rest != [] ==> WriteStr(w', rest) == WriteStr(WriteByte(w', Narrow(rest[0])), rest[1..]))
  {
    ColorEscapeResumes(w, name, rest);
    if rest != [] {
      PlainStep(ApplyColor(w, name), rest);
    }
  }

  /** The colour escape is consumed whole, and writing resumes after it. */
  lemma ColorEscapeResumes(w: Writer, name: string, rest: string)
    requires Valid(w)
    requires forall k :: 0 <= k < |name| ==> !IsWhitespace(name[k])
    requires rest == [] || IsWhitespace(rest[0])
    ensures WriteStr(w, "\\c" + name + rest) == WriteStr(ApplyColor(w, name), rest)
  {
    var s := "\\c" + name + rest;
    assert s[2..] == name + rest;
    NameLengthOfPrefix(name, rest);
    ColorStep(w, s, 0, 2 + |name|);
    assert s[0..] == s;
    assert s[2..2 + |name|] == name;
    assert s[2 + |name|..] == rest;
  }

  /** One step of the text loop followed by the rest of the text. */
  lemma StepThenRest(w: Writer, s: string, i: nat, j: nat, next: (Writer, nat))
    requires Valid(w) && i < |s|
    requires next == Step(w, s[i..]) && j == i + next.1
    ensures j <= |s|
    ensures WriteStr(next.0, s[j..]) == WriteStr(w, s[i..])
  {
    assert s[i..][next.1..] == s[j..];
  }

  /**
   * The step for a colour escape at `i` whose name ends at `j`: the name
   * is `s[i + 2..j]` and the step consumes up to `j`.
   */
  lemma ColorStep(w: Writer, s: string, i: nat, j: nat)
    requires Valid(w) && i + 2 <= j <= |s|
    requires s[i] == '\\' && s[i + 1] == 'c'
    requires NameLength(s[i + 2..]) == j - (i + 2)
    ensures Step(w, s[i..]) == (ApplyColor(w, s[i + 2..j]), j - i)
  {
    var rest := s[i..];
    assert rest[2..] == s[i + 2..];
    assert rest[2..2 + (j - (i + 2))] == s[i + 2..j];
  }

  /**
   * A backslash that does not start an escape (followed by nothing, or by
   * a character other than `n`, `t`, `c`) is written literally, and the
   * character after it is processed as usual.
   */
  lemma LiteralBackslash(w: Writer, rest: string)
    requires Valid(w)
    requires rest == [] || rest[0] !in {'n', 't', 'c'}
    ensures WriteStr(w, "\\" + rest) == WriteStr(WriteByte(w, Backslash), rest)
  {
    assert ("\\" + rest)[1..] == rest;
  }

  /**
   * Plain text that fits on the current line (no backslash, and no
   * character whose low byte is a newline or a tab) advances the column by
   * its length and keeps the row and colour.
   */
  lemma {:induction false} PlainTextAdvances(w: Writer, s: string)
    requires Valid(w) && w.col + |s| <= Width
    requires forall k :: 0 <= k < |s| ==> s[k] != '\\' && Narrow(s[k]) != Newline && Narrow(s[k]) != Tab
    ensures var r := WriteStr(w, s);
      r.col == w.col + |s| && r.row == w.row && r.color == w.color
    decreases |s|
  {
    if s != [] {
      PlainTextAdvances(WriteByte(w, Narrow(s[0])), s[1..]);
    }
  }

  /** A character that does not start an escape is written as its low byte. */
  lemma PlainStep(w: Writer, s: string)
    requires Valid(w) && s != [] && s[0] != '\\'
    ensures WriteStr(w, s) == WriteStr(WriteByte(w, Narrow(s[0])), s[1..])
  {
  }

  /**
   * Text without backslashes is interpreted one character at a time, so
   * writing it and then more text is the same as writing the two in turn.
   */
  lemma {:induction false} PlainPrefix(w: Writer, a: string, b: string)
    requires Valid(w)
    requires forall k :: 0 <= k < |a| ==> a[k] != '\\'
    ensures WriteStr(w, a + b) == WriteStr(WriteStr(w, a), b)
    decreases |a|
  {
    if a == [] {
      assert a + b == b;
    } else {
      PlainStep(w, a + b);
      assert (a + b)[1..] == a[1..] + b;
      PlainStep(w, a);
      PlainPrefix(WriteByte(w, Narrow(a[0])), a[1..], b);
    }
  }

  /**
   * A full line of plain characters written from column 0, then one more:
   * the extra character wraps to column 0 of the next row.
   */
  lemma FullLineWraps(w: Writer, s: string)
    requires Valid(w) && w.col == 0 && w.row + 1 < Height && |s| == Width + 1
    requires forall k :: 0 <= k < |s| ==> s[k] != '\\' && Narrow(s[k]) != Newline && Narrow(s[k]) != Tab
    ensures var r := WriteStr(w, s);
      && r.row == w.row + 1 && r.col == 1 && r.color == w.color
      && r.grid[w.row + 1][0] == ScreenChar(Narrow(s[Width]), w.color)
  {
    var line := s[..Width];
    assert s == line + s[Width..];
    PlainPrefix(w, line, s[Width..]);
    PlainTextAdvances(w, line);
    var w' := WriteStr(w, line);
    PlainStep(w', s[Width..]);
    assert s[Width..][1..] == [];
    AutomaticWrap(w', Narrow(s[Width]));
  }

  /** The writes of the scenario below, as plain bytes on one line. */
  lemma ThreeOnALine(w: Writer, a: Byte, b: Byte, c: Byte)
    requires Valid(w) && w.col + 3 <= Width
    requires a !in {Newline, Tab} && b !in {Newline, Tab} && c !in {Newline, Tab}
    ensures var r := WriteByte(WriteByte(WriteByte(w, a), b), c);
      && r.row == w.row && r.col == w.col + 3 && r.color == w.color
      && r.grid[w.row][w.col] == ScreenChar(a, w.color)
      && r.grid[w.row][w.col + 1] == ScreenChar(b, w.color)
      && r.grid[w.row][w.col + 2] == ScreenChar(c, w.color)
      && forall i, j :: 0 <= i < Height && 0 <= j < Width && i != w.row ==> r.grid[i][j] == w.grid[i][j]
  {
    var w1 := WriteByte(w, a);
    PlainByteWrite(w, a);
    var w2 := WriteByte(w1, b);
    PlainByteWrite(w1, b);
    PlainByteWrite(w2, c);
  }

  /** Two plain characters, then a newline escape. */
  lemma TwoThenNewline(w: Writer, s: string)
    requires Valid(w) && |s| >= 4
    requires s[0] != '\\' && s[1] != '\\' && s[2] == '\\' && s[3] == 'n'
    ensures WriteStr(w, s)
         == WriteStr(NewLine(WriteByte(WriteByte(w, Narrow(s[0])), Narrow(s[1]))), s[4..])
  {
    var w1 := WriteByte(w, Narrow(s[0]));
    var w2 := WriteByte(w1, Narrow(s[1]));
    PlainStep(w, s);
    PlainStep(w1, s[1..]);
    assert s[1..][1..] == s[2..];
    assert WriteStr(w2, s[2..]) == WriteStr(NewLine(w2), s[2..][2..]);
    assert s[2..][2..] == s[4..];
  }

  /** The scenario below up to the colour escape: "Hi", then a line advance. */
  lemma ScenarioFirstLine(g: Grid)
    requires IsGrid(g)
    ensures var w := NewLine(WriteByte(WriteByte(Initial(g), 'H' as int), 'i' as int));
      && WriteStr(Initial(g), "Hi\\n\\cBlue ok") == WriteStr(w, "\\cBlue ok")
      && w.row == 1 && w.col == 0 && w.color == DefaultColor
      && w.grid[0][0] == ScreenChar('H' as int, DefaultColor)
      && w.grid[0][1] == ScreenChar('i' as int, DefaultColor)
  {
    var s := "Hi\\n\\cBlue ok";
    TwoThenNewline(Initial(g), s);
    assert s[4..] == "\\cBlue ok";
    FirstLineCells(g);
  }

  /** The writes of "Hi" and a line advance from the initial state. */
  lemma FirstLineCells(g: Grid)
    requires IsGrid(g)
    ensures var w := NewLine(WriteByte(WriteByte(Initial(g), 'H' as int), 'i' as int));
      && w.row == 1 && w.col == 0 && w.color == DefaultColor
      && w.grid[0][0] == ScreenChar('H' as int, DefaultColor)
      && w.grid[0][1] == ScreenChar('i' as int, DefaultColor)
  {
    var w0 := Initial(g);
    PlainByteWrite(w0, 'H' as int);
    PlainByteWrite(WriteByte(w0, 'H' as int), 'i' as int);
  }

  lemma BlueEscape(w: Writer)
    requires Valid(w)
    ensures WriteStr(w, "\\cBlue ok") == WriteStr(w.(color := 0x01), " ok")
  {
    assert "\\cBlue ok" == "\\c" + "Blue" + " ok";
    BlueResolves();
    ColorEscape(w, "Blue", " ok");
  }

  lemma SpaceOk(w: Writer)
    requires Valid(w)
    ensures WriteStr(w, " ok") == WriteByte(WriteByte(WriteByte(w, Space), 'o' as int), 'k' as int)
  {
    var t := " ok";
    var w5 := WriteByte(w, Space);
    var w6 := WriteByte(w5, 'o' as int);
    PlainStep(w, t);
    assert t[1..] == "ok";
    PlainStep(w5, "ok");
    assert "ok"[1..] == "k";
    PlainStep(w6, "k");
    assert "k"[1..] == [];
  }

  /** The scenario below from the colour escape on. */
  lemma ScenarioSecondLine(w: Writer)
    requires Valid(w) && w.col == 0
    ensures var r := WriteStr(w, "\\cBlue ok");
      && r.row == w.row && r.col == 3 && r.color == 0x01
      && r.grid[w.row][0] == ScreenChar(Space, 0x01)
      && r.grid[w.row][1] == ScreenChar('o' as int, 0x01)
      && r.grid[w.row][2] == ScreenChar('k' as int, 0x01)
      && forall i, j :: 0 <= i < Height && 0 <= j < Width && i != w.row ==> r.grid[i][j] == w.grid[i][j]
  {
    BlueEscape(w);
    SpaceOk(w.(color := 0x01));
    ThreeOnALine(w.(color := 0x01), Space, 'o' as int, 'k' as int);
  }

  /**
   * From the start state, `Hi\\n\\cBlue ok` leaves "Hi" in white on row 0,
   * and on row 1 a space and "ok" in blue (the space is the whitespace that
   * ended the colour name), with the cursor at row 1, column 3.
   */
  lemma Scenario(g: Grid)
    requires IsGrid(g)
    ensures var r := WriteStr(Initial(g), "Hi\\n\\cBlue ok");
      && r.row == 1 && r.col == 3 && r.color == 0x01
      && r.grid[0][0] == ScreenChar('H' as int, DefaultColor)
      && r.grid[0][1] == ScreenChar('i' as int, DefaultColor)
      && r.grid[1][0] == ScreenChar(Space, 0x01)
      && r.grid[1][1] == ScreenChar('o' as int, 0x01)
      && r.grid[1][2] == ScreenChar('k' as int, 0x01)
  {
    ScenarioFirstLine(g);
    ScenarioSecondLine(NewLine(WriteByte(WriteByte(Initial(g), 'H' as int), 'i' as int)));
  }
}
