/** The line editor's read loop (edit/editor.go, `Editor.ReadLine`).

    The state of the loop is the line typed so far, held as UTF-8 bytes like
    the Go string it is, and a tip: a status message shown after the line.
    Each round draws (prompt, line, tip), reads one rune and dispatches it
    (Step). The terminal is an environment given as values: the runes (or
    the read error) that ReadRune hands back in turn, and whether each call
    of refresh succeeds. What the loop writes is recorded as a trace of
    events. */
module Editor {
  import opened Utf8
  import Hex

  const Newline: Rune := 0x0A
  const Backspace: Rune := 0x7F
  const CtrlU: Rune := 0x15
  const CtrlD: Rune := 0x04
  const CtrlB: Rune := 0x02
  const CtrlF: Rune := 0x06

  /** The escape sequences ^B and ^F write: cursor left, cursor right. */
  const CursorLeft: string := "\U{1b}[D"
  const CursorRight: string := "\U{1b}[C"

  /** A Go error value, never nil. */
  datatype Error = EndOfFile | IoError(reason: string)

  /** The result of ReadLine: a committed line, end of input, or an error. */
  datatype LineRead = Line(text: Bytes) | Eof | Err(error: Error)

  /** What the loop does to the terminal, in order: each call of refresh
      with its arguments (whether it then fails or not), each call of
      ReadRune, and each escape sequence or newline written directly. */
  datatype Event = Refresh(prompt: string, line: Bytes, tip: string) | ReadRune | Raw(text: string)

  /** What one ReadRune call hands back. */
  datatype Input = Key(r: Rune) | ReadFailed(error: Error)

  /** What one refresh call returns. */
  datatype WriteResult = Written | WriteFailed(error: Error)

  /** The effect of one key: go on with a new line and tip (having written
      `echo` directly to the terminal), commit the line, or end input. */
  datatype Outcome<L> = Continue(line: L, tip: string, echo: seq<Event>) | Commit | EndOfInput

  /** Go's unicode.IsGraphic is a parameter `isGraphic` of the model; all
      the dispatch relies on is that control characters are not graphic. */
  ghost predicate ControlsAreNotGraphic(isGraphic: Rune -> bool) {
    forall r: Rune :: (r < 0x20 || r == Backspace) ==> !isGraphic(r)
  }

  /** The tip for a key that matches no case: "Non-graphic: %#x". */
  function NonGraphicTip(r: Rune): (t: string)
    ensures |t| > 15 && t[..15] == "Non-graphic: 0x"
  {
    "Non-graphic: " + Hex.AlternateHex(r)
  }

  /** The switch of ReadLine: one key applied to (line, tip). */
  function Step(line: Bytes, tip: string, r: Rune, isGraphic: Rune -> bool): (o: Outcome<Bytes>)
    ensures o.Commit? <==> r == Newline
    ensures o.EndOfInput? <==> r == CtrlD && line == []
    ensures o.Continue? ==> (o.echo != [] <==> r == CtrlB || r == CtrlF)
  {
    if r == Newline then Commit
    else if r == Backspace then
      // an empty line only beeps, and beep does nothing
      var cut := if |line| > 0 then line[..|line| - DecodeLastRune(line).1] else line;
      Continue(cut, tip, [])
    else if r == CtrlU then Continue([], tip, [])
    else if r == CtrlD && |line| == 0 then EndOfInput
    else if r == CtrlB then Continue(line, tip, [Raw(CursorLeft)])
    else if r == CtrlF then Continue(line, tip, [Raw(CursorRight)])
    else if isGraphic(r) then Continue(line + Encode(r), tip, [])
    else Continue(line, NonGraphicTip(r), [])
  }

  /** The next ReadRune result; once the input is used up, io.EOF. */
  function NextInput(input: seq<Input>): Input {
    if input == [] then ReadFailed(EndOfFile) else input[0]
  }

  /** The next refresh result; refresh calls beyond those listed succeed. */
  function NextWrite(writes: seq<WriteResult>): WriteResult {
    if writes == [] then Written else writes[0]
  }

  /** What is left of an environment sequence once its head is used. */
  function Rest<T>(xs: seq<T>): (r: seq<T>)
    ensures |r| == if xs == [] then 0 else |xs| - 1
  {
    if xs == [] then [] else xs[1..]
  }

  /** ReadLine from state (line, tip) on: its result and the events it
      causes. Every round starts by drawing the current state. */
  function Run(prompt: string, line: Bytes, tip: string, input: seq<Input>,
               writes: seq<WriteResult>, isGraphic: Rune -> bool): (res: (LineRead, seq<Event>))
    ensures |res.1| >= 1 && res.1[0] == Refresh(prompt, line, tip)
    decreases |input|
  {
    var drawn := [Refresh(prompt, line, tip)];
    var w := NextWrite(writes);
    if w.WriteFailed? then (Err(w.error), drawn)
    else
      var read := [Refresh(prompt, line, tip), ReadRune];
      var next := NextInput(input);
      if next.ReadFailed? then (Err(next.error), read)
      else match Step(line, tip, next.r, isGraphic)
        case Commit =>
          // the tip is cleared for the final drawing of the committed line
          var last := [Refresh(prompt, line, tip), ReadRune, Refresh(prompt, line, "")];
          var w' := NextWrite(Rest(writes));
          if w'.WriteFailed? then (Err(w'.error), last)
          else (Line(line), [Refresh(prompt, line, tip), ReadRune, Refresh(prompt, line, ""), Raw("\n")])
        case EndOfInput => (Eof, read)
        case Continue(l, t, echo) =>
          var tail := Run(prompt, l, t, Rest(input), Rest(writes), isGraphic);
          (tail.0, read + echo + tail.1)
  }

  /** `Editor.ReadLine(prompt)`: starts from an empty line and tip and loops
      until a key commits the line or ends input, or a call fails. */
  method ReadLine(prompt: string, input: seq<Input>, writes: seq<WriteResult>, isGraphic: Rune -> bool)
    returns (lr: LineRead, trace: seq<Event>)
    ensures (lr, trace) == Run(prompt, [], "", input, writes, isGraphic)
  {
    var line: Bytes := [];
    var tip: string := "";
    var keys, results := input, writes;
    trace := [];
    while true
      invariant Run(prompt, [], "", input, writes, isGraphic).0
                == Run(prompt, line, tip, keys, results, isGraphic).0
      invariant Run(prompt, [], "", input, writes, isGraphic).1
                == trace + Run(prompt, line, tip, keys, results, isGraphic).1
      decreases |keys|
    {
      ghost var before, here := trace, Run(prompt, line, tip, keys, results, isGraphic);
      ghost var read := [Refresh(prompt, line, tip), ReadRune];
      trace := trace + [Refresh(prompt, line, tip)];
      var w := NextWrite(results);
      if w.WriteFailed? {
        return Err(w.error), trace;
      }
      trace := trace + [ReadRune];
      assert trace == before + read;
      var next := NextInput(keys);
      if next.ReadFailed? {
        assert here == (Err(next.error), read);
        return Err(next.error), trace;
      }
      keys, results := Rest(keys), Rest(results);
      match Step(line, tip, next.r, isGraphic)
      case Commit =>
        ghost var old_tip := tip;
        tip := "";
        trace := trace + [Refresh(prompt, line, tip)];
        assert trace == before + [Refresh(prompt, line, old_tip), ReadRune, Refresh(prompt, line, "")];
        w := NextWrite(results);
        if w.WriteFailed? {
          assert here == (Err(w.error), [Refresh(prompt, line, old_tip), ReadRune, Refresh(prompt, line, "")]);
          return Err(w.error), trace;
        }
        trace := trace + [Raw("\n")];
        assert trace == before + [Refresh(prompt, line, old_tip), ReadRune, Refresh(prompt, line, ""), Raw("\n")];
        assert here == (Line(line), [Refresh(prompt, line, old_tip), ReadRune, Refresh(prompt, line, ""), Raw("\n")]);
        return Line(line), trace;
      case EndOfInput =>
        assert here == (Eof, read);
        return Eof, trace;
      case Continue(l, t, echo) =>
        line, tip, trace := l, t, trace + echo;
    }
  }

  /** The LineRead struct of the Go code, whose comment calls it a tagged
      union with exactly one non-zero member. */
  datatype ErrorField = Nil | NonNil(error: Error)
  datatype GoLineRead = GoLineRead(line: Bytes, eof: bool, err: ErrorField)

  /** The struct each return statement of ReadLine builds. */
  function AsStruct(lr: LineRead): (g: GoLineRead)
    ensures g.err.NonNil? <==> lr.Err?
    ensures g.eof <==> lr.Eof?
    ensures lr.Line? ==> g.line == lr.text
    ensures !lr.Line? ==> g.line == []
  {
    match lr
    case Line(text) => GoLineRead(text, false, Nil)
    case Eof => GoLineRead([], true, Nil)
    case Err(e) => GoLineRead([], false, NonNil(e))
  }

  /** How many members of the struct are non-zero. */
  function NonZeroMembers(g: GoLineRead): nat {
    (if g.line != [] then 1 else 0) + (if g.eof then 1 else 0) + (if g.err.NonNil? then 1 else 0)
  }
}
