# The line editor's read loop, in Dafny

This project models `Editor.ReadLine` of the `edit` package (edit/editor.go),
the loop of a small terminal line editor. The loop keeps the line typed so
far and a tip (a status message drawn after the line). Each round it draws
(prompt, line, tip) with `refresh`, reads one rune and dispatches it:

- Enter commits the line: the tip is cleared, the line is drawn once more and
  a newline is written.
- DEL (0x7f) removes the last character; on an empty line it only beeps, and
  beep does nothing.
- ^U (0x15) empties the line.
- ^D (0x04) ends input, but only on an empty line.
- ^B (0x02) and ^F (0x06) write the cursor-left and cursor-right escape
  sequences and change nothing else.
- A graphic rune is appended to the line.
- Any other rune sets the tip to `Non-graphic: %#x` of the rune.

A failed `refresh` or a failed read ends the call with that error.

Files and modules:

- `utf8.dfy`, module `Utf8`: the line is a Go string, so it is modelled as
  UTF-8 bytes. This module models what the loop uses of Go's `unicode/utf8`
  package: `string(r)` (`Encode`), `DecodeRuneInString` (`DecodeRune`) and
  `DecodeLastRuneInString` (`DecodeLastRune`), following that package's
  algorithm. Its lemmas prove that DEL cuts exactly the bytes of the last
  encoded character.
- `hex.dfy`, module `Hex`: the `%#x` verb of `fmt` for a non-negative
  integer. This is `0x` followed by lower-case hex digits with no leading
  zeros, and `0x0` for zero. A reader function is proved to recover the
  number from the digits.
- `editor.dfy`, module `Editor`: the data and the loop.
  - `Step` is the `switch`.
  - `Run` is a recursive definition of a whole call. It returns the result
    and the trace of terminal events.
  - `ReadLine` is the loop itself, a method with a `while` loop over mutable
    locals, proved equal to `Run`.
  - `AsStruct` is the Go `LineRead` struct.
- `editor_properties.dfy`, module `EditorProperties` holds the properties:
  - what each key does;
  - a reference dispatch over sequences of characters (`RuneStep`), which
    the byte-level `Step` is proved to follow;
  - that a drawing comes before every read;
  - how errors end the call;
  - sessions typed key by key.

The terminal is an environment given as values:

- `input: seq<Input>` lists what each ReadRune call hands back, either a key
  or an error. Once it is used up, reads fail with `EndOfFile` (io.EOF).
- `writes: seq<WriteResult>` lists whether each `refresh` call fails. Calls
  beyond the list succeed.
- `unicode.IsGraphic` is a parameter `isGraphic`. Lemmas that need it assume
  `ControlsAreNotGraphic` (runes below 0x20, and DEL, are not graphic) and,
  where keys are typed, that those keys are graphic.

What the loop does to the terminal is a trace of events:

- `Refresh(prompt, line, tip)` for every call of refresh;
- `ReadRune` for every read;
- `Raw(s)` for the escape sequences and the final newline, which are written
  directly.

One behaviour of the code worth noting: malformed input bytes do not end
the call. `bufio.Reader.ReadRune` turns them into U+FFFD, which is graphic
and is appended like any other character. So input is modelled as runes
that are already decoded.

## Model

| member | source | states |
|---|---|---|
| Utf8.Encode | edit/editor.go:119 | `string(r)` is 1 to 4 bytes: one byte exactly for ASCII, a start byte followed only by continuation bytes |
| Utf8.Encoding | edit/editor.go:119 | the line built by appending `string(r)` for each rune is at least as many bytes as runes |
| Utf8.DecodeRune | edit/editor.go:105 | the width decoded is at most the input's length and zero only for empty input |
| Utf8.ScanBack | edit/editor.go:105 | the backward scan of `DecodeLastRuneInString` stops inside the string, at a start byte in range or at the fallback position |
| Utf8.DecodeLastRune | edit/editor.go:105-106 | the width of the last rune is at most `len(line)` and zero only for an empty line, so `line[:l-w]` is always in range |
| Utf8.DecodeEncoded | edit/editor.go:103-119 | decoding the front of `string(r)` + anything gives back r and the encoding's width |
| Utf8.DecodedIsEncoding | edit/editor.go:105 | every well-formed sequence the decoder accepts is exactly `string(r)` of the rune it yields (the converse of DecodeEncoded) |
| Utf8.ScanFindsLead | edit/editor.go:105 | on p + `string(r)` the backward scan stops exactly at the lead byte of r's encoding, whatever p holds |
| Utf8.DecodeLastOfEncoded | edit/editor.go:105-106 | the last rune of p + `string(r)` is r and is exactly that encoding's width, whatever p holds |
| Utf8.EncodingEmpty | edit/editor.go:104-112 | the line is empty in bytes exactly when it holds no characters |
| Utf8.DropLastRune | edit/editor.go:103-106 | cutting the reported width off an encoded rune sequence leaves exactly the encoding of all runes but the last |
| Hex.Digits | edit/editor.go:121 | the `%x` digits are lower-case hex digits, at least one, with a leading `0` only for zero |
| Hex.AlternateHex | edit/editor.go:121 | `%#x` starts with `0x` and has at least one digit |
| Hex.ValueOfDigits | edit/editor.go:121 | reading the digits back gives the number: the text names it exactly |
| Hex.AlternateHexNames | edit/editor.go:121 | the text after `0x` denotes the number |
| Editor.NonGraphicTip | edit/editor.go:121 | the tip for a rejected key is `Non-graphic: 0x` followed by at least one digit |
| Editor.Step | edit/editor.go:94-122 | the switch commits exactly on Enter, ends input exactly on ^D with an empty line, and writes something directly exactly for ^B and ^F |
| Editor.Run | edit/editor.go:83-87 | every call starts by drawing (prompt, current line, current tip) |
| Editor.ReadLine | edit/editor.go:78-124 | the loop over mutable line and tip returns exactly the result and the terminal events that the round-by-round definition Run gives |
| Editor.AsStruct | edit/editor.go:20-26 | the struct has Err set exactly for errors, Eof exactly for end of input, and Line holding the text only for a committed line |
| EditorProperties.NewlineCommits | edit/editor.go:95-102 | Enter returns `Line` holding exactly the current line; the tip is cleared for the final drawing, which is followed by a newline |
| EditorProperties.BackspaceRemovesLastRune | edit/editor.go:103-106 | DEL removes exactly the last character, multi-byte or not, and keeps the prefix and tip |
| EditorProperties.BackspaceOnEmptyLine | edit/editor.go:103-109 | DEL on an empty line leaves line and tip unchanged (beep does nothing) |
| EditorProperties.BackspaceUndoesGraphic | edit/editor.go:103-119 | a graphic key then DEL gives back the line that was there before |
| EditorProperties.KillEmptiesLine | edit/editor.go:110-111 | ^U empties the line whatever it held and keeps the tip |
| EditorProperties.CtrlDOnEmptyLine | edit/editor.go:112-113 | ^D on an empty line ends input |
| EditorProperties.CtrlDOnNonEmptyLine | edit/editor.go:112-121 | ^D on a non-empty line keeps the line and sets the tip `Non-graphic: 0x4` |
| EditorProperties.CursorKeysOnlyEcho | edit/editor.go:114-117 | ^B and ^F keep line and tip and only write `ESC [ D` and `ESC [ C` |
| EditorProperties.GraphicAppends | edit/editor.go:118-119 | a graphic key adds exactly that character at the end of the line and keeps the tip |
| EditorProperties.TipNamesKey | edit/editor.go:121 | the tip is `Non-graphic: 0x` followed by digits that denote the rune |
| EditorProperties.NonGraphicSetsTip | edit/editor.go:120-121 | a non-graphic key that matches no case keeps the line and sets the tip naming it |
| EditorProperties.StepChanges | edit/editor.go:94-122 | between rounds the tip changes only to name a rejected non-graphic key, and the line changes only on DEL, ^U or a graphic key |
| EditorProperties.CtrlATip | edit/editor.go:121 | the tip for 0x1 is `Non-graphic: 0x1` |
| EditorProperties.StepEncodesRuneStep | edit/editor.go:94-122 | on a line of whole encoded characters, the byte-level switch does exactly what the reference switch on character sequences does |
| EditorProperties.FailuresEndTheCall | edit/editor.go:84-100 | a failed refresh returns `Err` after one drawing; a failed read returns `Err` after drawing and reading; a failed refresh after Enter returns `Err` after the tip-less drawing, with no newline |
| EditorProperties.RunContinues | edit/editor.go:83-123 | a key that neither commits nor ends input leads to the next round from the new line and tip, after drawing, reading and the key's own output |
| EditorProperties.RefreshBeforeEveryRead | edit/editor.go:83-89 | every read comes right after a drawing with the same prompt |
| EditorProperties.TypedKey | edit/editor.go:118-123 | a graphic key in a typed run moves the call on to the line with that character added |
| EditorProperties.TypedLineStep | edit/editor.go:94-119 | one more graphic key in front keeps the commit of the whole typed line |
| EditorProperties.TypedLineCommits | edit/editor.go:94-119 | graphic keys then Enter return `Line` of the line followed by exactly those characters; the last drawing shows it with no tip, then a newline |
| EditorProperties.CommittedLineIsWholeRunes | edit/editor.go:103-119 | a committed line is always a sequence of whole encoded characters |
| EditorProperties.TypingHi | edit/editor.go:78-124 | with prompt `> `, keys h, i, Enter return `Line "hi"` with exactly the expected drawings and reads |
| EditorProperties.BackspacesThenCtrlD | edit/editor.go:103-113 | keys a, DEL, DEL, ^D return `Eof` |
| EditorProperties.CtrlAShowsTip | edit/editor.go:84-121 | key 0x1 on an empty line keeps it empty and the next drawing shows `Non-graphic: 0x1` |
| EditorProperties.StructTaggedExceptEmptyLine | edit/editor.go:20-26 | the struct has exactly one non-zero member for every result except a committed empty line |
| EditorProperties.EmptyLineHasNoNonZeroMember | edit/editor.go:95-102 | Enter on an empty line returns a struct with no non-zero member |
| EditorProperties.ExactlyOneCase | edit/editor.go:20-26 | the result type of the model has exactly one case for every result, the empty line included |

## Left out

- `Init` and `Cleanup` (edit/editor.go:29-68) are left out. They read, copy and apply terminal attributes through the `./tty` package, which is not part of this model, and they write escape sequences to the terminal. Note that `Cleanup` sets `savedTermios` to nil only after the restore succeeds (edit/editor.go:62-66).
- `writer.refresh` and `newWriter` are not part of this model. A refresh is recorded as an event with its arguments, and it may fail. Rendering, erasing and idempotence of redraws are not modelled.
- `bufio.Reader.ReadRune` decoding is library code. Input is given as runes that are already decoded, or as a read error.
- `unicode.IsGraphic` is a parameter. Only the fact that control characters and DEL are not graphic is assumed, and only where a lemma needs it.
- Write errors of `fmt.Fprint`, `Fprintln` and `Fprintf` are ignored by the source, so the model records those writes as events that cannot fail.
- `beep` (edit/editor.go:70-71) has an empty body, so DEL on an empty line has no effect in the model.
- Utf8.Encode: covers only Unicode scalar values, the only runes ReadRune returns. Go's substitution of U+FFFD for surrogates and out-of-range values is not modelled.
- EditorProperties.RefreshBeforeEveryRead: says that a drawing with the same prompt comes right before each read, but not which line and tip that drawing shows. That it shows the current state is the first ensures of Editor.Run, applied to each round through EditorProperties.RunContinues.

## Findings

| source | as written | input that shows it | evidently intended | confidence | as-written member | corrected member |
|---|---|---|---|---|---|---|
| edit/editor.go:20-21 | the comment says exactly one member of `LineRead` is non-zero, but committing an empty line returns `LineRead{Line: ""}`, where no member is | Enter as the first key of a call | a committed empty line is a result of its own, different from "nothing set" | medium (the comment may be what is wrong); not executed | EditorProperties.EmptyLineHasNoNonZeroMember | EditorProperties.ExactlyOneCase |
