/** What the read loop of edit/editor.go promises: the effect of each key,
    the meaning of the line as a sequence of characters, the order of
    drawing and reading, how the loop ends, and whole sessions. */
module EditorProperties {
  import opened Utf8
  import opened Editor
  import Hex

  // ---------------------------------------------------------------------
  // One key at a time: the cases of the switch.
  // ---------------------------------------------------------------------

  /** Enter ends the call with the line exactly as it stands; the tip is
      cleared before the last drawing and a newline follows it. */
  lemma NewlineCommits(prompt: string, line: Bytes, tip: string, input: seq<Input>,
                       writes: seq<WriteResult>, isGraphic: Rune -> bool)
    requires NextInput(input) == Key(Newline)
    requires NextWrite(writes) == Written && NextWrite(Rest(writes)) == Written
    ensures Run(prompt, line, tip, input, writes, isGraphic)
            == (Line(line), [Refresh(prompt, line, tip), ReadRune, Refresh(prompt, line, ""), Raw("\n")])
  {
  }

  /** Backspace removes exactly the last character, however many bytes it
      takes, and keeps everything before it. */
  lemma BackspaceRemovesLastRune(p: Bytes, r: Rune, tip: string, isGraphic: Rune -> bool)
    ensures Step(p + Encode(r), tip, Backspace, isGraphic) == Continue(p, tip, [])
  {
    DecodeLastOfEncoded(p, r);
    assert (p + Encode(r))[..|p|] == p;
  }

  /** Backspace on an empty line changes nothing (it only beeps). */
  lemma BackspaceOnEmptyLine(tip: string, isGraphic: Rune -> bool)
    ensures Step([], tip, Backspace, isGraphic) == Continue([], tip, [])
  {
  }

  /** Typing a graphic character and then Backspace gives the line back. */
  lemma BackspaceUndoesGraphic(line: Bytes, tip: string, r: Rune, isGraphic: Rune -> bool)
    requires ControlsAreNotGraphic(isGraphic) && isGraphic(r)
    ensures Step(line, tip, r, isGraphic) == Continue(line + Encode(r), tip, [])
    ensures Step(line + Encode(r), tip, Backspace, isGraphic) == Continue(line, tip, [])
  {
    BackspaceRemovesLastRune(line, r, tip, isGraphic);
  }

  /** ^U empties the line whatever it held and leaves the tip alone. */
  lemma KillEmptiesLine(line: Bytes, tip: string, isGraphic: Rune -> bool)
    ensures Step(line, tip, CtrlU, isGraphic) == Continue([], tip, [])
  {
  }

  /** ^D on an empty line ends input. */
  lemma CtrlDOnEmptyLine(tip: string, isGraphic: Rune -> bool)
    ensures Step([], tip, CtrlD, isGraphic) == EndOfInput
  {
  }

  /** ^D on a non-empty line does not end input: it is a rejected key. */
  lemma CtrlDOnNonEmptyLine(line: Bytes, tip: string, isGraphic: Rune -> bool)
    requires ControlsAreNotGraphic(isGraphic) && line != []
    ensures Step(line, tip, CtrlD, isGraphic) == Continue(line, "Non-graphic: 0x4", [])
  {
    assert !isGraphic(CtrlD);
    assert Hex.Digits(4) == "4";
  }

  /** ^B and ^F change neither line nor tip; they only move the terminal's
      cursor with an escape sequence. */
  lemma CursorKeysOnlyEcho(line: Bytes, tip: string, isGraphic: Rune -> bool)
    ensures Step(line, tip, CtrlB, isGraphic) == Continue(line, tip, [Raw("\U{1b}[D")])
    ensures Step(line, tip, CtrlF, isGraphic) == Continue(line, tip, [Raw("\U{1b}[C")])
  {
  }

  /** A graphic character goes at the end of the line: one character more,
      the tip unchanged. */
  lemma GraphicAppends(rs: seq<Rune>, tip: string, r: Rune, isGraphic: Rune -> bool)
    requires ControlsAreNotGraphic(isGraphic) && isGraphic(r)
    ensures Step(Encoding(rs), tip, r, isGraphic) == Continue(Encoding(rs + [r]), tip, [])
  {
    assert (rs + [r])[..|rs|] == rs;
  }

  /** The tip for a rejected key is "Non-graphic: 0x" followed by
      hexadecimal digits that name the key exactly. */
  lemma TipNamesKey(r: Rune)
    ensures NonGraphicTip(r)[..15] == "Non-graphic: 0x"
    ensures Hex.Value(NonGraphicTip(r)[15..]) == r
  {
    var h := Hex.AlternateHex(r);
    var t := NonGraphicTip(r);
    assert t == "Non-graphic: " + h;
    assert t[..15] == "Non-graphic: " + h[..2];
    assert t[15..] == h[2..];
    Hex.AlternateHexNames(r);
  }

  /** Any other key leaves the line alone and sets the tip that names it. */
  lemma NonGraphicSetsTip(line: Bytes, tip: string, r: Rune, isGraphic: Rune -> bool)
    requires !isGraphic(r) && r !in {Newline, Backspace, CtrlU, CtrlB, CtrlF}
    requires !(r == CtrlD && line == [])
    ensures Step(line, tip, r, isGraphic) == Continue(line, NonGraphicTip(r), [])
  {
  }

  /** Between rounds, the tip changes only to name a rejected key, and
      the line changes only on Backspace, ^U or a graphic key. */
  lemma StepChanges(line: Bytes, tip: string, r: Rune, isGraphic: Rune -> bool)
    ensures var o := Step(line, tip, r, isGraphic);
            o.Continue? && o.tip != tip ==> o.tip == NonGraphicTip(r) && !isGraphic(r)
    ensures var o := Step(line, tip, r, isGraphic);
            o.Continue? && o.line != line ==> r == Backspace || r == CtrlU || isGraphic(r)
  {
  }

  /** ^A gives the tip "Non-graphic: 0x1". */
  lemma CtrlATip()
    ensures NonGraphicTip(1) == "Non-graphic: 0x1"
  {
    assert Hex.Digits(1) == "1";
  }

  // ---------------------------------------------------------------------
  // The line as characters: the byte-level switch against a reference
  // switch on sequences of runes.
  // ---------------------------------------------------------------------

  /** The switch read at the level of characters: Backspace drops the last
      character, a graphic key adds one, ^U drops them all. */
  function RuneStep(rs: seq<Rune>, tip: string, r: Rune, isGraphic: Rune -> bool): Outcome<seq<Rune>> {
    if r == Newline then Commit
    else if r == Backspace then Continue(if rs == [] then [] else rs[..|rs| - 1], tip, [])
    else if r == CtrlU then Continue([], tip, [])
    else if r == CtrlD && rs == [] then EndOfInput
    else if r == CtrlB then Continue(rs, tip, [Raw(CursorLeft)])
    else if r == CtrlF then Continue(rs, tip, [Raw(CursorRight)])
    else if isGraphic(r) then Continue(rs + [r], tip, [])
    else Continue(rs, NonGraphicTip(r), [])
  }

  function Encoded(o: Outcome<seq<Rune>>): Outcome<Bytes> {
    match o
    case Continue(rs, tip, echo) => Continue(Encoding(rs), tip, echo)
    case Commit => Commit
    case EndOfInput => EndOfInput
  }

  /** The byte-level switch on an encoded line does what the character-level
      switch does, encoded: the line always holds whole characters. */
  lemma StepEncodesRuneStep(rs: seq<Rune>, tip: string, r: Rune, isGraphic: Rune -> bool)
    ensures Step(Encoding(rs), tip, r, isGraphic) == Encoded(RuneStep(rs, tip, r, isGraphic))
  {
    EncodingEmpty(rs);
    var line := Encoding(rs);
    if r == Newline {
    } else if r == Backspace {
      if rs != [] {
        var p := rs[..|rs| - 1];
        BackspaceRemovesLastRune(Encoding(p), rs[|rs| - 1], tip, isGraphic);
        assert line == Encoding(p) + Encode(rs[|rs| - 1]);
      }
    } else if r == CtrlU {
    } else if r == CtrlD && rs == [] {
    } else if r == CtrlB || r == CtrlF {
    } else if isGraphic(r) {
      assert (rs + [r])[..|rs|] == rs;
      assert Encoding(rs + [r]) == line + Encode(r);
    } else {
    }
  }

  // ---------------------------------------------------------------------
  // Whole calls of ReadLine.
  // ---------------------------------------------------------------------

  /** A failed refresh or a failed read ends the call with that error, and
      so does a failed refresh after Enter. */
  lemma FailuresEndTheCall(prompt: string, line: Bytes, tip: string, input: seq<Input>,
                           writes: seq<WriteResult>, isGraphic: Rune -> bool)
    ensures NextWrite(writes).WriteFailed? ==>
            Run(prompt, line, tip, input, writes, isGraphic)
            == (Err(NextWrite(writes).error), [Refresh(prompt, line, tip)])
    ensures NextWrite(writes) == Written && NextInput(input).ReadFailed? ==>
            Run(prompt, line, tip, input, writes, isGraphic)
            == (Err(NextInput(input).error), [Refresh(prompt, line, tip), ReadRune])
    ensures NextWrite(writes) == Written && NextInput(input) == Key(Newline)
            && NextWrite(Rest(writes)).WriteFailed? ==>
            Run(prompt, line, tip, input, writes, isGraphic)
            == (Err(NextWrite(Rest(writes)).error),
                [Refresh(prompt, line, tip), ReadRune, Refresh(prompt, line, "")])
  {
  }

  /** A key that neither commits nor ends input: the call goes on from
      the new state, after drawing, reading and the key's own output. */
  lemma RunContinues(prompt: string, line: Bytes, tip: string, input: seq<Input>,
                     writes: seq<WriteResult>, isGraphic: Rune -> bool,
                     line': Bytes, tip': string, echo: seq<Event>)
    requires NextWrite(writes) == Written && NextInput(input).Key?
    requires Step(line, tip, NextInput(input).r, isGraphic) == Continue(line', tip', echo)
    ensures var tail := Run(prompt, line', tip', Rest(input), Rest(writes), isGraphic);
            Run(prompt, line, tip, input, writes, isGraphic)
            == (tail.0, [Refresh(prompt, line, tip), ReadRune] + echo + tail.1)
    ensures var tail := Run(prompt, line', tip', Rest(input), Rest(writes), isGraphic);
            echo == [] ==>
            Run(prompt, line, tip, input, writes, isGraphic)
            == (tail.0, [Refresh(prompt, line, tip), ReadRune] + tail.1)
  {
    assert [Refresh(prompt, line, tip), ReadRune] + [] == [Refresh(prompt, line, tip), ReadRune];
  }

  /** Every read of a key comes right after a drawing of the prompt: the
      screen is brought up to date before the loop waits for input. */
  lemma {:induction false} RefreshBeforeEveryRead(prompt: string, line: Bytes, tip: string,
                                                  input: seq<Input>, writes: seq<WriteResult>,
                                                  isGraphic: Rune -> bool)
    ensures var t := Run(prompt, line, tip, input, writes, isGraphic).1;
            forall i :: 0 <= i < |t| && t[i] == ReadRune ==>
              i > 0 && t[i - 1].Refresh? && t[i - 1].prompt == prompt
    decreases |input|
  {
    var next := NextInput(input);
    if NextWrite(writes) == Written && next.Key? {
      match Step(line, tip, next.r, isGraphic)
      case Continue(l, tp, echo) =>
        RefreshBeforeEveryRead(prompt, l, tp, Rest(input), Rest(writes), isGraphic);
        RunContinues(prompt, line, tip, input, writes, isGraphic, l, tp, echo);
        var tail := Run(prompt, l, tp, Rest(input), Rest(writes), isGraphic).1;
        var t := Run(prompt, line, tip, input, writes, isGraphic).1;
        assert t == [Refresh(prompt, line, tip), ReadRune] + echo + tail;
        assert forall j :: 0 <= j < |echo| ==> echo[j].Raw?;
        forall i | 0 <= i < |t| && t[i] == ReadRune
          ensures i > 0 && t[i - 1].Refresh? && t[i - 1].prompt == prompt
        {
          var k := 2 + |echo|;
          if i >= k {
            assert t[i] == tail[i - k];
            if i > k {
              assert t[i - 1] == tail[i - k - 1];
            }
          }
        }
      case Commit =>
      case EndOfInput =>
    }
  }

  /** The keys of a sequence of runes, as ReadRune hands them back. */
  function Keys(ks: seq<Rune>): (input: seq<Input>)
    ensures |input| == |ks|
  {
    if ks == [] then [] else [Key(ks[0])] + Keys(ks[1..])
  }

  /** One graphic key of TypedLineCommits: the call goes on from the
      line with that key's character added. */
  lemma TypedKey(prompt: string, rs: seq<Rune>, tip: string, ks: seq<Rune>, isGraphic: Rune -> bool)
    requires ControlsAreNotGraphic(isGraphic) && ks != [] && isGraphic(ks[0])
    ensures var tail := Run(prompt, Encoding(rs + [ks[0]]), tip, Keys(ks[1..]) + [Key(Newline)], [], isGraphic);
            Run(prompt, Encoding(rs), tip, Keys(ks) + [Key(Newline)], [], isGraphic)
            == (tail.0, [Refresh(prompt, Encoding(rs), tip), ReadRune] + tail.1)
  {
    var input := Keys(ks) + [Key(Newline)];
    assert NextInput(input) == Key(ks[0]);
    GraphicAppends(rs, tip, ks[0], isGraphic);
    assert Rest(input) == Keys(ks[1..]) + [Key(Newline)];
    RunContinues(prompt, Encoding(rs), tip, input, [], isGraphic, Encoding(rs + [ks[0]]), tip, []);
  }

  /** A call that commits `line`, drawing it with no tip just before the
      final newline. */
  predicate EndsCommitted(res: (LineRead, seq<Event>), prompt: string, line: Bytes) {
    res.0 == Line(line) && |res.1| >= 4
    && res.1[|res.1| - 2] == Refresh(prompt, line, "")
    && res.1[|res.1| - 1] == Raw("\n")
  }

  lemma EndsCommittedAfter(res: (LineRead, seq<Event>), tail: (LineRead, seq<Event>), before: seq<Event>,
                           prompt: string, line: Bytes)
    requires res == (tail.0, before + tail.1) && EndsCommitted(tail, prompt, line)
    ensures EndsCommitted(res, prompt, line)
  {
    var t := res.1;
    assert t[|t| - 2] == tail.1[|tail.1| - 2] && t[|t| - 1] == tail.1[|tail.1| - 1];
  }

  /** What TypedLineCommits promises for the line Encoding(rs) and the
      graphic keys ks. */
  ghost predicate CommitsTyped(prompt: string, rs: seq<Rune>, tip: string, ks: seq<Rune>, isGraphic: Rune -> bool) {
    EndsCommitted(Run(prompt, Encoding(rs), tip, Keys(ks) + [Key(Newline)], [], isGraphic), prompt, Encoding(rs + ks))
  }

  lemma MoveFirst(rs: seq<Rune>, ks: seq<Rune>)
    requires ks != []
    ensures Encoding(rs + [ks[0]] + ks[1..]) == Encoding(rs + ks)
  {
    assert rs + [ks[0]] + ks[1..] == rs + ks;
  }

  /** The inductive step of TypedLineCommits. */
  lemma TypedLineStep(prompt: string, rs: seq<Rune>, tip: string, ks: seq<Rune>, isGraphic: Rune -> bool)
    requires ControlsAreNotGraphic(isGraphic) && ks != [] && isGraphic(ks[0])
    requires CommitsTyped(prompt, rs + [ks[0]], tip, ks[1..], isGraphic)
    ensures CommitsTyped(prompt, rs, tip, ks, isGraphic)
  {
    TypedKey(prompt, rs, tip, ks, isGraphic);
    MoveFirst(rs, ks);
    EndsCommittedAfter(Run(prompt, Encoding(rs), tip, Keys(ks) + [Key(Newline)], [], isGraphic),
                       Run(prompt, Encoding(rs + [ks[0]]), tip, Keys(ks[1..]) + [Key(Newline)], [], isGraphic),
                       [Refresh(prompt, Encoding(rs), tip), ReadRune], prompt, Encoding(rs + ks));
  }

  /** Graphic keys followed by Enter commit the line followed by exactly
      those characters; the last drawing shows that line with no tip. */
  lemma {:induction false} TypedLineCommits(prompt: string, rs: seq<Rune>, tip: string, ks: seq<Rune>,
                                            isGraphic: Rune -> bool)
    requires ControlsAreNotGraphic(isGraphic)
    requires forall i :: 0 <= i < |ks| ==> isGraphic(ks[i])
    ensures CommitsTyped(prompt, rs, tip, ks, isGraphic)
    decreases |ks|
  {
    if ks == [] {
      assert rs + ks == rs;
      NewlineCommits(prompt, Encoding(rs), tip, Keys(ks) + [Key(Newline)], [], isGraphic);
    } else {
      TypedLineCommits(prompt, rs + [ks[0]], tip, ks[1..], isGraphic);
      TypedLineStep(prompt, rs, tip, ks, isGraphic);
    }
  }

  /** A committed line is always a sequence of whole encoded characters:
      no key can leave half a character behind. */
  lemma {:induction false} CommittedLineIsWholeRunes(prompt: string, rs: seq<Rune>, tip: string,
                                                     input: seq<Input>, writes: seq<WriteResult>,
                                                     isGraphic: Rune -> bool)
    ensures var res := Run(prompt, Encoding(rs), tip, input, writes, isGraphic).0;
            res.Line? ==> exists rs': seq<Rune> :: res.text == Encoding(rs')
    decreases |input|
  {
    var next := NextInput(input);
    if NextWrite(writes) == Written && next.Key? {
      StepEncodesRuneStep(rs, tip, next.r, isGraphic);
      match RuneStep(rs, tip, next.r, isGraphic)
      case Continue(rs', tp, echo) =>
        CommittedLineIsWholeRunes(prompt, rs', tp, Rest(input), Rest(writes), isGraphic);
      case Commit =>
      case EndOfInput =>
    }
  }

  // ---------------------------------------------------------------------
  // Sessions.
  // ---------------------------------------------------------------------

  /** The first round of TypingHi: h goes on the empty line. */
  lemma TypingHiFirst(isGraphic: Rune -> bool)
    requires ControlsAreNotGraphic(isGraphic) && isGraphic('h' as int)
    ensures var tail := Run("> ", [0x68], "", [Key('i' as int), Key(Newline)], [], isGraphic);
            Run("> ", [], "", [Key('h' as int), Key('i' as int), Key(Newline)], [], isGraphic)
            == (tail.0, [Refresh("> ", [], ""), ReadRune] + tail.1)
  {
    var input := [Key('h' as int), Key('i' as int), Key(Newline)];
    BackspaceUndoesGraphic([], "", 'h' as int, isGraphic);
    assert [] + Encode('h' as int) == [0x68];
    assert Rest(input) == [Key('i' as int), Key(Newline)];
    RunContinues("> ", [], "", input, [], isGraphic, [0x68], "", []);
  }

  /** The second round of TypingHi: i goes after h. */
  lemma TypingHiSecond(isGraphic: Rune -> bool)
    requires ControlsAreNotGraphic(isGraphic) && isGraphic('i' as int)
    ensures var tail := Run("> ", [0x68, 0x69], "", [Key(Newline)], [], isGraphic);
            Run("> ", [0x68], "", [Key('i' as int), Key(Newline)], [], isGraphic)
            == (tail.0, [Refresh("> ", [0x68], ""), ReadRune] + tail.1)
  {
    var input := [Key('i' as int), Key(Newline)];
    BackspaceUndoesGraphic([0x68], "", 'i' as int, isGraphic);
    assert [0x68] + Encode('i' as int) == [0x68, 0x69];
    assert Rest(input) == [Key(Newline)];
    RunContinues("> ", [0x68], "", input, [], isGraphic, [0x68, 0x69], "", []);
  }

  /** With prompt "> ", typing h, i and Enter commits "hi". */
  lemma TypingHi(isGraphic: Rune -> bool)
    requires ControlsAreNotGraphic(isGraphic) && isGraphic('h' as int) && isGraphic('i' as int)
    ensures Run("> ", [], "", [Key('h' as int), Key('i' as int), Key(Newline)], [], isGraphic)
            == (Line([0x68, 0x69]),
                [Refresh("> ", [], ""), ReadRune,
                 Refresh("> ", [0x68], ""), ReadRune,
                 Refresh("> ", [0x68, 0x69], ""), ReadRune,
                 Refresh("> ", [0x68, 0x69], ""), Raw("\n")])
  {
    TypingHiFirst(isGraphic);
    TypingHiSecond(isGraphic);
    NewlineCommits("> ", [0x68, 0x69], "", [Key(Newline)], [], isGraphic);
    var last := Run("> ", [0x68, 0x69], "", [Key(Newline)], [], isGraphic);
    var second := Run("> ", [0x68], "", [Key('i' as int), Key(Newline)], [], isGraphic);
    var first := Run("> ", [], "", [Key('h' as int), Key('i' as int), Key(Newline)], [], isGraphic);
    assert first.1 == [Refresh("> ", [], ""), ReadRune] + ([Refresh("> ", [0x68], ""), ReadRune] + last.1);
    assert first.1 == [Refresh("> ", [], ""), ReadRune,
                       Refresh("> ", [0x68], ""), ReadRune,
                       Refresh("> ", [0x68, 0x69], ""), ReadRune,
                       Refresh("> ", [0x68, 0x69], ""), Raw("\n")];
  }

  /** a, Backspace, Backspace, ^D: the two Backspaces leave the line empty
      (the second only beeps) and ^D then ends input. */
  lemma BackspacesThenCtrlD(prompt: string, isGraphic: Rune -> bool)
    requires ControlsAreNotGraphic(isGraphic) && isGraphic('a' as int)
    ensures Run(prompt, [], "", [Key('a' as int), Key(Backspace), Key(Backspace), Key(CtrlD)], [], isGraphic).0
            == Eof
  {
    var input := [Key('a' as int), Key(Backspace), Key(Backspace), Key(CtrlD)];
    BackspaceUndoesGraphic([], "", 'a' as int, isGraphic);
    assert Rest(input) == [Key(Backspace), Key(Backspace), Key(CtrlD)];
    assert Rest(Rest(input)) == [Key(Backspace), Key(CtrlD)];
    assert Rest(Rest(Rest(input))) == [Key(CtrlD)];
    RunContinues(prompt, [], "", input, [], isGraphic, Encode('a' as int), "", []);
    RunContinues(prompt, Encode('a' as int), "", Rest(input), [], isGraphic, [], "", []);
    RunContinues(prompt, [], "", Rest(Rest(input)), [], isGraphic, [], "", []);
  }

  /** ^A on an empty line leaves it empty and the next drawing shows the
      tip "Non-graphic: 0x1". */
  lemma CtrlAShowsTip(prompt: string, isGraphic: Rune -> bool)
    requires ControlsAreNotGraphic(isGraphic)
    ensures Run(prompt, [], "", [Key(1)], [], isGraphic)
            == (Err(EndOfFile),
                [Refresh(prompt, [], ""), ReadRune, Refresh(prompt, [], "Non-graphic: 0x1"), ReadRune])
  {
    assert !isGraphic(1);
    CtrlATip();
    NonGraphicSetsTip([], "", 1, isGraphic);
    RunContinues(prompt, [], "", [Key(1)], [], isGraphic, [], "Non-graphic: 0x1", []);
    assert Rest([Key(1)]) == [];
    FailuresEndTheCall(prompt, [], "Non-graphic: 0x1", [], [], isGraphic);
    var tail := Run(prompt, [], "Non-graphic: 0x1", [], [], isGraphic);
    assert tail == (Err(EndOfFile), [Refresh(prompt, [], "Non-graphic: 0x1"), ReadRune]);
    var whole := Run(prompt, [], "", [Key(1)], [], isGraphic);
    assert whole.1 == [Refresh(prompt, [], ""), ReadRune] + tail.1;
    assert whole.0 == Err(EndOfFile);
    assert whole.1 == [Refresh(prompt, [], ""), ReadRune, Refresh(prompt, [], "Non-graphic: 0x1"), ReadRune];
  }

  // ---------------------------------------------------------------------
  // The LineRead struct.
  // ---------------------------------------------------------------------

  /** As written, the struct has one non-zero member for every result
      except a committed empty line, which has none. */
  lemma StructTaggedExceptEmptyLine(lr: LineRead)
    ensures NonZeroMembers(AsStruct(lr)) == 1 <==> lr != Line([])
  {
  }

  /** Enter on an empty line returns LineRead{Line: ""}: all members zero. */
  lemma EmptyLineHasNoNonZeroMember(prompt: string, isGraphic: Rune -> bool)
    ensures Run(prompt, [], "", [Key(Newline)], [], isGraphic).0 == Line([])
    ensures NonZeroMembers(AsStruct(Line([]))) == 0
  {
  }

  /** The sum type the model returns instead: exactly one case holds, the
      empty committed line included. */
  lemma ExactlyOneCase(lr: LineRead)
    ensures (if lr.Line? then 1 else 0) + (if lr.Eof? then 1 else 0) + (if lr.Err? then 1 else 0) == 1
    ensures lr.Line? ==> lr != Eof && !lr.Err?
  {
  }
}
